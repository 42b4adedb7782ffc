/** What a repeated reading is answered: an idempotency key has one outcome, in serial runs and under any interleaving. */
module GateReplay {
  import opened GateSchema
  import opened Options
  import opened GateDecision
  import opened GateInvariants
  import opened GateConcurrency

  /** The table has an event of the key, and no event of the key with another outcome. */
  ghost predicate Settled(es: seq<AccessEvent>, key: Key, d: Decision, why: Reason) {
    && (exists i :: 0 <= i < |es| && es[i].key == key)
    && forall i :: 0 <= i < |es| && es[i].key == key ==> es[i].decision == d && es[i].reason == why
  }

  /** The decisions the barrier opens for. */
  const OPENING: set<Decision> := {Allow, AllowWithWarning, OfflineAllow}

  lemma FoundIsSettled(es: seq<AccessEvent>, key: Key, d: Decision, why: Reason)
    requires Settled(es, key, d, why)
    ensures FindEvent(es, key).Some? && FindEvent(es, key).value.decision == d && FindEvent(es, key).value.reason == why
  {
  }

  /** A request whose key is recorded is answered from the record, whatever it says otherwise, and changes nothing; a dry
      run as well. */
  lemma RepeatIsAnswered(w: World, st: Tables, r: Request, i: nat)
    requires UniqueKeys(st) && i < |st.events| && st.events[i].key == r.key && r.gateKnown
    ensures
      var e := st.events[i];
      Process(w, st, r) == (st, Answer(e.decision, e.reason, e.decision in OPENING, true))
  {
    hide FindEvent, MakePlan, Commit;
    FoundIsSettled(st.events, r.key, st.events[i].decision, st.events[i].reason);
  }

  /** A commit refused on its key gives decision, reason and barrier of the event recorded under that key. */
  lemma RefusedOnKey(w: World, st: Tables, p: Plan, i: nat)
    requires UniqueKeys(st) && i < |st.events| && st.events[i].key == p.key
    ensures
      var e := st.events[i];
      Commit(w, st, p) == (st, Answer(e.decision, e.reason, e.decision in OPENING, true))
  {
    hide FindEvent, Enter, Vacate;
    FoundIsSettled(st.events, p.key, st.events[i].decision, st.events[i].reason);
  }

  // ---------- an outcome, once recorded, stays ----------

  lemma SettledAnswers(w: World, st: Tables, r: Request, p: Plan, d: Decision, why: Reason)
    requires Settled(st.events, r.key, d, why) && r.gateKnown && p.key == r.key
    ensures Read(w, st, r) == Answered(Answer(d, why, d in OPENING, true))
    ensures Process(w, st, r) == (st, Answer(d, why, d in OPENING, true))
    ensures Commit(w, st, p) == (st, Answer(d, why, d in OPENING, true))
  {
    hide FindEvent, MakePlan, Enter, Vacate, Settled;
    FoundIsSettled(st.events, r.key, d, why);
  }

  lemma CommitEvents(w: World, st: Tables, p: Plan)
    ensures Commit(w, st, p).0.events == if Conflict(st, p) then st.events else st.events + [EventOf(p)]
    ensures FindEvent(st.events, p.key).Some? ==> Conflict(st, p)
  {
    hide FindEvent, FindOpen, LatestOccupied;
  }

  /** A commit that records its event settles its key. */
  lemma RecordedSettles(w: World, st: Tables, p: Plan, i: nat)
    requires
      var (st', a) := Commit(w, st, p);
      i < |st'.events| && st'.events[i].key == p.key && a.Answer? && !a.duplicate
    ensures
      var (st', a) := Commit(w, st, p);
      Settled(st'.events, p.key, a.decision, a.reason) && (a.barrierOpen <==> a.decision in OPENING)
  {
    hide Enter, Vacate, Commit;
    CommitEvents(w, st, p);
    CommitAnswers(w, st, p);
    var st' := Commit(w, st, p).0;
    if !Conflict(st, p) { assert st'.events[|st.events|] == EventOf(p); }
  }

  lemma CommitAnswers(w: World, st: Tables, p: Plan)
    ensures !Conflict(st, p) ==> Commit(w, st, p).1 == Answer(p.decision, p.reason, p.decision in OPENING, false)
    ensures FindEvent(st.events, p.key).Some? ==> Commit(w, st, p).1.Answer? && Commit(w, st, p).1.duplicate
  {
    hide FindEvent, FindOpen, Enter, Vacate;
  }

  lemma CommitKeepsSettled(w: World, st: Tables, p: Plan, key: Key, d: Decision, why: Reason)
    requires Settled(st.events, key, d, why)
    ensures Settled(Commit(w, st, p).0.events, key, d, why)
  {
    hide Commit, Conflict;
    CommitEvents(w, st, p);
    var i :| 0 <= i < |st.events| && st.events[i].key == key;
    if p.key == key { FoundIsSettled(st.events, key, d, why); }
    assert Commit(w, st, p).0.events[i].key == key;
  }

  lemma {:induction false} RunKeepsSettled(w: World, st: Tables, rs: seq<Request>, key: Key, d: Decision, why: Reason)
    requires Settled(st.events, key, d, why)
    ensures Settled(Run(w, st, rs).events, key, d, why)
  {
    hide Settled, Read, Commit;
    if rs != [] {
      var n := |rs| - 1;
      RunKeepsSettled(w, st, rs[..n], key, d, why);
      var reading := Read(w, Run(w, st, rs[..n]), rs[n]);
      if reading.Planned? { CommitKeepsSettled(w, Run(w, st, rs[..n]), reading.plan, key, d, why); }
    }
  }

  lemma {:induction false} StepsKeepSettled(w: World, s: System, steps: seq<Step>, key: Key, d: Decision, why: Reason)
    requires Settled(s.db.events, key, d, why)
    ensures Settled(Steps(w, s, steps).db.events, key, d, why)
  {
    hide Settled, Read, Commit;
    if steps != [] {
      var n := |steps| - 1;
      var before, step := Steps(w, s, steps[..n]), steps[n];
      StepsKeepSettled(w, s, steps[..n], key, d, why);
      if step.CommitStep? && step.id in before.pending { CommitKeepsSettled(w, before.db, before.pending[step.id], key, d, why); }
    }
  }

  // ---------- idempotency ----------

  /** When a call has answered and recorded its event, then after any further requests the same key gets the same decision,
      reason and barrier, marked as a duplicate, and changes nothing. */
  lemma SameAnswerAgain(w: World, st: Tables, r: Request, d: Decision, why: Reason, open: bool, rs: seq<Request>, again: Request)
    requires
      var (st', response) := Process(w, st, r);
      response == Answer(d, why, open, false) && exists i :: 0 <= i < |st'.events| && st'.events[i].key == r.key
    requires again.key == r.key && again.gateKnown
    ensures
      var later := Run(w, Process(w, st, r).0, rs);
      Process(w, later, again) == (later, Answer(d, why, open, true)) && (open <==> d in OPENING)
  {
    hide Commit, Run, Process, Settled;
    var st' := Process(w, st, r).0;
    var i :| 0 <= i < |st'.events| && st'.events[i].key == r.key;
    var p := RecordedByCommit(w, st, r);
    RecordedSettles(w, st, p, i);
    RunKeepsSettled(w, st', rs, r.key, d, why);
    SettledAnswers(w, Run(w, st', rs), again, p, d, why);
  }

  /** An answer that is no duplicate, with its key in the table, comes from a commit. */
  lemma RecordedByCommit(w: World, st: Tables, r: Request) returns (p: Plan)
    requires
      var (st', response) := Process(w, st, r);
      response.Answer? && !response.duplicate && exists i :: 0 <= i < |st'.events| && st'.events[i].key == r.key
    ensures p.key == r.key && Process(w, st, r) == Commit(w, st, p)
  {
    hide Commit, MakePlan;
    PlanIs(w, st, r);
    p := MakePlan(w, st, r);
  }

  /** The same for a commit, after any interleaving of reads and commits that follows it: a read with the key, and a commit
      planned before or after it, are both answered from the record. */
  lemma SameAnswerInterleaved(w: World, st: Tables, p: Plan, d: Decision, why: Reason, open: bool, s: System, steps: seq<Step>,
                              again: Request, late: Plan)
    requires Commit(w, st, p) == (s.db, Answer(d, why, open, false)) && exists i :: 0 <= i < |s.db.events| && s.db.events[i].key == p.key
    requires again.key == late.key == p.key && again.gateKnown
    ensures
      var db := Steps(w, s, steps).db;
      && Read(w, db, again) == Answered(Answer(d, why, open, true))
      && Commit(w, db, late) == (db, Answer(d, why, open, true))
      && (open <==> d in OPENING)
  {
    hide Commit, Read, Steps, Settled;
    var i :| 0 <= i < |s.db.events| && s.db.events[i].key == p.key;
    RecordedSettles(w, st, p, i);
    StepsKeepSettled(w, s, steps, p.key, d, why);
    SettledAnswers(w, Steps(w, s, steps).db, again, late, d, why);
  }

  /** Every answer but a raise opens the barrier exactly for the opening decisions. */
  lemma BarrierFollowsDecision(w: World, st: Tables, r: Request, p: Plan)
    ensures
      var response := Process(w, st, r).1;
      response.Answer? ==> (response.barrierOpen <==> response.decision in OPENING)
    ensures
      var response := Commit(w, st, p).1;
      response.Answer? ==> (response.barrierOpen <==> response.decision in OPENING)
  {
    hide FindEvent, FindOpen, MakePlan, Enter, Vacate;
  }
}
