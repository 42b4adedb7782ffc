/** Concurrent gate requests: each reads, and later commits, with any other requests in between. */
module GateConcurrency {
  import opened GateSchema
  import opened Options
  import opened GateDecision
  import opened GateInvariants

  datatype Step = ReadStep(id: nat, request: Request) | CommitStep(id: nat)

  /** One answer, with the tables just before and just after it. */
  datatype Served = Served(key: Key, plate: Option<Plate>, dryRun: bool, response: Response, refused: bool,
                           before: Tables, after: Tables)

  datatype System = System(db: Tables, pending: map<nat, Plan>, served: seq<Served>)

  function Next(w: World, s: System, step: Step): System {
    match step
    case ReadStep(id, r) =>
      if id in s.pending then s
      else
        (match Read(w, s.db, r)
         case Answered(response) => s.(served := s.served + [Served(r.key, r.plate, r.dryRun, response, false, s.db, s.db)])
         case Planned(plan) => s.(pending := s.pending[id := plan]))
    case CommitStep(id) =>
      if id !in s.pending then s
      else
        var p := s.pending[id];
        var (db, response) := Commit(w, s.db, p);
        System(db, s.pending - {id},
               s.served + [Served(p.key, p.plate, false, response, Conflict(s.db, p), s.db, db)])
  }

  function Steps(w: World, s: System, steps: seq<Step>): System {
    if steps == [] then s else Next(w, Steps(w, s, steps[..|steps| - 1]), steps[|steps| - 1])
  }

  /** What stands behind an open barrier: a recorded opening of the same key, or the plate's open session. */
  ghost predicate Backed(st: Tables, key: Key, plate: Option<Plate>) {
    || RecordedOpening(st.events, key)
    || (plate.Some? && FindOpen(st.sessions, plate.value).Some?)
  }

  ghost predicate RecordedOpening(es: seq<AccessEvent>, key: Key) {
    exists i :: 0 <= i < |es| && es[i].key == key && Opens(es[i].decision)
  }

  /** An answer that opened the barrier was backed when it was given, a refused commit wrote nothing, and no
      event is ever lost. */
  ghost predicate ServedWell(e: Served, db: Tables) {
    && (!e.dryRun && e.response.Answer? && e.response.barrierOpen ==> Backed(e.after, e.key, e.plate))
    && (e.refused ==> e.after == e.before)
    && e.after.events <= db.events
  }

  ghost predicate Consistent(db: Tables) {
    UniqueKeys(db) && OneOpen(db.sessions)
  }

  ghost predicate Safe(s: System) {
    Consistent(s.db) && forall i :: 0 <= i < |s.served| ==> ServedWell(s.served[i], s.db)
  }

  /** Whatever the tables have become since the plan was made, a commit keeps both constraints, or it is
      refused and changes nothing; either way an answer that opens is backed. */
  lemma CommitSafe(w: World, st: Tables, p: Plan)
    requires Consistent(st)
    ensures
      var (st', response) := Commit(w, st, p);
      && Consistent(st') && st.events <= st'.events
      && (Conflict(st, p) ==> st' == st)
      && (response.Answer? && response.barrierOpen ==> Backed(st', p.key, p.plate))
  {
    if Conflict(st, p) {
      DuplicateBacked(st, p.key);
    } else {
      var st1 := Recorded(st, p);
      var st' := Commit(w, st, p).0;
      assert st'.events == st.events + [EventOf(p)];
      assert st'.events[|st.events|] == EventOf(p);
      CloseOneOpen(st.sessions, p.closes);
      if EntersNew(p) {
        OneMoreOpen(st1.sessions, Session(p.plate.value, p.vehicle, |st.events|, true));
      }
    }
  }

  /** A commit leaves every occupied space in use, whatever happened since the plan was made. */
  lemma CommitKeepsSpaces(w: World, st: Tables, p: Plan)
    requires OccupiedIsUsed(st.spaces, st.occupancies)
    ensures OccupiedIsUsed(Commit(w, st, p).0.spaces, Commit(w, st, p).0.occupancies)
  {
    hide OccupiedIsUsed, FindEvent, FindOpen, Enter, Vacate;
    if !Conflict(st, p) {
      var st1 := Recorded(st, p);
      if EntersNew(p) {
        EnterKeepsSpaces(w, st1, p, |st.events|);
      } else if Leaves(p) {
        VacateKeepsSpaces(st1, p.vehicle.value);
      }
    }
  }

  lemma DuplicateBacked(st: Tables, key: Key)
    ensures
      var dup := FindEvent(st.events, key);
      dup.Some? && Opens(dup.value.decision) ==> RecordedOpening(st.events, key)
  {
  }

  lemma CloseOneOpen(ss: seq<Session>, c: Option<nat>)
    requires OneOpen(ss)
    ensures OneOpen(Close(ss, c))
  {
  }

  lemma OneMoreOpen(ss: seq<Session>, s: Session)
    requires OneOpen(ss) && FindOpen(ss, s.plate).None?
    ensures OneOpen(ss + [s])
  {
    assert forall i :: 0 <= i < |ss| && ss[i].open ==> !OpenFor(ss[i], s.plate);
  }

  lemma NextSafe(w: World, s: System, step: Step)
    requires Safe(s)
    ensures Safe(Next(w, s, step))
    ensures OccupiedIsUsed(s.db.spaces, s.db.occupancies) ==>
              OccupiedIsUsed(Next(w, s, step).db.spaces, Next(w, s, step).db.occupancies)
  {
    hide Consistent, Commit, MakePlan, Conflict, OccupiedIsUsed;
    if OccupiedIsUsed(s.db.spaces, s.db.occupancies) && step.CommitStep? && step.id in s.pending {
      CommitKeepsSpaces(w, s.db, s.pending[step.id]);
    }
    match step
    case ReadStep(id, r) =>
      DuplicateBacked(s.db, r.key);
    case CommitStep(id) =>
      if id in s.pending {
        var s' := Next(w, s, step);
        CommitSafe(w, s.db, s.pending[id]);
        forall i | 0 <= i < |s'.served| ensures ServedWell(s'.served[i], s'.db) {
          if i < |s.served| { assert ServedWell(s.served[i], s.db); }
        }
      }
  }

  /** Any interleaving of any requests' reads and commits is safe, and leaves every occupied space in use. */
  lemma {:induction false} InterleavingSafe(w: World, s: System, steps: seq<Step>)
    requires Safe(s)
    ensures Safe(Steps(w, s, steps))
    ensures OccupiedIsUsed(s.db.spaces, s.db.occupancies) ==>
              OccupiedIsUsed(Steps(w, s, steps).db.spaces, Steps(w, s, steps).db.occupancies)
  {
    hide Safe, Next, OccupiedIsUsed;
    if steps != [] {
      InterleavingSafe(w, s, steps[..|steps| - 1]);
      NextSafe(w, Steps(w, s, steps[..|steps| - 1]), steps[|steps| - 1]);
    }
  }

  /** The two constraints spelled out: in every reachable state two events never share a key, and two open
      sessions never share a plate. */
  lemma {:induction false} NoSecondEventOrSession(w: World, st: Tables, steps: seq<Step>, i: nat, j: nat)
    requires Consistent(st)
    ensures
      var db := Steps(w, System(st, map[], []), steps).db;
      && (i < j < |db.events| ==> db.events[i].key != db.events[j].key)
      && (i < j < |db.sessions| && db.sessions[i].open && db.sessions[j].open ==>
            db.sessions[i].plate != db.sessions[j].plate)
  {
    InterleavingSafe(w, System(st, map[], []), steps);
  }

  /** Two entries of one plate that both read before either commits: the second is refused, and still opens. */
  lemma {:induction false} LateEntryRefused(w: World, st: Tables, p: Plan, q: Plan)
    requires EntersNew(p) && EntersNew(q) && p.plate == q.plate && p.plate.Some? && q.closes.None?
    requires !Conflict(st, p) && p.key != q.key && FindEvent(st.events, q.key).None?
    ensures
      var st1 := Commit(w, st, p).0;
      && Commit(w, st1, q) == (st1, Answer(AllowWithWarning, SessionAlreadyOpen, true, false))
      && FindEvent(st1.events, q.key).None?
  {
    var st1 := Commit(w, st, p).0;
    assert OpenFor(st1.sessions[|st.sessions|], p.plate.value);
    assert st1.events[..|st.events|] == st.events;
  }

  /** A commit opens the barrier without a record of its event if and only if its key is new and it is an entry whose plate
      has an open session by then. */
  lemma OpensUnrecordedIff(w: World, st: Tables, p: Plan)
    ensures
      var (st', response) := Commit(w, st, p);
      response.Answer? && response.barrierOpen && FindEvent(st'.events, p.key).None? <==>
        && FindEvent(st.events, p.key).None? && EntersNew(p)
        && p.plate.Some? && FindOpen(Close(st.sessions, p.closes), p.plate.value).Some?
  {
    hide FindOpen, Enter, Vacate;
    if Conflict(st, p) {
      if p.plate.Some? { OpenBeforeClose(st.sessions, p.closes, p.plate.value); }
    } else {
      var st1, st' := Recorded(st, p), Commit(w, st, p).0;
      if EntersNew(p) { EnterEvents(w, st1, p, |st.events|); } else if Leaves(p) { VacateSessions(st1, p.vehicle.value); }
      assert st'.events[|st.events|].key == p.key;
    }
  }

  // ---------- serial runs among the interleavings ----------

  /** Each request reads and commits before the next one reads. */
  function OneByOne(rs: seq<Request>): seq<Step> {
    if rs == [] then [] else OneByOne(rs[..|rs| - 1]) + [ReadStep(|rs| - 1, rs[|rs| - 1]), CommitStep(|rs| - 1)]
  }

  /** A read and its commit with nothing in between are the whole request. */
  lemma ReadAndCommit(w: World, s: System, id: nat, r: Request)
    requires id !in s.pending
    ensures
      var s' := Next(w, Next(w, s, ReadStep(id, r)), CommitStep(id));
      && s'.db == Process(w, s.db, r).0 && s'.pending == s.pending
      && |s'.served| == |s.served| + 1 && s'.served[..|s.served|] == s.served
      && s'.served[|s.served|].response == Process(w, s.db, r).1
      && s'.served[|s.served|].key == r.key && s'.served[|s.served|].plate == r.plate
      && s'.served[|s.served|].before == s.db && s'.served[|s.served|].after == s'.db
  {
    hide MakePlan, FindEvent, Commit, Conflict;
    PlanIs(w, s.db, r);
    var reading := Read(w, s.db, r);
    if reading.Planned? { assert s.pending[id := reading.plan] - {id} == s.pending; }
  }

  /** So a serial run is one of the interleavings, with the same tables and the same answers. */
  lemma SerialIsInterleaved(w: World, st: Tables, rs: seq<Request>)
    ensures
      var s := Steps(w, System(st, map[], []), OneByOne(rs));
      && s.db == Run(w, st, rs) && s.pending == map[] && |s.served| == |rs|
      && forall i :: 0 <= i < |rs| ==> s.served[i].response == Process(w, Run(w, st, rs[..i]), rs[i]).1
  {
    hide Process, Steps, OneByOne, Run;
    SerialTables(w, st, rs);
    forall i | 0 <= i < |rs|
      ensures Steps(w, System(st, map[], []), OneByOne(rs)).served[i].response == Process(w, Run(w, st, rs[..i]), rs[i]).1
    {
      SerialAnswer(w, st, rs, i);
    }
  }

  lemma {:induction false} SerialTables(w: World, st: Tables, rs: seq<Request>)
    ensures
      var s := Steps(w, System(st, map[], []), OneByOne(rs));
      s.db == Run(w, st, rs) && s.pending == map[] && |s.served| == |rs|
  {
    hide Next, Process, OneByOne, Steps;
    var s0 := System(st, map[], []);
    if rs == [] {
      NoSteps(w, s0);
    } else {
      var n := |rs| - 1;
      SerialTables(w, st, rs[..n]);
      OneMore(w, s0, rs);
      ReadAndCommit(w, Steps(w, s0, OneByOne(rs[..n])), n, rs[n]);
    }
  }

  lemma {:induction false} SerialAnswer(w: World, st: Tables, rs: seq<Request>, i: nat)
    requires i < |rs|
    ensures
      var s := Steps(w, System(st, map[], []), OneByOne(rs));
      i < |s.served| && s.served[i].response == Process(w, Run(w, st, rs[..i]), rs[i]).1
  {
    hide Next, Process, OneByOne, Steps, Run;
    var n := |rs| - 1;
    var before := Steps(w, System(st, map[], []), OneByOne(rs[..n]));
    SerialTables(w, st, rs[..n]);
    OneMore(w, System(st, map[], []), rs);
    ReadAndCommit(w, before, n, rs[n]);
    if i < n {
      SerialAnswer(w, st, rs[..n], i);
      assert rs[..n][..i] == rs[..i];
    }
  }

  lemma NoSteps(w: World, s: System)
    ensures Steps(w, s, OneByOne([])) == s
  {
  }

  lemma OneMore(w: World, s: System, rs: seq<Request>)
    requires rs != []
    ensures
      var n := |rs| - 1;
      Steps(w, s, OneByOne(rs)) == Next(w, Next(w, Steps(w, s, OneByOne(rs[..n])), ReadStep(n, rs[n])), CommitStep(n))
  {
    hide Next, Steps;
    var n := |rs| - 1;
    var steps := OneByOne(rs[..n]);
    StepsThen(w, s, steps, ReadStep(n, rs[n]));
    StepsThen(w, s, steps + [ReadStep(n, rs[n])], CommitStep(n));
    assert steps + [ReadStep(n, rs[n])] + [CommitStep(n)] == OneByOne(rs);
  }

  lemma StepsThen(w: World, s: System, steps: seq<Step>, step: Step)
    ensures Steps(w, s, steps + [step]) == Next(w, Steps(w, s, steps), step)
  {
    assert (steps + [step])[..|steps|] == steps;
  }

  lemma OpenBeforeClose(ss: seq<Session>, c: Option<nat>, plate: Plate)
    ensures FindOpen(Close(ss, c), plate).Some? ==> FindOpen(ss, plate).Some?
  {
    var r := FindOpen(Close(ss, c), plate);
    if r.Some? { assert OpenFor(ss[r.value], plate); }
  }
}
