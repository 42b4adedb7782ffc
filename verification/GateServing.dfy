/** What a single request answers, and how far the yard fills, in serial runs. */
module GateServing {
  import opened GateSchema
  import opened Options
  import opened RulesEngine
  import opened GateDecision
  import opened GateInvariants

  // ---------- dry runs ----------

  /** In a serial run only an unknown plate softened by a rule can meet the open-session constraint, and it
      is then an ALLOW_WITH_WARNING already; so the conflict is always answered. */
  lemma OnlySoftenedConflicts(w: World, st: Tables, r: Request)
    requires FindEvent(st.events, r.key).None? && Conflict(st, MakePlan(w, st, r))
    ensures
      var p := MakePlan(w, st, r);
      && p.base == UnknownPlate && p.decision == AllowWithWarning
      && ConflictAnswer(st, p) == Answer(AllowWithWarning, SessionAlreadyOpen, true, false)
  {
    hide ApplyRules;
    var b := Decide(w, st, r);
    var ctx := BuildContext(Close(st.sessions, b.closes), st.occupancies, st.spaces, r, b.permit);
    OpensOnlyWhen(r.book, ctx, r.now, b.decision, b.reason, NeedsReview(r));
  }

  /** The real call raises only for an unknown gate or a clash in the recognition table. */
  lemma {:induction false} RaisesOnlyWhen(w: World, st: Tables, r: Request)
    ensures Process(w, st, r).1.Raised? <==>
              !r.gateKnown || (FindEvent(st.events, r.key).None? && !r.dryRun && r.recognitionClash)
  {
    hide MakePlan, FindOpen;
    PlanIs(w, st, r);
    var reading := Read(w, st, r);
    if reading.Planned? && Conflict(st, reading.plan) { OnlySoftenedConflicts(w, st, r); }
  }

  /** A dry run gives the decision and barrier action of the real call, whenever that returns, and leaves
      the tables as they were. */
  lemma DryRunTells(w: World, st: Tables, r: Request)
    requires !r.dryRun
    ensures
      var dry := Process(w, st, r.(dryRun := true));
      var actual := Process(w, st, r).1;
      && dry.0 == st
      && (actual.Answer? ==> dry.1.Answer? && dry.1.decision == actual.decision && dry.1.barrierOpen == actual.barrierOpen)
  {
    hide FindOpen;
    SamePlan(w, st, r);
    var reading := Read(w, st, r);
    if reading.Planned? && Conflict(st, reading.plan) { OnlySoftenedConflicts(w, st, r); }
  }

  lemma SamePlan(w: World, st: Tables, r: Request)
    ensures MakePlan(w, st, r.(dryRun := true)) == MakePlan(w, st, r)
  {
    hide Decide, FinalDecision, FindOpen, ConfirmedOccupancy;
    SameDecision(w, st, r);
  }

  lemma SameDecision(w: World, st: Tables, r: Request)
    ensures Decide(w, st, r.(dryRun := true)) == Decide(w, st, r)
  {
    hide FindActivePermit, FindOpen, ConfirmedOccupancy, DeclaredCapacity;
    if r.plate.Some? { SamePermit(st.permits, r.plate.value, r, 0, false); }
  }

  lemma {:induction false} SamePermit(ps: seq<Permit>, plate: Plate, r: Request, i: nat, seen: bool)
    requires i <= |ps|
    ensures FindActivePermit(ps, plate, r.(dryRun := true), i, seen) == FindActivePermit(ps, plate, r, i, seen)
    decreases |ps| - i
  {
    if i < |ps| { SamePermit(ps, plate, r, i + 1, seen || PermitOf(ps[i], plate)); }
  }

  // ---------- the yard's capacity ----------

  /** The designer's setting if that is positive, and else the environment's value if that is. */
  predicate LimitedTo(r: Request, capacity: int) {
    && capacity > 0
    && (r.capacitySetting == Some(capacity)
        || ((r.capacitySetting.None? || r.capacitySetting.value <= 0) && r.capacityEnvironment == capacity))
  }

  lemma DeclaredIs(r: Request, capacity: int)
    ensures LimitedTo(r, capacity) <==> DeclaredCapacity(r.capacitySetting, r.capacityEnvironment) == Some(capacity)
  {
  }

  /** An entry let in because a rule softened UNKNOWN_PLATE. */
  ghost predicate SoftenedEntry(w: World, st: Tables, r: Request) {
    var reading := Read(w, st, r);
    reading.Planned? && !Conflict(st, reading.plan) && EntersNew(reading.plan) && reading.plan.base == UnknownPlate
  }

  ghost function SoftenedEntries(w: World, st: Tables, rs: seq<Request>): nat {
    if rs == [] then 0
    else
      var n := |rs| - 1;
      SoftenedEntries(w, st, rs[..n]) + (if SoftenedEntry(w, Run(w, st, rs[..n]), rs[n]) then 1 else 0)
  }

  /** One request adds at most one occupied row, and a regular one only below the declared capacity. */
  lemma ProcessFills(w: World, st: Tables, r: Request, capacity: int)
    requires LimitedTo(r, capacity)
    ensures
      var before, after := ConfirmedOccupancy(st.occupancies), ConfirmedOccupancy(Process(w, st, r).0.occupancies);
      after <= before || (after == before + 1 && (before < capacity || SoftenedEntry(w, st, r)))
  {
    hide FindActivePermit, DeclaredCapacity, ApplyRules, ConfirmedOccupancy, LimitedTo;
    var reading := Read(w, st, r);
    if reading.Planned? && !Conflict(st, reading.plan) {
      var p := reading.plan;
      if EntersNew(p) {
        if p.base != UnknownPlate { EntryHasRoom(w, st, r, capacity); }
        var occ := Enter(w, Recorded(st, p), p, |st.events|).occupancies;
        ConfirmedAppend(st.occupancies, occ[|st.occupancies|]);
      } else if Leaves(p) {
        var occ := LatestOccupied(st.occupancies, p.vehicle.value);
        if occ.Some? { ConfirmedVacate(st.occupancies, occ.value); }
      }
    }
  }

  /** A regular entry was decided below capacity: a full yard is a refusal that no rule can soften. */
  lemma EntryHasRoom(w: World, st: Tables, r: Request, capacity: int)
    requires LimitedTo(r, capacity)
    requires EntersNew(MakePlan(w, st, r)) && MakePlan(w, st, r).base != UnknownPlate
    ensures ConfirmedOccupancy(st.occupancies) < capacity
  {
    hide ApplyRules, DeclaredCapacity, ConfirmedOccupancy;
    DeclaredIs(r, capacity);
    var b := Decide(w, st, r);
    var ctx := BuildContext(Close(st.sessions, b.closes), st.occupancies, st.spaces, r, b.permit);
    OpensOnlyWhen(r.book, ctx, r.now, b.decision, b.reason, NeedsReview(r));
  }

  /** With a fixed declared capacity the occupied rows never exceed it by more than the softened entries. */
  lemma {:induction false} CapacityHolds(w: World, st: Tables, rs: seq<Request>, capacity: int)
    requires capacity > 0 && ConfirmedOccupancy(st.occupancies) <= capacity
    requires forall i :: 0 <= i < |rs| ==> LimitedTo(rs[i], capacity)
    ensures ConfirmedOccupancy(Run(w, st, rs).occupancies) <= capacity + SoftenedEntries(w, st, rs)
  {
    hide Process, SoftenedEntry, LimitedTo;
    if rs != [] {
      var n := |rs| - 1;
      CapacityHolds(w, st, rs[..n], capacity);
      ProcessFills(w, Run(w, st, rs[..n]), rs[n], capacity);
    }
  }

  // ---------- one event, one effect ----------

  /** The tables change only together with a new event under the request's own, unused key. */
  lemma {:induction false} ChangesOnlyWithEvent(w: World, st: Tables, r: Request)
    ensures
      var (st', response) := Process(w, st, r);
      || st' == st
      || (|st'.events| == |st.events| + 1 && st'.events[..|st.events|] == st.events
          && st'.events[|st.events|].key == r.key && FindEvent(st.events, r.key).None?
          && response == Answer(st'.events[|st.events|].decision, st'.events[|st.events|].reason,
                                Opens(st'.events[|st.events|].decision), false))
  {
    hide MakePlan, FindEvent;
    PlanIs(w, st, r);
  }
}
