/** What an admitted request writes: the rows of an entry, the row and space an exit gives up, and both in turn. */
module GateEffects {
  import opened GateSchema
  import opened Options
  import opened RulesEngine
  import opened GateDecision
  import opened GateInvariants
  import opened GateServing
  import opened GateBarrier
  import opened GateOverrides

  /** The request added an event to the table. */
  ghost predicate AddsEvent(w: World, st: Tables, r: Request) {
    |Process(w, st, r).0.events| > |st.events|
  }

  /** It did so by a commit that met no constraint. */
  lemma AddedByCommit(w: World, st: Tables, r: Request)
    requires AddsEvent(w, st, r)
    ensures
      var p := MakePlan(w, st, r);
      && Read(w, st, r) == Planned(p) && !Conflict(st, p) && Process(w, st, r) == Commit(w, st, p)
      && p.key == r.key && p.plate == r.plate && p.direction == r.direction && p.vehicle == VehicleOf(w, r.plate)
      && p.occupiedAt == r.occupiedAt
  {
    hide MakePlan, FindEvent, FindOpen, Enter, Vacate;
    PlanIs(w, st, r);
    PlannedTime(w, st, r);
  }

  lemma PlannedTime(w: World, st: Tables, r: Request)
    ensures MakePlan(w, st, r).occupiedAt == r.occupiedAt
  {
  }

  /** The event tells the reading, its vehicle and what was answered. */
  lemma EventTells(w: World, st: Tables, r: Request)
    requires AddsEvent(w, st, r)
    ensures
      var (st', response) := Process(w, st, r);
      var vehicle := if r.plate.Some? && r.plate.value in w.vehicleOf then Some(w.vehicleOf[r.plate.value]) else None;
      && response.Answer? && !response.duplicate
      && st'.events == st.events + [AccessEvent(r.key, r.plate, vehicle, response.decision, response.reason)]
  {
    hide MakePlan, FindEvent, FindOpen, LatestOccupied, AddsEvent, Read, Process;
    AddedByCommit(w, st, r);
  }

  /** The plan of an admitted entry or exit. */
  lemma AdmittedPlan(w: World, st: Tables, r: Request)
    requires MakePlan(w, st, r).decision == Allow || MakePlan(w, st, r).decision == AllowWithWarning
    ensures
      var p := MakePlan(w, st, r);
      && r.plate.Some?
      && (r.direction.In? ==> p.closes == None && (!p.newSession ==> HasOpen(st, r.plate.value)))
      && (r.direction.Out? && VehicleOf(w, r.plate).Some? ==> p.closes == FindOpen(st.sessions, r.plate.value))
      && (r.direction.Out? && VehicleOf(w, r.plate).None? ==> p.closes == None)
  {
    hide FinalDecision, FindActivePermit, FindOpen, HasPermit, HasUsablePermit, HasRoom, DeclaredCapacity, ConfirmedOccupancy,
         RulesAllow, RulesRefuse, BuildContext, RuleContext;
    PlanAdmitsExactlyWhen(w, st, r);
    if r.plate.Some? { OpenFound(st, r.plate.value); }
  }

  /** An admitted entry of a plate that is not inside adds an open session and an occupied row, which carry the number of its
      event, and takes the vehicle's assigned space if that is free; one of a plate inside writes none of this. */
  lemma EntryFills(w: World, st: Tables, r: Request)
    requires AddsEvent(w, st, r) && r.direction.In?
    requires Process(w, st, r).1.decision == Allow || Process(w, st, r).1.decision == AllowWithWarning
    ensures
      var st' := Process(w, st, r).0;
      && r.plate.Some?
      && (HasOpen(st, r.plate.value) ==>
            st'.sessions == st.sessions && st'.occupancies == st.occupancies && st'.spaces == st.spaces)
      && (!HasOpen(st, r.plate.value) ==> Entered(w, st, st', r))
  {
    hide MakePlan, FindEvent, FindOpen, AddsEvent, Read, Process, HasOpen, Entered, AssignedSpace;
    AddedByCommit(w, st, r);
    AdmittedPlan(w, st, r);
    OpenFound(st, r.plate.value);
    var p := MakePlan(w, st, r);
    if !HasOpen(st, r.plate.value) {
      EnteredBy(w, st, Recorded(st, p), p, r);
    }
  }

  /** The rows and the space of an entry. */
  ghost predicate Entered(w: World, st: Tables, st': Tables, r: Request)
    requires r.plate.Some?
  {
    var plate, n, os := r.plate.value, |st.events|, st.occupancies;
    var vehicle := if plate in w.vehicleOf then Some(w.vehicleOf[plate]) else None;
    && st'.sessions == st.sessions + [Session(plate, vehicle, n, true)]
    && |st'.occupancies| == |os| + 1 && st'.occupancies[..|os|] == os
    && (var o := st'.occupancies[|os|];
        && o == Occupancy(o.space, vehicle, n, r.occupiedAt, true)
        && (o.space.Some? ==> plate in w.vehicleOf && w.vehicleOf[plate] in w.spaceOf && o.space.value == w.spaceOf[w.vehicleOf[plate]]
                              && o.space.value in st.spaces)
        && (o.space.None? ==> plate !in w.vehicleOf || w.vehicleOf[plate] !in w.spaceOf || w.spaceOf[w.vehicleOf[plate]] !in st.spaces)
        && st'.spaces.Keys == st.spaces.Keys
        && forall sp :: sp in st.spaces ==>
             st'.spaces[sp] == if o.space == Some(sp) && st.spaces[sp] == Free then Occupied else st.spaces[sp])
  }

  lemma EnteredBy(w: World, st: Tables, st1: Tables, p: Plan, r: Request)
    requires p.plate.Some? && p.plate == r.plate && p.vehicle == VehicleOf(w, r.plate) && p.occupiedAt == r.occupiedAt
    requires st1.sessions == st.sessions && st1.occupancies == st.occupancies && st1.spaces == st.spaces
    ensures Entered(w, st, Enter(w, st1, p, |st.events|), r)
  {
  }

  // ---------- exits ----------

  predicate RowOf(o: Occupancy, v: VehicleId) {
    o.occupied && o.vehicle == Some(v)
  }

  /** The vehicle's latest occupied row is vacated and its space is free, whatever it was; or there is no such row. */
  ghost predicate Left(st: Tables, st': Tables, v: VehicleId) {
    if exists i :: 0 <= i < |st.occupancies| && RowOf(st.occupancies[i], v) then
      exists i :: 0 <= i < |st.occupancies| && RowOf(st.occupancies[i], v) && LeftFrom(st, st', i)
                  && forall j :: 0 <= j < |st.occupancies| && RowOf(st.occupancies[j], v) ==>
                       st.occupancies[j].occupiedAt <= st.occupancies[i].occupiedAt
    else st'.occupancies == st.occupancies && st'.spaces == st.spaces
  }

  ghost predicate LeftFrom(st: Tables, st': Tables, i: nat)
    requires i < |st.occupancies|
  {
    && st'.occupancies == st.occupancies[i := st.occupancies[i].(occupied := false)]
    && st'.spaces.Keys == st.spaces.Keys
    && forall sp :: sp in st.spaces ==> st'.spaces[sp] == if st.occupancies[i].space == Some(sp) then Free else st.spaces[sp]
  }

  lemma VacateLeaves(st: Tables, st1: Tables, v: VehicleId)
    requires st1.occupancies == st.occupancies && st1.spaces == st.spaces
    ensures Left(st, Vacate(st1, v), v)
  {
    hide LatestOccupied;
    var occ := LatestOccupied(st.occupancies, v);
    assert forall o :: RowOf(o, v) == OccupiedBy(o, v);
    if occ.Some? {
      VacateRowIs(st, st1, v);
      assert RowOf(st.occupancies[occ.value], v);
    }
  }

  lemma VacateRowIs(st: Tables, st1: Tables, v: VehicleId)
    requires st1.occupancies == st.occupancies && st1.spaces == st.spaces && LatestOccupied(st.occupancies, v).Some?
    ensures LeftFrom(st, Vacate(st1, v), LatestOccupied(st.occupancies, v).value)
  {
    hide LatestOccupied;
  }

  /** An admitted exit of a registered plate closes its session, and only that, and the vehicle gives up row and space. */
  lemma ExitFrees(w: World, st: Tables, r: Request)
    requires OneOpen(st.sessions) && AddsEvent(w, st, r) && r.direction.Out?
    requires Process(w, st, r).1.decision == Allow || Process(w, st, r).1.decision == AllowWithWarning
    requires r.plate.Some? && r.plate.value in w.vehicleOf
    ensures
      var st' := Process(w, st, r).0;
      && Left(st, st', w.vehicleOf[r.plate.value])
      && |st'.sessions| == |st.sessions|
      && forall j :: 0 <= j < |st.sessions| ==>
           st'.sessions[j] == st.sessions[j].(open := st.sessions[j].open && st.sessions[j].plate != r.plate.value)
  {
    hide MakePlan, FindEvent, FindOpen, LatestOccupied, AddsEvent, Read, Process, Left;
    AddedByCommit(w, st, r);
    AdmittedPlan(w, st, r);
    var p, v := MakePlan(w, st, r), w.vehicleOf[r.plate.value];
    VacateLeaves(st, Recorded(st, p), v);
    VacateSessions(Recorded(st, p), v);
    ClosesThePlate(st.sessions, r.plate.value);
  }

  lemma ClosesThePlate(ss: seq<Session>, plate: Plate)
    requires OneOpen(ss)
    ensures
      var ss' := Close(ss, FindOpen(ss, plate));
      forall j :: 0 <= j < |ss| ==> ss'[j] == ss[j].(open := ss[j].open && ss[j].plate != plate)
  {
    var open := FindOpen(ss, plate);
    forall j | 0 <= j < |ss| && ss[j].open && ss[j].plate == plate ensures open == Some(j) {
      assert OpenFor(ss[j], plate) && OpenFor(ss[open.value], plate);
    }
  }

  // ---------- an entry and then an exit ----------

  /** An entry of a vehicle that was not inside and its next exit leave one closed session and one vacated row behind. Its space
      ends free, so all spaces are as before if and only if the space was free: a reserved one loses its reservation. */
  lemma EntryThenExit(w: World, st: Tables, r: Request, q: Request)
    requires OneOpen(st.sessions) && r.direction.In? && q.direction.Out? && q.plate == r.plate
    requires r.plate.Some? && r.plate.value in w.vehicleOf && !HasOpen(st, r.plate.value)
    requires forall i :: 0 <= i < |st.occupancies| ==> !RowOf(st.occupancies[i], w.vehicleOf[r.plate.value])
    requires AddsEvent(w, st, r) && Process(w, st, r).1.decision in {Allow, AllowWithWarning}
    requires AddsEvent(w, Process(w, st, r).0, q) && Process(w, Process(w, st, r).0, q).1.decision in {Allow, AllowWithWarning}
    ensures
      var v := w.vehicleOf[r.plate.value];
      var after := Process(w, Process(w, st, r).0, q).0;
      var space := if v in w.spaceOf && w.spaceOf[v] in st.spaces then Some(w.spaceOf[v]) else None;
      && after.sessions == st.sessions + [Session(r.plate.value, Some(v), |st.events|, false)]
      && after.occupancies == st.occupancies + [Occupancy(space, Some(v), |st.events|, r.occupiedAt, false)]
      && (after.spaces == st.spaces <==> space.None? || st.spaces[space.value] == Free)
  {
    hide AddsEvent, Process, HasOpen;
    var plate, v := r.plate.value, w.vehicleOf[r.plate.value];
    var st1 := Process(w, st, r).0;
    var after := Process(w, st1, q).0;
    EntryFills(w, st, r);
    assert st1.occupancies == st.occupancies + [st1.occupancies[|st.occupancies|]];
    EnteredOpen(w, st, st1, r);
    ExitFrees(w, st1, q);
    assert RowOf(st1.occupancies[|st.occupancies|], v);
    assert LeftFrom(st1, after, |st.occupancies|);
    SpacesAfter(st.spaces, st1.spaces, after.spaces, st1.occupancies[|st.occupancies|].space);
    NobodyInside(st, plate);
    SessionsAfter(st.sessions, after.sessions, Session(plate, Some(v), |st.events|, true));
  }

  lemma EnteredOpen(w: World, st: Tables, st1: Tables, r: Request)
    requires r.plate.Some? && Entered(w, st, st1, r) && OneOpen(st.sessions) && !HasOpen(st, r.plate.value)
    ensures OneOpen(st1.sessions)
  {
    assert forall i :: 0 <= i < |st.sessions| ==> !OpenFor(st.sessions[i], r.plate.value);
  }

  lemma NobodyInside(st: Tables, plate: Plate)
    requires !HasOpen(st, plate)
    ensures forall i :: 0 <= i < |st.sessions| && st.sessions[i].open ==> st.sessions[i].plate != plate
  {
    forall i | 0 <= i < |st.sessions| && st.sessions[i].open ensures st.sessions[i].plate != plate {
      assert !OpenFor(st.sessions[i], plate);
    }
  }

  lemma SpacesAfter(before: map<SpaceId, SpaceStatus>, middle: map<SpaceId, SpaceStatus>, after: map<SpaceId, SpaceStatus>,
                    space: Option<SpaceId>)
    requires before.Keys == middle.Keys == after.Keys && (space.Some? ==> space.value in before)
    requires forall sp :: sp in before ==> middle[sp] == if space == Some(sp) && before[sp] == Free then Occupied else before[sp]
    requires forall sp :: sp in before ==> after[sp] == if space == Some(sp) then Free else middle[sp]
    ensures after == before <==> space.None? || before[space.value] == Free
  {
    if space.Some? && before[space.value] != Free { assert after[space.value] != before[space.value]; }
  }

  lemma SessionsAfter(before: seq<Session>, after: seq<Session>, s: Session)
    requires |after| == |before| + 1 && s.open
    requires forall i :: 0 <= i < |before| && before[i].open ==> before[i].plate != s.plate
    requires forall j :: 0 <= j < |after| ==> after[j] == (before + [s])[j].(open := (before + [s])[j].open && (before + [s])[j].plate != s.plate)
    ensures after == before + [s.(open := false)]
  {
    assert (before + [s])[|before|] == s;
    forall i | 0 <= i < |before| ensures after[i] == before[i] { assert (before + [s])[i] == before[i]; }
  }

  // ---------- what the rules are evaluated in ----------

  /** Whether a permit was found, whether the environment's capacity is reached, how many spaces are free, and whether the plate
      is inside, which an exit in order no longer is. */
  lemma ContextIs(w: World, st: Tables, r: Request)
    requires OneOpen(st.sessions)
    ensures
      var ctx := RuleContext(w, st, r);
      var fit := r.plate.Some? && r.plate.value in w.vehicleOf && r.vehicleActive && !r.restricted;
      var inside := |set i | 0 <= i < |st.occupancies| && st.occupancies[i].occupied|;
      && (ctx.hasValidPermit <==> fit && !r.direction.Out? && HasUsablePermit(st, r.plate.value, r))
      && (ctx.yardFull <==> r.capacityEnvironment > 0 && inside >= r.capacityEnvironment)
      && ctx.coveredFreeCount == |set s | s in st.spaces && st.spaces[s] == Free|
      && (ctx.hasOpenSession <==>
            r.plate.Some? && HasOpen(st, r.plate.value) && !(fit && r.direction.Out? && InOrder(st, r.plate.value, r)))
  {
    hide FindActivePermit, FindOpen, HasOpen, HasUsablePermit, ConfirmedOccupancy, DeclaredCapacity, Close, HasRoom, Decide, OneOpen;
    ConfirmedIsCount(st.occupancies);
    ServiceAllowsExactlyWhen(w, st, r);
    PermitWhen(w, st, r);
    if r.plate.Some? {
      OpenFound(st, r.plate.value);
      PermitIsFound(st, r.plate.value, r);
      if Decide(w, st, r).closes.Some? {
        ClosesWhat(w, st, r);
        ClosedIsGone(st.sessions, r.plate.value);
      }
    }
    CloseNothing(st.sessions);
  }

  lemma CloseNothing(ss: seq<Session>)
    ensures Close(ss, None) == ss
  {
  }

  lemma PermitWhen(w: World, st: Tables, r: Request)
    ensures Decide(w, st, r).permit.Some? <==>
              r.plate.Some? && r.plate.value in w.vehicleOf && r.vehicleActive && !r.restricted && !r.direction.Out?
              && FindActivePermit(st.permits, r.plate.value, r).PermitFound?
  {
    hide FindActivePermit, FindOpen, ConfirmedOccupancy, DeclaredCapacity;
  }
}
