/** What every serial run of gate requests keeps. */
module GateInvariants {
  import opened GateSchema
  import opened Options
  import opened RulesEngine
  import opened GateDecision

  function Run(w: World, st: Tables, rs: seq<Request>): Tables {
    if rs == [] then st else Process(w, Run(w, st, rs[..|rs| - 1]), rs[|rs| - 1]).0
  }

  // ---------- constraints and presence ----------

  ghost predicate UniqueKeys(st: Tables) {
    forall i, j :: 0 <= i < j < |st.events| ==> st.events[i].key != st.events[j].key
  }

  ghost predicate OneOpen(ss: seq<Session>) {
    forall i, j :: 0 <= i < j < |ss| && ss[i].open && ss[j].open ==> ss[i].plate != ss[j].plate
  }

  ghost predicate OwnVehicle(w: World, ss: seq<Session>) {
    forall i :: 0 <= i < |ss| ==> ss[i].vehicle == VehicleOf(w, Some(ss[i].plate))
  }

  ghost predicate OnePlateEach(w: World) {
    forall p, q :: p in w.vehicleOf && q in w.vehicleOf && w.vehicleOf[p] == w.vehicleOf[q] ==> p == q
  }

  ghost predicate HasOccupancy(os: seq<Occupancy>, v: VehicleId) {
    exists j :: 0 <= j < |os| && OccupiedBy(os[j], v)
  }

  ghost predicate SpaceUsed(os: seq<Occupancy>, sp: SpaceId) {
    exists j :: 0 <= j < |os| && os[j].occupied && os[j].space == Some(sp)
  }

  /** Each open session of a registered vehicle has an occupied row of that vehicle. */
  ghost predicate PresentIsInside(ss: seq<Session>, os: seq<Occupancy>) {
    forall i :: 0 <= i < |ss| && ss[i].open && ss[i].vehicle.Some? ==> HasOccupancy(os, ss[i].vehicle.value)
  }

  /** Each occupied space is referenced by an occupied row. */
  ghost predicate OccupiedIsUsed(spaces: map<SpaceId, SpaceStatus>, os: seq<Occupancy>) {
    forall sp :: sp in spaces && spaces[sp] == Occupied ==> SpaceUsed(os, sp)
  }

  ghost predicate Invariant(w: World, st: Tables) {
    && UniqueKeys(st) && OneOpen(st.sessions) && OwnVehicle(w, st.sessions)
    && PresentIsInside(st.sessions, st.occupancies) && OccupiedIsUsed(st.spaces, st.occupancies)
  }

  /** After an exit closes the plate's session, the plate has none open. */
  lemma ClosedIsGone(ss: seq<Session>, plate: Plate)
    requires OneOpen(ss) && FindOpen(ss, plate).Some?
    ensures FindOpen(Close(ss, FindOpen(ss, plate)), plate).None?
  {
    var i := FindOpen(ss, plate).value;
    assert forall j :: 0 <= j < |ss| && OpenFor(ss[j], plate) ==> j == i;
  }

  /** Closing a session keeps what holds of the open ones. */
  lemma CloseKeeps(w: World, ss: seq<Session>, os: seq<Occupancy>, c: Option<nat>)
    requires OneOpen(ss) && OwnVehicle(w, ss) && PresentIsInside(ss, os)
    ensures OneOpen(Close(ss, c)) && OwnVehicle(w, Close(ss, c)) && PresentIsInside(Close(ss, c), os)
  {
  }

  /** A vehicle leaves only when its plate has no open session left. */
  lemma LeavesWithoutSession(w: World, st: Tables, r: Request)
    requires Invariant(w, st) && Leaves(MakePlan(w, st, r))
    ensures
      var p := MakePlan(w, st, r);
      p.plate.Some? && FindOpen(Close(st.sessions, p.closes), p.plate.value).None?
  {
    hide ApplyRules;
    var b := Decide(w, st, r);
    var ctx := BuildContext(Close(st.sessions, b.closes), st.occupancies, st.spaces, r, b.permit);
    OpensOnlyWhen(r.book, ctx, r.now, b.decision, b.reason, NeedsReview(r));
    if b.closes.Some? { ClosedIsGone(st.sessions, r.plate.value); }
  }

  /** Vacating a row and freeing its space leaves every occupied space in use, whoever is inside. */
  lemma VacateKeepsSpaces(st: Tables, v: VehicleId)
    requires OccupiedIsUsed(st.spaces, st.occupancies)
    ensures OccupiedIsUsed(Vacate(st, v).spaces, Vacate(st, v).occupancies)
  {
    hide LatestOccupied;
    var os, os' := st.occupancies, Vacate(st, v).occupancies;
    forall sp | sp in Vacate(st, v).spaces && Vacate(st, v).spaces[sp] == Occupied
      ensures SpaceUsed(os', sp)
    {
      var j :| 0 <= j < |os| && os[j].occupied && os[j].space == Some(sp);
      assert os'[j].occupied && os'[j].space == Some(sp);
    }
  }

  lemma EnterKeepsSpaces(w: World, st: Tables, p: Plan, event: nat)
    requires p.plate.Some? && OccupiedIsUsed(st.spaces, st.occupancies)
    ensures OccupiedIsUsed(Enter(w, st, p, event).spaces, Enter(w, st, p, event).occupancies)
  {
    var st' := Enter(w, st, p, event);
    var os, os', n := st.occupancies, st'.occupancies, |st.occupancies|;
    forall sp | sp in st'.spaces && st'.spaces[sp] == Occupied
      ensures SpaceUsed(os', sp)
    {
      if sp in st.spaces && st.spaces[sp] == Occupied {
        var j :| 0 <= j < |os| && os[j].occupied && os[j].space == Some(sp);
        assert os'[j].occupied && os'[j].space == Some(sp);
      } else {
        assert os'[n].occupied && os'[n].space == Some(sp);
      }
    }
  }

  lemma VacateKeeps(w: World, ss: seq<Session>, st: Tables, plate: Plate)
    requires OneOpen(ss) && OwnVehicle(w, ss) && OnePlateEach(w) && PresentIsInside(ss, st.occupancies)
    requires OccupiedIsUsed(st.spaces, st.occupancies)
    requires plate in w.vehicleOf && FindOpen(ss, plate).None?
    ensures
      var st' := Vacate(st, w.vehicleOf[plate]);
      PresentIsInside(ss, st'.occupancies) && OccupiedIsUsed(st'.spaces, st'.occupancies)
  {
    var v := w.vehicleOf[plate];
    var occ := LatestOccupied(st.occupancies, v);
    if occ.Some? {
      var os, os' := st.occupancies, Vacate(st, v).occupancies;
      forall i | 0 <= i < |ss| && ss[i].open && ss[i].vehicle.Some?
        ensures HasOccupancy(os', ss[i].vehicle.value)
      {
        var j :| 0 <= j < |os| && OccupiedBy(os[j], ss[i].vehicle.value);
        assert !OpenFor(ss[i], plate);
        assert OccupiedBy(os'[j], ss[i].vehicle.value);
      }
    }
    VacateKeepsSpaces(st, v);
  }

  lemma EnterKeeps(w: World, st: Tables, p: Plan, event: nat)
    requires OneOpen(st.sessions) && OwnVehicle(w, st.sessions)
    requires PresentIsInside(st.sessions, st.occupancies) && OccupiedIsUsed(st.spaces, st.occupancies)
    requires p.plate.Some? && FindOpen(st.sessions, p.plate.value).None? && p.vehicle == VehicleOf(w, p.plate)
    ensures
      var st' := Enter(w, st, p, event);
      && OneOpen(st'.sessions) && OwnVehicle(w, st'.sessions)
      && PresentIsInside(st'.sessions, st'.occupancies) && OccupiedIsUsed(st'.spaces, st'.occupancies)
  {
    var st' := Enter(w, st, p, event);
    var os, os' := st.occupancies, st'.occupancies;
    var n := |os|;
    assert forall i :: 0 <= i < |st.sessions| && st.sessions[i].open ==> !OpenFor(st.sessions[i], p.plate.value);
    forall i | 0 <= i < |st'.sessions| && st'.sessions[i].open && st'.sessions[i].vehicle.Some?
      ensures HasOccupancy(os', st'.sessions[i].vehicle.value)
    {
      if i < |st.sessions| {
        var j :| 0 <= j < |os| && OccupiedBy(os[j], st.sessions[i].vehicle.value);
        assert OccupiedBy(os'[j], st.sessions[i].vehicle.value);
      } else {
        assert OccupiedBy(os'[n], p.vehicle.value);
      }
    }
    EnterKeepsSpaces(w, st, p, event);
  }

  /** One request keeps the invariant, whether rules or the review lock override its decision or not. */
  lemma ProcessKeeps(w: World, st: Tables, r: Request)
    requires Invariant(w, st) && OnePlateEach(w)
    ensures Invariant(w, Process(w, st, r).0)
  {
    hide MakePlan, FindEvent, LatestOccupied, PresentIsInside, OccupiedIsUsed, Vacate, Enter;
    var reading := Read(w, st, r);
    if reading.Planned? && !Conflict(st, reading.plan) {
      var p := reading.plan;
      PlanIs(w, st, r);
      var st1 := Recorded(st, p);
      CloseKeeps(w, st.sessions, st.occupancies, p.closes);
      if EntersNew(p) {
        EnterKeeps(w, st1, p, |st.events|);
        EnterEvents(w, st1, p, |st.events|);
      } else if Leaves(p) {
        LeavesWithoutSession(w, st, r);
        VacateKeeps(w, st1.sessions, st1, p.plate.value);
        VacateSessions(st1, p.vehicle.value);
      }
    }
  }

  lemma PlanIs(w: World, st: Tables, r: Request)
    ensures
      var p := MakePlan(w, st, r);
      p.key == r.key && p.plate == r.plate && p.direction == r.direction && p.vehicle == VehicleOf(w, r.plate)
  {
  }

  lemma EnterEvents(w: World, st: Tables, p: Plan, event: nat)
    requires p.plate.Some?
    ensures Enter(w, st, p, event).events == st.events
  {
  }

  lemma VacateSessions(st: Tables, v: VehicleId)
    ensures Vacate(st, v).events == st.events && Vacate(st, v).sessions == st.sessions
  {
  }

  /** Every run keeps the constraints and the presence of vehicles and spaces. */
  lemma {:induction false} RunKeeps(w: World, st: Tables, rs: seq<Request>)
    requires Invariant(w, st) && OnePlateEach(w)
    ensures Invariant(w, Run(w, st, rs))
  {
    hide Invariant, Process;
    if rs != [] {
      RunKeeps(w, st, rs[..|rs| - 1]);
      ProcessKeeps(w, Run(w, st, rs[..|rs| - 1]), rs[|rs| - 1]);
    }
  }

  // ---------- exact agreement ----------

  ghost predicate Pair(s: Session, o: Occupancy) {
    s.open && o.occupied && s.entryEvent == o.event && s.vehicle == o.vehicle
  }

  /** Rows carry the numbers of the first n events, each at most once. */
  ghost predicate DistinctEvents(ss: seq<Session>, os: seq<Occupancy>, n: nat) {
    && (forall i :: 0 <= i < |ss| ==> ss[i].entryEvent < n)
    && (forall i :: 0 <= i < |os| ==> os[i].event < n)
    && (forall i, j :: 0 <= i < j < |ss| ==> ss[i].entryEvent != ss[j].entryEvent)
    && (forall i, j :: 0 <= i < j < |os| ==> os[i].event != os[j].event)
  }

  ghost predicate Inside(s: Session, os: seq<Occupancy>) {
    exists j :: 0 <= j < |os| && Pair(s, os[j])
  }

  ghost predicate Charged(o: Occupancy, ss: seq<Session>) {
    exists i :: 0 <= i < |ss| && Pair(ss[i], o)
  }

  ghost predicate AllPaired(ss: seq<Session>, os: seq<Occupancy>) {
    && (forall i :: 0 <= i < |ss| && ss[i].open ==> Inside(ss[i], os))
    && (forall j :: 0 <= j < |os| && os[j].occupied ==> Charged(os[j], ss))
  }

  /** An occupied row holds the space of its vehicle, if that has one, and the space is not free. */
  ghost predicate Holds(w: World, st: Tables, o: Occupancy) {
    o.space == AssignedSpace(w, st, o.vehicle) && (o.space.Some? ==> st.spaces[o.space.value] != Free)
  }

  ghost predicate SpacesHeld(w: World, st: Tables) {
    forall j :: 0 <= j < |st.occupancies| && st.occupancies[j].occupied ==> Holds(w, st, st.occupancies[j])
  }

  /** Open sessions and occupied rows pair off, and occupied rows hold the spaces of their vehicles. */
  ghost predicate Exact(w: World, st: Tables) {
    && Invariant(w, st) && SpacesHeld(w, st)
    && DistinctEvents(st.sessions, st.occupancies, |st.events|) && AllPaired(st.sessions, st.occupancies)
  }

  ghost predicate OneSpaceEach(w: World) {
    forall u, v :: u in w.spaceOf && v in w.spaceOf && w.spaceOf[u] == w.spaceOf[v] ==> u == v
  }

  /** A request whose exit, if it closes a session, is not overridden afterwards. */
  ghost predicate NotOverridden(w: World, st: Tables, r: Request) {
    var reading := Read(w, st, r);
    reading.Planned? && reading.plan.closes.Some? ==> Admits(reading.plan.decision)
  }

  ghost predicate NeverOverridden(w: World, st: Tables, rs: seq<Request>) {
    forall i :: 0 <= i < |rs| ==> NotOverridden(w, Run(w, st, rs[..i]), rs[i])
  }

  lemma EnterExact(w: World, st: Tables, p: Plan)
    requires Exact(w, st) && |st.events| >= 1 && DistinctEvents(st.sessions, st.occupancies, |st.events| - 1)
    requires p.plate.Some? && p.vehicle == VehicleOf(w, p.plate)
    requires Invariant(w, Enter(w, st, p, |st.events| - 1))
    ensures Exact(w, Enter(w, st, p, |st.events| - 1))
  {
    hide Invariant, AllPaired;
    var st' := Enter(w, st, p, |st.events| - 1);
    PairsGrow(st.sessions, st.occupancies, st'.sessions[|st.sessions|], st'.occupancies[|st.occupancies|]);
  }

  /** A new pair of rows leaves the others paired. */
  lemma PairsGrow(ss: seq<Session>, os: seq<Occupancy>, s: Session, o: Occupancy)
    requires AllPaired(ss, os) && Pair(s, o)
    ensures AllPaired(ss + [s], os + [o])
  {
    var ss', os' := ss + [s], os + [o];
    assert Pair(ss'[|ss|], os'[|os|]);
    forall i | 0 <= i < |ss| && ss[i].open ensures Inside(ss[i], os') {
      var j :| 0 <= j < |os| && Pair(ss[i], os[j]);
      assert Pair(ss[i], os'[j]);
    }
    forall j | 0 <= j < |os| && os[j].occupied ensures Charged(os[j], ss') {
      var i :| 0 <= i < |ss| && Pair(ss[i], os[j]);
      assert Pair(ss'[i], os[j]);
    }
  }

  /** Only one occupied row belongs to a registered vehicle, and only while its plate has an open session. */
  lemma OneRowEach(w: World, st: Tables, plate: Plate, j: nat)
    requires Exact(w, st) && OnePlateEach(w) && plate in w.vehicleOf
    requires j < |st.occupancies| && OccupiedBy(st.occupancies[j], w.vehicleOf[plate])
    ensures
      var open := FindOpen(st.sessions, plate);
      open.Some? && st.sessions[open.value].entryEvent == st.occupancies[j].event
  {
    var i :| 0 <= i < |st.sessions| && Pair(st.sessions[i], st.occupancies[j]);
    assert st.sessions[i].vehicle == VehicleOf(w, Some(st.sessions[i].plate));
    assert OpenFor(st.sessions[i], plate);
    var open := FindOpen(st.sessions, plate);
    assert OpenFor(st.sessions[open.value], plate);
  }

  /** The plate's open session and the vehicle's occupied row, if any, are a pair, and the row is the only one. */
  lemma ThePair(w: World, st: Tables, plate: Plate)
    requires Exact(w, st) && OnePlateEach(w) && plate in w.vehicleOf
    ensures
      var open, occ := FindOpen(st.sessions, plate), LatestOccupied(st.occupancies, w.vehicleOf[plate]);
      && open.Some? == occ.Some?
      && (open.Some? ==> Pair(st.sessions[open.value], st.occupancies[occ.value]))
      && (forall j :: 0 <= j < |st.occupancies| && OccupiedBy(st.occupancies[j], w.vehicleOf[plate]) ==> occ == Some(j))
  {
    var v := w.vehicleOf[plate];
    var open, occ := FindOpen(st.sessions, plate), LatestOccupied(st.occupancies, v);
    if open.Some? {
      assert Inside(st.sessions[open.value], st.occupancies);
      var j :| 0 <= j < |st.occupancies| && Pair(st.sessions[open.value], st.occupancies[j]);
      assert OccupiedBy(st.occupancies[j], v);
    }
    forall j | 0 <= j < |st.occupancies| && OccupiedBy(st.occupancies[j], v)
      ensures open.Some? && occ == Some(j)
    {
      OneRowEach(w, st, plate, j);
      OneRowEach(w, st, plate, occ.value);
      SameRow(st.sessions, st.occupancies, |st.events|, j, occ.value);
    }
  }

  lemma SameRow(ss: seq<Session>, os: seq<Occupancy>, n: nat, i: nat, j: nat)
    requires DistinctEvents(ss, os, n) && i < |os| && j < |os| && os[i].event == os[j].event
    ensures i == j
  {
  }

  lemma VacateExact(w: World, st: Tables, plate: Plate)
    requires Exact(w, st) && OnePlateEach(w) && OneSpaceEach(w) && plate in w.vehicleOf
    requires
      var st' := Vacate(st.(sessions := Close(st.sessions, FindOpen(st.sessions, plate))), w.vehicleOf[plate]);
      Invariant(w, st')
    ensures
      var st' := Vacate(st.(sessions := Close(st.sessions, FindOpen(st.sessions, plate))), w.vehicleOf[plate]);
      Exact(w, st')
  {
    hide Invariant, AllPaired, OnePlateEach, DistinctEvents, SpacesHeld;
    var open := FindOpen(st.sessions, plate);
    var st' := Vacate(st.(sessions := Close(st.sessions, open)), w.vehicleOf[plate]);
    ThePair(w, st, plate);
    VacatePairs(st.sessions, st.occupancies, |st.events|, open, LatestOccupied(st.occupancies, w.vehicleOf[plate]));
    VacateEvents(st.sessions, st.occupancies, |st.events|, open, LatestOccupied(st.occupancies, w.vehicleOf[plate]));
    VacateSpaces(w, st, st', plate);
  }

  /** A row of another vehicle still holds its space when a space of this one is freed. */
  lemma StillHolds(w: World, st: Tables, st': Tables, o: Occupancy, v: VehicleId, space: Option<SpaceId>)
    requires OneSpaceEach(w) && Holds(w, st, o) && o.vehicle != Some(v) && space == AssignedSpace(w, st, Some(v))
    requires st'.spaces == if space.Some? then st.spaces[space.value := Free] else st.spaces
    ensures Holds(w, st', o)
  {
  }

  /** The freed space was held by no other row. */
  lemma VacateSpaces(w: World, st: Tables, st': Tables, plate: Plate)
    requires SpacesHeld(w, st) && OneSpaceEach(w) && plate in w.vehicleOf
    requires st' == Vacate(st.(sessions := Close(st.sessions, FindOpen(st.sessions, plate))), w.vehicleOf[plate])
    requires forall j :: 0 <= j < |st.occupancies| && OccupiedBy(st.occupancies[j], w.vehicleOf[plate]) ==>
               LatestOccupied(st.occupancies, w.vehicleOf[plate]) == Some(j)
    ensures SpacesHeld(w, st')
  {
    hide FindOpen, LatestOccupied, OneSpaceEach, Holds;
    var v := w.vehicleOf[plate];
    var occ := LatestOccupied(st.occupancies, v);
    if occ.Some? {
      assert Holds(w, st, st.occupancies[occ.value]);
      VacatedSpace(w, st, st', v, occ.value);
      forall j | 0 <= j < |st'.occupancies| && st'.occupancies[j].occupied ensures Holds(w, st', st'.occupancies[j]) {
        assert st'.occupancies[j] == st.occupancies[j] && !OccupiedBy(st.occupancies[j], v);
        StillHolds(w, st, st', st.occupancies[j], v, st.occupancies[occ.value].space);
      }
    } else {
      assert forall o :: Holds(w, st', o) == Holds(w, st, o) by { SameSpaces(w, st, st'); }
    }
  }

  lemma VacatedSpace(w: World, st: Tables, st': Tables, v: VehicleId, i: nat)
    requires i < |st.occupancies| && OccupiedBy(st.occupancies[i], v) && Holds(w, st, st.occupancies[i])
    requires
      var space := st.occupancies[i].space;
      st'.spaces == if space.Some? && space.value in st.spaces then st.spaces[space.value := Free] else st.spaces
    ensures
      var space := st.occupancies[i].space;
      space == AssignedSpace(w, st, Some(v)) && st'.spaces == if space.Some? then st.spaces[space.value := Free] else st.spaces
  {
  }

  lemma SameSpaces(w: World, st: Tables, st': Tables)
    requires st'.spaces == st.spaces
    ensures forall o :: Holds(w, st', o) == Holds(w, st, o)
  {
  }

  function VacateRow(os: seq<Occupancy>, occ: Option<nat>): seq<Occupancy> {
    if occ.Some? && occ.value < |os| then os[occ.value := os[occ.value].(occupied := false)] else os
  }

  lemma VacateEvents(ss: seq<Session>, os: seq<Occupancy>, n: nat, open: Option<nat>, occ: Option<nat>)
    requires DistinctEvents(ss, os, n)
    ensures DistinctEvents(Close(ss, open), VacateRow(os, occ), n)
  {
  }

  lemma Apart(ss: seq<Session>, os: seq<Occupancy>, n: nat, i: nat, open: Option<nat>, j: nat, occ: Option<nat>)
    requires DistinctEvents(ss, os, n) && open.Some? == occ.Some?
    requires open.Some? ==> open.value < |ss| && occ.value < |os| && Pair(ss[open.value], os[occ.value])
    requires i < |ss| && j < |os| && Pair(ss[i], os[j])
    ensures open == Some(i) <==> occ == Some(j)
  {
    if occ.Some? && open == Some(i) { SameRow(ss, os, n, j, occ.value); }
  }

  lemma StillInside(ss: seq<Session>, os: seq<Occupancy>, n: nat, i: nat, open: Option<nat>, occ: Option<nat>)
    requires DistinctEvents(ss, os, n) && open.Some? == occ.Some?
    requires open.Some? ==> open.value < |ss| && occ.value < |os| && Pair(ss[open.value], os[occ.value])
    requires i < |ss| && Inside(ss[i], os) && open != Some(i)
    ensures Inside(ss[i], VacateRow(os, occ))
  {
    var j :| 0 <= j < |os| && Pair(ss[i], os[j]);
    Apart(ss, os, n, i, open, j, occ);
    assert Pair(ss[i], VacateRow(os, occ)[j]);
  }

  lemma StillCharged(ss: seq<Session>, os: seq<Occupancy>, n: nat, j: nat, open: Option<nat>, occ: Option<nat>)
    requires DistinctEvents(ss, os, n) && open.Some? == occ.Some?
    requires open.Some? ==> open.value < |ss| && occ.value < |os| && Pair(ss[open.value], os[occ.value])
    requires j < |os| && Charged(os[j], ss) && occ != Some(j)
    ensures Charged(os[j], Close(ss, open))
  {
    var i :| 0 <= i < |ss| && Pair(ss[i], os[j]);
    Apart(ss, os, n, i, open, j, occ);
    assert Pair(Close(ss, open)[i], os[j]);
  }

  /** Taking one pair away leaves the others paired. */
  lemma VacatePairs(ss: seq<Session>, os: seq<Occupancy>, n: nat, open: Option<nat>, occ: Option<nat>)
    requires DistinctEvents(ss, os, n) && AllPaired(ss, os) && open.Some? == occ.Some?
    requires open.Some? ==> open.value < |ss| && occ.value < |os| && Pair(ss[open.value], os[occ.value])
    ensures AllPaired(Close(ss, open), VacateRow(os, occ))
  {
    hide DistinctEvents, Inside, Charged;
    var ss', os' := Close(ss, open), VacateRow(os, occ);
    forall i | 0 <= i < |ss'| && ss'[i].open ensures Inside(ss'[i], os') {
      StillInside(ss, os, n, i, open, occ);
    }
    forall j | 0 <= j < |os'| && os'[j].occupied ensures Charged(os'[j], ss') {
      StillCharged(ss, os, n, j, open, occ);
    }
  }

  lemma ProcessExact(w: World, st: Tables, r: Request)
    requires Exact(w, st) && OnePlateEach(w) && OneSpaceEach(w) && NotOverridden(w, st, r)
    ensures Exact(w, Process(w, st, r).0)
  {
    hide Exact, MakePlan, FindEvent, Enter, Vacate;
    assert Invariant(w, st) by { InvariantOf(w, st); }
    ProcessKeeps(w, st, r);
    var reading := Read(w, st, r);
    if reading.Planned? && !Conflict(st, reading.plan) {
      var p := reading.plan;
      PlanIs(w, st, r);
      PlanCloses(w, st, r);
      RecordedExact(w, st, p);
      var st1 := Recorded(st, p).(sessions := st.sessions);
      if EntersNew(p) {
        EnterExact(w, st1, p);
      } else if Leaves(p) {
        VacateExact(w, st1, p.plate.value);
      }
    }
  }

  /** A session is closed by an exit of its plate; an admitted exit closes the plate's session, if there is one. */
  lemma PlanCloses(w: World, st: Tables, r: Request)
    requires Invariant(w, st)
    ensures
      var p := MakePlan(w, st, r);
      && (p.closes.Some? ==> p.direction.Out? && p.plate.Some? && p.vehicle.Some?)
      && (Leaves(p) ==> p.plate.Some? && p.closes == FindOpen(st.sessions, p.plate.value))
  {
    hide Invariant;
    if Leaves(MakePlan(w, st, r)) { LeavesWithoutSession(w, st, r); }
  }

  lemma RecordedExact(w: World, st: Tables, p: Plan)
    requires Exact(w, st) && FindEvent(st.events, p.key).None?
    ensures
      var st1 := Recorded(st, p).(sessions := st.sessions);
      Exact(w, st1) && DistinctEvents(st1.sessions, st1.occupancies, |st1.events| - 1)
  {
    hide AllPaired;
  }

  /** An exit whose closing is overridden afterwards always breaks the agreement: its row stays occupied. */
  lemma OverrideBreaks(w: World, st: Tables, r: Request)
    requires Exact(w, st) && !NotOverridden(w, st, r)
    ensures !Exact(w, Process(w, st, r).0)
  {
    hide MakePlan, Invariant, SpacesHeld;
    var p := Read(w, st, r).plan;
    PlanIs(w, st, r);
    assert Invariant(w, st);
    PlanClosesOne(w, st, r);
    var st' := Process(w, st, r).0;
    assert st' == Recorded(st, p);
    var i := p.closes.value;
    assert Inside(st.sessions[i], st.occupancies);
    var j :| 0 <= j < |st.occupancies| && Pair(st.sessions[i], st.occupancies[j]);
    assert forall k :: 0 <= k < |st'.sessions| && k != i ==> st'.sessions[k].entryEvent != st.sessions[i].entryEvent;
    assert !Charged(st'.occupancies[j], st'.sessions);
  }

  lemma PlanClosesOne(w: World, st: Tables, r: Request)
    requires MakePlan(w, st, r).closes.Some?
    ensures
      var p := MakePlan(w, st, r);
      p.direction.Out? && p.closes.value < |st.sessions| && st.sessions[p.closes.value].open
  {
  }

  /** One request keeps the exact agreement exactly when its decision does not override its own exit. */
  lemma ExactKeptByDecision(w: World, st: Tables, r: Request)
    requires Exact(w, st) && OnePlateEach(w) && OneSpaceEach(w)
    ensures Exact(w, Process(w, st, r).0) <==> NotOverridden(w, st, r)
  {
    hide Exact, Process, NotOverridden;
    if NotOverridden(w, st, r) { ProcessExact(w, st, r); } else { OverrideBreaks(w, st, r); }
  }

  lemma InvariantOf(w: World, st: Tables)
    requires Exact(w, st)
    ensures Invariant(w, st)
  {
  }

  /** Runs without overridden exits, over one-to-one space assignments, keep sessions, occupancies and spaces
      in exact agreement. */
  lemma {:induction false} RunExact(w: World, st: Tables, rs: seq<Request>)
    requires Exact(w, st) && OnePlateEach(w) && OneSpaceEach(w) && NeverOverridden(w, st, rs)
    ensures Exact(w, Run(w, st, rs))
  {
    hide Exact, Process, NotOverridden;
    if rs != [] {
      var n := |rs| - 1;
      forall i | 0 <= i < n ensures NotOverridden(w, Run(w, st, rs[..n][..i]), rs[..n][i]) {
        assert rs[..n][..i] == rs[..i];
      }
      RunExact(w, st, rs[..n]);
      ProcessExact(w, Run(w, st, rs[..n]), rs[n]);
    }
  }

  /** What exact agreement says of a vehicle and of a space: a registered plate has an open session exactly when
      its vehicle has an occupied row, which is then its only one, and a space that is not reserved is
      occupied exactly when an occupied row holds it. */
  lemma {:induction false} ExactMeans(w: World, st: Tables, plate: Plate, sp: SpaceId)
    requires Exact(w, st) && OnePlateEach(w) && plate in w.vehicleOf && sp in st.spaces
    ensures FindOpen(st.sessions, plate).Some? <==> HasOccupancy(st.occupancies, w.vehicleOf[plate])
    ensures forall i, j :: 0 <= i < |st.occupancies| && 0 <= j < |st.occupancies|
              && OccupiedBy(st.occupancies[i], w.vehicleOf[plate]) && OccupiedBy(st.occupancies[j], w.vehicleOf[plate])
              ==> i == j
    ensures st.spaces[sp] != Reserved ==> (st.spaces[sp] == Occupied <==> SpaceUsed(st.occupancies, sp))
  {
    var v := w.vehicleOf[plate];
    forall j | 0 <= j < |st.occupancies| && OccupiedBy(st.occupancies[j], v)
      ensures FindOpen(st.sessions, plate).Some?
              && st.sessions[FindOpen(st.sessions, plate).value].entryEvent == st.occupancies[j].event
    {
      OneRowEach(w, st, plate, j);
    }
    if SpaceUsed(st.occupancies, sp) {
      var j :| 0 <= j < |st.occupancies| && st.occupancies[j].occupied && st.occupancies[j].space == Some(sp);
      assert st.spaces[sp] != Free;
    }
  }
}
