/** `GateDecisionService.process_plate_event`: one plate reading as one transaction over the gate's tables. */
module GateDecision {
  import opened GateSchema
  import opened Options
  import opened RulesEngine

  /** What does not change during a run: whose plate it is, and which space a vehicle is assigned. */
  datatype World = World(vehicleOf: map<Plate, VehicleId>, spaceOf: map<VehicleId, SpaceId>)

  /** A reading, with what the code outside this model answers for it: vehicle state, restriction, unpaid-exit
      policy, the day of the week and the hour, capacity settings and rules. */
  datatype Request = Request(
    key: Key, gateKnown: bool, gate: GateId, direction: Direction, plate: Option<Plate>,
    captureBad: bool, recognitionClash: bool, dryRun: bool,
    vehicleActive: bool, restricted: bool, exitBlocked: bool,
    now: int, occupiedAt: int, weekday: int, clock: int,
    capacitySetting: Option<int>, capacityEnvironment: int, book: RuleBook)

  datatype Response = Answer(decision: Decision, reason: Reason, barrierOpen: bool, duplicate: bool) | Raised

  // ---------- queries ----------

  function VehicleOf(w: World, plate: Option<Plate>): Option<VehicleId> {
    if plate.Some? && plate.value in w.vehicleOf then Some(w.vehicleOf[plate.value]) else None
  }

  function FindEvent(es: seq<AccessEvent>, key: Key): (r: Option<AccessEvent>)
    ensures r.Some? ==> r.value in es && r.value.key == key
    ensures r.None? ==> forall i :: 0 <= i < |es| ==> es[i].key != key
  {
    if es == [] then None
    else if es[|es| - 1].key == key then Some(es[|es| - 1]) else FindEvent(es[..|es| - 1], key)
  }

  predicate OpenFor(s: Session, plate: Plate) {
    s.open && s.plate == plate
  }

  function FindOpen(ss: seq<Session>, plate: Plate): (r: Option<nat>)
    ensures r.Some? ==> r.value < |ss| && OpenFor(ss[r.value], plate)
    ensures r.None? ==> forall i :: 0 <= i < |ss| ==> !OpenFor(ss[i], plate)
  {
    if ss == [] then None
    else if OpenFor(ss[|ss| - 1], plate) then Some(|ss| - 1) else FindOpen(ss[..|ss| - 1], plate)
  }

  predicate OccupiedBy(o: Occupancy, v: VehicleId) {
    o.occupied && o.vehicle == Some(v)
  }

  /** The vehicle's occupied row with the latest time. */
  function LatestOccupied(os: seq<Occupancy>, v: VehicleId): (r: Option<nat>)
    ensures r.Some? ==> r.value < |os| && OccupiedBy(os[r.value], v)
    ensures r.Some? ==> forall i :: 0 <= i < |os| && OccupiedBy(os[i], v) ==> os[i].occupiedAt <= os[r.value].occupiedAt
    ensures r.None? ==> forall i :: 0 <= i < |os| ==> !OccupiedBy(os[i], v)
  {
    if os == [] then None
    else
      var n := |os| - 1;
      var r := LatestOccupied(os[..n], v);
      if OccupiedBy(os[n], v) && (r.None? || os[r.value].occupiedAt <= os[n].occupiedAt) then Some(n) else r
  }

  predicate PermitOf(p: Permit, plate: Plate) {
    p.active && p.plate == plate
  }

  predicate PermitUsable(p: Permit, r: Request) {
    TimeValid(p, r.now, r.weekday, r.clock) && GateAllowed(p, r.gate) && EntriesAvailable(p)
  }

  datatype PermitSearch = PermitFound(i: nat) | NoUsablePermit | NoPermit

  /** The first usable active permit of the plate, newest first. */
  function FindActivePermit(ps: seq<Permit>, plate: Plate, r: Request, i: nat := 0, seen: bool := false): (found: PermitSearch)
    requires i <= |ps|
    ensures found.PermitFound? ==> i <= found.i < |ps| && PermitOf(ps[found.i], plate) && PermitUsable(ps[found.i], r)
    ensures found.PermitFound? ==> forall j :: i <= j < found.i && PermitOf(ps[j], plate) ==> !PermitUsable(ps[j], r)
    ensures !found.PermitFound? ==> forall j :: i <= j < |ps| && PermitOf(ps[j], plate) ==> !PermitUsable(ps[j], r)
    ensures found.NoPermit? <==> !seen && forall j :: i <= j < |ps| ==> !PermitOf(ps[j], plate)
    decreases |ps| - i
  {
    if i == |ps| then (if seen then NoUsablePermit else NoPermit)
    else if PermitOf(ps[i], plate) && PermitUsable(ps[i], r) then PermitFound(i)
    else FindActivePermit(ps, plate, r, i + 1, seen || PermitOf(ps[i], plate))
  }

  function AssignedSpace(w: World, st: Tables, vehicle: Option<VehicleId>): Option<SpaceId> {
    if vehicle.Some? && vehicle.value in w.spaceOf && w.spaceOf[vehicle.value] in st.spaces
    then Some(w.spaceOf[vehicle.value]) else None
  }

  predicate NeedsReview(r: Request) {
    r.captureBad || r.plate.None?
  }

  predicate Admits(d: Decision) {
    d == Allow || d == AllowWithWarning
  }

  // ---------- the reading half of a request ----------

  /** The service's own decision, and what it already wants to write: a session to close, a permit to use. */
  datatype Base = Base(decision: Decision, reason: Reason, closes: Option<nat>, permit: Option<nat>,
                       uses: bool, newSession: bool)

  function Decide(w: World, st: Tables, r: Request): (b: Base)
    ensures BasePair(b.decision, b.reason)
    ensures b.closes.Some? ==> b.closes.value < |st.sessions|
    ensures b.permit.Some? ==> b.permit.value < |st.permits|
    ensures b.uses ==> b.permit.Some?
  {
    var simple := (d: Decision, why: Reason) => Base(d, why, None, None, false, true);
    if r.plate.None? then simple(UnknownPlate, PlateNotReadable)
    else
      var plate := r.plate.value;
      if VehicleOf(w, r.plate).None? then simple(UnknownPlate, VehicleNotRegistered)
      else if !r.vehicleActive then simple(Deny, VehicleInactive)
      else if r.restricted then simple(Deny, PlateRestricted)
      else if r.direction.Out? then
        var open := FindOpen(st.sessions, plate);
        if open.None? then simple(AllowWithWarning, NoOpenSessionForExit)
        else if r.exitBlocked then simple(Deny, ExitUnpaidBlocked)
        else Base(Allow, ExitSessionClosed, open, None, false, true)
      else
        match FindActivePermit(st.permits, plate, r)
        case NoPermit => simple(UnknownPlate, NoActivePermit)
        case NoUsablePermit => simple(RequireOperatorApproval, PermitInvalidNow)
        case PermitFound(i) =>
          if FindOpen(st.sessions, plate).Some?
          then Base(AllowWithWarning, DuplicateEntrySessionOpen, None, Some(i), false, false)
          else if !YardCapacityDecision(DeclaredCapacity(r.capacitySetting, r.capacityEnvironment),
                                        ConfirmedOccupancy(st.occupancies))
          then Base(RequireOperatorApproval, YardCapacityFull, None, Some(i), false, true)
          else Base(Allow, ValidPermit, None, Some(i), true, true)
  }

  function Close(ss: seq<Session>, closes: Option<nat>): (r: seq<Session>)
    ensures |r| == |ss|
  {
    if closes.Some? && closes.value < |ss| then ss[closes.value := ss[closes.value].(open := false)] else ss
  }

  function SetUsed(ps: seq<Permit>, uses: Option<(nat, int)>): (r: seq<Permit>)
    ensures |r| == |ps|
  {
    if uses.Some? && uses.value.0 < |ps|
    then ps[uses.value.0 := ps[uses.value.0].(usedEntries := uses.value.1)] else ps
  }

  /** The rules see the session already closed. */
  function BuildContext(sessions: seq<Session>, occupancies: seq<Occupancy>, spaces: map<SpaceId, SpaceStatus>,
                        r: Request, permit: Option<nat>): Context
  {
    Context(permit.Some?,
            !YardCapacityDecision(Some(r.capacityEnvironment), ConfirmedOccupancy(occupancies)),
            |set s | s in spaces && spaces[s] == Free|,
            r.plate.Some? && FindOpen(sessions, r.plate.value).Some?)
  }

  /** A request between its reads and its commit: the values it is about to write. */
  datatype Plan = Plan(key: Key, direction: Direction, plate: Option<Plate>, vehicle: Option<VehicleId>,
                       decision: Decision, reason: Reason, occupiedAt: int,
                       closes: Option<nat>, uses: Option<(nat, int)>, newSession: bool, base: Decision)

  function MakePlan(w: World, st: Tables, r: Request): Plan {
    var b := Decide(w, st, r);
    var ctx := BuildContext(Close(st.sessions, b.closes), st.occupancies, st.spaces, r, b.permit);
    var (decision, reason) := FinalDecision(r.book, ctx, r.now, b.decision, b.reason, NeedsReview(r));
    Plan(r.key, r.direction, r.plate, VehicleOf(w, r.plate), decision, reason, r.occupiedAt, b.closes,
         if b.uses then Some((b.permit.value, st.permits[b.permit.value].usedEntries + 1)) else None,
         b.newSession, b.decision)
  }

  function Duplicate(e: AccessEvent): Response {
    Answer(e.decision, e.reason, Opens(e.decision), true)
  }

  datatype Reading = Answered(response: Response) | Planned(plan: Plan)

  /** Everything before the transaction writes its event. A dry run stops here. */
  function Read(w: World, st: Tables, r: Request): Reading {
    if !r.gateKnown then Answered(Raised)
    else if FindEvent(st.events, r.key).Some? then Answered(Duplicate(FindEvent(st.events, r.key).value))
    else if !r.dryRun && r.recognitionClash then Answered(Raised)
    else
      var p := MakePlan(w, st, r);
      if r.dryRun then Answered(Answer(p.decision, p.reason, Opens(p.decision), false)) else Planned(p)
  }

  // ---------- the writing half ----------

  predicate EntersNew(p: Plan) {
    p.direction.In? && Admits(p.decision) && p.newSession
  }

  predicate Leaves(p: Plan) {
    p.direction.Out? && Admits(p.decision) && p.vehicle.Some?
  }

  function EventOf(p: Plan): AccessEvent {
    AccessEvent(p.key, p.plate, p.vehicle, p.decision, p.reason)
  }

  /** The session, its occupancy and the assigned space of an admitted entry. */
  function Enter(w: World, st: Tables, p: Plan, event: nat): Tables
    requires p.plate.Some?
  {
    var space := AssignedSpace(w, st, p.vehicle);
    st.(sessions := st.sessions + [Session(p.plate.value, p.vehicle, event, true)],
        occupancies := st.occupancies + [Occupancy(space, p.vehicle, event, p.occupiedAt, true)],
        spaces := if space.Some? && st.spaces[space.value] == Free then st.spaces[space.value := Occupied] else st.spaces)
  }

  /** The vehicle's latest occupancy is vacated and its space freed. */
  function Vacate(st: Tables, v: VehicleId): Tables {
    var occ := LatestOccupied(st.occupancies, v);
    if occ.None? then st
    else
      var o := st.occupancies[occ.value];
      st.(occupancies := st.occupancies[occ.value := o.(occupied := false)],
          spaces := if o.space.Some? && o.space.value in st.spaces then st.spaces[o.space.value := Free] else st.spaces)
  }

  /** The tables with the event and the read half's writes. */
  function Recorded(st: Tables, p: Plan): Tables {
    st.(events := st.events + [EventOf(p)], sessions := Close(st.sessions, p.closes), permits := SetUsed(st.permits, p.uses))
  }

  /** A unique constraint stops the commit: the key, or the one OPEN session of the plate. */
  predicate Conflict(st: Tables, p: Plan) {
    || FindEvent(st.events, p.key).Some?
    || (EntersNew(p) && (p.plate.None? || FindOpen(Close(st.sessions, p.closes), p.plate.value).Some?))
  }

  function ConflictAnswer(st: Tables, p: Plan): Response {
    var dup := FindEvent(st.events, p.key);
    if dup.Some? then Duplicate(dup.value)
    else if p.direction.In? && p.plate.Some? && FindOpen(st.sessions, p.plate.value).Some?
    then Answer(AllowWithWarning, SessionAlreadyOpen, true, false)
    else Raised
  }

  function Commit(w: World, st: Tables, p: Plan): (Tables, Response) {
    if Conflict(st, p) then (st, ConflictAnswer(st, p))
    else
      var st1 := Recorded(st, p);
      (if EntersNew(p) then Enter(w, st1, p, |st.events|)
       else if Leaves(p) then Vacate(st1, p.vehicle.value) else st1,
       Answer(p.decision, p.reason, Opens(p.decision), false))
  }

  /** A whole request with nothing in between. */
  function Process(w: World, st: Tables, r: Request): (Tables, Response) {
    match Read(w, st, r)
    case Answered(response) => (st, response)
    case Planned(plan) => Commit(w, st, plan)
  }

  // ---------- the service ----------

  class GateDecisionService {
    var events: seq<AccessEvent>
    var sessions: seq<Session>
    var occupancies: seq<Occupancy>
    var spaces: map<SpaceId, SpaceStatus>
    var permits: seq<Permit>

    constructor (st: Tables)
      ensures Db() == st
    {
      events, sessions, occupancies := st.events, st.sessions, st.occupancies;
      spaces, permits := st.spaces, st.permits;
    }

    function Db(): Tables
      reads this
    {
      Tables(events, sessions, occupancies, spaces, permits)
    }

    method Rollback(st: Tables)
      modifies this
      ensures Db() == st
    {
      events, sessions, occupancies := st.events, st.sessions, st.occupancies;
      spaces, permits := st.spaces, st.permits;
    }

    /** The decision branches: an allowed exit closes its session, and a valid permit is used up, at once. */
    method DecideAndWrite(w: World, r: Request) returns (b: Base)
      modifies this`sessions, this`permits
      ensures b == Decide(w, old(Db()), r)
      ensures sessions == Close(old(sessions), b.closes)
      ensures permits == SetUsed(old(permits),
                                 if b.uses then Some((b.permit.value, old(permits)[b.permit.value].usedEntries + 1)) else None)
    {
      var decision, reason;
      var closes, permit, uses, newSession := None, None, false, true;
      var vehicle := VehicleOf(w, r.plate);
      if r.plate.None? {
        decision, reason := UnknownPlate, PlateNotReadable;
      } else if vehicle.None? {
        decision, reason := UnknownPlate, VehicleNotRegistered;
      } else if !r.vehicleActive {
        decision, reason := Deny, VehicleInactive;
      } else if r.restricted {
        decision, reason := Deny, PlateRestricted;
      } else if r.direction.Out? {
        var open := FindOpen(sessions, r.plate.value);
        if open.Some? {
          if r.exitBlocked {
            decision, reason := Deny, ExitUnpaidBlocked;
          } else {
            sessions := sessions[open.value := sessions[open.value].(open := false)];
            closes := open;
            decision, reason := Allow, ExitSessionClosed;
          }
        } else {
          decision, reason := AllowWithWarning, NoOpenSessionForExit;
        }
      } else {
        var found := FindActivePermit(permits, r.plate.value, r);
        if !found.PermitFound? {
          if found.NoPermit? {
            decision, reason := UnknownPlate, NoActivePermit;
          } else {
            decision, reason := RequireOperatorApproval, PermitInvalidNow;
          }
        } else {
          permit := Some(found.i);
          var open := FindOpen(sessions, r.plate.value);
          if open.Some? {
            decision, reason := AllowWithWarning, DuplicateEntrySessionOpen;
            newSession := false;
          } else {
            var declared := DeclaredCapacity(r.capacitySetting, r.capacityEnvironment);
            var room := YardCapacityDecision(declared, ConfirmedOccupancy(occupancies));
            if !room {
              decision, reason := RequireOperatorApproval, YardCapacityFull;
            } else {
              decision, reason := Allow, ValidPermit;
              permits := permits[found.i := permits[found.i].(usedEntries := permits[found.i].usedEntries + 1)];
              uses := true;
            }
          }
        }
      }
      b := Base(decision, reason, closes, permit, uses, newSession);
    }

    /** Rules, which may raise, and then the review lock. */
    method ReviewDecision(r: Request, ctx: Context, b: Base) returns (decision: Decision, reason: Reason)
      ensures (decision, reason) == FinalDecision(r.book, ctx, r.now, b.decision, b.reason, NeedsReview(r))
    {
      decision, reason := b.decision, b.reason;
      if r.book.Rules? {
        var overrides := ApplyRulesForEvent(r.book, ctx, r.now, decision, reason);
        if overrides.decision.Some? {
          decision := overrides.decision.value;
          reason := if overrides.reason.Some? then overrides.reason.value else reason;
        }
      }
      if NeedsReview(r) && (decision == Allow || decision == AllowWithWarning) {
        decision, reason := RequireOperatorApproval, EnvelopeReviewRequired;
      }
    }

    /** The session, occupancy and space rows of an admitted entry; the second flush checks the open-session index. */
    method AddEntry(w: World, p: Plan, event: nat) returns (ok: bool)
      modifies this`sessions, this`occupancies, this`spaces
      ensures ok == (p.plate.Some? && FindOpen(old(sessions), p.plate.value).None?)
      ensures ok ==> Db() == Enter(w, old(Db()), p, event)
    {
      if p.plate.None? || FindOpen(sessions, p.plate.value).Some? { return false; }
      sessions := sessions + [Session(p.plate.value, p.vehicle, event, true)];
      var space := AssignedSpace(w, Db(), p.vehicle);
      occupancies := occupancies + [Occupancy(space, p.vehicle, event, p.occupiedAt, true)];
      if space.Some? && spaces[space.value] == Free {
        spaces := spaces[space.value := Occupied];
      }
      ok := true;
    }

    method VacateLatest(v: VehicleId)
      modifies this`occupancies, this`spaces
      ensures Db() == Vacate(old(Db()), v)
    {
      var occ := LatestOccupied(occupancies, v);
      if occ.Some? {
        var o := occupancies[occ.value];
        occupancies := occupancies[occ.value := o.(occupied := false)];
        if o.space.Some? && o.space.value in spaces {
          spaces := spaces[o.space.value := Free];
        }
      }
    }

    /** The whole transaction, with its rollback. */
    method ProcessPlateEvent(w: World, r: Request) returns (response: Response)
      modifies this
      ensures Db() == Process(w, old(Db()), r).0
      ensures response == Process(w, old(Db()), r).1
    {
      hide Decide, FindActivePermit, LatestOccupied, FinalDecision, ApplyRules;
      if !r.gateKnown { return Raised; }
      var existing := FindEvent(events, r.key);
      if existing.Some? { return Duplicate(existing.value); }
      if !r.dryRun && r.recognitionClash { return Raised; }

      var before := Db();
      var b := DecideAndWrite(w, r);
      var ctx := BuildContext(sessions, occupancies, spaces, r, b.permit);
      var decision, reason := ReviewDecision(r, ctx, b);
      ghost var p := MakePlan(w, before, r);
      if r.dryRun {
        Rollback(before);
        return Answer(decision, reason, Opens(decision), false);
      }

      var vehicle := VehicleOf(w, r.plate);
      var plan := Plan(r.key, r.direction, r.plate, vehicle, decision, reason, r.occupiedAt, b.closes,
                       if b.uses then Some((b.permit.value, before.permits[b.permit.value].usedEntries + 1)) else None,
                       b.newSession, b.decision);
      assert plan == p;
      events := events + [EventOf(plan)];
      var committed := true;
      if EntersNew(plan) {
        committed := AddEntry(w, plan, |before.events|);
      } else if Leaves(plan) {
        VacateLatest(vehicle.value);
      }
      if !committed {
        Rollback(before);
        return ConflictAnswer(before, plan);
      }
      response := Answer(decision, reason, Opens(decision), false);
    }
  }
}
