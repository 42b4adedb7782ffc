/** Rows of the gate's tables and the values its decisions are made of. Identifiers, plates and times are numbers. */
module GateSchema {

  import opened Options
  import opened Quotients

  type Plate = nat
  type VehicleId = nat
  type SpaceId = nat
  type GateId = nat

  /** An idempotency key: the gate's code and the source event's identifier. */
  datatype Key = Key(gate: GateId, source: nat)

  /** A direction is free text; only "IN" and "OUT" are compared against. */
  datatype Direction = In | Out | OtherDirection

  datatype Decision =
    | Allow | AllowWithWarning | RequireOperatorApproval | Deny | UnknownPlate
    | OfflineAllow | OfflineRequireReview

  datatype Reason =
    | PlateNotReadable | VehicleNotRegistered | VehicleInactive | PlateRestricted
    | ExitUnpaidBlocked | ExitSessionClosed | NoOpenSessionForExit
    | NoActivePermit | PermitInvalidNow | DuplicateEntrySessionOpen | YardCapacityFull | ValidPermit
    | EnvelopeReviewRequired | SessionAlreadyOpen | RuleReason(text: string)

  /** `barrier_action_for`: the decisions that open the barrier. */
  predicate Opens(d: Decision) {
    d == Allow || d == AllowWithWarning || d == OfflineAllow
  }

  datatype AccessEvent = AccessEvent(key: Key, plate: Option<Plate>, vehicle: Option<VehicleId>,
                                     decision: Decision, reason: Reason)

  datatype Session = Session(plate: Plate, vehicle: Option<VehicleId>, entryEvent: nat, open: bool)

  datatype Occupancy = Occupancy(space: Option<SpaceId>, vehicle: Option<VehicleId>, event: nat,
                                 occupiedAt: int, occupied: bool)

  datatype SpaceStatus = Free | Occupied | Reserved

  /** The list of gates a permit is limited to: absent or empty, text that is not a list, or a list. */
  datatype GateList = AnyGate | Unreadable | Gates(ids: seq<GateId>)

  /** When a permit is good: from a moment, on days of the week, in hours of the day. What is absent or unreadable does
      not limit it. */
  datatype Times = Times(from: Option<int>, days: Option<set<int>>, hours: Option<(int, int)>)

  const ALWAYS := Times(None, None, None)

  datatype Permit = Permit(plate: Plate, active: bool, validUntil: Option<int>, times: Times, gates: GateList,
                           maxEntries: Option<int>, usedEntries: int)

  /** Hours of the day, past midnight if they end before they begin. */
  predicate InHours(hours: (int, int), clock: int) {
    if hours.0 <= hours.1 then hours.0 <= clock <= hours.1 else clock >= hours.0 || clock <= hours.1
  }

  /** Round a day of any number of moments, hours that begin at one and end at another last as long as it takes to get
      from the one to the other, past midnight if need be. */
  lemma HoursGoRound(hours: (int, int), clock: int, day: int)
    requires 0 <= hours.0 < day && 0 <= hours.1 < day && 0 <= clock < day
    ensures InHours(hours, clock) <==> (clock - hours.0) % day <= (hours.1 - hours.0) % day
  {
    Around(clock - hours.0, day);
    Around(hours.1 - hours.0, day);
  }

  lemma Around(x: int, day: int)
    requires -day < x < day
    ensures x % day == if x < 0 then x + day else x
  {
    if x < 0 { Quot(x, day, -1, x + day); } else { Quot(x, day, 0, x); }
  }

  predicate TimeValid(p: Permit, now: int, weekday: int, clock: int) {
    && (p.times.from.None? || p.times.from.value <= now)
    && (p.validUntil.None? || now <= p.validUntil.value)
    && (p.times.days.None? || weekday in p.times.days.value)
    && (p.times.hours.None? || InHours(p.times.hours.value, clock))
  }

  predicate GateAllowed(p: Permit, gate: GateId) {
    p.gates.Gates? ==> gate in p.gates.ids
  }

  predicate EntriesAvailable(p: Permit) {
    p.maxEntries.None? || p.usedEntries < p.maxEntries.value
  }

  datatype Tables = Tables(events: seq<AccessEvent>, sessions: seq<Session>, occupancies: seq<Occupancy>,
                           spaces: map<SpaceId, SpaceStatus>, permits: seq<Permit>)

  // ---------- capacity.py ----------

  /** True when the yard can take another vehicle. */
  predicate YardCapacityDecision(declared: Option<int>, confirmed: int) {
    declared.None? || declared.value <= 0 || confirmed < declared.value
  }

  /** The designer's setting, else the environment's value, else unlimited. */
  function DeclaredCapacity(setting: Option<int>, environment: int): Option<int> {
    if setting.Some? && setting.value > 0 then setting
    else if environment > 0 then Some(environment) else None
  }

  function ConfirmedOccupancy(os: seq<Occupancy>): (n: nat)
    ensures n <= |os|
  {
    if os == [] then 0 else ConfirmedOccupancy(os[..|os| - 1]) + (if os[|os| - 1].occupied then 1 else 0)
  }

  /** It is the number of occupied rows. */
  lemma {:induction false} ConfirmedIsCount(os: seq<Occupancy>)
    ensures ConfirmedOccupancy(os) == |set i | 0 <= i < |os| && os[i].occupied|
  {
    if os != [] {
      var n := |os| - 1;
      ConfirmedIsCount(os[..n]);
      var before := set i | 0 <= i < n && os[..n][i].occupied;
      assert (set i | 0 <= i < |os| && os[i].occupied) == before + (if os[n].occupied then {n} else {});
    }
  }

  /** One more occupied row counts one more. */
  lemma ConfirmedAppend(os: seq<Occupancy>, o: Occupancy)
    ensures ConfirmedOccupancy(os + [o]) == ConfirmedOccupancy(os) + (if o.occupied then 1 else 0)
  {
    assert (os + [o])[..|os|] == os;
  }

  /** Vacating an occupied row counts one less. */
  lemma {:induction false} ConfirmedVacate(os: seq<Occupancy>, i: nat)
    requires i < |os| && os[i].occupied
    ensures ConfirmedOccupancy(os[i := os[i].(occupied := false)]) == ConfirmedOccupancy(os) - 1
  {
    var n := |os| - 1;
    var os' := os[i := os[i].(occupied := false)];
    if i == n {
      assert os'[..n] == os[..n];
    } else {
      assert os'[..n] == os[..n][i := os[i].(occupied := false)];
      ConfirmedVacate(os[..n], i);
    }
  }
}
