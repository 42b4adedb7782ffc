/** For whom the barrier opens. */
module GateBarrier {
  import opened GateSchema
  import opened Options
  import opened RulesEngine
  import opened GateDecision
  import opened GateInvariants
  import opened GateServing

  ghost predicate HasOpen(st: Tables, plate: Plate) {
    exists i :: 0 <= i < |st.sessions| && OpenFor(st.sessions[i], plate)
  }

  ghost predicate HasPermit(st: Tables, plate: Plate) {
    exists i :: 0 <= i < |st.permits| && PermitOf(st.permits[i], plate)
  }

  /** An active permit of the plate that has begun and not expired, is not for other days or other gates, does not leave
      this hour out, and is not used up. */
  ghost predicate GoodPermit(p: Permit, plate: Plate, r: Request) {
    && p.active && p.plate == plate
    && !(p.times.from.Some? && r.now < p.times.from.value) && !(p.validUntil.Some? && p.validUntil.value < r.now)
    && !(p.times.days.Some? && r.weekday !in p.times.days.value) && !(p.gates.Gates? && r.gate !in p.gates.ids)
    && !(p.times.hours.Some? && LeavesOut(p.times.hours.value, r.clock))
    && !(p.maxEntries.Some? && p.maxEntries.value <= p.usedEntries)
  }

  /** An hour before the first or after the last of one day, or between the last and the first of a night. */
  ghost predicate LeavesOut(hours: (int, int), clock: int) {
    || (hours.0 <= hours.1 && (clock < hours.0 || hours.1 < clock))
    || hours.1 < clock < hours.0
  }

  lemma GoodIsUsable(p: Permit, plate: Plate, r: Request)
    ensures GoodPermit(p, plate, r) <==> PermitOf(p, plate) && PermitUsable(p, r)
  {
  }

  ghost predicate HasUsablePermit(st: Tables, plate: Plate, r: Request) {
    exists i :: 0 <= i < |st.permits| && GoodPermit(st.permits[i], plate, r)
  }

  ghost predicate HasRoom(st: Tables, r: Request) {
    forall capacity :: LimitedTo(r, capacity) ==> ConfirmedOccupancy(st.occupancies) < capacity
  }

  lemma RoomIs(st: Tables, r: Request)
    ensures HasRoom(st, r) <==>
              YardCapacityDecision(DeclaredCapacity(r.capacitySetting, r.capacityEnvironment), ConfirmedOccupancy(st.occupancies))
  {
    hide LimitedTo, DeclaredCapacity, ConfirmedOccupancy;
    var declared := DeclaredCapacity(r.capacitySetting, r.capacityEnvironment);
    DeclaredIsPositive(r);
    if declared.Some? { DeclaredIs(r, declared.value); }
    forall capacity | LimitedTo(r, capacity) ensures declared == Some(capacity) { DeclaredIs(r, capacity); }
  }

  /** What the service asks of a registered plate: an exit must not be blocked for debt while its session is open,
      and an entry needs a usable permit, and room unless the plate is already inside. */
  ghost predicate InOrder(st: Tables, plate: Plate, r: Request) {
    && r.vehicleActive && !r.restricted
    && (if r.direction.Out? then HasOpen(st, plate) ==> !r.exitBlocked
        else HasUsablePermit(st, plate, r) && (HasOpen(st, plate) || HasRoom(st, r)))
  }

  lemma OpenFound(st: Tables, plate: Plate)
    ensures HasOpen(st, plate) <==> FindOpen(st.sessions, plate).Some?
  {
  }

  lemma PermitIsFound(st: Tables, plate: Plate, r: Request)
    ensures HasUsablePermit(st, plate, r) <==> FindActivePermit(st.permits, plate, r).PermitFound?
    ensures HasPermit(st, plate) <==> !FindActivePermit(st.permits, plate, r).NoPermit?
  {
    hide PermitUsable, GoodPermit;
    forall p ensures GoodPermit(p, plate, r) <==> PermitOf(p, plate) && PermitUsable(p, r) { GoodIsUsable(p, plate, r); }
  }

  /** The service itself allows exactly the registered plates that are in order. Unknown to it are exactly the
      unreadable and unregistered plates and the entries, not refused for their vehicle, that have no permit at all. */
  lemma ServiceAllowsExactlyWhen(w: World, st: Tables, r: Request)
    ensures
      var b := Decide(w, st, r);
      var known := VehicleOf(w, r.plate).Some?;
      && (Opens(b.decision) <==> known && InOrder(st, r.plate.value, r))
      && (b.decision == UnknownPlate <==>
            !known || (r.vehicleActive && !r.restricted && !r.direction.Out? && !HasPermit(st, r.plate.value)))
      && (b.reason == ValidPermit <==>
            known && !r.direction.Out? && InOrder(st, r.plate.value, r) && !HasOpen(st, r.plate.value))
      && (b.closes.Some? <==> known && r.direction.Out? && InOrder(st, r.plate.value, r) && HasOpen(st, r.plate.value))
  {
    hide HasOpen, HasPermit, HasUsablePermit, HasRoom, FindOpen, FindActivePermit, YardCapacityDecision, DeclaredCapacity;
    if r.plate.Some? {
      OpenFound(st, r.plate.value);
      PermitIsFound(st, r.plate.value, r);
      RoomIs(st, r);
    }
  }

  /** The refusals, each told from the request and the tables: which decision, for which reason. */
  lemma RefusesExactlyWhen(w: World, st: Tables, r: Request)
    ensures
      var b := Decide(w, st, r);
      var known := r.plate.Some? && r.plate.value in w.vehicleOf;
      var fit := known && r.vehicleActive && !r.restricted;
      var entry := fit && !r.direction.Out?;
      && (b.decision == UnknownPlate && b.reason == PlateNotReadable <==> r.plate.None?)
      && (b.decision == UnknownPlate && b.reason == VehicleNotRegistered <==> r.plate.Some? && !known)
      && (b.decision == Deny && b.reason == VehicleInactive <==> known && !r.vehicleActive)
      && (b.decision == Deny && b.reason == PlateRestricted <==> known && r.vehicleActive && r.restricted)
      && (b.decision == Deny && b.reason == ExitUnpaidBlocked <==> fit && !entry && HasOpen(st, r.plate.value) && r.exitBlocked)
      && (b.decision == UnknownPlate && b.reason == NoActivePermit <==> entry && !HasPermit(st, r.plate.value))
      && (b.decision == RequireOperatorApproval && b.reason == PermitInvalidNow <==>
            entry && HasPermit(st, r.plate.value) && !HasUsablePermit(st, r.plate.value, r))
  {
    hide HasOpen, HasPermit, HasUsablePermit, FindOpen, FindActivePermit, YardCapacityDecision, DeclaredCapacity, ConfirmedOccupancy;
    if r.plate.Some? {
      OpenFound(st, r.plate.value);
      PermitIsFound(st, r.plate.value, r);
    }
  }

  /** What the service lets in or out, and the yard that is full: the designer's capacity counts if it is positive, whatever
      the environment says, and without either there is always room. */
  lemma AdmitsExactlyWhen(w: World, st: Tables, r: Request)
    ensures
      var b, setting, environment := Decide(w, st, r), r.capacitySetting, r.capacityEnvironment;
      var fit := r.plate.Some? && r.plate.value in w.vehicleOf && r.vehicleActive && !r.restricted;
      var inside := |set i | 0 <= i < |st.occupancies| && st.occupancies[i].occupied|;
      var full := if setting.Some? && setting.value > 0 then inside >= setting.value else environment > 0 && inside >= environment;
      var entry := fit && !r.direction.Out? && HasUsablePermit(st, r.plate.value, r);
      && (b.decision == AllowWithWarning && b.reason == NoOpenSessionForExit <==> fit && r.direction.Out? && !HasOpen(st, r.plate.value))
      && (b.decision == Allow && b.reason == ExitSessionClosed <==>
            fit && r.direction.Out? && HasOpen(st, r.plate.value) && !r.exitBlocked)
      && (b.decision == AllowWithWarning && b.reason == DuplicateEntrySessionOpen <==> entry && HasOpen(st, r.plate.value))
      && (b.decision == RequireOperatorApproval && b.reason == YardCapacityFull <==> entry && !HasOpen(st, r.plate.value) && full)
      && (b.decision == Allow && b.reason == ValidPermit <==> entry && !HasOpen(st, r.plate.value) && !full)
  {
    hide HasOpen, HasUsablePermit, FindOpen, FindActivePermit, ConfirmedOccupancy;
    ConfirmedIsCount(st.occupancies);
    if r.plate.Some? {
      OpenFound(st, r.plate.value);
      PermitIsFound(st, r.plate.value, r);
    }
  }

  lemma DeclaredIsPositive(r: Request)
    ensures
      var declared := DeclaredCapacity(r.capacitySetting, r.capacityEnvironment);
      declared.Some? ==> declared.value > 0
  {
  }

  /** A new reading opens the barrier only if it needs no review, and its plate is registered and in order, or is
      one the service knows nothing about and a rule that applies let it in. */
  lemma BarrierOpensOnlyFor(w: World, st: Tables, r: Request)
    requires FindEvent(st.events, r.key).None?
    ensures
      var response := Process(w, st, r).1;
      var known := VehicleOf(w, r.plate).Some?;
      response.Answer? && response.barrierOpen ==>
        && !NeedsReview(r)
        && (known ==> r.vehicleActive && !r.restricted)
        && ((known && InOrder(st, r.plate.value, r))
            || (Decide(w, st, r).decision == UnknownPlate && RuleAllows(w, st, r)))
  {
    hide FindEvent, HasPermit, HasUsablePermit, HasOpen, HasRoom, Decide, FinalDecision, RuleAllows;
    ServiceAllowsExactlyWhen(w, st, r);
    PlanIs(w, st, r);
    PlanOpensOnlyFor(w, st, r);
  }

  ghost predicate RuleAllows(w: World, st: Tables, r: Request) {
    var b := Decide(w, st, r);
    var ctx := BuildContext(Close(st.sessions, b.closes), st.occupancies, st.spaces, r, b.permit);
    && r.book.Rules?
    && exists k, j :: 0 <= k < |r.book.rules| && Applies(r.book, k, ctx, r.now)
                      && 0 <= j < |r.book.rules[k].actions| && r.book.rules[k].actions[j].AllowAction?
  }

  lemma PlanOpensOnlyFor(w: World, st: Tables, r: Request)
    ensures
      Opens(MakePlan(w, st, r).decision) ==>
        !NeedsReview(r) && (Opens(Decide(w, st, r).decision) || (Decide(w, st, r).decision == UnknownPlate && RuleAllows(w, st, r)))
  {
    hide FinalDecision, Applies;
    var b := Decide(w, st, r);
    var ctx := BuildContext(Close(st.sessions, b.closes), st.occupancies, st.spaces, r, b.permit);
    OpensOnlyWhen(r.book, ctx, r.now, b.decision, b.reason, NeedsReview(r));
  }
}
