/** How requests use up permits, in serial runs. */
module GatePermits {
  import opened GateSchema
  import opened Options
  import opened RulesEngine
  import opened GateDecision
  import opened GateInvariants
  import opened GateBarrier
  import opened GateOverrides

  /** The request's reads ended in a plan, and its commit went through. */
  ghost predicate Committed(w: World, st: Tables, r: Request) {
    Read(w, st, r).Planned? && !Conflict(st, Read(w, st, r).plan)
  }

  /** A permit of the plate that was usable is charged one entry, and no other permit changes. */
  ghost predicate ChargedOne(before: seq<Permit>, after: seq<Permit>, r: Request, i: nat) {
    && |after| == |before| && i < |before|
    && r.plate.Some? && GoodPermit(before[i], r.plate.value, r)
    && after[i] == before[i].(usedEntries := before[i].usedEntries + 1)
    && forall j :: 0 <= j < |before| && j != i ==> after[j] == before[j]
  }

  lemma UsesOnlyValid(w: World, st: Tables, r: Request)
    ensures
      var b := Decide(w, st, r);
      && (b.uses <==> b.reason == ValidPermit)
      && (b.uses ==> r.plate.Some? && b.permit.Some? && b.permit.value < |st.permits|
                     && PermitOf(st.permits[b.permit.value], r.plate.value)
                     && PermitUsable(st.permits[b.permit.value], r))
  {
    hide YardCapacityDecision, DeclaredCapacity, FindOpen;
  }

  /** A request charges a permit exactly when the service itself found a valid permit and the commit went through,
      whatever rules and the review lock made of the decision. */
  lemma ChargedExactlyWhen(w: World, st: Tables, r: Request)
    ensures
      var after := Process(w, st, r).0.permits;
      if Committed(w, st, r) && Decide(w, st, r).reason == ValidPermit then exists i :: ChargedOne(st.permits, after, r, i)
      else after == st.permits
  {
    hide FindActivePermit, FindOpen, FinalDecision, Vacate;
    var b := Decide(w, st, r);
    UsesOnlyValid(w, st, r);
    if Committed(w, st, r) {
      var p := Read(w, st, r).plan;
      CommitPermits(w, st, p);
      if b.uses { assert ChargedOne(st.permits, Process(w, st, r).0.permits, r, b.permit.value); }
    }
  }

  lemma CommitPermits(w: World, st: Tables, p: Plan)
    requires !Conflict(st, p)
    ensures Commit(w, st, p).0.permits == SetUsed(st.permits, p.uses)
  {
    hide FindOpen, FindEvent;
  }

  /** So an entry the rules or the review lock refuse after a permit was found is charged to the permit, and
      opens no session. */
  lemma RefusedIsCharged(w: World, st: Tables, r: Request)
    requires Committed(w, st, r) && Decide(w, st, r).reason == ValidPermit && !Admits(MakePlan(w, st, r).decision)
    ensures
      var after := Process(w, st, r).0;
      (exists i :: ChargedOne(st.permits, after.permits, r, i)) && after.sessions == st.sessions && after.occupancies == st.occupancies
  {
    hide FindActivePermit, FindOpen, FinalDecision;
    ChargedExactlyWhen(w, st, r);
  }

  ghost predicate WithinLimits(ps: seq<Permit>) {
    forall i :: 0 <= i < |ps| && ps[i].maxEntries.Some? ==> ps[i].usedEntries <= ps[i].maxEntries.value
  }

  /** No serial run uses a permit beyond its limit. */
  lemma {:induction false} EntriesWithinLimits(w: World, st: Tables, rs: seq<Request>)
    requires WithinLimits(st.permits)
    ensures WithinLimits(Run(w, st, rs).permits)
  {
    hide Process, Decide, Committed;
    if rs != [] {
      var n := |rs| - 1;
      var now := Run(w, st, rs[..n]);
      EntriesWithinLimits(w, st, rs[..n]);
      ChargedExactlyWhen(w, now, rs[n]);
      if exists i: nat :: ChargedOne(now.permits, Process(w, now, rs[n]).0.permits, rs[n], i) {
        var i: nat :| ChargedOne(now.permits, Process(w, now, rs[n]).0.permits, rs[n], i);
        assert EntriesAvailable(now.permits[i]);
      }
    }
  }

  // ---------- charged for nothing ----------

  /** A call that goes through for a registered plate in order that is not inside, and opens no session: its direction is
      neither in nor out, or it needs review, or the rules refuse it. */
  ghost predicate ChargedForNothing(w: World, st: Tables, r: Request) {
    && r.gateKnown && !r.dryRun && !r.recognitionClash && FindEvent(st.events, r.key).None?
    && !r.direction.Out? && VehicleOf(w, r.plate).Some? && InOrder(st, r.plate.value, r) && !HasOpen(st, r.plate.value)
    && (!r.direction.In? || r.captureBad
        || RulesRefuse(r.book, BuildContext(st.sessions, st.occupancies, st.spaces, r, Some(0)), r.now))
  }

  /** A permit is charged and no session opened or closed exactly in these cases, all of which can be told beforehand. */
  lemma ChargedForNothingIff(w: World, st: Tables, r: Request)
    ensures Process(w, st, r).0.permits != st.permits && Process(w, st, r).0.sessions == st.sessions <==> ChargedForNothing(w, st, r)
  {
    hide Process, Decide, InOrder, HasOpen, RulesRefuse, BuildContext, FindEvent, MakePlan, ChargedOne;
    ServiceAllowsExactlyWhen(w, st, r);
    ChargedExactlyWhen(w, st, r);
    if Decide(w, st, r).reason == ValidPermit {
      ValidPermitPlan(w, st, r);
      if Committed(w, st, r) { ChargeShows(w, st, r); }
      CommittedWhen(w, st, r);
    }
  }

  lemma ChargeShows(w: World, st: Tables, r: Request)
    requires Committed(w, st, r) && Decide(w, st, r).reason == ValidPermit
    ensures Process(w, st, r).0.permits != st.permits
  {
    hide Process, Decide, Committed;
    ChargedExactlyWhen(w, st, r);
    var i: nat :| ChargedOne(st.permits, Process(w, st, r).0.permits, r, i);
  }

  /** An entry of a valid permit closes nothing, and opens a session if its direction is in and it is admitted. */
  lemma ValidPermitPlan(w: World, st: Tables, r: Request)
    requires Decide(w, st, r).reason == ValidPermit
    ensures
      var p := MakePlan(w, st, r);
      && p.closes == None && r.plate.Some? && FindOpen(st.sessions, r.plate.value).None?
      && (EntersNew(p) <==>
            r.direction.In? && !NeedsReview(r)
            && !RulesRefuse(r.book, BuildContext(st.sessions, st.occupancies, st.spaces, r, Some(0)), r.now))
  {
    hide FinalDecision, RulesRefuse, FindActivePermit, FindOpen, DeclaredCapacity, NeedsReview;
    var b := Decide(w, st, r);
    var ctx := BuildContext(st.sessions, st.occupancies, st.spaces, r, Some(0));
    assert BuildContext(Close(st.sessions, b.closes), st.occupancies, st.spaces, r, b.permit) == ctx;
    AllowRefusedExactlyWhen(r.book, ctx, r.now, Allow, ValidPermit, NeedsReview(r));
  }

  lemma CommittedWhen(w: World, st: Tables, r: Request)
    requires Decide(w, st, r).reason == ValidPermit
    ensures Committed(w, st, r) <==> r.gateKnown && !r.dryRun && !r.recognitionClash && FindEvent(st.events, r.key).None?
    ensures Committed(w, st, r) ==> (Process(w, st, r).0.sessions == st.sessions <==> !EntersNew(MakePlan(w, st, r)))
  {
    hide FinalDecision, RulesRefuse, FindActivePermit, FindOpen, DeclaredCapacity, NeedsReview, BuildContext, Decide;
    ValidPermitPlan(w, st, r);
    PlanIs(w, st, r);
    var p := MakePlan(w, st, r);
    if Committed(w, st, r) && Leaves(p) { VacateSessions(Recorded(st, p), p.vehicle.value); }
  }

  const OWNER := World(map[7 := 1], map[])
  const FRESH := Tables([], [], [], map[], [Permit(7, true, None, ALWAYS, AnyGate, None, 0)])

  function Arrival(direction: Direction, captureBad: bool, book: RuleBook): Request {
    Request(Key(1, 1), true, 1, direction, Some(7), captureBad, false, false, true, false, false, 0, 0, 0, 0, None, 0, book)
  }

  lemma ArrivalInOrder(direction: Direction, captureBad: bool, book: RuleBook)
    requires !direction.Out?
    ensures
      var r := Arrival(direction, captureBad, book);
      VehicleOf(OWNER, r.plate).Some? && InOrder(FRESH, 7, r) && !HasOpen(FRESH, 7) && FindEvent(FRESH.events, r.key).None?
  {
    var r := Arrival(direction, captureBad, book);
    assert PermitOf(FRESH.permits[0], 7) && PermitUsable(FRESH.permits[0], r);
  }

  /** A case of each kind: a direction that is neither in nor out, a bad capture, and a rule that denies. */
  lemma ChargedForNothingCases()
    ensures
      var denial := Rules([Rule(None, true, [], [DenyAction("RULE_DENY")])], (c, x) => true);
      forall r :: r == Arrival(OtherDirection, false, RulesError) || r == Arrival(In, true, RulesError) || r == Arrival(In, false, denial) ==>
        Process(OWNER, FRESH, r).0.permits != FRESH.permits && Process(OWNER, FRESH, r).0.sessions == FRESH.sessions
  {
    hide Process, InOrder, HasOpen, BuildContext, FindEvent;
    var denial := Rules([Rule(None, true, [], [DenyAction("RULE_DENY")])], (c, x) => true);
    ArrivalInOrder(OtherDirection, false, RulesError);
    ArrivalInOrder(In, true, RulesError);
    ArrivalInOrder(In, false, denial);
    DenialRefuses(denial, BuildContext(FRESH.sessions, FRESH.occupancies, FRESH.spaces, Arrival(In, false, denial), Some(0)), 0);
    ChargedForNothingIff(OWNER, FRESH, Arrival(OtherDirection, false, RulesError));
    ChargedForNothingIff(OWNER, FRESH, Arrival(In, true, RulesError));
    ChargedForNothingIff(OWNER, FRESH, Arrival(In, false, denial));
  }

  lemma DenialRefuses(book: RuleBook, ctx: Context, now: int)
    requires book.Rules? && book.rules == [Rule(None, true, [], [DenyAction("RULE_DENY")])]
    ensures RulesRefuse(book, ctx, now)
  {
    assert Applies(book, 0, ctx, now);
    assert FirstApplying(book, ctx, now) == 0;
    assert book.rules[0].actions[0].DenyAction?;
  }
}
