/** When an exit that closed its session is refused after all. */
module GateOverrides {
  import opened GateSchema
  import opened Options
  import opened RulesEngine
  import opened GateDecision
  import opened GateInvariants
  import opened GateBarrier
  import opened GateServing

  /** The last decisive action of the first rule that applies denies or refers to the guard. */
  ghost predicate RulesRefuse(book: RuleBook, ctx: Context, now: int) {
    && book.Rules?
    && exists k, j :: 0 <= k < |book.rules| && k == FirstApplying(book, ctx, now) && 0 <= j < |book.rules[k].actions|
                      && (book.rules[k].actions[j].DenyAction? || book.rules[k].actions[j].ReferToGuard?)
                      && forall i :: j < i < |book.rules[k].actions| ==> !Decisive(book.rules[k].actions[i], ExitSessionClosed)
  }

  /** What the service allowed, with a warning or without, is refused exactly on review, or when the rules refuse it. */
  lemma AllowRefusedExactlyWhen(book: RuleBook, ctx: Context, now: int, decision: Decision, reason: Reason, needsReview: bool)
    requires BasePair(decision, reason) && Admits(decision)
    ensures !Admits(FinalDecision(book, ctx, now, decision, reason, needsReview).0) <==> needsReview || RulesRefuse(book, ctx, now)
  {
    if book.Rules? {
      var k := FirstApplying(book, ctx, now);
      if k < |book.rules| {
        var actions := book.rules[k].actions;
        var j := LastDecisive(actions, reason);
        if j < |actions| {
          LastDecides(actions, decision, reason, j);
        } else {
          NoneDecides(actions, decision, reason);
        }
      }
    }
  }

  /** An exit the service allowed, in particular. */
  lemma ExitRefusedExactlyWhen(book: RuleBook, ctx: Context, now: int, needsReview: bool)
    ensures !Admits(FinalDecision(book, ctx, now, Allow, ExitSessionClosed, needsReview).0) <==>
              needsReview || RulesRefuse(book, ctx, now)
  {
    AllowRefusedExactlyWhen(book, ctx, now, Allow, ExitSessionClosed, needsReview);
  }

  /** What the rules are evaluated in for an exit: its session is closed already. */
  ghost function ExitContext(st: Tables, r: Request): Context
    requires r.plate.Some?
  {
    BuildContext(Close(st.sessions, FindOpen(st.sessions, r.plate.value)), st.occupancies, st.spaces, r, None)
  }

  /** The request will go through, is the exit of a registered plate in order that is inside, and needs review or is
      refused by the rules. */
  ghost predicate OverridesExit(w: World, st: Tables, r: Request) {
    && r.gateKnown && !r.dryRun && !r.recognitionClash && FindEvent(st.events, r.key).None?
    && r.direction.Out? && VehicleOf(w, r.plate).Some? && InOrder(st, r.plate.value, r) && HasOpen(st, r.plate.value)
    && (r.captureBad || RulesRefuse(r.book, ExitContext(st, r), r.now))
  }

  lemma ClosesWhat(w: World, st: Tables, r: Request)
    requires Decide(w, st, r).closes.Some?
    ensures
      var b := Decide(w, st, r);
      && r.plate.Some? && b.closes == FindOpen(st.sessions, r.plate.value) && b.permit == None
      && b.decision == Allow && b.reason == ExitSessionClosed
  {
    hide FindOpen, FindActivePermit, DeclaredCapacity;
  }

  /** A request overrides its exit exactly in these cases, all of which can be told beforehand. */
  lemma OverriddenExactlyWhen(w: World, st: Tables, r: Request)
    ensures !NotOverridden(w, st, r) <==> OverridesExit(w, st, r)
  {
    hide Decide, InOrder, HasOpen, FinalDecision, RulesRefuse, BuildContext, FindEvent, FindOpen;
    ServiceAllowsExactlyWhen(w, st, r);
    if Decide(w, st, r).closes.Some? {
      ClosesWhat(w, st, r);
      ExitRefusedExactlyWhen(r.book, ExitContext(st, r), r.now, NeedsReview(r));
    }
  }

  /** One request keeps sessions, occupancies and spaces in exact agreement if and only if it does not override an exit. */
  lemma ExactKeptIff(w: World, st: Tables, r: Request)
    requires Exact(w, st) && OnePlateEach(w) && OneSpaceEach(w)
    ensures Exact(w, Process(w, st, r).0) <==> !OverridesExit(w, st, r)
  {
    hide Exact, Process, NotOverridden, OverridesExit;
    OverriddenExactlyWhen(w, st, r);
    ExactKeptByDecision(w, st, r);
  }

  /** So runs without such a request keep it. */
  lemma RunKeepsExact(w: World, st: Tables, rs: seq<Request>)
    requires Exact(w, st) && OnePlateEach(w) && OneSpaceEach(w)
    requires forall i :: 0 <= i < |rs| ==> !OverridesExit(w, Run(w, st, rs[..i]), rs[i])
    ensures Exact(w, Run(w, st, rs))
  {
    hide Exact, Run, NotOverridden, OverridesExit;
    forall i | 0 <= i < |rs| ensures NotOverridden(w, Run(w, st, rs[..i]), rs[i]) {
      OverriddenExactlyWhen(w, Run(w, st, rs[..i]), rs[i]);
    }
    RunExact(w, st, rs);
  }

  // ---------- exactly when the barrier opens ----------

  /** The last decisive action of the first rule that applies lets in. */
  ghost predicate RulesAllow(book: RuleBook, ctx: Context, now: int) {
    && book.Rules?
    && exists k, j :: 0 <= k < |book.rules| && k == FirstApplying(book, ctx, now) && 0 <= j < |book.rules[k].actions|
                      && book.rules[k].actions[j].AllowAction?
                      && forall i :: j < i < |book.rules[k].actions| ==> !Decisive(book.rules[k].actions[i], NoActivePermit)
  }

  /** A plate unknown to the service is let in exactly when there is no review and the rules let it in. */
  lemma UnknownAllowedExactlyWhen(book: RuleBook, ctx: Context, now: int, reason: Reason, needsReview: bool)
    requires BasePair(UnknownPlate, reason)
    ensures Admits(FinalDecision(book, ctx, now, UnknownPlate, reason, needsReview).0) <==> !needsReview && RulesAllow(book, ctx, now)
  {
    if book.Rules? {
      var k := FirstApplying(book, ctx, now);
      if k < |book.rules| {
        var actions := book.rules[k].actions;
        var j := LastDecisive(actions, reason);
        if j < |actions| {
          LastDecides(actions, UnknownPlate, reason, j);
        } else {
          NoneDecides(actions, UnknownPlate, reason);
        }
      }
    }
  }

  /** What the rules of a request are evaluated in. */
  ghost function RuleContext(w: World, st: Tables, r: Request): Context {
    var b := Decide(w, st, r);
    BuildContext(Close(st.sessions, b.closes), st.occupancies, st.spaces, r, b.permit)
  }

  /** A plate the service knows nothing about: unreadable, unregistered, or without any permit at its entry. */
  ghost predicate Unknown(w: World, st: Tables, r: Request) {
    || VehicleOf(w, r.plate).None?
    || (r.vehicleActive && !r.restricted && !r.direction.Out? && !HasPermit(st, r.plate.value))
  }

  /** Nothing stands against the request, and the rules do not refuse it; or its plate is unknown and the rules let it in. */
  ghost predicate MayPass(w: World, st: Tables, r: Request) {
    && !r.captureBad && r.plate.Some?
    && (if Unknown(w, st, r) then RulesAllow(r.book, RuleContext(w, st, r), r.now)
        else InOrder(st, r.plate.value, r) && !RulesRefuse(r.book, RuleContext(w, st, r), r.now))
  }

  lemma PlanAdmitsExactlyWhen(w: World, st: Tables, r: Request)
    ensures Opens(MakePlan(w, st, r).decision) <==> MayPass(w, st, r)
    ensures Opens(MakePlan(w, st, r).decision) == Admits(MakePlan(w, st, r).decision)
  {
    hide Decide, InOrder, HasOpen, HasPermit, FinalDecision, RulesRefuse, RulesAllow, BuildContext;
    var b, ctx := Decide(w, st, r), RuleContext(w, st, r);
    ServiceAllowsExactlyWhen(w, st, r);
    FinalIsNotOffline(r.book, ctx, r.now, b.decision, b.reason, NeedsReview(r));
    if b.decision == UnknownPlate {
      UnknownAllowedExactlyWhen(r.book, ctx, r.now, b.reason, NeedsReview(r));
    } else if Admits(b.decision) {
      AllowRefusedExactlyWhen(r.book, ctx, r.now, b.decision, b.reason, NeedsReview(r));
    } else {
      RefusalNeverOpens(r.book, ctx, r.now, b.decision, b.reason, NeedsReview(r));
    }
  }

  lemma FinalIsNotOffline(book: RuleBook, ctx: Context, now: int, decision: Decision, reason: Reason, needsReview: bool)
    requires BasePair(decision, reason)
    ensures
      var d := FinalDecision(book, ctx, now, decision, reason, needsReview).0;
      Opens(d) == Admits(d) && (Opens(decision) == Admits(decision))
  {
    if book.Rules? {
      var k := FirstApplying(book, ctx, now);
      if k < |book.rules| { ReasonComesAlong(book.rules[k].actions, decision, reason); }
    }
  }

  /** A new reading opens the barrier if and only if the call returns and the reading may pass. */
  lemma BarrierOpensIff(w: World, st: Tables, r: Request)
    requires FindEvent(st.events, r.key).None?
    ensures
      var response := Process(w, st, r).1;
      response.Answer? && response.barrierOpen <==> r.gateKnown && (r.dryRun || !r.recognitionClash) && MayPass(w, st, r)
  {
    hide FindEvent, FindOpen, MayPass, MakePlan;
    PlanAdmitsExactlyWhen(w, st, r);
    PlanIs(w, st, r);
    RaisesOnlyWhen(w, st, r);
    if r.gateKnown && !r.dryRun && !r.recognitionClash && Conflict(st, MakePlan(w, st, r)) { OnlySoftenedConflicts(w, st, r); }
  }

  /** In a serial run the barrier opens without a record of the event if and only if an unknown plate that has an open
      session may pass inwards. */
  lemma OpensUnrecordedIff(w: World, st: Tables, r: Request)
    requires FindEvent(st.events, r.key).None? && !r.dryRun
    ensures
      var (st', response) := Process(w, st, r);
      response.Answer? && response.barrierOpen && FindEvent(st'.events, r.key).None? <==>
        && r.gateKnown && !r.recognitionClash && r.direction.In? && MayPass(w, st, r) && Unknown(w, st, r)
        && r.plate.Some? && HasOpen(st, r.plate.value)
  {
    hide FindEvent, FindOpen, MayPass, MakePlan, Decide, HasPermit, HasOpen, Process, NeedsReview, Unknown;
    BarrierOpensIff(w, st, r);
    PlanAdmitsExactlyWhen(w, st, r);
    if r.gateKnown && !r.recognitionClash {
      UnrecordedIff(w, st, r);
      ConflictIff(w, st, r);
    }
  }

  lemma UnrecordedIff(w: World, st: Tables, r: Request)
    requires FindEvent(st.events, r.key).None? && !r.dryRun && r.gateKnown && !r.recognitionClash
    ensures FindEvent(Process(w, st, r).0.events, r.key).None? <==> Conflict(st, MakePlan(w, st, r))
  {
    hide FindOpen, MakePlan, Enter, Vacate;
    PlanIs(w, st, r);
    var p := MakePlan(w, st, r);
    if !Conflict(st, p) {
      var st1 := Recorded(st, p);
      if EntersNew(p) { EnterEvents(w, st1, p, |st.events|); } else if Leaves(p) { VacateSessions(st1, p.vehicle.value); }
      var es := Process(w, st, r).0.events;
      assert es[|st.events|].key == r.key;
    }
  }

  lemma ConflictIff(w: World, st: Tables, r: Request)
    requires FindEvent(st.events, r.key).None?
    ensures Conflict(st, MakePlan(w, st, r)) <==>
              Opens(MakePlan(w, st, r).decision) && r.direction.In? && Unknown(w, st, r) && r.plate.Some? && HasOpen(st, r.plate.value)
  {
    hide FindEvent, FindOpen, HasOpen, HasPermit, FinalDecision, NeedsReview, Decide;
    var b, p := Decide(w, st, r), MakePlan(w, st, r);
    PlanIs(w, st, r);
    PlanAdmitsExactlyWhen(w, st, r);
    ServiceAllowsExactlyWhen(w, st, r);
    UnreadableReview(r);
    NewSessionWhen(w, st, r);
    if r.plate.Some? { OpenFound(st, r.plate.value); }
    if Conflict(st, p) { OnlySoftenedConflicts(w, st, r); }
  }

  lemma UnreadableReview(r: Request)
    ensures r.plate.None? ==> NeedsReview(r)
  {
  }

  lemma NewSessionWhen(w: World, st: Tables, r: Request)
    ensures
      var b := Decide(w, st, r);
      b.decision == UnknownPlate ==> b.newSession && b.closes == None
  {
    hide FindOpen, FindActivePermit, DeclaredCapacity, ConfirmedOccupancy;
  }
}
