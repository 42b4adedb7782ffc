/** `rules_engine.py`: the first matching rule, its actions, and the guard against softening. */
module RulesEngine {
  import opened GateSchema
  import opened Options

  datatype Action =
    | ShowMessage(text: string) | RequireDriverSelection | ReferToGuard(why: string) | DenyAction(why: string)
    | AllowAction(why: string) | NotifyFieldOp | IssueReceipt | RequestPayment | UnknownAction(name: string)

  datatype Flag = DriverSelection | FieldOp | Receipt | Payment

  datatype Overrides = Overrides(decision: Option<Decision>, reason: Option<Reason>, message: Option<string>,
                                 flags: set<Flag>, warnings: seq<string>)

  /** What the conditions of a rule are evaluated in, as far as it depends on the tables. */
  datatype Context = Context(hasValidPermit: bool, yardFull: bool, coveredFreeCount: nat, hasOpenSession: bool)

  type Condition = nat

  datatype Rule = Rule(effectiveFrom: Option<int>, matchAll: bool, conditions: seq<Condition>, actions: seq<Action>)

  /** The active rules of a request in priority order, with its condition evaluator; or a run that raises. */
  datatype RuleBook = RulesError | Rules(rules: seq<Rule>, matches: (Condition, Context) -> bool)

  const NO_OVERRIDES := Overrides(None, None, None, {}, [])

  predicate SoftenProtected(reason: Reason) {
    reason == PlateRestricted || reason == VehicleInactive
  }

  function ApplyAction(act: Action, o: Overrides): Overrides {
    match act
    case ShowMessage(text) => o.(message := Some(text))
    case RequireDriverSelection => o.(flags := o.flags + {DriverSelection})
    case ReferToGuard(why) => o.(decision := Some(RequireOperatorApproval), reason := Some(RuleReason(why)))
    case DenyAction(why) => o.(decision := Some(Deny), reason := Some(RuleReason(why)))
    case AllowAction(why) => o.(decision := Some(AllowWithWarning), reason := Some(RuleReason(why)))
    case NotifyFieldOp => o.(flags := o.flags + {FieldOp})
    case IssueReceipt => o.(flags := o.flags + {Receipt})
    case RequestPayment => o.(flags := o.flags + {Payment})
    case UnknownAction(name) => o.(warnings := o.warnings + ["UNKNOWN_ACTION:" + name])
  }

  predicate Softening(act: Action) {
    act.AllowAction? || act.ReferToGuard?
  }

  /** An allow on a refusal that is not an unknown plate is taken back. */
  predicate TakenBack(act: Action, decision: Decision, reason: Reason) {
    act.AllowAction? && (decision == Deny || decision == RequireOperatorApproval) && reason != NoActivePermit
  }

  function StepAction(act: Action, decision: Decision, reason: Reason, o: Overrides): Overrides {
    if SoftenProtected(reason) && Softening(act) then o.(warnings := o.warnings + ["RULE_SOFTEN_BLOCKED"])
    else
      var o := ApplyAction(act, o);
      if TakenBack(act, decision, reason)
      then o.(decision := None, reason := None, warnings := o.warnings + ["RULE_SOFTEN_BLOCKED"]) else o
  }

  function RunActions(actions: seq<Action>, decision: Decision, reason: Reason): Overrides {
    if actions == [] then NO_OVERRIDES
    else
      var n := |actions| - 1;
      StepAction(actions[n], decision, reason, RunActions(actions[..n], decision, reason))
  }

  predicate Effective(r: Rule, now: int) {
    r.effectiveFrom.None? || now >= r.effectiveFrom.value
  }

  predicate Matches(r: Rule, matches: (Condition, Context) -> bool, ctx: Context) {
    if r.matchAll then forall i :: 0 <= i < |r.conditions| ==> matches(r.conditions[i], ctx)
    else exists i :: 0 <= i < |r.conditions| && matches(r.conditions[i], ctx)
  }

  predicate Applies(book: RuleBook, i: nat, ctx: Context, now: int)
    requires book.Rules? && i < |book.rules|
  {
    Effective(book.rules[i], now) && Matches(book.rules[i], book.matches, ctx)
  }

  /** The index of the first rule that applies, or the number of rules. */
  function FirstApplying(book: RuleBook, ctx: Context, now: int, i: nat := 0): (k: nat)
    requires book.Rules? && i <= |book.rules|
    ensures i <= k <= |book.rules|
    ensures k < |book.rules| ==> Applies(book, k, ctx, now)
    ensures forall j :: i <= j < k ==> !Applies(book, j, ctx, now)
    decreases |book.rules| - i
  {
    if i == |book.rules| || Applies(book, i, ctx, now) then i else FirstApplying(book, ctx, now, i + 1)
  }

  function ApplyRules(book: RuleBook, ctx: Context, now: int, decision: Decision, reason: Reason): Overrides {
    if book.RulesError? then NO_OVERRIDES.(warnings := ["RULES_ENGINE_ERROR"])
    else
      var k := FirstApplying(book, ctx, now);
      if k == |book.rules| then NO_OVERRIDES else RunActions(book.rules[k].actions, decision, reason)
  }

  /** Whether a rule is in effect and its conditions match. */
  method RuleApplies(book: RuleBook, i: nat, ctx: Context, now: int) returns (matched: bool)
    requires book.Rules? && i < |book.rules|
    ensures matched == Applies(book, i, ctx, now)
  {
    hide Matches;
    matched := false;
    var r := book.rules[i];
    if r.effectiveFrom.None? || now >= r.effectiveFrom.value {
      matched := EvaluateConditions(r, book.matches, ctx);
    }
  }

  /** The loop of `apply_rules_for_event`: the first rule that applies has its actions carried out. */
  method ApplyRulesForEvent(book: RuleBook, ctx: Context, now: int, decision: Decision, reason: Reason)
    returns (overrides: Overrides)
    requires book.Rules?
    ensures overrides == ApplyRules(book, ctx, now, decision, reason)
  {
    hide Applies, RunActions;
    var i := 0;
    while i < |book.rules|
      invariant 0 <= i <= |book.rules|
      invariant FirstApplying(book, ctx, now) == FirstApplying(book, ctx, now, i)
    {
      var matched := RuleApplies(book, i, ctx, now);
      if matched {
        overrides := RunRuleActions(book.rules[i].actions, decision, reason);
        return;
      }
      i := i + 1;
    }
    overrides := NO_OVERRIDES;
  }

  /** One action: blocked, or applied and perhaps taken back. */
  method RunRuleAction(act: Action, decision: Decision, reason: Reason, before: Overrides) returns (overrides: Overrides)
    ensures overrides == StepAction(act, decision, reason, before)
  {
    hide ApplyAction;
    overrides := before;
    var softenBlocked := SoftenProtected(reason);
    if softenBlocked && (act.AllowAction? || act.ReferToGuard?) {
      overrides := overrides.(warnings := overrides.warnings + ["RULE_SOFTEN_BLOCKED"]);
    } else {
      overrides := ApplyAction(act, overrides);
      if act.AllowAction? && (decision == Deny || decision == RequireOperatorApproval) && reason != NoActivePermit {
        overrides := overrides.(decision := None, reason := None);
        overrides := overrides.(warnings := overrides.warnings + ["RULE_SOFTEN_BLOCKED"]);
      }
    }
  }

  /** The loop over the actions of the rule that matched. */
  method RunRuleActions(actions: seq<Action>, decision: Decision, reason: Reason) returns (overrides: Overrides)
    ensures overrides == RunActions(actions, decision, reason)
  {
    hide StepAction;
    overrides := NO_OVERRIDES;
    for j := 0 to |actions|
      invariant overrides == RunActions(actions[..j], decision, reason)
    {
      assert actions[..j + 1][..j] == actions[..j];
      overrides := RunRuleAction(actions[j], decision, reason, overrides);
    }
    assert actions[..|actions|] == actions;
  }

  /** Conditions are all evaluated, then joined by the rule's mode; no condition matches ALL, not ANY. */
  method EvaluateConditions(r: Rule, matches: (Condition, Context) -> bool, ctx: Context) returns (matched: bool)
    ensures matched == Matches(r, matches, ctx)
  {
    var all, any := true, false;
    for i := 0 to |r.conditions|
      invariant all <==> forall k :: 0 <= k < i ==> matches(r.conditions[k], ctx)
      invariant any <==> exists k :: 0 <= k < i && matches(r.conditions[k], ctx)
    {
      var result := matches(r.conditions[i], ctx);
      all, any := all && result, any || result;
    }
    matched := if r.matchAll then all else any;
  }

  // ---------- what rules can and cannot do ----------

  /** An action that decides: it sets the decision, or takes an earlier one back. */
  predicate Decisive(act: Action, reason: Reason) {
    (Softening(act) || act.DenyAction?) && !(SoftenProtected(reason) && Softening(act))
  }

  function Verdict(act: Action, decision: Decision, reason: Reason): Option<Decision> {
    if TakenBack(act, decision, reason) then None
    else if act.DenyAction? then Some(Deny)
    else if act.ReferToGuard? then Some(RequireOperatorApproval) else Some(AllowWithWarning)
  }

  /** The last decisive action alone makes the override. */
  lemma {:induction false} LastDecides(actions: seq<Action>, decision: Decision, reason: Reason, k: nat)
    requires k < |actions| && Decisive(actions[k], reason)
    requires forall i :: k < i < |actions| ==> !Decisive(actions[i], reason)
    ensures RunActions(actions, decision, reason).decision == Verdict(actions[k], decision, reason)
  {
    var n := |actions| - 1;
    if k < n {
      assert !Decisive(actions[n], reason);
      LastDecides(actions[..n], decision, reason, k);
    }
  }

  /** Without a decisive action there is no override. */
  lemma {:induction false} NoneDecides(actions: seq<Action>, decision: Decision, reason: Reason)
    requires forall i :: 0 <= i < |actions| ==> !Decisive(actions[i], reason)
    ensures RunActions(actions, decision, reason).decision == None
  {
    if actions != [] {
      var n := |actions| - 1;
      assert !Decisive(actions[n], reason);
      NoneDecides(actions[..n], decision, reason);
    }
  }

  /** A decision is never set without its reason. */
  lemma {:induction false} ReasonComesAlong(actions: seq<Action>, decision: Decision, reason: Reason)
    ensures
      var o := RunActions(actions, decision, reason);
      o.decision.Some? <==> o.reason.Some?
    ensures
      var o := RunActions(actions, decision, reason);
      && (o.reason.Some? ==> o.reason.value.RuleReason?)
      && (o.decision.Some? ==> o.decision.value in {Deny, RequireOperatorApproval, AllowWithWarning})
  {
    if actions != [] {
      ReasonComesAlong(actions[..|actions| - 1], decision, reason);
    }
  }

  /** No action sequence turns a refusal into an allow, and a protected refusal is never even referred. */
  lemma {:induction false} NoSoftening(actions: seq<Action>, decision: Decision, reason: Reason)
    requires reason != NoActivePermit
    ensures decision == Deny || decision == RequireOperatorApproval ==>
              RunActions(actions, decision, reason).decision != Some(AllowWithWarning)
    ensures SoftenProtected(reason) ==> RunActions(actions, decision, reason).decision in {None, Some(Deny)}
  {
    if actions != [] {
      NoSoftening(actions[..|actions| - 1], decision, reason);
    }
  }

  // ---------- the final decision ----------

  /** Decision and reason after the rules and the review lock. */
  function FinalDecision(book: RuleBook, ctx: Context, now: int, decision: Decision, reason: Reason,
                         needsReview: bool): (Decision, Reason)
  {
    var o := ApplyRules(book, ctx, now, decision, reason);
    var (d, why) :=
      if o.decision.Some? then (o.decision.value, if o.reason.Some? then o.reason.value else reason)
      else (decision, reason);
    if needsReview && (d == Allow || d == AllowWithWarning)
    then (RequireOperatorApproval, EnvelopeReviewRequired) else (d, why)
  }

  /** The pairs of decision and reason the service hands to the rules. */
  predicate BasePair(decision: Decision, reason: Reason) {
    match decision
    case Allow => reason == ExitSessionClosed || reason == ValidPermit
    case AllowWithWarning => reason == NoOpenSessionForExit || reason == DuplicateEntrySessionOpen
    case RequireOperatorApproval => reason == PermitInvalidNow || reason == YardCapacityFull
    case Deny => reason == VehicleInactive || reason == PlateRestricted || reason == ExitUnpaidBlocked
    case UnknownPlate => reason == PlateNotReadable || reason == VehicleNotRegistered || reason == NoActivePermit
    case _ => false
  }

  /** Whatever the rules are, the barrier opens only on a reading that needs no review, and then only when
      the service itself allowed, or the plate was unknown and a rule that applies softened it. */
  lemma OpensOnlyWhen(book: RuleBook, ctx: Context, now: int, decision: Decision, reason: Reason, needsReview: bool)
    requires BasePair(decision, reason)
    ensures
      var d := FinalDecision(book, ctx, now, decision, reason, needsReview).0;
      Opens(d) ==>
        && !needsReview
        && (Opens(decision)
            || (decision == UnknownPlate && d == AllowWithWarning && book.Rules?
                && exists k :: 0 <= k < |book.rules| && Applies(book, k, ctx, now)
                     && exists j :: 0 <= j < |book.rules[k].actions| && book.rules[k].actions[j].AllowAction?))
  {
    if book.Rules? {
      var k := FirstApplying(book, ctx, now);
      if k < |book.rules| {
        var actions := book.rules[k].actions;
        if reason != NoActivePermit { NoSoftening(actions, decision, reason); }
        ReasonComesAlong(actions, decision, reason);
        AllowNeedsAllow(actions, decision, reason);
      }
    }
  }

  lemma {:induction false} AllowNeedsAllow(actions: seq<Action>, decision: Decision, reason: Reason)
    ensures RunActions(actions, decision, reason).decision == Some(AllowWithWarning) ==>
              exists j :: 0 <= j < |actions| && actions[j].AllowAction?
  {
    if actions != [] {
      var n := |actions| - 1;
      AllowNeedsAllow(actions[..n], decision, reason);
      if actions[n].AllowAction? { assert actions[n].AllowAction?; }
      assert forall i :: 0 <= i < n ==> actions[..n][i] == actions[i];
    }
  }

  /** A refusal of a restricted plate or an inactive vehicle stays a refusal whatever the rules say. */
  lemma ProtectedStaysDenied(book: RuleBook, ctx: Context, now: int, reason: Reason, needsReview: bool)
    requires SoftenProtected(reason)
    ensures FinalDecision(book, ctx, now, Deny, reason, needsReview).0 == Deny
  {
    if book.Rules? {
      var k := FirstApplying(book, ctx, now);
      if k < |book.rules| { NoSoftening(book.rules[k].actions, Deny, reason); }
    }
  }

  /** A refusal for lack of room or of a valid permit, or for a debt, is never turned into an allow. */
  lemma RefusalNeverOpens(book: RuleBook, ctx: Context, now: int, decision: Decision, reason: Reason, needsReview: bool)
    requires BasePair(decision, reason) && (decision == Deny || decision == RequireOperatorApproval)
    ensures !Opens(FinalDecision(book, ctx, now, decision, reason, needsReview).0)
  {
    OpensOnlyWhen(book, ctx, now, decision, reason, needsReview);
  }

  /** Rules are documented to tighten only, but a DENY can be lowered: exactly when it is not protected
      and the last decisive action of the first rule that applies refers to the guard. */
  lemma DenyLoweredExactlyWhen(book: RuleBook, ctx: Context, now: int, reason: Reason, needsReview: bool)
    requires BasePair(Deny, reason)
    ensures FinalDecision(book, ctx, now, Deny, reason, needsReview).0 != Deny <==>
              reason == ExitUnpaidBlocked && book.Rules?
              && exists k, j :: 0 <= k < |book.rules| && k == FirstApplying(book, ctx, now)
                   && 0 <= j < |book.rules[k].actions| && book.rules[k].actions[j].ReferToGuard?
                   && forall i :: j < i < |book.rules[k].actions| ==> !Decisive(book.rules[k].actions[i], reason)
  {
    if SoftenProtected(reason) {
      ProtectedStaysDenied(book, ctx, now, reason, needsReview);
    } else if book.Rules? {
      var k := FirstApplying(book, ctx, now);
      if k < |book.rules| {
        var actions := book.rules[k].actions;
        var j := LastDecisive(actions, reason);
        if j < |actions| { LastDecides(actions, Deny, reason, j); } else { NoneDecides(actions, Deny, reason); }
      }
    }
  }

  /** The position of the last decisive action, or the length. */
  lemma LastDecisive(actions: seq<Action>, reason: Reason) returns (j: nat)
    ensures j <= |actions|
    ensures j < |actions| ==> Decisive(actions[j], reason) && forall i :: j < i < |actions| ==> !Decisive(actions[i], reason)
    ensures j == |actions| ==> forall i :: 0 <= i < |actions| ==> !Decisive(actions[i], reason)
  {
    var i := |actions|;
    while i > 0
      invariant 0 <= i <= |actions|
      invariant forall m :: i <= m < |actions| ==> !Decisive(actions[m], reason)
    {
      i := i - 1;
      if Decisive(actions[i], reason) { return i; }
    }
    j := |actions|;
  }
}
