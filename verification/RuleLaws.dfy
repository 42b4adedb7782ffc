/** How dates, conditions and order of the rules decide which of them acts, and what its actions leave behind. */
module RuleLaws {
  import opened GateSchema
  import opened Options
  import opened RulesEngine

  /** The rules with one of them taken out. */
  function Without(book: RuleBook, k: nat): RuleBook
    requires book.Rules? && k < |book.rules|
  {
    book.(rules := book.rules[..k] + book.rules[k + 1..])
  }

  /** The rules with one of them put in another's place. */
  function With(book: RuleBook, k: nat, rule: Rule): RuleBook
    requires book.Rules? && k < |book.rules|
  {
    book.(rules := book.rules[k := rule])
  }

  lemma FirstIs(book: RuleBook, ctx: Context, now: int, k: nat)
    requires book.Rules? && k <= |book.rules| && (k < |book.rules| ==> Applies(book, k, ctx, now))
    requires forall j :: 0 <= j < k ==> !Applies(book, j, ctx, now)
    ensures FirstApplying(book, ctx, now) == k
  {
    hide Applies;
    var f := FirstApplying(book, ctx, now);
  }

  lemma WithoutUnapplied(book: RuleBook, k: nat, ctx: Context, now: int, decision: Decision, reason: Reason)
    requires book.Rules? && k < |book.rules| && !Applies(book, k, ctx, now)
    ensures ApplyRules(Without(book, k), ctx, now, decision, reason) == ApplyRules(book, ctx, now, decision, reason)
  {
    hide FirstApplying, RunActions;
    FirstWithout(book, k, ctx, now);
  }

  lemma FirstWithout(book: RuleBook, k: nat, ctx: Context, now: int)
    requires book.Rules? && k < |book.rules| && !Applies(book, k, ctx, now)
    ensures
      var f := FirstApplying(book, ctx, now);
      f != k && FirstApplying(Without(book, k), ctx, now) == if f < k then f else f - 1
  {
    hide Applies, Without;
    var f := FirstApplying(book, ctx, now);
    RulesWithout(book, k, ctx, now);
    FirstIs(Without(book, k), ctx, now, if f < k then f else f - 1);
  }

  lemma RulesWithout(book: RuleBook, k: nat, ctx: Context, now: int)
    requires book.Rules? && k < |book.rules|
    ensures Without(book, k).Rules? && |Without(book, k).rules| == |book.rules| - 1
    ensures forall j :: 0 <= j < |book.rules| - 1 ==> Applies(Without(book, k), j, ctx, now) == Applies(book, if j < k then j else j + 1, ctx, now)
  {
    hide Applies;
    forall j | 0 <= j < |book.rules| - 1
      ensures Applies(Without(book, k), j, ctx, now) == Applies(book, if j < k then j else j + 1, ctx, now)
    {
      SameRule(Without(book, k), j, book, if j < k then j else j + 1, ctx, now);
    }
  }

  lemma SameRule(a: RuleBook, i: nat, b: RuleBook, j: nat, ctx: Context, now: int)
    requires a.Rules? && b.Rules? && i < |a.rules| && j < |b.rules| && a.rules[i] == b.rules[j] && a.matches == b.matches
    ensures Applies(a, i, ctx, now) == Applies(b, j, ctx, now)
  {
  }

  lemma WithLike(book: RuleBook, k: nat, rule: Rule, ctx: Context, now: int, decision: Decision, reason: Reason)
    requires book.Rules? && k < |book.rules| && rule.actions == book.rules[k].actions
    requires Applies(With(book, k, rule), k, ctx, now) == Applies(book, k, ctx, now)
    ensures ApplyRules(With(book, k, rule), ctx, now, decision, reason) == ApplyRules(book, ctx, now, decision, reason)
  {
    hide Applies, RunActions;
    var f := FirstApplying(book, ctx, now);
    forall j | 0 <= j < |book.rules| ensures Applies(With(book, k, rule), j, ctx, now) == Applies(book, j, ctx, now) {
      if j != k { SameRule(With(book, k, rule), j, book, j, ctx, now); }
    }
    FirstIs(With(book, k, rule), ctx, now, f);
  }

  // ---------- dates and order ----------

  /** A rule dated later than now might as well not be there. */
  lemma FutureRuleIgnored(book: RuleBook, k: nat, ctx: Context, now: int, decision: Decision, reason: Reason)
    requires book.Rules? && k < |book.rules|
    requires book.rules[k].effectiveFrom.Some? && book.rules[k].effectiveFrom.value > now
    ensures ApplyRules(book, ctx, now, decision, reason) == ApplyRules(Without(book, k), ctx, now, decision, reason)
  {
    WithoutUnapplied(book, k, ctx, now, decision, reason);
  }

  /** A rule dated now or earlier might as well have no date. */
  lemma PastRuleUndated(book: RuleBook, k: nat, ctx: Context, now: int, decision: Decision, reason: Reason)
    requires book.Rules? && k < |book.rules|
    requires book.rules[k].effectiveFrom.Some? && book.rules[k].effectiveFrom.value <= now
    ensures ApplyRules(book, ctx, now, decision, reason)
         == ApplyRules(With(book, k, book.rules[k].(effectiveFrom := None)), ctx, now, decision, reason)
  {
    WithLike(book, k, book.rules[k].(effectiveFrom := None), ctx, now, decision, reason);
  }

  /** An undated rule without conditions, all of which it asks for, keeps every later rule from acting. */
  lemma FirstRuleWins(book: RuleBook, ctx: Context, now: int, decision: Decision, reason: Reason)
    requires book.Rules? && book.rules != []
    requires book.rules[0].effectiveFrom.None? && book.rules[0].matchAll && book.rules[0].conditions == []
    ensures ApplyRules(book, ctx, now, decision, reason) == RunActions(book.rules[0].actions, decision, reason)
  {
    FirstIs(book, ctx, now, 0);
  }

  // ---------- conditions ----------

  /** The rule with one more condition, anywhere among the others. */
  function Asking(r: Rule, c: Condition, at: nat): Rule
    requires at <= |r.conditions|
  {
    r.(conditions := r.conditions[..at] + [c] + r.conditions[at..])
  }

  lemma MatchesAsking(r: Rule, c: Condition, at: nat, matches: (Condition, Context) -> bool, ctx: Context)
    requires at <= |r.conditions|
    ensures Matches(Asking(r, c, at), matches, ctx) <==>
              if r.matchAll then Matches(r, matches, ctx) && matches(c, ctx) else Matches(r, matches, ctx) || matches(c, ctx)
  {
    var asked := Asking(r, c, at).conditions;
    assert asked[at] == c;
    forall i | 0 <= i < |r.conditions| ensures r.conditions[i] == asked[if i < at then i else i + 1] { }
    forall i | 0 <= i < |asked| && i != at ensures asked[i] == r.conditions[if i < at then i else i - 1] { }
  }

  /** A rule that asks for all its conditions: one more that holds changes nothing, one that fails disables the rule. */
  lemma AllAsksMore(book: RuleBook, k: nat, c: Condition, at: nat, ctx: Context, now: int, decision: Decision, reason: Reason)
    requires book.Rules? && k < |book.rules| && book.rules[k].matchAll && at <= |book.rules[k].conditions|
    ensures ApplyRules(With(book, k, Asking(book.rules[k], c, at)), ctx, now, decision, reason)
         == ApplyRules(if book.matches(c, ctx) then book else Without(book, k), ctx, now, decision, reason)
  {
    hide Matches, ApplyRules, Asking;
    var rule := book.rules[k].(conditions := book.rules[k].conditions[..at] + [c] + book.rules[k].conditions[at..]);
    AskingIs(book.rules[k], c, at);
    MatchesAsking(book.rules[k], c, at, book.matches, ctx);
    if book.matches(c, ctx) {
      WithLike(book, k, rule, ctx, now, decision, reason);
    } else {
      WithoutUnapplied(With(book, k, rule), k, ctx, now, decision, reason);
      assert Without(With(book, k, rule), k) == Without(book, k);
    }
  }

  lemma AskingIs(r: Rule, c: Condition, at: nat)
    requires at <= |r.conditions|
    ensures Asking(r, c, at) == r.(conditions := r.conditions[..at] + [c] + r.conditions[at..])
  {
  }

  /** A rule that asks for any of them: one more that fails changes nothing, and with one that holds the others do not matter. */
  lemma AnyAsksMore(book: RuleBook, k: nat, c: Condition, at: nat, ctx: Context, now: int, decision: Decision, reason: Reason)
    requires book.Rules? && k < |book.rules| && !book.rules[k].matchAll && at <= |book.rules[k].conditions|
    ensures ApplyRules(With(book, k, Asking(book.rules[k], c, at)), ctx, now, decision, reason)
         == ApplyRules(if book.matches(c, ctx) then With(book, k, book.rules[k].(matchAll := true, conditions := [])) else book,
                       ctx, now, decision, reason)
  {
    hide ApplyRules, Asking;
    var asking := Asking(book.rules[k], c, at);
    AskingIs(book.rules[k], c, at);
    MatchesAsking(book.rules[k], c, at, book.matches, ctx);
    if book.matches(c, ctx) {
      var rule := book.rules[k].(matchAll := true, conditions := []);
      WithLike(With(book, k, asking), k, rule, ctx, now, decision, reason);
      assert With(With(book, k, asking), k, rule) == With(book, k, rule);
    } else {
      WithLike(book, k, asking, ctx, now, decision, reason);
    }
  }

  /** Without any condition, a rule that asks for any of them never acts. */
  lemma AnyOfNothing(book: RuleBook, k: nat, ctx: Context, now: int, decision: Decision, reason: Reason)
    requires book.Rules? && k < |book.rules| && !book.rules[k].matchAll && book.rules[k].conditions == []
    ensures ApplyRules(book, ctx, now, decision, reason) == ApplyRules(Without(book, k), ctx, now, decision, reason)
  {
    WithoutUnapplied(book, k, ctx, now, decision, reason);
  }

  /** A rule that denies from 200 on: an allowed entry is still allowed at 100 and denied at 200 and 300. */
  lemma DatedRuleCases(ctx: Context)
    ensures
      var book := Rules([Rule(Some(200), true, [], [DenyAction("RULE_DENY")])], (c, x) => true);
      && FinalDecision(book, ctx, 100, Allow, ValidPermit, false) == (Allow, ValidPermit)
      && FinalDecision(book, ctx, 200, Allow, ValidPermit, false) == (Deny, RuleReason("RULE_DENY"))
      && FinalDecision(book, ctx, 300, Allow, ValidPermit, false) == (Deny, RuleReason("RULE_DENY"))
  {
    var book := Rules([Rule(Some(200), true, [], [DenyAction("RULE_DENY")])], (c, x) => true);
    assert Without(book, 0).rules == [];
    FutureRuleIgnored(book, 0, ctx, 100, Allow, ValidPermit);
    FirstIs(book, ctx, 200, 0);
    FirstIs(book, ctx, 300, 0);
    DenialAlone("RULE_DENY", Allow, ValidPermit);
  }

  lemma DenialAlone(why: string, decision: Decision, reason: Reason)
    ensures RunActions([DenyAction(why)], decision, reason) == NO_OVERRIDES.(decision := Some(Deny), reason := Some(RuleReason(why)))
  {
    assert [DenyAction(why)][..0] == [];
  }

  // ---------- what the actions leave behind ----------

  /** The reason a deciding action gives. */
  function Why(act: Action): string {
    match act case ReferToGuard(why) => why case DenyAction(why) => why case AllowAction(why) => why case _ => ""
  }

  /** The last decisive action gives its reason too, or takes the reason back with the decision. */
  lemma {:induction false} LastGivesReason(actions: seq<Action>, decision: Decision, reason: Reason, k: nat)
    requires k < |actions| && Decisive(actions[k], reason)
    requires forall i :: k < i < |actions| ==> !Decisive(actions[i], reason)
    ensures RunActions(actions, decision, reason).reason ==
              if TakenBack(actions[k], decision, reason) then None else Some(RuleReason(Why(actions[k])))
  {
    var n := |actions| - 1;
    if k < n {
      assert !Decisive(actions[n], reason);
      LastGivesReason(actions[..n], decision, reason, k);
    }
  }

  function Raises(act: Action): set<Flag> {
    match act
    case RequireDriverSelection => {DriverSelection}
    case NotifyFieldOp => {FieldOp}
    case IssueReceipt => {Receipt}
    case RequestPayment => {Payment}
    case _ => {}
  }

  /** A flag is up exactly when some action raises it; blocked softenings take none down. */
  lemma {:induction false} FlagsAre(actions: seq<Action>, decision: Decision, reason: Reason, flag: Flag)
    ensures flag in RunActions(actions, decision, reason).flags <==> exists j :: 0 <= j < |actions| && flag in Raises(actions[j])
  {
    hide RunActions, Raises;
    if actions != [] {
      var n := |actions| - 1;
      RunLast(actions, decision, reason);
      FlagsAre(actions[..n], decision, reason, flag);
      FlagsOfAction(actions[n], decision, reason, RunActions(actions[..n], decision, reason), flag);
      assert forall i :: 0 <= i < n ==> actions[..n][i] == actions[i];
      if exists j :: 0 <= j < n && flag in Raises(actions[..n][j]) {
        var j :| 0 <= j < n && flag in Raises(actions[..n][j]);
        assert flag in Raises(actions[j]);
      }
    } else {
      RunNothing(decision, reason);
    }
  }

  lemma FlagsOfAction(act: Action, decision: Decision, reason: Reason, o: Overrides, flag: Flag)
    ensures flag in StepAction(act, decision, reason, o).flags <==> flag in o.flags || flag in Raises(act)
  {
  }

  /** The message is that of the last action that shows one. */
  lemma {:induction false} MessageIsLast(actions: seq<Action>, decision: Decision, reason: Reason, k: nat)
    requires k < |actions| && actions[k].ShowMessage? && forall i :: k < i < |actions| ==> !actions[i].ShowMessage?
    ensures RunActions(actions, decision, reason).message == Some(actions[k].text)
  {
    var n := |actions| - 1;
    if k < n {
      assert !actions[n].ShowMessage?;
      MessageIsLast(actions[..n], decision, reason, k);
    }
  }

  /** A softening is reported as blocked exactly when an action allows or refers on a restricted plate or inactive
      vehicle, or allows on a refusal that is not for lack of any permit. */
  lemma {:induction false} BlockedIsReported(actions: seq<Action>, decision: Decision, reason: Reason)
    ensures "RULE_SOFTEN_BLOCKED" in RunActions(actions, decision, reason).warnings <==>
              exists j :: 0 <= j < |actions| && Blocked(actions[j], decision, reason)
  {
    hide RunActions;
    if actions != [] {
      var n := |actions| - 1;
      RunLast(actions, decision, reason);
      BlockedIsReported(actions[..n], decision, reason);
      WarnsOfAction(actions[n], decision, reason, RunActions(actions[..n], decision, reason));
      assert forall i :: 0 <= i < n ==> actions[..n][i] == actions[i];
      if exists j :: 0 <= j < n && Blocked(actions[..n][j], decision, reason) {
        var j :| 0 <= j < n && Blocked(actions[..n][j], decision, reason);
        assert Blocked(actions[j], decision, reason);
      }
    } else {
      RunNothing(decision, reason);
    }
  }

  predicate Blocked(act: Action, decision: Decision, reason: Reason) {
    || ((reason == PlateRestricted || reason == VehicleInactive) && (act.AllowAction? || act.ReferToGuard?))
    || ((decision == Deny || decision == RequireOperatorApproval) && reason != NoActivePermit && act.AllowAction?)
  }

  lemma RunNothing(decision: Decision, reason: Reason)
    ensures RunActions([], decision, reason) == NO_OVERRIDES
  {
  }

  lemma RunLast(actions: seq<Action>, decision: Decision, reason: Reason)
    requires actions != []
    ensures
      var n := |actions| - 1;
      RunActions(actions, decision, reason) == StepAction(actions[n], decision, reason, RunActions(actions[..n], decision, reason))
  {
  }

  lemma WarnsOfAction(act: Action, decision: Decision, reason: Reason, o: Overrides)
    ensures "RULE_SOFTEN_BLOCKED" in StepAction(act, decision, reason, o).warnings <==>
              "RULE_SOFTEN_BLOCKED" in o.warnings || Blocked(act, decision, reason)
  {
    if act.UnknownAction? { assert ("UNKNOWN_ACTION:" + act.name)[0] == 'U'; }
  }

  /** The other warnings: an unknown action is reported by its name, and a run that raises by its own warning. */
  lemma {:induction false} UnknownIsReported(actions: seq<Action>, decision: Decision, reason: Reason, name: string)
    ensures "UNKNOWN_ACTION:" + name in RunActions(actions, decision, reason).warnings <==> UnknownAction(name) in actions
    ensures "RULES_ENGINE_ERROR" !in RunActions(actions, decision, reason).warnings
  {
    hide RunActions, StepAction;
    if actions != [] {
      var n := |actions| - 1;
      RunLast(actions, decision, reason);
      UnknownIsReported(actions[..n], decision, reason, name);
      WarnsOfUnknown(actions[n], decision, reason, RunActions(actions[..n], decision, reason), name);
      assert actions == actions[..n] + [actions[n]];
    } else {
      RunNothing(decision, reason);
    }
  }

  lemma WarnsOfUnknown(act: Action, decision: Decision, reason: Reason, o: Overrides, name: string)
    ensures
      var after := StepAction(act, decision, reason, o).warnings;
      && ("UNKNOWN_ACTION:" + name in after <==> "UNKNOWN_ACTION:" + name in o.warnings || act == UnknownAction(name))
      && ("RULES_ENGINE_ERROR" in after <==> "RULES_ENGINE_ERROR" in o.warnings)
  {
    hide StepAction;
    var unknown := "UNKNOWN_ACTION:" + name;
    assert unknown[0] == 'U' && unknown[15..] == name;
    StepWarns(act, decision, reason, o);
    if act.UnknownAction? {
      assert ("UNKNOWN_ACTION:" + act.name)[0] == 'U' && ("UNKNOWN_ACTION:" + act.name)[15..] == act.name;
    }
  }

  lemma StepWarns(act: Action, decision: Decision, reason: Reason, o: Overrides)
    ensures
      var after := StepAction(act, decision, reason, o).warnings;
      if act.UnknownAction? then after == o.warnings + ["UNKNOWN_ACTION:" + act.name]
      else after == o.warnings || after == o.warnings + ["RULE_SOFTEN_BLOCKED"]
  {
  }

  lemma RaisingIsReported(book: RuleBook, ctx: Context, now: int, decision: Decision, reason: Reason)
    ensures
      var o := ApplyRules(book, ctx, now, decision, reason);
      && ("RULES_ENGINE_ERROR" in o.warnings <==> book.RulesError?)
      && (book.RulesError? ==> o.decision.None? && o.reason.None? && o.message.None? && o.flags == {})
  {
    if book.Rules? {
      var k := FirstApplying(book, ctx, now);
      if k < |book.rules| { UnknownIsReported(book.rules[k].actions, decision, reason, ""); }
    }
  }

  /** The final reason: the review lock gives its own exactly when it turns an admission into a referral, a rule gives its
      own exactly when it overrides, and otherwise decision and reason are the service's. */
  lemma ReasonTells(book: RuleBook, ctx: Context, now: int, decision: Decision, reason: Reason, needsReview: bool)
    requires BasePair(decision, reason)
    ensures
      var (d, why) := FinalDecision(book, ctx, now, decision, reason, needsReview);
      var (open, because) := FinalDecision(book, ctx, now, decision, reason, false);
      && (why == EnvelopeReviewRequired <==> needsReview && (open == Allow || open == AllowWithWarning))
      && (why == EnvelopeReviewRequired ==> d == RequireOperatorApproval)
      && (why != EnvelopeReviewRequired ==> (d, why) == (open, because))
      && (because.RuleReason? <==> ApplyRules(book, ctx, now, decision, reason).decision.Some?)
      && (!because.RuleReason? ==> (open, because) == (decision, reason))
  {
    if book.Rules? {
      var k := FirstApplying(book, ctx, now);
      if k < |book.rules| { ReasonComesAlong(book.rules[k].actions, decision, reason); }
    }
  }
}
