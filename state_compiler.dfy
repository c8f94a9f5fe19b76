/**
 * The state-propagation compiler of code.js (applyInteractionToInstances,
 * code.js:438-549): from the primary `"prop=value"` action, the conditional
 * rules, each instance's current value and each instance's original state,
 * the list of variable assignments that clicking instance `i` performs:
 * its own variable first, then every sibling's, in group order.
 */
module StateCompiler {
  import opened Wrappers
  import opened Strings
  import opened Storage

  const RESET_TO_INITIAL := "RESET_TO_INITIAL"

  /**
   * `const [a, b] = s.split('=')`: `a` is the text before the first `=`
   * (all of `s` when it has none); `b` the text after it up to the next
   * `=`, undefined when `s` has no `=`.
   */
  datatype Split = Split(prop: string, value: Option<string>)

  function SplitPair(s: string): (r: Split)
    ensures '=' !in r.prop
    ensures r.value.Some? <==> '=' in s
    ensures r.value.None? ==> r.prop == s
    ensures r.value.Some? ==> '=' !in r.value.value && StartsWith(s, r.prop + "=" + r.value.value)
  {
    var i := IndexOf(s, '=');
    if i == |s| then Split(s, None)
    else
      var rest := s[i + 1..];
      var v := rest[..IndexOf(rest, '=')];
      assert s[..i + 1 + |v|] == s[..i] + "=" + v;
      Split(s[..i], Some(v))
  }

  /** The first `c` of `s` is at `i` (or `s` has none and `i == |s|`). */
  lemma IndexOfAt(s: string, c: char, i: nat)
    requires i <= |s| && (i < |s| ==> s[i] == c)
    requires forall k :: 0 <= k < i ==> s[k] != c
    ensures IndexOf(s, c) == i
  {
  }

  /** Joining a property and a value with `=` and splitting again gives them back. */
  lemma SplitPairRoundTrip(prop: string, value: string, tail: string)
    requires '=' !in prop && '=' !in value
    ensures SplitPair(prop + "=" + value) == Split(prop, Some(value))
    ensures SplitPair(prop + "=" + value + "=" + tail) == Split(prop, Some(value))
  {
    var s := prop + "=" + value;
    IndexOfAt(s, '=', |prop|);
    assert s[..|prop|] == prop && s[|prop| + 1..] == value;
    IndexOfAt(value, '=', |value|);
    assert value[..|value|] == value;
    var t := prop + "=" + value + "=" + tail;
    assert t == prop + "=" + (value + "=" + tail);
    IndexOfAt(t, '=', |prop|);
    assert t[..|prop|] == prop && t[|prop| + 1..] == value + "=" + tail;
    IndexOfAt(value + "=" + tail, '=', |value|);
    assert (value + "=" + tail)[..|value|] == value;
  }

  /** `String(x)` of a split part: `'undefined'` for a missing value. */
  function Show(v: Option<string>): string
  {
    if v.Some? then v.value else "undefined"
  }

  // ---------------------------------------------------------------------
  // The rule lookup (code.js:478-492)
  // ---------------------------------------------------------------------

  /** A rule the loop does not skip: it has a condition, an action, and `=` in the condition. */
  predicate WellFormed(rule: ConditionalRule)
  {
    rule.condition != "" && rule.action != "" && '=' in rule.condition
  }

  function ConditionValue(rule: ConditionalRule): string
    requires WellFormed(rule)
  {
    SplitPair(rule.condition).value.value
  }

  /** A rule that enters the lookup: well formed, on the primary property (ignoring case). */
  predicate Applies(rule: ConditionalRule, primaryProp: string)
  {
    WellFormed(rule) && SameIgnoringCase(SplitPair(rule.condition).prop, primaryProp)
  }

  /** The lookup from a condition value to its action text, and the main reset value. */
  datatype RuleTable = RuleTable(byValue: map<string, string>, mainReset: Option<string>)

  const EmptyTable := RuleTable(map[], None)

  /** One iteration of the rule loop. */
  function AddRule(t: RuleTable, rule: ConditionalRule, primaryProp: string, primaryValue: Option<string>): RuleTable
  {
    if !Applies(rule, primaryProp) then t
    else
      var cv := ConditionValue(rule);
      RuleTable(t.byValue[cv := rule.action],
                if primaryValue == Some(cv) then Some(rule.action) else t.mainReset)
  }

  /** The rule loop run over `rules`, starting from `t`. */
  function Fold(t: RuleTable, rules: seq<ConditionalRule>, primaryProp: string, primaryValue: Option<string>): RuleTable
  {
    if rules == [] then t
    else AddRule(Fold(t, rules[..|rules| - 1], primaryProp, primaryValue), rules[|rules| - 1], primaryProp, primaryValue)
  }

  function TableOf(rules: seq<ConditionalRule>, primaryProp: string, primaryValue: Option<string>): RuleTable
  {
    Fold(EmptyTable, rules, primaryProp, primaryValue)
  }

  lemma {:induction false} FoldAppend(t: RuleTable, a: seq<ConditionalRule>, b: seq<ConditionalRule>,
                                      primaryProp: string, primaryValue: Option<string>)
    ensures Fold(t, a + b, primaryProp, primaryValue) == Fold(Fold(t, a, primaryProp, primaryValue), b, primaryProp, primaryValue)
  {
    if b == [] {
      assert a + b == a;
    } else {
      assert (a + b)[..|a + b| - 1] == a + b[..|b| - 1];
      assert (a + b)[|a + b| - 1] == b[|b| - 1];
      FoldAppend(t, a, b[..|b| - 1], primaryProp, primaryValue);
    }
  }

  /** A rule that does not apply leaves the lookup as it was. */
  lemma {:induction false} DeletingRuleThatDoesNotApply(rules: seq<ConditionalRule>, k: nat,
                                                          primaryProp: string, primaryValue: Option<string>)
    requires k < |rules| && !Applies(rules[k], primaryProp)
    ensures TableOf(rules[..k] + rules[k + 1..], primaryProp, primaryValue) == TableOf(rules, primaryProp, primaryValue)
  {
    assert rules == rules[..k] + [rules[k]] + rules[k + 1..];
    FoldAppend(EmptyTable, rules[..k] + [rules[k]], rules[k + 1..], primaryProp, primaryValue);
    FoldAppend(EmptyTable, rules[..k], rules[k + 1..], primaryProp, primaryValue);
    assert (rules[..k] + [rules[k]])[..k] == rules[..k];
  }

  /** Some rule applies and has this condition value. */
  predicate HasRuleFor(rules: seq<ConditionalRule>, primaryProp: string, v: string)
  {
    exists k :: 0 <= k < |rules| && Applies(rules[k], primaryProp) && ConditionValue(rules[k]) == v
  }

  /** Rule `l` is the last one that applies with condition value `v`. */
  predicate LastRuleFor(rules: seq<ConditionalRule>, primaryProp: string, v: string, l: int)
  {
    && 0 <= l < |rules| && Applies(rules[l], primaryProp) && ConditionValue(rules[l]) == v
    && forall m :: l < m < |rules| ==> !(Applies(rules[m], primaryProp) && ConditionValue(rules[m]) == v)
  }

  /** A condition value has an entry in the lookup exactly when some applicable rule has it. */
  lemma {:induction false} TableHasEntry(rules: seq<ConditionalRule>, primaryProp: string, primaryValue: Option<string>, v: string)
    ensures v in TableOf(rules, primaryProp, primaryValue).byValue <==> HasRuleFor(rules, primaryProp, v)
  {
    if rules != [] {
      var init, r := rules[..|rules| - 1], rules[|rules| - 1];
      TableHasEntry(init, primaryProp, primaryValue, v);
      if !(Applies(r, primaryProp) && ConditionValue(r) == v) {
        if HasRuleFor(rules, primaryProp, v) {
          var k :| 0 <= k < |rules| && Applies(rules[k], primaryProp) && ConditionValue(rules[k]) == v;
          assert init[k] == rules[k];
        }
        if HasRuleFor(init, primaryProp, v) {
          var k :| 0 <= k < |init| && Applies(init[k], primaryProp) && ConditionValue(init[k]) == v;
          assert rules[k] == init[k];
        }
      } else {
        assert Applies(rules[|rules| - 1], primaryProp) && ConditionValue(rules[|rules| - 1]) == v;
      }
    }
  }

  /**
   * The lookup, stated without the loop: the entry for a condition value is
   * the action of the last applicable rule with that value (a later rule
   * overwrites an earlier one).
   */
  lemma {:induction false} TableLastRuleWins(rules: seq<ConditionalRule>, primaryProp: string, primaryValue: Option<string>, v: string)
    requires v in TableOf(rules, primaryProp, primaryValue).byValue
    ensures exists l :: LastRuleFor(rules, primaryProp, v, l)
                        && TableOf(rules, primaryProp, primaryValue).byValue[v] == rules[l].action
  {
    var init, r := rules[..|rules| - 1], rules[|rules| - 1];
    var t := TableOf(init, primaryProp, primaryValue);
    var t' := TableOf(rules, primaryProp, primaryValue);
    assert t' == AddRule(t, r, primaryProp, primaryValue);
    if Applies(r, primaryProp) && ConditionValue(r) == v {
      assert t'.byValue[v] == r.action;
      assert LastRuleFor(rules, primaryProp, v, |rules| - 1);
    } else {
      assert v in t.byValue && t'.byValue[v] == t.byValue[v];
      TableLastRuleWins(init, primaryProp, primaryValue, v);
      var l :| LastRuleFor(init, primaryProp, v, l) && t.byValue[v] == init[l].action;
      LastRuleForExtends(rules, primaryProp, v, l);
    }
  }

  /** The last rule for `v` among all but the final rule stays last when the final rule is not for `v`. */
  lemma LastRuleForExtends(rules: seq<ConditionalRule>, primaryProp: string, v: string, l: int)
    requires rules != [] && LastRuleFor(rules[..|rules| - 1], primaryProp, v, l)
    requires !(Applies(rules[|rules| - 1], primaryProp) && ConditionValue(rules[|rules| - 1]) == v)
    ensures LastRuleFor(rules, primaryProp, v, l) && rules[l] == rules[..|rules| - 1][l]
  {
    var init := rules[..|rules| - 1];
    forall m | l < m < |rules|
      ensures !(Applies(rules[m], primaryProp) && ConditionValue(rules[m]) == v)
    {
      if m < |rules| - 1 {
        assert rules[m] == init[m];
      }
    }
  }

  /**
   * The main reset value is the lookup's entry for the primary value:
   * the action of the last applicable rule whose condition value equals it.
   */
  lemma {:induction false} MainResetIsPrimaryEntry(rules: seq<ConditionalRule>, primaryProp: string, primaryValue: Option<string>)
    ensures var t := TableOf(rules, primaryProp, primaryValue);
            t.mainReset == if primaryValue.Some? && primaryValue.value in t.byValue
                           then Some(t.byValue[primaryValue.value]) else None
  {
    if rules != [] {
      MainResetIsPrimaryEntry(rules[..|rules| - 1], primaryProp, primaryValue);
    }
  }

  /** Every action text in the lookup is the action of some rule. */
  lemma TableActionsFromRules(rules: seq<ConditionalRule>, primaryProp: string, primaryValue: Option<string>, v: string)
    requires v in TableOf(rules, primaryProp, primaryValue).byValue
    ensures exists k :: 0 <= k < |rules| && rules[k].action == TableOf(rules, primaryProp, primaryValue).byValue[v]
  {
    TableLastRuleWins(rules, primaryProp, primaryValue, v);
  }

  // ---------------------------------------------------------------------
  // Target of a sibling (code.js:504-539)
  // ---------------------------------------------------------------------

  /**
   * What an action text sets a sibling to: its original state for
   * RESET_TO_INITIAL, the value of a `prop=value` on the primary property
   * (ignoring case); None when it is neither (the rule does not apply).
   */
  function Resolve(action: string, primaryProp: string, original: string): Option<string>
  {
    if action == RESET_TO_INITIAL then Some(original)
    else if '=' in action then
      var a := SplitPair(action);
      if SameIgnoringCase(a.prop, primaryProp) then Some(a.value.value) else None
    else None
  }

  /** The specific rule for the sibling's current value, resolved. */
  function SpecificTarget(t: RuleTable, current: string, original: string, primaryProp: string): Option<string>
  {
    if current in t.byValue then Resolve(t.byValue[current], primaryProp, original) else None
  }

  /** The main reset value, resolved, when it is set and not empty. */
  function ResetTarget(t: RuleTable, original: string, primaryProp: string): Option<string>
  {
    if t.mainReset.Some? && t.mainReset.value != "" then Resolve(t.mainReset.value, primaryProp, original) else None
  }

  /** Precedence: the specific rule, else the main reset, else the original state. */
  function SiblingTarget(t: RuleTable, current: string, original: string, primaryProp: string): string
  {
    var specific := SpecificTarget(t, current, original, primaryProp);
    if specific.Some? then specific.value
    else
      var reset := ResetTarget(t, original, primaryProp);
      if reset.Some? then reset.value else original
  }

  /** A specific rule that resolves wins over the main reset and over the original state. */
  lemma SpecificRuleWins(t: RuleTable, current: string, original: string, primaryProp: string)
    requires current in t.byValue && Resolve(t.byValue[current], primaryProp, original).Some?
    ensures SiblingTarget(t, current, original, primaryProp) == Resolve(t.byValue[current], primaryProp, original).value
  {
  }

  /** A specific RESET_TO_INITIAL yields the original state, whatever the main reset says. */
  lemma SpecificResetYieldsOriginal(t: RuleTable, current: string, original: string, primaryProp: string)
    requires current in t.byValue && t.byValue[current] == RESET_TO_INITIAL
    ensures SiblingTarget(t, current, original, primaryProp) == original
  {
  }

  /**
   * A specific action without `=`, or naming another property, is passed
   * over: the sibling gets what it would get with no specific rule.
   */
  lemma UnresolvedSpecificFallsThrough(t: RuleTable, current: string, original: string, primaryProp: string)
    requires current in t.byValue && t.byValue[current] != RESET_TO_INITIAL
    requires '=' !in t.byValue[current] || !SameIgnoringCase(SplitPair(t.byValue[current]).prop, primaryProp)
    ensures SiblingTarget(t, current, original, primaryProp)
            == SiblingTarget(t.(byValue := t.byValue - {current}), current, original, primaryProp)
  {
  }

  /** With no specific rule that resolves, a main reset that resolves wins over the original state. */
  lemma MainResetWins(t: RuleTable, current: string, original: string, primaryProp: string)
    requires SpecificTarget(t, current, original, primaryProp).None?
    requires ResetTarget(t, original, primaryProp).Some?
    ensures SiblingTarget(t, current, original, primaryProp) == ResetTarget(t, original, primaryProp).value
  {
  }

  /**
   * The middle tier over the rules themselves: with no specific rule that
   * resolves, the sibling follows the rule listed for the primary's own
   * value, when that rule resolves.
   */
  lemma PrimaryRuleResetWins(rules: seq<ConditionalRule>, primaryProp: string, primaryValue: Option<string>,
                             current: string, original: string)
    requires SpecificTarget(TableOf(rules, primaryProp, primaryValue), current, original, primaryProp).None?
    requires primaryValue.Some? && primaryValue.value in TableOf(rules, primaryProp, primaryValue).byValue
    requires var action := TableOf(rules, primaryProp, primaryValue).byValue[primaryValue.value];
             action != "" && Resolve(action, primaryProp, original).Some?
    ensures var t := TableOf(rules, primaryProp, primaryValue);
            SiblingTarget(t, current, original, primaryProp)
            == Resolve(t.byValue[primaryValue.value], primaryProp, original).value
  {
    var t := TableOf(rules, primaryProp, primaryValue);
    MainResetIsPrimaryEntry(rules, primaryProp, primaryValue);
    MainResetWins(t, current, original, primaryProp);
  }

  /** With no specific rule and no usable main reset, the sibling returns to its original state. */
  lemma DefaultsToOriginal(t: RuleTable, current: string, original: string, primaryProp: string)
    requires current !in t.byValue
    requires ResetTarget(t, original, primaryProp).None?
    ensures SiblingTarget(t, current, original, primaryProp) == original
  {
  }

  /** Where a target comes from: the original state, or the value part of a rule's action. */
  lemma TargetProvenance(rules: seq<ConditionalRule>, primaryProp: string, primaryValue: Option<string>,
                         current: string, original: string)
    ensures var target := SiblingTarget(TableOf(rules, primaryProp, primaryValue), current, original, primaryProp);
            target == original
            || exists k :: 0 <= k < |rules| && '=' in rules[k].action && SplitPair(rules[k].action).value == Some(target)
  {
    var t := TableOf(rules, primaryProp, primaryValue);
    var target := SiblingTarget(t, current, original, primaryProp);
    if target != original {
      MainResetIsPrimaryEntry(rules, primaryProp, primaryValue);
      var action := if SpecificTarget(t, current, original, primaryProp).Some? then t.byValue[current]
                    else t.mainReset.value;
      assert action in t.byValue.Values;
      var v :| v in t.byValue && t.byValue[v] == action;
      TableActionsFromRules(rules, primaryProp, primaryValue, v);
    }
  }

  /** With no rule that applies, every sibling returns to its original state. */
  lemma NoApplicableRulesMeansOriginal(rules: seq<ConditionalRule>, primaryProp: string, primaryValue: Option<string>,
                                       current: string, original: string)
    requires forall k :: 0 <= k < |rules| ==> !Applies(rules[k], primaryProp)
    ensures SiblingTarget(TableOf(rules, primaryProp, primaryValue), current, original, primaryProp) == original
  {
    TableHasEntry(rules, primaryProp, primaryValue, current);
    MainResetIsPrimaryEntry(rules, primaryProp, primaryValue);
    if primaryValue.Some? {
      TableHasEntry(rules, primaryProp, primaryValue, primaryValue.value);
    }
  }

  // ---------------------------------------------------------------------
  // The reaction of a clicked instance (code.js:465-549)
  // ---------------------------------------------------------------------

  /** SET_VARIABLE on the variable of instance `instance` (its index in the group). */
  datatype Assignment = Assign(instance: nat, value: string)

  /** The sibling assignments for instances `0 .. n-1`, skipping the clicked one. */
  function Siblings(t: RuleTable, primaryProp: string, clicked: nat,
                    currents: seq<string>, originals: seq<string>, n: nat): seq<Assignment>
    requires n <= |currents| == |originals|
  {
    if n == 0 then []
    else Siblings(t, primaryProp, clicked, currents, originals, n - 1)
         + (if n - 1 == clicked then []
            else [Assign(n - 1, SiblingTarget(t, currents[n - 1], originals[n - 1], primaryProp))])
  }

  /** The assignments a click on instance `clicked` performs. */
  function Reaction(clicked: nat, primaryAction: string, rules: seq<ConditionalRule>,
                    currents: seq<string>, originals: seq<string>): seq<Assignment>
    requires clicked < |currents| == |originals|
  {
    var primary := SplitPair(primaryAction);
    var t := TableOf(rules, primary.prop, primary.value);
    [Assign(clicked, Show(primary.value))] + Siblings(t, primary.prop, clicked, currents, originals, |currents|)
  }

  /** The instance the k-th sibling assignment targets: indices in ascending order, skipping the clicked one. */
  function SiblingIndex(clicked: nat, k: nat): nat
  {
    if k < clicked then k else k + 1
  }

  lemma {:induction false} SiblingsShape(t: RuleTable, primaryProp: string, clicked: nat,
                                         currents: seq<string>, originals: seq<string>, n: nat)
    requires n <= |currents| == |originals|
    ensures var s := Siblings(t, primaryProp, clicked, currents, originals, n);
      && |s| == (if clicked < n then n - 1 else n)
      && forall k :: 0 <= k < |s| ==>
           && s[k].instance == SiblingIndex(clicked, k) < n
           && s[k].value == SiblingTarget(t, currents[s[k].instance], originals[s[k].instance], primaryProp)
  {
    if n > 0 {
      SiblingsShape(t, primaryProp, clicked, currents, originals, n - 1);
    }
  }

  /**
   * Shape of a reaction over N instances: N assignments, the clicked
   * instance's own first (to the primary value), then every other instance
   * once, in ascending index order, each to its sibling target.
   */
  lemma ReactionShape(clicked: nat, primaryAction: string, rules: seq<ConditionalRule>,
                      currents: seq<string>, originals: seq<string>)
    requires clicked < |currents| == |originals|
    ensures var r := Reaction(clicked, primaryAction, rules, currents, originals);
            var primary := SplitPair(primaryAction);
      && |r| == |currents|
      && r[0] == Assign(clicked, Show(primary.value))
      && forall k :: 1 <= k < |r| ==>
           && r[k].instance == SiblingIndex(clicked, k - 1) != clicked
           && r[k].instance < |currents|
           && r[k].value == SiblingTarget(TableOf(rules, primary.prop, primary.value),
                                          currents[r[k].instance], originals[r[k].instance], primary.prop)
  {
    var primary := SplitPair(primaryAction);
    SiblingsShape(TableOf(rules, primary.prop, primary.value), primary.prop, clicked, currents, originals, |currents|);
  }

  /** Where instance `j`'s assignment sits in a reaction to a click on `clicked`. */
  function Position(clicked: nat, j: nat): nat
  {
    if j == clicked then 0 else if j < clicked then j + 1 else j
  }

  /** Every instance of the group is assigned exactly once by a click, at `Position(clicked, j)`. */
  lemma ReactionCoversEachInstanceOnce(clicked: nat, primaryAction: string, rules: seq<ConditionalRule>,
                                       currents: seq<string>, originals: seq<string>, j: nat)
    requires clicked < |currents| == |originals| && j < |currents|
    ensures var r := Reaction(clicked, primaryAction, rules, currents, originals);
            && Position(clicked, j) < |r| && r[Position(clicked, j)].instance == j
            && forall m :: 0 <= m < |r| && r[m].instance == j ==> m == Position(clicked, j)
  {
    ReactionShape(clicked, primaryAction, rules, currents, originals);
    var r := Reaction(clicked, primaryAction, rules, currents, originals);
    forall m | 0 <= m < |r| && r[m].instance == j
      ensures m == Position(clicked, j)
    {
      if m > 0 {
        assert r[m].instance == SiblingIndex(clicked, m - 1);
      }
    }
  }

  /** Deleting a rule with no condition, no action or no `=` in its condition changes no assignment. */
  lemma DeletingMalformedRuleChangesNothing(clicked: nat, primaryAction: string, rules: seq<ConditionalRule>, k: nat,
                                            currents: seq<string>, originals: seq<string>)
    requires clicked < |currents| == |originals|
    requires k < |rules| && !WellFormed(rules[k])
    ensures Reaction(clicked, primaryAction, rules[..k] + rules[k + 1..], currents, originals)
            == Reaction(clicked, primaryAction, rules, currents, originals)
  {
    var primary := SplitPair(primaryAction);
    DeletingRuleThatDoesNotApply(rules, k, primary.prop, primary.value);
  }

  /**
   * Imperative form of code.js:465-549: the `actions` array, the `ruleMap`
   * and `mainResetValue`, and the `targetValue`/`ruleApplied` flags per sibling.
   * `currents[j]` is instance j's value of the property as read at this
   * point; `originals[j]` its captured original state.
   */
  method CompileReaction(clicked: nat, primaryAction: string, rules: seq<ConditionalRule>,
                         currents: seq<string>, originals: seq<string>) returns (actions: seq<Assignment>)
    requires clicked < |currents| == |originals|
    ensures actions == Reaction(clicked, primaryAction, rules, currents, originals)
  {
    var primary := SplitPair(primaryAction);
    var primaryProp, primaryValue := primary.prop, primary.value;
    actions := [Assign(clicked, Show(primaryValue))];
    var ruleMap: map<string, string> := map[];
    var mainResetValue: Option<string> := None;
    for r := 0 to |rules|
      invariant RuleTable(ruleMap, mainResetValue) == TableOf(rules[..r], primaryProp, primaryValue)
    {
      assert rules[..r + 1][..r] == rules[..r];
      var rule := rules[r];
      if rule.condition != "" && rule.action != "" && '=' in rule.condition {
        var condition := SplitPair(rule.condition);
        if SameIgnoringCase(condition.prop, primaryProp) {
          var conditionValue := condition.value.value;
          ruleMap := ruleMap[conditionValue := rule.action];
          if Some(conditionValue) == primaryValue {
            mainResetValue := Some(rule.action);
          }
        }
      }
    }
    assert rules[..|rules|] == rules;
    ghost var t := RuleTable(ruleMap, mainResetValue);
    for j := 0 to |currents|
      invariant actions == [Assign(clicked, Show(primaryValue))]
                           + Siblings(t, primaryProp, clicked, currents, originals, j)
    {
      if j != clicked {
        var currentInstanceValue := currents[j];
        var targetValue := originals[j];
        var ruleApplied := false;
        if currentInstanceValue in ruleMap {
          var ruleAction := ruleMap[currentInstanceValue];
          if ruleAction == RESET_TO_INITIAL {
            targetValue := originals[j];
            ruleApplied := true;
          } else if '=' in ruleAction {
            var a := SplitPair(ruleAction);
            if SameIgnoringCase(a.prop, primaryProp) {
              targetValue := a.value.value;
              ruleApplied := true;
            }
          }
        }
        assert ruleApplied == SpecificTarget(t, currentInstanceValue, originals[j], primaryProp).Some?;
        assert ruleApplied ==> targetValue == SpecificTarget(t, currentInstanceValue, originals[j], primaryProp).value;
        if !ruleApplied && mainResetValue.Some? && mainResetValue.value != "" {
          if mainResetValue.value == RESET_TO_INITIAL {
            targetValue := originals[j];
            ruleApplied := true;
          } else if '=' in mainResetValue.value {
            var a := SplitPair(mainResetValue.value);
            if SameIgnoringCase(a.prop, primaryProp) {
              targetValue := a.value.value;
              ruleApplied := true;
            }
          }
        }
        if !ruleApplied {
          targetValue := originals[j];
        }
        assert targetValue == SiblingTarget(t, currents[j], originals[j], primaryProp);
        actions := actions + [Assign(j, targetValue)];
      }
    }
  }

  // ---------------------------------------------------------------------
  // The worked example of the design notes
  // ---------------------------------------------------------------------

  /**
   * Three instances of one property; primary `prop=active`; one rule
   * `prop=hover -> RESET_TO_INITIAL`. Clicking the first sets it to
   * `active`; the second, currently `hover`, returns to its original
   * `dflt`; the third, currently `dflt`, has no specific rule, and there is
   * no main reset (no rule's condition is `active`), so it keeps `dflt`.
   */
  lemma WorkedExample(prop: string, active: string, hover: string, dflt: string)
    requires '=' !in prop && '=' !in active && '=' !in hover
    requires hover != active && hover != dflt
    ensures Reaction(0, prop + "=" + active, [ConditionalRule(1, prop + "=" + hover, RESET_TO_INITIAL, None)],
                     [dflt, hover, dflt], [dflt, dflt, dflt])
            == [Assign(0, active), Assign(1, dflt), Assign(2, dflt)]
  {
    SplitPairRoundTrip(prop, active, "");
    SplitPairRoundTrip(prop, hover, "");
    var rule := ConditionalRule(1, prop + "=" + hover, RESET_TO_INITIAL, None);
    assert (prop + "=" + hover)[|prop|] == '=';
    assert Applies(rule, prop) && ConditionValue(rule) == hover;
    assert [rule][..0] == [] && [rule][0] == rule;
    assert Fold(EmptyTable, [], prop, Some(active)) == EmptyTable;
    var t := TableOf([rule], prop, Some(active));
    assert t == AddRule(EmptyTable, rule, prop, Some(active));
    assert t == RuleTable(map[hover := RESET_TO_INITIAL], None);
    var currents, originals := [dflt, hover, dflt], [dflt, dflt, dflt];
    assert SiblingTarget(t, hover, dflt, prop) == dflt;
    assert SiblingTarget(t, dflt, dflt, prop) == dflt;
    assert Siblings(t, prop, 0, currents, originals, 1) == [];
    assert Siblings(t, prop, 0, currents, originals, 2) == [Assign(1, dflt)];
    assert Siblings(t, prop, 0, currents, originals, 3) == [Assign(1, dflt), Assign(2, dflt)];
  }
}
