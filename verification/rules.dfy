/** The classification-rule matcher `checkClassificationRules`
    (gateway_contact_lists_logic.js, lines 165-190). */
module Rules {
  import opened Wrappers
  import opened Features
  import opened Selection

  /** A row of the static rule table. `precision` is the rule's
      `precision_cat_pct`; `relevance` is an optional relevance score. */
  datatype Rule = Rule(
    ruleId: string,
    feature: string,
    keyValue: string,
    targetCategory: string,
    recommendedAction: Option<string>,
    priority: int,
    precision: Option<int>,
    support: Option<int>,
    relevance: Option<int>)

  /** The match record the matcher builds from a rule. It has no
      relevance field: the rule's relevance is not copied. */
  datatype RuleMatch = RuleMatch(
    ruleId: string,
    feature: string,
    keyValue: string,
    targetCategory: string,
    recommendedAction: string,
    priority: int,
    precision: Option<int>,
    support: Option<int>)

  /** The named feature is present, truthy (non-empty) and exactly equal to
      the rule's value. */
  predicate RuleMatches(f: FeatureMap, r: Rule): (b: bool)
    ensures b <==> r.keyValue != "" && exists n: FeatureName :: KeyOf(n) == r.feature && Get(f, n) == Some(r.keyValue)
  {
    var v := Lookup(f, r.feature);
    v.Some? && v.value != "" && v.value == r.keyValue
  }

  /** The record pushed for a matching rule; a missing or empty
      recommended action becomes "review". */
  function ToMatch(r: Rule): (m: RuleMatch)
    ensures m.recommendedAction != ""
    ensures m.recommendedAction == "review" || r.recommendedAction == Some(m.recommendedAction)
    ensures r.recommendedAction.Some? && r.recommendedAction.value != "" ==>
              m.recommendedAction == r.recommendedAction.value
    ensures m.priority == r.priority && m.precision == r.precision
    ensures m.ruleId == r.ruleId && m.feature == r.feature && m.keyValue == r.keyValue
    ensures m.targetCategory == r.targetCategory && m.support == r.support
  {
    var action := if r.recommendedAction.None? || r.recommendedAction.value == "" then "review"
                  else r.recommendedAction.value;
    RuleMatch(r.ruleId, r.feature, r.keyValue, r.targetCategory, action, r.priority, r.precision, r.support)
  }

  function RulePred(f: FeatureMap): Rule -> bool {
    (r: Rule) => RuleMatches(f, r)
  }

  function RulePriority(r: Rule): int {
    r.priority
  }

  function MatchPriority(m: RuleMatch): int {
    m.priority
  }

  /** Rule i is the one the matcher returns. */
  predicate Wins(f: FeatureMap, rules: seq<Rule>, i: nat) {
    && i < |rules| && RuleMatches(f, rules[i])
    && (forall j | 0 <= j < |rules| && RuleMatches(f, rules[j]) :: rules[i].priority <= rules[j].priority)
    && (forall j | 0 <= j < i && RuleMatches(f, rules[j]) :: rules[i].priority < rules[j].priority)
  }

  lemma WinsIsFirstMin(f: FeatureMap, rules: seq<Rule>, i: nat)
    ensures Wins(f, rules, i) <==> IsFirstMin(rules, RulePred(f), RulePriority, i)
  {
    assert forall r :: RulePred(f)(r) == RuleMatches(f, r);
  }

  /** `checkClassificationRules`. */
  function CheckClassificationRules(f: FeatureMap, rules: seq<Rule>): (r: Option<RuleMatch>)
    ensures r.None? <==> forall i | 0 <= i < |rules| :: !RuleMatches(f, rules[i])
    ensures r.Some? ==> exists i | 0 <= i < |rules| :: r.value == ToMatch(rules[i]) && Wins(f, rules, i)
    ensures r.Some? ==> r.value.keyValue != "" && Lookup(f, r.value.feature) == Some(r.value.keyValue)
  {
    var ok := RulePred(f);
    assert forall r :: ok(r) == RuleMatches(f, r);
    var w := FirstMin(rules, ok, RulePriority);
    if w.Some? then
      WinsIsFirstMin(f, rules, w.value);
      Some(ToMatch(rules[w.value]))
    else None
  }

  /** The one-pass selection returns what the gateway's code returns: the
      head of the match records after a stable sort by priority. */
  lemma CheckClassificationRulesIsSortHead(f: FeatureMap, rules: seq<Rule>)
    ensures var sorted := SortByKey(MapSeq(Filter(rules, RulePred(f)), ToMatch), MatchPriority);
            CheckClassificationRules(f, rules) == if sorted == [] then None else Some(sorted[0])
  {
    var matched := Filter(rules, RulePred(f));
    FirstMinIsSortHead(rules, RulePred(f), RulePriority);
    assert forall r :: MatchPriority(ToMatch(r)) == RulePriority(r);
    SortMapCommute(matched, ToMatch, RulePriority, MatchPriority);
    SortByKeyEmpty(matched, RulePriority);
  }

  /** A rule naming no feature, or an empty value, never matches. */
  lemma UnmatchableRules(f: FeatureMap, r: Rule)
    ensures (forall n: FeatureName :: KeyOf(n) != r.feature) ==> !RuleMatches(f, r)
    ensures r.keyValue == "" ==> !RuleMatches(f, r)
  {
  }
}
