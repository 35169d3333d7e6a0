/**
 * The start-up check of TwitterInitialization: decide whether the stream rule
 * `to:BBC` is missing from the fetched listing and, if so, build the create
 * request that is then posted.
 */
module RuleCheck {
  import opened Wrappers
  import opened TwitterApi

  /** The one rule the application needs. */
  const QueryString: string := "to:BBC"

  /** What the check asks the HTTP client to do: nothing, or post a create request with this `add` list. */
  datatype Decision = NoAction | Create(additions: seq<CreateRule>)

  /** `queryString::equals` applied to a rule value: a null value never matches, and case counts. */
  predicate Matches(value: Option<string>, desired: string)
  {
    value == Some(desired)
  }

  /** `noneMatch` over a stream of rule values, walked front to back. */
  function NoneMatch(values: seq<Option<string>>, desired: string): (r: bool)
    ensures r <==> forall i :: 0 <= i < |values| ==> !Matches(values[i], desired)
  {
    if values == [] then true
    else if Matches(values[0], desired) then false
    else NoneMatch(values[1..], desired)
  }

  /** True when the listing shows at least one rule whose value is exactly `desired`. */
  ghost predicate Listed(rules: Option<Option<seq<Option<string>>>>, desired: string)
  {
    rules.Some? && rules.value.Some? &&
    exists i :: 0 <= i < |rules.value.value| && Matches(rules.value.value[i], desired)
  }

  /** The single-entry `add` list that creates `desired`. */
  function Additions(desired: string): (add: seq<CreateRule>)
    ensures |add| == 1 && add[0].value == desired
  {
    [CreateRule(desired)]
  }

  /**
   * The decision over the rule values of the listing. The outer option is the
   * nullable response body, the inner one its nullable `data` list. A missing
   * body or list counts as "rule missing" (fail open).
   */
  function Evaluate(rules: Option<Option<seq<Option<string>>>>, desired: string): (d: Decision)
    ensures d.NoAction? <==> Listed(rules, desired)
    ensures d.Create? ==> |d.additions| == 1 && d.additions[0].value == desired
  {
    var ruleDoesNotExist :=
      match rules
      case None => true
      case Some(data) =>
        match data
        case None => true
        case Some(values) => NoneMatch(values, desired);
    if ruleDoesNotExist then Create(Additions(desired)) else NoAction
  }

  // ---------------------------------------------------------------------------
  // The check over whole rule objects, as `onApplicationEvent` runs it.
  // ---------------------------------------------------------------------------

  /**
   * What `onApplicationEvent` ends with: a decision, or the NullPointerException
   * that `TwitterApiSearchRule::getValue` throws on a null element of `data`.
   */
  datatype Outcome = Decided(decision: Decision) | NullRuleElement

  /** A rule element the stream passes over: present, and its value does not match. */
  predicate PassesOver(rule: Option<SearchRule>, desired: string)
  {
    rule.Some? && !Matches(rule.value.value, desired)
  }

  /** A rule element at which `noneMatch` stops with `false`. */
  predicate Hit(rule: Option<SearchRule>, desired: string)
  {
    rule.Some? && Matches(rule.value.value, desired)
  }

  /** Every element of `data` is one the stream passes over. */
  ghost predicate AllPass(data: seq<Option<SearchRule>>, desired: string)
  {
    forall i :: 0 <= i < |data| ==> PassesOver(data[i], desired)
  }

  /** The walk reaches element `i`: every element before it is passed over. */
  ghost predicate Reaches(data: seq<Option<SearchRule>>, i: int, desired: string)
  {
    0 <= i < |data| && forall j :: 0 <= j < i ==> PassesOver(data[j], desired)
  }

  /**
   * The lazy stream `data.stream().map(getValue).noneMatch(queryString::equals)`:
   * elements are mapped one at a time and the walk stops at the first match, so
   * a null element throws only when no match comes before it. `None` is the
   * exception; `Some(b)` is the value `noneMatch` returns.
   */
  function NoneMatchRules(data: seq<Option<SearchRule>>, desired: string): (r: Option<bool>)
    ensures r == Some(true) <==> AllPass(data, desired)
    ensures r == Some(false) <==> exists i :: Reaches(data, i, desired) && Hit(data[i], desired)
    ensures r == None <==> exists i :: Reaches(data, i, desired) && data[i].None?
  {
    if data == [] then Some(true)
    else if data[0].None? then
      assert Reaches(data, 0, desired);
      None
    else if Matches(data[0].value.value, desired) then
      assert Reaches(data, 0, desired);
      Some(false)
    else
      var r := NoneMatchRules(data[1..], desired);
      ShiftReach(data, desired);
      r
  }

  /** When the head is passed over, the walk over `data` is the walk over its tail, one index later. */
  lemma ShiftReach(data: seq<Option<SearchRule>>, desired: string)
    requires |data| > 0 && PassesOver(data[0], desired)
    ensures AllPass(data, desired) <==> AllPass(data[1..], desired)
    ensures forall i :: Reaches(data[1..], i, desired) <==> 0 <= i && Reaches(data, i + 1, desired)
  {
    var tail := data[1..];
    forall i ensures Reaches(tail, i, desired) <==> 0 <= i && Reaches(data, i + 1, desired) {
      if 0 <= i && Reaches(data, i + 1, desired) {
        forall j | 0 <= j < i ensures PassesOver(tail[j], desired) {
          assert tail[j] == data[j + 1];
        }
      }
      if Reaches(tail, i, desired) {
        forall j | 0 <= j < i + 1 ensures PassesOver(data[j], desired) {
          if j > 0 { assert data[j] == tail[j - 1]; }
        }
      }
    }
    if AllPass(tail, desired) {
      forall j | 0 <= j < |data| ensures PassesOver(data[j], desired) {
        if j > 0 { assert data[j] == tail[j - 1]; }
      }
    }
  }

  /**
   * `onApplicationEvent` after the GET: the `ruleDoesNotExist` check on the
   * fetched body, then the singleton create request when the rule is missing.
   */
  function OnRulesFetched(rules: Option<SearchResult>): (o: Outcome)
    ensures o == NullRuleElement <==>
      rules.Some? && rules.value.data.Some? && NoneMatchRules(rules.value.data.value, QueryString).None?
    ensures o == Decided(NoAction) <==>
      rules.Some? && rules.value.data.Some? &&
      exists i :: Reaches(rules.value.data.value, i, QueryString) && Hit(rules.value.data.value[i], QueryString)
    ensures o == Decided(Create([CreateRule(QueryString)])) <==>
      rules.None? || rules.value.data.None? || AllPass(rules.value.data.value, QueryString)
    ensures o.Decided? && o.decision.Create? ==> o.decision.additions == [CreateRule(QueryString)]
  {
    match rules
    case None => Decided(Create(Additions(QueryString)))
    case Some(result) =>
      match result.data
      case None => Decided(Create(Additions(QueryString)))
      case Some(data) =>
        match NoneMatchRules(data, QueryString)
        case None => NullRuleElement
        case Some(ruleDoesNotExist) =>
          Decided(if ruleDoesNotExist then Create(Additions(QueryString)) else NoAction)
  }
}
