/** Properties of the start-up rule check, stated over the model in RuleCheck. */
module RuleCheckProperties {
  import opened Wrappers
  import opened TwitterApi
  import opened RuleCheck

  /** A null response body counts as "rule missing": a create request is built. */
  lemma FailOpenOnNullBody(desired: string)
    ensures Evaluate(None, desired) == Create([CreateRule(desired)])
    ensures OnRulesFetched(None) == Decided(Create([CreateRule(QueryString)]))
  {
  }

  /** A body whose `data` list is null also counts as "rule missing", through `orElse(true)`. */
  lemma FailOpenOnNullData(desired: string)
    ensures Evaluate(Some(None), desired) == Create([CreateRule(desired)])
    ensures OnRulesFetched(Some(SearchResult(None))) == Decided(Create([CreateRule(QueryString)]))
  {
  }

  /** `noneMatch` over an empty list is true, so an empty listing counts as "rule missing". */
  lemma EmptyListIsMissing(desired: string)
    ensures Evaluate(Some(Some([])), desired) == Create([CreateRule(desired)])
    ensures OnRulesFetched(Some(SearchResult(Some([])))) == Decided(Create([CreateRule(QueryString)]))
  {
  }

  /** A listed rule whose value is exactly the desired one is never created again. */
  lemma ExistingRuleNotDuplicated(values: seq<Option<string>>, desired: string, i: int)
    requires 0 <= i < |values| && values[i] == Some(desired)
    ensures Evaluate(Some(Some(values)), desired) == NoAction
  {
    assert Matches(values[i], desired);
  }

  /** The match is exact and case-sensitive: null values and other spellings do not stop the create. */
  lemma ExactMatchOnly()
    ensures Evaluate(Some(Some([None, Some("to:bbc"), Some("TO:BBC"), Some("to:BBC ")])), QueryString)
         == Create([CreateRule(QueryString)])
  {
  }

  /** The decision depends only on the multiset of rule values, not on their order. */
  lemma OrderIrrelevant(a: seq<Option<string>>, b: seq<Option<string>>, desired: string)
    requires multiset(a) == multiset(b)
    ensures Evaluate(Some(Some(a)), desired) == Evaluate(Some(Some(b)), desired)
  {
    ListedTransfers(a, b, desired);
    ListedTransfers(b, a, desired);
  }

  /** A matching value of `a` is also a matching value of `b` when `b` holds every value of `a`. */
  lemma ListedTransfers(a: seq<Option<string>>, b: seq<Option<string>>, desired: string)
    requires multiset(a) <= multiset(b)
    ensures Listed(Some(Some(a)), desired) ==> Listed(Some(Some(b)), desired)
  {
    if Listed(Some(Some(a)), desired) {
      var i :| 0 <= i < |a| && Matches(a[i], desired);
      assert a[i] in multiset(a);
      assert a[i] in b;
      var j :| 0 <= j < |b| && b[j] == a[i];
      assert Matches(b[j], desired);
    }
  }

  /** No element of the `data` list is null. */
  predicate NullFree(data: seq<Option<SearchRule>>)
  {
    forall i :: 0 <= i < |data| ==> data[i].Some?
  }

  /** The values `TwitterApiSearchRule::getValue` maps a null-free list to. */
  function ValuesOf(data: seq<Option<SearchRule>>): (values: seq<Option<string>>)
    requires NullFree(data)
    ensures |values| == |data|
    ensures forall i :: 0 <= i < |data| ==> values[i] == data[i].value.value
  {
    if data == [] then [] else [data[0].value.value] + ValuesOf(data[1..])
  }

  /** The listing as the values-only decision sees it. */
  function Project(rules: Option<SearchResult>): (p: Option<Option<seq<Option<string>>>>)
    requires rules.Some? && rules.value.data.Some? ==> NullFree(rules.value.data.value)
    ensures p.None? <==> rules.None?
    ensures p.Some? ==> (p.value.None? <==> rules.value.data.None?)
    ensures p.Some? && p.value.Some? ==>
      |p.value.value| == |rules.value.data.value| &&
      forall i :: 0 <= i < |p.value.value| ==> p.value.value[i] == rules.value.data.value[i].value.value
  {
    match rules
    case None => None
    case Some(result) =>
      match result.data
      case None => Some(None)
      case Some(data) => Some(Some(ValuesOf(data)))
  }

  /** On a list without null elements the stream walk is `noneMatch` over the values. */
  lemma {:induction false} NoneMatchRulesOnValues(data: seq<Option<SearchRule>>, desired: string)
    requires NullFree(data)
    ensures NoneMatchRules(data, desired) == Some(NoneMatch(ValuesOf(data), desired))
  {
    if data != [] && !Matches(data[0].value.value, desired) {
      assert NullFree(data[1..]) by {
        forall i | 0 <= i < |data[1..]| ensures data[1..][i].Some? { assert data[1..][i] == data[i + 1]; }
      }
      NoneMatchRulesOnValues(data[1..], desired);
      assert ValuesOf(data)[1..] == ValuesOf(data[1..]);
    }
  }

  /** Without null elements, the check over rule objects and the values-only decision agree. */
  lemma AgreesWithEvaluate(rules: Option<SearchResult>)
    requires rules.Some? && rules.value.data.Some? ==> NullFree(rules.value.data.value)
    ensures OnRulesFetched(rules) == Decided(Evaluate(Project(rules), QueryString))
  {
    if rules.Some? && rules.value.data.Some? {
      NoneMatchRulesOnValues(rules.value.data.value, QueryString);
    }
  }

  /** Element by element, the two lists have nulls in the same places and the same rule values. */
  predicate SameValues(a: seq<Option<SearchRule>>, b: seq<Option<SearchRule>>)
  {
    |a| == |b| &&
    forall i :: 0 <= i < |a| ==>
      a[i].None? == b[i].None? && (a[i].Some? ==> a[i].value.value == b[i].value.value)
  }

  /** Rules that differ only in their ids give the same outcome. */
  lemma {:induction false} IdsIrrelevant(a: seq<Option<SearchRule>>, b: seq<Option<SearchRule>>)
    requires SameValues(a, b)
    ensures OnRulesFetched(Some(SearchResult(Some(a)))) == OnRulesFetched(Some(SearchResult(Some(b))))
  {
    NoneMatchRulesSameValues(a, b, QueryString);
  }

  /** The stream walk reads only nullness and values. */
  lemma {:induction false} NoneMatchRulesSameValues(a: seq<Option<SearchRule>>, b: seq<Option<SearchRule>>, desired: string)
    requires SameValues(a, b)
    ensures NoneMatchRules(a, desired) == NoneMatchRules(b, desired)
  {
    if a != [] && a[0].Some? && !Matches(a[0].value.value, desired) {
      assert SameValues(a[1..], b[1..]) by {
        forall i | 0 <= i < |a| - 1 ensures a[1..][i] == a[i + 1] && b[1..][i] == b[i + 1] { }
      }
      NoneMatchRulesSameValues(a[1..], b[1..], desired);
    }
  }

  /**
   * With a null element in `data`, order does matter: a match before the null
   * element ends the walk, while a null element first throws.
   */
  lemma NullElementOrderMatters()
    ensures OnRulesFetched(Some(SearchResult(Some([Some(SearchRule(None, Some(QueryString))), None]))))
         == Decided(NoAction)
    ensures OnRulesFetched(Some(SearchResult(Some([None, Some(SearchRule(None, Some(QueryString)))]))))
         == NullRuleElement
  {
  }

  /** A listing holding `{id: "1", value: "to:BBC"}` needs no action. */
  lemma ScenarioRuleListed()
    ensures OnRulesFetched(Some(SearchResult(Some([Some(SearchRule(Some("1"), Some("to:BBC")))]))))
         == Decided(NoAction)
  {
  }

  /** The code does not reject an empty desired value: it is created like any other. */
  lemma EmptyValueNotRejected()
    ensures Evaluate(None, "") == Create([CreateRule("")])
    ensures Evaluate(Some(Some([Some("to:BBC")])), "") == Create([CreateRule("")])
  {
  }
}
