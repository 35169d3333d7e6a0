# Start-up stream-rule check

At application start, `TwitterInitialization.onApplicationEvent` fetches the
filtered-stream rules of the Twitter API, decides whether the rule `to:BBC`
is missing, and if so posts a create request whose `add` list holds that one
rule. This project models that decision and the request it builds as pure
Dafny functions, and proves its properties.

- `wrappers.dfy`: `Option`, standing for a Java reference that may be null.
- `twitter_api.dfy`: the decoded payloads. A listed rule carries a
  server-assigned `id` and a `value`. The listing body carries a `data` list.
  The body, the list, each element and each field may be null. A create entry
  carries a `value`. The Java model classes are not part of this model. The
  check reads only a rule's `value`, the body's `data` list and a create
  entry's `value`. The `id` field of a listed rule is never read. It is
  included because the API's rule listing carries one, so that
  `IdsIrrelevant` and `ScenarioRuleListed` can state that ids do not matter.
- `rule_check.dfy`: the check at two levels.
  - `Evaluate` works on rule values only: `Option<Option<seq<Option<string>>>>`
    for the nullable body, its nullable `data` list and each nullable value.
  - `OnRulesFetched` works on whole rule objects, as the source does. A null
    element of `data` makes `TwitterApiSearchRule::getValue` throw a
    `NullPointerException`. The stream is lazy and `noneMatch` stops at the
    first match. So the exception is raised only when no match comes before
    the null element.
- `rule_check_properties.dfy`: lemmas relating the two levels and
  stating the properties of the check.

A `Decision` is `NoAction` or `Create(additions)`. `additions` is the `add`
list of the request body that would be posted. Dafny functions are
deterministic, so equal fetched inputs always give equal decisions and equal
requests. No separate lemma is needed for that.

The code takes no desired value: the query string is the `private static
final` constant `"to:BBC"` (`QueryString`), which `OnRulesFetched` uses.
`Evaluate` generalises that constant to a parameter `desired`. Like the code,
it validates nothing, so `""` is handled like any other value
(`EmptyValueNotRejected`); there is no "invalid input" rejection.

## Model

| member | source | states |
|---|---|---|
| `RuleCheck.NoneMatch` | kinesiscamelproducer/src/main/java/com/example/kinesiscamel/initialization/TwitterInitialization.java:63 | `noneMatch(queryString::equals)` over the values is true exactly when no value `Matches` the desired string, where `Matches` is `queryString::equals` on a nullable value: a null value never equals, and case counts |
| `RuleCheck.Additions` | kinesiscamelproducer/src/main/java/com/example/kinesiscamel/initialization/TwitterInitialization.java:70-75 | the `add` list holds exactly one rule, whose value is the desired string |
| `RuleCheck.Evaluate` | kinesiscamelproducer/src/main/java/com/example/kinesiscamel/initialization/TwitterInitialization.java:59-75 | no action exactly when the body and its `data` list are present and some value equals the desired string exactly; otherwise a create with a single entry carrying that string (fail open on a null body or list) |
| `RuleCheck.NoneMatchRules` | kinesiscamelproducer/src/main/java/com/example/kinesiscamel/initialization/TwitterInitialization.java:61-63 | the lazy stream over rule objects: true when every element is present and does not match; false when a match is reached before any null element; an exception exactly when a null element is reached before any match |
| `RuleCheck.ShiftReach` | kinesiscamelproducer/src/main/java/com/example/kinesiscamel/initialization/TwitterInitialization.java:62-63 | when the first element is passed over, the stream over the list reaches index i+1 exactly when the stream over its tail reaches index i |
| `RuleCheck.OnRulesFetched` | kinesiscamelproducer/src/main/java/com/example/kinesiscamel/initialization/TwitterInitialization.java:34-75 | with the constant `QueryString` = `"to:BBC"`: no action exactly when the body and `data` are present and a matching rule is reached before any null element; the create `[{value: "to:BBC"}]` exactly when the body or `data` is null or every element is present and does not match; the null-element exception exactly when the stream throws |
| `RuleCheckProperties.FailOpenOnNullBody` | kinesiscamelproducer/src/main/java/com/example/kinesiscamel/initialization/TwitterInitialization.java:60-64 | a null response body gives a create of the desired rule |
| `RuleCheckProperties.FailOpenOnNullData` | kinesiscamelproducer/src/main/java/com/example/kinesiscamel/initialization/TwitterInitialization.java:61-64 | a present body with a null `data` list gives a create, through `orElse(true)` |
| `RuleCheckProperties.EmptyListIsMissing` | kinesiscamelproducer/src/main/java/com/example/kinesiscamel/initialization/TwitterInitialization.java:62-64 | an empty rule list gives a create, because `noneMatch` over nothing is true |
| `RuleCheckProperties.ExistingRuleNotDuplicated` | kinesiscamelproducer/src/main/java/com/example/kinesiscamel/initialization/TwitterInitialization.java:63-66 | any listing holding a value equal to the desired string gives no action, so the rule is never created twice |
| `RuleCheckProperties.ExactMatchOnly` | kinesiscamelproducer/src/main/java/com/example/kinesiscamel/initialization/TwitterInitialization.java:34 | null values and differently cased or padded spellings of `to:BBC` do not count as a match |
| `RuleCheckProperties.OrderIrrelevant` | kinesiscamelproducer/src/main/java/com/example/kinesiscamel/initialization/TwitterInitialization.java:63 | two value lists with the same multiset give the same decision |
| `RuleCheckProperties.ListedTransfers` | kinesiscamelproducer/src/main/java/com/example/kinesiscamel/initialization/TwitterInitialization.java:63 | a matching value survives into any list whose multiset contains the first one |
| `RuleCheckProperties.ValuesOf` | kinesiscamelproducer/src/main/java/com/example/kinesiscamel/initialization/TwitterInitialization.java:63 | `map(TwitterApiSearchRule::getValue)` on a list without null elements keeps the length and takes each element's value |
| `RuleCheckProperties.Project` | kinesiscamelproducer/src/main/java/com/example/kinesiscamel/initialization/TwitterInitialization.java:60-63 | the `ofNullable(rules).map(getData)` layering down to values: a null body stays null, a null `data` list stays null, and a null-free list becomes its values, same length and element by element |
| `RuleCheckProperties.NoneMatchRulesOnValues` | kinesiscamelproducer/src/main/java/com/example/kinesiscamel/initialization/TwitterInitialization.java:62-63 | on a list without null elements the stream over rule objects returns `noneMatch` over their values |
| `RuleCheckProperties.AgreesWithEvaluate` | kinesiscamelproducer/src/main/java/com/example/kinesiscamel/initialization/TwitterInitialization.java:59-75 | without null elements, the check over rule objects equals the values-only decision on the projected listing |
| `RuleCheckProperties.NoneMatchRulesSameValues` | kinesiscamelproducer/src/main/java/com/example/kinesiscamel/initialization/TwitterInitialization.java:63 | the stream reads only where the nulls are and the rule values |
| `RuleCheckProperties.IdsIrrelevant` | kinesiscamelproducer/src/main/java/com/example/kinesiscamel/initialization/TwitterInitialization.java:63 | rule lists that differ only in ids give the same outcome |
| `RuleCheckProperties.NullElementOrderMatters` | kinesiscamelproducer/src/main/java/com/example/kinesiscamel/initialization/TwitterInitialization.java:62-63 | with a null element, a match before it gives no action, while the null element first throws |
| `RuleCheckProperties.ScenarioRuleListed` | kinesiscamelproducer/src/main/java/com/example/kinesiscamel/initialization/TwitterInitialization.java:59-66 | a listing holding `{id: "1", value: "to:BBC"}` gives no action |
| `RuleCheckProperties.EmptyValueNotRejected` | kinesiscamelproducer/src/main/java/com/example/kinesiscamel/initialization/TwitterInitialization.java:59-75 | an empty desired value is not rejected: it is treated like any other value |

## Left out

- HTTP transport: the GET and POST `RestTemplate.exchange` calls (lines 51-52 and 79-83) are library I/O. The fetched body is an input of the model. The request's `add` list is its output.
- The POST response (line 77) is assigned and never read.
- URI composition (lines 42-45): a library call over injected configuration, and the URL is never inspected.
- Configuration injection (lines 28-32, 36) and the Spring start-up trigger (line 26): framework plumbing.
- Logging (lines 40, 47, 57, 68).
- What happens after the null-element exception: it leaves `onApplicationEvent`, and the framework's handling of it is not modelled.
