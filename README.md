# policy-viz: the notScope exclusion check

The Azure Policy Explorer lists the policy assignments of a selected
subscription. Before rendering an assignment it asks whether the subscription
falls under one of the assignment's excluded scopes ("notScopes"), and if so
it hides the assignment. This project models that decision and proves what it
does.

- `Substring.dfy`: Python's `p in s` on strings. `IsSubstring` is its meaning:
  some window of `s` equals `p`. `Contains` is the left-to-right search, proved
  equal to it. The empty pattern is contained in every string.
- `NotScope.dfy`: `is_subscription_in_notscope`. `IsSubscriptionInNotScope`
  walks the notScopes in order, as the two nested loops of the source do. For
  each entry it tests the subscription id first, then every management-group id
  (`AnyGroupIn`), and stops at the first hit. `CheckNotScopes` is the same
  check written as the nested `for` loops with early return. Both are proved
  equal to `Excluded`: some entry contains the subscription id or the id of
  some group in the list. The lemmas give the consequences: an empty list
  never excludes; a group match excludes even when the subscription id matches
  nothing; the order of entries and groups does not matter; adding entries or
  groups only turns false into true. Concrete examples show the permissive
  substring semantics.
- `PolicyFilter.dfy`: the skip test in the display loop of `main`.
  `RenderedPolicies` is the list of assignments that are shown. The lemmas
  prove that the result is a subsequence of the fetched list, that a policy is
  shown exactly when it is not skipped, that rendering splits over
  concatenation, and that each shown policy keeps its multiplicity.

The check compares against every management group of the tenant, not the
subscription's ancestors, and it does not parse resource paths. The model
keeps both choices. `ScenarioUnanchoredMatch` shows one consequence: a
notScope for subscription `sub-12` also hides the assignment from `sub-1`.

## Model

| member | source | states |
|---|---|---|
| Substring.Contains | app.py:49 | Python's `in` on two strings is true iff some window of the text equals the pattern (case-sensitive, unanchored) |
| Substring.EmptyIsSubstring | app.py:52 | the empty string is contained in every string, the empty string included |
| NotScope.AnyGroupIn | app.py:51-53 | the inner loop returns true iff the id of some group in the list occurs in the notScope entry |
| NotScope.IsSubscriptionInNotScope | app.py:46-54 | true iff some notScope entry contains the subscription id or the id of some management group in the list |
| NotScope.CheckNotScopes | app.py:46-54 | the nested loops with early return give exactly that characterisation, and agree with the recursive form |
| NotScope.EmptyNotScopesNeverExclude | app.py:48-54 | an empty notScopes list gives false whatever the subscription and groups |
| NotScope.SubscriptionMatchExcludes | app.py:48-50 | an entry containing the subscription id gives true whatever the group list |
| NotScope.GroupMatchExcludes | app.py:51-53 | an entry containing any listed group's id gives true, even if the subscription id matches no entry |
| NotScope.NoGroupsOnlySubscriptionExcludes | app.py:48-54 | with no management groups the result is true iff the subscription id occurs in some entry |
| NotScope.EmptySubscriptionIdExcludesAll | app.py:48-50 | an empty subscription id is excluded by every non-empty notScopes list |
| NotScope.EmptyGroupIdExcludesAll | app.py:51-53 | a listed group with an empty id makes every non-empty notScopes list exclude |
| NotScope.ExcludedFromSameEntries | app.py:48 | exclusion holds again for any list that contains every entry of the first |
| NotScope.GroupsOrderIrrelevant | app.py:51 | permuting the management-group list never changes the result |
| NotScope.NotScopesOrderIrrelevant | app.py:48 | permuting the notScope entries never changes the result |
| NotScope.AppendNotScopes | app.py:48-53 | the check on two concatenated notScope lists is the disjunction of the checks on each |
| NotScope.AppendGroups | app.py:51-53 | the check on two concatenated group lists is the disjunction of the checks on each |
| NotScope.ExclusionMonotone | app.py:48-53 | appending notScope entries or groups can change the result only from false to true |
| NotScope.NotScopeNamingSubscriptionExcludes | app.py:49-50 | an entry that is exactly the subscription id excludes it, whatever the groups |
| NotScope.ScenarioNoNotScopes | app.py:48-54 | "sub-123" with no notScopes is not excluded |
| NotScope.ScenarioSubscriptionPath | app.py:49-50 | "sub-123" is excluded by "/subscriptions/sub-123/resourceGroups/rg1" |
| NotScope.ScenarioGroupPath | app.py:51-53 | group "mg-finance" makes "/providers/Microsoft.Management/managementGroups/mg-finance" exclude "sub-123" |
| NotScope.ScenarioUnrelatedGroupPath | app.py:48-54 | with only group "mg-finance" listed, "/providers/Microsoft.Management/managementGroups/mg-hr" does not exclude "sub-123": the path contains neither id |
| NotScope.ScenarioUnanchoredMatch | app.py:49 | matching is not anchored: a notScope for "sub-12" excludes "sub-1" |
| PolicyFilter.Skipped | app.py:107 | the display guard: skipped only when `not_scopes` is present and non-empty, because None and `[]` are falsy and short-circuit the `and`; `SkippedIffExcluded` links it to `Excluded` |
| PolicyFilter.RenderedPolicies | app.py:105-110 | a policy is shown iff it was fetched and is not skipped; never more policies than were fetched |
| PolicyFilter.SkippedIffExcluded | app.py:107 | a policy is skipped iff its notScopes are present and the check excludes; the emptiness test only guards against an absent list |
| PolicyFilter.RenderedIsSubsequence | app.py:105-110 | the shown policies are a subsequence of the fetched ones, in fetch order |
| PolicyFilter.RenderedAppend | app.py:106-108 | each policy is decided on its own: rendering two lists in a row is rendering each |
| PolicyFilter.RenderedCount | app.py:106-110 | a policy that is not skipped is shown as many times as it was fetched; a skipped one never |
| PolicyFilter.NoNotScopesAlwaysRendered | app.py:107 | a policy with absent or empty notScopes is always shown |

## Left out

- `initialize_azure` (app.py:9-19): credential and client construction through the Azure SDK and an ambient login; foreign code.
- `get_subscriptions`, `get_policy_assignments`, `get_management_groups` (app.py:21-44): network calls through the Azure SDK that turn exceptions into empty lists and error messages. The model takes their results as parameters.
- `display_parameters` (app.py:56-74): presentation only.
- The rest of `main` (app.py:76-126): titles, spinners, the subscription selectbox, expanders and all output. Only the keep/skip decision of lines 105-108 is modelled; "rendered" means that the expander for the policy is drawn.
- Management groups carry only their `id`, the one field the check reads. Of a policy assignment the decision reads only `not_scopes`, which is optional because the provider may return no list. Its `name` is kept, though only the display reads it, so that different assignments are different values in `RenderedPolicies` and `RenderedCount`.
- No management-group hierarchy and no equality-keyed group index are modelled: the source tests substring containment against every group in the list.
- Idempotence of the check (two calls with the same inputs agree) holds for every Dafny function by construction and is not stated as a lemma.
