/**
 * Which policy assignments the explorer shows for the selected subscription.
 * A policy is skipped exactly when its notScopes list is present and
 * non-empty and the exclusion check says the subscription is covered; every
 * other policy is shown, in the order it was fetched.
 */
module PolicyFilter {
  import opened NotScope

  datatype Option<T> = None | Some(value: T)

  /**
   * A fetched policy assignment. Only `notScopes` takes part in the decision;
   * it is absent when the provider returned no list at all.
   */
  datatype PolicyAssignment = PolicyAssignment(name: string, notScopes: Option<seq<string>>)

  /**
   * The guard of the display loop: notScopes present, non-empty, and covering
   * the subscription. An absent or empty list is falsy and short-circuits the
   * test, so the check is never consulted for it; `SkippedIffExcluded` ties
   * the guard to `Excluded`.
   */
  predicate Skipped(subscriptionId: string, policy: PolicyAssignment, groups: seq<ManagementGroup>)
    ensures Skipped(subscriptionId, policy, groups) ==> policy.notScopes.Some? && policy.notScopes.value != []
  {
    match policy.notScopes
    case None => false
    case Some(notScopes) => notScopes != [] && IsSubscriptionInNotScope(subscriptionId, notScopes, groups)
  }

  /** The policies the display loop renders, in fetch order. */
  function RenderedPolicies(subscriptionId: string, policies: seq<PolicyAssignment>,
                            groups: seq<ManagementGroup>): (r: seq<PolicyAssignment>)
    ensures |r| <= |policies|
    ensures forall p :: p in r <==> p in policies && !Skipped(subscriptionId, p, groups)
  {
    if policies == [] then []
    else
      var rest := RenderedPolicies(subscriptionId, policies[1..], groups);
      assert forall p :: p in policies <==> p == policies[0] || p in policies[1..];
      if Skipped(subscriptionId, policies[0], groups) then rest else [policies[0]] + rest
  }

  /** `sub` is `s` with some elements dropped and the rest kept in order. */
  predicate IsSubsequence<T(==)>(sub: seq<T>, s: seq<T>)
  {
    if sub == [] then true
    else if s == [] then false
    else if sub[0] == s[0] then IsSubsequence(sub[1..], s[1..])
    else IsSubsequence(sub, s[1..])
  }

  /**
   * The guard's emptiness test adds nothing once a list is present: the
   * check itself is false on an empty list. It only keeps an absent list
   * away from the check.
   */
  lemma SkippedIffExcluded(subscriptionId: string, policy: PolicyAssignment, groups: seq<ManagementGroup>)
    ensures Skipped(subscriptionId, policy, groups)
        <==> policy.notScopes.Some? && Excluded(subscriptionId, policy.notScopes.value, groups)
  {
    if policy.notScopes.Some? && policy.notScopes.value == [] {
      assert !Excluded(subscriptionId, [], groups);
    }
  }

  /** Rendering keeps the fetched order: the result is a subsequence of the input. */
  lemma {:induction false} RenderedIsSubsequence(subscriptionId: string, policies: seq<PolicyAssignment>,
                                                 groups: seq<ManagementGroup>)
    ensures IsSubsequence(RenderedPolicies(subscriptionId, policies, groups), policies)
  {
    if policies != [] {
      RenderedIsSubsequence(subscriptionId, policies[1..], groups);
      var rest := RenderedPolicies(subscriptionId, policies[1..], groups);
      if !Skipped(subscriptionId, policies[0], groups) {
        assert ([policies[0]] + rest)[1..] == rest;
      } else if rest != [] {
        SubsequenceOfTail(rest, policies);
      }
    }
  }

  /** A subsequence of the tail is a subsequence of the whole. */
  lemma {:induction false} SubsequenceOfTail<T>(sub: seq<T>, s: seq<T>)
    requires s != [] && IsSubsequence(sub, s[1..])
    ensures IsSubsequence(sub, s)
    decreases |sub| + |s|
  {
    if sub != [] && sub[0] == s[0] {
      SubsequenceDropHead(sub, s[1..]);
    }
  }

  /** Dropping the first element of a subsequence leaves a subsequence. */
  lemma {:induction false} SubsequenceDropHead<T>(sub: seq<T>, s: seq<T>)
    requires sub != [] && IsSubsequence(sub, s)
    ensures IsSubsequence(sub[1..], s)
    decreases |sub| + |s|
  {
    if sub[0] == s[0] {
      SubsequenceOfTail(sub[1..], s);
    } else {
      SubsequenceDropHead(sub, s[1..]);
      SubsequenceOfTail(sub[1..], s);
    }
  }

  /**
   * Rendering is decided policy by policy: the rendered list of two fetched
   * lists one after the other is the two rendered lists one after the other.
   */
  lemma {:induction false} RenderedAppend(subscriptionId: string, policies: seq<PolicyAssignment>,
                                          more: seq<PolicyAssignment>, groups: seq<ManagementGroup>)
    ensures RenderedPolicies(subscriptionId, policies + more, groups)
         == RenderedPolicies(subscriptionId, policies, groups) + RenderedPolicies(subscriptionId, more, groups)
  {
    if policies == [] {
      assert policies + more == more;
    } else {
      assert (policies + more)[1..] == policies[1..] + more;
      RenderedAppend(subscriptionId, policies[1..], more, groups);
    }
  }

  /** Each policy is rendered exactly as many times as it was fetched, unless it is skipped. */
  lemma {:induction false} RenderedCount(subscriptionId: string, policies: seq<PolicyAssignment>,
                                         groups: seq<ManagementGroup>, p: PolicyAssignment)
    ensures multiset(RenderedPolicies(subscriptionId, policies, groups))[p]
         == if Skipped(subscriptionId, p, groups) then 0 else multiset(policies)[p]
  {
    if policies != [] {
      RenderedCount(subscriptionId, policies[1..], groups, p);
      assert policies == [policies[0]] + policies[1..];
    }
  }

  /** A policy without notScopes, or with an empty list, is always rendered. */
  lemma NoNotScopesAlwaysRendered(subscriptionId: string, policies: seq<PolicyAssignment>,
                                  groups: seq<ManagementGroup>, i: nat)
    requires i < |policies|
    requires policies[i].notScopes == None || policies[i].notScopes == Some([])
    ensures policies[i] in RenderedPolicies(subscriptionId, policies, groups)
  {
    assert policies[i] in policies;
  }
}
