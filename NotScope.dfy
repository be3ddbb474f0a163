/**
 * The notScope exclusion check: does a policy assignment's list of excluded
 * scopes ("notScopes") cover the selected subscription?
 *
 * Every comparison is plain substring containment. A notScope entry excludes
 * when it contains the subscription id, or when it contains the id of ANY
 * management group of the tenant: the list is not narrowed to the groups
 * that actually contain the subscription, and no resource path is parsed.
 */
module NotScope {
  import opened Substring

  /** A management group; the check reads nothing but its id. */
  datatype ManagementGroup = ManagementGroup(id: string)

  /** Some group id of `groups` occurs in `notScope`. */
  ghost predicate GroupMatches(groups: seq<ManagementGroup>, notScope: string)
  {
    exists j :: 0 <= j < |groups| && IsSubstring(groups[j].id, notScope)
  }

  /** One notScope entry excludes: it holds the subscription id or some group id. */
  ghost predicate EntryExcludes(subscriptionId: string, groups: seq<ManagementGroup>, notScope: string)
  {
    IsSubstring(subscriptionId, notScope) || GroupMatches(groups, notScope)
  }

  /** The check's meaning: some notScope entry excludes. */
  ghost predicate Excluded(subscriptionId: string, notScopes: seq<string>, groups: seq<ManagementGroup>)
  {
    exists k :: 0 <= k < |notScopes| && EntryExcludes(subscriptionId, groups, notScopes[k])
  }

  /** The inner loop: scan the groups in order for one whose id occurs in `notScope`. */
  function AnyGroupIn(groups: seq<ManagementGroup>, notScope: string): (r: bool)
    ensures r <==> GroupMatches(groups, notScope)
  {
    if groups == [] then false
    else if Contains(groups[0].id, notScope) then true
    else
      var r := AnyGroupIn(groups[1..], notScope);
      assert GroupMatches(groups, notScope) ==> GroupMatches(groups[1..], notScope) by {
        if GroupMatches(groups, notScope) {
          var j :| 0 <= j < |groups| && IsSubstring(groups[j].id, notScope);
          assert groups[1..][j - 1] == groups[j];
        }
      }
      r
  }

  /**
   * The whole check: walk the notScope entries in order; an entry that holds
   * the subscription id, or failing that the id of any group, ends the walk
   * with true; exhausting the entries gives false.
   */
  function IsSubscriptionInNotScope(subscriptionId: string, notScopes: seq<string>,
                                    groups: seq<ManagementGroup>): (r: bool)
    ensures r <==> Excluded(subscriptionId, notScopes, groups)
  {
    if notScopes == [] then false
    else if Contains(subscriptionId, notScopes[0]) then
      assert EntryExcludes(subscriptionId, groups, notScopes[0]);
      true
    else if AnyGroupIn(groups, notScopes[0]) then
      assert EntryExcludes(subscriptionId, groups, notScopes[0]);
      true
    else
      var r := IsSubscriptionInNotScope(subscriptionId, notScopes[1..], groups);
      assert Excluded(subscriptionId, notScopes, groups) ==> Excluded(subscriptionId, notScopes[1..], groups) by {
        if Excluded(subscriptionId, notScopes, groups) {
          var k :| 0 <= k < |notScopes| && EntryExcludes(subscriptionId, groups, notScopes[k]);
          assert notScopes[1..][k - 1] == notScopes[k];
        }
      }
      assert Excluded(subscriptionId, notScopes[1..], groups) ==> Excluded(subscriptionId, notScopes, groups) by {
        if Excluded(subscriptionId, notScopes[1..], groups) {
          var k :| 0 <= k < |notScopes[1..]| && EntryExcludes(subscriptionId, groups, notScopes[1..][k]);
          assert notScopes[k + 1] == notScopes[1..][k];
        }
      }
      r
  }

  /**
   * The same check written as the two nested `for` loops with early return;
   * it agrees with the function above and so has the same meaning.
   */
  method CheckNotScopes(subscriptionId: string, notScopes: seq<string>,
                        groups: seq<ManagementGroup>) returns (r: bool)
    ensures r <==> Excluded(subscriptionId, notScopes, groups)
    ensures r == IsSubscriptionInNotScope(subscriptionId, notScopes, groups)
  {
    for k := 0 to |notScopes|
      invariant forall k' :: 0 <= k' < k ==> !EntryExcludes(subscriptionId, groups, notScopes[k'])
    {
      var notScope := notScopes[k];
      if Contains(subscriptionId, notScope) {
        return true;
      }
      for j := 0 to |groups|
        invariant forall j' :: 0 <= j' < j ==> !IsSubstring(groups[j'].id, notScope)
      {
        if Contains(groups[j].id, notScope) {
          assert GroupMatches(groups, notScope);
          return true;
        }
      }
    }
    return false;
  }

  /** With no notScopes nothing is excluded, whatever the subscription and groups. */
  lemma EmptyNotScopesNeverExclude(subscriptionId: string, groups: seq<ManagementGroup>)
    ensures !IsSubscriptionInNotScope(subscriptionId, [], groups)
  {
  }

  /** An entry holding the subscription id excludes, whatever the groups. */
  lemma SubscriptionMatchExcludes(subscriptionId: string, notScopes: seq<string>,
                                  groups: seq<ManagementGroup>, k: nat)
    requires k < |notScopes| && IsSubstring(subscriptionId, notScopes[k])
    ensures IsSubscriptionInNotScope(subscriptionId, notScopes, groups)
  {
    assert EntryExcludes(subscriptionId, groups, notScopes[k]);
  }

  /**
   * An entry holding the id of any group in the list excludes, even when
   * the subscription id occurs in no entry at all.
   */
  lemma GroupMatchExcludes(subscriptionId: string, notScopes: seq<string>,
                           groups: seq<ManagementGroup>, k: nat, j: nat)
    requires k < |notScopes| && j < |groups|
    requires IsSubstring(groups[j].id, notScopes[k])
    ensures IsSubscriptionInNotScope(subscriptionId, notScopes, groups)
  {
    assert GroupMatches(groups, notScopes[k]);
    assert EntryExcludes(subscriptionId, groups, notScopes[k]);
  }

  /** Without management groups only the subscription id can exclude. */
  lemma NoGroupsOnlySubscriptionExcludes(subscriptionId: string, notScopes: seq<string>)
    ensures IsSubscriptionInNotScope(subscriptionId, notScopes, [])
        <==> exists k :: 0 <= k < |notScopes| && IsSubstring(subscriptionId, notScopes[k])
  {
    if IsSubscriptionInNotScope(subscriptionId, notScopes, []) {
      var k :| 0 <= k < |notScopes| && EntryExcludes(subscriptionId, [], notScopes[k]);
      assert !GroupMatches([], notScopes[k]);
    }
  }

  /**
   * An empty subscription id is contained in every string, so it excludes
   * every policy that has at least one notScope entry.
   */
  lemma EmptySubscriptionIdExcludesAll(notScopes: seq<string>, groups: seq<ManagementGroup>)
    ensures IsSubscriptionInNotScope("", notScopes, groups) <==> notScopes != []
  {
    if notScopes != [] {
      EmptyIsSubstring(notScopes[0]);
      SubscriptionMatchExcludes("", notScopes, groups, 0);
    }
  }

  /** Likewise a group with an empty id excludes every subscription from every non-empty notScopes. */
  lemma EmptyGroupIdExcludesAll(subscriptionId: string, notScopes: seq<string>,
                                groups: seq<ManagementGroup>, j: nat)
    requires j < |groups| && groups[j].id == ""
    ensures IsSubscriptionInNotScope(subscriptionId, notScopes, groups) <==> notScopes != []
  {
    if notScopes != [] {
      EmptyIsSubstring(notScopes[0]);
      GroupMatchExcludes(subscriptionId, notScopes, groups, 0, j);
    }
  }

  /** Excluded depends only on which entries occur, so a reordering keeps it. */
  lemma ExcludedFromSameEntries(subscriptionId: string, notScopes: seq<string>, notScopes': seq<string>,
                                groups: seq<ManagementGroup>)
    requires forall n :: n in notScopes ==> n in notScopes'
    requires Excluded(subscriptionId, notScopes, groups)
    ensures Excluded(subscriptionId, notScopes', groups)
  {
    var k :| 0 <= k < |notScopes| && EntryExcludes(subscriptionId, groups, notScopes[k]);
    assert notScopes[k] in notScopes';
    var k' :| 0 <= k' < |notScopes'| && notScopes'[k'] == notScopes[k];
  }

  /** Group matching depends only on which groups occur. */
  lemma GroupMatchesFromSameGroups(groups: seq<ManagementGroup>, groups': seq<ManagementGroup>, notScope: string)
    requires forall g :: g in groups ==> g in groups'
    requires GroupMatches(groups, notScope)
    ensures GroupMatches(groups', notScope)
  {
    var j :| 0 <= j < |groups| && IsSubstring(groups[j].id, notScope);
    assert groups[j] in groups';
    var j' :| 0 <= j' < |groups'| && groups'[j'] == groups[j];
  }

  /** Permuting the notScope entries never changes the result. */
  lemma NotScopesOrderIrrelevant(subscriptionId: string, notScopes: seq<string>, notScopes': seq<string>,
                                 groups: seq<ManagementGroup>)
    requires multiset(notScopes) == multiset(notScopes')
    ensures IsSubscriptionInNotScope(subscriptionId, notScopes, groups)
        == IsSubscriptionInNotScope(subscriptionId, notScopes', groups)
  {
    forall n ensures n in notScopes <==> n in notScopes' {
      assert n in notScopes <==> n in multiset(notScopes);
      assert n in notScopes' <==> n in multiset(notScopes');
    }
    if Excluded(subscriptionId, notScopes, groups) {
      ExcludedFromSameEntries(subscriptionId, notScopes, notScopes', groups);
    }
    if Excluded(subscriptionId, notScopes', groups) {
      ExcludedFromSameEntries(subscriptionId, notScopes', notScopes, groups);
    }
  }

  /** Permuting the management groups never changes the result. */
  lemma GroupsOrderIrrelevant(subscriptionId: string, notScopes: seq<string>,
                              groups: seq<ManagementGroup>, groups': seq<ManagementGroup>)
    requires multiset(groups) == multiset(groups')
    ensures IsSubscriptionInNotScope(subscriptionId, notScopes, groups)
        == IsSubscriptionInNotScope(subscriptionId, notScopes, groups')
  {
    forall g ensures g in groups <==> g in groups' {
      assert g in groups <==> g in multiset(groups);
      assert g in groups' <==> g in multiset(groups');
    }
    forall n ensures GroupMatches(groups, n) <==> GroupMatches(groups', n) {
      if GroupMatches(groups, n) { GroupMatchesFromSameGroups(groups, groups', n); }
      if GroupMatches(groups', n) { GroupMatchesFromSameGroups(groups', groups, n); }
    }
    if Excluded(subscriptionId, notScopes, groups) {
      var k :| 0 <= k < |notScopes| && EntryExcludes(subscriptionId, groups, notScopes[k]);
      assert EntryExcludes(subscriptionId, groups', notScopes[k]);
    }
    if Excluded(subscriptionId, notScopes, groups') {
      var k :| 0 <= k < |notScopes| && EntryExcludes(subscriptionId, groups', notScopes[k]);
      assert EntryExcludes(subscriptionId, groups, notScopes[k]);
    }
  }

  /** Splitting the notScope entries in two: the check is the disjunction of the halves. */
  lemma AppendNotScopes(subscriptionId: string, notScopes: seq<string>, more: seq<string>,
                        groups: seq<ManagementGroup>)
    ensures IsSubscriptionInNotScope(subscriptionId, notScopes + more, groups)
        <==> IsSubscriptionInNotScope(subscriptionId, notScopes, groups)
             || IsSubscriptionInNotScope(subscriptionId, more, groups)
  {
    var all := notScopes + more;
    if Excluded(subscriptionId, all, groups) {
      var k :| 0 <= k < |all| && EntryExcludes(subscriptionId, groups, all[k]);
      if k < |notScopes| {
        assert all[k] == notScopes[k];
      } else {
        assert all[k] == more[k - |notScopes|];
      }
    }
    if Excluded(subscriptionId, notScopes, groups) {
      var k :| 0 <= k < |notScopes| && EntryExcludes(subscriptionId, groups, notScopes[k]);
      assert all[k] == notScopes[k];
    }
    if Excluded(subscriptionId, more, groups) {
      var k :| 0 <= k < |more| && EntryExcludes(subscriptionId, groups, more[k]);
      assert all[|notScopes| + k] == more[k];
    }
  }

  /** Splitting the group list in two: the check is the disjunction of the halves. */
  lemma AppendGroups(subscriptionId: string, notScopes: seq<string>,
                     groups: seq<ManagementGroup>, more: seq<ManagementGroup>)
    ensures IsSubscriptionInNotScope(subscriptionId, notScopes, groups + more)
        <==> IsSubscriptionInNotScope(subscriptionId, notScopes, groups)
             || IsSubscriptionInNotScope(subscriptionId, notScopes, more)
  {
    var all := groups + more;
    forall n ensures GroupMatches(all, n) <==> GroupMatches(groups, n) || GroupMatches(more, n) {
      if GroupMatches(all, n) {
        var j :| 0 <= j < |all| && IsSubstring(all[j].id, n);
        if j < |groups| {
          assert all[j] == groups[j];
        } else {
          assert all[j] == more[j - |groups|];
        }
      }
      if GroupMatches(groups, n) {
        var j :| 0 <= j < |groups| && IsSubstring(groups[j].id, n);
        assert all[j] == groups[j];
      }
      if GroupMatches(more, n) {
        var j :| 0 <= j < |more| && IsSubstring(more[j].id, n);
        assert all[|groups| + j] == more[j];
      }
    }
    if Excluded(subscriptionId, notScopes, all) {
      var k :| 0 <= k < |notScopes| && EntryExcludes(subscriptionId, all, notScopes[k]);
      assert EntryExcludes(subscriptionId, groups, notScopes[k]) || EntryExcludes(subscriptionId, more, notScopes[k]);
    }
    if Excluded(subscriptionId, notScopes, groups) {
      var k :| 0 <= k < |notScopes| && EntryExcludes(subscriptionId, groups, notScopes[k]);
      assert EntryExcludes(subscriptionId, all, notScopes[k]);
    }
    if Excluded(subscriptionId, notScopes, more) {
      var k :| 0 <= k < |notScopes| && EntryExcludes(subscriptionId, more, notScopes[k]);
      assert EntryExcludes(subscriptionId, all, notScopes[k]);
    }
  }

  /**
   * Appending notScope entries or management groups can turn the result
   * from false to true, never from true to false.
   */
  lemma ExclusionMonotone(subscriptionId: string, notScopes: seq<string>, moreNotScopes: seq<string>,
                          groups: seq<ManagementGroup>, moreGroups: seq<ManagementGroup>)
    requires IsSubscriptionInNotScope(subscriptionId, notScopes, groups)
    ensures IsSubscriptionInNotScope(subscriptionId, notScopes + moreNotScopes, groups + moreGroups)
  {
    AppendGroups(subscriptionId, notScopes, groups, moreGroups);
    AppendNotScopes(subscriptionId, notScopes, moreNotScopes, groups + moreGroups);
  }

  // Worked examples of the check on concrete ids.

  /** No notScopes: "sub-123" is not excluded. */
  lemma ScenarioNoNotScopes()
    ensures !IsSubscriptionInNotScope("sub-123", [], [])
  {
  }

  /** A resource-group path under the subscription excludes it by substring. */
  lemma ScenarioSubscriptionPath()
    ensures IsSubscriptionInNotScope("sub-123", ["/subscriptions/sub-123/resourceGroups/rg1"], [])
  {
    SubstringOfConcat("/subscriptions/", "sub-123", "/resourceGroups/rg1");
    assert "/subscriptions/" + "sub-123" + "/resourceGroups/rg1" == "/subscriptions/sub-123/resourceGroups/rg1";
    SubscriptionMatchExcludes("sub-123", ["/subscriptions/sub-123/resourceGroups/rg1"], [], 0);
  }

  /** A management-group path naming a known group excludes. */
  lemma ScenarioGroupPath()
    ensures IsSubscriptionInNotScope("sub-123", ["/providers/Microsoft.Management/managementGroups/mg-finance"],
                                     [ManagementGroup("mg-finance")])
  {
    var prefix := "/providers/Microsoft.Management/managementGroups/";
    SubstringOfConcat(prefix, "mg-finance", "");
    assert prefix + "mg-finance" + "" == "/providers/Microsoft.Management/managementGroups/mg-finance";
    GroupMatchExcludes("sub-123", ["/providers/Microsoft.Management/managementGroups/mg-finance"],
                       [ManagementGroup("mg-finance")], 0, 0);
  }

  /** A path naming a group that is not in the list, and not the subscription, does not exclude. */
  lemma ScenarioUnrelatedGroupPath()
    ensures !IsSubscriptionInNotScope("sub-123", ["/providers/Microsoft.Management/managementGroups/mg-hr"],
                                      [ManagementGroup("mg-finance")])
  {
    var n := "/providers/Microsoft.Management/managementGroups/mg-hr";
    var groups := [ManagementGroup("mg-finance")];
    HrPathMatchesNeither(n);
    assert !GroupMatches(groups, n);
    assert !EntryExcludes("sub-123", groups, n);
    assert !Excluded("sub-123", [n], groups);
  }

  /**
   * The "mg-hr" group path holds neither "sub-123" (it has no digit) nor
   * "mg-finance" (its only '-' is followed by 'h', never by 'f').
   */
  lemma HrPathMatchesNeither(n: string)
    requires n == "/providers/Microsoft.Management/managementGroups/mg-hr"
    ensures !IsSubstring("sub-123", n) && !IsSubstring("mg-finance", n)
  {
    HrPathCharacters(n);
    MissingCharNotSubstring("sub-123", n, '1');
    MissingPairNotSubstring("mg-finance", n, 2);
  }

  /** The characters of the "mg-hr" group path that the lemma above relies on. */
  lemma HrPathCharacters(n: string)
    requires n == "/providers/Microsoft.Management/managementGroups/mg-hr"
    ensures '1' !in n
    ensures forall i :: 0 <= i < |n| - 1 && n[i] == '-' ==> n[i + 1] != 'f'
  {
    var a, b, c := "/providers/", "Microsoft.Management/", "managementGroups/mg";
    HrPathSplit(n, a, b, c);
    HrPathPieces(a, b, c);
    assert n == (a + b + c) + "-hr";
  }

  /** The "mg-hr" group path cut into pieces at its '/' separators. */
  lemma HrPathSplit(n: string, a: string, b: string, c: string)
    requires n == "/providers/Microsoft.Management/managementGroups/mg-hr"
    requires a == "/providers/" && b == "Microsoft.Management/" && c == "managementGroups/mg"
    ensures n == a + b + c + "-hr"
  {
    assert a + b == "/providers/Microsoft.Management/";
    assert a + b + c == "/providers/Microsoft.Management/managementGroups/mg";
  }

  /** No piece before the group name's '-' holds a '1' or a '-'. */
  lemma HrPathPieces(a: string, b: string, c: string)
    requires a == "/providers/" && b == "Microsoft.Management/" && c == "managementGroups/mg"
    ensures '1' !in a + b + c && '-' !in a + b + c
  {
    assert '1' !in a && '-' !in a;
    assert '1' !in b && '-' !in b;
    assert '1' !in c && '-' !in c;
  }

  /** A notScope entry that is exactly the subscription id excludes it, whatever the groups. */
  lemma NotScopeNamingSubscriptionExcludes(subscriptionId: string, notScopes: seq<string>,
                                           groups: seq<ManagementGroup>, k: nat)
    requires k < |notScopes| && notScopes[k] == subscriptionId
    ensures IsSubscriptionInNotScope(subscriptionId, notScopes, groups)
  {
    SelfIsSubstring(subscriptionId);
    SubscriptionMatchExcludes(subscriptionId, notScopes, groups, k);
  }

  /**
   * Matching is not anchored at path separators: a notScope for
   * subscription "sub-12" also excludes subscription "sub-1".
   */
  lemma ScenarioUnanchoredMatch()
    ensures IsSubscriptionInNotScope("sub-1", ["/subscriptions/sub-12"], [])
  {
    SubstringOfConcat("/subscriptions/", "sub-1", "2");
    assert "/subscriptions/" + "sub-1" + "2" == "/subscriptions/sub-12";
    SubscriptionMatchExcludes("sub-1", ["/subscriptions/sub-12"], [], 0);
  }
}
