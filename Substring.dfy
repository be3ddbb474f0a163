/**
 * Substring containment on strings, as Python's `p in s` tests it for two
 * `str` values: case-sensitive, not anchored to any separator, and true for
 * the empty pattern against every string (the empty string included).
 */
module Substring {

  /** `p` occurs in `s` starting at position `i`. */
  ghost predicate OccursAt(p: string, s: string, i: int)
  {
    0 <= i <= |s| - |p| && s[i..i + |p|] == p
  }

  /** The meaning of Python's `p in s`: some window of `s` equals `p`. */
  ghost predicate IsSubstring(p: string, s: string)
  {
    exists i :: OccursAt(p, s, i)
  }

  /**
   * Python's `p in s` as a left-to-right search: try every start position
   * in turn and stop at the first window that equals `p`.
   */
  function Contains(p: string, s: string): (r: bool)
    ensures r <==> IsSubstring(p, s)
    decreases |s|
  {
    if |p| > |s| then false
    else if s[..|p|] == p then
      assert OccursAt(p, s, 0);
      true
    else
      var r := Contains(p, s[1..]);
      assert IsSubstring(p, s) ==> IsSubstring(p, s[1..]) by {
        if IsSubstring(p, s) {
          var i :| OccursAt(p, s, i);
          assert i != 0;
          assert s[1..][i - 1..i - 1 + |p|] == s[i..i + |p|];
          assert OccursAt(p, s[1..], i - 1);
        }
      }
      assert IsSubstring(p, s[1..]) ==> IsSubstring(p, s) by {
        if IsSubstring(p, s[1..]) {
          var i :| OccursAt(p, s[1..], i);
          assert s[1..][i..i + |p|] == s[i + 1..i + 1 + |p|];
          assert OccursAt(p, s, i + 1);
        }
      }
      r
  }

  /** The empty string is contained in every string, the empty one included. */
  lemma EmptyIsSubstring(s: string)
    ensures IsSubstring("", s)
  {
    assert OccursAt("", s, 0);
  }

  /** Every string is contained in itself. */
  lemma SelfIsSubstring(s: string)
    ensures IsSubstring(s, s)
  {
    assert OccursAt(s, s, 0);
  }

  /** A string is contained in any string built around it. */
  lemma SubstringOfConcat(a: string, p: string, b: string)
    ensures IsSubstring(p, a + p + b)
  {
    var s := a + p + b;
    assert s[|a|..|a| + |p|] == p;
    assert OccursAt(p, s, |a|);
  }

  /**
   * A pattern holding a character that the text lacks is not contained in
   * it: containment is case-sensitive and compares characters one by one.
   */
  lemma MissingCharNotSubstring(p: string, s: string, c: char)
    requires c in p && c !in s
    ensures !IsSubstring(p, s)
  {
    var k :| 0 <= k < |p| && p[k] == c;
    forall i | 0 <= i <= |s| - |p|
      ensures !OccursAt(p, s, i)
    {
      assert s[i..i + |p|][k] == s[i + k] != c;
    }
  }

  /**
   * A pattern holding two adjacent characters that never stand next to each
   * other in the text is not contained in it.
   */
  lemma MissingPairNotSubstring(p: string, s: string, k: nat)
    requires k + 1 < |p|
    requires forall i :: 0 <= i < |s| - 1 && s[i] == p[k] ==> s[i + 1] != p[k + 1]
    ensures !IsSubstring(p, s)
  {
    forall i | 0 <= i <= |s| - |p|
      ensures !OccursAt(p, s, i)
    {
      assert s[i..i + |p|][k] == s[i + k];
      assert s[i..i + |p|][k + 1] == s[i + k + 1];
    }
  }
}
