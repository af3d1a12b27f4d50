/** The few Python string operations the model needs, on `seq<char>`. */
module Strings {

  predicate StartsWith(s: string, prefix: string)
  {
    |prefix| <= |s| && s[..|prefix|] == prefix
  }

  predicate EndsWith(s: string, suffix: string)
  {
    |suffix| <= |s| && s[|s| - |suffix|..] == suffix
  }

  /** `p` occurs in `s` starting at index `i`. */
  predicate OccursAt(s: string, p: string, i: int)
  {
    0 <= i && i + |p| <= |s| && s[i..i + |p|] == p
  }

  /** Concatenation regrouped. */
  lemma Assoc(a: string, b: string, c: string)
    ensures a + b + c == a + (b + c)
  {
  }

  /** Python's `p in s` for strings. */
  predicate Contains(s: string, p: string)
  {
    exists i | 0 <= i <= |s| - |p| :: OccursAt(s, p, i)
  }

  /** Python's `s.rfind(c)`: the last index holding `c`, or -1. */
  function LastIndexOf(s: string, c: char): (r: int)
    ensures -1 <= r < |s|
    ensures r >= 0 ==> s[r] == c
  {
    if |s| == 0 then -1
    else if s[|s| - 1] == c then |s| - 1
    else LastIndexOf(s[..|s| - 1], c)
  }

  /** No `c` follows the index `rfind` reports. */
  lemma {:induction false} LastIndexOfIsLast(s: string, c: char)
    ensures forall k | LastIndexOf(s, c) < k < |s| :: s[k] != c
    decreases |s|
  {
    if |s| > 0 && s[|s| - 1] != c {
      var init := s[..|s| - 1];
      LastIndexOfIsLast(init, c);
      forall k | LastIndexOf(s, c) < k < |s| - 1 ensures s[k] != c {
        assert s[k] == init[k];
      }
    }
  }

  /** An index holding `c` (or -1) with no `c` after it is what `rfind` reports. */
  lemma {:induction false} LastIndexOfIs(s: string, c: char, r: int)
    requires -1 <= r < |s| && (r >= 0 ==> s[r] == c)
    requires forall k | r < k < |s| :: s[k] != c
    ensures LastIndexOf(s, c) == r
    decreases |s|
  {
    if |s| > 0 && r < |s| - 1 {
      var init := s[..|s| - 1];
      assert s[|s| - 1] != c;
      forall k | r < k < |init| ensures init[k] != c {
        assert init[k] == s[k];
      }
      if r >= 0 {
        assert init[r] == s[r];
      }
      LastIndexOfIs(init, c, r);
    }
  }

  /** Python's `s.replace(p, q)` for a non-empty `p`: every occurrence, scanning
      left to right, non-overlapping. */
  function ReplaceAll(s: string, p: string, q: string): (r: string)
    requires |p| > 0
    decreases |s|
  {
    if |s| < |p| then s
    else if s[..|p|] == p then q + ReplaceAll(s[|p|..], p, q)
    else [s[0]] + ReplaceAll(s[1..], p, q)
  }

  /** Text in front of which no occurrence of `p` starts is copied unchanged. */
  lemma {:induction false} ReplaceSkip(a: string, b: string, p: string, q: string)
    requires |p| > 0
    requires forall i :: 0 <= i < |a| ==> !OccursAt(a + b, p, i)
    ensures ReplaceAll(a + b, p, q) == a + ReplaceAll(b, p, q)
    decreases |a|
  {
    if |a| > 0 {
      var s := a + b;
      assert !OccursAt(s, p, 0);
      assert s[1..] == a[1..] + b;
      forall i | 0 <= i < |a[1..]|
        ensures !OccursAt(a[1..] + b, p, i)
      {
        assert !OccursAt(s, p, i + 1);
        if i + |p| <= |a[1..] + b| {
          assert (a[1..] + b)[i..i + |p|] == s[i + 1..i + 1 + |p|];
        }
      }
      ReplaceSkip(a[1..], b, p, q);
      if |s| >= |p| {
        assert s[..|p|] != p;
      }
      assert [s[0]] + (a[1..] + ReplaceAll(b, p, q)) == a + ReplaceAll(b, p, q);
    } else {
      assert a + b == b;
    }
  }

  /** An occurrence at the front is replaced. */
  lemma ReplaceHit(b: string, p: string, q: string)
    requires |p| > 0
    ensures ReplaceAll(p + b, p, q) == q + ReplaceAll(b, p, q)
  {
    assert (p + b)[..|p|] == p;
    assert (p + b)[|p|..] == b;
  }

  /** A string without any occurrence of `p` is left unchanged. */
  lemma ReplaceNone(s: string, p: string, q: string)
    requires |p| > 0
    requires forall i :: 0 <= i < |s| ==> !OccursAt(s, p, i)
    ensures ReplaceAll(s, p, q) == s
  {
    assert s + [] == s;
    ReplaceSkip(s, [], p, q);
  }

  /** An occurrence shifted by a prefix. */
  lemma OccursAtShift(a: string, b: string, p: string, i: int)
    requires 0 <= i
    ensures OccursAt(a + b, p, |a| + i) <==> OccursAt(b, p, i)
  {
    if i + |p| <= |b| {
      assert (a + b)[|a| + i..|a| + i + |p|] == b[i..i + |p|];
    }
  }

  /** An occurrence of `p` contains an occurrence of each of its suffixes. */
  lemma OccursAtSuffix(s: string, p: string, j: int, k: int)
    requires OccursAt(s, p, j) && 0 <= k <= |p|
    ensures OccursAt(s, p[k..], j + k) && (k < |p| ==> s[j + k] == p[k])
  {
    assert s[j + k..j + |p|] == s[j..j + |p|][k..];
  }

  /** Replacing a pattern that occurs exactly once, at `k`. */
  lemma ReplaceOnlyAt(s: string, p: string, q: string, k: int)
    requires |p| > 0 && OccursAt(s, p, k)
    requires forall i | 0 <= i < |s| && i != k :: !OccursAt(s, p, i)
    ensures ReplaceAll(s, p, q) == s[..k] + q + s[k + |p|..]
  {
    var a, rest := s[..k], s[k + |p|..];
    assert s == a + (p + rest);
    ReplaceSkip(a, p + rest, p, q);
    ReplaceHit(rest, p, q);
    forall i | 0 <= i < |rest| ensures !OccursAt(rest, p, i) {
      OccursAtShift(a + p, rest, p, i);
      assert a + p + rest == s;
    }
    ReplaceNone(rest, p, q);
  }
}
