/** Facts about order-preserving selections from a sequence, shared by the list filters. */
module Sequences {

  /** The length of `s.slice(0, n)` for a sequence of length `a`. */
  function Min(a: nat, b: nat): (m: nat)
    ensures m <= a && m <= b && (m == a || m == b)
  {
    if a <= b then a else b
  }

  /** `a` is `b` with some elements left out and the rest in their original order. */
  ghost predicate IsSubsequence<T>(a: seq<T>, b: seq<T>)
    decreases |b|
  {
    if a == [] then true
    else if b == [] then false
    else (a[0] == b[0] && IsSubsequence(a[1..], b[1..])) || IsSubsequence(a, b[1..])
  }

  ghost predicate Distinct<T>(s: seq<T>)
  {
    forall i, j :: 0 <= i < j < |s| ==> s[i] != s[j]
  }

  lemma {:induction false} SubsequenceOfTail<T>(a: seq<T>, b: seq<T>)
    requires b != [] && IsSubsequence(a, b[1..])
    ensures IsSubsequence(a, b)
  {
  }

  lemma {:induction false} SubsequenceLength<T>(a: seq<T>, b: seq<T>)
    requires IsSubsequence(a, b)
    ensures |a| <= |b|
    decreases |b|
  {
    if a != [] {
      if a[0] == b[0] && IsSubsequence(a[1..], b[1..]) {
        SubsequenceLength(a[1..], b[1..]);
      } else {
        SubsequenceLength(a, b[1..]);
      }
    }
  }

  lemma {:induction false} SubsequenceMembers<T>(a: seq<T>, b: seq<T>, x: T)
    requires IsSubsequence(a, b) && x in a
    ensures x in b
    decreases |b|
  {
    if a[0] == b[0] && IsSubsequence(a[1..], b[1..]) {
      if x != a[0] {
        SubsequenceMembers(a[1..], b[1..], x);
      }
    } else {
      SubsequenceMembers(a, b[1..], x);
    }
  }

  /**
   * In a sequence without repetitions, an ordered selection is fixed by which
   * elements it keeps: two subsequences with the same members are equal.
   */
  lemma {:induction false} SubsequenceDeterminedByMembers<T>(a1: seq<T>, a2: seq<T>, b: seq<T>)
    requires Distinct(b)
    requires IsSubsequence(a1, b) && IsSubsequence(a2, b)
    requires forall x :: x in a1 <==> x in a2
    ensures a1 == a2
    decreases |b|
  {
    if b != [] {
      var x := b[0];
      assert Distinct(b[1..]) by {
        forall i, j | 0 <= i < j < |b[1..]| ensures b[1..][i] != b[1..][j] {
          assert b[1..][i] == b[i + 1] && b[1..][j] == b[j + 1];
        }
      }
      assert x !in b[1..] by {
        forall i | 0 <= i < |b[1..]| ensures b[1..][i] != x {
          assert b[1..][i] == b[i + 1];
        }
      }
      if x in a1 {
        HeadKept(a1, b);
        HeadKept(a2, b);
        forall y ensures y in a1[1..] <==> y in a2[1..] {
          if y in a1[1..] { SubsequenceMembers(a1[1..], b[1..], y); assert y != x && y in a1; }
          if y in a2[1..] { SubsequenceMembers(a2[1..], b[1..], y); assert y != x && y in a2; }
          assert y in a1 ==> y == a1[0] || y in a1[1..];
          assert y in a2 ==> y == a2[0] || y in a2[1..];
        }
        SubsequenceDeterminedByMembers(a1[1..], a2[1..], b[1..]);
        assert a1 == [a1[0]] + a1[1..];
        assert a2 == [a2[0]] + a2[1..];
      } else {
        HeadDropped(a1, b);
        HeadDropped(a2, b);
        SubsequenceDeterminedByMembers(a1, a2, b[1..]);
      }
    }
  }

  /** If the first element of a repetition-free `b` is kept, it comes first. */
  lemma {:induction false} HeadKept<T>(a: seq<T>, b: seq<T>)
    requires b != [] && b[0] !in b[1..]
    requires IsSubsequence(a, b) && b[0] in a
    ensures a[0] == b[0] && IsSubsequence(a[1..], b[1..])
  {
    if !(a[0] == b[0] && IsSubsequence(a[1..], b[1..])) {
      SubsequenceMembers(a, b[1..], b[0]);
    }
  }

  /** If the first element of `b` is not kept, the selection comes from the rest. */
  lemma {:induction false} HeadDropped<T>(a: seq<T>, b: seq<T>)
    requires b != [] && IsSubsequence(a, b) && b[0] !in a
    ensures IsSubsequence(a, b[1..])
  {
  }

  /** A concatenation splits back into its two parts. */
  lemma PeelFront<T>(a: seq<T>, b: seq<T>)
    ensures (a + b)[..|a|] == a && (a + b)[|a|..] == b
  {
  }

  /** Inside a known prefix, slices of the whole are slices of the prefix. */
  lemma SliceOfPrefix<T>(r: seq<T>, p: seq<T>, i: nat, j: nat)
    requires |p| <= |r| && r[..|p|] == p && i <= j <= |p|
    ensures r[i..j] == p[i..j]
  {
    forall k | 0 <= k < j - i ensures r[i..j][k] == p[i..j][k] {
      assert r[..|p|][i + k] == r[i + k];
    }
  }
}
