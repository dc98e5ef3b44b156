/**
 Positions in a sequence: where a value first occurs, and how that position
 behaves under prefixes and concatenation.
 */
module Seqs {

  /** Position of the first occurrence of `x` in `s`. */
  function FirstIndex<T(==)>(s: seq<T>, x: T): (k: nat)
    requires x in s
    ensures k < |s| && s[k] == x
    ensures forall j :: 0 <= j < k ==> s[j] != x
  {
    if s[0] == x then 0 else 1 + FirstIndex(s[1..], x)
  }

  /** A position holding `x` with no `x` before it is the first occurrence. */
  lemma {:induction false} FirstIndexIs<T>(s: seq<T>, x: T, k: nat)
    requires k < |s| && s[k] == x
    requires forall j :: 0 <= j < k ==> s[j] != x
    ensures FirstIndex(s, x) == k
  {
    if k > 0 {
      FirstIndexIs(s[1..], x, k - 1);
    }
  }

  /** A value first occurring in the prefix `s[..n]` first occurs at the same
      place in `s`. */
  lemma {:induction false} FirstIndexOfPrefix<T>(s: seq<T>, n: nat, x: T)
    requires n <= |s| && x in s[..n]
    ensures FirstIndex(s, x) == FirstIndex(s[..n], x)
  {
    if s[0] != x {
      assert s[..n][1..] == s[1..][..n - 1];
      FirstIndexOfPrefix(s[1..], n - 1, x);
    }
  }

  /** The first `c` of `a + t` lies in `t` when `a` holds none. */
  lemma {:induction false} FirstIndexPastPrefix<T>(a: seq<T>, t: seq<T>, c: T)
    requires c !in a && c in t
    ensures FirstIndex(a + t, c) == |a| + FirstIndex(t, c)
  {
    if |a| == 0 {
      assert a + t == t;
    } else {
      assert (a + t)[0] == a[0];
      assert (a + t)[1..] == a[1..] + t;
      FirstIndexPastPrefix(a[1..], t, c);
    }
  }

  /** The last value of `s`, when it does not occur earlier, first occurs
      last. */
  lemma FirstIndexOfNewLast<T>(s: seq<T>)
    requires |s| > 0 && s[|s| - 1] !in s[..|s| - 1]
    ensures FirstIndex(s, s[|s| - 1]) == |s| - 1
  {
    var n := |s| - 1;
    forall j | 0 <= j < n
      ensures s[j] != s[n]
    {
      assert s[j] == s[..n][j];
    }
    FirstIndexIs(s, s[n], n);
  }

  /** Concatenation is associative. */
  lemma AppendAssoc<T>(x: seq<T>, y: seq<T>, z: seq<T>)
    ensures x + (y + z) == (x + y) + z
  {
  }
}
