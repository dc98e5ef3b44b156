/**
 Keep-first duplicate removal over a sequence of records, the behaviour of
 pandas' `DataFrame.drop_duplicates()` with its default `keep='first'`:
 two rows are duplicates when every column is equal, the first of them stays
 where it was and the later ones are dropped.
 */
module Dedup {
  import opened Seqs

  /** No value occurs twice. */
  predicate Distinct<T(==)>(s: seq<T>) {
    forall i, j :: 0 <= i < j < |s| ==> s[i] != s[j]
  }

  /** The keep-first de-duplication, defined one row at a time from the
      front: a row is kept exactly when it does not occur earlier. */
  function KeepFirst<T(==)>(s: seq<T>): (r: seq<T>)
    ensures forall i :: 0 <= i < |r| ==> r[i] in s
    ensures forall i :: 0 <= i < |s| ==> s[i] in r
    ensures Distinct(r)
    ensures |r| <= |s|
  {
    if |s| == 0 then []
    else
      var init := s[..|s| - 1];
      var last := s[|s| - 1];
      var kept := KeepFirst(init);
      assert s == init + [last];
      if last in init then kept else kept + [last]
  }

  /** Nothing is dropped from a sequence that holds no duplicates. */
  lemma {:induction false} KeepFirstOfDistinct<T>(s: seq<T>)
    requires Distinct(s)
    ensures KeepFirst(s) == s
  {
    if |s| > 0 {
      var init := s[..|s| - 1];
      assert Distinct(init);
      KeepFirstOfDistinct(init);
      assert s[|s| - 1] !in init;
      assert s == init + [s[|s| - 1]];
    }
  }

  /** De-duplicating twice is de-duplicating once. */
  lemma KeepFirstIdempotent<T>(s: seq<T>)
    ensures KeepFirst(KeepFirst(s)) == KeepFirst(s)
  {
    KeepFirstOfDistinct(KeepFirst(s));
  }

  /** The values of `t` occur in `s`, and `t` lists them in the order of
      their first occurrences in `s`. */
  predicate InFirstOccurrenceOrder<T(==)>(s: seq<T>, t: seq<T>) {
    && (forall i :: 0 <= i < |t| ==> t[i] in s)
    && (forall i, j :: 0 <= i < j < |t| ==> FirstIndex(s, t[i]) < FirstIndex(s, t[j]))
  }

  /** Order by first occurrence in a prefix is order by first occurrence in
      the whole sequence. */
  lemma OrderInPrefix<T>(s: seq<T>, n: nat, t: seq<T>)
    requires n <= |s| && InFirstOccurrenceOrder(s[..n], t)
    ensures InFirstOccurrenceOrder(s, t)
    ensures forall i :: 0 <= i < |t| ==> FirstIndex(s, t[i]) < n
  {
    forall i | 0 <= i < |t|
      ensures t[i] in s && FirstIndex(s, t[i]) == FirstIndex(s[..n], t[i])
    {
      FirstIndexOfPrefix(s, n, t[i]);
    }
  }

  /** Appending a value that first occurs after every value of an ordered
      sequence keeps it ordered. */
  lemma OrderAppend<T>(s: seq<T>, t: seq<T>, x: T)
    requires x in s && InFirstOccurrenceOrder(s, t)
    requires forall i :: 0 <= i < |t| ==> FirstIndex(s, t[i]) < FirstIndex(s, x)
    ensures InFirstOccurrenceOrder(s, t + [x])
  {
    var r := t + [x];
    forall i | 0 <= i < |r|
      ensures r[i] in s
    {
      if i < |t| {
        assert r[i] == t[i];
      }
    }
    forall i, j | 0 <= i < j < |r|
      ensures FirstIndex(s, r[i]) < FirstIndex(s, r[j])
    {
      assert r[i] == t[i];
      if j < |t| {
        assert r[j] == t[j];
      }
    }
  }

  /** The kept rows appear in the order of their first occurrences: this,
      with the membership and distinctness of `KeepFirst`'s contract, pins the
      result down completely (see `KeepFirstUnique`). */
  lemma {:induction false} KeepFirstInFirstOccurrenceOrder<T>(s: seq<T>)
    ensures InFirstOccurrenceOrder(s, KeepFirst(s))
  {
    if |s| > 0 {
      var n := |s| - 1;
      var init := s[..n];
      var kept := KeepFirst(init);
      KeepFirstInFirstOccurrenceOrder(init);
      OrderInPrefix(s, n, kept);
      if s[n] !in init {
        FirstIndexOfNewLast(s);
        OrderAppend(s, kept, s[n]);
      }
    }
  }

  /** Whatever holds the same values as `s`, each once, in the order of their
      first occurrences in `s`, is `KeepFirst(s)`. */
  lemma KeepFirstUnique<T>(s: seq<T>, t: seq<T>)
    requires forall i :: 0 <= i < |s| ==> s[i] in t
    requires Distinct(t)
    requires InFirstOccurrenceOrder(s, t)
    ensures t == KeepFirst(s)
  {
    KeepFirstInFirstOccurrenceOrder(s);
    KeepFirstHoldsAll(s, t);
    OrderedDistinctEqual(s, t, KeepFirst(s));
  }

  /** Every value occurring in `s` is kept. */
  lemma KeepFirstHoldsAll<T>(s: seq<T>, t: seq<T>)
    requires forall i :: 0 <= i < |t| ==> t[i] in s
    ensures forall i :: 0 <= i < |t| ==> t[i] in KeepFirst(s)
  {
    var r := KeepFirst(s);
    forall i | 0 <= i < |t|
      ensures t[i] in r
    {
      var k :| 0 <= k < |s| && s[k] == t[i];
      assert s[k] in r;
    }
  }

  /** Two duplicate-free sequences over the same values, both ordered by
      first occurrence in `s`, are equal. */
  lemma {:induction false} OrderedDistinctEqual<T>(s: seq<T>, t: seq<T>, u: seq<T>)
    requires forall i :: 0 <= i < |t| ==> t[i] in u
    requires forall i :: 0 <= i < |u| ==> u[i] in t
    requires Distinct(t) && Distinct(u)
    requires InFirstOccurrenceOrder(s, t) && InFirstOccurrenceOrder(s, u)
    ensures t == u
    decreases |t|
  {
    if |t| == 0 {
      if |u| > 0 {
        assert false;
      }
    } else {
      assert |u| > 0 by {
        assert t[0] in u;
      }
      SameHead(s, t, u);
      SameTailValues(t, u);
      TailInOrder(s, t);
      TailInOrder(s, u);
      OrderedDistinctEqual(s, t[1..], u[1..]);
      assert t == [t[0]] + t[1..] && u == [u[0]] + u[1..];
    }
  }

  /** Dropping the head keeps order and distinctness. */
  lemma TailInOrder<T>(s: seq<T>, t: seq<T>)
    requires |t| > 0 && Distinct(t) && InFirstOccurrenceOrder(s, t)
    ensures Distinct(t[1..]) && InFirstOccurrenceOrder(s, t[1..])
  {
    var t' := t[1..];
    forall i | 0 <= i < |t'|
      ensures t'[i] in s
    {
      assert t'[i] == t[i + 1];
    }
    forall i, j | 0 <= i < j < |t'|
      ensures t'[i] != t'[j] && FirstIndex(s, t'[i]) < FirstIndex(s, t'[j])
    {
      assert t'[i] == t[i + 1] && t'[j] == t[j + 1];
    }
  }

  /** The head of an ordered sequence is its value of least first occurrence,
      so two such sequences over the same values start alike. */
  lemma SameHead<T>(s: seq<T>, t: seq<T>, u: seq<T>)
    requires |t| > 0 && |u| > 0
    requires forall i :: 0 <= i < |t| ==> t[i] in u
    requires forall i :: 0 <= i < |u| ==> u[i] in t
    requires InFirstOccurrenceOrder(s, t) && InFirstOccurrenceOrder(s, u)
    ensures t[0] == u[0]
  {
    var i :| 0 <= i < |t| && t[i] == u[0];
    var j :| 0 <= j < |u| && u[j] == t[0];
    if i != 0 && j != 0 {
      assert false;
    }
  }

  /** Dropping a common head from two duplicate-free sequences over the same
      values leaves two sequences over the same values. */
  lemma SameTailValues<T>(t: seq<T>, u: seq<T>)
    requires |t| > 0 && |u| > 0 && t[0] == u[0]
    requires forall i :: 0 <= i < |t| ==> t[i] in u
    requires forall i :: 0 <= i < |u| ==> u[i] in t
    requires Distinct(t) && Distinct(u)
    ensures forall i :: 0 <= i < |t| - 1 ==> t[1..][i] in u[1..]
    ensures forall i :: 0 <= i < |u| - 1 ==> u[1..][i] in t[1..]
  {
    forall i | 0 <= i < |t| - 1
      ensures t[1..][i] in u[1..]
    {
      var x := t[i + 1];
      assert x != t[0];
      var j :| 0 <= j < |u| && u[j] == x;
      assert u[1..][j - 1] == x;
    }
    forall i | 0 <= i < |u| - 1
      ensures u[1..][i] in t[1..]
    {
      var x := u[i + 1];
      assert x != u[0];
      var j :| 0 <= j < |t| && t[j] == x;
      assert t[1..][j - 1] == x;
    }
  }

  /** Two duplicate-free sequences with no value in common concatenate to a
      duplicate-free sequence. */
  lemma DistinctAppend<T>(a: seq<T>, b: seq<T>)
    requires Distinct(a) && Distinct(b)
    requires forall i, j :: 0 <= i < |a| && 0 <= j < |b| ==> a[i] != b[j]
    ensures Distinct(a + b)
  {
    var r := a + b;
    forall i, j | 0 <= i < j < |r|
      ensures r[i] != r[j]
    {
      if j < |a| {
        assert r[i] == a[i] && r[j] == a[j];
      } else if i >= |a| {
        assert r[i] == b[i - |a|] && r[j] == b[j - |a|];
      } else {
        assert r[i] == a[i] && r[j] == b[j - |a|];
      }
    }
  }

  /** One more element of the input either repeats an earlier one and is
      dropped, or is new and kept at the end. */
  lemma KeepFirstStep<T>(s: seq<T>, i: nat)
    requires i < |s|
    ensures s[i] in s[..i] ==> KeepFirst(s[..i + 1]) == KeepFirst(s[..i])
    ensures s[i] !in s[..i] ==> KeepFirst(s[..i + 1]) == KeepFirst(s[..i]) + [s[i]]
  {
    assert s[..i + 1][..i] == s[..i];
  }

  /** The values among the first `i` elements, as a set. */
  function ValuesBefore<T>(s: seq<T>, i: nat): set<T>
    requires i <= |s|
  {
    set j | 0 <= j < i :: s[j]
  }

  /** One more element adds its value to the values seen so far, and it was
      seen already exactly when it occurs earlier. */
  lemma ValuesBeforeStep<T>(s: seq<T>, i: nat)
    requires i < |s|
    ensures s[i] in ValuesBefore(s, i) <==> s[i] in s[..i]
    ensures ValuesBefore(s, i + 1) == ValuesBefore(s, i) + {s[i]}
  {
  }

  /** One iteration of the scan keeps its two invariants. */
  lemma ScanStep<T>(s: seq<T>, i: nat, r: seq<T>, seen: set<T>)
    requires i < |s| && r == KeepFirst(s[..i]) && seen == ValuesBefore(s, i)
    ensures s[i] in seen ==> r == KeepFirst(s[..i + 1]) && seen == ValuesBefore(s, i + 1)
    ensures s[i] !in seen ==> r + [s[i]] == KeepFirst(s[..i + 1]) && seen + {s[i]} == ValuesBefore(s, i + 1)
  {
    KeepFirstStep(s, i);
    ValuesBeforeStep(s, i);
  }

  /** A one-pass formulation of keep-first de-duplication: a single scan
      with a set of the rows already seen. */
  method DropDuplicates<T(==)>(s: seq<T>) returns (r: seq<T>)
    ensures r == KeepFirst(s)
  {
    r := [];
    var seen: set<T> := {};
    var i := 0;
    while i < |s|
      invariant 0 <= i <= |s|
      invariant r == KeepFirst(s[..i])
      invariant seen == ValuesBefore(s, i)
    {
      ScanStep(s, i, r, seen);
      if s[i] !in seen {
        r := r + [s[i]];
        seen := seen + {s[i]};
      }
      i := i + 1;
    }
    assert s[..|s|] == s;
  }
}
