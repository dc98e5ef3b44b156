/**
 The handful of Python string operations the dispense-row preparation relies on:
 `str.zfill`, splitting and joining on a one-character separator.
 Strings are `seq<char>`; no encoding or normalisation is involved.
 */
module PyStr {
  import opened Seqs

  /** `n` copies of the character '0'. */
  function Zeros(n: nat): (r: string)
    ensures |r| == n
    ensures forall i :: 0 <= i < n ==> r[i] == '0'
  {
    if n == 0 then "" else "0" + Zeros(n - 1)
  }

  predicate IsSign(c: char) {
    c == '+' || c == '-'
  }

  /** True when `s` starts with a '+' or '-' that `zfill` keeps in front. */
  predicate Signed(s: string) {
    |s| > 0 && IsSign(s[0])
  }

  /** Python's `str.zfill(width)`: a string shorter than `width` is padded on
      the left with '0' up to `width`; a leading sign stays in front of the
      padding. A string already `width` long or longer is returned as is. */
  function ZFill(s: string, width: int): (r: string)
    ensures |r| == if |s| >= width then |s| else width
    ensures |s| >= width ==> r == s
    // unsigned: the original is a suffix and everything before it is '0'
    ensures !Signed(s) ==> r[|r| - |s|..] == s
    ensures !Signed(s) ==> forall i :: 0 <= i < |r| - |s| ==> r[i] == '0'
    // signed: the sign stays first, the digits are a suffix, zeros in between
    ensures Signed(s) ==> r[0] == s[0] && r[|r| - |s| + 1..] == s[1..]
    ensures Signed(s) ==> forall i :: 1 <= i <= |r| - |s| ==> r[i] == '0'
    // no character is introduced except the padding '0'
    ensures forall i :: 0 <= i < |r| ==> r[i] == '0' || r[i] in s
  {
    if |s| >= width then s
    else
      var fill := Zeros(width - |s|);
      if Signed(s) then [s[0]] + fill + s[1..] else fill + s
  }

  /** Drops every leading '0': the reading of a digit string that padding
      cannot change. */
  function StripZeros(s: string): (r: string)
    ensures |r| <= |s|
    ensures |r| > 0 ==> r[0] != '0'
  {
    if |s| > 0 && s[0] == '0' then StripZeros(s[1..]) else s
  }

  /** What `StripZeros` drops is leading '0's and nothing else. */
  lemma {:induction false} StripZerosDropsZeros(s: string)
    ensures s == Zeros(|s| - |StripZeros(s)|) + StripZeros(s)
  {
    if |s| > 0 && s[0] == '0' {
      var r := StripZeros(s[1..]);
      StripZerosDropsZeros(s[1..]);
      var m := |s| - 1 - |r|;
      assert Zeros(m + 1) == "0" + Zeros(m);
      assert s == "0" + s[1..];
    } else {
      assert Zeros(0) + s == s;
    }
  }

  lemma {:induction false} StripZerosOfPadding(n: nat, s: string)
    ensures StripZeros(Zeros(n) + s) == StripZeros(s)
  {
    if n > 0 {
      var t := Zeros(n) + s;
      assert t == "0" + (Zeros(n - 1) + s);
      assert t[0] == '0' && t[1..] == Zeros(n - 1) + s;
      assert StripZeros(t) == StripZeros(t[1..]);
      StripZerosOfPadding(n - 1, s);
    } else {
      assert Zeros(n) + s == s;
    }
  }

  /** Padding an unsigned value never changes what it reads as once leading
      zeros are ignored: "7" and "0007" name the same visit number. */
  lemma ZFillKeepsValue(s: string, width: int)
    requires !Signed(s)
    ensures StripZeros(ZFill(s, width)) == StripZeros(s)
  {
    if |s| < width {
      StripZerosOfPadding(width - |s|, s);
    }
  }

  /** `zfill` is idempotent: a padded value is padded no further. */
  lemma ZFillIdempotent(s: string, width: int)
    ensures ZFill(ZFill(s, width), width) == ZFill(s, width)
  {
  }

  /** Python's `s.split(sep)` for a one-character separator: always at least
      one part, and no part holds the separator. */
  function Split(s: string, sep: char): (parts: seq<string>)
    ensures |parts| >= 1
    ensures forall i :: 0 <= i < |parts| ==> sep !in parts[i]
    decreases |s|
  {
    if sep !in s then [s]
    else
      var k := FirstIndex(s, sep);
      [s[..k]] + Split(s[k + 1..], sep)
  }

  /** Python's `sep.join(parts)`. */
  function Join(parts: seq<string>, sep: char): (s: string)
    requires |parts| >= 1
    ensures |parts| == 1 ==> s == parts[0]
  {
    if |parts| == 1 then parts[0] else parts[0] + [sep] + Join(parts[1..], sep)
  }

  /** Joining a part in front of at least one more part puts a separator
      between them. */
  lemma JoinCons(a: string, rest: seq<string>, sep: char)
    requires |rest| >= 1
    ensures Join([a] + rest, sep) == a + [sep] + Join(rest, sep)
  {
    assert ([a] + rest)[1..] == rest;
  }

  /** Joining three parts puts a separator between each neighbouring pair. */
  lemma JoinThree(parts: seq<string>, sep: char)
    requires |parts| == 3
    ensures Join(parts, sep) == parts[0] + [sep] + parts[1] + [sep] + parts[2]
  {
    assert parts[1..][1..] == [parts[2]];
  }

  /** Joining what was split gives back the original string. */
  lemma {:induction false} JoinSplit(s: string, sep: char)
    ensures Join(Split(s, sep), sep) == s
    decreases |s|
  {
    if sep in s {
      var k := FirstIndex(s, sep);
      JoinSplit(s[k + 1..], sep);
      JoinSplitStep(s, sep, k);
    }
  }

  /** The inductive step of `JoinSplit`: the first part, the separator, and
      the rest joined back. */
  lemma JoinSplitStep(s: string, sep: char, k: nat)
    requires sep in s && k == FirstIndex(s, sep)
    requires Join(Split(s[k + 1..], sep), sep) == s[k + 1..]
    ensures Join(Split(s, sep), sep) == s
  {
    SplitFirst(s, sep, k);
    JoinCons(s[..k], Split(s[k + 1..], sep), sep);
    assert s == s[..k] + [sep] + s[k + 1..];
  }

  /** Splitting what was joined gives back the parts, provided no part holds
      the separator. */
  lemma {:induction false} SplitJoin(parts: seq<string>, sep: char)
    requires |parts| >= 1
    requires forall i :: 0 <= i < |parts| ==> sep !in parts[i]
    ensures Split(Join(parts, sep), sep) == parts
  {
    if |parts| > 1 {
      var tail := Join(parts[1..], sep);
      SplitAround(parts[0], sep, tail);
      SplitJoin(parts[1..], sep);
      assert parts == [parts[0]] + parts[1..];
    }
  }

  /** A separator splits a string into the parts on its left followed by the
      parts on its right. */
  lemma {:induction false} SplitAround(a: string, sep: char, b: string)
    ensures Split(a + [sep] + b, sep) == Split(a, sep) + Split(b, sep)
    decreases |a|
  {
    if sep !in a {
      SplitAtFirst(a, sep, b);
      SplitNone(a, sep);
    } else {
      var k := FirstIndex(a, sep);
      var a' := a[k + 1..];
      SplitAroundStep(a, sep, b, k);
      SplitAround(a', sep, b);
      AppendAssoc([a[..k]], Split(a', sep), Split(b, sep));
    }
  }

  /** With no separator in `a`, the separator after it ends the first part. */
  lemma SplitAtFirst(a: string, sep: char, b: string)
    requires sep !in a
    ensures Split(a + [sep] + b, sep) == [a] + Split(b, sep)
  {
    var s := a + [sep] + b;
    assert s == a + ([sep] + b);
    FirstIndexPastPrefix(a, [sep] + b, sep);
    SplitFirst(s, sep, |a|);
    assert s[..|a|] == a;
    assert s[|a| + 1..] == b;
  }

  /** The first part of `a` is also the first part of `a + [sep] + b`, and
      what follows it splits as the rest of `a` followed by `b`. */
  lemma SplitAroundStep(a: string, sep: char, b: string, k: nat)
    requires sep in a && k == FirstIndex(a, sep)
    ensures Split(a + [sep] + b, sep) == [a[..k]] + Split(a[k + 1..] + [sep] + b, sep)
    ensures Split(a, sep) == [a[..k]] + Split(a[k + 1..], sep)
  {
    var s := a + [sep] + b;
    assert s[..|a|] == a;
    FirstIndexOfPrefix(s, |a|, sep);
    SplitFirst(s, sep, k);
    SplitFirst(a, sep, k);
    assert s[..k] == a[..k];
    assert s[k + 1..] == a[k + 1..] + [sep] + b;
  }

  /** A string without the separator is one part. */
  lemma SplitNone(s: string, sep: char)
    requires sep !in s
    ensures Split(s, sep) == [s]
  {
  }

  /** Two separator-free parts joined by the separator split back into
      those two parts. */
  lemma SplitTwo(a: string, b: string, sep: char)
    requires sep !in a && sep !in b
    ensures Split(a + [sep] + b, sep) == [a, b]
  {
    SplitAround(a, sep, b);
    SplitNone(a, sep);
    SplitNone(b, sep);
  }

  /** Three separator-free parts joined by the separator split back into
      those three parts. */
  lemma SplitThree(a: string, b: string, c: string, sep: char)
    requires sep !in a && sep !in b && sep !in c
    ensures Split(a + [sep] + b + [sep] + c, sep) == [a, b, c]
  {
    var m := b + [sep] + c;
    SplitTwo(b, c, sep);
    SplitAround(a, sep, m);
    SplitNone(a, sep);
    AppendAssoc(a + [sep], b + [sep], c);
    AppendAssoc(a + [sep], b, [sep]);
  }

  /** The first part ends at the first separator; the rest is split on. */
  lemma SplitFirst(s: string, sep: char, k: nat)
    requires sep in s && k == FirstIndex(s, sep)
    ensures Split(s, sep) == [s[..k]] + Split(s[k + 1..], sep)
  {
  }
}
