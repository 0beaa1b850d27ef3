/** The library calls on text that the modelled recognisers are written with: finding,
    counting, splitting and joining.  Only what the recognisers use is here. */
module Strings {

  /** The index of the first `c` in `s`, or -1. */
  function Find(s: string, c: char): (i: int)
    ensures -1 <= i < |s|
    ensures i == -1 <==> c !in s
    ensures i >= 0 ==> s[i] == c && c !in s[..i]
  {
    if s == "" then -1
    else if s[0] == c then 0
    else
      var i := Find(s[1..], c);
      if i < 0 then
        assert s == [s[0]] + s[1..];
        -1
      else
        assert s[..i + 1] == [s[0]] + s[1..][..i];
        i + 1
  }

  /** The index of the last `c` in `s`, or -1. */
  function FindLast(s: string, c: char): (i: int)
    ensures -1 <= i < |s|
    ensures i == -1 <==> c !in s
    ensures i >= 0 ==> s[i] == c && c !in s[i + 1..]
  {
    if s == "" then -1
    else
      assert s == s[..|s| - 1] + [s[|s| - 1]];
      if s[|s| - 1] == c then |s| - 1
      else
        var i := FindLast(s[..|s| - 1], c);
        assert i >= 0 ==> s[i + 1..] == s[..|s| - 1][i + 1..] + [s[|s| - 1]];
        i
  }

  /** How often `c` occurs in `s`. */
  function Count(s: string, c: char): nat {
    multiset(s)[c]
  }

  /** `a` holds no `c`, so the first `c` of `a + c + b` is the one written. */
  lemma {:induction false} FindAt(a: string, c: char, b: string)
    requires c !in a
    ensures Find(a + [c] + b, c) == |a|
  {
    if a != "" {
      assert (a + [c] + b)[1..] == a[1..] + [c] + b;
      FindAt(a[1..], c, b);
    }
  }

  /** Cutting `v` at the first `c` gives back the two sides. */
  lemma CutFound(v: string, a: string, c: char, b: string)
    requires c !in a && v == a + [c] + b
    ensures Find(v, c) == |a| && v[..|a|] == a && v[|a| + 1..] == b
  {
    FindAt(a, c, b);
  }

  lemma {:induction false} FindLastAt(a: string, c: char, b: string)
    requires c !in b
    ensures FindLast(a + [c] + b, c) == |a|
    decreases |b|
  {
    var s := a + [c] + b;
    if b == "" {
      assert s[|s| - 1] == c;
    } else {
      var b' := b[..|b| - 1];
      assert s[|s| - 1] == b[|b| - 1];
      assert s[..|s| - 1] == a + [c] + b';
      FindLastAt(a, c, b');
    }
  }

  lemma CutAt(s: string, i: nat)
    requires i < |s|
    ensures s == s[..i] + [s[i]] + s[i + 1..]
  {}

  /** At most one `c`, exactly when the text after the first `c` holds none. */
  lemma CountAtMostOne(s: string, c: char)
    ensures Count(s, c) == 0 <==> c !in s
    ensures c in s ==> (Count(s, c) <= 1 <==> c !in s[Find(s, c) + 1..])
    ensures Count(s, c) <= 1 && c in s ==> FindLast(s, c) == Find(s, c)
  {
    if c in s {
      var i := Find(s, c);
      CutAt(s, i);
      assert multiset(s) == multiset(s[..i]) + multiset{c} + multiset(s[i + 1..]);
      if c !in s[i + 1..] {
        FindLastAt(s[..i], c, s[i + 1..]);
      }
    }
  }

  /** The parts of `s` between its `c`s; always at least one part. */
  function Split(s: string, c: char): (parts: seq<string>)
    ensures parts != []
    ensures forall p <- parts :: c !in p
    decreases |s|
  {
    var i := Find(s, c);
    if i < 0 then [s] else [s[..i]] + Split(s[i + 1..], c)
  }

  /** The parts with one `c` between neighbours. */
  function Join(parts: seq<string>, c: char): string {
    if parts == [] then ""
    else if |parts| == 1 then parts[0]
    else parts[0] + [c] + Join(parts[1..], c)
  }

  /** Splitting undoes joining. */
  lemma {:induction false} SplitJoin(parts: seq<string>, c: char)
    requires parts != [] && forall p <- parts :: c !in p
    ensures Split(Join(parts, c), c) == parts
    decreases |parts|
  {
    if |parts| == 1 {
      assert c !in parts[0];
    } else {
      var rest := Join(parts[1..], c);
      FindAt(parts[0], c, rest);
      assert (parts[0] + [c] + rest)[|parts[0]| + 1..] == rest;
      assert (parts[0] + [c] + rest)[..|parts[0]|] == parts[0];
      SplitJoin(parts[1..], c);
    }
  }

  /** Joining undoes splitting. */
  lemma {:induction false} JoinSplit(s: string, c: char)
    ensures Join(Split(s, c), c) == s
    decreases |s|
  {
    var i := Find(s, c);
    if i >= 0 {
      JoinSplit(s[i + 1..], c);
      CutAt(s, i);
      assert ([s[..i]] + Split(s[i + 1..], c))[1..] == Split(s[i + 1..], c);
    }
  }

  /** The index of the first adjacent pair of `c`s, or -1. */
  function FindPair(s: string, c: char): (i: int)
    ensures -1 <= i
    ensures i >= 0 ==> i + 1 < |s| && s[i] == c && s[i + 1] == c
    ensures i >= 0 ==> forall j :: 0 <= j < i ==> !(s[j] == c && s[j + 1] == c)
    ensures i < 0 ==> forall j :: 0 <= j < |s| - 1 ==> !(s[j] == c && s[j + 1] == c)
  {
    if |s| < 2 then -1
    else if s[0] == c && s[1] == c then 0
    else
      var i := FindPair(s[1..], c);
      assert forall j :: 0 < j < |s| - 1 ==> s[j] == s[1..][j - 1] && s[j + 1] == s[1..][j];
      if i < 0 then -1 else i + 1
  }

  /** How many pairs of `c` are found by scanning left to right without overlap. */
  function CountPairs(s: string, c: char): nat
    decreases |s|
  {
    var i := FindPair(s, c);
    if i < 0 then 0 else 1 + CountPairs(s[i + 2..], c)
  }

  /** `a` neither holds a pair nor ends in `c`, so the first pair of `a + cc + b` is the one written. */
  lemma FindPairAt(a: string, c: char, b: string)
    requires FindPair(a, c) < 0 && (a == "" || a[|a| - 1] != c)
    ensures FindPair(a + [c, c] + b, c) == |a|
  {
    var s := a + [c, c] + b;
    assert s[|a|] == c && s[|a| + 1] == c;
    assert forall k :: 0 <= k < |a| ==> s[k] == a[k];
  }

  /** A part without `c`, a single `c`, and a text that neither holds a pair nor begins with `c`. */
  lemma {:induction false} NoPairAfterPart(part: string, c: char, rest: string)
    requires c !in part && part != "" && rest != "" && rest[0] != c && FindPair(rest, c) < 0
    ensures FindPair(part + [c] + rest, c) < 0
    decreases |part|
  {
    var s := part + [c] + rest;
    if |part| == 1 {
      assert s[1..] == [c] + rest;
      assert s[1..][1..] == rest;
      assert FindPair(s[1..], c) < 0;
    } else {
      assert s[1..] == part[1..] + [c] + rest;
      NoPairAfterPart(part[1..], c, rest);
    }
  }

  lemma {:induction false} NoPairWithout(s: string, c: char)
    requires c !in s
    ensures FindPair(s, c) < 0
  {
    if |s| >= 2 {
      NoPairWithout(s[1..], c);
    }
  }
}
