/** Small notions that several of the models share. */
module Basics {

  function Min(a: nat, b: nat): nat {
    if a <= b then a else b
  }

  function Max(a: nat, b: nat): nat {
    if a >= b then a else b
  }

  function Abs(v: int): nat {
    if v < 0 then -v else v
  }

  /** The numbers from here on are no signed numbers of 32 bits. */
  const INT_LIMIT: int := 0x8000_0000

  /** Division as the languages of the programs have it. */
  function TruncatedDiv(x: int, d: nat): int
    requires d > 0
  {
    if x >= 0 then x / d else -((-x) / d)
  }

  ghost function Elements<T>(c: seq<T>): set<T> {
    set x | x in c
  }

  ghost predicate Distinct<T>(c: seq<T>) {
    forall i, j :: 0 <= i < j < |c| ==> c[i] != c[j]
  }

  lemma Appended<T>(x: seq<T>, s: seq<T>, a: nat, b: nat, c: nat)
    requires a <= b <= c <= |s|
    ensures x + s[a..b] + s[b..c] == x + s[a..c]
  {
  }

  lemma Regroup<T>(x: seq<T>, y: seq<T>, z: seq<T>)
    ensures x + y + z == x + (y + z)
  {
  }

  lemma SuffixesAgree<T>(a: seq<T>, b: seq<T>, i: nat, k: nat)
    requires i <= k <= |a| == |b| && a[i..] == b[i..]
    ensures a[k..] == b[k..]
  {
    assert a[i..][k - i..] == a[k..] && b[i..][k - i..] == b[k..];
  }

  /** `s` has `x` at position `at`. */
  ghost predicate Holds<T>(s: seq<T>, at: nat, x: seq<T>) {
    at + |x| <= |s| && s[at..at + |x|] == x
  }

  lemma HoldsInPrefix<T>(s: seq<T>, n: nat, before: seq<T>, x: seq<T>)
    requires n <= |s| && before + x <= s[..n]
    ensures Holds(s, |before|, x)
  {
    var both := before + x;
    assert both == s[..n][..|both|] == s[..|both|];
    assert both[|before|..] == x;
  }

  lemma HoldsAt<T>(s: seq<T>, at: nat, x: seq<T>, k: nat)
    requires Holds(s, at, x) && k < |x|
    ensures s[at + k] == x[k]
  {
    assert s[at..at + |x|][k] == s[at + k];
  }

  lemma HoldsParts<T>(s: seq<T>, at: nat, x: seq<T>, y: seq<T>)
    requires Holds(s, at, x + y)
    ensures Holds(s, at, x) && Holds(s, at + |x|, y)
  {
    var z := s[at..at + |x + y|];
    assert s[at..at + |x|] == z[..|x|];
    assert s[at + |x|..at + |x| + |y|] == z[|x|..];
  }
}
