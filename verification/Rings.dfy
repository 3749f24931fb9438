/** Circular doubly linked lists as values: which node comes after and before which. */
module Rings {
  import opened Basics

  ghost predicate Linked<T>(next: map<T, T>, previous: map<T, T>, a: T, b: T) {
    a in next && b in previous && next[a] == b && previous[b] == a
  }

  /** The nodes are linked one after the other. */
  ghost predicate Links<T>(next: map<T, T>, previous: map<T, T>, r: seq<T>) {
    forall i {:trigger r[i]} :: 0 <= i < |r| - 1 ==> Linked(next, previous, r[i], r[i + 1])
  }

  ghost predicate Chain<T>(next: map<T, T>, previous: map<T, T>, r: seq<T>) {
    |r| > 0 && Distinct(r) && Links(next, previous, r)
  }

  /** A list whose sentinel is `r[0]`: the chain closes. */
  ghost predicate Ring<T>(next: map<T, T>, previous: map<T, T>, r: seq<T>) {
    Chain(next, previous, r) && Linked(next, previous, r[|r| - 1], r[0])
  }

  /** `c` inserted before the node at `j`; before the sentinel is the end of the list. */
  function Insertion<T>(r: seq<T>, j: nat, c: seq<T>): seq<T>
    requires j < |r|
  {
    if j == 0 then r + c else r[..j] + c + r[j..]
  }

  lemma InsertionWithin<T>(r: seq<T>, j: nat, c: seq<T>, s: set<T>)
    requires j < |r| && Elements(r) <= s && Elements(c) <= s
    ensures Elements(Insertion(r, j, c)) <= s
  {
    forall x | x in Insertion(r, j, c)
      ensures x in s
    {
      assert x in r || x in c;
      assert x in Elements(r) || x in Elements(c);
    }
  }

  function Without<T>(r: seq<T>, a: nat, b: nat): seq<T>
    requires a <= b < |r|
  {
    r[..a] + r[b + 1..]
  }

  ghost predicate Apart<T>(r: seq<T>, s: seq<T>) {
    forall x :: x in r ==> x !in s
  }

  lemma InsertionDistinct<T>(r: seq<T>, j: nat, c: seq<T>)
    requires Distinct(r) && Distinct(c) && j < |r| && Apart(c, r)
    ensures Distinct(Insertion(r, j, c))
  {
    assert forall i :: 0 <= i < |c| ==> c[i] in c;
    assert forall i :: 0 <= i < |r| ==> r[i] in r;
  }

  /** No node is lost or duplicated by an insertion, nor by a removal. */
  lemma InsertionConserves<T>(r: seq<T>, j: nat, c: seq<T>)
    requires j < |r|
    ensures multiset(Insertion(r, j, c)) == multiset(r) + multiset(c)
  {
    assert r == r[..j] + r[j..];
  }

  lemma WithoutConserves<T>(r: seq<T>, a: nat, b: nat)
    requires a <= b < |r|
    ensures multiset(Without(r, a, b)) + multiset(r[a..b + 1]) == multiset(r)
  {
    assert r == r[..a] + r[a..b + 1] + r[b + 1..];
  }

  lemma LinksJoin<T>(next: map<T, T>, previous: map<T, T>, a: seq<T>, b: seq<T>)
    requires Links(next, previous, a) && Links(next, previous, b)
    requires a != [] && b != [] ==> Linked(next, previous, a[|a| - 1], b[0])
    ensures Links(next, previous, a + b)
  {
    var n := a + b;
    forall i | 0 <= i < |n| - 1
      ensures Linked(next, previous, n[i], n[i + 1])
    {
      assert i < |a| - 1 ==> Linked(next, previous, a[i], a[i + 1]);
      assert i >= |a| ==> Linked(next, previous, b[i - |a|], b[i - |a| + 1]);
    }
  }

  /** `m'` is `m` except at the keys in `s`. */
  ghost predicate SameBut<T>(m: map<T, T>, m': map<T, T>, s: set<T>) {
    forall x :: x in m && x !in s ==> x in m' && m'[x] == m[x]
  }

  /** Relinking at the outer ends of a part of a chain keeps the part. */
  lemma PartKept<T>(next: map<T, T>, previous: map<T, T>, next': map<T, T>, previous': map<T, T>, s: set<T>, t: set<T>,
                          r: seq<T>, i: nat, j: nat)
    requires i <= j <= |r| && Links(next, previous, r)
    requires SameBut(next, next', s) && SameBut(previous, previous', t)
    requires forall k {:trigger r[k]} :: i <= k < j - 1 ==> r[k] !in s
    requires forall k {:trigger r[k]} :: i < k < j ==> r[k] !in t
    ensures Links(next', previous', r[i..j])
  {
    var p := r[i..j];
    forall k | 0 <= k < |p| - 1
      ensures Linked(next', previous', p[k], p[k + 1])
    {
      assert Linked(next, previous, r[i + k], r[i + k + 1]);
    }
  }

  /** A node occurs nowhere else in a list. */
  lemma OnlyAt<T>(r: seq<T>, i: nat)
    requires Distinct(r) && i < |r|
    ensures forall k {:trigger r[k]} :: 0 <= k < |r| && k != i ==> r[k] != r[i]
  {
  }

  /** The node after position `i`, around the ring. */
  function Succ<T>(r: seq<T>, i: nat): T
    requires i < |r|
  {
    if i + 1 < |r| then r[i + 1] else r[0]
  }

  function Pred<T>(r: seq<T>, i: nat): T
    requires i < |r|
  {
    if i > 0 then r[i - 1] else r[|r| - 1]
  }

  lemma RingNeighbours<T>(next: map<T, T>, previous: map<T, T>, r: seq<T>, i: nat)
    requires Ring(next, previous, r) && i < |r|
    ensures r[i] in next && next[r[i]] == Succ(r, i)
    ensures r[i] in previous && previous[r[i]] == Pred(r, i)
  {
    assert i > 0 ==> Linked(next, previous, r[i - 1], r[i]);
  }

  /** A part of a ring keeps its links when only the link from `x` on and the link back
      from `y` are written, and neither lies inside the part. */
  lemma PartOfRingKept<T>(next: map<T, T>, previous: map<T, T>, next': map<T, T>, previous': map<T, T>, s: set<T>,
                          t: set<T>,
                                r: seq<T>, x: nat, y: nat, i: nat, j: nat)
    requires Distinct(r) && Links(next, previous, r) && x < |r| && y < |r| && i <= j <= |r|
    requires SameBut(next, next', s) && SameBut(previous, previous', t)
    requires forall z :: z in r && z in s ==> z == r[x]
    requires forall z :: z in r && z in t ==> z == r[y]
    requires !(i <= x < j - 1) && !(i < y < j)
    ensures Links(next', previous', r[i..j])
  {
    OnlyAt(r, x);
    OnlyAt(r, y);
    hide Links, Distinct, SameBut;
    assert forall k {:trigger r[k]} :: 0 <= k < |r| ==> r[k] in r;
    PartKept(next, previous, next', previous', s, t, r, i, j);
  }

  lemma UnlinkedChain<T>(next: map<T, T>, previous: map<T, T>, r: seq<T>, a: nat, b: nat, next': map<T, T>,
                         previous': map<T, T>)
    requires 0 < a <= b < |r| && Ring(next, previous, r)
    requires next' == next[r[a - 1] := Succ(r, b)] && previous' == previous[Succ(r, b) := r[a - 1]]
    ensures Chain(next', previous', r[a..b + 1])
  {
    var x, y := a - 1, if b + 1 < |r| then b + 1 else 0;
    hide Links, Linked;
    PartOfRingKept(next, previous, next', previous', {r[x]}, {r[y]}, r, x, y, a, b + 1);
  }

  /** Unlinking the nodes from `a` to `b` leaves a ring, and they stay a chain. */
  lemma UnlinkedRing<T>(next: map<T, T>, previous: map<T, T>, r: seq<T>, a: nat, b: nat)
    requires Ring(next, previous, r) && 0 < a <= b < |r|
    ensures r[b] in next && r[a] in previous
    ensures var next', previous' := next[previous[r[a]] := next[r[b]]], previous[next[r[b]] := previous[r[a]]];
            Ring(next', previous', Without(r, a, b)) && Chain(next', previous', r[a..b + 1])
  {
    hide Ring, Chain;
    RingNeighbours(next, previous, r, a);
    RingNeighbours(next, previous, r, b);
    var next', previous' := next[r[a - 1] := Succ(r, b)], previous[Succ(r, b) := r[a - 1]];
    UnlinkedChain(next, previous, r, a, b, next', previous');
    WithoutRing(next, previous, r, a, b, next', previous');
  }

  lemma WithoutRing<T>(next: map<T, T>, previous: map<T, T>, r: seq<T>, a: nat, b: nat, next': map<T, T>,
                       previous': map<T, T>)
    requires 0 < a <= b < |r| && Ring(next, previous, r)
    requires next' == next[r[a - 1] := Succ(r, b)] && previous' == previous[Succ(r, b) := r[a - 1]]
    ensures Ring(next', previous', Without(r, a, b))
  {
    WithoutDistinct(r, a, b);
    WithoutLinks(next, previous, r, a, b, next', previous');
    WithoutCloses(next, previous, r, a, b, next', previous');
  }

  lemma WithoutLinks<T>(next: map<T, T>, previous: map<T, T>, r: seq<T>, a: nat, b: nat, next': map<T, T>,
                        previous': map<T, T>)
    requires 0 < a <= b < |r| && Distinct(r) && Links(next, previous, r)
    requires next' == next[r[a - 1] := Succ(r, b)] && previous' == previous[Succ(r, b) := r[a - 1]]
    ensures Links(next', previous', Without(r, a, b))
  {
    var x, y := a - 1, if b + 1 < |r| then b + 1 else 0;
    assert Linked(next', previous', r[a - 1], Succ(r, b));
    hide Links, Distinct, Linked;
    PartOfRingKept(next, previous, next', previous', {r[x]}, {r[y]}, r, x, y, 0, a);
    PartOfRingKept(next, previous, next', previous', {r[x]}, {r[y]}, r, x, y, b + 1, |r|);
    LinksJoin(next', previous', r[0..a], r[b + 1..|r|]);
    assert r[0..a] + r[b + 1..|r|] == Without(r, a, b);
  }

  lemma WithoutCloses<T>(next: map<T, T>, previous: map<T, T>, r: seq<T>, a: nat, b: nat, next': map<T, T>,
                         previous': map<T, T>)
    requires 0 < a <= b < |r| && Ring(next, previous, r)
    requires next' == next[r[a - 1] := Succ(r, b)] && previous' == previous[Succ(r, b) := r[a - 1]]
    ensures var n := Without(r, a, b); Linked(next', previous', n[|n| - 1], n[0])
  {
    hide Links;
    if b + 1 < |r| {
      LastNotBefore(r, a - 1);
      LastNotBefore(r, b);
    }
  }

  lemma LastNotBefore<T>(r: seq<T>, i: nat)
    requires i < |r|
    ensures Distinct(r) && i + 1 < |r| ==> r[|r| - 1] != r[i] && r[i + 1] != r[0]
  {
  }

  lemma WithoutDistinct<T>(r: seq<T>, a: nat, b: nat)
    requires Distinct(r) && a <= b < |r|
    ensures Distinct(Without(r, a, b))
  {
  }

  lemma SingleChain<T>(next: map<T, T>, previous: map<T, T>, x: T)
    ensures Chain(next, previous, [x])
  {
  }

  /** The links determine the list: from a sentinel there is only one ring. */
  lemma RingIsDetermined<T>(next: map<T, T>, previous: map<T, T>, r: seq<T>, r': seq<T>)
    requires Ring(next, previous, r) && Ring(next, previous, r') && r[0] == r'[0]
    ensures r == r'
  {
    hide Links, Linked;
    var n := if |r| < |r'| then |r| else |r'|;
    PrefixIsDetermined(next, previous, r, r', n);
    assert r[n - 1] == r[..n][n - 1] == r'[..n][n - 1];
    RingNeighbours(next, previous, r, n - 1);
    RingNeighbours(next, previous, r', n - 1);
  }

  lemma {:induction false} PrefixIsDetermined<T>(next: map<T, T>, previous: map<T, T>, r: seq<T>, r': seq<T>, n: nat)
    requires Ring(next, previous, r) && Ring(next, previous, r') && r[0] == r'[0] && n <= |r| && n <= |r'|
    ensures r[..n] == r'[..n]
  {
    hide Ring;
    if n > 1 {
      PrefixIsDetermined(next, previous, r, r', n - 1);
      RingNeighbours(next, previous, r, n - 2);
      RingNeighbours(next, previous, r', n - 2);
      assert r[n - 2] == r[..n - 1][n - 2] == r'[..n - 1][n - 2];
    }
  }

  // Splicing

  /** The maps after the four writes that link `c` in before position `j`. */
  ghost predicate Spliced<T>(next: map<T, T>, previous: map<T, T>, r: seq<T>, j: nat, c: seq<T>, next': map<T, T>,
                             previous': map<T, T>)
    requires j < |r| && |c| > 0
  {
    && next' == next[c[|c| - 1] := r[j]][Pred(r, j) := c[0]]
    && previous' == previous[c[0] := Pred(r, j)][r[j] := c[|c| - 1]]
  }

  lemma SplicedChain<T>(next: map<T, T>, previous: map<T, T>, r: seq<T>, j: nat, c: seq<T>, next': map<T, T>,
                        previous': map<T, T>)
    requires Chain(next, previous, c) && Apart(c, r) && j < |r| && Spliced(next, previous, r, j, c, next', previous')
    ensures Links(next', previous', c)
  {
    assert Pred(r, j) in r && r[j] in r;
    hide Links, Linked, Distinct;
    PartOfRingKept(next, previous, next', previous', {c[|c| - 1], Pred(r, j)}, {c[0], r[j]}, c, |c| - 1, 0, 0, |c|);
    assert c[0..|c|] == c;
  }

  lemma SplicedPart<T>(next: map<T, T>, previous: map<T, T>, r: seq<T>, j: nat, c: seq<T>, next': map<T, T>,
                       previous': map<T, T>, a: nat, b: nat)
    requires Ring(next, previous, r) && |c| > 0 && Apart(c, r) && j < |r|
             && Spliced(next, previous, r, j, c, next', previous')
    requires (a == 0 && b == j) || (a == j && b == |r|)
    ensures Links(next', previous', r[a..b])
  {
    assert c[0] in c && c[|c| - 1] in c;
    var x := if j > 0 then j - 1 else |r| - 1;
    hide Links, Linked, Distinct;
    PartOfRingKept(next, previous, next', previous', {c[|c| - 1], Pred(r, j)}, {c[0], r[j]}, r, x, j, a, b);
  }

  lemma SplicedEnds<T>(next: map<T, T>, previous: map<T, T>, r: seq<T>, j: nat, c: seq<T>, next': map<T, T>,
                       previous': map<T, T>)
    requires Ring(next, previous, r) && |c| > 0 && Apart(c, r) && j < |r|
             && Spliced(next, previous, r, j, c, next', previous')
    ensures Linked(next', previous', Pred(r, j), c[0]) && Linked(next', previous', c[|c| - 1], r[j])
    ensures j > 0 ==> Linked(next', previous', r[|r| - 1], r[0])
  {
    assert c[0] in c && c[|c| - 1] in c && Pred(r, j) in r && r[j] in r && r[0] in r && r[|r| - 1] in r;
    if j > 0 {
      LastNotBefore(r, j - 1);
    }
  }

  /** Linking a chain in before the node at `j` makes a ring of both. */
  lemma SplicedRing<T>(next: map<T, T>, previous: map<T, T>, r: seq<T>, j: nat, c: seq<T>)
    requires Ring(next, previous, r) && Chain(next, previous, c) && Apart(c, r) && j < |r|
    ensures r[j] in previous
    ensures var before, first, last := previous[r[j]], c[0], c[|c| - 1];
            var next', previous' := next[last := r[j]][before := first], previous[first := before][r[j] := last];
            Ring(next', previous', Insertion(r, j, c))
  {
    RingNeighbours(next, previous, r, j);
    var next' := next[c[|c| - 1] := r[j]][Pred(r, j) := c[0]];
    var previous' := previous[c[0] := Pred(r, j)][r[j] := c[|c| - 1]];
    InsertionDistinct(r, j, c);
    SplicedJoined(next, previous, r, j, c, next', previous');
  }

  lemma InsertionEnds<T>(r: seq<T>, j: nat, c: seq<T>)
    requires j < |r| && |c| > 0
    ensures var n := Insertion(r, j, c); n[0] == r[0] && n[|n| - 1] == if j == 0 then c[|c| - 1] else r[|r| - 1]
  {
  }

  lemma SplicedLinks<T>(next: map<T, T>, previous: map<T, T>, r: seq<T>, j: nat, c: seq<T>, next': map<T, T>,
                        previous': map<T, T>)
    requires Ring(next, previous, r) && Chain(next, previous, c) && Apart(c, r) && j < |r|
             && Spliced(next, previous, r, j, c, next', previous')
    ensures Links(next', previous', Insertion(r, j, c))
  {
    SplicedChain(next, previous, r, j, c, next', previous');
    SplicedPart(next, previous, r, j, c, next', previous', 0, j);
    SplicedPart(next, previous, r, j, c, next', previous', j, |r|);
    SplicedEnds(next, previous, r, j, c, next', previous');
    hide Links, Linked, Distinct, Apart, Spliced;
    if j == 0 {
      assert r[0..|r|] == r;
      LinksJoin(next', previous', r, c);
    } else {
      LinksJoin(next', previous', r[0..j], c);
      LinksJoin(next', previous', r[0..j] + c, r[j..|r|]);
      assert r[0..j] + c + r[j..|r|] == Insertion(r, j, c);
    }
  }

  lemma SplicedJoined<T>(next: map<T, T>, previous: map<T, T>, r: seq<T>, j: nat, c: seq<T>, next': map<T, T>,
                         previous': map<T, T>)
    requires Ring(next, previous, r) && Chain(next, previous, c) && Apart(c, r) && j < |r|
             && Spliced(next, previous, r, j, c, next', previous')
    ensures var n := Insertion(r, j, c); Links(next', previous', n) && Linked(next', previous', n[|n| - 1], n[0])
  {
    SplicedLinks(next, previous, r, j, c, next', previous');
    SplicedEnds(next, previous, r, j, c, next', previous');
    InsertionEnds(r, j, c);
    hide Links, Linked, Distinct, Apart, Spliced, Insertion;
  }

  /** A node of a list with a sentinel is not its own neighbour, and neither end of a part
      without the sentinel is the node before or after the part. */
  lemma NeighbourIsOther<T>(next: map<T, T>, previous: map<T, T>, r: seq<T>, j: nat)
    requires Ring(next, previous, r) && 0 < j < |r|
    ensures Pred(r, j) != r[j] && Succ(r, j) != r[j]
  {
  }

  /** A ring none of whose nodes is written stays a ring. */
  lemma RingKept<T>(next: map<T, T>, previous: map<T, T>, next': map<T, T>, previous': map<T, T>, s: set<T>, r: seq<T>)
    requires Ring(next, previous, r) && SameBut(next, next', s) && SameBut(previous, previous', s)
    requires forall x :: x in r ==> x !in s
    ensures Ring(next', previous', r)
  {
    forall i | 0 <= i < |r| - 1
      ensures Linked(next', previous', r[i], r[i + 1])
    {
      assert Linked(next, previous, r[i], r[i + 1]);
    }
    assert r[0] in r && r[|r| - 1] in r;
  }

  /** After unlinking, the list moved to is still a ring, and apart from the part moved. */
  lemma UnlinkedTarget<T>(next: map<T, T>, previous: map<T, T>, r: seq<T>, a: nat, b: nat, target: seq<T>)
    requires Ring(next, previous, r) && 0 < a <= b < |r|
    requires target == Without(r, a, b) || (Ring(next, previous, target) && Apart(r, target))
    ensures var next', previous' := next[Pred(r, a) := Succ(r, b)], previous[Succ(r, b) := Pred(r, a)];
            Ring(next', previous', target) && Apart(r[a..b + 1], target)
  {
    var next', previous' := next[Pred(r, a) := Succ(r, b)], previous[Succ(r, b) := Pred(r, a)];
    if target == Without(r, a, b) {
      UnlinkedRing(next, previous, r, a, b);
      RingNeighbours(next, previous, r, a);
      RingNeighbours(next, previous, r, b);
      PartApart(r, a, b);
    } else {
      assert Pred(r, a) in r && Succ(r, b) in r;
      hide Ring;
      RingKept(next, previous, next', previous', {Pred(r, a), Succ(r, b)}, target);
    }
  }

  lemma PartApart<T>(r: seq<T>, a: nat, b: nat)
    requires Distinct(r) && a <= b < |r|
    ensures Apart(r[a..b + 1], Without(r, a, b))
  {
    var part, rest := r[a..b + 1], Without(r, a, b);
    forall x | x in part
      ensures x !in rest
    {
      var i :| 0 <= i < |part| && part[i] == x;
      assert forall k :: 0 <= k < |rest| ==>
          rest[k] == (if k < a then r[k] else r[k + (b + 1 - a)]) && rest[k] != r[a + i];
    }
  }

  lemma RingIsDistinct<T>(next: map<T, T>, previous: map<T, T>, r: seq<T>)
    ensures Ring(next, previous, r) ==> Distinct(r)
  {
  }

  /** Linking the part into another list leaves the rest of its own alone. */
  lemma SplicedRest<T>(next: map<T, T>, previous: map<T, T>, r: seq<T>, a: nat, b: nat, target: seq<T>, j: nat)
    requires 0 < a <= b < |r| && j < |target| && Distinct(r) && Ring(next, previous, Without(r, a, b))
    ensures Apart(r, target) ==>
        Ring(next[r[b] := target[j]][Pred(target, j) := r[a]], previous[r[a] := Pred(target, j)][target[j] := r[b]],
             Without(r, a, b))
  {
    if Apart(r, target) {
      var next' := next[r[b] := target[j]][Pred(target, j) := r[a]];
      var previous' := previous[r[a] := Pred(target, j)][target[j] := r[b]];
      PartApart(r, a, b);
      assert r[a..b + 1][0] == r[a] && r[a..b + 1][b - a] == r[b];
      assert target[j] in target && Pred(target, j) in target;
      assert forall x :: x in Without(r, a, b) ==> x in r;
      hide Ring;
      RingKept(next, previous, next', previous', {r[a], r[b], target[j], Pred(target, j)}, Without(r, a, b));
    }
  }

  /** After a move the part moved has joined the list moved to. */
  lemma MovedIntoTarget<T>(next0: map<T, T>, previous0: map<T, T>, next1: map<T, T>, previous1: map<T, T>,
                           r: seq<T>, a: nat, b: nat, target: seq<T>, j: nat)
    requires Ring(next0, previous0, r) && 0 < a <= b < |r| && j < |target|
    requires target == Without(r, a, b) || (Ring(next0, previous0, target) && Apart(r, target))
    requires next1 == next0[Pred(r, a) := Succ(r, b)] && previous1 == previous0[Succ(r, b) := Pred(r, a)]
    ensures Ring(next1[r[b] := target[j]][Pred(target, j) := r[a]],
                 previous1[r[a] := Pred(target, j)][target[j] := r[b]],
                 Insertion(target, j, r[a..b + 1]))
  {
    hide Ring, Chain, Links, Linked, Distinct, Apart, Without, Insertion;
    RingNeighbours(next0, previous0, r, a);
    RingNeighbours(next0, previous0, r, b);
    UnlinkedRing(next0, previous0, r, a, b);
    UnlinkedTarget(next0, previous0, r, a, b, target);
    RingNeighbours(next1, previous1, target, j);
    SplicedRing(next1, previous1, target, j, r[a..b + 1]);
  }

  /** After a move to another list the rest of the list moved from is a list. */
  lemma MovedOutOfRest<T>(next0: map<T, T>, previous0: map<T, T>, next1: map<T, T>, previous1: map<T, T>,
                          r: seq<T>, a: nat, b: nat, target: seq<T>, j: nat)
    requires Ring(next0, previous0, r) && 0 < a <= b < |r| && j < |target|
    requires next1 == next0[Pred(r, a) := Succ(r, b)] && previous1 == previous0[Succ(r, b) := Pred(r, a)]
    ensures Apart(r, target) ==>
        Ring(next1[r[b] := target[j]][Pred(target, j) := r[a]], previous1[r[a] := Pred(target, j)][target[j] := r[b]],
             Without(r, a, b))
  {
    hide Ring, Chain, Links, Linked, Distinct, Apart, Without, Insertion;
    RingNeighbours(next0, previous0, r, a);
    RingNeighbours(next0, previous0, r, b);
    UnlinkedRing(next0, previous0, r, a, b);
    RingIsDistinct(next0, previous0, r);
    SplicedRest(next1, previous1, r, a, b, target, j);
  }

  /** Moving a part within a list only reorders it; moving it to another conserves the two
      lists' nodes together. */
  lemma MoveConserves<T>(r: seq<T>, a: nat, b: nat, target: seq<T>, j: nat)
    requires a <= b < |r| && j < |target|
    ensures target == Without(r, a, b) ==> multiset(Insertion(target, j, r[a..b + 1])) == multiset(r)
    ensures multiset(Insertion(target, j, r[a..b + 1])) + multiset(Without(r, a, b)) == multiset(target) + multiset(r)
  {
    InsertionConserves(target, j, r[a..b + 1]);
    WithoutConserves(r, a, b);
  }
}
