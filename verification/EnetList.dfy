/** ENet's intrusive circular list: nodes that carry their own links, and a sentinel. The
    operations get no list, only nodes; the ghost arguments say which ring those are in. */
module EnetList {
  import opened Basics
  import opened Rings

  class ListNode {
    var next: ListNode?
    var previous: ListNode?

    constructor () {
      next, previous := null, null;
    }

    method SetNext(node: ListNode?, ghost s: set<ListNode>)
      requires this in s
      modifies this`next
      ensures next == node
      ensures Nexts(s) == old(Nexts(s))[this := node] && Previouses(s) == old(Previouses(s))
    {
      next := node;
    }

    method SetPrevious(node: ListNode?, ghost s: set<ListNode>)
      requires this in s
      modifies this`previous
      ensures previous == node
      ensures Previouses(s) == old(Previouses(s))[this := node] && Nexts(s) == old(Nexts(s))
    {
      previous := node;
    }
  }

  type Node = ListNode?

  // What the nodes of `s` say comes after them, and before them

  ghost function Nexts(s: set<ListNode>): map<Node, Node>
    reads s`next
  {
    map x: Node | x in s :: (x as ListNode).next
  }

  ghost function Previouses(s: set<ListNode>): map<Node, Node>
    reads s`previous
  {
    map x: Node | x in s :: (x as ListNode).previous
  }

  lemma LinksOf(s: set<ListNode>)
    ensures forall x: ListNode :: x in s ==>
              x in Nexts(s) && Nexts(s)[x] == x.next && x in Previouses(s) && Previouses(s)[x] == x.previous
  {
  }

  /** The nodes of `r`, sentinel first, are a circular list in the heap. */
  ghost predicate IsRing(r: seq<ListNode>)
    reads r
  {
    Ring(Nexts(Elements(r)), Previouses(Elements(r)), r)
  }

  lemma {:induction false} WiderRing(r: seq<ListNode>, s: set<ListNode>)
    requires Elements(r) <= s
    ensures IsRing(r) == Ring(Nexts(s), Previouses(s), r)
  {
    assert forall i {:trigger r[i]} :: 0 <= i < |r| ==> r[i] in Elements(r);
    assert forall i :: 0 <= i < |r| - 1 ==>
        (Linked<Node>(Nexts(Elements(r)), Previouses(Elements(r)), r[i], r[i + 1])
         <==> Linked<Node>(Nexts(s), Previouses(s), r[i], r[i + 1]));
  }

  method Clear(sentinel: ListNode)
    modifies sentinel
    ensures IsRing([sentinel])
  {
    sentinel.next := sentinel;
    sentinel.previous := sentinel;
    assert sentinel in Elements([sentinel]);
  }

  method Insert(position: ListNode, data: ListNode, ghost r: seq<ListNode>, ghost j: nat) returns (result: ListNode)
    requires IsRing(r) && j < |r| && r[j] == position
    requires data !in r
    modifies r, data
    ensures result == data
    ensures IsRing(Insertion(r, j, [data]))
    ensures data.next == position && position.previous == data && data.previous == old(position.previous)
    ensures data.previous != null && data.previous.next == data
  {
    hide IsRing, Ring, Chain, Links, Linked, Distinct, Nexts, Previouses;
    ghost var s := Elements(r) + {data};
    ghost var nexts, previouses := Nexts(s), Previouses(s);
    WiderRing(r, s);
    LinksOf(s);
    RingNeighbours<Node>(nexts, previouses, r, j);
    SingleChain<Node>(nexts, previouses, data);
    SplicedRing<Node>(nexts, previouses, r, j, [data]);
    assert position in r && Pred(r, j) in r;

    result := data;
    result.SetPrevious(position.previous, s);
    result.SetNext(position, s);
    result.previous.SetNext(result, s);
    position.SetPrevious(result, s);

    WiderRing(Insertion(r, j, [data]), s);
  }

  method Remove(position: ListNode, ghost r: seq<ListNode>, ghost j: nat) returns (result: ListNode)
    requires IsRing(r) && 0 < j < |r| && r[j] == position
    modifies r
    ensures result == position && unchanged(position)
    ensures IsRing(Without(r, j, j))
    ensures old(position.previous) != null && old(position.previous).next == old(position.next)
    ensures old(position.next) != null && old(position.next).previous == old(position.previous)
  {
    hide IsRing, Ring, Chain, Links, Linked, Distinct, Nexts, Previouses;
    ghost var s := Elements(r);
    ghost var nexts, previouses := Nexts(s), Previouses(s);
    WiderRing(r, s);
    LinksOf(s);
    RingNeighbours<Node>(nexts, previouses, r, j);
    UnlinkedRing<Node>(nexts, previouses, r, j, j);
    NeighbourIsOther<Node>(nexts, previouses, r, j);
    assert r[j] in r && Pred(r, j) in r && Succ(r, j) in r;

    position.previous.SetNext(position.next, s);
    position.next.SetPrevious(position.previous, s);
    result := position;

    WiderRing(Without(r, j, j), s);
  }

  /** Moves the nodes from `first` to `last` of ring `r` in before `position`, node `j` of
      what is left of `r` or of another list. */
  method Move(position: ListNode, first: ListNode, last: ListNode,
              ghost r: seq<ListNode>, ghost a: nat, ghost b: nat, ghost target: seq<ListNode>, ghost j: nat)
    returns (result: ListNode)
    requires IsRing(r) && 0 < a <= b < |r| && r[a] == first && r[b] == last
    requires target == Without(r, a, b) || (IsRing(target) && Apart(r, target))
    requires j < |target| && target[j] == position
    modifies r, target
    ensures result == first
    ensures IsRing(Insertion(target, j, r[a..b + 1]))
    ensures Apart(r, target) ==> IsRing(Without(r, a, b))
    ensures last.next == position && position.previous == last
    ensures first.previous == Pred(target, j) && Pred(target, j).next == first
  {
    hide IsRing, Ring, Chain, Links, Linked, Distinct, SameBut, Nexts, Previouses;
    ghost var s := Elements(r) + Elements(target);
    ghost var next0, previous0 := Nexts(s), Previouses(s);
    WiderRing(r, s);
    WiderRing(target, s);
    LinksOf(s);
    RingNeighbours<Node>(next0, previous0, r, a);
    RingNeighbours<Node>(next0, previous0, r, b);
    assert r[a] in r && r[b] in r && Pred(r, a) in r && Succ(r, b) in r && target[j] in target;

    first.previous.SetNext(last.next, s);
    last.next.SetPrevious(first.previous, s);

    ghost var next1, previous1 := Nexts(s), Previouses(s);
    LinksOf(s);
    assert Pred(target, j) in target && position.previous == Pred(target, j) by {
      UnlinkedTarget<Node>(next0, previous0, r, a, b, target);
      RingNeighbours<Node>(next1, previous1, target, j);
    }

    first.SetPrevious(position.previous, s);
    last.SetNext(position, s);
    first.previous.SetNext(first, s);
    position.SetPrevious(last, s);

    Moved(s, next0, previous0, next1, previous1, r, a, b, target, j);
    LeftBehind(s, next0, previous0, next1, previous1, r, a, b, target, j);
    LinksAfterMove(s, next0, previous0, next1, previous1, r, a, b, target, j);
    result := first;
  }

  method Size(sentinel: ListNode, ghost r: seq<ListNode>) returns (size: nat)
    requires IsRing(r) && r[0] == sentinel
    ensures size == |r| - 1
  {
    size := 0;
    WiderRing(r, Elements(r));
    RingNeighbours<Node>(Nexts(Elements(r)), Previouses(Elements(r)), r, 0);
    var position := sentinel.next;
    while position != sentinel
      invariant 0 <= size < |r| && position == Succ(r, size)
      decreases |r| - size
    {
      size := size + 1;
      assert r[size] in r && position == r[size];
      RingNeighbours<Node>(Nexts(Elements(r)), Previouses(Elements(r)), r, size);
      position := position.next;
    }
  }

  /** The links after a move, in terms of the links before it and halfway. */
  lemma Moved(s: set<ListNode>, next0: map<Node, Node>, previous0: map<Node, Node>, next1: map<Node, Node>,
              previous1: map<Node, Node>,
              r: seq<ListNode>, a: nat, b: nat, target: seq<ListNode>, j: nat)
    requires s == Elements(r) + Elements(target) && 0 < a <= b < |r| && j < |target|
    requires Ring<Node>(next0, previous0, r)
    requires target == Without<Node>(r, a, b) || (Ring<Node>(next0, previous0, target) && Apart<Node>(r, target))
    requires next1 == next0[Pred(r, a) := Succ(r, b)] && previous1 == previous0[Succ(r, b) := Pred(r, a)]
    requires Nexts(s) == next1[r[b] := target[j]][Pred(target, j) := r[a]]
    requires Previouses(s) == previous1[r[a] := Pred(target, j)][target[j] := r[b]]
    ensures IsRing(Insertion(target, j, r[a..b + 1]))
  {
    hide IsRing, Ring, Nexts, Previouses, Apart, Distinct;
    MovedIntoTarget<Node>(next0, previous0, next1, previous1, r, a, b, target, j);
    assert Elements(r[a..b + 1]) <= Elements(r);
    InsertionWithin(target, j, r[a..b + 1], s);
    WiderRing(Insertion(target, j, r[a..b + 1]), s);
  }

  lemma LinksAfterMove(s: set<ListNode>, next0: map<Node, Node>, previous0: map<Node, Node>, next1: map<Node, Node>,
                       previous1: map<Node, Node>,
                       r: seq<ListNode>, a: nat, b: nat, target: seq<ListNode>, j: nat)
    requires s == Elements(r) + Elements(target) && 0 < a <= b < |r| && j < |target|
    requires Ring<Node>(next0, previous0, r)
    requires target == Without<Node>(r, a, b) || (Ring<Node>(next0, previous0, target) && Apart<Node>(r, target))
    requires Nexts(s) == next1[r[b] := target[j]][Pred(target, j) := r[a]]
    requires Previouses(s) == previous1[r[a] := Pred(target, j)][target[j] := r[b]]
    ensures r[b].next == target[j] && target[j].previous == r[b]
    ensures r[a].previous == Pred(target, j) && Pred(target, j).next == r[a]
  {
    hide Ring, Nexts, Previouses, Without;
    UnlinkedTarget<Node>(next0, previous0, r, a, b, target);
    LinksOf(s);
    assert r[a] in r[a..b + 1] && r[b] in r[a..b + 1] by {
      assert r[a..b + 1][0] == r[a] && r[a..b + 1][b - a] == r[b];
    }
    assert target[j] in target && Pred(target, j) in target && r[a] in r && r[b] in r;
  }

  lemma LeftBehind(s: set<ListNode>, next0: map<Node, Node>, previous0: map<Node, Node>, next1: map<Node, Node>,
                   previous1: map<Node, Node>,
                   r: seq<ListNode>, a: nat, b: nat, target: seq<ListNode>, j: nat)
    requires s == Elements(r) + Elements(target) && 0 < a <= b < |r| && j < |target|
    requires Ring<Node>(next0, previous0, r)
    requires next1 == next0[Pred(r, a) := Succ(r, b)] && previous1 == previous0[Succ(r, b) := Pred(r, a)]
    requires Nexts(s) == next1[r[b] := target[j]][Pred(target, j) := r[a]]
    requires Previouses(s) == previous1[r[a] := Pred(target, j)][target[j] := r[b]]
    ensures Apart(r, target) ==> IsRing(Without(r, a, b))
  {
    hide IsRing, Ring, Nexts, Previouses, Distinct;
    MovedOutOfRest<Node>(next0, previous0, next1, previous1, r, a, b, target, j);
    WiderRing(Without(r, a, b), s);
  }
}
