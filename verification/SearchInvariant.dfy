/** The invariant of Tarjan's algorithm, over the values of the search's shared state.
    A ghost set of grey nodes (those whose call is still active) carries the proof. */
module SearchInvariant {
  import opened Basics
  import opened Graphs

  ghost predicate Reported<T>(result: seq<seq<T>>, x: T) {
    exists k :: 0 <= k < |result| && x in result[k]
  }

  /** Each reported component is strongly connected, maximal and listed without repetition. */
  ghost predicate AllComponents<T(!new)>(g: Graph<T>, result: seq<seq<T>>) {
    forall k :: 0 <= k < |result| ==> Distinct(result[k]) && IsComponent(g, Elements(result[k]))
  }

  /** No node is reported twice. */
  ghost predicate Disjoint<T(!new)>(result: seq<seq<T>>) {
    forall i, j, x :: 0 <= i < j < |result| && x in result[i] ==> x !in result[j]
  }

  /** Successors are reported no later than the node itself. */
  ghost predicate SuccessorsFirst<T(!new)>(g: Graph<T>, result: seq<seq<T>>) {
    forall k, x, y :: 0 <= k < |result| && x in result[k] && y in Successors(g, x) ==> Reported(result[..k + 1], y)
  }

  /** The stack is in order of discovery. */
  ghost predicate StackOrdered<T>(index: map<T, nat>, stack: seq<T>) {
    && (forall x :: x in stack ==> x in index)
    && (forall i, j {:trigger index[stack[i]], index[stack[j]]} ::
          0 <= i < j < |stack| ==> index[stack[i]] < index[stack[j]])
  }

  /** Visited nodes are either on the stack or reported, not both. */
  ghost predicate Accounted<T(!new)>(index: map<T, nat>, stack: seq<T>, result: seq<seq<T>>) {
    && (forall x :: x in index <==> x in stack || Reported(result, x))
    && (forall x :: x in stack ==> !Reported(result, x))
  }

  /** Later stack entries are reachable from earlier ones. */
  ghost predicate Descends<T(!new)>(g: Graph<T>, stack: seq<T>) {
    forall i, j {:trigger Reach(g, stack[i], stack[j])} :: 0 <= i <= j < |stack| ==> Reach(g, stack[i], stack[j])
  }

  ghost predicate Anchor<T(!new)>(g: Graph<T>, stack: seq<T>, grey: set<T>, j: nat, i: nat)
    requires i <= j < |stack|
  {
    stack[i] in grey && Reach(g, stack[j], stack[i])
  }

  /** Every entry reaches a grey entry that is not above it. */
  ghost predicate Anchored<T(!new)>(g: Graph<T>, stack: seq<T>, grey: set<T>) {
    forall j: nat :: j < |stack| ==> AnchoredAt(g, stack, grey, j)
  }

  ghost predicate AnchoredAt<T(!new)>(g: Graph<T>, stack: seq<T>, grey: set<T>, j: nat)
    requires j < |stack|
  {
    exists i: nat :: i <= j && Anchor(g, stack, grey, j, i)
  }

  /** A node whose call has returned has no undiscovered successor. */
  ghost predicate Explored<T(!new)>(g: Graph<T>, index: map<T, nat>, grey: set<T>) {
    forall x, y :: x in index && x !in grey && y in Successors(g, x) ==> y in index
  }

  ghost predicate Inv<T(!new)>(g: Graph<T>, index: map<T, nat>, stack: seq<T>, result: seq<seq<T>>, counter: nat,
                               grey: set<T>) {
    && (forall x :: x in index ==> index[x] < counter)
    && index.Keys <= Nodes(g)
    && (forall x :: x in grey ==> x in stack)
    && StackOrdered(index, stack)
    && Accounted(index, stack, result)
    && Descends(g, stack)
    && Anchored(g, stack, grey)
    && Explored(g, index, grey)
    && AllComponents(g, result)
    && Disjoint(result)
    && SuccessorsFirst(g, result)
  }

  /** `low` bounds from below the index of every entry of `base` that the entries above
      `base` have an edge to. */
  ghost predicate BoundsCrossings<T(!new)>(g: Graph<T>, index: map<T, nat>, base: seq<T>, above: seq<T>, low: nat) {
    forall x, y :: x in above && y in Successors(g, x) && y in base && y in index ==> low <= index[y]
  }

  ghost predicate LowIsReachable<T(!new)>(g: Graph<T>, index: map<T, nat>, stack: seq<T>, node: T, low: nat) {
    exists y :: y in stack && y in index && index[y] == low && Reach(g, node, y)
  }

  /** Entries below position `n` were discovered before it and do not occur from it up. */
  lemma SplitStack<T(!new)>(index: map<T, nat>, stack: seq<T>, n: nat)
    requires n < |stack| && StackOrdered(index, stack)
    ensures forall x :: x in stack[..n] ==> x in index && index[x] < index[stack[n]]
    ensures forall x :: x in stack[n..] ==> x in index && index[stack[n]] <= index[x]
    ensures forall x :: x in stack[..n] ==> x !in stack[n..]
    ensures forall x :: x in stack ==> x in stack[..n] || x in stack[n..]
  {
    var lower, upper := stack[..n], stack[n..];
    assert stack == lower + upper;
    forall i | 0 <= i < n
      ensures index[lower[i]] < index[stack[n]]
    {
      assert index[stack[i]] < index[stack[n]];
    }
    forall d | 0 <= d < |upper|
      ensures upper[d] in index && index[stack[n]] <= index[upper[d]]
    {
      assert upper[d] == stack[n + d];
      if d > 0 {
        assert index[stack[n]] < index[stack[n + d]];
      }
    }
  }

  lemma PrefixElements<T(!new)>(base: seq<T>, stack: seq<T>)
    requires base <= stack
    ensures forall y :: y in base ==> y in stack
  {
    forall i | 0 <= i < |base|
      ensures base[i] in stack
    {
      assert base[i] == stack[i];
    }
  }

  ghost predicate Grows<T>(index: map<T, nat>, index': map<T, nat>) {
    forall x :: x in index ==> x in index' && index'[x] == index[x]
  }

  lemma GrowsTransitive<T>(m: map<T, nat>, m': map<T, nat>, m'': map<T, nat>, x: T)
    requires Grows(m, m') && Grows(m', m'') && x in m'
    ensures Grows(m, m'') && x in m'' && m''[x] == m'[x]
  {
  }

  lemma GrowsKeys<T>(m: map<T, nat>, m': map<T, nat>)
    requires Grows(m, m')
    ensures m.Keys <= m'.Keys
  {
  }

  lemma GrowsSet<T>(m: map<T, nat>, m': map<T, nat>, x: T, value: nat)
    requires (Grows(m, m') || m == m') && x !in m
    ensures Grows(m, m'[x := value])
  {
  }

  /** What the loop over successors maintains after `i` of them: `base` is the stack below
      `node`, and `low` is the lowlink computed so far. */
  ghost predicate Visiting<T(!new)>(g: Graph<T>, index: map<T, nat>, stack: seq<T>, base: seq<T>, node: T, low: nat,
                                    i: nat) {
    && i <= |Successors(g, node)|
    && base + [node] <= stack
    && node in index && low <= index[node]
    && LowIsReachable(g, index, stack, node, low)
    && (forall k :: 0 <= k < i ==> Successors(g, node)[k] in index)
    && (forall k :: 0 <= k < i && Successors(g, node)[k] in base ==> low <= index[Successors(g, node)[k]])
    && BoundsCrossings(g, index, base, stack[|base| + 1..], low)
  }

  /** What a call on `node` did to the indices and the stack, from the state (index, stack) to
      the state (index', stack'). */
  ghost predicate Connected<T(!new)>(g: Graph<T>, index: map<T, nat>, stack: seq<T>, counter: nat,
                                     index': map<T, nat>, stack': seq<T>, node: T, low: nat) {
    && Grows(index, index')
    && node in index' && index'[node] == counter
    && stack <= stack'
    && BoundsCrossings(g, index', stack, stack'[|stack|..], low)
    && (stack' == stack ==> low == index'[node])
    && (stack' != stack ==>
          stack'[|stack|] == node && low < index'[node] && LowIsReachable(g, index', stack', node, low))
  }

  /** The consequences of the invariant that a call relies on. */
  lemma InvFacts<T(!new)>(g: Graph<T>, index: map<T, nat>, stack: seq<T>, result: seq<seq<T>>, counter: nat,
                          grey: set<T>)
    requires Inv(g, index, stack, result, counter, grey)
    ensures forall x :: x in index ==> index[x] < counter
    ensures index.Keys <= Nodes(g)
    ensures forall x :: x in stack ==> x in index
    ensures forall x :: x in grey ==> x in stack
    ensures Distinct(stack)
  {
    forall i, j | 0 <= i < j < |stack|
      ensures stack[i] != stack[j]
    {
      assert index[stack[i]] < index[stack[j]];
    }
  }

  // The loop over successors

  lemma VisitStart<T(!new)>(g: Graph<T>, index: map<T, nat>, stack: seq<T>, node: T)
    requires node in index
    ensures Visiting(g, index, stack + [node], stack, node, index[node], 0)
  {
    ReachSelf(g, node);
    assert node in stack + [node];
  }

  lemma LowAfterCall<T(!new)>(g: Graph<T>, index: map<T, nat>, stack: seq<T>, index': map<T, nat>, stack': seq<T>,
                              node: T, successor: T, low: nat, low': nat)
    requires successor in Successors(g, node)
    requires Grows(index, index') && stack <= stack'
    requires LowIsReachable(g, index, stack, node, low)
    requires low' < low ==> LowIsReachable(g, index', stack', successor, low')
    ensures LowIsReachable(g, index', stack', node, Min(low, low'))
  {
    hide IsWalk;
    if low' < low {
      var y :| y in stack' && y in index' && index'[y] == low' && Reach(g, successor, y);
      ReachEdge(g, node, successor);
      ReachTransitive(g, node, successor, y);
    } else {
      PrefixElements(stack, stack');
    }
  }

  lemma BoundsAfterCall<T(!new)>(g: Graph<T>, index: map<T, nat>, stack: seq<T>, index': map<T, nat>, stack': seq<T>,
                                 base: seq<T>, node: T, low: nat, low': nat)
    requires Grows(index, index') && base + [node] <= stack <= stack'
    requires forall y :: y in base ==> y in index
    requires BoundsCrossings(g, index, base, stack[|base| + 1..], low)
    requires BoundsCrossings(g, index', stack, stack'[|stack|..], low')
    ensures BoundsCrossings(g, index', base, stack'[|base| + 1..], Min(low, low'))
  {
    assert base <= stack;
    PrefixElements(base, stack);
    assert stack'[|base| + 1..] == stack[|base| + 1..] + stack'[|stack|..];
  }

  lemma VisitNew<T(!new)>(g: Graph<T>, index: map<T, nat>, stack: seq<T>, counter: nat, base: seq<T>, node: T,
                          low: nat, i: nat,
                          index': map<T, nat>, stack': seq<T>, low': nat)
    requires i < |Successors(g, node)| && Visiting(g, index, stack, base, node, low, i)
    requires Connected(g, index, stack, counter, index', stack', Successors(g, node)[i], low')
    requires index[node] < counter && forall x :: x in stack ==> x in index
    requires Successors(g, node)[i] !in index
    ensures Visiting(g, index', stack', base, node, Min(low, low'), i + 1)
  {
    hide LowIsReachable, BoundsCrossings, Reach;
    assert base <= stack;
    PrefixElements(base, stack);
    LowAfterCall(g, index, stack, index', stack', node, Successors(g, node)[i], low, low');
    BoundsAfterCall(g, index, stack, index', stack', base, node, low, low');
  }

  lemma VisitStacked<T(!new)>(g: Graph<T>, index: map<T, nat>, stack: seq<T>, base: seq<T>, node: T, low: nat, i: nat)
    requires i < |Successors(g, node)| && Visiting(g, index, stack, base, node, low, i)
    requires Successors(g, node)[i] in index && Successors(g, node)[i] in stack
    ensures Visiting(g, index, stack, base, node, Min(low, index[Successors(g, node)[i]]), i + 1)
  {
    ReachEdge(g, node, Successors(g, node)[i]);
  }

  lemma VisitReported<T(!new)>(g: Graph<T>, index: map<T, nat>, stack: seq<T>, base: seq<T>, node: T, low: nat, i: nat)
    requires i < |Successors(g, node)| && Visiting(g, index, stack, base, node, low, i)
    requires Successors(g, node)[i] in index && Successors(g, node)[i] !in stack
    ensures Visiting(g, index, stack, base, node, low, i + 1)
  {
    PrefixElements(base, stack);
  }

  /** After the loop the whole segment from `node` up is bounded. */
  lemma VisitedAll<T(!new)>(g: Graph<T>, index: map<T, nat>, stack: seq<T>, base: seq<T>, node: T, low: nat)
    requires Visiting(g, index, stack, base, node, low, |Successors(g, node)|)
    ensures forall y :: y in Successors(g, node) ==> y in index
    ensures base + [node] <= stack && stack[..|base|] == base && stack[|base|] == node
    ensures node in index && low <= index[node] && LowIsReachable(g, index, stack, node, low)
    ensures BoundsCrossings(g, index, base, stack[|base|..], low)
  {
    assert stack[|base|..] == [node] + stack[|base| + 1..];
    forall y | y in Successors(g, node)
      ensures y in index && (y in base ==> low <= index[y])
    {
      var k: nat :| k < |Successors(g, node)| && Successors(g, node)[k] == y;
    }
  }

  // How a call ends

  lemma ConnectedPopped<T(!new)>(g: Graph<T>, index: map<T, nat>, stack: seq<T>, counter: nat, index': map<T, nat>,
                                 node: T)
    requires Grows(index, index') && node in index' && index'[node] == counter
    ensures Connected(g, index, stack, counter, index', stack, node, counter)
  {
  }

  lemma ConnectedBlack<T(!new)>(g: Graph<T>, index: map<T, nat>, stack: seq<T>, counter: nat,
                                index': map<T, nat>, stack': seq<T>, node: T, low: nat)
    requires Grows(index, index') && node in index' && index'[node] == counter
    requires stack + [node] <= stack' && low < counter
    requires BoundsCrossings(g, index', stack, stack'[|stack|..], low)
    requires LowIsReachable(g, index', stack', node, low)
    ensures Connected(g, index, stack, counter, index', stack', node, low)
  {
  }

  // Discovering a node

  lemma PushDescends<T(!new)>(g: Graph<T>, stack: seq<T>, grey: set<T>, node: T)
    requires Descends(g, stack) && Anchored(g, stack, grey)
    requires forall x :: x in grey ==> Reach(g, x, node)
    ensures Descends(g, stack + [node])
  {
    var stack' := stack + [node];
    ReachSelf(g, node);
    forall i, j | 0 <= i <= j < |stack'|
      ensures Reach(g, stack'[i], stack'[j])
    {
      if j < |stack| {
        assert Reach(g, stack[i], stack[j]);
      } else if i < |stack| {
        assert AnchoredAt(g, stack, grey, i);
        var k: nat :| k <= i && Anchor(g, stack, grey, i, k);
        ReachTransitive(g, stack[i], stack[k], node);
      }
    }
  }

  lemma PushAnchored<T(!new)>(g: Graph<T>, stack: seq<T>, grey: set<T>, node: T)
    requires Anchored(g, stack, grey)
    ensures Anchored(g, stack + [node], grey + {node})
  {
    var stack' := stack + [node];
    ReachSelf(g, node);
    forall j: nat | j < |stack'|
      ensures AnchoredAt(g, stack', grey + {node}, j)
    {
      if j < |stack| {
        assert AnchoredAt(g, stack, grey, j);
        var i: nat :| i <= j && Anchor(g, stack, grey, j, i);
        assert Anchor(g, stack', grey + {node}, j, i);
      } else {
        assert Anchor(g, stack', grey + {node}, j, j);
      }
    }
  }

  /** Pushing a newly discovered node keeps the invariant with the node turned grey. */
  lemma PushKeepsInv<T(!new)>(g: Graph<T>, index: map<T, nat>, stack: seq<T>, result: seq<seq<T>>, counter: nat,
                              grey: set<T>, node: T)
    requires Inv(g, index, stack, result, counter, grey)
    requires node !in index && node in Nodes(g)
    requires forall x :: x in grey ==> Reach(g, x, node)
    ensures Inv(g, index[node := counter], stack + [node], result, counter + 1, grey + {node})
  {
    PushDescends(g, stack, grey, node);
    PushAnchored(g, stack, grey, node);
  }

  // Leaving a node that is not the root of its component

  lemma BlackenAnchored<T(!new)>(g: Graph<T>, index: map<T, nat>, stack: seq<T>, grey: set<T>, n: nat, low: nat)
    requires n < |stack| && StackOrdered(index, stack)
    requires Anchored(g, stack, grey + {stack[n]}) && stack[n] !in grey
    requires stack[n] in index && low < index[stack[n]] && LowIsReachable(g, index, stack, stack[n], low)
    ensures Anchored(g, stack, grey)
  {
    var y :| y in stack && y in index && index[y] == low && Reach(g, stack[n], y);
    var m: nat :| m < |stack| && stack[m] == y;
    assert m < n by { assert index[stack[m]] < index[stack[n]]; }
    assert AnchoredAt(g, stack, grey + {stack[n]}, m);
    var k: nat :| k <= m && Anchor(g, stack, grey + {stack[n]}, m, k);
    assert stack[k] in grey by { assert index[stack[k]] < index[stack[n]]; }
    ReachTransitive(g, stack[n], y, stack[k]);
    forall j: nat | j < |stack|
      ensures AnchoredAt(g, stack, grey, j)
    {
      assert AnchoredAt(g, stack, grey + {stack[n]}, j);
      var i: nat :| i <= j && Anchor(g, stack, grey + {stack[n]}, j, i);
      if stack[i] == stack[n] {
        assert i == n by { SplitStack(index, stack, n); assert stack[i] in stack[i..]; }
        ReachTransitive(g, stack[j], stack[n], stack[k]);
        assert Anchor(g, stack, grey, j, k);
      } else {
        assert Anchor(g, stack, grey, j, i);
      }
    }
  }

  /** A node that is not the root of its component turns from grey to black. */
  lemma BlackenKeepsInv<T(!new)>(g: Graph<T>, index: map<T, nat>, stack: seq<T>, result: seq<seq<T>>, counter: nat,
                                 grey: set<T>, n: nat, low: nat)
    requires n < |stack| && stack[n] !in grey
    requires Inv(g, index, stack, result, counter, grey + {stack[n]})
    requires low < index[stack[n]] && LowIsReachable(g, index, stack, stack[n], low)
    requires forall y :: y in Successors(g, stack[n]) ==> y in index
    ensures Inv(g, index, stack, result, counter, grey)
  {
    BlackenAnchored(g, index, stack, grey, n, low);
  }

  // Leaving the root of a component

  lemma SegmentReachesRoot<T(!new)>(g: Graph<T>, index: map<T, nat>, stack: seq<T>, grey: set<T>, n: nat, x: T)
    requires n < |stack| && StackOrdered(index, stack) && Descends(g, stack)
    requires Anchored(g, stack, grey + {stack[n]})
    requires forall y :: y in grey ==> y in stack[..n]
    requires x in stack[n..]
    ensures Reach(g, stack[n], x) && Reach(g, x, stack[n])
  {
    var d: nat :| d < |stack[n..]| && stack[n..][d] == x;
    var j := n + d;
    assert x == stack[j];
    assert Reach(g, stack[n], stack[j]);
    assert AnchoredAt(g, stack, grey + {stack[n]}, j);
    var i: nat :| i <= j && Anchor(g, stack, grey + {stack[n]}, j, i);
    assert i <= n by {
      SplitStack(index, stack, n);
      assert index[stack[i]] <= index[stack[n]];
    }
    assert Reach(g, stack[i], stack[n]);
    ReachTransitive(g, x, stack[i], stack[n]);
  }

  lemma SegmentIsClosed<T(!new)>(g: Graph<T>, index: map<T, nat>, stack: seq<T>, result: seq<seq<T>>, grey: set<T>,
                                 n: nat, x: T, y: T)
    requires n < |stack| && StackOrdered(index, stack) && Accounted(index, stack, result)
    requires Explored(g, index, grey + {stack[n]})
    requires forall y :: y in grey ==> y in stack[..n]
    requires BoundsCrossings(g, index, stack[..n], stack[n..], index[stack[n]])
    requires forall y :: y in Successors(g, stack[n]) ==> y in index
    requires x in stack[n..] && y in Successors(g, x)
    ensures y in stack[n..] || Reported(result, y)
  {
    SplitStack(index, stack, n);
    assert x !in grey;
    assert y in index;
    assert y !in stack[..n];
  }

  lemma ReportedIsClosed<T(!new)>(g: Graph<T>, result: seq<seq<T>>, x: T, y: T)
    requires SuccessorsFirst(g, result)
    requires Reported(result, x) && Reach(g, x, y)
    ensures Reported(result, y)
  {
    var s := set k, z | 0 <= k < |result| && z in result[k] :: z;
    forall a, b | a in s && b in Successors(g, a)
      ensures b in s
    {
      var k :| 0 <= k < |result| && a in result[k];
      assert Reported(result[..k + 1], b);
      var m :| 0 <= m < k + 1 && b in result[..k + 1][m];
      assert b in result[m];
    }
    ClosedUnderReach(g, s, x, y);
  }

  /** Mutual reachability with a root, and no way out except to nodes that never lead
      back, make a strongly connected component. */
  lemma ClosedIsComponent<T(!new)>(g: Graph<T>, c: set<T>, root: T, result: seq<seq<T>>)
    requires root in c && SuccessorsFirst(g, result)
    requires forall x :: x in c ==> Reach(g, root, x) && Reach(g, x, root)
    requires forall x :: x in c ==> !Reported(result, x)
    requires forall x, y :: x in c && y in Successors(g, x) ==> y in c || Reported(result, y)
    ensures IsComponent(g, c)
  {
    forall u, v | u in c
      ensures v in c <==> Reach(g, u, v) && Reach(g, v, u)
    {
      if v in c {
        ReachTransitive(g, u, root, v);
        ReachTransitive(g, v, root, u);
      } else if Reach(g, u, v) && Reach(g, v, u) {
        var x, y := LeavingEdge(g, c, u, v);
        ReachTransitive(g, y, v, u);
        ReportedIsClosed(g, result, y, u);
        assert false;
      }
    }
  }

  /** When `low` did not drop below the node's own index, the entries from the node up
      are one strongly connected component. */
  lemma SegmentIsComponent<T(!new)>(g: Graph<T>, index: map<T, nat>, stack: seq<T>, result: seq<seq<T>>, grey: set<T>,
                                    n: nat)
    requires n < |stack| && StackOrdered(index, stack) && Accounted(index, stack, result) && Descends(g, stack)
    requires Anchored(g, stack, grey + {stack[n]}) && Explored(g, index, grey + {stack[n]})
    requires SuccessorsFirst(g, result)
    requires forall y :: y in grey ==> y in stack[..n]
    requires BoundsCrossings(g, index, stack[..n], stack[n..], index[stack[n]])
    requires forall y :: y in Successors(g, stack[n]) ==> y in index
    ensures IsComponent(g, Elements(stack[n..]))
    ensures forall x, y :: x in stack[n..] && y in Successors(g, x) ==> y in stack[n..] || Reported(result, y)
  {
    assert stack[n] == stack[n..][0];
    forall x | x in stack[n..]
      ensures Reach(g, stack[n], x) && Reach(g, x, stack[n])
    {
      SegmentReachesRoot(g, index, stack, grey, n, x);
    }
    forall x, y | x in stack[n..] && y in Successors(g, x)
      ensures y in stack[n..] || Reported(result, y)
    {
      SegmentIsClosed(g, index, stack, result, grey, n, x, y);
    }
    assert forall x :: x in Elements(stack[n..]) ==> x in stack;
    ClosedIsComponent(g, Elements(stack[n..]), stack[n], result);
  }

  lemma ReportedGrows<T(!new)>(result: seq<seq<T>>, c: seq<T>, x: T)
    ensures Reported(result + [c], x) <==> Reported(result, x) || x in c
  {
    var result' := result + [c];
    if Reported(result, x) {
      var k :| 0 <= k < |result| && x in result[k];
      assert x in result'[k];
    }
    if x in c {
      assert x in result'[|result|];
    }
  }

  lemma ReportKeepsOrder<T(!new)>(g: Graph<T>, result: seq<seq<T>>, c: seq<T>)
    requires SuccessorsFirst(g, result)
    requires forall x, y :: x in c && y in Successors(g, x) ==> y in c || Reported(result, y)
    ensures SuccessorsFirst(g, result + [c])
  {
    var result' := result + [c];
    forall k, x, y | 0 <= k < |result'| && x in result'[k] && y in Successors(g, x)
      ensures Reported(result'[..k + 1], y)
    {
      if k < |result| {
        assert result'[..k + 1] == result[..k + 1];
      } else {
        assert result'[..k + 1] == result';
        ReportedGrows(result, c, y);
      }
    }
  }

  lemma PopAnchored<T(!new)>(g: Graph<T>, index: map<T, nat>, stack: seq<T>, grey: set<T>, n: nat)
    requires n < |stack| && StackOrdered(index, stack)
    requires Anchored(g, stack, grey + {stack[n]})
    ensures Anchored(g, stack[..n], grey)
  {
    forall j: nat | j < n
      ensures AnchoredAt(g, stack[..n], grey, j)
    {
      assert AnchoredAt(g, stack, grey + {stack[n]}, j);
      var i: nat :| i <= j && Anchor(g, stack, grey + {stack[n]}, j, i);
      assert index[stack[i]] < index[stack[n]];
      assert Anchor(g, stack[..n], grey, j, i);
    }
  }

  lemma PopAccounted<T(!new)>(index: map<T, nat>, stack: seq<T>, result: seq<seq<T>>, n: nat, c: seq<T>)
    requires n < |stack| && StackOrdered(index, stack) && Accounted(index, stack, result)
    requires Elements(c) == Elements(stack[n..])
    ensures Accounted(index, stack[..n], result + [c])
  {
    SplitStack(index, stack, n);
    assert forall x :: x in c <==> x in Elements(c);
    assert forall x :: x in stack[n..] <==> x in Elements(c);
    forall x
      ensures Reported(result + [c], x) <==> Reported(result, x) || x in stack[n..]
    {
      ReportedGrows(result, c, x);
    }
  }

  lemma PopDescends<T(!new)>(g: Graph<T>, stack: seq<T>, n: nat)
    requires n < |stack| && Descends(g, stack)
    ensures Descends(g, stack[..n])
  {
    forall i, j | 0 <= i <= j < n
      ensures Reach(g, stack[..n][i], stack[..n][j])
    {
      assert Reach(g, stack[i], stack[j]);
    }
  }

  lemma ReportKeepsComponents<T(!new)>(g: Graph<T>, result: seq<seq<T>>, c: seq<T>)
    requires AllComponents(g, result) && Disjoint(result)
    requires Distinct(c) && IsComponent(g, Elements(c))
    requires forall x :: x in c ==> !Reported(result, x)
    ensures AllComponents(g, result + [c]) && Disjoint(result + [c])
  {
  }

  /** The result stays what it has to be when the segment is reported. */
  lemma SegmentReported<T(!new)>(g: Graph<T>, index: map<T, nat>, stack: seq<T>, result: seq<seq<T>>, grey: set<T>,
                                 n: nat, c: seq<T>)
    requires n < |stack| && StackOrdered(index, stack) && Accounted(index, stack, result) && Descends(g, stack)
    requires Anchored(g, stack, grey + {stack[n]}) && Explored(g, index, grey + {stack[n]})
    requires AllComponents(g, result) && Disjoint(result) && SuccessorsFirst(g, result)
    requires forall x :: x in grey ==> x in stack[..n]
    requires BoundsCrossings(g, index, stack[..n], stack[n..], index[stack[n]])
    requires forall y :: y in Successors(g, stack[n]) ==> y in index
    requires Distinct(c) && Elements(c) == Elements(stack[n..])
    ensures AllComponents(g, result + [c]) && Disjoint(result + [c]) && SuccessorsFirst(g, result + [c])
  {
    hide Descends, Anchored, Explored, AllComponents, Disjoint, SuccessorsFirst, BoundsCrossings, StackOrdered;
    SegmentIsComponent(g, index, stack, result, grey, n);
    assert forall x :: x in c <==> x in Elements(c);
    assert forall x :: x in stack[n..] <==> x in Elements(c);
    assert forall x :: x in stack[n..] ==> x in stack;
    ReportKeepsComponents(g, result, c);
    ReportKeepsOrder(g, result, c);
  }

  lemma PopOrdered<T(!new)>(index: map<T, nat>, stack: seq<T>, n: nat)
    requires n <= |stack| && StackOrdered(index, stack)
    ensures StackOrdered(index, stack[..n])
  {
  }

  /** What is left when the segment is popped. Nothing in it was grey but its root, and the
      root's successors are all discovered. */
  lemma PopExplored<T(!new)>(g: Graph<T>, index: map<T, nat>, grey: set<T>, root: T)
    requires Explored(g, index, grey + {root}) && forall y :: y in Successors(g, root) ==> y in index
    ensures Explored(g, index, grey)
  {
  }

  /** Reporting the segment keeps the invariant for the callers still active. */
  lemma PopKeepsInv<T(!new)>(g: Graph<T>, index: map<T, nat>, stack: seq<T>, result: seq<seq<T>>, counter: nat,
                             grey: set<T>, n: nat, c: seq<T>)
    requires n < |stack| && stack[n] !in grey
    requires Inv(g, index, stack, result, counter, grey + {stack[n]})
    requires forall x :: x in grey ==> x in stack[..n]
    requires BoundsCrossings(g, index, stack[..n], stack[n..], index[stack[n]])
    requires forall y :: y in Successors(g, stack[n]) ==> y in index
    requires Distinct(c) && Elements(c) == Elements(stack[n..])
    ensures Inv(g, index, stack[..n], result + [c], counter, grey)
  {
    hide StackOrdered, Accounted, Descends, Anchored, Explored, AllComponents, Disjoint, SuccessorsFirst,
         BoundsCrossings, Distinct, Elements;
    SegmentReported(g, index, stack, result, grey, n, c);
    PopOrdered(index, stack, n);
    PopAccounted(index, stack, result, n, c);
    PopAnchored(g, index, stack, grey, n);
    PopDescends(g, stack, n);
    PopExplored(g, index, grey, stack[n]);
  }

  // A whole call

  lemma EnterNode<T(!new)>(g: Graph<T>, index: map<T, nat>, stack: seq<T>, result: seq<seq<T>>, counter: nat,
                           grey: set<T>, node: T)
    requires Inv(g, index, stack, result, counter, grey)
    requires node !in index && node in Nodes(g)
    requires forall x :: x in grey ==> Reach(g, x, node)
    ensures Inv(g, index[node := counter], stack + [node], result, counter + 1, grey + {node})
    ensures Visiting(g, index[node := counter], stack + [node], stack, node, counter, 0)
    ensures node !in stack && node !in grey && forall x :: x in grey ==> x in stack
    ensures Grows(index, index[node := counter])
  {
    hide Inv, Visiting, Reach;
    InvFacts(g, index, stack, result, counter, grey);
    PushKeepsInv(g, index, stack, result, counter, grey, node);
    VisitStart(g, index[node := counter], stack, node);
  }

  lemma LeaveRoot<T(!new)>(g: Graph<T>, index: map<T, nat>, base: seq<T>, index': map<T, nat>, stack: seq<T>,
                           result: seq<seq<T>>,
                           counter: nat, grey: set<T>, node: T, component: seq<T>)
    requires node in index' && Visiting(g, index', stack, base, node, index'[node], |Successors(g, node)|)
    requires Inv(g, index', stack, result, counter, grey + {node})
    requires Grows(index, index')
    requires node !in grey && forall x :: x in grey ==> x in base
    requires |base| <= |stack| && Distinct(component) && Elements(component) == Elements(stack[|base|..])
    ensures Inv(g, index', stack[..|base|], result + [component], counter, grey)
    ensures Connected(g, index, base, index'[node], index', stack[..|base|], node, index'[node])
  {
    hide Inv, Visiting, Connected, Distinct, Elements;
    VisitedAll(g, index', stack, base, node, index'[node]);
    PopKeepsInv(g, index', stack, result, counter, grey, |base|, component);
    ConnectedPopped(g, index, base, index'[node], index', node);
  }

  lemma LeaveInner<T(!new)>(g: Graph<T>, index: map<T, nat>, base: seq<T>, index': map<T, nat>, stack: seq<T>,
                            result: seq<seq<T>>,
                            counter: nat, grey: set<T>, node: T, low: nat)
    requires node in index' && low != index'[node] && Visiting(g, index', stack, base, node, low, |Successors(g, node)|)
    requires Inv(g, index', stack, result, counter, grey + {node})
    requires Grows(index, index')
    requires node !in grey && forall x :: x in grey ==> x in base
    ensures Inv(g, index', stack, result, counter, grey)
    ensures Connected(g, index, base, index'[node], index', stack, node, low)
  {
    hide Inv, Visiting, Connected;
    VisitedAll(g, index', stack, base, node, low);
    BlackenKeepsInv(g, index', stack, result, counter, grey, |base|, low);
    ConnectedBlack(g, index, base, index'[node], index', stack, node, low);
  }
}
