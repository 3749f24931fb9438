/** find-includes-cycles.py: the search for strongly connected components, and the
    report of include cycles built on it. */
module IncludeCycles {
  import opened Basics
  import opened Graphs
  import opened SearchInvariant

  /** What the whole search promises: the reported tuples are the strongly connected
      components, they partition the nodes of the graph, and every component comes after
      the components it can reach. */
  ghost predicate ReportsComponents<T(!new)>(g: Graph<T>, result: seq<seq<T>>) {
    && AllComponents(g, result)
    && Disjoint(result)
    && (forall x :: x in Nodes(g) <==> Reported(result, x))
    && (forall i, j, x, y ::
          0 <= i < |result| && 0 <= j < |result| && x in result[i] && y in result[j] && Reach(g, x, y) ==> j <= i)
  }

  /** The state that `strongconnect` shares with its enclosing function. */
  class Finder<T(==,!new)> {
    const graph: Graph<T>
    var indexCounter: nat
    var stack: seq<T>
    var lowlinks: map<T, nat>
    var index: map<T, nat>
    var result: seq<seq<T>>

    constructor (graph: Graph<T>)
      ensures this.graph == graph
      ensures Valid({}) && stack == [] && result == [] && index == map[]
    {
      this.graph := graph;
      indexCounter := 0;
      stack := [];
      lowlinks := map[];
      index := map[];
      result := [];
    }

    ghost predicate Valid(grey: set<T>)
      reads this
    {
      && lowlinks.Keys == index.Keys
      && Inv(graph, index, stack, result, indexCounter, grey)
    }

    /** The depth index is given, the successors are searched, and if `node` turns out to
        be a root its component is reported. `grey` are the nodes whose calls are active. */
    method StrongConnect(node: T, ghost grey: set<T>)
      requires Valid(grey)
      requires node !in index && node in Nodes(graph)
      requires forall x :: x in grey ==> Reach(graph, x, node)
      modifies this
      ensures Valid(grey)
      ensures Grows(old(lowlinks), lowlinks)
      ensures Grows(old(index), index) && old(indexCounter) < indexCounter
      ensures node in lowlinks
      ensures Connected(graph, old(index), old(stack), old(indexCounter), index, stack, node, lowlinks[node])
      decreases Nodes(graph) - index.Keys, 0
    {
      hide Inv, Visiting, Connected, LowIsReachable, Reach, Nodes, BoundsCrossings, Distinct, Grows, Min;
      EnterNode(graph, index, stack, result, indexCounter, grey, node);
      ghost var n := |stack|;
      index := index[node := indexCounter];
      GrowsSet(lowlinks, lowlinks, node, indexCounter);
      lowlinks := lowlinks[node := indexCounter];
      indexCounter := indexCounter + 1;
      stack := stack + [node];
      GrowsKeys(old(index), index);
      assert Nodes(graph) - index.Keys < Nodes(graph) - old(index).Keys by {
        assert node in Nodes(graph) - old(index).Keys && node !in Nodes(graph) - index.Keys;
      }
      VisitSuccessors(node, grey, old(index), old(stack), old(lowlinks));

      assert Distinct(stack) && stack[n] == node && n < |stack| by {
        InvFacts(graph, index, stack, result, indexCounter, grey + {node});
        VisitedAll(graph, index, stack, old(stack), node, lowlinks[node]);
      }
      if lowlinks[node] == index[node] {
        ghost var full := stack;
        var component := PopComponent(node, n);
        LeaveRoot(graph, old(index), old(stack), index, full, result, indexCounter, grey, node, component);
        result := result + [component];
      } else {
        LeaveInner(graph, old(index), old(stack), index, stack, result, indexCounter, grey, node, lowlinks[node]);
      }
    }

    /** The loop over the successors of a node that has just been entered; `index0`, `base`
        and `lowlinks0` are from before that. */
    method VisitSuccessors(node: T, ghost grey: set<T>, ghost index0: map<T, nat>, ghost base: seq<T>,
                           ghost lowlinks0: map<T, nat>)
      requires Valid(grey + {node})
      requires forall x :: x in grey ==> Reach(graph, x, node)
      requires node in lowlinks && Visiting(graph, index, stack, base, node, lowlinks[node], 0)
      requires node in index && index[node] < indexCounter
      requires node !in index0 && node !in lowlinks0 && Grows(index0, index) && Grows(lowlinks0, lowlinks)
      modifies this
      ensures Valid(grey + {node})
      ensures node in lowlinks && Visiting(graph, index, stack, base, node, lowlinks[node], |Successors(graph, node)|)
      ensures node in index && index[node] == old(index[node]) < indexCounter
      ensures Grows(index0, index) && Grows(lowlinks0, lowlinks)
      decreases Nodes(graph) - index.Keys, 1
    {
      hide Inv, Visiting, Connected, LowIsReachable, Reach, Nodes, BoundsCrossings, Distinct, Grows, Min;
      var successors := if node in graph then graph[node] else [];
      for i := 0 to |successors|
        invariant Valid(grey + {node})
        invariant node in lowlinks && Visiting(graph, index, stack, base, node, lowlinks[node], i)
        invariant node in index && index[node] == old(index[node]) < indexCounter
        invariant Grows(index0, index) && Grows(lowlinks0, lowlinks) && old(index).Keys <= index.Keys
      {
        var successor := successors[i];
        if successor !in lowlinks {
          ReachSuccessor(grey, node, successor);
          assert forall x :: x in stack ==> x in index by {
            InvFacts(graph, index, stack, result, indexCounter, grey + {node});
          }
          ghost var index1, lowlinks1, stack1, counter1 := index, lowlinks, stack, indexCounter;
          StrongConnect(successor, grey + {node});
          GrowsKeys(index1, index);
          GrowsTransitive(index0, index1, index, node);
          GrowsTransitive(lowlinks0, lowlinks1, lowlinks, node);
          VisitNew(graph, index1, stack1, counter1, base, node, lowlinks[node], i, index, stack, lowlinks[successor]);
          GrowsSet(lowlinks0, lowlinks, node, Min(lowlinks[node], lowlinks[successor]));
          lowlinks := lowlinks[node := Min(lowlinks[node], lowlinks[successor])];
        } else if successor in stack {
          VisitStacked(graph, index, stack, base, node, lowlinks[node], i);
          GrowsSet(lowlinks0, lowlinks, node, Min(lowlinks[node], index[successor]));
          lowlinks := lowlinks[node := Min(lowlinks[node], index[successor])];
        } else {
          VisitReported(graph, index, stack, base, node, lowlinks[node], i);
        }
      }
    }

    lemma ReachSuccessor(grey: set<T>, node: T, successor: T)
      requires forall x :: x in grey ==> Reach(graph, x, node)
      requires successor in Successors(graph, node)
      ensures successor in Nodes(graph)
      ensures forall x :: x in grey + {node} ==> Reach(graph, x, successor)
    {
      ReachEdge(graph, node, successor);
      forall x | x in grey
        ensures Reach(graph, x, successor)
      {
        ReachTransitive(graph, x, node, successor);
      }
    }

    /** The pop loop: takes everything from `node` up, topmost first. */
    method PopComponent(node: T, ghost n: nat) returns (component: seq<T>)
      requires n < |stack| && stack[n] == node
      requires Distinct(stack)
      modifies this`stack
      ensures stack == old(stack)[..n]
      ensures component == Reversed(old(stack)[n..])
      ensures Distinct(component) && Elements(component) == Elements(old(stack)[n..])
    {
      component := [];
      while true
        invariant n < |stack| && stack == old(stack)[..|stack|]
        invariant component == Reversed(old(stack)[|stack|..])
        decreases |stack|
      {
        var successor := stack[|stack| - 1];
        ghost var m := |stack| - 1;
        stack := stack[..|stack| - 1];
        component := component + [successor];
        assert old(stack)[m..] == [successor] + old(stack)[m + 1..];
        if successor == node {
          assert m == n;
          break;
        }
      }
      ReversedSameElements(old(stack)[n..]);
    }

    /** Every node of the graph not yet visited by an earlier search is searched; the
        order of the keys does not matter. */
    method Run()
      requires Valid({}) && stack == [] && index == map[] && result == []
      modifies this
      ensures ReportsComponents(graph, result)
    {
      var keys := graph.Keys;
      while keys != {}
        invariant Valid({}) && stack == []
        invariant keys <= graph.Keys
        invariant forall x :: x in graph && x !in keys ==> x in index
        decreases keys
      {
        var node :| node in keys;
        keys := keys - {node};
        if node !in lowlinks {
          StrongConnect(node, {});
          NothingGrey(graph, index, stack, result, indexCounter);
        }
      }
      SearchComplete(graph, index, result, indexCounter);
    }
  }

  function Reversed<T>(s: seq<T>): seq<T> {
    if s == [] then [] else Reversed(s[1..]) + [s[0]]
  }

  lemma ReversedSameElements<T>(s: seq<T>)
    requires Distinct(s)
    ensures Distinct(Reversed(s)) && Elements(Reversed(s)) == Elements(s)
  {
    if s != [] {
      ReversedSameElements(s[1..]);
      var r := Reversed(s[1..]);
      assert forall x :: x in r <==> x in Elements(r);
      assert forall x :: x in s[1..] <==> x in Elements(r);
      assert s == [s[0]] + s[1..];
      assert s[0] !in s[1..];
    }
  }

  lemma NothingToAnchorTo<T(!new)>(g: Graph<T>, stack: seq<T>)
    ensures stack != [] ==> !Anchored(g, stack, {})
  {
    if stack != [] {
      assert !AnchoredAt(g, stack, {}, 0);
    }
  }

  /** Between top-level calls the stack is empty: each entry would need a grey one. */
  lemma NothingGrey<T(!new)>(g: Graph<T>, index: map<T, nat>, stack: seq<T>, result: seq<seq<T>>, counter: nat)
    requires Inv(g, index, stack, result, counter, {})
    ensures stack == []
  {
    NothingToAnchorTo(g, stack);
  }

  /** Once every key is visited, the invariant is the specification. */
  lemma SearchComplete<T(!new)>(g: Graph<T>, index: map<T, nat>, result: seq<seq<T>>, counter: nat)
    requires Inv(g, index, [], result, counter, {})
    requires forall x :: x in g ==> x in index
    ensures ReportsComponents(g, result)
  {
    forall x
      ensures x in Nodes(g) <==> Reported(result, x)
    {
      if x in Nodes(g) && x !in g {
        var u :| u in g && x in g[u];
        assert x in Successors(g, u);
      }
    }
    forall i, j, x, y | 0 <= i < |result| && 0 <= j < |result| && x in result[i] && y in result[j] && Reach(g, x, y)
      ensures j <= i
    {
      ComponentsInOrder(g, result, i, j, x, y);
    }
  }

  lemma ComponentsInOrder<T(!new)>(g: Graph<T>, result: seq<seq<T>>, i: nat, j: nat, x: T, y: T)
    requires SuccessorsFirst(g, result) && Disjoint(result)
    requires i < |result| && j < |result| && x in result[i] && y in result[j] && Reach(g, x, y)
    ensures j <= i
  {
    var prefix := result[..i + 1];
    assert SuccessorsFirst(g, prefix) by {
      forall k, a, b | 0 <= k < |prefix| && a in prefix[k] && b in Successors(g, a)
        ensures Reported(prefix[..k + 1], b)
      {
        assert prefix[..k + 1] == result[..k + 1];
        assert a in result[k];
      }
    }
    assert Reported(prefix, x) by { assert x in prefix[i]; }
    ReportedIsClosed(g, prefix, x, y);
    var k :| 0 <= k < |prefix| && y in prefix[k];
    assert y in result[k];
  }

  method StronglyConnectedComponents<T(==,!new)>(graph: Graph<T>) returns (result: seq<seq<T>>)
    ensures ReportsComponents(graph, result)
  {
    var finder := new Finder(graph);
    finder.Run();
    result := finder.result;
  }

  // The report: the script prints the components whose length is not one.

  /** `x` lies on a cycle of includes, of any length from one up. */
  ghost predicate OnCycle<T(!new)>(g: Graph<T>, x: T) {
    exists y :: y in Successors(g, x) && Reach(g, y, x)
  }

  /** A component is printed exactly when its members form a cycle through at least two files. */
  lemma PrintedIffTwoFiles<T(!new)>(g: Graph<T>, result: seq<seq<T>>, k: nat, x: T)
    requires ReportsComponents(g, result)
    requires k < |result| && x in result[k]
    ensures |result[k]| != 1 <==> exists y :: y != x && Reach(g, x, y) && Reach(g, y, x)
  {
    var c := result[k];
    assert forall y :: y in c <==> y in Elements(c);
    if |c| != 1 {
      var i: nat :| i < |c| && c[i] == x;
      var j := if i == 0 then 1 else 0;
      assert c[j] != x;
      assert Reach(g, x, c[j]) && Reach(g, c[j], x);
    }
    if y :| y != x && Reach(g, x, y) && Reach(g, y, x) {
      assert y in c;
    }
  }

  /** The script is documented to find all include cycles. It misses exactly the files that
      include themselves and lie on no other cycle. */
  lemma OnCycleIffPrintedOrSelfInclude<T(!new)>(g: Graph<T>, result: seq<seq<T>>, k: nat, x: T)
    requires ReportsComponents(g, result)
    requires k < |result| && x in result[k]
    ensures OnCycle(g, x) <==> |result[k]| != 1 || x in Successors(g, x)
  {
    PrintedIffTwoFiles(g, result, k, x);
    if OnCycle(g, x) && x !in Successors(g, x) {
      var y :| y in Successors(g, x) && Reach(g, y, x);
      ReachEdge(g, x, y);
    }
    if |result[k]| != 1 {
      var y :| y != x && Reach(g, x, y) && Reach(g, y, x);
      var a, b := LeavingEdge(g, {x}, x, y);
      ReachTransitive(g, b, y, x);
    }
    if x in Successors(g, x) {
      ReachSelf(g, x);
    }
  }

  lemma TwoMembersDiffer<T(!new)>(c: seq<T>)
    ensures |c| >= 2 && Distinct(c) ==> exists x, y :: x in c && y in c && x != y
  {
    if |c| >= 2 {
      assert c[0] in c && c[1] in c;
    }
  }

  /** A header that includes only itself is on a cycle, and no component of it is printed. */
  lemma SelfIncludeIsMissed(result: seq<seq<string>>)
    requires ReportsComponents(map["a.h" := ["a.h"]], result)
    ensures OnCycle(map["a.h" := ["a.h"]], "a.h")
    ensures forall k :: 0 <= k < |result| ==> |result[k]| == 1
  {
    var g: Graph<string> := map["a.h" := ["a.h"]];
    assert "a.h" in Successors(g, "a.h");
    ReachSelf(g, "a.h");
    forall k | 0 <= k < |result|
      ensures |result[k]| == 1
    {
      assert Elements(result[k]) != {};
      assert forall i :: 0 <= i < |result[k]| ==> Reported(result, result[k][i]);
      assert forall x :: x in Nodes(g) ==> x == "a.h";
      assert forall x :: x in result[k] ==> x == "a.h";
      TwoMembersDiffer(result[k]);
    }
  }
}
