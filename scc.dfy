/**
 * Tarjan's strongly-connected-components search of scc/scc.go.  A `*Node`
 * is an id 0..Size()-1 of a Graph, whose per-node fields `value`, `succs`,
 * `index`, `lowlink` and `onstack` are sequences indexed by id and updated
 * in place; `collector` is a class whose methods update the graph and its
 * own fields.
 */
module Scc {
  import opened SccSearch

  /** The nodes of a graph, with the per-node fields of `Node`. */
  class Graph<V> {
    var values: seq<V>
    var succs: seq<seq<nat>>
    var index: seq<int>
    var lowlink: seq<int>
    var onstack: seq<bool>

    ghost predicate Valid()
      reads this
    {
      && |values| == |succs| == |index| == |lowlink| == |onstack|
      && WellFormed(succs)
    }

    function Size(): nat
      reads this
    {
      |succs|
    }

    /** The nodes not yet visited by any search. */
    ghost function Unvisited(): set<nat>
      reads this
    {
      UnvisitedOf(index)
    }

    /** A graph with no nodes yet. */
    constructor ()
      ensures Valid() && Size() == 0
    {
      values, succs, index, lowlink, onstack := [], [], [], [], [];
    }

    /** `NewNode`: an unvisited node (index -1) with the given value and successors. */
    method NewNode(value: V, ss: seq<nat>) returns (id: nat)
      requires Valid()
      requires forall k :: 0 <= k < |ss| ==> ss[k] < Size()
      modifies this
      ensures Valid() && id == old(Size()) && Size() == id + 1
      ensures values == old(values) + [value] && succs == old(succs) + [ss]
      ensures index == old(index) + [-1] && onstack == old(onstack) + [false]
      ensures lowlink == old(lowlink) + [0]
    {
      id := |succs|;
      values, succs := values + [value], succs + [ss];
      index, lowlink, onstack := index + [-1], lowlink + [0], onstack + [false];
    }

    /** `AddSuccs`: the node keeps its successors and gains ss after them. */
    method AddSuccs(id: nat, ss: seq<nat>)
      requires Valid() && id < Size()
      requires forall k :: 0 <= k < |ss| ==> ss[k] < Size()
      modifies this
      ensures Valid()
      ensures succs == old(succs)[id := old(succs)[id] + ss]
      ensures values == old(values) && index == old(index)
      ensures lowlink == old(lowlink) && onstack == old(onstack)
    {
      succs := succs[id := succs[id] + ss];
    }
  }

  /**
   * `Find`: searches from every root not yet visited and returns the
   * components found.  Afterwards every root is visited, no node is left
   * on a stack, nodes visited before keep their index, the components hold
   * exactly the newly visited nodes, each in one component once, and a
   * closed set of visited nodes stays closed (so, starting from an
   * unvisited graph, everything reachable from the roots is visited).
   */
  method Find<V>(g: Graph<V>, roots: seq<nat>) returns (sccs: seq<seq<nat>>)
    requires g.Valid() && forall u :: 0 <= u < g.Size() ==> !g.onstack[u]
    requires forall k :: 0 <= k < |roots| ==> roots[k] < g.Size()
    modifies g
    ensures g.Valid() && g.values == old(g.values) && g.succs == old(g.succs) && g.Size() == old(g.Size())
    ensures forall u :: 0 <= u < g.Size() ==> !g.onstack[u]
    ensures forall k :: 0 <= k < |roots| ==> g.index[roots[k]] >= 0
    ensures forall u :: 0 <= u < g.Size() && old(g.index)[u] >= 0 ==> g.index[u] == old(g.index)[u]
    ensures forall u :: 0 <= u < g.Size() && old(g.index)[u] < 0 && g.index[u] >= 0 ==> InOneComponent(sccs, u)
    ensures forall c, j :: 0 <= c < |sccs| && 0 <= j < |sccs[c]| ==>
              sccs[c][j] < g.Size() && old(g.index)[sccs[c][j]] < 0 && g.index[sccs[c][j]] >= 0
    ensures Closed(g.succs, old(g.index)) ==> Closed(g.succs, g.index)
    ensures RootedAfter(sccs, 0, old(g.index), g.index, g.lowlink)
  {
    hide SearchInv, Partition, WellFormed, Connected, Closed, InOneComponent;
    var c := new Collector(g);
    var k := 0;
    while k < |roots|
      invariant k <= |roots| && c.Inv(g) && c.Partitioned([]) && c.stack == []
      invariant c.Fixed(g) == (old(g.values), old(g.succs), old(g.index))
      invariant forall j :: 0 <= j < k ==> roots[j] !in g.Unvisited()
      invariant forall u :: 0 <= u < g.Size() && old(g.index[u]) >= 0 ==> g.index[u] == old(g.index[u])
      invariant RootedAfter(c.sccs, 0, old(g.index), g.index, g.lowlink)
    {
      var n := roots[k];
      if g.index[n] < 0 {
        ghost var vis0, sccs0 := c.visited, c.sccs;
        c.StrongConnect(g, n);
        TopLevelIsRoot(g.succs, c.State(g), c.sccs, n, vis0, sccs0);
      }
      k := k + 1;
    }
    SearchDone(g.succs, c.State(g), c.sccs);
    sccs := c.sccs;
  }

  /**
   * A one-node graph whose node is its own successor has exactly one
   * component, holding that node once.
   */
  method SelfLoopComponents() returns (sccs: seq<seq<nat>>)
    ensures sccs == [[0]]
  {
    hide Closed, InOneComponent, WellFormed, SearchInv, Partition;
    var g := SelfLoop();
    sccs := Find(g, [0]);
    assert [0][0] == 0 && g.index[0] >= 0;
    SingleNodeComponents(sccs, 0);
  }

  /** The graph of one node whose only successor is itself, built with NewNode and AddSuccs. */
  method SelfLoop() returns (g: Graph<int>)
    ensures fresh(g) && g.Valid() && g.succs == [[0]] && g.index == [-1] && g.onstack == [false]
  {
    g := new Graph<int>();
    var n := g.NewNode(1, []);
    g.AddSuccs(n, [n]);
    assert g.succs[0] == [0] && g.index[0] == -1 && !g.onstack[0];
  }

  /** The state of one search: emitted components, the node stack and the index counter. */
  class Collector<V> {
    var sccs: seq<seq<nat>>
    var stack: seq<nat>
    var index: int
    ghost var visited: seq<nat>   // the nodes this search visited, in preorder
    ghost var initial: seq<int>   // every node's index when the search began

    /** The zero collector of `Find`, over a graph with no node on a stack. */
    constructor (g: Graph<V>)
      requires g.Valid() && forall u :: 0 <= u < g.Size() ==> !g.onstack[u]
      ensures Inv(g) && Partitioned([])
      ensures sccs == [] && stack == [] && index == 0 && visited == [] && initial == g.index
    {
      sccs, stack, index := [], [], 0;
      visited, initial := [], g.index;
    }

    /** The search as values. */
    ghost function State(g: Graph<V>): Search
      reads this`stack, this`visited, this`initial, g`index, g`lowlink, g`onstack
    {
      Search(g.index, g.lowlink, g.onstack, stack, visited, initial)
    }

    /** The invariant of a search, between and inside calls of StrongConnect; the counter is |visited|. */
    ghost predicate Inv(g: Graph<V>)
      reads this`index, this`stack, this`visited, this`initial, g
    {
      && g.Valid()
      && index == |visited|
      && SearchInv(g.succs, State(g))
    }

    /** The components, the nodes in flight and the stack hold each visited node once. */
    ghost predicate Partitioned(pending: seq<nat>)
      reads this`sccs, this`stack, this`visited
    {
      Partition(sccs, pending, stack, visited)
    }

    /** What a search leaves alone: node values, successors and the indices it began with. */
    ghost function Fixed(g: Graph<V>): (seq<V>, seq<seq<nat>>, seq<int>)
      reads this`initial, g`values, g`succs
    {
      (g.values, g.succs, initial)
    }

    /**
     * `strongconnect`: numbers v, searches its unvisited successors, lowers
     * v's lowlink through them, and emits v's component when lowlink == index.
     */
    method StrongConnect(g: Graph<V>, v: nat)
      requires Inv(g) && Partitioned([]) && v < g.Size() && g.index[v] < 0
      modifies this, g
      decreases g.Unvisited(), 0
      ensures Inv(g) && Partitioned([])
      ensures Connected(g.succs, g.index, g.lowlink, visited, sccs, stack, v, old(visited), old(sccs), old(stack))
      ensures Fixed(g) == old(Fixed(g)) && g.Unvisited() <= old(g.Unvisited()) - {v}
      ensures forall u :: 0 <= u < g.Size() && old(g.index[u]) >= 0 ==>
                g.index[u] == old(g.index[u]) && g.lowlink[u] == old(g.lowlink[u])
      ensures |sccs| >= |old(sccs)| && sccs[..|old(sccs)|] == old(sccs)
      ensures RootedAfter(sccs, |old(sccs)|, old(g.index), g.index, g.lowlink)
    {
      hide SearchInv, Scanning, Connected, Partition, WellFormed;
      ghost var vis0, sccs0, s0 := visited, sccs, stack;
      ScanStarts(g.succs, State(g), sccs, v);
      Visit(g, v);
      ghost var index1, lowlink1 := g.index, g.lowlink;
      assert RootedAfter(sccs0, |sccs0|, old(g.index), index1, lowlink1);
      ScanSuccs(g, v, vis0, sccs0, s0);
      RootedCompose(sccs0, sccs, |sccs0|, old(g.index), index1, g.index, lowlink1, g.lowlink, v);
      hide RootedAfter;
      ghost var sccs1 := sccs;
      EmitIfRoot(g, v, vis0, sccs0, s0);
      if g.lowlink[v] == g.index[v] {
        RootedAppend(sccs1, |sccs0|, old(g.index), g.index, g.lowlink, sccs[|sccs| - 1]);
        assert sccs == sccs1 + [sccs[|sccs| - 1]];
      }
    }

    /**
     * The loop over v's successors (lines 63-70 of `strongconnect`): every
     * successor is scanned in turn, nodes visited on entry keep their index
     * and, except v, their lowlink, and each component the children emit is
     * non-empty and ends with a newly visited root, never v.
     */
    method ScanSuccs(g: Graph<V>, v: nat, ghost vis0: seq<nat>, ghost sccs0: seq<seq<nat>>, ghost s0: seq<nat>)
      requires Inv(g) && Partitioned([]) && v < |g.succs|
      requires Scanning(g.succs, g.index, visited, sccs, stack, v, 0, vis0, sccs0, s0) && g.index[v] >= 0
      modifies this, g
      decreases g.Unvisited(), 3
      ensures Inv(g) && Partitioned([]) && v < |g.succs|
      ensures Scanning(g.succs, g.index, visited, sccs, stack, v, |g.succs[v]|, vis0, sccs0, s0)
      ensures Fixed(g) == old(Fixed(g)) && g.Unvisited() <= old(g.Unvisited())
      ensures forall u :: 0 <= u < g.Size() && old(g.index[u]) >= 0 ==>
                g.index[u] == old(g.index[u]) && (u != v ==> g.lowlink[u] == old(g.lowlink[u]))
      ensures |sccs| >= |old(sccs)| && sccs[..|old(sccs)|] == old(sccs)
      ensures RootedAfter(sccs, |old(sccs)|, old(g.index), g.index, g.lowlink)
      ensures forall c :: |old(sccs)| <= c < |sccs| ==> sccs[c] != [] && sccs[c][|sccs[c]| - 1] != v
    {
      hide SearchInv, Scanning, Connected, Partition, WellFormed;
      ghost var sccs0' := sccs;
      assert RootedAfter(sccs, |sccs0'|, old(g.index), g.index, g.lowlink);
      hide RootedAfter;
      var i := 0;
      while i < |g.succs[v]|
        invariant Fixed(g) == old(Fixed(g)) && g.Unvisited() <= old(g.Unvisited())
        invariant Inv(g) && Partitioned([]) && i <= |g.succs[v]|
        invariant Scanning(g.succs, g.index, visited, sccs, stack, v, i, vis0, sccs0, s0)
        invariant g.index[v] >= 0
        invariant forall u :: 0 <= u < g.Size() && old(g.index[u]) >= 0 ==>
                    g.index[u] == old(g.index[u]) && (u != v ==> g.lowlink[u] == old(g.lowlink[u]))
        invariant |sccs| >= |sccs0'| && sccs[..|sccs0'|] == sccs0'
        invariant RootedAfter(sccs, |sccs0'|, old(g.index), g.index, g.lowlink)
        invariant forall c :: |sccs0'| <= c < |sccs| ==> sccs[c] != [] && sccs[c][|sccs[c]| - 1] != v
      {
        ghost var sccs1, index1, lowlink1 := sccs, g.index, g.lowlink;
        ScanSucc(g, v, i, vis0, sccs0, s0);
        RootedCompose(sccs1, sccs, |sccs0'|, old(g.index), index1, g.index, lowlink1, g.lowlink, v);
        i := i + 1;
      }
    }

    /** Lines 71-81 of `strongconnect`: when v's lowlink is its own index, v's component is popped and emitted. */
    method EmitIfRoot(g: Graph<V>, v: nat, ghost vis0: seq<nat>, ghost sccs0: seq<seq<nat>>, ghost s0: seq<nat>)
      requires Inv(g) && Partitioned([]) && v < |g.succs|
      requires Scanning(g.succs, g.index, visited, sccs, stack, v, |g.succs[v]|, vis0, sccs0, s0)
      modifies this, g
      ensures Inv(g) && Partitioned([])
      ensures Connected(g.succs, g.index, g.lowlink, visited, sccs, stack, v, vis0, sccs0, s0)
      ensures Fixed(g) == old(Fixed(g)) && g.index == old(g.index) && g.lowlink == old(g.lowlink)
      ensures old(g.lowlink[v] == g.index[v]) ==>
                stack == s0 && sccs == old(sccs) + [Reversed(old(stack)[|s0|..])]
                && sccs[|sccs| - 1] != [] && sccs[|sccs| - 1][|sccs[|sccs| - 1]| - 1] == v
      ensures old(g.lowlink[v] != g.index[v]) ==> stack == old(stack) && sccs == old(sccs)
    {
      hide SearchInv, Scanning, Connected, Partition, WellFormed;
      if g.lowlink[v] == g.index[v] {
        EmitComponent(g, v, vis0, sccs0, s0);
      } else {
        NotRootStays(g.succs, State(g), sccs, v, vis0, sccs0, s0);
      }
    }

    /** One turn of the loop over v's successors (lines 64-70 of `strongconnect`). */
    method ScanSucc(g: Graph<V>, v: nat, i: nat, ghost vis0: seq<nat>, ghost sccs0: seq<seq<nat>>, ghost s0: seq<nat>)
      requires Inv(g) && Partitioned([]) && v < |g.succs|
      requires Scanning(g.succs, g.index, visited, sccs, stack, v, i, vis0, sccs0, s0) && i < |g.succs[v]|
      requires g.index[v] >= 0
      modifies this, g
      decreases g.Unvisited(), 2
      ensures Inv(g) && Partitioned([])
      ensures Scanning(g.succs, g.index, visited, sccs, stack, v, i + 1, vis0, sccs0, s0)
      ensures Fixed(g) == old(Fixed(g)) && g.Unvisited() <= old(g.Unvisited())
      ensures forall u :: 0 <= u < g.Size() && old(g.index[u]) >= 0 ==>
                g.index[u] == old(g.index[u]) && (u != v ==> g.lowlink[u] == old(g.lowlink[u]))
      ensures var w := g.succs[v][i];
              if old(g.index[w]) < 0 then g.lowlink[v] == Min(old(g.lowlink[v]), g.lowlink[w])
              else if old(g.onstack[w]) then g.lowlink[v] == Min(old(g.lowlink[v]), g.index[w])
              else g.lowlink[v] == old(g.lowlink[v])
      ensures |sccs| >= |old(sccs)| && sccs[..|old(sccs)|] == old(sccs)
      ensures RootedAfter(sccs, |old(sccs)|, old(g.index), g.index, g.lowlink)
    {
      hide SearchInv, Scanning, Connected, Partition, WellFormed;
      ScanBounds(g.succs, g.index, visited, sccs, stack, v, i, vis0, sccs0, s0);
      var m := g.succs[v][i];
      if g.index[m] < 0 {
        ghost var pre, preSccs := State(g), sccs;
        StrongConnect(g, m);
        ChildReturned(g.succs, pre, State(g), preSccs, sccs, v, i, vis0, sccs0, s0);
        LowerLowlink(g, v, g.lowlink[m]);
      } else {
        ScanSkips(g.succs, g.index, visited, sccs, stack, v, i, vis0, sccs0, s0);
        if g.onstack[m] {
          OnStackAboveBottom(g.succs, State(g), m);
          LowerLowlink(g, v, g.index[m]);
        }
      }
    }

    /** Lines 72-80 of `strongconnect`: v is a root; its component is popped and appended to the components. */
    method EmitComponent(g: Graph<V>, v: nat, ghost vis0: seq<nat>, ghost sccs0: seq<seq<nat>>, ghost s0: seq<nat>)
      requires Inv(g) && Partitioned([]) && v < |g.succs|
      requires Scanning(g.succs, g.index, visited, sccs, stack, v, |g.succs[v]|, vis0, sccs0, s0)
      requires g.lowlink[v] == g.index[v]
      modifies this, g
      ensures Inv(g) && Partitioned([])
      ensures Connected(g.succs, g.index, g.lowlink, visited, sccs, stack, v, vis0, sccs0, s0)
      ensures Fixed(g) == old(Fixed(g)) && g.index == old(g.index) && g.lowlink == old(g.lowlink)
      ensures stack == s0 && sccs == old(sccs) + [Reversed(old(stack)[|s0|..])]
      ensures sccs[|sccs| - 1] != [] && sccs[|sccs| - 1][|sccs[|sccs| - 1]| - 1] == v
    {
      hide SearchInv, Connected, Partition, WellFormed;
      ghost var succs1, index1, lowlink1, visited1, sccs1, stack1 := g.succs, g.index, g.lowlink, visited, sccs, stack;
      var scc := PopComponent(g, v, |s0|);
      PartitionEmit(sccs, scc, stack, visited);
      ghost var st := State(g);
      sccs := sccs + [scc];
      assert State(g) == st;
      assert g.succs == succs1 && g.index == index1 && g.lowlink == lowlink1 && visited == visited1;
      RootEmitted(succs1, index1, lowlink1, visited1, sccs1, stack1, scc, v, vis0, sccs0, s0, sccs, stack);
    }

    /** Lines 60-62 of `strongconnect`: v gets the next index as index and lowlink and is pushed. */
    method Visit(g: Graph<V>, v: nat)
      requires Inv(g) && Partitioned([]) && v < g.Size() && g.index[v] < 0
      modifies this, g
      ensures Inv(g) && Partitioned([])
      ensures State(g) == VisitStep(old(State(g)), v)
      ensures g.values == old(g.values) && g.succs == old(g.succs) && sccs == old(sccs)
      ensures g.Unvisited() == old(g.Unvisited()) - {v}
    {
      VisitKeepsInv(g.succs, State(g), v);
      PartitionVisit(sccs, stack, visited, v);
      g.index, g.lowlink := g.index[v := index], g.lowlink[v := index];
      visited := visited + [v];
      index := index + 1;
      Push(g, v);
      assert State(g) == VisitStep(old(State(g)), v);
    }

    /** `n.lowlink = min(n.lowlink, x)` for a node v on the stack and a bound x no lower than the stack's bottom index. */
    method LowerLowlink(g: Graph<V>, v: nat, x: int)
      requires Inv(g) && v < g.Size() && v in stack && g.index[stack[0]] <= x
      modifies g
      ensures Inv(g)
      ensures g.lowlink == old(g.lowlink)[v := Min(old(g.lowlink[v]), x)]
      ensures g.values == old(g.values) && g.succs == old(g.succs)
      ensures g.index == old(g.index) && g.onstack == old(g.onstack)
    {
      LowerKeepsInv(g.succs, State(g), v, x);
      g.lowlink := g.lowlink[v := Min(g.lowlink[v], x)];
    }

    /** What a pop leaves alone: values, successors, indices, lowlinks, components and bookkeeping. */
    ghost function Kept(g: Graph<V>): (seq<V>, seq<seq<nat>>, seq<int>, seq<int>, seq<seq<nat>>, seq<nat>, seq<int>)
      reads this`sccs, this`visited, this`initial, g`values, g`succs, g`index, g`lowlink
    {
      (g.values, g.succs, g.index, g.lowlink, sccs, visited, initial)
    }

    /** Between two pops of PopComponent: v at position p0 until it is popped, everything above p0 finished. */
    ghost predicate Popping(g: Graph<V>, v: nat, p0: nat, scc: seq<nat>, done: bool)
      reads this, g
    {
      && Inv(g) && Partitioned(scc) && p0 <= |stack|
      && (forall p :: p0 <= p < |stack| ==> Finished(g.succs, g.index, stack[p]))
      && (!done ==> p0 < |stack| && stack[p0] == v)
      && (done ==> |stack| == p0 && scc != [] && scc[|scc| - 1] == v)
    }

    /**
     * Lines 72-79 of `strongconnect`: pops nodes into a component until v,
     * found at position p0 of the stack, has been popped.
     */
    method PopComponent(g: Graph<V>, v: nat, ghost p0: nat) returns (scc: seq<nat>)
      requires Inv(g) && Partitioned([]) && p0 < |stack| && stack[p0] == v
      requires forall p :: p0 <= p < |stack| ==> Finished(g.succs, g.index, stack[p])
      modifies this, g
      ensures Inv(g) && Partitioned(scc)
      ensures stack == old(stack)[..p0] && scc == Reversed(old(stack)[p0..])
      ensures scc != [] && scc[|scc| - 1] == v
      ensures Kept(g) == old(Kept(g))
    {
      hide SearchInv, Partition, Reversed;
      scc := [];
      var done := false;
      while !done
        invariant Popping(g, v, p0, scc, done)
        invariant Kept(g) == old(Kept(g))
        invariant |stack| >= p0 && stack == old(stack)[..|stack|] && scc == Reversed(old(stack)[|stack|..])
        decreases |stack|, !done
      {
        var m;
        m, done := PopOne(g, v, p0, scc);
        ReversedPop(old(stack), |stack|);
        scc := scc + [m];
      }
    }

    /** One turn of the loop in PopComponent. */
    method PopOne(g: Graph<V>, v: nat, ghost p0: nat, ghost scc: seq<nat>) returns (m: nat, done: bool)
      requires Popping(g, v, p0, scc, false)
      modifies this, g
      ensures Popping(g, v, p0, scc + [m], done) && done == (m == v)
      ensures Kept(g) == old(Kept(g))
      ensures |stack| + 1 == |old(stack)| && stack == old(stack)[..|stack|] && m == old(stack)[|stack|]
    {
      ghost var before := stack;
      m := Pop(g, scc);
      done := m == v;
      if |stack| > p0 {
        assert stack[p0] == before[p0];
      }
    }

    /** `stack.push`: sets onstack and appends. */
    method Push(g: Graph<V>, u: nat)
      requires g.Valid() && u < g.Size()
      modifies this, g
      ensures stack == old(stack) + [u] && g.onstack == old(g.onstack)[u := true]
      ensures sccs == old(sccs) && index == old(index) && visited == old(visited) && initial == old(initial)
      ensures g.values == old(g.values) && g.succs == old(g.succs)
      ensures g.index == old(g.index) && g.lowlink == old(g.lowlink)
    {
      g.onstack := g.onstack[u := true];
      stack := stack + [u];
    }

    /** `stack.pop`: removes the top node and clears its onstack; a finished node leaves the invariant intact. */
    method Pop(g: Graph<V>, ghost pending: seq<nat>) returns (u: nat)
      requires Inv(g) && Partitioned(pending) && stack != [] && Finished(g.succs, g.index, stack[|stack| - 1])
      modifies this, g
      ensures Inv(g) && Partitioned(pending + [u]) && State(g) == PopStep(old(State(g)))
      ensures u == old(stack)[|old(stack)| - 1] && stack == old(stack)[..|old(stack)| - 1] && u !in stack
      ensures sccs == old(sccs) && index == old(index) && visited == old(visited) && initial == old(initial)
      ensures g.values == old(g.values) && g.succs == old(g.succs)
      ensures g.index == old(g.index) && g.lowlink == old(g.lowlink)
    {
      PopKeepsInv(g.succs, State(g));
      PartitionPop(sccs, pending, stack, visited);
      u := stack[|stack| - 1];
      stack := stack[..|stack| - 1];
      g.onstack := g.onstack[u := false];
    }
  }
}
