/**
 * The state of Tarjan's search in scc/scc.go as values, with the invariant
 * it keeps and the lemmas that carry the invariant across each step.  Nodes
 * are the ids 0..|succs|-1; `succs[u]` lists u's successors.
 */
module SccSearch {

  function Min(a: int, b: int): (r: int)
    ensures r <= a && r <= b
    ensures r == a || r == b
  {
    if a > b then b else a
  }

  /** All components one after the other, in emission order. */
  function Flatten(ss: seq<seq<nat>>): seq<nat>
  {
    if ss == [] then [] else Flatten(ss[..|ss| - 1]) + ss[|ss| - 1]
  }

  /** The nodes of a stack segment in the order repeated pops take them off: top first. */
  function Reversed(s: seq<nat>): (r: seq<nat>)
    ensures |r| == |s|
    ensures forall k :: 0 <= k < |s| ==> r[k] == s[|s| - 1 - k]
  {
    if s == [] then [] else Reversed(s[1..]) + [s[0]]
  }

  /** Popping the node below a popped segment puts it after the segment's nodes. */
  lemma ReversedPop(s: seq<nat>, k: nat)
    requires k < |s|
    ensures Reversed(s[k..]) == Reversed(s[k + 1..]) + [s[k]]
  {
    assert s[k..][1..] == s[k + 1..];
  }

  /** Every successor id names a node. */
  ghost predicate WellFormed(succs: seq<seq<nat>>)
  {
    forall u, k :: 0 <= u < |succs| && 0 <= k < |succs[u]| ==> succs[u][k] < |succs|
  }

  /** Every visited node (index >= 0) has only visited successors. */
  ghost predicate Closed(succs: seq<seq<nat>>, index: seq<int>)
    requires WellFormed(succs) && |index| == |succs|
  {
    forall u, k :: 0 <= u < |succs| && index[u] >= 0 && 0 <= k < |succs[u]| ==> index[succs[u][k]] >= 0
  }

  /** p is a walk along successor edges. */
  ghost predicate IsPath(succs: seq<seq<nat>>, p: seq<nat>)
  {
    && |p| >= 1
    && (forall k :: 0 <= k < |p| ==> p[k] < |succs|)
    && (forall k :: 0 <= k < |p| - 1 ==> p[k + 1] in succs[p[k]])
  }

  /** A closed set of visited nodes contains everything reachable from its members. */
  lemma {:induction false} ClosedContainsReachable(succs: seq<seq<nat>>, index: seq<int>, p: seq<nat>)
    requires WellFormed(succs) && |index| == |succs| && Closed(succs, index)
    requires IsPath(succs, p) && index[p[0]] >= 0
    ensures index[p[|p| - 1]] >= 0
  {
    if |p| > 1 {
      var q := p[..|p| - 1];
      assert IsPath(succs, q);
      ClosedContainsReachable(succs, index, q);
      var u := p[|p| - 2];
      var k :| 0 <= k < |succs[u]| && succs[u][k] == p[|p| - 1];
    }
  }

  lemma {:induction false} FlattenCountAtLeast(ss: seq<seq<nat>>, c: nat, u: nat)
    requires c < |ss|
    ensures multiset(Flatten(ss))[u] >= multiset(ss[c])[u]
  {
    var init := ss[..|ss| - 1];
    assert multiset(Flatten(ss)) == multiset(Flatten(init)) + multiset(ss[|ss| - 1]);
    if c < |ss| - 1 {
      FlattenCountAtLeast(init, c, u);
    }
  }

  lemma {:induction false} FlattenCountTwo(ss: seq<seq<nat>>, c1: nat, c2: nat, u: nat)
    requires c1 < c2 < |ss|
    ensures multiset(Flatten(ss))[u] >= multiset(ss[c1])[u] + multiset(ss[c2])[u]
  {
    var init := ss[..|ss| - 1];
    assert multiset(Flatten(ss)) == multiset(Flatten(init)) + multiset(ss[|ss| - 1]);
    if c2 == |ss| - 1 {
      FlattenCountAtLeast(init, c1, u);
    } else {
      FlattenCountTwo(init, c1, c2, u);
    }
  }

  lemma {:induction false} InFlattenSomeComponent(ss: seq<seq<nat>>, u: nat)
    requires u in Flatten(ss)
    ensures exists c :: 0 <= c < |ss| && u in ss[c]
  {
    var init := ss[..|ss| - 1];
    if u !in ss[|ss| - 1] {
      InFlattenSomeComponent(init, u);
      var c :| 0 <= c < |init| && u in init[c];
      assert u in ss[c];
    }
  }

  /** u lies in exactly one of the components, and once there. */
  ghost predicate InOneComponent(sccs: seq<seq<nat>>, u: nat)
  {
    && (exists c :: 0 <= c < |sccs| && u in sccs[c])
    && (forall c :: 0 <= c < |sccs| && u in sccs[c] ==> multiset(sccs[c])[u] == 1)
    && (forall c1, c2 :: 0 <= c1 < c2 < |sccs| ==> !(u in sccs[c1] && u in sccs[c2]))
  }

  /**
   * When the emitted components hold exactly the visited nodes, each
   * visited node lies in exactly one component, and once there.
   */
  lemma ExactlyOneComponent(sccs: seq<seq<nat>>, visited: seq<nat>, u: nat)
    requires multiset(Flatten(sccs)) == multiset(visited)
    requires forall j, k :: 0 <= j < k < |visited| ==> visited[j] != visited[k]
    requires u in visited
    ensures InOneComponent(sccs, u)
  {
    DistinctCountOne(visited, u);
    assert u in multiset(Flatten(sccs));
    InFlattenSomeComponent(sccs, u);
    forall c | 0 <= c < |sccs| && u in sccs[c]
      ensures multiset(sccs[c])[u] == 1
    {
      FlattenCountAtLeast(sccs, c, u);
    }
    forall c1, c2 | 0 <= c1 < c2 < |sccs|
      ensures !(u in sccs[c1] && u in sccs[c2])
    {
      FlattenCountTwo(sccs, c1, c2, u);
    }
  }

  /** Non-empty components made only of u, with u in exactly one of them once, are the single component [u]. */
  lemma SingleNodeComponents(sccs: seq<seq<nat>>, u: nat)
    requires InOneComponent(sccs, u)
    requires forall c :: 0 <= c < |sccs| ==> sccs[c] != []
    requires forall c, j :: 0 <= c < |sccs| && 0 <= j < |sccs[c]| ==> sccs[c][j] == u
    ensures sccs == [[u]]
  {
    EachHolds(sccs, u);
    assert |sccs| == 1;
    var s := sccs[0];
    CountAllSame(s, u);
    assert s == [u];
  }

  /** Every non-empty component made only of u holds u. */
  lemma EachHolds(sccs: seq<seq<nat>>, u: nat)
    requires forall c :: 0 <= c < |sccs| ==> sccs[c] != []
    requires forall c, j :: 0 <= c < |sccs| && 0 <= j < |sccs[c]| ==> sccs[c][j] == u
    ensures forall c :: 0 <= c < |sccs| ==> u in sccs[c]
    ensures |sccs| >= 2 ==> u in sccs[0] && u in sccs[1]
  {
    forall c | 0 <= c < |sccs|
      ensures u in sccs[c]
    {
      assert sccs[c][0] == u;
    }
  }

  /** A sequence made only of u holds u as often as it is long. */
  lemma {:induction false} CountAllSame(s: seq<nat>, u: nat)
    requires forall j :: 0 <= j < |s| ==> s[j] == u
    ensures multiset(s)[u] == |s|
  {
    if s != [] {
      assert s == [u] + s[1..];
      CountAllSame(s[1..], u);
    }
  }

  lemma {:induction false} DistinctCountOne(s: seq<nat>, u: nat)
    requires forall j, k :: 0 <= j < k < |s| ==> s[j] != s[k]
    requires u in s
    ensures multiset(s)[u] == 1
  {
    var init := s[..|s| - 1];
    assert s == init + [s[|s| - 1]];
    if u == s[|s| - 1] {
      assert u !in init;
    } else {
      DistinctCountOne(init, u);
    }
  }

  /** The per-node fields `index`, `lowlink`, `onstack` and one search's stack and bookkeeping, as values. */
  datatype Search = Search(index: seq<int>, lowlink: seq<int>, onstack: seq<bool>,
                           stack: seq<nat>, visited: seq<nat>, initial: seq<int>)

  /** The nodes whose index is still -1 (negative). */
  function UnvisitedOf(index: seq<int>): set<nat>
  {
    set u | 0 <= u < |index| && index[u] < 0
  }

  ghost predicate Shaped(succs: seq<seq<nat>>, s: Search)
  {
    && WellFormed(succs)
    && |s.index| == |s.lowlink| == |s.onstack| == |s.initial| == |succs|
  }

  /** The k-th visited node has index k: indices are handed out once each, in preorder. */
  ghost predicate Preorder(succs: seq<seq<nat>>, s: Search)
    requires Shaped(succs, s)
  {
    forall k :: 0 <= k < |s.visited| ==> s.visited[k] < |succs| && s.index[s.visited[k]] == k
  }

  /** Visited by this search exactly when unvisited before it and visited now; earlier visits are kept. */
  ghost predicate VisitedHere(succs: seq<seq<nat>>, s: Search)
    requires Shaped(succs, s)
  {
    && (forall u :: 0 <= u < |succs| ==> (u in s.visited <==> s.initial[u] < 0 && s.index[u] >= 0))
    && (forall u :: 0 <= u < |succs| && s.initial[u] >= 0 ==> s.index[u] == s.initial[u])
  }

  /** The stack holds nodes of this search in increasing index order, and `onstack` says which. */
  ghost predicate StackOrdered(succs: seq<seq<nat>>, s: Search)
    requires Shaped(succs, s)
  {
    && (forall p :: 0 <= p < |s.stack| ==> s.stack[p] < |succs| && s.stack[p] in s.visited)
    && (forall p, q :: 0 <= p < q < |s.stack| ==> s.index[s.stack[p]] < s.index[s.stack[q]])
    && (forall u :: 0 <= u < |succs| ==> (s.onstack[u] <==> u in s.stack))
  }

  /** lowlink <= index for every visited node, and no node on the stack has a lowlink below the bottom's index. */
  ghost predicate LowlinkBounds(succs: seq<seq<nat>>, s: Search)
    requires Shaped(succs, s) && Preorder(succs, s) && StackOrdered(succs, s)
  {
    && (forall k :: 0 <= k < |s.visited| ==> s.lowlink[s.visited[k]] <= k)
    && (forall p :: 0 <= p < |s.stack| ==> s.index[s.stack[0]] <= s.lowlink[s.stack[p]])
  }

  /** All successors of u are visited. */
  ghost predicate Finished(succs: seq<seq<nat>>, index: seq<int>, u: nat)
    requires WellFormed(succs) && |index| == |succs| && u < |succs|
  {
    forall j :: 0 <= j < |succs[u]| ==> index[succs[u][j]] >= 0
  }

  /** A node of this search that is off the stack has finished. */
  ghost predicate OffStackFinished(succs: seq<seq<nat>>, s: Search)
    requires Shaped(succs, s) && Preorder(succs, s)
  {
    forall k :: 0 <= k < |s.visited| && !s.onstack[s.visited[k]] ==> Finished(succs, s.index, s.visited[k])
  }

  ghost predicate SearchInv(succs: seq<seq<nat>>, s: Search)
  {
    && Shaped(succs, s)
    && Preorder(succs, s)
    && VisitedHere(succs, s)
    && StackOrdered(succs, s)
    && LowlinkBounds(succs, s)
    && OffStackFinished(succs, s)
  }

  /** Lines 60-62 of `strongconnect`: v numbered with the counter (|visited|) and pushed. */
  function VisitStep(s: Search, v: nat): Search
    requires v < |s.index| == |s.lowlink| == |s.onstack|
  {
    var k := |s.visited|;
    Search(s.index[v := k], s.lowlink[v := k], s.onstack[v := true], s.stack + [v], s.visited + [v], s.initial)
  }

  /** `n.lowlink = min(n.lowlink, x)`. */
  function LowerStep(s: Search, v: nat, x: int): Search
    requires v < |s.lowlink|
  {
    s.(lowlink := s.lowlink[v := Min(s.lowlink[v], x)])
  }

  /** `stack.pop`. */
  function PopStep(s: Search): Search
    requires s.stack != [] && s.stack[|s.stack| - 1] < |s.onstack|
  {
    var top := s.stack[|s.stack| - 1];
    s.(stack := s.stack[..|s.stack| - 1], onstack := s.onstack[top := false])
  }

  lemma VisitKeepsInv(succs: seq<seq<nat>>, s: Search, v: nat)
    requires SearchInv(succs, s) && v < |succs| && s.index[v] < 0
    ensures SearchInv(succs, VisitStep(s, v))
    ensures UnvisitedOf(VisitStep(s, v).index) == UnvisitedOf(s.index) - {v}
  {
    VisitKeepsNumbering(succs, s, v);
    VisitKeepsStack(succs, s, v);
    VisitKeepsLowlinks(succs, s, v);
  }

  /** The visited node gets the next preorder number and nothing else is renumbered. */
  lemma VisitKeepsNumbering(succs: seq<seq<nat>>, s: Search, v: nat)
    requires SearchInv(succs, s) && v < |succs| && s.index[v] < 0
    ensures Shaped(succs, VisitStep(s, v)) && Preorder(succs, VisitStep(s, v))
    ensures VisitedHere(succs, VisitStep(s, v)) && OffStackFinished(succs, VisitStep(s, v))
  {
    assert v !in s.visited;
  }

  lemma VisitKeepsStack(succs: seq<seq<nat>>, s: Search, v: nat)
    requires SearchInv(succs, s) && v < |succs| && s.index[v] < 0
    ensures Shaped(succs, VisitStep(s, v)) && StackOrdered(succs, VisitStep(s, v))
  {
    var s' := VisitStep(s, v);
    var k := |s.visited|;
    assert v !in s.visited;
    assert v !in s.stack;
    forall p, q | 0 <= p < q < |s'.stack|
      ensures s'.index[s'.stack[p]] < s'.index[s'.stack[q]]
    {
      if q == |s.stack| {
        var kp :| 0 <= kp < k && s.visited[kp] == s.stack[p];
      }
    }
  }

  lemma VisitKeepsLowlinks(succs: seq<seq<nat>>, s: Search, v: nat)
    requires SearchInv(succs, s) && v < |succs| && s.index[v] < 0
    requires Shaped(succs, VisitStep(s, v)) && Preorder(succs, VisitStep(s, v)) && StackOrdered(succs, VisitStep(s, v))
    ensures LowlinkBounds(succs, VisitStep(s, v))
    ensures UnvisitedOf(VisitStep(s, v).index) == UnvisitedOf(s.index) - {v}
  {
    var s' := VisitStep(s, v);
    var k := |s.visited|;
    assert v !in s.visited;
    forall p | 0 <= p < |s'.stack|
      ensures s'.index[s'.stack[0]] <= s'.lowlink[s'.stack[p]]
    {
      if |s.stack| > 0 {
        var k0 :| 0 <= k0 < k && s.visited[k0] == s.stack[0];
      }
    }
  }

  lemma LowerKeepsInv(succs: seq<seq<nat>>, s: Search, v: nat, x: int)
    requires SearchInv(succs, s) && v < |succs| && v in s.stack && s.index[s.stack[0]] <= x
    ensures SearchInv(succs, LowerStep(s, v, x))
  {
    var s' := LowerStep(s, v, x);
    assert Preorder(succs, s') && VisitedHere(succs, s') && StackOrdered(succs, s');
    assert LowlinkBounds(succs, s');
    assert OffStackFinished(succs, s');
  }

  lemma PopKeepsInv(succs: seq<seq<nat>>, s: Search)
    requires SearchInv(succs, s) && s.stack != []
    requires Finished(succs, s.index, s.stack[|s.stack| - 1])
    ensures SearchInv(succs, PopStep(s))
  {
    PopKeepsStack(succs, s);
    PopKeepsFinished(succs, s);
  }

  lemma PopKeepsStack(succs: seq<seq<nat>>, s: Search)
    requires SearchInv(succs, s) && s.stack != []
    ensures Shaped(succs, PopStep(s)) && Preorder(succs, PopStep(s)) && VisitedHere(succs, PopStep(s))
    ensures StackOrdered(succs, PopStep(s)) && LowlinkBounds(succs, PopStep(s))
  {
    var top := s.stack[|s.stack| - 1];
    assert forall p :: 0 <= p < |s.stack| - 1 ==> s.stack[p] != top;
  }

  lemma PopKeepsFinished(succs: seq<seq<nat>>, s: Search)
    requires SearchInv(succs, s) && s.stack != []
    requires Finished(succs, s.index, s.stack[|s.stack| - 1])
    ensures Shaped(succs, PopStep(s)) && Preorder(succs, PopStep(s)) && OffStackFinished(succs, PopStep(s))
  {
  }

  /** A node flagged onstack is on the stack, at or above the bottom. */
  lemma OnStackAboveBottom(succs: seq<seq<nat>>, s: Search, m: nat)
    requires SearchInv(succs, s) && m < |succs| && s.onstack[m]
    ensures m in s.stack && s.index[s.stack[0]] <= s.index[m]
  {
    var q :| 0 <= q < |s.stack| && s.stack[q] == m;
  }

  /** Once visited, a node stays visited while the search goes on. */
  lemma VisitedStays(succs: seq<seq<nat>>, s0: Search, s1: Search)
    requires SearchInv(succs, s0) && SearchInv(succs, s1) && s0.initial == s1.initial
    requires |s0.visited| <= |s1.visited| && s1.visited[..|s0.visited|] == s0.visited
    ensures UnvisitedOf(s1.index) <= UnvisitedOf(s0.index)
  {
    forall u | u in UnvisitedOf(s1.index)
      ensures u in UnvisitedOf(s0.index)
    {
      assert u !in s1.visited;
    }
  }

  lemma PrefixOfPrefix<T>(s: seq<T>, mid: seq<T>, pre: seq<T>)
    requires |pre| <= |mid| <= |s| && s[..|mid|] == mid && mid[..|pre|] == pre
    ensures s[..|pre|] == pre
  {
    assert s[..|pre|] == s[..|mid|][..|pre|];
  }

  lemma FlattenAppend(ss: seq<seq<nat>>, c: seq<nat>)
    ensures multiset(Flatten(ss + [c])) == multiset(Flatten(ss)) + multiset(c)
  {
    assert (ss + [c])[..|ss|] == ss;
  }

  /** A finished node stays finished while the search goes on. */
  lemma FinishedStays(succs: seq<seq<nat>>, s0: Search, s1: Search, u: nat)
    requires Shaped(succs, s0) && Shaped(succs, s1) && u < |succs|
    requires UnvisitedOf(s1.index) <= UnvisitedOf(s0.index) && Finished(succs, s0.index, u)
    ensures Finished(succs, s1.index, u)
  {
    forall j | 0 <= j < |succs[u]|
      ensures s1.index[succs[u][j]] >= 0
    {
      assert succs[u][j] !in UnvisitedOf(s0.index);
    }
  }

  /** The emitted components, the nodes popped but not yet emitted and the stack hold each visited node once. */
  ghost predicate Partition(sccs: seq<seq<nat>>, pending: seq<nat>, stack: seq<nat>, visited: seq<nat>)
  {
    multiset(Flatten(sccs)) + multiset(pending) + multiset(stack) == multiset(visited)
  }

  /**
   * The components from position `from` on were emitted since `index0`:
   * each is non-empty and ends with its root, the node it was popped down
   * to, which was unvisited in index0 and has lowlink == index.
   */
  ghost predicate RootedAfter(sccs: seq<seq<nat>>, from: nat, index0: seq<int>, index: seq<int>, lowlink: seq<int>)
  {
    forall c :: from <= c < |sccs| ==>
      && sccs[c] != []
      && var r := sccs[c][|sccs[c]| - 1];
         r < |index0| && r < |index| && r < |lowlink| && index0[r] < 0 && index[r] >= 0 && lowlink[r] == index[r]
  }

  /**
   * A child call's components, rooted since the state before it, stay rooted
   * since an earlier state when the child keeps every visited index and
   * every visited lowlink except v's; none of them ends with the visited v.
   */
  lemma RootedCompose(s1: seq<seq<nat>>, s2: seq<seq<nat>>, from: nat, index0: seq<int>, index1: seq<int>,
                      index2: seq<int>, lowlink1: seq<int>, lowlink2: seq<int>, v: nat)
    requires from <= |s1| <= |s2| && s2[..|s1|] == s1
    requires RootedAfter(s1, from, index0, index1, lowlink1) && RootedAfter(s2, |s1|, index1, index2, lowlink2)
    requires forall c :: from <= c < |s1| ==> s1[c] != [] && s1[c][|s1[c]| - 1] != v
    requires |index0| == |index1| == |index2| == |lowlink1| == |lowlink2|
    requires forall u :: 0 <= u < |index0| && index0[u] >= 0 ==> index1[u] == index0[u]
    requires forall u :: 0 <= u < |index1| && index1[u] >= 0 ==>
               index2[u] == index1[u] && (u != v ==> lowlink2[u] == lowlink1[u])
    requires v < |index1| && index1[v] >= 0
    ensures RootedAfter(s2, from, index0, index2, lowlink2)
    ensures forall c :: from <= c < |s2| ==> s2[c] != [] && s2[c][|s2[c]| - 1] != v
  {
    forall c | from <= c < |s2|
      ensures s2[c] != [] && s2[c][|s2[c]| - 1] != v
      ensures var r := s2[c][|s2[c]| - 1];
              r < |index0| && r < |index2| && r < |lowlink2| && index0[r] < 0 && index2[r] >= 0 && lowlink2[r] == index2[r]
    {
      if c < |s1| {
        assert s2[c] == s1[c];
      }
    }
  }

  /** Appending a component that ends with a newly visited root keeps every component rooted. */
  lemma RootedAppend(sccs: seq<seq<nat>>, from: nat, index0: seq<int>, index: seq<int>, lowlink: seq<int>, comp: seq<nat>)
    requires from <= |sccs| && RootedAfter(sccs, from, index0, index, lowlink)
    requires comp != [] && var r := comp[|comp| - 1];
               r < |index0| && r < |index| && r < |lowlink| && index0[r] < 0 && index[r] >= 0 && lowlink[r] == index[r]
    ensures RootedAfter(sccs + [comp], from, index0, index, lowlink)
  {
    forall c | from <= c < |sccs| + 1
      ensures (sccs + [comp])[c] == if c < |sccs| then sccs[c] else comp
    {
    }
  }

  /** A node visited and pushed keeps the partition. */
  lemma PartitionVisit(sccs: seq<seq<nat>>, stack: seq<nat>, visited: seq<nat>, v: nat)
    requires Partition(sccs, [], stack, visited)
    ensures Partition(sccs, [], stack + [v], visited + [v])
  {
  }

  /** A node moved from the top of the stack to the pending component keeps the partition. */
  lemma PartitionPop(sccs: seq<seq<nat>>, pending: seq<nat>, stack: seq<nat>, visited: seq<nat>)
    requires Partition(sccs, pending, stack, visited) && stack != []
    ensures Partition(sccs, pending + [stack[|stack| - 1]], stack[..|stack| - 1], visited)
  {
    assert stack == stack[..|stack| - 1] + [stack[|stack| - 1]];
  }

  /** The pending component, once emitted, keeps the partition. */
  lemma PartitionEmit(sccs: seq<seq<nat>>, scc: seq<nat>, stack: seq<nat>, visited: seq<nat>)
    requires Partition(sccs, scc, stack, visited)
    ensures Partition(sccs + [scc], [], stack, visited)
  {
    FlattenAppend(sccs, scc);
  }

  /**
   * Inside strongconnect(v), before its i-th successor, in a search whose
   * visited nodes, components and stack were vis0, sccs0 and s0 when v was
   * reached: v was numbered next and sits just above s0, the components only
   * grew, every node above v has finished, and v's first i successors are
   * visited.
   */
  ghost predicate Scanning(succs: seq<seq<nat>>, index: seq<int>, visited: seq<nat>, sccs: seq<seq<nat>>,
                           stack: seq<nat>, v: nat, i: nat, vis0: seq<nat>, sccs0: seq<seq<nat>>, s0: seq<nat>)
  {
    && WellFormed(succs) && |index| == |succs| && v < |succs| && i <= |succs[v]|
    && |visited| > |vis0| && visited[..|vis0|] == vis0 && visited[|vis0|] == v
    && |sccs| >= |sccs0| && sccs[..|sccs0|] == sccs0
    && |stack| > |s0| && stack[..|s0|] == s0 && stack[|s0|] == v
    && (forall p :: |s0| < p < |stack| ==> stack[p] < |succs| && Finished(succs, index, stack[p]))
    && (forall j :: 0 <= j < i ==> index[succs[v][j]] >= 0)
  }

  /**
   * After strongconnect(v): v was numbered next, the components and the
   * stack only grew, and either v is a root (lowlink == index) whose
   * component has been emitted, leaving the stack as it was, or v stays on
   * the stack just above s0 with a lowlink below its index.  v and every
   * node left above s0 have finished.
   */
  ghost predicate Connected(succs: seq<seq<nat>>, index: seq<int>, lowlink: seq<int>, visited: seq<nat>,
                            sccs: seq<seq<nat>>, stack: seq<nat>, v: nat, vis0: seq<nat>, sccs0: seq<seq<nat>>, s0: seq<nat>)
  {
    && WellFormed(succs) && |index| == |lowlink| == |succs| && v < |succs|
    && |visited| > |vis0| && visited[..|vis0|] == vis0 && visited[|vis0|] == v
    && |sccs| >= |sccs0| && sccs[..|sccs0|] == sccs0
    && |stack| >= |s0| && stack[..|s0|] == s0
    && (lowlink[v] == index[v] ==> stack == s0)
    && (lowlink[v] != index[v] ==> lowlink[v] < index[v] && |stack| > |s0| && stack[|s0|] == v)
    && (forall p :: |s0| <= p < |stack| ==> stack[p] < |succs| && Finished(succs, index, stack[p]))
    && Finished(succs, index, v)
  }

  /** Visiting v (lines 60-62) starts the scan of v's successors. */
  lemma ScanStarts(succs: seq<seq<nat>>, s: Search, sccs: seq<seq<nat>>, v: nat)
    requires SearchInv(succs, s) && v < |succs| && s.index[v] < 0
    ensures var s' := VisitStep(s, v);
      Scanning(succs, s'.index, s'.visited, sccs, s'.stack, v, 0, s.visited, sccs, s.stack)
  {
    var s' := VisitStep(s, v);
    assert s'.visited[..|s.visited|] == s.visited;
    assert s'.stack[..|s.stack|] == s.stack;
  }

  /** The successor a scan is at is a node of the graph. */
  lemma ScanBounds(succs: seq<seq<nat>>, index: seq<int>, visited: seq<nat>, sccs: seq<seq<nat>>,
                   stack: seq<nat>, v: nat, i: nat, vis0: seq<nat>, sccs0: seq<seq<nat>>, s0: seq<nat>)
    requires Scanning(succs, index, visited, sccs, stack, v, i, vis0, sccs0, s0) && i < |succs[v]|
    ensures succs[v][i] < |index|
  {
  }

  /** A successor that was already visited when reached leaves the scan going. */
  lemma ScanSkips(succs: seq<seq<nat>>, index: seq<int>, visited: seq<nat>, sccs: seq<seq<nat>>,
                  stack: seq<nat>, v: nat, i: nat, vis0: seq<nat>, sccs0: seq<seq<nat>>, s0: seq<nat>)
    requires Scanning(succs, index, visited, sccs, stack, v, i, vis0, sccs0, s0)
    requires i < |succs[v]| && index[succs[v][i]] >= 0
    ensures Scanning(succs, index, visited, sccs, stack, v, i + 1, vis0, sccs0, s0)
  {
  }

  /**
   * After the recursive strongconnect(m) for v's i-th successor m returns,
   * the scan goes on, v is on the stack, and m's lowlink is no lower than
   * the stack bottom's index, so v's lowlink may be lowered to it.
   */
  lemma ChildReturned(succs: seq<seq<nat>>, pre: Search, mid: Search, preSccs: seq<seq<nat>>, midSccs: seq<seq<nat>>,
                      v: nat, i: nat, vis0: seq<nat>, sccs0: seq<seq<nat>>, s0: seq<nat>)
    requires SearchInv(succs, pre) && SearchInv(succs, mid) && pre.initial == mid.initial
    requires Scanning(succs, pre.index, pre.visited, preSccs, pre.stack, v, i, vis0, sccs0, s0)
    requires i < |succs[v]| && pre.index[succs[v][i]] < 0
    requires Connected(succs, mid.index, mid.lowlink, mid.visited, midSccs, mid.stack, succs[v][i],
                       pre.visited, preSccs, pre.stack)
    ensures Scanning(succs, mid.index, mid.visited, midSccs, mid.stack, v, i + 1, vis0, sccs0, s0)
    ensures v in mid.stack && mid.index[mid.stack[0]] <= mid.lowlink[succs[v][i]]
  {
    hide SearchInv, Scanning, Connected;
    ChildScanGoesOn(succs, pre, mid, preSccs, midSccs, v, i, vis0, sccs0, s0);
    ChildLowlinkBounded(succs, pre, mid, preSccs, midSccs, v, i, vis0, sccs0, s0);
  }

  lemma ChildScanGoesOn(succs: seq<seq<nat>>, pre: Search, mid: Search, preSccs: seq<seq<nat>>, midSccs: seq<seq<nat>>,
                        v: nat, i: nat, vis0: seq<nat>, sccs0: seq<seq<nat>>, s0: seq<nat>)
    requires SearchInv(succs, pre) && SearchInv(succs, mid) && pre.initial == mid.initial
    requires Scanning(succs, pre.index, pre.visited, preSccs, pre.stack, v, i, vis0, sccs0, s0)
    requires i < |succs[v]| && pre.index[succs[v][i]] < 0
    requires Connected(succs, mid.index, mid.lowlink, mid.visited, midSccs, mid.stack, succs[v][i],
                       pre.visited, preSccs, pre.stack)
    ensures Scanning(succs, mid.index, mid.visited, midSccs, mid.stack, v, i + 1, vis0, sccs0, s0)
  {
    var m := succs[v][i];
    VisitedStays(succs, pre, mid);
    PrefixOfPrefix(mid.visited, pre.visited, vis0);
    PrefixOfPrefix(midSccs, preSccs, sccs0);
    PrefixOfPrefix(mid.stack, pre.stack, s0);
    assert mid.stack[|s0|] == v by {
      assert mid.stack[|s0|] == pre.stack[|s0|];
    }
    forall p | |s0| < p < |mid.stack|
      ensures mid.stack[p] < |succs| && Finished(succs, mid.index, mid.stack[p])
    {
      if p < |pre.stack| {
        assert mid.stack[p] == pre.stack[p];
        FinishedStays(succs, pre, mid, mid.stack[p]);
      }
    }
    forall j | 0 <= j < i + 1
      ensures mid.index[succs[v][j]] >= 0
    {
      if j < i {
        assert succs[v][j] !in UnvisitedOf(pre.index);
      } else {
        assert mid.visited[|pre.visited|] == m;
      }
    }
  }

  lemma ChildLowlinkBounded(succs: seq<seq<nat>>, pre: Search, mid: Search, preSccs: seq<seq<nat>>, midSccs: seq<seq<nat>>,
                            v: nat, i: nat, vis0: seq<nat>, sccs0: seq<seq<nat>>, s0: seq<nat>)
    requires SearchInv(succs, pre) && SearchInv(succs, mid)
    requires Scanning(succs, pre.index, pre.visited, preSccs, pre.stack, v, i, vis0, sccs0, s0)
    requires i < |succs[v]|
    requires Connected(succs, mid.index, mid.lowlink, mid.visited, midSccs, mid.stack, succs[v][i],
                       pre.visited, preSccs, pre.stack)
    ensures v in mid.stack && mid.index[mid.stack[0]] <= mid.lowlink[succs[v][i]]
  {
    var m := succs[v][i];
    PrefixOfPrefix(mid.visited, pre.visited, vis0);
    PrefixOfPrefix(mid.stack, pre.stack, s0);
    assert mid.stack[|s0|] == v by {
      assert mid.stack[|s0|] == pre.stack[|s0|];
    }
    assert mid.index[mid.stack[0]] <= mid.index[v] by {
      if |s0| > 0 {
        assert mid.stack[0] == s0[0];
      }
    }
    if mid.lowlink[m] == mid.index[m] {
      assert mid.index[v] == |vis0| && mid.index[m] == |pre.visited|;
    } else {
      assert mid.stack[|pre.stack|] == m;
    }
  }

  /** Lines 71-81 when v is a root: the popped stack is s0 again and the component is appended. */
  lemma RootEmitted(succs: seq<seq<nat>>, index: seq<int>, lowlink: seq<int>, visited: seq<nat>,
                    sccs: seq<seq<nat>>, stack: seq<nat>, scc: seq<nat>, v: nat,
                    vis0: seq<nat>, sccs0: seq<seq<nat>>, s0: seq<nat>, sccs': seq<seq<nat>>, stack': seq<nat>)
    requires v < |succs| && Scanning(succs, index, visited, sccs, stack, v, |succs[v]|, vis0, sccs0, s0)
    requires |lowlink| == |succs| && lowlink[v] == index[v]
    requires sccs' == sccs + [scc] && stack' == stack[..|s0|]
    ensures Connected(succs, index, lowlink, visited, sccs', stack', v, vis0, sccs0, s0)
  {
    PrefixOfPrefix(sccs + [scc], sccs, sccs0);
  }

  /** Lines 71-81 when v is not a root: v stays on the stack with lowlink below index. */
  lemma NotRootStays(succs: seq<seq<nat>>, s: Search, sccs: seq<seq<nat>>, v: nat,
                     vis0: seq<nat>, sccs0: seq<seq<nat>>, s0: seq<nat>)
    requires SearchInv(succs, s)
    requires v < |succs| && Scanning(succs, s.index, s.visited, sccs, s.stack, v, |succs[v]|, vis0, sccs0, s0)
    requires s.lowlink[v] != s.index[v]
    ensures Connected(succs, s.index, s.lowlink, s.visited, sccs, s.stack, v, vis0, sccs0, s0)
  {
    assert s.index[s.visited[|vis0|]] == |vis0|;
  }

  /** A search started from an empty stack leaves the stack empty: its start is always a root. */
  lemma TopLevelIsRoot(succs: seq<seq<nat>>, s: Search, sccs: seq<seq<nat>>, v: nat,
                       vis0: seq<nat>, sccs0: seq<seq<nat>>)
    requires SearchInv(succs, s)
    requires Connected(succs, s.index, s.lowlink, s.visited, sccs, s.stack, v, vis0, sccs0, [])
    ensures s.stack == [] && s.lowlink[v] == s.index[v]
  {
  }

  /**
   * A search (Find) that ends with an empty stack: no node is left
   * onstack; the components hold exactly the nodes this search visited,
   * each in one component once; and if the nodes visited before were
   * closed under successors, so are the nodes visited now.
   */
  lemma SearchDone(succs: seq<seq<nat>>, s: Search, sccs: seq<seq<nat>>)
    requires SearchInv(succs, s) && s.stack == [] && Partition(sccs, [], [], s.visited)
    ensures forall u :: 0 <= u < |succs| ==> !s.onstack[u]
    ensures forall u :: 0 <= u < |succs| && s.initial[u] >= 0 ==> s.index[u] == s.initial[u]
    ensures forall u :: 0 <= u < |succs| && s.initial[u] < 0 && s.index[u] >= 0 ==> InOneComponent(sccs, u)
    ensures forall c, j :: 0 <= c < |sccs| && 0 <= j < |sccs[c]| ==>
              sccs[c][j] < |succs| && s.initial[sccs[c][j]] < 0 && s.index[sccs[c][j]] >= 0
    ensures Closed(succs, s.initial) ==> Closed(succs, s.index)
  {
    VisitedDistinct(succs, s);
    forall u | 0 <= u < |succs| && s.initial[u] < 0 && s.index[u] >= 0
      ensures InOneComponent(sccs, u)
    {
      ExactlyOneComponent(sccs, s.visited, u);
    }
    forall c, j | 0 <= c < |sccs| && 0 <= j < |sccs[c]|
      ensures sccs[c][j] < |succs| && s.initial[sccs[c][j]] < 0 && s.index[sccs[c][j]] >= 0
    {
      FlattenCountAtLeast(sccs, c, sccs[c][j]);
      assert sccs[c][j] in multiset(s.visited);
    }
    SearchClosed(succs, s);
  }

  /** Preorder numbers are distinct, so no node is visited twice. */
  lemma VisitedDistinct(succs: seq<seq<nat>>, s: Search)
    requires SearchInv(succs, s)
    ensures forall j, k :: 0 <= j < k < |s.visited| ==> s.visited[j] != s.visited[k]
  {
  }

  /** With the stack empty every node of the search has finished, so closedness is kept. */
  lemma SearchClosed(succs: seq<seq<nat>>, s: Search)
    requires SearchInv(succs, s) && s.stack == []
    ensures Closed(succs, s.initial) ==> Closed(succs, s.index)
  {
    if Closed(succs, s.initial) {
      forall u, k | 0 <= u < |succs| && s.index[u] >= 0 && 0 <= k < |succs[u]|
        ensures s.index[succs[u][k]] >= 0
      {
        if s.initial[u] >= 0 {
          assert s.initial[succs[u][k]] >= 0;
        } else {
          var n :| 0 <= n < |s.visited| && s.visited[n] == u;
          assert Finished(succs, s.index, u);
        }
      }
    }
  }
}
