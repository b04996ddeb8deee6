/**
 * The singly-linked list SList of ds/lists.go, with head `h`, tail `t`
 * and count `n`; used both as a stack (Push/Pop) and as a queue
 * (Enqueue/Dequeue).
 */
module Lists {
  import opened Wrappers
  import opened Ranges

  /** `snode`: a value and the next pointer. */
  class SNode<T> {
    var next: SNode?<T>
    var v: T

    constructor (v: T, next: SNode?<T>)
      ensures this.v == v && this.next == next
    {
      this.v := v;
      this.next := next;
    }
  }

  class SList<T> {
    var h: SNode?<T>  // head pointer
    var t: SNode?<T>  // tail pointer
    var n: int        // number of elements

    ghost var Contents: seq<T>         // the values from head to tail
    ghost var Nodes: seq<SNode<T>>     // the nodes reachable from h, in order
    ghost var Repr: set<object>

    /**
     * The nodes reachable from h are exactly Nodes, linked in order and
     * ending in nil; t is the last of them; n counts them.
     */
    ghost predicate Valid()
      reads this, Repr
      ensures Valid() ==> this in Repr
      ensures Valid() ==> (h == null <==> n == 0) && (t == null <==> n == 0)
    {
      && this in Repr
      && (forall k :: 0 <= k < |Nodes| ==> Nodes[k] in Repr)
      && n == |Nodes| == |Contents|
      && (forall j, k :: 0 <= j < k < |Nodes| ==> Nodes[j] != Nodes[k])
      && (forall k :: 0 <= k < |Nodes| ==> Nodes[k].v == Contents[k])
      && (forall k :: 0 <= k < |Nodes| - 1 ==> Nodes[k].next == Nodes[k + 1])
      && (n == 0 ==> h == null && t == null)
      && (n > 0 ==> h == Nodes[0] && t == Nodes[n - 1] && t.next == null)
    }

    /** The zero SList: no nodes. */
    constructor ()
      ensures Valid() && fresh(Repr) && Contents == []
    {
      h, t, n := null, null, 0;
      Contents, Nodes, Repr := [], [], {this};
    }

    function Len(): (r: int)
      reads this, Repr
      requires Valid()
      ensures r == |Contents|
    {
      n
    }

    /** A new head node in front of the old contents; on an empty list it is the tail too. */
    method Push(v: T)
      requires Valid()
      modifies this
      ensures Valid() && fresh(Repr - old(Repr))
      ensures Contents == [v] + old(Contents)
      ensures old(n) == 0 ==> h == t
    {
      h := new SNode(v, h);
      if n == 0 {
        t := h;
      }
      n := n + 1;
      Nodes, Contents, Repr := [h] + Nodes, [v] + Contents, Repr + {h};
    }

    /** Refused on an empty list; otherwise the head value, with the tail cleared when the list empties. */
    method Pop() returns (r: Option<T>)
      requires Valid()
      modifies this
      ensures Valid() && Repr <= old(Repr)
      ensures r.None? <==> old(Contents) == []
      ensures r.None? ==> unchanged(this)
      ensures r.Some? ==> r.value == old(Contents)[0] && Contents == old(Contents)[1..]
    {
      if n == 0 {
        return None;
      }
      var v := h.v;
      h := h.next;
      n := n - 1;
      if n == 0 {
        t := null;
      }
      Nodes, Contents := Nodes[1..], Contents[1..];
      return Some(v);
    }

    /** A new node linked after the tail; the existing nodes and their order stay as they were. */
    method Enqueue(v: T)
      requires Valid()
      modifies this, t
      ensures Valid() && fresh(Repr - old(Repr))
      ensures Contents == old(Contents) + [v]
    {
      var x := new SNode(v, null);
      if n == 0 {
        h := x;
      } else {
        t.next := x;
      }
      t := x;
      n := n + 1;
      Nodes, Contents, Repr := Nodes + [x], Contents + [v], Repr + {x};
    }

    /** `Dequeue` is `Pop`. */
    method Dequeue() returns (r: Option<T>)
      requires Valid()
      modifies this
      ensures Valid() && Repr <= old(Repr)
      ensures r.None? <==> old(Contents) == []
      ensures r.None? ==> unchanged(this)
      ensures r.Some? ==> r.value == old(Contents)[0] && Contents == old(Contents)[1..]
    {
      r := Pop();
    }
  }



  /**
   * TestSListStack of ds/lists_test.go: pushing 0..64 gives Len 65;
   * popping yields 64 down to 0; Len is then 0 and Pop fails.
   */
  method StackScenario() returns (len: int, popped: seq<int>, last: Option<int>, finalLen: int)
    ensures len == 65 && last == None && finalLen == 0
    ensures |popped| == 65 && forall j :: 0 <= j < 65 ==> popped[j] == 64 - j
  {
    var l := PushedList();
    var i := 65;
    len := l.Len();
    popped := [];
    while i > 0
      invariant 0 <= i <= 65
      invariant l.Valid() && fresh(l.Repr) && l.Contents == Downfrom(i)
      invariant |popped| == 65 - i && forall j :: 0 <= j < 65 - i ==> popped[j] == 64 - j
    {
      var r := l.Pop();
      assert r == Some(i - 1);
      popped := popped + [r.value];
      i := i - 1;
    }
    finalLen := l.Len();
    last := l.Pop();
  }

  /** The first half of TestSListStack: pushing 0..64 on an empty list leaves 64 at the head. */
  method PushedList() returns (l: SList<int>)
    ensures l.Valid() && fresh(l.Repr) && l.Contents == Downfrom(65)
  {
    l := new SList<int>();
    var i := 0;
    while i < 65
      invariant 0 <= i <= 65
      invariant l.Valid() && fresh(l.Repr) && l.Contents == Downfrom(i)
    {
      l.Push(i);
      i := i + 1;
    }
  }

  /**
   * TestSListQueue of ds/lists_test.go: the i-th Dequeue of 65 returns i
   * and leaves Len 65 - i - 1; a further Dequeue fails.
   */
  method QueueScenario() returns (dequeued: seq<int>, lens: seq<int>, last: Option<int>)
    ensures |dequeued| == |lens| == 65 && last == None
    ensures forall j :: 0 <= j < 65 ==> dequeued[j] == j && lens[j] == 64 - j
  {
    var l, _ := EnqueuedList();
    dequeued, lens := [], [];
    var i := 0;
    while i < 65
      invariant 0 <= i <= 65
      invariant l.Valid() && fresh(l.Repr) && l.Contents == Upto(65)[i..]
      invariant |dequeued| == |lens| == i && forall j :: 0 <= j < i ==> dequeued[j] == j && lens[j] == 64 - j
    {
      var r := l.Dequeue();
      assert r == Some(i);
      dequeued, lens := dequeued + [r.value], lens + [l.Len()];
      i := i + 1;
    }
    last := l.Dequeue();
  }

  /** The first half of TestSListQueue: enqueueing 0..64 on an empty list, Len is i + 1 after the i-th. */
  method EnqueuedList() returns (l: SList<int>, lens: seq<int>)
    ensures l.Valid() && fresh(l.Repr) && l.Contents == Upto(65)
    ensures |lens| == 65 && forall j :: 0 <= j < 65 ==> lens[j] == j + 1
  {
    l := new SList<int>();
    lens := [];
    var i := 0;
    while i < 65
      invariant 0 <= i <= 65
      invariant l.Valid() && fresh(l.Repr) && l.Contents == Upto(i)
      invariant |lens| == i && forall j :: 0 <= j < i ==> lens[j] == j + 1
    {
      l.Enqueue(i);
      lens := lens + [l.Len()];
      i := i + 1;
    }
  }
}
