/**
 * The Queue of ds/arrays.go: a circular buffer over a backing slice `s`
 * whose live elements start at the read index `r` and number `n`.
 */
module Queues {
  import opened Wrappers
  import opened Ranges
  import opened Arrays

  /** Go's `%` on the non-negative operands the queue uses, for a sum below twice the modulus. */
  lemma ModBelowTwice(x: int, m: int)
    requires 0 <= x < 2 * m
    ensures x % m == if x < m then x else x - m
  {
    if x >= m {
      assert x == (x - m) + m * 1;
    }
  }

  /** Slot of the element k places after the read index r in a ring of cap slots. */
  function Slot(r: int, k: int, cap: int): (j: int)
    requires 0 <= r < cap && 0 <= k <= cap
    ensures 0 <= j < cap
    ensures j == if r + k < cap then r + k else r + k - cap
  {
    ModBelowTwice(r + k, cap);
    (r + k) % cap
  }

  class Queue<T(0)> {
    var s: array<T>  // backing slice
    var r: int       // read index
    var n: int       // number of elements

    ghost predicate Valid()
      reads this
    {
      && 0 <= n <= s.Length
      && 0 <= r
      && (r < s.Length || (s.Length == 0 && r == 0))
    }

    /** The elements from the oldest to the newest. */
    ghost function Contents(): (c: seq<T>)
      reads this, s
      requires Valid()
      ensures |c| == n && forall k :: 0 <= k < n ==> c[k] == s[Slot(r, k, s.Length)]
    {
      var a, r0, n0 := s, r, n;
      seq(n0, k requires 0 <= k < n0 reads a => a[Slot(r0, k, a.Length)])
    }

    /** The zero value: a nil backing slice. */
    constructor ()
      ensures Valid() && fresh(s)
      ensures Contents() == [] && s.Length == 0
    {
      s := new T[0];
      r, n := 0, 0;
    }

    function Len(): (l: int)
      reads this, s
      requires Valid()
      ensures l == |Contents()|
    {
      n
    }

    method Enqueue(v: T)
      requires Valid()
      modifies this, s
      ensures Valid() && (s == old(s) || fresh(s))
      ensures Contents() == old(Contents()) + [v]
      ensures s.Length == CapacityAfterAdd(old(s.Length), old(n))
    {
      if n + 1 > s.Length {
        Resize();
      }
      ghost var before := Contents();
      ghost var slot := Slot(r, n, s.Length);
      s[(r + n) % s.Length] := v;
      n := n + 1;
      assert forall k :: 0 <= k < n - 1 ==> Slot(r, k, s.Length) != slot;
      assert Contents() == before + [v];
    }

    method Dequeue() returns (x: Option<T>)
      requires Valid()
      modifies this
      ensures Valid() && (s == old(s) || fresh(s))
      ensures x.None? <==> old(Contents()) == []
      ensures x.None? ==> unchanged(this)
      ensures x.Some? ==> x.value == old(Contents())[0] && Contents() == old(Contents())[1..]
      ensures x.Some? ==> s.Length == CapacityAfterRemove(old(s.Length), old(n) - 1)
    {
      if n == 0 {
        return None;
      }
      ghost var before := Contents();
      var v := s[r];
      ghost var r0 := r;
      r := (r + 1) % s.Length;
      assert r == Slot(r0, 1, s.Length);
      n := n - 1;
      assert forall k :: 0 <= k < n ==> Contents()[k] == before[k + 1];
      if s.Length >= 3 * n {
        Resize();
      }
      return Some(v);
    }

    /** `resize`: copies the n live elements, oldest first, into a fresh slice of length max(2n, 1). */
    method Resize()
      requires Valid()
      modifies this
      ensures Valid() && fresh(s) && n == old(n) && r == 0
      ensures s.Length == Max(2 * n, 1)
      ensures Contents() == old(Contents())
    {
      var t := new T[Max(2 * n, 1)];
      var i := 0;
      while i < n
        invariant 0 <= i <= n && t.Length == Max(2 * n, 1)
        invariant forall k :: 0 <= k < i ==> t[k] == s[Slot(r, k, s.Length)]
        modifies t
      {
        t[i] := s[(r + i) % s.Length];
        i := i + 1;
      }
      s, r := t, 0;
    }
  }


  /**
   * The queue scenario of ds/arrays_test.go: 65 enqueues reach capacity
   * 128; each Dequeue returns the next value in order and lowers Len by one;
   * a further Dequeue fails; capacity is 1.
   */
  method QueueScenario() returns (dequeued: seq<int>, lens: seq<int>, last: Option<int>, cap: int)
    ensures |dequeued| == |lens| == 65 && last == None && cap == 1
    ensures forall j :: 0 <= j < 65 ==> dequeued[j] == j && lens[j] == 64 - j
  {
    var q := FilledQueue();
    dequeued, lens := [], [];
    var i := 0;
    while i < 65
      invariant 0 <= i <= 65
      invariant q.Valid() && q.Contents() == Upto(65)[i..]
      invariant |dequeued| == |lens| == i && forall j :: 0 <= j < i ==> dequeued[j] == j && lens[j] == 64 - j
      invariant i == 65 ==> q.s.Length == 1
      invariant fresh(q) && fresh(q.s)
    {
      var x := q.Dequeue();
      assert x == Some(i);
      dequeued, lens := dequeued + [x.value], lens + [q.Len()];
      i := i + 1;
    }
    last := q.Dequeue();
    cap := q.s.Length;
  }

  /** The first half of TestQueue: 65 enqueues from empty give 0..64 in a slice of length 128. */
  method FilledQueue() returns (q: Queue<int>)
    ensures fresh(q) && fresh(q.s) && q.Valid()
    ensures q.Contents() == Upto(65) && q.s.Length == 128
  {
    q := new Queue<int>();
    var i := 0;
    while i < 65
      invariant 0 <= i <= 65
      invariant q.Valid() && q.Contents() == Upto(i)
      invariant q.s.Length == CapacityAfterAppends(i)
      invariant fresh(q) && fresh(q.s)
    {
      q.Enqueue(i);
      i := i + 1;
    }
    SixtyFiveAppends();
  }
}
