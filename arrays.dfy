/**
 * The dynamic array of ds/arrays.go: a backing slice `s` of which the first
 * `n` slots hold the elements.  It doubles when full and shrinks when at most
 * a third of it is used.
 */
module Arrays {
  import opened Wrappers
  import opened Ranges

  /** `max` of ds/arrays.go. */
  function Max(a: int, b: int): (r: int)
    ensures r >= a && r >= b
    ensures r == a || r == b
  {
    if b > a then b else a
  }

  /** Capacity after a successful `Add` on n elements held in a slice of length cap. */
  function CapacityAfterAdd(cap: nat, n: nat): (c: nat)
    ensures n <= cap ==> n + 1 <= c
    ensures n < cap ==> c == cap
  {
    if n + 1 > cap then Max(2 * n, 1) else cap
  }

  /** Capacity after a successful `Remove` leaves n elements in a slice of length cap. */
  function CapacityAfterRemove(cap: nat, n: nat): (c: nat)
    ensures n <= cap ==> n <= c && 1 <= c
    ensures 3 * n > cap ==> c == cap
  {
    if cap >= 3 * n then Max(2 * n, 1) else cap
  }

  /** Capacity of an array (or queue) built by k appends from the empty value. */
  function CapacityAfterAppends(k: nat): nat
  {
    if k == 0 then 0 else CapacityAfterAdd(CapacityAfterAppends(k - 1), k - 1)
  }

  ghost predicate IsPowerOfTwo(c: nat)
  {
    c == 1 || (c >= 2 && c % 2 == 0 && IsPowerOfTwo(c / 2))
  }

  /** Growth by doubling: after k >= 1 appends the capacity is the least power of two >= k. */
  lemma {:induction false} AppendsCapacity(k: nat)
    requires k >= 1
    ensures k <= CapacityAfterAppends(k) < 2 * k
    ensures IsPowerOfTwo(CapacityAfterAppends(k))
  {
    if k > 1 {
      AppendsCapacity(k - 1);
      var c := CapacityAfterAppends(k - 1);
      if k - 1 == c {
        assert CapacityAfterAppends(k) == 2 * c;
        assert (2 * c) / 2 == c;
      }
    }
  }

  function Pow2(e: nat): nat
  {
    if e == 0 then 1 else 2 * Pow2(e - 1)
  }

  /** Between two powers of two the capacity after k appends is the upper one. */
  lemma {:induction false} AppendsCapacityPow2(e: nat, k: nat)
    requires Pow2(e) < k <= Pow2(e + 1)
    ensures CapacityAfterAppends(k) == Pow2(e + 1)
    decreases e, k
  {
    if k > Pow2(e) + 1 {
      AppendsCapacityPow2(e, k - 1);
    } else if e > 0 {
      AppendsCapacityPow2(e - 1, Pow2(e));
    }
  }

  /** The test's growth scenario: 65 appends from empty give capacity 128. */
  lemma SixtyFiveAppends()
    ensures CapacityAfterAppends(65) == 128
  {
    assert Pow2(6) == 64 && Pow2(7) == 128;
    AppendsCapacityPow2(6, 65);
  }

  /** Capacity after k successful removals starting from n elements in a slice of length cap. */
  function CapacityAfterRemovals(cap: nat, n: nat, k: nat): nat
    requires k <= n
  {
    if k == 0 then cap else CapacityAfterRemove(CapacityAfterRemovals(cap, n, k - 1), n - k)
  }

  /**
   * The test's shrink scenario: from 65 elements in 128 slots the capacity
   * stays 128 down to 43 elements, drops to 84 at 42 and stays there down to 32.
   */
  lemma {:induction false} ThirtyThreeRemovals(k: nat)
    requires k <= 33
    ensures CapacityAfterRemovals(128, 65, k) == if k <= 22 then 128 else 84
  {
    if k > 0 {
      ThirtyThreeRemovals(k - 1);
    }
  }

  class Array<T(0)> {
    var s: array<T>  // backing slice
    var n: int       // number of elements

    ghost predicate Valid()
      reads this
    {
      0 <= n <= s.Length
    }

    /** The elements, in order. */
    ghost function Contents(): seq<T>
      reads this, s
      requires Valid()
    {
      s[..n]
    }

    /** The zero value: a nil backing slice and no elements. */
    constructor ()
      ensures Valid() && fresh(s)
      ensures Contents() == [] && s.Length == 0
    {
      s := new T[0];
      n := 0;
    }

    function Len(): (r: int)
      reads this, s
      requires Valid()
      ensures r == |Contents()|
    {
      n
    }

    function Get(i: int): (r: Option<T>)
      reads this, s
      requires Valid()
      ensures r.Some? <==> 0 <= i < |Contents()|
      ensures r.Some? ==> r.value == Contents()[i]
    {
      if i < 0 || i > n - 1 then None else Some(s[i])
    }

    method Set(i: int, v: T) returns (r: Option<T>)
      requires Valid()
      modifies s
      ensures Valid()
      ensures r.Some? <==> 0 <= i < |old(Contents())|
      ensures r.Some? ==> r.value == old(Contents())[i] && Contents() == old(Contents())[i := v]
      ensures r.None? ==> unchanged(s)
    {
      if i < 0 || i > n - 1 {
        return None;
      }
      var t := s[i];
      s[i] := v;
      return Some(t);
    }

    /**
     * `Add` as written: `copy(a.s[i:], a.s[i+1:])` moves the slots after i
     * one place DOWN before storing v at i, so only i == Len appends.
     */
    method Add(i: int, v: T) returns (ok: bool)
      requires Valid()
      modifies this, s
      ensures Valid() && (s == old(s) || fresh(s))
      ensures ok <==> 0 <= i <= old(n)
      ensures !ok ==> unchanged(this) && unchanged(s)
      ensures ok ==> n == old(n) + 1 && s.Length == CapacityAfterAdd(old(s.Length), old(n))
      ensures ok ==> Contents()[..i] == old(Contents())[..i] && Contents()[i] == v
      ensures ok ==> forall j :: i < j < old(n) - 1 ==> Contents()[j] == old(Contents())[j + 1]
      ensures ok && i == old(n) ==> Contents() == old(Contents()) + [v]
    {
      if i < 0 || i > n {
        return false;
      }
      if n + 1 > s.Length {
        Resize();
      }
      ghost var grown := s[..];
      forall j | i <= j < s.Length - 1 {
        s[j] := s[j + 1];
      }
      s[i] := v;
      n := n + 1;
      assert forall j :: 0 <= j < i ==> s[j] == grown[j];
      return true;
    }

    /**
     * The evidently intended `Add`: `copy(a.s[i+1:], a.s[i:])` moves the
     * slots from i one place UP, so v is inserted before element i.
     */
    method Insert(i: int, v: T) returns (ok: bool)
      requires Valid()
      modifies this, s
      ensures Valid() && (s == old(s) || fresh(s))
      ensures ok <==> 0 <= i <= old(n)
      ensures !ok ==> unchanged(this) && unchanged(s)
      ensures ok ==> s.Length == CapacityAfterAdd(old(s.Length), old(n))
      ensures ok ==> Contents() == old(Contents())[..i] + [v] + old(Contents())[i..]
    {
      if i < 0 || i > n {
        return false;
      }
      if n + 1 > s.Length {
        Resize();
      }
      ghost var c := Contents();
      ShiftUp(i);
      s[i] := v;
      n := n + 1;
      assert Contents() == s[..i] + [s[i]] + s[i + 1..n];
      return true;
    }

    /** `copy(a.s[i+1:], a.s[i:])`: the slots from i move one place up, into a spare slot. */
    method ShiftUp(i: int)
      requires Valid() && 0 <= i <= n < s.Length
      modifies s
      ensures s[..i] == old(s[..i]) && s[i + 1..n + 1] == old(s[i..n])
    {
      forall j | i < j < s.Length {
        s[j] := s[j - 1];
      }
    }

    /**
     * `Remove` with the bound check of `Get` and `Set` (i > n-1); see
     * RemoveAsWritten for the guard as the source has it.
     */
    method Remove(i: int) returns (r: Option<T>)
      requires Valid()
      modifies this, s
      ensures Valid() && (s == old(s) || fresh(s))
      ensures r.Some? <==> 0 <= i < old(n)
      ensures r.None? ==> unchanged(this) && unchanged(s)
      ensures r.Some? ==> r.value == old(Contents())[i]
      ensures r.Some? ==> Contents() == old(Contents())[..i] + old(Contents())[i + 1..]
      ensures r.Some? ==> s.Length == CapacityAfterRemove(old(s.Length), old(n) - 1)
    {
      if i < 0 || i > n - 1 {
        return None;
      }
      var v := s[i];
      ghost var before := s[..];
      forall j | i <= j < s.Length - 1 {
        s[j] := s[j + 1];
      }
      n := n - 1;
      assert Contents() == before[..i] + before[i + 1..n + 1];
      if s.Length >= 3 * n {
        Resize();
      }
      return Some(v);
    }

    /** `resize`: a fresh slice of length max(2n, 1) holding a copy of the old one's prefix. */
    method Resize()
      requires Valid()
      modifies this
      ensures Valid() && fresh(s) && n == old(n)
      ensures s.Length == Max(2 * n, 1)
      ensures forall j :: 0 <= j < s.Length && j < old(s.Length) ==> s[j] == old(s[j])
      ensures Contents() == old(Contents())
    {
      var t := new T[Max(2 * n, 1)];
      forall j | 0 <= j < t.Length && j < s.Length {
        t[j] := s[j];
      }
      s := t;
    }
  }

  /** An Array's backing slice and count as plain values. */
  datatype Snapshot<T> = Snapshot(s: seq<T>, n: int)
  {
    ghost predicate Valid() { 0 <= n <= |s| }
  }

  datatype RemoveOutcome<T> = Refused | IndexPanic | Removed(v: T, after: Snapshot<T>)

  /** ds/arrays.go's `Remove` exactly as written, with the guard `i > a.n`. */
  function RemoveAsWritten<T>(a: Snapshot<T>, i: int): (r: RemoveOutcome<T>)
    requires a.Valid()
    ensures r.Refused? <==> i < 0 || i > a.n
    ensures r.IndexPanic? <==> 0 <= i == a.n == |a.s|
    ensures r.Removed? ==> 0 <= i < |a.s| && r.v == a.s[i] && r.after.n == a.n - 1
    ensures r.Removed? ==> forall j :: 0 <= j < i && j < |r.after.s| ==> r.after.s[j] == a.s[j]
    ensures r.Removed? ==> |r.after.s| <= |a.s|
    ensures r.Removed? && |a.s| >= 3 * (a.n - 1) ==> |r.after.s| == Max(2 * (a.n - 1), 1)
    ensures r.Removed? && |a.s| < 3 * (a.n - 1) ==> |r.after.s| == |a.s|
  {
    if i < 0 || i > a.n then Refused
    else if i >= |a.s| then IndexPanic
    else
      var moved := a.s[..i] + a.s[i + 1..] + [a.s[|a.s| - 1]];
      var n' := a.n - 1;
      var cap := if |moved| >= 3 * n' then Max(2 * n', 1) else |moved|;
      Removed(a.s[i], Snapshot(moved[..cap], n'))
  }

  /** Inside the range both guards agree: element i is returned and the rest close up. */
  lemma RemoveAsWrittenInRange<T>(a: Snapshot<T>, i: int)
    requires a.Valid() && 0 <= i < a.n
    ensures var o := RemoveAsWritten(a, i);
      && o.Removed? && o.v == a.s[i] && o.after.Valid()
      && o.after.s[..o.after.n] == a.s[..i] + a.s[i + 1..a.n]
  {
    var moved := a.s[..i] + a.s[i + 1..] + [a.s[|a.s| - 1]];
    assert moved[..a.n - 1] == a.s[..i] + a.s[i + 1..a.n];
  }

  /** On the zero Array (nil slice) `Remove(0)` passes the guard and indexes the nil slice. */
  lemma RemoveAsWrittenPanicsOnEmpty<T>(a: Snapshot<T>)
    requires a.s == [] && a.n == 0
    ensures a.Valid() && RemoveAsWritten(a, 0) == IndexPanic
  {
  }

  /**
   * A drained Array keeps one slot; `Remove(0)` then succeeds, returns the
   * stale slot and leaves the element count at -1.
   */
  lemma RemoveAsWrittenCountGoesNegative<T>(x: T)
    ensures RemoveAsWritten(Snapshot([x], 0), 0) == Removed(x, Snapshot([x], -1))
    ensures !Snapshot([x], -1).Valid()
  {
  }

  /** `Remove(Len)` on a non-full Array drops the last element but returns the stale slot after it. */
  lemma RemoveAsWrittenAtLen<T>(a: Snapshot<T>)
    requires a.Valid() && a.n < |a.s|
    ensures var o := RemoveAsWritten(a, a.n);
      o.Removed? && o.v == a.s[a.n] && o.after.n == a.n - 1
  {
  }

  /** The opening checks of TestArray: the zero Array refuses Get, Set and Remove at 0 and at -1. */
  method ZeroArrayRefuses() returns (refused: seq<Option<int>>)
    ensures refused == [None, None, None, None, None, None]
  {
    var a := new Array<int>();
    var s0 := a.Set(0, 1);
    var s1 := a.Set(-1, 1);
    var r0 := a.Remove(0);
    var r1 := a.Remove(-1);
    refused := [a.Get(0), a.Get(-1), s0, s1, r0, r1];
  }

  /**
   * The rest of TestArray in ds/arrays_test.go: 65 appends give capacity
   * 128; after each element i is replaced by i*i, removing every other
   * element from index 64 down returns i*i for each index i and leaves 32
   * elements in a slice of length 84.
   */
  method ArrayScenario() returns (removed: seq<int>, len: int, cap: int)
    ensures |removed| == 33 && forall k :: 0 <= k < 33 ==> removed[k] == (64 - 2 * k) * (64 - 2 * k)
    ensures len == 32 && cap == 84
  {
    var a := SquaredArray();
    var r: Option<int>;
    removed := [];
    var k := 0;
    while k < 33
      invariant 0 <= k <= 33
      invariant |removed| == k && forall j :: 0 <= j < k ==> removed[j] == (64 - 2 * j) * (64 - 2 * j)
      invariant a.Valid() && a.n == 65 - k && a.s.Length == CapacityAfterRemovals(128, 65, k)
      invariant forall j :: 0 <= j < 65 - 2 * k ==> a.Contents()[j] == j * j
      invariant fresh(a) && fresh(a.s)
    {
      var i := 64 - 2 * k;
      r := a.Remove(i);
      assert r == Some(i * i);
      removed := removed + [r.value];
      k := k + 1;
    }
    ThirtyThreeRemovals(33);
    len, cap := a.Len(), a.s.Length;
  }

  /** The growth half of TestArray: appending 0..64 to the zero Array gives those elements in a slice of length 128. */
  method FilledArray() returns (a: Array<int>)
    ensures fresh(a) && fresh(a.s) && a.Valid() && a.Contents() == Upto(65) && a.s.Length == 128
  {
    a := new Array<int>();
    var i := 0;
    while i < 65
      invariant 0 <= i <= 65
      invariant a.Valid() && a.Contents() == Upto(i) && a.s.Length == CapacityAfterAppends(i)
      invariant fresh(a) && fresh(a.s)
    {
      var ok := a.Add(i, i);
      assert ok;
      i := i + 1;
    }
    SixtyFiveAppends();
  }

  /** The squaring loop of TestArray: Get(i), then Set(i, v*v), for every index of the filled Array. */
  method SquaredArray() returns (a: Array<int>)
    ensures fresh(a) && fresh(a.s) && a.Valid() && a.n == 65 && a.s.Length == 128
    ensures forall j :: 0 <= j < 65 ==> a.Contents()[j] == j * j
  {
    a := FilledArray();
    var i := 0;
    while i < 65
      invariant 0 <= i <= 65
      invariant fresh(a) && fresh(a.s) && a.Valid() && a.n == 65 && a.s.Length == 128
      invariant forall j :: 0 <= j < 65 ==> a.Contents()[j] == if j < i then j * j else j
    {
      var v := a.Get(i);
      var previous := a.Set(i, v.value * v.value);
      i := i + 1;
    }
  }

  /**
   * The as-written `Add` at an index below Len is not an insertion: after
   * appending 1, 2, 3, `Add(0, 9)` leaves 3 (not 1) at index 1.
   */
  method AddBelowLenOverwrites() returns (second: Option<int>)
    ensures second == Some(3)
  {
    var a := new Array<int>();
    var ok := a.Add(0, 1);
    ok := a.Add(1, 2);
    ok := a.Add(2, 3);
    assert a.Contents() == [1, 2, 3];
    ok := a.Add(0, 9);
    assert ok && a.Get(0) == Some(9) && a.Len() == 4;
    second := a.Get(1);
  }

  /** The corrected `Insert` on the same input gives 9, 1, 2, 3. */
  method InsertBelowLen() returns (second: Option<int>, len: int)
    ensures second == Some(1) && len == 4
  {
    var a := new Array<int>();
    var ok := a.Insert(0, 1);
    ok := a.Insert(1, 2);
    ok := a.Insert(2, 3);
    ok := a.Insert(0, 9);
    assert a.Contents() == [9, 1, 2, 3];
    second, len := a.Get(1), a.Len();
  }
}
