/** The Stack of ds/arrays.go: a dynamic Array that is only appended to and popped at its end. */
module Stacks {
  import opened Wrappers
  import opened Ranges
  import opened Arrays

  class Stack<T(0)> {
    var a: Array<T>  // backing dynamic array

    ghost predicate Valid()
      reads this, a
    {
      a.Valid()
    }

    /** The elements from bottom to top. */
    ghost function Contents(): seq<T>
      reads this, a, a.s
      requires Valid()
    {
      a.Contents()
    }

    constructor ()
      ensures Valid() && fresh(a) && fresh(a.s)
      ensures Contents() == [] && a.s.Length == 0
    {
      a := new Array();
    }

    function Len(): (r: int)
      reads this, a, a.s
      requires Valid()
      ensures r == |Contents()|
    {
      a.Len()
    }

    /** `Add(Len, v)`, the one call of the as-written `Add` that appends. */
    method Push(v: T)
      requires Valid()
      modifies a, a.s
      ensures Valid() && (a.s == old(a.s) || fresh(a.s))
      ensures Contents() == old(Contents()) + [v]
      ensures a.s.Length == CapacityAfterAdd(old(a.s.Length), |old(Contents())|)
    {
      var ok := a.Add(a.Len(), v);
    }

    /** `Remove(Len - 1)`: refused (index -1) on an empty stack, otherwise the top. */
    method Pop() returns (r: Option<T>)
      requires Valid()
      modifies a, a.s
      ensures Valid() && (a.s == old(a.s) || fresh(a.s))
      ensures r.None? <==> old(Contents()) == []
      ensures r.None? ==> unchanged(a) && unchanged(a.s)
      ensures r.Some? ==> var k := |old(Contents())| - 1;
        && r.value == old(Contents())[k]
        && Contents() == old(Contents())[..k]
        && a.s.Length == CapacityAfterRemove(old(a.s.Length), k)
    {
      r := a.Remove(a.Len() - 1);
    }
  }


  /**
   * The stack scenario of ds/arrays_test.go: pushing 0..64 reaches capacity
   * 128; popping yields 64 down to 0; a further Pop fails; capacity is 1.
   */
  method StackScenario() returns (popped: seq<int>, last: Option<int>, cap: int)
    ensures |popped| == 65 && forall j :: 0 <= j < 65 ==> popped[j] == 64 - j
    ensures last == None && cap == 1
  {
    var st := FilledStack();
    popped := [];
    var i := 65;
    while i > 0
      invariant 0 <= i <= 65
      invariant st.Valid() && st.Contents() == Upto(i)
      invariant |popped| == 65 - i && forall j :: 0 <= j < 65 - i ==> popped[j] == 64 - j
      invariant i == 0 ==> st.a.s.Length == 1
      invariant fresh(st.a) && fresh(st.a.s)
    {
      var r := st.Pop();
      assert r == Some(i - 1);
      assert Upto(i)[..i - 1] == Upto(i - 1);
      popped := popped + [r.value];
      i := i - 1;
    }
    last := st.Pop();
    cap := st.a.s.Length;
  }

  /** The first half of TestStack: pushing 0..64 on an empty stack leaves a slice of length 128. */
  method FilledStack() returns (st: Stack<int>)
    ensures fresh(st.a) && fresh(st.a.s) && st.Valid()
    ensures st.Contents() == Upto(65) && st.a.s.Length == 128
  {
    st := new Stack<int>();
    var i := 0;
    while i < 65
      invariant 0 <= i <= 65
      invariant st.Valid() && st.Contents() == Upto(i)
      invariant st.a.s.Length == CapacityAfterAppends(i)
      invariant fresh(st.a) && fresh(st.a.s)
    {
      st.Push(i);
      i := i + 1;
    }
    SixtyFiveAppends();
  }
}
