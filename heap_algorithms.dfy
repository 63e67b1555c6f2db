/**
 The heap algorithms that `ppqueue` calls on its vector, written as the loops
 that run over the range: `std::push_heap` (line 61 of ppqueue.h),
 `std::pop_heap` (line 70) and `std::make_heap` (line 53). Each is proved
 equal to its reference definition in HeapSpec, and states the heap and
 permutation guarantees that section 25.4.6 of ISO/IEC 14882:2014 gives.
 */
module HeapAlgorithms {
  import HeapSpec

  /** Swap the element at `i` with its parent as long as the parent is less than it. */
  method SiftUp(a: seq<int>, i: nat) returns (r: seq<int>)
    requires i < |a|
    ensures r == HeapSpec.SiftUp(a, i)
  {
    r := a;
    var j: nat := i;
    while j > 0 && r[HeapSpec.Parent(j)] < r[j]
      invariant j < |r| == |a|
      invariant HeapSpec.SiftUp(r, j) == HeapSpec.SiftUp(a, i)
      decreases j
    {
      var p := HeapSpec.Parent(j);
      r := HeapSpec.Swap(r, j, p);
      j := p;
    }
  }

  /** `std::push_heap(first, last)`: sift the last element up towards the root. */
  method PushHeap(a: seq<int>) returns (r: seq<int>)
    ensures r == HeapSpec.PushHeap(a)
    ensures |r| == |a| && multiset(r) == multiset(a)
    ensures HeapSpec.HeapButLast(a) ==> HeapSpec.IsHeap(r)
  {
    if |a| == 0 {
      return a;
    }
    r := SiftUp(a, |a| - 1);
    HeapSpec.PushHeapPermutes(a);
    if HeapSpec.HeapButLast(a) {
      HeapSpec.PushHeapCorrect(a);
    }
  }

  /** Sift the element at `i` down within the first `hi` positions, swapping it with its larger child. */
  method SiftDown(a: seq<int>, i: nat, hi: nat) returns (r: seq<int>)
    requires i < hi <= |a|
    ensures r == HeapSpec.SiftDown(a, i, hi)
    ensures |r| == |a| && multiset(r) == multiset(a)
    ensures forall k :: hi <= k < |a| ==> r[k] == a[k]
  {
    r := a;
    var j := i;
    while 2 * j + 1 < hi
      invariant j < hi && |r| == |a|
      invariant HeapSpec.SiftDown(r, j, hi) == HeapSpec.SiftDown(a, i, hi)
      decreases hi - j
    {
      var c := HeapSpec.LargerChild(r, j, hi);
      if !(r[j] < r[c]) {
        break;
      }
      r := HeapSpec.Swap(r, j, c);
      j := c;
    }
    HeapSpec.SiftDownPermutes(a, i, hi);
  }

  /** `std::pop_heap(first, last)`: swap the root with the last element, then sift the new root down. */
  method PopHeap(a: seq<int>) returns (r: seq<int>)
    ensures r == HeapSpec.PopHeap(a)
    ensures |r| == |a| && multiset(r) == multiset(a)
    ensures HeapSpec.IsHeap(a) ==> HeapSpec.HeapButLast(r)
    ensures HeapSpec.IsHeap(a) && |a| > 0 ==> r[|a| - 1] == a[0]
    ensures HeapSpec.IsHeap(a) ==> HeapSpec.MaxAtBack(r)
  {
    r := a;
    var n := |r|;
    if n > 1 {
      r := HeapSpec.Swap(r, 0, n - 1);
      r := SiftDown(r, 0, n - 1);
    }
    if HeapSpec.IsHeap(a) {
      HeapSpec.PopHeapCorrect(a);
    }
  }

  /** `std::make_heap(first, last)`: sift down every inner node, the last one first. */
  method MakeHeap(a: seq<int>) returns (r: seq<int>)
    ensures r == HeapSpec.MakeHeap(a)
    ensures |r| == |a| && multiset(r) == multiset(a)
    ensures HeapSpec.IsHeap(r)
  {
    r := a;
    var k: nat := |r| / 2;
    while k > 0
      invariant k <= |r| == |a|
      invariant HeapSpec.MakeHeapFrom(r, k) == HeapSpec.MakeHeap(a)
      decreases k
    {
      ghost var before := r;
      k := k - 1;
      r := SiftDown(r, k, |r|);
      assert HeapSpec.MakeHeapFrom(before, k + 1) == HeapSpec.MakeHeapFrom(r, k);
    }
    HeapSpec.MakeHeapCorrect(a);
  }
}
