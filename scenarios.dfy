/**
 Client runs of the queue model: fixed sequences of caller and worker steps,
 interleaved the only way the handoff protocol allows, with the results the
 model determines for them.
 */
module Scenarios {
  import HeapSpec
  import opened PPQueue

  /** Push 5, 1 and 9 into an empty queue, letting the pusher finish each cycle. */
  method Pushed519() returns (q: Queue)
    ensures fresh(q) && q.Ready() && q.data == [9, 1, 5]
  {
    PushHeaps519();
    q := new Queue(Compare(0), []);
    PushCycle(q, 5);
    PushCycle(q, 1);
    PushCycle(q, 9);
  }

  /** A caller's `push(val)` followed by the pusher's turn that restores the heap. */
  method PushCycle(q: Queue, val: int)
    requires q.Ready() && HeapSpec.IsHeap(q.data)
    modifies q
    ensures q.Ready() && HeapSpec.IsHeap(q.data)
    ensures q.data == HeapSpec.PushHeap(old(q.data) + [val])
  {
    q.Push(val);
    q.PusherStep();
  }

  /** The heaps the pusher builds from 5, 1 and 9. */
  lemma PushHeaps519()
    ensures HeapSpec.MakeHeap([]) == []
    ensures HeapSpec.PushHeap([5]) == [5]
    ensures HeapSpec.PushHeap([5, 1]) == [5, 1]
    ensures HeapSpec.PushHeap([5, 1, 9]) == [9, 1, 5]
  {
    assert HeapSpec.Swap([5, 1, 9], 2, 0) == [9, 1, 5];
  }

  /**
   After pushing 5, 1 and 9, alternate `top()` and `pop()`. Because `pop()`
   drops the last element before `pop_heap` runs, the first pop removes the
   leaf 5 and moves 9 to the back, so the second top is 1 where a priority
   queue would give 5.
   */
  method PopRemovesLeaf() returns (first: int, second: int, third: int, emptied: bool)
    ensures first == 9 && second == 1 && third == 1 && emptied
  {
    var q := Pushed519();
    first := q.Top();
    q.Pop();
    q.PopperStep();
    PopCycleLeavesNonHeap();
    second := q.Top();
    q.Pop();
    q.PopperStep();
    third := q.Top();
    q.Pop();
    q.PopperStep();
    emptied := q.Empty();
  }

  /** The heap of the scenario above, drained with `PopTop` (pop_heap first): 9, 5, 1. */
  lemma PopTopDrainsInOrder()
    ensures HeapSpec.IsHeap([9, 1, 5])
    ensures HeapSpec.PopTop([9, 1, 5]) == [5, 1]
    ensures HeapSpec.PopTop([5, 1]) == [1]
  {
    assert HeapSpec.Swap([9, 1, 5], 0, 2) == [5, 1, 9];
    assert HeapSpec.LargerChild([5, 1, 9], 0, 2) == 1;
    assert HeapSpec.PopHeap([9, 1, 5]) == [5, 1, 9];
    assert HeapSpec.Swap([5, 1], 0, 1) == [1, 5];
    assert HeapSpec.PopHeap([5, 1]) == [1, 5];
  }

  /** After a pop cycle the vector is no longer a heap: the old maximum sits at the back. */
  lemma PopCycleLeavesNonHeap()
    ensures HeapSpec.PopHeap([9, 1]) == [1, 9]
    ensures !HeapSpec.IsHeap(HeapSpec.PopHeap([9, 1]))
  {
    assert HeapSpec.Swap([9, 1], 0, 1) == [1, 9];
    ChildAboveRoot([1, 9]);
  }

  /**
   For every heap of at least three elements whose root is strictly greater
   than all the others, a complete `pop()` cycle (drop the last element, then
   `pop_heap`) leaves a vector that is not a heap: the old root, still present,
   sits at the back above a smaller front.
   */
  lemma PopCycleBreaksHeap(s: seq<int>)
    requires HeapSpec.IsHeap(s) && |s| >= 3
    requires forall k :: 1 <= k < |s| ==> s[k] < s[0]
    ensures !HeapSpec.IsHeap(HeapSpec.PopHeap(s[..|s| - 1]))
  {
    var t := s[..|s| - 1];
    HeapSpec.PrefixHeap(s, |s| - 1);
    HeapSpec.PopHeapCorrect(t);
    var r := HeapSpec.PopHeap(t);
    var m := |t| - 1;
    assert r[m] == s[0];
    // The old root occurs once in `t`, so its copy at the back is the only one in `r`.
    assert t == [t[0]] + t[1..];
    assert s[0] !in multiset(t[1..]);
    assert multiset(t) == multiset{s[0]} + multiset(t[1..]);
    assert multiset(r)[s[0]] == 1;
    HeapSpec.SplitLast(r);
    assert multiset(r[..m])[s[0]] == 0;
    assert r[..m][0] == r[0];
    assert r[0] in multiset(t) by {
      assert r[0] in multiset(r);
    }
    var k :| 0 <= k < |t| && t[k] == r[0];
    assert r[0] < r[m];
    if HeapSpec.IsHeap(r) {
      HeapSpec.HeapRootIsMax(r);
    }
  }

  /** A push after a pop cycle breaks `push_heap`'s precondition, and the result is not a heap. */
  lemma PushAfterPopBreaksHeap()
    ensures !HeapSpec.HeapButLast([1, 9, 3])
    ensures HeapSpec.PushHeap([1, 9, 3]) == [3, 9, 1]
    ensures !HeapSpec.IsHeap(HeapSpec.PushHeap([1, 9, 3]))
  {
    assert [1, 9, 3][..2] == [1, 9];
    ChildAboveRoot([1, 9]);
    SiftUp193();
    ChildAboveRoot([3, 9, 1]);
  }

  /** `push_heap` on 1, 9, 3 lifts 3 over its parent 1 and stops at the root. */
  lemma SiftUp193()
    ensures HeapSpec.PushHeap([1, 9, 3]) == [3, 9, 1]
  {
    var t := HeapSpec.Swap([1, 9, 3], 2, 0);
    assert t == [3, 9, 1];
    assert HeapSpec.SiftUp(t, 0) == t;
  }

  /** A sequence whose second element exceeds its first is not a heap. */
  lemma ChildAboveRoot(s: seq<int>)
    requires |s| > 1 && s[0] < s[1]
    ensures !HeapSpec.IsHeap(s)
  {
    assert HeapSpec.Parent(1) == 0 && !(s[1] <= s[0]);
  }

  /**
   The range constructor appends the range to the caller's container and
   builds the heap from the container's old contents, so the range is lost.
   */
  method RangeConstructorDropsRange() returns (size: nat, ctnr: seq<int>, correctedSize: nat)
    ensures size == 0 && ctnr == [7]
    ensures correctedSize == 1
  {
    var v := new Vector([]);
    var q := new Queue.FromRange([7], Compare(0), v);
    size := q.Size();
    ctnr := v.elems;
    var c := new Queue.FromRangeCorrected([7], Compare(0), []);
    assert multiset(c.data) == multiset{7};
    correctedSize := c.Size();
  }

  /**
   Shutdown from a quiet queue: the destructor arms both signals, and each
   worker consumes its signal and returns without touching the gate or the
   vector.
   */
  method Shutdown() returns (pusherReturned: bool, popperReturned: bool, gateFree: bool, size: nat)
    ensures pusherReturned && popperReturned && gateFree && size == 3
  {
    var q := new Queue(Compare(0), [3, 8]);
    q.Push(4);
    q.PusherStep();
    q.Destroy();
    q.PopperStep();
    q.PusherStep();
    pusherReturned := !q.pusherAlive;
    popperReturned := !q.popperAlive;
    gateFree := !q.accessibleLocked;
    size := |q.data|;
  }
}
