/**
 The binary max-heap that `ppqueue` keeps in its vector. Elements are integers
 ordered by `<`, the `operator<` that `std::make_heap`, `std::push_heap` and
 `std::pop_heap` use when they are called without a comparator.

 The functions here are the reference definitions of the three heap
 algorithms (sift-up of the last element, swap-and-sift-down, bottom-up
 heapify); the lemmas state what section 25.4.6 of ISO/IEC 14882:2014
 promises about each of them: the result is a heap and a permutation of the
 input.
 */
module HeapSpec {

  /** Index of the parent of node `i` in the implicit binary tree over a vector. */
  function Parent(i: nat): nat
    requires i > 0
  {
    (i - 1) / 2
  }

  /** `s` with the elements at `i` and `j` exchanged. */
  function Swap(s: seq<int>, i: nat, j: nat): (r: seq<int>)
    requires i < |s| && j < |s|
    ensures |r| == |s| && r[i] == s[j] && r[j] == s[i]
    ensures forall k :: 0 <= k < |s| && k != i && k != j ==> r[k] == s[k]
    ensures multiset(r) == multiset(s)
  {
    s[i := s[j]][j := s[i]]
  }

  /**
   Every parent/child edge whose parent index is at least `lo` and whose child
   index is below `hi` is ordered: the parent is not less than the child.
   */
  ghost predicate HeapOrdered(s: seq<int>, lo: nat, hi: nat)
    requires hi <= |s|
  {
    forall j {:trigger s[j], Parent(j)} :: 0 < j < hi && lo <= Parent(j) ==> s[j] <= s[Parent(j)]
  }

  /** The max-heap property over the whole sequence. */
  ghost predicate IsHeap(s: seq<int>)
  {
    HeapOrdered(s, 0, |s|)
  }

  /** All elements but the last form a heap: what `push_heap` requires of its range. */
  ghost predicate HeapButLast(s: seq<int>)
  {
    |s| == 0 || IsHeap(s[..|s| - 1])
  }

  /** The last element is not less than any other: where `pop_heap` leaves the maximum. */
  ghost predicate MaxAtBack(s: seq<int>)
  {
    forall k :: 0 <= k < |s| ==> s[k] <= s[|s| - 1]
  }

  /** A heap with a hole at `i` that may still be too large for its parent (sift-up). */
  ghost predicate HeapExceptUp(s: seq<int>, i: nat)
    requires i < |s|
  {
    && (forall j {:trigger s[j], Parent(j)} :: 0 < j < |s| && j != i ==> s[j] <= s[Parent(j)])
    && (0 < i ==> forall j {:trigger s[j], Parent(j)} :: 0 < j < |s| && Parent(j) == i ==> s[j] <= s[Parent(i)])
  }

  /**
   The subtrees rooted at `lo` and beyond, below `hi`, form a heap except that
   the element at `i` may still be too small for its children (sift-down).
   */
  ghost predicate HeapExceptDown(s: seq<int>, lo: nat, i: nat, hi: nat)
    requires lo <= i < hi <= |s|
  {
    && (forall j {:trigger s[j], Parent(j)} :: 0 < j < hi && lo <= Parent(j) && Parent(j) != i ==> s[j] <= s[Parent(j)])
    && (lo < i ==> forall j {:trigger s[j], Parent(j)} :: 0 < j < hi && Parent(j) == i ==> s[j] <= s[Parent(i)])
  }

  // ---------------------------------------------------------------------------
  // The root of a heap is its maximum

  lemma {:induction false} AncestorBound(s: seq<int>, k: nat)
    requires IsHeap(s) && k < |s|
    ensures s[k] <= s[0]
    decreases k
  {
    if k > 0 {
      AncestorBound(s, Parent(k));
    }
  }

  /** No element of a heap is greater than its root. */
  lemma HeapRootIsMax(s: seq<int>)
    requires IsHeap(s) && |s| > 0
    ensures forall k :: 0 <= k < |s| ==> s[k] <= s[0]
  {
    forall k | 0 <= k < |s| ensures s[k] <= s[0] {
      AncestorBound(s, k);
    }
  }

  /** A bound on every element of `a` bounds every element of a sub-multiset `b`. */
  lemma BoundedBySubMultiset(a: seq<int>, b: seq<int>, m: int)
    requires multiset(b) <= multiset(a)
    requires forall k :: 0 <= k < |a| ==> a[k] <= m
    ensures forall k :: 0 <= k < |b| ==> b[k] <= m
  {
    forall k | 0 <= k < |b| ensures b[k] <= m {
      assert b[k] in multiset(b);
      assert b[k] in multiset(a);
      assert b[k] in a;
      var k' :| 0 <= k' < |a| && a[k'] == b[k];
    }
  }

  /** The heap property of a prefix is the ordering of the first `hi` positions. */
  lemma PrefixHeap(s: seq<int>, hi: nat)
    requires hi <= |s|
    ensures IsHeap(s[..hi]) <==> HeapOrdered(s, 0, hi)
  {
    var p := s[..hi];
    assert forall j :: 0 <= j < hi ==> p[j] == s[j];
  }

  /** Dropping the last element of a heap leaves a heap. */
  lemma HeapIsHeapButLast(s: seq<int>)
    requires IsHeap(s)
    ensures HeapButLast(s)
  {
    if |s| > 0 {
      PrefixHeap(s, |s| - 1);
    }
  }

  // ---------------------------------------------------------------------------
  // push_heap: sift the last element up

  /** Swap the element at `i` with its parent as long as the parent is less than it. */
  function SiftUp(s: seq<int>, i: nat): (r: seq<int>)
    requires i < |s|
    ensures |r| == |s|
    decreases i
  {
    if i == 0 || !(s[Parent(i)] < s[i]) then s
    else SiftUp(Swap(s, i, Parent(i)), Parent(i))
  }

  lemma {:induction false} SiftUpMakesHeap(s: seq<int>, i: nat)
    requires i < |s| && HeapExceptUp(s, i)
    ensures IsHeap(SiftUp(s, i))
    decreases i
  {
    if i == 0 || !(s[Parent(i)] < s[i]) {
    } else {
      var p := Parent(i);
      var t := Swap(s, i, p);
      forall j | 0 < j < |t| && j != p ensures t[j] <= t[Parent(j)] {
        if j == i {
        } else if Parent(j) == i {
          assert s[j] <= s[p];
        } else if Parent(j) == p {
          assert s[j] <= s[p];
        } else {
          assert s[j] <= s[Parent(j)];
        }
      }
      if 0 < p {
        forall j | 0 < j < |t| && Parent(j) == p ensures t[j] <= t[Parent(p)] {
          assert s[p] <= s[Parent(p)];
          if j != i {
            assert s[j] <= s[p];
          }
        }
      }
      SiftUpMakesHeap(t, p);
    }
  }

  lemma {:induction false} SiftUpPermutes(s: seq<int>, i: nat)
    requires i < |s|
    ensures multiset(SiftUp(s, i)) == multiset(s)
    decreases i
  {
    if i == 0 || !(s[Parent(i)] < s[i]) {
    } else {
      SiftUpPermutes(Swap(s, i, Parent(i)), Parent(i));
    }
  }

  /** `std::push_heap` over a whole vector: sift the last element up. */
  function PushHeap(s: seq<int>): (r: seq<int>)
  {
    if |s| == 0 then s else SiftUp(s, |s| - 1)
  }

  /** `push_heap` only rearranges. */
  lemma PushHeapPermutes(s: seq<int>)
    ensures |PushHeap(s)| == |s| && multiset(PushHeap(s)) == multiset(s)
  {
    if |s| > 0 {
      SiftUpPermutes(s, |s| - 1);
    }
  }

  /**
   When all but the last element form a heap, `push_heap` leaves a heap
   holding the same elements.
   */
  lemma PushHeapCorrect(s: seq<int>)
    requires HeapButLast(s)
    ensures IsHeap(PushHeap(s))
  {
    if |s| > 0 {
      HeapButLastExceptUp(s);
      SiftUpMakesHeap(s, |s| - 1);
    }
  }

  /** A heap with one element appended is a heap with a hole at the new last position. */
  lemma HeapButLastExceptUp(s: seq<int>)
    requires |s| > 0 && HeapButLast(s)
    ensures HeapExceptUp(s, |s| - 1)
  {
    var n := |s|;
    PrefixHeap(s, n - 1);
    forall j | 0 < j < n ensures Parent(j) != n - 1 {
    }
  }

  // ---------------------------------------------------------------------------
  // pop_heap: swap the root with the last element, then sift the new root down

  /** The index of the larger child of `i` below `hi` (the left one on a tie). */
  function LargerChild(s: seq<int>, i: nat, hi: nat): (c: nat)
    requires hi <= |s| && 2 * i + 1 < hi
    ensures c == 2 * i + 1 || c == 2 * i + 2
    ensures i < c < hi && Parent(c) == i
    ensures forall j {:trigger s[j], Parent(j)} :: 0 < j < hi && Parent(j) == i ==> s[j] <= s[c]
    ensures c == 2 * i + 2 <==> 2 * i + 2 < hi && s[2 * i + 1] < s[2 * i + 2]
  {
    if 2 * i + 2 < hi && s[2 * i + 1] < s[2 * i + 2] then 2 * i + 2 else 2 * i + 1
  }

  /** Swap the element at `i` with its larger child below `hi` as long as it is less than that child. */
  function SiftDown(s: seq<int>, i: nat, hi: nat): (r: seq<int>)
    requires i < hi <= |s|
    ensures |r| == |s|
    decreases hi - i
  {
    if 2 * i + 1 >= hi then s
    else
      var c := LargerChild(s, i, hi);
      if s[i] < s[c] then SiftDown(Swap(s, i, c), c, hi) else s
  }

  lemma {:induction false} SiftDownMakesHeap(s: seq<int>, lo: nat, i: nat, hi: nat)
    requires lo <= i < hi <= |s| && HeapExceptDown(s, lo, i, hi)
    ensures HeapOrdered(SiftDown(s, i, hi), lo, hi)
    decreases hi - i
  {
    if 2 * i + 1 >= hi {
      forall j | 0 < j < hi && lo <= Parent(j) ensures s[j] <= s[Parent(j)] {
        assert Parent(j) != i;
      }
    } else {
      var c := LargerChild(s, i, hi);
      if s[i] < s[c] {
        var t := Swap(s, i, c);
        forall j | 0 < j < hi && lo <= Parent(j) && Parent(j) != c ensures t[j] <= t[Parent(j)] {
          if j == c {
          } else if Parent(j) == i {
            assert s[j] <= s[c];
          } else if j == i {
            assert s[c] <= s[Parent(i)];
          } else {
            assert s[j] <= s[Parent(j)];
          }
        }
        forall j | 0 < j < hi && Parent(j) == c ensures t[j] <= t[Parent(c)] {
          assert s[j] <= s[c];
        }
        SiftDownMakesHeap(t, lo, c, hi);
      } else {
        forall j | 0 < j < hi && lo <= Parent(j) ensures s[j] <= s[Parent(j)] {
          if Parent(j) == i {
            assert s[j] <= s[c];
          }
        }
      }
    }
  }

  lemma {:induction false} SiftDownPermutes(s: seq<int>, i: nat, hi: nat)
    requires i < hi <= |s|
    ensures multiset(SiftDown(s, i, hi)) == multiset(s)
    ensures forall k :: hi <= k < |s| ==> SiftDown(s, i, hi)[k] == s[k]
    decreases hi - i
  {
    if 2 * i + 1 < hi {
      var c := LargerChild(s, i, hi);
      if s[i] < s[c] {
        SiftDownPermutes(Swap(s, i, c), c, hi);
      }
    }
  }

  /**
   `std::pop_heap` over a whole vector: exchange the root and the last element,
   then sift the new root down over the prefix. A range of fewer than two
   elements is left alone.
   */
  function PopHeap(s: seq<int>): (r: seq<int>)
  {
    if |s| <= 1 then s else SiftDown(s[0 := s[|s| - 1]][|s| - 1 := s[0]], 0, |s| - 1)
  }

  /**
   `pop_heap` on a heap moves its maximum, the old root, to the back, leaves
   the elements before it a heap, and only rearranges.
   */
  lemma PopHeapCorrect(s: seq<int>)
    requires IsHeap(s)
    ensures |PopHeap(s)| == |s|
    ensures multiset(PopHeap(s)) == multiset(s)
    ensures HeapButLast(PopHeap(s))
    ensures |s| > 0 ==> PopHeap(s)[|s| - 1] == s[0]
    ensures MaxAtBack(PopHeap(s))
  {
    var n := |s|;
    if n > 1 {
      var t := Swap(s, 0, n - 1);
      forall j | 0 < j < n - 1 && Parent(j) != 0 ensures t[j] <= t[Parent(j)] {
        assert s[j] <= s[Parent(j)];
      }
      assert HeapExceptDown(t, 0, 0, n - 1);
      SiftDownMakesHeap(t, 0, 0, n - 1);
      SiftDownPermutes(t, 0, n - 1);
      var r := PopHeap(s);
      PrefixHeap(r, n - 1);
      HeapRootIsMax(s);
      BoundedBySubMultiset(s, r, s[0]);
    }
  }

  // ---------------------------------------------------------------------------
  // make_heap: sift down every inner node, from the last one to the root

  /** Sift down the nodes `k - 1`, `k - 2`, ..., `0`, in that order. */
  function MakeHeapFrom(s: seq<int>, k: nat): (r: seq<int>)
    requires k <= |s|
    ensures |r| == |s|
    decreases k
  {
    if k == 0 then s else MakeHeapFrom(SiftDown(s, k - 1, |s|), k - 1)
  }

  /** `std::make_heap` over a whole vector: nodes from `|s| / 2` on are leaves. */
  function MakeHeap(s: seq<int>): (r: seq<int>)
  {
    MakeHeapFrom(s, |s| / 2)
  }

  lemma {:induction false} MakeHeapFromCorrect(s: seq<int>, k: nat)
    requires k <= |s| && HeapOrdered(s, k, |s|)
    ensures IsHeap(MakeHeapFrom(s, k))
    ensures multiset(MakeHeapFrom(s, k)) == multiset(s)
    decreases k
  {
    if k > 0 {
      assert HeapExceptDown(s, k - 1, k - 1, |s|);
      SiftDownMakesHeap(s, k - 1, k - 1, |s|);
      SiftDownPermutes(s, k - 1, |s|);
      MakeHeapFromCorrect(SiftDown(s, k - 1, |s|), k - 1);
    }
  }

  /** `make_heap` turns any vector into a heap holding the same elements. */
  lemma MakeHeapCorrect(s: seq<int>)
    ensures |MakeHeap(s)| == |s|
    ensures multiset(MakeHeap(s)) == multiset(s)
    ensures IsHeap(MakeHeap(s))
  {
    assert HeapOrdered(s, |s| / 2, |s|);
    MakeHeapFromCorrect(s, |s| / 2);
  }

  // ---------------------------------------------------------------------------
  // Removing the top: pop_heap first, then drop the last element

  lemma SplitLast(r: seq<int>)
    requires |r| > 0
    ensures multiset(r) == multiset(r[..|r| - 1]) + multiset{r[|r| - 1]}
  {
    assert r == r[..|r| - 1] + [r[|r| - 1]];
  }

  /** The heap after removing its top the way a priority queue should: `pop_heap`, then `pop_back`. */
  function PopTop(s: seq<int>): (r: seq<int>)
    requires |s| > 0
  {
    PopHeap(s)[..|s| - 1]
  }

  /** Removing the top of a heap removes one copy of its maximum and leaves a heap. */
  lemma PopTopCorrect(s: seq<int>)
    requires IsHeap(s) && |s| > 0
    ensures |PopTop(s)| == |s| - 1
    ensures IsHeap(PopTop(s))
    ensures multiset(PopTop(s)) + multiset{s[0]} == multiset(s)
    ensures forall k :: 0 <= k < |s| ==> s[k] <= s[0]
  {
    PopHeapCorrect(s);
    SplitLast(PopHeap(s));
    HeapRootIsMax(s);
  }

  /** The tops seen by repeatedly reading the top of a heap and removing it. */
  ghost function Drain(s: seq<int>): (d: seq<int>)
    requires IsHeap(s)
    decreases |s|
  {
    if |s| == 0 then []
    else
      PopTopCorrect(s);
      [s[0]] + Drain(PopTop(s))
  }

  /** Non-increasing order, the order in which a max-heap gives up its elements. */
  ghost predicate NonIncreasing(d: seq<int>)
  {
    forall i, j :: 0 <= i < j < |d| ==> d[j] <= d[i]
  }

  lemma ConsNonIncreasing(x: int, e: seq<int>)
    requires NonIncreasing(e)
    requires forall k :: 0 <= k < |e| ==> e[k] <= x
    ensures NonIncreasing([x] + e)
  {
    var d := [x] + e;
    forall i, j | 0 <= i < j < |d| ensures d[j] <= d[i] {
      assert d[j] == e[j - 1];
      if i > 0 {
        assert d[i] == e[i - 1];
      }
    }
  }

  /** Draining a heap yields every element exactly once, in non-increasing order. */
  lemma {:induction false} DrainSorted(s: seq<int>)
    requires IsHeap(s)
    ensures multiset(Drain(s)) == multiset(s)
    ensures NonIncreasing(Drain(s))
    decreases |s|
  {
    if |s| > 0 {
      PopTopCorrect(s);
      var t := PopTop(s);
      DrainSorted(t);
      var e := Drain(t);
      assert Drain(s) == [s[0]] + e;
      BoundedBySubMultiset(s, t, s[0]);
      BoundedBySubMultiset(t, e, s[0]);
      ConsNonIncreasing(s[0], e);
    }
  }
}
