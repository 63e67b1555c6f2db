# ppqueue in Dafny

`ppqueue` is a header-only priority queue for C++14 and later (its version
guard at ppqueue.h:9-10 rejects C++11 itself). It keeps a `std::vector` as a
binary max-heap. A caller's `push` or `pop` does only the cheap raw mutation,
`push_back` or `pop_back`, while holding the mutex `accessible` (the gate).
It then unlocks a signal mutex, `pushing` or `popping`. A background worker
thread (`t_push_heap` or `t_pop_heap`) waits on that signal, runs
`std::push_heap` or `std::pop_heap` over the vector and releases the gate that
the caller left held. The destructor sets `killsig` and unlocks both signals,
and each worker returns as soon as it sees the flag.

The model has three layers and a set of client runs:

- `HeapSpec` (`heap_spec.dfy`): reference definitions of `std::make_heap`,
  `std::push_heap` and `std::pop_heap` as recursive functions on `seq<int>`.
  Beside them are the lemmas that section 25.4.6 of ISO/IEC 14882:2014
  promises: the heap property, that only a permutation takes place, and that
  the maximum moves to the back. The module also holds the intended pop
  (`PopTop`, `pop_heap` first, then drop the back) and a proof that draining
  with it yields the elements in non-increasing order.
- `HeapAlgorithms` (`heap_algorithms.dfy`): the same three algorithms as the
  sift loops that run over the range, each with its loop invariants and proved
  equal to its reference definition.
- `PPQueue` (`ppqueue.dfy`): class `Queue`, with the fields `lss` and `data`,
  one flag per mutex and the flag `killsig`. Two extra flags record whether
  each worker thread is still running. The threads become explicit steps:
  - A caller step (`Push`, `Pop`, `Top`, `Size`, `Empty`, `Swap`) takes the
    gate first, so it is enabled only while the gate is free (`Ready`).
  - The destructor step `Destroy` takes no lock. It is modelled only on a
    quiet queue, one whose gate is free (see Left out).
  - A worker step (`PusherStep`, `PopperStep`) is one turn of the worker's
    `while(true)` loop. It is enabled only while the worker's signal is armed,
    that is, while its mutex is unlocked.
  - `Valid` is the handoff invariant. Every step preserves it.
- `Scenarios` (`scenarios.dfy`): fixed runs of steps with the values the
  model computes for them.

Elements are `int` ordered by `<`. The header never passes `lss` to the heap
algorithms, so they order elements by `operator<`.

Two behaviours follow the code rather than what it is declared to be:

- The class is a max priority queue over `std::less`, so pushing 5, 1 and 9
  and then calling `top()` and `pop()` three times should read 9, 5, 1. The
  code reads 9, 1, 1, because `pop()` removes the last element before
  `pop_heap` runs (see Findings).
- `bool empty() const` (ppqueue.h:124) is declared to return a value, but its
  body never returns. `Queue.Empty` gives back the value the body computes.

## Model

| member | source | states |
|---|---|---|
| HeapSpec.HeapRootIsMax | ppqueue.h:137-143 | the front of a non-empty heap is not less than any element, so `top()` on a heap reads the maximum |
| HeapSpec.LargerChild | ppqueue.h:70 | the child `pop_heap` sifts towards is a child of `i` below `hi` and is not less than any child of `i`; it is the right child exactly when that child exists and the left one is less than it |
| HeapSpec.PushHeapPermutes | ppqueue.h:61 | `push_heap` keeps the length and the multiset of the vector |
| HeapSpec.PushHeapCorrect | ppqueue.h:61 | when all but the last element form a heap, `push_heap` makes the whole vector a heap |
| HeapSpec.PopHeapCorrect | ppqueue.h:70 | on a heap, `pop_heap` keeps length and multiset, puts the old root (the maximum) at the back, leaves the back not less than every element, and leaves the prefix without the back a heap |
| HeapSpec.MakeHeapCorrect | ppqueue.h:53 | `make_heap` gives a heap with the same length and multiset as its input, for every input |
| HeapSpec.PopTopCorrect | ppqueue.h:163-168 | the intended pop (`pop_heap`, then drop the back) of a non-empty heap leaves a heap one shorter that holds everything but one copy of the old maximum |
| HeapSpec.DrainSorted | ppqueue.h:137-168 | draining a heap with the intended top-then-pop yields exactly its multiset, in non-increasing order |
| HeapAlgorithms.SiftUp | ppqueue.h:61 | the sift-up loop computes the reference sift-up of position `i` |
| HeapAlgorithms.PushHeap | ppqueue.h:61 | `std::push_heap` equals the reference `PushHeap`, preserves length and multiset, and makes a heap when all but the last element were one |
| HeapAlgorithms.SiftDown | ppqueue.h:70 | the sift-down loop computes the reference sift-down below `hi`, permutes, and leaves every position from `hi` on unchanged |
| HeapAlgorithms.PopHeap | ppqueue.h:70 | `std::pop_heap` equals the reference `PopHeap` and permutes; on a heap it leaves the prefix a heap, the old root at the back and the back maximal |
| HeapAlgorithms.MakeHeap | ppqueue.h:53 | the bottom-up heapify loop equals the reference `MakeHeap`, permutes and gives a heap |
| PPQueue.Queue.constructor | ppqueue.h:77-84 | construction from a container, also the moving form at lines 95-101: the gate is free, `lss` is stored, and `data` is a heap over exactly the container's elements |
| PPQueue.Queue.FromRange | ppqueue.h:86-94 | the range constructors, also lines 103-111, as written: `data` is the heap of the container's old elements, and the range is appended to the caller's container |
| PPQueue.Queue.FromRangeCorrected | ppqueue.h:86-94 | the range constructor as intended: `data` is a heap over the container's elements plus the range's |
| PPQueue.Queue.Init | ppqueue.h:42-50 | `init()` locks the gate and both signals, clears `killsig`, starts both workers and leaves `data` and `lss` alone |
| PPQueue.Queue.Initl | ppqueue.h:51-55 | `initl()` runs `make_heap` over `data` (a heap over the same elements) and then frees the gate with both signals disarmed |
| PPQueue.Queue.PusherStep | ppqueue.h:56-64 | a pusher turn consumes the signal. On shutdown the worker returns and touches neither `data` nor the gate. Otherwise `data` becomes `push_heap` of itself, a heap over the same elements, and the gate is freed |
| PPQueue.Queue.PopperStep | ppqueue.h:65-73 | a popper turn consumes the signal. On shutdown the worker returns and touches neither `data` nor the gate. Otherwise `data` becomes `pop_heap` of itself, a permutation with the old root at the back, the back maximal and the prefix a heap, and the gate is freed |
| PPQueue.Queue.Destroy | ppqueue.h:113-121 | the destructor's lines 115-117: `killsig` is set and both signals are armed, with the gate free and `data` unchanged |
| PPQueue.Queue.Empty | ppqueue.h:124-129 | the value `empty()` computes is true exactly when `data` is empty |
| PPQueue.Queue.Size | ppqueue.h:130-136 | `size()` is the number of elements in `data` |
| PPQueue.Queue.Top | ppqueue.h:137-143 | `top()` is the front element. It is not less than any element before the back, and it is the maximum when `data` is a heap |
| PPQueue.Queue.Push | ppqueue.h:144-162 | `push`/`emplace` holds the gate, appends exactly `val` (length plus one, multiset plus `val`) and arms only the push signal |
| PPQueue.Queue.Pop | ppqueue.h:163-168 | `pop()` on a non-empty vector holds the gate, removes the last element (not the front), shortens `data` by one and arms only the pop signal |
| PPQueue.Queue.Swap | ppqueue.h:169-177 | `swap(x)` exchanges the two vectors exactly and leaves both comparators, both `killsig` flags and every mutex flag as they were |
| PPQueue.FreeGateMeansNoSignal | ppqueue.h:54-71 | while the queue runs, a free gate means that neither signal is armed |
| PPQueue.OneSignalAtATime | ppqueue.h:144-168 | while the queue runs, at most one signal is armed, and an armed signal means the gate is held |
| Scenarios.Pushed519 | ppqueue.h:144-149 | pushing 5, 1 and 9, with each push cycle completed, leaves `data == [9, 1, 5]` with the gate free |
| Scenarios.PushCycle | ppqueue.h:56-64 | a push followed by the pusher's turn leaves `data` as `push_heap` of the old heap plus `val`, again a heap, with the gate free |
| Scenarios.PopRemovesLeaf | ppqueue.h:163-168 | after pushing 5, 1, 9, three rounds of top-then-pop read 9, 1, 1 and end with an empty queue |
| Scenarios.PopTopDrainsInOrder | ppqueue.h:70 | the intended pop drains the heap `[9, 1, 5]` as 9, 5, 1 |
| Scenarios.PopCycleLeavesNonHeap | ppqueue.h:65-73 | after a pop cycle on `[9, 1]` the vector is `[1, 9]`, which is not a heap |
| Scenarios.PopCycleBreaksHeap | ppqueue.h:163-168 | for every heap of three or more elements whose root is strictly greater than the rest, a complete `pop()` cycle (`pop_back` at line 166, then `pop_heap` at line 70) leaves a vector that is not a heap |
| Scenarios.PushAfterPopBreaksHeap | ppqueue.h:61 | a push of 3 after that pop cycle breaks `push_heap`'s precondition, and `push_heap` gives `[3, 9, 1]`, which is not a heap |
| Scenarios.RangeConstructorDropsRange | ppqueue.h:86-94 | the range constructor with range `[7]` and an empty container leaves the queue empty and the container `[7]`; the corrected one holds one element |
| Scenarios.Shutdown | ppqueue.h:113-121 | after the destructor arms both signals, each worker returns, the gate stays free and `data` keeps its three elements |

## Left out

- Threads, blocking on mutexes and `join` (ppqueue.h:35-39, 48-49, 119-120) are not modelled as such. A blocked `lock()` becomes a step that is not yet enabled (`requires Ready()` on the caller steps that take the gate, an armed signal on worker steps). Which enabled step runs next is left to the client.
- The comparator `lss` is stored in every constructor but never used. `Compare` carries no ordering, and elements are `int` under `<`.
- Genericity over `T` and `Container` is not modelled. `emplace`'s perfect forwarding is modelled as `Push`. The allocator constructors are not implemented in the source (ppqueue.h:112).
- The `Container&&` constructors (ppqueue.h:95-111) copy exactly like the `const&` ones, so each pair shares one constructor.
- PPQueue.Queue.Destroy: requires a free gate, that is, a queue whose last push or pop cycle has completed. `~ppqueue()` (ppqueue.h:113-121) takes no lock. Destroying right after `push` or `pop` returns, before the worker has run, is a data race: line 115 writes `killsig` while the worker reads it unsynchronised at line 60 or 69. Line 116 or 117 may also unlock a mutex that is already unlocked. Both are undefined behaviour in C++, so the model has no state to give that case.
- Undefined behaviour becomes preconditions: `pop()` and `top()` on an empty vector (`requires |data| > 0`), and `swap` of a queue with itself, which would deadlock on its own gate (`requires x != this`).
- PPQueue.Queue.Empty: the source's `empty()` falls off its end without a `return`, which is undefined. The model returns the value it computes.
- PPQueue.Queue.Top: `top()` returns a reference into `data` after unlocking the gate. The model returns the value it reads.
- PPQueue.Queue.Push: requires `data` to be a heap, the precondition of the following `push_heap`. After a pop cycle the source calls `push_heap` on a range that breaks it (see Scenarios.PushAfterPopBreaksHeap).
- The vector is a `seq<int>` that the heap algorithms take and return as values. The in-place iterator updates, and the aliasing of `data` between a caller and a worker thread, are not modelled.
- The standard fixes which element `pop_heap` moves to the back and that the prefix is a heap, but not the exact permutation. The model's sift-down goes to the larger child, the left one on a tie.
- `push_heap` and `pop_heap` on an empty range are modelled as no-ops.
- `size_type` is unbounded (`nat`), and vector allocation failure is not modelled.
- Compile-level details are left out: the `register` keyword, the `noexcept` clause of `swap` that names a nonexistent member `x.c` (ppqueue.h:170), and the C++ version guard (ppqueue.h:9-11).

## Findings

| source | as written | input that shows it | evidently intended | confidence | as-written member | corrected member |
|---|---|---|---|---|---|---|
| ppqueue.h:163-168 with ppqueue.h:70 | `pop()` drops the last element with `pop_back`, then the popper runs `pop_heap`, which moves the maximum to the back of the vector, where it stays | push 5, 1, 9; then top and pop three times: read 9, 1, 1, not 9, 5, 1 | run `pop_heap` first, then drop the back, so that the maximum is removed and the rest stays a heap | not executed | Scenarios.PopRemovesLeaf | HeapSpec.PopTopCorrect |
| ppqueue.h:91-92 and ppqueue.h:108-109 | the range constructors copy `ctnr` into `data`, then insert the range into `ctnr`, so the range never reaches the queue | range `[7]` with an empty container: the queue is empty and the container becomes `[7]` | insert the range into `data` before `make_heap` | not executed | Scenarios.RangeConstructorDropsRange | PPQueue.Queue.FromRangeCorrected |
