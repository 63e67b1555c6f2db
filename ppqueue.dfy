/**
 The `ppqueue` class: a max-heap in a vector whose callers do only the cheap
 raw mutation (`push_back` or `pop_back`) and hand the heap restoration to one
 of two worker threads.

 The threads and mutexes are modelled as explicit state. A field per mutex
 says whether it is locked. A caller's `lock()` on a locked mutex would block,
 so a caller step is enabled only while the gate `accessible` is free. A worker
 step is one turn of the worker's `while(true)` loop and is enabled only while
 its signal mutex is unlocked (armed). The ordering of the std heap algorithms
 is the element type's `operator<`, never the stored comparator `lss`.
 */
module PPQueue {
  import HeapSpec
  import HeapAlgorithms

  /** The comparator object `lss`: stored by every constructor, never consulted. */
  datatype Compare = Compare(state: int)

  /** A caller's container, which the range constructors take by reference. */
  class Vector {
    var elems: seq<int>

    constructor (elems: seq<int>)
      ensures this.elems == elems
    {
      this.elems := elems;
    }
  }

  class Queue {
    var lss: Compare
    var data: seq<int>
    /** `accessible` is locked: the gate is held by a caller or by a worker it handed it to. */
    var accessibleLocked: bool
    /** `pushing` is locked; unlocked means the pusher thread has been signalled. */
    var pushingLocked: bool
    /** `popping` is locked; unlocked means the popper thread has been signalled. */
    var poppingLocked: bool
    var killsig: bool
    /** The pusher thread has not yet returned from its worker function. */
    var pusherAlive: bool
    /** The popper thread has not yet returned from its worker function. */
    var popperAlive: bool

    /**
     The handoff protocol. While the queue runs, at most one signal is armed,
     the gate is held exactly when a signal is armed, and `data` meets the
     precondition of the worker that is about to run. After shutdown has
     begun, the gate is free and a worker is alive exactly while its signal is
     still unconsumed.
     */
    ghost predicate Valid()
      reads this
    {
      if !killsig then
        && pusherAlive && popperAlive
        && (pushingLocked || poppingLocked)
        && (accessibleLocked <==> !pushingLocked || !poppingLocked)
        && HeapSpec.HeapButLast(data)
        && (!pushingLocked ==> |data| > 0)
        && (!poppingLocked ==> HeapSpec.IsHeap(data))
      else
        && !accessibleLocked
        && (pusherAlive <==> !pushingLocked)
        && (popperAlive <==> !poppingLocked)
    }

    /** A caller's `accessible.lock()` would succeed at once. */
    ghost predicate Ready()
      reads this
    {
      Valid() && !killsig && !accessibleLocked
    }

    /** `ppqueue(comp, ctnr)` (both the copying and the moving form): copy `ctnr`, then `make_heap`. */
    constructor (comp: Compare, ctnr: seq<int>)
      ensures Ready() && lss == comp
      ensures data == HeapSpec.MakeHeap(ctnr)
      ensures HeapSpec.IsHeap(data) && multiset(data) == multiset(ctnr)
    {
      new;
      Init();
      lss := comp;
      data := ctnr;
      Initl();
    }

    /**
     `ppqueue(first, last, comp, ctnr)`: copies `ctnr` into `data` and then
     appends the range to `ctnr`, not to `data`.
     */
    constructor FromRange(range: seq<int>, comp: Compare, ctnr: Vector)
      modifies ctnr
      ensures Ready() && lss == comp
      ensures data == HeapSpec.MakeHeap(old(ctnr.elems))
      ensures HeapSpec.IsHeap(data) && multiset(data) == multiset(old(ctnr.elems))
      ensures ctnr.elems == old(ctnr.elems) + range
    {
      new;
      Init();
      lss := comp;
      data := ctnr.elems;
      ctnr.elems := ctnr.elems + range;
      Initl();
    }

    /** The range constructor as intended: the heap holds the container's elements and the range's. */
    constructor FromRangeCorrected(range: seq<int>, comp: Compare, ctnr: seq<int>)
      ensures Ready() && lss == comp
      ensures HeapSpec.IsHeap(data) && multiset(data) == multiset(ctnr) + multiset(range)
    {
      new;
      Init();
      lss := comp;
      data := ctnr + range;
      Initl();
    }

    /** `init()`: lock the gate and both signals, clear `killsig`, start both workers. */
    method Init()
      modifies this
      ensures accessibleLocked && pushingLocked && poppingLocked && !killsig
      ensures pusherAlive && popperAlive
      ensures data == old(data) && lss == old(lss)
    {
      accessibleLocked := true;
      pushingLocked := true;
      poppingLocked := true;
      killsig := false;
      pusherAlive, popperAlive := true, true;
    }

    /** `initl()`: with the gate still held since `init()`, build the heap, then open the gate. */
    method Initl()
      requires accessibleLocked && pushingLocked && poppingLocked && !killsig
      requires pusherAlive && popperAlive
      modifies this
      ensures Ready() && pushingLocked && poppingLocked
      ensures data == HeapSpec.MakeHeap(old(data))
      ensures HeapSpec.IsHeap(data) && multiset(data) == multiset(old(data))
      ensures lss == old(lss)
    {
      data := HeapAlgorithms.MakeHeap(data);
      accessibleLocked := false;
    }

    /** One turn of `t_push_heap`: wait for the signal, then return on shutdown or `push_heap` and open the gate. */
    method PusherStep()
      requires Valid() && pusherAlive && !pushingLocked
      modifies this
      ensures Valid() && pushingLocked
      ensures poppingLocked == old(poppingLocked) && popperAlive == old(popperAlive)
      ensures killsig == old(killsig) && lss == old(lss)
      ensures old(killsig) ==> !pusherAlive && data == old(data) && accessibleLocked == old(accessibleLocked)
      ensures !old(killsig) ==> pusherAlive && !accessibleLocked && data == HeapSpec.PushHeap(old(data))
      ensures !old(killsig) ==> HeapSpec.IsHeap(data) && multiset(data) == multiset(old(data))
    {
      pushingLocked := true;
      if killsig {
        pusherAlive := false;
      } else {
        var restored := HeapAlgorithms.PushHeap(data);
        HeapSpec.HeapIsHeapButLast(restored);
        data, accessibleLocked := restored, false;
      }
    }

    /** One turn of `t_pop_heap`: wait for the signal, then return on shutdown or `pop_heap` and open the gate. */
    method PopperStep()
      requires Valid() && popperAlive && !poppingLocked
      modifies this
      ensures Valid() && poppingLocked
      ensures pushingLocked == old(pushingLocked) && pusherAlive == old(pusherAlive)
      ensures killsig == old(killsig) && lss == old(lss)
      ensures old(killsig) ==> !popperAlive && data == old(data) && accessibleLocked == old(accessibleLocked)
      ensures !old(killsig) ==> popperAlive && !accessibleLocked && data == HeapSpec.PopHeap(old(data))
      ensures !old(killsig) ==> multiset(data) == multiset(old(data)) && HeapSpec.HeapButLast(data)
      ensures !old(killsig) ==> HeapSpec.MaxAtBack(data) && (|data| > 0 ==> data[|data| - 1] == old(data)[0])
    {
      poppingLocked := true;
      if killsig {
        popperAlive := false;
      } else {
        var restored := HeapAlgorithms.PopHeap(data);
        data, accessibleLocked := restored, false;
      }
    }

    /**
     `~ppqueue()` up to the joins: set `killsig` and unlock both signals. The
     destructor takes no lock; it is modelled on a quiet queue, since running
     it while a worker still owes a turn races on `killsig`.
     */
    method Destroy()
      requires Ready()
      modifies this
      ensures Valid() && killsig && !pushingLocked && !poppingLocked
      ensures !accessibleLocked && pusherAlive && popperAlive
      ensures data == old(data) && lss == old(lss)
    {
      killsig := true;
      pushingLocked := false;
      poppingLocked := false;
    }

    /**
     `empty()`: the value it computes under the gate. The source never returns
     that value.
     */
    method Empty() returns (res: bool)
      requires Ready()
      ensures res <==> |data| == 0
    {
      res := |data| == 0;
    }

    /** `size()`: the number of elements, read under the gate. */
    method Size() returns (res: nat)
      requires Ready()
      ensures res == |data|
    {
      res := |data|;
    }

    /**
     `top()`: the front of the vector. It is never less than any element
     before the last one, and it is the maximum when `data` is a heap, i.e.
     when no pop cycle has left the old maximum at the back.
     */
    method Top() returns (res: int)
      requires Ready() && |data| > 0
      ensures res == data[0]
      ensures forall k :: 0 <= k < |data| - 1 ==> data[k] <= res
      ensures HeapSpec.IsHeap(data) ==> forall k :: 0 <= k < |data| ==> data[k] <= res
    {
      res := data[0];
      if |data| > 1 {
        HeapSpec.HeapRootIsMax(data[..|data| - 1]);
      }
      if HeapSpec.IsHeap(data) {
        HeapSpec.HeapRootIsMax(data);
      }
    }

    /**
     `push(val)` and `emplace(args...)`: take the gate, append, and signal the
     pusher, which keeps the gate. `push_heap` needs the old vector to be a
     heap, which it is not after a pop cycle.
     */
    method Push(val: int)
      requires Ready() && HeapSpec.IsHeap(data)
      modifies this
      ensures Valid() && accessibleLocked && !pushingLocked && poppingLocked
      ensures data == old(data) + [val]
      ensures |data| == |old(data)| + 1 && multiset(data) == multiset(old(data)) + multiset{val}
      ensures killsig == old(killsig) && lss == old(lss)
    {
      accessibleLocked := true;
      data := data + [val];
      assert data[..|data| - 1] == old(data);
      pushingLocked := false;
    }

    /** `pop()`: take the gate, drop the LAST element, and signal the popper, which keeps the gate. */
    method Pop()
      requires Ready() && |data| > 0
      modifies this
      ensures Valid() && accessibleLocked && pushingLocked && !poppingLocked
      ensures data + [old(data)[|old(data)| - 1]] == old(data)
      ensures |data| == |old(data)| - 1 && HeapSpec.IsHeap(data)
      ensures killsig == old(killsig) && lss == old(lss)
    {
      accessibleLocked := true;
      data := data[..|data| - 1];
      poppingLocked := false;
    }

    /**
     `swap(x)`: take both gates, exchange the vectors and release both gates.
     The comparators, the signals and `killsig` stay where they were.
     */
    method Swap(x: Queue)
      requires x != this && Ready() && x.Ready()
      modifies this, x
      ensures Ready() && x.Ready()
      ensures data == old(x.data) && x.data == old(data)
      ensures lss == old(lss) && x.lss == old(x.lss)
      ensures killsig == old(killsig) && x.killsig == old(x.killsig)
      ensures pushingLocked == old(pushingLocked) && poppingLocked == old(poppingLocked)
      ensures x.pushingLocked == old(x.pushingLocked) && x.poppingLocked == old(x.poppingLocked)
      ensures accessibleLocked == old(accessibleLocked) && x.accessibleLocked == old(x.accessibleLocked)
    {
      accessibleLocked := true;
      x.accessibleLocked := true;
      data, x.data := x.data, data;
      accessibleLocked := false;
      x.accessibleLocked := false;
    }
  }

  /** While the queue runs, a free gate means that no signal is armed. */
  lemma FreeGateMeansNoSignal(q: Queue)
    requires q.Valid() && !q.killsig && !q.accessibleLocked
    ensures q.pushingLocked && q.poppingLocked
  {
  }

  /** While the queue runs, the two signals are never armed together, and an armed signal holds the gate. */
  lemma OneSignalAtATime(q: Queue)
    requires q.Valid() && !q.killsig
    ensures q.pushingLocked || q.poppingLocked
    ensures !q.pushingLocked || !q.poppingLocked ==> q.accessibleLocked
  {
  }
}
