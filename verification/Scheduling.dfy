/** sched.c: thread states, the three priority heaps, and the choice of the next thread. */
module Scheduling {
  import opened Machine
  import opened CkErrors
  import opened TimeOrder
  import opened PriorityHeap

  const TIMESHARING: nat := 0   // HeapType
  const REALTIME: nat := 1
  const IDLE: nat := 2

  /** The state of the threads in heap ht. */
  function StateOf(ht: nat): ThreadState {
    if ht == TIMESHARING then Running else if ht == REALTIME then RealTime else Idle
  }

  function HeapTypeOf(ts: ThreadState): (ht: nat)
    requires ts != Blocked
    ensures ht < 3 && StateOf(ht) == ts
  {
    match ts case Running => TIMESHARING case RealTime => REALTIME case Idle => IDLE
  }

  /** The time with which a thread goes back to the heaps: ahead says that its next time lies behind
      the one at which it was chosen, first is the time of the first timesharing event. */
  ghost function Flushed(ts: ThreadState, loop: bool, ahead: bool, time: Time, deferral: Time, first: Time): Time {
    match ts
    case Running => if ahead then time else Wrap(time + deferral)
    case RealTime => if ahead then time else first
    case Idle => if loop then time else Wrap(time + deferral)
    case Blocked => time
  }

  /** All eight cases: only a timesharing thread that is not ahead and an idle one are deferred, and
      only a realtime thread that is not ahead takes the time of another. */
  lemma FlushedTimes(time: Time, deferral: Time, first: Time, loop: bool)
    ensures Flushed(Running, loop, false, time, deferral, first) == Wrap(time + deferral)
    ensures Flushed(Running, loop, true, time, deferral, first) == time
    ensures Flushed(RealTime, loop, false, time, deferral, first) == first
    ensures Flushed(RealTime, loop, true, time, deferral, first) == time
    ensures forall ahead :: Flushed(Idle, false, ahead, time, deferral, first) == Wrap(time + deferral)
    ensures forall ahead :: Flushed(Idle, true, ahead, time, deferral, first) == time
    ensures forall ahead :: Flushed(Blocked, loop, ahead, time, deferral, first) == time
  {
  }

  class Scheduler {
    const heaps: seq<HeapSelector>
    const idleLoop: Event
    var currtask: Event
    var lasttime: Time
    var realtime: Time
    var fudge: Time
    var doingRealtime: int            // one unsigned byte
    ghost var threads: set<Event>     // the cached threads

    ghost predicate Separate() {
      && |heaps| == 3
      && heaps[0] != heaps[1] && heaps[0] != heaps[2] && heaps[1] != heaps[2]
      && heaps[0].heap != heaps[1].heap && heaps[0].heap != heaps[2].heap && heaps[1].heap != heaps[2].heap
    }

    ghost function Arrays(): set<object> {
      set h | h in heaps :: h.heap
    }

    /** Heap ht is sound and holds exactly the threads of its state, apart from those in x. */
    ghost predicate Files(ht: nat, x: set<Event>)
      reads this`threads, heaps, Arrays(), threads, set h, e | h in heaps && e in h.members :: e
      requires ht < |heaps|
    {
      && heaps[ht].Valid() && heaps[ht].members <= threads
      && forall t :: t in threads ==> (t in heaps[ht].members <==> t.ts == StateOf(ht) && t !in x)
    }

    /** Every thread, apart from those in x, is in the heap of its state and in no other. */
    ghost predicate FiledBut(x: set<Event>)
      reads this`threads, heaps, Arrays(), threads, idleLoop, set h, e | h in heaps && e in h.members :: e
    {
      && Separate()
      && Files(0, x) && Files(1, x) && Files(2, x)
      && idleLoop !in threads && idleLoop.ts == Idle && |threads| <= MAXEVENTS
    }

    ghost predicate Valid()
      reads this`threads, this`currtask, heaps, Arrays(), threads, idleLoop, currtask, set h, e | h in heaps && e in h.members :: e
    {
      FiledBut({}) && (currtask in threads || currtask == idleLoop || currtask.ts == Blocked)
    }

    constructor (loop: Event, margin: Time)
      requires loop.ts == Idle
      ensures Valid() && threads == {} && currtask == idleLoop == loop && fudge == margin
    {
      var h0 := new HeapSelector(loop);
      var h1 := new HeapSelector(loop);
      var h2 := new HeapSelector(loop);
      heaps := [h0, h1, h2];
      idleLoop, currtask := loop, loop;
      lasttime, realtime, fudge, doingRealtime := 0, 0, margin, 0;
      threads := {};
    }

    /** A running thread is at slot 0 of the heap of its state. */
    ghost predicate CurrentAtRoot()
      reads this`currtask, heaps`heapLast, Arrays(), currtask`ts
    {
      && Separate()
      && (currtask != idleLoop && currtask.ts != Blocked ==> Root(HeapTypeOf(currtask.ts)) == currtask)
    }

    /** The event at slot 0 of heap ht, or null if the heap is empty. */
    ghost function Root(ht: nat): Event?
      reads heaps`heapLast, Arrays()
      requires Separate() && ht < 3
    {
      if heaps[ht].heap.Length > 0 && heaps[ht].heapLast >= 0 then heaps[ht].heap[0] else null
    }

    // ---------- order ----------

    /** All times of cached threads lie in one half of the circle, from w on. */
    ghost predicate Timely(w: int)
      reads this`threads, threads`time
    {
      forall t :: t in threads ==> InWindow(w, t.time)
    }

    lemma TimelyKeys(ht: nat, x: set<Event>, w: int)
      requires FiledBut(x) && ht < 3 && Timely(w)
      ensures AllInWindow(w, heaps[ht].keys)
    {
      assert Files(ht, x);
      heaps[ht].Slots();
    }

    /** The thread is blocked, or the last event of its heap may sink from its slot. */
    ghost predicate Fits(thread: Event)
      reads heaps`keys, thread`ts, thread`heap
    {
      thread.ts != Blocked && |heaps| == 3 ==>
        var ks := heaps[HeapTypeOf(thread.ts)].keys;
        0 <= thread.heap < |ks| && FitsAt(ks, thread.heap)
    }

    /** CKremoveEvent on the heap of the thread's state. */
    method Extract(ht: nat, thread: Event, ghost w: int)
      requires FiledBut({}) && ht < 3 && thread in threads && thread.ts == StateOf(ht)
      modifies heaps[ht], heaps[ht].heap, heaps[ht].members`heap
      ensures FiledBut({thread})
      ensures old(Root(ht)) != thread ==> Root(ht) == old(Root(ht))
      ensures old(Timely(w) && thread == currtask && AllSlack()) ==> AllOrdered()
      ensures old(Timely(w) && AllOrdered()) ==> (AllOrdered() <==> old(Fits(thread)))
      ensures Timely(w) == old(Timely(w))
      ensures forall t :: t in threads && t.ts != thread.ts ==> Fits(t) == old(Fits(t))
    {
      RemoveFrom(ht, thread, w);
    }

    method RemoveFrom(ht: nat, thread: Event, ghost w: int)
      requires FiledBut({}) && ht < 3 && thread in threads && thread.ts == StateOf(ht)
      modifies heaps[ht], heaps[ht].heap, heaps[ht].members`heap
      ensures FiledBut({thread}) && 0 <= old(thread.heap) < |old(heaps[ht].keys)|
      ensures old(Root(ht)) != thread ==> Root(ht) == old(Root(ht)) && old(thread.heap) != 0
      ensures old(Root(ht)) == thread ==> old(thread.heap) == 0
      ensures old(Timely(w) && HeapOrder(heaps[ht].keys)) ==>
        (HeapOrder(heaps[ht].keys) <==> FitsAt(old(heaps[ht].keys), old(thread.heap)))
      ensures old(Timely(w) && RootLate(heaps[ht].keys) && thread.heap == 0) ==> HeapOrder(heaps[ht].keys)
    {
      if Timely(w) { TimelyKeys(ht, {}, w); }
      assert Files(ht, {});
      heaps[ht].Slots();
      heaps[ht].RemoveEvent(thread.heap, w);
    }

    /** CKsiftup on the heap of the thread's state; the root stays unless the newcomer is earlier. */
    method Join(ht: nat, thread: Event, ghost w: int)
      requires FiledBut({thread}) && ht < 3 && thread in threads && thread.ts == StateOf(ht)
      modifies heaps[ht], heaps[ht].heap, heaps[ht].members`heap, thread`heap
      ensures FiledBut({})
      ensures var r := old(Root(ht)); r != null && !CLess(thread.time, r.time) ==> Root(ht) == r
      ensures old((heaps[ht].heapLast < 0 || Timely(w)) && HeapOrder(heaps[ht].keys)) ==> (AllOrdered() <==> old(AllOrdered()))
    {
      if Timely(w) { TimelyKeys(ht, {thread}, w); }
      HasRoom(ht, thread);
      heaps[ht].SiftUp(thread, w);
    }

    lemma HasRoom(ht: nat, thread: Event)
      requires FiledBut({thread}) && ht < 3 && thread in threads
      ensures heaps[ht].Valid() && thread !in heaps[ht].members && heaps[ht].heapLast + 1 < MAXEVENTS
    {
      assert Files(ht, {thread});
      SlotsFit(heaps[ht], threads - {thread});
    }

    /** A newcomer is to have the time of the first event, so that it is not late and not preferred. */
    ghost function EntryTime(ht: nat): Time
      reads heaps`keys
      requires |heaps| == 3 && ht < 3
    {
      if heaps[ht].keys == [] then 0 else heaps[ht].keys[0]
    }

    /** The thread enters heap ht with that time. */
    method Admit(ht: nat, thread: Event, ghost w: int)
      requires FiledBut({thread}) && ht < 3 && thread in threads
      modifies heaps[ht], heaps[ht].heap, heaps[ht].members`heap, thread`heap, thread`ts, thread`time
      ensures FiledBut({}) && thread.ts == StateOf(ht)
      ensures thread.time == old(EntryTime(ht))
      ensures old(Root(ht)) != null ==> Root(ht) == old(Root(ht))
      ensures old(Timely(w) && HeapOrder(heaps[ht].keys)) ==> (AllOrdered() <==> old(AllOrdered()))
      ensures thread != currtask && old(CurrentAtRoot()) ==> CurrentAtRoot()
    {
      Prepare(ht, thread, w);
      Join(ht, thread, w);
    }

    method Prepare(ht: nat, thread: Event, ghost w: int)
      requires FiledBut({thread}) && ht < 3 && thread in threads
      modifies thread`ts, thread`time
      ensures FiledBut({thread}) && thread.ts == StateOf(ht)
      ensures thread.time == old(EntryTime(ht))
      ensures Root(ht) != null ==> !CLess(thread.time, Root(ht).time)
      ensures old(Timely(w)) ==> heaps[ht].heapLast < 0 || Timely(w)
    {
      assert Files(ht, {thread});
      assert heaps[ht].heapLast >= 0 ==> heaps[ht].Slot(0);
      if heaps[ht].heapLast < 0 {
        thread.time := 0;
      } else {
        thread.time := heaps[ht].heap[0].time;
        Irreflexive(thread.time);
      }
      thread.ts := StateOf(ht);
    }

    /** Out of the heap of its state, if it is in one; heap to is another one. */
    method Leave(thread: Event, ghost to: nat, ghost w: int)
      requires FiledBut({}) && thread in threads && to < 3 && StateOf(to) != thread.ts
      modifies heaps, Arrays(), threads`heap
      ensures FiledBut({thread}) && heaps[to].keys == old(heaps[to].keys) && Timely(w) == old(Timely(w))
      ensures old(Timely(w) && AllOrdered()) ==> (AllOrdered() <==> old(Fits(thread)))
      ensures thread != currtask && old(CurrentAtRoot()) ==> CurrentAtRoot()
    {
      if thread.ts != Blocked {
        Extract(HeapTypeOf(thread.ts), thread, w);
      }
    }

    /** CKblockThread.  The thread goes from whatever place it has in its heap; if the heaps were in
        order they still are exactly if the last event of that heap is no earlier than the parent. */
    method BlockThread(thread: Event, ghost w: int)
      requires Valid() && thread in threads
      modifies heaps, Arrays(), threads`heap, thread`ts
      ensures Valid() && thread.ts == Blocked
      ensures old(Timely(w) && AllOrdered()) ==> (AllOrdered() <==> old(Fits(thread)))
      ensures thread != currtask && old(CurrentAtRoot()) ==> CurrentAtRoot()
      ensures Timely(w) == old(Timely(w))
      ensures forall t :: t in threads && t.ts != old(thread.ts) && t != thread ==> Fits(t) == old(Fits(t))
    {
      if thread.ts != Blocked {
        Extract(HeapTypeOf(thread.ts), thread, w);
        SetState(thread, Blocked, w);
      }
    }

    /** A thread object that has just been loaded is blocked.  No more threads are loaded than a heap has slots. */
    ghost method Enrol(thread: Event)
      requires Valid() && thread !in threads && thread != idleLoop && thread.ts == Blocked && |threads| < MAXEVENTS
      modifies this`threads
      ensures Valid() && threads == old(threads) + {thread}
      ensures AllOrdered() == old(AllOrdered())
      ensures old(CurrentAtRoot()) ==> CurrentAtRoot()
    {
      threads := threads + {thread};
    }

    /** What unloading a thread object does here: no heap keeps a pointer to it. */
    method Retire(thread: Event, ghost w: int)
      requires Valid() && thread in threads && thread != currtask
      modifies heaps, Arrays(), threads`heap, thread`ts, this`threads
      ensures Valid() && threads == old(threads) - {thread}
      ensures forall ht: nat :: ht < 3 ==> thread !in heaps[ht].members
      ensures old(Timely(w) && AllOrdered()) ==> (AllOrdered() <==> old(Fits(thread)))
      ensures old(CurrentAtRoot()) ==> CurrentAtRoot()
    {
      BlockThread(thread, w);
      Forget(thread);
    }

    ghost method Forget(thread: Event)
      requires Valid() && thread in threads && thread != currtask && thread.ts == Blocked
      modifies this`threads
      ensures Valid() && threads == old(threads) - {thread}
      ensures forall ht: nat :: ht < 3 ==> thread !in heaps[ht].members
      ensures AllOrdered() == old(AllOrdered())
      ensures old(CurrentAtRoot()) ==> CurrentAtRoot()
    {
      assert Files(0, {}) && Files(1, {}) && Files(2, {});
      threads := threads - {thread};
    }

    /** CKunblockThread. */
    method UnblockThread(thread: Event, ghost w: int)
      requires Valid() && thread in threads
      modifies heaps, Arrays(), threads`heap, thread
      ensures Valid() && thread.ts == (if old(thread.ts) == Blocked then Running else old(thread.ts))
      ensures thread.time == old(if thread.ts == Blocked then EntryTime(TIMESHARING) else thread.time)
      ensures old(Timely(w) && AllOrdered()) ==> AllOrdered()
      ensures thread != currtask && old(CurrentAtRoot()) ==> CurrentAtRoot()
    {
      if thread.ts == Blocked {
        Admit(TIMESHARING, thread, w);
      }
    }

    /** CKidleThread. */
    method IdleThread(thread: Event, ghost w: int)
      requires Valid() && thread in threads
      modifies heaps, Arrays(), threads`heap, thread
      ensures Valid() && thread.ts == (if old(thread.ts) == Blocked then Idle else old(thread.ts))
      ensures thread.time == old(if thread.ts == Blocked then EntryTime(IDLE) else thread.time)
      ensures old(Timely(w) && AllOrdered()) ==> AllOrdered()
      ensures thread != currtask && old(CurrentAtRoot()) ==> CurrentAtRoot()
    {
      if thread.ts == Blocked {
        Admit(IDLE, thread, w);
      }
    }

    /** Out of the heap it is in, if any, and into heap ht. */
    method MoveTo(ht: nat, thread: Event, ghost w: int)
      requires Valid() && thread in threads && (ht == TIMESHARING || ht == IDLE)
      modifies heaps, Arrays(), threads`heap, thread`ts, thread`time
      ensures Valid() && thread.ts == StateOf(ht)
      ensures old(thread.ts) != StateOf(ht) ==> thread.time == old(EntryTime(ht))
      ensures old(Timely(w) && AllOrdered()) ==> (AllOrdered() <==> old(thread.ts == StateOf(ht) || Fits(thread)))
      ensures thread != currtask && old(CurrentAtRoot()) ==> CurrentAtRoot()
    {
      if thread.ts != StateOf(ht) {
        Leave(thread, ht, w);
        Admit(ht, thread, w);
      }
    }

    /** CKsetThreadStateKernelCode for a thread descriptor; no call makes a thread realtime. */
    method SetThreadState(thread: Event, state: ThreadState, ghost w: int) returns (error: int)
      requires Valid() && thread in threads
      modifies heaps, Arrays(), threads`heap, thread`ts, thread`time, thread`userTime
      ensures Valid()
      ensures error == if state == RealTime then -18 else 0
      ensures thread.ts == if state == RealTime then old(thread.ts) else state
      ensures state != RealTime && state != Blocked && old(thread.ts) != state ==>
        thread.userTime == thread.time == old(EntryTime(HeapTypeOf(state)))
      ensures old(Timely(w) && AllOrdered()) ==> (AllOrdered() <==> old(state == RealTime || thread.ts == state || Fits(thread)))
      ensures thread != currtask && old(CurrentAtRoot()) ==> CurrentAtRoot()
    {
      error := 0;
      match state {
        case RealTime => error := EINVALIDPARAMS;
        case Blocked => BlockThread(thread, w);
        case Running | Idle =>
          if thread.ts != state {
            MoveTo(HeapTypeOf(state), thread, w);
            CopyTime(thread);
          }
      }
    }

    /** uthread->time = thread->time. */
    method CopyTime(thread: Event)
      requires Valid() && thread in threads
      modifies thread`userTime
      ensures Valid() && thread.userTime == thread.time
      ensures old(CurrentAtRoot()) ==> CurrentAtRoot()
      ensures AllOrdered() == old(AllOrdered())
    {
      thread.userTime := thread.time;
    }

    /** The tt_Swapping part of CKthreadTunnelKernelCode before it reschedules: the current thread
        blocks and the given one becomes timesharing.  The order survives if the last events of the
        two heaps fit, one after the other: fits says so of the second removal, when the current
        thread is already gone. */
    method SwapTo(thread: Event, ghost w: int) returns (ghost fits: bool)
      requires Valid() && thread in threads && currtask in threads
      modifies heaps, Arrays(), threads`heap, thread`ts, thread`time, currtask`ts
      ensures Valid() && thread.ts == Running
      ensures thread != currtask ==> currtask.ts == Blocked && CurrentAtRoot()
      ensures old(thread.ts != currtask.ts) ==> fits == old(thread.ts == Running || Fits(thread))
      ensures old(thread.ts == Running) && thread != currtask ==> fits
      ensures old(Timely(w) && AllOrdered() && Fits(currtask)) && fits ==> AllOrdered()
    {
      BlockThread(currtask, w);
      fits := thread.ts == Running || Fits(thread);
      MoveTo(TIMESHARING, thread, w);
    }

    /** CKprioritise. */
    method Prioritise(thread: Event, ghost w: int)
      requires Valid() && thread in threads
      modifies heaps[TIMESHARING], heaps[TIMESHARING].heap, threads`heap, thread`time
      ensures Valid()
      ensures thread.time == old(if thread.ts == Running then EntryTime(TIMESHARING) else thread.time)
      ensures old(Timely(w) && AllOrdered()) ==> AllOrdered()
      ensures old(CurrentAtRoot()) ==> CurrentAtRoot()
    {
      assert Files(TIMESHARING, {});
      if Timely(w) { TimelyKeys(TIMESHARING, {}, w); }
      heaps[TIMESHARING].Slots();
      heaps[TIMESHARING].Prioritise(thread, w);
    }

    // ---------- the timer interrupt ----------

    /** Heap ht is in order, except that its root may be later than its children if late is set. */
    ghost predicate Slack(ht: nat, late: bool)
      reads heaps`keys
      requires ht < |heaps|
    {
      if late then RootLate(heaps[ht].keys) else HeapOrder(heaps[ht].keys)
    }

    /** The current thread, if it is to be scheduled at all, is a root, and nothing but it may be out of order. */
    ghost predicate AllSlack()
      reads this`currtask, heaps`keys, heaps`heapLast, Arrays(), currtask`ts
    {
      && CurrentAtRoot()
      && var ht := if currtask == idleLoop || currtask.ts == Blocked then 3 else HeapTypeOf(currtask.ts);
         Slack(0, ht == 0) && Slack(1, ht == 1) && Slack(2, ht == 2)
    }

    ghost predicate AllOrdered()
      reads heaps`keys
    {
      |heaps| == 3 && HeapOrder(heaps[0].keys) && HeapOrder(heaps[1].keys) && HeapOrder(heaps[2].keys)
    }

    /** CKsiftdown on the heap of the current thread. */
    method SinkCurrent(ht: nat, ghost w: int)
      requires Valid() && ht < 3 && currtask in threads && currtask.ts == StateOf(ht)
      modifies heaps[ht], heaps[ht].heap, heaps[ht].members`heap
      ensures Valid() && Timely(w) == old(Timely(w))
      ensures old(Timely(w) && AllSlack()) ==> AllOrdered()
    {
      assert Files(ht, {});
      assert heaps[ht].Sits(currtask);
      SinkAt(ht, w);
    }

    method SinkAt(ht: nat, ghost w: int)
      requires FiledBut({}) && ht < 3 && heaps[ht].heapLast >= 0
      modifies heaps[ht], heaps[ht].heap, heaps[ht].members`heap
      ensures FiledBut({}) && Timely(w) == old(Timely(w))
      ensures old(Timely(w) && RootLate(heaps[ht].keys)) ==> HeapOrder(heaps[ht].keys)
    {
      if Timely(w) { TimelyKeys(ht, {}, w); }
      heaps[ht].SiftDown(w);
    }

    method Rehome(ht: nat, ghost w: int)
      requires Valid() && currtask in threads && currtask.ts != Blocked && ht < 3 && currtask.ts != StateOf(ht)
      modifies heaps, Arrays(), threads`heap, currtask`ts
      ensures Valid() && currtask.ts == StateOf(ht)
      ensures old(Timely(w) && AllSlack()) ==> AllOrdered()
    {
      ghost var ok := Timely(w) && AllSlack();
      Extract(HeapTypeOf(currtask.ts), currtask, w);
      SetState(currtask, StateOf(ht), w);
      assert ok ==> Timely(w) && AllOrdered();
      Join(ht, currtask, w);
    }

    /** The current thread goes from the heap it is in to heap ht, with the time it has. */
    method Transfer(ht: nat, ghost w: int)
      requires Valid() && currtask in threads && currtask.ts != Blocked && ht < 3 && currtask.ts != StateOf(ht)
      modifies heaps, Arrays(), threads`heap, currtask`ts
      ensures Valid() && currtask.ts == StateOf(ht)
      ensures Timely(w) && old(AllSlack()) ==> AllOrdered()
    {
      Rehome(ht, w);
    }

    method SetState(thread: Event, state: ThreadState, ghost w: int)
      requires FiledBut({thread}) && thread in threads
      modifies thread`ts
      ensures FiledBut({thread}) && thread.ts == state && (state == Blocked ==> FiledBut({}))
      ensures old(AllOrdered()) ==> AllOrdered()
      ensures thread != currtask && old(CurrentAtRoot()) ==> CurrentAtRoot()
      ensures Timely(w) == old(Timely(w))
    {
      thread.ts := state;
    }

    /** currtask->time = t. */
    method Retime(t: Time)
      requires Valid() && currtask in threads && currtask.ts != Blocked
      modifies heaps`keys, currtask`time
      ensures Valid() && currtask.time == t
      ensures old(AllSlack()) ==> AllSlack()
    {
      var ht := HeapTypeOf(currtask.ts);
      assert Files(ht, {});
      assert heaps[ht].Sits(currtask) && heaps[ht].Slot(0);
      if RootLate(heaps[ht].keys) && heaps[ht].heapLast >= 0 { RootKeyFree(heaps[ht].keys, t); }
      RetimeIn(ht, heaps[ht], t);
    }

    method RetimeIn(ht: nat, h: HeapSelector, t: Time)
      requires FiledBut({}) && ht < 3 && h == heaps[ht] && currtask in h.members
      modifies h`keys, currtask`time
      ensures FiledBut({}) && currtask.time == t
      ensures 0 <= currtask.heap < |old(h.keys)| && h.keys == old(h.keys)[currtask.heap := t]
    {
      h.Retime(currtask, t);
    }

    /** The time of the first timesharing event, or what its slot holds if there is none. */
    ghost function First(stale: Time): Time
      reads heaps`heapLast, Arrays(), if |heaps| == 3 && heaps[0].heap.Length > 0 then {heaps[0].heap[0]} else {}
    {
      if |heaps| == 3 && heaps[0].heap.Length > 0 && heaps[0].heapLast >= 0 then heaps[0].heap[0].time else stale
    }

    /** The time of a newcomer is that of the event in slot 0, or 0 in an empty heap. */
    lemma EntryIs(ht: nat, stale: Time)
      requires Valid() && ht < 3
      ensures heaps[ht].heapLast >= 0 ==> heaps[ht].heap.Length > 0 && EntryTime(ht) == heaps[ht].heap[0].time
      ensures heaps[ht].heapLast < 0 ==> EntryTime(ht) == 0
      ensures First(stale) == if heaps[0].heapLast >= 0 then EntryTime(0) else stale
    {
      assert Files(ht, {}) && Files(0, {});
      assert heaps[ht].heapLast >= 0 ==> heaps[ht].Slot(0);
      assert heaps[0].heapLast >= 0 ==> heaps[0].Slot(0);
    }

    /** CKflushPrevTask: the previous task goes back into the right heap with the right time.  If it
        is at the root of its heap, and nothing else is out of order, every heap is in order
        afterwards.  stale is what the root slot of an empty timesharing heap happens to hold. */
    method FlushPrevTask(stale: Time, ghost w: int)
      requires Valid()
      modifies heaps, Arrays(), threads`heap, currtask`ts, currtask`time, this`doingRealtime
      ensures Valid()
      ensures currtask.ts ==
        if old(currtask.ts == Blocked || currtask.ts == Idle) then old(currtask.ts)
        else if old(CLess(lasttime, currtask.time)) then RealTime else Running
      ensures doingRealtime == if old(currtask.ts) == RealTime then 0 else old(doingRealtime)
      ensures currtask.time ==
        Flushed(old(currtask.ts), currtask == idleLoop, old(CLess(lasttime, currtask.time)), old(currtask.time), currtask.deferral, old(First(stale)))
      ensures Timely(w) && old(AllSlack()) ==> AllOrdered()
    {
      match currtask.ts {
        case Running => FlushTimesharing(w);
        case RealTime => FlushRealtime(stale, w); doingRealtime := 0;
        case Idle => FlushIdle(w);
        case Blocked =>
      }
    }

    /** The current thread's next invocation is a deferral later. */
    method Advance(ht: nat, ghost w: int)
      requires Valid() && ht < 3 && currtask in threads && currtask.ts == StateOf(ht)
      modifies heaps, Arrays(), threads`heap, currtask`time
      ensures Valid() && currtask.time == Wrap(old(currtask.time) + currtask.deferral)
      ensures Timely(w) && old(AllSlack()) ==> AllOrdered()
    {
      Retime(Wrap(currtask.time + currtask.deferral));
      SinkCurrent(ht, w);
    }

    method FlushTimesharing(ghost w: int)
      requires Valid() && currtask in threads && currtask.ts == Running
      modifies heaps, Arrays(), threads`heap, currtask`ts, currtask`time
      ensures Valid()
      ensures old(CLess(lasttime, currtask.time)) ==> currtask.ts == RealTime && currtask.time == old(currtask.time)
      ensures !old(CLess(lasttime, currtask.time)) ==>
        currtask.ts == Running && currtask.time == Wrap(old(currtask.time) + currtask.deferral)
      ensures Timely(w) && old(AllSlack()) ==> AllOrdered()
    {
      if !CLess(lasttime, currtask.time) {
        Advance(TIMESHARING, w);
      } else {
        Transfer(REALTIME, w);
      }
    }

    method FlushRealtime(stale: Time, ghost w: int)
      requires Valid() && currtask in threads && currtask.ts == RealTime
      modifies heaps, Arrays(), threads`heap, currtask`ts, currtask`time
      ensures Valid()
      ensures currtask.ts == if old(CLess(lasttime, currtask.time)) then RealTime else Running
      ensures currtask.time ==
        if old(CLess(lasttime, currtask.time)) then old(currtask.time)
        else old(First(stale))
      ensures Timely(w) && old(AllSlack()) ==> AllOrdered()
    {
      if CLess(lasttime, currtask.time) {
        SinkCurrent(REALTIME, w);
      } else {
        assert Files(TIMESHARING, {}) && (heaps[TIMESHARING].heapLast >= 0 ==> heaps[TIMESHARING].Slot(0));
        var t := if heaps[TIMESHARING].heapLast >= 0 then heaps[TIMESHARING].heap[0].time else stale;
        Retime(t);
        Transfer(TIMESHARING, w);
      }
    }

    method FlushIdle(ghost w: int)
      requires Valid() && currtask.ts == Idle
      modifies heaps, Arrays(), threads`heap, currtask`time
      ensures Valid()
      ensures currtask.time == if currtask == idleLoop then old(currtask.time) else Wrap(old(currtask.time) + currtask.deferral)
      ensures Timely(w) && old(AllSlack()) ==> AllOrdered()
    {
      if currtask != idleLoop {
        Advance(IDLE, w);
      }
    }

    // ---------- the choice of the next thread ----------

    /** The time from now to the first realtime invocation, less the fudge. */
    ghost function Ahead(): Time
      reads this`fudge, this`realtime, heaps`keys
      requires |heaps| == 3 && heaps[REALTIME].keys != []
    {
      Wrap(Wrap(heaps[REALTIME].keys[0] - fudge) - realtime)
    }

    ghost predicate RealtimePending()
      reads heaps`keys
    {
      |heaps| == 3 && heaps[REALTIME].keys != []
    }

    ghost predicate Due()
      reads this`fudge, this`realtime, heaps`keys
    {
      RealtimePending() && Ahead() <= 0
    }

    /** A realtime thread that is due, else a timesharing thread, else an idle thread, else the loop;
        among the threads of a kind, the one at the root. */
    ghost predicate Chosen(next: Event)
      reads this`fudge, this`realtime, heaps`keys, heaps`heapLast, Arrays()
    {
      && Separate()
      && if Due() then next == Root(REALTIME)
         else if Root(TIMESHARING) != null then next == Root(TIMESHARING)
         else if Root(IDLE) != null then next == Root(IDLE)
         else next == idleLoop
    }

    /** The thread gets its quantum, but never runs into the realtime invocation that it precedes. */
    ghost predicate Granted(next: Event, period: Time)
      reads this`fudge, this`realtime, heaps`keys, next`quantum
    {
      period == if !RealtimePending() || Due() || next.quantum <= Ahead() then next.quantum else Ahead()
    }

    /** The quantum does not lie half a circle or more before the realtime invocation that precedes it;
        one that is not negative never does. */
    ghost predicate Fair(next: Event)
      reads this`fudge, this`realtime, heaps`keys, next`quantum
    {
      !RealtimePending() || Due() || Ahead() - next.quantum < HALF
    }

    /** The period is as it should be exactly if the quantum is fair; otherwise a negative quantum is
        taken for one that is too long, and cut off at the invocation. */
    ghost predicate GrantedIfFair(next: Event, period: Time)
      reads this`fudge, this`realtime, heaps`keys, next`quantum
    {
      && (Granted(next, period) <==> Fair(next))
      && (!Fair(next) ==> period == Ahead())
    }

    /** What the choice needs to know of heap ht. */
    ghost predicate Headed(ht: nat)
      reads heaps, Arrays(), if ht < |heaps| && heaps[ht].heap.Length > 0 then {heaps[ht].heap[0]} else {}
    {
      && Separate() && ht < 3 && heaps[ht].Bounded() && |heaps[ht].keys| == heaps[ht].heapLast + 1
      && (heaps[ht].heapLast >= 0 ==> heaps[ht].keys[0] == heaps[ht].heap[0].time)
    }

    /** What the choice and the period mean: a realtime thread whose time, less the fudge, has come,
        runs for its quantum; otherwise the quantum is compared with the time left until then. */
    lemma ChoiceMeans(next: Event, period: Time)
      requires Headed(0) && Headed(1) && Headed(2) && Chosen(next) && GrantedIfFair(next, period)
      ensures heaps[1].heapLast >= 0 && Wrap(heaps[1].heap[0].time - fudge - realtime) <= 0 ==>
        next == heaps[1].heap[0] && period == next.quantum
      ensures heaps[1].heapLast < 0 || Wrap(heaps[1].heap[0].time - fudge - realtime) > 0 ==>
        next == if heaps[0].heapLast >= 0 then heaps[0].heap[0] else if heaps[2].heapLast >= 0 then heaps[2].heap[0] else idleLoop
      ensures heaps[1].heapLast < 0 ==> period == next.quantum
      ensures heaps[1].heapLast >= 0 && Wrap(heaps[1].heap[0].time - fudge - realtime) > 0 ==>
        var left := Wrap(heaps[1].heap[0].time - fudge - realtime);
        period == if left - 0x8000_0000 < next.quantum <= left then next.quantum else left
    {
      if heaps[1].heapLast >= 0 { WrapDifference(heaps[1].heap[0].time - fudge, realtime); }
    }

    /** CKgetNextTask; now is what the hardware clock reads. */
    method GetNextTask(now: Time) returns (next: Event, period: Time)
      requires Headed(0) && Headed(1) && Headed(2)
      modifies this`realtime, this`doingRealtime
      ensures realtime == now
      ensures doingRealtime == if Due() then (old(doingRealtime) + 1) % 256 else old(doingRealtime)
      ensures Chosen(next) && GrantedIfFair(next, period)
    {
      realtime := now;
      if heaps[REALTIME].heapLast >= 0 {
        var rt := heaps[REALTIME].heap[0];
        if CLse(Wrap(rt.time - fudge), realtime) {
          period := rt.quantum;
          doingRealtime := (doingRealtime + 1) % 256;
          next := rt;
          return;
        }
        if heaps[TIMESHARING].heapLast < 0 {
          next, period := GoIdle();
          return;
        }
        next := heaps[TIMESHARING].heap[0];
        Preempted(rt.time, fudge, realtime, next.quantum);
        if CLse(Wrap(rt.time - fudge), Wrap(next.quantum + realtime)) {
          period := Wrap(rt.time - realtime - fudge);
          return;
        }
      } else if heaps[TIMESHARING].heapLast < 0 {
        next, period := GoIdle();
        return;
      }
      next := heaps[TIMESHARING].heap[0];
      period := next.quantum;
    }

    /** The part from the label idle on. */
    method GoIdle() returns (next: Event, period: Time)
      requires Headed(1) && Headed(2) && !Due()
      ensures next == if heaps[IDLE].heapLast < 0 then idleLoop else heaps[IDLE].heap[0]
      ensures GrantedIfFair(next, period)
    {
      next := if heaps[IDLE].heapLast < 0 then idleLoop else heaps[IDLE].heap[0];
      period := next.quantum;
      if heaps[REALTIME].heapLast >= 0 {
        var rt := heaps[REALTIME].heap[0];
        Preempted(rt.time, fudge, realtime, next.quantum);
        if CLse(Wrap(rt.time - fudge), Wrap(next.quantum + realtime)) {
          period := Wrap(rt.time - realtime - fudge);
        }
      }
    }

    lemma HeadsAre()
      requires FiledBut({})
      ensures forall ht: nat :: ht < 3 ==> Headed(ht)
      ensures forall ht: nat :: ht < 3 && Root(ht) != null ==> Root(ht) in threads && Root(ht).ts == StateOf(ht)
    {
      forall ht: nat | ht < 3
        ensures Headed(ht) && (Root(ht) != null ==> Root(ht) in threads && Root(ht).ts == StateOf(ht))
      {
        assert Files(ht, {});
        assert heaps[ht].heapLast >= 0 ==> heaps[ht].Slot(0);
      }
    }

    /** CKschedule up to the context switch.  The task that is about to run is a root again; if the
        previous one was a root, all heaps are in order, so the new one is the earliest of its heap. */
    method Schedule(now: Time, stale: Time, ghost w: int) returns (period: Time)
      requires Valid()
      modifies this`currtask, this`lasttime, this`realtime, this`doingRealtime
      modifies heaps, Arrays(), threads`heap, currtask`ts, currtask`time
      ensures Valid() && CurrentAtRoot()
      ensures lasttime == currtask.time && realtime == now
      ensures Chosen(currtask) && GrantedIfFair(currtask, period)
      ensures old(currtask).ts ==
        if old(currtask.ts == Blocked || currtask.ts == Idle) then old(currtask.ts)
        else if old(CLess(lasttime, currtask.userTime)) then RealTime else Running
      ensures old(currtask).time ==
        Flushed(old(currtask.ts), old(currtask) == idleLoop, old(CLess(lasttime, currtask.userTime)), old(currtask.userTime),
                old(currtask).deferral, old(First(stale)))
      ensures Timely(w) && old(AllSlack()) ==> AllOrdered()
      ensures Timely(w) && old(AllSlack()) ==> Waits(old(currtask), old(currtask).ts, old(currtask).time)
    {
      Flush(stale, w);
      period := Switch(now, w);
    }

    /** The previous thread, with the time of its thread object, goes back into the right heap. */
    method Flush(stale: Time, ghost w: int)
      requires Valid()
      modifies heaps, Arrays(), threads`heap, currtask`ts, currtask`time, this`doingRealtime
      ensures Valid()
      ensures currtask.ts ==
        if old(currtask.ts == Blocked || currtask.ts == Idle) then old(currtask.ts)
        else if old(CLess(lasttime, currtask.userTime)) then RealTime else Running
      ensures currtask.time ==
        Flushed(old(currtask.ts), currtask == idleLoop, old(CLess(lasttime, currtask.userTime)), currtask.userTime, currtask.deferral, old(First(stale)))
      ensures Timely(w) && old(AllSlack()) ==> AllOrdered()
    {
      TakeUserTime();
      FlushPrevTask(stale, w);
    }

    /** p does not run while a thread of that state has an earlier time. */
    ghost predicate Waits(p: Event, ts: ThreadState, time: Time)
      reads this`threads, this`currtask, threads`ts, threads`time
    {
      forall t :: t in threads && t.ts == ts && CLess(t.time, time) ==> currtask != p
    }

    /** After Schedule: a timesharing thread p that was not ahead with the time u does not run on while
        another one is earlier than u and the deferral. */
    lemma DeferredWaits(p: Event, u: Time, first: Time)
      requires Waits(p, p.ts, p.time) && p.ts == Running && p.time == Flushed(Running, p == idleLoop, false, u, p.deferral, first)
      ensures forall t :: t in threads && t.ts == Running && CLess(t.time, Wrap(u + p.deferral)) ==> currtask != p
    {
    }

    /** A thread that is later than another one of the same state is not chosen. */
    lemma LaterWaits(p: Event, w: int)
      requires Valid() && Timely(w) && AllOrdered() && CurrentAtRoot() && Chosen(currtask)
      ensures Waits(p, p.ts, p.time)
    {
      HeadsAre();
      forall t | t in threads && t.ts == p.ts && CLess(t.time, p.time)
        ensures currtask != p
      {
        if t.ts != Blocked { RootIsFirst(HeapTypeOf(t.ts), t, w); }
      }
    }

    /** currtask becomes the next task. */
    method Switch(now: Time, ghost w: int) returns (period: Time)
      requires FiledBut({})
      modifies this`currtask, this`lasttime, this`realtime, this`doingRealtime
      ensures Valid() && CurrentAtRoot()
      ensures lasttime == currtask.time && realtime == now
      ensures Chosen(currtask) && GrantedIfFair(currtask, period)
      ensures Timely(w) && AllOrdered() ==> Waits(old(currtask), old(currtask).ts, old(currtask).time)
    {
      HeadsAre();
      var next;
      next, period := GetNextTask(now);
      Select(next);
      if Timely(w) && AllOrdered() { LaterWaits(old(currtask), w); }
    }

    method Select(next: Event)
      requires FiledBut({}) && Chosen(next)
      modifies this`currtask, this`lasttime
      ensures Valid() && CurrentAtRoot() && currtask == next && lasttime == next.time
    {
      HeadsAre();
      currtask := next;
      lasttime := currtask.time;
    }

    lemma FirstIsRunning()
      requires FiledBut({})
      ensures heaps[0].heapLast >= 0 ==> heaps[0].heap.Length > 0 && heaps[0].heap[0].ts == Running
    {
      assert Files(0, {});
      assert heaps[0].heapLast >= 0 ==> heaps[0].Slot(0);
    }

    /** currtask->time = usertask->time; for an event of a heap the ghost keys follow. */
    method TakeUserTime()
      requires Valid()
      modifies heaps`keys, currtask`time
      ensures Valid() && currtask.time == currtask.userTime
      ensures old(AllSlack()) ==> AllSlack()
      ensures currtask.ts == RealTime ==> forall stale :: First(stale) == old(First(stale))
    {
      FirstIsRunning();
      if currtask != idleLoop && currtask.ts != Blocked {
        Retime(currtask.userTime);
      } else {
        currtask.time := currtask.userTime;
      }
    }

    /** In order, a heap has the earliest of its threads at the root. */
    lemma RootIsFirst(ht: nat, t: Event, w: int)
      requires Valid() && Timely(w) && AllOrdered() && ht < 3 && t in heaps[ht].members
      ensures Root(ht) != null && !CLess(t.time, Root(ht).time)
    {
      assert Files(ht, {});
      TimelyKeys(ht, {}, w);
      heaps[ht].Slots();
      RootIsEarliest(w, heaps[ht].keys, t.heap);
    }
  }

  /** The wrap-around test of the scheduler and its shortened period, when the realtime invocation
      lies ahead: the test is an ordinary comparison, unless the quantum lies half a circle or more
      before the invocation. */
  lemma Preempted(time: Time, fudge: Time, realtime: Time, quantum: Time)
    ensures var ahead := Wrap(Wrap(time - fudge) - realtime);
      && Wrap(time - realtime - fudge) == ahead
      && (ahead > 0 ==>
            (CLse(Wrap(time - fudge), Wrap(quantum + realtime)) <==> ahead - quantum <= 0 || ahead - quantum >= HALF))
  {
    WrapDifference(time - fudge, realtime);
    WrapDifference(time - fudge, quantum + realtime);
    if Wrap(time - fudge - realtime) > 0 { WrapLess(Wrap(time - fudge - realtime), time - fudge - realtime, quantum); }
  }

  /** Wrapping the terms of a difference before or after makes no difference. */
  lemma WrapDifference(a: int, b: int)
    ensures Wrap(Wrap(a) - Wrap(b)) == Wrap(a - b) == Wrap(Wrap(a) - b)
  {
  }

  lemma WrapLess(ahead: Time, x: int, quantum: Time)
    requires ahead == Wrap(x) > 0
    ensures Wrap(x - quantum) == if ahead - quantum < HALF then ahead - quantum else ahead - quantum - WORD
  {
  }

  /** A negative quantum can be taken for one that is too long: here the invocation is 0x7000_0000
      ahead, and the quantum -0x7000_0000. */
  lemma NegativeQuantumCut()
    ensures var time: Time, quantum: Time := 0x7000_0000, -0x7000_0000;
      quantum <= Wrap(Wrap(time - 0) - 0) && CLse(Wrap(time - 0), Wrap(quantum + 0))
  {
    Preempted(0x7000_0000, 0, 0, -0x7000_0000);
  }

  lemma RootKeyFree(ks: seq<Time>, t: Time)
    requires |ks| > 0 && RootLate(ks)
    ensures RootLate(ks[0 := t])
  {
    assert forall i :: 0 < i < |ks| && Parent(i) != 0 ==> Above(ks, i);
  }

  /** A heap never has more slots in use than there are events to fill them. */
  lemma SlotsFit(h: HeapSelector, s: set<Event>)
    requires h.Valid() && h.members <= s
    ensures h.heapLast + 1 <= |s|
  {
    h.Slots();
    DistinctFit(h.heap[..h.heapLast + 1], s);
  }

  lemma {:induction false} DistinctFit(es: seq<Event>, s: set<Event>)
    requires forall i, j :: 0 <= i < j < |es| ==> es[i] != es[j]
    requires forall i :: 0 <= i < |es| ==> es[i] in s
    ensures |es| <= |s|
  {
    if es != [] {
      DistinctFit(es[1..], s - {es[0]});
    }
  }
}
