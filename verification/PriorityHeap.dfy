/** pri_heap.c: a binary heap of events, earliest first, in which every event knows its slot. */
module PriorityHeap {
  import opened TimeOrder

  const MAXEVENTS: nat := 1024

  datatype ThreadState = Running | RealTime | Idle | Blocked

  class Event {
    var quantum: Time
    var deferral: Time   // "defer"
    var time: Time
    var heap: int        // back-pointer: the index of the event's slot
    var ts: ThreadState
    var userTime: Time   // the time in the thread's own ThreadObject

    constructor (quantum: Time, deferral: Time)
      ensures this.quantum == quantum && this.deferral == deferral && time == 0 && ts == Blocked
    {
      this.quantum, this.deferral, time, heap, ts, userTime := quantum, deferral, 0, -1, Blocked, 0;
    }
  }

  class HeapSelector {
    const heap: array<Event>
    var heapLast: int   // index of the last used slot, -1 when the heap is empty
    ghost var members: set<Event>
    ghost var keys: seq<Time>

    ghost predicate Bounded()
      reads this
    {
      heap.Length == MAXEVENTS && -1 <= heapLast < MAXEVENTS
    }

    /** Slot i holds a member that names it, with the time that keys says. */
    ghost predicate Slot(i: int)
      reads this, heap, members`heap, members`time
    {
      && 0 <= i < heap.Length && i < |keys|
      && heap[i] in members && heap[i].heap == i && keys[i] == heap[i].time
    }

    /** Event e sits in the used slot that its back-pointer names. */
    ghost predicate Sits(e: Event)
      reads this, heap, e`heap
    {
      0 <= e.heap <= heapLast < heap.Length && heap[e.heap] == e
    }

    /** The used slots hold exactly the members, each once; keys are their times, slot by slot. */
    ghost predicate Valid()
      reads this, heap, members`heap, members`time
    {
      && Bounded() && |keys| == heapLast + 1
      && (forall i {:trigger Slot(i)} :: 0 <= i <= heapLast ==> Slot(i))
      && (forall e {:trigger Sits(e)} :: e in members ==> Sits(e))
    }

    lemma Slots()
      requires Valid()
      ensures forall i :: 0 <= i <= heapLast ==> heap[i] in members && heap[i].heap == i && keys[i] == heap[i].time
      ensures forall e :: e in members ==> 0 <= e.heap <= heapLast && heap[e.heap] == e
    {
      forall i | 0 <= i <= heapLast
        ensures heap[i] in members && heap[i].heap == i && keys[i] == heap[i].time
      {
        assert Slot(i);
      }
      forall e | e in members
        ensures 0 <= e.heap <= heapLast && heap[e.heap] == e
      {
        assert Sits(e);
      }
    }

    constructor (unused: Event)
      ensures Valid() && members == {} && heapLast == -1 && fresh(heap)
    {
      heap := new Event[MAXEVENTS](i => unused);
      heapLast := -1;
      members, keys := {}, [];
    }

    /** Slot k is free for evt: the other slots hold the events others, none of them evt, and each
        of these knows its slot.  ks are the keys of the heap once evt is put into slot k. */
    ghost predicate Open(k: int, evt: Event, others: set<Event>, ks: seq<Time>)
      reads this, heap, evt, others
    {
      && Bounded() && 0 <= k <= heapLast && |ks| == heapLast + 1 && ks[k] == evt.time && evt !in others
      && (forall i :: 0 <= i <= heapLast && i != k ==> heap[i] in others && heap[i].heap == i && ks[i] == heap[i].time)
      && (forall e :: e in others ==> 0 <= e.heap <= heapLast && e.heap != k && heap[e.heap] == e)
    }

    /** next[0] = from[0] and the back-pointer of the moved event: the free slot is now slot from. */
    method MoveSlot(to: nat, from: nat, evt: Event, ghost others: set<Event>, ghost ks: seq<Time>)
      requires Open(to, evt, others, ks) && from <= heapLast && from != to
      modifies heap, others`heap
      ensures Open(from, evt, others, Swap(ks, to, from))
      ensures forall i :: 0 <= i < heap.Length && i != to ==> heap[i] == old(heap[i])
    {
      heap[to] := heap[from];
      heap[to].heap := to;
    }

    /** The event goes into the free slot. */
    method Close(k: nat, evt: Event, ghost others: set<Event>, ghost ks: seq<Time>)
      requires Open(k, evt, others, ks)
      modifies this`members, this`keys, heap, evt`heap
      ensures Valid() && keys == ks && members == others + {evt}
      ensures forall i :: 0 <= i < heap.Length && i != k ==> heap[i] == old(heap[i])
      ensures heap[k] == evt
    {
      heap[k] := evt;
      evt.heap := k;
      members, keys := others + {evt}, ks;
    }

    /** The sift-up loop: evt goes into slot start or one of its ancestors. */
    method Rise(evt: Event, start: nat, ghost others: set<Event>, ghost ks0: seq<Time>, ghost w: int)
      requires Open(start, evt, others, ks0)
      modifies this`members, this`keys, heap, others`heap, evt`heap
      ensures Valid() && members == others + {evt}
      ensures AllInWindow(w, ks0) && EarlyAt(ks0, start) ==> HeapOrder(keys)
      ensures start > 0 && !CLess(evt.time, old(heap[0].time)) ==> heap[0] == old(heap[0])
      ensures start == 0 ==> heap[0] == evt
    {
      ghost var ks := ks0;
      ghost var good := AllInWindow(w, ks) && EarlyAt(ks, start);
      var next: nat := start;
      while next > 0 && CLess(evt.time, heap[(next - 1) / 2].time)
        invariant Open(next, evt, others, ks)
        invariant good ==> AllInWindow(w, ks) && EarlyAt(ks, next)
        invariant start > 0 && !CLess(evt.time, old(heap[0].time)) ==> next > 0 && heap[0] == old(heap[0])
        invariant start == 0 ==> next == 0
      {
        var parent := (next - 1) / 2;
        if good { UpStep(w, ks, next); }
        MoveSlot(next, parent, evt, others, ks);
        ks := Swap(ks, next, parent);
        next := parent;
      }
      if good { UpDone(ks, next); }
      Close(next, evt, others, ks);
    }

    /** MINCHILD: the child of the free slot j with the earlier time; beyond heapLast if there is none. */
    method MinChildOf(j: nat, ghost evt: Event, ghost others: set<Event>, ghost ks: seq<Time>) returns (c: nat)
      requires Open(j, evt, others, ks)
      ensures c > j && (c > heapLast <==> 2 * j + 1 >= |ks|)
      ensures c <= heapLast ==> c == MinChild(ks, j)
    {
      if 2 * j + 1 < heapLast && CLse(heap[2 * j + 2].time, heap[2 * j + 1].time) {
        c := 2 * j + 2;
      } else {
        c := 2 * j + 1;
      }
    }

    /** One round of that loop. */
    method SinkOnce(next: nat, minchild: nat, evt: Event, ghost others: set<Event>, ghost ks: seq<Time>, ghost w: int, ghost good: bool)
      requires Open(next, evt, others, ks) && 2 * next + 1 < |ks| && minchild == MinChild(ks, next)
      requires CLess(heap[minchild].time, evt.time) && (good ==> AllInWindow(w, ks) && LateAt(ks, next))
      modifies heap, others`heap
      ensures Open(minchild, evt, others, Swap(ks, next, minchild))
      ensures good ==> AllInWindow(w, Swap(ks, next, minchild)) && LateAt(Swap(ks, next, minchild), minchild)
      ensures forall i :: 0 <= i < heap.Length && i != next ==> heap[i] == old(heap[i])
    {
      if good { DownStep(w, ks, next); }
      MoveSlot(next, minchild, evt, others, ks);
    }

    /** The sift-down loop: evt goes into slot start or one of its descendants. */
    method Sink(evt: Event, start: nat, ghost others: set<Event>, ghost ks0: seq<Time>, ghost w: int)
      requires Open(start, evt, others, ks0)
      modifies this`members, this`keys, heap, others`heap, evt`heap
      ensures Valid() && members == others + {evt}
      ensures AllInWindow(w, ks0) && LateAt(ks0, start) ==> HeapOrder(keys)
      ensures start > 0 ==> heap[0] == old(heap[0])
      ensures Stuck(ks0, start) ==> keys == ks0
    {
      ghost var ks := ks0;
      ghost var good := AllInWindow(w, ks) && LateAt(ks, start);
      var next: nat := start;
      var minchild := MinChildOf(next, evt, others, ks);
      while minchild <= heapLast && CLess(heap[minchild].time, evt.time)
        invariant next >= start && Open(next, evt, others, ks)
        invariant Stuck(ks0, start) ==> next == start && ks == ks0
        invariant minchild > heapLast <==> 2 * next + 1 >= |ks|
        invariant minchild <= heapLast ==> minchild == MinChild(ks, next)
        invariant good ==> AllInWindow(w, ks) && LateAt(ks, next)
        invariant start > 0 ==> heap[0] == old(heap[0])
        decreases heapLast - next
      {
        SinkOnce(next, minchild, evt, others, ks, w, good);
        ks := Swap(ks, next, minchild);
        next := minchild;
        minchild := MinChildOf(next, evt, others, ks);
      }
      if good { DownDone(w, ks, next); }
      Close(next, evt, others, ks);
    }

    // ---------- the four operations ----------

    /** CKsiftup: adds an event. */
    method SiftUp(newEvt: Event, ghost w: int)
      requires Valid() && newEvt !in members && heapLast + 1 < MAXEVENTS
      modifies this, heap, members`heap, newEvt`heap
      ensures Valid() && heapLast == old(heapLast) + 1 && members == old(members) + {newEvt}
      ensures old(heapLast < 0 || (AllInWindow(w, keys) && InWindow(w, newEvt.time) && HeapOrder(keys))) ==> HeapOrder(keys)
      ensures old(heapLast) >= 0 && !CLess(newEvt.time, old(heap[0].time)) ==> heap[0] == old(heap[0])
      ensures old(heapLast) < 0 ==> heap[0] == newEvt
    {
      Slots();
      heapLast := heapLast + 1;
      if HeapOrder(keys) { AppendEarly(keys, newEvt.time); }
      Rise(newEvt, heapLast, members, keys + [newEvt.time], w);
    }

    /** CKsiftdown: the root event may have become later. */
    method SiftDown(ghost w: int)
      requires Valid() && heapLast >= 0
      modifies this`members, this`keys, heap, members`heap
      ensures Valid() && members == old(members)
      ensures AllInWindow(w, old(keys)) && RootLate(old(keys)) ==> HeapOrder(keys)
    {
      Slots();
      Sink(heap[0], 0, members - {heap[0]}, keys, w);
    }

    /** The last event moves to slot k and the heap becomes shorter. */
    method TakeLast(k: nat)
      requires Valid() && k < heapLast
      modifies this`heapLast, heap, members`heap
      ensures heapLast == old(heapLast) - 1 && heap[k] == old(heap[heapLast])
      ensures Open(k, heap[k], members - {old(heap[k]), heap[k]}, LastInto(old(keys), k))
      ensures k > 0 ==> heap[0] == old(heap[0])
    {
      Slots();
      heap[k] := heap[heapLast];
      heap[k].heap := k;
      heapLast := heapLast - 1;
    }

    /** CKremoveEvent: the last event takes the place of the one in slot k and sinks from there.
        In a heap the order survives exactly when the last event is not earlier than the parent
        of slot k; slots and back-pointers survive always. */
    method RemoveEvent(k: nat, ghost w: int)
      requires Valid() && k <= heapLast
      modifies this, heap, members`heap
      ensures Valid() && heapLast == old(heapLast) - 1 && members == old(members) - {old(heap[k])}
      ensures AllInWindow(w, old(keys)) && HeapOrder(old(keys)) ==>
        (HeapOrder(keys) <==> FitsAt(old(keys), k))
      ensures k == 0 && AllInWindow(w, old(keys)) && RootLate(old(keys)) ==> HeapOrder(keys)
      ensures k > 0 ==> heap[0] == old(heap[0])
    {
      Slots();
      ghost var ks := keys;
      if k < heapLast {
        ghost var gone := heap[k];
        TakeLast(k);
        LastIntoFacts(w, ks, k);
        Sink(heap[k], k, members - {gone, heap[k]}, LastInto(ks, k), w);
      } else {
        DropLast();
        if HeapOrder(ks) { HeapPrefix(ks, k); }
      }
    }

    /** The event removed is the last one itself: there is nothing to sift. */
    method DropLast()
      requires Valid() && heapLast >= 0
      modifies this, heap, members`heap
      ensures Valid() && heapLast == old(heapLast) - 1 && members == old(members) - {old(heap[heapLast])}
      ensures keys == old(keys)[..heapLast + 1]
      ensures heapLast >= 0 ==> heap[0] == old(heap[0])
    {
      Slots();
      heap[heapLast].heap := heapLast;
      members, keys := members - {heap[heapLast]}, keys[..heapLast];
      heapLast := heapLast - 1;
    }

    /** CKprioritise: a timesharing event gets the time of the root and rises. */
    method Prioritise(event: Event, ghost w: int)
      requires Valid() && (event.ts == Running ==> event in members)
      modifies this`members, this`keys, heap, members`heap, event`time
      ensures Valid() && members == old(members)
      ensures event.time == old(if event.ts == Running then heap[0].time else event.time)
      ensures AllInWindow(w, old(keys)) && HeapOrder(old(keys)) ==> HeapOrder(keys)
      ensures heapLast >= 0 ==> heap[0] == old(heap[0])
    {
      Slots();
      if event.ts == Running {
        ghost var ks, k := keys, event.heap;
        if AllInWindow(w, ks) && HeapOrder(ks) { PromoteEarly(w, ks, k); }
        event.time := heap[0].time;
        Irreflexive(event.time);
        Rise(event, event.heap, members - {event}, ks[k := ks[0]], w);
      }
    }

    /** event->time = t for an event of the heap, which may leave it out of order there. */
    method Retime(event: Event, t: Time)
      requires Valid() && event in members
      modifies this`keys, event`time
      ensures Valid() && event.time == t && 0 <= event.heap < |old(keys)| && keys == old(keys)[event.heap := t]
    {
      Slots();
      event.time := t;
      keys := keys[event.heap := t];
    }
  }
}
