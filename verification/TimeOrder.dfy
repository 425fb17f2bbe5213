/** Circular time and the heap order it induces.

    Times are signed 32-bit numbers that wrap around; CLESS and CLSE test the sign of the
    32-bit difference. */
module TimeOrder {
  import opened Machine

  type Time = Int32

  predicate CLess(a: Time, b: Time) { Wrap(a - b) < 0 }

  predicate CLse(a: Time, b: Time) { Wrap(a - b) <= 0 }

  /** How far t lies after w on the circle. */
  function Offset(w: int, t: int): (r: nat)
    ensures r < WORD
  {
    (t - w) % WORD
  }

  predicate InWindow(w: int, t: int) { Offset(w, t) < HALF }

  /** Within one half of the circle the wrap-around comparison is the order of the offsets. */
  lemma WindowOrder(w: int, a: Time, b: Time)
    requires InWindow(w, a) && InWindow(w, b)
    ensures CLess(a, b) <==> Offset(w, a) < Offset(w, b)
    ensures CLse(a, b) <==> Offset(w, a) <= Offset(w, b)
  {
    Split(a - w);
    Split(b - w);
    Split(a - b + HALF);
    assert (a - b + HALF) / WORD == (a - w) / WORD - (b - w) / WORD;
  }

  lemma Split(x: int)
    ensures x == x / WORD * WORD + x % WORD
  {
  }

  lemma Irreflexive(a: Time)
    ensures !CLess(a, a) && CLse(a, a)
  {
  }

  // ---------- heap order on a sequence of keys ----------

  function Parent(i: nat): nat
    requires i > 0
  {
    (i - 1) / 2
  }

  ghost predicate AllInWindow(w: int, ks: seq<Time>) {
    forall i :: 0 <= i < |ks| ==> InWindow(w, ks[i])
  }

  /** Entry i is not earlier than its parent. */
  ghost predicate Above(ks: seq<Time>, i: nat)
    requires 0 < i < |ks|
  {
    !CLess(ks[i], ks[Parent(i)])
  }

  ghost predicate HeapOrder(ks: seq<Time>) {
    forall i :: 0 < i < |ks| ==> Above(ks, i)
  }

  /** Entry i is not earlier than its grandparent. */
  ghost predicate AboveTwice(ks: seq<Time>, i: nat)
    requires 0 < i < |ks|
  {
    Parent(i) > 0 ==> !CLess(ks[i], ks[Parent(Parent(i))])
  }

  /** Heap order except that entry j may be earlier than its parent. */
  ghost predicate EarlyAt(ks: seq<Time>, j: nat) {
    && j < |ks|
    && (forall i :: 0 < i < |ks| && i != j ==> Above(ks, i))
    && (forall i :: 0 < i < |ks| && Parent(i) == j ==> AboveTwice(ks, i))
  }

  /** Heap order except that entry j may be later than its children. */
  ghost predicate LateAt(ks: seq<Time>, j: nat) {
    && j < |ks|
    && (forall i :: 0 < i < |ks| && Parent(i) != j ==> Above(ks, i))
    && (forall i :: 0 < i < |ks| && Parent(i) == j ==> AboveTwice(ks, i))
  }

  function Swap(ks: seq<Time>, i: nat, j: nat): seq<Time>
    requires i < |ks| && j < |ks|
  {
    ks[i := ks[j]][j := ks[i]]
  }

  lemma UpStep(w: int, ks: seq<Time>, j: nat)
    requires AllInWindow(w, ks) && EarlyAt(ks, j) && j > 0 && CLess(ks[j], ks[Parent(j)])
    ensures AllInWindow(w, Swap(ks, j, Parent(j))) && EarlyAt(Swap(ks, j, Parent(j)), Parent(j))
  {
    var p, t := Parent(j), Swap(ks, j, Parent(j));
    forall i | 0 < i < |ks| && i != p
      ensures Above(t, i)
    {
      UpAbove(w, ks, j, i);
    }
    forall i | 0 < i < |ks| && Parent(i) == p
      ensures AboveTwice(t, i)
    {
      if p > 0 {
        assert Above(ks, p) && (i != j ==> Above(ks, i));
        WindowOrder(w, ks[p], ks[Parent(p)]);
        WindowOrder(w, ks[i], ks[p]);
        WindowOrder(w, ks[i], ks[Parent(p)]);
      }
    }
  }

  lemma UpAbove(w: int, ks: seq<Time>, j: nat, i: nat)
    requires AllInWindow(w, ks) && EarlyAt(ks, j) && j > 0 && CLess(ks[j], ks[Parent(j)])
    requires 0 < i < |ks| && i != Parent(j)
    ensures Above(Swap(ks, j, Parent(j)), i)
  {
    var p := Parent(j);
    WindowOrder(w, ks[j], ks[p]);
    WindowOrder(w, ks[p], ks[j]);
    if i != j { assert Above(ks, i); WindowOrder(w, ks[i], ks[Parent(i)]); }
    if Parent(i) == j { assert AboveTwice(ks, i); WindowOrder(w, ks[i], ks[p]); }
    if Parent(i) == p { WindowOrder(w, ks[i], ks[j]); }
  }

  lemma UpDone(ks: seq<Time>, j: nat)
    requires EarlyAt(ks, j) && (j == 0 || !CLess(ks[j], ks[Parent(j)]))
    ensures HeapOrder(ks)
  {
  }

  /** The child with the earlier time, the right one on a tie (MINCHILD). */
  function MinChild(ks: seq<Time>, j: nat): nat
    requires 2 * j + 1 < |ks|
  {
    if 2 * j + 2 < |ks| && CLse(ks[2 * j + 2], ks[2 * j + 1]) then 2 * j + 2 else 2 * j + 1
  }

  /** It is the right child unless there is none or the left one is earlier by the 32-bit difference. */
  lemma MinChildIs(ks: seq<Time>, j: nat)
    requires 2 * j + 1 < |ks|
    ensures MinChild(ks, j) == 2 * j + 2 <==> 2 * j + 2 < |ks| && Wrap(ks[2 * j + 2] as int - ks[2 * j + 1] as int) <= 0
    ensures MinChild(ks, j) != 2 * j + 2 ==> MinChild(ks, j) == 2 * j + 1
  {
  }

  lemma MinChildLeast(w: int, ks: seq<Time>, j: nat, i: nat)
    requires AllInWindow(w, ks) && 2 * j + 1 < |ks| && 0 < i < |ks| && Parent(i) == j
    ensures Parent(MinChild(ks, j)) == j && !CLess(ks[i], ks[MinChild(ks, j)])
  {
    WindowOrder(w, ks[i], ks[MinChild(ks, j)]);
    if 2 * j + 2 < |ks| { WindowOrder(w, ks[2 * j + 2], ks[2 * j + 1]); }
  }

  lemma DownStep(w: int, ks: seq<Time>, j: nat)
    requires AllInWindow(w, ks) && LateAt(ks, j) && 2 * j + 1 < |ks|
    requires CLess(ks[MinChild(ks, j)], ks[j])
    ensures AllInWindow(w, Swap(ks, j, MinChild(ks, j))) && LateAt(Swap(ks, j, MinChild(ks, j)), MinChild(ks, j))
  {
    var c, t := MinChild(ks, j), Swap(ks, j, MinChild(ks, j));
    forall i | 0 < i < |ks| && Parent(i) != c
      ensures Above(t, i)
    {
      DownAbove(w, ks, j, i);
    }
    forall i | 0 < i < |ks| && Parent(i) == c
      ensures AboveTwice(t, i)
    {
      assert Above(ks, i);
    }
  }

  lemma DownAbove(w: int, ks: seq<Time>, j: nat, i: nat)
    requires AllInWindow(w, ks) && LateAt(ks, j) && 2 * j + 1 < |ks|
    requires CLess(ks[MinChild(ks, j)], ks[j])
    requires 0 < i < |ks| && Parent(i) != MinChild(ks, j)
    ensures Above(Swap(ks, j, MinChild(ks, j)), i)
  {
    var c := MinChild(ks, j);
    MinChildLeast(w, ks, j, c);
    WindowOrder(w, ks[c], ks[j]);
    WindowOrder(w, ks[j], ks[c]);
    if Parent(i) == j {
      MinChildLeast(w, ks, j, i);
    } else {
      assert Above(ks, i);
      if i == j { assert AboveTwice(ks, c); }
    }
  }

  lemma DownDone(w: int, ks: seq<Time>, j: nat)
    requires AllInWindow(w, ks) && LateAt(ks, j)
    requires 2 * j + 1 < |ks| ==> !CLess(ks[MinChild(ks, j)], ks[j])
    ensures HeapOrder(ks)
  {
    forall i | 0 < i < |ks|
      ensures Above(ks, i)
    {
      if Parent(i) == j {
        WindowOrder(w, ks[i], ks[j]);
        WindowOrder(w, ks[MinChild(ks, j)], ks[j]);
        if 2 * j + 2 < |ks| { WindowOrder(w, ks[2 * j + 2], ks[2 * j + 1]); }
      }
    }
  }

  /** In a heap the root is the earliest entry. */
  lemma {:induction false} RootIsEarliest(w: int, ks: seq<Time>, i: nat)
    requires AllInWindow(w, ks) && HeapOrder(ks) && i < |ks|
    ensures Offset(w, ks[0]) <= Offset(w, ks[i]) && !CLess(ks[i], ks[0])
  {
    WindowOrder(w, ks[i], ks[0]);
    if i > 0 {
      assert Above(ks, i);
      WindowOrder(w, ks[i], ks[Parent(i)]);
      RootIsEarliest(w, ks, Parent(i));
    }
  }

  // ---------- the four ways in which keys enter a heap ----------

  lemma AppendEarly(ks: seq<Time>, t: Time)
    requires HeapOrder(ks)
    ensures EarlyAt(ks + [t], |ks|)
  {
    var r := ks + [t];
    forall i | 0 < i < |r| && i != |ks|
      ensures Above(r, i)
    {
      assert Above(ks, i);
    }
  }

  /** Only the root may be later than its children. */
  ghost predicate RootLate(ks: seq<Time>) {
    forall i :: 0 < i < |ks| && Parent(i) != 0 ==> Above(ks, i)
  }

  /** The keys after the last one has taken the place of key k. */
  ghost function LastInto(ks: seq<Time>, k: nat): seq<Time>
    requires k < |ks|
  {
    ks[k := ks[|ks| - 1]][..|ks| - 1]
  }

  /** The last key is not earlier than the parent of slot k, so that it may sink from there. */
  ghost predicate FitsAt(ks: seq<Time>, k: nat)
    requires k < |ks|
  {
    k == 0 || k == |ks| - 1 || !CLess(ks[|ks| - 1], ks[Parent(k)])
  }

  lemma LastIntoLate(w: int, ks: seq<Time>, k: nat)
    requires AllInWindow(w, ks) && HeapOrder(ks) && k < |ks| - 1 && FitsAt(ks, k)
    ensures LateAt(LastInto(ks, k), k) && AllInWindow(w, LastInto(ks, k))
  {
    var r := LastInto(ks, k);
    forall i | 0 < i < |r|
      ensures Parent(i) != k ==> Above(r, i)
      ensures Parent(i) == k ==> AboveTwice(r, i)
    {
      assert Above(ks, i);
      if Parent(i) == k && k > 0 {
        assert Above(ks, k);
        WindowOrder(w, ks[i], ks[k]);
        WindowOrder(w, ks[k], ks[Parent(k)]);
        WindowOrder(w, ks[i], ks[Parent(k)]);
      }
    }
  }

  /** No child of entry k is earlier: a sift-down from k ends where it starts. */
  ghost predicate Stuck(ks: seq<Time>, k: nat)
    requires k < |ks|
  {
    2 * k + 1 < |ks| ==> !CLess(ks[MinChild(ks, k)], ks[k])
  }

  /** A last key that does not fit stays in slot k, and the heap order is lost there. */
  lemma LastIntoStuck(w: int, ks: seq<Time>, k: nat)
    requires AllInWindow(w, ks) && HeapOrder(ks) && k < |ks| - 1 && !FitsAt(ks, k)
    ensures var r := LastInto(ks, k);
            && !HeapOrder(r)
            && Stuck(r, k)
  {
    var r := LastInto(ks, k);
    assert !Above(r, k);
    if 2 * k + 1 < |r| {
      var c := MinChild(r, k);
      assert Above(ks, c) && Above(ks, k) && Parent(c) == k;
      WindowOrder(w, ks[c], ks[k]);
      WindowOrder(w, ks[k], ks[Parent(k)]);
      WindowOrder(w, ks[|ks| - 1], ks[Parent(k)]);
      WindowOrder(w, ks[c], ks[|ks| - 1]);
    }
  }

  /** At the root every last key fits, and only the root's children need not be in order before. */
  lemma LastIntoRoot(w: int, ks: seq<Time>)
    requires AllInWindow(w, ks) && RootLate(ks) && |ks| > 1
    ensures LateAt(LastInto(ks, 0), 0) && AllInWindow(w, LastInto(ks, 0))
  {
    var r := LastInto(ks, 0);
    forall i | 0 < i < |r| && Parent(i) != 0
      ensures Above(r, i)
    {
      assert Above(ks, i);
    }
  }

  /** All that is needed of a removal whose last key goes to slot k. */
  lemma LastIntoFacts(w: int, ks: seq<Time>, k: nat)
    requires k < |ks| - 1
    ensures AllInWindow(w, ks) && HeapOrder(ks) && FitsAt(ks, k) ==> LateAt(LastInto(ks, k), k) && AllInWindow(w, LastInto(ks, k))
    ensures AllInWindow(w, ks) && HeapOrder(ks) && !FitsAt(ks, k) ==> !HeapOrder(LastInto(ks, k)) && Stuck(LastInto(ks, k), k)
    ensures AllInWindow(w, ks) && RootLate(ks) && k == 0 ==> LateAt(LastInto(ks, k), k) && AllInWindow(w, LastInto(ks, k))
  {
    if AllInWindow(w, ks) && HeapOrder(ks) {
      if FitsAt(ks, k) { LastIntoLate(w, ks, k); } else { LastIntoStuck(w, ks, k); }
    }
    if AllInWindow(w, ks) && RootLate(ks) && k == 0 { LastIntoRoot(w, ks); }
  }

  /** There are heaps in which a removal from the middle loses the order: here the last key, 2,
      takes the place of 11 below 10. */
  lemma MiddleRemovalLosesOrder()
    ensures exists ks: seq<Time>, k: nat ::
      AllInWindow(0, ks) && HeapOrder(ks) && k < |ks| - 1 && !FitsAt(ks, k) && !HeapOrder(LastInto(ks, k))
  {
    var ks: seq<Time> := [0, 10, 1, 11, 12, 2];
    forall i | 0 < i < |ks|
      ensures Above(ks, i)
    {
      assert i == 1 || i == 2 || i == 3 || i == 4 || i == 5;
    }
    LastIntoStuck(0, ks, 3);
  }

  lemma HeapPrefix(ks: seq<Time>, n: nat)
    requires HeapOrder(ks) && n <= |ks|
    ensures HeapOrder(ks[..n])
  {
    forall i | 0 < i < n
      ensures Above(ks[..n], i)
    {
      assert Above(ks, i);
    }
  }

  /** Giving any key the time of the root makes it at most too early. */
  lemma PromoteEarly(w: int, ks: seq<Time>, k: nat)
    requires AllInWindow(w, ks) && HeapOrder(ks) && k < |ks|
    ensures EarlyAt(ks[k := ks[0]], k) && AllInWindow(w, ks[k := ks[0]])
  {
    var r := ks[k := ks[0]];
    forall i | 0 < i < |r|
      ensures i != k ==> Above(r, i)
      ensures Parent(i) == k ==> AboveTwice(r, i)
    {
      assert Above(ks, i);
      RootIsEarliest(w, ks, i);
      if Parent(i) == k && k > 0 {
        assert Above(ks, k);
        WindowOrder(w, ks[i], ks[k]);
        WindowOrder(w, ks[k], ks[Parent(k)]);
        WindowOrder(w, ks[i], ks[Parent(k)]);
      }
    }
  }

  // ---------- the address arithmetic of the heap ----------

  // Slots are 4 bytes wide.  LCHILD and RCHILD add and double modulo 2^32; PARENT shifts and masks.

  function LChild(heap: nat, x: nat): nat { (2 * x - heap + 4) % WORD }

  function RChild(heap: nat, x: nat): nat { (2 * x - heap + 8) % WORD }

  /** The doubled addresses are those of the children 2n+1 and 2n+2 in the index tree. */
  lemma ChildrenOfSlot(heap: nat, n: nat)
    requires heap + 4 * (2 * n + 2) < WORD
    ensures LChild(heap, heap + 4 * n) == heap + 4 * (2 * n + 1)
    ensures RChild(heap, heap + 4 * n) == heap + 4 * (2 * n + 2)
    ensures n > 0 ==> Parent(2 * n + 1) == n && Parent(2 * n + 2) == n
  {
  }

  /** For a heap at a 4-aligned address above 0x8000_0000, shifting, masking and setting the top
      bit yields the slot of the parent (n-1)/2. */
  lemma ParentOfSlot(heap: bv32, n: bv32)
    requires 0x8000_0000 <= heap <= 0xFFFF_0000 && heap & 3 == 0 && 0 < n < 1024
    ensures ((((heap + (n << 2)) + heap - 4) >> 1) & 0xFFFF_FFFD) | 0x8000_0000 == heap + (((n - 1) >> 1) << 2)
  {
  }
}
