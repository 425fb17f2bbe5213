/** What an allocation does to the list of blocks: the tests for a plain and for an aligned request,
    what stays of the entry chosen, and what a request that was rounded to 0 does. */
module Requests {
  import opened Machine
  import opened DList
  import opened FreeBlocks
  import opened Alignment

  /** A block can serve an adjusted request: exactly, or leaving room for a header. */
  predicate Fits(size: nat, n: nat) { size == n || size >= n + HEADER }

  /** Block k is a smallest block that can serve the request. */
  ghost predicate BestFit(bs: seq<Block>, k: nat, n: nat) {
    && k < |bs| && Fits(bs[k].size, n)
    && forall i :: 0 <= i < |bs| && Fits(bs[i].size, n) ==> bs[k].size <= bs[i].size
  }

  /** An allocation takes [r, r+n) from the front of a best-fitting block. */
  ghost predicate Allocated(bs: seq<Block>, k: nat, r: nat, n: nat, bs': seq<Block>) {
    BestFit(bs, k, n) && bs[k].addr == r && bs' == Cut(bs, k, r, n)
  }

  /** The bytes of block b from its lowest permitted place on, none if that place lies behind it. */
  function Behind(b: Block, a: nat): nat
    requires a > 0
  {
    Max(b.End() - Place(b.addr, a), 0)
  }

  /** What an aligned request leaves of them. */
  function Tail(b: Block, a: nat, n: nat): int
    requires a > 0
  {
    Behind(b, a) - n
  }

  /** The test for an aligned request: enough bytes are there, and the rest is empty or holds a header. */
  predicate Admits(b: Block, a: nat, n: nat)
    requires a > 0
  {
    Tail(b, a, n) >= 0 && Room(Tail(b, a, n))
  }

  /** Unless nothing is requested, the test means that the request fits at the lowest permitted
      place of the block. */
  lemma AdmitsMeans(b: Block, a: nat, n: nat)
    requires a > 0 && n > 0
    ensures Admits(b, a, n) <==> Place(b.addr, a) + n <= b.End() && Room(b.End() - (Place(b.addr, a) + n))
    ensures Admits(b, a, n) ==> Tail(b, a, n) == b.End() - (Place(b.addr, a) + n)
  {
  }

  /** Block k admits the aligned request; among all blocks that do it is in the lowest size
      class, and within its class it leaves the smallest tail. */
  ghost predicate AlignedFit(bs: seq<Block>, k: nat, a: nat, n: nat)
    requires a > 0
  {
    && k < |bs| && Admits(bs[k], a, n)
    && forall i :: 0 <= i < |bs| && Admits(bs[i], a, n) ==>
         || SizeClass(bs[k].size) < SizeClass(bs[i].size)
         || (SizeClass(bs[k].size) == SizeClass(bs[i].size) && Tail(bs[k], a, n) <= Tail(bs[i], a, n))
  }

  /** An aligned allocation takes [r, r+n) at the lowest permitted aligned address of its block. */
  ghost predicate AlignedAt(bs: seq<Block>, k: nat, r: nat, a: nat, n: nat, bs': seq<Block>)
    requires a > 0
  {
    && AlignedFit(bs, k, a, n) && r == Place(bs[k].addr, a) && bs[k].addr <= r && r + n <= bs[k].End()
    && bs' == Cut(bs, k, r, n)
  }

  /** An address inside block k heads no other block. */
  lemma OutsideAll(bs: seq<Block>, k: nat, x: nat)
    requires Coalesced(bs) && k < |bs| && In(bs[k], x)
    ensures x !in Addrs(Without(bs, k))
  {
    var t := Without(bs, k);
    forall i | 0 <= i < |t|
      ensures Addrs(t)[i] != x
    {
      assert t[i] == bs[if i < k then i else i + 1];
    }
  }

  lemma HeadsApart(bs: seq<Block>, k: nat, x: nat)
    requires Coalesced(bs) && k < |bs| && bs[k].addr <= x
    ensures bs[k].addr !in Addrs(Without(bs, k))
    ensures x < bs[k].End() ==> x !in Addrs(Without(bs, k))
  {
    OutsideAll(bs, k, bs[k].addr);
    if x < bs[k].End() { OutsideAll(bs, k, x); }
  }

  /** The list after Take, with the block at place, as a 32-bit address. */
  ghost function Remaining(bs: seq<Block>, k: nat, place: nat, n: nat, left: nat): seq<Block>
    requires k < |bs| && (left > 0 ==> bs[k].addr <= place && place + n <= bs[k].End())
  {
    if left > 0 then Cut(bs, k, place, n)
    else if place == bs[k].addr then Without(bs, k)
    else bs[k := Block(bs[k].addr, (place - bs[k].addr) % WORD)]
  }

  /** A cut that leaves no tail. */
  lemma CutToEnd(bs: seq<Block>, k: nat, p: nat, n: nat)
    requires k < |bs| && bs[k].addr <= p && p + n == bs[k].End()
    ensures Cut(bs, k, p, n) == if p == bs[k].addr then Without(bs, k) else bs[k := Block(bs[k].addr, p - bs[k].addr)]
  {
  }

  /** What the caller of Take knows about a coalesced list. */
  lemma TakeFacts(bs: seq<Block>, k: nat, p: nat, n: nat)
    requires Coalesced(bs) && k < |bs| && bs[k].addr <= p && p + n <= bs[k].End() && (n > 0 || p == bs[k].addr)
    requires Room(p - bs[k].addr) && Room(bs[k].End() - (p + n))
    ensures Coalesced(Cut(bs, k, p, n)) && Total(Cut(bs, k, p, n)) == Total(bs) - n
  {
    CutCoalesced(bs, k, p, n);
    CutTotal(bs, k, p, n);
  }

  lemma RemainingIsCut(bs: seq<Block>, k: nat, p: nat, n: nat)
    requires k < |bs| && bs[k].addr <= p && p + n <= bs[k].End() < bs[k].addr + WORD && (n > 0 || p < bs[k].End())
    ensures Remaining(bs, k, p, n, bs[k].End() - (p + n)) == Cut(bs, k, p, n)
  {
    if p + n == bs[k].End() {
      CutToEnd(bs, k, p, n);
      SmallMod(p - bs[k].addr);
    }
  }

  /** An address modulo 2^32, for one that is at most the end of memory. */
  function Wrapped(p: nat): nat {
    if p == WORD then 0 else p
  }

  /** A block taken for n > 0 bytes at the lowest place of the entry chosen. */
  lemma AlignedIs(bs: seq<Block>, k: nat, a: nat, n: nat, r: Ptr)
    requires Coalesced(bs) && a > 0 && n > 0 && AlignedFit(bs, k, a, n) && r == Wrapped(Place(bs[k].addr, a))
    ensures bs[k].addr <= r && r + n <= bs[k].End() && r != NIL && r % a == 0 && r == Place(bs[k].addr, a)
    ensures Room(r - bs[k].addr) && Room(bs[k].End() - (r + n)) && Tail(bs[k], a, n) == bs[k].End() - (r + n)
  {
    PlaceLeast(bs[k].addr, a, 0);
    AdmitsMeans(bs[k], a, n);
  }

  /** The result of an aligned request for n > 0 bytes. */
  ghost predicate AlignedResult(bs: seq<Block>, a: nat, n: nat, r: Ptr, bs': seq<Block>)
    requires a > 0
  {
    && (r == NIL ==> bs' == bs && forall i :: 0 <= i < |bs| ==> !Admits(bs[i], a, n))
    && (r != NIL ==> r % a == 0 && exists k: nat :: AlignedAt(bs, k, r, a, n, bs'))
  }

  // ---------- a request that was rounded to 0 ----------

  /** The list afterwards, for the lowest place p of block k: split there, or with the block grown
      up to there. */
  ghost function AfterNothing(bs: seq<Block>, k: nat, p: nat): seq<Block>
    requires k < |bs| && bs[k].addr <= p
  {
    if p <= bs[k].End() then Cut(bs, k, p, 0) else bs[k := Block(bs[k].addr, p - bs[k].addr)]
  }

  /** The place p is the beginning or the end of the block. */
  predicate Whole(b: Block, p: nat) {
    p == b.addr || p == b.End()
  }

  ghost predicate NothingAt(bs: seq<Block>, k: nat, a: nat, p: nat, r: Ptr, bs': seq<Block>)
    requires a > 0
  {
    && AlignedFit(bs, k, a, 0) && p == Place(bs[k].addr, a) && bs[k].addr <= p
    && r == Wrapped(p) && bs' == AfterNothing(bs, k, p)
  }

  /** Either no entry passes the test and nothing happens; or an entry is chosen, and the list is
      sound afterwards exactly if the lowest place in it is its beginning or its end. */
  ghost predicate NothingResult(bs: seq<Block>, a: nat, r: Ptr, bs': seq<Block>, sound: bool)
    requires a > 0
  {
    || (r == NIL && bs' == bs && sound && forall i :: 0 <= i < |bs| ==> !Admits(bs[i], a, 0))
    || exists k: nat, p: nat :: NothingAt(bs, k, a, p, r, bs') && (sound <==> Whole(bs[k], p))
  }

  lemma NothingWhole(bs: seq<Block>, k: nat, p: nat)
    requires k < |bs| && bs[k].size > 0 && bs[k].addr <= p && Whole(bs[k], p)
    ensures AfterNothing(bs, k, p) == bs
  {
    assert Before(bs[k], p) + After(bs[k], p) == [bs[k]];
    assert bs == bs[..k] + ([bs[k]] + bs[k + 1..]);
  }

  lemma NothingTouches(bs: seq<Block>, k: nat, p: nat)
    requires k < |bs| && bs[k].addr < p < bs[k].End()
    ensures !Coalesced(AfterNothing(bs, k, p))
  {
    var b, t := bs[k], AfterNothing(bs, k, p);
    assert Before(b, p) + After(b, p) == [Block(b.addr, p - b.addr), Block(p, b.End() - p)];
    assert t[k] == Block(b.addr, p - b.addr) && t[k + 1] == Block(p, b.End() - p);
  }

  lemma NothingGrown(bs: seq<Block>, k: nat, p: nat)
    requires k < |bs| && bs[k].End() < p
    ensures Total(AfterNothing(bs, k, p)) > Total(bs)
  {
    var t := AfterNothing(bs, k, p);
    TotalAt(bs, k);
    TotalAt(t, k);
    assert t[..k] == bs[..k] && t[k + 1..] == bs[k + 1..];
  }

  /** A request for nothing leaves the list as it is exactly if the place is at either end of the
      entry chosen; otherwise two entries touch, or the entries are larger than what is free. */
  lemma NothingKeeps(bs: seq<Block>, k: nat, p: nat)
    requires k < |bs| && bs[k].size > 0 && bs[k].addr <= p
    ensures Whole(bs[k], p) ==> AfterNothing(bs, k, p) == bs
    ensures !Whole(bs[k], p) ==> !Coalesced(AfterNothing(bs, k, p)) || Total(AfterNothing(bs, k, p)) != Total(bs)
  {
    if Whole(bs[k], p) {
      NothingWhole(bs, k, p);
    } else if p < bs[k].End() {
      NothingTouches(bs, k, p);
    } else {
      NothingGrown(bs, k, p);
    }
  }

  /** The free bytes stay the same exactly if the place is not behind the entry chosen. */
  lemma NothingBytes(bs: seq<Block>, k: nat, p: nat)
    requires Coalesced(bs) && k < |bs| && bs[k].addr <= p
    ensures (forall x :: FreeByte(AfterNothing(bs, k, p), x) <==> FreeByte(bs, x)) <==> p <= bs[k].End()
  {
    var t := AfterNothing(bs, k, p);
    if p <= bs[k].End() {
      forall x
        ensures FreeByte(t, x) <==> FreeByte(bs, x)
      {
        CutBytes(bs, k, p, 0, x);
      }
    } else {
      assert In(t[k], bs[k].End()) && FreeByte(t, bs[k].End());
    }
  }

  /** What Take leaves after a request for nothing. */
  lemma NothingIs(bs: seq<Block>, k: nat, p: nat, left: nat)
    requires Coalesced(bs) && k < |bs| && bs[k].addr <= p <= WORD && left == Max(bs[k].End() - p, 0)
    ensures left > 0 ==> bs[k].addr <= Wrapped(p) < bs[k].End()
    ensures Remaining(bs, k, Wrapped(p), 0, left) == AfterNothing(bs, k, p)
  {
    if p >= bs[k].End() {
      Distance(bs[k].addr, p);
      if p == bs[k].End() { NothingWhole(bs, k, p); }
    }
  }

  lemma PlaceBehind()
    ensures Place(8, 4096) == 4096
  {
    DivMod(8 + 4096 - 1, 4096, 1, 7);
    DivMod(8 + HEADER + 4096 - 1, 4096, 1, 31);
  }

  /** It does happen: for a boundary of 4096 the entry of 24 bytes at 8 grows to 4088 bytes, over the
      entry at 64. */
  lemma NothingGrows()
    ensures var bs, p := [Block(8, 24), Block(64, 24)], Place(8, 4096);
      && Coalesced(bs) && Admits(bs[0], 4096, 0) && 8 <= p
      && AfterNothing(bs, 0, p) == [Block(8, 4088), Block(64, 24)] && !Coalesced(AfterNothing(bs, 0, p))
  {
    PlaceBehind();
    var t := AfterNothing([Block(8, 24), Block(64, 24)], 0, 4096);
    assert t == [Block(8, 4088), Block(64, 24)] && t[0].End() > t[1].addr;
  }

  /** What Take is to be told: block k begins at entry, whose address heads no other block; and if
      bytes are left, the place lies in the block with so many behind it, at an address that heads none. */
  ghost predicate Takeable(bs: seq<Block>, k: nat, entry: Ptr, place: Ptr, n: nat, left: nat) {
    && k < |bs| && bs[k].addr == entry && entry != NIL && entry !in Addrs(Without(bs, k))
    && (left > 0 ==> entry <= place && place + n + left == bs[k].End() && place + n !in Addrs(Without(bs, k)))
  }

  lemma TakeableAt(bs: seq<Block>, k: nat, place: Ptr, n: nat, left: nat)
    requires Coalesced(bs) && k < |bs|
    requires left > 0 ==> bs[k].addr <= place && place + n + left == bs[k].End()
    ensures Takeable(bs, k, bs[k].addr, place, n, left)
  {
    HeadsApart(bs, k, if left > 0 then place + n else bs[k].addr);
  }

  /** All that MemAlloc needs to know of the entry that it has chosen. */
  lemma FrontFacts(bs: seq<Block>, k: nat, n: nat, left: nat)
    requires Coalesced(bs) && BestFit(bs, k, n) && bs[k].size == n + left
    ensures Takeable(bs, k, bs[k].addr, bs[k].addr, n, left)
    ensures var t := Remaining(bs, k, bs[k].addr, n, left); Balanced(t, Total(bs) - n) && Allocated(bs, k, bs[k].addr, n, t)
  {
    TakeableAt(bs, k, bs[k].addr, n, left);
    TakeFacts(bs, k, bs[k].addr, n);
    RemainingIsCut(bs, k, bs[k].addr, n);
  }

  /** A list is sound for a counter of free memory. */
  ghost predicate Balanced(bs: seq<Block>, free: int) {
    Coalesced(bs) && free == Total(bs)
  }

  /** All that MemAllocAlign needs to know of the entry that it has chosen. */
  lemma SomethingFacts(bs: seq<Block>, k: nat, a: nat, n: nat, r: Ptr)
    requires Coalesced(bs) && a > 0 && n > 0 && AlignedFit(bs, k, a, n) && r == Wrapped(Place(bs[k].addr, a))
    ensures Tail(bs[k], a, n) > 0 ==> bs[k].addr <= r && r + n <= bs[k].End()
    ensures var t := Remaining(bs, k, r, n, Tail(bs[k], a, n));
            Balanced(t, Total(bs) - n) && AlignedResult(bs, a, n, r, t)
  {
    AlignedIs(bs, k, a, n, r);
    RemainingIsCut(bs, k, r, n);
    TakeFacts(bs, k, r, n);
    assert AlignedAt(bs, k, r, a, n, Cut(bs, k, r, n));
  }

  lemma NothingFacts(bs: seq<Block>, k: nat, a: nat, r: Ptr, sound: bool)
    requires Coalesced(bs) && a > 0 && AlignedFit(bs, k, a, 0) && r == Wrapped(Place(bs[k].addr, a))
    requires Place(bs[k].addr, a) <= WORD
    ensures Tail(bs[k], a, 0) > 0 ==> bs[k].addr <= r <= bs[k].End()
    ensures var t := Remaining(bs, k, r, 0, Tail(bs[k], a, 0));
            (sound <==> Balanced(t, Total(bs))) ==> NothingResult(bs, a, r, t, sound)
  {
    var p := Place(bs[k].addr, a);
    PlaceLeast(bs[k].addr, a, 0);
    NothingIs(bs, k, p, Tail(bs[k], a, 0));
    NothingKeeps(bs, k, p);
    assert NothingAt(bs, k, a, p, r, AfterNothing(bs, k, p));
  }

  /** What an aligned request for n adjusted bytes does to a sound list and the counter. */
  ghost predicate AlignedOutcome(bs: seq<Block>, a: nat, n: nat, r: Ptr, bs': seq<Block>, free: int)
    requires a > 0
  {
    && (n > 0 ==> Balanced(bs', free) && AlignedResult(bs, a, n, r, bs'))
    && (n == 0 ==> NothingResult(bs, a, r, bs', Balanced(bs', free)))
  }

  lemma OutcomeNil(bs: seq<Block>, a: nat, n: nat)
    requires Coalesced(bs) && a > 0 && forall i :: 0 <= i < |bs| ==> !Admits(bs[i], a, n)
    ensures AlignedOutcome(bs, a, n, NIL, bs, Total(bs))
  {
  }

  lemma OutcomeOf(bs: seq<Block>, k: nat, a: nat, n: nat, r: Ptr)
    requires Coalesced(bs) && a > 0 && AlignedFit(bs, k, a, n) && r == Wrapped(Place(bs[k].addr, a))
    requires Place(bs[k].addr, a) <= WORD
    ensures Takeable(bs, k, bs[k].addr, r, n, Tail(bs[k], a, n))
    ensures AlignedOutcome(bs, a, n, r, Remaining(bs, k, r, n, Tail(bs[k], a, n)), Total(bs) - n)
  {
    PlaceLeast(bs[k].addr, a, 0);
    TakeableAt(bs, k, r, n, Tail(bs[k], a, n));
    if n > 0 {
      SomethingFacts(bs, k, a, n, r);
    } else {
      NothingFacts(bs, k, a, r, Balanced(Remaining(bs, k, r, 0, Tail(bs[k], a, 0)), Total(bs)));
    }
  }
}
