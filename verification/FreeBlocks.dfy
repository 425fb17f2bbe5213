/** The free list seen as a value: blocks of free memory in address order. */
module FreeBlocks {
  import opened Machine
  import opened DList

  const HEADER: nat := 24           // sizeof(KLfreeListEntry) on the 32-bit target
  const CLASSES: nat := 8

  datatype Block = Block(addr: nat, size: nat) {
    function End(): nat { addr + size }
  }

  // ---------- request sizes and size classes ----------

  /** The AdjustSize macro: at least a header, otherwise rounded up to a multiple of 4 in 32 bits. */
  function Adjusted(size: nat): nat {
    if size < HEADER then HEADER else (size + 3) % WORD - (size + 3) % WORD % 4
  }

  /** An adjusted request covers the request exactly when rounding up does not wrap; when it
      wraps the adjusted request is zero bytes long. */
  lemma AdjustedCovers(size: nat)
    requires size < WORD
    ensures size <= Adjusted(size) < size + HEADER + 1 <==> size <= WORD - 4
    ensures Adjusted(size) == 0 <==> size > WORD - 4
    ensures size < 24 ==> Adjusted(size) == 24
    ensures 24 <= size <= WORD - 4 ==> Adjusted(size) < size + 4
    ensures Adjusted(size) % 4 == 0 && (Adjusted(size) != 0 ==> HEADER <= Adjusted(size) < WORD)
    ensures Adjusted(Adjusted(size)) == if size <= WORD - 4 then Adjusted(size) else HEADER
  {
  }

  function SizeClass(size: nat): (c: nat)
    ensures c < CLASSES
  {
    if size >= 0x2000 then
      if size >= 0x20000 then
        if size >= 0x80000 then 7 else 6
      else
        if size >= 0x8000 then 5 else 4
    else
      if size >= 0x200 then
        if size >= 0x800 then 3 else 2
      else
        if size >= 0x80 then 1 else 0
  }

  /** The seven limits between the classes are 2^7, 2^9, 2^11, 2^13, 2^15, 2^17 and 2^19. */
  lemma SizeClassLimits(size: nat, c: nat)
    requires 0 < c < 8
    ensures SizeClass(size) >= c <==> size >= Pow2(2 * c + 5)
  {
    assert Pow2(7) == 0x80 && Pow2(9) == 0x200 && Pow2(11) == 0x800 && Pow2(13) == 0x2000;
    Pow2Split(11, 4);
    Pow2Split(13, 4);
    Pow2Split(15, 4);
  }

  /** Classes are size intervals in increasing order: a smaller class holds only smaller sizes. */
  lemma SizeClassMonotone(a: nat, b: nat)
    ensures SizeClass(a) < SizeClass(b) ==> a < b
    ensures a <= b ==> SizeClass(a) <= SizeClass(b)
  {
  }

  // ---------- the shape of a free list ----------

  /** Strictly ordered, disjoint, fully coalesced (no two blocks touch), every block large
      enough for its header and inside the address space. */
  ghost predicate Coalesced(bs: seq<Block>) {
    && (forall i :: 0 <= i < |bs| ==> 0 < bs[i].addr && HEADER <= bs[i].size && bs[i].End() <= WORD)
    && (forall i, j :: 0 <= i < j < |bs| ==> bs[i].End() < bs[j].addr)
  }

  ghost predicate In(b: Block, x: int) { b.addr <= x < b.End() }

  /** Byte x is free. */
  ghost predicate FreeByte(bs: seq<Block>, x: int) {
    exists i :: 0 <= i < |bs| && In(bs[i], x)
  }

  ghost function Total(bs: seq<Block>): nat {
    if bs == [] then 0 else bs[0].size + Total(bs[1..])
  }

  function Addrs(bs: seq<Block>): (s: seq<Ptr>)
    ensures |s| == |bs|
  {
    seq(|bs|, i requires 0 <= i < |bs| => bs[i].addr)
  }

  lemma {:induction false} TotalConcat(a: seq<Block>, b: seq<Block>)
    ensures Total(a + b) == Total(a) + Total(b)
  {
    if a == [] {
      assert a + b == b;
    } else {
      assert (a + b)[1..] == a[1..] + b;
      TotalConcat(a[1..], b);
    }
  }

  lemma TotalAt(bs: seq<Block>, k: nat)
    requires k < |bs|
    ensures Total(bs) == Total(bs[..k]) + bs[k].size + Total(bs[k + 1..])
  {
    assert bs == bs[..k] + bs[k..];
    TotalConcat(bs[..k], bs[k..]);
    assert bs[k..][1..] == bs[k + 1..];
  }

  /** The free-memory counter never wraps: the blocks of a coalesced list fit in 32 bits. */
  lemma {:induction false} TotalFits(bs: seq<Block>)
    requires Coalesced(bs)
    ensures |bs| > 0 ==> bs[0].addr + Total(bs) <= bs[|bs| - 1].End()
    ensures Total(bs) < WORD
  {
    if |bs| > 0 {
      TotalFits(bs[1..]);
    }
  }

  /** A coalesced list is determined by its set of free bytes. */
  lemma {:induction false} Canonical(a: seq<Block>, b: seq<Block>)
    requires Coalesced(a) && Coalesced(b)
    requires forall x :: FreeByte(a, x) <==> FreeByte(b, x)
    ensures a == b
  {
    if a != [] { assert In(a[0], a[0].addr) && FreeByte(a, a[0].addr); }
    if b != [] { assert In(b[0], b[0].addr) && FreeByte(b, b[0].addr); }
    if a != [] && b != [] {
      SameHead(a, b);
      forall x
        ensures FreeByte(a[1..], x) <==> FreeByte(b[1..], x)
      {
        TailBytes(a, x);
        TailBytes(b, x);
      }
      Canonical(a[1..], b[1..]);
    }
  }

  lemma TailBytes(a: seq<Block>, x: int)
    requires Coalesced(a) && a != []
    ensures FreeByte(a[1..], x) <==> FreeByte(a, x) && a[0].End() <= x
  {
    if FreeByte(a[1..], x) {
      var i :| 0 <= i < |a[1..]| && In(a[1..][i], x);
      assert In(a[i + 1], x);
    }
    if FreeByte(a, x) && a[0].End() <= x {
      var i :| 0 <= i < |a| && In(a[i], x);
      assert In(a[1..][i - 1], x);
    }
  }

  lemma SameHead(a: seq<Block>, b: seq<Block>)
    requires Coalesced(a) && Coalesced(b) && a != [] && b != []
    requires forall x :: FreeByte(a, x) <==> FreeByte(b, x)
    ensures a[0] == b[0]
  {
    HeadNotLater(a, b);
    HeadNotLater(b, a);
    HeadNotLonger(a, b);
    HeadNotLonger(b, a);
  }

  lemma HeadNotLater(a: seq<Block>, b: seq<Block>)
    requires Coalesced(a) && Coalesced(b) && a != [] && b != []
    requires forall x :: FreeByte(a, x) <==> FreeByte(b, x)
    ensures a[0].addr <= b[0].addr
  {
    assert In(b[0], b[0].addr) && FreeByte(b, b[0].addr);
    var i :| 0 <= i < |a| && In(a[i], b[0].addr);
  }

  lemma HeadNotLonger(a: seq<Block>, b: seq<Block>)
    requires Coalesced(a) && Coalesced(b) && a != [] && b != []
    requires a[0].addr == b[0].addr
    requires forall x :: FreeByte(a, x) <==> FreeByte(b, x)
    ensures a[0].size <= b[0].size
  {
    var x := b[0].End();
    assert !FreeByte(b, x);
    assert !In(a[0], x);
  }

  // ---------- concatenation ----------

  /** The bytes of a concatenation are the bytes of its parts. */
  lemma BytesConcat(a: seq<Block>, b: seq<Block>, x: int)
    ensures FreeByte(a + b, x) <==> FreeByte(a, x) || FreeByte(b, x)
  {
    if FreeByte(a + b, x) {
      var i :| 0 <= i < |a + b| && In((a + b)[i], x);
      assert if i < |a| then In(a[i], x) else In(b[i - |a|], x);
    }
    if FreeByte(a, x) {
      var i :| 0 <= i < |a| && In(a[i], x);
      assert In((a + b)[i], x);
    }
    if FreeByte(b, x) {
      var i :| 0 <= i < |b| && In(b[i], x);
      assert In((a + b)[|a| + i], x);
    }
  }

  lemma CoalescedConcat(a: seq<Block>, b: seq<Block>)
    requires Coalesced(a) && Coalesced(b)
    requires a != [] && b != [] ==> a[|a| - 1].End() < b[0].addr
    ensures Coalesced(a + b)
  {
    forall i, j | 0 <= i < j < |a + b|
      ensures (a + b)[i].End() < (a + b)[j].addr
    {
      if i < |a| <= j {
        assert a[i].End() <= a[|a| - 1].End() && b[0].addr <= b[j - |a|].addr;
      }
    }
  }

  lemma CoalescedParts(bs: seq<Block>, lo: nat, hi: nat)
    requires Coalesced(bs) && lo <= hi <= |bs|
    ensures Coalesced(bs[lo..hi])
  {
  }

  /** Replacing the blocks lo..hi of a list by others. */
  function Splice(bs: seq<Block>, lo: nat, hi: nat, mid: seq<Block>): seq<Block>
    requires lo <= hi <= |bs|
  {
    bs[..lo] + (mid + bs[hi..])
  }

  lemma SpliceTotal(bs: seq<Block>, lo: nat, hi: nat, mid: seq<Block>)
    requires lo <= hi <= |bs|
    ensures Total(Splice(bs, lo, hi, mid)) + Total(bs[lo..hi]) == Total(bs) + Total(mid)
  {
    TotalConcat(bs[..lo], mid + bs[hi..]);
    TotalConcat(mid, bs[hi..]);
    assert bs == bs[..lo] + (bs[lo..hi] + bs[hi..]);
    TotalConcat(bs[..lo], bs[lo..hi] + bs[hi..]);
    TotalConcat(bs[lo..hi], bs[hi..]);
  }

  lemma SpliceBytes(bs: seq<Block>, lo: nat, hi: nat, mid: seq<Block>, x: int)
    requires lo <= hi <= |bs|
    ensures FreeByte(Splice(bs, lo, hi, mid), x) <==> FreeByte(bs[..lo], x) || FreeByte(mid, x) || FreeByte(bs[hi..], x)
    ensures FreeByte(bs, x) <==> FreeByte(bs[..lo], x) || FreeByte(bs[lo..hi], x) || FreeByte(bs[hi..], x)
  {
    BytesConcat(bs[..lo], mid + bs[hi..], x);
    BytesConcat(mid, bs[hi..], x);
    assert bs == bs[..lo] + (bs[lo..hi] + bs[hi..]);
    BytesConcat(bs[..lo], bs[lo..hi] + bs[hi..], x);
    BytesConcat(bs[lo..hi], bs[hi..], x);
  }

  lemma SpliceCoalesced(bs: seq<Block>, lo: nat, hi: nat, mid: seq<Block>)
    requires Coalesced(bs) && lo <= hi <= |bs| && Coalesced(mid)
    requires mid == [] ==> lo < hi
    requires mid != [] && lo > 0 ==> bs[lo - 1].End() < mid[0].addr
    requires mid != [] && hi < |bs| ==> mid[|mid| - 1].End() < bs[hi].addr
    ensures Coalesced(Splice(bs, lo, hi, mid))
  {
    CoalescedParts(bs, 0, lo);
    CoalescedParts(bs, hi, |bs|);
    var head, tail := bs[..lo], bs[hi..];
    assert tail != [] ==> tail[0] == bs[hi];
    CoalescedConcat(mid, tail);
    var rest := mid + tail;
    if lo > 0 && rest != [] {
      assert rest[0] == if mid == [] then bs[hi] else mid[0];
      assert head[lo - 1] == bs[lo - 1];
    }
    CoalescedConcat(head, rest);
  }

  // ---------- taking a block out ----------

  /** Block k loses [p, p+n): what is left before p and after p+n stays free. */
  function Cut(bs: seq<Block>, k: nat, p: nat, n: nat): seq<Block>
    requires k < |bs| && bs[k].addr <= p && p + n <= bs[k].End()
  {
    Splice(bs, k, k + 1, Before(bs[k], p) + After(bs[k], p + n))
  }

  function Before(b: Block, p: nat): seq<Block>
    requires b.addr <= p
  {
    if p == b.addr then [] else [Block(b.addr, p - b.addr)]
  }

  function After(b: Block, q: nat): seq<Block>
    requires q <= b.End()
  {
    if q == b.End() then [] else [Block(q, b.End() - q)]
  }

  /** A remainder can stay on the list only if a header fits in it. */
  predicate Room(n: int) { n == 0 || n >= HEADER }

  lemma TotalOne(b: Block)
    ensures Total([b]) == b.size
  {
    TotalAt([b], 0);
  }

  lemma BytesOne(b: Block, x: int)
    ensures FreeByte([b], x) <==> In(b, x)
  {
    if In(b, x) { assert In([b][0], x); }
  }

  lemma RemainderTotal(b: Block, p: nat, n: nat)
    requires b.addr <= p && p + n <= b.End()
    ensures Total(Before(b, p) + After(b, p + n)) == b.size - n
  {
    TotalConcat(Before(b, p), After(b, p + n));
    TotalOne(Block(b.addr, p - b.addr));
    TotalOne(Block(p + n, b.End() - (p + n)));
  }

  lemma SliceOne(bs: seq<Block>, k: nat, x: int)
    requires k < |bs|
    ensures Total(bs[k..k + 1]) == bs[k].size
    ensures FreeByte(bs[k..k + 1], x) <==> In(bs[k], x)
  {
    assert bs[k..k + 1] == [bs[k]];
    TotalOne(bs[k]);
    BytesOne(bs[k], x);
  }

  lemma CutTotal(bs: seq<Block>, k: nat, p: nat, n: nat)
    requires k < |bs| && bs[k].addr <= p && p + n <= bs[k].End()
    ensures Total(Cut(bs, k, p, n)) == Total(bs) - n
  {
    SpliceTotal(bs, k, k + 1, Before(bs[k], p) + After(bs[k], p + n));
    SliceOne(bs, k, 0);
    RemainderTotal(bs[k], p, n);
  }

  lemma CutCoalesced(bs: seq<Block>, k: nat, p: nat, n: nat)
    requires Coalesced(bs) && k < |bs| && bs[k].addr <= p && p + n <= bs[k].End()
    requires Room(p - bs[k].addr) && Room(bs[k].End() - (p + n))
    requires n > 0 || p == bs[k].addr || p == bs[k].End()
    ensures Coalesced(Cut(bs, k, p, n))
  {
    RemainderCoalesced(bs[k], p, n);
    NeighboursApart(bs, k);
    SpliceCoalesced(bs, k, k + 1, Before(bs[k], p) + After(bs[k], p + n));
  }

  lemma NeighboursApart(bs: seq<Block>, k: nat)
    requires Coalesced(bs) && k < |bs|
    ensures k > 0 ==> bs[k - 1].End() < bs[k].addr
    ensures k + 1 < |bs| ==> bs[k].End() < bs[k + 1].addr
  {
  }

  lemma RemainderCoalesced(b: Block, p: nat, n: nat)
    requires 0 < b.addr <= p && p + n <= b.End() <= WORD && Room(p - b.addr) && Room(b.End() - (p + n))
    requires n > 0 || p == b.addr || p == b.End()
    ensures var mid := Before(b, p) + After(b, p + n);
            Coalesced(mid) && (mid != [] ==> b.addr <= mid[0].addr && mid[|mid| - 1].End() <= b.End())
  {
  }

  lemma CutBytes(bs: seq<Block>, k: nat, p: nat, n: nat, x: int)
    requires Coalesced(bs) && k < |bs| && bs[k].addr <= p && p + n <= bs[k].End()
    ensures FreeByte(Cut(bs, k, p, n), x) <==> FreeByte(bs, x) && !(p <= x < p + n)
  {
    var pre, post := Before(bs[k], p), After(bs[k], p + n);
    SpliceBytes(bs, k, k + 1, pre + post, x);
    BytesConcat(pre, post, x);
    assert bs[k..k + 1] == [bs[k]];
    BytesOne(bs[k], x);
    BytesOne(Block(bs[k].addr, p - bs[k].addr), x);
    BytesOne(Block(p + n, bs[k].End() - (p + n)), x);
    if p <= x < p + n {
      Elsewhere(bs, k, x);
    }
  }

  /** No byte of block k belongs to another block. */
  lemma Elsewhere(bs: seq<Block>, k: nat, x: int)
    requires Coalesced(bs) && k < |bs| && In(bs[k], x)
    ensures !FreeByte(bs[..k], x) && !FreeByte(bs[k + 1..], x)
  {
  }

  // ---------- putting a block back ----------

  /** [p, p+n) lies in the address space and touches no free byte. */
  ghost predicate Releasable(bs: seq<Block>, p: nat, n: nat) {
    && 0 < p && HEADER <= n && p + n <= WORD
    && forall i :: 0 <= i < |bs| ==> p + n <= bs[i].addr || bs[i].End() <= p
  }

  /** The number of blocks that start at or before address p. */
  function Position(bs: seq<Block>, p: nat): (k: nat)
    ensures k <= |bs|
    ensures forall i :: 0 <= i < k ==> bs[i].addr <= p
    ensures k < |bs| ==> p < bs[k].addr
  {
    if bs == [] || p < bs[0].addr then 0 else 1 + Position(bs[1..], p)
  }

  /** The first and the last-but-one of the blocks that [p, p+n) touches or lies between. */
  function Low(bs: seq<Block>, p: nat): (lo: nat)
    ensures lo <= Position(bs, p)
  {
    var k := Position(bs, p);
    if k > 0 && bs[k - 1].End() == p then k - 1 else k
  }

  function High(bs: seq<Block>, p: nat, n: nat): (hi: nat)
    ensures Position(bs, p) <= hi <= |bs|
  {
    var k := Position(bs, p);
    if k < |bs| && p + n == bs[k].addr then k + 1 else k
  }

  /** [p, p+n) together with the neighbours it touches. */
  function Merged(bs: seq<Block>, p: nat, n: nat): Block {
    var k, lo, hi := Position(bs, p), Low(bs, p), High(bs, p, n);
    Block(if lo < k then bs[lo].addr else p,
          (if lo < k then bs[lo].size else 0) + n + (if k < hi then bs[k].size else 0))
  }

  /** [p, p+n) joins the list between its neighbours, merged with those it touches. */
  function Release(bs: seq<Block>, p: nat, n: nat): seq<Block> {
    Splice(bs, Low(bs, p), High(bs, p, n), [Merged(bs, p, n)])
  }

  /** The blocks before the insertion point end by p, the others start at p+n or later. */
  lemma PositionSplits(bs: seq<Block>, p: nat, n: nat)
    requires Coalesced(bs) && Releasable(bs, p, n)
    ensures var k := Position(bs, p);
            && (k > 0 ==> bs[k - 1].End() <= p)
            && (k < |bs| ==> p + n <= bs[k].addr)
  {
  }

  lemma ReleaseTotal(bs: seq<Block>, p: nat, n: nat)
    requires Coalesced(bs) && Releasable(bs, p, n)
    ensures Total(Release(bs, p, n)) == Total(bs) + n
  {
    var k, lo, hi := Position(bs, p), Low(bs, p), High(bs, p, n);
    SpliceTotal(bs, lo, hi, [Merged(bs, p, n)]);
    TotalOne(Merged(bs, p, n));
    assert bs[lo..hi] == bs[lo..k] + bs[k..hi];
    TotalConcat(bs[lo..k], bs[k..hi]);
    if lo < k { SliceOne(bs, lo, 0); }
    if k < hi { SliceOne(bs, k, 0); }
  }

  lemma ReleaseCoalesced(bs: seq<Block>, p: nat, n: nat)
    requires Coalesced(bs) && Releasable(bs, p, n)
    ensures Coalesced(Release(bs, p, n))
  {
    PositionSplits(bs, p, n);
    SpliceCoalesced(bs, Low(bs, p), High(bs, p, n), [Merged(bs, p, n)]);
  }

  lemma MergedBytes(bs: seq<Block>, p: nat, n: nat, x: int)
    ensures var k, lo, hi := Position(bs, p), Low(bs, p), High(bs, p, n);
            In(Merged(bs, p, n), x) <==> FreeByte(bs[lo..k], x) || p <= x < p + n || FreeByte(bs[k..hi], x)
  {
    var k, lo, hi := Position(bs, p), Low(bs, p), High(bs, p, n);
    if lo < k { SliceOne(bs, lo, x); }
    if k < hi { SliceOne(bs, k, x); }
  }

  lemma ReleaseBytes(bs: seq<Block>, p: nat, n: nat, x: int)
    requires Coalesced(bs) && Releasable(bs, p, n)
    ensures FreeByte(Release(bs, p, n), x) <==> FreeByte(bs, x) || p <= x < p + n
  {
    var k, lo, hi := Position(bs, p), Low(bs, p), High(bs, p, n);
    SpliceBytes(bs, lo, hi, [Merged(bs, p, n)], x);
    BytesOne(Merged(bs, p, n), x);
    MergedBytes(bs, p, n, x);
    JoinedBytes(bs, lo, k, hi, x);
  }

  lemma JoinedBytes(bs: seq<Block>, lo: nat, k: nat, hi: nat, x: int)
    requires lo <= k <= hi <= |bs|
    ensures FreeByte(bs[lo..hi], x) <==> FreeByte(bs[lo..k], x) || FreeByte(bs[k..hi], x)
  {
    assert bs[lo..hi] == bs[lo..k] + bs[k..hi];
    BytesConcat(bs[lo..k], bs[k..hi], x);
  }

  /** A range without a free byte may be released. */
  lemma NoFreeByteReleasable(bs: seq<Block>, p: nat, n: nat)
    requires Coalesced(bs) && 0 < p && HEADER <= n && p + n <= WORD
    ensures Releasable(bs, p, n) <==> forall x :: p <= x < p + n ==> !FreeByte(bs, x)
  {
    if !Releasable(bs, p, n) {
      var i :| 0 <= i < |bs| && !(p + n <= bs[i].addr || bs[i].End() <= p);
      var x := if p < bs[i].addr then bs[i].addr else p;
      assert In(bs[i], x) && FreeByte(bs, x);
    }
  }

  /** Freeing a block that was just allocated restores the very same free list. */
  lemma ReleaseUndoesCut(bs: seq<Block>, k: nat, p: nat, n: nat)
    requires Coalesced(bs) && k < |bs| && bs[k].addr <= p && p + n <= bs[k].End() && HEADER <= n
    requires Room(p - bs[k].addr) && Room(bs[k].End() - (p + n))
    ensures Releasable(Cut(bs, k, p, n), p, n)
    ensures Release(Cut(bs, k, p, n), p, n) == bs
  {
    var cs := Cut(bs, k, p, n);
    CutCoalesced(bs, k, p, n);
    forall x
      ensures FreeByte(cs, x) <==> FreeByte(bs, x) && !(p <= x < p + n)
    {
      CutBytes(bs, k, p, n, x);
    }
    NoFreeByteReleasable(cs, p, n);
    ReleaseCoalesced(cs, p, n);
    forall x
      ensures FreeByte(Release(cs, p, n), x) <==> FreeByte(bs, x)
    {
      ReleaseBytes(cs, p, n, x);
      if p <= x < p + n { assert In(bs[k], x); }
    }
    Canonical(Release(cs, p, n), bs);
  }
}
