/** What lies at the beginning of a free entry, byte by byte, and what an allocation says in these terms. */
module Headers {
  import opened Machine
  import opened DList
  import opened FreeBlocks
  import opened Alignment
  import opened Requests

  /** Byte x belongs to a field of the entry at e; six fields of 4 bytes each. */
  predicate FieldByte(e: int, x: int) {
    || e <= x < e + 4         // prev
    || e + 4 <= x < e + 8     // next
    || e + 8 <= x < e + 12    // prevsize
    || e + 12 <= x < e + 16   // nextsize
    || e + 16 <= x < e + 20   // size
    || e + 20 <= x < e + 24   // lookupsize
  }

  /** All fields of an entry that fills the range lie in the range. */
  ghost predicate HoldsEntry(b: Block) {
    forall x :: FieldByte(b.addr, x) ==> In(b, x)
  }

  /** The first n bytes can be cut off the range, so that nothing or an entry is left. */
  ghost predicate Cuttable(b: Block, n: nat) {
    n <= b.size && (n == b.size || HoldsEntry(Block(b.addr + n, b.size - n)))
  }

  /** The least multiple of a in or behind an entry at e that is e itself or leaves an entry before it. */
  ghost predicate Lowest(e: nat, a: nat, q: nat)
    requires a > 0
  {
    && e <= q && q % a == 0 && (q == e || HoldsEntry(Block(e, q - e)))
    && forall p: nat :: e <= p && p % a == 0 && (p == e || HoldsEntry(Block(e, p - e))) ==> q <= p
  }

  lemma HoldsHeader(b: Block)
    ensures HoldsEntry(b) <==> b.size >= HEADER
  {
    if HoldsEntry(b) {
      assert FieldByte(b.addr, b.addr + 23);
      assert In(b, b.addr + 23);
    }
  }

  /** Each of the six fields of an entry, of 4 bytes from its offset on, lies in the entry, and shares
      no byte with another entry. */
  lemma FieldsApart(bs: seq<Block>, i: nat, field: nat, x: int, j: nat)
    requires Coalesced(bs) && i < |bs| && j < |bs| && field in {0, 4, 8, 12, 16, 20}
    requires bs[i].addr + field <= x < bs[i].addr + field + 4
    ensures bs[i].addr <= x < bs[i].addr + bs[i].size
    ensures bs[j].addr <= x < bs[j].addr + bs[j].size <==> i == j
  {
    HoldsHeader(bs[i]);
    assert FieldByte(bs[i].addr, x);
    assert i < j ==> bs[i].End() < bs[j].addr;
    assert j < i ==> bs[j].End() < bs[i].addr;
  }

  /** The same for the list as a whole. */
  lemma EntriesHold(bs: seq<Block>)
    requires Coalesced(bs)
    ensures forall i :: 0 <= i < |bs| ==> HoldsEntry(bs[i])
  {
    forall i | 0 <= i < |bs|
      ensures HoldsEntry(bs[i])
    {
      HoldsHeader(bs[i]);
    }
  }

  /** The test of the plain allocation is that nothing or a whole entry is left behind the block. */
  lemma FitsMeans(b: Block, n: nat)
    ensures Fits(b.size, n) <==> Cuttable(b, n)
  {
    if n <= b.size { HoldsHeader(Block(b.addr + n, b.size - n)); }
  }

  /** The place of the aligned allocation is the lowest one. */
  lemma PlaceMeans(e: nat, a: nat, q: nat)
    requires a > 0
    ensures Lowest(e, a, q) <==> q == Place(e, a)
  {
    PlacePermitted(e, a, Place(e, a));
    forall p: nat | e <= p && p % a == 0 && (p == e || HoldsEntry(Block(e, p - e)))
      ensures Place(e, a) <= p
    {
      PlacePermitted(e, a, p);
      PlaceLeast(e, a, p);
    }
    PlaceLeast(e, a, 0);
  }

  lemma PlacePermitted(e: nat, a: nat, p: nat)
    requires a > 0 && e <= p
    ensures Permitted(e, a, p) <==> p % a == 0 && (p == e || HoldsEntry(Block(e, p - e)))
  {
    HoldsHeader(Block(e, p - e));
  }

  /** The block can be cut off at q. */
  ghost predicate Placeable(b: Block, q: nat, n: nat) {
    q <= b.End() && Cuttable(Block(q, b.End() - q), n)
  }

  /** Of all blocks off whose front n bytes can be cut, k is a smallest. */
  ghost predicate SmallestCuttable(bs: seq<Block>, k: nat, n: nat) {
    && k < |bs| && Cuttable(bs[k], n)
    && forall i :: 0 <= i < |bs| && Cuttable(bs[i], n) ==> bs[k].size <= bs[i].size
  }

  lemma PlainMeans(bs: seq<Block>, n: nat)
    ensures forall i :: 0 <= i < |bs| ==> (Fits(bs[i].size, n) <==> Cuttable(bs[i], n))
    ensures forall k: nat :: BestFit(bs, k, n) <==> SmallestCuttable(bs, k, n)
  {
    forall i | 0 <= i < |bs|
      ensures Fits(bs[i].size, n) <==> Cuttable(bs[i], n)
    {
      FitsMeans(bs[i], n);
    }
  }

  lemma AdmitsPlace(b: Block, a: nat, n: nat, q: nat)
    requires a > 0 && n > 0 && Lowest(b.addr, a, q)
    ensures Admits(b, a, n) <==> Placeable(b, q, n)
    ensures Admits(b, a, n) ==> Tail(b, a, n) == b.End() - q - n
  {
    PlaceMeans(b.addr, a, q);
    AdmitsMeans(b, a, n);
    if q <= b.End() && n <= b.End() - q { HoldsHeader(Block(q + n, b.End() - q - n)); }
  }

  /** The aligned block lies at the lowest place q of block k; the blocks that could serve it as well
      are in higher size classes, or in the same one and have no fewer bytes behind the place. */
  ghost predicate LowestPlaceable(bs: seq<Block>, k: nat, a: nat, q: nat, n: nat)
    requires a > 0
  {
    && k < |bs| && Lowest(bs[k].addr, a, q) && Placeable(bs[k], q, n)
    && forall i, p: nat :: 0 <= i < |bs| && Lowest(bs[i].addr, a, p) && Placeable(bs[i], p, n) ==>
         || SizeClass(bs[k].size) < SizeClass(bs[i].size)
         || (SizeClass(bs[k].size) == SizeClass(bs[i].size) && bs[k].End() - q <= bs[i].End() - p)
  }

  lemma AlignedMeans(bs: seq<Block>, k: nat, a: nat, q: nat, n: nat)
    requires a > 0 && n > 0 && AlignedFit(bs, k, a, n) && q == Place(bs[k].addr, a)
    ensures LowestPlaceable(bs, k, a, q, n)
  {
    PlaceMeans(bs[k].addr, a, q);
    AdmitsPlace(bs[k], a, n, q);
    forall i, p: nat | 0 <= i < |bs| && Lowest(bs[i].addr, a, p) && Placeable(bs[i], p, n)
      ensures Admits(bs[i], a, n) && Tail(bs[i], a, n) == bs[i].End() - p - n
    {
      AdmitsPlace(bs[i], a, n, p);
    }
  }

  /** The result of an aligned request for n > 0 bytes, in these terms. */
  lemma AlignedResultMeans(bs: seq<Block>, a: nat, n: nat, r: Ptr, bs': seq<Block>)
    requires a > 0 && n > 0 && AlignedResult(bs, a, n, r, bs')
    ensures r == NIL ==> forall i, p: nat :: 0 <= i < |bs| && Lowest(bs[i].addr, a, p) ==> !Placeable(bs[i], p, n)
    ensures r != NIL ==> exists k: nat :: LowestPlaceable(bs, k, a, r, n) && bs' == Cut(bs, k, r, n)
  {
    if r == NIL {
      forall i, p: nat | 0 <= i < |bs| && Lowest(bs[i].addr, a, p)
        ensures !Placeable(bs[i], p, n)
      {
        AdmitsPlace(bs[i], a, n, p);
      }
    } else {
      var k: nat :| AlignedAt(bs, k, r, a, n, bs');
      AlignedMeans(bs, k, a, r, n);
    }
  }
}
