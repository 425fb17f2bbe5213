/** Whole runs of the free-list allocator: what was handed out, what is free, what was donated.

    The steps are the contracts of Descriptor's methods, read as relations on the free list. */
module Arena {
  import opened Machine
  import opened FreeBlocks
  import opened Alignment
  import opened Requests
  import opened Headers
  import opened FreeList

  datatype Arena = Arena(free: seq<Block>, live: set<Block>, donated: iset<int>)

  datatype Request = Alloc(size: nat) | AllocAlign(size: nat, alignment: nat) | Free(block: Block) | Donate(block: Block)

  ghost predicate LiveByte(live: set<Block>, x: int) {
    exists b :: b in live && In(b, x)
  }

  /** A block whose size is an adjusted request size, inside the address space. */
  ghost predicate Usable(b: Block) { HEADER <= b.size && b.size % 4 == 0 && b.End() <= WORD }

  ghost predicate Disjoint(b: Block, c: Block) { b.End() <= c.addr || c.End() <= b.addr }

  /** The allocation [r, r+n) joins the live blocks. */
  ghost predicate HandsOut(a: Arena, r: nat, n: nat, free': seq<Block>, a': Arena) {
    a' == Arena(free', a.live + {Block(r, n)}, a.donated)
  }

  /** No block can serve the request: the only reason for a NIL result. */
  ghost predicate Exhausted(bs: seq<Block>, n: nat) {
    forall i :: 0 <= i < |bs| ==> !Fits(bs[i].size, n)
  }

  ghost predicate ExhaustedAlign(bs: seq<Block>, a: nat, n: nat)
    requires a > 0
  {
    forall i :: 0 <= i < |bs| ==> !Admits(bs[i], a, n)
  }

  ghost predicate Step(a: Arena, q: Request, a': Arena) {
    match q
    case Alloc(size) =>
      || (a' == a && (size > WORD - 4 || Exhausted(a.free, Adjusted(size))))
      || (size <= WORD - 4 && exists k: nat, r: nat ::
            r != 0 && Allocated(a.free, k, r, Adjusted(size), a'.free) && HandsOut(a, r, Adjusted(size), a'.free, a'))
    case AllocAlign(size, alignment) =>
      && size <= WORD - 4 && alignment < 32
      && ((a' == a && ExhaustedAlign(a.free, Pow2(alignment), Adjusted(size))) || exists k: nat, r: nat ::
            r != 0 && AlignedAt(a.free, k, r, Pow2(alignment), Adjusted(size), a'.free) && HandsOut(a, r, Adjusted(size), a'.free, a'))
    case Free(b) =>
      b in a.live && a' == Arena(Release(a.free, b.addr, b.size), a.live - {b}, a.donated)
    case Donate(b) =>
      && 0 < b.addr && Usable(b)
      && (forall x :: In(b, x) ==> x !in a.donated)
      && a' == Arena(Release(a.free, b.addr, b.size), a.live, a.donated + iset x | In(b, x))
  }

  /** The free list is coalesced; live blocks are disjoint from each other and from free memory;
      free and live bytes together are exactly the donated bytes. */
  ghost predicate Conserved(a: Arena) {
    && Coalesced(a.free)
    && (forall b :: b in a.live ==> Usable(b) && Releasable(a.free, b.addr, b.size))
    && (forall b, c :: b in a.live && c in a.live && b != c ==> Disjoint(b, c))
    && (forall x :: x in a.donated <==> FreeByte(a.free, x) || LiveByte(a.live, x))
  }

  ghost predicate Run(trace: seq<Arena>, requests: seq<Request>) {
    && |trace| == |requests| + 1
    && trace[0] == Arena([], {}, iset{})
    && forall i :: 0 <= i < |requests| ==> Step(trace[i], requests[i], trace[i + 1])
  }

  lemma LiveInsert(live: set<Block>, b: Block, x: int)
    ensures LiveByte(live + {b}, x) <==> LiveByte(live, x) || In(b, x)
  {
  }

  lemma TakeKeeps(a: Arena, k: nat, r: nat, n: nat, a': Arena)
    requires Conserved(a) && k < |a.free| && a.free[k].addr <= r && r + n <= a.free[k].End() && HEADER <= n && n % 4 == 0
    requires Room(r - a.free[k].addr) && Room(a.free[k].End() - (r + n))
    requires HandsOut(a, r, n, Cut(a.free, k, r, n), a')
    ensures Conserved(a')
  {
    var bs, cs, b := a.free, a'.free, Block(r, n);
    CutCoalesced(bs, k, r, n);
    forall x
      ensures FreeByte(cs, x) <==> FreeByte(bs, x) && !In(b, x)
      ensures LiveByte(a'.live, x) <==> LiveByte(a.live, x) || In(b, x)
      ensures In(b, x) ==> FreeByte(bs, x)
    {
      CutBytes(bs, k, r, n, x);
      LiveInsert(a.live, b, x);
      assert In(b, x) ==> In(bs[k], x);
    }
    forall c | c in a'.live
      ensures Releasable(cs, c.addr, c.size)
      ensures c in a.live ==> Disjoint(b, c)
    {
      if c in a.live {
        NoFreeByteReleasable(bs, c.addr, c.size);
        assert !In(c, b.addr) && !In(b, c.addr);
      }
      NoFreeByteReleasable(cs, c.addr, c.size);
    }
  }

  lemma GiveKeeps(a: Arena, b: Block, a': Arena)
    requires Conserved(a) && Releasable(a.free, b.addr, b.size)
    requires a'.free == Release(a.free, b.addr, b.size) && a'.live <= a.live
    requires forall c :: c in a'.live ==> Disjoint(b, c)
    requires forall x :: x in a'.donated <==> FreeByte(a.free, x) || LiveByte(a'.live, x) || In(b, x)
    ensures Conserved(a')
  {
    ReleaseCoalesced(a.free, b.addr, b.size);
    forall x
      ensures FreeByte(a'.free, x) <==> FreeByte(a.free, x) || In(b, x)
    {
      ReleaseBytes(a.free, b.addr, b.size, x);
    }
    forall c | c in a'.live
      ensures Releasable(a'.free, c.addr, c.size)
    {
      NoFreeByteReleasable(a.free, c.addr, c.size);
      NoFreeByteReleasable(a'.free, c.addr, c.size);
    }
  }

  /** Every step of the allocator conserves memory. */
  lemma StepConserves(a: Arena, q: Request, a': Arena)
    requires Conserved(a) && Step(a, q, a')
    ensures Conserved(a')
  {
    match q
    case Alloc(size) =>
      if a' != a {
        var k: nat, r: nat :| r != 0 && Allocated(a.free, k, r, Adjusted(size), a'.free) && HandsOut(a, r, Adjusted(size), a'.free, a');
        AdjustedCovers(size);
        TakeKeeps(a, k, r, Adjusted(size), a');
      }
    case AllocAlign(size, alignment) =>
      if a' != a {
        var k: nat, r: nat :| r != 0 && AlignedAt(a.free, k, r, Pow2(alignment), Adjusted(size), a'.free) && HandsOut(a, r, Adjusted(size), a'.free, a');
        AdjustedCovers(size);
        PlaceLeast(a.free[k].addr, Pow2(alignment), 0);
        TakeKeeps(a, k, r, Adjusted(size), a');
      }
    case Free(b) =>
      FreeKeeps(a, b, a');
    case Donate(b) =>
      DonateKeeps(a, b, a');
  }

  lemma FreeKeeps(a: Arena, b: Block, a': Arena)
    requires Conserved(a) && Step(a, Free(b), a')
    ensures Conserved(a')
  {
    assert a.live == a'.live + {b};
    forall x
      ensures LiveByte(a.live, x) <==> LiveByte(a'.live, x) || In(b, x)
    {
      LiveInsert(a'.live, b, x);
    }
    GiveKeeps(a, b, a');
  }

  lemma DonateKeeps(a: Arena, b: Block, a': Arena)
    requires Conserved(a) && Step(a, Donate(b), a')
    ensures Conserved(a')
  {
    NoFreeByteReleasable(a.free, b.addr, b.size);
    forall c | c in a.live
      ensures Disjoint(b, c)
    {
      assert In(c, c.addr) && LiveByte(a.live, c.addr);
      assert In(b, b.addr) && b.addr !in a.donated;
      assert In(c, b.addr) ==> LiveByte(a.live, b.addr);
    }
    GiveKeeps(a, b, a');
  }

  /** In every reachable state memory is conserved, and any live block may be freed. */
  lemma {:induction false} RunsConserve(trace: seq<Arena>, requests: seq<Request>, i: nat)
    requires Run(trace, requests) && i < |trace|
    ensures Conserved(trace[i])
  {
    if i > 0 {
      RunsConserve(trace, requests, i - 1);
      StepConserves(trace[i - 1], requests[i - 1], trace[i]);
    }
  }

  /** In every reachable state no field of a free entry, of 4 bytes from its offset on, shares a byte
      with a live block. */
  lemma FieldsOutsideLive(trace: seq<Arena>, requests: seq<Request>, i: nat, k: nat, field: nat, x: int, b: Block)
    requires Run(trace, requests) && i < |trace| && k < |trace[i].free| && b in trace[i].live
    requires field in {0, 4, 8, 12, 16, 20}
    requires trace[i].free[k].addr + field <= x < trace[i].free[k].addr + field + 4
    ensures !(b.addr <= x < b.addr + b.size)
  {
    RunsConserve(trace, requests, i);
    FieldsApart(trace[i].free, k, field, x, k);
    assert Releasable(trace[i].free, b.addr, b.size);
  }

  lemma TakeThenGive(a: Arena, k: nat, p: nat, n: nat, b: Arena, r: Block, c: Arena)
    requires Coalesced(a.free) && k < |a.free| && a.free[k].addr <= p && p + n <= a.free[k].End() && HEADER <= n
    requires Room(p - a.free[k].addr) && Room(a.free[k].End() - (p + n))
    requires HandsOut(a, p, n, Cut(a.free, k, p, n), b)
    requires r in b.live && r !in a.live && Step(b, Free(r), c)
    ensures c == a
  {
    assert r == Block(p, n);
    ReleaseUndoesCut(a.free, k, p, n);
    assert c.live == a.live;
  }

  /** Allocating and then freeing the same block and size gives the free list back, block by block. */
  lemma AllocThenFree(a: Arena, q: Request, b: Arena, r: Block, c: Arena)
    requires Coalesced(a.free) && Step(a, q, b) && (q.Alloc? || q.AllocAlign?)
    requires r in b.live && r !in a.live && Step(b, Free(r), c)
    ensures c == a
  {
    AdjustedCovers(q.size);
    if q.Alloc? {
      var k: nat, p: nat :| p != 0 && Allocated(a.free, k, p, Adjusted(q.size), b.free) && HandsOut(a, p, Adjusted(q.size), b.free, b);
      TakeThenGive(a, k, p, Adjusted(q.size), b, r, c);
    } else {
      var k: nat, p: nat :| p != 0 && AlignedAt(a.free, k, p, Pow2(q.alignment), Adjusted(q.size), b.free) && HandsOut(a, p, Adjusted(q.size), b.free, b);
      PlaceLeast(a.free[k].addr, Pow2(q.alignment), 0);
      TakeThenGive(a, k, p, Adjusted(q.size), b, r, c);
    }
  }

  /** The allocator performs these steps: one call of a Descriptor whose blocks are a's free list
      is one step of a.  The request is anything a caller may ask for in state a. */
  ghost predicate Admissible(a: Arena, q: Request) {
    match q
    case Alloc(size) => size < WORD
    case AllocAlign(size, alignment) => size <= WORD - 4 && alignment < 32
    case Free(b) => b in a.live
    case Donate(b) => 0 < b.addr && Usable(b) && forall x :: In(b, x) ==> x !in a.donated
  }

  /** The state after request q returned r and left the free list free'. */
  ghost function Served(a: Arena, q: Request, r: nat, free': seq<Block>): Arena {
    match q
    case Alloc(size) => Arena(free', if r == 0 || size > WORD - 4 then a.live else a.live + {Block(r, Adjusted(size))}, a.donated)
    case AllocAlign(size, _) => Arena(free', if r == 0 then a.live else a.live + {Block(r, Adjusted(size))}, a.donated)
    case Free(b) => Arena(free', a.live - {b}, a.donated)
    case Donate(b) => Arena(free', a.live, a.donated + iset x | In(b, x))
  }

  lemma ServedAlloc(a: Arena, size: nat, r: nat, free': seq<Block>)
    requires Coalesced(a.free) && size < WORD
    requires r == 0 ==> free' == a.free && Exhausted(a.free, Adjusted(size))
    requires r != 0 ==> exists k: nat :: Allocated(a.free, k, r, Adjusted(size), free')
    ensures Step(a, Alloc(size), Served(a, Alloc(size), r, free'))
  {
    if r != 0 {
      var k: nat :| Allocated(a.free, k, r, Adjusted(size), free');
      AdjustedCovers(size);
      if size > WORD - 4 {
        NothingWhole(a.free, k, r);
      } else {
        assert HandsOut(a, r, Adjusted(size), free', Served(a, Alloc(size), r, free'));
      }
    }
  }

  lemma ServedAlign(a: Arena, size: nat, alignment: nat, r: nat, free': seq<Block>)
    requires size <= WORD - 4 && alignment < 32
    requires r == 0 ==> free' == a.free && ExhaustedAlign(a.free, Pow2(alignment), Adjusted(size))
    requires r != 0 ==> exists k: nat :: AlignedAt(a.free, k, r, Pow2(alignment), Adjusted(size), free')
    ensures Step(a, AllocAlign(size, alignment), Served(a, AllocAlign(size, alignment), r, free'))
  {
    if r != 0 {
      var k: nat :| AlignedAt(a.free, k, r, Pow2(alignment), Adjusted(size), free');
      assert HandsOut(a, r, Adjusted(size), free', Served(a, AllocAlign(size, alignment), r, free'));
    }
  }

  /** What Free and Donate need of MemFree holds in every conserved state. */
  lemma MayFree(a: Arena, q: Request)
    requires Conserved(a) && Admissible(a, q) && (q.Free? || q.Donate?)
    ensures Adjusted(q.block.size) == q.block.size && Releasable(a.free, q.block.addr, q.block.size)
  {
    if q.Donate? { NoFreeByteReleasable(a.free, q.block.addr, q.block.size); }
  }

  method Serve(d: Descriptor, ghost a: Arena, q: Request) returns (r: nat, ghost a': Arena)
    requires d.Valid() && d.blocks == a.free && Conserved(a) && Admissible(a, q)
    modifies d, d.firstFreeSizeEntry
    ensures d.Valid() && a' == Served(a, q, r, d.blocks)
    ensures Step(a, q, a')
  {
    r := 0;
    match q {
      case Alloc(size) =>
        r := d.MemAlloc(size);
        ServedAlloc(a, size, r, d.blocks);
      case AllocAlign(size, alignment) =>
        r := d.MemAllocAlign(size, alignment);
        AdjustedCovers(size);
        ServedAlign(a, size, alignment, r, d.blocks);
      case Free(b) =>
        MayFree(a, q);
        d.MemFree(b.addr, b.size);
      case Donate(b) =>
        MayFree(a, q);
        d.MemFree(b.addr, b.size);
    }
    a' := Served(a, q, r, d.blocks);
  }
}
