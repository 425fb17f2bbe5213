/** resource.c: regions of the I/O address space, allocated to threads.

    Every region is in two doubly linked lists: that of all regions, in the order of their
    addresses behind a head holder, and that of its owner's regions, the newest last. */
module IoRegions {
  import opened Machine
  import opened CkErrors
  import opened DList

  const HEAD: Ptr := 1              // the address of IOfirstAlloc

  /** What a region says of itself. */
  datatype Region = Region(base: nat, limit: nat, owner: Ptr) {
    function End(): nat { base + limit }
  }

  /** Region i lies in the address space, behind the region before it. */
  ghost predicate Behind(rs: seq<Ptr>, table: map<Ptr, Region>, i: nat)
    requires i < |rs|
  {
    && rs[i] in table && table[rs[i]].limit > 0 && table[rs[i]].End() < WORD
    && (i > 0 ==> rs[i - 1] in table && table[rs[i - 1]].End() <= table[rs[i]].base)
  }

  ghost predicate InOrder(rs: seq<Ptr>, table: map<Ptr, Region>) {
    forall i :: 0 <= i < |rs| ==> Behind(rs, table, i)
  }

  /** Sorted neighbours make all regions disjoint. */
  lemma {:induction false} FarBehind(rs: seq<Ptr>, table: map<Ptr, Region>, i: nat, j: nat)
    requires InOrder(rs, table) && i < j < |rs|
    ensures rs[i] in table && rs[j] in table && table[rs[i]].End() <= table[rs[j]].base
    decreases j
  {
    assert Behind(rs, table, j) && Behind(rs, table, j - 1);
    if i < j - 1 {
      FarBehind(rs, table, i, j - 1);
    }
  }

  /** None of the regions shares an address with [base, base+limit). */
  ghost predicate Clear(rs: seq<Ptr>, table: map<Ptr, Region>, base: nat, limit: nat) {
    forall i :: 0 <= i < |rs| ==> rs[i] in table ==> table[rs[i]].End() <= base || base + limit <= table[rs[i]].base
  }

  /** The answer that the search gives: every region that begins below the 32-bit sum of base and
      limit ends at or below base. */
  ghost predicate GapFound(rs: seq<Ptr>, table: map<Ptr, Region>, base: nat, limit: nat) {
    limit > 0 &&
    forall i :: 0 <= i < |rs| && rs[i] in table && table[rs[i]].base < (base + limit) % WORD ==> table[rs[i]].End() <= base
  }

  lemma SumWraps(base: nat, limit: nat)
    requires base < WORD && limit < WORD
    ensures (base + limit) % WORD == if base + limit < WORD then base + limit else base + limit - WORD
  {
  }

  /** The answer is right for every range that does not wrap, and for an empty one.  For one that
      wraps it is right exactly if no region ends behind base, or one reaches across base and the
      wrapped sum. */
  lemma AnswerIsRight(rs: seq<Ptr>, table: map<Ptr, Region>, base: nat, limit: nat)
    requires InOrder(rs, table) && base < WORD && limit < WORD
    ensures (GapFound(rs, table, base, limit) <==> limit > 0 && Clear(rs, table, base, limit)) <==>
      || base + limit < WORD || limit == 0
      || (forall i :: 0 <= i < |rs| && rs[i] in table ==> table[rs[i]].End() <= base)
      || (exists i :: 0 <= i < |rs| && rs[i] in table && table[rs[i]].base < base + limit - WORD && base < table[rs[i]].End())
  {
    SumWraps(base, limit);
    forall i | 0 <= i < |rs|
      ensures rs[i] in table && table[rs[i]].limit > 0 && table[rs[i]].End() < WORD
    {
      assert Behind(rs, table, i);
    }
  }

  /** A wrong answer: between two regions there is said to be room for a range that covers the second. */
  lemma AnswerIsWrong()
    ensures var rs, table := [2, 3], map[2 := Region(100, 10, 7), 3 := Region(200, 10, 7)];
      InOrder(rs, table) && GapFound(rs, table, 150, 0xFFFF_FFFF) && !Clear(rs, table, 150, 0xFFFF_FFFF)
  {
    var rs: seq<Ptr>, table := [2, 3], map[2 := Region(100, 10, 7), 3 := Region(200, 10, 7)];
    SumWraps(150, 0xFFFF_FFFF);
    assert Behind(rs, table, 0) && Behind(rs, table, 1);
    assert rs[1] in table && table[rs[1]].End() > 150;
  }

  lemma InOrderInsert(rs: seq<Ptr>, table: map<Ptr, Region>, k: nat, x: Ptr, r: Region)
    requires InOrder(rs, table) && k <= |rs| && x !in rs && r.limit > 0 && r.End() < WORD
    requires k > 0 ==> rs[k - 1] in table && table[rs[k - 1]].End() <= r.base
    requires k < |rs| ==> rs[k] in table && r.End() <= table[rs[k]].base
    ensures InOrder(Insert(rs, k, x), table[x := r])
  {
    var t, table' := Insert(rs, k, x), table[x := r];
    forall i | 0 <= i < |t|
      ensures Behind(t, table', i)
    {
      if i < k { assert Behind(rs, table, i); }
      if i > k { assert Behind(rs, table, i - 1); }
    }
  }

  /** The regions after an insertion at the gap found for r are in order exactly if r does not wrap. */
  lemma OrderAfter(rs: seq<Ptr>, table: map<Ptr, Region>, k: nat, x: Ptr, r: Region)
    requires InOrder(rs, table) && k <= |rs| && x !in rs && r.limit > 0 && r.base < WORD && r.limit < WORD
    requires k > 0 ==> rs[k - 1] in table && table[rs[k - 1]].End() <= r.base
    requires k < |rs| ==> rs[k] in table && r.End() % WORD <= table[rs[k]].base
    ensures InOrder(Insert(rs, k, x), table[x := r]) <==> r.End() < WORD
  {
    SumWraps(r.base, r.limit);
    if r.End() < WORD {
      InOrderInsert(rs, table, k, x, r);
    } else {
      assert !Behind(Insert(rs, k, x), table[x := r], k);
    }
  }

  /** Places in the list of regions, with and without the head holder. */
  lemma BehindHead(rs: seq<Ptr>, k: nat, x: Ptr)
    requires k <= |rs|
    ensures Insert([HEAD] + rs, k + 1, x) == [HEAD] + Insert(rs, k, x)
    ensures k < |rs| ==> Without([HEAD] + rs, k + 1) == [HEAD] + Without(rs, k)
  {
  }

  /** The list head stands before every region, so that there is always a region or the head to link from. */
  lemma RegionInside(rs: seq<Ptr>, k: nat, pa: map<Ptr, Ptr>, na: map<Ptr, Ptr>)
    requires Linked([HEAD] + rs, pa, na) && k < |rs|
    ensures rs[k] in pa && rs[k] in na && pa[rs[k]] != NIL && pa[rs[k]] in na && pa[rs[k]] != rs[k]
  {
    var list := [HEAD] + rs;
    assert list[k + 1] == rs[k] && Node(list, pa, na, k + 1) && Node(list, pa, na, k);
  }

  lemma RegionUnlinked(rs: seq<Ptr>, k: nat, pa: map<Ptr, Ptr>, na: map<Ptr, Ptr>, pa': map<Ptr, Ptr>, na': map<Ptr, Ptr>)
    requires Linked([HEAD] + rs, pa, na) && k < |rs| && rs[k] in pa && rs[k] in na && pa[rs[k]] != NIL
    requires na' == na[pa[rs[k]] := na[rs[k]]]
    requires pa' == if na[rs[k]] != NIL then pa[na[rs[k]] := pa[rs[k]]] else pa
    ensures Linked([HEAD] + Without(rs, k), pa', na')
  {
    assert Node([HEAD] + rs, pa, na, k + 1);
    Unlink([HEAD] + rs, k + 1, pa, na, pa', na');
    BehindHead(rs, k, rs[k]);
  }

  lemma InOrderWithout(rs: seq<Ptr>, table: map<Ptr, Region>, k: nat)
    requires InOrder(rs, table) && k < |rs| && Distinct(rs)
    ensures InOrder(Without(rs, k), table - {rs[k]})
  {
    var t := Without(rs, k);
    var rest := table - {rs[k]};
    forall i | 0 <= i < |t|
      ensures Behind(t, rest, i)
    {
      assert Behind(rs, table, if i < k then i else i + 1);
      if i == k && k > 0 { FarBehind(rs, table, k - 1, k + 1); }
    }
  }

  /** Thread t's list: linked both ways, its newest region in the thread, all of them the thread's own. */
  ghost predicate Holds(table: map<Ptr, Region>, prev: map<Ptr, Ptr>, next: map<Ptr, Ptr>,
                        ioregion: map<Ptr, Ptr>, owned: map<Ptr, seq<Ptr>>, t: Ptr) {
    && t in owned && t in ioregion && Linked(owned[t], prev, next)
    && ioregion[t] == At(owned[t], |owned[t]| - 1)
    && forall x :: x in owned[t] ==> x in table && table[x].owner == t
  }

  ghost predicate Placed(table: map<Ptr, Region>, owned: map<Ptr, seq<Ptr>>, x: Ptr) {
    x in table && table[x].owner in owned && x in owned[table[x].owner]
  }

  ghost predicate Assigned(table: map<Ptr, Region>, prev: map<Ptr, Ptr>, next: map<Ptr, Ptr>,
                           ioregion: map<Ptr, Ptr>, owned: map<Ptr, seq<Ptr>>) {
    && owned.Keys == ioregion.Keys
    && (forall t {:trigger Holds(table, prev, next, ioregion, owned, t)} ::
          t in ioregion ==> Holds(table, prev, next, ioregion, owned, t))
    && (forall x {:trigger Placed(table, owned, x)} :: x in table ==> Placed(table, owned, x))
  }

  /** A new region goes behind the newest one of its owner. */
  lemma AssignedNew(table: map<Ptr, Region>, prev: map<Ptr, Ptr>, next: map<Ptr, Ptr>, ioregion: map<Ptr, Ptr>,
                    owned: map<Ptr, seq<Ptr>>, x: Ptr, r: Region, prev': map<Ptr, Ptr>, next': map<Ptr, Ptr>)
    requires Assigned(table, prev, next, ioregion, owned) && x !in table && x != NIL && r.owner in ioregion
    requires prev' == prev[x := ioregion[r.owner]]
    requires next' == if ioregion[r.owner] != NIL then next[x := NIL][ioregion[r.owner] := x] else next[x := NIL]
    ensures Assigned(table[x := r], prev', next', ioregion[r.owner := x], owned[r.owner := owned[r.owner] + [x]])
  {
    var o := r.owner;
    var table', owned', ioregion' := table[x := r], owned[o := owned[o] + [x]], ioregion[o := x];
    assert Holds(table, prev, next, ioregion, owned, o);
    assert x !in owned[o] && Insert(owned[o], |owned[o]|, x) == owned[o] + [x];
    Link(owned[o], |owned[o]|, x, prev, next, prev', next');
    forall t | t in ioregion'
      ensures Holds(table', prev', next', ioregion', owned', t)
    {
      assert Holds(table, prev, next, ioregion, owned, t);
      if t != o { Frame(owned[t], prev, next, prev', next'); }
    }
    forall y | y in table'
      ensures Placed(table', owned', y)
    {
      if y == x { assert owned'[o][|owned[o]|] == x; } else { assert Placed(table, owned, y); }
    }
  }

  /** A freed region leaves its owner's list. */
  lemma AssignedGone(table: map<Ptr, Region>, prev: map<Ptr, Ptr>, next: map<Ptr, Ptr>, ioregion: map<Ptr, Ptr>,
                     owned: map<Ptr, seq<Ptr>>, x: Ptr, m: nat, prev': map<Ptr, Ptr>, next': map<Ptr, Ptr>, ioregion': map<Ptr, Ptr>)
    requires Assigned(table, prev, next, ioregion, owned) && x in table && table[x].owner in ioregion
    requires table[x].owner in owned && m < |owned[table[x].owner]| && owned[table[x].owner][m] == x
    requires x in prev && x in next
    requires next' == if prev[x] != NIL then next[prev[x] := next[x]] else next
    requires prev' == if next[x] != NIL then prev[next[x] := prev[x]] else prev
    requires ioregion' == if next[x] == NIL then ioregion[table[x].owner := prev[x]] else ioregion
    ensures Assigned(table - {x}, prev', next', ioregion', owned[table[x].owner := Without(owned[table[x].owner], m)])
  {
    var o := table[x].owner;
    var s := owned[o];
    var table', owned' := table - {x}, owned[o := Without(s, m)];
    assert Holds(table, prev, next, ioregion, owned, o);
    assert Node(s, prev, next, m) && (m + 1 < |s| ==> Node(s, prev, next, m + 1));
    Unlink(s, m, prev, next, prev', next');
    forall t | t in ioregion'
      ensures Holds(table', prev', next', ioregion', owned', t)
    {
      assert Holds(table, prev, next, ioregion, owned, t);
      if t != o {
        assert At(s, m - 1) != NIL ==> At(s, m - 1) in s;
        assert At(s, m + 1) != NIL ==> At(s, m + 1) in s;
        Frame(owned[t], prev, next, prev', next');
      } else {
        forall y | y in owned'[o]
          ensures y in table' && table'[y].owner == o
        {
          WithoutElements(s, m, y);
        }
      }
    }
    forall y | y in table'
      ensures Placed(table', owned', y)
    {
      assert Placed(table, owned, y);
      if table[y].owner == o { WithoutElements(s, m, y); }
    }
  }

  class IoSpace {
    // the fields of the allocated regions, by address; a freed region has none
    var table: map<Ptr, Region>        // base, limit and owner
    var nextAlloc: map<Ptr, Ptr>
    var prevAlloc: map<Ptr, Ptr>
    var next: map<Ptr, Ptr>
    var prev: map<Ptr, Ptr>
    var ioregion: map<Ptr, Ptr>        // of the thread objects: the newest region
    ghost var regions: seq<Ptr>
    ghost var owned: map<Ptr, seq<Ptr>>

    /** The list of all regions. */
    ghost predicate Listed()
      reads this
    {
      Linked([HEAD] + regions, prevAlloc, nextAlloc) && forall x :: x in table <==> x in regions
    }

    /** Everything but the order of the regions. */
    ghost predicate Woven()
      reads this
    {
      Listed() && Assigned(table, prev, next, ioregion, owned)
    }

    ghost predicate Valid()
      reads this
    {
      Woven() && InOrder(regions, table)
    }

    constructor (threads: set<Ptr>)
      ensures Valid() && regions == [] && ioregion.Keys == threads
    {
      table, next, prev := map[], map[], map[];
      nextAlloc, prevAlloc := map[HEAD := NIL], map[HEAD := NIL];
      ioregion := map t | t in threads :: NIL;
      regions := [];
      owned := map t | t in threads :: [];
    }

    /** CKIOfindGap: the region, or the head, after which the new one is to be inserted; NIL if it
        overlaps one or is empty.  The sum of base and limit is a 32-bit one. */
    method FindGap(base: nat, limit: nat) returns (gap: Ptr, ghost k: nat)
      requires Listed() && InOrder(regions, table)
      ensures gap != NIL <==> GapFound(regions, table, base, limit)
      ensures gap != NIL ==> k <= |regions| && gap == ([HEAD] + regions)[k]
      ensures gap != NIL && k > 0 ==> table[regions[k - 1]].End() <= base
      ensures gap != NIL && k < |regions| ==> (base + limit) % WORD <= table[regions[k]].base
    {
      k := 0;
      if limit == 0 { return NIL, 0; }
      gap := HEAD;
      ghost var list := [HEAD] + regions;
      while true
        invariant k <= |regions| && gap == list[k]
        invariant forall j :: 0 <= j < k ==> table[regions[j]].base < (base + limit) % WORD
        invariant forall j :: 0 <= j < k - 1 ==> table[regions[j]].End() <= base
        decreases |regions| - k
      {
        assert Node(list, prevAlloc, nextAlloc, k);
        assert k > 0 ==> list[k] == regions[k - 1] && Behind(regions, table, k - 1);
        assert k < |regions| ==> list[k + 1] == regions[k] && Node(list, prevAlloc, nextAlloc, k + 1);
        if gap != HEAD && base < table[gap].base + table[gap].limit {
          return NIL, k;
        }
        if nextAlloc[gap] == NIL || table[nextAlloc[gap]].base >= (base + limit) % WORD {
          break;
        }
        gap := nextAlloc[gap];
        k := k + 1;
      }
      forall j | k < j < |regions|
        ensures table[regions[k]].base <= table[regions[j]].base
      {
        FarBehind(regions, table, k, j);
      }
    }

    /** CKallocIORegion; ckres is what CKmemAlloc has to give, and the region's descriptor.  Whatever
        the range, the links and the lists of the owners are right afterwards; the regions are in
        order and in the address space exactly unless a range that wraps was let in. */
    method AllocIoRegion(base: nat, limit: nat, owner: Ptr, ckres: Ptr) returns (error: int)
      requires Valid() && base < WORD && limit < WORD && ckres !in table && ckres != HEAD
      modifies this
      ensures Woven() && (Valid() <==> error != 0 || base + limit < WORD)
      ensures error ==
        if owner !in ioregion then -12
        else if !GapFound(old(regions), old(table), base, limit) then -16
        else if ckres == NIL then -4
        else 0
      ensures error != 0 ==> table == old(table) && regions == old(regions) && owned == old(owned)
      ensures error == 0 ==> table == old(table)[ckres := Region(base, limit, owner)]
      ensures error == 0 ==> exists k: nat :: k <= |old(regions)| && regions == Insert(old(regions), k, ckres)
      ensures error == 0 ==> owner in old(owned) && owned == old(owned)[owner := old(owned)[owner] + [ckres]]
    {
      if owner !in ioregion { return ENOVALIDTHREAD; }
      var gap;
      ghost var k;
      gap, k := FindGap(base, limit);
      if gap == NIL { return ERESOURCEBUSY; }
      if ckres == NIL { return ENOMEM; }
      OrderAfter(regions, table, k, ckres, Region(base, limit, owner));
      LinkRegion(ckres, Region(base, limit, owner), gap, k);
      GiveRegion(ckres, Region(base, limit, owner), old(table));
      error := 0;
    }

    /** The region comes after gap in the list of all regions. */
    method LinkRegion(ckres: Ptr, r: Region, gap: Ptr, ghost k: nat)
      requires Listed() && ckres != NIL && ckres != HEAD && ckres !in table
      requires k <= |regions| && gap == ([HEAD] + regions)[k]
      modifies this`table, this`nextAlloc, this`prevAlloc, this`regions
      ensures Linked([HEAD] + regions, prevAlloc, nextAlloc) && forall x :: x in table <==> x in regions
      ensures table == old(table)[ckres := r] && regions == Insert(old(regions), k, ckres)
    {
      ghost var list, pa, na := [HEAD] + regions, prevAlloc, nextAlloc;
      assert Node(list, prevAlloc, nextAlloc, k);
      table := table[ckres := r];
      nextAlloc := nextAlloc[ckres := nextAlloc[gap]];
      nextAlloc := nextAlloc[gap := ckres];
      prevAlloc := prevAlloc[ckres := gap];
      if nextAlloc[ckres] != NIL {
        prevAlloc := prevAlloc[nextAlloc[ckres] := ckres];
      }
      Link(list, k + 1, ckres, pa, na, prevAlloc, nextAlloc);
      BehindHead(regions, k, ckres);
      forall x
        ensures x in Insert(regions, k, ckres) <==> x in regions || x == ckres
      {
        InsertElements(regions, k, ckres, x);
      }
      regions := Insert(regions, k, ckres);
    }

    /** It comes last in the list of its owner. */
    method GiveRegion(ckres: Ptr, r: Region, ghost others: map<Ptr, Region>)
      requires Assigned(others, prev, next, ioregion, owned) && table == others[ckres := r]
      requires ckres !in others && ckres != NIL && r.owner in ioregion
      modifies this`next, this`prev, this`ioregion, this`owned
      ensures Assigned(table, prev, next, ioregion, owned)
      ensures r.owner in old(owned) && owned == old(owned)[r.owner := old(owned)[r.owner] + [ckres]]
    {
      ghost var prev0, next0, ioregion0 := prev, next, ioregion;
      next := next[ckres := NIL];
      prev := prev[ckres := ioregion[r.owner]];
      if ioregion[r.owner] != NIL {
        next := next[ioregion[r.owner] := ckres];
      }
      ioregion := ioregion[r.owner := ckres];
      AssignedNew(others, prev0, next0, ioregion0, owned, ckres, r, prev, next);
      owned := owned[r.owner := owned[r.owner] + [ckres]];
    }

    /** CKfreeIORegion: the region leaves both lists, and its memory is returned. */
    method FreeIoRegion(res: Ptr)
      requires Woven() && res in table
      modifies this
      ensures Woven() && (old(Valid()) ==> Valid()) && table == old(table) - {res}
      ensures exists k: nat :: k < |old(regions)| && old(regions)[k] == res && regions == Without(old(regions), k)
      ensures var o := old(table)[res].owner;
              && o in old(owned)
              && exists m: nat ::
                   m < |old(owned)[o]| && old(owned)[o][m] == res && owned == old(owned)[o := Without(old(owned)[o], m)]
    {
      ghost var k := UnlinkRegion(res);
      ghost var m := TakeRegion(res);
      table := table - {res};
    }

    method UnlinkRegion(res: Ptr) returns (ghost k: nat)
      requires Listed() && res in table
      modifies this`nextAlloc, this`prevAlloc, this`regions
      ensures k < |old(regions)| && old(regions)[k] == res && regions == Without(old(regions), k)
      ensures Linked([HEAD] + regions, prevAlloc, nextAlloc)
      ensures old(InOrder(regions, table)) ==> InOrder(regions, table - {res})
      ensures forall x :: x in table - {res} <==> x in regions
    {
      k := OthersListed(res);
      ghost var pa, na := prevAlloc, nextAlloc;
      RegionInside(regions, k, pa, na);
      nextAlloc := nextAlloc[prevAlloc[res] := nextAlloc[res]];
      if nextAlloc[res] != NIL {
        prevAlloc := prevAlloc[nextAlloc[res] := prevAlloc[res]];
      }
      RegionUnlinked(regions, k, pa, na, prevAlloc, nextAlloc);
      regions := Without(regions, k);
    }

    lemma OthersListed(res: Ptr) returns (k: nat)
      requires Listed() && res in table
      ensures k < |regions| && regions[k] == res
      ensures InOrder(regions, table) ==> InOrder(Without(regions, k), table - {res})
      ensures forall x :: x in table - {res} <==> x in Without(regions, k)
    {
      k :| 0 <= k < |regions| && regions[k] == res;
      RestDistinct([HEAD] + regions);
      if InOrder(regions, table) { InOrderWithout(regions, table, k); }
      forall x
        ensures x in Without(regions, k) <==> x in regions && x != res
      {
        WithoutElements(regions, k, x);
      }
    }

    lemma RestDistinct(list: seq<Ptr>)
      requires Distinct(list) && list == [HEAD] + regions
      ensures Distinct(regions)
    {
      assert forall i :: 0 <= i < |regions| ==> regions[i] == list[i + 1];
    }

    method TakeRegion(res: Ptr) returns (ghost m: nat)
      requires Assigned(table, prev, next, ioregion, owned) && res in table
      modifies this`next, this`prev, this`ioregion, this`owned
      ensures Assigned(table - {res}, prev, next, ioregion, owned)
      ensures var o := table[res].owner;
              && o in old(owned) && m < |old(owned)[o]| && old(owned)[o][m] == res
              && owned == old(owned)[o := Without(old(owned)[o], m)]
    {
      ghost var prev0, next0, ioregion0 := prev, next, ioregion;
      var o: Ptr := table[res].owner;
      assert Placed(table, owned, res) && Holds(table, prev, next, ioregion, owned, o);
      m :| 0 <= m < |owned[o]| && owned[o][m] == res;
      assert Node(owned[o], prev, next, m);
      var older, newer := prev[res], next[res];
      if older != NIL {
        next := next[older := newer];
      }
      if newer != NIL {
        prev := prev[newer := older];
      } else {
        ioregion := ioregion[o := older];
      }
      AssignedGone(table, prev0, next0, ioregion0, owned, res, m, prev, next, ioregion);
      owned := owned[o := Without(owned[o], m)];
    }
  }
}
