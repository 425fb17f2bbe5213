/** KLfreeListDescriptor: free memory threaded, inside itself, through one address-ordered list
    and eight size lists.

    Every field of KLfreeListEntry is one map from the entry's address to the field.  Fields of
    distinct entries cannot overlap because every entry holds its six fields (FieldsApart).  The
    chunk callbacks are NIL, as the Cache Kernel sets them up. */
module FreeList {
  import opened Machine
  import opened DList
  import opened FreeBlocks
  import opened SizeLists
  import opened Alignment
  import opened Requests
  import opened Headers

  /** The address-ordered list threads exactly the blocks bs, each with its size in its header. */
  ghost predicate InOrder(bs: seq<Block>, first: Ptr, prev: Field, next: Field, size: Field) {
    && Linked(Addrs(bs), prev, next)
    && first == At(Addrs(bs), 0)
    && forall i :: 0 <= i < |bs| ==> bs[i].addr in size && size[bs[i].addr] == bs[i].size
  }

  lemma OrderWithout(bs: seq<Block>, first: Ptr, prev: Field, next: Field, size: Field, k: nat,
                     first': Ptr, prev': Field, next': Field)
    requires InOrder(bs, first, prev, next, size) && k < |bs| && Node(Addrs(bs), prev, next, k)
    requires var e := bs[k].addr;
             && next' == (if prev[e] != NIL then next[prev[e] := next[e]] else next)
             && prev' == (if next[e] != NIL then prev[next[e] := prev[e]] else prev)
             && first' == (if prev[e] != NIL then first else next[e])
    ensures InOrder(Without(bs, k), first', prev', next', size)
    ensures forall a :: a in Addrs(Without(bs, k)) <==> a in Addrs(bs) && a != bs[k].addr
  {
    var s := Addrs(bs);
    if k > 0 { assert Node(s, prev, next, k - 1); }
    Unlink(s, k, prev, next, prev', next');
    assert Addrs(Without(bs, k)) == Without(s, k);
    forall a
      ensures a in Without(s, k) <==> a in s && a != s[k]
    {
      WithoutElements(s, k, a);
    }
  }

  lemma OrderInsert(bs: seq<Block>, first: Ptr, prev: Field, next: Field, size: Field, k: nat, e: Ptr,
                    first': Ptr, prev': Field, next': Field)
    requires InOrder(bs, first, prev, next, size) && k <= |bs| && e != NIL && e in size && e !in Addrs(bs)
    requires var p, n := At(Addrs(bs), k - 1), At(Addrs(bs), k);
             && next' == (if p != NIL then next[e := n][p := e] else next[e := n])
             && prev' == (if n != NIL then prev[e := p][n := e] else prev[e := p])
             && first' == (if p != NIL then first else e)
    ensures InOrder(Insert(bs, k, Block(e, size[e])), first', prev', next', size)
    ensures forall a :: a in Addrs(Insert(bs, k, Block(e, size[e]))) <==> a in Addrs(bs) || a == e
  {
    var s := Addrs(bs);
    if k > 0 { assert Node(s, prev, next, k - 1); }
    Link(s, k, e, prev, next, prev', next');
    assert Addrs(Insert(bs, k, Block(e, size[e]))) == Insert(s, k, e);
    forall a
      ensures a in Insert(s, k, e) <==> a in s || a == e
    {
      InsertElements(s, k, e, a);
    }
  }

  /** The size lists file exactly the blocks bs. */
  ghost predicate Files(v: View, bs: seq<Block>) {
    && Threads(v)
    && (forall i :: 0 <= i < |bs| ==> bs[i].addr in v.size && v.size[bs[i].addr] == bs[i].size)
    && (forall a :: Member(v, a) <==> a in Addrs(bs))
  }

  lemma ClassOf(v: View, bs: seq<Block>, i: nat)
    requires Files(v, bs) && i < |bs|
    ensures bs[i].addr in v.classes[SizeClass(bs[i].size)]
  {
    var a := bs[i].addr;
    assert Addrs(bs)[i] == a && Member(v, a);
    assert Filed(v, a, v.lookup[a]);
  }

  lemma BlockOf(v: View, bs: seq<Block>, c: nat, a: Ptr) returns (k: nat)
    requires Files(v, bs) && c < CLASSES && a in v.classes[c]
    ensures k < |bs| && bs[k] == Block(a, v.size[a]) && SizeClass(bs[k].size) == c
  {
    assert Filed(v, a, c) && Member(v, a);
    k :| 0 <= k < |bs| && Addrs(bs)[k] == a;
  }

  /** best (NIL if there is none) is a smallest entry of s that can serve the request, with left bytes over. */
  ghost predicate Best(s: seq<Ptr>, size: Field, n: nat, best: Ptr, left: nat) {
    && (best != NIL ==> best in s && best in size && size[best] == n + left && Room(left))
    && forall a :: a in s && a in size && Fits(size[a], n) ==> best != NIL && n + left <= size[a]
  }

  /** Among the entries of a size list that leave as much: the first one for a perfect match, else the last. */
  ghost predicate Preferred(s: seq<Ptr>, size: Field, n: nat, best: Ptr, left: nat) {
    exists j: nat :: j < |s| && s[j] == best && OnlyBeyond(s, size, n + left, j, left == 0)
  }

  /** The entry was picked so from the size list of its size. */
  ghost predicate Picked(classes: seq<seq<Ptr>>, size: Field, n: nat, best: Ptr) {
    && best in size && n <= size[best] && |classes| == 8
    && Preferred(classes[SizeClass(size[best])], size, n, best, size[best] - n)
  }

  ghost predicate OnlyBeyond(s: seq<Ptr>, size: Field, bytes: nat, j: nat, exact: bool) {
    forall i :: 0 <= i < |s| && (if exact then i < j else j < i) ==> s[i] !in size || size[s[i]] != bytes
  }

  lemma PreferredStep(s: seq<Ptr>, j: nat, size: Field, n: nat, best: Ptr, left: nat, best': Ptr, left': nat)
    requires j < |s| && s[j] in size && s[j] != NIL && size[s[j]] != n && Room(left)
    requires best != NIL ==> left > 0 && Preferred(s[..j], size, n, best, left)
    requires if Fits(size[s[j]], n) && (best == NIL || size[s[j]] - n <= left) then best' == s[j] && left' == size[s[j]] - n
             else best' == best && left' == left
    ensures best' != NIL ==> Preferred(s[..j + 1], size, n, best', left')
  {
    var t := s[..j + 1];
    if best' == s[j] && left' == size[s[j]] - n && Fits(size[s[j]], n) && (best == NIL || left' <= left) {
      assert t[j] == s[j] && OnlyBeyond(t, size, n + left', j, false);
    } else if best != NIL {
      var k: nat :| k < j && s[..j][k] == best && OnlyBeyond(s[..j], size, n + left, k, false);
      assert forall i :: 0 <= i < j ==> t[i] == s[..j][i];
      assert t[k] == best && OnlyBeyond(t, size, n + left, k, false);
    }
  }

  lemma PreferredExact(s: seq<Ptr>, j: nat, size: Field, n: nat, best: Ptr, left: nat)
    requires j < |s| && s[j] in size && size[s[j]] == n && Best(s[..j], size, n, best, left) && left > 0
    ensures Preferred(s, size, n, s[j], 0)
  {
    assert forall i :: 0 <= i < j ==> s[..j][i] == s[i];
    assert OnlyBeyond(s, size, n, j, true);
  }

  /** The class search is a global search: what it finds first is a best fit among all blocks. */
  lemma BestOfClass(v: View, bs: seq<Block>, t: nat, n: nat, best: Ptr, left: nat) returns (k: nat)
    requires Files(v, bs) && t < CLASSES && Best(v.classes[t], v.size, n, best, left) && best != NIL
    requires forall i :: 0 <= i < |bs| && SizeClass(bs[i].size) < t ==> !Fits(bs[i].size, n)
    ensures BestFit(bs, k, n) && bs[k] == Block(best, n + left) && SizeClass(n + left) == t
  {
    k := BlockOf(v, bs, t, best);
    forall i | 0 <= i < |bs| && Fits(bs[i].size, n)
      ensures bs[k].size <= bs[i].size
    {
      ClassOf(v, bs, i);
      SizeClassMonotone(bs[k].size, bs[i].size);
    }
  }

  lemma NoneOfClass(v: View, bs: seq<Block>, t: nat, n: nat, left: nat)
    requires Files(v, bs) && t < CLASSES && Best(v.classes[t], v.size, n, NIL, left)
    requires forall i :: 0 <= i < |bs| && SizeClass(bs[i].size) < t ==> !Fits(bs[i].size, n)
    ensures forall i :: 0 <= i < |bs| && SizeClass(bs[i].size) < t + 1 ==> !Fits(bs[i].size, n)
  {
    forall i | 0 <= i < |bs| && SizeClass(bs[i].size) == t
      ensures !Fits(bs[i].size, n)
    {
      ClassOf(v, bs, i);
    }
  }

  /** Classes below that of the request hold nothing that is large enough. */
  lemma LowerClasses(bs: seq<Block>, n: nat)
    ensures forall i :: 0 <= i < |bs| && SizeClass(bs[i].size) < SizeClass(n) ==> bs[i].size < n
  {
    forall i | 0 <= i < |bs| && SizeClass(bs[i].size) < SizeClass(n)
      ensures bs[i].size < n
    {
      SizeClassMonotone(bs[i].size, n);
    }
  }

  ghost predicate BestPlace(s: seq<Ptr>, size: Field, a: nat, n: nat, best: Ptr, left: nat)
    requires a > 0
  {
    && (best != NIL ==> best in s && best in size && Tail(Block(best, size[best]), a, n) == left && Room(left))
    && forall e :: e in s && e in size && Admits(Block(e, size[e]), a, n) ==>
         best != NIL && left <= Tail(Block(e, size[e]), a, n)
  }

  /** One entry more: it is taken if it is admitted and leaves no more than the best so far. */
  lemma BestPlaceStep(s: seq<Ptr>, j: nat, size: Field, a: nat, n: nat, best: Ptr, left: nat, best': Ptr, left': nat)
    requires a > 0 && j < |s| && s[j] in size && s[j] != NIL && BestPlace(s[..j], size, a, n, best, left)
    requires var b := Block(s[j], size[s[j]]);
             if Admits(b, a, n) && (best == NIL || Tail(b, a, n) <= left) then best' == s[j] && left' == Tail(b, a, n)
             else best' == best && left' == left
    ensures BestPlace(s[..j + 1], size, a, n, best', left')
  {
    assert s[..j + 1] == s[..j] + [s[j]];
  }

  lemma NothingLeft(s: seq<Ptr>, j: nat, size: Field, a: nat, n: nat)
    requires a > 0 && j < |s| && s[j] in size && s[j] != NIL && Tail(Block(s[j], size[s[j]]), a, n) == 0
    ensures BestPlace(s, size, a, n, s[j], 0)
  {
  }

  /** Among the entries of a size list that leave as much behind their places: the first one if that is
      nothing, else the last. */
  ghost predicate PreferredPlace(s: seq<Ptr>, size: Field, a: nat, n: nat, best: Ptr, left: nat)
    requires a > 0
  {
    exists j: nat :: j < |s| && s[j] == best && OnlyPlaceBeyond(s, size, a, n, left, j)
  }

  ghost predicate OnlyPlaceBeyond(s: seq<Ptr>, size: Field, a: nat, n: nat, left: nat, j: nat)
    requires a > 0
  {
    forall i :: 0 <= i < |s| && (if left == 0 then i < j else j < i) && s[i] in size ==> Tail(Block(s[i], size[s[i]]), a, n) != left
  }

  ghost predicate PickedPlace(classes: seq<seq<Ptr>>, size: Field, a: nat, n: nat, best: Ptr, left: nat)
    requires a > 0
  {
    best in size && |classes| == 8 && PreferredPlace(classes[SizeClass(size[best])], size, a, n, best, left)
  }

  lemma PreferredPlaceStep(s: seq<Ptr>, j: nat, size: Field, a: nat, n: nat, best: Ptr, left: nat, best': Ptr, left': nat)
    requires a > 0 && j < |s| && s[j] in size && s[j] != NIL
    requires best != NIL ==> left > 0 && Room(left) && PreferredPlace(s[..j], size, a, n, best, left)
    requires var b := Block(s[j], size[s[j]]);
             if Admits(b, a, n) && (best == NIL || Tail(b, a, n) <= left) then best' == s[j] && left' == Tail(b, a, n) > 0
             else best' == best && left' == left
    ensures best' != NIL ==> PreferredPlace(s[..j + 1], size, a, n, best', left')
  {
    var t, b := s[..j + 1], Block(s[j], size[s[j]]);
    if Admits(b, a, n) && (best == NIL || Tail(b, a, n) <= left) {
      assert t[j] == s[j] && OnlyPlaceBeyond(t, size, a, n, left', j);
    } else if best != NIL {
      var k: nat :| k < j && s[..j][k] == best && OnlyPlaceBeyond(s[..j], size, a, n, left, k);
      assert forall i :: 0 <= i < j ==> t[i] == s[..j][i];
      assert t[k] == best && OnlyPlaceBeyond(t, size, a, n, left, k);
    }
  }

  lemma PreferredPlaceExact(s: seq<Ptr>, j: nat, size: Field, a: nat, n: nat, best: Ptr, left: nat)
    requires a > 0 && j < |s| && s[j] in size && Tail(Block(s[j], size[s[j]]), a, n) == 0
    requires BestPlace(s[..j], size, a, n, best, left) && left > 0
    ensures PreferredPlace(s, size, a, n, s[j], 0)
  {
    assert forall i :: 0 <= i < j ==> s[..j][i] == s[i];
    assert OnlyPlaceBeyond(s, size, a, n, 0, j);
  }

  lemma PlaceOfClass(v: View, bs: seq<Block>, t: nat, a: nat, n: nat, best: Ptr, left: nat) returns (k: nat)
    requires a > 0 && Files(v, bs) && t < CLASSES && BestPlace(v.classes[t], v.size, a, n, best, left) && best != NIL
    requires forall i :: 0 <= i < |bs| && SizeClass(bs[i].size) < t ==> !Admits(bs[i], a, n)
    ensures AlignedFit(bs, k, a, n) && bs[k].addr == best && Tail(bs[k], a, n) == left
    ensures best in v.size && SizeClass(v.size[best]) == t
  {
    k := BlockOf(v, bs, t, best);
    forall i | 0 <= i < |bs| && SizeClass(bs[i].size) == t && Admits(bs[i], a, n)
      ensures Tail(bs[k], a, n) <= Tail(bs[i], a, n)
    {
      ClassOf(v, bs, i);
      assert bs[i] == Block(bs[i].addr, v.size[bs[i].addr]);
    }
  }

  lemma NoPlaceInClass(v: View, bs: seq<Block>, t: nat, a: nat, n: nat, left: nat)
    requires a > 0 && Files(v, bs) && t < CLASSES && BestPlace(v.classes[t], v.size, a, n, NIL, left)
    requires forall i :: 0 <= i < |bs| && SizeClass(bs[i].size) < t ==> !Admits(bs[i], a, n)
    ensures forall i :: 0 <= i < |bs| && SizeClass(bs[i].size) < t + 1 ==> !Admits(bs[i], a, n)
  {
    forall i | 0 <= i < |bs| && SizeClass(bs[i].size) == t
      ensures !Admits(bs[i], a, n)
    {
      ClassOf(v, bs, i);
      assert bs[i] == Block(bs[i].addr, v.size[bs[i].addr]);
    }
  }

  lemma TooSmall(b: Block, a: nat, n: nat)
    requires a > 0 && b.size < n
    ensures !Admits(b, a, n)
  {
    PlaceLeast(b.addr, a, 0);
  }

  lemma AroundWithout(bs: seq<Block>, k: nat)
    requires k < |bs|
    ensures At(Addrs(Without(bs, k)), k - 1) == At(Addrs(bs), k - 1)
    ensures At(Addrs(Without(bs, k)), k) == At(Addrs(bs), k + 1)
  {
  }

  lemma AroundInsert(bs: seq<Block>, k: nat, b: Block, x: Ptr)
    requires k <= |bs|
    ensures At(Addrs(Insert(bs, k, b)), k) == b.addr
    ensures At(Addrs(Insert(bs, k, b)), k + 1) == At(Addrs(bs), k)
    ensures x !in Addrs(bs) && x != b.addr ==> x !in Addrs(Insert(bs, k, b))
  {
    assert Addrs(Insert(bs, k, b)) == Insert(Addrs(bs), k, b.addr);
    InsertElements(Addrs(bs), k, b.addr, x);
  }

  lemma ReplaceByOne<T>(s: seq<T>, k: nat, x: T)
    requires k < |s|
    ensures Insert(Without(s, k), k, x) == s[..k] + ([x] + s[k + 1..])
  {
    var t := Without(s, k);
    assert t[..k] == s[..k] && t[k..] == s[k + 1..];
  }

  lemma ReplaceByTwo<T>(s: seq<T>, k: nat, x: T, y: T)
    requires k < |s|
    ensures Insert(Insert(Without(s, k), k, x), k + 1, y) == s[..k] + (([x] + [y]) + s[k + 1..])
  {
    ReplaceByOne(s, k, x);
    var t := Insert(Without(s, k), k, x);
    assert t[..k + 1] == s[..k] + [x] && t[k + 1..] == s[k + 1..];
  }

  /** Removing the entry and inserting the remainders one by one is the cut. */
  lemma CarveSteps(bs: seq<Block>, k: nat, p: nat, n: nat)
    requires k < |bs| && bs[k].addr <= p && p + n < bs[k].End()
    ensures var rest, head, tail := Without(bs, k), Block(bs[k].addr, p - bs[k].addr), Block(p + n, bs[k].End() - (p + n));
            Cut(bs, k, p, n) == if p == bs[k].addr then Insert(rest, k, tail) else Insert(Insert(rest, k, head), k + 1, tail)
  {
    var head, tail := Block(bs[k].addr, p - bs[k].addr), Block(p + n, bs[k].End() - (p + n));
    if p == bs[k].addr {
      ReplaceByOne(bs, k, tail);
    } else {
      ReplaceByTwo(bs, k, head, tail);
    }
  }

  lemma OrderShorten(bs: seq<Block>, first: Ptr, prev: Field, next: Field, size: Field, k: nat, n: nat)
    requires InOrder(bs, first, prev, next, size) && k < |bs|
    ensures InOrder(bs[k := Block(bs[k].addr, n)], first, prev, next, size[bs[k].addr := n])
    ensures Addrs(bs[k := Block(bs[k].addr, n)]) == Addrs(bs)
  {
    assert Addrs(bs[k := Block(bs[k].addr, n)]) == Addrs(bs);
    assert forall i :: 0 <= i < |bs| ==> Addrs(bs)[i] == bs[i].addr;
  }

  lemma PositionUnique(bs: seq<Block>, p: nat, i: nat)
    requires Coalesced(bs) && i <= |bs|
    requires i > 0 ==> bs[i - 1].addr <= p
    requires i < |bs| ==> p < bs[i].addr
    ensures Position(bs, p) == i
  {
  }

  // ---------- joining a freed range with its neighbours, one at a time ----------

  /** [p, p+n), which ends before block k, is joined with block k if it touches it. */
  function JoinRight(bs: seq<Block>, k: nat, p: nat, n: nat): seq<Block>
    requires k <= |bs|
  {
    if k < |bs| && p + n == bs[k].addr then Insert(Without(bs, k), k, Block(p, n + bs[k].size)) else Insert(bs, k, Block(p, n))
  }

  function JoinLeft(bs: seq<Block>, k: nat, p: nat, n: nat): seq<Block>
    requires k <= |bs|
  {
    if k > 0 && bs[k - 1].End() == p then JoinRight(Without(bs, k - 1), k - 1, bs[k - 1].addr, n + bs[k - 1].size)
    else JoinRight(bs, k, p, n)
  }

  lemma SpliceWithout(bs: seq<Block>, k: nat, hi: nat, mid: seq<Block>)
    requires k < hi <= |bs|
    ensures Splice(Without(bs, k), k, hi - 1, mid) == Splice(bs, k, hi, mid)
  {
    assert Without(bs, k)[..k] == bs[..k] && Without(bs, k)[hi - 1..] == bs[hi..];
  }

  /** [p, p+n) joined with the block before block k, or with block k, or with both. */
  function Joined(bs: seq<Block>, k: nat, p: nat, n: nat, left: bool, right: bool): seq<Block>
    requires (if left then 1 else 0) <= k <= |bs| - (if right then 1 else 0)
  {
    Splice(bs, if left then k - 1 else k, if right then k + 1 else k,
           [Block(if left then bs[k - 1].addr else p,
                  (if left then bs[k - 1].size else 0) + n + (if right then bs[k].size else 0))])
  }

  lemma JoinRightIs(bs: seq<Block>, k: nat, p: nat, n: nat, right: bool)
    requires k <= |bs| && (right <==> k < |bs| && p + n == bs[k].addr)
    ensures JoinRight(bs, k, p, n) == Joined(bs, k, p, n, false, right)
  {
    if right {
      ReplaceByOne(bs, k, Block(p, n + bs[k].size));
    } else {
      Assoc(bs[..k], [Block(p, n)], bs[k..]);
    }
  }

  lemma Assoc(a: seq<Block>, b: seq<Block>, c: seq<Block>)
    ensures a + b + c == a + (b + c)
  {
  }

  lemma BehindWithout(bs: seq<Block>, k: nat)
    requires 0 < k <= |bs|
    ensures |Without(bs, k - 1)| == |bs| - 1 && (k < |bs| ==> Without(bs, k - 1)[k - 1] == bs[k])
  {
  }

  lemma JoinedWithout(bs: seq<Block>, k: nat, n: nat, right: bool)
    requires 0 < k <= |bs| - if right then 1 else 0
    ensures |Without(bs, k - 1)| == |bs| - 1
    ensures Joined(Without(bs, k - 1), k - 1, bs[k - 1].addr, n + bs[k - 1].size, false, right) ==
            Joined(bs, k, bs[k - 1].End(), n, true, right)
  {
    BehindWithout(bs, k);
    SpliceWithout(bs, k - 1, if right then k + 1 else k,
                  [Block(bs[k - 1].addr, bs[k - 1].size + n + if right then bs[k].size else 0)]);
  }

  lemma JoinLeftIs(bs: seq<Block>, k: nat, p: nat, n: nat, left: bool, right: bool)
    requires k <= |bs| && (left <==> k > 0 && bs[k - 1].End() == p) && (right <==> k < |bs| && p + n == bs[k].addr)
    ensures JoinLeft(bs, k, p, n) == Joined(bs, k, p, n, left, right)
  {
    if left {
      BehindWithout(bs, k);
      JoinRightIs(Without(bs, k - 1), k - 1, bs[k - 1].addr, n + bs[k - 1].size, right);
      JoinedWithout(bs, k, n, right);
    } else {
      JoinRightIs(bs, k, p, n, right);
    }
  }

  lemma ReleaseIs(bs: seq<Block>, k: nat, p: nat, n: nat, left: bool, right: bool)
    requires k == Position(bs, p)
    requires (left <==> k > 0 && bs[k - 1].End() == p) && (right <==> k < |bs| && p + n == bs[k].addr)
    ensures Release(bs, p, n) == Joined(bs, k, p, n, left, right)
  {
  }

  /** Joining on the left and then on the right is the release. */
  lemma JoinIsRelease(bs: seq<Block>, p: nat, n: nat)
    ensures JoinLeft(bs, Position(bs, p), p, n) == Release(bs, p, n)
  {
    var k := Position(bs, p);
    var left, right := k > 0 && bs[k - 1].End() == p, k < |bs| && p + n == bs[k].addr;
    JoinLeftIs(bs, k, p, n, left, right);
    ReleaseIs(bs, k, p, n, left, right);
  }

  lemma NotAmongRest(bs: seq<Block>, k: nat, x: Ptr)
    requires k < |bs| && Distinct(Addrs(bs)) && (x !in Addrs(bs) || x == bs[k].addr)
    ensures x !in Addrs(Without(bs, k))
  {
    assert Addrs(Without(bs, k)) == Without(Addrs(bs), k);
    WithoutElements(Addrs(bs), k, x);
  }

  /** [p, p+n) lies between blocks k - 1 and k. */
  ghost predicate Between(bs: seq<Block>, k: nat, p: nat, n: nat) {
    && k <= |bs| && 0 < p && p + n <= WORD && p !in Addrs(bs)
    && (k > 0 ==> bs[k - 1].addr != NIL && bs[k - 1].End() <= p < WORD)
    && (k < |bs| ==> p + n <= bs[k].addr < WORD)
  }

  /** The range has become [start, start+m), and place k place j, if it touches the block before it. */
  ghost predicate LeftJoined(bs: seq<Block>, k: nat, p: nat, n: nat, bs': seq<Block>, j: nat, start: nat, m: nat)
    requires k <= |bs|
  {
    if k > 0 && bs[k - 1].End() == p
    then j == k - 1 && bs' == Without(bs, j) && start == bs[j].addr && m == n + bs[j].size
    else j == k && bs' == bs && start == p && m == n
  }

  lemma LeftThenRight(bs: seq<Block>, k: nat, p: nat, n: nat, bs': seq<Block>, j: nat, start: nat, m: nat)
    requires Between(bs, k, p, n) && LeftJoined(bs, k, p, n, bs', j, start, m)
    ensures j <= |bs'| && JoinRight(bs', j, start, m) == JoinLeft(bs, k, p, n)
    ensures start + m <= WORD && (j < |bs'| ==> start + m <= bs'[j].addr < WORD)
  {
    if j < k { BehindWithout(bs, k); }
  }

  /** What the caller of Merge knows about a coalesced list. */
  lemma FreeFacts(bs: seq<Block>, p: nat, n: nat)
    requires Coalesced(bs) && Releasable(bs, p, n)
    ensures Between(bs, Position(bs, p), p, n)
    ensures JoinLeft(bs, Position(bs, p), p, n) == Release(bs, p, n)
    ensures Balanced(Release(bs, p, n), Total(bs) + n)
  {
    PositionSplits(bs, p, n);
    JoinIsRelease(bs, p, n);
    ReleaseCoalesced(bs, p, n);
    ReleaseTotal(bs, p, n);
    NotListed(bs, p, n);
  }

  lemma NotListed(bs: seq<Block>, p: nat, n: nat)
    requires Coalesced(bs) && Releasable(bs, p, n)
    ensures p !in Addrs(bs)
  {
    assert forall i :: 0 <= i < |bs| ==> Addrs(bs)[i] == bs[i].addr;
  }

  class Descriptor {
    // Desc->FirstFreeEntry, Desc->FirstFreeSizeEntry, Desc->FreeMemory
    var firstFreeEntry: Ptr
    const firstFreeSizeEntry: array<Ptr>
    var freeMemory: int

    // the fields of the entries, by address
    var prev: Field
    var next: Field
    var prevSize: Field
    var nextSize: Field
    var size: Field
    var lookup: Field

    // the free blocks in address order, and the contents of the size lists
    ghost var blocks: seq<Block>
    ghost var classes: seq<seq<Ptr>>

    ghost function SizeView(): View
      reads this, firstFreeSizeEntry
    {
      View(classes, firstFreeSizeEntry[..], prevSize, nextSize, lookup, size)
    }

    ghost predicate Filing()
      reads this, firstFreeSizeEntry
    {
      firstFreeSizeEntry.Length == CLASSES && Threads(SizeView())
    }

    ghost predicate Ordered()
      reads this
    {
      InOrder(blocks, firstFreeEntry, prev, next, size)
    }

    /** Both link structures are intact and thread the same entries. */
    ghost predicate Threaded()
      reads this, firstFreeSizeEntry
    {
      && Filing() && Ordered()
      && forall a :: Member(SizeView(), a) <==> a in Addrs(blocks)
    }

    ghost predicate Valid()
      reads this, firstFreeSizeEntry
    {
      Threaded() && Balanced(blocks, freeMemory)
    }

    constructor ()
      ensures Valid() && blocks == [] && fresh(firstFreeSizeEntry)
    {
      firstFreeEntry := NIL;
      firstFreeSizeEntry := new Ptr[8](i => NIL);
      freeMemory := 0;
      prev, next, prevSize, nextSize, size, lookup := map[], map[], map[], map[], map[], map[];
      blocks := [];
      classes := [[], [], [], [], [], [], [], []];
    }

    method SizeRemove(entry: Ptr)
      requires Filing() && Member(SizeView(), entry)
      modifies this`prevSize, this`nextSize, this`classes, firstFreeSizeEntry
      ensures Filing()
      ensures classes == old(classes)[lookup[entry] := Minus(old(classes)[lookup[entry]], entry)]
      ensures forall a :: Member(SizeView(), a) <==> old(Member(SizeView(), a)) && a != entry
    {
      ghost var v := SizeView();
      assert Node(classes[lookup[entry]], prevSize, nextSize, IndexOf(classes[lookup[entry]], entry));
      if nextSize[entry] != NIL {
        prevSize := prevSize[nextSize[entry] := prevSize[entry]];
      }
      if prevSize[entry] != NIL {
        nextSize := nextSize[prevSize[entry] := nextSize[entry]];
      } else {
        firstFreeSizeEntry[lookup[entry]] := nextSize[entry];
      }
      classes := classes[lookup[entry] := Minus(classes[lookup[entry]], entry)];
      Unfile(v, entry, SizeView());
    }

    method SizeInsert(entry: Ptr)
      requires Filing() && !Member(SizeView(), entry) && entry != NIL && entry in size
      modifies this`prevSize, this`nextSize, this`lookup, this`classes, firstFreeSizeEntry
      ensures Filing()
      ensures var c := SizeClass(size[entry]); classes == old(classes)[c := [entry] + old(classes)[c]]
      ensures forall a :: Member(SizeView(), a) <==> old(Member(SizeView(), a)) || a == entry
    {
      ghost var v := SizeView();
      var tableNo := SizeClass(size[entry]);
      lookup := lookup[entry := tableNo];
      prevSize := prevSize[entry := NIL];
      nextSize := nextSize[entry := firstFreeSizeEntry[tableNo]];
      if nextSize[entry] != NIL {
        prevSize := prevSize[nextSize[entry] := entry];
      }
      firstFreeSizeEntry[tableNo] := entry;
      classes := classes[tableNo := [entry] + classes[tableNo]];
      File(v, entry, SizeView());
    }

    method Remove(entry: Ptr, ghost k: nat)
      requires Threaded() && k < |blocks| && blocks[k].addr == entry
      modifies this`firstFreeEntry, this`prev, this`next, this`prevSize, this`nextSize, this`blocks, this`classes, firstFreeSizeEntry
      ensures Threaded() && blocks == Without(old(blocks), k)
    {
      assert Node(Addrs(blocks), prev, next, k) && Addrs(blocks)[k] in Addrs(blocks);
      if prev[entry] != NIL {
        next := next[prev[entry] := next[entry]];
      } else {
        firstFreeEntry := next[entry];
      }
      if next[entry] != NIL {
        prev := prev[next[entry] := prev[entry]];
      }
      SizeRemove(entry);
      blocks := Without(blocks, k);
      OrderWithout(old(blocks), old(firstFreeEntry), old(prev), old(next), size, k, firstFreeEntry, prev, next);
    }

    method InsertEntry(preventry: Ptr, entry: Ptr, nextentry: Ptr, ghost k: nat)
      requires Threaded() && k <= |blocks|
      requires preventry == At(Addrs(blocks), k - 1) && nextentry == At(Addrs(blocks), k)
      requires entry != NIL && entry in size && entry !in Addrs(blocks)
      modifies this`firstFreeEntry, this`prev, this`next, this`prevSize, this`nextSize, this`lookup, this`blocks, this`classes, firstFreeSizeEntry
      ensures Threaded() && blocks == Insert(old(blocks), k, Block(entry, size[entry]))
    {
      prev := prev[entry := preventry];
      next := next[entry := nextentry];
      if preventry != NIL {
        next := next[preventry := entry];
      } else {
        firstFreeEntry := entry;
      }
      if nextentry != NIL {
        prev := prev[nextentry := entry];
      }
      SizeInsert(entry);
      blocks := Insert(blocks, k, Block(entry, size[entry]));
      OrderInsert(old(blocks), old(firstFreeEntry), old(prev), old(next), size, k, entry, firstFreeEntry, prev, next);
    }

    /** entry->size = n, for a header that is on no list. */
    method SetSize(entry: Ptr, n: nat)
      requires Threaded() && entry !in Addrs(blocks)
      modifies this`size
      ensures Threaded() && size == old(size)[entry := n]
    {
      Resize(SizeView(), entry, n);
      assert forall i :: 0 <= i < |blocks| ==> Addrs(blocks)[i] == blocks[i].addr;
      size := size[entry := n];
    }

    /** newentry->size = n and the insertion of the new entry between its neighbours. */
    method PutBack(prevEntry: Ptr, entry: Ptr, n: nat, nextEntry: Ptr, ghost k: nat)
      requires Threaded() && k <= |blocks|
      requires prevEntry == At(Addrs(blocks), k - 1) && nextEntry == At(Addrs(blocks), k)
      requires entry != NIL && entry !in Addrs(blocks)
      modifies this, firstFreeSizeEntry
      ensures Threaded() && blocks == Insert(old(blocks), k, Block(entry, n))
      ensures freeMemory == old(freeMemory)
    {
      SetSize(entry, n);
      InsertEntry(prevEntry, entry, nextEntry, k);
    }

    /** An entry for the bytes before the block taken, and one for those behind it. */
    method PutBoth(prevEntry: Ptr, entry: Ptr, n: nat, tail: Ptr, left: nat, nextEntry: Ptr, ghost k: nat)
      requires Threaded() && k <= |blocks|
      requires prevEntry == At(Addrs(blocks), k - 1) && nextEntry == At(Addrs(blocks), k)
      requires entry != NIL && entry !in Addrs(blocks) && tail != NIL && tail !in Addrs(blocks) && tail != entry
      modifies this, firstFreeSizeEntry
      ensures Threaded() && blocks == Insert(Insert(old(blocks), k, Block(entry, n)), k + 1, Block(tail, left))
      ensures freeMemory == old(freeMemory)
    {
      AroundInsert(blocks, k, Block(entry, n), tail);
      PutBack(prevEntry, entry, n, nextEntry, k);
      PutBack(entry, tail, left, nextEntry, k + 1);
    }

    /** Replaces a chosen entry by what the allocation [place, place+n) leaves of it. */
    method Carve(entry: Ptr, place: Ptr, n: nat, left: nat, ghost k: nat)
      requires Threaded() && Takeable(blocks, k, entry, place, n, left) && left > 0
      modifies this, firstFreeSizeEntry
      ensures Threaded() && blocks == Cut(old(blocks), k, place, n)
      ensures freeMemory == old(freeMemory) - n
    {
      assert Node(Addrs(blocks), prev, next, k);
      var prevEntry, nextEntry := prev[entry], next[entry];
      AroundWithout(blocks, k);
      CarveSteps(blocks, k, place, n);
      Remove(entry, k);
      if place != entry {
        PutBoth(prevEntry, entry, place - entry, place + n, left, nextEntry, k);
      } else {
        PutBack(prevEntry, place + n, left, nextEntry, k);
      }
      freeMemory := freeMemory - n;
    }

    /** The inner loop of KLfreeListMemAlloc: one size list; bestLeft == 0 on a perfect match. */
    method SearchClass(tableNo: nat, n: nat) returns (bestEntry: Ptr, bestLeft: nat)
      requires Valid() && n < WORD && tableNo < CLASSES
      ensures Best(classes[tableNo], size, n, bestEntry, bestLeft)
      ensures bestEntry != NIL ==> Preferred(classes[tableNo], size, n, bestEntry, bestLeft)
    {
      bestEntry, bestLeft := NIL, WORD - 1;
      var entry := firstFreeSizeEntry[tableNo];
      ghost var s, j := classes[tableNo], 0;
      while entry != NIL
        invariant j <= |s| && entry == At(s, j)
        invariant Best(s[..j], size, n, bestEntry, bestLeft)
        invariant bestEntry != NIL ==> Preferred(s[..j], size, n, bestEntry, bestLeft)
        invariant if bestEntry == NIL then bestLeft == WORD - 1 else bestLeft > 0
        decreases |s| - j
      {
        assert Node(s, prevSize, nextSize, j);
        ghost var k := BlockOf(SizeView(), blocks, tableNo, entry);
        assert s[..j + 1] == s[..j] + [entry];
        ghost var best0, left0 := bestEntry, bestLeft;
        if n <= size[entry] {
          var left := size[entry] - n;
          if left != 0 {
            if left >= HEADER {
              if left <= bestLeft {
                bestLeft, bestEntry := left, entry;
              }
            }
          } else {
            PreferredExact(s, j, size, n, bestEntry, bestLeft);
            return entry, 0;
          }
        }
        PreferredStep(s, j, size, n, best0, left0, bestEntry, bestLeft);
        entry := nextSize[entry];
        j := j + 1;
      }
      assert j < |s| ==> Node(s, prevSize, nextSize, j);
      assert s[..j] == s;
    }

    /** The search loops of KLfreeListMemAlloc. */
    method Search(n: nat) returns (bestEntry: Ptr, bestLeft: nat)
      requires Valid() && n < WORD
      ensures bestEntry == NIL ==> forall i :: 0 <= i < |blocks| ==> !Fits(blocks[i].size, n)
      ensures bestEntry != NIL ==> exists k: nat :: BestFit(blocks, k, n) && blocks[k] == Block(bestEntry, n + bestLeft)
      ensures bestEntry != NIL ==> Picked(classes, size, n, bestEntry)
    {
      var tableNo := SizeClass(n);
      LowerClasses(blocks, n);
      while tableNo < 8
        invariant tableNo <= 8
        invariant forall i :: 0 <= i < |blocks| && SizeClass(blocks[i].size) < tableNo ==> !Fits(blocks[i].size, n)
      {
        bestEntry, bestLeft := SearchClass(tableNo, n);
        if bestEntry != NIL {
          ghost var k := BestOfClass(SizeView(), blocks, tableNo, n, bestEntry, bestLeft);
          return;
        }
        NoneOfClass(SizeView(), blocks, tableNo, n, bestLeft);
        tableNo := tableNo + 1;
      }
      return NIL, 0;
    }

    method MemAlloc(request: nat) returns (r: Ptr)
      requires Valid() && request < WORD
      modifies this, firstFreeSizeEntry
      ensures Valid()
      ensures r == NIL ==> blocks == old(blocks)
      ensures r == NIL ==> forall i :: 0 <= i < |blocks| ==> !Fits(blocks[i].size, Adjusted(request))
      ensures r != NIL ==> exists k: nat :: Allocated(old(blocks), k, r, Adjusted(request), blocks)
      ensures forall i :: 0 <= i < |blocks| ==> HoldsEntry(blocks[i])
      ensures r == NIL ==> forall i :: 0 <= i < |blocks| ==> !Cuttable(blocks[i], Adjusted(request))
      ensures r != NIL ==> exists k: nat ::
        && SmallestCuttable(old(blocks), k, Adjusted(request)) && old(blocks)[k].addr == r
        && blocks == Cut(old(blocks), k, r, Adjusted(request))
      ensures r != NIL ==> Picked(old(classes), old(size), Adjusted(request), r)
    {
      var n := Adjusted(request);
      PlainMeans(blocks, n);
      EntriesHold(blocks);
      var entry, left := Search(n);
      if entry == NIL { return NIL; }
      ghost var k: nat :| BestFit(blocks, k, n) && blocks[k] == Block(entry, n + left);
      r := entry;
      FrontFacts(blocks, k, n, left);
      Take(entry, r, n, left, k);
      EntriesHold(blocks);
      assert Allocated(old(blocks), k, r, n, blocks) && SmallestCuttable(old(blocks), k, n);
    }

    /** The inner loop of KLfreeListMemAllocAlign: one size list, for the boundary a == 1 << alignment. */
    method SearchClassAligned(tableNo: nat, n: nat, a: nat) returns (bestEntry: Ptr, result: Ptr, bestLeft: nat)
      requires Valid() && n < WORD && tableNo < CLASSES && 0 < a <= 0x8000_0000 && WORD % a == 0
      ensures BestPlace(classes[tableNo], size, a, n, bestEntry, bestLeft)
      ensures bestEntry != NIL ==> result == Wrapped(Place(bestEntry, a))
      ensures bestEntry != NIL ==> PreferredPlace(classes[tableNo], size, a, n, bestEntry, bestLeft)
    {
      bestEntry, result, bestLeft := NIL, 0, WORD - 1;
      var entry := firstFreeSizeEntry[tableNo];
      ghost var s, j := classes[tableNo], 0;
      while entry != NIL
        invariant j <= |s| && entry == At(s, j)
        invariant BestPlace(s[..j], size, a, n, bestEntry, bestLeft)
        invariant bestEntry != NIL ==> PreferredPlace(s[..j], size, a, n, bestEntry, bestLeft)
        invariant if bestEntry == NIL then bestLeft == WORD - 1 else bestLeft > 0 && result == Wrapped(Place(bestEntry, a))
        decreases |s| - j
      {
        assert Node(s, prevSize, nextSize, j);
        ghost var k := BlockOf(SizeView(), blocks, tableNo, entry);
        ghost var best0, left0 := bestEntry, bestLeft;
        if n <= size[entry] {
          var data, left := FitAligned(entry, size[entry], a);
          if left >= n {
            left := left - n;
            if left != 0 {
              if left >= HEADER {
                if left <= bestLeft {
                  bestLeft, bestEntry, result := left, entry, data;
                }
              }
            } else {
              NothingLeft(s, j, size, a, n);
              PreferredPlaceExact(s, j, size, a, n, bestEntry, bestLeft);
              return entry, data, 0;
            }
          }
        } else {
          TooSmall(blocks[k], a, n);
        }
        BestPlaceStep(s, j, size, a, n, best0, left0, bestEntry, bestLeft);
        PreferredPlaceStep(s, j, size, a, n, best0, left0, bestEntry, bestLeft);
        entry := nextSize[entry];
        j := j + 1;
      }
      assert j < |s| ==> Node(s, prevSize, nextSize, j);
      assert s[..j] == s;
    }

    /** The search loops of KLfreeListMemAllocAlign. */
    method SearchAligned(n: nat, a: nat) returns (bestEntry: Ptr, result: Ptr, bestLeft: nat)
      requires Valid() && n < WORD && 0 < a <= 0x8000_0000 && WORD % a == 0
      ensures bestEntry == NIL ==> forall i :: 0 <= i < |blocks| ==> !Admits(blocks[i], a, n)
      ensures bestEntry != NIL ==> result == Wrapped(Place(bestEntry, a))
      ensures bestEntry != NIL ==>
                exists k: nat :: AlignedFit(blocks, k, a, n) && blocks[k].addr == bestEntry && bestLeft == Tail(blocks[k], a, n)
      ensures bestEntry != NIL ==> PickedPlace(classes, size, a, n, bestEntry, bestLeft)
    {
      var tableNo := SizeClass(n);
      LowerClasses(blocks, n);
      forall i | 0 <= i < |blocks| && blocks[i].size < n
        ensures !Admits(blocks[i], a, n)
      {
        TooSmall(blocks[i], a, n);
      }
      while tableNo < 8
        invariant tableNo <= 8
        invariant forall i :: 0 <= i < |blocks| && SizeClass(blocks[i].size) < tableNo ==> !Admits(blocks[i], a, n)
      {
        bestEntry, result, bestLeft := SearchClassAligned(tableNo, n, a);
        if bestEntry != NIL {
          ghost var k := PlaceOfClass(SizeView(), blocks, tableNo, a, n, bestEntry, bestLeft);
          return;
        }
        NoPlaceInClass(SizeView(), blocks, tableNo, a, n, bestLeft);
        tableNo := tableNo + 1;
      }
      return NIL, 0, 0;
    }

    /** The entry keeps only its first n bytes, and moves to the size list of its new size. */
    method Shorten(entry: Ptr, n: nat, ghost k: nat)
      requires Threaded() && k < |blocks| && blocks[k].addr == entry
      modifies this`size, this`prevSize, this`nextSize, this`lookup, this`blocks, this`classes, firstFreeSizeEntry
      ensures Threaded() && blocks == old(blocks)[k := Block(entry, n)]
    {
      assert Addrs(blocks)[k] in Addrs(blocks) && Node(Addrs(blocks), prev, next, k);
      SizeRemove(entry);
      Resize(SizeView(), entry, n);
      size := size[entry := n];
      SizeInsert(entry);
      blocks := blocks[k := Block(entry, n)];
      OrderShorten(old(blocks), firstFreeEntry, prev, next, old(size), k, n);
    }

    /** Takes [place, place+n) out of a chosen entry.  Either left bytes stay behind it; or none, and
        then the entry is given up, or ends where the block begins. */
    method Take(entry: Ptr, place: Ptr, n: nat, left: nat, ghost k: nat)
      requires Threaded() && Takeable(blocks, k, entry, place, n, left)
      modifies this, firstFreeSizeEntry
      ensures Threaded() && blocks == Remaining(old(blocks), k, place, n, left)
      ensures freeMemory == old(freeMemory) - n
    {
      if left != 0 {
        Carve(entry, place, n, left, k);
      } else {
        if place == entry {
          Remove(entry, k);
        } else {
          Shorten(entry, (place - entry) % WORD, k);
        }
        freeMemory := freeMemory - n;
      }
    }

    /** Both lists stay linked and file the same entries, whatever the request.  If it was not rounded
        to 0, the descriptor stays sound and the result is an aligned block or NIL; if it was, the
        descriptor is sound afterwards exactly if the lowest place in the entry chosen is its
        beginning or its end. */
    method MemAllocAlign(request: nat, alignment: nat) returns (r: Ptr)
      requires Valid() && request < WORD && alignment < 32
      modifies this, firstFreeSizeEntry
      ensures Threaded()
      ensures AlignedOutcome(old(blocks), Pow2(alignment), Adjusted(request), r, blocks, freeMemory)
      ensures Adjusted(request) > 0 ==> forall i :: 0 <= i < |blocks| ==> HoldsEntry(blocks[i])
      ensures Adjusted(request) > 0 && r == NIL ==>
        forall i, p: nat :: 0 <= i < |blocks| && Lowest(blocks[i].addr, Pow2(alignment), p) ==>
          !Placeable(blocks[i], p, Adjusted(request))
      ensures Adjusted(request) > 0 && r != NIL ==>
        exists k: nat :: LowestPlaceable(old(blocks), k, Pow2(alignment), r, Adjusted(request))
                         && blocks == Cut(old(blocks), k, r, Adjusted(request))
    {
      var n, a := Adjusted(request), Pow2(alignment);
      WordIsMultiple(alignment);
      var entry, result, left := SearchAligned(n, a);
      if entry == NIL {
        OutcomeNil(blocks, a, n);
        r := NIL;
      } else {
        ghost var k: nat :| AlignedFit(blocks, k, a, n) && blocks[k].addr == entry && left == Tail(blocks[k], a, n);
        r := result;
        PlaceFits(entry, a);
        OutcomeOf(blocks, k, a, n, r);
        Take(entry, r, n, left, k);
      }
      if n > 0 {
        EntriesHold(blocks);
        AlignedResultMeans(old(blocks), a, n, r, blocks);
      }
    }

    method MemFree(data: Ptr, request: nat)
      requires Valid() && Releasable(blocks, data, Adjusted(request))
      modifies this, firstFreeSizeEntry
      ensures Valid() && blocks == Release(old(blocks), data, Adjusted(request))
    {
      var n := Adjusted(request);
      freeMemory := freeMemory + n;
      var prevEntry, nextEntry := Neighbours(data);
      FreeFacts(blocks, data, n);
      Merge(prevEntry, nextEntry, data, n, Position(blocks, data));
    }

    /** An entry next to a freed block leaves both structures, to come back as a part of that block. */
    method Absorb(entry: Ptr, start: Ptr, ghost k: nat)
      requires Threaded() && k < |blocks| && blocks[k].addr == entry && entry != NIL
      requires start !in Addrs(blocks) || start == entry
      modifies this, firstFreeSizeEntry
      ensures Threaded() && blocks == Without(old(blocks), k) && freeMemory == old(freeMemory)
      ensures start !in Addrs(blocks)
      ensures At(Addrs(blocks), k - 1) == old(At(Addrs(blocks), k - 1))
      ensures At(Addrs(blocks), k) == old(At(Addrs(blocks), k + 1))
    {
      AroundWithout(blocks, k);
      NotAmongRest(blocks, k, start);
      Remove(entry, k);
    }

    /** Coalesces [data, data+length) with the entry before it, if it touches it. */
    method MergePrev(before: Ptr, data: Ptr, length: nat, ghost k: nat)
      returns (prevEntry: Ptr, start: Ptr, n: nat, ghost j: nat)
      requires Threaded() && k <= |blocks| && before == At(Addrs(blocks), k - 1)
      requires 0 < data && data !in Addrs(blocks)
      requires k > 0 ==> blocks[k - 1].addr != NIL && blocks[k - 1].End() <= data < WORD
      modifies this, firstFreeSizeEntry
      ensures Threaded() && freeMemory == old(freeMemory)
      ensures LeftJoined(old(blocks), k, data, length, blocks, j, start, n)
      ensures start > 0 && start !in Addrs(blocks)
      ensures prevEntry == At(Addrs(blocks), j - 1) && At(Addrs(blocks), j) == old(At(Addrs(blocks), k))
    {
      prevEntry, start, n, j := before, data, length, k;
      if prevEntry != NIL {
        assert Node(Addrs(blocks), prev, next, k - 1) && size[prevEntry] == blocks[k - 1].size;
        if (prevEntry + size[prevEntry]) % WORD == start {
          var entry := prevEntry;
          start, n := entry, n + size[entry];
          prevEntry := prev[prevEntry];
          j := k - 1;
          Absorb(entry, start, j);
        }
      }
    }

    /** Coalesces [data, data+length) with the entries on both sides, so far as it touches them. */
    method Merge(before: Ptr, nextEntry: Ptr, data: Ptr, length: nat, ghost k: nat)
      requires Threaded() && k <= |blocks|
      requires before == At(Addrs(blocks), k - 1) && nextEntry == At(Addrs(blocks), k)
      requires Between(blocks, k, data, length)
      modifies this, firstFreeSizeEntry
      ensures Threaded() && blocks == JoinLeft(old(blocks), k, data, length)
      ensures freeMemory == old(freeMemory)
    {
      var prevEntry, start, n;
      ghost var j;
      prevEntry, start, n, j := MergePrev(before, data, length, k);
      LeftThenRight(old(blocks), k, data, length, blocks, j, start, n);
      MergeNext(prevEntry, nextEntry, start, n, j);
    }

    /** Coalesces [start, start+length) with the entry after it, if it touches it. */
    method MergeNext(prevEntry: Ptr, after: Ptr, start: Ptr, length: nat, ghost k: nat)
      requires Threaded() && k <= |blocks|
      requires prevEntry == At(Addrs(blocks), k - 1) && after == At(Addrs(blocks), k)
      requires 0 < start && start + length <= WORD && start !in Addrs(blocks)
      requires k < |blocks| ==> start + length <= blocks[k].addr < WORD
      modifies this, firstFreeSizeEntry
      ensures Threaded() && blocks == JoinRight(old(blocks), k, start, length)
      ensures freeMemory == old(freeMemory)
    {
      var nextEntry: Ptr, n: nat := after, length;
      if nextEntry != NIL {
        if (start + n) % WORD == nextEntry {
          var entry := nextEntry;
          assert Node(Addrs(blocks), prev, next, k);
          n := n + size[nextEntry];
          nextEntry := next[nextEntry];
          Absorb(entry, start, k);
        }
      }
      assert Insert(blocks, k, Block(start, n)) == JoinRight(old(blocks), k, start, length);
      PutBack(prevEntry, start, n, nextEntry, k);
    }

    /** The walk along the address list: the free entries before and after data. */
    method Neighbours(data: Ptr) returns (prevEntry: Ptr, nextEntry: Ptr)
      requires Ordered() && Coalesced(blocks)
      ensures prevEntry == At(Addrs(blocks), Position(blocks, data) - 1)
      ensures nextEntry == At(Addrs(blocks), Position(blocks, data))
    {
      prevEntry, nextEntry := NIL, firstFreeEntry;
      if nextEntry != NIL {
        ghost var i := 0;
        assert Node(Addrs(blocks), prev, next, 0);
        while next[nextEntry] != NIL
          invariant i < |blocks| && nextEntry == blocks[i].addr && nextEntry in next
          invariant i > 0 ==> blocks[i - 1].addr <= data
          decreases |blocks| - i
        {
          if data < nextEntry { break; }
          assert Node(Addrs(blocks), prev, next, i) && Node(Addrs(blocks), prev, next, i + 1);
          nextEntry := next[nextEntry];
          i := i + 1;
        }
        assert Node(Addrs(blocks), prev, next, i);
        if data < nextEntry {
          PositionUnique(blocks, data, i);
          prevEntry := prev[nextEntry];
        } else {
          PositionUnique(blocks, data, i + 1);
          prevEntry := nextEntry;
          nextEntry := NIL;
        }
      }
    }
  }

  /** x rounded up, and the distance to there from the entry before it. */
  method Rounded(entry: Ptr, x: nat, a: nat) returns (data: Ptr, left: nat)
    requires 0 < entry <= x <= WORD && 0 < a <= 0x8000_0000 && WORD % a == 0
    ensures x <= Up(x, a) <= WORD && data == Wrapped(Up(x, a)) && left == Up(x, a) - entry
  {
    AlignedOffset(entry, x, a);
    AlignUp32Value(x, a);
    UpBounds(x, a);
    data := AlignUp32(x, a);
    left := (data - entry) % WORD;
  }

  /** Lines 227-239: the aligned address inside an entry, in 32-bit arithmetic, and the bytes
      from there to the end of the entry. */
  method FitAligned(entry: Ptr, size: nat, a: nat) returns (data: Ptr, left: nat)
    requires 0 < entry && HEADER <= size && entry + size <= WORD
    requires 0 < a <= 0x8000_0000 && WORD % a == 0
    ensures entry <= Place(entry, a) <= WORD && left == Behind(Block(entry, size), a)
    ensures data == Wrapped(Place(entry, a))
  {
    data, left := Rounded(entry, entry, a);
    if left != 0 {
      if left < HEADER {
        data, left := Rounded(entry, entry + HEADER, a);
      }
      if size < left {
        left := 0;
      } else {
        left := size - left;
      }
    } else {
      left := size;
    }
  }
}
