/** The eight size lists: every free entry is filed, in both link directions, in the list of its size class. */
module SizeLists {
  import opened DList
  import opened FreeBlocks

  type Field = map<Ptr, nat>

  /** What the size lists are made of: the list contents, the eight list heads, and the memory
      fields prevsize, nextsize, lookupsize and size. */
  datatype View = View(classes: seq<seq<Ptr>>, heads: seq<Ptr>, prev: Field, next: Field, lookup: Field, size: Field)

  /** Entry a is filed in class c, the class of its size. */
  ghost predicate Filed(v: View, a: Ptr, c: nat) {
    a in v.lookup && v.lookup[a] == c && a in v.size && SizeClass(v.size[a]) == c
  }

  ghost predicate Threads(v: View) {
    && |v.classes| == |v.heads| == CLASSES
    && (forall c :: 0 <= c < CLASSES ==> Linked(v.classes[c], v.prev, v.next) && v.heads[c] == At(v.classes[c], 0))
    && (forall c, a :: 0 <= c < CLASSES && a in v.classes[c] ==> Filed(v, a, c))
  }

  ghost predicate Member(v: View, a: Ptr) {
    a in v.lookup && v.lookup[a] < |v.classes| && a in v.classes[v.lookup[a]]
  }

  ghost function IndexOf(s: seq<Ptr>, x: Ptr): (k: nat)
    requires x in s
    ensures k < |s| && s[k] == x
  {
    var k: nat :| k < |s| && s[k] == x; k
  }

  /** The list without node x. */
  ghost function Minus(s: seq<Ptr>, x: Ptr): seq<Ptr>
    requires x in s
  {
    Without(s, IndexOf(s, x))
  }

  /** Sizes of entries that are not filed may change freely. */
  lemma Resize(v: View, a: Ptr, n: nat)
    requires Threads(v) && !Member(v, a)
    ensures Threads(v.(size := v.size[a := n]))
  {
    var w := v.(size := v.size[a := n]);
    forall c, b | 0 <= c < CLASSES && b in v.classes[c]
      ensures Filed(w, b, c)
    {
      assert Filed(v, b, c);
    }
  }

  /** w is v after entry a was bypassed in the list of its class. */
  ghost predicate Unfiled(v: View, a: Ptr, w: View) {
    && Member(v, a) && a in v.prev && a in v.next && v.lookup[a] < |v.heads|
    && w.classes == v.classes[v.lookup[a] := Minus(v.classes[v.lookup[a]], a)]
    && w.next == (if v.prev[a] != NIL then v.next[v.prev[a] := v.next[a]] else v.next)
    && w.prev == (if v.next[a] != NIL then v.prev[v.next[a] := v.prev[a]] else v.prev)
    && w.heads == (if v.prev[a] != NIL then v.heads else v.heads[v.lookup[a] := v.next[a]])
    && w.lookup == v.lookup && w.size == v.size
  }

  lemma Unfile(v: View, a: Ptr, w: View)
    requires Threads(v) && Unfiled(v, a, w)
    ensures Threads(w)
    ensures forall b :: Member(w, b) <==> Member(v, b) && b != a
  {
    var c := v.lookup[a];
    var s, k := v.classes[c], IndexOf(v.classes[c], a);
    assert Node(s, v.prev, v.next, k);
    if k > 0 { assert Node(s, v.prev, v.next, k - 1); }
    Unlink(s, k, v.prev, v.next, w.prev, w.next);
    assert w.classes[c] == Without(s, k);
    assert v.heads[c] == At(s, 0);
    assert At(Without(s, k), 0) == if k == 0 then At(s, 1) else At(s, 0);
    forall d | 0 <= d < CLASSES
      ensures Linked(w.classes[d], w.prev, w.next) && w.heads[d] == At(w.classes[d], 0)
    {
      if d != c { UnfileOther(v, a, k, d, w); }
    }
    forall b
      ensures b in w.classes[c] <==> b in s && b != a
    {
      WithoutElements(s, k, b);
    }
    forall d, b | 0 <= d < CLASSES && b in w.classes[d]
      ensures Filed(w, b, d)
    {
      assert b in v.classes[d] && Filed(v, b, d);
    }
  }

  lemma UnfileOther(v: View, a: Ptr, k: nat, d: nat, w: View)
    requires Threads(v) && Unfiled(v, a, w) && d < CLASSES && d != v.lookup[a]
    requires k < |v.classes[v.lookup[a]]| && v.classes[v.lookup[a]][k] == a && Node(v.classes[v.lookup[a]], v.prev, v.next, k)
    ensures Linked(w.classes[d], w.prev, w.next)
  {
    var s := v.classes[v.lookup[a]];
    if k > 0 { assert s[k - 1] in s && Filed(v, s[k - 1], v.lookup[a]); }
    if k + 1 < |s| { assert s[k + 1] in s && Filed(v, s[k + 1], v.lookup[a]); }
    forall b | b in v.classes[d]
      ensures (v.prev[a] == NIL || v.prev[a] != b) && (v.next[a] == NIL || v.next[a] != b)
    {
      assert Filed(v, b, d);
    }
    Frame(v.classes[d], v.prev, v.next, w.prev, w.next);
  }

  /** w is v after entry a was linked in front of the list of its class. */
  ghost predicate FiledIn(v: View, a: Ptr, w: View)
    requires |v.classes| == |v.heads| == CLASSES && a in v.size
  {
    var c := SizeClass(v.size[a]);
    && w.classes == v.classes[c := [a] + v.classes[c]]
    && w.lookup == v.lookup[a := c]
    && w.next == v.next[a := v.heads[c]]
    && w.prev == (if v.heads[c] != NIL then v.prev[a := NIL][v.heads[c] := a] else v.prev[a := NIL])
    && w.heads == v.heads[c := a]
    && w.size == v.size
  }

  lemma File(v: View, a: Ptr, w: View)
    requires Threads(v) && !Member(v, a) && a != NIL && a in v.size && FiledIn(v, a, w)
    ensures Threads(w)
    ensures forall b :: Member(w, b) <==> Member(v, b) || b == a
  {
    var c := SizeClass(v.size[a]);
    assert forall d :: 0 <= d < CLASSES ==> a !in v.classes[d];
    assert Insert(v.classes[c], 0, a) == [a] + v.classes[c];
    Link(v.classes[c], 0, a, v.prev, v.next, w.prev, w.next);
    forall d | 0 <= d < CLASSES && d != c
      ensures Linked(w.classes[d], w.prev, w.next)
    {
      FileOther(v, a, d, w);
    }
    forall d, b | 0 <= d < CLASSES && b in w.classes[d]
      ensures Filed(w, b, d)
    {
      if b != a { assert b in v.classes[d] && Filed(v, b, d); }
    }
  }

  lemma FileOther(v: View, a: Ptr, d: nat, w: View)
    requires Threads(v) && a in v.size && FiledIn(v, a, w)
    requires d < CLASSES && d != SizeClass(v.size[a]) && a !in v.classes[d]
    ensures Linked(w.classes[d], w.prev, w.next)
  {
    var s := v.classes[SizeClass(v.size[a])];
    if s != [] { assert s[0] in s && Filed(v, s[0], SizeClass(v.size[a])); }
    forall b | b in v.classes[d]
      ensures At(s, 0) == NIL || At(s, 0) != b
    {
      assert Filed(v, b, d);
    }
    Frame(v.classes[d], v.prev, v.next, w.prev, w.next);
  }
}
