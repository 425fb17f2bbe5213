/** The cached objects of the Cache Kernel as a value: live headers, dependency edges in array
    order, and the peer list of every kind of object. */
module ObjectModel {
  import opened DList
  import opened DepGraph

  datatype Kind = SHMem | Thread | AddrSpc | Kernel

  /** What a header holds besides its links and its slice of the edge array. */
  datatype Object =
    | ThreadObject(flags: nat, addressSpace: Ptr, parentKernel: Ptr, quantum: int, defer: int)
    | AddrSpcObject(flags: nat, parentKernel: Ptr)
    | SHMemObject(flags: nat, owner: Ptr)
    | KernelObject(flags: nat, addrSpace: Ptr, sigHandler: Ptr)

  function KindOf(o: Object): Kind {
    match o
    case ThreadObject(_, _, _, _, _) => Thread
    case AddrSpcObject(_, _) => AddrSpc
    case SHMemObject(_, _) => SHMem
    case KernelObject(_, _, _) => Kernel
  }

  /** Dependencies only lead from a higher to a lower rank. */
  function Rank(k: Kind): nat {
    match k
    case SHMem => 0
    case Thread => 1
    case AddrSpc => 2
    case Kernel => 3
  }

  predicate Locked(o: Object) { o.flags % 2 == 1 }  // OFLOCKED == 1

  /** The objects that o depends on, as its own fields name them, in the order they are registered. */
  function ParentList(o: Object): seq<Ptr> {
    match o
    case ThreadObject(_, a, k, _, _) => if k == NIL then [a] else [a, k]
    case AddrSpcObject(_, k) => if k == NIL then [] else [k]
    case SHMemObject(_, t) => [t]
    case KernelObject(_, _, _) => []
  }

  predicate Parents(o: Object, p: Ptr) { p in ParentList(o) }

  lemma NamesParents(o: Object)
    ensures o.ThreadObject? ==> Parents(o, o.addressSpace)
    ensures (o.ThreadObject? || o.AddrSpcObject?) && o.parentKernel != NIL ==> Parents(o, o.parentKernel)
    ensures o.SHMemObject? ==> Parents(o, o.owner)
  {
  }

  type Objects = map<Ptr, Object>

  datatype State = State(objects: Objects, edges: seq<Edge>, peers: map<Kind, seq<Ptr>>)

  ghost predicate Live(m: Objects, p: Ptr, k: Kind) { p in m && KindOf(m[p]) == k }

  /** The fields of obj that create dependencies name live objects of the right kind. */
  ghost predicate References(m: Objects, obj: Object) {
    match obj
    case ThreadObject(_, a, k, _, _) => Live(m, a, AddrSpc) && (k != NIL ==> Live(m, k, Kernel))
    case AddrSpcObject(_, k) => k != NIL ==> Live(m, k, Kernel)
    case SHMemObject(_, t) => Live(m, t, Thread)
    case KernelObject(_, _, _) => true
  }

  ghost predicate WellTyped(m: Objects) {
    NIL !in m && forall c :: c in m ==> References(m, m[c])
  }

  /** The edges are exactly the dependencies that the fields of live objects express, once each. */
  ghost predicate Derived(m: Objects, es: seq<Edge>) {
    && Distinct(es)
    && forall e: Edge :: e in es <==> e.child in m && Parents(m[e.child], e.parent)
  }

  /** Along every edge the rank drops: the dependency graph has no cycles. */
  lemma RankDrops(m: Objects, es: seq<Edge>, e: Edge)
    requires WellTyped(m) && Derived(m, es) && e in es
    ensures e.parent in m && e.child in m && Rank(KindOf(m[e.child])) < Rank(KindOf(m[e.parent]))
  {
    assert References(m, m[e.child]);
  }

  /** The edges into o come from the objects that o's own fields name. */
  lemma OwnEdges(m: Objects, es: seq<Edge>, o: Ptr)
    requires WellTyped(m) && Derived(m, es) && o in m
    ensures forall p :: p in ParentList(m[o]) ==> p in m
    ensures forall e :: e in es && e.child == o ==> e.parent in ParentList(m[o])
    ensures m[o].ThreadObject? ==> m[o].addressSpace in m && (m[o].parentKernel != NIL ==> m[o].parentKernel in m)
  {
    assert References(m, m[o]);
  }

  ghost predicate Listed(m: Objects, peers: map<Kind, seq<Ptr>>) {
    forall k: Kind :: k in peers && Distinct(peers[k]) &&
      forall o :: o in peers[k] <==> o in m && KindOf(m[o]) == k
  }

  ghost predicate Consistent(s: State) {
    WellTyped(s.objects) && Derived(s.objects, s.edges) && Listed(s.objects, s.peers)
  }

  // ---------- removing a set of objects ----------

  function KeepEdges(es: seq<Edge>, gone: set<Ptr>): (r: seq<Edge>)
    ensures forall e :: e in r <==> e in es && e.child !in gone
    ensures |r| <= |es|
  {
    if es == [] then [] else
      var r := KeepEdges(es[..|es| - 1], gone);
      if es[|es| - 1].child in gone then r else r + [es[|es| - 1]]
  }

  function KeepNodes(s: seq<Ptr>, gone: set<Ptr>): (r: seq<Ptr>)
    ensures forall o :: o in r <==> o in s && o !in gone
    ensures |r| <= |s|
  {
    if s == [] then [] else
      var r := KeepNodes(s[..|s| - 1], gone);
      if s[|s| - 1] in gone then r else r + [s[|s| - 1]]
  }

  ghost function KeepPeers(peers: map<Kind, seq<Ptr>>, gone: set<Ptr>): map<Kind, seq<Ptr>> {
    map k | k in peers :: KeepNodes(peers[k], gone)
  }

  /** The state without the objects in gone; everything else keeps its place. */
  ghost function Purge(s: State, gone: set<Ptr>): State {
    State(s.objects - gone, KeepEdges(s.edges, gone), KeepPeers(s.peers, gone))
  }

  lemma {:induction false} KeepEdgesTwice(es: seq<Edge>, a: set<Ptr>, b: set<Ptr>)
    ensures KeepEdges(KeepEdges(es, a), b) == KeepEdges(es, a + b)
  {
    if es != [] {
      var r := KeepEdges(es[..|es| - 1], a);
      KeepEdgesTwice(es[..|es| - 1], a, b);
      assert (r + [es[|es| - 1]])[..|r|] == r;
    }
  }

  lemma {:induction false} KeepNodesTwice(s: seq<Ptr>, a: set<Ptr>, b: set<Ptr>)
    ensures KeepNodes(KeepNodes(s, a), b) == KeepNodes(s, a + b)
  {
    if s != [] {
      var r := KeepNodes(s[..|s| - 1], a);
      KeepNodesTwice(s[..|s| - 1], a, b);
      assert (r + [s[|s| - 1]])[..|r|] == r;
    }
  }

  lemma KeepPeersTwice(peers: map<Kind, seq<Ptr>>, a: set<Ptr>, b: set<Ptr>)
    ensures KeepPeers(KeepPeers(peers, a), b) == KeepPeers(peers, a + b)
  {
    forall k | k in peers
      ensures KeepPeers(KeepPeers(peers, a), b)[k] == KeepPeers(peers, a + b)[k]
    {
      KeepNodesTwice(peers[k], a, b);
    }
  }

  /** Removing some objects and then others is removing them all. */
  lemma PurgeTwice(s: State, a: set<Ptr>, b: set<Ptr>)
    ensures Purge(Purge(s, a), b) == Purge(s, a + b)
  {
    KeepEdgesTwice(s.edges, a, b);
    KeepPeersTwice(s.peers, a, b);
    assert s.objects - a - b == s.objects - (a + b);
  }

  lemma {:induction false} KeepEdgesNone(es: seq<Edge>, gone: set<Ptr>)
    requires forall e :: e in es ==> e.child !in gone
    ensures KeepEdges(es, gone) == es
  {
    if es != [] {
      KeepEdgesNone(es[..|es| - 1], gone);
      assert es == es[..|es| - 1] + [es[|es| - 1]];
    }
  }

  lemma {:induction false} KeepNodesNone(s: seq<Ptr>, gone: set<Ptr>)
    requires forall o :: o in s ==> o !in gone
    ensures KeepNodes(s, gone) == s
  {
    if s != [] {
      KeepNodesNone(s[..|s| - 1], gone);
      assert s == s[..|s| - 1] + [s[|s| - 1]];
    }
  }

  lemma PurgeNothing(s: State)
    ensures Purge(s, {}) == s
  {
    KeepEdgesNone(s.edges, {});
    forall k | k in s.peers
      ensures KeepNodes(s.peers[k], {}) == s.peers[k]
    {
      KeepNodesNone(s.peers[k], {});
    }
    assert s.objects - {} == s.objects;
  }

  lemma {:induction false} KeepEdgesDistinct(es: seq<Edge>, gone: set<Ptr>)
    requires Distinct(es)
    ensures Distinct(KeepEdges(es, gone))
  {
    if es != [] {
      KeepEdgesDistinct(es[..|es| - 1], gone);
      assert es[|es| - 1] !in es[..|es| - 1];
    }
  }

  lemma {:induction false} KeepNodesDistinct(s: seq<Ptr>, gone: set<Ptr>)
    requires Distinct(s)
    ensures Distinct(KeepNodes(s, gone))
  {
    if s != [] {
      KeepNodesDistinct(s[..|s| - 1], gone);
      assert s[|s| - 1] !in s[..|s| - 1];
    }
  }

  lemma WithoutLast(es: seq<Edge>, k: nat)
    requires k < |es| - 1
    ensures var n := |es| - 1; Without(es, k) == Without(es[..n], k) + [es[n]]
  {
  }

  lemma KeepEdgesOneMore(es: seq<Edge>, e: Edge, gone: set<Ptr>)
    ensures KeepEdges(es + [e], gone) == KeepEdges(es, gone) + if e.child in gone then [] else [e]
  {
    assert (es + [e])[..|es|] == es;
  }

  /** An edge into gone is not counted twice: taking it out by hand is a step of the purge. */
  lemma {:induction false} KeepEdgesWithout(es: seq<Edge>, k: nat, gone: set<Ptr>)
    requires k < |es| && es[k].child in gone
    ensures KeepEdges(Without(es, k), gone) == KeepEdges(es, gone)
  {
    var n := |es| - 1;
    if k < n {
      KeepEdgesWithout(es[..n], k, gone);
      WithoutLast(es, k);
      KeepEdgesOneMore(Without(es[..n], k), es[n], gone);
      assert KeepEdges(es, gone) == KeepEdges(es[..n], gone) + if es[n].child in gone then [] else [es[n]];
    } else {
      assert Without(es, k) == es[..n];
    }
  }

  lemma {:induction false} KeepNodesWithout(s: seq<Ptr>, k: nat)
    requires k < |s| && Distinct(s)
    ensures Without(s, k) == KeepNodes(s, {s[k]})
  {
    var n := |s| - 1;
    assert s == s[..n] + [s[n]];
    if k < n {
      KeepNodesWithout(s[..n], k);
      assert Without(s, k) == Without(s[..n], k) + [s[n]];
    } else {
      assert s[n] !in s[..n];
      KeepNodesNone(s[..n], {s[n]});
      assert Without(s, k) == s[..n];
    }
  }

  ghost predicate Closed(es: seq<Edge>, gone: set<Ptr>) {
    forall e :: e in es && e.parent in gone ==> e.child in gone
  }

  /** Removing a set of objects that is closed under dependence leaves a consistent state. */
  lemma PurgeConsistent(s: State, gone: set<Ptr>)
    requires Consistent(s) && Closed(s.edges, gone)
    ensures Consistent(Purge(s, gone))
  {
    var t := Purge(s, gone);
    KeepEdgesDistinct(s.edges, gone);
    forall c | c in t.objects
      ensures References(t.objects, t.objects[c])
    {
      NamesParents(s.objects[c]);
      assert forall p :: Parents(s.objects[c], p) ==> Edge(p, c) in s.edges;
      assert forall p :: Parents(s.objects[c], p) ==> p !in gone;
    }
    forall k: Kind
      ensures k in t.peers && Distinct(t.peers[k])
    {
      assert k in s.peers;
      KeepNodesDistinct(s.peers[k], gone);
    }
  }

  // ---------- loading an object ----------

  /** One edge from every parent in ps to o, registered one after the other. */
  function AddEdges(es: seq<Edge>, ps: seq<Ptr>, o: Ptr): seq<Edge>
    decreases |ps|
  {
    if ps == [] then es else AddEdges(AddEdge(es, Edge(ps[0], o)), ps[1..], o)
  }

  lemma AddEdgesUnfold(es: seq<Edge>, obj: Object, o: Ptr)
    ensures ParentList(obj) == [] ==> AddEdges(es, ParentList(obj), o) == es
    ensures |ParentList(obj)| == 1 ==> AddEdges(es, ParentList(obj), o) == AddEdge(es, Edge(ParentList(obj)[0], o))
    ensures |ParentList(obj)| == 2 ==>
      AddEdges(es, ParentList(obj), o) == AddEdge(AddEdge(es, Edge(ParentList(obj)[0], o)), Edge(ParentList(obj)[1], o))
  {
    var ps := ParentList(obj);
    if |ps| == 2 {
      assert ps[1..] == [ps[1]] && [ps[1]][1..] == [];
      assert AddEdges(AddEdge(es, Edge(ps[0], o)), [ps[1]], o) == AddEdge(AddEdge(es, Edge(ps[0], o)), Edge(ps[1], o));
    } else if |ps| == 1 {
      assert ps[1..] == [];
    }
  }

  ghost function Load(s: State, o: Ptr, obj: Object): State
    requires KindOf(obj) in s.peers
  {
    State(s.objects[o := obj], AddEdges(s.edges, ParentList(obj), o), s.peers[KindOf(obj) := s.peers[KindOf(obj)] + [o]])
  }

  ghost predicate MayLoad(m: Objects, o: Ptr, obj: Object) {
    o != NIL && o !in m && References(m, obj)
  }

  lemma MayLoadFacts(m: Objects, peers: map<Kind, seq<Ptr>>, o: Ptr, obj: Object)
    requires MayLoad(m, o, obj) && Listed(m, peers)
    ensures forall j: Kind :: j in peers ==> o !in peers[j]
    ensures forall p :: p in ParentList(obj) ==> p in m
  {
  }

  lemma AddEdgeElements(es: seq<Edge>, e: Edge)
    ensures forall x :: x in AddEdge(es, e) <==> x in es || x == e
    ensures Distinct(es) && e !in es ==> Distinct(AddEdge(es, e))
  {
    forall x
      ensures x in AddEdge(es, e) <==> x in es || x == e
    {
      InsertElements(es, Upper(es, e.parent), e, x);
    }
    if Distinct(es) && e !in es { InsertDistinct(es, Upper(es, e.parent), e); }
  }

  lemma {:induction false} AddEdgesElements(es: seq<Edge>, ps: seq<Ptr>, o: Ptr, e: Edge)
    ensures e in AddEdges(es, ps, o) <==> e in es || (e.child == o && e.parent in ps)
    decreases |ps|
  {
    if ps != [] {
      AddEdgeElements(es, Edge(ps[0], o));
      AddEdgesElements(AddEdge(es, Edge(ps[0], o)), ps[1..], o, e);
      HeadOrRest(ps, e.parent);
    }
  }

  lemma HeadOrRest(ps: seq<Ptr>, p: Ptr)
    requires ps != []
    ensures p in ps <==> p == ps[0] || p in ps[1..]
  {
    assert ps == [ps[0]] + ps[1..];
  }

  lemma {:induction false} AddEdgesDistinct(es: seq<Edge>, ps: seq<Ptr>, o: Ptr)
    requires Distinct(es) && Distinct(ps) && forall p :: p in ps ==> Edge(p, o) !in es
    ensures Distinct(AddEdges(es, ps, o))
    decreases |ps|
  {
    if ps != [] {
      AddEdgeElements(es, Edge(ps[0], o));
      AddEdgesDistinct(AddEdge(es, Edge(ps[0], o)), ps[1..], o);
    }
  }

  lemma LoadDerived(m: Objects, es: seq<Edge>, o: Ptr, obj: Object)
    requires WellTyped(m) && Derived(m, es) && MayLoad(m, o, obj)
    ensures Derived(m[o := obj], AddEdges(es, ParentList(obj), o))
  {
    var ps := ParentList(obj);
    assert Distinct(ps);
    assert forall e: Edge :: e in es ==> e.child != o;
    AddEdgesDistinct(es, ps, o);
    forall e: Edge
      ensures e in AddEdges(es, ps, o) <==> e.child in m[o := obj] && Parents(m[o := obj][e.child], e.parent)
    {
      AddEdgesElements(es, ps, o, e);
    }
  }

  lemma LoadTyped(m: Objects, o: Ptr, obj: Object)
    requires WellTyped(m) && MayLoad(m, o, obj)
    ensures WellTyped(m[o := obj])
  {
    var m' := m[o := obj];
    forall c | c in m'
      ensures References(m', m'[c])
    {
      StillReferences(m, m'[c], o, obj);
    }
  }

  lemma StillReferences(m: Objects, x: Object, o: Ptr, obj: Object)
    requires References(m, x) && o !in m
    ensures References(m[o := obj], x)
  {
  }

  lemma LoadListed(m: Objects, peers: map<Kind, seq<Ptr>>, o: Ptr, obj: Object)
    requires Listed(m, peers) && o !in m && KindOf(obj) in peers
    ensures Listed(m[o := obj], peers[KindOf(obj) := peers[KindOf(obj)] + [o]])
  {
    var peers' := peers[KindOf(obj) := peers[KindOf(obj)] + [o]];
    forall k: Kind
      ensures k in peers' && Distinct(peers'[k])
      ensures forall x :: x in peers'[k] <==> x in m[o := obj] && KindOf(m[o := obj][x]) == k
    {
      assert k in peers && o !in peers[k];
    }
  }

  /** Loading an object whose fields name live objects keeps the state consistent. */
  lemma LoadConsistent(s: State, o: Ptr, obj: Object)
    requires Consistent(s) && MayLoad(s.objects, o, obj) && KindOf(obj) in s.peers
    ensures Consistent(Load(s, o, obj))
  {
    LoadTyped(s.objects, o, obj);
    LoadDerived(s.objects, s.edges, o, obj);
    LoadListed(s.objects, s.peers, o, obj);
  }

  // ---------- reachability ----------

  ghost predicate Path(es: seq<Edge>, p: seq<Ptr>) {
    |p| > 0 && forall i :: 0 <= i < |p| - 1 ==> Edge(p[i], p[i + 1]) in es
  }

  /** b is a itself or depends on it through a chain of edges. */
  ghost predicate Reaches(es: seq<Edge>, a: Ptr, b: Ptr) {
    exists p :: Path(es, p) && p[0] == a && p[|p| - 1] == b
  }

  lemma ReachesSelf(es: seq<Edge>, a: Ptr)
    ensures Reaches(es, a, a)
  {
    assert Path(es, [a]);
  }

  lemma ReachesThrough(es: seq<Edge>, a: Ptr, c: Ptr, b: Ptr)
    requires Edge(a, c) in es && Reaches(es, c, b)
    ensures Reaches(es, a, b)
  {
    var p :| Path(es, p) && p[0] == c && p[|p| - 1] == b;
    var q := [a] + p;
    forall i | 0 <= i < |q| - 1
      ensures Edge(q[i], q[i + 1]) in es
    {
      if i > 0 { assert Edge(p[i - 1], p[i]) in es; }
    }
    assert Path(es, q);
  }

  lemma ReachesMore(es: seq<Edge>, es': seq<Edge>, a: Ptr, b: Ptr)
    requires Reaches(es, a, b) && forall e :: e in es ==> e in es'
    ensures Reaches(es', a, b)
  {
    var p :| Path(es, p) && p[0] == a && p[|p| - 1] == b;
    assert Path(es', p);
  }

  lemma {:induction false} PathStays(es: seq<Edge>, gone: set<Ptr>, p: seq<Ptr>, i: nat)
    requires Closed(es, gone) && Path(es, p) && p[0] in gone && i < |p|
    ensures p[i] in gone
  {
    if i > 0 {
      PathStays(es, gone, p, i - 1);
      assert Edge(p[i - 1], p[i]) in es;
    }
  }

  /** gone is closed under dependence and every member of it depends on o. */
  ghost predicate Cascade(es: seq<Edge>, o: Ptr, gone: set<Ptr>) {
    Closed(es, gone) && forall x :: x in gone ==> Reaches(es, o, x)
  }

  /** A cascade that took o took exactly what is reachable from o. */
  lemma CascadeExact(es: seq<Edge>, o: Ptr, gone: set<Ptr>, x: Ptr)
    requires Cascade(es, o, gone) && o in gone
    ensures x in gone <==> Reaches(es, o, x)
  {
    if Reaches(es, o, x) {
      var p :| Path(es, p) && p[0] == o && p[|p| - 1] == x;
      PathStays(es, gone, p, |p| - 1);
    }
  }

  /** What is unloaded on behalf of a child, in the array already shortened by the cascade so
      far, extends the cascade of the parent. */
  lemma CascadeStep(es: seq<Edge>, o: Ptr, gone: set<Ptr>, c: Ptr, more: set<Ptr>)
    requires Cascade(es, o, gone) && Edge(o, c) in es
    requires Cascade(KeepEdges(es, gone), c, more)
    ensures Cascade(es, o, gone + more)
  {
    forall e | e in es && e.parent in gone + more
      ensures e.child in gone + more
    {
      if e.parent !in gone && e.child !in gone { assert e in KeepEdges(es, gone); }
    }
    forall x | x in more
      ensures Reaches(es, o, x)
    {
      ReachesMore(KeepEdges(es, gone), es, c, x);
      ReachesThrough(es, o, c, x);
    }
  }

  /** Once everything that depends on o is gone, o itself may go. */
  lemma CascadeLast(es: seq<Edge>, o: Ptr, gone: set<Ptr>)
    requires Cascade(es, o, gone)
    requires forall e :: e in KeepEdges(es, gone) ==> e.parent != o
    ensures Cascade(es, o, gone + {o})
  {
    ReachesSelf(es, o);
    assert forall e :: e in es && e.child !in gone ==> e in KeepEdges(es, gone);
  }

  /** Unloading a child with all its dependants shortens the array. */
  lemma {:induction false} KeepEdgesShrinks(es: seq<Edge>, gone: set<Ptr>, e: Edge)
    requires e in es && e.child in gone
    ensures |KeepEdges(es, gone)| < |es|
  {
    if es[|es| - 1].child !in gone {
      var i :| 0 <= i < |es| && es[i] == e;
      assert es[..|es| - 1][i] == e;
      KeepEdgesShrinks(es[..|es| - 1], gone, e);
    }
  }

  // ---------- what a cascade of unloads does ----------

  /** Some object that depends on o, or o itself, is locked into the kernel. */
  ghost predicate LockedBelow(s: State, o: Ptr) {
    exists x :: x in s.objects && Locked(s.objects[x]) && Reaches(s.edges, o, x)
  }

  ghost predicate Unlocked(m: Objects, gone: set<Ptr>, r: int) {
    forall x :: x in gone ==> x in m && !Locked(m[x]) && Rank(KindOf(m[x])) <= r
  }

  /** From s to t exactly the objects in gone were unloaded: a set of unlocked objects that all
      depend on o and that is closed under dependence.  Either o is among them, or some object
      below o is locked. */
  ghost predicate Unloaded(s: State, o: Ptr, ok: bool, gone: set<Ptr>, t: State)
    requires o in s.objects
  {
    && t == Purge(s, gone) && Cascade(s.edges, o, gone)
    && Unlocked(s.objects, gone, Rank(KindOf(s.objects[o])))
    && (ok <==> o in gone)
    && (!ok ==> LockedBelow(s, o))
  }

  /** The same for some of the dependants of o, before o itself is unloaded. */
  ghost predicate Below(s: State, o: Ptr, ok: bool, gone: set<Ptr>, t: State)
    requires o in s.objects
  {
    && t == Purge(s, gone) && Cascade(s.edges, o, gone)
    && Unlocked(s.objects, gone, Rank(KindOf(s.objects[o])) - 1)
    && (!ok ==> LockedBelow(s, o))
  }

  lemma BelowStart(s: State, o: Ptr)
    requires o in s.objects
    ensures Below(s, o, true, {}, s)
  {
    PurgeNothing(s);
  }

  /** One more dependant, unloaded from the state that the earlier ones left. */
  lemma BelowStep(s: State, o: Ptr, gone: set<Ptr>, t: State, c: Ptr, ok: bool, more: set<Ptr>, u: State)
    requires o in s.objects && Below(s, o, true, gone, t) && o in t.objects
    requires Edge(o, c) in t.edges && c in t.objects && Rank(KindOf(t.objects[c])) < Rank(KindOf(t.objects[o]))
    requires Unloaded(t, c, ok, more, u)
    ensures Below(s, o, ok, gone + more, u)
    ensures ok ==> |u.edges| < |t.edges|
  {
    PurgeTwice(s, gone, more);
    CascadeStep(s.edges, o, gone, c, more);
    if ok { KeepEdgesShrinks(t.edges, more, Edge(o, c)); }
    if !ok {
      var x :| x in t.objects && Locked(t.objects[x]) && Reaches(t.edges, c, x);
      ReachesMore(t.edges, s.edges, c, x);
      ReachesThrough(s.edges, o, c, x);
    }
  }

  lemma BelowDone(s: State, o: Ptr, gone: set<Ptr>, t: State)
    requires o in s.objects && Below(s, o, true, gone, t) && !Locked(s.objects[o])
    requires forall e :: e in t.edges ==> e.parent != o
    ensures Unloaded(s, o, true, gone + {o}, Purge(t, {o}))
  {
    PurgeTwice(s, gone, {o});
    CascadeLast(s.edges, o, gone);
  }

  lemma BelowFailed(s: State, o: Ptr, gone: set<Ptr>, t: State)
    requires o in s.objects && Below(s, o, false, gone, t)
    ensures Unloaded(s, o, false, gone, t)
  {
  }

  lemma LockedItself(s: State, o: Ptr)
    requires o in s.objects && Locked(s.objects[o])
    ensures Unloaded(s, o, false, {}, s)
  {
    PurgeNothing(s);
    ReachesSelf(s.edges, o);
  }

  /** x stays out of reach of o's dependants in what is left of the graph. */
  lemma NotReached(s: State, o: Ptr, gone: set<Ptr>, t: State, c: Ptr, x: Ptr)
    requires o in s.objects && Below(s, o, true, gone, t) && Edge(o, c) in t.edges && !Reaches(s.edges, o, x)
    ensures !Reaches(t.edges, c, x)
  {
    if Reaches(t.edges, c, x) {
      ReachesMore(t.edges, s.edges, c, x);
      ReachesThrough(s.edges, o, c, x);
    }
  }

  /** An unload succeeds exactly when nothing below o is locked, and then takes exactly o and
      everything reachable from it. */
  lemma UnloadExact(s: State, o: Ptr, ok: bool, gone: set<Ptr>, t: State)
    requires o in s.objects && Unloaded(s, o, ok, gone, t)
    ensures ok <==> !LockedBelow(s, o)
    ensures ok <==> forall x :: x in s.objects && Reaches(s.edges, o, x) ==> s.objects[x].flags % 2 == 0
    ensures ok ==> forall x :: x in gone <==> Reaches(s.edges, o, x)
  {
    if ok {
      forall x
        ensures x in gone <==> Reaches(s.edges, o, x)
      {
        CascadeExact(s.edges, o, gone, x);
      }
    }
  }

  /** The objects of m whose flags word is odd are in m', unchanged. */
  ghost predicate OddFlagsKept(m: Objects, m': Objects) {
    forall x :: x in m && m[x].flags % 2 == 1 ==> x in m' && m'[x] == m[x]
  }

  /** Whatever an unload returns, every object whose flags word is odd stays as it is. */
  lemma OddFlagsStay(s: State, o: Ptr, ok: bool, gone: set<Ptr>, t: State)
    requires o in s.objects && Unloaded(s, o, ok, gone, t)
    ensures OddFlagsKept(s.objects, t.objects)
  {
  }

  /** While something below an unlocked o is locked, o has dependants left, whatever unlocked objects
      have been unloaded: a loop that goes on until there are none, and passes over errors, never ends. */
  lemma LockedNeverDone(s: State, o: Ptr, gone: set<Ptr>, r: int)
    requires o in s.objects && !Locked(s.objects[o]) && LockedBelow(s, o)
    requires Closed(s.edges, gone) && Unlocked(s.objects, gone, r)
    ensures exists c :: Edge(o, c) in Purge(s, gone).edges
  {
    var x :| x in s.objects && Locked(s.objects[x]) && Reaches(s.edges, o, x);
    var p :| Path(s.edges, p) && p[0] == o && p[|p| - 1] == x;
    var q := p[1..];
    assert Edge(o, p[1]) in s.edges;
    forall i | 0 <= i < |q| - 1
      ensures Edge(q[i], q[i + 1]) in s.edges
    {
      assert Edge(p[i + 1], p[i + 2]) in s.edges;
    }
    if q[0] in gone { PathStays(s.edges, gone, q, |q| - 1); }
    assert Edge(o, q[0]) in Purge(s, gone).edges;
  }

  /** One round of a loop over the dependants of o: one of them is unloaded, with whatever success. */
  ghost predicate Round(t: State, o: Ptr, u: State) {
    exists c: Ptr, ok: bool, more: set<Ptr> :: Edge(o, c) in t.edges && c in t.objects && Unloaded(t, c, ok, more, u)
  }

  ghost predicate Rounds(trace: seq<State>, o: Ptr) {
    |trace| > 0 && forall i {:trigger RoundAt(trace, o, i)} :: 0 <= i < |trace| - 1 ==> RoundAt(trace, o, i)
  }

  ghost predicate RoundAt(trace: seq<State>, o: Ptr, i: nat)
    requires i < |trace| - 1
  {
    Round(trace[i], o, trace[i + 1])
  }

  /** Whatever its rounds return, they unload unlocked dependants of o only, and o itself stays. */
  lemma RoundStays(s: State, o: Ptr, gone: set<Ptr>, t: State, u: State) returns (more: set<Ptr>)
    requires Consistent(s) && o in s.objects && Below(s, o, true, gone, t) && Round(t, o, u)
    ensures Below(s, o, true, gone + more, u)
  {
    PurgeConsistent(s, gone);
    var c: Ptr, ok: bool;
    c, ok, more :| Edge(o, c) in t.edges && c in t.objects && Unloaded(t, c, ok, more, u);
    RankDrops(t.objects, t.edges, Edge(o, c));
    BelowStep(s, o, gone, t, c, ok, more, u);
  }

  lemma {:induction false} RoundsStay(trace: seq<State>, o: Ptr, i: nat) returns (gone: set<Ptr>)
    requires Rounds(trace, o) && Consistent(trace[0]) && o in trace[0].objects && i < |trace|
    ensures Below(trace[0], o, true, gone, trace[i])
  {
    if i == 0 {
      gone := {};
      BelowStart(trace[0], o);
    } else {
      var before := RoundsStay(trace, o, i - 1);
      assert RoundAt(trace, o, i - 1);
      var more := RoundStays(trace[0], o, before, trace[i - 1], trace[i]);
      gone := before + more;
    }
  }

  /** So the loop that passes over errors does not end while something below o is locked: after any
      number of rounds o still has a dependant. */
  lemma LockedRoundsGoOn(trace: seq<State>, o: Ptr, i: nat)
    requires Rounds(trace, o) && Consistent(trace[0]) && o in trace[0].objects && i < |trace|
    requires !Locked(trace[0].objects[o]) && LockedBelow(trace[0], o)
    ensures exists c :: Edge(o, c) in trace[i].edges
  {
    var gone := RoundsStay(trace, o, i);
    LockedNeverDone(trace[0], o, gone, Rank(KindOf(trace[0].objects[o])) - 1);
  }

  /** A state with a locked dependant: an address space with one locked thread. */
  function LockedThread(): State {
    State(map[8 := AddrSpcObject(0, NIL), 16 := ThreadObject(1, 8, NIL, 1, 1)], [Edge(8, 16)],
          map[SHMem := [], Thread := [16], AddrSpc := [8], Kernel := []])
  }

  lemma LockedThreadDerived()
    ensures WellTyped(LockedThread().objects) && Derived(LockedThread().objects, LockedThread().edges)
  {
    var m, es := LockedThread().objects, LockedThread().edges;
    assert References(m, m[8]) && References(m, m[16]);
    forall e: Edge
      ensures e in es <==> e.child in m && Parents(m[e.child], e.parent)
    {
      assert ParentList(m[8]) == [] && ParentList(m[16]) == [8];
    }
  }

  lemma LockedThreadListed()
    ensures Listed(LockedThread().objects, LockedThread().peers)
  {
    var s := LockedThread();
    forall j: Kind
      ensures j in s.peers && Distinct(s.peers[j]) && forall o :: o in s.peers[j] <==> o in s.objects && KindOf(s.objects[o]) == j
    {
      match j case SHMem => case Thread => case AddrSpc => case Kernel =>
    }
  }

  /** There every round of the loop leaves everything as it is. */
  lemma LockedHappens()
    ensures var s := LockedThread(); Consistent(s) && !Locked(s.objects[8]) && LockedBelow(s, 8) && Round(s, 8, s)
  {
    var s := LockedThread();
    LockedThreadDerived();
    LockedThreadListed();
    assert Edge(8, 16) in s.edges;
    LockedItself(s, 16);
    ReachesSelf(s.edges, 16);
    ReachesThrough(s.edges, 8, 16, 16);
  }

  // ---------- whole runs ----------

  /** One cache or uncache call. */
  ghost predicate Next(s: State, t: State) {
    || t == s
    || (exists o: Ptr, obj: Object :: KindOf(obj) in s.peers && MayLoad(s.objects, o, obj) && t == Load(s, o, obj))
    || (exists o: Ptr, ok: bool, gone: set<Ptr> :: o in s.objects && Unloaded(s, o, ok, gone, t))
  }

  ghost predicate Run(trace: seq<State>) {
    && |trace| > 0 && Consistent(trace[0])
    && forall i :: 0 <= i < |trace| - 1 ==> Next(trace[i], trace[i + 1])
  }

  /** Over any run of cache and uncache calls the edge set is exactly what the fields of live
      objects say, no such field names an unloaded object, and every object is on its peer list. */
  lemma {:induction false} RunsStayConsistent(trace: seq<State>, i: nat)
    requires Run(trace) && i < |trace|
    ensures Consistent(trace[i])
  {
    if i > 0 {
      RunsStayConsistent(trace, i - 1);
      var s, t := trace[i - 1], trace[i];
      assert Next(s, t);
      if o: Ptr, obj: Object :| KindOf(obj) in s.peers && MayLoad(s.objects, o, obj) && t == Load(s, o, obj) {
        LoadConsistent(s, o, obj);
      } else if o: Ptr, ok: bool, gone: set<Ptr> :| o in s.objects && Unloaded(s, o, ok, gone, t) {
        PurgeConsistent(s, gone);
      }
    }
  }

  /** An object whose flags word is odd stays loaded for good, whatever calls follow. */
  lemma {:induction false} OddFlagsStayLoaded(trace: seq<State>, i: nat, j: nat, x: Ptr)
    requires Run(trace) && i <= j < |trace| && x in trace[i].objects && trace[i].objects[x].flags % 2 == 1
    ensures x in trace[j].objects && trace[j].objects[x] == trace[i].objects[x]
  {
    if i < j {
      OddFlagsStayLoaded(trace, i, j - 1, x);
      var s, t := trace[j - 1], trace[j];
      assert Next(s, t);
      if o: Ptr, ok: bool, gone: set<Ptr> :| o in s.objects && Unloaded(s, o, ok, gone, t) {
        OddFlagsStay(s, o, ok, gone, t);
      }
    }
  }

  /** What depends on o directly goes with it. */
  lemma DependantGoes(s: State, o: Ptr, c: Ptr, gone: set<Ptr>, t: State)
    requires o in s.objects && Edge(o, c) in s.edges && Unloaded(s, o, true, gone, t)
    ensures c !in t.objects
  {
    ReachesSelf(s.edges, c);
    ReachesThrough(s.edges, o, c, c);
    UnloadExact(s, o, true, gone, t);
  }

  /** Unloading o leaves nothing behind that names it or anything that depended on it. */
  lemma NothingDangles(s: State, o: Ptr, gone: set<Ptr>, t: State, x: Ptr)
    requires Consistent(s) && o in s.objects && Unloaded(s, o, true, gone, t) && Reaches(s.edges, o, x)
    ensures x !in t.objects
    ensures forall e :: e in t.edges ==> e.parent != x && e.child != x
    ensures forall k: Kind :: k in t.peers && x !in t.peers[k]
    ensures forall c :: c in t.objects ==> x !in ParentList(t.objects[c])
  {
    UnloadExact(s, o, true, gone, t);
    PurgeConsistent(s, gone);
    forall c | c in t.objects
      ensures x !in ParentList(t.objects[c])
    {
      OwnEdges(t.objects, t.edges, c);
    }
  }

  lemma LastEdge(es: seq<Edge>, p: seq<Ptr>)
    requires Path(es, p) && |p| > 1
    ensures Edge(p[|p| - 2], p[|p| - 1]) in es
  {
  }

  /** A kernel is nobody's dependant. */
  lemma KernelOnlyFromItself(s: State, o: Ptr, k: Ptr)
    requires Consistent(s) && k in s.objects && s.objects[k].KernelObject?
    ensures Reaches(s.edges, o, k) <==> o == k
  {
    if o == k {
      ReachesSelf(s.edges, o);
    } else if Reaches(s.edges, o, k) {
      var p :| Path(s.edges, p) && p[0] == o && p[|p| - 1] == k;
      LastEdge(s.edges, p);
    }
  }

  /** Not so for the address space of a kernel object, which registers no dependency.  Unloading o
      leaves kernel k with the name of an unloaded address space exactly if k is another object and
      its address space depends on o, or is o. */
  lemma KernelAddrSpaceDangles(s: State, o: Ptr, gone: set<Ptr>, t: State, k: Ptr)
    requires Consistent(s) && o in s.objects && Unloaded(s, o, true, gone, t)
    requires k in s.objects && s.objects[k].KernelObject? && s.objects[k].addrSpace in s.objects
    ensures k in t.objects && t.objects[k].addrSpace !in t.objects <==> k != o && Reaches(s.edges, o, s.objects[k].addrSpace)
  {
    UnloadExact(s, o, true, gone, t);
    KernelOnlyFromItself(s, o, k);
  }

  /** An address space, and a kernel that names it. */
  function KernelOf(a: Ptr, k: Ptr): State {
    State(map[a := AddrSpcObject(0, NIL), k := KernelObject(0, a, 1)], [],
          map[SHMem := [], Thread := [], AddrSpc := [a], Kernel := [k]])
  }

  lemma KernelOfConsistent(a: Ptr, k: Ptr)
    requires a != NIL && k != NIL && a != k
    ensures Consistent(KernelOf(a, k))
  {
    var s := KernelOf(a, k);
    forall j: Kind
      ensures j in s.peers && Distinct(s.peers[j]) && forall o :: o in s.peers[j] <==> o in s.objects && KindOf(s.objects[o]) == j
    {
      match j case SHMem => case Thread => case AddrSpc => case Kernel =>
    }
    assert WellTyped(s.objects) && Derived(s.objects, s.edges);
  }

  lemma KernelOfUnload(a: Ptr, k: Ptr)
    requires a != k
    ensures Unloaded(KernelOf(a, k), a, true, {a}, Purge(KernelOf(a, k), {a}))
  {
    ReachesSelf(KernelOf(a, k).edges, a);
  }

  /** It happens: a kernel stays loaded when its address space goes. */
  lemma KernelCanDangle()
    ensures exists s: State, k: Ptr, a: Ptr, gone: set<Ptr>, t: State ::
      && Consistent(s) && a in s.objects && Unloaded(s, a, true, gone, t)
      && k in t.objects && t.objects[k].KernelObject? && t.objects[k].addrSpace == a && a !in t.objects
  {
    KernelOfConsistent(8, 16);
    KernelOfUnload(8, 16);
    assert 16 in Purge(KernelOf(8, 16), {8}).objects;
  }
}
