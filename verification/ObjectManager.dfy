/** objmgmt.c: caching and uncaching of kernel objects, with the cascade of dependent unloads.

    An object is named by the address of its header (a DESCRIPTOR).  Fields of headers are maps
    from that address, so a header that was freed has no fields: a dangling descriptor is one
    that is missing from `objects`. */
module ObjectManager {
  import opened CkErrors
  import opened DList
  import opened DepGraph
  import opened ObjectModel

  type Links = map<Ptr, Ptr>

  /** Each kind's peer list is linked in both directions; its head variable names the newest object. */
  ghost predicate PeerLinks(peers: map<Kind, seq<Ptr>>, head: map<Kind, Ptr>, prev: Links, next: Links) {
    forall k: Kind :: PeerList(peers, head, prev, next, k)
  }

  ghost predicate PeerList(peers: map<Kind, seq<Ptr>>, head: map<Kind, Ptr>, prev: Links, next: Links, k: Kind) {
    k in peers && k in head && Linked(peers[k], prev, next) && head[k] == At(peers[k], |peers[k]| - 1)
  }

  ghost predicate Apart(peers: map<Kind, seq<Ptr>>) {
    forall j: Kind, k: Kind, o :: j in peers && k in peers && o in peers[j] && o in peers[k] ==> j == k
  }

  lemma ListedApart(m: Objects, peers: map<Kind, seq<Ptr>>)
    requires Listed(m, peers)
    ensures Apart(peers)
  {
    forall j: Kind, k: Kind, o | j in peers && k in peers && o in peers[j] && o in peers[k]
      ensures j == k
    {
      assert KindOf(m[o]) == j && KindOf(m[o]) == k;
    }
  }

  /** Unlinking object o from the list of kind k. */
  lemma DelistLinks(peers: map<Kind, seq<Ptr>>, head: map<Kind, Ptr>, prev: Links, next: Links, k: Kind, i: nat,
                    head': map<Kind, Ptr>, prev': Links, next': Links)
    requires PeerLinks(peers, head, prev, next) && Apart(peers) && k in peers && i < |peers[k]| && Node(peers[k], prev, next, i)
    requires var o := peers[k][i];
             && next' == (if prev[o] != NIL then next[prev[o] := next[o]] else next)
             && prev' == (if next[o] != NIL then prev[next[o] := prev[o]] else prev)
             && head' == (if next[o] != NIL then head else head[k := prev[o]])
    ensures PeerLinks(peers[k := Without(peers[k], i)], head', prev', next')
  {
    var s := peers[k];
    assert PeerList(peers, head, prev, next, k);
    if i + 1 < |s| { assert Node(s, prev, next, i + 1); }
    Unlink(s, i, prev, next, prev', next');
    assert At(Without(s, i), |s| - 2) == if i + 1 < |s| then At(s, |s| - 1) else At(s, |s| - 2);
    var peers' := peers[k := Without(s, i)];
    forall j: Kind
      ensures PeerList(peers', head', prev', next', j)
    {
      if j != k { DelistOther(peers, head, prev, next, k, i, j, head', prev', next'); }
    }
  }

  lemma DelistOther(peers: map<Kind, seq<Ptr>>, head: map<Kind, Ptr>, prev: Links, next: Links, k: Kind, i: nat, j: Kind,
                    head': map<Kind, Ptr>, prev': Links, next': Links)
    requires PeerLinks(peers, head, prev, next) && Apart(peers) && k in peers && i < |peers[k]| && Node(peers[k], prev, next, i)
    requires var o := peers[k][i];
             && next' == (if prev[o] != NIL then next[prev[o] := next[o]] else next)
             && prev' == (if next[o] != NIL then prev[next[o] := prev[o]] else prev)
    requires j != k && (j in head ==> j in head' && head'[j] == head[j])
    ensures PeerList(peers, head', prev', next', j)
  {
    var s := peers[k];
    assert PeerList(peers, head, prev, next, j);
    if i > 0 { assert s[i - 1] in s; }
    if i + 1 < |s| { assert s[i + 1] in s; }
    Frame(peers[j], prev, next, prev', next');
  }

  /** Appending object o to the list of kind k. */
  lemma EnlistLinks(peers: map<Kind, seq<Ptr>>, head: map<Kind, Ptr>, prev: Links, next: Links, k: Kind, o: Ptr,
                    head': map<Kind, Ptr>, prev': Links, next': Links)
    requires PeerLinks(peers, head, prev, next) && Apart(peers) && k in peers && k in head && o != NIL
    requires forall j: Kind :: j in peers ==> o !in peers[j]
    requires prev' == prev[o := head[k]] && head' == head[k := o]
    requires next' == if head[k] != NIL then next[o := NIL][head[k] := o] else next[o := NIL]
    ensures PeerLinks(peers[k := peers[k] + [o]], head', prev', next')
  {
    var s := peers[k];
    assert PeerList(peers, head, prev, next, k);
    assert Insert(s, |s|, o) == s + [o];
    Link(s, |s|, o, prev, next, prev', next');
    var peers' := peers[k := s + [o]];
    forall j: Kind
      ensures PeerList(peers', head', prev', next', j)
    {
      if j != k { EnlistOther(peers, head, prev, next, k, o, j, head', prev', next'); }
    }
  }

  lemma EnlistOther(peers: map<Kind, seq<Ptr>>, head: map<Kind, Ptr>, prev: Links, next: Links, k: Kind, o: Ptr, j: Kind,
                    head': map<Kind, Ptr>, prev': Links, next': Links)
    requires PeerLinks(peers, head, prev, next) && Apart(peers) && k in peers && k in head && j != k
    requires forall i: Kind :: i in peers ==> o !in peers[i]
    requires prev' == prev[o := head[k]] && head' == head[k := o]
    requires next' == if head[k] != NIL then next[o := NIL][head[k] := o] else next[o := NIL]
    ensures PeerList(peers, head', prev', next', j)
  {
    var s := peers[k];
    assert PeerList(peers, head, prev, next, j) && PeerList(peers, head, prev, next, k);
    if |s| > 0 { assert Node(s, prev, next, |s| - 1) && s[|s| - 1] in s; }
    Frame(peers[j], prev, next, prev', next');
  }

  lemma PurgePeers(s: State, o: Ptr, k: Kind)
    requires Listed(s.objects, s.peers) && o in s.objects && KindOf(s.objects[o]) == k
    ensures k in s.peers && s.peers[k := KeepNodes(s.peers[k], {o})] == Purge(s, {o}).peers
  {
    forall j: Kind
      ensures j in s.peers && (j != k ==> KeepNodes(s.peers[j], {o}) == s.peers[j])
    {
      if j != k { KeepNodesNone(s.peers[j], {o}); }
    }
  }

  const CURRENT: Ptr := 0xFFFF_FFFF  // (VOID *) -1: inherit the parent kernel of the current thread

  /** The loader structures of the callers. */
  datatype Request =
    | ThreadRequest(addressSpace: Ptr, parentKernel: Ptr, quantum: int, defer: int)
    | AddrSpcRequest(parentKernel: Ptr)
    | KernelRequest(addrSpace: Ptr, sigHandler: Ptr)
    | SHMemRequest
    | UnknownRequest

  /** The descriptors in a request are NIL or live; a parent kernel may also be the inherited one. */
  ghost predicate Nameable(m: Objects, r: Request) {
    && CURRENT !in m
    && match r
       case ThreadRequest(a, k, _, _) => (a != NIL ==> a in m) && (k != NIL && k != CURRENT ==> k in m)
       case AddrSpcRequest(k) => k != NIL && k != CURRENT ==> k in m
       case KernelRequest(a, _) => a != NIL ==> a in m
       case SHMemRequest => true
       case UnknownRequest => true
  }

  ghost predicate KernelOrNone(m: Objects, k: Ptr) {
    k == NIL || k == CURRENT || Live(m, k, Kernel)
  }

  /** The error code of a cache call: that of the first test that fails. */
  ghost function Refusal(m: Objects, r: Request, flags: nat, memory: Ptr): int {
    if r.UnknownRequest? then EUNDEFOBJ
    else if flags % 2 == 1 then ENOLOCKPERMS
    else if r.ThreadRequest? && !Live(m, r.addressSpace, AddrSpc) then ENOVALIDADDRSPC
    else if r.ThreadRequest? && (r.quantum == 0 || r.defer == 0) then EINSCHEDPARMS
    else if (r.ThreadRequest? || r.AddrSpcRequest?) && !KernelOrNone(m, r.parentKernel) then ENOVALIDKERNEL
    else if r.KernelRequest? && !Live(m, r.addrSpace, AddrSpc) then ENOVALIDADDRSPC
    else if r.KernelRequest? && r.sigHandler == NIL then ENOSIGHANDL
    else if memory == NIL then ENOMEM
    else 0
  }

  /** These tests in the order and with the codes of the four load functions, for every request. */
  lemma RefusalCodes(m: Objects, r: Request, flags: nat, memory: Ptr)
    requires NIL !in m && Nameable(m, r)
    ensures Refusal(m, r, flags, memory) ==
      match r
      case ThreadRequest(a, k, quantum, defer) =>
        if flags % 2 == 1 then -7
        else if a == NIL || !m[a].AddrSpcObject? then -1
        else if quantum == 0 || defer == 0 then -3
        else if k != NIL && k != 0xFFFF_FFFF && !m[k].KernelObject? then -2
        else if memory == NIL then -4 else 0
      case AddrSpcRequest(k) =>
        if flags % 2 == 1 then -7
        else if k != NIL && k != 0xFFFF_FFFF && !m[k].KernelObject? then -2
        else if memory == NIL then -4 else 0
      case SHMemRequest =>
        if flags % 2 == 1 then -7 else if memory == NIL then -4 else 0
      case KernelRequest(a, sigHandler) =>
        if flags % 2 == 1 then -7
        else if a == NIL || !m[a].AddrSpcObject? then -1
        else if sigHandler == NIL then -13
        else if memory == NIL then -4 else 0
      case UnknownRequest => -5
  {
  }

  /** The parent kernel of a new object: -1 stands for that of the current thread, if there is one. */
  function Inherit(parentKernel: Ptr, current: Ptr): Ptr {
    if parentKernel == CURRENT then current else parentKernel
  }

  /** The object asked for, where thread is the current thread and current its parent kernel. */
  function Wanted(r: Request, flags: nat, thread: Ptr, current: Ptr): Object
    requires !r.UnknownRequest?
  {
    match r
    case ThreadRequest(a, k, quantum, defer) => ThreadObject(flags, a, Inherit(k, current), quantum, defer)
    case AddrSpcRequest(k) => AddrSpcObject(flags, Inherit(k, current))
    case KernelRequest(a, sigHandler) => KernelObject(flags, a, sigHandler)
    case SHMemRequest => SHMemObject(flags, thread)
  }

  /** A cache call loads exactly the object asked for, unlocked and with all its fields, at memory; or
      it returns the code of the first test that fails and changes nothing. */
  ghost predicate Cached(s: State, r: Request, flags: nat, thread: Ptr, current: Ptr, memory: Ptr, error: int, t: State) {
    && error == Refusal(s.objects, r, flags, memory)
    && (error != 0 ==> t == s)
    && (error == 0 ==>
          var obj := Wanted(r, flags, thread, current);
          KindOf(obj) in s.peers && MayLoad(s.objects, memory, obj) && !Locked(obj) && t == Load(s, memory, obj))
  }

  /** An object just loaded has the fields it was to have, and hangs on the objects they name. */
  lemma LoadedFields(s: State, o: Ptr, obj: Object, t: State)
    requires KindOf(obj) in s.peers && t == Load(s, o, obj) && Derived(t.objects, t.edges)
    ensures o in t.objects && t.objects[o] == obj
    ensures obj.ThreadObject? ==> Edge(obj.addressSpace, o) in t.edges
    ensures (obj.ThreadObject? || obj.AddrSpcObject?) && obj.parentKernel != NIL ==> Edge(obj.parentKernel, o) in t.edges
    ensures obj.SHMemObject? ==> Edge(obj.owner, o) in t.edges
  {
    NamesParents(obj);
  }

  /** A thread that inherited the parent kernel of the current thread is unloaded with that kernel. */
  lemma InheritedGoes(s: State, a: Ptr, quantum: int, defer: int, flags: nat, thread: Ptr, memory: Ptr, t: State,
                      gone: set<Ptr>, u: State)
    requires Consistent(s) && thread in s.objects && s.objects[thread].ThreadObject? && s.objects[thread].parentKernel != NIL
    requires Cached(s, ThreadRequest(a, 0xFFFF_FFFF, quantum, defer), flags, thread, s.objects[thread].parentKernel, memory, 0, t)
    requires s.objects[thread].parentKernel in t.objects && Unloaded(t, s.objects[thread].parentKernel, true, gone, u)
    ensures memory in t.objects && memory !in u.objects
  {
    var k := s.objects[thread].parentKernel;
    var obj := Wanted(ThreadRequest(a, 0xFFFF_FFFF, quantum, defer), flags, thread, k);
    LoadConsistent(s, memory, obj);
    LoadedFields(s, memory, obj, t);
    DependantGoes(t, k, memory, gone, u);
  }

  /** What the current kernel may do: cache an object, or uncache one. */
  datatype Call = Cache(request: Request, flags: nat, memory: Ptr) | Uncache(target: Ptr)

  class Manager {
    const graph: Graph
    var objects: Objects
    var nextObject: Links
    var prevObject: Links
    var head: map<Kind, Ptr>   // kernelObjHead, threadObjHead, addrSpcObjHead, shMemObjHead
    var currtask: Ptr
    ghost var peers: map<Kind, seq<Ptr>>

    ghost function Abstract(): State
      reads this, graph, graph.oda
      requires graph.Valid()
    {
      State(objects, graph.Edges(), peers)
    }

    ghost predicate Valid()
      reads this, graph, graph.oda
    {
      && graph.Valid() && graph.dependencies.Keys == objects.Keys
      && Consistent(Abstract())
      && PeerLinks(peers, head, prevObject, nextObject)
      && (currtask != NIL ==> currtask in objects && objects[currtask].ThreadObject?)
    }

    constructor ()
      ensures Valid() && objects == map[] && graph.Edges() == [] && currtask == NIL
    {
      graph := new Graph();
      objects, nextObject, prevObject := map[], map[], map[];
      head := map[SHMem := NIL, Thread := NIL, AddrSpc := NIL, Kernel := NIL];
      currtask := NIL;
      peers := map[SHMem := [], Thread := [], AddrSpc := [], Kernel := []];
      new;
      forall k: Kind
        ensures k in peers && peers[k] == [] && PeerList(peers, head, prevObject, nextObject, k)
      {
        match k case SHMem => case Thread => case AddrSpc => case Kernel =>
      }
    }

    // ---------- unloading ----------

    method RemoveDepSearch(parent: Ptr, child: Ptr)
      requires graph.Valid() && parent in graph.dependencies && Distinct(graph.Edges())
      modifies graph, graph.oda
      ensures graph.Valid() && Distinct(graph.Edges()) && graph.dependencies.Keys == old(graph.dependencies.Keys)
      ensures forall e :: e in graph.Edges() <==> e in old(graph.Edges()) && e != Edge(parent, child)
      ensures KeepEdges(graph.Edges(), {child}) == KeepEdges(old(graph.Edges()), {child})
    {
      ghost var es := graph.Edges();
      assert Slice(es, graph.dependencies, graph.firstDependency, parent);
      ghost var first := if graph.dependencies[parent] > 0 then graph.firstDependency[parent] else 0;
      var i := 0;
      while i < graph.dependencies[parent]
        invariant i <= graph.dependencies[parent]
        invariant forall j :: first <= j < first + i ==> es[j] != Edge(parent, child)
      {
        if graph.oda[graph.firstDependency[parent] + i].child == child {
          var k := graph.firstDependency[parent] + i;
          KeepEdgesWithout(es, k, {child});
          WithoutDistinct(es, k);
          forall e
            ensures e in Without(es, k) <==> e in es && e != es[k]
          {
            WithoutElements(es, k, e);
          }
          graph.RemoveObjectDep(k);
          return;
        }
        i := i + 1;
      }
    }

    /** Takes an object without edges off its peer list and returns the memory of its header. */
    method Delist(o: Ptr, k: Kind)
      requires PeerLinks(peers, head, prevObject, nextObject) && Apart(peers)
      requires k in peers && o in peers[k] && Distinct(peers[k])
      modifies this`nextObject, this`prevObject, this`head, this`peers
      ensures PeerLinks(peers, head, prevObject, nextObject)
      ensures peers == old(peers)[k := KeepNodes(old(peers)[k], {o})]
    {
      ghost var i: nat :| i < |peers[k]| && peers[k][i] == o;
      assert PeerList(peers, head, prevObject, nextObject, k) && Node(peers[k], prevObject, nextObject, i);
      if prevObject[o] != NIL {
        nextObject := nextObject[prevObject[o] := nextObject[o]];
      }
      if nextObject[o] != NIL {
        prevObject := prevObject[nextObject[o] := prevObject[o]];
      } else {
        head := head[k := prevObject[o]];
      }
      DelistLinks(peers, old(head), old(prevObject), old(nextObject), k, i, head, prevObject, nextObject);
      KeepNodesWithout(peers[k], i);
      peers := peers[k := Without(peers[k], i)];
    }

    ghost predicate Unloadable(o: Ptr)
      reads this, graph, graph.oda
    {
      Valid() && o in objects && o != currtask && graph.dependencies[o] == 0
    }

    lemma NoDependants(o: Ptr)
      requires Unloadable(o)
      ensures forall e :: e in graph.Edges() ==> e.parent != o
    {
      assert Slice(graph.Edges(), graph.dependencies, graph.firstDependency, o);
    }

    lemma FirstDependant(o: Ptr)
      requires Valid() && o in objects && graph.dependencies[o] > 0
      ensures o in graph.firstDependency && 0 <= graph.firstDependency[o] <= graph.lastDep
      ensures var e := graph.oda[graph.firstDependency[o]];
              && e in graph.Edges() && e.parent == o && e.child in objects
              && Rank(KindOf(objects[e.child])) < Rank(KindOf(objects[o]))
    {
      assert Slice(graph.Edges(), graph.dependencies, graph.firstDependency, o);
      var e := graph.Edges()[graph.firstDependency[o]];
      assert e.parent == o;
      RankDrops(objects, graph.Edges(), e);
    }

    /** Off the peer list, and the memory of the header is returned. */
    method Scrap(o: Ptr, k: Kind)
      requires graph.Valid() && graph.dependencies.Keys == objects.Keys
      requires PeerLinks(peers, head, prevObject, nextObject) && Apart(peers)
      requires k in peers && o in peers[k] && Distinct(peers[k])
      requires forall e :: e in graph.Edges() ==> e.parent != o
      modifies this`objects, this`nextObject, this`prevObject, this`head, this`peers, graph`dependencies
      ensures graph.Valid() && graph.dependencies.Keys == objects.Keys && graph.Edges() == old(graph.Edges())
      ensures PeerLinks(peers, head, prevObject, nextObject)
      ensures objects == old(objects) - {o} && peers == old(peers)[k := KeepNodes(old(peers)[k], {o})]
    {
      Delist(o, k);
      objects := objects - {o};
      graph.DropHeader(o);
    }

    /** The common end of all unload functions: s is the state before o's own edges were removed. */
    method FreeHeader(o: Ptr, k: Kind, ghost s: State)
      requires graph.Valid() && graph.dependencies.Keys == objects.Keys
      requires s.objects == objects && s.peers == peers && Consistent(s) && PeerLinks(peers, head, prevObject, nextObject)
      requires o in objects && KindOf(objects[o]) == k && o != currtask
      requires currtask != NIL ==> currtask in objects && objects[currtask].ThreadObject?
      requires forall e :: e in s.edges ==> e.parent != o
      requires graph.Edges() == KeepEdges(s.edges, {o})
      modifies this`objects, this`nextObject, this`prevObject, this`head, this`peers, graph`dependencies
      ensures Valid() && Abstract() == Purge(s, {o})
    {
      ListedApart(objects, peers);
      PurgePeers(s, o, k);
      PurgeConsistent(s, {o});
      Scrap(o, k);
      assert Abstract() == Purge(s, {o});
    }

    /** "remove dependencies" of a thread, from its address space and from its parent kernel if it has one. */
    method RemoveFromBoth(a: Ptr, k: Ptr, o: Ptr)
      requires graph.Valid() && Distinct(graph.Edges())
      requires a in graph.dependencies && (k != NIL ==> k in graph.dependencies)
      requires forall e :: e in graph.Edges() && e.child == o ==> e.parent == a || (k != NIL && e.parent == k)
      modifies graph, graph.oda
      ensures graph.Valid() && graph.dependencies.Keys == old(graph.dependencies.Keys)
      ensures graph.Edges() == KeepEdges(old(graph.Edges()), {o})
    {
      RemoveDepSearch(a, o);
      if k != NIL { RemoveDepSearch(k, o); }
      KeepEdgesNone(graph.Edges(), {o});
    }

    method RemoveFromOne(p: Ptr, o: Ptr)
      requires graph.Valid() && Distinct(graph.Edges()) && p in graph.dependencies
      requires forall e :: e in graph.Edges() && e.child == o ==> e.parent == p
      modifies graph, graph.oda
      ensures graph.Valid() && graph.dependencies.Keys == old(graph.dependencies.Keys)
      ensures graph.Edges() == KeepEdges(old(graph.Edges()), {o})
    {
      RemoveDepSearch(p, o);
      KeepEdgesNone(graph.Edges(), {o});
    }

    method UnloadThreadObject(o: Ptr) returns (error: int)
      requires Unloadable(o) && objects[o].ThreadObject?
      modifies this`objects, this`nextObject, this`prevObject, this`head, this`peers, graph, graph.oda
      ensures Valid() && Abstract() == Purge(old(Abstract()), {o}) && error == 0
    {
      NoDependants(o);
      ghost var s := Abstract();
      var h := objects[o];
      OwnEdges(s.objects, s.edges, o);
      RemoveFromBoth(h.addressSpace, h.parentKernel, o);
      FreeHeader(o, Thread, s);
      error := 0;
    }

    method UnloadAddrSpcObject(o: Ptr) returns (error: int)
      requires Unloadable(o) && objects[o].AddrSpcObject?
      modifies this`objects, this`nextObject, this`prevObject, this`head, this`peers, graph, graph.oda
      ensures Valid() && Abstract() == Purge(old(Abstract()), {o}) && error == 0
    {
      NoDependants(o);
      ghost var s := Abstract();
      var h := objects[o];
      OwnEdges(s.objects, s.edges, o);
      if h.parentKernel != NIL { RemoveDepSearch(h.parentKernel, o); }
      KeepEdgesNone(graph.Edges(), {o});
      FreeHeader(o, AddrSpc, s);
      error := 0;
    }

    method UnloadSHMemObject(o: Ptr) returns (error: int)
      requires Unloadable(o) && objects[o].SHMemObject?
      modifies this`objects, this`nextObject, this`prevObject, this`head, this`peers, graph, graph.oda
      ensures Valid() && Abstract() == Purge(old(Abstract()), {o}) && error == 0
    {
      NoDependants(o);
      ghost var s := Abstract();
      var h := objects[o];
      OwnEdges(s.objects, s.edges, o);
      RemoveFromOne(h.owner, o);
      FreeHeader(o, SHMem, s);
      error := 0;
    }

    method UnloadKernelObject(o: Ptr) returns (error: int)
      requires Unloadable(o) && objects[o].KernelObject?
      modifies this`objects, this`nextObject, this`prevObject, this`head, this`peers, graph, graph.oda
      ensures Valid() && Abstract() == Purge(old(Abstract()), {o}) && error == 0
    {
      NoDependants(o);
      OwnEdges(objects, graph.Edges(), o);
      KeepEdgesNone(graph.Edges(), {o});
      FreeHeader(o, Kernel, Abstract());
      error := 0;
    }

    method UnloadByKind(o: Ptr) returns (error: int)
      requires Unloadable(o)
      modifies this`objects, this`nextObject, this`prevObject, this`head, this`peers, graph, graph.oda
      ensures Valid() && Abstract() == Purge(old(Abstract()), {o}) && error == 0
    {
      match KindOf(objects[o]) {
        case Thread => error := UnloadThreadObject(o);
        case AddrSpc => error := UnloadAddrSpcObject(o);
        case Kernel => error := UnloadKernelObject(o);
        case SHMem => error := UnloadSHMemObject(o);
      }
    }

    /** One round of a loop over the dependants of o: the first one that is left is unloaded. */
    method UnloadFirst(o: Ptr, ghost s: State, ghost before: set<Ptr>) returns (error: int, ghost gone: set<Ptr>)
      requires Valid() && o in objects && graph.dependencies[o] > 0
      requires o in s.objects && objects[o] == s.objects[o] && !Reaches(s.edges, o, currtask)
      requires Below(s, o, true, before, Abstract())
      modifies this`objects, this`nextObject, this`prevObject, this`head, this`peers, graph, graph.oda
      ensures Valid() && o in objects && objects[o] == old(objects[o])
      ensures error == 0 || error == ELOCKED
      ensures Below(s, o, error == 0, gone, Abstract())
      ensures error == 0 ==> |graph.Edges()| < |old(graph.Edges())|
      decreases Rank(KindOf(objects[o])), 0
    {
      FirstDependant(o);
      ghost var t := Abstract();
      var child := graph.oda[graph.firstDependency[o]].child;
      assert Edge(o, child) in t.edges;
      NotReached(s, o, before, t, child, currtask);
      ghost var more;
      error, more := UnloadObject(child);
      BelowStep(s, o, before, t, child, error == 0, more, Abstract());
      gone := before + more;
    }

    /** The loop over the dependants of o, up to the first error.  Each nested call shifts the edge
        array under the loop, which always takes the first remaining edge of o. */
    method UnloadDependants(o: Ptr) returns (error: int, ghost gone: set<Ptr>)
      requires Valid() && o in objects && !Reaches(graph.Edges(), o, currtask)
      modifies this`objects, this`nextObject, this`prevObject, this`head, this`peers, graph, graph.oda
      ensures Valid() && o in objects && objects[o] == old(objects[o])
      ensures error == 0 || error == ELOCKED
      ensures Below(old(Abstract()), o, error == 0, gone, Abstract())
      ensures error == 0 ==> graph.dependencies[o] == 0
      decreases Rank(KindOf(objects[o])), 1
    {
      error, gone := 0, {};
      ghost var s := Abstract();
      BelowStart(s, o);
      while graph.dependencies[o] > 0
        invariant Valid() && o in objects && objects[o] == s.objects[o] && error == 0
        invariant Below(s, o, true, gone, Abstract())
        decreases |graph.Edges()|
      {
        error, gone := UnloadFirst(o, s, gone);
        if error != 0 { return; }
      }
    }

    /** CKunloadObject: unloads o after everything that depends on it; gone is what was unloaded. */
    method UnloadObject(o: Ptr) returns (error: int, ghost gone: set<Ptr>)
      requires Valid() && o in objects && !Reaches(graph.Edges(), o, currtask)
      modifies this`objects, this`nextObject, this`prevObject, this`head, this`peers, graph, graph.oda
      ensures Valid()
      ensures error == 0 || error == ELOCKED
      ensures Unloaded(old(Abstract()), o, error == 0, gone, Abstract())
      ensures old(objects[o].flags) % 2 == 1 ==> error == ELOCKED == -6 && Abstract() == old(Abstract())
      ensures OddFlagsKept(old(objects), objects)
      decreases Rank(KindOf(objects[o])), 2
    {
      ghost var s := Abstract();
      if Locked(objects[o]) {
        LockedItself(s, o);
        return ELOCKED, {};
      }
      error, gone := UnloadDependants(o);
      if error != 0 {
        BelowFailed(s, o, gone, Abstract());
        OddFlagsStay(s, o, false, gone, Abstract());
        return;
      }
      ReachesSelf(s.edges, o);
      NoDependants(o);
      BelowDone(s, o, gone, Abstract());
      error := UnloadByKind(o);
      gone := gone + {o};
      OddFlagsStay(s, o, true, gone, Abstract());
    }

    /** CKunCacheObjectKernelCode.  A locked dependant would keep its loop from ending, so none may
        be below o; o itself may be locked. */
    method UncacheObject(o: Ptr) returns (error: int, ghost gone: set<Ptr>)
      requires Valid() && o in objects && !Reaches(graph.Edges(), o, currtask)
      requires !Locked(objects[o]) ==> !LockedBelow(Abstract(), o)
      modifies this`objects, this`nextObject, this`prevObject, this`head, this`peers, graph, graph.oda
      ensures Valid() && Abstract() == Purge(old(Abstract()), gone)
      ensures error == if old(objects[o].flags) % 2 == 1 then -6 else 0
      ensures error != 0 ==> gone == {} && Abstract() == old(Abstract())
      ensures OddFlagsKept(old(objects), objects)
      ensures error == 0 ==> Unloaded(old(Abstract()), o, true, gone, Abstract())
      ensures error == 0 ==> forall x :: x in gone <==> Reaches(old(graph.Edges()), o, x)
    {
      ghost var s := Abstract();
      error, gone := 0, {};
      BelowStart(s, o);
      if Locked(objects[o]) {
        PurgeNothing(s);
        return ELOCKED, {};
      }
      while graph.dependencies[o] > 0
        invariant Valid() && o in objects && objects[o] == s.objects[o] && error == 0
        invariant Below(s, o, true, gone, Abstract())
        decreases |graph.Edges()|
      {
        error, gone := UnloadFirst(o, s, gone);
      }
      ReachesSelf(s.edges, o);
      NoDependants(o);
      BelowDone(s, o, gone, Abstract());
      gone := gone + {o};
      if error == 0 {
        error := UnloadByKind(o);
      }
      UnloadExact(s, o, true, gone, Abstract());
      OddFlagsStay(s, o, true, gone, Abstract());
    }

    lemma StillDependants(o: Ptr, s: State, gone: set<Ptr>)
      requires Valid() && o in objects && o in s.objects && Below(s, o, true, gone, Abstract())
      requires !Locked(s.objects[o]) && LockedBelow(s, o)
      ensures graph.dependencies[o] > 0
    {
      LockedNeverDone(s, o, gone, Rank(KindOf(s.objects[o])) - 1);
      var c :| Edge(o, c) in Purge(s, gone).edges;
      var i :| 0 <= i < |graph.Edges()| && graph.Edges()[i] == Edge(o, c);
      assert Slice(graph.Edges(), graph.dependencies, graph.firstDependency, o);
    }

    /** The first n rounds of the loop of CKunCacheObjectKernelCode, which passes over errors.  With a
        locked object below o there is always another round to come. */
    method UncacheRounds(o: Ptr, n: nat) returns (rounds: nat)
      requires Valid() && o in objects && !Locked(objects[o]) && !Reaches(graph.Edges(), o, currtask)
      modifies this`objects, this`nextObject, this`prevObject, this`head, this`peers, graph, graph.oda
      ensures Valid() && o in objects && rounds <= n
      ensures rounds < n ==> graph.dependencies[o] == 0
      ensures LockedBelow(old(Abstract()), o) ==> rounds == n && graph.dependencies[o] > 0
      ensures OddFlagsKept(old(objects), objects)
    {
      rounds := 0;
      ghost var s, gone := Abstract(), {};
      BelowStart(s, o);
      while rounds < n && graph.dependencies[o] > 0
        invariant Valid() && o in objects && objects[o] == s.objects[o] && rounds <= n
        invariant Below(s, o, true, gone, Abstract())
        decreases n - rounds
      {
        var error;
        error, gone := UnloadFirst(o, s, gone);
        rounds := rounds + 1;
      }
      if LockedBelow(s, o) { StillDependants(o, s, gone); }
    }

    // ---------- loading ----------

    method Enlist(o: Ptr, k: Kind)
      requires PeerLinks(peers, head, prevObject, nextObject) && Apart(peers) && k in peers && k in head
      requires o != NIL && forall j: Kind :: j in peers ==> o !in peers[j]
      modifies this`nextObject, this`prevObject, this`head, this`peers
      ensures PeerLinks(peers, head, prevObject, nextObject)
      ensures peers == old(peers)[k := old(peers)[k] + [o]]
    {
      nextObject := nextObject[o := NIL];
      prevObject := prevObject[o := head[k]];
      if head[k] != NIL {
        nextObject := nextObject[head[k] := o];
      }
      head := head[k := o];
      EnlistLinks(peers, old(head), old(prevObject), old(nextObject), k, o, head, prevObject, nextObject);
      peers := peers[k := peers[k] + [o]];
    }

    /** What all load functions do once the request is found valid: a new header, the newest of its
        kind, with no dependants, and then an edge from every object it depends on. */
    method Install(o: Ptr, obj: Object)
      requires graph.Valid() && graph.dependencies.Keys == objects.Keys && graph.lastDep + 2 < MAXDEPS
      requires PeerLinks(peers, head, prevObject, nextObject) && Apart(peers) && KindOf(obj) in peers
      requires o != NIL && o !in objects && forall j: Kind :: j in peers ==> o !in peers[j]
      requires forall p :: p in ParentList(obj) ==> p in objects
      modifies this`objects, this`nextObject, this`prevObject, this`head, this`peers, graph, graph.oda
      ensures graph.Valid() && graph.dependencies.Keys == objects.Keys
      ensures PeerLinks(peers, head, prevObject, nextObject)
      ensures objects == old(objects)[o := obj]
      ensures Abstract() == Load(old(Abstract()), o, obj)
    {
      assert PeerList(peers, head, prevObject, nextObject, KindOf(obj));
      Enlist(o, KindOf(obj));
      FillHeader(o, obj);
    }

    /** The fields of the header, and the edges. */
    method FillHeader(o: Ptr, obj: Object)
      requires graph.Valid() && graph.dependencies.Keys == objects.Keys && graph.lastDep + 2 < MAXDEPS
      requires o !in objects && forall p :: p in ParentList(obj) ==> p in objects
      modifies this`objects, graph, graph.oda
      ensures graph.Valid() && graph.dependencies.Keys == objects.Keys
      ensures objects == old(objects)[o := obj] && graph.Edges() == AddEdges(old(graph.Edges()), ParentList(obj), o)
    {
      objects := objects[o := obj];
      graph.InitHeader(o);
      AddDependencies(o, obj);
    }

    method Register(o: Ptr, obj: Object)
      requires Valid() && MayLoad(objects, o, obj) && graph.lastDep + 2 < MAXDEPS
      modifies this`objects, this`nextObject, this`prevObject, this`head, this`peers, graph, graph.oda
      ensures Valid()
      ensures KindOf(obj) in old(peers) && Abstract() == Load(old(Abstract()), o, obj)
      ensures o in objects && objects[o] == obj
      ensures obj.ThreadObject? ==> Edge(obj.addressSpace, o) in graph.Edges()
      ensures (obj.ThreadObject? || obj.AddrSpcObject?) && obj.parentKernel != NIL ==> Edge(obj.parentKernel, o) in graph.Edges()
      ensures obj.SHMemObject? ==> Edge(obj.owner, o) in graph.Edges()
    {
      ghost var s := Abstract();
      assert KindOf(obj) in peers;
      LoadConsistent(Abstract(), o, obj);
      ListedApart(objects, peers);
      MayLoadFacts(objects, peers, o, obj);
      Install(o, obj);
      LoadedFields(s, o, obj, Abstract());
    }

    /** "Load the object dependencies", for each kind of object. */
    method AddDependencies(o: Ptr, obj: Object)
      requires graph.Valid() && graph.lastDep + 2 < MAXDEPS
      requires forall p :: p in ParentList(obj) ==> p in graph.dependencies
      modifies graph, graph.oda
      ensures graph.Valid() && graph.dependencies.Keys == old(graph.dependencies).Keys
      ensures graph.Edges() == AddEdges(old(graph.Edges()), ParentList(obj), o)
    {
      NamesParents(obj);
      AddEdgesUnfold(graph.Edges(), obj, o);
      match obj
      case ThreadObject(_, addressSpace, parentKernel, _, _) =>
        AddTwo(addressSpace, parentKernel, o);
      case AddrSpcObject(_, parentKernel) =>
        if parentKernel != NIL { AddOne(parentKernel, o); }
      case SHMemObject(_, owner) =>
        AddOne(owner, o);
      case KernelObject(_, _, _) =>
    }

    /** The dependencies of a thread. */
    method AddTwo(addressSpace: Ptr, parentKernel: Ptr, o: Ptr)
      requires graph.Valid() && graph.lastDep + 2 < MAXDEPS && addressSpace in graph.dependencies
      requires parentKernel != NIL ==> parentKernel in graph.dependencies
      modifies graph, graph.oda
      ensures graph.Valid() && graph.dependencies.Keys == old(graph.dependencies).Keys
      ensures var es := AddEdge(old(graph.Edges()), Edge(addressSpace, o));
              graph.Edges() == if parentKernel != NIL then AddEdge(es, Edge(parentKernel, o)) else es
    {
      AddOne(addressSpace, o);
      if parentKernel != NIL { AddOne(parentKernel, o); }
    }

    method AddOne(parent: Ptr, o: Ptr)
      requires graph.Valid() && parent in graph.dependencies && graph.lastDep + 1 < MAXDEPS
      modifies graph, graph.oda
      ensures graph.Valid() && graph.dependencies.Keys == old(graph.dependencies).Keys
      ensures graph.Edges() == AddEdge(old(graph.Edges()), Edge(parent, o)) && graph.lastDep == old(graph.lastDep) + 1
    {
      graph.AddObjectDep(parent, o);
    }

    /** The parent kernel of the current thread, if there is one. */
    function ParentOfCurrent(): Ptr
      reads this
      requires currtask != NIL ==> currtask in objects && objects[currtask].ThreadObject?
    {
      if currtask != NIL then objects[currtask].parentKernel else NIL
    }

    /** The tests of CKloadThreadObject; memory is what CKmemAlloc returns. */
    method TestThread(addressSpace: Ptr, parentKernel: Ptr, quantum: int, defer: int, flags: nat, memory: Ptr) returns (error: int)
      requires NIL !in objects && Nameable(objects, ThreadRequest(addressSpace, parentKernel, quantum, defer))
      ensures error == Refusal(objects, ThreadRequest(addressSpace, parentKernel, quantum, defer), flags, memory)
    {
      if flags % 2 == 1 { return ENOLOCKPERMS; }
      if addressSpace == NIL || KindOf(objects[addressSpace]) != AddrSpc { return ENOVALIDADDRSPC; }
      if quantum == 0 || defer == 0 { return EINSCHEDPARMS; }
      if parentKernel != NIL && parentKernel != CURRENT && KindOf(objects[parentKernel]) != Kernel { return ENOVALIDKERNEL; }
      if memory == NIL { return ENOMEM; }
      error := 0;
    }

    /** CKloadThreadObject; memory is the address that CKmemAlloc returns for the header. */
    method LoadThreadObject(addressSpace: Ptr, parentKernel: Ptr, quantum: int, defer: int, flags: nat, memory: Ptr)
      returns (error: int)
      requires Valid() && memory !in objects && graph.lastDep + 2 < MAXDEPS
      requires Nameable(objects, ThreadRequest(addressSpace, parentKernel, quantum, defer))
      modifies this`objects, this`nextObject, this`prevObject, this`head, this`peers, graph, graph.oda
      ensures Valid()
      ensures Cached(old(Abstract()), ThreadRequest(addressSpace, parentKernel, quantum, defer), flags,
                     currtask, old(ParentOfCurrent()), memory, error, Abstract())
      ensures error == 0 ==>
        && memory in objects && objects[memory].ThreadObject? && objects[memory].flags == flags
        && objects[memory].addressSpace == addressSpace && Edge(addressSpace, memory) in graph.Edges()
        && objects[memory].parentKernel == (if parentKernel != 0xFFFF_FFFF then parentKernel else if currtask == NIL then NIL else old(objects)[currtask].parentKernel)
        && (objects[memory].parentKernel != NIL ==> Edge(objects[memory].parentKernel, memory) in graph.Edges())
        && objects[memory].quantum == quantum && objects[memory].defer == defer
    {
      error := TestThread(addressSpace, parentKernel, quantum, defer, flags, memory);
      if error != 0 { return; }
      assert currtask != NIL ==> References(objects, objects[currtask]);
      var obj := ThreadObject(flags, addressSpace, Inherit(parentKernel, ParentOfCurrent()), quantum, defer);
      Register(memory, obj);
      error := 0;
    }

    method LoadAddrSpcObject(parentKernel: Ptr, flags: nat, memory: Ptr) returns (error: int)
      requires Valid() && memory !in objects && graph.lastDep + 2 < MAXDEPS
      requires Nameable(objects, AddrSpcRequest(parentKernel))
      modifies this`objects, this`nextObject, this`prevObject, this`head, this`peers, graph, graph.oda
      ensures Valid()
      ensures Cached(old(Abstract()), AddrSpcRequest(parentKernel), flags, currtask, old(ParentOfCurrent()), memory, error, Abstract())
      ensures error == 0 ==>
        && memory in objects && objects[memory].AddrSpcObject? && objects[memory].flags == flags
        && objects[memory].parentKernel == (if parentKernel != 0xFFFF_FFFF then parentKernel else if currtask == NIL then NIL else old(objects)[currtask].parentKernel)
        && (objects[memory].parentKernel != NIL ==> Edge(objects[memory].parentKernel, memory) in graph.Edges())
    {
      if flags % 2 == 1 { return ENOLOCKPERMS; }
      if parentKernel != NIL && parentKernel != CURRENT && KindOf(objects[parentKernel]) != Kernel { return ENOVALIDKERNEL; }
      if memory == NIL { return ENOMEM; }
      assert currtask != NIL ==> References(objects, objects[currtask]);
      var obj := AddrSpcObject(flags, Inherit(parentKernel, ParentOfCurrent()));
      Register(memory, obj);
      error := 0;
    }

    /** CKloadSHMemObject; the owner is the current thread, which must exist. */
    method LoadSHMemObject(flags: nat, memory: Ptr) returns (error: int)
      requires Valid() && memory !in objects && graph.lastDep + 2 < MAXDEPS && currtask != NIL
      modifies this`objects, this`nextObject, this`prevObject, this`head, this`peers, graph, graph.oda
      ensures Valid()
      ensures Cached(old(Abstract()), SHMemRequest, flags, currtask, old(ParentOfCurrent()), memory, error, Abstract())
      ensures error == 0 ==>
        && memory in objects && objects[memory].SHMemObject? && objects[memory].flags == flags
        && objects[memory].owner == currtask && Edge(currtask, memory) in graph.Edges()
    {
      if flags % 2 == 1 { return ENOLOCKPERMS; }
      if memory == NIL { return ENOMEM; }
      var obj := SHMemObject(flags, currtask);
      Register(memory, obj);
      error := 0;
    }

    method LoadKernelObject(addrSpace: Ptr, sigHandler: Ptr, flags: nat, memory: Ptr) returns (error: int)
      requires Valid() && memory !in objects && graph.lastDep + 2 < MAXDEPS
      requires Nameable(objects, KernelRequest(addrSpace, sigHandler))
      modifies this`objects, this`nextObject, this`prevObject, this`head, this`peers, graph, graph.oda
      ensures Valid()
      ensures Cached(old(Abstract()), KernelRequest(addrSpace, sigHandler), flags, currtask, old(ParentOfCurrent()), memory, error, Abstract())
      ensures error == 0 ==>
        && memory in objects && objects[memory].KernelObject? && objects[memory].flags == flags
        && objects[memory].addrSpace == addrSpace && objects[memory].sigHandler == sigHandler
    {
      if flags % 2 == 1 { return ENOLOCKPERMS; }
      if addrSpace == NIL || KindOf(objects[addrSpace]) != AddrSpc { return ENOVALIDADDRSPC; }
      if sigHandler == NIL { return ENOSIGHANDL; }
      if memory == NIL { return ENOMEM; }
      var obj := KernelObject(flags, addrSpace, sigHandler);
      Register(memory, obj);
      error := 0;
    }

    /** CKcacheObjectKernelCode. */
    method CacheObject(request: Request, flags: nat, memory: Ptr) returns (error: int)
      requires Valid() && memory !in objects && graph.lastDep + 2 < MAXDEPS
      requires Nameable(objects, request)
      requires request.SHMemRequest? ==> currtask != NIL
      modifies this`objects, this`nextObject, this`prevObject, this`head, this`peers, graph, graph.oda
      ensures Valid()
      ensures Cached(old(Abstract()), request, flags, currtask, old(ParentOfCurrent()), memory, error, Abstract())
      ensures error == 0 ==> memory in objects && objects[memory].flags == flags
      ensures error == 0 && (request.ThreadRequest? || request.AddrSpcRequest?) ==>
        && (objects[memory].ThreadObject? <==> request.ThreadRequest?) && (objects[memory].AddrSpcObject? <==> request.AddrSpcRequest?)
        && objects[memory].parentKernel == (if request.parentKernel != 0xFFFF_FFFF then request.parentKernel else if currtask == NIL then NIL else old(objects)[currtask].parentKernel)
        && (objects[memory].parentKernel != NIL ==> Edge(objects[memory].parentKernel, memory) in graph.Edges())
      ensures error == 0 && request.ThreadRequest? ==>
        && objects[memory].addressSpace == request.addressSpace && Edge(request.addressSpace, memory) in graph.Edges()
        && objects[memory].quantum == request.quantum && objects[memory].defer == request.defer
      ensures error == 0 && request.SHMemRequest? ==>
        objects[memory].SHMemObject? && objects[memory].owner == currtask && Edge(currtask, memory) in graph.Edges()
      ensures error == 0 && request.KernelRequest? ==>
        && objects[memory].KernelObject?
        && objects[memory].addrSpace == request.addrSpace && objects[memory].sigHandler == request.sigHandler
    {
      match request
      case ThreadRequest(addressSpace, parentKernel, quantum, defer) =>
        error := LoadThreadObject(addressSpace, parentKernel, quantum, defer, flags, memory);
      case AddrSpcRequest(parentKernel) =>
        error := LoadAddrSpcObject(parentKernel, flags, memory);
      case KernelRequest(addrSpace, sigHandler) =>
        error := LoadKernelObject(addrSpace, sigHandler, flags, memory);
      case SHMemRequest =>
        error := LoadSHMemObject(flags, memory);
      case UnknownRequest =>
        error := EUNDEFOBJ;
    }

    /** What the caller of the two system calls has to see to. */
    ghost predicate Callable(c: Call)
      reads this, graph, graph.oda
      requires Valid()
    {
      match c
      case Cache(request, _, memory) =>
        && memory !in objects && graph.lastDep + 2 < MAXDEPS && Nameable(objects, request)
        && (request.SHMemRequest? ==> currtask != NIL)
      case Uncache(o) =>
        o in objects && !Reaches(graph.Edges(), o, currtask) && (!Locked(objects[o]) ==> !LockedBelow(Abstract(), o))
    }

    /** Each call, whatever it returns, is one step of a run. */
    method Serve(c: Call) returns (error: int)
      requires Valid() && Callable(c)
      modifies this`objects, this`nextObject, this`prevObject, this`head, this`peers, graph, graph.oda
      ensures Valid() && Next(old(Abstract()), Abstract())
    {
      ghost var s := Abstract();
      match c
      case Cache(request, flags, memory) =>
        error := CacheObject(request, flags, memory);
        CachedIsStep(s, request, flags, currtask, old(ParentOfCurrent()), memory, error, Abstract());
      case Uncache(o) =>
        ghost var gone;
        error, gone := UncacheObject(o);
        if error != 0 { PurgeNothing(s); }
    }
  }

  lemma CachedIsStep(s: State, r: Request, flags: nat, thread: Ptr, current: Ptr, memory: Ptr, error: int, t: State)
    requires Cached(s, r, flags, thread, current, memory, error, t)
    ensures Next(s, t)
  {
  }
}
