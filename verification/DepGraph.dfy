/** graph.c: the object dependency graph, one array of edges sorted by the parent's address.

    Every object header holds the number of its edges and the array index of the first; an
    object is named by the address of its header. */
module DepGraph {
  import opened DList

  const MAXDEPS: nat := 4096

  datatype Edge = Edge(parent: Ptr, child: Ptr)

  type Counts = map<Ptr, nat>
  type Indices = map<Ptr, int>

  ghost predicate NotAfter(es: seq<Edge>, i: nat, j: nat)
    requires i < |es| && j < |es|
  {
    es[i].parent <= es[j].parent
  }

  ghost predicate Sorted(es: seq<Edge>) {
    forall i, j :: 0 <= i < j < |es| ==> NotAfter(es, i, j)
  }

  /** The slice that p's header describes holds exactly p's edges. */
  ghost predicate Slice(es: seq<Edge>, deps: Counts, first: Indices, p: Ptr)
    requires p in deps
  {
    && (deps[p] > 0 ==> p in first && 0 <= first[p] && first[p] + deps[p] <= |es|)
    && forall i :: 0 <= i < |es| ==> (es[i].parent == p <==> deps[p] > 0 && first[p] <= i < first[p] + deps[p])
  }

  ghost predicate Indexed(es: seq<Edge>, deps: Counts, first: Indices) {
    && Sorted(es)
    && (forall e :: e in es ==> e.parent in deps)
    && (forall p :: p in deps ==> Slice(es, deps, first, p))
  }

  /** Every edge has its parent, and every header its slice. */
  ghost predicate Sliced(es: seq<Edge>, deps: Counts, first: Indices) {
    && (forall i :: 0 <= i < |es| ==> es[i].parent in deps)
    && (forall p {:trigger Slice(es, deps, first, p)} :: p in deps ==> Slice(es, deps, first, p))
  }

  lemma IndexedSliced(es: seq<Edge>, deps: Counts, first: Indices)
    requires Indexed(es, deps, first)
    ensures Sliced(es, deps, first)
  {
    assert forall i :: 0 <= i < |es| ==> es[i] in es;
  }

  /** Where a new edge of p goes: behind the edges of all parents up to and including p. */
  function Upper(es: seq<Edge>, p: Ptr): (k: nat)
    ensures k <= |es|
    ensures forall i :: k <= i < |es| ==> es[i].parent > p
    ensures k > 0 ==> es[k - 1].parent <= p
  {
    if es == [] then 0
    else if es[|es| - 1].parent <= p then |es|
    else Upper(es[..|es| - 1], p)
  }

  /** From place k on there are only edges of parents behind p. */
  ghost predicate LaterFrom(es: seq<Edge>, p: Ptr, k: int) {
    forall i :: k <= i < |es| && i >= 0 ==> es[i].parent > p
  }

  lemma LaterStep(es: seq<Edge>, p: Ptr, k: nat)
    requires LaterFrom(es, p, k + 1) && k < |es| && es[k].parent > p
    ensures LaterFrom(es, p, k)
  {
  }

  lemma {:induction false} UpperIs(es: seq<Edge>, p: Ptr, k: nat)
    requires k <= |es| && LaterFrom(es, p, k)
    requires k > 0 ==> es[k - 1].parent <= p
    ensures Upper(es, p) == k
  {
    if k < |es| {
      UpperIs(es[..|es| - 1], p, k);
    }
  }

  function AddEdge(es: seq<Edge>, e: Edge): seq<Edge> {
    Insert(es, Upper(es, e.parent), e)
  }

  /** The index fields after the runs that start behind position k have moved up one place. */
  ghost predicate Shifted(deps: Counts, first: Indices, first': Indices, k: int, d: int) {
    forall q {:trigger ShiftedAt(deps, first, first', k, d, q)} :: ShiftedAt(deps, first, first', k, d, q)
  }

  ghost predicate ShiftedAt(deps: Counts, first: Indices, first': Indices, k: int, d: int, q: Ptr) {
    q in deps && deps[q] > 0 && q in first ==>
      q in first' && first'[q] == if first[q] >= k then first[q] + d else first[q]
  }

  lemma SortedAt(es: seq<Edge>, i: nat, j: nat)
    requires Sorted(es) && i <= j < |es|
    ensures es[i].parent <= es[j].parent
  {
    assert i < j ==> NotAfter(es, i, j);
  }

  /** Inserting an edge of p behind p's run keeps the array sorted and every header right. */
  lemma AddKeepsIndex(es: seq<Edge>, deps: Counts, first: Indices, p: Ptr, c: Ptr, k: nat, fd: Indices,
                      es': seq<Edge>, deps': Counts, first': Indices)
    requires Indexed(es, deps, first) && p in deps && k == Upper(es, p)
    requires es' == AddEdge(es, Edge(p, c)) && deps' == deps[p := deps[p] + 1]
    requires Shifted(deps[p := 0], first, fd, k, 1)
    requires p in first ==> p in fd && fd[p] == first[p]
    requires first' == if k == 0 || es[k - 1].parent != p then fd[p := k] else fd
    ensures Indexed(es', deps', first')
  {
    var e := Edge(p, c);
    StartsRun(es, deps, first, p, k);
    InsertSorted(es, e, k);
    forall x
      ensures x in es' <==> x in es || x == e
    {
      InsertElements(es, k, e, x);
    }
    forall q | q in deps'
      ensures Slice(es', deps', first', q)
    {
      assert Slice(es, deps, first, q);
      if deps[q] > 0 {
        assert ShiftedAt(deps[p := 0], first, fd, k, 1, q);
        if q == p { RunEnds(es, deps, first, p, k); } else { RunAside(es, deps, first, p, q, k); }
      }
      SliceAfterAdd(es, deps, first, e, k, q, deps', first');
    }
  }

  lemma InsertSorted(es: seq<Edge>, e: Edge, k: nat)
    requires Sorted(es) && k == Upper(es, e.parent)
    ensures Sorted(Insert(es, k, e))
  {
    var t := Insert(es, k, e);
    forall i, j | 0 <= i < j < |t|
      ensures NotAfter(t, i, j)
    {
      assert t[i] == if i < k then es[i] else if i == k then e else es[i - 1];
      assert t[j] == if j < k then es[j] else if j == k then e else es[j - 1];
      if i < k { SortedAt(es, i, k - 1); }
      if j != k { SortedAt(es, if i < k then i else if i == k then k else i - 1, if j < k then j else j - 1); }
    }
  }

  lemma IsInsert(t: seq<Edge>, es: seq<Edge>, k: nat, e: Edge)
    requires k <= |es| && |t| == |es| + 1 && t[k] == e
    requires forall i :: 0 <= i < k ==> t[i] == es[i]
    requires forall i :: k < i < |t| ==> t[i] == es[i - 1]
    ensures t == Insert(es, k, e)
  {
  }

  lemma SliceAfterAdd(es: seq<Edge>, deps: Counts, first: Indices, e: Edge, k: nat, q: Ptr, deps': Counts, first': Indices)
    requires q in deps && Slice(es, deps, first, q) && k <= |es| && q in deps'
    requires deps'[q] == if q == e.parent then deps[q] + 1 else deps[q]
    requires q == e.parent ==> q in first' && first'[q] + deps[q] == k && (deps[q] > 0 ==> first'[q] == first[q])
    requires q != e.parent && deps[q] > 0 ==>
               && q in first' && first'[q] == (if first[q] >= k then first[q] + 1 else first[q])
               && (first[q] + deps[q] <= k || k <= first[q])
    ensures Slice(Insert(es, k, e), deps', first', q)
  {
    var es' := Insert(es, k, e);
    forall i | 0 <= i < |es'|
      ensures es'[i].parent == q <==> deps'[q] > 0 && first'[q] <= i < first'[q] + deps'[q]
    {
      assert es'[i] == if i < k then es[i] else if i == k then e else es[i - 1];
    }
  }

  lemma RunEnds(es: seq<Edge>, deps: Counts, first: Indices, p: Ptr, k: nat)
    requires Indexed(es, deps, first) && p in deps && deps[p] > 0 && k == Upper(es, p)
    ensures Slice(es, deps, first, p) && k == first[p] + deps[p]
  {
    assert Slice(es, deps, first, p);
    var last := first[p] + deps[p] - 1;
    assert es[last].parent == p && last < k;
    SortedAt(es, last, k - 1);
  }

  lemma RunAside(es: seq<Edge>, deps: Counts, first: Indices, p: Ptr, q: Ptr, k: nat)
    requires Indexed(es, deps, first) && q in deps && deps[q] > 0 && q != p && k == Upper(es, p)
    ensures Slice(es, deps, first, q) && (first[q] + deps[q] <= k || k <= first[q])
  {
    assert Slice(es, deps, first, q);
    assert es[first[q]].parent == q && es[first[q] + deps[q] - 1].parent == q;
    if first[q] < k { SortedAt(es, first[q], k - 1); }
  }

  /** No run starts behind the last edge. */
  lemma ShiftNone(es: seq<Edge>, deps: Counts, first: Indices, p: Ptr)
    requires Indexed(es, deps, first) && p in deps
    ensures Shifted(deps[p := 0], first, first, |es|, 1)
  {
    var others := deps[p := 0];
    forall q
      ensures ShiftedAt(others, first, first, |es|, 1, q)
    {
      if q in deps && q != p && deps[q] > 0 { assert Slice(es, deps, first, q); }
    }
  }

  /** Moving edge c up one place: the header of its parent moves too if c starts its run. */
  lemma ShiftStep(es: seq<Edge>, deps: Counts, first: Indices, p: Ptr, c: nat, fd: Indices, fd': Indices)
    requires Sliced(es, deps, first) && c < |es| && p in deps && es[c].parent != p
    requires Shifted(deps[p := 0], first, fd, c + 1, 1)
    requires fd' == if c == 0 || es[c].parent != es[c - 1].parent then fd[es[c].parent := c + 1] else fd
    ensures Shifted(deps[p := 0], first, fd', c, 1)
  {
    var q := es[c].parent;
    assert Slice(es, deps, first, q);
    if c > 0 { assert es[c - 1].parent == q <==> first[q] <= c - 1; }
    var others := deps[p := 0];
    forall r
      ensures ShiftedAt(others, first, fd', c, 1, r)
    {
      assert ShiftedAt(others, first, fd, c + 1, 1, r);
      if r in deps && r != p && deps[r] > 0 { assert Slice(es, deps, first, r) && es[first[r]].parent == r; }
    }
  }

  /** The place found for p's edge starts p's run exactly when p had no edges. */
  lemma StartsRun(es: seq<Edge>, deps: Counts, first: Indices, p: Ptr, k: nat)
    requires Indexed(es, deps, first) && p in deps && k == Upper(es, p)
    ensures k == 0 || es[k - 1].parent != p <==> deps[p] == 0
    ensures deps[p] > 0 ==> p in first
  {
    assert Slice(es, deps, first, p);
    if deps[p] > 0 { RunEnds(es, deps, first, p, k); }
  }

  /** The index fields when the places dep..c have been moved down: the runs that started there are updated. */
  ghost predicate MovedDown(deps: Counts, p: Ptr, first: Indices, fd: Indices, dep: nat, c: nat) {
    forall q :: q in deps && (if q == p then deps[q] > 1 else deps[q] > 0) && q in first ==>
      q in fd && fd[q] == if dep < first[q] <= c then first[q] - 1 else first[q]
  }

  /** Moving edge c + 1 down one place: the header of its parent moves too if a run now starts at c. */
  lemma DownStep(es: seq<Edge>, deps: Counts, first: Indices, dep: nat, c: nat, fd: Indices, fd': Indices)
    requires Indexed(es, deps, first) && dep <= c && c + 1 < |es|
    requires MovedDown(deps, es[dep].parent, first, fd, dep, c)
    requires var q, before := es[c + 1].parent, if c == dep then dep - 1 else c;
             fd' == if before < 0 || q != es[before].parent then fd[q := c] else fd
    ensures MovedDown(deps, es[dep].parent, first, fd', dep, c + 1)
  {
    var q, p := es[c + 1].parent, es[dep].parent;
    assert es[c + 1] in es && Slice(es, deps, first, q);
    assert es[dep] in es && Slice(es, deps, first, p);
    if dep > 0 { assert es[dep - 1].parent == q <==> first[q] <= dep - 1; }
    forall r | r in deps && (if r == p then deps[r] > 1 else deps[r] > 0) && r in first
      ensures r in fd' && fd'[r] == if dep < first[r] <= c + 1 then first[r] - 1 else first[r]
    {
      assert Slice(es, deps, first, r) && es[first[r]].parent == r;
    }
  }

  /** Taking edge k out keeps the array sorted and every header right. */
  lemma RemoveKeepsIndex(es: seq<Edge>, deps: Counts, first: Indices, k: nat, es': seq<Edge>, deps': Counts, first': Indices)
    requires Indexed(es, deps, first) && k < |es| && deps[es[k].parent] > 0
    requires es' == Without(es, k) && deps' == deps[es[k].parent := deps[es[k].parent] - 1]
    requires Shifted(deps', first, first', k + 1, -1)
    ensures Indexed(es', deps', first')
  {
    var p := es[k].parent;
    WithoutSorted(es, k);
    forall x | x in es'
      ensures x in es
    {
      var i :| 0 <= i < |es'| && es'[i] == x;
      assert es[if i < k then i else i + 1] == x;
    }
    forall q | q in deps'
      ensures Slice(es', deps', first', q)
    {
      assert Slice(es, deps, first, q) && ShiftedAt(deps', first, first', k + 1, -1, q);
      SliceAfterRemove(es, deps, first, k, q, deps', first');
    }
  }

  lemma WithoutSorted(es: seq<Edge>, k: nat)
    requires Sorted(es) && k < |es|
    ensures Sorted(Without(es, k))
  {
    var t := Without(es, k);
    forall i, j | 0 <= i < j < |t|
      ensures NotAfter(t, i, j)
    {
      assert t[i] == es[if i < k then i else i + 1];
      assert t[j] == es[if j < k then j else j + 1];
      SortedAt(es, if i < k then i else i + 1, if j < k then j else j + 1);
    }
  }

  lemma SliceAfterRemove(es: seq<Edge>, deps: Counts, first: Indices, k: nat, q: Ptr, deps': Counts, first': Indices)
    requires q in deps && Slice(es, deps, first, q) && k < |es| && q in deps'
    requires deps'[q] == if q == es[k].parent then deps[q] - 1 else deps[q]
    requires deps'[q] > 0 ==> q in first' && first'[q] == if first[q] > k then first[q] - 1 else first[q]
    ensures Slice(Without(es, k), deps', first', q)
  {
    var es' := Without(es, k);
    assert q == es[k].parent ==> first[q] <= k < first[q] + deps[q];
    if deps[q] > 0 && q != es[k].parent {
      assert es[first[q]].parent == q;
      assert !(first[q] <= k < first[q] + deps[q]);
    }
    forall i | 0 <= i < |es'|
      ensures es'[i].parent == q <==> deps'[q] > 0 && first'[q] <= i < first'[q] + deps'[q]
    {
      assert es'[i] == es[if i < k then i else i + 1];
    }
  }

  // ---------- what the headers and the array say together ----------

  /** The edges of p, found by looking at the whole array. */
  function EdgesOf(es: seq<Edge>, p: Ptr): seq<Edge> {
    if es == [] then []
    else EdgesOf(es[..|es| - 1], p) + if es[|es| - 1].parent == p then [es[|es| - 1]] else []
  }

  lemma LastOfSlice(es: seq<Edge>, lo: nat)
    requires lo < |es|
    ensures var n := |es| - 1; es[lo..|es|] == es[..n][lo..n] + [es[n]]
  {
  }

  lemma {:induction false} RunIsAll(es: seq<Edge>, p: Ptr, lo: nat, hi: nat)
    requires lo <= hi <= |es| && forall i :: 0 <= i < |es| ==> (es[i].parent == p <==> lo <= i < hi)
    ensures EdgesOf(es, p) == es[lo..hi]
  {
    if es != [] {
      var n := |es| - 1;
      if lo < hi == n + 1 {
        RunIsAll(es[..n], p, lo, n);
        LastOfSlice(es, lo);
      } else if lo == hi {
        RunIsAll(es[..n], p, 0, 0);
      } else {
        RunIsAll(es[..n], p, lo, hi);
        assert es[..n][lo..hi] == es[lo..hi];
      }
    }
  }

  /** The header of p counts its edges, and the slice it names is exactly those, in their order. */
  lemma HeaderDescribesEdges(es: seq<Edge>, deps: Counts, first: Indices, p: Ptr)
    requires Indexed(es, deps, first) && p in deps
    ensures |EdgesOf(es, p)| == deps[p]
    ensures deps[p] > 0 ==> p in first && EdgesOf(es, p) == es[first[p]..first[p] + deps[p]]
  {
    assert Slice(es, deps, first, p);
    if deps[p] > 0 {
      RunIsAll(es, p, first[p], first[p] + deps[p]);
    } else {
      RunIsAll(es, p, 0, 0);
    }
  }

  /** Adding an edge appends it to the edges of its parent, and those of other parents stay as they are. */
  lemma AddAppends(es: seq<Edge>, e: Edge, p: Ptr)
    ensures EdgesOf(AddEdge(es, e), p) == EdgesOf(es, p) + if e.parent == p then [e] else []
  {
    var k := Upper(es, e.parent);
    InsertFiltered(es, e, k, p);
  }

  lemma {:induction false} InsertFiltered(es: seq<Edge>, e: Edge, k: nat, p: Ptr)
    requires k <= |es| && forall i :: k <= i < |es| ==> es[i].parent > e.parent
    ensures EdgesOf(Insert(es, k, e), p) == EdgesOf(es, p) + if e.parent == p then [e] else []
  {
    var r := Insert(es, k, e);
    if k == |es| {
      assert r[..|es|] == es;
    } else {
      var n := |es| - 1;
      InsertFiltered(es[..n], e, k, p);
      assert r[..n + 1] == Insert(es[..n], k, e) && r[n + 1] == es[n];
    }
  }

  class Graph {
    const oda: array<Edge>   // ODA[MAXDEPS]
    var lastDep: int         // index of the last used dependency, -1 when there is none

    // the fields of the object headers, by address
    var dependencies: Counts
    var firstDependency: Indices

    ghost function Edges(): seq<Edge>
      reads this`lastDep, oda
      requires -1 <= lastDep < oda.Length
    {
      oda[..lastDep + 1]
    }

    ghost predicate Valid()
      reads this, oda
    {
      && oda.Length == MAXDEPS && -1 <= lastDep < MAXDEPS
      && Indexed(Edges(), dependencies, firstDependency)
    }

    constructor ()
      ensures Valid() && Edges() == [] && dependencies == map[] && fresh(oda)
    {
      oda := new Edge[MAXDEPS](i => Edge(NIL, NIL));
      lastDep := -1;
      dependencies, firstDependency := map[], map[];
    }

    /** The edges of es stand in the array, those behind k one place further up. */
    ghost predicate Gap(es: seq<Edge>, k: int)
      reads this`lastDep, oda
    {
      && |es| == lastDep < MAXDEPS == oda.Length && -1 <= k < |es|
      && (forall i :: 0 <= i <= k ==> oda[i] == es[i])
      && (forall i :: k + 1 < i <= |es| ==> oda[i] == es[i - 1])
    }

    lemma NoGap(es: seq<Edge>)
      requires |es| == lastDep < MAXDEPS == oda.Length && oda[..lastDep] == es
      ensures Gap(es, lastDep - 1)
    {
      assert forall i :: 0 <= i < |es| ==> oda[..lastDep][i] == oda[i];
    }

    lemma GapAt(es: seq<Edge>, k: int)
      requires Gap(es, k)
      ensures 0 <= k ==> k < |es| && oda[k] == es[k]
    {
    }

    /** One round of that loop: edge currDep moves up, and so does the index of a run it starts. */
    method MoveUp(parent: Ptr, currDep: nat, ghost es: seq<Edge>, ghost deps: Counts, ghost first: Indices)
      requires Gap(es, currDep) && parent in deps && Sliced(es, deps, first)
      requires es[currDep].parent > parent && Shifted(deps[parent := 0], first, firstDependency, currDep + 1, 1)
      modifies this`firstDependency, oda
      ensures Gap(es, currDep - 1)
      ensures Shifted(deps[parent := 0], first, firstDependency, currDep, 1)
      ensures parent in old(firstDependency) ==> parent in firstDependency && firstDependency[parent] == old(firstDependency)[parent]
    {
      ghost var fd := firstDependency;
      if currDep == 0 || oda[currDep].parent != oda[currDep - 1].parent {
        firstDependency := firstDependency[oda[currDep].parent := currDep + 1];
      }
      ShiftStep(es, deps, first, parent, currDep, fd, firstDependency);
      oda[currDep + 1] := oda[currDep];
    }

    /** The loop of CKaddObjectDep: moves the edges of all later parents up one place. */
    method ShiftUp(parent: Ptr, ghost es: seq<Edge>, ghost deps: Counts) returns (currDep: int)
      requires |es| == lastDep < MAXDEPS == oda.Length && oda[..lastDep] == es
      requires parent in deps && Indexed(es, deps, firstDependency)
      modifies this`firstDependency, oda
      ensures Gap(es, currDep) && currDep + 1 == Upper(es, parent)
      ensures Shifted(deps[parent := 0], old(firstDependency), firstDependency, currDep + 1, 1)
      ensures parent in old(firstDependency) ==> parent in firstDependency && firstDependency[parent] == old(firstDependency)[parent]
    {
      ghost var first := firstDependency;
      currDep := lastDep - 1;
      ShiftNone(es, deps, first, parent);
      NoGap(es);
      IndexedSliced(es, deps, first);
      while currDep > -1 && oda[currDep].parent > parent
        invariant Gap(es, currDep)
        invariant LaterFrom(es, parent, currDep + 1)
        invariant Shifted(deps[parent := 0], first, firstDependency, currDep + 1, 1)
        invariant parent in first ==> parent in firstDependency && firstDependency[parent] == first[parent]
      {
        GapAt(es, currDep);
        LaterStep(es, parent, currDep);
        MoveUp(parent, currDep, es, deps, first);
        currDep := currDep - 1;
      }
      GapAt(es, currDep);
      UpperIs(es, parent, currDep + 1);
    }

    /** Finds the right place and stores the edge there. */
    method Place(parent: Ptr, child: Ptr, ghost es: seq<Edge>, ghost deps: Counts) returns (currDep: nat)
      requires |es| == lastDep < MAXDEPS == oda.Length && oda[..lastDep] == es
      requires parent in deps && Indexed(es, deps, firstDependency)
      modifies this`firstDependency, oda
      ensures currDep == Upper(es, parent) && (currDep > 0 ==> oda[currDep - 1] == es[currDep - 1])
      ensures oda[..lastDep + 1] == AddEdge(es, Edge(parent, child))
      ensures Shifted(deps[parent := 0], old(firstDependency), firstDependency, currDep, 1)
      ensures parent in old(firstDependency) ==> parent in firstDependency && firstDependency[parent] == old(firstDependency)[parent]
    {
      var place := ShiftUp(parent, es, deps);
      currDep := place + 1;
      Store(currDep, Edge(parent, child), es);
    }

    method Store(currDep: nat, e: Edge, ghost es: seq<Edge>)
      requires currDep <= |es| && Gap(es, currDep - 1)
      modifies oda
      ensures oda[..lastDep + 1] == Insert(es, currDep, e)
      ensures currDep > 0 ==> oda[currDep - 1] == es[currDep - 1]
    {
      oda[currDep] := e;
      IsInsert(oda[..lastDep + 1], es, currDep, e);
    }

    /** A run that begins with the new edge begins there. */
    method Begin(parent: Ptr, currDep: nat, ghost es: seq<Edge>)
      requires currDep <= |es| < oda.Length && (currDep > 0 ==> oda[currDep - 1] == es[currDep - 1])
      modifies this`firstDependency
      ensures firstDependency ==
        if currDep == 0 || es[currDep - 1].parent != parent then old(firstDependency)[parent := currDep] else old(firstDependency)
    {
      if currDep == 0 || oda[currDep - 1].parent != parent {
        firstDependency := firstDependency[parent := currDep];
      }
    }

    /** A new header has no dependants. */
    method InitHeader(vertex: Ptr)
      requires Valid() && vertex !in dependencies
      modifies this`dependencies
      ensures Valid() && dependencies == old(dependencies)[vertex := 0]
    {
      dependencies := dependencies[vertex := 0];
      forall p | p in dependencies
        ensures Slice(Edges(), dependencies, firstDependency, p)
      {
        if p != vertex { assert Slice(Edges(), old(dependencies), firstDependency, p); }
        else { assert forall i :: 0 <= i < |Edges()| ==> Edges()[i] in Edges(); }
      }
    }

    /** The header's memory is returned. */
    method DropHeader(vertex: Ptr)
      requires Valid() && forall e :: e in Edges() ==> e.parent != vertex
      modifies this`dependencies
      ensures Valid() && dependencies == old(dependencies) - {vertex}
    {
      dependencies := dependencies - {vertex};
      forall p | p in dependencies
        ensures Slice(Edges(), dependencies, firstDependency, p)
      {
        assert Slice(Edges(), old(dependencies), firstDependency, p);
      }
    }

    method AddObjectDep(parent: Ptr, child: Ptr)
      requires Valid() && parent in dependencies && lastDep + 1 < MAXDEPS
      modifies this, oda
      ensures Valid() && Edges() == AddEdge(old(Edges()), Edge(parent, child))
      ensures dependencies == old(dependencies)[parent := old(dependencies)[parent] + 1]
    {
      ghost var es, deps, first := Edges(), dependencies, firstDependency;
      lastDep := lastDep + 1;
      dependencies := dependencies[parent := dependencies[parent] + 1];
      var currDep := Place(parent, child, es, deps);
      ghost var fd := firstDependency;
      Begin(parent, currDep, es);
      AddKeepsIndex(es, deps, first, parent, child, currDep, fd, Edges(), dependencies, firstDependency);
    }

    /** The edges of es stand in the array, those behind dep up to currDep one place further down. */
    ghost predicate Closing(es: seq<Edge>, dep: int, currDep: int)
      reads this`lastDep, oda
    {
      && 0 <= dep <= currDep <= lastDep < MAXDEPS == oda.Length && |es| == lastDep + 1
      && (forall i :: 0 <= i < dep ==> oda[i] == es[i])
      && (forall i :: dep <= i < currDep ==> oda[i] == es[i + 1])
      && (forall i :: currDep <= i <= lastDep ==> oda[i] == es[i])
    }

    /** One round of that loop. */
    method MoveDown(dep: nat, currDep: nat, ghost es: seq<Edge>, ghost deps: Counts, ghost first: Indices)
      requires Closing(es, dep, currDep) && currDep < lastDep && Indexed(es, deps, first)
      requires MovedDown(deps, es[dep].parent, first, firstDependency, dep, currDep)
      modifies this`firstDependency, oda
      ensures Closing(es, dep, currDep + 1)
      ensures MovedDown(deps, es[dep].parent, first, firstDependency, dep, currDep + 1)
    {
      oda[currDep] := oda[currDep + 1];
      ghost var fd := firstDependency;
      if currDep == 0 || oda[currDep].parent != oda[currDep - 1].parent {
        firstDependency := firstDependency[oda[currDep].parent := currDep];
      }
      DownStep(es, deps, first, dep, currDep, fd, firstDependency);
    }

    /** The loop of CKremoveObjectDep: moves the edges behind place dep down one place. */
    method ShiftDown(dep: nat, ghost deps: Counts)
      requires -1 <= lastDep < MAXDEPS == oda.Length && dep <= lastDep
      requires Indexed(Edges(), deps, firstDependency)
      modifies this`firstDependency, oda
      ensures oda[..lastDep] == Without(old(Edges()), dep)
      ensures Shifted(deps[old(oda[dep]).parent := deps[old(oda[dep]).parent] - 1], old(firstDependency), firstDependency, dep + 1, -1)
    {
      ghost var es, first := Edges(), firstDependency;
      var currDep := dep;
      while currDep < lastDep
        invariant Closing(es, dep, currDep)
        invariant MovedDown(deps, es[dep].parent, first, firstDependency, dep, currDep)
      {
        MoveDown(dep, currDep, es, deps, first);
        currDep := currDep + 1;
      }
      assert oda[..lastDep] == Without(es, dep);
      forall q | q in deps && q in first
        ensures deps[q] > 0 ==> first[q] <= lastDep
      {
        assert Slice(es, deps, first, q);
      }
    }

    method RemoveObjectDep(dep: nat)
      requires Valid() && dep <= lastDep
      modifies this, oda
      ensures Valid() && Edges() == Without(old(Edges()), dep)
      ensures var p := old(oda[dep]).parent; dependencies == old(dependencies)[p := old(dependencies)[p] - 1]
    {
      ghost var es, deps, first := Edges(), dependencies, firstDependency;
      assert es[dep] in es && Slice(es, deps, first, es[dep].parent);
      dependencies := dependencies[oda[dep].parent := dependencies[oda[dep].parent] - 1];
      ShiftDown(dep, deps);
      lastDep := lastDep - 1;
      RemoveKeepsIndex(es, deps, first, dep, Edges(), dependencies, firstDependency);
    }
  }
}
