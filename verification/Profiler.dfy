/** profiler.c: the call-graph table.  A hash table of chains threaded through one array of arcs,
    with the arc found moved to the front of its chain, keeps a count for every pair of a call
    site and a callee. */
module Profiler {
  import opened Machine
  import opened DList

  datatype State = On | Busy | Error | Off

  datatype Arc = Arc(selfpc: nat, count: nat, link: nat)   // struct tostruct

  /** A call from the 4 bytes of text that share a bucket to the function at callee. */
  datatype Call = Call(bucket: nat, callee: nat)

  datatype RawArc = RawArc(frompc: nat, selfpc: nat, count: nat)

  // ---------- the simple table ----------

  /** How often each call has happened, and whether calls are still being recorded. */
  datatype Graph = Graph(state: State, calls: map<Call, nat>)

  /** The text that is profiled and the number of arc slots, of which slot 0 is no arc. */
  datatype Text = Text(lowpc: nat, textsize: nat, tolimit: nat)

  function Offset(t: Text, frompc: nat): (offset: nat)
    ensures offset < WORD
  {
    (frompc - t.lowpc) % WORD
  }

  /** The bounds test lets exactly one address through whose bucket does not exist: the end of the text. */
  lemma EndOfTextHasNoBucket(t: Text, frompc: nat)
    requires t.textsize % 4 == 0 && t.textsize < WORD && t.lowpc < WORD && frompc < WORD
    requires Offset(t, frompc) <= t.textsize
    ensures Offset(t, frompc) / 4 >= t.textsize / 4 <==> frompc == (t.lowpc + t.textsize) % WORD
  {
    if frompc == (t.lowpc + t.textsize) % WORD {
      assert (frompc - t.lowpc) % WORD == t.textsize;
    }
    if Offset(t, frompc) == t.textsize {
      assert frompc == (t.lowpc + t.textsize) % WORD;
    }
  }

  /** One more call; a new kind of call needs a free arc. */
  function Note(g: Graph, tolimit: nat, c: Call): Graph {
    if c in g.calls then g.(calls := g.calls[c := g.calls[c] + 1])
    else if |g.calls| + 1 >= tolimit then g.(state := Error)
    else g.(calls := g.calls[c := 1])
  }

  function Record(t: Text, g: Graph, frompc: nat, selfpc: nat): Graph {
    if g.state != On || Offset(t, frompc) > t.textsize then g
    else Note(g, t.tolimit, Call(Offset(t, frompc) / 4, selfpc))
  }

  /** One execution of a call instruction. */
  datatype Jump = Jump(frompc: nat, selfpc: nat)

  function Run(t: Text, g: Graph, js: seq<Jump>): Graph {
    if js == [] then g
    else var j := js[|js| - 1]; Record(t, Run(t, g, js[..|js| - 1]), j.frompc, j.selfpc)
  }

  /** The call that a jump from inside the text counts for. */
  function Site(t: Text, j: Jump): Call {
    Call(Offset(t, j.frompc) / 4, j.selfpc)
  }

  predicate Inside(t: Text, j: Jump) {
    Offset(t, j.frompc) <= t.textsize
  }

  function Occurrences(t: Text, js: seq<Jump>, c: Call): nat {
    if js == [] then 0
    else Occurrences(t, js[..|js| - 1], c) + if Inside(t, js[|js| - 1]) && Site(t, js[|js| - 1]) == c then 1 else 0
  }

  function Sites(t: Text, js: seq<Jump>): set<Call> {
    if js == [] then {}
    else Sites(t, js[..|js| - 1]) + if Inside(t, js[|js| - 1]) then {Site(t, js[|js| - 1])} else {}
  }

  /** js[..n] is the longest beginning whose calls all find an arc. */
  ghost predicate Fits(t: Text, js: seq<Jump>, n: nat) {
    && n <= |js| && |Sites(t, js[..n])| < t.tolimit
    && (n < |js| ==> |Sites(t, js[..n + 1])| >= t.tolimit)
  }

  lemma {:induction false} NeverOccurs(t: Text, js: seq<Jump>, c: Call)
    ensures c in Sites(t, js) <==> Occurrences(t, js, c) > 0
  {
    if js != [] { NeverOccurs(t, js[..|js| - 1], c); }
  }

  /** The table g counts the jumps js exactly. */
  ghost predicate Tallies(t: Text, g: Graph, js: seq<Jump>) {
    g.state == On && g.calls.Keys == Sites(t, js) && forall c :: c in g.calls ==> g.calls[c] == Occurrences(t, js, c)
  }

  lemma TallyNew(t: Text, g: Graph, js: seq<Jump>, c: Call)
    requires js != [] && Inside(t, js[|js| - 1]) && c == Site(t, js[|js| - 1]) && c !in g.calls
    requires Tallies(t, g, js[..|js| - 1])
    ensures |Sites(t, js)| == |g.calls| + 1 && g.calls[c := 1].Keys == Sites(t, js) && Occurrences(t, js, c) == 1
  {
    NeverOccurs(t, js[..|js| - 1], c);
    assert Sites(t, js) == g.calls.Keys + {c};
    assert |g.calls| == |g.calls.Keys|;
  }

  lemma TallyStep(t: Text, g: Graph, js: seq<Jump>)
    requires js != [] && Tallies(t, g, js[..|js| - 1]) && |g.calls| < t.tolimit
    ensures var g' := Record(t, g, js[|js| - 1].frompc, js[|js| - 1].selfpc);
            if |Sites(t, js)| < t.tolimit then Tallies(t, g', js) else g' == g.(state := Error)
  {
    var j, before := js[|js| - 1], js[..|js| - 1];
    var c := Site(t, j);
    if Inside(t, j) && c !in g.calls {
      TallyNew(t, g, js, c);
    } else {
      assert Sites(t, js) == g.calls.Keys;
      assert |g.calls| == |g.calls.Keys|;
    }
  }

  /** Over any run the table counts every call of the longest beginning that fits, exactly, and
      nothing after it; recording stops exactly when there is something after it. */
  lemma {:induction false} RunCounts(t: Text, js: seq<Jump>) returns (n: nat)
    requires t.tolimit >= 1
    ensures Fits(t, js, n)
    ensures var g := Run(t, Graph(On, map[]), js);
            Tallies(t, g.(state := On), js[..n]) && g.state == if n == |js| then On else Error
  {
    if js == [] {
      return 0;
    }
    var m := |js| - 1;
    n := RunCounts(t, js[..m]);
    assert js[..m][..n] == js[..n] && js[..|js|] == js;
    var g := Run(t, Graph(On, map[]), js[..m]);
    if n < m {
      assert js[..m][..n + 1] == js[..n + 1];
    } else {
      assert |g.calls| == |g.calls.Keys|;
      TallyStep(t, g, js);
      n := if |Sites(t, js)| < t.tolimit then m + 1 else m;
    }
  }

  // ---------- what the counts say of the jumps ----------

  /** The jump comes from the 4 bytes of the text at f and leads to the function at s. */
  ghost predicate Joins(lowpc: nat, textsize: nat, j: Jump, f: nat, s: nat) {
    (j.frompc - lowpc) % WORD < textsize && f == lowpc + (j.frompc - lowpc) % WORD / 4 * 4 && j.selfpc == s
  }

  /** The jumps that do, by their places in the run. */
  ghost function JumpsOf(lowpc: nat, textsize: nat, js: seq<Jump>, f: nat, s: nat): set<nat> {
    set k: nat | k < |js| && Joins(lowpc, textsize, js[k], f, s)
  }

  /** No jump comes from the end of the text, which has no bucket. */
  ghost predicate NoneFromEnd(lowpc: nat, textsize: nat, js: seq<Jump>) {
    forall k :: 0 <= k < |js| ==> (js[k].frompc - lowpc) % WORD != textsize
  }

  lemma JoinsIsSite(t: Text, j: Jump, c: Call)
    requires (j.frompc - t.lowpc) % WORD != t.textsize
    ensures Joins(t.lowpc, t.textsize, j, t.lowpc + 4 * c.bucket, c.callee) <==> Inside(t, j) && Site(t, j) == c
  {
  }

  lemma {:induction false} OccurrencesCount(t: Text, js: seq<Jump>, c: Call)
    requires NoneFromEnd(t.lowpc, t.textsize, js)
    ensures Occurrences(t, js, c) == |JumpsOf(t.lowpc, t.textsize, js, t.lowpc + 4 * c.bucket, c.callee)|
  {
    var f, s := t.lowpc + 4 * c.bucket, c.callee;
    if js == [] {
      assert JumpsOf(t.lowpc, t.textsize, js, f, s) == {};
    } else {
      var m := |js| - 1;
      OccurrencesCount(t, js[..m], c);
      JoinsIsSite(t, js[m], c);
      OneMoreJump(t.lowpc, t.textsize, js, f, s);
    }
  }

  lemma OneMoreJump(lowpc: nat, textsize: nat, js: seq<Jump>, f: nat, s: nat)
    requires js != []
    ensures var m := |js| - 1;
            |JumpsOf(lowpc, textsize, js, f, s)| ==
              |JumpsOf(lowpc, textsize, js[..m], f, s)| + if Joins(lowpc, textsize, js[m], f, s) then 1 else 0
  {
    var m := |js| - 1;
    var before := JumpsOf(lowpc, textsize, js[..m], f, s);
    assert JumpsOf(lowpc, textsize, js, f, s) == if Joins(lowpc, textsize, js[m], f, s) then before + {m} else before;
  }

  /** The records that Cleanup sends, for the calls in that order. */
  ghost predicate SentFor(lowpc: nat, calls: map<Call, nat>, order: seq<Call>, sent: seq<RawArc>) {
    && Distinct(order) && (forall c :: c in order <==> c in calls) && |sent| == |order|
    && forall i :: 0 <= i < |sent| ==>
         && order[i] in calls && sent[i].frompc == lowpc + 4 * order[i].bucket && sent[i].selfpc == order[i].callee
         && sent[i].count == calls[order[i]] % WORD
  }

  /** A record counts the jumps from the 4 bytes at its frompc to the function at its selfpc. */
  lemma RecordCounts(t: Text, js: seq<Jump>, calls: map<Call, nat>, order: seq<Call>, sent: seq<RawArc>, i: nat)
    requires NoneFromEnd(t.lowpc, t.textsize, js) && Tallies(t, Graph(On, calls), js) && SentFor(t.lowpc, calls, order, sent)
    requires i < |sent|
    ensures JumpsOf(t.lowpc, t.textsize, js, sent[i].frompc, sent[i].selfpc) != {}
    ensures sent[i].count == |JumpsOf(t.lowpc, t.textsize, js, sent[i].frompc, sent[i].selfpc)| % WORD
  {
    OccurrencesCount(t, js, order[i]);
    NeverOccurs(t, js, order[i]);
  }

  /** There is a record for every jump from inside the text. */
  lemma JumpRecorded(t: Text, js: seq<Jump>, calls: map<Call, nat>, order: seq<Call>, sent: seq<RawArc>, k: nat, f: nat, s: nat)
    requires NoneFromEnd(t.lowpc, t.textsize, js) && Tallies(t, Graph(On, calls), js) && SentFor(t.lowpc, calls, order, sent)
    requires k < |js| && Joins(t.lowpc, t.textsize, js[k], f, s)
    ensures exists i :: 0 <= i < |sent| && sent[i].frompc == f && sent[i].selfpc == s
  {
    var c := Site(t, js[k]);
    assert f == t.lowpc + 4 * c.bucket;
    OccurrencesCount(t, js, c);
    NeverOccurs(t, js, c);
    assert k in JumpsOf(t.lowpc, t.textsize, js, f, s);
    var i :| 0 <= i < |order| && order[i] == c;
    assert sent[i].frompc == f && sent[i].selfpc == s;
  }

  /** No two records are for the same pair. */
  lemma RecordedOnce(lowpc: nat, calls: map<Call, nat>, order: seq<Call>, sent: seq<RawArc>, i: nat, j: nat)
    requires SentFor(lowpc, calls, order, sent) && i < j < |sent|
    ensures sent[i].frompc != sent[j].frompc || sent[i].selfpc != sent[j].selfpc
  {
    assert order[i] != order[j];
  }

  // ---------- chains ----------

  ghost predicate Points(tos: seq<Arc>, c: seq<nat>, k: nat)
    requires k < |c|
  {
    0 < c[k] < |tos| && tos[c[k]].link == At(c, k + 1)
  }

  /** From the index in the bucket on, the links spell out the indices c. */
  ghost predicate Chain(tos: seq<Arc>, from: nat, c: seq<nat>) {
    from == At(c, 0) && forall k :: 0 <= k < |c| ==> Points(tos, c, k)
  }

  /** A chain no link of which was written is still the same chain. */
  lemma ChainFrame(tos: seq<Arc>, tos': seq<Arc>, from: nat, c: seq<nat>)
    requires Chain(tos, from, c) && |tos'| == |tos| && forall i :: i in c && i < |tos| ==> tos'[i].link == tos[i].link
    ensures Chain(tos', from, c)
  {
    forall k | 0 <= k < |c|
      ensures Points(tos', c, k)
    {
      assert Points(tos, c, k) && c[k] in c;
    }
  }

  lemma ChainNew(tos: seq<Arc>, from: nat, c: seq<nat>, i: nat)
    requires Chain(tos, from, c) && 0 < i < |tos| && tos[i].link == from
    ensures Chain(tos, i, [i] + c)
  {
    forall k | 0 <= k < |c| + 1
      ensures Points(tos, [i] + c, k)
    {
      if k > 0 { assert Points(tos, c, k - 1); }
    }
  }

  /** The chain with its k-th arc moved to the front. */
  function Front(c: seq<nat>, k: nat): seq<nat>
    requires k < |c|
  {
    [c[k]] + Without(c, k)
  }

  lemma FrontElements(c: seq<nat>, k: nat)
    requires k < |c| && Distinct(c)
    ensures Distinct(Front(c, k)) && forall i :: i in Front(c, k) <==> i in c
  {
    WithoutDistinct(c, k);
    forall i
      ensures i in Without(c, k) <==> i in c && i != c[k]
    {
      WithoutElements(c, k, i);
    }
  }

  /** The links after the k-th arc of the chain was moved to the front. */
  ghost predicate Moved(tos: seq<Arc>, tos': seq<Arc>, c: seq<nat>, k: nat)
    requires k < |c| && forall j :: 0 <= j < |c| ==> c[j] < |tos|
  {
    && |tos'| == |tos|
    && tos'[c[k]].link == (if k == 0 then tos[c[k]].link else c[0])
    && (k > 0 ==> tos'[c[k - 1]].link == tos[c[k]].link)
    && forall i :: 0 <= i < |tos| && i != c[k] && (k > 0 ==> i != c[k - 1]) ==> tos'[i].link == tos[i].link
  }

  lemma ChainFront(tos: seq<Arc>, tos': seq<Arc>, from: nat, c: seq<nat>, k: nat)
    requires Chain(tos, from, c) && Distinct(c) && k < |c| && (forall j :: 0 <= j < |c| ==> c[j] < |tos|) && Moved(tos, tos', c, k)
    ensures Chain(tos', c[k], Front(c, k))
  {
    var f := Front(c, k);
    forall j | 0 <= j < |f|
      ensures Points(tos', f, j)
    {
      assert f[j] == c[if j == 0 then k else if j <= k then j - 1 else j];
      assert Points(tos, c, if j == 0 then k else if j <= k then j - 1 else j);
      assert Points(tos, c, k);
    }
  }

  // ---------- the whole table ----------

  /** Arc i counts the call key[i], modulo 2^32, and is the only one to do so. */
  ghost predicate Held(tos: seq<Arc>, key: map<nat, Call>, arcs: map<Call, nat>, calls: map<Call, nat>, i: nat) {
    && i in key && 0 < i < |tos| && tos[i].selfpc == key[i].callee
    && key[i] in calls && tos[i].count == calls[key[i]] % WORD
    && key[i] in arcs && arcs[key[i]] == i
  }

  ghost predicate Found(key: map<nat, Call>, arcs: map<Call, nat>, s: Call) {
    s in arcs && arcs[s] in key && key[arcs[s]] == s
  }

  /** The used arcs are the first ones behind slot 0, one for every call that has happened. */
  ghost predicate Kept(tos: seq<Arc>, key: map<nat, Call>, arcs: map<Call, nat>, calls: map<Call, nat>) {
    && (forall i :: i in key <==> 1 <= i <= |calls|)
    && (forall i {:trigger Held(tos, key, arcs, calls, i)} :: i in key ==> Held(tos, key, arcs, calls, i))
    && (forall s {:trigger Found(key, arcs, s)} :: s in calls ==> Found(key, arcs, s))
  }

  lemma KeptNew(tos: seq<Arc>, tos': seq<Arc>, key: map<nat, Call>, arcs: map<Call, nat>, calls: map<Call, nat>, s: Call, link: nat)
    requires Kept(tos, key, arcs, calls) && s !in calls && |calls| + 1 < |tos| == |tos'|
    requires tos'[|calls| + 1] == Arc(s.callee, 1, link)
    requires forall j :: 1 <= j <= |calls| ==> tos'[j] == tos[j]
    ensures Kept(tos', key[|calls| + 1 := s], arcs[s := |calls| + 1], calls[s := 1])
  {
    var i := |calls| + 1;
    var key', arcs', calls' := key[i := s], arcs[s := i], calls[s := 1];
    assert calls'.Keys == calls.Keys + {s};
    forall j | j in key'
      ensures Held(tos', key', arcs', calls', j)
    {
      assert j != i ==> Held(tos, key, arcs, calls, j);
    }
    forall r | r in calls'
      ensures Found(key', arcs', r)
    {
      assert r != s ==> Found(key, arcs, r);
    }
  }

  lemma KeptCharge(tos: seq<Arc>, tos': seq<Arc>, key: map<nat, Call>, arcs: map<Call, nat>, calls: map<Call, nat>, i: nat)
    requires Kept(tos, key, arcs, calls) && i in key && |tos'| == |tos| && key[i] in calls
    requires i < |tos| && tos'[i].selfpc == tos[i].selfpc && tos'[i].count == (tos[i].count + 1) % WORD
    requires forall j :: 0 <= j < |tos| && j != i ==> tos'[j].selfpc == tos[j].selfpc && tos'[j].count == tos[j].count
    ensures Kept(tos', key, arcs, calls[key[i] := calls[key[i]] + 1])
  {
    var calls' := calls[key[i] := calls[key[i]] + 1];
    forall j | j in key
      ensures Held(tos', key, arcs, calls', j)
    {
      assert Held(tos, key, arcs, calls, j) && Held(tos, key, arcs, calls, i);
    }
    assert calls'.Keys == calls.Keys;
  }

  /** Bucket b: a chain of different arcs, all of them for calls from there. */
  ghost predicate Bucket(tos: seq<Arc>, key: map<nat, Call>, from: nat, c: seq<nat>, b: nat) {
    && Chain(tos, from, c) && Distinct(c)
    && forall k {:trigger Owned(key, c[k], b)} :: 0 <= k < |c| ==> Owned(key, c[k], b)
  }

  ghost predicate Owned(key: map<nat, Call>, i: nat, b: nat) {
    i in key && key[i].bucket == b
  }

  ghost predicate Placed(key: map<nat, Call>, chains: seq<seq<nat>>, i: nat) {
    i in key && key[i].bucket < |chains| && i in chains[key[i].bucket]
  }

  ghost predicate Chained(tos: seq<Arc>, key: map<nat, Call>, froms: seq<nat>, chains: seq<seq<nat>>) {
    && |chains| == |froms|
    && (forall b {:trigger Bucket(tos, key, froms[b], chains[b], b)} :: 0 <= b < |froms| ==> Bucket(tos, key, froms[b], chains[b], b))
    && (forall i {:trigger Placed(key, chains, i)} :: i in key ==> Placed(key, chains, i))
  }

  lemma OwnedAll(tos: seq<Arc>, key: map<nat, Call>, froms: seq<nat>, chains: seq<seq<nat>>, b: nat)
    requires Chained(tos, key, froms, chains) && b < |froms|
    ensures Bucket(tos, key, froms[b], chains[b], b)
    ensures forall i :: i in chains[b] ==> i in key && key[i].bucket == b
  {
    assert Bucket(tos, key, froms[b], chains[b], b);
    forall i | i in chains[b]
      ensures i in key && key[i].bucket == b
    {
      var k :| 0 <= k < |chains[b]| && chains[b][k] == i;
      assert Owned(key, chains[b][k], b);
    }
  }

  lemma ChainedNew(tos: seq<Arc>, tos': seq<Arc>, key: map<nat, Call>, froms: seq<nat>, chains: seq<seq<nat>>, i: nat, s: Call)
    requires Chained(tos, key, froms, chains) && 0 < i < |tos| == |tos'| && i !in key && s.bucket < |froms|
    requires tos'[i].link == froms[s.bucket] && forall j :: 0 <= j < |tos| && j in key ==> tos'[j].link == tos[j].link
    ensures Chained(tos', key[i := s], froms[s.bucket := i], chains[s.bucket := [i] + chains[s.bucket]])
  {
    var b0 := s.bucket;
    var key', chains' := key[i := s], chains[b0 := [i] + chains[b0]];
    forall b | 0 <= b < |froms|
      ensures Bucket(tos', key', froms[b0 := i][b], chains'[b], b)
    {
      OwnedAll(tos, key, froms, chains, b);
      ChainFrame(tos, tos', froms[b], chains[b]);
      if b == b0 { ChainNew(tos', froms[b], chains[b], i); }
      forall k | 0 <= k < |chains'[b]|
        ensures Owned(key', chains'[b][k], b)
      {
        assert k > 0 || b != b0 ==> chains'[b][k] in chains[b];
      }
    }
    forall j | j in key'
      ensures Placed(key', chains', j)
    {
      if j == i { assert chains'[b0][0] == i; } else { assert Placed(key, chains, j); }
    }
  }

  lemma ChainedFront(tos: seq<Arc>, tos': seq<Arc>, key: map<nat, Call>, froms: seq<nat>, chains: seq<seq<nat>>, b0: nat, k: nat)
    requires Chained(tos, key, froms, chains) && b0 < |froms| && k < |chains[b0]|
    requires (forall j :: 0 <= j < |chains[b0]| ==> chains[b0][j] < |tos|) && Moved(tos, tos', chains[b0], k)
    ensures Chained(tos', key, froms[b0 := chains[b0][k]], chains[b0 := Front(chains[b0], k)])
  {
    var c := chains[b0];
    var chains' := chains[b0 := Front(c, k)];
    OwnedAll(tos, key, froms, chains, b0);
    FrontElements(c, k);
    ChainFront(tos, tos', froms[b0], c, k);
    forall b | 0 <= b < |froms|
      ensures Bucket(tos', key, froms[b0 := c[k]][b], chains'[b], b)
    {
      OwnedAll(tos, key, froms, chains, b);
      forall j | 0 <= j < |chains'[b]|
        ensures Owned(key, chains'[b][j], b)
      {
        assert chains'[b][j] in chains[b];
      }
      if b != b0 { ChainFrame(tos, tos', froms[b], chains[b]); }
    }
    forall i | i in key
      ensures Placed(key, chains', i)
    {
      assert Placed(key, chains, i);
    }
  }

  /** The arc of a call is in the chain of its bucket. */
  lemma ArcOfCall(tos: seq<Arc>, key: map<nat, Call>, arcs: map<Call, nat>, calls: map<Call, nat>,
                  froms: seq<nat>, chains: seq<seq<nat>>, s: Call)
    requires Kept(tos, key, arcs, calls) && Chained(tos, key, froms, chains) && s in calls
    ensures s in arcs && s.bucket < |chains| && arcs[s] in chains[s.bucket]
    ensures arcs[s] < |tos| && tos[arcs[s]].selfpc == s.callee
  {
    assert Found(key, arcs, s);
    assert Held(tos, key, arcs, calls, arcs[s]);
    assert Placed(key, chains, arcs[s]);
  }

  /** A callee that no arc of the bucket's chain names has not been called from there. */
  lemma NotCalled(tos: seq<Arc>, key: map<nat, Call>, arcs: map<Call, nat>, calls: map<Call, nat>,
                  froms: seq<nat>, chains: seq<seq<nat>>, s: Call)
    requires Kept(tos, key, arcs, calls) && Chained(tos, key, froms, chains) && s.bucket < |chains|
    requires forall i :: i in chains[s.bucket] ==> i < |tos| && tos[i].selfpc != s.callee
    ensures s !in calls
  {
    if s in calls {
      ArcOfCall(tos, key, arcs, calls, froms, chains, s);
    }
  }

  /** Slot 0 is not an arc, so that counting the used arcs there changes none. */
  lemma SlotZero(tos: seq<Arc>, tos': seq<Arc>, key: map<nat, Call>, arcs: map<Call, nat>, calls: map<Call, nat>,
                 froms: seq<nat>, chains: seq<seq<nat>>)
    requires Kept(tos, key, arcs, calls) && Chained(tos, key, froms, chains)
    requires |tos'| == |tos| && forall i :: 0 < i < |tos| ==> tos'[i] == tos[i]
    ensures Kept(tos', key, arcs, calls) && Chained(tos', key, froms, chains)
  {
    forall i | i in key
      ensures Held(tos', key, arcs, calls, i)
    {
      assert Held(tos, key, arcs, calls, i);
    }
    forall b | 0 <= b < |froms|
      ensures Bucket(tos', key, froms[b], chains[b], b)
    {
      OwnedAll(tos, key, froms, chains, b);
      ChainFrame(tos, tos', froms[b], chains[b]);
    }
  }

  /** The calls that the arcs of a chain count. */
  ghost function CallsOf(key: map<nat, Call>, c: seq<nat>): (calls: seq<Call>)
    ensures |calls| == |c| && forall k :: 0 <= k < |c| && c[k] in key ==> calls[k] == key[c[k]]
  {
    seq(|c|, k requires 0 <= k < |c| => if c[k] in key then key[c[k]] else Call(0, 0))
  }

  class Table {
    const text: Text
    const froms: array<nat>
    const tos: array<Arc>
    var state: State
    ghost var calls: map<Call, nat>
    ghost var key: map<nat, Call>      // the call that an arc counts
    ghost var arcs: map<Call, nat>     // the arc that counts a call
    ghost var chains: seq<seq<nat>>

    ghost predicate Sound()
      reads this, froms, tos
    {
      && 4 * froms.Length == text.textsize && tos.Length == text.tolimit && 1 <= text.tolimit <= 65534
      && Kept(tos[..], key, arcs, calls) && Chained(tos[..], key, froms[..], chains)
    }

    ghost predicate Valid()
      reads this, froms, tos
    {
      && Sound()
      && |calls| < text.tolimit && (state == Error ==> |calls| + 1 == text.tolimit)
      && tos[0].link == if state == Error then |calls| + 1 else |calls|
    }

    ghost function Abstract(): Graph
      reads this
    {
      Graph(state, calls)
    }

    /** CKprofilerStartup with both arrays cleared. */
    constructor (lowpc: nat, size: nat, tolimit: nat)
      requires 1 <= tolimit <= 65534
      ensures Valid() && Abstract() == Graph(On, map[]) && fresh(froms) && fresh(tos)
      ensures text == Text(lowpc, 4 * size, tolimit)
    {
      text := Text(lowpc, 4 * size, tolimit);
      froms := new nat[size](i => 0);
      tos := new Arc[tolimit](i => Arc(0, 0, 0));
      state := On;
      calls, key, arcs := map[], map[], map[];
      chains := seq(size, i => []);
    }

    /** Counts one more arc in the link of slot 0. */
    method CountArc() returns (toindex: nat)
      requires Sound()
      modifies tos
      ensures Sound() && toindex == tos[0].link == old(tos[0].link) + 1
    {
      SlotZero(tos[..], tos[..][0 := tos[0].(link := tos[0].link + 1)], key, arcs, calls, froms[..], chains);
      tos[0] := tos[0].(link := tos[0].link + 1);
      toindex := tos[0].link;
    }

    /** Stores the arc of a new call in front of its chain. */
    method PutArc(b: nat, selfpc: nat, toindex: nat)
      requires Sound() && b < froms.Length && Call(b, selfpc) !in calls && toindex == |calls| + 1 < tos.Length
      modifies froms, tos
      ensures tos[0] == old(tos[0])
      ensures Kept(tos[..], key[toindex := Call(b, selfpc)], arcs[Call(b, selfpc) := toindex], calls[Call(b, selfpc) := 1])
      ensures Chained(tos[..], key[toindex := Call(b, selfpc)], froms[..], chains[b := [toindex] + chains[b]])
    {
      ghost var t, f := tos[..], froms[..];
      tos[toindex] := Arc(selfpc, 1, froms[b]);
      froms[b] := toindex;
      KeptNew(t, tos[..], key, arcs, calls, Call(b, selfpc), f[b]);
      ChainedNew(t, tos[..], key, f, chains, toindex, Call(b, selfpc));
      assert froms[..] == f[b := toindex];
    }

    /** Takes the next free arc for the call, if there is one. */
    method NewArc(b: nat, selfpc: nat)
      requires Valid() && state == Busy && b < froms.Length && Call(b, selfpc) !in calls
      modifies this, froms, tos
      ensures Valid() && Abstract() == Note(Graph(On, old(calls)), text.tolimit, Call(b, selfpc))
    {
      var toindex := CountArc();
      if toindex >= text.tolimit {
        state := Error;
      } else {
        PutArc(b, selfpc, toindex);
        state := On;
        chains := chains[b := [toindex] + chains[b]];
        key, arcs, calls := key[toindex := Call(b, selfpc)], arcs[Call(b, selfpc) := toindex], calls[Call(b, selfpc) := 1];
      }
    }

    /** What the chain of bucket b looks like from its k-th arc. */
    lemma AtArc(b: nat, k: nat)
      requires Sound() && b < froms.Length && k < |chains[b]|
      ensures var i := chains[b][k];
              && 0 < i < tos.Length && tos[i].link == At(chains[b], k + 1)
              && Held(tos[..], key, arcs, calls, i) && key[i] == Call(b, tos[i].selfpc)
      ensures froms[b] == chains[b][0]
    {
      assert Bucket(tos[..], key, froms[..][b], chains[b], b);
      assert Points(tos[..], chains[b], k) && Owned(key, chains[b][k], b) && chains[b][k] in key;
    }

    lemma InRange(b: nat)
      requires Sound() && b < froms.Length
      ensures Distinct(chains[b]) && forall k :: 0 <= k < |chains[b]| ==> 0 < chains[b][k] < tos.Length
    {
      OwnedAll(tos[..], key, froms[..], chains, b);
      forall k | 0 <= k < |chains[b]|
        ensures 0 < chains[b][k] < tos.Length
      {
        AtArc(b, k);
      }
    }

    method MoveToFront(b: nat, prevtop: nat, top: nat, ghost c: seq<nat>, ghost k: nat)
      requires b < froms.Length && 0 < k < |c| && top == c[k] && prevtop == c[k - 1] && froms[b] == c[0]
      requires Distinct(c) && (forall j :: 0 <= j < |c| ==> 0 < c[j] < tos.Length) && tos[prevtop].link == top
      modifies froms, tos
      ensures Moved(old(tos[..]), tos[..], c, k) && froms[..] == old(froms[..])[b := c[k]]
      ensures forall i :: 0 <= i < tos.Length ==> tos[i].(link := 0) == old(tos[i].(link := 0))
      ensures forall i :: 0 <= i < tos.Length && i !in c ==> tos[i] == old(tos[i])
    {
      var toindex := tos[prevtop].link;
      tos[prevtop] := tos[prevtop].(link := tos[top].link);
      tos[top] := tos[top].(link := froms[b]);
      froms[b] := toindex;
    }

    /** Counts one more call at top, the k-th arc of the chain of bucket b, and moves the arc to the front. */
    method Charge(b: nat, prevtop: nat, top: nat, ghost k: nat)
      requires Sound() && b < froms.Length && k < |chains[b]|
      requires top == chains[b][k] < tos.Length && (k > 0 ==> prevtop == chains[b][k - 1]) && (k == 0 ==> prevtop == 0)
      modifies froms, tos
      ensures tos[0] == old(tos[0]) && top in key && key[top] == Call(b, old(tos[top].selfpc)) && key[top] in calls
      ensures Kept(tos[..], key, arcs, calls[key[top] := calls[key[top]] + 1])
      ensures Chained(tos[..], key, froms[..], chains[b := Front(chains[b], k)])
    {
      ghost var t, f, c := tos[..], froms[..], chains[b];
      AtArc(b, k);
      if k > 0 { AtArc(b, k - 1); }
      InRange(b);
      tos[top] := tos[top].(count := (tos[top].count + 1) % WORD);
      if prevtop != 0 {
        MoveToFront(b, prevtop, top, c, k);
      }
      KeptCharge(t, tos[..], key, arcs, calls, top);
      ChainedFront(t, tos[..], key, f, chains, b, k);
      assert froms[..] == f[b := c[k]];
    }

    /** Charges that arc and ends the call. */
    method ChargeArc(b: nat, prevtop: nat, top: nat, ghost k: nat)
      requires Valid() && state == Busy && b < froms.Length && k < |chains[b]|
      requires top == chains[b][k] < tos.Length && (k > 0 ==> prevtop == chains[b][k - 1]) && (k == 0 ==> prevtop == 0)
      modifies this, froms, tos
      ensures Valid() && state == On
      ensures Call(b, old(tos[top].selfpc)) in old(calls)
      ensures Abstract() == Note(Graph(On, old(calls)), text.tolimit, Call(b, old(tos[top].selfpc)))
    {
      Charge(b, prevtop, top, k);
      state := On;
      assert calls[key[top] := calls[key[top]] + 1].Keys == calls.Keys;
      calls := calls[key[top] := calls[key[top]] + 1];
      chains := chains[b := Front(chains[b], k)];
    }

    /** The call graph maintenance code. */
    method Mcount(frompc: nat, selfpc: nat)
      requires Valid() && Offset(text, frompc) != text.textsize
      modifies this, froms, tos
      ensures Valid() && Abstract() == Record(text, old(Abstract()), frompc, selfpc)
    {
      if state != On { return; }
      state := Busy;
      var offset := (frompc - text.lowpc) % WORD;
      if offset > text.textsize {
        state := On;
        return;
      }
      var b := offset / 4;
      var toindex := froms[b];
      assert Bucket(tos[..], key, froms[..][b], chains[b], b);
      if toindex == 0 {
        InRange(b);
        NotCalled(tos[..], key, arcs, calls, froms[..], chains, Call(b, selfpc));
        NewArc(b, selfpc);
        return;
      }
      AtArc(b, 0);
      if tos[toindex].selfpc == selfpc {
        ChargeArc(b, 0, toindex, 0);
        return;
      }
      FollowChain(b, selfpc);
    }

    /** The search behind the head of the chain. */
    method FollowChain(b: nat, selfpc: nat)
      requires Valid() && state == Busy && b < froms.Length && chains[b] != []
      requires chains[b][0] < tos.Length && tos[chains[b][0]].selfpc != selfpc
      modifies this, froms, tos
      ensures Valid() && Abstract() == Note(Graph(On, old(calls)), text.tolimit, Call(b, selfpc))
    {
      ghost var c, k := chains[b], 0;
      AtArc(b, 0);
      var prevtop, top := 0, froms[b];
      while tos[top].link != 0
        invariant Valid() && state == Busy && b < froms.Length && chains[b] == c && calls == old(calls)
        invariant k < |c| && top == c[k]
        invariant forall j :: 0 <= j <= k ==> c[j] < tos.Length && tos[c[j]].selfpc != selfpc
        decreases |c| - k
      {
        AtArc(b, k);
        prevtop := top;
        top := tos[top].link;
        k := k + 1;
        AtArc(b, k);
        if tos[top].selfpc == selfpc {
          ChargeArc(b, prevtop, top, k);
          return;
        }
      }
      AtArc(b, k);
      InRange(b);
      NotCalled(tos[..], key, arcs, calls, froms[..], chains, Call(b, selfpc));
      NewArc(b, selfpc);
    }

    /** What is sent for a call. */
    ghost function Emitted(c: Call): RawArc
      reads this`calls
      requires c in calls
    {
      RawArc(text.lowpc + 4 * c.bucket, c.callee, calls[c] % WORD)
    }

    /** The calls from bucket b, in the order of its chain. */
    ghost function Order(b: nat): (order: seq<Call>)
      reads this`key, this`chains
      requires b < |chains|
    {
      CallsOf(key, chains[b])
    }

    lemma ChainIsBucket(b: nat)
      requires Sound() && b < froms.Length && b < |chains|
      ensures Distinct(Order(b)) && forall c :: c in Order(b) <==> c in calls && c.bucket == b
    {
      var order := Order(b);
      InRange(b);
      forall i, j | 0 <= i < j < |order|
        ensures order[i] != order[j]
      {
        AtArc(b, i);
        AtArc(b, j);
      }
      forall c
        ensures c in order <==> c in calls && c.bucket == b
      {
        if c in order {
          var i :| 0 <= i < |order| && order[i] == c;
          AtArc(b, i);
        }
        if c in calls && c.bucket == b {
          ArcOfCall(tos[..], key, arcs, calls, froms[..], chains, c);
          assert Found(key, arcs, c);
          var i :| 0 <= i < |order| && chains[b][i] == arcs[c];
          assert order[i] == c;
        }
      }
    }

    /** The arcs of one chain. */
    method SendChain(b: nat) returns (sent: seq<RawArc>)
      requires Sound() && b < froms.Length
      ensures b < |chains| && |sent| == |Order(b)|
      ensures forall i :: 0 <= i < |sent| ==> Order(b)[i] in calls && sent[i] == Emitted(Order(b)[i])
    {
      sent := [];
      var frompc := text.lowpc + 4 * b;
      var toindex := froms[b];
      assert Bucket(tos[..], key, froms[..][b], chains[b], b);
      while toindex != 0
        invariant |sent| <= |chains[b]| && toindex == At(chains[b], |sent|)
        invariant forall i :: 0 <= i < |sent| ==> Order(b)[i] in calls && sent[i] == Emitted(Order(b)[i])
        decreases |chains[b]| - |sent|
      {
        AtArc(b, |sent|);
        sent := sent + [RawArc(frompc, tos[toindex].selfpc, tos[toindex].count)];
        toindex := tos[toindex].link;
      }
      InRange(b);
    }

    lemma EmptyBucket(b: nat)
      requires Sound() && b < froms.Length && froms[b] == 0
      ensures forall c :: c in calls ==> c.bucket != b
    {
      assert Bucket(tos[..], key, froms[..][b], chains[b], b);
      InRange(b);
      ChainIsBucket(b);
    }

    lemma BucketsSuffice()
      requires Sound()
      ensures forall c :: c in calls ==> c.bucket < froms.Length
    {
      forall c | c in calls
        ensures c.bucket < froms.Length
      {
        ArcOfCall(tos[..], key, arcs, calls, froms[..], chains, c);
      }
    }

    /** Every call from the first buckets was sent once. */
    ghost predicate SentUpTo(sent: seq<RawArc>, order: seq<Call>, bucket: nat)
      reads this`calls
    {
      && |sent| == |order| && Distinct(order)
      && (forall i :: 0 <= i < |sent| ==> order[i] in calls && sent[i] == Emitted(order[i]) && order[i].bucket < bucket)
      && (forall c :: c in calls && c.bucket < bucket ==> c in order)
    }

    lemma SendMore(sent: seq<RawArc>, order: seq<Call>, b: nat, more: seq<RawArc>)
      requires Sound() && b < froms.Length && b < |chains| && SentUpTo(sent, order, b) && |more| == |Order(b)|
      requires forall i :: 0 <= i < |more| ==> Order(b)[i] in calls && more[i] == Emitted(Order(b)[i])
      ensures SentUpTo(sent + more, order + Order(b), b + 1)
    {
      ChainIsBucket(b);
    }

    /** The traversal in CKprofilerCleanup.  Every call of the graph is sent exactly once, with the
        address of its bucket and its count; after an overflow nothing is sent. */
    method Cleanup() returns (sent: seq<RawArc>, ghost order: seq<Call>)
      requires Valid() && text.lowpc + text.textsize <= WORD
      modifies this`state
      ensures Valid() && state == if old(state) == Error then Error else Off
      ensures old(state) == Error ==> sent == []
      ensures old(state) != Error ==> Distinct(order) && forall c :: c in order <==> c in calls
      ensures |sent| == |order| && forall i :: 0 <= i < |sent| ==> order[i] in calls && sent[i] == Emitted(order[i])
      ensures old(state) != Error ==> SentFor(text.lowpc, calls, order, sent)
    {
      sent, order := [], [];
      if state == Error { return; }
      state := Off;
      BucketsSuffice();
      var fromindex := 0;
      while fromindex < froms.Length
        invariant state == Off && fromindex <= froms.Length && SentUpTo(sent, order, fromindex)
      {
        if froms[fromindex] != 0 {
          var more := SendChain(fromindex);
          SendMore(sent, order, fromindex, more);
          sent, order := sent + more, order + Order(fromindex);
        }
        if froms[fromindex] == 0 { EmptyBucket(fromindex); }
        fromindex := fromindex + 1;
      }
    }
  }

  /** There is exactly one record for every 4 bytes of the text and every function between which there
      were jumps, with the number of those jumps modulo 2^32. */
  ghost predicate Reports(lowpc: nat, textsize: nat, js: seq<Jump>, sent: seq<RawArc>) {
    && (forall i, j :: 0 <= i < j < |sent| ==> sent[i].frompc != sent[j].frompc || sent[i].selfpc != sent[j].selfpc)
    && (forall i :: 0 <= i < |sent| ==>
          && JumpsOf(lowpc, textsize, js, sent[i].frompc, sent[i].selfpc) != {}
          && sent[i].count == |JumpsOf(lowpc, textsize, js, sent[i].frompc, sent[i].selfpc)| % WORD)
    && (forall k, f, s :: 0 <= k < |js| && Joins(lowpc, textsize, js[k], f, s) ==>
          exists i :: 0 <= i < |sent| && sent[i].frompc == f && sent[i].selfpc == s)
  }

  lemma Recorded(t: Text, js: seq<Jump>, calls: map<Call, nat>, order: seq<Call>, sent: seq<RawArc>)
    requires NoneFromEnd(t.lowpc, t.textsize, js) && Tallies(t, Graph(On, calls), js) && SentFor(t.lowpc, calls, order, sent)
    ensures Reports(t.lowpc, t.textsize, js, sent)
  {
    forall i, j | 0 <= i < j < |sent|
      ensures sent[i].frompc != sent[j].frompc || sent[i].selfpc != sent[j].selfpc
    {
      RecordedOnce(t.lowpc, calls, order, sent, i, j);
    }
    forall i | 0 <= i < |sent|
      ensures JumpsOf(t.lowpc, t.textsize, js, sent[i].frompc, sent[i].selfpc) != {}
      ensures sent[i].count == |JumpsOf(t.lowpc, t.textsize, js, sent[i].frompc, sent[i].selfpc)| % WORD
    {
      RecordCounts(t, js, calls, order, sent, i);
    }
    forall k, f, s | 0 <= k < |js| && Joins(t.lowpc, t.textsize, js[k], f, s)
      ensures exists i :: 0 <= i < |sent| && sent[i].frompc == f && sent[i].selfpc == s
    {
      JumpRecorded(t, js, calls, order, sent, k, f, s);
    }
  }

  /** A whole session: the table is set up, told of every jump, and sent.  Unless the kinds of calls are
      too many, there is exactly one record for every 4 bytes and every function between which there
      were jumps, with the number of those jumps; otherwise nothing is sent. */
  method Session(lowpc: nat, size: nat, tolimit: nat, js: seq<Jump>) returns (complete: bool, sent: seq<RawArc>)
    requires 1 <= tolimit <= 65534 && lowpc + 4 * size <= WORD && NoneFromEnd(lowpc, 4 * size, js)
    ensures complete <==> |Sites(Text(lowpc, 4 * size, tolimit), js)| < tolimit
    ensures !complete ==> sent == []
    ensures complete ==> Reports(lowpc, 4 * size, js, sent)
  {
    var p := new Table(lowpc, size, tolimit);
    var t := p.text;
    var i := 0;
    while i < |js|
      invariant i <= |js| && p.Valid() && p.text == t && fresh(p) && fresh(p.froms) && fresh(p.tos)
      invariant p.Abstract() == Run(t, Graph(On, map[]), js[..i])
    {
      p.Mcount(js[i].frompc, js[i].selfpc);
      i := i + 1;
      assert js[..i][..i - 1] == js[..i - 1];
    }
    assert js[..i] == js;
    ghost var n := RunCounts(t, js);
    assert js[..|js|] == js;
    complete := p.state != Error;
    if n < |js| { FewerSites(t, js, n + 1); }
    ghost var order;
    sent, order := p.Cleanup();
    if complete { Recorded(t, js, p.calls, order, sent); }
  }

  /** A beginning of a run has no more kinds of calls than the run. */
  lemma {:induction false} FewerSites(t: Text, js: seq<Jump>, n: nat)
    requires n <= |js|
    ensures Sites(t, js[..n]) <= Sites(t, js) && |Sites(t, js[..n])| <= |Sites(t, js)|
  {
    if n == |js| {
      assert js[..n] == js;
    } else {
      FewerSites(t, js[..|js| - 1], n);
      assert js[..|js| - 1][..n] == js[..n];
    }
    Subset(Sites(t, js[..n]), Sites(t, js));
  }

  lemma Subset<T>(a: set<T>, b: set<T>)
    requires a <= b
    ensures |a| <= |b|
  {
    assert b == a + (b - a);
  }
}
