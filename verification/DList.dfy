/** Doubly linked lists threaded through kernel memory.

    A pointer is an address, NIL is address 0, and each link field of a C structure is one
    map from the structure's address to the field's value.  `Linked` says that a sequence of
    addresses is exactly the list that the two link fields spell out in both directions. */
module DList {

  type Ptr = nat

  const NIL: Ptr := 0

  /** The i-th node of a list, or NIL when i falls off either end. */
  ghost function At(s: seq<Ptr>, i: int): Ptr {
    if 0 <= i < |s| then s[i] else NIL
  }

  function Without<T>(s: seq<T>, k: nat): seq<T>
    requires k < |s|
  {
    s[..k] + s[k + 1..]
  }

  function Insert<T>(s: seq<T>, k: nat, x: T): seq<T>
    requires k <= |s|
  {
    s[..k] + [x] + s[k..]
  }

  ghost predicate Distinct<T>(s: seq<T>) {
    forall i, j :: 0 <= i < j < |s| ==> s[i] != s[j]
  }

  /** Node i carries the addresses of its two neighbours. */
  ghost predicate Node(s: seq<Ptr>, prev: map<Ptr, Ptr>, next: map<Ptr, Ptr>, i: nat)
    requires i < |s|
  {
    && s[i] != NIL && s[i] in prev && s[i] in next
    && prev[s[i]] == At(s, i - 1) && next[s[i]] == At(s, i + 1)
  }

  ghost predicate Linked(s: seq<Ptr>, prev: map<Ptr, Ptr>, next: map<Ptr, Ptr>) {
    && Distinct(s)
    && forall i :: 0 <= i < |s| ==> Node(s, prev, next, i)
  }

  /** The two maps give every node of s the same value. */
  ghost predicate Agree(s: seq<Ptr>, m: map<Ptr, Ptr>, m': map<Ptr, Ptr>) {
    forall x :: x in s && x in m ==> x in m' && m'[x] == m[x]
  }

  /** A list whose nodes were not written is still the same list. */
  lemma Frame(s: seq<Ptr>, prev: map<Ptr, Ptr>, next: map<Ptr, Ptr>, prev': map<Ptr, Ptr>, next': map<Ptr, Ptr>)
    requires Linked(s, prev, next) && Agree(s, prev, prev') && Agree(s, next, next')
    ensures Linked(s, prev', next')
  {
    forall i | 0 <= i < |s|
      ensures Node(s, prev', next', i)
    {
      assert Node(s, prev, next, i);
    }
  }

  lemma WithoutDistinct<T>(s: seq<T>, k: nat)
    requires k < |s| && Distinct(s)
    ensures Distinct(Without(s, k))
  {
    var t := Without(s, k);
    assert forall i :: 0 <= i < |t| ==> t[i] == s[if i < k then i else i + 1];
  }

  lemma InsertDistinct<T>(s: seq<T>, k: nat, x: T)
    requires k <= |s| && Distinct(s) && x !in s
    ensures Distinct(Insert(s, k, x))
  {
    var t := Insert(s, k, x);
    assert forall i :: 0 <= i < |t| && i != k ==> t[i] == s[if i < k then i else i - 1];
  }

  /** Bypassing node k in both directions leaves the list without its k-th node. */
  lemma Unlink(s: seq<Ptr>, k: nat, prev: map<Ptr, Ptr>, next: map<Ptr, Ptr>, prev': map<Ptr, Ptr>, next': map<Ptr, Ptr>)
    requires Linked(s, prev, next) && k < |s| && Node(s, prev, next, k)
    requires next' == if prev[s[k]] != NIL then next[prev[s[k]] := next[s[k]]] else next
    requires prev' == if next[s[k]] != NIL then prev[next[s[k]] := prev[s[k]]] else prev
    ensures Linked(Without(s, k), prev', next')
  {
    var t := Without(s, k);
    WithoutDistinct(s, k);
    forall i | 0 <= i < |t|
      ensures Node(t, prev', next', i)
    {
      var j := if i < k then i else i + 1;
      assert t[i] == s[j] && Node(s, prev, next, j);
      if k > 0 { assert Node(s, prev, next, k - 1); }
      if k + 1 < |s| { assert Node(s, prev, next, k + 1); }
    }
  }

  /** Writing x's two links and its neighbours' links back to x puts x at position k. */
  lemma Link(s: seq<Ptr>, k: nat, x: Ptr, prev: map<Ptr, Ptr>, next: map<Ptr, Ptr>, prev': map<Ptr, Ptr>, next': map<Ptr, Ptr>)
    requires Linked(s, prev, next) && k <= |s| && x != NIL && x !in s
    requires var next1 := next[x := At(s, k)];
             next' == if At(s, k - 1) != NIL then next1[At(s, k - 1) := x] else next1
    requires var prev1 := prev[x := At(s, k - 1)];
             prev' == if At(s, k) != NIL then prev1[At(s, k) := x] else prev1
    ensures Linked(Insert(s, k, x), prev', next')
  {
    var t := Insert(s, k, x);
    InsertDistinct(s, k, x);
    if k > 0 { assert Node(s, prev, next, k - 1); }
    if k < |s| { assert Node(s, prev, next, k); }
    forall i | 0 <= i < |t|
      ensures Node(t, prev', next', i)
    {
      if i != k {
        var j := if i < k then i else i - 1;
        assert t[i] == s[j] && Node(s, prev, next, j);
      }
    }
  }

  lemma WithoutElements<T>(s: seq<T>, k: nat, x: T)
    requires k < |s| && Distinct(s)
    ensures x in Without(s, k) <==> x in s && x != s[k]
  {
    var t := Without(s, k);
    if x in s && x != s[k] {
      var j :| 0 <= j < |s| && s[j] == x;
      assert t[if j < k then j else j - 1] == x;
    }
    if x in t {
      var i :| 0 <= i < |t| && t[i] == x;
      assert x == s[if i < k then i else i + 1];
    }
  }

  lemma InsertElements<T>(s: seq<T>, k: nat, y: T, x: T)
    requires k <= |s|
    ensures x in Insert(s, k, y) <==> x in s || x == y
  {
    assert s == s[..k] + s[k..];
  }
}
