/** Consistent hashing (HashNodes.h): nodes sit at points of a circle of 2^32 places, and a key belongs
    to the first point at or after its hash. */
module HashRing {
  import opened Bytes
  import opened HashMix

  // ------------------------------------------------------------------------------------------------
  // The circle
  // ------------------------------------------------------------------------------------------------

  predicate Points(keys: set<nat>) {
    forall k :: k in keys ==> k < UINT32
  }

  /** How far one walks up from h to reach p, going round past 2^32 - 1. */
  function Dist(h: nat, p: nat): (d: nat)
    requires h < UINT32 && p < UINT32
    ensures d < UINT32 && (h + d) % UINT32 == p
  {
    if h <= p then p - h else p + UINT32 - h
  }

  /** p is the first point met when walking up from h. */
  predicate Owns(keys: set<nat>, h: nat, p: nat)
    requires Points(keys) && h < UINT32
  {
    p in keys && forall q :: q in keys ==> Dist(h, p) <= Dist(h, q)
  }

  lemma OwnerUnique(keys: set<nat>, h: nat, p: nat, q: nat)
    requires Points(keys) && h < UINT32 && Owns(keys, h, p) && Owns(keys, h, q)
    ensures p == q
  {
    assert Dist(h, p) == Dist(h, q);
  }

  lemma {:induction false} OwnerExists(keys: set<nat>, h: nat)
    requires Points(keys) && keys != {} && h < UINT32
    ensures exists p :: Owns(keys, h, p)
    decreases |keys|
  {
    var p :| p in keys;
    var rest := keys - {p};
    if rest == {} {
      assert keys == {p};
      assert Owns(keys, h, p);
    } else {
      OwnerExists(rest, h);
      var q :| Owns(rest, h, q);
      assert Owns(keys, h, if Dist(h, p) <= Dist(h, q) then p else q);
    }
  }

  ghost function Owner(keys: set<nat>, h: nat): (p: nat)
    requires Points(keys) && keys != {} && h < UINT32
    ensures Owns(keys, h, p)
  {
    OwnerExists(keys, h);
    var p :| Owns(keys, h, p);
    p
  }

  // ------------------------------------------------------------------------------------------------
  // Arcs
  // ------------------------------------------------------------------------------------------------

  /** q is the last other point before p. */
  predicate Precedes(keys: set<nat>, q: nat, p: nat)
    requires Points(keys) && p < UINT32
  {
    q in keys && q != p && forall r :: r in keys && r != p ==> Dist(q, p) <= Dist(r, p)
  }

  lemma {:induction false} PredecessorExists(keys: set<nat>, p: nat)
    requires Points(keys) && p < UINT32 && !(keys <= {p})
    ensures exists q :: Precedes(keys, q, p)
    decreases |keys|
  {
    var q :| q in keys && q != p;
    var rest := keys - {q};
    if rest <= {p} {
      forall r | r in keys && r != p ensures r == q {
        assert r !in rest;
      }
      assert Precedes(keys, q, p);
    } else {
      PredecessorExists(rest, p);
      var r :| Precedes(rest, r, p);
      assert Precedes(keys, if Dist(q, p) <= Dist(r, p) then q else r, p);
    }
  }

  /** The number of places from just after the point before p up to p: the whole circle if p is alone. */
  ghost function Arc(keys: set<nat>, p: nat): (n: nat)
    requires Points(keys) && p < UINT32
    ensures 0 < n <= UINT32
  {
    if keys <= {p} then UINT32
    else
      PredecessorExists(keys, p);
      var q :| Precedes(keys, q, p);
      Dist(q, p)
  }

  /** A point owns exactly the hashes of the half-open arc that ends in it. */
  lemma OwnsItsArc(keys: set<nat>, h: nat, p: nat)
    requires Points(keys) && p in keys && h < UINT32
    ensures Owns(keys, h, p) <==> Dist(h, p) < Arc(keys, p)
  {
    if !(keys <= {p}) {
      PredecessorExists(keys, p);
      var q :| Precedes(keys, q, p) && Arc(keys, p) == Dist(q, p);
      if Dist(h, p) < Dist(q, p) {
        forall r | r in keys ensures Dist(h, p) <= Dist(h, r) {
          if r != p {
            assert Dist(q, p) <= Dist(r, p);
          }
        }
      } else {
        assert Dist(h, q) < Dist(h, p);
      }
    }
  }

  /** The hashes that a point owns. */
  ghost function Owned(keys: set<nat>, p: nat): set<nat>
    requires Points(keys)
  {
    set h | 0 <= h < UINT32 && Owns(keys, h, p)
  }

  ghost function Within(p: nat, n: nat): set<nat>
    requires p < UINT32
  {
    set h | 0 <= h < UINT32 && Dist(h, p) < n
  }

  lemma {:induction false} WithinSize(p: nat, n: nat)
    requires p < UINT32 && n <= UINT32
    ensures |Within(p, n)| == n
    decreases n
  {
    if n == 0 {
      assert Within(p, 0) == {};
    } else {
      var h := if n - 1 <= p then p - (n - 1) else p + UINT32 - (n - 1);
      WithinSize(p, n - 1);
      assert h < UINT32 && Dist(h, p) == n - 1;
      forall g | 0 <= g < UINT32 && Dist(g, p) == n - 1 ensures g == h {
      }
      WithinNext(p, n - 1, h);
    }
  }

  lemma WithinNext(p: nat, n: nat, h: nat)
    requires p < UINT32 && h < UINT32 && Dist(h, p) == n
    requires forall g | 0 <= g < UINT32 && Dist(g, p) == n :: g == h
    ensures |Within(p, n + 1)| == |Within(p, n)| + 1
  {
    hide Dist;
    assert Within(p, n + 1) == Within(p, n) + {h};
  }

  /** A point owns as many hashes as its arc is long. */
  lemma OwnedIsArc(keys: set<nat>, p: nat)
    requires Points(keys) && p in keys
    ensures |Owned(keys, p)| == Arc(keys, p)
  {
    forall h | 0 <= h < UINT32 ensures Owns(keys, h, p) <==> Dist(h, p) < Arc(keys, p) {
      OwnsItsArc(keys, h, p);
    }
    assert Owned(keys, p) == Within(p, Arc(keys, p));
    WithinSize(p, Arc(keys, p));
  }

  ghost function ArcSum(keys: set<nat>, some: set<nat>): nat
    requires Points(keys) && some <= keys
    decreases |some|
  {
    if some == {} then 0
    else
      var p :| p in some;
      Arc(keys, p) + ArcSum(keys, some - {p})
  }

  ghost function OwnedBy(keys: set<nat>, some: set<nat>): set<nat>
    requires Points(keys) && keys != {}
  {
    set h | 0 <= h < UINT32 && Owner(keys, h) in some
  }

  lemma {:induction false} ArcSumIsOwned(keys: set<nat>, some: set<nat>)
    requires Points(keys) && keys != {} && some <= keys
    ensures ArcSum(keys, some) == |OwnedBy(keys, some)|
    decreases |some|
  {
    if some == {} {
      assert OwnedBy(keys, some) == {};
    } else {
      var p :| p in some && ArcSum(keys, some) == Arc(keys, p) + ArcSum(keys, some - {p});
      ArcSumIsOwned(keys, some - {p});
      OwnedIsArc(keys, p);
      forall h | 0 <= h < UINT32 && Owns(keys, h, p) ensures Owner(keys, h) == p {
        OwnerUnique(keys, h, p, Owner(keys, h));
      }
      assert OwnedBy(keys, some) == OwnedBy(keys, some - {p}) + Owned(keys, p);
      assert OwnedBy(keys, some - {p}) !! Owned(keys, p);
    }
  }

  /** The arcs of all points together are the whole circle. */
  lemma ArcsFillCircle(keys: set<nat>)
    requires Points(keys) && keys != {}
    ensures ArcSum(keys, keys) == UINT32
  {
    ArcSumIsOwned(keys, keys);
    assert OwnedBy(keys, keys) == Within(0, UINT32);
    WithinSize(0, UINT32);
  }

  // ------------------------------------------------------------------------------------------------
  // Adding a node
  // ------------------------------------------------------------------------------------------------

  /** std::map::insert: an occupied point keeps its node. */
  function Put<Node>(m: map<nat, Node>, l: nat, node: Node): map<nat, Node> {
    if l in m then m else m[l := node]
  }

  ghost function Lookup<Node>(m: map<nat, Node>, h: nat): Node
    requires Points(m.Keys) && m.Keys != {} && h < UINT32
  {
    m[Owner(m.Keys, h)]
  }

  /** Minimal disruption: a put on a free point redirects exactly the hashes of the arc that ends there,
      all of them to the new node, and leaves every other answer alone; on an occupied point it does nothing. */
  lemma PutRedirectsOneArc<Node>(m: map<nat, Node>, l: nat, node: Node, h: nat)
    requires Points(m.Keys) && m.Keys != {} && l < UINT32 && h < UINT32
    ensures Points(Put(m, l, node).Keys)
    ensures l in m ==> Put(m, l, node) == m
    ensures l !in m && Dist(h, l) < Arc(m.Keys, l) ==> Lookup(Put(m, l, node), h) == node
    ensures l !in m && Dist(h, l) >= Arc(m.Keys, l) ==> Lookup(Put(m, l, node), h) == Lookup(m, h)
  {
    if l !in m {
      var more := Put(m, l, node);
      assert more.Keys == m.Keys + {l};
      SameArc(m.Keys, l);
      OwnsItsArc(more.Keys, h, l);
      var p := Owner(more.Keys, h);
      if Owns(more.Keys, h, l) {
        OwnerUnique(more.Keys, h, l, p);
      } else {
        assert Owns(m.Keys, h, p);
        OwnerUnique(m.Keys, h, p, Owner(m.Keys, h));
      }
    }
  }

  /** Whether p itself is on the circle does not matter for the arc that ends in it. */
  lemma SameArc(keys: set<nat>, p: nat)
    requires Points(keys) && keys != {} && p < UINT32 && p !in keys
    ensures Arc(keys + {p}, p) == Arc(keys, p)
  {
    var more := keys + {p};
    var q :| q in keys;
    assert q in more && q != p;
    PredecessorExists(keys, p);
    PredecessorExists(more, p);
    var a :| Precedes(keys, a, p) && Arc(keys, p) == Dist(a, p);
    var b :| Precedes(more, b, p) && Arc(more, p) == Dist(b, p);
    assert Dist(a, p) <= Dist(b, p) && Dist(b, p) <= Dist(a, p);
  }

  lemma LookupIn<Node>(m: map<nat, Node>, h: nat)
    requires Points(m.Keys) && m.Keys != {} && h < UINT32
    ensures Lookup(m, h) in m.Values
  {
  }

  /** The number of hashes that change hands is the length of that arc, when the new node is really new. */
  lemma PutMovesArc<Node>(m: map<nat, Node>, l: nat, node: Node)
    requires Points(m.Keys) && m.Keys != {} && l < UINT32 && l !in m && node !in m.Values
    ensures Points(Put(m, l, node).Keys)
    ensures |set h | 0 <= h < UINT32 && Lookup(Put(m, l, node), h) != Lookup(m, h)| == Arc(m.Keys, l)
  {
    hide Lookup, Dist;
    forall h | 0 <= h < UINT32
      ensures Points(Put(m, l, node).Keys)
      ensures Lookup(Put(m, l, node), h) != Lookup(m, h) <==> Dist(h, l) < Arc(m.Keys, l)
    {
      PutRedirectsOneArc(m, l, node, h);
      LookupIn(m, h);
    }
    assert (set h | 0 <= h < UINT32 && Lookup(Put(m, l, node), h) != Lookup(m, h)) == Within(l, Arc(m.Keys, l));
    WithinSize(l, Arc(m.Keys, l));
  }

  /** Two puts commute exactly when they do not race for one free point with different nodes. */
  lemma PutsCommute<Node>(m: map<nat, Node>, a: nat, x: Node, b: nat, y: Node)
    ensures Put(Put(m, a, x), b, y) == Put(Put(m, b, y), a, x) <==> a != b || a in m || x == y
  {
    if a == b && a !in m {
      assert Put(Put(m, a, x), b, y)[a] == x && Put(Put(m, b, y), a, x)[a] == y;
    }
  }

  // ------------------------------------------------------------------------------------------------
  // The class
  // ------------------------------------------------------------------------------------------------

  predicate Least(s: set<nat>, k: nat) {
    k in s && forall q :: q in s ==> k <= q
  }

  lemma {:induction false} LeastExists(s: set<nat>)
    requires s != {}
    ensures exists k :: Least(s, k)
    decreases |s|
  {
    var k :| k in s;
    var rest := s - {k};
    assert forall q :: q in s ==> q == k || q in rest;
    if rest == {} {
      assert Least(s, k);
    } else {
      LeastExists(rest);
      var q :| Least(rest, q);
      assert Least(s, if k <= q then k else q);
    }
  }

  function Above(keys: set<nat>, l: nat): set<nat> {
    set q | q in keys && l < q
  }

  class HashNodes<Node> {
    var m: map<nat, Node>

    ghost predicate Valid()
      reads this
    {
      Points(m.Keys)
    }

    constructor ()
      ensures Valid() && m == map[]
    {
      m := map[];
    }

    method PutNode(key: seq<byte>, node: Node)
      requires Valid()
      modifies this
      ensures Valid() && m == Put(old(m), Hash32(key), node)
    {
      var l := Hash(key);
      if l !in m {
        m := m[l := node];
      }
    }

    /** find, else upper_bound, else begin. */
    method GetNode(key: seq<byte>) returns (node: Node)
      requires Valid() && m.Keys != {}
      ensures node == Lookup(m, Hash32(key))
    {
      hide Hash32, Hash64, Owns, Dist;
      var l := Hash(key);
      var k := l;
      if l !in m {
        if Above(m.Keys, l) != {} {
          LeastExists(Above(m.Keys, l));
          k :| Least(Above(m.Keys, l), k);
        } else {
          LeastExists(m.Keys);
          k :| Least(m.Keys, k);
        }
      }
      assert Owns(m.Keys, l, k) by { FirstAtOrAfter(m.Keys, l, k); }
      OwnerUnique(m.Keys, l, k, Owner(m.Keys, l));
      node := m[k];
    }
  }

  /** What the three searches of getNode find is the nearest point on the circle. */
  lemma FirstAtOrAfter(keys: set<nat>, l: nat, k: nat)
    requires Points(keys) && l < UINT32
    requires l in keys ==> k == l
    requires l !in keys && Above(keys, l) != {} ==> Least(Above(keys, l), k)
    requires l !in keys && Above(keys, l) == {} ==> Least(keys, k)
    ensures Owns(keys, l, k)
  {
    forall q | q in keys ensures Dist(l, k) <= Dist(l, q) {
      if l !in keys && l < q {
        assert q in Above(keys, l);
      }
    }
  }
}
