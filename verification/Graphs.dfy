/** Undirected multigraphs over the nodes 0..n-1, and what it means for two nodes to be
    connected, for a set of edges to be acyclic, and for a set to have some number of
    components.  Nothing here mentions how a spanning forest is computed. */
module Graphs {
  import opened Sequences

  /** One join edge: two node indices, an estimated cost, and the two table names. */
  datatype Edge = Edge(u: nat, v: nat, weight: int, tableU: string, tableV: string)

  ghost predicate Inside(n: nat, s: set<Edge>) {
    forall e :: e in s ==> e.u < n && e.v < n
  }

  ghost predicate Adjacent(s: set<Edge>, x: nat, y: nat) {
    exists e :: e in s && ((e.u == x && e.v == y) || (e.u == y && e.v == x))
  }

  ghost predicate Path(s: set<Edge>, p: seq<nat>) {
    |p| > 0 && forall i :: 0 <= i < |p| - 1 ==> Adjacent(s, p[i], p[i + 1])
  }

  ghost predicate Joins(s: set<Edge>, p: seq<nat>, x: nat, y: nat) {
    Path(s, p) && p[0] == x && p[|p| - 1] == y
  }

  /** x and y are connected when some path of edges of s leads from one to the other. */
  ghost predicate Connected(s: set<Edge>, x: nat, y: nat) {
    exists p :: Joins(s, p, x, y)
  }

  /** No edge of an acyclic set can be bypassed by the others. */
  ghost predicate Acyclic(s: set<Edge>) {
    forall e :: e in s ==> !Connected(s - {e}, e.u, e.v)
  }

  ghost predicate SameConnectivity(n: nat, s: set<Edge>, t: set<Edge>) {
    forall x: nat, y: nat :: x < n && y < n ==> (Connected(s, x, y) <==> Connected(t, x, y))
  }

  ghost predicate SpanningForest(n: nat, f: set<Edge>, s: set<Edge>) {
    f <= s && Acyclic(f) && SameConnectivity(n, f, s)
  }

  ghost function NodesBelow(n: nat): (s: set<nat>)
    ensures |s| == n && forall x: nat :: x in s <==> x < n
  {
    if n == 0 then {} else NodesBelow(n - 1) + {n - 1}
  }

  /** The least node of each component. */
  ghost function Least(n: nat, s: set<Edge>): set<nat> {
    set x | x in NodesBelow(n) && forall y: nat :: y < x ==> !Connected(s, y, x)
  }

  ghost function Components(n: nat, s: set<Edge>): nat {
    |Least(n, s)|
  }

  // ---------- connectivity is an equivalence, monotone in the edge set ----------

  lemma Reflexive(s: set<Edge>, x: nat)
    ensures Connected(s, x, x)
  {
    assert Joins(s, [x], x, x);
  }

  lemma Symmetric(s: set<Edge>, x: nat, y: nat)
    requires Connected(s, x, y)
    ensures Connected(s, y, x)
  {
    var p :| Joins(s, p, x, y);
    var q := seq(|p|, i requires 0 <= i < |p| => p[|p| - 1 - i]);
    forall i | 0 <= i < |q| - 1
      ensures Adjacent(s, q[i], q[i + 1])
    {
      assert Adjacent(s, p[|p| - 2 - i], p[|p| - 2 - i + 1]);
    }
    assert Joins(s, q, y, x);
  }

  lemma Transitive(s: set<Edge>, x: nat, y: nat, z: nat)
    requires Connected(s, x, y) && Connected(s, y, z)
    ensures Connected(s, x, z)
  {
    var p :| Joins(s, p, x, y);
    var q :| Joins(s, q, y, z);
    var r := p + q[1..];
    forall i | 0 <= i < |r| - 1
      ensures Adjacent(s, r[i], r[i + 1])
    {
      if i < |p| - 1 {
        assert Adjacent(s, p[i], p[i + 1]);
      } else {
        assert Adjacent(s, q[i - |p| + 1], q[i - |p| + 1 + 1]);
      }
    }
    assert Joins(s, r, x, z);
  }

  lemma EdgeConnects(s: set<Edge>, e: Edge)
    requires e in s
    ensures Connected(s, e.u, e.v) && Connected(s, e.v, e.u)
  {
    assert Joins(s, [e.u, e.v], e.u, e.v);
    assert Joins(s, [e.v, e.u], e.v, e.u);
  }

  lemma Monotone(s: set<Edge>, t: set<Edge>, x: nat, y: nat)
    requires s <= t && Connected(s, x, y)
    ensures Connected(t, x, y)
  {
    var p :| Joins(s, p, x, y);
    forall i | 0 <= i < |p| - 1
      ensures Adjacent(t, p[i], p[i + 1])
    {
      assert Adjacent(s, p[i], p[i + 1]);
    }
    assert Joins(t, p, x, y);
  }

  lemma {:induction false} PathStaysInside(n: nat, s: set<Edge>, p: seq<nat>)
    requires Inside(n, s) && Path(s, p) && p[0] < n
    ensures p[|p| - 1] < n
  {
    if |p| > 1 {
      assert Adjacent(s, p[0], p[1]);
      assert Path(s, p[1..]) by {
        forall i | 0 <= i < |p| - 2
          ensures Adjacent(s, p[1..][i], p[1..][i + 1])
        {
          assert Adjacent(s, p[i + 1], p[i + 1 + 1]);
        }
      }
      PathStaysInside(n, s, p[1..]);
    }
  }

  // ---------- what one more edge changes ----------

  ghost predicate ThroughEdge(s: set<Edge>, e: Edge, x: nat, y: nat) {
    || Connected(s, x, y)
    || (Connected(s, x, e.u) && Connected(s, e.v, y))
    || (Connected(s, x, e.v) && Connected(s, e.u, y))
  }

  /** With e added, two nodes are connected just when they were before or a path crosses e. */
  lemma OneMoreEdge(s: set<Edge>, e: Edge, x: nat, y: nat)
    ensures Connected(s + {e}, x, y) <==> ThroughEdge(s, e, x, y)
  {
    if Connected(s + {e}, x, y) {
      var p :| Joins(s + {e}, p, x, y);
      CrossingPath(s, e, p);
    }
    if ThroughEdge(s, e, x, y) {
      CrossingConnects(s, e, x, y);
    }
  }

  lemma CrossingConnects(s: set<Edge>, e: Edge, x: nat, y: nat)
    requires ThroughEdge(s, e, x, y)
    ensures Connected(s + {e}, x, y)
  {
    var t := s + {e};
    EdgeConnects(t, e);
    if Connected(s, x, y) {
      Monotone(s, t, x, y);
    } else if Connected(s, x, e.u) && Connected(s, e.v, y) {
      Monotone(s, t, x, e.u);
      Monotone(s, t, e.v, y);
      Transitive(t, x, e.u, e.v);
      Transitive(t, x, e.v, y);
    } else {
      Monotone(s, t, x, e.v);
      Monotone(s, t, e.u, y);
      Transitive(t, x, e.v, e.u);
      Transitive(t, x, e.u, y);
    }
  }

  lemma {:induction false} CrossingPath(s: set<Edge>, e: Edge, p: seq<nat>)
    requires Path(s + {e}, p)
    ensures ThroughEdge(s, e, p[0], p[|p| - 1])
    decreases |p|
  {
    var y := p[|p| - 1];
    if |p| == 1 {
      Reflexive(s, y);
    } else {
      var a, b := p[0], p[1];
      var q := p[1..];
      assert Path(s + {e}, q) by {
        forall i | 0 <= i < |q| - 1
          ensures Adjacent(s + {e}, q[i], q[i + 1])
        {
          assert Adjacent(s + {e}, p[i + 1], p[i + 1 + 1]);
        }
      }
      CrossingPath(s, e, q);
      assert Adjacent(s + {e}, p[0], p[0 + 1]);
      var f :| f in s + {e} && ((f.u == a && f.v == b) || (f.u == b && f.v == a));
      if f in s {
        EdgeConnects(s, f);
        PrependStep(s, e, a, b, y);
      } else {
        CrossFirst(s, e, a, b, y);
      }
    }
  }

  lemma PrependStep(s: set<Edge>, e: Edge, a: nat, b: nat, y: nat)
    requires Connected(s, a, b) && ThroughEdge(s, e, b, y)
    ensures ThroughEdge(s, e, a, y)
  {
    if Connected(s, b, y) {
      Transitive(s, a, b, y);
    } else if Connected(s, b, e.u) && Connected(s, e.v, y) {
      Transitive(s, a, b, e.u);
    } else {
      Transitive(s, a, b, e.v);
    }
  }

  lemma CrossFirst(s: set<Edge>, e: Edge, a: nat, b: nat, y: nat)
    requires (e.u == a && e.v == b) || (e.u == b && e.v == a)
    requires ThroughEdge(s, e, b, y)
    ensures ThroughEdge(s, e, a, y)
  {
    Reflexive(s, a);
  }

  /** An edge between nodes that are already connected changes nothing. */
  lemma RedundantEdge(s: set<Edge>, e: Edge, x: nat, y: nat)
    requires Connected(s, e.u, e.v)
    ensures Connected(s + {e}, x, y) <==> Connected(s, x, y)
  {
    OneMoreEdge(s, e, x, y);
    Symmetric(s, e.u, e.v);
    if Connected(s, x, e.u) && Connected(s, e.v, y) {
      Transitive(s, x, e.u, e.v);
      Transitive(s, x, e.v, y);
    } else if Connected(s, x, e.v) && Connected(s, e.u, y) {
      Transitive(s, x, e.v, e.u);
      Transitive(s, x, e.u, y);
    }
  }

  // ---------- acyclic sets ----------

  lemma AcyclicSubset(s: set<Edge>, t: set<Edge>)
    requires s <= t && Acyclic(t)
    ensures Acyclic(s)
  {
    forall e | e in s
      ensures !Connected(s - {e}, e.u, e.v)
    {
      if Connected(s - {e}, e.u, e.v) {
        Monotone(s - {e}, t - {e}, e.u, e.v);
      }
    }
  }

  /** Joining two nodes that were not connected cannot close a cycle. */
  lemma AcyclicExtend(s: set<Edge>, e: Edge)
    requires Acyclic(s) && !Connected(s, e.u, e.v)
    ensures e !in s && Acyclic(s + {e})
  {
    if e in s {
      EdgeConnects(s, e);
    }
    forall f | f in s + {e}
      ensures !Connected(s + {e} - {f}, f.u, f.v)
    {
      if f == e {
        assert s + {e} - {f} == s;
      } else {
        NoNewBypass(s, e, f);
      }
    }
  }

  lemma NoNewBypass(s: set<Edge>, e: Edge, f: Edge)
    requires Acyclic(s) && !Connected(s, e.u, e.v) && f in s && f != e
    ensures !Connected(s + {e} - {f}, f.u, f.v)
  {
    var r := s - {f};
    assert s + {e} - {f} == r + {e};
    if Connected(r + {e}, f.u, f.v) {
      OneMoreEdge(r, e, f.u, f.v);
      EdgeConnects(s, f);
      if Connected(r, f.u, e.u) && Connected(r, e.v, f.v) {
        Monotone(r, s, f.u, e.u);
        Monotone(r, s, e.v, f.v);
        Symmetric(s, f.u, e.u);
        Symmetric(s, e.v, f.v);
        Transitive(s, e.u, f.u, f.v);
        Transitive(s, e.u, f.v, e.v);
      } else {
        Monotone(r, s, f.u, e.v);
        Monotone(r, s, e.u, f.v);
        Symmetric(s, f.u, e.v);
        Transitive(s, e.u, f.v, f.u);
        Transitive(s, e.u, f.u, e.v);
      }
    }
  }

  // ---------- counting components ----------

  /** Every node has a least node of its component below it. */
  lemma {:induction false} LeastOf(n: nat, s: set<Edge>, x: nat) returns (r: nat)
    requires x < n
    ensures r in Least(n, s) && r <= x && Connected(s, r, x)
  {
    if y: nat :| y < x && Connected(s, y, x) {
      r := LeastOf(n, s, y);
      Transitive(s, r, y, x);
    } else {
      r := x;
      Reflexive(s, x);
    }
  }

  lemma LeastUnique(n: nat, s: set<Edge>, a: nat, b: nat)
    requires a in Least(n, s) && b in Least(n, s) && Connected(s, a, b)
    ensures a == b
  {
    Symmetric(s, a, b);
  }

  lemma MoreEdgesFewerComponents(n: nat, s: set<Edge>, t: set<Edge>)
    requires s <= t
    ensures Components(n, t) <= Components(n, s)
  {
    forall x: nat | x in Least(n, t)
      ensures x in Least(n, s)
    {
      forall y: nat | y < x
        ensures !Connected(s, y, x)
      {
        if Connected(s, y, x) {
          Monotone(s, t, y, x);
        }
      }
    }
    SubsetSize(Least(n, t), Least(n, s));
  }

  lemma {:induction false} NoEdges(n: nat)
    ensures Components(n, {}) == n
  {
    forall x: nat | x < n
      ensures x in Least(n, {})
    {
      forall y: nat | Connected({}, y, x)
        ensures y == x
      {
        var p :| Joins({}, p, y, x);
        assert |p| > 1 ==> Adjacent({}, p[0], p[0 + 1]);
      }
    }
    assert Least(n, {}) == NodesBelow(n);
  }

  /** An edge that joins two components leaves exactly one component fewer. */
  lemma JoinTwoComponents(n: nat, s: set<Edge>, e: Edge)
    requires e.u < n && e.v < n && !Connected(s, e.u, e.v)
    ensures Components(n, s + {e}) == Components(n, s) - 1
  {
    var a := LeastOf(n, s, e.u);
    var b := LeastOf(n, s, e.v);
    if a == b {
      Symmetric(s, a, e.u);
      Transitive(s, e.u, a, e.v);
    }
    if a < b {
      DropLarger(n, s, e, a, b);
    } else {
      var f := e.(u := e.v, v := e.u);
      if Connected(s, f.u, f.v) {
        Symmetric(s, f.u, f.v);
      }
      DropLarger(n, s, f, b, a);
      Flip(n, s, e);
    }
  }

  lemma Flip(n: nat, s: set<Edge>, e: Edge)
    ensures Least(n, s + {e}) == Least(n, s + {e.(u := e.v, v := e.u)})
  {
    var f := e.(u := e.v, v := e.u);
    forall x: nat, y: nat
      ensures Connected(s + {e}, x, y) <==> Connected(s + {f}, x, y)
    {
      OneMoreEdge(s, e, x, y);
      OneMoreEdge(s, f, x, y);
    }
  }

  lemma DropLarger(n: nat, s: set<Edge>, e: Edge, a: nat, b: nat)
    requires e.u < n && e.v < n && !Connected(s, e.u, e.v) && a < b
    requires a in Least(n, s) && Connected(s, a, e.u)
    requires b in Least(n, s) && Connected(s, b, e.v)
    ensures Components(n, s + {e}) == Components(n, s) - 1
  {
    var t := s + {e};
    forall x: nat
      ensures x in Least(n, t) <==> x in Least(n, s) - {b}
    {
      if x in Least(n, s) - {b} {
        StaysLeast(n, s, e, a, b, x);
      }
      if x in Least(n, t) {
        forall y: nat | y < x
          ensures !Connected(s, y, x)
        {
          if Connected(s, y, x) {
            Monotone(s, t, y, x);
          }
        }
        if x == b {
          Symmetric(s, b, e.v);
          OneMoreEdge(s, e, a, b);
        }
      }
    }
    assert Least(n, t) == Least(n, s) - {b};
  }

  lemma StaysLeast(n: nat, s: set<Edge>, e: Edge, a: nat, b: nat, x: nat)
    requires a < b && a in Least(n, s) && Connected(s, a, e.u)
    requires b in Least(n, s) && Connected(s, b, e.v)
    requires x in Least(n, s) && x != b
    ensures x in Least(n, s + {e})
  {
    forall y: nat | y < x
      ensures !Connected(s + {e}, y, x)
    {
      OneMoreEdge(s, e, y, x);
      if Connected(s, e.v, x) {
        Transitive(s, b, e.v, x);
        LeastUnique(n, s, b, x);
      }
      if Connected(s, e.u, x) {
        Transitive(s, a, e.u, x);
        LeastUnique(n, s, a, x);
        if Connected(s, y, e.v) {
          Symmetric(s, b, e.v);
          Transitive(s, y, e.v, b);
        }
      }
    }
  }

  /** A forest has exactly as many edges as the components it has merged. */
  lemma {:induction false} ForestSize(n: nat, f: set<Edge>)
    requires Inside(n, f) && Acyclic(f)
    ensures |f| == n - Components(n, f)
    decreases |f|
  {
    if f == {} {
      NoEdges(n);
    } else {
      var e :| e in f;
      AcyclicSubset(f - {e}, f);
      ForestSize(n, f - {e});
      JoinTwoComponents(n, f - {e}, e);
      assert f - {e} + {e} == f;
    }
  }

  lemma SameConnectivitySameComponents(n: nat, s: set<Edge>, t: set<Edge>)
    requires SameConnectivity(n, s, t)
    ensures Components(n, s) == Components(n, t)
  {
    assert Least(n, s) == Least(n, t);
  }

  /** With a single component every two nodes are connected. */
  lemma OneComponent(n: nat, s: set<Edge>, x: nat, y: nat)
    requires x < n && y < n && Components(n, s) <= 1
    ensures Connected(s, x, y)
  {
    var a := LeastOf(n, s, x);
    var b := LeastOf(n, s, y);
    if a != b {
      SubsetSize({a, b}, Least(n, s));
    }
    Symmetric(s, a, x);
    Transitive(s, x, a, y);
  }
}
