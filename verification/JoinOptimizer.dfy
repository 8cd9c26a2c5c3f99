/** The join optimizer: an all-pairs join graph, its minimum spanning tree, and the table
    order rebuilt from the tree's edges. */
module JoinOptimizer {
  import opened Sequences
  import opened Graphs
  import opened Kruskal
  import opened JoinGraphs

  const MAX_JOIN_TABLES_OPT := 8

  /** What the catalog and the disk know about a table. */
  datatype TableStats = TableStats(pageCount: nat, recordsPerPage: nat)

  datatype JoinPlan = JoinPlan(orderedTables: seq<string>, mstEdges: seq<Edge>)

  function RowCount(catalog: map<string, TableStats>, name: string): nat {
    if name in catalog then catalog[name].pageCount * catalog[name].recordsPerPage else 0
  }

  // ---------- the all-pairs graph ----------

  /** Tables and their row counts, in query order. */
  ghost predicate Tables(names: seq<string>, rows: seq<int>) {
    && |names| == |rows|
    && forall i :: 0 <= i < |names| ==> |names[i]| <= 63
  }

  function PairEdge(names: seq<string>, rows: seq<int>, i: nat, j: nat): Edge
    requires |names| == |rows| && i < |names| && j < |names|
  {
    JoinEdge(names, rows, names[i], names[j])
  }

  ghost function RowEdges(names: seq<string>, rows: seq<int>, i: nat, j: nat): (es: seq<Edge>)
    requires |names| == |rows| && i < j <= |names|
    ensures |es| == j - i - 1
  {
    if j == i + 1 then [] else RowEdges(names, rows, i, j - 1) + [PairEdge(names, rows, i, j - 1)]
  }

  /** The edges from the first i tables to the tables after them, in the order they are added. */
  ghost function PairEdges(names: seq<string>, rows: seq<int>, i: nat): (es: seq<Edge>)
    requires |names| == |rows| && i <= |names|
  {
    if i == 0 then [] else PairEdges(names, rows, i - 1) + RowEdges(names, rows, i - 1, |names|)
  }

  ghost function AllEdges(names: seq<string>, rows: seq<int>): seq<Edge>
    requires |names| == |rows|
  {
    PairEdges(names, rows, |names|)
  }

  lemma {:induction false} PairEdgesFit(names: seq<string>, rows: seq<int>, i: nat)
    requires |names| == |rows| && i <= |names| <= MAX_JOIN_TABLES_OPT + 1
    ensures |PairEdges(names, rows, i)| <= i * MAX_JOIN_TABLES_OPT
  {
    if i > 0 {
      PairEdgesFit(names, rows, i - 1);
    }
  }

  // ---------- the rebuilt order ----------

  function SecondTables(es: seq<Edge>): (names: seq<string>)
    ensures |names| == |es| && forall i :: 0 <= i < |es| ==> names[i] == es[i].tableV
  {
    if es == [] then [] else SecondTables(es[..|es| - 1]) + [es[|es| - 1].tableV]
  }

  function Rebuilt(names: seq<string>, mst: seq<Edge>): seq<string> {
    if mst == [] then names else [mst[0].tableU] + SecondTables(mst)
  }

  ghost predicate ListsEveryTableOnce(order: seq<string>, names: seq<string>) {
    multiset(order) == multiset(names)
  }

  ghost predicate AllSame(names: seq<string>) {
    forall i :: 0 <= i < |names| ==> names[i] == names[0]
  }

  /** A table of least row count comes first or second. */
  ghost predicate SmallTableLeads(rows: seq<int>) {
    exists i :: 0 <= i < |rows| && i <= 1 && Smallest(rows, i)
  }

  ghost predicate Smallest(rows: seq<int>, i: nat) {
    i < |rows| && forall k :: 0 <= k < |rows| ==> rows[i] <= rows[k]
  }

  // ---------- facts about edge lists ----------

  ghost predicate Before(a: Edge, b: Edge) {
    a.u < b.u || (a.u == b.u && a.v < b.v)
  }

  /** In the order the pairs were enumerated. */
  ghost predicate Enumerated(es: seq<Edge>) {
    forall i, j :: 0 <= i < j < |es| ==> Before(es[i], es[j])
  }

  lemma {:induction false} RowEdgeIn(names: seq<string>, rows: seq<int>, i: nat, j: nat, k: nat)
    requires |names| == |rows| && i < k < j <= |names|
    ensures PairEdge(names, rows, i, k) in RowEdges(names, rows, i, j)
  {
    if k < j - 1 {
      RowEdgeIn(names, rows, i, j - 1, k);
    }
  }

  lemma {:induction false} PairEdgeIn(names: seq<string>, rows: seq<int>, i: nat, a: nat, k: nat)
    requires |names| == |rows| && a < i <= |names| && a < k < |names|
    ensures PairEdge(names, rows, a, k) in PairEdges(names, rows, i)
  {
    if a < i - 1 {
      PairEdgeIn(names, rows, i - 1, a, k);
    } else {
      RowEdgeIn(names, rows, a, |names|, k);
    }
  }

  lemma {:induction false} RowEdgeOf(names: seq<string>, rows: seq<int>, i: nat, j: nat, e: Edge) returns (k: nat)
    requires |names| == |rows| && i < j <= |names| && e in RowEdges(names, rows, i, j)
    ensures i < k < j && e == PairEdge(names, rows, i, k)
  {
    if e in RowEdges(names, rows, i, j - 1) {
      k := RowEdgeOf(names, rows, i, j - 1, e);
    } else {
      k := j - 1;
    }
  }

  lemma {:induction false} PairEdgeOf(names: seq<string>, rows: seq<int>, i: nat, e: Edge) returns (a: nat, k: nat)
    requires |names| == |rows| && i <= |names| && e in PairEdges(names, rows, i)
    ensures a < i && a < k < |names| && e == PairEdge(names, rows, a, k)
  {
    if e in PairEdges(names, rows, i - 1) {
      a, k := PairEdgeOf(names, rows, i - 1, e);
    } else {
      a := i - 1;
      k := RowEdgeOf(names, rows, a, |names|, e);
    }
  }

  lemma AllEdgesInside(names: seq<string>, rows: seq<int>)
    requires |names| == |rows|
    ensures Inside(|names|, EdgesOf(AllEdges(names, rows)))
  {
    forall e | e in EdgesOf(AllEdges(names, rows))
      ensures e.u < |names| && e.v < |names|
    {
      var a, k := PairEdgeOf(names, rows, |names|, e);
    }
  }

  lemma PairEdgeOfDistinct(names: seq<string>, rows: seq<int>, i: nat, j: nat)
    requires Tables(names, rows) && NoDuplicates(names) && i < |names| && j < |names|
    ensures PairEdge(names, rows, i, j)
         == Edge(i, j, if rows[i] < rows[j] then rows[i] else rows[j], names[i], names[j])
  {
    FirstOfDistinct(names, i);
    FirstOfDistinct(names, j);
  }

  lemma FirstOfDistinct(names: seq<string>, i: nat)
    requires NoDuplicates(names) && i < |names|
    ensures FirstIndex(names, names[i]) == i
  {
  }

  lemma {:induction false} RowEdgesEnumerated(names: seq<string>, rows: seq<int>, i: nat, j: nat)
    requires Tables(names, rows) && NoDuplicates(names) && i < j <= |names|
    ensures Enumerated(RowEdges(names, rows, i, j))
    ensures forall e :: e in RowEdges(names, rows, i, j) ==> e.u == i && i < e.v < j
  {
    hide NoDuplicates, Tables, PairEdge;
    if j > i + 1 {
      RowEdgesEnumerated(names, rows, i, j - 1);
      PairEdgeOfDistinct(names, rows, i, j - 1);
    }
  }

  lemma {:induction false} PairEdgesEnumerated(names: seq<string>, rows: seq<int>, i: nat)
    requires Tables(names, rows) && NoDuplicates(names) && i <= |names|
    ensures Enumerated(PairEdges(names, rows, i))
    ensures forall e :: e in PairEdges(names, rows, i) ==> e.u < i && e.u < e.v < |names|
  {
    hide NoDuplicates, Tables, RowEdges;
    if i > 0 {
      PairEdgesEnumerated(names, rows, i - 1);
      RowEdgesEnumerated(names, rows, i - 1, |names|);
    }
  }

  lemma {:induction false} InOfWeight(es: seq<Edge>, w: int, e: Edge)
    ensures e in OfWeight(es, w) <==> e in es && e.weight == w
  {
    if es != [] {
      InOfWeight(es[1..], w, e);
    }
  }

  lemma {:induction false} OfWeightEnumerated(es: seq<Edge>, w: int)
    requires Enumerated(es)
    ensures Enumerated(OfWeight(es, w))
  {
    if es != [] {
      OfWeightEnumerated(es[1..], w);
      forall e | e in OfWeight(es[1..], w)
        ensures Before(es[0], e)
      {
        InOfWeight(es[1..], w, e);
      }
    }
  }

  lemma {:induction false} GreedyEnumerated(es: seq<Edge>)
    requires Enumerated(es)
    ensures Enumerated(Greedy(es))
  {
    if es != [] {
      var k := |es| - 1;
      GreedyEnumerated(es[..k]);
      forall e | e in Greedy(es[..k])
        ensures Before(e, es[k])
      {
        var i :| 0 <= i < k && es[..k][i] == e;
      }
    }
  }

  /** In a sorted list the cheapest edges come first. */
  lemma {:induction false} CheapestFirst(es: seq<Edge>, w: int)
    requires Sorted(es) && NoneBelow(es, w)
    ensures OfWeight(es, w) <= es
  {
    if es != [] {
      CheapestFirst(es[1..], w);
      if es[0].weight != w {
        NoneOfWeight(es, w);
      } else {
        assert es == [es[0]] + es[1..];
      }
    }
  }

  /** A kept edge had its ends in different components of the edges before it. */
  lemma {:induction false} KeptAt(es: seq<Edge>, e: Edge) returns (t: nat)
    requires e in Greedy(es)
    ensures t < |es| && es[t] == e && !Connected(EdgesOf(es[..t]), e.u, e.v)
  {
    var k := |es| - 1;
    if e in Greedy(es[..k]) {
      t := KeptAt(es[..k], e);
      assert es[..k][..t] == es[..t];
    } else {
      t := k;
    }
  }

  lemma {:induction false} KeepsAt(es: seq<Edge>, t: nat)
    requires t < |es| && !Connected(EdgesOf(es[..t]), es[t].u, es[t].v)
    ensures es[t] in Greedy(es)
  {
    var k := |es| - 1;
    if t < k {
      assert es[..k][..t] == es[..t];
      KeepsAt(es[..k], t);
    }
  }

  lemma Isolated(s: set<Edge>, x: nat, y: nat)
    requires forall e :: e in s ==> e.u != x && e.v != x
    ensures Connected(s, x, y) ==> x == y
  {
    forall p | Joins(s, p, x, y)
      ensures x == y
    {
      assert |p| > 1 ==> Adjacent(s, p[0], p[0 + 1]);
    }
  }

  // ---------- distinct tables: every kept edge is a cheapest one ----------

  /** The cheapest edges of the all-pairs graph, in the order they were added. */
  ghost function Cheapest(names: seq<string>, rows: seq<int>, m: nat): seq<Edge>
    requires |names| == |rows| && m < |rows|
  {
    OfWeight(AllEdges(names, rows), rows[m])
  }

  ghost predicate Query(names: seq<string>, rows: seq<int>, m: nat) {
    Tables(names, rows) && NoDuplicates(names) && |names| >= 2 && Smallest(rows, m)
  }

  /** The pair (i, j) is among the cheapest edges exactly when one of the two tables is smallest. */
  lemma InCheapest(names: seq<string>, rows: seq<int>, m: nat, i: nat, j: nat)
    requires Query(names, rows, m) && i < j < |names|
    ensures PairEdge(names, rows, i, j) in Cheapest(names, rows, m)
       <==> rows[i] == rows[m] || rows[j] == rows[m]
  {
    PairEdgeIn(names, rows, |names|, i, j);
    PairEdgeOfDistinct(names, rows, i, j);
    InOfWeight(AllEdges(names, rows), rows[m], PairEdge(names, rows, i, j));
  }

  lemma CheapestIs(names: seq<string>, rows: seq<int>, m: nat, e: Edge)
    requires Query(names, rows, m) && e in Cheapest(names, rows, m)
    ensures e.u < e.v < |names| && e == PairEdge(names, rows, e.u, e.v) && e.weight == rows[m]
    ensures e.tableU == names[e.u] && e.tableV == names[e.v]
    ensures rows[e.u] == rows[m] || rows[e.v] == rows[m]
  {
    InOfWeight(AllEdges(names, rows), rows[m], e);
    var i, j := PairEdgeOf(names, rows, |names|, e);
    PairEdgeOfDistinct(names, rows, i, j);
  }

  lemma CheapestInOrder(names: seq<string>, rows: seq<int>, m: nat)
    requires Query(names, rows, m)
    ensures Enumerated(Cheapest(names, rows, m))
  {
    PairEdgesEnumerated(names, rows, |names|);
    OfWeightEnumerated(AllEdges(names, rows), rows[m]);
  }

  lemma NothingCheaper(names: seq<string>, rows: seq<int>, m: nat)
    requires Query(names, rows, m)
    ensures NoneBelow(AllEdges(names, rows), rows[m])
  {
    forall e | e in AllEdges(names, rows)
      ensures rows[m] <= e.weight
    {
      var i, j := PairEdgeOf(names, rows, |names|, e);
      PairEdgeOfDistinct(names, rows, i, j);
    }
  }

  /** The pair {x, y} in enumeration order. */
  ghost function Ordered(names: seq<string>, rows: seq<int>, x: nat, y: nat): Edge
    requires |names| == |rows| && x < |names| && y < |names|
  {
    if x < y then PairEdge(names, rows, x, y) else PairEdge(names, rows, y, x)
  }

  lemma OrderedConnects(names: seq<string>, rows: seq<int>, s: set<Edge>, x: nat, y: nat)
    requires Tables(names, rows) && NoDuplicates(names) && x < |names| && y < |names| && x != y
    requires Ordered(names, rows, x, y) in s
    ensures Connected(s, x, y)
  {
    PairEdgeOfDistinct(names, rows, x, y);
    PairEdgeOfDistinct(names, rows, y, x);
    EdgeConnects(s, Ordered(names, rows, x, y));
  }

  /** The edges at a smallest table already connect everything. */
  lemma CheapestConnect(names: seq<string>, rows: seq<int>, m: nat, x: nat, y: nat)
    requires Query(names, rows, m) && x < |names| && y < |names|
    ensures Connected(EdgesOf(Cheapest(names, rows, m)), x, y)
  {
    var s := EdgesOf(Cheapest(names, rows, m));
    Spoke(names, rows, m, x);
    Spoke(names, rows, m, y);
    Symmetric(s, m, x);
    Transitive(s, x, m, y);
  }

  lemma Spoke(names: seq<string>, rows: seq<int>, m: nat, x: nat)
    requires Query(names, rows, m) && x < |names|
    ensures Connected(EdgesOf(Cheapest(names, rows, m)), m, x)
  {
    var s := EdgesOf(Cheapest(names, rows, m));
    if x == m {
      Reflexive(s, x);
    } else {
      InCheapest(names, rows, m, if x < m then x else m, if x < m then m else x);
      OrderedConnects(names, rows, s, m, x);
    }
  }

  lemma CheapestInside(names: seq<string>, rows: seq<int>, m: nat)
    requires Query(names, rows, m)
    ensures Inside(|names|, EdgesOf(Cheapest(names, rows, m)))
  {
    forall e | e in EdgesOf(Cheapest(names, rows, m))
      ensures e.u < |names| && e.v < |names|
    {
      CheapestIs(names, rows, m, e);
    }
  }

  lemma OneComponentOnly(n: nat, s: set<Edge>)
    requires n >= 1 && forall x: nat, y: nat :: x < n && y < n ==> Connected(s, x, y)
    ensures Components(n, s) == 1
  {
    var r := LeastOf(n, s, 0);
    forall x | x in Least(n, s)
      ensures x == r
    {
      LeastUnique(n, s, x, r);
    }
    assert Least(n, s) == {r};
  }

  /** Kruskal keeps only cheapest edges: exactly those it would keep from the cheapest alone. */
  lemma KeptAreCheapest(names: seq<string>, rows: seq<int>, m: nat, sorted: seq<Edge>)
    requires Query(names, rows, m)
    requires Sorted(sorted) && Rearranged(AllEdges(names, rows), sorted)
    ensures Greedy(sorted) == Greedy(Cheapest(names, rows, m))
    ensures |Greedy(sorted)| == |names| - 1
  {
    var n, cheap := |names|, Cheapest(names, rows, m);
    NothingCheaper(names, rows, m);
    assert OfWeight(sorted, rows[m]) == cheap;
    SameEdgeSet(AllEdges(names, rows), sorted);
    AllEdgesInside(names, rows);
    assert NoneBelow(sorted, rows[m]) by {
      forall i | 0 <= i < |sorted|
        ensures rows[m] <= sorted[i].weight
      {
        assert sorted[i] in EdgesOf(sorted);
        assert sorted[i] in AllEdges(names, rows);
      }
    }
    CheapestFirst(sorted, rows[m]);
    CheapestSpan(names, rows, m);
    assert sorted[..|cheap|] == cheap;
    RestIsRedundant(n, sorted, |cheap|);
  }

  lemma CheapestSpan(names: seq<string>, rows: seq<int>, m: nat)
    requires Query(names, rows, m)
    ensures |Greedy(Cheapest(names, rows, m))| == |names| - 1
  {
    var n, cheap := |names|, Cheapest(names, rows, m);
    forall x: nat, y: nat | x < n && y < n
      ensures Connected(EdgesOf(cheap), x, y)
    {
      CheapestConnect(names, rows, m, x, y);
    }
    OneComponentOnly(n, EdgesOf(cheap));
    CheapestInside(names, rows, m);
    GreedyIsSpanningForest(n, cheap);
  }

  lemma {:induction false} ConstantWeight(es: seq<Edge>, w: int)
    requires forall e :: e in es ==> e.weight == w
    ensures TotalWeight(es) == |es| * w
  {
    if es != [] {
      ConstantWeight(es[..|es| - 1], w);
      assert |es| * w == (|es| - 1) * w + w;
    }
  }

  /** The plan costs the least row count once for every table but one. */
  lemma PlanCost(names: seq<string>, rows: seq<int>, m: nat, sorted: seq<Edge>)
    requires Query(names, rows, m)
    requires Sorted(sorted) && Rearranged(AllEdges(names, rows), sorted)
    ensures TotalWeight(Greedy(sorted)) == (|names| - 1) * rows[m]
  {
    KeptAreCheapest(names, rows, m, sorted);
    forall e | e in Greedy(Cheapest(names, rows, m))
      ensures e.weight == rows[m]
    {
      CheapestIs(names, rows, m, e);
    }
    ConstantWeight(Greedy(sorted), rows[m]);
  }

  // ---------- distinct tables: when the rebuilt order is a permutation ----------

  /** All cheapest edges enumerated before a kept one are also scanned before it. */
  lemma ScannedBefore(names: seq<string>, rows: seq<int>, m: nat, e: Edge) returns (earlier: set<Edge>)
    requires Query(names, rows, m) && e in Greedy(Cheapest(names, rows, m))
    ensures !Connected(earlier, e.u, e.v)
    ensures forall f :: f in Cheapest(names, rows, m) && Before(f, e) ==> f in earlier
  {
    var cheap := Cheapest(names, rows, m);
    var t := KeptAt(cheap, e);
    CheapestInOrder(names, rows, m);
    earlier := EdgesOf(cheap[..t]);
    forall f | f in cheap && Before(f, e)
      ensures f in earlier
    {
      var i :| 0 <= i < |cheap| && cheap[i] == f;
      assert i < t;
      assert cheap[..t][i] == f;
    }
  }

  /** When a smallest table comes first or second, no table is the second end of two kept edges. */
  lemma NoSecondTwice(names: seq<string>, rows: seq<int>, m: nat, e: Edge, f: Edge)
    requires Query(names, rows, m) && m <= 1 && (m == 1 ==> rows[0] != rows[1])
    requires e in Greedy(Cheapest(names, rows, m)) && f in Greedy(Cheapest(names, rows, m))
    requires Before(e, f)
    ensures e.v != f.v
  {
    CheapestIs(names, rows, m, e);
    CheapestIs(names, rows, m, f);
    if e.v == f.v {
      var earlier := ScannedBefore(names, rows, m, f);
      if m == f.u {
        // the hub is f.u == 1 and e is the pair (0, f.v)
        InCheapest(names, rows, m, 0, 1);
        BypassVia(names, rows, m, earlier, f, 0);
      } else {
        InCheapest(names, rows, m, m, f.u);
        InCheapest(names, rows, m, m, f.v);
        BypassVia(names, rows, m, earlier, f, m);
      }
    }
  }

  lemma BypassVia(names: seq<string>, rows: seq<int>, m: nat, earlier: set<Edge>, f: Edge, hub: nat)
    requires Query(names, rows, m) && hub < f.u < f.v < |names|
    requires PairEdge(names, rows, hub, f.u) in Cheapest(names, rows, m)
    requires PairEdge(names, rows, hub, f.v) in Cheapest(names, rows, m)
    requires forall e :: e in Cheapest(names, rows, m) && Before(e, f) ==> e in earlier
    ensures Connected(earlier, f.u, f.v)
  {
    PairEdgeOfDistinct(names, rows, hub, f.u);
    PairEdgeOfDistinct(names, rows, hub, f.v);
    OrderedConnects(names, rows, earlier, hub, f.u);
    OrderedConnects(names, rows, earlier, hub, f.v);
    Symmetric(earlier, hub, f.u);
    Transitive(earlier, f.u, hub, f.v);
  }

  /** Distinct names drawn from a list of distinct names of the same length are all of them. */
  lemma DistinctSameLength(order: seq<string>, names: seq<string>)
    requires NoDuplicates(order) && NoDuplicates(names) && |order| == |names|
    requires forall x :: x in order ==> x in names
    ensures ListsEveryTableOnce(order, names)
  {
    DistinctCount(order);
    DistinctCount(names);
    SubsetSize(set x | x in order, set x | x in names);
  }

  /** A list in enumeration order that holds the pair (0, 1) starts with it. */
  lemma StartsWithFirstPair(names: seq<string>, rows: seq<int>, m: nat, es: seq<Edge>)
    requires Query(names, rows, m) && Enumerated(es)
    requires forall e :: e in es ==> e in Cheapest(names, rows, m)
    requires PairEdge(names, rows, 0, 1) in es
    ensures es[0] == PairEdge(names, rows, 0, 1)
  {
    var first := PairEdge(names, rows, 0, 1);
    PairEdgeOfDistinct(names, rows, 0, 1);
    var t :| 0 <= t < |es| && es[t] == first;
    assert es[0] in es;
    CheapestIs(names, rows, m, es[0]);
    assert t > 0 ==> Before(es[0], es[t]);
  }

  /** With a smallest table in front, the first kept edge starts at table 0. */
  lemma StartsAtFirst(names: seq<string>, rows: seq<int>, m: nat)
    requires Query(names, rows, m) && m <= 1
    ensures var kept := Greedy(Cheapest(names, rows, m)); |kept| > 0 && kept[0].u == 0
  {
    var cheap := Cheapest(names, rows, m);
    InCheapest(names, rows, m, 0, 1);
    PairEdgeOfDistinct(names, rows, 0, 1);
    CheapestInOrder(names, rows, m);
    StartsWithFirstPair(names, rows, m, cheap);
    assert EdgesOf(cheap[..0]) == {};
    Isolated({}, 0, 1);
    KeepsAt(cheap, 0);
    GreedyEnumerated(cheap);
    StartsWithFirstPair(names, rows, m, Greedy(cheap));
  }

  /** Which table stands at position i of the rebuilt order. */
  ghost function TableAt(kept: seq<Edge>, i: nat): nat
    requires i <= |kept|
  {
    if i == 0 then 0 else kept[i - 1].v
  }

  lemma OrderLists(names: seq<string>, rows: seq<int>, m: nat, kept: seq<Edge>, i: nat)
    requires Query(names, rows, m) && i <= |kept| && kept != [] && kept[0].u == 0
    requires forall e :: e in kept ==> e in Cheapest(names, rows, m)
    ensures |Rebuilt(names, kept)| == |kept| + 1
    ensures TableAt(kept, i) < |names| && (i > 0 ==> TableAt(kept, i) > 0)
    ensures Rebuilt(names, kept)[i] == names[TableAt(kept, i)]
  {
    var e := if i == 0 then kept[0] else kept[i - 1];
    assert e in kept;
    CheapestIs(names, rows, m, e);
  }

  lemma LeadingTableSuffices(names: seq<string>, rows: seq<int>, m: nat)
    requires Query(names, rows, m) && m <= 1 && (m == 1 ==> rows[0] != rows[1])
    ensures ListsEveryTableOnce(Rebuilt(names, Greedy(Cheapest(names, rows, m))), names)
  {
    var kept := Greedy(Cheapest(names, rows, m));
    var order := Rebuilt(names, kept);
    StartsAtFirst(names, rows, m);
    CheapestSpan(names, rows, m);
    OrderLists(names, rows, m, kept, 0);
    forall i | 0 <= i < |order|
      ensures order[i] in names
    {
      OrderLists(names, rows, m, kept, i);
    }
    forall i, j | 0 <= i < j < |order|
      ensures order[i] != order[j]
    {
      OrderLists(names, rows, m, kept, i);
      OrderLists(names, rows, m, kept, j);
      DifferentTables(names, rows, m, i, j);
    }
    DistinctSameLength(order, names);
  }

  lemma DifferentTables(names: seq<string>, rows: seq<int>, m: nat, i: nat, j: nat)
    requires Query(names, rows, m) && m <= 1 && (m == 1 ==> rows[0] != rows[1])
    requires i < j <= |Greedy(Cheapest(names, rows, m))|
    ensures var kept := Greedy(Cheapest(names, rows, m)); TableAt(kept, i) != TableAt(kept, j)
  {
    var kept := Greedy(Cheapest(names, rows, m));
    if i == 0 {
      CheapestIs(names, rows, m, kept[j - 1]);
    } else {
      CheapestInOrder(names, rows, m);
      GreedyEnumerated(Cheapest(names, rows, m));
      assert Before(kept[i - 1], kept[j - 1]);
      NoSecondTwice(names, rows, m, kept[i - 1], kept[j - 1]);
    }
  }

  /** Neither of the first two tables is smallest, and k is the first smallest one: both are
      then joined to k, so k is listed twice. */
  lemma LateTableRepeats(names: seq<string>, rows: seq<int>, k: nat)
    requires Query(names, rows, k) && k >= 2 && forall i :: 0 <= i < k ==> rows[i] != rows[k]
    ensures PairEdge(names, rows, 0, k) in Greedy(Cheapest(names, rows, k))
    ensures PairEdge(names, rows, 1, k) in Greedy(Cheapest(names, rows, k))
  {
    JoinedToLate(names, rows, k, 0);
    JoinedToLate(names, rows, k, 1);
  }

  lemma JoinedToLate(names: seq<string>, rows: seq<int>, k: nat, a: nat)
    requires Query(names, rows, k) && k >= 2 && forall i :: 0 <= i < k ==> rows[i] != rows[k]
    requires a <= 1
    ensures PairEdge(names, rows, a, k) in Greedy(Cheapest(names, rows, k))
  {
    var cheap, e := Cheapest(names, rows, k), PairEdge(names, rows, a, k);
    InCheapest(names, rows, k, a, k);
    PairEdgeOfDistinct(names, rows, a, k);
    CheapestInOrder(names, rows, k);
    var t :| 0 <= t < |cheap| && cheap[t] == e;
    forall f | f in EdgesOf(cheap[..t])
      ensures f.u != a && f.v != a
    {
      var i :| 0 <= i < t && cheap[..t][i] == f;
      CheapestIs(names, rows, k, f);
      assert Before(cheap[i], cheap[t]);
    }
    Isolated(EdgesOf(cheap[..t]), a, k);
    KeepsAt(cheap, t);
  }

  lemma TwiceInOrder(names: seq<string>, rows: seq<int>, k: nat)
    requires Query(names, rows, k) && k >= 2 && forall i :: 0 <= i < k ==> rows[i] != rows[k]
    ensures !ListsEveryTableOnce(Rebuilt(names, Greedy(Cheapest(names, rows, k))), names)
  {
    var kept := Greedy(Cheapest(names, rows, k));
    LateTableRepeats(names, rows, k);
    PairEdgeOfDistinct(names, rows, 0, k);
    PairEdgeOfDistinct(names, rows, 1, k);
    ListedTwice(names, kept, PairEdge(names, rows, 0, k), PairEdge(names, rows, 1, k));
    DistinctCount(names);
  }

  lemma RebuiltAt(names: seq<string>, kept: seq<Edge>, i: nat)
    requires i < |kept|
    ensures i + 1 < |Rebuilt(names, kept)| && Rebuilt(names, kept)[i + 1] == kept[i].tableV
  {
  }

  lemma ListedTwice(names: seq<string>, kept: seq<Edge>, e: Edge, f: Edge)
    requires e in kept && f in kept && e != f && e.tableV == f.tableV
    ensures multiset(Rebuilt(names, kept))[e.tableV] >= 2
  {
    hide Rebuilt;
    var i :| 0 <= i < |kept| && kept[i] == e;
    var j :| 0 <= j < |kept| && kept[j] == f;
    RebuiltAt(names, kept, i);
    RebuiltAt(names, kept, j);
    RepeatedCount(Rebuilt(names, kept), i + 1, j + 1);
  }

  lemma RepeatedCount<T>(s: seq<T>, i: nat, j: nat)
    requires i < |s| && j < |s| && i != j && s[i] == s[j]
    ensures multiset(s)[s[i]] >= 2
  {
    var a, b := if i < j then i else j, if i < j then j else i;
    assert s == s[..a] + [s[a]] + s[a + 1..b] + [s[b]] + s[b + 1..];
  }

  /** For distinct tables the rebuilt order is a permutation exactly when a smallest table
      comes first or second. */
  lemma DistinctPlanOrder(names: seq<string>, rows: seq<int>, sorted: seq<Edge>)
    requires Tables(names, rows) && NoDuplicates(names) && |names| >= 2
    requires Sorted(sorted) && Rearranged(AllEdges(names, rows), sorted)
    ensures ListsEveryTableOnce(Rebuilt(names, Greedy(sorted)), names) <==> SmallTableLeads(rows)
  {
    var k := FirstSmallest(rows);
    KeptAreCheapest(names, rows, k, sorted);
    if k <= 1 {
      LeadingTableSuffices(names, rows, k);
    } else {
      TwiceInOrder(names, rows, k);
    }
  }

  lemma {:induction false} FirstSmallest(rows: seq<int>) returns (k: nat)
    requires rows != []
    ensures Smallest(rows, k) && forall i :: 0 <= i < k ==> rows[i] != rows[k]
  {
    var n := |rows| - 1;
    if n == 0 {
      k := 0;
    } else {
      k := FirstSmallest(rows[..n]);
      assert forall i :: 0 <= i < n ==> rows[..n][i] == rows[i];
      if rows[n] < rows[k] {
        k := n;
      }
    }
  }

  // ---------- repeated tables ----------

  /** When every name is the same, each edge is a loop and none is kept. */
  lemma SameNamesKeepNothing(names: seq<string>, rows: seq<int>, sorted: seq<Edge>)
    requires Tables(names, rows) && names != [] && AllSame(names)
    requires multiset(sorted) == multiset(AllEdges(names, rows))
    ensures Greedy(sorted) == []
  {
    SameEdgeSet(sorted, AllEdges(names, rows));
    if Greedy(sorted) != [] {
      var e := Greedy(sorted)[0];
      var t := KeptAt(sorted, e);
      assert e in EdgesOf(AllEdges(names, rows));
      var a, k := PairEdgeOf(names, rows, |names|, e);
      Reflexive(EdgesOf(sorted[..t]), e.u);
    }
  }

  /** A later copy of a name is never an end of an edge, so the graph is not connected. */
  lemma CopyIsIsolated(names: seq<string>, rows: seq<int>, a: nat, b: nat)
    requires Tables(names, rows) && a < b < |names| && names[a] == names[b]
    ensures Components(|names|, EdgesOf(AllEdges(names, rows))) >= 2
  {
    var n, s := |names|, EdgesOf(AllEdges(names, rows));
    forall e | e in s
      ensures e.u != b && e.v != b
    {
      var i, j := PairEdgeOf(names, rows, n, e);
      NeverLaterCopy(names, names[i], a, b);
      NeverLaterCopy(names, names[j], a, b);
    }
    var r := LeastOf(n, s, b);
    forall y: nat
      ensures Connected(s, b, y) ==> b == y
    {
      Isolated(s, b, y);
    }
    Symmetric(s, r, b);
    var z := LeastOf(n, s, 0);
    SubsetSize({z, r}, Least(n, s));
  }

  lemma NeverLaterCopy(names: seq<string>, name: string, a: nat, b: nat)
    requires a < b < |names| && names[a] == names[b]
    ensures FirstIndex(names, name) != b
  {
    assert names[..b][a] == names[b];
  }

  /** Two tables of different names are joined by some kept edge. */
  lemma DifferentNamesKeepSomething(names: seq<string>, rows: seq<int>, sorted: seq<Edge>, i: nat)
    requires Tables(names, rows) && 0 < i < |names| && names[i] != names[0]
    requires multiset(sorted) == multiset(AllEdges(names, rows))
    ensures Greedy(sorted) != []
  {
    SameEdgeSet(sorted, AllEdges(names, rows));
    PairEdgeIn(names, rows, |names|, 0, i);
    var e := PairEdge(names, rows, 0, i);
    assert e in EdgesOf(sorted);
    EdgeConnects(EdgesOf(sorted), e);
    GreedySpans(sorted, e.u, e.v);
    if Greedy(sorted) == [] {
      Isolated(EdgesOf(Greedy(sorted)), e.u, e.v);
    }
  }

  lemma RepeatedPlanOrder(names: seq<string>, rows: seq<int>, sorted: seq<Edge>)
    requires Tables(names, rows) && names != [] && !NoDuplicates(names)
    requires multiset(sorted) == multiset(AllEdges(names, rows))
    ensures ListsEveryTableOnce(Rebuilt(names, Greedy(sorted)), names) <==> AllSame(names)
  {
    if AllSame(names) {
      SameNamesKeepNothing(names, rows, sorted);
    } else {
      var i :| 0 <= i < |names| && names[i] != names[0];
      DifferentNamesKeepSomething(names, rows, sorted, i);
      var a, b :| 0 <= a < b < |names| && names[a] == names[b];
      CopyIsIsolated(names, rows, a, b);
      SameEdgeSet(sorted, AllEdges(names, rows));
      AllEdgesInside(names, rows);
      GreedyIsSpanningForest(|names|, sorted);
      assert |multiset(Rebuilt(names, Greedy(sorted)))| < |multiset(names)|;
    }
  }

  /** When the rebuilt order lists every table of the query exactly once. */
  lemma PlanOrder(names: seq<string>, rows: seq<int>, sorted: seq<Edge>)
    requires Tables(names, rows) && names != []
    requires Sorted(sorted) && Rearranged(AllEdges(names, rows), sorted)
    ensures ListsEveryTableOnce(Rebuilt(names, Greedy(sorted)), names)
       <==> AllSame(names) || (NoDuplicates(names) && SmallTableLeads(rows))
  {
    if !NoDuplicates(names) {
      RepeatedPlanOrder(names, rows, sorted);
    } else if |names| == 1 {
      SameNamesKeepNothing(names, rows, sorted);
    } else {
      DistinctPlanOrder(names, rows, sorted);
      assert names[1] != names[0];
    }
  }

  // ---------- the optimizer ----------

  ghost function StoredNames(tables: seq<string>): (names: seq<string>)
    ensures |names| == |tables| && forall i :: 0 <= i < |tables| ==> names[i] == Stored(tables[i])
  {
    seq(|tables|, i requires 0 <= i < |tables| => Stored(tables[i]))
  }

  ghost function RowCounts(catalog: map<string, TableStats>, tables: seq<string>): (rows: seq<int>)
    ensures |rows| == |tables| && forall i :: 0 <= i < |tables| ==> rows[i] == RowCount(catalog, tables[i])
  {
    seq(|tables|, i requires 0 <= i < |tables| => RowCount(catalog, tables[i]))
  }

  /** Adds every table as a node, in query order. */
  method AddTables(graph: JoinGraph, tables: seq<string>, catalog: map<string, TableStats>)
    returns (ordered: seq<string>)
    requires graph.Valid() && graph.nodeCount == 0 && graph.edgeCount == 0
    requires |tables| <= MAX_JOIN_TABLES_OPT + 1
    modifies graph, graph.nodeNames, graph.rowCounts
    ensures graph.Valid() && graph.EdgeList() == []
    ensures ordered == graph.Names() == StoredNames(tables) && graph.Rows() == RowCounts(catalog, tables)
  {
    ordered := [];
    for i := 0 to |tables|
      invariant graph.Valid() && graph.nodeCount == i && graph.edgeCount == 0
      invariant ordered == graph.Names() == StoredNames(tables)[..i]
      invariant graph.Rows() == RowCounts(catalog, tables)[..i]
    {
      graph.AddTable(tables[i], RowCount(catalog, tables[i]));
      ordered := ordered + [Stored(tables[i])];
    }
  }

  ghost predicate Pending(graph: JoinGraph, ordered: seq<string>, rows: seq<int>, es: seq<Edge>)
    reads graph, graph.nodeNames, graph.rowCounts, graph.edges
  {
    && graph.Valid() && graph.Names() == ordered && graph.Rows() == rows && graph.EdgeList() == es
    && Tables(ordered, rows)
  }

  /** Adds the join of tables i and j after the edges es. */
  method AddPair(graph: JoinGraph, ordered: seq<string>, i: nat, j: nat, ghost rows: seq<int>, ghost es: seq<Edge>)
    requires i < j < |ordered| == |rows| && |es| < MAX_EDGES
    requires Pending(graph, ordered, rows, es)
    modifies graph, graph.edges
    ensures Pending(graph, ordered, rows, es + [PairEdge(ordered, rows, i, j)])
  {
    assert ordered[i] in ordered && ordered[j] in ordered;
    graph.AddJoin(ordered[i], ordered[j]);
  }

  lemma RowStart(es: seq<Edge>, names: seq<string>, rows: seq<int>, i: nat)
    requires |names| == |rows| && i < |names|
    ensures es + RowEdges(names, rows, i, i + 1) == es
  {
  }

  lemma RowStep(es: seq<Edge>, names: seq<string>, rows: seq<int>, i: nat, j: nat)
    requires |names| == |rows| && i < j < |names|
    ensures es + RowEdges(names, rows, i, j) + [PairEdge(names, rows, i, j)] == es + RowEdges(names, rows, i, j + 1)
  {
  }

  /** Adds the joins from table i to every later table. */
  method AddRow(graph: JoinGraph, ordered: seq<string>, i: nat, ghost rows: seq<int>)
    requires i < |ordered| == |rows| && |ordered| <= MAX_JOIN_TABLES_OPT + 1
    requires Pending(graph, ordered, rows, PairEdges(ordered, rows, i))
    modifies graph, graph.edges
    ensures Pending(graph, ordered, rows, PairEdges(ordered, rows, i + 1))
  {
    hide Pending, PairEdge;
    PairEdgesFit(ordered, rows, i);
    ghost var es := PairEdges(ordered, rows, i);
    ghost var done := es;
    RowStart(es, ordered, rows, i);
    for j := i + 1 to |ordered|
      invariant Pending(graph, ordered, rows, done) && done == es + RowEdges(ordered, rows, i, j)
    {
      AddPair(graph, ordered, i, j, rows, done);
      RowStep(es, ordered, rows, i, j);
      done := done + [PairEdge(ordered, rows, i, j)];
    }
  }

  /** Adds a join between every two tables. */
  method AddPairs(graph: JoinGraph, ordered: seq<string>, ghost rows: seq<int>)
    requires Pending(graph, ordered, rows, []) && |ordered| <= MAX_JOIN_TABLES_OPT + 1
    modifies graph, graph.edges
    ensures Pending(graph, ordered, rows, AllEdges(ordered, rows))
  {
    for i := 0 to |ordered|
      invariant Pending(graph, ordered, rows, PairEdges(ordered, rows, i))
    {
      AddRow(graph, ordered, i, rows);
    }
  }

  /** The first table of the first edge, then the second table of every edge. */
  method RebuildOrder(ordered: seq<string>, mstEdges: seq<Edge>) returns (order: seq<string>)
    ensures order == Rebuilt(ordered, mstEdges)
  {
    order := ordered;
    if |mstEdges| > 0 {
      order := [mstEdges[0].tableU];
      for i := 0 to |mstEdges|
        invariant order == [mstEdges[0].tableU] + SecondTables(mstEdges)[..i]
      {
        order := order + [mstEdges[i].tableV];
      }
    }
  }

  ghost predicate OrderTheorem(names: seq<string>, rows: seq<int>, order: seq<string>) {
    ListsEveryTableOnce(order, names) <==> AllSame(names) || (NoDuplicates(names) && SmallTableLeads(rows))
  }

  /** Distinct tables cost the least row count once for every table but one. */
  ghost predicate CostTheorem(names: seq<string>, rows: seq<int>, kept: seq<Edge>) {
    forall m: nat :: Query(names, rows, m) ==> TotalWeight(kept) == (|names| - 1) * rows[m]
  }

  lemma PlanCosts(names: seq<string>, rows: seq<int>, sorted: seq<Edge>)
    requires Tables(names, rows) && Sorted(sorted) && Rearranged(AllEdges(names, rows), sorted)
    ensures CostTheorem(names, rows, Greedy(sorted))
  {
    forall m: nat | Query(names, rows, m)
      ensures TotalWeight(Greedy(sorted)) == (|names| - 1) * rows[m]
    {
      PlanCost(names, rows, m, sorted);
    }
  }

  lemma PlanTheorems(names: seq<string>, rows: seq<int>, sorted: seq<Edge>)
    requires Tables(names, rows) && names != []
    requires Sorted(sorted) && Rearranged(AllEdges(names, rows), sorted)
    ensures OrderTheorem(names, rows, Rebuilt(names, Greedy(sorted)))
    ensures CostTheorem(names, rows, Greedy(sorted))
  {
    PlanOrder(names, rows, sorted);
    PlanCosts(names, rows, sorted);
  }

  /** The plan for a query: a minimum spanning tree of the all-pairs graph with its closed-form
      cost, and a table order that is a permutation of the query's tables under exactly the stated
      condition. */
  method Optimize(tableName: string, joinTables: seq<string>, catalog: map<string, TableStats>)
    returns (plan: JoinPlan)
    requires |joinTables| <= MAX_JOIN_TABLES_OPT
    ensures var tables := [tableName] + joinTables;
      var names, rows := StoredNames(tables), RowCounts(catalog, tables);
      && MinimumSpanningForest(|names|, plan.mstEdges, AllEdges(names, rows))
      && plan.orderedTables == Rebuilt(names, plan.mstEdges)
      && OrderTheorem(names, rows, plan.orderedTables)
      && CostTheorem(names, rows, plan.mstEdges)
  {
    hide CostTheorem, OrderTheorem, Rebuilt, Greedy, MinimumSpanningForest, Sorted, Rearranged;
    var graph := new JoinGraph();
    var tables := [tableName] + joinTables;
    var ordered := AddTables(graph, tables, catalog);
    ghost var rows := RowCounts(catalog, tables);
    AddPairs(graph, ordered, rows);
    var mst := new Edge[MAX_NODES];
    var edgeCount := graph.ComputeMST(mst);
    PlanTheorems(ordered, rows, graph.EdgeList());
    var order := RebuildOrder(ordered, mst[..edgeCount]);
    plan := JoinPlan(order, mst[..edgeCount]);
  }
}
