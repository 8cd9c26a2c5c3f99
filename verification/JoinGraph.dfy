/** The join graph: tables as nodes, candidate joins as weighted edges, sorted in place and
    scanned by Kruskal's algorithm over a union-find structure. */
module JoinGraphs {
  import opened Graphs
  import opened Kruskal
  import opened UnionFind

  const MAX_NODES := 16
  const MAX_EDGES := MAX_NODES * MAX_NODES

  /** A name as kept in a 64-byte buffer. */
  function Stored(name: string): (s: string)
    ensures |s| <= 63 && s <= name
  {
    if |name| <= 63 then name else name[..63]
  }

  // ---------- selection sort ----------

  ghost function OfWeight(es: seq<Edge>, w: int): seq<Edge> {
    if es == [] then []
    else (if es[0].weight == w then [es[0]] else []) + OfWeight(es[1..], w)
  }

  ghost predicate NoneBelow(es: seq<Edge>, w: int) {
    forall i :: 0 <= i < |es| ==> w <= es[i].weight
  }

  /** t is a rearrangement of s that keeps the cheapest edges in their order. */
  ghost predicate Rearranged(s: seq<Edge>, t: seq<Edge>) {
    && |s| == |t| && multiset(s) == multiset(t)
    && forall w {:trigger OfWeight(t, w)} :: NoneBelow(s, w) ==> OfWeight(t, w) == OfWeight(s, w)
  }

  lemma {:induction false} OfWeightConcat(s: seq<Edge>, t: seq<Edge>, w: int)
    ensures OfWeight(s + t, w) == OfWeight(s, w) + OfWeight(t, w)
  {
    if s == [] {
      assert s + t == t;
    } else {
      assert (s + t)[1..] == s[1..] + t;
      OfWeightConcat(s[1..], t, w);
    }
  }

  lemma {:induction false} NoneOfWeight(s: seq<Edge>, w: int)
    requires forall i :: 0 <= i < |s| ==> s[i].weight != w
    ensures OfWeight(s, w) == []
  {
    if s != [] {
      NoneOfWeight(s[1..], w);
    }
  }

  function Swapped(es: seq<Edge>, i: nat, j: nat): seq<Edge>
    requires i < |es| && j < |es|
  {
    es[i := es[j]][j := es[i]]
  }

  /** j is the first position from i on that holds the least weight found there. */
  ghost predicate FirstLeast(es: seq<Edge>, i: nat, j: nat, end: nat) {
    && i <= j < end <= |es|
    && (forall k :: i <= k < end ==> es[j].weight <= es[k].weight)
    && (forall k :: i <= k < j ==> es[j].weight < es[k].weight)
  }

  /** Exchanging position i with the first least one from there on never overtakes a cheapest
      edge, although selection sort is not stable in general. */
  lemma SwapRearranges(es: seq<Edge>, i: nat, j: nat)
    requires FirstLeast(es, i, j, |es|)
    ensures Rearranged(es, Swapped(es, i, j))
  {
    SwapPermutes(es, i, j);
    forall w | NoneBelow(es, w)
      ensures OfWeight(Swapped(es, i, j), w) == OfWeight(es, w)
    {
      SwapKeepsCheapest(es, i, j, w);
    }
  }

  lemma SwapPermutes<T>(s: seq<T>, i: nat, j: nat)
    requires i < |s| && j < |s|
    ensures multiset(s[i := s[j]][j := s[i]]) == multiset(s)
  {
  }

  lemma SwapSplits(es: seq<Edge>, i: nat, j: nat)
    requires i < j < |es|
    ensures es == es[..i] + [es[i]] + es[i + 1..j] + [es[j]] + es[j + 1..]
    ensures Swapped(es, i, j) == es[..i] + [es[j]] + es[i + 1..j] + [es[i]] + es[j + 1..]
  {
  }

  lemma SwapKeepsCheapest(es: seq<Edge>, i: nat, j: nat, w: int)
    requires FirstLeast(es, i, j, |es|) && NoneBelow(es, w)
    ensures OfWeight(Swapped(es, i, j), w) == OfWeight(es, w)
  {
    if i < j {
      MiddleIsDear(es, i, j, w);
      SwapSplits(es, i, j);
      Pieces(es[..i], es[i], es[i + 1..j], es[j], es[j + 1..], w);
      Pieces(es[..i], es[j], es[i + 1..j], es[i], es[j + 1..], w);
      assert OfWeight([es[i]], w) == [];
    } else {
      assert Swapped(es, i, j) == es;
    }
  }

  lemma MiddleIsDear(es: seq<Edge>, i: nat, j: nat, w: int)
    requires FirstLeast(es, i, j, |es|) && i < j && NoneBelow(es, w)
    ensures es[i].weight != w && OfWeight(es[i + 1..j], w) == []
  {
    var b := es[i + 1..j];
    assert forall k :: 0 <= k < |b| ==> b[k] == es[i + 1 + k];
    NoneOfWeight(b, w);
  }

  lemma Pieces(a: seq<Edge>, x: Edge, b: seq<Edge>, y: Edge, c: seq<Edge>, w: int)
    ensures OfWeight(a + [x] + b + [y] + c, w)
         == OfWeight(a, w) + OfWeight([x], w) + OfWeight(b, w) + OfWeight([y], w) + OfWeight(c, w)
  {
    OfWeightConcat(a + [x] + b + [y], c, w);
    OfWeightConcat(a + [x] + b, [y], w);
    OfWeightConcat(a + [x], b, w);
    OfWeightConcat(a, [x], w);
  }

  lemma RearrangedTransitive(r: seq<Edge>, s: seq<Edge>, t: seq<Edge>)
    requires Rearranged(r, s) && Rearranged(s, t)
    ensures Rearranged(r, t)
  {
    forall w | NoneBelow(r, w)
      ensures OfWeight(t, w) == OfWeight(r, w)
    {
      assert NoneBelow(s, w) by {
        forall i | 0 <= i < |s|
          ensures w <= s[i].weight
        {
          assert s[i] in multiset(r);
        }
      }
      assert OfWeight(s, w) == OfWeight(r, w);
    }
  }

  ghost predicate SortedUpTo(es: seq<Edge>, i: nat) {
    i <= |es| && forall j, k :: 0 <= j < i && j < k < |es| ==> es[j].weight <= es[k].weight
  }

  lemma SwapExtendsSorted(es: seq<Edge>, i: nat, j: nat)
    requires SortedUpTo(es, i) && FirstLeast(es, i, j, |es|)
    ensures SortedUpTo(Swapped(es, i, j), i + 1)
  {
  }

  /** The first position from i on that holds the least weight among edges[i..n]. */
  method LeastFrom(edges: array<Edge>, i: nat, n: nat) returns (minIdx: nat)
    requires i < n <= edges.Length
    ensures FirstLeast(edges[..n], i, minIdx, n)
  {
    minIdx := i;
    var j := i + 1;
    while j < n
      invariant i < j <= n && i <= minIdx < j
      invariant forall k :: i <= k < j ==> edges[minIdx].weight <= edges[k].weight
      invariant forall k :: i <= k < minIdx ==> edges[minIdx].weight < edges[k].weight
    {
      if edges[j].weight < edges[minIdx].weight {
        minIdx := j;
      }
      j := j + 1;
    }
  }

  /** Selection sort of the first n elements. */
  method SortEdges(edges: array<Edge>, n: nat)
    requires n <= edges.Length
    modifies edges
    ensures Sorted(edges[..n]) && Rearranged(old(edges[..n]), edges[..n])
    ensures edges[n..] == old(edges[n..])
  {
    hide SortedUpTo, Rearranged, FirstLeast, Sorted;
    ghost var es0 := edges[..n];
    NothingMoved(es0);
    var i := 0;
    while i < n - 1
      invariant 0 <= i <= n
      invariant SortedUpTo(edges[..n], i) && Rearranged(es0, edges[..n])
      invariant edges[n..] == old(edges[n..])
    {
      ghost var es := edges[..n];
      var minIdx := LeastFrom(edges, i, n);
      if minIdx != i {
        edges[i], edges[minIdx] := edges[minIdx], edges[i];
      }
      assert edges[..n] == Swapped(es, i, minIdx);
      SortStep(es0, es, i, minIdx);
      i := i + 1;
    }
    SortedThroughout(edges[..n], i);
  }

  lemma NothingMoved(es: seq<Edge>)
    ensures SortedUpTo(es, 0) && Rearranged(es, es)
  {
  }

  lemma SortedThroughout(es: seq<Edge>, i: nat)
    requires SortedUpTo(es, i) && |es| <= i + 1
    ensures Sorted(es)
  {
  }

  lemma SortStep(es0: seq<Edge>, es: seq<Edge>, i: nat, minIdx: nat)
    requires SortedUpTo(es, i) && Rearranged(es0, es) && FirstLeast(es, i, minIdx, |es|)
    ensures SortedUpTo(Swapped(es, i, minIdx), i + 1) && Rearranged(es0, Swapped(es, i, minIdx))
  {
    SwapExtendsSorted(es, i, minIdx);
    SwapRearranges(es, i, minIdx);
    RearrangedTransitive(es0, es, Swapped(es, i, minIdx));
  }

  // ---------- what a full scan computes ----------

  lemma SameEdgeSet(s: seq<Edge>, t: seq<Edge>)
    requires multiset(s) == multiset(t)
    ensures EdgesOf(s) == EdgesOf(t)
  {
    forall e
      ensures e in s <==> e in t
    {
      assert e in s <==> e in multiset(s);
      assert e in t <==> e in multiset(t);
    }
  }

  /** Once nodes - 1 edges are kept, the rest of the list adds nothing: the early exit is safe. */
  lemma {:induction false} RestIsRedundant(n: nat, es: seq<Edge>, i: nat)
    requires i <= |es| && Inside(n, EdgesOf(es))
    requires i < |es| ==> |Greedy(es[..i])| >= n - 1
    ensures Greedy(es) == Greedy(es[..i])
  {
    if i == |es| {
      assert es[..i] == es;
    } else {
      var k := |es| - 1;
      var init := es[..k];
      assert init[..i] == es[..i];
      LastEdge(es);
      RestIsRedundant(n, init, i);
      GreedyIsSpanningForest(n, init);
      assert es[k] in EdgesOf(es);
      OneComponent(n, EdgesOf(init), es[k].u, es[k].v);
      GreedyStep(es);
    }
  }

  /** The classes of f are the connected components of s. */
  ghost predicate ClassesAre(n: nat, f: seq<int>, s: set<Edge>) {
    |f| == n && forall x: nat, y: nat {:trigger Connected(s, x, y)} :: x < n && y < n ==>
      (f[x] == f[y] <==> Connected(s, x, y))
  }

  lemma ClassesStep(n: nat, f: seq<int>, f': seq<int>, s: set<Edge>, e: Edge, root: int)
    requires ClassesAre(n, f, s) && e.u < n && e.v < n && Merged(f, f', e.u, e.v, root)
    ensures ClassesAre(n, f', s + {e})
  {
    forall x: nat, y: nat | x < n && y < n
      ensures f'[x] == f'[y] <==> Connected(s + {e}, x, y)
    {
      OneMoreEdge(s, e, x, y);
      assert f[x] == f[e.u] <==> Connected(s, x, e.u);
      assert f[x] == f[e.v] <==> Connected(s, x, e.v);
      assert f[e.u] == f[y] <==> Connected(s, e.u, y);
      assert f[e.v] == f[y] <==> Connected(s, e.v, y);
    }
  }

  lemma ClassesStart(n: nat, f: seq<int>)
    requires |f| == n && forall x :: 0 <= x < n ==> f[x] == x
    ensures ClassesAre(n, f, EdgesOf([]))
  {
    assert EdgesOf([]) == {};
    forall x: nat, y: nat | x < n && y < n
      ensures x == y <==> Connected({}, x, y)
    {
      Reflexive({}, x);
      if Connected({}, x, y) {
        var p :| Joins({}, p, x, y);
        assert |p| > 1 ==> Adjacent({}, p[0], p[0 + 1]);
      }
    }
  }

  /** mst, with its cost, is a minimum spanning forest of es. */
  ghost predicate MinimumSpanningForest(n: nat, mst: seq<Edge>, es: seq<Edge>) {
    && SpanningForest(n, EdgesOf(mst), EdgesOf(es))
    && |mst| == n - Components(n, EdgesOf(es))
    && forall t: set<Edge> :: SpanningForest(n, t, EdgesOf(es)) ==> TotalWeight(mst) <= Weight(t)
  }

  lemma ScanOfSortedIsMinimum(n: nat, es: seq<Edge>, sorted: seq<Edge>)
    requires Inside(n, EdgesOf(es)) && Sorted(sorted) && multiset(sorted) == multiset(es)
    ensures MinimumSpanningForest(n, Greedy(sorted), es)
  {
    SameEdgeSet(sorted, es);
    GreedyIsSpanningForest(n, sorted);
    forall t: set<Edge> | SpanningForest(n, t, EdgesOf(es))
      ensures TotalWeight(Greedy(sorted)) <= Weight(t)
    {
      GreedyIsMinimum(n, sorted, t);
    }
  }

  // ---------- the graph ----------

  class JoinGraph {
    const nodeNames: array<string>
    const rowCounts: array<int>
    var nodeCount: nat
    const edges: array<Edge>
    var edgeCount: nat

    ghost predicate Valid()
      reads this, nodeNames, rowCounts, edges
    {
      && nodeNames.Length == rowCounts.Length == MAX_NODES && edges.Length == MAX_EDGES
      && nodeCount <= MAX_NODES && edgeCount <= MAX_EDGES
      && Inside(nodeCount, EdgesOf(edges[..edgeCount]))
    }

    ghost function Names(): seq<string>
      reads this, nodeNames
      requires nodeCount <= nodeNames.Length
    {
      nodeNames[..nodeCount]
    }

    ghost function Rows(): seq<int>
      reads this, rowCounts
      requires nodeCount <= rowCounts.Length
    {
      rowCounts[..nodeCount]
    }

    ghost function EdgeList(): seq<Edge>
      reads this, edges
      requires edgeCount <= edges.Length
    {
      edges[..edgeCount]
    }

    constructor ()
      ensures Valid() && nodeCount == 0 && edgeCount == 0
      ensures fresh(nodeNames) && fresh(rowCounts) && fresh(edges)
    {
      nodeNames := new string[MAX_NODES];
      rowCounts := new int[MAX_NODES];
      edges := new Edge[MAX_EDGES];
      nodeCount, edgeCount := 0, 0;
    }

    /** Adds a node; a full graph ignores the call. */
    method AddTable(name: string, rowCount: int)
      requires Valid()
      modifies `nodeCount, nodeNames, rowCounts
      ensures Valid() && EdgeList() == old(EdgeList())
      ensures old(nodeCount) < MAX_NODES ==>
        Names() == old(Names()) + [Stored(name)] && Rows() == old(Rows()) + [rowCount]
      ensures old(nodeCount) == MAX_NODES ==> Names() == old(Names()) && Rows() == old(Rows())
    {
      if nodeCount >= MAX_NODES {
        return;
      }
      nodeNames[nodeCount] := Stored(name);
      rowCounts[nodeCount] := rowCount;
      nodeCount := nodeCount + 1;
    }

    /** The first node of that name, or -1. */
    method TableIndex(name: string) returns (index: int)
      requires Valid()
      ensures index == FirstIndex(Names(), name)
    {
      for i := 0 to nodeCount
        invariant name !in Names()[..i]
      {
        if nodeNames[i] == name {
          FirstIndexIs(Names(), name, i);
          return i;
        }
      }
      return -1;
    }

    /** Adds an edge that costs the smaller of the two row counts; unknown names and a full
        edge table leave the graph as it was. */
    method AddJoin(tableA: string, tableB: string)
      requires Valid()
      modifies `edgeCount, edges
      ensures Valid() && Names() == old(Names()) && Rows() == old(Rows())
      ensures EdgeList() == if tableA in Names() && tableB in Names() && old(edgeCount) < MAX_EDGES
        then old(EdgeList()) + [JoinEdge(Names(), Rows(), tableA, tableB)] else old(EdgeList())
    {
      var u := TableIndex(tableA);
      var v := TableIndex(tableB);
      if u < 0 || v < 0 || edgeCount >= MAX_EDGES {
        return;
      }
      var cost := if rowCounts[u] < rowCounts[v] then rowCounts[u] else rowCounts[v];
      edges[edgeCount] := Edge(u, v, cost, Stored(tableA), Stored(tableB));
      edgeCount := edgeCount + 1;
      assert EdgeList() == old(EdgeList()) + [JoinEdge(Names(), Rows(), tableA, tableB)];
    }

    /** Sorts the edges in place and fills mstEdges with the edges Kruskal's scan keeps. */
    method ComputeMST(mstEdges: array<Edge>) returns (mstCount: nat)
      requires Valid() && mstEdges.Length >= MAX_NODES && mstEdges != edges
      modifies edges, mstEdges
      ensures Valid() && Names() == old(Names()) && Rows() == old(Rows())
      ensures Sorted(EdgeList()) && Rearranged(old(EdgeList()), EdgeList())
      ensures mstCount <= mstEdges.Length && mstEdges[..mstCount] == Greedy(EdgeList())
      ensures MinimumSpanningForest(nodeCount, mstEdges[..mstCount], old(EdgeList()))
    {
      ghost var es0 := EdgeList();
      SortEdges(edges, edgeCount);
      SameEdgeSet(es0, EdgeList());
      mstCount := ScanSorted(edges, edgeCount, nodeCount, mstEdges);
      ScanOfSortedIsMinimum(nodeCount, es0, EdgeList());
    }
  }

  /** Keeps an edge when it merges two classes, and stops early once nodes - 1 are kept. */
  method ScanSorted(edges: array<Edge>, edgeCount: nat, nodeCount: nat, mstEdges: array<Edge>) returns (mstCount: nat)
    requires edgeCount <= edges.Length && Inside(nodeCount, EdgesOf(edges[..edgeCount]))
    requires mstEdges.Length >= nodeCount && mstEdges != edges
    modifies mstEdges
    ensures mstCount <= mstEdges.Length && mstEdges[..mstCount] == Greedy(edges[..edgeCount])
  {
    hide ClassesAre, RankedForest, Root;
    ghost var es := edges[..edgeCount];
    var uf := new DisjointSets(nodeCount);
    ClassesStart(nodeCount, uf.Classes());
    assert es[..0] == [];
    mstCount := 0;
    var i := 0;
    while i < edgeCount && mstCount < nodeCount - 1
      invariant i <= edgeCount
      invariant uf.Valid() && uf.parent.Length == nodeCount && fresh(uf.parent) && fresh(uf.rank)
      invariant ClassesAre(nodeCount, uf.Classes(), EdgesOf(es[..i]))
      invariant mstCount <= mstEdges.Length && mstEdges[..mstCount] == Greedy(es[..i])
    {
      var e := edges[i];
      assert es[i] == e && e in EdgesOf(es);
      ghost var f := uf.Classes();
      var merged, root := uf.Unite(e.u, e.v);
      ScanStep(nodeCount, es, i, f, uf.Classes(), root);
      if merged {
        mstEdges[mstCount] := e;
        mstCount := mstCount + 1;
      }
      i := i + 1;
    }
    RestIsRedundant(nodeCount, es, i);
  }

  /** The first position of name, or -1. */
  function FirstIndex(names: seq<string>, name: string): (index: int)
    ensures -1 <= index < |names|
    ensures index >= 0 <==> name in names
    ensures index >= 0 ==> names[index] == name && name !in names[..index]
  {
    if names == [] then -1
    else if names[0] == name then 0
    else
      var rest := FirstIndex(names[1..], name);
      assert names == [names[0]] + names[1..];
      assert rest >= 0 ==> names[..rest + 1] == [names[0]] + names[1..][..rest];
      if rest < 0 then -1 else rest + 1
  }

  lemma FirstIndexIs(names: seq<string>, name: string, i: nat)
    requires i < |names| && names[i] == name && name !in names[..i]
    ensures FirstIndex(names, name) == i
  {
    assert name in names;
  }

  function JoinEdge(names: seq<string>, rows: seq<int>, tableA: string, tableB: string): (e: Edge)
    requires tableA in names && tableB in names && |rows| == |names|
  {
    var u, v := FirstIndex(names, tableA), FirstIndex(names, tableB);
    Edge(u, v, if rows[u] < rows[v] then rows[u] else rows[v], Stored(tableA), Stored(tableB))
  }

  lemma ScanStep(n: nat, es: seq<Edge>, i: nat, f: seq<int>, f': seq<int>, root: int)
    requires i < |es| && Inside(n, EdgesOf(es))
    requires ClassesAre(n, f, EdgesOf(es[..i])) && Merged(f, f', es[i].u, es[i].v, root)
    ensures ClassesAre(n, f', EdgesOf(es[..i + 1]))
    ensures Greedy(es[..i + 1]) == Greedy(es[..i]) + if f[es[i].u] == f[es[i].v] then [] else [es[i]]
    ensures |Greedy(es[..i])| <= n
  {
    var upto := es[..i + 1];
    assert upto[..i] == es[..i] && upto[i] == es[i];
    assert es[i] in EdgesOf(es);
    LastEdge(upto);
    GreedyStep(upto);
    ClassesStep(n, f, f', EdgesOf(es[..i]), es[i], root);
    assert Inside(n, EdgesOf(es[..i]));
    GreedyIsSpanningForest(n, es[..i]);
  }
}
