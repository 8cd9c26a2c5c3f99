/** What Kruskal's scan keeps of a list of edges, and why that is a minimum spanning
    forest when the list is sorted. */
module Kruskal {
  import opened Graphs

  ghost function EdgesOf(es: seq<Edge>): set<Edge> {
    set e | e in es
  }

  /** The edges kept by a left-to-right scan that rejects an edge whose ends are already
      connected by the edges before it. */
  ghost function Greedy(es: seq<Edge>): (kept: seq<Edge>)
    ensures forall e :: e in kept ==> e in es
  {
    if es == [] then []
    else
      var k := |es| - 1;
      Greedy(es[..k]) + if Connected(EdgesOf(es[..k]), es[k].u, es[k].v) then [] else [es[k]]
  }

  ghost predicate Sorted(es: seq<Edge>) {
    forall i, j :: 0 <= i < j < |es| ==> es[i].weight <= es[j].weight
  }

  function TotalWeight(es: seq<Edge>): int {
    if es == [] then 0 else TotalWeight(es[..|es| - 1]) + es[|es| - 1].weight
  }

  ghost function Weight(s: set<Edge>): int {
    if s == {} then 0 else var e :| e in s; e.weight + Weight(s - {e})
  }

  lemma LastEdge(es: seq<Edge>)
    requires es != []
    ensures EdgesOf(es) == EdgesOf(es[..|es| - 1]) + {es[|es| - 1]}
  {
    assert es == es[..|es| - 1] + [es[|es| - 1]];
  }

  /** One step of the scan. */
  lemma GreedyStep(es: seq<Edge>)
    requires es != []
    ensures var k := |es| - 1;
      var kept, kept' := Greedy(es[..k]), Greedy(es);
      if Connected(EdgesOf(es[..k]), es[k].u, es[k].v) then kept' == kept
      else
        && kept' == kept + [es[k]]
        && EdgesOf(kept') == EdgesOf(kept) + {es[k]}
        && TotalWeight(kept') == TotalWeight(kept) + es[k].weight
  {
    var k := |es| - 1;
    if !Connected(EdgesOf(es[..k]), es[k].u, es[k].v) {
      var kept, kept' := Greedy(es[..k]), Greedy(es);
      assert kept' == kept + [es[k]];
      assert kept'[..|kept'| - 1] == kept;
    }
  }

  // ---------- the kept edges form a spanning forest ----------

  lemma {:induction false} GreedySpans(es: seq<Edge>, x: nat, y: nat)
    ensures Connected(EdgesOf(Greedy(es)), x, y) <==> Connected(EdgesOf(es), x, y)
  {
    if es == [] {
      assert EdgesOf(Greedy(es)) == EdgesOf(es);
    } else {
      var k := |es| - 1;
      var e, init := es[k], es[..k];
      LastEdge(es);
      GreedyStep(es);
      GreedySpans(init, x, y);
      if Connected(EdgesOf(init), e.u, e.v) {
        RedundantEdge(EdgesOf(init), e, x, y);
      } else {
        OneMoreEdge(EdgesOf(Greedy(init)), e, x, y);
        OneMoreEdge(EdgesOf(init), e, x, y);
        GreedySpans(init, x, e.u);
        GreedySpans(init, e.v, y);
        GreedySpans(init, x, e.v);
        GreedySpans(init, e.u, y);
      }
    }
  }

  lemma {:induction false} GreedyAcyclic(es: seq<Edge>)
    ensures Acyclic(EdgesOf(Greedy(es)))
    ensures |EdgesOf(Greedy(es))| == |Greedy(es)|
    ensures Weight(EdgesOf(Greedy(es))) == TotalWeight(Greedy(es))
  {
    if es == [] {
      assert EdgesOf(Greedy(es)) == {};
    } else {
      var k := |es| - 1;
      var e, init := es[k], es[..k];
      GreedyAcyclic(init);
      GreedyStep(es);
      if !Connected(EdgesOf(init), e.u, e.v) {
        var kept := EdgesOf(Greedy(init));
        GreedySpans(init, e.u, e.v);
        AcyclicExtend(kept, e);
        WeightSplit(kept + {e}, e);
        assert kept + {e} - {e} == kept;
      }
    }
  }

  lemma {:induction false} WeightSplit(s: set<Edge>, e: Edge)
    requires e in s
    ensures Weight(s) == e.weight + Weight(s - {e})
  {
    var f :| f in s && Weight(s) == f.weight + Weight(s - {f});
    if f != e {
      WeightSplit(s - {f}, e);
      WeightSplit(s - {e}, f);
      assert s - {f} - {e} == s - {e} - {f};
    }
  }

  /** The kept edges are a spanning forest, and number nodes minus components. */
  lemma GreedyIsSpanningForest(n: nat, es: seq<Edge>)
    requires Inside(n, EdgesOf(es))
    ensures SpanningForest(n, EdgesOf(Greedy(es)), EdgesOf(es))
    ensures |Greedy(es)| == n - Components(n, EdgesOf(es))
  {
    var kept := EdgesOf(Greedy(es));
    GreedyAcyclic(es);
    forall x: nat, y: nat | x < n && y < n
      ensures Connected(kept, x, y) <==> Connected(EdgesOf(es), x, y)
    {
      GreedySpans(es, x, y);
    }
    ForestSize(n, kept);
    SameConnectivitySameComponents(n, kept, EdgesOf(es));
  }

  // ---------- minimality ----------

  /** No acyclic set of edges of es is larger than the kept one. */
  lemma NoForestIsLarger(n: nat, es: seq<Edge>, t: set<Edge>)
    requires Inside(n, EdgesOf(es)) && t <= EdgesOf(es) && Acyclic(t)
    ensures |t| <= |Greedy(es)|
  {
    ForestSize(n, t);
    MoreEdgesFewerComponents(n, t, EdgesOf(es));
    GreedyIsSpanningForest(n, es);
  }

  /** c edges at price w each. */
  ghost function Times(c: nat, w: int): int {
    if c == 0 then 0 else w + Times(c - 1, w)
  }

  lemma {:induction false} TimesMonotone(c: nat, low: int, high: int)
    requires low <= high
    ensures Times(c, low) <= Times(c, high)
  {
    if c > 0 {
      TimesMonotone(c - 1, low, high);
    }
  }

  /** What t saves over the kept edges is at most its shortage of edges, priced at w. */
  ghost predicate SavingBounded(kept: seq<Edge>, t: set<Edge>, w: int) {
    |t| <= |kept| && TotalWeight(kept) - Weight(t) <= Times(|kept| - |t|, w)
  }

  lemma RaisePrice(kept: seq<Edge>, t: set<Edge>, low: int, high: int)
    requires SavingBounded(kept, t, low) && low <= high
    ensures SavingBounded(kept, t, high)
  {
    TimesMonotone(|kept| - |t|, low, high);
  }

  /** The counting argument: in every prefix of a sorted list the kept set is at least as
      large as any other acyclic set, so the bound survives each dearer edge. */
  lemma {:induction false} NoForestDoesBetter(n: nat, es: seq<Edge>, t: set<Edge>, w: int)
    requires Inside(n, EdgesOf(es)) && Sorted(es)
    requires t <= EdgesOf(es) && Acyclic(t)
    requires es != [] ==> es[|es| - 1].weight <= w
    ensures SavingBounded(Greedy(es), t, w)
  {
    if es == [] {
      assert t == {};
    } else {
      var init, t', e := WithoutLast(n, es, t);
      NoForestDoesBetter(n, init, t', e.weight);
      NoForestIsLarger(n, es, t);
      var dg := KeptStep(es);
      var dt := ForestStep(es, t);
      AddLast(Greedy(init), Greedy(es), dg, t', t, dt, e.weight);
      RaisePrice(Greedy(es), t, e.weight, w);
    }
  }

  lemma WithoutLast(n: nat, es: seq<Edge>, t: set<Edge>) returns (init: seq<Edge>, t': set<Edge>, e: Edge)
    requires Inside(n, EdgesOf(es)) && Sorted(es) && es != []
    requires t <= EdgesOf(es) && Acyclic(t)
    ensures init == es[..|es| - 1] && e == es[|es| - 1] && t' == t * EdgesOf(init)
    ensures Inside(n, EdgesOf(init)) && Sorted(init)
    ensures t' <= EdgesOf(init) && Acyclic(t')
    ensures init != [] ==> init[|init| - 1].weight <= e.weight
  {
    init, e := es[..|es| - 1], es[|es| - 1];
    t' := t * EdgesOf(init);
    LastEdge(es);
    AcyclicSubset(t', t);
  }

  /** The kept list g' and the forest t' each grow by at most one edge of price w. */
  lemma AddLast(g': seq<Edge>, g: seq<Edge>, dg: int, t': set<Edge>, t: set<Edge>, dt: int, w: int)
    requires SavingBounded(g', t', w) && |t| <= |g|
    requires |g| == |g'| + dg && Grows(TotalWeight(g'), TotalWeight(g), dg, w)
    requires |t| == |t'| + dt && Grows(Weight(t'), Weight(t), dt, w)
    ensures SavingBounded(g, t, w)
  {
    OneMore(TotalWeight(g'), Weight(t'), |g'| - |t'|, TotalWeight(g), Weight(t), |g| - |t|, dg, dt, w);
  }

  lemma KeptStep(es: seq<Edge>) returns (d: int)
    requires es != []
    ensures var g, g' := Greedy(es), Greedy(es[..|es| - 1]);
      |g| == |g'| + d && Grows(TotalWeight(g'), TotalWeight(g), d, es[|es| - 1].weight)
  {
    GreedyStep(es);
    d := |Greedy(es)| - |Greedy(es[..|es| - 1])|;
  }

  lemma ForestStep(es: seq<Edge>, t: set<Edge>) returns (d: int)
    requires es != [] && t <= EdgesOf(es)
    ensures var t' := t * EdgesOf(es[..|es| - 1]);
      |t| == |t'| + d && Grows(Weight(t'), Weight(t), d, es[|es| - 1].weight)
  {
    var e, t' := es[|es| - 1], t * EdgesOf(es[..|es| - 1]);
    LastEdge(es);
    if t == t' {
      d := 0;
    } else {
      assert t == t' + {e} && t - {e} == t';
      WeightSplit(t, e);
      d := 1;
    }
  }

  /** a' is a, or a plus w, according to the count d. */
  ghost predicate Grows(a: int, a': int, d: int, w: int) {
    (d == 0 && a' == a) || (d == 1 && a' == a + w)
  }

  lemma OneMore(g': int, t': int, c': nat, g: int, t: int, c: nat, dg: int, dt: int, w: int)
    requires g' - t' <= Times(c', w)
    requires Grows(g', g, dg, w) && Grows(t', t, dt, w)
    requires c == c' + dg - dt
    ensures g - t <= Times(c, w)
  {
  }

  lemma SpanningForestSize(n: nat, t: set<Edge>, s: set<Edge>)
    requires Inside(n, s) && SpanningForest(n, t, s)
    ensures |t| == n - Components(n, s)
  {
    ForestSize(n, t);
    SameConnectivitySameComponents(n, t, s);
  }

  /** Kruskal's result on a sorted list costs no more than any other spanning forest. */
  lemma GreedyIsMinimum(n: nat, es: seq<Edge>, t: set<Edge>)
    requires Inside(n, EdgesOf(es)) && Sorted(es)
    requires SpanningForest(n, t, EdgesOf(es))
    ensures TotalWeight(Greedy(es)) <= Weight(t)
  {
    var w := if es == [] then 0 else es[|es| - 1].weight;
    NoForestDoesBetter(n, es, t, w);
    SpanningForestSize(n, t, EdgesOf(es));
    GreedyIsSpanningForest(n, es);
  }
}
