/** Disjoint sets with path halving and union by rank. */
module UnionFind {
  import opened Sequences
  import opened Graphs
  import opened Powers

  // ---------- parent and rank arrays as sequences ----------

  /** Every parent pointer stays inside and leads to a node of strictly larger rank. */
  ghost predicate RankedForest(p: seq<int>, r: seq<int>) {
    && |p| == |r|
    && forall x {:trigger p[x]} :: 0 <= x < |p| ==> 0 <= p[x] < |p| && 0 <= r[x] && (p[x] != x ==> r[x] < r[p[x]])
  }

  ghost function MaxRank(r: seq<int>): (m: int)
    ensures forall i :: 0 <= i < |r| ==> r[i] <= m
  {
    if r == [] then 0
    else
      var k := |r| - 1;
      var m := MaxRank(r[..k]);
      assert forall i :: 0 <= i < k ==> r[..k][i] == r[i];
      if r[k] > m then r[k] else m
  }

  /** The representative reached by following parents. */
  ghost function Root(p: seq<int>, r: seq<int>, x: int): (root: int)
    requires RankedForest(p, r) && 0 <= x < |p|
    ensures 0 <= root < |p| && p[root] == root && r[x] <= r[root]
    decreases MaxRank(r) - r[x]
  {
    if p[x] == x then x else Root(p, r, p[x])
  }

  ghost function Class(p: seq<int>, r: seq<int>, root: int): set<nat>
    requires RankedForest(p, r)
  {
    set y | y in NodesBelow(|p|) && Root(p, r, y) == root
  }

  /** A root of rank k stands for at least two to the k nodes. */
  ghost predicate LargeEnough(p: seq<int>, r: seq<int>)
    requires RankedForest(p, r)
  {
    forall x {:trigger Class(p, r, x)} :: 0 <= x < |p| && p[x] == x ==> Pow2(r[x]) <= |Class(p, r, x)|
  }

  ghost predicate SamePartition(p: seq<int>, p': seq<int>, r: seq<int>)
    requires RankedForest(p, r) && RankedForest(p', r)
  {
    |p| == |p'| && forall y :: 0 <= y < |p| ==> Root(p', r, y) == Root(p, r, y)
  }

  // ---------- path halving ----------

  ghost function Halved(p: seq<int>, x: int): seq<int>
    requires 0 <= x < |p| && 0 <= p[x] < |p|
  {
    p[x := p[p[x]]]
  }

  /** Pointing x at its grandparent moves no node to another class. */
  lemma {:induction false} HalvingKeepsRoot(p: seq<int>, r: seq<int>, x: int, y: int)
    requires RankedForest(p, r) && 0 <= x < |p| && 0 <= y < |p|
    ensures RankedForest(Halved(p, x), r)
    ensures Root(Halved(p, x), r, y) == Root(p, r, y)
    decreases MaxRank(r) - r[y]
  {
    var p' := Halved(p, x);
    if p[y] != y {
      HalvingKeepsRoot(p, r, x, p[y]);
      if y == x && p[p[y]] != p[y] {
        HalvingKeepsRoot(p, r, x, p[p[y]]);
      }
    }
  }

  lemma HalvingKeepsPartition(p: seq<int>, r: seq<int>, x: int)
    requires RankedForest(p, r) && 0 <= x < |p| && LargeEnough(p, r)
    ensures RankedForest(Halved(p, x), r) && SamePartition(p, Halved(p, x), r)
    ensures LargeEnough(Halved(p, x), r)
  {
    var p' := Halved(p, x);
    HalvingKeepsRoot(p, r, x, x);
    forall y | 0 <= y < |p|
      ensures Root(p', r, y) == Root(p, r, y)
    {
      HalvingKeepsRoot(p, r, x, y);
    }
    forall y | 0 <= y < |p| && p'[y] == y
      ensures Pow2(r[y]) <= |Class(p', r, y)|
    {
      assert Root(p', r, y) == y;
      assert Class(p', r, y) == Class(p, r, y);
    }
  }

  // ---------- linking two roots ----------

  /** The ranks after linking: a tie promotes the winner. */
  ghost function Promoted(r: seq<int>, winner: int, loser: int): seq<int>
    requires 0 <= winner < |r| && 0 <= loser < |r|
  {
    if r[winner] == r[loser] then r[winner := r[winner] + 1] else r
  }

  ghost predicate TwoRoots(p: seq<int>, r: seq<int>, winner: int, loser: int) {
    && RankedForest(p, r)
    && 0 <= winner < |p| && 0 <= loser < |p| && winner != loser
    && p[winner] == winner && p[loser] == loser
    && r[loser] <= r[winner]
  }

  /** Linking sends exactly the loser's class to the winner. */
  lemma {:induction false} LinkMovesOneClass(p: seq<int>, r: seq<int>, winner: int, loser: int, y: int)
    requires TwoRoots(p, r, winner, loser) && 0 <= y < |p|
    ensures RankedForest(p[loser := winner], Promoted(r, winner, loser))
    ensures Root(p[loser := winner], Promoted(r, winner, loser), y)
         == if Root(p, r, y) == loser then winner else Root(p, r, y)
    decreases MaxRank(r) - r[y]
  {
    if p[y] != y {
      LinkMovesOneClass(p, r, winner, loser, p[y]);
    }
  }

  /** The winner's class absorbs the loser's; every other class is as it was. */
  lemma LinkMergesClasses(p: seq<int>, r: seq<int>, winner: int, loser: int)
    requires TwoRoots(p, r, winner, loser)
    ensures var p', r' := p[loser := winner], Promoted(r, winner, loser);
      && RankedForest(p', r')
      && Class(p', r', winner) == Class(p, r, winner) + Class(p, r, loser)
      && |Class(p', r', winner)| == |Class(p, r, winner)| + |Class(p, r, loser)|
      && forall x {:trigger Class(p', r', x)} :: x != winner && x != loser ==> Class(p', r', x) == Class(p, r, x)
  {
    hide Root, Promoted;
    var p', r' := p[loser := winner], Promoted(r, winner, loser);
    LinkMovesOneClass(p, r, winner, loser, winner);
    forall y | 0 <= y < |p|
      ensures Root(p', r', y) == if Root(p, r, y) == loser then winner else Root(p, r, y)
    {
      LinkMovesOneClass(p, r, winner, loser, y);
    }
    assert Class(p', r', winner) == Class(p, r, winner) + Class(p, r, loser);
    assert Class(p, r, winner) !! Class(p, r, loser);
  }

  lemma WinnerLargeEnough(won: nat, lost: nat, rw: nat, rl: nat, rank: nat)
    requires Pow2(rw) <= won && Pow2(rl) <= lost
    requires rank == if rw == rl then rw + 1 else rw
    ensures Pow2(rank) <= won + lost
  {
  }

  lemma LinkKeepsLargeEnough(p: seq<int>, r: seq<int>, winner: int, loser: int)
    requires TwoRoots(p, r, winner, loser) && LargeEnough(p, r)
    ensures RankedForest(p[loser := winner], Promoted(r, winner, loser))
    ensures LargeEnough(p[loser := winner], Promoted(r, winner, loser))
  {
    var p', r' := p[loser := winner], Promoted(r, winner, loser);
    LinkMergesClasses(p, r, winner, loser);
    var won, lost, both := |Class(p, r, winner)|, |Class(p, r, loser)|, |Class(p', r', winner)|;
    WinnerLargeEnough(won, lost, r[winner], r[loser], r'[winner]);
    assert both == won + lost;
    LargeEnoughAfter(p, r, p', r', winner, loser);
  }

  lemma LargeEnoughAfter(p: seq<int>, r: seq<int>, p': seq<int>, r': seq<int>, winner: int, loser: int)
    requires RankedForest(p, r) && LargeEnough(p, r) && RankedForest(p', r')
    requires 0 <= winner < |p| && 0 <= loser < |p| && winner != loser
    requires p' == p[loser := winner] && r' == r[winner := r'[winner]]
    requires 0 <= r'[winner] && Pow2(r'[winner]) <= |Class(p', r', winner)|
    requires forall x {:trigger Class(p', r', x)} :: x != winner && x != loser ==> Class(p', r', x) == Class(p, r, x)
    ensures LargeEnough(p', r')
  {
  }

  /** A rank bounds the logarithm of the number of nodes. */
  lemma RankIsLogarithmic(p: seq<int>, r: seq<int>, x: int)
    requires RankedForest(p, r) && LargeEnough(p, r) && 0 <= x < |p| && p[x] == x
    ensures Pow2(r[x]) <= |p|
  {
    SubsetSize(Class(p, r, x), NodesBelow(|p|));
  }

  /** The representative of every node. */
  ghost function Roots(p: seq<int>, r: seq<int>): (f: seq<int>)
    requires RankedForest(p, r)
    ensures |f| == |p| && forall x :: 0 <= x < |p| ==> f[x] == Root(p, r, x)
  {
    seq(|p|, x requires 0 <= x < |p| => Root(p, r, x))
  }

  /** f' is f with the classes of u and v, and no others, sent to root. */
  ghost predicate Merged(f: seq<int>, f': seq<int>, u: nat, v: nat, root: int) {
    && |f| == |f'| && u < |f| && v < |f|
    && (root == f[u] || root == f[v])
    && forall x {:trigger f'[x]} :: 0 <= x < |f| ==> f'[x] == if f[x] == f[u] || f[x] == f[v] then root else f[x]
  }

  // ---------- the structure itself ----------

  class DisjointSets {
    const parent: array<int>
    const rank: array<int>

    ghost predicate Valid()
      reads this, parent, rank
    {
      && parent != rank
      && RankedForest(parent[..], rank[..])
      && LargeEnough(parent[..], rank[..])
    }

    ghost function Classes(): seq<int>
      reads this, parent, rank
      requires Valid()
    {
      Roots(parent[..], rank[..])
    }

    /** Every node starts alone. */
    constructor (n: nat)
      ensures Valid() && fresh(parent) && fresh(rank) && parent.Length == n
      ensures forall x :: 0 <= x < n ==> Classes()[x] == x
    {
      parent := new int[n];
      rank := new int[n];
      new;
      for i := 0 to n
        invariant parent != rank && fresh(parent) && fresh(rank)
        invariant forall j :: 0 <= j < i ==> parent[j] == j && rank[j] == 0
      {
        parent[i] := i;
        rank[i] := 0;
      }
      ghost var p, r := parent[..], rank[..];
      forall x | 0 <= x < n
        ensures Pow2(r[x]) <= |Class(p, r, x)|
      {
        assert x in Class(p, r, x);
      }
    }

    /** Follows parents to the representative, halving the path on the way.  The ghost result
        counts the loop's iterations: at most the logarithm of the number of nodes. */
    method Find(x0: int) returns (x: int, ghost steps: nat)
      requires Valid() && 0 <= x0 < parent.Length
      modifies parent
      ensures Valid() && x == Classes()[x0] && parent[x] == x
      ensures Classes() == old(Classes())
      ensures Pow2(steps) <= parent.Length
    {
      x, steps := x0, 0;
      ghost var p0, r := parent[..], rank[..];
      assert 0 <= p0[x0];
      while parent[x] != x
        invariant 0 <= x < parent.Length && Valid() && rank[..] == r
        invariant RankedForest(p0, r) && SamePartition(p0, parent[..], r)
        invariant Root(p0, r, x) == Root(p0, r, x0)
        invariant steps <= r[x]
        decreases MaxRank(r) - r[x]
      {
        ghost var p := parent[..];
        HalvingKeepsPartition(p, r, x);
        parent[x] := parent[parent[x]];
        assert parent[..] == Halved(p, x);
        assert Root(parent[..], r, x) == Root(parent[..], r, parent[x]);
        x := parent[x];
        steps := steps + 1;
      }
      RankIsLogarithmic(parent[..], r, x);
      Pow2Monotone(steps, r[x]);
    }

    /** Merges the classes of x and y; false when they already were one class. */
    method Unite(x: nat, y: nat) returns (merged: bool, ghost root: int)
      requires Valid() && x < parent.Length && y < parent.Length
      modifies parent, rank
      ensures Valid()
      ensures merged <==> old(Classes()[x]) != old(Classes()[y])
      ensures Merged(old(Classes()), Classes(), x, y, root)
    {
      var px, steps := Find(x);
      var py, steps' := Find(y);
      if px == py {
        return false, px;
      }
      if rank[px] < rank[py] {
        px, py := py, px;
      }
      ghost var p, r := parent[..], rank[..];
      LinkKeepsLargeEnough(p, r, px, py);
      forall z | 0 <= z < parent.Length
        ensures Root(p[py := px], Promoted(r, px, py), z) == if Root(p, r, z) == py then px else Root(p, r, z)
      {
        LinkMovesOneClass(p, r, px, py, z);
      }
      parent[py] := px;
      if rank[px] == rank[py] {
        rank[px] := rank[px] + 1;
      }
      assert parent[..] == p[py := px] && rank[..] == Promoted(r, px, py);
      return true, px;
    }
  }
}
