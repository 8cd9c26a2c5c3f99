/** What the pool's order is after any run, and what follows for pools of other capacities. */
module Recency {
  import opened Disk
  import opened PoolModel
  import opened Sequences

  // ---------- key lists ----------

  function Dropping(ks: seq<int>, k: int): seq<int> {
    var i := IndexOf(ks, k);
    if i < |ks| then Without(ks, i) else ks
  }

  /** A list of capacity c after an access to k. */
  function Touch(ks: seq<int>, k: int, c: nat): seq<int> {
    Take([k] + Dropping(ks, k), c)
  }

  /** The distinct keys of a trace, the most recently accessed first. */
  function MostRecent(trace: seq<int>): seq<int> {
    if trace == [] then []
    else
      var n := |trace| - 1;
      [trace[n]] + Dropping(MostRecent(trace[..n]), trace[n])
  }

  /** The last position at which k is accessed, or -1. */
  function LastUse(trace: seq<int>, k: int): (i: int)
    ensures -1 <= i < |trace|
    ensures i >= 0 <==> k in trace
    ensures i >= 0 ==> trace[i] == k
    ensures forall j :: i < j < |trace| ==> trace[j] != k
  {
    if trace == [] then -1
    else
      var n := |trace| - 1;
      if trace[n] == k then n
      else
        var i := LastUse(trace[..n], k);
        assert trace == trace[..n] + [trace[n]];
        assert forall j :: 0 <= j < n ==> trace[..n][j] == trace[j];
        i
  }

  // ---------- what MostRecent means ----------

  lemma DroppingFacts(ks: seq<int>, k: int)
    requires NoDuplicates(ks)
    ensures NoDuplicates(Dropping(ks, k)) && k !in Dropping(ks, k)
    ensures forall x :: x in Dropping(ks, k) <==> x in ks && x != k
  {
    var i := IndexOf(ks, k);
    if i < |ks| {
      var t := Without(ks, i);
      forall x | x in ks && x != k
        ensures x in t
      {
        var j :| 0 <= j < |ks| && ks[j] == x;
        assert t[if j < i then j else j - 1] == x;
      }
    }
  }

  lemma DroppingIndex(ks: seq<int>, k: int, i: nat, j: nat) returns (a: nat, b: nat)
    requires i < j < |Dropping(ks, k)|
    ensures a < b < |ks| && Dropping(ks, k)[i] == ks[a] && Dropping(ks, k)[j] == ks[b]
  {
    var p := IndexOf(ks, k);
    a, b := i, j;
    if p < |ks| {
      WithoutAt(ks, p, i);
      WithoutAt(ks, p, j);
      a, b := if i < p then i else i + 1, if j < p then j else j + 1;
    }
  }

  /** x was last accessed after y. */
  ghost predicate Newer(trace: seq<int>, x: int, y: int) {
    LastUse(trace, x) > LastUse(trace, y)
  }

  ghost predicate NewestFirst(trace: seq<int>, m: seq<int>) {
    forall i, j :: 0 <= i < j < |m| ==> Newer(trace, m[i], m[j])
  }

  lemma LastUseStep(trace: seq<int>, k: int, x: int)
    requires trace != [] && trace[|trace| - 1] == k
    ensures LastUse(trace, x) == if x == k then |trace| - 1 else LastUse(trace[..|trace| - 1], x)
  {
  }

  lemma DroppingNewestFirst(trace: seq<int>, m: seq<int>, k: int)
    requires NewestFirst(trace, m)
    ensures NewestFirst(trace, Dropping(m, k))
  {
    var t := Dropping(m, k);
    forall i, j | 0 <= i < j < |t|
      ensures Newer(trace, t[i], t[j])
    {
      var a, b := DroppingIndex(m, k, i, j);
    }
  }

  lemma AccessNewestFirst(trace: seq<int>, t: seq<int>)
    requires trace != []
    requires NewestFirst(trace[..|trace| - 1], t) && trace[|trace| - 1] !in t
    ensures NewestFirst(trace, [trace[|trace| - 1]] + t)
  {
    var n := |trace| - 1;
    var k := trace[n];
    var m := [k] + t;
    forall i, j | 0 <= i < j < |m|
      ensures Newer(trace, m[i], m[j])
    {
      assert m[j] == t[j - 1] && m[j] in t;
      LastUseStep(trace, k, m[i]);
      LastUseStep(trace, k, m[j]);
      if i > 0 {
        assert m[i] == t[i - 1] && m[i] in t;
        assert Newer(trace[..n], t[i - 1], t[j - 1]);
      }
    }
  }

  /** MostRecent lists every accessed key once, in decreasing order of last access. */
  lemma {:induction false} MostRecentMeaning(trace: seq<int>)
    ensures NoDuplicates(MostRecent(trace)) && NewestFirst(trace, MostRecent(trace))
    ensures forall k :: k in MostRecent(trace) <==> k in trace
  {
    if trace != [] {
      var n := |trace| - 1;
      var init, k := trace[..n], trace[n];
      assert trace == init + [k];
      MostRecentMeaning(init);
      DroppingFacts(MostRecent(init), k);
      DroppingNewestFirst(init, MostRecent(init), k);
      AccessNewestFirst(trace, Dropping(MostRecent(init), k));
    }
  }

  // ---------- the recency list of a bounded pool ----------

  /** Forgetting all but the c most recent keys commutes with an access. */
  lemma TouchTaken(m: seq<int>, k: int, c: nat)
    requires c > 0
    ensures Touch(Take(m, c), k, c) == Take([k] + Dropping(m, k), c)
  {
    var i, t := IndexOf(m, k), Take(m, c);
    var j := IndexOf(t, k);
    if |m| > c {
      if i < c {
        assert t[i] == k;
        assert forall x :: 0 <= x < c ==> t[x] == m[x];
        assert ([k] + Without(t, i)) == ([k] + Without(m, i))[..c];
      } else {
        assert forall x :: 0 <= x < c ==> t[x] == m[x];
        assert ([k] + t)[..c] == ([k] + Dropping(m, k))[..c];
      }
    }
  }

  /** What a pool of capacity c holds after a trace: its c most recent distinct keys. */
  function Resident(trace: seq<int>, c: nat): seq<int> {
    Take(MostRecent(trace), c)
  }

  lemma ResidentStep(trace: seq<int>, k: int, c: nat)
    requires c > 0
    ensures Resident(trace + [k], c) == Touch(Resident(trace, c), k, c)
  {
    assert (trace + [k])[..|trace|] == trace;
    TouchTaken(MostRecent(trace), k, c);
  }

  /** A larger pool holds everything a smaller one does, in the same order. */
  lemma Inclusion(trace: seq<int>, c: nat, c': nat)
    requires c <= c'
    ensures Resident(trace, c) <= Resident(trace, c')
  {
  }

  /** How many accesses of a trace a pool of capacity c does not hold. */
  function Misses(trace: seq<int>, c: nat): nat {
    if trace == [] then 0
    else
      var n := |trace| - 1;
      Misses(trace[..n], c) + if trace[n] in Resident(trace[..n], c) then 0 else 1
  }

  /** Misses never rise with capacity. */
  lemma {:induction false} FewerMisses(trace: seq<int>, c: nat, c': nat)
    requires c <= c'
    ensures Misses(trace, c') <= Misses(trace, c)
  {
    if trace != [] {
      var n := |trace| - 1;
      FewerMisses(trace[..n], c, c');
      Inclusion(trace[..n], c, c');
    }
  }

  // ---------- the pool follows the key lists ----------

  lemma KeysOfMoved(p: Pool, i: nat)
    requires InRange(p) && i < |p.order|
    ensures var q := p.(order := [p.order[i]] + Without(p.order, i));
      InRange(q) && Keys(q) == [Keys(p)[i]] + Without(Keys(p), i)
  {
  }

  lemma MovedWellFormed(p: Pool, i: nat)
    requires WellFormed(p) && i < |p.order|
    ensures WellFormed(p.(order := [p.order[i]] + Without(p.order, i)))
  {
    KeysOfMoved(p, i);
    MovedKeepsDistinct(p.order, i);
    MovedKeepsDistinct(Keys(p), i);
  }

  /** Every fetch keeps the pool well formed and touches its key; it evicts exactly when the
      key is missing and no frame is free. */
  lemma FetchTouches(s: State, id: PageId)
    requires WellFormed(s.pool) && id.Valid()
    ensures var q := Fetch(s, id).pool;
      && WellFormed(q) && |q.frames| == |s.pool.frames|
      && Keys(q) == Touch(Keys(s.pool), id.Key(), |s.pool.frames|)
      && q.evictions + |q.order| == s.pool.evictions + |s.pool.order| + if id.Key() in Keys(s.pool) then 0 else 1
  {
    var p := s.pool;
    var i := IndexOf(Keys(p), id.Key());
    if i < |p.order| {
      FetchHit(s, id);
    } else if |p.free| > 0 {
      FetchFree(s, id);
    } else {
      FetchEvicting(s, id);
    }
  }

  lemma SameKeys(p: Pool, q: Pool)
    requires InRange(p) && InRange(q) && p.order == q.order && |p.frames| == |q.frames|
    requires forall f :: 0 <= f < |p.frames| ==> p.frames[f].id == q.frames[f].id
    ensures Keys(p) == Keys(q)
  {
  }

  /** A dirty mark finds the page that the last fetch returned, whatever was written into it since:
      fetch, edit and mark together are the update. */
  lemma MarkFindsFetched(s: State, id: PageId, edit: PageData -> PageData)
    requires WellFormed(s.pool) && id.Valid()
    ensures var m := Fetch(s, id);
      var e := EditFront(m, edit(m.pool.frames[m.pool.order[0]].page.data));
      && InRange(e.pool)
      && MarkDirty(e, id.table, id.pid) == Update(s, id, edit)
  {
    hide Fetch, NoDuplicates, Dropping;
    FetchTouches(s, id);
    var m := Fetch(s, id);
    var e := EditFront(m, edit(m.pool.frames[m.pool.order[0]].page.data));
    SameKeys(m.pool, e.pool);
    assert Keys(m.pool)[0] == id.Key();
  }

  ghost predicate Touched(p: Pool, q: Pool, k: int) {
    && WellFormed(p) && WellFormed(q) && |q.frames| == |p.frames|
    && Keys(q) == Touch(Keys(p), k, |p.frames|)
  }

  lemma FetchHit(s: State, id: PageId)
    requires WellFormed(s.pool) && id.Valid() && id.Key() in Keys(s.pool)
    ensures var q := Fetch(s, id).pool;
      Touched(s.pool, q, id.Key()) && |q.order| == |s.pool.order| && q.evictions == s.pool.evictions
  {
    var i := IndexOf(Keys(s.pool), id.Key());
    KeysOfMoved(s.pool, i);
    MovedWellFormed(s.pool, i);
  }

  /** Taking the top free frame for a page whose key is not held. */
  function TakeFree(s: State, id: PageId): State
    requires InRange(s.pool) && |s.pool.free| > 0 && id.Valid()
  {
    var n := |s.pool.free| - 1;
    Install(s.(pool := s.pool.(free := s.pool.free[..n])), s.pool.free[n], id)
  }

  lemma TakeFreeTouches(s: State, id: PageId)
    requires WellFormed(s.pool) && id.Valid() && id.Key() !in Keys(s.pool) && |s.pool.free| > 0
    ensures var q := TakeFree(s, id).pool;
      && WellFormed(q) && |q.frames| == |s.pool.frames| && |q.order| == |s.pool.order| + 1
      && Keys(q) == [id.Key()] + Keys(s.pool) && q.evictions == s.pool.evictions
  {
    var q := TakeFree(s, id).pool;
    assert Keys(q) == [id.Key()] + Keys(s.pool);
  }

  lemma FetchFree(s: State, id: PageId)
    requires WellFormed(s.pool) && id.Valid() && id.Key() !in Keys(s.pool) && |s.pool.free| > 0
    ensures var q := Fetch(s, id).pool;
      Touched(s.pool, q, id.Key()) && |q.order| == |s.pool.order| + 1 && q.evictions == s.pool.evictions
  {
    TakeFreeTouches(s, id);
  }

  /** The state after an eviction, with the evicted frame on the free stack. */
  function Freed(s: State): State
    requires WellFormed(s.pool) && |s.pool.free| == 0
  {
    var e := Evict(s);
    e.(pool := e.pool.(free := [s.pool.order[|s.pool.order| - 1]]))
  }

  lemma FreedWellFormed(s: State)
    requires WellFormed(s.pool) && |s.pool.free| == 0
    ensures var q := Freed(s).pool;
      && WellFormed(q) && |q.frames| == |s.pool.frames| && |q.order| == |s.pool.order| - 1
      && Keys(q) == Keys(s.pool)[..|s.pool.order| - 1] && q.evictions == s.pool.evictions + 1
  {
  }

  /** An evicting fetch is an eviction followed by a fetch into the freed frame. */
  lemma EvictingFetch(s: State, id: PageId)
    requires WellFormed(s.pool) && id.Valid() && id.Key() !in Keys(s.pool) && |s.pool.free| == 0
    ensures InRange(Freed(s).pool) && Fetch(s, id) == TakeFree(Freed(s), id)
  {
    var t := TakeFree(Freed(s), id);
    assert Fetch(s, id).pool.free == t.pool.free;
  }

  lemma FetchEvicting(s: State, id: PageId)
    requires WellFormed(s.pool) && id.Valid() && id.Key() !in Keys(s.pool) && |s.pool.free| == 0
    ensures var q := Fetch(s, id).pool;
      Touched(s.pool, q, id.Key()) && |q.order| == |s.pool.order| && q.evictions == s.pool.evictions + 1
  {
    EvictingFetch(s, id);
    FreedWellFormed(s);
    TakeFreeTouches(Freed(s), id);
  }
}
