/** Whole runs of the buffer pool: its order, its evictions, and its agreement with a store
    that has no cache. */
module PoolRuns {
  import opened Disk
  import opened PoolModel
  import opened Sequences
  import opened Recency

  /** What a caller can do. */
  datatype Step =
    | Access(id: PageId)
    | Edit(id: PageId, edit: PageData -> PageData)
    | Mark(table: int, pid: nat)
    | FlushTables(scope: Scope)
  {
    predicate Valid() {
      Access? || Edit? ==> id.Valid()
    }
  }

  function Initial(capacity: nat, files: Files): State {
    State(Pool(seq(capacity, _ => Frame(PageId("", 0, 0), BLANK)), [],
               seq(capacity, i requires 0 <= i < capacity => capacity - 1 - i), 0), files)
  }

  lemma InitialWellFormed(capacity: nat, files: Files)
    requires capacity > 0
    ensures WellFormed(Initial(capacity, files).pool) && Keys(Initial(capacity, files).pool) == []
  {
  }

  function After(s: State, step: Step): State
    requires WellFormed(s.pool) && step.Valid()
  {
    match step
    case Access(id) => Fetch(s, id)
    case Edit(id, edit) => Update(s, id, edit)
    case Mark(table, pid) => MarkDirty(s, table, pid)
    case FlushTables(scope) => Flush(s, scope)
  }

  // ---------- what changes no order ----------

  /** q differs from p only in the dirty flags and bytes of its pages. */
  ghost predicate SameShape(p: Pool, q: Pool) {
    && q.order == p.order && q.free == p.free && q.evictions == p.evictions && |q.frames| == |p.frames|
    && forall f :: 0 <= f < |p.frames| ==>
         && q.frames[f].id == p.frames[f].id
         && q.frames[f].page.isValid == p.frames[f].page.isValid
         && q.frames[f].page.pageId == p.frames[f].page.pageId
  }

  lemma SameShapeKeeps(p: Pool, q: Pool)
    requires WellFormed(p) && SameShape(p, q)
    ensures WellFormed(q) && Keys(q) == Keys(p)
  {
  }

  lemma {:induction false} FlushShape(s: State, n: nat, scope: Scope)
    requires n <= |s.pool.frames|
    ensures SameShape(s.pool, FlushUpTo(s, n, scope).pool)
  {
    if n > 0 {
      FlushShape(s, n - 1, scope);
    }
  }

  /** The key a step accesses, if any. */
  function Accessed(step: Step): seq<int> {
    if step.Access? || step.Edit? then [step.id.Key()] else []
  }

  function Trace(steps: seq<Step>): seq<int> {
    if steps == [] then [] else Trace(steps[..|steps| - 1]) + Accessed(steps[|steps| - 1])
  }

  lemma EditShape(s: State, id: PageId, edit: PageData -> PageData)
    requires WellFormed(s.pool) && id.Valid()
    ensures SameShape(Fetch(s, id).pool, Update(s, id, edit).pool)
  {
  }

  lemma MarkShape(s: State, table: int, pid: nat)
    requires WellFormed(s.pool)
    ensures SameShape(s.pool, MarkDirty(s, table, pid).pool)
  {
  }

  /** A step accesses its key, or changes nothing but flags and bytes. */
  lemma StepTouches(s: State, step: Step)
    requires WellFormed(s.pool) && step.Valid()
    ensures var q := After(s, step).pool;
      && WellFormed(q) && |q.frames| == |s.pool.frames|
      && if step.Access? || step.Edit? then
           && Keys(q) == Touch(Keys(s.pool), step.id.Key(), |s.pool.frames|)
           && q.evictions + |q.order| ==
              s.pool.evictions + |s.pool.order| + (if step.id.Key() in Keys(s.pool) then 0 else 1)
         else
           Keys(q) == Keys(s.pool) && q.evictions == s.pool.evictions
  {
    if step.Access? {
      FetchTouches(s, step.id);
    } else if step.Edit? {
      FetchTouches(s, step.id);
      EditShape(s, step.id, step.edit);
      SameShapeKeeps(Fetch(s, step.id).pool, After(s, step).pool);
    } else {
      QuietStep(s, step);
    }
  }

  lemma QuietStep(s: State, step: Step)
    requires WellFormed(s.pool) && step.Valid() && (step.Mark? || step.FlushTables?)
    ensures var q := After(s, step).pool;
      WellFormed(q) && |q.frames| == |s.pool.frames| && Keys(q) == Keys(s.pool) && q.evictions == s.pool.evictions
  {
    if step.Mark? {
      MarkShape(s, step.table, step.pid);
    } else {
      FlushShape(s, |s.pool.frames|, step.scope);
    }
    SameShapeKeeps(s.pool, After(s, step).pool);
  }

  ghost predicate AllValid(steps: seq<Step>) {
    forall i :: 0 <= i < |steps| ==> steps[i].Valid()
  }

  /** The state after a run from an empty pool: well formed throughout. */
  function Run(capacity: nat, files: Files, steps: seq<Step>): (s: State)
    requires capacity > 0 && AllValid(steps)
    ensures WellFormed(s.pool) && |s.pool.frames| == capacity
  {
    if steps == [] then
      InitialWellFormed(capacity, files);
      Initial(capacity, files)
    else
      var n := |steps| - 1;
      var s := Run(capacity, files, steps[..n]);
      StepTouches(s, steps[n]);
      After(s, steps[n])
  }

  // ---------- recency over runs ----------

  lemma NothingResident(c: nat)
    ensures Resident([], c) == []
  {
  }

  /** After any run the pool holds, newest first, exactly the most recently accessed distinct
      pages that fit, and it has evicted once for every miss beyond the frames in use. */
  lemma {:induction false} RunIsRecency(capacity: nat, files: Files, steps: seq<Step>)
    requires capacity > 0 && AllValid(steps)
    ensures var p := Run(capacity, files, steps).pool;
      && Keys(p) == Resident(Trace(steps), capacity)
      && p.evictions + |p.order| == Misses(Trace(steps), capacity)
  {
    hide WellFormed, Resident, Touch, After;
    if steps == [] {
      NothingResident(capacity);
    } else {
      var n := |steps| - 1;
      RunIsRecency(capacity, files, steps[..n]);
      StepTouches(Run(capacity, files, steps[..n]), steps[n]);
      var t := Trace(steps[..n]);
      if steps[n].Access? || steps[n].Edit? {
        var k := steps[n].id.Key();
        ResidentStep(t, k, capacity);
        assert (t + [k])[..|t|] == t;
      } else {
        assert Trace(steps) == t;
      }
    }
  }

  /** An access leaves every key in a list that has room or holds the accessed key, and every key
      but the last in any list. */
  lemma TouchKeeps(ks: seq<int>, k: int, c: nat, v: int)
    requires NoDuplicates(ks) && |ks| <= c && v in ks
    requires k in ks || |ks| < c || v != ks[|ks| - 1]
    ensures v in Touch(ks, k, c)
  {
    DroppingFacts(ks, k);
    var rest, t := Dropping(ks, k), Touch(ks, k, c);
    if v == k {
      assert t[0] == v;
    } else {
      var j :| 0 <= j < |rest| && rest[j] == v;
      assert t[j + 1] == v;
    }
  }

  /** So it takes only the last key out, and only of a full list without the accessed key. */
  lemma TouchLoses(ks: seq<int>, k: int, c: nat, v: int)
    requires NoDuplicates(ks) && |ks| <= c && v in ks && v !in Touch(ks, k, c)
    ensures k !in ks && |ks| == c && v == ks[|ks| - 1]
  {
    if k in ks || |ks| < c || v != ks[|ks| - 1] {
      TouchKeeps(ks, k, c, v);
    }
  }

  lemma LastIsOldest(trace: seq<int>, ks: seq<int>, k: int)
    requires NewestFirst(trace, ks) && k in ks && k != ks[|ks| - 1]
    ensures Newer(trace, k, ks[|ks| - 1])
  {
    var i :| 0 <= i < |ks| && ks[i] == k;
  }

  lemma RunIsNewestFirst(capacity: nat, files: Files, steps: seq<Step>)
    requires capacity > 0 && AllValid(steps)
    ensures NewestFirst(Trace(steps), Keys(Run(capacity, files, steps).pool))
  {
    RunIsRecency(capacity, files, steps);
    ResidentNewestFirst(Trace(steps), capacity);
  }

  /** The number of keys is the number of frames less the free ones. */
  lemma KeysCount(p: Pool)
    requires WellFormed(p)
    ensures InRange(p) && NoDuplicates(Keys(p)) && |Keys(p)| + |p.free| == |p.frames|
  {
  }

  /** A fetch pushes a page out only on a miss with no frame free, and then the last of the order. */
  lemma VictimOnlyWhenFull(capacity: nat, files: Files, steps: seq<Step>, id: PageId, v: int)
    requires capacity > 0 && AllValid(steps) && id.Valid()
    requires var s := Run(capacity, files, steps);
      WellFormed(Fetch(s, id).pool) && v in Keys(s.pool) && v !in Keys(Fetch(s, id).pool)
    ensures var s := Run(capacity, files, steps);
      && |s.pool.free| == 0 && id.Key() !in Keys(s.pool)
      && |Keys(s.pool)| == capacity && v == Keys(s.pool)[capacity - 1]
  {
    hide Touch, Run, Fetch, Keys, WellFormed, NoDuplicates;
    var s := Run(capacity, files, steps);
    FetchTouches(s, id);
    KeysCount(s.pool);
    TouchLoses(Keys(s.pool), id.Key(), capacity, v);
  }

  /** It is the page fetched longest ago: every other page held is newer, and stays. */
  lemma VictimIsOldest(capacity: nat, files: Files, steps: seq<Step>, id: PageId, v: int, k: int)
    requires capacity > 0 && AllValid(steps) && id.Valid()
    requires var s := Run(capacity, files, steps);
      && WellFormed(Fetch(s, id).pool)
      && v in Keys(s.pool) && v !in Keys(Fetch(s, id).pool) && k in Keys(s.pool) && k != v
    ensures var s := Run(capacity, files, steps);
      Newer(Trace(steps), k, v) && k in Keys(Fetch(s, id).pool)
  {
    hide Touch, Run, Fetch, Keys, WellFormed, Trace, NewestFirst, Newer, NoDuplicates;
    var s := Run(capacity, files, steps);
    FetchTouches(s, id);
    KeysCount(s.pool);
    VictimOnlyWhenFull(capacity, files, steps, id, v);
    TouchKeeps(Keys(s.pool), id.Key(), capacity, k);
    RunIsNewestFirst(capacity, files, steps);
    LastIsOldest(Trace(steps), Keys(s.pool), k);
  }

  lemma ResidentNewestFirst(trace: seq<int>, c: nat)
    ensures NewestFirst(trace, Resident(trace, c))
  {
    MostRecentMeaning(trace);
    var m, t := MostRecent(trace), Resident(trace, c);
    forall i, j | 0 <= i < j < |t|
      ensures Newer(trace, t[i], t[j])
    {
      assert t[i] == m[i] && t[j] == m[j];
    }
  }

  /** A larger pool over the same run holds every page a smaller one holds, misses no more
      often and evicts no more often; the files underneath do not matter. */
  lemma LargerPoolIsNoWorse(c: nat, c': nat, files: Files, files': Files, steps: seq<Step>)
    requires 0 < c <= c' && AllValid(steps)
    ensures var p, p' := Run(c, files, steps).pool, Run(c', files', steps).pool;
      Keys(p) <= Keys(p') && p'.evictions <= p.evictions
    ensures Misses(Trace(steps), c') <= Misses(Trace(steps), c)
  {
    RunIsRecency(c, files, steps);
    RunIsRecency(c', files', steps);
    Inclusion(Trace(steps), c, c');
    FewerMisses(Trace(steps), c, c');
  }
}
