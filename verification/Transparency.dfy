/** The cache is transparent: what callers see through the pool is what they would see in a
    store without one, and a flush makes it durable. */
module Transparency {
  import opened Disk
  import opened PoolModel
  import opened Sequences
  import opened Recency
  import opened PoolRuns

  /** Pages a run may name: no two share a key or a place on disk. */
  ghost predicate Coherent(u: set<PageId>) {
    && (forall a :: a in u ==> a.Valid())
    && (forall a, b :: a in u && b in u && (a.Key() == b.Key() || (a.file == b.file && a.pid == b.pid)) ==> a == b)
  }

  ghost predicate Holds(p: Pool, f: nat, id: PageId)
    requires InRange(p)
  {
    f in p.order && p.frames[f].id == id
  }

  /** The bytes a fetch of id would show. */
  function Content(s: State, id: PageId): PageData
    requires InRange(s.pool) && id.Valid()
  {
    var i := IndexOf(Keys(s.pool), id.Key());
    if i < |s.pool.order| then s.pool.frames[s.pool.order[i]].page.data
    else ReadPage(s.files, id.file, id.pid)
  }

  /** Occupied frames hold pages of u; a clean one agrees with its place on disk. */
  ghost predicate Consistent(s: State, u: set<PageId>) {
    && WellFormed(s.pool) && Coherent(u)
    && forall f {:trigger f in s.pool.order} :: f in s.pool.order ==> Backed(s, f, u)
  }

  ghost predicate Backed(s: State, f: nat, u: set<PageId>)
    requires InRange(s.pool) && f in s.pool.order
  {
    var frame := s.pool.frames[f];
    && frame.id in u && frame.id.Valid() && frame.page.pageId == frame.id.pid
    && (!frame.page.isDirty ==> Body(frame.page.data) == Body(ReadPage(s.files, frame.id.file, frame.id.pid)))
  }

  /** A fetch of a held page shows its frame. */
  lemma ContentHeld(s: State, u: set<PageId>, f: nat, id: PageId)
    requires Consistent(s, u) && Holds(s.pool, f, id)
    ensures id.Valid() && Content(s, id) == s.pool.frames[f].page.data
  {
    var i :| 0 <= i < |s.pool.order| && s.pool.order[i] == f;
    assert Backed(s, f, u);
    assert Keys(s.pool)[i] == id.Key();
  }

  /** Under a page's key nothing but that page is held. */
  lemma KeyNamesPage(s: State, u: set<PageId>, i: nat, id: PageId)
    requires Consistent(s, u) && id in u && i < |s.pool.order| && Keys(s.pool)[i] == id.Key()
    ensures s.pool.order[i] in s.pool.order && s.pool.frames[s.pool.order[i]].id == id
  {
    var f := s.pool.order[i];
    assert f in s.pool.order && Backed(s, f, u);
  }

  /** A fetch of any other page of u shows the disk. */
  lemma ContentAbsent(s: State, u: set<PageId>, id: PageId)
    requires Consistent(s, u) && id in u && forall f :: f in s.pool.order ==> s.pool.frames[f].id != id
    ensures Content(s, id) == ReadPage(s.files, id.file, id.pid)
  {
    var i := IndexOf(Keys(s.pool), id.Key());
    if i < |s.pool.order| {
      KeyNamesPage(s, u, i, id);
    }
  }

  ghost predicate SameView(s: State, t: State, u: set<PageId>)
    requires InRange(s.pool) && InRange(t.pool) && Coherent(u)
  {
    forall id {:trigger Content(t, id)} :: id in u ==> Body(Content(t, id)) == Body(Content(s, id))
  }

  // ---------- each internal action keeps the view ----------

  lemma MovedKeepsView(s: State, u: set<PageId>, i: nat)
    requires Consistent(s, u) && i < |s.pool.order|
    ensures var t := s.(pool := s.pool.(order := [s.pool.order[i]] + Without(s.pool.order, i)));
      Consistent(t, u) && SameView(s, t, u)
  {
    var t := s.(pool := s.pool.(order := [s.pool.order[i]] + Without(s.pool.order, i)));
    MovedWellFormed(s.pool, i);
    MovedKeepsDistinct(s.pool.order, i);
    forall f | f in t.pool.order
      ensures Backed(t, f, u)
    {
      assert Backed(s, f, u);
    }
    forall id | id in u
      ensures Content(t, id) == Content(s, id)
    {
      if f :| f in s.pool.order && s.pool.frames[f].id == id {
        ContentHeld(s, u, f, id);
        ContentHeld(t, u, f, id);
      } else {
        ContentAbsent(s, u, id);
        ContentAbsent(t, u, id);
      }
    }
  }

  lemma TakeFreeKeepsView(s: State, u: set<PageId>, id: PageId)
    requires Consistent(s, u) && id in u && id.Key() !in Keys(s.pool) && |s.pool.free| > 0
    ensures var t := TakeFree(s, id);
      Consistent(t, u) && SameView(s, t, u) && t.pool.frames[t.pool.order[0]].id == id
  {
    var t := TakeFree(s, id);
    TakeFreeTouches(s, id);
    var g := t.pool.order[0];
    assert g !in s.pool.order;
    forall f | f in t.pool.order
      ensures Backed(t, f, u)
    {
      assert f != g ==> f in s.pool.order && Backed(s, f, u);
    }
    forall x | x in u
      ensures Content(t, x) == Content(s, x)
    {
      if f :| f in s.pool.order && s.pool.frames[f].id == x {
        ContentHeld(s, u, f, x);
        assert f in t.pool.order;
        ContentHeld(t, u, f, x);
      } else {
        ContentAbsent(s, u, x);
        if x == id {
          ContentHeld(t, u, g, x);
        } else {
          ContentAbsent(t, u, x);
        }
      }
    }
  }

  /** Writing a held page to disk changes no other page's records there. */
  lemma WriteBack(s: State, u: set<PageId>, f: nat, id: PageId)
    requires Consistent(s, u) && f in s.pool.order && id in u
    requires s.pool.frames[f].page.pageId >= 0
    ensures var frame := s.pool.frames[f];
      var files' := WritePage(s.files, frame.id.file, frame.page.pageId, frame.page.data);
      if id == frame.id then ReadPage(files', id.file, id.pid) == frame.page.data
      else Body(ReadPage(files', id.file, id.pid)) == Body(ReadPage(s.files, id.file, id.pid))
  {
    var frame := s.pool.frames[f];
    assert Backed(s, f, u);
    WriteIsLocal(s.files, frame.id.file, frame.page.pageId, frame.page.data, id.file, id.pid);
  }

  lemma FreedIsConsistent(s: State, u: set<PageId>)
    requires Consistent(s, u) && |s.pool.free| == 0
    ensures Consistent(Freed(s), u)
  {
    var t := Freed(s);
    FreedWellFormed(s);
    var g := s.pool.order[|s.pool.order| - 1];
    assert g in s.pool.order && Backed(s, g, u);
    assert g !in t.pool.order;
    forall f | f in t.pool.order
      ensures Backed(t, f, u)
    {
      assert f in s.pool.order && Backed(s, f, u);
      WriteBack(s, u, g, s.pool.frames[f].id);
      FramesDiffer(s, u, f, g);
    }
  }

  lemma FreedParts(s: State)
    requires WellFormed(s.pool) && |s.pool.free| == 0
    ensures var n := |s.pool.order| - 1; n >= 0 && var g := s.pool.order[n]; var frame := s.pool.frames[g];
      && Freed(s).pool.order == s.pool.order[..n]
      && Freed(s).pool.frames == s.pool.frames[g := frame.(page := BLANK)]
      && Freed(s).files == (if frame.page.isDirty then
           WritePage(s.files, frame.id.file, frame.page.pageId, frame.page.data) else s.files)
  {
  }

  /** The page that leaves is read back from where it was written, or from where it still is. */
  lemma FreedPage(s: State, u: set<PageId>)
    requires Consistent(s, u) && |s.pool.free| == 0 && Consistent(Freed(s), u)
    ensures var n := |s.pool.order| - 1; n >= 0 && var x := s.pool.frames[s.pool.order[n]].id;
      x.Valid() && Body(Content(Freed(s), x)) == Body(Content(s, x))
  {
    var g := s.pool.order[|s.pool.order| - 1];
    assert g in s.pool.order && Backed(s, g, u);
    var x := s.pool.frames[g].id;
    FreedParts(s);
    ContentHeld(s, u, g, x);
    LastIsFreed(s, u, x);
    ContentAbsent(Freed(s), u, x);
    hide Freed, Body, Content, WritePage, ReadPage, WellFormed;
    WriteBack(s, u, g, x);
  }

  lemma FreedContent(s: State, u: set<PageId>, x: PageId)
    requires Consistent(s, u) && |s.pool.free| == 0 && x in u && Consistent(Freed(s), u)
    ensures Body(Content(Freed(s), x)) == Body(Content(s, x))
  {
    hide Freed, Body, Content, WritePage, ReadPage;
    var t := Freed(s);
    FreedParts(s);
    var g := s.pool.order[|s.pool.order| - 1];
    assert g in s.pool.order && Backed(s, g, u);
    WriteBack(s, u, g, x);
    if f :| f in s.pool.order && s.pool.frames[f].id == x {
      if f == g {
        FreedPage(s, u);
      } else {
        StaysOrdered(s.pool.order, f);
        ContentHeld(s, u, f, x);
        ContentHeld(t, u, f, x);
      }
    } else {
      ContentAbsent(s, u, x);
      ContentAbsent(t, u, x);
    }
  }

  lemma StaysOrdered(order: seq<nat>, f: nat)
    requires order != [] && f in order && f != order[|order| - 1]
    ensures f in order[..|order| - 1]
  {
  }

  lemma LastIsFreed(s: State, u: set<PageId>, x: PageId)
    requires Consistent(s, u) && |s.pool.free| == 0 && WellFormed(Freed(s).pool)
    requires s.pool.frames[s.pool.order[|s.pool.order| - 1]].id == x
    ensures forall h :: h in Freed(s).pool.order ==> Freed(s).pool.frames[h].id != x
  {
    var t, g := Freed(s), s.pool.order[|s.pool.order| - 1];
    assert g !in t.pool.order;
    forall h | h in t.pool.order
      ensures t.pool.frames[h].id != x
    {
      FramesDiffer(s, u, h, g);
    }
  }

  lemma FreedKeepsView(s: State, u: set<PageId>)
    requires Consistent(s, u) && |s.pool.free| == 0
    ensures var t := Freed(s); Consistent(t, u) && SameView(s, t, u)
  {
    FreedIsConsistent(s, u);
    forall x | x in u
      ensures Body(Content(Freed(s), x)) == Body(Content(s, x))
    {
      FreedContent(s, u, x);
    }
  }

  /** Two occupied frames never hold the same page. */
  lemma FramesDiffer(s: State, u: set<PageId>, f: nat, g: nat)
    requires Consistent(s, u) && f in s.pool.order && g in s.pool.order && f != g
    ensures s.pool.frames[f].id != s.pool.frames[g].id
  {
    var i :| 0 <= i < |s.pool.order| && s.pool.order[i] == f;
    var j :| 0 <= j < |s.pool.order| && s.pool.order[j] == g;
    assert Keys(s.pool)[i] != Keys(s.pool)[j];
  }

  /** A fetch shows its page at the front and changes nothing anyone can see. */
  lemma FetchKeepsView(s: State, u: set<PageId>, id: PageId)
    requires Consistent(s, u) && id in u
    ensures var t := Fetch(s, id);
      Consistent(t, u) && SameView(s, t, u) && t.pool.frames[t.pool.order[0]].id == id
  {
    var i := IndexOf(Keys(s.pool), id.Key());
    if i < |s.pool.order| {
      MovedKeepsView(s, u, i);
      assert s.pool.order[i] in s.pool.order && Backed(s, s.pool.order[i], u);
    } else if |s.pool.free| > 0 {
      TakeFreeKeepsView(s, u, id);
    } else {
      FreedKeepsView(s, u);
      FreedWellFormed(s);
      EvictingFetch(s, id);
      TakeFreeKeepsView(Freed(s), u, id);
    }
  }

  /** Replacing the page in one occupied frame by a dirty one changes that page's view only. */
  lemma SetPageShape(s: State, u: set<PageId>, g: nat, page: Page)
    requires Consistent(s, u) && g in s.pool.order && page.isDirty
    requires page.isValid && page.pageId == s.pool.frames[g].page.pageId
    ensures Consistent(s.(pool := SetPage(s.pool, g, page)), u)
  {
    var t := s.(pool := SetPage(s.pool, g, page));
    SameShapeKeeps(s.pool, t.pool);
    forall f | f in t.pool.order
      ensures Backed(t, f, u)
    {
      assert Backed(s, f, u);
    }
  }

  lemma SetPageView(s: State, u: set<PageId>, g: nat, data: PageData)
    requires Consistent(s, u) && g in s.pool.order
    ensures var page := s.pool.frames[g].page.(data := data, isDirty := true);
      var t := s.(pool := SetPage(s.pool, g, page));
      && Consistent(t, u)
      && forall id :: id in u ==> Content(t, id) == if id == s.pool.frames[g].id then data else Content(s, id)
  {
    var page := s.pool.frames[g].page.(data := data, isDirty := true);
    var t := s.(pool := SetPage(s.pool, g, page));
    SetPageShape(s, u, g, page);
    hide WellFormed, Backed, Coherent;
    forall x | x in u
      ensures Content(t, x) == if x == s.pool.frames[g].id then data else Content(s, x)
    {
      if f :| f in s.pool.order && s.pool.frames[f].id == x {
        ContentHeld(s, u, f, x);
        ContentHeld(t, u, f, x);
        if f != g {
          FramesDiffer(s, u, f, g);
        }
      } else {
        ContentAbsent(s, u, x);
        ContentAbsent(t, u, x);
      }
    }
  }

  /** Writing one frame back changes nothing anyone can see. */
  lemma FlushFrameKeepsView(s: State, u: set<PageId>, g: nat, scope: Scope)
    requires Consistent(s, u) && g < |s.pool.frames|
    ensures var t := FlushFrame(s, g, scope); Consistent(t, u) && SameView(s, t, u)
  {
    if scope.Takes(s.pool.frames[g]) {
      ValidIsOccupied(s.pool, g);
      WriteBackKeepsView(s, u, g, scope);
    }
  }

  lemma ValidIsOccupied(p: Pool, g: nat)
    requires WellFormed(p) && g < |p.frames| && p.frames[g].page.isValid
    ensures g in p.order
  {
    Partition(p, g);
  }

  /** Every frame is occupied or free. */
  lemma Partition(p: Pool, g: nat)
    requires WellFormed(p) && g < |p.frames|
    ensures g in p.order <==> g !in p.free
  {
    DistinctCount(p.order);
    DistinctCount(p.free);
    var occupied, free := set f | f in p.order, set f | f in p.free;
    assert occupied !! free;
    Filled(occupied + free, |p.frames|);
    assert g in occupied + free;
  }

  /** n distinct numbers below n are all of them. */
  lemma {:induction false} Filled(all: set<nat>, n: nat)
    requires |all| == n && forall f :: f in all ==> f < n
    ensures forall f: nat :: f < n ==> f in all
  {
    forall f: nat | f < n && f !in all
      ensures false
    {
      Bounded(all + {f}, n);
    }
  }

  lemma {:induction false} Bounded(all: set<nat>, n: nat)
    requires forall f :: f in all ==> f < n
    ensures |all| <= n
  {
    if n == 0 {
      assert all == {};
    } else {
      Bounded(all - {n - 1}, n - 1);
    }
  }

  lemma WriteBackConsistent(s: State, u: set<PageId>, g: nat, scope: Scope)
    requires Consistent(s, u) && g in s.pool.order && scope.Takes(s.pool.frames[g])
    ensures Consistent(FlushFrame(s, g, scope), u)
  {
    hide Body, WritePage, ReadPage;
    var t := FlushFrame(s, g, scope);
    assert Backed(s, g, u);
    SameShapeKeeps(s.pool, t.pool);
    forall f | f in t.pool.order
      ensures Backed(t, f, u)
    {
      assert Backed(s, f, u);
      WriteBack(s, u, g, s.pool.frames[f].id);
      if f != g {
        FramesDiffer(s, u, f, g);
      }
    }
  }

  lemma WriteBackContent(s: State, u: set<PageId>, g: nat, scope: Scope, x: PageId)
    requires Consistent(s, u) && g in s.pool.order && scope.Takes(s.pool.frames[g]) && x in u
    requires Consistent(FlushFrame(s, g, scope), u)
    ensures Body(Content(FlushFrame(s, g, scope), x)) == Body(Content(s, x))
  {
    hide Body, Content, WritePage, ReadPage;
    var t := FlushFrame(s, g, scope);
    assert Backed(s, g, u);
    WriteBack(s, u, g, x);
    if f :| f in s.pool.order && s.pool.frames[f].id == x {
      ContentHeld(s, u, f, x);
      ContentHeld(t, u, f, x);
    } else {
      ContentAbsent(s, u, x);
      ContentAbsent(t, u, x);
    }
  }

  lemma WriteBackKeepsView(s: State, u: set<PageId>, g: nat, scope: Scope)
    requires Consistent(s, u) && g in s.pool.order && scope.Takes(s.pool.frames[g])
    ensures var t := FlushFrame(s, g, scope); Consistent(t, u) && SameView(s, t, u)
  {
    WriteBackConsistent(s, u, g, scope);
    forall x | x in u
      ensures Body(Content(FlushFrame(s, g, scope), x)) == Body(Content(s, x))
    {
      WriteBackContent(s, u, g, scope, x);
    }
  }

  // ---------- runs ----------

  /** The bytes of every page in a store without a cache. */
  type View = PageId -> PageData

  function DiskView(files: Files): View {
    (id: PageId) => if id.Valid() then ReadPage(files, id.file, id.pid) else Zeros()
  }

  /** What a step does to the store: an edit changes its page, nothing else changes anything. */
  function ViewAfter(view: View, step: Step): View {
    if step.Edit? then (id: PageId) => if id == step.id then step.edit(view(id)) else view(id)
    else view
  }

  function Views(files: Files, steps: seq<Step>): View {
    if steps == [] then DiskView(files)
    else ViewAfter(Views(files, steps[..|steps| - 1]), steps[|steps| - 1])
  }

  /** The edit changes the records as a function of the records. */
  ghost predicate RespectsBody(edit: PageData -> PageData) {
    forall a: PageData, b: PageData :: Body(a) == Body(b) ==> Body(edit(a)) == Body(edit(b))
  }

  ghost predicate Within(step: Step, u: set<PageId>) {
    && step.Valid()
    && (step.Access? || step.Edit? ==> step.id in u)
    && (step.Edit? ==> RespectsBody(step.edit))
  }

  ghost predicate AllWithin(steps: seq<Step>, u: set<PageId>) {
    forall i :: 0 <= i < |steps| ==> Within(steps[i], u)
  }

  /** Fetching any page of u shows the records the store has. */
  ghost predicate Agrees(s: State, view: View, u: set<PageId>)
    requires InRange(s.pool) && Coherent(u)
  {
    forall id {:trigger Content(s, id)} :: id in u ==> Body(Content(s, id)) == Body(view(id))
  }

  /** A flush that has kept the view so far keeps it over one more frame. */
  lemma FlushOneMore(s: State, m: State, u: set<PageId>, g: nat, scope: Scope)
    requires InRange(s.pool) && Consistent(m, u) && SameView(s, m, u) && g < |m.pool.frames|
    ensures var t := FlushFrame(m, g, scope); Consistent(t, u) && SameView(s, t, u)
  {
    FlushFrameKeepsView(m, u, g, scope);
    var t := FlushFrame(m, g, scope);
    forall id | id in u
      ensures Body(Content(t, id)) == Body(Content(s, id))
    {
      assert Body(Content(m, id)) == Body(Content(s, id));
    }
  }

  ghost predicate KeptView(s: State, t: State, u: set<PageId>) {
    InRange(s.pool) && Consistent(t, u) && SameView(s, t, u)
  }

  lemma KeptAtFirst(s: State, u: set<PageId>)
    requires Consistent(s, u)
    ensures KeptView(s, s, u)
  {
  }

  lemma {:induction false} FlushKeepsView(s: State, u: set<PageId>, n: nat, scope: Scope)
    requires Consistent(s, u) && n <= |s.pool.frames|
    ensures KeptView(s, FlushUpTo(s, n, scope), u)
    decreases n
  {
    hide Consistent, SameView, FlushFrame;
    if n == 0 {
      KeptAtFirst(s, u);
    } else {
      FlushKeepsView(s, u, n - 1, scope);
      FlushOneMore(s, FlushUpTo(s, n - 1, scope), u, n - 1, scope);
    }
  }

  lemma EditAgrees(s: State, view: View, u: set<PageId>, id: PageId, edit: PageData -> PageData)
    requires Consistent(s, u) && Agrees(s, view, u) && id in u && RespectsBody(edit)
    ensures var t := Update(s, id, edit); Consistent(t, u) && Agrees(t, ViewAfter(view, Edit(id, edit)), u)
  {
    FetchKeepsView(s, u, id);
    var m := Fetch(s, id);
    var g := m.pool.order[0];
    ContentHeld(m, u, g, id);
    SetPageView(m, u, g, edit(m.pool.frames[g].page.data));
  }

  lemma MarkKeepsView(s: State, u: set<PageId>, table: int, pid: nat)
    requires Consistent(s, u)
    ensures var t := MarkDirty(s, table, pid); Consistent(t, u) && SameView(s, t, u)
  {
    var i := IndexOf(Keys(s.pool), MakePageKey(table, pid));
    if i < |s.pool.order| {
      var f := s.pool.order[i];
      var page := s.pool.frames[f].page;
      SetPageView(s, u, f, page.data);
      ContentHeld(s, u, f, s.pool.frames[f].id);
    }
  }

  lemma StepAgrees(s: State, view: View, u: set<PageId>, step: Step)
    requires Consistent(s, u) && Agrees(s, view, u) && Within(step, u)
    ensures Consistent(After(s, step), u) && Agrees(After(s, step), ViewAfter(view, step), u)
  {
    match step
    case Access(id) => FetchKeepsView(s, u, id);
    case Edit(id, edit) => EditAgrees(s, view, u, id, edit);
    case Mark(table, pid) => MarkKeepsView(s, u, table, pid);
    case FlushTables(scope) => FlushKeepsView(s, u, |s.pool.frames|, scope);
  }

  lemma InitialAgrees(capacity: nat, files: Files, u: set<PageId>)
    requires capacity > 0 && Coherent(u)
    ensures var s := Initial(capacity, files); Consistent(s, u) && Agrees(s, DiskView(files), u)
  {
    InitialWellFormed(capacity, files);
  }

  /** After any run of fetches, edits, dirty marks and flushes, the pool shows exactly the
      records a store without a cache would hold. */
  lemma {:induction false} RunIsTransparent(capacity: nat, files: Files, steps: seq<Step>, u: set<PageId>)
    requires capacity > 0 && Coherent(u) && AllWithin(steps, u)
    ensures AllValid(steps)
    ensures var s := Run(capacity, files, steps); Consistent(s, u) && Agrees(s, Views(files, steps), u)
  {
    if steps == [] {
      InitialAgrees(capacity, files, u);
    } else {
      var n := |steps| - 1;
      RunIsTransparent(capacity, files, steps[..n], u);
      StepAgrees(Run(capacity, files, steps[..n]), Views(files, steps[..n]), u, steps[n]);
    }
  }

  // ---------- durability ----------

  lemma {:induction false} FlushCleans(s: State, n: nat, scope: Scope, f: nat)
    requires WellFormed(s.pool) && f < n <= |s.pool.frames|
    ensures !scope.Takes(FlushUpTo(s, n, scope).pool.frames[f])
  {
    FlushShape(s, n - 1, scope);
    var m := FlushUpTo(s, n - 1, scope);
    SameShapeKeeps(s.pool, m.pool);
    if f < n - 1 {
      FlushCleans(s, n - 1, scope, f);
    } else if scope.Takes(m.pool.frames[f]) {
      ValidIsOccupied(m.pool, f);
      var i :| 0 <= i < |m.pool.order| && m.pool.order[i] == f;
    }
  }

  predicate Covers(scope: Scope, id: PageId) {
    scope.OneTable? ==> id.table == scope.table
  }

  /** A flush of one table leaves the pages of all others as they are in the pool, dirty ones dirty. */
  lemma {:induction false} FlushLeavesOthers(s: State, n: nat, table: int, f: nat)
    requires n <= |s.pool.frames| && f < |s.pool.frames| && s.pool.frames[f].id.table != table
    ensures FlushUpTo(s, n, OneTable(table)).pool.frames[f] == s.pool.frames[f]
  {
    hide WritePage;
    if n > 0 {
      FlushLeavesOthers(s, n - 1, table, f);
    }
  }

  /** What a flush covers is on disk afterwards: reading the files directly shows the records
      the store has. */
  lemma FlushIsDurable(s: State, view: View, u: set<PageId>, scope: Scope, id: PageId)
    requires Consistent(s, u) && Agrees(s, view, u) && id in u && Covers(scope, id)
    ensures Body(ReadPage(Flush(s, scope).files, id.file, id.pid)) == Body(view(id))
  {
    var n := |s.pool.frames|;
    var t := Flush(s, scope);
    FlushKeepsView(s, u, n, scope);
    if f :| f in t.pool.order && t.pool.frames[f].id == id {
      ContentHeld(t, u, f, id);
      FlushCleans(s, n, scope, f);
      assert Backed(t, f, u);
    } else {
      ContentAbsent(t, u, id);
    }
  }

  /** After a full flush a new pool of any capacity over the same files shows every record. */
  lemma RestartSeesEverything(capacity: nat, files: Files, steps: seq<Step>, u: set<PageId>, capacity': nat)
    requires capacity > 0 && capacity' > 0 && Coherent(u) && AllWithin(steps, u)
    ensures AllValid(steps)
    ensures var files' := Flush(Run(capacity, files, steps), AllTables).files;
      WellFormed(Initial(capacity', files').pool) && Agrees(Initial(capacity', files'), Views(files, steps), u)
  {
    RunIsTransparent(capacity, files, steps, u);
    var s := Run(capacity, files, steps);
    var files' := Flush(s, AllTables).files;
    InitialAgrees(capacity', files', u);
    forall id | id in u
      ensures Body(ReadPage(files', id.file, id.pid)) == Body(Views(files, steps)(id))
    {
      FlushIsDurable(s, Views(files, steps), u, AllTables, id);
    }
  }
}
