/** The buffer pool as a value: frames, a recency order, a stack of free frames, and the
    steps that change them.  Files are passed along beside it. */
module PoolModel {
  import opened Sequences
  import opened Disk

  /** A page as callers name it: file path, table hash, page number. */
  datatype PageId = PageId(file: string, table: int, pid: nat)
  {
    function Key(): int {
      MakePageKey(table, pid)
    }

    /** Page numbers are ints. */
    predicate Valid() {
      pid < 0x8000_0000
    }
  }

  /** A 32-bit product and sum, with the wrap-around that large table hashes cause. */
  function MakePageKey(table: int, pid: int): int {
    Wrapped(table * 100000 + pid)
  }

  function Wrapped(i: int): int {
    var u := i % 0x1_0000_0000;
    if u < 0x8000_0000 then u else u - 0x1_0000_0000
  }

  datatype Page = Page(pageId: int, isDirty: bool, isValid: bool, data: PageData)

  const BLANK := Page(-1, false, false, Zeros())

  /** One frame: what it was last loaded for, and the page it holds. */
  datatype Frame = Frame(id: PageId, page: Page)

  /** Frames, the occupied ones from most to least recently fetched, and the free stack. */
  datatype Pool = Pool(frames: seq<Frame>, order: seq<nat>, free: seq<nat>, evictions: nat)

  datatype State = State(pool: Pool, files: Files)

  // ---------- lookup ----------

  predicate InRange(p: Pool) {
    (forall i :: 0 <= i < |p.order| ==> p.order[i] < |p.frames|)
    && (forall i :: 0 <= i < |p.free| ==> p.free[i] < |p.frames|)
  }

  /** The keys held, most recently fetched first. */
  function Keys(p: Pool): (ks: seq<int>)
    requires InRange(p)
    ensures |ks| == |p.order|
    ensures forall i :: 0 <= i < |ks| ==> ks[i] == p.frames[p.order[i]].id.Key()
  {
    seq(|p.order|, i requires 0 <= i < |p.order| => p.frames[p.order[i]].id.Key())
  }

  // ---------- the steps ----------

  function Loaded(files: Files, id: PageId): Page
    requires id.Valid()
  {
    Page(id.pid, false, true, ReadPage(files, id.file, id.pid))
  }

  /** Puts a page into a frame that is neither occupied nor free, as the most recent one. */
  function Install(s: State, f: nat, id: PageId): State
    requires f < |s.pool.frames| && id.Valid()
  {
    State(s.pool.(frames := s.pool.frames[f := Frame(id, Loaded(s.files, id))], order := [f] + s.pool.order), s.files)
  }

  /** Frees the least recently fetched frame, writing its page first when it is dirty. */
  function Evict(s: State): State
    requires InRange(s.pool) && |s.pool.order| > 0
    requires s.pool.frames[s.pool.order[|s.pool.order| - 1]].page.pageId >= 0
  {
    var n := |s.pool.order| - 1;
    var f := s.pool.order[n];
    var frame := s.pool.frames[f];
    State(
      s.pool.(
        frames := s.pool.frames[f := frame.(page := BLANK)],
        order := s.pool.order[..n],
        evictions := s.pool.evictions + 1),
      if frame.page.isDirty then WritePage(s.files, frame.id.file, frame.page.pageId, frame.page.data) else s.files)
  }

  /** The state after a fetch; the page is then in the frame at the front of the order. */
  function Fetch(s: State, id: PageId): (s': State)
    requires WellFormed(s.pool) && id.Valid()
    ensures |s'.pool.order| > 0 && s'.pool.order[0] < |s'.pool.frames|
  {
    var p := s.pool;
    var i := IndexOf(Keys(p), id.Key());
    if i < |p.order| then
      s.(pool := p.(order := [p.order[i]] + Without(p.order, i)))
    else if |p.free| > 0 then
      Install(s.(pool := p.(free := p.free[..|p.free| - 1])), p.free[|p.free| - 1], id)
    else
      Install(Evict(s), p.order[|p.order| - 1], id)
  }

  function SetPage(p: Pool, f: nat, page: Page): Pool
    requires f < |p.frames|
  {
    p.(frames := p.frames[f := p.frames[f].(page := page)])
  }

  function MarkDirty(s: State, table: int, pid: nat): State
    requires InRange(s.pool)
  {
    var p := s.pool;
    var i := IndexOf(Keys(p), MakePageKey(table, pid));
    if i < |p.order| then
      var f := p.order[i];
      s.(pool := SetPage(p, f, p.frames[f].page.(isDirty := true)))
    else s
  }

  /** New bytes written through the pointer that the last fetch returned; the page's flags stay. */
  function EditFront(s: State, data: PageData): State
    requires |s.pool.order| > 0 && s.pool.order[0] < |s.pool.frames|
  {
    var f := s.pool.order[0];
    s.(pool := SetPage(s.pool, f, s.pool.frames[f].page.(data := data)))
  }

  /** A page's fetch, edit and dirty mark in one step. */
  function Update(s: State, id: PageId, edit: PageData -> PageData): State
    requires WellFormed(s.pool) && id.Valid()
  {
    var s' := Fetch(s, id);
    var f := s'.pool.order[0];
    var page := s'.pool.frames[f].page;
    s'.(pool := SetPage(s'.pool, f, page.(data := edit(page.data), isDirty := true)))
  }

  /** Whether a flush takes a frame: any table's, or one table's. */
  datatype Scope = AllTables | OneTable(table: int)
  {
    predicate Takes(f: Frame) {
      f.page.isValid && f.page.isDirty && (OneTable? ==> f.id.table == table)
    }
  }

  /** Writes one frame back if the scope takes it; a valid page's number is never negative. */
  function FlushFrame(s: State, f: nat, scope: Scope): State
    requires f < |s.pool.frames|
  {
    var frame := s.pool.frames[f];
    if scope.Takes(frame) && frame.page.pageId >= 0 then
      State(SetPage(s.pool, f, frame.page.(isDirty := false)),
            WritePage(s.files, frame.id.file, frame.page.pageId, frame.page.data))
    else s
  }

  /** The state after the first n frames have been visited by a flush. */
  function FlushUpTo(s: State, n: nat, scope: Scope): (s': State)
    requires n <= |s.pool.frames|
    ensures |s'.pool.frames| == |s.pool.frames|
  {
    if n == 0 then s else FlushFrame(FlushUpTo(s, n - 1, scope), n - 1, scope)
  }

  function Flush(s: State, scope: Scope): State {
    FlushUpTo(s, |s.pool.frames|, scope)
  }

  // ---------- well-formed pools ----------

  /** Occupied and free frames partition all frames, occupied ones hold distinct valid pages,
      and free ones hold none. */
  ghost predicate WellFormed(p: Pool) {
    && |p.frames| > 0
    && InRange(p)
    && NoDuplicates(p.order) && NoDuplicates(p.free) && (forall f :: f in p.order ==> f !in p.free)
    && |p.order| + |p.free| == |p.frames|
    && NoDuplicates(Keys(p))
    && (forall i :: 0 <= i < |p.order| ==> Holding(p.frames[p.order[i]]))
    && (forall i :: 0 <= i < |p.free| ==> !p.frames[p.free[i]].page.isValid)
  }

  ghost predicate Holding(f: Frame) {
    f.page.isValid && f.page.pageId == f.id.pid && f.id.Valid()
  }
}
