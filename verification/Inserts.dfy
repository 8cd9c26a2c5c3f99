/** Inserting a row into a table through the buffer pool, and when that keeps what is there. */
module Inserts {
  import opened Sequences
  import opened Bytes
  import opened Disk
  import opened Records
  import opened PageCodec
  import opened PageBuffers
  import opened PoolModel
  import opened Recency
  import opened PoolRuns
  import opened Transparency
  import opened BufferPools

  datatype Table = Table(file: string, hash: int, schema: Schema)
  {
    predicate Valid() {
      ValidSchema(schema) && RecordSize(schema) > 0
    }

    function Id(pid: nat): PageId {
      PageId(file, hash, pid)
    }

    predicate HasRoom(d: PageData)
      requires RecordSize(schema) > 0
    {
      Count(d) < RecordsPerPage(schema)
    }
  }

  /** The bytes at the front of the recency order, which is what a fetch returns. */
  function Front(s: State): PageData
    requires |s.pool.order| > 0 && s.pool.order[0] < |s.pool.frames|
  {
    s.pool.frames[s.pool.order[0]].page.data
  }

  datatype Tried = Tried(state: State, done: bool)

  /** Tries the n pages of a table from the last to the first and appends to one with room. */
  function TryPages(s: State, t: Table, rec: seq<Byte>, n: nat): (r: Tried)
    requires WellFormed(s.pool) && t.Valid() && n < 0x8000_0000
    ensures !r.done ==> WellFormed(r.state.pool)
    decreases n
  {
    hide WellFormed, Fetch, Update, AppendEdit, Count, RecordsPerPage, RecordSize, Touch;
    if n == 0 then Tried(s, false)
    else
      var id := t.Id(n - 1);
      FetchTouches(s, id);
      var s' := Fetch(s, id);
      if t.HasRoom(Front(s')) then Tried(Update(s, id, AppendEdit(t.schema, rec)), true)
      else TryPages(s', t, rec, n - 1)
  }

  /** What happens to the page after the last one: it is initialised and takes the row. */
  function FreshEdit(t: Table, rec: seq<Byte>, pid: Int32): PageData -> PageData {
    (d: PageData) => AppendEdit(t.schema, rec)(InitData(pid))
  }

  /** Inserting a record: the pages on disk are tried, then the page after them is taken. */
  function Insert(s: State, t: Table, rec: seq<Byte>): State
    requires WellFormed(s.pool) && t.Valid() && |Pages(s.files, t.file)| < 0x8000_0000
  {
    var n := |Pages(s.files, t.file)|;
    var r := TryPages(s, t, rec, n);
    if r.done then r.state else Update(r.state, t.Id(n), FreshEdit(t, rec, n))
  }

  // ---------- what an insert does to what can be seen ----------

  /** The last of the first n pages with room, or -1. */
  function LastWithRoom(s: State, t: Table, n: nat): (k: int)
    requires InRange(s.pool) && t.Valid() && n < 0x8000_0000
    ensures -1 <= k < n
    decreases n
  {
    if n == 0 then -1
    else if t.HasRoom(Content(s, t.Id(n - 1))) then n - 1
    else LastWithRoom(s, t, n - 1)
  }

  lemma {:induction false} LastWithRoomMeaning(s: State, t: Table, n: nat)
    requires InRange(s.pool) && t.Valid() && n < 0x8000_0000
    ensures var k := LastWithRoom(s, t, n);
      && (k >= 0 ==> t.HasRoom(Content(s, t.Id(k))))
      && forall j {:trigger t.Id(j)} :: k < j < n ==> !t.HasRoom(Content(s, t.Id(j)))
  {
    hide Count, RecordsPerPage, RecordSize, Content;
    if n > 0 {
      LastWithRoomMeaning(s, t, n - 1);
    }
  }

  lemma {:induction false} NoneWithRoom(s: State, t: Table, n: nat)
    requires InRange(s.pool) && t.Valid() && n < 0x8000_0000
    requires forall j {:trigger t.Id(j)} :: 0 <= j < n ==> !t.HasRoom(Content(s, t.Id(j)))
    ensures LastWithRoom(s, t, n) == -1
  {
    hide Count, RecordsPerPage, RecordSize, Content;
    if n > 0 {
      assert !t.HasRoom(Content(s, t.Id(n - 1)));
      NoneWithRoom(s, t, n - 1);
    }
  }

  /** Some page on disk takes one more record. */
  ghost predicate SomeTakesOneMore(s: State, t: Table, n: nat)
    requires InRange(s.pool) && n < 0x8000_0000
  {
    exists k {:trigger t.Id(k)} :: 0 <= k < n && TakesOneMore(t.schema, Content(s, t.Id(k)))
  }

  lemma RoomIsFound(s: State, t: Table, n: nat)
    requires InRange(s.pool) && n < 0x8000_0000 && Proper(s, t, n)
    ensures LastWithRoom(s, t, n) >= 0 <==> SomeTakesOneMore(s, t, n)
  {
    hide Count, RecordsPerPage, RecordSize, Content, LastWithRoom, TakesOneMore;
    LastWithRoomMeaning(s, t, n);
    forall k | 0 <= k < n
      ensures t.HasRoom(Content(s, t.Id(k))) <==> TakesOneMore(t.schema, Content(s, t.Id(k)))
    {
      RoomIsSpace(t.schema, Content(s, t.Id(k)));
    }
  }

  lemma CountOfBody(a: PageData, b: PageData)
    requires Body(a) == Body(b)
    ensures Count(a) == Count(b)
  {
    BodyHasCount(a);
    BodyHasCount(b);
  }

  lemma RecordOfBody(schema: Schema, a: PageData, b: PageData, i: nat)
    requires RecordSize(schema) > 0 && i < RecordsPerPage(schema) && Body(a) == Body(b)
    ensures Record(schema, a, i) == Record(schema, b, i)
  {
    hide RecordsPerPage;
    SlotFitsSchema(schema, i);
    assert Body(a)[4..] == a[PAGE_HEADER..] && Body(b)[4..] == b[PAGE_HEADER..];
    var o, size := Offset(RecordSize(schema), i), RecordSize(schema);
    assert a[PAGE_HEADER..][o - PAGE_HEADER..o - PAGE_HEADER + size] == a[o..o + size];
    assert b[PAGE_HEADER..][o - PAGE_HEADER..o - PAGE_HEADER + size] == b[o..o + size];
  }

  /** The pages a table's inserts may touch, those on disk and the next one, are among u. */
  ghost predicate Touchable(t: Table, n: nat, u: set<PageId>) {
    n < 0x8000_0000 && forall k :: 0 <= k <= n ==> t.Id(k) in u
  }

  /** A fetch returns what was to be seen at its page. */
  lemma FetchShows(s: State, u: set<PageId>, id: PageId)
    requires Consistent(s, u) && id in u
    ensures var s' := Fetch(s, id);
      && Consistent(s', u) && SameView(s, s', u)
      && Front(s') == Content(s', id) && Body(Front(s')) == Body(Content(s, id))
  {
    FetchKeepsView(s, u, id);
    var s' := Fetch(s, id);
    ContentHeld(s', u, s'.pool.order[0], id);
  }

  /** One page's bytes became the edit of some bytes with the records seen there before;
      nothing else that can be seen changed. */
  ghost predicate Changed(s: State, s': State, u: set<PageId>, id: PageId, edit: PageData -> PageData)
    requires InRange(s.pool) && Coherent(u) && id in u
  {
    && Consistent(s', u)
    && (exists d: PageData :: Body(d) == Body(Content(s, id)) && Content(s', id) == edit(d))
    && forall x {:trigger Content(s', x)} :: x in u && x != id ==> Body(Content(s', x)) == Body(Content(s, x))
  }

  lemma UpdateShows(s: State, u: set<PageId>, id: PageId, edit: PageData -> PageData)
    requires Consistent(s, u) && id in u
    ensures Changed(s, Update(s, id, edit), u, id, edit)
  {
    FetchShows(s, u, id);
    FetchKeepsView(s, u, id);
    var m := Fetch(s, id);
    var g := m.pool.order[0];
    SetPageView(m, u, g, edit(m.pool.frames[g].page.data));
    var d := Front(m);
    assert Body(d) == Body(Content(s, id)) && Content(Update(s, id, edit), id) == edit(d);
  }

  lemma ChangedAfterSame(s: State, m: State, s': State, u: set<PageId>, id: PageId, edit: PageData -> PageData)
    requires InRange(s.pool) && Consistent(m, u) && SameView(s, m, u) && id in u && Changed(m, s', u, id, edit)
    ensures Changed(s, s', u, id, edit)
  {
    var d: PageData :| Body(d) == Body(Content(m, id)) && Content(s', id) == edit(d);
    assert Body(d) == Body(Content(s, id));
    forall x | x in u && x != id
      ensures Body(Content(s', x)) == Body(Content(s, x))
    {
      assert Body(Content(m, x)) == Body(Content(s, x));
    }
  }

  lemma {:induction false} SameViewSameRoom(s: State, m: State, u: set<PageId>, t: Table, n: nat)
    requires InRange(s.pool) && InRange(m.pool) && Coherent(u) && SameView(s, m, u)
    requires t.Valid() && Touchable(t, n, u)
    ensures LastWithRoom(s, t, n) == LastWithRoom(m, t, n)
  {
    hide Count, RecordsPerPage, RecordSize, Content, Body;
    if n > 0 {
      CountOfBody(Content(s, t.Id(n - 1)), Content(m, t.Id(n - 1)));
      SameViewSameRoom(s, m, u, t, n - 1);
    }
  }

  lemma {:induction false} TryShows(s: State, u: set<PageId>, t: Table, rec: seq<Byte>, n: nat)
    requires Consistent(s, u) && t.Valid() && Touchable(t, n, u)
    ensures var r, k := TryPages(s, t, rec, n), LastWithRoom(s, t, n);
      if k >= 0 then r.done && Changed(s, r.state, u, t.Id(k), AppendEdit(t.schema, rec))
      else !r.done && Consistent(r.state, u) && SameView(s, r.state, u)
    decreases n
  {
    hide Count, RecordsPerPage, RecordSize, Content, Body, Fetch, Update, AppendEdit, Changed, NoDuplicates, Backed,
        Keys;
    if n > 0 {
      var id := t.Id(n - 1);
      FetchShows(s, u, id);
      var m := Fetch(s, id);
      CountOfBody(Front(m), Content(s, id));
      if t.HasRoom(Front(m)) {
        UpdateShows(s, u, id, AppendEdit(t.schema, rec));
      } else {
        TryShows(m, u, t, rec, n - 1);
        SameViewSameRoom(s, m, u, t, n - 1);
        var r, k := TryPages(m, t, rec, n - 1), LastWithRoom(m, t, n - 1);
        if k >= 0 {
          ChangedAfterSame(s, m, r.state, u, t.Id(k), AppendEdit(t.schema, rec));
        } else {
          SameTwice(s, m, r.state, u);
        }
      }
    }
  }

  lemma SameTwice(s: State, m: State, s': State, u: set<PageId>)
    requires InRange(s.pool) && InRange(m.pool) && InRange(s'.pool) && Coherent(u)
    requires SameView(s, m, u) && SameView(m, s', u)
    ensures SameView(s, s', u)
  {
    forall id | id in u
      ensures Body(Content(s', id)) == Body(Content(s, id))
    {
      assert Body(Content(m, id)) == Body(Content(s, id));
    }
  }

  // ---------- when an insert adds its row ----------

  /** A page's records seen before are still there, with one more behind them. */
  ghost predicate Grown(t: Table, before: PageData, after: PageData, rec: seq<Byte>)
    requires t.Valid()
  {
    var c := Count(before);
    && 0 <= c < RecordsPerPage(t.schema) && Count(after) == c + 1
    && Record(t.schema, after, c) == rec
    && forall i :: 0 <= i < c ==> Record(t.schema, after, i) == Record(t.schema, before, i)
  }

  /** The table has the record it had and one more: page k has grown, the others are the same. */
  ghost predicate RowAdded(s: State, s': State, t: Table, n: nat, rec: seq<Byte>)
    requires InRange(s.pool) && InRange(s'.pool) && t.Valid() && n < 0x8000_0000
  {
    exists k :: 0 <= k <= n && RowAddedTo(s, s', t, n, rec, k)
  }

  ghost predicate RowAddedTo(s: State, s': State, t: Table, n: nat, rec: seq<Byte>, k: nat)
    requires InRange(s.pool) && InRange(s'.pool) && t.Valid() && n < 0x8000_0000 && k <= n
  {
    && Grown(t, Content(s, t.Id(k)), Content(s', t.Id(k)), rec)
    && forall j {:trigger t.Id(j)} :: 0 <= j <= n && j != k ==> Body(Content(s', t.Id(j))) == Body(Content(s, t.Id(j)))
  }

  /** A table whose pages, the one after the last included, all show proper record counts. */
  ghost predicate Proper(s: State, t: Table, n: nat)
    requires InRange(s.pool) && n < 0x8000_0000
  {
    t.Valid() && forall k :: 0 <= k <= n ==> ValidPage(t.schema, Content(s, t.Id(k)))
  }

  /** Appending to a page with room makes it grow. */
  lemma AppendGrows(t: Table, before: PageData, d: PageData, rec: seq<Byte>)
    requires t.Valid() && ValidPage(t.schema, before) && t.HasRoom(before) && Body(d) == Body(before)
    requires |rec| == RecordSize(t.schema)
    ensures Grown(t, before, AppendEdit(t.schema, rec)(d), rec)
  {
    hide RecordsPerPage, Count, Record, Appended;
    CountOfBody(d, before);
    AppendedFacts(t.schema, d, rec);
    forall i | 0 <= i < Count(before)
      ensures Record(t.schema, d, i) == Record(t.schema, before, i)
    {
      RecordOfBody(t.schema, d, before, i);
    }
  }

  /** An empty page that takes a row holds just that row. */
  lemma FirstRecord(schema: Schema, d: PageData, rec: seq<Byte>)
    requires ValidPage(schema, d) && Count(d) == 0 && RecordsPerPage(schema) > 0 && |rec| == RecordSize(schema)
    ensures var d' := AppendEdit(schema, rec)(d);
      ValidPage(schema, d') && Count(d') == 1 && Record(schema, d', 0) == rec
  {
    hide RecordsPerPage, Count, Record, Appended;
    AppendedFacts(schema, d, rec);
  }

  /** What an insert changes: the last page with room, or else the page after the last. */
  lemma InsertShows(s: State, u: set<PageId>, t: Table, rec: seq<Byte>)
    requires var n := |Pages(s.files, t.file)|; Consistent(s, u) && t.Valid() && Touchable(t, n, u)
    ensures var n := |Pages(s.files, t.file)|; var k := LastWithRoom(s, t, n);
      if k >= 0 then Changed(s, Insert(s, t, rec), u, t.Id(k), AppendEdit(t.schema, rec))
      else Changed(s, Insert(s, t, rec), u, t.Id(n), FreshEdit(t, rec, n))
  {
    hide Count, RecordsPerPage, RecordSize, Content, Body, TryPages, Update, AppendEdit, FreshEdit, Changed,
        NoDuplicates, Backed, Keys, SameView;
    var n := |Pages(s.files, t.file)|;
    TryShows(s, u, t, rec, n);
    if LastWithRoom(s, t, n) < 0 {
      var m := TryPages(s, t, rec, n).state;
      UpdateShows(m, u, t.Id(n), FreshEdit(t, rec, n));
      ChangedAfterSame(s, m, Insert(s, t, rec), u, t.Id(n), FreshEdit(t, rec, n));
    }
  }

  lemma OverwriteAdds(s: State, s': State, t: Table, n: nat, rec: seq<Byte>)
    requires InRange(s.pool) && InRange(s'.pool) && n < 0x8000_0000 && Proper(s, t, n)
    requires LastWithRoom(s, t, n) < 0 && RecordsPerPage(t.schema) > 0
    requires forall j {:trigger t.Id(j)} :: 0 <= j < n ==> Body(Content(s', t.Id(j))) == Body(Content(s, t.Id(j)))
    requires Count(Content(s', t.Id(n))) == 1 && Record(t.schema, Content(s', t.Id(n)), 0) == rec
    ensures RowAdded(s, s', t, n, rec) <==> Count(Content(s, t.Id(n))) == 0
  {
    hide Count, RecordsPerPage, RecordSize, Content, Body, Record, LastWithRoom;
    if Count(Content(s, t.Id(n))) == 0 {
      assert RowAddedTo(s, s', t, n, rec, n);
    } else {
      forall k | 0 <= k <= n && RowAddedTo(s, s', t, n, rec, k)
        ensures false
      {
        if k < n {
          CountOfBody(Content(s', t.Id(k)), Content(s, t.Id(k)));
        }
      }
    }
  }

  /** With no room on disk the page after the last one holds the new row alone, whatever it held
      before; the other pages are as they were. */
  lemma InsertOverwrites(s: State, u: set<PageId>, t: Table, rec: seq<Byte>)
    requires var n := |Pages(s.files, t.file)|; Consistent(s, u) && Touchable(t, n, u) && Proper(s, t, n)
    requires RecordsPerPage(t.schema) > 0 && |rec| == RecordSize(t.schema)
    requires LastWithRoom(s, t, |Pages(s.files, t.file)|) < 0
    ensures var n := |Pages(s.files, t.file)|; var s' := Insert(s, t, rec);
      && Consistent(s', u) && Proper(s', t, n) && LastWithRoom(s', t, n) < 0
      && Count(Content(s', t.Id(n))) == 1 && Record(t.schema, Content(s', t.Id(n)), 0) == rec
      && forall j {:trigger t.Id(j)} :: 0 <= j < n ==> Body(Content(s', t.Id(j))) == Body(Content(s, t.Id(j)))
  {
    hide Count, RecordsPerPage, RecordSize, Content, Body, AppendEdit, InitData, NoDuplicates, Backed, Keys, Insert,
        Record, LastWithRoom;
    InsertShows(s, u, t, rec);
    var n := |Pages(s.files, t.file)|;
    var s' := Insert(s, t, rec);
    var d: PageData :| Body(d) == Body(Content(s, t.Id(n))) && Content(s', t.Id(n)) == FreshEdit(t, rec, n)(d);
    assert Content(s', t.Id(n)) == AppendEdit(t.schema, rec)(InitData(n));
    InitIsEmpty(t.schema, n);
    FirstRecord(t.schema, InitData(n), rec);
    LastWithRoomMeaning(s, t, n);
    forall j | 0 <= j < n
      ensures Count(Content(s', t.Id(j))) == Count(Content(s, t.Id(j)))
    {
      CountOfBody(Content(s', t.Id(j)), Content(s, t.Id(j)));
    }
    NoneWithRoom(s', t, n);
  }

  /** No page takes a record that is wider than a page's data area. */
  lemma WideRowsAreNotAdded(s: State, s': State, t: Table, n: nat, rec: seq<Byte>)
    requires InRange(s.pool) && InRange(s'.pool) && n < 0x8000_0000 && t.Valid() && RecordsPerPage(t.schema) == 0
    ensures !RowAdded(s, s', t, n, rec)
  {
  }

  /** An insert adds its row and keeps the rest of the table exactly when a record fits a page's data
      area, and some page on disk takes one more or the page after the last one holds nothing yet.  That
      page can hold rows that a previous insert put into the pool and no write has brought to disk;
      they are erased. */
  lemma InsertAddsExactly(s: State, u: set<PageId>, t: Table, rec: seq<Byte>)
    requires var n := |Pages(s.files, t.file)|; Consistent(s, u) && Touchable(t, n, u) && Proper(s, t, n)
    requires |rec| == RecordSize(t.schema)
    ensures var n := |Pages(s.files, t.file)|; var s' := Insert(s, t, rec);
      && Consistent(s', u)
      && (RowAdded(s, s', t, n, rec) <==>
           && RecordSize(t.schema) <= PAGE_SIZE - PAGE_HEADER
           && (SomeTakesOneMore(s, t, n) || Count(Content(s, t.Id(n))) == 0))
  {
    hide SomeTakesOneMore, Count, RecordsPerPage, RecordSize, Content, Body, AppendEdit, NoDuplicates, Backed, Keys,
      Insert, Grown, LastWithRoom, RowAdded, Changed;
    var n := |Pages(s.files, t.file)|;
    InsertShows(s, u, t, rec);
    FitsAny(t.schema);
    RoomIsFound(s, t, n);
    ChangedIsConsistent(s, u, t, rec);
    if RecordsPerPage(t.schema) == 0 {
      WideRowsAreNotAdded(s, Insert(s, t, rec), t, n, rec);
    } else if LastWithRoom(s, t, n) >= 0 {
      AppendAdds(s, u, t, rec);
    } else {
      InsertOverwrites(s, u, t, rec);
      OverwriteAdds(s, Insert(s, t, rec), t, n, rec);
    }
  }

  lemma ChangedIsConsistent(s: State, u: set<PageId>, t: Table, rec: seq<Byte>)
    requires var n := |Pages(s.files, t.file)|; Consistent(s, u) && t.Valid() && Touchable(t, n, u)
    ensures Consistent(Insert(s, t, rec), u)
  {
    hide Consistent, Insert;
    InsertShows(s, u, t, rec);
  }

  /** With room on disk the row is added to the last page that has some. */
  lemma AppendAdds(s: State, u: set<PageId>, t: Table, rec: seq<Byte>)
    requires var n := |Pages(s.files, t.file)|; Consistent(s, u) && Touchable(t, n, u) && Proper(s, t, n)
    requires |rec| == RecordSize(t.schema) && LastWithRoom(s, t, |Pages(s.files, t.file)|) >= 0
    ensures var n := |Pages(s.files, t.file)|; var s' := Insert(s, t, rec);
      Consistent(s', u) && RowAdded(s, s', t, n, rec)
  {
    hide Count, RecordsPerPage, RecordSize, Content, Body, AppendEdit, NoDuplicates, Backed, Keys, Insert, Grown,
      LastWithRoom;
    var n := |Pages(s.files, t.file)|;
    var s', k := Insert(s, t, rec), LastWithRoom(s, t, n);
    InsertShows(s, u, t, rec);
    LastWithRoomMeaning(s, t, n);
    var d: PageData :|
      Body(d) == Body(Content(s, t.Id(k))) && Content(s', t.Id(k)) == AppendEdit(t.schema, rec)(d);
    AppendGrows(t, Content(s, t.Id(k)), d, rec);
    assert RowAddedTo(s, s', t, n, rec, k);
  }

  /** Two inserts with no page written in between: when the first one has taken the page after
      the last, the second one erases its row. */
  lemma SecondInsertErases(s: State, u: set<PageId>, t: Table, rec: seq<Byte>, rec2: seq<Byte>)
    requires var n := |Pages(s.files, t.file)|; Consistent(s, u) && Touchable(t, n, u) && Proper(s, t, n)
    requires RecordsPerPage(t.schema) > 0 && |rec| == |rec2| == RecordSize(t.schema)
    requires LastWithRoom(s, t, |Pages(s.files, t.file)|) < 0
    requires |Pages(Insert(s, t, rec).files, t.file)| == |Pages(s.files, t.file)|
    ensures var n := |Pages(s.files, t.file)|; var s1 := Insert(s, t, rec);
      && Consistent(s1, u) && Count(Content(s1, t.Id(n))) == 1 && Record(t.schema, Content(s1, t.Id(n)), 0) == rec
      && Consistent(Insert(s1, t, rec2), u)
      && !RowAdded(s1, Insert(s1, t, rec2), t, n, rec2)
      && Count(Content(Insert(s1, t, rec2), t.Id(n))) == 1
      && Record(t.schema, Content(Insert(s1, t, rec2), t.Id(n)), 0) == rec2
  {
    hide Count, RecordsPerPage, RecordSize, Content, Body, NoDuplicates, Backed, Keys, Insert, Grown, Record, RowAdded;
    var n, s1 := |Pages(s.files, t.file)|, Insert(s, t, rec);
    InsertOverwrites(s, u, t, rec);
    InsertOverwrites(s1, u, t, rec2);
    RoomIsFound(s1, t, n);
    InsertAddsExactly(s1, u, t, rec2);
  }

  /** A table without pages, seen from an empty pool. */
  lemma EmptyTable(capacity: nat, files: Files, t: Table)
    requires capacity > 0 && t.Valid() && Pages(files, t.file) == []
    ensures var s, u := Initial(capacity, files), {t.Id(0)};
      && Consistent(s, u) && Touchable(t, 0, u) && Proper(s, t, 0) && LastWithRoom(s, t, 0) == -1
      && Count(Content(s, t.Id(0))) == 0
  {
    hide Count, RecordsPerPage, RecordSize, InitData;
    InitialAgrees(capacity, files, {t.Id(0)});
    InitIsEmpty(t.schema, 0);
  }

  /** Its first insert writes nothing to disk. */
  lemma FirstInsertStaysInPool(capacity: nat, files: Files, t: Table, rec: seq<Byte>)
    requires capacity > 0 && t.Valid() && Pages(files, t.file) == []
    ensures WellFormed(Initial(capacity, files).pool) && Insert(Initial(capacity, files), t, rec).files == files
  {
    InitialWellFormed(capacity, files);
  }

  /** The first two inserts into a table without pages, from an empty pool of any capacity over any
      files: the first row is added, and the second insert erases it. */
  lemma FirstInsertIsLost(capacity: nat, files: Files, t: Table, rec: seq<Byte>, rec2: seq<Byte>)
    requires capacity > 0 && t.Valid() && RecordsPerPage(t.schema) > 0 && |rec| == |rec2| == RecordSize(t.schema)
    requires Pages(files, t.file) == []
    ensures var s, u := Initial(capacity, files), {t.Id(0)};
      && Consistent(s, u)
      && var s1 := Insert(s, t, rec);
         && Consistent(s1, u) && s1.files == files && RowAdded(s, s1, t, 0, rec)
         && var s2 := Insert(s1, t, rec2);
            && Consistent(s2, u) && !RowAdded(s1, s2, t, 0, rec2)
            && Count(Content(s2, t.Id(0))) == 1 && Record(t.schema, Content(s2, t.Id(0)), 0) == rec2
  {
    hide Count, RecordsPerPage, RecordSize, Content, Insert, RowAdded, Record, Proper, LastWithRoom, Touchable;
    var s, u := Initial(capacity, files), {t.Id(0)};
    EmptyTable(capacity, files, t);
    FirstInsertStaysInPool(capacity, files, t, rec);
    InsertAddsExactly(s, u, t, rec);
    FitsAny(t.schema);
    SecondInsertErases(s, u, t, rec, rec2);
  }

  // ---------- the code ----------

  /** The bytes a fetch has put at the front. */
  method FrontBytes(pool: BufferPool, f: nat) returns (d: PageData)
    requires pool.Valid() && pool.view.order != [] && f == pool.view.order[0]
    ensures f < |pool.view.frames| && d == Front(pool.Abs())
  {
    assert f in pool.view.order;
    assert pool.view.frames[f] == Frame(pool.frameInfos[f], pool.pages[f]);
    d := pool.pages[f].data;
  }

  /** Inserts a row. */
  method ExecuteInsert(pool: BufferPool, t: Table, row: Row)
    requires pool.Valid() && t.Valid() && RowMatches(t.schema, row) && |Pages(pool.disk.files, t.file)| < 0x8000_0000
    modifies pool, pool.lruList, pool.lruList.nodes, pool.frameMap, pool.frameMap.buckets, pool.lruNodes, pool.pages,
        pool.frameInfos, pool.disk
    ensures pool.Valid() && pool.Abs() == old(Insert(pool.Abs(), t, EncodeRow(t.schema, row)))
  {
    hide Count, RecordsPerPage, RecordSize, AppendEdit, FreshEdit, Fetch, Update, EncodeRow, RowMatches,
        BufferPool.Coupled, WellFormed;
    ghost var s := pool.Abs();
    var rec := EncodeRow(t.schema, row);
    var n := pool.disk.PageCount(t.file);
    var pid, inserted := n, false;
    while pid > 0 && !inserted
      invariant pid <= n && pool.Valid()
      invariant forall i :: 0 <= i < |pool.lruList.nodes| ==>
        pool.lruList.nodes[i] in old(pool.lruList.nodes) || fresh(pool.lruList.nodes[i])
      invariant TryPages(s, t, rec, n) ==
        if inserted then Tried(pool.Abs(), true) else TryPages(pool.Abs(), t, rec, pid)
    {
      pid := pid - 1;
      ghost var nodes := pool.lruList.nodes;
      inserted := TryPage(pool, t, rec, pid);
      forall i | 0 <= i < |pool.lruList.nodes|
        ensures pool.lruList.nodes[i] in old(pool.lruList.nodes) || fresh(pool.lruList.nodes[i])
      {
        var x := pool.lruList.nodes[i];
        assert x in pool.lruList.nodes;
        if x in nodes {
          var j :| 0 <= j < |nodes| && nodes[j] == x;
        }
      }
    }
    if !inserted {
      pool.UpdatePage(t.file, t.hash, n, FreshEdit(t, rec, n));
    }
  }

  method TryPage(pool: BufferPool, t: Table, rec: seq<Byte>, pid: nat) returns (inserted: bool)
    requires pool.Valid() && t.Valid() && pid + 1 < 0x8000_0000
    modifies pool, pool.lruList, pool.lruList.nodes, pool.frameMap, pool.frameMap.buckets, pool.lruNodes, pool.pages,
        pool.frameInfos, pool.disk
    ensures pool.Valid() && forall x :: x in pool.lruList.nodes ==> x in old(pool.lruList.nodes) || fresh(x)
    ensures old(TryPages(pool.Abs(), t, rec, pid + 1)) ==
      if inserted then Tried(pool.Abs(), true) else TryPages(pool.Abs(), t, rec, pid)
  {
    hide Count, RecordsPerPage, RecordSize, AppendEdit, Fetch, Update, MarkDirty, BufferPool.Coupled, WellFormed;
    MarkFindsFetched(pool.Abs(), t.Id(pid), AppendEdit(t.schema, rec));
    var f := pool.FetchPage(t.file, t.hash, pid);
    var d := FrontBytes(pool, f);
    inserted := t.HasRoom(d);
    if inserted {
      pool.EditPage(f, AppendEdit(t.schema, rec)(d));
      pool.MarkDirty(t.hash, pid);
    }
  }
}
