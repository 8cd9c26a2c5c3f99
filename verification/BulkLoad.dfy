/** Filling a new table file row by row, page after page. */
module BulkLoads {
  import opened Sequences
  import opened Bytes
  import opened Disk
  import opened Records
  import opened PageCodec
  import opened PageBuffers
  import opened AvlTrees
  import opened AvlNodes
  import opened AvlIndexes
  import JoinOptimizer

  /** Row sets the generators take: 32-bit many rows of a usable schema. */
  predicate Loadable(schema: Schema, rows: seq<Row>) {
    && ValidSchema(schema) && RecordSize(schema) > 0 && |rows| < 0x8000_0000
    && forall i :: 0 <= i < |rows| ==> RowMatches(schema, rows[i])
  }

  // ---------- the loop, as a function of the rows ----------

  /** Pages already written, and the page being filled. */
  datatype Loading = Loading(done: seq<PageData>, page: PageData)
  {
    predicate Valid(schema: Schema) {
      ValidPage(schema, page) && |done| < 0x8000_0000
    }

    /** Writes the page out and starts the next one. */
    function Turn(): Loading
      requires |done| + 1 < 0x8000_0000
    {
      Loading(done + [page], InitData(|done| + 1))
    }

    /** Puts a row into the page being filled, if it takes one. */
    function Put(schema: Schema, row: Row): (st: Loading)
      requires Valid(schema) && RowMatches(schema, row)
      ensures st.Valid(schema)
    {
      if Count(page) < RecordsPerPage(schema) then
        AppendedFacts(schema, page, EncodeRow(schema, row));
        Loading(done, Appended(schema, page, EncodeRow(schema, row)))
      else this
    }

    /** The file once the last page is written, which an empty one never is. */
    function File(): seq<PageData> {
      if Count(page) > 0 then done + [page] else done
    }
  }

  /** One row: a full page is written out first. */
  function Step(schema: Schema, st: Loading, row: Row): (st': Loading)
    requires st.Valid(schema) && RowMatches(schema, row) && |st.done| + 1 < 0x8000_0000
    ensures st'.Valid(schema) && |st.done| <= |st'.done| <= |st.done| + 1
  {
    hide IntBytes, BytesInt, RecordsPerPage, RecordSize, InitData, RowMatches;
    if Count(st.page) < RecordsPerPage(schema) then st.Put(schema, row)
    else
      InitIsEmpty(schema, |st.done| + 1);
      st.Turn().Put(schema, row)
  }

  function Loaded(schema: Schema, rows: seq<Row>): (st: Loading)
    requires Loadable(schema, rows)
    ensures st.Valid(schema) && |st.done| <= |rows|
  {
    InitIsEmpty(schema, 0);
    if rows == [] then Loading([], InitData(0))
    else
      var n := |rows| - 1;
      Step(schema, Loaded(schema, rows[..n]), rows[n])
  }

  // ---------- where every row goes ----------

  /** The first row of page p, when every page holds rpp rows. */
  function FirstRow(rpp: nat, p: nat): nat {
    if p == 0 then 0 else FirstRow(rpp, p - 1) + rpp
  }

  /** The row in slot s of page p. */
  function RowNumber(rpp: nat, p: nat, s: nat): nat {
    FirstRow(rpp, p) + s
  }

  /** The page of row r, counted from zero. */
  function PageOf(rpp: nat, r: nat): nat
    requires rpp > 0
  {
    Quotient(r, rpp)
  }

  /** Its slot in that page. */
  function SlotOf(rpp: nat, r: nat): int
    requires rpp > 0
  {
    r - FirstRow(rpp, PageOf(rpp, r))
  }

  /** The row in a slot finds its page and its slot again. */
  lemma {:induction false} RowNumberInverse(rpp: nat, p: nat, s: nat)
    requires s < rpp
    ensures PageOf(rpp, RowNumber(rpp, p, s)) == p && SlotOf(rpp, RowNumber(rpp, p, s)) == s
  {
    if p > 0 {
      RowNumberInverse(rpp, p - 1, s);
    }
  }

  /** Every row is in a slot of its page. */
  lemma {:induction false} SlotInPage(rpp: nat, r: nat)
    requires rpp > 0
    ensures 0 <= SlotOf(rpp, r) < rpp
    decreases r
  {
    if r >= rpp {
      SlotInPage(rpp, r - rpp);
    }
  }

  lemma {:induction false} FirstRowIsProduct(rpp: nat, p: nat)
    ensures FirstRow(rpp, p) == p * rpp
  {
    if p > 0 {
      FirstRowIsProduct(rpp, p - 1);
      assert p * rpp == (p - 1) * rpp + rpp;
    }
  }

  /** Page and slot are the quotient and the remainder. */
  lemma PageAndSlot(rpp: nat, r: nat)
    requires rpp > 0
    ensures PageOf(rpp, r) == r / rpp && SlotOf(rpp, r) == r % rpp
  {
    QuotientDivides(r, rpp);
    FirstRowIsProduct(rpp, r / rpp);
  }

  /** Slot s of a page holds row r. */
  predicate Holds(schema: Schema, d: PageData, s: nat, rows: seq<Row>, r: nat)
    requires Loadable(schema, rows)
  {
    && s < RecordsPerPage(schema) && r < |rows|
    && Record(schema, d, s) == EncodeRow(schema, rows[r])
  }

  /** Full pages one after another, then the page being filled; every slot its own row. */
  predicate Filled(schema: Schema, st: Loading, rows: seq<Row>)
    requires Loadable(schema, rows)
  {
    var rpp := RecordsPerPage(schema);
    && ValidPage(schema, st.page) && |rows| == RowNumber(rpp, |st.done|, Count(st.page))
    && (forall p :: 0 <= p < |st.done| ==> ValidPage(schema, st.done[p]) && Count(st.done[p]) == rpp)
    && (forall p, s :: 0 <= p < |st.done| && 0 <= s < rpp ==>
          Holds(schema, st.done[p], s, rows, RowNumber(rpp, p, s)))
    && (forall s :: 0 <= s < Count(st.page) ==>
          Holds(schema, st.page, s, rows, RowNumber(rpp, |st.done|, s)))
  }

  /** A full page followed by one that holds nothing yet. */
  lemma TurnKeepsFilled(schema: Schema, st: Loading, rows: seq<Row>, next: PageData)
    requires Loadable(schema, rows) && Filled(schema, st, rows)
    requires Count(st.page) == RecordsPerPage(schema) && Count(next) == 0
    ensures Filled(schema, Loading(st.done + [st.page], next), rows)
  {
    hide IntBytes, BytesInt, RecordsPerPage, Holds, RecordSize;
  }

  lemma HoldsStill(schema: Schema, d: PageData, s: nat, rows: seq<Row>, row: Row, r: nat)
    requires Loadable(schema, rows) && Loadable(schema, rows + [row]) && Holds(schema, d, s, rows, r)
    ensures Holds(schema, d, s, rows + [row], r)
  {
  }

  lemma PutKeepsFilled(schema: Schema, st: Loading, rows: seq<Row>, row: Row)
    requires Loadable(schema, rows) && Loadable(schema, rows + [row]) && Filled(schema, st, rows)
    requires Count(st.page) < RecordsPerPage(schema) && |st.done| < 0x8000_0000
    requires RowMatches(schema, row)
    ensures Filled(schema, st.Put(schema, row), rows + [row])
  {
    hide IntBytes, BytesInt, RecordsPerPage, EncodeRow, RecordSize, Appended, Record, RowMatches;
    var rpp, rec, st' := RecordsPerPage(schema), EncodeRow(schema, row), st.Put(schema, row);
    AppendedFacts(schema, st.page, rec);
    forall p, s | 0 <= p < |st.done| && 0 <= s < rpp
      ensures Holds(schema, st'.done[p], s, rows + [row], RowNumber(rpp, p, s))
    {
      HoldsStill(schema, st.done[p], s, rows, row, RowNumber(rpp, p, s));
    }
    forall s | 0 <= s < Count(st'.page)
      ensures Holds(schema, st'.page, s, rows + [row], RowNumber(rpp, |st.done|, s))
    {
      if s < Count(st.page) {
        HoldsStill(schema, st.page, s, rows, row, RowNumber(rpp, |st.done|, s));
      }
    }
  }

  /** With room for a row in a page, loading fills page after page. */
  lemma {:induction false} LoadFills(schema: Schema, rows: seq<Row>)
    requires Loadable(schema, rows) && RecordsPerPage(schema) > 0
    ensures Filled(schema, Loaded(schema, rows), rows)
    ensures rows != [] ==> Count(Loaded(schema, rows).page) > 0
  {
    hide IntBytes, BytesInt, RecordsPerPage, EncodeRow, RecordSize, Appended, Record, RowMatches, Filled, InitData;
    if rows == [] {
      InitIsEmpty(schema, 0);
      EmptyIsFilled(schema, InitData(0));
    } else {
      var n := |rows| - 1;
      var st := Loaded(schema, rows[..n]);
      LoadFills(schema, rows[..n]);
      assert rows[..n] + [rows[n]] == rows;
      FilledCount(schema, st, rows[..n]);
      if Count(st.page) < RecordsPerPage(schema) {
        PutKeepsFilled(schema, st, rows[..n], rows[n]);
        AppendedFacts(schema, st.page, EncodeRow(schema, rows[n]));
      } else {
        InitIsEmpty(schema, |st.done| + 1);
        TurnKeepsFilled(schema, st, rows[..n], InitData(|st.done| + 1));
        PutKeepsFilled(schema, st.Turn(), rows[..n], rows[n]);
        AppendedFacts(schema, st.Turn().page, EncodeRow(schema, rows[n]));
      }
    }
  }

  lemma EmptyIsFilled(schema: Schema, d: PageData)
    requires Loadable(schema, []) && Count(d) == 0
    ensures Filled(schema, Loading([], d), [])
  {
    hide Count, RecordsPerPage;
  }

  lemma FilledCount(schema: Schema, st: Loading, rows: seq<Row>)
    requires Loadable(schema, rows) && Filled(schema, st, rows)
    ensures ValidPage(schema, st.page)
  {
  }

  /** The pages a file has after a load. */
  function LoadedFile(schema: Schema, rows: seq<Row>): seq<PageData>
    requires Loadable(schema, rows)
  {
    Loaded(schema, rows).File()
  }

  /** How many records the pages before page p leave for it, at most rpp. */
  function PageShare(rpp: nat, n: nat, p: nat): int {
    if n - FirstRow(rpp, p) < rpp then n - FirstRow(rpp, p) else rpp
  }

  lemma PagesNeeded(rpp: nat, full: nat, c: nat)
    requires rpp > 0 && c <= rpp && (c == 0 ==> full == 0)
    ensures PageOf(rpp, RowNumber(rpp, full, c) + rpp - 1) == if c > 0 then full + 1 else full
  {
    if c > 0 {
      RowNumberInverse(rpp, full + 1, c - 1);
    } else {
      RowNumberInverse(rpp, 0, rpp - 1);
    }
  }

  lemma {:induction false} EarlierPages(rpp: nat, full: nat, p: nat)
    requires p < full
    ensures FirstRow(rpp, p) + rpp <= FirstRow(rpp, full)
    decreases full
  {
    if p < full - 1 {
      EarlierPages(rpp, full - 1, p);
    }
  }

  lemma PageShares(schema: Schema, rows: seq<Row>)
    requires Loadable(schema, rows) && RecordsPerPage(schema) > 0
    ensures var rpp, pages := RecordsPerPage(schema), LoadedFile(schema, rows);
      && |pages| == PageOf(rpp, |rows| + rpp - 1)
      && ValidPages(schema, pages)
      && (forall p :: 0 <= p < |pages| ==> Count(pages[p]) == PageShare(rpp, |rows|, p) > 0)
  {
    hide IntBytes, BytesInt, RecordsPerPage, RecordSize, Count, Holds, Loaded, RowMatches;
    var st, rpp := Loaded(schema, rows), RecordsPerPage(schema);
    LoadFills(schema, rows);
    var c := Count(st.page);
    if rows == [] {
      assert Loaded(schema, rows).done == [];
    }
    PagesNeeded(rpp, |st.done|, c);
    forall p | 0 <= p < |st.done|
      ensures PageShare(rpp, |rows|, p) == rpp
    {
      EarlierPages(rpp, |st.done|, p);
    }
  }

  /** Just enough pages, all but the last are full, and the last holds what is left.  The data area of a
      page has 4080 bytes. */
  lemma PageCounts(schema: Schema, rows: seq<Row>, rpp: nat)
    requires Loadable(schema, rows) && rpp == 4080 / RecordSize(schema) > 0
    ensures var pages := LoadedFile(schema, rows);
      && |pages| == (|rows| + rpp - 1) / rpp
      && ValidPages(schema, pages)
      && (forall p :: 0 <= p < |pages| ==>
            0 < Count(pages[p]) == if |rows| - p * rpp < rpp then |rows| - p * rpp else rpp)
  {
    hide RecordsPerPage, RecordSize, Count, LoadedFile, RowMatches, FirstRow, ValidPage;
    var pages := LoadedFile(schema, rows);
    CapacityIsQuotient(schema);
    PageShares(schema, rows);
    PageAndSlot(rpp, |rows| + rpp - 1);
    forall p | 0 <= p < |pages|
      ensures 0 < Count(pages[p]) == if |rows| - p * rpp < rpp then |rows| - p * rpp else rpp
    {
      FirstRowIsProduct(rpp, p);
    }
  }

  /** After a load the optimizer takes a table to have all its rows, and less than a page of others. */
  lemma RowCountAfterLoad(schema: Schema, rows: seq<Row>, catalog: map<string, JoinOptimizer.TableStats>, name: string)
    requires Loadable(schema, rows) && RecordsPerPage(schema) > 0
    requires name in catalog
      && catalog[name] == JoinOptimizer.TableStats(|LoadedFile(schema, rows)|, RecordsPerPage(schema))
    ensures |rows| <= JoinOptimizer.RowCount(catalog, name) < |rows| + RecordsPerPage(schema)
  {
    hide RecordsPerPage, RecordSize, Count, LoadedFile, RowMatches;
    var rpp := RecordsPerPage(schema);
    PageShares(schema, rows);
    SlotInPage(rpp, |rows| + rpp - 1);
    FirstRowIsProduct(rpp, |LoadedFile(schema, rows)|);
  }

  /** A row number splits into a page that exists and a slot in it. */
  lemma SplitRow(rpp: nat, full: nat, c: nat, r: nat)
    requires rpp > 0 && r < RowNumber(rpp, full, c) && c <= rpp
    ensures var q, t := PageOf(rpp, r), SlotOf(rpp, r);
      && 0 <= t < rpp && r == RowNumber(rpp, q, t) && (q < full || (q == full && t < c))
  {
    SlotInPage(rpp, r);
    if PageOf(rpp, r) > full {
      EarlierPages(rpp, PageOf(rpp, r), full);
    }
  }

  lemma FilledAt(schema: Schema, st: Loading, rows: seq<Row>, q: nat, t: nat)
    requires Loadable(schema, rows) && Filled(schema, st, rows)
    requires t < RecordsPerPage(schema) && (q < |st.done| || (q == |st.done| && t < Count(st.page)))
    ensures q < |st.File()| && t < Count(st.File()[q])
    ensures Holds(schema, st.File()[q], t, rows, RowNumber(RecordsPerPage(schema), q, t))
  {
    hide IntBytes, BytesInt, RecordsPerPage, RecordSize, Count, Holds, RowMatches, FirstRow;
  }

  lemma RowIsAt(schema: Schema, rows: seq<Row>, r: nat)
    requires Loadable(schema, rows) && RecordsPerPage(schema) > 0 && r < |rows|
    ensures var rpp, pages := RecordsPerPage(schema), LoadedFile(schema, rows);
      var q, t := PageOf(rpp, r), SlotOf(rpp, r);
      && q < |pages| && 0 <= t < Count(pages[q]) && Holds(schema, pages[q], t, rows, r)
  {
    hide IntBytes, BytesInt, RecordsPerPage, RecordSize, Count, Loaded, RowMatches, Holds, FirstRow, Filled,
      Loading.File, PageOf, SlotOf;
    var st, rpp := Loaded(schema, rows), RecordsPerPage(schema);
    LoadFills(schema, rows);
    FilledSize(schema, st, rows);
    SlotInPage(rpp, r);
    SplitRow(rpp, |st.done|, Count(st.page), r);
    FilledAt(schema, st, rows, PageOf(rpp, r), SlotOf(rpp, r));
  }

  /** With rpp = 4080 / (record size), row r is in page r / rpp at slot r % rpp, byte for byte as it was
      encoded. */
  lemma RowPlacement(schema: Schema, rows: seq<Row>, r: nat, rpp: nat, q: nat, t: nat)
    requires Loadable(schema, rows) && r < |rows|
    requires rpp == 4080 / RecordSize(schema) > 0 && q == r / rpp && t == r % rpp
    ensures var pages := LoadedFile(schema, rows);
      q < |pages| && t < Count(pages[q]) && Holds(schema, pages[q], t, rows, r)
  {
    hide RecordsPerPage, RecordSize, Count, LoadedFile, RowMatches, Holds, PageOf, SlotOf;
    CapacityIsQuotient(schema);
    RowIsAt(schema, rows, r);
    PageAndSlot(rpp, r);
  }

  lemma FilledSize(schema: Schema, st: Loading, rows: seq<Row>)
    requires Loadable(schema, rows) && Filled(schema, st, rows)
    ensures 0 <= Count(st.page) <= RecordsPerPage(schema)
    ensures |rows| == RowNumber(RecordsPerPage(schema), |st.done|, Count(st.page))
  {
  }

  /** A slot that holds a row reads back as the columns keep the row. */
  lemma HeldReadsBack(schema: Schema, d: PageData, s: nat, rows: seq<Row>, r: nat)
    requires Loadable(schema, rows) && Holds(schema, d, s, rows, r)
    ensures DecodeRow(schema, Record(schema, d, s)) == StoredRow(schema, rows[r])
  {
    RowRoundTrip(schema, rows[r]);
  }

  /** Records wider than a page's data area fit nowhere: every page is written out empty, the
      last one not at all, and every row is lost. */
  lemma {:induction false} WideRowsAreLost(schema: Schema, rows: seq<Row>)
    requires Loadable(schema, rows) && RecordsPerPage(schema) == 0
    ensures Count(Loaded(schema, rows).page) == 0
    ensures LoadedFile(schema, rows) == Loaded(schema, rows).done && |LoadedFile(schema, rows)| == |rows|
    ensures forall p :: 0 <= p < |rows| ==> Count(LoadedFile(schema, rows)[p]) == 0
  {
    hide IntBytes, BytesInt, RecordsPerPage, RecordSize, Count, RowMatches, InitData;
    InitIsEmpty(schema, 0);
    if rows != [] {
      var n := |rows| - 1;
      WideRowsAreLost(schema, rows[..n]);
      InitIsEmpty(schema, n + 1);
    }
  }


  /** The loaded file holds any record at all exactly when a record fits a page's data area. */
  lemma LostExactlyWhenTooWide(schema: Schema, rows: seq<Row>)
    requires Loadable(schema, rows) && rows != []
    ensures var pages := LoadedFile(schema, rows);
      RecordSize(schema) <= PAGE_SIZE - PAGE_HEADER <==> exists p :: 0 <= p < |pages| && Count(pages[p]) > 0
  {
    hide RecordsPerPage, RecordSize, Count, Loaded, RowMatches, Holds, LoadedFile, PageOf, SlotOf;
    FitsAny(schema);
    if RecordsPerPage(schema) > 0 {
      RowIsAt(schema, rows, 0);
      var q := PageOf(RecordsPerPage(schema), 0);
      assert Count(LoadedFile(schema, rows)[q]) > 0;
    } else {
      WideRowsAreLost(schema, rows);
    }
  }

  // ---------- the index over a loaded file ----------

  /** The key column numbers the rows from one, as the customer and order generators do. */
  predicate Numbered(schema: Schema, rows: seq<Row>, col: nat)
    requires Loadable(schema, rows)
  {
    Indexable(schema, col) && forall r :: 0 <= r < |rows| ==> SlotAt(rows[r], col) == Holding(IntField(r + 1))
  }

  /** A slot's key is the number of the row it holds. */
  lemma KeyOfHeld(schema: Schema, d: PageData, s: nat, rows: seq<Row>, r: nat, col: nat)
    requires Loadable(schema, rows) && Numbered(schema, rows, col) && ValidPage(schema, d)
    requires Holds(schema, d, s, rows, r)
    ensures KeyOf(schema, d, s, col) == r + 1
  {
    HeldReadsBack(schema, d, s, rows, r);
  }

  /** Where row r is. */
  function PlaceOf(rpp: nat, r: nat): Loc
    requires rpp > 0
  {
    SlotInPage(rpp, r);
    Loc(PageOf(rpp, r), SlotOf(rpp, r))
  }

  /** The scan of rows 1, 2, 3, ... placed rpp to a page. */
  predicate InOrder(scan: Scan, rpp: nat)
    requires rpp > 0
  {
    forall r :: 0 <= r < |scan| ==> scan[r] == (r + 1, PlaceOf(rpp, r))
  }

  /** What the scan relies on: slot t of page q holds row q * rpp + t, and all pages but the last
      are full. */
  predicate Laid(schema: Schema, pages: seq<PageData>, rows: seq<Row>)
    requires Loadable(schema, rows)
  {
    var rpp := RecordsPerPage(schema);
    && ValidPages(schema, pages)
    && (forall q, t :: 0 <= q < |pages| && 0 <= t < Count(pages[q]) ==>
          Holds(schema, pages[q], t, rows, RowNumber(rpp, q, t)))
    && (forall q :: 0 <= q < |pages| - 1 ==> Count(pages[q]) == rpp)
    && |rows| == if pages == [] then 0 else RowNumber(rpp, |pages| - 1, Count(pages[|pages| - 1]))
  }

  lemma LoadIsLaid(schema: Schema, rows: seq<Row>)
    requires Loadable(schema, rows) && RecordsPerPage(schema) > 0
    ensures Laid(schema, LoadedFile(schema, rows), rows)
  {
    hide IntBytes, BytesInt, RecordsPerPage, RecordSize, Count, Loaded, RowMatches, Holds, FirstRow;
    LoadFills(schema, rows);
    var st := Loaded(schema, rows);
    if rows == [] {
      assert st.done == [];
    }
  }

  lemma ExtendInOrder(scan: Scan, rpp: nat, q: nat, t: nat)
    requires rpp > 0 && t < rpp && InOrder(scan, rpp) && |scan| == RowNumber(rpp, q, t)
    ensures InOrder(scan + [(|scan| + 1, Loc(q, t))], rpp)
  {
    RowNumberInverse(rpp, q, t);
  }

  lemma {:induction false} ScanPageInOrder(schema: Schema, pages: seq<PageData>, rows: seq<Row>, col: nat, q: nat,
                                           n: nat, scan: Scan)
    requires Loadable(schema, rows) && RecordsPerPage(schema) > 0 && Numbered(schema, rows, col)
    requires Laid(schema, pages, rows) && q < |pages| && n <= Count(pages[q])
    requires |scan| == FirstRow(RecordsPerPage(schema), q) && InOrder(scan, RecordsPerPage(schema))
    ensures var scan' := scan + ScanPage(schema, pages[q], col, q, n);
      |scan'| == RowNumber(RecordsPerPage(schema), q, n) && InOrder(scan', RecordsPerPage(schema))
    decreases n
  {
    hide IntBytes, BytesInt, RecordsPerPage, RecordSize, Count, RowMatches, Holds, KeyOf, InOrder;
    if n == 0 {
      assert scan + ScanPage(schema, pages[q], col, q, n) == scan;
    } else {
      ScanPageInOrder(schema, pages, rows, col, q, n - 1, scan);
      var before := scan + ScanPage(schema, pages[q], col, q, n - 1);
      assert Holds(schema, pages[q], n - 1, rows, RowNumber(RecordsPerPage(schema), q, n - 1));
      KeyOfHeld(schema, pages[q], n - 1, rows, |before|, col);
      ExtendInOrder(before, RecordsPerPage(schema), q, n - 1);
      assert scan + ScanPage(schema, pages[q], col, q, n) == before + [(|before| + 1, Loc(q, n - 1))];
    }
  }

  lemma {:induction false} ScanPagesInOrder(schema: Schema, pages: seq<PageData>, rows: seq<Row>, col: nat, k: nat)
    requires Loadable(schema, rows) && RecordsPerPage(schema) > 0 && Numbered(schema, rows, col)
    requires Laid(schema, pages, rows) && k <= |pages|
    ensures InOrder(ScanPages(schema, pages, col, k), RecordsPerPage(schema))
    ensures |ScanPages(schema, pages, col, k)| ==
      if k < |pages| then FirstRow(RecordsPerPage(schema), k) else |rows|
  {
    hide IntBytes, BytesInt, RecordsPerPage, RecordSize, Count, RowMatches, Holds, KeyOf;
    if k > 0 {
      ScanPagesInOrder(schema, pages, rows, col, k - 1);
      ScanPageInOrder(schema, pages, rows, col, k - 1, Count(pages[k - 1]), ScanPages(schema, pages, col, k - 1));
    }
  }

  lemma {:induction false} LocsOfInOrder(scan: Scan, rpp: nat, key: int)
    requires rpp > 0 && InOrder(scan, rpp)
    ensures LocsOf(scan, key) == if 1 <= key <= |scan| then [PlaceOf(rpp, key - 1)] else []
  {
    hide PlaceOf;
    if scan != [] {
      LocsOfInOrder(scan[..|scan| - 1], rpp, key);
    }
  }

  lemma IndexFindsPlace(schema: Schema, rows: seq<Row>, col: nat, key: int)
    requires Loadable(schema, rows) && RecordsPerPage(schema) > 0 && Numbered(schema, rows, col)
    ensures ValidPages(schema, LoadedFile(schema, rows))
    ensures var m := AddAll(map[], ScanFile(schema, LoadedFile(schema, rows), col));
      && (key in m <==> 1 <= key <= |rows|)
      && (key in m ==> m[key].locs == [PlaceOf(RecordsPerPage(schema), key - 1)])
  {
    hide RecordsPerPage, RecordSize, Loaded, RowMatches, PlaceOf, ScanPages, AddAll, LoadedFile;
    LoadIsLaid(schema, rows);
    var pages := LoadedFile(schema, rows);
    var scan := ScanFile(schema, pages, col);
    ScanPagesInOrder(schema, pages, rows, col, |pages|);
    LocsOfInOrder(scan, RecordsPerPage(schema), key);
    IndexIsScan(scan, key);
  }

  /** The index built over a loaded file leads from every key to exactly the place of its row,
      and knows no other key. */
  lemma IndexFindsEveryRow(schema: Schema, rows: seq<Row>, col: nat, key: int, rpp: nat, q: nat, t: nat)
    requires Loadable(schema, rows) && Numbered(schema, rows, col) && rpp == 4080 / RecordSize(schema) > 0
    requires 1 <= key <= |rows| ==> q == (key - 1) / rpp && t == (key - 1) % rpp
    ensures ValidPages(schema, LoadedFile(schema, rows))
    ensures var m := AddAll(map[], ScanFile(schema, LoadedFile(schema, rows), col));
      && (key in m <==> 1 <= key <= |rows|)
      && (key in m ==> m[key].locs == [Loc(q, t)])
  {
    hide RecordsPerPage, RecordSize, RowMatches, PageOf, SlotOf, ScanFile, AddAll, LoadedFile, Numbered, ValidPages;
    CapacityIsQuotient(schema);
    IndexFindsPlace(schema, rows, col, key);
    if 1 <= key <= |rows| {
      PageAndSlot(rpp, key - 1);
    }
  }

  // ---------- the code ----------

  /** One round of a generator's loop. */
  method AddRow(disk: DiskManager, path: string, schema: Schema, page: PageBuffer, pageId: nat, row: Row)
    returns (pageId': nat)
    requires page.Valid() && ValidPage(schema, page.Image()) && RowMatches(schema, row)
    requires path in disk.files && pageId == page.pageId == |disk.files[path]| && pageId + 1 < 0x8000_0000
    modifies disk, page, page.data
    ensures page.Valid() && path in disk.files && pageId' == page.pageId == |disk.files[path]|
    ensures disk.files == old(disk.files)[path := disk.files[path]]
    ensures Loading(disk.files[path], page.Image()) ==
      Step(schema, Loading(old(disk.files[path]), old(page.Image())), row)
  {
    hide IntBytes, BytesInt, RecordsPerPage, RecordSize, RowMatches, EncodeRow, InitData, Appended, AppendEdit, Count;
    pageId' := pageId;
    var ok := page.AppendRow(schema, row);
    if !ok {
      disk.Write(path, page.pageId, page.data[..]);
      pageId' := pageId + 1;
      page.Init(pageId');
      InitIsEmpty(schema, pageId');
      var _ := page.AppendRow(schema, row);
    }
  }

  lemma LoadedStarts(schema: Schema)
    requires Loadable(schema, [])
    ensures Loaded(schema, []) == Loading([], InitData(0))
  {
  }

  lemma LoadedNext(schema: Schema, rows: seq<Row>, i: nat)
    requires Loadable(schema, rows) && i < |rows|
    ensures Loadable(schema, rows[..i]) && Loadable(schema, rows[..i + 1]) && RowMatches(schema, rows[i])
    ensures var st := Loaded(schema, rows[..i]);
      |st.done| + 1 < 0x8000_0000 && Loaded(schema, rows[..i + 1]) == Step(schema, st, rows[i])
  {
    assert rows[..i + 1][..i] == rows[..i];
  }

  /** Writes a table file anew from the rows of a generator. */
  method Generate(disk: DiskManager, path: string, schema: Schema, rows: seq<Row>)
    requires Loadable(schema, rows)
    modifies disk
    ensures disk.files == old(disk.files)[path := LoadedFile(schema, rows)]
  {
    hide IntBytes, BytesInt, RecordsPerPage, RecordSize, RowMatches, EncodeRow, InitData, Appended, AppendEdit,
      Count, Step, ValidSchema, Loaded;
    disk.Truncate(path);
    var page := new PageBuffer();
    page.Init(0);
    var pageId := 0;
    InitIsEmpty(schema, 0);
    LoadedStarts(schema);
    for i := 0 to |rows|
      invariant page.Valid() && fresh(page) && fresh(page.data) && path in disk.files
      invariant Loading(disk.files[path], page.Image()) == Loaded(schema, rows[..i])
      invariant pageId == page.pageId == |disk.files[path]|
      invariant disk.files == old(disk.files)[path := disk.files[path]]
    {
      LoadedNext(schema, rows, i);
      pageId := AddRow(disk, path, schema, page, pageId, rows[i]);
    }
    assert rows[..|rows|] == rows;
    var cnt := page.GetRecordCount();
    ghost var done := disk.files[path];
    if cnt > 0 {
      disk.Write(path, page.pageId, page.data[..]);
      assert Pages(disk.files, path) == done + [page.Image()];
    }
  }
}
