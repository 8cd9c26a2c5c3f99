/** The index on an integer column: at most 32 locations per key, built by scanning a file. */
module AvlIndexes {
  import opened Sequences
  import opened Bytes
  import opened Disk
  import opened Records
  import opened PageCodec
  import opened AvlTrees
  import opened AvlNodes

  const MAX_LOCS := 32

  /** Where a record is: page number and slot. */
  datatype Loc = Loc(pageId: nat, recIdx: nat)

  /** The locations kept for one key. */
  datatype IndexEntry = IndexEntry(locs: seq<Loc>)
  {
    /** Adds a location while there is room. */
    function Add(loc: Loc): IndexEntry {
      if |locs| < MAX_LOCS then IndexEntry(locs + [loc]) else this
    }
  }

  type Entries = map<int, IndexEntry>

  // ---------- what is indexed ----------

  /** One step of the build: a key met at a location. */
  function AddKey(m: Entries, key: int, loc: Loc): Entries {
    m[key := (if key in m then m[key] else IndexEntry([])).Add(loc)]
  }

  /** A scan: the keys met, with their locations, in order. */
  type Scan = seq<(int, Loc)>

  function AddAll(m: Entries, scan: Scan): Entries {
    if scan == [] then m
    else var n := |scan| - 1; AddKey(AddAll(m, scan[..n]), scan[n].0, scan[n].1)
  }

  /** Every location at which a scan meets a key. */
  function LocsOf(scan: Scan, key: int): seq<Loc> {
    if scan == [] then []
    else
      var n := |scan| - 1;
      LocsOf(scan[..n], key) + if scan[n].0 == key then [scan[n].1] else []
  }

  /** Building from nothing gives each key met its first 32 locations in scan order, and no
      other key an entry. */
  lemma {:induction false} IndexIsScan(scan: Scan, key: int)
    ensures var m := AddAll(map[], scan);
      && (key in m <==> LocsOf(scan, key) != [])
      && (key in m ==> m[key].locs == Take(LocsOf(scan, key), MAX_LOCS))
  {
    if scan != [] {
      var n := |scan| - 1;
      IndexIsScan(scan[..n], key);
    }
  }

  /** The index lists all rows of a key it knows if and only if there are at most 32 of them. */
  lemma CompleteExactlyForSmallKeys(scan: Scan, key: int)
    requires LocsOf(scan, key) != []
    ensures var m := AddAll(map[], scan);
      key in m && (m[key].locs == LocsOf(scan, key) <==> |LocsOf(scan, key)| <= MAX_LOCS)
  {
    IndexIsScan(scan, key);
  }

  ghost function KeysMet(scan: Scan): set<int> {
    set i | 0 <= i < |scan| :: scan[i].0
  }

  /** The number of entries is the number of distinct keys met. */
  lemma {:induction false} EntriesAreKeysMet(scan: Scan)
    ensures AddAll(map[], scan).Keys == KeysMet(scan)
  {
    if scan == [] {
      assert KeysMet(scan) == {};
    } else {
      var n := |scan| - 1;
      EntriesAreKeysMet(scan[..n]);
      assert KeysMet(scan) == KeysMet(scan[..n]) + {scan[n].0} by {
        forall k | k in KeysMet(scan)
          ensures k in KeysMet(scan[..n]) + {scan[n].0}
        {
          var i :| 0 <= i < |scan| && scan[i].0 == k;
          assert i < n ==> scan[..n][i].0 == k;
        }
        forall k | k in KeysMet(scan[..n])
          ensures k in KeysMet(scan)
        {
          var i :| 0 <= i < n && scan[..n][i].0 == k;
          assert scan[i].0 == k;
        }
      }
    }
  }

  // ---------- scanning a file ----------

  /** Only integer columns are indexed. */
  predicate Indexable(schema: Schema, col: int) {
    0 <= col < |schema| && schema[col].typ == INT
  }

  /** The key of a record. */
  function KeyOf(schema: Schema, d: PageData, i: nat, col: nat): int
    requires ValidPage(schema, d) && i < RecordsPerPage(schema) && Indexable(schema, col)
  {
    DecodeRowTypes(schema, Record(schema, d, i), col);
    DecodeRow(schema, Record(schema, d, i))[col].val
  }

  /** Decoding gives every column a field of its own type. */
  lemma {:induction false} DecodeRowTypes(schema: Schema, bs: seq<Byte>, col: nat)
    requires ValidSchema(schema) && |bs| == RecordSize(schema) && col < |schema|
    ensures schema[col].typ == INT <==> DecodeRow(schema, bs)[col].IntField?
  {
    var n := |schema| - 1;
    if col < n {
      DecodeRowTypes(schema[..n], bs[..RecordSize(schema[..n])], col);
    }
  }

  /** The first n records of page p; nothing for a column that is not indexed. */
  function ScanPage(schema: Schema, d: PageData, col: int, p: nat, n: nat): (scan: Scan)
    requires ValidPage(schema, d) && n <= RecordsPerPage(schema)
    ensures |scan| == if Indexable(schema, col) then n else 0
  {
    if n == 0 || !Indexable(schema, col) then []
    else ScanPage(schema, d, col, p, n - 1) + [(KeyOf(schema, d, n - 1, col), Loc(p, n - 1))]
  }

  predicate ValidPages(schema: Schema, pages: seq<PageData>) {
    forall p :: 0 <= p < |pages| ==> ValidPage(schema, pages[p])
  }

  /** The records of the first k pages of a file, page by page. */
  function ScanPages(schema: Schema, pages: seq<PageData>, col: int, k: nat): Scan
    requires ValidPages(schema, pages) && k <= |pages|
  {
    if k == 0 then []
    else ScanPages(schema, pages, col, k - 1) + ScanPage(schema, pages[k - 1], col, k - 1, Count(pages[k - 1]))
  }

  function ScanFile(schema: Schema, pages: seq<PageData>, col: int): Scan
    requires ValidPages(schema, pages)
  {
    ScanPages(schema, pages, col, |pages|)
  }

  // ---------- what a scan meets ----------

  predicate Before(a: Loc, b: Loc) {
    a.pageId < b.pageId || (a.pageId == b.pageId && a.recIdx < b.recIdx)
  }

  /** Page by page and slot by slot, no location twice. */
  predicate Ascending(locs: seq<Loc>) {
    forall i, j :: 0 <= i < j < |locs| ==> Before(locs[i], locs[j])
  }

  lemma {:induction false} LocsOfConcat(a: Scan, b: Scan, key: int)
    ensures LocsOf(a + b, key) == LocsOf(a, key) + LocsOf(b, key)
    decreases |b|
  {
    if b == [] {
      assert a + b == a;
    } else {
      var n := |b| - 1;
      assert (a + b)[..|a| + n] == a + b[..n];
      LocsOfConcat(a, b[..n], key);
    }
  }

  lemma ScanPageStep(schema: Schema, d: PageData, col: int, p: nat, n: nat)
    requires ValidPage(schema, d) && n <= RecordsPerPage(schema) && Indexable(schema, col)
    ensures ScanPage(schema, d, col, p, n) ==
      if n == 0 then [] else ScanPage(schema, d, col, p, n - 1) + [(KeyOf(schema, d, n - 1, col), Loc(p, n - 1))]
  {
  }

  lemma LastMet(scan: Scan, k: int, loc: Loc, key: int)
    ensures LocsOf(scan + [(k, loc)], key) == LocsOf(scan, key) + if k == key then [loc] else []
  {
  }

  lemma {:induction false} PageMeets(schema: Schema, d: PageData, col: int, p: nat, n: nat, key: int)
    requires ValidPage(schema, d) && n <= RecordsPerPage(schema) && Indexable(schema, col)
    ensures var locs := LocsOf(ScanPage(schema, d, col, p, n), key);
      && Ascending(locs)
      && forall x :: x in locs <==> x.pageId == p && x.recIdx < n && KeyOf(schema, d, x.recIdx, col) == key
  {
    hide RecordsPerPage, Count, RecordSize, KeyOf, ScanPage;
    ScanPageStep(schema, d, col, p, n);
    if n > 0 {
      PageMeets(schema, d, col, p, n - 1, key);
      LastMet(ScanPage(schema, d, col, p, n - 1), KeyOf(schema, d, n - 1, col), Loc(p, n - 1), key);
    }
  }

  lemma {:induction false} PagesMeet(schema: Schema, pages: seq<PageData>, col: int, k: nat, key: int)
    requires ValidPages(schema, pages) && k <= |pages| && Indexable(schema, col)
    ensures var locs := LocsOf(ScanPages(schema, pages, col, k), key);
      && Ascending(locs)
      && forall x :: x in locs <==>
           (x.pageId < k && x.recIdx < Count(pages[x.pageId])
            && KeyOf(schema, pages[x.pageId], x.recIdx, col) == key)
  {
    hide RecordsPerPage, Count, RecordSize, KeyOf, ScanPage;
    if k > 0 {
      var d := pages[k - 1];
      PagesMeet(schema, pages, col, k - 1, key);
      PageMeets(schema, d, col, k - 1, Count(d), key);
      LocsOfConcat(ScanPages(schema, pages, col, k - 1), ScanPage(schema, d, col, k - 1, Count(d)), key);
    }
  }

  /** There is a record at the location, and it reads back with this integer in the column. */
  predicate HoldsKey(schema: Schema, pages: seq<PageData>, col: nat, key: int, loc: Loc)
    requires ValidPages(schema, pages) && col < |schema|
  {
    && loc.pageId < |pages| && loc.recIdx < Count(pages[loc.pageId])
    && var f := DecodeRow(schema, Record(schema, pages[loc.pageId], loc.recIdx))[col];
       f.IntField? && f.val == key
  }

  /** Over any file a scan meets a key at exactly the records that hold it in the column, in page and slot
      order. */
  lemma ScanMeetsExactly(schema: Schema, pages: seq<PageData>, col: nat, key: int)
    requires ValidPages(schema, pages) && Indexable(schema, col)
    ensures var locs := LocsOf(ScanFile(schema, pages, col), key);
      Ascending(locs) && forall x :: x in locs <==> HoldsKey(schema, pages, col, key, x)
  {
    hide RecordsPerPage, Count, RecordSize, ScanPages, LocsOf, DecodeRow;
    PagesMeet(schema, pages, col, |pages|, key);
    forall x: Loc | x.pageId < |pages| && x.recIdx < Count(pages[x.pageId])
      ensures KeyOf(schema, pages[x.pageId], x.recIdx, col) == key <==> HoldsKey(schema, pages, col, key, x)
    {
      DecodeRowTypes(schema, Record(schema, pages[x.pageId], x.recIdx), col);
    }
  }

  lemma AddNothing(m: Entries)
    ensures AddAll(m, []) == m
  {
  }

  lemma {:induction false} AddAllConcat(m: Entries, a: Scan, b: Scan)
    ensures AddAll(m, a + b) == AddAll(AddAll(m, a), b)
    decreases |b|
  {
    if b == [] {
      assert a + b == a;
    } else {
      var n := |b| - 1;
      assert (a + b)[..|a| + n] == a + b[..n];
      AddAllConcat(m, a, b[..n]);
    }
  }

  // ---------- the code ----------

  class AvlIndex {
    const tree: AVLTree<IndexEntry>
    var built: bool

    ghost predicate Valid()
      reads this, tree, tree.root, ReprOf(tree.root)
    {
      tree.Valid()
    }

    constructor ()
      ensures Valid() && !built && tree.Entries() == map[] && fresh(tree) && tree.root == null
    {
      tree := new AVLTree();
      built := false;
    }

    /** Adds one location under a key. */
    method Insert(key: int, pageId: nat, recIdx: nat)
      requires Valid()
      modifies tree, ReprOf(tree.root)
      ensures Valid() && fresh(ReprOf(tree.root) - old(ReprOf(tree.root)))
      ensures tree.Entries() == AddKey(old(tree.Entries()), key, Loc(pageId, recIdx))
    {
      var found, existing := tree.Search(key, IndexEntry([]));
      tree.Insert(key, existing.Add(Loc(pageId, recIdx)));
    }

    /** The entry of a key; without one the caller's value is left as it was. */
    method Search(key: int, out: IndexEntry) returns (found: bool, entry: IndexEntry)
      requires Valid()
      ensures found <==> key in tree.Entries()
      ensures entry == if found then tree.Entries()[key] else out
    {
      found, entry := tree.Search(key, out);
    }

    /** Forgets a key. */
    method Remove(key: int)
      requires Valid()
      modifies tree, ReprOf(tree.root)
      ensures Valid() && tree.Entries() == old(tree.Entries()) - {key}
    {
      tree.Remove(key);
    }

    /** Adds every record of a file, page by page and slot by slot. */
    method Build(disk: DiskManager, path: string, schema: Schema, col: int)
      requires Valid() && ValidPages(schema, Pages(disk.files, path))
      modifies this`built, tree, ReprOf(tree.root)
      ensures Valid() && built && fresh(ReprOf(tree.root) - old(ReprOf(tree.root)))
      ensures tree.Entries() == AddAll(old(tree.Entries()), ScanFile(schema, Pages(disk.files, path), col))
    {
      hide AVLTree.Valid, ScanPage, DecodeRow, RecordsPerPage, RecordSize, AddAll;
      ghost var pages, m := Pages(disk.files, path), tree.Entries();
      AddNothing(m);
      var pgCount := disk.PageCount(path);
      for pid := 0 to pgCount
        invariant Valid() && fresh(ReprOf(tree.root) - old(ReprOf(tree.root)))
        invariant tree.Entries() == AddAll(m, ScanPages(schema, pages, col, pid))
      {
        var d := disk.Read(path, pid);
        AddPage(d, schema, col, pid);
        AddAllConcat(m, ScanPages(schema, pages, col, pid), ScanPage(schema, d, col, pid, Count(d)));
      }
      built := true;
    }

    method AddPage(d: PageData, schema: Schema, col: int, pid: nat)
      requires Valid() && ValidPage(schema, d)
      modifies tree, ReprOf(tree.root)
      ensures Valid() && fresh(ReprOf(tree.root) - old(ReprOf(tree.root)))
      ensures tree.Entries() == AddAll(old(tree.Entries()), ScanPage(schema, d, col, pid, Count(d)))
    {
      hide DecodeRow, AVLTree.Valid, RecordsPerPage, Count;
      ghost var m := tree.Entries();
      var recCnt := Count(d);
      for ri := 0 to recCnt
        invariant Valid() && fresh(ReprOf(tree.root) - old(ReprOf(tree.root)))
        invariant tree.Entries() == AddAll(m, ScanPage(schema, d, col, pid, ri))
      {
        if Indexable(schema, col) {
          Insert(KeyOf(schema, d, ri, col), pid, ri);
          ghost var s := ScanPage(schema, d, col, pid, ri + 1);
          assert s[..ri] == ScanPage(schema, d, col, pid, ri);
        }
      }
    }
  }
}
