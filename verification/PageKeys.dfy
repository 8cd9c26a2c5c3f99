/** When the pool's 32-bit page keys tell pages apart. */
module PageKeys {
  import opened Disk
  import opened PoolModel
  import opened Sequences
  import opened PoolRuns
  import opened Transparency

  /** Table hashes lie below this bound. */
  const HASH_BOUND := 99991

  /** The largest number of pages per file for which no two keys collide. */
  const SAFE_PAGES := 32704

  predicate Hashed(table: int) {
    0 <= table < HASH_BOUND
  }

  /** Keys below n pages per file are distinct for all table hashes. */
  ghost predicate KeysDistinct(n: nat) {
    forall h, h', p, p' {:trigger MakePageKey(h, p), MakePageKey(h', p')} ::
      Hashed(h) && Hashed(h') && 0 <= p < n && 0 <= p' < n && MakePageKey(h, p) == MakePageKey(h', p')
      ==> h == h' && p == p'
  }

  lemma WrapsApart(a: int, b: int)
    requires Wrapped(a) == Wrapped(b) && -0x3_0000_0000 < a - b < 0x3_0000_0000
    ensures || a - b == 0 || a - b == 0x1_0000_0000 || b - a == 0x1_0000_0000
            || a - b == 0x2_0000_0000 || b - a == 0x2_0000_0000
  {
    var m := 0x1_0000_0000;
    assert a == m * (a / m) + a % m && b == m * (b / m) + b % m;
    assert a - b == m * (a / m - b / m);
  }

  /** Distances between keys of small pages: zero only for the same page, and never one or two
      times 2^32. */
  lemma NoDistance(d: int, e: int)
    requires -SAFE_PAGES < e < SAFE_PAGES && d * 100000 + e == 0
    ensures d == 0 && e == 0
  {
  }

  lemma NotOneWrap(d: int, e: int)
    requires -SAFE_PAGES < e < SAFE_PAGES
    ensures d * 100000 + e != 0x1_0000_0000
  {
    if d <= 42949 {
      assert d * 100000 + e <= 42949 * 100000 + 32703;
    } else {
      assert d * 100000 + e >= 42950 * 100000 - 32703;
    }
  }

  lemma NotTwoWraps(d: int, e: int)
    requires -SAFE_PAGES < e < SAFE_PAGES
    ensures d * 100000 + e != 0x2_0000_0000
  {
    if d <= 85899 {
      assert d * 100000 + e <= 85899 * 100000 + 32703;
    } else {
      assert d * 100000 + e >= 85900 * 100000 - 32703;
    }
  }

  lemma SmallPagesDistinct(h: int, h': int, p: int, p': int)
    requires Hashed(h) && Hashed(h') && 0 <= p < SAFE_PAGES && 0 <= p' < SAFE_PAGES
    requires MakePageKey(h, p) == MakePageKey(h', p')
    ensures h == h' && p == p'
  {
    hide Wrapped;
    var d, e := h - h', p - p';
    WrapsApart(h * 100000 + p, h' * 100000 + p');
    NotOneWrap(d, e);
    NotOneWrap(-d, -e);
    NotTwoWraps(d, e);
    NotTwoWraps(-d, -e);
    NoDistance(d, e);
  }

  /** The exact bound: table hash 42950, page 0 wraps onto table hash 0, page 32704. */
  lemma KeysDistinctExactly(n: nat)
    ensures KeysDistinct(n) <==> n <= SAFE_PAGES
  {
    if n <= SAFE_PAGES {
      forall h, h', p, p' | Hashed(h) && Hashed(h') && 0 <= p < n && 0 <= p' < n && MakePageKey(h, p) ==
        MakePageKey(h', p')
        ensures h == h' && p == p'
      {
        SmallPagesDistinct(h, h', p, p');
      }
    } else {
      assert MakePageKey(42950, 0) == MakePageKey(0, SAFE_PAGES);
    }
  }

  /** One file per table hash, at most 32704 pages each: the pool is transparent for any such
      set of pages. */
  lemma SmallFilesAreCoherent(u: set<PageId>, fileOf: map<int, string>)
    requires forall a :: a in u ==>
      Hashed(a.table) && a.pid < SAFE_PAGES && a.table in fileOf && a.file == fileOf[a.table]
    requires forall h, h' :: h in fileOf && h' in fileOf && fileOf[h] == fileOf[h'] ==> h == h'
    ensures Coherent(u)
  {
    forall a, b | a in u && b in u && (a.Key() == b.Key() || (a.file == b.file && a.pid == b.pid))
      ensures a == b
    {
      if a.Key() == b.Key() {
        SmallPagesDistinct(a.table, b.table, a.pid, b.pid);
      }
    }
  }

  /** What a collision costs: when two pages share a key and hold different records on disk, one
      fetch of the first makes the pool show its records for the second. */
  lemma CollisionShowsWrongRecords(capacity: nat, files: Files, a: PageId, b: PageId)
    requires capacity > 0 && a.Valid() && b.Valid() && a.Key() == b.Key()
    requires Body(ReadPage(files, a.file, a.pid)) != Body(ReadPage(files, b.file, b.pid))
    ensures var s := Run(capacity, files, [Access(a)]);
      && Content(s, b) == ReadPage(files, a.file, a.pid)
      && Body(Content(s, b)) != Body(Views(files, [Access(a)])(b))
  {
  }
}
