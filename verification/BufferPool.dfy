/** The buffer pool as the code keeps it: arrays of pages, frame infos, list nodes and free
    frames, a doubly linked recency list and a hash map, all coupled. */
module BufferPools {
  import opened Disk
  import opened PoolModel
  import opened Sequences
  import opened Recency
  import opened PoolRuns
  import opened DoublyLinkedLists
  import opened IntHashMaps

  /** The map sends exactly the held keys to their frames. */
  ghost predicate MapTied(entries: map<int, int>, p: Pool)
    requires InRange(p)
  {
    && (forall f :: f in p.order ==> p.frames[f].id.Key() in entries && entries[p.frames[f].id.Key()] == f)
    && (forall k :: k in entries ==> entries[k] in p.order && p.frames[entries[k]].id.Key() == k)
  }

  /** A held key is found at the position of the frame the map gives for it. */
  lemma FoundInMap(entries: map<int, int>, p: Pool, key: int)
    requires WellFormed(p) && MapTied(entries, p)
    ensures key in entries <==> key in Keys(p)
    ensures key in entries ==> p.order[IndexOf(Keys(p), key)] == entries[key]
  {
    if key in entries {
      var i :| 0 <= i < |p.order| && p.order[i] == entries[key];
      assert Keys(p)[i] == key;
    }
    if key in Keys(p) {
      var i := IndexOf(Keys(p), key);
      assert p.order[i] in p.order;
    }
  }

  lemma NothingTied(p: Pool)
    requires WellFormed(p) && p.order == []
    ensures InRange(p) && MapTied(map[], p)
  {
  }

  lemma MovedTied(entries: map<int, int>, p: Pool, i: nat)
    requires InRange(p) && MapTied(entries, p) && NoDuplicates(p.order) && i < |p.order|
    ensures var q := p.(order := [p.order[i]] + Without(p.order, i)); InRange(q) && MapTied(entries, q)
  {
    KeysOfMoved(p, i);
    MovedKeepsDistinct(p.order, i);
  }

  /** Loading a new key into a loose frame ties the map with that key added. */
  lemma InstalledTied(entries: map<int, int>, s: State, f: nat, id: PageId)
    requires InRange(s.pool) && MapTied(entries, s.pool) && f < |s.pool.frames| && id.Valid()
    requires f !in s.pool.order && id.Key() !in entries
    ensures var q := Install(s, f, id).pool; InRange(q) && MapTied(entries[id.Key() := f], q)
  {
    var q, m := Install(s, f, id).pool, entries[id.Key() := f];
    forall g | g in q.order
      ensures q.frames[g].id.Key() in m && m[q.frames[g].id.Key()] == g
    {
      assert g == f || g in s.pool.order;
    }
    assert f in q.order;
    assert forall g :: g in s.pool.order ==> g in q.order;
  }

  /** The least recently fetched frame. */
  function LastFrame(p: Pool): nat
    requires p.order != []
  {
    p.order[|p.order| - 1]
  }

  /** What an eviction may rely on. */
  lemma EvictFacts(p: Pool)
    requires WellFormed(p) && p.order != []
    ensures NoDuplicates(p.order) && LastFrame(p) < |p.frames| && p.frames[LastFrame(p)].page.pageId >= 0
    ensures InRange(p)
  {
  }

  lemma OccupiedFacts(p: Pool, i: nat)
    requires InRange(p) && i < |p.order|
    ensures p.order[i] in p.order && p.order[i] < |p.frames|
  {
  }

  /** Evicting the last frame of the order ties the map with its key removed. */
  lemma EvictedTied(entries: map<int, int>, s: State)
    requires WellFormed(s.pool) && MapTied(entries, s.pool) && s.pool.order != []
    ensures var q := Evict(s).pool;
      InRange(q) && MapTied(entries - {s.pool.frames[LastFrame(s.pool)].id.Key()}, q)
  {
    var p, q := s.pool, Evict(s).pool;
    var n, f := |p.order| - 1, LastFrame(p);
    assert f in p.order;
    forall g | g in q.order
      ensures g in p.order && p.frames[g].id.Key() != p.frames[f].id.Key()
    {
      var i :| 0 <= i < n && p.order[i] == g;
      assert Keys(p)[i] != Keys(p)[n];
    }
    forall g | g in p.order && g != f
      ensures g in q.order
    {
      var i :| 0 <= i < |p.order| && p.order[i] == g;
      assert q.order[i] == g;
    }
  }

  /** The three ways a fetch can go. */
  lemma FetchCases(s: State, id: PageId, entries: map<int, int>)
    requires WellFormed(s.pool) && id.Valid() && MapTied(entries, s.pool)
    ensures WellFormed(Fetch(s, id).pool)
    ensures var p := s.pool;
      if id.Key() in entries then
        var i := IndexOf(Keys(p), id.Key());
        && i < |p.order| && p.order[i] == entries[id.Key()] && NoDuplicates(p.order)
        && Fetch(s, id) == s.(pool := p.(order := [p.order[i]] + Without(p.order, i)))
      else if |p.free| > 0 then
        && p.free[|p.free| - 1] < |p.frames| && p.free[|p.free| - 1] !in p.order
        && Fetch(s, id) == Install(s.(pool := p.(free := p.free[..|p.free| - 1])), p.free[|p.free| - 1], id)
      else
        && p.order != [] && LastFrame(p) < |p.frames| && LastFrame(p) !in Evict(s).pool.order
        && Fetch(s, id) == Install(Evict(s), LastFrame(p), id)
  {
    FoundInMap(entries, s.pool, id.Key());
    FetchTouches(s, id);
  }

  class BufferPool {
    const capacity: nat
    const pages: array<Page>
    const frameInfos: array<PageId>
    const lruNodes: array<DLLNode?>
    const lruList: DoublyLinkedList
    const frameMap: IntHashMap
    const freeFrames: array<nat>
    const disk: DiskManager
    var freeCount: nat
    var evictionCount: nat
    /** The pool as a value. */
    ghost var view: Pool

    /** The arrays hold the value's frames and free stack. */
    ghost predicate ArraysMatch(p: Pool)
      reads this`freeCount, this`evictionCount, pages, frameInfos, freeFrames
    {
      && pages.Length == frameInfos.Length == freeFrames.Length == |p.frames| == capacity
      && (forall i {:trigger p.frames[i]} :: 0 <= i < capacity ==> p.frames[i] == Frame(frameInfos[i], pages[i]))
      && freeCount <= capacity && p.free == freeFrames[..freeCount] && p.evictions == evictionCount
    }

    /** The list carries the order, and each occupied frame points back to its node. */
    ghost predicate ListMatches(order: seq<nat>)
      reads lruList, lruList.nodes, lruNodes
    {
      && lruNodes.Length == capacity && lruList.Valid() && lruList.vals == order
      && forall f {:trigger f in order} :: f in order ==> f < capacity && NodeOf(f)
    }

    ghost predicate NodeOf(f: nat)
      reads lruList, lruList.nodes, lruNodes
      requires f < lruNodes.Length
    {
      lruNodes[f] != null && lruNodes[f] in lruList.nodes && lruNodes[f].data == f
    }

    /** All structures agree with the value. */
    ghost predicate Coupled()
      reads this, pages, frameInfos, freeFrames, lruNodes, lruList, lruList.nodes, frameMap, frameMap.buckets
    {
      && |view.frames| == capacity && |view.free| == freeCount
      && ArraysMatch(view) && ListMatches(view.order) && frameMap.Valid()
      && InRange(view) && MapTied(frameMap.entries, view)
    }

    ghost predicate Valid()
      reads this, pages, frameInfos, freeFrames, lruNodes, lruList, lruList.nodes, frameMap, frameMap.buckets
    {
      Coupled() && WellFormed(view)
    }

    ghost function Abs(): State
      reads this, disk
    {
      State(view, disk.files)
    }

    /** The arrays, the list and the map as they are set up agree with the empty pool. */
    lemma StartsCoupled(files: Files)
      requires capacity > 0 && view == Initial(capacity, files).pool && freeCount == capacity && evictionCount == 0
      requires pages.Length == frameInfos.Length == freeFrames.Length == lruNodes.Length == capacity
      requires forall i :: 0 <= i < capacity ==> pages[i] == BLANK && frameInfos[i] == PageId("", 0, 0)
      requires forall i :: 0 <= i < capacity ==> freeFrames[i] == capacity - 1 - i
      requires lruList.Valid() && lruList.vals == [] && frameMap.Valid() && frameMap.entries == map[]
      ensures Coupled()
    {
      hide WellFormed, IntHashMap.Valid, DoublyLinkedList.Valid, MapTied;
      InitialWellFormed(capacity, files);
      NothingTied(view);
    }

    constructor (capacity: nat, disk: DiskManager)
      requires capacity > 0
      ensures Valid() && Abs() == Initial(capacity, disk.files) && this.disk == disk
      ensures fresh(pages) && fresh(frameInfos) && fresh(freeFrames) && fresh(lruNodes)
      ensures fresh(lruList) && fresh(frameMap) && fresh(frameMap.buckets)
    {
      this.capacity := capacity;
      this.disk := disk;
      pages := new Page[capacity](_ => BLANK);
      frameInfos := new PageId[capacity](_ => PageId("", 0, 0));
      lruNodes := new DLLNode?[capacity](_ => null);
      freeFrames := new nat[capacity](i requires 0 <= i < capacity => capacity - 1 - i);
      lruList := new DoublyLinkedList();
      frameMap := new IntHashMap(capacity * 4);
      freeCount, evictionCount := capacity, 0;
      view := Initial(capacity, disk.files).pool;
      new;
      hide WellFormed, Coupled, IntHashMap.Valid, DoublyLinkedList.Valid;
      InitialWellFormed(capacity, disk.files);
      StartsCoupled(disk.files);
    }

    /** The list position of an occupied frame's node is its position in the order. */
    lemma NodeAt(order: seq<nat>, i: nat)
      requires ListMatches(order) && NoDuplicates(order) && i < |order|
      ensures order[i] < capacity && |lruList.nodes| == |order|
      ensures lruNodes[order[i]] == lruList.nodes[i]
    {
      var f := order[i];
      assert f in order && NodeOf(f);
      var j :| 0 <= j < |lruList.nodes| && lruList.nodes[j] == lruNodes[f];
      assert lruList.nodes[j].data == order[j];
    }

    /** A hit: the page's node moves to the front. */
    method Promote(frameIdx: nat, ghost order: seq<nat>, ghost i: nat)
      requires ListMatches(order) && NoDuplicates(order) && i < |order| && order[i] == frameIdx
      modifies lruList, lruList.nodes
      ensures ListMatches([frameIdx] + Without(order, i))
      ensures forall n :: n in lruList.nodes ==> n in old(lruList.nodes)
    {
      NodeAt(order, i);
      MovedKeepsDistinct(order, i);
      MovedKeepsDistinct(lruList.nodes, i);
      lruList.MoveToFront(lruNodes[frameIdx], i);
    }

    /** Takes the last node off the list. */
    method DropTail(ghost order: seq<nat>) returns (frameIdx: nat)
      requires ListMatches(order) && NoDuplicates(order) && order != []
      modifies lruList, lruList.nodes, lruNodes
      ensures frameIdx == order[|order| - 1] && ListMatches(order[..|order| - 1])
      ensures forall n :: n in lruList.nodes ==> n in old(lruList.nodes)
    {
      ghost var k, ns := |order| - 1, lruList.nodes;
      forall i | 0 <= i < |order|
        ensures order[i] < capacity && lruNodes[order[i]] == ns[i]
      {
        NodeAt(order, i);
      }
      frameIdx := lruList.PopTail();
      lruNodes[frameIdx] := null;
      forall f | f in order[..k]
        ensures f < capacity && NodeOf(f)
      {
        var i :| 0 <= i < k && order[i] == f;
        assert lruList.nodes[i] == ns[i] && lruList.nodes[i].data == order[i];
      }
    }
  
    /** Links a node for a loose frame in front of the list. */
    method PushFrame(frameIdx: nat, ghost order: seq<nat>)
      requires ListMatches(order) && frameIdx !in order && frameIdx < capacity
      modifies lruList, lruList.head, lruNodes
      ensures ListMatches([frameIdx] + order)
      ensures forall n :: n in lruList.nodes ==> n in old(lruList.nodes) || fresh(n)
    {
      lruNodes[frameIdx] := lruList.PushFront(frameIdx);
      forall f | f in [frameIdx] + order
        ensures f < capacity && NodeOf(f)
      {
        assert f == frameIdx || f in order;
      }
    }

    /** Writes a dirty page back, blanks its frame, and counts the eviction. */
    method BlankFrame(frameIdx: nat, ghost s: State)
      requires ArraysMatch(s.pool) && s.files == disk.files && frameIdx < capacity
      requires InRange(s.pool) && s.pool.order != [] && s.pool.order[|s.pool.order| - 1] == frameIdx
      requires s.pool.frames[frameIdx].page.pageId >= 0
      modifies this`evictionCount, pages, disk
      ensures ArraysMatch(Evict(s).pool) && disk.files == Evict(s).files
    {
      if pages[frameIdx].isDirty {
        disk.Write(frameInfos[frameIdx].file, pages[frameIdx].pageId, pages[frameIdx].data);
      }
      pages[frameIdx] := BLANK;
      evictionCount := evictionCount + 1;
    }

    /** Reads a page into a frame, or initialises it past the end of its file. */
    method FillFrame(frameIdx: nat, id: PageId, ghost s: State)
      requires ArraysMatch(s.pool) && s.files == disk.files && frameIdx < capacity && id.Valid()
      modifies pages, frameInfos
      ensures ArraysMatch(Install(s, frameIdx, id).pool)
    {
      var data := InitData(id.pid);
      var count := disk.PageCount(id.file);
      if count > id.pid {
        data := disk.Read(id.file, id.pid);
      }
      pages[frameIdx] := Page(id.pid, false, true, data);
      frameInfos[frameIdx] := id;
    }

    /** Takes the last node off the list and its key out of the map. */
    method ForgetTail(ghost p: Pool) returns (frameIdx: nat)
      requires ListMatches(p.order) && NoDuplicates(p.order) && p.order != [] && LastFrame(p) < capacity
      requires ArraysMatch(p) && frameMap.Valid()
      modifies lruList, lruList.nodes, lruNodes, frameMap, frameMap.buckets
      ensures frameIdx == LastFrame(p) && ListMatches(p.order[..|p.order| - 1])
      ensures forall n :: n in lruList.nodes ==> n in old(lruList.nodes)
      ensures ArraysMatch(p) && frameMap.Valid()
      ensures frameIdx < |p.frames| && frameMap.entries == old(frameMap.entries) - {p.frames[frameIdx].id.Key()}
    {
      hide ArraysMatch, ListMatches, IntHashMap.Valid, NoDuplicates;
      frameIdx := DropTail(p.order);
      FrameAt(p, frameIdx);
      var removed := frameMap.Remove(frameInfos[frameIdx].Key());
    }

    /** Gives up the least recently fetched page and returns its frame, which is then neither
        occupied nor free. */
    method EvictLRU() returns (frameIdx: nat)
      requires Valid() && view.order != []
      modifies this`view, this`evictionCount, lruList, lruList.nodes, frameMap, frameMap.buckets, lruNodes, pages, disk
      ensures Coupled() && forall n :: n in lruList.nodes ==> n in old(lruList.nodes)
      ensures frameIdx == old(LastFrame(view)) && Abs() == old(Evict(Abs()))
      ensures frameMap.entries == old(frameMap.entries) - {old(view.frames[LastFrame(view)].id.Key())}
    {
      hide WellFormed, ArraysMatch, ListMatches, MapTied, IntHashMap.Valid, InRange, NoDuplicates;
      ghost var s := Abs();
      EvictFacts(view);
      EvictedTied(frameMap.entries, s);
      frameIdx := ForgetTail(s.pool);
      BlankFrame(frameIdx, s);
      view := Evict(s).pool;
    }

    /** Loads a page into a frame that is neither occupied nor free, as the newest one. */
    method Load(frameIdx: nat, id: PageId)
      requires Coupled() && id.Valid() && frameIdx < capacity
      requires frameIdx !in view.order && id.Key() !in frameMap.entries
      modifies this`view, lruList, lruList.head, frameMap, frameMap.buckets, lruNodes, pages, frameInfos
      ensures Coupled() && forall n :: n in lruList.nodes ==> n in old(lruList.nodes) || fresh(n)
      ensures Abs() == Install(old(Abs()), frameIdx, id)
    {
      hide ArraysMatch, ListMatches, MapTied, IntHashMap.Valid, InRange;
      ghost var s := Abs();
      FillFrame(frameIdx, id, s);
      InstalledTied(frameMap.entries, s, frameIdx, id);
      frameMap.Put(id.Key(), frameIdx);
      PushFrame(frameIdx, s.pool.order);
      view := Install(s, frameIdx, id).pool;
    }

    /** Pops a free frame. */
    method PopFree() returns (frameIdx: nat)
      requires Valid() && freeCount > 0
      modifies this`view, this`freeCount
      ensures Coupled() && var n := |old(view.free)| - 1;
        n >= 0 && frameIdx == old(view.free)[n] && view == old(view).(free := old(view.free)[..n])
    {
      freeCount := freeCount - 1;
      frameIdx := freeFrames[freeCount];
      view := view.(free := view.free[..freeCount]);
    }

    /** A cache hit. */
    method Hit(frameIdx: nat, ghost i: nat)
      requires Coupled() && NoDuplicates(view.order) && i < |view.order| && view.order[i] == frameIdx
      modifies this`view, lruList, lruList.nodes
      ensures Coupled() && forall n :: n in lruList.nodes ==> n in old(lruList.nodes)
      ensures view == old(view).(order := [frameIdx] + Without(old(view.order), i))
    {
      hide ListMatches, MapTied, IntHashMap.Valid, InRange, NoDuplicates;
      MovedTied(frameMap.entries, view, i);
      Promote(frameIdx, view.order, i);
      view := view.(order := [frameIdx] + Without(view.order, i));
    }

    lemma HeadIsNode()
      requires Coupled()
      ensures lruList.head != null ==> lruList.head in lruList.nodes
    {
    }

    /** A cache miss: a free frame if there is one, otherwise an evicted one. */
    method Miss(id: PageId) returns (frameIdx: nat)
      requires Valid() && id.Valid() && id.Key() !in frameMap.entries
      modifies this, lruList, lruList.nodes, frameMap, frameMap.buckets, lruNodes, pages, frameInfos, disk
      ensures Coupled() && forall n :: n in lruList.nodes ==> n in old(lruList.nodes) || fresh(n)
      ensures Abs() == old(Fetch(Abs(), id)) && frameIdx == view.order[0]
    {
      hide WellFormed, ArraysMatch, ListMatches, MapTied, IntHashMap.Valid, InRange, NoDuplicates, Fetch;
      FetchCases(Abs(), id, frameMap.entries);
      if freeCount > 0 {
        frameIdx := PopFree();
      } else {
        frameIdx := EvictLRU();
      }
      HeadIsNode();
      Load(frameIdx, id);
    }

    /** Fetches a page from the cache or the disk and returns its frame, which is then the most
        recently fetched one. */
    method FetchPage(file: string, table: int, pid: nat) returns (frameIdx: nat)
      requires Valid() && PageId(file, table, pid).Valid()
      modifies this, lruList, lruList.nodes, frameMap, frameMap.buckets, lruNodes, pages, frameInfos, disk
      ensures Valid() && forall n :: n in lruList.nodes ==> n in old(lruList.nodes) || fresh(n)
      ensures Abs() == old(Fetch(Abs(), PageId(file, table, pid))) && frameIdx == view.order[0]
    {
      hide WellFormed, ArraysMatch, ListMatches, MapTied, IntHashMap.Valid, InRange, NoDuplicates, Fetch;
      var id := PageId(file, table, pid);
      FetchCases(Abs(), id, frameMap.entries);
      var found, idx := MapGet(id.Key());
      if found {
        Hit(idx, IndexOf(Keys(view), id.Key()));
        frameIdx := idx;
      } else {
        frameIdx := Miss(id);
      }
    }

    method MapGet(key: int) returns (found: bool, idx: nat)
      requires Coupled()
      ensures found <==> key in frameMap.entries
      ensures found ==> idx == frameMap.entries[key]
    {
      var ok, value := frameMap.Get(key);
      found, idx := ok, 0;
      if ok {
        assert frameMap.entries[key] in view.order;
        idx := value;
      }
    }

    /** A frame's parts are where the arrays have them. */
    lemma FrameAt(p: Pool, i: nat)
      requires ArraysMatch(p) && i < capacity
      ensures i < |p.frames| && i < pages.Length && i < frameInfos.Length
      ensures p.frames[i] == Frame(frameInfos[i], pages[i])
    {
      var f := p.frames[i];
    }

    /** Puts a page back into its frame. */
    method StorePage(i: nat, page: Page, ghost p: Pool)
      requires ArraysMatch(p) && i < |p.frames|
      modifies pages
      ensures ArraysMatch(SetPage(p, i, page))
    {
      pages[i] := page;
    }

    /** Marks a held page dirty; a page that is not held is ignored. */
    method MarkDirty(table: int, pid: nat)
      requires Valid()
      modifies this`view, pages
      ensures Valid() && Abs() == old(PoolModel.MarkDirty(Abs(), table, pid))
    {
      hide ArraysMatch, ListMatches, MapTied, IntHashMap.Valid, NoDuplicates, WellFormed, InRange, Keys, MakePageKey;
      var key := MakePageKey(table, pid);
      FoundInMap(frameMap.entries, view, key);
      var found, idx := MapGet(key);
      if found {
        OccupiedFacts(view, IndexOf(Keys(view), key));
        FrameAt(view, idx);
        SetPageKeeps(frameMap.entries, view, idx, view.frames[idx].page.(isDirty := true));
        StorePage(idx, pages[idx].(isDirty := true), view);
        view := SetPage(view, idx, view.frames[idx].page.(isDirty := true));
      }
    }

    /** What a caller writes through the pointer a fetch returns. */
    method EditPage(frameIdx: nat, data: PageData)
      requires Valid() && view.order != [] && frameIdx == view.order[0] < |view.frames|
      modifies this`view, pages
      ensures Valid() && Abs() == old(EditFront(Abs(), data))
    {
      hide ArraysMatch, ListMatches, MapTied, IntHashMap.Valid, NoDuplicates, WellFormed, InRange;
      OccupiedFacts(view, 0);
      FrameAt(view, frameIdx);
      ghost var page := view.frames[frameIdx].page.(data := data);
      SetPageKeeps(frameMap.entries, view, frameIdx, page);
      StorePage(frameIdx, pages[frameIdx].(data := data), view);
      view := SetPage(view, frameIdx, page);
    }

    /** Fetches a page, edits it and marks it dirty. */
    method UpdatePage(file: string, table: int, pid: nat, edit: PageData -> PageData)
      requires Valid() && PageId(file, table, pid).Valid()
      modifies this, lruList, lruList.nodes, frameMap, frameMap.buckets, lruNodes, pages, frameInfos, disk
      ensures Valid() && forall n :: n in lruList.nodes ==> n in old(lruList.nodes) || fresh(n)
      ensures Abs() == old(Update(Abs(), PageId(file, table, pid), edit))
    {
      hide WellFormed, MapTied, IntHashMap.Valid, NoDuplicates, Fetch, Update, PoolModel.MarkDirty;
      MarkFindsFetched(Abs(), PageId(file, table, pid), edit);
      var frameIdx := FetchPage(file, table, pid);
      OccupiedFacts(view, 0);
      FrameAt(view, frameIdx);
      EditPage(frameIdx, edit(pages[frameIdx].data));
      MarkDirty(table, pid);
    }

    lemma FrameCount()
      requires Valid()
      ensures |view.frames| == capacity
    {
    }

    /** Writes back every dirty page the scope takes, frame by frame. */
    method FlushAll(scope: Scope)
      requires Valid()
      modifies this`view, pages, disk
      ensures Valid() && Abs() == old(Flush(Abs(), scope))
    {
      hide BufferPool.Valid, FlushFrame, FlushUpTo;
      ghost var s := Abs();
      FrameCount();
      FlushNothing(s, scope);
      for i := 0 to capacity
        invariant Valid() && Abs() == FlushUpTo(s, i, scope)
      {
        FlushStep(s, i, scope);
        FlushOne(i, scope);
      }
    }

    /** Writes one frame's page back and clears its dirty flag, if the scope takes it. */
    method CleanFrame(i: nat, scope: Scope, ghost s: State)
      requires ArraysMatch(s.pool) && s.files == disk.files && i < capacity
      modifies pages, disk
      ensures ArraysMatch(FlushFrame(s, i, scope).pool) && disk.files == FlushFrame(s, i, scope).files
    {
      var frame := Frame(frameInfos[i], pages[i]);
      assert s.pool.frames[i] == frame;
      if scope.Takes(frame) && frame.page.pageId >= 0 {
        disk.Write(frame.id.file, frame.page.pageId, frame.page.data);
        pages[i] := pages[i].(isDirty := false);
      }
    }

    method FlushOne(i: nat, scope: Scope)
      requires Valid() && i < capacity
      modifies this`view, pages, disk
      ensures Valid() && Abs() == old(FlushFrame(Abs(), i, scope))
    {
      hide ArraysMatch, ListMatches, MapTied, IntHashMap.Valid, WellFormed, InRange, FlushFrame;
      ghost var s := Abs();
      FlushFrameKeeps(frameMap.entries, s, i, scope);
      CleanFrame(i, scope, s);
      view := FlushFrame(s, i, scope).pool;
    }
  }

  lemma FlushNothing(s: State, scope: Scope)
    ensures FlushUpTo(s, 0, scope) == s
  {
  }

  lemma FlushStep(s: State, n: nat, scope: Scope)
    requires n < |s.pool.frames|
    ensures FlushUpTo(s, n + 1, scope) == FlushFrame(FlushUpTo(s, n, scope), n, scope)
  {
  }

  lemma FlushFrameKeeps(entries: map<int, int>, s: State, f: nat, scope: Scope)
    requires WellFormed(s.pool) && MapTied(entries, s.pool) && f < |s.pool.frames|
    ensures var q := FlushFrame(s, f, scope).pool;
      && WellFormed(q) && InRange(q) && MapTied(entries, q)
      && q.order == s.pool.order && q.free == s.pool.free && |q.frames| == |s.pool.frames|
  {
    SetPageKeeps(entries, s.pool, f, s.pool.frames[f].page.(isDirty := false));
  }

  /** Changing a page's bytes or dirty flag disturbs nothing else. */
  lemma SetPageKeeps(entries: map<int, int>, p: Pool, f: nat, page: Page)
    requires WellFormed(p) && MapTied(entries, p) && f < |p.frames|
    requires page.isValid == p.frames[f].page.isValid && page.pageId == p.frames[f].page.pageId
    ensures var q := SetPage(p, f, page); WellFormed(q) && InRange(q) && MapTied(entries, q)
  {
    SameShapeKeeps(p, SetPage(p, f, page));
  }
}
