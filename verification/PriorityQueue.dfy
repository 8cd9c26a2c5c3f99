/** The scheduler's queue: a binary min-heap in an array that doubles when it is full. */
module PriorityQueues {
  import opened Options

  datatype Entry<T> = Entry(priority: int, data: T)

  // ---------- heap order ----------

  function Parent(i: nat): nat
    requires i > 0
    ensures Parent(i) < i
  {
    (i - 1) / 2
  }

  /** An entry is not more urgent than its parent. */
  predicate Above<T>(h: seq<Entry<T>>, i: nat)
    requires 0 < i < |h|
  {
    h[Parent(i)].priority <= h[i].priority
  }

  predicate Heap<T>(h: seq<Entry<T>>) {
    forall i :: 0 < i < |h| ==> Above(h, i)
  }

  /** Heap order except between entry hole and its parent; the parent is still above the
      hole's children. */
  predicate HeapBut<T>(h: seq<Entry<T>>, hole: nat)
    requires hole < |h|
  {
    && (forall i :: 0 < i < |h| && i != hole ==> Above(h, i))
    && (forall i :: 0 < i < |h| && hole > 0 && Parent(i) == hole ==> h[Parent(hole)].priority <= h[i].priority)
  }

  /** Heap order except between entry hole and its children. */
  predicate HeapUnder<T>(h: seq<Entry<T>>, hole: nat)
    requires hole < |h|
  {
    && (forall i :: 0 < i < |h| && Parent(i) != hole ==> Above(h, i))
    && (forall i :: 0 < i < |h| && hole > 0 && Parent(i) == hole ==> h[Parent(hole)].priority <= h[i].priority)
  }

  /** The first entry is one of the most urgent. */
  lemma {:induction false} RootIsLeast<T>(h: seq<Entry<T>>, i: nat)
    requires Heap(h) && i < |h|
    ensures h[0].priority <= h[i].priority
    decreases i
  {
    if i > 0 {
      assert Above(h, i);
      RootIsLeast(h, Parent(i));
    }
  }

  /** The entries of a heap, without their order. */
  ghost function Bag<T>(h: seq<Entry<T>>): multiset<Entry<T>> {
    multiset(h)
  }

  function Swapped<T>(h: seq<T>, i: nat, j: nat): (h': seq<T>)
    requires i < |h| && j < |h|
    ensures |h'| == |h| && multiset(h') == multiset(h)
  {
    SwapKeepsEntries(h, i, j);
    h[i := h[j]][j := h[i]]
  }

  lemma SwapKeepsEntries<T>(h: seq<T>, i: nat, j: nat)
    requires i < |h| && j < |h|
    ensures multiset(h[i := h[j]][j := h[i]]) == multiset(h)
  {
  }

  /** Swapping an out-of-place entry with its parent moves the hole up. */
  lemma SwapUp<T>(h: seq<Entry<T>>, i: nat)
    requires 0 < i < |h| && HeapBut(h, i) && !Above(h, i)
    ensures HeapBut(Swapped(h, Parent(i), i), Parent(i))
  {
    var p, h' := Parent(i), Swapped(h, Parent(i), i);
    forall k | 0 < k < |h| && k != p
      ensures Above(h', k)
    {
      if k != i {
        assert Above(h, k);
      }
    }
    forall k | 0 < k < |h| && p > 0 && Parent(k) == p
      ensures h'[Parent(p)].priority <= h'[k].priority
    {
      assert Above(h, p);
      if k != i {
        assert Above(h, k);
      }
    }
  }

  /** Swapping an entry with its most urgent child moves the hole down. */
  lemma SwapDown<T>(h: seq<Entry<T>>, i: nat, c: nat)
    requires 0 < c < |h| && Parent(c) == i && HeapUnder(h, i)
    requires h[c].priority < h[i].priority
    requires forall k :: 0 < k < |h| && Parent(k) == i ==> h[c].priority <= h[k].priority
    ensures HeapUnder(Swapped(h, i, c), c)
  {
    var h' := Swapped(h, i, c);
    forall k | 0 < k < |h| && Parent(k) != c
      ensures Above(h', k)
    {
      if Parent(k) != i {
        assert Above(h, k);
      }
    }
    forall k | 0 < k < |h| && Parent(k) == c
      ensures h'[i].priority <= h'[k].priority
    {
      assert Above(h, k);
    }
  }

  lemma HoleFits<T>(h: seq<Entry<T>>, i: nat)
    requires i < |h| && HeapBut(h, i) && (i == 0 || h[(i - 1) / 2].priority <= h[i].priority)
    ensures Heap(h)
  {
  }

  lemma HoleIsAbove<T>(h: seq<Entry<T>>, i: nat)
    requires 0 < i < |h| && !(h[(i - 1) / 2].priority <= h[i].priority)
    ensures !Above(h, i) && Parent(i) == (i - 1) / 2
  {
  }

  /** The least of an entry and its two children: itself when nothing is out of place. */
  lemma Children<T>(h: seq<Entry<T>>, i: nat, least: nat)
    requires i < |h| && HeapUnder(h, i)
    requires least == i || least == 2 * i + 1 || least == 2 * i + 2
    requires least < |h| && forall k :: 2 * i + 1 <= k <= 2 * i + 2 && k < |h| ==> h[least].priority <= h[k].priority
    ensures least == i ==> Heap(h)
    ensures least != i ==>
      Parent(least) == i && forall k :: 0 < k < |h| && Parent(k) == i ==> h[least].priority <= h[k].priority
  {
    forall k | 0 < k < |h| && Parent(k) == i
      ensures 2 * i + 1 <= k <= 2 * i + 2
    {
    }
    if least == i {
      forall k | 0 < k < |h|
        ensures Above(h, k)
      {
        if Parent(k) == i {
          assert 2 * i + 1 <= k <= 2 * i + 2;
        }
      }
    }
  }

  lemma EmptyIsHeap<T>(h: seq<Entry<T>>)
    requires |h| == 0
    ensures Heap(h) && Bag(h) == multiset{}
  {
  }

  /** One of the most urgent of what was queued is taken out, once. */
  ghost predicate Taken<T(!new)>(before: multiset<Entry<T>>, e: Entry<T>, after: multiset<Entry<T>>) {
    && e in before && after == before - multiset{e}
    && forall x :: x in before ==> e.priority <= x.priority
  }

  /** Entries leave in order of urgency, and what is still queued is no more urgent. */
  ghost predicate InOrder<T(!new)>(entries: seq<Entry<T>>, rest: multiset<Entry<T>>) {
    && (forall i, j :: 0 <= i < j < |entries| ==> entries[i].priority <= entries[j].priority)
    && (forall i, x :: 0 <= i < |entries| && x in rest ==> entries[i].priority <= x.priority)
  }

  lemma TakeNext<T(!new)>(entries: seq<Entry<T>>, before: multiset<Entry<T>>, e: Entry<T>, after: multiset<Entry<T>>)
    requires InOrder(entries, before) && Taken(before, e, after)
    ensures InOrder(entries + [e], after)
    ensures multiset(entries + [e]) + after == multiset(entries) + before
  {
  }

  lemma StartInOrder<T(!new)>(rest: multiset<Entry<T>>)
    ensures InOrder([], rest)
  {
  }

  lemma Ordered<T(!new)>(entries: seq<Entry<T>>, rest: multiset<Entry<T>>)
    requires InOrder(entries, rest)
    ensures forall i, j :: 0 <= i < j < |entries| ==> entries[i].priority <= entries[j].priority
  {
  }

  lemma NewLast<T>(h: seq<Entry<T>>, e: Entry<T>)
    requires Heap(h)
    ensures HeapBut(h + [e], |h|) && Bag(h + [e]) == Bag(h) + multiset{e}
  {
    forall i | 0 < i < |h|
      ensures Above(h + [e], i)
    {
      assert Above(h, i);
    }
  }

  lemma RootIsLeastOfAll<T>(h: seq<Entry<T>>)
    requires Heap(h) && h != []
    ensures forall x :: x in multiset(h) ==> h[0].priority <= x.priority
  {
    forall x | x in multiset(h)
      ensures h[0].priority <= x.priority
    {
      var i :| 0 <= i < |h| && h[i] == x;
      RootIsLeast(h, i);
    }
  }

  lemma RootIsTaken<T(!new)>(h: seq<Entry<T>>)
    requires Heap(h) && h != []
    ensures Taken(Bag(h), h[0], Bag(h) - multiset{h[0]})
  {
    RootIsLeastOfAll(h);
    assert h[0] in h;
  }

  /** The last entry in the root's place: what is left is everything but the root. */
  lemma LastToRoot<T>(h: seq<Entry<T>>)
    requires Heap(h) && h != []
    ensures var n := |h| - 1; var h' := if n == 0 then [] else h[..n][0 := h[n]];
      && Bag(h') == Bag(h) - multiset{h[0]}
      && (n > 0 ==> HeapUnder(h', 0))
  {
    var n := |h| - 1;
    assert h == h[..n] + [h[n]];
    if n > 0 {
      var h' := h[..n][0 := h[n]];
      forall i | 0 < i < n && Parent(i) != 0
        ensures Above(h', i)
      {
        assert Above(h, i);
      }
    }
  }

  // ---------- the code ----------

  class PriorityQueue<T(0, !new)> {
    var heap: array<Entry<T>>
    var size: nat

    ghost predicate Sized()
      reads this
    {
      size <= heap.Length && heap.Length > 0
    }

    ghost predicate Valid()
      reads this, heap
    {
      Sized() && Heap(heap[..size])
    }

    /** What is queued. */
    ghost function Contents(): multiset<Entry<T>>
      requires Sized()
      reads this, heap
    {
      Bag(heap[..size])
    }

    constructor (capacity: nat)
      requires capacity > 0
      ensures Valid() && Contents() == multiset{} && fresh(heap)
    {
      heap := new Entry<T>[capacity];
      size := 0;
    }

    predicate IsEmpty()
      reads this
    {
      size == 0
    }

    /** Queues a value. */
    method Enqueue(val: T, priority: int)
      requires Valid()
      modifies this, heap
      ensures Valid() && Contents() == old(Contents()) + multiset{Entry(priority, val)}
      ensures heap == old(heap) || fresh(heap)
    {
      hide Heap, HeapBut, Above, Bag;
      if size >= heap.Length {
        Resize();
      }
      ghost var h := heap[..size];
      heap[size] := Entry(priority, val);
      assert heap[..size + 1] == h + [Entry(priority, val)];
      NewLast(h, Entry(priority, val));
      SiftUp(size);
      size := size + 1;
    }

    /** Takes a most urgent value; an empty queue has none to give. */
    method Dequeue() returns (val: Option<T>, ghost e: Entry<T>)
      requires Valid()
      modifies this, heap
      ensures Valid() && heap == old(heap)
      ensures val == None <==> old(size) == 0
      ensures val == None ==> Contents() == old(Contents()) == multiset{}
      ensures val != None ==>
        val == Some(e.data) && Taken(old(Contents()), e, Contents()) && size == old(size) - 1
    {
      hide Heap, HeapUnder, Above, Taken, Bag;
      e := heap[0];
      if IsEmpty() {
        EmptyIsHeap(heap[..0]);
        return None, e;
      }
      ghost var h := heap[..size];
      RootIsTaken(h);
      LastToRoot(h);
      val := Some(heap[0].data);
      size := size - 1;
      heap[0] := heap[size];
      assert heap[..size] == if size == 0 then [] else h[..size][0 := h[size]];
      if size > 0 {
        SiftDown(0);
      } else {
        EmptyIsHeap(heap[..0]);
      }
    }

    method SiftUp(start: nat)
      requires Sized() && start == size < heap.Length && HeapBut(heap[..size + 1], start)
      modifies heap
      ensures Heap(heap[..size + 1]) && Bag(heap[..size + 1]) == Bag(old(heap[..size + 1]))
    {
      hide Heap, HeapBut, Above, Swapped;
      var i := start;
      ghost var h := heap[..size + 1];
      while i > 0
        invariant 0 <= i <= size && h == heap[..size + 1] && HeapBut(h, i)
        invariant Bag(h) == Bag(old(heap[..size + 1]))
      {
        var parent := (i - 1) / 2;
        if heap[parent].priority <= heap[i].priority {
          HoleFits(h, i);
          return;
        }
        HoleIsAbove(h, i);
        SwapUp(h, i);
        h := Swapped(h, parent, i);
        Swap(parent, i, size + 1);
        i := parent;
      }
      HoleFits(h, 0);
    }

    method SiftDown(start: nat)
      requires Sized() && start < size && HeapUnder(heap[..size], start)
      modifies heap
      ensures Heap(heap[..size]) && Bag(heap[..size]) == Bag(old(heap[..size]))
    {
      hide Heap, HeapUnder, Above, Swapped;
      var i := start;
      ghost var h := heap[..size];
      while true
        invariant i < size && h == heap[..size] && HeapUnder(h, i)
        invariant Bag(h) == Bag(old(heap[..size]))
        decreases size - i
      {
        var smallest := i;
        var left, right := 2 * i + 1, 2 * i + 2;
        if left < size && heap[left].priority < heap[smallest].priority {
          smallest := left;
        }
        if right < size && heap[right].priority < heap[smallest].priority {
          smallest := right;
        }
        Children(h, i, smallest);
        if smallest == i {
          return;
        }
        SwapDown(h, i, smallest);
        h := Swapped(h, i, smallest);
        Swap(i, smallest, size);
        i := smallest;
      }
    }

    method Swap(a: nat, b: nat, ghost n: nat)
      requires a < n && b < n && n <= heap.Length
      modifies heap
      ensures heap[..n] == Swapped(old(heap[..n]), a, b)
    {
      heap[a], heap[b] := heap[b], heap[a];
    }

    /** Moves the queue to an array twice as long. */
    method Resize()
      requires Sized()
      modifies this`heap
      ensures fresh(heap) && heap.Length == 2 * old(heap.Length) && Sized()
      ensures heap[..size] == old(heap[..size])
    {
      var newHeap := new Entry<T>[2 * heap.Length];
      for i := 0 to size
        invariant heap == old(heap) && newHeap[..i] == heap[..i]
      {
        newHeap[i] := heap[i];
      }
      heap := newHeap;
    }

    /** Takes everything out: the whole contents, most urgent first. */
    method Drain() returns (order: seq<T>, ghost entries: seq<Entry<T>>)
      requires Valid()
      modifies this, heap
      ensures Valid() && size == 0 && Contents() == multiset{} && heap == old(heap)
      ensures |order| == |entries| && forall i :: 0 <= i < |order| ==> order[i] == entries[i].data
      ensures multiset(entries) == old(Contents())
      ensures forall i, j :: 0 <= i < j < |entries| ==> entries[i].priority <= entries[j].priority
    {
      hide Heap, InOrder, Taken;
      order, entries := [], [];
      StartInOrder(Contents());
      while !IsEmpty()
        invariant Valid() && Sized() && heap == old(heap)
        invariant multiset(entries) + Contents() == old(Contents()) && InOrder(entries, Contents())
        invariant |order| == |entries| && forall i :: 0 <= i < |order| ==> order[i] == entries[i].data
        decreases size
      {
        ghost var before := Contents();
        var task, e := Dequeue();
        TakeNext(entries, before, e, Contents());
        order, entries := order + [task.value], entries + [e];
      }
      Ordered(entries, Contents());
    }
  }
}
