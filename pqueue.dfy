/**
 * `MyPQueue`: a priority queue kept as a 1-based min-heap on the priority in
 * an array; slot 0 is unused and the live cells are `heap[1..entries]`.
 * Its abstract state is the multiset of (value, priority) cells.
 */
module PQueue {
  import opened Wrappers
  import opened SeqFacts

  const INITIAL_CAPACITY: int := 10

  datatype Cell<V> = Cell(value: V, priority: int)

  /** Node `j` has a priority no smaller than its parent's. */
  ghost predicate Ordered<V>(h: seq<Cell<V>>, j: int)
    requires 2 <= j < |h|
  {
    h[j / 2].priority <= h[j].priority
  }

  /** Every node from 2 to `n` is ordered with its parent. */
  ghost predicate MinHeap<V>(h: seq<Cell<V>>, n: int)
    requires n < |h|
  {
    forall j :: 2 <= j <= n ==> Ordered(h, j)
  }

  /** Heap order holds except between node `u` and its children. */
  ghost predicate HeapBelowExcept<V>(h: seq<Cell<V>>, u: int, n: int)
    requires n < |h|
  {
    forall j :: 2 <= j <= n && j / 2 != u ==> Ordered(h, j)
  }

  /** The parent of `u`, if any, is no larger than `u`'s children. */
  ghost predicate ParentBelowChildren<V>(h: seq<Cell<V>>, u: int, n: int)
    requires n < |h|
  {
    forall j :: 2 <= j <= n && j / 2 == u && 1 <= u / 2 ==> h[u / 2].priority <= h[j].priority
  }

  /** Heap order holds except between node `u` and its parent. */
  ghost predicate HeapAboveExcept<V>(h: seq<Cell<V>>, u: int, n: int)
    requires n < |h|
  {
    forall j :: 2 <= j <= n && j != u ==> Ordered(h, j)
  }

  /** `c` has the least priority of `m`. */
  ghost predicate IsMin<V>(c: Cell<V>, m: multiset<Cell<V>>) {
    forall d :: d in m ==> c.priority <= d.priority
  }

  /** The first node of a min-heap has the least priority. */
  lemma {:induction false} RootIsMin<V>(h: seq<Cell<V>>, n: int, i: int)
    requires n < |h| && MinHeap(h, n) && 1 <= i <= n
    ensures h[1].priority <= h[i].priority
    decreases i
  {
    if i > 1 {
      assert Ordered(h, i);
      RootIsMin(h, n, i / 2);
    }
  }

  /** The first live cell is in the queue and has its least priority. */
  lemma RootIsMinOfContents<V>(h: seq<Cell<V>>, n: int)
    requires 1 <= n < |h| && MinHeap(h, n)
    ensures h[1] in multiset(h[1..n + 1]) && IsMin(h[1], multiset(h[1..n + 1]))
  {
    assert h[1..n + 1][0] == h[1];
    forall d | d in multiset(h[1..n + 1]) ensures h[1].priority <= d.priority {
      var i :| 0 <= i < n && h[1..n + 1][i] == d;
      RootIsMin(h, n, i + 1);
    }
  }

  /** Two arrays that agree on the live slots are heaps together. */
  lemma SameLiveSlots<V>(h: seq<Cell<V>>, g: seq<Cell<V>>, n: int)
    requires n < |h| && n < |g| && MinHeap(g, n)
    requires forall j :: 1 <= j <= n ==> h[j] == g[j]
    ensures MinHeap(h, n)
  {
    forall j | 2 <= j <= n ensures Ordered(h, j) {
      assert Ordered(g, j);
      assert h[j / 2] == g[j / 2];
    }
  }

  /** No swap is needed at `u`: the exception is gone. */
  lemma DownSettled<V>(h: seq<Cell<V>>, u: int, n: int)
    requires 1 <= u && n < |h|
    requires HeapBelowExcept(h, u, n) && ParentBelowChildren(h, u, n)
    requires 2 * u <= n ==> h[u].priority <= h[2 * u].priority
    requires 2 * u + 1 <= n ==> h[u].priority <= h[2 * u + 1].priority
    ensures MinHeap(h, n)
  {
    forall j | 2 <= j <= n ensures Ordered(h, j) {
      if j / 2 == u {
        assert j == 2 * u || j == 2 * u + 1;
      }
    }
  }

  /** Swapping `u` with its smaller child `t` moves the exception down to `t`. */
  lemma DownSwapOrder<V>(h0: seq<Cell<V>>, h1: seq<Cell<V>>, u: int, t: int, n: int)
    requires 1 <= u && n < |h0|
    requires (t == 2 * u || t == 2 * u + 1) && t <= n
    requires h1 == h0[t := h0[u]][u := h0[t]]
    requires h0[t].priority < h0[u].priority
    requires 2 * u <= n ==> h0[t].priority <= h0[2 * u].priority
    requires 2 * u + 1 <= n ==> h0[t].priority <= h0[2 * u + 1].priority
    requires HeapBelowExcept(h0, u, n) && ParentBelowChildren(h0, u, n)
    ensures HeapBelowExcept(h1, t, n)
  {
    forall j | 2 <= j <= n && j / 2 != t ensures Ordered(h1, j) {
      if j / 2 == u {
        assert j == 2 * u || j == 2 * u + 1;
      } else if j == u {
        assert h0[j / 2].priority <= h0[t].priority;
      } else {
        assert Ordered(h0, j);
        assert j != t && j / 2 != t;
      }
    }
  }

  lemma DownSwapParent<V>(h0: seq<Cell<V>>, h1: seq<Cell<V>>, u: int, t: int, n: int)
    requires 1 <= u && n < |h0|
    requires (t == 2 * u || t == 2 * u + 1) && t <= n
    requires h1 == h0[t := h0[u]][u := h0[t]]
    requires HeapBelowExcept(h0, u, n)
    ensures ParentBelowChildren(h1, t, n)
  {
    forall j | 2 <= j <= n && j / 2 == t && 1 <= t / 2 ensures h1[t / 2].priority <= h1[j].priority {
      assert t / 2 == u;
      assert Ordered(h0, j);
    }
  }

  /** Swapping two slots keeps the multiset and every slot outside `u..n`. */
  lemma SwapKeeps<V>(h0: seq<Cell<V>>, h1: seq<Cell<V>>, u: int, t: int, n: int)
    requires 0 <= u <= n && 0 <= t <= n && n < |h0|
    requires h1 == h0[t := h0[u]][u := h0[t]]
    ensures multiset(h1) == multiset(h0) && SameOutside(h1, h0, if u < t then u else t, n)
  {
  }

  /** No swap is needed at `u`: its parent is no larger, so the heap is whole. */
  lemma UpSettled<V>(h: seq<Cell<V>>, u: int, n: int)
    requires 1 <= u <= n < |h|
    requires HeapAboveExcept(h, u, n)
    requires u / 2 >= 1 ==> h[u / 2].priority <= h[u].priority
    ensures MinHeap(h, n)
  {
    forall j | 2 <= j <= n ensures Ordered(h, j) {
    }
  }

  /** Swapping `u` with its larger parent moves the exception up to the parent. */
  lemma UpSwapOrder<V>(h0: seq<Cell<V>>, h1: seq<Cell<V>>, u: int, n: int)
    requires 2 <= u <= n < |h0|
    requires h1 == h0[u / 2 := h0[u]][u := h0[u / 2]]
    requires h0[u].priority < h0[u / 2].priority
    requires HeapAboveExcept(h0, u, n) && ParentBelowChildren(h0, u, n)
    ensures HeapAboveExcept(h1, u / 2, n)
  {
    var p := u / 2;
    forall j | 2 <= j <= n && j != p ensures Ordered(h1, j) {
      if j == u {
      } else if j / 2 == p {
        assert Ordered(h0, j);
      } else if j / 2 == u {
        assert h0[p].priority <= h0[j].priority;
      } else {
        assert Ordered(h0, j);
        assert j != u && j != p && j / 2 != u && j / 2 != p;
      }
    }
  }

  lemma UpSwapGrand<V>(h0: seq<Cell<V>>, h1: seq<Cell<V>>, u: int, n: int)
    requires 2 <= u <= n < |h0|
    requires h1 == h0[u / 2 := h0[u]][u := h0[u / 2]]
    requires h0[u].priority < h0[u / 2].priority
    requires HeapAboveExcept(h0, u, n)
    ensures ParentBelowChildren(h1, u / 2, n)
  {
    var p := u / 2;
    forall j | 2 <= j <= n && j / 2 == p && 1 <= p / 2 ensures h1[p / 2].priority <= h1[j].priority {
      assert Ordered(h0, p);
      if j != u {
        assert Ordered(h0, j);
      }
    }
  }

  /** A cell written after a min-heap leaves only its own edge to check. */
  lemma AppendedLeaf<V>(h0: seq<Cell<V>>, h1: seq<Cell<V>>, n: int, c: Cell<V>)
    requires 1 <= n < |h0| && MinHeap(h0, n - 1)
    requires h1 == h0[n := c]
    ensures HeapAboveExcept(h1, n, n) && ParentBelowChildren(h1, n, n)
  {
    forall j | 2 <= j <= n && j != n ensures Ordered(h1, j) {
      assert Ordered(h0, j);
      assert h1[j] == h0[j] && h1[j / 2] == h0[j / 2];
    }
  }

  /** The last cell moved into the first slot leaves only the first slot's edges to check. */
  lemma RootReplaced<V>(h0: seq<Cell<V>>, h1: seq<Cell<V>>, n: int)
    requires 1 <= n < |h0| && MinHeap(h0, n)
    requires h1 == h0[1 := h0[n]]
    ensures HeapBelowExcept(h1, 1, n - 1) && ParentBelowChildren(h1, 1, n - 1)
  {
    forall j | 2 <= j <= n - 1 && j / 2 != 1 ensures Ordered(h1, j) {
      assert Ordered(h0, j);
      assert h1[j] == h0[j] && h1[j / 2] == h0[j / 2];
    }
  }

  /** What an append followed by sifting in `1..n` leaves in the live slots. */
  lemma AppendedContents<V>(h0: seq<Cell<V>>, h1: seq<Cell<V>>, h2: seq<Cell<V>>, n: int, c: Cell<V>)
    requires 1 <= n < |h0| && h1 == h0[n := c]
    requires multiset(h2) == multiset(h1) && SameOutside(h2, h1, 1, n)
    ensures multiset(h2[1..n + 1]) == multiset(h0[1..n]) + multiset{c}
  {
    SliceMultiset(h2, h1, 1, n + 1);
    assert h1[1..n + 1] == h0[1..n] + [c];
  }

  /** What removing the first live cell, moving the last one up and sifting leaves. */
  lemma RemovedContents<V>(h0: seq<Cell<V>>, h1: seq<Cell<V>>, h2: seq<Cell<V>>, n: int)
    requires 1 <= n < |h0| && h1 == h0[1 := h0[n]]
    requires multiset(h2) == multiset(h1) && SameOutside(h2, h1, 1, n - 1)
    ensures multiset(h2[1..n]) == multiset(h0[1..n + 1]) - multiset{h0[1]}
  {
    SliceMultiset(h2, h1, 1, n);
    var rest := h0[2..n + 1];
    assert h0[1..n + 1] == [h0[1]] + rest;
    if n > 1 {
      assert h1[1..n] == [rest[|rest| - 1]] + rest[..|rest| - 1];
      assert rest == rest[..|rest| - 1] + [rest[|rest| - 1]];
    } else {
      assert h1[1..n] == [];
    }
  }

  class MyPQueue<V(0)> {
    var heap: array<Cell<V>>
    var entries: int

    ghost predicate Valid()
      reads this, heap
    {
      0 <= entries < heap.Length && MinHeap(heap[..], entries)
    }

    /** The cells in the queue. */
    ghost function Contents(): multiset<Cell<V>>
      reads this, heap
      requires 0 <= entries < heap.Length
    {
      multiset(heap[..][1..entries + 1])
    }

    constructor ()
      ensures Valid() && fresh(heap) && heap.Length == INITIAL_CAPACITY
      ensures Contents() == multiset{}
    {
      heap := new Cell<V>[INITIAL_CAPACITY];
      entries := 0;
    }

    /** The copy constructor: `deepCopy` keeps the capacity and copies slots `1..entries`. */
    constructor Copy(src: MyPQueue<V>)
      requires src.Valid()
      ensures Valid() && fresh(heap) && heap.Length == src.heap.Length
      ensures entries == src.entries && Contents() == src.Contents()
    {
      ghost var live := src.Contents();
      var b := CopyCells(src.heap, src.entries, src.heap.Length);
      assert multiset(b[..][1..src.entries + 1]) == live;
      heap := b;
      entries := src.entries;
      new;
      SameLiveSlots(heap[..], src.heap[..], entries);
    }

    /** `clear`: the storage is kept, only the count drops. */
    method Clear()
      requires Valid()
      modifies this
      ensures Valid() && heap == old(heap) && Contents() == multiset{}
    {
      entries := 0;
    }

    method IsEmpty() returns (e: bool)
      requires Valid()
      ensures e <==> Contents() == multiset{}
    {
      e := entries == 0;
      if !e {
        assert heap[..][1..entries + 1][0] == heap[1];
        assert heap[1] in Contents();
      }
    }

    /** `expandCapacity`: twice the slots, with `heap[1..entries]` copied over. */
    method ExpandCapacity()
      requires Valid()
      modifies this
      ensures Valid() && fresh(heap) && heap.Length == 2 * old(heap.Length)
      ensures entries == old(entries) && heap[..][1..entries + 1] == old(heap[..][1..entries + 1])
    {
      var b := CopyCells(heap, entries, 2 * heap.Length);
      heap := b;
      SameLiveSlots(heap[..], old(heap[..]), entries);
    }

    /**
     * `enqueue`: grow the array when the next slot is the last one, then put
     * the cell after the last live one and sift it up.
     */
    method Enqueue(value: V, priority: int)
      requires Valid()
      modifies this, heap
      ensures Valid() && (heap == old(heap) || fresh(heap))
      ensures Contents() == old(Contents()) + multiset{Cell(value, priority)}
    {
      if entries + 1 == heap.Length {
        ExpandCapacity();
      }
      Append(Cell(value, priority));
    }

    /** The second half of `enqueue`, once a free slot follows the live ones. */
    method Append(c: Cell<V>)
      requires Valid() && entries + 1 < heap.Length
      modifies this, heap
      ensures Valid() && heap == old(heap)
      ensures Contents() == old(Contents()) + multiset{c}
    {
      ghost var h0 := heap[..];
      assert multiset(h0[1..entries + 1]) == old(Contents());
      entries := entries + 1;
      heap[entries] := c;
      ghost var h1 := heap[..];
      AppendedLeaf(h0, h1, entries, c);
      Up(entries);
      AppendedContents(h0, h1, heap[..], entries, c);
    }

    /**
     * `dequeue`: an empty queue is an error; otherwise the first cell is
     * taken out, the last one moves into its place and sifts down.
     */
    method Dequeue() returns (r: Result<V>)
      requires Valid()
      modifies this, heap
      ensures Valid() && heap == old(heap)
      ensures r.Err? <==> old(Contents()) == multiset{}
      ensures r.Err? ==> r.error == OutOfRange && Contents() == old(Contents())
      ensures r.Ok? ==> 1 <= old(entries) && r.value == old(heap[1]).value
      ensures r.Ok? ==> old(heap[1]) in old(Contents()) && IsMin(old(heap[1]), old(Contents()))
      ensures r.Ok? ==> Contents() == old(Contents()) - multiset{old(heap[1])}
    {
      if entries == 0 {
        return Err(OutOfRange);
      }
      RootIsMinOfContents(heap[..], entries);
      ghost var h0 := heap[..];
      ghost var c := heap[1];
      ghost var before := Contents();
      assert before == old(Contents());
      var result := heap[1].value;
      heap[1] := heap[entries];
      entries := entries - 1;
      ghost var h1 := heap[..];
      RootReplaced(h0, h1, entries + 1);
      Down(1);
      RemovedContents(h0, h1, heap[..], entries + 1);
      assert c in before && c.value == result && IsMin(c, before) && Contents() == before - multiset{c};
      return Ok(result);
    }

    /** `down`: sift node `u` down while a child has a smaller priority. */
    method Down(u: int)
      requires 1 <= u && 0 <= entries < heap.Length
      requires HeapBelowExcept(heap[..], u, entries) && ParentBelowChildren(heap[..], u, entries)
      modifies heap
      ensures MinHeap(heap[..], entries)
      ensures multiset(heap[..]) == multiset(old(heap[..]))
      ensures SameOutside(heap[..], old(heap[..]), u, entries)
      decreases entries - u
    {
      ghost var h0 := heap[..];
      assert h0 == old(heap[..]);
      var t := u;
      if 2 * u <= entries && heap[2 * u].priority < heap[t].priority {
        t := 2 * u;
      }
      if 2 * u + 1 <= entries && heap[2 * u + 1].priority < heap[t].priority {
        t := 2 * u + 1;
      }
      if t != u {
        heap[t], heap[u] := heap[u], heap[t];
        ghost var h1 := heap[..];
        DownSwapOrder(h0, h1, u, t, entries);
        DownSwapParent(h0, h1, u, t, entries);
        SwapKeeps(h0, h1, u, t, entries);
        Down(t);
        SameOutsideWiden(heap[..], h1, h0, t, entries, u, entries);
      } else {
        DownSettled(heap[..], u, entries);
      }
    }

    /** `up`: sift node `u` up while its parent has a larger priority. */
    method Up(u: int)
      requires 1 <= u <= entries < heap.Length
      requires HeapAboveExcept(heap[..], u, entries) && ParentBelowChildren(heap[..], u, entries)
      modifies heap
      ensures MinHeap(heap[..], entries)
      ensures multiset(heap[..]) == multiset(old(heap[..]))
      ensures SameOutside(heap[..], old(heap[..]), 1, u)
      decreases u
    {
      ghost var h0 := heap[..];
      assert h0 == old(heap[..]);
      if u / 2 >= 1 && heap[u].priority < heap[u / 2].priority {
        heap[u / 2], heap[u] := heap[u], heap[u / 2];
        ghost var h1 := heap[..];
        UpSwapOrder(h0, h1, u, entries);
        UpSwapGrand(h0, h1, u, entries);
        SwapKeeps(h0, h1, u, u / 2, entries);
        Up(u / 2);
        SameOutsideWiden(heap[..], h1, h0, 1, u / 2, 1, u);
      } else {
        UpSettled(heap[..], u, entries);
      }
    }

    /** `operator=`: a deep copy unless it is a self-assignment. */
    method Assign(src: MyPQueue<V>)
      requires Valid() && src.Valid()
      modifies this
      ensures Valid() && entries == old(src.entries) && Contents() == old(src.Contents())
      ensures src != this ==> fresh(heap) && heap.Length == old(src.heap.Length)
    {
      if src != this {
        ghost var live := src.Contents();
        var b := CopyCells(src.heap, src.entries, src.heap.Length);
        assert multiset(b[..][1..src.entries + 1]) == live;
        heap := b;
        entries := src.entries;
        SameLiveSlots(heap[..], src.heap[..], entries);
      }
    }
  }

  /** The copying loop of `deepCopy` and `expandCapacity`: slots `1..n` into a fresh array. */
  method CopyCells<V(0)>(src: array<Cell<V>>, n: int, capacity: int) returns (b: array<Cell<V>>)
    requires 0 <= n < src.Length && n < capacity
    ensures fresh(b) && b.Length == capacity
    ensures forall j :: 1 <= j <= n ==> b[j] == src[j]
    ensures b[..][1..n + 1] == src[..][1..n + 1]
  {
    b := new Cell<V>[capacity];
    var i := 1;
    while i <= n
      invariant 1 <= i <= n + 1
      invariant forall j :: 1 <= j < i ==> b[j] == src[j]
    {
      b[i] := src[i];
      i := i + 1;
    }
    assert b[..][1..n + 1] == src[..][1..n + 1];
  }

  /**
   * The sample program: five cells enqueued, then dequeued until the queue
   * is empty, come out in priority order A, C, E, B, D.
   */
  method SampleOrder() returns (order: seq<string>)
    ensures order == ["A", "C", "E", "B", "D"]
  {
    ghost var a, b, c, d, e := Cell("A", 1604), Cell("B", 2708), Cell("C", 1861), Cell("D", 3169), Cell("E", 2193);
    var q := SampleQueue();
    EnqueueOrder(a, b, c, d, e);
    ListedByPriority(a, b, c, d, e);
    order := Drain(q, [a, c, e, b, d]);
  }

  /** The sample's five enqueues. */
  method SampleQueue() returns (q: MyPQueue<string>)
    ensures fresh(q) && fresh(q.heap) && q.Valid()
    ensures q.Contents() == multiset{} + multiset{Cell("A", 1604)} + multiset{Cell("B", 2708)} +
      multiset{Cell("C", 1861)} + multiset{Cell("D", 3169)} + multiset{Cell("E", 2193)}
  {
    q := new MyPQueue<string>();
    q.Enqueue("A", 1604);
    q.Enqueue("B", 2708);
    q.Enqueue("C", 1861);
    q.Enqueue("D", 3169);
    q.Enqueue("E", 2193);
  }

  /** Listed as A, C, E, B, D, the sample cells rise in priority. */
  lemma ListedByPriority<V>(a: Cell<V>, b: Cell<V>, c: Cell<V>, d: Cell<V>, e: Cell<V>)
    requires a.priority < c.priority < e.priority < b.priority < d.priority
    ensures StrictlyRising([a, c, e, b, d])
    ensures Values([a, c, e, b, d]) == [a.value, c.value, e.value, b.value, d.value]
  {
    var cells := [a, c, e, b, d];
    forall j, k | 0 <= j < k < |cells| ensures Precedes(cells, j, k) {
    }
    assert cells[..4] == [a, c, e, b];
    assert cells[..4][..3] == [a, c, e];
    assert cells[..4][..3][..2] == [a, c];
    assert cells[..4][..3][..2][..1] == [a];
    assert Values([a]) == [a.value];
    assert Values([a, c]) == [a.value, c.value];
    assert Values([a, c, e]) == [a.value, c.value, e.value];
    assert Values([a, c, e, b]) == [a.value, c.value, e.value, b.value];
  }

  /**
   * The sample's drain loop: dequeue until the queue is empty.  When the
   * queue holds `cells`, listed by strictly rising priority, the values come
   * out in the order of that list.
   */
  method Drain<V(0)>(q: MyPQueue<V>, ghost cells: seq<Cell<V>>) returns (order: seq<V>)
    requires q.Valid() && q.Contents() == multiset(cells) && StrictlyRising(cells)
    modifies q, q.heap
    ensures order == Values(cells)
  {
    order := [];
    assert cells[0..] == cells;
    NoCellsLeft(cells);
    var empty := q.IsEmpty();
    assert cells[..0] == [];
    while !empty
      invariant q.Valid() && q.heap == old(q.heap)
      invariant |order| <= |cells| && q.Contents() == multiset(cells[|order|..])
      invariant order == Values(cells[..|order|])
      invariant empty <==> |order| == |cells|
      decreases |cells| - |order|
    {
      ghost var i := |order|;
      var v := DequeueNext(q, cells, i);
      ValuesStep(cells, i);
      order := order + [v];
      NoCellsLeft(cells[i + 1..]);
      empty := q.IsEmpty();
    }
    assert cells[..|cells|] == cells;
  }

  /** One dequeue of the drain loop: the next cell of `cells` comes out. */
  method DequeueNext<V(0)>(q: MyPQueue<V>, ghost cells: seq<Cell<V>>, ghost i: int) returns (v: V)
    requires q.Valid() && StrictlyRising(cells) && 0 <= i < |cells|
    requires q.Contents() == multiset(cells[i..])
    modifies q, q.heap
    ensures q.Valid() && q.heap == old(q.heap)
    ensures q.Contents() == multiset(cells[i + 1..]) && v == cells[i].value
  {
    assert cells[i] in multiset(cells[i..]);
    ghost var first := q.heap[1];
    var r := q.Dequeue();
    LeastIsNext(cells, i, first);
    v := r.value;
  }

  lemma ValuesStep<V>(cells: seq<Cell<V>>, i: int)
    requires 0 <= i < |cells|
    ensures Values(cells[..i + 1]) == Values(cells[..i]) + [cells[i].value]
  {
    assert cells[..i + 1][..i] == cells[..i];
  }

  lemma NoCellsLeft<V>(cells: seq<Cell<V>>)
    ensures multiset(cells) == multiset{} <==> |cells| == 0
  {
    if |cells| > 0 {
      assert cells[0] in multiset(cells);
    }
  }

  /** The five sample cells, enqueued in one order, are the cells listed by priority. */
  lemma EnqueueOrder<T>(a: T, b: T, c: T, d: T, e: T)
    requires a != b && a != c && a != d && a != e && b != c && b != d && b != e && c != d && c != e && d != e
    ensures multiset{} + multiset{a} + multiset{b} + multiset{c} + multiset{d} + multiset{e} ==
      multiset([a, c, e, b, d])
  {
  }

  /** The values of `cells`, in order. */
  ghost function Values<V>(cells: seq<Cell<V>>): (vs: seq<V>)
    ensures |vs| == |cells|
  {
    if cells == [] then [] else Values(cells[..|cells| - 1]) + [cells[|cells| - 1].value]
  }

  /** The cell at `j` has a smaller priority than the cell at `k`. */
  ghost predicate Precedes<V>(cells: seq<Cell<V>>, j: int, k: int)
    requires 0 <= j < |cells| && 0 <= k < |cells|
  {
    cells[j].priority < cells[k].priority
  }

  /** Priorities strictly increase along `cells`. */
  ghost predicate StrictlyRising<V>(cells: seq<Cell<V>>) {
    forall j, k :: 0 <= j < k < |cells| ==> Precedes(cells, j, k)
  }

  /**
   * In cells listed by strictly rising priority, a least cell of the suffix
   * from `i` is the cell at `i`, and taking it out leaves the suffix from `i + 1`.
   */
  lemma LeastIsNext<V>(cells: seq<Cell<V>>, i: int, c: Cell<V>)
    requires StrictlyRising(cells) && 0 <= i < |cells|
    requires c in multiset(cells[i..]) && IsMin(c, multiset(cells[i..]))
    ensures c == cells[i] && multiset(cells[i..]) - multiset{c} == multiset(cells[i + 1..])
  {
    assert cells[i..] == [cells[i]] + cells[i + 1..];
    assert cells[i] in multiset(cells[i..]);
    var m :| i <= m < |cells| && cells[m] == c by {
      var k :| 0 <= k < |cells[i..]| && cells[i..][k] == c;
      assert cells[i + k] == c;
    }
    assert m != i ==> Precedes(cells, i, m);
  }
}
