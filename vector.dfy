/**
 * `MyVector`: a growable array of integers.  The storage is an `array<int>`
 * whose length is the capacity; the first `count` slots are the elements.
 * Sorting prepends a sentinel and heap-sorts slots `1..count-1` in place.
 */
module Vector {
  import opened Wrappers
  import opened SeqFacts

  const INITIAL_CAPACITY: int := 10

  /** The capacity `expandCapacity` computes, as written: twice the old one. */
  function DoubledCapacity(capacity: int): (c: int)
    ensures capacity > 0 ==> c > capacity
    ensures capacity == 0 ==> c == 0
  {
    2 * capacity
  }

  /** The capacity the model grows to: doubling, but at least one slot. */
  function GrownCapacity(capacity: int): (c: int)
    requires capacity >= 0
    ensures c > capacity
    ensures capacity > 0 ==> c == DoubledCapacity(capacity)
  {
    if capacity == 0 then 1 else 2 * capacity
  }

  ghost predicate Sorted(s: seq<int>) {
    forall i, j :: 0 <= i < j < |s| ==> s[i] <= s[j]
  }

  /** A fresh array of length `capacity` that starts with the first `n` slots of `src`. */
  method CopyOf(src: array<int>, n: int, capacity: int) returns (b: array<int>)
    requires 0 <= n <= src.Length && n <= capacity
    ensures fresh(b) && b.Length == capacity && b[..n] == src[..n]
  {
    b := new int[capacity];
    var i := 0;
    while i < n
      invariant 0 <= i <= n
      invariant b[..i] == src[..i]
    {
      b[i] := src[i];
      assert b[..i + 1] == b[..i] + [b[i]];
      assert src[..i + 1] == src[..i] + [src[i]];
      i := i + 1;
    }
  }

  /**
   * Max-heap order on the 1-based nodes `lo..size`: every node whose parent
   * is at least `lo` is no larger than that parent.
   */
  ghost predicate HeapFrom(a: seq<int>, lo: int, size: int)
    requires size < |a|
  {
    forall j :: 2 <= j <= size && lo <= j / 2 ==> a[j / 2] >= a[j]
  }

  /** The first node of a max-heap holds its largest element. */
  lemma {:induction false} RootIsMax(a: seq<int>, size: int, i: int)
    requires size < |a| && HeapFrom(a, 1, size) && 1 <= i <= size
    ensures a[1] >= a[i]
    decreases i
  {
    if i > 1 {
      RootIsMax(a, size, i / 2);
    }
  }

  /** The slots after a shift up and a write at `index` spell the inserted sequence. */
  lemma Inserted(e: seq<int>, a: seq<int>, index: int, value: int)
    requires 0 <= index <= |e| < |a|
    requires forall k :: 0 <= k < index ==> a[k] == e[k]
    requires a[index] == value
    requires forall k :: index < k <= |e| ==> a[k] == e[k - 1]
    ensures a[..|e| + 1] == e[..index] + [value] + e[index..]
  {
    var r := e[..index] + [value] + e[index..];
    forall k | 0 <= k <= |e| ensures a[k] == r[k] {
      if k < index {
        assert r[k] == e[k];
      } else if k > index {
        assert r[k] == e[k - 1];
      }
    }
  }

  /** The slots after a shift down spell the sequence without slot `index`. */
  lemma Removed(e: seq<int>, a: seq<int>, index: int)
    requires 0 <= index < |e| <= |a|
    requires forall k :: 0 <= k < index ==> a[k] == e[k]
    requires forall k :: index <= k < |e| - 1 ==> a[k] == e[k + 1]
    ensures a[..|e| - 1] == e[..index] + e[index + 1..]
  {
    var r := e[..index] + e[index + 1..];
    forall k | 0 <= k < |e| - 1 ensures a[k] == r[k] {
      if k < index {
        assert r[k] == e[k];
      } else {
        assert r[k] == e[k + 1];
      }
    }
  }

  /** The loop of `insert`: move slots `index..count-1` one slot up. */
  method ShiftUp(a: array<int>, index: int, count: int)
    requires 0 <= index <= count < a.Length
    modifies a
    ensures forall k :: 0 <= k < index ==> a[k] == old(a[k])
    ensures forall k :: index < k <= count ==> a[k] == old(a[k - 1])
  {
    var i := count;
    while i > index
      invariant index <= i <= count
      invariant forall k :: 0 <= k < i ==> a[k] == old(a[k])
      invariant forall k :: i < k <= count ==> a[k] == old(a[k - 1])
    {
      a[i] := a[i - 1];
      i := i - 1;
    }
  }

  /** The loop of `remove`: move slots `index+1..count-1` one slot down. */
  method ShiftDown(a: array<int>, index: int, count: int)
    requires 0 <= index < count <= a.Length
    modifies a
    ensures forall k :: 0 <= k < index ==> a[k] == old(a[k])
    ensures forall k :: index <= k < count - 1 ==> a[k] == old(a[k + 1])
  {
    var i := index;
    while i < count - 1
      invariant index <= i <= count - 1
      invariant forall k :: 0 <= k < index ==> a[k] == old(a[k])
      invariant forall k :: index <= k < i ==> a[k] == old(a[k + 1])
      invariant forall k :: i <= k < count ==> a[k] == old(a[k])
    {
      a[i] := a[i + 1];
      i := i + 1;
    }
  }

  /** Heap order from `lo` on, except between node `u` and its children. */
  ghost predicate HeapExcept(a: seq<int>, lo: int, u: int, size: int)
    requires size < |a|
  {
    forall j :: 2 <= j <= size && lo <= j / 2 && j / 2 != u ==> a[j / 2] >= a[j]
  }

  /** The parent of `u`, when it is at least `lo`, dominates `u`'s children. */
  ghost predicate ParentDominates(a: seq<int>, lo: int, u: int, size: int)
    requires size < |a|
  {
    forall j :: 2 <= j <= size && j / 2 == u && lo <= u / 2 ==> a[u / 2] >= a[j]
  }

  /** Nodes `from..size` are at most `bound`. */
  ghost predicate Bounded(a: seq<int>, from: int, size: int, bound: int)
    requires 0 <= from && size < |a|
  {
    forall k :: from <= k <= size ==> a[k] <= bound
  }

  /** Node `u` dominates its children: the exception is gone. */
  lemma NoSwapHeap(a: seq<int>, lo: int, u: int, size: int)
    requires 1 <= lo <= u && size < |a|
    requires HeapExcept(a, lo, u, size) && ParentDominates(a, lo, u, size)
    requires 2 * u <= size ==> a[2 * u] <= a[u]
    requires 2 * u + 1 <= size ==> a[2 * u + 1] <= a[u]
    ensures HeapFrom(a, lo, size)
  {
    forall j | 2 <= j <= size && lo <= j / 2 ensures a[j / 2] >= a[j] {
      if j / 2 == u {
        assert j == 2 * u || j == 2 * u + 1;
      }
    }
  }

  /** Swapping `u` with its larger child `t` moves the exception down to `t`. */
  lemma SwapDown(a0: seq<int>, a1: seq<int>, lo: int, u: int, t: int, size: int, bound: int)
    requires 1 <= lo <= u && size < |a0|
    requires (t == 2 * u || t == 2 * u + 1) && t <= size
    requires a1 == a0[t := a0[u]][u := a0[t]]
    requires a0[t] > a0[u]
    requires 2 * u <= size ==> a0[2 * u] <= a0[t]
    requires 2 * u + 1 <= size ==> a0[2 * u + 1] <= a0[t]
    requires HeapExcept(a0, lo, u, size) && ParentDominates(a0, lo, u, size)
    requires Bounded(a0, u, size, bound)
    ensures HeapExcept(a1, lo, t, size) && ParentDominates(a1, lo, t, size)
    ensures Bounded(a1, u, size, bound) && Bounded(a1, t, size, bound)
    ensures multiset(a1) == multiset(a0) && SameOutside(a1, a0, u, size)
  {
    SwapDownOrder(a0, a1, lo, u, t, size);
    SwapDownParent(a0, a1, lo, u, t, size);
    SwapKeepsBound(a0, a1, u, t, size, bound);
  }

  lemma SwapDownParent(a0: seq<int>, a1: seq<int>, lo: int, u: int, t: int, size: int)
    requires 1 <= lo <= u && size < |a0|
    requires (t == 2 * u || t == 2 * u + 1) && t <= size
    requires a1 == a0[t := a0[u]][u := a0[t]]
    requires HeapExcept(a0, lo, u, size)
    ensures ParentDominates(a1, lo, t, size)
  {
    forall j | 2 <= j <= size && j / 2 == t && lo <= t / 2 ensures a1[t / 2] >= a1[j] {
      assert t / 2 == u;
      assert a0[t] >= a0[j];
    }
  }

  /** A swap of two slots of `u..size` keeps the multiset, the bound and the other slots. */
  lemma SwapKeepsBound(a0: seq<int>, a1: seq<int>, u: int, t: int, size: int, bound: int)
    requires 0 <= u < t <= size < |a0|
    requires a1 == a0[t := a0[u]][u := a0[t]]
    requires Bounded(a0, u, size, bound)
    ensures Bounded(a1, u, size, bound) && Bounded(a1, t, size, bound)
    ensures multiset(a1) == multiset(a0) && SameOutside(a1, a0, u, size)
  {
  }

  /** The slots the recursive `down` leaves alone keep what the swap put there. */
  lemma DownCompose(a0: seq<int>, a1: seq<int>, a2: seq<int>, u: int, t: int, size: int, bound: int)
    requires 0 <= u < t <= size < |a0|
    requires SameOutside(a1, a0, u, size) && SameOutside(a2, a1, t, size)
    requires Bounded(a1, u, size, bound) && Bounded(a2, t, size, bound)
    ensures SameOutside(a2, a0, u, size) && Bounded(a2, u, size, bound)
  {
    forall k | u <= k < t ensures a2[k] <= bound {
      assert a2[k] == a1[k];
    }
  }

  lemma SwapDownOrder(a0: seq<int>, a1: seq<int>, lo: int, u: int, t: int, size: int)
    requires 1 <= lo <= u && size < |a0|
    requires (t == 2 * u || t == 2 * u + 1) && t <= size
    requires a1 == a0[t := a0[u]][u := a0[t]]
    requires a0[t] > a0[u]
    requires 2 * u <= size ==> a0[2 * u] <= a0[t]
    requires 2 * u + 1 <= size ==> a0[2 * u + 1] <= a0[t]
    requires HeapExcept(a0, lo, u, size) && ParentDominates(a0, lo, u, size)
    ensures HeapExcept(a1, lo, t, size)
  {
    forall j | 2 <= j <= size && lo <= j / 2 && j / 2 != t ensures a1[j / 2] >= a1[j] {
      if j / 2 == u {
        assert j == 2 * u || j == 2 * u + 1;
      } else if j == u {
        assert a0[j / 2] >= a0[t];
      } else {
        assert j != t && j / 2 != t;
      }
    }
  }

  /**
   * `down`: sift node `u` down the max-heap `a[1..size]`, swapping it with
   * its larger child while that child is larger.  Every node from `lo` on is
   * in heap order except `u`, whose parent (when at least `lo`) already
   * dominates `u`'s children.  `bound`, an upper bound of the nodes from `u`
   * on, stays one.
   */
  method Down(a: array<int>, u: int, size: int, ghost lo: int, ghost bound: int)
    requires 1 <= lo <= u && size < a.Length
    requires HeapExcept(a[..], lo, u, size) && ParentDominates(a[..], lo, u, size)
    requires Bounded(a[..], u, size, bound)
    modifies a
    ensures HeapFrom(a[..], lo, size) && Bounded(a[..], u, size, bound)
    ensures multiset(a[..]) == multiset(old(a[..]))
    ensures SameOutside(a[..], old(a[..]), u, size)
    decreases size - u
  {
    ghost var a0 := a[..];
    var t := u;
    if 2 * u <= size && a[2 * u] > a[t] {
      t := 2 * u;
    }
    if 2 * u + 1 <= size && a[2 * u + 1] > a[t] {
      t := 2 * u + 1;
    }
    if t != u {
      a[t], a[u] := a[u], a[t];
      SwapDown(a0, a[..], lo, u, t, size, bound);
      ghost var a1 := a[..];
      Down(a, t, size, lo, bound);
      DownCompose(a0, a1, a[..], u, t, size, bound);
    } else {
      NoSwapHeap(a[..], lo, u, size);
    }
  }

  /**
   * `heapSort`: build a max-heap on `a[1..n]`, then repeatedly swap its first
   * node to the end of the heap and sift the new first node down.
   */
  method HeapSort(a: array<int>, n: int)
    requires 0 <= n < a.Length
    modifies a
    ensures Sorted(a[1..n + 1])
    ensures multiset(a[..]) == multiset(old(a[..]))
    ensures SameOutside(a[..], old(a[..]), 1, n)
  {
    var size := n;
    var i := size / 2;
    while i >= 1
      invariant 0 <= i <= size / 2
      invariant HeapFrom(a[..], i + 1, size)
      invariant multiset(a[..]) == multiset(old(a[..]))
      invariant SameOutside(a[..], old(a[..]), 1, n)
    {
      ghost var m := Max(a[..], i, size);
      Down(a, i, size, i, m);
      i := i - 1;
    }
    while size != 0
      invariant 0 <= size <= n
      invariant HeapFrom(a[..], 1, size)
      invariant forall p, q :: size < p < q <= n ==> a[p] <= a[q]
      invariant size < n ==> Bounded(a[..], 1, size, a[size + 1])
      invariant multiset(a[..]) == multiset(old(a[..]))
      invariant SameOutside(a[..], old(a[..]), 1, n)
    {
      ExtractStep(a, n, size);
      size := size - 1;
    }
    assert forall p, q :: 1 <= p < q <= n ==> a[p] <= a[q];
  }

  /** Swapping the first heap node with the last leaves a heap of one less, except at the first node. */
  lemma SwapOut(a0: seq<int>, a1: seq<int>, size: int)
    requires 1 <= size < |a0|
    requires HeapFrom(a0, 1, size)
    requires a1 == a0[1 := a0[size]][size := a0[1]]
    ensures HeapExcept(a1, 1, 1, size - 1) && ParentDominates(a1, 1, 1, size - 1)
    ensures Bounded(a1, 1, size - 1, a1[size])
    ensures multiset(a1) == multiset(a0) && SameOutside(a1, a0, 1, size)
  {
    forall k | 1 <= k <= size ensures a0[k] <= a0[1] {
      RootIsMax(a0, size, k);
    }
  }

  /** One round of the extraction loop: the largest heap node joins the sorted tail. */
  method ExtractStep(a: array<int>, n: int, size: int)
    requires 1 <= size <= n < a.Length
    requires HeapFrom(a[..], 1, size)
    requires forall p, q :: size < p < q <= n ==> a[p] <= a[q]
    requires size < n ==> Bounded(a[..], 1, size, a[size + 1])
    modifies a
    ensures HeapFrom(a[..], 1, size - 1)
    ensures forall p, q :: size - 1 < p < q <= n ==> a[p] <= a[q]
    ensures Bounded(a[..], 1, size - 1, a[size])
    ensures multiset(a[..]) == multiset(old(a[..]))
    ensures SameOutside(a[..], old(a[..]), 1, size)
  {
    ghost var a0 := a[..];
    a[1], a[size] := a[size], a[1];
    SwapOut(a0, a[..], size);
    Down(a, 1, size - 1, 1, a[size]);
    TailExtends(a0, a[..], n, size);
  }

  /** The old first heap node, now in slot `size`, is no larger than the sorted tail. */
  lemma TailExtends(a0: seq<int>, a: seq<int>, n: int, size: int)
    requires 1 <= size <= n < |a0|
    requires forall p, q :: size < p < q <= n ==> a0[p] <= a0[q]
    requires size < n ==> Bounded(a0, 1, size, a0[size + 1])
    requires SameOutside(a, a0[1 := a0[size]][size := a0[1]], 1, size - 1)
    ensures forall p, q :: size - 1 < p < q <= n ==> a[p] <= a[q]
  {
    forall p, q | size - 1 < p < q <= n ensures a[p] <= a[q] {
      if p == size {
        assert a0[1] <= a0[size + 1] <= a0[q];
      }
    }
  }

  /** A largest element of the 1-based nodes `lo..size`, or 0 when there are none. */
  ghost function Max(a: seq<int>, lo: int, size: int): (m: int)
    requires 0 <= lo && size < |a|
    ensures forall k :: lo <= k <= size ==> a[k] <= m
    decreases size - lo
  {
    if size < lo then 0
    else if size == lo then a[lo]
    else
      var rest := Max(a, lo + 1, size);
      if a[lo] > rest then a[lo] else rest
  }

  class MyVector {
    var arr: array<int>
    var count: int

    ghost predicate Valid()
      reads this
    {
      0 <= count <= arr.Length
    }

    /** The elements: the first `count` slots. */
    ghost function Elements(): seq<int>
      reads this, arr
      requires Valid()
    {
      arr[..count]
    }

    constructor ()
      ensures Valid() && fresh(arr) && arr.Length == INITIAL_CAPACITY && Elements() == []
    {
      arr := new int[INITIAL_CAPACITY];
      count := 0;
    }

    /** `MyVector(n, value)`: `n` copies of `value`, with capacity exactly `n`. */
    constructor Filled(n: int, value: int)
      requires n >= 0
      ensures Valid() && fresh(arr) && arr.Length == n
      ensures |Elements()| == n && forall i :: 0 <= i < n ==> Elements()[i] == value
    {
      var b := new int[n];
      var i := 0;
      while i < n
        invariant 0 <= i <= n
        invariant forall k :: 0 <= k < i ==> b[k] == value
      {
        b[i] := value;
        i := i + 1;
      }
      arr := b;
      count := n;
    }

    /** The copy constructor: `deepCopy` keeps the capacity and copies the elements. */
    constructor Copy(src: MyVector)
      requires src.Valid()
      ensures Valid() && fresh(arr) && arr.Length == src.arr.Length
      ensures Elements() == src.Elements()
    {
      var b := CopyOf(src.arr, src.count, src.arr.Length);
      arr := b;
      count := src.count;
    }

    method Size() returns (n: int)
      requires Valid()
      ensures n == |Elements()|
    {
      n := count;
    }

    method IsEmpty() returns (e: bool)
      requires Valid()
      ensures e <==> Elements() == []
    {
      e := count == 0;
    }

    /** `clear`: the storage is kept, only the count drops. */
    method Clear()
      requires Valid()
      modifies this
      ensures Valid() && arr == old(arr) && Elements() == []
    {
      count := 0;
    }

    method Equals(v: MyVector) returns (eq: bool)
      requires Valid() && v.Valid()
      ensures eq <==> Elements() == v.Elements()
    {
      if count != v.count {
        return false;
      }
      var i := 0;
      while i < count
        invariant 0 <= i <= count
        invariant arr[..i] == v.arr[..i]
      {
        if arr[i] != v.arr[i] {
          return false;
        }
        assert arr[..i + 1] == arr[..i] + [arr[i]];
        assert v.arr[..i + 1] == v.arr[..i] + [v.arr[i]];
        i := i + 1;
      }
      return true;
    }

    /** `get` and both `operator[]` for reading: an index outside `0..count-1` is an error. */
    method Get(index: int) returns (r: Result<int>)
      requires Valid()
      ensures r.Err? <==> !(0 <= index < |Elements()|)
      ensures r.Err? ==> r.error == OutOfRange
      ensures r.Ok? ==> r.value == Elements()[index]
    {
      if !(0 <= index < count) {
        return Err(OutOfRange);
      }
      return Ok(arr[index]);
    }

    /** `set`, and a write through the mutable `operator[]`. */
    method Set(index: int, value: int) returns (o: Outcome)
      requires Valid()
      modifies arr
      ensures Valid()
      ensures o.Fail? <==> !(0 <= index < |old(Elements())|)
      ensures o.Fail? ==> o.error == OutOfRange && Elements() == old(Elements())
      ensures o.Pass? ==> Elements() == old(Elements())[index := value]
    {
      if !(0 <= index < count) {
        return Fail(OutOfRange);
      }
      arr[index] := value;
      return Pass;
    }

    /** `expandCapacity`: move the elements into a larger fresh array. */
    method ExpandCapacity()
      requires Valid()
      modifies this
      ensures Valid() && fresh(arr) && arr.Length == GrownCapacity(old(arr.Length))
      ensures count == old(count) && Elements() == old(Elements())
    {
      var b := CopyOf(arr, count, GrownCapacity(arr.Length));
      arr := b;
    }

    /** `expandCapacity` as written: a fresh array of exactly twice the capacity. */
    method DoubleCapacity()
      requires Valid()
      modifies this
      ensures Valid() && fresh(arr) && arr.Length == DoubledCapacity(old(arr.Length))
      ensures count == old(count) && Elements() == old(Elements())
    {
      var b := CopyOf(arr, count, DoubledCapacity(arr.Length));
      arr := b;
    }

    /** `insert`: shift the tail up by one slot, growing a full array first. */
    method Insert(index: int, value: int) returns (o: Outcome)
      requires Valid()
      modifies this, arr
      ensures Valid()
      ensures o.Fail? <==> !(0 <= index <= |old(Elements())|)
      ensures o.Fail? ==> o.error == OutOfRange && arr == old(arr) && Elements() == old(Elements())
      ensures o.Pass? ==> Elements() == old(Elements())[..index] + [value] + old(Elements())[index..]
      ensures arr == old(arr) || fresh(arr)
    {
      if !(0 <= index <= count) {
        return Fail(OutOfRange);
      }
      if count == arr.Length {
        ExpandCapacity();
      }
      ghost var e := arr[..count];
      ShiftUp(arr, index, count);
      arr[index] := value;
      Inserted(e, arr[..], index, value);
      count := count + 1;
      return Pass;
    }

    /** `remove`: shift the tail down by one slot. */
    method Remove(index: int) returns (o: Outcome)
      requires Valid()
      modifies this, arr
      ensures Valid() && arr == old(arr)
      ensures o.Fail? <==> !(0 <= index < |old(Elements())|)
      ensures o.Fail? ==> o.error == OutOfRange && Elements() == old(Elements())
      ensures o.Pass? ==> Elements() == old(Elements())[..index] + old(Elements())[index + 1..]
    {
      if !(0 <= index < count) {
        return Fail(OutOfRange);
      }
      ghost var e := arr[..count];
      ShiftDown(arr, index, count);
      Removed(e, arr[..], index);
      count := count - 1;
      return Pass;
    }

    /** `add`: insert at the end. */
    method Add(value: int)
      requires Valid()
      modifies this, arr
      ensures Valid() && Elements() == old(Elements()) + [value]
      ensures arr == old(arr) || fresh(arr)
    {
      ghost var e := Elements();
      var o := Insert(count, value);
      assert e[|e|..] == [];
    }

    /** `deepCopy`: take over `src`'s capacity and elements in a fresh array. */
    method DeepCopy(src: MyVector)
      requires src.Valid()
      modifies this
      ensures Valid() && fresh(arr) && arr.Length == old(src.arr.Length)
      ensures Elements() == old(src.Elements())
    {
      var b := CopyOf(src.arr, src.count, src.arr.Length);
      arr := b;
      count := src.count;
    }

    /** `operator=`: a deep copy unless it is a self-assignment. */
    method Assign(src: MyVector)
      requires Valid() && src.Valid()
      modifies this
      ensures Valid() && Elements() == old(src.Elements())
      ensures src != this ==> fresh(arr)
    {
      if src != this {
        DeepCopy(src);
      }
    }

    /** `heapSort` on the slots after the sentinel in slot 0. */
    method SortAfterSentinel()
      requires Valid() && count >= 1
      modifies arr
      ensures Valid() && Elements()[0] == old(Elements())[0]
      ensures Sorted(Elements()[1..])
      ensures multiset(Elements()[1..]) == multiset(old(Elements())[1..])
    {
      ghost var s := arr[..];
      HeapSort(arr, count - 1);
      SliceMultiset(arr[..], s, 1, count);
      assert arr[1..count] == Elements()[1..];
      assert s[1..count] == old(Elements())[1..];
    }

    /**
     * `sort`: put a `-1` sentinel in front, heap-sort the slots after it and
     * drop the sentinel again.
     */
    method Sort()
      requires Valid()
      modifies this, arr
      ensures Valid()
      ensures Sorted(Elements())
      ensures multiset(Elements()) == multiset(old(Elements()))
      ensures old(Elements()) == [] ==> arr == old(arr) && Elements() == []
    {
      if count == 0 {
        return;
      }
      ghost var before := Elements();
      var _ := Insert(0, -1);
      assert Elements()[1..] == before;
      SortAfterSentinel();
      ghost var sorted := Elements()[1..];
      var _ := Remove(0);
      assert Elements() == sorted;
    }
  }

  /**
   * `MyVector(0, value)` followed by `add(x)`, up to the write of the new
   * element, with `expandCapacity` as written: the vector is full
   * (count == capacity == 0), doubling leaves the capacity at 0, and the
   * slot `insert` writes next is outside the array.
   */
  method ZeroCapacityInsertHasNoSlot(value: int) returns (slot: int, capacity: int)
    ensures slot == 0 && capacity == 0
    ensures !(slot < capacity)
  {
    var v := new MyVector.Filled(0, value);
    assert v.count == v.arr.Length;
    v.DoubleCapacity();
    slot, capacity := v.count, v.arr.Length;
  }
}
