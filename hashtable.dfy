/**
 * The layout of the chained hash table behind MyHashMap, as values: a table
 * is a sequence of chains (one per bucket), each chain the cells of that
 * bucket from head to tail.  These functions say exactly what each mutator
 * of the class does to the layout; the lemmas state what that means for the
 * key-to-value mapping, the entry count and the load factor.
 */
module HashTable {
  import opened Wrappers
  import opened HashCode

  datatype Cell<K, V> = Cell(key: K, value: V)

  type Chain<K, V> = seq<Cell<K, V>>

  type Layout<K, V> = seq<Chain<K, V>>

  const INITIAL_BUCKET_COUNT: int := 10

  /** `hashCode(key) % nBuckets`, with the key rendered to bytes by `render`. */
  function Bucket<K>(render: K -> seq<byte>, key: K, n: int): (b: int)
    requires n > 0
    ensures 0 <= b < n
  {
    MyHashCode(render(key)) % n
  }

  // ---------------------------------------------------------------------
  // Searching a chain
  // ---------------------------------------------------------------------

  /** The position of the first cell of `chain` whose key is `key` (findCell). */
  function Find<K(==), V>(chain: Chain<K, V>, key: K): (r: Option<nat>)
    ensures r.Some? ==> r.value < |chain| && chain[r.value].key == key
    ensures r.Some? ==> forall j :: 0 <= j < r.value ==> chain[j].key != key
    ensures r.None? ==> forall j :: 0 <= j < |chain| ==> chain[j].key != key
  {
    if chain == [] then None
    else if chain[0].key == key then Some(0)
    else match Find(chain[1..], key)
      case None => None
      case Some(i) => Some(i + 1)
  }

  /** The first occurrence is the only index with the key before which none has it. */
  lemma FindIs<K, V>(chain: Chain<K, V>, key: K, i: nat)
    requires i < |chain| && chain[i].key == key
    requires forall j :: 0 <= j < i ==> chain[j].key != key
    ensures Find(chain, key) == Some(i)
  {
  }

  /** The value stored with `key` among `cells`, if any. */
  function FindValue<K(==), V>(cells: seq<Cell<K, V>>, key: K): Option<V>
  {
    match Find(cells, key)
    case None => None
    case Some(i) => Some(cells[i].value)
  }

  lemma {:induction false} FindValueAppend<K, V>(xs: seq<Cell<K, V>>, ys: seq<Cell<K, V>>, key: K)
    ensures FindValue(xs + ys, key) == if FindValue(xs, key).Some? then FindValue(xs, key) else FindValue(ys, key)
  {
    match Find(xs, key)
    case Some(i) =>
      FindIs(xs + ys, key, i);
    case None =>
      match Find(ys, key)
      case Some(i) =>
        FindIs(xs + ys, key, |xs| + i);
      case None =>
        assert forall j :: 0 <= j < |xs + ys| ==> (xs + ys)[j].key != key by {
          forall j | 0 <= j < |xs + ys| ensures (xs + ys)[j].key != key {
            if j >= |xs| { assert (xs + ys)[j] == ys[j - |xs|]; }
          }
        }
  }

  // ---------------------------------------------------------------------
  // Lookup and the table invariant
  // ---------------------------------------------------------------------

  /** What `get`/`containsKey` find: the key's value in its own bucket's chain. */
  function Lookup<K(==), V>(render: K -> seq<byte>, t: Layout<K, V>, key: K): Option<V>
    requires |t| > 0
  {
    FindValue(t[Bucket(render, key, |t|)], key)
  }

  /** Every cell sits in the bucket its key hashes to. */
  ghost predicate Placed<K, V>(render: K -> seq<byte>, t: Layout<K, V>)
  {
    |t| > 0 &&
    forall i, j :: 0 <= i < |t| && 0 <= j < |t[i]| ==> Bucket(render, t[i][j].key, |t|) == i
  }

  ghost predicate DistinctKeys<K, V>(cells: seq<Cell<K, V>>)
  {
    forall i, j :: 0 <= i < j < |cells| ==> cells[i].key != cells[j].key
  }

  /** The table invariant: cells are placed by hash and no key occurs twice. */
  ghost predicate WellFormed<K, V>(render: K -> seq<byte>, t: Layout<K, V>)
  {
    Placed(render, t) && forall i :: 0 <= i < |t| ==> DistinctKeys(t[i])
  }

  /** A fresh bucket array of `n` empty chains. */
  function EmptyLayout<K, V>(n: nat): (t: Layout<K, V>)
    ensures |t| == n
    ensures forall i :: 0 <= i < n ==> t[i] == []
  {
    seq(n, _ => [])
  }

  lemma EmptyWellFormed<K, V>(render: K -> seq<byte>, n: nat)
    requires n > 0
    ensures WellFormed(render, EmptyLayout<K, V>(n))
    ensures forall k :: Lookup(render, EmptyLayout<K, V>(n), k) == None
    ensures Count(EmptyLayout<K, V>(n)) == 0
  {
    EmptyCount<K, V>(n);
  }

  // ---------------------------------------------------------------------
  // Traversal order and the entry count
  // ---------------------------------------------------------------------

  /** All cells, bucket by ascending bucket, each chain head to tail (sequentialTraversal). */
  function Flatten<K, V>(t: Layout<K, V>): seq<Cell<K, V>>
  {
    if t == [] then [] else Flatten(t[..|t| - 1]) + t[|t| - 1]
  }

  /** The number of cells in the table. */
  function Count<K, V>(t: Layout<K, V>): nat
  {
    |Flatten(t)|
  }

  lemma {:induction false} EmptyCount<K, V>(n: nat)
    ensures Count(EmptyLayout<K, V>(n)) == 0
  {
    if n > 0 {
      assert EmptyLayout<K, V>(n)[..n - 1] == EmptyLayout<K, V>(n - 1);
      EmptyCount<K, V>(n - 1);
    }
  }

  /** Replacing one chain changes the count by the difference in its length. */
  lemma {:induction false} CountUpdate<K, V>(t: Layout<K, V>, i: nat, c: Chain<K, V>)
    requires i < |t|
    ensures Count(t[i := c]) == Count(t) - |t[i]| + |c|
  {
    var n := |t|;
    if i == n - 1 {
      assert t[i := c][..n - 1] == t[..n - 1];
    } else {
      assert t[i := c][..n - 1] == t[..n - 1][i := c];
      CountUpdate(t[..n - 1], i, c);
    }
  }

  lemma {:induction false} FlattenPrefix<K, V>(t: Layout<K, V>, m: nat)
    requires m < |t|
    ensures Flatten(t[..m + 1]) == Flatten(t[..m]) + t[m]
  {
    assert t[..m + 1][..m] == t[..m];
  }

  /** The cells of the first `m` buckets all hash to a bucket below `m`. */
  lemma {:induction false} FlattenBuckets<K, V>(render: K -> seq<byte>, t: Layout<K, V>, m: nat)
    requires Placed(render, t) && m <= |t|
    ensures forall c :: c in Flatten(t[..m]) ==> Bucket(render, c.key, |t|) < m
  {
    if m > 0 {
      FlattenBuckets(render, t, m - 1);
      FlattenPrefix(t, m - 1);
      forall c | c in t[m - 1] ensures Bucket(render, c.key, |t|) == m - 1 {
        var j :| 0 <= j < |t[m - 1]| && t[m - 1][j] == c;
      }
    }
  }

  /** In a well-formed table no key occurs twice in the whole traversal. */
  lemma {:induction false} FlattenDistinct<K, V>(render: K -> seq<byte>, t: Layout<K, V>, m: nat)
    requires WellFormed(render, t) && m <= |t|
    ensures DistinctKeys(Flatten(t[..m]))
  {
    if m > 0 {
      FlattenDistinct(render, t, m - 1);
      FlattenPrefix(t, m - 1);
      FlattenBuckets(render, t, m - 1);
      var xs: seq<Cell<K, V>>, ys: seq<Cell<K, V>> := Flatten(t[..m - 1]), t[m - 1];
      forall i, j | 0 <= i < j < |xs + ys| ensures (xs + ys)[i].key != (xs + ys)[j].key {
        if j < |xs| {
        } else if i >= |xs| {
          assert (xs + ys)[i] == ys[i - |xs|] && (xs + ys)[j] == ys[j - |xs|];
        } else {
          assert (xs + ys)[i] in xs;
          assert Bucket(render, (xs + ys)[j].key, |t|) == m - 1;
        }
      }
    }
  }

  /** Searching the whole traversal finds what searching the key's own bucket finds. */
  lemma {:induction false} FlattenFind<K, V>(render: K -> seq<byte>, t: Layout<K, V>, m: nat, key: K)
    requires Placed(render, t) && m <= |t|
    ensures FindValue(Flatten(t[..m]), key) ==
            if Bucket(render, key, |t|) < m then Lookup(render, t, key) else None
  {
    if m == 0 {
    } else {
      FlattenFind(render, t, m - 1, key);
      FlattenPrefix(t, m - 1);
      FindValueAppend(Flatten(t[..m - 1]), t[m - 1], key);
      if Bucket(render, key, |t|) != m - 1 {
        match Find(t[m - 1], key)
        case None =>
        case Some(j) =>
          assert Bucket(render, t[m - 1][j].key, |t|) == m - 1;
      }
    }
  }

  lemma {:induction false} FlattenPrefixCount<K, V>(t: Layout<K, V>, m: nat)
    requires m <= |t|
    ensures |Flatten(t[..m])| <= Count(t)
    decreases |t| - m
  {
    if m == |t| {
      assert t[..m] == t;
    } else {
      FlattenPrefix(t, m);
      FlattenPrefixCount(t, m + 1);
    }
  }

  /** Empty buckets at the end add nothing to the traversal. */
  lemma {:induction false} FlattenEmptyTail<K, V>(t: Layout<K, V>, m: nat)
    requires m <= |t| && forall i :: m <= i < |t| ==> t[i] == []
    ensures Flatten(t) == Flatten(t[..m])
    decreases |t| - m
  {
    if m == |t| {
      assert t[..m] == t;
    } else {
      FlattenPrefix(t, m);
      FlattenEmptyTail(t, m + 1);
    }
  }

  lemma TraversalFindsLookup<K, V>(render: K -> seq<byte>, t: Layout<K, V>, key: K)
    requires WellFormed(render, t)
    ensures FindValue(Flatten(t), key) == Lookup(render, t, key)
    ensures DistinctKeys(Flatten(t))
  {
    assert t[..|t|] == t;
    FlattenFind(render, t, |t|, key);
    FlattenDistinct(render, t, |t|);
  }

  // ---------------------------------------------------------------------
  // Insertion without the load-factor check
  // ---------------------------------------------------------------------

  /**
   * The first half of `put`, and all of `map[key] = value`: overwrite the
   * value in place when the key is in its chain, else push a new cell at
   * the head of that chain.
   */
  function Insert<K(==), V>(render: K -> seq<byte>, t: Layout<K, V>, key: K, value: V): (r: Layout<K, V>)
    requires |t| > 0
    ensures |r| == |t|
  {
    var b := Bucket(render, key, |t|);
    match Find(t[b], key)
    case None => t[b := [Cell(key, value)] + t[b]]
    case Some(i) => t[b := t[b][i := Cell(key, value)]]
  }

  lemma InsertLookup<K, V>(render: K -> seq<byte>, t: Layout<K, V>, key: K, value: V)
    requires |t| > 0
    ensures forall k :: Lookup(render, Insert(render, t, key, value), k) ==
                        if k == key then Some(value) else Lookup(render, t, k)
  {
    var b := Bucket(render, key, |t|);
    var r := Insert(render, t, key, value);
    forall k ensures Lookup(render, r, k) == if k == key then Some(value) else Lookup(render, t, k) {
      if Bucket(render, k, |t|) == b {
        match Find(t[b], key)
        case None =>
          assert r[b] == [Cell(key, value)] + t[b];
          if k != key {
            assert r[b][1..] == t[b];
          }
        case Some(i) =>
          assert r[b] == t[b][i := Cell(key, value)];
          if k == key {
            FindIs(r[b], key, i);
          } else {
            match Find(t[b], k)
            case None =>
              assert forall j :: 0 <= j < |r[b]| ==> r[b][j].key != k;
            case Some(j) =>
              FindIs(r[b], k, j);
          }
      }
    }
  }

  lemma InsertCount<K, V>(render: K -> seq<byte>, t: Layout<K, V>, key: K, value: V)
    requires |t| > 0
    ensures Count(Insert(render, t, key, value)) == Count(t) + if Lookup(render, t, key).None? then 1 else 0
  {
    var b := Bucket(render, key, |t|);
    match Find(t[b], key)
    case None => CountUpdate(t, b, [Cell(key, value)] + t[b]);
    case Some(i) => CountUpdate(t, b, t[b][i := Cell(key, value)]);
  }

  lemma InsertWellFormed<K, V>(render: K -> seq<byte>, t: Layout<K, V>, key: K, value: V)
    requires WellFormed(render, t)
    ensures WellFormed(render, Insert(render, t, key, value))
  {
    var b := Bucket(render, key, |t|);
    var r := Insert(render, t, key, value);
    match Find(t[b], key)
    case None =>
      assert r[b] == [Cell(key, value)] + t[b];
      forall j | 0 <= j < |r[b]| ensures Bucket(render, r[b][j].key, |t|) == b {
        if j > 0 { assert r[b][j] == t[b][j - 1]; }
      }
      forall i, j | 0 <= i < j < |r[b]| ensures r[b][i].key != r[b][j].key {
        assert r[b][j] == t[b][j - 1];
        if i > 0 { assert r[b][i] == t[b][i - 1]; }
      }
    case Some(i) =>
      assert r[b] == t[b][i := Cell(key, value)];
  }

  /** A key the table lacks goes to the head of its bucket's chain; nothing else moves. */
  lemma InsertAtHead<K, V>(render: K -> seq<byte>, t: Layout<K, V>, key: K, value: V)
    requires |t| > 0 && Lookup(render, t, key).None?
    ensures var b := Bucket(render, key, |t|);
      Insert(render, t, key, value) == t[b := [Cell(key, value)] + t[b]]
  {
  }

  /**
   * Chains keep insertion order, so the layout `equals` compares is not
   * determined by the mapping: two absent keys of one bucket inserted in
   * opposite orders give the same lookups but different chains.
   */
  lemma InsertOrderMatters<K, V>(render: K -> seq<byte>, t: Layout<K, V>, k1: K, v1: V, k2: K, v2: V)
    requires |t| > 0 && k1 != k2
    requires Bucket(render, k1, |t|) == Bucket(render, k2, |t|)
    requires Lookup(render, t, k1).None? && Lookup(render, t, k2).None?
    ensures var r1 := Insert(render, Insert(render, t, k1, v1), k2, v2);
      var r2 := Insert(render, Insert(render, t, k2, v2), k1, v1);
      r1 != r2 && forall k :: Lookup(render, r1, k) == Lookup(render, r2, k)
  {
    var b := Bucket(render, k1, |t|);
    var t1: Layout<K, V> := Insert(render, t, k1, v1);
    var t2: Layout<K, V> := Insert(render, t, k2, v2);
    InsertLookup(render, t, k1, v1);
    InsertLookup(render, t, k2, v2);
    InsertLookup(render, t1, k2, v2);
    InsertLookup(render, t2, k1, v1);
    InsertAtHead(render, t, k1, v1);
    InsertAtHead(render, t1, k2, v2);
    var r1: Layout<K, V> := Insert(render, t1, k2, v2);
    var r2: Layout<K, V> := Insert(render, t2, k1, v1);
    assert r1[b][0].key == k2;
    assert r2[b][0].key == k1;
  }

  // ---------------------------------------------------------------------
  // put, with rehashing that may re-enter itself
  // ---------------------------------------------------------------------

  /** The load factor exceeds 0.7: `entries / nBuckets > 0.7` on integers. */
  predicate Overloaded<K, V>(t: Layout<K, V>)
  {
    10 * Count(t) > 7 * |t|
  }

  /**
   * Termination measure of put and rehashing.  `cap` bounds the cells the
   * table can ever hold during one top-level put (the old cells plus the new
   * key); each nested rehash doubles the buckets, and rehashing only starts
   * while `10 * cap > 7 * nBuckets`.
   */
  function Slack(cap: nat, n: nat): nat
  {
    if 10 * cap > 7 * n then 10 * cap - 7 * n else 0
  }

  /** `put(key, value)`: insert, then rehash when the table became overloaded. */
  function Put<K(==), V>(render: K -> seq<byte>, t: Layout<K, V>, key: K, value: V, cap: nat): (r: Layout<K, V>)
    requires |t| > 0 && Count(t) < cap
    ensures |r| >= |t| && Count(r) <= Count(t) + 1
    decreases Slack(cap, |t|), 2, 0
  {
    var t1 := Insert(render, t, key, value);
    InsertCount(render, t, key, value);
    if Overloaded(t1) then Rehash(render, t1, cap) else t1
  }

  /**
   * `rehashing()`: a bucket array twice as long, into which every old cell
   * is re-put in traversal order (bucket-ascending, head to tail).
   */
  function Rehash<K(==), V>(render: K -> seq<byte>, t: Layout<K, V>, cap: nat): (r: Layout<K, V>)
    requires |t| > 0 && Count(t) <= cap && Overloaded(t)
    ensures |r| >= 2 * |t| && Count(r) <= Count(t)
    decreases Slack(cap, |t|), 1, 0
  {
    EmptyCount<K, V>(2 * |t|);
    PutAll(render, EmptyLayout(2 * |t|), Flatten(t), cap)
  }

  /** Re-put `cells` one after the other, as the loop of `rehashing` does. */
  function PutAll<K(==), V>(render: K -> seq<byte>, acc: Layout<K, V>, cells: seq<Cell<K, V>>, cap: nat): (r: Layout<K, V>)
    requires |acc| > 0 && Count(acc) + |cells| <= cap
    ensures |r| >= |acc| && Count(r) <= Count(acc) + |cells|
    decreases Slack(cap, |acc|), 3, |cells|
  {
    if cells == [] then acc
    else PutAll(render, Put(render, acc, cells[0].key, cells[0].value, cap), cells[1..], cap)
  }

  /** Re-putting one more cell extends the fold by one put. */
  lemma {:induction false} PutAllSnoc<K, V>(render: K -> seq<byte>, acc: Layout<K, V>, cells: seq<Cell<K, V>>, c: Cell<K, V>, cap: nat)
    requires |acc| > 0 && Count(acc) + |cells| + 1 <= cap
    ensures Count(PutAll(render, acc, cells, cap)) < cap
    ensures PutAll(render, acc, cells + [c], cap) == Put(render, PutAll(render, acc, cells, cap), c.key, c.value, cap)
    decreases |cells|
  {
    if cells == [] {
      assert ([] + [c])[1..] == [];
    } else {
      var acc1 := Put(render, acc, cells[0].key, cells[0].value, cap);
      assert (cells + [c])[1..] == cells[1..] + [c];
      PutAllSnoc(render, acc1, cells[1..], c, cap);
    }
  }
  lemma {:induction false} PutAllAppend<K, V>(render: K -> seq<byte>, acc: Layout<K, V>, xs: seq<Cell<K, V>>, ys: seq<Cell<K, V>>, cap: nat)
    requires |acc| > 0 && Count(acc) + |xs| + |ys| <= cap
    ensures Count(PutAll(render, acc, xs, cap)) + |ys| <= cap
    ensures PutAll(render, acc, xs + ys, cap) == PutAll(render, PutAll(render, acc, xs, cap), ys, cap)
    decreases |xs|
  {
    if xs == [] {
      assert xs + ys == ys;
    } else {
      var acc1 := Put(render, acc, xs[0].key, xs[0].value, cap);
      assert (xs + ys)[0] == xs[0] && (xs + ys)[1..] == xs[1..] + ys;
      PutAllAppend(render, acc1, xs[1..], ys, cap);
    }
  }

  /** One step of putting the cells of `p` one by one. */
  lemma PutAllPrefixStep<K, V>(render: K -> seq<byte>, acc: Layout<K, V>, p: seq<Cell<K, V>>, j: nat, cap: nat)
    requires |acc| > 0 && j < |p| && Count(acc) + |p| <= cap
    ensures Count(PutAll(render, acc, p[..j], cap)) < cap
    ensures PutAll(render, acc, p[..j + 1], cap) ==
            Put(render, PutAll(render, acc, p[..j], cap), p[j].key, p[j].value, cap)
  {
    assert p[..j + 1] == p[..j] + [p[j]];
    PutAllSnoc(render, acc, p[..j], p[j], cap);
  }



  // --- the mapping: put binds the key, rehashing keeps every binding ---

  lemma {:induction false} PutKeepsMapping<K, V>(render: K -> seq<byte>, t: Layout<K, V>, key: K, value: V, cap: nat)
    requires WellFormed(render, t) && Count(t) < cap
    ensures WellFormed(render, Put(render, t, key, value, cap))
    ensures forall k :: Lookup(render, Put(render, t, key, value, cap), k) ==
                        if k == key then Some(value) else Lookup(render, t, k)
    decreases Slack(cap, |t|), 2, 0
  {
    var t1 := Insert(render, t, key, value);
    InsertCount(render, t, key, value);
    InsertWellFormed(render, t, key, value);
    InsertLookup(render, t, key, value);
    if Overloaded(t1) {
      RehashKeepsMapping(render, t1, cap);
    }
  }

  lemma {:induction false} RehashKeepsMapping<K, V>(render: K -> seq<byte>, t: Layout<K, V>, cap: nat)
    requires WellFormed(render, t) && Count(t) <= cap && Overloaded(t)
    ensures WellFormed(render, Rehash(render, t, cap))
    ensures forall k :: Lookup(render, Rehash(render, t, cap), k) == Lookup(render, t, k)
    decreases Slack(cap, |t|), 1, 0
  {
    var e := EmptyLayout<K, V>(2 * |t|);
    EmptyWellFormed<K, V>(render, 2 * |t|);
    assert t[..|t|] == t;
    FlattenDistinct(render, t, |t|);
    PutAllKeepsMapping(render, e, Flatten(t), cap);
    forall k ensures Lookup(render, Rehash(render, t, cap), k) == Lookup(render, t, k) {
      TraversalFindsLookup(render, t, k);
    }
  }

  lemma {:induction false} PutAllKeepsMapping<K, V>(render: K -> seq<byte>, acc: Layout<K, V>, cells: seq<Cell<K, V>>, cap: nat)
    requires WellFormed(render, acc) && Count(acc) + |cells| <= cap && DistinctKeys(cells)
    ensures WellFormed(render, PutAll(render, acc, cells, cap))
    ensures forall k :: Lookup(render, PutAll(render, acc, cells, cap), k) ==
                        if FindValue(cells, k).Some? then FindValue(cells, k) else Lookup(render, acc, k)
    decreases Slack(cap, |acc|), 3, |cells|
  {
    if cells != [] {
      var c := cells[0];
      var acc1 := Put(render, acc, c.key, c.value, cap);
      PutKeepsMapping(render, acc, c.key, c.value, cap);
      assert DistinctKeys(cells[1..]);
      PutAllKeepsMapping(render, acc1, cells[1..], cap);
      forall k ensures Lookup(render, PutAll(render, acc, cells, cap), k) ==
                       if FindValue(cells, k).Some? then FindValue(cells, k) else Lookup(render, acc, k)
      {
        assert cells == [c] + cells[1..];
        FindValueAppend([c], cells[1..], k);
        if k == c.key {
          assert FindValue(cells[1..], k).None? by {
            forall j | 0 <= j < |cells[1..]| ensures cells[1..][j].key != k {
              assert cells[1..][j] == cells[j + 1];
            }
          }
        }
      }
    }
  }

  // --- the entry count: size grows by one exactly for a new key ---

  lemma {:induction false} PutCount<K, V>(render: K -> seq<byte>, t: Layout<K, V>, key: K, value: V, cap: nat)
    requires WellFormed(render, t) && Count(t) < cap
    ensures Count(Put(render, t, key, value, cap)) == Count(t) + if Lookup(render, t, key).None? then 1 else 0
    decreases Slack(cap, |t|), 2, 0
  {
    var t1 := Insert(render, t, key, value);
    InsertCount(render, t, key, value);
    InsertWellFormed(render, t, key, value);
    if Overloaded(t1) {
      RehashCount(render, t1, cap);
    }
  }

  lemma {:induction false} RehashCount<K, V>(render: K -> seq<byte>, t: Layout<K, V>, cap: nat)
    requires WellFormed(render, t) && Count(t) <= cap && Overloaded(t)
    ensures Count(Rehash(render, t, cap)) == Count(t)
    decreases Slack(cap, |t|), 1, 0
  {
    var e := EmptyLayout<K, V>(2 * |t|);
    EmptyWellFormed<K, V>(render, 2 * |t|);
    assert t[..|t|] == t;
    FlattenDistinct(render, t, |t|);
    PutAllCount(render, e, Flatten(t), cap);
  }

  lemma {:induction false} PutAllCount<K, V>(render: K -> seq<byte>, acc: Layout<K, V>, cells: seq<Cell<K, V>>, cap: nat)
    requires WellFormed(render, acc) && Count(acc) + |cells| <= cap
    requires DistinctKeys(cells)
    requires forall j :: 0 <= j < |cells| ==> Lookup(render, acc, cells[j].key).None?
    ensures Count(PutAll(render, acc, cells, cap)) == Count(acc) + |cells|
    decreases Slack(cap, |acc|), 3, |cells|
  {
    if cells != [] {
      var c := cells[0];
      var acc1 := Put(render, acc, c.key, c.value, cap);
      PutCount(render, acc, c.key, c.value, cap);
      PutKeepsMapping(render, acc, c.key, c.value, cap);
      forall j | 0 <= j < |cells[1..]| ensures Lookup(render, acc1, cells[1..][j].key).None? {
        assert cells[1..][j] == cells[j + 1];
      }
      PutAllCount(render, acc1, cells[1..], cap);
    }
  }

  // --- the load factor: at most 0.7 right after every put ---

  lemma {:induction false} PutLoadBound<K, V>(render: K -> seq<byte>, t: Layout<K, V>, key: K, value: V, cap: nat)
    requires |t| > 0 && Count(t) < cap
    ensures !Overloaded(Put(render, t, key, value, cap))
    decreases Slack(cap, |t|), 2, 0
  {
    var t1 := Insert(render, t, key, value);
    InsertCount(render, t, key, value);
    if Overloaded(t1) {
      RehashLoadBound(render, t1, cap);
    }
  }

  lemma {:induction false} RehashLoadBound<K, V>(render: K -> seq<byte>, t: Layout<K, V>, cap: nat)
    requires |t| > 0 && Count(t) <= cap && Overloaded(t)
    ensures !Overloaded(Rehash(render, t, cap))
    decreases Slack(cap, |t|), 1, 0
  {
    EmptyCount<K, V>(2 * |t|);
    PutAllLoadBound(render, EmptyLayout(2 * |t|), Flatten(t), cap);
  }

  lemma {:induction false} PutAllLoadBound<K, V>(render: K -> seq<byte>, acc: Layout<K, V>, cells: seq<Cell<K, V>>, cap: nat)
    requires |acc| > 0 && Count(acc) + |cells| <= cap && cells != []
    ensures !Overloaded(PutAll(render, acc, cells, cap))
    decreases Slack(cap, |acc|), 3, |cells|
  {
    var acc1 := Put(render, acc, cells[0].key, cells[0].value, cap);
    if |cells| == 1 {
      PutLoadBound(render, acc, cells[0].key, cells[0].value, cap);
    } else {
      PutAllLoadBound(render, acc1, cells[1..], cap);
    }
  }

  /** What one top-level `put` does, with the bound `Count(t) + 1`. */
  lemma PutSpec<K, V>(render: K -> seq<byte>, t: Layout<K, V>, key: K, value: V)
    requires WellFormed(render, t)
    ensures WellFormed(render, Put(render, t, key, value, Count(t) + 1))
    ensures Lookup(render, Put(render, t, key, value, Count(t) + 1), key) == Some(value)
    ensures forall k :: k != key ==> Lookup(render, Put(render, t, key, value, Count(t) + 1), k) == Lookup(render, t, k)
    ensures Count(Put(render, t, key, value, Count(t) + 1)) == Count(t) + if Lookup(render, t, key).None? then 1 else 0
    ensures !Overloaded(Put(render, t, key, value, Count(t) + 1))
    ensures DoubledFrom(|t|, |Put(render, t, key, value, Count(t) + 1)|)
    ensures Domain(Put(render, t, key, value, Count(t) + 1)) == Domain(t) + {key}
  {
    PutKeepsMapping(render, t, key, value, Count(t) + 1);
    PutCount(render, t, key, value, Count(t) + 1);
    PutLoadBound(render, t, key, value, Count(t) + 1);
    PutBuckets(render, t, key, value, Count(t) + 1);
    DomainUpdate(render, t, Put(render, t, key, value, Count(t) + 1), key);
  }

  // --- the number of buckets: rehashing doubles it, possibly more than once ---

  /** `m` is `n` doubled zero or more times. */
  predicate DoubledFrom(n: nat, m: nat)
    decreases m
  {
    m == n || (m > n && m % 2 == 0 && DoubledFrom(n, m / 2))
  }

  lemma {:induction false} DoubledFromTrans(a: nat, b: nat, c: nat)
    requires DoubledFrom(a, b) && DoubledFrom(b, c)
    ensures DoubledFrom(a, c) && a <= b <= c
    decreases c
  {
    if c != b {
      DoubledFromTrans(a, b, c / 2);
    }
  }

  lemma {:induction false} PutBuckets<K, V>(render: K -> seq<byte>, t: Layout<K, V>, key: K, value: V, cap: nat)
    requires |t| > 0 && Count(t) < cap
    ensures DoubledFrom(|t|, |Put(render, t, key, value, cap)|)
    decreases Slack(cap, |t|), 2, 0
  {
    var t1 := Insert(render, t, key, value);
    InsertCount(render, t, key, value);
    if Overloaded(t1) {
      RehashBuckets(render, t1, cap);
      assert DoubledFrom(|t|, 2 * |t|) by { assert (2 * |t|) / 2 == |t|; }
      DoubledFromTrans(|t|, 2 * |t|, |Rehash(render, t1, cap)|);
    }
  }

  lemma {:induction false} RehashBuckets<K, V>(render: K -> seq<byte>, t: Layout<K, V>, cap: nat)
    requires |t| > 0 && Count(t) <= cap && Overloaded(t)
    ensures DoubledFrom(2 * |t|, |Rehash(render, t, cap)|)
    decreases Slack(cap, |t|), 1, 0
  {
    EmptyCount<K, V>(2 * |t|);
    PutAllBuckets(render, EmptyLayout(2 * |t|), Flatten(t), cap);
  }

  lemma {:induction false} PutAllBuckets<K, V>(render: K -> seq<byte>, acc: Layout<K, V>, cells: seq<Cell<K, V>>, cap: nat)
    requires |acc| > 0 && Count(acc) + |cells| <= cap
    ensures DoubledFrom(|acc|, |PutAll(render, acc, cells, cap)|)
    decreases Slack(cap, |acc|), 3, |cells|
  {
    if cells != [] {
      var acc1 := Put(render, acc, cells[0].key, cells[0].value, cap);
      PutBuckets(render, acc, cells[0].key, cells[0].value, cap);
      PutAllBuckets(render, acc1, cells[1..], cap);
      DoubledFromTrans(|acc|, |acc1|, |PutAll(render, acc1, cells[1..], cap)|);
    }
  }

  /**
   * When the table held at most 1.4 entries per bucket, as it does after any
   * sequence of puts, rehashing doubles the bucket count exactly once.
   */
  lemma RehashDoublesOnce<K, V>(render: K -> seq<byte>, t: Layout<K, V>, cap: nat)
    requires |t| > 0 && Count(t) <= cap && Overloaded(t)
    requires 10 * Count(t) <= 14 * |t|
    ensures |Rehash(render, t, cap)| == 2 * |t|
  {
    EmptyCount<K, V>(2 * |t|);
    PutAllWithinLoad(render, EmptyLayout(2 * |t|), Flatten(t), cap);
  }

  lemma {:induction false} PutAllWithinLoad<K, V>(render: K -> seq<byte>, acc: Layout<K, V>, cells: seq<Cell<K, V>>, cap: nat)
    requires |acc| > 0 && Count(acc) + |cells| <= cap
    requires 10 * (Count(acc) + |cells|) <= 7 * |acc|
    ensures |PutAll(render, acc, cells, cap)| == |acc|
    decreases |cells|
  {
    if cells != [] {
      var c := cells[0];
      InsertCount(render, acc, c.key, c.value);
      var acc1 := Put(render, acc, c.key, c.value, cap);
      assert acc1 == Insert(render, acc, c.key, c.value);
      PutAllWithinLoad(render, acc1, cells[1..], cap);
    }
  }

  // ---------------------------------------------------------------------
  // remove, the mutable operator[] and the key/value snapshots
  // ---------------------------------------------------------------------

  /** `remove(key)`: unlink the key's cell from its chain, if there is one. */
  function Remove<K(==), V>(render: K -> seq<byte>, t: Layout<K, V>, key: K): (r: Layout<K, V>)
    requires |t| > 0
    ensures |r| == |t|
  {
    var b := Bucket(render, key, |t|);
    match Find(t[b], key)
    case None => t
    case Some(i) => t[b := t[b][..i] + t[b][i + 1..]]
  }

  lemma RemoveSpec<K, V>(render: K -> seq<byte>, t: Layout<K, V>, key: K)
    requires WellFormed(render, t)
    ensures WellFormed(render, Remove(render, t, key))
    ensures forall k :: Lookup(render, Remove(render, t, key), k) ==
                        if k == key then None else Lookup(render, t, k)
    ensures Count(Remove(render, t, key)) == Count(t) - if Lookup(render, t, key).Some? then 1 else 0
    ensures Lookup(render, t, key).None? ==> Remove(render, t, key) == t
    ensures Domain(Remove(render, t, key)) == Domain(t) - {key}
  {
    RemoveLookup(render, t, key);
    DomainUpdate(render, t, Remove(render, t, key), key);
  }

  lemma RemoveLookup<K, V>(render: K -> seq<byte>, t: Layout<K, V>, key: K)
    requires WellFormed(render, t)
    ensures WellFormed(render, Remove(render, t, key))
    ensures forall k :: Lookup(render, Remove(render, t, key), k) ==
                        if k == key then None else Lookup(render, t, k)
    ensures Count(Remove(render, t, key)) == Count(t) - if Lookup(render, t, key).Some? then 1 else 0
    ensures Lookup(render, t, key).None? ==> Remove(render, t, key) == t
  {
    var b := Bucket(render, key, |t|);
    var r := Remove(render, t, key);
    match Find(t[b], key)
    case None =>
    case Some(i) =>
      var c := t[b];
      var c' := c[..i] + c[i + 1..];
      assert r[b] == c';
      assert forall j :: 0 <= j < |c'| ==> c'[j] == if j < i then c[j] else c[j + 1];
      CountUpdate(t, b, c');
      assert DistinctKeys(c');
      forall k ensures Lookup(render, r, k) == if k == key then None else Lookup(render, t, k) {
        if Bucket(render, k, |t|) == b {
          if k == key {
            assert forall j :: 0 <= j < |c'| ==> c'[j].key != k;
          } else {
            match Find(c, k)
            case None =>
              assert forall j :: 0 <= j < |c'| ==> c'[j].key != k;
            case Some(j) =>
              if j < i { FindIs(c', k, j); } else { FindIs(c', k, j - 1); }
          }
        }
      }
  }

  /**
   * The mutable `operator[]`: a missing key gets a cell holding the default
   * value at the head of its chain; the load factor is not checked.
   */
  function Vivify<K(==), V>(render: K -> seq<byte>, t: Layout<K, V>, key: K, default: V): (r: Layout<K, V>)
    requires |t| > 0
    ensures |r| == |t|
  {
    if Lookup(render, t, key).None? then Insert(render, t, key, default) else t
  }

  lemma VivifySpec<K, V>(render: K -> seq<byte>, t: Layout<K, V>, key: K, default: V)
    requires WellFormed(render, t)
    ensures WellFormed(render, Vivify(render, t, key, default))
    ensures Lookup(render, Vivify(render, t, key, default), key) ==
            if Lookup(render, t, key).Some? then Lookup(render, t, key) else Some(default)
    ensures forall k :: k != key ==> Lookup(render, Vivify(render, t, key, default), k) == Lookup(render, t, k)
    ensures Count(Vivify(render, t, key, default)) == Count(t) + if Lookup(render, t, key).None? then 1 else 0
    ensures Lookup(render, t, key).None? ==>
              Vivify(render, t, key, default)[Bucket(render, key, |t|)] == [Cell(key, default)] + t[Bucket(render, key, |t|)]
  {
    InsertWellFormed(render, t, key, default);
    InsertLookup(render, t, key, default);
    InsertCount(render, t, key, default);
  }

  /**
   * The load-factor bound is not an invariant: the mutable `operator[]` can
   * push a table that respects it past 0.7 without rehashing.
   */
  lemma VivifyCanOverload<K, V>(render: K -> seq<byte>, t: Layout<K, V>, key: K, default: V)
    requires WellFormed(render, t) && Lookup(render, t, key).None?
    requires 10 * (Count(t) + 1) > 7 * |t|
    ensures Overloaded(Vivify(render, t, key, default))
  {
    InsertCount(render, t, key, default);
  }

  /** `keys()`: the keys in traversal order. */
  function KeysOf<K, V>(cells: seq<Cell<K, V>>): seq<K>
  {
    seq(|cells|, i requires 0 <= i < |cells| => cells[i].key)
  }

  /** `values()`: the values in traversal order. */
  function ValuesOf<K, V>(cells: seq<Cell<K, V>>): seq<V>
  {
    seq(|cells|, i requires 0 <= i < |cells| => cells[i].value)
  }

  /** The set of keys the table holds. */
  ghost function Domain<K, V>(t: Layout<K, V>): set<K>
  {
    set k | k in KeysOf(Flatten(t))
  }

  lemma {:induction false} DistinctCard<T>(s: seq<T>)
    requires forall i, j :: 0 <= i < j < |s| ==> s[i] != s[j]
    ensures |set x | x in s| == |s|
  {
    if s != [] {
      var s' := s[..|s| - 1];
      DistinctCard(s');
      assert (set x | x in s) == (set x | x in s') + {s[|s| - 1]};
    }
  }

  lemma KeysOfFind<K, V>(cells: seq<Cell<K, V>>, k: K)
    ensures k in KeysOf(cells) <==> FindValue(cells, k).Some?
  {
    if k in KeysOf(cells) {
      var i :| 0 <= i < |cells| && KeysOf(cells)[i] == k;
      assert cells[i].key == k;
    }
    if Find(cells, k).Some? {
      assert KeysOf(cells)[Find(cells, k).value] == k;
    }
  }

  lemma KeysOfDistinct<K, V>(cells: seq<Cell<K, V>>)
    requires DistinctKeys(cells)
    ensures forall i, j :: 0 <= i < j < |cells| ==> KeysOf(cells)[i] != KeysOf(cells)[j]
    ensures |set k | k in KeysOf(cells)| == |cells|
  {
    var ks := KeysOf(cells);
    assert forall i :: 0 <= i < |ks| ==> ks[i] == cells[i].key;
    DistinctCard(ks);
  }

  /**
   * The key snapshot lists every key of the table exactly once, so the
   * entry count is the number of distinct keys.
   */
  lemma KeysSnapshot<K, V>(render: K -> seq<byte>, t: Layout<K, V>)
    requires WellFormed(render, t)
    ensures forall k :: k in KeysOf(Flatten(t)) <==> Lookup(render, t, k).Some?
    ensures forall i, j :: 0 <= i < j < Count(t) ==> KeysOf(Flatten(t))[i] != KeysOf(Flatten(t))[j]
    ensures forall k :: k in Domain(t) <==> Lookup(render, t, k).Some?
    ensures |Domain(t)| == Count(t)
  {
    forall k ensures k in KeysOf(Flatten(t)) <==> Lookup(render, t, k).Some? {
      TraversalFindsLookup(render, t, k);
      KeysOfFind(Flatten(t), k);
    }
    assert t[..|t|] == t;
    FlattenDistinct(render, t, |t|);
    KeysOfDistinct(Flatten(t));
  }

  /** Each pair of the traversal is a mapping of the table. */
  lemma TraversalPairs<K, V>(render: K -> seq<byte>, t: Layout<K, V>)
    requires WellFormed(render, t)
    ensures forall i :: 0 <= i < Count(t) ==> Lookup(render, t, Flatten(t)[i].key) == Some(Flatten(t)[i].value)
  {
    var cells := Flatten(t);
    forall i | 0 <= i < |cells| ensures Lookup(render, t, cells[i].key) == Some(cells[i].value) {
      TraversalFindsLookup(render, t, cells[i].key);
      FindIs(cells, cells[i].key, i);
    }
  }

  /** A change at one key changes the key set at that key only. */
  lemma DomainUpdate<K, V>(render: K -> seq<byte>, t: Layout<K, V>, r: Layout<K, V>, key: K)
    requires WellFormed(render, t) && WellFormed(render, r)
    requires forall k :: k != key ==> Lookup(render, r, k) == Lookup(render, t, k)
    ensures Lookup(render, r, key).Some? ==> Domain(r) == Domain(t) + {key}
    ensures Lookup(render, r, key).None? ==> Domain(r) == Domain(t) - {key}
  {
    InDomain(render, t);
    InDomain(render, r);
    var d := if Lookup(render, r, key).Some? then Domain(t) + {key} else Domain(t) - {key};
    forall x | x in Domain(r) ensures x in d {
      if x != key {
        assert Lookup(render, t, x).Some?;
      }
    }
    forall x | x in d ensures x in Domain(r) {
      if x != key {
        assert Lookup(render, r, x).Some?;
      }
    }
    assert Domain(r) == d;
  }

  lemma InDomain<K, V>(render: K -> seq<byte>, t: Layout<K, V>)
    requires WellFormed(render, t)
    ensures forall k :: k in Domain(t) <==> Lookup(render, t, k).Some?
  {
    KeysSnapshot(render, t);
  }
}
