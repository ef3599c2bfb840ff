/**
 * `MyHashMap`: a separately chained hash table.  The bucket array is an
 * `array` of chains; each chain lists its cells from head to tail.  Every
 * mutator is proved to leave the bucket array equal to the corresponding
 * function of `HashTable`, whose lemmas say what the change means for
 * lookups, the entry count and the load factor.
 */
module HashMap {
  import opened Wrappers
  import opened HashCode
  import opened HashTable

  /** `new Cell*[n]` with every bucket set to `NULL`. */
  method EmptyBuckets<K, V>(n: nat) returns (b: array<Chain<K, V>>)
    ensures fresh(b) && b[..] == EmptyLayout(n)
  {
    b := new Chain<K, V>[n];
    var i := 0;
    while i < n
      invariant 0 <= i <= n
      invariant forall j :: 0 <= j < i ==> b[j] == []
    {
      b[i] := [];
      i := i + 1;
    }
  }

  /** The chain-by-chain copy that `deepCopy` makes: same cells, same order. */
  method CopyChains<K, V>(src: array<Chain<K, V>>) returns (dst: array<Chain<K, V>>)
    ensures fresh(dst) && dst[..] == src[..]
  {
    dst := EmptyBuckets(src.Length);
    var i := 0;
    while i < dst.Length
      invariant 0 <= i <= dst.Length
      invariant forall j :: 0 <= j < i ==> dst[j] == src[j]
      invariant forall j :: i <= j < dst.Length ==> dst[j] == []
    {
      var p := src[i];
      var n := 0;
      while n < |p|
        invariant 0 <= n <= |p|
        invariant dst[i] == p[..n]
        invariant forall j :: 0 <= j < i ==> dst[j] == src[j]
        invariant forall j :: i < j < dst.Length ==> dst[j] == []
      {
        // link a copy of the cell behind the current tail
        dst[i] := dst[i] + [p[n]];
        n := n + 1;
      }
      assert p[..|p|] == p;
      i := i + 1;
    }
  }

  class MyHashMap<K(==), V(==)> {
    /** The byte string `hashCode` hashes for a key. */
    const render: K -> seq<byte>
    /** `ValueType()`: what `get` returns for a missing key. */
    const defaultValue: V
    var buckets: array<Chain<K, V>>
    var entries: int

    ghost function Layout(): Layout<K, V>
      reads this, buckets
    {
      buckets[..]
    }

    ghost predicate Valid()
      reads this, buckets
    {
      WellFormed(render, buckets[..]) && entries == Count(buckets[..])
    }

    /** The mappings the table holds. */
    ghost function Get'(key: K): Option<V>
      reads this, buckets
      requires Valid()
    {
      Lookup(render, buckets[..], key)
    }

    constructor (render: K -> seq<byte>, defaultValue: V)
      ensures Valid() && fresh(buckets)
      ensures this.render == render && this.defaultValue == defaultValue
      ensures Layout() == EmptyLayout(INITIAL_BUCKET_COUNT) && entries == 0
      ensures forall k :: Get'(k) == None
    {
      var b := EmptyBuckets(INITIAL_BUCKET_COUNT);
      this.render := render;
      this.defaultValue := defaultValue;
      entries := 0;
      buckets := b;
      new;
      EmptyWellFormed<K, V>(render, INITIAL_BUCKET_COUNT);
    }

    /** The copy constructor: a deep copy with its own bucket array. */
    constructor Copy(src: MyHashMap<K, V>)
      requires src.Valid()
      ensures Valid() && fresh(buckets)
      ensures render == src.render && defaultValue == src.defaultValue
      ensures Layout() == src.Layout() && entries == src.entries
    {
      render := src.render;
      defaultValue := src.defaultValue;
      entries := src.entries;
      var b := CopyChains(src.buckets);
      buckets := b;
    }

    /** `hashCode(key) % nBuckets`. */
    method BucketOf(key: K) returns (b: int)
      requires Valid()
      ensures b == Bucket(render, key, buckets.Length)
    {
      var code := HashLoop(render(key));
      b := code % buckets.Length;
    }

    /** `findCell`: the position of the key's cell in the given chain. */
    method FindCell(bucket: int, key: K) returns (cp: Option<nat>)
      requires 0 <= bucket < buckets.Length
      ensures cp == Find(buckets[bucket], key)
    {
      var chain := buckets[bucket];
      var p := 0;
      while p < |chain| && chain[p].key != key
        invariant 0 <= p <= |chain|
        invariant forall j :: 0 <= j < p ==> chain[j].key != key
      {
        p := p + 1;
      }
      if p < |chain| {
        FindIs(chain, key, p);
        cp := Some(p);
      } else {
        cp := None;
      }
    }

    method Get(key: K) returns (v: V)
      requires Valid()
      ensures Get'(key).Some? ==> v == Get'(key).value
      ensures Get'(key).None? ==> v == defaultValue
    {
      var bucket := BucketOf(key);
      var cp := FindCell(bucket, key);
      if cp.None? {
        v := defaultValue;
      } else {
        v := buckets[bucket][cp.value].value;
      }
    }

    method ContainsKey(key: K) returns (b: bool)
      requires Valid()
      ensures b <==> Get'(key).Some?
      ensures b <==> key in Domain(Layout())
    {
      KeysSnapshot(render, Layout());
      var bucket := BucketOf(key);
      var cp := FindCell(bucket, key);
      b := cp.Some?;
    }

    /** `size()`: the number of distinct keys. */
    method Size() returns (n: int)
      requires Valid()
      ensures n == |Domain(Layout())|
    {
      KeysSnapshot(render, Layout());
      n := entries;
    }

    method IsEmpty() returns (e: bool)
      requires Valid()
      ensures e <==> forall k :: Get'(k).None?
      ensures e <==> Domain(Layout()) == {}
    {
      KeysSnapshot(render, Layout());
      e := entries == 0;
      if !e {
        var cells := Flatten(Layout());
        TraversalPairs(render, Layout());
        assert Get'(cells[0].key).Some?;
      }
    }

    /**
     * The internal `put` as it runs inside one top-level call: a put may
     * rehash, and the rehash re-puts every cell through `put` again.  The
     * ghost `cap` bounds the number of cells any of these nested calls can
     * see, which is what makes the nesting terminate.
     */
    method PutWithin(key: K, value: V, ghost cap: nat)
      requires Valid() && entries < cap
      modifies this, buckets
      ensures Valid() && (buckets == old(buckets) || fresh(buckets))
      ensures buckets.Length >= old(buckets.Length)
      ensures Layout() == HashTable.Put(render, old(Layout()), key, value, cap)
      decreases Slack(cap, buckets.Length), 2
    {
      ghost var t := Layout();
      var bucket := BucketOf(key);
      var cp := FindCell(bucket, key);
      if cp.None? {
        buckets[bucket] := [Cell(key, value)] + buckets[bucket];
        entries := entries + 1;
      } else {
        buckets[bucket] := buckets[bucket][cp.value := Cell(key, value)];
      }
      assert Layout() == Insert(render, t, key, value);
      InsertWellFormed(render, t, key, value);
      InsertCount(render, t, key, value);
      if 10 * entries > 7 * buckets.Length {
        Rehashing(cap);
      }
    }

    /** `rehashing`: double the bucket array and put every old cell again. */
    method Rehashing(ghost cap: nat)
      requires Valid() && entries <= cap && 10 * entries > 7 * buckets.Length
      modifies this
      ensures Valid() && fresh(buckets)
      ensures Layout() == Rehash(render, old(Layout()), cap)
      decreases Slack(cap, buckets.Length), 1
    {
      ghost var t := Layout();
      var oldNBuckets := buckets.Length;
      var oldBuckets := buckets;
      assert 10 * cap > 7 * oldNBuckets;

      entries := 0;
      var nb := EmptyBuckets(2 * oldNBuckets);
      buckets := nb;
      EmptyWellFormed<K, V>(render, 2 * oldNBuckets);
      ghost var empty: Layout<K, V> := EmptyLayout(2 * oldNBuckets);

      var i := 0;
      while i < oldNBuckets
        invariant 0 <= i <= oldNBuckets
        invariant oldBuckets[..] == t
        invariant Valid() && fresh(buckets) && buckets.Length >= 2 * oldNBuckets
        invariant |Flatten(t[..i])| <= Count(t)
        invariant Layout() == PutAll(render, empty, Flatten(t[..i]), cap)
      {
        var p := oldBuckets[i];
        FlattenPrefix(t, i);
        FlattenPrefixCount(t, i + 1);
        PutAllAppend(render, empty, Flatten(t[..i]), p, cap);
        PutChain(p, cap);
        i := i + 1;
      }
      assert t[..oldNBuckets] == t;
    }

    /** The inner loop of `rehashing`: put each cell of one old chain again. */
    method PutChain(p: Chain<K, V>, ghost cap: nat)
      requires Valid() && entries + |p| <= cap
      modifies this, buckets
      ensures Valid() && (buckets == old(buckets) || fresh(buckets))
      ensures buckets.Length >= old(buckets.Length)
      ensures Layout() == PutAll(render, old(Layout()), p, cap)
      decreases Slack(cap, buckets.Length), 4
    {
      ghost var acc := Layout();
      var j := 0;
      while j < |p|
        invariant 0 <= j <= |p|
        invariant Valid() && (buckets == old(buckets) || fresh(buckets))
        invariant buckets.Length >= old(buckets.Length)
        invariant Layout() == PutAll(render, acc, p[..j], cap)
      {
        PutCell(p, j, acc, cap);
        j := j + 1;
      }
      assert p[..|p|] == p;
    }

    /** One pass of that loop: put the `j`-th cell of the chain. */
    method PutCell(p: Chain<K, V>, j: nat, ghost acc: Layout<K, V>, ghost cap: nat)
      requires Valid() && j < |p| && |acc| > 0 && Count(acc) + |p| <= cap
      requires Layout() == PutAll(render, acc, p[..j], cap)
      modifies this, buckets
      ensures Valid() && (buckets == old(buckets) || fresh(buckets))
      ensures buckets.Length >= old(buckets.Length)
      ensures Layout() == PutAll(render, acc, p[..j + 1], cap)
      decreases Slack(cap, buckets.Length), 3
    {
      PutAllPrefixStep(render, acc, p, j, cap);
      PutWithin(p[j].key, p[j].value, cap);
    }

    /**
     * `put`: overwrite the key's value or push a new cell at the head of its
     * chain, then rehash (possibly more than once) while the load factor
     * exceeds 0.7.
     */
    method Put(key: K, value: V)
      requires Valid()
      modifies this, buckets
      ensures Valid() && (buckets == old(buckets) || fresh(buckets))
      ensures Layout() == HashTable.Put(render, old(Layout()), key, value, old(entries) + 1)
      ensures Get'(key) == Some(value)
      ensures forall k :: k != key ==> Get'(k) == Lookup(render, old(Layout()), k)
      ensures entries == old(entries) + if old(Get'(key)).None? then 1 else 0
      ensures !Overloaded(Layout())
      ensures DoubledFrom(old(buckets.Length), buckets.Length)
      ensures Domain(Layout()) == Domain(old(Layout())) + {key}
    {
      ghost var t := Layout();
      PutWithin(key, value, entries + 1);
      PutSpec(render, t, key, value);
    }

    /** `remove`: unlink the key's cell, walking to its predecessor first. */
    method Remove(key: K)
      requires Valid()
      modifies this, buckets
      ensures Valid() && buckets == old(buckets)
      ensures Layout() == HashTable.Remove(render, old(Layout()), key)
      ensures Get'(key) == None
      ensures forall k :: k != key ==> Get'(k) == Lookup(render, old(Layout()), k)
      ensures entries == old(entries) - if old(Get'(key)).Some? then 1 else 0
      ensures Domain(Layout()) == Domain(old(Layout())) - {key}
    {
      ghost var t := Layout();
      var bucket := BucketOf(key);
      var cp := FindCell(bucket, key);
      if cp.Some? {
        var chain := buckets[bucket];
        if cp.value == 0 {
          assert chain[1..] == chain[..0] + chain[1..];
          buckets[bucket] := chain[1..];
        } else {
          var r := 0;
          while chain[r + 1].key != key
            invariant 0 <= r < cp.value
            decreases cp.value - r
          {
            r := r + 1;
          }
          buckets[bucket] := chain[..r + 1] + chain[r + 2..];
        }
        entries := entries - 1;
      }
      assert Layout() == HashTable.Remove(render, t, key);
      RemoveSpec(render, t, key);
    }

    /** `clear`: free every chain cell by cell and empty every bucket. */
    method Clear()
      requires Valid()
      modifies this, buckets
      ensures Valid() && buckets == old(buckets) && entries == 0
      ensures Layout() == EmptyLayout(buckets.Length)
      ensures forall k :: Get'(k) == None
      ensures Domain(Layout()) == {}
    {
      var i := 0;
      while i < buckets.Length
        invariant 0 <= i <= buckets.Length && buckets == old(buckets)
        invariant forall j :: 0 <= j < i ==> buckets[j] == []
        invariant entries == Count(buckets[..])
      {
        var cp := buckets[i];
        ghost var before := buckets[..];
        while cp != []
          invariant buckets == old(buckets) && buckets[..] == before
          invariant entries == Count(before) - |before[i]| + |cp|
        {
          cp := cp[1..];
          entries := entries - 1;
        }
        CountUpdate(buckets[..], i, []);
        buckets[i] := [];
        i := i + 1;
      }
      assert buckets[..] == EmptyLayout(buckets.Length);
      EmptyWellFormed<K, V>(render, buckets.Length);
      KeysSnapshot(render, Layout());
    }

    /**
     * `equals` (and `==`): the same bucket count and, bucket by bucket, the
     * same cells in the same order.
     */
    method Equals(other: MyHashMap<K, V>) returns (eq: bool)
      requires Valid() && other.Valid()
      ensures eq <==> Layout() == other.Layout()
    {
      if entries != other.entries || buckets.Length != other.buckets.Length {
        return false;
      }
      var i := 0;
      while i < buckets.Length
        invariant 0 <= i <= buckets.Length
        invariant forall j :: 0 <= j < i ==> buckets[j] == other.buckets[j]
      {
        var pThis := buckets[i];
        var pOther := other.buckets[i];
        var p := 0;
        while p < |pThis| || p < |pOther|
          invariant 0 <= p <= |pThis| && p <= |pOther|
          invariant pThis[..p] == pOther[..p]
          decreases |pThis| - p
        {
          if p == |pThis| || p == |pOther| {
            assert Layout()[i] != other.Layout()[i];
            return false;
          }
          if pThis[p].key != pOther[p].key || pThis[p].value != pOther[p].value {
            assert Layout()[i] != other.Layout()[i];
            return false;
          }
          p := p + 1;
        }
        assert pThis == pThis[..p] && pOther == pOther[..p];
        i := i + 1;
      }
      assert Layout() == other.Layout();
      return true;
    }

    /** `sequentialTraversal`: every cell, bucket by bucket, head to tail. */
    method SequentialTraversal() returns (cells: seq<Cell<K, V>>)
      requires Valid()
      ensures cells == Flatten(Layout())
      ensures forall k :: FindValue(cells, k) == Get'(k)
    {
      ghost var t := Layout();
      cells := [];
      var i := 0;
      while i < buckets.Length
        invariant 0 <= i <= buckets.Length
        invariant cells == Flatten(t[..i])
      {
        var cp := buckets[i];
        var j := 0;
        while j < |cp|
          invariant 0 <= j <= |cp|
          invariant cells == Flatten(t[..i]) + cp[..j]
        {
          cells := cells + [cp[j]];
          j := j + 1;
        }
        assert cp[..|cp|] == cp;
        FlattenPrefix(t, i);
        i := i + 1;
      }
      assert t[..buckets.Length] == t;
      forall k ensures FindValue(cells, k) == Get'(k) {
        TraversalFindsLookup(render, t, k);
      }
    }

    /** `keys()`: every key exactly once, in traversal order. */
    method Keys() returns (ks: seq<K>)
      requires Valid()
      ensures ks == KeysOf(Flatten(Layout()))
      ensures |ks| == entries
      ensures forall k :: k in ks <==> Get'(k).Some?
      ensures forall k :: k in ks <==> k in Domain(Layout())
      ensures forall i, j :: 0 <= i < j < |ks| ==> ks[i] != ks[j]
    {
      var keysAndValues := SequentialTraversal();
      ks := [];
      var i := 0;
      while i < |keysAndValues|
        invariant 0 <= i <= |keysAndValues|
        invariant ks == KeysOf(keysAndValues[..i])
      {
        ks := ks + [keysAndValues[i].key];
        i := i + 1;
      }
      assert keysAndValues[..i] == keysAndValues;
      KeysSnapshot(render, Layout());
    }

    /** `values()`: the value of each key of `keys()`, position by position. */
    method Values() returns (vs: seq<V>)
      requires Valid()
      ensures vs == ValuesOf(Flatten(Layout()))
      ensures |vs| == entries
      ensures forall i :: 0 <= i < |vs| ==> Get'(KeysOf(Flatten(Layout()))[i]) == Some(vs[i])
    {
      var keysAndValues := SequentialTraversal();
      vs := [];
      var i := 0;
      while i < |keysAndValues|
        invariant 0 <= i <= |keysAndValues|
        invariant vs == ValuesOf(keysAndValues[..i])
      {
        vs := vs + [keysAndValues[i].value];
        i := i + 1;
      }
      assert keysAndValues[..i] == keysAndValues;
      TraversalPairs(render, Layout());
    }

    /**
     * The mutable `operator[]`: the key's value, after giving a missing key
     * a cell with the default value.  It never rehashes.
     */
    method Index(key: K) returns (v: V)
      requires Valid()
      modifies this, buckets
      ensures Valid() && buckets == old(buckets)
      ensures Layout() == Vivify(render, old(Layout()), key, defaultValue)
      ensures Get'(key) == Some(v)
      ensures old(Get'(key)).Some? ==> v == old(Get'(key)).value
      ensures old(Get'(key)).None? ==> v == defaultValue
      ensures forall k :: k != key ==> Get'(k) == Lookup(render, old(Layout()), k)
      ensures entries == old(entries) + if old(Get'(key)).None? then 1 else 0
    {
      ghost var t := Layout();
      var bucket := BucketOf(key);
      var cp := FindCell(bucket, key);
      if cp.None? {
        buckets[bucket] := [Cell(key, defaultValue)] + buckets[bucket];
        entries := entries + 1;
        v := defaultValue;
      } else {
        v := buckets[bucket][cp.value].value;
      }
      VivifySpec(render, t, key, defaultValue);
      assert Layout() == Vivify(render, t, key, defaultValue);
    }

    /**
     * `map[key] = value`: the mutable `operator[]` followed by a write
     * through the reference it returns.  Like `operator[]`, it does not
     * check the load factor.
     */
    method IndexAssign(key: K, value: V)
      requires Valid()
      modifies this, buckets
      ensures Valid() && buckets == old(buckets)
      ensures Layout() == Insert(render, old(Layout()), key, value)
      ensures Get'(key) == Some(value)
      ensures forall k :: k != key ==> Get'(k) == Lookup(render, old(Layout()), k)
      ensures entries == old(entries) + if old(Get'(key)).None? then 1 else 0
    {
      ghost var t := Layout();
      var bucket := BucketOf(key);
      var cp := FindCell(bucket, key);
      var at := 0;
      ghost var c := buckets[bucket];
      if cp.None? {
        assert ([Cell(key, defaultValue)] + c)[0 := Cell(key, value)] == [Cell(key, value)] + c;
        buckets[bucket] := [Cell(key, defaultValue)] + buckets[bucket];
        entries := entries + 1;
      } else {
        at := cp.value;
      }
      buckets[bucket] := buckets[bucket][at := Cell(key, value)];
      assert Layout() == Insert(render, t, key, value);
      InsertWellFormed(render, t, key, value);
      InsertLookup(render, t, key, value);
      InsertCount(render, t, key, value);
    }

    /**
     * `operator=`: unless `src` is this very map, free the current cells
     * and take a deep copy of `src`.  Distinct maps own distinct bucket
     * arrays.
     */
    method Assign(src: MyHashMap<K, V>)
      requires Valid() && src.Valid()
      requires src.render == render && src.defaultValue == defaultValue
      requires src != this ==> src.buckets != buckets
      modifies this, buckets
      ensures Valid() && Layout() == old(src.Layout()) && entries == old(src.entries)
      ensures src != this ==> fresh(buckets)
      ensures forall k :: Get'(k) == Lookup(render, old(src.Layout()), k)
    {
      if src != this {
        Clear();
        entries := src.entries;
        var b := CopyChains(src.buckets);
        buckets := b;
      }
    }
  }
}
