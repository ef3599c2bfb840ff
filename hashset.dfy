/**
 * `MyHashSet`: a set layered on a `MyHashMap<V, bool>` whose keys are the
 * elements.  Every operation is specified by the set of elements it leaves
 * behind; the operators that build a new set return a fresh one.
 */
module HashSet {
  import opened Wrappers
  import opened HashCode
  import opened HashTable
  import opened HashMap

  class MyHashSet<V(==)> {
    const table: MyHashMap<V, bool>

    ghost predicate Valid()
      reads table, table.buckets
    {
      table.Valid() && table.defaultValue == false
    }

    /** The elements: the keys of the underlying map. */
    ghost function Elements(): set<V>
      reads table, table.buckets
    {
      Domain(table.Layout())
    }

    constructor (render: V -> seq<byte>)
      ensures Valid() && fresh(table) && fresh(table.buckets) && table.render == render
      ensures table.Layout() == EmptyLayout(INITIAL_BUCKET_COUNT)
      ensures Elements() == {}
    {
      table := new MyHashMap(render, false);
      new;
      KeysSnapshot(render, table.Layout());
    }

    /** The default copy constructor, which copies the map deeply. */
    constructor Copy(src: MyHashSet<V>)
      requires src.Valid()
      ensures Valid() && fresh(table) && fresh(table.buckets) && table.render == src.table.render
      ensures table.Layout() == src.table.Layout()
      ensures Elements() == src.Elements()
    {
      table := new MyHashMap.Copy(src.table);
    }

    method Size() returns (n: int)
      requires Valid()
      ensures n == |Elements()|
    {
      n := table.Size();
    }

    method IsEmpty() returns (e: bool)
      requires Valid()
      ensures e <==> Elements() == {}
    {
      e := table.IsEmpty();
    }

    method Add(value: V)
      requires Valid()
      modifies table, table.buckets
      ensures Valid() && (table.buckets == old(table.buckets) || fresh(table.buckets))
      ensures table.Layout() == HashTable.Put(table.render, old(table.Layout()), value, true, old(table.entries) + 1)
      ensures Elements() == old(Elements()) + {value}
    {
      table.Put(value, true);
    }

    method Remove(value: V)
      requires Valid()
      modifies table, table.buckets
      ensures Valid() && table.buckets == old(table.buckets)
      ensures table.Layout() == HashTable.Remove(table.render, old(table.Layout()), value)
      ensures Elements() == old(Elements()) - {value}
    {
      table.Remove(value);
    }

    method Contains(value: V) returns (b: bool)
      requires Valid()
      ensures b <==> value in Elements()
    {
      b := table.ContainsKey(value);
    }

    method Clear()
      requires Valid()
      modifies table, table.buckets
      ensures Valid() && table.buckets == old(table.buckets)
      ensures table.Layout() == EmptyLayout(table.buckets.Length)
      ensures Elements() == {}
    {
      table.Clear();
    }

    /** `isSubsetOf`: every key of this set's map is contained in `set2`. */
    method IsSubsetOf(set2: MyHashSet<V>) returns (b: bool)
      requires Valid() && set2.Valid()
      ensures b <==> Elements() <= set2.Elements()
    {
      var values := table.Keys();
      var i := 0;
      while i < |values|
        invariant 0 <= i <= |values|
        invariant forall j :: 0 <= j < i ==> values[j] in set2.Elements()
      {
        var c := set2.Contains(values[i]);
        if !c {
          return false;
        }
        i := i + 1;
      }
      return true;
    }

    method IsSupersetOf(set2: MyHashSet<V>) returns (b: bool)
      requires Valid() && set2.Valid()
      ensures b <==> set2.Elements() <= Elements()
    {
      b := set2.IsSubsetOf(this);
    }

    /** `==` and `equals`: each set is a subset of the other. */
    method Equals(set2: MyHashSet<V>) returns (b: bool)
      requires Valid() && set2.Valid()
      ensures b <==> Elements() == set2.Elements()
    {
      b := IsSubsetOf(set2);
      if b {
        b := set2.IsSubsetOf(this);
      }
    }

    /**
     * `first`: the first key of the map's traversal, which is the order of
     * the hash buckets and not the sorted order of the elements.
     */
    method First() returns (r: Result<V>)
      requires Valid()
      ensures r.Err? <==> Elements() == {}
      ensures r.Err? ==> r.error == OutOfRange
      ensures r.Ok? ==> r.value in Elements() && r.value == KeysOf(Flatten(table.Layout()))[0]
    {
      var e := IsEmpty();
      if e {
        return Err(OutOfRange);
      }
      var values := table.Keys();
      return Ok(values[0]);
    }

    /** `last`: the last key of the map's traversal. */
    method Last() returns (r: Result<V>)
      requires Valid()
      ensures r.Err? <==> Elements() == {}
      ensures r.Err? ==> r.error == OutOfRange
      ensures r.Ok? ==> r.value in Elements() && r.value == KeysOf(Flatten(table.Layout()))[table.entries - 1]
    {
      var e := IsEmpty();
      if e {
        return Err(OutOfRange);
      }
      var values := table.Keys();
      return Ok(values[|values| - 1]);
    }

    /** `set1 - set2`: the elements of this set that `set2` does not contain. */
    method Minus(set2: MyHashSet<V>) returns (d: MyHashSet<V>)
      requires Valid() && set2.Valid()
      ensures fresh(d.table) && fresh(d.table.buckets) && d.Valid()
      ensures d.table.render == table.render
      ensures d.Elements() == Elements() - set2.Elements()
    {
      d := new MyHashSet(table.render);
      var values := table.Keys();
      var i := 0;
      while i < |values|
        invariant 0 <= i <= |values|
        invariant fresh(d.table) && fresh(d.table.buckets) && d.Valid()
        invariant d.table.render == table.render
        invariant d.Elements() == (set x | x in values[..i]) - set2.Elements()
      {
        var c := set2.Contains(values[i]);
        if !c {
          d.Add(values[i]);
        }
        assert values[..i + 1] == values[..i] + [values[i]];
        i := i + 1;
      }
      assert values[..i] == values;
    }

    /** `set1 * set2`: the elements of this set that `set2` contains too. */
    method Times(set2: MyHashSet<V>) returns (d: MyHashSet<V>)
      requires Valid() && set2.Valid()
      ensures fresh(d.table) && fresh(d.table.buckets) && d.Valid()
      ensures d.table.render == table.render
      ensures d.Elements() == Elements() * set2.Elements()
    {
      d := new MyHashSet(table.render);
      var values := table.Keys();
      var i := 0;
      while i < |values|
        invariant 0 <= i <= |values|
        invariant fresh(d.table) && fresh(d.table.buckets) && d.Valid()
        invariant d.table.render == table.render
        invariant d.Elements() == (set x | x in values[..i]) * set2.Elements()
      {
        var c := set2.Contains(values[i]);
        if c {
          d.Add(values[i]);
        }
        assert values[..i + 1] == values[..i] + [values[i]];
        i := i + 1;
      }
      assert values[..i] == values;
    }

    /** `set1 + set2`: a copy of this set plus every element of `set2 - set1`. */
    method Plus(set2: MyHashSet<V>) returns (u: MyHashSet<V>)
      requires Valid() && set2.Valid()
      ensures fresh(u.table) && fresh(u.table.buckets) && u.Valid()
      ensures u.table.render == table.render
      ensures u.Elements() == Elements() + set2.Elements()
    {
      u := new MyHashSet.Copy(this);
      var difference := set2.Minus(this);
      var values := difference.table.Keys();
      u.AddEach(values);
    }

    /** The loop of `set1 + set2`: `add` for each value in turn. */
    method AddEach(values: seq<V>)
      requires Valid()
      modifies table, table.buckets
      ensures Valid() && (table.buckets == old(table.buckets) || fresh(table.buckets))
      ensures Elements() == old(Elements()) + (set x | x in values)
    {
      var i := 0;
      while i < |values|
        invariant 0 <= i <= |values|
        invariant Valid() && (table.buckets == old(table.buckets) || fresh(table.buckets))
        invariant Elements() == old(Elements()) + (set x | x in values[..i])
      {
        Add(values[i]);
        assert values[..i + 1] == values[..i] + [values[i]];
        i := i + 1;
      }
      assert values[..i] == values;
    }

    /** `set1 + value`. */
    method PlusValue(value: V) returns (u: MyHashSet<V>)
      requires Valid()
      ensures fresh(u.table) && fresh(u.table.buckets) && u.Valid()
      ensures u.table.render == table.render
      ensures u.table.Layout() == HashTable.Put(table.render, table.Layout(), value, true, table.entries + 1)
      ensures u.Elements() == Elements() + {value}
    {
      u := new MyHashSet.Copy(this);
      u.Add(value);
    }

    /** `set1 - value`. */
    method MinusValue(value: V) returns (d: MyHashSet<V>)
      requires Valid()
      ensures fresh(d.table) && fresh(d.table.buckets) && d.Valid()
      ensures d.table.render == table.render
      ensures d.table.Layout() == HashTable.Remove(table.render, table.Layout(), value)
      ensures d.Elements() == Elements() - {value}
    {
      d := new MyHashSet.Copy(this);
      d.Remove(value);
    }

    /** `+=` and `unionWith`: `*this = *this + set2`. */
    method UnionWith(set2: MyHashSet<V>)
      requires Valid() && set2.Valid()
      modifies table, table.buckets
      ensures Valid()
      ensures Elements() == old(Elements()) + old(set2.Elements())
    {
      var r := Plus(set2);
      table.Assign(r.table);
    }

    /** `+= value`: `*this = *this + value`. */
    method AddValue(value: V)
      requires Valid()
      modifies table, table.buckets
      ensures Valid()
      ensures table.Layout() == HashTable.Put(table.render, old(table.Layout()), value, true, old(table.entries) + 1)
      ensures Elements() == old(Elements()) + {value}
    {
      var r := PlusValue(value);
      table.Assign(r.table);
    }

    /** `*=` and `intersect`: `*this = *this * set2`. */
    method Intersect(set2: MyHashSet<V>)
      requires Valid() && set2.Valid()
      modifies table, table.buckets
      ensures Valid()
      ensures Elements() == old(Elements()) * old(set2.Elements())
    {
      var r := Times(set2);
      table.Assign(r.table);
    }

    /** `-=` and `difference`: `*this = *this - set2`. */
    method Difference(set2: MyHashSet<V>)
      requires Valid() && set2.Valid()
      modifies table, table.buckets
      ensures Valid()
      ensures Elements() == old(Elements()) - old(set2.Elements())
    {
      var r := Minus(set2);
      table.Assign(r.table);
    }

    /** `-= value`: `*this = *this - value`. */
    method RemoveValue(value: V)
      requires Valid()
      modifies table, table.buckets
      ensures Valid()
      ensures table.Layout() == HashTable.Remove(table.render, old(table.Layout()), value)
      ensures Elements() == old(Elements()) - {value}
    {
      var r := MinusValue(value);
      table.Assign(r.table);
    }
  }

  /** Decimal digits of a natural number, most significant first, as `std::ostringstream` writes them. */
  function Decimal(n: nat): (s: seq<byte>)
    ensures |s| >= 1 && forall i :: 0 <= i < |s| ==> 48 <= s[i] <= 57
  {
    if n < 10 then [(48 + n) as byte] else Decimal(n / 10) + [(48 + n % 10) as byte]
  }

  /** The rendering `hashCode<int>` hashes: a minus sign for a negative number, then its digits. */
  function RenderInt(n: int): seq<byte> {
    if n < 0 then [45 as byte] + Decimal(-n) else Decimal(n)
  }

  /** "1" hashes to 177622 and "9" to 177630: buckets 2 and 0 of ten. */
  lemma DigitBuckets()
    ensures Bucket(RenderInt, 1, 10) == 2 && Bucket(RenderInt, 9, 10) == 0
  {
    assert RenderInt(1) == [49] && RenderInt(9) == [57];
    SingleLetterCode(49);
    SingleLetterCode(57);
    var h1, h9 := MyHashCode([49]), MyHashCode([57]);
    assert h1 == 177622 && h9 == 177630;
    assert h1 % 10 == 2 && h9 % 10 == 0;
  }

  /** The two layouts of the sample below, worked out bucket by bucket. */
  lemma DigitLayouts(e: Layout<int, bool>, t1: Layout<int, bool>, t2: Layout<int, bool>)
    requires e == EmptyLayout(INITIAL_BUCKET_COUNT)
    requires t1 == Insert(RenderInt, e, 1, true) && t2 == Insert(RenderInt, t1, 9, true)
    ensures Count(e) == 0 && Count(t1) == 1 && Count(t2) == 2
    ensures !Overloaded(t1) && !Overloaded(t2)
    ensures KeysOf(Flatten(t2)) == [9, 1]
  {
    EmptyWellFormed<int, bool>(RenderInt, INITIAL_BUCKET_COUNT);
    DigitBuckets();
    assert |e| == 10 && e[2] == [] && Find(e[2], 1) == None;
    assert Bucket(RenderInt, 1, |e|) == 2;
    assert t1 == e[2 := [Cell(1, true)] + e[2]];
    assert [Cell(1, true)] + e[2] == [Cell(1, true)];
    assert t1 == e[2 := [Cell(1, true)]];
    CountUpdate(e, 2, [Cell(1, true)]);
    assert |t1| == 10 && t1[0] == [] && Find(t1[0], 9) == None;
    assert Bucket(RenderInt, 9, |t1|) == 0;
    assert t2 == t1[0 := [Cell(9, true)] + t1[0]];
    assert [Cell(9, true)] + t1[0] == [Cell(9, true)];
    assert t2 == t1[0 := [Cell(9, true)]];
    CountUpdate(t1, 0, [Cell(9, true)]);
    FlattenEmptyTail(t2, 3);
    FlattenPrefix(t2, 2);
    FlattenPrefix(t2, 1);
    FlattenPrefix(t2, 0);
    assert Flatten(t2[..0]) == [];
    assert Flatten(t2) == [Cell(9, true), Cell(1, true)];
  }

  /**
   * `first` and `last` follow the buckets, not the order of the elements:
   * "1" hashes to 177622 and "9" to 177630, so in ten buckets 9 lands in
   * bucket 0 and 1 in bucket 2.  After `add(1); add(9)`, `first()` is 9
   * and `last()` is 1.
   */
  method BucketOrderSample() returns (first: Result<int>, last: Result<int>)
    ensures first == Ok(9) && last == Ok(1)
  {
    var s := new MyHashSet(RenderInt);
    ghost var e := s.table.Layout();
    ghost var t1 := Insert(RenderInt, e, 1, true);
    ghost var t2 := Insert(RenderInt, t1, 9, true);
    DigitLayouts(e, t1, t2);
    s.Add(1);
    assert s.table.Layout() == t1;
    s.Add(9);
    assert s.table.Layout() == t2;
    first := s.First();
    last := s.Last();
  }
}
