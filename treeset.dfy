/**
 * `MySet`: an ordered set layered on a `MyMap<int, bool>` whose keys are the
 * elements (integers here, as the map's keys are).  Every operation is
 * specified by the set of elements it leaves behind; the operators that build
 * a new set return a fresh one.
 */
module TreeSet {
  import opened Wrappers
  import opened TreeMap

  class MySet {
    const table: MyMap<bool>

    ghost predicate Valid()
      reads table
    {
      table.Valid() && table.defaultValue == false
    }

    /** The elements: the keys of the underlying map. */
    ghost function Elements(): set<int>
      reads table
    {
      table.Contents().Keys
    }

    constructor ()
      ensures Valid() && fresh(table)
      ensures Elements() == {}
    {
      table := new MyMap(false);
    }

    /** The default copy constructor, which copies the map deeply. */
    constructor Copy(src: MySet)
      requires src.Valid()
      ensures Valid() && fresh(table)
      ensures Elements() == src.Elements()
    {
      table := new MyMap.Copy(src.table);
    }

    method Size() returns (n: int)
      requires Valid()
      ensures n == |Elements()|
    {
      n := table.Size();
    }

    method IsEmpty() returns (e: bool)
      requires Valid()
      ensures e <==> Elements() == {}
    {
      e := table.IsEmpty();
    }

    method Add(value: int)
      requires Valid()
      modifies table
      ensures Valid()
      ensures Elements() == old(Elements()) + {value}
    {
      table.Put(value, true);
    }

    method Remove(value: int)
      requires Valid()
      modifies table
      ensures Valid()
      ensures Elements() == old(Elements()) - {value}
    {
      table.Remove(value);
    }

    method Contains(value: int) returns (b: bool)
      requires Valid()
      ensures b <==> value in Elements()
    {
      b := table.ContainsKey(value);
    }

    method Clear()
      requires Valid()
      modifies table
      ensures Valid()
      ensures Elements() == {}
    {
      table.Clear();
    }

    /** `isSubsetOf`: every key of this set's map is contained in `set2`. */
    method IsSubsetOf(set2: MySet) returns (b: bool)
      requires Valid() && set2.Valid()
      ensures b <==> Elements() <= set2.Elements()
    {
      var values := table.Keys();
      assert forall x :: x in values <==> x in Elements();
      var i := 0;
      while i < |values|
        invariant 0 <= i <= |values|
        invariant forall j :: 0 <= j < i ==> values[j] in set2.Elements()
      {
        var c := set2.Contains(values[i]);
        if !c {
          return false;
        }
        i := i + 1;
      }
      return true;
    }

    method IsSupersetOf(set2: MySet) returns (b: bool)
      requires Valid() && set2.Valid()
      ensures b <==> set2.Elements() <= Elements()
    {
      b := set2.IsSubsetOf(this);
    }

    /** `==` and `equals`: each set is a subset of the other. */
    method Equals(set2: MySet) returns (b: bool)
      requires Valid() && set2.Valid()
      ensures b <==> Elements() == set2.Elements()
    {
      b := IsSubsetOf(set2);
      if b {
        b := set2.IsSubsetOf(this);
      }
    }

    /** `first`: the first of the ascending keys, so the smallest element. */
    method First() returns (r: Result<int>)
      requires Valid()
      ensures r.Err? <==> Elements() == {}
      ensures r.Err? ==> r.error == OutOfRange
      ensures r.Ok? ==> r.value in Elements() && forall x :: x in Elements() ==> r.value <= x
    {
      var e := IsEmpty();
      if e {
        return Err(OutOfRange);
      }
      var values := table.Keys();
      assert values[0] in Elements();
      forall x | x in Elements() ensures values[0] <= x {
        var i :| 0 <= i < |values| && values[i] == x;
      }
      return Ok(values[0]);
    }

    /** `last`: the last of the ascending keys, so the largest element. */
    method Last() returns (r: Result<int>)
      requires Valid()
      ensures r.Err? <==> Elements() == {}
      ensures r.Err? ==> r.error == OutOfRange
      ensures r.Ok? ==> r.value in Elements() && forall x :: x in Elements() ==> x <= r.value
    {
      var e := IsEmpty();
      if e {
        return Err(OutOfRange);
      }
      var values := table.Keys();
      var n := |values|;
      assert values[n - 1] in Elements();
      forall x | x in Elements() ensures x <= values[n - 1] {
        var i :| 0 <= i < n && values[i] == x;
      }
      return Ok(values[n - 1]);
    }

    /** `set1 - set2`: the elements of this set that `set2` does not contain. */
    method Minus(set2: MySet) returns (d: MySet)
      requires Valid() && set2.Valid()
      ensures fresh(d.table) && d.Valid()
      ensures d.Elements() == Elements() - set2.Elements()
    {
      d := new MySet();
      var values := table.Keys();
      assert forall x :: x in values <==> x in Elements();
      var i := 0;
      while i < |values|
        invariant 0 <= i <= |values|
        invariant fresh(d.table) && d.Valid()
        invariant d.Elements() == (set x | x in values[..i]) - set2.Elements()
      {
        var c := set2.Contains(values[i]);
        if !c {
          d.Add(values[i]);
        }
        assert values[..i + 1] == values[..i] + [values[i]];
        i := i + 1;
      }
      assert values[..i] == values;
    }

    /** `set1 * set2`: the elements of this set that `set2` contains too. */
    method Times(set2: MySet) returns (d: MySet)
      requires Valid() && set2.Valid()
      ensures fresh(d.table) && d.Valid()
      ensures d.Elements() == Elements() * set2.Elements()
    {
      d := new MySet();
      var values := table.Keys();
      assert forall x :: x in values <==> x in Elements();
      var i := 0;
      while i < |values|
        invariant 0 <= i <= |values|
        invariant fresh(d.table) && d.Valid()
        invariant d.Elements() == (set x | x in values[..i]) * set2.Elements()
      {
        var c := set2.Contains(values[i]);
        if c {
          d.Add(values[i]);
        }
        assert values[..i + 1] == values[..i] + [values[i]];
        i := i + 1;
      }
      assert values[..i] == values;
    }

    /** `set1 + set2`: a copy of this set plus every element of `set2 - set1`. */
    method Plus(set2: MySet) returns (u: MySet)
      requires Valid() && set2.Valid()
      ensures fresh(u.table) && u.Valid()
      ensures u.Elements() == Elements() + set2.Elements()
    {
      u := new MySet.Copy(this);
      var difference := set2.Minus(this);
      var values := difference.table.Keys();
      assert forall x :: x in values <==> x in difference.Elements();
      ghost var extra := difference.Elements();
      var i := 0;
      while i < |values|
        invariant 0 <= i <= |values|
        invariant fresh(u.table) && u.Valid()
        invariant u.Elements() == Elements() + (set x | x in values[..i])
      {
        u.Add(values[i]);
        assert values[..i + 1] == values[..i] + [values[i]];
        i := i + 1;
      }
      assert values[..i] == values;
      assert (set x | x in values) == extra;
    }

    /** `set1 + value`. */
    method PlusValue(value: int) returns (u: MySet)
      requires Valid()
      ensures fresh(u.table) && u.Valid()
      ensures u.Elements() == Elements() + {value}
    {
      u := new MySet.Copy(this);
      u.Add(value);
    }

    /** `set1 - value`. */
    method MinusValue(value: int) returns (d: MySet)
      requires Valid()
      ensures fresh(d.table) && d.Valid()
      ensures d.Elements() == Elements() - {value}
    {
      d := new MySet.Copy(this);
      d.Remove(value);
    }

    /** `+=` and `unionWith`: `*this = *this + set2`. */
    method UnionWith(set2: MySet)
      requires Valid() && set2.Valid()
      modifies table
      ensures Valid()
      ensures Elements() == old(Elements()) + old(set2.Elements())
    {
      var r := Plus(set2);
      table.Assign(r.table);
    }

    /** `+= value`: `*this = *this + value`. */
    method AddValue(value: int)
      requires Valid()
      modifies table
      ensures Valid()
      ensures Elements() == old(Elements()) + {value}
    {
      var r := PlusValue(value);
      table.Assign(r.table);
    }

    /** `*=` and `intersect`: `*this = *this * set2`. */
    method Intersect(set2: MySet)
      requires Valid() && set2.Valid()
      modifies table
      ensures Valid()
      ensures Elements() == old(Elements()) * old(set2.Elements())
    {
      var r := Times(set2);
      table.Assign(r.table);
    }

    /** `-=` and `difference`: `*this = *this - set2`. */
    method Difference(set2: MySet)
      requires Valid() && set2.Valid()
      modifies table
      ensures Valid()
      ensures Elements() == old(Elements()) - old(set2.Elements())
    {
      var r := Minus(set2);
      table.Assign(r.table);
    }

    /** `-= value`: `*this = *this - value`. */
    method RemoveValue(value: int)
      requires Valid()
      modifies table
      ensures Valid()
      ensures Elements() == old(Elements()) - {value}
    {
      var r := MinusValue(value);
      table.Assign(r.table);
    }
  }
}
