/**
 * `MyMap`: an ordered map kept as an unbalanced binary search tree.  The tree
 * is a value (`Tree`) that the map's methods replace; the search, insertion,
 * removal and traversals are functions over it, each specified against the
 * key-value pairs the tree stores (`Items`).
 */
module TreeMap {
  import opened Wrappers

  datatype Tree<V> = Leaf | Node(left: Tree<V>, key: int, value: V, right: Tree<V>)

  /** The key-value pairs stored in `t`. */
  ghost function Items<V>(t: Tree<V>): map<int, V> {
    match t
    case Leaf => map[]
    case Node(l, k, v, r) => (Items(l) + Items(r))[k := v]
  }

  /** The search-tree order: smaller keys to the left, larger to the right. */
  ghost predicate BST<V>(t: Tree<V>) {
    match t
    case Leaf => true
    case Node(l, k, _, r) =>
      BST(l) && BST(r) &&
      (forall x :: x in Items(l) ==> x < k) &&
      (forall x :: x in Items(r) ==> k < x)
  }

  /** The number of nodes. */
  ghost function NodeCount<V>(t: Tree<V>): nat {
    match t
    case Leaf => 0
    case Node(l, _, _, r) => NodeCount(l) + 1 + NodeCount(r)
  }

  /** In a search tree every node holds a distinct key. */
  lemma {:induction false} CountItems<V>(t: Tree<V>)
    requires BST(t)
    ensures |Items(t)| == NodeCount(t)
    ensures NodeCount(t) == 0 <==> Items(t) == map[]
  {
    match t
    case Leaf =>
    case Node(l, k, v, r) =>
      CountItems(l);
      CountItems(r);
      var kl, kr := Items(l).Keys, Items(r).Keys;
      assert kl !! kr by {
        forall x | x in kl ensures x !in kr { }
      }
      assert Items(t).Keys == kl + kr + {k};
      assert k !in kl + kr;
      assert |kl + kr| == |kl| + |kr|;
      assert k in Items(t);
  }

  /**
   * `isExist` and `findTreeNode`: the search path from the root, compared
   * with `==` first and `<` next, finds exactly the stored keys.
   */
  function Find<V>(t: Tree<V>, key: int): (found: Option<V>)
    ensures BST(t) ==> (found.Some? <==> key in Items(t))
    ensures BST(t) && found.Some? ==> found.value == Items(t)[key]
  {
    match t
    case Leaf => None
    case Node(l, k, v, r) =>
      if key == k then Some(v)
      else if key < k then Find(l, key)
      else Find(r, key)
  }

  /** `put`: a new leaf where the search ends, or the value overwritten where it stops. */
  function Insert<V>(t: Tree<V>, key: int, value: V): (r: Tree<V>)
    ensures BST(t) ==> BST(r) && Items(r) == Items(t)[key := value]
    ensures BST(t) ==> NodeCount(r) == NodeCount(t) + (if key in Items(t) then 0 else 1)
  {
    match t
    case Leaf => Node(Leaf, key, value, Leaf)
    case Node(l, k, v, rt) =>
      if key == k then Node(l, k, value, rt)
      else if key < k then
        var s := Insert(l, key, value);
        InsertBelow(l, k, v, rt, key, value, s, true);
        Node(s, k, v, rt)
      else
        var s := Insert(rt, key, value);
        InsertBelow(l, k, v, rt, key, value, s, false);
        Node(l, k, v, s)
  }

  /** Inserting into one subtree keeps the order and stores the new pair. */
  lemma InsertBelow<V>(l: Tree<V>, k: int, v: V, rt: Tree<V>, key: int, value: V, s: Tree<V>, goLeft: bool)
    requires goLeft ==> key < k
    requires !goLeft ==> k < key
    ensures var t := Node(l, k, v, rt);
      var sub := if goLeft then l else rt;
      var r := if goLeft then Node(s, k, v, rt) else Node(l, k, v, s);
      BST(t) && BST(s) && Items(s) == Items(sub)[key := value] ==>
        BST(r) && Items(r) == Items(t)[key := value]
  {
    var t := Node(l, k, v, rt);
    if goLeft && BST(t) && BST(s) && Items(s) == Items(l)[key := value] {
      forall x | x in Items(s) ensures x < k { }
      var lhs := Items(Node(s, k, v, rt));
      forall x | x in lhs ensures lhs[x] == Items(t)[key := value][x] {
        if x in Items(rt) { assert x !in Items(s); }
      }
    }
    if !goLeft && BST(t) && BST(s) && Items(s) == Items(rt)[key := value] {
      forall x | x in Items(s) ensures k < x { }
      var lhs := Items(Node(l, k, v, s));
      forall x | x in lhs ensures lhs[x] == Items(t)[key := value][x] {
        if x in Items(l) { assert x !in Items(s); }
      }
    }
  }

  /** `rightMostNodeInLeftSubTree`: the largest key of a non-empty tree, with its value. */
  function RightMost<V>(t: Tree<V>): (n: (int, V))
    requires t.Node?
    ensures BST(t) ==> n.0 in Items(t) && Items(t)[n.0] == n.1
    ensures BST(t) ==> forall x :: x in Items(t) ==> x <= n.0
  {
    if t.right.Node? then RightMost(t.right) else (t.key, t.value)
  }

  /** `leftMostNodeInRightSubTree`: the smallest key of a non-empty tree, with its value. */
  function LeftMost<V>(t: Tree<V>): (n: (int, V))
    requires t.Node?
    ensures BST(t) ==> n.0 in Items(t) && Items(t)[n.0] == n.1
    ensures BST(t) ==> forall x :: x in Items(t) ==> n.0 <= x
  {
    if t.left.Node? then LeftMost(t.left) else (t.key, t.value)
  }

  /**
   * `remove`: a leaf is cut off; an inner node with a left child takes the
   * largest pair of its left subtree, which is removed in turn, and one with
   * only a right child takes the smallest pair of its right subtree.
   */
  function RemoveKey<V>(t: Tree<V>, key: int): (r: Tree<V>)
    ensures BST(t) ==> BST(r) && Items(r) == Items(t) - {key}
    ensures BST(t) ==> NodeCount(r) == NodeCount(t) - (if key in Items(t) then 1 else 0)
  {
    match t
    case Leaf => Leaf
    case Node(l, k, v, rt) =>
      if key == k then
        if l.Leaf? && rt.Leaf? then Leaf
        else if l.Node? then
          var p := RightMost(l);
          var s := RemoveKey(l, p.0);
          RemoveRightMost(l, k, v, rt, p, s);
          Node(s, p.0, p.1, rt)
        else
          var p := LeftMost(rt);
          var s := RemoveKey(rt, p.0);
          RemoveLeftMost(l, k, v, rt, p, s);
          Node(l, p.0, p.1, s)
      else if key < k then
        var s := RemoveKey(l, key);
        RemoveBelow(l, k, v, rt, key, s, true);
        Node(s, k, v, rt)
      else
        var s := RemoveKey(rt, key);
        RemoveBelow(l, k, v, rt, key, s, false);
        Node(l, k, v, s)
  }

  /** Removing a key from one subtree keeps the order and drops only that key. */
  lemma RemoveBelow<V>(l: Tree<V>, k: int, v: V, rt: Tree<V>, key: int, s: Tree<V>, goLeft: bool)
    requires goLeft ==> key < k
    requires !goLeft ==> k < key
    ensures var t := Node(l, k, v, rt);
      var sub := if goLeft then l else rt;
      var r := if goLeft then Node(s, k, v, rt) else Node(l, k, v, s);
      BST(t) && BST(s) && Items(s) == Items(sub) - {key} ==>
        BST(r) && Items(r) == Items(t) - {key}
  {
    var t := Node(l, k, v, rt);
    if goLeft && BST(t) && BST(s) && Items(s) == Items(l) - {key} {
      forall x | x in Items(s) ensures x < k { }
      var lhs := Items(Node(s, k, v, rt));
      forall x | x in lhs ensures x in Items(t) - {key} && lhs[x] == (Items(t) - {key})[x] {
        if x in Items(rt) { assert x !in Items(s); }
      }
    }
    if !goLeft && BST(t) && BST(s) && Items(s) == Items(rt) - {key} {
      forall x | x in Items(s) ensures k < x { }
      var lhs := Items(Node(l, k, v, s));
      forall x | x in lhs ensures x in Items(t) - {key} && lhs[x] == (Items(t) - {key})[x] {
        if x in Items(l) { assert x !in Items(s); }
      }
    }
  }

  /** The promotion of the predecessor keeps the order and drops only the removed key. */
  lemma RemoveRightMost<V>(l: Tree<V>, k: int, v: V, rt: Tree<V>, p: (int, V), s: Tree<V>)
    requires l.Node? && p == RightMost(l)
    ensures var t := Node(l, k, v, rt);
      BST(t) && BST(s) && Items(s) == Items(l) - {p.0} ==>
        BST(Node(s, p.0, p.1, rt)) && Items(Node(s, p.0, p.1, rt)) == Items(t) - {k}
  {
    var t := Node(l, k, v, rt);
    if BST(t) && BST(s) && Items(s) == Items(l) - {p.0} {
      assert p.0 < k;
      forall x | x in Items(rt) ensures p.0 < x { }
      var lhs := Items(Node(s, p.0, p.1, rt));
      forall x ensures x in lhs <==> x in Items(t) - {k} {
        if x == p.0 { assert x in Items(l); }
      }
      forall x | x in lhs ensures lhs[x] == (Items(t) - {k})[x] {
        if x != p.0 && x in Items(rt) { assert x !in Items(l); }
      }
    }
  }

  /** The promotion of the successor keeps the order and drops only the removed key. */
  lemma RemoveLeftMost<V>(l: Tree<V>, k: int, v: V, rt: Tree<V>, p: (int, V), s: Tree<V>)
    requires l.Leaf? && rt.Node? && p == LeftMost(rt)
    ensures var t := Node(l, k, v, rt);
      BST(t) && BST(s) && Items(s) == Items(rt) - {p.0} ==>
        BST(Node(l, p.0, p.1, s)) && Items(Node(l, p.0, p.1, s)) == Items(t) - {k}
  {
    var t := Node(l, k, v, rt);
    if BST(t) && BST(s) && Items(s) == Items(rt) - {p.0} {
      var lhs := Items(Node(l, p.0, p.1, s));
      forall x ensures x in lhs <==> x in Items(t) - {k} {
        if x == p.0 { assert x in Items(rt); }
      }
    }
  }

  /** `inOrder`: left subtree, node, right subtree. */
  function InOrder<V>(t: Tree<V>): (s: seq<(int, V)>)
    ensures |s| == NodeCount(t)
  {
    match t
    case Leaf => []
    case Node(l, k, v, r) => InOrder(l) + [(k, v)] + InOrder(r)
  }

  /** The visiting order of `deepCopyRec`: node, left subtree, right subtree. */
  function PreOrder<V>(t: Tree<V>): (s: seq<(int, V)>)
    ensures |s| == NodeCount(t)
  {
    match t
    case Leaf => []
    case Node(l, k, v, r) => [(k, v)] + PreOrder(l) + PreOrder(r)
  }

  /** The keys of a sequence of pairs strictly increase. */
  ghost predicate Ascending<V>(s: seq<(int, V)>) {
    forall i, j :: 0 <= i < j < |s| ==> s[i].0 < s[j].0
  }

  /** `s` lists exactly the pairs of `m`. */
  ghost predicate Lists<V>(s: seq<(int, V)>, m: map<int, V>) {
    (forall i :: 0 <= i < |s| ==> s[i].0 in m && m[s[i].0] == s[i].1) &&
    (forall k :: k in m ==> exists i :: 0 <= i < |s| && s[i].0 == k)
  }

  /** The in-order traversal of a search tree lists its pairs by ascending key. */
  lemma InOrderSorted<V>(t: Tree<V>)
    requires BST(t)
    ensures Ascending(InOrder(t)) && Lists(InOrder(t), Items(t))
  {
    InOrderLists(t);
    InOrderAscending(t);
  }

  lemma {:induction false} InOrderLists<V>(t: Tree<V>)
    requires BST(t)
    ensures Lists(InOrder(t), Items(t))
  {
    match t
    case Leaf =>
    case Node(l, k, v, r) =>
      InOrderLists(l);
      InOrderLists(r);
      var sl, sr := InOrder(l), InOrder(r);
      var s := InOrder(t);
      assert s == sl + [(k, v)] + sr;
      forall i | 0 <= i < |s| ensures s[i].0 in Items(t) && Items(t)[s[i].0] == s[i].1 {
        if i < |sl| {
          assert s[i] == sl[i] && sl[i].0 in Items(l);
          assert s[i].0 < k && s[i].0 !in Items(r);
        } else if i > |sl| {
          assert s[i] == sr[i - |sl| - 1];
        }
      }
      forall x | x in Items(t) ensures exists i :: 0 <= i < |s| && s[i].0 == x {
        if x == k {
          assert s[|sl|].0 == x;
        } else if x in Items(l) {
          var i :| 0 <= i < |sl| && sl[i].0 == x;
          assert s[i] == sl[i];
        } else {
          var i :| 0 <= i < |sr| && sr[i].0 == x;
          assert s[|sl| + 1 + i] == sr[i];
        }
      }
  }

  lemma {:induction false} InOrderAscending<V>(t: Tree<V>)
    requires BST(t)
    ensures Ascending(InOrder(t))
  {
    match t
    case Leaf =>
    case Node(l, k, v, r) =>
      InOrderAscending(l);
      InOrderAscending(r);
      InOrderLists(l);
      InOrderLists(r);
      var sl, sr := InOrder(l), InOrder(r);
      var s := InOrder(t);
      assert s == sl + [(k, v)] + sr;
      forall i, j | 0 <= i < j < |s| ensures s[i].0 < s[j].0 {
        if j < |sl| {
          assert s[i] == sl[i] && s[j] == sl[j];
        } else if i > |sl| {
          assert s[i] == sr[i - |sl| - 1] && s[j] == sr[j - |sl| - 1];
        } else {
          if i < |sl| { assert s[i] == sl[i]; }
          if j > |sl| { assert s[j] == sr[j - |sl| - 1]; }
        }
      }
  }

  /** Two ascending listings of the same pairs are the same sequence. */
  lemma {:induction false} AscendingListingUnique<V>(s1: seq<(int, V)>, s2: seq<(int, V)>, m: map<int, V>)
    requires Ascending(s1) && Ascending(s2) && Lists(s1, m) && Lists(s2, m)
    ensures s1 == s2
    decreases |s1|
  {
    ListsEmpty(s1, m);
    ListsEmpty(s2, m);
    if s1 != [] {
      HeadsAgree(s1, s2, m);
      ListsTail(s1, m);
      ListsTail(s2, m);
      var t1, t2 := s1[1..], s2[1..];
      AscendingListingUnique(t1, t2, m - {s1[0].0});
      SameHeadSameTail(s1, s2);
    }
  }

  /** A listing is empty exactly when the map is. */
  lemma ListsEmpty<V>(s: seq<(int, V)>, m: map<int, V>)
    requires Lists(s, m)
    ensures s == [] <==> m == map[]
  {
    var listed := set i | 0 <= i < |s| :: s[i].0;
    assert m.Keys <= listed by {
      forall k | k in m ensures k in listed {
        var i :| 0 <= i < |s| && s[i].0 == k;
      }
    }
    if s == [] {
      assert listed == {};
      assert m.Keys == {};
    } else {
      assert s[0].0 in m;
    }
  }

  lemma SameHeadSameTail<T>(s1: seq<T>, s2: seq<T>)
    requires s1 != [] && s2 != [] && s1[0] == s2[0] && s1[1..] == s2[1..]
    ensures s1 == s2
  {
    assert s1 == [s1[0]] + s1[1..];
    assert s2 == [s2[0]] + s2[1..];
  }

  /** Two ascending listings of the same non-empty map start with its least pair. */
  lemma HeadsAgree<V>(s1: seq<(int, V)>, s2: seq<(int, V)>, m: map<int, V>)
    requires s1 != [] && Ascending(s1) && Ascending(s2) && Lists(s1, m) && Lists(s2, m)
    ensures s2 != [] && s1[0] == s2[0]
  {
    assert s1[0].0 in m;
    var i2 :| 0 <= i2 < |s2| && s2[i2].0 == s1[0].0;
    var k1, k2 := s1[0].0, s2[0].0;
    var i1 :| 0 <= i1 < |s1| && s1[i1].0 == k2;
    assert k1 <= k2 && k2 <= k1;
  }

  /** Dropping the head of an ascending listing drops its key from the map. */
  lemma ListsTail<V>(s: seq<(int, V)>, m: map<int, V>)
    requires s != [] && Ascending(s) && Lists(s, m)
    ensures Ascending(s[1..]) && Lists(s[1..], m - {s[0].0})
  {
    var t := s[1..];
    forall k | k in m - {s[0].0} ensures exists i :: 0 <= i < |t| && t[i].0 == k {
      var i :| 0 <= i < |s| && s[i].0 == k;
      assert t[i - 1] == s[i];
    }
  }

  /**
   * Two search trees have the same in-order traversal exactly when they store
   * the same pairs, whatever their shapes.
   */
  lemma InOrderDetermines<V>(a: Tree<V>, b: Tree<V>)
    requires BST(a) && BST(b)
    ensures InOrder(a) == InOrder(b) <==> Items(a) == Items(b)
  {
    InOrderSorted(a);
    InOrderSorted(b);
    var s1, s2 := InOrder(a), InOrder(b);
    if s1 == s2 {
      forall x ensures x in Items(a) <==> x in Items(b) {
        if x in Items(a) {
          var i :| 0 <= i < |s1| && s1[i].0 == x;
        }
        if x in Items(b) {
          var i :| 0 <= i < |s2| && s2[i].0 == x;
        }
      }
      forall x | x in Items(a) ensures Items(a)[x] == Items(b)[x] {
        var i :| 0 <= i < |s1| && s1[i].0 == x;
      }
    }
    if Items(a) == Items(b) {
      AscendingListingUnique(s1, s2, Items(a));
    }
  }

  /** The effect of `put` applied to each pair of `xs` in turn. */
  function InsertAll<V>(t: Tree<V>, xs: seq<(int, V)>): (r: Tree<V>)
    ensures BST(t) ==> BST(r)
    decreases |xs|
  {
    if xs == [] then t else InsertAll(Insert(t, xs[0].0, xs[0].1), xs[1..])
  }

  lemma {:induction false} InsertAllAppend<V>(t: Tree<V>, xs: seq<(int, V)>, ys: seq<(int, V)>)
    ensures InsertAll(t, xs + ys) == InsertAll(InsertAll(t, xs), ys)
    decreases |xs|
  {
    if xs != [] {
      assert (xs + ys)[1..] == xs[1..] + ys;
      InsertAllAppend(Insert(t, xs[0].0, xs[0].1), xs[1..], ys);
    } else {
      assert xs + ys == ys;
    }
  }

  /** Putting a tree in pre-order puts its root, then its left subtree, then its right one. */
  lemma PreOrderStep<V>(r0: Tree<V>, t: Tree<V>)
    requires t.Node?
    ensures InsertAll(r0, PreOrder(t)) ==
      InsertAll(InsertAll(Insert(r0, t.key, t.value), PreOrder(t.left)), PreOrder(t.right))
  {
    var pl, pr := PreOrder(t.left), PreOrder(t.right);
    assert PreOrder(t) == [(t.key, t.value)] + (pl + pr);
    assert ([(t.key, t.value)] + (pl + pr))[1..] == pl + pr;
    InsertAllAppend(Insert(r0, t.key, t.value), pl, pr);
  }

  /** Pairs whose keys are all below the root's are inserted into its left subtree. */
  lemma {:induction false} InsertAllLeft<V>(l: Tree<V>, k: int, v: V, r: Tree<V>, xs: seq<(int, V)>)
    requires forall i :: 0 <= i < |xs| ==> xs[i].0 < k
    ensures InsertAll(Node(l, k, v, r), xs) == Node(InsertAll(l, xs), k, v, r)
    decreases |xs|
  {
    if xs != [] {
      InsertAllLeft(Insert(l, xs[0].0, xs[0].1), k, v, r, xs[1..]);
    }
  }

  /** Pairs whose keys are all above the root's are inserted into its right subtree. */
  lemma {:induction false} InsertAllRight<V>(l: Tree<V>, k: int, v: V, r: Tree<V>, xs: seq<(int, V)>)
    requires forall i :: 0 <= i < |xs| ==> k < xs[i].0
    ensures InsertAll(Node(l, k, v, r), xs) == Node(l, k, v, InsertAll(r, xs))
    decreases |xs|
  {
    if xs != [] {
      InsertAllRight(l, k, v, Insert(r, xs[0].0, xs[0].1), xs[1..]);
    }
  }

  lemma {:induction false} PreOrderKeys<V>(t: Tree<V>)
    ensures forall i :: 0 <= i < |PreOrder(t)| ==> PreOrder(t)[i].0 in Items(t)
  {
    match t
    case Leaf =>
    case Node(l, k, v, r) =>
      PreOrderKeys(l);
      PreOrderKeys(r);
      var s := PreOrder(t);
      forall i | 0 <= i < |s| ensures s[i].0 in Items(t) {
        if 0 < i <= |PreOrder(l)| {
          assert s[i] == PreOrder(l)[i - 1];
        } else if i > |PreOrder(l)| {
          assert s[i] == PreOrder(r)[i - 1 - |PreOrder(l)|];
        }
      }
  }

  /**
   * `deepCopyRec` re-puts the pairs of a search tree in pre-order into an
   * empty tree, which rebuilds exactly the same tree.
   */
  lemma {:induction false} CopyReproduces<V>(t: Tree<V>)
    requires BST(t)
    ensures InsertAll(Leaf, PreOrder(t)) == t
  {
    match t
    case Leaf =>
    case Node(l, k, v, r) =>
      var pl, pr := PreOrder(l), PreOrder(r);
      assert PreOrder(t) == [(k, v)] + (pl + pr);
      assert ([(k, v)] + (pl + pr))[1..] == pl + pr;
      assert InsertAll(Leaf, PreOrder(t)) == InsertAll(Node(Leaf, k, v, Leaf), pl + pr);
      InsertAllAppend(Node(Leaf, k, v, Leaf), pl, pr);
      PreOrderKeys(l);
      PreOrderKeys(r);
      InsertAllLeft(Leaf, k, v, Leaf, pl);
      CopyReproduces(l);
      InsertAllRight(l, k, v, Leaf, pr);
      CopyReproduces(r);
  }

  class MyMap<V(==)> {
    /** The value `get` and `operator[]` produce for a missing key. */
    const defaultValue: V
    var root: Tree<V>
    var entries: int

    ghost predicate Valid()
      reads this
    {
      BST(root) && entries == NodeCount(root)
    }

    ghost function Contents(): map<int, V>
      reads this
    {
      Items(root)
    }

    constructor (defaultValue: V)
      ensures Valid() && root == Leaf && entries == 0 && Contents() == map[]
      ensures this.defaultValue == defaultValue
    {
      this.defaultValue := defaultValue;
      root := Leaf;
      entries := 0;
    }

    /** The copy constructor: an empty map into which `deepCopy` re-puts `src`. */
    constructor Copy(src: MyMap<V>)
      requires src.Valid()
      ensures Valid() && root == src.root && entries == src.entries
      ensures defaultValue == src.defaultValue
    {
      defaultValue := src.defaultValue;
      root := Leaf;
      entries := 0;
      new;
      DeepCopyRec(src.root);
      CopyReproduces(src.root);
    }

    /** `clear`: `deleteTree` frees every node, one `entries--` each, then the root is reset. */
    method Clear()
      requires Valid()
      modifies this
      ensures Valid() && root == Leaf && entries == 0 && Contents() == map[]
    {
      DeleteTree(root);
      root := Leaf;
    }

    /** `deleteTree`: a post-order walk that counts every node of `t` off `entries`. */
    method DeleteTree(t: Tree<V>)
      modifies this
      ensures root == old(root) && entries == old(entries) - NodeCount(t)
    {
      if t.Node? {
        DeleteTree(t.left);
        DeleteTree(t.right);
        entries := entries - 1;
      }
    }

    method ContainsKey(key: int) returns (b: bool)
      requires Valid()
      ensures b <==> key in Contents()
    {
      b := Find(root, key).Some?;
    }

    /** `get`, and the `const operator[]`: the stored value or the default one. */
    method Get(key: int) returns (v: V)
      requires Valid()
      ensures key in Contents() ==> v == Contents()[key]
      ensures key !in Contents() ==> v == defaultValue
    {
      var found := Find(root, key);
      v := if found.None? then defaultValue else found.value;
    }

    method IsEmpty() returns (e: bool)
      requires Valid()
      ensures e <==> Contents() == map[]
    {
      CountItems(root);
      e := entries == 0;
    }

    method Size() returns (n: int)
      requires Valid()
      ensures n == |Contents()|
    {
      CountItems(root);
      n := entries;
    }

    method Put(key: int, value: V)
      requires Valid()
      modifies this
      ensures Valid() && root == Insert(old(root), key, value)
      ensures Contents() == old(Contents())[key := value]
      ensures entries == old(entries) + (if key in old(Contents()) then 0 else 1)
    {
      if Find(root, key).None? {
        entries := entries + 1;
      }
      root := Insert(root, key, value);
    }

    method Remove(key: int)
      requires Valid()
      modifies this
      ensures Valid() && root == RemoveKey(old(root), key)
      ensures Contents() == old(Contents()) - {key}
      ensures entries == old(entries) - (if key in old(Contents()) then 1 else 0)
    {
      if Find(root, key).Some? {
        entries := entries - 1;
      }
      root := RemoveKey(root, key);
    }

    /** The mutable `operator[]`: a missing key is first put with the default value. */
    method Index(key: int) returns (v: V)
      requires Valid()
      modifies this
      ensures Valid()
      ensures key in old(Contents()) ==> Contents() == old(Contents()) && v == Contents()[key]
      ensures key !in old(Contents()) ==> Contents() == old(Contents())[key := defaultValue] && v == defaultValue
      ensures entries == old(entries) + (if key in old(Contents()) then 0 else 1)
    {
      var found := Find(root, key);
      if found.None? {
        root := Insert(root, key, defaultValue);
        entries := entries + 1;
        v := defaultValue;
      } else {
        v := found.value;
      }
    }

    /** `map[key] = value`: the slot `operator[]` yields is overwritten. */
    method IndexAssign(key: int, value: V)
      requires Valid()
      modifies this
      ensures Valid()
      ensures Contents() == old(Contents())[key := value]
      ensures entries == old(entries) + (if key in old(Contents()) then 0 else 1)
    {
      var _ := Index(key);
      root := Insert(root, key, value);
    }

    /** `keys`: the keys of the in-order traversal, so in ascending order. */
    method Keys() returns (ks: seq<int>)
      requires Valid()
      ensures |ks| == entries
      ensures forall i :: 0 <= i < |ks| ==> ks[i] == InOrder(root)[i].0
      ensures forall i, j :: 0 <= i < j < |ks| ==> ks[i] < ks[j]
      ensures forall k :: k in ks <==> k in Contents()
    {
      var inOrder1 := InOrder(root);
      InOrderSorted(root);
      ks := [];
      var i := 0;
      while i < |inOrder1|
        invariant 0 <= i <= |inOrder1|
        invariant |ks| == i
        invariant forall j :: 0 <= j < i ==> ks[j] == inOrder1[j].0
      {
        ks := ks + [inOrder1[i].0];
        i := i + 1;
      }
      forall k | k in Contents() ensures k in ks {
        var j :| 0 <= j < |inOrder1| && inOrder1[j].0 == k;
        assert ks[j] == k;
      }
    }

    /** `values`: the values of the in-order traversal, in the order of their keys. */
    method Values() returns (vs: seq<V>)
      requires Valid()
      ensures |vs| == entries
      ensures forall i :: 0 <= i < |vs| ==> vs[i] == InOrder(root)[i].1
      ensures forall i :: 0 <= i < |vs| ==>
        InOrder(root)[i].0 in Contents() && Contents()[InOrder(root)[i].0] == vs[i]
    {
      var inOrder1 := InOrder(root);
      InOrderSorted(root);
      vs := [];
      var i := 0;
      while i < |inOrder1|
        invariant 0 <= i <= |inOrder1|
        invariant |vs| == i
        invariant forall j :: 0 <= j < i ==> vs[j] == inOrder1[j].1
      {
        vs := vs + [inOrder1[i].1];
        i := i + 1;
      }
    }

    /** `equals`: the two in-order traversals agree pair by pair. */
    method Equals(other: MyMap<V>) returns (eq: bool)
      requires Valid() && other.Valid()
      ensures eq <==> InOrder(root) == InOrder(other.root)
      ensures eq <==> Contents() == other.Contents()
    {
      InOrderDetermines(root, other.root);
      var inOrder1 := InOrder(root);
      var inOrder2 := InOrder(other.root);
      if |inOrder1| != |inOrder2| {
        return false;
      }
      var i := 0;
      while i < |inOrder1|
        invariant 0 <= i <= |inOrder1|
        invariant inOrder1[..i] == inOrder2[..i]
      {
        if inOrder1[i].0 != inOrder2[i].0 || inOrder1[i].1 != inOrder2[i].1 {
          return false;
        }
        assert inOrder1[..i + 1] == inOrder1[..i] + [inOrder1[i]];
        assert inOrder2[..i + 1] == inOrder2[..i] + [inOrder2[i]];
        i := i + 1;
      }
      assert inOrder1 == inOrder1[..i] && inOrder2 == inOrder2[..i];
      return true;
    }

    /** `deepCopyRec`: put the node, then copy its left and right subtrees. */
    method DeepCopyRec(t: Tree<V>)
      requires Valid()
      modifies this
      ensures Valid() && root == InsertAll(old(root), PreOrder(t))
    {
      if t.Node? {
        PreOrderStep(root, t);
        Put(t.key, t.value);
        DeepCopyRec(t.left);
        DeepCopyRec(t.right);
      }
    }

    /** `operator=`: unless it is a self-assignment, clear and re-put `src` in pre-order. */
    method Assign(src: MyMap<V>)
      requires Valid() && src.Valid()
      modifies this
      ensures Valid() && root == old(src.root) && entries == old(src.entries)
    {
      if src != this {
        Clear();
        DeepCopyRec(src.root);
        CopyReproduces(src.root);
      }
    }
  }
}
