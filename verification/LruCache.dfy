/** `LRUCache` as an object: a list of nodes that are moved in place, and an index from
    keys to nodes. A node is known by a handle, as it is by a list iterator in the source:
    moving it within the list does not change the handle. */
module LruCaches {
  import opened Lru

  /** The entries of a list of handles. */
  ghost function Deref<K, V>(items: seq<nat>, cells: map<nat, (K, V)>): (l: Entries<K, V>)
    requires forall h :: h in items ==> h in cells
    ensures |l| == |items| && forall i :: 0 <= i < |items| ==> l[i] == cells[items[i]]
  {
    seq(|items|, i requires 0 <= i < |items| => assert items[i] in items; cells[items[i]])
  }

  /** The list and the index describe the same nodes. */
  ghost predicate Consistent<K, V>(items: seq<nat>, cells: map<nat, (K, V)>, index: map<K, nat>) {
    && (forall i, j :: 0 <= i < j < |items| ==> items[i] != items[j])
    && (forall h :: h in items <==> h in cells)
    && (forall h :: h in cells ==> cells[h].0 in index && index[cells[h].0] == h)
    && (forall k :: k in index ==> index[k] in cells && cells[index[k]].0 == k)
  }

  /** Where a handle stands in the list. */
  function Position(items: seq<nat>, h: nat): (p: nat)
    requires h in items
    ensures p < |items| && items[p] == h
  {
    if items[0] == h then 0 else 1 + Position(items[1..], h)
  }

  function Unlink(items: seq<nat>, p: nat): seq<nat>
    requires p < |items|
  {
    items[..p] + items[p + 1..]
  }

  lemma ConsistentDistinct<K, V>(items: seq<nat>, cells: map<nat, (K, V)>, index: map<K, nat>)
    requires Consistent(items, cells, index)
    ensures DistinctKeys(Deref(items, cells))
    ensures forall k :: k in index <==> HasKey(Deref(items, cells), k)
  {
    var l := Deref(items, cells);
    forall i, j | 0 <= i < j < |l| ensures l[i].0 != l[j].0 {
      assert items[i] in items && items[j] in items;
    }
    forall k ensures k in index <==> HasKey(l, k) {
      if k in index {
        assert index[k] in items;
        var p := Position(items, index[k]);
        assert l[p].0 == k;
      }
      if HasKey(l, k) {
        var i :| 0 <= i < |l| && l[i].0 == k;
        assert items[i] in items;
      }
    }
  }

  /** Unlinking the node at `p` is removing its key from the list of entries. */
  lemma {:induction false} WithoutAt<K, V>(l: Entries<K, V>, p: nat)
    requires p < |l| && DistinctKeys(l)
    ensures Without(l, l[p].0) == l[..p] + l[p + 1..]
    ensures Lookup(l, l[p].0) == Hit(l[p].1)
  {
    if p == 0 {
      assert l[..0] + l[1..] == l[1..];
    } else {
      WithoutAt(l[1..], p - 1);
      assert l[1..][p - 1] == l[p];
      assert [l[0]] + (l[1..][..p - 1] + l[1..][p..]) == l[..p] + l[p + 1..];
    }
  }

  lemma UnlinkMembers(items: seq<nat>, p: nat)
    requires p < |items| && forall i, j :: 0 <= i < j < |items| ==> items[i] != items[j]
    ensures forall h :: h in Unlink(items, p) <==> h in items && h != items[p]
    ensures forall i, j :: 0 <= i < j < |Unlink(items, p)| ==> Unlink(items, p)[i] != Unlink(items, p)[j]
  {
    assert items == items[..p] + [items[p]] + items[p + 1..];
  }

  lemma HandleInList<K, V>(items: seq<nat>, cells: map<nat, (K, V)>, index: map<K, nat>, h: nat)
    requires Consistent(items, cells, index)
    ensures h in cells ==> h in items
    ensures forall k :: k in index ==> index[k] in items
  {
  }

  lemma KeyOf<K, V>(items: seq<nat>, cells: map<nat, (K, V)>, index: map<K, nat>, k: K)
    requires Consistent(items, cells, index)
    ensures k in index ==> index[k] in cells && cells[index[k]].0 == k
  {
  }

  lemma DerefUnlink<K, V>(items: seq<nat>, cells: map<nat, (K, V)>, p: nat, left: map<nat, (K, V)>)
    requires p < |items| && forall h :: h in items ==> h in cells
    requires forall h :: h in Unlink(items, p) ==> h in left && left[h] == cells[h]
    ensures forall h :: h in Unlink(items, p) ==> h in left
    ensures var l := Deref(items, cells); Deref(Unlink(items, p), left) == l[..p] + l[p + 1..]
  {
    var l, u := Deref(items, cells), Unlink(items, p);
    forall i | 0 <= i < |u| ensures Deref(u, left)[i] == (l[..p] + l[p + 1..])[i] {
      assert u[i] in u && u[i] == items[if i < p then i else i + 1];
    }
  }

  lemma HeadConsistent<K, V>(items: seq<nat>, cells: map<nat, (K, V)>, index: map<K, nat>, p: nat)
    requires p < |items| && Consistent(items, cells, index)
    ensures Consistent([items[p]] + Unlink(items, p), cells, index)
  {
    UnlinkMembers(items, p);
    var h, u := items[p], Unlink(items, p);
    hide Unlink;
    var m := [h] + u;
    forall i, j | 0 <= i < j < |m| ensures m[i] != m[j] {
      if i == 0 { assert u[j - 1] in u; }
    }
    assert forall x :: x in m <==> x == h || x in u;
  }

  lemma HeadDeref<K, V>(items: seq<nat>, cells: map<nat, (K, V)>, p: nat)
    requires p < |items| && forall h :: h in items ==> h in cells
    ensures items[p] in cells && forall h :: h in [items[p]] + Unlink(items, p) ==> h in cells
    ensures var l := Deref(items, cells);
      Deref([items[p]] + Unlink(items, p), cells) == [l[p]] + (l[..p] + l[p + 1..])
  {
    var h, u := items[p], Unlink(items, p);
    assert h in items;
    assert forall x :: x in u ==> x in items;
    DerefUnlink(items, cells, p, cells);
    assert Deref([h] + u, cells) == [cells[h]] + Deref(u, cells);
  }

  /** Moving a node to the head keeps the structure and moves its entry. */
  lemma MoveToHead<K, V>(items: seq<nat>, cells: map<nat, (K, V)>, index: map<K, nat>, p: nat)
    requires p < |items| && Consistent(items, cells, index)
    ensures var h := items[p]; h in cells && Consistent([h] + Unlink(items, p), cells, index)
    ensures var h := items[p]; var l := Deref(items, cells);
      && Deref([h] + Unlink(items, p), cells) == [cells[h]] + Without(l, cells[h].0)
      && Lookup(l, cells[h].0) == Hit(cells[h].1)
  {
    ConsistentDistinct(items, cells, index);
    HeadConsistent(items, cells, index, p);
    HeadDeref(items, cells, p);
    WithoutAt(Deref(items, cells), p);
  }

  lemma DropConsistent<K, V>(items: seq<nat>, cells: map<nat, (K, V)>, index: map<K, nat>, p: nat)
    requires p < |items| && Consistent(items, cells, index)
    ensures var h := items[p]; h in cells && Consistent(Unlink(items, p), cells - {h}, index - {cells[h].0})
  {
    var h := items[p];
    assert h in items;
    UnlinkMembers(items, p);
    hide Unlink;
    assert forall k :: k in index && k != cells[h].0 ==> index[k] != h;
  }

  /** Dropping a node from the list, the heap and the index drops its entry. */
  lemma DropNode<K, V>(items: seq<nat>, cells: map<nat, (K, V)>, index: map<K, nat>, p: nat)
    requires p < |items| && Consistent(items, cells, index)
    ensures var h := items[p]; h in cells && Consistent(Unlink(items, p), cells - {h}, index - {cells[h].0})
    ensures |Unlink(items, p)| == |items| - 1
    ensures var h := items[p]; var l := Deref(items, cells);
      && Deref(Unlink(items, p), cells - {h}) == l[..p] + l[p + 1..] == Without(l, cells[h].0)
  {
    var h := items[p];
    ConsistentDistinct(items, cells, index);
    DropConsistent(items, cells, index, p);
    UnlinkMembers(items, p);
    WithoutAt(Deref(items, cells), p);
    hide Without, Lookup, Unlink;
    DerefUnlink(items, cells, p, cells - {h});
  }

  /** Overwriting a value in place. */
  lemma Overwrite<K, V>(items: seq<nat>, cells: map<nat, (K, V)>, index: map<K, nat>, p: nat, value: V)
    requires p < |items| && Consistent(items, cells, index)
    ensures var h := items[p]; h in cells && Consistent(items, cells[h := (cells[h].0, value)], index)
    ensures var h := items[p];
      Deref(items, cells[h := (cells[h].0, value)]) == Deref(items, cells)[p := (cells[h].0, value)]
  {
    assert items[p] in items;
  }

  lemma LinkFront<K, V>(items: seq<nat>, cells: map<nat, (K, V)>, index: map<K, nat>, h: nat, key: K, value: V)
    requires Consistent(items, cells, index) && h !in cells && key !in index
    ensures Consistent([h] + items, cells[h := (key, value)], index[key := h])
    ensures Deref([h] + items, cells[h := (key, value)]) == [(key, value)] + Deref(items, cells)
  {
  }

  class LRUCache<K(==), V> {
    const capacity: nat
    var items: seq<nat>
    var cells: map<nat, (K, V)>
    var index: map<K, nat>
    var next: nat

    ghost predicate Valid()
      reads this
    {
      Consistent(items, cells, index) && (forall h :: h in cells ==> h < next) && |items| <= capacity
    }

    ghost function Contents(): Entries<K, V>
      requires Valid()
      reads this
    {
      Deref(items, cells)
    }

    constructor (capacity: nat)
      ensures Valid() && Contents() == [] && this.capacity == capacity
    {
      this.capacity := capacity;
      items, cells, index, next := [], map[], map[], 0;
    }

    /** `splice` to the head of the list. */
    method MoveToFront(h: nat)
      requires Valid() && h in cells
      modifies this`items
      ensures Valid() && Contents() == [cells[h]] + Without(old(Contents()), cells[h].0)
      ensures Lookup(old(Contents()), cells[h].0) == Hit(cells[h].1)
    {
      hide Consistent, Without, Position;
      assert h in items by { HandleInList(items, cells, index, h); }
      var p := Position(items, h);
      MoveToHead(items, cells, index, p);
      items := [h] + Unlink(items, p);
    }

    method Put(key: K, value: V)
      requires Valid()
      modifies this
      ensures Valid() && Contents() == Lru.Put(capacity, old(Contents()), key, value)
    {
      if capacity == 0 { return; }
      ConsistentDistinct(items, cells, index);
      if key in index {
        PutExisting(key, value);
        return;
      }
      if |items| >= capacity {
        PopBack();
        ConsistentDistinct(items, cells, index);
        KeyStaysOut(old(Contents()), key);
      }
      PushFront(key, value);
    }

    method PutExisting(key: K, value: V)
      requires Valid() && key in index
      modifies this`items, this`cells
      ensures Valid() && Contents() == [(key, value)] + Without(old(Contents()), key)
    {
      var h := index[key];
      ghost var l := Contents();
      ConsistentDistinct(items, cells, index);
      ghost var p := Position(items, h);
      hide Consistent, Without, Position;
      Overwrite(items, cells, index, p, value);
      cells := cells[h := (key, value)];
      MoveToFront(h);
      WithoutOverwritten(l, p, (key, value));
    }

    /** Eviction: the tail node leaves both the index and the list. */
    method PopBack()
      requires Valid() && items != []
      modifies this`items, this`cells, this`index
      ensures Valid() && Contents() == old(Contents())[..|old(items)| - 1] && |items| == |old(items)| - 1
      ensures index.Keys <= old(index).Keys
    {
      hide Consistent, Without, Position;
      var n := |items| - 1;
      var last := items[n];
      DropNode(items, cells, index, n);
      assert Unlink(items, n) == items[..n];
      index := index - {cells[last].0};
      items := items[..n];
      cells := cells - {last};
    }

    method PushFront(key: K, value: V)
      requires Valid() && key !in index && |items| < capacity
      modifies this
      ensures Valid() && Contents() == [(key, value)] + old(Contents())
    {
      hide Consistent;
      LinkFront(items, cells, index, next, key, value);
      cells := cells[next := (key, value)];
      items := [next] + items;
      index := index[key := next];
      next := next + 1;
    }

    method Get(key: K) returns (r: Maybe<V>)
      requires Valid()
      modifies this`items
      ensures Valid() && r == Lookup(old(Contents()), key) && Contents() == Lru.Get(old(Contents()), key)
    {
      ConsistentDistinct(items, cells, index);
      LookupIs(Contents(), key);
      if key !in index { return Miss; }
      var h := index[key];
      MoveToFront(h);
      r := Hit(cells[h].1);
    }

    method Contains(key: K) returns (b: bool)
      requires Valid()
      ensures b == HasKey(Contents(), key)
    {
      ConsistentDistinct(items, cells, index);
      return key in index;
    }

    method Erase(key: K)
      requires Valid()
      modifies this`items, this`cells, this`index
      ensures Valid() && Contents() == Without(old(Contents()), key)
    {
      ConsistentDistinct(items, cells, index);
      KeyOf(items, cells, index, key);
      hide Consistent, Without, Position;
      if key !in index {
        WithoutIs(Contents(), key);
        return;
      }
      EraseNode(index[key]);
    }

    /** Takes a node out of the list and its key out of the index. */
    method EraseNode(h: nat)
      requires Valid() && h in cells
      modifies this`items, this`cells, this`index
      ensures Valid() && Contents() == Without(old(Contents()), old(cells)[h].0)
    {
      hide Consistent, Without, Position;
      HandleInList(items, cells, index, h);
      var p := Position(items, h);
      DropNode(items, cells, index, p);
      items, index, cells := Unlink(items, p), index - {cells[h].0}, cells - {h};
    }

    method Clear()
      modifies this`items, this`cells, this`index
      ensures Valid() && Contents() == []
    {
      items, cells, index := [], map[], map[];
    }

    method Size() returns (n: nat)
      requires Valid()
      ensures n == |Contents()| <= capacity
    {
      return |items|;
    }
  }

  lemma KeyStaysOut<K, V>(l: Entries<K, V>, k: K)
    requires l != [] && !HasKey(l, k)
    ensures !HasKey(l[..|l| - 1], k)
  {
  }

  lemma WithoutOverwritten<K, V>(l: Entries<K, V>, p: nat, e: (K, V))
    requires p < |l| && DistinctKeys(l) && l[p].0 == e.0
    ensures Without(l[p := e], e.0) == Without(l, e.0)
  {
    WithoutAt(l, p);
    WithoutAt(l[p := e], p);
    assert l[p := e][..p] == l[..p] && l[p := e][p + 1..] == l[p + 1..];
  }
}
