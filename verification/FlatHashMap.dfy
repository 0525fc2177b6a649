/** The map built on the table, and what whole runs, iterations and pairs of tables come to. */
module FlatHashMap {
  import opened Slots
  import opened Sizing
  import opened Crowding
  import opened FlatHashTable

  /** at() */
  method At<K(==, !new), V>(t: Table<K, V>, key: K) returns (r: Option<V>)
    requires t.Valid()
    ensures r == if key in t.Contents() then Some(t.Contents()[key]) else None
  {
    hide Table<K, V>.Valid, Table<K, V>.Contents;
    var found;
    ghost var compared;
    found, compared := t.Find(key);
    if found == t.End() {
      r := None;
    } else {
      r := Some(t.entries[found].item.value.val);
    }
  }

  /** operator[] */
  method Index<K(==, !new), V>(t: Table<K, V>, key: K, initial: V) returns (pos: nat)
    requires t.Valid()
    modifies t, t.Owned()
    ensures t.Valid() && t.maxLoad == old(t.maxLoad) && (old(t.LoadOk()) ==> t.LoadOk())
    ensures t.Contents() == if key in old(t.Contents()) then old(t.Contents()) else old(t.Contents())[key := initial]
    ensures pos < t.End() && t.entries[pos].item == Some(Pair(key, t.Contents()[key]))
    ensures t.entries == old(t.entries) || fresh(t.entries)
  {
    hide Table<K, V>.Valid, Table<K, V>.Contents;
    var inserted;
    pos, inserted := t.Emplace(Pair(key, initial));
  }

  method InsertOrAssign<K(==, !new), V>(t: Table<K, V>, key: K, val: V) returns (pos: nat, inserted: bool)
    requires t.Valid()
    modifies t, t.Owned()
    ensures t.Valid() && t.maxLoad == old(t.maxLoad) && (old(t.LoadOk()) ==> t.LoadOk())
    ensures inserted <==> key !in old(t.Contents())
    ensures t.Contents() == old(t.Contents())[key := val]
    ensures pos < t.End() && t.entries[pos].item == Some(Pair(key, val))
    ensures t.entries == old(t.entries) || fresh(t.entries)
  {
    hide Table<K, V>.Valid, Table<K, V>.Contents;
    pos, inserted := t.Emplace(Pair(key, val));
    if !inserted {
      t.SetValue(pos, val);
    }
  }

  /** What inserting pairs one by one makes of a map: the first value of a key stays. */
  ghost function WithAll<K, V>(m: map<K, V>, ps: seq<Pair<K, V>>): map<K, V> {
    if |ps| == 0 then m
    else
      var n, p := WithAll(m, ps[..|ps| - 1]), ps[|ps| - 1];
      if p.key in n then n else n[p.key := p.val]
  }

  /** insert(first, last) and insert(initializer_list). The buffer is replaced exactly when something is added and
      what is then stored has outgrown it; with room reserved for all of them, exactly when the probe bound has no
      place for the resulting keys at the present size. */
  method InsertAll<K(==, !new), V>(t: Table<K, V>, ps: seq<Pair<K, V>>)
    requires t.Valid()
    modifies t, t.Owned()
    ensures t.Valid() && t.Contents() == WithAll(old(t.Contents()), ps)
    ensures t.maxLoad == old(t.maxLoad) && (old(t.LoadOk()) ==> t.LoadOk())
    ensures t.entries == old(t.entries) || fresh(t.entries)
    ensures t.GrewOnlyAsNeeded(old(t.entries), old(t.numElements), old(t.numSlotsMinusOne), old(t.maxLookups))
    ensures old(t.Reserved(t.numElements + |ps|)) ==>
              (t.entries != old(t.entries) <==>
                 Overcrowded(t.policy, old(t.committed), old(t.maxLookups), Keys(t.Stored())))
  {
    hide Table<K, V>.Valid, Table<K, V>.Contents, Table<K, V>.LoadOk, Table<K, V>.Outgrown;
    ghost var first, count, slots, lookups := t.entries, t.numElements, t.numSlotsMinusOne, t.maxLookups;
    t.Sizes();
    for i := 0 to |ps|
      invariant t.Valid() && t.Contents() == WithAll(old(t.Contents()), ps[..i])
      invariant t.maxLoad == old(t.maxLoad) && (old(t.LoadOk()) ==> t.LoadOk())
      invariant t.entries == old(t.entries) || fresh(t.entries)
      invariant t.numElements <= count + i
      invariant t.GrewOnlyAsNeeded(first, count, slots, lookups)
    {
      assert ps[..i + 1][..i] == ps[..i];
      var _, inserted := t.Insert(ps[i], first, count, slots, lookups);
    }
    assert ps[..|ps|] == ps;
    t.Sizes();
    if old(t.Reserved(t.numElements + |ps|)) {
      t.GrewForKeys(first, count, slots, lookups, count + |ps|);
    }
  }

  /** Every key of the map or of the pairs is bound, to the map's value or else to its first in the list. */
  lemma {:induction false} WithAllAt<K, V>(m: map<K, V>, ps: seq<Pair<K, V>>, k: K)
    ensures k in WithAll(m, ps) <==> k in m || exists i :: 0 <= i < |ps| && ps[i].key == k
    ensures k in m ==> WithAll(m, ps)[k] == m[k]
    ensures forall i :: k !in m && 0 <= i < |ps| && ps[i].key == k && (forall j :: 0 <= j < i ==> ps[j].key != k) ==>
              WithAll(m, ps)[k] == ps[i].val
    decreases |ps|
  {
    if |ps| > 0 {
      var front := ps[..|ps| - 1];
      WithAllAt(m, front, k);
      assert forall i :: 0 <= i < |front| ==> front[i] == ps[i];
      if ps[|ps| - 1].key == k {
        assert ps[|ps| - 1].key == k;
      }
    }
  }

  /** The policy's size for the lesser of the buckets there are and what reserve asks for n elements: the least
      count of at least 2n that holds them. */
  ghost predicate IsCopySize<K(!new), V>(other: Table<K, V>, size: nat)
    reads other
  {
    forall r: nat ::
      other.numElements > 0 && LeastBuckets(r, 2 * other.numElements, other.numElements, other.maxLoad) ==>
        size == other.policy.NextSizeOver(Min(r, other.numSlotsMinusOne + 1))
  }

  /** A new table with the room that another one's elements are given by rehash_for_other_container. */
  method EmptyFor<K(==, !new), V>(other: Table<K, V>) returns (t: Table<K, V>, ghost size: nat)
    requires other.Valid()
    ensures fresh(t) && t.Valid() && t.LoadOk() && t.Contents() == map[] && t.numElements == 0
    ensures t.policy == other.policy && t.shared == other.shared && t.maxLoad == other.maxLoad
    ensures t.entries == t.shared || fresh(t.entries)
    ensures other.numElements == 0 ==> t.entries == t.shared
    ensures other.numElements > 0 ==> t.numSlotsMinusOne + 1 == size >= 2 && t.maxLookups == ComputeMaxLookups(size)
    ensures IsCopySize(other, size)
  {
    hide Table<K, V>.Valid, Table<K, V>.Contents, Table<K, V>.LandsOn;
    hide ComputeMaxLookups, Fits, LeastBuckets;
    other.Parts();
    other.Sizes();
    var buckets := other.BucketCount();
    t := new Table(other.policy, other.shared, other.maxLoad);
    t.SizeIsKeyCount();
    ghost var r := ReserveForEmpty(other.numElements, buckets, other.maxLoad);
    t.RehashForOtherContainer(other.numElements, buckets);
    size := t.policy.NextSizeOver(Min(r, buckets));
    t.EmptyLands(size);
  }

  lemma UnionWithNone<K, V>(m: map<K, V>)
    ensures m + map[] == m
  {
  }

  /** The copy constructor: room for the other table's elements, then every one of them inserted. The buckets are
      those asked for unless the elements outgrow them. */
  method CopyOf<K(==, !new), V>(other: Table<K, V>) returns (t: Table<K, V>, ghost size: nat)
    requires other.Valid()
    ensures fresh(t) && t.Valid() && t.LoadOk() && t.Contents() == other.Contents()
    ensures t.policy == other.policy && t.shared == other.shared && t.maxLoad == other.maxLoad
    ensures t.entries == t.shared || fresh(t.entries)
    ensures t.numElements == other.numElements && (other.numElements == 0 ==> t.entries == t.shared)
    ensures other.numElements > 0 ==>
              && size >= 2
              && t.numSlotsMinusOne + 1 >= size
              && (t.numSlotsMinusOne + 1 == size <==> !t.Outgrown(size, ComputeMaxLookups(size)))
    ensures IsCopySize(other, size)
  {
    hide Table<K, V>.Valid, Table<K, V>.Contents, Table<K, V>.Outgrown;
    hide ComputeMaxLookups, IsCopySize, Fits, LeastBuckets;
    hide Table<K, V>.GrewOnlyAsNeeded, Table<K, V>.LoadOk, Table<K, V>.Stored;
    t, size := EmptyFor(other);
    ghost var first, slots, lookups := t.entries, t.numSlotsMinusOne, t.maxLookups;
    UnionWithNone(other.Contents());
    other.SizeIsKeyCount();
    t.InsertFrom(other);
    t.SizeIsKeyCount();
    t.GrewTo(first, slots, lookups);
  }

  /** operator== */
  method Equals<K(==, !new), V(==)>(lhs: Table<K, V>, rhs: Table<K, V>) returns (equal: bool)
    requires lhs.Valid() && rhs.Valid()
    ensures equal <==> lhs.Contents() == rhs.Contents()
  {
    hide Table<K, V>.Valid, Table<K, V>.Contents, Table<K, V>.Prefix, Items;
    lhs.Parts();
    lhs.SizeIsKeyCount();
    rhs.SizeIsKeyCount();
    if lhs.numElements != rhs.numElements {
      return false;
    }
    var it := lhs.Begin();
    lhs.PrefixStart(it);
    while it != lhs.End()
      invariant lhs.IsIterator(it)
      invariant forall k :: k in lhs.Prefix(it) ==> k in rhs.Contents() && rhs.Contents()[k] == lhs.Prefix(it)[k]
      decreases lhs.End() - it
    {
      lhs.ItemThere(it);
      lhs.SlotBound(it);
      var value := lhs.entries[it].item.value;
      var found;
      ghost var compared;
      found, compared := rhs.Find(value.key);
      if found == rhs.End() {
        return false;
      } else if value.val != rhs.entries[found].item.value.val {
        return false;
      }
      ghost var at := it;
      it := lhs.Next(it);
      lhs.PrefixStep(at, it);
    }
    lhs.PrefixEnd();
    SubmapOfSameSize(lhs.Contents(), rhs.Contents());
    equal := true;
  }

  lemma SubmapOfSameSize<K, V>(m: map<K, V>, n: map<K, V>)
    requires |m| == |n|
    requires forall k :: k in m ==> k in n && n[k] == m[k]
    ensures m == n
  {
    var extra := n.Keys - m.Keys;
    assert n.Keys == m.Keys + extra;
    assert |n.Keys| == |m.Keys| + |extra|;
    assert extra == {};
  }

  /** A range-for over a table: every stored pair once, in slot order, in size() steps. */
  method Visit<K(==, !new), V>(t: Table<K, V>) returns (visited: seq<Pair<K, V>>)
    requires t.Valid()
    ensures visited == Items(t.entries[..]) && |visited| == t.numElements
    ensures multiset(visited) == t.Stored()
    ensures forall p :: p in visited <==> p.key in t.Contents() && t.Contents()[p.key] == p.val
  {
    hide Table<K, V>.Valid, Table<K, V>.Contents, Items;
    t.Parts();
    visited := [];
    var it := t.Begin();
    while it != t.End()
      invariant t.IsIterator(it) && visited == Items(t.entries[..it])
      decreases t.End() - it
    {
      t.ItemThere(it);
      visited := visited + [t.entries[it].item.value];
      it := t.Next(it);
    }
    t.AllItems();
  }

  /** The items a predicate does not select, in order. */
  ghost function Kept<K, V>(xs: seq<Pair<K, V>>, selected: Pair<K, V> -> bool): seq<Pair<K, V>> {
    if |xs| == 0 then []
    else Kept(xs[..|xs| - 1], selected) + (if selected(xs[|xs| - 1]) then [] else [xs[|xs| - 1]])
  }

  lemma KeptNil<K, V>(selected: Pair<K, V> -> bool)
    ensures Kept([], selected) == []
  {
  }

  lemma KeptSnoc<K, V>(xs: seq<Pair<K, V>>, x: Pair<K, V>, selected: Pair<K, V> -> bool)
    ensures Kept(xs + [x], selected) == Kept(xs, selected) + (if selected(x) then [] else [x])
  {
    assert (xs + [x])[..|xs|] == xs;
  }

  /** Of the items, exactly the unselected ones. */
  lemma {:induction false} KeptHas<K, V>(xs: seq<Pair<K, V>>, selected: Pair<K, V> -> bool)
    ensures forall p :: p in Kept(xs, selected) <==> p in xs && !selected(p)
  {
    if |xs| > 0 {
      var front := xs[..|xs| - 1];
      KeptHas(front, selected);
      assert xs == front + [xs[|xs| - 1]];
    }
  }

  /** The loop "it = erase(it) or ++it": every element is looked at once, in order, and exactly the selected
      ones are gone. */
  method EraseIf<K(==, !new), V>(t: Table<K, V>, selected: Pair<K, V> -> bool) returns (visited: seq<Pair<K, V>>)
    requires t.Valid()
    modifies t`numElements, t.Owned()
    ensures t.Valid() && visited == old(Items(t.entries[..]))
    ensures Items(t.entries[..]) == Kept(visited, selected)
    ensures forall p :: p in Items(t.entries[..]) <==> p in visited && !selected(p)
  {
    hide Table<K, V>.Valid, Table<K, V>.Contents, Items, Kept;
    visited := [];
    var it := t.Begin();
    t.Split(it);
    t.Parts();
    KeptNil(selected);
    while it != t.End()
      invariant t.Valid() && t.IsIterator(it) && t.entries == old(t.entries)
      invariant Items(t.entries[..it]) == Kept(visited, selected)
      invariant visited + Items(t.entries[it..]) == old(Items(t.entries[..]))
      decreases |Items(t.entries[it..])|
    {
      t.ItemThere(it);
      t.ItemsFrom(it);
      ghost var rest := Items(t.entries[it + 1..]);
      var p := t.entries[it].item.value;
      KeptSnoc(visited, p, selected);
      visited := visited + [p];
      if selected(p) {
        it := t.EraseAt(it);
      } else {
        ghost var at := it;
        it := t.Next(it);
        t.SplitStep(at, it);
      }
    }
    t.Split(it);
    t.AllItems();
    KeptHas(visited, selected);
  }
}
