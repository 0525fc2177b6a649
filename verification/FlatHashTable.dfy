/** The open-addressing table: in-place search, displacement, growth and rehash over one entries buffer. */
module FlatHashTable {
  import opened Slots
  import opened Sizing
  import opened RobinHood
  import opened Crowding

  ghost function DefaultEntries<K, V>(): seq<Entry<K, V>> {
    [Vacant(), Vacant(), Vacant(), Sentinel()]
  }

  class Table<K(==, !new), V> {
    const policy: Policy<K>
    /** The static table every unallocated container points at. */
    const shared: array<Entry<K, V>>
    var entries: array<Entry<K, V>>
    var numSlotsMinusOne: nat
    /** The size the hash policy was last committed to, 0 after a reset. */
    var committed: nat
    var maxLookups: nat
    var maxLoad: real
    var numElements: nat

    ghost function Stored(): multiset<Pair<K, V>>
      reads this, entries
    {
      Bag(entries[..])
    }

    /** What this table may write: never the shared default table. */
    ghost function Owned(): set<object>
      reads this
    {
      if entries == shared then {} else {entries}
    }

    /** The state a rehash accepts: right values and counts, displacements possibly wrong. */
    ghost predicate Loose()
      reads this, entries, shared
    {
      && policy.Lawful()
      && maxLoad > 0.0
      && shared[..] == DefaultEntries()
      && entries.Length == numSlotsMinusOne + maxLookups + 1
      && Slotted(entries[..], maxLookups)
      && UniqueKeys(Stored())
      && numElements == |Stored()|
      && (numSlotsMinusOne == 0 ==> numElements == 0)
      && (if committed == 0
          then entries == shared && numSlotsMinusOne == 0 && maxLookups == MIN_LOOKUPS - 1
          else && entries != shared
               && committed == numSlotsMinusOne + 1
               && maxLookups == ComputeMaxLookups(committed)
               && forall k :: policy.IndexForHash(k, committed) < committed)
    }

    ghost predicate Valid()
      reads this, entries, shared
    {
      Loose() && Ordered(entries[..], maxLookups, policy, committed)
    }

    ghost function Contents(): map<K, V>
      requires Valid()
      reads this, entries, shared
    {
      MapOf(Stored())
    }

    function BucketCount(): nat
      reads this
    {
      if numSlotsMinusOne != 0 then numSlotsMinusOne + 1 else 0
    }

    function End(): nat
      reads this
    {
      numSlotsMinusOne + maxLookups
    }

    ghost predicate LoadOk()
      reads this
    {
      Fits(numElements, numSlotsMinusOne + 1, maxLoad)
    }

    /** What the table can be like when it grows: no buckets yet, load, or as many elements as lookups. */
    ghost predicate MayGrow()
      reads this
    {
      || numSlotsMinusOne == 0
      || !Fits(numElements + 1, numSlotsMinusOne + 1, maxLoad)
      || maxLookups <= numElements
    }

    /** The probe bound leaves no place for the stored keys and this one together, at the present size. */
    ghost predicate NoRoomFor(key: K)
      reads this, entries
    {
      Overcrowded(policy, committed, maxLookups, Keys(Stored()) + {key})
    }

    /** The stored keys can live in this many buckets: one bucket takes none, and otherwise only the probe bound
        decides. */
    ghost predicate RoomAt(buckets: nat)
      requires buckets >= 1
      reads this, entries
    {
      && (buckets == 1 ==> numElements == 0)
      && !Overcrowded(policy, buckets, ComputeMaxLookups(buckets), Keys(Stored()))
    }

    /** All of these together cannot live in this many buckets. */
    ghost predicate NoRoomAt(buckets: nat, lookups: nat, all: multiset<Pair<K, V>>) {
      Overcrowded(policy, buckets, lookups, Keys(all)) || (buckets == 1 && |all| > 0)
    }

    /** The stored keys and this one can live in this many buckets, and the load factor admits them. */
    ghost predicate RoomFor(buckets: nat, key: K)
      reads this, entries
    {
      && buckets >= 1
      && Fits(numElements + 1, buckets, maxLoad)
      && !Overcrowded(policy, buckets, ComputeMaxLookups(buckets), Keys(Stored()) + {key})
    }

    /** The reasons that make every insertion of a new key reallocate first. */
    ghost predicate MustGrow()
      reads this
    {
      numSlotsMinusOne == 0 || !Fits(numElements + 1, numSlotsMinusOne + 1, maxLoad)
    }

    /** The least bucket count a grow asks for. */
    function GrownSize(): nat
      reads this
    {
      Max(4, 2 * BucketCount())
    }

    /** How far the table is from a size at which `total` elements never make it grow. */
    ghost function GapAt(total: nat, buckets: nat): nat
      requires maxLoad > 0.0
      reads this
    {
      Max(0, EnoughBuckets(total, maxLoad) - buckets)
    }

    ghost function Gap(total: nat): nat
      requires maxLoad > 0.0
      reads this
    {
      GapAt(total, numSlotsMinusOne + 1)
    }

    function RehashTarget(request: nat): nat
      requires maxLoad > 0.0
      reads this
    {
      var n := Max(request, BucketsFor(numElements, maxLoad));
      if n == 0 then 0 else policy.NextSizeOver(n)
    }

    /** Without the rounding: the policy's size for the least bucket count from the request on that holds what is
        stored, or the default table when that count is 0. */
    lemma RehashTargetExact(request: nat, m: nat)
      requires maxLoad > 0.0 && LeastBuckets(m, request, numElements, maxLoad)
      ensures RehashTarget(request) == if m == 0 then 0 else policy.NextSizeOver(m)
    {
      LeastIs(m, request, numElements, maxLoad);
    }

    /** A grow asks for twice the buckets, and for four at least. */
    lemma GrownSizeExact()
      ensures GrownSize() == Max(4, 2 * (numSlotsMinusOne + 1))
    {
    }

    /** A rehash ends on the size it was asked for exactly when there is room at that size, else on a larger one. */
    ghost predicate LandsOn(buckets: nat)
      requires buckets >= 1
      reads this, entries
    {
      && numSlotsMinusOne + 1 >= buckets
      && (numSlotsMinusOne + 1 == buckets <==> RoomAt(buckets))
    }

    constructor (policy: Policy<K>, shared: array<Entry<K, V>>, maxLoad: real)
      requires policy.Lawful() && shared[..] == DefaultEntries() && maxLoad > 0.0
      ensures Valid() && LoadOk() && Contents() == map[]
      ensures this.policy == policy && this.shared == shared && entries == shared && this.maxLoad == maxLoad
    {
      this.policy, this.shared, this.maxLoad := policy, shared, maxLoad;
      entries := shared;
      numSlotsMinusOne, committed, maxLookups, numElements := 0, 0, MIN_LOOKUPS - 1, 0;
      new;
      EmptyOrdered(entries[..], MIN_LOOKUPS - 1, policy, 0);
    }

    lemma ProbeStart(key: K)
      requires Valid()
      ensures policy.IndexForHash(key, committed) < entries.Length
    {
    }

    /** Where the search loop continues there is a value to compare, below the end marker and within maxLookups. */
    lemma ProbeInBounds(key: K, pos: nat, dist: nat)
      requires Valid() && pos == policy.IndexForHash(key, committed) + dist && dist <= maxLookups
      requires pos < entries.Length && dist > 0 ==> committed != 0
      requires pos < entries.Length && entries[pos].dist >= dist
      ensures committed != 0 && dist < maxLookups && pos < End() && entries[pos].item.Some?
    {
      hide UniqueKeys, Stored, Chained, Homed;
    }

    /** The search loop of find and emplace. */
    method Probe(key: K) returns (pos: nat, dist: nat, hit: bool, ghost compared: nat)
      requires Valid()
      ensures pos < entries.Length && dist <= maxLookups && compared <= maxLookups
      ensures pos == policy.IndexForHash(key, committed) + dist
      ensures hit ==> pos < End() && entries[pos].item.Some? && entries[pos].item.value.key == key
      ensures !hit ==> !HasKey(Stored(), key) && entries[pos].dist < dist
      ensures !hit && dist > 0 ==> committed != 0 && entries[pos - 1].dist >= dist - 1
    {
      hide Ordered, Slotted, UniqueKeys, Bag, HasKey, ComputeMaxLookups;
      ProbeStart(key);
      ghost var home := policy.IndexForHash(key, committed);
      pos, dist, compared := policy.IndexForHash(key, committed), 0, 0;
      while entries[pos].dist >= dist
        invariant home <= pos < entries.Length && pos == home + dist && compared == dist <= maxLookups
        invariant dist > 0 ==> committed != 0 && entries[pos - 1].dist >= dist - 1
        invariant forall i :: home <= i < pos ==> entries[i].item.Some? && entries[i].item.value.key != key
        decreases maxLookups - dist
      {
        ProbeInBounds(key, pos, dist);
        compared := compared + 1;
        if entries[pos].item.value.key == key {
          return pos, dist, true, compared;
        }
        pos, dist := pos + 1, dist + 1;
      }
      hit := false;
      StopProvesAbsence(entries[..], key, pos, maxLookups, policy, committed);
    }

    /** emplace. `total` bounds the elements stored and pending over the whole nest of calls; the recursion ends
        because every grow brings the bucket count nearer to EnoughBuckets(total). */
    method EmplaceWithin(p: Pair<K, V>, ghost total: nat) returns (pos: nat, inserted: bool)
      requires Valid() && numElements < total
      modifies this, Owned()
      ensures Valid() && maxLoad == old(maxLoad)
      ensures inserted == !HasKey(old(Stored()), p.key)
      ensures !inserted ==> unchanged(this) && entries[..] == old(entries[..])
      ensures inserted ==> Stored() == old(Stored()) + multiset{p} && LoadOk()
      ensures pos < End() && entries[pos].item.Some? && entries[pos].item.value.key == p.key
      ensures inserted ==> entries[pos].item.value == p && entries != shared
      ensures numSlotsMinusOne >= old(numSlotsMinusOne)
      ensures entries == old(entries) || fresh(entries)
      ensures entries == old(entries) ==>
                && committed == old(committed)
                && numSlotsMinusOne == old(numSlotsMinusOne)
                && maxLookups == old(maxLookups)
      ensures entries != old(entries) ==>
                numSlotsMinusOne > old(numSlotsMinusOne) && numSlotsMinusOne + 1 >= old(GrownSize())
      ensures entries != old(entries) <==> inserted && old(MustGrow() || NoRoomFor(p.key))
      ensures entries != old(entries) ==>
                && numSlotsMinusOne + 1 >= old(RehashTarget(GrownSize()))
                && (numSlotsMinusOne + 1 == old(RehashTarget(GrownSize())) <==>
                      old(RoomFor(RehashTarget(GrownSize()), p.key)))
      decreases Gap(total), 3
    {
      var dist, hit;
      ghost var compared;
      pos, dist, hit, compared := Probe(p.key);
      if hit {
        inserted := false;
        assert HasKey(Stored(), p.key) by {
          InBag(entries[..], entries[pos].item.value);
        }
      } else {
        pos := EmplaceNewKey(dist, pos, p, total);
        inserted := true;
      }
    }

    /** The slot where the search stopped, or a grow when there is no bucket, no lookup or no load left. */
    method EmplaceNewKey(dist: nat, cur: nat, p: Pair<K, V>, ghost total: nat) returns (pos: nat)
      requires Valid() && numElements < total && !HasKey(Stored(), p.key)
      requires cur < entries.Length && dist <= maxLookups
      requires cur == policy.IndexForHash(p.key, committed) + dist && entries[cur].dist < dist
      requires dist > 0 ==> committed != 0 && entries[cur - 1].dist >= dist - 1
      modifies this, Owned()
      ensures Valid() && maxLoad == old(maxLoad) && LoadOk()
      ensures Stored() == old(Stored()) + multiset{p}
      ensures pos < End() && entries[pos].item == Some(p) && entries != shared
      ensures numSlotsMinusOne >= old(numSlotsMinusOne)
      ensures entries == old(entries) || fresh(entries)
      ensures entries == old(entries) ==>
                && committed == old(committed)
                && numSlotsMinusOne == old(numSlotsMinusOne)
                && maxLookups == old(maxLookups)
      ensures entries != old(entries) ==>
                numSlotsMinusOne > old(numSlotsMinusOne) && numSlotsMinusOne + 1 >= old(GrownSize())
      ensures entries != old(entries) <==> old(MustGrow() || NoRoomFor(p.key))
      ensures entries != old(entries) ==>
                && numSlotsMinusOne + 1 >= old(RehashTarget(GrownSize()))
                && (numSlotsMinusOne + 1 == old(RehashTarget(GrownSize())) <==>
                      old(RoomFor(RehashTarget(GrownSize()), p.key)))
      decreases Gap(total), 2
    {
      hide Stored, Ordered, Slotted, UniqueKeys, Bag, HasKey, Fits, EnoughBuckets, BucketsFor;
      hide Overcrowded, Keys, GrownSize, RehashTarget;
      if numSlotsMinusOne == 0 || dist == maxLookups || !Fits(numElements + 1, numSlotsMinusOne + 1, maxLoad) {
        if dist == maxLookups {
          FullRun(cur - 1);
          FullAt(cur - 1, p);
        }
        pos := GrowAndEmplace(p, total);
      } else if entries[cur].IsEmpty() {
        Place(cur, Entry(dist, Some(p)));
        pos := cur;
        PlacedHasRoom(old(Stored()), p);
      } else {
        var placed, back := Displace(cur, dist, p);
        if placed {
          pos := cur;
        } else {
          pos := GrowAndEmplace(back, total);
        }
      }
    }

    /** grow(), then emplace again. */
    method GrowAndEmplace(p: Pair<K, V>, ghost total: nat) returns (pos: nat)
      requires Loose() && numElements < total && !HasKey(Stored(), p.key) && MayGrow()
      modifies this, Owned()
      ensures Valid() && maxLoad == old(maxLoad) && LoadOk()
      ensures Stored() == old(Stored()) + multiset{p}
      ensures pos < End() && entries[pos].item == Some(p) && entries != shared
      ensures fresh(entries) && numSlotsMinusOne > old(numSlotsMinusOne) && numSlotsMinusOne + 1 >= old(GrownSize())
      ensures numSlotsMinusOne + 1 >= old(RehashTarget(GrownSize()))
      ensures numSlotsMinusOne + 1 == old(RehashTarget(GrownSize())) <==>
              old(RoomFor(RehashTarget(GrownSize()), p.key))
      decreases Gap(total), 1
    {
      hide Stored, Ordered, Slotted, UniqueKeys, Bag, HasKey, Fits, EnoughBuckets, BucketsFor, GrownSize;
      hide NoRoomFor, MustGrow, LandsOn, Overcrowded, Keys, ComputeMaxLookups, RehashTarget;
      MayGrowBelowEnough(total);
      GrownTarget();
      ghost var target := RehashTarget(GrownSize());
      Grow(total);
      GrownRoom(target, p.key);
      var again;
      pos, again := EmplaceWithin(p, total);
    }

    lemma GrownTarget()
      requires Loose()
      ensures RehashTarget(GrownSize()) >= 4
    {
    }

    /** A grow that ended on the size it asked for is the last exactly when that size has room for the new key as
        well; one that had to go further shows that it has not. */
    lemma GrownRoom(buckets: nat, key: K)
      requires Valid() && committed != 0 && buckets >= 2 && LandsOn(buckets)
      ensures numSlotsMinusOne + 1 == buckets ==> (RoomFor(buckets, key) <==> !MustGrow() && !NoRoomFor(key))
      ensures numSlotsMinusOne + 1 > buckets ==> !RoomFor(buckets, key)
    {
      hide Overcrowded, Keys, Ordered, Stored, ComputeMaxLookups, Slotted, UniqueKeys, Fits;
      var lookups := ComputeMaxLookups(buckets);
      if Overcrowded(policy, buckets, lookups, Keys(Stored())) {
        CrowdingGrows(policy, buckets, lookups, Keys(Stored()), Keys(Stored()) + {key});
      }
    }

    /** What a valid table stores has room in it. */
    lemma PlacedHasRoom(before: multiset<Pair<K, V>>, p: Pair<K, V>)
      requires Valid() && Stored() == before + multiset{p}
      ensures !Overcrowded(policy, committed, maxLookups, Keys(before) + {p.key})
    {
      hide Overcrowded, Keys;
      OrderedHasRoom(entries[..], maxLookups, policy, committed);
      KeysAdd(before, p);
    }

    /** An element that has to pass this slot at its last distance has no room. */
    lemma FullAt(j: nat, c: Pair<K, V>)
      requires Valid() && committed != 0 && j < End() && entries[j].dist >= maxLookups - 1
      requires policy.IndexForHash(c.key, committed) == j - (maxLookups - 1) && !HasKey(Stored(), c.key)
      ensures NoRoomFor(c.key)
    {
      hide Overcrowded, Keys, Ordered;
      FullSlotCrowds(entries[..], j, c, maxLookups, policy, committed);
    }

    /** Constructing a value in an empty slot. */
    method Place(pos: nat, e: Entry<K, V>)
      requires Valid() && numSlotsMinusOne != 0 && committed != 0 && pos < End() && entries[pos].dist < 0
      requires e.item.Some? && !HasKey(Stored(), e.item.value.key) && 0 <= e.dist < maxLookups
      requires policy.IndexForHash(e.item.value.key, committed) + e.dist == pos
      requires e.dist > 0 ==> e.dist <= entries[pos - 1].dist + 1
      modifies entries, this`numElements
      ensures Valid() && numElements == old(numElements) + 1
      ensures entries[..] == old(entries[..])[pos := e]
      ensures Stored() == old(Stored()) + multiset{e.item.value}
    {
      hide HasKey, Homed, Chained, Items, ComputeMaxLookups, Fits;
      ghost var s := entries[..];
      PutKeepsOrder(s, pos, e, maxLookups, policy, committed);
      BagPut(s, pos, e);
      UniqueAdd(Stored(), e.item.value);
      entries[pos] := e;
      numElements := numElements + 1;
      assert entries[..] == s[pos := e];
      assert |Bag(s) + multiset{e.item.value}| == |Bag(s)| + 1;
    }

    /** Exchanging a carried value for the richer one in an occupied slot. */
    method Exchange(pos: nat, e: Entry<K, V>) returns (x: Entry<K, V>)
      requires Valid() && committed != 0 && pos < End() && 0 <= entries[pos].dist < e.dist
      requires e.item.Some? && !HasKey(Stored(), e.item.value.key) && e.dist < maxLookups
      requires policy.IndexForHash(e.item.value.key, committed) + e.dist == pos
      requires e.dist > 0 ==> e.dist <= entries[pos - 1].dist + 1
      modifies entries
      ensures Valid()
      ensures x == old(entries[pos]) && x.item.Some? && entries[..] == old(entries[..])[pos := e]
      ensures Stored() + multiset{x.item.value} == old(Stored()) + multiset{e.item.value}
      ensures policy.IndexForHash(x.item.value.key, committed) + x.dist == pos
    {
      hide HasKey, Chained, Items, ComputeMaxLookups, Fits;
      ghost var s := entries[..];
      PutKeepsOrder(s, pos, e, maxLookups, policy, committed);
      BagPut(s, pos, e);
      UniqueAdd(Stored(), e.item.value);
      x := entries[pos];
      entries[pos] := e;
      assert entries[..] == s[pos := e];
      UniqueDrop(Stored(), x.item.value);
      SameSize(Stored(), x.item.value, old(Stored()), e.item.value);
    }

    /** The displacement chain of emplace_new_key, from a slot whose element is nearer its home. */
    method Displace(start: nat, d: nat, p: Pair<K, V>) returns (placed: bool, back: Pair<K, V>)
      requires Valid() && numSlotsMinusOne != 0 && committed != 0 && !HasKey(Stored(), p.key)
      requires start < End() && 0 <= entries[start].dist < d < maxLookups
      requires start == policy.IndexForHash(p.key, committed) + d && entries[start - 1].dist >= d - 1
      modifies entries, this`numElements
      ensures placed <==> !old(NoRoomFor(p.key))
      ensures placed ==> Valid() && Stored() == old(Stored()) + multiset{p}
      ensures placed ==> numElements == old(numElements) + 1 && entries[start].item == Some(p)
      ensures !placed ==> Loose() && back == p && Stored() == old(Stored())
      ensures !placed ==> numElements == old(numElements) && maxLookups <= numElements
    {
      hide Stored, Ordered, Slotted, UniqueKeys, Bag, HasKey, Keys, Fits, EnoughBuckets, ComputeMaxLookups, BucketsFor;
      hide Overcrowded;
      ghost var goal := Stored() + multiset{p};
      UniqueAdd(Stored(), p);
      var carried := Exchange(start, Entry(d, Some(p)));
      var pos, dist := start + 1, carried.dist + 1;
      var toInsert := carried.item.value;
      while true
        invariant Valid() && numElements == old(numElements)
        invariant start < pos <= End() && 0 < dist < maxLookups && dist <= entries[pos - 1].dist + 1
        invariant pos == policy.IndexForHash(toInsert.key, committed) + dist
        invariant Stored() + multiset{toInsert} == goal
        invariant entries[start].item == Some(p)
        decreases End() - pos
      {
        assert pos < End();
        UniqueDrop(Stored(), toInsert);
        if entries[pos].IsEmpty() {
          Place(pos, Entry(dist, Some(toInsert)));
          PlacedHasRoom(old(Stored()), p);
          return true, toInsert;
        } else if entries[pos].dist < dist {
          carried := Exchange(pos, Entry(dist, Some(toInsert)));
          dist, toInsert := carried.dist + 1, carried.item.value;
        } else {
          dist := dist + 1;
          if dist == maxLookups {
            GiveUp(start, pos, toInsert, p, old(Stored()));
            return false, p;
          }
        }
        pos := pos + 1;
      }
    }

    /** At the probe bound, the carried value goes back to the slot of the new key; the keys had no room. */
    method GiveUp(start: nat, pos: nat, toInsert: Pair<K, V>, p: Pair<K, V>, ghost before: multiset<Pair<K, V>>)
      requires Valid() && committed != 0 && start < End() < entries.Length && entries[start].item == Some(p)
      requires pos < End() && entries[pos].dist >= maxLookups - 1 && !HasKey(Stored(), toInsert.key)
      requires policy.IndexForHash(toInsert.key, committed) == pos - (maxLookups - 1)
      requires Stored() + multiset{toInsert} == before + multiset{p}
      modifies entries
      ensures Loose() && Stored() == before && maxLookups <= numElements
      ensures Overcrowded(policy, committed, maxLookups, Keys(before) + {p.key})
    {
      hide Stored, Ordered, Slotted, UniqueKeys, Bag, HasKey, Keys, Overcrowded, ComputeMaxLookups;
      UniqueAdd(Stored(), toInsert);
      FullRun(pos);
      FullAt(pos, toInsert);
      KeysAdd(Stored(), toInsert);
      KeysAdd(before, p);
      Rollback(start, toInsert, p);
      Cancel(Stored(), before, p);
    }

    /** Giving the carried value the slot of the new key: the displacement stored there is then meaningless. */
    method Rollback(start: nat, toInsert: Pair<K, V>, p: Pair<K, V>)
      requires Loose() && committed != 0 && start < End() && entries[start].item == Some(p)
      requires UniqueKeys(Stored() + multiset{toInsert})
      modifies entries
      ensures Loose() && Stored() + multiset{p} == old(Stored()) + multiset{toInsert}
    {
      hide UniqueKeys, HasKey, Homed, Chained, Items, ComputeMaxLookups, Fits;
      ghost var s := entries[..];
      ghost var e := entries[start].(item := Some(toInsert));
      BagPut(s, start, e);
      entries[start] := entries[start].(item := Some(toInsert));
      assert entries[..] == s[start := e];
      UniqueDrop(Stored(), p);
      SameSize(Stored(), p, old(Stored()), toInsert);
    }

    /** Rehashes to at least twice the buckets; the displacements need not be right when it is called. */
    method Grow(ghost total: nat)
      requires Loose() && numElements <= total && numSlotsMinusOne + 1 < EnoughBuckets(total, maxLoad)
      modifies this, Owned()
      ensures Valid() && maxLoad == old(maxLoad) && numElements == old(numElements)
      ensures Stored() == old(Stored()) && LoadOk()
      ensures fresh(entries) && committed != 0 && numSlotsMinusOne > old(numSlotsMinusOne)
      ensures numSlotsMinusOne + 1 >= old(GrownSize()) && LandsOn(old(RehashTarget(GrownSize())))
      decreases Gap(total), 0
    {
      RehashWithin(GrownSize(), total);
    }

    /** rehash, from any Loose state: the values are kept, whatever rehashes happen while they are moved. */
    method RehashWithin(request: nat, ghost total: nat)
      requires Loose() && numElements <= total
      requires Valid() || RehashTarget(request) != BucketCount()
      modifies this, Owned()
      ensures Valid() && maxLoad == old(maxLoad) && numElements == old(numElements)
      ensures Stored() == old(Stored()) && LoadOk()
      ensures old(RehashTarget(request)) == 0 ==> entries == shared && committed == 0
      ensures 0 < old(RehashTarget(request)) ==> numSlotsMinusOne + 1 >= old(RehashTarget(request))
      ensures 0 < old(RehashTarget(request)) ==> LandsOn(old(RehashTarget(request)))
      ensures 0 < old(RehashTarget(request)) != old(BucketCount()) ==> fresh(entries) && committed != 0
      ensures 0 < old(RehashTarget(request)) == old(BucketCount()) ==>
                unchanged(this) && entries[..] == old(entries[..])
      decreases GapAt(total, RehashTarget(request)), 5
    {
      hide Ordered, Slotted, UniqueKeys, Bag, HasKey, Fits, EnoughBuckets, ComputeMaxLookups, BucketsFor;
      hide Overcrowded, Keys;
      var numBuckets := Max(request, BucketsFor(numElements, maxLoad));
      BucketsForExact(numElements, numBuckets, maxLoad);
      if numBuckets == 0 {
        ResetToEmptyState();
        return;
      }
      FitsMonotone(numElements, numElements, numBuckets, policy.NextSizeOver(numBuckets), maxLoad);
      numBuckets := policy.NextSizeOver(numBuckets);
      if numBuckets == BucketCount() {
        HasRoom();
        return;
      }
      var oldBuckets := entries;
      ghost var lookups := maxLookups;
      Install(numBuckets);
      Drain(oldBuckets, lookups, total);
    }

    /** The first half of rehash: a fresh buffer without values becomes the current one. */
    method Install(numBuckets: nat)
      requires policy.Lawful() && maxLoad > 0.0 && shared[..] == DefaultEntries()
      requires exists n :: n >= 1 && policy.NextSizeOver(n) == numBuckets
      modifies this
      ensures Valid() && maxLoad == old(maxLoad) && fresh(entries)
      ensures committed == numSlotsMinusOne + 1 == numBuckets
      ensures numElements == 0 && Stored() == multiset{}
    {
      hide Ordered, Slotted, UniqueKeys, Bag, HasKey, Fits, EnoughBuckets, ComputeMaxLookups, BucketsFor;
      var newMaxLookups := ComputeMaxLookups(numBuckets);
      var newBuckets := AllocateEmpty(numBuckets + newMaxLookups);
      entries, numSlotsMinusOne, committed, maxLookups := newBuckets, numBuckets - 1, numBuckets, newMaxLookups;
      numElements := 0;
      EmptyOrdered(entries[..], maxLookups, policy, committed);
      var n :| n >= 1 && policy.NextSizeOver(n) == numBuckets;
    }

    method AllocateEmpty(n: nat) returns (a: array<Entry<K, V>>)
      requires n >= 1
      ensures fresh(a) && a.Length == n && a[n - 1] == Sentinel()
      ensures forall i :: 0 <= i < n - 1 ==> a[i] == Vacant()
    {
      a := new Entry<K, V>[n];
      for i := 0 to n - 1
        invariant forall j :: 0 <= j < i ==> a[j] == Vacant()
      {
        a[i] := Vacant();
      }
      a[n - 1] := Sentinel();
    }

    /** reset_to_empty_state, reached only when nothing is stored. */
    method ResetToEmptyState()
      requires Loose() && Fits(numElements, 0, maxLoad)
      modifies this
      ensures Valid() && maxLoad == old(maxLoad) && numElements == old(numElements) == 0
      ensures Stored() == old(Stored()) && LoadOk() && entries == shared && committed == 0
    {
      hide Ordered, Slotted, UniqueKeys, Bag, HasKey, EnoughBuckets, ComputeMaxLookups, BucketsFor;
      entries, numSlotsMinusOne, committed, maxLookups := shared, 0, 0, MIN_LOOKUPS - 1;
      EmptyOrdered(entries[..], maxLookups, policy, committed);
    }

    /** The second half of rehash: every value of the old buffer is emplaced into the current one. */
    method Drain(oldBuckets: array<Entry<K, V>>, ghost lookups: nat, ghost total: nat)
      requires Valid() && committed != 0 && numElements == 0
      requires oldBuckets != entries && Slotted(oldBuckets[..], lookups) && UniqueKeys(Bag(oldBuckets[..]))
      requires |Bag(oldBuckets[..])| <= total && Fits(|Bag(oldBuckets[..])|, numSlotsMinusOne + 1, maxLoad)
      modifies this, entries, if oldBuckets == shared then {} else {oldBuckets}
      ensures Valid() && maxLoad == old(maxLoad) && LoadOk()
      ensures Stored() == old(Bag(oldBuckets[..])) && numElements == old(|Bag(oldBuckets[..])|)
      ensures entries == old(entries) || fresh(entries)
      ensures committed != 0 && LandsOn(old(numSlotsMinusOne) + 1)
      decreases Gap(total), 4
    {
      hide Ordered, Slotted, UniqueKeys, Bag, HasKey, Keys, Fits, EnoughBuckets, BucketsFor;
      hide Overcrowded, NoRoomFor, NoRoomAt, MustGrow, GrownSize, LandsOn, RoomAt, ComputeMaxLookups;
      ghost var s := oldBuckets[..];
      SlottedNonEmpty(s, lookups);
      EmptyPrefix(s);
      for i := 0 to oldBuckets.Length - 1
        invariant Valid() && maxLoad == old(maxLoad) && committed != 0
        invariant entries == old(entries) || fresh(entries)
        invariant if entries == old(entries)
          then && numSlotsMinusOne == old(numSlotsMinusOne)
               && maxLookups == old(maxLookups) && committed == old(committed)
          else && numSlotsMinusOne > old(numSlotsMinusOne)
               && NoRoomAt(old(numSlotsMinusOne) + 1, old(maxLookups), Bag(s))
        invariant entries != oldBuckets
        invariant forall j :: i <= j < |s| ==> oldBuckets[j] == s[j]
        invariant Stored() == Bag(s[..i]) && numElements == |Bag(s[..i])|
      {
        BagSnoc(s, i);
        SlotValue(s, lookups, i);
        if oldBuckets[i].HasValue() {
          PrefixFresh(s, i);
          SubsetSize(Bag(s[..i + 1]), Bag(s));
          assert shared[..] == DefaultEntries();
          FitsMonotone(numElements + 1, |Bag(s)|, old(numSlotsMinusOne) + 1, numSlotsMinusOne + 1, maxLoad);
          CrowdedSoFar(s, i);
          var _, inserted := EmplaceWithin(oldBuckets[i].item.value, total);
          oldBuckets[i] := Vacant();
        }
      }
      BagSnoc(s, |s| - 1);
      SlotValue(s, lookups, |s| - 1);
      assert s[..|s|] == s;
      FitsMonotone(numElements, numElements, old(numSlotsMinusOne) + 1, numSlotsMinusOne + 1, maxLoad);
      DrainedLands(old(numSlotsMinusOne) + 1, old(maxLookups), entries == old(entries), Bag(s));
    }

    /** Where the moving ends: on the size asked for, or past it because all the keys have no room there. */
    lemma DrainedLands(buckets: nat, lookups: nat, kept: bool, all: multiset<Pair<K, V>>)
      requires Valid() && committed != 0 && buckets >= 1 && lookups == ComputeMaxLookups(buckets) && Stored() == all
      requires kept ==> numSlotsMinusOne + 1 == buckets
      requires !kept ==>
                 && numSlotsMinusOne + 1 > buckets
                 && NoRoomAt(buckets, lookups, all)
      ensures LandsOn(buckets)
    {
      hide Overcrowded, Keys, Ordered, Stored, ComputeMaxLookups, Slotted, UniqueKeys;
      if kept {
        HasRoom();
      }
    }

    /** If the elements moved so far leave no room for the next, all of them together have none. */
    lemma CrowdedSoFar(s: seq<Entry<K, V>>, i: nat)
      requires i < |s| && s[i].item.Some? && Stored() == Bag(s[..i])
      ensures committed == numSlotsMinusOne + 1 && Fits(numElements + 1, numSlotsMinusOne + 1, maxLoad) ==>
                (MustGrow() || NoRoomFor(s[i].item.value.key) ==> NoRoomAt(committed, maxLookups, Bag(s)))
    {
      hide Overcrowded, Bag, Fits;
      var p := s[i].item.value;
      BagSnoc(s, i);
      KeysAdd(Stored(), p);
      SubsetSize(Bag(s[..i + 1]), Bag(s));
      assert |Bag(s[..i]) + multiset{p}| == |Bag(s[..i])| + 1;
      assert Keys(Stored()) + {p.key} <= Keys(Bag(s));
      if NoRoomFor(p.key) {
        CrowdingGrows(policy, committed, maxLookups, Keys(Stored()) + {p.key}, Keys(Bag(s)));
      }
    }

    /** What is stored has room where it is. */
    lemma HasRoom()
      requires Valid() && committed != 0
      ensures RoomAt(numSlotsMinusOne + 1)
    {
      hide Overcrowded, Keys, Bag, ComputeMaxLookups;
      OrderedHasRoom(entries[..], maxLookups, policy, committed);
    }

    /** A displacement of maxLookups - 1 takes maxLookups stored elements. */
    lemma FullRun(pos: nat)
      requires Valid() && pos < End() && entries[pos].dist >= maxLookups - 1
      ensures maxLookups <= numElements
    {
      RunOccupied(entries[..], pos, maxLookups);
    }

    /** A table that grows has not enough buckets yet. */
    lemma MayGrowBelowEnough(total: nat)
      requires Loose() && numElements < total && MayGrow()
      ensures numSlotsMinusOne + 1 < EnoughBuckets(total, maxLoad)
    {
      if numSlotsMinusOne + 1 >= EnoughBuckets(total, maxLoad) {
        EnoughNeverGrows(numElements, total, numSlotsMinusOne + 1, maxLoad);
      }
    }

    /** find: the slot with the key or end(), comparing at most maxLookups keys. */
    method Find(key: K) returns (pos: nat, ghost compared: nat)
      requires Valid()
      ensures pos <= End() < entries.Length && (pos == End() <==> key !in Contents())
      ensures pos != End() ==> entries[pos].item == Some(Pair(key, Contents()[key]))
      ensures compared <= maxLookups
      ensures maxLookups == if committed == 0 then MIN_LOOKUPS - 1 else ComputeMaxLookups(numSlotsMinusOne + 1)
    {
      hide Ordered, Slotted, UniqueKeys, Bag, HasKey, MapOf, ComputeMaxLookups;
      var dist, hit;
      pos, dist, hit, compared := Probe(key);
      if hit {
        SlotBound(pos);
      } else {
        pos := End();
        if key in Contents() {
          MapOfAt(Stored(), Pair(key, Contents()[key]));
        }
      }
    }

    /** What a slot holds, the map binds. */
    lemma SlotBound(pos: nat)
      requires Valid() && pos < End() && entries[pos].item.Some?
      ensures var p := entries[pos].item.value; p in Stored() && p.key in Contents() && Contents()[p.key] == p.val
      ensures committed != 0
    {
      InBag(entries[..], entries[pos].item.value);
      MapOfAt(Stored(), entries[pos].item.value);
    }

    /** emplace as callers see it: the map gains the key unless it has it; the buffer changes only for one of the
        reasons to grow. */
    method Emplace(p: Pair<K, V>) returns (pos: nat, inserted: bool)
      requires Valid()
      modifies this, Owned()
      ensures Valid() && maxLoad == old(maxLoad) && (old(LoadOk()) ==> LoadOk())
      ensures inserted <==> p.key !in old(Contents())
      ensures inserted ==> Contents() == old(Contents())[p.key := p.val]
      ensures !inserted ==> unchanged(this) && entries[..] == old(entries[..]) && Contents() == old(Contents())
      ensures pos < End() && entries[pos].item == Some(Pair(p.key, Contents()[p.key]))
      ensures Stored() == if inserted then old(Stored()) + multiset{p} else old(Stored())
      ensures entries == old(entries) || (fresh(entries) && numSlotsMinusOne > old(numSlotsMinusOne))
      ensures entries != old(entries) <==> inserted && old(MustGrow() || NoRoomFor(p.key))
      ensures forall m: nat ::
                && entries != old(entries)
                && LeastBuckets(m, Max(4, 2 * (old(numSlotsMinusOne) + 1)), old(numElements), maxLoad) ==>
                  && numSlotsMinusOne + 1 >= policy.NextSizeOver(m) >= m
                  && (numSlotsMinusOne + 1 == policy.NextSizeOver(m) <==> old(RoomFor(policy.NextSizeOver(m), p.key)))
      ensures entries == old(entries) ==>
                && committed == old(committed)
                && numSlotsMinusOne == old(numSlotsMinusOne)
                && maxLookups == old(maxLookups)
      ensures numElements == old(numElements) + (if inserted then 1 else 0)
      ensures numSlotsMinusOne >= old(numSlotsMinusOne)
    {
      hide Ordered, Slotted, UniqueKeys, Bag, HasKey, MapOf, Fits, ComputeMaxLookups, NoRoomFor, GrownSize;
      MapOfAt(Stored(), p);
      if !HasKey(Stored(), p.key) {
        MapOfAdd(Stored(), p);
      }
      GrownSizeExact();
      forall m: nat | LeastBuckets(m, GrownSize(), numElements, maxLoad)
        ensures RehashTarget(GrownSize()) == policy.NextSizeOver(m) >= m
      {
        RehashTargetExact(GrownSize(), m);
      }
      pos, inserted := EmplaceWithin(p, numElements + 1);
      assert |old(Stored()) + multiset{p}| == |old(Stored())| + 1;
      SlotBound(pos);
    }

    lemma Parts()
      requires Valid()
      ensures policy.Lawful() && shared[..] == DefaultEntries() && maxLoad > 0.0 && End() < entries.Length
    {
    }

    /** The slots below the end marker hold everything, and the map binds exactly that. */
    lemma AllItems()
      requires Valid()
      ensures Items(entries[..End()]) == Items(entries[..]) && |Items(entries[..])| == numElements
      ensures forall p :: p in Items(entries[..]) <==> p.key in Contents() && Contents()[p.key] == p.val
    {
      hide MapOf, UniqueKeys, HasKey, Homed, Chained;
      ItemsOverGap(entries[..], End(), entries.Length);
      assert entries[..entries.Length] == entries[..];
      forall p ensures p in Items(entries[..]) <==> p.key in Contents() && Contents()[p.key] == p.val {
        MapOfAt(Stored(), p);
      }
    }

    /** An iterator splits the in-order items into those visited and those to come. */
    lemma Split(pos: nat)
      requires Valid() && IsIterator(pos)
      ensures Items(entries[..]) == Items(entries[..pos]) + Items(entries[pos..])
      ensures pos == End() ==> Items(entries[pos..]) == []
    {
      ItemsCut(entries[..], pos);
      ItemsFrom(pos);
    }

    /** Advancing takes one item from those to come. */
    lemma SplitStep(at: nat, pos: nat)
      requires Valid() && IsIterator(at) && at < End() && IsIterator(pos)
      requires Items(entries[..pos]) == Items(entries[..at]) + entries[at].One()
      ensures Items(entries[at..]) == [entries[at].item.value] + Items(entries[pos..])
    {
      hide Items;
      ItemsCut(entries[..], at);
      ItemsCut(entries[..], pos);
      var front := Items(entries[..at]);
      assert front + Items(entries[at..]) == front + (entries[at].One() + Items(entries[pos..]));
      SamePrefix(front, Items(entries[at..]), entries[at].One() + Items(entries[pos..]));
    }

    /** size() counts the keys of the map. */
    lemma SizeIsKeyCount()
      requires Valid()
      ensures numElements == |Contents()|
    {
      MapOfSize(Stored());
    }

    /** An empty table has room at any size. */
    lemma NothingCrowds(buckets: nat)
      requires buckets >= 1 && numElements == |Stored()| == 0
      ensures RoomAt(buckets)
    {
      hide Stored;
      EmptyHasRoom(policy, buckets, ComputeMaxLookups(buckets), Keys(Stored()));
    }

    /** rehash to any requested size, smaller or larger. */
    method Rehash(request: nat)
      requires Valid()
      modifies this, Owned()
      ensures Valid() && LoadOk() && maxLoad == old(maxLoad) && numElements == old(numElements)
      ensures Stored() == old(Stored()) && Contents() == old(Contents())
      ensures request > 0 ==> numSlotsMinusOne + 1 >= request
      ensures forall m: nat :: LeastBuckets(m, request, numElements, maxLoad) ==>
                if m == 0 then entries == shared && BucketCount() == 0
                else
                  var size := policy.NextSizeOver(m);
                  && size >= m && LandsOn(size)
                  && (entries == old(entries) <==> 1 < size == old(numSlotsMinusOne) + 1)
                  && (size == 1 ==> (numSlotsMinusOne == 0 <==> numElements == 0))
      ensures entries == old(entries) ==>
                && committed == old(committed)
                && numSlotsMinusOne == old(numSlotsMinusOne)
                && maxLookups == old(maxLookups)
                && entries[..] == old(entries[..])
      ensures entries == old(entries) || entries == shared || fresh(entries)
    {
      hide Ordered, Slotted, UniqueKeys, Bag, HasKey, MapOf, Fits, ComputeMaxLookups;
      forall m: nat | LeastBuckets(m, request, numElements, maxLoad)
        ensures RehashTarget(request) == if m == 0 then 0 else policy.NextSizeOver(m)
      {
        RehashTargetExact(request, m);
      }
      RehashWithin(request, numElements);
      if numElements == 0 {
        NothingCrowds(1);
      }
    }

    /** After reserve(n), n elements stay within the load factor. */
    method Reserve(n: nat)
      requires Valid()
      modifies this, Owned()
      ensures Valid() && maxLoad == old(maxLoad) && (old(LoadOk()) ==> LoadOk())
      ensures Contents() == old(Contents()) && numElements == old(numElements)
      ensures Reserved(n)
      ensures entries == old(entries) <==> old(Fits(n, numSlotsMinusOne + 1, maxLoad) && 2 * n <= numSlotsMinusOne + 1)
      ensures entries == old(entries) ==> unchanged(this) && entries[..] == old(entries[..])
      ensures entries == old(entries) || fresh(entries)
      ensures forall m: nat :: entries != old(entries) && LeastBuckets(m, 2 * n, Max(n, numElements), maxLoad) ==>
                m >= 1 && LandsOn(policy.NextSizeOver(m))
    {
      hide Ordered, Slotted, UniqueKeys, Bag, HasKey, MapOf, Fits, ComputeMaxLookups;
      var required := BucketsForReserve(n, maxLoad);
      ReserveExact(n, numSlotsMinusOne + 1, maxLoad);
      ReserveExact(n, 0, maxLoad);
      forall m: nat | LeastBuckets(m, 2 * n, Max(n, numElements), maxLoad)
        ensures LeastBuckets(m, required, numElements, maxLoad)
      {
        ReserveRequest(m, n, numElements, maxLoad);
      }
      if required > BucketCount() {
        Rehash(required);
      }
      ReserveFits(n, numSlotsMinusOne + 1, maxLoad);
    }

    /** Room for n elements, as far as the load factor goes. */
    ghost predicate Reserved(n: nat)
      reads this
    {
      n > 0 ==> numSlotsMinusOne != 0 && Fits(n, numSlotsMinusOne + 1, maxLoad)
    }

    /** Up to the reserved size no insertion must grow, for the load or for lack of buckets. */
    lemma ReservedNeverMustGrow(n: nat)
      requires maxLoad > 0.0 && Reserved(n) && numElements < n
      ensures !MustGrow()
    {
      FitsMonotone(numElements + 1, n, numSlotsMinusOne + 1, numSlotsMinusOne + 1, maxLoad);
    }

    /** Keys that are overcrowded, or that the new key overcrowds, are so after the insertion. */
    lemma CrowdingStays(before: multiset<Pair<K, V>>, p: Pair<K, V>, size: nat, lookups: nat)
      requires Stored() == before + multiset{p}
      requires || Overcrowded(policy, size, lookups, Keys(before))
               || Overcrowded(policy, size, lookups, Keys(before) + {p.key})
      ensures Overcrowded(policy, size, lookups, Keys(Stored()))
    {
      hide Overcrowded;
      KeysAdd(before, p);
      if Overcrowded(policy, size, lookups, Keys(before)) {
        CrowdingGrows(policy, size, lookups, Keys(before), Keys(Stored()));
      }
    }

    /** A valid table is never overcrowded at its own size. */
    lemma NeverCrowded()
      requires Valid()
      ensures !Overcrowded(policy, committed, maxLookups, Keys(Stored()))
    {
      OrderedHasRoom(entries[..], maxLookups, policy, committed);
    }

    method RehashForOtherContainer(size: nat, buckets: nat)
      requires Valid()
      modifies this, Owned()
      ensures Valid() && LoadOk() && maxLoad == old(maxLoad) && numElements == old(numElements)
      ensures Contents() == old(Contents())
      ensures forall r: nat, m: nat ::
                LeastBuckets(r, 2 * size, size, maxLoad) && LeastBuckets(m, Min(r, buckets), numElements, maxLoad) ==>
                  if m == 0 then entries == shared else LandsOn(policy.NextSizeOver(m))
      ensures entries == old(entries) || entries == shared || fresh(entries)
    {
      hide Ordered, Slotted, UniqueKeys, Bag, HasKey, MapOf, Fits, ComputeMaxLookups;
      var required := BucketsForReserve(size, maxLoad);
      forall r: nat | LeastBuckets(r, 2 * size, size, maxLoad) ensures r == required {
        ReserveIsLeast(r, size, maxLoad);
      }
      Rehash(Min(required, buckets));
    }

    method ShrinkToFit()
      requires Valid()
      modifies this, Owned()
      ensures Valid() && LoadOk() && maxLoad == old(maxLoad) && numElements == old(numElements)
      ensures Contents() == old(Contents())
      ensures forall m: nat ::
                LeastBuckets(m, Min(2 * numElements, old(numSlotsMinusOne) + 1), numElements, maxLoad) ==>
                  if m == 0 then entries == shared
                  else
                    var size := policy.NextSizeOver(m);
                    LandsOn(size) && (entries == old(entries) <==> 1 < size == old(numSlotsMinusOne) + 1)
      ensures entries == old(entries) ==>
                && committed == old(committed)
                && numSlotsMinusOne == old(numSlotsMinusOne)
                && maxLookups == old(maxLookups)
                && entries[..] == old(entries[..])
      ensures numElements == 0 ==> entries == shared
      ensures entries == old(entries) || entries == shared || fresh(entries)
    {
      hide Ordered, Slotted, UniqueKeys, Bag, HasKey, MapOf, Fits, ComputeMaxLookups;
      var required := BucketsForReserve(numElements, maxLoad);
      if numElements == 0 {
        ReserveExact(0, 0, maxLoad);
        LeastIs(0, Min(required, BucketCount()), 0, maxLoad);
        BucketsForExact(0, 0, maxLoad);
      }
      forall m: nat | LeastBuckets(m, Min(2 * numElements, numSlotsMinusOne + 1), numElements, maxLoad)
        ensures LeastBuckets(m, Min(required, BucketCount()), numElements, maxLoad)
      {
        ShrinkRequest(m, numElements, BucketCount(), maxLoad);
      }
      Rehash(Min(required, BucketCount()));
    }

    lemma SharedHoldsNothing()
      requires Valid() && entries == shared
      ensures forall i :: 0 <= i < entries.Length ==> entries[i].item.None?
    {
    }

    /** clear: every value goes, the buckets stay. */
    method Clear()
      requires Valid()
      modifies this`numElements, Owned()
      ensures Valid() && numElements == 0 && Contents() == map[] && LoadOk()
    {
      hide Ordered, Slotted, UniqueKeys, HasKey, MapOf, ComputeMaxLookups, Bag;
      ghost var s := entries[..];
      SlottedNonEmpty(s, maxLookups);
      if entries == shared {
        SharedHoldsNothing();
      }
      for i := 0 to End()
        invariant |entries[..]| == |s|
        invariant forall j :: 0 <= j < i ==> entries[j] == Vacant()
        invariant forall j :: i <= j < |s| ==> entries[j] == s[j]
      {
        SlotValue(s, maxLookups, i);
        if entries[i].HasValue() {
          entries[i] := Vacant();
        }
      }
      numElements := 0;
      SlotValue(s, maxLookups, End());
      EmptyOrdered(entries[..], maxLookups, policy, committed);
      MapOfEmpty(Stored());
    }

    /** A dereferenceable iterator or end(): the position of a value or of the end marker. */
    ghost predicate IsIterator(pos: nat)
      reads this, entries
    {
      pos <= End() < entries.Length && entries[pos].HasValue()
    }

    /** begin: the first value in slot order, or end(). */
    method Begin() returns (pos: nat)
      requires Valid()
      ensures IsIterator(pos) && Items(entries[..pos]) == []
    {
      hide UniqueKeys, HasKey, Bag, Homed, Chained, ComputeMaxLookups;
      pos := 0;
      while entries[pos].IsEmpty()
        invariant pos <= End()
        invariant forall j :: 0 <= j < pos ==> entries[j].item.None?
        decreases End() - pos
      {
        pos := pos + 1;
      }
      ItemsNone(entries[..pos]);
    }

    /** ++it: to the next value in slot order, or to end(). */
    method Next(it: nat) returns (pos: nat)
      requires Valid() && it < End()
      ensures it < pos && IsIterator(pos)
      ensures Items(entries[..pos]) == Items(entries[..it]) + entries[it].One()
    {
      hide UniqueKeys, HasKey, Bag, Homed, Chained, ComputeMaxLookups;
      pos := it + 1;
      while entries[pos].IsEmpty()
        invariant it < pos <= End()
        invariant forall j :: it < j < pos ==> entries[j].item.None?
        decreases End() - pos
      {
        pos := pos + 1;
      }
      ItemsSnoc(entries[..], it);
      ItemsOverGap(entries[..], it + 1, pos);
    }

    /** convertible_to_iterator */
    method ToIterator(at: nat) returns (pos: nat)
      requires Valid() && at <= End()
      ensures at <= pos && IsIterator(pos) && Items(entries[..pos]) == Items(entries[..at])
    {
      pos := at;
      if !entries[at].HasValue() {
        pos := Next(at);
      }
    }

    /** The items an iterator has still to visit start with its own. */
    lemma ItemsFrom(pos: nat)
      requires Valid() && IsIterator(pos)
      ensures pos < End() ==>
                && entries[pos].item.Some?
                && Items(entries[pos..]) == [entries[pos].item.value] + Items(entries[pos + 1..])
      ensures pos == End() ==> Items(entries[pos..]) == []
    {
      assert entries[pos..][1..] == entries[pos + 1..];
      assert entries[pos..][0] == entries[pos];
    }

    /** erase(const_iterator): removes one value and shifts its followers back. */
    method Erase(at: nat)
      requires Valid() && at < End() && entries[at].item.Some?
      modifies this`numElements, Owned()
      ensures Valid() && numElements == old(numElements) - 1 && (old(LoadOk()) ==> LoadOk())
      ensures entries[..at] == old(entries[..at])
      ensures Items(entries[..]) == Items(old(entries[..at])) + Items(old(entries[at + 1..]))
      ensures Contents() == old(Contents()) - {old(entries[at].item.value.key)}
    {
      hide UniqueKeys, HasKey, MapOf, Keys, Items, Fits, ComputeMaxLookups;
      hide Ordered, Slotted, Homed, Chained, Compacting, Vacated;
      ghost var s := entries[..];
      SlotBound(at);
      CompactingStart(s, at, at + 1, maxLookups, policy, committed);
      VacatedAt(s, at, at + 1);
      SingleSlot(s, at);
      VacatedItems(s, at, at + 1);
      entries[at] := Vacant();
      numElements := numElements - 1;
      assert entries[..] == Vacated(s, at, at + 1);
      var current, next := at, at + 1;
      while !entries[next].IsAtDesiredPosition()
        invariant at <= current && next == current + 1 < entries.Length
        invariant Compacting(entries[..], next, Min(entries[next].dist, 1), maxLookups, policy, committed)
        invariant Items(entries[..]) == Items(Vacated(s, at, at + 1))
        invariant entries[..at] == s[..at] && numElements == old(numElements) - 1
        decreases entries.Length - next
      {
        CompactingStep(entries[..], next, 1, maxLookups, policy, committed);
        ghost var t := Shifted(entries[..], next, 1);
        entries[current] := Entry(entries[next].dist - 1, entries[next].item);
        entries[next] := Vacant();
        assert entries[..] == t;
        current, next := current + 1, next + 1;
      }
      CompactingDone(entries[..], next, Min(entries[next].dist, 1), maxLookups, policy, committed);

      RemovedRange(s, entries[..], at, at + 1);
      FewerStillFit(old(numElements));
    }

    lemma FewerStillFit(n: nat)
      requires numElements <= n && maxLoad > 0.0
      ensures Fits(n, numSlotsMinusOne + 1, maxLoad) ==> LoadOk()
    {
      if Fits(n, numSlotsMinusOne + 1, maxLoad) {
        FitsMonotone(numElements, n, numSlotsMinusOne + 1, numSlotsMinusOne + 1, maxLoad);
      }
    }

    /** The destroying loop of the range erase. */
    method DestroyRange(b: nat, e: nat)
      requires Valid() && b <= e <= End()
      modifies this`numElements, Owned()
      ensures entries[..] == Vacated(old(entries[..]), b, e)
      ensures numElements == old(numElements) - |Bag(old(entries[b..e]))|
      ensures entries == shared ==> forall i :: 0 <= i < entries.Length ==> entries[i].item.None?
    {
      hide UniqueKeys, HasKey, Fits, ComputeMaxLookups, Ordered, Slotted, Bag, Vacated;
      ghost var s := entries[..];
      if entries == shared {
        SharedHoldsNothing();
      }
      NothingBetween(s, b);
      EmptyPrefix(s);
      for i := b to e
        invariant numElements == old(numElements) - |Bag(s[b..i])|
        invariant forall j :: b <= j < i ==> entries[j] == Vacant()
        invariant forall j :: 0 <= j < b || i <= j < |s| ==> entries[j] == s[j]
      {
        SlotValue(s, maxLookups, i);
        RangeSnoc(s, b, i);
        if entries[i].HasValue() {
          entries[i] := Vacant();
          numElements := numElements - 1;
        }
      }
      VacatedAt(s, b, e);
      assert s[b..e] == old(entries[b..e]);
    }

    /** The moving loop of the range erase: each follower goes back by as much as it can, at most by what its
        predecessor did. */
    method ShiftBack(b: nat, e: nat) returns (r: nat)
      requires b < e < entries.Length - 1 && entries[e].HasValue() && entries != shared
      requires Compacting(entries[..], e, Min(entries[e].dist, e - b), maxLookups, policy, committed)
      requires forall j :: b <= j < e ==> entries[j] == Vacant()
      modifies entries
      ensures Slotted(entries[..], maxLookups) && Ordered(entries[..], maxLookups, policy, committed)
      ensures Items(entries[..]) == old(Items(entries[..]))
      ensures b <= r <= e && entries[r].item == old(entries[e].item)
      ensures forall j :: 0 <= j < b ==> entries[j] == old(entries[j])
      ensures forall j :: b <= j < r ==> entries[j] == Vacant()
    {
      hide Items, Ordered, Slotted, Homed, Chained, Compacting;
      var numToMove := Min(entries[e].dist, e - b);
      r := e - numToMove;
      var it := e;
      while !entries[it].IsAtDesiredPosition()
        invariant e <= it < entries.Length && numToMove <= e - r && (it == e ==> numToMove == e - r)
        invariant Compacting(entries[..], it, numToMove, maxLookups, policy, committed)
        invariant Items(entries[..]) == old(Items(entries[..]))
        invariant forall j :: 0 <= j < b ==> entries[j] == old(entries[j])
        invariant forall j :: b <= j < r ==> entries[j] == Vacant()
        invariant if it == e then entries[e] == old(entries[e]) else entries[r].item == old(entries[e].item)
        decreases entries.Length - it
      {
        CompactingStep(entries[..], it, numToMove, maxLookups, policy, committed);
        ghost var t := Shifted(entries[..], it, numToMove);
        var target := it - numToMove;
        entries[target] := Entry(entries[it].dist - numToMove, entries[it].item);
        entries[it] := Vacant();
        assert entries[..] == t;
        it := it + 1;
        numToMove := Min(entries[it].dist, numToMove);
      }
      CompactingDone(entries[..], it, numToMove, maxLookups, policy, committed);
    }

    /** erase(first, last): removes exactly the values in between, closes the gap, and returns where the
        element at e went. */
    method EraseRange(b: nat, e: nat) returns (r: nat)
      requires Valid() && IsIterator(b) && IsIterator(e) && b <= e
      modifies this`numElements, Owned()
      ensures Valid() && (old(LoadOk()) ==> LoadOk())
      ensures numElements == old(numElements) - |Bag(old(entries[b..e]))|
      ensures Items(entries[..]) == Items(old(entries[..b])) + Items(old(entries[e..]))
      ensures Contents() == old(Contents()) - Keys(Bag(old(entries[b..e])))
      ensures entries[..b] == old(entries[..b])
      ensures IsIterator(r) && Items(entries[..r]) == Items(old(entries[..b]))
      ensures e == End() ==> r == End()
      ensures e < End() ==> b <= r <= e && entries[r].item == old(entries[e].item)
    {
      hide UniqueKeys, HasKey, MapOf, Keys, Items, Fits, ComputeMaxLookups;
      hide Ordered, Slotted, Homed, Chained, Compacting, Vacated;
      ghost var s := entries[..];
      if b == e {
        NothingBetween(s, b);
        RemovedRange(s, s, b, e);
        ItemsCut(s, b);
        return b;
      }
      CompactingStart(s, b, e, maxLookups, policy, committed);
      VacatedAt(s, b, e);
      VacatedItems(s, b, e);
      DestroyRange(b, e);
      FewerStillFit(old(numElements));
      ItemsOverGapSame(s, entries[..], b, e);
      if e == End() {
        SlotValue(s, maxLookups, e);
        RemovedRange(s, entries[..], b, e);
        CompactingDone(entries[..], e, Min(s[e].dist, e - b), maxLookups, policy, committed);
        return End();
      }
      r := ShiftBack(b, e);
      RemovedRange(s, entries[..], b, e);
      ItemsOverGapSame(s, entries[..], b, r);
      SlotValue(entries[..], maxLookups, r);
      SlotValue(s, maxLookups, e);
    }

    /** it = erase(it): the result is the successor, wherever it now is. */
    method EraseAt(at: nat) returns (pos: nat)
      requires Valid() && at < End() && entries[at].item.Some?
      modifies this`numElements, Owned()
      ensures Valid() && IsIterator(pos) && (old(LoadOk()) ==> LoadOk())
      ensures Items(entries[..pos]) == Items(old(entries[..at]))
      ensures Items(entries[pos..]) == Items(old(entries[at + 1..]))
      ensures Contents() == old(Contents()) - {old(entries[at].item.value.key)}
    {
      hide Valid, Contents, Items;
      Parts();
      Erase(at);
      Parts();
      pos := ToIterator(at);
      ItemsCut(entries[..], pos);
      SamePrefix(Items(entries[..pos]), Items(entries[pos..]), Items(old(entries[at + 1..])));
    }

    /** erase(const key_type &) */
    method EraseKey(key: K) returns (count: nat)
      requires Valid()
      modifies this`numElements, Owned()
      ensures Valid() && (old(LoadOk()) ==> LoadOk())
      ensures count == (if key in old(Contents()) then 1 else 0)
      ensures Contents() == old(Contents()) - {key} && numElements == old(numElements) - count
    {
      hide Ordered, Slotted, UniqueKeys, Bag, HasKey, MapOf, Fits, ComputeMaxLookups;
      var found;
      ghost var compared;
      found, compared := Find(key);
      if found == End() {
        count := 0;
      } else {
        Erase(found);
        count := 1;
      }
    }

    /** it->second = v */
    method SetValue(pos: nat, v: V)
      requires Valid() && pos < End() && entries[pos].item.Some?
      modifies Owned()
      ensures Valid() && entries[pos].item == Some(Pair(old(entries[pos].item.value.key), v))
      ensures Contents() == old(Contents())[old(entries[pos].item.value.key) := v]
    {
      hide Ordered, Homed, Chained, UniqueKeys, HasKey, MapOf, Items, ComputeMaxLookups;
      ghost var s := entries[..];
      SlotBound(pos);
      var p := entries[pos].item.value;
      var q := Pair(p.key, v);
      SameKeyKeepsOrder(s, pos, Entry(s[pos].dist, Some(q)), maxLookups, policy, committed);
      BagPut(s, pos, Entry(s[pos].dist, Some(q)));
      SwapValue(Bag(s), Bag(s[pos := Entry(s[pos].dist, Some(q))]), p, q);
      entries[pos] := Entry(entries[pos].dist, Some(q));
      assert entries[..] == s[pos := Entry(s[pos].dist, Some(q))];
    }

    method SetMaxLoadFactor(value: real)
      requires Valid() && value > 0.0
      modifies this`maxLoad
      ensures Valid() && maxLoad == value && Contents() == old(Contents())
    {
      maxLoad := value;
    }

    /** The map denoted by the slots before pos. */
    ghost function Prefix(pos: nat): map<K, V>
      requires Valid() && pos <= entries.Length
      reads this, entries, shared
    {
      ItemsCut(entries[..], pos);
      UniqueSubset(Bag(entries[..pos]), Stored());
      MapOf(Bag(entries[..pos]))
    }

    ghost function ItemAt(pos: nat): Pair<K, V>
      requires Valid() && pos < End() && IsIterator(pos)
      reads this, entries, shared
    {
      entries[pos].item.value
    }

    lemma ItemThere(pos: nat)
      requires Valid() && pos < End() && IsIterator(pos)
      ensures entries[pos].item == Some(ItemAt(pos))
    {
    }

    lemma PrefixStart(pos: nat)
      requires Valid() && IsIterator(pos) && Items(entries[..pos]) == []
      ensures Prefix(pos) == map[]
    {
      assert |Bag(entries[..pos])| == 0;
      MapOfEmpty(Bag(entries[..pos]));
    }

    lemma PrefixStep(at: nat, pos: nat)
      requires Valid() && IsIterator(at) && at < End() && IsIterator(pos)
      requires Items(entries[..pos]) == Items(entries[..at]) + entries[at].One()
      ensures Prefix(pos) == Prefix(at)[ItemAt(at).key := ItemAt(at).val] && ItemAt(at).key !in Prefix(at)
    {
      hide UniqueKeys, HasKey, MapOf, Items, Homed, Chained;
      var b, p := Bag(entries[..at]), ItemAt(at);
      assert Bag(entries[..pos]) == b + multiset{p};
      PrefixFresh(entries[..], at);
      ItemsCut(entries[..], at);
      UniqueSubset(b, Stored());
      MapOfAdd(b, p);
      MapOfAt(b, p);
    }

    lemma PrefixEnd()
      requires Valid()
      ensures Prefix(End()) == Contents()
    {
      hide UniqueKeys, HasKey, MapOf, Homed, Chained;
      ItemsOverGap(entries[..], End(), entries.Length);
      assert entries[..entries.Length] == entries[..];
    }

    /** What is stored cannot live in this many buckets, or exceeds the load factor there. */
    ghost predicate Outgrown(buckets: nat, lookups: nat)
      reads this, entries
    {
      NoRoomAt(buckets, lookups, Stored()) || !Fits(numElements, buckets, maxLoad)
    }

    /** Since the table had `count` elements in the buffer `first`, that buffer was replaced exactly if something was
        added and what is stored now has outgrown it. */
    ghost predicate GrewOnlyAsNeeded(first: array<Entry<K, V>>, count: nat, slots: nat, lookups: nat)
      reads this, entries
    {
      && numElements >= count
      && (entries == first ==> numSlotsMinusOne == slots && maxLookups == lookups)
      && (entries != first ==> numSlotsMinusOne > slots)
      && (entries != first <==> numElements > count && Outgrown(slots + 1, lookups))
    }

    /** One more element: what had outgrown the buffer still has, and so has what made this insertion grow. */
    lemma OutgrownGrows(buckets: nat, lookups: nat, before: multiset<Pair<K, V>>, count: nat, p: Pair<K, V>)
      requires maxLoad > 0.0 && Stored() == before + multiset{p} && numElements == count + 1
      ensures NoRoomAt(buckets, lookups, before) || !Fits(count, buckets, maxLoad) ==> Outgrown(buckets, lookups)
      ensures buckets == 1 || !Fits(count + 1, buckets, maxLoad) ==> Outgrown(buckets, lookups)
      ensures Overcrowded(policy, buckets, lookups, Keys(before) + {p.key}) ==> Outgrown(buckets, lookups)
    {
      hide Overcrowded, Keys, Stored, Fits;
      if Overcrowded(policy, buckets, lookups, Keys(before))
         || Overcrowded(policy, buckets, lookups, Keys(before) + {p.key}) {
        CrowdingStays(before, p, buckets, lookups);
      }
      assert |before + multiset{p}| == |before| + 1;
      if Fits(count + 1, buckets, maxLoad) {
        FitsMonotone(count, count + 1, buckets, buckets, maxLoad);
      }
    }

    /** What the size of the buffer says about the other fields. */
    lemma Sizes()
      requires Valid()
      ensures entries == shared <==> committed == 0
      ensures if committed == 0 then numSlotsMinusOne == 0 else committed == numSlotsMinusOne + 1
      ensures numSlotsMinusOne == 0 ==> numElements == 0
      ensures committed != 0 ==> maxLookups == ComputeMaxLookups(committed)
    {
    }

    /** Without elements a rehash ends on exactly the size it was asked for. */
    lemma EmptyLands(buckets: nat)
      requires Valid() && numElements == 0
      ensures policy.Lawful()
      ensures buckets >= 1 && LandsOn(buckets) ==> numSlotsMinusOne + 1 == buckets
      ensures numSlotsMinusOne > 0 ==> maxLookups == ComputeMaxLookups(numSlotsMinusOne + 1)
    {
      if buckets >= 1 {
        NothingCrowds(buckets);
      }
    }

    lemma GrewTo(first: array<Entry<K, V>>, slots: nat, lookups: nat)
      requires GrewOnlyAsNeeded(first, 0, slots, lookups)
      ensures numSlotsMinusOne >= slots
      ensures numElements > 0 ==> (numSlotsMinusOne == slots <==> !Outgrown(slots + 1, lookups))
      ensures numElements == 0 ==> entries == first
    {
    }

    /** With room reserved for them all, only overcrowded keys outgrow a buffer. */
    lemma GrewForKeys(first: array<Entry<K, V>>, count: nat, slots: nat, lookups: nat, room: nat)
      requires Valid() && GrewOnlyAsNeeded(first, count, slots, lookups) && count <= numElements <= room
      requires room > 0 ==> slots != 0 && Fits(room, slots + 1, maxLoad)
      ensures slots > 0 ==> (entries != first <==> Overcrowded(policy, slots + 1, lookups, Keys(Stored())))
      ensures slots == 0 ==> entries == first && !Overcrowded(policy, committed, maxLookups, Keys(Stored()))
    {
      hide Overcrowded, Keys, Ordered, Slotted, UniqueKeys, ComputeMaxLookups, Fits;
      if room > 0 {
        FitsMonotone(numElements, room, slots + 1, slots + 1, maxLoad);
      }
      if entries == first {
        NeverCrowded();
      }
    }

    lemma NotOutgrown()
      requires Valid() && numSlotsMinusOne != 0 && Fits(numElements, numSlotsMinusOne + 1, maxLoad)
      ensures !Outgrown(numSlotsMinusOne + 1, maxLookups)
    {
      hide Overcrowded, Keys, Stored, Ordered, Slotted, UniqueKeys, ComputeMaxLookups;
      NeverCrowded();
    }

    /** insert */
    method Insert(p: Pair<K, V>,
                  ghost first: array<Entry<K, V>>, ghost count: nat, ghost slots: nat, ghost lookups: nat)
      returns (pos: nat, inserted: bool)
      requires Valid() && GrewOnlyAsNeeded(first, count, slots, lookups)
      modifies this, Owned()
      ensures Valid() && maxLoad == old(maxLoad) && (old(LoadOk()) ==> LoadOk())
      ensures inserted <==> p.key !in old(Contents())
      ensures Contents() == if inserted then old(Contents())[p.key := p.val] else old(Contents())
      ensures pos < End() && entries[pos].item == Some(Pair(p.key, Contents()[p.key]))
      ensures entries == old(entries) || fresh(entries)
      ensures numElements == old(numElements) + (if inserted then 1 else 0)
      ensures GrewOnlyAsNeeded(first, count, slots, lookups)
    {
      hide Ordered, Slotted, UniqueKeys, Stored, Contents, LoadOk, Fits, NoRoomAt, Overcrowded, Keys;
      ghost var before, n := Stored(), numElements;
      pos, inserted := Emplace(p);
      if inserted {
        OutgrownGrows(slots + 1, lookups, before, n, p);
        if entries == first {
          NotOutgrown();
        }
      }
    }

    /** insert(first, last) over another table: keys already present keep their values. */
    method InsertFrom(other: Table<K, V>)
      requires Valid() && other.Valid() && other != this && other.shared == shared && other.entries !in Owned()
      modifies this, Owned()
      ensures Valid() && maxLoad == old(maxLoad) && (old(LoadOk()) ==> LoadOk())
      ensures Contents() == old(other.Contents()) + old(Contents())
      ensures entries == old(entries) || fresh(entries)
      ensures GrewOnlyAsNeeded(old(entries), old(numElements), old(numSlotsMinusOne), old(maxLookups))
    {
      hide Valid, Stored, Contents, Prefix, ItemAt, MapOf, Items, LoadOk, Outgrown;
      ghost var s := other.entries[..];
      ghost var first, count, slots, lookups := entries, numElements, numSlotsMinusOne, maxLookups;
      var it := other.Begin();
      other.PrefixStart(it);
      while it != other.End()
        invariant Valid() && maxLoad == old(maxLoad) && (old(LoadOk()) ==> LoadOk())
        invariant other.Valid() && other.IsIterator(it) && other.entries[..] == s
        invariant entries == old(entries) || fresh(entries)
        invariant GrewOnlyAsNeeded(first, count, slots, lookups)
        invariant Contents() == other.Prefix(it) + old(Contents())
        decreases other.End() - it
      {
        ghost var at, p := it, other.ItemAt(it);
        other.ItemThere(it);
        var _, inserted := Insert(other.entries[it].item.value, first, count, slots, lookups);
        it := other.Next(it);
        other.PrefixStep(at, it);
      }
      other.PrefixEnd();
    }
  }
}
