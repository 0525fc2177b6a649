/** The Robin Hood representation invariant and what each slot update does to it. */
module RobinHood {
  import opened Slots
  import opened Sizing

  /** What draining the buffer relies on: values exactly in the slots with a displacement, and the end marker. */
  ghost predicate Slotted<K, V>(s: seq<Entry<K, V>>, lookups: nat) {
    && |s| >= 1
    && s[|s| - 1] == Sentinel()
    && forall i :: 0 <= i < |s| - 1 ==>
         && -1 <= s[i].dist < lookups
         && (s[i].dist >= 0 <==> s[i].item.Some?)
  }

  /** Every displacement is the distance from the slot its key hashes to. */
  ghost predicate Homed<K(!new), V>(s: seq<Entry<K, V>>, policy: Policy<K>, size: nat) {
    forall i :: 0 <= i < |s| && s[i].item.Some? ==>
      policy.IndexForHash(s[i].item.value.key, size) + s[i].dist == i
  }

  /** Going right, a displacement rises by at most one a slot. */
  ghost predicate Chained<K, V>(s: seq<Entry<K, V>>) {
    forall i, j :: 0 <= i <= j < |s| ==> s[j].dist <= s[i].dist + (j - i)
  }

  ghost predicate Ordered<K(!new), V>(s: seq<Entry<K, V>>, lookups: nat, policy: Policy<K>, size: nat) {
    && Slotted(s, lookups)
    && Homed(s, policy, size)
    && Chained(s)
  }

  lemma {:induction false} ChainFromNeighbours<K, V>(s: seq<Entry<K, V>>, i: nat, j: nat)
    requires i <= j < |s|
    requires forall m {:trigger s[m]} :: 0 < m < |s| ==> s[m].dist <= s[m - 1].dist + 1
    ensures s[j].dist <= s[i].dist + (j - i)
  {
    if i < j {
      ChainFromNeighbours(s, i, j - 1);
    }
  }

  /** The chain condition is a condition on neighbouring slots. */
  lemma ChainIsAdjacent<K, V>(s: seq<Entry<K, V>>)
    ensures Chained(s) <==> forall m {:trigger s[m]} :: 0 < m < |s| ==> s[m].dist <= s[m - 1].dist + 1
  {
    if forall m {:trigger s[m]} :: 0 < m < |s| ==> s[m].dist <= s[m - 1].dist + 1 {
      forall i, j | 0 <= i <= j < |s| ensures s[j].dist <= s[i].dist + (j - i) {
        ChainFromNeighbours(s, i, j);
      }
    }
  }

  lemma SlottedNonEmpty<K, V>(s: seq<Entry<K, V>>, lookups: nat)
    requires Slotted(s, lookups)
    ensures |s| >= 1
  {
  }

  lemma SlotValue<K, V>(s: seq<Entry<K, V>>, lookups: nat, i: nat)
    requires Slotted(s, lookups) && i < |s|
    ensures s[i].item.Some? <==> i < |s| - 1 && s[i].HasValue()
    ensures s[i].item.None? && i < |s| - 1 ==> s[i].dist == -1
    ensures i < |s| - 1 ==> s[i].dist < lookups
    ensures s[|s| - 1] == Sentinel()
  {
  }

  /** A buffer of vacant slots and the end marker is in order. */
  lemma EmptyOrdered<K(!new), V>(s: seq<Entry<K, V>>, lookups: nat, policy: Policy<K>, size: nat)
    requires |s| >= 1 && s[|s| - 1] == Sentinel()
    requires forall i :: 0 <= i < |s| - 1 ==> s[i] == Vacant()
    ensures Ordered(s, lookups, policy, size) && Bag(s) == multiset{} && UniqueKeys(Bag(s))
  {
    ItemsNone(s);
  }

  /** Replacing a slot by an entry at least as far from home, whose left neighbour it passed or displaced. */
  lemma PutKeepsOrder<K(!new), V>(s: seq<Entry<K, V>>, i: nat, e: Entry<K, V>,
        lookups: nat, policy: Policy<K>, size: nat)
    requires Ordered(s, lookups, policy, size) && i < |s| - 1
    requires e.item.Some? && 0 <= e.dist < lookups && s[i].dist <= e.dist
    requires policy.IndexForHash(e.item.value.key, size) + e.dist == i
    requires e.dist > 0 ==> i > 0 && e.dist <= s[i - 1].dist + 1
    ensures Ordered(s[i := e], lookups, policy, size)
  {
    var t := s[i := e];
    forall a, b | 0 <= a <= b < |t| ensures t[b].dist <= t[a].dist + (b - a) {
      if b == i && a < i {
        assert s[i - 1].dist <= s[a].dist + (i - 1 - a);
      } else {
        assert s[b].dist <= s[a].dist + (b - a);
      }
    }
  }

  lemma SameKeyKeepsOrder<K(!new), V>(s: seq<Entry<K, V>>, i: nat, e: Entry<K, V>,
        lookups: nat, policy: Policy<K>, size: nat)
    requires Ordered(s, lookups, policy, size) && i < |s| - 1
    requires s[i].item.Some? && e.item.Some? && e.dist == s[i].dist && e.item.value.key == s[i].item.value.key
    ensures Slotted(s[i := e], lookups) && Ordered(s[i := e], lookups, policy, size)
  {
    assert forall j :: 0 <= j < |s| ==> s[i := e][j].dist == s[j].dist;
  }

  /** An element displaced by m has the m slots before it occupied. */
  lemma RunOccupied<K, V>(s: seq<Entry<K, V>>, j: nat, lookups: nat)
    requires Slotted(s, lookups) && Chained(s) && j < |s| - 1 && 0 <= s[j].dist <= j
    ensures |Bag(s)| > s[j].dist
  {
    var a := j - s[j].dist;
    forall i | a <= i <= j ensures s[i].item.Some? {
      assert s[j].dist <= s[i].dist + (j - i);
    }
    ItemsCut(s, j + 1);
    ItemsCut(s[..j + 1], a);
    ItemsFull(s[..j + 1][a..]);
  }

  /** Where a search stops short, the key is in no slot. */
  lemma StopProvesAbsence<K(!new), V>(s: seq<Entry<K, V>>, k: K, pos: nat, lookups: nat, policy: Policy<K>, size: nat)
    requires Ordered(s, lookups, policy, size)
    requires policy.IndexForHash(k, size) <= pos < |s|
    requires s[pos].dist < pos - policy.IndexForHash(k, size)
    requires forall i :: policy.IndexForHash(k, size) <= i < pos && s[i].item.Some? ==> s[i].item.value.key != k
    ensures !HasKey(Bag(s), k)
  {
    var home := policy.IndexForHash(k, size);
    forall p | p in Bag(s) ensures p.key != k {
      InBag(s, p);
      var j :| 0 <= j < |s| && s[j].item == Some(p);
      assert pos <= j ==> s[j].dist <= s[pos].dist + (j - pos);
    }
  }

  /** The state between two moves of an erase: order holds left of q and from q on; the m slots before q
      are vacant, and moving q by m puts it in order. */
  ghost predicate Compacting<K(!new), V>(s: seq<Entry<K, V>>, q: nat, m: int,
        lookups: nat, policy: Policy<K>, size: nat)
  {
    && Slotted(s, lookups)
    && Homed(s, policy, size)
    && q < |s|
    && (forall i, j :: 0 <= i <= j < q ==> s[j].dist <= s[i].dist + (j - i))
    && (forall i, j :: q <= i <= j < |s| ==> s[j].dist <= s[i].dist + (j - i))
    && (s[q].dist > 0 ==>
          && 1 <= m <= s[q].dist
          && m <= q
          && (forall j :: q - m <= j < q ==> s[j] == Vacant())
          && (m == s[q].dist || (q > m && s[q].dist - m <= s[q - m - 1].dist + 1)))
  }

  lemma CompactingDone<K(!new), V>(s: seq<Entry<K, V>>, q: nat, m: int, lookups: nat, policy: Policy<K>, size: nat)
    requires Compacting(s, q, m, lookups, policy, size) && s[q].dist <= 0
    ensures Slotted(s, lookups) && Ordered(s, lookups, policy, size)
  {
    forall i, j | 0 <= i <= j < |s| ensures s[j].dist <= s[i].dist + (j - i) {
      if i < q <= j {
        assert s[j].dist <= s[q].dist + (j - q);
        assert s[i].dist >= -1;
      }
    }
  }

  ghost function Shifted<K, V>(s: seq<Entry<K, V>>, q: nat, m: int): seq<Entry<K, V>>
    requires 1 <= m <= q < |s|
  {
    s[q - m := Entry(s[q].dist - m, s[q].item)][q := Vacant()]
  }

  lemma ShiftKeepsSlots<K(!new), V>(s: seq<Entry<K, V>>, q: nat, m: int, lookups: nat, policy: Policy<K>, size: nat)
    requires Slotted(s, lookups) && Homed(s, policy, size) && q < |s| - 1 && 1 <= m <= s[q].dist && m <= q
    ensures Slotted(Shifted(s, q, m), lookups) && Homed(Shifted(s, q, m), policy, size)
  {
    var e := Entry(s[q].dist - m, s[q].item);
    var t := s[q - m := e];
    assert Slotted(t, lookups);
    assert Homed(t, policy, size);
  }

  lemma ShiftKeepsLeftOrder<K, V>(s: seq<Entry<K, V>>, q: nat, m: int)
    requires 1 <= m <= q < |s| && m <= s[q].dist
    requires forall i, j :: 0 <= i <= j < q ==> s[j].dist <= s[i].dist + (j - i)
    requires forall i :: 0 <= i < q ==> s[i].dist >= -1
    requires forall j :: q - m <= j < q ==> s[j].dist == -1
    requires m == s[q].dist || (q > m && s[q].dist - m <= s[q - m - 1].dist + 1)
    ensures forall i, j :: 0 <= i <= j < q + 1 ==> Shifted(s, q, m)[j].dist <= Shifted(s, q, m)[i].dist + (j - i)
  {
    var t := Shifted(s, q, m);
    forall i, j | 0 <= i <= j < q + 1 ensures t[j].dist <= t[i].dist + (j - i) {
      if j == q - m && i < j {
        assert m != s[q].dist ==> s[q - m - 1].dist <= s[i].dist + (q - m - 1 - i);
      } else if j != q - m && i != q - m && j < q {
        assert s[j].dist <= s[i].dist + (j - i);
      }
    }
  }

  lemma ShiftKeepsRightOrder<K, V>(s: seq<Entry<K, V>>, q: nat, m: int)
    requires 1 <= m <= q < |s|
    requires forall i, j :: q <= i <= j < |s| ==> s[j].dist <= s[i].dist + (j - i)
    ensures Shifted(s, q, m) == s[q - m := Entry(s[q].dist - m, s[q].item)][q := Vacant()]
    ensures |Shifted(s, q, m)| == |s| && forall i :: q < i < |s| ==> Shifted(s, q, m)[i] == s[i]
    ensures forall i, j :: q + 1 <= i <= j < |s| ==> Shifted(s, q, m)[j].dist <= Shifted(s, q, m)[i].dist + (j - i)
  {
  }

  lemma ShiftOpensNext<K, V>(s: seq<Entry<K, V>>, q: nat, m: int)
    requires 1 <= m <= q < |s| - 1 && m <= s[q].dist && s[q + 1].dist <= s[q].dist + 1
    requires forall j :: q - m <= j < q ==> s[j] == Vacant()
    ensures var t, k := Shifted(s, q, m), Min(s[q + 1].dist, m);
            && (forall j :: q - m < j <= q ==> t[j] == Vacant())
            && (s[q + 1].dist > 0 ==>
                  && t[q + 1] == s[q + 1]
                  && 1 <= k <= s[q + 1].dist && k <= m
                  && (k == s[q + 1].dist || s[q + 1].dist - k <= t[q + 1 - k - 1].dist + 1))
  {
  }

  lemma CompactingStep<K(!new), V>(s: seq<Entry<K, V>>, q: nat, m: int, lookups: nat, policy: Policy<K>, size: nat)
    requires Compacting(s, q, m, lookups, policy, size) && s[q].dist > 0
    ensures q + 1 < |s| && 1 <= m <= q
    ensures Compacting(Shifted(s, q, m), q + 1, Min(s[q + 1].dist, m), lookups, policy, size)
    ensures Items(Shifted(s, q, m)) == Items(s)
    ensures s[q - m] == Vacant()
  {
    hide Items, Homed, Shifted;
    ItemsMove(s, q - m, q, Entry(s[q].dist - m, s[q].item));
    ShiftKeepsSlots(s, q, m, lookups, policy, size);
    ShiftKeepsLeftOrder(s, q, m);
    ShiftKeepsRightOrder(s, q, m);
    ShiftOpensNext(s, q, m);
  }

  /** Slots b..e lose their values. */
  ghost function Vacated<K, V>(s: seq<Entry<K, V>>, b: nat, e: nat): seq<Entry<K, V>>
    requires b <= e <= |s|
  {
    s[..b] + seq(e - b, _ => Vacant()) + s[e..]
  }

  lemma VacatedItems<K, V>(s: seq<Entry<K, V>>, b: nat, e: nat)
    requires b <= e <= |s|
    ensures Items(Vacated(s, b, e)) == Items(s[..b]) + Items(s[e..])
    ensures Bag(Vacated(s, b, e)) + Bag(s[b..e]) == Bag(s)
  {
    hide Items;
    var gap := seq(e - b, _ => Vacant<K, V>());
    ItemsConcat(s[..b] + gap, s[e..]);
    ItemsConcat(s[..b], gap);
    ItemsNone(gap);
    ItemsCut(s, e);
    ItemsCut(s[..e], b);
    assert s[..e][..b] == s[..b] && s[..e][b..] == s[b..e];
  }

  /** Emptying a range leaves a state from which the first shift is the lesser of the displacement at e and
      the length of the range. */
  lemma VacatedAt<K, V>(s: seq<Entry<K, V>>, b: nat, e: nat)
    requires b <= e <= |s|
    ensures |Vacated(s, b, e)| == |s|
    ensures forall i :: 0 <= i < b || e <= i < |s| ==> Vacated(s, b, e)[i] == s[i]
    ensures forall i :: b <= i < e ==> Vacated(s, b, e)[i] == Vacant()
  {
  }

  lemma CompactingStart<K(!new), V>(s: seq<Entry<K, V>>, b: nat, e: nat, lookups: nat, policy: Policy<K>, size: nat)
    requires Ordered(s, lookups, policy, size) && b < e < |s|
    ensures Compacting(Vacated(s, b, e), e, Min(s[e].dist, e - b), lookups, policy, size)
  {
    hide Vacated;
    var t := Vacated(s, b, e);
    VacatedAt(s, b, e);
    forall i, j | 0 <= i <= j < e ensures t[j].dist <= t[i].dist + (j - i) {
      assert s[j].dist <= s[i].dist + (j - i);
    }
    forall i, j | e <= i <= j < |t| ensures t[j].dist <= t[i].dist + (j - i) {
      assert s[j].dist <= s[i].dist + (j - i);
    }
    if s[e].dist > 0 {
      assert e < |s| - 1 && s[e].item.Some?;
      if b > 0 {
        assert s[e].dist <= s[b - 1].dist + (e - (b - 1));
      }
    }
  }
}
