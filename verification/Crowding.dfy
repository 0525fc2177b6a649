/** When keys do not fit a bucket count under the probe bound: a condition on the keys alone, whatever slots
    they are in and in whatever order they came. */
module Crowding {
  import opened Slots
  import opened Sizing
  import opened RobinHood

  /** The keys whose home lies between a and h. */
  ghost function HomesIn<K(!new)>(policy: Policy<K>, size: nat, ks: set<K>, a: nat, h: nat): set<K> {
    set k | k in ks && a <= policy.IndexForHash(k, size) <= h
  }

  /** The homes a..h and the lookups - 1 slots after them are fewer than the keys that must go there. */
  ghost predicate WindowFull<K(!new)>(policy: Policy<K>, size: nat, lookups: nat, ks: set<K>, a: nat, h: nat) {
    a <= h && |HomesIn(policy, size, ks, a, h)| > h - a + lookups
  }

  ghost predicate Overcrowded<K(!new)>(policy: Policy<K>, size: nat, lookups: nat, ks: set<K>) {
    exists a: nat, h: nat :: WindowFull(policy, size, lookups, ks, a, h)
  }

  lemma SmallerSet<T>(a: set<T>, b: set<T>)
    requires a <= b
    ensures |a| <= |b|
  {
    assert b == a + (b - a);
  }

  /** More keys are never less crowded. */
  lemma CrowdingGrows<K(!new)>(policy: Policy<K>, size: nat, lookups: nat, ks: set<K>, ls: set<K>)
    requires ks <= ls && Overcrowded(policy, size, lookups, ks)
    ensures Overcrowded(policy, size, lookups, ls)
  {
    var a: nat, h: nat :| WindowFull(policy, size, lookups, ks, a, h);
    SmallerSet(HomesIn(policy, size, ks, a, h), HomesIn(policy, size, ls, a, h));
    assert WindowFull(policy, size, lookups, ls, a, h);
  }

  lemma EmptyHasRoom<K(!new)>(policy: Policy<K>, size: nat, lookups: nat, ks: set<K>)
    requires ks == {}
    ensures !Overcrowded(policy, size, lookups, ks)
  {
    forall a: nat, h: nat ensures !WindowFull(policy, size, lookups, ks, a, h) {
      assert HomesIn(policy, size, ks, a, h) == {};
    }
  }

  lemma KeysAdd<K, V>(b: multiset<Pair<K, V>>, p: Pair<K, V>)
    ensures Keys(b + multiset{p}) == Keys(b) + {p.key}
  {
    forall k ensures k in Keys(b + multiset{p}) <==> k in Keys(b) + {p.key} {
      if k in Keys(b) {
        var q :| q in b && q.key == k;
        assert q in b + multiset{p};
      }
      if k in Keys(b + multiset{p}) {
        var q :| q in b + multiset{p} && q.key == k;
        assert q in b || q == p;
      }
      assert p in b + multiset{p};
    }
  }

  /** Slots hold no more keys than there are slots. */
  lemma {:induction false} KeysBound<K, V>(s: seq<Entry<K, V>>)
    ensures |Keys(Bag(s))| <= |s|
  {
    if |s| == 0 {
      assert Keys(Bag(s)) == {};
    } else {
      var t := s[..|s| - 1];
      KeysBound(t);
      BagSnoc(s, |s| - 1);
      assert s[..|s| - 1 + 1] == s;
      if s[|s| - 1].item.Some? {
        KeysAdd(Bag(t), s[|s| - 1].item.value);
      } else {
        assert Bag(s) == Bag(t);
      }
    }
  }

  /** Unless slots are empty, they hold as many keys as there are slots. */
  lemma KeysFull<K, V>(s: seq<Entry<K, V>>)
    requires UniqueKeys(Bag(s)) && forall i :: 0 <= i < |s| ==> s[i].item.Some?
    ensures |Keys(Bag(s))| == |s|
  {
    ItemsFull(s);
    MapOfSize(Bag(s));
    assert MapOf(Bag(s)).Keys == Keys(Bag(s));
  }

  lemma KeyAt<K, V>(s: seq<Entry<K, V>>, k: K)
    ensures k in Keys(Bag(s)) <==> exists i :: 0 <= i < |s| && s[i].item.Some? && s[i].item.value.key == k
  {
    if k in Keys(Bag(s)) {
      var p :| p in Bag(s) && p.key == k;
      InBag(s, p);
    }
    if i :| 0 <= i < |s| && s[i].item.Some? && s[i].item.value.key == k {
      InBag(s, s[i].item.value);
    }
  }

  /** A buffer in order is never overcrowded: the keys with homes in a..h sit in the slots a..h + lookups - 1. */
  lemma OrderedHasRoom<K(!new), V>(s: seq<Entry<K, V>>, lookups: nat, policy: Policy<K>, size: nat)
    requires Ordered(s, lookups, policy, size)
    ensures !Overcrowded(policy, size, lookups, Keys(Bag(s)))
  {
    forall a: nat, h: nat ensures !WindowFull(policy, size, lookups, Keys(Bag(s)), a, h) {
      WindowHasRoom(s, lookups, policy, size, a, h);
    }
  }

  lemma WindowHasRoom<K(!new), V>(s: seq<Entry<K, V>>, lookups: nat, policy: Policy<K>, size: nat, a: nat, h: nat)
    requires Ordered(s, lookups, policy, size)
    ensures !WindowFull(policy, size, lookups, Keys(Bag(s)), a, h)
  {
    if a <= h {
      var from, to := Min(a, |s|), Min(h + lookups, |s|);
      if from <= to {
        var part := s[from..to];
        forall k | k in HomesIn(policy, size, Keys(Bag(s)), a, h) ensures k in Keys(Bag(part)) {
          KeyAt(s, k);
          var i :| 0 <= i < |s| && s[i].item.Some? && s[i].item.value.key == k;
          assert a <= i < h + lookups;
          assert part[i - from] == s[i];
          KeyAt(part, k);
        }
        SmallerSet(HomesIn(policy, size, Keys(Bag(s)), a, h), Keys(Bag(part)));
        KeysBound(part);
      }
    }
  }

  /** Where the run of occupied slots that ends at j begins. */
  lemma {:induction false} RunStart<K, V>(s: seq<Entry<K, V>>, j: nat) returns (a: nat)
    requires j < |s| && s[j].item.Some?
    ensures a <= j && forall i :: a <= i <= j ==> s[i].item.Some?
    ensures a > 0 ==> s[a - 1].item.None?
  {
    if j == 0 || s[j - 1].item.None? {
      a := j;
    } else {
      a := RunStart(s, j - 1);
    }
  }

  /** Homes never fall along a run, so those of a run that starts at a and ends at j lie between a and j's. */
  lemma RunHomes<K, V>(s: seq<Entry<K, V>>, a: nat, i: nat, j: nat, lookups: nat)
    requires Slotted(s, lookups) && Chained(s) && a <= i <= j < |s| - 1 && s[i].item.Some?
    requires a > 0 ==> s[a - 1].item.None?
    requires 0 <= i - s[i].dist
    ensures a <= i - s[i].dist <= j - s[j].dist
  {
    assert s[j].dist <= s[i].dist + (j - i);
    if a > 0 {
      assert s[i].dist <= s[a - 1].dist + (i - (a - 1));
    }
  }

  lemma RunKeysIn<K(!new), V>(s: seq<Entry<K, V>>, a: nat, j: nat, ks: set<K>, h: nat,
        lookups: nat, policy: Policy<K>, size: nat)
    requires Ordered(s, lookups, policy, size) && a <= j < |s| - 1 && Keys(Bag(s)) <= ks
    requires a > 0 ==> s[a - 1].item.None?
    requires s[j].item.Some? && j - s[j].dist <= h
    ensures Keys(Bag(s[a..j + 1])) <= HomesIn(policy, size, ks, a, h) && Keys(Bag(s[a..j + 1])) <= Keys(Bag(s))
  {
    hide Bag, Keys, Chained;
    var part := s[a..j + 1];
    forall k | k in Keys(Bag(part)) ensures k in HomesIn(policy, size, ks, a, h) && k in Keys(Bag(s)) {
      KeyAt(part, k);
      var i :| 0 <= i < |part| && part[i].item.Some? && part[i].item.value.key == k;
      assert s[a + i] == part[i];
      KeyAt(s, k);
      RunHomes(s, a, a + i, j, lookups);
    }
  }

  /** A carried element that has to pass a slot at distance lookups - 1 from its own home has no place: the run
      up to that slot and the element itself overcrowd the homes they share. */
  lemma FullSlotCrowds<K(!new), V>(s: seq<Entry<K, V>>, j: nat, c: Pair<K, V>,
        lookups: nat, policy: Policy<K>, size: nat)
    requires Ordered(s, lookups, policy, size) && lookups >= 1 && j < |s| - 1
    requires s[j].dist >= lookups - 1 && policy.IndexForHash(c.key, size) == j - (lookups - 1)
    requires UniqueKeys(Bag(s)) && !HasKey(Bag(s), c.key)
    ensures Overcrowded(policy, size, lookups, Keys(Bag(s)) + {c.key})
  {
    hide Bag, Chained, UniqueKeys, Homed;
    var a := RunStart(s, j);
    var h := j - (lookups - 1);
    var part := s[a..j + 1];
    var ks := Keys(Bag(s)) + {c.key};
    RunHomes(s, a, j, j, lookups);
    RunKeysIn(s, a, j, ks, h, lookups, policy, size);
    PartOf(s, a, j + 1);
    KeysFull(part);
    assert c.key !in Keys(Bag(s));
    SmallerSet(Keys(Bag(part)) + {c.key}, HomesIn(policy, size, ks, a, h));
    assert WindowFull(policy, size, lookups, ks, a, h);
  }

  lemma PartOf<K, V>(s: seq<Entry<K, V>>, a: nat, b: nat)
    requires a <= b <= |s| && UniqueKeys(Bag(s))
    ensures UniqueKeys(Bag(s[a..b]))
  {
    ItemsCut(s, b);
    ItemsCut(s[..b], a);
    assert s[..b][a..] == s[a..b];
    UniqueSubset(Bag(s[a..b]), Bag(s));
  }
}
