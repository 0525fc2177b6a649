/** The entries buffer seen as a sequence: its in-order items, the collection they form, and the map they denote. */
module Slots {

  datatype Option<+T> = None | Some(value: T)

  datatype Pair<+K, +V> = Pair(key: K, val: V)

  /** One slot: the signed displacement, and the value when the memory holds a constructed one. */
  datatype Entry<+K, +V> = Entry(dist: int, item: Option<Pair<K, V>>) {
    predicate HasValue() {
      dist >= 0
    }

    predicate IsEmpty() {
      dist < 0
    }

    predicate IsAtDesiredPosition() {
      dist <= 0
    }

    ghost function One(): seq<Pair<K, V>> {
      if item.Some? then [item.value] else []
    }
  }

  function Vacant<K, V>(): Entry<K, V> {
    Entry(-1, None)
  }

  /** The end marker has displacement 0 and never holds a value. */
  function Sentinel<K, V>(): Entry<K, V> {
    Entry(0, None)
  }

  /** The stored pairs in slot order. */
  ghost function Items<K, V>(s: seq<Entry<K, V>>): seq<Pair<K, V>> {
    if |s| == 0 then [] else s[0].One() + Items(s[1..])
  }

  /** The stored pairs, whatever slots they are in. */
  ghost function Bag<K, V>(s: seq<Entry<K, V>>): multiset<Pair<K, V>> {
    multiset(Items(s))
  }

  lemma {:induction false} ItemsConcat<K, V>(a: seq<Entry<K, V>>, b: seq<Entry<K, V>>)
    ensures Items(a + b) == Items(a) + Items(b)
  {
    if |a| == 0 {
      assert a + b == b;
    } else {
      assert (a + b)[1..] == a[1..] + b;
      ItemsConcat(a[1..], b);
    }
  }

  lemma ItemsSplit<K, V>(s: seq<Entry<K, V>>, i: nat)
    requires i < |s|
    ensures Items(s) == Items(s[..i]) + s[i].One() + Items(s[i + 1..])
  {
    assert s == s[..i] + s[i..];
    ItemsConcat(s[..i], s[i..]);
    assert s[i..][1..] == s[i + 1..];
  }

  lemma ItemsCut<K, V>(s: seq<Entry<K, V>>, i: nat)
    requires i <= |s|
    ensures Items(s) == Items(s[..i]) + Items(s[i..])
  {
    assert s == s[..i] + s[i..];
    ItemsConcat(s[..i], s[i..]);
  }

  lemma EmptyPrefix<K, V>(s: seq<Entry<K, V>>)
    ensures Bag(s[..0]) == multiset{}
  {
  }

  lemma BagSnoc<K, V>(s: seq<Entry<K, V>>, i: nat)
    requires i < |s|
    ensures Bag(s[..i + 1]) == Bag(s[..i]) + multiset(s[i].One())
    ensures Bag(s[..i + 1]) <= Bag(s)
  {
    ItemsSnoc(s, i);
    ItemsCut(s, i + 1);
  }

  lemma ItemsSnoc<K, V>(s: seq<Entry<K, V>>, i: nat)
    requires i < |s|
    ensures Items(s[..i + 1]) == Items(s[..i]) + s[i].One()
  {
    assert s[..i + 1] == s[..i] + [s[i]];
    ItemsConcat(s[..i], [s[i]]);
  }

  /** A run without values contributes nothing. */
  lemma {:induction false} ItemsNone<K, V>(s: seq<Entry<K, V>>)
    requires forall i :: 0 <= i < |s| ==> s[i].item.None?
    ensures Items(s) == []
  {
    if |s| != 0 {
      ItemsNone(s[1..]);
    }
  }

  /** A run full of values contributes one item per slot. */
  lemma {:induction false} ItemsFull<K, V>(s: seq<Entry<K, V>>)
    requires forall i :: 0 <= i < |s| ==> s[i].item.Some?
    ensures |Items(s)| == |s|
  {
    if |s| != 0 {
      ItemsFull(s[1..]);
    }
  }

  lemma ItemsOverGap<K, V>(s: seq<Entry<K, V>>, a: nat, b: nat)
    requires a <= b <= |s|
    requires forall i :: a <= i < b ==> s[i].item.None?
    ensures Items(s[..b]) == Items(s[..a])
  {
    assert s[..b] == s[..a] + s[a..b];
    ItemsConcat(s[..a], s[a..b]);
    ItemsNone(s[a..b]);
  }

  lemma ItemsOverGapSame<K, V>(s: seq<Entry<K, V>>, t: seq<Entry<K, V>>, a: nat, b: nat)
    requires a <= b <= |t| && a <= |s|
    requires forall i :: 0 <= i < a ==> t[i] == s[i]
    requires forall i :: a <= i < b ==> t[i].item.None?
    ensures t[..a] == s[..a] && Items(t[..b]) == Items(s[..a])
  {
    ItemsOverGap(t, a, b);
    assert t[..a] == s[..a];
  }

  /** Overwriting one slot exchanges its item in the collection. */
  lemma BagPut<K, V>(s: seq<Entry<K, V>>, i: nat, e: Entry<K, V>)
    requires i < |s|
    ensures Bag(s[i := e]) + multiset(s[i].One()) == Bag(s) + multiset(e.One())
  {
    var t := s[i := e];
    ItemsSplit(s, i);
    ItemsSplit(t, i);
    assert t[..i] == s[..i] && t[i + 1..] == s[i + 1..];
  }

  /** Moving an item back over slots without values keeps the order of the items. */
  lemma ItemsMove<K, V>(s: seq<Entry<K, V>>, t: nat, p: nat, e: Entry<K, V>)
    requires t < p < |s| && e.item == s[p].item
    requires forall j :: t <= j < p ==> s[j].item.None?
    ensures Items(s[t := e][p := Vacant()]) == Items(s)
  {
    hide Items;
    var r := s[t := e][p := Vacant()];
    ItemsSplit(s, p);
    ItemsSplit(s[..p], t);
    ItemsSplit(r, p);
    ItemsSplit(r[..p], t);
    assert r[..p][..t] == s[..p][..t] && r[p + 1..] == s[p + 1..];
    ItemsNone(s[..p][t + 1..]);
    ItemsNone(r[..p][t + 1..]);
  }

  /** The collection is exactly what the slots hold. */
  lemma {:induction false} InBag<K, V>(s: seq<Entry<K, V>>, p: Pair<K, V>)
    ensures p in Bag(s) <==> exists i :: 0 <= i < |s| && s[i].item == Some(p)
  {
    if |s| != 0 {
      InBag(s[1..], p);
      if p in Bag(s[1..]) {
        var i :| 0 <= i < |s[1..]| && s[1..][i].item == Some(p);
        assert s[i + 1].item == Some(p);
      }
      if i :| 0 <= i < |s| && s[i].item == Some(p) {
        if i > 0 {
          assert s[1..][i - 1].item == Some(p);
        }
      }
    }
  }

  lemma SamePrefix<T>(a: seq<T>, b: seq<T>, c: seq<T>)
    requires a + b == a + c
    ensures b == c
  {
    assert b == (a + b)[|a|..];
    assert c == (a + c)[|a|..];
  }

  /** No key is stored twice. */
  ghost predicate UniqueKeys<K, V>(b: multiset<Pair<K, V>>) {
    && (forall p, q :: p in b && q in b && p.key == q.key ==> p == q)
    && (forall p :: p in b ==> b[p] == 1)
  }

  ghost predicate HasKey<K, V>(b: multiset<Pair<K, V>>, k: K) {
    exists p :: p in b && p.key == k
  }

  /** Two different slots never hold the same key. */
  lemma SlotsDistinct<K, V>(s: seq<Entry<K, V>>, i: nat, j: nat)
    requires i < |s| && j < |s| && s[i].item.Some? && s[j].item.Some?
    requires UniqueKeys(Bag(s))
    requires s[i].item.value.key == s[j].item.value.key
    ensures i == j
  {
    if i > j {
      SlotsDistinct(s, j, i);
    } else if i < j {
      ItemsSplit(s, j);
      ItemsSplit(s[..j], i);
    }
  }

  ghost function Keys<K, V>(b: multiset<Pair<K, V>>): set<K> {
    set p | p in b :: p.key
  }

  ghost function ValueOf<K, V>(b: multiset<Pair<K, V>>, k: K): V
    requires k in Keys(b)
  {
    var p :| p in b && p.key == k;
    p.val
  }

  /** The abstract map a collection with unique keys denotes. */
  ghost function MapOf<K, V>(b: multiset<Pair<K, V>>): map<K, V>
    requires UniqueKeys(b)
  {
    map k | k in Keys(b) :: ValueOf(b, k)
  }

  lemma MapOfAt<K, V>(b: multiset<Pair<K, V>>, p: Pair<K, V>)
    requires UniqueKeys(b)
    ensures p in b <==> p.key in MapOf(b) && MapOf(b)[p.key] == p.val
    ensures HasKey(b, p.key) <==> p.key in MapOf(b)
  {
    if p.key in MapOf(b) && MapOf(b)[p.key] == p.val {
      var q :| q in b && q.key == p.key;
      assert MapOf(b)[q.key] == q.val;
      assert q == p;
    }
  }

  lemma UniqueAdd<K, V>(b: multiset<Pair<K, V>>, p: Pair<K, V>)
    requires UniqueKeys(b) && !HasKey(b, p.key)
    ensures UniqueKeys(b + multiset{p})
  {
    var c := b + multiset{p};
    assert p !in b;
    assert forall q :: q in c <==> q in b || q == p;
    assert forall q :: q in b ==> q.key != p.key;
  }

  lemma UniqueDrop<K, V>(b: multiset<Pair<K, V>>, p: Pair<K, V>)
    requires UniqueKeys(b + multiset{p})
    ensures UniqueKeys(b) && !HasKey(b, p.key)
  {
    var c := b + multiset{p};
    assert forall q :: q in b ==> q in c && b[q] <= c[q];
    assert c[p] == b[p] + 1;
  }

  /** What lies before slot i does not have the key of slot i. */
  lemma PrefixFresh<K, V>(s: seq<Entry<K, V>>, i: nat)
    requires i < |s| && s[i].item.Some? && UniqueKeys(Bag(s))
    ensures !HasKey(Bag(s[..i]), s[i].item.value.key)
  {
    BagSnoc(s, i);
    var b, p := Bag(s[..i]), s[i].item.value;
    assert forall q :: q in b + multiset{p} ==> q in Bag(s) && (b + multiset{p})[q] <= Bag(s)[q];
    UniqueDrop(b, p);
  }

  /** Exchanging one pair for another keeps the number of pairs. */
  lemma SameSize<K, V>(a: multiset<Pair<K, V>>, p: Pair<K, V>, b: multiset<Pair<K, V>>, q: Pair<K, V>)
    requires a + multiset{p} == b + multiset{q}
    ensures |a| == |b|
  {
    assert |a + multiset{p}| == |a| + 1;
    assert |b + multiset{q}| == |b| + 1;
  }

  lemma SubsetSize<T>(a: multiset<T>, b: multiset<T>)
    requires a <= b
    ensures |a| <= |b|
  {
    assert b == a + (b - a);
  }

  lemma Cancel<K, V>(a: multiset<Pair<K, V>>, b: multiset<Pair<K, V>>, p: Pair<K, V>)
    requires a + multiset{p} == b + multiset{p}
    ensures a == b
  {
    assert a == a + multiset{p} - multiset{p};
    assert b == b + multiset{p} - multiset{p};
  }

  lemma UniqueSubset<K, V>(a: multiset<Pair<K, V>>, b: multiset<Pair<K, V>>)
    requires a <= b && UniqueKeys(b)
    ensures UniqueKeys(a)
  {
    assert forall p :: p in a ==> p in b && a[p] <= b[p];
  }

  lemma MapOfAdd<K, V>(b: multiset<Pair<K, V>>, p: Pair<K, V>)
    requires UniqueKeys(b) && !HasKey(b, p.key)
    ensures UniqueKeys(b + multiset{p})
    ensures MapOf(b + multiset{p}) == MapOf(b)[p.key := p.val]
  {
    UniqueAdd(b, p);
    var c := b + multiset{p};
    forall k | k in MapOf(c) ensures k in MapOf(b)[p.key := p.val] && MapOf(c)[k] == MapOf(b)[p.key := p.val][k] {
      var q := Pair(k, MapOf(c)[k]);
      MapOfAt(c, q);
      MapOfAt(b, q);
      MapOfAt(c, p);
    }
    forall k | k in MapOf(b)[p.key := p.val] ensures k in MapOf(c) {
      MapOfAt(c, Pair(k, MapOf(b)[p.key := p.val][k]));
      MapOfAt(b, Pair(k, MapOf(b)[p.key := p.val][k]));
    }
  }

  lemma MapOfRemove<K, V>(b: multiset<Pair<K, V>>, p: Pair<K, V>)
    requires UniqueKeys(b) && p in b
    ensures UniqueKeys(b - multiset{p}) && !HasKey(b - multiset{p}, p.key)
    ensures MapOf(b - multiset{p}) == MapOf(b) - {p.key}
  {
    hide MapOf, UniqueKeys, HasKey;
    var c := b - multiset{p};
    assert b == c + multiset{p};
    UniqueDrop(c, p);
    MapOfAdd(c, p);
    MapOfAt(c, p);
  }

  lemma MapOfWithout<K, V>(a: multiset<Pair<K, V>>, c: multiset<Pair<K, V>>)
    requires UniqueKeys(a + c)
    ensures UniqueKeys(a) && MapOf(a) == MapOf(a + c) - Keys(c)
  {
    UniqueSubset(a, a + c);
    forall k | k in MapOf(a) ensures k in MapOf(a + c) - Keys(c) && MapOf(a)[k] == MapOf(a + c)[k] {
      var q := Pair(k, MapOf(a)[k]);
      MapOfAt(a, q);
      assert (a + c)[q] == a[q] + c[q];
      MapOfAt(a + c, q);
    }
    forall k | k in MapOf(a + c) - Keys(c) ensures k in MapOf(a) {
      var q := Pair(k, MapOf(a + c)[k]);
      MapOfAt(a + c, q);
      MapOfAt(a, q);
    }
  }

  /** What remains when the items of slots b..e are gone. */
  lemma RemovedRange<K, V>(s: seq<Entry<K, V>>, t: seq<Entry<K, V>>, b: nat, e: nat)
    requires b <= e <= |s| && UniqueKeys(Bag(s)) && Bag(t) + Bag(s[b..e]) == Bag(s)
    ensures UniqueKeys(Bag(t)) && MapOf(Bag(t)) == MapOf(Bag(s)) - Keys(Bag(s[b..e]))
    ensures |Bag(t)| == |Bag(s)| - |Bag(s[b..e])|
  {
    MapOfWithout(Bag(t), Bag(s[b..e]));
    assert |Bag(t) + Bag(s[b..e])| == |Bag(t)| + |Bag(s[b..e])|;
  }

  lemma NothingBetween<K, V>(s: seq<Entry<K, V>>, b: nat)
    requires b <= |s|
    ensures Bag(s[b..b]) == multiset{}
  {
  }

  lemma ItemsSingle<K, V>(e: Entry<K, V>)
    ensures Items([e]) == e.One()
  {
    assert Items([e]) == e.One() + Items([]);
  }

  lemma RangeSnoc<K, V>(s: seq<Entry<K, V>>, b: nat, i: nat)
    requires b <= i < |s|
    ensures |Bag(s[b..i + 1])| == |Bag(s[b..i])| + |s[i].One()|
    ensures |Bag(s[b..i + 1])| <= |Bag(s)|
  {
    hide Items;
    ItemsCut(s, i + 1);
    ItemsCut(s[..i + 1], b);
    assert s[..i + 1][b..] == s[b..i + 1];
    assert s[b..i + 1] == s[b..i] + [s[i]];
    ItemsConcat(s[b..i], [s[i]]);
    ItemsSingle(s[i]);
  }

  lemma SingleSlot<K, V>(s: seq<Entry<K, V>>, i: nat)
    requires i < |s| && s[i].item.Some?
    ensures |Bag(s[i..i + 1])| == 1
    ensures Bag(s[i..i + 1]) == multiset{s[i].item.value} && Keys(Bag(s[i..i + 1])) == {s[i].item.value.key}
  {
    assert s[i..i + 1] == [s[i]];
    assert Items([s[i]]) == s[i].One() + Items([]);
  }

  /** Replacing the value of one key. */
  lemma SwapValue<K, V>(b: multiset<Pair<K, V>>, c: multiset<Pair<K, V>>, p: Pair<K, V>, q: Pair<K, V>)
    requires UniqueKeys(b) && p in b && p.key == q.key && c + multiset{p} == b + multiset{q}
    ensures UniqueKeys(c) && MapOf(c) == MapOf(b)[p.key := q.val] && |c| == |b|
  {
    hide UniqueKeys, MapOf, HasKey;
    var a := b - multiset{p};
    MapOfRemove(b, p);
    assert b == a + multiset{p};
    assert a + multiset{q} + multiset{p} == c + multiset{p};
    Cancel(c, a + multiset{q}, p);
    MapOfAdd(a, q);
    Rebound(MapOf(b), p.key, q.val);
    SameSize(c, p, b, q);
  }

  lemma Rebound<K, V>(m: map<K, V>, k: K, v: V)
    ensures (m - {k})[k := v] == m[k := v]
  {
  }

  lemma MapOfEmpty<K, V>(b: multiset<Pair<K, V>>)
    requires UniqueKeys(b)
    ensures |b| == 0 <==> MapOf(b) == map[]
  {
    if |b| != 0 {
      var p :| p in b;
      MapOfAt(b, p);
    }
  }

  /** As many keys as stored pairs. */
  lemma {:induction false} MapOfSize<K, V>(b: multiset<Pair<K, V>>)
    requires UniqueKeys(b)
    ensures |MapOf(b)| == |b|
    decreases |b|
  {
    hide MapOf, UniqueKeys, HasKey;
    if |b| == 0 {
      MapOfEmpty(b);
    } else {
      var p :| p in b;
      MapOfRemove(b, p);
      MapOfSize(b - multiset{p});
      MapOfAt(b, p);
      assert MapOf(b).Keys == MapOf(b - multiset{p}).Keys + {p.key};
    }
  }
}
