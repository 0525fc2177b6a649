/** Whole runs of operations against a plain map, on one table and on tables sharing the default entries. */
module Runs {
  import opened Slots
  import opened Sizing
  import opened FlatHashTable
  import opened Policies
  import FlatHashMap

  type LoadFactor = x: real | x > 0.0 witness 1.0

  datatype Op<K, V> =
    | Insert(item: Pair<K, V>)
    | Subscript(key: K, initial: V)
    | InsertOrAssign(key: K, val: V)
    | Erase(key: K)
    | Find(key: K)
    | Clear
    | Rehash(buckets: nat)
    | Reserve(size: nat)
    | ShrinkToFit
    | MaxLoadFactor(load: LoadFactor)

  datatype Outcome<V> =
    | Done
    | Inserted(isNew: bool)
    | Value(val: V)
    | Found(result: Option<V>)
    | Erased(count: nat)

  /** What each operation does to a plain map, and what it answers. */
  ghost function Expected<K, V>(m: map<K, V>, op: Op<K, V>): (map<K, V>, Outcome<V>) {
    match op
    case Insert(p) => (if p.key in m then m else m[p.key := p.val], Inserted(p.key !in m))
    case Subscript(k, v) => if k in m then (m, Value(m[k])) else (m[k := v], Value(v))
    case InsertOrAssign(k, v) => (m[k := v], Inserted(k !in m))
    case Erase(k) => (m - {k}, Erased(if k in m then 1 else 0))
    case Find(k) => (m, Found(if k in m then Some(m[k]) else None))
    case Clear => (map[], Done)
    case Rehash(_) => (m, Done)
    case Reserve(_) => (m, Done)
    case ShrinkToFit => (m, Done)
    case MaxLoadFactor(_) => (m, Done)
  }

  ghost function ExpectedRun<K, V>(m: map<K, V>, ops: seq<Op<K, V>>): (map<K, V>, seq<Outcome<V>>) {
    if |ops| == 0 then (m, [])
    else
      var (before, answers) := ExpectedRun(m, ops[..|ops| - 1]);
      var (after, answer) := Expected(before, ops[|ops| - 1]);
      (after, answers + [answer])
  }

  method Execute<K(==, !new), V>(t: Table<K, V>, op: Op<K, V>) returns (answer: Outcome<V>)
    requires t.Valid()
    modifies t, t.Owned()
    ensures t.Valid() && (t.Contents(), answer) == Expected(old(t.Contents()), op)
    ensures old(t.LoadOk()) && !op.MaxLoadFactor? ==> t.LoadOk()
    ensures t.entries == old(t.entries) || t.entries == t.shared || fresh(t.entries)
  {
    hide Table<K, V>.Valid, Table<K, V>.Contents, Table<K, V>.LoadOk;
    answer := Done;
    match op
    case Insert(p) =>
      var _, inserted := t.Emplace(p);
      answer := Inserted(inserted);
    case Subscript(k, v) =>
      var pos := FlatHashMap.Index(t, k, v);
      t.Parts();
      answer := Value(t.entries[pos].item.value.val);
    case InsertOrAssign(k, v) =>
      var _, inserted := FlatHashMap.InsertOrAssign(t, k, v);
      answer := Inserted(inserted);
    case Erase(k) =>
      var count := t.EraseKey(k);
      answer := Erased(count);
    case Find(k) =>
      var found := FlatHashMap.At(t, k);
      answer := Found(found);
    case Clear => t.Clear();
    case Rehash(n) => t.Rehash(n);
    case Reserve(n) => t.Reserve(n);
    case ShrinkToFit => t.ShrinkToFit();
    case MaxLoadFactor(load) => t.SetMaxLoadFactor(load);
  }

  /** Any sequence of operations on a table answers and ends as on a plain map. */
  method Run<K(==, !new), V>(t: Table<K, V>, ops: seq<Op<K, V>>) returns (answers: seq<Outcome<V>>)
    requires t.Valid()
    modifies t, t.Owned()
    ensures t.Valid() && (t.Contents(), answers) == ExpectedRun(old(t.Contents()), ops)
    ensures old(t.LoadOk()) && (forall op :: op in ops ==> !op.MaxLoadFactor?) ==> t.LoadOk()
    ensures t.entries == old(t.entries) || t.entries == t.shared || fresh(t.entries)
  {
    hide Table<K, V>.Valid, Table<K, V>.Contents, Table<K, V>.LoadOk;
    answers := [];
    for i := 0 to |ops|
      invariant t.Valid() && (t.Contents(), answers) == ExpectedRun(old(t.Contents()), ops[..i])
      invariant old(t.LoadOk()) && (forall op :: op in ops ==> !op.MaxLoadFactor?) ==> t.LoadOk()
      invariant t.entries == old(t.entries) || t.entries == t.shared || fresh(t.entries)
    {
      assert ops[..i + 1][..i] == ops[..i];
      var answer := Execute(t, ops[i]);
      answers := answers + [answer];
    }
    assert ops[..|ops|] == ops;
  }

  /** From a new table, over any policy and default table. */
  method RunFromEmpty<K(==, !new), V>(policy: Policy<K>, shared: array<Entry<K, V>>, load: LoadFactor,
        ops: seq<Op<K, V>>)
    returns (t: Table<K, V>, answers: seq<Outcome<V>>)
    requires policy.Lawful() && shared[..] == DefaultEntries()
    ensures fresh(t) && t.Valid() && (t.Contents(), answers) == ExpectedRun(map[], ops)
    ensures t.policy == policy && t.shared == shared
    ensures (forall op :: op in ops ==> !op.MaxLoadFactor?) ==> t.LoadOk()
  {
    t := new Table(policy, shared, load);
    answers := Run(t, ops);
  }

  /** The default flat_hash_map: fibonacci hashing of any hash function, load factor one half. */
  method RunDefaultMap<K(==, !new), V>(hash: K -> bv64, shared: array<Entry<K, V>>, ops: seq<Op<K, V>>)
    returns (t: Table<K, V>, answers: seq<Outcome<V>>)
    requires shared[..] == DefaultEntries()
    ensures t.Valid() && (t.Contents(), answers) == ExpectedRun(map[], ops)
    ensures t.policy == FibonacciPolicy(hash)
  {
    FibonacciLawful(hash);
    t, answers := RunFromEmpty(FibonacciPolicy(hash), shared, 0.5, ops);
  }

  /** Two tables share at most the default entries. */
  ghost predicate Separate<K(!new), V>(a: Table<K, V>, b: Table<K, V>)
    reads a, b
  {
    a != b && a.shared == b.shared && (a.entries == b.entries ==> a.entries == a.shared)
  }

  /** Nothing done to one table is seen by another, and the default entries stay as they are. */
  method RunBeside<K(==, !new), V>(a: Table<K, V>, b: Table<K, V>, ops: seq<Op<K, V>>)
    returns (answers: seq<Outcome<V>>)
    requires a.Valid() && b.Valid() && Separate(a, b)
    modifies a, a.Owned()
    ensures a.Valid() && (a.Contents(), answers) == ExpectedRun(old(a.Contents()), ops)
    ensures b.Valid() && b.Contents() == old(b.Contents()) && b.entries[..] == old(b.entries[..])
    ensures Separate(a, b) && a.shared[..] == old(a.shared[..])
  {
    hide Table<K, V>.Valid, Table<K, V>.Contents, Table<K, V>.LoadOk;
    answers := Run(a, ops);
  }
}
