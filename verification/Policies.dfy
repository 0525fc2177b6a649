/** The three hash policies on 64-bit words, and each as the policy a table uses. */
module Policies {
  import opened Bits
  import opened BitTricks
  import opened Sizing

  /** Reading a word and writing it back gives the same word. */
  lemma {:induction false} ValWord(v: bv64)
    ensures Word(Val(v)) == v
    decreases Val(v)
  {
    hide *;
    ValStep(v);
    if v == 0 {
      WordZero();
    } else {
      PositiveVal(v);
      ValWord(Half(v));
      AppendParts(v);
      WordStep(Val(v));
    }
  }

  /** What rounding up returns is a single bit, or 0 when it wrapped. */
  lemma NextPowerBit(i: bv64) returns (k: bv7)
    requires 1 <= Val(i) <= Pow2(63)
    ensures k < 64 && NextPowerOfTwo(i) == Power(k) && Val(NextPowerOfTwo(i)) == Pow2(Place(k))
  {
    hide *;
    ValStep(i);
    NextIsPower(i);
    if i == 1 {
      k := 0;
      PowerHalf(0);
    } else {
      k := Top(Dec(i));
      ValPred(i);
      TopVal(Dec(i), k);
      TopIndex(Dec(i), k);
      PlaceStep(k);
      TwoShift(k);
      k := k + 1;
    }
    PowerVal(k);
  }

  /** int8_t max_lookups: with any 64-bit bucket count, no displacement leaves the type's range. */
  lemma LookupsFitInt8(buckets: bv64)
    requires buckets != 0
    ensures ComputeMaxLookups(Val(buckets)) == Max(MIN_LOOKUPS, Log2Word(buckets)) <= 63
  {
    Log2Correct(buckets);
    ValBound(buckets);
    Log2Bounds(Val(buckets));
    if Log2(Val(buckets)) > 63 {
      Pow2Grows(64, Log2(Val(buckets)));
    }
  }

  /** fibonacci_hash_policy::next_size_over: the new size and the shift to commit. */
  function FibonacciNext(size: bv64): (bv64, int) {
    var next := NextPowerOfTwo(size);
    var newSize := if next < 2 then 2 else next;
    (newSize, 64 - Log2Word(newSize))
  }

  lemma AtLeastTwo(k: bv7)
    requires k < 64
    ensures (if Power(k) < 2 then 2 else Power(k)) == Power(if k == 0 then 1 else k)
    ensures Power(1) == 2
  {
  }

  /** For every request up to 2^63 the size covers it and every hash indexes below the size; beyond, it does not. */
  lemma PowerOfTwoContract(request: bv64, hash: bv64)
    ensures Val(request) > Pow2(63) ==> Val(NextPowerOfTwo(request)) < Val(request)
    ensures 1 <= Val(request) <= Pow2(63) ==>
              && Val(request) <= Val(NextPowerOfTwo(request))
              && Val(MaskIndex(hash, NextPowerOfTwo(request))) < Val(NextPowerOfTwo(request))
  {
    hide *;
    NextPowerOfTwoWraps(request);
    ValStep(0);
    if 1 <= Val(request) <= Pow2(63) {
      NextPowerOfTwoCorrect(request);
      var k := NextPowerBit(request);
      MaskBelow(hash, k);
      BelowVal(MaskIndex(hash, Power(k)), k);
    }
  }

  lemma {:induction false} MaskVal(hash: bv64, k: bv7)
    requires k < 64
    ensures Pow2(Place(k)) >= 1 && Val(MaskIndex(hash, Power(k))) == Val(hash) % Pow2(Place(k))
    decreases k
  {
    hide *;
    PlaceStep(k);
    Pow2Step(Place(k));
    PowerHalf(k);
    ValStep(hash);
    if k == 0 {
      MaskOne(hash);
      ValStep(0);
    } else {
      ValStep(MaskIndex(hash, Power(k)));
      MaskHalf(hash, k);
      MaskVal(Half(hash), k - 1);
      HalfMod(Val(Half(hash)), Pow2(Place(k - 1)));
    }
  }

  lemma HalfMod(n: nat, m: nat)
    requires m >= 1
    ensures (2 * n) % (2 * m) == 2 * (n % m) && (2 * n + 1) % (2 * m) == 2 * (n % m) + 1
  {
    var q, r := n / m, n % m;
    assert n == q * m + r;
    assert 2 * n == q * (2 * m) + 2 * r && 0 <= 2 * r + 1 < 2 * m;
    QuotientUnique(2 * n, 2 * m, q, 2 * r);
    QuotientUnique(2 * n + 1, 2 * m, q, 2 * r + 1);
  }

  /** The least power of two that covers n. */
  ghost predicate LeastPower(size: nat, n: nat) {
    && size >= n
    && (exists e: nat :: size == Pow2(e))
    && (forall e: nat :: Pow2(e) >= n ==> Pow2(e) >= size)
  }

  /** Where the least power for n is 1, the one from 2 on is 2. */
  lemma FromTwoOn(e: nat, n: nat)
    requires Pow2(e) >= n && forall f: nat :: Pow2(f) >= n ==> Pow2(f) >= Pow2(e)
    ensures LeastPower(Pow2(if e == 0 then 1 else e), Max(n, 2))
  {
    Pow2Step(e);
    if e > 0 {
      Pow2Grows(1, e);
    }
  }

  lemma FibonacciSize(request: bv64) returns (k: bv7)
    requires 1 <= Val(request) <= Pow2(63)
    ensures 1 <= k < 64 && FibonacciNext(request) == (Power(k), 64 - Place(k)) && Val(Power(k)) == Pow2(Place(k))
    ensures Val(request) <= Pow2(Place(k)) && LeastPower(Pow2(Place(k)), Max(Val(request), 2))
  {
    hide *;
    NextPowerOfTwoCorrect(request);
    k := NextPowerBit(request);
    FromTwoOn(Place(k), Val(request));
    AtLeastTwo(k);
    PlaceStep(0);
    Pow2Step(1);
    Pow2Step(0);
    if k == 0 {
      k := 1;
      PlaceStep(1);
    }
    PowerVal(k);
    PowerHalf(k);
    Log2Correct(Power(k));
    PlaceStep(k);
    Pow2Step(Place(k) + 1);
    Log2Unique(Pow2(Place(k)), Place(k));
    FibonacciNextIs(request);
  }

  lemma FibonacciNextIs(size: bv64)
    ensures var n := if NextPowerOfTwo(size) < 2 then 2 else NextPowerOfTwo(size);
            FibonacciNext(size) == (n, 64 - Log2Word(n))
  {
  }

  /** The index is the top bits of the hash times the multiplier. */
  lemma FibonacciTopBits(hash: bv64, shift: bv7)
    requires shift <= 64
    ensures Val(FibonacciIndex(hash, shift)) == Val(Scrambled(hash)) / Pow2(Place(shift))
    ensures Scrambled(hash) == 11400714819323198485 * hash
  {
    hide ShiftRight, Val, Pow2, Place;
    ShiftVal(Scrambled(hash), shift);
  }

  /** As the multiplication permutes the words, every word x is the product of one hash, and x's top bits are that
      hash's index. */
  lemma FibonacciSpreads(x: bv64, shift: bv7)
    requires shift <= 64
    ensures Val(FibonacciIndex(17428512612931826493 * x, shift)) == Val(x) / Pow2(Place(shift))
  {
    hide Val, Pow2, Place, ShiftRight, FibonacciIndex;
    FibonacciPermutes(x, shift);
    ShiftVal(x, shift);
  }

  /** The committed shift puts every hash below the size; beyond 2^63 the size falls back to 2. */
  lemma FibonacciContract(request: bv64, hash: bv64)
    ensures Val(FibonacciNext(request).0) >= Val(request) <==> Val(request) <= Pow2(63)
    ensures Val(request) > Pow2(63) ==> Val(FibonacciNext(request).0) == 2
    ensures Val(request) <= Pow2(63) ==>
              var (size, shift) := FibonacciNext(request);
              && Val(size) >= 2 && LeastPower(Val(size), Max(Val(request), 2))
              && 1 <= shift <= 63 && shift == 64 - Log2(Val(size))
              && Val(FibonacciIndex(hash, Narrow(shift))) == Val(Scrambled(hash)) / Pow2(shift) < Val(size)
  {
    hide *;
    NextPowerOfTwoWraps(request);
    FibonacciNextIs(request);
    TwoVal();
    Pow2Step(63);
    if 1 <= Val(request) <= Pow2(63) {
      var k := FibonacciSize(request);
      ShiftOf(k);
      FibonacciBelow(hash, k);
      BelowVal(FibonacciIndex(hash, 64 - k), k);
      FibonacciTopBits(hash, 64 - k);
      Pow2Grows(1, Place(k));
      Pow2Step(Place(k) + 1);
      Log2Unique(Pow2(Place(k)), Place(k));
    } else if Val(request) == 0 {
      ShiftOf(1);
      FibonacciBelow(hash, 1);
      BelowVal(FibonacciIndex(hash, 64 - 1), 1);
      FibonacciTopBits(hash, 64 - 1);
      Pow2Step(0);
      Pow2Step(1);
      FromTwoOn(0, 0);
    }
  }

  lemma TwoVal()
    ensures Val(2) == 2 && Pow2(1) == 2 && Pow2(63) > 2 && Log2Word(2) == 1 && Log2(2) == 1 && Place(1) == 1
  {
    assert Val(1) == 1 && Half(2) == 1 && !Odd(2) by {
      ValStep(1);
    }
    ValStep(2);
    Log2Correct(2);
    Pow2Grows(2, 63);
  }

  lemma ShiftOf(k: bv7)
    requires 1 <= k < 64
    ensures 64 - Place(k) == Place(64 - k) && 1 <= 64 - Place(k) <= 63
    ensures Narrow(64 - Place(k)) == 64 - k
  {
  }

  /** std::lower_bound on a list of sizes */
  function LowerBound(list: seq<nat>, n: nat): (i: nat)
    ensures i <= |list|
    ensures forall j :: 0 <= j < i ==> list[j] < n
    ensures i < |list| ==> list[i] >= n
  {
    if |list| == 0 || list[0] >= n then 0 else 1 + LowerBound(list[1..], n)
  }

  ghost predicate PrimeList(primes: seq<nat>) {
    && |primes| > 0
    && primes[0] >= 2
    && forall i, j :: 0 <= i < j < |primes| ==> primes[i] < primes[j]
  }

  /** prime_number_hash_policy::next_size_over: the new size and the index of its mod function, searching all
      but the last entry. */
  function PrimeNext(primes: seq<nat>, size: nat): (nat, nat)
    requires |primes| > 0
  {
    var found := LowerBound(primes[..|primes| - 1], size);
    (primes[found], 1 + found)
  }

  /** mod_functions[token], where entry 0 always answers 0 and entry 1 + i reduces by the i-th size. */
  function ModFunction(primes: seq<nat>, token: nat, hash: nat): nat
    requires token <= |primes| && (token > 0 ==> primes[token - 1] > 0)
  {
    if token == 0 then 0 else hash % primes[token - 1]
  }

  /** The least listed size that covers the request, exactly for requests up to the last one, and the mod
      function chosen with it. */
  lemma PrimeContract(primes: seq<nat>, request: nat, hash: nat)
    requires PrimeList(primes)
    ensures var (size, token) := PrimeNext(primes, request);
            && (size >= request <==> request <= primes[|primes| - 1])
            && (forall p :: p in primes && p >= request ==> p >= size)
            && 1 <= token <= |primes| && primes[token - 1] == size > 0
            && ModFunction(primes, token, hash) == hash % size < size
  {
    var short := primes[..|primes| - 1];
    var found := LowerBound(short, request);
    assert primes[found] == primes[0] || primes[found] > primes[0];
    forall p | p in primes && p >= request ensures p >= primes[found] {
      var j :| 0 <= j < |primes| && primes[j] == p;
      assert forall i :: 0 <= i < found ==> short[i] == primes[i];
    }
    if found < |short| {
      assert short[found] == primes[found];
    }
  }

  /** The fibonacci policy as a table sees it: the code's sizes and indices for requests up to 2^63, and beyond
      them, where the 64-bit code has no table to offer, a lawful completion. */
  function FibonacciPolicy<K(!new)>(hash: K -> bv64): Policy<K> {
    Policy((n: nat) => FibonacciSizeOver(n), (k: K, size: nat) => FibonacciSlot(hash(k), size))
  }

  function FibonacciSizeOver(n: nat): nat {
    if n <= Pow2(63) then Val(FibonacciNext(Word(n)).0) else n
  }

  function FibonacciSlot(hash: bv64, size: nat): nat {
    if size == 0 then Val(FibonacciIndex(hash, 63))
    else if size <= Pow2(63) then Val(FibonacciIndex(hash, CommittedShift(size)))
    else 0
  }

  /** 64 - log2(size) */
  function CommittedShift(size: nat): (s: bv7)
    ensures s <= 64
  {
    var l := Log2Word(Word(size));
    if l <= 64 then Narrow(64 - l) else 0
  }

  /** Up to 2^63: size 2^k, shift 64 - k, and the index by that shift. */
  lemma FibonacciParts(n: nat, hash: bv64) returns (k: bv7)
    requires 1 <= n <= Pow2(63)
    ensures LeastPower(FibonacciSizeOver(n), Max(n, 2))
    ensures 1 <= k < 64 && FibonacciNext(Word(n)) == (Power(k), 64 - Place(k))
    ensures 1 <= 64 - Place(k) <= 63 && Narrow(64 - Place(k)) == 64 - k
    ensures Val(Word(n)) == n <= FibonacciSizeOver(n) == Val(Power(k)) == Pow2(Place(k))
    ensures FibonacciSlot(hash, FibonacciSizeOver(n)) == Val(FibonacciIndex(hash, 64 - k))
  {
    hide Val, Pow2, Word, FibonacciNext, FibonacciIndex, Narrow, Log2Word, Place, Power, Log2, Below;
    Pow2Step(64);
    WordVal(n, 64);
    k := FibonacciSize(Word(n));
    var size := Pow2(Place(k));
    ShiftOf(k);
    ValWord(Power(k));
    PlaceStep(k);
    Pow2Grows(Place(k), 63);
    Pow2Step(Place(k) + 1);
    PowerHalf(k);
    Log2Correct(Power(k));
    Log2Unique(size, Place(k));
    assert CommittedShift(size) == 64 - k;
  }

  lemma FibonacciSlotBelow(n: nat, hash: bv64)
    requires n >= 1
    ensures FibonacciSizeOver(n) >= Max(n, 2)
    ensures FibonacciSlot(hash, FibonacciSizeOver(n)) < FibonacciSizeOver(n)
    ensures FibonacciSlot(hash, 0) < 2
  {
    hide Val, Pow2, Word, FibonacciNext, FibonacciIndex, Narrow, Log2Word, Place, Power, Log2, Below;
    TwoVal();
    FibonacciBelow(hash, 1);
    BelowVal(FibonacciIndex(hash, 63), 1);
    if n <= Pow2(63) {
      var k := FibonacciParts(n, hash);
      PlaceStep(k);
      Pow2Grows(1, Place(k));
      FibonacciBelow(hash, k);
      BelowVal(FibonacciIndex(hash, 64 - k), k);
    }
  }

  lemma FibonacciLawful<K(!new)>(hash: K -> bv64)
    ensures FibonacciPolicy(hash).Lawful()
  {
    hide FibonacciSizeOver, FibonacciSlot;
    var p := FibonacciPolicy(hash);
    forall n: nat | n >= 1 ensures p.NextSizeOver(n) >= n {
      FibonacciSlotBelow(n, 0);
    }
    forall k: K, n: nat | n >= 1 ensures p.IndexForHash(k, p.NextSizeOver(n)) < p.NextSizeOver(n) {
      FibonacciSlotBelow(n, hash(k));
    }
    forall k: K ensures p.IndexForHash(k, 0) < MIN_LOOKUPS - 1 {
      FibonacciSlotBelow(1, hash(k));
    }
  }

  /** For every request the 64-bit code can meet, the index a table computes is the code's own, taken with the
      shift that next_size_over returned for it. */
  lemma FibonacciSlotIsIndex(n: nat, hash: bv64)
    requires 1 <= n <= Pow2(63)
    ensures var (size, shift) := FibonacciNext(Word(n));
            && Val(Word(n)) == n && FibonacciSizeOver(n) == Val(size) && 1 <= shift <= 63
            && FibonacciSlot(hash, FibonacciSizeOver(n)) == Val(FibonacciIndex(hash, Narrow(shift)))
  {
    hide *;
    var k := FibonacciParts(n, hash);
  }

  lemma PolicyParts<K(!new)>(n: nat, key: K, hash: K -> bv64)
    ensures FibonacciPolicy(hash).NextSizeOver(n) == FibonacciSizeOver(n)
    ensures FibonacciPolicy(hash).IndexForHash(key, n) == FibonacciSlot(hash(key), n)
    ensures FibonacciSlot(hash(key), 0) == Val(Scrambled(hash(key))) / Pow2(63)
  {
    hide FibonacciSizeOver, FibonacciIndex, Val, Pow2, Scrambled;
    FibonacciTopBits(hash(key), 63);
    assert Place(63) == 63;
  }

  /** In numbers: the least power of two from 2 on, and the top bits of the hash times the multiplier, as many as
      the size has; with no size committed, the top bit. */
  lemma FibonacciExact<K(!new)>(n: nat, key: K, hash: K -> bv64)
    requires 1 <= n <= Pow2(63)
    ensures var size := FibonacciPolicy(hash).NextSizeOver(n);
            && LeastPower(size, Max(n, 2)) && size >= 1 && 1 <= Log2(size) <= 63
            && FibonacciPolicy(hash).IndexForHash(key, size) == Val(Scrambled(hash(key))) / Pow2(64 - Log2(size))
    ensures FibonacciPolicy(hash).IndexForHash(key, 0) == Val(Scrambled(hash(key))) / Pow2(63)
  {
    hide *;
    var k := FibonacciParts(n, hash(key));
    PolicyParts(n, key, hash);
    PolicyParts(Pow2(Place(k)), key, hash);
    PolicyParts(0, key, hash);
    FibonacciTopBits(hash(key), 64 - k);
    PowerLog(Place(k));
    ShiftOf(k);
  }

  /** In numbers: the least power of two, and the remainder of the hash by it. */
  lemma PowerOfTwoExact<K(!new)>(n: nat, key: K, hash: K -> bv64)
    requires 1 <= n <= Pow2(63)
    ensures var size := PowerOfTwoPolicy(hash).NextSizeOver(n);
            LeastPower(size, n) && PowerOfTwoPolicy(hash).IndexForHash(key, size) == Val(hash(key)) % size
    ensures PowerOfTwoPolicy(hash).IndexForHash(key, 0) == 0
  {
    hide Val, Pow2, Word, NextPowerOfTwo, MaskIndex, Place, Power;
    MaskOne(hash(key));
    ValStep(0);
    Pow2Step(64);
    WordVal(n, 64);
    NextPowerOfTwoCorrect(Word(n));
    var k := NextPowerBit(Word(n));
    ValWord(Power(k));
    PlaceStep(k);
    Pow2Grows(Place(k), 63);
    MaskVal(hash(key), k);
  }

  /** In numbers: the least listed size, and the remainder of the hash by it. */
  lemma PrimeExact<K(!new)>(primes: seq<nat>, n: nat, key: K, hash: K -> bv64)
    requires PrimeList(primes) && n <= primes[|primes| - 1]
    ensures var size := PrimePolicy(primes, hash).NextSizeOver(n);
            && size in primes && size >= n && (forall p :: p in primes && p >= n ==> p >= size)
            && size > 0 && PrimePolicy(primes, hash).IndexForHash(key, size) == Val(hash(key)) % size
    ensures PrimePolicy(primes, hash).IndexForHash(key, 0) == 0
  {
    hide PrimeNext, Val;
    PrimeContract(primes, n, Val(hash(key)));
  }

  /** Only the power-of-two policy has tables of one bucket, exactly for the request 1. */
  lemma SingleBucket<K(!new)>(n: nat, primes: seq<nat>, hash: K -> bv64)
    requires n >= 1 && PrimeList(primes)
    ensures PowerOfTwoPolicy(hash).NextSizeOver(n) == 1 <==> n == 1
    ensures FibonacciPolicy(hash).NextSizeOver(n) >= 2
    ensures PrimePolicy(primes, hash).NextSizeOver(n) >= 2
  {
    hide PowerOfTwoSizeOver, FibonacciSizeOver, PrimeNext, PowerOfTwoSlot, FibonacciSlot;
    OneBucket();
    PowerOfTwoSlotBelow(n, 0);
    FibonacciSlotBelow(n, 0);
    PrimeContract(primes, n, 0);
    PrimeAtLeastTwo(primes, n);
  }

  lemma OneBucket()
    ensures PowerOfTwoSizeOver(1) == 1
  {
  }

  lemma PrimeAtLeastTwo(primes: seq<nat>, n: nat)
    requires PrimeList(primes)
    ensures PrimeNext(primes, n).0 >= 2
  {
  }

  /** The power-of-two policy as a table sees it. */
  function PowerOfTwoPolicy<K(!new)>(hash: K -> bv64): Policy<K> {
    Policy((n: nat) => PowerOfTwoSizeOver(n), (k: K, size: nat) => PowerOfTwoSlot(hash(k), size))
  }

  function PowerOfTwoSizeOver(n: nat): nat {
    if n <= Pow2(63) then Val(NextPowerOfTwo(Word(n))) else n
  }

  function PowerOfTwoSlot(hash: bv64, size: nat): nat {
    if size == 0 then Val(MaskIndex(hash, 1))
    else if size <= Pow2(63) then Val(MaskIndex(hash, Word(size)))
    else 0
  }

  lemma PowerOfTwoSlotBelow(n: nat, hash: bv64)
    requires n >= 1
    ensures PowerOfTwoSizeOver(n) >= n
    ensures PowerOfTwoSlot(hash, PowerOfTwoSizeOver(n)) < PowerOfTwoSizeOver(n)
    ensures PowerOfTwoSlot(hash, 0) == 0
  {
    hide Val, Pow2, Word, NextPowerOfTwo, MaskIndex, Place, Power, Below;
    MaskOne(hash);
    ValStep(0);
    if n <= Pow2(63) {
      Pow2Step(64);
      WordVal(n, 64);
      NextPowerOfTwoCorrect(Word(n));
      var k := NextPowerBit(Word(n));
      ValWord(Power(k));
      PlaceStep(k);
      Pow2Grows(Place(k), 63);
      Pow2Step(Place(k));
      MaskBelow(hash, k);
      BelowVal(MaskIndex(hash, Power(k)), k);
    }
  }

  lemma PowerOfTwoLawful<K(!new)>(hash: K -> bv64)
    ensures PowerOfTwoPolicy(hash).Lawful()
  {
    hide PowerOfTwoSizeOver, PowerOfTwoSlot;
    var p := PowerOfTwoPolicy(hash);
    forall n: nat | n >= 1 ensures p.NextSizeOver(n) >= n {
      PowerOfTwoSlotBelow(n, 0);
    }
    forall k: K, n: nat | n >= 1 ensures p.IndexForHash(k, p.NextSizeOver(n)) < p.NextSizeOver(n) {
      PowerOfTwoSlotBelow(n, hash(k));
    }
    forall k: K ensures p.IndexForHash(k, 0) < MIN_LOOKUPS - 1 {
      PowerOfTwoSlotBelow(1, hash(k));
    }
  }

  /** The prime policy as a table sees it, for a list of sizes. */
  function PrimePolicy<K(!new)>(primes: seq<nat>, hash: K -> bv64): Policy<K>
    requires |primes| > 0
  {
    Policy((n: nat) => if n <= primes[|primes| - 1] then PrimeNext(primes, n).0 else n,
           (k: K, size: nat) => if size == 0 then 0 else Val(hash(k)) % size)
  }

  lemma PrimeLawful<K(!new)>(primes: seq<nat>, hash: K -> bv64)
    requires PrimeList(primes)
    ensures PrimePolicy(primes, hash).Lawful()
  {
    hide PrimeNext;
    var p := PrimePolicy(primes, hash);
    forall n: nat | n >= 1 ensures p.NextSizeOver(n) >= n {
      PrimeContract(primes, n, 0);
    }
  }
}
