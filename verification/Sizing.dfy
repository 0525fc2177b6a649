/** Table sizes: the hash policy as the table sees it, the probe bound, and the load arithmetic. */
module Sizing {

  function Max(a: int, b: int): int {
    if a >= b then a else b
  }

  function Min(a: int, b: int): int {
    if a <= b then a else b
  }

  function Pow2(e: nat): (p: nat)
    ensures p >= 1
  {
    if e == 0 then 1 else 2 * Pow2(e - 1)
  }

  /** floor(log2 n) */
  function Log2(n: nat): nat
    requires n >= 1
  {
    if n == 1 then 0 else 1 + Log2(n / 2)
  }

  lemma {:induction false} Log2Bounds(n: nat)
    requires n >= 1
    ensures Pow2(Log2(n)) <= n < Pow2(Log2(n) + 1)
  {
    if n > 1 {
      Log2Bounds(n / 2);
      assert Log2(n) == 1 + Log2(n / 2);
    }
  }

  lemma {:induction false} Pow2Grows(a: nat, b: nat)
    requires a <= b
    ensures 1 <= Pow2(a) <= Pow2(b)
  {
    if a < b {
      Pow2Grows(a, b - 1);
    } else if a > 0 {
      Pow2Grows(a - 1, b - 1);
    }
  }

  const MIN_LOOKUPS := 4

  function ComputeMaxLookups(numBuckets: nat): nat
    requires numBuckets >= 1
  {
    Max(MIN_LOOKUPS, Log2(numBuckets))
  }

  function Ceil(x: real): int {
    if x.Floor as real == x then x.Floor else x.Floor + 1
  }

  /** Buckets needed so that n elements stay within the load factor. */
  function BucketsFor(n: nat, load: real): nat
    requires load > 0.0
  {
    QuotientNonNegative(n, load);
    Ceil(n as real / load)
  }

  /** num_buckets_for_reserve: never more than half full. */
  function BucketsForReserve(n: nat, load: real): nat
    requires load > 0.0
  {
    BucketsFor(n, if load < 0.5 then load else 0.5)
  }

  /** n elements in `buckets` buckets do not exceed the load factor. */
  predicate Fits(n: nat, buckets: nat, load: real) {
    n as real <= buckets as real * load
  }

  lemma QuotientNonNegative(n: nat, load: real)
    requires load > 0.0
    ensures n as real / load >= 0.0
  {
    var q := n as real / load;
    assert q * load == n as real;
    assert q < 0.0 ==> q * load < 0.0;
  }

  lemma QuotientLe(x: real, y: real, load: real)
    requires load > 0.0
    ensures x / load <= y <==> x <= y * load
  {
    var q := x / load;
    assert q * load == x;
    if q <= y {
      assert (y - q) * load >= 0.0;
    } else {
      assert (q - y) * load > 0.0;
    }
  }

  /** The computed bucket count is the least one that the load factor allows. */
  lemma BucketsForExact(n: nat, buckets: nat, load: real)
    requires load > 0.0
    ensures BucketsFor(n, load) <= buckets <==> Fits(n, buckets, load)
  {
    QuotientNonNegative(n, load);
    QuotientLe(n as real, buckets as real, load);
  }

  /** m is the least bucket count from `request` on whose load limit admits n elements. */
  ghost predicate LeastBuckets(m: nat, request: nat, n: nat, load: real) {
    && m >= request && Fits(n, m, load)
    && forall k: nat :: k >= request && Fits(n, k, load) ==> m <= k
  }

  /** Rehash rounds its request up to exactly that. */
  lemma LeastIs(m: nat, request: nat, n: nat, load: real)
    requires load > 0.0
    ensures LeastBuckets(m, request, n, load) <==> m == Max(request, BucketsFor(n, load))
  {
    hide Fits, BucketsFor;
    var least := Max(request, BucketsFor(n, load));
    BucketsForExact(n, m, load);
    BucketsForExact(n, least, load);
    forall k: nat | k >= request && Fits(n, k, load) ensures least <= k {
      BucketsForExact(n, k, load);
    }
  }

  /** What reserve asks for is exactly what admits n elements and is at most half full with them. */
  lemma ReserveExact(n: nat, buckets: nat, load: real)
    requires load > 0.0
    ensures BucketsForReserve(n, load) <= buckets <==> Fits(n, buckets, load) && 2 * n <= buckets
  {
    HalfFits(n, buckets);
    hide Fits, BucketsFor;
    if load < 0.5 {
      BucketsForExact(n, buckets, load);
      FitsAtHigherLoad(n, buckets, load, 0.5);
    } else {
      BucketsForExact(n, buckets, 0.5);
      FitsAtHigherLoad(n, buckets, 0.5, load);
    }
  }

  lemma ReserveIsLeast(r: nat, n: nat, load: real)
    requires load > 0.0
    ensures LeastBuckets(r, 2 * n, n, load) <==> r == BucketsForReserve(n, load)
  {
    hide Fits, BucketsForReserve;
    LeastIs(r, 2 * n, n, load);
    var least := BucketsForReserve(n, load);
    var other := Max(2 * n, BucketsFor(n, load));
    ReserveExact(n, least, load);
    ReserveExact(n, other, load);
    BucketsForExact(n, least, load);
    BucketsForExact(n, other, load);
  }

  /** reserve(n) with k elements stored: twice n at least, and room for both counts. */
  lemma ReserveRequest(m: nat, n: nat, k: nat, load: real)
    requires load > 0.0 && LeastBuckets(m, 2 * n, Max(n, k), load)
    ensures LeastBuckets(m, BucketsForReserve(n, load), k, load)
  {
    hide BucketsForReserve, Fits;
    var both := Max(n, k);
    var least := BucketsForReserve(n, load);
    ReserveExact(n, m, load);
    FitsMonotone(n, both, m, m, load);
    FitsMonotone(k, both, m, m, load);
    forall b: nat | b >= least && Fits(k, b, load) ensures m <= b {
      ReserveExact(n, b, load);
    }
  }

  /** The reserve count for n, and what a rehash of an empty table makes of it. */
  lemma ReserveForEmpty(n: nat, buckets: nat, load: real) returns (r: nat)
    requires load > 0.0
    ensures forall q: nat :: LeastBuckets(q, 2 * n, n, load) <==> q == r
    ensures LeastBuckets(Min(r, buckets), Min(r, buckets), 0, load)
    ensures r >= 2 * n && (n == 0 ==> r == 0)
  {
    r := BucketsForReserve(n, load);
    forall q: nat ensures LeastBuckets(q, 2 * n, n, load) <==> q == r {
      ReserveIsLeast(q, n, load);
    }
    BucketsForExact(0, 0, load);
    LeastIs(Min(r, buckets), Min(r, buckets), 0, load);
    ReserveExact(n, r, load);
    ReserveExact(n, 0, load);
  }

  /** shrink_to_fit: the lesser of the reserve count and the present buckets. */
  lemma ShrinkRequest(m: nat, n: nat, buckets: nat, load: real)
    requires load > 0.0 && LeastBuckets(m, Min(2 * n, Max(1, buckets)), n, load) && (buckets <= 1 ==> n == 0)
    ensures LeastBuckets(m, Min(BucketsForReserve(n, load), buckets), n, load)
  {
    hide BucketsForReserve, Fits;
    var least := BucketsForReserve(n, load);
    ReserveExact(n, least, load);
    ReserveExact(n, m, load);
    forall b: nat | b >= Min(least, buckets) && Fits(n, b, load) ensures m <= b {
      ReserveExact(n, b, load);
    }
  }

  lemma HalfFits(n: nat, buckets: nat)
    ensures Fits(n, buckets, 0.5) <==> 2 * n <= buckets
  {
  }

  lemma FitsAtHigherLoad(n: nat, buckets: nat, load: real, higher: real)
    requires load <= higher
    ensures Fits(n, buckets, load) ==> Fits(n, buckets, higher)
  {
    assert buckets as real * (higher - load) >= 0.0;
  }

  lemma FitsMonotone(n: nat, m: nat, a: nat, b: nat, load: real)
    requires load > 0.0 && n <= m && a <= b && Fits(m, a, load)
    ensures Fits(n, b, load)
  {
    assert (b - a) as real * load >= 0.0;
    assert b as real * load == a as real * load + (b - a) as real * load;
  }

  /** What reserve allocates for n elements also satisfies the load factor, and is never a single bucket. */
  lemma ReserveFits(n: nat, buckets: nat, load: real)
    requires load > 0.0 && BucketsForReserve(n, load) <= buckets
    ensures Fits(n, buckets, load)
    ensures n > 0 ==> buckets >= 2
  {
    ReserveExact(n, buckets, load);
  }

  /** The hash policy together with the hash function. `index(k, size)` is index_for_hash of the
      hash of k once `size` is committed; size 0 stands for the reset state. */
  datatype Policy<!K(!new)> = Policy(nextSize: nat -> nat, index: (K, nat) -> nat) {
    function NextSizeOver(n: nat): nat {
      nextSize(n)
    }

    function IndexForHash(k: K, size: nat): nat {
      index(k, size)
    }

    /** Sizes cover the request, indices stay below the size, and the reset index stays inside the
        three empty slots of the default table. */
    ghost predicate Lawful() {
      && (forall n: nat :: n >= 1 ==> NextSizeOver(n) >= n)
      && (forall k: K, n: nat :: n >= 1 ==> IndexForHash(k, NextSizeOver(n)) < NextSizeOver(n))
      && (forall k: K :: IndexForHash(k, 0) < MIN_LOOKUPS - 1)
    }
  }

  /** From this many buckets on, no insertion among `total` elements can make the table grow. */
  ghost function EnoughBuckets(total: nat, load: real): nat
    requires load > 0.0
  {
    Max(2, Max(BucketsFor(total, load), Pow2(total)))
  }

  /** With enough buckets, none of the three reasons to grow can apply. */
  lemma EnoughNeverGrows(n: nat, total: nat, buckets: nat, load: real)
    requires load > 0.0 && n < total && buckets >= EnoughBuckets(total, load)
    ensures buckets >= 2 && Fits(n + 1, buckets, load) && n < ComputeMaxLookups(buckets)
  {
    BucketsForExact(total, buckets, load);
    FitsMonotone(n + 1, total, buckets, buckets, load);
    Log2Bounds(buckets);
    if Log2(buckets) < total {
      Pow2Grows(Log2(buckets) + 1, total);
    }
  }
}
