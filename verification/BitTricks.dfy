/** The 64-bit arithmetic behind table sizes: log2 by bit smear and de Bruijn multiplication, and rounding up
    to a power of two. */
module BitTricks {
  import opened Bits
  import opened Sizing

  /** The unsigned number a word stands for, read bit by bit. */
  function Val(v: bv64): (n: nat)
    ensures v != 0 ==> n >= 1
    decreases v
  {
    if v == 0 then 0 else 2 * Val(Half(v)) + (if Odd(v) then 1 else 0)
  }

  /** The word for a number, bit by bit; numbers from 2^64 on lose their high bits. */
  function Word(n: nat): bv64 {
    if n == 0 then 0 else Append(Word(n / 2), n % 2 == 1)
  }

  function Place(k: bv7): nat {
    k as nat
  }

  const LOG2_TABLE: seq<seq<nat>> := [
    [63,  0, 58,  1, 59, 47, 53,  2],
    [60, 39, 48, 27, 54, 33, 42,  3],
    [61, 51, 37, 40, 49, 18, 28, 20],
    [55, 30, 34, 11, 43, 14, 22,  4],
    [62, 57, 46, 52, 38, 26, 32, 41],
    [50, 36, 17, 19, 29, 10, 13, 21],
    [56, 45, 25, 31, 35, 16,  9, 12],
    [44, 24, 15,  8, 23,  7,  6,  5]
  ]

  /** The 64-entry table, laid out in rows of eight. */
  function TableAt(i: bv64): nat
    requires i < 64
  {
    LOG2_TABLE[((i >> 3) as bv3) as int][((i & 7) as bv3) as int]
  }

  /** The entry that a power of two multiplies into. */
  function DeBruijn(power: bv64): (i: bv64)
    ensures i < 64
  {
    (power * 0x07EDD5E59A4E28C2) >> 58
  }

  function Log2Word(value: bv64): nat {
    var smeared := Smear(value);
    TableAt(DeBruijn(smeared - (smeared >> 1)))
  }

  function NextPowerOfTwo(i: bv64): bv64 {
    Smear(Dec(i)) + 1
  }

  /** The position of the highest bit set. */
  function Top(v: bv64): (k: bv7)
    requires v != 0
    ensures TopAt(v, k)
    decreases v
  {
    if v == 1 then 0 else
      var k := Top(v >> 1);
      TopStep(v, k);
      k + 1
  }

  lemma TopIndex(v: bv64, k: bv7)
    requires TopAt(v, k)
    ensures k < 64
  {
  }

  lemma PlaceStep(k: bv7)
    ensures Place(0) == 0 && Place(63) == 63
    ensures k > 0 ==> Place(k - 1) == Place(k) - 1
    ensures k < 63 ==> Place(k) < 63 && Place(k + 1) == Place(k) + 1
    ensures k < 64 ==> Place(k) <= 63 && (k == 63 || k < 63)
    ensures k <= 63 && Place(k) < 63 ==> k < 63
  {
  }

  lemma ValStep(v: bv64)
    ensures Val(v) == 2 * Val(Half(v)) + (if Odd(v) then 1 else 0)
    ensures Val(0) == 0 && Val(1) == 1
  {
    assert Half(0) == 0 && !Odd(0) && Half(1) == 0 && Odd(1);
  }

  lemma PositiveVal(v: bv64)
    requires v != 0
    ensures Val(v) >= 1
  {
  }

  lemma Pow2Step(k: nat)
    ensures k > 0 ==> Pow2(k) == 2 * Pow2(k - 1)
    ensures Pow2(0) == 1 && Pow2(k) >= 1
  {
    Pow2Grows(0, k);
  }

  /** A highest bit at k bounds the number from both sides. */
  lemma {:induction false} TopVal(v: bv64, k: bv7)
    requires TopAt(v, k)
    ensures Pow2(Place(k)) <= Val(v) < Pow2(Place(k) + 1)
    decreases v
  {
    hide *;
    TopHalf(v, k);
    PlaceStep(k);
    Pow2Step(Place(k));
    Pow2Step(Place(k) + 1);
    ValStep(v);
    if k > 0 {
      TopVal(Half(v), k - 1);
    }
  }

  lemma {:induction false} BelowVal(v: bv64, k: bv7)
    requires Below(v, k)
    ensures Val(v) < Pow2(Place(k))
    decreases k
  {
    hide *;
    BelowHalf(v, k);
    PlaceStep(k);
    Pow2Step(Place(k));
    ValStep(v);
    if k > 0 {
      BelowVal(Half(v), k - 1);
    }
  }

  lemma {:induction false} PowerVal(k: bv7)
    requires k < 64
    ensures Val(Power(k)) == Pow2(Place(k))
    decreases k
  {
    hide *;
    PowerHalf(k);
    PlaceStep(k);
    Pow2Step(Place(k));
    ValStep(Power(k));
    if k > 0 {
      PowerVal(k - 1);
    }
  }

  lemma Log2Unique(n: nat, k: nat)
    requires Pow2(k) <= n < Pow2(k + 1)
    ensures n >= 1 && Log2(n) == k
  {
    Pow2Grows(0, k);
    Log2Bounds(n);
    if Log2(n) < k {
      Pow2Grows(Log2(n) + 1, k);
    } else if k < Log2(n) {
      Pow2Grows(k + 1, Log2(n));
    }
  }

  lemma PowerLog(e: nat)
    ensures Log2(Pow2(e)) == e
  {
    Pow2Step(e + 1);
    Log2Unique(Pow2(e), e);
  }

  lemma TableEntry(k: bv7)
    requires k < 64
    ensures TableAt(DeBruijn(Power(k))) == Place(k)
  {
  }

  /** The bit trick computes floor(log2 v) for every word but 0. */
  lemma Log2Correct(v: bv64)
    requires v != 0
    ensures Log2Word(v) == Log2(Val(v))
  {
    hide Val, Pow2, Top, TopAt, Smear, TableAt, DeBruijn, Log2, Place, Power;
    var k := Top(v);
    SmearFills(v, k);
    TopIndex(v, k);
    FilledTop(Smear(v), k);
    TableEntry(k);
    TopVal(v, k);
    Log2Unique(Val(v), Place(k));
  }

  lemma {:induction false} ValPred(v: bv64)
    requires v != 0
    ensures Val(Dec(v)) == Val(v) - 1
    decreases Val(v)
  {
    hide *;
    DecHalf(v);
    ValStep(v);
    ValStep(Dec(v));
    PositiveVal(v);
    if !Odd(v) {
      ValPred(Half(v));
    }
  }

  lemma PlaceOf(s: bv7)
    requires s <= 64
    ensures Place(s) <= 64 && (s == 0 ==> Place(s) == 0)
    ensures s > 0 ==> s - 1 < 64 && s - 1 + 1 == s && Place(s - 1) == Place(s) - 1
  {
  }

  lemma QuotientTwice(n: nat, m: nat)
    requires m >= 1
    ensures (n / m) / 2 == n / (2 * m)
  {
    var q, r := n / (2 * m), n % (2 * m);
    assert n == (2 * q) * m + r;
    if r < m {
      QuotientUnique(n, m, 2 * q, r);
    } else {
      assert n == (2 * q + 1) * m + (r - m);
      QuotientUnique(n, m, 2 * q + 1, r - m);
    }
  }

  lemma QuotientUnique(n: int, m: int, q: int, r: int)
    requires m >= 1 && n == q * m + r && 0 <= r < m
    ensures n / m == q && n % m == r
  {
    var d: int := n / m - q;
    assert d * m == r - n % m;
    assert d >= 1 ==> d * m >= m;
    assert d <= -1 ==> d * m <= -m;
  }

  /** Shifting right by s divides the number by 2^s: the top bits remain. */
  lemma {:induction false} ShiftVal(x: bv64, s: bv7)
    requires s <= 64
    ensures Pow2(Place(s)) >= 1 && Val(ShiftRight(x, s)) == Val(x) / Pow2(Place(s))
    decreases s
  {
    hide *;
    PlaceOf(s);
    Pow2Step(Place(s));
    if s == 0 {
      ShiftNone(x);
    } else {
      ShiftStep(x, s - 1);
      ShiftVal(x, s - 1);
      ValStep(ShiftRight(x, s - 1));
      QuotientTwice(Val(x), Pow2(Place(s - 1)));
    }
  }

  lemma ValBound(v: bv64)
    ensures Val(v) < Pow2(64)
  {
    hide *;
    ValStep(v);
    Pow2Step(64);
    if v != 0 {
      var k := Top(v);
      TopVal(v, k);
      TopIndex(v, k);
      PlaceStep(k);
      Pow2Grows(Place(k) + 1, 64);
    }
  }

  /** Numbers below 2^64 survive the trip into a word and back. */
  lemma {:induction false} WordVal(n: nat, k: nat)
    requires n < Pow2(k) && k <= 64
    ensures Val(Word(n)) == n
  {
    hide *;
    Pow2Step(k);
    if n == 0 {
      WordZero();
      ValStep(0);
    } else {
      var h := Word(n / 2);
      WordVal(n / 2, k - 1);
      Pow2Grows(k - 1, 63);
      TopBit(h);
      if TopAt(h, 63) {
        TopVal(h, 63);
        PlaceStep(63);
      }
      AppendHalf(h, n % 2 == 1);
      ValStep(Append(h, n % 2 == 1));
      WordStep(n);
    }
  }

  lemma WordZero()
    ensures Word(0) == 0
  {
  }

  lemma WordStep(n: nat)
    requires n > 0
    ensures Word(n) == Append(Word(n / 2), n % 2 == 1)
  {
  }

  /** Rounding up, one step before the value is read as a number. */
  lemma NextIsPower(i: bv64)
    requires i != 0
    ensures i == 1 ==> NextPowerOfTwo(i) == 1
    ensures i != 1 ==> Dec(i) != 0 && NextPowerOfTwo(i) == Twice(Top(Dec(i)))
  {
    hide Smear, Dec, Top, TopAt, Twice, Power;
    ZeroWord();
    DecZero(i);
    if i != 1 {
      var k := Top(Dec(i));
      SmearFills(Dec(i), k);
      FilledTop(Smear(Dec(i)), k);
    }
  }

  /** Up to 2^63 the result is the least power of two that is large enough. */
  lemma NextPowerOfTwoCorrect(i: bv64)
    requires 1 <= Val(i) <= Pow2(63)
    ensures exists e: nat :: e < 64 && Val(NextPowerOfTwo(i)) == Pow2(e)
    ensures Val(NextPowerOfTwo(i)) >= Val(i)
    ensures forall f: nat :: Pow2(f) >= Val(i) ==> Pow2(f) >= Val(NextPowerOfTwo(i))
  {
    hide *;
    ValStep(i);
    NextIsPower(i);
    if i == 1 {
      Pow2Step(0);
    } else {
      var k := Top(Dec(i));
      ValPred(i);
      TopVal(Dec(i), k);
      TopIndex(Dec(i), k);
      PlaceStep(k);
      if k == 63 {
        assert false;
      }
      TwoShift(k);
      PowerVal(k + 1);
      forall f: nat | Pow2(f) >= Val(i) ensures Pow2(f) >= Pow2(Place(k) + 1) {
        if f <= Place(k) {
          Pow2Grows(f, Place(k));
        } else {
          Pow2Grows(Place(k) + 1, f);
        }
      }
    }
  }

  /** Outside that range the 64-bit sum wraps around to 0. */
  lemma NextPowerOfTwoWraps(i: bv64)
    ensures NextPowerOfTwo(i) == 0 <==> Val(i) == 0 || Val(i) > Pow2(63)
  {
    hide *;
    ValStep(i);
    NextOfZero();
    if i != 0 {
      NextIsPower(i);
      if Val(i) <= Pow2(63) {
        NextPowerOfTwoCorrect(i);
        ValStep(0);
      } else {
        Pow2Step(63);
        Pow2Grows(0, 63);
        var k := Top(Dec(i));
        ValPred(i);
        TopVal(Dec(i), k);
        TopIndex(Dec(i), k);
        PlaceStep(k);
        TwoShift(k);
        if k < 63 {
          Pow2Grows(Place(k) + 1, 63);
        }
      }
    }
  }

  lemma NextOfZero()
    ensures NextPowerOfTwo(0) == 0
  {
    ZeroWord();
  }
}
