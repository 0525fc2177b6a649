/** Facts about 64-bit words that are decided bit by bit. */
module Bits {

  function Half(v: bv64): bv64 {
    v >> 1
  }

  predicate Odd(v: bv64) {
    v & 1 == 1
  }

  function Dec(v: bv64): bv64 {
    v - 1
  }

  function Power(k: bv7): bv64
    requires k < 64
  {
    1 << k
  }

  /** Twice that power, or 0 where it does not fit. */
  function Twice(k: bv7): bv64
    requires k < 64
  {
    2 << k
  }

  /** The highest bit set is bit k. */
  predicate TopAt(v: bv64, k: bv7) {
    k < 64 && v >> k == 1
  }

  /** No bit from k on is set. */
  predicate Below(v: bv64, k: bv7) {
    k < 64 && v >> k == 0
  }

  /** value |= value >> 1; ... value |= value >> 32 */
  function Smear(value: bv64): bv64 {
    var a := value | (value >> 1);
    var b := a | (a >> 2);
    var c := b | (b >> 4);
    var d := c | (c >> 8);
    var e := d | (d >> 16);
    e | (e >> 32)
  }

  lemma SmearWords(v: bv64, k: bv7)
    requires k < 64 && v >> k == 1
    ensures Smear(v) == !(0xFFFF_FFFF_FFFF_FFFE << k)
  {
  }

  /** Smearing the highest bit k sets exactly the bits from k down. */
  lemma SmearFills(v: bv64, k: bv7)
    requires TopAt(v, k)
    ensures k < 64 && Smear(v) == !(0xFFFF_FFFF_FFFF_FFFE << k)
  {
    hide Smear;
    SmearWords(v, k);
  }

  lemma FilledTop(s: bv64, k: bv7)
    requires k < 64 && s == !(0xFFFF_FFFF_FFFF_FFFE << k)
    ensures s - (s >> 1) == Power(k) && s + 1 == Twice(k)
  {
  }

  lemma TwoShift(k: bv7)
    requires k < 64
    ensures Twice(k) == if k < 63 then Power(k + 1) else 0
  {
  }

  lemma ShiftTwice(v: bv64, k: bv7)
    requires k < 64 && (v >> 1) >> k == 1
    ensures k < 63 && v >> (k + 1) == 1
  {
  }

  lemma TopStep(v: bv64, k: bv7)
    requires TopAt(v >> 1, k)
    ensures k < 63 && TopAt(v, k + 1)
  {
    ShiftTwice(v, k);
  }

  lemma TopHalf(v: bv64, k: bv7)
    requires TopAt(v, k)
    ensures v != 0
    ensures k == 0 ==> v == 1
    ensures k > 0 ==> TopAt(Half(v), k - 1) && Half(v) < v
  {
  }

  lemma BelowHalf(v: bv64, k: bv7)
    requires Below(v, k)
    ensures k == 0 ==> v == 0
    ensures k > 0 ==> Below(Half(v), k - 1)
  {
  }

  lemma PowerHalf(k: bv7)
    requires k < 64
    ensures Power(k) != 0 && TopAt(Power(k), k)
    ensures k == 0 ==> Power(k) == 1
    ensures k > 0 ==> Half(Power(k)) == Power(k - 1) && !Odd(Power(k))
  {
  }

  lemma DecOdd(v: bv64)
    requires v & 1 == 1
    ensures (v - 1) >> 1 == v >> 1 && (v - 1) & 1 == 0
  {
  }

  lemma DecEven(v: bv64)
    requires v & 1 == 0 && v != 0
    ensures v >> 1 != 0 && (v - 1) & 1 == 1
    ensures (v - 1) >> 1 == (v >> 1) - 1
  {
  }

  lemma Halves(v: bv64)
    requires v != 0
    ensures v >> 1 < v && (v & 1 == 0 || v & 1 == 1)
  {
  }

  lemma DecHalf(v: bv64)
    requires v != 0
    ensures Odd(v) ==> Half(Dec(v)) == Half(v) && !Odd(Dec(v))
    ensures !Odd(v) ==> Half(v) != 0 && Half(Dec(v)) == Dec(Half(v)) && Odd(Dec(v))
  {
    Halves(v);
    if v & 1 == 1 {
      DecOdd(v);
    } else {
      DecEven(v);
    }
  }

  /** The word with high bits h and low bit b. */
  function Append(h: bv64, b: bool): bv64 {
    (h << 1) | (if b then 1 else 0)
  }

  lemma AppendHalf(h: bv64, b: bool)
    requires Below(h, 63)
    ensures Half(Append(h, b)) == h && (Odd(Append(h, b)) <==> b)
    ensures Append(h, b) == 0 <==> h == 0 && !b
  {
  }

  lemma TopBit(h: bv64)
    ensures Below(h, 63) || TopAt(h, 63)
  {
  }

  lemma ZeroWord()
    ensures Smear(0) == 0 && Smear(Dec(0)) + 1 == 0 && Dec(1) == 0
  {
  }

  lemma DecZero(v: bv64)
    ensures Dec(v) == 0 <==> v == 1
  {
  }

  function ShiftRight(x: bv64, shift: bv7): bv64
    requires shift <= 64
  {
    x >> shift
  }

  lemma ShiftNone(x: bv64)
    ensures ShiftRight(x, 0) == x
  {
  }

  lemma ShiftFromEven(x: bv64, s: bv7)
    requires s < 64 && s & 1 == 0
    ensures s + 1 <= 64 && ShiftRight(x, s + 1) == Half(ShiftRight(x, s))
  {
  }

  lemma ShiftFromOdd(x: bv64, s: bv7)
    requires s < 64 && s & 1 == 1
    ensures s + 1 <= 64 && ShiftRight(x, s + 1) == Half(ShiftRight(x, s))
  {
  }

  lemma ShiftStep(x: bv64, s: bv7)
    requires s < 64
    ensures s + 1 <= 64 && ShiftRight(x, s + 1) == Half(ShiftRight(x, s))
  {
    hide *;
    if s & 1 == 0 {
      ShiftFromEven(x, s);
    } else {
      ShiftFromOdd(x, s);
    }
  }

  /** 11400714819323198485ull * hash */
  function Scrambled(hash: bv64): bv64 {
    11400714819323198485 * hash
  }

  /** (11400714819323198485ull * hash) >> shift */
  function FibonacciIndex(hash: bv64, shift: bv7): bv64
    requires shift <= 64
  {
    ShiftRight(Scrambled(hash), shift)
  }

  lemma TopBitsBelow(x: bv64, k: bv7)
    requires 1 <= k < 64
    ensures Below(ShiftRight(x, 64 - k), k)
  {
  }

  lemma FibonacciBelow(hash: bv64, k: bv7)
    requires 1 <= k < 64
    ensures Below(FibonacciIndex(hash, 64 - k), k)
  {
    hide ShiftRight, Below, Scrambled;
    TopBitsBelow(Scrambled(hash), k);
  }

  /** The multiplier is odd, so multiplying by it permutes the words, and the index is the top bits of a permuted
      hash. */
  lemma FibonacciPermutes(x: bv64, shift: bv7)
    requires shift <= 64
    ensures FibonacciIndex(17428512612931826493 * x, shift) == ShiftRight(x, shift)
    ensures Scrambled(17428512612931826493 * x) == x
    ensures 17428512612931826493 * (11400714819323198485 * x) == x
  {
    hide ShiftRight;
  }

  /** hash & num_slots_minus_one */
  function MaskIndex(hash: bv64, size: bv64): bv64 {
    hash & (size - 1)
  }

  lemma MaskBelow(hash: bv64, k: bv7)
    requires k < 64
    ensures Below(MaskIndex(hash, Power(k)), k)
  {
  }

  lemma MaskHalf(hash: bv64, k: bv7)
    requires 0 < k < 64
    ensures Half(MaskIndex(hash, Power(k))) == MaskIndex(Half(hash), Power(k - 1))
    ensures Odd(MaskIndex(hash, Power(k))) <==> Odd(hash)
  {
  }

  lemma MaskOne(hash: bv64)
    ensures MaskIndex(hash, 1) == 0
  {
  }

  lemma AppendParts(v: bv64)
    ensures Append(Half(v), Odd(v)) == v
  {
  }

  /** A shift amount as the machine holds it. */
  function Narrow(s: int): (b: bv7)
    requires 0 <= s <= 64
    ensures b <= 64
  {
    s as bv7
  }
}
