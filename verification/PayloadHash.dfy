/** The payload hash of the benchmark client. */
module PayloadHash {

  type Byte = bv8

  /** fws::RotateR(v, 5) */
  function RotateR5(v: bv64): bv64 {
    (v >> 5) | (v << 59)
  }

  function Mix(hash: bv64, b: Byte): bv64 {
    RotateR5(hash ^ (b as bv64))
  }

  function Hash(data: seq<Byte>): bv64 {
    if |data| == 0 then 0 else Mix(Hash(data[..|data| - 1]), data[|data| - 1])
  }

  method HashArr(data: seq<Byte>) returns (hash: bv64)
    ensures hash == Hash(data)
  {
    hash := 0;
    for i := 0 to |data|
      invariant hash == Hash(data[..i])
    {
      assert data[..i + 1][..i] == data[..i];
      hash := hash ^ (data[i] as bv64);
      hash := RotateR5(hash);
    }
    assert data[..|data|] == data;
  }

  lemma MixInjective(g: bv64, h: bv64, b: Byte)
    ensures Mix(g, b) == Mix(h, b) <==> g == h
  {
  }

  lemma MixSeesByte(h: bv64, b: Byte, c: Byte)
    ensures Mix(h, b) == Mix(h, c) <==> b == c
  {
  }

  /** Equal bytes at the end neither create nor hide a difference. */
  lemma {:induction false} CommonSuffix(a: seq<Byte>, b: seq<Byte>, s: seq<Byte>)
    ensures Hash(a + s) == Hash(b + s) <==> Hash(a) == Hash(b)
  {
    if |s| == 0 {
      assert a + s == a && b + s == b;
    } else {
      hide Mix;
      var t, x := s[..|s| - 1], s[|s| - 1];
      CommonSuffix(a, b, t);
      assert (a + s)[..|a + s| - 1] == a + t && (b + s)[..|b + s| - 1] == b + t;
      MixInjective(Hash(a + t), Hash(b + t), x);
    }
  }

  /** A change of exactly one byte always changes the hash. */
  lemma OneByteIsSeen(data: seq<Byte>, i: nat, b: Byte)
    requires i < |data|
    ensures Hash(data[i := b]) == Hash(data) <==> b == data[i]
  {
    hide Mix;
    var front, back := data[..i], data[i + 1..];
    assert data == (front + [data[i]]) + back && data[i := b] == (front + [b]) + back;
    CommonSuffix(front + [data[i]], front + [b], back);
    assert (front + [b])[..i] == front && (front + [data[i]])[..i] == front;
    MixSeesByte(Hash(front), data[i], b);
  }

  /** Where two words differ. */
  function Diff(g: bv64, h: bv64): bv64 {
    g ^ h
  }

  function XorByte(b: Byte, c: Byte): Byte {
    b ^ c
  }

  function ByteDiff(b: Byte, c: Byte): bv64 {
    XorByte(b, c) as bv64
  }

  /** Where two buffers differ, byte by byte. */
  ghost function Xor(a: seq<Byte>, b: seq<Byte>): seq<Byte>
    requires |a| == |b|
  {
    seq(|a|, i requires 0 <= i < |a| => XorByte(a[i], b[i]))
  }

  lemma MixWords(g: bv64, h: bv64, b: Byte, c: Byte)
    ensures Mix(g ^ h, b ^ c) == Mix(g, b) ^ Mix(h, c)
  {
  }

  lemma MixLinear(g: bv64, h: bv64, b: Byte, c: Byte)
    ensures Mix(Diff(g, h), XorByte(b, c)) == Diff(Mix(g, b), Mix(h, c))
  {
    hide Mix;
    MixWords(g, h, b, c);
  }

  lemma DiffZero(g: bv64, h: bv64)
    ensures Diff(g, h) == 0 <==> g == h
  {
  }

  lemma XorSnoc(a: seq<Byte>, b: seq<Byte>)
    requires |a| == |b| > 0
    ensures Xor(a, b) == Xor(a[..|a| - 1], b[..|a| - 1]) + [XorByte(a[|a| - 1], b[|a| - 1])]
  {
    hide XorByte;
  }

  lemma HashSnoc(s: seq<Byte>, b: Byte)
    ensures Hash(s + [b]) == Mix(Hash(s), b)
  {
    assert (s + [b])[..|s|] == s;
  }

  lemma HashEmpty(a: seq<Byte>, b: seq<Byte>)
    requires |a| == |b| == 0
    ensures Hash(Xor(a, b)) == Diff(Hash(a), Hash(b))
  {
    DiffZero(0, 0);
  }

  /** The hash of a difference is the difference of the hashes. */
  lemma {:induction false} HashLinear(a: seq<Byte>, b: seq<Byte>)
    requires |a| == |b|
    ensures Hash(Xor(a, b)) == Diff(Hash(a), Hash(b))
    decreases |a|
  {
    var n := |a| - 1;
    if |a| == 0 {
      HashEmpty(a, b);
    } else {
      hide *;
      var c, d := a[..n], b[..n];
      HashLinear(c, d);
      XorSnoc(a, b);
      assert a == c + [a[n]] && b == d + [b[n]];
      HashSnoc(c, a[n]);
      HashSnoc(d, b[n]);
      HashSnoc(Xor(c, d), XorByte(a[n], b[n]));
      MixLinear(Hash(c), Hash(d), a[n], b[n]);
    }
  }

  /** Two buffers of the same length collide exactly when their difference hashes to 0. */
  lemma CollideExactly(a: seq<Byte>, b: seq<Byte>)
    requires |a| == |b|
    ensures Hash(a) == Hash(b) <==> Hash(Xor(a, b)) == 0
  {
    hide Hash, Xor, Diff;
    HashLinear(a, b);
    DiffZero(Hash(a), Hash(b));
  }

  /** Rotating right by 5n. */
  function Rotated(v: bv64, n: nat): bv64 {
    if n == 0 then v else RotateR5(Rotated(v, n - 1))
  }

  lemma RotatedStep(v: bv64, n: nat)
    ensures Rotated(v, 0) == v && Rotated(v, n + 1) == RotateR5(Rotated(v, n))
  {
  }

  lemma MixDifference(g: bv64, h: bv64, b: Byte)
    ensures Diff(Mix(g, b), Mix(h, b)) == RotateR5(Diff(g, h))
  {
  }

  lemma ByteDifference(h: bv64, b: Byte, c: Byte)
    ensures Diff(Mix(h, b), Mix(h, c)) == RotateR5(ByteDiff(b, c))
  {
  }

  /** Equal bytes carry a difference on, rotated once each. */
  lemma {:induction false} DifferenceTravels(a: seq<Byte>, b: seq<Byte>, s: seq<Byte>)
    ensures Diff(Hash(a + s), Hash(b + s)) == Rotated(Diff(Hash(a), Hash(b)), |s|)
    decreases |s|
  {
    hide Mix, RotateR5, Rotated, Diff, Hash;
    if |s| == 0 {
      assert a + s == a && b + s == b;
      RotatedStep(Diff(Hash(a), Hash(b)), 0);
    } else {
      var t, x := s[..|s| - 1], s[|s| - 1];
      DifferenceTravels(a, b, t);
      assert a + s == (a + t) + [x] && b + s == (b + t) + [x];
      HashSnoc(a + t, x);
      HashSnoc(b + t, x);
      MixDifference(Hash(a + t), Hash(b + t), x);
      RotatedStep(Diff(Hash(a), Hash(b)), |t|);
    }
  }

  lemma {:induction false} RotatedOnce(v: bv64, n: nat)
    ensures Rotated(RotateR5(v), n) == Rotated(v, n + 1)
  {
    hide RotateR5, Rotated;
    RotatedStep(v, n);
    RotatedStep(v, 0);
    RotatedStep(RotateR5(v), 0);
    if n > 0 {
      RotatedOnce(v, n - 1);
      RotatedStep(RotateR5(v), n - 1);
    }
  }

  lemma RotateIsRotation(v: bv64)
    ensures RotateR5(v) == v.RotateRight(5)
  {
  }

  lemma FirstByte(x: Byte)
    ensures Diff(Hash([x]), Hash([])) == RotateR5(Wide(x))
  {
  }

  lemma DiffSolve(g: bv64, h: bv64, d: bv64)
    requires Diff(g, h) == d
    ensures g == Diff(d, h)
  {
  }

  /** The hash from the front: each byte enters rotated once for itself and once for every byte after it. */
  lemma HashFront(x: Byte, s: seq<Byte>)
    ensures Hash([]) == 0 && Hash([x] + s) == Diff(Rotated(Wide(x), |s| + 1), Hash(s))
  {
    assert Hash([]) == 0;
    hide *;
    DifferenceTravels([x], [], s);
    FirstByte(x);
    RotatedOnce(Wide(x), |s|);
    assert [] + s == s;
    DiffSolve(Hash([x] + s), Hash(s), Rotated(Wide(x), |s| + 1));
  }

  lemma RotateInjective(x: bv64, y: bv64)
    ensures RotateR5(x) == RotateR5(y) <==> x == y
  {
  }

  lemma DiffAssociates(g: bv64, h: bv64, x: bv64)
    ensures Diff(Diff(g, h), x) == Diff(g, Diff(h, x))
  {
  }

  lemma DiffCommutes(g: bv64, h: bv64)
    ensures Diff(g, h) == Diff(h, g)
  {
  }

  lemma DiffOfDiffs(g: bv64, h: bv64, x: bv64, y: bv64)
    ensures Diff(Diff(g, x), Diff(h, y)) == Diff(Diff(g, h), Diff(x, y))
  {
    hide Diff;
    DiffAssociates(g, x, Diff(h, y));
    DiffAssociates(x, h, y);
    DiffCommutes(x, h);
    DiffAssociates(h, x, y);
    DiffAssociates(g, h, Diff(x, y));
  }

  function Wide(b: Byte): bv64 {
    b as bv64
  }

  lemma MixWide(h: bv64, b: Byte)
    ensures Mix(h, b) == RotateR5(Diff(h, Wide(b)))
  {
    hide RotateR5;
  }

  lemma DiffWide(b: Byte, c: Byte)
    ensures Diff(Wide(b), Wide(c)) == ByteDiff(b, c)
  {
  }

  lemma MixMeets(g: bv64, h: bv64, b: Byte, c: Byte)
    ensures Mix(g, b) == Mix(h, c) <==> Diff(g, h) == ByteDiff(b, c)
  {
    hide *;
    var x, y := Wide(b), Wide(c);
    MixWide(g, b);
    MixWide(h, c);
    DiffWide(b, c);
    RotateInjective(Diff(g, x), Diff(h, y));
    DiffZero(Diff(g, x), Diff(h, y));
    DiffOfDiffs(g, h, x, y);
    DiffZero(Diff(g, h), Diff(x, y));
  }

  lemma TwoChanges(data: seq<Byte>, i: nat, j: nat, b: Byte, c: Byte)
    requires i < j < |data|
    ensures var front, middle, back := data[..i], data[i + 1..j], data[j + 1..];
            && data == (front + [data[i]] + middle + [data[j]]) + back
            && data[i := b][j := c] == (front + [b] + middle + [c]) + back
  {
  }

  /** Changing two bytes goes unseen exactly when the second change is the first one rotated along. */
  lemma TwoBytesCancelExactly(data: seq<Byte>, i: nat, j: nat, b: Byte, c: Byte)
    requires i < j < |data|
    ensures Hash(data[i := b][j := c]) == Hash(data) <==>
            Rotated(ByteDiff(data[i], b), j - i) == ByteDiff(data[j], c)
  {
    hide *;
    var front, middle, back := data[..i], data[i + 1..j], data[j + 1..];
    var p, q := front + [data[i]], front + [b];
    TwoChanges(data, i, j, b, c);
    CommonSuffix(p + middle + [data[j]], q + middle + [c], back);
    HashSnoc(p + middle, data[j]);
    HashSnoc(q + middle, c);
    MixMeets(Hash(p + middle), Hash(q + middle), data[j], c);
    DifferenceTravels(p, q, middle);
    HashSnoc(front, data[i]);
    HashSnoc(front, b);
    ByteDifference(Hash(front), data[i], b);
    RotatedOnce(ByteDiff(data[i], b), |middle|);
  }

  /** Such changes exist for the digits a payload consists of: "00" against 0x10 0x31. */
  lemma TwoBytesMayCancel()
    ensures Hash([0x30, 0x30]) == Hash([0x10, 0x31])
  {
    var data: seq<Byte> := [0x30, 0x30];
    TwoBytesCancelExactly(data, 0, 1, 0x10, 0x31);
    RotatedStep(0x20, 0);
    assert ByteDiff(data[0], 0x10) == 0x20 && RotateR5(0x20) == 0x1 && ByteDiff(data[1], 0x31) == 0x1;
    assert data[0 := 0x10][1 := 0x31] == [0x10, 0x31];
  }
}
