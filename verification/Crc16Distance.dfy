/** Two inverted bits: the checksum misses them exactly if they are a multiple of 32767 bits apart. */
module Crc16Distance {
  import opened Octets
  import opened Crc16Arc

  /** The number of shifts after which the register repeats itself. */
  const PERIOD: nat := 32767

  /* ---------- Shifting many times ---------- */

  lemma {:induction false} ShiftManySum(c: bv16, a: nat, b: nat)
    ensures ShiftMany(c, a + b) == ShiftMany(ShiftMany(c, a), b)
    decreases a
  {
    hide Shift;
    if a > 0 {
      ShiftManySum(Shift(c), a - 1, b);
    }
  }

  lemma {:induction false} ShiftManyZero(n: nat)
    ensures ShiftMany(0, n) == 0
  {
    if n > 0 {
      ShiftManyZero(n - 1);
    }
  }

  /* ---------- Adding up numbers of shifts ---------- */

  function Halve(w: bv16): bv16 {
    w >> 1
  }

  function Step(acc: bv16, a: bv16, w: bv16): bv16 {
    Shift(if w & 1 == 1 then Xor(acc, a) else acc)
  }

  /** Feed the low bits of w, with a in the place of the bit that is mixed in. */
  function Gather(acc: bv16, a: bv16, w: bv16, n: nat): bv16
    decreases n
  {
    if n == 0 then acc else Gather(Step(acc, a, w), a, Halve(w), n - 1)
  }

  lemma {:induction false} GatherOne(acc: bv16, w: bv16, n: nat)
    ensures Gather(acc, 1, w, n) == CrcBits(acc, LowBits(w, n))
    decreases n
  {
    hide Shift, Xor;
    if n > 0 {
      GatherOne(Step(acc, 1, w), Halve(w), n - 1);
      assert LowBits(w, n)[1..] == LowBits(w >> 1, n - 1);
    }
  }

  lemma StepShifted(acc: bv16, a: bv16, w: bv16)
    ensures Step(Shift(acc), Shift(a), w) == Shift(Step(acc, a, w))
  {
    hide Shift, Xor;
    ShiftXor(acc, a);
  }

  lemma {:induction false} GatherShifted(acc: bv16, a: bv16, w: bv16, n: nat)
    ensures Gather(Shift(acc), Shift(a), w, n) == Shift(Gather(acc, a, w, n))
    decreases n
  {
    hide Shift, Step, Halve;
    if n > 0 {
      StepShifted(acc, a, w);
      GatherShifted(Step(acc, a, w), a, Halve(w), n - 1);
    }
  }

  lemma {:induction false} GatherManyShifted(acc: bv16, a: bv16, w: bv16, n: nat, k: nat)
    ensures Gather(ShiftMany(acc, k), ShiftMany(a, k), w, n) == ShiftMany(Gather(acc, a, w, n), k)
    decreases k
  {
    hide Shift, Gather;
    if k > 0 {
      GatherShifted(acc, a, w, n);
      GatherManyShifted(Shift(acc), Shift(a), w, n, k - 1);
    }
  }

  lemma NothingLeft(w: bv16)
    ensures DropBits(w, 16) == 0
  {
    var w4 := (((w >> 1) >> 1) >> 1) >> 1;
    var w8 := (((w4 >> 1) >> 1) >> 1) >> 1;
    var w12 := (((w8 >> 1) >> 1) >> 1) >> 1;
    assert DropBits(w, 16) == DropBits(w4, 12) && DropBits(w4, 12) == DropBits(w8, 8);
    assert DropBits(w8, 8) == DropBits(w12, 4);
    assert w4 == w >> 4 && w8 == w >> 8 && w12 == w >> 12;
    assert (((w12 >> 1) >> 1) >> 1) >> 1 == 0;
  }

  lemma WordOfFed(w: bv16)
    ensures CrcBits(0, LowBits(w, 16)) == ShiftMany(w, 16)
  {
    hide Shift, Xor, CrcBits, LowBits;
    InjectMany(0, w, 16);
    NothingLeft(w);
    XorZero(CrcBits(0, LowBits(w, 16)));
    ZeroXor(w);
  }

  /** One shifted n times, gathered by one shifted m times, is one shifted n + m + 16 times. */
  lemma GatheredShifts(n: nat, m: nat)
    ensures Gather(0, ShiftMany(1, n), ShiftMany(1, m), 16) == ShiftMany(1, n + m + 16)
  {
    hide Shift, CrcBits, Gather;
    var w := ShiftMany(1, m);
    ShiftManyZero(n);
    GatherManyShifted(0, 1, w, 16, n);
    GatherOne(0, w, 16);
    WordOfFed(w);
    ShiftManySum(1, m, 16);
    ShiftManySum(1, m + 16, n);
  }

  /* ---------- Computing with numbers of shifts ---------- */

  function Halve4(w: bv16): bv16 {
    Halve(Halve(Halve(Halve(w))))
  }

  function Gather4(acc: bv16, a: bv16, w: bv16): bv16 {
    Step(Step(Step(Step(acc, a, w), a, Halve(w)), a, Halve(Halve(w))), a, Halve(Halve(Halve(w))))
  }

  function Gather16(a: bv16, w: bv16): bv16 {
    var w1 := Halve4(w);
    var w2 := Halve4(w1);
    Gather4(Gather4(Gather4(Gather4(0, a, w), a, w1), a, w2), a, Halve4(w2))
  }

  lemma Gather4IsGather(acc: bv16, a: bv16, w: bv16, n: nat)
    ensures Gather(acc, a, w, n + 4) == Gather(Gather4(acc, a, w), a, Halve4(w), n)
  {
    hide Step, Halve;
    var w1, c1 := Halve(w), Step(acc, a, w);
    var w2, c2 := Halve(w1), Step(c1, a, w1);
    assert Gather(acc, a, w, n + 4) == Gather(c1, a, w1, n + 3) == Gather(c2, a, w2, n + 2);
    assert Gather(c2, a, w2, n + 2) == Gather(Step(c2, a, w2), a, Halve(w2), n + 1);
  }

  lemma Gather16IsGather(a: bv16, w: bv16)
    ensures Gather(0, a, w, 16) == Gather16(a, w)
  {
    hide Gather4, Halve4, Gather;
    var w1, c1 := Halve4(w), Gather4(0, a, w);
    var w2, c2 := Halve4(w1), Gather4(c1, a, w1);
    var w3, c3 := Halve4(w2), Gather4(c2, a, w2);
    Gather4IsGather(0, a, w, 12);
    Gather4IsGather(c1, a, w1, 8);
    Gather4IsGather(c2, a, w2, 4);
    Gather4IsGather(c3, a, w3, 0);
    GatherNothing(Gather4(c3, a, w3), a, Halve4(w3));
  }

  lemma GatherNothing(acc: bv16, a: bv16, w: bv16)
    ensures Gather(acc, a, w, 0) == acc
  {
  }

  lemma Combine(n: nat, a: bv16, m: nat, w: bv16)
    requires ShiftMany(1, n) == a && ShiftMany(1, m) == w
    ensures ShiftMany(1, n + m + 16) == Gather16(a, w)
  {
    hide ShiftMany, Gather, Gather16;
    GatheredShifts(n, m);
    Gather16IsGather(a, w);
  }

  lemma Doublings()
    ensures Gather16(0x0001, 0x0001) == 0x9001
    ensures Gather16(0x9001, 0x9001) == 0xd101
    ensures Gather16(0xd101, 0xd101) == 0xc100
    ensures Gather16(0xc100, 0xc100) == 0x5001
    ensures Gather16(0x5001, 0x5001) == 0x8101
    ensures Gather16(0x8101, 0x8101) == 0xd000
  {
  }

  lemma MoreDoublings()
    ensures Gather16(0xd000, 0xd000) == 0x5100
    ensures Gather16(0x5100, 0x5100) == 0x1101
    ensures Gather16(0x1101, 0x1101) == 0x9100
    ensures Gather16(0x9100, 0x9100) == 0x4101
    ensures Gather16(0x4101, 0x4101) == 0x8000
  {
  }

  lemma Sums()
    ensures Gather16(0xc100, 0xd101) == 0xccd0
    ensures Gather16(0xccd0, 0x9001) == 0xfff8
    ensures Gather16(0xd000, 0x9001) == 0xf901
    ensures Gather16(0xf901, 0x0001) == 0xd2c1
    ensures Gather16(0x1101, 0x8101) == 0xf490
    ensures Gather16(0xf490, 0xd101) == 0xa3bc
    ensures Gather16(0xa3bc, 0x0001) == 0xb930
  {
  }

  /** One shifted as often as the powers of two say, less sixteen. */
  lemma Powers()
    ensures ShiftMany(1, 0) == 0x0001 && ShiftMany(1, 16) == 0x9001 && ShiftMany(1, 48) == 0xd101
    ensures ShiftMany(1, 112) == 0xc100 && ShiftMany(1, 496) == 0x8101 && ShiftMany(1, 1008) == 0xd000
    ensures ShiftMany(1, 4080) == 0x1101 && ShiftMany(1, 32752) == 0x8000
  {
    hide Gather16;
    assert ShiftMany(1, 0) == 1;
    hide ShiftMany;
    Doublings();
    MoreDoublings();
    Combine(0, 0x0001, 0, 0x0001);
    Combine(16, 0x9001, 16, 0x9001);
    Combine(48, 0xd101, 48, 0xd101);
    Combine(112, 0xc100, 112, 0xc100);
    Combine(240, 0x5001, 240, 0x5001);
    Combine(496, 0x8101, 496, 0x8101);
    Combine(1008, 0xd000, 1008, 0xd000);
    Combine(2032, 0x5100, 2032, 0x5100);
    Combine(4080, 0x1101, 4080, 0x1101);
    Combine(8176, 0x9100, 8176, 0x9100);
    Combine(16368, 0x4101, 16368, 0x4101);
  }

  lemma LastShifts()
    ensures ShiftMany(0x8000, 15) == 1
    ensures ShiftMany(0xfff8, 9) != 1 && ShiftMany(0xd2c1, 1) != 1 && ShiftMany(0xb930, 9) != 1
  {
    ShiftManySum(0x8000, 8, 7);
    Shift8IsShiftMany(0x8000);
    Shift8IsShiftMany(0xfff8);
    Shift8IsShiftMany(0xb930);
    ShiftManySum(0xfff8, 8, 1);
    ShiftManySum(0xb930, 8, 1);
    assert Shift8(0x8000) == 0x0080;
    assert ShiftMany(0x0080, 7) == ShiftMany(0x0008, 3);
  }

  /* ---------- The period ---------- */

  /** After n shifts the register is back at one. */
  predicate Returns(n: nat) {
    ShiftMany(1, n) == 1
  }

  lemma PeriodReturns()
    ensures Returns(PERIOD)
  {
    hide ShiftMany;
    Powers();
    LastShifts();
    ShiftManySum(1, 32752, 15);
  }

  /** No part of the period that lacks one of its primes is a period itself: 32767 is 7 times 31 times 151. */
  lemma PartsDoNotReturn()
    ensures !Returns(4681) && !Returns(1057) && !Returns(217)
  {
    hide ShiftMany, Gather16;
    Powers();
    Sums();
    LastShifts();
    Combine(112, 0xc100, 48, 0xd101);
    Combine(176, 0xccd0, 16, 0x9001);
    ShiftManySum(1, 208, 9);
    Combine(1008, 0xd000, 16, 0x9001);
    Combine(1040, 0xf901, 0, 0x0001);
    ShiftManySum(1, 1056, 1);
    Combine(4080, 0x1101, 496, 0x8101);
    Combine(4592, 0xf490, 48, 0xd101);
    Combine(4656, 0xa3bc, 0, 0x0001);
    ShiftManySum(1, 4672, 9);
  }

  lemma ReturnsOnce(a: nat, b: nat)
    requires Returns(a)
    ensures Returns(a + b) <==> Returns(b)
  {
    ShiftManySum(1, a, b);
  }

  lemma {:induction false} ReturnsOften(a: nat, k: nat)
    requires Returns(a)
    ensures Returns(k * a)
    decreases k
  {
    hide Returns;
    if k == 0 {
      ReturnsNever();
    } else {
      ReturnsOften(a, k - 1);
      ReturnsOnce(a, (k - 1) * a);
      assert k * a == a + (k - 1) * a;
    }
  }

  lemma ReturnsNever()
    ensures Returns(0)
  {
  }

  /** A number has no factors but one and itself. */
  ghost predicate IsPrime(q: nat) {
    1 < q && forall c: nat, k: nat :: 1 < c < q ==> c * k != q
  }

  lemma {:induction false} Descend(q: nat, part: nat, c: nat)
    requires IsPrime(q) && 0 < c < q && Returns(part * q) && Returns(part * c)
    ensures Returns(part)
    decreases c
  {
    hide Returns;
    if c > 1 {
      var k, r := Quotient(q, c);
      Distribute(part, c, k, r);
      ReturnsOften(part * c, k);
      ReturnsOnce(k * (part * c), part * r);
      assert c * k != q;
      Descend(q, part, r);
    }
  }

  lemma SmallFactor(q: nat, c: nat, k: nat)
    requires q in {7, 31, 151} && 1 < c < q && c <= 12
    ensures c * k != q
  {
    if c == 2 {
    } else if c == 3 {
    } else if c == 4 {
    } else if c == 5 {
    } else if c == 6 {
    } else if c == 7 {
    } else if c == 8 {
    } else if c == 9 {
    } else if c == 10 {
    } else if c == 11 {
    }
  }

  lemma LargeFactors(c: nat, k: nat)
    requires 12 < c && 12 < k
    ensures c * k > 151
  {
    assert c * k >= 13 * k;
  }

  lemma FactorsOfPeriod(q: nat)
    requires q in {7, 31, 151}
    ensures IsPrime(q)
  {
    forall c: nat, k: nat | 1 < c < q ensures c * k != q {
      if c <= 12 {
        SmallFactor(q, c, k);
      } else if k > 12 {
        LargeFactors(c, k);
      } else if k > 1 {
        SmallFactor(q, k, c);
      }
    }
  }

  /** A number of shifts that returns has every prime of the period for a factor. */
  lemma HasFactor(d: nat, q: nat, part: nat)
    requires IsPrime(q) && part * q == PERIOD && !Returns(part) && Returns(d)
    ensures d % q == 0
  {
    hide Returns;
    var k, c := Quotient(d, q);
    if c != 0 {
      hide IsPrime;
      PeriodReturns();
      ReturnsOften(d, part);
      ReturnsOften(PERIOD, k);
      Distribute(part, q, k, c);
      ReturnsOnce(k * PERIOD, part * c);
      Descend(q, part, c);
    }
  }

  lemma Quotient(d: nat, q: nat) returns (k: nat, c: nat)
    requires 0 < q
    ensures d == q * k + c && c == d % q < q
  {
    k, c := d / q, d % q;
  }

  lemma Distribute(part: nat, q: nat, k: nat, c: nat)
    ensures part * (q * k + c) == k * (part * q) + part * c
  {
    assert part * (q * k) == k * (part * q);
  }

  lemma FactorsMultiply(d: nat)
    requires d % 7 == 0 && d % 31 == 0 && d % 151 == 0
    ensures d % PERIOD == 0
  {
    var a, b, f := d / 7, d / 31, d / 151;
    assert d == 7 * a && d == 31 * b && d == 151 * f;
    var e := 9 * b - 2 * a;
    assert d == 217 * e;
    var g := 135 * f - 194 * e;
    assert d == PERIOD * g;
  }

  /** The register returns after the multiples of the period and at no other time. */
  lemma ReturnsExactly(d: nat)
    ensures Returns(d) <==> d % PERIOD == 0
  {
    hide Returns, IsPrime;
    if d % PERIOD == 0 {
      PeriodReturns();
      ReturnsOften(PERIOD, d / PERIOD);
    }
    if Returns(d) {
      PartsDoNotReturn();
      FactorsOfPeriod(7);
      FactorsOfPeriod(31);
      FactorsOfPeriod(151);
      HasFactor(d, 7, 4681);
      HasFactor(d, 31, 1057);
      HasFactor(d, 151, 217);
      FactorsMultiply(d);
    }
  }

  /* ---------- Two inverted bits ---------- */

  /** Equal input shifts a difference on. */
  lemma {:induction false} DifferenceShifts(c: bv16, c': bv16, bits: seq<bool>)
    ensures Xor(CrcBits(c, bits), CrcBits(c', bits)) == ShiftMany(Xor(c, c'), |bits|)
    decreases |bits|
  {
    hide Shift, CrcBit, Xor;
    if bits != [] {
      CrcBitDifference(c, c', bits[0], bits[0]);
      DifferenceShifts(CrcBit(c, bits[0]), CrcBit(c', bits[0]), bits[1..]);
    }
  }

  lemma FirstInversion(c: bv16, b: bool)
    ensures Xor(CrcBit(c, b), CrcBit(c, !b)) == Shift(1)
  {
    hide Shift, CrcBit, Xor;
    CrcBitDifference(c, c, b, !b);
    ZeroXor(c);
    ZeroXor(1);
  }

  lemma SecondInversion(c: bv16, c': bv16, b: bool)
    ensures CrcBit(c, b) == CrcBit(c', !b) <==> Xor(c, c') == 1
  {
    hide Shift, CrcBit, Xor;
    CrcBitDifference(c, c', b, !b);
    XorSame(CrcBit(c, b), CrcBit(c', !b));
    XorSame(Xor(c, c'), 1);
    ShiftOfZero();
    if Xor(Xor(c, c'), 1) != 0 {
      ShiftKeepsNonZero(Xor(Xor(c, c'), 1));
    }
  }

  lemma ShiftOfZero()
    ensures Shift(0) == 0
  {
  }

  /** Two bits inverted with |q| bits between them. */
  lemma TwoInversionsInRegister(crc: bv16, p: seq<bool>, b: bool, q: seq<bool>, b': bool, v: seq<bool>)
    ensures CrcBits(crc, p + [b] + q + [b'] + v) == CrcBits(crc, p + [!b] + q + [!b'] + v)
       <==> (|q| + 1) % PERIOD == 0
  {
    hide Shift, CrcBit, Xor, CrcBits;
    var c := CrcBits(crc, p);
    var d, d' := CrcBit(c, b), CrcBit(c, !b);
    var e, e' := CrcBits(d, q), CrcBits(d', q);
    FirstInversion(c, b);
    DifferenceShifts(d, d', q);
    assert ShiftMany(1, |q| + 1) == ShiftMany(Shift(1), |q|);
    ReturnsExactly(|q| + 1);
    SecondInversion(e, e', b');
    if CrcBit(e, b') != CrcBit(e', !b') {
      DifferenceSurvives(CrcBit(e, b'), CrcBit(e', !b'), v);
    }
    FedInTurn(crc, p, b, q, b', v);
    FedInTurn(crc, p, !b, q, !b', v);
  }

  lemma FedInTurn(crc: bv16, p: seq<bool>, b: bool, q: seq<bool>, b': bool, v: seq<bool>)
    ensures CrcBits(crc, p + [b] + q + [b'] + v) == CrcBits(CrcBit(CrcBits(CrcBit(CrcBits(crc, p), b), q), b'), v)
  {
    hide CrcBit;
    CrcBitsConcat(crc, p, [b]);
    CrcBitsConcat(crc, p + [b], q);
    CrcBitsConcat(crc, p + [b] + q, [b']);
    CrcBitsConcat(crc, p + [b] + q + [b'], v);
    OneFed(CrcBits(crc, p), b);
    OneFed(CrcBits(crc, p + [b] + q), b');
  }

  lemma OneFed(c: bv16, b: bool)
    ensures CrcBits(c, [b]) == CrcBit(c, b)
  {
  }

  /** Messages of one length that differ in exactly two transmitted bits. */
  ghost predicate TwoBitsApart(m: seq<octet>, m': seq<octet>, i: nat, j: nat) {
    && |m| == |m'| && i < j < 8 * |m|
    && forall k :: 0 <= k < 8 * |m| ==> (Bits(m)[k] != Bits(m')[k] <==> k == i || k == j)
  }

  lemma SplitAtTwo(s: seq<bool>, i: nat, j: nat)
    requires i < j < |s|
    ensures s == s[0..i] + [s[i]] + s[i + 1..j] + [s[j]] + s[j + 1..|s|]
  {
  }

  lemma SameSlice(a: seq<bool>, b: seq<bool>, lo: nat, hi: nat)
    requires lo <= hi <= |a| == |b| && forall k :: lo <= k < hi ==> a[k] == b[k]
    ensures a[lo..hi] == b[lo..hi]
  {
  }

  /** Two inverted bits go unnoticed if and only if their distance is a multiple of 32767 bits. */
  lemma TwoInversionsDetected(crc: bv16, m: seq<octet>, m': seq<octet>, i: nat, j: nat)
    requires TwoBitsApart(m, m', i, j)
    ensures Crc(crc, m) != Crc(crc, m') <==> (j - i) % PERIOD != 0
  {
    hide Crc, CrcBits, Bits;
    var a, b := Bits(m), Bits(m');
    SplitAtTwo(a, i, j);
    SplitAtTwo(b, i, j);
    SameSlice(a, b, 0, i);
    SameSlice(a, b, i + 1, j);
    SameSlice(a, b, j + 1, |a|);
    TwoInversionsInRegister(crc, a[0..i], a[i], a[i + 1..j], a[j], a[j + 1..|a|]);
    CrcIsSerial(crc, m);
    CrcIsSerial(crc, m');
  }

  /** So in messages of less than 4096 octets none do. */
  lemma TwoInversionsInShortMessage(initial: word, m: seq<octet>, m': seq<octet>, i: nat, j: nat)
    requires TwoBitsApart(m, m', i, j) && |m| < 4096
    ensures Checksum(initial, m) != Checksum(initial, m')
  {
    hide Crc, TwoBitsApart;
    assert i < j < 8 * |m| by { TwoPlaces(m, m', i, j); }
    TwoInversionsDetected(initial as bv16, m, m', i, j);
    RegisterAndBack(Crc(initial as bv16, m));
    RegisterAndBack(Crc(initial as bv16, m'));
  }

  lemma TwoPlaces(m: seq<octet>, m': seq<octet>, i: nat, j: nat)
    requires TwoBitsApart(m, m', i, j)
    ensures i < j < 8 * |m|
  {
  }

  lemma {:induction false} NoInversion(a: seq<bool>, b: seq<bool>)
    requires |a| == |b| && Inversions(a, b) == 0
    ensures a == b
  {
    if a != [] {
      NoInversion(a[1..], b[1..]);
      assert a == [a[0]] + a[1..] && b == [b[0]] + b[1..];
    }
  }

  lemma {:induction false} OneInversion(a: seq<bool>, b: seq<bool>) returns (j: nat)
    requires |a| == |b| && Inversions(a, b) == 1
    ensures j < |a| && forall k :: 0 <= k < |a| ==> (a[k] != b[k] <==> k == j)
  {
    if a[0] != b[0] {
      NoInversion(a[1..], b[1..]);
      j := 0;
      assert forall k :: 1 <= k < |a| ==> a[k] == a[1..][k - 1] && b[k] == b[1..][k - 1];
    } else {
      var rest := OneInversion(a[1..], b[1..]);
      j := rest + 1;
      assert forall k :: 1 <= k < |a| ==> a[k] == a[1..][k - 1] && b[k] == b[1..][k - 1];
    }
  }

  lemma {:induction false} TwoInversions(a: seq<bool>, b: seq<bool>) returns (i: nat, j: nat)
    requires |a| == |b| && Inversions(a, b) == 2
    ensures i < j < |a| && forall k :: 0 <= k < |a| ==> (a[k] != b[k] <==> k == i || k == j)
  {
    if a[0] != b[0] {
      var rest := OneInversion(a[1..], b[1..]);
      i, j := 0, rest + 1;
    } else {
      var first, second := TwoInversions(a[1..], b[1..]);
      i, j := first + 1, second + 1;
    }
    assert forall k :: 1 <= k < |a| ==> a[k] == a[1..][k - 1] && b[k] == b[1..][k - 1];
  }

  /** In messages of less than 4096 octets, one, two or three inverted bits never go unnoticed, wherever they are. */
  lemma ThreeInversionsDetected(initial: word, m: seq<octet>, m': seq<octet>)
    requires |m| == |m'| < 4096 && 1 <= Inversions(Bits(m), Bits(m')) <= 3
    ensures Checksum(initial, m) != Checksum(initial, m')
  {
    hide Checksum, Bits, Inversions;
    if Inversions(Bits(m), Bits(m')) == 2 {
      var i, j := TwoInversions(Bits(m), Bits(m'));
      TwoInversionsInShortMessage(initial, m, m', i, j);
    } else {
      ChecksumDetectsOddInversions(initial, m, m');
    }
  }

  /** An octet fed in one place and zero in the other. */
  lemma OctetApart(c: bv16, c': bv16, d: bv8)
    ensures Xor(CrcOctet(c, d), CrcOctet(c', 0)) == Shift8(Xor(Xor(c, c'), Word(d)))
  {
    hide CrcOctet, Shift8, Xor;
    CrcOctetIsShift8(c, d);
    CrcOctetIsShift8(c', 0);
    Shift8Xor(Xor(c, Word(d)), Xor(c', Word(0)));
    XorZero(c');
    XorLeft(c, c', Word(d));
  }

  lemma FourInversionsCancel()
    ensures Shift8(Xor(0x0000, Word(0x03))) == 0x0140
    ensures Shift8(Xor(0x0140, Word(0x40))) == 0x0001
    ensures Shift8(Xor(0x0001, Word(0x01))) == 0x0000
  {
  }

  lemma FourInversionsAsOctets()
    ensures Byte(0x03) == 0x03 && Byte(0x40) == 0x40 && Byte(0x01) == 0x01 && Byte(0x00) == 0x00
  {
    ByteAndBack(0x03);
    ByteAndBack(0x40);
    ByteAndBack(0x01);
    ByteAndBack(0x00);
  }

  /** Four inverted bits, seventeen places from the first to the last, that go unnoticed wherever they are. */
  lemma FourInversionsPass(crc: bv16, p: seq<octet>, v: seq<octet>)
    ensures Crc(crc, p + [0x03, 0x40, 0x01] + v) == Crc(crc, p + [0x00, 0x00, 0x00] + v)
  {
    hide Crc;
    CrcConcat(crc, p + [0x03, 0x40, 0x01], v);
    CrcConcat(crc, p + [0x00, 0x00, 0x00], v);
    CrcConcat(crc, p, [0x03, 0x40, 0x01]);
    CrcConcat(crc, p, [0x00, 0x00, 0x00]);
    ThreeOctets(Crc(crc, p));
  }

  lemma ThreeOctets(c: bv16)
    ensures Crc(c, [0x03, 0x40, 0x01]) == Crc(c, [0x00, 0x00, 0x00])
  {
    hide CrcOctet, Xor, Shift8, Word;
    FourInversionsCancel();
    ZeroXor(c);
    var c1, d1 := CrcOctet(c, 0x03), CrcOctet(c, 0x00);
    var c2, d2 := CrcOctet(c1, 0x40), CrcOctet(d1, 0x00);
    var c3, d3 := CrcOctet(c2, 0x01), CrcOctet(d2, 0x00);
    OctetApart(c, c, 0x03);
    OctetApart(c1, d1, 0x40);
    OctetApart(c2, d2, 0x01);
    XorSame(c3, d3);
    FourInversionsAsOctets();
    assert [0x03, 0x40, 0x01][1..] == [0x40, 0x01] && [0x40, 0x01][1..] == [0x01] && [0x01][1..] == [];
    assert [0x00, 0x00, 0x00][1..] == [0x00, 0x00] && [0x00, 0x00][1..] == [0x00] && [0x00][1..] == [];
  }
}
