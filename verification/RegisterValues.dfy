/** Register types, their representation in memory atoms, and the validators. */
module RegisterValues {
  import opened Octets

  datatype RegisterType = Uint16 | Uint32 | Uint64 | Sint16 | Sint32 | Sint64 | Float32 | Float64

  /** The number of 16-bit atoms a register occupies. */
  function Size(t: RegisterType): (n: nat)
    ensures 1 <= n <= 4
  {
    match t
    case Uint16 => 1
    case Sint16 => 1
    case Uint32 => 2
    case Sint32 => 2
    case Float32 => 2
    case Uint64 => 4
    case Sint64 => 4
    case Float64 => 4
  }

  /** The number of bit patterns that n atoms can hold. */
  function Patterns(n: nat): (p: nat)
    ensures p > 0
  {
    if n == 0 then 1 else 0x1_0000 * Patterns(n - 1)
  }

  /** A register value is a bit pattern of its type's width. */
  datatype Value = Value(kind: RegisterType, bits: nat)

  predicate Fits(v: Value) {
    v.bits < Patterns(Size(v.kind))
  }

  /* ---------- Serialisation ---------- */

  /** The atoms of a number, least significant first. */
  function ToAtoms(bits: nat, n: nat): (atoms: seq<word>)
    ensures |atoms| == n
    decreases n
  {
    if n == 0 then [] else [(bits % 0x1_0000) as word] + ToAtoms(bits / 0x1_0000, n - 1)
  }

  function FromAtoms(atoms: seq<word>): (bits: nat)
    ensures bits < Patterns(|atoms|)
  {
    if atoms == [] then 0 else atoms[0] as nat + 0x1_0000 * FromAtoms(atoms[1..])
  }

  function SwapOctets(a: word): word {
    (a % 256) * 256 + a / 256
  }

  /** The same octets in opposite order: last atom first, and each atom turned around. */
  function TurnAround(atoms: seq<word>): (r: seq<word>)
    ensures |r| == |atoms|
    ensures forall i :: 0 <= i < |r| ==> r[i] == SwapOctets(atoms[|atoms| - 1 - i])
  {
    seq(|atoms|, i requires 0 <= i < |atoms| => SwapOctets(atoms[|atoms| - 1 - i]))
  }

  function Serialise(v: Value, bigEndian: bool): (atoms: seq<word>)
    ensures |atoms| == Size(v.kind)
  {
    var atoms := ToAtoms(v.bits, Size(v.kind));
    if bigEndian then TurnAround(atoms) else atoms
  }

  function Deserialise(t: RegisterType, atoms: seq<word>, bigEndian: bool): (v: Value)
    requires |atoms| == Size(t)
    ensures v.kind == t && Fits(v)
  {
    Value(t, FromAtoms(if bigEndian then TurnAround(atoms) else atoms))
  }

  lemma {:induction false} AtomsRoundTrip(bits: nat, n: nat)
    requires bits < Patterns(n)
    ensures FromAtoms(ToAtoms(bits, n)) == bits
    decreases n
  {
    if n > 0 {
      assert ToAtoms(bits, n)[1..] == ToAtoms(bits / 0x1_0000, n - 1);
      AtomsRoundTrip(bits / 0x1_0000, n - 1);
    }
  }

  lemma TurnAroundTwice(atoms: seq<word>)
    ensures TurnAround(TurnAround(atoms)) == atoms
  {
    forall i | 0 <= i < |atoms|
      ensures TurnAround(TurnAround(atoms))[i] == atoms[i]
    {
      assert SwapOctets(SwapOctets(atoms[i])) == atoms[i];
    }
  }

  /** What is stored is what is read back, in either byte order. */
  lemma SerialiseRoundTrip(v: Value, bigEndian: bool)
    requires Fits(v)
    ensures Deserialise(v.kind, Serialise(v, bigEndian), bigEndian) == v
  {
    AtomsRoundTrip(v.bits, Size(v.kind));
    TurnAroundTwice(ToAtoms(v.bits, Size(v.kind)));
  }

  lemma {:induction false} AtomsInvert(atoms: seq<word>)
    ensures ToAtoms(FromAtoms(atoms), |atoms|) == atoms
  {
    if atoms != [] {
      var bits := FromAtoms(atoms);
      AtomsInvert(atoms[1..]);
      assert bits % 0x1_0000 == atoms[0] as nat && bits / 0x1_0000 == FromAtoms(atoms[1..]);
    }
  }

  /** What atoms are read as is stored as these atoms again. */
  lemma SerialiseInverts(t: RegisterType, atoms: seq<word>, bigEndian: bool)
    requires |atoms| == Size(t)
    ensures Serialise(Deserialise(t, atoms, bigEndian), bigEndian) == atoms
  {
    AtomsInvert(if bigEndian then TurnAround(atoms) else atoms);
    TurnAroundTwice(atoms);
  }

  /* ---------- Floating point as bit patterns ---------- */

  /** The weight of the sign bit. */
  function SignBit(t: RegisterType): (w: nat)
    ensures w > 0
  {
    if Size(t) == 1 then 0x8000 else if Size(t) == 2 then 0x8000_0000 else 0x8000_0000_0000_0000
  }

  predicate Negative(v: Value) {
    v.bits >= SignBit(v.kind)
  }

  /** The pattern without its sign bit. */
  function Magnitude(v: Value): nat {
    if Negative(v) then v.bits - SignBit(v.kind) else v.bits
  }

  const FLOAT32_MANTISSA: nat := 0x80_0000
  const FLOAT64_MANTISSA: nat := 0x10_0000_0000_0000

  /** The biased exponent of a floating point pattern. */
  function Exponent(v: Value): nat
    requires v.kind == Float32 || v.kind == Float64
  {
    Magnitude(v) / (if v.kind == Float32 then FLOAT32_MANTISSA else FLOAT64_MANTISSA)
  }

  function LargestExponent(t: RegisterType): nat {
    if t == Float32 then 255 else 2047
  }

  /** Floating point registers only ever hold zeroes and normal numbers. */
  predicate Decodable(v: Value) {
    (v.kind == Float32 || v.kind == Float64) && Magnitude(v) != 0 ==>
      0 < Exponent(v) < LargestExponent(v.kind)
  }

  predicate NotANumber(v: Value) {
    && (v.kind == Float32 || v.kind == Float64)
    && Exponent(v) == LargestExponent(v.kind)
    && Magnitude(v) % (if v.kind == Float32 then FLOAT32_MANTISSA else FLOAT64_MANTISSA) != 0
  }

  /** The number a pattern stands for, or for a float its rank among the floats. */
  function Rank(v: Value): int {
    var magnitude: int := Magnitude(v);
    match v.kind
    case Float32 => if Negative(v) then -magnitude else magnitude
    case Float64 => if Negative(v) then -magnitude else magnitude
    case Sint16 => if Negative(v) then magnitude - SignBit(v.kind) else magnitude
    case Sint32 => if Negative(v) then magnitude - SignBit(v.kind) else magnitude
    case Sint64 => if Negative(v) then magnitude - SignBit(v.kind) else magnitude
    case _ => v.bits
  }

  predicate AtLeast(v: Value, limit: Value)
    requires v.kind == limit.kind
  {
    !NotANumber(v) && !NotANumber(limit) && Rank(v) >= Rank(limit)
  }

  /* ---------- Validators ---------- */

  datatype Validator =
    | Trivial
    | Fail
    | Min(limit: nat)
    | Max(limit: nat)
    | Range(min: nat, max: nat)
    | Callback(accepts: Value -> bool)

  predicate Validate(check: Validator, t: RegisterType, duringInit: bool, v: Value) {
    && t == v.kind
    && match check
       case Trivial => true
       case Fail => duringInit
       case Min(limit) => AtLeast(v, Value(t, limit))
       case Max(limit) => AtLeast(Value(t, limit), v)
       case Range(min, max) => AtLeast(v, Value(t, min)) && AtLeast(Value(t, max), v)
       case Callback(accepts) => accepts(v)
  }

  /* ---------- Bitwise operations on unsigned registers ---------- */

  function Power2(n: nat): (p: nat)
    ensures p > 0
  {
    if n == 0 then 1 else 2 * Power2(n - 1)
  }

  /** Bit i of n. */
  predicate Bit(n: nat, i: nat)
    decreases i
  {
    if i == 0 then n % 2 == 1 else Bit(n / 2, i - 1)
  }

  function BitOr(a: nat, b: nat): nat
    decreases a + b
  {
    if a == 0 then b
    else if b == 0 then a
    else (if a % 2 == 1 || b % 2 == 1 then 1 else 0) + 2 * BitOr(a / 2, b / 2)
  }

  function BitAndNot(a: nat, b: nat): nat
    decreases a
  {
    if a == 0 then 0
    else (if a % 2 == 1 && b % 2 == 0 then 1 else 0) + 2 * BitAndNot(a / 2, b / 2)
  }

  lemma {:induction false} ZeroHasNoBits(i: nat)
    ensures !Bit(0, i)
    decreases i
  {
    if i > 0 {
      ZeroHasNoBits(i - 1);
    }
  }

  lemma {:induction false} BitOrBits(a: nat, b: nat, i: nat)
    ensures Bit(BitOr(a, b), i) <==> Bit(a, i) || Bit(b, i)
    decreases a + b
  {
    ZeroHasNoBits(i);
    if a != 0 && b != 0 && i > 0 {
      BitOrBits(a / 2, b / 2, i - 1);
    }
  }

  lemma {:induction false} BitAndNotBits(a: nat, b: nat, i: nat)
    ensures Bit(BitAndNot(a, b), i) <==> Bit(a, i) && !Bit(b, i)
    decreases a
  {
    ZeroHasNoBits(i);
    if a != 0 && i > 0 {
      BitAndNotBits(a / 2, b / 2, i - 1);
    }
  }

  /** The bits of a power of two are its exponent's. */
  lemma {:induction false} BitOfPower(k: nat, i: nat)
    ensures Bit(Power2(k), i) <==> i == k
    decreases k
  {
    if k == 0 {
      if i > 0 {
        ZeroHasNoBits(i - 1);
      }
    } else if i > 0 {
      BitOfPower(k - 1, i - 1);
    }
  }

  /** Different numbers differ in some bit. */
  lemma {:induction false} BitsTellApart(a: nat, b: nat) returns (i: nat)
    requires a != b
    ensures Bit(a, i) != Bit(b, i)
    decreases a + b
  {
    if a % 2 != b % 2 {
      i := 0;
    } else {
      var j := BitsTellApart(a / 2, b / 2);
      i := j + 1;
    }
  }

  /** Bitwise operations stay within the width of their operands. */
  lemma {:induction false} BitwiseFits(a: nat, b: nat, n: nat)
    requires a < Power2(n)
    ensures BitAndNot(a, b) < Power2(n)
    ensures b < Power2(n) ==> BitOr(a, b) < Power2(n)
    decreases n
  {
    if n > 0 {
      BitwiseFits(a / 2, b / 2, n - 1);
    }
  }

  lemma PowerOfFour(n: nat)
    ensures Power2(n + 4) == 16 * Power2(n)
  {
    assert Power2(n + 4) == 2 * Power2(n + 3) && Power2(n + 2) == 2 * Power2(n + 1);
  }

  lemma {:induction false} PatternsArePowers(n: nat)
    ensures Patterns(n) == Power2(16 * n)
    decreases n
  {
    if n > 0 {
      PatternsArePowers(n - 1);
      PowerOfFour(16 * n - 4);
      PowerOfFour(16 * n - 8);
      PowerOfFour(16 * n - 12);
      PowerOfFour(16 * n - 16);
    }
  }

  function BitSet(v: Value, mask: Value): (r: Value)
    requires v.kind == mask.kind && Fits(v) && Fits(mask)
    ensures r.kind == v.kind && Fits(r)
  {
    PatternsArePowers(Size(v.kind));
    BitwiseFits(v.bits, mask.bits, 16 * Size(v.kind));
    Value(v.kind, BitOr(v.bits, mask.bits))
  }

  function BitClear(v: Value, mask: Value): (r: Value)
    requires v.kind == mask.kind && Fits(v)
    ensures r.kind == v.kind && Fits(r)
  {
    PatternsArePowers(Size(v.kind));
    BitwiseFits(v.bits, mask.bits, 16 * Size(v.kind));
    Value(v.kind, BitAndNot(v.bits, mask.bits))
  }

  /** Exactly the bits of the mask are set, or cleared. */
  lemma BitSetBits(v: Value, mask: Value, i: nat)
    requires v.kind == mask.kind && Fits(v) && Fits(mask)
    ensures Bit(BitSet(v, mask).bits, i) <==> Bit(v.bits, i) || Bit(mask.bits, i)
    ensures Bit(BitClear(v, mask).bits, i) <==> Bit(v.bits, i) && !Bit(mask.bits, i)
  {
    BitOrBits(v.bits, mask.bits, i);
    BitAndNotBits(v.bits, mask.bits, i);
  }
}
