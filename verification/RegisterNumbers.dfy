/** What the values of registers mean as numbers, and which of them the validators accept. */
module RegisterNumbers {
  import opened RegisterValues

  /** How many atoms of sixteen bits the registers of a type take, and how many patterns these have. */
  lemma Widths(t: RegisterType)
    ensures t in {Uint16, Sint16} ==> Size(t) == 1 && Patterns(Size(t)) == 0x1_0000
    ensures t in {Uint32, Sint32, Float32} ==> Size(t) == 2 && Patterns(Size(t)) == 0x1_0000_0000
    ensures t in {Uint64, Sint64, Float64} ==> Size(t) == 4 && Patterns(Size(t)) == 0x1_0000_0000_0000_0000
  {
    assert Patterns(2) == 0x1_0000_0000 && Patterns(4) == 0x1_0000_0000_0000_0000;
  }

  /* ---------- Whole numbers ---------- */

  /** Limits of unsigned registers are limits of the number itself. */
  lemma UnsignedLimits(t: RegisterType, n: nat, low: nat, high: nat, duringInit: bool)
    requires t in {Uint16, Uint32, Uint64}
    ensures Validate(Min(low), t, duringInit, Value(t, n)) <==> low <= n
    ensures Validate(Max(high), t, duringInit, Value(t, n)) <==> n <= high
    ensures Validate(Range(low, high), t, duringInit, Value(t, n)) <==> low <= n <= high
  {
  }

  predicate IsSigned(t: RegisterType) {
    t in {Sint16, Sint32, Sint64}
  }

  predicate InSignedRange(t: RegisterType, n: int)
    requires IsSigned(t)
  {
    match t
    case Sint16 => -0x8000 <= n < 0x8000
    case Sint32 => -0x8000_0000 <= n < 0x8000_0000
    case _ => -0x8000_0000_0000_0000 <= n < 0x8000_0000_0000_0000
  }

  /** The two's complement of a number. */
  function Complement(t: RegisterType, n: int): (bits: nat)
    requires IsSigned(t)
  {
    match t
    case Sint16 => n % 0x1_0000
    case Sint32 => n % 0x1_0000_0000
    case _ => n % 0x1_0000_0000_0000_0000
  }

  /** Limits of signed registers are limits of the number whose two's complement they hold. */
  lemma SignedLimits(t: RegisterType, n: int, low: int, high: int, duringInit: bool)
    requires IsSigned(t) && InSignedRange(t, n) && InSignedRange(t, low) && InSignedRange(t, high)
    ensures var v := Value(t, Complement(t, n));
            && Fits(v)
            && (Validate(Min(Complement(t, low)), t, duringInit, v) <==> low <= n)
            && (Validate(Max(Complement(t, high)), t, duringInit, v) <==> n <= high)
            && (Validate(Range(Complement(t, low), Complement(t, high)), t, duringInit, v) <==> low <= n <= high)
  {
    hide Complement;
    RankOfComplement(t, n);
    RankOfComplement(t, low);
    RankOfComplement(t, high);
  }

  lemma RankOfComplement(t: RegisterType, n: int)
    requires IsSigned(t) && InSignedRange(t, n)
    ensures Rank(Value(t, Complement(t, n))) == n && Fits(Value(t, Complement(t, n)))
  {
  }

  /** A value of another type is never accepted, and neither limits nor callbacks ask when it is set. */
  lemma OtherValidators(t: RegisterType, duringInit: bool, v: Value, accepts: Value -> bool)
    ensures forall check: Validator :: Validate(check, t, duringInit, v) ==> v.kind == t
    ensures v.kind == t ==> Validate(Trivial, t, duringInit, v)
    ensures v.kind == t ==> (Validate(Fail, t, duringInit, v) <==> duringInit)
    ensures v.kind == t ==> (Validate(Callback(accepts), t, duringInit, v) <==> accepts(v))
    ensures forall check: Validator :: !check.Fail? ==> Validate(check, t, true, v) == Validate(check, t, false, v)
  {
  }

  /* ---------- Floating point ---------- */

  /** How a floating point type divides its pattern: bits of the fraction and the largest exponent field. */
  datatype Format = Format(fraction: nat, exponents: nat)

  function FormatOf(t: RegisterType): Format
    requires t == Float32 || t == Float64
  {
    if t == Float32 then Format(23, 255) else Format(52, 2047)
  }

  /** A pattern taken apart: its sign, its exponent field and its fraction. */
  predicate Divided(v: Value, negative: bool, exponent: nat, fraction: nat)
    requires v.kind == Float32 || v.kind == Float64
  {
    var f := FormatOf(v.kind);
    && exponent <= f.exponents && fraction < Power2(f.fraction)
    && v.bits == ((if negative then f.exponents + 1 else 0) + exponent) * Power2(f.fraction) + fraction
  }

  /**
   The magnitude of a number in units of the smallest one that can be told from zero: without an
   exponent the fraction alone, otherwise with the leading bit in front and scaled by the exponent.
   */
  function Units(f: Format, exponent: nat, fraction: nat): nat {
    if exponent == 0 then fraction else (Power2(f.fraction) + fraction) * Power2(exponent - 1)
  }

  function Signed(negative: bool, magnitude: nat): int {
    var n: int := magnitude;
    if negative then -n else n
  }

  lemma Powers()
    ensures Power2(23) == FLOAT32_MANTISSA && Power2(52) == FLOAT64_MANTISSA
  {
    PatternsArePowers(1);
    PatternsArePowers(3);
    assert Power2(20) == 16 * Power2(16) by { PowerOfFour(16); }
    assert Power2(23) == 8 * Power2(20);
    assert Power2(52) == 16 * Power2(48) by { PowerOfFour(48); }
  }

  /** Every pattern can be taken apart. */
  lemma EveryPatternIsDivided(v: Value) returns (negative: bool, exponent: nat, fraction: nat)
    requires (v.kind == Float32 || v.kind == Float64) && Fits(v)
    ensures Divided(v, negative, exponent, fraction)
  {
    hide Power2;
    Powers();
    assert Patterns(2) == 0x1_0000_0000 && Patterns(4) == 0x1_0000_0000_0000_0000;
    negative := Negative(v);
    if v.kind == Float32 {
      exponent, fraction := Magnitude(v) / 0x80_0000, Magnitude(v) % 0x80_0000;
    } else {
      exponent, fraction := Magnitude(v) / 0x10_0000_0000_0000, Magnitude(v) % 0x10_0000_0000_0000;
    }
  }

  /** What the parts of a pattern mean to the operations on values. */
  lemma PartsOf(v: Value, negative: bool, exponent: nat, fraction: nat)
    requires (v.kind == Float32 || v.kind == Float64) && Divided(v, negative, exponent, fraction)
    ensures Negative(v) == negative && Exponent(v) == exponent
    ensures Magnitude(v) == exponent * Power2(FormatOf(v.kind).fraction) + fraction
    ensures fraction < Power2(FormatOf(v.kind).fraction)
    ensures NotANumber(v) <==> exponent == FormatOf(v.kind).exponents && fraction != 0
  {
    hide Power2;
    Powers();
    if v.kind == Float32 {
      Fields32(v.bits, negative, exponent, fraction);
    } else {
      Fields64(v.bits, negative, exponent, fraction);
    }
  }

  lemma Fields32(bits: nat, negative: bool, exponent: nat, fraction: nat)
    requires exponent <= 255 && fraction < 0x80_0000
    requires bits == ((if negative then 256 else 0) + exponent) * 0x80_0000 + fraction
    ensures negative <==> bits >= 0x8000_0000
    ensures var magnitude := if negative then bits - 0x8000_0000 else bits;
            && magnitude == exponent * 0x80_0000 + fraction
            && magnitude / 0x80_0000 == exponent && magnitude % 0x80_0000 == fraction
  {
  }

  lemma Fields64(bits: nat, negative: bool, exponent: nat, fraction: nat)
    requires exponent <= 2047 && fraction < 0x10_0000_0000_0000
    requires bits == ((if negative then 2048 else 0) + exponent) * 0x10_0000_0000_0000 + fraction
    ensures negative <==> bits >= 0x8000_0000_0000_0000
    ensures var magnitude := if negative then bits - 0x8000_0000_0000_0000 else bits;
            && magnitude == exponent * 0x10_0000_0000_0000 + fraction
            && magnitude / 0x10_0000_0000_0000 == exponent && magnitude % 0x10_0000_0000_0000 == fraction
  {
  }

  /** Zeroes and normal numbers can be stored: no subnormal, no infinity, and nothing that is not a number. */
  lemma StorableFloats(v: Value, negative: bool, exponent: nat, fraction: nat)
    requires (v.kind == Float32 || v.kind == Float64) && Divided(v, negative, exponent, fraction)
    ensures Decodable(v) <==> (exponent == 0 && fraction == 0) || 0 < exponent < FormatOf(v.kind).exponents
  {
    hide Power2, Exponent, Magnitude, Negative;
    Powers();
    PartsOf(v, negative, exponent, fraction);
    if exponent > 0 {
      MoreTimes(1, exponent, Power2(FormatOf(v.kind).fraction));
    }
  }

  lemma IntegersAreStorable(v: Value)
    requires v.kind != Float32 && v.kind != Float64
    ensures Decodable(v)
  {
  }

  lemma {:induction false} PowerGrows(a: nat, b: nat)
    requires a <= b
    ensures Power2(a) <= Power2(b)
    decreases b
  {
    if a < b {
      PowerGrows(a, b - 1);
    }
  }

  lemma Scaled(a: nat, b: nat, p: nat)
    requires p > 0
    ensures a < b <==> a * p < b * p
  {
    if a < b {
      assert b * p == a * p + (b - a) * p;
    } else {
      assert a * p == b * p + (a - b) * p;
    }
  }

  /** A number with a larger exponent is larger, whatever the fractions are. */
  lemma LargerExponent(f: Format, exponent: nat, fraction: nat, exponent': nat, fraction': nat)
    requires exponent < exponent' && fraction < Power2(f.fraction)
    ensures Units(f, exponent, fraction) < Units(f, exponent', fraction')
  {
    var m, p' := Power2(f.fraction), Power2(exponent' - 1);
    MoreTimes(m, m + fraction', p');
    if exponent == 0 {
      MoreTimes(1, p', m);
    } else {
      var p := Power2(exponent - 1);
      Scaled(m + fraction, 2 * m, p);
      PowerGrows(exponent, exponent' - 1);
      MoreTimes(2 * p, p', m);
      Doubled(m, p);
    }
  }

  lemma MoreTimes(a: nat, b: nat, p: nat)
    requires a <= b
    ensures a * p <= b * p && p * a == a * p && p * b == b * p
  {
  }

  lemma Doubled(m: nat, p: nat)
    ensures (2 * m) * p == (2 * p) * m
  {
  }

  /** Fractions decide between numbers of the same exponent. */
  lemma LargerFraction(f: Format, exponent: nat, fraction: nat, fraction': nat)
    ensures fraction < fraction' <==> Units(f, exponent, fraction) < Units(f, exponent, fraction')
  {
    if exponent > 0 {
      Scaled(Power2(f.fraction) + fraction, Power2(f.fraction) + fraction', Power2(exponent - 1));
    }
  }

  /** The order of magnitudes is that of the patterns without their sign. */
  lemma UnitsOrder(f: Format, exponent: nat, fraction: nat, exponent': nat, fraction': nat)
    requires fraction < Power2(f.fraction) && fraction' < Power2(f.fraction)
    ensures exponent * Power2(f.fraction) + fraction < exponent' * Power2(f.fraction) + fraction'
       <==> Units(f, exponent, fraction) < Units(f, exponent', fraction')
  {
    hide Units;
    var m := Power2(f.fraction);
    if exponent < exponent' {
      LargerExponent(f, exponent, fraction, exponent', fraction');
      FieldsOrder(m, exponent, fraction, exponent', fraction');
    } else if exponent' < exponent {
      LargerExponent(f, exponent', fraction', exponent, fraction);
      FieldsOrder(m, exponent', fraction', exponent, fraction);
    } else {
      LargerFraction(f, exponent, fraction, fraction');
    }
  }

  lemma FieldsOrder(m: nat, exponent: nat, fraction: nat, exponent': nat, fraction': nat)
    requires exponent < exponent' && fraction < m
    ensures exponent * m + fraction < exponent' * m + fraction'
  {
    MoreTimes(exponent + 1, exponent', m);
  }

  /** The value of a floating point pattern as a number of units. */
  ghost predicate Means(v: Value, units: int)
    requires v.kind == Float32 || v.kind == Float64
  {
    exists negative, exponent: nat, fraction: nat ::
      && Divided(v, negative, exponent, fraction) && !(exponent == FormatOf(v.kind).exponents && fraction != 0)
      && units == Signed(negative, Units(FormatOf(v.kind), exponent, fraction))
  }

  lemma ZeroUnits(f: Format, exponent: nat, fraction: nat)
    ensures Units(f, exponent, fraction) == 0 <==> exponent == 0 && fraction == 0
  {
    if exponent > 0 {
      assert (Power2(f.fraction) + fraction) * Power2(exponent - 1) >= 1;
    }
  }

  lemma RankOrder(v: Value, units: int, w: Value, units': int)
    requires v.kind == w.kind && (v.kind == Float32 || v.kind == Float64) && Means(v, units) && Means(w, units')
    ensures !NotANumber(v) && !NotANumber(w)
    ensures Rank(v) <= Rank(w) <==> units <= units'
  {
    hide Units, Exponent, Magnitude, Negative, NotANumber, Rank, Signed, Divided, Power2;
    var f := FormatOf(v.kind);
    var s, e: nat, m: nat :| Divided(v, s, e, m) && !(e == f.exponents && m != 0) && units == Signed(s, Units(f, e, m));
    var s', e': nat, m': nat :| Divided(w, s', e', m') && !(e' == f.exponents && m' != 0) && units' == Signed(s', Units(f, e', m'));
    PartsOf(v, s, e, m);
    PartsOf(w, s', e', m');
    UnitsOrder(f, e, m, e', m');
    UnitsOrder(f, e', m', e, m);
    ZeroUnits(f, e, m);
    ZeroUnits(f, e', m');
    ZeroFields(Power2(f.fraction), e, m);
    ZeroFields(Power2(f.fraction), e', m');
    RankIsSigned(v, s);
    RankIsSigned(w, s');
    SignedOrder(s, Magnitude(v), Units(f, e, m), s', Magnitude(w), Units(f, e', m'));
  }

  lemma RankIsSigned(v: Value, negative: bool)
    requires (v.kind == Float32 || v.kind == Float64) && Negative(v) == negative
    ensures Rank(v) == Signed(negative, Magnitude(v))
  {
  }

  /** Signs are put in front of numbers that are in the same order. */
  lemma SignedOrder(s: bool, a: nat, b: nat, s': bool, a': nat, b': nat)
    requires (a < a' <==> b < b') && (a' < a <==> b' < b) && (a == 0 <==> b == 0) && (a' == 0 <==> b' == 0)
    ensures Signed(s, a) <= Signed(s', a') <==> Signed(s, b) <= Signed(s', b')
  {
  }

  lemma ZeroFields(p: nat, e: nat, m: nat)
    requires p > 0
    ensures e * p + m == 0 <==> e == 0 && m == 0
  {
    if e > 0 {
      assert e * p >= p;
    }
  }

  /** Limits of floating point registers are limits of the number, both zeroes being one and the same. */
  lemma FloatLimits(t: RegisterType, bits: nat, n: int, low: nat, l: int, high: nat, h: int, duringInit: bool)
    requires t == Float32 || t == Float64
    requires Means(Value(t, bits), n) && Means(Value(t, low), l) && Means(Value(t, high), h)
    ensures Validate(Min(low), t, duringInit, Value(t, bits)) <==> l <= n
    ensures Validate(Max(high), t, duringInit, Value(t, bits)) <==> n <= h
    ensures Validate(Range(low, high), t, duringInit, Value(t, bits)) <==> l <= n <= h
  {
    hide Means, Rank, NotANumber;
    RankOrder(Value(t, low), l, Value(t, bits), n);
    RankOrder(Value(t, bits), n, Value(t, high), h);
  }

  /** What is not a number is beyond every limit. */
  lemma NothingIsWithin(v: Value, negative: bool, fraction: nat, limit: nat, duringInit: bool)
    requires v.kind == Float32 || v.kind == Float64
    requires Divided(v, negative, FormatOf(v.kind).exponents, fraction) && fraction != 0
    ensures !Validate(Min(limit), v.kind, duringInit, v) && !Validate(Max(limit), v.kind, duringInit, v)
    ensures !Validate(Range(limit, limit), v.kind, duringInit, v)
  {
    hide Power2, Rank, NotANumber;
    PartsOf(v, negative, FormatOf(v.kind).exponents, fraction);
  }
}
