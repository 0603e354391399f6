/** Integers of variable length: seven bits to an octet, least significant first. */
module Varint {
  import opened Octets
  import opened ByteBuffers
  import Streams

  const MAX_OCTETS_32: nat := 5
  const MAX_OCTETS_64: nat := 10
  const TWO_32: nat := 0x1_0000_0000
  const TWO_64: nat := 0x1_0000_0000_0000_0000
  const HALF_64: nat := 0x8000_0000_0000_0000

  datatype Decoded =
    | Decoded(value: nat, size: nat)
    | IllegalSequence
    | NoData

  /* ---------- Encoding ---------- */

  /** The encoding of n. */
  function Encoded(n: nat): (s: seq<octet>)
    ensures 0 < |s|
  {
    if n < 128 then [OctetOf(n)] else [OctetOf(128 + n % 128)] + Encoded(n / 128)
  }

  function Power128(k: nat): (p: nat)
    ensures p > 0
  {
    if k == 0 then 1 else 128 * Power128(k - 1)
  }

  /** The number of octets an encoding takes: the least count of seven-bit groups that hold n. */
  lemma {:induction false} EncodedLength(n: nat, k: nat)
    requires 0 < k
    ensures |Encoded(n)| <= k <==> n < Power128(k)
  {
    if k == 1 {
      assert Power128(1) == 128 * Power128(0);
    } else if n >= 128 {
      EncodedLength(n / 128, k - 1);
    }
  }

  /** Octet i of an encoding holds group i of seven bits, the lowest one first, and all but the last are marked by 128. */
  lemma {:induction false} EncodedOctets(n: nat, i: nat)
    requires i < |Encoded(n)|
    ensures Encoded(n)[i] as nat == n / Power128(i) % 128 + if i == |Encoded(n)| - 1 then 0 else 128
  {
    if n >= 128 && i > 0 {
      EncodedOctets(n / 128, i - 1);
      DivideTwice(n, Power128(i - 1));
    } else {
      EncodedLength(n, 1);
    }
  }

  lemma DivideTwice(n: nat, p: nat)
    requires 0 < p
    ensures n / (128 * p) == n / 128 / p
  {
    var q := n / 128;
    var d := q / p;
    assert n == 128 * q + n % 128 && q == p * d + q % p;
    assert n == (128 * p) * d + (128 * (q % p) + n % 128);
    Quotient(n, 128 * p, d, 128 * (q % p) + n % 128);
  }

  lemma Quotient(n: nat, m: nat, d: nat, r: nat)
    requires 0 < m && n == m * d + r && r < m
    ensures n / m == d
  {
    var q := n / m;
    assert n == m * q + n % m;
    if q < d {
      OneTimeMore(m, q, d);
    } else if d < q {
      OneTimeMore(m, d, q);
    }
  }

  lemma {:induction false} OneTimeMore(m: nat, a: nat, b: nat)
    requires a < b
    ensures m * a + m <= m * b
    decreases b
  {
    if a + 1 < b {
      OneTimeMore(m, a, b - 1);
    }
  }

  lemma EncodedLengths(n: nat)
    ensures n < TWO_32 ==> |Encoded(n)| <= MAX_OCTETS_32
    ensures n < TWO_64 ==> |Encoded(n)| <= MAX_OCTETS_64
  {
    EncodedLength(n, 5);
    EncodedLength(n, 10);
    assert Power128(5) == 0x8_0000_0000;
    assert Power128(10) == Power128(5) * Power128(5);
  }

  /* ---------- Decoding ---------- */

  /** The number of octets up to and including the first without continuation mark. */
  function Extent(s: seq<octet>): (k: nat)
    ensures k <= |s|
    ensures forall i :: 0 <= i < k - 1 ==> s[i] >= 128
    ensures k == 0 ==> forall i :: 0 <= i < |s| ==> s[i] >= 128
    ensures k > 0 ==> s[k - 1] < 128
  {
    if s == [] then 0
    else if s[0] < 128 then 1
    else
      var k := Extent(s[1..]);
      assert forall i :: 1 <= i < |s| ==> s[i] == s[1..][i - 1];
      if k == 0 then 0 else k + 1
  }

  /** The number made of the seven data bits of each octet. */
  function Groups(s: seq<octet>): (n: nat) {
    if s == [] then 0 else s[0] as nat % 128 + 128 * Groups(s[1..])
  }

  /** What decoding a sequence of octets comes to; an accumulator of 64 bits loses what lies above. */
  function DecodedFrom(s: seq<octet>, maximum: nat): Decoded {
    var k := Extent(s);
    if 0 < k <= maximum then Decoded(Wrapped(Groups(s[..k])), k)
    else if maximum <= |s| then IllegalSequence
    else NoData
  }

  /** Encoding and decoding, whatever follows. */
  lemma {:induction false} EncodedIsRead(n: nat, rest: seq<octet>)
    ensures Extent(Encoded(n) + rest) == |Encoded(n)|
    ensures Groups(Encoded(n)) == n
  {
    var s := Encoded(n) + rest;
    if n < 128 {
      assert Encoded(n)[1..] == [];
    } else {
      assert s[1..] == Encoded(n / 128) + rest;
      assert Encoded(n)[1..] == Encoded(n / 128);
      EncodedIsRead(n / 128, rest);
    }
  }

  /** Decoding an encoding gives the number back and takes exactly its octets. */
  lemma RoundTrip(n: nat, maximum: nat, rest: seq<octet>)
    requires n < TWO_64 && 0 < maximum && n < Power128(maximum)
    ensures DecodedFrom(Encoded(n) + rest, maximum) == Decoded(n, |Encoded(n)|)
  {
    EncodedIsRead(n, rest);
    EncodedLength(n, maximum);
    assert (Encoded(n) + rest)[..|Encoded(n)|] == Encoded(n);
  }

  /** No encoding starts another: two that agree in front of anything are of the same number. */
  lemma PrefixFree(a: nat, b: nat, after: seq<octet>, behind: seq<octet>)
    requires Encoded(a) + after == Encoded(b) + behind
    ensures a == b && after == behind
  {
    EncodedIsRead(a, after);
    EncodedIsRead(b, behind);
    var s, k := Encoded(a) + after, |Encoded(a)|;
    assert s[..k] == Encoded(a) == Encoded(b);
    assert s[k..] == after == behind;
  }

  /** The octets that make up one number, continuation marks on all but the last. */
  predicate OneNumber(s: seq<octet>) {
    0 < |s| && Extent(s) == |s|
  }

  /** The octets read are the encoding of their number exactly if they do not end in an empty group. */
  lemma {:induction false} Canonical(s: seq<octet>)
    requires 0 < |s| && OneNumber(s)
    ensures Encoded(Groups(s)) == s <==> |s| == 1 || s[|s| - 1] != 0
  {
    hide OneNumber, Encoded, Groups;
    if s[0] < 128 {
      SingleOctet(s);
    } else {
      Tail(s);
      Canonical(s[1..]);
      ZeroGroups(s[1..]);
      OneGroup(s[1..]);
      EncodedStep(s[0], Groups(s[1..]), s[1..]);
    }
  }

  lemma SingleOctet(s: seq<octet>)
    requires OneNumber(s) && s[0] < 128
    ensures |s| == 1 && Encoded(Groups(s)) == s
  {
    assert s[1..] == [];
  }

  lemma Tail(s: seq<octet>)
    requires OneNumber(s) && s[0] >= 128
    ensures 1 < |s| && OneNumber(s[1..]) && s == [s[0]] + s[1..]
    ensures Groups(s) == s[0] as nat % 128 + 128 * Groups(s[1..])
  {
  }

  lemma OneGroup(s: seq<octet>)
    ensures |s| == 1 ==> Groups(s) == s[0] as nat % 128
  {
    assert |s| == 1 ==> s[1..] == [];
  }

  lemma EncodedStep(d: octet, g: nat, tail: seq<octet>)
    requires d >= 128 && tail != []
    ensures Encoded(d as nat % 128 + 128 * g) == [d] + tail <==> g != 0 && Encoded(g) == tail
  {
    hide Encoded;
    EncodedParts(d, g);
    assert ([d] + tail)[1..] == tail;
    if g != 0 {
      assert ([d] + Encoded(g))[1..] == Encoded(g);
    }
  }

  lemma EncodedParts(d: octet, g: nat)
    requires d >= 128
    ensures Encoded(d as nat % 128 + 128 * g) == if g == 0 then [d - 128] else [d] + Encoded(g)
  {
  }

  /** Only a last empty group makes all of the groups empty. */
  lemma {:induction false} ZeroGroups(s: seq<octet>)
    requires 0 < |s| && OneNumber(s)
    ensures Groups(s) == 0 ==> s[|s| - 1] == 0
  {
    if s[0] >= 128 {
      ZeroGroups(s[1..]);
    } else {
      assert s[1..] == [];
    }
  }

  /* ---------- One octet at a time ---------- */

  lemma {:induction false} GroupsSnoc(s: seq<octet>, d: octet)
    ensures Groups(s + [d]) == Groups(s) + Power128(|s|) * (d as nat % 128)
    ensures Groups(s) < Power128(|s|)
  {
    if s == [] {
      assert (s + [d])[1..] == [];
    } else {
      assert (s + [d])[1..] == s[1..] + [d];
      GroupsSnoc(s[1..], d);
      Regrouped(Power128(|s| - 1), d as nat % 128);
    }
  }

  lemma Regrouped(weight: nat, bits: nat)
    ensures (128 * weight) * bits == 128 * (weight * bits)
  {
  }

  /** What 64 bits keep of a number. */
  function Wrapped(n: nat): nat {
    n % TWO_64
  }

  /** The data bits of an octet, shifted into the place of the i-th group. */
  function Shifted(d: octet, i: nat): nat {
    Wrapped(Power128(i) * (d as nat % 128))
  }

  lemma NoGroups(s: seq<octet>)
    requires s == []
    ensures Wrapped(Groups(s)) == 0
  {
  }

  /** Shifting a group into place and adding it to those below does what it would do without a width. */
  lemma Accumulate(s: seq<octet>, d: octet)
    requires |s| < MAX_OCTETS_64
    ensures Wrapped(Groups(s)) == Groups(s)
    ensures Wrapped(Groups(s + [d])) == Groups(s) + Shifted(d, |s|)
  {
    hide Groups, Power128, Wrapped;
    GroupsSnoc(s, d);
    LowGroups(|s|);
    ShiftedIn(Groups(s), d as nat % 128, Power128(|s|), Power128(|s|) * (d as nat % 128));
  }

  lemma ShiftedIn(n: nat, bits: nat, weight: nat, shifted: nat)
    requires n < weight && bits < 128 && shifted == weight * bits
    requires 128 * weight <= HALF_64 || weight == HALF_64
    ensures Wrapped(n) == n && Wrapped(n + shifted) == n + Wrapped(shifted)
  {
    hide Wrapped;
    WrappedIs(n, 0, n);
    if 128 * weight <= HALF_64 {
      LessThan(weight, bits);
      WrappedIs(shifted, 0, shifted);
      WrappedIs(n + shifted, 0, n + shifted);
    } else {
      var q, r := bits / 2, bits % 2;
      assert shifted == HALF_64 * bits;
      WrappedIs(shifted, q, HALF_64 * r);
      WrappedIs(n + shifted, q, n + HALF_64 * r);
    }
  }

  lemma LessThan(weight: nat, bits: nat)
    requires bits < 128
    ensures weight * bits <= 128 * weight
  {
  }

  lemma WrappedIs(n: nat, q: nat, r: nat)
    requires n == TWO_64 * q + r && r < TWO_64
    ensures Wrapped(n) == r
  {
  }

  lemma LowGroups(i: nat)
    requires i <= 9
    ensures i < 9 ==> 128 * Power128(i) <= HALF_64
    ensures i == 9 ==> Power128(i) == HALF_64
    decreases 9 - i
  {
    if i < 9 {
      LowGroups(i + 1);
    } else {
      assert Power128(9) == HALF_64;
    }
  }

  /** Up to the first octet without a mark there is nothing to find. */
  lemma {:induction false} ExtentSoFar(s: seq<octet>, i: nat)
    requires i < |s| && forall j :: 0 <= j < i ==> s[j] >= 128
    ensures s[i] < 128 ==> Extent(s) == i + 1
    ensures Extent(s) > 0 ==> Extent(s) > i
  {
  }

  /* ---------- Signed numbers ---------- */

  /** Two's complement of the given modulus. */
  function ToUnsigned(n: int, modulus: nat): (u: nat)
    requires 0 < modulus
    ensures u < modulus
  {
    n % modulus
  }

  function ToSigned(u: nat, modulus: nat): int
    requires u < modulus
  {
    if u < modulus / 2 then u else u - modulus
  }

  /** A width in bits goes with the most octets that an encoding of it takes. */
  predicate Width(modulus: nat, maximum: nat) {
    (modulus == 0x1_0000_0000 && maximum == 5) || (modulus == 0x1_0000_0000_0000_0000 && maximum == 10)
  }

  /** Every unsigned number of either width comes back through its encoding, within the octets of that width. */
  lemma UnsignedRoundTrip(n: nat, modulus: nat, maximum: nat, rest: seq<octet>)
    requires Width(modulus, maximum) && n < modulus
    ensures DecodedFrom(Encoded(n) + rest, maximum) == Decoded(n, |Encoded(n)|) && |Encoded(n)| <= maximum
  {
    hide Encoded, Power128, DecodedFrom;
    Widths();
    EncodedLengths(n);
    RoundTrip(n, maximum, rest);
  }

  /** And so does every signed number, through its pair of conversions. */
  lemma SignedRoundTrip(n: int, modulus: nat, maximum: nat, rest: seq<octet>)
    requires Width(modulus, maximum) && -(modulus / 2) <= n < modulus / 2
    ensures var u := ToUnsigned(n, modulus);
            DecodedFrom(Encoded(u) + rest, maximum) == Decoded(u, |Encoded(u)|)
            && |Encoded(u)| <= maximum && ToSigned(u, modulus) == n
  {
    hide Encoded, Power128, DecodedFrom, ToUnsigned, ToSigned;
    TwosComplement(n, modulus);
    UnsignedRoundTrip(ToUnsigned(n, modulus), modulus, maximum, rest);
  }

  lemma TwosComplement(n: int, modulus: nat)
    requires modulus == TWO_32 || modulus == TWO_64
    requires -(modulus / 2) <= n < modulus / 2
    ensures ToSigned(ToUnsigned(n, modulus), modulus) == n
  {
    if n < 0 {
      assert n % modulus == n + modulus;
    } else {
      assert n % modulus == n;
    }
  }

  lemma Widths()
    ensures TWO_32 < Power128(MAX_OCTETS_32) && TWO_64 < Power128(MAX_OCTETS_64)
  {
    assert Power128(5) == 0x8_0000_0000;
    assert Power128(10) == Power128(5) * Power128(5);
  }

  /* ---------- The operations ---------- */

  /** Write the encoding at the read mark and make it the content of the buffer. */
  method Encode(n: nat, b: ByteBuffer) returns (count: nat)
    requires b.Valid() && n < TWO_64 && b.offset + |Encoded(n)| <= b.data.Length
    modifies b`used, b.data
    ensures b.Valid() && b.Unread() == Encoded(n) && count == |Encoded(n)|
    ensures b.data[..b.offset] == old(b.data[..b.offset]) && b.data[b.used..] == old(b.data[b.offset + |Encoded(n)|..])
  {
    hide Encoded;
    var rest, at := n, b.offset;
    ghost var start, memory, written := b.offset, b.data[..], [];
    count := 1;
    while true
      invariant at == start + count - 1 && |written| == count - 1 && at <= b.data.Length
      invariant b.data[start..at] == written && written + Encoded(rest) == Encoded(n)
      invariant b.data[..start] == memory[..start] && b.data[at..] == memory[at..]
      decreases rest
    {
      FirstGroup(written, rest);
      var low := rest % 128;
      if rest / 128 == 0 {
        b.data[at] := OctetOf(low);
        b.used := at + 1;
        return;
      }
      b.data[at] := OctetOf(128 + low);
      written := written + [OctetOf(128 + low)];
      rest, at, count := rest / 128, at + 1, count + 1;
      assert b.data[at..] == memory[at - 1..][1..];
    }
  }

  lemma FirstGroup(written: seq<octet>, n: nat)
    ensures 0 < |Encoded(n)|
    ensures n / 128 == 0 ==> Encoded(n) == [OctetOf(n % 128)]
    ensures n / 128 != 0 ==> written + Encoded(n) == written + [OctetOf(128 + n % 128)] + Encoded(n / 128)
  {
  }

  datatype Code = Count(count: nat) | EInvalid | EIllegalSequence | ENoData | Undefined

  method EncodeU32(b: ByteBuffer, n: nat) returns (rc: Code)
    requires b.Valid() && n < TWO_32
    modifies b`used, b.data
    ensures b.Valid() && rc == if old(b.Avail()) < 5 then EInvalid else Count(|Encoded(n)|)
    ensures b.Unread() == if rc == EInvalid then old(b.Unread()) else Encoded(n)
  {
    if b.Avail() < MAX_OCTETS_32 {
      return EInvalid;
    }
    EncodedLengths(n);
    var count := Encode(n, b);
    return Count(count);
  }

  method EncodeU64(b: ByteBuffer, n: nat) returns (rc: Code)
    requires b.Valid() && n < TWO_64
    modifies b`used, b.data
    ensures b.Valid() && rc == if old(b.Avail()) < 10 then EInvalid else Count(|Encoded(n)|)
    ensures b.Unread() == if rc == EInvalid then old(b.Unread()) else Encoded(n)
  {
    if b.Avail() < MAX_OCTETS_64 {
      return EInvalid;
    }
    EncodedLengths(n);
    var count := Encode(n, b);
    return Count(count);
  }

  /**
   Read a number at the read mark. Nothing but its greatest length limits how far this reads, so that
   it is not defined what memory gives that ends before the number does.
   */
  method Decode(b: ByteBuffer, maximum: nat) returns (rc: Code, n: nat)
    requires b.Valid() && maximum <= MAX_OCTETS_64
    modifies b`offset
    ensures match DecodedFrom(old(b.data[b.offset..]), maximum)
            case Decoded(value, size) => rc == Count(size) && n == value && b.offset == old(b.offset) + size
            case IllegalSequence => rc == EIllegalSequence && b.offset == old(b.offset)
            case NoData => rc == Undefined
  {
    hide Groups, Wrapped, Shifted;
    ghost var memory := b.data[b.offset..];
    NoGroups(memory[..0]);
    n := 0;
    for i := 0 to maximum
      invariant i <= |memory| && n == Wrapped(Groups(memory[..i]))
      invariant forall j :: 0 <= j < i ==> memory[j] >= 128
      invariant b.offset == old(b.offset)
    {
      if b.offset + i >= b.data.Length {
        return Undefined, n;
      }
      var datum := b.data[b.offset + i];
      assert memory[..i + 1] == memory[..i] + [datum];
      Accumulate(memory[..i], datum);
      ExtentSoFar(memory, i);
      n := n + Shifted(datum, i);
      if datum < 128 {
        b.offset := b.offset + i + 1;
        return Count(i + 1), n;
      }
    }
    return EIllegalSequence, n;
  }

  /** The same from a source, which may run out of octets. */
  method DecodeFromSource(source: Streams.Source, maximum: nat) returns (rc: Code, n: nat)
    requires maximum <= MAX_OCTETS_64
    modifies source
    ensures match DecodedFrom(old(source.data), maximum)
            case Decoded(value, size) => rc == Count(size) && n == value && source.data == old(source.data)[size..]
            case IllegalSequence => rc == EIllegalSequence && source.data == old(source.data)[maximum..]
            case NoData => rc == ENoData && source.data == []
  {
    hide Groups, Wrapped, Shifted;
    ghost var stream := source.data;
    NoGroups(stream[..0]);
    n := 0;
    for i := 0 to maximum
      invariant i <= |stream| && n == Wrapped(Groups(stream[..i])) && source.data == stream[i..]
      invariant forall j :: 0 <= j < i ==> stream[j] >= 128
    {
      var got, datum := source.GetOctet();
      if !got {
        return ENoData, n;
      }
      assert stream[..i + 1] == stream[..i] + [datum];
      Accumulate(stream[..i], datum);
      ExtentSoFar(stream, i);
      n := n + Shifted(datum, i);
      if datum < 128 {
        return Count(i + 1), n;
      }
    }
    return EIllegalSequence, n;
  }

  /** The length of an encoding, without encoding. */
  method U64Length(n: nat) returns (octets: nat)
    ensures octets == |Encoded(n)|
  {
    var rest := n;
    octets := 1;
    while true
      invariant octets + |Encoded(rest)| == |Encoded(n)| + 1
      decreases rest
    {
      if rest / 128 == 0 {
        return;
      }
      rest, octets := rest / 128, octets + 1;
    }
  }

  /** A signed number of 32 bits through a buffer. */
  method S32ThroughBuffer(b: ByteBuffer, n: int) returns (back: int)
    requires b.Valid() && -0x8000_0000 <= n < 0x8000_0000
    requires MAX_OCTETS_32 <= b.Avail()
    modifies b, b.data
    ensures b.offset == b.used && back == n
  {
    hide Encoded, Power128, DecodedFrom, ToUnsigned, ToSigned;
    var u := ToUnsigned(n, TWO_32);
    SignedRoundTrip(n, TWO_32, MAX_OCTETS_32, []);
    var rc := EncodeU32(b, u);
    SignedRoundTrip(n, TWO_32, MAX_OCTETS_32, b.data[b.used..]);
    assert b.data[b.offset..] == Encoded(u) + b.data[b.used..];
    var got;
    rc, got := Decode(b, MAX_OCTETS_32);
    back := ToSigned(got % TWO_32, TWO_32);
  }

  method S64ThroughBuffer(b: ByteBuffer, n: int) returns (back: int)
    requires b.Valid() && -0x8000_0000_0000_0000 <= n < 0x8000_0000_0000_0000
    requires MAX_OCTETS_64 <= b.Avail()
    modifies b, b.data
    ensures b.offset == b.used && back == n
  {
    hide Encoded, Power128, DecodedFrom, ToUnsigned, ToSigned;
    var u := ToUnsigned(n, TWO_64);
    SignedRoundTrip(n, TWO_64, MAX_OCTETS_64, []);
    var rc := EncodeU64(b, u);
    SignedRoundTrip(n, TWO_64, MAX_OCTETS_64, b.data[b.used..]);
    assert b.data[b.offset..] == Encoded(u) + b.data[b.used..];
    var got;
    rc, got := Decode(b, MAX_OCTETS_64);
    back := ToSigned(got, TWO_64);
  }
}
