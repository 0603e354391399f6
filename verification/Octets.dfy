/** Octets and 16-bit words. */
module Octets {
  newtype octet = n: int | 0 <= n < 256

  newtype word = n: int | 0 <= n < 0x1_0000

  /** The octet holding the number n. */
  function OctetOf(n: nat): (o: octet)
    requires n < 256
    ensures o as nat == n
  {
    n as octet
  }

  /** Octets with others put over them from a position on. */
  function Patched(s: seq<octet>, at: nat, data: seq<octet>): (r: seq<octet>)
    requires at + |data| <= |s|
    ensures |r| == |s|
    ensures forall i :: 0 <= i < |s| ==> r[i] == if at <= i < at + |data| then data[i - at] else s[i]
  {
    s[..at] + data + s[at + |data|..]
  }

  lemma SliceOfSlice(s: seq<octet>, a: nat, n: nat, offset: nat, k: nat)
    requires a + n <= |s| && offset + k <= n
    ensures s[a..a + n][offset..offset + k] == s[a + offset..a + offset + k]
  {
    var whole := s[a..a + n];
    var part, direct := whole[offset..offset + k], s[a + offset..a + offset + k];
    forall i | 0 <= i < k ensures part[i] == direct[i] {
      assert part[i] == whole[offset + i];
    }
  }

  lemma ByteAndBack(b: bv8)
    ensures (b as octet) as bv8 == b
  {
  }

  lemma ByteSuccessor(b: bv8)
    requires b != 255
    ensures (b + 1) as int == b as int + 1
  {
  }

  lemma {:induction false} FindByte(d: octet) returns (b: bv8)
    ensures b as octet == d
    decreases d as int
  {
    b := 0;
    if d > 0 {
      var c := FindByte(d - 1);
      assert c != 255;
      ByteSuccessor(c);
      b := c + 1;
    }
  }

  /** An octet survives the trip through its bit pattern. */
  lemma OctetFitsByte(d: octet)
    ensures (d as bv8) as octet == d
  {
    var b := FindByte(d);
    ByteAndBack(b);
  }

  lemma JoinBytes(low: bv8, high: bv8) returns (c: bv16)
    ensures c as int == low as int + 256 * (high as int)
  {
    c := (low as bv16) | ((high as bv16) << 8);
  }

  lemma FindRegister(w: word) returns (c: bv16)
    ensures c as word == w
  {
    var low := FindByte((w % 256) as octet);
    var high := FindByte((w / 256) as octet);
    c := JoinBytes(low, high);
  }

  lemma RegisterAndBack(c: bv16)
    ensures (c as word) as bv16 == c
  {
  }

  /** So does a word. */
  lemma WordFitsRegister(w: word)
    ensures (w as bv16) as word == w
  {
    var c := FindRegister(w);
    RegisterAndBack(c);
  }
}

/** Fixed-width numbers as the library lays them out in memory. */
module Numbers {
  import opened Octets

  function Power256(width: nat): (p: nat)
    ensures p > 0
  {
    if width == 0 then 1 else 256 * Power256(width - 1)
  }

  /** The number whose octets are s, least significant octet first. */
  function FromLittleEndian(s: seq<octet>): (n: nat)
    ensures n < Power256(|s|)
  {
    if s == [] then 0 else s[0] as nat + 256 * FromLittleEndian(s[1..])
  }

  /** The low `width` octets of n, least significant octet first. */
  function LittleEndian(n: nat, width: nat): (s: seq<octet>)
    ensures |s| == width
    decreases width
  {
    if width == 0 then [] else [OctetOf(n % 256)] + LittleEndian(n / 256, width - 1)
  }

  lemma {:induction false} LittleEndianRoundTrip(n: nat, width: nat)
    requires n < Power256(width)
    ensures FromLittleEndian(LittleEndian(n, width)) == n
    decreases width
  {
    if width == 0 {
    } else {
      var s := LittleEndian(n, width);
      assert s[1..] == LittleEndian(n / 256, width - 1);
      LittleEndianRoundTrip(n / 256, width - 1);
    }
  }

  lemma {:induction false} LittleEndianInverts(s: seq<octet>)
    ensures LittleEndian(FromLittleEndian(s), |s|) == s
  {
    if s != [] {
      LittleEndianInverts(s[1..]);
      var n := FromLittleEndian(s);
      assert n % 256 == s[0] as nat && n / 256 == FromLittleEndian(s[1..]);
    }
  }

  function Reverse(s: seq<octet>): (r: seq<octet>)
    ensures |r| == |s|
  {
    if s == [] then [] else Reverse(s[1..]) + [s[0]]
  }

  lemma {:induction false} ReverseAt(s: seq<octet>, i: nat)
    requires i < |s|
    ensures Reverse(s)[i] == s[|s| - 1 - i]
  {
    if i < |s| - 1 {
      ReverseAt(s[1..], i);
    }
  }

  lemma ReverseTwice(s: seq<octet>)
    ensures Reverse(Reverse(s)) == s
  {
    forall i | 0 <= i < |s| ensures Reverse(Reverse(s))[i] == s[i] {
      ReverseAt(Reverse(s), i);
      ReverseAt(s, |s| - 1 - i);
    }
  }

  /** The low `width` octets of n, most significant octet first. */
  function BigEndian(n: nat, width: nat): (s: seq<octet>)
    ensures |s| == width
  {
    Reverse(LittleEndian(n, width))
  }

  function FromBigEndian(s: seq<octet>): (n: nat)
    ensures n < Power256(|s|)
  {
    FromLittleEndian(Reverse(s))
  }

  /** Numbers of one, two, and four octets, octet for octet. */
  lemma OctetForOctet(n: nat)
    ensures n < 0x100 ==> LittleEndian(n, 1) == BigEndian(n, 1) == [OctetOf(n)]
    ensures n < 0x1_0000 ==>
              && LittleEndian(n, 2) == [OctetOf(n % 256), OctetOf(n / 256)]
              && BigEndian(n, 2) == [OctetOf(n / 256), OctetOf(n % 256)]
    ensures n < 0x1_0000_0000 ==>
              && LittleEndian(n, 4) == [OctetOf(n % 256), OctetOf(n / 256 % 256), OctetOf(n / 0x1_0000 % 256), OctetOf(n / 0x100_0000)]
              && BigEndian(n, 4) == [OctetOf(n / 0x100_0000), OctetOf(n / 0x1_0000 % 256), OctetOf(n / 256 % 256), OctetOf(n % 256)]
  {
    hide BigEndian, LittleEndian, Reverse;
    if n < 0x100 {
      OneOctet(n);
    }
    if n < 0x1_0000 {
      TwoOctets(n);
    }
    if n < 0x1_0000_0000 {
      FourOctets(n);
    }
  }

  lemma OneOctet(n: nat)
    requires n < 0x100
    ensures LittleEndian(n, 1) == BigEndian(n, 1) == [OctetOf(n)]
  {
    assert LittleEndian(n, 1) == [OctetOf(n % 256)] + LittleEndian(n / 256, 0);
    ReverseAt([OctetOf(n)], 0);
  }

  lemma TwoOctets(n: nat)
    requires n < 0x1_0000
    ensures LittleEndian(n, 2) == [OctetOf(n % 256), OctetOf(n / 256)]
    ensures BigEndian(n, 2) == [OctetOf(n / 256), OctetOf(n % 256)]
  {
    var low := LittleEndian(n, 2);
    assert low == [OctetOf(n % 256)] + LittleEndian(n / 256, 1);
    OneOctet(n / 256);
    ReverseAt(low, 0);
    ReverseAt(low, 1);
  }

  lemma FourOctets(n: nat)
    requires n < 0x1_0000_0000
    ensures LittleEndian(n, 4) == [OctetOf(n % 256), OctetOf(n / 256 % 256), OctetOf(n / 0x1_0000 % 256), OctetOf(n / 0x100_0000)]
    ensures BigEndian(n, 4) == [OctetOf(n / 0x100_0000), OctetOf(n / 0x1_0000 % 256), OctetOf(n / 256 % 256), OctetOf(n % 256)]
  {
    hide LittleEndian, Reverse;
    FourOctetsUp(n);
    ReverseFour(OctetOf(n % 256), OctetOf(n / 256 % 256), OctetOf(n / 0x1_0000 % 256), OctetOf(n / 0x100_0000));
  }

  lemma FourOctetsUp(n: nat)
    requires n < 0x1_0000_0000
    ensures LittleEndian(n, 4) == [OctetOf(n % 256), OctetOf(n / 256 % 256), OctetOf(n / 0x1_0000 % 256), OctetOf(n / 0x100_0000)]
  {
    hide Reverse;
    assert LittleEndian(n, 4) == [OctetOf(n % 256)] + LittleEndian(n / 256, 3);
    assert LittleEndian(n / 256, 3) == [OctetOf(n / 256 % 256)] + LittleEndian(n / 256 / 256, 2);
    assert n / 256 / 256 == n / 0x1_0000 && n / 0x1_0000 / 256 == n / 0x100_0000;
    hide LittleEndian;
    TwoOctets(n / 0x1_0000);
  }

  lemma ReverseFour(a: octet, b: octet, c: octet, d: octet)
    ensures Reverse([a, b, c, d]) == [d, c, b, a]
  {
    ReverseAt([a, b, c, d], 0);
    ReverseAt([a, b, c, d], 1);
    ReverseAt([a, b, c, d], 2);
    ReverseAt([a, b, c, d], 3);
  }

  lemma BigEndianRoundTrip(n: nat, width: nat)
    requires n < Power256(width)
    ensures FromBigEndian(BigEndian(n, width)) == n
  {
    ReverseTwice(LittleEndian(n, width));
    LittleEndianRoundTrip(n, width);
  }
}
