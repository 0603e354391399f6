/** The frames of the register protocol, octet for octet. */
module RegisterOctets {
  import opened Octets
  import opened Numbers
  import opened RegisterFrames
  import Crc16Arc

  /** A number of 16 bits in network order. */
  function Two(n: nat): (s: seq<octet>)
    requires n < 0x1_0000
  {
    [OctetOf(n / 256), OctetOf(n % 256)]
  }

  /** A number of 32 bits in network order. */
  function Four(n: nat): (s: seq<octet>)
    requires n < 0x1_0000_0000
  {
    [OctetOf(n / 0x100_0000), OctetOf(n / 0x1_0000 % 256), OctetOf(n / 256 % 256), OctetOf(n % 256)]
  }

  lemma TwoInOrder(n: nat)
    requires n < 0x1_0000
    ensures BigEndian(n, 2) == Two(n)
  {
    OctetForOctet(n);
  }

  lemma FourInOrder(n: nat)
    requires n < 0x1_0000_0000
    ensures BigEndian(n, 4) == Four(n)
  {
    OctetForOctet(n);
  }

  /* ---------- What is sent ---------- */

  /** The number of a frame's type. */
  predicate IsTypeNumber(kind: Kind, n: nat) {
    match kind
    case ReadRequest => n == 0
    case ReadResponse => n == 1
    case WriteRequest => n == 2
    case WriteResponse => n == 3
    case Meta => n == 15
  }

  /**
   A frame starts with its options below the meta field, the type above the version, the sequence
   number, the address, and the block size, all of them in network order. On channels other than serial
   ones the payload follows.
   */
  lemma PlainFrame(m: Message, n: nat)
    requires Sendable(m) && IsTypeNumber(m.kind, n)
    ensures FrameOf(false, m)
         == [OctetOf(16 * m.meta + if m.wide then 1 else 0), OctetOf(16 * n)]
            + Two(m.sequence as nat) + Four(m.address) + Four(m.blocksize) + m.payload
  {
    hide BigEndian, Two, Four;
    LeadingOctets(HeaderOf(false, m), n, if m.wide then 1 else 0);
    assert Sums(HeaderOf(false, m)) == [];
  }

  /**
   On serial channels every frame has a header checksum, and those that carry a payload have a payload
   checksum, which the header's one covers; both say so in the options.
   */
  lemma SerialFrame(m: Message, n: nat)
    requires Sendable(m) && IsTypeNumber(m.kind, n)
    ensures var loaded := m.payload != [];
            var leading := [OctetOf(16 * m.meta + (if m.wide then 1 else 0) + 2 + if loaded then 4 else 0), OctetOf(16 * n)]
                           + Two(m.sequence as nat) + Four(m.address) + Four(m.blocksize);
            var plcrc := if loaded then Two(Crc16Arc.Checksum(0, m.payload) as nat) else [];
            FrameOf(true, m) == leading + Two(Crc16Arc.Checksum(0, leading + plcrc) as nat) + plcrc + m.payload
  {
    hide BigEndian, Two, Four, Crc16Arc.Checksum;
    var h := HeaderOf(true, m);
    var loaded := m.payload != [];
    UnitTimes(m.wide, m.blocksize);
    LeadingOctets(h, n, (if m.wide then 1 else 0) + 2 + if loaded then 4 else 0);
    TwoInOrder(h.hdcrc as nat);
    TwoInOrder(h.plcrc as nat);
    if loaded {
      Crc16Arc.ChecksumConcat(0, Leading(h), Two(h.plcrc as nat));
      assert Sums(h) == Two(h.hdcrc as nat) + Two(h.plcrc as nat);
    } else {
      assert Leading(h) + [] == Leading(h);
      assert Sums(h) == Two(h.hdcrc as nat);
    }
  }

  lemma LeadingOctets(h: Header, n: nat, options: nat)
    requires InRange(h) && IsTypeNumber(h.kind, n)
    requires options == (if h.options.wide then 1 else 0) + (if h.options.headerSum then 2 else 0) + (if h.options.payloadSum then 4 else 0)
    ensures Leading(h) == [OctetOf(16 * h.meta + options), OctetOf(16 * n)]
                          + Two(h.sequence as nat) + Four(h.address) + Four(h.blocksize)
  {
    hide BigEndian, Four;
    var motv := Motv(h.kind, h.options, h.meta);
    assert motv == 16 * n + 256 * (options + 16 * h.meta);
    assert motv / 256 == options + 16 * h.meta && motv % 256 == 16 * n;
    TwoInOrder(motv);
    TwoInOrder(h.sequence as nat);
    FourInOrder(h.address);
    FourInOrder(h.blocksize);
  }

  /** How long frames are. */
  lemma FrameLengths(m: Message)
    requires Sendable(m)
    ensures |FrameOf(false, m)| == 12 + |m.payload|
    ensures |FrameOf(true, m)| == 14 + (if m.payload == [] then 0 else 2 + |m.payload|)
  {
    UnitTimes(m.wide, m.blocksize);
  }

  /** Damage to one octet of the header of a serial frame is noticed, unless it turns over a bit that announces a checksum. */
  lemma DamagedHeaderIsNoticed(m: Message, raw: seq<octet>, i: nat, d: octet, beyond: nat -> octet)
    requires Sendable(m) && MetaAllowed(m.kind, m.meta) && raw == FrameOf(true, m)
    requires i < |raw| && i < (if m.payload == [] then 14 else 16) && d != raw[i]
    requires i == 0 ==> d as nat / 2 % 2 == 1 && (d as nat / 4 % 2 == 1 <==> m.payload != [])
    ensures ParsedFrame(raw[i := d], beyond) in {BadMessage, BadSum}
  {
    hide ParsedHeader, EncodedHeader, ParsedFrame, Leading, SumOver, OptionsOf, Crc16Arc.Checksum, MetaAllowed;
    HeaderRoundTrip(HeaderOf(true, m), m.payload);
    UnitTimes(m.wide, m.blocksize);
    OptionBits(d as nat);
    AlteredHeaderIsNoticed(raw, i, d, beyond);
  }

  lemma OptionBits(n: nat)
    requires n < 256
    ensures OptionsOf(n % 16) == Options(n % 2 == 1, n / 2 % 2 == 1, n / 4 % 2 == 1)
  {
    assert n == 16 * (n / 16) + n % 16;
    OptionBitsOf(n / 16, n % 16);
  }

  lemma OptionBitsOf(meta: nat, options: nat)
    requires options < 16
    ensures var n := 16 * meta + options;
            n % 2 == options % 2 && n / 2 % 2 == options / 2 % 2 && n / 4 % 2 == options / 4 % 2
  {
    var n := 16 * meta + options;
    Halved(n, 8 * meta + options / 2, options % 2);
    Quartered(n, 4 * meta + options / 4, options % 4);
    SameParity(8 * meta, options);
    SameParity(4 * meta, options / 2);
    SameParity(2 * meta, options / 4);
  }

  lemma Halved(n: nat, q: nat, r: nat)
    requires n == 2 * q + r && r < 2
    ensures n / 2 == q
  {
  }

  lemma Quartered(n: nat, q: nat, r: nat)
    requires n == 4 * q + r && r < 4
    ensures n / 4 == q
  {
  }

  lemma SameParity(k: nat, r: nat)
    ensures (2 * k + r) % 2 == r % 2
  {
  }

  /* ---------- What is received ---------- */

  function Number(s: seq<octet>): (n: nat) {
    if s == [] then 0 else 256 * Number(s[..|s| - 1]) + s[|s| - 1] as nat
  }

  lemma {:induction false} NumberIsBigEndian(s: seq<octet>)
    ensures FromBigEndian(s) == Number(s)
  {
    if s != [] {
      var n := |s| - 1;
      NumberIsBigEndian(s[..n]);
      assert s == s[..n] + [s[n]];
      ReversedSnoc(s[..n], s[n]);
      assert Reverse(s)[1..] == Reverse(s[..n]);
    }
  }

  lemma {:induction false} ReversedSnoc(s: seq<octet>, d: octet)
    ensures Reverse(s + [d]) == [d] + Reverse(s)
  {
    if s == [] {
      assert (s + [d])[1..] == [];
    } else {
      assert (s + [d])[1..] == s[1..] + [d];
      ReversedSnoc(s[1..], d);
    }
  }

  /** Version zero, no reserved option, a known type, a meta field that goes with it, and room for the announced checksums. */
  predicate IsHeader(raw: seq<octet>) {
    && |raw| >= 12
    && var options, meta, version, n := raw[0] as nat % 16, raw[0] as nat / 16, raw[1] as nat % 16, raw[1] as nat / 16;
       && version == 0 && options < 8 && n in {0, 1, 2, 3, 15}
       && (if n == 0 || n == 2 then meta == 0 else if n == 15 then meta == 1 || meta == 2 else meta <= 10)
       && |raw| >= SizeAnnounced(raw[0])
  }

  /** The first word of a frame, octet by octet. */
  lemma FirstWordTaken(raw: seq<octet>)
    requires |raw| >= 12
    ensures var motv := WordAt(raw, 0) as nat;
            && motv % 16 == raw[1] as nat % 16 && motv / 16 % 16 == raw[1] as nat / 16
            && motv / 256 % 16 == raw[0] as nat % 16 && motv / 4096 == raw[0] as nat / 16
    ensures HeaderSize(OptionsOf(raw[0] as nat % 16)) == SizeAnnounced(raw[0])
  {
    hide FromBigEndian, BigEndian, OptionsOf;
    TwoOctetsBack(raw[0..2]);
    FirstWord(WordAt(raw, 0) as nat, raw[0] as nat, raw[1] as nat);
    OptionBits(raw[0] as nat);
  }

  /** Exactly these octets are taken for a header. */
  lemma HeadersTaken(raw: seq<octet>)
    ensures ParsedHeader(raw) != BadHeader <==> IsHeader(raw)
    ensures IsHeader(raw) ==> |raw| >= 12 && |raw| >= SizeAnnounced(raw[0])
  {
    hide WordAt, SizeAnnounced, HeaderSize, OptionsOf, SumOver, Fields;
    if |raw| >= 12 {
      FirstWordTaken(raw);
      KnownKinds(raw[1] as nat / 16, raw[0] as nat / 16);
    }
  }

  lemma KnownKinds(n: nat, meta: nat)
    ensures KindOf(n) == Unknown <==> n !in {0, 1, 2, 3, 15}
    ensures KindOf(n) != Unknown ==>
              && IsTypeNumber(KindOf(n).kind, n)
              && (MetaAllowed(KindOf(n).kind, meta) <==>
                    if n == 0 || n == 2 then meta == 0 else if n == 15 then meta == 1 || meta == 2 else meta <= 10)
  {
  }

  /** What is read from a header. */
  lemma FieldsTaken(raw: seq<octet>)
    requires ParsedHeader(raw) != BadHeader
    ensures |raw| >= 12
    ensures var h, o := ParsedHeader(raw).header, raw[0] as nat;
            && IsTypeNumber(h.kind, raw[1] as nat / 16) && h.meta == o / 16
            && h.options == Options(o % 2 == 1, o / 2 % 2 == 1, o / 4 % 2 == 1)
            && h.sequence as nat == Number(raw[2..4]) && h.address == Number(raw[4..8]) && h.blocksize == Number(raw[8..12])
            && (ParsedHeader(raw).Accepted? ==> ParsedHeader(raw).size == SizeAnnounced(raw[0]))
  {
    hide FromBigEndian, BigEndian, OptionsOf, SumOver, HeaderSize, SizeAnnounced, Number, MetaAllowed;
    FirstWordTaken(raw);
    OptionBits(raw[0] as nat);
    KnownKinds(raw[1] as nat / 16, raw[0] as nat / 16);
    NumberIsBigEndian(raw[2..4]);
    NumberIsBigEndian(raw[4..8]);
    NumberIsBigEndian(raw[8..12]);
  }

  /** What is taken for a header is accepted exactly if its checksum is right. */
  lemma SumsTaken(raw: seq<octet>)
    requires IsHeader(raw)
    ensures ParsedHeader(raw).Accepted? <==> HeaderSumIsRight(raw)
  {
    hide FromBigEndian, BigEndian, OptionsOf, SumOver, MetaAllowed, HeaderSumIsRight;
    HeadersTaken(raw);
    FirstWordTaken(raw);
    SumsInOctets(raw);
    if !OptionsOf(raw[0] as nat % 16).headerSum {
      NoSum(raw);
    }
  }

  lemma NoSum(raw: seq<octet>)
    requires |raw| >= 12 && |raw| >= SizeAnnounced(raw[0]) && !OptionsOf(raw[0] as nat % 16).headerSum
    ensures HeaderSumIsRight(raw)
  {
    OptionBits(raw[0] as nat);
  }

  /** The number of octets of a header with the options of a first octet. */
  function SizeAnnounced(first: octet): nat {
    12 + (if first as nat / 2 % 2 == 1 then 2 else 0) + (if first as nat / 4 % 2 == 1 then 2 else 0)
  }

  /** Does the header checksum, if there is one, cover the leading octets and the payload's checksum, if there is one? */
  predicate HeaderSumIsRight(raw: seq<octet>)
    requires |raw| >= 12 && |raw| >= SizeAnnounced(raw[0])
  {
    raw[0] as nat / 2 % 2 == 1 ==>
      Crc16Arc.Checksum(0, raw[..12] + if raw[0] as nat / 4 % 2 == 1 then raw[14..16] else []) as nat == Number(raw[12..14])
  }

  lemma SumsInOctets(raw: seq<octet>)
    requires |raw| >= 12 && |raw| >= SizeAnnounced(raw[0])
    ensures var o := OptionsOf(raw[0] as nat % 16);
            && HeaderSize(o) == SizeAnnounced(raw[0])
            && (o.headerSum ==>
                  (SumOver(raw[..12], o.payloadSum, if o.payloadSum then WordAt(raw, 14) else 0) == WordAt(raw, 12)
                   <==> HeaderSumIsRight(raw)))
  {
    hide Crc16Arc.Checksum, FromBigEndian, BigEndian, Number, SumOver, OptionsOf;
    var o := OptionsOf(raw[0] as nat % 16);
    OptionBits(raw[0] as nat);
    if o.headerSum {
      SumIsOverCovered(raw, o.payloadSum);
      NumberIsBigEndian(raw[12..14]);
    }
  }

  /** What becomes of octets without a right header. */
  lemma FramesTaken(raw: seq<octet>, beyond: nat -> octet)
    ensures ParsedFrame(raw, beyond) == BadMessage <==> !IsHeader(raw)
    ensures ParsedFrame(raw, beyond) == BadSum <==> IsHeader(raw) && !HeaderSumIsRight(raw)
  {
    hide FromBigEndian, BigEndian, SumOver, MetaAllowed, HeaderSumIsRight, IsHeader, ParsedHeader, Stretch, Crc16Arc.Checksum;
    HeadersTaken(raw);
    if IsHeader(raw) {
      SumsTaken(raw);
    }
  }

  /**
   Behind a right header, responses to reads and requests to write must have as many units of payload as
   the block size says, and all others none; and if there is a header checksum, a payload needs one as
   well, over the units that the block size says.
   */
  lemma PayloadsTaken(raw: seq<octet>, payload: seq<octet>, unit: nat, wanted: nat, blocksize: nat, beyond: nat -> octet)
    requires IsHeader(raw) && HeaderSumIsRight(raw) && payload == raw[SizeAnnounced(raw[0])..]
    requires unit == (if raw[0] as nat % 2 == 1 then 2 else 1) && blocksize == Number(raw[8..12])
    requires wanted == if raw[1] as nat / 16 == 1 || raw[1] as nat / 16 == 2 then blocksize else 0
    ensures var v := ParsedFrame(raw, beyond);
            && (v.BadSize? <==> |payload| / unit != wanted)
            && (v.BadPayload? <==>
                  && |payload| / unit == wanted && raw[0] as nat / 2 % 2 == 1 && payload != []
                  && Crc16Arc.Checksum(0, Stretch(payload, beyond, unit * blocksize)) as nat != PayloadSumOf(raw))
            && (v.BadSize? || v.BadPayload? || (v.Good? && v.payload == payload && ParsedHeader(raw) == Accepted(v.header, SizeAnnounced(raw[0]))))
  {
    hide FromBigEndian, BigEndian, SumOver, MetaAllowed, HeaderSumIsRight, IsHeader, Number, ParsedHeader, Stretch, Crc16Arc.Checksum,
         SizeAnnounced;
    HeadersTaken(raw);
    SumsTaken(raw);
    FieldsTaken(raw);
    SumFieldTaken(raw);
  }

  /** The payload's checksum, which is zero where none is announced. */
  function PayloadSumOf(raw: seq<octet>): nat
    requires |raw| >= 12 && |raw| >= SizeAnnounced(raw[0])
  {
    if raw[0] as nat / 4 % 2 == 0 then 0
    else if raw[0] as nat / 2 % 2 == 1 then Number(raw[14..16])
    else Number(raw[12..14])
  }

  lemma SumFieldTaken(raw: seq<octet>)
    requires ParsedHeader(raw).Accepted?
    ensures |raw| >= 12 && |raw| >= SizeAnnounced(raw[0])
    ensures ParsedHeader(raw).header.plcrc as nat == PayloadSumOf(raw)
  {
    hide FromBigEndian, BigEndian, SumOver, MetaAllowed, OptionsOf, Number;
    FirstWordTaken(raw);
    OptionBits(raw[0] as nat);
    if |raw| >= 14 {
      NumberIsBigEndian(raw[12..14]);
    }
    if |raw| >= 16 {
      NumberIsBigEndian(raw[14..16]);
    }
  }
}
