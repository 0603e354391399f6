/** Frames of the register protocol: a bit-packed header, two optional checksums, and a payload. */
module RegisterFrames {
  import opened Octets
  import opened Numbers
  import Crc16Arc

  const HEADER_MIN: nat := 12
  const HEADER_MAX: nat := 16
  const TWO_32: nat := 0x1_0000_0000

  /* Response codes, as they travel in the meta field. */
  const ACK: nat := 0
  const EWORDSIZE: nat := 1
  const EPAYLOADCRC: nat := 2
  const EPAYLOADSIZE: nat := 3
  const ERXOVERFLOW: nat := 4
  const ETXOVERFLOW: nat := 5
  const EBUSY: nat := 6
  const EUNMAPPED: nat := 7
  const EACCESS: nat := 8
  const ERANGE: nat := 9
  const EINVALID: nat := 10
  const EIO: nat := 11

  /* Reasons given in meta messages. */
  const EHEADERENC: nat := 1
  const EHEADERCRC: nat := 2

  datatype Kind = ReadRequest | ReadResponse | WriteRequest | WriteResponse | Meta

  datatype Options = Options(wide: bool, headerSum: bool, payloadSum: bool)

  datatype Header = Header(
    kind: Kind, options: Options, meta: nat, sequence: word, address: nat, blocksize: nat, hdcrc: word, plcrc: word)

  /** Everything fits into the field that carries it. */
  predicate InRange(h: Header) {
    h.meta < 16 && h.address < TWO_32 && h.blocksize < TWO_32
  }

  datatype HeaderResult =
    | Accepted(header: Header, size: nat)
    | BadHeader
    | BadHeaderSum(header: Header)

  datatype Verdict =
    | Good(header: Header, payload: seq<octet>)
    | BadMessage
    | BadSum
    | BadSize(header: Header)
    | BadPayload(header: Header)

  /* ---------- The first word ---------- */

  function KindCode(kind: Kind): (code: nat)
    ensures code < 16
  {
    match kind
    case ReadRequest => 0
    case ReadResponse => 1
    case WriteRequest => 2
    case WriteResponse => 3
    case Meta => 15
  }

  datatype KnownKind = Known(kind: Kind) | Unknown

  function KindOf(code: nat): (k: KnownKind)
    ensures k == Unknown || KindCode(k.kind) == code
  {
    match code
    case 0 => Known(ReadRequest)
    case 1 => Known(ReadResponse)
    case 2 => Known(WriteRequest)
    case 3 => Known(WriteResponse)
    case 15 => Known(Meta)
    case _ => Unknown
  }

  function OptionCode(o: Options): (code: nat)
    ensures code < 8
  {
    (if o.wide then 1 else 0) + (if o.headerSum then 2 else 0) + (if o.payloadSum then 4 else 0)
  }

  function OptionsOf(code: nat): Options {
    Options(code % 2 == 1, code / 2 % 2 == 1, code / 4 % 2 == 1)
  }

  /** Version zero, type, options, and meta, four bits each from the bottom. */
  function Motv(kind: Kind, options: Options, meta: nat): (motv: nat)
    requires meta < 16
    ensures motv < 0x1_0000
    ensures motv % 16 == 0 && KindOf(motv / 16 % 16) == Known(kind)
    ensures motv / 256 % 16 < 8 && OptionsOf(motv / 256 % 16) == options
    ensures motv / 4096 == meta
  {
    var o, k := OptionCode(options), KindCode(kind);
    FourParts(k, o, meta);
    OptionsBack(options);
    16 * k + 256 * o + 4096 * meta
  }

  lemma FourParts(k: nat, o: nat, meta: nat)
    requires k < 16 && o < 16 && meta < 16
    ensures var motv := 16 * k + 256 * o + 4096 * meta;
            && motv < 0x1_0000 && motv % 16 == 0 && motv / 16 % 16 == k
            && motv / 256 % 16 == o && motv / 4096 == meta
  {
    var motv := 16 * k + 256 * o + 4096 * meta;
    assert motv / 16 == k + 16 * (o + 16 * meta) && motv / 256 == o + 16 * meta;
  }

  lemma OptionsBack(options: Options)
    ensures OptionsOf(OptionCode(options)) == options
  {
  }

  /** What the meta field may hold. */
  predicate MetaAllowed(kind: Kind, meta: nat) {
    match kind
    case ReadRequest | WriteRequest => meta == 0
    case ReadResponse | WriteResponse => meta <= EINVALID
    case Meta => 1 <= meta <= 2
  }

  /* ---------- Encoding ---------- */

  /** The part of a header that is always there. */
  function Leading(h: Header): (s: seq<octet>)
    requires InRange(h)
    ensures |s| == HEADER_MIN
  {
    BigEndian(Motv(h.kind, h.options, h.meta), 2)
    + (BigEndian(h.sequence as nat, 2) + (BigEndian(h.address, 4) + BigEndian(h.blocksize, 4)))
  }

  /** The checksum of the leading part, extended over the payload's checksum if that is there. */
  function SumOver(leading: seq<octet>, payloadSum: bool, plcrc: word): word {
    var sum := Crc16Arc.Checksum(0, leading);
    if payloadSum then Crc16Arc.Checksum(sum, BigEndian(plcrc as nat, 2)) else sum
  }

  function Sums(h: Header): seq<octet> {
    (if h.options.headerSum then BigEndian(h.hdcrc as nat, 2) else [])
    + (if h.options.payloadSum then BigEndian(h.plcrc as nat, 2) else [])
  }

  function HeaderSize(o: Options): nat {
    HEADER_MIN + (if o.headerSum then 2 else 0) + (if o.payloadSum then 2 else 0)
  }

  function EncodedHeader(h: Header): (s: seq<octet>)
    requires InRange(h)
    ensures |s| == HeaderSize(h.options)
  {
    Leading(h) + Sums(h)
  }

  /** A header as this side sends it: what its options leave out is zero, and its checksum is right. */
  predicate Proper(h: Header) {
    && InRange(h)
    && (h.options.payloadSum ==> h.options.headerSum)
    && (!h.options.payloadSum ==> h.plcrc == 0)
    && h.hdcrc == if h.options.headerSum then SumOver(Leading(h), h.options.payloadSum, h.plcrc) else 0
  }

  /* ---------- Parsing ---------- */

  function WordAt(raw: seq<octet>, i: nat): word
    requires i + 2 <= |raw|
  {
    TwoOctets(raw[i..i + 2]);
    FromBigEndian(raw[i..i + 2]) as word
  }

  lemma TwoOctets(s: seq<octet>)
    requires |s| == 2
    ensures FromBigEndian(s) < 0x1_0000
  {
    assert Power256(2) == 0x1_0000;
  }

  /** The fields of a header as they are found, right or wrong. */
  function Fields(raw: seq<octet>, kind: Kind, options: Options): Header
    requires HeaderSize(options) <= |raw|
  {
    Header(kind, options, WordAt(raw, 0) as nat / 4096, WordAt(raw, 2),
           FromBigEndian(raw[4..8]), FromBigEndian(raw[8..12]),
           if options.headerSum then WordAt(raw, 12) else 0,
           if options.payloadSum then WordAt(raw, HeaderSize(options) - 2) else 0)
  }

  /** What parsing a header comes to. */
  function ParsedHeader(raw: seq<octet>): HeaderResult {
    if |raw| < HEADER_MIN then BadHeader
    else
      var motv := WordAt(raw, 0) as nat;
      var kind, code := KindOf(motv / 16 % 16), motv / 256 % 16;
      if motv % 16 != 0 || 8 <= code || kind == Unknown || !MetaAllowed(kind.kind, motv / 4096) then BadHeader
      else
        var options := OptionsOf(code);
        if |raw| < HeaderSize(options) then BadHeader
        else
          var h := Fields(raw, kind.kind, options);
          var sum := if options.headerSum then SumOver(raw[..HEADER_MIN], options.payloadSum, h.plcrc) else 0;
          if sum == h.hdcrc then Accepted(h, HeaderSize(options)) else BadHeaderSum(h)
  }

  /* ---------- Payloads ---------- */

  function Unit(wide: bool): nat {
    if wide then 2 else 1
  }

  /** Does the size of a payload go with its header? A stray octet of a wide payload is not counted. */
  predicate Plausible(h: Header, size: nat) {
    match h.kind
    case ReadRequest | WriteResponse | Meta => size / Unit(h.options.wide) == 0
    case ReadResponse | WriteRequest => h.blocksize == size / Unit(h.options.wide)
  }

  /** The first n octets of a payload and of the memory behind it. */
  function Stretch(payload: seq<octet>, beyond: nat -> octet, n: nat): (s: seq<octet>)
    ensures |s| == n
    ensures n <= |payload| ==> s == payload[..n]
  {
    seq(n, i requires 0 <= i => if i < |payload| then payload[i] else beyond(i - |payload|))
  }

  /** The payload's checksum, over as many octets as the block size says, is looked at if the header has one. */
  predicate SumMatches(h: Header, payload: seq<octet>, beyond: nat -> octet) {
    h.options.headerSum && payload != [] ==>
      Crc16Arc.Checksum(0, Stretch(payload, beyond, Unit(h.options.wide) * h.blocksize)) == h.plcrc
  }

  /** What parsing a frame comes to. */
  function ParsedFrame(raw: seq<octet>, beyond: nat -> octet): Verdict {
    match ParsedHeader(raw)
    case BadHeader => BadMessage
    case BadHeaderSum(_) => BadSum
    case Accepted(h, size) =>
      var payload := if size <= |raw| then raw[size..] else [];
      if !Plausible(h, |payload|) then BadSize(h)
      else if !SumMatches(h, payload, beyond) then BadPayload(h)
      else Good(h, payload)
  }

  /* ---------- Messages as they are sent ---------- */

  /** A message before it is encoded for a channel. */
  datatype Message = Message(
    kind: Kind, wide: bool, meta: nat, sequence: word, address: nat, blocksize: nat, payload: seq<octet>)

  /** The block size is that of the payload, except that a read request asks for a payload. */
  predicate Sendable(m: Message) {
    && m.meta < 16 && m.address < TWO_32 && m.blocksize < TWO_32
    && |m.payload| == if m.kind == ReadRequest then 0 else Unit(m.wide) * m.blocksize
  }

  /** Checksums are for serial channels only, and a payload's for messages that carry one. */
  function OptionsFor(serial: bool, wide: bool, kind: Kind, n: nat): Options {
    Options(wide, serial, serial && n > 0 && kind != ReadRequest)
  }

  function HeaderOf(serial: bool, m: Message): (h: Header)
    requires Sendable(m)
    ensures Proper(h)
    ensures h == Header(m.kind, OptionsFor(serial, m.wide, m.kind, m.blocksize), m.meta, m.sequence, m.address, m.blocksize,
                        h.hdcrc, h.plcrc)
  {
    var options := OptionsFor(serial, m.wide, m.kind, m.blocksize);
    var plcrc := if options.payloadSum then Crc16Arc.Checksum(0, m.payload) else 0;
    var h := Header(m.kind, options, m.meta, m.sequence, m.address, m.blocksize, 0, plcrc);
    var sum := if options.headerSum then SumOver(Leading(h), options.payloadSum, plcrc) else 0;
    var r := h.(hdcrc := sum);
    SameLeading(h, r);
    r
  }

  lemma SameLeading(h: Header, r: Header)
    requires InRange(h) && r == h.(hdcrc := r.hdcrc)
    ensures InRange(r) && Leading(r) == Leading(h)
  {
  }

  function FrameOf(serial: bool, m: Message): seq<octet>
    requires Sendable(m)
  {
    EncodedHeader(HeaderOf(serial, m)) + m.payload
  }

  /* ---------- Round trips ---------- */

  lemma WordRoundTrip(w: word)
    ensures FromBigEndian(BigEndian(w as nat, 2)) == w as nat
  {
    assert Power256(2) == 0x1_0000;
    BigEndianRoundTrip(w as nat, 2);
  }

  lemma LongRoundTrip(n: nat)
    requires n < TWO_32
    ensures FromBigEndian(BigEndian(n, 4)) == n
  {
    assert Power256(4) == TWO_32;
    BigEndianRoundTrip(n, 4);
  }

  /** Where the parts of a sequence are found again. */
  lemma Parts(a: seq<octet>, b: seq<octet>, c: seq<octet>, d: seq<octet>, rest: seq<octet>)
    requires |a| == 2 && |b| == 2 && |c| == 4 && |d| == 4
    ensures var s := (a + (b + (c + d))) + rest;
            s[0..2] == a && s[2..4] == b && s[4..8] == c && s[8..12] == d && s[..12] == a + (b + (c + d)) && s[12..] == rest
  {
    var t := a + (b + (c + d));
    var s := t + rest;
    assert s[..12] == t && s[12..] == rest;
    assert s[0..2] == a && s[2..4] == b && s[4..8] == c && s[8..12] == d;
  }

  /** The sums of a header are found behind its leading part. */
  lemma SumParts(h: Header, leading: seq<octet>, payload: seq<octet>)
    requires |leading| == HEADER_MIN
    ensures var raw, size := leading + Sums(h) + payload, HeaderSize(h.options);
            && |raw| >= size && raw[size..] == payload && raw == leading + (Sums(h) + payload)
            && (h.options.headerSum ==> WordAt(raw, 12) == h.hdcrc)
            && (h.options.payloadSum ==> WordAt(raw, size - 2) == h.plcrc)
  {
    hide BigEndian, FromBigEndian;
    var raw, size := leading + Sums(h) + payload, HeaderSize(h.options);
    WordRoundTrip(h.hdcrc);
    WordRoundTrip(h.plcrc);
    if h.options.headerSum {
      assert raw[12..14] == BigEndian(h.hdcrc as nat, 2);
    }
    if h.options.payloadSum {
      assert raw[size - 2..size] == BigEndian(h.plcrc as nat, 2);
    }
  }

  /** A header that this side sends is read back field for field, wherever the receiver lets it through. */
  lemma HeaderRoundTrip(h: Header, payload: seq<octet>)
    requires Proper(h)
    ensures var raw, size := EncodedHeader(h) + payload, HeaderSize(h.options);
            && size <= |raw| && raw[size..] == payload
            && ParsedHeader(raw) == if MetaAllowed(h.kind, h.meta) then Accepted(h, size) else BadHeader
  {
    hide BigEndian, FromBigEndian, Crc16Arc.Checksum, OptionsOf, KindOf, Motv;
    var raw, size := EncodedHeader(h) + payload, HeaderSize(h.options);
    var motv := Motv(h.kind, h.options, h.meta);
    SumParts(h, Leading(h), payload);
    Parts(BigEndian(motv, 2), BigEndian(h.sequence as nat, 2), BigEndian(h.address, 4), BigEndian(h.blocksize, 4),
          Sums(h) + payload);
    WordRoundTrip(motv as word);
    WordRoundTrip(h.sequence);
    LongRoundTrip(h.address);
    LongRoundTrip(h.blocksize);
    assert WordAt(raw, 0) as nat == motv;
    assert Fields(raw, h.kind, h.options) == h;
  }

  /** The kinds of messages that come without payload, as far as the receiver is concerned. */
  predicate PayloadExpected(kind: Kind) {
    kind == ReadResponse || kind == WriteRequest
  }

  /** What a receiver makes of a message: the same again, or one of two refusals. */
  function Understood(serial: bool, m: Message): Verdict
    requires Sendable(m)
  {
    if !MetaAllowed(m.kind, m.meta) then BadMessage
    else if m.payload != [] && !PayloadExpected(m.kind) then BadSize(HeaderOf(serial, m))
    else Good(HeaderOf(serial, m), m.payload)
  }

  lemma UnitTimes(wide: bool, n: nat)
    ensures (Unit(wide) * n) / Unit(wide) == n
    ensures Unit(wide) * n == 0 <==> n == 0
  {
  }

  /** Every message survives encoding and parsing, on both kinds of channels. */
  lemma FrameRoundTrip(serial: bool, m: Message, beyond: nat -> octet)
    requires Sendable(m)
    ensures ParsedFrame(FrameOf(serial, m), beyond) == Understood(serial, m)
  {
    hide ParsedHeader, EncodedHeader, Proper;
    HeaderRoundTrip(HeaderOf(serial, m), m.payload);
    UnitTimes(m.wide, m.blocksize);
    assert m.payload[..|m.payload|] == m.payload;
  }

  /* ---------- Damage ---------- */

  lemma TwoOctetValue(a: octet, b: octet)
    ensures FromBigEndian([a, b]) == 256 * a as nat + b as nat
  {
    TwoReversed(a, b);
    assert [b, a][1..] == [a] && [a][1..] == [];
    assert FromLittleEndian([a]) == a as nat + 256 * FromLittleEndian([]);
  }

  lemma TwoReversed(a: octet, b: octet)
    ensures Reverse([a, b]) == [b, a]
  {
    assert [a, b][1..] == [b] && [b][1..] == [];
    assert Reverse([b]) == Reverse([]) + [b];
  }

  lemma TwoOctetsBack(s: seq<octet>)
    requires |s| == 2
    ensures FromBigEndian(s) == 256 * s[0] as nat + s[1] as nat
    ensures BigEndian(FromBigEndian(s), 2) == s
  {
    var n := 256 * s[0] as nat + s[1] as nat;
    assert s == [s[0], s[1]];
    TwoOctetValue(s[0], s[1]);
    assert LittleEndian(n / 256, 1) == [s[0]] + LittleEndian(n / 256 / 256, 0);
    assert LittleEndian(n, 2) == [s[1], s[0]];
    TwoReversed(s[1], s[0]);
  }

  /** The octets of a header that its checksum covers. */
  function Covered(raw: seq<octet>, payloadSum: bool): seq<octet>
    requires HEADER_MAX <= |raw| || (!payloadSum && HEADER_MIN <= |raw|)
  {
    raw[..HEADER_MIN] + if payloadSum then raw[14..16] else []
  }

  lemma SumIsOverCovered(raw: seq<octet>, payloadSum: bool)
    requires HEADER_MAX <= |raw| || (!payloadSum && HEADER_MIN <= |raw|)
    ensures SumOver(raw[..HEADER_MIN], payloadSum, if payloadSum then WordAt(raw, 14) else 0)
         == Crc16Arc.Checksum(0, Covered(raw, payloadSum))
  {
    hide Crc16Arc.Checksum, BigEndian, FromBigEndian;
    if payloadSum {
      TwoOctetsBack(raw[14..16]);
      Crc16Arc.ChecksumConcat(0, raw[..HEADER_MIN], raw[14..16]);
    } else {
      assert Covered(raw, false) == raw[..HEADER_MIN];
    }
  }

  /** Header checksums of frames that differ in one octet, either a covered one or of the checksum itself. */
  lemma SumsDisagree(raw: seq<octet>, i: nat, d: octet, payloadSum: bool)
    requires HEADER_MAX <= |raw| || (!payloadSum && 14 <= |raw|)
    requires i < (if payloadSum then HEADER_MAX else 14) && d != raw[i]
    requires Crc16Arc.Checksum(0, Covered(raw, payloadSum)) == WordAt(raw, 12)
    ensures Crc16Arc.Checksum(0, Covered(raw[i := d], payloadSum)) != WordAt(raw[i := d], 12)
  {
    hide Crc16Arc.Checksum, FromBigEndian;
    var raw' := raw[i := d];
    if i == 12 || i == 13 {
      assert raw'[..HEADER_MIN] == raw[..HEADER_MIN];
      assert payloadSum ==> raw'[14..16] == raw[14..16];
      TwoOctetsBack(raw[12..14]);
      TwoOctetsBack(raw'[12..14]);
      assert raw'[12..14][i - 12] != raw[12..14][i - 12];
    } else {
      assert raw'[12..14] == raw[12..14];
      var at := if i < 12 then i else i - 2;
      assert Covered(raw', payloadSum) == Covered(raw, payloadSum)[at := d];
      Crc16Arc.ChecksumDetectsOctet(0, Covered(raw, payloadSum), at, d);
    }
  }

  /** What was accepted with a header checksum had a checksum that was right. */
  lemma AcceptedSum(raw: seq<octet>)
    requires ParsedHeader(raw).Accepted? && ParsedHeader(raw).header.options.headerSum
    ensures var o := ParsedHeader(raw).header.options;
            && HeaderSize(o) <= |raw|
            && Crc16Arc.Checksum(0, Covered(raw, o.payloadSum)) == WordAt(raw, 12)
  {
    hide Crc16Arc.Checksum, FromBigEndian;
    SumIsOverCovered(raw, ParsedHeader(raw).header.options.payloadSum);
  }

  /** The options stand in the first octet. */
  lemma OptionsInFirstOctet(raw: seq<octet>)
    requires HEADER_MIN <= |raw|
    ensures WordAt(raw, 0) as nat / 256 == raw[0] as nat
    ensures ParsedHeader(raw).Accepted? ==> ParsedHeader(raw).header.options == OptionsOf(raw[0] as nat % 16)
  {
    TwoOctetsBack(raw[0..2]);
  }

  /** An octet put in place of the first one of a header leaves the two bits that announce checksums as they are. */
  predicate KeepsSums(o: Options, d: octet) {
    var o' := OptionsOf(d as nat % 16);
    o'.headerSum == o.headerSum && o'.payloadSum == o.payloadSum
  }

  /**
   On a serial channel, altering one octet of a header is noticed, for every octet but the first, and
   for that one too unless the alteration touches the bits that announce the checksums.
   */
  lemma AlteredHeaderIsNoticed(raw: seq<octet>, i: nat, d: octet, beyond: nat -> octet)
    requires ParsedHeader(raw).Accepted? && ParsedHeader(raw).header.options.headerSum
    requires i < ParsedHeader(raw).size && d != raw[i]
    requires i == 0 ==> KeepsSums(ParsedHeader(raw).header.options, d)
    ensures ParsedFrame(raw[i := d], beyond) in {BadMessage, BadSum}
  {
    hide Crc16Arc.Checksum, FromBigEndian, OptionsOf, SumMatches, Stretch;
    var raw' := raw[i := d];
    var o := ParsedHeader(raw).header.options;
    AcceptedSum(raw);
    OptionsInFirstOctet(raw);
    OptionsInFirstOctet(raw');
    if ParsedHeader(raw').Accepted? {
      SumsDisagree(raw, i, d, o.payloadSum);
      AcceptedSum(raw');
    }
  }

  lemma FirstWord(w: nat, a: nat, b: nat)
    requires w == 256 * a + b && a < 256 && b < 256
    ensures w % 16 == b % 16 && w / 16 % 16 == b / 16
    ensures w / 256 == a && w / 256 % 16 == a % 16 && w / 4096 == a / 16
  {
  }

  /** What the first octet of an accepted header says of it. */
  lemma FirstOctet(raw: seq<octet>)
    requires ParsedHeader(raw).Accepted?
    ensures HEADER_MIN <= |raw| && raw[0] as nat % 16 < 8
    ensures MetaAllowed(ParsedHeader(raw).header.kind, raw[0] as nat / 16)
    ensures WordAt(raw, 0) as nat == 256 * raw[0] as nat + raw[1] as nat
    ensures raw[1] as nat % 16 == 0 && KindOf(raw[1] as nat / 16) == Known(ParsedHeader(raw).header.kind)
  {
    hide Crc16Arc.Checksum, FromBigEndian, OptionsOf, KindOf, SumOver;
    TwoOctetsBack(raw[0..2]);
    FirstWord(WordAt(raw, 0) as nat, raw[0] as nat, raw[1] as nat);
  }

  /** Which headers another first octet makes of an accepted one. */
  lemma OtherFirstOctet(raw: seq<octet>, d: octet)
    requires ParsedHeader(raw).Accepted?
    ensures var raw', o', kind := raw[0 := d], OptionsOf(d as nat % 16), ParsedHeader(raw).header.kind;
            && HEADER_MIN <= |raw|
            && (ParsedHeader(raw').Accepted? <==>
                  && d as nat % 16 < 8 && MetaAllowed(kind, d as nat / 16) && HeaderSize(o') <= |raw|
                  && (o'.headerSum ==> Crc16Arc.Checksum(0, Covered(raw', o'.payloadSum)) == WordAt(raw', 12)))
            && (ParsedHeader(raw').Accepted? ==>
                  ParsedHeader(raw') == Accepted(Fields(raw', kind, o'), HeaderSize(o')))
  {
    hide Crc16Arc.Checksum, FromBigEndian, OptionsOf, KindOf, SumOver;
    var raw', o' := raw[0 := d], OptionsOf(d as nat % 16);
    FirstOctet(raw);
    TwoOctetsBack(raw'[0..2]);
    FirstWord(WordAt(raw', 0) as nat, d as nat, raw[1] as nat);
    if o'.headerSum && HeaderSize(o') <= |raw| {
      SumIsOverCovered(raw', o'.payloadSum);
    }
  }

  /**
   What becomes of a checked header whose first octet is altered. With both checksum bits kept it is
   always refused. With the header's bit cleared it is accepted exactly if the new options and the new
   meta field are legal. With only the payload's bit turned over it is accepted exactly if, besides, there
   is room for it and the checksum happens to be right for the other extent.
   */
  lemma AlteredFirstOctet(raw: seq<octet>, d: octet, beyond: nat -> octet)
    requires ParsedHeader(raw).Accepted? && ParsedHeader(raw).header.options.headerSum && d != raw[0]
    ensures var raw', o, o', kind := raw[0 := d], ParsedHeader(raw).header.options, OptionsOf(d as nat % 16), ParsedHeader(raw).header.kind;
            var legal := d as nat % 16 < 8 && MetaAllowed(kind, d as nat / 16);
            if KeepsSums(o, d) then ParsedFrame(raw', beyond) in {BadMessage, BadSum}
            else if !o'.headerSum then ParsedHeader(raw').Accepted? <==> legal
            else
              ParsedHeader(raw').Accepted? <==>
                legal && HeaderSize(o') <= |raw| && Crc16Arc.Checksum(0, Covered(raw', o'.payloadSum)) == WordAt(raw', 12)
  {
    hide Crc16Arc.Checksum, FromBigEndian, OptionsOf, SumMatches, Stretch, Covered, Fields;
    AcceptedSize(raw);
    OtherFirstOctet(raw, d);
    if KeepsSums(ParsedHeader(raw).header.options, d) {
      AlteredHeaderIsNoticed(raw, 0, d, beyond);
    }
  }

  lemma AcceptedSize(raw: seq<octet>)
    requires ParsedHeader(raw).Accepted?
    ensures ParsedHeader(raw).size == HeaderSize(ParsedHeader(raw).header.options) <= |raw|
  {
    hide Crc16Arc.Checksum, FromBigEndian, OptionsOf, KindOf, SumOver;
  }

  /** A frame whose header's checksum bit has been cleared passes exactly if it is legal and of a plausible size. */
  lemma UncheckedFramePasses(raw: seq<octet>, d: octet, beyond: nat -> octet)
    requires ParsedHeader(raw).Accepted? && ParsedHeader(raw).header.options.headerSum
    requires !OptionsOf(d as nat % 16).headerSum
    ensures var raw', o', kind := raw[0 := d], OptionsOf(d as nat % 16), ParsedHeader(raw).header.kind;
            && HeaderSize(o') <= |raw|
            && var h := Fields(raw', kind, o');
               (ParsedFrame(raw', beyond).Good? <==>
                  d as nat % 16 < 8 && MetaAllowed(kind, d as nat / 16) && Plausible(h, |raw| - HeaderSize(o')))
               && (ParsedFrame(raw', beyond).Good? ==> ParsedFrame(raw', beyond) == Good(h, raw'[HeaderSize(o')..]))
  {
    hide Crc16Arc.Checksum, FromBigEndian, OptionsOf, Stretch, Covered, ParsedHeader, Plausible, MetaAllowed;
    AcceptedSize(raw);
    OtherFirstOctet(raw, d);
  }

  /**
   For instance, a write of four octets whose first octet has both of the checksum bits cleared and
   the word size bit set passes for one of four words, the first two of which are its checksums.
   */
  lemma AlteredFirstOctetCanPass(m: Message, beyond: nat -> octet)
    requires Sendable(m) && m.kind == WriteRequest && !m.wide && m.meta == 0 && m.blocksize == 4
    ensures ParsedFrame(FrameOf(true, m)[0 := 1], beyond)
         == Good(Header(WriteRequest, Options(true, false, false), 0, m.sequence, m.address, 4, 0, 0),
                 Sums(HeaderOf(true, m)) + m.payload)
  {
    hide ParsedHeader, BigEndian, FromBigEndian, Crc16Arc.Checksum;
    var h := HeaderOf(true, m);
    var h' := Header(WriteRequest, Options(true, false, false), 0, m.sequence, m.address, 4, 0, 0);
    TwoOctetsBack([6, 0x20]);
    TwoOctetsBack([1, 0x20]);
    var others := BigEndian(m.sequence as nat, 2) + (BigEndian(m.address, 4) + BigEndian(4, 4));
    assert Leading(h) == [6, 0x20] + others && Leading(h') == [1, 0x20] + others;
    assert Sums(h') == [];
    assert EncodedHeader(h') == Leading(h');
    assert FrameOf(true, m) == [6, 0x20] + others + (Sums(h) + m.payload);
    assert FrameOf(true, m)[0 := 1] == EncodedHeader(h') + (Sums(h) + m.payload);
    HeaderRoundTrip(h', Sums(h) + m.payload);
  }

  /** Altering one octet of a payload with a checksum is noticed, and does not spoil the header. */
  lemma AlteredPayloadIsNoticed(m: Message, i: nat, d: octet, beyond: nat -> octet)
    requires Sendable(m) && PayloadExpected(m.kind) && MetaAllowed(m.kind, m.meta)
    requires i < |m.payload| && d != m.payload[i]
    ensures var h := HeaderOf(true, m);
            ParsedFrame(FrameOf(true, m)[HeaderSize(h.options) + i := d], beyond) == BadPayload(h)
  {
    hide ParsedHeader, EncodedHeader, Proper, Crc16Arc.Checksum;
    var h := HeaderOf(true, m);
    var payload' := m.payload[i := d];
    assert FrameOf(true, m)[HeaderSize(h.options) + i := d] == EncodedHeader(h) + payload';
    HeaderRoundTrip(h, payload');
    UnitTimes(m.wide, m.blocksize);
    assert payload'[..|payload'|] == payload';
    Crc16Arc.ChecksumDetectsOctet(0, m.payload, i, d);
  }
}
