/** Frames that start with the length of their payload, in one of six forms. */
module LengthPrefix {
  import opened Octets
  import opened Numbers
  import opened ByteBuffers
  import opened Streams
  import Varint

  datatype Kind = Variable | Octet | Little16 | Little32 | Big16 | Big32

  datatype Code = Count(count: nat) | EInvalid | ENoMemory | EIllegalSequence | ENoData

  const SSIZE_MAX: nat := 0x7fff_ffff_ffff_ffff
  const PREFIX_MEMORY: nat := 10

  /** The octets of a fixed prefix; a variable one has no fixed size. */
  function Size(k: Kind): (size: nat)
    ensures size <= 4
  {
    match k
    case Variable => 0
    case Octet => 1
    case Little16 | Big16 => 2
    case Little32 | Big32 => 4
  }

  function Maximum(k: Kind): nat {
    match k
    case Variable => SSIZE_MAX
    case Octet => 0xff
    case Little16 | Big16 => 0xffff
    case Little32 | Big32 => 0xffff_ffff
  }

  /** The lengths that a kind of prefix can express. */
  predicate Fits(k: Kind, n: nat) {
    n <= SSIZE_MAX && n <= Maximum(k)
  }

  function Prefix(k: Kind, n: nat): seq<octet> {
    match k
    case Variable => Varint.Encoded(n)
    case Octet | Little16 | Little32 => LittleEndian(n, Size(k))
    case Big16 | Big32 => BigEndian(n, Size(k))
  }

  function Frame(k: Kind, payload: seq<octet>): seq<octet> {
    Prefix(k, |payload|) + payload
  }

  /** The length at the start of a stream, and how many octets it takes there. */
  function ReadPrefix(k: Kind, s: seq<octet>): (r: Varint.Decoded)
    ensures r.Decoded? ==> 0 < r.size <= |s|
    ensures r.IllegalSequence? ==> k == Variable && Varint.MAX_OCTETS_64 <= |s|
  {
    if k == Variable then Varint.DecodedFrom(s, Varint.MAX_OCTETS_64)
    else if |s| < Size(k) then Varint.NoData
    else if k == Big16 || k == Big32 then Varint.Decoded(FromBigEndian(s[..Size(k)]), Size(k))
    else Varint.Decoded(FromLittleEndian(s[..Size(k)]), Size(k))
  }

  /** A frame that a receiver with enough memory and a sender with the given kind of prefix can exchange. */
  predicate Sendable(k: Kind, payload: seq<octet>) {
    && Fits(k, |payload|)
    && |payload| + |Prefix(k, |payload|)| <= SSIZE_MAX
  }

  lemma PrefixRoundTrip(k: Kind, n: nat, rest: seq<octet>)
    requires Fits(k, n)
    ensures ReadPrefix(k, Prefix(k, n) + rest) == Varint.Decoded(n, |Prefix(k, n)|)
  {
    hide Varint.DecodedFrom, Varint.Encoded;
    if k == Variable {
      Varint.UnsignedRoundTrip(n, Varint.TWO_64, Varint.MAX_OCTETS_64, rest);
    } else {
      FixedMaximum(k);
      assert (Prefix(k, n) + rest)[..Size(k)] == Prefix(k, n);
      if k == Big16 || k == Big32 {
        BigEndianRoundTrip(n, Size(k));
      } else {
        LittleEndianRoundTrip(n, Size(k));
      }
    }
  }

  /** What each fixed kind of prefix can express, and how; a variable one is a number of variable length. */
  lemma PrefixOctets(k: Kind, n: nat)
    ensures Fits(k, n) <==>
              match k
              case Octet => n < 0x100
              case Little16 | Big16 => n < 0x1_0000
              case Little32 | Big32 => n < 0x1_0000_0000
              case Variable => n < 0x8000_0000_0000_0000
    ensures Fits(k, n) ==>
              Prefix(k, n) ==
                match k
                case Octet => [OctetOf(n)]
                case Little16 => [OctetOf(n % 256), OctetOf(n / 256)]
                case Big16 => [OctetOf(n / 256), OctetOf(n % 256)]
                case Little32 => [OctetOf(n % 256), OctetOf(n / 256 % 256), OctetOf(n / 0x1_0000 % 256), OctetOf(n / 0x100_0000)]
                case Big32 => [OctetOf(n / 0x100_0000), OctetOf(n / 0x1_0000 % 256), OctetOf(n / 256 % 256), OctetOf(n % 256)]
                case Variable => Varint.Encoded(n)
  {
    hide BigEndian, LittleEndian, Varint.Encoded;
    OctetForOctet(n);
  }

  lemma FixedMaximum(k: Kind)
    requires k != Variable
    ensures Maximum(k) + 1 == Power256(Size(k))
  {
    assert Power256(1) == 256 && Power256(2) == 0x1_0000 && Power256(4) == 0x1_0000_0000;
  }

  /* ---------- Streams of frames ---------- */

  function Stream(k: Kind, payloads: seq<seq<octet>>): seq<octet> {
    if payloads == [] then [] else Frame(k, payloads[0]) + Stream(k, payloads[1..])
  }

  datatype Received = Received(payloads: seq<seq<octet>>, rest: seq<octet>) | Broken

  /** Take a number of frames off a stream. */
  function ReadFrames(k: Kind, s: seq<octet>, count: nat): Received {
    if count == 0 then Received([], s)
    else match ReadPrefix(k, s)
      case Decoded(n, size) =>
        if size + n > |s| then Broken
        else (
          match ReadFrames(k, s[size + n..], count - 1)
          case Received(payloads, rest) => Received([s[size..size + n]] + payloads, rest)
          case Broken => Broken
        )
      case _ => Broken
  }

  lemma FrameIsRead(k: Kind, payload: seq<octet>, rest: seq<octet>)
    requires Fits(k, |payload|)
    ensures var s, size, n := Frame(k, payload) + rest, |Prefix(k, |payload|)|, |payload|;
            && ReadPrefix(k, s) == Varint.Decoded(n, size)
            && s[size..size + n] == payload && s[size + n..] == rest && size + n <= |s|
            && s[size..] == payload + rest
  {
    PrefixRoundTrip(k, |payload|, payload + rest);
    assert Frame(k, payload) + rest == Prefix(k, |payload|) + (payload + rest);
  }

  /** A stream of frames of any kind splits into its payloads and leaves what follows untouched. */
  lemma {:induction false} StreamRoundTrip(k: Kind, payloads: seq<seq<octet>>, rest: seq<octet>)
    requires forall p <- payloads :: Fits(k, |p|)
    ensures ReadFrames(k, Stream(k, payloads) + rest, |payloads|) == Received(payloads, rest)
  {
    hide ReadPrefix, Frame, Fits, Prefix, ReadFrames;
    if payloads == [] {
      NoFrames(k, Stream(k, payloads) + rest, rest);
    } else {
      var after := Stream(k, payloads[1..]) + rest;
      assert Stream(k, payloads) + rest == Frame(k, payloads[0]) + after;
      StreamRoundTrip(k, payloads[1..], rest);
      OneFrame(k, payloads[0], after, |payloads| - 1);
      assert [payloads[0]] + payloads[1..] == payloads;
    }
  }

  lemma NoFrames(k: Kind, s: seq<octet>, rest: seq<octet>)
    requires s == [] + rest
    ensures ReadFrames(k, s, 0) == Received([], rest)
  {
  }

  lemma OneFrame(k: Kind, payload: seq<octet>, after: seq<octet>, count: nat)
    requires Fits(k, |payload|) && ReadFrames(k, after, count).Received?
    ensures var r := ReadFrames(k, after, count);
            ReadFrames(k, Frame(k, payload) + after, count + 1) == Received([payload] + r.payloads, r.rest)
  {
    hide ReadPrefix, Frame, Fits, Prefix;
    FrameIsRead(k, payload, after);
  }

  /** So different sequences of frames never look alike, whatever comes behind them. */
  lemma StreamsDiffer(k: Kind, a: seq<seq<octet>>, b: seq<seq<octet>>, after: seq<octet>, behind: seq<octet>)
    requires |a| == |b| && (forall p <- a :: Fits(k, |p|)) && (forall p <- b :: Fits(k, |p|))
    requires Stream(k, a) + after == Stream(k, b) + behind
    ensures a == b && after == behind
  {
    StreamRoundTrip(k, a, after);
    StreamRoundTrip(k, b, behind);
  }

  /* ---------- Sending ---------- */

  method StoreOctets(memory: array<octet>, s: seq<octet>)
    requires |s| <= memory.Length
    modifies memory
    ensures memory[..|s|] == s
  {
    for i := 0 to |s|
      invariant memory[..i] == s[..i]
    {
      memory[i] := s[i];
    }
  }

  /** Put the prefix for a length into memory. */
  method EncodePrefix(k: Kind, memory: array<octet>, n: nat) returns (ok: bool, used: nat)
    requires memory.Length == PREFIX_MEMORY
    modifies memory
    ensures ok == Fits(k, n)
    ensures ok ==> used <= memory.Length && memory[..used] == Prefix(k, n)
  {
    ok, used := false, 0;
    if n > SSIZE_MAX || (k != Variable && n > Maximum(k)) {
      return;
    }
    if k == Variable {
      var b := new ByteBuffer.Space(memory);
      var rc := Varint.EncodeU64(b, n);
      assert memory[..b.used] == b.Unread();
      return true, b.used;
    }
    StoreOctets(memory, Prefix(k, n));
    return true, Size(k);
  }

  method MemoryToSink(k: Kind, sink: Sink, payload: seq<octet>) returns (rc: Code)
    modifies sink
    ensures rc == if !Sendable(k, payload) then EInvalid
                  else if payload == [] then Count(0)
                  else Count(|Frame(k, payload)|)
    ensures sink.data == if rc == EInvalid then old(sink.data) else old(sink.data) + Frame(k, payload)
  {
    var memory := new octet[PREFIX_MEMORY];
    var ok, size := EncodePrefix(k, memory, |payload|);
    if !ok {
      return EInvalid;
    }
    if |payload| > SSIZE_MAX - size {
      return EInvalid;
    }
    sink.PutChunk(memory[..size]);
    sink.PutChunk(payload);
    return if |payload| == 0 then Count(0) else Count(size + |payload|);
  }

  function Joined(chunks: seq<seq<octet>>): seq<octet> {
    if chunks == [] then [] else chunks[0] + Joined(chunks[1..])
  }

  /** The chunks in front of the first empty one. */
  function BeforeEmpty(chunks: seq<seq<octet>>): (r: seq<seq<octet>>)
    ensures |r| <= |chunks| && r == chunks[..|r|] && [] !in r
    ensures |r| < |chunks| ==> chunks[|r|] == []
  {
    if chunks == [] || chunks[0] == [] then [] else [chunks[0]] + BeforeEmpty(chunks[1..])
  }

  lemma {:induction false} JoinedSnoc(chunks: seq<seq<octet>>, chunk: seq<octet>)
    ensures Joined(chunks + [chunk]) == Joined(chunks) + chunk
  {
    if chunks == [] {
      assert (chunks + [chunk])[1..] == [];
    } else {
      assert (chunks + [chunk])[1..] == chunks[1..] + [chunk];
      JoinedSnoc(chunks[1..], chunk);
    }
  }

  lemma {:induction false} SendUpToEmpty(chunks: seq<seq<octet>>, i: nat)
    requires i <= |chunks| && [] !in chunks[..i]
    ensures i < |chunks| && chunks[i] == [] ==> BeforeEmpty(chunks) == chunks[..i]
    ensures i == |chunks| ==> BeforeEmpty(chunks) == chunks
  {
    if i > 0 {
      var tail := chunks[1..];
      assert chunks[..i] == [chunks[0]] + tail[..i - 1];
      SendUpToEmpty(tail, i - 1);
      assert chunks == [chunks[0]] + tail;
    }
  }

  method TotalSize(chunks: seq<seq<octet>>) returns (total: nat)
    ensures total == |Joined(chunks)|
  {
    total := 0;
    for i := 0 to |chunks|
      invariant total == |Joined(chunks[..i])|
    {
      JoinedSnoc(chunks[..i], chunks[i]);
      assert chunks[..i + 1] == chunks[..i] + [chunks[i]];
      total := total + |chunks[i]|;
    }
    assert chunks[..|chunks|] == chunks;
  }

  /** One frame from several pieces. An empty piece ends the frame early, with its full length announced. */
  method ChunksToSink(k: Kind, sink: Sink, chunks: seq<seq<octet>>) returns (rc: Code)
    modifies sink
    ensures var payload := Joined(chunks);
            && rc == (if !Sendable(k, payload) then EInvalid
                      else if [] in chunks then Count(0)
                      else Count(|Frame(k, payload)|))
            && sink.data == (if rc == EInvalid then old(sink.data)
                             else old(sink.data) + (Prefix(k, |payload|) + Joined(BeforeEmpty(chunks))))
    ensures rc != EInvalid && [] !in chunks ==> sink.data == old(sink.data) + Frame(k, Joined(chunks))
  {
    hide Prefix, Fits, BeforeEmpty;
    var total := TotalSize(chunks);
    var memory := new octet[PREFIX_MEMORY];
    var ok, size := EncodePrefix(k, memory, total);
    if !ok {
      return EInvalid;
    }
    if total > SSIZE_MAX - size {
      return EInvalid;
    }
    sink.PutChunk(memory[..size]);
    ghost var before := sink.data;
    for i := 0 to |chunks|
      invariant [] !in chunks[..i]
      invariant sink.data == before + Joined(chunks[..i])
    {
      SendUpToEmpty(chunks, i);
      sink.PutChunk(chunks[i]);
      if |chunks[i]| == 0 {
        return Count(0);
      }
      JoinedSnoc(chunks[..i], chunks[i]);
      assert chunks[..i + 1] == chunks[..i] + [chunks[i]];
    }
    SendUpToEmpty(chunks, |chunks|);
    return Count(size + total);
  }

  /* ---------- Receiving ---------- */

  method DecodePrefix(k: Kind, source: Source) returns (rc: Code, n: nat)
    modifies source
    ensures match ReadPrefix(k, old(source.data))
            case Decoded(value, size) =>
              rc == Count(if k == Variable then size else 0) && n == value && source.data == old(source.data)[size..]
            case IllegalSequence => rc == EIllegalSequence && source.data == old(source.data)[Varint.MAX_OCTETS_64..]
            case NoData => rc == ENoData && source.data == []
  {
    if k == Variable {
      var vrc;
      vrc, n := Varint.DecodeFromSource(source, Varint.MAX_OCTETS_64);
      return match vrc { case Count(m) => Count(m) case EIllegalSequence => EIllegalSequence case _ => ENoData }, n;
    }
    var got, chunk := source.GetChunk(Size(k));
    if !got {
      return ENoData, 0;
    }
    return Count(0), if k == Big16 || k == Big32 then FromBigEndian(chunk) else FromLittleEndian(chunk);
  }

  /** The payload of the next frame. An empty one is refused, and so is one that exceeds the memory. */
  method MemoryFromSource(k: Kind, source: Source, size: nat) returns (rc: Code, payload: seq<octet>)
    modifies source
    ensures match ReadPrefix(k, old(source.data))
            case IllegalSequence => rc == EIllegalSequence
            case NoData => rc == ENoData
            case Decoded(n, m) =>
              && (rc == if n > size then ENoMemory
                        else if n == 0 then EInvalid
                        else if m + n > |old(source.data)| then ENoData
                        else Count(n))
              && (n > size || n == 0 ==> source.data == old(source.data)[m..])
              && (rc.Count? ==> payload == old(source.data)[m..m + n] && source.data == old(source.data)[m + n..])
  {
    payload := [];
    var n;
    rc, n := DecodePrefix(k, source);
    if !rc.Count? {
      return;
    }
    if n > size {
      return ENoMemory, [];
    }
    if n == 0 {
      return EInvalid, [];
    }
    var got;
    got, payload := source.GetChunk(n);
    return if got then Count(n) else ENoData, payload;
  }

  /** The payload of the next frame, octet by octet into a sink; here an empty one is fine. */
  method SourceToSink(k: Kind, source: Source, sink: Sink) returns (rc: Code)
    modifies source, sink
    ensures match ReadPrefix(k, old(source.data))
            case IllegalSequence =>
              && rc == EIllegalSequence && sink.data == old(sink.data)
              && source.data == old(source.data)[Varint.MAX_OCTETS_64..]
            case NoData => rc == ENoData && sink.data == old(sink.data) && source.data == []
            case Decoded(n, m) =>
              if m + n > |old(source.data)| then
                rc == ENoData && sink.data == old(sink.data) + old(source.data)[m..] && source.data == []
              else
                && rc == Count(n) && sink.data == old(sink.data) + old(source.data)[m..m + n]
                && source.data == old(source.data)[m + n..]
  {
    hide ReadPrefix;
    ghost var whole := source.data;
    var n;
    rc, n := DecodePrefix(k, source);
    if !rc.Count? {
      return;
    }
    ghost var stream, before := source.data, sink.data;
    for i := 0 to n
      invariant i <= |stream| && source.data == stream[i..] && sink.data == before + stream[..i]
    {
      var got, octet := source.GetOctet();
      if !got {
        assert stream[..i] == stream;
        return ENoData;
      }
      sink.PutOctet(octet);
      assert stream[..i + 1] == stream[..i] + [octet];
    }
    SliceOfRest(whole, |whole| - |stream|, n);
    return Count(n);
  }

  lemma SliceOfRest(s: seq<octet>, m: nat, n: nat)
    requires m + n <= |s|
    ensures s[m..][..n] == s[m..m + n] && s[m..][n..] == s[m + n..]
  {
  }

  method SendAll(k: Kind, payloads: seq<seq<octet>>, sink: Sink)
    requires forall p <- payloads :: Sendable(k, p)
    modifies sink
    ensures sink.data == old(sink.data) + Stream(k, payloads)
  {
    hide Prefix, Sendable, Frame;
    for i := 0 to |payloads|
      invariant sink.data + Stream(k, payloads[i..]) == old(sink.data) + Stream(k, payloads)
    {
      ghost var tail := Stream(k, payloads[i + 1..]);
      assert payloads[i..][1..] == payloads[i + 1..];
      var rc := MemoryToSink(k, sink, payloads[i]);
    }
  }

  method ReceiveAll(k: Kind, source: Source, ghost payloads: seq<seq<octet>>, ghost rest: seq<octet>, count: nat, size: nat)
    returns (received: seq<seq<octet>>)
    requires count == |payloads| && source.data == Stream(k, payloads) + rest
    requires forall p <- payloads :: Fits(k, |p|) && 0 < |p| <= size
    modifies source
    ensures received == payloads && source.data == rest
  {
    hide Prefix, Fits, Frame, ReadPrefix;
    received := [];
    for i := 0 to count
      invariant received == payloads[..i]
      invariant source.data == Stream(k, payloads[i..]) + rest
    {
      ghost var after := Stream(k, payloads[i + 1..]) + rest;
      assert payloads[i..][1..] == payloads[i + 1..];
      assert source.data == Frame(k, payloads[i]) + after;
      FrameIsRead(k, payloads[i], after);
      var rc, payload := MemoryFromSource(k, source, size);
      received := received + [payload];
    }
  }

  /** Frames sent one by one are received one by one, and nothing behind them is touched. */
  method Exchange(k: Kind, payloads: seq<seq<octet>>, rest: seq<octet>, size: nat)
    returns (received: seq<seq<octet>>, left: seq<octet>)
    requires forall p <- payloads :: Sendable(k, p) && 0 < |p| <= size
    ensures received == payloads && left == rest
  {
    var sink := new Sink();
    SendAll(k, payloads, sink);
    var source := new Source(sink.data + rest);
    received := ReceiveAll(k, source, payloads, rest, |payloads|, size);
    left := source.data;
  }
}
