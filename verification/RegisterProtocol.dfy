/** The register protocol: requests, responses, and the processing of frames by a peer with memory. */
module RegisterProtocol {
  import opened Octets
  import opened Numbers
  import opened Streams
  import opened RegisterFrames
  import Crc16Arc
  import Slip
  import LengthPrefix
  import Varint
  import ContinuableSinks

  /* ---------- Framing ---------- */

  /** A frame as it travels: SLIP without start-of-frame on serial lines, a length prefix elsewhere. */
  function Framed(serial: bool, raw: seq<octet>): seq<octet> {
    if serial then Slip.Encode(false, raw) else LengthPrefix.Frame(LengthPrefix.Variable, raw)
  }

  function Wire(serial: bool, m: Message): seq<octet>
    requires Sendable(m)
  {
    Framed(serial, FrameOf(serial, m))
  }

  /** What is taken off a stream: a frame, or octets that are none. */
  datatype Taken = Whole(raw: seq<octet>, rest: seq<octet>) | Lost(rest: seq<octet>)

  /** The first frame of a stream. Without one, octets are lost as far as they have been looked at. */
  function FirstFrame(serial: bool, stream: seq<octet>): (taken: Taken)
    ensures |taken.rest| < |stream| || (stream == [] && taken == Lost([]))
  {
    if serial then
      var r := Slip.Decode(false, Slip.Normal, stream);
      if r.outcome == Slip.Frame then Whole(r.output, r.rest) else Lost(r.rest)
    else
      match LengthPrefix.ReadPrefix(LengthPrefix.Variable, stream)
      case Decoded(n, m) => if m + n <= |stream| then Whole(stream[m..m + n], stream[m + n..]) else Lost([])
      case IllegalSequence => Lost(stream[Varint.MAX_OCTETS_64..])
      case NoData => Lost([])
  }

  const LENGTH_LIMIT: nat := 0x7fff_ffff_ffff_0000

  lemma FramingRoundTrip(serial: bool, raw: seq<octet>, rest: seq<octet>)
    requires |raw| <= LENGTH_LIMIT
    ensures FirstFrame(serial, Framed(serial, raw) + rest) == Whole(raw, rest)
  {
    hide Slip.Decode, Slip.Encode, LengthPrefix.ReadPrefix, LengthPrefix.Frame, LengthPrefix.Prefix;
    if serial {
      Slip.RoundTrip(false, raw, rest);
    } else {
      LengthPrefix.FrameIsRead(LengthPrefix.Variable, raw, rest);
    }
  }

  /** Three layers and back: header and checksums, framing, and the receiver's parser. */
  lemma WireRoundTrip(serial: bool, m: Message, rest: seq<octet>, beyond: nat -> octet)
    requires Sendable(m)
    ensures FirstFrame(serial, Wire(serial, m) + rest) == Whole(FrameOf(serial, m), rest)
    ensures ParsedFrame(FrameOf(serial, m), beyond) == Understood(serial, m)
    ensures HEADER_MIN <= |FrameOf(serial, m)| <= HEADER_MAX + |m.payload|
  {
    hide Framed, ParsedFrame, FirstFrame, EncodedHeader, Understood;
    FrameLength(serial, m);
    FramingRoundTrip(serial, FrameOf(serial, m), rest);
    FrameRoundTrip(serial, m, beyond);
  }

  lemma FrameLength(serial: bool, m: Message)
    requires Sendable(m)
    ensures HEADER_MIN <= |FrameOf(serial, m)| <= HEADER_MAX + |m.payload|
    ensures |FrameOf(serial, m)| <= LENGTH_LIMIT
  {
    hide EncodedHeader, HeaderOf;
    assert |m.payload| <= 2 * TWO_32;
  }

  /* ---------- Memory ---------- */

  type ResponseCode = c: nat | c <= EIO

  /** What reading a block of memory reports, and what it leaves in the buffer it was given. */
  datatype ReadAccess = ReadAccess(status: ResponseCode, address: nat, buffer: nat -> octet)

  datatype WriteAccess<M> = WriteAccess(status: ResponseCode, address: nat, memory: M)

  /** Memory of octets or of 16-bit words, accessed in blocks. */
  datatype Backend<!M> = Backend(
    wide: bool,
    read: (M, nat, nat) -> ReadAccess,
    write: (M, nat, seq<octet>) -> WriteAccess<M>)

  /* ---------- Answers ---------- */

  function ResponseKind(kind: Kind): Kind {
    match kind
    case ReadRequest => ReadResponse
    case WriteRequest => WriteResponse
    case _ => Meta
  }

  function IsRequest(kind: Kind): bool {
    kind == ReadRequest || kind == WriteRequest
  }

  function Plain(h: Header, code: ResponseCode): Message {
    Message(ResponseKind(h.kind), false, code, h.sequence, h.address, 0, [])
  }

  function WithNumber(h: Header, code: ResponseCode, n: nat): Message {
    Message(ResponseKind(h.kind), false, code, h.sequence, h.address, 4, BigEndian(n, 4))
  }

  function Acknowledgement(h: Header, wide: bool, n: nat, payload: seq<octet>): Message {
    Message(ResponseKind(h.kind), wide, ACK, h.sequence, h.address, n, payload)
  }

  function MetaMessage(meta: nat): Message {
    Message(Meta, false, meta, 0, 0, 0, [])
  }

  /** The response that goes with a status: an acknowledgement, or an error that may tell a size or an address. */
  function Response(h: Header, status: ResponseCode, address: nat, capacity: nat, ack: Message): Message {
    if status == ACK then ack
    else if status == ERXOVERFLOW || status == ETXOVERFLOW then WithNumber(h, status, capacity)
    else if EUNMAPPED <= status <= EINVALID then WithNumber(h, status, address)
    else Plain(h, status)
  }

  /** What is left to be said of a frame: nothing, or one message. */
  datatype Reply = Silence | Say(message: Message)

  datatype Processed<M> = Processed(memory: M, reply: Reply)

  function BlockOf(access: ReadAccess, size: nat): (s: seq<octet>)
    ensures |s| == size
  {
    seq(size, i requires 0 <= i => access.buffer(i))
  }

  /** The memory and the response after a valid request. */
  function Answered<M>(b: Backend<M>, capacity: nat, memory: M, h: Header, payload: seq<octet>): Processed<M>
    requires IsRequest(h.kind) && (h.kind == WriteRequest ==> Unit(b.wide) * h.blocksize <= |payload|)
  {
    if h.kind == ReadRequest then
      if capacity / Unit(b.wide) < h.blocksize then
        Processed(memory, Say(WithNumber(h, ETXOVERFLOW, capacity)))
      else
        var access := b.read(memory, h.address, h.blocksize);
        var ack := Acknowledgement(h, b.wide, h.blocksize, BlockOf(access, Unit(b.wide) * h.blocksize));
        Processed(memory, Say(Response(h, access.status, access.address, capacity, ack)))
    else
      var access := b.write(memory, h.address, payload[..Unit(b.wide) * h.blocksize]);
      Processed(access.memory,
                Say(Response(h, access.status, access.address, capacity, Acknowledgement(h, b.wide, 0, []))))
  }

  /** What processing makes of a frame. */
  function Outcome<M>(b: Backend<M>, capacity: nat, memory: M, v: Verdict): Processed<M>
    requires Possible(v)
  {
    match v
    case BadMessage | BadSum => Processed(memory, Silence)
    case BadSize(h) => Processed(memory, if IsRequest(h.kind) then Say(Plain(h, EPAYLOADSIZE)) else Silence)
    case BadPayload(h) => Processed(memory, if IsRequest(h.kind) then Say(Plain(h, EPAYLOADCRC)) else Silence)
    case Good(h, payload) =>
      if !IsRequest(h.kind) then Processed(memory, Silence)
      else if b.wide != h.options.wide then Processed(memory, Say(Plain(h, EWORDSIZE)))
      else Answered(b, capacity, memory, h, payload)
  }

  /** What receiving says about a frame on its own account. */
  function EarlyReply(v: Verdict): Reply {
    match v
    case BadMessage => Say(MetaMessage(EHEADERENC))
    case BadSum => Say(MetaMessage(EHEADERCRC))
    case _ => Silence
  }

  /** A header that is none is complained about with reason one, a wrong header checksum with reason two, and nothing else is. */
  lemma ComplaintsTellWhy(v: Verdict)
    ensures EarlyReply(v) == if v.BadMessage? then Say(Message(Meta, false, 1, 0, 0, 0, []))
                             else if v.BadSum? then Say(Message(Meta, false, 2, 0, 0, 0, []))
                             else Silence
  {
  }

  /**
   The numbers of what can be wrong with a request that has arrived in order: word size 1, payload checksum
   2, payload size 3, and 5 for a read that asks for more than there is room for.
   */
  lemma RefusalNumbers<M>(b: Backend<M>, capacity: nat, memory: M, v: Verdict)
    requires Possible(v) && (v.Good? || v.BadSize? || v.BadPayload?) && v.header.kind in {ReadRequest, WriteRequest}
    ensures var reply, h := Outcome(b, capacity, memory, v).reply, v.header;
            && reply.Say?
            && reply.message.kind == (if h.kind == ReadRequest then ReadResponse else WriteResponse)
            && (v.BadSize? ==> reply.message.meta == 3)
            && (v.BadPayload? ==> reply.message.meta == 2)
            && (v.Good? && b.wide != h.options.wide ==> reply.message.meta == 1)
            && (v.Good? && b.wide == h.options.wide ==>
                  var unit := if b.wide then 2 else 1;
                  reply.message.meta
                  == if h.kind == WriteRequest then b.write(memory, h.address, v.payload[..unit * h.blocksize]).status
                     else if h.blocksize > capacity / unit then 5
                     else b.read(memory, h.address, h.blocksize).status)
  {
    hide BigEndian, BlockOf;
  }

  /** Verdicts that parsing can come to. */
  predicate Possible(v: Verdict) {
    match v
    case Good(h, payload) => InRange(h) && Plausible(h, |payload|)
    case BadSize(h) => InRange(h)
    case BadPayload(h) => InRange(h)
    case _ => true
  }

  lemma ParsedIsPossible(raw: seq<octet>, beyond: nat -> octet)
    ensures Possible(ParsedFrame(raw, beyond))
  {
    hide Stretch, SumMatches, SumOver;
    if |raw| >= HEADER_MIN {
      assert Power256(4) == TWO_32;
      assert FromBigEndian(raw[4..8]) < TWO_32 && FromBigEndian(raw[8..12]) < TWO_32;
    }
  }

  lemma PlausibleWrite(h: Header, size: nat)
    requires h.kind == WriteRequest && Plausible(h, size)
    ensures Unit(h.options.wide) * h.blocksize <= size
  {
  }

  lemma RepliesAreSendable<M>(b: Backend<M>, capacity: nat, memory: M, v: Verdict)
    requires Possible(v)
    ensures var reply := Outcome(b, capacity, memory, v).reply; reply.Say? ==> Sendable(reply.message)
  {
    hide BigEndian;
  }

  /**
   A response tells the status it was given. Those that tell a number as well carry it in four octets,
   most significant first: the largest message for overflows, and otherwise the address.
   */
  lemma StatusIsTold(h: Header, status: ResponseCode, address: nat, capacity: nat, ack: Message)
    requires ack.meta == ACK && address < TWO_32 && capacity < TWO_32
    ensures var m := Response(h, status, address, capacity, ack);
            && m.meta == status
            && (status == ACK <==> m == ack)
            && (status != ACK ==>
                  && !m.wide && |m.payload| == m.blocksize
                  && (m.payload == [] <==> status in {1, 2, 3, 6, 11})
                  && (m.payload != [] <==> status in {4, 5, 7, 8, 9, 10})
                  && (m.payload != [] ==>
                        |m.payload| == 4
                        && FromBigEndian(m.payload) == if status in {4, 5} then capacity else address))
  {
    hide BigEndian, FromBigEndian;
    LongRoundTrip(capacity);
    LongRoundTrip(address);
  }

  /** Frames that are not requests are met with silence, and requests that cannot be served with the reason why. */
  lemma RefusalsTellWhy<M>(b: Backend<M>, capacity: nat, memory: M, v: Verdict)
    requires Possible(v) && (v.Good? || v.BadSize? || v.BadPayload?) && capacity < TWO_32
    ensures var p := Outcome(b, capacity, memory, v);
            var mismatch, overlong := b.wide != v.header.options.wide, capacity / Unit(b.wide) < v.header.blocksize;
            && (p.reply == Silence <==> !IsRequest(v.header.kind))
            && (p.reply == Silence || !v.Good? || mismatch || v.header.kind == ReadRequest ==> p.memory == memory)
            && (p.reply.Say? && !v.Good? ==> p.reply.message.meta == if v.BadSize? then EPAYLOADSIZE else EPAYLOADCRC)
            && (p.reply.Say? && v.Good? && mismatch ==> p.reply.message.meta == EWORDSIZE)
            && (p.reply.Say? && v.Good? && !mismatch && v.header.kind == ReadRequest && overlong ==>
                  p.reply.message.meta == ETXOVERFLOW && FromBigEndian(p.reply.message.payload) == capacity)
  {
    hide BigEndian, FromBigEndian, Response, BlockOf;
    LongRoundTrip(capacity);
  }

  /** The octets of a reply. */
  function Spoken(serial: bool, reply: Reply): seq<octet>
    requires reply.Say? ==> Sendable(reply.message)
  {
    if reply.Say? then Wire(serial, reply.message) else []
  }

  /* ---------- Peers ---------- */

  /** What receiving returned: nothing at all, or a frame with what there is to say about it. */
  datatype MaybeFrame = NoFrame | Received(verdict: Verdict)

  /** How receiving ends: with a frame, with an error of the channel, or without any definition. */
  datatype Reception = Complete | Broken | Undefined

  class Peer<M(==)> {
    const serial: bool
    const capacity: nat
    const backend: Backend<M>
    const source: Source
    const sink: Sink
    var memory: M
    var sequence: word

    constructor (serial: bool, capacity: nat, backend: Backend<M>, memory: M, source: Source, sink: Sink)
      ensures this.serial == serial && this.capacity == capacity && this.backend == backend
      ensures this.memory == memory && this.source == source && this.sink == sink && sequence == 0
    {
      this.serial, this.capacity, this.backend, this.memory := serial, capacity, backend, memory;
      this.source, this.sink := source, sink;
      sequence := 0;
    }

    /* ---------- Sending ---------- */

    /** Fill in a header, checksums last, and tell how much of the buffer it takes. */
    method EncodeHeader(buffer: array<octet>, m: Message, plcrc: word) returns (size: nat)
      requires Sendable(m) && buffer.Length == HEADER_MAX
      requires HeaderOf(serial, m).options.payloadSum ==> plcrc == Crc16Arc.Checksum(0, m.payload)
      modifies buffer
      ensures size <= buffer.Length && buffer[..size] == EncodedHeader(HeaderOf(serial, m))
    {
      hide BigEndian, Motv, Crc16Arc.Checksum, OptionsOf, KindOf;
      var options := OptionsFor(serial, m.wide, m.kind, m.blocksize);
      var h := Header(m.kind, options, m.meta, m.sequence, m.address, m.blocksize, 0, if options.payloadSum then plcrc else 0);
      size := HEADER_MIN;
      LengthPrefix.StoreOctets(buffer, Leading(h));
      if options.headerSum {
        var crc := Crc16Arc.Checksum(0, buffer[..HEADER_MIN]);
        if options.payloadSum {
          crc := Crc16Arc.Checksum(crc, BigEndian(plcrc as nat, 2));
        }
        var sum := BigEndian(crc as nat, 2);
        buffer[12], buffer[13] := sum[0], sum[1];
        size := size + 2;
        assert buffer[..14] == Leading(h) + sum;
      }
      if options.payloadSum {
        var sum := BigEndian(plcrc as nat, 2);
        buffer[14], buffer[15] := sum[0], sum[1];
        size := size + 2;
        assert buffer[..16] == buffer[..14] + sum;
      }
    }

    /** Send a header and maybe a payload, with the framing that the channel demands. */
    method SendMemory(header: seq<octet>, payload: seq<octet>)
      requires header != [] && |header| + |payload| <= LENGTH_LIMIT
      modifies sink
      ensures sink.data == old(sink.data) + Framed(serial, header + payload)
    {
      if serial {
        hide Slip.Encode;
        var slip := new Slip.Context(false);
        var chunks := new Source(header + payload);
        slip.EncodeFrame(chunks, sink);
      } else {
        hide LengthPrefix.Prefix, LengthPrefix.BeforeEmpty;
        var chunks := if payload == [] then [header] else [header, payload];
        Chunks(header, payload);
        ShortPrefix(|header| + |payload|);
        var rc := LengthPrefix.ChunksToSink(LengthPrefix.Variable, sink, chunks);
      }
    }

    method Send(m: Message)
      requires Sendable(m)
      modifies sink
      ensures sink.data == old(sink.data) + Wire(serial, m)
    {
      hide Framed, Sendable, EncodedHeader, HeaderOf;
      var header := new octet[HEADER_MAX];
      FrameLength(serial, m);
      var size := EncodeHeader(header, m, Crc16Arc.Checksum(0, m.payload));
      SendMemory(header[..size], m.payload);
    }

    method ReqRead(wide: bool, address: nat, n: nat)
      requires address < TWO_32 && n < TWO_32
      modifies this`sequence, sink
      ensures sink.data == old(sink.data) + Wire(serial, Message(ReadRequest, wide, 0, old(sequence), address, n, []))
      ensures sequence as nat == (old(sequence) as nat + 1) % 0x1_0000
    {
      hide Framed, FrameOf;
      var m := Message(ReadRequest, wide, 0, sequence, address, n, []);
      sequence := ((sequence as nat + 1) % 0x1_0000) as word;
      Send(m);
    }

    method ReqWrite(wide: bool, address: nat, n: nat, data: seq<octet>)
      requires address < TWO_32 && n < TWO_32 && |data| == Unit(wide) * n
      modifies this`sequence, sink
      ensures sink.data == old(sink.data) + Wire(serial, Message(WriteRequest, wide, 0, old(sequence), address, n, data))
      ensures sequence as nat == (old(sequence) as nat + 1) % 0x1_0000
    {
      hide Framed, FrameOf;
      var m := Message(WriteRequest, wide, 0, sequence, address, n, data);
      sequence := ((sequence as nat + 1) % 0x1_0000) as word;
      Send(m);
    }

    /* ---------- Receiving ---------- */

    /**
     Take the next frame off the source and parse it. A header that is no good is met with a meta message,
     and so is every frame if there is no memory for it, since its header has not been stored either.
     For a frame without any octets there is no memory in any case, and what the library reads then is
     undefined.
     */
    method Recv(granted: bool, beyond: nat -> octet) returns (rc: Reception, mf: MaybeFrame)
      modifies source, sink
      ensures match FirstFrame(serial, old(source.data))
              case Lost(rest) => rc == Broken && mf == NoFrame && source.data == rest && sink.data == old(sink.data)
              case Whole(raw, rest) =>
                if raw == [] then rc == Undefined && source.data == rest
                else if !granted then
                  && rc == Complete && mf == NoFrame && Sendable(MetaMessage(EHEADERENC))
                  && source.data == rest && sink.data == old(sink.data) + Wire(serial, MetaMessage(EHEADERENC))
                else
                  var v := ParsedFrame(Captured(raw, capacity), beyond);
                  && rc == Complete && mf == Received(v) && Possible(v)
                  && source.data == rest && sink.data == old(sink.data) + Spoken(serial, EarlyReply(v))
    {
      hide ParsedFrame, Slip.Decode, LengthPrefix.ReadPrefix, Wire;
      ghost var stream := source.data;
      var captured := new Sink();
      if serial {
        var slip := new Slip.Context(false);
        var outcome := slip.DecodeFrame(source, captured);
        if outcome != Slip.Frame {
          return Broken, NoFrame;
        }
        assert [] + Slip.Decode(false, Slip.Normal, stream).output == Slip.Decode(false, Slip.Normal, stream).output;
      } else {
        var code := LengthPrefix.SourceToSink(LengthPrefix.Variable, source, captured);
        if !code.Count? {
          return Broken, NoFrame;
        }
      }
      assert FirstFrame(serial, stream) == Whole(captured.data, source.data);
      if captured.data == [] {
        return Undefined, NoFrame;
      }
      var recv := new ContinuableSinks.ContinuableSink(granted, FRAME_SIZE + capacity, FRAME_SIZE, HEADER_MAX);
      recv.PutEach(captured.data);
      if recv.issue == ContinuableSinks.Busy {
        NothingIsNoHeader(beyond);
        Send(MetaMessage(EHEADERENC));
        return Complete, NoFrame;
      }
      var raw := recv.buffer.block.content[FRAME_SIZE..];
      assert captured.data[..|captured.data|] == captured.data;
      assert raw == Captured(captured.data, capacity);
      var v := ParsedFrame(raw, beyond);
      ParsedIsPossible(raw, beyond);
      if v == BadMessage {
        Send(MetaMessage(EHEADERENC));
      } else if v == BadSum {
        Send(MetaMessage(EHEADERCRC));
      }
      return Complete, Received(v);
    }

    /* ---------- Processing ---------- */

    method Acknowledge(h: Header, payload: seq<octet>, n: nat)
      requires InRange(h) && n < TWO_32 && |payload| == Unit(backend.wide) * n
      modifies sink
      ensures sink.data == old(sink.data) + Wire(serial, Acknowledgement(h, backend.wide, n, payload))
    {
      hide Framed, FrameOf;
      Send(Acknowledgement(h, backend.wide, n, payload));
    }

    method Respond(h: Header, status: ResponseCode, address: nat, payload: seq<octet>, n: nat)
      requires InRange(h) && IsRequest(h.kind) && n < TWO_32 && |payload| == Unit(backend.wide) * n
      modifies sink
      ensures var reply := Response(h, status, address, capacity, Acknowledgement(h, backend.wide, n, payload));
              Sendable(reply) && sink.data == old(sink.data) + Wire(serial, reply)
    {
      hide Framed, FrameOf, BigEndian;
      match status {
        case 0 => Acknowledge(h, payload, n);
        case 1 | 2 | 3 | 6 | 11 => Send(Plain(h, status));
        case 4 | 5 => Send(WithNumber(h, status, capacity));
        case _ => Send(WithNumber(h, status, address));
      }
    }

    /** Serve a request from memory, refuse one that cannot be served, and let everything else pass. */
    method Process(mf: MaybeFrame)
      requires mf.Received? ==> Possible(mf.verdict)
      modifies this`memory, sink
      ensures mf == NoFrame ==> memory == old(memory) && sink.data == old(sink.data)
      ensures mf.Received? ==>
                var p := Outcome(backend, capacity, old(memory), mf.verdict);
                && (p.reply.Say? ==> Sendable(p.reply.message))
                && memory == p.memory && sink.data == old(sink.data) + Spoken(serial, p.reply)
    {
      hide Wire, Plausible;
      if mf == NoFrame {
        return;
      }
      match mf.verdict {
        case BadMessage | BadSum =>
        case BadSize(h) =>
          if IsRequest(h.kind) {
            Send(Plain(h, EPAYLOADSIZE));
          }
        case BadPayload(h) =>
          if IsRequest(h.kind) {
            Send(Plain(h, EPAYLOADCRC));
          }
        case Good(h, payload) =>
          if IsRequest(h.kind) {
            ProcessRequest(h, payload);
          }
      }
    }

    method ProcessRequest(h: Header, payload: seq<octet>)
      requires InRange(h) && IsRequest(h.kind) && Plausible(h, |payload|)
      modifies this`memory, sink
      ensures var p := Outcome(backend, capacity, old(memory), Good(h, payload));
              && p.reply.Say? && Sendable(p.reply.message)
              && memory == p.memory && sink.data == old(sink.data) + Wire(serial, p.reply.message)
    {
      hide Wire, BigEndian;
      if backend.wide != h.options.wide {
        Send(Plain(h, EWORDSIZE));
        return;
      }
      if h.kind == ReadRequest {
        if capacity / Unit(backend.wide) < h.blocksize {
          Respond(h, ETXOVERFLOW, 0, [], 0);
        } else {
          var access := backend.read(memory, h.address, h.blocksize);
          var block := BlockOf(access, Unit(backend.wide) * h.blocksize);
          Respond(h, access.status, access.address, block, h.blocksize);
        }
      } else {
        PlausibleWrite(h, |payload|);
        var access := backend.write(memory, h.address, payload[..Unit(backend.wide) * h.blocksize]);
        memory := access.memory;
        Respond(h, access.status, access.address, [], 0);
      }
    }

    /** One turn of the server's loop. */
    method Serve(granted: bool, beyond: nat -> octet) returns (rc: Reception)
      modifies this`memory, source, sink
      ensures match FirstFrame(serial, old(source.data))
              case Lost(rest) =>
                rc == Broken && source.data == rest && memory == old(memory) && sink.data == old(sink.data)
              case Whole(raw, rest) =>
                if raw == [] then rc == Undefined && source.data == rest
                else if !granted then
                  && rc == Complete && source.data == rest && memory == old(memory) && Sendable(MetaMessage(EHEADERENC))
                  && sink.data == old(sink.data) + Wire(serial, MetaMessage(EHEADERENC))
                else
                  var v := ParsedFrame(Captured(raw, capacity), beyond);
                  && rc == Complete && Possible(v) && source.data == rest
                  && memory == Outcome(backend, capacity, old(memory), v).memory
                  && var reply := Reaction(backend, capacity, old(memory), v);
                     (reply.Say? ==> Sendable(reply.message)) && sink.data == old(sink.data) + Spoken(serial, reply)
    {
      hide Wire, ParsedFrame, FirstFrame, Possible, Outcome, Reaction, Spoken, EarlyReply, Sendable;
      ghost var before := sink.data;
      var mf;
      rc, mf := Recv(granted, beyond);
      if rc == Complete && granted {
        OneReply(serial, backend, capacity, memory, mf.verdict, before);
      }
      if rc == Complete {
        Process(mf);
      }
    }
  }

  /** The octets that a frame's structure takes in front of the frame; it only matters that there are some. */
  const FRAME_SIZE: nat := 32

  /** An empty fallback buffer does not hold a header. */
  lemma NothingIsNoHeader(beyond: nat -> octet)
    ensures ParsedFrame([], beyond) == BadMessage
    ensures Sendable(MetaMessage(EHEADERENC))
  {
  }

  /** What a frame is met with by receiving and processing together: one reply at most. */
  function Reaction<M>(b: Backend<M>, capacity: nat, memory: M, v: Verdict): Reply
    requires Possible(v)
  {
    if EarlyReply(v).Say? then EarlyReply(v) else Outcome(b, capacity, memory, v).reply
  }

  /** What receiving and processing say one after the other is one reply at most. */
  lemma OneReply<M>(serial: bool, b: Backend<M>, capacity: nat, memory: M, v: Verdict, before: seq<octet>)
    requires Possible(v)
    ensures var early, late, both := EarlyReply(v), Outcome(b, capacity, memory, v).reply, Reaction(b, capacity, memory, v);
            && (early.Say? ==> Sendable(early.message)) && (late.Say? ==> Sendable(late.message))
            && (both.Say? ==> Sendable(both.message))
            && (before + Spoken(serial, early)) + Spoken(serial, late) == before + Spoken(serial, both)
  {
    hide Wire, Sendable, Possible, Response, Answered;
    RepliesAreSendable(b, capacity, memory, v);
    ComplaintsAreSendable();
  }

  lemma ComplaintsAreSendable()
    ensures Sendable(MetaMessage(EHEADERENC)) && Sendable(MetaMessage(EHEADERCRC))
  {
  }

  /** Memory for a frame takes in as much of it as there is room for. */
  function Captured(raw: seq<octet>, capacity: nat): seq<octet> {
    if |raw| <= capacity then raw else raw[..capacity]
  }

  lemma Chunks(header: seq<octet>, payload: seq<octet>)
    requires header != []
    ensures LengthPrefix.Joined([header]) == header
    ensures LengthPrefix.Joined([header, payload]) == header + payload
    ensures payload == [] ==> header + payload == header
  {
    assert [header][1..] == [] && [header, payload][1..] == [payload] && [payload][1..] == [];
    assert LengthPrefix.Joined([payload]) == payload + LengthPrefix.Joined([]);
  }

  lemma ShortPrefix(n: nat)
    requires n <= LENGTH_LIMIT
    ensures |LengthPrefix.Prefix(LengthPrefix.Variable, n)| <= 10
  {
    Varint.EncodedLengths(n);
  }
}
