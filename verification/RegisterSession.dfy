/** A requester and a server of the register protocol, connected by two channels that keep the order of octets. */
module RegisterSession {
  import opened Octets
  import opened Numbers
  import opened RegisterFrames
  import opened RegisterProtocol
  import Crc16Arc

  datatype Request =
    | Read(wide: bool, address: nat, n: nat)
    | Write(wide: bool, address: nat, n: nat, data: seq<octet>)

  /** The requester, the server, and the channel that both of them use. */
  datatype Config<!M> = Config(
    serial: bool, capacity: nat, backend: Backend<M>, clientCapacity: nat, clientBackend: Backend<M>)

  /** Octets under way in both directions, the server's memory, and what the requester has heard so far. */
  datatype System<!M> = System(
    sequence: word, toServer: seq<octet>, toClient: seq<octet>, memory: M, clientMemory: M, heard: seq<Verdict>)

  /** The requester asks, the server takes a turn, or the requester takes one. */
  datatype Step = Ask(request: Request) | Serve(beyond: nat -> octet) | Listen(beyond: nat -> octet)

  function RequestMessage(r: Request, sequence: word): Message {
    match r
    case Read(wide, address, n) => Message(ReadRequest, wide, 0, sequence, address, n, [])
    case Write(wide, address, n, data) => Message(WriteRequest, wide, 0, sequence, address, n, data)
  }

  /** A request that the interface can express. */
  predicate Wellformed(r: Request) {
    && r.address < TWO_32 && r.n < TWO_32
    && (r.Write? ==> |r.data| == Unit(r.wide) * r.n)
  }

  lemma RequestsAreSendable(r: Request, sequence: word)
    requires Wellformed(r)
    ensures Sendable(RequestMessage(r, sequence))
  {
  }

  /** The frame of the request fits into the server's memory for it, and that of the response into both. */
  predicate Fits<M>(cfg: Config<M>, r: Request) {
    && HEADER_MAX + 4 <= cfg.capacity && HEADER_MAX + 4 <= cfg.clientCapacity
    && match r
       case Write(_, _, _, data) => HEADER_MAX + |data| <= cfg.capacity
       case Read(_, _, n) =>
         n <= cfg.capacity / Unit(cfg.backend.wide) ==>
           HEADER_MAX + Unit(cfg.backend.wide) * n <= cfg.capacity && HEADER_MAX + Unit(cfg.backend.wide) * n <= cfg.clientCapacity
  }

  /* ---------- The steps, as the peers take them on octets ---------- */

  function Next<M>(cfg: Config<M>, s: System<M>, step: Step): System<M>
    requires step.Ask? ==> Wellformed(step.request)
  {
    match step
    case Ask(r) =>
      RequestsAreSendable(r, s.sequence);
      s.(toServer := s.toServer + Wire(cfg.serial, RequestMessage(r, s.sequence)),
         sequence := ((s.sequence as nat + 1) % 0x1_0000) as word)
    case Serve(beyond) => (
      match FirstFrame(cfg.serial, s.toServer)
      case Lost(rest) => s.(toServer := rest)
      case Whole(raw, rest) =>
        var v := ParsedFrame(Captured(raw, cfg.capacity), beyond);
        ParsedIsPossible(Captured(raw, cfg.capacity), beyond);
        ReactionsAreSendable(cfg.backend, cfg.capacity, s.memory, v);
        s.(toServer := rest,
           toClient := s.toClient + Spoken(cfg.serial, Reaction(cfg.backend, cfg.capacity, s.memory, v)),
           memory := Outcome(cfg.backend, cfg.capacity, s.memory, v).memory)
    )
    case Listen(beyond) => (
      match FirstFrame(cfg.serial, s.toClient)
      case Lost(rest) => s.(toClient := rest)
      case Whole(raw, rest) =>
        var v := ParsedFrame(Captured(raw, cfg.clientCapacity), beyond);
        ParsedIsPossible(Captured(raw, cfg.clientCapacity), beyond);
        ReactionsAreSendable(cfg.clientBackend, cfg.clientCapacity, s.clientMemory, v);
        s.(toClient := rest,
           toServer := s.toServer + Spoken(cfg.serial, Reaction(cfg.clientBackend, cfg.clientCapacity, s.clientMemory, v)),
           clientMemory := Outcome(cfg.clientBackend, cfg.clientCapacity, s.clientMemory, v).memory,
           heard := s.heard + [v])
    )
  }

  lemma ReactionsAreSendable<M>(b: Backend<M>, capacity: nat, memory: M, v: Verdict)
    requires Possible(v)
    ensures var reply := Reaction(b, capacity, memory, v); reply.Say? ==> Sendable(reply.message)
  {
    RepliesAreSendable(b, capacity, memory, v);
  }

  /** The requests among the steps of a schedule. */
  function Asked(schedule: seq<Step>): seq<Request> {
    if schedule == [] then []
    else
      var n := |schedule| - 1;
      Asked(schedule[..n]) + if schedule[n].Ask? then [schedule[n].request] else []
  }

  /** Every request of the schedule is well-formed and fits. */
  ghost predicate Admissible<M>(cfg: Config<M>, schedule: seq<Step>) {
    forall step <- schedule :: step.Ask? ==> Wellformed(step.request) && Fits(cfg, step.request)
  }

  ghost function Run<M>(cfg: Config<M>, s: System<M>, schedule: seq<Step>): System<M>
    requires Admissible(cfg, schedule)
  {
    if schedule == [] then s
    else
      var n := |schedule| - 1;
      Next(cfg, Run(cfg, s, schedule[..n]), schedule[n])
  }

  /* ---------- What is meant to happen ---------- */

  function SequenceAt(first: word, i: nat): word {
    ((first as nat + i) % 0x1_0000) as word
  }

  /** One request served on its own. */
  function Answer<M>(cfg: Config<M>, memory: M, r: Request, sequence: word): Processed<M>
    requires Wellformed(r)
  {
    RequestsAreSendable(r, sequence);
    var m := RequestMessage(r, sequence);
    RequestIsPossible(cfg.serial, m);
    Outcome(cfg.backend, cfg.capacity, memory, Good(HeaderOf(cfg.serial, m), m.payload))
  }

  lemma RequestIsPossible(serial: bool, m: Message)
    requires Sendable(m) && IsRequest(m.kind)
    ensures Possible(Good(HeaderOf(serial, m), m.payload))
  {
    UnitTimes(m.wide, m.blocksize);
  }

  /** The server's memory after the first k requests, served one after the other. */
  function MemoryAfter<M>(cfg: Config<M>, memory: M, first: word, asked: seq<Request>, k: nat): M
    requires k <= |asked| && AllWellformed(asked)
  {
    if k == 0 then memory
    else Answer(cfg, MemoryAfter(cfg, memory, first, asked, k - 1), asked[k - 1], SequenceAt(first, k - 1)).memory
  }

  /** The response to the i-th request: it sees memory as the requests in front of it have left it. */
  function ReplyTo<M>(cfg: Config<M>, memory: M, first: word, asked: seq<Request>, i: nat): Message
    requires i < |asked| && AllWellformed(asked)
  {
    AnswerEchoes(cfg, MemoryAfter(cfg, memory, first, asked, i), asked[i], SequenceAt(first, i));
    Answer(cfg, MemoryAfter(cfg, memory, first, asked, i), asked[i], SequenceAt(first, i)).reply.message
  }

  predicate AllWellformed(asked: seq<Request>) {
    forall r <- asked :: Wellformed(r)
  }

  /** A request is met with one message: a response of its kind that repeats its sequence number and address. */
  lemma AnswerEchoes<M>(cfg: Config<M>, memory: M, r: Request, sequence: word)
    requires Wellformed(r)
    ensures var reply := Answer(cfg, memory, r, sequence).reply;
            && reply.Say? && Sendable(reply.message)
            && reply.message.kind == (if r.Read? then ReadResponse else WriteResponse)
            && reply.message.sequence == sequence && reply.message.address == r.address
            && !IsRequest(reply.message.kind)
  {
    hide Sendable, BigEndian, HeaderOf, Response, Possible, Plausible, InRange;
    var m := RequestMessage(r, sequence);
    RequestsAreSendable(r, sequence);
    RequestIsPossible(cfg.serial, m);
    RepliesAreSendable(cfg.backend, cfg.capacity, memory, Good(HeaderOf(cfg.serial, m), m.payload));
    ResponsesEcho(HeaderOf(cfg.serial, m));
  }

  lemma ResponsesEcho(h: Header)
    ensures forall status, address, capacity, ack ::
              var m := Response(h, status, address, capacity, ack);
              m == ack || (m.kind == ResponseKind(h.kind) && m.sequence == h.sequence && m.address == h.address)
  {
  }

  /* ---------- Streams of messages ---------- */

  predicate AllSendable(ms: seq<Message>) {
    forall m <- ms :: Sendable(m)
  }

  function Stream(serial: bool, ms: seq<Message>): seq<octet>
    requires AllSendable(ms)
  {
    if ms == [] then [] else Wire(serial, ms[0]) + Stream(serial, ms[1..])
  }

  lemma {:induction false} StreamSnoc(serial: bool, ms: seq<Message>, m: Message)
    requires AllSendable(ms) && Sendable(m)
    ensures Stream(serial, ms + [m]) == Stream(serial, ms) + Wire(serial, m)
  {
    hide Wire, Sendable;
    if ms == [] {
      assert (ms + [m])[1..] == [];
    } else {
      assert (ms + [m])[1..] == ms[1..] + [m];
      StreamSnoc(serial, ms[1..], m);
    }
  }

  /** A channel of whole frames yields the first of them, and nothing only if there is none. */
  lemma FirstOfStream(serial: bool, ms: seq<Message>)
    requires AllSendable(ms)
    ensures FirstFrame(serial, Stream(serial, ms))
         == if ms == [] then Lost([]) else Whole(FrameOf(serial, ms[0]), Stream(serial, ms[1..]))
  {
    hide Wire, Sendable, FrameOf;
    if ms == [] {
      NothingToTake(serial);
    } else {
      WireRoundTrip(serial, ms[0], Stream(serial, ms[1..]), _ => 0);
    }
  }

  lemma NothingToTake(serial: bool)
    ensures FirstFrame(serial, []) == Lost([])
  {
  }

  /* ---------- Single frames ---------- */

  lemma UnderstoodAsSent(serial: bool, m: Message, capacity: nat, beyond: nat -> octet)
    requires Sendable(m) && HEADER_MAX + |m.payload| <= capacity
    ensures Captured(FrameOf(serial, m), capacity) == FrameOf(serial, m)
    ensures ParsedFrame(FrameOf(serial, m), beyond) == Understood(serial, m)
  {
    hide Sendable, FrameOf, Understood, ParsedFrame;
    WireRoundTrip(serial, m, [], beyond);
  }

  /** A request that fits is served as it was meant. */
  lemma ServedRequest<M>(cfg: Config<M>, memory: M, r: Request, sequence: word, beyond: nat -> octet)
    requires Wellformed(r) && Fits(cfg, r)
    ensures var m := RequestMessage(r, sequence);
            && Sendable(m)
            && var v := ParsedFrame(Captured(FrameOf(cfg.serial, m), cfg.capacity), beyond);
               && Possible(v)
               && Reaction(cfg.backend, cfg.capacity, memory, v) == Answer(cfg, memory, r, sequence).reply
               && Outcome(cfg.backend, cfg.capacity, memory, v).memory == Answer(cfg, memory, r, sequence).memory
  {
    hide FrameOf, ParsedFrame, Outcome, HeaderOf, Captured;
    var m := RequestMessage(r, sequence);
    RequestsAreSendable(r, sequence);
    RequestIsPossible(cfg.serial, m);
    UnderstoodAsSent(cfg.serial, m, cfg.capacity, beyond);
  }

  /** A meta message is read and not answered. */
  lemma ServedMeta<M>(cfg: Config<M>, memory: M, beyond: nat -> octet)
    requires HEADER_MAX <= cfg.capacity
    ensures var v := ParsedFrame(Captured(FrameOf(cfg.serial, MetaMessage(EHEADERENC)), cfg.capacity), beyond);
            && Possible(v)
            && Reaction(cfg.backend, cfg.capacity, memory, v) == Silence
            && Outcome(cfg.backend, cfg.capacity, memory, v).memory == memory
  {
    hide FrameOf, ParsedFrame, Captured;
    UnderstoodAsSent(cfg.serial, MetaMessage(EHEADERENC), cfg.capacity, beyond);
  }

  /** A response is never answered, but one that cannot be parsed is complained about. */
  lemma HeardReply<M>(cfg: Config<M>, clientMemory: M, m: Message, beyond: nat -> octet)
    requires Sendable(m) && m.kind in {ReadResponse, WriteResponse} && HEADER_MAX + |m.payload| <= cfg.clientCapacity
    ensures var v := ParsedFrame(Captured(FrameOf(cfg.serial, m), cfg.clientCapacity), beyond);
            && v == Understood(cfg.serial, m) && Possible(v)
            && Outcome(cfg.clientBackend, cfg.clientCapacity, clientMemory, v).memory == clientMemory
            && Reaction(cfg.clientBackend, cfg.clientCapacity, clientMemory, v)
               == if v == BadMessage then Say(MetaMessage(EHEADERENC)) else Silence
  {
    hide FrameOf, ParsedFrame, Captured;
    UnderstoodAsSent(cfg.serial, m, cfg.clientCapacity, beyond);
    ParsedIsPossible(FrameOf(cfg.serial, m), beyond);
  }

  /** The response to a request that fits, fits. */
  lemma ReplyFits<M>(cfg: Config<M>, memory: M, r: Request, sequence: word)
    requires Wellformed(r) && Fits(cfg, r)
    ensures var reply := Answer(cfg, memory, r, sequence).reply;
            reply.Say? && HEADER_MAX + |reply.message.payload| <= cfg.clientCapacity
  {
    hide Sendable;
    AnswerEchoes(cfg, memory, r, sequence);
  }

  /* ---------- Runs ---------- */

  /** The requests among the messages under way. */
  function Requests(ms: seq<Message>): seq<Message> {
    if ms == [] then []
    else (if IsRequest(ms[0].kind) then [ms[0]] else []) + Requests(ms[1..])
  }

  lemma {:induction false} RequestsSnoc(ms: seq<Message>, m: Message)
    ensures Requests(ms + [m]) == Requests(ms) + if IsRequest(m.kind) then [m] else []
  {
    hide Requests, IsRequest;
    if ms == [] {
      assert ms + [m] == [m] + [];
      FirstRequest(m, []);
    } else {
      assert ms == [ms[0]] + ms[1..] && ms + [m] == [ms[0]] + (ms[1..] + [m]);
      FirstRequest(ms[0], ms[1..]);
      FirstRequest(ms[0], ms[1..] + [m]);
      RequestsSnoc(ms[1..], m);
    }
  }

  lemma FirstRequest(m: Message, rest: seq<Message>)
    ensures Requests([m] + rest) == (if IsRequest(m.kind) then [m] else []) + Requests(rest)
    ensures Requests([]) == []
  {
    assert ([m] + rest)[1..] == rest;
  }

  /** The messages of the requests from the k-th on. */
  function Pending(first: word, asked: seq<Request>, k: nat): seq<Message>
    requires k <= |asked|
  {
    seq(|asked| - k, i requires 0 <= i < |asked| - k => RequestMessage(asked[k + i], SequenceAt(first, k + i)))
  }

  /** The responses from the j-th up to the k-th. */
  function Replies<M>(cfg: Config<M>, memory: M, first: word, asked: seq<Request>, j: nat, k: nat): seq<Message>
    requires j <= k <= |asked| && AllWellformed(asked)
  {
    seq(k - j, i requires 0 <= i < k - j => ReplyTo(cfg, memory, first, asked, j + i))
  }

  ghost predicate AllFit<M>(cfg: Config<M>, asked: seq<Request>) {
    && HEADER_MAX + 4 <= cfg.capacity && HEADER_MAX + 4 <= cfg.clientCapacity
    && forall r <- asked :: Wellformed(r) && Fits(cfg, r)
  }

  /** Where a run stands: what was asked, how much of it was served, and the messages under way. */
  datatype Progress = Progress(asked: seq<Request>, served: nat, inbox: seq<Message>)

  /** The channel to the server holds the requests not served yet, in order, between complaints. */
  ghost predicate InboxInOrder<M>(cfg: Config<M>, first: word, s: System<M>, p: Progress) {
    && p.served <= |p.asked| && AllSendable(p.inbox) && s.toServer == Stream(cfg.serial, p.inbox)
    && Requests(p.inbox) == Pending(first, p.asked, p.served)
    && (forall m <- p.inbox :: IsRequest(m.kind) || m == MetaMessage(EHEADERENC))
    && s.sequence == SequenceAt(first, |p.asked|)
  }

  /** The channel to the requester holds the responses that it has not heard yet, in order. */
  ghost predicate OutboxInOrder<M>(cfg: Config<M>, memory: M, first: word, s: System<M>, p: Progress) {
    && |s.heard| <= p.served <= |p.asked| && AllFit(cfg, p.asked) && AllWellformed(p.asked)
    && s.memory == MemoryAfter(cfg, memory, first, p.asked, p.served)
    && (var outbox := Replies(cfg, memory, first, p.asked, |s.heard|, p.served);
        AllSendable(outbox) && s.toClient == Stream(cfg.serial, outbox))
    && forall i :: 0 <= i < |s.heard| ==> s.heard[i] == HeardAs(cfg, memory, first, p.asked, i)
  }

  /** What the requester makes of the i-th response. */
  function HeardAs<M>(cfg: Config<M>, memory: M, first: word, asked: seq<Request>, i: nat): Verdict
    requires i < |asked| && AllWellformed(asked)
  {
    AnswerEchoes(cfg, MemoryAfter(cfg, memory, first, asked, i), asked[i], SequenceAt(first, i));
    Understood(cfg.serial, ReplyTo(cfg, memory, first, asked, i))
  }

  /** More requests behind do not change what becomes of those in front. */
  lemma {:induction false} MemoryIsStable<M>(cfg: Config<M>, memory: M, first: word, asked: seq<Request>, r: Request, k: nat)
    requires k <= |asked| && AllWellformed(asked) && Wellformed(r)
    ensures AllWellformed(asked + [r])
    ensures MemoryAfter(cfg, memory, first, asked + [r], k) == MemoryAfter(cfg, memory, first, asked, k)
  {
    hide Answer, Wellformed;
    if k > 0 {
      MemoryIsStable(cfg, memory, first, asked, r, k - 1);
    }
  }

  lemma RepliesAreStable<M>(cfg: Config<M>, memory: M, first: word, asked: seq<Request>, r: Request, j: nat, k: nat)
    requires j <= k <= |asked| && AllWellformed(asked) && Wellformed(r)
    ensures AllWellformed(asked + [r])
    ensures Replies(cfg, memory, first, asked + [r], j, k) == Replies(cfg, memory, first, asked, j, k)
    ensures forall i: nat :: i < k ==> HeardAs(cfg, memory, first, asked + [r], i) == HeardAs(cfg, memory, first, asked, i)
  {
    hide Answer, Wellformed, Understood;
    forall i: nat | i < k
      ensures ReplyTo(cfg, memory, first, asked + [r], i) == ReplyTo(cfg, memory, first, asked, i)
    {
      MemoryIsStable(cfg, memory, first, asked, r, i);
    }
    MemoryIsStable(cfg, memory, first, asked, r, 0);
  }

  /* ---------- Every step keeps the order ---------- */

  lemma AskKeepsOrder<M>(cfg: Config<M>, memory: M, first: word, s: System<M>, p: Progress, r: Request)
    requires InboxInOrder(cfg, first, s, p) && OutboxInOrder(cfg, memory, first, s, p)
    requires Wellformed(r) && Fits(cfg, r)
    ensures var p' := Progress(p.asked + [r], p.served, p.inbox + [RequestMessage(r, s.sequence)]);
            && InboxInOrder(cfg, first, Next(cfg, s, Ask(r)), p')
            && OutboxInOrder(cfg, memory, first, Next(cfg, s, Ask(r)), p')
  {
    hide Wire, Wellformed, Fits, Sendable, FirstFrame, Replies, ReplyTo, MemoryAfter, Stream, Requests;
    var m := RequestMessage(r, s.sequence);
    RequestsAreSendable(r, s.sequence);
    StreamSnoc(cfg.serial, p.inbox, m);
    RequestsSnoc(p.inbox, m);
    RepliesAreStable(cfg, memory, first, p.asked, r, |s.heard|, p.served);
    MemoryIsStable(cfg, memory, first, p.asked, r, p.served);
    assert Pending(first, p.asked + [r], p.served) == Pending(first, p.asked, p.served) + [m];
  }

  lemma ServeKeepsOrder<M>(cfg: Config<M>, memory: M, first: word, s: System<M>, p: Progress, beyond: nat -> octet)
    returns (p': Progress)
    requires InboxInOrder(cfg, first, s, p) && OutboxInOrder(cfg, memory, first, s, p)
    ensures p'.asked == p.asked && (p.inbox != [] ==> |p'.inbox| == |p.inbox| - 1)
    ensures InboxInOrder(cfg, first, Next(cfg, s, Serve(beyond)), p')
    ensures OutboxInOrder(cfg, memory, first, Next(cfg, s, Serve(beyond)), p')
  {
    hide Wire, Wellformed, Fits, Sendable, FirstFrame, Stream, Requests, Pending, Captured, FrameOf, ParsedFrame, Reaction,
         Outcome, Answer, Replies, ReplyTo, HeardAs, MemoryAfter;
    FirstOfStream(cfg.serial, p.inbox);
    EmptyStream(cfg.serial, p.inbox);
    if p.inbox == [] {
      return p;
    }
    var m, k, tail := p.inbox[0], p.served, p.inbox[1..];
    if IsRequest(m.kind) {
      NextPending(first, p, m);
      p' := Progress(p.asked, k + 1, tail);
      ServeRequestKeepsOrder(cfg, memory, first, s, p, p', beyond);
    } else {
      p' := Progress(p.asked, k, tail);
      ServeMetaKeepsOrder(cfg, memory, first, s, p, p', beyond);
    }
  }

  /** The first request under way is the first one not served. */
  lemma NextPending(first: word, p: Progress, m: Message)
    requires p.served <= |p.asked| && Requests(p.inbox) == Pending(first, p.asked, p.served)
    requires p.inbox != [] && p.inbox[0] == m && IsRequest(m.kind)
    ensures p.served < |p.asked|
    ensures m == RequestMessage(p.asked[p.served], SequenceAt(first, p.served))
    ensures Requests(p.inbox[1..]) == Pending(first, p.asked, p.served + 1)
  {
    var rs := Requests(p.inbox);
    assert rs == [m] + Requests(p.inbox[1..]);
    assert rs[0] == m && rs[1..] == Requests(p.inbox[1..]);
    assert Pending(first, p.asked, p.served)[1..] == Pending(first, p.asked, p.served + 1);
  }

  lemma ServeRequestKeepsOrder<M>(
    cfg: Config<M>, memory: M, first: word, s: System<M>, p: Progress, p': Progress, beyond: nat -> octet)
    requires InboxInOrder(cfg, first, s, p) && OutboxInOrder(cfg, memory, first, s, p)
    requires p.served < |p.asked| && p.inbox != []
    requires p' == Progress(p.asked, p.served + 1, p.inbox[1..])
    requires p.inbox[0] == RequestMessage(p.asked[p.served], SequenceAt(first, p.served))
    requires Requests(p'.inbox) == Pending(first, p.asked, p'.served)
    requires FirstFrame(cfg.serial, s.toServer) == Whole(FrameOf(cfg.serial, p.inbox[0]), Stream(cfg.serial, p.inbox[1..]))
    ensures InboxInOrder(cfg, first, Next(cfg, s, Serve(beyond)), p')
    ensures OutboxInOrder(cfg, memory, first, Next(cfg, s, Serve(beyond)), p')
  {
    hide Wire, Wellformed, Fits, Sendable, FirstFrame, Stream, Requests, Pending, Captured, FrameOf, ParsedFrame, Reaction, Outcome, Answer;
    var k, j := p.served, |s.heard|;
    var r, n := p.asked[k], SequenceAt(first, k);
    ServedRequest(cfg, s.memory, r, n, beyond);
    AnswerEchoes(cfg, s.memory, r, n);
    var outbox, reply := Replies(cfg, memory, first, p.asked, j, k), ReplyTo(cfg, memory, first, p.asked, k);
    assert Replies(cfg, memory, first, p.asked, j, k + 1) == outbox + [reply];
    StreamSnoc(cfg.serial, outbox, reply);
  }

  lemma ServeMetaKeepsOrder<M>(
    cfg: Config<M>, memory: M, first: word, s: System<M>, p: Progress, p': Progress, beyond: nat -> octet)
    requires InboxInOrder(cfg, first, s, p) && OutboxInOrder(cfg, memory, first, s, p)
    requires p.inbox != [] && !IsRequest(p.inbox[0].kind)
    requires p' == p.(inbox := p.inbox[1..])
    requires FirstFrame(cfg.serial, s.toServer) == Whole(FrameOf(cfg.serial, p.inbox[0]), Stream(cfg.serial, p.inbox[1..]))
    ensures InboxInOrder(cfg, first, Next(cfg, s, Serve(beyond)), p')
    ensures OutboxInOrder(cfg, memory, first, Next(cfg, s, Serve(beyond)), p')
  {
    hide Wire, Wellformed, Fits, Sendable, FirstFrame, Stream, Pending, Captured, FrameOf, ParsedFrame, Reaction, Outcome,
         Replies, ReplyTo, HeardAs, MemoryAfter;
    ServedMeta(cfg, s.memory, beyond);
    assert s.toClient + [] == s.toClient;
  }

  lemma ListenKeepsOrder<M>(cfg: Config<M>, memory: M, first: word, s: System<M>, p: Progress, beyond: nat -> octet)
    returns (p': Progress)
    requires InboxInOrder(cfg, first, s, p) && OutboxInOrder(cfg, memory, first, s, p)
    ensures p'.asked == p.asked && p'.served == p.served && |p'.inbox| <= |p.inbox| + 1
    ensures |Next(cfg, s, Listen(beyond)).heard| == |s.heard| + if |s.heard| < p.served then 1 else 0
    ensures InboxInOrder(cfg, first, Next(cfg, s, Listen(beyond)), p')
    ensures OutboxInOrder(cfg, memory, first, Next(cfg, s, Listen(beyond)), p')
  {
    hide Wire, Wellformed, Fits, Sendable, FirstFrame, Stream, Pending, Captured, FrameOf, ParsedFrame, Reaction, Outcome,
         Requests, Answer, MemoryAfter, ReplyTo, HeardAs, Next;
    var j, k := |s.heard|, p.served;
    FirstOfStream(cfg.serial, Replies(cfg, memory, first, p.asked, j, k));
    EmptyStream(cfg.serial, Replies(cfg, memory, first, p.asked, j, k));
    p' := p;
    if j < k {
      HeardNext(cfg, memory, first, s, p, beyond);
      if HeardAs(cfg, memory, first, p.asked, j) == BadMessage {
        var complaint := MetaMessage(EHEADERENC);
        p' := p.(inbox := p.inbox + [complaint]);
        StreamSnoc(cfg.serial, p.inbox, complaint);
        RequestsSnoc(p.inbox, complaint);
      } else {
        assert s.toServer + [] == s.toServer;
      }
    } else {
      NothingToHear(cfg, s, beyond);
    }
  }

  lemma NothingToHear<M>(cfg: Config<M>, s: System<M>, beyond: nat -> octet)
    requires FirstFrame(cfg.serial, s.toClient) == Lost([]) && s.toClient == []
    ensures Next(cfg, s, Listen(beyond)) == s
  {
    hide FirstFrame;
  }

  /** A requester's turn, given the frame in front of it. */
  lemma HeardOne<M>(cfg: Config<M>, s: System<M>, m: Message, rest: seq<octet>, beyond: nat -> octet)
    requires Sendable(m) && m.kind in {ReadResponse, WriteResponse} && HEADER_MAX + |m.payload| <= cfg.clientCapacity
    requires FirstFrame(cfg.serial, s.toClient) == Whole(FrameOf(cfg.serial, m), rest)
    ensures var v, t := Understood(cfg.serial, m), Next(cfg, s, Listen(beyond));
            && t.toClient == rest && t.heard == s.heard + [v]
            && t.memory == s.memory && t.sequence == s.sequence
            && Sendable(MetaMessage(EHEADERENC))
            && t.toServer == s.toServer + (if v == BadMessage then Wire(cfg.serial, MetaMessage(EHEADERENC)) else [])
  {
    hide Wire, FirstFrame, Captured, FrameOf, ParsedFrame, Reaction, Outcome, Understood;
    HeardReply(cfg, s.clientMemory, m, beyond);
  }

  lemma RepliesFromNext<M>(cfg: Config<M>, memory: M, first: word, asked: seq<Request>, j: nat, k: nat)
    requires j < k <= |asked| && AllWellformed(asked) && AllFit(cfg, asked)
    ensures var outbox, m := Replies(cfg, memory, first, asked, j, k), ReplyTo(cfg, memory, first, asked, j);
            && |outbox| == k - j && outbox[0] == m && outbox[1..] == Replies(cfg, memory, first, asked, j + 1, k)
            && Sendable(m) && m.kind in {ReadResponse, WriteResponse} && HEADER_MAX + |m.payload| <= cfg.clientCapacity
  {
    hide Wellformed, Fits, Answer, MemoryAfter, Sendable;
    var before := MemoryAfter(cfg, memory, first, asked, j);
    AnswerEchoes(cfg, before, asked[j], SequenceAt(first, j));
    ReplyFits(cfg, before, asked[j], SequenceAt(first, j));
    assert Replies(cfg, memory, first, asked, j, k)[1..] == Replies(cfg, memory, first, asked, j + 1, k);
  }

  /** The next response that the requester hears is the next one that was given. */
  lemma HeardNext<M>(cfg: Config<M>, memory: M, first: word, s: System<M>, p: Progress, beyond: nat -> octet)
    requires OutboxInOrder(cfg, memory, first, s, p) && |s.heard| < p.served
    ensures var j, k := |s.heard|, p.served;
            var v, t := HeardAs(cfg, memory, first, p.asked, j), Next(cfg, s, Listen(beyond));
            && AllSendable(Replies(cfg, memory, first, p.asked, j + 1, k))
            && t.toClient == Stream(cfg.serial, Replies(cfg, memory, first, p.asked, j + 1, k))
            && Sendable(MetaMessage(EHEADERENC))
            && t.toServer == s.toServer + (if v == BadMessage then Wire(cfg.serial, MetaMessage(EHEADERENC)) else [])
            && t.heard == s.heard + [v]
            && t.memory == s.memory && t.sequence == s.sequence
  {
    hide Wire, Wellformed, Fits, FirstFrame, Stream, FrameOf, Next, MemoryAfter, Replies, ReplyTo, Understood, Sendable, AllFit;
    var j, k := |s.heard|, p.served;
    var outbox := Replies(cfg, memory, first, p.asked, j, k);
    RepliesFromNext(cfg, memory, first, p.asked, j, k);
    FirstOfStream(cfg.serial, outbox);
    HeardOne(cfg, s, outbox[0], Stream(cfg.serial, outbox[1..]), beyond);
  }

  ghost predicate Idle<M>(s: System<M>) {
    s.toServer == [] && s.toClient == [] && s.heard == []
  }

  lemma {:induction false} RunKeepsOrder<M>(cfg: Config<M>, s: System<M>, schedule: seq<Step>) returns (p: Progress)
    requires Admissible(cfg, schedule) && Idle(s)
    requires HEADER_MAX + 4 <= cfg.capacity && HEADER_MAX + 4 <= cfg.clientCapacity
    ensures p.asked == Asked(schedule)
    ensures InboxInOrder(cfg, s.sequence, Run(cfg, s, schedule), p)
    ensures OutboxInOrder(cfg, s.memory, s.sequence, Run(cfg, s, schedule), p)
  {
    hide InboxInOrder, OutboxInOrder, Next, Wellformed, Fits;
    if schedule == [] {
      p := Progress([], 0, []);
      StartInOrder(cfg, s);
    } else {
      var n := |schedule| - 1;
      var q := RunKeepsOrder(cfg, s, schedule[..n]);
      var t := Run(cfg, s, schedule[..n]);
      match schedule[n] {
        case Ask(r) =>
          assert schedule[n] in schedule;
          AskKeepsOrder(cfg, s.memory, s.sequence, t, q, r);
          p := Progress(q.asked + [r], q.served, q.inbox + [RequestMessage(r, t.sequence)]);
        case Serve(beyond) =>
          p := ServeKeepsOrder(cfg, s.memory, s.sequence, t, q, beyond);
        case Listen(beyond) =>
          p := ListenKeepsOrder(cfg, s.memory, s.sequence, t, q, beyond);
      }
    }
  }

  lemma StartInOrder<M>(cfg: Config<M>, s: System<M>)
    requires Idle(s) && HEADER_MAX + 4 <= cfg.capacity && HEADER_MAX + 4 <= cfg.clientCapacity
    ensures InboxInOrder(cfg, s.sequence, s, Progress([], 0, []))
    ensures OutboxInOrder(cfg, s.memory, s.sequence, s, Progress([], 0, []))
  {
  }

  /* ---------- What holds of every run ---------- */

  lemma EmptyStream(serial: bool, ms: seq<Message>)
    requires AllSendable(ms)
    ensures Stream(serial, ms) == [] <==> ms == []
  {
    hide FirstFrame, FrameOf, Sendable, Wire;
    FirstOfStream(serial, ms);
    NothingToTake(serial);
  }

  /**
   Whatever order the peers take their turns in: the requester hears responses in the order of its
   requests, the i-th with the i-th sequence number and address, and made of memory as the requests in
   front left it. Once nothing is under way any more, every request has had exactly one response.
   */
  lemma EveryRunIsOrderly<M>(cfg: Config<M>, s: System<M>, schedule: seq<Step>)
    requires Admissible(cfg, schedule) && Idle(s)
    requires HEADER_MAX + 4 <= cfg.capacity && HEADER_MAX + 4 <= cfg.clientCapacity
    ensures var t, asked := Run(cfg, s, schedule), Asked(schedule);
            && AllWellformed(asked) && |t.heard| <= |asked|
            && t.sequence == SequenceAt(s.sequence, |asked|)
            && (forall i :: 0 <= i < |t.heard| ==> t.heard[i] == HeardAs(cfg, s.memory, s.sequence, asked, i))
            && (t.toServer == [] && t.toClient == [] ==>
                  |t.heard| == |asked| && t.memory == MemoryAfter(cfg, s.memory, s.sequence, asked, |asked|))
  {
    hide Stream, Wellformed, Fits, MemoryAfter, HeardAs, Sendable;
    var p := RunKeepsOrder(cfg, s, schedule);
    var t := Run(cfg, s, schedule);
    var outbox := Replies(cfg, s.memory, s.sequence, p.asked, |t.heard|, p.served);
    EmptyStream(cfg.serial, p.inbox);
    EmptyStream(cfg.serial, outbox);
    if t.toServer == [] && t.toClient == [] {
      assert |Pending(s.sequence, p.asked, p.served)| == 0;
    }
  }

  /** What a response is heard as: itself, unless it is of one of the kinds that the parser refuses. */
  lemma ResponsesAreHeard<M>(cfg: Config<M>, memory: M, first: word, asked: seq<Request>, i: nat)
    requires i < |asked| && AllWellformed(asked)
    ensures var m, v := ReplyTo(cfg, memory, first, asked, i), HeardAs(cfg, memory, first, asked, i);
            && m.sequence == SequenceAt(first, i) && m.address == asked[i].address
            && m.kind == (if asked[i].Read? then ReadResponse else WriteResponse)
            && (v == BadMessage <==> m.meta == EIO)
            && (v.BadSize? <==> asked[i].Write? && m.payload != [])
            && (v.Good? <==> m.meta != EIO && (asked[i].Read? || m.payload == []))
            && (v.Good? ==>
                  && v.header.kind == m.kind && v.header.sequence == m.sequence && v.header.address == m.address
                  && v.header.meta == m.meta && v.header.blocksize == m.blocksize && v.payload == m.payload)
  {
    hide Sendable, Possible, Plausible, BlockOf, BigEndian;
    AnswerEchoes(cfg, MemoryAfter(cfg, memory, first, asked, i), asked[i], SequenceAt(first, i));
    CodesAreSmall(cfg, MemoryAfter(cfg, memory, first, asked, i), asked[i], SequenceAt(first, i));
  }

  /**
   A response repeats the block size of its request exactly if it is an acknowledged read, or if that
   size happens to be the one of what it carries itself: nothing, or a number of four octets.
   */
  lemma BlockSizeIsRepeated<M>(cfg: Config<M>, memory: M, r: Request, sequence: word)
    requires Wellformed(r)
    ensures var reply := Answer(cfg, memory, r, sequence).reply;
            && reply.Say?
            && var m := reply.message;
               (m.blocksize == r.n <==> (r.Read? && m.meta == ACK) || r.n == (if m.payload == [] then 0 else 4))
  {
    hide Sendable, BigEndian, BlockOf, Possible, Plausible;
    AnswerEchoes(cfg, memory, r, sequence);
  }

  lemma CodesAreSmall<M>(cfg: Config<M>, memory: M, r: Request, sequence: word)
    requires Wellformed(r)
    ensures var m := Answer(cfg, memory, r, sequence).reply;
            m.Say? && m.message.meta <= EIO && (m.message.meta == EIO ==> m.message.payload == [])
  {
    hide Sendable, Possible, Plausible, BlockOf, BigEndian;
    AnswerEchoes(cfg, memory, r, sequence);
  }

  /** Nothing gets stuck: from wherever a run has come to, turns of the two peers bring every answer home. */
  lemma {:induction false} EveryRunCanFinish<M>(cfg: Config<M>, s: System<M>, schedule: seq<Step>) returns (turns: seq<Step>)
    requires Admissible(cfg, schedule) && Idle(s)
    requires HEADER_MAX + 4 <= cfg.capacity && HEADER_MAX + 4 <= cfg.clientCapacity
    ensures Admissible(cfg, schedule + turns) && Asked(schedule + turns) == Asked(schedule)
    ensures var t := Run(cfg, s, schedule + turns);
            t.toServer == [] && t.toClient == [] && |t.heard| == |Asked(schedule)|
  {
    hide Next, Wellformed, Fits, InboxInOrder, OutboxInOrder;
    var p := RunKeepsOrder(cfg, s, schedule);
    turns := FinishFrom(cfg, s, schedule, p);
    EveryRunIsOrderly(cfg, s, schedule + turns);
  }

  lemma {:induction false} FinishFrom<M>(cfg: Config<M>, s: System<M>, schedule: seq<Step>, p: Progress)
    returns (turns: seq<Step>)
    requires Admissible(cfg, schedule) && Idle(s) && p.asked == Asked(schedule)
    requires InboxInOrder(cfg, s.sequence, Run(cfg, s, schedule), p)
    requires OutboxInOrder(cfg, s.memory, s.sequence, Run(cfg, s, schedule), p)
    ensures Admissible(cfg, schedule + turns) && Asked(schedule + turns) == Asked(schedule)
    ensures var t := Run(cfg, s, schedule + turns); t.toServer == [] && t.toClient == []
    decreases |p.inbox| + 2 * (|p.asked| - |Run(cfg, s, schedule).heard|)
  {
    hide Next, Wellformed, Fits, Stream;
    var t := Run(cfg, s, schedule);
    if p.inbox == [] && |t.heard| == p.served {
      turns := [];
      assert schedule + turns == schedule;
      NothingUnderWay(cfg, s.memory, s.sequence, t, p);
    } else {
      var step, q := if p.inbox != [] then Serve(_ => 0) else Listen(_ => 0), p;
      if p.inbox != [] {
        q := ServeKeepsOrder(cfg, s.memory, s.sequence, t, p, _ => 0);
        ServeIsSilent(cfg, t, _ => 0);
      } else {
        q := ListenKeepsOrder(cfg, s.memory, s.sequence, t, p, _ => 0);
      }
      OneMore(cfg, s, schedule, step);
      var more := FinishFrom(cfg, s, schedule + [step], q);
      turns := [step] + more;
      assert schedule + turns == schedule + [step] + more;
    }
  }

  lemma NothingUnderWay<M>(cfg: Config<M>, memory: M, first: word, t: System<M>, p: Progress)
    requires InboxInOrder(cfg, first, t, p) && OutboxInOrder(cfg, memory, first, t, p)
    requires p.inbox == [] && |t.heard| == p.served
    ensures t.toServer == [] && t.toClient == []
  {
  }

  lemma ServeIsSilent<M>(cfg: Config<M>, s: System<M>, beyond: nat -> octet)
    ensures Next(cfg, s, Serve(beyond)).heard == s.heard
  {
  }

  lemma OneMore<M>(cfg: Config<M>, s: System<M>, schedule: seq<Step>, step: Step)
    requires Admissible(cfg, schedule) && !step.Ask?
    ensures Admissible(cfg, schedule + [step]) && Asked(schedule + [step]) == Asked(schedule)
    ensures Run(cfg, s, schedule + [step]) == Next(cfg, Run(cfg, s, schedule), step)
  {
    hide Next, Wellformed, Fits;
    var more := schedule + [step];
    assert more[..|more| - 1] == schedule && more[|more| - 1] == step;
  }

  /* ---------- The peers take these steps ---------- */

  /** A server and its channels are in the state that a system describes. */
  ghost predicate ServerAgrees<M>(cfg: Config<M>, s: System<M>, server: Peer<M>)
    reads server, server.source, server.sink
  {
    && server.serial == cfg.serial && server.capacity == cfg.capacity && server.backend == cfg.backend
    && server.memory == s.memory && server.source.data == s.toServer && server.sink.data == s.toClient
  }

  /** What the library does with a frame without any octets is undefined. */
  predicate HasOctets(taken: Taken) {
    taken.Whole? ==> taken.raw != []
  }

  /** Receiving and processing is the server's step. */
  method ServerTurn<M>(ghost cfg: Config<M>, ghost s: System<M>, server: Peer<M>, beyond: nat -> octet)
    requires ServerAgrees(cfg, s, server)
    requires HasOctets(FirstFrame(cfg.serial, s.toServer))
    modifies server`memory, server.source, server.sink
    ensures ServerAgrees(cfg, Next(cfg, s, Serve(beyond)), server)
  {
    hide FirstFrame, ParsedFrame, Wire, Reaction, Outcome;
    var rc := server.Serve(true, beyond);
  }

  /** A requester and its channels are in the state that a system describes. */
  ghost predicate RequesterAgrees<M>(cfg: Config<M>, s: System<M>, client: Peer<M>)
    reads client, client.source, client.sink
  {
    && client.serial == cfg.serial && client.capacity == cfg.clientCapacity && client.backend == cfg.clientBackend
    && client.memory == s.clientMemory && client.sequence == s.sequence
    && client.source.data == s.toClient && client.sink.data == s.toServer
  }

  /** Receiving and processing is the requester's step as well, and what it hears is the frame's verdict. */
  method RequesterTurn<M>(ghost cfg: Config<M>, ghost s: System<M>, client: Peer<M>, beyond: nat -> octet)
    returns (mf: MaybeFrame)
    requires RequesterAgrees(cfg, s, client)
    requires HasOctets(FirstFrame(cfg.serial, s.toClient))
    modifies client`memory, client.source, client.sink
    ensures RequesterAgrees(cfg, Next(cfg, s, Listen(beyond)), client)
    ensures Next(cfg, s, Listen(beyond)).heard == s.heard + if mf.Received? then [mf.verdict] else []
  {
    hide FirstFrame, ParsedFrame, Wire, Reaction, Outcome, Spoken, EarlyReply, Possible;
    ghost var before := client.sink.data;
    var rc;
    rc, mf := client.Recv(true, beyond);
    if mf.Received? {
      OneReply(cfg.serial, client.backend, client.capacity, client.memory, mf.verdict, before);
      client.Process(mf);
    }
  }

  /** Asking is the requester's step. */
  method RequesterAsks<M>(ghost cfg: Config<M>, ghost s: System<M>, client: Peer<M>, r: Request)
    requires Wellformed(r) && client.serial == cfg.serial
    requires client.sequence == s.sequence && client.sink.data == s.toServer
    modifies client`sequence, client.sink
    ensures client.sequence == Next(cfg, s, Ask(r)).sequence && client.sink.data == Next(cfg, s, Ask(r)).toServer
  {
    hide Wire;
    match r {
      case Read(wide, address, n) => client.ReqRead(wide, address, n);
      case Write(wide, address, n, data) => client.ReqWrite(wide, address, n, data);
    }
  }

  /* ---------- Answers of a memory of the right word size ---------- */

  lemma AnswerToRead<M>(cfg: Config<M>, m: M, r: Request, sequence: word)
    requires Wellformed(r) && r.Read? && cfg.backend.wide == r.wide
    ensures var p := Answer(cfg, m, r, sequence);
            var access := cfg.backend.read(m, r.address, r.n);
            && p.memory == m && p.reply.Say?
            && (access.status == ACK && r.n <= cfg.capacity / Unit(r.wide) ==>
                  p.reply.message.meta == ACK && p.reply.message.payload == BlockOf(access, Unit(r.wide) * r.n))
  {
    hide Possible, Plausible, BlockOf, BigEndian;
    RequestsAreSendable(r, sequence);
    RequestIsPossible(cfg.serial, RequestMessage(r, sequence));
  }

  lemma AnswerToWrite<M>(cfg: Config<M>, m: M, r: Request, sequence: word)
    requires Wellformed(r) && r.Write? && cfg.backend.wide == r.wide
    ensures var p, access := Answer(cfg, m, r, sequence), cfg.backend.write(m, r.address, r.data);
            && p.memory == access.memory && p.reply.Say?
            && p.reply.message.meta == access.status
  {
    hide Possible, Plausible, BlockOf, BigEndian;
    RequestsAreSendable(r, sequence);
    RequestIsPossible(cfg.serial, RequestMessage(r, sequence));
    assert r.data[..Unit(r.wide) * r.n] == r.data;
  }

  /** A word size that does not match leaves memory alone. */
  lemma AnswerToMismatch<M>(cfg: Config<M>, m: M, r: Request, sequence: word)
    requires Wellformed(r) && cfg.backend.wide != r.wide
    ensures Answer(cfg, m, r, sequence).memory == m
  {
    hide Possible, Plausible;
    RequestsAreSendable(r, sequence);
    RequestIsPossible(cfg.serial, RequestMessage(r, sequence));
  }

  /* ---------- Plain memory ---------- */

  /** The octets that n addresses take. */
  function Place(wide: bool, n: nat): (p: nat) {
    if wide then 2 * n else n
  }

  /** Memory without holes and without objections. */
  function PlainMemory(wide: bool): Backend<seq<octet>> {
    Backend(wide, (m, address, n) => PlainRead(wide, m, address, n), (m, address, data) => PlainWrite(wide, m, address, data))
  }

  function PlainRead(wide: bool, m: seq<octet>, address: nat, n: nat): ReadAccess {
    if Place(wide, address + n) <= |m| then ReadAccess(ACK, 0, OctetsFrom(m, Place(wide, address)))
    else ReadAccess(EUNMAPPED, FirstUnmapped(wide, m, address), _ => 0)
  }

  function PlainWrite(wide: bool, m: seq<octet>, address: nat, data: seq<octet>): WriteAccess<seq<octet>> {
    if Place(wide, address) + |data| <= |m| then WriteAccess(ACK, 0, Patched(m, Place(wide, address), data))
    else WriteAccess(EUNMAPPED, FirstUnmapped(wide, m, address), m)
  }

  function FirstUnmapped(wide: bool, m: seq<octet>, address: nat): nat {
    var end := if wide then |m| / 2 else |m|;
    if address < end then end else address
  }

  function OctetsFrom(m: seq<octet>, at: nat): nat -> octet {
    (i: nat) => if at + i < |m| then m[at + i] else 0
  }

  /** Is the request a write to any of the n addresses from the given one on? */
  predicate Disturbs(r: Request, address: nat, n: nat) {
    r.Write? && r.address < address + n && address < r.address + r.n
  }

  /** What one request makes of plain memory. */
  function PlainAfter(wide: bool, m: seq<octet>, r: Request): (m': seq<octet>)
    requires Wellformed(r)
    ensures |m'| == |m|
  {
    if r.Write? && r.wide == wide && Place(wide, r.address) + |r.data| <= |m| then Patched(m, Place(wide, r.address), r.data)
    else m
  }

  lemma PlainAnswer(cfg: Config<seq<octet>>, wide: bool, m: seq<octet>, r: Request, sequence: word)
    requires Wellformed(r) && cfg.backend == PlainMemory(wide)
    ensures Answer(cfg, m, r, sequence).memory == PlainAfter(wide, m, r)
  {
    hide Answer;
    if r.wide != wide {
      AnswerToMismatch(cfg, m, r, sequence);
    } else if r.Read? {
      AnswerToRead(cfg, m, r, sequence);
    } else {
      AnswerToWrite(cfg, m, r, sequence);
    }
  }

  lemma PlainReading(cfg: Config<seq<octet>>, m: seq<octet>, r: Request, sequence: word)
    requires Wellformed(r) && r.Read? && cfg.backend == PlainMemory(r.wide)
    requires Place(r.wide, r.address + r.n) <= |m| && r.n <= cfg.capacity / Unit(r.wide)
    ensures var reply := Answer(cfg, m, r, sequence).reply;
            && reply.Say? && reply.message.meta == ACK
            && reply.message.payload == m[Place(r.wide, r.address)..Place(r.wide, r.address + r.n)]
  {
    hide Answer;
    AnswerToRead(cfg, m, r, sequence);
    var access := PlainRead(r.wide, m, r.address, r.n);
    assert access == cfg.backend.read(m, r.address, r.n);
    BlockIsSlice(m, Place(r.wide, r.address), Unit(r.wide) * r.n);
  }

  lemma BlockIsSlice(m: seq<octet>, at: nat, size: nat)
    requires at + size <= |m|
    ensures BlockOf(ReadAccess(ACK, 0, OctetsFrom(m, at)), size) == m[at..at + size]
  {
  }

  /** A write that does not disturb some addresses leaves what is stored there alone. */
  lemma Undisturbed(wide: bool, m: seq<octet>, r: Request, address: nat, n: nat)
    requires Wellformed(r) && !Disturbs(r, address, n) && Place(wide, address + n) <= |m|
    ensures PlainAfter(wide, m, r)[Place(wide, address)..Place(wide, address + n)]
         == m[Place(wide, address)..Place(wide, address + n)]
  {
    var m', a, b := PlainAfter(wide, m, r), Place(wide, address), Place(wide, address + n);
    forall i | a <= i < b ensures m'[i] == m[i] {
      if m' != m {
        assert Place(wide, r.address) + |r.data| == Place(wide, r.address + r.n);
      }
    }
    assert m'[a..b] == m[a..b];
  }

  lemma {:induction false} WriteLasts(
    cfg: Config<seq<octet>>, wide: bool, memory: seq<octet>, first: word, asked: seq<Request>, i: nat, k: nat)
    requires cfg.backend == PlainMemory(wide) && AllWellformed(asked)
    requires i < k <= |asked| && asked[i].Write? && asked[i].wide == wide
    requires Place(wide, asked[i].address + asked[i].n) <= |memory|
    requires forall l :: i < l < k ==> !Disturbs(asked[l], asked[i].address, asked[i].n)
    ensures var m, r := MemoryAfter(cfg, memory, first, asked, k), asked[i];
            |m| == |memory| && m[Place(wide, r.address)..Place(wide, r.address + r.n)] == r.data
    decreases k
  {
    hide Answer, PlainMemory, Disturbs, PlainAfter;
    var before, r, last := MemoryAfter(cfg, memory, first, asked, k - 1), asked[i], asked[k - 1];
    PlainMemoryKeepsSize(cfg, wide, memory, first, asked, k - 1);
    PlainAnswer(cfg, wide, before, last, SequenceAt(first, k - 1));
    if i < k - 1 {
      WriteLasts(cfg, wide, memory, first, asked, i, k - 1);
      Undisturbed(wide, before, last, r.address, r.n);
    } else {
      JustWritten(wide, before, r);
    }
  }

  lemma JustWritten(wide: bool, m: seq<octet>, r: Request)
    requires Wellformed(r) && r.Write? && r.wide == wide && Place(wide, r.address + r.n) <= |m|
    ensures PlainAfter(wide, m, r)[Place(wide, r.address)..Place(wide, r.address + r.n)] == r.data
  {
  }

  lemma {:induction false} PlainMemoryKeepsSize(
    cfg: Config<seq<octet>>, wide: bool, memory: seq<octet>, first: word, asked: seq<Request>, k: nat)
    requires cfg.backend == PlainMemory(wide) && AllWellformed(asked) && k <= |asked|
    ensures |MemoryAfter(cfg, memory, first, asked, k)| == |memory|
  {
    hide Answer, PlainMemory;
    if k > 0 {
      PlainMemoryKeepsSize(cfg, wide, memory, first, asked, k - 1);
      PlainAnswer(cfg, wide, MemoryAfter(cfg, memory, first, asked, k - 1), asked[k - 1], SequenceAt(first, k - 1));
    }
  }

  /** What one request has written, a later one reads, unless a write to the same addresses comes between. */
  lemma ReadsSeeWrites(
    cfg: Config<seq<octet>>, wide: bool, memory: seq<octet>, first: word, asked: seq<Request>, i: nat, j: nat)
    requires cfg.backend == PlainMemory(wide) && AllWellformed(asked)
    requires i < j < |asked| && asked[i].Write? && asked[i].wide == wide
    requires Place(wide, asked[i].address + asked[i].n) <= |memory|
    requires forall l :: i < l < j ==> !Disturbs(asked[l], asked[i].address, asked[i].n)
    requires asked[j] == Read(wide, asked[i].address, asked[i].n) && asked[i].n <= cfg.capacity / Unit(wide)
    ensures var m, v := ReplyTo(cfg, memory, first, asked, j), HeardAs(cfg, memory, first, asked, j);
            m.meta == ACK && m.payload == asked[i].data && v.Good? && v.payload == asked[i].data
  {
    hide Answer, MemoryAfter, PlainMemory, Understood, Disturbs;
    WriteLasts(cfg, wide, memory, first, asked, i, j);
    PlainReading(cfg, MemoryAfter(cfg, memory, first, asked, j), asked[j], SequenceAt(first, j));
    ResponsesAreHeard(cfg, memory, first, asked, j);
  }
}
