/** A server of the register protocol on a channel that carries noise besides requests. */
module RegisterServer {
  import opened Octets
  import opened RegisterFrames
  import opened RegisterProtocol
  import opened RegisterSession
  import Slip

  /** What a channel has come to: memory, replies, the frames heard, the calls it took, and whether all of them are defined. */
  datatype Served<M> = Served(memory: M, spoken: seq<octet>, heard: seq<Verdict>, calls: nat, defined: bool)

  /** One thing after the other. */
  function Then<M>(a: Served<M>, b: Served<M>): Served<M> {
    Served(b.memory, a.spoken + b.spoken, a.heard + b.heard, a.calls + b.calls, a.defined && b.defined)
  }

  /** The first call for what is on a channel; `beyond` is the memory behind the frame. */
  function ServeFirst<M>(cfg: Config<M>, memory: M, taken: Taken, beyond: nat -> octet): Served<M> {
    match taken
    case Lost(_) => Served(memory, [], [], 1, true)
    case Whole(raw, _) =>
      var v := ParsedFrame(Captured(raw, cfg.capacity), beyond);
      ParsedIsPossible(Captured(raw, cfg.capacity), beyond);
      ReactionsAreSendable(cfg.backend, cfg.capacity, memory, v);
      Served(Outcome(cfg.backend, cfg.capacity, memory, v).memory,
             Spoken(cfg.serial, Reaction(cfg.backend, cfg.capacity, memory, v)), [v], 1, HasOctets(taken))
  }

  /** What a server makes of everything on its channel; `beyond(k)` is the memory behind the frame of the k-th call. */
  function ServeAll<M>(cfg: Config<M>, memory: M, stream: seq<octet>, k: nat, beyond: nat -> nat -> octet): Served<M>
    decreases |stream|
  {
    if stream == [] then Served(memory, [], [], 0, true)
    else
      var taken := FirstFrame(cfg.serial, stream);
      var first := ServeFirst(cfg, memory, taken, beyond(k));
      Then(first, ServeAll(cfg, first.memory, taken.rest, k + 1, beyond))
  }

  lemma NothingThen<M>(a: Served<M>, memory: M)
    requires a == Served(memory, [], [], 0, true)
    ensures forall b :: Then(a, b) == b
  {
  }

  lemma ThenThen<M>(a: Served<M>, b: Served<M>, c: Served<M>)
    ensures Then(Then(a, b), c) == Then(a, Then(b, c))
  {
    assert (a.spoken + b.spoken) + c.spoken == a.spoken + (b.spoken + c.spoken);
    assert (a.heard + b.heard) + c.heard == a.heard + (b.heard + c.heard);
  }

  /* ---------- Noise ---------- */

  lemma TakenFromNoise(garbage: seq<octet>, tail: seq<octet>) returns (left: seq<octet>)
    ensures var noise := garbage + [Slip.RAW_EOF];
            var taken, taken' := FirstFrame(true, noise), FirstFrame(true, noise + tail);
            && taken' == (match taken case Whole(raw, rest) => Whole(raw, rest + tail) case Lost(rest) => Lost(rest + tail))
            && |taken.rest| <= |garbage| && (taken.rest == [] || taken.rest == left + [Slip.RAW_EOF])
  {
    hide Slip.Decode;
    var noise := garbage + [Slip.RAW_EOF];
    Slip.CallThroughGarbage(false, Slip.Normal, garbage, tail);
    Slip.Regroup(garbage, [Slip.RAW_EOF], tail);
    var rest := FirstFrame(true, noise).rest;
    left := [];
    if rest != [] {
      left := rest[..|rest| - 1];
    }
  }

  /**
   On a serial line, what stands behind a delimiter is served as if nothing had been in front of it, and
   what stands in front comes to the same whatever is behind.
   */
  lemma {:induction false} NoiseStaysApart<M>(
    cfg: Config<M>, memory: M, garbage: seq<octet>, tail: seq<octet>, k: nat, beyond: nat -> nat -> octet)
    requires cfg.serial
    ensures var noise := ServeAll(cfg, memory, garbage + [Slip.RAW_EOF], k, beyond);
            && 1 <= noise.calls <= |garbage| + 1
            && ServeAll(cfg, memory, garbage + [Slip.RAW_EOF] + tail, k, beyond)
               == Then(noise, ServeAll(cfg, noise.memory, tail, k + noise.calls, beyond))
    decreases |garbage|
  {
    hide FirstFrame, ServeFirst, Then;
    var noise := garbage + [Slip.RAW_EOF];
    var left := TakenFromNoise(garbage, tail);
    var taken := FirstFrame(true, noise);
    var first := ServeFirst(cfg, memory, taken, beyond(k));
    SameCall(cfg, memory, taken, FirstFrame(true, noise + tail), beyond(k));
    var later := ServeAll(cfg, first.memory, taken.rest, k + 1, beyond);
    Counted(first, later);
    if taken.rest == [] {
      assert [] + tail == tail;
      NothingMore(first, later);
    } else {
      NoiseStaysApart(cfg, first.memory, left, tail, k + 1, beyond);
      ThenThen(first, later, ServeAll(cfg, later.memory, tail, k + 1 + later.calls, beyond));
    }
  }

  lemma SameCall<M>(cfg: Config<M>, memory: M, a: Taken, b: Taken, beyond: nat -> octet)
    requires a.Lost? == b.Lost? && (a.Whole? ==> a.raw == b.raw)
    ensures ServeFirst(cfg, memory, a, beyond) == ServeFirst(cfg, memory, b, beyond)
    ensures ServeFirst(cfg, memory, a, beyond).calls == 1
  {
    hide ParsedFrame, Reaction, Outcome, Spoken, Possible;
  }

  lemma Counted<M>(a: Served<M>, b: Served<M>)
    ensures Then(a, b).calls == a.calls + b.calls && Then(a, b).memory == b.memory
  {
  }

  lemma NothingMore<M>(a: Served<M>, nothing: Served<M>)
    requires nothing == Served(a.memory, [], [], 0, true)
    ensures Then(a, nothing) == a
  {
  }

  /** A delimiter with nothing in front of it is a frame without any octets, and so is one that follows a bad escape. */
  lemma LoneDelimiterIsUndefined<M>(
    cfg: Config<M>, memory: M, second: octet, tail: seq<octet>, k: nat, beyond: nat -> nat -> octet)
    requires cfg.serial && second != Slip.ESC_EOF && second != Slip.ESC_ESC
    ensures !ServeAll(cfg, memory, [Slip.RAW_EOF] + tail, k, beyond).defined
    ensures !ServeAll(cfg, memory, [Slip.RAW_ESC, second, Slip.RAW_EOF] + tail, k, beyond).defined
  {
    hide ParsedFrame, Reaction, Outcome, Spoken, Possible;
    var stream := [Slip.RAW_ESC, second, Slip.RAW_EOF] + tail;
    assert FirstFrame(true, stream) == Lost(stream[2..]) && stream[2..] == [Slip.RAW_EOF] + tail;
    assert forall k: nat :: !ServeAll(cfg, memory, [Slip.RAW_EOF] + tail, k, beyond).defined;
  }

  /** A channel on which nothing is heard that passes for a write request leaves memory alone. */
  lemma {:induction false} OnlyWritesMatter<M>(
    cfg: Config<M>, memory: M, stream: seq<octet>, k: nat, beyond: nat -> nat -> octet)
    requires forall v <- ServeAll(cfg, memory, stream, k, beyond).heard ::
               v.Good? && v.header.kind == WriteRequest ==> v.header.options.wide != cfg.backend.wide
    ensures ServeAll(cfg, memory, stream, k, beyond).memory == memory
    decreases |stream|
  {
    hide FirstFrame, ParsedFrame, Reaction, Spoken, Captured, Response, HasOctets, Possible;
    if stream != [] {
      var taken := FirstFrame(cfg.serial, stream);
      var first := ServeFirst(cfg, memory, taken, beyond(k));
      var later := ServeAll(cfg, first.memory, taken.rest, k + 1, beyond);
      assert Then(first, later).heard == first.heard + later.heard;
      assert taken.Whole? ==> first.heard[0] in Then(first, later).heard;
      OnlyWritesMatter(cfg, first.memory, taken.rest, k + 1, beyond);
    }
  }

  /* ---------- Requests ---------- */

  /** The requests on a channel from the i-th on are answered in order, each from memory as those in front have left it. */
  lemma {:induction false} RequestsAreServed<M>(
    cfg: Config<M>, memory: M, first: word, asked: seq<Request>, i: nat, k: nat, beyond: nat -> nat -> octet)
    requires AllFit(cfg, asked) && AllWellformed(asked) && i <= |asked|
    ensures AllSendable(Pending(first, asked, i)) && AllSendable(Replies(cfg, memory, first, asked, i, |asked|))
    ensures var before := MemoryAfter(cfg, memory, first, asked, i);
            var served := ServeAll(cfg, before, Stream(cfg.serial, Pending(first, asked, i)), k, beyond);
            && served.memory == MemoryAfter(cfg, memory, first, asked, |asked|)
            && served.spoken == Stream(cfg.serial, Replies(cfg, memory, first, asked, i, |asked|))
            && served.calls == |asked| - i && served.defined
    decreases |asked| - i
  {
    hide FirstFrame, Wellformed, Fits, Sendable, Stream, MemoryAfter, ReplyTo, Wire, ServeFirst;
    var requests, n := Pending(first, asked, i), |asked|;
    if i == n {
      EmptyStream(cfg.serial, requests);
      EmptyStream(cfg.serial, Replies(cfg, memory, first, asked, i, n));
    } else {
      RequestsAreServed(cfg, memory, first, asked, i + 1, k + 1, beyond);
      NextRequest(first, asked, i);
      FirstOfStream(cfg.serial, requests);
      EmptyStream(cfg.serial, requests);
      RepliesFromNext(cfg, memory, first, asked, i, n);
      OneServed(cfg, memory, first, asked, i, Stream(cfg.serial, requests[1..]), beyond(k));
      StreamOf(cfg.serial, Replies(cfg, memory, first, asked, i, n));
    }
  }

  lemma NextRequest(first: word, asked: seq<Request>, i: nat)
    requires i < |asked| && Wellformed(asked[i])
    requires AllSendable(Pending(first, asked, i + 1))
    ensures var requests := Pending(first, asked, i);
            && requests[0] == RequestMessage(asked[i], SequenceAt(first, i))
            && requests[1..] == Pending(first, asked, i + 1)
            && AllSendable(requests)
  {
    hide Wellformed, Sendable, RequestMessage;
    var requests := Pending(first, asked, i);
    RequestsAreSendable(asked[i], SequenceAt(first, i));
    assert requests[1..] == Pending(first, asked, i + 1);
    assert requests == [requests[0]] + requests[1..];
  }

  lemma StreamOf(serial: bool, ms: seq<Message>)
    requires AllSendable(ms) && ms != []
    ensures Stream(serial, ms) == Wire(serial, ms[0]) + Stream(serial, ms[1..])
  {
  }

  lemma OneServed<M>(
    cfg: Config<M>, memory: M, first: word, asked: seq<Request>, i: nat, rest: seq<octet>, beyond: nat -> octet)
    requires AllFit(cfg, asked) && AllWellformed(asked) && i < |asked|
    ensures var r, before := asked[i], MemoryAfter(cfg, memory, first, asked, i);
            var m := RequestMessage(r, SequenceAt(first, i));
            && Sendable(m) && Sendable(ReplyTo(cfg, memory, first, asked, i))
            && var served := ServeFirst(cfg, before, Whole(FrameOf(cfg.serial, m), rest), beyond);
               && served.memory == MemoryAfter(cfg, memory, first, asked, i + 1)
               && served.spoken == Wire(cfg.serial, ReplyTo(cfg, memory, first, asked, i))
               && served.calls == 1 && served.defined
  {
    hide Wellformed, Fits, Sendable, Wire, FrameOf, ParsedFrame, Captured, Reaction, Outcome, Answer;
    var r, before, n := asked[i], MemoryAfter(cfg, memory, first, asked, i), SequenceAt(first, i);
    RequestsAreSendable(r, n);
    FrameLength(cfg.serial, RequestMessage(r, n));
    ServedRequest(cfg, before, r, n, beyond);
    AnswerEchoes(cfg, before, r, n);
  }

  lemma NothingAskedYet<M>(
    cfg: Config<M>, memory: M, garbage: seq<octet>, first: word, asked: seq<Request>, beyond: nat -> nat -> octet)
    requires AllWellformed(asked)
    ensures var before := ServeAll(cfg, memory, garbage + [Slip.RAW_EOF], 0, beyond).memory;
            MemoryAfter(cfg, before, first, asked, 0) == before
  {
    hide ServeAll, Answer, AllWellformed;
  }

  /**
   A server on a serial line picks up after noise: whatever has been on the line, one delimiter ends it,
   and every request behind is answered exactly once and in order, from memory as the noise and the
   requests in front have left it.
   */
  lemma NoiseThenRequests<M>(
    cfg: Config<M>, memory: M, garbage: seq<octet>, first: word, asked: seq<Request>, beyond: nat -> nat -> octet)
    requires cfg.serial && AllFit(cfg, asked) && AllWellformed(asked)
    ensures var noise := ServeAll(cfg, memory, garbage + [Slip.RAW_EOF], 0, beyond);
            var n, requests, replies := |asked|, Pending(first, asked, 0), Replies(cfg, noise.memory, first, asked, 0, |asked|);
            && AllSendable(requests) && AllSendable(replies)
            && var served := ServeAll(cfg, memory, garbage + [Slip.RAW_EOF] + Stream(true, requests), 0, beyond);
               && served.spoken == noise.spoken + Stream(true, replies)
               && served.memory == MemoryAfter(cfg, noise.memory, first, asked, n)
               && served.calls == noise.calls + n && (served.defined <==> noise.defined)
  {
    hide ServeAll, Wellformed, Fits, Sendable, Stream, Pending, Replies, AllFit, AllSendable, MemoryAfter;
    NothingAskedYet(cfg, memory, garbage, first, asked, beyond);
    var noise := ServeAll(cfg, memory, garbage + [Slip.RAW_EOF], 0, beyond);
    RequestsAreServed(cfg, noise.memory, first, asked, 0, noise.calls, beyond);
    NoiseStaysApart(cfg, memory, garbage, Stream(true, Pending(first, asked, 0)), 0, beyond);
  }

  /* ---------- The server's loop ---------- */

  /** One call, on a channel that has something. */
  method ServeNext<M>(ghost cfg: Config<M>, server: Peer<M>, beyond: nat -> octet)
    requires server.serial == cfg.serial && server.capacity == cfg.capacity && server.backend == cfg.backend
    requires HasOctets(FirstFrame(cfg.serial, server.source.data))
    modifies server`memory, server.source, server.sink
    ensures var taken := FirstFrame(cfg.serial, old(server.source.data));
            var first := ServeFirst(cfg, old(server.memory), taken, beyond);
            && server.source.data == taken.rest && server.memory == first.memory
            && server.sink.data == old(server.sink.data) + first.spoken
  {
    hide FirstFrame, ParsedFrame, Captured, Reaction, Outcome, Spoken, Possible;
    var rc := server.Serve(true, beyond);
  }

  lemma FirstOfMany<M>(cfg: Config<M>, memory: M, taken: Taken, beyond: nat -> octet, done: Served<M>, later: Served<M>)
    requires Then(done, Then(ServeFirst(cfg, memory, taken, beyond), later)).defined
    ensures HasOctets(taken)
    ensures var first := ServeFirst(cfg, memory, taken, beyond);
            && Then(done, first).memory == first.memory && Then(done, first).calls == done.calls + 1
            && forall before :: before + done.spoken + first.spoken == before + Then(done, first).spoken
  {
    hide ParsedFrame, Captured, Reaction, Outcome, Spoken, Possible;
  }

  /** Receive and process until there is nothing left. */
  method ServeEverything<M>(ghost cfg: Config<M>, server: Peer<M>, beyond: nat -> nat -> octet) returns (calls: nat)
    requires server.serial == cfg.serial && server.capacity == cfg.capacity && server.backend == cfg.backend
    requires ServeAll(cfg, server.memory, server.source.data, 0, beyond).defined
    modifies server`memory, server.source, server.sink
    ensures var served := ServeAll(cfg, old(server.memory), old(server.source.data), 0, beyond);
            && server.source.data == [] && server.memory == served.memory && calls == served.calls
            && server.sink.data == old(server.sink.data) + served.spoken
  {
    hide FirstFrame, ServeFirst, Then;
    calls := 0;
    ghost var whole := ServeAll(cfg, server.memory, server.source.data, 0, beyond);
    ghost var done := Served(server.memory, [], [], 0, true);
    NothingThen(done, server.memory);
    while server.source.data != []
      invariant whole == Then(done, ServeAll(cfg, server.memory, server.source.data, calls, beyond))
      invariant done.memory == server.memory && done.calls == calls && whole.defined
      invariant server.sink.data == old(server.sink.data) + done.spoken
      decreases |server.source.data|
    {
      ghost var stream, memory, sent := server.source.data, server.memory, server.sink.data;
      ghost var taken := FirstFrame(cfg.serial, stream);
      ghost var first := ServeFirst(cfg, memory, taken, beyond(calls));
      ghost var later := ServeAll(cfg, first.memory, taken.rest, calls + 1, beyond);
      ThenThen(done, first, later);
      FirstOfMany(cfg, memory, taken, beyond(calls), done, later);
      ServeNext(cfg, server, beyond(calls));
      done := Then(done, first);
      calls := calls + 1;
    }
    NothingMore(done, ServeAll(cfg, server.memory, [], calls, beyond));
  }
}
