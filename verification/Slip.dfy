/** SLIP framing (RFC 1055) with the optional start-of-frame delimiter. */
module Slip {
  import opened Octets
  import opened Streams

  const RAW_EOF: octet := 0xc0
  const RAW_ESC: octet := 0xdb
  const ESC_EOF: octet := 0xdc
  const ESC_ESC: octet := 0xdd

  datatype State = SearchForStart | SearchForEnd | Normal

  datatype Outcome = Frame | BadSequence | NoData

  /** What one decoder call does: its verdict, the state it leaves, what it put out, what it left. */
  datatype Decoded = Decoded(outcome: Outcome, state: State, output: seq<octet>, rest: seq<octet>)

  function StartState(sof: bool): State {
    if sof then SearchForStart else Normal
  }

  /* ---------- Encoding ---------- */

  function EncodeOctet(d: octet): (code: seq<octet>)
    ensures 1 <= |code| <= 2 && RAW_EOF !in code
  {
    if d == RAW_ESC then [RAW_ESC, ESC_ESC] else if d == RAW_EOF then [RAW_ESC, ESC_EOF] else [d]
  }

  function Body(payload: seq<octet>): seq<octet> {
    if payload == [] then [] else EncodeOctet(payload[0]) + Body(payload[1..])
  }

  function Opening(sof: bool): seq<octet> {
    if sof then [RAW_EOF] else []
  }

  function Encode(sof: bool, payload: seq<octet>): seq<octet> {
    Opening(sof) + Body(payload) + [RAW_EOF]
  }

  function EncodeAll(sof: bool, payloads: seq<seq<octet>>): seq<octet> {
    if payloads == [] then [] else Encode(sof, payloads[0]) + EncodeAll(sof, payloads[1..])
  }

  /* ---------- Decoding ---------- */

  /** What the next one or two octets of a frame stand for. */
  datatype Token = Datum(octet: octet, length: nat) | EndOfFrame | BadEscape(second: octet) | Incomplete

  function DecodeOctet(input: seq<octet>): (t: Token)
    requires input != []
    ensures t.Datum? ==> 1 <= t.length <= |input|
    ensures t.BadEscape? ==> |input| >= 2
  {
    if input[0] == RAW_EOF then EndOfFrame
    else if input[0] != RAW_ESC then Datum(input[0], 1)
    else if |input| == 1 then Incomplete
    else if input[1] == ESC_EOF then Datum(RAW_EOF, 2)
    else if input[1] == ESC_ESC then Datum(RAW_ESC, 2)
    else BadEscape(input[1])
  }

  function Emit(d: octet, r: Decoded): Decoded {
    r.(output := [d] + r.output)
  }

  function AfterBadEscape(sof: bool, second: octet): State {
    if second != RAW_EOF then SearchForEnd else StartState(sof)
  }

  /** The state after one octet outside a frame. */
  function Transition(sof: bool, state: State, octet: octet): State
    requires state != Normal
  {
    if octet != RAW_EOF then SearchForEnd
    else if state == SearchForStart then Normal
    else StartState(sof)
  }

  /** One call of the decoder: it runs to the end of a frame, a bad sequence, or the end of input. */
  function Decode(sof: bool, state: State, input: seq<octet>): (r: Decoded)
    ensures |r.rest| <= |input|
    ensures r.outcome != NoData ==> |r.rest| < |input|
    ensures r.outcome == NoData ==> r.rest == []
    decreases |input|
  {
    if input == [] then Decoded(NoData, state, [], [])
    else if state == SearchForStart && input[0] != RAW_EOF then
      Decoded(BadSequence, SearchForEnd, [], input[1..])
    else if state != Normal then Decode(sof, Transition(sof, state, input[0]), input[1..])
    else
      match DecodeOctet(input)
      case Datum(d, n) => Emit(d, Decode(sof, Normal, input[n..]))
      case EndOfFrame => Decoded(Frame, StartState(sof), [], input[1..])
      case BadEscape(second) => Decoded(BadSequence, AfterBadEscape(sof, second), [], input[2..])
      case Incomplete => Decoded(NoData, Normal, [], [])
  }

  datatype Event = Delivered(payload: seq<octet>) | Malformed

  datatype Log = Log(events: seq<Event>, state: State)

  function EventOf(r: Decoded): Event {
    if r.outcome == Frame then Delivered(r.output) else Malformed
  }

  /** The verdicts of calling the decoder again and again until the input is used up. */
  function DecodeAll(sof: bool, state: State, input: seq<octet>): Log
    decreases |input|
  {
    var r := Decode(sof, state, input);
    if r.outcome == NoData then Log([], r.state)
    else
      var later := DecodeAll(sof, r.state, r.rest);
      Log([EventOf(r)] + later.events, later.state)
  }

  function AllDelivered(payloads: seq<seq<octet>>): seq<Event> {
    seq(|payloads|, i requires 0 <= i < |payloads| => Delivered(payloads[i]))
  }

  /* ---------- One frame ---------- */

  /** The encoded body is free of delimiters and at most twice as long as the payload. */
  lemma {:induction false} BodyShape(payload: seq<octet>)
    ensures RAW_EOF !in Body(payload)
    ensures |payload| <= |Body(payload)| <= 2 * |payload|
  {
    if payload != [] {
      BodyShape(payload[1..]);
    }
  }

  /** A frame has its delimiters at the ends and nowhere else, within the documented worst case. */
  lemma EncodeShape(sof: bool, payload: seq<octet>)
    ensures var code := Encode(sof, payload);
            && |payload| < |code| <= 2 * |payload| + (if sof then 2 else 1)
            && forall i :: 0 <= i < |code| ==> (code[i] == RAW_EOF <==> i == |code| - 1 || (sof && i == 0))
  {
    BodyShape(payload);
    var open, body, code := Opening(sof), Body(payload), Encode(sof, payload);
    forall i | 0 <= i < |code|
      ensures code[i] == RAW_EOF <==> i == |code| - 1 || (sof && i == 0)
    {
      if |open| <= i < |code| - 1 {
        assert code[i] == body[i - |open|];
      }
    }
  }

  lemma DecodeEncodedOctet(d: octet, tail: seq<octet>)
    ensures DecodeOctet(EncodeOctet(d) + tail) == Datum(d, |EncodeOctet(d)|)
  {
  }

  lemma EncodeDecodedOctet(input: seq<octet>)
    requires input != [] && DecodeOctet(input).Datum?
    ensures var t := DecodeOctet(input); input[..t.length] == EncodeOctet(t.octet)
  {
  }

  /** The token at the front of some input is still there when more input follows. */
  lemma TokenStays(input: seq<octet>, tail: seq<octet>)
    requires input != [] && !DecodeOctet(input).Incomplete?
    ensures DecodeOctet(input + tail) == DecodeOctet(input)
  {
  }

  lemma {:induction false} DecodeBody(sof: bool, payload: seq<octet>, input: seq<octet>, tail: seq<octet>)
    requires input == Body(payload) + ([RAW_EOF] + tail)
    ensures Decode(sof, Normal, input) == Decoded(Frame, StartState(sof), payload, tail)
    decreases |payload|
  {
    hide EncodeOctet;
    if payload == [] {
      assert input == [RAW_EOF] + tail;
    } else {
      hide DecodeOctet;
      var code := EncodeOctet(payload[0]);
      var rest := Body(payload[1..]) + ([RAW_EOF] + tail);
      assert input == code + rest;
      DecodeEncodedOctet(payload[0], rest);
      assert input[|code|..] == rest;
      DecodeBody(sof, payload[1..], rest, tail);
    }
  }

  lemma FrameAndTail(sof: bool, payload: seq<octet>, tail: seq<octet>)
    ensures Encode(sof, payload) + tail == Opening(sof) + (Body(payload) + ([RAW_EOF] + tail))
  {
    hide Body, Opening;
  }

  /** Decoding a frame returns its payload and leaves exactly what follows it. */
  lemma RoundTrip(sof: bool, payload: seq<octet>, tail: seq<octet>)
    ensures Decode(sof, StartState(sof), Encode(sof, payload) + tail)
         == Decoded(Frame, StartState(sof), payload, tail)
  {
    var framed := Body(payload) + ([RAW_EOF] + tail);
    FrameAndTail(sof, payload, tail);
    DecodeBody(sof, payload, framed, tail);
    hide Body, Encode;
    if sof {
      assert ([RAW_EOF] + framed)[1..] == framed;
    } else {
      assert [] + framed == framed;
    }
  }

  lemma Regroup(a: seq<octet>, b: seq<octet>, c: seq<octet>)
    ensures (a + b) + c == a + (b + c)
  {
  }

  lemma BodyOfMore(d: octet, payload: seq<octet>)
    ensures Body([d] + payload) == EncodeOctet(d) + Body(payload)
  {
    assert ([d] + payload)[1..] == payload;
  }

  lemma {:induction false} DecodedBody(sof: bool, input: seq<octet>)
    requires Decode(sof, Normal, input).outcome == Frame
    ensures var r := Decode(sof, Normal, input); input == Body(r.output) + ([RAW_EOF] + r.rest)
    decreases |input|
  {
    hide EncodeOctet, Body;
    if DecodeOctet(input).Datum? {
      hide DecodeOctet;
      var t := DecodeOctet(input);
      var r, later := Decode(sof, Normal, input), Decode(sof, Normal, input[t.length..]);
      DecodedBody(sof, input[t.length..]);
      EncodeDecodedOctet(input);
      BodyOfMore(t.octet, later.output);
      Regroup(EncodeOctet(t.octet), Body(later.output), [RAW_EOF] + later.rest);
      assert r == Emit(t.octet, later);
      assert input == input[..t.length] + input[t.length..];
    } else {
      EmptyBody([RAW_EOF] + input[1..]);
      assert input == [RAW_EOF] + input[1..];
    }
  }

  /** A frame decodes to a payload only if it is that payload's encoding: no two streams look alike. */
  lemma DecodeInverts(sof: bool, input: seq<octet>, payload: seq<octet>, tail: seq<octet>)
    ensures Decode(sof, StartState(sof), input) == Decoded(Frame, StartState(sof), payload, tail)
       <==> input == Encode(sof, payload) + tail
  {
    hide Body, Encode, Decode;
    if input == Encode(sof, payload) + tail {
      RoundTrip(sof, payload, tail);
    }
    if Decode(sof, StartState(sof), input) == Decoded(Frame, StartState(sof), payload, tail) {
      var body := PastOpening(sof, input);
      DecodedBody(sof, body);
      FrameAndTail(sof, payload, tail);
    }
  }

  /** Where a frame is decoded, its opening stands in front. */
  lemma PastOpening(sof: bool, input: seq<octet>) returns (body: seq<octet>)
    requires Decode(sof, StartState(sof), input).outcome == Frame
    ensures input == Opening(sof) + body && Decode(sof, Normal, body) == Decode(sof, StartState(sof), input)
  {
    body := if sof then input[1..] else input;
    if sof {
      assert input == [RAW_EOF] + body;
    } else {
      assert [] + body == body;
    }
  }

  /* ---------- The octets of RFC 1055 ---------- */

  /** END is 192 and ESC is 219; inside of a frame they are 219, 220 and 219, 221. */
  lemma FramedOctet(d: octet)
    ensures Encode(false, [d]) == (if d == 0xc0 then [0xdb, 0xdc] else if d == 0xdb then [0xdb, 0xdd] else [d]) + [0xc0]
    ensures Encode(true, [d]) == [0xc0] + Encode(false, [d])
  {
    BodyOfMore(d, []);
    EmptyBody([]);
    assert [d] + [] == [d];
  }

  /** The octets of a payload are framed one by one. */
  lemma {:induction false} BodyInTurn(a: seq<octet>, b: seq<octet>)
    ensures Body(a + b) == Body(a) + Body(b)
    decreases |a|
  {
    hide EncodeOctet;
    if a == [] {
      assert a + b == b;
    } else {
      assert (a + b)[1..] == a[1..] + b;
      BodyInTurn(a[1..], b);
      Regroup(EncodeOctet(a[0]), Body(a[1..]), Body(b));
    }
  }

  /** Between an END in front, with start-of-frame only, and one behind. */
  lemma FramedInTurn(sof: bool, a: seq<octet>, b: seq<octet>)
    ensures Encode(sof, a + b) == (if sof then [0xc0] else []) + (Body(a) + Body(b)) + [0xc0]
  {
    hide Body;
    BodyInTurn(a, b);
  }

  /** Behind 219 only 220 and 221 are legal; the decoder then waits for the end of the frame, unless it was this. */
  lemma IllegalEscape(sof: bool, second: octet, tail: seq<octet>)
    requires second != 0xdc && second != 0xdd
    ensures Decode(sof, Normal, [0xdb, second] + tail)
         == Decoded(BadSequence, if second != 0xc0 then SearchForEnd else if sof then SearchForStart else Normal, [], tail)
  {
    assert ([0xdb, second] + tail)[2..] == tail;
  }

  /** Where a frame has to start, anything but 192 is refused; everything up to 192 is skipped behind that. */
  lemma OutsideOfFrames(sof: bool, d: octet, tail: seq<octet>)
    ensures d != 0xc0 ==> Decode(sof, SearchForStart, [d] + tail) == Decoded(BadSequence, SearchForEnd, [], tail)
    ensures Decode(sof, SearchForStart, [0xc0] + tail) == Decode(sof, Normal, tail)
    ensures d != 0xc0 ==> Decode(sof, SearchForEnd, [d] + tail) == Decode(sof, SearchForEnd, tail)
    ensures Decode(sof, SearchForEnd, [0xc0] + tail) == Decode(sof, if sof then SearchForStart else Normal, tail)
  {
    assert ([d] + tail)[1..] == tail && ([0xc0] + tail)[1..] == tail;
  }

  /* ---------- Streams of frames ---------- */

  /** A decoder at a frame boundary delivers every frame of a stream, in order, and nothing else. */
  lemma {:induction false} StreamRoundTrip(sof: bool, payloads: seq<seq<octet>>)
    ensures DecodeAll(sof, StartState(sof), EncodeAll(sof, payloads))
         == Log(AllDelivered(payloads), StartState(sof))
    decreases |payloads|
  {
    hide Encode, Decode, AllDelivered;
    FirstDelivered(payloads);
    if payloads == [] {
      NothingLeft(sof, StartState(sof));
    } else {
      RoundTrip(sof, payloads[0], EncodeAll(sof, payloads[1..]));
      StreamRoundTrip(sof, payloads[1..]);
    }
  }

  lemma FirstDelivered(payloads: seq<seq<octet>>)
    ensures AllDelivered(payloads)
         == if payloads == [] then [] else [Delivered(payloads[0])] + AllDelivered(payloads[1..])
  {
  }

  /**
   A call that reads garbage up to a delimiter either returns on the way, and does so whatever
   follows, or passes the delimiter with nothing put out and continues with what follows.
   */
  ghost predicate PassesDelimiter(sof: bool, state: State, garbage: seq<octet>, tail: seq<octet>) {
    var r := Decode(sof, state, garbage + [RAW_EOF]);
    var s := Decode(sof, state, garbage + ([RAW_EOF] + tail));
    if r.outcome == NoData then
      && state != Normal
      && (r.state == Normal || r.state == StartState(sof))
      && r.output == []
      && s == Decode(sof, r.state, tail)
    else
      && s == r.(rest := r.rest + tail)
      && (r.rest == [] ==> r.state == StartState(sof))
      && (r.rest != [] ==> r.rest[|r.rest| - 1] == RAW_EOF)
  }

  lemma {:induction false} CallThroughGarbage(sof: bool, state: State, garbage: seq<octet>, tail: seq<octet>)
    ensures PassesDelimiter(sof, state, garbage, tail)
    decreases |garbage|
  {
    hide DecodeOctet, PassesDelimiter, Decode;
    if garbage == [] {
      DelimiterAlone(sof, state, tail);
    } else if state == SearchForStart && garbage[0] != RAW_EOF {
      GarbageAtStart(sof, garbage, tail);
    } else if state != Normal {
      CallThroughGarbage(sof, Transition(sof, state, garbage[0]), garbage[1..], tail);
      GarbageOutside(sof, state, garbage, tail);
    } else {
      TokenInGarbage(garbage);
      var token := DecodeOctet(garbage + [RAW_EOF]);
      if token.Datum? {
        CallThroughGarbage(sof, Normal, garbage[token.length..], tail);
        GarbageDatum(sof, garbage, tail);
      } else if token.EndOfFrame? {
        GarbageEnd(sof, garbage, tail);
      } else {
        GarbageBadEscape(sof, garbage, tail);
      }
    }
  }

  lemma GarbageAtStart(sof: bool, garbage: seq<octet>, tail: seq<octet>)
    requires garbage != [] && garbage[0] != RAW_EOF
    ensures PassesDelimiter(sof, SearchForStart, garbage, tail)
  {
    GarbageSuffix(garbage, 1, tail);
  }

  lemma GarbageOutside(sof: bool, state: State, garbage: seq<octet>, tail: seq<octet>)
    requires garbage != [] && state != Normal && (state == SearchForStart ==> garbage[0] == RAW_EOF)
    requires PassesDelimiter(sof, Transition(sof, state, garbage[0]), garbage[1..], tail)
    ensures PassesDelimiter(sof, state, garbage, tail)
  {
    GarbageSuffix(garbage, 1, tail);
  }

  lemma GarbageDatum(sof: bool, garbage: seq<octet>, tail: seq<octet>)
    requires garbage != [] && DecodeOctet(garbage + [RAW_EOF]).Datum?
    requires DecodeOctet(garbage + [RAW_EOF]).length <= |garbage|
    requires PassesDelimiter(sof, Normal, garbage[DecodeOctet(garbage + [RAW_EOF]).length..], tail)
    ensures PassesDelimiter(sof, Normal, garbage, tail)
  {
    hide DecodeOctet;
    TokenStaysInGarbage(garbage, tail);
    GarbageSuffix(garbage, DecodeOctet(garbage + [RAW_EOF]).length, tail);
  }

  lemma GarbageEnd(sof: bool, garbage: seq<octet>, tail: seq<octet>)
    requires garbage != [] && DecodeOctet(garbage + [RAW_EOF]).EndOfFrame?
    ensures PassesDelimiter(sof, Normal, garbage, tail)
  {
    hide DecodeOctet;
    TokenStaysInGarbage(garbage, tail);
    GarbageSuffix(garbage, 1, tail);
  }

  lemma GarbageBadEscape(sof: bool, garbage: seq<octet>, tail: seq<octet>)
    requires garbage != [] && DecodeOctet(garbage + [RAW_EOF]).BadEscape?
    requires |garbage| == 1 ==> DecodeOctet(garbage + [RAW_EOF]).second == RAW_EOF
    ensures PassesDelimiter(sof, Normal, garbage, tail)
  {
    hide DecodeOctet;
    TokenStaysInGarbage(garbage, tail);
    if |garbage| == 1 {
      assert (garbage + ([RAW_EOF] + tail))[2..] == tail && (garbage + [RAW_EOF])[2..] == [];
    } else {
      GarbageSuffix(garbage, 2, tail);
    }
  }

  lemma TokenStaysInGarbage(garbage: seq<octet>, tail: seq<octet>)
    requires !DecodeOctet(garbage + [RAW_EOF]).Incomplete?
    ensures DecodeOctet(garbage + ([RAW_EOF] + tail)) == DecodeOctet(garbage + [RAW_EOF])
  {
    hide DecodeOctet;
    Regroup(garbage, [RAW_EOF], tail);
    TokenStays(garbage + [RAW_EOF], tail);
  }

  lemma DelimiterAlone(sof: bool, state: State, tail: seq<octet>)
    ensures PassesDelimiter(sof, state, [], tail)
  {
    assert [] + [RAW_EOF] == [RAW_EOF] && [] + ([RAW_EOF] + tail) == [RAW_EOF] + tail;
    assert ([RAW_EOF] + tail)[1..] == tail;
  }

  /** What is left after the first n octets of garbage. */
  lemma GarbageSuffix(garbage: seq<octet>, n: nat, tail: seq<octet>)
    requires n <= |garbage|
    ensures (garbage + [RAW_EOF])[n..] == garbage[n..] + [RAW_EOF]
    ensures (garbage + ([RAW_EOF] + tail))[n..] == garbage[n..] + ([RAW_EOF] + tail)
    ensures garbage[n..] + ([RAW_EOF] + tail) == (garbage[n..] + [RAW_EOF]) + tail
  {
  }

  /** The delimiter is never taken for data, and behind an escape it is seen for what it is. */
  lemma TokenInGarbage(garbage: seq<octet>)
    requires garbage != []
    ensures match DecodeOctet(garbage + [RAW_EOF])
            case Datum(_, n) => n <= |garbage|
            case EndOfFrame => true
            case BadEscape(second) => |garbage| == 1 ==> second == RAW_EOF
            case Incomplete => false
  {
  }

  /** However the garbage is read, one delimiter ends it and what follows is decoded on its own. */
  lemma {:induction false} DelimiterEndsGarbage(sof: bool, state: State, garbage: seq<octet>, tail: seq<octet>)
    ensures var noise := DecodeAll(sof, state, garbage + [RAW_EOF]);
            var later := DecodeAll(sof, noise.state, tail);
            && (noise.state == Normal || noise.state == StartState(sof))
            && DecodeAll(sof, state, garbage + ([RAW_EOF] + tail))
               == Log(noise.events + later.events, later.state)
    decreases |garbage|
  {
    CallThroughGarbage(sof, state, garbage, tail);
    var r := Decode(sof, state, garbage + [RAW_EOF]);
    hide Decode;
    if r.outcome != NoData {
      var less := if r.rest == [] then [] else r.rest[..|r.rest| - 1];
      if r.rest == [] {
        NothingLeft(sof, r.state);
        assert r.rest + tail == tail;
      } else {
        assert r.rest == less + [RAW_EOF];
        Regroup(less, [RAW_EOF], tail);
        DelimiterEndsGarbage(sof, r.state, less, tail);
      }
      EventFirst(EventOf(r), DecodeAll(sof, r.state, r.rest).events, DecodeAll(sof, DecodeAll(sof, r.state, r.rest).state, tail).events);
    } else {
      NoEvents(DecodeAll(sof, r.state, tail).events);
    }
  }

  lemma EventFirst(event: Event, a: seq<Event>, b: seq<Event>)
    ensures [event] + (a + b) == ([event] + a) + b
    ensures a == [] ==> a + b == b
  {
  }

  lemma NoEvents(b: seq<Event>)
    ensures [] + b == b
  {
  }

  lemma NothingLeft(sof: bool, state: State)
    ensures DecodeAll(sof, state, []) == Log([], state)
  {
  }

  /**
   Classic mode re-synchronises: from any decoder state, after any garbage and one delimiter, every
   frame that follows is delivered.
   */
  lemma ClassicResynchronises(state: State, garbage: seq<octet>, payloads: seq<seq<octet>>)
    ensures var noise := DecodeAll(false, state, garbage + [RAW_EOF]);
            DecodeAll(false, state, garbage + ([RAW_EOF] + EncodeAll(false, payloads)))
            == Log(noise.events + AllDelivered(payloads), Normal)
  {
    hide Decode, DecodeAll, EncodeAll;
    DelimiterEndsGarbage(false, state, garbage, EncodeAll(false, payloads));
    StreamRoundTrip(false, payloads);
  }

  lemma {:induction false} SkipToDelimiter(s: seq<octet>, input: seq<octet>, tail: seq<octet>)
    requires RAW_EOF !in s
    requires input == s + ([RAW_EOF] + tail)
    ensures Decode(true, SearchForEnd, input) == Decode(true, SearchForStart, tail)
    decreases |s|
  {
    if s == [] {
      assert input[1..] == tail;
    } else {
      SkipToDelimiter(s[1..], input[1..], tail);
    }
  }

  /** A decoder that took a frame's opening delimiter for a closing one skips over that frame. */
  lemma OutOfStep(payload: seq<octet>, tail: seq<octet>)
    requires payload != []
    ensures DecodeAll(true, SearchForStart, Body(payload) + ([RAW_EOF] + tail))
         == var later := DecodeAll(true, SearchForStart, tail);
            Log([Malformed] + later.events, later.state)
  {
    BodyShape(payload);
    var body := Body(payload);
    var input := body + ([RAW_EOF] + tail);
    assert input[0] == body[0] && body[0] in body;
    assert input[1..] == body[1..] + ([RAW_EOF] + tail);
    SkipToDelimiter(body[1..], input[1..], tail);
  }

  /** A decoder in step with a stream delivers the frame at its front. */
  lemma InStep(sof: bool, payload: seq<octet>, tail: seq<octet>)
    ensures DecodeAll(sof, Normal, Body(payload) + ([RAW_EOF] + tail))
         == var later := DecodeAll(sof, StartState(sof), tail);
            Log([Delivered(payload)] + later.events, later.state)
  {
    hide Decode, Body;
    DecodeBody(sof, payload, Body(payload) + ([RAW_EOF] + tail), tail);
  }

  lemma FirstFrame(first: seq<octet>, others: seq<seq<octet>>)
    ensures EncodeAll(true, [first] + others) == [RAW_EOF] + (Body(first) + ([RAW_EOF] + EncodeAll(true, others)))
  {
    hide Body;
    assert ([first] + others)[1..] == others;
    FrameAndTail(true, first, EncodeAll(true, others));
  }

  /** The index of the first frame that is not empty, or the number of frames if all of them are. */
  function LeadingEmpty(payloads: seq<seq<octet>>): (k: nat)
    ensures k <= |payloads|
    ensures forall i :: 0 <= i < k ==> payloads[i] == []
    ensures k < |payloads| ==> payloads[k] != []
  {
    if payloads == [] || payloads[0] != [] then 0 else 1 + LeadingEmpty(payloads[1..])
  }

  /** What a stream of frames comes to for a decoder that has just passed its first delimiter. */
  function HeardOpened(inStep: bool, payloads: seq<seq<octet>>): Log
    requires payloads != []
  {
    var all, k := AllDelivered(payloads), LeadingEmpty(payloads);
    if inStep then Log(all, SearchForStart)
    else if k < |payloads| then Log(all[k := Malformed], SearchForStart)
    else Log(all[..|payloads| - 1], Normal)
  }

  lemma {:induction false} OpenedStream(state: State, payloads: seq<seq<octet>>, stream: seq<octet>)
    requires payloads != [] && (state == Normal || state == SearchForStart)
    requires EncodeAll(true, payloads) == [RAW_EOF] + stream
    ensures DecodeAll(true, state, stream) == HeardOpened(state == Normal, payloads)
    decreases |payloads|
  {
    hide Decode, DecodeAll, EncodeAll, Body, HeardOpened, AllDelivered;
    var first, others := payloads[0], payloads[1..];
    var others' := EncodeAll(true, others);
    assert payloads == [first] + others;
    FirstFrame(first, others);
    SameTail(stream, Body(first) + ([RAW_EOF] + others'));
    HeardFirst(payloads);
    if state == Normal {
      InStep(true, first, others');
      StreamRoundTrip(true, others);
    } else if first != [] {
      OutOfStep(first, others');
      StreamRoundTrip(true, others);
    } else if others == [] {
      LastEmptyFrame(others');
    } else {
      var second, more := others[0], others[1..];
      assert others == [second] + more;
      FirstFrame(second, more);
      var tail := Body(second) + ([RAW_EOF] + EncodeAll(true, more));
      EmptyBody([RAW_EOF] + others');
      EmptyFrameBehind(tail);
      OpenedStream(state, others, tail);
      LostLater(payloads);
    }
  }

  lemma SameTail(a: seq<octet>, b: seq<octet>)
    requires [RAW_EOF] + a == [RAW_EOF] + b
    ensures a == b
  {
    assert ([RAW_EOF] + a)[1..] == a && ([RAW_EOF] + b)[1..] == b;
  }

  /** In step all is delivered; out of step a first frame with anything in it is lost, and so is a single empty one. */
  lemma HeardFirst(payloads: seq<seq<octet>>)
    requires payloads != []
    ensures HeardOpened(true, payloads) == Log([Delivered(payloads[0])] + AllDelivered(payloads[1..]), SearchForStart)
    ensures payloads[0] != [] ==>
              HeardOpened(false, payloads) == Log([Malformed] + AllDelivered(payloads[1..]), SearchForStart)
    ensures payloads[0] == [] && |payloads| == 1 ==> HeardOpened(false, payloads) == Log([], Normal)
  {
    FirstDelivered(payloads);
  }

  /** What is lost of a stream behind an empty frame is lost of the whole. */
  lemma LostLater(payloads: seq<seq<octet>>)
    requires |payloads| > 1 && payloads[0] == []
    ensures var later := HeardOpened(false, payloads[1..]);
            HeardOpened(false, payloads) == Log([Delivered([])] + later.events, later.state)
  {
    FirstDelivered(payloads);
  }

  lemma EmptyBody(tail: seq<octet>)
    ensures Body([]) + tail == tail
  {
  }

  /** Out of step, the closing delimiter of an empty frame and the next opening one are taken for an empty frame. */
  lemma EmptyFrameBehind(tail: seq<octet>)
    ensures DecodeAll(true, SearchForStart, [RAW_EOF] + ([RAW_EOF] + tail))
         == var later := DecodeAll(true, SearchForStart, tail);
            Log([Delivered([])] + later.events, later.state)
  {
    var second := [RAW_EOF] + tail;
    var input := [RAW_EOF] + second;
    assert input[1..] == second && second[1..] == tail;
    assert Decode(true, Normal, second) == Decoded(Frame, SearchForStart, [], tail);
    assert Decode(true, SearchForStart, input) == Decode(true, Normal, second);
  }

  /** Out of step, the closing delimiter of a last empty frame is taken for an opening one. */
  lemma LastEmptyFrame(nothing: seq<octet>)
    requires nothing == EncodeAll(true, [])
    ensures DecodeAll(true, SearchForStart, Body([]) + ([RAW_EOF] + nothing)) == Log([], Normal)
  {
    var input := [RAW_EOF];
    assert Body([]) + ([RAW_EOF] + nothing) == input;
    assert input[1..] == [];
    assert Decode(true, Normal, []) == Decoded(NoData, Normal, [], []);
    assert Decode(true, SearchForStart, input) == Decoded(NoData, Normal, [], []);
  }

  /**
   Start-of-frame mode re-synchronises: from any decoder state and after any garbage, a stream of frames
   loses at most one of them. That is its first frame with anything in it, which comes out as a bad
   sequence, or one of the frames if all of them are empty.
   */
  lemma SofResynchronises(state: State, garbage: seq<octet>, payloads: seq<seq<octet>>)
    requires payloads != []
    ensures var noise := DecodeAll(true, state, garbage + [RAW_EOF]);
            var heard := HeardOpened(noise.state == Normal, payloads);
            DecodeAll(true, state, garbage + EncodeAll(true, payloads)) == Log(noise.events + heard.events, heard.state)
  {
    hide Decode, DecodeAll, EncodeAll, Body;
    var first, others := payloads[0], payloads[1..];
    assert payloads == [first] + others;
    FirstFrame(first, others);
    var stream := Body(first) + ([RAW_EOF] + EncodeAll(true, others));
    DelimiterEndsGarbage(true, state, garbage, stream);
    OpenedStream(DecodeAll(true, state, garbage + [RAW_EOF]).state, payloads, stream);
  }

  /** For instance, frames of which the first m are empty and the next one is not. */
  lemma LeadingEmptyFrames(state: State, garbage: seq<octet>, m: nat, first: seq<octet>, others: seq<seq<octet>>)
    requires first != []
    ensures var noise := DecodeAll(true, state, garbage + [RAW_EOF]);
            var empty: seq<seq<octet>> := seq(m, _ => []);
            var lost := if noise.state == Normal then Delivered(first) else Malformed;
            DecodeAll(true, state, garbage + EncodeAll(true, empty + ([first] + others)))
            == Log(noise.events + (AllDelivered(empty) + ([lost] + AllDelivered(others))), SearchForStart)
  {
    hide Decode, DecodeAll, EncodeAll, Body;
    var empty: seq<seq<octet>> := seq(m, _ => []);
    var payloads := empty + ([first] + others);
    SofResynchronises(state, garbage, payloads);
    FirstBehindEmpty(payloads, m);
    assert AllDelivered(payloads) == AllDelivered(empty) + ([Delivered(first)] + AllDelivered(others));
  }

  lemma FirstBehindEmpty(payloads: seq<seq<octet>>, m: nat)
    requires m < |payloads| && payloads[m] != [] && forall i :: 0 <= i < m ==> payloads[i] == []
    ensures LeadingEmpty(payloads) == m
  {
  }

  lemma FrameParts(sof: bool, before: seq<octet>, payload: seq<octet>)
    ensures ((before + Opening(sof)) + Body(payload)) + [RAW_EOF] == before + Encode(sof, payload)
  {
    hide Body, Opening;
  }

  /* ---------- The codec's entry points ---------- */

  class Context {
    const withSof: bool
    var state: State

    constructor (withSof: bool)
      ensures this.withSof == withSof && state == StartState(withSof)
    {
      this.withSof := withSof;
      state := StartState(withSof);
    }

    /** Frame everything the source has to give. */
    method EncodeFrame(source: Source, sink: Sink)
      modifies source, sink
      ensures source.data == []
      ensures sink.data == old(sink.data) + Encode(withSof, old(source.data))
    {
      ghost var payload, before := source.data, sink.data;
      if withSof {
        sink.PutOctet(RAW_EOF);
      }
      ghost var start := sink.data;
      assert start == before + Opening(withSof);
      var got, data := source.GetOctet();
      while got
        invariant sink.data + Body(if got then [data] + source.data else []) == start + Body(payload)
        invariant !got ==> source.data == []
        decreases if got then 1 + |source.data| else 0
      {
        hide EncodeOctet, Body;
        BodyOfMore(data, source.data);
        Regroup(sink.data, EncodeOctet(data), Body(source.data));
        sink.PutChunk(EncodeOctet(data));
        got, data := source.GetOctet();
      }
      sink.PutOctet(RAW_EOF);
      FrameParts(withSof, before, payload);
    }

    /** Decode up to the end of a frame, a bad sequence, or the end of the input. */
    method DecodeFrame(source: Source, sink: Sink) returns (outcome: Outcome)
      modifies this, source, sink
      ensures Decoded(outcome, state, sink.data, source.data)
           == PutBehind(old(sink.data), Decode(withSof, old(state), old(source.data)))
    {
      hide Decode, PutBehind, AfterBadEscape;
      ghost var goal := PutBehind(sink.data, Decode(withSof, state, source.data));
      while true
        invariant PutBehind(sink.data, Decode(withSof, state, source.data)) == goal
        decreases |source.data|
      {
        ghost var before, input := sink.data, source.data;
        DecodeStep(withSof, state, input, before);
        var got, data := source.GetOctet();
        if !got {
          return NoData;
        }
        match state {
          case SearchForStart =>
            if data == RAW_EOF {
              state := Normal;
            } else {
              state := SearchForEnd;
              return BadSequence;
            }
          case SearchForEnd =>
            if data == RAW_EOF {
              state := StartState(withSof);
            }
          case Normal =>
            if data == RAW_EOF {
              if withSof {
                state := SearchForStart;
              }
              return Frame;
            }
            if data == RAW_ESC {
              var more, second := source.GetOctet();
              if !more {
                return NoData;
              }
              if second == ESC_EOF {
                data := RAW_EOF;
              } else if second == ESC_ESC {
                data := RAW_ESC;
              } else {
                state := AfterBadEscape(withSof, second);
                return BadSequence;
              }
            }
            sink.PutOctet(data);
        }
      }
    }
  }

  /** What a call decodes, put behind what a sink holds already. */
  function PutBehind(before: seq<octet>, r: Decoded): Decoded {
    r.(output := before + r.output)
  }

  /** One step of a call, with what it returns or how it goes on. */
  lemma DecodeStep(sof: bool, state: State, input: seq<octet>, before: seq<octet>)
    ensures input == [] ==> PutBehind(before, Decode(sof, state, input)) == Decoded(NoData, state, before, [])
    ensures input != [] && state == SearchForStart && input[0] != RAW_EOF ==>
              PutBehind(before, Decode(sof, state, input)) == Decoded(BadSequence, SearchForEnd, before, input[1..])
    ensures input != [] && state != Normal && (state == SearchForStart ==> input[0] == RAW_EOF) ==>
              Decode(sof, state, input) == Decode(sof, Transition(sof, state, input[0]), input[1..])
    ensures input != [] && state == Normal ==>
              var t, r := DecodeOctet(input), PutBehind(before, Decode(sof, state, input));
              && (t.Datum? ==> r == PutBehind(before + [t.octet], Decode(sof, Normal, input[t.length..])))
              && (t.EndOfFrame? ==> r == Decoded(Frame, StartState(sof), before, input[1..]))
              && (t.BadEscape? ==> r == Decoded(BadSequence, AfterBadEscape(sof, t.second), before, input[2..]))
              && (t.Incomplete? ==> r == Decoded(NoData, Normal, before, []))
  {
    hide DecodeOctet, AfterBadEscape;
    assert before + [] == before;
    if input != [] && state == Normal {
      var t := DecodeOctet(input);
      if t.Datum? {
        EmittedBehind(before, t.octet, Decode(sof, Normal, input[t.length..]));
      }
    }
  }

  lemma EmittedBehind(before: seq<octet>, d: octet, r: Decoded)
    ensures PutBehind(before, Emit(d, r)) == PutBehind(before + [d], r)
  {
    assert before + ([d] + r.output) == (before + [d]) + r.output;
  }
}
