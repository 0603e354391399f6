/** Transfers between sources and sinks whose drivers may deliver little, nothing, or an interruption at a time. */
module Endpoints {
  import opened Octets
  import Streams

  const EINTR: int := -4
  const EAGAIN: int := -11
  const EINVAL: int := -22
  const ENODATA: int := -61
  const SSIZE_MAX: nat := 0x7fff_ffff_ffff_ffff

  type Positive = n: nat | 0 < n witness 1

  /** An error that is not about trying again. */
  type Failure = e: int | e < 0 && e != EINTR && e != EAGAIN witness EINVAL

  /** What a driver does when it is called: move up to so many octets, nothing, or report something. */
  datatype Behaviour = Move(most: Positive) | Nothing | Interrupted | TryAgain | Fail(error: Failure)

  /**
   A script is how a driver behaves for a while; after it, the driver moves whatever it is asked for.
   Since every transfer ends, this covers every driver that makes no progress only finitely often.
   */
  type Script = seq<Behaviour>

  predicate Benign(s: Script) {
    forall b <- s :: !b.Fail?
  }

  /** The errors that a script may report. */
  predicate Reports(s: Script, error: int) {
    exists b <- s :: b.Fail? && b.error == error
  }

  function Least(a: nat, b: nat): nat {
    if a < b then a else b
  }

  /** What a driver answers to a request for n octets with so many of them there. */
  function Answer(s: Script, available: nat, n: nat): int {
    if s != [] && s[0].Nothing? then 0
    else if s != [] && s[0].Interrupted? then EINTR
    else if s != [] && s[0].TryAgain? then EAGAIN
    else if s != [] && s[0].Fail? then s[0].error
    else if available == 0 then ENODATA
    else Least(Least(n, available), if s != [] then s[0].most else n)
  }

  /** The first thing that a script does is to report an error. */
  predicate FailsFirst(s: Script) {
    s != [] && s[0].Fail?
  }

  /** The position of the first error that a script reports, or its length if there is none. */
  function FirstFailure(s: Script): (k: nat)
    ensures k <= |s| && (k < |s| ==> s[k].Fail?)
    ensures forall i :: 0 <= i < k ==> !s[i].Fail?
  {
    if s == [] || s[0].Fail? then 0 else 1 + FirstFailure(s[1..])
  }

  /** The first error that a script reports is the given one. */
  predicate FailsWith(s: Script, error: int) {
    FirstFailure(s) < |s| && s[FirstFailure(s)].error == error
  }

  lemma AnswerIsKnown(s: Script, available: nat, n: nat)
    requires 0 < n
    ensures var rc := Answer(s, available, n);
            && rc <= n && rc <= available
            && (rc < 0 ==> rc in {EINTR, EAGAIN} || Reports(s, rc) || (rc == ENODATA && available == 0))
            && (s == [] ==> rc != 0 && (rc < 0 ==> rc == ENODATA && available == 0))
            && (FailsFirst(s) ==> rc == s[0].error)
  {
    if s != [] {
      assert s[0] in s;
    }
  }

  function Rest(s: Script): Script {
    if s == [] then [] else s[1..]
  }

  /** How many octets in a row a driver gives that is asked for n of them one at a time. */
  function Gathered(s: Script, available: nat, n: nat): (k: nat)
    ensures k <= n && k <= available
    decreases n
  {
    if n == 0 || available == 0 || Answer(s, available, 1) <= 0 then 0 else 1 + Gathered(Rest(s), available - 1, n - 1)
  }

  /** And how many one takes. */
  function Accepted(s: Script, n: nat): (k: nat)
    ensures k <= n
    decreases n
  {
    if n == 0 || Answer(s, 1, 1) <= 0 then 0 else 1 + Accepted(Rest(s), n - 1)
  }

  /** What a chunk made of octets returns: how many there were, or what the first call said; nothing is to be tried again. */
  function Adapted(gathered: nat, first: int): int {
    if gathered > 0 then gathered else if first == 0 then EAGAIN else first
  }

  /** One more octet, or the end of a chunk. */
  lemma OneAnswer(s: Script, available: nat, n: nat)
    requires 0 < n
    ensures Answer(s, available, 1) <= 1
    ensures available == 0 ==> Answer(s, available, 1) <= 0
    ensures Answer(s, available, 1) <= 0 ==> Gathered(s, available, n) == 0
    ensures Answer(s, available, 1) > 0 ==> Gathered(s, available, n) == 1 + Gathered(Rest(s), available - 1, n - 1)
    ensures Accepted(s, n) == if Answer(s, 1, 1) <= 0 then 0 else 1 + Accepted(Rest(s), n - 1)
  {
  }

  /** What the first call decides of a chunk. */
  lemma FirstOctet(s: Script, available: nat, n: nat)
    requires 0 < n
    ensures var first := Answer(s, available, 1);
            Adapted(Gathered(s, available, n), first)
            == if first < 0 then first else if first == 0 then EAGAIN else 1 + Gathered(Rest(s), available - 1, n - 1)
  {
    OneAnswer(s, available, n);
  }

  lemma NothingMore(s: Script, available: nat)
    ensures Gathered(s, available, 0) == 0 && Accepted(s, 0) == 0
  {
  }

  /** A driver to read from, an octet or a chunk at a time. */
  class Source {
    const octetwise: bool
    var data: seq<octet>
    var script: Script

    constructor (octetwise: bool, data: seq<octet>, script: Script)
      ensures this.octetwise == octetwise && this.data == data && this.script == script
    {
      this.octetwise, this.data, this.script := octetwise, data, script;
    }

    /** One call of the driver, for up to n octets. */
    method Call(n: nat) returns (rc: int, chunk: seq<octet>)
      requires 0 < n
      modifies this
      ensures |chunk| == (if rc > 0 then rc else 0) <= n && |old(data)| == |chunk| + |data|
      ensures Parted(old(data), chunk, data)
      ensures Later(old(script), script) && |script| == if old(script) == [] then 0 else |old(script)| - 1
      ensures script == Rest(old(script))
      ensures rc == Answer(old(script), |old(data)|, n)
    {
      LaterByOne(script, if script == [] then [] else script[1..]);
      chunk := [];
      var b := if script == [] then Move(n) else script[0];
      script := if script == [] then [] else script[1..];
      match b {
        case Nothing => rc := 0;
        case Interrupted => rc := EINTR;
        case TryAgain => rc := EAGAIN;
        case Fail(e) => rc := e;
        case Move(most) =>
          if data == [] {
            rc := ENODATA;
          } else {
            rc := Least(Least(n, |data|), most);
            chunk, data := data[..rc], data[rc..];
          }
      }
    }
  }

  /** A driver to write to. */
  class Sink {
    const octetwise: bool
    var data: seq<octet>
    var script: Script

    constructor (octetwise: bool, script: Script)
      ensures this.octetwise == octetwise && data == [] && this.script == script
    {
      this.octetwise, this.script := octetwise, script;
      data := [];
    }

    method Call(chunk: seq<octet>) returns (rc: int)
      requires 0 < |chunk|
      modifies this
      ensures rc <= |chunk| && data == old(data) + chunk[..if rc > 0 then rc else 0]
      ensures Later(old(script), script) && |script| == if old(script) == [] then 0 else |old(script)| - 1
      ensures script == Rest(old(script))
      ensures rc == Answer(old(script), |chunk|, |chunk|)
    {
      LaterByOne(script, if script == [] then [] else script[1..]);
      var b := if script == [] then Move(|chunk|) else script[0];
      script := if script == [] then [] else script[1..];
      match b {
        case Nothing => rc := 0;
        case Interrupted => rc := EINTR;
        case TryAgain => rc := EAGAIN;
        case Fail(e) => rc := e;
        case Move(most) =>
          rc := Least(|chunk|, most);
          data := data + chunk[..rc];
      }
    }
  }

  /* ---------- Reading ---------- */

  /** What was left of a source after some calls, and what they may have reported. */
  ghost predicate Later(before: Script, after: Script) {
    |after| <= |before| && after == before[|before| - |after|..]
  }

  lemma LaterReports(before: Script, after: Script, error: int)
    requires Later(before, after)
    ensures Reports(after, error) ==> Reports(before, error)
    ensures Benign(before) ==> Benign(after)
    ensures |after| <= |before|
  {
  }

  lemma BenignIsQuiet(s: Script)
    ensures Benign(s) ==> forall error :: !Reports(s, error)
  {
  }

  lemma LaterAgain(before: Script, now: Script, after: Script)
    requires Later(before, now) && Later(now, after)
    ensures Later(before, after)
  {
  }

  lemma LaterByOne(now: Script, after: Script)
    requires after == if now == [] then [] else now[1..]
    ensures Later(now, after) && (now != [] ==> |after| < |now|)
  {
  }

  lemma LaterNow(now: Script)
    ensures Later(now, now)
  {
  }

  /** What has been used up of a script has reported no error. */
  ghost predicate Unfailed(before: Script, after: Script) {
    Later(before, after) && |before| - |after| <= FirstFailure(before)
  }

  /** How much of a script has been used up. */
  ghost function Used(before: Script, after: Script): nat
    requires Later(before, after)
  {
    |before| - |after|
  }

  /** The most octets that so many calls can move through an auxiliary buffer. */
  function AtMost(calls: nat, aux: nat): nat {
    calls * aux
  }

  lemma UnfailedAgain(before: Script, now: Script, after: Script)
    requires Unfailed(before, now)
    ensures |before| - |now| + FirstFailure(now) == FirstFailure(before)
    ensures forall error :: FailsWith(now, error) <==> FailsWith(before, error)
    ensures Unfailed(now, after) ==> Unfailed(before, after)
  {
    var used := |before| - |now|;
    assert FirstFailure(now) < |now| ==> before[used + FirstFailure(now)].Fail?;
    assert forall j :: used <= j < used + FirstFailure(now) ==> !before[j].Fail?;
  }

  lemma UnfailedNow(now: Script)
    ensures Unfailed(now, now)
  {
  }

  /** What one call of a chunk-wise sink makes of a script. */
  lemma UnfailedCall(before: Script, after: Script, n: nat)
    requires 0 < n && after == if before == [] then [] else before[1..]
    ensures var rc := Answer(before, n, n);
            && (FailsFirst(before) ==> FailsWith(before, rc) && rc != EINTR && rc != EAGAIN && rc < 0)
            && (!FailsFirst(before) ==> Unfailed(before, after) && (rc >= 0 || rc in {EINTR, EAGAIN}))
            && (before == [] ==> rc == n)
  {
  }

  /** Chunks from a driver that has only octets: whatever interrupts it ends the chunk if that has begun. */
  method SourceAdapt(source: Source, n: nat) returns (rc: int, chunk: seq<octet>)
    requires 0 < n
    modifies source
    ensures |chunk| == (if rc > 0 then rc else 0) <= n && |old(source.data)| == |chunk| + |source.data|
    ensures Parted(old(source.data), chunk, source.data)
    ensures Later(old(source.script), source.script) && |source.script| + |source.data| <= old(|source.script| + |source.data|)
    ensures rc != 0
    ensures |source.script| + |source.data| == old(|source.script| + |source.data|) ==> rc == ENODATA && |old(source.data)| == 0
    ensures rc < 0 ==> rc in {EINTR, EAGAIN} || Reports(old(source.script), rc) || (rc == ENODATA && source.data == [])
    ensures rc == Adapted(Gathered(old(source.script), |old(source.data)|, n), Answer(old(source.script), |old(source.data)|, 1))
  {
    hide Later, Reports, Answer, Parted, Gathered, Rest, FailsFirst, Adapted;
    ghost var script, stream := source.script, source.data;
    var got;
    got, chunk := source.Call(1);
    AnswerIsKnown(script, |stream|, 1);
    FirstOctet(script, |stream|, n);
    if got <= 0 {
      return if got < 0 then got else EAGAIN, chunk;
    }
    ghost var before, left := source.script, source.data;
    var more := GatherRest(source, n - 1);
    LaterAgain(script, before, source.script);
    MoreParted(stream, chunk, left, more, source.data);
    return 1 + |more|, chunk + more;
  }

  /** Octets one at a time, up to the first call that does not give one. */
  method GatherRest(source: Source, n: nat) returns (chunk: seq<octet>)
    modifies source
    ensures |chunk| == Gathered(old(source.script), |old(source.data)|, n) && |old(source.data)| == |chunk| + |source.data|
    ensures Parted(old(source.data), chunk, source.data)
    ensures Later(old(source.script), source.script) && |source.script| <= |old(source.script)|
  {
    hide Later, Reports, Answer, Parted, Gathered, Rest, FailsFirst;
    ghost var script, stream := source.script, source.data;
    ghost var total := Gathered(script, |stream|, n);
    LaterNow(script);
    NothingParted(stream);
    chunk := [];
    while |chunk| < n
      invariant |chunk| <= n && |stream| == |chunk| + |source.data| && Parted(stream, chunk, source.data)
      invariant Later(script, source.script) && |source.script| <= |script|
      invariant |chunk| + Gathered(source.script, |source.data|, n - |chunk|) == total
      decreases n - |chunk|
    {
      ghost var before, left := source.script, source.data;
      OneAnswer(before, |left|, n - |chunk|);
      var got, octets := source.Call(1);
      LaterAgain(script, before, source.script);
      MoreParted(stream, chunk, left, octets, source.data);
      if got <= 0 {
        return;
      }
      chunk := chunk + octets;
    }
    NothingMore(source.script, |source.data|);
  }

  lemma NothingParted(whole: seq<octet>)
    ensures Parted(whole, [], whole)
  {
  }

  /** A sequence is what stands in front and what stands behind. */
  predicate Parted(whole: seq<octet>, front: seq<octet>, back: seq<octet>) {
    whole == front + back
  }

  lemma MoreParted(whole: seq<octet>, front: seq<octet>, left: seq<octet>, more: seq<octet>, back: seq<octet>)
    requires Parted(whole, front, left) && Parted(left, more, back)
    ensures Parted(whole, front + more, back)
    ensures more == [] ==> Parted(whole, front, back)
  {
  }

  method SourceRead(source: Source, n: nat) returns (rc: int, chunk: seq<octet>)
    requires 0 < n
    modifies source
    ensures |chunk| == (if rc > 0 then rc else 0) <= n && |old(source.data)| == |chunk| + |source.data|
    ensures Parted(old(source.data), chunk, source.data)
    ensures Later(old(source.script), source.script) && |source.script| + |source.data| <= old(|source.script| + |source.data|)
    ensures |source.script| + |source.data| == old(|source.script| + |source.data|) ==> rc == ENODATA && |old(source.data)| == 0
    ensures rc < 0 ==> rc in {EINTR, EAGAIN} || Reports(old(source.script), rc) || (rc == ENODATA && source.data == [])
    ensures source.octetwise ==>
              rc == Adapted(Gathered(old(source.script), |old(source.data)|, n), Answer(old(source.script), |old(source.data)|, 1))
    ensures !source.octetwise ==> rc == Answer(old(source.script), |old(source.data)|, n)
  {
    hide Later, Reports, Answer, Gathered, Adapted;
    if source.octetwise {
      rc, chunk := SourceAdapt(source, n);
    } else {
      AnswerIsKnown(source.script, |source.data|, n);
      rc, chunk := source.Call(n);
    }
  }

  /** Read again and again until everything is there or an error is reported that is not about trying again. */
  method SourceReadMulti(source: Source, n: nat) returns (error: int, size: nat, chunk: seq<octet>)
    modifies source
    ensures size == |chunk| <= n && old(source.data) == chunk + source.data
    ensures Later(old(source.script), source.script)
    ensures error == 0 ==> size == n
    ensures error != 0 ==>
              || (error == EINVAL && size == 0 && (n == 0 || n > SSIZE_MAX))
              || (error < 0 && Reports(old(source.script), error))
              || (error == ENODATA && source.data == [] && size < n)
    ensures n == 0 || n > 0x7fff_ffff_ffff_ffff ==> error == EINVAL && size == 0
    ensures error == EINVAL && !Reports(old(source.script), EINVAL) ==> n == 0 || n > 0x7fff_ffff_ffff_ffff
  {
    chunk := [];
    if n == 0 || n > SSIZE_MAX {
      return EINVAL, 0, chunk;
    }
    hide Later, Reports;
    var rest := n;
    LaterNow(source.script);
    while rest > 0
      invariant 0 <= rest <= n && |chunk| == n - rest && old(source.data) == chunk + source.data
      invariant Later(old(source.script), source.script)
      decreases |source.script| + |source.data|
    {
      ghost var before := source.script;
      var got, octets := SourceRead(source, rest);
      LaterAgain(old(source.script), before, source.script);
      if got < 0 {
        LaterReports(old(source.script), before, got);
        if got == EINTR || got == EAGAIN {
          continue;
        }
        return got, n - rest, chunk;
      }
      chunk := chunk + octets;
      rest := rest - got;
    }
    return 0, n, chunk;
  }

  /** Exactly n octets. */
  method SourceGetChunk(source: Source, n: nat) returns (rc: int, chunk: seq<octet>)
    modifies source
    ensures old(source.data) == chunk + source.data && |chunk| <= n && Later(old(source.script), source.script)
    ensures rc >= 0 ==> rc == n == |chunk|
    ensures Benign(old(source.script)) ==>
              && rc == (if n == 0 || n > SSIZE_MAX then EINVAL else if n <= |old(source.data)| then n else ENODATA)
              && (rc == n ==> chunk == old(source.data)[..n] && source.data == old(source.data)[n..])
              && (rc == ENODATA ==> source.data == [])
  {
    var error, size;
    error, size, chunk := SourceReadMulti(source, n);
    return if error == 0 then size else error, chunk;
  }

  /** As many as there are up to n; to have some is a success. */
  method SourceGetChunkAtMost(source: Source, n: nat) returns (rc: int, chunk: seq<octet>)
    modifies source
    ensures old(source.data) == chunk + source.data && |chunk| == (if rc > 0 then rc else 0) <= n
    ensures Later(old(source.script), source.script)
    ensures rc != 0 && (n == 0 || n > SSIZE_MAX ==> rc == EINVAL)
    ensures rc < 0 ==> (rc == EINVAL && (n == 0 || n > SSIZE_MAX)) || rc == ENODATA || Reports(old(source.script), rc)
    ensures Benign(old(source.script)) && 0 < n <= SSIZE_MAX ==>
              rc == if old(source.data) == [] then ENODATA else Least(n, |old(source.data)|)
  {
    var error, size;
    error, size, chunk := SourceReadMulti(source, n);
    return if size == 0 then error else size, chunk;
  }

  /* ---------- Writing ---------- */

  method SinkAdapt(sink: Sink, chunk: seq<octet>) returns (rc: int)
    requires 0 < |chunk|
    modifies sink
    ensures rc <= |chunk| && sink.data == old(sink.data) + chunk[..if rc > 0 then rc else 0]
    ensures Later(old(sink.script), sink.script)
    ensures rc != 0
    ensures |sink.script| == |old(sink.script)| ==> rc == |chunk|
    ensures rc < 0 ==> rc in {EINTR, EAGAIN} || Reports(old(sink.script), rc)
    ensures FailsFirst(old(sink.script)) ==> rc == old(sink.script)[0].error && sink.data == old(sink.data)
    ensures rc == Adapted(Accepted(old(sink.script), |chunk|), Answer(old(sink.script), 1, 1))
  {
    hide Later, Reports, Answer, Accepted;
    OneAnswer(sink.script, 1, |chunk|);
    var n := |chunk|;
    var rest := n;
    LaterNow(sink.script);
    while rest > 0
      invariant 0 <= rest <= n && sink.data == old(sink.data) + chunk[..n - rest]
      invariant Later(old(sink.script), sink.script) && |sink.script| <= |old(sink.script)|
      invariant FailsFirst(old(sink.script)) ==> rest == n && sink.script == old(sink.script)
      invariant n - rest + Accepted(sink.script, rest) == Accepted(old(sink.script), n)
      invariant rest == n ==> sink.script == old(sink.script)
      decreases rest
    {
      OneAnswer(sink.script, 1, rest);
      ghost var before := sink.script;
      AnswerIsKnown(before, 1, 1);
      var put := sink.Call([chunk[n - rest]]);
      LaterAgain(old(sink.script), before, sink.script);
      if put < 0 {
        LaterReports(old(sink.script), before, put);
        return if rest == n then put else n - rest;
      } else if put == 0 {
        return if rest == n then EAGAIN else n - rest;
      }
      assert chunk[..n - rest + 1] == chunk[..n - rest] + [chunk[n - rest]];
      rest := rest - put;
    }
    assert chunk[..n] == chunk;
    NothingMore(sink.script, 1);
    return n;
  }

  method SinkWrite(sink: Sink, chunk: seq<octet>) returns (rc: int)
    requires 0 < |chunk|
    modifies sink
    ensures rc <= |chunk| && sink.data == old(sink.data) + chunk[..if rc > 0 then rc else 0]
    ensures Later(old(sink.script), sink.script)
    ensures |sink.script| == |old(sink.script)| ==> rc == |chunk|
    ensures rc < 0 ==> rc in {EINTR, EAGAIN} || Reports(old(sink.script), rc)
    ensures FailsFirst(old(sink.script)) ==> rc == old(sink.script)[0].error && sink.data == old(sink.data)
    ensures !sink.octetwise && (rc >= 0 || rc in {EINTR, EAGAIN}) ==> Unfailed(old(sink.script), sink.script)
    ensures !sink.octetwise && !(rc >= 0 || rc in {EINTR, EAGAIN}) ==> FailsWith(old(sink.script), rc)
    ensures !sink.octetwise && old(sink.script) != [] ==> |sink.script| < |old(sink.script)|
    ensures rc == if sink.octetwise then Adapted(Accepted(old(sink.script), |chunk|), Answer(old(sink.script), 1, 1))
                  else Answer(old(sink.script), |chunk|, |chunk|)
  {
    hide Later, Reports, Answer, Unfailed, FailsWith, FirstFailure, FailsFirst, Accepted, Adapted;
    if sink.octetwise {
      rc := SinkAdapt(sink, chunk);
    } else {
      ghost var before := sink.script;
      AnswerIsKnown(before, |chunk|, |chunk|);
      rc := sink.Call(chunk);
      NextScript(before, sink.script);
      UnfailedCall(before, sink.script, |chunk|);
    }
  }

  lemma NextScript(before: Script, after: Script)
    requires Later(before, after) && |after| == if before == [] then 0 else |before| - 1
    ensures after == if before == [] then [] else before[1..]
  {
  }

  method SinkWriteMulti(sink: Sink, chunk: seq<octet>) returns (error: int, size: nat)
    modifies sink
    ensures size <= |chunk| && sink.data == old(sink.data) + chunk[..size]
    ensures Later(old(sink.script), sink.script)
    ensures error == 0 ==> size == |chunk|
    ensures error != 0 ==>
              (error == EINVAL && size == 0 && |chunk| > SSIZE_MAX) || (error < 0 && Reports(old(sink.script), error))
    ensures |chunk| > 0x7fff_ffff_ffff_ffff ==> error == EINVAL
    ensures error == EINVAL && !Reports(old(sink.script), EINVAL) ==> |chunk| > 0x7fff_ffff_ffff_ffff
    ensures FailsFirst(old(sink.script)) && 0 < |chunk| <= SSIZE_MAX ==> error == old(sink.script)[0].error && size == 0
    ensures !sink.octetwise && error == 0 ==> Unfailed(old(sink.script), sink.script)
    ensures !sink.octetwise && error == 0 && chunk != [] && old(sink.script) != [] ==> |sink.script| < |old(sink.script)|
    ensures !sink.octetwise && error != 0 && |chunk| <= SSIZE_MAX ==> FailsWith(old(sink.script), error) && size < |chunk|
  {
    hide Later, Reports, Answer, Unfailed, FailsWith;
    var n := |chunk|;
    LaterNow(sink.script);
    UnfailedNow(sink.script);
    if n == 0 {
      return 0, 0;
    }
    if n > SSIZE_MAX {
      return EINVAL, 0;
    }
    var rest := n;
    ghost var script, data := sink.script, sink.data;
    while rest > 0
      invariant 0 <= rest <= n && sink.data == data + chunk[..n - rest]
      invariant Later(script, sink.script)
      invariant FailsFirst(script) ==> rest == n && sink.script == script
      invariant !sink.octetwise ==> Unfailed(script, sink.script)
      invariant !sink.octetwise && rest < n && script != [] ==> |sink.script| < |script|
      invariant |sink.script| <= |script|
      decreases |sink.script| + rest
    {
      ghost var before := sink.script;
      var put := SinkWrite(sink, chunk[n - rest..]);
      LaterAgain(script, before, sink.script);
      LaterReports(before, sink.script, 0);
      if !sink.octetwise {
        UnfailedAgain(script, before, sink.script);
      }
      OneMorePart(data, chunk, n - rest, if put > 0 then put else 0);
      if put < 0 {
        LaterReports(script, before, put);
        if put == EINTR || put == EAGAIN {
          continue;
        }
        return put, n - rest;
      }
      rest := rest - put;
    }
    return 0, n;
  }

  lemma OneMorePart(data: seq<octet>, chunk: seq<octet>, done: nat, put: nat)
    requires done + put <= |chunk|
    ensures (data + chunk[..done]) + chunk[done..][..put] == data + chunk[..done + put]
  {
  }

  /** All of the chunk. */
  method SinkPutChunk(sink: Sink, chunk: seq<octet>) returns (rc: int)
    modifies sink
    ensures Later(old(sink.script), sink.script)
    ensures rc >= 0 ==> rc == |chunk| && sink.data == old(sink.data) + chunk
    ensures rc < 0 ==> exists k :: 0 <= k <= |chunk| && sink.data == old(sink.data) + chunk[..k]
    ensures rc < 0 && |chunk| <= SSIZE_MAX ==> Reports(old(sink.script), rc)
    ensures Benign(old(sink.script)) && |chunk| <= SSIZE_MAX ==> rc >= 0
    ensures FailsFirst(old(sink.script)) && 0 < |chunk| <= SSIZE_MAX ==>
              rc == old(sink.script)[0].error && sink.data == old(sink.data)
    ensures !sink.octetwise && rc >= 0 ==> Unfailed(old(sink.script), sink.script)
    ensures !sink.octetwise && rc > 0 && old(sink.script) != [] ==> |sink.script| < |old(sink.script)|
    ensures !sink.octetwise && rc < 0 && |chunk| <= SSIZE_MAX ==>
              FailsWith(old(sink.script), rc) && |sink.data| < |old(sink.data)| + |chunk|
  {
    hide Later, Unfailed, FailsWith;
    var error, size := SinkWriteMulti(sink, chunk);
    assert error == 0 ==> chunk[..size] == chunk;
    return if error == 0 then size else error;
  }

  /* ---------- From source to sink ---------- */

  /** Octets have only moved from the source to the end of the sink, in their order. */
  twostate predicate Conserved(source: Source, sink: Sink)
    reads source, sink
  {
    sink.data + source.data == old(sink.data) + old(source.data)
  }

  /** Some octets, through an auxiliary buffer of the given size, with a limit on top. */
  method AtMostAux(source: Source, sink: Sink, aux: nat, n: nat) returns (rc: int)
    modifies source, sink
    ensures Later(old(source.script), source.script) && Later(old(sink.script), sink.script)
    ensures rc != 0
    ensures rc > 0 ==> Conserved(source, sink)
    ensures rc < 0 && !Reports(old(sink.script), rc) ==> source.data == old(source.data) && sink.data == old(sink.data)
    ensures rc > 0 ==> rc <= n && |old(source.data)| == rc + |source.data|
    ensures exists k :: 0 <= k <= |old(source.data)| && sink.data == old(sink.data) + old(source.data)[..k]
    ensures Benign(old(source.script)) && Benign(old(sink.script)) && 0 < Least(aux, n) <= SSIZE_MAX ==>
              rc == if old(source.data) == [] then ENODATA else Least(Least(aux, n), |old(source.data)|)
    ensures Benign(old(source.script)) && FailsFirst(old(sink.script)) && 0 < Least(aux, n) <= SSIZE_MAX && old(source.data) != [] ==>
              && rc == old(sink.script)[0].error && sink.data == old(sink.data)
              && source.data == old(source.data)[Least(Least(aux, n), |old(source.data)|)..]
    ensures Least(aux, n) == 0 ==> rc == EINVAL
    ensures !sink.octetwise && rc > 0 ==> Unfailed(old(sink.script), sink.script)
    ensures !sink.octetwise && rc > 0 && old(sink.script) != [] ==> |sink.script| < |old(sink.script)|
    ensures rc > 0 ==> rc <= aux
    ensures !sink.octetwise && rc < 0 && !FailsWith(old(sink.script), rc) ==>
              source.data == old(source.data) && sink.data == old(sink.data)
    ensures !sink.octetwise && rc < 0 && Benign(old(source.script)) && 0 < Least(aux, n) <= SSIZE_MAX && old(source.data) != [] ==>
              FailsWith(old(sink.script), rc) && |sink.data| + |source.data| < |old(sink.data)| + |old(source.data)|
  {
    hide Later, Unfailed, FailsWith, FailsFirst;
    LaterNow(sink.script);
    ghost var stream, before := source.data, sink.data;
    var size := if aux > n then n else aux;
    var chunk;
    rc, chunk := SourceGetChunkAtMost(source, size);
    assert stream[..|chunk|] == chunk && stream == chunk + source.data;
    if rc < 0 {
      assert stream[..0] == [];
      assert before + [] == before;
      return;
    }
    rc := SinkPutChunk(sink, chunk);
    if rc >= 0 {
      assert before + chunk + source.data == before + (chunk + source.data);
    } else {
      ghost var k :| 0 <= k <= |chunk| && sink.data == before + chunk[..k];
      assert stream[..k] == chunk[..k];
    }
  }

  /** Exactly n octets from source to sink. */
  method ExactlyAux(source: Source, sink: Sink, aux: nat, n: nat) returns (rc: int)
    modifies source, sink
    ensures rc >= 0 || !Reports(old(sink.script), rc) ==> Conserved(source, sink)
    ensures rc >= 0 ==> rc == n <= |old(source.data)| && |source.data| == |old(source.data)| - n
    ensures Benign(old(source.script)) && Benign(old(sink.script)) && 0 < aux <= SSIZE_MAX && n <= |old(source.data)| ==>
              && rc == n
              && sink.data == old(sink.data) + old(source.data)[..n] && source.data == old(source.data)[n..]
  {
    ghost var stream, before := source.data, sink.data;
    var rest := n;
    while rest > 0
      invariant 0 <= rest <= n
      invariant |stream| == n - rest + |source.data| && Conserved(source, sink)
      invariant Later(old(source.script), source.script) && Later(old(sink.script), sink.script)
      decreases rest
    {
      LaterReports(old(source.script), source.script, 0);
      LaterReports(old(sink.script), sink.script, 0);
      ghost var script := sink.script;
      rc := AtMostAux(source, sink, aux, rest);
      LaterReports(old(sink.script), script, rc);
      if rc < 0 {
        return;
      }
      rest := rest - rc;
    }
    Moved(stream, before, source.data, sink.data, n);
    return n;
  }

  lemma Moved(stream: seq<octet>, before: seq<octet>, left: seq<octet>, after: seq<octet>, n: nat)
    requires after + left == before + stream && |stream| == n + |left|
    ensures after == before + stream[..n] && left == stream[n..]
  {
    assert (after + left)[..|after|] == after && (after + left)[|after|..] == left;
    assert (before + stream)[..|before| + n] == before + stream[..n];
    assert (before + stream)[|before| + n..] == stream[n..];
  }

  /**
   Everything from source to sink. A sink that reports a lack of data is taken for an empty source, and
   what has been read for it is lost.
   */
  method DrainAux(source: Source, sink: Sink, aux: nat) returns (rc: int)
    modifies source, sink
    ensures !Reports(old(sink.script), if rc >= 0 then ENODATA else rc) ==> Conserved(source, sink)
    ensures rc >= 0 && !Reports(old(sink.script), ENODATA) ==> rc == |old(source.data)| - |source.data|
    ensures Benign(old(source.script)) && Benign(old(sink.script)) && 0 < aux <= SSIZE_MAX ==>
              rc == |old(source.data)| && source.data == [] && sink.data == old(sink.data) + old(source.data)
    ensures && Benign(old(source.script)) && old(source.data) != [] && 0 < aux <= SSIZE_MAX
            && FailsFirst(old(sink.script)) && old(sink.script)[0].error == ENODATA ==>
              && rc == 0 && sink.data == old(sink.data)
              && source.data == old(source.data)[Least(aux, |old(source.data)|)..]
    ensures !sink.octetwise && rc >= 0 && !FailsWith(old(sink.script), ENODATA) ==>
              Conserved(source, sink) && rc == |old(source.data)| - |source.data|
    ensures && !sink.octetwise && Benign(old(source.script)) && 0 < aux <= SSIZE_MAX
            && FailsWith(old(sink.script), ENODATA) && |old(source.data)| > AtMost(FirstFailure(old(sink.script)), aux) ==>
              rc >= 0 && |sink.data| + |source.data| < |old(sink.data)| + |old(source.data)|
  {
    hide Later, Unfailed, FailsWith, Reports, FailsFirst, Benign, FirstFailure, AtMost;
    BenignIsQuiet(source.script);
    BenignIsQuiet(sink.script);
    var acc := 0;
    ghost var stream, sources, script := source.data, source.script, sink.script;
    LaterNow(sources);
    LaterNow(script);
    UnfailedNow(script);
    ghost var failing := Benign(sources) && stream != [] && 0 < aux <= SSIZE_MAX && FailsFirst(script);
    ghost var lossy := && !sink.octetwise && Benign(sources) && 0 < aux <= SSIZE_MAX
                       && FailsWith(script, ENODATA) && |stream| > AtMost(FirstFailure(script), aux);
    while true
      invariant |stream| == acc + |source.data| && Conserved(source, sink)
      invariant Later(sources, source.script) && Later(script, sink.script)
      invariant failing ==> acc == 0 && source.data == stream && sink.data == old(sink.data) && sink.script == script
      invariant !sink.octetwise ==> Unfailed(script, sink.script)
      invariant lossy ==> acc <= AtMost(Used(script, sink.script), aux)
      decreases |source.data|
    {
      LaterReports(sources, source.script, 0);
      LaterReports(script, sink.script, 0);
      ghost var before, before' := sink.script, source.script;
      if lossy {
        StillLossy(script, before, aux);
      }
      rc := AtMostAux(source, sink, aux, aux);
      LaterReports(script, before, rc);
      LaterAgain(sources, before', source.script);
      LaterAgain(script, before, sink.script);
      if !sink.octetwise {
        UnfailedAgain(script, before, sink.script);
      }
      if rc < 0 {
        if lossy {
          FailsOnce(script, rc, ENODATA);
        }
        if rc == ENODATA {
          break;
        }
        return;
      }
      if lossy {
        OneCallMore(script, before, sink.script, aux, acc, rc);
      }
      acc := acc + rc;
    }
    return acc;
  }

  lemma FailsOnce(script: Script, a: int, b: int)
    requires FailsWith(script, a) && FailsWith(script, b)
    ensures a == b
  {
  }

  lemma StillLossy(script: Script, now: Script, aux: nat)
    requires FailsWith(script, ENODATA) && Unfailed(script, now)
    ensures now != [] && AtMost(Used(script, now), aux) <= AtMost(FirstFailure(script), aux)
  {
    hide AtMost;
    AtMostMore(Used(script, now), FirstFailure(script), aux);
  }

  lemma AtMostMore(a: nat, b: nat, aux: nat)
    requires a <= b
    ensures AtMost(a, aux) <= AtMost(b, aux)
    ensures AtMost(a + 1, aux) == AtMost(a, aux) + aux
  {
  }

  lemma OneCallMore(script: Script, before: Script, after: Script, aux: nat, acc: nat, moved: nat)
    requires Later(script, before) && Later(script, after) && |after| < |before|
    requires moved <= aux && acc <= AtMost(Used(script, before), aux)
    ensures acc + moved <= AtMost(Used(script, after), aux)
  {
    hide AtMost;
    AtMostMore(Used(script, before), Used(script, before) + 1, aux);
    AtMostMore(Used(script, before) + 1, Used(script, after), aux);
  }

  /** For instance, draining one octet into a sink that reports a lack of data succeeds, and the octet is gone. */
  method DrainLosesOctet(x: octet) returns (rc: int, left: seq<octet>, arrived: seq<octet>)
    ensures rc == 0 && left == [] && arrived == []
  {
    var source := new Source(false, [x], []);
    var sink := new Sink(false, [Fail(ENODATA)]);
    rc := DrainAux(source, sink, 16);
    return rc, source.data, sink.data;
  }

  /* ---------- Plain streams ---------- */

  /** Over a driver that does not fail, taking a chunk is taking it from the plain stream. */
  method SourceRefinesStream(source: Source, plain: Streams.Source, n: nat)
    returns (rc: int, taken: seq<octet>, got: bool, chunk: seq<octet>)
    requires source.data == plain.data && Benign(source.script) && 0 < n <= SSIZE_MAX
    modifies source, plain
    ensures source.data == plain.data && got == (rc >= 0) == (n <= |old(plain.data)|)
    ensures got ==> chunk == taken == old(plain.data)[..n] && plain.data == old(plain.data)[n..]
  {
    rc, taken := SourceGetChunk(source, n);
    got, chunk := plain.GetChunk(n);
  }

  /** And so is putting one. */
  method SinkRefinesStream(sink: Sink, plain: Streams.Sink, chunk: seq<octet>) returns (rc: int)
    requires sink.data == plain.data && Benign(sink.script) && |chunk| <= SSIZE_MAX
    modifies sink, plain
    ensures sink.data == plain.data == old(plain.data) + chunk && rc == |chunk|
  {
    rc := SinkPutChunk(sink, chunk);
    plain.PutChunk(chunk);
  }
}
