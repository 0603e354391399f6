/** Sinks that go on accepting octets when they cannot store them any more. */
module ContinuableSinks {
  import opened Octets

  /** Memory that is filled from its start; it is read from its start, too. */
  datatype Block = Block(size: nat, content: seq<octet>)

  datatype MaybeBlock = NoBlock | Allocated(block: Block)

  datatype Issue = NoIssue | Busy | NoMemory

  function Least(a: nat, b: nat): nat {
    if a < b then a else b
  }

  /**
   How much of a chunk the library tries to store: as much as there is in the block already, where its
   documentation means as much as there is room for. If there is no room for that, nothing is stored.
   */
  function Stored(b: Block, chunk: seq<octet>): (b': Block)
    ensures b'.size == b.size
  {
    var n := Least(|chunk|, |b.content|);
    if |b.content| + n <= b.size then b.(content := b.content + chunk[..n]) else b
  }

  predicate Overflows(b: Block, chunk: seq<octet>) {
    Least(|chunk|, |b.content|) < |chunk|
  }

  class ContinuableSink {
    /** Does the allocator have memory, and how much, of which some is set aside first? */
    const grants: bool
    const blocksize: nat
    const reserved: nat
    var buffer: MaybeBlock
    var fallback: Block
    var issue: Issue
    var datacount: nat

    constructor (grants: bool, blocksize: nat, reserved: nat, fallback: nat)
      requires 0 < reserved <= blocksize
      ensures this.grants == grants && this.blocksize == blocksize && this.reserved == reserved
      ensures buffer == NoBlock && this.fallback == Block(fallback, []) && issue == NoIssue && datacount == 0
    {
      this.grants, this.blocksize, this.reserved := grants, blocksize, reserved;
      buffer, this.fallback, issue, datacount := NoBlock, Block(fallback, []), NoIssue, 0;
    }

    /** Store as much as possible, wherever that is. */
    method Add(chunk: seq<octet>) returns (overflow: bool)
      modifies this`buffer, this`fallback
      ensures overflow == Overflows(if old(buffer) == NoBlock then old(fallback) else old(buffer.block), chunk)
      ensures old(buffer) == NoBlock ==> buffer == NoBlock && fallback == Stored(old(fallback), chunk)
      ensures old(buffer).Allocated? ==> fallback == old(fallback) && buffer == Allocated(Stored(old(buffer).block, chunk))
    {
      if buffer == NoBlock {
        overflow := Overflows(fallback, chunk);
        fallback := Stored(fallback, chunk);
      } else {
        overflow := Overflows(buffer.block, chunk);
        buffer := Allocated(Stored(buffer.block, chunk));
      }
    }

    /** The sink's driver. */
    method Put(chunk: seq<octet>)
      modifies this
      ensures old(issue) != NoIssue ==> issue == old(issue) && datacount == old(datacount) + |chunk|
      ensures old(issue) == NoIssue && old(buffer) == NoBlock && !grants ==>
                issue == Busy && datacount == |chunk| && buffer == NoBlock && fallback == Stored(old(fallback), chunk)
      ensures old(issue) != NoIssue && old(buffer) == NoBlock ==> buffer == NoBlock && fallback == Stored(old(fallback), chunk)
      ensures old(issue) == NoIssue && (grants || old(buffer).Allocated?) ==>
                var b := if old(buffer).Allocated? then old(buffer).block else Block(blocksize, seq(reserved, _ => 0));
                && buffer == Allocated(Stored(b, chunk)) && fallback == old(fallback)
                && (issue == NoMemory <==> |chunk| > |b.content|) && (issue == NoIssue <==> |chunk| <= |b.content|)
                && datacount == if issue == NoMemory then |b.content| + |chunk| else old(datacount)
    {
      if issue != NoIssue {
        var _ := Add(chunk);
        datacount := datacount + |chunk|;
        return;
      }
      if buffer == NoBlock {
        if !grants {
          issue, datacount := Busy, |chunk|;
          var _ := Add(chunk);
          return;
        }
        buffer := Allocated(Block(blocksize, seq(reserved, _ => 0)));
      }
      var m := |buffer.block.content|;
      var overflow := Add(chunk);
      if overflow {
        issue, datacount := NoMemory, m + |chunk|;
      }
    }

    /**
     A frame that comes octet by octet. With memory, as much of it is stored as there is room for, and a
     frame that is too large is no issue; without, the sink is busy, and nothing is stored anywhere.
     */
    method PutEach(raw: seq<octet>)
      requires raw != [] && issue == NoIssue && buffer == NoBlock && fallback.content == [] && 0 < reserved <= blocksize
      modifies this
      ensures grants ==>
                && issue == NoIssue && buffer.Allocated? && |buffer.block.content| >= reserved
                && buffer.block.content[reserved..] == raw[..Least(|raw|, blocksize - reserved)]
      ensures !grants ==> issue == Busy && buffer == NoBlock && fallback.content == [] && datacount == |raw|
    {
      for i := 0 to |raw|
        invariant i == 0 ==> issue == NoIssue && buffer == NoBlock
        invariant fallback.content == []
        invariant i > 0 && grants ==>
                    && issue == NoIssue && buffer.Allocated? && buffer.block.size == blocksize
                    && |buffer.block.content| == reserved + Least(i, blocksize - reserved)
                    && buffer.block.content[reserved..] == raw[..Least(i, blocksize - reserved)]
        invariant i > 0 && !grants ==> issue == Busy && buffer == NoBlock && datacount == i
      {
        ghost var b := if buffer.Allocated? then buffer.block else Block(blocksize, seq(reserved, _ => 0));
        Put([raw[i]]);
        if grants {
          OneOctetMore(b, reserved, raw, i);
        }
      }
    }
  }

  lemma OneOctetMore(b: Block, reserved: nat, raw: seq<octet>, i: nat)
    requires i < |raw| && 0 < reserved <= b.size && |b.content| == reserved + Least(i, b.size - reserved)
    requires b.content[reserved..] == raw[..Least(i, b.size - reserved)]
    ensures var b' := Stored(b, [raw[i]]);
            && |b'.content| == reserved + Least(i + 1, b.size - reserved)
            && b'.content[reserved..] == raw[..Least(i + 1, b.size - reserved)]
            && |b.content| >= 1
  {
    if |b.content| < b.size {
      assert raw[..i + 1] == raw[..i] + [raw[i]];
      assert (b.content + [raw[i]])[reserved..] == b.content[reserved..] + [raw[i]];
    }
  }

  /** Single octets never overflow a block that holds anything, so what is said of them is right exactly while there is room. */
  lemma OctetsOverflowSilently(b: Block, octet: octet)
    requires 0 < |b.content| <= b.size
    ensures (Overflows(b, [octet]) <==> b.size < |b.content| + 1) <==> |b.content| < b.size
    ensures |b.content| == b.size ==> !Overflows(b, [octet]) && Stored(b, [octet]) == b
  {
  }
}
