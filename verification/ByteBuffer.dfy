/** Byte buffers: memory with a fill mark and a read mark. */
module ByteBuffers {
  import opened Octets

  class ByteBuffer {
    const data: array<octet>
    var used: nat
    var offset: nat

    /** byte_buffer_set() refuses empty memory and marks in the wrong order. */
    ghost predicate Valid()
      reads this
    {
      offset <= used <= data.Length && 0 < data.Length
    }

    /** What has been filled in and not been read yet. */
    ghost function Unread(): (s: seq<octet>)
      requires Valid()
      reads this, data
    {
      data[offset..used]
    }

    /** An empty buffer over the memory. */
    constructor Space(memory: array<octet>)
      requires 0 < memory.Length
      ensures Valid() && data == memory && used == offset == 0
    {
      data, used, offset := memory, 0, 0;
    }

    function Avail(): (n: int)
      reads this
    {
      data.Length - used
    }

    function Rest(): (n: int)
      reads this
    {
      used - offset
    }

    /** Append all of the data, or nothing. */
    method Add(more: seq<octet>) returns (ok: bool)
      requires Valid()
      modifies this`used, data
      ensures Valid() && ok == (|more| <= old(Avail()))
      ensures Unread() == if ok then old(Unread()) + more else old(Unread())
      ensures data[..offset] == old(data[..offset])
    {
      if data.Length < used + |more| {
        return false;
      }
      ghost var before := data[..];
      var start := used;
      for i := 0 to |more|
        invariant data[..start] == before[..start]
        invariant data[start..start + i] == more[..i]
      {
        data[start + i] := more[i];
      }
      used := start + |more|;
      assert data[offset..used] == data[..start][offset..] + data[start..used];
      assert data[..offset] == data[..start][..offset];
      assert before[offset..start] == before[..start][offset..];
      return true;
    }

    /** Take exactly n octets, or nothing. */
    method Consume(n: nat) returns (ok: bool, taken: seq<octet>)
      requires Valid()
      modifies this`offset
      ensures Valid() && ok == (n <= old(Rest()))
      ensures old(Unread()) == taken + Unread() && |taken| == if ok then n else 0
    {
      if n > used - offset {
        return false, [];
      }
      ok, taken := true, data[offset..offset + n];
      offset := offset + n;
    }

    /** Take at most n octets; having none at all is an error. */
    method ConsumeAtMost(n: nat) returns (ok: bool, taken: seq<octet>)
      requires Valid()
      modifies this`offset
      ensures Valid() && ok == (0 < old(Rest()))
      ensures old(Unread()) == taken + Unread()
      ensures |taken| == if n <= old(Rest()) then n else old(Rest())
    {
      var rest := used - offset;
      if rest == 0 {
        return false, [];
      }
      var take := if n > rest then rest else n;
      ok, taken := true, data[offset..offset + take];
      offset := offset + take;
    }

    /** Move what has not been read to the start, so that all free memory can be filled. */
    method Rewind()
      requires Valid()
      modifies this, data
      ensures Valid() && offset == 0
      ensures Unread() == old(Unread())
    {
      if offset == 0 {
        return;
      }
      var rest, from := used - offset, offset;
      ghost var before := data[..];
      for i := 0 to rest
        invariant forall j :: 0 <= j < i ==> data[j] == before[from + j]
        invariant forall j :: i <= j < data.Length ==> data[j] == before[j]
      {
        data[i] := data[from + i];
      }
      used, offset := rest, 0;
      assert forall j :: 0 <= j < rest ==> data[j] == before[from + j];
    }
  }
}
