/** Octet sources and sinks over finite streams. */
module Streams {
  import opened Octets

  /** A source that hands out a finite stream and then reports that there is no more data. */
  class Source {
    var data: seq<octet>

    constructor (data: seq<octet>)
      ensures this.data == data
    {
      this.data := data;
    }

    method GetOctet() returns (got: bool, octet: octet)
      modifies this
      ensures got == (old(data) != [])
      ensures got ==> octet == old(data)[0] && data == old(data)[1..]
      ensures !got ==> data == []
    {
      octet := 0;
      got := data != [];
      if got {
        octet := data[0];
        data := data[1..];
      }
    }

    /** Exactly n octets, or nothing if there are fewer. */
    method GetChunk(n: nat) returns (got: bool, chunk: seq<octet>)
      modifies this
      ensures got == (n <= |old(data)|)
      ensures got ==> chunk == old(data)[..n] && data == old(data)[n..]
      ensures !got ==> data == []
    {
      got := n <= |data|;
      chunk := if got then data[..n] else [];
      data := if got then data[n..] else [];
    }
  }

  /** A sink that keeps everything put into it. */
  class Sink {
    var data: seq<octet>

    constructor ()
      ensures data == []
    {
      data := [];
    }

    method PutOctet(octet: octet)
      modifies this
      ensures data == old(data) + [octet]
    {
      data := data + [octet];
    }

    method PutChunk(chunk: seq<octet>)
      modifies this
      ensures data == old(data) + chunk
    {
      data := data + chunk;
    }
  }
}
