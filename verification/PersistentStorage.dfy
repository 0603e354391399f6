/** A block of data in storage, kept together with its checksum. */
module PersistentStorage {
  import opened Octets
  import opened Numbers

  datatype Access = Success | InvalidData | IoError | OutOfRange

  /** A checksum of 16 or 32 bits that continues from an earlier value. */
  datatype Checksum = Checksum(wide: bool, initial: nat, process: (seq<octet>, nat) -> nat)

  function Width(wide: bool): nat {
    if wide then 4 else 2
  }

  function Limit(sum: Checksum): nat {
    Power256(Width(sum.wide))
  }

  /** The values are of the checksum's width. */
  ghost predicate Typed(sum: Checksum) {
    && sum.initial < Limit(sum)
    && forall data, from: nat | from < Limit(sum) :: sum.process(data, from) < Limit(sum)
  }

  /** Taking the sum in parts, each continuing from the last, is taking the sum of the whole. */
  ghost predicate Compositional(sum: Checksum) {
    && (forall from: nat | from < Limit(sum) :: sum.process([], from) == from)
    && forall a, b, from: nat | from < Limit(sum) :: sum.process(a + b, from) == sum.process(b, sum.process(a, from))
  }

  /** The sum of octets modulo 2^16. */
  function TrivialSum(data: seq<octet>, from: nat): nat
    decreases |data|
  {
    if data == [] then from else TrivialSum(data[1..], Low16(from + data[0] as nat))
  }

  function Low16(n: nat): (r: nat)
    ensures r < 0x1_0000
    ensures n < 0x1_0000 ==> r == n
  {
    n % 0x1_0000
  }

  lemma Low16Adds(n: nat, m: nat)
    ensures Low16(Low16(n) + m) == Low16(n + m)
  {
  }

  const TRIVIAL: Checksum := Checksum(false, 0, (data, from) => TrivialSum(data, Low16(from)))

  /** The sum as it is calculated through a buffer of the given size. */
  function ChunkedSum(sum: Checksum, size: nat, from: nat, data: seq<octet>): nat
    requires 0 < size
    decreases |data|
  {
    if data == [] then from
    else
      var n := if |data| > size then size else |data|;
      ChunkedSum(sum, size, sum.process(data[..n], from), data[n..])
  }

  /* ---------- Checksums ---------- */

  /** The size of the buffer makes no difference to a checksum that can be taken in parts. */
  lemma {:induction false} ChunkedIsWhole(sum: Checksum, size: nat, from: nat, data: seq<octet>)
    requires 0 < size && Typed(sum) && Compositional(sum) && from < Limit(sum)
    ensures ChunkedSum(sum, size, from, data) == sum.process(data, from)
    decreases |data|
  {
    if data != [] {
      var n := if |data| > size then size else |data|;
      assert data == data[..n] + data[n..];
      ChunkedIsWhole(sum, size, sum.process(data[..n], from), data[n..]);
    }
  }

  lemma NoChunk(sum: Checksum, size: nat, from: nat, data: seq<octet>)
    requires 0 < size && data == []
    ensures ChunkedSum(sum, size, from, data) == from
  {
  }

  /** One more chunk of the data. */
  lemma ChunkStep(sum: Checksum, size: nat, from: nat, data: seq<octet>, done: nat, n: nat)
    requires 0 < size && done < |data| && n == if |data| - done > size then size else |data| - done
    ensures ChunkedSum(sum, size, from, data[done..])
         == ChunkedSum(sum, size, sum.process(data[done..done + n], from), data[done + n..])
  {
    var left := data[done..];
    assert left[..n] == data[done..done + n] && left[n..] == data[done + n..];
  }

  lemma {:induction false} ChunkedIsTyped(sum: Checksum, size: nat, from: nat, data: seq<octet>)
    requires 0 < size && Typed(sum) && from < Limit(sum)
    ensures ChunkedSum(sum, size, from, data) < Limit(sum)
    decreases |data|
  {
    if data != [] {
      var n := if |data| > size then size else |data|;
      ChunkedIsTyped(sum, size, sum.process(data[..n], from), data[n..]);
    }
  }

  function Total(data: seq<octet>): nat {
    if data == [] then 0 else data[0] as nat + Total(data[1..])
  }

  lemma {:induction false} TrivialIsTotal(data: seq<octet>, from: nat)
    requires from < 0x1_0000
    ensures TrivialSum(data, from) == Low16(from + Total(data))
    decreases |data|
  {
    hide Low16;
    if data != [] {
      TrivialIsTotal(data[1..], Low16(from + data[0] as nat));
      Low16Adds(from + data[0] as nat, Total(data[1..]));
    }
  }

  lemma {:induction false} TotalConcat(a: seq<octet>, b: seq<octet>)
    ensures Total(a + b) == Total(a) + Total(b)
  {
    if a == [] {
      assert a + b == b;
    } else {
      assert (a + b)[1..] == a[1..] + b;
      TotalConcat(a[1..], b);
    }
  }

  lemma TrivialConcat(a: seq<octet>, b: seq<octet>, from: nat)
    requires from < 0x1_0000
    ensures TrivialSum(a + b, from) == TrivialSum(b, TrivialSum(a, from)) && TrivialSum(a, from) < 0x1_0000
  {
    hide Low16, TrivialSum, Total;
    TrivialIsTotal(a + b, from);
    TrivialIsTotal(a, from);
    TrivialIsTotal(b, TrivialSum(a, from));
    TotalConcat(a, b);
    Low16Adds(from + Total(a), Total(b));
  }

  /** The checksum that storage starts out with is one that can be taken in parts. */
  lemma TrivialIsProper()
    ensures Limit(TRIVIAL) == 0x1_0000 && Typed(TRIVIAL) && Compositional(TRIVIAL)
  {
    hide Low16, TrivialSum;
    assert Power256(2) == 0x1_0000;
    TrivialOfNothing();
    forall a, b, from: nat | from < 0x1_0000
      ensures TRIVIAL.process(a + b, from) == TRIVIAL.process(b, TRIVIAL.process(a, from))
      ensures TRIVIAL.process(a, from) < 0x1_0000
    {
      TrivialConcat(a, b, from);
      TrivialProcess(a, from);
      TrivialProcess(a + b, from);
      TrivialProcess(b, TrivialSum(a, from));
    }
    forall data, from: nat | from < 0x1_0000
      ensures TRIVIAL.process(data, from) < 0x1_0000
    {
      TrivialConcat(data, [], from);
      TrivialProcess(data, from);
    }
  }

  /** It is the sum of all octets modulo 2^16, in two octets and from zero. */
  lemma TrivialIsModular(data: seq<octet>, from: nat)
    requires from < 0x1_0000
    ensures !TRIVIAL.wide && TRIVIAL.initial == 0 && TRIVIAL.process(data, from) == (from + Total(data)) % 0x1_0000
  {
    TrivialProcess(data, from);
    TrivialIsTotal(data, from);
  }

  lemma TrivialProcess(data: seq<octet>, from: nat)
    requires from < 0x1_0000
    ensures TRIVIAL.process(data, from) == TrivialSum(data, from)
  {
  }

  lemma TrivialOfNothing()
    ensures forall from: nat :: TrivialSum([], from) == from
  {
  }

  /** Altering any one octet alters the trivial sum. */
  lemma TrivialNoticesOctet(data: seq<octet>, i: nat, d: octet, from: nat)
    requires i < |data| && d != data[i] && from < 0x1_0000
    ensures TrivialSum(data[i := d], from) != TrivialSum(data, from)
  {
    var a, b := data[..i], data[i + 1..];
    assert data == a + ([data[i]] + b) && data[i := d] == a + ([d] + b);
    TotalConcat(a, [data[i]] + b);
    TotalConcat(a, [d] + b);
    assert ([data[i]] + b)[1..] == b && ([d] + b)[1..] == b;
    TrivialIsTotal(data, from);
    TrivialIsTotal(data[i := d], from);
    CloseButDifferent(from + Total(data), from + Total(data[i := d]));
  }

  lemma CloseButDifferent(m: nat, n: nat)
    requires m != n && m - 256 < n < m + 256
    ensures Low16(m) != Low16(n)
  {
  }

  /* ---------- Sections ---------- */

  /** The stored checksum is that of the data stored behind it. */
  ghost predicate Intact(sum: Checksum, size: nat, m: seq<octet>, at: nat, n: nat)
    requires 0 < size && at + Width(sum.wide) + n <= |m|
  {
    StoredSum(sum, m, at) == ChunkedSum(sum, size, sum.initial, StoredData(sum, m, at, n))
  }

  function StoredSum(sum: Checksum, m: seq<octet>, at: nat): nat
    requires at + Width(sum.wide) <= |m|
  {
    FromLittleEndian(m[at..at + Width(sum.wide)])
  }

  function StoredData(sum: Checksum, m: seq<octet>, at: nat, n: nat): (data: seq<octet>)
    requires at + Width(sum.wide) + n <= |m|
    ensures |data| == n
  {
    m[at + Width(sum.wide)..at + Width(sum.wide) + n]
  }

  /** A section octet for octet: a checksum of two or four octets, the lowest one first, and the data behind it. */
  lemma SectionOctets(sum: Checksum, size: nat, before: seq<octet>, stored: seq<octet>, data: seq<octet>, behind: seq<octet>)
    requires 0 < size && |stored| == if sum.wide then 4 else 2
    ensures var m := before + stored + data + behind;
            && StoredData(sum, m, |before|, |data|) == data
            && StoredSum(sum, m, |before|)
               == stored[0] as nat + 256 * stored[1] as nat
                  + (if sum.wide then 0x1_0000 * stored[2] as nat + 0x100_0000 * stored[3] as nat else 0)
            && (Intact(sum, size, m, |before|, |data|) <==>
                  StoredSum(sum, m, |before|) == ChunkedSum(sum, size, sum.initial, data))
  {
    hide ChunkedSum;
    var m := before + stored + data + behind;
    assert m[|before|..|before| + |stored|] == stored;
    assert m[|before| + |stored|..|before| + |stored| + |data|] == data;
    LowestFirst(stored);
  }

  lemma LowestFirst(s: seq<octet>)
    requires |s| == 2 || |s| == 4
    ensures FromLittleEndian(s) == s[0] as nat + 256 * s[1] as nat
                                   + (if |s| == 4 then 0x1_0000 * s[2] as nat + 0x100_0000 * s[3] as nat else 0)
  {
    var s1 := s[1..];
    var s2 := s1[1..];
    assert FromLittleEndian(s) == s[0] as nat + 256 * FromLittleEndian(s1);
    assert FromLittleEndian(s1) == s[1] as nat + 256 * FromLittleEndian(s2);
    if |s| == 4 {
      var s3 := s2[1..];
      assert FromLittleEndian(s2) == s[2] as nat + 256 * FromLittleEndian(s3);
      assert FromLittleEndian(s3) == s[3] as nat + 256 * FromLittleEndian(s3[1..]);
    }
  }

  /** Nothing but the section has changed. */
  ghost predicate OnlySection(sum: Checksum, before: seq<octet>, after: seq<octet>, at: nat, n: nat) {
    && |before| == |after|
    && forall i :: 0 <= i < |before| && !(at <= i < at + Width(sum.wide) + n) ==> before[i] == after[i]
  }

  /** With the trivial sum, altering any one octet of an intact section, data or sum, is noticed. */
  lemma TrivialNoticesDamage(size: nat, m: seq<octet>, at: nat, n: nat, i: nat, d: octet)
    requires 0 < size && at + 2 + n <= |m| && Intact(TRIVIAL, size, m, at, n)
    requires i < 2 + n && d != m[at + i]
    ensures !Intact(TRIVIAL, size, m[at + i := d], at, n)
  {
    hide TrivialSum, FromLittleEndian;
    var m' := m[at + i := d];
    var data, data' := StoredData(TRIVIAL, m, at, n), StoredData(TRIVIAL, m', at, n);
    TrivialIsProper();
    TrivialProcess(data, 0);
    TrivialProcess(data', 0);
    ChunkedIsWhole(TRIVIAL, size, 0, data);
    ChunkedIsWhole(TRIVIAL, size, 0, data');
    if i < 2 {
      assert data' == data;
      var s, s' := m[at..at + 2], m'[at..at + 2];
      assert s'[i] != s[i];
      LittleEndianInverts(s);
      LittleEndianInverts(s');
    } else {
      assert m'[at..at + 2] == m[at..at + 2];
      assert data' == data[i - 2 := d];
      TrivialNoticesOctet(data, i - 2, d, 0);
    }
  }

  /** Storage that may cut single accesses short before it works as it should. */
  class Medium {
    var data: seq<octet>
    var limits: seq<nat>

    constructor (data: seq<octet>, limits: seq<nat>)
      ensures this.data == data && this.limits == limits
    {
      this.data, this.limits := data, limits;
    }

    method Read(address: nat, n: nat) returns (count: nat, chunk: seq<octet>)
      requires address + n <= |data|
      modifies this`limits
      ensures count <= n && chunk == data[address..address + count]
      ensures old(limits) == [] ==> count == n
      ensures limits == if old(limits) == [] then [] else old(limits)[1..]
    {
      count := if limits != [] && limits[0] < n then limits[0] else n;
      limits := if limits == [] then [] else limits[1..];
      chunk := data[address..address + count];
    }

    method Write(address: nat, chunk: seq<octet>) returns (count: nat)
      requires address + |chunk| <= |data|
      modifies this
      ensures count <= |chunk| && data == Patched(old(data), address, chunk[..count])
      ensures old(limits) == [] ==> count == |chunk|
      ensures limits == if old(limits) == [] then [] else old(limits)[1..]
    {
      count := if limits != [] && limits[0] < |chunk| then limits[0] else |chunk|;
      limits := if limits == [] then [] else limits[1..];
      data := Patched(data, address, chunk[..count]);
    }
  }

  class Store {
    const medium: Medium
    const size: nat
    var sumAddress: nat
    var dataAddress: nat
    var sum: Checksum
    var bufferSize: nat

    ghost predicate Valid()
      reads this, medium
    {
      && 0 < bufferSize && Typed(sum)
      && dataAddress == sumAddress + Width(sum.wide) && dataAddress + size <= |medium.data|
    }

    /** Storage at the start of the medium, with the trivial sum and no buffer to speak of. */
    constructor (medium: Medium, size: nat)
      requires 2 + size <= |medium.data|
      ensures Valid() && this.medium == medium && this.size == size
      ensures sum == TRIVIAL && sumAddress == 0 && bufferSize == 1
    {
      this.medium, this.size := medium, size;
      sum, sumAddress, dataAddress, bufferSize := TRIVIAL, 0, 2, 1;
      TrivialIsProper();
    }

    /** The data stand behind a checksum of whatever width. */
    method SetChecksum(sum: Checksum)
      requires Valid() && Typed(sum) && sumAddress + Width(sum.wide) + size <= |medium.data|
      modifies this`sum, this`dataAddress
      ensures Valid() && this.sum == sum && dataAddress == sumAddress + Width(sum.wide)
    {
      this.sum := sum;
      dataAddress := sumAddress + Width(sum.wide);
    }

    method Place(address: nat)
      requires Valid() && address + Width(sum.wide) + size <= |medium.data|
      modifies this`sumAddress, this`dataAddress
      ensures Valid() && sumAddress == address && dataAddress == address + Width(sum.wide)
    {
      sumAddress := address;
      dataAddress := sumAddress + Width(sum.wide);
    }

    /** Another buffer neither breaks nor mends what is stored under a checksum that can be taken in parts. */
    method UseBuffer(n: nat)
      requires Valid() && 0 < n
      modifies this`bufferSize
      ensures Valid() && bufferSize == n
      ensures Compositional(sum) ==> Consistent() == old(Consistent())
    {
      if Compositional(sum) {
        ChunkedIsWhole(sum, bufferSize, sum.initial, Data());
        ChunkedIsWhole(sum, n, sum.initial, Data());
      }
      bufferSize := n;
    }

    /** The data in storage. */
    ghost function Data(): (data: seq<octet>)
      requires Valid()
      reads this, medium
      ensures |data| == size
    {
      StoredData(sum, medium.data, sumAddress, size)
    }

    ghost predicate Consistent()
      requires Valid()
      reads this, medium
    {
      Intact(sum, bufferSize, medium.data, sumAddress, size)
    }

    /** Take the checksum of the stored data, as much at a time as the buffer holds. */
    method CalculateChecksum() returns (access: Access, value: nat)
      requires Valid()
      modifies medium`limits
      ensures access == Success || access == IoError
      ensures access == Success ==> value == ChunkedSum(sum, bufferSize, sum.initial, Data()) < Limit(sum)
      ensures old(medium.limits) == [] ==> access == Success && medium.limits == []
    {
      hide ChunkedSum;
      ghost var data := Data();
      value := sum.initial;
      var rest, address := size, dataAddress;
      ChunkedIsTyped(sum, bufferSize, value, data);
      assert data[0..] == data;
      while rest > 0
        invariant 0 <= rest <= size && address == dataAddress + (size - rest)
        invariant ChunkedSum(sum, bufferSize, value, data[size - rest..]) == ChunkedSum(sum, bufferSize, sum.initial, data)
        invariant old(medium.limits) == [] ==> medium.limits == []
      {
        var toGet := if rest > bufferSize then bufferSize else rest;
        var n, chunk := medium.Read(address, toGet);
        if n != toGet {
          return IoError, value;
        }
        SliceOfSlice(medium.data, dataAddress, size, size - rest, toGet);
        ChunkStep(sum, bufferSize, value, data, size - rest, toGet);
        value := sum.process(chunk, value);
        rest, address := rest - toGet, address + toGet;
      }
      NoChunk(sum, bufferSize, value, data[size..]);
      return Success, value;
    }

    method StoreChecksum(value: nat) returns (access: Access)
      requires Valid() && value < Limit(sum)
      modifies medium
      ensures Valid() && (access == Success || access == IoError)
      ensures OnlySection(sum, old(medium.data), medium.data, sumAddress, 0)
      ensures access == Success ==> StoredSum(sum, medium.data, sumAddress) == value
      ensures old(medium.limits) == [] ==> access == Success && medium.limits == []
    {
      hide LittleEndian, FromLittleEndian, Typed;
      var image := LittleEndian(value, Width(sum.wide));
      var n := medium.Write(sumAddress, image);
      if n != Width(sum.wide) {
        return IoError;
      }
      assert medium.data[sumAddress..sumAddress + Width(sum.wide)] == image;
      LittleEndianRoundTrip(value, Width(sum.wide));
      return Success;
    }

    method FetchChecksum() returns (access: Access, value: nat)
      requires Valid()
      modifies medium`limits
      ensures access == Success || access == IoError
      ensures access == Success ==> value == StoredSum(sum, medium.data, sumAddress)
      ensures old(medium.limits) == [] ==> access == Success && medium.limits == []
    {
      var n, image := medium.Read(sumAddress, Width(sum.wide));
      if n != Width(sum.wide) {
        return IoError, 0;
      }
      return Success, FromLittleEndian(image);
    }

    method Validate() returns (access: Access)
      requires Valid()
      modifies medium`limits
      ensures access == Success || access == InvalidData || access == IoError
      ensures access == Success ==> Consistent()
      ensures access == InvalidData ==> !Consistent()
      ensures old(medium.limits) == [] ==>
                medium.limits == [] && access == if Consistent() then Success else InvalidData
    {
      var stored, calculated;
      access, stored := FetchChecksum();
      if access != Success {
        return;
      }
      access, calculated := CalculateChecksum();
      if access != Success {
        return;
      }
      return if stored == calculated then Success else InvalidData;
    }

    method FetchPart(offset: nat, n: nat) returns (access: Access, dst: seq<octet>)
      requires Valid()
      modifies medium`limits
      ensures offset + n > size <==> access == OutOfRange
      ensures access == Success ==> dst == Data()[offset..offset + n]
      ensures old(medium.limits) == [] && offset + n <= size ==> access == Success
    {
      if offset + n > size {
        return OutOfRange, [];
      }
      var address := dataAddress + offset;
      var read;
      read, dst := medium.Read(address, n);
      SliceOfSlice(medium.data, dataAddress, size, offset, n);
      return if read == n then Success else IoError, dst;
    }

    /** Replace a part of the data and bring the checksum up to date. */
    method StorePart(src: seq<octet>, offset: nat) returns (access: Access)
      requires Valid()
      modifies medium
      ensures Valid() && OnlySection(sum, old(medium.data), medium.data, sumAddress, size)
      ensures offset + |src| > size <==> access == OutOfRange
      ensures access == OutOfRange ==> medium.data == old(medium.data)
      ensures access == Success ==> Data() == Patched(old(Data()), offset, src)
      ensures access == Success && Compositional(sum) ==> Consistent()
      ensures old(medium.limits) == [] && offset + |src| <= size ==> access == Success && medium.limits == []
    {
      hide ChunkedSum, FromLittleEndian, Typed, Compositional;
      if offset + |src| > size {
        return OutOfRange;
      }
      ghost var before := medium.data;
      var address := dataAddress + offset;
      var stored := medium.Write(address, src);
      if stored != |src| {
        return IoError;
      }
      assert src[..|src|] == src;
      PatchedData(sum, before, sumAddress, size, offset, src);
      var value;
      if offset == 0 && |src| == size {
        value := sum.process(src, sum.initial);
        WholeSum(sum, bufferSize, src);
      } else {
        access, value := CalculateChecksum();
        if access != Success {
          return;
        }
      }
      ghost var patched := medium.data;
      access := StoreChecksum(value);
      SameData(sum, patched, medium.data, sumAddress, size);
    }

    /** What has been stored is valid and is what is fetched. */
    method StoreAndFetch(src: seq<octet>, offset: nat) returns (valid: Access, access: Access, dst: seq<octet>)
      requires Valid() && Compositional(sum) && medium.limits == [] && offset + |src| <= size
      modifies medium
      ensures Valid() && valid == access == Success && dst == Patched(old(Data()), offset, src)
    {
      access := StorePart(src, offset);
      valid := Validate();
      access, dst := FetchPart(0, size);
      assert Data()[0..size] == Data();
    }

    method Written(address: nat, item: octet, k: nat) returns (access: Access)
      requires 0 < bufferSize && address + k <= |medium.data|
      modifies medium
      ensures access == Success || access == IoError
      ensures |medium.data| == old(|medium.data|)
      ensures forall i :: 0 <= i < |medium.data| && !(address <= i < address + k) ==> medium.data[i] == old(medium.data)[i]
      ensures access == Success ==> forall i :: address <= i < address + k ==> medium.data[i] == item
      ensures old(medium.limits) == [] ==> access == Success && medium.limits == []
    {
      var rest, at := k, address;
      while rest > 0
        invariant 0 <= rest <= k && at == address + (k - rest)
        invariant |medium.data| == old(|medium.data|)
        invariant forall i :: 0 <= i < |medium.data| && !(address <= i < at) ==> medium.data[i] == old(medium.data)[i]
        invariant forall i :: address <= i < at ==> medium.data[i] == item
        invariant old(medium.limits) == [] ==> medium.limits == []
      {
        var toPut := if rest > bufferSize then bufferSize else rest;
        var n := medium.Write(at, seq(toPut, _ => item));
        if n != toPut {
          return IoError;
        }
        rest, at := rest - toPut, at + toPut;
      }
      return Success;
    }

    /** Fill checksum and data with copies of one octet. The result is valid only if that happens to be a match. */
    method Reset(item: octet) returns (access: Access)
      requires Valid()
      modifies medium
      ensures Valid() && OnlySection(sum, old(medium.data), medium.data, sumAddress, size)
      ensures access == Success ==>
                forall i :: sumAddress <= i < sumAddress + Width(sum.wide) + size ==> medium.data[i] == item
      ensures old(medium.limits) == [] ==> access == Success
    {
      access := Written(sumAddress, item, Width(sum.wide));
      if access != Success {
        return;
      }
      access := Written(dataAddress, item, size);
    }
  }

  lemma PatchedData(sum: Checksum, m: seq<octet>, at: nat, n: nat, offset: nat, src: seq<octet>)
    requires at + Width(sum.wide) + n <= |m| && offset + |src| <= n
    ensures var m' := Patched(m, at + Width(sum.wide) + offset, src);
            StoredData(sum, m', at, n) == Patched(StoredData(sum, m, at, n), offset, src)
  {
  }

  lemma SameData(sum: Checksum, m: seq<octet>, m': seq<octet>, at: nat, n: nat)
    requires at + Width(sum.wide) + n <= |m| && OnlySection(sum, m, m', at, 0)
    ensures StoredData(sum, m', at, n) == StoredData(sum, m, at, n)
  {
  }

  lemma WholeSum(sum: Checksum, size: nat, data: seq<octet>)
    requires Typed(sum) && 0 < size
    ensures sum.process(data, sum.initial) < Limit(sum)
    ensures Compositional(sum) ==> ChunkedSum(sum, size, sum.initial, data) == sum.process(data, sum.initial)
  {
    if Compositional(sum) {
      ChunkedIsWhole(sum, size, sum.initial, data);
    }
  }
}
