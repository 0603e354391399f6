/** The layout of a versioned section in storage, and what loading makes of it. */
module VersionedSection {
  import opened Octets
  import Crc16Arc
  import Crc16Distance

  const SIZE_META: nat := 8
  const CHUNK: nat := 16

  datatype Code = Success | EInvalid | EFault | EBadHeader | EBadPayload

  /** A 16-bit checksum that continues from an earlier value. */
  type Process = (word, seq<octet>) -> word

  datatype Algorithm = Algorithm(initial: word, process: Process)

  const DEFAULT_ALGORITHM: Algorithm := Algorithm(0, Crc16Arc.Checksum)

  /** A 16-bit number in the memory of a little-endian host. */
  function ToMemory(n: word): (s: seq<octet>)
    ensures |s| == 2
    ensures FromMemory(s) == n
  {
    [(n % 256) as octet, (n / 256) as octet]
  }

  function FromMemory(s: seq<octet>): word
    requires |s| == 2
  {
    s[0] as word + 256 * s[1] as word
  }

  lemma FromMemoryInjective(s: seq<octet>, t: seq<octet>)
    requires |s| == |t| == 2 && FromMemory(s) == FromMemory(t)
    ensures s == t
  {
  }

  /** The meta data block: header checksum, version, length, payload checksum. */
  type Header = h: seq<octet> | |h| == SIZE_META witness [0, 0, 0, 0, 0, 0, 0, 0]

  function HeaderSum(h: Header): word {
    FromMemory(h[..2])
  }

  function Version(h: Header): word {
    FromMemory(h[2..4])
  }

  function Length(h: Header): word {
    FromMemory(h[4..6])
  }

  function PayloadSum(h: Header): word {
    FromMemory(h[6..8])
  }

  /** The checksum that belongs into a header. */
  function ProperHeaderSum(alg: Algorithm, h: Header): word {
    alg.process(alg.initial, h[2..])
  }

  /** The checksum of a payload, taken in chunks of sixteen octets. */
  function ChunkedSum(alg: Algorithm, sum: word, payload: seq<octet>): word
    decreases |payload|
  {
    if payload == [] then sum
    else
      var n := if |payload| > CHUNK then CHUNK else |payload|;
      ChunkedSum(alg, alg.process(sum, payload[..n]), payload[n..])
  }

  /** A checksum goes over sixteen octets at a time, and over the rest at last. */
  lemma SixteenAtATime(alg: Algorithm, sum: word, payload: seq<octet>)
    ensures 0 < |payload| <= 16 ==> ChunkedSum(alg, sum, payload) == alg.process(sum, payload)
    ensures |payload| > 16 ==> ChunkedSum(alg, sum, payload) == ChunkedSum(alg, alg.process(sum, payload[..16]), payload[16..])
  {
    if 0 < |payload| <= 16 {
      assert payload[..|payload|] == payload && payload[|payload|..] == [];
    }
  }

  lemma NoChunk(alg: Algorithm, sum: word, payload: seq<octet>)
    requires payload == []
    ensures ChunkedSum(alg, sum, payload) == sum
  {
  }

  lemma ChunkStep(alg: Algorithm, sum: word, payload: seq<octet>, done: nat, n: nat)
    requires done < |payload| && n == if |payload| - done > CHUNK then CHUNK else |payload| - done
    ensures ChunkedSum(alg, sum, payload[done..])
         == ChunkedSum(alg, alg.process(sum, payload[done..done + n]), payload[done + n..])
  {
    var left := payload[done..];
    assert left[..n] == payload[done..done + n] && left[n..] == payload[done + n..];
  }

  /* ---------- Sections in storage ---------- */

  /** The storage can hold a section with a payload of the given length at the address. */
  predicate Roomy(medium: seq<octet>, address: nat, length: nat) {
    address + SIZE_META + length <= |medium|
  }

  function StoredHeader(medium: seq<octet>, address: nat): Header
    requires Roomy(medium, address, 0)
  {
    medium[address..address + SIZE_META]
  }

  function StoredPayload(medium: seq<octet>, address: nat, length: nat): (payload: seq<octet>)
    requires Roomy(medium, address, length)
    ensures |payload| == length
  {
    medium[address + SIZE_META..address + SIZE_META + length]
  }

  predicate HeaderIntact(alg: Algorithm, medium: seq<octet>, address: nat)
    requires Roomy(medium, address, 0)
  {
    var h := StoredHeader(medium, address);
    HeaderSum(h) == ProperHeaderSum(alg, h)
  }

  predicate PayloadIntact(alg: Algorithm, medium: seq<octet>, address: nat)
    requires Roomy(medium, address, 0)
  {
    var h := StoredHeader(medium, address);
    && Roomy(medium, address, Length(h) as nat)
    && PayloadSum(h) == ChunkedSum(alg, alg.initial, StoredPayload(medium, address, Length(h) as nat))
  }

  /** The header's checksum is wrong in every bit. */
  predicate HeaderInverted(alg: Algorithm, medium: seq<octet>, address: nat)
    requires Roomy(medium, address, 0)
  {
    var h := StoredHeader(medium, address);
    HeaderSum(h) as nat + ProperHeaderSum(alg, h) as nat == 0xffff
  }

  /** The payload's checksum is wrong in every bit. */
  predicate PayloadInverted(alg: Algorithm, medium: seq<octet>, address: nat)
    requires Roomy(medium, address, 0)
  {
    var h := StoredHeader(medium, address);
    && Roomy(medium, address, Length(h) as nat)
    && PayloadSum(h) as nat + ChunkedSum(alg, alg.initial, StoredPayload(medium, address, Length(h) as nat)) as nat == 0xffff
  }

  /** An intact header does not announce more than the storage has. */
  predicate Announced(alg: Algorithm, medium: seq<octet>, address: nat) {
    && Roomy(medium, address, 0)
    && (HeaderIntact(alg, medium, address) ==> Roomy(medium, address, Length(StoredHeader(medium, address)) as nat))
  }

  /** What loading a section comes to. */
  function LoadCode(alg: Algorithm, medium: seq<octet>, address: nat): Code
    requires Announced(alg, medium, address)
  {
    if !HeaderIntact(alg, medium, address) then EBadHeader
    else if !PayloadIntact(alg, medium, address) then EBadPayload
    else Success
  }

  /** Two states of the storage differ at most in the section of the given length. */
  ghost predicate OnlySectionDiffers(before: seq<octet>, after: seq<octet>, address: nat, length: nat) {
    && |before| == |after|
    && forall i :: 0 <= i < |before| && !(address <= i < address + SIZE_META + length) ==> before[i] == after[i]
  }

  /* ---------- Damage is noticed ---------- */

  lemma {:induction false} ChunkedIsWhole(sum: word, payload: seq<octet>)
    ensures ChunkedSum(DEFAULT_ALGORITHM, sum, payload) == Crc16Arc.Checksum(sum, payload)
    decreases |payload|
  {
    if payload != [] {
      var n := if |payload| > CHUNK then CHUNK else |payload|;
      assert payload == payload[..n] + payload[n..];
      Crc16Arc.ChecksumConcat(sum, payload[..n], payload[n..]);
      ChunkedIsWhole(Crc16Arc.Checksum(sum, payload[..n]), payload[n..]);
    } else {
      EmptyChecksum(sum);
    }
  }

  lemma EmptyChecksum(sum: word)
    ensures Crc16Arc.Checksum(sum, []) == sum
  {
    Crc16Arc.ChecksumOfNothing(sum);
  }

  /**
   What loads with the default checksum, octet for octet: checksum of the header, version, length and checksum
   of the payload in two octets each, the lower one first, and behind them the payload.
   */
  lemma LoadableOctets(section: seq<octet>, before: seq<octet>, behind: seq<octet>, n: nat)
    requires |section| >= 8 && n == section[4] as nat + 256 * section[5] as nat && |section| == 8 + n
    ensures var medium := before + section + behind;
            && Announced(DEFAULT_ALGORITHM, medium, |before|)
            && Version(StoredHeader(medium, |before|)) as nat == section[2] as nat + 256 * section[3] as nat
            && Length(StoredHeader(medium, |before|)) as nat == n
            && (LoadCode(DEFAULT_ALGORITHM, medium, |before|) == EBadHeader <==>
                  section[0] as nat + 256 * section[1] as nat != Crc16Arc.Checksum(0, section[2..8]) as nat)
            && (LoadCode(DEFAULT_ALGORITHM, medium, |before|) == Success <==>
                  && section[0] as nat + 256 * section[1] as nat == Crc16Arc.Checksum(0, section[2..8]) as nat
                  && section[6] as nat + 256 * section[7] as nat == Crc16Arc.Checksum(0, section[8..]) as nat)
  {
    hide Crc16Arc.Checksum, ChunkedSum;
    var medium := before + section + behind;
    var h := StoredHeader(medium, |before|);
    assert h == section[..8] && h[2..] == section[2..8];
    assert StoredPayload(medium, |before|, n) == section[8..];
    ChunkedIsWhole(0, section[8..]);
  }

  /** Altering any one octet of a header breaks it. */
  lemma AlteredHeader(h: Header, i: nat, d: octet)
    requires i < SIZE_META && d != h[i]
    requires HeaderSum(h) == ProperHeaderSum(DEFAULT_ALGORITHM, h)
    ensures HeaderSum(h[i := d]) != ProperHeaderSum(DEFAULT_ALGORITHM, h[i := d])
  {
    var h' := h[i := d];
    if i < 2 {
      assert h'[2..] == h[2..];
      assert h'[..2][i] != h[..2][i];
      if HeaderSum(h') == HeaderSum(h) {
        FromMemoryInjective(h[..2], h'[..2]);
      }
    } else {
      assert h'[..2] == h[..2];
      assert h'[2..] == h[2..][i - 2 := d];
      Crc16Arc.ChecksumDetectsOctet(0, h[2..], i - 2, d);
    }
  }

  /** Altering any one octet of an intact section is noticed, and told apart by where it is. */
  lemma AlteredOctetIsNoticed(medium: seq<octet>, address: nat, i: nat, d: octet)
    requires Announced(DEFAULT_ALGORITHM, medium, address) && LoadCode(DEFAULT_ALGORITHM, medium, address) == Success
    requires i < SIZE_META + Length(StoredHeader(medium, address)) as nat && d != medium[address + i]
    ensures Announced(DEFAULT_ALGORITHM, medium[address + i := d], address)
    ensures LoadCode(DEFAULT_ALGORITHM, medium[address + i := d], address) == if i < SIZE_META then EBadHeader else EBadPayload
  {
    var medium' := medium[address + i := d];
    var h := StoredHeader(medium, address);
    if i < SIZE_META {
      assert StoredHeader(medium', address) == h[i := d];
      AlteredHeader(h, i, d);
    } else {
      var n := Length(h) as nat;
      var payload := StoredPayload(medium, address, n);
      assert StoredHeader(medium', address) == h;
      assert StoredPayload(medium', address, n) == payload[i - SIZE_META := d];
      Crc16Arc.ChecksumDetectsOctet(0, payload, i - SIZE_META, d);
      ChunkedIsWhole(0, payload);
      ChunkedIsWhole(0, payload[i - SIZE_META := d]);
    }
  }

  /** So is any odd number of inverted bits in the payload. */
  lemma OddPayloadInversionsAreNoticed(medium: seq<octet>, medium': seq<octet>, address: nat)
    requires Announced(DEFAULT_ALGORITHM, medium, address) && LoadCode(DEFAULT_ALGORITHM, medium, address) == Success
    requires |medium'| == |medium| && StoredHeader(medium', address) == StoredHeader(medium, address)
    requires var n := Length(StoredHeader(medium, address)) as nat;
             Crc16Arc.Inversions(Crc16Arc.Bits(StoredPayload(medium, address, n)),
                                 Crc16Arc.Bits(StoredPayload(medium', address, n))) % 2 == 1
    ensures Announced(DEFAULT_ALGORITHM, medium', address)
    ensures LoadCode(DEFAULT_ALGORITHM, medium', address) == EBadPayload
  {
    hide Crc16Arc.Bits, Crc16Arc.Inversions, Crc16Arc.Checksum;
    var n := Length(StoredHeader(medium, address)) as nat;
    var payload, payload' := StoredPayload(medium, address, n), StoredPayload(medium', address, n);
    Crc16Arc.ChecksumDetectsOddInversions(0, payload, payload');
    ChunkedIsWhole(0, payload);
    ChunkedIsWhole(0, payload');
  }

  /** So are up to three inverted bits in a payload of less than 4096 octets. */
  lemma ThreePayloadInversionsAreNoticed(medium: seq<octet>, medium': seq<octet>, address: nat)
    requires Announced(DEFAULT_ALGORITHM, medium, address) && LoadCode(DEFAULT_ALGORITHM, medium, address) == Success
    requires |medium'| == |medium| && StoredHeader(medium', address) == StoredHeader(medium, address)
    requires var n := Length(StoredHeader(medium, address)) as nat;
             n < 4096
             && 1 <= Crc16Arc.Inversions(Crc16Arc.Bits(StoredPayload(medium, address, n)),
                                         Crc16Arc.Bits(StoredPayload(medium', address, n))) <= 3
    ensures Announced(DEFAULT_ALGORITHM, medium', address)
    ensures LoadCode(DEFAULT_ALGORITHM, medium', address) == EBadPayload
  {
    hide Crc16Arc.Bits, Crc16Arc.Inversions, Crc16Arc.Checksum;
    var n := Length(StoredHeader(medium, address)) as nat;
    var payload, payload' := StoredPayload(medium, address, n), StoredPayload(medium', address, n);
    Crc16Distance.ThreeInversionsDetected(0, payload, payload');
    ChunkedIsWhole(0, payload);
    ChunkedIsWhole(0, payload');
  }

  /** So is any burst of up to sixteen bits in the payload. */
  lemma PayloadBurstIsNoticed(medium: seq<octet>, medium': seq<octet>, address: nat, k: nat)
    requires Announced(DEFAULT_ALGORITHM, medium, address) && LoadCode(DEFAULT_ALGORITHM, medium, address) == Success
    requires |medium'| == |medium|
    requires StoredHeader(medium', address) == StoredHeader(medium, address)
    requires var n := Length(StoredHeader(medium, address)) as nat;
             Crc16Arc.BurstApart(StoredPayload(medium, address, n), StoredPayload(medium', address, n), k)
    ensures Announced(DEFAULT_ALGORITHM, medium', address)
    ensures LoadCode(DEFAULT_ALGORITHM, medium', address) == EBadPayload
  {
    var n := Length(StoredHeader(medium, address)) as nat;
    var payload, payload' := StoredPayload(medium, address, n), StoredPayload(medium', address, n);
    Crc16Arc.ChecksumDetectsBurst(0, payload, payload', k);
    ChunkedIsWhole(0, payload);
    ChunkedIsWhole(0, payload');
  }
}

/** Versioned persistence: a section with a verified header and payload. */
module VersionedPersistence {
  import opened Octets
  import opened VersionedSection

  datatype Command =
    | FormatCommand
    | LoadCommand
    | MemsetCommand(datum: octet, offset: nat, n: nat)
    | InvalidateCommand(meta: bool, payload: bool)
    | FetchCommand(offset: nat, n: nat)
    | StoreCommand(src: seq<octet>, offset: nat)
    | SaveCommand(src: seq<octet>)

  class Instance {
    const address: nat
    const specVersion: word
    const specLength: word
    const alg: Algorithm

    var metablock: Header
    var cacheActive: bool
    var cacheFromStorage: bool
    var metaConsistent: bool
    var payloadConsistent: bool
    var payloadCompatible: bool
    var lengthCompatible: bool
    var versionCompatible: bool
    var resultHeader: word
    var resultPayload: word

    // The storage behind the source and the sink, and where each of them stands.
    var medium: seq<octet>
    var sourceAt: nat
    var sinkAt: nat

    constructor (address: nat, specVersion: word, specLength: word, alg: Algorithm, medium: seq<octet>)
      requires Roomy(medium, address, specLength as nat) && Announced(alg, medium, address)
      ensures this.address == address && this.specVersion == specVersion && this.specLength == specLength
      ensures this.alg == alg && this.medium == medium && Sound()
      ensures !cacheActive && !cacheFromStorage && !metaConsistent && !payloadConsistent
      ensures !payloadCompatible && !lengthCompatible && !versionCompatible
    {
      this.address, this.specVersion, this.specLength, this.alg := address, specVersion, specLength, alg;
      this.medium, sourceAt, sinkAt := medium, 0, 0;
      metablock := seq(8, _ => 0);
      cacheActive, cacheFromStorage, metaConsistent, payloadConsistent := false, false, false, false;
      payloadCompatible, lengthCompatible, versionCompatible := false, false, false;
      resultHeader, resultPayload := 0, 0;
    }

    /** The storage has room for every section that the instance knows of. */
    ghost predicate Fitting()
      reads this
    {
      && Roomy(medium, address, specLength as nat) && Announced(alg, medium, address)
      && (cacheActive ==> Roomy(medium, address, Length(metablock) as nat))
    }

    /** The consistency flags tell the truth about the storage, and the cached header is the stored one. */
    ghost predicate Sound()
      reads this
    {
      && Fitting()
      && (metaConsistent ==> HeaderIntact(alg, medium, address))
      && (payloadConsistent ==> PayloadIntact(alg, medium, address))
      && (metaConsistent || payloadConsistent ==> cacheActive && metablock == StoredHeader(medium, address))
    }

    predicate Usable()
      reads this
    {
      metaConsistent && payloadCompatible && payloadConsistent
    }

    /* ---------- Storage access ---------- */

    method GetChunk(n: nat) returns (chunk: seq<octet>)
      requires sourceAt + n <= |medium|
      modifies this`sourceAt
      ensures chunk == medium[old(sourceAt)..old(sourceAt) + n] && sourceAt == old(sourceAt) + n
    {
      chunk := medium[sourceAt..sourceAt + n];
      sourceAt := sourceAt + n;
    }

    method PutChunk(chunk: seq<octet>)
      requires sinkAt + |chunk| <= |medium|
      modifies this`sinkAt, this`medium
      ensures medium == Patched(old(medium), old(sinkAt), chunk) && sinkAt == old(sinkAt) + |chunk|
    {
      medium := Patched(medium, sinkAt, chunk);
      sinkAt := sinkAt + |chunk|;
    }

    /* ---------- The header cache ---------- */

    method LoadMetaFromSpec()
      modifies this`metablock, this`cacheActive, this`cacheFromStorage
      ensures cacheActive && !cacheFromStorage && metablock == SpecHeader(old(metablock), specVersion, specLength)
    {
      metablock := SpecHeader(metablock, specVersion, specLength);
      cacheActive, cacheFromStorage := true, false;
    }

    method ActivateCache()
      requires Fitting()
      modifies this`metablock, this`cacheActive, this`cacheFromStorage
      ensures cacheActive && Fitting()
      ensures old(cacheActive) ==> metablock == old(metablock)
      ensures !old(cacheActive) ==> metablock == SpecHeader(old(metablock), specVersion, specLength)
    {
      if !cacheActive {
        LoadMetaFromSpec();
      }
    }

    method CalculateHeaderChecksum()
      modifies this`resultHeader
      ensures resultHeader == ProperHeaderSum(alg, metablock)
    {
      resultHeader := alg.process(alg.initial, metablock[2..]);
    }

    method CalculatePayloadChecksum(n: nat)
      requires Roomy(medium, address, n)
      modifies this`resultPayload, this`sourceAt
      ensures resultPayload == ChunkedSum(alg, alg.initial, StoredPayload(medium, address, n))
    {
      hide ChunkedSum;
      ghost var payload := StoredPayload(medium, address, n);
      sourceAt := address + SIZE_META;
      var sum, rest := alg.initial, n;
      while rest > 0
        invariant 0 <= rest <= n && sourceAt == address + SIZE_META + (n - rest)
        invariant ChunkedSum(alg, sum, payload[n - rest..]) == ChunkedSum(alg, alg.initial, payload)
      {
        var toRead := if rest > CHUNK then CHUNK else rest;
        var chunk := GetChunk(toRead);
        SliceOfSlice(medium, address + SIZE_META, n, n - rest, toRead);
        ChunkStep(alg, sum, payload, n - rest, toRead);
        rest := rest - toRead;
        sum := alg.process(sum, chunk);
      }
      NoChunk(alg, sum, payload[n..]);
      resultPayload := sum;
    }

    /** Read the stored header into the cache and verify it. */
    method ReadMeta() returns (rc: Code)
      requires Roomy(medium, address, 0)
      modifies this`metablock, this`cacheActive, this`cacheFromStorage, this`metaConsistent, this`resultHeader, this`sourceAt
      ensures metablock == StoredHeader(medium, address)
      ensures cacheActive == cacheFromStorage == metaConsistent == HeaderIntact(alg, medium, address)
      ensures rc == if metaConsistent then Success else EBadHeader
    {
      sourceAt := address;
      metablock := GetChunk(SIZE_META);
      CalculateHeaderChecksum();
      var intact := HeaderSum(metablock) == resultHeader;
      cacheActive, cacheFromStorage, metaConsistent := intact, intact, intact;
      return if intact then Success else EBadHeader;
    }

    method VerifyPayload(n: nat) returns (rc: Code)
      requires Roomy(medium, address, n)
      modifies this`resultPayload, this`sourceAt
      ensures rc == if PayloadSum(metablock) == ChunkedSum(alg, alg.initial, StoredPayload(medium, address, n)) then Success
                    else EBadPayload
    {
      CalculatePayloadChecksum(n);
      return if PayloadSum(metablock) == resultPayload then Success else EBadPayload;
    }

    method StoreHeader()
      requires Roomy(medium, address, 0)
      modifies this`sinkAt, this`medium
      ensures medium == Patched(old(medium), address, metablock)
    {
      sinkAt := address;
      PutChunk(metablock);
    }

    /** Put both checksums into the cached header, the payload's first since the other one covers it. */
    method UpdateChecksums()
      requires Roomy(medium, address, Length(metablock) as nat)
      modifies this`metablock, this`resultHeader, this`resultPayload, this`sourceAt
      ensures metablock == Refreshed(alg, old(metablock), medium, address)
    {
      var n := Length(metablock);
      CalculatePayloadChecksum(n as nat);
      metablock := WithPayloadSum(metablock, resultPayload);
      CalculateHeaderChecksum();
      metablock := WithHeaderSum(metablock, resultHeader);
      CalculateHeaderChecksum();
    }

    method UpdateMeta()
      requires Roomy(medium, address, Length(metablock) as nat) && cacheActive
      modifies this`metablock, this`resultHeader, this`resultPayload, this`sourceAt, this`sinkAt, this`medium
      ensures metablock == Refreshed(alg, old(metablock), old(medium), address)
      ensures medium == Patched(old(medium), address, metablock)
    {
      UpdateChecksums();
      StoreHeader();
    }

    /* ---------- The interface ---------- */

    /** The payload length that an operation goes by: the cached one, or else the specified one. */
    function CachedLength(): nat
      reads this
    {
      if cacheActive then Length(metablock) as nat else specLength as nat
    }

    /** Fill a part of the payload with one datum. */
    method Memset(datum: octet, offset: nat, n: nat) returns (rc: Code)
      requires Sound()
      modifies this
      ensures Sound() && FlagsKept()
      ensures cacheActive && Length(metablock) as nat == old(CachedLength())
      ensures rc == if offset + n > old(CachedLength()) then EInvalid else Success
      ensures rc == Success ==> Rewritten(old(medium), offset, seq(n, _ => datum))
      ensures rc != Success ==> medium == old(medium)
    {
      hide Refreshed, ChunkedSum, Patched, LoadCode, OnlySectionDiffers, Version, HeaderIntact, PayloadIntact;
      ActivateCache();
      if n + offset > Length(metablock) as nat {
        return EInvalid;
      }
      sinkAt := address + SIZE_META + offset;
      ghost var before := medium;
      Fill(datum, n);
      ghost var data := seq(n, _ => datum);
      RewriteSection(alg, before, metablock, address, offset, data);
      UpdateMeta();
      return Success;
    }

    /** Put copies of a datum into storage, sixteen at a time. */
    method Fill(datum: octet, n: nat)
      requires sinkAt + n <= |medium|
      modifies this`sinkAt, this`medium
      ensures medium == Patched(old(medium), old(sinkAt), seq(n, _ => datum))
    {
      hide Patched;
      var rest := n;
      ghost var before, start, data := medium, sinkAt, seq(n, _ => datum);
      PatchNothing(medium, start, data[..0]);
      while rest > 0
        invariant 0 <= rest <= n && sinkAt == start + (n - rest) && |medium| == |before|
        invariant medium == Patched(before, start, data[..n - rest])
      {
        var toWrite := if rest > CHUNK then CHUNK else rest;
        PatchMore(before, start, data, n - rest, seq(toWrite, _ => datum));
        PutChunk(seq(toWrite, _ => datum));
        rest := rest - toWrite;
      }
      assert data[..n] == data;
    }

    /** The flags that say what is known of the storage, and the section's specification, are kept. */
    twostate predicate FlagsKept()
      reads this
    {
      && metaConsistent == old(metaConsistent) && payloadConsistent == old(payloadConsistent)
      && payloadCompatible == old(payloadCompatible) && lengthCompatible == old(lengthCompatible)
      && versionCompatible == old(versionCompatible)
    }

    /** A part of the payload has been replaced and the section made to match; nothing else has changed. */
    ghost predicate Rewritten(before: seq<octet>, offset: nat, data: seq<octet>)
      reads this
    {
      && Announced(alg, medium, address)
      && var length := Length(metablock) as nat;
         && Roomy(before, address, length) && Roomy(medium, address, length) && offset + |data| <= length
         && StoredHeader(medium, address) == metablock
         && LoadCode(alg, medium, address) == Success
         && StoredPayload(medium, address, length) == Patched(StoredPayload(before, address, length), offset, data)
         && OnlySectionDiffers(before, medium, address, length)
    }

    /** Install a header after the specification, with a payload checksum that is surely wrong. */
    method Format() returns (rc: Code)
      requires Sound()
      modifies this
      ensures Sound() && rc == Success
      ensures cacheActive && metaConsistent && !payloadConsistent
      ensures Version(metablock) == specVersion && Length(metablock) == specLength
      ensures LoadCode(alg, medium, address) == EBadPayload && PayloadInverted(alg, medium, address)
      ensures OnlySectionDiffers(old(medium), medium, address, 0)
    {
      LoadMetaFromSpec();
      InvalidateParts(false, true);
      rc := ReadMeta();
    }

    /** Make checksums wrong on purpose: the header's, the payload's, or both. */
    method Invalidate(meta: bool, payload: bool) returns (rc: Code)
      requires Sound()
      modifies this
      ensures Sound() && rc == Success
      ensures Length(metablock) as nat == old(CachedLength())
      ensures meta || payload ==> metablock == StoredHeader(medium, address)
      ensures meta || payload ==>
                LoadCode(alg, medium, address) == if meta then EBadHeader else EBadPayload
      ensures meta ==> HeaderInverted(alg, medium, address)
      ensures payload ==> PayloadInverted(alg, medium, address)
      ensures Version(metablock) == if old(cacheActive) then old(Version(metablock)) else specVersion
      ensures metaConsistent == (old(metaConsistent) && !meta)
      ensures payloadConsistent == (old(payloadConsistent) && !payload)
      ensures OnlySectionDiffers(old(medium), medium, address, 0)
      ensures !meta && !payload ==> medium == old(medium)
    {
      ActivateCache();
      if !meta && !payload {
        return Success;
      }
      InvalidateParts(meta, payload);
      return Success;
    }

    method InvalidateParts(meta: bool, payload: bool)
      requires Roomy(medium, address, Length(metablock) as nat) && cacheActive && (meta || payload)
      modifies this
      ensures Roomy(medium, address, Length(metablock) as nat) && cacheActive
      ensures metaConsistent == (old(metaConsistent) && !meta)
      ensures payloadConsistent == (old(payloadConsistent) && !payload)
      ensures payloadCompatible == old(payloadCompatible)
      ensures metablock == StoredHeader(medium, address)
      ensures Length(metablock) == old(Length(metablock)) && Version(metablock) == old(Version(metablock))
      ensures HeaderIntact(alg, medium, address) == !meta
      ensures PayloadIntact(alg, medium, address) == !payload
      ensures meta ==> HeaderInverted(alg, medium, address)
      ensures payload ==> PayloadInverted(alg, medium, address)
      ensures OnlySectionDiffers(old(medium), medium, address, 0)
    {
      hide HeaderInverted, PayloadInverted, Refreshed, ChunkedSum, Patched, ProperHeaderSum, WithHeaderSum, WithPayloadSum, OnlySectionDiffers;
      ghost var spoilt := Spoilt(alg, Refreshed(alg, metablock, medium, address), meta, payload);
      SpoiltSection(alg, metablock, medium, address, meta, payload);
      UpdateChecksums();
      if payload {
        metablock := WithPayloadSum(metablock, 0xffff - PayloadSum(metablock));
        payloadConsistent := false;
        CalculateHeaderChecksum();
        metablock := WithHeaderSum(metablock, resultHeader);
      }
      if meta {
        metablock := WithHeaderSum(metablock, 0xffff - HeaderSum(metablock));
        metaConsistent := false;
      }
      assert metablock == spoilt;
      StoreHeader();
    }

    /** Read a part of the payload; header and payload must have been verified. */
    method Fetch(offset: nat, n: nat) returns (rc: Code, data: seq<octet>)
      requires Sound()
      modifies this
      ensures Sound() && medium == old(medium)
      ensures payloadConsistent == old(payloadConsistent)
      ensures metablock == if old(cacheActive) then old(metablock) else StoredHeader(medium, address)
      ensures cacheActive == (old(cacheActive) || HeaderIntact(alg, medium, address))
      ensures old(cacheActive) ==> FlagsKept()
      ensures rc == Success ==>
                && offset + n <= Length(StoredHeader(medium, address)) as nat
                && LoadCode(alg, medium, address) == Success
                && data == StoredPayload(medium, address, Length(StoredHeader(medium, address)) as nat)[offset..offset + n]
      ensures rc == if !old(cacheActive) && !HeaderIntact(alg, medium, address) then EBadHeader
                    else if !old(metaConsistent) || !old(payloadConsistent) then EInvalid
                    else if offset + n > Length(StoredHeader(medium, address)) as nat then EFault
                    else if n == 0 then EInvalid
                    else Success
    {
      data := [];
      if !cacheActive {
        rc := ReadMeta();
        if rc != Success {
          return;
        }
      }
      if !payloadConsistent || !metaConsistent {
        return EInvalid, data;
      }
      if offset + n > Length(metablock) as nat {
        return EFault, data;
      }
      sourceAt := address + SIZE_META + offset;
      if n == 0 {
        return EInvalid, data;
      }
      data := GetChunk(n);
      SliceOfSlice(medium, address + SIZE_META, Length(metablock) as nat, offset, n);
      return Success, data;
    }

    /** Write a part of the payload; only the header must have been verified. */
    method Store(src: seq<octet>, offset: nat) returns (rc: Code)
      requires Sound()
      modifies this
      ensures Sound() && FlagsKept()
      ensures cacheActive && Length(metablock) as nat == old(CachedLength())
      ensures old(cacheActive) ==> Version(metablock) == old(Version(metablock))
      ensures rc == if !old(metaConsistent) then EInvalid
                    else if offset + |src| > old(CachedLength()) then EFault
                    else Success
      ensures rc == Success ==> Rewritten(old(medium), offset, src)
      ensures rc != Success ==> medium == old(medium) && (old(cacheActive) ==> metablock == old(metablock))
    {
      hide Refreshed, ChunkedSum, Patched, LoadCode, OnlySectionDiffers, Version, HeaderIntact, PayloadIntact;
      ActivateCache();
      if !metaConsistent {
        return EInvalid;
      }
      if offset + |src| > Length(metablock) as nat {
        return EFault;
      }
      sinkAt := address + SIZE_META + offset;
      ghost var before := medium;
      PutChunk(src);
      RewriteSection(alg, before, metablock, address, offset, src);
      UpdateMeta();
      return Success;
    }

    /** Verify header and payload, and note how they compare to the specification. */
    method Load() returns (rc: Code)
      requires Announced(alg, medium, address) && Roomy(medium, address, specLength as nat)
      modifies this
      ensures Sound() && medium == old(medium)
      ensures rc == LoadCode(alg, medium, address)
      ensures metablock == StoredHeader(medium, address)
      ensures cacheActive == metaConsistent == HeaderIntact(alg, medium, address)
      ensures payloadConsistent == (rc == Success)
      ensures versionCompatible == (metaConsistent && Version(metablock) == specVersion)
      ensures lengthCompatible == (metaConsistent && Length(metablock) == specLength)
      ensures payloadCompatible == (versionCompatible && lengthCompatible)
    {
      hide ChunkedSum, ProperHeaderSum, HeaderSum, StoredHeader, StoredPayload, Version, Length, PayloadSum;
      cacheActive, cacheFromStorage, metaConsistent, payloadConsistent := false, false, false, false;
      payloadCompatible, lengthCompatible, versionCompatible := false, false, false;
      rc := ReadMeta();
      if rc != Success {
        return;
      }
      var version, length := Version(metablock), Length(metablock);
      if version == specVersion {
        versionCompatible := true;
      }
      if length == specLength {
        lengthCompatible := true;
        if versionCompatible {
          payloadCompatible := true;
        }
      }
      rc := VerifyPayload(length as nat);
      if rc != Success {
        return;
      }
      payloadConsistent := true;
    }

    /** Put a datum into storage after the specification, whatever is stored there. */
    method Save(src: seq<octet>) returns (rc: Code)
      requires Sound()
      modifies this
      ensures Sound()
      ensures rc == if |src| > specLength as nat then EFault else Success
      ensures metablock == StoredHeader(medium, address)
      ensures Length(metablock) == specLength && Version(metablock) == specVersion
      ensures rc == Success ==> Usable()
      ensures rc == Success ==> StoredPayload(medium, address, specLength as nat)[..|src|] == src
      ensures rc == Success ==>
                StoredPayload(medium, address, specLength as nat)[|src|..]
                == StoredPayload(old(medium), address, specLength as nat)[|src|..]
      ensures OnlySectionDiffers(old(medium), medium, address, specLength as nat)
    {
      rc := Format();
      PayloadUntouched(old(medium), medium, address, specLength as nat);
      rc := Store(src, 0);
      if rc != Success {
        return;
      }
      rc := Load();
    }

    /** What has been saved is what is fetched. */
    method SaveAndFetch(src: seq<octet>) returns (rc: Code, data: seq<octet>)
      requires Sound() && 0 < |src| <= specLength as nat
      modifies this
      ensures Sound() && Usable()
      ensures rc == Success && data == src
    {
      rc := Save(src);
      ghost var payload := StoredPayload(medium, address, specLength as nat);
      rc, data := Fetch(0, |src|);
      assert payload[0..0 + |src|] == payload[..|src|];
    }

    /** Altering one octet of a saved section is noticed by the next load, and told apart by where it is. */
    method SaveDamageLoad(src: seq<octet>, i: nat, d: octet) returns (was: octet, rc: Code)
      requires Sound() && alg == DEFAULT_ALGORITHM
      requires |src| <= specLength as nat && i < SIZE_META + specLength as nat
      modifies this
      ensures SIZE_META <= i < SIZE_META + |src| ==> was == src[i - SIZE_META]
      ensures rc == if d == was then Success else if i < SIZE_META then EBadHeader else EBadPayload
    {
      rc := Save(src);
      was := medium[address + i];
      if i >= SIZE_META {
        assert was == StoredPayload(medium, address, specLength as nat)[i - SIZE_META];
      }
      if d != was {
        AlteredOctetIsNoticed(medium, address, i, d);
      } else {
        assert medium[address + i := d] == medium;
      }
      medium := medium[address + i := d];
      rc := Load();
    }

    /* ---------- Runs ---------- */

    /** The lengths a section can have in the course of a run: the specified one and one other. */
    ghost predicate LengthsWithin(limit: nat)
      reads this
    {
      && Announced(alg, medium, address)
      && specLength as nat <= limit
      && (HeaderIntact(alg, medium, address) ==> Length(StoredHeader(medium, address)) as nat <= limit)
      && (cacheActive ==> Length(metablock) as nat <= limit)
    }

    method Execute(c: Command, ghost limit: nat)
      requires Sound() && LengthsWithin(limit)
      modifies this
      ensures Sound() && LengthsWithin(limit)
      ensures OnlySectionDiffers(old(medium), medium, address, limit)
    {
      match c {
        case FormatCommand =>
          var rc := Format();
        case LoadCommand =>
          var rc := Load();
        case MemsetCommand(datum, offset, n) =>
          var rc := Memset(datum, offset, n);
        case InvalidateCommand(meta, payload) =>
          var rc := Invalidate(meta, payload);
        case FetchCommand(offset, n) =>
          var rc, data := Fetch(offset, n);
        case StoreCommand(src, offset) =>
          var rc := Store(src, offset);
        case SaveCommand(src) =>
          var rc := Save(src);
      }
    }

    /**
     Whatever is done with an instance, its consistency flags never promise more than the storage
     keeps, and nothing outside of the section is written.
     */
    method Run(commands: seq<Command>)
      requires Sound() && !cacheActive
      modifies this
      ensures Sound()
      ensures var stored := Length(StoredHeader(old(medium), address)) as nat;
              var limit := if HeaderIntact(alg, old(medium), address) && stored > specLength as nat then stored
                           else specLength as nat;
              OnlySectionDiffers(old(medium), medium, address, limit)
    {
      ghost var stored := Length(StoredHeader(medium, address)) as nat;
      ghost var limit := if HeaderIntact(alg, medium, address) && stored > specLength as nat then stored
                         else specLength as nat;
      for i := 0 to |commands|
        invariant Sound() && LengthsWithin(limit)
        invariant OnlySectionDiffers(old(medium), medium, address, limit)
      {
        Execute(commands[i], limit);
      }
    }
  }

  lemma PatchNothing(s: seq<octet>, at: nat, nothing: seq<octet>)
    requires at <= |s| && nothing == []
    ensures Patched(s, at, nothing) == s
  {
  }

  lemma PatchMore(s: seq<octet>, at: nat, data: seq<octet>, done: nat, more: seq<octet>)
    requires done + |more| <= |data| && at + |data| <= |s| && more == data[done..done + |more|]
    ensures Patched(Patched(s, at, data[..done]), at + done, more) == Patched(s, at, data[..done + |more|])
  {
  }

  /** Writing a header puts it into storage and leaves every payload alone. */
  lemma HeaderWritten(medium: seq<octet>, address: nat, h: Header)
    requires Roomy(medium, address, 0)
    ensures var medium' := Patched(medium, address, h);
            && |medium'| == |medium| && StoredHeader(medium', address) == h
            && OnlySectionDiffers(medium, medium', address, 0)
            && forall n: nat :: Roomy(medium, address, n) ==> StoredPayload(medium', address, n) == StoredPayload(medium, address, n)
  {
  }

  lemma PayloadUntouched(medium: seq<octet>, medium': seq<octet>, address: nat, n: nat)
    requires Roomy(medium, address, n) && OnlySectionDiffers(medium, medium', address, 0)
    ensures StoredPayload(medium', address, n) == StoredPayload(medium, address, n)
  {
  }

  /** Patching the payload and then refreshing the header leaves an intact section. */
  lemma RewriteSection(alg: Algorithm, before: seq<octet>, h: Header, address: nat, offset: nat, data: seq<octet>)
    requires Roomy(before, address, Length(h) as nat) && offset + |data| <= Length(h) as nat
    ensures var patched := Patched(before, address + SIZE_META + offset, data);
            var h' := Refreshed(alg, h, patched, address);
            var medium := Patched(patched, address, h');
            var length := Length(h) as nat;
            && Length(h') == Length(h) && Version(h') == Version(h)
            && |medium| == |before| && Announced(alg, medium, address)
            && StoredHeader(medium, address) == h'
            && HeaderIntact(alg, medium, address) && PayloadIntact(alg, medium, address)
            && LoadCode(alg, medium, address) == Success
            && StoredPayload(medium, address, length) == Patched(StoredPayload(before, address, length), offset, data)
            && OnlySectionDiffers(before, medium, address, length)
  {
    var patched := Patched(before, address + SIZE_META + offset, data);
    var h' := Refreshed(alg, h, patched, address);
    var length := Length(h) as nat;
    HeaderWritten(patched, address, h');
    RefreshedMatches(alg, h, patched, address);
    assert StoredPayload(patched, address, length) == Patched(StoredPayload(before, address, length), offset, data);
  }

  lemma RefreshedMatches(alg: Algorithm, h: Header, medium: seq<octet>, address: nat)
    requires Roomy(medium, address, Length(h) as nat)
    ensures var h' := Refreshed(alg, h, medium, address);
            && Length(h') == Length(h) && Version(h') == Version(h)
            && HeaderSum(h') == ProperHeaderSum(alg, h')
            && PayloadSum(h') == ChunkedSum(alg, alg.initial, StoredPayload(medium, address, Length(h) as nat))
  {
    var sum := ChunkedSum(alg, alg.initial, StoredPayload(medium, address, Length(h) as nat));
    var h1 := WithPayloadSum(h, sum);
    SameFields(h, h1);
    SameFields(h1, WithHeaderSum(h1, ProperHeaderSum(alg, h1)));
  }

  function SpecHeader(h: Header, version: word, length: word): (r: Header)
    ensures Version(r) == version && Length(r) == length
  {
    var r := h[..2] + (ToMemory(version) + (ToMemory(length) + h[6..]));
    assert r[2..4] == ToMemory(version) && r[4..6] == ToMemory(length);
    r
  }

  function WithHeaderSum(h: Header, sum: word): (r: Header)
    ensures HeaderSum(r) == sum && r[2..] == h[2..]
  {
    var r := ToMemory(sum) + h[2..];
    assert r[..2] == ToMemory(sum);
    r
  }

  function WithPayloadSum(h: Header, sum: word): (r: Header)
    ensures PayloadSum(r) == sum && r[..6] == h[..6]
  {
    var r := h[..6] + ToMemory(sum);
    assert r[6..8] == ToMemory(sum);
    r
  }

  /** A header with checksums inverted: the payload's, after which the header's is put right, or the header's. */
  function Spoilt(alg: Algorithm, h: Header, meta: bool, payload: bool): Header {
    var h1 := if payload then WithPayloadSum(h, 0xffff - PayloadSum(h)) else h;
    var h2 := if payload then WithHeaderSum(h1, ProperHeaderSum(alg, h1)) else h1;
    if meta then WithHeaderSum(h2, 0xffff - HeaderSum(h2)) else h2
  }

  /** Inverting checksums breaks what it is meant to break and keeps everything else. */
  lemma SpoiltHeader(alg: Algorithm, h: Header, meta: bool, payload: bool)
    requires HeaderSum(h) == ProperHeaderSum(alg, h)
    ensures var r := Spoilt(alg, h, meta, payload);
            && Length(r) == Length(h) && Version(r) == Version(h)
            && (HeaderSum(r) == ProperHeaderSum(alg, r)) == !meta
            && (PayloadSum(r) == PayloadSum(h)) == !payload
            && (meta ==> HeaderSum(r) as nat + ProperHeaderSum(alg, r) as nat == 0xffff)
            && (payload ==> PayloadSum(r) as nat + PayloadSum(h) as nat == 0xffff)
  {
    var h1 := if payload then WithPayloadSum(h, 0xffff - PayloadSum(h)) else h;
    var h2 := if payload then WithHeaderSum(h1, ProperHeaderSum(alg, h1)) else h1;
    SameFields(h, h1);
    SameFields(h1, h2);
    SameFields(h2, Spoilt(alg, h, meta, payload));
  }

  lemma SpoiltSection(alg: Algorithm, h: Header, medium: seq<octet>, address: nat, meta: bool, payload: bool)
    requires Roomy(medium, address, Length(h) as nat)
    ensures var r := Spoilt(alg, Refreshed(alg, h, medium, address), meta, payload);
            var medium' := Patched(medium, address, r);
            && Length(r) == Length(h) && Version(r) == Version(h)
            && |medium'| == |medium| && StoredHeader(medium', address) == r
            && HeaderIntact(alg, medium', address) == !meta
            && PayloadIntact(alg, medium', address) == !payload
            && (meta ==> HeaderInverted(alg, medium', address)) && (payload ==> PayloadInverted(alg, medium', address))
            && OnlySectionDiffers(medium, medium', address, 0)
  {
    hide Refreshed, Spoilt, ChunkedSum, ProperHeaderSum;
    var h' := Refreshed(alg, h, medium, address);
    RefreshedMatches(alg, h, medium, address);
    SpoiltHeader(alg, h', meta, payload);
    HeaderWritten(medium, address, Spoilt(alg, h', meta, payload));
  }

  /** Fields of a header whose octets agree agree. */
  lemma SameFields(h: Header, r: Header)
    ensures h[2..] == r[2..] ==> Version(h) == Version(r) && Length(h) == Length(r) && PayloadSum(h) == PayloadSum(r)
    ensures h[..6] == r[..6] ==> HeaderSum(h) == HeaderSum(r) && Version(h) == Version(r) && Length(h) == Length(r)
  {
    assert h[2..4] == h[2..][..2] && h[4..6] == h[2..][2..4] && h[6..8] == h[2..][4..6];
    assert r[2..4] == r[2..][..2] && r[4..6] == r[2..][2..4] && r[6..8] == r[2..][4..6];
    assert h[..2] == h[..6][..2] && h[2..4] == h[..6][2..4] && h[4..6] == h[..6][4..6];
    assert r[..2] == r[..6][..2] && r[2..4] == r[..6][2..4] && r[4..6] == r[..6][4..6];
  }

  /** A header with both of its checksums brought up to date. */
  function Refreshed(alg: Algorithm, h: Header, medium: seq<octet>, address: nat): Header
    requires Roomy(medium, address, Length(h) as nat)
  {
    var sum := ChunkedSum(alg, alg.initial, StoredPayload(medium, address, Length(h) as nat));
    var h' := WithPayloadSum(h, sum);
    WithHeaderSum(h', ProperHeaderSum(alg, h'))
  }
}
