# A verified model of ufw's codecs, register table and persistence layer

ufw is a C library for embedded systems. This project models its stateful core in Dafny and proves what
that core is for:

- **Register table** (`RegisterValues`, `RegisterNumbers`, `RegisterMemory`, `RegisterMerge`, `RegisterVerdicts`,
  `RegisterInit`, `RegisterTable`): typed registers laid over memory areas. Initialisation succeeds exactly for the
  tables it should take and builds the structure everything later relies on, and otherwise names the fault. Single and
  block access refine a flat address map. Validators limit numbers, whole or floating. Every run of accesses keeps
  every register decodable and accepted by its validator, except after one kind of block write, which is characterised
  exactly.
- **SLIP** (`Slip`): the byte machine with and without start-of-frame octets, decoding as the exact inverse of
  encoding, and re-synchronisation after arbitrary garbage from any decoder state, for every stream of frames.
- **CRC-16-ARC** (`Crc16Arc`, `Crc16Distance`): the table form equals the bit-serial form, parts compose, and
  neither a burst of up to sixteen bits nor an odd number of inverted bits goes unnoticed. Two inverted bits do
  exactly if their distance is a multiple of 32767, so that messages of less than 4096 octets have Hamming
  distance four.
- **Versioned persistence** (`VersionedSection`, `VersionedPersistence`) and **persistent storage**
  (`PersistentStorage`): the consistency flags never promise more than storage keeps, what was saved is what is
  fetched, damage is noticed and told apart.
- **Register protocol** (`RegisterFrames`, `RegisterOctets`, `RegisterProtocol`, `RegisterSession`): frames octet for
  octet, through three layers and back, a peer with memory, and a requester and a server on FIFO channels of octets
  under every interleaving of their turns.
- **A server on a noisy line** (`RegisterServer`): one delimiter ends whatever noise there was, and every request
  behind is answered exactly once and in order.
- **Register table behind the protocol** (`RegisterService`, `RegisterWire`): the table's block access as a peer's
  memory, registers that stay safe over every session, reads that see what writes have stored, and exactly when
  values travel in network order.
- **Byte transport** (`ByteBuffers`, `Endpoints`, `ContinuableSinks`, `Varint`, `LengthPrefix`): exact transfer over
  drivers that deliver little, nothing or an interruption at a time, and the two framings built on numbers.
- **Ring buffer** (`RingBuffers`) and **s-expression parser** (`SExpression`, `SExpressionText`,
  `SExpressionGrammar`): refinement of a bounded queue, a parser that inverts a printer exactly when no list has an
  empty list for an element, and two grammars that describe exactly what the parser takes, for which tree, and what it
  refuses, for which reason.

`Octets`, `Numbers` and `Streams` hold what these share. Whatever updates its state in place is a class with the
fields of the C structure, and each of its methods is proved against a function or predicate whose own
properties are the lemmas listed below. `dafny verify dfyconfig.toml` checks the whole project.

Octets are numbers from 0 to 255; the CRC computes on bit vectors inside and is used as a function on numbers.
Results of C functions (`-errno`, access codes) are datatypes or the same codes.

### Where the code differs from what is written about it

- A block write that hits only the third atom of a 64-bit register is not judged on the merged value
  (`src/registers/core.c:787` takes one atom less than the documented size minus offset):
  `RegisterMerge.MergeExact` says exactly when the merge is right, `RegisterVerdicts.LoneThirdAtomIsNotJudged`
  that such a write is always granted, `RegisterVerdicts.LoneThirdAtomBreaksValidator` shows a register ending
  up at a value its validator forbids. Safety of runs is proved for all other writes.
- The same line makes the merge copy one atom too many if a block starts inside of a register and reaches its
  end: written behind the register, which for a 64-bit one is behind the local buffer, and read from behind the
  block if both end together. `RegisterMerge.MergeBounds` says exactly when. The model drops that atom, so that
  the safety of runs assumes that the access does no harm.
- `register_setx` answers `idx == entries` with a range error at address 0 (`src/registers/core.c:1124`),
  `register_get` with a missing entry; both are modelled so.
- A block read clears the buffer for an unreadable area at the area's offset instead of the block's
  (`src/registers/core.c:1425`); `RegisterTable.Table.BlockRead` says what every place of the buffer holds then.
  Zeroes are written behind a buffer of the block's size exactly if the offset is greater than what other areas
  have of the block, so always if the block lies inside of that area (`RegisterTable.ReadBounds`). A peer that reads
  over the protocol can cause this. The safety of runs and sessions assumes that it does no harm.
- `register_foreach_in` is documented to call back for each register in a range and to be lenient towards holes,
  but visits nothing if no register covers the first address: `RegisterTable.RangeIsVisited` is an equivalence.
- `register_sanitise` cannot put defaults back into registers whose validator always fails:
  `RegisterTable.Table.Sanitise` says exactly when it succeeds, `RegisterTable.LoadedRegistersAreSanitisable`
  that for loaded registers this is a matter of the validator alone.
- `doc/regp.txt` says network order, but payloads are sent as they stand in memory, which is the order that the
  table has been set up for. A read of one register carries its value in network order if and only if the table is
  big-endian or the octets of the value are a palindrome (`RegisterWire.ReadCarriesValue`), and a write of a value in
  network order stores that value under the same condition (`RegisterWire.WriteStoresValue`). The number one in
  sixteen bits is carried as 1, 0 otherwise (`RegisterWire.OneIsTurnedAround`).
- An acknowledged write has block size 0, where section 3.1 of `doc/regp.txt` says that a response mirrors the
  request's header: `RegisterSession.BlockSizeIsRepeated` says exactly when the size is mirrored.
- The comments in `src/register-protocol.c:732-739` promise EBUSY if there is no memory for a frame, and ERXOVERFLOW
  if it is too large. Since `src/endpoints/continuable-sink.c:29` asks how much there is in a buffer instead of how
  much room it has, frames that come octet by octet are never answered so: without memory every frame is taken for one
  with a broken header (`RegisterProtocol.Peer.Recv`), and what exceeds the memory is cut off in silence
  (`ContinuableSinks.ContinuableSink.PutEach`, `ContinuableSinks.OctetsOverflowSilently`).
- A frame without any octets leads `regp_recv` to a header that is not there. On a serial line a delimiter with
  nothing in front of it is one, and so is a delimiter right behind a bad escape
  (`RegisterServer.LoneDelimiterIsUndefined`). What is proved of a server on a noisy line is about all other noise.
- Responses with the code EIO, and write responses that carry an address or size, are refused by the project's
  own parser; `RegisterSession.ResponsesAreHeard` says exactly which ones.
- The header checksum does not protect the two bits that say which checksums there are. Altering any one octet
  of a header is noticed if these bits stay as they are (`RegisterFrames.AlteredHeaderIsNoticed`). A first octet
  with the header's bit cleared is accepted exactly if its reserved bit is clear and its meta field is legal for
  the type, and the frame passes exactly if, besides, its size is plausible then
  (`RegisterFrames.AlteredFirstOctet`, `RegisterFrames.UncheckedFramePasses`). With the header's bit kept and the
  payload's turned over it takes a checksum that happens to be right for the other extent.
- An s-expression's empty list ends the list it is an element of: `SExpressionText.ParsesBack` is an equivalence.
  For the same reason a closing parenthesis may have any number of opening ones in front of it, none included
  (`SExpressionGrammar.ParsesExactly`, `SExpressionGrammar.StrayParentheses`).
- An empty piece ends a length-prefixed frame of several pieces early, with its full length announced:
  `LengthPrefix.ChunksToSink`.
- A sink that reports a lack of data is taken for an empty source by the draining transfer, which then succeeds
  and loses what it has read. A chunk-wise sink whose first failure is something else never does so, and one whose
  first failure is this always does if the source has enough: `Endpoints.DrainAux`, `Endpoints.DrainLosesOctet`.
- Upper-case hexadecimal digits are accepted and count as zero: `SExpressionText.HexIsReadAsWritten` is an
  equivalence.
- In start-of-frame mode it is not always the first frame that is lost: a decoder out of step takes the delimiters
  of empty frames for empty frames, and loses the first frame with anything in it, or one of the frames if all of
  them are empty (`Slip.SofResynchronises`).

## Model

| member | source | states |
|---|---|---|
| `RegisterTable.Table.Init` | src/registers/core.c:904-1052 | succeeds if and only if there are areas, the counts fit their handles, areas and entries are in order without overlap, and each entry lies in one area with a usable default where one is loaded; success yields links, indices, loaded defaults and clear memory; every failure has its own code, given exactly in its case, names the first area or entry that is to blame, and leaves an uninitialised table |
| `RegisterTable.Table.CheckOrder` | src/registers/core.c:932-985 | the position is where a prefix of areas, or else of entries, first is not in order, and the code tells one that starts in front of its predecessor from one that only overlaps it |
| `RegisterTable.Table.LoadEntry` | src/registers/core.c:986-1032 | an entry outside of every area or across the end of one is a memory hole, a default that cannot be set is invalid, and otherwise the entry is linked and its default overlaid |
| `RegisterTable.Table.LinkAreas` | src/registers/core.c:1033-1046 | each area's first to last is exactly the set of entries addressed in it, and the counts sum to the number of entries |
| `RegisterInit.InitComplete` | src/registers/core.c:904-1052 | what the phases of initialisation build together is a structured table whose loaded registers hold their defaults and are acceptable |
| `RegisterInit.InitLeaves` | src/registers/core.c:904-1052 | in fields: every register lies in its area, holds its default if that area can be written and does not skip defaults, and all other memory is clear |
| `RegisterInit.LoadOneMore` | src/registers/core.c:1010-1032 | loading one default disturbs no register loaded before and sets nothing outside of it |
| `RegisterInit.IndexOfArea` | src/registers/core.c:676-685 | the entries from one handle up to the first that lies elsewhere are all entries of the area |
| `RegisterValues.SerialiseRoundTrip` | src/registers/core.c:146-371 | every value of every type is read back as it was stored, in both byte orders |
| `RegisterValues.SerialiseInverts` | src/registers/core.c:146-371 | and every stored pattern is the one that its value is stored as |
| `RegisterNumbers.Widths` | src/registers/core.c:377-387 | the atoms and the number of patterns of each type |
| `RegisterNumbers.UnsignedLimits` | src/registers/core.c:389-502 | an unsigned number is accepted exactly if it is not below a minimum, not above a maximum, or both for a range |
| `RegisterNumbers.SignedLimits` | src/registers/core.c:389-502 | so is a signed number, whose two's complement the register holds |
| `RegisterNumbers.FloatLimits` | src/registers/core.c:389-502 | so is a floating point number of either width, by its value: sign, fraction and exponent |
| `RegisterNumbers.NothingIsWithin` | src/registers/core.c:389-502 | what is not a number is beyond every limit |
| `RegisterNumbers.OtherValidators` | src/registers/core.c:468-493 | the type has to be the register's; the trivial validator accepts everything, the failing one only during initialisation, a callback what it accepts |
| `RegisterNumbers.StorableFloats` | src/registers/core.c:309-362 | exactly zeroes and normal numbers can be stored and read |
| `RegisterNumbers.IntegersAreStorable` | src/registers/core.c:165-307 | and so can every whole number |
| `RegisterNumbers.EveryPatternIsDivided` | src/registers/core.c:309-362 | every pattern has a sign, an exponent and a fraction, so that this is about all of them |
| `RegisterValues.BitSetBits` | src/registers/core.c:1245-1372 | setting and clearing by mask change exactly the bits of the mask |
| `RegisterValues.BitOfPower` | src/registers/core.c:1245-1372 | a bit is what a power of two consists of |
| `RegisterValues.BitsTellApart` | src/registers/core.c:1245-1372 | and the bits of a number determine it |
| `RegisterTable.Table.Set` | src/registers/core.c:1108-1159 | the exact verdict for every index and value, with each code exactly in its case; a granted write overlays the register and nothing else, a refused one changes nothing |
| `RegisterTable.Table.Get` | src/registers/core.c:1174-1208 | the stored value, or the reason why there is none |
| `RegisterTable.Table.ChangeBits` | src/registers/core.c:1245-1372 | the exact verdict, address included; of the three unsigned types, exactly the bits of the mask are set or cleared in the register, under the rules of a write; anything else is refused and changes nothing |
| `RegisterVerdicts.SetKeepsSafe` | src/registers/core.c:1108-1159 | writing a validated value leaves every loaded register acceptable |
| `RegisterMerge.MergeBounds` | src/registers/core.c:778-802 | exactly when the merge writes behind the register, behind the local buffer, and reads from behind the block, and that it does so by one atom |
| `RegisterMerge.MergeExact` | src/registers/core.c:720-821 | the merged register equals what the write will store if and only if the block is not a lone third atom of a 64-bit register |
| `RegisterMerge.MergeIsCovered` | src/registers/core.c:778-806 | for every other block the merged register is the old one overlaid with the block |
| `RegisterVerdicts.JudgeBlockOk` | src/registers/core.c:720-821 | a block is granted exactly when every register it touches grants its merged value |
| `RegisterVerdicts.JudgeBlockFirst` | src/registers/core.c:720-821 | a refused block has the verdict of the first register that refuses it |
| `RegisterVerdicts.RefusedFor` | src/registers/core.c:804-818 | a register refuses, at the first address shared with the block, as invalid what cannot be decoded and as out of range what its validator does not accept |
| `RegisterTable.Table.MalformedWrite` | src/registers/core.c:720-821 | the verdict of the first touched register that refuses, computed with the early exits of the code |
| `RegisterVerdicts.BlockKeepsSafe` | src/registers/core.c:1487-1532 | committing a granted block that is no lone third atom leaves every loaded register acceptable |
| `RegisterVerdicts.LoneThirdAtomIsNotJudged` | src/registers/core.c:786-790 | a lone third atom is granted whatever it is, in every safe table |
| `RegisterVerdicts.LoneThirdAtomBreaksValidator` | src/registers/core.c:786-790 | a register limited to ten that ends up at two to the power of 32 |
| `RegisterTable.Table.IsWriteable` | src/registers/core.c:687-718 | read-only is reported exactly if a touched area cannot be written or is not meant to be |
| `RegisterTable.Table.BlockTouchesHole` | src/registers/core.c:1552-1575 | success exactly when every address is mapped, otherwise the least unmapped one |
| `RegisterTable.Table.BlockWriteUnsafe` | src/registers/core.c:1436-1461 | area by area, exactly the block's range of the flat address map is replaced |
| `RegisterTable.Table.TaintInRange` | src/registers/core.c:545-558 | exactly the overlapping registers are marked in addition |
| `RegisterTable.Table.BlockWrite` | src/registers/core.c:1487-1532 | when a write is granted, what it changes and marks, which error with which address is given otherwise, and that a refused write changes nothing |
| `RegisterTable.Table.BlockReadUnsafe` | src/registers/core.c:1402-1434 | what every place of the buffer, and of memory behind the block that belongs to it, holds afterwards, misplaced zeroes of an area that cannot be read included |
| `RegisterTable.Table.BlockRead` | src/registers/core.c:1463-1485 | granted exactly when every address is mapped; what every place of the buffer holds then, which for readable areas is the slice of the flat map and nothing behind it |
| `RegisterTable.ReadBounds` | src/registers/core.c:1402-1434 | exactly when clearing an area that cannot be read reaches behind a buffer of the block's size |
| `RegisterTable.Table.Sanitise` | src/registers/core.c:1716-1750 | success exactly if every register holds a sane value or may be set to its default; then all are sane and unmarked, and otherwise those in front of the first refusal are |
| `RegisterTable.LoadedRegistersAreSanitisable` | src/registers/core.c:1716-1750 | among loaded registers exactly those without a failing validator can be sanitised |
| `RegisterTable.IndexedSearch` | src/registers/core.c:1753-1787 | searching an area's own entries finds the same first register as a full scan |
| `RegisterTable.Table.ForeachIn` | src/registers/core.c:1843-1882 | the registers visited are those from the one at the address on, up to the end of the range or the first that is not answered with zero |
| `RegisterTable.RangeIsVisited` | src/registers/core.c:1807-1882 | exactly the registers that touch the range are visited if and only if one of them covers its first address or there are none |
| `RegisterTable.VisitsAreConsecutive` | src/registers/core.c:1789-1841 | registers are visited in order, without gaps, and no further than they should be |
| `RegisterTable.Table.Run` | src/registers/core.c:1108-1532 | every run of set, bit set, bit clear and block write keeps every loaded register decodable and accepted, and those with a failing validator at their default |
| `Slip.RoundTrip` | src/rfc1055.c:90-248 | decoding a frame gives its payload and leaves exactly what follows it, in both modes |
| `Slip.DecodeInverts` | src/rfc1055.c:125-248 | a stream decodes to a payload and a rest if and only if it is that payload's frame followed by that rest |
| `Slip.EncodeShape` | include/ufw/rfc1055.h:32-34 | delimiters stand at the ends of a frame and nowhere else, within the documented worst case length |
| `Slip.FramedOctet` | src/rfc1055.c:41-121 | the octets of RFC 1055: 219, 220 for 192, 219, 221 for 219, every other octet itself, and 192 at the end, or at both ends |
| `Slip.FramedInTurn` | src/rfc1055.c:160-175 | a payload is framed octet by octet |
| `Slip.IllegalEscape` | src/rfc1055.c:125-157 | every other octet behind 219 is a bad sequence, and what the decoder waits for then |
| `Slip.OutsideOfFrames` | src/rfc1055.c:177-219 | what the decoder does in front of a frame and on the way to the end of one |
| `Slip.StreamRoundTrip` | src/rfc1055.c:177-248 | a decoder at a frame boundary delivers every frame of a stream in order and nothing else |
| `Slip.DelimiterEndsGarbage` | src/rfc1055.c:125-248 | however garbage is read, one delimiter ends it, and what follows is decoded on its own |
| `Slip.ClassicResynchronises` | src/rfc1055.c:177-248 | in classic mode every frame behind garbage and one delimiter is delivered, from any decoder state |
| `Slip.SofResynchronises` | src/rfc1055.c:177-248 | in start-of-frame mode, from any decoder state and behind any garbage, what every stream of frames comes to: at most one of them is lost, the first with anything in it or one of only empty ones, and exactly when |
| `Slip.LeadingEmptyFrames` | src/rfc1055.c:177-248 | any number of empty frames in front of others come out as such, and the first one behind them is lost exactly if the decoder is out of step |
| `Slip.Context.EncodeFrame` | src/rfc1055.c:90-175 | the loop over the source puts exactly the frame of its octets into the sink |
| `Slip.Context.DecodeFrame` | src/rfc1055.c:125-248 | verdict, state, output and remaining input of one call of the byte machine |
| `Crc16Arc.CrcIsSerial` | src/crc-16-arc.c:59-118 | the table-driven CRC is the bit-serial reflected CRC of polynomial 0x8005 on every message |
| `Crc16Arc.CrcOctetIsShift8` | src/crc-16-arc.c:92-96 | one table step is eight shifts of the register mixed with the octet |
| `Crc16Arc.CrcConcat` | src/crc-16-arc.c:98-118 | the CRC of a concatenation is that of its parts in turn |
| `Crc16Arc.BurstDetected` | src/crc-16-arc.c:60-118 | messages that differ only within sixteen consecutive bits have different CRCs |
| `Crc16Arc.AdjacentOctetsDetected` | src/crc-16-arc.c:60-118 | so have messages that differ only within two adjacent octets |
| `Crc16Arc.OddInversionsDetected` | src/crc-16-arc.c:60-118 | so have messages that differ in an odd number of bits, wherever these are |
| `Crc16Distance.ReturnsExactly` | src/crc-16-arc.c:60-96 | shifted without input, the register comes back to one after the multiples of 32767 shifts and at no other time |
| `Crc16Distance.TwoInversionsDetected` | src/crc-16-arc.c:60-118 | two inverted bits go unnoticed if and only if their distance is a multiple of 32767 |
| `Crc16Distance.ThreeInversionsDetected` | src/crc-16-arc.c:60-118 | in messages of less than 4096 octets one, two or three inverted bits are noticed wherever they are |
| `Crc16Distance.FourInversionsPass` | src/crc-16-arc.c:60-118 | four inverted bits within seventeen that go unnoticed in every message, so that neither bound can be raised |
| `Crc16Arc.UpdateCrc` | src/crc-16-arc.c:108-118 | the loop over a buffer computes the CRC of its octets |
| `Crc16Arc.UpdateCrcWords` | src/crc-16-arc.c:144-163 | the loop over 16-bit words computes the CRC of their memory image, on hosts of either byte order |
| `VersionedSection.ChunkedIsWhole` | src/vp/internal.c:53-74 | the default checksum taken sixteen octets at a time is that of the whole payload |
| `VersionedSection.SixteenAtATime` | src/vp/internal.c:60-80 | what chunking means for any other checksum |
| `VersionedSection.LoadableOctets` | src/vp/core.c:294-330 | octet for octet, exactly which sections load, and which of them fail for their header |
| `VersionedSection.AlteredOctetIsNoticed` | src/vp/internal.c:93-139 | altering one octet of an intact section makes loading fail, with EBADFD for the header and EBADMSG for the payload |
| `VersionedSection.OddPayloadInversionsAreNoticed` | src/vp/internal.c:134-139 | so does any odd number of inverted bits in the payload |
| `VersionedSection.ThreePayloadInversionsAreNoticed` | src/vp/internal.c:134-139 | so do one, two or three inverted bits in a payload of less than 4096 octets |
| `VersionedSection.PayloadBurstIsNoticed` | src/vp/internal.c:134-139 | so does any burst of up to sixteen bits in the payload |
| `VersionedPersistence.Instance.CalculatePayloadChecksum` | src/vp/internal.c:53-74 | the chunked loop computes the checksum of exactly the stored payload |
| `VersionedPersistence.Instance.ReadMeta` | src/vp/internal.c:93-118 | the cache holds the stored header, and the flags say whether its checksum is right |
| `VersionedPersistence.Instance.UpdateChecksums` | src/vp/internal.c:165-176 | the cached header gets the payload's checksum first and its own after |
| `VersionedPersistence.RewriteSection` | src/vp/internal.c:165-198 | patching the payload and writing a refreshed header leaves an intact section and nothing else changed |
| `VersionedPersistence.SpoiltSection` | src/vp/core.c:150-183 | inverting checksums breaks exactly the parts it is meant to break |
| `VersionedPersistence.Instance.Memset` | src/vp/core.c:79-107 | a part of the payload becomes copies of the datum, the section matches, flags are kept; out of range changes nothing |
| `VersionedPersistence.Instance.Format` | src/vp/core.c:120-130 | intact header after the specification, and a payload checksum that is wrong in every bit |
| `VersionedPersistence.Instance.Invalidate` | src/vp/core.c:150-183 | exactly the asked for checksums are wrong, in every bit, and what loading reports then; the payload is not touched |
| `VersionedPersistence.Instance.Fetch` | src/vp/core.c:201-221 | exactly when it succeeds, which error it gives otherwise, and that it gives the stored slice of a verified section |
| `VersionedPersistence.Instance.Store` | src/vp/core.c:239-266 | exactly when it succeeds; then the payload is patched, the section matches, and nothing else changed |
| `VersionedPersistence.Instance.Load` | src/vp/core.c:293-325 | the verdict on the stored section and what every flag says about it and the specification |
| `VersionedPersistence.Instance.Save` | src/vp/core.c:342-348 | after success the instance is usable and the section holds the data under the specified version and length |
| `VersionedPersistence.Instance.SaveAndFetch` | src/vp/core.c:201-348 | what has been saved is fetched |
| `VersionedPersistence.Instance.SaveDamageLoad` | src/vp/core.c:293-348 | altering one octet of a saved section makes the next load return the error for its part |
| `VersionedPersistence.Instance.Run` | src/vp/core.c:79-348 | over every run the consistency flags never promise more than storage keeps, and no octet outside of the section is written |
| `PersistentStorage.ChunkedIsWhole` | src/persistent-storage.c:291-339 | the size of the auxiliary buffer makes no difference to a checksum that can be taken in parts |
| `PersistentStorage.TrivialIsProper` | src/persistent-storage.c:88-112 | the built-in sum is such a checksum |
| `PersistentStorage.TrivialIsModular` | src/persistent-storage.c:88-112 | it is the sum of all octets modulo 2^16 |
| `PersistentStorage.SectionOctets` | src/persistent-storage.c:354-465 | octet for octet, exactly which sections are intact, for checksums of either width |
| `PersistentStorage.TrivialNoticesDamage` | src/persistent-storage.c:88-112 | with it, altering any one octet of an intact section, data or sum, is noticed |
| `PersistentStorage.Store.SetChecksum` | src/persistent-storage.c:124-151 | the data stand behind a checksum of whatever width |
| `PersistentStorage.Store.Place` | src/persistent-storage.c:243-248 | checksum and data stand where they are placed |
| `PersistentStorage.Store.UseBuffer` | src/persistent-storage.c:267-272 | another buffer neither breaks nor mends what is stored under a checksum that can be taken in parts |
| `PersistentStorage.Store.CalculateChecksum` | src/persistent-storage.c:291-339 | the loop computes the chunked sum of the stored data, or reports that storage came short |
| `PersistentStorage.Store.StoreChecksum` | src/persistent-storage.c:353-372 | the sum is stored in its width, and only there |
| `PersistentStorage.Store.Validate` | src/persistent-storage.c:443-456 | success and invalid data say whether the stored sum is that of the stored data |
| `PersistentStorage.Store.FetchPart` | src/persistent-storage.c:469-481 | out of range exactly beyond the data, otherwise the stored slice or an IO error |
| `PersistentStorage.Store.StorePart` | src/persistent-storage.c:508-534 | success means old data overlaid with the new and a matching sum; nothing outside of the section ever changes |
| `PersistentStorage.Store.StoreAndFetch` | src/persistent-storage.c:443-534 | what has been stored is valid and is what is fetched, for every buffer size and compositional checksum |
| `PersistentStorage.Store.Reset` | src/persistent-storage.c:568-629 | checksum and data become copies of one octet, and nothing else changes |
| `RegisterFrames.Motv` | src/register-protocol.c:61-83 | the first word carries version, type, options and meta where the parser looks for them |
| `RegisterFrames.HeaderRoundTrip` | src/register-protocol.c:61-216 | every header that is sent is read back field for field, or refused exactly if its meta field may not be |
| `RegisterFrames.FrameRoundTrip` | src/register-protocol.c:103-292 | every message survives encoding and parsing on both kinds of channels, but for two kinds of refusals |
| `RegisterFrames.AlteredHeaderIsNoticed` | src/register-protocol.c:136-216 | altering any octet of a header with a checksum makes parsing fail, unless it alters the bits that announce the checksums |
| `RegisterFrames.AlteredFirstOctet` | src/register-protocol.c:136-216 | which of all first octets make a checked header pass: never with both bits kept, exactly the legal ones with the header's bit cleared, and exactly those with a matching checksum with the payload's bit turned over |
| `RegisterFrames.UncheckedFramePasses` | src/register-protocol.c:136-292 | a frame whose header's bit has been cleared passes exactly if options and meta field are legal and the size is plausible |
| `RegisterFrames.AlteredFirstOctetCanPass` | src/register-protocol.c:173-216 | for instance a write of four octets that passes for one of four words |
| `RegisterFrames.AlteredPayloadIsNoticed` | src/register-protocol.c:218-238 | altering any octet of a payload with a checksum is noticed and does not spoil the header |
| `RegisterOctets.PlainFrame` | src/register-protocol.c:61-102 | every octet of a frame on a channel that is not serial |
| `RegisterOctets.SerialFrame` | src/register-protocol.c:61-135 | every octet of a frame on a serial line: header checksums always, payload checksums with every payload, and the options say so |
| `RegisterOctets.FrameLengths` | src/register-protocol.c:103-135 | how long frames are |
| `RegisterOctets.DamagedHeaderIsNoticed` | src/register-protocol.c:136-216 | damage to any one header octet of a serial frame is noticed unless it turns over a bit that announces a checksum |
| `RegisterOctets.HeadersTaken` | src/register-protocol.c:136-200 | exactly which octets are taken for a header |
| `RegisterOctets.FieldsTaken` | src/register-protocol.c:136-216 | what is read from it |
| `RegisterOctets.SumsTaken` | src/register-protocol.c:190-216 | it is accepted exactly if its checksum, over the leading octets and the payload's checksum, is right |
| `RegisterOctets.FramesTaken` | src/register-protocol.c:263-294 | exactly which octets are no message, and which have a wrong header checksum |
| `RegisterOctets.PayloadsTaken` | src/register-protocol.c:218-292 | behind a right header, exactly which payloads are of a wrong size, and which have a wrong checksum |
| `RegisterProtocol.WireRoundTrip` | src/register-protocol.c:61-323 | header and checksums, framing and parser together restore the message and leave the rest of the stream |
| `RegisterProtocol.Peer.EncodeHeader` | src/register-protocol.c:85-134 | the buffer holds exactly the header that goes with the message on the channel |
| `RegisterProtocol.Peer.SendMemory` | src/register-protocol.c:296-323 | header and payload go out as one frame, with SLIP on serial channels and a length prefix elsewhere |
| `RegisterProtocol.Peer.ReqRead` | src/register-protocol.c:548-570 | a read request with the current sequence number, which is stepped modulo 2^16 |
| `RegisterProtocol.Peer.ReqWrite` | src/register-protocol.c:572-600 | a write request with the data, its checksum and the current sequence number, which is stepped |
| `ContinuableSinks.ContinuableSink.Put` | src/endpoints/continuable-sink.c:36-92 | what is stored where, and exactly when the sink is busy or reports an overflow |
| `ContinuableSinks.ContinuableSink.PutEach` | src/endpoints/continuable-sink.c:36-92 | of a frame that comes octet by octet, as much as fits is stored without an issue, and without memory nothing is stored at all |
| `ContinuableSinks.OctetsOverflowSilently` | src/endpoints/continuable-sink.c:22-34 | a single octet never overflows a block in use, so what is said of it is right exactly if the block is not full |
| `RegisterProtocol.Peer.Recv` | src/register-protocol.c:725-888 | takes one frame off the source, parses as much of it as fits, and answers only headers that are no good, with a meta message; without memory every frame counts as such; octets that are no frame are taken off as far as they have been looked at; a frame without any octets is undefined |
| `RegisterProtocol.RepliesAreSendable` | src/register-protocol.c:612-716 | whatever processing replies fits the fields of a frame |
| `RegisterProtocol.Peer.Respond` | src/register-protocol.c:998-1036 | each access status is answered with its code and, where the protocol says so, a size or an address |
| `RegisterProtocol.Peer.Process` | src/register-protocol.c:890-1037 | which frames are served from memory, which are refused and with what, and that responses, meta messages and broken frames are met with silence |
| `RegisterProtocol.Peer.Serve` | src/register-protocol.c:725-1037 | one turn of the server's loop: at most one reply, memory changes only by a write request, and octets that are no frame are only taken off |
| `RegisterSession.AnswerEchoes` | src/register-protocol.c:325-372 | a request is met with one response of its kind that repeats its sequence number and address |
| `RegisterSession.HeardReply` | src/register-protocol.c:218-292 | a response is never answered, but one that cannot be parsed is complained about |
| `RegisterSession.ServedMeta` | src/register-protocol.c:964-968 | a meta message is read and not answered |
| `RegisterSession.ServeKeepsOrder` | src/register-protocol.c:725-1037 | a server's turn serves the oldest request and keeps both channels in order |
| `RegisterSession.ListenKeepsOrder` | src/register-protocol.c:725-1037 | so does a requester's turn, which hears the oldest response |
| `RegisterSession.EveryRunIsOrderly` | src/register-protocol.c:548-1037 | under every interleaving the i-th response heard carries the i-th sequence number and is made of memory as the requests in front left it, and once nothing is under way every request has had exactly one |
| `RegisterSession.ResponsesAreHeard` | src/register-protocol.c:136-292 | what each response is heard as, and exactly which ones are refused |
| `RegisterSession.EveryRunCanFinish` | src/register-protocol.c:725-1037 | from every state of a run, turns of the two peers bring every answer home |
| `RegisterSession.BlockSizeIsRepeated` | src/register-protocol.c:335-372 | exactly when a response repeats the block size of its request |
| `RegisterSession.ReadsSeeWrites` | src/register-protocol.c:964-1036 | over plain memory a read gives what the latest overlapping write has left |
| `RegisterSession.ServerTurn` | src/register-protocol.c:725-1037 | a server's turn is the step of the state machine |
| `RegisterSession.RequesterTurn` | src/register-protocol.c:725-1037 | so is a requester's turn, and what it hears is the verdict on the frame, if there is one |
| `RegisterSession.RequesterAsks` | src/register-protocol.c:548-600 | a peer's request is the step of the state machine |
| `RegisterServer.NoiseStaysApart` | src/register-protocol.c:725-1037 | on a serial line, what stands behind a delimiter is served as if no noise had been in front, and the noise comes to the same whatever follows |
| `RegisterServer.RequestsAreServed` | src/register-protocol.c:725-1037 | a server answers the requests on its channel exactly once and in order, each from memory as those in front have left it |
| `RegisterServer.NoiseThenRequests` | src/register-protocol.c:725-1037 | so it does behind any noise that one delimiter ends |
| `RegisterServer.OnlyWritesMatter` | src/register-protocol.c:911-1037 | noise in which nothing passes for a write request leaves memory alone |
| `RegisterServer.ServeEverything` | src/register-protocol.c:748-763 | the loop of receiving and processing does what these are about |
| `RegisterServer.LoneDelimiterIsUndefined` | src/register-protocol.c:831-873 | noise for which the library's behaviour is undefined |
| `RegisterProtocol.StatusIsTold` | src/register-protocol.c:335-372 | a response tells its status, and exactly six of them carry a number, which is read back as the size or the address |
| `RegisterProtocol.RefusalsTellWhy` | src/register-protocol.c:911-988 | what is not a request is met with silence, and a request that cannot be served with the code for why, memory unchanged |
| `RegisterProtocol.RefusalNumbers` | src/register-protocol.c:911-1037 | the number that each refusal carries, and that what memory reports is carried otherwise |
| `RegisterProtocol.ComplaintsTellWhy` | src/register-protocol.c:872-888 | reason one for what is no header, two for a wrong checksum, silence for everything else |
| `RegisterService.WriteBlock` | include/ufw/register-protocol.h:261-279 | a table's block write as a peer's memory: status, address and memory are those of the abstract service |
| `RegisterService.StatusNumbers` | include/ufw/register-protocol.h:261-279 | the number that each outcome of a table access is told by |
| `RegisterService.ReadBlock` | include/ufw/register-protocol.h:261-279 | so are status and address of a block read and its octets, unless it starts inside of an area that cannot be read; what every place of the buffer holds then |
| `RegisterService.OverlaidIsOverlay` | src/registers/core.c:1436-1461 | laying a block over the address map has only one result |
| `RegisterService.WrittenIsRead` | src/registers/core.c:1463-1532 | what an acknowledged write has stored, a read of readable areas gives back |
| `RegisterService.ReadsSeeWrites` | include/ufw/register-protocol.h:261-279 | so it does over a session, unless a write to the same addresses comes between |
| `RegisterService.ServedWriteKeepsSafe` | src/registers/core.c:1487-1532 | a write served over the protocol leaves every loaded register acceptable |
| `RegisterService.RunsKeepRegistersSafe` | include/ufw/register-protocol.h:261-279 | over every interleaving of a session every loaded register stays decodable and accepted, as long as no write is a lone third atom and misplaced accesses behind a buffer do no harm |
| `RegisterWire.SerialisedOctets` | src/registers/core.c:146-371 | a stored value occupies its octets most significant first exactly in the table that says so, least significant first in the other |
| `RegisterWire.HostsAgree` | src/crc-16-arc.c:144-163 | hosts of either byte order hold the same octets exactly if every atom stays itself when swapped |
| `RegisterWire.ReadCarriesValue` | src/register-protocol.c:612-635 | an acknowledged read of one register carries its value, and in network order if and only if the table is big-endian or the value's octets are a palindrome |
| `RegisterWire.WriteStoresValue` | src/register-protocol.c:996-1003 | a granted write of a value in network order stores that value under the same condition |
| `RegisterWire.OneIsTurnedAround` | src/registers/core.c:165-175 | a value that is carried in the other order |
| `ByteBuffers.ByteBuffer.Add` | src/byte-buffer.c:168-179 | all of the data is appended, or nothing |
| `ByteBuffers.ByteBuffer.Consume` | src/byte-buffer.c:316-328 | exactly n octets are taken, or none |
| `ByteBuffers.ByteBuffer.ConsumeAtMost` | src/byte-buffer.c:345-359 | up to n octets are taken, and having none is an error |
| `ByteBuffers.ByteBuffer.Rewind` | src/byte-buffer.c:371-391 | what has not been read moves to the start and stays the same |
| `Varint.EncodedLength` | src/variable-length-integer.c:269-279 | an encoding has the least number of octets whose seven-bit groups hold the number |
| `Varint.UnsignedRoundTrip` | src/variable-length-integer.c:42-134 | every unsigned number of 32 or 64 bits comes back, within five or ten octets, whatever follows |
| `Varint.SignedRoundTrip` | src/variable-length-integer.c:97-173 | so does every signed number |
| `Varint.PrefixFree` | src/variable-length-integer.c:42-56 | no encoding starts another |
| `Varint.Canonical` | src/variable-length-integer.c:42-75 | octets that are read are the encoding of their number exactly if they do not end in an empty group |
| `Varint.EncodedOctets` | src/variable-length-integer.c:42-56 | octet i holds group i of seven bits, the lowest first, and all but the last are marked |
| `Varint.Accumulate` | src/variable-length-integer.c:58-75 | accumulating shifted groups in 64 bits gives the number modulo 2^64 |
| `Varint.Encode` | src/variable-length-integer.c:42-56 | the loop writes the encoding at the read mark and leaves the rest of the memory alone |
| `Varint.Decode` | src/variable-length-integer.c:58-75 | reads from the buffer what the octets encode, or fails without moving; memory that ends before the number is undefined |
| `Varint.DecodeFromSource` | src/variable-length-integer.c:77-95 | reads the same from a source, and stops at its end |
| `Varint.U64Length` | src/variable-length-integer.c:269-279 | the length of the encoding without encoding |
| `Varint.S32ThroughBuffer` | src/variable-length-integer.c:106-116 | a signed number of 32 bits through a buffer and back |
| `Varint.S64ThroughBuffer` | src/variable-length-integer.c:126-173 | a signed number of 64 bits through a buffer and back |
| `LengthPrefix.PrefixRoundTrip` | src/length-prefix.c:92-119 | each of the six kinds of prefixes gives back every length it can express |
| `LengthPrefix.PrefixOctets` | src/length-prefix.c:84-119 | octet for octet, how each kind expresses a length, and exactly which ones it can |
| `LengthPrefix.StreamRoundTrip` | src/length-prefix.c:173-320 | a stream of frames splits into its payloads and leaves what follows untouched |
| `LengthPrefix.StreamsDiffer` | src/length-prefix.c:173-320 | different sequences of frames never look alike |
| `LengthPrefix.EncodePrefix` | src/length-prefix.c:92-119 | refuses exactly the lengths that the kind cannot express |
| `LengthPrefix.MemoryToSink` | src/length-prefix.c:173-210 | one frame, or nothing and an error |
| `LengthPrefix.ChunksToSink` | src/length-prefix.c:232-276 | one frame from several pieces, and exactly what becomes of an empty piece |
| `LengthPrefix.MemoryFromSource` | src/length-prefix.c:304-319 | the next payload, with every error and where it leaves the source |
| `LengthPrefix.SourceToSink` | src/length-prefix.c:336-349 | the next payload moves to the sink, an empty one too |
| `LengthPrefix.Exchange` | src/length-prefix.c:173-319 | frames sent one by one are received one by one |
| `Endpoints.SourceAdapt` | src/endpoints/core.c:252-270 | as many octets in a row as the driver gives, or what its first call said, where nothing means to try again; an interruption ends a chunk that has begun |
| `Endpoints.SourceReadMulti` | src/endpoints/core.c:305-360 | terminates for every script, delivers a prefix, and reports only what a driver reported |
| `Endpoints.SourceGetChunk` | src/endpoints/core.c:378-388 | exactly the next n octets over every driver that does not fail |
| `Endpoints.SourceGetChunkAtMost` | src/endpoints/core.c:409-421 | as many as there are up to n |
| `Endpoints.SinkWriteMulti` | src/endpoints/core.c:481-539 | terminates for every script and writes a prefix, all of it without error; a chunk-wise sink reports the first failure of its script |
| `Endpoints.SinkPutChunk` | src/endpoints/core.c:556-564 | the whole chunk over every driver that does not fail |
| `Endpoints.AtMostAux` | src/endpoints/core.c:902-949 | moves as many octets as buffer, limit and source allow; only a failing sink loses any |
| `Endpoints.ExactlyAux` | src/endpoints/core.c:970-985 | exactly n octets move from the front of the source to the end of the sink |
| `Endpoints.DrainAux` | src/endpoints/core.c:1004-1025 | every octet moves in order, and their number is returned; with a chunk-wise sink success means this unless the first failure of its script is a lack of data, and then it means a loss for every source with enough octets |
| `Endpoints.DrainLosesOctet` | src/endpoints/core.c:1004-1025 | one octet that is drained successfully and gone |
| `Endpoints.SourceRefinesStream` | src/endpoints/core.c:378-388 | over a driver that does not fail, taking a chunk is taking it from a plain stream |
| `Endpoints.SinkRefinesStream` | src/endpoints/core.c:556-564 | so is putting one |
| `RingBuffers.FirstInFirstOut` | include/ufw/ring-buffer.h:110-143 | what is put into a queue with room comes out in order |
| `RingBuffers.LatestAreKept` | include/ufw/ring-buffer.h:125-143 | a full queue that overrides keeps exactly the latest items |
| `RingBuffers.RingBuffer.Put` | include/ufw/ring-buffer.h:125-143 | appends, drops the new item, or evicts the oldest |
| `RingBuffers.RingBuffer.Get` | include/ufw/ring-buffer.h:109-120 | the oldest item, or the default from an empty buffer |
| `RingBuffers.RingBuffer.Size` | include/ufw/ring-buffer.h:166-181 | the number of items, zero exactly if the tail stands behind the data, capacity exactly if full |
| `RingBuffers.RingBuffer.Run` | include/ufw/ring-buffer.h:75-201 | every run of a ring buffer is one of a bounded queue, outputs included |
| `RingBuffers.Walk` | src/ring-buffer-iter.c:22-46 | the iterators enumerate the items oldest first and in exact reverse |
| `SExpression.Token` | src/sx.c:289-337 | stays within the text, moves on success, and gives no node with an error |
| `SExpression.Parse` | src/sx.c:355-401 | ends on every input, every error comes without a node, and every success moves on and stays within the text |
| `SExpression.InnerIsComplete` | src/sx.c:355-390 | only blank text gives success without a node; every tree is complete and its lists are proper |
| `SExpression.ParseSymbol` | src/sx.c:151-172 | the loop finds the symbol or where it breaks |
| `SExpression.WeighDigits` | src/sx.c:174-207 | weighing digits from the last one on in 64 bits gives their value modulo 2^64 |
| `SExpression.ParseInteger` | src/sx.c:174-207 | the loop finds the number, whose prefix counts as zero digits, or where it breaks |
| `SExpression.ParseToken` | src/sx.c:279-337 | the token at a position, by way of these loops |
| `SExpressionText.TextIsRead` | src/sx.c:289-401 | the text of every legal expression without empty elements gives back its tree and the exact end |
| `SExpressionText.HexIsReadAsWritten` | src/sx.c:47-72 | hexadecimal text is read as the number it means exactly if that fits 64 bits and has no upper-case digit |
| `SExpressionText.EmptyElementIsMisread` | src/sx.c:355-376 | with an empty list for an element the parser fails or stops too early |
| `SExpressionText.ListEndsInTime` | src/sx.c:355-390 | a list never reaches past the parenthesis that closes it |
| `SExpressionText.ParsesBack` | src/sx.c:289-401 | parsing inverts printing if and only if no list has an empty list for an element |
| `SExpressionGrammar.ParsesExactly` | src/sx.c:289-401 | the parser takes exactly the texts of a grammar, each for the tree that it denotes and up to its exact end |
| `SExpressionGrammar.RefusesExactly` | src/sx.c:151-401 | the parser refuses exactly the texts of another grammar, each for the reason and at the position that this gives, and only blank text is taken without a tree |
| `SExpressionGrammar.SpaceCharacters` | src/sx.c:146-150 | which characters are white space, and which end a run |
| `SExpressionGrammar.SymbolCharacters` | src/sx.c:74-91 | which characters a symbol may start with and consist of |
| `SExpressionGrammar.DigitCharacters` | src/sx.c:53-72 | which characters are digits, and what they are worth |
| `SExpressionGrammar.Unambiguous` | src/sx.c:289-401 | no text has two readings in that grammar |
| `SExpressionGrammar.PrintingIsFaithful` | src/sx.c:289-401 | whatever has been parsed is the tree of a legal expression, whose text is parsed to the same tree |
| `SExpressionGrammar.StrayParentheses` | src/sx.c:323-376 | unbalanced texts that are taken for an empty list |

## Left out

- Addresses, sizes and sums of them are taken not to wrap around, as the C code assumes; so are the counts of areas and entries to be what the terminators say, and arguments not to be null.
- Custom area callbacks, which can fail midway; every area has a memory-backed read callback, and a missing write callback makes it unwritable. Validator callbacks are functions of the value, and `register_foreach_in` callbacks of the handle.
- `register_set_unsafe`, `register_set_from_hexstr`, `register_mcopy`, `register_compare` and the `_unsafe` block calls as public interface bypass validation by design or add nothing but reads.
- Floating point values are bit patterns of the two interchange formats; `RegisterNumbers` says what they mean as numbers. Arithmetic on them does not occur.
- The order of octets inside of an atom is that of a little-endian host with the big-endian option swapping them.
- RegisterTable.Table.Run: leaves out block writes of a lone third atom, for which the code does not keep the property, and takes the access to one atom too many in the merge, and what a read clears behind its buffer, to do no harm.
- Slip.Context.DecodeFrame: a source error in the middle of an escape, octet sources that return 0, and sinks that fail are not modelled; the end of input inside of an escape is.
- VersionedPersistence.Instance.Run: storage works, has room for the specified section and for the one that an intact stored header announces, and nobody else writes to it.
- Versioned persistence is modelled on a little-endian host, like the meta data block that it writes.
- PersistentStorage.Medium: storage cuts accesses short a finite number of times; the auxiliary buffer is its size, and the octets in it are values.
- RegisterProtocol.Peer.Recv: the frame's octets come one at a time, as they do on serial lines and from sources without the getbuffer extension; larger chunks are only described by `ContinuableSinks.ContinuableSink.Put`. What a frame without any octets leads to is undefined in the C code, which then reads a header that is not there; nothing is promised of it. Sessions assume that allocation succeeds.
- RegisterProtocol.Peer.Process: a read reply is not limited by the room behind the request's header in the buffer it shares with it; runs assume frames that fit.
- RegisterService.WriteBlock: blocks that wrap around the address space are excluded, and tables that are not initialised are not served.
- RegisterService.RunsKeepRegistersSafe: takes the access to one atom too many in the merge, and what a read clears behind the buffer it was given, to do no harm; `RegisterMerge.MergeBounds` and `RegisterTable.ReadBounds` say exactly when they happen.
- RegisterTable.Table.BlockRead: what is cleared behind the end of the buffer that it is given is not represented; what is cleared behind the block in a longer buffer is.
- RegisterService.ReadBlock: promises no octets of blocks that start inside of an area that cannot be read, since they depend on what the buffer has held before.
- RegisterServer.ServeEverything: leaves out noise that holds a frame without any octets, for which the C code is undefined.
- Endpoints.DrainAux: with a sink that only takes octets one at a time, a failure behind the first octet of a chunk is not reported; for such sinks a loss is stated for a script that fails at first, and conservation for scripts without a lack of data.
- RegisterFrames.ParsedFrame: memory behind a frame is a parameter, since the checksum of a frame with a stray octet reads it.
- The endpoints' custom retry callbacks, the getbuffer extension with its `sts_*_via_*` paths, and `sts_drain` without a buffer.
- Endpoints.SourceGetChunk: assertions are taken to be compiled out, so that an error is returned where a debugging build stops. Buffers are sequences that the calls return.
- `flenp_buffer_to_sink(_n)`, `flenp_buffer_encode_n`, `flenp_buffer_from_source`: their bookkeeping does not describe a plain round trip.
- Varint.Decode: like the C code it reads on whatever the fill mark says, and promises nothing of memory that ends before the number does.
- The fill and position functions of byte buffers, the low-pass filter, hexdump, memdiff, TAP output, compat functions, and the drivers for POSIX and Zephyr.
- SExpression.Token: the text is followed by a terminator, as in `sx_parse_string`. Nodes are values; their allocation and release are not modelled.
- The accessors, `sx_append`, `sx_pop` and `sx_foreach` on s-expressions.
- RingBuffers.RingBuffer.constructor: a capacity of zero is excluded, for which the advance functions divide by zero.
