/** A register table as the memory behind the register protocol. */
module RegisterService {
  import opened Octets
  import Crc16Arc
  import Values = RegisterValues
  import Areas = RegisterMemory
  import Merge = RegisterMerge
  import Verdicts = RegisterVerdicts
  import Tables = RegisterTable
  import Frames = RegisterFrames
  import Protocol = RegisterProtocol
  import Session = RegisterSession

  /** The response code for the outcome of a table access. */
  function StatusOf(code: Verdicts.AccessCode): Protocol.ResponseCode {
    match code
    case Success => Frames.ACK
    case Uninitialised => Frames.EUNMAPPED
    case NoEntry => Frames.EUNMAPPED
    case RangeError => Frames.ERANGE
    case Invalid => Frames.EINVALID
    case ReadOnly => Frames.EACCESS
    case Failure => Frames.EIO
  }

  /** A peer is told 0 for success, 7 for what is not there, 8 for protected areas, and 9 to 11 for the others. */
  lemma StatusNumbers(code: Verdicts.AccessCode)
    ensures StatusOf(code) ==
              match code
              case Success => 0
              case Uninitialised => 7
              case NoEntry => 7
              case ReadOnly => 8
              case RangeError => 9
              case Invalid => 10
              case Failure => 11
  {
  }

  /* ---------- Octets and atoms ---------- */

  /** The atoms in the memory of a little-endian host. */
  function Atoms(data: seq<octet>): (atoms: seq<word>)
    ensures |atoms| == |data| / 2
  {
    if |data| < 2 then [] else [data[0] as word + 256 * data[1] as word] + Atoms(data[2..])
  }

  function Image(atoms: seq<word>): (data: seq<octet>)
    ensures |data| == 2 * |atoms|
  {
    Crc16Arc.MemoryImage(atoms, false)
  }

  lemma {:induction false} ImageOfAtoms(data: seq<octet>)
    requires |data| % 2 == 0
    ensures Image(Atoms(data)) == data
  {
    if data != [] {
      ImageOfAtoms(data[2..]);
      assert data == [data[0], data[1]] + data[2..];
      assert Atoms(data)[1..] == Atoms(data[2..]);
    }
  }

  /* ---------- Table accesses as functions of the memory ---------- */

  /** The least address of a block that is not mapped, if there is one. */
  function FirstHole(area: seq<Areas.Area>, address: nat, n: nat): (hole: nat)
    ensures address <= hole <= address + n
    ensures forall x: nat :: address <= x < hole ==> Areas.Mapped(area, x)
    ensures hole < address + n ==> !Areas.Mapped(area, hole)
    decreases n
  {
    if n == 0 || !Areas.Mapped(area, address) then address else FirstHole(area, address + 1, n - 1)
  }

  /** The memory with a block laid over the address map. */
  function Overlay(area: seq<Areas.Area>, mem: Areas.Memory, address: nat, block: seq<word>): (mem': Areas.Memory)
    requires |mem| == |area|
    ensures |mem'| == |mem|
    ensures forall k :: 0 <= k < |mem| ==> |mem'[k]| == |mem[k]|
  {
    seq(|mem|, k requires 0 <= k < |mem| => OverlayArea(area[k].base, mem[k], address, block))
  }

  function OverlayArea(base: nat, atoms: seq<word>, address: nat, block: seq<word>): (r: seq<word>)
    ensures |r| == |atoms|
  {
    seq(|atoms|, o requires 0 <= o < |atoms| =>
      if address <= base + o < address + |block| then block[base + o - address] else atoms[o])
  }

  lemma OverlayIsOverlaid(area: seq<Areas.Area>, mem: Areas.Memory, address: nat, block: seq<word>)
    requires Areas.AreasOrdered(area) && Areas.Backed(area, mem)
    ensures Areas.Overlaid(area, mem, Overlay(area, mem, address, block), address, block)
  {
    hide Areas.AreaFrom;
  }

  /** Laying a block over the address map has only one result. */
  lemma OverlaidIsOverlay(area: seq<Areas.Area>, mem: Areas.Memory, mem': Areas.Memory, address: nat, block: seq<word>)
    requires Areas.AreasOrdered(area) && Areas.Overlaid(area, mem, mem', address, block)
    ensures mem' == Overlay(area, mem, address, block)
  {
    hide Areas.AreaFrom;
    var want := Overlay(area, mem, address, block);
    forall k | 0 <= k < |area| ensures mem'[k] == want[k] {
      forall o | 0 <= o < |mem[k]| ensures mem'[k][o] == want[k][o] {
        var x := area[k].base + o;
        Areas.AreaIsUnique(area, k, x);
        assert Areas.Mapped(area, x);
        assert Areas.AtomAt(area, mem', x) == mem'[k][o] && Areas.AtomAt(area, mem, x) == mem[k][o];
      }
    }
  }

  /** The verdict on a block write to an initialised table. */
  ghost function WriteVerdict(
    area: seq<Areas.Area>, mem: Areas.Memory, entry: seq<Areas.Entry>, bigEndian: bool, address: nat, block: seq<word>)
    : Verdicts.Access
    requires Areas.Backed(area, mem) && Areas.Linked(area, entry)
  {
    if block == [] then Verdicts.OK
    else if !Verdicts.MayWrite(area, address, |block|) then Verdicts.Access(Verdicts.ReadOnly, address)
    else if FirstHole(area, address, |block|) < address + |block| then
      Verdicts.Access(Verdicts.NoEntry, FirstHole(area, address, |block|))
    else Verdicts.JudgeBlock(area, mem, entry, bigEndian, address, block, 0)
  }

  ghost function TableWrite(
    area: seq<Areas.Area>, mem: Areas.Memory, entry: seq<Areas.Entry>, bigEndian: bool, address: nat, data: seq<octet>)
    : Protocol.WriteAccess<Areas.Memory>
    requires Areas.Backed(area, mem) && Areas.Linked(area, entry)
  {
    var rv := WriteVerdict(area, mem, entry, bigEndian, address, Atoms(data));
    Protocol.WriteAccess(StatusOf(rv.code), rv.address,
      if rv == Verdicts.OK then Overlay(area, mem, address, Atoms(data)) else mem)
  }

  ghost function TableRead(area: seq<Areas.Area>, mem: Areas.Memory, address: nat, n: nat): Protocol.ReadAccess
    requires Areas.Backed(area, mem)
  {
    var hole := FirstHole(area, address, n);
    if hole < address + n then Protocol.ReadAccess(StatusOf(Verdicts.NoEntry), hole, _ => 0)
    else Protocol.ReadAccess(Frames.ACK, 0, OctetsOf(ReadBack(area, mem, address, n)))
  }

  /** What a block reads back as: zero in areas that cannot be read. */
  ghost function ReadBack(area: seq<Areas.Area>, mem: Areas.Memory, address: nat, n: nat): (atoms: seq<word>)
    requires Areas.Backed(area, mem)
    ensures |atoms| == n
  {
    seq(n, i requires 0 <= i < n => Tables.ReadBackAt(area, mem, address + i))
  }

  function OctetsOf(atoms: seq<word>): nat -> octet {
    (i: nat) => if i < 2 * |atoms| then Image(atoms)[i] else 0
  }

  /** The table as a memory of words: memory that is not the table's own is not accessible. */
  ghost function Service(area: seq<Areas.Area>, entry: seq<Areas.Entry>, bigEndian: bool): Protocol.Backend<Areas.Memory>
    requires Areas.Linked(area, entry)
  {
    Protocol.Backend(true,
      (mem: Areas.Memory, address, n) =>
        if Areas.Backed(area, mem) then TableRead(area, mem, address, n) else Protocol.ReadAccess(Frames.EIO, 0, _ => 0),
      (mem: Areas.Memory, address, data) =>
        if Areas.Backed(area, mem) then TableWrite(area, mem, entry, bigEndian, address, data)
        else Protocol.WriteAccess(Frames.EIO, 0, mem))
  }

  /* ---------- The table does what these functions say ---------- */

  /** What a protocol peer calls to write to a table. */
  method WriteBlock(t: Tables.Table, address: nat, data: seq<octet>) returns (status: Protocol.ResponseCode, at: nat)
    requires t.Valid() && t.initialised && address + |data| / 2 < Areas.ADDRESS_LIMIT
    modifies t`mem, t`touched
    ensures t.Valid()
    ensures Protocol.WriteAccess(status, at, t.mem)
         == Service(t.area, t.entry, t.bigEndian).write(old(t.mem), address, data)
  {
    hide Verdicts.JudgeBlock, Verdicts.MayWrite, Tables.Tainted, Overlay, Areas.AreaFrom;
    HoleOrNot(t.area, address, |Atoms(data)|);
    var rv := t.BlockWrite(address, Atoms(data));
    if rv == Verdicts.OK {
      if Atoms(data) == [] {
        NothingLaidOver(t.area, t.mem, address, Atoms(data));
      } else {
        OverlaidIsOverlay(t.area, old(t.mem), t.mem, address, Atoms(data));
      }
    }
    return StatusOf(rv.code), rv.address;
  }

  lemma HoleOrNot(area: seq<Areas.Area>, address: nat, n: nat)
    ensures FirstHole(area, address, n) == address + n <==> Areas.AllMapped(area, address, n)
    ensures forall d: nat :: d < n && !Areas.Mapped(area, address + d) && Areas.AllMapped(area, address, d) ==>
              address + d == FirstHole(area, address, n)
  {
    hide Areas.AreaFrom;
    var hole := FirstHole(area, address, n);
    forall d: nat | d < n && !Areas.Mapped(area, address + d) && Areas.AllMapped(area, address, d)
      ensures address + d == hole
    {
      assert !(address <= hole < address + d);
    }
  }

  lemma NothingLaidOver(area: seq<Areas.Area>, mem: Areas.Memory, address: nat, block: seq<word>)
    requires |mem| == |area| && block == []
    ensures Overlay(area, mem, address, block) == mem
  {
    forall k | 0 <= k < |mem| ensures OverlayArea(area[k].base, mem[k], address, block) == mem[k] {
    }
  }

  /**
   What a protocol peer calls to read from a table into its buffer. For blocks that start inside of an
   area that cannot be read, the buffer keeps some of what it has held before, and clearing may reach
   behind the block.
   */
  method ReadBlock(t: Tables.Table, address: nat, n: nat, buf: array<word>)
    returns (status: Protocol.ResponseCode, at: nat)
    requires t.Valid() && t.initialised && address + n < Areas.ADDRESS_LIMIT && n <= buf.Length
    modifies buf
    ensures var access := Service(t.area, t.entry, t.bigEndian).read(t.mem, address, n);
            && status == access.status && at == access.address
            && (status == Frames.ACK && !Tables.StartsInside(t.area, address) ==>
                  Image(buf[..n]) == Protocol.BlockOf(access, 2 * n) && buf[n..] == old(buf[n..]))
    ensures status == Frames.ACK ==>
              forall i :: 0 <= i < buf.Length ==> buf[i] == Tables.ShownAt(t.area, t.mem, address, n, i, old(buf[i]))
    ensures status != Frames.ACK ==> buf[..] == old(buf[..])
  {
    hide Areas.AreaFrom, Tables.ReadBackAt, Tables.StartsInside, Tables.ShownAt;
    HoleOrNot(t.area, address, n);
    var rv := t.BlockRead(address, n, buf);
    if rv == Verdicts.OK && !Tables.StartsInside(t.area, address) {
      assert buf[..n] == ReadBack(t.area, t.mem, address, n);
    }
    return StatusOf(rv.code), rv.address;
  }

  /* ---------- Reads see writes ---------- */

  /** The addresses of a block are mapped and hold the given atoms. */
  ghost predicate Holds(area: seq<Areas.Area>, mem: Areas.Memory, address: nat, atoms: seq<word>) {
    && Areas.Backed(area, mem) && Areas.AllMapped(area, address, |atoms|)
    && forall x: nat :: address <= x < address + |atoms| ==> Areas.AtomAt(area, mem, x) == atoms[x - address]
  }

  /** A block that is held in readable areas is read. */
  lemma HeldIsRead(area: seq<Areas.Area>, mem: Areas.Memory, address: nat, data: seq<octet>)
    requires |data| % 2 == 0 && Holds(area, mem, address, Atoms(data)) && Verdicts.MayRead(area, address, |data| / 2)
    ensures var access := TableRead(area, mem, address, |data| / 2);
            access.status == Frames.ACK && Protocol.BlockOf(access, |data|) == data
  {
    hide Areas.AreaFrom, Tables.ReadBackAt;
    var n := |data| / 2;
    HoleOrNot(area, address, n);
    Tables.ReadableReadBack(area, mem, address, n);
    assert ReadBack(area, mem, address, n) == Atoms(data);
    ImageOfAtoms(data);
    BlockOfOctets(Atoms(data), TableRead(area, mem, address, n));
  }

  lemma BlockOfOctets(atoms: seq<word>, access: Protocol.ReadAccess)
    requires access.buffer == OctetsOf(atoms)
    ensures Protocol.BlockOf(access, 2 * |atoms|) == Image(atoms)
  {
  }

  /** A block is granted only if every address of it is mapped. */
  lemma GrantedVerdict(
    area: seq<Areas.Area>, mem: Areas.Memory, entry: seq<Areas.Entry>, bigEndian: bool, address: nat, block: seq<word>)
    requires Areas.Backed(area, mem) && Areas.Linked(area, entry)
    requires WriteVerdict(area, mem, entry, bigEndian, address, block).code == Verdicts.Success
    ensures WriteVerdict(area, mem, entry, bigEndian, address, block) == Verdicts.OK
    ensures Areas.AllMapped(area, address, |block|)
  {
    hide Verdicts.JudgeBlock, Verdicts.MayWrite, Areas.AreaFrom;
    HoleOrNot(area, address, |block|);
  }

  lemma GrantedIsMapped(
    area: seq<Areas.Area>, mem: Areas.Memory, entry: seq<Areas.Entry>, bigEndian: bool, address: nat, data: seq<octet>)
    requires Areas.Backed(area, mem) && Areas.Linked(area, entry)
    requires TableWrite(area, mem, entry, bigEndian, address, data).status == Frames.ACK
    ensures TableWrite(area, mem, entry, bigEndian, address, data).memory == Overlay(area, mem, address, Atoms(data))
    ensures Areas.AllMapped(area, address, |data| / 2)
  {
    hide *;
    StatusOfWrite(area, mem, entry, bigEndian, address, data);
    GrantedVerdict(area, mem, entry, bigEndian, address, Atoms(data));
  }

  lemma StatusOfWrite(
    area: seq<Areas.Area>, mem: Areas.Memory, entry: seq<Areas.Entry>, bigEndian: bool, address: nat, data: seq<octet>)
    requires Areas.Backed(area, mem) && Areas.Linked(area, entry)
    ensures var access, rv := TableWrite(area, mem, entry, bigEndian, address, data),
                              WriteVerdict(area, mem, entry, bigEndian, address, Atoms(data));
            && (access.status == Frames.ACK <==> rv.code == Verdicts.Success)
            && access.memory == if rv == Verdicts.OK then Overlay(area, mem, address, Atoms(data)) else mem
  {
    hide WriteVerdict, Overlay, Atoms, Areas.Linked, Areas.Backed;
  }

  /** What an acknowledged write has stored, a read of readable areas gives back. */
  lemma WrittenIsRead(
    area: seq<Areas.Area>, mem: Areas.Memory, entry: seq<Areas.Entry>, bigEndian: bool, address: nat, data: seq<octet>)
    requires Areas.Backed(area, mem) && Areas.Linked(area, entry) && Areas.AreasOrdered(area)
    requires |data| % 2 == 0 && Verdicts.MayRead(area, address, |data| / 2)
    ensures var written := TableWrite(area, mem, entry, bigEndian, address, data);
            written.status == Frames.ACK ==>
              && Holds(area, written.memory, address, Atoms(data))
              && var access := TableRead(area, written.memory, address, |data| / 2);
                 access.status == Frames.ACK && Protocol.BlockOf(access, |data|) == data
  {
    hide Areas.AreaFrom, TableWrite, TableRead, Overlay, Verdicts.MayRead;
    var written := TableWrite(area, mem, entry, bigEndian, address, data);
    if written.status == Frames.ACK {
      GrantedIsMapped(area, mem, entry, bigEndian, address, data);
      OverlayIsOverlaid(area, mem, address, Atoms(data));
      HeldIsRead(area, written.memory, address, data);
    }
  }

  /** A write to other addresses leaves a block alone. */
  lemma HeldByOthers(
    area: seq<Areas.Area>, mem: Areas.Memory, entry: seq<Areas.Entry>, bigEndian: bool,
    address: nat, atoms: seq<word>, other: nat, data: seq<octet>)
    requires Areas.Linked(area, entry) && Areas.AreasOrdered(area) && Holds(area, mem, address, atoms)
    requires !(other < address + |atoms| && address < other + |data| / 2)
    ensures Holds(area, TableWrite(area, mem, entry, bigEndian, other, data).memory, address, atoms)
  {
    hide Areas.AreaFrom, Overlay, WriteVerdict;
    OverlayIsOverlaid(area, mem, other, Atoms(data));
  }

  lemma {:induction false} WriteLasts(
    cfg: Session.Config<Areas.Memory>, area: seq<Areas.Area>, entry: seq<Areas.Entry>, bigEndian: bool,
    mem: Areas.Memory, first: word, asked: seq<Session.Request>, i: nat, k: nat)
    requires Areas.Linked(area, entry) && Areas.AreasOrdered(area)
    requires cfg.backend == Service(area, entry, bigEndian) && Session.AllWellformed(asked) && i < k <= |asked|
    requires asked[i].Write? && asked[i].wide
    requires Holds(area, Session.MemoryAfter(cfg, mem, first, asked, i + 1), asked[i].address, Atoms(asked[i].data))
    requires forall l :: i < l < k ==> !Session.Disturbs(asked[l], asked[i].address, asked[i].n)
    ensures Holds(area, Session.MemoryAfter(cfg, mem, first, asked, k), asked[i].address, Atoms(asked[i].data))
    decreases k
  {
    hide Session.Answer, TableRead, TableWrite, Holds, Areas.Linked;
    if i + 1 < k {
      WriteLasts(cfg, area, entry, bigEndian, mem, first, asked, i, k - 1);
      var before, r := Session.MemoryAfter(cfg, mem, first, asked, k - 1), asked[k - 1];
      HeldThrough(cfg, area, entry, bigEndian, before, asked[i], r, Session.SequenceAt(first, k - 1));
    }
  }

  lemma HeldThrough(
    cfg: Session.Config<Areas.Memory>, area: seq<Areas.Area>, entry: seq<Areas.Entry>, bigEndian: bool,
    mem: Areas.Memory, w: Session.Request, r: Session.Request, sequence: word)
    requires Areas.Linked(area, entry) && Areas.AreasOrdered(area) && cfg.backend == Service(area, entry, bigEndian)
    requires Session.Wellformed(r) && Session.Wellformed(w) && w.Write? && w.wide && !Session.Disturbs(r, w.address, w.n)
    requires Holds(area, mem, w.address, Atoms(w.data))
    ensures Holds(area, Session.Answer(cfg, mem, r, sequence).memory, w.address, Atoms(w.data))
  {
    hide Session.Answer, TableRead, TableWrite;
    if !r.wide {
      Session.AnswerToMismatch(cfg, mem, r, sequence);
    } else if r.Read? {
      Session.AnswerToRead(cfg, mem, r, sequence);
    } else {
      Session.AnswerToWrite(cfg, mem, r, sequence);
      HeldByOthers(area, mem, entry, bigEndian, w.address, Atoms(w.data), r.address, r.data);
    }
  }

  /**
   Over a session with a register table, what one acknowledged request has written to readable areas, a
   later one reads, unless a write to the same addresses comes between.
   */
  lemma ReadsSeeWrites(
    cfg: Session.Config<Areas.Memory>, area: seq<Areas.Area>, entry: seq<Areas.Entry>, bigEndian: bool,
    mem: Areas.Memory, first: word, asked: seq<Session.Request>, i: nat, j: nat)
    requires Areas.Linked(area, entry) && Areas.AreasOrdered(area) && Areas.Backed(area, mem)
    requires cfg.backend == Service(area, entry, bigEndian) && Session.AllWellformed(asked) && i < j < |asked|
    requires asked[i].Write? && asked[i].wide && Verdicts.MayRead(area, asked[i].address, asked[i].n)
    requires Session.ReplyTo(cfg, mem, first, asked, i).meta == Frames.ACK
    requires forall l :: i < l < j ==> !Session.Disturbs(asked[l], asked[i].address, asked[i].n)
    requires asked[j] == Session.Read(true, asked[i].address, asked[i].n) && asked[i].n <= cfg.capacity / 2
    ensures var m, v := Session.ReplyTo(cfg, mem, first, asked, j), Session.HeardAs(cfg, mem, first, asked, j);
            m.meta == Frames.ACK && m.payload == asked[i].data && v.Good? && v.payload == asked[i].data
  {
    hide Session.Answer, Session.MemoryAfter, TableRead, TableWrite, Verdicts.MayRead, Frames.Understood, Holds, Session.Disturbs;
    var w, before := asked[i], Session.MemoryAfter(cfg, mem, first, asked, i);
    BackedAfter(cfg, area, entry, bigEndian, mem, first, asked, i);
    Session.AnswerEchoes(cfg, before, w, Session.SequenceAt(first, i));
    AcknowledgedIsHeld(cfg, area, entry, bigEndian, before, w, Session.SequenceAt(first, i));
    NextMemory(cfg, mem, first, asked, i);
    WriteLasts(cfg, area, entry, bigEndian, mem, first, asked, i, j);
    HeldIsAnswered(cfg, area, entry, bigEndian, Session.MemoryAfter(cfg, mem, first, asked, j), w, Session.SequenceAt(first, j));
    Session.ResponsesAreHeard(cfg, mem, first, asked, j);
  }

  lemma NextMemory(
    cfg: Session.Config<Areas.Memory>, mem: Areas.Memory, first: word, asked: seq<Session.Request>, i: nat)
    requires Session.AllWellformed(asked) && i < |asked|
    ensures Session.MemoryAfter(cfg, mem, first, asked, i + 1)
         == Session.Answer(cfg, Session.MemoryAfter(cfg, mem, first, asked, i), asked[i], Session.SequenceAt(first, i)).memory
  {
  }

  lemma {:induction false} BackedAfter(
    cfg: Session.Config<Areas.Memory>, area: seq<Areas.Area>, entry: seq<Areas.Entry>, bigEndian: bool,
    mem: Areas.Memory, first: word, asked: seq<Session.Request>, k: nat)
    requires Areas.Linked(area, entry) && Areas.Backed(area, mem) && cfg.backend == Service(area, entry, bigEndian)
    requires Session.AllWellformed(asked) && k <= |asked|
    ensures Areas.Backed(area, Session.MemoryAfter(cfg, mem, first, asked, k))
  {
    hide Session.Answer, TableRead, WriteVerdict;
    if k > 0 {
      BackedAfter(cfg, area, entry, bigEndian, mem, first, asked, k - 1);
      var before, r := Session.MemoryAfter(cfg, mem, first, asked, k - 1), asked[k - 1];
      if !r.wide {
        Session.AnswerToMismatch(cfg, before, r, Session.SequenceAt(first, k - 1));
      } else if r.Read? {
        Session.AnswerToRead(cfg, before, r, Session.SequenceAt(first, k - 1));
      } else {
        Session.AnswerToWrite(cfg, before, r, Session.SequenceAt(first, k - 1));
      }
    }
  }

  lemma AcknowledgedIsHeld(
    cfg: Session.Config<Areas.Memory>, area: seq<Areas.Area>, entry: seq<Areas.Entry>, bigEndian: bool,
    mem: Areas.Memory, w: Session.Request, sequence: word)
    requires Areas.Linked(area, entry) && Areas.AreasOrdered(area) && Areas.Backed(area, mem)
    requires cfg.backend == Service(area, entry, bigEndian) && Session.Wellformed(w) && w.Write? && w.wide
    requires var reply := Session.Answer(cfg, mem, w, sequence).reply; reply.Say? && reply.message.meta == Frames.ACK
    requires Verdicts.MayRead(area, w.address, w.n)
    ensures Holds(area, Session.Answer(cfg, mem, w, sequence).memory, w.address, Atoms(w.data))
  {
    hide Session.Answer, TableRead, TableWrite, Verdicts.MayRead, Holds;
    Session.AnswerToWrite(cfg, mem, w, sequence);
    WrittenIsRead(area, mem, entry, bigEndian, w.address, w.data);
  }

  lemma HeldIsAnswered(
    cfg: Session.Config<Areas.Memory>, area: seq<Areas.Area>, entry: seq<Areas.Entry>, bigEndian: bool,
    mem: Areas.Memory, w: Session.Request, sequence: word)
    requires Areas.Linked(area, entry) && Areas.AreasOrdered(area)
    requires cfg.backend == Service(area, entry, bigEndian) && Session.Wellformed(w) && w.Write? && w.wide
    requires Holds(area, mem, w.address, Atoms(w.data)) && Verdicts.MayRead(area, w.address, w.n) && w.n <= cfg.capacity / 2
    ensures var reply := Session.Answer(cfg, mem, Session.Read(true, w.address, w.n), sequence).reply;
            reply.Say? && reply.message.meta == Frames.ACK && reply.message.payload == w.data
  {
    hide Session.Answer, TableRead, TableWrite, Verdicts.MayRead;
    Session.AnswerToRead(cfg, mem, Session.Read(true, w.address, w.n), sequence);
    HeldIsRead(area, mem, w.address, w.data);
  }

  /* ---------- Sessions keep registers safe ---------- */

  /** A write of words is not one of a lone third atom. */
  ghost predicate Harmless(entry: seq<Areas.Entry>, r: Session.Request) {
    r.Write? && r.wide ==> Merge.AvoidsThirdAtoms(entry, r.address, r.n)
  }

  lemma ServedWriteKeepsSafe(
    area: seq<Areas.Area>, mem: Areas.Memory, entry: seq<Areas.Entry>, bigEndian: bool, address: nat, data: seq<octet>)
    requires Areas.Structured(area, entry) && Areas.Backed(area, mem) && Areas.Safe(area, mem, entry, bigEndian)
    requires Merge.AvoidsThirdAtoms(entry, address, |data| / 2)
    ensures var mem' := TableWrite(area, mem, entry, bigEndian, address, data).memory;
            Areas.Backed(area, mem') && Areas.Safe(area, mem', entry, bigEndian)
  {
    hide Verdicts.JudgeBlock, Verdicts.MayWrite, Areas.Safe, Overlay;
    var block := Atoms(data);
    if WriteVerdict(area, mem, entry, bigEndian, address, block) == Verdicts.OK {
      OverlayIsOverlaid(area, mem, address, block);
      if block == [] {
        NothingLaidOver(area, mem, address, block);
      } else {
        Verdicts.BlockKeepsSafe(area, mem, Overlay(area, mem, address, block), entry, bigEndian, address, block);
      }
    }
  }

  /** Requests served one after the other leave every loaded register acceptable. */
  lemma {:induction false} SessionsKeepRegistersSafe(
    cfg: Session.Config<Areas.Memory>, area: seq<Areas.Area>, entry: seq<Areas.Entry>, bigEndian: bool,
    mem: Areas.Memory, first: word, asked: seq<Session.Request>, k: nat)
    requires Areas.Structured(area, entry) && Areas.Backed(area, mem) && Areas.Safe(area, mem, entry, bigEndian)
    requires cfg.backend == Service(area, entry, bigEndian)
    requires Session.AllWellformed(asked) && k <= |asked| && forall r <- asked :: Harmless(entry, r)
    ensures var mem' := Session.MemoryAfter(cfg, mem, first, asked, k);
            Areas.Backed(area, mem') && Areas.Safe(area, mem', entry, bigEndian)
  {
    hide Areas.Structured, Areas.Safe, Session.Answer, Session.Wellformed, TableRead, TableWrite, Merge.AvoidsThirdAtoms;
    if k > 0 {
      SessionsKeepRegistersSafe(cfg, area, entry, bigEndian, mem, first, asked, k - 1);
      var before, r := Session.MemoryAfter(cfg, mem, first, asked, k - 1), asked[k - 1];
      AnswerKeepsSafe(cfg, area, entry, bigEndian, before, r, Session.SequenceAt(first, k - 1));
    }
  }

  lemma AnswerKeepsSafe(
    cfg: Session.Config<Areas.Memory>, area: seq<Areas.Area>, entry: seq<Areas.Entry>, bigEndian: bool,
    mem: Areas.Memory, r: Session.Request, sequence: word)
    requires Areas.Structured(area, entry) && Areas.Backed(area, mem) && Areas.Safe(area, mem, entry, bigEndian)
    requires cfg.backend == Service(area, entry, bigEndian) && Session.Wellformed(r) && Harmless(entry, r)
    ensures var mem' := Session.Answer(cfg, mem, r, sequence).memory;
            Areas.Backed(area, mem') && Areas.Safe(area, mem', entry, bigEndian)
  {
    hide Areas.Safe, Session.Answer, TableRead, TableWrite, Merge.AvoidsThirdAtoms;
    if !r.wide {
      Session.AnswerToMismatch(cfg, mem, r, sequence);
    } else if r.Read? {
      Session.AnswerToRead(cfg, mem, r, sequence);
    } else {
      Session.AnswerToWrite(cfg, mem, r, sequence);
      ServedWriteKeepsSafe(area, mem, entry, bigEndian, r.address, r.data);
    }
  }

  /**
   Whatever is asked of a register table over the protocol, and in whatever order the peers take their
   turns, every register that loads a default stays decodable and accepted by its validator at any time,
   as long as no write is a lone third atom. Neither the atom too many in the merge (Merge.MergeBounds) nor
   what a read clears behind its buffer (Tables.ReadBounds) is taken to hit the table.
   */
  lemma RunsKeepRegistersSafe(
    cfg: Session.Config<Areas.Memory>, area: seq<Areas.Area>, entry: seq<Areas.Entry>, bigEndian: bool,
    s: Session.System<Areas.Memory>, schedule: seq<Session.Step>)
    requires Areas.Structured(area, entry) && Areas.Backed(area, s.memory) && Areas.Safe(area, s.memory, entry, bigEndian)
    requires cfg.backend == Service(area, entry, bigEndian)
    requires Session.Admissible(cfg, schedule) && Session.Idle(s)
    requires Frames.HEADER_MAX + 4 <= cfg.capacity && Frames.HEADER_MAX + 4 <= cfg.clientCapacity
    requires forall r <- Session.Asked(schedule) :: Harmless(entry, r)
    ensures var t := Session.Run(cfg, s, schedule);
            Areas.Backed(area, t.memory) && Areas.Safe(area, t.memory, entry, bigEndian)
  {
    hide Areas.Structured, Areas.Safe, Session.MemoryAfter, Session.Wellformed, Session.Next, Session.Stream, Session.Fits,
         Harmless, Session.InboxInOrder;
    var p := Session.RunKeepsOrder(cfg, s, schedule);
    SessionsKeepRegistersSafe(cfg, area, entry, bigEndian, s.memory, s.sequence, p.asked, p.served);
  }
}
