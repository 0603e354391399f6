/** The octets of register values that the register protocol carries. */
module RegisterWire {
  import opened Octets
  import opened Numbers
  import opened RegisterValues
  import Crc16Arc
  import Areas = RegisterMemory
  import Verdicts = RegisterVerdicts
  import Frames = RegisterFrames
  import Session = RegisterSession
  import opened RegisterService

  /** The number of octets of a value. */
  function Width(v: Value): nat {
    2 * Size(v.kind)
  }

  /** The octets of a value in network order: the most significant one first. */
  function NetworkOrder(v: Value): (data: seq<octet>)
    ensures |data| == Width(v)
  {
    BigEndian(v.bits, Width(v))
  }

  /** The octets of a value are the same in both directions. */
  predicate IsPalindrome(v: Value) {
    var data := LittleEndian(v.bits, Width(v));
    forall i :: 0 <= i < |data| ==> data[i] == data[|data| - 1 - i]
  }

  /* ---------- Serialised values as octets ---------- */

  lemma {:induction false} ImageOfNumber(bits: nat, n: nat)
    ensures Image(ToAtoms(bits, n)) == LittleEndian(bits, 2 * n)
    decreases n
  {
    if n > 0 {
      var low := bits % 0x1_0000;
      ImageOfNumber(bits / 0x1_0000, n - 1);
      assert ToAtoms(bits, n)[1..] == ToAtoms(bits / 0x1_0000, n - 1);
      TwoOctets(bits, 2 * n);
    }
  }

  lemma TwoOctets(bits: nat, width: nat)
    requires 2 <= width
    ensures LittleEndian(bits, width)
         == [OctetOf(bits % 0x1_0000 % 256), OctetOf(bits % 0x1_0000 / 256)] + LittleEndian(bits / 0x1_0000, width - 2)
  {
    assert bits / 256 % 256 == bits % 0x1_0000 / 256 && bits / 256 / 256 == bits / 0x1_0000;
  }

  lemma {:induction false} ImageAt(atoms: seq<word>, i: nat)
    requires i < |atoms|
    ensures Image(atoms)[2 * i] as nat == atoms[i] as nat % 256 && Image(atoms)[2 * i + 1] as nat == atoms[i] as nat / 256
  {
    if i > 0 {
      ImageAt(atoms[1..], i - 1);
    }
  }

  /** Turning atoms around turns their octets around. */
  lemma ImageTurned(atoms: seq<word>)
    ensures Image(TurnAround(atoms)) == Reverse(Image(atoms))
  {
    hide Image;
    var turned, n := TurnAround(atoms), |atoms|;
    forall k | 0 <= k < 2 * n ensures Image(turned)[k] == Reverse(Image(atoms))[k] {
      ReverseAt(Image(atoms), k);
      ImageAt(turned, k / 2);
      ImageAt(atoms, n - 1 - k / 2);
      SwappedOctets(atoms[n - 1 - k / 2]);
      assert k == 2 * (k / 2) || k == 2 * (k / 2) + 1;
    }
  }

  lemma SwappedOctets(a: word)
    ensures SwapOctets(a) as nat % 256 == a as nat / 256 && SwapOctets(a) as nat / 256 == a as nat % 256
  {
  }

  /** A stored value occupies its octets in the order of the table. */
  lemma SerialisedOctets(v: Value, bigEndian: bool)
    ensures Image(Serialise(v, bigEndian)) == if bigEndian then NetworkOrder(v) else LittleEndian(v.bits, Width(v))
  {
    ImageOfNumber(v.bits, Size(v.kind));
    ImageTurned(ToAtoms(v.bits, Size(v.kind)));
  }

  lemma PalindromesLookAlike(v: Value)
    ensures LittleEndian(v.bits, Width(v)) == NetworkOrder(v) <==> IsPalindrome(v)
  {
    var data := LittleEndian(v.bits, Width(v));
    forall i | 0 <= i < |data| ensures NetworkOrder(v)[i] == data[|data| - 1 - i] {
      ReverseAt(data, i);
    }
  }

  /** Hosts of either byte order hold the same octets exactly if every atom stays itself when swapped. */
  lemma {:induction false} HostsAgree(atoms: seq<word>)
    ensures Crc16Arc.MemoryImage(atoms, false) == Crc16Arc.MemoryImage(atoms, true)
       <==> forall a <- atoms :: SwapOctets(a) == a
  {
    if atoms != [] {
      HostsAgree(atoms[1..]);
      SwappedOctets(atoms[0]);
      var rest, rest' := Crc16Arc.MemoryImage(atoms[1..], false), Crc16Arc.MemoryImage(atoms[1..], true);
      var little, big := Crc16Arc.MemoryImage(atoms, false), Crc16Arc.MemoryImage(atoms, true);
      assert little[2..] == rest && big[2..] == rest';
      assert atoms == [atoms[0]] + atoms[1..];
      assert little[0] == big[0] <==> SwapOctets(atoms[0]) == atoms[0];
    }
  }

  /* ---------- What a read of one register carries ---------- */

  lemma {:induction false} AtomsOfImage(atoms: seq<word>)
    ensures Atoms(Image(atoms)) == atoms
  {
    if atoms != [] {
      AtomsOfImage(atoms[1..]);
      assert Image(atoms)[2..] == Image(atoms[1..]);
    }
  }

  lemma EntryIsHeld(area: seq<Areas.Area>, mem: Areas.Memory, e: Areas.Entry)
    requires Areas.AreasOrdered(area) && Areas.Backed(area, mem) && Areas.IsLinked(area, e) && area[e.area].readable
    ensures Holds(area, mem, e.address, Areas.EntryAtoms(area, mem, e))
    ensures Verdicts.MayRead(area, e.address, Areas.EntrySize(e))
  {
    hide Areas.AreaFrom;
    Areas.EntryIsMapped(area, mem, e);
  }

  /**
   An acknowledged read of exactly one register carries the register's value, and in network order if
   and only if the table is big-endian or the octets of the value are a palindrome.
   */
  lemma ReadCarriesValue(
    cfg: Session.Config<Areas.Memory>, area: seq<Areas.Area>, entry: seq<Areas.Entry>, bigEndian: bool,
    mem: Areas.Memory, j: nat, sequence: word)
    requires Areas.Linked(area, entry) && Areas.AreasOrdered(area) && Areas.EntriesSane(entry) && Areas.Backed(area, mem)
    requires cfg.backend == Service(area, entry, bigEndian)
    requires j < |entry| && area[entry[j].area].readable && Areas.EntrySize(entry[j]) <= cfg.capacity / 2
    ensures var r, v := Session.Read(true, entry[j].address, Areas.EntrySize(entry[j])), Areas.Stored(area, mem, entry[j], bigEndian);
            var reply := Session.Answer(cfg, mem, r, sequence).reply;
            && reply.Say? && reply.message.meta == Frames.ACK
            && reply.message.payload == (if bigEndian then NetworkOrder(v) else LittleEndian(v.bits, Width(v)))
            && (reply.message.payload == NetworkOrder(v) <==> bigEndian || IsPalindrome(v))
  {
    hide Session.Answer, TableRead, TableWrite, Verdicts.MayRead, Holds, Image, Atoms, Serialise, NetworkOrder, IsPalindrome;
    var e := entry[j];
    assert Areas.IsLinked(area, e);
    var atoms, v := Areas.EntryAtoms(area, mem, e), Areas.Stored(area, mem, e, bigEndian);
    SerialiseInverts(e.kind, atoms, bigEndian);
    SerialisedOctets(v, bigEndian);
    PalindromesLookAlike(v);
    EntryIsHeld(area, mem, e);
    AtomsOfImage(atoms);
    HeldIsRead(area, mem, e.address, Image(atoms));
    Session.AnswerToRead(cfg, mem, Session.Read(true, e.address, Areas.EntrySize(e)), sequence);
  }

  /**
   A granted write of a value in network order to exactly one register stores that value if and only if
   the table is big-endian or the octets of the value are a palindrome.
   */
  lemma WriteStoresValue(
    area: seq<Areas.Area>, mem: Areas.Memory, entry: seq<Areas.Entry>, bigEndian: bool, j: nat, v: Value)
    requires Areas.Linked(area, entry) && Areas.AreasOrdered(area) && Areas.Backed(area, mem)
    requires j < |entry| && Fits(v) && v.kind == entry[j].kind
    requires TableWrite(area, mem, entry, bigEndian, entry[j].address, NetworkOrder(v)).status == Frames.ACK
    ensures var mem' := TableWrite(area, mem, entry, bigEndian, entry[j].address, NetworkOrder(v)).memory;
            Areas.Backed(area, mem') && (Areas.Stored(area, mem', entry[j], bigEndian) == v <==> bigEndian || IsPalindrome(v))
  {
    hide TableWrite, Image, Atoms, Serialise, Deserialise, NetworkOrder, IsPalindrome, Overlay, Areas.AreaFrom;
    var e, block := entry[j], Atoms(NetworkOrder(v));
    var mem' := TableWrite(area, mem, entry, bigEndian, e.address, NetworkOrder(v)).memory;
    assert Areas.IsLinked(area, e);
    GrantedIsMapped(area, mem, entry, bigEndian, e.address, NetworkOrder(v));
    OverlayIsOverlaid(area, mem, e.address, block);
    Areas.OverlaidEntry(area, mem, mem', e, e.address, block);
    assert Areas.EntryAtoms(area, mem', e) == block;
    ImageOfAtoms(NetworkOrder(v));
    ReadAs(v, block, bigEndian);
  }

  /** Octets in network order are read as their value if and only if the order does not matter or is the table's. */
  lemma ReadAs(v: Value, block: seq<word>, bigEndian: bool)
    requires Fits(v) && |block| == Size(v.kind) && Image(block) == NetworkOrder(v)
    ensures Deserialise(v.kind, block, bigEndian) == v <==> bigEndian || IsPalindrome(v)
  {
    hide Image, Serialise, Deserialise, NetworkOrder, IsPalindrome;
    SerialisedOctets(v, bigEndian);
    PalindromesLookAlike(v);
    SerialiseRoundTrip(v, bigEndian);
    SerialiseInverts(v.kind, block, bigEndian);
    AtomsOfImage(block);
    AtomsOfImage(Serialise(v, bigEndian));
  }

  /** The number one in sixteen bits is carried as 1, 0 by a table that is not big-endian. */
  lemma OneIsTurnedAround()
    ensures var one := Value(Uint16, 1);
            && Image(Serialise(one, false)) == [1, 0]
            && NetworkOrder(one) == [0, 1]
            && !IsPalindrome(one)
  {
    var one := Value(Uint16, 1);
    SerialisedOctets(one, false);
    PalindromesLookAlike(one);
    TwoOctets(1, 2);
    assert LittleEndian(1, 2) == [1, 0];
    ReverseAt([1, 0], 0);
    ReverseAt([1, 0], 1);
  }
}
