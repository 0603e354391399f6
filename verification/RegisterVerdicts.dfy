/** Which accesses the register table grants, and why granted ones keep registers acceptable. */
module RegisterVerdicts {
  import opened Octets
  import opened RegisterValues
  import opened RegisterMemory
  import opened RegisterMerge

  datatype AccessCode = Success | Failure | Uninitialised | NoEntry | RangeError | Invalid | ReadOnly

  datatype Access = Access(code: AccessCode, address: nat)

  const OK: Access := Access(Success, 0)

  /** Index |entry| is the table's terminator: an entry of no type at address zero. */
  function SetVerdict(initialised: bool, duringInit: bool, area: seq<Area>, entry: seq<Entry>, idx: nat, v: Value): Access
    requires idx < |entry| ==> entry[idx].area < |area|
  {
    if !initialised then Access(Uninitialised, idx)
    else if idx > |entry| then Access(NoEntry, idx)
    else if idx == |entry| then Access(RangeError, 0)
    else
      var e := entry[idx];
      if !Validate(e.check, e.kind, duringInit, v) then Access(RangeError, e.address)
      else if !area[e.area].canWrite then Access(ReadOnly, e.address)
      else if !Decodable(v) then Access(Invalid, e.address)
      else OK
  }

  predicate WriteProtected(a: Area) {
    !a.canWrite || !a.writeable
  }

  predicate AreaTouches(a: Area, address: nat, n: nat) {
    a.base < address + n && address < a.base + a.size
  }

  ghost predicate MayWrite(area: seq<Area>, address: nat, n: nat) {
    forall i :: 0 <= i < |area| && AreaTouches(area[i], address, n) ==> !WriteProtected(area[i])
  }

  ghost predicate MayRead(area: seq<Area>, address: nat, n: nat) {
    forall i :: 0 <= i < |area| && AreaTouches(area[i], address, n) ==> area[i].readable
  }

  /** The verdict on one register that a block touches. */
  function JudgeEntry(area: seq<Area>, mem: Memory, e: Entry, bigEndian: bool, address: nat, block: seq<word>): (r: Access)
    requires IsLinked(area, e) && |mem| == |area| && |mem[e.area]| == area[e.area].size
    requires Touches(e, address, |block|)
    ensures r == OK || r.code == Invalid || r.code == RangeError
  {
    var datum := Deserialise(e.kind, Merged(e, EntryAtoms(area, mem, e), address, block), bigEndian);
    if !Decodable(datum) then Access(Invalid, address + BlockStart(e, address))
    else if !Validate(e.check, e.kind, false, datum) then Access(RangeError, address + BlockStart(e, address))
    else OK
  }

  /** The verdict on a block: that of the first register at or after i which is refused. */
  ghost function JudgeBlock(area: seq<Area>, mem: Memory, entry: seq<Entry>, bigEndian: bool,
                            address: nat, block: seq<word>, i: nat): (r: Access)
    requires Backed(area, mem) && Linked(area, entry)
    requires i <= |entry|
    ensures r == OK || r.code == Invalid || r.code == RangeError
    decreases |entry| - i
  {
    if i == |entry| then OK
    else if Touches(entry[i], address, |block|) && JudgeEntry(area, mem, entry[i], bigEndian, address, block) != OK then
      JudgeEntry(area, mem, entry[i], bigEndian, address, block)
    else JudgeBlock(area, mem, entry, bigEndian, address, block, i + 1)
  }

  /** A block is granted exactly when every register that it touches grants it. */
  lemma {:induction false} JudgeBlockOk(area: seq<Area>, mem: Memory, entry: seq<Entry>, bigEndian: bool,
                                        address: nat, block: seq<word>, i: nat)
    requires Backed(area, mem) && Linked(area, entry)
    requires i <= |entry|
    ensures JudgeBlock(area, mem, entry, bigEndian, address, block, i) == OK
       <==> forall j :: i <= j < |entry| && Touches(entry[j], address, |block|) ==>
              JudgeEntry(area, mem, entry[j], bigEndian, address, block) == OK
    decreases |entry| - i
  {
    hide JudgeEntry;
    if i < |entry| {
      JudgeBlockOk(area, mem, entry, bigEndian, address, block, i + 1);
    }
  }

  /** The verdict on a block is that of the first register that refuses it. */
  lemma {:induction false} JudgeBlockFirst(area: seq<Area>, mem: Memory, entry: seq<Entry>, bigEndian: bool,
                                           address: nat, block: seq<word>, i: nat)
    requires Backed(area, mem) && Linked(area, entry)
    requires i <= |entry|
    ensures var r := JudgeBlock(area, mem, entry, bigEndian, address, block, i);
            r != OK ==>
              exists j :: && i <= j < |entry| && Touches(entry[j], address, |block|)
                          && r == JudgeEntry(area, mem, entry[j], bigEndian, address, block)
                          && forall k :: i <= k < j && Touches(entry[k], address, |block|) ==>
                               JudgeEntry(area, mem, entry[k], bigEndian, address, block) == OK
    decreases |entry| - i
  {
    hide JudgeEntry;
    if i < |entry| && JudgeBlock(area, mem, entry, bigEndian, address, block, i) != OK {
      if Touches(entry[i], address, |block|) && JudgeEntry(area, mem, entry[i], bigEndian, address, block) != OK {
        assert JudgeBlock(area, mem, entry, bigEndian, address, block, i)
            == JudgeEntry(area, mem, entry[i], bigEndian, address, block);
      } else {
        JudgeBlockFirst(area, mem, entry, bigEndian, address, block, i + 1);
      }
    }
  }

  /**
   A register refuses a block, at the first address that they share, as invalid if what it would hold then
   cannot be decoded, and as out of range if it can but the validator does not accept it after initialisation.
   */
  lemma RefusedFor(area: seq<Area>, mem: Memory, e: Entry, bigEndian: bool, address: nat, block: seq<word>)
    requires IsLinked(area, e) && |mem| == |area| && |mem[e.area]| == area[e.area].size
    requires Touches(e, address, |block|) && !ThirdAtomOnly(e, address, |block|)
    ensures var r := JudgeEntry(area, mem, e, bigEndian, address, block);
            var v := Deserialise(e.kind, Covered(e, EntryAtoms(area, mem, e), address, block), bigEndian);
            && (r == OK <==> Decodable(v) && Validate(e.check, e.kind, false, v))
            && (r.code == Invalid <==> !Decodable(v))
            && (r.code == RangeError <==> Decodable(v) && !Validate(e.check, e.kind, false, v))
            && (r != OK ==> r.address >= address && r.address >= e.address && (r.address == address || r.address == e.address))
  {
    hide Decodable, Validate, Deserialise, Merged, Covered;
    MergeIsCovered(e, EntryAtoms(area, mem, e), address, block);
  }

  /** Once a register lies past the end of a block, so do all that follow it. */
  lemma NoneTouched(area: seq<Area>, mem: Memory, entry: seq<Entry>, bigEndian: bool,
                    address: nat, block: seq<word>, i: nat)
    requires Backed(area, mem) && Linked(area, entry) && EntriesOrdered(entry)
    requires i < |entry| && entry[i].address >= address + |block|
    ensures JudgeBlock(area, mem, entry, bigEndian, address, block, i) == OK
  {
    JudgeBlockOk(area, mem, entry, bigEndian, address, block, i);
  }

  /* ---------- Registers stay acceptable ---------- */

  lemma SetIsStored(area: seq<Area>, mem: Memory, mem': Memory, e: Entry, bigEndian: bool, v: Value)
    requires AreasOrdered(area) && IsLinked(area, e) && Fits(v) && v.kind == e.kind
    requires Overlaid(area, mem, mem', e.address, Serialise(v, bigEndian))
    ensures Stored(area, mem', e, bigEndian) == v
  {
    var data := Serialise(v, bigEndian);
    OverlaidEntry(area, mem, mem', e, e.address, data);
    assert Covered(e, EntryAtoms(area, mem, e), e.address, data) == data;
    SerialiseRoundTrip(v, bigEndian);
  }

  /** Writing a value into one register leaves all others as they are. */
  lemma OthersUntouched(area: seq<Area>, mem: Memory, mem': Memory, entry: seq<Entry>, idx: nat, data: seq<word>, i: nat)
    requires Structured(area, entry) && idx < |entry| && i < |entry| && i != idx && |data| == EntrySize(entry[idx])
    requires Overlaid(area, mem, mem', entry[idx].address, data)
    ensures EntryAtoms(area, mem', entry[i]) == EntryAtoms(area, mem, entry[i])
  {
    UntouchedEntry(area, mem, mem', entry[i], entry[idx].address, data);
  }

  /** Writing a validated value into one register leaves every register acceptable. */
  lemma SetKeepsSafe(area: seq<Area>, mem: Memory, mem': Memory, entry: seq<Entry>, bigEndian: bool, idx: nat, v: Value)
    requires Structured(area, entry) && Backed(area, mem) && Safe(area, mem, entry, bigEndian)
    requires idx < |entry| && Fits(v)
    requires Validate(entry[idx].check, entry[idx].kind, false, v) && Decodable(v)
    requires Overlaid(area, mem, mem', entry[idx].address, Serialise(v, bigEndian))
    ensures Safe(area, mem', entry, bigEndian)
    ensures Stored(area, mem', entry[idx], bigEndian) == v
  {
    SetIsStored(area, mem, mem', entry[idx], bigEndian, v);
    forall i | 0 <= i < |entry| && LoadsDefault(area, entry[i])
      ensures Acceptable(entry[i], Stored(area, mem', entry[i], bigEndian))
    {
      if i != idx {
        OthersUntouched(area, mem, mem', entry, idx, Serialise(v, bigEndian), i);
      }
    }
  }

  /** Committing a block that was granted leaves every register acceptable. */
  lemma BlockKeepsSafe(area: seq<Area>, mem: Memory, mem': Memory, entry: seq<Entry>, bigEndian: bool,
                       address: nat, block: seq<word>)
    requires Structured(area, entry) && Backed(area, mem) && Safe(area, mem, entry, bigEndian)
    requires JudgeBlock(area, mem, entry, bigEndian, address, block, 0) == OK
    requires AvoidsThirdAtoms(entry, address, |block|)
    requires Overlaid(area, mem, mem', address, block)
    ensures Safe(area, mem', entry, bigEndian)
  {
    JudgeBlockOk(area, mem, entry, bigEndian, address, block, 0);
    forall i | 0 <= i < |entry| && LoadsDefault(area, entry[i])
      ensures Acceptable(entry[i], Stored(area, mem', entry[i], bigEndian))
    {
      var e := entry[i];
      OverlaidEntry(area, mem, mem', e, address, block);
      if Touches(e, address, |block|) {
        assert JudgeEntry(area, mem, e, bigEndian, address, block) == OK;
        MergeIsCovered(e, EntryAtoms(area, mem, e), address, block);
      } else {
        UntouchedEntry(area, mem, mem', e, address, block);
      }
    }
  }

  /**
   The guard is needed: a lone third atom is granted whatever it is, because the library judges the
   value that is already there.
   */
  lemma LoneThirdAtomIsNotJudged(area: seq<Area>, mem: Memory, entry: seq<Entry>, bigEndian: bool, i: nat, block: seq<word>)
    requires Structured(area, entry) && Backed(area, mem) && Safe(area, mem, entry, bigEndian) && i < |entry|
    requires LoadsDefault(area, entry[i]) && !entry[i].check.Fail?
    requires ThirdAtomOnly(entry[i], entry[i].address + 2, |block|)
    ensures JudgeBlock(area, mem, entry, bigEndian, entry[i].address + 2, block, 0) == OK
  {
    var e, address := entry[i], entry[i].address + 2;
    forall j | 0 <= j < |entry| && Touches(entry[j], address, |block|)
      ensures JudgeEntry(area, mem, entry[j], bigEndian, address, block) == OK
    {
      assert j == i;
      assert Acceptable(e, Stored(area, mem, e, bigEndian));
      ThirdAtomIsMissed(e, EntryAtoms(area, mem, e), address, block);
    }
    JudgeBlockOk(area, mem, entry, bigEndian, address, block, 0);
  }

  const LIMITED: Entry := Entry(Uint64, 0, 0, Max(10), 0, 0)
  const FOUR_ATOMS: Area := Area(0, 4, true, true, true, false, 0, 0, 1)

  /** For instance a 64-bit register limited to at most ten ends up at two to the power of 32. */
  lemma LoneThirdAtomBreaksValidator()
    ensures var area, entry, mem, mem' := [FOUR_ATOMS], [LIMITED], [[0, 0, 0, 0]], [[0, 0, 1, 0]];
            && Structured(area, entry) && Backed(area, mem) && Safe(area, mem, entry, false)
            && JudgeBlock(area, mem, entry, false, 2, [1], 0) == OK
            && Overlaid(area, mem, mem', 2, [1])
            && Stored(area, mem', LIMITED, false).bits == 0x1_0000_0000
            && !Safe(area, mem', entry, false)
  {
    hide Structured, Safe, Stored, JudgeBlock, Overlaid;
    var area, entry, mem: Memory, mem': Memory := [FOUR_ATOMS], [LIMITED], [[0, 0, 0, 0]], [[0, 0, 1, 0]];
    LimitedIsStructured();
    LimitedHolds(0);
    LimitedHolds(1);
    LoneThirdAtomIsNotJudged(area, mem, entry, false, 0, [1]);
    WriteAtOverlays(area, mem, 0, 2, [1]);
    assert WriteAt(mem, 0, 2, [1])[0] == [0, 0, 1, 0];
    assert WriteAt(mem, 0, 2, [1]) == mem';
  }

  lemma LimitedIsStructured()
    ensures Structured([FOUR_ATOMS], [LIMITED]) && AreasOrdered([FOUR_ATOMS]) && Linked([FOUR_ATOMS], [LIMITED])
    ensures LoadsDefault([FOUR_ATOMS], LIMITED)
  {
    var area, entry := [FOUR_ATOMS], [LIMITED];
    assert IsIndexed(area[0], entry);
    assert area[..0] == [] && TotalCount(area) == 1;
  }

  lemma LimitedHolds(third: word)
    ensures var area, entry, mem: Memory := [FOUR_ATOMS], [LIMITED], [[0, 0, third, 0]];
            && Backed(area, mem) && Linked(area, entry)
            && Stored(area, mem, LIMITED, false) == Value(Uint64, 0x1_0000_0000 * (third as nat))
            && (Safe(area, mem, entry, false) <==> third == 0)
  {
    var area, entry, mem: Memory := [FOUR_ATOMS], [LIMITED], [[0, 0, third, 0]];
    FourAtoms(third);
    assert EntryAtoms(area, mem, LIMITED) == [0, 0, third, 0];
    TenIsTheLimit(Stored(area, mem, LIMITED, false));
    assert LoadsDefault(area, entry[0]);
  }

  lemma TenIsTheLimit(v: Value)
    requires v.kind == Uint64
    ensures Acceptable(LIMITED, v) <==> v.bits <= 10
  {
  }

  lemma FourAtoms(third: word)
    ensures FromAtoms([0, 0, third, 0]) == 0x1_0000_0000 * (third as nat)
  {
    var atoms := [0, 0, third, 0];
    assert atoms[1..][1..][1..][1..] == [];
    assert FromAtoms(atoms[1..][1..]) == third as nat;
    assert FromAtoms(atoms[1..]) == 0x1_0000 * (third as nat);
  }
}
