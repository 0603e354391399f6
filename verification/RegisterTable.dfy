/** The register table: initialisation, register access, and block access. */
module RegisterTable {
  import opened Octets
  import opened RegisterValues
  import opened RegisterMemory
  import opened RegisterMerge
  import opened RegisterVerdicts
  import opened RegisterInit

  /** Which registers are marked once a block has been written over them. */
  function Tainted(entry: seq<Entry>, touched: seq<bool>, address: nat, n: nat): (r: seq<bool>)
    requires |touched| == |entry|
    ensures |r| == |entry|
    ensures forall i :: 0 <= i < |entry| ==> r[i] == (Touches(entry[i], address, n) || touched[i])
  {
    seq(|entry|, i requires 0 <= i < |entry| => Touches(entry[i], address, n) || touched[i])
  }

  datatype Option<T> = None | Some(value: T)

  datatype Command =
    | SetCommand(idx: nat, v: Value)
    | BitsCommand(idx: nat, mask: Value, raise: bool)
    | BlockWriteCommand(address: nat, block: seq<word>)
  {
    /** Values have their type's width, addresses do not wrap, and no block is a lone third atom. */
    ghost predicate Proper(entry: seq<Entry>) {
      match this
      case SetCommand(_, v) => Fits(v)
      case BitsCommand(_, mask, _) => Fits(mask)
      case BlockWriteCommand(address, block) =>
        address + |block| < ADDRESS_LIMIT && AvoidsThirdAtoms(entry, address, |block|)
    }
  }

  /** Bits can only be set or cleared in unsigned registers. */
  predicate IsUnsigned(t: RegisterType) {
    t == Uint16 || t == Uint32 || t == Uint64
  }

  function ChangedBits(v: Value, mask: Value, raise: bool): (r: Value)
    requires v.kind == mask.kind && Fits(v) && Fits(mask)
    ensures r.kind == v.kind && Fits(r)
  {
    if raise then BitSet(v, mask) else BitClear(v, mask)
  }

  /** Raising sets the bits of the mask, and lowering clears them. */
  lemma ChangedBitsBits(v: Value, mask: Value, raise: bool)
    requires v.kind == mask.kind && Fits(v) && Fits(mask)
    ensures forall i: nat ::
              Bit(ChangedBits(v, mask, raise).bits, i) <==>
                if raise then Bit(v.bits, i) || Bit(mask.bits, i) else Bit(v.bits, i) && !Bit(mask.bits, i)
  {
    hide BitSet, BitClear;
    forall i: nat
      ensures Bit(ChangedBits(v, mask, raise).bits, i) <==>
                if raise then Bit(v.bits, i) || Bit(mask.bits, i) else Bit(v.bits, i) && !Bit(mask.bits, i)
    {
      BitSetBits(v, mask, i);
    }
  }

  lemma StillBacked(area: seq<Area>, mem: Memory, mem': Memory, address: nat, data: seq<word>)
    requires Overlaid(area, mem, mem', address, data)
    ensures Backed(area, mem')
  {
  }

  class Table {
    var initialised: bool
    var duringInit: bool
    var bigEndian: bool
    var area: seq<Area>
    var mem: Memory
    var entry: seq<Entry>
    var touched: seq<bool>

    /** A table fresh from its static initialiser. */
    constructor (area: seq<Area>, mem: Memory, entry: seq<Entry>, bigEndian: bool)
      requires Backed(area, mem)
      ensures !initialised && !duringInit && this.bigEndian == bigEndian
      ensures this.area == area && this.mem == mem && this.entry == entry && Valid()
      ensures forall i :: 0 <= i < |entry| ==> !touched[i]
    {
      initialised, duringInit, this.bigEndian := false, false, bigEndian;
      this.area, this.mem, this.entry := area, mem, entry;
      touched := seq(|entry|, _ => false);
    }

    /** An initialised table has its structure. */
    ghost predicate Valid()
      reads this
    {
      && Backed(area, mem) && |touched| == |entry|
      && (initialised ==> !duringInit && Structured(area, entry))
    }

    /** Initialised, and every register that loads a default acceptable. */
    ghost predicate Sound()
      reads this
    {
      Valid() && initialised && Safe(area, mem, entry, bigEndian)
    }

    /* ---------- Initialisation ---------- */

    /** Fail, leaving the table uninitialised. */
    method Fail(code: InitCode, position: nat) returns (rv: InitResult)
      modifies this`initialised, this`duringInit
      ensures !initialised && !duringInit && rv == InitResult(code, position)
    {
      initialised, duringInit := false, false;
      rv := InitResult(code, position);
    }

    /**
     Check the order of areas and entries, clear all memory, link each entry to its area, load the
     defaults, and link each area back to its entries.
     */
    method Init() returns (rv: InitResult)
      requires Valid() && AreasSane(area) && EntriesSane(entry)
      modifies this
      ensures Valid() && !duringInit && bigEndian == old(bigEndian)
      ensures initialised <==> rv.code == InitSuccess
      ensures rv.code == InitSuccess <==> Initialisable(old(area), old(entry))
      ensures rv.code == TooManyAreas <==> |old(area)| >= 0xffff
      ensures rv.code == TooManyEntries <==> |old(area)| < 0xffff && |old(entry)| >= 0xffff_ffff
      ensures rv.code == NoAreas <==> |old(area)| == 0 && |old(entry)| < 0xffff_ffff
      ensures Counted(old(area), old(entry)) ==>
                && (rv.code in AREA_ORDER_CODES <==> !AreasOrdered(old(area)))
                && (rv.code in ENTRY_ORDER_CODES <==> AreasOrdered(old(area)) && !EntriesOrdered(old(entry)))
      ensures rv.code in AREA_ORDER_CODES || rv.code in ENTRY_ORDER_CODES ==>
                OrderBlame(old(area), old(entry), rv.code, rv.position)
      ensures rv.code in LOADING_CODES <==>
                && Counted(old(area), old(entry)) && AreasOrdered(old(area)) && EntriesOrdered(old(entry))
                && !Initialisable(old(area), old(entry))
      ensures rv.code in LOADING_CODES ==> LoadingBlame(old(area), old(entry), rv.code, rv.position)
      ensures rv.code in {TooManyAreas, TooManyEntries, NoAreas, InitSuccess} ==>
                rv.position == match rv.code case TooManyAreas => 0xffff case TooManyEntries => 0xffff_ffff case _ => 0
      ensures rv.code == InitSuccess ==>
                Sound() && DefaultsLoaded(old(area), old(entry), area, mem, entry, bigEndian)
    {
      hide Loadable, HoldsDefault, ClearElsewhere, Indexed, Safe, Placed, SameAreas, DefaultsLoaded, Linked, AreasSane, EntriesSane,
           OrderBlame, LoadingBlame, AreasOrdered, EntriesOrdered, AreaFrom;
      initialised, duringInit := false, true;
      if |area| >= AREA_HANDLE_MAX {
        rv := Fail(TooManyAreas, AREA_HANDLE_MAX);
        return;
      }
      if |entry| >= REGISTER_HANDLE_MAX {
        rv := Fail(TooManyEntries, REGISTER_HANDLE_MAX);
        return;
      }
      if |area| == 0 {
        rv := Fail(NoAreas, 0);
        return;
      }
      var order, position := CheckOrder();
      if order != InitSuccess {
        rv := Fail(order, position);
        return;
      }
      ClearMemory();
      initialised := true;
      rv := LoadDefaults();
      if rv.code == InitSuccess {
        LinkedInOrder(area, old(entry), entry);
        LinkAreas();
        duringInit := false;
        InitComplete(old(area), old(entry), area, mem, entry, bigEndian);
      }
    }

    /** Find the first area, or else the first entry, that does not lie past the one before it. */
    method CheckOrder() returns (code: InitCode, position: nat)
      requires |area| > 0
      ensures code == InitSuccess <==> AreasOrdered(area) && EntriesOrdered(entry)
      ensures code in AREA_ORDER_CODES <==> !AreasOrdered(area)
      ensures code in ENTRY_ORDER_CODES <==> AreasOrdered(area) && !EntriesOrdered(entry)
      ensures OrderBlame(area, entry, code, position)
    {
      for i := 1 to |area|
        invariant forall j, k :: 0 <= j < k < i && k < |area| ==> area[j].base + area[j].size <= area[k].base
      {
        if area[i].base < area[i - 1].base + area[i - 1].size {
          assert area[..i + 1][i] == area[i] && area[..i + 1][i - 1] == area[i - 1];
          return if area[i].base < area[i - 1].base then AreaInvalidOrder else AreaAddressOverlap, i;
        }
      }
      var i := 1;
      while i < |entry|
        invariant 1 <= i && (|entry| == 0 || i <= |entry|)
        invariant forall j, k :: 0 <= j < k < i && k < |entry| ==> entry[j].address + EntrySize(entry[j]) <= entry[k].address
      {
        if entry[i].address < entry[i - 1].address + EntrySize(entry[i - 1]) {
          assert entry[..i + 1][i] == entry[i] && entry[..i + 1][i - 1] == entry[i - 1];
          return if entry[i].address < entry[i - 1].address then EntryInvalidOrder else EntryAddressOverlap, i;
        }
        i := i + 1;
      }
      return InitSuccess, 0;
    }

    method ClearMemory()
      requires Backed(area, mem)
      modifies this`mem
      ensures Backed(area, mem)
      ensures forall x: nat :: Mapped(area, x) ==> AtomAt(area, mem, x) == 0
    {
      hide AreaFrom;
      for k := 0 to |area|
        invariant Backed(area, mem)
        invariant forall j :: 0 <= j < k ==> forall o :: 0 <= o < |mem[j]| ==> mem[j][o] == 0
      {
        mem := mem[k := seq(|mem[k]|, _ => 0)];
      }
    }

    /** Link every entry to its area and load its default, in order. */
    method LoadDefaults() returns (rv: InitResult)
      requires initialised && duringInit
      requires AreasSane(area) && AreasOrdered(area) && EntriesSane(entry) && EntriesOrdered(entry)
      requires Backed(area, mem) && forall x: nat :: Mapped(area, x) ==> AtomAt(area, mem, x) == 0
      modifies this
      ensures area == old(area) && bigEndian == old(bigEndian) && touched == old(touched) && Backed(area, mem)
      ensures |entry| == |old(entry)|
      ensures rv.code == InitSuccess <==> forall i :: 0 <= i < |entry| ==> Loadable(area, old(entry)[i])
      ensures rv.code == InitSuccess ==> initialised && duringInit && rv.position == 0
      ensures rv.code != InitSuccess ==> !initialised && !duringInit && rv.code in LOADING_CODES
      ensures rv.code != InitSuccess ==> LoadingBlame(area, old(entry), rv.code, rv.position)
      ensures rv.code == InitSuccess ==> Linked(area, entry)
      ensures rv.code == InitSuccess ==>
                forall i :: 0 <= i < |entry| ==> entry[i] == LinkTo(area, old(entry)[i]) && HoldsDefault(area, mem, entry[i], bigEndian)
      ensures rv.code == InitSuccess ==> ClearElsewhere(area, mem, entry)
    {
      hide LoadedUpTo, Loaded, Loadable, Placed;
      ghost var before := entry;
      NothingLoaded(area, mem, entry, bigEndian);
      for i := 0 to |entry|
        invariant initialised && duringInit
        invariant area == old(area) && bigEndian == old(bigEndian) && touched == old(touched)
        invariant LoadedUpTo(area, mem, before, entry, bigEndian, i) && |entry| == |before|
        invariant forall j :: 0 <= j < i ==> Loadable(area, before[j])
      {
        ghost var mem0, entry0 := mem, entry;
        LoadedFacts(area, mem, before, entry, bigEndian, i);
        var code := LoadEntry(i);
        if code != InitSuccess {
          assert !Loadable(area, before[i]);
          rv := Fail(code, i);
          return;
        }
        LoadedOneMore(area, mem0, mem, before, entry0, bigEndian, i);
        assert Loadable(area, before[i]);
      }
      LoadedFacts(area, mem, before, entry, bigEndian, |entry|);
      return InitResult(InitSuccess, 0);
    }

    /** Link one entry to its area and load its default. */
    method LoadEntry(i: nat) returns (code: InitCode)
      requires initialised && duringInit && i < |entry| && Fits(DefaultOf(entry[i]))
      requires AreasOrdered(area) && Backed(area, mem)
      modifies this`entry, this`mem
      ensures |entry| == |old(entry)| && Backed(area, mem)
      ensures code == InitSuccess <==> Loadable(area, old(entry)[i])
      ensures code == InitSuccess || code == EntryInMemoryHole || code == EntryInvalidDefault
      ensures code == InitSuccess ==>
                && entry == old(entry)[i := LinkTo(area, old(entry)[i])]
                && Loaded(area, old(mem), mem, entry[i], bigEndian)
      ensures code == EntryInMemoryHole <==> !Placed(area, old(entry)[i])
    {
      hide AreaFrom, Serialise;
      var e := entry[i];
      var k := FindAreaByAddress(e.address);
      if k == |area| || !FitsInto(area[k], e) {
        return EntryInMemoryHole;
      }
      e := e.(area := k, offset := e.address - area[k].base);
      entry := entry[i := e];
      if LoadsDefault(area, e) {
        var access := Set(i, DefaultOf(e));
        if access != OK {
          return EntryInvalidDefault;
        }
      }
      return InitSuccess;
    }

    /** Tell each area which entries lie in it. */
    method LinkAreas()
      requires AreasOrdered(area) && EntriesOrdered(entry) && Linked(area, entry)
      modifies this`area
      ensures SameAreas(old(area), area)
      ensures Indexed(area, entry) && TotalCount(area) == |entry|
    {
      var indexed: seq<Area>, handle := [], 0;
      for k := 0 to |area|
        invariant |indexed| == k
        invariant SplitAt(entry, k, handle)
        invariant forall m :: 0 <= m < k ==> IsIndexed(indexed[m], entry)
        invariant forall m :: 0 <= m < k ==>
          indexed[m] == area[m].(first := indexed[m].first, last := indexed[m].last, count := indexed[m].count)
        invariant TotalCount(indexed) == handle
        modifies {}
      {
        var next := FirstEntryBehind(k, handle);
        var a := if handle < next then area[k].(first := handle, last := next - 1, count := next - handle)
                 else area[k].(first := 0, last := 0, count := 0);
        IndexOfArea(area, entry, k, handle, next, a);
        CountOneMore(indexed, a);
        indexed, handle := indexed + [a], next;
      }
      NothingLeft(area, entry, handle);
      area := indexed;
    }

    /** The first entry from `handle` on that does not lie in area k. */
    method FirstEntryBehind(k: nat, handle: nat) returns (next: nat)
      requires AreasOrdered(area) && Linked(area, entry) && k < |area| && handle <= |entry|
      ensures handle <= next <= |entry|
      ensures forall j :: handle <= j < next ==> entry[j].area == k
      ensures next < |entry| ==> entry[next].area != k
    {
      next := handle;
      while next < |entry| && Contains(area[k], entry[next].address)
        invariant handle <= next <= |entry|
        invariant forall j :: handle <= j < next ==> entry[j].area == k
      {
        ContainsMeansLinked(area, entry, k, next);
        next := next + 1;
      }
      if next < |entry| {
        ContainsMeansLinked(area, entry, k, next);
      }
    }

    /* ---------- Single registers ---------- */

    /** The memory callback of area k. */
    method WriteToArea(k: nat, offset: nat, data: seq<word>)
      requires AreasOrdered(area) && Backed(area, mem)
      requires k < |mem| && offset + |data| <= |mem[k]|
      modifies this`mem
      ensures Overlaid(area, old(mem), mem, area[k].base + offset, data)
    {
      WriteAtOverlays(area, mem, k, offset, data);
      mem := WriteAt(mem, k, offset, data);
    }

    method Set(idx: nat, v: Value) returns (rv: Access)
      requires Fits(v) && Backed(area, mem)
      requires idx < |entry| ==> entry[idx].area < |area|
      requires initialised && idx < |entry| ==> AreasOrdered(area) && IsLinked(area, entry[idx])
      modifies this`mem
      ensures rv == SetVerdict(initialised, duringInit, area, entry, idx, v)
      ensures rv.code == Uninitialised <==> !initialised
      ensures rv.code == NoEntry <==> initialised && idx > |entry|
      ensures initialised && idx < |entry| ==>
                var e, accepted := entry[idx], Validate(entry[idx].check, entry[idx].kind, duringInit, v);
                && (rv.code == RangeError <==> !accepted)
                && (rv.code == ReadOnly <==> accepted && !area[e.area].canWrite)
                && (rv.code == Invalid <==> accepted && area[e.area].canWrite && !Decodable(v))
                && (rv == OK <==> accepted && area[e.area].canWrite && Decodable(v))
                && (rv != OK ==> rv.address == e.address)
      ensures rv == OK ==> Overlaid(area, old(mem), mem, entry[idx].address, Serialise(v, bigEndian))
      ensures rv != OK ==> mem == old(mem)
    {
      hide Decodable, Serialise, Overlaid;
      if !initialised {
        return Access(Uninitialised, idx);
      }
      if idx > |entry| {
        return Access(NoEntry, idx);
      }
      if idx == |entry| {
        return Access(RangeError, 0);
      }
      var e := entry[idx];
      if !Validate(e.check, e.kind, duringInit, v) {
        return Access(RangeError, e.address);
      }
      if !area[e.area].canWrite {
        return Access(ReadOnly, e.address);
      }
      if !Decodable(v) {
        return Access(Invalid, e.address);
      }
      WriteToArea(e.area, e.offset, Serialise(v, bigEndian));
      return OK;
    }

    method Get(idx: nat) returns (rv: Access, v: Value)
      requires Valid()
      ensures rv == if !initialised then Access(Uninitialised, idx)
                    else if idx >= |entry| then Access(NoEntry, idx)
                    else if !Decodable(Stored(area, mem, entry[idx], bigEndian)) then Access(Invalid, idx)
                    else OK
      ensures rv == OK || rv.code == Invalid ==> v == Stored(area, mem, entry[idx], bigEndian)
    {
      v := Value(Uint16, 0);
      if !initialised {
        return Access(Uninitialised, idx), v;
      }
      if idx >= |entry| {
        return Access(NoEntry, idx), v;
      }
      var e := entry[idx];
      v := Deserialise(e.kind, ReadAt(mem, e.area, e.offset, EntrySize(e)), bigEndian);
      rv := if Decodable(v) then OK else Access(Invalid, idx);
    }

    /** Set or clear the bits of a mask: read, change, write back. */
    method ChangeBits(idx: nat, mask: Value, raise: bool) returns (rv: Access)
      requires Valid() && Fits(mask)
      modifies this`mem
      ensures Valid()
      ensures rv == if !initialised then Access(Uninitialised, idx)
                    else if idx >= |entry| then Access(NoEntry, idx)
                    else if entry[idx].kind != mask.kind || mask.kind !in {Uint16, Uint32, Uint64} then Access(Invalid, idx)
                    else SetVerdict(true, false, area, entry, idx,
                                    ChangedBits(Stored(area, old(mem), entry[idx], bigEndian), mask, raise))
      ensures rv == OK ==>
                var changed := ChangedBits(Stored(area, old(mem), entry[idx], bigEndian), mask, raise);
                Overlaid(area, old(mem), mem, entry[idx].address, Serialise(changed, bigEndian))
      ensures rv == OK ==>
                forall i: nat ::
                  Bit(Stored(area, mem, entry[idx], bigEndian).bits, i) <==>
                    if raise then Bit(Stored(area, old(mem), entry[idx], bigEndian).bits, i) || Bit(mask.bits, i)
                    else Bit(Stored(area, old(mem), entry[idx], bigEndian).bits, i) && !Bit(mask.bits, i)
      ensures rv != OK ==> mem == old(mem)
    {
      hide Stored, ChangedBits, Serialise, Structured, Overlaid;
      StructuredLinks(idx);
      var v;
      rv, v := Get(idx);
      if rv != OK {
        assert rv.code == Invalid ==> !IsUnsigned(v.kind);
        return;
      }
      if v.kind != mask.kind || !IsUnsigned(v.kind) {
        return Access(Invalid, idx);
      }
      rv := Set(idx, ChangedBits(v, mask, raise));
      if rv == OK {
        SetIsStored(area, old(mem), mem, entry[idx], bigEndian, ChangedBits(v, mask, raise));
        ChangedBitsBits(v, mask, raise);
        StillBacked(area, old(mem), mem, entry[idx].address, Serialise(ChangedBits(v, mask, raise), bigEndian));
      }
    }

    lemma StructuredLinks(idx: nat)
      requires Valid()
      ensures initialised ==> AreasOrdered(area)
      ensures initialised && idx < |entry| ==> IsLinked(area, entry[idx])
    {
    }

    /* ---------- Blocks ---------- */

    method FindAreaByAddress(address: nat) returns (n: nat)
      ensures n == AreaAt(area, address)
    {
      n := 0;
      while n < |area| && !Contains(area[n], address)
        invariant n <= |area|
        invariant AreaAt(area, address) == AreaFrom(area, address, n)
      {
        n := n + 1;
      }
    }

    /** The first address of a block that no area holds. */
    method BlockTouchesHole(address: nat, n: nat) returns (rv: Access)
      requires address + n < ADDRESS_LIMIT
      ensures rv == OK <==> AllMapped(area, address, n)
      ensures rv != OK ==>
                && rv.code == NoEntry
                && address <= rv.address < address + n
                && !Mapped(area, rv.address)
                && AllMapped(area, address, rv.address - address)
    {
      hide AreaFrom;
      var rest, at := n, address;
      while rest > 0
        invariant 0 <= rest <= n && at == address + (n - rest)
        invariant AllMapped(area, address, n - rest)
      {
        var an := FindAreaByAddress(at);
        if an == |area| {
          assert !Mapped(area, at);
          return Access(NoEntry, at);
        }
        var a := area[an];
        var room := a.base + a.size - at;
        var used := if room > rest then rest else room;
        AreaMapsItsAddresses(area, an, at, used);
        rest := rest - used;
        at := at + used;
      }
      return OK;
    }

    /** Whether any area that a block touches is protected from writes. */
    method IsWriteable(address: nat, n: nat) returns (rv: Access)
      requires AreasOrdered(area)
      ensures rv == if MayWrite(area, address, n) then OK else Access(ReadOnly, address)
      ensures rv == OK <==>
                forall k :: 0 <= k < |area| && area[k].base < address + n && address < area[k].base + area[k].size ==>
                  area[k].canWrite && area[k].writeable
    {
      for i := 0 to |area|
        invariant forall j :: 0 <= j < i && AreaTouches(area[j], address, n) ==> !WriteProtected(area[j])
      {
        var a := area[i];
        if a.base + a.size <= address {
          continue;
        }
        if address + n <= a.base {
          assert forall j :: i <= j < |area| ==> !AreaTouches(area[j], address, n);
          break;
        }
        if WriteProtected(a) {
          assert AreaTouches(a, address, n);
          return Access(ReadOnly, address);
        }
      }
      return OK;
    }

    /** Merge, decode and validate every register that a block touches. */
    method MalformedWrite(address: nat, block: seq<word>) returns (rv: Access)
      requires Valid() && initialised && block != []
      ensures rv == JudgeBlock(area, mem, entry, bigEndian, address, block, 0)
    {
      hide JudgeEntry, Indexed;
      var last := address + |block| - 1;
      for i := 0 to |entry|
        invariant JudgeBlock(area, mem, entry, bigEndian, address, block, 0)
               == JudgeBlock(area, mem, entry, bigEndian, address, block, i)
      {
        var e := entry[i];
        var end := e.address + EntrySize(e) - 1;
        if address > end {
          continue;
        }
        if e.address > last {
          NoneTouched(area, mem, entry, bigEndian, address, block, i);
          return OK;
        }
        var verdict := JudgeEntry(area, mem, e, bigEndian, address, block);
        if verdict != OK {
          return verdict;
        }
      }
      return OK;
    }

    /** Write as much of a block as the area at its address can take. */
    method WriteChunk(address: nat, block: seq<word>) returns (written: nat)
      requires AreasOrdered(area) && Backed(area, mem) && Mapped(area, address) && block != []
      modifies this`mem
      ensures 0 < written <= |block|
      ensures Overlaid(area, old(mem), mem, address, block[..written])
    {
      hide AreaFrom;
      var an := FindAreaByAddress(address);
      var a := area[an];
      var room := a.base + a.size - address;
      written := if room > |block| then |block| else room;
      WriteToArea(an, address - a.base, block[..written]);
    }

    /** Push a block into the areas; every address must be mapped. */
    method BlockWriteUnsafe(address: nat, block: seq<word>)
      requires AreasOrdered(area) && Backed(area, mem) && AllMapped(area, address, |block|)
      modifies this`mem
      ensures Overlaid(area, old(mem), mem, address, block)
    {
      hide AreaFrom;
      var done := 0;
      NothingOverlaid(area, mem, address);
      assert block[..0] == [];
      while done < |block|
        invariant 0 <= done <= |block|
        invariant Overlaid(area, old(mem), mem, address, block[..done])
      {
        ghost var before := mem;
        assert Mapped(area, address + done);
        var written := WriteChunk(address + done, block[done..]);
        PrefixGrows(block, done, written);
        OverlayTwice(area, old(mem), before, mem, address, block[..done],
                     address + done, block[done..][..written], block[..done + written]);
        done := done + written;
      }
      assert block[..|block|] == block;
    }

    /** Mark the registers that a block touches. */
    method TaintInRange(address: nat, n: nat)
      requires EntriesOrdered(entry) && |touched| == |entry|
      modifies this`touched
      ensures touched == Tainted(entry, old(touched), address, n)
    {
      var i := 0;
      while i < |entry|
        invariant i <= |entry| == |touched|
        invariant forall j :: 0 <= j < i ==> touched[j] == (Touches(entry[j], address, n) || old(touched)[j])
        invariant forall j :: i <= j < |entry| ==> touched[j] == old(touched)[j]
      {
        var e := entry[i];
        if address + n <= e.address {
          assert forall j :: i <= j < |entry| ==> !Touches(entry[j], address, n);
          break;
        }
        if e.address + EntrySize(e) > address {
          touched := touched[i := true];
        }
        i := i + 1;
      }
    }

    /** Validate a block as a whole, and only then commit it. */
    method BlockWrite(address: nat, block: seq<word>) returns (rv: Access)
      requires Valid() && address + |block| < ADDRESS_LIMIT
      modifies this`mem, this`touched
      ensures Valid()
      ensures rv == OK <==>
                initialised && (block == [] ||
                  (&& MayWrite(area, address, |block|)
                   && AllMapped(area, address, |block|)
                   && JudgeBlock(area, old(mem), entry, bigEndian, address, block, 0) == OK))
      ensures !initialised ==> rv == Access(Uninitialised, address)
      ensures initialised && block != [] && !MayWrite(area, address, |block|) ==> rv == Access(ReadOnly, address)
      ensures rv.code == NoEntry <==>
                initialised && block != [] && MayWrite(area, address, |block|) && !AllMapped(area, address, |block|)
      ensures rv.code == NoEntry ==>
                && address <= rv.address < address + |block|
                && !Mapped(area, rv.address)
                && AllMapped(area, address, rv.address - address)
      ensures initialised && block != [] && MayWrite(area, address, |block|) && AllMapped(area, address, |block|) ==>
                rv == JudgeBlock(area, old(mem), entry, bigEndian, address, block, 0)
      ensures rv == OK && block != [] ==>
                && Overlaid(area, old(mem), mem, address, block)
                && touched == Tainted(entry, old(touched), address, |block|)
      ensures rv != OK || block == [] ==> mem == old(mem) && touched == old(touched)
    {
      hide JudgeBlock, MayWrite, AllMapped, Tainted;
      if !initialised {
        return Access(Uninitialised, address);
      }
      if block == [] {
        return OK;
      }
      rv := IsWriteable(address, |block|);
      if rv != OK {
        return;
      }
      rv := BlockTouchesHole(address, |block|);
      if rv != OK {
        return;
      }
      rv := MalformedWrite(address, block);
      if rv != OK {
        return;
      }
      BlockWriteUnsafe(address, block);
      TaintInRange(address, |block|);
    }

    /**
     Read a block into a buffer. Areas that cannot be read give zeroes. If a block starts inside of such
     an area, the library puts these zeroes behind the start of the buffer by the offset into the area.
     */
    method BlockRead(address: nat, n: nat, buf: array<word>) returns (rv: Access)
      requires Valid() && address + n < ADDRESS_LIMIT && n <= buf.Length
      modifies buf
      ensures rv == OK <==> initialised && AllMapped(area, address, n)
      ensures rv.code == NoEntry <==> initialised && !AllMapped(area, address, n)
      ensures !initialised ==> rv == Access(Uninitialised, address)
      ensures rv.code == NoEntry ==>
                && address <= rv.address < address + n
                && !Mapped(area, rv.address)
                && AllMapped(area, address, rv.address - address)
      ensures rv == OK ==> forall i :: 0 <= i < buf.Length ==> buf[i] == ShownAt(area, mem, address, n, i, old(buf[i]))
      ensures rv == OK && !StartsInside(area, address) ==>
                forall i :: 0 <= i < buf.Length ==>
                  buf[i] == if i < n then ReadBackAt(area, mem, address + i) else old(buf[i])
      ensures rv == OK && MayRead(area, address, n) ==>
                && buf[..n] == Slice(area, mem, address, n)
                && buf[n..] == old(buf[n..])
      ensures rv != OK ==> buf[..] == old(buf[..])
    {
      if !initialised {
        return Access(Uninitialised, address);
      }
      if n == 0 {
        return OK;
      }
      rv := BlockTouchesHole(address, n);
      if rv != OK {
        return;
      }
      hide ReadBackAt;
      BlockReadUnsafe(address, n, buf);
      if MayRead(area, address, n) {
        ReadableReadBack(area, mem, address, n);
      }
    }

    method BlockReadUnsafe(address: nat, n: nat, buf: array<word>)
      requires AreasOrdered(area) && Backed(area, mem) && AllMapped(area, address, n) && n <= buf.Length
      modifies buf
      ensures forall i :: 0 <= i < buf.Length ==> buf[i] == ShownAt(area, mem, address, n, i, old(buf[i]))
    {
      hide AreaFrom, ReadBackAt, ShownAt, StartsInside;
      var done := 0;
      NothingShown(area, mem, address);
      while done < n
        invariant 0 <= done <= n
        invariant 0 < done < n ==>
                    && Mapped(area, address + done) && area[AreaAt(area, address + done)].base == address + done
                    && EndOfArea(area, address) <= address + done
        invariant forall i :: 0 <= i < buf.Length ==> buf[i] == ShownAt(area, mem, address, done, i, old(buf[i]))
      {
        assert Mapped(area, address + done);
        ghost var before := buf[..];
        var readn := ReadChunk(address, n, done, buf);
        forall i | 0 <= i < buf.Length ensures buf[i] == ShownAt(area, mem, address, done + readn, i, old(buf[i])) {
          ShownMore(area, mem, address, done, readn, i, old(buf[i]), before[i]);
        }
        done := done + readn;
        assert done < n ==> Mapped(area, address + done);
      }
    }

    /** Read as much of the rest of a block as the area at its address has. */
    method ReadChunk(address: nat, n: nat, done: nat, buf: array<word>) returns (readn: nat)
      requires AreasOrdered(area) && Backed(area, mem) && done < n <= buf.Length
      requires AllMapped(area, address, n) && Mapped(area, address + done)
      requires 0 < done ==> area[AreaAt(area, address + done)].base == address + done && EndOfArea(area, address) <= address + done
      modifies buf
      ensures 0 < readn <= n - done
      ensures done + readn < n ==>
                && Mapped(area, address + done + readn)
                && area[AreaAt(area, address + done + readn)].base == address + done + readn
                && EndOfArea(area, address) <= address + done + readn
      ensures done == 0 ==> readn <= EndOfArea(area, address) - address
      ensures forall i :: 0 <= i < buf.Length ==>
                buf[i] == if done == 0 then ShownAt(area, mem, address, readn, i, old(buf[i]))
                          else if done <= i < done + readn then ReadBackAt(area, mem, address + i)
                          else old(buf[i])
    {
      hide AreaFrom, ReadBackAt, AllMapped, ShownAt, EndOfArea;
      var an := FindAreaByAddress(address + done);
      var a := area[an];
      var room := a.base + a.size - (address + done);
      readn := if room > n - done then n - done else room;
      ghost var before := buf[..];
      ReadArea(an, address + done, readn, done, buf);
      forall i | 0 <= i < buf.Length
        ensures buf[i] == if done == 0 then ShownAt(area, mem, address, readn, i, before[i])
                          else if done <= i < done + readn then ReadBackAt(area, mem, address + i)
                          else before[i]
      {
        ChunkShown(area, mem, address, an, done, readn, i, before[i], buf[i]);
      }
      NextChunk(area, address, n, an, done, readn);
    }

    /** Show a part of area k in a buffer from the given position on, or clear the buffer at the area's offset. */
    method ReadArea(k: nat, at: nat, readn: nat, position: nat, buf: array<word>)
      requires AreasOrdered(area) && Backed(area, mem) && k < |area| && position <= at && 0 < readn
      requires Contains(area[k], at) && at + readn <= area[k].base + area[k].size && position + readn <= buf.Length
      modifies buf
      ensures var start := if area[k].readable then position else position + (at - area[k].base);
              forall i :: 0 <= i < buf.Length ==>
                buf[i] == if !(start <= i < start + readn) then old(buf[i])
                          else if area[k].readable then ReadBackAt(area, mem, at - position + i) else 0
    {
      hide AreaFrom, ReadBackAt;
      var offset := at - area[k].base;
      forall x: nat | at <= x < at + readn
        ensures ReadBackAt(area, mem, x) == if area[k].readable then mem[k][x - area[k].base] else 0
      {
        ReadBackInArea(area, mem, k, x);
      }
      if area[k].readable {
        CopyInto(buf, position, ReadAt(mem, k, offset, readn));
      } else {
        CopyInto(buf, position + offset, seq(readn, _ => 0));
      }
    }

    /* ---------- Sanitising ---------- */

    /**
     Put the default back into every register whose value is not acceptable, and clear all marks. The
     first register that refuses its default ends this.
     */
    method Sanitise() returns (rv: Access)
      requires Valid()
      modifies this`mem, this`touched
      ensures Valid()
      ensures !initialised ==> rv == Access(Uninitialised, 0) && mem == old(mem) && touched == old(touched)
      ensures initialised ==>
                (rv == OK <==> AllSanitisable(area, old(mem), entry, bigEndian))
      ensures rv == OK ==>
                forall i :: 0 <= i < |entry| ==>
                  && !touched[i]
                  && Stored(area, mem, entry[i], bigEndian) == Sanitised(entry[i], Stored(area, old(mem), entry[i], bigEndian))
      ensures initialised && rv != OK ==>
                exists i :: 0 <= i < |entry| && RefusedAt(area, old(mem), mem, entry, touched, bigEndian, i, rv)
    {
      if !initialised {
        return Access(Uninitialised, 0);
      }
      hide SanitisedUpTo, Sanitised, Sanitisable, SetVerdict, RefusedAt, AllSanitisable, Stored, Structured;
      NothingSanitised(area, mem, entry, touched, bigEndian);
      for i := 0 to |entry|
        invariant Valid() && Linked(area, entry)
        invariant SanitisedUpTo(area, old(mem), mem, entry, touched, bigEndian, i)
      {
        rv := SanitiseNext(i, old(mem));
        if rv != OK {
          return;
        }
      }
      AllSanitised(area, old(mem), mem, entry, touched, bigEndian);
      return OK;
    }

    method SanitiseNext(i: nat, ghost before: Memory) returns (rv: Access)
      requires Valid() && initialised && i < |entry|
      requires Backed(area, before) && SanitisedUpTo(area, before, mem, entry, touched, bigEndian, i)
      modifies this`mem, this`touched
      ensures Valid()
      ensures rv == OK ==> SanitisedUpTo(area, before, mem, entry, touched, bigEndian, i + 1)
      ensures rv != OK ==> !AllSanitisable(area, before, entry, bigEndian)
      ensures rv != OK ==> RefusedAt(area, before, mem, entry, touched, bigEndian, i, rv)
    {
      hide SanitisedUpTo, Sanitised, Sanitisable, SetVerdict, RefusedAt, AllSanitisable, Stored;
      ghost var now, marks := mem, touched;
      SanitisedSoFar(area, before, mem, entry, touched, bigEndian, i);
      rv := SanitiseEntry(i);
      if rv == OK {
        touched := touched[i := false];
        SanitisedOneMore(area, before, now, mem, entry, marks, bigEndian, i);
      } else {
        Refused(area, before, mem, entry, touched, bigEndian, i, rv);
      }
    }

    method SanitiseEntry(i: nat) returns (rv: Access)
      requires Valid() && initialised && i < |entry|
      modifies this`mem
      ensures Valid()
      ensures rv == OK <==> Sanitisable(area, entry, i, Stored(area, old(mem), entry[i], bigEndian))
      ensures rv != OK ==> mem == old(mem) && rv == SetVerdict(true, false, area, entry, i, DefaultOf(entry[i]))
      ensures rv == OK ==>
                && Stored(area, mem, entry[i], bigEndian) == Sanitised(entry[i], Stored(area, old(mem), entry[i], bigEndian))
                && forall j :: 0 <= j < |entry| && j != i ==>
                     Stored(area, mem, entry[j], bigEndian) == Stored(area, old(mem), entry[j], bigEndian)
    {
      hide SetVerdict;
      var current;
      rv, current := Get(i);
      if rv == OK && Validate(entry[i].check, entry[i].kind, duringInit, current) {
        return OK;
      }
      rv := Set(i, DefaultOf(entry[i]));
      if rv == OK {
        SetIsStored(area, old(mem), mem, entry[i], bigEndian, DefaultOf(entry[i]));
        forall j | 0 <= j < |entry| && j != i
          ensures Stored(area, mem, entry[j], bigEndian) == Stored(area, old(mem), entry[j], bigEndian)
        {
          OthersUntouched(area, old(mem), mem, entry, i, Serialise(DefaultOf(entry[i]), bigEndian), j);
        }
      }
    }

    /* ---------- Iteration ---------- */

    /** The first register of first..last (both included) that covers an address. */
    method FindRegister(first: nat, last: nat, address: nat) returns (handle: Option<nat>)
      requires last < |entry|
      ensures handle == FirstCovering(entry, address, first, last + 1)
    {
      var i := first;
      while i <= last
        invariant first <= i
        invariant FirstCovering(entry, address, first, last + 1) == FirstCovering(entry, address, i, last + 1)
      {
        if Touches(entry[i], address, 1) {
          return Some(i);
        }
        i := i + 1;
      }
      return None;
    }

    /**
     Call f for each register from the one that covers `address` on, up to the end of the range or
     until it returns something other than zero. If the address is mapped only the registers of its
     area are searched for the first one.
     */
    method ForeachIn(address: nat, n: nat, f: nat -> int) returns (rv: Access, visited: seq<nat>)
      requires Valid() && address + n < ADDRESS_LIMIT
      ensures !initialised ==> rv == Access(Uninitialised, 0) && visited == []
      ensures initialised ==>
                && visited == VisitedIn(entry, address, n, f)
                && rv == if visited == [] then OK else Verdict(entry, visited[|visited| - 1], f)
    {
      visited := [];
      hide Structured, Visits;
      if !initialised {
        return Access(Uninitialised, 0), visited;
      }
      if n == 0 || |entry| == 0 {
        return OK, visited;
      }
      var start: Option<nat>;
      var k := FindAreaByAddress(address);
      if k < |area| {
        IndexedSearch(area, entry, k, address);
        start := FindRegister(area[k].first, area[k].last, address);
      } else {
        start := FindRegister(0, |entry| - 1, address);
      }
      if start == None {
        return OK, visited;
      }
      rv, visited := Iterate(start.value, address + n - 1, f);
    }

    method Iterate(start: nat, end: nat, f: nat -> int) returns (rv: Access, visited: seq<nat>)
      requires start < |entry| && entry[start].address <= end
      ensures visited == Visits(entry, start, end, f)
      ensures rv == Verdict(entry, visited[|visited| - 1], f)
    {
      hide Visits;
      visited := [];
      var i := start;
      ghost var whole := Visits(entry, start, end, f);
      NothingVisited(whole);
      while i < |entry| && entry[i].address <= end
        invariant start <= i <= |entry| && |visited| == i - start
        invariant whole == visited + Visits(entry, i, end, f)
        invariant i > start ==> visited[|visited| - 1] == i - 1 && f(i - 1) == 0
      {
        VisitsStep(entry, visited, i, end, f);
        visited := visited + [i];
        if f(i) < 0 {
          return Access(Failure, entry[i].address), visited;
        } else if f(i) > 0 {
          return OK, visited;
        }
        i := i + 1;
      }
      NothingMore(visited, Visits(entry, i, end, f));
      return OK, visited;
    }

    /* ---------- Runs ---------- */

    method Execute(c: Command)
      requires Sound() && c.Proper(entry)
      modifies this`mem, this`touched
      ensures Sound()
    {
      hide Tainted, JudgeBlock, Serialise, ChangedBits, Stored, Safe, MayWrite, AllMapped, Indexed, Decodable, Validate;
      match c {
        case SetCommand(idx, v) =>
          var rv := Set(idx, v);
          if rv == OK {
            SetKeepsSafe(area, old(mem), mem, entry, bigEndian, idx, v);
          }
        case BitsCommand(idx, mask, raise) =>
          var rv := ChangeBits(idx, mask, raise);
          if rv == OK {
            ghost var v := ChangedBits(Stored(area, old(mem), entry[idx], bigEndian), mask, raise);
            SetKeepsSafe(area, old(mem), mem, entry, bigEndian, idx, v);
          }
        case BlockWriteCommand(address, block) =>
          var rv := BlockWrite(address, block);
          if rv == OK && block != [] {
            BlockKeepsSafe(area, old(mem), mem, entry, bigEndian, address, block);
          }
      }
    }

    /**
     Any sequence of accesses, as long as no block is a lone third atom, keeps every register that
     loads a default decodable and accepted by its validator, and those with a failing validator at
     their default.
     */
    method Run(commands: seq<Command>)
      requires Sound()
      requires forall c :: c in commands ==> c.Proper(entry)
      modifies this`mem, this`touched
      ensures Sound()
    {
      for i := 0 to |commands|
        invariant Sound()
      {
        Execute(commands[i]);
      }
    }
  }

  /** A value that its register's validator accepts after initialisation. */
  predicate Sane(e: Entry, v: Value) {
    Decodable(v) && Validate(e.check, e.kind, false, v)
  }

  /** What sanitising leaves in a register. */
  function Sanitised(e: Entry, v: Value): Value {
    if Sane(e, v) then v else DefaultOf(e)
  }

  /** A register can be sanitised if its value may stay or its default may be set. */
  predicate Sanitisable(area: seq<Area>, entry: seq<Entry>, i: nat, v: Value)
    requires i < |entry| && entry[i].area < |area|
  {
    Sane(entry[i], v) || SetVerdict(true, false, area, entry, i, DefaultOf(entry[i])) == OK
  }

  /** Among the registers that initialisation has loaded, those that can be sanitised are those that can be set at all. */
  lemma LoadedRegistersAreSanitisable(area: seq<Area>, entry: seq<Entry>, i: nat, v: Value)
    requires i < |entry| && entry[i].area < |area| && LoadsDefault(area, entry[i]) && DefaultUsable(entry[i])
    requires v.kind == entry[i].kind
    ensures Sanitisable(area, entry, i, v) <==> !entry[i].check.Fail?
  {
  }

  /** The first i registers are sanitised, and the others are as they were. */
  ghost predicate SanitisedUpTo(
    area: seq<Area>, before: Memory, mem: Memory, entry: seq<Entry>, touched: seq<bool>, bigEndian: bool, i: nat)
    requires Backed(area, before) && Backed(area, mem) && Linked(area, entry) && |touched| == |entry|
  {
    forall j :: 0 <= j < |entry| ==>
      var was, v := Stored(area, before, entry[j], bigEndian), Stored(area, mem, entry[j], bigEndian);
      if j < i then Sanitisable(area, entry, j, was) && !touched[j] && v == Sanitised(entry[j], was) else v == was
  }

  ghost predicate AllSanitisable(area: seq<Area>, mem: Memory, entry: seq<Entry>, bigEndian: bool)
    requires Backed(area, mem) && Linked(area, entry)
  {
    forall i :: 0 <= i < |entry| ==> Sanitisable(area, entry, i, Stored(area, mem, entry[i], bigEndian))
  }

  /** Register i refused its default, and only those in front of it are sanitised. */
  ghost predicate RefusedAt(
    area: seq<Area>, before: Memory, mem: Memory, entry: seq<Entry>, touched: seq<bool>, bigEndian: bool, i: nat, rv: Access)
    requires Backed(area, before) && Backed(area, mem) && Linked(area, entry) && |touched| == |entry| && i < |entry|
  {
    && !Sanitisable(area, entry, i, Stored(area, before, entry[i], bigEndian))
    && rv == SetVerdict(true, false, area, entry, i, DefaultOf(entry[i]))
    && SanitisedUpTo(area, before, mem, entry, touched, bigEndian, i)
  }

  lemma Refused(
    area: seq<Area>, before: Memory, mem: Memory, entry: seq<Entry>, touched: seq<bool>, bigEndian: bool, i: nat, rv: Access)
    requires Backed(area, before) && Backed(area, mem) && Linked(area, entry) && |touched| == |entry| && i < |entry|
    requires !Sanitisable(area, entry, i, Stored(area, before, entry[i], bigEndian))
    requires rv == SetVerdict(true, false, area, entry, i, DefaultOf(entry[i]))
    requires SanitisedUpTo(area, before, mem, entry, touched, bigEndian, i)
    ensures RefusedAt(area, before, mem, entry, touched, bigEndian, i, rv)
    ensures !AllSanitisable(area, before, entry, bigEndian)
  {
    hide Stored, Sanitisable, SanitisedUpTo;
  }

  lemma NothingSanitised(area: seq<Area>, mem: Memory, entry: seq<Entry>, touched: seq<bool>, bigEndian: bool)
    requires Backed(area, mem) && Linked(area, entry) && |touched| == |entry|
    ensures SanitisedUpTo(area, mem, mem, entry, touched, bigEndian, 0)
  {
  }

  lemma SanitisedSoFar(
    area: seq<Area>, before: Memory, mem: Memory, entry: seq<Entry>, touched: seq<bool>, bigEndian: bool, i: nat)
    requires Backed(area, before) && Backed(area, mem) && Linked(area, entry) && |touched| == |entry|
    requires i < |entry| && SanitisedUpTo(area, before, mem, entry, touched, bigEndian, i)
    ensures Stored(area, mem, entry[i], bigEndian) == Stored(area, before, entry[i], bigEndian)
  {
    hide Stored, Sanitised, Sanitisable;
  }

  lemma SanitisedOneMore(
    area: seq<Area>, before: Memory, now: Memory, mem: Memory, entry: seq<Entry>, touched: seq<bool>, bigEndian: bool, i: nat)
    requires Backed(area, before) && Backed(area, now) && Backed(area, mem) && Linked(area, entry) && |touched| == |entry|
    requires i < |entry| && SanitisedUpTo(area, before, now, entry, touched, bigEndian, i)
    requires Sanitisable(area, entry, i, Stored(area, now, entry[i], bigEndian))
    requires Stored(area, mem, entry[i], bigEndian) == Sanitised(entry[i], Stored(area, now, entry[i], bigEndian))
    requires forall j :: 0 <= j < |entry| && j != i ==>
               Stored(area, mem, entry[j], bigEndian) == Stored(area, now, entry[j], bigEndian)
    ensures SanitisedUpTo(area, before, mem, entry, touched[i := false], bigEndian, i + 1)
  {
    hide Stored, Sanitised, Sanitisable;
  }

  lemma AllSanitised(
    area: seq<Area>, before: Memory, mem: Memory, entry: seq<Entry>, touched: seq<bool>, bigEndian: bool)
    requires Backed(area, before) && Backed(area, mem) && Linked(area, entry) && |touched| == |entry|
    requires SanitisedUpTo(area, before, mem, entry, touched, bigEndian, |entry|)
    ensures AllSanitisable(area, before, entry, bigEndian)
    ensures forall j :: 0 <= j < |entry| ==>
              && !touched[j]
              && Stored(area, mem, entry[j], bigEndian) == Sanitised(entry[j], Stored(area, before, entry[j], bigEndian))
  {
    hide Stored, Sanitised, Sanitisable;
  }

  /** The first register of lo..hi that covers an address. */
  function FirstCovering(entry: seq<Entry>, address: nat, lo: nat, hi: nat): (r: Option<nat>)
    requires hi <= |entry|
    ensures r.Some? ==> lo <= r.value < hi && Touches(entry[r.value], address, 1)
    ensures r.None? ==> forall i :: lo <= i < hi ==> !Touches(entry[i], address, 1)
    ensures forall i :: lo <= i < hi && (r.Some? ==> i < r.value) ==> !Touches(entry[i], address, 1)
    decreases hi - lo
  {
    if lo >= hi then None
    else if Touches(entry[lo], address, 1) then Some(lo)
    else FirstCovering(entry, address, lo + 1, hi)
  }

  /** Searching only the registers of the area that holds an address finds the same as a full scan. */
  lemma IndexedSearch(area: seq<Area>, entry: seq<Entry>, k: nat, address: nat)
    requires Structured(area, entry) && k < |area| && Contains(area[k], address) && entry != []
    ensures area[k].last < |entry|
    ensures FirstCovering(entry, address, area[k].first, area[k].last + 1) == FirstCovering(entry, address, 0, |entry|)
  {
    assert IsIndexed(area[k], entry);
    forall i | 0 <= i < |entry| && Touches(entry[i], address, 1)
      ensures Contains(area[k], entry[i].address)
    {
      assert IsLinked(area, entry[i]);
      AreaIsUnique(area, k, address);
      AreaIsUnique(area, entry[i].area, address);
    }
    var local, full := FirstCovering(entry, address, area[k].first, area[k].last + 1), FirstCovering(entry, address, 0, |entry|);
    if local.Some? && full.Some? {
      assert local.value == full.value;
    }
  }

  /** The registers that an iteration visits: it ends behind the first one that f does not give zero for. */
  function Visits(entry: seq<Entry>, i: nat, end: nat, f: nat -> int): (visited: seq<nat>)
    ensures visited == [] <==> i >= |entry| || entry[i].address > end
    ensures forall j :: 0 <= j < |visited| ==> visited[j] < |entry|
    decreases |entry| - i
  {
    if i >= |entry| || entry[i].address > end then []
    else [i] + if f(i) == 0 then Visits(entry, i + 1, end, f) else []
  }

  /** Registers are visited in order, without gaps, and up to the end or the first refusal. */
  lemma {:induction false} VisitsAreConsecutive(entry: seq<Entry>, i: nat, end: nat, f: nat -> int, j: nat)
    requires j < |Visits(entry, i, end, f)|
    ensures var visited := Visits(entry, i, end, f);
            && visited[j] == i + j && i + j < |entry| && entry[i + j].address <= end
            && (j < |visited| - 1 ==> f(i + j) == 0)
            && (j == |visited| - 1 ==> f(i + j) != 0 || i + j + 1 == |entry| || entry[i + j + 1].address > end)
    decreases |entry| - i
  {
    if j > 0 {
      VisitsAreConsecutive(entry, i + 1, end, f, j - 1);
    }
  }

  lemma {:induction false} VisitsAll(entry: seq<Entry>, i: nat, end: nat, f: nat -> int, j: nat)
    requires EntriesOrdered(entry) && forall k: nat :: f(k) == 0
    ensures j in Visits(entry, i, end, f) <==> i <= j < |entry| && entry[j].address <= end
    decreases |entry| - i
  {
    if i < |entry| && entry[i].address <= end {
      VisitsAll(entry, i + 1, end, f, j);
    }
  }

  /** The registers that are visited in a range of n addresses. */
  function VisitedIn(entry: seq<Entry>, address: nat, n: nat, f: nat -> int): seq<nat> {
    var start := FirstCovering(entry, address, 0, |entry|);
    if n == 0 || start.None? then [] else Visits(entry, start.value, address + n - 1, f)
  }

  /**
   With a callback that never ends the iteration, the registers visited are those that touch the range,
   if and only if some register covers its first address or none touches it at all. Otherwise nothing is
   visited.
   */
  lemma RangeIsVisited(entry: seq<Entry>, address: nat, n: nat, f: nat -> int)
    requires EntriesOrdered(entry) && 0 < n && forall k: nat :: f(k) == 0
    ensures var visited, start := VisitedIn(entry, address, n, f), FirstCovering(entry, address, 0, |entry|);
            && (start.None? ==> visited == [])
            && ((forall i :: 0 <= i < |entry| ==> (i in visited <==> Touches(entry[i], address, n)))
                <==> start.Some? || forall i :: 0 <= i < |entry| ==> !Touches(entry[i], address, n))
  {
    hide Visits;
    var visited, start := VisitedIn(entry, address, n, f), FirstCovering(entry, address, 0, |entry|);
    if start.Some? {
      var s := start.value;
      forall i | 0 <= i < |entry| ensures i in visited <==> Touches(entry[i], address, n) {
        VisitsAll(entry, s, address + n - 1, f, i);
        assert i < s ==> entry[i].address + EntrySize(entry[i]) <= entry[s].address;
        assert s < i ==> entry[s].address + EntrySize(entry[s]) <= entry[i].address;
      }
    }
  }

  lemma VisitsStep(entry: seq<Entry>, visited: seq<nat>, i: nat, end: nat, f: nat -> int)
    requires i < |entry| && entry[i].address <= end
    ensures visited + Visits(entry, i, end, f)
         == if f(i) == 0 then (visited + [i]) + Visits(entry, i + 1, end, f) else visited + [i]
  {
  }

  lemma NothingVisited(whole: seq<nat>)
    ensures whole == [] + whole
  {
  }

  lemma NothingMore(visited: seq<nat>, more: seq<nat>)
    requires more == []
    ensures visited + more == visited
  {
  }

  function Verdict(entry: seq<Entry>, last: nat, f: nat -> int): Access
    requires last < |entry|
  {
    if f(last) < 0 then Access(Failure, entry[last].address) else OK
  }

  method CopyInto(buf: array<word>, position: nat, data: seq<word>)
    modifies buf
    ensures forall i :: 0 <= i < buf.Length ==>
              buf[i] == if position <= i < position + |data| then data[i - position] else old(buf[i])
  {
    for i := 0 to |data|
      invariant forall j :: 0 <= j < buf.Length ==>
                  buf[j] == if position <= j < position + i then data[j - position] else old(buf[j])
    {
      if position + i < buf.Length {
        buf[position + i] := data[i];
      }
    }
  }

  lemma AreaMapsItsAddresses(area: seq<Area>, k: nat, at: nat, n: nat)
    requires k < |area| && Contains(area[k], at) && at + n <= area[k].base + area[k].size
    ensures AllMapped(area, at, n)
  {
    forall x: nat | at <= x < at + n ensures Mapped(area, x) {
      assert Contains(area[k], x);
    }
  }

  /** If the address behind an area is mapped at all, another area starts there. */
  lemma NextAreaStart(area: seq<Area>, k: nat)
    requires AreasOrdered(area) && k < |area| && area[k].size > 0
    ensures var end := area[k].base + area[k].size; Mapped(area, end) ==> area[AreaAt(area, end)].base == end
  {
    hide AreaFrom;
    var end := area[k].base + area[k].size;
    if Mapped(area, end) {
      var next := AreaAt(area, end);
      assert Contains(area[next], end) && next != k;
    }
  }

  lemma PrefixGrows(s: seq<word>, i: nat, n: nat)
    requires i + n <= |s|
    ensures s[..i] + s[i..][..n] == s[..i + n]
  {
  }

  /** Does a block that starts at the address start inside of an area that cannot be read? */
  predicate StartsInside(area: seq<Area>, address: nat) {
    Mapped(area, address) && !area[AreaAt(area, address)].readable && area[AreaAt(area, address)].base < address
  }

  /** The address behind the area at the address. */
  function EndOfArea(area: seq<Area>, address: nat): nat {
    if Mapped(area, address) then area[AreaAt(area, address)].base + area[AreaAt(area, address)].size else address
  }

  /**
   What stands at place i of a buffer after a block of n atoms has been read into it. The zeroes of an
   area in which the block starts are late by the offset, and those of them that land where the block
   goes on are overwritten, but those behind the block stay.
   */
  ghost function ShownAt(area: seq<Area>, mem: Memory, address: nat, n: nat, i: nat, before: word): word
    requires Backed(area, mem)
  {
    if n == 0 || !StartsInside(area, address) then if i < n then ReadBackAt(area, mem, address + i) else before
    else
      var offset := address - area[AreaAt(area, address)].base;
      var room := if EndOfArea(area, address) - address > n then n else EndOfArea(area, address) - address;
      if room <= i < n then ReadBackAt(area, mem, address + i)
      else if offset <= i < offset + room then 0
      else before
  }

  /** What one chunk shows is what the addresses read back as, but for the start of the block. */
  lemma ChunkShown(
    area: seq<Area>, mem: Memory, address: nat, k: nat, done: nat, readn: nat, i: nat, before: word, shown: word)
    requires AreasOrdered(area) && Backed(area, mem) && k < |area| && Contains(area[k], address + done) && 0 < readn
    requires address + done + readn <= area[k].base + area[k].size && (0 < done ==> area[k].base == address + done)
    requires var start := if area[k].readable then done else done + (address + done - area[k].base);
             shown == if !(start <= i < start + readn) then before
                      else if area[k].readable then ReadBackAt(area, mem, address + i) else 0
    ensures shown == if done == 0 then ShownAt(area, mem, address, readn, i, before)
                     else if done <= i < done + readn then ReadBackAt(area, mem, address + i)
                     else before
  {
    hide AreaFrom, ReadBackAt;
    AreaIsUnique(area, k, address + done);
    if done <= i < done + readn {
      ReadBackInArea(area, mem, k, address + i);
    }
  }

  /**
   Where a block read clears. Only the chunk at the start of a block can be misplaced. It then ends behind
   a buffer of n atoms exactly if the offset into the area is greater than what other areas have of the
   block, and so it always does if the block lies inside of that area.
   */
  lemma ReadBounds(area: seq<Area>, address: nat, n: nat)
    requires 0 < n && Mapped(area, address)
    ensures var a := area[AreaAt(area, address)];
            var offset, left := address - a.base, EndOfArea(area, address) - address;
            var room := if left > n then n else left;
            var end := (if a.readable then 0 else offset) + room;
            && (end > n <==> StartsInside(area, address) && offset > n - room)
            && (StartsInside(area, address) && address + n <= EndOfArea(area, address) ==> end > n)
            && (!StartsInside(area, address) ==> end <= n)
  {
  }

  lemma NothingShown(area: seq<Area>, mem: Memory, address: nat)
    requires Backed(area, mem)
    ensures forall i: nat, before :: ShownAt(area, mem, address, 0, i, before) == before
  {
    hide ReadBackAt, AreaFrom;
  }

  /** One more chunk behind the first area. */
  lemma ShownMore(area: seq<Area>, mem: Memory, address: nat, done: nat, readn: nat, i: nat, before: word, shown: word)
    requires Backed(area, mem) && shown == ShownAt(area, mem, address, done, i, before)
    requires 0 < done ==> EndOfArea(area, address) <= address + done
    ensures 0 < done ==>
              ShownAt(area, mem, address, done + readn, i, before)
              == if done <= i < done + readn then ReadBackAt(area, mem, address + i) else shown
    ensures done == 0 ==> shown == before
  {
    hide ReadBackAt, AreaFrom;
  }

  /** Behind the part of a block that one area has, another area starts. */
  lemma NextChunk(area: seq<Area>, address: nat, n: nat, k: nat, done: nat, readn: nat)
    requires AreasOrdered(area) && AllMapped(area, address, n) && done < n
    requires k < |area| && Contains(area[k], address + done)
    requires 0 < done ==> EndOfArea(area, address) <= address + done
    requires var room := area[k].base + area[k].size - (address + done);
             readn == if room > n - done then n - done else room
    ensures done + readn < n ==>
              && Mapped(area, address + done + readn)
              && area[AreaAt(area, address + done + readn)].base == address + done + readn
              && EndOfArea(area, address) <= address + done + readn
    ensures done == 0 ==> readn <= EndOfArea(area, address) - address
  {
    hide AreaFrom;
    AreaIsUnique(area, k, address + done);
    if done + readn < n {
      assert Mapped(area, address + done + readn);
      NextAreaStart(area, k);
    }
  }

  /** What an address reads back as: areas that cannot be read show zeroes. */
  ghost function ReadBackAt(area: seq<Area>, mem: Memory, address: nat): word
    requires Backed(area, mem)
  {
    if Mapped(area, address) && area[AreaAt(area, address)].readable then AtomAt(area, mem, address) else 0
  }

  lemma ReadBackInArea(area: seq<Area>, mem: Memory, k: nat, x: nat)
    requires AreasOrdered(area) && Backed(area, mem) && k < |area| && Contains(area[k], x)
    ensures ReadBackAt(area, mem, x) == if area[k].readable then mem[k][x - area[k].base] else 0
  {
    hide AreaFrom;
    AreaIsUnique(area, k, x);
  }

  lemma ReadableReadBack(area: seq<Area>, mem: Memory, address: nat, n: nat)
    requires Backed(area, mem) && AllMapped(area, address, n) && MayRead(area, address, n)
    ensures 0 < n ==> !StartsInside(area, address)
    ensures forall x: nat :: address <= x < address + n ==> ReadBackAt(area, mem, x) == AtomAt(area, mem, x)
  {
    hide AreaFrom;
    assert 0 < n && Mapped(area, address) ==> AreaTouches(area[AreaAt(area, address)], address, n);
    forall x: nat | address <= x < address + n ensures ReadBackAt(area, mem, x) == AtomAt(area, mem, x) {
      assert Mapped(area, x);
      assert AreaTouches(area[AreaAt(area, x)], address, n);
    }
  }
}
