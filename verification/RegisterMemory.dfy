/** Memory areas, the registers laid over them, and the flat address map they stand for. */
module RegisterMemory {
  import opened Octets
  import opened RegisterValues

  const ADDRESS_LIMIT: nat := 0x1_0000_0000
  const AREA_HANDLE_MAX: nat := 0xffff
  const REGISTER_HANDLE_MAX: nat := 0xffff_ffff

  /** A memory area; first, last and count index the registers inside of it. */
  datatype Area = Area(base: nat, size: nat,
                       canWrite: bool, readable: bool, writeable: bool, skipDefaults: bool,
                       first: nat, last: nat, count: nat)

  /** The storage behind the areas: one block of atoms for each of them. */
  type Memory = seq<seq<word>>

  datatype Entry = Entry(kind: RegisterType, default: nat, address: nat, check: Validator,
                         area: nat, offset: nat)

  function EntrySize(e: Entry): nat {
    Size(e.kind)
  }

  function DefaultOf(e: Entry): Value {
    Value(e.kind, e.default)
  }

  /** Addresses are 32 bits wide and nothing wraps around. */
  ghost predicate AreasSane(area: seq<Area>) {
    forall i :: 0 <= i < |area| ==> area[i].base + area[i].size < ADDRESS_LIMIT
  }

  ghost predicate EntriesSane(entry: seq<Entry>) {
    forall i :: 0 <= i < |entry| ==> entry[i].address + EntrySize(entry[i]) < ADDRESS_LIMIT && Fits(DefaultOf(entry[i]))
  }

  ghost predicate Backed(area: seq<Area>, mem: Memory) {
    |mem| == |area| && forall i :: 0 <= i < |area| ==> |mem[i]| == area[i].size
  }

  ghost predicate AreasOrdered(area: seq<Area>) {
    forall i, j :: 0 <= i < j < |area| ==> area[i].base + area[i].size <= area[j].base
  }

  ghost predicate EntriesOrdered(entry: seq<Entry>) {
    forall i, j :: 0 <= i < j < |entry| ==> entry[i].address + EntrySize(entry[i]) <= entry[j].address
  }

  predicate Contains(a: Area, address: nat) {
    a.base <= address < a.base + a.size
  }

  predicate FitsInto(a: Area, e: Entry) {
    e.address + EntrySize(e) <= a.base + a.size
  }

  /** The entry points at the area that holds all of it. */
  predicate IsLinked(area: seq<Area>, e: Entry) {
    && e.area < |area|
    && Contains(area[e.area], e.address)
    && FitsInto(area[e.area], e)
    && e.offset == e.address - area[e.area].base
  }

  ghost predicate Linked(area: seq<Area>, entry: seq<Entry>) {
    forall i :: 0 <= i < |entry| ==> IsLinked(area, entry[i])
  }

  /** first..last is exactly the set of registers addressed in the area. */
  ghost predicate IsIndexed(a: Area, entry: seq<Entry>) {
    if a.count == 0 then
      a.first == 0 && a.last == 0 && forall i :: 0 <= i < |entry| ==> !Contains(a, entry[i].address)
    else
      && a.first <= a.last < |entry|
      && a.count == a.last - a.first + 1
      && forall i :: 0 <= i < |entry| ==> (Contains(a, entry[i].address) <==> a.first <= i <= a.last)
  }

  ghost predicate Indexed(area: seq<Area>, entry: seq<Entry>) {
    forall k :: 0 <= k < |area| ==> IsIndexed(area[k], entry)
  }

  function TotalCount(area: seq<Area>): nat {
    if area == [] then 0 else TotalCount(area[..|area| - 1]) + area[|area| - 1].count
  }

  /** What initialisation establishes and everything after it relies on. */
  ghost predicate Structured(area: seq<Area>, entry: seq<Entry>) {
    && AreasSane(area) && EntriesSane(entry)
    && AreasOrdered(area) && EntriesOrdered(entry)
    && Linked(area, entry)
    && Indexed(area, entry) && TotalCount(area) == |entry|
  }

  /* ---------- The flat address map ---------- */

  /** The first area from i on that holds an address, or |area| if there is none. */
  function AreaFrom(area: seq<Area>, address: nat, i: nat): (n: nat)
    requires i <= |area|
    ensures i <= n <= |area|
    ensures n < |area| ==> Contains(area[n], address)
    ensures forall j :: i <= j < n ==> !Contains(area[j], address)
    decreases |area| - i
  {
    if i == |area| || Contains(area[i], address) then i else AreaFrom(area, address, i + 1)
  }

  function AreaAt(area: seq<Area>, address: nat): nat {
    AreaFrom(area, address, 0)
  }

  predicate Mapped(area: seq<Area>, address: nat) {
    AreaAt(area, address) < |area|
  }

  ghost predicate AllMapped(area: seq<Area>, address: nat, n: nat) {
    forall x: nat :: address <= x < address + n ==> Mapped(area, x)
  }

  lemma AreaIsUnique(area: seq<Area>, k: nat, address: nat)
    requires AreasOrdered(area) && k < |area| && Contains(area[k], address)
    ensures AreaAt(area, address) == k
  {
  }

  ghost function AtomAt(area: seq<Area>, mem: Memory, address: nat): word
    requires Backed(area, mem) && Mapped(area, address)
  {
    var k := AreaAt(area, address);
    mem[k][address - area[k].base]
  }

  ghost function Slice(area: seq<Area>, mem: Memory, address: nat, n: nat): (s: seq<word>)
    requires Backed(area, mem) && AllMapped(area, address, n)
    ensures |s| == n
    ensures forall i :: 0 <= i < n ==> s[i] == AtomAt(area, mem, address + i)
  {
    seq(n, i requires 0 <= i < n => AtomAt(area, mem, address + i))
  }

  /** The address map after `data` has been put at `address`, and nothing else has changed. */
  ghost predicate Overlaid(area: seq<Area>, mem: Memory, mem': Memory, address: nat, data: seq<word>) {
    && Backed(area, mem) && Backed(area, mem')
    && forall x: nat :: Mapped(area, x) ==>
         AtomAt(area, mem', x) == if address <= x < address + |data| then data[x - address] else AtomAt(area, mem, x)
  }

  /** The memory callback of an area: replace atoms at an offset. */
  function WriteAt(mem: Memory, k: nat, offset: nat, data: seq<word>): (mem': Memory)
    requires k < |mem| && offset + |data| <= |mem[k]|
    ensures |mem'| == |mem|
  {
    mem[k := mem[k][..offset] + data + mem[k][offset + |data|..]]
  }

  function ReadAt(mem: Memory, k: nat, offset: nat, n: nat): (data: seq<word>)
    requires k < |mem| && offset + n <= |mem[k]|
    ensures |data| == n
  {
    mem[k][offset..offset + n]
  }

  lemma WriteAtOverlays(area: seq<Area>, mem: Memory, k: nat, offset: nat, data: seq<word>)
    requires AreasOrdered(area) && Backed(area, mem)
    requires k < |mem| && offset + |data| <= |mem[k]|
    ensures Overlaid(area, mem, WriteAt(mem, k, offset, data), area[k].base + offset, data)
  {
    hide AreaFrom;
    var mem' := WriteAt(mem, k, offset, data);
    var address := area[k].base + offset;
    forall x: nat | Mapped(area, x)
      ensures AtomAt(area, mem', x) == if address <= x < address + |data| then data[x - address] else AtomAt(area, mem, x)
    {
      if Contains(area[k], x) {
        AreaIsUnique(area, k, x);
      } else {
        assert AreaAt(area, x) != k;
      }
    }
  }

  lemma ReadAtIsSlice(area: seq<Area>, mem: Memory, k: nat, offset: nat, n: nat)
    requires AreasOrdered(area) && Backed(area, mem)
    requires k < |mem| && offset + n <= |mem[k]|
    ensures AllMapped(area, area[k].base + offset, n)
    ensures ReadAt(mem, k, offset, n) == Slice(area, mem, area[k].base + offset, n)
  {
    hide AreaFrom;
    var address := area[k].base + offset;
    forall x: nat | address <= x < address + n ensures AreaAt(area, x) == k {
      AreaIsUnique(area, k, x);
    }
  }

  lemma NothingOverlaid(area: seq<Area>, mem: Memory, address: nat)
    requires Backed(area, mem)
    ensures Overlaid(area, mem, mem, address, [])
  {
  }

  lemma OverlayTwice(area: seq<Area>, a: Memory, b: Memory, c: Memory,
                     address: nat, data: seq<word>, next: nat, more: seq<word>, both: seq<word>)
    requires Overlaid(area, a, b, address, data) && Overlaid(area, b, c, next, more)
    requires next == address + |data| && both == data + more
    ensures Overlaid(area, a, c, address, both)
  {
    hide AreaFrom;
  }

  /* ---------- What a register holds ---------- */

  function EntryAtoms(area: seq<Area>, mem: Memory, e: Entry): (atoms: seq<word>)
    requires IsLinked(area, e) && |mem| == |area| && |mem[e.area]| == area[e.area].size
    ensures |atoms| == EntrySize(e)
  {
    ReadAt(mem, e.area, e.offset, EntrySize(e))
  }

  function Stored(area: seq<Area>, mem: Memory, e: Entry, bigEndian: bool): (v: Value)
    requires IsLinked(area, e) && |mem| == |area| && |mem[e.area]| == area[e.area].size
    ensures v.kind == e.kind && Fits(v)
  {
    Deserialise(e.kind, EntryAtoms(area, mem, e), bigEndian)
  }

  lemma EntryIsMapped(area: seq<Area>, mem: Memory, e: Entry)
    requires AreasOrdered(area) && Backed(area, mem) && IsLinked(area, e)
    ensures AllMapped(area, e.address, EntrySize(e))
    ensures EntryAtoms(area, mem, e) == Slice(area, mem, e.address, EntrySize(e))
  {
    ReadAtIsSlice(area, mem, e.area, e.offset, EntrySize(e));
  }

  /** The atoms of an entry once `data` lies over the address map at `address`. */
  function Covered(e: Entry, before: seq<word>, address: nat, data: seq<word>): (atoms: seq<word>)
    requires |before| == EntrySize(e)
    ensures |atoms| == EntrySize(e)
  {
    seq(EntrySize(e), k requires 0 <= k < EntrySize(e) =>
      if address <= e.address + k < address + |data| then data[e.address + k - address] else before[k])
  }

  lemma OverlaidEntry(area: seq<Area>, mem: Memory, mem': Memory, e: Entry, address: nat, data: seq<word>)
    requires AreasOrdered(area) && IsLinked(area, e) && Overlaid(area, mem, mem', address, data)
    ensures EntryAtoms(area, mem', e) == Covered(e, EntryAtoms(area, mem, e), address, data)
  {
    hide AreaFrom;
    EntryIsMapped(area, mem, e);
    EntryIsMapped(area, mem', e);
  }

  predicate Touches(e: Entry, address: nat, n: nat) {
    e.address < address + n && address < e.address + EntrySize(e)
  }

  lemma UntouchedEntry(area: seq<Area>, mem: Memory, mem': Memory, e: Entry, address: nat, data: seq<word>)
    requires AreasOrdered(area) && IsLinked(area, e) && Overlaid(area, mem, mem', address, data)
    requires !Touches(e, address, |data|)
    ensures EntryAtoms(area, mem', e) == EntryAtoms(area, mem, e)
  {
    OverlaidEntry(area, mem, mem', e, address, data);
  }

  /** A register's default is put into storage when the table is initialised. */
  predicate LoadsDefault(area: seq<Area>, e: Entry)
    requires e.area < |area|
  {
    area[e.area].canWrite && !area[e.area].skipDefaults
  }

  /** A value that a register may hold after initialisation. */
  predicate Acceptable(e: Entry, v: Value) {
    && Decodable(v)
    && Validate(e.check, e.kind, true, v)
    && (e.check.Fail? ==> v == DefaultOf(e))
  }

  /** Every register that is loaded with its default holds a value acceptable to it. */
  ghost predicate Safe(area: seq<Area>, mem: Memory, entry: seq<Entry>, bigEndian: bool)
    requires Backed(area, mem) && Linked(area, entry)
  {
    forall i :: 0 <= i < |entry| && LoadsDefault(area, entry[i]) ==>
      Acceptable(entry[i], Stored(area, mem, entry[i], bigEndian))
  }
}
