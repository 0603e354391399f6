/** What the initialisation of a register table demands and what it builds. */
module RegisterInit {
  import opened Octets
  import opened RegisterValues
  import opened RegisterMemory
  import opened RegisterVerdicts

  datatype InitCode =
    | InitSuccess
    | NoAreas
    | TooManyAreas
    | AreaInvalidOrder
    | AreaAddressOverlap
    | TooManyEntries
    | EntryInvalidOrder
    | EntryAddressOverlap
    | EntryInMemoryHole
    | EntryInvalidDefault

  /** The result of initialisation, and which area or entry is to blame. */
  datatype InitResult = InitResult(code: InitCode, position: nat)

  /** Some area holds all of the register. */
  predicate Placed(area: seq<Area>, e: Entry) {
    Mapped(area, e.address) && FitsInto(area[AreaAt(area, e.address)], e)
  }

  function LinkTo(area: seq<Area>, e: Entry): (linked: Entry)
    requires Placed(area, e)
    ensures IsLinked(area, linked)
  {
    var k := AreaAt(area, e.address);
    e.(area := k, offset := e.address - area[k].base)
  }

  predicate DefaultUsable(e: Entry) {
    Validate(e.check, e.kind, true, DefaultOf(e)) && Decodable(DefaultOf(e))
  }

  /** The register is in its place, and its default can be loaded if it has to be. */
  predicate Loadable(area: seq<Area>, e: Entry) {
    Placed(area, e) && (LoadsDefault(area, LinkTo(area, e)) ==> DefaultUsable(e))
  }

  /** The tables that initialisation takes. */
  ghost predicate Initialisable(area: seq<Area>, entry: seq<Entry>) {
    && 0 < |area| < AREA_HANDLE_MAX && |entry| < REGISTER_HANDLE_MAX
    && AreasOrdered(area) && EntriesOrdered(entry)
    && forall i :: 0 <= i < |entry| ==> Loadable(area, entry[i])
  }

  /* ---------- Who is to blame ---------- */

  const AREA_ORDER_CODES: set<InitCode> := {AreaInvalidOrder, AreaAddressOverlap}
  const ENTRY_ORDER_CODES: set<InitCode> := {EntryInvalidOrder, EntryAddressOverlap}
  const LOADING_CODES: set<InitCode> := {EntryInMemoryHole, EntryInvalidDefault}

  predicate Counted(area: seq<Area>, entry: seq<Entry>) {
    0 < |area| < 0xffff && |entry| < 0xffff_ffff
  }

  /**
   The position is where a prefix of the areas, or else of the entries, first is not in order any more;
   the code tells whether that one starts in front of its predecessor or only before its end.
   */
  ghost predicate OrderBlame(area: seq<Area>, entry: seq<Entry>, code: InitCode, position: nat) {
    && (code in AREA_ORDER_CODES ==>
          && 0 < position < |area| && AreasOrdered(area[..position]) && !AreasOrdered(area[..position + 1])
          && (code == AreaInvalidOrder <==> area[position].base < area[position - 1].base))
    && (code in ENTRY_ORDER_CODES ==>
          && 0 < position < |entry| && EntriesOrdered(entry[..position]) && !EntriesOrdered(entry[..position + 1])
          && (code == EntryInvalidOrder <==> entry[position].address < entry[position - 1].address))
  }

  /** The position is that of the first entry that cannot be loaded; the code tells whether it is out of place. */
  predicate LoadingBlame(area: seq<Area>, entry: seq<Entry>, code: InitCode, position: nat) {
    && position < |entry| && !Loadable(area, entry[position])
    && (forall i :: 0 <= i < position ==> Loadable(area, entry[i]))
    && (code == EntryInMemoryHole <==> !Placed(area, entry[position]))
  }

  /** Only the indices of the areas differ. */
  ghost predicate SameAreas(area: seq<Area>, area': seq<Area>) {
    && |area| == |area'|
    && forall k :: 0 <= k < |area| ==>
         area'[k] == area[k].(first := area'[k].first, last := area'[k].last, count := area'[k].count)
  }

  lemma SameAreasSameMap(area: seq<Area>, area': seq<Area>, address: nat, i: nat)
    requires SameAreas(area, area') && i <= |area|
    ensures AreaFrom(area, address, i) == AreaFrom(area', address, i)
    decreases |area| - i
  {
    if i < |area| {
      SameAreasSameMap(area, area', address, i + 1);
    }
  }

  /** Register i holds its default if it is loaded with one. */
  ghost predicate HoldsDefault(area: seq<Area>, mem: Memory, e: Entry, bigEndian: bool)
    requires Backed(area, mem) && IsLinked(area, e)
  {
    LoadsDefault(area, e) ==> DefaultUsable(e) && Stored(area, mem, e, bigEndian) == DefaultOf(e)
  }

  lemma DefaultsAreSafe(area: seq<Area>, mem: Memory, entry: seq<Entry>, bigEndian: bool)
    requires Backed(area, mem) && Linked(area, entry)
    requires forall i :: 0 <= i < |entry| ==> HoldsDefault(area, mem, entry[i], bigEndian)
    ensures Safe(area, mem, entry, bigEndian)
  {
    forall i | 0 <= i < |entry| && LoadsDefault(area, entry[i])
      ensures Acceptable(entry[i], Stored(area, mem, entry[i], bigEndian))
    {
      assert HoldsDefault(area, mem, entry[i], bigEndian);
    }
  }

  /** An address outside of all loaded registers. */
  ghost predicate Spare(area: seq<Area>, entry: seq<Entry>, address: nat)
    requires Linked(area, entry)
  {
    forall i :: 0 <= i < |entry| && LoadsDefault(area, entry[i]) ==>
      !(entry[i].address <= address < entry[i].address + EntrySize(entry[i]))
  }

  /** Everything outside of the loaded registers is clear. */
  ghost predicate ClearElsewhere(area: seq<Area>, mem: Memory, entry: seq<Entry>)
    requires Backed(area, mem) && Linked(area, entry)
  {
    forall x: nat :: Mapped(area, x) && Spare(area, entry, x) ==> AtomAt(area, mem, x) == 0
  }

  /** Filling in the areas' indices disturbs nothing else. */
  lemma IndicesDoNotMatter(area: seq<Area>, area': seq<Area>, mem: Memory, entry: seq<Entry>, bigEndian: bool)
    requires SameAreas(area, area') && Backed(area, mem) && Linked(area, entry)
    requires forall i :: 0 <= i < |entry| ==> HoldsDefault(area, mem, entry[i], bigEndian)
    requires ClearElsewhere(area, mem, entry)
    ensures AreasOrdered(area) ==> AreasOrdered(area')
    ensures AreasSane(area) ==> AreasSane(area')
    ensures Backed(area', mem) && Linked(area', entry)
    ensures forall i :: 0 <= i < |entry| ==> HoldsDefault(area', mem, entry[i], bigEndian)
    ensures ClearElsewhere(area', mem, entry)
  {
    hide AreaFrom;
    forall i | 0 <= i < |entry|
      ensures IsLinked(area', entry[i]) && HoldsDefault(area', mem, entry[i], bigEndian)
    {
      assert HoldsDefault(area, mem, entry[i], bigEndian);
    }
    forall x: nat | Mapped(area', x) && Spare(area', entry, x) ensures AtomAt(area', mem, x) == 0 {
      SameAreasSameMap(area, area', x, 0);
      assert forall i :: 0 <= i < |entry| ==> LoadsDefault(area, entry[i]) == LoadsDefault(area', entry[i]);
      assert Spare(area, entry, x);
    }
  }

  /** The table that initialisation turns a table into. */
  ghost predicate DefaultsLoaded(area: seq<Area>, entry: seq<Entry>, area': seq<Area>, mem: Memory, entry': seq<Entry>, bigEndian: bool) {
    && SameAreas(area, area') && Backed(area', mem)
    && |entry'| == |entry|
    && (forall i :: 0 <= i < |entry| ==> Loadable(area, entry[i]) && entry'[i] == LinkTo(area, entry[i]))
    && Linked(area', entry')
    && (forall i :: 0 <= i < |entry| ==> HoldsDefault(area', mem, entry'[i], bigEndian))
    && ClearElsewhere(area', mem, entry')
  }

  lemma InitComplete(area: seq<Area>, entry: seq<Entry>, area': seq<Area>, mem: Memory, entry': seq<Entry>, bigEndian: bool)
    requires SameAreas(area, area') && Backed(area, mem) && |entry'| == |entry|
    requires AreasSane(area) && AreasOrdered(area) && EntriesSane(entry) && EntriesOrdered(entry) && Linked(area, entry')
    requires forall i :: 0 <= i < |entry| ==>
               Loadable(area, entry[i]) && entry'[i] == LinkTo(area, entry[i]) && HoldsDefault(area, mem, entry'[i], bigEndian)
    requires ClearElsewhere(area, mem, entry')
    requires Indexed(area', entry') && TotalCount(area') == |entry'|
    ensures DefaultsLoaded(area, entry, area', mem, entry', bigEndian)
    ensures Structured(area', entry') && Safe(area', mem, entry', bigEndian)
  {
    hide Loadable, HoldsDefault, ClearElsewhere, Indexed, Safe;
    IndicesDoNotMatter(area, area', mem, entry', bigEndian);
    DefaultsAreSafe(area', mem, entry', bigEndian);
    assert forall i :: 0 <= i < |entry| ==> entry'[i].address == entry[i].address && DefaultOf(entry'[i]) == DefaultOf(entry[i]);
  }

  /**
   The same in fields: every register lies in its area, holds its default if that area can be written and
   does not skip defaults, and everything outside of such registers is clear.
   */
  lemma InitLeaves(area: seq<Area>, entry: seq<Entry>, area': seq<Area>, mem: Memory, entry': seq<Entry>, bigEndian: bool)
    requires DefaultsLoaded(area, entry, area', mem, entry', bigEndian)
    ensures forall i :: 0 <= i < |entry| ==>
              && entry'[i].area < |area'|
              && var a, e := area'[entry'[i].area], entry'[i];
                 && a.base <= e.address && e.address + EntrySize(e) <= a.base + a.size && e.offset == e.address - a.base
                 && (a.canWrite && !a.skipDefaults ==> Stored(area', mem, e, bigEndian) == DefaultOf(e))
                 && e.address == entry[i].address && DefaultOf(e) == DefaultOf(entry[i]) && e.check == entry[i].check
    ensures forall x: nat ::
              && Mapped(area', x)
              && (forall i :: 0 <= i < |entry'| && entry'[i].address <= x < entry'[i].address + EntrySize(entry'[i]) ==>
                    !area'[entry'[i].area].canWrite || area'[entry'[i].area].skipDefaults) ==>
                AtomAt(area', mem, x) == 0
  {
    hide AreaFrom, Stored, DefaultUsable;
    forall i | 0 <= i < |entry|
      ensures IsLinked(area', entry'[i]) && HoldsDefault(area', mem, entry'[i], bigEndian)
    {
    }
    forall x: nat | Mapped(area', x)
      && forall i :: 0 <= i < |entry'| && entry'[i].address <= x < entry'[i].address + EntrySize(entry'[i]) ==>
           !area'[entry'[i].area].canWrite || area'[entry'[i].area].skipDefaults
      ensures AtomAt(area', mem, x) == 0
    {
      assert Spare(area', entry', x);
    }
  }

  lemma NothingLeft(area: seq<Area>, entry: seq<Entry>, handle: nat)
    requires Linked(area, entry) && SplitAt(entry, |area|, handle)
    ensures handle == |entry|
  {
    assert handle < |entry| ==> IsLinked(area, entry[handle]);
  }

  /** The first i entries are linked and hold their defaults, and nothing else is set. */
  ghost predicate LoadedUpTo(area: seq<Area>, mem: Memory, before: seq<Entry>, entry: seq<Entry>, bigEndian: bool, i: nat) {
    && Backed(area, mem) && |entry| == |before| && i <= |entry|
    && (forall j :: i <= j < |entry| ==> entry[j] == before[j])
    && (forall j :: 0 <= j < i ==> Loadable(area, before[j]) && entry[j] == LinkTo(area, before[j]))
    && (forall j :: 0 <= j < i ==> HoldsDefault(area, mem, entry[j], bigEndian))
    && Linked(area, entry[..i]) && ClearElsewhere(area, mem, entry[..i])
  }

  lemma LoadedFacts(area: seq<Area>, mem: Memory, before: seq<Entry>, entry: seq<Entry>, bigEndian: bool, i: nat)
    requires LoadedUpTo(area, mem, before, entry, bigEndian, i)
    ensures Backed(area, mem) && |entry| == |before|
    ensures i < |entry| ==> entry[i] == before[i]
    ensures i == |entry| ==> Linked(area, entry) && ClearElsewhere(area, mem, entry)
    ensures i == |entry| ==>
              forall j :: 0 <= j < |entry| ==>
                Loadable(area, before[j]) && entry[j] == LinkTo(area, before[j]) && HoldsDefault(area, mem, entry[j], bigEndian)
  {
    assert i == |entry| ==> entry[..i] == entry;
  }

  lemma LoadedOneMore(area: seq<Area>, mem: Memory, mem': Memory, before: seq<Entry>, entry: seq<Entry>, bigEndian: bool, i: nat)
    requires AreasOrdered(area) && EntriesOrdered(before) && EntriesSane(before)
    requires i < |entry| && LoadedUpTo(area, mem, before, entry, bigEndian, i)
    requires Loadable(area, before[i]) && Loaded(area, mem, mem', LinkTo(area, before[i]), bigEndian)
    ensures LoadedUpTo(area, mem', before, entry[i := LinkTo(area, before[i])], bigEndian, i + 1)
  {
    hide Loadable, AreaFrom, HoldsDefault, ClearElsewhere, Loaded;
    var entry' := entry[i := LinkTo(area, before[i])];
    var done := entry'[..i + 1];
    assert done[..i] == entry[..i] && done[..i + 1] == done;
    assert forall j :: 0 <= j < i ==> done[j] == entry[j];
    LinkedInOrder(area, before, done);
    LoadOneMore(area, mem, mem', done, bigEndian, i);
  }

  /** Entries that have been linked are as much in order as they were before. */
  lemma LinkedInOrder(area: seq<Area>, before: seq<Entry>, done: seq<Entry>)
    requires EntriesOrdered(before) && EntriesSane(before) && |done| <= |before|
    requires forall j :: 0 <= j < |done| ==> Loadable(area, before[j]) && done[j] == LinkTo(area, before[j])
    ensures EntriesOrdered(done) && Linked(area, done)
    ensures forall j :: 0 <= j < |done| ==> Fits(DefaultOf(done[j]))
  {
    assert forall j :: 0 <= j < |done| ==> done[j].address == before[j].address && done[j].kind == before[j].kind;
  }

  lemma NothingLoaded(area: seq<Area>, mem: Memory, entry: seq<Entry>, bigEndian: bool)
    requires Backed(area, mem) && forall x: nat :: Mapped(area, x) ==> AtomAt(area, mem, x) == 0
    ensures LoadedUpTo(area, mem, entry, entry, bigEndian, 0)
  {
  }

  /** What loading one register does to the memory. */
  ghost predicate Loaded(area: seq<Area>, mem: Memory, mem': Memory, e: Entry, bigEndian: bool)
    requires Backed(area, mem) && IsLinked(area, e)
  {
    if LoadsDefault(area, e) then
      DefaultUsable(e) && Overlaid(area, mem, mem', e.address, Serialise(DefaultOf(e), bigEndian))
    else mem' == mem
  }

  /** Loading the next register disturbs none of those before it. */
  lemma LoadOneMore(area: seq<Area>, mem: Memory, mem': Memory, entry: seq<Entry>, bigEndian: bool, i: nat)
    requires AreasOrdered(area) && Backed(area, mem)
    requires i < |entry| && EntriesOrdered(entry) && Linked(area, entry) && Fits(DefaultOf(entry[i]))
    requires forall j :: 0 <= j < i ==> HoldsDefault(area, mem, entry[j], bigEndian)
    requires ClearElsewhere(area, mem, entry[..i])
    requires Loaded(area, mem, mem', entry[i], bigEndian)
    ensures Backed(area, mem')
    ensures forall j :: 0 <= j <= i ==> HoldsDefault(area, mem', entry[j], bigEndian)
    ensures ClearElsewhere(area, mem', entry[..i + 1])
  {
    hide AreaFrom, Serialise, Deserialise;
    var e := entry[i];
    if LoadsDefault(area, e) {
      var data := Serialise(DefaultOf(e), bigEndian);
      SetIsStored(area, mem, mem', e, bigEndian, DefaultOf(e));
      forall j | 0 <= j < i ensures HoldsDefault(area, mem', entry[j], bigEndian) {
        UntouchedEntry(area, mem, mem', entry[j], e.address, data);
        assert HoldsDefault(area, mem, entry[j], bigEndian);
      }
    }
    forall x: nat | Mapped(area, x) && Spare(area, entry[..i + 1], x) ensures AtomAt(area, mem', x) == 0 {
      assert entry[..i + 1][i] == e;
      assert forall j :: 0 <= j < i ==> entry[..i + 1][j] == entry[..i][j];
      assert Spare(area, entry[..i], x);
    }
  }

  /* ---------- Linking areas back to their registers ---------- */

  /** Registers sorted by address lie in areas sorted by address. */
  lemma AreasFollowEntries(area: seq<Area>, entry: seq<Entry>, i: nat, j: nat)
    requires AreasOrdered(area) && EntriesOrdered(entry) && Linked(area, entry)
    requires i <= j < |entry|
    ensures entry[i].area <= entry[j].area
  {
    assert entry[i].address <= entry[j].address;
  }

  lemma ContainsMeansLinked(area: seq<Area>, entry: seq<Entry>, k: nat, i: nat)
    requires AreasOrdered(area) && Linked(area, entry) && k < |area| && i < |entry|
    ensures Contains(area[k], entry[i].address) <==> entry[i].area == k
  {
    if Contains(area[k], entry[i].address) {
      AreaIsUnique(area, k, entry[i].address);
      AreaIsUnique(area, entry[i].area, entry[i].address);
    }
  }

  /** From register `handle` on, and only from there, registers lie in area k or later. */
  ghost predicate SplitAt(entry: seq<Entry>, k: nat, handle: nat) {
    && handle <= |entry|
    && (forall j :: 0 <= j < handle ==> entry[j].area < k)
    && (forall j :: handle <= j < |entry| ==> entry[j].area >= k)
  }

  lemma IndexOfArea(area: seq<Area>, entry: seq<Entry>, k: nat, handle: nat, next: nat, a: Area)
    requires AreasOrdered(area) && EntriesOrdered(entry) && Linked(area, entry) && k < |area|
    requires SplitAt(entry, k, handle) && handle <= next <= |entry|
    requires forall j :: handle <= j < next ==> entry[j].area == k
    requires next < |entry| ==> entry[next].area != k
    requires a == if handle < next then area[k].(first := handle, last := next - 1, count := next - handle)
                  else area[k].(first := 0, last := 0, count := 0)
    ensures SplitAt(entry, k + 1, next)
    ensures IsIndexed(a, entry) && handle + a.count == next
  {
    forall j | next <= j < |entry| ensures entry[j].area > k {
      AreasFollowEntries(area, entry, next, j);
    }
    forall i | 0 <= i < |entry| ensures Contains(a, entry[i].address) <==> entry[i].area == k {
      ContainsMeansLinked(area, entry, k, i);
    }
  }

  lemma CountOneMore(indexed: seq<Area>, a: Area)
    ensures TotalCount(indexed + [a]) == TotalCount(indexed) + a.count
  {
    assert (indexed + [a])[..|indexed|] == indexed;
  }
}
