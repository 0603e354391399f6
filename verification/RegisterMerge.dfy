/** What a block write does to a register that it only partly covers. */
module RegisterMerge {
  import opened Octets
  import opened RegisterValues
  import opened RegisterMemory

  /** The first atom of the register that the block covers. */
  function RegisterStart(e: Entry, address: nat): nat {
    if address > e.address then address - e.address else 0
  }

  /** The first atom of the block that falls into the register. */
  function BlockStart(e: Entry, address: nat): nat {
    if address > e.address then 0 else e.address - address
  }

  /** How many atoms the library merges; note the one atom too many when the block starts late. */
  function MergeLength(e: Entry, address: nat, n: nat): int {
    var size := EntrySize(e);
    var late := if address > e.address then size - (RegisterStart(e, address) - 1) else size;
    if e.address + size > address + n then late - (BlockStart(e, address) + size - n) else late
  }

  /** The register's atoms as the library merges them; atoms landing past the register are dropped. */
  function Merged(e: Entry, before: seq<word>, address: nat, block: seq<word>): (atoms: seq<word>)
    requires |before| == EntrySize(e) && Touches(e, address, |block|)
    ensures |atoms| == EntrySize(e)
  {
    var rs, bs, length := RegisterStart(e, address), BlockStart(e, address), MergeLength(e, address, |block|);
    seq(EntrySize(e), k requires 0 <= k < EntrySize(e) =>
      if rs <= k < rs + length then block[bs + (k - rs)] else before[k])
  }

  /**
   Where the merge copies to and from. If the block starts inside of the register and reaches its end,
   one atom is written behind the register, which for a 64-bit one is behind the local buffer of four atoms; and if
   the block ends with the register, one atom is read from behind the block.
   */
  lemma MergeBounds(e: Entry, address: nat, n: nat)
    requires Touches(e, address, n) && 0 < n
    ensures var to, from := RegisterStart(e, address) + MergeLength(e, address, n), BlockStart(e, address) + MergeLength(e, address, n);
            var last := address > e.address && e.address + EntrySize(e) <= address + n;
            && 0 <= MergeLength(e, address, n)
            && (to > EntrySize(e) <==> last) && to <= EntrySize(e) + 1
            && (to > 4 <==> last && EntrySize(e) == 4)
            && (from > n <==> last && e.address + EntrySize(e) == address + n) && from <= n + 1
  {
  }

  /** The block is exactly the third atom of a 64-bit register. */
  predicate ThirdAtomOnly(e: Entry, address: nat, n: nat) {
    EntrySize(e) == 4 && address == e.address + 2 && n == 1
  }

  lemma MergeIsCovered(e: Entry, before: seq<word>, address: nat, block: seq<word>)
    requires |before| == EntrySize(e) && Touches(e, address, |block|)
    requires !ThirdAtomOnly(e, address, |block|)
    ensures Merged(e, before, address, block) == Covered(e, before, address, block)
  {
  }

  /** A block of only the third atom of a 64-bit register is not merged at all. */
  lemma ThirdAtomIsMissed(e: Entry, before: seq<word>, address: nat, block: seq<word>)
    requires |before| == EntrySize(e) && Touches(e, address, |block|)
    requires ThirdAtomOnly(e, address, |block|)
    ensures Merged(e, before, address, block) == before
  {
  }

  /** The merge looks at what the write will store exactly when the block is not a lone third atom. */
  lemma MergeExact(e: Entry, address: nat, n: nat)
    requires Touches(e, address, n)
    ensures (forall before: seq<word>, block: seq<word> | |before| == EntrySize(e) && |block| == n ::
               Merged(e, before, address, block) == Covered(e, before, address, block))
       <==> !ThirdAtomOnly(e, address, n)
  {
    if ThirdAtomOnly(e, address, n) {
      var before, block: seq<word> := [0, 0, 0, 0], [1];
      ThirdAtomIsMissed(e, before, address, block);
      assert Covered(e, before, address, block)[2] == 1;
    } else {
      forall before: seq<word>, block: seq<word> | |before| == EntrySize(e) && |block| == n
        ensures Merged(e, before, address, block) == Covered(e, before, address, block)
      {
        MergeIsCovered(e, before, address, block);
      }
    }
  }

  ghost predicate AvoidsThirdAtoms(entry: seq<Entry>, address: nat, n: nat) {
    forall i :: 0 <= i < |entry| ==> !ThirdAtomOnly(entry[i], address, n)
  }
}
