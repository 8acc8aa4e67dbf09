/** Element accesses on the emulated memory, updated in place. */
module ArrayProcessor {
  import opened Wrappers
  import opened TaggedMemory
  import opened Ivory
  import opened PackedArrays

  class ArrayMemory {
    const memory: array<Word>
    const oldspace: set<nat>

    /** Follows forwarding pointers to a fixnum. */
    method ReadFixnum(start: nat) returns (cell: Option<nat>)
      requires memory.Length == MEMORY && start < MEMORY
      ensures cell == FixnumCell(memory[..], start, oldspace, MEMORY)
    {
      var vma, hops := start, MEMORY;
      while hops > 0 && Forwards(memory[vma], oldspace)
        invariant 0 <= hops && 0 <= vma < MEMORY
        invariant FixnumCell(memory[..], vma, oldspace, hops) == FixnumCell(memory[..], start, oldspace, MEMORY)
        decreases hops
      {
        vma, hops := memory[vma].datum, hops - 1;
      }
      cell := if hops > 0 && TagType(memory[vma].tag) == TYPE_FIXNUM then Some(vma) else None;
    }

    method Aref1Internal(a: PackedArray, index: nat) returns (element: Option<Element>)
      requires memory.Length == MEMORY
      ensures element == Aref1(memory[..], oldspace, a, index)
    {
      hide FixnumCell, Field;
      var i := index + a.offset;
      var vma := a.vma + WordOf(a.packing, i);
      if vma >= MEMORY {
        return None;
      }
      var cell := ReadFixnum(vma);
      if cell.None? || a.kind == ObjectArray {
        return None;
      }
      element := Some(ElementOf(a.kind, Field(memory[cell.value].datum, Radix(a.packing), SlotOf(a.packing, i))));
    }

    /** Fails, storing nothing, where the emulator traps. */
    method Aset1Internal(a: PackedArray, index: nat, value: Word) returns (ok: bool)
      requires memory.Length == MEMORY
      modifies memory
      ensures Aset1(old(memory[..]), oldspace, a, index, value) == if ok then Some(memory[..]) else None
      ensures !ok ==> memory[..] == old(memory[..])
    {
      hide FixnumCell, DepositIn, Bits, SlotOf, WordOf;
      var bits := Bits(a, value);
      if bits.None? {
        return false;
      }
      var i := index + a.offset;
      var vma := a.vma + WordOf(a.packing, i);
      if vma >= MEMORY {
        return false;
      }
      var cell := ReadFixnum(vma);
      if cell.None? {
        return false;
      }
      var q := memory[cell.value];
      memory[cell.value] := q.(datum := DepositIn(a.packing, q.datum, SlotOf(a.packing, i), bits.value));
      ok := true;
    }
  }
}
