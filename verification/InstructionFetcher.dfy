/** The instruction cache in its array, filled in place. */
module InstructionFetcher {
  import opened Wrappers
  import opened TaggedMemory
  import opened Ivory
  import opened InstructionCache
  import opened InstructionFetch

  class Fetcher {
    const lines: array<Entry>
    var pc: Pc
    var cp: Option<int>

    predicate Valid() reads this { lines.Length == CACHE && (cp.Some? ==> 0 <= cp.value < CACHE) }

    constructor (start: Pc)
      ensures Valid() && fresh(lines) && pc == start && cp == None
      ensures forall i :: 0 <= i < CACHE ==> lines[i].code == Empty && lines[i].pc == 0xFFFF_FFFF
    {
      lines := new Entry[CACHE](_ => Entry(0xFFFF_FFFF, Pc(0, false), None, Empty));
      pc, cp := start, None;
    }

    /** The main loop over the words of a block. */
    method DecodeBlock(memory: seq<Word>, block: Datum, slot: nat)
      requires lines.Length == CACHE && |memory| == MEMORY && block + 31 < MEMORY && slot + 64 <= CACHE
      modifies lines
      ensures forall i :: 0 <= i < CACHE && !(slot <= i < slot + 64) ==> lines[i] == old(lines[i])
      ensures forall k :: 0 <= k < 64 ==>
        lines[slot + k] == Filled(memory[block + k / 2], block + k / 2, slot + k, old(lines[slot + k]))
    {
      hide Filled;
      var vma := 0;
      while vma < 32
        invariant 0 <= vma <= 32
        invariant forall i :: 0 <= i < CACHE && !(slot <= i < slot + 2 * vma) ==> lines[i] == old(lines[i])
        invariant forall k :: 0 <= k < 2 * vma ==>
          lines[slot + k] == Filled(memory[block + k / 2], block + k / 2, slot + k, old(lines[slot + k]))
      {
        var even := slot + 2 * vma;
        lines[even] := Filled(memory[block + vma], block + vma, even, lines[even]);
        lines[even + 1] := Filled(memory[block + vma], block + vma, even + 1, lines[even + 1]);
        vma := vma + 1;
      }
    }

    /** Drop the link of an entry whose next PC is outside the block. */
    method Unlink(i: nat, outside: bool)
      requires i < lines.Length
      modifies lines
      ensures lines[i] == if outside then old(lines[i]).(link := None) else old(lines[i])
      ensures forall j :: 0 <= j < lines.Length && j != i ==> lines[j] == old(lines[j])
    {
      if outside { lines[i] := lines[i].(link := None); }
    }

    /** The second look at the entries whose links may leave the block. */
    method UnlinkEdges(block: Datum, slot: nat)
      requires lines.Length == CACHE && slot + 64 <= CACHE
      modifies lines
      ensures forall i :: 0 <= i < CACHE && !(slot <= i < slot + 64) ==> lines[i] == old(lines[i])
      ensures forall i :: slot <= i < slot + 64 ==> lines[i] == Patched(old(lines[i]), i - slot, block)
    {
      Unlink(slot, lines[slot].nextPc.address < block);
      Unlink(slot + 60, lines[slot + 60].nextPc.address >= block + 32);
      Unlink(slot + 61, lines[slot + 61].nextPc.address >= block + 32);
      Unlink(slot + 62, lines[slot + 62].nextPc.address >= block + 32);
      Unlink(slot + 63, lines[slot + 63].nextPc.address >= block + 32);
    }

    method InstructionCacheMiss(memory: seq<Word>)
      requires Valid() && |memory| == MEMORY
      modifies lines
      ensures BlockOf(pc.address) % 32 == 0 && lines[..] == Fill(old(lines[..]), memory, BlockOf(pc.address))
      ensures IndexOf(pc) < CACHE && lines[IndexOf(pc)].pc == pc.address
      ensures Executes(memory[pc.address], pc.odd, lines[IndexOf(pc)].code)
    {
      hide Filled, Patched, BlockOf, SlotOf, Executes, IndexOf;
      var block := BlockOf(pc.address);
      BlockAligned(pc.address);
      SlotIsLine(block);
      var slot := SlotOf(block);
      ghost var was := lines[..];
      DecodeBlock(memory, block, slot);
      ghost var decoded := lines[..];
      UnlinkEdges(block, slot);
      forall i | 0 <= i < CACHE ensures lines[i] == Fill(was, memory, block)[i] {
        if slot <= i < slot + 64 {
          var k := i - slot;
          assert decoded[slot + k] == Filled(memory[block + k / 2], block + k / 2, slot + k, was[slot + k]);
          assert lines[i] == FilledEntry(memory, block, slot, k, was[i]);
        }
      }
      IndexInBlock(block, pc.address - block, pc.odd);
      FillExecutes(was, memory, block, pc.address - block, pc.odd);
      assert lines[..][IndexOf(pc)] == Fill(was, memory, block)[IndexOf(pc)];
    }

    /** Find the entry for `pc`, filling its line on a miss. */
    method InstructionCacheLookup(memory: seq<Word>)
      requires Valid() && |memory| == MEMORY
      modifies this`cp, lines
      ensures Valid() && lines[..] == Lookup(old(lines[..]), memory, pc) && cp == Some(IndexOf(pc))
    {
      hide Fill;
      var i := IndexOf(pc);
      assert lines[..][i] == lines[i];
      if lines[i].pc != pc.address { InstructionCacheMiss(memory); }
      cp := Some(i);
    }

    /** Execute one instruction. The run of up to `n` instructions, for any `n`, starts with it. */
    method Step<S>(memory: seq<Word>, execute: Execute<S>, s: S, ghost n: nat)
      returns (f: Fetched, s': S, halted: bool)
      requires Valid() && |memory| == MEMORY && n > 0
      modifies this, lines
      ensures Valid()
      ensures CachedRun(old(lines[..]), memory, execute, old(pc), old(cp), s, n) ==
        if halted then ([f], s')
        else
          var (rest, t) := CachedRun(lines[..], memory, execute, pc, cp, s', n - 1);
          ([f] + rest, t)
    {
      hide Lookup, IndexOf;
      if cp.None? { InstructionCacheLookup(memory); }
      var e := lines[cp.value];
      assert e == lines[..][cp.value];
      f, s', halted := Fetched(pc, e.code), s, e.code == Illegal || e.code == Empty;
      if !halted {
        var (t, jump) := execute(s, f);
        s' := t;
        if jump.Some? {
          pc, cp := jump.value, None;
        } else if e.link.Some? && !(0 <= e.link.value < CACHE) {
          halted := true;
        } else {
          pc, cp := e.nextPc, e.link;
        }
      }
    }

    /** The sequencer's loop: execute instructions until one is illegal, for at most `n`. */
    method Sequence<S>(memory: seq<Word>, execute: Execute<S>, s: S, n: nat) returns (fetched: seq<Fetched>, last: S)
      requires Valid() && |memory| == MEMORY
      modifies this, lines
      ensures (fetched, last) == CachedRun(old(lines[..]), memory, execute, old(pc), old(cp), s, n)
    {
      hide CachedRun;
      ghost var whole := CachedRun(lines[..], memory, execute, pc, cp, s, n);
      fetched, last := [], s;
      var left, halted := n, false;
      assert [] + whole.0 == whole.0;
      while left > 0 && !halted
        invariant 0 <= left <= n && Valid()
        invariant halted ==> whole == (fetched, last)
        invariant !halted ==>
          var (rest, t) := CachedRun(lines[..], memory, execute, pc, cp, last, left);
          whole == (fetched + rest, t)
      {
        var f;
        f, last, halted := Step(memory, execute, last, left);
        ghost var (rest, t) := CachedRun(lines[..], memory, execute, pc, cp, last, left - 1);
        assert fetched + ([f] + rest) == fetched + [f] + rest;
        fetched, left := fetched + [f], left - 1;
      }
      if !halted {
        assert CachedRun(lines[..], memory, execute, pc, cp, last, 0) == ([], last) by {
          RunOfNone(lines[..], memory, execute, pc, cp, last);
        }
        assert fetched + [] == fetched;
      }
    }

    /** From a coherent cache the sequencer executes what memory dictates, unless the run goes on around the end of
        memory, or its first instruction from the last line is the one at the last address. */
    method InstructionSequencer<S>(memory: seq<Word>, execute: Execute<S>, s: S, n: nat)
      returns (fetched: seq<Fetched>, last: S)
      requires Valid() && Coherent(lines[..], memory) && Holds(lines[..], pc, cp)
      modifies this, lines
      ensures (fetched, last) == PlainRun(memory, execute, old(pc), s, n) <==>
        && !Strays(memory, execute, old(pc), s, n)
        && (LastLineUsed(old(lines[..])) || !StartsAtEnd(PlainRun(memory, execute, old(pc), s, n).0))
    {
      hide Holds, PlainRun, CachedRun, Strays;
      RunsAgreeExactly(lines[..], memory, execute, pc, cp, s, n);
      fetched, last := Sequence(memory, execute, s, n);
    }
  }

  lemma RunOfNone<S>(cache: seq<Entry>, memory: seq<Word>, execute: Execute<S>, pc: Pc, link: Option<int>, s: S)
    requires |cache| == CACHE && |memory| == MEMORY && (link.Some? ==> 0 <= link.value < CACHE)
    ensures CachedRun(cache, memory, execute, pc, link, s, 0) == ([], s)
  {
  }
}
