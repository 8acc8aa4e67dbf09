/** Fetching through the instruction cache: every run visits the instructions that the memory words dictate. */
module InstructionFetch {
  import opened Wrappers
  import opened TaggedMemory
  import opened Ivory
  import opened InstructionCache

  /** One executed instruction. */
  datatype Fetched = Fetched(pc: Pc, code: Code)

  /** What executing an instruction does: a new machine state, and the PC to branch to unless execution goes on with
      the next one. */
  type Execute<!S> = (S, Fetched) -> (S, Option<Pc>)

  // ---------- The two machines ----------

  /** The machine without a cache: it decodes each word and follows its cdr code, for up to `n` instructions. */
  function PlainRun<S>(memory: seq<Word>, execute: Execute<S>, pc: Pc, s: S, n: nat): (seq<Fetched>, S)
    requires |memory| == MEMORY
    decreases n
  {
    if n == 0 then ([], s)
    else
      var w := memory[pc.address];
      var f := Fetched(pc, Decode(w, pc.odd));
      if f.code == Illegal then ([f], s)
      else
        var (s', jump) := execute(s, f);
        var next := if jump.Some? then jump.value else NextPc(TagCdr(w.tag), pc.address, pc.odd);
        var (fs, last) := PlainRun(memory, execute, next, s', n - 1);
        ([f] + fs, last)
  }

  /** The cache after looking up `pc`: a line is filled when the entry in its place is for another address. */
  function Lookup(cache: seq<Entry>, memory: seq<Word>, pc: Pc): (r: seq<Entry>)
    requires |cache| == CACHE && |memory| == MEMORY
    ensures |r| == CACHE
  {
    if cache[IndexOf(pc)].pc == pc.address then cache
    else
      BlockAligned(pc.address);
      Fill(cache, memory, BlockOf(pc.address))
  }

  /** The machine with the cache. `link` is the entry already known to hold the next instruction, if any. A run that
      would follow a link out of the cache, or execute an entry never filled, ends there. */
  function CachedRun<S>(cache: seq<Entry>, memory: seq<Word>, execute: Execute<S>, pc: Pc, link: Option<int>, s: S,
                        n: nat): (seq<Fetched>, S)
    requires |cache| == CACHE && |memory| == MEMORY
    requires link.Some? ==> 0 <= link.value < CACHE
    decreases n
  {
    if n == 0 then ([], s)
    else
      var after := if link.Some? then cache else Lookup(cache, memory, pc);
      var e := after[if link.Some? then link.value else IndexOf(pc)];
      var f := Fetched(pc, e.code);
      if e.code == Illegal || e.code == Empty then ([f], s)
      else
        var (s', jump) := execute(s, f);
        if jump.None? && e.link.Some? && !(0 <= e.link.value < CACHE) then ([f], s')
        else
          var next := if jump.Some? then jump.value else e.nextPc;
          var (fs, last) := CachedRun(after, memory, execute, next, if jump.Some? then None else e.link, s', n - 1);
          ([f] + fs, last)
  }

  lemma BlockAligned(a: Datum)
    ensures BlockOf(a) % 32 == 0 && BlockOf(a) + 31 < MEMORY && BlockOf(a) <= a < BlockOf(a) + 32
  {
    var q := a / 32;
    assert BlockOf(a) == 32 * q;
  }

  // ---------- Entries that say what memory says ----------

  /** A used entry is where its PC is looked up, and holds what memory says of that PC. */
  predicate Faithful(memory: seq<Word>, i: nat, e: Entry)
    requires |memory| == MEMORY
  {
    var odd := i % 2 == 1;
    if e.code == Empty then e.pc == 0xFFFF_FFFF
    else
      && IndexOf(Pc(e.pc, odd)) == i
      && e.code == Decode(memory[e.pc], odd)
      && (e.code != Illegal ==> e.nextPc == NextPc(TagCdr(memory[e.pc].tag), e.pc, odd))
  }

  ghost predicate Coherent(cache: seq<Entry>, memory: seq<Word>) {
    && |memory| == MEMORY && Whole(cache)
    && forall i | 0 <= i < |cache| :: Faithful(memory, i, cache[i]) && LinkedRight(cache, memory, i)
  }

  /** Lines are filled as a whole: an entry has been used when the first one of its line has. */
  ghost predicate Whole(cache: seq<Entry>) {
    |cache| == CACHE && forall i | 0 <= i < CACHE :: cache[i].code == Empty <==> cache[LineStart(i)].code == Empty
  }

  function LineStart(i: nat): (j: nat)
    ensures j <= i < j + 64
  {
    i - i % 64
  }

  /** Something has been fetched into the line of the last address. */
  predicate LastLineUsed(cache: seq<Entry>)
    requires |cache| == CACHE
  {
    cache[1984].code != Empty
  }

  /** The entry's instruction has sequencing around the end of memory. */
  predicate Wrapping(memory: seq<Word>, i: nat, e: Entry)
    requires |memory| == MEMORY
  {
    WrapsAt(memory[e.pc], e.pc, i % 2 == 1)
  }

  /** A link is right, or leads out of the cache, where the sequencing leads around the end of memory. */
  predicate LinkedRight(cache: seq<Entry>, memory: seq<Word>, i: nat)
    requires i < |cache| && |memory| == MEMORY
  {
    var e := cache[i];
    e.code == Illegal || e.code == Empty ||
    if Wrapping(memory, i, e) then e.link.Some? && !(0 <= e.link.value < |cache|) else Linked(cache, i)
  }

  /** The cache as the emulator initialises it, whatever the entries' other fields hold. */
  lemma {:induction false} InitiallyCoherent(cache: seq<Entry>, memory: seq<Word>)
    requires |memory| == MEMORY && |cache| == CACHE
    requires forall e :: e in cache ==> e.code == Empty && e.pc == 0xFFFF_FFFF
    ensures Coherent(cache, memory)
  {
    hide IndexOf, Decode, NextPc, LineStart;
    forall i: nat | i < |cache| ensures LinkedRight(cache, memory, i) && Faithful(memory, i, cache[i]) {
      assert cache[i] in cache;
    }
  }

  /** The index of each PC of a block. */
  lemma IndexInBlock(block: Datum, n: nat, odd: bool)
    requires block % 32 == 0 && n < 32 && block + n < MEMORY
    ensures IndexOf(Pc(block + n, odd)) == SlotOf(block) + 2 * n + if odd then 1 else 0
    ensures IndexOf(Pc(block + n, odd)) < CACHE && (IndexOf(Pc(block + n, odd)) % 2 == 1) == odd
  {
    SlotIsLine(block);
    var q := block / 32;
    var h, l := q / 32, q % 32;
    assert block == 32 * (32 * h + l);
    LowPart(h, 64 * l + 2 * n);
    assert 2 * (block + n) == 2048 * h + (64 * l + 2 * n);
  }

  lemma LowPart(h: nat, low: nat)
    requires low < 2048
    ensures (2048 * h + low) % 2048 == low
  {
  }

  /** Each entry of a filled line says what memory says. */
  lemma {:induction false} FilledIsFaithful(w: Word, block: Datum, n: nat, odd: bool, before: Entry, memory: seq<Word>)
    requires |memory| == MEMORY && block % 32 == 0 && block + 31 < MEMORY && n < 32 && memory[block + n] == w
    ensures var k := 2 * n + if odd then 1 else 0;
      Faithful(memory, SlotOf(block) + k, Patched(Filled(w, block + n, SlotOf(block) + k, before), k, block))
  {
    hide IndexOf, SlotOf, FirstLink, NextPc, PackedHalf, PackedType;
    IndexInBlock(block, n, odd);
  }

  lemma {:induction false} FillKeepsCoherent(cache: seq<Entry>, memory: seq<Word>, block: Datum)
    requires Coherent(cache, memory) && block % 32 == 0 && block + 31 < MEMORY
    ensures Coherent(Fill(cache, memory, block), memory)
  {
    hide Faithful, LinkedRight, Filled, Patched, Whole;
    CoherentSize(cache, memory);
    SlotIsLine(block);
    FillKeepsWhole(cache, memory, block);
    var slot, after := SlotOf(block), Fill(cache, memory, block);
    forall i: nat | i < CACHE ensures Faithful(memory, i, after[i]) && LinkedRight(after, memory, i) {
      var k := i - slot;
      if 0 <= k < 64 {
        FilledAt(cache, memory, block, k / 2, k % 2 == 1);
        FilledIsFaithful(memory[block + k / 2], block, k / 2, k % 2 == 1, cache[i], memory);
        FilledIsRight(cache, memory, block, k / 2, k % 2 == 1);
      } else {
        assert after[i] == cache[i];
        OtherIsRight(cache, memory, block, i);
      }
    }
  }

  lemma FilledIsRight(cache: seq<Entry>, memory: seq<Word>, block: Datum, n: nat, odd: bool)
    requires |cache| == CACHE && |memory| == MEMORY && block % 32 == 0 && n < 32 && block + 31 < MEMORY
    ensures SlotOf(block) + 64 <= CACHE
    ensures LinkedRight(Fill(cache, memory, block), memory, SlotOf(block) + 2 * n + if odd then 1 else 0)
  {
    hide Fill, Filled, Patched, WrapsAt, Linked, SlotOf;
    SlotIsLine(block);
    FilledAt(cache, memory, block, n, odd);
    var i := SlotOf(block) + 2 * n + if odd then 1 else 0;
    assert (i % 2 == 1) == odd;
    FilledPc(memory[block + n], block, SlotOf(block), n, odd, cache[i]);
    if WrapsAt(memory[block + n], block + n, odd) {
      WrappingStrays(cache, memory, block, n, odd);
    } else {
      FilledIsLinked(cache, memory, block, n, odd);
    }
  }

  lemma OtherIsRight(cache: seq<Entry>, memory: seq<Word>, block: Datum, i: nat)
    requires |cache| == CACHE && |memory| == MEMORY && block % 32 == 0 && block + 31 < MEMORY
    requires i < CACHE && !(SlotOf(block) <= i < SlotOf(block) + 64) && LinkedRight(cache, memory, i)
    ensures LinkedRight(Fill(cache, memory, block), memory, i)
  {
    hide FilledEntry, WrapsAt, Linked;
    assert Fill(cache, memory, block)[i] == cache[i];
    if Linked(cache, i) { FillKeepsLinks(cache, memory, block, i); }
  }

  lemma {:induction false} FillKeepsWhole(cache: seq<Entry>, memory: seq<Word>, block: Datum)
    requires Whole(cache) && |memory| == MEMORY && block % 32 == 0 && block + 31 < MEMORY
    ensures Whole(Fill(cache, memory, block))
    ensures forall i: nat | i < CACHE :: var j := LineStart(i);
      Fill(cache, memory, block)[i].code == Empty <==> cache[i].code == Empty && j != SlotOf(block)
  {
    hide Filled, Patched, SlotOf, FilledEntry;
    SlotIsLine(block);
    var slot, after := SlotOf(block), Fill(cache, memory, block);
    forall i: nat | i < CACHE
      ensures slot == LineStart(i) ==> after[i].code != Empty
      ensures slot == LineStart(i) <==> slot <= i < slot + 64
    {
      LineStarts(slot, i);
      if slot <= i < slot + 64 { FilledIsUsed(memory, block, slot, i - slot, cache[i]); }
    }
    forall i: nat | i < CACHE ensures LineStart(LineStart(i)) == LineStart(i) {
      LineStarts(LineStart(i), i);
    }
  }

  lemma LineStarts(slot: nat, i: nat)
    requires slot % 64 == 0
    ensures slot == LineStart(i) <==> slot <= i < slot + 64
    ensures LineStart(slot) == slot
  {
  }

  lemma FilledIsUsed(memory: seq<Word>, block: Datum, slot: nat, k: nat, before: Entry)
    requires |memory| == MEMORY && block + 31 < MEMORY && k < 64
    ensures FilledEntry(memory, block, slot, k, before).code != Empty
  {
    hide NextPc, FirstLink, PackedHalf, PackedType;
  }

  /** A lookup finds the entry for its PC, as memory has it, except for the last address while its line has not been
      used: unused entries stand for that address. */
  lemma {:induction false} LookupFinds(cache: seq<Entry>, memory: seq<Word>, pc: Pc)
    requires Coherent(cache, memory)
    ensures IndexOf(pc) < CACHE && (IndexOf(pc) % 2 == 1) == pc.odd && |cache| == CACHE
    ensures Coherent(Lookup(cache, memory, pc), memory)
    ensures Lookup(cache, memory, pc)[IndexOf(pc)].pc == pc.address
    ensures Lookup(cache, memory, pc)[IndexOf(pc)].code == Empty <==> pc.address == 0xFFFF_FFFF && !LastLineUsed(cache)
    ensures !InLastLine(pc) ==> LastLineUsed(Lookup(cache, memory, pc)) == LastLineUsed(cache)
  {
    hide Coherent, Fill, Filled, Patched, IndexOf, SlotOf, BlockOf, LineStart;
    assert |cache| == CACHE && |memory| == MEMORY by { CoherentSize(cache, memory); }
    var block := BlockOf(pc.address);
    BlockAligned(pc.address);
    var n := pc.address - block;
    IndexInBlock(block, n, pc.odd);
    var i := IndexOf(pc);
    SlotIsLine(block);
    LineStarts(SlotOf(block), i);
    assert LineStart(1984) == 1984 by { LineStarts(1984, 1984); }
    InLastLineExactly(pc);
    EntryFacts(cache, memory, i);
    if cache[i].pc != pc.address {
      FillKeepsCoherent(cache, memory, block);
      CoherentWhole(cache, memory);
      FillKeepsWhole(cache, memory, block);
      FilledAt(cache, memory, block, n, pc.odd);
      FilledPc(memory[block + n], block, SlotOf(block), n, pc.odd, cache[i]);
    }
  }

  /** The last line of the cache, where the last address is looked up. */
  predicate InLastLine(pc: Pc) { pc.address % 1024 >= 992 }

  lemma InLastLineExactly(pc: Pc)
    ensures InLastLine(pc) <==> SlotOf(BlockOf(pc.address)) == 1984
  {
    var q := pc.address / 32;
    assert BlockOf(pc.address) == 32 * q;
    SlotIsLine(32 * q);
    assert q == 32 * (q / 32) + q % 32;
    assert pc.address % 1024 == 32 * (q % 32) + pc.address % 32;
  }

  lemma EntryFacts(cache: seq<Entry>, memory: seq<Word>, i: nat)
    requires Coherent(cache, memory) && i < |cache|
    ensures |cache| == CACHE
    ensures cache[i].code == Empty <==> cache[LineStart(i)].code == Empty
    ensures cache[i].code == Empty ==> cache[i].pc == 0xFFFF_FFFF
  {
    hide LineStart;
    assert Faithful(memory, i, cache[i]);
  }

  lemma CoherentWhole(cache: seq<Entry>, memory: seq<Word>)
    requires Coherent(cache, memory)
    ensures Whole(cache)
  {
  }

  lemma CoherentSize(cache: seq<Entry>, memory: seq<Word>)
    requires Coherent(cache, memory)
    ensures |cache| == CACHE && |memory| == MEMORY
  {
  }

  // ---------- Runs agree ----------

  /** `link` is absent, or the index of a used entry for `pc`. */
  predicate Holds(cache: seq<Entry>, pc: Pc, link: Option<int>) {
    link.Some? ==>
      && 0 <= link.value < |cache| && cache[link.value].pc == pc.address && (link.value % 2 == 1) == pc.odd
      && cache[link.value].code != Empty
  }

  /** A used entry for a PC executes what memory says, and names the PC that the cdr code says, with a link that holds
      it, unless that is around the end of memory: then the link leads out of the cache. */
  lemma {:induction false} EntryAgrees(cache: seq<Entry>, memory: seq<Word>, i: nat, pc: Pc)
    requires Coherent(cache, memory) && i < |cache| && cache[i].pc == pc.address && (i % 2 == 1) == pc.odd
    requires cache[i].code != Empty
    ensures |memory| == MEMORY && i == IndexOf(pc)
    ensures var e, w := cache[i], memory[pc.address];
      && e.code == Decode(w, pc.odd)
      && (e.code != Illegal ==> e.nextPc == NextPc(TagCdr(w.tag), pc.address, pc.odd))
      && (e.code != Illegal ==>
            if WrapsAt(w, pc.address, pc.odd) then e.link.Some? && !(0 <= e.link.value < |cache|)
            else Holds(cache, e.nextPc, e.link))
  {
    hide Decode, NextPc, IndexOf, LineStart, WrapsAt;
    assert LinkedRight(cache, memory, i) && Faithful(memory, i, cache[i]);
    var e := cache[i];
    if e.code != Illegal && e.link.Some? && !WrapsAt(memory[pc.address], pc.address, pc.odd) {
      SameLineStart(i, e.link.value);
      EntryFacts(cache, memory, i);
      EntryFacts(cache, memory, e.link.value);
    }
  }

  lemma SameLineStart(i: nat, j: nat)
    requires i / 64 == j / 64
    ensures LineStart(i) == LineStart(j)
  {
  }

  /** The first instruction of a run that is looked up in the last line is the one at the last address. */
  predicate StartsAtEnd(run: seq<Fetched>) {
    run != [] && if InLastLine(run[0].pc) then run[0].pc.address == 0xFFFF_FFFF else StartsAtEnd(run[1..])
  }

  /** A run goes on, without a jump, after an instruction whose sequencing leads around the end of memory. */
  predicate Strays<S>(memory: seq<Word>, execute: Execute<S>, pc: Pc, s: S, n: nat)
    requires |memory| == MEMORY
    decreases n
  {
    var w := memory[pc.address];
    var f := Fetched(pc, Decode(w, pc.odd));
    n > 1 && f.code != Illegal &&
    var (s', jump) := execute(s, f);
    var next := if jump.Some? then jump.value else NextPc(TagCdr(w.tag), pc.address, pc.odd);
    (jump.None? && WrapsAt(w, pc.address, pc.odd)) || Strays(memory, execute, next, s', n - 1)
  }

  /** From any coherent cache, however it came about, a run through the cache executes the instructions, at the PCs and
      to the machine state, of the run without: if and only if the run does not go on around the end of memory, and its
      first instruction from the last line is not the one at the last address, or that line has been used before. */
  lemma {:induction false} RunsAgreeExactly<S>(cache: seq<Entry>, memory: seq<Word>, execute: Execute<S>, pc: Pc,
                                               link: Option<int>, s: S, n: nat)
    requires Coherent(cache, memory) && Holds(cache, pc, link)
    ensures |cache| == CACHE && |memory| == MEMORY
    ensures CachedRun(cache, memory, execute, pc, link, s, n) == PlainRun(memory, execute, pc, s, n) <==>
      && !Strays(memory, execute, pc, s, n)
      && (LastLineUsed(cache) || !StartsAtEnd(PlainRun(memory, execute, pc, s, n).0))
    decreases n
  {
    hide Coherent, Decode, NextPc, Lookup, IndexOf, LastLineUsed, InLastLine, WrapsAt;
    CoherentSize(cache, memory);
    if n > 0 {
      DecodeUsed(memory[pc.address], pc.odd);
      var f := Fetched(pc, Decode(memory[pc.address], pc.odd));
      assert PlainRun(memory, execute, pc, s, n).0[0] == f;
      var after, i := Arrive(cache, memory, pc, link);
      if after[i].code == Empty {
        assert CachedRun(cache, memory, execute, pc, link, s, n).0[0].code == Empty;
      } else {
        EntryAgrees(after, memory, i, pc);
        if f.code != Illegal {
          GoesOn(cache, after, memory, execute, pc, link, s, n, i, f);
        } else {
          assert [f][1..] == [];
        }
      }
    }
  }

  /** The rest of a run after its first instruction. */
  lemma {:induction false} GoesOn<S>(cache: seq<Entry>, after: seq<Entry>, memory: seq<Word>, execute: Execute<S>,
                                     pc: Pc, link: Option<int>, s: S, n: nat, i: nat, f: Fetched)
    requires n > 0 && |cache| == |after| == CACHE && Coherent(after, memory) && |memory| == MEMORY && i < CACHE
    requires link.Some? ==> 0 <= link.value < CACHE
    requires after == (if link.Some? then cache else Lookup(cache, memory, pc))
    requires i == (if link.Some? then link.value else IndexOf(pc))
    requires after[i].pc == pc.address && (i % 2 == 1) == pc.odd && after[i].code == f.code != Empty
    requires f == Fetched(pc, Decode(memory[pc.address], pc.odd)) && f.code != Illegal
    requires if InLastLine(pc) then LastLineUsed(after) && (pc.address == 0xFFFF_FFFF ==> LastLineUsed(cache))
      else LastLineUsed(after) == LastLineUsed(cache)
    ensures CachedRun(cache, memory, execute, pc, link, s, n) == PlainRun(memory, execute, pc, s, n) <==>
      && !Strays(memory, execute, pc, s, n)
      && (LastLineUsed(cache) || !StartsAtEnd(PlainRun(memory, execute, pc, s, n).0))
    decreases n, 0
  {
    hide Coherent, Decode, NextPc, Lookup, IndexOf, LastLineUsed, InLastLine, WrapsAt;
    EntryAgrees(after, memory, i, pc);
    var (s', jump) := execute(s, f);
    var e := after[i];
    var next, link' := if jump.Some? then jump.value else e.nextPc, if jump.Some? then None else e.link;
    var rest := PlainRun(memory, execute, next, s', n - 1);
    assert PlainRun(memory, execute, pc, s, n) == ([f] + rest.0, rest.1);
    Cancel(f, [], rest.0);
    if jump.None? && WrapsAt(memory[pc.address], pc.address, pc.odd) {
      assert CachedRun(cache, memory, execute, pc, link, s, n) == ([f], s');
      assert [f] + [] == [f];
      if n > 1 { assert rest.0 != []; } else { assert rest == ([], s'); }
    } else {
      RunsAgreeExactly(after, memory, execute, next, link', s', n - 1);
      var run := CachedRun(after, memory, execute, next, link', s', n - 1);
      assert CachedRun(cache, memory, execute, pc, link, s, n) == ([f] + run.0, run.1);
      Cancel(f, run.0, rest.0);
      if n == 1 { assert rest == ([], s') == run; }
    }
  }

  /** The entry executed next, whether by a link or a lookup. */
  lemma Arrive(cache: seq<Entry>, memory: seq<Word>, pc: Pc, link: Option<int>) returns (after: seq<Entry>, i: nat)
    requires Coherent(cache, memory) && Holds(cache, pc, link)
    ensures |cache| == |after| == CACHE && |memory| == MEMORY
    ensures after == (if link.Some? then cache else Lookup(cache, memory, pc)) && i < CACHE
    ensures i == if link.Some? then link.value else IndexOf(pc)
    ensures Coherent(after, memory) && after[i].pc == pc.address && (i % 2 == 1) == pc.odd
    ensures if InLastLine(pc) then
        (after[i].code != Empty ==> LastLineUsed(after)) &&
        (after[i].code == Empty <==> pc.address == 0xFFFF_FFFF && !LastLineUsed(cache))
      else after[i].code != Empty && LastLineUsed(after) == LastLineUsed(cache)
  {
    hide Coherent, Lookup, IndexOf, LineStart, SlotOf, BlockOf;
    CoherentSize(cache, memory);
    after, i := cache, if link.Some? then link.value else IndexOf(pc);
    LookupFinds(cache, memory, pc);
    if link.None? {
      after := Lookup(cache, memory, pc);
    } else {
      EntryAgrees(cache, memory, i, pc);
    }
    EntryFacts(after, memory, i);
    if InLastLine(pc) { LastLineStart(pc); }
  }

  lemma LastLineStart(pc: Pc)
    requires InLastLine(pc)
    ensures LineStart(IndexOf(pc)) == 1984
  {
    var block := BlockOf(pc.address);
    BlockAligned(pc.address);
    IndexInBlock(block, pc.address - block, pc.odd);
    InLastLineExactly(pc);
    LineStarts(1984, IndexOf(pc));
  }

  lemma DecodeUsed(w: Word, odd: bool)
    ensures Decode(w, odd) != Empty
  {
    hide PackedHalf, PackedType;
  }

  lemma Cancel(f: Fetched, run: seq<Fetched>, other: seq<Fetched>)
    ensures [f] + run == [f] + other <==> run == other
    ensures ([f] + other)[1..] == other
  {
    assert ([f] + run)[1..] == run && ([f] + other)[1..] == other;
  }
}
