/** The instruction cache: lines of pre-linked entries that have to follow the cdr codes of the instruction words. */
module InstructionCache {
  import opened Wrappers
  import opened TaggedMemory
  import opened Ivory

  /** A program counter: an instruction word, and which of its two instructions. */
  datatype Pc = Pc(address: Datum, odd: bool)

  /** What an entry executes: half of a packed word, a whole word, nothing legal, or nothing fetched yet. */
  datatype Code = Packed(instruction: nat) | FullWord(type_: nat, operand: Datum) | Illegal | Empty

  /** A cache entry. Its link is the index of the entry for `nextPc`, or `None` to look that up. */
  datatype Entry = Entry(pc: Datum, nextPc: Pc, link: Option<int>, code: Code)

  const CACHE := 2048
  const LINE := 64

  // ---------- What the instruction words say ----------

  function Wrap(x: int): Datum { x % 0x1_0000_0000 }

  /** The sequencing that a word's cdr code asks for; code 1 asks for none. */
  function NextPc(cdr: nat, vma: Datum, odd: bool): Pc {
    if cdr == 0 then (if odd then Pc(Wrap(vma + 1), false) else Pc(vma, true))
    else if cdr == 3 then (if odd then Pc(Wrap(vma + 2), false) else Pc(Wrap(vma + 1), false))
    else (if odd then Pc(vma, false) else Pc(Wrap(vma - 1), true))
  }

  /** Types 060 to 077 are packed instructions. */
  predicate PackedType(tag: Tag) { (tag / 16) % 4 == 3 }

  /** The two 18-bit instructions of a packed word: the low 18 data bits, and the other 14 below four tag bits. */
  function PackedHalf(w: Word, odd: bool): nat {
    if odd then w.tag % 16 * 0x4000 + w.datum / 0x4_0000 else w.datum % 0x4_0000
  }

  function Decode(w: Word, odd: bool): Code {
    if TagCdr(w.tag) == 1 then Illegal
    else if TagCdr(w.tag) == 0 || PackedType(w.tag) then Packed(PackedHalf(w, odd))
    else if odd then Illegal
    else FullWord(TagType(w.tag), w.datum)
  }

  /** A packed word's instructions are its 36 instruction bits, the even one the low half and the odd one the high
      half. */
  lemma PackedHalvesAreWord(w: Word)
    ensures PackedHalf(w, true) * 0x4_0000 + PackedHalf(w, false) == w.tag % 16 * 0x1_0000_0000 + w.datum
    ensures PackedHalf(w, true) < 0x4_0000 && PackedHalf(w, false) < 0x4_0000
  {
  }

  /** What a PC of a word is to execute, by the word's cdr code and type: code 1 is illegal; code 0 and, under the other
      codes, types 48 to 63 are packed, whose instructions are the halves of the 36 bits; of other words the even PC
      executes the whole word, and the odd one nothing legal. */
  predicate Executes(w: Word, odd: bool, code: Code) {
    var cdr, type_, bits := w.tag / 64, w.tag % 64, w.tag % 16 * 0x1_0000_0000 + w.datum;
    code ==
      if cdr == 1 then Illegal
      else if cdr == 0 || type_ >= 48 then Packed(if odd then bits / 0x4_0000 else bits % 0x4_0000)
      else if odd then Illegal
      else FullWord(type_, w.datum)
  }

  lemma DecodeExactly(w: Word, odd: bool)
    ensures Executes(w, odd, Decode(w, odd))
  {
    hide PackedHalf;
    PackedHalvesAreWord(w);
    HalfWords(PackedHalf(w, true), PackedHalf(w, false));
  }

  lemma HalfWords(high: nat, low: nat)
    requires low < 0x4_0000
    ensures (high * 0x4_0000 + low) / 0x4_0000 == high && (high * 0x4_0000 + low) % 0x4_0000 == low
  {
  }

  /** A PC as a number of half words. */
  function HalfWord(pc: Pc): nat { 2 * pc.address + if pc.odd then 1 else 0 }

  /** The sequencing that cdr codes ask for, in half words around the end of memory: code 0 goes one on, code 2 one
      back, and code 3 to the even half of the next word, or from an odd half of the one after. */
  lemma NextPcExactly(cdr: nat, vma: Datum, odd: bool)
    requires cdr == 0 || cdr == 2 || cdr == 3
    ensures HalfWord(NextPc(cdr, vma, odd)) ==
      (HalfWord(Pc(vma, odd)) + if cdr == 0 then 1 else if cdr == 2 then -1 else if odd then 3 else 2) % 0x2_0000_0000
  {
  }

  // ---------- Filling a line ----------

  /** The link that the fill first gives to entry `i` of the cache. */
  function FirstLink(cdr: nat, i: nat, odd: bool): Option<int> {
    if cdr == 0 then Some(i + 1)
    else if cdr == 3 then (if odd then Some(i + 3) else Some(i + 2))
    else if odd then None
    else Some(i - 1)
  }

  /** Entry `i` after the fill's main loop, for the word at `vma`. An illegal word leaves the old sequencing. */
  function Filled(w: Word, vma: Datum, i: nat, before: Entry): Entry {
    var odd, cdr := i % 2 == 1, TagCdr(w.tag);
    if cdr == 1 then before.(pc := vma, code := Illegal)
    else Entry(vma, NextPc(cdr, vma, odd), FirstLink(cdr, i, odd), Decode(w, odd))
  }

  /** The fill's second look at the first and the last four entries of a line, whose links may leave it. */
  function Patched(e: Entry, k: nat, block: Datum): Entry {
    if (k == 0 && e.nextPc.address < block) || (k >= 60 && e.nextPc.address >= block + 32) then e.(link := None) else e
  }

  function BlockOf(a: Datum): Datum { a - a % 32 }

  function SlotOf(block: Datum): nat { (2 * block) % 2048 }

  /** Where the entry for a PC is. */
  function IndexOf(pc: Pc): nat { (2 * pc.address) % 2048 + if pc.odd then 1 else 0 }

  function FilledEntry(memory: seq<Word>, block: Datum, slot: nat, k: nat, before: Entry): Entry
    requires |memory| == MEMORY && block + 31 < MEMORY && k < 64
  {
    Patched(Filled(memory[block + k / 2], block + k / 2, slot + k, before), k, block)
  }

  /** The cache after a miss on an address in `block`. */
  function Fill(cache: seq<Entry>, memory: seq<Word>, block: Datum): (r: seq<Entry>)
    requires |cache| == CACHE && |memory| == MEMORY && block % 32 == 0
    ensures |r| == CACHE
  {
    var slot := SlotOf(block);
    seq(CACHE, i requires 0 <= i < CACHE =>
      if slot <= i < slot + 64 then FilledEntry(memory, block, slot, i - slot, cache[i]) else cache[i])
  }

  // ---------- Links ----------

  /** An entry's link is absent, or leads within the entry's own line to the entry for its next PC. */
  predicate Linked(cache: seq<Entry>, i: nat)
    requires i < |cache|
  {
    var e := cache[i];
    e.code == Illegal || e.code == Empty || e.link.None? ||
    (0 <= e.link.value < |cache| && e.link.value / 64 == i / 64 &&
     cache[e.link.value].pc == e.nextPc.address && (e.link.value % 2 == 1) == e.nextPc.odd)
  }

  /** The words at the two ends of the address space whose sequencing wraps around: there the second look misses a
      link that leaves the line. */
  predicate Wraps(memory: seq<Word>, block: Datum)
    requires |memory| == MEMORY && block + 31 < MEMORY
  {
    || (block == 0 && TagCdr(memory[0].tag) == 2)
    || (block == 0xFFFF_FFE0 &&
        (TagCdr(memory[0xFFFF_FFFF].tag) == 0 || TagCdr(memory[0xFFFF_FFFF].tag) == 3 ||
         (TagCdr(memory[0xFFFF_FFFE].tag) == 3 && PackedType(memory[0xFFFF_FFFE].tag))))
  }

  /** The sequencing of the word at an address, from one of its instructions, leads around the end of memory. */
  predicate WrapsAt(w: Word, address: Datum, odd: bool) {
    || (address == 0 && !odd && TagCdr(w.tag) == 2)
    || (address == 0xFFFF_FFFF && (TagCdr(w.tag) == 3 || (TagCdr(w.tag) == 0 && odd)))
    || (address == 0xFFFF_FFFE && TagCdr(w.tag) == 3 && odd)
  }

  lemma SlotIsLine(block: Datum)
    requires block % 32 == 0
    ensures SlotOf(block) == 64 * (block / 32 % 32) && block + 31 < MEMORY
  {
    var q := block / 32;
    assert block == 32 * q;
    assert q == 32 * (q / 32) + q % 32;
    assert 2 * block == 2048 * (q / 32) + 64 * (q % 32);
  }

  /** The link of a filled entry that executes something, unless absent, leads to some entry of the line, the one for
      its next PC. */
  lemma {:induction false} LinkStaysInLine(w: Word, block: Datum, slot: nat, n: nat, odd: bool, before: Entry)
    returns (n': nat, odd': bool)
    requires n < 32 && block + 31 < MEMORY && slot % 2 == 0
    requires !WrapsAt(w, block + n, odd)
    requires block < 0xFFFF_FFE0 ==> block + 63 < MEMORY
    ensures var k := 2 * n + if odd then 1 else 0;
      var e := Patched(Filled(w, block + n, slot + k, before), k, block);
      e.code != Illegal && e.link.Some? ==>
        n' < 32 && e.link.value == slot + 2 * n' + (if odd' then 1 else 0) && e.nextPc == Pc(block + n', odd')
  {
    hide PackedHalf, PackedType, Wrap;
    var cdr, i := TagCdr(w.tag), slot + 2 * n + if odd then 1 else 0;
    assert (i % 2 == 1) == odd;
    WrapStays(block + n);
    n', odd' := n, odd;
    if cdr == 0 {
      if odd { n', odd' := n + 1, false; } else { odd' := true; }
    } else if cdr == 3 {
      n', odd' := if odd then n + 2 else n + 1, false;
    } else if cdr == 2 && !odd && n > 0 {
      n', odd' := n - 1, true;
    }
  }

  /** And it is absent only where the next PC is in another line, or where code 2 goes back within a word. */
  lemma {:induction false} LinkedInLineExactly(w: Word, block: Datum, slot: nat, n: nat, odd: bool, before: Entry)
    requires n < 32 && block + 31 < MEMORY && slot % 2 == 0 && w.tag / 64 != 1
    requires !WrapsAt(w, block + n, odd)
    requires block < 0xFFFF_FFE0 ==> block + 63 < MEMORY
    ensures var k := 2 * n + if odd then 1 else 0;
      var e := Patched(Filled(w, block + n, slot + k, before), k, block);
      e.link.Some? <==> block <= e.nextPc.address < block + 32 && !(w.tag / 64 == 2 && odd)
  {
    hide Decode, Wrap;
    var i := slot + 2 * n + if odd then 1 else 0;
    assert (i % 2 == 1) == odd;
    WrapStays(block + n);
  }

  lemma WrapStays(a: Datum)
    ensures a + 1 < MEMORY ==> Wrap(a + 1) == a + 1
    ensures a + 2 < MEMORY ==> Wrap(a + 2) == a + 2
    ensures a > 0 ==> Wrap(a - 1) == a - 1
  {
  }

  /** Which word an entry of the filled line holds. */
  lemma {:induction false} FilledAt(cache: seq<Entry>, memory: seq<Word>, block: Datum, n: nat, odd: bool)
    requires |cache| == CACHE && |memory| == MEMORY && block % 32 == 0 && n < 32
    ensures block + 31 < MEMORY && SlotOf(block) % 64 == 0 && SlotOf(block) + 64 <= CACHE
    ensures var k := 2 * n + if odd then 1 else 0;
      var i := SlotOf(block) + k;
      Fill(cache, memory, block)[i] == Patched(Filled(memory[block + n], block + n, i, cache[i]), k, block)
  {
    hide Patched, Filled;
    SlotIsLine(block);
    var k := 2 * n + if odd then 1 else 0;
    assert k / 2 == n;
  }

  lemma SameLine(slot: nat, k: nat)
    requires slot % 64 == 0 && k < 64
    ensures (slot + k) / 64 == slot / 64 && (slot + k) % 2 == k % 2
  {
    var q := slot / 64;
    assert slot + k == 64 * q + k;
  }

  /** One entry of a freshly filled line, for all words and all positions. */
  lemma {:induction false} FilledIsLinked(cache: seq<Entry>, memory: seq<Word>, block: Datum, n: nat, odd: bool)
    requires |cache| == CACHE && |memory| == MEMORY && block % 32 == 0 && n < 32
    requires block + 31 < MEMORY && !WrapsAt(memory[block + n], block + n, odd)
    ensures SlotOf(block) + 64 <= CACHE
    ensures Linked(Fill(cache, memory, block), SlotOf(block) + 2 * n + if odd then 1 else 0)
  {
    hide Fill, Filled, NextPc, FirstLink, Decode, SlotOf, WrapsAt;
    FilledAt(cache, memory, block, n, odd);
    var slot, after := SlotOf(block), Fill(cache, memory, block);
    var k := 2 * n + if odd then 1 else 0;
    assert block < 0xFFFF_FFE0 ==> block + 63 < MEMORY by { var q := block / 32; assert block == 32 * q; }
    var n', odd' := LinkStaysInLine(memory[block + n], block, slot, n, odd, cache[slot + k]);
    var e := after[slot + k];
    if e.code != Illegal && e.link.Some? {
      var j := 2 * n' + if odd' then 1 else 0;
      FilledAt(cache, memory, block, n', odd');
      FilledPc(memory[block + n'], block, slot, n', odd', cache[slot + j]);
      SameLine(slot, k);
      SameLine(slot, j);
      assert j % 2 == if odd' then 1 else 0;
    }
  }

  lemma FilledPc(w: Word, block: Datum, slot: nat, n: nat, odd: bool, before: Entry)
    requires block + 31 < MEMORY && n < 32
    ensures var k := 2 * n + if odd then 1 else 0;
      Patched(Filled(w, block + n, slot + k, before), k, block).pc == block + n
  {
    hide NextPc, FirstLink, Decode;
  }

  /** The link that the fill gives to a wrapping entry, which the second look does not see, leads out of the cache. */
  lemma {:induction false} WrappingStrays(cache: seq<Entry>, memory: seq<Word>, block: Datum, n: nat, odd: bool)
    requires |cache| == CACHE && |memory| == MEMORY && block % 32 == 0 && n < 32
    requires block + 31 < MEMORY && WrapsAt(memory[block + n], block + n, odd)
    ensures SlotOf(block) + 64 <= CACHE
    ensures var e := Fill(cache, memory, block)[SlotOf(block) + 2 * n + if odd then 1 else 0];
      e.code != Illegal ==> e.link.Some? && !(0 <= e.link.value < CACHE)
  {
    hide Fill, Decode;
    FilledAt(cache, memory, block, n, odd);
    assert block == 0 || block == 0xFFFF_FFE0 by { var q := block / 32; assert block == 32 * q; }
  }

  /** What a filled line's wrapping words get wrong. */
  lemma {:induction false} WrappingIsUnlinked(cache: seq<Entry>, memory: seq<Word>, block: Datum) returns (k: nat)
    requires |cache| == CACHE && |memory| == MEMORY && block % 32 == 0
    requires block + 31 < MEMORY && Wraps(memory, block)
    ensures k < 64 && SlotOf(block) + k < CACHE && !Linked(Fill(cache, memory, block), SlotOf(block) + k)
  {
    hide Fill, Decode, SlotOf, Filled, Patched;
    var n, odd := 0, false;
    if block > 0 {
      n, odd := 31, TagCdr(memory[0xFFFF_FFFF].tag) == 0;
      if TagCdr(memory[0xFFFF_FFFF].tag) != 0 && TagCdr(memory[0xFFFF_FFFF].tag) != 3 { n, odd := 30, true; }
    }
    k := 2 * n + if odd then 1 else 0;
    WrappingStrays(cache, memory, block, n, odd);
    FilledAt(cache, memory, block, n, odd);
    DecodeLegal(memory[block + n]);
    FilledCode(memory[block + n], block, SlotOf(block), n, odd, cache[SlotOf(block) + k]);
  }

  lemma FilledCode(w: Word, block: Datum, slot: nat, n: nat, odd: bool, before: Entry)
    requires block + 31 < MEMORY && n < 32 && slot % 2 == 0
    ensures var k := 2 * n + if odd then 1 else 0;
      Patched(Filled(w, block + n, slot + k, before), k, block).code == Decode(w, odd)
  {
    hide NextPc, FirstLink, PackedHalf, PackedType;
  }

  lemma DecodeLegal(w: Word)
    ensures TagCdr(w.tag) != 1 ==> Decode(w, false) != Illegal && Decode(w, false) != Empty
    ensures TagCdr(w.tag) == 0 || (TagCdr(w.tag) == 3 && PackedType(w.tag)) ==>
      Decode(w, true) != Illegal && Decode(w, true) != Empty
  {
    hide PackedHalf, PackedType;
  }

  /** In a block that does not wrap, a wrapping word has no such instruction. */
  lemma {:induction false} WrapsOnly(cache: seq<Entry>, memory: seq<Word>, block: Datum, n: nat, odd: bool)
    requires |cache| == CACHE && |memory| == MEMORY && block % 32 == 0 && n < 32 && block + 31 < MEMORY
    requires WrapsAt(memory[block + n], block + n, odd) && !Wraps(memory, block)
    ensures SlotOf(block) + 64 <= CACHE
    ensures Linked(Fill(cache, memory, block), SlotOf(block) + 2 * n + if odd then 1 else 0)
  {
    hide Fill, SlotOf, Filled, Patched;
    assert block == 0 || block == 0xFFFF_FFE0 by { var q := block / 32; assert block == 32 * q; }
    FilledAt(cache, memory, block, n, odd);
    FilledCode(memory[block + n], block, SlotOf(block), n, odd, cache[SlotOf(block) + 2 * n + if odd then 1 else 0]);
  }

  /** A fill links its whole line correctly exactly when the line's words do not wrap around the address space. */
  lemma {:induction false} FillLinksExactly(cache: seq<Entry>, memory: seq<Word>, block: Datum)
    requires |cache| == CACHE && |memory| == MEMORY && block % 32 == 0
    ensures block + 31 < MEMORY && SlotOf(block) + 64 <= CACHE
    ensures (forall i | SlotOf(block) <= i < SlotOf(block) + 64 :: Linked(Fill(cache, memory, block), i)) <==>
      !Wraps(memory, block)
  {
    hide Fill, Linked, Wraps, WrapsAt, SlotOf;
    SlotIsLine(block);
    var slot := SlotOf(block);
    if Wraps(memory, block) {
      var k := WrappingIsUnlinked(cache, memory, block);
      assert slot <= slot + k < slot + 64;
    } else {
      forall i | slot <= i < slot + 64 ensures Linked(Fill(cache, memory, block), i) {
        var k := i - slot;
        if WrapsAt(memory[block + k / 2], block + k / 2, k % 2 == 1) {
          WrapsOnly(cache, memory, block, k / 2, k % 2 == 1);
        } else {
          FilledIsLinked(cache, memory, block, k / 2, k % 2 == 1);
        }
      }
    }
  }

  /** Filling a line leaves the links of all other lines correct too: none leads out of its line. */
  lemma {:induction false} FillKeepsLinks(cache: seq<Entry>, memory: seq<Word>, block: Datum, i: nat)
    requires |cache| == CACHE && |memory| == MEMORY && block % 32 == 0 && block + 31 < MEMORY
    requires i < CACHE && !(SlotOf(block) <= i < SlotOf(block) + 64) && Linked(cache, i)
    ensures Linked(Fill(cache, memory, block), i)
  {
    hide FilledEntry;
    SlotIsLine(block);
    var slot, after, e := SlotOf(block), Fill(cache, memory, block), cache[i];
    assert after[i] == cache[i];
    if e.link.Some? && 0 <= e.link.value < CACHE && e.link.value / 64 == i / 64 {
      OutOfLine(slot, i, e.link.value);
      assert after[e.link.value] == cache[e.link.value];
    }
  }

  lemma OutOfLine(slot: nat, i: nat, j: nat)
    requires slot % 64 == 0 && i / 64 == j / 64 && !(slot <= i < slot + 64)
    ensures !(slot <= j < slot + 64)
  {
    var q := slot / 64;
    assert slot == 64 * q;
  }

  /** What a miss leaves for each PC of its block: the entry is for that PC, executes what the word's cdr code and type
      say, and names the PC that the cdr code asks for, or under code 1, which asks for none, the one it named
      before. */
  lemma {:induction false} FillExecutes(cache: seq<Entry>, memory: seq<Word>, block: Datum, n: nat, odd: bool)
    requires |cache| == CACHE && |memory| == MEMORY && block % 32 == 0 && n < 32
    ensures block + 31 < MEMORY && SlotOf(block) + 64 <= CACHE
    ensures var w, e := memory[block + n], Fill(cache, memory, block)[SlotOf(block) + 2 * n + if odd then 1 else 0];
      var cdr := w.tag / 64;
      && e.pc == block + n && Executes(w, odd, e.code)
      && (cdr == 1 ==> e.nextPc == cache[SlotOf(block) + 2 * n + if odd then 1 else 0].nextPc)
      && (cdr != 1 ==>
            HalfWord(e.nextPc) ==
            (2 * (block + n) + (if odd then 1 else 0) +
             (if cdr == 0 then 1 else if cdr == 2 then -1 else if odd then 3 else 2)) % 0x2_0000_0000)
  {
    hide Fill, Decode, NextPc, FirstLink, SlotOf, HalfWord, Executes;
    FilledAt(cache, memory, block, n, odd);
    var w := memory[block + n];
    DecodeExactly(w, odd);
    FilledEntryIs(w, block, SlotOf(block), n, odd, cache[SlotOf(block) + 2 * n + if odd then 1 else 0]);
    if w.tag / 64 != 1 {
      NextPcExactly(w.tag / 64, block + n, odd);
      assert HalfWord(Pc(block + n, odd)) == 2 * (block + n) + if odd then 1 else 0 by { HalfWordOf(block + n, odd); }
    }
  }

  lemma HalfWordOf(a: Datum, odd: bool)
    ensures HalfWord(Pc(a, odd)) == 2 * a + if odd then 1 else 0
  {
  }

  lemma FilledEntryIs(w: Word, block: Datum, slot: nat, n: nat, odd: bool, before: Entry)
    requires block + 31 < MEMORY && n < 32 && slot % 2 == 0
    ensures var k := 2 * n + if odd then 1 else 0;
      var e := Patched(Filled(w, block + n, slot + k, before), k, block);
      && e.pc == block + n && e.code == Decode(w, odd)
      && e.nextPc == if TagCdr(w.tag) == 1 then before.nextPc else NextPc(TagCdr(w.tag), block + n, odd)
  {
    FilledCode(w, block, slot, n, odd, before);
    hide NextPc, FirstLink, Decode;
  }
}
