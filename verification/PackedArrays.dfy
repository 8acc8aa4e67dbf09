/** Arrays whose elements are packed several to a word. */
module PackedArrays {
  import opened Wrappers
  import opened Arithmetic
  import opened TaggedMemory
  import opened Ivory

  const TYPE_CHARACTER := 35

  /** Packing 1 to 5: two to the packing elements in a word, of 32 bits shifted right by the packing. */
  type Packing = p: nat | 1 <= p <= 5 witness 1

  function PerWord(p: Packing): nat {
    if p == 1 then 2 else if p == 2 then 4 else if p == 3 then 8 else if p == 4 then 16 else 32
  }

  /** How many values an element can take. */
  function Radix(p: Packing): nat {
    if p == 1 then 0x1_0000 else if p == 2 then 0x100 else if p == 3 then 16 else if p == 4 then 4 else 2
  }

  /** The word that holds element `i`, counted from the first. */
  function WordOf(p: Packing, i: nat): nat {
    if p == 1 then i / 2 else if p == 2 then i / 4 else if p == 3 then i / 8 else if p == 4 then i / 16 else i / 32
  }

  /** Where in its word element `i` is. */
  function SlotOf(p: Packing, i: nat): (k: nat)
    ensures k < PerWord(p)
  {
    if p == 1 then i % 2 else if p == 2 then i % 4 else if p == 3 then i % 8 else if p == 4 then i % 16 else i % 32
  }

  lemma SamePlace(p: Packing, i: nat, j: nat)
    ensures WordOf(p, i) == WordOf(p, j) && SlotOf(p, i) == SlotOf(p, j) ==> i == j
  {
  }

  // ---------- Fields of a word ----------

  function Power(r: nat, n: nat): nat { if n == 0 then 1 else r * Power(r, n - 1) }

  function Quotient(w: nat, r: nat): (q: nat)
    requires r > 0
  {
    Divides(w, r);
    w / r
  }

  function Rest(w: nat, r: nat): (m: nat)
    requires r > 0
  {
    Divides(w, r);
    w % r
  }

  lemma Divides(w: nat, r: nat)
    requires r > 0
    ensures w / r >= 0 && 0 <= w % r < r
  {
    var q, m := DivMod(w, r);
  }

  /** Load byte: shift `k` fields out, and mask. */
  function Field(w: nat, r: nat, k: nat): nat
    requires r > 0
    decreases k
  {
    if k == 0 then Rest(w, r) else Field(Quotient(w, r), r, k - 1)
  }

  /** Deposit byte: replace field `k`. */
  function Deposit(w: nat, r: nat, k: nat, e: nat): nat
    requires r > 0
    decreases k
  {
    if k == 0 then Plus(e, r, Quotient(w, r)) else Plus(Rest(w, r), r, Deposit(Quotient(w, r), r, k - 1, e))
  }

  function Plus(low: nat, r: nat, high: nat): nat { low + r * high }

  lemma RestIsLess(w: nat, r: nat)
    requires r > 0
    ensures Rest(w, r) < r && w == Plus(Rest(w, r), r, Quotient(w, r))
  {
    var q, m := DivMod(w, r);
  }

  lemma PlusReads(low: nat, r: nat, high: nat)
    requires low < r
    ensures Rest(Plus(low, r, high), r) == low && Quotient(Plus(low, r, high), r) == high
  {
    QuotientAndRest(low, r, high);
  }

  /** A field read back is the one deposited; every other field is as before. */
  lemma {:induction false} DepositReads(w: nat, r: nat, k: nat, e: nat, j: nat)
    requires e < r
    ensures Field(Deposit(w, r, k, e), r, j) == if j == k then e else Field(w, r, j)
    decreases k
  {
    hide Rest, Quotient, Plus;
    if k == 0 {
      PlusReads(e, r, Quotient(w, r));
    } else {
      RestIsLess(w, r);
      PlusReads(Rest(w, r), r, Deposit(Quotient(w, r), r, k - 1, e));
      if j > 0 { DepositReads(Quotient(w, r), r, k - 1, e, j - 1); }
    }
  }

  lemma QuotientBound(w: nat, r: nat, p: nat)
    requires r > 0 && w < r * p
    ensures Quotient(w, r) < p
  {
    var q, m := DivMod(w, r);
    if q >= p { MulMono(r, p, q); }
  }

  lemma PlusBound(low: nat, r: nat, high: nat, p: nat)
    requires low < r && high < p
    ensures Plus(low, r, high) < r * p
  {
    ComposeStep(low, r, high, p);
  }

  /** A deposit stays within the word. */
  lemma {:induction false} DepositBound(w: nat, r: nat, k: nat, e: nat, n: nat)
    requires e < r && k < n && w < Power(r, n)
    ensures Deposit(w, r, k, e) < Power(r, n)
    decreases n
  {
    hide Rest, Quotient, Plus;
    QuotientBound(w, r, Power(r, n - 1));
    RestIsLess(w, r);
    if k == 0 {
      PlusBound(e, r, Quotient(w, r), Power(r, n - 1));
    } else {
      DepositBound(Quotient(w, r), r, k - 1, e, n - 1);
      PlusBound(Rest(w, r), r, Deposit(Quotient(w, r), r, k - 1, e), Power(r, n - 1));
    }
  }

  lemma PowerPositive(r: nat, n: nat)
    requires r > 0
    ensures Power(r, n) > 0
  {
    if n > 0 { PowerPositive(r, n - 1); MulMono(r, 1, Power(r, n - 1)); }
  }

  /** The fields as shifts and masks: field `k` is the word shifted right by `k` fields, masked. */
  lemma {:induction false} FieldIsShift(w: nat, r: nat, k: nat)
    requires r > 0
    ensures Power(r, k) > 0 && Field(w, r, k) == Rest(Quotient(w, Power(r, k)), r)
    decreases k
  {
    hide Rest;
    PowerPositive(r, k);
    if k == 0 {
      QuotientOne(w);
    } else {
      PowerPositive(r, k - 1);
      FieldIsShift(Quotient(w, r), r, k - 1);
      QuotientTwice(w, r, Power(r, k - 1));
    }
  }

  lemma QuotientOne(w: nat)
    ensures Quotient(w, 1) == w
  {
  }

  lemma QuotientTwice(w: nat, r: nat, p: nat)
    requires r > 0 && p > 0
    ensures r * p > 0 && Quotient(w, r * p) == Quotient(Quotient(w, r), p)
  {
    NestedQuotient(w, r, p);
  }

  /** A word's fields fill its 32 bits. */
  lemma WordIsFull(p: Packing)
    ensures Power(Radix(p), PerWord(p)) == 0x1_0000_0000
  {
    Square(0x1_0000, 2);
    if p == 2 { Square(0x100, 4); Square(0x1_0000, 2); }
    if p == 3 { Square(16, 8); Square(0x100, 4); }
    if p == 4 { Square(4, 16); Square(16, 8); Square(0x100, 4); }
    if p == 5 { Square(2, 32); Square(4, 16); Square(16, 8); Square(0x100, 4); }
  }

  lemma {:induction false} Square(r: nat, n: nat)
    requires n % 2 == 0
    ensures Power(r, n) == Power(r * r, n / 2)
  {
    if n > 0 {
      Square(r, n - 2);
      assert Power(r, n) == r * (r * Power(r, n - 2));
      Associate(r, r, Power(r, n - 2));
    }
  }

  /** Shifted right by `k` bits. */
  function Shifted(n: nat, k: nat): nat
    decreases k
  {
    if k == 0 then n else Shifted(n, k - 1) / 2
  }

  /** The bits of an element: 32 shifted right by the packing. */
  function ElementSize(p: Packing): nat { Shifted(32, p) }

  /** Packings in shifts, as the source has them: the word of an element is its index shifted right by the packing, and
      its bits start at the index times their number, within the word. */
  lemma PackingsExactly(p: Packing, i: nat)
    ensures Radix(p) == Pow2(ElementSize(p)) && WordOf(p, i) == Shifted(i, p)
    ensures SlotOf(p, i) * ElementSize(p) == i * ElementSize(p) % 32
  {
    hide Radix, WordOf, SlotOf, ElementSize;
    RadixIsPower(p);
    WordIsShifted(p, i);
    StartIsRotation(p, i);
  }

  lemma SizesAre(p: Packing)
    ensures ElementSize(p) == if p == 1 then 16 else if p == 2 then 8 else if p == 3 then 4 else if p == 4 then 2 else 1
  {
    ShiftFive(32);
  }

  lemma RadixIsPower(p: Packing)
    ensures Radix(p) == Pow2(ElementSize(p))
  {
    hide ElementSize;
    SizesAre(p);
    Pow2Sizes();
  }

  lemma WordIsShifted(p: Packing, i: nat)
    ensures WordOf(p, i) == Shifted(i, p)
  {
    ShiftFive(i);
  }

  lemma StartIsRotation(p: Packing, i: nat)
    ensures SlotOf(p, i) * ElementSize(p) == i * ElementSize(p) % 32
  {
    hide ElementSize;
    SizesAre(p);
    if p == 1 {
      Rotation(2, 16, i);
    } else if p == 2 {
      Rotation(4, 8, i);
    } else if p == 3 {
      Rotation(8, 4, i);
    } else if p == 4 {
      Rotation(16, 2, i);
    } else {
      Rotation(32, 1, i);
    }
  }

  lemma ShiftFive(n: nat)
    ensures Shifted(n, 1) == n / 2 && Shifted(n, 2) == n / 4 && Shifted(n, 3) == n / 8 && Shifted(n, 4) == n / 16
    ensures Shifted(n, 5) == n / 32
  {
    assert Shifted(n, 1) == Shifted(n, 0) / 2;
    assert Shifted(n, 2) == Shifted(n, 1) / 2;
    assert Shifted(n, 3) == Shifted(n, 2) / 2;
    assert Shifted(n, 4) == Shifted(n, 3) / 2;
    assert Shifted(n, 5) == Shifted(n, 4) / 2;
  }

  lemma Pow2Sizes()
    ensures Pow2(0) == 1 && Pow2(1) == 2 && Pow2(2) == 4 && Pow2(3) == 8 && Pow2(4) == 16 && Pow2(5) == 32
    ensures Pow2(8) == 0x100 && Pow2(16) == 0x1_0000
  {
    assert Pow2(4) == 16;
    assert Pow2(8) == 0x100;
    assert Pow2(12) == 0x1000;
  }

  lemma Rotation(n: nat, size: nat, i: nat)
    requires (n == 2 && size == 16) || (n == 4 && size == 8) || (n == 8 && size == 4) || (n == 16 && size == 2) ||
      (n == 32 && size == 1)
    ensures i % n * size == i * size % 32
  {
    if n == 2 { Rotated(i / 2, i % 2 * 16); }
    if n == 4 { Rotated(i / 4, i % 4 * 8); }
    if n == 8 { Rotated(i / 8, i % 8 * 4); }
    if n == 16 { Rotated(i / 16, i % 16 * 2); }
  }

  lemma Rotated(q: nat, r: nat)
    requires r < 32
    ensures (32 * q + r) % 32 == r
  {
  }

  /** A power of a packing's radix shifts out as many bits as its fields have. */
  lemma {:induction false} PowerIsShift(size: nat, k: nat)
    ensures Power(Pow2(size), k) == Pow2(k * size)
    decreases k
  {
    if k > 0 {
      PowerIsShift(size, k - 1);
      Pow2Sum(size, (k - 1) * size);
      assert k * size == size + (k - 1) * size;
    }
  }

  lemma {:induction false} Pow2Sum(a: nat, b: nat)
    ensures Pow2(a + b) == Pow2(a) * Pow2(b)
    decreases a
  {
    if a > 0 {
      Pow2Sum(a - 1, b);
      Associate(2, Pow2(a - 1), Pow2(b));
    }
  }

  /** Bits of a word: `size` of them, from bit `start` on. */
  function BitsAt(w: nat, start: nat, size: nat): nat { Rest(Quotient(w, Pow2(start)), Pow2(size)) }

  /** An element's field is its bits of the word. */
  lemma {:induction false} FieldIsBits(p: Packing, i: nat, w: Datum)
    ensures Field(w, Radix(p), SlotOf(p, i)) == BitsAt(w, i * ElementSize(p) % 32, ElementSize(p))
  {
    hide Field, SlotOf, Radix, PerWord, WordOf, ElementSize;
    PackingsExactly(p, i);
    FieldIsShift(w, Radix(p), SlotOf(p, i));
    PowerIsShift(ElementSize(p), SlotOf(p, i));
  }

  // ---------- Arrays in memory ----------

  datatype Kind = FixnumArray | CharacterArray | BooleanArray | ObjectArray

  /** An array with its data from `vma` on, whose element 0 is `offset` elements into the first word. */
  datatype PackedArray = PackedArray(vma: nat, packing: Packing, offset: nat, kind: Kind)

  datatype Element = Fixnum(n: nat) | Character(n: nat) | Boolean(b: bool)

  /** The cell of the fixnum that a data read from `vma` ends at: words of types 4 to 7 forward to another address, out
      of oldspace. Any other word makes an access to a packed array trap. */
  function FixnumCell(m: seq<Word>, vma: nat, oldspace: set<nat>, hops: nat): (c: Option<nat>)
    requires |m| == MEMORY && vma < MEMORY
    ensures c.Some? ==> c.value < MEMORY && TagType(m[c.value].tag) == TYPE_FIXNUM
    decreases hops
  {
    if hops == 0 then None
    else if Forwards(m[vma], oldspace) then FixnumCell(m, m[vma].datum, oldspace, hops - 1)
    else if TagType(m[vma].tag) == TYPE_FIXNUM then Some(vma)
    else None
  }

  predicate Forwards(w: Word, oldspace: set<nat>) { 4 <= TagType(w.tag) <= 7 && w.datum !in oldspace }

  /** The address of the word that holds element `i`, before forwarding. */
  function WordAddress(a: PackedArray, i: nat): nat { a.vma + WordOf(a.packing, a.offset + i) }

  /** The cell of the word that holds element `i`; there is none past the end of memory. */
  function CellOf(m: seq<Word>, oldspace: set<nat>, a: PackedArray, i: nat): (c: Option<nat>)
    requires |m| == MEMORY
    ensures c.Some? ==> c.value < MEMORY && TagType(m[c.value].tag) == TYPE_FIXNUM
  {
    if WordAddress(a, i) < MEMORY then FixnumCell(m, WordAddress(a, i), oldspace, MEMORY) else None
  }

  function ElementOf(kind: Kind, n: nat): Element {
    match kind
    case CharacterArray => Character(n)
    case BooleanArray => Boolean(n != 0)
    case _ => Fixnum(n)
  }

  /** Reads element `i`; `None` is a trap, or a circle of forwarding words that the emulator goes round for ever. */
  function Aref1(m: seq<Word>, oldspace: set<nat>, a: PackedArray, i: nat): Option<Element>
    requires |m| == MEMORY
  {
    var c := CellOf(m, oldspace, a, i);
    if c.None? || a.kind == ObjectArray then None
    else Some(ElementIn(m, a, c.value, i))
  }

  /** Element `i`'s field of a cell. */
  function ElementIn(m: seq<Word>, a: PackedArray, cell: nat, i: nat): Element
    requires |m| == MEMORY && cell < MEMORY
  {
    ElementOf(a.kind, Field(m[cell].datum, Radix(a.packing), SlotOf(a.packing, a.offset + i)))
  }

  /** The bits to store for a value; `None` is a trap. A character must fit, a fixnum is cut to its low bits. */
  function Bits(a: PackedArray, value: Word): (n: Option<nat>)
    ensures n.Some? ==> n.value < Radix(a.packing)
  {
    var r := Radix(a.packing);
    match a.kind
    case FixnumArray => if TagType(value.tag) == TYPE_FIXNUM then Some(Cut(a.packing, value.datum)) else None
    case CharacterArray => if TagType(value.tag) == TYPE_CHARACTER && value.datum < r then Some(value.datum) else None
    case BooleanArray => Some(if TagType(value.tag) == TYPE_NIL then 0 else r - 1)
    case ObjectArray => None
  }

  /** The low bits of a number that an element can hold. */
  function Cut(p: Packing, n: nat): (e: nat)
    ensures e < Radix(p)
  {
    if p == 1 then n % 0x1_0000
    else if p == 2 then n % 0x100
    else if p == 3 then n % 16
    else if p == 4 then n % 4
    else n % 2
  }

  function DepositIn(p: Packing, w: Datum, k: nat, e: nat): Datum
    requires k < PerWord(p) && e < Radix(p)
  {
    WordIsFull(p);
    DepositBound(w, Radix(p), k, e, PerWord(p));
    Deposit(w, Radix(p), k, e)
  }

  /** Writes element `i`; `None` as in a read. */
  function Aset1(m: seq<Word>, oldspace: set<nat>, a: PackedArray, i: nat, value: Word): (r: Option<seq<Word>>)
    requires |m| == MEMORY
    ensures r.Some? ==> |r.value| == MEMORY
  {
    var c, bits := CellOf(m, oldspace, a, i), Bits(a, value);
    if c.None? || bits.None? then None
    else
      var w := m[c.value];
      Some(m[c.value := w.(datum := DepositIn(a.packing, w.datum, SlotOf(a.packing, a.offset + i), bits.value))])
  }

  /** Storing into a fixnum moves no cell. */
  lemma {:induction false} SameFixnumCell(m: seq<Word>, c: nat, d: Datum, vma: nat, oldspace: set<nat>, hops: nat)
    requires |m| == MEMORY && c < MEMORY && vma < MEMORY && TagType(m[c].tag) == TYPE_FIXNUM
    ensures FixnumCell(m[c := m[c].(datum := d)], vma, oldspace, hops) == FixnumCell(m, vma, oldspace, hops)
    decreases hops
  {
    if hops > 0 && Forwards(m[vma], oldspace) {
      SameFixnumCell(m, c, d, m[vma].datum, oldspace, hops - 1);
    }
  }

  lemma SameCellOf(m: seq<Word>, oldspace: set<nat>, a: PackedArray, c: nat, d: Datum, i: nat)
    requires |m| == MEMORY && c < MEMORY && TagType(m[c].tag) == TYPE_FIXNUM
    ensures CellOf(m[c := m[c].(datum := d)], oldspace, a, i) == CellOf(m, oldspace, a, i)
  {
    hide FixnumCell;
    if WordAddress(a, i) < MEMORY { SameFixnumCell(m, c, d, WordAddress(a, i), oldspace, MEMORY); }
  }

  /** Elements `i` and `j` are the same field of the same cell. */
  predicate SameField(m: seq<Word>, oldspace: set<nat>, a: PackedArray, i: nat, j: nat)
    requires |m| == MEMORY
  {
    && CellOf(m, oldspace, a, i) == CellOf(m, oldspace, a, j)
    && SlotOf(a.packing, a.offset + i) == SlotOf(a.packing, a.offset + j)
  }

  /** What a stored value is to read back as: a fixnum's low bits, as many as an element has; a character; and whether
      the value is not NIL. */
  function StoredElement(a: PackedArray, value: Word): Element {
    match a.kind
    case CharacterArray => Character(value.datum)
    case BooleanArray => Boolean(TagType(value.tag) != TYPE_NIL)
    case _ => Fixnum(Rest(value.datum, Pow2(ElementSize(a.packing))))
  }

  /** The bits that are stored for a value: the low bits of a fixnum, the code of a character, and all ones or none. */
  lemma BitsExactly(a: PackedArray, value: Word)
    requires Bits(a, value).Some?
    ensures a.kind != ObjectArray
    ensures var n := Pow2(ElementSize(a.packing));
      Bits(a, value).value ==
        if a.kind == FixnumArray then Rest(value.datum, n)
        else if a.kind == CharacterArray then value.datum
        else if TagType(value.tag) == TYPE_NIL then 0 else n - 1
    ensures ElementOf(a.kind, Bits(a, value).value) == StoredElement(a, value)
  {
    Pow2Sizes();
    ShiftFive(32);
  }

  /** Packed arrays behave like arrays, for any packing, byte offset and forwarding of the words: after a store that
      does not trap, the elements that are the stored one's field of its cell read back as its value cut to the
      element's bits, and every other element, in the same word or not, reads as before. Where the words of two elements
      are the same word or end at different cells, only equal indices name the same field. */
  lemma {:induction false} ArefAfterAset(m: seq<Word>, oldspace: set<nat>, a: PackedArray, i: nat, value: Word, j: nat)
    requires |m| == MEMORY && Aset1(m, oldspace, a, i, value).Some?
    ensures Aref1(Aset1(m, oldspace, a, i, value).value, oldspace, a, j) ==
      if SameField(m, oldspace, a, i, j) then Some(StoredElement(a, value))
      else Aref1(m, oldspace, a, j)
    ensures (CellOf(m, oldspace, a, i) == CellOf(m, oldspace, a, j) ==>
      WordOf(a.packing, a.offset + i) == WordOf(a.packing, a.offset + j)) ==>
      (SameField(m, oldspace, a, i, j) <==> i == j)
  {
    hide FixnumCell, Field, Deposit, WordOf, SlotOf, Radix, PerWord, Cut, WordAddress, CellOf;
    var c, e := CellOf(m, oldspace, a, i).value, Bits(a, value).value;
    var k, l := SlotOf(a.packing, a.offset + i), SlotOf(a.packing, a.offset + j);
    var d := DepositIn(a.packing, m[c].datum, k, e);
    SameCellOf(m, oldspace, a, c, d, j);
    BitsExactly(a, value);
    SamePlace(a.packing, a.offset + i, a.offset + j);
    DepositReads(m[c].datum, Radix(a.packing), k, e, l);
  }

  // ---------- Which accesses succeed ----------

  /** Where `n` hops lead, whatever the words on the way. */
  function After(m: seq<Word>, vma: nat, n: nat): (a: nat)
    requires |m| == MEMORY && vma < MEMORY
    ensures a < MEMORY
    decreases n
  {
    if n == 0 then vma else m[After(m, vma, n - 1)].datum
  }

  /** From `vma`, `n` forwarding words, of types 4 to 7, out of oldspace lead to a fixnum. */
  ghost predicate LeadsToFixnum(m: seq<Word>, oldspace: set<nat>, vma: nat, n: nat)
    requires |m| == MEMORY
  {
    && vma < MEMORY
    && m[After(m, vma, n)].tag % 64 == TYPE_FIXNUM
    && forall k | 0 <= k < n :: m[After(m, vma, k)].tag % 64 / 4 == 1 && m[After(m, vma, k)].datum !in oldspace
  }

  lemma LeadsFromMemory(m: seq<Word>, oldspace: set<nat>, vma: nat)
    requires |m| == MEMORY
    ensures forall n: nat | LeadsToFixnum(m, oldspace, vma, n) :: vma < MEMORY
  {
  }

  lemma {:induction false} AfterSum(m: seq<Word>, vma: nat, i: nat, j: nat)
    requires |m| == MEMORY && vma < MEMORY
    ensures After(m, After(m, vma, i), j) == After(m, vma, i + j)
    decreases j
  {
    if j > 0 { AfterSum(m, vma, i, j - 1); }
  }

  /** The fixnum's chain does not pass one address twice: it would come round to its end again. */
  lemma NoCircle(m: seq<Word>, oldspace: set<nat>, vma: nat, n: nat, i: nat, j: nat)
    requires |m| == MEMORY && vma < MEMORY && LeadsToFixnum(m, oldspace, vma, n) && i < j <= n
    ensures After(m, vma, i) != After(m, vma, j)
  {
    var k := i + n - j;
    assert Forwards(m[After(m, vma, k)], oldspace);
    AfterSum(m, vma, i, n - j);
    AfterSum(m, vma, j, n - j);
  }

  /** The first `n` addresses of a chain. */
  ghost function Passed(m: seq<Word>, vma: nat, n: nat): set<nat>
    requires |m| == MEMORY && vma < MEMORY
  {
    set k | 0 <= k < n :: After(m, vma, k)
  }

  lemma {:induction false} PassedSize(m: seq<Word>, oldspace: set<nat>, vma: nat, n: nat, k: nat)
    requires |m| == MEMORY && vma < MEMORY && LeadsToFixnum(m, oldspace, vma, n) && k <= n + 1
    ensures |Passed(m, vma, k)| == k
    decreases k
  {
    hide LeadsToFixnum, After;
    if k == 0 {
      assert Passed(m, vma, 0) == {};
    } else {
      PassedSize(m, oldspace, vma, n, k - 1);
      forall i | 0 <= i < k - 1 ensures After(m, vma, i) != After(m, vma, k - 1) {
        NoCircle(m, oldspace, vma, n, i, k - 1);
      }
      assert Passed(m, vma, k) == Passed(m, vma, k - 1) + {After(m, vma, k - 1)};
    }
  }

  lemma {:induction false} SizeBelow(s: set<nat>, n: nat)
    requires forall a | a in s :: a < n
    ensures |s| <= n
    decreases n
  {
    if n == 0 {
      assert s == {};
    } else {
      SizeBelow(s - {n - 1}, n - 1);
    }
  }

  /** A chain to a fixnum has fewer hops than memory has addresses. */
  lemma ChainFits(m: seq<Word>, oldspace: set<nat>, vma: nat, n: nat)
    requires |m| == MEMORY && vma < MEMORY && LeadsToFixnum(m, oldspace, vma, n)
    ensures n < MEMORY
  {
    PassedSize(m, oldspace, vma, n, n + 1);
    SizeBelow(Passed(m, vma, n + 1), MEMORY);
  }

  /** The read follows a chain to its fixnum. */
  lemma {:induction false} ReadFollows(m: seq<Word>, oldspace: set<nat>, vma: nat, n: nat, hops: nat)
    requires |m| == MEMORY && vma < MEMORY && LeadsToFixnum(m, oldspace, vma, n) && n < hops
    ensures FixnumCell(m, vma, oldspace, hops) == Some(After(m, vma, n))
    decreases n
  {
    if n > 0 {
      assert Forwards(m[After(m, vma, 0)], oldspace);
      assert After(m, vma, 1) == m[vma].datum;
      forall k: nat ensures After(m, m[vma].datum, k) == After(m, vma, k + 1) {
        AfterSum(m, vma, 1, k);
      }
      ReadFollows(m, oldspace, m[vma].datum, n - 1, hops - 1);
    }
  }

  /** The chain that a read has followed. */
  lemma {:induction false} ReadChain(m: seq<Word>, oldspace: set<nat>, vma: nat, hops: nat) returns (n: nat)
    requires |m| == MEMORY && vma < MEMORY && FixnumCell(m, vma, oldspace, hops).Some?
    ensures LeadsToFixnum(m, oldspace, vma, n) && FixnumCell(m, vma, oldspace, hops) == Some(After(m, vma, n))
    decreases hops
  {
    n := 0;
    if Forwards(m[vma], oldspace) {
      n := ReadChain(m, oldspace, m[vma].datum, hops - 1);
      n := n + 1;
      forall k: nat ensures After(m, m[vma].datum, k) == After(m, vma, k + 1) {
        assert After(m, vma, 1) == m[vma].datum;
        AfterSum(m, vma, 1, k);
      }
      forall k | 0 <= k < n ensures Forwards(m[After(m, vma, k)], oldspace) {
        if k > 0 { assert After(m, vma, k) == After(m, m[vma].datum, k - 1); }
      }
    }
  }

  /** An element as its bits of the cell. */
  function ElementBits(a: PackedArray, w: Datum, i: nat): Element {
    var n := BitsAt(w, (a.offset + i) * ElementSize(a.packing) % 32, ElementSize(a.packing));
    if a.kind == CharacterArray then Character(n) else if a.kind == BooleanArray then Boolean(n != 0) else Fixnum(n)
  }

  lemma ElementIsBits(m: seq<Word>, a: PackedArray, cell: nat, i: nat)
    requires |m| == MEMORY && cell < MEMORY
    ensures ElementIn(m, a, cell, i) == ElementBits(a, m[cell].datum, i)
  {
    hide Field, Radix, SlotOf;
    FieldIsBits(a.packing, a.offset + i, m[cell].datum);
  }

  lemma WordIsThere(a: PackedArray, i: nat)
    ensures WordAddress(a, i) == a.vma + Shifted(a.offset + i, a.packing)
  {
    hide WordOf, Shifted;
    PackingsExactly(a.packing, a.offset + i);
  }

  /** Reading the element gives a value exactly when the array is not one of objects and forwarding words out of
      oldspace, however many, lead from the element's word to a fixnum; the value is the element's field of that
      fixnum. */
  lemma ArefSucceedsExactly(m: seq<Word>, oldspace: set<nat>, a: PackedArray, i: nat, e: Element)
    requires |m| == MEMORY
    ensures WordAddress(a, i) == a.vma + Shifted(a.offset + i, a.packing)
    ensures Aref1(m, oldspace, a, i) == Some(e) <==>
      a.kind != ObjectArray && WordAddress(a, i) < MEMORY &&
      exists n: nat | LeadsToFixnum(m, oldspace, WordAddress(a, i), n) ::
        e == ElementBits(a, m[After(m, WordAddress(a, i), n)].datum, i)
  {
    hide Field, WordAddress, SlotOf, Radix, FixnumCell, LeadsToFixnum, ElementIn, ElementBits;
    WordIsThere(a, i);
    var vma := WordAddress(a, i);
    assert forall n: nat | LeadsToFixnum(m, oldspace, vma, n) :: vma < MEMORY by { LeadsFromMemory(m, oldspace, vma); }
    forall n: nat | LeadsToFixnum(m, oldspace, vma, n)
      ensures FixnumCell(m, vma, oldspace, MEMORY) == Some(After(m, vma, n))
      ensures ElementIn(m, a, After(m, vma, n), i) == ElementBits(a, m[After(m, vma, n)].datum, i)
    {
      ChainFits(m, oldspace, vma, n);
      ReadFollows(m, oldspace, vma, n, MEMORY);
      ElementIsBits(m, a, After(m, vma, n), i);
    }
    if vma < MEMORY && FixnumCell(m, vma, oldspace, MEMORY).Some? {
      var n := ReadChain(m, oldspace, vma, MEMORY);
    }
  }

  /** A value suits an array of fixnums if it is one, an array of characters if it is one that fits, and an array of
      booleans always. */
  predicate Suits(a: PackedArray, value: Word) {
    match a.kind
    case FixnumArray => TagType(value.tag) == TYPE_FIXNUM
    case CharacterArray => TagType(value.tag) == TYPE_CHARACTER && value.datum < Radix(a.packing)
    case BooleanArray => true
    case ObjectArray => false
  }

  /** A store succeeds exactly when the value suits the array and the element's word leads to a fixnum, and it changes
      nothing but that cell, whose tag it keeps. */
  lemma AsetSucceedsExactly(m: seq<Word>, oldspace: set<nat>, a: PackedArray, i: nat, value: Word)
    requires |m| == MEMORY
    ensures WordAddress(a, i) == a.vma + Shifted(a.offset + i, a.packing)
    ensures Aset1(m, oldspace, a, i, value).Some? <==>
      Suits(a, value) && exists n: nat :: LeadsToFixnum(m, oldspace, WordAddress(a, i), n)
    ensures Aset1(m, oldspace, a, i, value).Some? ==>
      WordAddress(a, i) < MEMORY && forall n: nat, b |
        LeadsToFixnum(m, oldspace, WordAddress(a, i), n) && 0 <= b < MEMORY && b != After(m, WordAddress(a, i), n) ::
        Aset1(m, oldspace, a, i, value).value[b] == m[b]
    ensures Aset1(m, oldspace, a, i, value).Some? ==>
      WordAddress(a, i) < MEMORY && forall n: nat | LeadsToFixnum(m, oldspace, WordAddress(a, i), n) ::
        var end := After(m, WordAddress(a, i), n);
        Aset1(m, oldspace, a, i, value).value[end].tag == m[end].tag
  {
    hide Field, WordAddress, SlotOf, Radix, FixnumCell, LeadsToFixnum, DepositIn, Cut;
    WordIsThere(a, i);
    var vma := WordAddress(a, i);
    assert forall n: nat | LeadsToFixnum(m, oldspace, vma, n) :: vma < MEMORY by { LeadsFromMemory(m, oldspace, vma); }
    forall n: nat | LeadsToFixnum(m, oldspace, vma, n)
      ensures FixnumCell(m, vma, oldspace, MEMORY) == Some(After(m, vma, n))
    {
      ChainFits(m, oldspace, vma, n);
      ReadFollows(m, oldspace, vma, n, MEMORY);
    }
    if vma < MEMORY && FixnumCell(m, vma, oldspace, MEMORY).Some? {
      var n := ReadChain(m, oldspace, vma, MEMORY);
    }
  }
}
