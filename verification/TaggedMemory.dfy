/** The emulated memory: a tag byte and a 32-bit datum per address, attributes per page, and what it means for a word
    to refer to oldspace. */
module TaggedMemory {
  import opened Wrappers
  import opened Arithmetic

  type Tag = t: nat | t < 256
  type Datum = d: nat | d < 0x1_0000_0000

  const PAGE := 8192
  const MEMORY := 0x1_0000_0000
  const PAGES := 0x8_0000

  /** The last page, and the last eight addresses: where 32-bit ends of ranges wrap around. */
  const LAST_PAGE := 0x7_FFFF
  const LAST_CHUNK := 0xFFFF_FFF8

  /** What a search over memory returns: an address, none, or a walk beyond the tags. */
  datatype SearchOutcome = At(address: nat) | Absent | Astray

  function ToOutcome(r: Option<nat>): SearchOutcome { if r.Some? then At(r.value) else Absent }

  function TagType(tag: Tag): nat { tag % 64 }

  function TagCdr(tag: Tag): nat { tag / 64 }

  /** Bit `k` of `w`. */
  predicate Bit(w: nat, k: nat) { if k == 0 then w % 2 == 1 else Bit(w / 2, k - 1) }

  /** Bit `k` is set when type `k` is a pointer type. */
  const POINTER_TYPES := 0x0000_FFF4_FFFF_F8F7

  /** Ephemeral addresses look up their half of a level, whose bits appear plain in the high word and inverted in
      the low one; other addresses look up their zone. */
  predicate OldspaceAddress(ephemeralOldspace: Datum, zoneOldspace: Datum, d: Datum) {
    if d < 0x800_0000 then
      Bit(ephemeralOldspace * 0x1_0000_0000 + (0xFFFF_FFFF - ephemeralOldspace), d / 0x20_0000)
    else
      Bit(zoneOldspace, (d / 0x800_0000) % 32)
  }

  /** Memory contents together with the two oldspace registers. */
  datatype Heap = Heap(tags: seq<Tag>, data: seq<Datum>, ephemeralOldspace: Datum, zoneOldspace: Datum) {
    predicate Valid() { |tags| == |data| == MEMORY }

    predicate PointerAt(a: nat)
      requires a < |tags|
    {
      Bit(POINTER_TYPES, TagType(tags[a]))
    }

    /** Ephemeral space is zone 0: the addresses below 2^27. */
    predicate EphemeralAt(a: nat)
      requires a < |tags| && a < |data|
    {
      PointerAt(a) && data[a] < 0x800_0000
    }

    /** The word at `a` is a pointer into oldspace. */
    predicate OldAt(a: nat)
      requires a < |tags| && a < |data|
    {
      PointerAt(a) && OldspaceAddress(ephemeralOldspace, zoneOldspace, data[a])
    }

    /** The lowest address in [lo, hi) holding an oldspace pointer: the plain linear scan. */
    function LeastOld(lo: nat, hi: nat): Option<nat>
      requires hi <= |tags| && hi <= |data|
      decreases hi - lo
    {
      if lo >= hi then None else if OldAt(lo) then Some(lo) else LeastOld(lo + 1, hi)
    }

    /** Some word in [lo, hi) is a pointer into ephemeral space. */
    predicate AnyEphemeral(lo: nat, hi: nat)
      requires hi <= |tags| && hi <= |data|
      decreases hi - lo
    {
      lo < hi && (EphemeralAt(lo) || AnyEphemeral(lo + 1, hi))
    }

    lemma {:induction false} LeastOldIsLeast(lo: nat, hi: nat)
      requires hi <= |tags| && hi <= |data|
      ensures LeastOld(lo, hi).Some? ==> var r := LeastOld(lo, hi).value;
        lo <= r < hi && OldAt(r) && forall a :: lo <= a < r ==> !OldAt(a)
      ensures LeastOld(lo, hi).None? ==> forall a :: lo <= a < hi ==> !OldAt(a)
      decreases hi - lo
    {
      if lo < hi && !OldAt(lo) {
        LeastOldIsLeast(lo + 1, hi);
      }
    }

    lemma {:induction false} LeastOldJoin(lo: nat, mid: nat, hi: nat)
      requires lo <= mid <= hi <= |tags| && hi <= |data|
      ensures LeastOld(lo, hi) == if LeastOld(lo, mid).Some? then LeastOld(lo, mid) else LeastOld(mid, hi)
      decreases mid - lo
    {
      if lo < mid && !OldAt(lo) {
        LeastOldJoin(lo + 1, mid, hi);
      }
    }

    lemma {:induction false} AnyEphemeralJoin(lo: nat, mid: nat, hi: nat)
      requires lo <= mid <= hi <= |tags| && hi <= |data|
      ensures AnyEphemeral(lo, hi) <==> AnyEphemeral(lo, mid) || AnyEphemeral(mid, hi)
      decreases mid - lo
    {
      if lo < mid {
        AnyEphemeralJoin(lo + 1, mid, hi);
      }
    }
  }

  lemma {:induction false} NoBitsInZero(k: nat)
    ensures !Bit(0, k)
  {
    if k > 0 { NoBitsInZero(k - 1); }
  }

  /** The pointer types: all below 48 but for 3, the immediate numbers (8 to 10), and 32, 33 and 35. */
  lemma PointerTypesExactly(t: nat)
    requires t < 64
    ensures Bit(POINTER_TYPES, t) <==> t < 48 && t !in {3, 8, 9, 10, 32, 33, 35}
  {
    hide Bit, Pow2;
    assert Pow2(2) == 4 && Pow2(3) == 8 && Pow2(4) == 16 && Pow2(7) == 128 && Pow2(12) == 0x1000 by { Pow2Values(); }
    assert Pow2(1) == 2 && Pow2(21) == 0x20_0000 && Pow2(23) == 0x80_0000 by { Pow2Values(); }
    BitsApart(0x7, 0xFFF_4FFF_FF8F, 4, t);
    Ones(3, t);
    if t >= 4 {
      BitsApart(0xF, 0x1F_FE9F_FFFF, 7, t - 4);
      Ones(4, t - 4);
    }
    if t >= 11 {
      BitsApart(0x1F_FFFF, 0x3FFD, 23, t - 11);
      Ones(21, t - 11);
    }
    if t >= 34 {
      BitsApart(0x1, 0xFFF, 2, t - 34);
      Ones(1, t - 34);
    }
    if t >= 36 {
      Ones(12, t - 36);
    }
  }

  lemma {:induction false} Ones(n: nat, k: nat)
    ensures Bit(Pow2(n) - 1, k) <==> k < n
    decreases k
  {
    if n == 0 {
      NoBitsInZero(k);
    } else if k > 0 {
      Ones(n - 1, k - 1);
    }
  }

  /** The bits of a number put together from two: the lower `n` bits, and the rest. */
  lemma {:induction false} BitsApart(low: nat, high: nat, n: nat, k: nat)
    requires low < Pow2(n)
    ensures Bit(low + Pow2(n) * high, k) <==> if k < n then Bit(low, k) else Bit(high, k - n)
    decreases n
  {
    if n > 0 {
      var q := Pow2(n - 1);
      assert Pow2(n) * high == 2 * (q * high) by { Associate(2, q, high); }
      assert (low + 2 * (q * high)) / 2 == low / 2 + q * high && (low + 2 * (q * high)) % 2 == low % 2;
      if k > 0 { BitsApart(low / 2, high, n - 1, k - 1); }
    }
  }

  lemma {:induction false} BitsInverted(w: nat, n: nat, k: nat)
    requires w < Pow2(n) && k < n
    ensures Bit(Pow2(n) - 1 - w, k) <==> !Bit(w, k)
    decreases n
  {
    var q, v := Pow2(n - 1), Pow2(n) - 1 - w;
    assert v == 2 * q - 1 - w;
    assert v / 2 == q - 1 - w / 2 && v % 2 == 1 - w % 2;
    if k > 0 { BitsInverted(w / 2, n - 1, k - 1); }
  }

  /** Of the two halves of an ephemeral level, which are 2^26 addresses apart, exactly one is oldspace: the upper one
      where the register has the level's bit. Other addresses go by their zones of 2^27 alone. */
  lemma OldspaceExactly(ephemeralOldspace: Datum, zoneOldspace: Datum, level: nat, d: Datum)
    requires level < 32
    ensures level * 0x20_0000 <= d < (level + 1) * 0x20_0000 ==>
      && (OldspaceAddress(ephemeralOldspace, zoneOldspace, d) <==> !Bit(ephemeralOldspace, level))
      && (OldspaceAddress(ephemeralOldspace, zoneOldspace, d + 0x400_0000) <==> Bit(ephemeralOldspace, level))
    ensures 0 < level && level * 0x800_0000 <= d < (level + 1) * 0x800_0000 ==>
      (OldspaceAddress(ephemeralOldspace, zoneOldspace, d) <==> Bit(zoneOldspace, level))
  {
    hide Bit, Pow2;
    assert Pow2(32) == 0x1_0000_0000 by { Pow2Values(); }
    var low := 0xFFFF_FFFF - ephemeralOldspace;
    BitsInverted(ephemeralOldspace, 32, level);
    BitsApart(low, ephemeralOldspace, 32, level);
    BitsApart(low, ephemeralOldspace, 32, level + 32);
  }

  /** In an ephemeral flip no zone is oldspace, so only ephemeral pointers can be old. */
  lemma {:induction false} OldIsEphemeral(h: Heap, lo: nat, hi: nat)
    requires hi <= |h.tags| && hi <= |h.data| && h.zoneOldspace == 0 && !h.AnyEphemeral(lo, hi)
    ensures h.LeastOld(lo, hi).None?
    decreases hi - lo
  {
    if lo < hi {
      NoBitsInZero((h.data[lo] / 0x800_0000) % 32);
      OldIsEphemeral(h, lo + 1, hi);
    }
  }

  /** The attribute byte of a page, bit by bit. */
  datatype Attributes = Attributes(
    accessFault: bool, writeFault: bool, transportFault: bool, transportDisable: bool,
    ephemeral: bool, modified: bool, exists_: bool)

  const ABSENT := Attributes(false, false, false, false, false, false, false)

  datatype Protection = NoAccess | ReadOnly | ReadWrite

  /** The protection a page's tags are given for its attributes. A disabled transport fault does not count. */
  function ComputeProtection(a: Attributes): Protection {
    if !a.exists_ || (a.transportFault && !a.transportDisable) || a.accessFault then NoAccess
    else if !a.modified || !a.ephemeral || a.writeFault then ReadOnly
    else ReadWrite
  }
}
