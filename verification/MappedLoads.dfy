/** Loading file words into memory: whole wads are mapped from the file, everything else is copied page by page. */
module MappedLoads {
  import opened TaggedMemory
  import opened Ivory
  import opened PageFaults
  import opened Wads

  datatype Loaded = Done(space: Space) | Stuck

  /** Whether the words at `vma` must be copied: part of a wad, or over a page that exists. */
  predicate MustCopy(s: Space, vma: nat, length: nat)
    requires s.Sized() && vma < MEMORY
  {
    vma % WAD != 0 || s.Created(vma / 8192) || length < WAD
  }

  /** How many words one copy takes: to the end of the page, or of the load. */
  function CopySize(vma: nat, length: nat): nat {
    if 8192 - vma % 8192 < length then 8192 - vma % 8192 else length
  }

  function PutWords(memory: seq<Word>, vma: nat, words: seq<Word>): (r: seq<Word>)
    requires vma + |words| <= |memory|
    ensures |r| == |memory|
  {
    memory[..vma] + words + memory[vma + |words|..]
  }

  /** Copies words into one page, which is created when need be, and marks it as a page of the world. */
  function CopyPart(s: Space, vma: nat, words: seq<Word>, tracking: bool): (r: Space)
    requires s.Sized() && vma < MEMORY && vma + |words| <= MEMORY
    ensures r.Sized()
  {
    var p := vma / 8192;
    var e := Ensure(s, p, false, tracking);
    e.(attrs := e.attrs[p := DefaultAttributes(false, true, tracking)], memory := PutWords(e.memory, vma, words))
  }

  /** Maps one wad from the file. */
  function MapWad(s: Space, w: nat, words: seq<Word>, tracking: bool): (r: Space)
    requires s.Sized() && w < WADS && |words| == WAD
    ensures r.Sized()
  {
    var a := DefaultAttributes(false, true, tracking);
    Space(s.attrs[..8 * w] + [a, a, a, a, a, a, a, a] + s.attrs[8 * w + 8..], PutWords(s.memory, w * WAD, words),
          s.mapped + {w})
  }

  /** The page that words are copied to exists and may hold ephemeral pointers, and is modified unless modifications are
      tracked; no other page's attributes change. */
  lemma CopiedPage(s: Space, vma: nat, words: seq<Word>, tracking: bool)
    requires s.Sized() && vma < MEMORY && vma + |words| <= MEMORY
    ensures var a := CopyPart(s, vma, words, tracking).attrs;
      && AttributeByte(a[vma / 8192]) == 64 | 16 | (if tracking then 0 else 32)
      && forall q: nat | q < PAGES && q != vma / 8192 :: a[q] == s.attrs[q]
  {
    hide PutWords, AttributeByte, Ensure, DefaultAttributes;
    NewPageExactly(false, true, tracking);
    EnsureExactly(s, vma / 8192, false, tracking);
  }

  /** So it is with the pages of a wad that is mapped. */
  lemma MappedPages(s: Space, w: nat, words: seq<Word>, tracking: bool)
    requires s.Sized() && w < WADS && |words| == WAD
    ensures var a := MapWad(s, w, words, tracking).attrs;
      forall q: nat | q < PAGES ::
        if 8 * w <= q < 8 * w + 8 then AttributeByte(a[q]) == 64 | 16 | (if tracking then 0 else 32)
        else a[q] == s.attrs[q]
  {
    hide PutWords, AttributeByte, DefaultAttributes;
    NewPageExactly(false, true, tracking);
  }

  /** Loads `words` at `vma`. It gets stuck, mapping nothing at all, at a wad whose first page does not exist while
      another of its pages does. */
  function MapLoad(s: Space, vma: nat, words: seq<Word>, tracking: bool): (r: Loaded)
    requires s.Sized() && vma + |words| <= MEMORY
    ensures r.Done? ==> r.space.Sized()
    decreases |words|
  {
    if words == [] then Done(s)
    else if MustCopy(s, vma, |words|) then
      var n := CopySize(vma, |words|);
      MapLoad(CopyPart(s, vma, words[..n], tracking), vma + n, words[n..], tracking)
    else if s.WadCreated(vma / WAD) then Stuck
    else MapLoad(MapWad(s, vma / WAD, words[..WAD], tracking), vma + WAD, words[WAD..], tracking)
  }

  // ---------- Each part ----------

  /** The words of [vma, vma + n) are as given, and pages outside keep their attributes' existence and, if they exist,
      their words; all pages touched exist. */
  ghost predicate Loads(s: Space, t: Space, vma: nat, words: seq<Word>)
    requires s.Sized() && t.Sized() && vma + |words| <= MEMORY
  {
    && t.memory[vma..vma + |words|] == words
    && (forall a | vma <= a < vma + |words| :: t.Created(a / 8192))
    && (forall a | 0 <= a < MEMORY && !(vma <= a < vma + |words|) && s.Created(a / 8192) ::
          t.Created(a / 8192) && t.memory[a] == s.memory[a])
  }

  /** Pages wholly above `from` are as they were. */
  ghost predicate SameAbove(s: Space, t: Space, from: nat)
    requires s.Sized() && t.Sized()
  {
    forall q: nat | q < PAGES && from <= q * 8192 :: t.attrs[q] == s.attrs[q]
  }

  lemma {:induction false} CopyKeepsWads(s: Space, vma: nat, words: seq<Word>, tracking: bool)
    requires s.Valid() && vma < MEMORY && vma + |words| <= MEMORY
    ensures CopyPart(s, vma, words, tracking).Valid()
  {
    hide Ensure, PutWords, Space.WadCreated;
    var p := vma / 8192;
    EnsureKeepsWads(s, p, false, tracking);
    var e := Ensure(s, p, false, tracking);
    var t := CopyPart(s, vma, words, tracking);
    OwnWad(e, p);
    OwnWad(t, p);
    ChangeKeepsWads(e, t, p);
  }

  lemma {:induction false} MapKeepsWads(s: Space, w: nat, words: seq<Word>, tracking: bool)
    requires s.Valid() && w < WADS && |words| == WAD
    ensures MapWad(s, w, words, tracking).Valid()
  {
    hide PutWords;
    var t := MapWad(s, w, words, tracking);
    forall v: nat | v < WADS ensures v in t.mapped <==> t.WadCreated(v) {
      if v != w { SameWad(s, t, v); }
    }
  }

  lemma SameWad(s: Space, t: Space, v: nat)
    requires s.Sized() && t.Sized() && v < WADS
    requires forall q | 8 * v <= q < 8 * v + 8 :: s.attrs[q] == t.attrs[q]
    ensures s.WadCreated(v) == t.WadCreated(v)
  {
  }

  /** Loading keeps the wad invariant. */
  lemma {:induction false} LoadKeepsWads(s: Space, vma: nat, words: seq<Word>, tracking: bool)
    requires s.Sized() && s.Valid() && vma + |words| <= MEMORY
    ensures var r := MapLoad(s, vma, words, tracking); r.Done? ==> r.space.Valid()
    decreases |words|
  {
    hide CopyPart, MapWad, Space.Valid, Space.WadCreated;
    if words != [] {
      if MustCopy(s, vma, |words|) {
        var n := CopySize(vma, |words|);
        CopyKeepsWads(s, vma, words[..n], tracking);
        LoadKeepsWads(CopyPart(s, vma, words[..n], tracking), vma + n, words[n..], tracking);
      } else if !s.WadCreated(vma / WAD) {
        MapKeepsWads(s, vma / WAD, words[..WAD], tracking);
        LoadKeepsWads(MapWad(s, vma / WAD, words[..WAD], tracking), vma + WAD, words[WAD..], tracking);
      }
    }
  }

  lemma {:induction false} CopyLoads(s: Space, vma: nat, words: seq<Word>, tracking: bool)
    requires s.Sized() && vma + |words| <= MEMORY && 0 < |words| <= 8192 - vma % 8192
    ensures var t := CopyPart(s, vma, words, tracking);
      Loads(s, t, vma, words) && SameAbove(s, t, vma + |words|)
  {
    var p := vma / 8192;
    var e, t := Ensure(s, p, false, tracking), CopyPart(s, vma, words, tracking);
    forall a | vma <= a < vma + |words| ensures a / 8192 == p {
      SamePage(p, a);
    }
    forall a | 0 <= a < MEMORY && !(vma <= a < vma + |words|) && s.Created(a / 8192)
      ensures t.Created(a / 8192) && t.memory[a] == s.memory[a]
    {
      EnsureKeepsPage(s, p, false, tracking, a / 8192);
      assert e.memory[a] == s.memory[a];
    }
  }

  lemma SamePage(p: nat, a: nat)
    requires p * 8192 <= a < (p + 1) * 8192
    ensures a / 8192 == p
  {
  }

  lemma {:induction false} MapLoads(s: Space, w: nat, words: seq<Word>, tracking: bool)
    requires s.Sized() && w < WADS && |words| == WAD && !s.WadCreated(w)
    ensures var t := MapWad(s, w, words, tracking);
      Loads(s, t, w * WAD, words) && SameAbove(s, t, w * WAD + WAD)
  {
    hide Space.WadCreated;
    var t := MapWad(s, w, words, tracking);
    forall a: nat | a < MEMORY ensures w * WAD <= a < w * WAD + WAD <==> 8 * w <= a / 8192 < 8 * w + 8 {
      WadPages(w, a);
    }
    forall q | 8 * w <= q < 8 * w + 8 ensures t.Created(q) {
    }
  }

  lemma WadPages(w: nat, a: nat)
    ensures w * 65536 <= a < w * 65536 + 65536 <==> 8 * w <= a / 8192 < 8 * w + 8
  {
    assert a == 8192 * (a / 8192) + a % 8192;
  }

  /** Loading one part and then the rest loads both. */
  lemma {:induction false} LoadsTwice(s: Space, t: Space, u: Space, vma: nat, words: seq<Word>, n: nat)
    requires s.Sized() && t.Sized() && u.Sized() && vma + |words| <= MEMORY && n <= |words|
    requires Loads(s, t, vma, words[..n]) && Loads(t, u, vma + n, words[n..])
    ensures Loads(s, u, vma, words)
  {
    hide Space.Created;
    assert u.memory[vma..vma + n] == words[..n] by {
      forall a | vma <= a < vma + n ensures u.memory[a] == words[a - vma] {
        assert t.memory[vma..vma + n][a - vma] == words[..n][a - vma];
      }
    }
    assert u.memory[vma + n..vma + |words|] == words[n..];
    assert u.memory[vma..vma + |words|] == u.memory[vma..vma + n] + u.memory[vma + n..vma + |words|];
    assert words == words[..n] + words[n..];
  }

  /** Loading, when it gets to the end, leaves exactly the given words at [vma, vma + length), on pages that exist; all
      other words of pages that existed are unchanged. */
  lemma {:induction false} LoadCopies(s: Space, vma: nat, words: seq<Word>, tracking: bool)
    requires s.Sized() && vma + |words| <= MEMORY
    ensures var r := MapLoad(s, vma, words, tracking); r.Done? ==> Loads(s, r.space, vma, words)
    decreases |words|
  {
    hide CopyPart, MapWad, Loads, Space.WadCreated;
    if words == [] {
      LoadsNothing(s, vma);
    } else if MustCopy(s, vma, |words|) {
      var n := CopySize(vma, |words|);
      var t := CopyPart(s, vma, words[..n], tracking);
      CopyLoads(s, vma, words[..n], tracking);
      LoadCopies(t, vma + n, words[n..], tracking);
      var r := MapLoad(t, vma + n, words[n..], tracking);
      if r.Done? { LoadsTwice(s, t, r.space, vma, words, n); }
    } else if !s.WadCreated(vma / WAD) {
      var t := MapWad(s, vma / WAD, words[..WAD], tracking);
      MapLoads(s, vma / WAD, words[..WAD], tracking);
      LoadCopies(t, vma + WAD, words[WAD..], tracking);
      var r := MapLoad(t, vma + WAD, words[WAD..], tracking);
      if r.Done? { LoadsTwice(s, t, r.space, vma, words, WAD); }
    }
  }

  lemma LoadsNothing(s: Space, vma: nat)
    requires s.Sized() && vma <= MEMORY
    ensures Loads(s, s, vma, [])
  {
  }

  /** A wad that lies wholly in the range, and exists though its first page does not. */
  predicate Gap(s: Space, vma: nat, length: nat, w: nat)
    requires s.Sized() && w < WADS
  {
    vma <= w * WAD && w * WAD + WAD <= vma + length && !s.Created(8 * w) && s.WadCreated(w)
  }

  ghost predicate HasGap(s: Space, vma: nat, length: nat)
    requires s.Sized()
  {
    exists w: nat :: w < WADS && Gap(s, vma, length, w)
  }

  /** The pages above a part just loaded, and so the gaps there, are as they were. */
  lemma {:induction false} GapsAbove(s: Space, t: Space, vma: nat, length: nat, n: nat)
    requires s.Sized() && t.Sized() && n <= length && SameAbove(s, t, vma + n)
    ensures HasGap(t, vma + n, length - n) <==>
      exists w: nat :: w < WADS && vma + n <= w * WAD && Gap(s, vma, length, w)
  {
    forall w: nat | w < WADS && vma + n <= w * WAD
      ensures t.Created(8 * w) == s.Created(8 * w) && t.WadCreated(w) == s.WadCreated(w)
    {
      SameWad(s, t, w);
    }
    if HasGap(t, vma + n, length - n) {
      var w: nat :| w < WADS && Gap(t, vma + n, length - n, w);
      assert Gap(s, vma, length, w);
    }
    if w: nat :| w < WADS && vma + n <= w * WAD && Gap(s, vma, length, w) {
      assert Gap(t, vma + n, length - n, w);
    }
  }

  /** A copied part does not contain the start of a gap. */
  lemma {:induction false} NoGapCopied(s: Space, vma: nat, length: nat, w: nat)
    requires s.Sized() && vma < MEMORY && w < WADS && length > 0 && MustCopy(s, vma, length) && Gap(s, vma, length, w)
    ensures vma + CopySize(vma, length) <= w * WAD
  {
    hide Space.WadCreated;
    if vma == w * WAD {
      WadStart(w);
      assert false;
    } else {
      NextPage(vma, 8 * w);
    }
  }

  lemma WadStart(w: nat)
    ensures (w * 65536) % 65536 == 0 && (w * 65536) / 8192 == 8 * w
  {
    PageStart(8 * w);
    WadAligned(w);
  }

  lemma PageStart(p: nat)
    ensures (p * 8192) / 8192 == p
  {
  }

  lemma WadAligned(w: nat)
    ensures (w * 65536) % 65536 == 0
  {
  }

  lemma NextPage(vma: nat, p: nat)
    requires vma < p * 8192
    ensures vma + (8192 - vma % 8192) <= p * 8192
  {
    assert vma == 8192 * (vma / 8192) + vma % 8192;
  }

  /** Loading gets stuck exactly when the range contains a gap to begin with. */
  lemma {:induction false} StuckExactly(s: Space, vma: nat, words: seq<Word>, tracking: bool)
    requires s.Sized() && vma + |words| <= MEMORY
    ensures MapLoad(s, vma, words, tracking) == Stuck <==> HasGap(s, vma, |words|)
    decreases |words|, 1
  {
    hide CopyPart, MapWad, Loads, SameAbove, Gap, Space.WadCreated;
    if words == [] {
      NoGapInNothing(s, vma);
    } else if MustCopy(s, vma, |words|) {
      var n := CopySize(vma, |words|);
      var t := CopyPart(s, vma, words[..n], tracking);
      CopyLoads(s, vma, words[..n], tracking);
      StuckExactly(t, vma + n, words[n..], tracking);
      GapsAbove(s, t, vma, |words|, n);
      forall w: nat | w < WADS && Gap(s, vma, |words|, w) ensures vma + n <= w * WAD {
        NoGapCopied(s, vma, |words|, w);
      }
    } else {
      StuckAtWad(s, vma, words, tracking);
    }
  }

  lemma NoGapInNothing(s: Space, vma: nat)
    requires s.Sized()
    ensures !HasGap(s, vma, 0)
  {
  }

  lemma {:induction false} StuckAtWad(s: Space, vma: nat, words: seq<Word>, tracking: bool)
    requires s.Sized() && vma + |words| <= MEMORY && words != [] && !MustCopy(s, vma, |words|)
    ensures MapLoad(s, vma, words, tracking) == Stuck <==> HasGap(s, vma, |words|)
    decreases |words|, 0
  {
    hide CopyPart, MapWad, Loads, SameAbove, Space.WadCreated;
    var v := vma / WAD;
    WadOf(vma);
    WadStart(v);
    if s.WadCreated(v) {
      assert Gap(s, vma, |words|, v);
    } else {
      var t := MapWad(s, v, words[..WAD], tracking);
      MapLoads(s, v, words[..WAD], tracking);
      StuckExactly(t, vma + WAD, words[WAD..], tracking);
      GapsAbove(s, t, vma, |words|, WAD);
      forall w: nat | w < WADS && Gap(s, vma, |words|, w) ensures vma + WAD <= w * WAD {
        if w == v { assert false; }
      }
    }
  }

  lemma WadOf(vma: nat)
    requires vma % 65536 == 0
    ensures vma == (vma / 65536) * 65536
  {
  }
}
