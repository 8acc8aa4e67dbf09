/** Loading a world's entries into an address space of pages that come and go. */
module MappedWorlds {
  import opened Wrappers
  import opened TaggedMemory
  import opened Ivory
  import opened WorldBytes
  import opened Wads
  import opened MappedLoads
  import opened WorldMapper
  import opened SavedWorlds
  import LoadMaps
  import WorldFile
  import WorldHeader

  type Entry = LoadMaps.Entry

  const NULL_WORD := Word(0, 0xFFFF_FFFF)

  // ---------- What a space holds ----------

  /** The words of a space: wads that are not there hold null words, as they will when one of their pages is made. */
  function Seen(s: Space): (m: seq<Word>)
    requires s.Sized()
    ensures |m| == MEMORY
  {
    seq(MEMORY, a requires 0 <= a < MEMORY => if s.WadCreated(a / 65536) then s.memory[a] else NULL_WORD)
  }

  ghost function PagesThere(s: Space): set<nat>
    requires s.Sized()
  {
    set q: nat | q < PAGES && s.Created(q)
  }

  predicate InWad(w: nat, q: nat) { 8 * w <= q < 8 * w + 8 }

  /** The pages of a wad. */
  ghost function WadPageSet(w: nat): set<nat> { set q: nat | 8 * w <= q < 8 * w + 8 && InWad(w, q) }

  lemma WadOfPage(a: nat)
    requires a < MEMORY
    ensures a / 8192 < PAGES && a / 65536 < WADS && a / 8192 / 8 == a / 65536
  {
  }

  /** Making a page changes no word that is seen. */
  lemma {:induction false} EnsureSeen(s: Space, p: nat, tracking: bool)
    requires s.Sized() && p < PAGES
    ensures Seen(Ensure(s, p, false, tracking)) == Seen(s)
    ensures PagesThere(Ensure(s, p, false, tracking)) == PagesThere(s) + {p}
  {
    hide Space.WadCreated;
    var t := Ensure(s, p, false, tracking);
    OwnWad(t, p);
    if s.Created(p) { OwnWad(s, p); }
    forall a: nat | a < MEMORY ensures Seen(t)[a] == Seen(s)[a] {
      var w := a / 65536;
      if w != p / 8 { OtherWad(s, t, p, w); }
      assert w * 65536 <= a < (w + 1) * 65536;
      assert w != p / 8 ==> !(p / 8 * 65536 <= a < (p / 8 + 1) * 65536);
    }
  }

  /** A copied part is seen where it was copied to. */
  lemma {:induction false} CopySeen(s: Space, vma: nat, words: seq<Word>, tracking: bool)
    requires s.Sized() && vma + |words| <= MEMORY && 0 < |words| <= 8192 - vma % 8192
    ensures Seen(CopyPart(s, vma, words, tracking)) == PutWords(Seen(s), vma, words)
    ensures PagesThere(CopyPart(s, vma, words, tracking)) == PagesThere(s) + {vma / 8192}
  {
    hide Space.WadCreated, Ensure;
    var p := vma / 8192;
    EnsureSeen(s, p, tracking);
    var e, t := Ensure(s, p, false, tracking), CopyPart(s, vma, words, tracking);
    assert p in PagesThere(e);
    OwnWad(e, p);
    OwnWad(t, p);
    forall a: nat | a < MEMORY ensures Seen(t)[a] == PutWords(Seen(e), vma, words)[a] {
      var w := a / 65536;
      WadOfPage(a);
      if w != p / 8 { OtherWad(e, t, p, w); }
      if vma <= a < vma + |words| { SamePage(p, a); }
    }
    assert forall q: nat | q < PAGES :: t.Created(q) == e.Created(q);
  }

  lemma {:induction false} MapSeen(s: Space, w: nat, words: seq<Word>, tracking: bool)
    requires s.Sized() && w < WADS && |words| == WAD && !s.WadCreated(w)
    ensures Seen(MapWad(s, w, words, tracking)) == PutWords(Seen(s), w * WAD, words)
    ensures PagesThere(MapWad(s, w, words, tracking)) == PagesThere(s) + WadPageSet(w)
  {
    var t := MapWad(s, w, words, tracking);
    forall a: nat | a < MEMORY ensures Seen(t)[a] == PutWords(Seen(s), w * WAD, words)[a] {
      var v := a / 65536;
      assert v * 65536 <= a < (v + 1) * 65536;
      if v != w { SameWad(s, t, v); }
    }
  }

  lemma PutTwice(m: seq<Word>, vma: nat, words: seq<Word>, n: nat)
    requires vma + |words| <= |m| && n <= |words|
    ensures PutWords(PutWords(m, vma, words[..n]), vma + n, words[n..]) == PutWords(m, vma, words)
  {
    assert words[..n] + words[n..] == words;
  }

  /** The pages that a range of words is on. */
  ghost function RangeOf(vma: nat, n: nat): set<nat> { set q: nat | q < PAGES && Meets(vma, n, q) }

  lemma RangeSplit(vma: nat, n: nat, m: nat)
    requires n > 0 && vma + n + m <= MEMORY
    ensures RangeOf(vma, n + m) == RangeOf(vma, n) + RangeOf(vma + n, m)
  {
  }

  lemma RangeInPage(vma: nat, n: nat)
    requires 0 < n <= 8192 - vma % 8192 && vma < MEMORY
    ensures RangeOf(vma, n) == {vma / 8192}
  {
    forall q: nat | q < PAGES ensures Meets(vma, n, q) <==> q == vma / 8192 {
    }
  }

  lemma RangeOfWad(w: nat)
    requires w < WADS
    ensures RangeOf(w * 65536, 65536) == WadPageSet(w)
  {
    forall q: nat | q < PAGES ensures Meets(w * 65536, 65536, q) <==> 8 * w <= q < 8 * w + 8 {
    }
  }

  /** Loading, when it gets to the end, puts the words in place and nothing else, on exactly the pages of the range. */
  lemma {:induction false} LoadSeen(s: Space, vma: nat, words: seq<Word>, tracking: bool)
    requires s.Sized() && vma + |words| <= MEMORY
    ensures var r := MapLoad(s, vma, words, tracking);
      r.Done? ==>
        Seen(r.space) == PutWords(Seen(s), vma, words) && PagesThere(r.space) == PagesThere(s) + RangeOf(vma, |words|)
    decreases |words|
  {
    hide CopyPart, MapWad, Seen, PutWords, PagesThere, RangeOf, Space.WadCreated;
    if words == [] {
      NothingSeen(s, vma);
    } else if MustCopy(s, vma, |words|) {
      var n := CopySize(vma, |words|);
      CopySeen(s, vma, words[..n], tracking);
      LoadSeen(CopyPart(s, vma, words[..n], tracking), vma + n, words[n..], tracking);
      PutTwice(Seen(s), vma, words, n);
      RangeSplit(vma, n, |words| - n);
      RangeInPage(vma, n);
    } else if !s.WadCreated(vma / WAD) {
      WadOf(vma);
      MapSeen(s, vma / WAD, words[..WAD], tracking);
      LoadSeen(MapWad(s, vma / WAD, words[..WAD], tracking), vma + WAD, words[WAD..], tracking);
      PutTwice(Seen(s), vma, words, WAD);
      RangeSplit(vma, WAD, |words| - WAD);
      RangeOfWad(vma / WAD);
    }
  }

  lemma NothingSeen(s: Space, vma: nat)
    requires s.Sized() && vma <= MEMORY
    ensures PutWords(Seen(s), vma, []) == Seen(s) && PagesThere(s) == PagesThere(s) + RangeOf(vma, 0)
  {
  }

  // ---------- Entries ----------

  /** Makes the `n` pages from `p` on. */
  function EnsureRange(s: Space, p: nat, n: nat, tracking: bool): (r: Space)
    requires s.Sized() && p < PAGES
    ensures r.Sized()
    decreases n
  {
    if n == 0 then s else EnsureRange(Ensure(s, p, false, tracking), FollowingPage(p), n - 1, tracking)
  }

  lemma {:induction false} EnsureRangeSeen(s: Space, p: nat, n: nat, tracking: bool)
    requires s.Sized() && p < PAGES && n <= PAGES
    ensures Seen(EnsureRange(s, p, n, tracking)) == Seen(s)
    ensures PagesThere(EnsureRange(s, p, n, tracking)) == PagesThere(s) + RunOf(p, n)
    decreases n
  {
    hide Ensure, Seen, PagesThere;
    if n > 0 {
      EnsureSeen(s, p, tracking);
      EnsureRangeSeen(Ensure(s, p, false, tracking), FollowingPage(p), n - 1, tracking);
    }
  }

  ghost function RunOf(p: nat, n: nat): set<nat> { set q: nat | q < PAGES && InRun(p, n, q) }

  /** An entry of file pages in the host's byte order: its words are mapped or copied. */
  predicate Mapped(images: seq<Image>, e: Entry)
    requires Loadable(images, e)
  {
    e.opcode == LoadMaps.DataPages && !images[e.world].swapped
  }

  /** An entry that can be loaded, in memory, with a count of 24 bits. */
  predicate Fits(images: seq<Image>, e: Entry) {
    Loadable(images, e) && e.address < MEMORY && LoadMaps.End(e) <= MEMORY && e.count < 0x100_0000
  }

  /** Loads one entry: pages in the host's byte order are mapped, other words stored on pages made for them. */
  function LoadInto(order: Order, images: seq<Image>, s: Space, e: Entry, tracking: bool): (r: Loaded)
    requires s.Sized() && Fits(images, e)
    ensures r.Done? ==> r.space.Sized()
  {
    if Mapped(images, e) then MapLoad(s, e.address, EntryWords(order, images, e), tracking)
    else
      var t := EnsureRange(s, e.address / 8192, RangePages(e.address, e.count), tracking);
      Done(t.(memory := LoadMapData(order, images, t.memory, e)))
  }

  /** The pages that loading an entry makes. */
  ghost function PagesMade(images: seq<Image>, e: Entry): set<nat>
    requires Fits(images, e)
  {
    if Mapped(images, e) then RangeOf(e.address, e.count)
    else RunOf(e.address / 8192, RangePages(e.address, e.count))
  }

  lemma {:induction false} EntrySeen(order: Order, images: seq<Image>, s: Space, e: Entry, tracking: bool)
    requires s.Sized() && Fits(images, e)
    ensures var r := LoadInto(order, images, s, e, tracking);
      r.Done? ==>
        && Seen(r.space) == LoadMapData(order, images, Seen(s), e)
        && PagesThere(r.space) == PagesThere(s) + PagesMade(images, e)
  {
    hide Seen, PagesThere, MapLoad, EnsureRange, EntryWords, RangeOf, RunOf;
    if Mapped(images, e) {
      LoadSeen(s, e.address, EntryWords(order, images, e), tracking);
      PutIsLoad(order, images, Seen(s), e);
    } else {
      StoredSeen(order, images, s, e, tracking);
    }
  }

  lemma {:induction false} PutIsLoad(order: Order, images: seq<Image>, m: seq<Word>, e: Entry)
    requires |m| == MEMORY && Fits(images, e) && Mapped(images, e)
    ensures PutWords(m, e.address, EntryWords(order, images, e)) == LoadMapData(order, images, m, e)
  {
    hide EntryWords, Resolve, Resolvable, LoadMaps.SourceAt;
    var words := EntryWords(order, images, e);
    forall a: nat | a < MEMORY ensures PutWords(m, e.address, words)[a] == LoadMapData(order, images, m, e)[a] {
      if LoadMaps.Covers(e, a) { EntryWordsAre(order, images, e, a); }
    }
  }

  /** Words stored on pages that are there. */
  lemma {:induction false} StoredSeen(order: Order, images: seq<Image>, s: Space, e: Entry, tracking: bool)
    requires s.Sized() && Fits(images, e) && !Mapped(images, e)
    ensures var r := LoadInto(order, images, s, e, tracking).space;
      Seen(r) == LoadMapData(order, images, Seen(s), e) && PagesThere(r) == PagesThere(s) + PagesMade(images, e)
  {
    hide EnsureRange, Resolve, Resolvable, LoadMaps.SourceAt, Short, Space.WadCreated;
    var p, n := e.address / 8192, RangePages(e.address, e.count);
    assert n <= PAGES;
    EnsureRangeSeen(s, p, n, tracking);
    var t := EnsureRange(s, p, n, tracking);
    var r := t.(memory := LoadMapData(order, images, t.memory, e));
    assert forall w: nat | w < WADS :: r.WadCreated(w) == t.WadCreated(w) by {
      forall w: nat | w < WADS ensures r.WadCreated(w) == t.WadCreated(w) { SameWad(t, r, w); }
    }
    forall a: nat | a < MEMORY ensures Seen(r)[a] == LoadMapData(order, images, Seen(t), e)[a] {
      WadOfPage(a);
      if LoadMaps.Covers(e, a) {
        CoveredPage(e, a);
        assert a / 8192 in PagesThere(t);
        OwnWad(t, a / 8192);
      }
    }
    assert PagesThere(r) == PagesThere(t);
  }

  /** Each page of an entry is in the run of pages made for it. */
  lemma CoveredPage(e: Entry, a: nat)
    requires LoadMaps.Covers(e, a) && LoadMaps.End(e) <= MEMORY && e.count < 0x100_0000
    ensures InRun(e.address / 8192, RangePages(e.address, e.count), a / 8192)
  {
  }

  // ---------- Whole maps ----------

  function LoadAll(order: Order, images: seq<Image>, s: Space, es: seq<Entry>, tracking: bool): (r: Loaded)
    requires s.Sized() && forall e :: e in es ==> Fits(images, e)
    ensures r.Done? ==> r.space.Sized()
    decreases |es|
  {
    if es == [] then Done(s)
    else
      assert es[0] in es;
      match LoadInto(order, images, s, es[0], tracking)
      case Stuck => Stuck
      case Done(t) => LoadAll(order, images, t, es[1..], tracking)
  }

  /** A wad lies wholly in the range, and one of its pages is there, but not its first. */
  ghost predicate GapAmong(pages: set<nat>, vma: nat, length: nat, w: nat) {
    vma <= w * 65536 && w * 65536 + 65536 <= vma + length && 8 * w !in pages &&
    exists q :: q in pages && 8 * w <= q < 8 * w + 8
  }

  /** Some entry that is mapped meets a gap among the pages there when its turn comes. */
  ghost predicate Blocked(images: seq<Image>, pages: set<nat>, es: seq<Entry>)
    requires forall e :: e in es ==> Fits(images, e)
    decreases |es|
  {
    es != [] &&
    var e := es[0];
    assert e in es && Fits(images, e);
    || (Mapped(images, e) && exists w: nat :: w < WADS && GapAmong(pages, e.address, e.count, w))
    || Blocked(images, pages + PagesMade(images, e), es[1..])
  }

  lemma {:induction false} GapIsAmong(s: Space, vma: nat, length: nat)
    requires s.Sized()
    ensures HasGap(s, vma, length) <==> exists w: nat :: w < WADS && GapAmong(PagesThere(s), vma, length, w)
  {
    forall w: nat | w < WADS ensures Gap(s, vma, length, w) <==> GapAmong(PagesThere(s), vma, length, w) {
      GapOfWad(s, vma, length, w);
    }
  }

  lemma GapOfWad(s: Space, vma: nat, length: nat, w: nat)
    requires s.Sized() && w < WADS
    ensures Gap(s, vma, length, w) <==> GapAmong(PagesThere(s), vma, length, w)
  {
    var pages := PagesThere(s);
    assert s.WadCreated(w) <==> exists q :: q in pages && 8 * w <= q < 8 * w + 8 by {
      if s.WadCreated(w) {
        var k: nat :| k < 8 && s.Created(8 * w + k);
        assert 8 * w + k in pages;
      }
    }
  }

  /** Loading a map into a space gets stuck exactly when a mapped entry meets a gap; otherwise what is seen afterwards
      is what loading the map into what was seen before gives. */
  lemma {:induction false} LoadAllExactly(order: Order, images: seq<Image>, s: Space, es: seq<Entry>, tracking: bool)
    requires s.Sized() && forall e :: e in es ==> Fits(images, e)
    ensures LoadAll(order, images, s, es, tracking) == Stuck <==> Blocked(images, PagesThere(s), es)
    ensures var r := LoadAll(order, images, s, es, tracking);
      r.Done? ==> Seen(r.space) == LoadWorld(order, images, Seen(s), es)
    decreases |es|
  {
    hide Fits, Mapped, Seen, PagesThere, LoadMapData, GapAmong, PagesMade, MapLoad;
    if es != [] {
      var e := es[0];
      assert e in es;
      EntryStuck(order, images, s, e, tracking);
      EntrySeen(order, images, s, e, tracking);
      var r := LoadInto(order, images, s, e, tracking);
      if r.Done? { LoadAllExactly(order, images, r.space, es[1..], tracking); }
    }
  }

  lemma {:induction false} EntryStuck(order: Order, images: seq<Image>, s: Space, e: Entry, tracking: bool)
    requires s.Sized() && Fits(images, e)
    ensures LoadInto(order, images, s, e, tracking) == Stuck <==>
      Mapped(images, e) && exists w: nat :: w < WADS && GapAmong(PagesThere(s), e.address, e.count, w)
  {
    hide EntryWords, HasGap, GapAmong, EnsureRange, MapLoad, PagesThere;
    if Mapped(images, e) {
      StuckExactly(s, e.address, EntryWords(order, images, e), tracking);
      GapIsAmong(s, e.address, e.count);
    }
  }

  // ---------- Saving and mapping ----------

  /** The image of a file that was opened. */
  function ImageOf(file: seq<Byte>, world: WorldHeader.World): Image { Image(file, world.byteSwapped, world.bases) }

  /** Saving any request, opening the file and loading it into any space of pages: it gets stuck if and only if a page
      entry in the host's order meets a gap; and when it does not, what is seen is restored if and only if the
      conditions of loading hold for what was seen before. */
  lemma {:induction false} SaveThenMapExactly(order: Order, memory: seq<Word>, request: seq<Entry>, sysout: seq<Word>,
                                              s: Space, tracking: bool) returns (r: Loaded)
    requires WorldFile.Requestable(memory, request) && |sysout| == 5 && s.Sized()
    requires SaveRequest(order, memory, request, sysout).Some?
    ensures var file := SaveRequest(order, memory, request, sysout).value;
      var world := WorldHeader.OpenWorldFile(order, file);
      && world.Some?
      && var images, wired := [ImageOf(file, world.value)], world.value.wired;
      && (forall e :: e in wired ==> Fits(images, e)) && r == LoadAll(order, images, s, wired, tracking)
      && (r == Stuck <==> Blocked(images, PagesThere(s), wired))
    ensures var es := WorldFile.Truncated(request);
      r.Done? ==>
        r.space.Sized() &&
        (Restored(request, memory, Seen(s), Seen(r.space)) <==>
          && ComesBack(order, memory, es, Seen(s))
          && forall a: nat | a < MEMORY && LoadMaps.Covered(request, a) && !LoadMaps.Covered(es, a) ::
               Seen(s)[a] == memory[a])
  {
    hide Seen, PagesThere, LoadWorld, LoadAll, Blocked, Restored, ComesBack, WorldHeader.OpenWorldFile, SaveWorld;
    hide WorldFile.Truncated, WorldFile.Canonical, WorldFile.Savable, HeaderFits, Loadable;
    var es := WorldFile.Truncated(request);
    WorldFile.TruncatedIsSavable(memory, request);
    var after := SaveThenLoadExactly(order, memory, request, sysout, Seen(s));
    SaveThenLoad(order, memory, es, sysout, Seen(s));
    var file := SaveRequest(order, memory, request, sysout).value;
    var world := WorldHeader.OpenWorldFile(order, file).value;
    var images := [ImageOf(file, world)];
    SaveFits(memory, es);
    forall e | e in world.wired ensures Fits(images, e) {
      PlacedEntry(memory, world.wired, 0, WorldFile.PagesGiven(es), e);
    }
    r := LoadAll(order, images, s, world.wired, tracking);
    LoadAllExactly(order, images, s, world.wired, tracking);
  }
}
