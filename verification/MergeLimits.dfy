/** Where the merge falls short of "the newest generation wins", and exactly when it does not. */
module MergeLimits {
  import opened Wrappers
  import opened LoadMaps
  import opened MergeWinners

  /** An entry that lies in memory. */
  predicate InMemory(e: Entry) { e.address < 0x1_0000_0000 && End(e) <= 0x1_0000_0000 }

  /** The piece kept above `f` covers exactly the background's addresses from the end of `f` on if and only if `f`
      ends on a page boundary; otherwise the slop is subtracted from the wrong side. */
  lemma {:induction false} TrimExactlyAtBoundaries(ps: PageSize, b: Entry, f: Entry)
    requires b.opcode.DataPages? && OffsetOf(ps, b.address) == 0 && b.datum + PageOf(ps, b.count) < 0x1_0000_0000
    requires InMemory(b) && InMemory(f) && b.address < Stop(f) < Stop(b)
    ensures (TrimAbove(ps, b, f).Some? &&
             forall a: nat | a >= End(f) :: Covers(TrimAbove(ps, b, f).value, a) <==> Covers(b, a))
            <==> OffsetOf(ps, End(f)) == 0
  {
    if OffsetOf(ps, End(f)) == 0 {
      TrimIsSuffix(ps, b, f);
    } else {
      assert Covers(b, End(f));
      if TrimAbove(ps, b, f).Some? { UncleanTrim(ps, b, f); }
    }
  }

  /** Off a page boundary, the piece kept above `f` does not start where `f` ends. */
  lemma {:induction false} UncleanTrim(ps: PageSize, b: Entry, f: Entry)
    requires InMemory(b) && InMemory(f) && b.address < Stop(f) < Stop(b) && OffsetOf(ps, End(f)) != 0
    requires TrimAbove(ps, b, f).Some?
    ensures !Covers(TrimAbove(ps, b, f).value, End(f)) && TrimAbove(ps, b, f).value.opcode == b.opcode
  {
    hide PageOf;
    NextBoundary(ps, Stop(f));
    var t := TrimAbove(ps, b, f).value;
    assert t.count < 0x100_0000;
  }

  ghost predicate Overlap(f: Entry, b: Entry) { f.address < End(b) && b.address < End(f) && f.count > 0 && b.count > 0 }

  /** When one page entry over another is merged right: away from the end of memory, if the upper one does not end
      strictly inside the other off a page boundary; at the end of memory, where ends are computed as 0, if they do not
      overlap, or the lower one starts first, or the lower one alone ends there and does not start inside the other. */
  ghost predicate MergedRight(ps: PageSize, f: Entry, b: Entry) {
    if End(f) == 0x1_0000_0000 then !Overlap(f, b) || (End(b) == 0x1_0000_0000 && b.address < f.address)
    else if End(b) == 0x1_0000_0000 then !(f.address <= b.address < End(f))
    else b.address < End(f) < End(b) ==> OffsetOf(ps, End(f)) == 0
  }

  /** The merged map of the pair is foreground over background. */
  ghost predicate PairOverlaid(ps: PageSize, f: Entry, b: Entry) {
    Merge(ps, [f], [b], false).Map? &&
    forall a: nat :: Denote(ps, Merge(ps, [f], [b], false).entries, a) ==
      if Covers(f, a) then Some(SourceAt(ps, f, a)) else if Covers(b, a) then Some(SourceAt(ps, b, a)) else None
  }

  /** A child's page entry merged over a parent's: the merged map is foreground over background at every address if and
      only if the condition above holds. */
  lemma {:induction false} PairMergeExactly(ps: PageSize, f: Entry, b: Entry)
    requires f.opcode.DataPages? && b.opcode.DataPages? && f.world != b.world && InMemory(f) && InMemory(b)
    requires OffsetOf(ps, b.address) == 0 && b.datum + PageOf(ps, b.count) < 0x1_0000_0000
    ensures PairOverlaid(ps, f, b) <==> MergedRight(ps, f, b)
  {
    hide Merge, PairOverlaid;
    if End(f) < 0x1_0000_0000 && End(b) < 0x1_0000_0000 {
      LowPair(ps, f, b);
    } else if Skipped(b, f) {
      PairIs(ps, f, b, [b, f]);
    } else if End(f) == 0x1_0000_0000 {
      PairIs(ps, f, b, Lower(f, [b]) + [f, b]);
    } else if b.address >= End(f) {
      PairIs(ps, f, b, [f, b]);
    } else {
      PairIs(ps, f, b, [f]);
    }
  }

  /** The merge of a pair at the end of memory, and whether it is right. */
  lemma {:induction false} PairIs(ps: PageSize, f: Entry, b: Entry, m: seq<Entry>)
    requires f.opcode.DataPages? && b.opcode.DataPages? && f.world != b.world && InMemory(f) && InMemory(b)
    requires End(f) == 0x1_0000_0000 || End(b) == 0x1_0000_0000
    requires m == if Skipped(b, f) then [b, f] else if End(f) == 0x1_0000_0000 then Lower(f, [b]) + [f, b]
      else if b.address >= End(f) then [f, b] else [f]
    ensures PairOverlaid(ps, f, b) <==> MergedRight(ps, f, b)
  {
    hide Denote, Merge;
    PairMerged(ps, f, b, m);
    forall a: nat ensures Denote(ps, m, a) == Last(ps, m, a) { LastDenotes(ps, m, a); }
    if m == [f] {
      assert Covers(b, End(f)) && !Covers(f, End(f));
    } else if !Skipped(b, f) && Overlap(f, b) {
      var a := if b.address < f.address then f.address else b.address;
      assert Covers(f, a) && Covers(b, a);
    }
  }

  lemma PairMerged(ps: PageSize, f: Entry, b: Entry, m: seq<Entry>)
    requires f.opcode.DataPages? && b.opcode.DataPages? && InMemory(f) && InMemory(b)
    requires End(f) == 0x1_0000_0000 || End(b) == 0x1_0000_0000
    requires m == if Skipped(b, f) then [b, f] else if End(f) == 0x1_0000_0000 then Lower(f, [b]) + [f, b]
      else if b.address >= End(f) then [f, b] else [f]
    ensures Merge(ps, [f], [b], false) == Map(m)
  {
    hide Merge, Cut;
    var lower := Lower(f, [b]);
    assert lower + [f] + [b] == lower + [f, b] && [] + [f, b] == [f, b];
    assert [f] + [] == [f] && [b] + [f] == [b, f] && [f] + [b] == [f, b];
    MergeOfPair(ps, f, b);
  }

  lemma MergeOfPair(ps: PageSize, f: Entry, b: Entry)
    requires f.opcode.DataPages? && b.opcode.DataPages?
    ensures Merge(ps, [f], [b], false) ==
      if Skipped(b, f) then Merge(ps, [f], [], false).After([b]) else Cut(ps, [f], [b]).After(Lower(f, [b]) + [f])
    ensures Merge(ps, [f], [], false) == Map([f])
    ensures b.address >= Stop(f) ==> Cut(ps, [f], [b]) == Map([b])
    ensures b.address < Stop(f) && Stop(b) <= Stop(f) ==> Cut(ps, [f], [b]) == Map([])
  {
    assert [f][1..] == [] && [b][1..] == [] && [] + [f] == [f];
    assert Merge(ps, [], [], false) == Map([]) && Merge(ps, [], [b], false) == Map([b]);
    assert [f] + [] == [f];
  }

  /** The last of up to three entries that covers an address. */
  function Last(ps: PageSize, s: seq<Entry>, a: nat): Option<Source>
    requires 0 < |s| <= 3
  {
    if Covers(s[|s| - 1], a) then Some(SourceAt(ps, s[|s| - 1], a))
    else if |s| > 1 && Covers(s[|s| - 2], a) then Some(SourceAt(ps, s[|s| - 2], a))
    else if |s| > 2 && Covers(s[0], a) then Some(SourceAt(ps, s[0], a))
    else None
  }

  lemma LastDenotes(ps: PageSize, s: seq<Entry>, a: nat)
    requires 0 < |s| <= 3
    ensures Denote(ps, s, a) == Last(ps, s, a)
  {
    hide Denote;
    var n := |s|;
    assert s == s[..n - 1] + [s[n - 1]];
    DenoteAppend(ps, s[..n - 1], [s[n - 1]], a);
    DenoteOne(ps, s[n - 1], a);
    if n > 1 {
      assert s[..n - 1] == s[..n - 2] + [s[n - 2]];
      DenoteAppend(ps, s[..n - 2], [s[n - 2]], a);
      DenoteOne(ps, s[n - 2], a);
    }
    if n > 2 {
      assert s[..1] == [s[0]];
      DenoteOne(ps, s[0], a);
    }
    DenoteNone(ps, [], a);
    assert s[..0] == [];
  }

  lemma DenoteOne(ps: PageSize, e: Entry, a: nat)
    ensures Denote(ps, [e], a) == if Covers(e, a) then Some(SourceAt(ps, e, a)) else None
  {
    assert [e][1..] == [];
    assert Denote(ps, [], a) == None;
  }

  /** A pair below the last page. */
  lemma {:induction false} LowPair(ps: PageSize, f: Entry, b: Entry)
    requires f.opcode.DataPages? && b.opcode.DataPages?
    requires OffsetOf(ps, b.address) == 0 && b.datum + PageOf(ps, b.count) < 0x1_0000_0000
    requires End(f) < 0x1_0000_0000 && End(b) < 0x1_0000_0000
    ensures PairOverlaid(ps, f, b) <==> (b.address < End(f) < End(b) ==> OffsetOf(ps, End(f)) == 0)
  {
    hide Denote;
    var m := Merge(ps, [f], [b], false);
    forall a: nat ensures Denote(ps, [f], a) == (if Covers(f, a) then Some(SourceAt(ps, f, a)) else None) {
      DenoteOne(ps, f, a);
    }
    forall a: nat ensures Denote(ps, [b], a) == (if Covers(b, a) then Some(SourceAt(ps, b, a)) else None) {
      DenoteOne(ps, b, a);
    }
    if b.address < End(f) < End(b) ==> OffsetOf(ps, End(f)) == 0 {
      assert Mergeable(ps, [f], [b]);
      NewestOverPages(ps, [f], [b], 0);
      forall a: nat
        ensures m.Map? && Denote(ps, m.entries, a) == if Covers(f, a) then Denote(ps, [f], a) else Denote(ps, [b], a)
      {
        NewestOverPages(ps, [f], [b], a);
        CoveredTail([f], a);
      }
    } else if TrimAbove(ps, b, f).None? {
      assert Cut(ps, [f], [b]) == Punt;
      assert m == Cut(ps, [f], [b]).After(Lower(f, [b]) + [f]);
    } else {
      UncleanPair(ps, f, b);
    }
  }

  /** The piece kept above `f` has lost the address where `f` ends. */
  lemma {:induction false} UncleanPair(ps: PageSize, f: Entry, b: Entry)
    requires f.opcode.DataPages? && b.opcode.DataPages? && InMemory(f) && InMemory(b)
    requires b.address < Stop(f) < Stop(b) && OffsetOf(ps, End(f)) != 0 && TrimAbove(ps, b, f).Some?
    ensures Covers(b, End(f)) && !Covers(f, End(f))
    ensures var m := Merge(ps, [f], [b], false); m.Map? ==> Denote(ps, m.entries, End(f)) == None
  {
    hide TrimAbove, OffsetOf, Denote;
    var t := TrimAbove(ps, b, f).value;
    UncleanTrim(ps, b, f);
    TrimWraps(ps, [b], f);
    var front := Lower(f, [b]) + [f];
    assert [b][0 := t] == [t] && [f][1..] == [];
    assert Merge(ps, [f], [b], false) == Cut(ps, [f], [b]).After(front);
    if t.address >= Stop(f) {
      assert Cut(ps, [f], [b]) == Map([t]);
      LastDenotes(ps, front + [t], End(f));
    } else {
      WrappedRest(ps, f, t, End(f));
      var rest := Merge(ps, [f], [t], true).entries;
      DenoteAppend(ps, front, rest, End(f));
      LastDenotes(ps, front, End(f));
    }
  }

  /** What becomes of an entry that was moved around the end of memory. */
  lemma {:induction false} WrappedRest(ps: PageSize, f: Entry, t: Entry, a: nat)
    requires f.opcode.DataPages? && InMemory(f) && t.address == 0 && t.count < 0x100_0000 && t.opcode.DataPages?
    requires Stop(f) > 0x100_0000 && a == End(f)
    ensures var m := Merge(ps, [f], [t], true); m.Map? && Denote(ps, m.entries, a) == None
  {
    assert [f][1..] == [] && [t][1..] == [] && Merge(ps, [], [], false) == Map([]);
    assert Merge(ps, [f], [], true) == Map([] + []);
    DenoteOne(ps, t, a);
    if Skipped(t, f) {
      assert [t] + ([] + []) == [t];
    } else {
      var lower := Lower(f, [t]);
      assert Cut(ps, [f], [t]) == Map([]);
      assert Merge(ps, [f], [t], true) == Map(lower + []) && lower + [] == lower;
      if lower != [] { DenoteOne(ps, lower[0], a); }
    }
  }

  /** A child's page and its parent's at the end of memory: the parent's is emitted last, and wins. */
  lemma LastPageParentWins(f: Entry, b: Entry)
    requires f == Entry(0xFFFF_E000, DataPages, 8192, 0, 0, 1) && b == f.(world := 0)
    ensures Merge(8192, [f], [b], false) == Map([f, b])
    ensures Denote(8192, [f, b], 0xFFFF_E000) == Some(FileWord(0, 0, 0))
  {
    MergeOfPair(8192, f, b);
    assert Lower(f, [b]) + [f] == [f] && [f] + [b] == [f, b];
    LastDenotes(8192, [f, b], 0xFFFF_E000);
  }

  /** What an address gets when the newer map lies over the older one. */
  function Overlay(ps: PageSize, fg: seq<Entry>, bg: seq<Entry>, a: nat): Option<Source> {
    if Denote(ps, fg, a).Some? then Denote(ps, fg, a) else Denote(ps, bg, a)
  }

  /** Merging a newer world's data pages over older worlds' maps, of any length and with special entries anywhere in
      them, lays them over at every address if and only if nothing shadows any of them. */
  lemma {:induction false} OverlayExactly(ps: PageSize, fg: seq<Entry>, bg: seq<Entry>)
    requires Mergeable(ps, fg, bg)
    requires forall f :: f in fg ==> f.opcode.DataPages? && forall b :: b in bg ==> f.world != b.world
    ensures var m := Merge(ps, fg, bg, false);
      m.Map? &&
      ((forall a: nat :: Denote(ps, m.entries, a) == Overlay(ps, fg, bg, a)) <==>
       forall a: nat :: Covered(fg, a) ==> Wins(ps, fg, bg, a))
  {
    hide Merge, Wins, Mergeable, Denote, Covered;
    forall a: nat
      ensures var m := Merge(ps, fg, bg, false);
        m.Map? &&
        (Denote(ps, m.entries, a) == Overlay(ps, fg, bg, a) <==> (Covered(fg, a) ==> Wins(ps, fg, bg, a)))
    {
      ElsewhereKept(ps, fg, bg, false, a);
      DenoteNone(ps, fg, a);
      if Covered(fg, a) {
        var f := Decides(ps, fg, a);
        NewestWordExactly(ps, fg, bg, a, f.world);
      }
    }
    assert Merge(ps, fg, bg, false).Map? by { ElsewhereKept(ps, fg, bg, false, 0); }
  }

  /** The entry that decides at an address. */
  lemma {:induction false} Decides(ps: PageSize, s: seq<Entry>, a: nat) returns (e: Entry)
    requires Covered(s, a)
    ensures e in s && Covers(e, a) && Denote(ps, s, a) == Some(SourceAt(ps, e, a))
  {
    CoveredTail(s, a);
    DenoteNone(ps, s[1..], a);
    if Covered(s[1..], a) { e := Decides(ps, s[1..], a); } else { e := s[0]; }
  }

  /** Clean cuts are needed for one entry over another, but not in general: when the first of two newer entries ends
      half way through a page, the pages kept above it are right again, and the other covers what they lose. */
  lemma {:induction false} UncleanCutCanBeRight(first: Entry, second: Entry, b: Entry, kept: Entry)
    requires first == Entry(0, DataPages, 4096, 0, 0, 1) && second == Entry(4096, DataPages, 4096, 0, 7, 1)
    requires b == Entry(0, DataPages, 16384, 0, 0, 0) && kept == Entry(8192, DataPages, 8192, 0, 1, 0)
    ensures !CleanCuts(8192, [first, second], [b])
    ensures Merge(8192, [first, second], [b], false) == Map([first, second, kept])
    ensures forall a: nat :: Denote(8192, [first, second, kept], a) == Overlay(8192, [first, second], [b], a)
  {
    assert b.address < End([first, second][0]) < End([b][0]);
    assert TrimAbove(8192, b, first) == Some(kept);
    assert [b][0 := kept] == [kept] && [first, second][1..] == [second] && [second][1..] == [];
    assert Merge(8192, [second], [kept], false) == Map([second, kept]) by {
      assert Merge(8192, [], [kept], false) == Map([kept]);
      assert Lower(second, [kept]) + [second] == [second] && [second] + [kept] == [second, kept];
    }
    assert Lower(first, [b]) + [first] == [first] && [first] + [second, kept] == [first, second, kept];
    assert Merge(8192, [first, second], [b], false) == Cut(8192, [first, second], [b]).After([first]);
    forall a: nat ensures Denote(8192, [first, second, kept], a) == Overlay(8192, [first, second], [b], a) {
      UncleanCutDenotes(first, second, b, kept, a);
    }
  }

  lemma UncleanCutDenotes(first: Entry, second: Entry, b: Entry, kept: Entry, a: nat)
    requires first == Entry(0, DataPages, 4096, 0, 0, 1) && second == Entry(4096, DataPages, 4096, 0, 7, 1)
    requires b == Entry(0, DataPages, 16384, 0, 0, 0) && kept == Entry(8192, DataPages, 8192, 0, 1, 0)
    ensures Denote(8192, [first, second, kept], a) == Overlay(8192, [first, second], [b], a)
  {
    hide Denote;
    assert [first, second, kept] == [first] + [second, kept] && [second, kept] == [second] + [kept];
    assert [first, second] == [first] + [second] && [second] == [second] + [];
    assert [kept] == [kept] + [] && [b] == [b] + [];
    DenoteFront(8192, first, [second, kept], a);
    DenoteFront(8192, second, [kept], a);
    DenoteFront(8192, kept, [], a);
    DenoteFront(8192, first, [second], a);
    DenoteFront(8192, second, [], a);
    DenoteFront(8192, b, [], a);
    assert Denote(8192, [], a) == None by { DenoteNone(8192, [], a); }
    if Covers(kept, a) { PageShift(8192, a - 8192, 1); }
  }

  const CHILD := Entry(0, DataPages, 16384, 0, 0, 1)
  const PARENT_PAGE := Entry(0, DataPages, 8192, 0, 0, 0)

  /** Child pages replace the first parent entry, and the round goes on with `rest`. */
  lemma {:induction false} ReplacesFirst(ps: PageSize, f: Entry, b: Entry, rest: seq<Entry>)
    requires f.opcode.DataPages? && b.opcode.DataPages? && f.address <= b.address < Stop(f) && Stop(b) <= Stop(f)
    ensures Merge(ps, [f], [b] + rest, false) == Continue(ps, [f], rest).After([f])
  {
    assert ([b] + rest)[1..] == rest;
    assert Lower(f, [b] + rest) + [f] == [f];
  }

  lemma {:induction false} LastDecides(ps: PageSize, s: seq<Entry>, x: Entry, a: nat)
    requires Covers(x, a)
    ensures Denote(ps, s + [x], a) == Some(SourceAt(ps, x, a))
  {
    if s == [] {
      assert [] + [x] == [x] && [x][1..] == [];
    } else {
      assert (s + [x])[1..] == s[1..] + [x];
      LastDecides(ps, s[1..], x, a);
    }
  }

  /** A parent's constant inside child pages, listed behind parent pages that the child also replaces, is emitted
      after the child's pages: the older world wins. */
  lemma {:induction false} SpecialAncestorCanWin(ps: PageSize, special: Entry)
    requires special == Entry(9000, Constant, 1, 8, 42, 0)
    ensures Merge(ps, [CHILD], [PARENT_PAGE, special], false) == Map([CHILD, special])
    ensures Denote(ps, [CHILD], 9000) == Some(FileWord(1, PageOf(ps, 9000), OffsetOf(ps, 9000)))
    ensures Denote(ps, [CHILD, special], 9000) == Some(ConstantWord(8, 42))
  {
    ReplacesFirst(ps, CHILD, PARENT_PAGE, [special]);
    assert [PARENT_PAGE] + [special] == [PARENT_PAGE, special];
    assert Continue(ps, [CHILD], [special]) == Map([special]) by {
      assert [special][1..] == [] && [CHILD][1..] == [];
      assert Cut(ps, [CHILD], []) == Map([]);
      assert Merge(ps, [CHILD], [], true) == Map([] + []);
      assert [special] + ([] + []) == [special];
    }
    assert [CHILD] + [special] == [CHILD, special];
    LastDecides(ps, [CHILD], special, 9000);
    LastDecides(ps, [], CHILD, 9000);
    assert [] + [CHILD] == [CHILD];
  }

  /** A parent's constant above the child's pages, listed between two parent pages that the child replaces, ends the
      child's round early: the second parent page is copied after the child's pages and wins. */
  lemma {:induction false} OvershootingSpecialLetsParentWin(ps: PageSize, special: Entry, second: Entry)
    requires special == Entry(20000, Constant, 1, 8, 42, 0) && second == Entry(8192, DataPages, 8192, 0, 1, 0)
    ensures Merge(ps, [CHILD], [PARENT_PAGE, special, second], false) == Map([CHILD, special, second])
    ensures Denote(ps, [CHILD], 8192) == Some(FileWord(1, PageOf(ps, 8192), OffsetOf(ps, 8192)))
    ensures Denote(ps, [CHILD, special, second], 8192) == Some(FileWord(0, 1, 0))
  {
    ReplacesFirst(ps, CHILD, PARENT_PAGE, [special, second]);
    assert [PARENT_PAGE] + [special, second] == [PARENT_PAGE, special, second];
    assert [CHILD][1..] == [];
    assert [CHILD] + [special, second] == [CHILD, special] + [second] == [CHILD, special, second];
    LastDecides(ps, [CHILD, special], second, 8192);
    LastDecides(ps, [], CHILD, 8192);
    assert [] + [CHILD] == [CHILD];
  }
}
