/** Which entry of two merged load maps decides at an address that the newer world covers. */
module MergeWinners {
  import opened Wrappers
  import opened LoadMaps

  // ---------- Turns ----------

  /** The background after the entries that are copied before `f` is looked at. */
  function PastSkipped(bg: seq<Entry>, f: Entry): (r: seq<Entry>)
    ensures |r| <= |bg| && (r != [] ==> !Skipped(r[0], f))
  {
    if bg != [] && Skipped(bg[0], f) then PastSkipped(bg[1..], f) else bg
  }

  /** What the turn of `f` leaves of the background, from its first entry that was not skipped on: data pages inside
      `f` are passed over, one that reaches beyond is trimmed, and the turn ends at the first entry seen above `f`. */
  function Left(ps: PageSize, f: Entry, r: seq<Entry>): seq<Entry>
    decreases |r|
  {
    if r == [] || r[0].address >= Stop(f) || Stop(r[0]) > Stop(f) then AfterFirst(ps, f, r)
    else if |r| == 1 || r[1].address >= Stop(f) then r[1..]
    else Left(ps, f, PastSkipped(r[1..], f))
  }

  /** A special entry above `f`, right behind data pages, where it ends the turn of `f`. */
  predicate EndsTurn(f: Entry, r: seq<Entry>, i: nat)
    requires i < |r|
  {
    0 < i && r[i - 1].opcode.DataPages? && !r[i].opcode.DataPages? && r[i].address >= Stop(f)
  }

  /** Data pages that the turn of `f` does not get to. */
  ghost predicate Missed(f: Entry, r: seq<Entry>, j: nat)
    requires j < |r|
  {
    r[j].opcode.DataPages? && exists i: nat :: i < j && EndsTurn(f, r, i)
  }

  /** After `f` was emitted, with `r` to come: another entry for `a` follows, which is special or was missed. */
  ghost predicate Shadowed(f: Entry, r: seq<Entry>, a: nat) {
    SpeciallyCovered(r, a) || exists j: nat :: j < |r| && Missed(f, r, j) && Covers(r[j], a)
  }

  /** The newer world's entry for `a` decides: in its own turn, nothing that comes after it covers `a`. */
  ghost predicate Wins(ps: PageSize, fg: seq<Entry>, bg: seq<Entry>, a: nat) {
    fg != [] &&
    var r := PastSkipped(bg, fg[0]);
    if Covers(fg[0], a) then !Shadowed(fg[0], r, a) else Wins(ps, fg[1..], Left(ps, fg[0], r), a)
  }

  /** `d` is what some entry of `bg` loads at `a`. */
  ghost predicate FromOlder(ps: PageSize, bg: seq<Entry>, a: nat, d: Option<Source>) {
    exists i: nat :: i < |bg| && Covers(bg[i], a) && d == Some(SourceAt(ps, bg[i], a))
  }

  // ---------- The turn of the entry that covers the address ----------

  /** `f` covers `a`, and no data pages to come lie below `f`. */
  ghost predicate InTurn(ps: PageSize, fg: seq<Entry>, bg: seq<Entry>, a: nat) {
    && Mergeable(ps, fg, bg) && fg != [] && Covers(fg[0], a)
    && forall i :: 0 <= i < |bg| && bg[i].opcode.DataPages? ==> !Skipped(bg[i], fg[0])
  }

  /** What is emitted after `f` says nothing about `a`, unless `shadowed`: then an older entry decides. */
  ghost predicate Decides(ps: PageSize, bg: seq<Entry>, rest: Merged, a: nat, shadowed: bool) {
    && rest.Map?
    && (if shadowed then FromOlder(ps, bg, a, Denote(ps, rest.entries, a)) else Denote(ps, rest.entries, a) == None)
  }

  lemma {:induction false} DenoteFromOlder(ps: PageSize, s: seq<Entry>, a: nat)
    ensures if Covered(s, a) then FromOlder(ps, s, a, Denote(ps, s, a)) else Denote(ps, s, a) == None
  {
    DenoteNone(ps, s, a);
    if s != [] {
      CoveredTail(s, a);
      DenoteFromOlder(ps, s[1..], a);
      if Denote(ps, s[1..], a).Some? {
        DenoteNone(ps, s[1..], a);
        OlderTail(ps, s, a, Denote(ps, s, a));
      }
    }
  }

  lemma OlderTail(ps: PageSize, s: seq<Entry>, a: nat, d: Option<Source>)
    requires s != [] && FromOlder(ps, s[1..], a, d)
    ensures FromOlder(ps, s, a, d)
  {
    var i: nat :| i < |s[1..]| && Covers(s[1..][i], a) && d == Some(SourceAt(ps, s[1..][i], a));
    assert s[i + 1] == s[1..][i];
  }

  lemma FirstIsOlder(ps: PageSize, s: seq<Entry>, a: nat)
    requires s != [] && Covers(s[0], a)
    ensures FromOlder(ps, s, a, Some(SourceAt(ps, s[0], a)))
  {
  }

  /** When the turn of `f` is over, the rest of the foreground has nothing at `a`, and the background decides. */
  lemma {:induction false} NextTurns(ps: PageSize, fg: seq<Entry>, bg: seq<Entry>, a: nat)
    requires Mergeable(ps, fg, bg) && fg != [] && Covers(fg[0], a)
    ensures Decides(ps, bg, Merge(ps, fg[1..], bg, false), a, Covered(bg, a))
  {
    Shrink(ps, fg, bg);
    ElsewhereKept(ps, fg[1..], bg, false, a);
    DenoteFromOlder(ps, bg, a);
    assert !Covered(fg[1..], a) by {
      forall i | 0 <= i < |fg[1..]| ensures !Covers(fg[1..][i], a) {
        assert fg[1..][i] == fg[i + 1];
      }
    }
  }

  /** The shadow of `n`, seen at the end of a round, where a first entry above `f` would end the turn too. */
  ghost predicate ShadowedAtEnd(f: Entry, n: seq<Entry>, a: nat) {
    || SpeciallyCovered(n, a)
    || (exists j: nat :: j < |n| && Missed(f, n, j) && Covers(n[j], a))
    || (n != [] && !n[0].opcode.DataPages? && n[0].address >= Stop(f) && Covered(n, a))
  }

  lemma {:induction false} RoundDecides(ps: PageSize, fg: seq<Entry>, bg: seq<Entry>, a: nat)
    requires InTurn(ps, fg, bg, a)
    ensures Decides(ps, bg, Merge(ps, fg, bg, true), a, Shadowed(fg[0], bg, a))
    decreases |fg|, |bg|, 1
  {
    hide Mergeable, Shadowed, FromOlder, Cut;
    var f := fg[0];
    if bg != [] && Skipped(bg[0], f) {
      var rest := bg[1..];
      Shrink(ps, fg, bg);
      RoundDecides(ps, fg, rest, a);
      SkippedShadow(f, bg, a);
      CoveredTail(bg, a);
      var m := Merge(ps, fg, rest, true).entries;
      DenoteFront(ps, bg[0], m, a);
      if Shadowed(f, rest, a) {
        OlderTail(ps, bg, a, Denote(ps, m, a));
      } else if Covers(bg[0], a) {
        FirstIsOlder(ps, bg, a);
      }
    } else {
      CutDecides(ps, fg, bg, a);
      var lower, m := Lower(f, bg), Cut(ps, fg, bg).entries;
      FrontShape(ps, lower, [], m, a);
      assert lower + [] + m == lower + m;
    }
  }

  /** Skipping an entry before anything was missed does not change what is missed later. */
  lemma {:induction false} SkippedShadow(f: Entry, bg: seq<Entry>, a: nat)
    requires bg != [] && !bg[0].opcode.DataPages?
    ensures Shadowed(f, bg, a) <==> Covers(bg[0], a) || Shadowed(f, bg[1..], a)
  {
    var n := bg[1..];
    CoveredTail(bg, a);
    forall j: nat | j < |n| && Missed(f, n, j) ensures Missed(f, bg, j + 1) {
      var i: nat :| i < j && EndsTurn(f, n, i);
      assert EndsTurn(f, bg, i + 1);
    }
    forall j: nat | 0 < j < |bg| && Missed(f, bg, j) ensures Missed(f, n, j - 1) {
      var i: nat :| i < j && EndsTurn(f, bg, i);
      assert EndsTurn(f, n, i - 1);
    }
  }

  lemma {:induction false} CutDecides(ps: PageSize, fg: seq<Entry>, bg: seq<Entry>, a: nat)
    requires InTurn(ps, fg, bg, a) && (bg != [] ==> !Skipped(bg[0], fg[0]))
    ensures Decides(ps, bg, Cut(ps, fg, bg), a, Shadowed(fg[0], bg, a))
    decreases |fg|, |bg|, 0
  {
    var f := fg[0];
    Shrink(ps, fg, bg);
    if bg == [] || bg[0].address >= Stop(f) {
      NextTurns(ps, fg, bg, a);
      AboveShadow(ps, fg, bg, a);
    } else if Stop(bg[0]) > Stop(f) {
      TrimIsSuffix(ps, bg[0], f);
      var t := TrimAbove(ps, bg[0], f).value;
      ShrinkTrimmed(ps, fg, bg, t);
      NextTurns(ps, fg, bg[0 := t], a);
      TrimmedShadow(ps, fg, bg, t, a);
    } else {
      EndDecides(ps, fg, bg[1..], a);
      PassedShadow(f, bg, a);
      if Shadowed(f, bg, a) { OlderTail(ps, bg, a, Denote(ps, Continue(ps, fg, bg[1..]).entries, a)); }
    }
  }

  /** The end of a round: the turn is over, or another round begins. */
  lemma {:induction false} EndDecides(ps: PageSize, fg: seq<Entry>, bg: seq<Entry>, a: nat)
    requires InTurn(ps, fg, bg, a)
    ensures Decides(ps, bg, Continue(ps, fg, bg), a, ShadowedAtEnd(fg[0], bg, a))
    decreases |fg|, |bg|, 2
  {
    if bg == [] || bg[0].address >= Stop(fg[0]) {
      NextTurns(ps, fg, bg, a);
      EndShadow(ps, fg, bg, a);
    } else {
      RoundDecides(ps, fg, bg, a);
    }
  }

  /** Data pages above `f` are followed by data pages above `f` only. */
  lemma {:induction false} AboveShadow(ps: PageSize, fg: seq<Entry>, bg: seq<Entry>, a: nat)
    requires InTurn(ps, fg, bg, a) && (bg != [] ==> bg[0].opcode.DataPages? && bg[0].address >= Stop(fg[0]))
    ensures Covered(bg, a) <==> Shadowed(fg[0], bg, a)
  {
    forall j | 0 <= j < |bg| && bg[j].opcode.DataPages? ensures !Covers(bg[j], a) {
    }
  }

  lemma {:induction false} TrimmedShadow(ps: PageSize, fg: seq<Entry>, bg: seq<Entry>, t: Entry, a: nat)
    requires InTurn(ps, fg, bg, a) && bg != [] && bg[0].opcode.DataPages?
    requires bg[0].address < Stop(fg[0]) < Stop(bg[0]) && TrimAbove(ps, bg[0], fg[0]) == Some(t)
    requires t.address == Stop(fg[0])
    ensures Covered(bg[0 := t], a) <==> Shadowed(fg[0], bg, a)
    ensures forall d :: FromOlder(ps, bg[0 := t], a, d) ==> FromOlder(ps, bg, a, d)
  {
    forall j | 0 < j < |bg| && bg[j].opcode.DataPages? ensures !Covers(bg[j], a) {
    }
    var after := bg[0 := t];
    assert !Covers(t, a);
    if SpeciallyCovered(bg, a) {
      var i :| 0 <= i < |bg| && !bg[i].opcode.DataPages? && Covers(bg[i], a);
      assert after[i] == bg[i];
    }
    forall d | FromOlder(ps, after, a, d) ensures FromOlder(ps, bg, a, d) {
      var i: nat :| i < |after| && Covers(after[i], a) && d == Some(SourceAt(ps, after[i], a));
      assert after[i] == bg[i];
    }
  }

  lemma {:induction false} PassedShadow(f: Entry, bg: seq<Entry>, a: nat)
    requires bg != [] && bg[0].opcode.DataPages?
    ensures Shadowed(f, bg, a) <==> ShadowedAtEnd(f, bg[1..], a)
  {
    var n := bg[1..];
    CoveredTail(bg, a);
    assert forall i | 0 < i < |n| :: EndsTurn(f, bg, i + 1) == EndsTurn(f, n, i);
    forall j: nat | j < |n| && Missed(f, n, j) ensures Missed(f, bg, j + 1) {
      var i: nat :| i < j && EndsTurn(f, n, i);
      assert EndsTurn(f, bg, i + 1);
    }
    forall j: nat | 0 < j < |bg| && Missed(f, bg, j)
      ensures Missed(f, n, j - 1) || (!n[0].opcode.DataPages? && n[0].address >= Stop(f))
    {
      var i: nat :| i < j && EndsTurn(f, bg, i);
      if i > 1 { assert EndsTurn(f, n, i - 1); }
    }
    if n != [] && !n[0].opcode.DataPages? && n[0].address >= Stop(f) {
      assert EndsTurn(f, bg, 1);
      assert forall j: nat | 1 < j < |bg| && bg[j].opcode.DataPages? :: Missed(f, bg, j);
    }
  }

  lemma {:induction false} EndShadow(ps: PageSize, fg: seq<Entry>, bg: seq<Entry>, a: nat)
    requires InTurn(ps, fg, bg, a) && (bg == [] || bg[0].address >= Stop(fg[0]))
    ensures Covered(bg, a) <==> ShadowedAtEnd(fg[0], bg, a)
  {
    if bg != [] && bg[0].opcode.DataPages? { AboveShadow(ps, fg, bg, a); }
  }

  // ---------- All turns ----------

  lemma AfterTwice(m: Merged, front: seq<Entry>, more: seq<Entry>)
    ensures m.After(more).After(front) == m.After(front + more)
  {
    if m.Map? { assert front + (more + m.entries) == front + more + m.entries; }
  }

  lemma {:induction false} PastSkippedMergeable(ps: PageSize, fg: seq<Entry>, bg: seq<Entry>, a: nat)
    requires Mergeable(ps, fg, bg) && fg != []
    ensures Mergeable(ps, fg, PastSkipped(bg, fg[0]))
    ensures var r := PastSkipped(bg, fg[0]); Covers(fg[0], a) ==> InTurn(ps, fg, r, a)
    ensures forall d :: FromOlder(ps, PastSkipped(bg, fg[0]), a, d) ==> FromOlder(ps, bg, a, d)
  {
    if bg != [] && Skipped(bg[0], fg[0]) {
      Shrink(ps, fg, bg);
      PastSkippedMergeable(ps, fg, bg[1..], a);
      forall d | FromOlder(ps, bg[1..], a, d) ensures FromOlder(ps, bg, a, d) {
        OlderTail(ps, bg, a, d);
      }
    }
  }

  /** A round: entries are skipped, and the piece below `f` is emitted, and `f` itself if it was not yet. */
  lemma {:induction false} RoundStarts(ps: PageSize, fg: seq<Entry>, bg: seq<Entry>, copied: bool, a: nat)
    returns (front: seq<Entry>)
    requires fg != []
    ensures Merge(ps, fg, bg, copied) == Cut(ps, fg, PastSkipped(bg, fg[0])).After(front)
    ensures Covers(fg[0], a) && !copied ==> Denote(ps, front, a) == Some(SourceAt(ps, fg[0], a))
    decreases |bg|
  {
    var f := fg[0];
    if bg != [] && Skipped(bg[0], f) {
      var rest := RoundStarts(ps, fg, bg[1..], copied, a);
      front := [bg[0]] + rest;
      AfterTwice(Cut(ps, fg, PastSkipped(bg, f)), [bg[0]], rest);
      DenoteFront(ps, bg[0], rest, a);
    } else {
      front := StartOfTurn(ps, fg, bg, copied, a);
    }
  }

  lemma {:induction false} StartOfTurn(ps: PageSize, fg: seq<Entry>, r: seq<Entry>, copied: bool, a: nat)
    returns (front: seq<Entry>)
    requires fg != [] && (r != [] ==> !Skipped(r[0], fg[0]))
    ensures Merge(ps, fg, r, copied) == Cut(ps, fg, r).After(front)
    ensures Covers(fg[0], a) && !copied ==> Denote(ps, front, a) == Some(SourceAt(ps, fg[0], a))
  {
    var f, lower := fg[0], Lower(fg[0], r);
    assert [f][1..] == [] && lower + [] == lower && lower + [f] + [] == lower + [f];
    if copied {
      front := lower;
    } else if f.opcode.DataPages? {
      front := lower + [f];
      FrontShape(ps, lower, [f], [], a);
    } else {
      front := if r == [] || r[0].address >= Stop(f) then [f] else [f] + lower;
      AfterTwice(Cut(ps, fg, r), [f], lower);
      assert Merge(ps, fg, r, false) == Continue(ps, fg, r).After([f]);
      assert Merge(ps, fg, r, true) == Cut(ps, fg, r).After(lower);
      DenoteFront(ps, f, [], a);
      assert [f] + [] == [f];
      FrontShape(ps, [f], lower, [], a);
      assert [f] + lower + [] == [f] + lower;
    }
  }

  /** The rounds of a turn leave what `Left` says, and then the next turn begins. */
  lemma {:induction false} TurnEnds(ps: PageSize, fg: seq<Entry>, r: seq<Entry>, a: nat) returns (front: seq<Entry>)
    requires Mergeable(ps, fg, r) && fg != [] && (r != [] ==> !Skipped(r[0], fg[0]))
    ensures Mergeable(ps, fg[1..], Left(ps, fg[0], r))
    ensures Cut(ps, fg, r) == Merge(ps, fg[1..], Left(ps, fg[0], r), false).After(front)
    ensures forall d :: FromOlder(ps, Left(ps, fg[0], r), a, d) ==> FromOlder(ps, r, a, d)
    decreases |r|
  {
    hide Merge, Cut, Left, PastSkipped, Mergeable, FromOlder;
    var f, left := fg[0], Left(ps, fg[0], r);
    Shrink(ps, fg, r);
    front := [];
    if r != [] && r[0].address < Stop(f) && Stop(r[0]) <= Stop(f) && |r| > 1 && r[1].address < Stop(f) {
      NextRound(ps, fg, r);
      var start := RoundStarts(ps, fg, r[1..], true, a);
      PastSkippedMergeable(ps, fg, r[1..], a);
      var rest := TurnEnds(ps, fg, PastSkipped(r[1..], f), a);
      front := start + rest;
      AfterTwice(Merge(ps, fg[1..], left, false), start, rest);
      forall d | FromOlder(ps, r[1..], a, d) ensures FromOlder(ps, r, a, d) {
        OlderTail(ps, r, a, d);
      }
    } else {
      assert Merge(ps, fg[1..], left, false).After([]) == Merge(ps, fg[1..], left, false) by {
        EmptyFront(Merge(ps, fg[1..], left, false));
      }
      LastOfTurn(ps, fg, r, a);
    }
  }

  /** Data pages inside `f` are passed over, and another round begins. */
  lemma NextRound(ps: PageSize, fg: seq<Entry>, r: seq<Entry>)
    requires fg != [] && |r| > 1 && r[0].address < Stop(fg[0]) && Stop(r[0]) <= Stop(fg[0])
    requires r[1].address < Stop(fg[0])
    ensures Cut(ps, fg, r) == Merge(ps, fg, r[1..], true)
    ensures Left(ps, fg[0], r) == Left(ps, fg[0], PastSkipped(r[1..], fg[0]))
  {
  }

  lemma EmptyFront(m: Merged)
    ensures m.After([]) == m
  {
    if m.Map? { assert [] + m.entries == m.entries; }
  }

  lemma {:induction false} LastOfTurn(ps: PageSize, fg: seq<Entry>, r: seq<Entry>, a: nat)
    requires Mergeable(ps, fg, r) && fg != [] && (r != [] ==> !Skipped(r[0], fg[0]))
    requires r == [] || r[0].address >= Stop(fg[0]) || Stop(r[0]) > Stop(fg[0]) || |r| == 1 ||
      r[1].address >= Stop(fg[0])
    ensures Mergeable(ps, fg[1..], Left(ps, fg[0], r))
    ensures Cut(ps, fg, r) == Merge(ps, fg[1..], Left(ps, fg[0], r), false)
    ensures forall d :: FromOlder(ps, Left(ps, fg[0], r), a, d) ==> FromOlder(ps, r, a, d)
  {
    var f := fg[0];
    Shrink(ps, fg, r);
    if r == [] || r[0].address >= Stop(f) {
    } else if Stop(r[0]) > Stop(f) {
      TrimIsSuffix(ps, r[0], f);
      var t := TrimAbove(ps, r[0], f).value;
      ShrinkTrimmed(ps, fg, r, t);
      Shrink(ps, fg, r[0 := t]);
      forall d | FromOlder(ps, r[0 := t], a, d) ensures FromOlder(ps, r, a, d) {
        var i: nat :| i < |r| && Covers(r[0 := t][i], a) && d == Some(SourceAt(ps, r[0 := t][i], a));
        assert Covers(r[i], a) && d == Some(SourceAt(ps, r[i], a));
      }
    } else {
      Shrink(ps, fg, r[1..]);
      forall d | FromOlder(ps, r[1..], a, d) ensures FromOlder(ps, r, a, d) {
        OlderTail(ps, r, a, d);
      }
    }
  }

  /** The newest generation wins exactly when it should: at an address that the newer world covers, the merged map loads
      that world's word if nothing emitted after its entry covers the address; otherwise, and only then, an older entry
      decides. Special entries may stand anywhere in both maps. */
  lemma {:induction false} NewestWinsExactly(ps: PageSize, fg: seq<Entry>, bg: seq<Entry>, a: nat)
    requires Mergeable(ps, fg, bg) && Covered(fg, a)
    ensures Merge(ps, fg, bg, false).Map?
    ensures var d := Denote(ps, Merge(ps, fg, bg, false).entries, a);
      if Wins(ps, fg, bg, a) then d == Denote(ps, fg, a) else FromOlder(ps, bg, a, d)
    decreases |fg|
  {
    hide Merge, Cut, Left, PastSkipped, Mergeable, Shadowed;
    var f, r := fg[0], PastSkipped(bg, fg[0]);
    CoveredTail(fg, a);
    PastSkippedMergeable(ps, fg, bg, a);
    var front := RoundStarts(ps, fg, bg, false, a);
    if Covers(f, a) {
      CutDecides(ps, fg, r, a);
      DenoteAppend(ps, front, Cut(ps, fg, r).entries, a);
      OnlyOne(ps, fg, bg, a);
    } else {
      var more := TurnEnds(ps, fg, r, a);
      var left := Left(ps, f, r);
      NewestWinsExactly(ps, fg[1..], left, a);
      var m := Merge(ps, fg[1..], left, false);
      AfterTwice(m, front, more);
      DenoteAppend(ps, front + more, m.entries, a);
      DenoteNone(ps, fg[1..], a);
    }
  }

  /** Only one entry of a world's own map covers an address. */
  lemma OnlyOne(ps: PageSize, fg: seq<Entry>, bg: seq<Entry>, a: nat)
    requires Mergeable(ps, fg, bg) && fg != [] && Covers(fg[0], a)
    ensures Denote(ps, fg, a) == Some(SourceAt(ps, fg[0], a))
  {
    DenoteNone(ps, fg[1..], a);
    assert forall i | 0 <= i < |fg[1..]| :: fg[1..][i] == fg[i + 1];
  }

  /** For a newer world's data pages, when every older entry names another world: the word at `a` is the newer world's
      if and only if nothing shadows it. */
  lemma {:induction false} NewestWordExactly(ps: PageSize, fg: seq<Entry>, bg: seq<Entry>, a: nat, world: nat)
    requires Mergeable(ps, fg, bg) && Covered(fg, a) && forall b :: b in bg ==> b.world != world
    requires var d := Denote(ps, fg, a); d.Some? && d.value.FileWord? && d.value.world == world
    ensures var m := Merge(ps, fg, bg, false);
      m.Map? && (Denote(ps, m.entries, a) == Denote(ps, fg, a) <==> Wins(ps, fg, bg, a))
  {
    hide Merge, Wins, Denote, Mergeable;
    NewestWinsExactly(ps, fg, bg, a);
    var d := Denote(ps, Merge(ps, fg, bg, false).entries, a);
    if FromOlder(ps, bg, a, d) {
      var i: nat :| i < |bg| && Covers(bg[i], a) && d == Some(SourceAt(ps, bg[i], a));
      assert bg[i] in bg;
    }
  }

  ghost predicate NoSpecials(s: seq<Entry>) { forall i :: 0 <= i < |s| ==> s[i].opcode.DataPages? }

  /** Over data pages alone the newer world wins wherever it covers. */
  lemma {:induction false} PagesNeverShadow(ps: PageSize, fg: seq<Entry>, bg: seq<Entry>, a: nat)
    requires Covered(fg, a) && NoSpecials(bg)
    ensures Wins(ps, fg, bg, a)
    decreases |fg|
  {
    CoveredTail(fg, a);
    PastSkippedPages(bg, fg[0]);
    LeftPages(ps, fg[0], PastSkipped(bg, fg[0]));
    if !Covers(fg[0], a) { PagesNeverShadow(ps, fg[1..], Left(ps, fg[0], PastSkipped(bg, fg[0])), a); }
  }

  lemma {:induction false} PastSkippedPages(bg: seq<Entry>, f: Entry)
    requires NoSpecials(bg)
    ensures NoSpecials(PastSkipped(bg, f))
  {
    if bg != [] && Skipped(bg[0], f) { PastSkippedPages(bg[1..], f); }
  }

  lemma {:induction false} LeftPages(ps: PageSize, f: Entry, r: seq<Entry>)
    requires NoSpecials(r)
    ensures NoSpecials(Left(ps, f, r))
    decreases |r|
  {
    if |r| > 1 {
      PastSkippedPages(r[1..], f);
      LeftPages(ps, f, PastSkipped(r[1..], f));
    }
  }

  /** A newer world over data pages alone: its word wherever it covers, the older word everywhere else. */
  lemma {:induction false} NewestOverPages(ps: PageSize, fg: seq<Entry>, bg: seq<Entry>, a: nat)
    requires Mergeable(ps, fg, bg) && NoSpecials(bg)
    ensures var m := Merge(ps, fg, bg, false);
      m.Map? && Denote(ps, m.entries, a) == if Covered(fg, a) then Denote(ps, fg, a) else Denote(ps, bg, a)
  {
    hide Merge, Wins, Mergeable, NoSpecials;
    ElsewhereKept(ps, fg, bg, false, a);
    if Covered(fg, a) {
      NewestWinsExactly(ps, fg, bg, a);
      PagesNeverShadow(ps, fg, bg, a);
    }
  }
}
