/** When the data pages of a merged load map come out in order. */
module MergeOrder {
  import opened Wrappers
  import opened LoadMaps
  import opened MergeWinners

  /** All data pages of `s` start at `low` or above. */
  ghost predicate StartsFrom(s: seq<Entry>, low: nat) {
    forall i :: 0 <= i < |s| && s[i].opcode.DataPages? ==> low <= s[i].address
  }

  /** All data pages of `s` end at `high` or below. */
  ghost predicate EndsBy(s: seq<Entry>, high: nat) {
    forall i :: 0 <= i < |s| && s[i].opcode.DataPages? ==> End(s[i]) <= high
  }

  /** The turn of data pages `f` misses data pages that start below the end of `f`. */
  ghost predicate MissesOverlap(f: Entry, r: seq<Entry>) {
    f.opcode.DataPages? && exists j: nat :: j < |r| && Missed(f, r, j) && r[j].address < Stop(f)
  }

  /** No turn misses data pages that it should have cut. */
  ghost predicate Settles(ps: PageSize, fg: seq<Entry>, bg: seq<Entry>) {
    fg != [] ==>
      var r := PastSkipped(bg, fg[0]);
      !MissesOverlap(fg[0], r) && Settles(ps, fg[1..], Left(ps, fg[0], r))
  }

  /** Where the data pages that a turn emits end. */
  function Edge(f: Entry): nat { if f.opcode.DataPages? then End(f) else f.address }

  lemma {:induction false} MergeStartsFrom(ps: PageSize, fg: seq<Entry>, bg: seq<Entry>, low: nat)
    requires Mergeable(ps, fg, bg) && StartsFrom(fg, low) && StartsFrom(bg, low)
    ensures Merge(ps, fg, bg, false).Map? && StartsFrom(Merge(ps, fg, bg, false).entries, low)
  {
    hide Merge, Mergeable, TrimAbove;
    ElsewhereKept(ps, fg, bg, false, 0);
    var p := (e: Entry) => e.opcode.DataPages? ==> low <= e.address;
    assert All(p, fg) && All(p, bg);
    assert KeptByCuts(ps, p, fg) by { TrimStartsLater(ps); }
    MergeKeeps(ps, fg, bg, false, p);
    assert All(p, Merge(ps, fg, bg, false).entries);
  }

  lemma TrimStartsLater(ps: PageSize)
    ensures forall b: Entry, f: Entry | b.address < End(f) < End(b) < 0x1_0000_0000 && OffsetOf(ps, End(f)) == 0 &&
      TrimAbove(ps, b, f).Some? :: TrimAbove(ps, b, f).value.address >= b.address
  {
  }

  lemma {:induction false} AppendOrdered(s: seq<Entry>, t: seq<Entry>, edge: nat)
    requires DataOrdered(s) && DataOrdered(t) && EndsBy(s, edge) && StartsFrom(t, edge)
    ensures DataOrdered(s + t)
  {
  }

  /** What a first round emits: data pages in order, from the lowest of its input on, none beyond the edge of `f`. */
  lemma {:induction false} FrontOrdered(ps: PageSize, fg: seq<Entry>, bg: seq<Entry>, low: nat)
    returns (front: seq<Entry>)
    requires Mergeable(ps, fg, bg) && fg != []
    requires StartsFrom(bg, low) && (fg[0].opcode.DataPages? ==> low <= fg[0].address)
    ensures Merge(ps, fg, bg, false) == Cut(ps, fg, PastSkipped(bg, fg[0])).After(front)
    ensures DataOrdered(front) && StartsFrom(front, low) && EndsBy(front, Edge(fg[0])) && fg[0] in front
    decreases |bg|
  {
    hide Merge, Cut, PastSkipped, Mergeable;
    var f := fg[0];
    SkipsFirst(ps, fg, bg);
    if bg != [] && Skipped(bg[0], f) {
      var b := bg[0];
      Shrink(ps, fg, bg);
      if b.opcode.DataPages? { OrderedTail(ps, fg, bg); }
      var rest := FrontOrdered(ps, fg, bg[1..], if b.opcode.DataPages? then End(b) else low);
      front := [b] + rest;
      AfterTwice(Cut(ps, fg, PastSkipped(bg, f)), [b], rest);
      if b.opcode.DataPages? { AppendOrdered([b], rest, End(b)); }
    } else {
      front := RoundOrdered(ps, fg, bg, low);
    }
  }

  lemma SkipsFirst(ps: PageSize, fg: seq<Entry>, bg: seq<Entry>)
    requires fg != []
    ensures PastSkipped(bg, fg[0]) == if bg != [] && Skipped(bg[0], fg[0]) then PastSkipped(bg[1..], fg[0]) else bg
    ensures bg != [] && Skipped(bg[0], fg[0]) ==>
      Merge(ps, fg, bg, false) == Merge(ps, fg, bg[1..], false).After([bg[0]])
  {
  }

  lemma OrderedTail(ps: PageSize, fg: seq<Entry>, bg: seq<Entry>)
    requires Mergeable(ps, fg, bg) && bg != [] && bg[0].opcode.DataPages?
    ensures StartsFrom(bg[1..], End(bg[0])) && Stop(bg[0]) == End(bg[0])
  {
  }

  lemma {:induction false} RoundOrdered(ps: PageSize, fg: seq<Entry>, r: seq<Entry>, low: nat)
    returns (front: seq<Entry>)
    requires Mergeable(ps, fg, r) && fg != [] && (r != [] ==> !Skipped(r[0], fg[0]))
    requires StartsFrom(r, low) && (fg[0].opcode.DataPages? ==> low <= fg[0].address)
    ensures Merge(ps, fg, r, false) == Cut(ps, fg, r).After(front)
    ensures DataOrdered(front) && StartsFrom(front, low) && EndsBy(front, Edge(fg[0])) && fg[0] in front
  {
    var f, lower := fg[0], Lower(fg[0], r);
    if f.opcode.DataPages? {
      front := lower + [f];
    } else if r == [] || r[0].address >= Stop(f) {
      front := [f];
    } else {
      front := [f] + lower;
      AfterTwice(Cut(ps, fg, r), [f], lower);
      assert Merge(ps, fg, r, false) == Continue(ps, fg, r).After([f]);
      assert Merge(ps, fg, r, true) == Cut(ps, fg, r).After(lower);
    }
  }

  /** The data pages still to come when the turn of `f` is in its first body lie at or above its start, except that the
      first of them may reach across it. */
  ghost predicate Beyond(f: Entry, r: seq<Entry>) {
    forall i :: 0 < i < |r| && r[i].opcode.DataPages? ==> f.address <= r[i].address
  }

  /** The later rounds of a turn emit no data pages. */
  lemma {:induction false} RestOfTurn(ps: PageSize, fg: seq<Entry>, r: seq<Entry>) returns (front: seq<Entry>)
    requires Mergeable(ps, fg, r) && fg != [] && (r != [] ==> !Skipped(r[0], fg[0])) && Beyond(fg[0], r)
    ensures Mergeable(ps, fg[1..], Left(ps, fg[0], r))
    ensures Cut(ps, fg, r) == Merge(ps, fg[1..], Left(ps, fg[0], r), false).After(front)
    ensures forall i :: 0 <= i < |front| ==> !front[i].opcode.DataPages?
    decreases |r|
  {
    hide Merge, Cut, Left, PastSkipped, Mergeable;
    var f, left := fg[0], Left(ps, fg[0], r);
    Shrink(ps, fg, r);
    front := [];
    if r != [] && r[0].address < Stop(f) && Stop(r[0]) <= Stop(f) && |r| > 1 && r[1].address < Stop(f) {
      NextRound(ps, fg, r);
      var start := LaterRound(ps, fg, r[1..]);
      PastSkippedMergeable(ps, fg, r[1..], 0);
      var rest := RestOfTurn(ps, fg, PastSkipped(r[1..], f));
      front := start + rest;
      AfterTwice(Merge(ps, fg[1..], left, false), start, rest);
    } else {
      EmptyFront(Merge(ps, fg[1..], left, false));
      LastOfTurn(ps, fg, r, 0);
    }
  }

  lemma {:induction false} LaterRound(ps: PageSize, fg: seq<Entry>, bg: seq<Entry>) returns (front: seq<Entry>)
    requires fg != [] && forall i :: 0 <= i < |bg| && bg[i].opcode.DataPages? ==> fg[0].address <= bg[i].address
    ensures Merge(ps, fg, bg, true) == Cut(ps, fg, PastSkipped(bg, fg[0])).After(front)
    ensures forall i :: 0 <= i < |front| ==> !front[i].opcode.DataPages?
    ensures Beyond(fg[0], PastSkipped(bg, fg[0]))
    decreases |bg|
  {
    var f := fg[0];
    front := [];
    if bg != [] && Skipped(bg[0], f) {
      var rest := LaterRound(ps, fg, bg[1..]);
      front := [bg[0]] + rest;
      AfterTwice(Cut(ps, fg, PastSkipped(bg, f)), [bg[0]], rest);
    } else {
      EmptyFront(Cut(ps, fg, bg));
      assert Lower(f, bg) == [];
    }
  }

  // ---------- What a turn leaves ----------

  /** An entry after the first is missed if it is missed without the first, unless the second ends the turn. */
  lemma {:induction false} MissedLater(f: Entry, r: seq<Entry>, j: nat)
    requires 0 < j < |r| && !EndsTurn(f, r, 1)
    ensures Missed(f, r, j) <==> Missed(f, r[1..], j - 1)
  {
    var n := r[1..];
    if Missed(f, r, j) {
      var i: nat :| i < j && EndsTurn(f, r, i);
      assert EndsTurn(f, n, i - 1);
    }
    if Missed(f, n, j - 1) {
      var i: nat :| i < j - 1 && EndsTurn(f, n, i);
      assert EndsTurn(f, r, i + 1);
    }
  }

  /** The same for all entries that the skipping drops, when no data pages are among them. */
  lemma {:induction false} MissedPastSkipped(f: Entry, n: seq<Entry>, j: nat) returns (k: nat)
    requires j < |n| && Missed(f, n, j) && forall i :: 0 <= i < |n| && n[i].opcode.DataPages? ==> !Skipped(n[i], f)
    ensures var r := PastSkipped(n, f); k < |r| && r[k] == n[j] && Missed(f, r, k)
  {
    k := j;
    if Skipped(n[0], f) {
      MissedLater(f, n, j);
      k := MissedPastSkipped(f, n[1..], j - 1);
    }
  }

  lemma {:induction false} MissedBefore(f: Entry, n: seq<Entry>, k: nat) returns (j: nat)
    requires k < |PastSkipped(n, f)| && Missed(f, PastSkipped(n, f), k)
    requires forall i :: 0 <= i < |n| && n[i].opcode.DataPages? ==> !Skipped(n[i], f)
    ensures j < |n| && n[j] == PastSkipped(n, f)[k] && Missed(f, n, j)
  {
    j := k;
    if n != [] && Skipped(n[0], f) {
      var i := MissedBefore(f, n[1..], k);
      j := i + 1;
      MissedLater(f, n, j);
    }
  }

  /** When the first data pages lie above `f` or reach beyond, all that are left lie above. */
  lemma {:induction false} KeptIsAbove(ps: PageSize, fg: seq<Entry>, r: seq<Entry>)
    requires Mergeable(ps, fg, r) && fg != [] && r != [] && r[0].opcode.DataPages?
    requires r[0].address >= Stop(fg[0]) || Stop(r[0]) > Stop(fg[0])
    ensures StartsFrom(Left(ps, fg[0], r), Stop(fg[0]))
  {
    if r[0].address < Stop(fg[0]) { TrimIsSuffix(ps, r[0], fg[0]); }
  }

  /** Data pages left below the end of `f` were missed. */
  lemma {:induction false} LeftWasMissed(ps: PageSize, fg: seq<Entry>, r: seq<Entry>, e: Entry) returns (j: nat)
    requires Mergeable(ps, fg, r) && fg != [] && Beyond(fg[0], r) && (r != [] ==> !Skipped(r[0], fg[0]))
    requires e in Left(ps, fg[0], r) && e.opcode.DataPages? && e.address < Stop(fg[0])
    ensures j < |r| && r[j] == e && Missed(fg[0], r, j)
    decreases |r|
  {
    hide PastSkipped, Mergeable, Missed, EndsTurn;
    var f := fg[0];
    if r[0].address >= Stop(f) || Stop(r[0]) > Stop(f) {
      KeptIsAbove(ps, fg, r);
      assert false;
    } else if |r| == 1 || r[1].address >= Stop(f) {
      j := EndedEarly(ps, fg, r, e);
    } else {
      var n := r[1..];
      Shrink(ps, fg, r);
      PastSkippedMergeable(ps, fg, n, 0);
      LaterPages(ps, fg, r);
      LeftPast(f, n);
      var k := LeftWasMissed(ps, fg, PastSkipped(n, f), e);
      var i := MissedBefore(f, n, k);
      j := i + 1;
      MissedLater(f, r, j);
    }
  }

  lemma {:induction false} EndedEarly(ps: PageSize, fg: seq<Entry>, r: seq<Entry>, e: Entry) returns (j: nat)
    requires Mergeable(ps, fg, r) && fg != [] && r != [] && r[0].opcode.DataPages?
    requires r[0].address < Stop(fg[0]) && Stop(r[0]) <= Stop(fg[0]) && (|r| == 1 || r[1].address >= Stop(fg[0]))
    requires e in Left(ps, fg[0], r) && e.opcode.DataPages? && e.address < Stop(fg[0])
    ensures j < |r| && r[j] == e && Missed(fg[0], r, j)
  {
    var i :| 0 <= i < |r[1..]| && r[1..][i] == e;
    j := i + 1;
    assert EndsTurn(fg[0], r, 1);
  }

  /** Data pages behind the first of a turn. */
  lemma LaterPages(ps: PageSize, fg: seq<Entry>, r: seq<Entry>)
    requires Mergeable(ps, fg, r) && fg != [] && r != [] && r[0].opcode.DataPages? && !Skipped(r[0], fg[0])
    ensures DataOrdered(r[1..]) && (|r| > 1 && r[1].address < Stop(fg[0]) ==> !EndsTurn(fg[0], r, 1))
    ensures forall i :: 0 <= i < |r[1..]| && r[1..][i].opcode.DataPages? ==>
      fg[0].address <= r[1..][i].address && !Skipped(r[1..][i], fg[0])
  {
  }

  lemma MissedIsLater(f: Entry, r: seq<Entry>, j: nat)
    requires j < |r| && Missed(f, r, j)
    ensures j > 0 && r[j].opcode.DataPages?
  {
  }

  /** Missed data pages below the end of `f` are left. */
  lemma {:induction false} MissedIsLeft(ps: PageSize, fg: seq<Entry>, r: seq<Entry>, j: nat)
    requires Mergeable(ps, fg, r) && fg != [] && Beyond(fg[0], r) && (r != [] ==> !Skipped(r[0], fg[0]))
    requires j < |r| && Missed(fg[0], r, j) && r[j].address < Stop(fg[0])
    ensures r[j] in Left(ps, fg[0], r)
    decreases |r|
  {
    hide Missed, PastSkipped;
    var f := fg[0];
    MissedIsLater(f, r, j);
    assert End(r[0]) <= r[j].address;
    if |r| == 1 || r[1].address >= Stop(f) {
      assert r[1..][j - 1] == r[j];
    } else {
      var n := r[1..];
      MissedLater(f, r, j);
      assert n[j - 1] == r[j];
      Shrink(ps, fg, r);
      PastSkippedMergeable(ps, fg, n, 0);
      LeftPast(f, n);
      var k := MissedPastSkipped(f, n, j - 1);
      MissedIsLeft(ps, fg, PastSkipped(n, f), k);
    }
  }

  /** The entries that later rounds begin with. */
  lemma {:induction false} LeftPast(f: Entry, n: seq<Entry>)
    requires DataOrdered(n) && forall i :: 0 <= i < |n| && n[i].opcode.DataPages? ==> f.address <= n[i].address
    ensures var r := PastSkipped(n, f);
      && DataOrdered(r) && Beyond(f, r) && (forall e :: e in r ==> e in n)
      && forall i :: 0 <= i < |r| && r[i].opcode.DataPages? ==> f.address <= r[i].address
  {
    if n != [] && Skipped(n[0], f) { LeftPast(f, n[1..]); }
  }

  // ---------- The order of the merged map ----------

  /** A missed entry is emitted where it starts, after the turn that missed it. */
  lemma {:induction false} StartIsEmitted(ps: PageSize, fg: seq<Entry>, bg: seq<Entry>, copied: bool, b: Entry)
    returns (i: nat)
    requires Mergeable(ps, fg, bg) && (copied ==> fg != []) && b in bg && b.opcode.DataPages?
    requires forall f :: f in fg ==> b.address < f.address
    requires Merge(ps, fg, bg, copied).Map?
    ensures var m := Merge(ps, fg, bg, copied).entries;
      i < |m| && m[i].opcode.DataPages? && m[i].address == b.address
    decreases |bg|
  {
    if fg == [] {
      i :| 0 <= i < |bg| && bg[i] == b;
    } else if Skipped(bg[0], fg[0]) {
      if bg[0] == b {
        i := 0;
      } else {
        Shrink(ps, fg, bg);
        var k := StartIsEmitted(ps, fg, bg[1..], copied, b);
        i := k + 1;
      }
    } else {
      var f, j :| f == fg[0] && 0 <= j < |bg| && bg[j] == b;
      if j > 0 {
        assert false;
      }
      i := LowerIsEmitted(ps, fg, bg, copied);
    }
  }

  lemma {:induction false} LowerIsEmitted(ps: PageSize, fg: seq<Entry>, bg: seq<Entry>, copied: bool) returns (i: nat)
    requires fg != [] && bg != [] && !Skipped(bg[0], fg[0]) && bg[0].address < fg[0].address <= Stop(fg[0])
    requires Merge(ps, fg, bg, copied).Map?
    ensures var m := Merge(ps, fg, bg, copied).entries;
      i < |m| && m[i].opcode.DataPages? && m[i].address == bg[0].address
  {
    var f, lower := fg[0], [bg[0].(count := fg[0].address - bg[0].address)];
    assert Lower(f, bg) == lower;
    if !f.opcode.DataPages? && !copied {
      i := 1;
      assert Merge(ps, fg, bg, false) == Merge(ps, fg, bg, true).After([f]);
      assert Merge(ps, fg, bg, true) == Cut(ps, fg, bg).After(lower);
    } else {
      i := 0;
      assert Merge(ps, fg, bg, copied) == Cut(ps, fg, bg).After(if copied then lower else lower + [f]);
    }
  }

  /** The data pages that the rest of the merge begins with: at or above the edge of `f`, unless its turn missed
      some. */
  lemma {:induction false} LeftStarts(ps: PageSize, fg: seq<Entry>, r: seq<Entry>)
    requires Mergeable(ps, fg, r) && fg != [] && Beyond(fg[0], r) && (r != [] ==> !Skipped(r[0], fg[0]))
    requires !MissesOverlap(fg[0], r)
    ensures StartsFrom(Left(ps, fg[0], r), Edge(fg[0]))
  {
    var f, left := fg[0], Left(ps, fg[0], r);
    forall i | 0 <= i < |left| && left[i].opcode.DataPages? ensures Edge(f) <= left[i].address {
      if left[i].address < Stop(f) {
        var j := LeftWasMissed(ps, fg, r, left[i]);
        assert j > 0;
      }
    }
  }

  /** The merged map's data pages are in ascending order without overlap exactly when no turn misses data pages that it
      should have cut: a special entry above a newer world's pages, right behind older pages, ends a turn too early. */
  lemma {:induction false} MergeOrderedExactly(ps: PageSize, fg: seq<Entry>, bg: seq<Entry>)
    requires Mergeable(ps, fg, bg)
    ensures Merge(ps, fg, bg, false).Map?
    ensures DataOrdered(Merge(ps, fg, bg, false).entries) <==> Settles(ps, fg, bg)
    decreases |fg|
  {
    hide Merge, Cut, Left, PastSkipped, Mergeable, MissesOverlap, DataOrdered, StartsFrom, EndsBy, Beyond;
    ElsewhereKept(ps, fg, bg, false, 0);
    if fg == [] {
      NoForeground(ps, bg);
    } else {
      var f, r := fg[0], PastSkipped(bg, fg[0]);
      PastSkippedMergeable(ps, fg, bg, 0);
      NothingBelowZero(bg);
      var front := FrontOrdered(ps, fg, bg, 0);
      FirstBody(ps, fg, r);
      var more := RestOfTurn(ps, fg, r);
      var left := Left(ps, f, r);
      var m := Merge(ps, fg[1..], left, false);
      AfterTwice(m, front, more);
      MergeOrderedExactly(ps, fg[1..], left);
      if MissesOverlap(f, r) {
        MissedSpoilsOrder(ps, fg, r, front + more);
      } else {
        LeftStarts(ps, fg, r);
        NextStarts(ps, fg, left);
        WholeOrder(front, more, m.entries, Edge(f));
      }
    }
  }

  lemma NoForeground(ps: PageSize, bg: seq<Entry>)
    requires Mergeable(ps, [], bg)
    ensures Merge(ps, [], bg, false) == Map(bg) && DataOrdered(bg)
  {
  }

  lemma NothingBelowZero(s: seq<Entry>)
    ensures StartsFrom(s, 0)
  {
  }

  lemma FirstBody(ps: PageSize, fg: seq<Entry>, r: seq<Entry>)
    requires Mergeable(ps, fg, r) && fg != [] && (r != [] ==> !Skipped(r[0], fg[0]))
    ensures Beyond(fg[0], r)
  {
  }

  lemma {:induction false} NextStarts(ps: PageSize, fg: seq<Entry>, left: seq<Entry>)
    requires fg != [] && Mergeable(ps, fg[1..], left) && StartsFrom(left, Edge(fg[0])) && Ordered(fg)
    ensures Merge(ps, fg[1..], left, false).Map? && StartsFrom(Merge(ps, fg[1..], left, false).entries, Edge(fg[0]))
  {
    hide Merge, Mergeable;
    assert StartsFrom(fg[1..], Edge(fg[0])) by {
      forall i | 0 <= i < |fg[1..]| ensures Edge(fg[0]) <= fg[1..][i].address {
        assert fg[1..][i] == fg[i + 1];
      }
    }
    MergeStartsFrom(ps, fg[1..], left, Edge(fg[0]));
  }

  lemma {:induction false} WholeOrder(front: seq<Entry>, more: seq<Entry>, rest: seq<Entry>, edge: nat)
    requires DataOrdered(front) && EndsBy(front, edge) && StartsFrom(rest, edge)
    requires forall i :: 0 <= i < |more| ==> !more[i].opcode.DataPages?
    ensures DataOrdered(front + more + rest) <==> DataOrdered(rest)
  {
    var all, n := front + more + rest, |front| + |more|;
    assert forall i :: 0 <= i < |rest| ==> all[n + i] == rest[i];
  }

  lemma {:induction false} MissedSpoilsOrder(ps: PageSize, fg: seq<Entry>, r: seq<Entry>, front: seq<Entry>)
    requires Mergeable(ps, fg, r) && fg != [] && Beyond(fg[0], r) && (r != [] ==> !Skipped(r[0], fg[0]))
    requires MissesOverlap(fg[0], r) && fg[0] in front
    requires Mergeable(ps, fg[1..], Left(ps, fg[0], r)) && Merge(ps, fg[1..], Left(ps, fg[0], r), false).Map?
    ensures !DataOrdered(front + Merge(ps, fg[1..], Left(ps, fg[0], r), false).entries)
  {
    hide Merge, Left, PastSkipped;
    var f, left := fg[0], Left(ps, fg[0], r);
    var j: nat :| j < |r| && Missed(f, r, j) && r[j].address < Stop(f);
    MissedIsLeft(ps, fg, r, j);
    forall x | x in fg[1..] ensures r[j].address < x.address {
      var k :| 0 <= k < |fg[1..]| && fg[1..][k] == x;
      assert fg[k + 1] == x;
    }
    var i := StartIsEmitted(ps, fg[1..], left, false, r[j]);
    var k :| 0 <= k < |front| && front[k] == f;
    var m := Merge(ps, fg[1..], left, false).entries;
    assert (front + m)[k] == f && (front + m)[|front| + i] == m[i];
  }

  /** Over data pages alone no turn ends early. */
  lemma {:induction false} PagesSettle(ps: PageSize, fg: seq<Entry>, bg: seq<Entry>)
    requires NoSpecials(bg)
    ensures Settles(ps, fg, bg)
    decreases |fg|
  {
    if fg != [] {
      PastSkippedPages(bg, fg[0]);
      LeftPages(ps, fg[0], PastSkipped(bg, fg[0]));
      PagesSettle(ps, fg[1..], Left(ps, fg[0], PastSkipped(bg, fg[0])));
    }
  }
}
