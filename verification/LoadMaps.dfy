/** World load maps: what an entry loads, and how a child world's map is merged over its parent's. */
module LoadMaps {
  import opened Wrappers

  datatype Opcode = DataPages | Constant | ConstantIncremented | Copy

  /** One load map entry. `tag` and `datum` are the entry's data word; `world` names the file it came from. */
  datatype Entry = Entry(address: nat, opcode: Opcode, count: nat, tag: nat, datum: nat, world: nat)

  function End(e: Entry): nat { e.address + e.count }

  /** The end of an entry as the loader computes it, in 32 bits. */
  function Stop(e: Entry): nat { if End(e) < 0x1_0000_0000 then End(e) else End(e) % 0x1_0000_0000 }

  predicate Covers(e: Entry, a: nat) { e.address <= a < End(e) }

  ghost predicate Covered(s: seq<Entry>, a: nat) { exists i :: 0 <= i < |s| && Covers(s[i], a) }

  ghost predicate SpeciallyCovered(s: seq<Entry>, a: nat) {
    exists i :: 0 <= i < |s| && !s[i].opcode.DataPages? && Covers(s[i], a)
  }

  /** Qs on one page of a world file: 256 in Ivory format, 8192 in VLM format. */
  type PageSize = n: nat | n == 256 || n == 8192 witness 8192

  function PageOf(ps: PageSize, x: nat): nat { if ps == 256 then x / 256 else x / 8192 }

  function OffsetOf(ps: PageSize, x: nat): nat { if ps == 256 then x % 256 else x % 8192 }

  function PageBase(ps: PageSize, q: nat): nat { if ps == 256 then q * 256 else q * 8192 }

  /** Where the word loaded at one address comes from. */
  datatype Source =
    | FileWord(world: nat, page: nat, offset: nat)
    | ConstantWord(tag: nat, datum: nat)
    | CopyOf(source: nat)

  function SourceAt(ps: PageSize, e: Entry, a: nat): Source
    requires Covers(e, a)
  {
    var k := a - e.address;
    match e.opcode
    case DataPages => FileWord(e.world, e.datum + PageOf(ps, k), OffsetOf(ps, k))
    case Constant => ConstantWord(e.tag, e.datum)
    case ConstantIncremented => ConstantWord(e.tag, e.datum + k)
    case Copy => CopyOf(e.datum + k)
  }

  /** What loading the entries in order leaves at `a`: the last entry covering it decides. */
  function Denote(ps: PageSize, s: seq<Entry>, a: nat): Option<Source> {
    if s == [] then None
    else
      var rest := Denote(ps, s[1..], a);
      if rest.Some? then rest else if Covers(s[0], a) then Some(SourceAt(ps, s[0], a)) else None
  }

  // ---------- The merge, as a function ----------

  datatype Merged = Map(entries: seq<Entry>) | Punt {
    function After(front: seq<Entry>): Merged {
      match this
      case Map(rest) => Map(front + rest)
      case Punt => Punt
    }
  }

  /** A background entry copied before the current foreground entry is looked at. */
  predicate Skipped(b: Entry, f: Entry) {
    !b.opcode.DataPages? || (b.address < f.address && Stop(b) < f.address)
  }

  /** The part of `b` above `f`, moved up to a page boundary exactly as the loader moves it. */
  function TrimAbove(ps: PageSize, b: Entry, f: Entry): Option<Entry>
    requires b.address < Stop(f) < Stop(b)
  {
    var slop := OffsetOf(ps, Stop(f));
    var address := if slop == 0 then Stop(f) else (Stop(f) + (ps - slop)) % 0x1_0000_0000;
    var cut := b.count - (Stop(f) - b.address);
    var count := if slop == 0 then cut else (cut - slop) % 0x100_0000;
    if slop != 0 && count == 0 then None
    else
      Some(b.(address := address, count := count,
              datum := (b.datum + PageOf(ps, (address - b.address) % 0x1_0000_0000)) % 0x1_0000_0000))
  }

  /** The first background entry may still be trimmed: one that was moved around the end of memory may not. */
  function Trims(bg: seq<Entry>): nat {
    if bg != [] && (bg[0].address > 0 || bg[0].count >= 0x100_0000) then 1 else 0
  }

  /** A trimmed entry starts at or above the end of `f`, or the boundary it is moved to is the end of memory, and
      becomes 0. */
  lemma TrimWraps(ps: PageSize, bg: seq<Entry>, f: Entry)
    requires bg != [] && bg[0].address < Stop(f) < Stop(bg[0]) && TrimAbove(ps, bg[0], f).Some?
    ensures var t := TrimAbove(ps, bg[0], f).value;
      t.address < Stop(f) ==>
        Stop(f) + ps > 0x1_0000_0000 && OffsetOf(ps, Stop(f)) != 0 && Trims(bg[0 := t]) < Trims(bg)
  {
    var slop := OffsetOf(ps, Stop(f));
    var t := TrimAbove(ps, bg[0], f).value;
    if t.address < Stop(f) {
      NextBoundary(ps, Stop(f));
      assert bg[0].address == 0 ==> bg[0].count >= 0x100_0000;
    }
  }

  lemma NextBoundary(ps: PageSize, x: nat)
    requires x < 0x1_0000_0000
    ensures var slop := OffsetOf(ps, x);
      slop < ps && x + (ps - slop) <= 0x1_0000_0000 &&
      (x + (ps - slop)) % 0x1_0000_0000 == if x + (ps - slop) == 0x1_0000_0000 then 0 else x + (ps - slop)
  {
  }

  /** The merge from the point where `fg` and `bg` remain and `copied` says whether `fg[0]` was emitted. */
  function Merge(ps: PageSize, fg: seq<Entry>, bg: seq<Entry>, copied: bool): Merged
    decreases |fg|, |bg|, Trims(bg), if copied then 1 else 3
  {
    if fg == [] then Map(bg)
    else
      var f := fg[0];
      if bg != [] && Skipped(bg[0], f) then
        Merge(ps, fg, bg[1..], copied).After([bg[0]])
      else if !f.opcode.DataPages? && !copied then
        Continue(ps, fg, bg).After([f])
      else
        Cut(ps, fg, bg).After(if copied then Lower(f, bg) else Lower(f, bg) + [f])
  }

  /** The piece of the first background entry that lies below `f`. */
  function Lower(f: Entry, bg: seq<Entry>): seq<Entry> {
    if bg != [] && bg[0].address < f.address then [bg[0].(count := f.address - bg[0].address)] else []
  }

  /** The merge after the pieces around `fg[0]` were emitted: the first background entry is kept, trimmed or dropped. */
  function Cut(ps: PageSize, fg: seq<Entry>, bg: seq<Entry>): Merged
    requires fg != []
    decreases |fg|, |bg|, Trims(bg), 0
  {
    var f := fg[0];
    if bg == [] || bg[0].address >= Stop(f) then Merge(ps, fg[1..], bg, false)
    else if Stop(bg[0]) > Stop(f) then
      match TrimAbove(ps, bg[0], f)
      case None => Punt
      case Some(t) =>
        TrimWraps(ps, bg, f);
        if t.address >= Stop(f) then Merge(ps, fg[1..], bg[0 := t], false) else Merge(ps, fg, bg[0 := t], true)
    else Continue(ps, fg, bg[1..])
  }

  /** After `fg[0]` was emitted: move on to the next foreground entry unless `bg` still reaches into this one. */
  function Continue(ps: PageSize, fg: seq<Entry>, bg: seq<Entry>): Merged
    requires fg != []
    decreases |fg|, |bg|, Trims(bg), 2
  {
    if bg == [] || bg[0].address >= Stop(fg[0]) then Merge(ps, fg[1..], bg, false)
    else Merge(ps, fg, bg, true)
  }

  // ---------- Well-formed inputs ----------

  /** Load map entries in ascending order without overlap, as a world's own map lists them. */
  ghost predicate Ordered(s: seq<Entry>) {
    forall i, j :: 0 <= i < j < |s| ==> End(s[i]) <= s[j].address
  }

  /** The same, asked of the data-page entries only: special entries may stand anywhere. */
  ghost predicate DataOrdered(s: seq<Entry>) {
    forall i, j :: 0 <= i < j < |s| && s[i].opcode.DataPages? && s[j].opcode.DataPages? ==> End(s[i]) <= s[j].address
  }

  /** Data pages start on a page boundary, and their last file page number fits in 32 bits. */
  ghost predicate Paged(ps: PageSize, s: seq<Entry>) {
    forall i :: 0 <= i < |s| && s[i].opcode.DataPages? ==>
      OffsetOf(ps, s[i].address) == 0 && s[i].datum + PageOf(ps, s[i].count) < 0x1_0000_0000
  }

  /** A foreground entry that ends strictly inside background data pages ends on a page boundary. */
  ghost predicate CleanCuts(ps: PageSize, fg: seq<Entry>, bg: seq<Entry>) {
    forall i, j :: 0 <= i < |fg| && 0 <= j < |bg| && bg[j].opcode.DataPages? && bg[j].address < End(fg[i]) < End(bg[j])
      ==> OffsetOf(ps, End(fg[i])) == 0
  }

  /** Ends that are computed right: at 2^32 they wrap around. */
  ghost predicate EndsFit(fg: seq<Entry>, bg: seq<Entry>) {
    && (forall i :: 0 <= i < |fg| ==> End(fg[i]) < 0x1_0000_0000)
    && (forall i :: 0 <= i < |bg| && bg[i].opcode.DataPages? ==> End(bg[i]) < 0x1_0000_0000)
  }

  /** Maps that can be merged without giving up. The foreground is in order, special entries included; special
      background entries may stand anywhere. */
  ghost predicate Mergeable(ps: PageSize, fg: seq<Entry>, bg: seq<Entry>) {
    Ordered(fg) && DataOrdered(bg) && Paged(ps, bg) && CleanCuts(ps, fg, bg) && EndsFit(fg, bg)
  }

  lemma PageShift(ps: PageSize, x: nat, q: nat)
    ensures PageOf(ps, x + PageBase(ps, q)) == PageOf(ps, x) + q
    ensures OffsetOf(ps, x + PageBase(ps, q)) == OffsetOf(ps, x)
  {
  }

  /** On a page boundary, trimming drops `q` whole pages: no slop, no wrap. */
  lemma {:induction false} TrimByPages(ps: PageSize, b: Entry, f: Entry) returns (q: nat)
    requires b.opcode.DataPages? && OffsetOf(ps, b.address) == 0 && b.datum + PageOf(ps, b.count) < 0x1_0000_0000
    requires b.address < End(f) < End(b) < 0x1_0000_0000 && OffsetOf(ps, End(f)) == 0
    ensures End(f) - b.address == PageBase(ps, q)
    ensures TrimAbove(ps, b, f) == Some(b.(address := End(f), count := End(b) - End(f), datum := b.datum + q))
    ensures b.datum + q + PageOf(ps, End(b) - End(f)) < 0x1_0000_0000
  {
    q := PageOf(ps, End(f)) - PageOf(ps, b.address);
    PagesBetween(ps, b.address, End(f));
    hide PageOf, OffsetOf, PageBase;
    PageShift(ps, 0, q);
    PageShift(ps, End(b) - End(f), q);
    StartsAtZero(ps);
    Wrapless(End(f) - b.address);
    Wrapless(b.datum + q);
  }

  lemma PagesBetween(ps: PageSize, x: nat, y: nat)
    requires x <= y && OffsetOf(ps, x) == 0 && OffsetOf(ps, y) == 0
    ensures PageOf(ps, y) >= PageOf(ps, x) && y - x == PageBase(ps, PageOf(ps, y) - PageOf(ps, x))
  {
  }

  lemma StartsAtZero(ps: PageSize)
    ensures PageOf(ps, 0) == 0
  {
  }

  lemma Wrapless(x: nat)
    requires x < 0x1_0000_0000
    ensures x % 0x1_0000_0000 == x
  {
  }

  /** A trimmed entry keeps its end, and every address it still covers keeps its file word. */
  lemma {:induction false} TrimIsSuffix(ps: PageSize, b: Entry, f: Entry)
    requires b.opcode.DataPages? && OffsetOf(ps, b.address) == 0 && b.datum + PageOf(ps, b.count) < 0x1_0000_0000
    requires b.address < End(f) < End(b) < 0x1_0000_0000 && OffsetOf(ps, End(f)) == 0
    ensures TrimAbove(ps, b, f).Some?
    ensures var t := TrimAbove(ps, b, f).value;
      && t.opcode.DataPages? && t.address == End(f) && End(t) == End(b)
      && OffsetOf(ps, t.address) == 0 && t.datum + PageOf(ps, t.count) < 0x1_0000_0000
      && forall a :: Covers(t, a) ==> SourceAt(ps, t, a) == SourceAt(ps, b, a)
  {
    var q := TrimByPages(ps, b, f);
    var t := TrimAbove(ps, b, f).value;
    forall a: nat | Covers(t, a) ensures SourceAt(ps, t, a) == SourceAt(ps, b, a) {
      PageShift(ps, a - t.address, q);
    }
  }

  lemma {:induction false} Shrink(ps: PageSize, fg: seq<Entry>, bg: seq<Entry>)
    requires Mergeable(ps, fg, bg)
    ensures fg != [] ==> Mergeable(ps, fg[1..], bg)
    ensures bg != [] ==> Mergeable(ps, fg, bg[1..])
  {
    if bg != [] {
      assert forall j :: 0 <= j < |bg| - 1 ==> bg[1..][j] == bg[j + 1];
    }
  }

  lemma {:induction false} ShrinkTrimmed(ps: PageSize, fg: seq<Entry>, bg: seq<Entry>, t: Entry)
    requires Mergeable(ps, fg, bg) && fg != [] && bg != [] && bg[0].opcode.DataPages?
    requires bg[0].address < End(fg[0]) < End(bg[0])
    requires TrimAbove(ps, bg[0], fg[0]) == Some(t)
    ensures Mergeable(ps, fg, bg[0 := t])
  {
    TrimIsSuffix(ps, bg[0], fg[0]);
  }

  lemma {:induction false} DenoteFront(ps: PageSize, x: Entry, s: seq<Entry>, a: nat)
    ensures Denote(ps, [x] + s, a) ==
      if Denote(ps, s, a).Some? then Denote(ps, s, a) else if Covers(x, a) then Some(SourceAt(ps, x, a)) else None
  {
    assert ([x] + s)[1..] == s;
  }

  lemma DenoteNone(ps: PageSize, s: seq<Entry>, a: nat)
    ensures Denote(ps, s, a).Some? <==> Covered(s, a)
  {
    if s != [] {
      DenoteNone(ps, s[1..], a);
      assert forall i :: 1 <= i < |s| ==> s[i] == s[1..][i - 1];
    }
  }

  lemma {:induction false} DenoteAppend(ps: PageSize, s: seq<Entry>, t: seq<Entry>, a: nat)
    ensures Denote(ps, s + t, a) == if Denote(ps, t, a).Some? then Denote(ps, t, a) else Denote(ps, s, a)
  {
    if s == [] {
      assert s + t == t;
    } else {
      DenoteAppend(ps, s[1..], t, a);
      assert (s + t)[1..] == s[1..] + t;
    }
  }

  // ---------- Where the foreground has nothing ----------

  /** The merge succeeds, and where the foreground covers nothing it loads the background's word. */
  ghost predicate KeepsElsewhere(ps: PageSize, fg: seq<Entry>, bg: seq<Entry>, m: Merged, a: nat) {
    m.Map? && (!Covered(fg, a) ==> Denote(ps, m.entries, a) == Denote(ps, bg, a))
  }

  lemma {:induction false} CoveredTail(s: seq<Entry>, a: nat)
    requires s != []
    ensures Covered(s, a) <==> Covers(s[0], a) || Covered(s[1..], a)
    ensures SpeciallyCovered(s, a) <==>
      (!s[0].opcode.DataPages? && Covers(s[0], a)) || SpeciallyCovered(s[1..], a)
  {
    assert forall i :: 1 <= i < |s| ==> s[i] == s[1..][i - 1];
  }

  /** Wherever special entries stand in either map, the merge leaves the background alone outside the foreground. */
  lemma {:induction false} ElsewhereKept(ps: PageSize, fg: seq<Entry>, bg: seq<Entry>, copied: bool, a: nat)
    requires Mergeable(ps, fg, bg) && (copied ==> fg != [])
    ensures KeepsElsewhere(ps, fg, bg, Merge(ps, fg, bg, copied), a)
    decreases |fg|, |bg|, if copied then 1 else 3, 1
  {
    if fg == [] {
      return;
    }
    var f := fg[0];
    CoveredTail(fg, a);
    if bg != [] && Skipped(bg[0], f) {
      Shrink(ps, fg, bg);
      ElsewhereKept(ps, fg, bg[1..], copied, a);
      DenoteFront(ps, bg[0], Merge(ps, fg, bg[1..], copied).entries, a);
    } else if !f.opcode.DataPages? && !copied {
      ContinueKept(ps, fg, bg, a);
      DenoteFront(ps, f, Continue(ps, fg, bg).entries, a);
    } else {
      BodyKept(ps, fg, bg, copied, a);
    }
  }

  lemma {:induction false} ContinueKept(ps: PageSize, fg: seq<Entry>, bg: seq<Entry>, a: nat)
    requires Mergeable(ps, fg, bg) && fg != []
    ensures KeepsElsewhere(ps, fg, bg, Continue(ps, fg, bg), a)
    decreases |fg|, |bg|, 2
  {
    CoveredTail(fg, a);
    if bg == [] || bg[0].address >= Stop(fg[0]) {
      Shrink(ps, fg, bg);
      ElsewhereKept(ps, fg[1..], bg, false, a);
    } else {
      ElsewhereKept(ps, fg, bg, true, a);
    }
  }

  /** What the turn of `fg[0]` makes of the background once `bg[0]` has been cut around it. */
  lemma {:induction false} CutKept(ps: PageSize, fg: seq<Entry>, bg: seq<Entry>, a: nat)
    requires Mergeable(ps, fg, bg) && fg != [] && (bg != [] ==> !Skipped(bg[0], fg[0]))
    ensures Cut(ps, fg, bg).Map? && KeepsElsewhere(ps, fg, AfterFirst(ps, fg[0], bg), Cut(ps, fg, bg), a)
    decreases |fg|, |bg|, 0
  {
    var f := fg[0];
    CoveredTail(fg, a);
    Shrink(ps, fg, bg);
    if bg == [] || bg[0].address >= Stop(f) {
      ElsewhereKept(ps, fg[1..], bg, false, a);
    } else if Stop(bg[0]) > Stop(f) {
      TrimIsSuffix(ps, bg[0], f);
      var t := TrimAbove(ps, bg[0], f).value;
      ShrinkTrimmed(ps, fg, bg, t);
      Shrink(ps, fg, bg[0 := t]);
      ElsewhereKept(ps, fg[1..], bg[0 := t], false, a);
    } else {
      ContinueKept(ps, fg, bg[1..], a);
    }
  }

  /** The branch that cuts `bg[0]` around `f`. */
  lemma {:induction false} BodyKept(ps: PageSize, fg: seq<Entry>, bg: seq<Entry>, copied: bool, a: nat)
    requires Mergeable(ps, fg, bg) && fg != [] && (bg != [] ==> !Skipped(bg[0], fg[0]))
    requires fg[0].opcode.DataPages? || copied
    ensures KeepsElsewhere(ps, fg, bg, Merge(ps, fg, bg, copied), a)
    decreases |fg|, |bg|, if copied then 1 else 3, 0
  {
    CutKept(ps, fg, bg, a);
    CutDenotes(ps, fg, bg, a);
    FrontDenotes(ps, fg, bg, copied, Cut(ps, fg, bg), a);
  }

  /** The background after its first entry has been trimmed to its part above `f`, or passed over. */
  function AfterFirst(ps: PageSize, f: Entry, bg: seq<Entry>): seq<Entry> {
    if bg == [] || bg[0].address >= Stop(f) then bg
    else if Stop(bg[0]) > Stop(f) && TrimAbove(ps, bg[0], f).Some? then bg[0 := TrimAbove(ps, bg[0], f).value]
    else bg[1..]
  }

  /** Below and above `f`, the pieces left of `bg[0]` load what `bg[0]` loaded. */
  lemma {:induction false} CutDenotes(ps: PageSize, fg: seq<Entry>, bg: seq<Entry>, a: nat)
    requires Mergeable(ps, fg, bg) && fg != [] && (bg != [] ==> !Skipped(bg[0], fg[0]))
    ensures var rest := AfterFirst(ps, fg[0], bg);
      !Covered(fg, a) ==>
        Denote(ps, bg, a) == if Denote(ps, rest, a).Some? then Denote(ps, rest, a) else Denote(ps, Lower(fg[0], bg), a)
  {
    var lower := Lower(fg[0], bg);
    CoveredTail(fg, a);
    if bg != [] {
      if bg[0].address < Stop(fg[0]) {
        if Stop(bg[0]) > Stop(fg[0]) {
          TrimIsSuffix(ps, bg[0], fg[0]);
          var t := TrimAbove(ps, bg[0], fg[0]).value;
          assert bg[0 := t][1..] == bg[1..];
          assert Covers(t, a) ==> Covers(bg[0], a);
          assert Covers(bg[0], a) && !Covers(fg[0], a) ==> Covers(t, a) || (lower != [] && Covers(lower[0], a));
        }
      }
    }
  }

  lemma {:induction false} FrontDenotes(ps: PageSize, fg: seq<Entry>, bg: seq<Entry>, copied: bool, rest: Merged,
                                        a: nat)
    requires fg != [] && rest.Map? && KeepsElsewhere(ps, fg, AfterFirst(ps, fg[0], bg), rest, a)
    requires var after := AfterFirst(ps, fg[0], bg);
      !Covered(fg, a) ==>
        Denote(ps, bg, a) ==
          if Denote(ps, after, a).Some? then Denote(ps, after, a) else Denote(ps, Lower(fg[0], bg), a)
    ensures KeepsElsewhere(ps, fg, bg, rest.After(if copied then Lower(fg[0], bg) else Lower(fg[0], bg) + [fg[0]]), a)
  {
    var f, m, lower := fg[0], rest.entries, Lower(fg[0], bg);
    CoveredTail(fg, a);
    FrontShape(ps, lower, if copied then [] else [f], m, a);
    assert lower + [] == lower;
    assert [f][1..] == [];
  }

  lemma {:induction false} FrontShape(ps: PageSize, lower: seq<Entry>, copy: seq<Entry>, m: seq<Entry>, a: nat)
    requires |lower| <= 1 && |copy| <= 1
    ensures Denote(ps, lower + copy + m, a) ==
      if Denote(ps, m, a).Some? then Denote(ps, m, a)
      else if Denote(ps, copy, a).Some? then Denote(ps, copy, a) else Denote(ps, lower, a)
  {
    assert copy != [] ==> copy + m == [copy[0]] + m && copy[1..] == [];
    assert lower != [] ==> lower + copy + m == [lower[0]] + (copy + m) && lower[1..] == [];
    assert lower == [] ==> lower + copy + m == copy + m;
    assert copy == [] ==> copy + m == m;
    if copy != [] { DenoteFront(ps, copy[0], m, a); }
    if lower != [] { DenoteFront(ps, lower[0], copy + m, a); }
  }

  // ---------- Size ----------

  /** No foreground entry ends inside the last page of memory. */
  ghost predicate ClearOfLastPage(ps: PageSize, fg: seq<Entry>) {
    forall i :: 0 <= i < |fg| ==> OffsetOf(ps, Stop(fg[i])) == 0 || Stop(fg[i]) + ps <= 0x1_0000_0000
  }

  /** The size the loader allocates for the merged map is enough. */
  lemma {:induction false} MergeSize(ps: PageSize, fg: seq<Entry>, bg: seq<Entry>, copied: bool)
    requires ClearOfLastPage(ps, fg) && Merge(ps, fg, bg, copied).Map? && (copied ==> fg != [])
    ensures |Merge(ps, fg, bg, copied).entries| <= |bg| + 2 * |fg| - if copied then 1 else 0
    decreases |fg|, |bg|, if copied then 1 else 3
  {
    if fg != [] {
      if bg != [] && Skipped(bg[0], fg[0]) {
        MergeSize(ps, fg, bg[1..], copied);
      } else if !fg[0].opcode.DataPages? && !copied {
        ContinueSize(ps, fg, bg);
      } else if bg == [] || bg[0].address >= Stop(fg[0]) {
        MergeSize(ps, fg[1..], bg, false);
      } else if Stop(bg[0]) > Stop(fg[0]) {
        TrimWraps(ps, bg, fg[0]);
        MergeSize(ps, fg[1..], bg[0 := TrimAbove(ps, bg[0], fg[0]).value], false);
      } else {
        ContinueSize(ps, fg, bg[1..]);
      }
    }
  }

  lemma {:induction false} ContinueSize(ps: PageSize, fg: seq<Entry>, bg: seq<Entry>)
    requires ClearOfLastPage(ps, fg) && fg != [] && Continue(ps, fg, bg).Map?
    ensures |Continue(ps, fg, bg).entries| <= |bg| + 2 * |fg| - 1
    decreases |fg|, |bg|, 2
  {
    if bg == [] || bg[0].address >= Stop(fg[0]) {
      MergeSize(ps, fg[1..], bg, false);
    } else {
      MergeSize(ps, fg, bg, true);
    }
  }

  // ---------- Every output entry is an input entry or a piece of one ----------

  /** `p` survives both ways in which a clean merge cuts a background entry. */
  ghost predicate KeptByCuts(ps: PageSize, p: Entry -> bool, fg: seq<Entry>) {
    && (forall b, f | f in fg && p(b) && p(f) && !Skipped(b, f) && b.address < f.address ::
          p(b.(count := f.address - b.address)))
    && (forall b, f | f in fg && p(b) && p(f) && !Skipped(b, f) && b.address < End(f) < End(b) < 0x1_0000_0000 &&
          OffsetOf(ps, End(f)) == 0 && TrimAbove(ps, b, f).Some? :: p(TrimAbove(ps, b, f).value))
  }

  ghost predicate All(p: Entry -> bool, s: seq<Entry>) { forall i :: 0 <= i < |s| ==> p(s[i]) }

  lemma {:induction false} MergeKeeps(ps: PageSize, fg: seq<Entry>, bg: seq<Entry>, copied: bool, p: Entry -> bool)
    requires Mergeable(ps, fg, bg) && KeptByCuts(ps, p, fg) && All(p, fg) && All(p, bg) && (copied ==> fg != [])
    requires Merge(ps, fg, bg, copied).Map?
    ensures All(p, Merge(ps, fg, bg, copied).entries)
    decreases |fg|, |bg|, if copied then 1 else 3
  {
    if fg != [] {
      var f := fg[0];
      Shrink(ps, fg, bg);
      if bg != [] && Skipped(bg[0], f) {
        MergeKeeps(ps, fg, bg[1..], copied, p);
      } else if !f.opcode.DataPages? && !copied {
        ContinueKeeps(ps, fg, bg, p);
      } else {
        if bg == [] || bg[0].address >= Stop(f) {
          MergeKeeps(ps, fg[1..], bg, false, p);
        } else if Stop(bg[0]) > Stop(f) {
          var t := TrimAbove(ps, bg[0], f).value;
          ShrinkTrimmed(ps, fg, bg, t);
          Shrink(ps, fg, bg[0 := t]);
          MergeKeeps(ps, fg[1..], bg[0 := t], false, p);
        } else {
          ContinueKeeps(ps, fg, bg[1..], p);
        }
        assert All(p, Cut(ps, fg, bg).entries) && All(p, Lower(f, bg));
      }
    }
  }

  lemma {:induction false} ContinueKeeps(ps: PageSize, fg: seq<Entry>, bg: seq<Entry>, p: Entry -> bool)
    requires Mergeable(ps, fg, bg) && KeptByCuts(ps, p, fg) && All(p, fg) && All(p, bg) && fg != []
    requires Continue(ps, fg, bg).Map?
    ensures All(p, Continue(ps, fg, bg).entries)
    decreases |fg|, |bg|, 2
  {
    Shrink(ps, fg, bg);
    if bg == [] || bg[0].address >= Stop(fg[0]) {
      MergeKeeps(ps, fg[1..], bg, false, p);
    } else {
      MergeKeeps(ps, fg, bg, true, p);
    }
  }
}
