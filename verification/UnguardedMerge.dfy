/** The merge as it reads background entries without looking whether any is left, and when that does no harm. */
module UnguardedMerge {
  import opened Wrappers
  import opened LoadMaps
  import opened MergedWorlds

  /** A merged map, and whether an entry past the background array was written to. */
  datatype Swept = Swept(merged: Merged, strayed: bool) {
    function After(front: seq<Entry>): Swept { this.(merged := merged.After(front)) }
  }

  /** The merge when `slots` is what lies in memory past the background entries. While entries remain it is the guarded
      merge; after that, each round that looks at a background entry looks at a slot. */
  function Sweep(ps: PageSize, fg: seq<Entry>, bg: seq<Entry>, slots: seq<Entry>, copied: bool): Swept
    requires |fg| <= |slots|
    decreases |fg|, |bg|, Trims(bg), if copied then 1 else 3
  {
    if fg == [] then Swept(Map(bg), false)
    else
      var f := fg[0];
      if bg != [] && Skipped(bg[0], f) then Sweep(ps, fg, bg[1..], slots, copied).After([bg[0]])
      else if !f.opcode.DataPages? && !copied then SweepEnd(ps, fg, bg, slots).After([f])
      else if bg == [] then
        var s := slots[0];
        var below := if s.address < f.address then [s.(count := (f.address - s.address) % 0x100_0000)] else [];
        SweepSlot(ps, fg, slots).After(if copied then below else below + [f])
      else SweepCut(ps, fg, bg, slots).After(if copied then Lower(f, bg) else Lower(f, bg) + [f])
  }

  /** The slot is trimmed if it reaches above `f`, which writes to it, or else passed over, if it starts below the end
      of `f`. */
  function SweepSlot(ps: PageSize, fg: seq<Entry>, slots: seq<Entry>): Swept
    requires fg != [] && |fg| <= |slots|
    decreases |fg|, 0, 0, 0
  {
    var f, s := fg[0], slots[0];
    if s.address >= Stop(f) then Sweep(ps, fg[1..], [], slots, false)
    else if Stop(s) > Stop(f) then
      match TrimAbove(ps, s, f)
      case None => Swept(Punt, true)
      case Some(t) => Sweep(ps, fg[1..], [], slots[0 := t], false).(strayed := true)
    else Sweep(ps, fg[1..], [], slots[1..], false)
  }

  function SweepCut(ps: PageSize, fg: seq<Entry>, bg: seq<Entry>, slots: seq<Entry>): Swept
    requires fg != [] && bg != [] && |fg| <= |slots|
    decreases |fg|, |bg|, Trims(bg), 0
  {
    var f := fg[0];
    if bg[0].address >= Stop(f) then Sweep(ps, fg[1..], bg, slots, false)
    else if Stop(bg[0]) > Stop(f) then
      match TrimAbove(ps, bg[0], f)
      case None => Swept(Punt, false)
      case Some(t) =>
        TrimWraps(ps, bg, f);
        if t.address >= Stop(f) then Sweep(ps, fg[1..], bg[0 := t], slots, false)
        else Sweep(ps, fg, bg[0 := t], slots, true)
    else SweepEnd(ps, fg, bg[1..], slots)
  }

  function SweepEnd(ps: PageSize, fg: seq<Entry>, bg: seq<Entry>, slots: seq<Entry>): Swept
    requires fg != [] && |fg| <= |slots|
    decreases |fg|, |bg|, Trims(bg), 2
  {
    if bg == [] || bg[0].address >= Stop(fg[0]) then Sweep(ps, fg[1..], bg, slots, false)
    else Sweep(ps, fg, bg, slots, true)
  }

  // ---------- Foreground entries for which no background entry is left ----------

  /** The foreground from the entry on in whose turn the background runs out, and whether that entry was emitted. */
  function Unserved(ps: PageSize, fg: seq<Entry>, bg: seq<Entry>, copied: bool): (seq<Entry>, bool)
    decreases |fg|, |bg|, Trims(bg), if copied then 1 else 3
  {
    if fg == [] || bg == [] then (fg, copied)
    else if Skipped(bg[0], fg[0]) then Unserved(ps, fg, bg[1..], copied)
    else if !fg[0].opcode.DataPages? && !copied then UnservedEnd(ps, fg, bg)
    else if bg[0].address >= Stop(fg[0]) then Unserved(ps, fg[1..], bg, false)
    else if Stop(bg[0]) > Stop(fg[0]) then
      match TrimAbove(ps, bg[0], fg[0])
      case None => ([], false)
      case Some(t) =>
        TrimWraps(ps, bg, fg[0]);
        if t.address >= Stop(fg[0]) then Unserved(ps, fg[1..], bg[0 := t], false)
        else Unserved(ps, fg, bg[0 := t], true)
    else UnservedEnd(ps, fg, bg[1..])
  }

  function UnservedEnd(ps: PageSize, fg: seq<Entry>, bg: seq<Entry>): (seq<Entry>, bool)
    requires fg != []
    decreases |fg|, |bg|, Trims(bg), 2
  {
    if bg == [] || bg[0].address >= Stop(fg[0]) then Unserved(ps, fg[1..], bg, false)
    else Unserved(ps, fg, bg, true)
  }

  /** Each slot that is looked at starts above the foreground entry, or lies inside it, and is then done with. */
  predicate Harmless(fg: seq<Entry>, slots: seq<Entry>, copied: bool)
    requires |fg| <= |slots|
  {
    fg != [] ==>
      var f, s := fg[0], slots[0];
      if !f.opcode.DataPages? && !copied then Harmless(fg[1..], slots, false)
      else if s.address >= Stop(f) then s.address >= f.address && Harmless(fg[1..], slots, false)
      else s.address >= f.address && Stop(s) <= Stop(f) && Harmless(fg[1..], slots[1..], false)
  }

  lemma {:induction false} UnservedFewer(ps: PageSize, fg: seq<Entry>, bg: seq<Entry>, copied: bool)
    ensures |Unserved(ps, fg, bg, copied).0| <= |fg|
    decreases |fg|, |bg|, Trims(bg), if copied then 1 else 3
  {
    if fg != [] && bg != [] {
      if Skipped(bg[0], fg[0]) {
        UnservedFewer(ps, fg, bg[1..], copied);
      } else if !fg[0].opcode.DataPages? && !copied {
        UnservedEndFewer(ps, fg, bg);
      } else if bg[0].address >= Stop(fg[0]) {
        UnservedFewer(ps, fg[1..], bg, false);
      } else if Stop(bg[0]) > Stop(fg[0]) {
        var t := TrimAbove(ps, bg[0], fg[0]);
        if t.Some? {
          TrimWraps(ps, bg, fg[0]);
          if t.value.address >= Stop(fg[0]) {
            UnservedFewer(ps, fg[1..], bg[0 := t.value], false);
          } else {
            UnservedFewer(ps, fg, bg[0 := t.value], true);
          }
        }
      } else {
        UnservedEndFewer(ps, fg, bg[1..]);
      }
    }
  }

  lemma {:induction false} UnservedEndFewer(ps: PageSize, fg: seq<Entry>, bg: seq<Entry>)
    requires fg != []
    ensures |UnservedEnd(ps, fg, bg).0| <= |fg|
    decreases |fg|, |bg|, Trims(bg), 2
  {
    if bg == [] || bg[0].address >= Stop(fg[0]) {
      UnservedFewer(ps, fg[1..], bg, false);
    } else {
      UnservedFewer(ps, fg, bg, true);
    }
  }

  // ---------- Exactly when the sweep is the merge ----------

  /** With no background left, the guarded merge emits what remains of the foreground. */
  lemma {:induction false} ForegroundOnly(ps: PageSize, fg: seq<Entry>, copied: bool)
    requires copied ==> fg != []
    ensures Merge(ps, fg, [], copied) == Map(if copied then fg[1..] else fg)
  {
    if fg != [] {
      ForegroundOnly(ps, fg[1..], false);
      assert [fg[0]] + fg[1..] == fg;
      assert [] + fg[1..] == fg[1..];
      assert Lower(fg[0], []) + [fg[0]] == [fg[0]];
      assert Cut(ps, fg, []) == Merge(ps, fg[1..], [], false);
    }
  }

  /** Past the background, the sweep emits at least what the merge does, and nothing else exactly when the slots that it
      looks at are harmless. */
  lemma {:induction false} SlotsExactly(ps: PageSize, fg: seq<Entry>, slots: seq<Entry>, copied: bool)
    requires |fg| <= |slots| && (copied ==> fg != [])
    ensures var m, w := if copied then fg[1..] else fg, Sweep(ps, fg, [], slots, copied);
      && (w.merged.Map? ==> |w.merged.entries| >= |m|)
      && (w == Swept(Map(m), false) <==> Harmless(fg, slots, copied))
    decreases |fg|, 2
  {
    if fg != [] {
      var f, s := fg[0], slots[0];
      assert [f] + fg[1..] == fg && [] + [f] == [f] && [] + fg[1..] == fg[1..];
      if !f.opcode.DataPages? && !copied {
        SlotsExactly(ps, fg[1..], slots, false);
        FrontCancels([f], Sweep(ps, fg[1..], [], slots, false), Swept(Map(fg[1..]), false));
      } else {
        SlotExactly(ps, fg, slots, copied);
      }
    }
  }

  lemma FrontCancels(front: seq<Entry>, w: Swept, v: Swept)
    ensures w.After(front) == v.After(front) <==> w == v
  {
    if w.merged.Map? && v.merged.Map? && front + w.merged.entries == front + v.merged.entries {
      assert w.merged.entries == (front + w.merged.entries)[|front|..];
      assert v.merged.entries == (front + v.merged.entries)[|front|..];
    }
  }

  lemma {:induction false} SlotExactly(ps: PageSize, fg: seq<Entry>, slots: seq<Entry>, copied: bool)
    requires fg != [] && |fg| <= |slots| && (fg[0].opcode.DataPages? || copied)
    ensures var m, w := if copied then fg[1..] else fg, Sweep(ps, fg, [], slots, copied);
      && (w.merged.Map? ==> |w.merged.entries| >= |m|)
      && (w == Swept(Map(m), false) <==> Harmless(fg, slots, copied))
    decreases |fg|, 1
  {
    var f, s := fg[0], slots[0];
    var rest := SweepSlot(ps, fg, slots);
    SlotRest(ps, fg, slots);
    if s.address < f.address {
      var below := [s.(count := (f.address - s.address) % 0x100_0000)];
      assert Sweep(ps, fg, [], slots, copied) == rest.After(if copied then below else below + [f]);
    } else {
      var front := if copied then [] else [f];
      assert [] + [f] == [f];
      assert Sweep(ps, fg, [], slots, copied) == rest.After(front);
      FrontCancels(front, rest, Swept(Map(fg[1..]), false));
      assert [f] + fg[1..] == fg && [] + fg[1..] == fg[1..];
    }
  }

  /** What follows the entry whose turn looks at a slot. */
  lemma {:induction false} SlotRest(ps: PageSize, fg: seq<Entry>, slots: seq<Entry>)
    requires fg != [] && |fg| <= |slots|
    ensures var w, f, s := SweepSlot(ps, fg, slots), fg[0], slots[0];
      && (w.merged.Map? ==> |w.merged.entries| >= |fg| - 1)
      && (w == Swept(Map(fg[1..]), false) <==>
            if s.address >= Stop(f) then Harmless(fg[1..], slots, false)
            else Stop(s) <= Stop(f) && Harmless(fg[1..], slots[1..], false))
    decreases |fg|, 0
  {
    var f, s := fg[0], slots[0];
    if s.address >= Stop(f) {
      SlotsExactly(ps, fg[1..], slots, false);
    } else if Stop(s) > Stop(f) {
      var t := TrimAbove(ps, s, f);
      if t.Some? { SlotsExactly(ps, fg[1..], slots[0 := t.value], false); }
    } else {
      SlotsExactly(ps, fg[1..], slots[1..], false);
    }
  }

  /** The merge that does not look whether background entries are left does what the guarded merge does, writing nothing
      past the background, if and only if the slots are harmless to the foreground entries that are left without any. */
  lemma {:induction false} SweepExactly(ps: PageSize, fg: seq<Entry>, bg: seq<Entry>, slots: seq<Entry>, copied: bool)
    requires |fg| <= |slots| && (copied ==> fg != [])
    ensures var (unserved, started) := Unserved(ps, fg, bg, copied);
      && |unserved| <= |fg|
      && (Sweep(ps, fg, bg, slots, copied) == Swept(Merge(ps, fg, bg, copied), false) <==>
          Harmless(unserved, slots, started))
    decreases |fg|, |bg|, Trims(bg), if copied then 1 else 3
  {
    UnservedFewer(ps, fg, bg, copied);
    if fg == [] {
    } else if bg == [] {
      ForegroundOnly(ps, fg, copied);
      SlotsExactly(ps, fg, slots, copied);
    } else {
      var f := fg[0];
      if Skipped(bg[0], f) {
        SweepExactly(ps, fg, bg[1..], slots, copied);
        FrontCancels([bg[0]], Sweep(ps, fg, bg[1..], slots, copied), Swept(Merge(ps, fg, bg[1..], copied), false));
      } else if !f.opcode.DataPages? && !copied {
        SweepEndExactly(ps, fg, bg, slots);
        FrontCancels([f], SweepEnd(ps, fg, bg, slots), Swept(Continue(ps, fg, bg), false));
      } else {
        SweepCutExactly(ps, fg, bg, slots, copied);
        FrontCancels(if copied then Lower(f, bg) else Lower(f, bg) + [f], SweepCut(ps, fg, bg, slots),
          Swept(Cut(ps, fg, bg), false));
      }
    }
  }

  lemma {:induction false} SweepEndExactly(ps: PageSize, fg: seq<Entry>, bg: seq<Entry>, slots: seq<Entry>)
    requires fg != [] && |fg| <= |slots|
    ensures var (unserved, started) := UnservedEnd(ps, fg, bg);
      && |unserved| <= |fg|
      && (SweepEnd(ps, fg, bg, slots) == Swept(Continue(ps, fg, bg), false) <==> Harmless(unserved, slots, started))
    decreases |fg|, |bg|, Trims(bg), 2
  {
    if bg == [] || bg[0].address >= Stop(fg[0]) {
      SweepExactly(ps, fg[1..], bg, slots, false);
    } else {
      SweepExactly(ps, fg, bg, slots, true);
    }
  }

  lemma {:induction false} SweepCutExactly(ps: PageSize, fg: seq<Entry>, bg: seq<Entry>, slots: seq<Entry>,
                                           copied: bool)
    requires fg != [] && bg != [] && |fg| <= |slots| && !Skipped(bg[0], fg[0]) && (fg[0].opcode.DataPages? || copied)
    ensures var (unserved, started) := Unserved(ps, fg, bg, copied);
      && |unserved| <= |fg|
      && (SweepCut(ps, fg, bg, slots) == Swept(Cut(ps, fg, bg), false) <==> Harmless(unserved, slots, started))
    decreases |fg|, |bg|, Trims(bg), 0
  {
    var f := fg[0];
    if bg[0].address >= Stop(f) {
      SweepExactly(ps, fg[1..], bg, slots, false);
    } else if Stop(bg[0]) > Stop(f) {
      var t := TrimAbove(ps, bg[0], f);
      if t.Some? {
        TrimWraps(ps, bg, f);
        if t.value.address >= Stop(f) {
          SweepExactly(ps, fg[1..], bg[0 := t.value], slots, false);
        } else {
          SweepExactly(ps, fg, bg[0 := t.value], slots, true);
        }
      }
    } else {
      SweepEndExactly(ps, fg, bg[1..], slots);
    }
  }

  // ---------- The entries left without background, in closed form ----------

  /** How many entries of a page map come before the first that is left without background whose last entry is `last`:
      that lies above `last`, or follows one that reaches its end. */
  function Reached(fg: seq<Entry>, last: Entry): (n: nat)
    ensures n <= |fg|
  {
    if fg == [] || Stop(last) < fg[0].address then 0
    else if last.address < Stop(fg[0]) && Stop(last) <= Stop(fg[0]) then 1
    else 1 + Reached(fg[1..], last)
  }

  /** For page maps, the foreground entries whose turns look past the background are those that lie above its last
      entry, or behind one that reaches the end of it. */
  lemma {:induction false} PageMapsUnserved(ps: PageSize, fg: seq<Entry>, bg: seq<Entry>)
    requires PageMap(ps, fg) && PageMap(ps, bg) && bg != []
    ensures Unserved(ps, fg, bg, false) == (fg[Reached(fg, bg[|bg| - 1])..], false)
    decreases |fg|, |bg|, 1
  {
    var last := bg[|bg| - 1];
    if fg != [] {
      var f := fg[0];
      if Skipped(bg[0], f) {
        if |bg| > 1 { PageMapsUnserved(ps, fg, bg[1..]); }
      } else {
        PageTurnUnserved(ps, fg, bg, false);
      }
    }
  }

  lemma {:induction false} PageTurnUnserved(ps: PageSize, fg: seq<Entry>, bg: seq<Entry>, copied: bool)
    requires PageMap(ps, fg) && PageMap(ps, bg) && bg != [] && fg != [] && !Skipped(bg[0], fg[0])
    ensures Unserved(ps, fg, bg, copied) == (fg[Reached(fg, bg[|bg| - 1])..], false)
    decreases |fg|, |bg|, 0
  {
    hide TrimAbove, WholePages;
    var f, last := fg[0], bg[|bg| - 1];
    assert fg[1..][Reached(fg[1..], last)..] == fg[1 + Reached(fg[1..], last)..];
    StopsAt(ps, fg, bg);
    if bg[0].address >= Stop(f) {
      assert bg[0].address <= last.address;
      PageMapsUnserved(ps, fg[1..], bg);
    } else if Stop(bg[0]) > Stop(f) {
      TrimmedUnserved(ps, fg, bg);
    } else if |bg| == 1 {
      assert bg[1..] == [] && Unserved(ps, fg, bg, copied) == UnservedEnd(ps, fg, []);
      assert UnservedEnd(ps, fg, []) == Unserved(ps, fg[1..], [], false) == (fg[1..], false);
    } else if bg[1].address < Stop(f) {
      PageTurnUnserved(ps, fg, bg[1..], true);
    } else {
      assert bg[1].address <= last.address;
      PageMapsUnserved(ps, fg[1..], bg[1..]);
    }
  }

  /** Entries of page maps end where they say. */
  lemma StopsAt(ps: PageSize, fg: seq<Entry>, bg: seq<Entry>)
    requires PageMap(ps, fg) && PageMap(ps, bg) && bg != [] && fg != []
    ensures Stop(fg[0]) == End(fg[0]) && Stop(bg[0]) == End(bg[0]) && Stop(bg[|bg| - 1]) == End(bg[|bg| - 1])
    ensures fg[0].opcode.DataPages? && bg[0].opcode.DataPages?
    ensures |bg| > 1 ==> !Skipped(bg[1], fg[0]) || Skipped(bg[0], fg[0])
  {
  }

  lemma {:induction false} TrimmedUnserved(ps: PageSize, fg: seq<Entry>, bg: seq<Entry>)
    requires PageMap(ps, fg) && PageMap(ps, bg) && bg != [] && fg != [] && !Skipped(bg[0], fg[0])
    requires bg[0].address < Stop(fg[0]) < Stop(bg[0])
    ensures TrimAbove(ps, bg[0], fg[0]).Some? && TrimAbove(ps, bg[0], fg[0]).value.address >= Stop(fg[0])
    ensures var t := TrimAbove(ps, bg[0], fg[0]).value;
      Unserved(ps, fg[1..], bg[0 := t], false) == (fg[Reached(fg, bg[|bg| - 1])..], false)
    decreases |fg| - 1, |bg|, 2
  {
    hide Unserved;
    var f, b, last := fg[0], bg[0], bg[|bg| - 1];
    PageMapsMergeable(ps, fg, bg);
    TrimIsSuffix(ps, b, f);
    var t := TrimAbove(ps, b, f).value;
    WholeCuts(ps, b, f);
    PageMapsUnserved(ps, fg[1..], bg[0 := t]);
    TrimmedLast(fg[1..], b, t);
    assert Stop(b) <= Stop(last);
    assert fg[1..][Reached(fg[1..], last)..] == fg[1 + Reached(fg[1..], last)..];
  }

  /** Trimming the last entry does not change which entries reach its end. */
  lemma {:induction false} TrimmedLast(fg: seq<Entry>, b: Entry, t: Entry)
    requires Stop(t) == Stop(b) && b.address <= t.address < Stop(b)
    ensures Reached(fg, t) == Reached(fg, b)
  {
    if fg != [] { TrimmedLast(fg[1..], b, t); }
  }
}
