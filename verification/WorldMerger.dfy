/** The load map merge as the loader performs it: in place on the background array, world by world. */
module WorldMerger {
  import opened Wrappers
  import opened LoadMaps
  import opened MergeWinners
  import opened MergedWorlds

  lemma {:induction false} SkipRun(ps: PageSize, fg: seq<Entry>, bg: seq<Entry>, copied: bool, k: nat)
    requires fg != [] && k <= |bg| && forall i :: 0 <= i < k ==> Skipped(bg[i], fg[0])
    ensures Merge(ps, fg, bg, copied) == Merge(ps, fg, bg[k..], copied).After(bg[..k])
  {
    if k == 0 {
      assert bg[0..] == bg && bg[..0] == [];
      var merged := Merge(ps, fg, bg, copied);
      if merged.Map? { assert [] + merged.entries == merged.entries; }
    } else {
      SkipRun(ps, fg, bg[1..], copied, k - 1);
      assert bg[1..][k - 1..] == bg[k..] && [bg[0]] + bg[1..][..k - 1] == bg[..k];
      AfterTwice(Merge(ps, fg, bg[k..], copied), [bg[0]], bg[1..][..k - 1]);
    }
  }

  /** Copies background entries from `first` on, as long as they are special or lie below `f`. */
  method CopyBelow(f: Entry, background: array<Entry>, first: nat, nBackground: nat)
    returns (bIndex: nat, copies: seq<Entry>)
    requires first <= nBackground <= background.Length
    ensures first <= bIndex <= nBackground && (bIndex < nBackground ==> !Skipped(background[bIndex], f))
    ensures forall i :: first <= i < bIndex ==> Skipped(background[i], f)
    ensures copies == background[first..bIndex]
  {
    bIndex, copies := first, [];
    while bIndex < nBackground && (!background[bIndex].opcode.DataPages? ||
          (background[bIndex].address < f.address && Stop(background[bIndex]) < f.address))
      invariant first <= bIndex <= nBackground
      invariant forall i :: first <= i < bIndex ==> Skipped(background[i], f)
      invariant copies == background[first..bIndex]
    {
      copies := copies + [background[bIndex]];
      bIndex := bIndex + 1;
    }
  }

  /** What one round leaves of the background, `None` where the loader gives up. */
  function AfterCut(ps: PageSize, f: Entry, bg: seq<Entry>): Option<seq<Entry>> {
    if bg == [] || bg[0].address >= Stop(f) then Some(bg)
    else if Stop(bg[0]) > Stop(f) then
      match TrimAbove(ps, bg[0], f)
      case None => None
      case Some(t) => Some(bg[0 := t])
    else Some(bg[1..])
  }

  /** Trims the current background entry to its part above `f`, or passes over it. */
  method CutBackground(ps: PageSize, f: Entry, background: array<Entry>, bIndex: nat, nBackground: nat)
    returns (ok: bool, next: nat)
    requires bIndex <= nBackground <= background.Length
    modifies background
    ensures bIndex <= next <= nBackground && background[nBackground..] == old(background[nBackground..])
    ensures AfterCut(ps, f, old(background[bIndex..nBackground])) ==
      if ok then Some(background[next..nBackground]) else None
    ensures ok && next == bIndex < nBackground && background[bIndex].address < Stop(f) ==>
      Trims(background[bIndex..nBackground]) < Trims(old(background[bIndex..nBackground]))
  {
    ok, next := true, bIndex;
    if bIndex < nBackground && background[bIndex].address < Stop(f) {
      var b := background[bIndex];
      if Stop(b) > Stop(f) {
        var trimmed := TrimAbove(ps, b, f);
        if trimmed.None? {
          ok := false;
        } else {
          TrimWraps(ps, background[bIndex..nBackground], f);
          background[bIndex] := trimmed.value;
          assert background[bIndex..nBackground] == old(background[bIndex..nBackground])[0 := trimmed.value];
        }
      } else {
        next := bIndex + 1;
      }
    }
  }

  /** What one round emits after the `skipped` entries copied from the background. */
  function RoundFront(f: Entry, wasCopied: bool, rest: seq<Entry>): seq<Entry> {
    if !f.opcode.DataPages? && !wasCopied then [f]
    else if wasCopied then Lower(f, rest) else Lower(f, rest) + [f]
  }

  lemma {:induction false} RoundStep(ps: PageSize, fg: seq<Entry>, bg: seq<Entry>, wasCopied: bool, k: nat)
    requires fg != [] && k <= |bg| && (forall i :: 0 <= i < k ==> Skipped(bg[i], fg[0]))
    requires k < |bg| ==> !Skipped(bg[k], fg[0])
    ensures var rest := bg[k..];
      var left := if !fg[0].opcode.DataPages? && !wasCopied then Some(rest) else AfterCut(ps, fg[0], rest);
      Merge(ps, fg, bg, wasCopied) ==
        if left.None? then Punt else Continue(ps, fg, left.value).After(bg[..k] + RoundFront(fg[0], wasCopied, rest))
  {
    var rest := bg[k..];
    SkipRun(ps, fg, bg, wasCopied, k);
    var left := if !fg[0].opcode.DataPages? && !wasCopied then Some(rest) else AfterCut(ps, fg[0], rest);
    if left.Some? {
      AfterTwice(Continue(ps, fg, left.value), bg[..k], RoundFront(fg[0], wasCopied, rest));
    }
  }

  /** One round of the merge for the foreground entry `fg[0]`; `done` says that the round finished with it. */
  method MergeRound(ps: PageSize, ghost fg: seq<Entry>, f: Entry, wasCopied: bool,
                    background: array<Entry>, first: nat, nBackground: nat)
    returns (ok: bool, done: bool, bIndex: nat, emitted: seq<Entry>)
    requires fg != [] && f == fg[0] && first <= nBackground <= background.Length
    modifies background
    ensures background[nBackground..] == old(background[nBackground..])
    ensures first <= bIndex <= nBackground
    ensures ok && !done && first == bIndex ==>
      Trims(background[first..nBackground]) + (if wasCopied then 1 else 0) <= Trims(old(background[first..nBackground]))
    ensures var whole := Merge(ps, fg, old(background[first..nBackground]), wasCopied);
      if !ok then whole == Punt
      else if done then whole == Merge(ps, fg[1..], background[bIndex..nBackground], false).After(emitted)
      else whole == Merge(ps, fg, background[bIndex..nBackground], true).After(emitted)
  {
    hide Merge, Continue, TrimAbove, Skipped;
    ghost var bg := background[first..nBackground];
    bIndex, emitted := CopyBelow(f, background, first, nBackground);
    ghost var k, rest := bIndex - first, background[bIndex..nBackground];
    assert rest == bg[k..] && emitted == bg[..k];
    RoundStep(ps, fg, bg, wasCopied, k);
    ok := true;
    if !f.opcode.DataPages? && !wasCopied {
      emitted := emitted + [f];
    } else {
      if bIndex < nBackground && background[bIndex].address < f.address {
        emitted := emitted + [background[bIndex].(count := f.address - background[bIndex].address)];
      }
      if !wasCopied {
        emitted := emitted + [f];
      }
      ok, bIndex := CutBackground(ps, f, background, bIndex, nBackground);
    }
    assert emitted == bg[..k] + RoundFront(f, wasCopied, rest);
    done := bIndex >= nBackground || background[bIndex].address >= Stop(f);
    if ok { RoundEnds(ps, fg, background[bIndex..nBackground]); }
  }

  lemma RoundEnds(ps: PageSize, fg: seq<Entry>, bg: seq<Entry>)
    requires fg != []
    ensures Continue(ps, fg, bg) ==
      if bg == [] || bg[0].address >= Stop(fg[0]) then Merge(ps, fg[1..], bg, false) else Merge(ps, fg, bg, true)
  {
  }

  method ToArray(s: seq<Entry>) returns (a: array<Entry>)
    ensures fresh(a) && a[..] == s
  {
    a := new Entry[|s|](i requires 0 <= i < |s| => s[i]);
  }

  /** Merges `foreground` over `background`, trimming background entries in place; `ok` is false where the loader
      gives up. The merged map does not outgrow the space the loader allocates for it, unless a foreground entry ends
      inside the last page of memory. */
  method MergeAMap(ps: PageSize, foreground: array<Entry>, background: array<Entry>)
    returns (ok: bool, merged: array<Entry>)
    requires foreground != background
    modifies background
    ensures Merge(ps, old(foreground[..]), old(background[..]), false) == if ok then Map(merged[..]) else Punt
    ensures fresh(merged)
    ensures ClearOfLastPage(ps, old(foreground[..])) ==>
      merged.Length <= background.Length + foreground.Length + foreground.Length
  {
    var nForeground, nBackground := foreground.Length, background.Length;
    var out := [];
    ok := true;
    ghost var fg, bg := foreground[..], background[..];
    ghost var all := Merge(ps, fg, bg, false);
    var fIndex, bIndex, copied := 0, 0, false;
    EmptyFront(all);
    assert fg[0..] == fg && background[0..nBackground] == bg;
    while fIndex < nForeground
      invariant fIndex <= nForeground && bIndex <= nBackground && (copied ==> fIndex < nForeground)
      invariant foreground[..] == fg
      invariant all == Merge(ps, fg[fIndex..], background[bIndex..nBackground], copied).After(out)
      decreases nForeground - fIndex, nBackground - bIndex, Trims(background[bIndex..nBackground]), !copied
    {
      var done, emitted;
      assert fg[fIndex..][1..] == fg[fIndex + 1..];
      ok, done, bIndex, emitted :=
        MergeRound(ps, fg[fIndex..], foreground[fIndex], copied, background, bIndex, nBackground);
      if !ok {
        merged := ToArray([]);
        return;
      }
      AfterTwice(if done then Merge(ps, fg[fIndex + 1..], background[bIndex..nBackground], false)
                 else Merge(ps, fg[fIndex..], background[bIndex..nBackground], true), out, emitted);
      out := out + emitted;
      if done {
        fIndex, copied := fIndex + 1, false;
      } else {
        copied := true;
      }
    }
    ghost var start, emitted := bIndex, out;
    while bIndex < nBackground
      invariant start <= bIndex <= nBackground
      invariant out == emitted + background[start..bIndex]
    {
      out := out + [background[bIndex]];
      bIndex := bIndex + 1;
    }
    if ClearOfLastPage(ps, fg) { MergeSize(ps, fg, bg, false); }
    merged := ToArray(out);
  }

  /** An open world file: its own load maps and, once merged, those of its whole ancestry. */
  class World {
    const sysoutGeneration: nat
    const parentWorld: World?
    const wiredMapEntries: array<Entry>
    const unwiredMapEntries: array<Entry>
    var mergedWiredMapEntries: array<Entry>
    var mergedUnwiredMapEntries: array<Entry>

    constructor (generation: nat, parent: World?, wired: array<Entry>, unwired: array<Entry>)
      ensures sysoutGeneration == generation && parentWorld == parent
      ensures wiredMapEntries == wired && unwiredMapEntries == unwired
    {
      sysoutGeneration, parentWorld := generation, parent;
      wiredMapEntries, unwiredMapEntries := wired, unwired;
      mergedWiredMapEntries, mergedUnwiredMapEntries := wired, unwired;
    }
  }

  /** `chain` lists a world and its ancestors down to the base world, the only one of generation zero. */
  ghost predicate Ancestry(chain: seq<World>) {
    && chain != []
    && (forall i :: 0 <= i < |chain| - 1 ==> chain[i].sysoutGeneration > 0 && chain[i].parentWorld == chain[i + 1])
    && chain[|chain| - 1].sysoutGeneration == 0
    && (var base := chain[|chain| - 1];
        && base.wiredMapEntries != base.unwiredMapEntries
        && forall i :: 0 <= i < |chain| - 1 ==>
             && chain[i].wiredMapEntries != base.wiredMapEntries && chain[i].wiredMapEntries != base.unwiredMapEntries
             && chain[i].unwiredMapEntries != base.wiredMapEntries
             && chain[i].unwiredMapEntries != base.unwiredMapEntries)
  }

  /** Merges a world's own load maps over its parent's merged ones. */
  method MergeOverParent(ps: PageSize, world: World, parent: World)
    returns (ok: bool)
    requires world.wiredMapEntries != parent.mergedWiredMapEntries
    requires world.unwiredMapEntries != parent.mergedUnwiredMapEntries
    requires world.unwiredMapEntries != parent.mergedWiredMapEntries
    requires parent.mergedUnwiredMapEntries != parent.mergedWiredMapEntries
    modifies world`mergedWiredMapEntries, world`mergedUnwiredMapEntries
    modifies parent.mergedWiredMapEntries, parent.mergedUnwiredMapEntries
    ensures var wired := Merge(ps, old(world.wiredMapEntries[..]), old(parent.mergedWiredMapEntries[..]), false);
      var unwired := Merge(ps, old(world.unwiredMapEntries[..]), old(parent.mergedUnwiredMapEntries[..]), false);
      if ok then wired == Map(world.mergedWiredMapEntries[..]) && unwired == Map(world.mergedUnwiredMapEntries[..])
      else wired == Punt || unwired == Punt
    ensures ok ==> fresh(world.mergedWiredMapEntries) && fresh(world.mergedUnwiredMapEntries)
    ensures ok ==> world.mergedWiredMapEntries != world.mergedUnwiredMapEntries
  {
    var wired, unwired;
    ok, wired := MergeAMap(ps, world.wiredMapEntries, parent.mergedWiredMapEntries);
    if ok {
      ok, unwired := MergeAMap(ps, world.unwiredMapEntries, parent.mergedUnwiredMapEntries);
      if ok {
        world.mergedWiredMapEntries, world.mergedUnwiredMapEntries := wired, unwired;
      }
    }
  }

  /** Merges a world's two load maps with those of its ancestors, oldest first. The base world's own arrays serve
      as its merged ones, so they are the only own maps that the merge may trim. */
  method MergeParentLoadMap(ps: PageSize, world: World, ghost chain: seq<World>,
                            ghost wired: seq<seq<Entry>>, ghost unwired: seq<seq<Entry>>)
    returns (ok: bool)
    requires Ancestry(chain) && world == chain[0] && |wired| == |unwired| == |chain|
    requires forall i :: 0 <= i < |chain| ==> chain[i].wiredMapEntries[..] == wired[i]
    requires forall i :: 0 <= i < |chain| ==> chain[i].unwiredMapEntries[..] == unwired[i]
    modifies chain`mergedWiredMapEntries, chain`mergedUnwiredMapEntries
    modifies chain[|chain| - 1].wiredMapEntries, chain[|chain| - 1].unwiredMapEntries
    ensures if ok
      then
        && MergeChain(ps, wired) == Map(world.mergedWiredMapEntries[..])
        && MergeChain(ps, unwired) == Map(world.mergedUnwiredMapEntries[..])
      else MergeChain(ps, wired) == Punt || MergeChain(ps, unwired) == Punt
    ensures ok ==> world.mergedWiredMapEntries != world.mergedUnwiredMapEntries
    ensures |chain| == 1 ==>
      && world.mergedWiredMapEntries == world.wiredMapEntries
      && world.mergedUnwiredMapEntries == world.unwiredMapEntries
    ensures |chain| > 1 && ok ==> fresh(world.mergedWiredMapEntries) && fresh(world.mergedUnwiredMapEntries)
    decreases chain
  {
    if world.sysoutGeneration == 0 {
      world.mergedWiredMapEntries := world.wiredMapEntries;
      world.mergedUnwiredMapEntries := world.unwiredMapEntries;
      return true;
    }
    var parent := world.parentWorld;
    assert parent == chain[1];
    ok := MergeParentLoadMap(ps, parent, chain[1..], wired[1..], unwired[1..]);
    if ok {
      assert world.wiredMapEntries[..] == wired[0] && world.unwiredMapEntries[..] == unwired[0];
      ok := MergeOverParent(ps, world, parent);
    }
  }
}
