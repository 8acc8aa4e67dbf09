/** Merging a whole chain of worlds, newest first: what the merged map loads, and the methods that build it. */
module MergedWorlds {
  import opened Wrappers
  import opened LoadMaps
  import opened MergeOrder
  import opened MergeWinners

  // ---------- Chains of worlds ----------

  /** The merged map of `maps[0]`, whose parent is `maps[1]`, and so on to the base world. */
  function MergeChain(ps: PageSize, maps: seq<seq<Entry>>): Merged
    requires maps != []
  {
    if |maps| == 1 then Map(maps[0])
    else
      match MergeChain(ps, maps[1..])
      case Punt => Punt
      case Map(bg) => Merge(ps, maps[0], bg, false)
  }

  /** The word of the newest world that has one for `a`. */
  function Newest(ps: PageSize, maps: seq<seq<Entry>>, a: nat): Option<Source> {
    if maps == [] then None
    else if Denote(ps, maps[0], a).Some? then Denote(ps, maps[0], a)
    else Newest(ps, maps[1..], a)
  }

  /** Each world's map can be merged over the merged map of its parent. */
  ghost predicate ChainMergeable(ps: PageSize, maps: seq<seq<Entry>>)
    requires maps != []
  {
    |maps| > 1 ==>
      && ChainMergeable(ps, maps[1..])
      && MergeChain(ps, maps[1..]).Map?
      && Mergeable(ps, maps[0], MergeChain(ps, maps[1..]).entries)
  }

  /** At the newest world that covers `a`, nothing emitted after its entry covers `a` when it is merged over its
      ancestors. */
  ghost predicate NewestUnshadowed(ps: PageSize, maps: seq<seq<Entry>>, a: nat)
    requires maps != [] && ChainMergeable(ps, maps)
  {
    |maps| > 1 ==>
      if Covered(maps[0], a) then Wins(ps, maps[0], MergeChain(ps, maps[1..]).entries, a)
      else NewestUnshadowed(ps, maps[1..], a)
  }

  /** What the merged map of the ancestors of the newest world covering `a` holds for it. */
  ghost predicate FromAncestor(ps: PageSize, maps: seq<seq<Entry>>, a: nat, d: Option<Source>)
    requires maps != [] && ChainMergeable(ps, maps)
  {
    |maps| > 1 &&
      if Covered(maps[0], a) then FromOlder(ps, MergeChain(ps, maps[1..]).entries, a, d)
      else FromAncestor(ps, maps[1..], a, d)
  }

  /** The merged map of a chain gives an address the word of the newest world covering it if nothing shadows that
      world's entry, and otherwise the word of an entry of its ancestors; special entries may stand in every world. */
  lemma {:induction false} NewestWorldWinsExactly(ps: PageSize, maps: seq<seq<Entry>>, a: nat)
    requires maps != [] && ChainMergeable(ps, maps)
    ensures MergeChain(ps, maps).Map?
    ensures var d := Denote(ps, MergeChain(ps, maps).entries, a);
      if NewestUnshadowed(ps, maps, a) then d == Newest(ps, maps, a) else FromAncestor(ps, maps, a, d)
  {
    hide Merge, Wins, Mergeable, FromOlder;
    if |maps| == 1 {
      NewestOne(ps, maps, a);
    } else {
      NewestWorldWinsExactly(ps, maps[1..], a);
      DenoteNone(ps, maps[0], a);
      ElsewhereKept(ps, maps[0], MergeChain(ps, maps[1..]).entries, false, a);
      if Covered(maps[0], a) { NewestWinsExactly(ps, maps[0], MergeChain(ps, maps[1..]).entries, a); }
    }
  }

  lemma {:induction false} NewestOne(ps: PageSize, maps: seq<seq<Entry>>, a: nat)
    requires |maps| == 1
    ensures Newest(ps, maps, a) == Denote(ps, maps[0], a)
  {
    assert Newest(ps, maps[1..], a) == None;
  }

  // ---------- Chains of whole data pages ----------

  /** Data pages with page-aligned start and extent, below the last page of memory. */
  ghost predicate WholePages(ps: PageSize, e: Entry) {
    && e.opcode.DataPages? && OffsetOf(ps, e.address) == 0 && OffsetOf(ps, e.count) == 0
    && e.datum + PageOf(ps, e.count) < 0x1_0000_0000 && End(e) < 0x1_0000_0000
  }

  ghost predicate PageMap(ps: PageSize, s: seq<Entry>) {
    Ordered(s) && forall i :: 0 <= i < |s| ==> WholePages(ps, s[i])
  }

  lemma {:induction false} PageMapsMergeable(ps: PageSize, fg: seq<Entry>, bg: seq<Entry>)
    requires PageMap(ps, fg) && PageMap(ps, bg)
    ensures Mergeable(ps, fg, bg)
  {
    forall i | 0 <= i < |fg| ensures OffsetOf(ps, End(fg[i])) == 0 {
      AlignedSum(ps, fg[i].address, fg[i].count);
    }
  }

  lemma AlignedSum(ps: PageSize, x: nat, y: nat)
    requires OffsetOf(ps, x) == 0 && OffsetOf(ps, y) == 0
    ensures OffsetOf(ps, x + y) == 0
  {
    SumOffset(ps, PageOf(ps, x), PageOf(ps, y));
  }

  lemma SumOffset(ps: PageSize, p: nat, q: nat)
    ensures OffsetOf(ps, PageBase(ps, p) + PageBase(ps, q)) == 0
  {
    if ps == 256 {
      assert p * 256 + q * 256 == 256 * (p + q);
    } else {
      assert p * 8192 + q * 8192 == 8192 * (p + q);
    }
  }

  lemma AlignedDifference(ps: PageSize, x: nat, y: nat)
    requires y <= x && OffsetOf(ps, x) == 0 && OffsetOf(ps, y) == 0
    ensures OffsetOf(ps, x - y) == 0
  {
  }

  lemma FewerPages(ps: PageSize, x: nat, y: nat)
    requires y <= x
    ensures PageOf(ps, y) <= PageOf(ps, x)
  {
  }

  lemma {:induction false} WholeCuts(ps: PageSize, b: Entry, f: Entry)
    requires WholePages(ps, b) && WholePages(ps, f) && !Skipped(b, f)
    ensures b.address < f.address ==> WholePages(ps, b.(count := f.address - b.address))
    ensures b.address < End(f) < End(b) && TrimAbove(ps, b, f).Some? ==> WholePages(ps, TrimAbove(ps, b, f).value)
  {
    AlignedSum(ps, f.address, f.count);
    AlignedSum(ps, b.address, b.count);
    if b.address < f.address {
      AlignedDifference(ps, f.address, b.address);
      FewerPages(ps, b.count, f.address - b.address);
    }
    if b.address < End(f) < End(b) {
      var q := TrimByPages(ps, b, f);
      AlignedDifference(ps, End(b), End(f));
    }
  }

  /** The merge of two page maps is a page map: sorted, disjoint, aligned. */
  lemma {:induction false} PageMapsMerge(ps: PageSize, fg: seq<Entry>, bg: seq<Entry>)
    requires PageMap(ps, fg) && PageMap(ps, bg)
    ensures Merge(ps, fg, bg, false).Map? && PageMap(ps, Merge(ps, fg, bg, false).entries)
  {
    PageMapsMergeable(ps, fg, bg);
    MergeOrderedExactly(ps, fg, bg);
    PagesSettle(ps, fg, bg);
    var p: Entry -> bool := (e: Entry) => WholePages(ps, e);
    assert KeptByCuts(ps, p, fg) by {
      forall b, f | f in fg && p(b) && p(f) && !Skipped(b, f)
        ensures b.address < f.address ==> p(b.(count := f.address - b.address))
      {
        WholeCuts(ps, b, f);
      }
      forall b, f |
          f in fg && p(b) && p(f) && !Skipped(b, f) && b.address < End(f) < End(b) < 0x1_0000_0000 &&
          OffsetOf(ps, End(f)) == 0 && TrimAbove(ps, b, f).Some?
        ensures p(TrimAbove(ps, b, f).value)
      {
        WholeCuts(ps, b, f);
      }
    }
    MergeKeeps(ps, fg, bg, false, p);
    WholeAndOrdered(ps, Merge(ps, fg, bg, false).entries, p);
  }

  lemma {:induction false} WholeAndOrdered(ps: PageSize, s: seq<Entry>, p: Entry -> bool)
    requires DataOrdered(s) && All(p, s) && forall e :: p(e) ==> WholePages(ps, e)
    ensures PageMap(ps, s)
  {
    assert forall i :: 0 <= i < |s| ==> p(s[i]);
  }

  /** For any number of generations of page maps: no generation punts, the merged map is again a page map, it
      covers exactly what some generation covers, and the newest generation covering an address supplies its word. */
  lemma {:induction false} PageChains(ps: PageSize, maps: seq<seq<Entry>>)
    requires maps != [] && forall i :: 0 <= i < |maps| ==> PageMap(ps, maps[i])
    ensures MergeChain(ps, maps).Map? && PageMap(ps, MergeChain(ps, maps).entries) && ChainMergeable(ps, maps)
    ensures forall a: nat :: Denote(ps, MergeChain(ps, maps).entries, a) == Newest(ps, maps, a)
    ensures forall a: nat ::
      Covered(MergeChain(ps, maps).entries, a) <==> exists i :: 0 <= i < |maps| && Covered(maps[i], a)
  {
    if |maps| > 1 {
      PageChains(ps, maps[1..]);
      PageMapsMergeable(ps, maps[0], MergeChain(ps, maps[1..]).entries);
      PageMapsMerge(ps, maps[0], MergeChain(ps, maps[1..]).entries);
    }
    forall a: nat
      ensures Denote(ps, MergeChain(ps, maps).entries, a) == Newest(ps, maps, a)
      ensures Covered(MergeChain(ps, maps).entries, a) <==> exists i :: 0 <= i < |maps| && Covered(maps[i], a)
    {
      NewestWorldWinsExactly(ps, maps, a);
      PageChainUnshadowed(ps, maps, a);
      DenoteNone(ps, MergeChain(ps, maps).entries, a);
      NewestCovers(ps, maps, a);
    }
  }

  lemma {:induction false} PageChainUnshadowed(ps: PageSize, maps: seq<seq<Entry>>, a: nat)
    requires maps != [] && ChainMergeable(ps, maps)
    requires |maps| > 1 ==>
      PageMap(ps, MergeChain(ps, maps[1..]).entries) && forall i :: 0 <= i < |maps| ==> PageMap(ps, maps[i])
    ensures NewestUnshadowed(ps, maps, a)
  {
    if |maps| > 1 {
      if Covered(maps[0], a) {
        PagesNeverShadow(ps, maps[0], MergeChain(ps, maps[1..]).entries, a);
      } else {
        if |maps| > 2 { PageChains(ps, maps[2..]); }
        PageChainUnshadowed(ps, maps[1..], a);
      }
    }
  }

  lemma {:induction false} NewestCovers(ps: PageSize, maps: seq<seq<Entry>>, a: nat)
    ensures Newest(ps, maps, a).Some? <==> exists i :: 0 <= i < |maps| && Covered(maps[i], a)
  {
    if maps != [] {
      DenoteNone(ps, maps[0], a);
      NewestCovers(ps, maps[1..], a);
      assert forall i :: 1 <= i < |maps| ==> maps[i] == maps[1..][i - 1];
    }
  }
}
