/** The address space whose pages and wads are made, removed, and loaded from world files. */
module WorldMapper {
  import opened TaggedMemory
  import opened Ivory
  import opened WorldBytes
  import opened Wads
  import opened MappedLoads
  import LoadMaps
  import WorldFile
  import SavedWorlds

  /** `n` words of a file, whose data are at one offset and whose tags at another. */
  function FileWords(order: Order, file: seq<Byte>, dataOffset: nat, tagOffset: nat, n: nat): (r: seq<Word>)
    requires dataOffset + 4 * n <= |file| && tagOffset + n <= |file|
    ensures |r| == n
  {
    seq(n, k requires 0 <= k < n =>
      Word(file[tagOffset + k], BytesWord(order, file[dataOffset + 4 * k..dataOffset + 4 * k + 4])))
  }

  lemma FileWordsAt(order: Order, file: seq<Byte>, dataOffset: nat, tagOffset: nat, n: nat, k: nat)
    requires dataOffset + 4 * n <= |file| && tagOffset + n <= |file| && k < n
    ensures FileWords(order, file, dataOffset, tagOffset, n)[k] ==
      Word(file[tagOffset + k], BytesWord(order, file[dataOffset + 4 * k..dataOffset + 4 * k + 4]))
  {
  }

  /** Data and tags advance in lock step, four bytes to one. */
  lemma FileWordsSplit(order: Order, file: seq<Byte>, dataOffset: nat, tagOffset: nat, n: nat, k: nat)
    requires dataOffset + 4 * n <= |file| && tagOffset + n <= |file| && k <= n
    ensures var words := FileWords(order, file, dataOffset, tagOffset, n);
      && words[..k] == FileWords(order, file, dataOffset, tagOffset, k)
      && words[k..] == FileWords(order, file, dataOffset + 4 * k, tagOffset + k, n - k)
  {
    hide BytesWord;
    var rest := FileWords(order, file, dataOffset + 4 * k, tagOffset + k, n - k);
    forall i | 0 <= i < n - k ensures FileWords(order, file, dataOffset, tagOffset, n)[k..][i] == rest[i] {
      assert dataOffset + 4 * (k + i) == dataOffset + 4 * k + 4 * i;
    }
  }

  /** The file words of a data page entry. */
  function EntryWords(order: Order, images: seq<SavedWorlds.Image>, e: LoadMaps.Entry): (r: seq<Word>)
    requires SavedWorlds.Loadable(images, e) && e.opcode == LoadMaps.DataPages
    ensures |r| == e.count
  {
    var im := images[e.world];
    FileWords(order, im.file, WorldFile.DataPlace(im.bases, e.datum), WorldFile.TagPlace(im.bases, e.datum), e.count)
  }

  lemma {:induction false} EntryWordsAre(order: Order, images: seq<SavedWorlds.Image>, e: LoadMaps.Entry, a: nat)
    requires SavedWorlds.Loadable(images, e) && e.opcode == LoadMaps.DataPages
    requires LoadMaps.Covers(e, a) && !images[e.world].swapped
    ensures SavedWorlds.Resolvable(images, LoadMaps.SourceAt(WorldFile.VLM_PAGE, e, a))
    ensures EntryWords(order, images, e)[a - e.address] ==
      SavedWorlds.Resolve(order, images, LoadMaps.SourceAt(WorldFile.VLM_PAGE, e, a))
  {
    hide BytesWord, WorldFile.DataPlace, WorldFile.TagPlace;
    SavedWorlds.WordPlace(images[e.world].bases, e.datum, a - e.address);
    SavedWorlds.LoadableAt(images, e, a);
  }

  /** Mapping a data page entry of a file in the host's byte order loads what the entry stands for. */
  lemma {:induction false} MappingLoadsEntry(order: Order, images: seq<SavedWorlds.Image>, s: Space, e: LoadMaps.Entry,
                                             tracking: bool, a: nat)
    requires s.Sized() && LoadMaps.End(e) <= MEMORY && SavedWorlds.Loadable(images, e) && e.opcode == LoadMaps.DataPages
    requires !images[e.world].swapped && a < MEMORY && (LoadMaps.Covers(e, a) || s.Created(a / 8192))
    ensures var loaded := MapLoad(s, e.address, EntryWords(order, images, e), tracking);
      loaded.Done? ==> loaded.space.memory[a] == SavedWorlds.LoadMapData(order, images, s.memory, e)[a]
  {
    hide MapLoad, EntryWords, SavedWorlds.Resolve, SavedWorlds.Resolvable, SavedWorlds.Loadable, LoadMaps.SourceAt;
    var words := EntryWords(order, images, e);
    LoadCopies(s, e.address, words, tracking);
    var loaded := MapLoad(s, e.address, words, tracking);
    if LoadMaps.Covers(e, a) {
      EntryWordsAre(order, images, e, a);
      if loaded.Done? {
        assert loaded.space.memory[e.address..e.address + |words|][a - e.address] == words[a - e.address];
      }
    }
  }

  /** The address space, updated in place. The host's mappings are a ghost set of wads. */
  class AddressSpace {
    const attributes: array<Attributes>
    const memory: array<Word>
    ghost var mapped: set<nat>
    const tracking: bool

    predicate Sized() { attributes.Length == PAGES && memory.Length == MEMORY }

    ghost function View(): (s: Space)
      requires Sized()
      reads this, attributes, memory
      ensures s.Sized()
    {
      Space(attributes[..], memory[..], mapped)
    }

    method WadCreated(w: nat) returns (created: bool)
      requires Sized() && w < WADS
      ensures created == View().WadCreated(w)
    {
      var p := 8 * w;
      created := false;
      while p < 8 * w + 8
        invariant 8 * w <= p <= 8 * w + 8
        invariant created == exists q :: 8 * w <= q < p && attributes[q].exists_
      {
        created := created || attributes[p].exists_;
        p := p + 1;
      }
      AnyOfEight(View(), w);
    }

    method BlankWad(w: nat)
      requires Sized() && w < WADS
      modifies memory
      ensures memory[..] == Blank(old(memory[..]), w)
    {
      var a := w * WAD;
      while a < w * WAD + WAD
        invariant w * WAD <= a <= w * WAD + WAD
        invariant forall b | 0 <= b < MEMORY ::
          memory[b] == if w * WAD <= b < a then Word(0, 0xFFFF_FFFF) else old(memory[b])
      {
        memory[a] := Word(0, 0xFFFF_FFFF);
        a := a + 1;
      }
    }

    method EnsureVirtualAddress(vma: nat, faultp: bool) returns (words: nat)
      requires Sized() && vma < MEMORY
      modifies this`mapped, attributes, memory
      ensures View() == Ensure(old(View()), vma / 8192, faultp, tracking) && words == 8192
    {
      hide Blank, Space.WadCreated;
      words := 8192;
      var p := vma / 8192;
      var a := attributes[p];
      if a.exists_ {
        if !a.modified {
          attributes[p] := a.(modified := true);
        }
        return;
      }
      var created := WadCreated(p / 8);
      attributes[p] := DefaultAttributes(faultp, false, tracking);
      if !created {
        BlankWad(p / 8);
        mapped := mapped + {p / 8};
      }
    }

    method DestroyVirtualAddress(vma: nat) returns (words: nat)
      requires Sized() && vma < MEMORY
      modifies this`mapped, attributes
      ensures View() == Destroy(old(View()), vma / 8192)
      ensures words == if old(View()).Created(vma / 8192) then 8192 else 0
    {
      hide Space.WadCreated;
      var p := vma / 8192;
      words := 0;
      if attributes[p].exists_ {
        attributes[p] := ABSENT;
        words := 8192;
      }
      var created := WadCreated(p / 8);
      if !created {
        mapped := mapped - {p / 8};
      }
    }

    method DestroyVirtualAddressRange(vma: nat, count: nat) returns (words: nat)
      requires Sized() && vma < MEMORY && count < MEMORY
      modifies this`mapped, attributes
      ensures (View(), words) == DestroyRange(old(View()), vma / 8192, RangePages(vma, count))
    {
      hide Destroy, Space.WadCreated;
      var p: nat, pages: nat := vma / 8192, (count + vma % 8192 + 8191) % 0x1_0000_0000 / 8192;
      words := 0;
      ghost var all := DestroyRange(View(), p, pages);
      while pages > 0
        invariant 0 <= pages && p < PAGES
        invariant all == var (t, rest) := DestroyRange(View(), p, pages); (t, words + rest)
        decreases pages
      {
        PageStart(p);
        if attributes[p].exists_ {
          var freed := DestroyVirtualAddress(p * 8192);
          words := words + freed;
        }
        p, pages := FollowingPage(p), pages - 1;
      }
    }

    /** Reads words of the file into memory. */
    method ReadWords(order: Order, file: seq<Byte>, vma: nat, n: nat, dataOffset: nat, tagOffset: nat)
      requires Sized() && vma + n <= MEMORY && dataOffset + 4 * n <= |file| && tagOffset + n <= |file|
      modifies memory
      ensures memory[..] == PutWords(old(memory[..]), vma, FileWords(order, file, dataOffset, tagOffset, n))
    {
      hide BytesWord, FileWords;
      ghost var words, was := FileWords(order, file, dataOffset, tagOffset, n), memory[..];
      var k: nat := 0;
      while k < n
        invariant k <= n
        invariant forall a | vma <= a < vma + k :: memory[a] == words[a - vma]
        invariant forall a | 0 <= a < MEMORY && !(vma <= a < vma + k) :: memory[a] == was[a]
      {
        var d := dataOffset + 4 * k;
        var w := Word(file[tagOffset + k], BytesWord(order, file[d..d + 4]));
        FileWordsAt(order, file, dataOffset, tagOffset, n, k);
        memory[vma + k] := w;
        k := k + 1;
      }
      assert memory[..] == was[..vma] + words + was[vma + n..];
    }

    /** Copies part of a page from the file. */
    method CopyFromFile(order: Order, file: seq<Byte>, vma: nat, n: nat, dataOffset: nat, tagOffset: nat)
      requires Sized() && vma < MEMORY && vma + n <= MEMORY && dataOffset + 4 * n <= |file| && tagOffset + n <= |file|
      modifies this`mapped, attributes, memory
      ensures View() == CopyPart(old(View()), vma, FileWords(order, file, dataOffset, tagOffset, n), tracking)
    {
      hide Ensure, FileWords;
      var ensured := EnsureVirtualAddress(vma, false);
      ReadWords(order, file, vma, n, dataOffset, tagOffset);
      attributes[vma / 8192] := DefaultAttributes(false, true, tracking);
    }

    /** Maps one wad from the file. */
    method MapFromFile(order: Order, file: seq<Byte>, w: nat, dataOffset: nat, tagOffset: nat)
      requires Sized() && w < WADS && dataOffset + 4 * WAD <= |file| && tagOffset + WAD <= |file|
      modifies this`mapped, attributes, memory
      ensures View() == MapWad(old(View()), w, FileWords(order, file, dataOffset, tagOffset, WAD), tracking)
    {
      hide FileWords, PutWords;
      ghost var was := attributes[..];
      var a, p := DefaultAttributes(false, true, tracking), 8 * w;
      while p < 8 * w + 8
        invariant 8 * w <= p <= 8 * w + 8
        invariant forall q | 0 <= q < PAGES :: attributes[q] == if 8 * w <= q < p then a else old(attributes[q])
        modifies attributes
      {
        attributes[p] := a;
        p := p + 1;
      }
      assert attributes[..] == was[..8 * w] + [a, a, a, a, a, a, a, a] + was[8 * w + 8..];
      assert memory[..] == old(memory[..]);
      ReadWords(order, file, w * WAD, WAD, dataOffset, tagOffset);
      mapped := mapped + {w};
      assert View().mapped == old(mapped) + {w};
      assert View().memory == PutWords(old(memory[..]), w * WAD, FileWords(order, file, dataOffset, tagOffset, WAD));
      assert View().attrs == was[..8 * w] + [a, a, a, a, a, a, a, a] + was[8 * w + 8..];
    }

    /** Copies the next part of a load, or maps the next wad, `done` words in all. */
    method LoadPart(order: Order, file: seq<Byte>, v: nat, n: nat, d: nat, t: nat) returns (ok: bool, done: nat)
      requires Sized() && n > 0 && v + n <= MEMORY && d + 4 * n <= |file| && t + n <= |file|
      modifies this`mapped, attributes, memory
      ensures 0 < done <= n
      ensures MapLoad(old(View()), v, FileWords(order, file, d, t, n), tracking) ==
        if ok then MapLoad(View(), v + done, FileWords(order, file, d + 4 * done, t + done, n - done), tracking)
        else Stuck
    {
      hide FileWords, CopyPart, MapWad, MapLoad, Space.WadCreated;
      ghost var before, words := View(), FileWords(order, file, d, t, n);
      ok := true;
      MapLoadUnfolds(before, v, words, tracking);
      if v % WAD != 0 || attributes[v / 8192].exists_ || n < WAD {
        done := CopySize(v, n);
        FileWordsSplit(order, file, d, t, n, done);
        CopyFromFile(order, file, v, done, d, t);
      } else {
        done := WAD;
        FileWordsSplit(order, file, d, t, n, WAD);
        var created := WadCreated(v / WAD);
        if created {
          return false, done;
        }
        MapFromFile(order, file, v / WAD, d, t);
      }
    }

    /** Loads `length` words from the file at `vma`. Fails where it would have to map no wad at all. */
    method MapWorldLoad(order: Order, file: seq<Byte>, vma: nat, length: nat, dataOffset: nat, tagOffset: nat)
      returns (ok: bool)
      requires Sized() && vma + length <= MEMORY && dataOffset + 4 * length <= |file| && tagOffset + length <= |file|
      modifies this`mapped, attributes, memory
      ensures MapLoad(old(View()), vma, FileWords(order, file, dataOffset, tagOffset, length), tracking) ==
        if ok then Done(View()) else Stuck
    {
      hide FileWords, MapLoad;
      ghost var all := MapLoad(View(), vma, FileWords(order, file, dataOffset, tagOffset, length), tracking);
      var v, n, d, t := vma, length, dataOffset, tagOffset;
      while n > 0
        invariant 0 <= n && v + n <= MEMORY && d + 4 * n <= |file| && t + n <= |file| && 0 <= v && 0 <= d && 0 <= t
        invariant MapLoad(View(), v, FileWords(order, file, d, t, n), tracking) == all
        decreases n
      {
        var going, done := LoadPart(order, file, v, n, d, t);
        if !going {
          return false;
        }
        v, n, d, t := v + done, n - done, d + 4 * done, t + done;
      }
      MapLoadOfNothing(View(), v, tracking);
      assert FileWords(order, file, d, t, 0) == [];
      ok := true;
    }
  }

  lemma AnyOfEight(s: Space, w: nat)
    requires s.Sized() && w < WADS
    ensures s.WadCreated(w) <==> exists q :: 8 * w <= q < 8 * w + 8 && s.attrs[q].exists_
  {
  }

  lemma MapLoadUnfolds(s: Space, vma: nat, words: seq<Word>, tracking: bool)
    requires s.Sized() && vma + |words| <= MEMORY && words != []
    ensures MapLoad(s, vma, words, tracking) ==
      if MustCopy(s, vma, |words|) then
        var n := CopySize(vma, |words|);
        MapLoad(CopyPart(s, vma, words[..n], tracking), vma + n, words[n..], tracking)
      else if s.WadCreated(vma / WAD) then Stuck
      else MapLoad(MapWad(s, vma / WAD, words[..WAD], tracking), vma + WAD, words[WAD..], tracking)
  {
    hide CopyPart, MapWad, Space.WadCreated;
  }

  lemma MapLoadOfNothing(s: Space, vma: nat, tracking: bool)
    requires s.Sized() && vma <= MEMORY
    ensures MapLoad(s, vma, [], tracking) == Done(s)
  {
  }
}
