/** Saving a world and loading it again. */
module SavedWorlds {
  import opened Wrappers
  import opened TaggedMemory
  import opened Ivory
  import opened LoadMaps
  import opened MergedWorlds
  import opened WorldBytes
  import opened WorldFile
  import opened WorldPages
  import opened WorldHeader

  // ---------- Loading ----------

  /** An open file whose pages are loaded. */
  datatype Image = Image(file: seq<Byte>, swapped: bool, bases: Bases)

  predicate Readable(im: Image, page: nat, offset: nat) {
    && DataPlace(im.bases, page) + 4 * offset + 4 <= |im.file|
    && TagPlace(im.bases, page) + offset < |im.file|
  }

  function FileWordAt(order: Order, im: Image, page: nat, offset: nat): Word
    requires Readable(im, page, offset)
  {
    var d := DataPlace(im.bases, page) + 4 * offset;
    Word(im.file[TagPlace(im.bases, page) + offset],
         BytesWord(if im.swapped then Other(order) else order, im.file[d..d + 4]))
  }

  predicate Resolvable(images: seq<Image>, src: Source) {
    match src
    case FileWord(w, page, offset) => w < |images| && Readable(images[w], page, offset)
    case ConstantWord(_, _) => true
    case CopyOf(_) => false
  }

  /** The word that a load map source stands for. */
  function Resolve(order: Order, images: seq<Image>, src: Source): Word
    requires Resolvable(images, src)
  {
    match src
    case FileWord(w, page, offset) => FileWordAt(order, images[w], page, offset)
    case ConstantWord(tag, datum) => Word(tag % 256, datum % 0x1_0000_0000)
  }

  /** An entry whose file is long enough. Copies of other memory are left out. */
  predicate Loadable(images: seq<Image>, e: Entry) {
    && e.opcode != Copy
    && (e.opcode == DataPages ==>
          && e.world < |images|
          && DataPlace(images[e.world].bases, e.datum) + 4 * e.count <= |images[e.world].file|
          && TagPlace(images[e.world].bases, e.datum) + e.count <= |images[e.world].file|)
  }

  lemma LoadableAt(images: seq<Image>, e: Entry, a: nat)
    requires Loadable(images, e) && Covers(e, a)
    ensures Resolvable(images, SourceAt(VLM_PAGE, e, a))
  {
    var k := a - e.address;
    assert k == 8192 * (k / 8192) + k % 8192;
  }

  /** A constant that runs to the end of memory, for which only the tags are set; zeros are all set. */
  predicate Short(e: Entry) {
    e.opcode != DataPages && End(e) >= MEMORY && !(e.opcode == Constant && e.datum % 0x1_0000_0000 == 0)
  }

  /** Memory after one entry has been loaded into it. */
  function LoadMapData(order: Order, images: seq<Image>, memory: seq<Word>, e: Entry): (r: seq<Word>)
    requires |memory| == MEMORY && Loadable(images, e)
    ensures |r| == MEMORY
  {
    seq(MEMORY, a requires 0 <= a < MEMORY =>
      if Covers(e, a) then
        LoadableAt(images, e, a);
        var w := Resolve(order, images, SourceAt(VLM_PAGE, e, a));
        if Short(e) then Word(w.tag, memory[a].datum) else w
      else memory[a])
  }

  function LoadWorld(order: Order, images: seq<Image>, memory: seq<Word>, es: seq<Entry>): (r: seq<Word>)
    requires |memory| == MEMORY && forall e :: e in es ==> Loadable(images, e)
    ensures |r| == MEMORY
    decreases |es|
  {
    if es == [] then memory
    else assert es[0] in es; LoadWorld(order, images, LoadMapData(order, images, memory, es[0]), es[1..])
  }

  /** A source that a map denotes is that of one of its entries. */
  lemma {:induction false} DenoteFrom(ps: PageSize, es: seq<Entry>, a: nat) returns (e: Entry)
    requires Denote(ps, es, a).Some?
    ensures e in es && Covers(e, a) && Denote(ps, es, a) == Some(SourceAt(ps, e, a))
    decreases |es|
  {
    e := es[0];
    if Denote(ps, es[1..], a).Some? { e := DenoteFrom(ps, es[1..], a); }
  }

  /** The entries that move data. */
  function Moving(es: seq<Entry>): seq<Entry> {
    if es == [] then [] else if Short(es[0]) then Moving(es[1..]) else [es[0]] + Moving(es[1..])
  }

  lemma {:induction false} MovingFrom(es: seq<Entry>, e: Entry)
    ensures e in Moving(es) <==> e in es && !Short(e)
  {
    if es != [] {
      MovingFrom(es[1..], e);
      assert e in es <==> e == es[0] || e in es[1..];
    }
  }

  /** What a map's entries leave at an address: the last one covering it gives the tag, and the last one that moves data
      the datum. */
  function WordFor(order: Order, images: seq<Image>, es: seq<Entry>, a: nat, before: Word): Word
    requires var d, m := Denote(VLM_PAGE, es, a), Denote(VLM_PAGE, Moving(es), a);
      (d.Some? ==> Resolvable(images, d.value)) && (m.Some? ==> Resolvable(images, m.value))
  {
    var d, m := Denote(VLM_PAGE, es, a), Denote(VLM_PAGE, Moving(es), a);
    Word(if d.Some? then Resolve(order, images, d.value).tag else before.tag,
         if m.Some? then Resolve(order, images, m.value).datum else before.datum)
  }

  lemma {:induction false} DenotesLoadable(images: seq<Image>, es: seq<Entry>, a: nat)
    requires forall e :: e in es ==> Loadable(images, e)
    ensures Denote(VLM_PAGE, es, a).Some? ==> Resolvable(images, Denote(VLM_PAGE, es, a).value)
  {
    if Denote(VLM_PAGE, es, a).Some? {
      var e := DenoteFrom(VLM_PAGE, es, a);
      LoadableAt(images, e, a);
    }
  }

  lemma {:induction false} MovingLoadable(images: seq<Image>, es: seq<Entry>, a: nat)
    requires forall e :: e in es ==> Loadable(images, e)
    ensures Denote(VLM_PAGE, es, a).Some? ==> Resolvable(images, Denote(VLM_PAGE, es, a).value)
    ensures Denote(VLM_PAGE, Moving(es), a).Some? ==> Resolvable(images, Denote(VLM_PAGE, Moving(es), a).value)
  {
    forall e | e in Moving(es) ensures Loadable(images, e) { MovingFrom(es, e); }
    DenotesLoadable(images, es, a);
    DenotesLoadable(images, Moving(es), a);
  }

  /** Away from constants that run to the end of memory, the last entry gives the whole word. */
  lemma {:induction false} AllMoving(es: seq<Entry>, a: nat)
    requires forall e :: e in es && Covers(e, a) ==> !Short(e)
    ensures Denote(VLM_PAGE, Moving(es), a) == Denote(VLM_PAGE, es, a)
  {
    if es != [] {
      assert es[0] in es;
      AllMoving(es[1..], a);
      if !Short(es[0]) { DenoteFront(VLM_PAGE, es[0], Moving(es[1..]), a); }
    }
  }

  /** What a load map denotes is what loading it leaves in memory, at every address: so the denotation that merging
      worlds preserves is the memory that the merged world loads. Only under constants that run to the end of memory the
      data stay those of the entries before. */
  lemma {:induction false} LoadDenotes(order: Order, images: seq<Image>, memory: seq<Word>, es: seq<Entry>, a: nat)
    requires |memory| == MEMORY && (forall e :: e in es ==> Loadable(images, e)) && a < MEMORY
    ensures var d, m := Denote(VLM_PAGE, es, a), Denote(VLM_PAGE, Moving(es), a);
      && (d.Some? ==> Resolvable(images, d.value)) && (m.Some? ==> Resolvable(images, m.value))
      && LoadWorld(order, images, memory, es)[a] == WordFor(order, images, es, a, memory[a])
      && ((forall e :: e in es && Covers(e, a) ==> !Short(e)) ==> m == d)
    decreases |es|
  {
    hide Resolve, Resolvable, Loadable, Short;
    MovingLoadable(images, es, a);
    if forall e :: e in es && Covers(e, a) ==> !Short(e) { AllMoving(es, a); }
    if es != [] {
      assert es[0] in es;
      LoadDenotes(order, images, LoadMapData(order, images, memory, es[0]), es[1..], a);
      if Covers(es[0], a) { LoadableAt(images, es[0], a); }
      if !Short(es[0]) { DenoteFront(VLM_PAGE, es[0], Moving(es[1..]), a); }
    }
  }

  /** Loading the merged map of an incremental world and its ancestors gives every address the word of the newest of
      them that has one, from that world's own file, unless an entry emitted later shadows it: then the address gets the
      word of that older entry. */
  lemma {:induction false} MergedWorldLoads(order: Order, images: seq<Image>, memory: seq<Word>, maps: seq<seq<Entry>>,
                                            a: nat)
    requires |memory| == MEMORY && a < MEMORY && maps != []
    requires ChainMergeable(VLM_PAGE, maps) && MergeChain(VLM_PAGE, maps).Map?
    requires forall e :: e in MergeChain(VLM_PAGE, maps).entries ==> Loadable(images, e)
    ensures var es := MergeChain(VLM_PAGE, maps).entries;
      var d := Denote(VLM_PAGE, es, a);
      && (d.Some? ==> Resolvable(images, d.value))
      && ((forall e :: e in es && Covers(e, a) ==> !Short(e)) ==>
            LoadWorld(order, images, memory, es)[a] == if d.Some? then Resolve(order, images, d.value) else memory[a])
      && if NewestUnshadowed(VLM_PAGE, maps, a) then d == Newest(VLM_PAGE, maps, a)
         else FromAncestor(VLM_PAGE, maps, a, d)
  {
    hide Resolve, Resolvable, Loadable, ChainMergeable, MergeChain, LoadWorld, Denote, NewestUnshadowed, FromAncestor;
    NewestWorldWinsExactly(VLM_PAGE, maps, a);
    LoadDenotes(order, images, memory, MergeChain(VLM_PAGE, maps).entries, a);
  }

  // ---------- Saving ----------

  /** The size that the file is given first: room for the pages of the last data entry. */
  function Preallocated(es: seq<Entry>, b: Bases): nat {
    if es == [] then 0
    else
      var e := es[|es| - 1];
      if e.opcode == DataPages then 8192 * (b.data + (e.datum + e.count / 8192 + 1) * 4)
      else Preallocated(es[..|es| - 1], b)
  }

  predicate AnyPages(es: seq<Entry>) { exists i | 0 <= i < |es| :: es[i].opcode == DataPages }

  lemma {:induction false} PreallocatedNext(es: seq<Entry>, b: Bases)
    requires es != []
    ensures Preallocated(es, b) == Preallocated(if AnyPages(es[1..]) then es[1..] else es[..1], b)
    decreases |es|
  {
    var n := |es| - 1;
    if n == 0 {
      assert es[..1] == es;
    } else if es[n].opcode == DataPages {
      assert es[1..][n - 1] == es[n];
    } else {
      PreallocatedNext(es[..n], b);
      assert es[..n][1..] == es[1..][..n - 1] && es[..n][..1] == es[..1];
      assert AnyPages(es[1..]) ==> AnyPages(es[1..][..n - 1]);
    }
  }

  /** The size given to the file beforehand is enough for the data of every entry, and at most one page more than all of
      them take together. */
  lemma {:induction false} PreallocationSuffices(memory: seq<Word>, es: seq<Entry>, b: Bases, from: nat, to: nat)
    requires Placed(memory, es, from, to)
    ensures forall i | 0 <= i < |es| && es[i].opcode == DataPages ::
      DataPlace(b, es[i].datum) + 4 * es[i].count <= Preallocated(es, b)
    ensures if AnyPages(es) then DataPlace(b, from) <= Preallocated(es, b) <= DataPlace(b, to) + 4 * 8192
            else Preallocated(es, b) == 0
    decreases |es|
  {
    if es != [] {
      var e, rest := es[0], es[1..];
      var next := if e.opcode == DataPages then e.datum + Pages(e.count) else from;
      PreallocationSuffices(memory, rest, b, next, to);
      PreallocatedNext(es, b);
      EndsWithin(memory, rest, next, to);
      assert Preallocated(es[..1], b) ==
        if e.opcode == DataPages then DataPlace(b, e.datum + e.count / 8192 + 1) else 0;
      if AnyPages(rest) {
        var i :| 0 <= i < |rest| && rest[i].opcode == DataPages;
        assert es[i + 1].opcode == DataPages;
      }
    }
  }

  function BasesOf(memory: seq<Word>, es: seq<Entry>): Bases
    requires Savable(memory, es)
  {
    var blocks := HeaderBlocks(|Canonical(memory, es, 0)|);
    Bases(blocks, blocks + PagesGiven(es))
  }

  /** The load map fits in the blocks reserved for the header. */
  predicate HeaderFits(memory: seq<Word>, es: seq<Entry>)
    requires Savable(memory, es)
  {
    HeaderBlocks(|Canonical(memory, es, 0)|) <= MAXIMUM_HEADER_BLOCKS
  }

  /** The world file, unless its header does not fit. */
  function SaveWorld(order: Order, memory: seq<Word>, es: seq<Entry>, sysout: seq<Word>): (file: Option<seq<Byte>>)
    requires Savable(memory, es) && |sysout| == 5
    ensures file.Some? <==> HeaderFits(memory, es)
  {
    if !HeaderFits(memory, es) then None
    else
      var c, b := Canonical(memory, es, 0), BasesOf(memory, es);
      SaveFits(memory, es);
      var blank := Writer(Zeros(Preallocated(c, b)), Zeros(PAGE_BYTES), 0, 0);
      var header := FlushPage(WriteQs(blank, HeaderQs(c, sysout, b))).file;
      Some(WritePages(order, header, memory, b, c))
  }

  lemma {:induction false} PagesBound(memory: seq<Word>, es: seq<Entry>, page: nat)
    requires Savable(memory, es)
    ensures PagesGiven(es) <= 2048 * |Canonical(memory, es, page)|
  {
    hide Constants;
    if es != [] {
      PagesBound(memory, es[1..], if es[0].address % 8192 == 0 then page + Pages(es[0].count) else page);
    }
  }

  lemma {:induction false} PlacedFits(memory: seq<Word>, es: seq<Entry>, from: nat, to: nat)
    requires |memory| == MEMORY && Placed(memory, es, from, to)
    ensures from <= to
    ensures forall e :: e in es ==>
      Encodable(e) && End(e) <= |memory| && (e.opcode == DataPages || Agrees(memory, e))
  {
    if es != [] {
      PlacedFits(memory, es[1..], if es[0].opcode == DataPages then es[0].datum + Pages(es[0].count) else from, to);
    }
  }

  /** A load map that fits in the header has page numbers and bases that fit in their fields. */
  lemma {:induction false} SaveFits(memory: seq<Word>, es: seq<Entry>)
    requires Savable(memory, es) && HeaderFits(memory, es)
    ensures var c, b := Canonical(memory, es, 0), BasesOf(memory, es);
      && BasesFit(b) && |c| < 0x1_0000_0000 && Placed(memory, c, 0, PagesGiven(es)) && Spaced(b, PagesGiven(es))
      && forall e :: e in c ==> Encodable(e) && End(e) <= |memory| && (e.opcode == DataPages || Agrees(memory, e))
  {
    hide Canonical, Placed;
    var c := Canonical(memory, es, 0);
    assert |c| <= 8000;
    PagesBound(memory, es, 0);
    CanonicalPlaced(memory, es, 0);
    PlacedFits(memory, c, 0, PagesGiven(es));
  }

  lemma {:induction false} PlacedApart(memory: seq<Word>, es: seq<Entry>, from: nat, to: nat, i: nat, j: nat)
    requires Placed(memory, es, from, to) && i < j < |es| && es[i].opcode == DataPages && es[j].opcode == DataPages
    ensures from <= es[i].datum && es[i].datum + Pages(es[i].count) <= es[j].datum
    ensures es[j].datum + Pages(es[j].count) <= to
  {
    hide Pages;
    var next := if es[0].opcode == DataPages then es[0].datum + Pages(es[0].count) else from;
    PlacedWithin(memory, es[1..], next, to, j - 1);
    if i > 0 {
      PlacedApart(memory, es[1..], if es[0].opcode == DataPages then es[0].datum + Pages(es[0].count) else from, to,
        i - 1, j - 1);
    }
  }

  lemma {:induction false} PlacedWithin(memory: seq<Word>, es: seq<Entry>, from: nat, to: nat, j: nat)
    requires Placed(memory, es, from, to) && j < |es| && es[j].opcode == DataPages
    ensures from <= es[j].datum && es[j].datum + Pages(es[j].count) <= to
  {
    hide Pages;
    var next := if es[0].opcode == DataPages then es[0].datum + Pages(es[0].count) else from;
    if j > 0 {
      PlacedWithin(memory, es[1..], next, to, j - 1);
    } else {
      EndsWithin(memory, es[1..], next, to);
    }
  }

  /** In a saved file the header comes first, then the tags pages, then the data pages, and no two entries share a
      page: for entries `i` before `j`, the pages of `i` end before those of `j` begin. */
  lemma {:induction false} RegionsAreDisjoint(memory: seq<Word>, es: seq<Entry>, i: nat, j: nat)
    requires Savable(memory, es) && HeaderFits(memory, es)
    requires i < j < |Canonical(memory, es, 0)|
    requires var c := Canonical(memory, es, 0); c[i].opcode == DataPages && c[j].opcode == DataPages
    ensures var c, b := Canonical(memory, es, 0), BasesOf(memory, es);
      && PAGE_BYTES * PagesFor(FIRST_MAP_Q + 3 * |c|) <= TagPlace(b, c[i].datum)
      && TagPlace(b, c[i].datum) + c[i].count <= TagPlace(b, c[j].datum)
      && TagPlace(b, c[j].datum) + c[j].count <= DataPlace(b, c[i].datum)
      && DataPlace(b, c[i].datum) + 4 * c[i].count <= DataPlace(b, c[j].datum)
  {
    hide Canonical, Placed;
    SaveFits(memory, es);
    PlacedApart(memory, Canonical(memory, es, 0), 0, PagesGiven(es), i, j);
  }

  // ---------- Loading undoes saving ----------

  /** The header is written before the tags pages, and is still there after all pages have been written. */
  lemma {:induction false} SaveHoldsHeader(order: Order, memory: seq<Word>, es: seq<Entry>, sysout: seq<Word>)
    requires Savable(memory, es) && |sysout| == 5 && HeaderFits(memory, es)
    ensures BasesFit(BasesOf(memory, es)) && |Canonical(memory, es, 0)| < 0x1_0000_0000
    ensures forall e :: e in Canonical(memory, es, 0) ==> Encodable(e)
    ensures Holds(SaveWorld(order, memory, es, sysout).value,
                  HeaderQs(Canonical(memory, es, 0), sysout, BasesOf(memory, es)))
  {
    hide Canonical, Placed, Holds, WriteQs, HeaderQs, WritePages, Preallocated, PagesGiven;
    SaveFits(memory, es);
    var c, b := Canonical(memory, es, 0), BasesOf(memory, es);
    var qs := HeaderQs(c, sysout, b);
    var blank := Writer(Zeros(Preallocated(c, b)), Zeros(PAGE_BYTES), 0, 0);
    assert Filling(blank, []);
    WriteQsFill(blank, [], qs);
    assert [] + qs == qs;
    var header := FlushPage(WriteQs(blank, qs)).file;
    var limit := PAGE_BYTES * PagesFor(|qs|);
    assert limit <= |header| by { HoldsSize(header, qs); }
    assert Clear(b, 0, 0, limit);
    WritePagesFrame(order, header, memory, b, c, 0, PagesGiven(es), 0, limit);
    var file := WritePages(order, header, memory, b, c);
    assert file[..limit] == file[0..limit] && header[..limit] == header[0..limit];
    HoldsFrame(header, file, qs, limit);
  }

  lemma HoldsSize(file: seq<Byte>, qs: seq<Word>)
    requires Holds(file, qs)
    ensures PAGE_BYTES * PagesFor(|qs|) <= |file|
  {
  }

  /** What a host reads back from the pages of a saved entry: its words on a little-endian host, and its words with
      their data bytes swapped on a big-endian one. */
  lemma {:induction false} StoredReadBack(order: Order, memory: seq<Word>, im: Image, e: Entry, a: nat)
    requires Stored(order, im.file, memory, im.bases, e) && Covers(e, a) && e.opcode == DataPages && e.world == 0
    requires im.swapped == (order == Big)
    ensures Loadable([im], e) && Resolvable([im], SourceAt(VLM_PAGE, e, a))
    ensures Resolve(order, [im], SourceAt(VLM_PAGE, e, a)) ==
      Word(memory[a].tag, if order == Big then Swapped(memory[a].datum) else memory[a].datum)
  {
    hide Stored, WordBytes, BytesWord, Swapped;
    var k := a - e.address;
    StoredBytes(order, memory, im.file, im.bases, e, k);
    WordPlace(im.bases, e.datum, k);
    ReadSwapped(order, memory[a].datum);
    WordReadBack(order, memory[a].datum);
  }

  /** The `k`th word of an entry is `k` words after its first, also across file pages. */
  lemma WordPlace(b: Bases, page: nat, k: nat)
    ensures DataPlace(b, page + k / 8192) + 4 * (k % 8192) == DataPlace(b, page) + 4 * k
    ensures TagPlace(b, page + k / 8192) + k % 8192 == TagPlace(b, page) + k
  {
    assert k == 8192 * (k / 8192) + k % 8192;
  }

  lemma SliceOfSlice(file: seq<Byte>, from: nat, to: nat, i: nat, j: nat)
    requires i <= j && from + j <= to <= |file|
    ensures file[from..to][i..j] == file[from + i..from + j]
  {
    var s, t := file[from..to][i..j], file[from + i..from + j];
    assert |s| == |t|;
    forall n | 0 <= n < |s| ensures s[n] == t[n] {
      assert s[n] == file[from..to][i + n];
    }
  }

  lemma {:induction false} StoredBytes(order: Order, memory: seq<Word>, file: seq<Byte>, b: Bases, e: Entry, k: nat)
    requires Stored(order, file, memory, b, e) && k < e.count
    ensures var d, t := DataPlace(b, e.datum), TagPlace(b, e.datum);
      && End(e) <= |memory| && d + 4 * e.count <= |file| && t + e.count <= |file|
      && file[d + 4 * k..d + 4 * k + 4] == WordBytes(order, memory[e.address + k].datum)
      && file[t + k] == memory[e.address + k].tag
  {
    hide DataBytes, TagBytes, WordBytes;
    var data, tags := DataPlace(b, e.datum), TagPlace(b, e.datum);
    SliceOfSlice(file, data, data + 4 * e.count, 4 * k, 4 * k + 4);
    DataBytesAt(order, memory, e.address, e.count, k);
    assert file[tags + k] == file[tags..tags + e.count][k];
    TagBytesAt(memory, e.address, e.count, k);
  }

  lemma TagBytesAt(memory: seq<Word>, a: nat, n: nat, k: nat)
    requires a + n <= |memory| && k < n
    ensures TagBytes(memory, a, n)[k] == memory[a + k].tag
  {
  }

  /** The file that saving wrote, as opening it finds it. */
  function SavedImage(order: Order, memory: seq<Word>, es: seq<Entry>, sysout: seq<Word>): Image
    requires Savable(memory, es) && |sysout| == 5 && HeaderFits(memory, es)
  {
    Image(SaveWorld(order, memory, es, sysout).value, order == Big, BasesOf(memory, es))
  }

  /** Every entry of a saved file can be loaded, and has the saved words for what it covers. */
  lemma {:induction false} SavedEntry(order: Order, memory: seq<Word>, es: seq<Entry>, sysout: seq<Word>, e: Entry)
    requires Savable(memory, es) && |sysout| == 5 && HeaderFits(memory, es) && e in Canonical(memory, es, 0)
    ensures var im := SavedImage(order, memory, es, sysout);
      && Loadable([im], e)
      && (e.opcode == DataPages ==> e.world == 0 && Stored(order, im.file, memory, im.bases, e))
  {
    hide Canonical, Placed, WriteQs, HeaderQs, WritePages, Preallocated, PagesGiven;
    SaveFits(memory, es);
    var c, b := Canonical(memory, es, 0), BasesOf(memory, es);
    var blank := Writer(Zeros(Preallocated(c, b)), Zeros(PAGE_BYTES), 0, 0);
    var header := FlushPage(WriteQs(blank, HeaderQs(c, sysout, b))).file;
    WritePagesStores(order, header, memory, b, c, 0, PagesGiven(es));
  }

  const LAST := 0xFFFF_FFFF

  /** A word that comes back from a file page: swapped when the host is big-endian. */
  function Paged(order: Order, w: Word): Word { if order == Big then Word(w.tag, Swapped(w.datum)) else w }

  /** The last address, covered by a constant other than zero, whose datum is not moved. */
  predicate ConstantAtEnd(memory: seq<Word>, es: seq<Entry>, a: nat)
    requires a < |memory|
  {
    a == LAST && memory[a].datum != 0 && Denote(VLM_PAGE, es, a).Some? && !OnPages(es, a)
  }

  /** The word at `a` after loading what was saved from `memory`. */
  function AsLoaded(order: Order, memory: seq<Word>, es: seq<Entry>, before: seq<Word>, a: nat): Word
    requires a < |memory| && a < |before|
  {
    if Denote(VLM_PAGE, es, a).None? then before[a]
    else if OnPages(es, a) then Paged(order, memory[a])
    else if ConstantAtEnd(memory, es, a) then
      Word(memory[a].tag, if OnSomePage(es, a) then Paged(order, memory[a]).datum else before[a].datum)
    else memory[a]
  }

  /** What is at `a` after a saved world has been opened and loaded into any memory. */
  lemma {:induction false} SavedWord(order: Order, memory: seq<Word>, es: seq<Entry>, sysout: seq<Word>,
                                     before: seq<Word>, a: nat)
    requires Savable(memory, es) && |sysout| == 5 && HeaderFits(memory, es) && |before| == MEMORY && a < MEMORY
    ensures var c, im := Canonical(memory, es, 0), SavedImage(order, memory, es, sysout);
      && (forall e :: e in c ==> Loadable([im], e))
      && LoadWorld(order, [im], before, c)[a] == AsLoaded(order, memory, es, before, a)
  {
    hide Canonical, SaveWorld, BasesOf, HeaderFits, Loadable, Stored, Swapped, OnPages, OnSomePage, LoadWorld, Short;
    var c, im := Canonical(memory, es, 0), SavedImage(order, memory, es, sysout);
    forall e | e in c ensures Loadable([im], e) {
      SavedEntry(order, memory, es, sysout, e);
    }
    LoadDenotes(order, [im], before, c, a);
    CanonicalDenotes(memory, es, 0, a);
    PageWord(order, memory, es, sysout, c, a);
    if a == LAST && memory[a].datum != 0 {
      MovingIsPages(memory, es, a);
      forall e | e in Moving(c) ensures e in c { MovingFrom(c, e); }
      PageWord(order, memory, es, sysout, Moving(c), a);
      SomePageCovers(es, a);
    } else {
      NoneShort(memory, es, a);
    }
  }

  lemma {:induction false} SomePageCovers(es: seq<Entry>, a: nat)
    ensures OnPages(es, a) ==> OnSomePage(es, a)
    ensures OnSomePage(es, a) ==> Denote(VLM_PAGE, es, a).Some?
  {
    if es != [] { SomePageCovers(es[1..], a); }
  }

  /** A file word that entries of a saved map denote is the saved word. */
  lemma {:induction false} PageWord(order: Order, memory: seq<Word>, es: seq<Entry>, sysout: seq<Word>, s: seq<Entry>,
                                    a: nat)
    requires Savable(memory, es) && |sysout| == 5 && HeaderFits(memory, es) && a < MEMORY
    requires forall e :: e in s ==> e in Canonical(memory, es, 0)
    ensures var d, im := Denote(VLM_PAGE, s, a), SavedImage(order, memory, es, sysout);
      d.Some? && d.value.FileWord? ==>
        Resolvable([im], d.value) && Resolve(order, [im], d.value) == Paged(order, memory[a])
  {
    hide Canonical, SaveWorld, BasesOf, HeaderFits, Stored, Swapped;
    var d, im := Denote(VLM_PAGE, s, a), SavedImage(order, memory, es, sysout);
    if d.Some? && d.value.FileWord? {
      var e := DenoteFrom(VLM_PAGE, s, a);
      SavedEntry(order, memory, es, sysout, e);
      LoadableAt([im], e, a);
      StoredReadBack(order, memory, im, e, a);
    }
  }

  /** No constant of a saved map is short, unless it is one other than zero for the last address. */
  lemma {:induction false} NoneShort(memory: seq<Word>, es: seq<Entry>, a: nat)
    requires Savable(memory, es) && HeaderFits(memory, es) && a < MEMORY && !(a == LAST && memory[a].datum != 0)
    ensures forall e :: e in Canonical(memory, es, 0) && Covers(e, a) ==> !Short(e)
  {
    hide Canonical, HeaderFits;
    SaveFits(memory, es);
    forall e | e in Canonical(memory, es, 0) && Covers(e, a) ensures !Short(e) {
      PlacedEntry(memory, Canonical(memory, es, 0), 0, PagesGiven(es), e);
    }
  }

  /** Each entry of a canonical map is one of file pages, in memory, or a one-word constant. */
  lemma {:induction false} PlacedEntry(memory: seq<Word>, c: seq<Entry>, from: nat, to: nat, e: Entry)
    requires Placed(memory, c, from, to) && e in c
    ensures e.opcode == DataPages || Agrees(memory, e)
    ensures e.address < |memory| && End(e) <= |memory| && e.count < 0x100_0000
    decreases |c|
  {
    if e != c[0] {
      var next := if c[0].opcode == DataPages then c[0].datum + Pages(c[0].count) else from;
      PlacedEntry(memory, c[1..], next, to, e);
    }
  }

  /** Of the entries for the last address, those that move data are the page entries, unless its datum is zero. */
  lemma {:induction false} MovingIsPages(memory: seq<Word>, es: seq<Entry>, a: nat)
    requires Savable(memory, es) && HeaderFits(memory, es) && a == LAST && memory[a].datum != 0
    ensures var m := Denote(VLM_PAGE, Moving(Canonical(memory, es, 0)), a);
      (m.Some? <==> OnSomePage(es, a)) && (m.Some? ==> m.value.FileWord?)
  {
    hide Canonical, HeaderFits, OnSomePage;
    SaveFits(memory, es);
    CanonicalPages(memory, es, 0, a);
    var c := Canonical(memory, es, 0);
    var m := Moving(c);
    DenoteNone(VLM_PAGE, m, a);
    if Denote(VLM_PAGE, m, a).Some? {
      var e := DenoteFrom(VLM_PAGE, m, a);
      MovingFrom(c, e);
      PlacedEntry(memory, c, 0, PagesGiven(es), e);
      var i :| 0 <= i < |c| && c[i] == e;
    }
    if OnSomePage(es, a) {
      var i :| 0 <= i < |c| && c[i].opcode == DataPages && Covers(c[i], a);
      MovingFrom(c, c[i]);
      var j :| 0 <= j < |m| && m[j] == c[i];
    }
  }

  /** After loading, memory holds the saved words wherever the request asked for them, and is unchanged elsewhere. */
  ghost predicate Restored(es: seq<Entry>, memory: seq<Word>, before: seq<Word>, after: seq<Word>)
    requires |memory| == |before| == |after| == MEMORY
  {
    forall a | 0 <= a < MEMORY :: after[a] == if Denote(VLM_PAGE, es, a).Some? then memory[a] else before[a]
  }

  /** What the words that a load brings back have to satisfy: swapped words read the same, and the datum of a constant
      for the last address was there already, or came with an earlier page. */
  ghost predicate ComesBack(order: Order, memory: seq<Word>, es: seq<Entry>, before: seq<Word>)
    requires |memory| == |before| == MEMORY
  {
    && (order == Little || forall a: nat | a < MEMORY && OnPages(es, a) :: Swapped(memory[a].datum) == memory[a].datum)
    && (ConstantAtEnd(memory, es, LAST) ==>
          if OnSomePage(es, LAST) then order == Little || Swapped(memory[LAST].datum) == memory[LAST].datum
          else before[LAST].datum == memory[LAST].datum)
  }

  /** Memory is restored exactly when these conditions hold. */
  lemma {:induction false} RestoredExactly(order: Order, memory: seq<Word>, es: seq<Entry>, before: seq<Word>,
                                           after: seq<Word>)
    requires |memory| == |before| == |after| == MEMORY
    requires forall a: nat | a < MEMORY :: after[a] == AsLoaded(order, memory, es, before, a)
    ensures Restored(es, memory, before, after) <==> ComesBack(order, memory, es, before)
  {
    hide OnPages, OnSomePage, Swapped, Denote;
    forall a: nat | a < MEMORY && OnPages(es, a) ensures Denote(VLM_PAGE, es, a).Some? {
      OnPagesDenotes(es, a);
    }
    if Restored(es, memory, before, after) {
      forall a: nat | order == Big && a < MEMORY && OnPages(es, a) ensures Swapped(memory[a].datum) == memory[a].datum {
        assert after[a] == memory[a];
      }
      assert ConstantAtEnd(memory, es, LAST) ==> after[LAST] == memory[LAST];
    }
  }

  lemma {:induction false} OnPagesDenotes(es: seq<Entry>, a: nat)
    requires OnPages(es, a)
    ensures Denote(VLM_PAGE, es, a).Some?
  {
  }

  /** Saving a load map and loading it on a host of the same byte order gives back every saved word, for any load map
      that fits the header, exactly when the host is little-endian or no saved page has a word that reads differently
      with its bytes swapped, and no datum of a constant for the last address is missed: a big-endian host writes data
      pages in its own order, and then takes the cookie to say that they need swapping. */
  lemma {:induction false} SaveThenLoad(order: Order, memory: seq<Word>, es: seq<Entry>, sysout: seq<Word>,
                                               before: seq<Word>)
    requires Savable(memory, es) && |sysout| == 5 && HeaderFits(memory, es) && |before| == MEMORY
    ensures var file := SaveWorld(order, memory, es, sysout).value;
      var world := OpenWorldFile(order, file);
      && world.Some?
      && world.value.wired == Canonical(memory, es, 0) && world.value.bases == BasesOf(memory, es)
      && world.value.byteSwapped == (order == Big)
      && world.value.sysout == [sysout[0].datum, sysout[1].datum, sysout[2].datum, sysout[3].datum, sysout[4].datum]
      && var images := [Image(file, world.value.byteSwapped, world.value.bases)];
      && (forall e :: e in world.value.wired ==> Loadable(images, e))
      && (Restored(es, memory, before, LoadWorld(order, images, before, world.value.wired)) <==>
          ComesBack(order, memory, es, before))
  {
    hide Canonical, SaveWorld, BasesOf, Loadable, OpenWorldFile, HeaderQs, Holds, LoadWorld, OnPages, Swapped, Restored;
    hide HeaderFits, Denote, AsLoaded;
    var c, im := Canonical(memory, es, 0), SavedImage(order, memory, es, sysout);
    SaveHoldsHeader(order, memory, es, sysout);
    HeaderReadBack(order, im.file, c, sysout, im.bases);
    forall e | e in c ensures Loadable([im], e) {
      SavedEntry(order, memory, es, sysout, e);
    }
    var after := LoadWorld(order, [im], before, c);
    forall a: nat | a < MEMORY ensures after[a] == AsLoaded(order, memory, es, before, a) {
      SavedWord(order, memory, es, sysout, before, a);
    }
    RestoredExactly(order, memory, es, before, after);
  }

  /** The save of a request, whose extents are cut to 24 bits first. */
  function SaveRequest(order: Order, memory: seq<Word>, request: seq<Entry>, sysout: seq<Word>): Option<seq<Byte>>
    requires Requestable(memory, request) && |sysout| == 5
  {
    TruncatedIsSavable(memory, request);
    SaveWorld(order, memory, Truncated(request), sysout)
  }

  /** Memory after the file has been opened and loaded over `before`. */
  ghost predicate LoadsAs(order: Order, file: seq<Byte>, before: seq<Word>, after: seq<Word>)
    requires |before| == MEMORY
  {
    var world := OpenWorldFile(order, file);
    && world.Some?
    && var images := [Image(file, world.value.byteSwapped, world.value.bases)];
    && (forall e :: e in world.value.wired ==> Loadable(images, e))
    && after == LoadWorld(order, images, before, world.value.wired)
  }

  /** Saving any request and loading the file, over any previous contents, gives back every requested word and changes
      no other, if and only if the host is little-endian or no saved page has a word that reads differently with its
      bytes swapped, memory already held the word of every requested address that the 24-bit counts lose, and the datum
      of a constant for the last address, which is not moved, was there or came with a page. */
  lemma {:induction false} SaveThenLoadExactly(order: Order, memory: seq<Word>, request: seq<Entry>, sysout: seq<Word>,
                                               before: seq<Word>) returns (after: seq<Word>)
    requires Requestable(memory, request) && |sysout| == 5 && |before| == MEMORY
    requires SaveRequest(order, memory, request, sysout).Some?
    ensures |after| == MEMORY && LoadsAs(order, SaveRequest(order, memory, request, sysout).value, before, after)
    ensures var es := Truncated(request);
      Restored(request, memory, before, after) <==>
        && ComesBack(order, memory, es, before)
        && forall a: nat | a < MEMORY && Covered(request, a) && !Covered(es, a) :: before[a] == memory[a]
  {
    hide Canonical, SaveWorld, BasesOf, HeaderFits, Loadable, OpenWorldFile, LoadWorld, OnPages, Swapped;
    hide Truncated, Savable;
    hide Denote, Covered, Requestable, AsLoaded;
    var es := Truncated(request);
    TruncatedIsSavable(memory, request);
    SaveThenLoad(order, memory, es, sysout, before);
    var im := SavedImage(order, memory, es, sysout);
    assert forall e :: e in Canonical(memory, es, 0) ==> Loadable([im], e);
    after := LoadWorld(order, [im], before, Canonical(memory, es, 0));
    forall a: nat | a < MEMORY ensures after[a] == AsLoaded(order, memory, es, before, a) {
      SavedWord(order, memory, es, sysout, before, a);
    }
    RequestRestoredExactly(order, memory, request, before, after);
  }

  lemma {:induction false} RequestRestoredExactly(order: Order, memory: seq<Word>, request: seq<Entry>,
                                                  before: seq<Word>, after: seq<Word>)
    requires |memory| == |before| == |after| == MEMORY
    requires forall a: nat | a < MEMORY :: after[a] == AsLoaded(order, memory, Truncated(request), before, a)
    ensures var es := Truncated(request);
      Restored(request, memory, before, after) <==>
        && ComesBack(order, memory, es, before)
        && forall a: nat | a < MEMORY && Covered(request, a) && !Covered(es, a) :: before[a] == memory[a]
  {
    hide OnPages, OnSomePage, Swapped, Truncated, Denote, Covered;
    var es := Truncated(request);
    forall a: nat | a < MEMORY
      ensures Denote(VLM_PAGE, es, a).Some? <==> Covered(es, a)
      ensures Denote(VLM_PAGE, request, a).Some? <==> Covered(request, a)
      ensures Covered(es, a) ==> Covered(request, a)
      ensures OnPages(es, a) ==> Covered(es, a)
    {
      DenoteNone(VLM_PAGE, es, a);
      DenoteNone(VLM_PAGE, request, a);
      TruncatedCovers(request, a);
      if OnPages(es, a) { OnPagesDenotes(es, a); }
    }
    if Restored(request, memory, before, after) {
      forall a: nat | a < MEMORY && Covered(request, a) && !Covered(es, a) ensures before[a] == memory[a] {
        assert after[a] == memory[a];
      }
      forall a: nat | order == Big && a < MEMORY && OnPages(es, a) ensures Swapped(memory[a].datum) == memory[a].datum {
        assert after[a] == memory[a];
      }
      assert ConstantAtEnd(memory, es, LAST) ==> after[LAST] == memory[LAST];
    }
  }
}
