/** An open world file: its page buffer, load map and page bases, updated step by step while the file is written. */
module WorldFileWriter {
  import opened Wrappers
  import opened TaggedMemory
  import opened Ivory
  import opened LoadMaps
  import opened WorldBytes
  import opened WorldFile
  import opened WorldPages
  import opened WorldHeader
  import opened SavedWorlds

  class WorldWriter {
    const ivoryDataPage: array<Byte>
    const order: Order
    var file: seq<Byte>
    var currentPageNumber: nat
    var currentQNumber: nat
    var wired: array<Entry>
    var vlmTagsPageBase: nat
    var vlmDataPageBase: nat

    ghost predicate Valid()
      reads this
    {
      ivoryDataPage.Length == PAGE_BYTES && currentQNumber <= 256
    }

    /** The file and the page being filled. */
    ghost function State(): (w: Writer)
      requires Valid()
      reads this, ivoryDataPage
      ensures w.Valid()
    {
      Writer(file, ivoryDataPage[..], currentPageNumber, currentQNumber)
    }

    function PageBases(): Bases
      reads this
    {
      Bases(vlmTagsPageBase, vlmDataPageBase)
    }

    /** The request is entered in the load map, whose counts keep 24 bits of its extents. */
    constructor (order: Order, request: seq<Entry>)
      ensures Valid() && fresh(ivoryDataPage) && fresh(wired) && this.order == order && file == []
      ensures wired[..] == Truncated(request)
    {
      ivoryDataPage := new Byte[PAGE_BYTES](_ => 0);
      wired := new Entry[|request|](i requires 0 <= i < |request| =>
        request[i].(count := request[i].count % 0x100_0000));
      this.order := order;
      file, currentPageNumber, currentQNumber, vlmTagsPageBase, vlmDataPageBase := [], 0, 0, 0, 0;
      new;
      assert wired[..] == Truncated(request);
    }

    // ---------- Qs ----------

    method PrepareToWriteIvoryWorldFilePage(pageNumber: nat)
      requires Valid()
      modifies this`currentPageNumber, this`currentQNumber, ivoryDataPage
      ensures Valid() && State() == Writer(file, Zeros(PAGE_BYTES), pageNumber, 0)
    {
      currentPageNumber, currentQNumber := pageNumber, 0;
      var i := 0;
      while i < PAGE_BYTES
        invariant 0 <= i <= PAGE_BYTES && forall k :: 0 <= k < i ==> ivoryDataPage[k] == 0
        modifies ivoryDataPage
      {
        ivoryDataPage[i] := 0;
        i := i + 1;
      }
      assert ivoryDataPage[..] == Zeros(PAGE_BYTES);
    }

    method WriteIvoryWorldFilePage()
      requires Valid()
      modifies this`file, this`currentPageNumber, this`currentQNumber, ivoryDataPage
      ensures Valid() && State() == FlushPage(old(State()))
    {
      if currentQNumber == 0 {
        return;
      }
      file := Put(file, PAGE_BYTES * currentPageNumber, ivoryDataPage[..]);
      PrepareToWriteIvoryWorldFilePage(currentPageNumber + 1);
    }

    /** A tag byte and the four bytes of its word, in place. */
    method SetQInPage(n: nat, q: Word)
      requires Valid() && HasQ(ivoryDataPage[..], n)
      modifies ivoryDataPage
      ensures ivoryDataPage[..] == SetQ(old(ivoryDataPage[..]), n, q)
    {
      hide WordBytes;
      var d, b := DatumAt(n), WordBytes(Little, q.datum);
      ivoryDataPage[TagAt(n)] := q.tag;
      ivoryDataPage[d] := b[0];
      ivoryDataPage[d + 1] := b[1];
      ivoryDataPage[d + 2] := b[2];
      ivoryDataPage[d + 3] := b[3];
    }

    method WriteIvoryWorldFileNextQ(q: Word)
      requires Valid()
      modifies this`file, this`currentPageNumber, this`currentQNumber, ivoryDataPage
      ensures Valid() && State() == NextQ(old(State()), q)
    {
      hide SetQ, HasQ;
      if currentQNumber >= 256 {
        WriteIvoryWorldFilePage();
      }
      BelowPage(currentQNumber, 1);
      HasQBelow(ivoryDataPage[..], PAGE_BYTES, currentQNumber);
      SetQInPage(currentQNumber, q);
      currentQNumber := currentQNumber + 1;
    }

    method WriteAll(qs: seq<Word>)
      requires Valid()
      modifies this`file, this`currentPageNumber, this`currentQNumber, ivoryDataPage
      ensures Valid() && State() == WriteQs(old(State()), qs)
    {
      hide NextQ;
      var i := 0;
      while i < |qs|
        invariant 0 <= i <= |qs| && Valid()
        invariant WriteQs(State(), qs[i..]) == WriteQs(old(State()), qs)
      {
        assert qs[i..][1..] == qs[i + 1..];
        WriteIvoryWorldFileNextQ(qs[i]);
        i := i + 1;
      }
      assert qs[i..] == [];
    }

    // ---------- The load map ----------

    /** Replaces entry `i` by one constant for each of its words, in a new array. */
    method ConvertToConstants(memory: seq<Word>, i: nat)
      requires i < wired.Length && End(wired[i]) <= |memory|
      modifies this`wired
      ensures fresh(wired)
      ensures var e := old(wired[i]);
        wired[..] == old(wired[..i]) + Constants(memory, e.address, e.count) + old(wired[i + 1..])
    {
      var was := wired[..];
      var e := wired[i];
      var entries := new Entry[|was| + e.count - 1](k requires 0 <= k < |was| + e.count - 1 =>
        if k < i then was[k] else if k < i + e.count then e else was[k - e.count + 1]);
      var j := 0;
      while j < e.count
        invariant 0 <= j <= e.count
        invariant forall k :: 0 <= k < i ==> entries[k] == was[k]
        invariant forall k :: i + e.count <= k < entries.Length ==> entries[k] == was[k - e.count + 1]
        invariant forall k :: i <= k < i + j ==> entries[k] == Constants(memory, e.address, e.count)[k - i]
      {
        var q := memory[e.address + j];
        entries[i + j] := Entry(e.address + j, Constant, 1, q.tag, q.datum, 0);
        j := j + 1;
      }
      wired := entries;
      assert wired[..i] == was[..i] && wired[i..i + e.count] == Constants(memory, e.address, e.count);
      assert wired[i + e.count..] == was[i + 1..];
    }

    /** Makes every entry either start a page or be a constant, and assigns file pages and page bases. Fails when the
        load map does not fit in the header. */
    method CanonicalizeVLMLoadMapEntries(memory: seq<Word>) returns (ok: bool)
      requires Savable(memory, wired[..])
      modifies this`wired, this`vlmTagsPageBase, this`vlmDataPageBase, wired
      ensures ok <==> HeaderFits(memory, old(wired[..]))
      ensures ok ==> wired[..] == Canonical(memory, old(wired[..]), 0) && PageBases() == BasesOf(memory, old(wired[..]))
    {
      hide Canonicalizing, Constants, Savable, Canonical, PagesGiven, Pages, HeaderBlocks;
      ghost var es := wired[..];
      var pageNumber: nat, i: nat := 0, 0;
      StartCanonicalizing(memory, es);
      assert wired[..0] == [] && wired[0..] == es;
      while i < wired.Length
        invariant 0 <= i <= wired.Length && (wired == old(wired) || fresh(wired))
        invariant Canonicalizing(memory, es, wired[..i], wired[i..], pageNumber)
        decreases wired.Length - i
      {
        ghost var done, rest := wired[..i], wired[i..];
        NextCanonical(memory, es, done, rest, pageNumber);
        if wired[i].address % 8192 == 0 {
          wired[i] := wired[i].(tag := TYPE_FIXNUM, datum := pageNumber);
          pageNumber := pageNumber + Pages(wired[i].count);
          i := i + 1;
          assert wired[..i] == done + [wired[i - 1]] && wired[i..] == rest[1..];
        } else {
          var e := wired[i];
          ConvertToConstants(memory, i);
          i := i + e.count;
          assert wired[..i] == done + Constants(memory, e.address, e.count) && wired[i..] == rest[1..];
        }
      }
      assert wired[..i] == wired[..] && wired[i..] == [];
      EndCanonicalizing(memory, es, wired[..], pageNumber);
      var blocks := HeaderBlocks(wired.Length);
      vlmTagsPageBase, vlmDataPageBase := blocks, blocks + pageNumber;
      ok := blocks <= MAXIMUM_HEADER_BLOCKS;
    }

    // ---------- Header and pages ----------

    /** Gives a new file its size: room for the pages of the last data entry. */
    method Preallocate()
      requires file == []
      modifies this`file
      ensures file == Zeros(Preallocated(wired[..], PageBases()))
    {
      var i := wired.Length;
      assert wired[..i] == wired[..];
      while i > 0 && wired[i - 1].opcode != DataPages
        invariant 0 <= i <= wired.Length
        invariant Preallocated(wired[..i], PageBases()) == Preallocated(wired[..], PageBases())
      {
        assert wired[..i][..i - 1] == wired[..i - 1];
        i := i - 1;
      }
      if i > 0 {
        file := Zeros(8192 * (vlmDataPageBase + (wired[i - 1].datum + wired[i - 1].count / 8192 + 1) * 4));
      }
    }

    method WriteVLMWorldFileHeader(sysout: seq<Word>)
      requires Valid() && file == [] && |sysout| == 5 && BasesFit(PageBases()) && wired.Length < 0x1_0000_0000
      requires forall e :: e in wired[..] ==> Encodable(e)
      modifies this`file, this`currentPageNumber, this`currentQNumber, ivoryDataPage
      ensures Valid()
      ensures file ==
        FlushPage(WriteQs(Writer(Zeros(Preallocated(wired[..], PageBases())), Zeros(PAGE_BYTES), 0, 0),
                          HeaderQs(wired[..], sysout, PageBases()))).file
    {
      hide WriteQs, FlushPage, Zeros, Preallocated, Encodable, EntryQs;
      ghost var es, b := wired[..], PageBases();
      Preallocate();
      PrepareToWriteIvoryWorldFilePage(0);
      ghost var blank := State();
      WriteAll([Word(0x88, VERSION_2), Word(0x89, wired.Length),
                Word(0x8A, 0x1000_0000 * vlmTagsPageBase + vlmDataPageBase), Word(0xA3, sysout[0].datum)]
                + sysout[1..]);
      WriteMap();
      WriteTwice(blank, HeaderQs(es, sysout, b)[..FIRST_MAP_Q], MapQs(es));
      WriteIvoryWorldFilePage();
    }

    method WriteMap()
      requires Valid() && forall e :: e in wired[..] ==> Encodable(e)
      modifies this`file, this`currentPageNumber, this`currentQNumber, ivoryDataPage
      ensures Valid() && State() == WriteQs(old(State()), MapQs(wired[..]))
    {
      hide WriteQs, Encodable, EntryQs;
      var i := 0;
      while i < wired.Length
        invariant 0 <= i <= wired.Length && Valid()
        invariant WriteQs(State(), MapQs(wired[i..])) == WriteQs(old(State()), MapQs(wired[..]))
        modifies this`file, this`currentPageNumber, this`currentQNumber, ivoryDataPage
      {
        var e := wired[i];
        assert e in wired[..];
        assert wired[i..][1..] == wired[i + 1..];
        WriteTwice(State(), EntryQs(e), MapQs(wired[i + 1..]));
        WriteAll(EntryQs(e));
        i := i + 1;
      }
      WriteNothing(State());
    }

    method WriteVLMWorldFilePages(memory: seq<Word>)
      requires forall e :: e in wired[..] ==> End(e) <= |memory|
      modifies this`file
      ensures file == WritePages(order, old(file), memory, PageBases(), wired[..])
    {
      hide PutEntry;
      var i := 0;
      while i < wired.Length
        invariant 0 <= i <= wired.Length
        invariant WritePages(order, file, memory, PageBases(), wired[i..]) ==
          WritePages(order, old(file), memory, PageBases(), wired[..])
      {
        var e := wired[i];
        assert e in wired[..] && wired[i..][1..] == wired[i + 1..];
        if e.opcode == DataPages {
          PutsEntry(order, file, memory, PageBases(), e);
          file := Put(file, DataPlace(PageBases(), e.datum), DataBytes(order, memory, e.address, e.count));
          file := Put(file, TagPlace(PageBases(), e.datum), TagBytes(memory, e.address, e.count));
        }
        i := i + 1;
      }
    }

    /** Saves the parts of memory that the entries ask for. */
    method SaveMemory(memory: seq<Word>, sysout: seq<Word>) returns (ok: bool)
      requires Valid() && file == [] && |sysout| == 5 && Savable(memory, wired[..])
      modifies this, wired, ivoryDataPage
      ensures ok == SaveWorld(order, memory, old(wired[..]), sysout).Some?
      ensures ok ==> Some(file) == SaveWorld(order, memory, old(wired[..]), sysout)
    {
      hide Canonical, Encodable, WriteQs, FlushPage, Zeros, Preallocated, HeaderQs, WritePages, BasesOf, HeaderFits;
      ghost var es := wired[..];
      ok := CanonicalizeVLMLoadMapEntries(memory);
      if ok {
        SaveFits(memory, es);
        WriteVLMWorldFileHeader(sysout);
        WriteVLMWorldFilePages(memory);
      }
    }
  }

  /** Of the request `es`, the part up to some entry has become `done`; `rest` is next, with its pages from `page`
      on. */
  ghost predicate Canonicalizing(memory: seq<Word>, es: seq<Entry>, done: seq<Entry>, rest: seq<Entry>, page: nat) {
    && Savable(memory, es) && Savable(memory, rest)
    && done + Canonical(memory, rest, page) == Canonical(memory, es, 0)
    && page + PagesGiven(rest) == PagesGiven(es)
  }

  lemma StartCanonicalizing(memory: seq<Word>, es: seq<Entry>)
    requires Savable(memory, es)
    ensures Canonicalizing(memory, es, [], es, 0)
  {
    assert [] + Canonical(memory, es, 0) == Canonical(memory, es, 0);
  }

  lemma EndCanonicalizing(memory: seq<Word>, es: seq<Entry>, done: seq<Entry>, page: nat)
    requires Canonicalizing(memory, es, done, [], page)
    ensures Savable(memory, es) && done == Canonical(memory, es, 0) && page == PagesGiven(es)
  {
    assert Canonical(memory, [], page) == [] && done + [] == done;
  }

  lemma NextCanonical(memory: seq<Word>, es: seq<Entry>, done: seq<Entry>, rest: seq<Entry>, page: nat)
    requires Canonicalizing(memory, es, done, rest, page) && rest != []
    ensures End(rest[0]) <= |memory|
    ensures var e := rest[0];
      if e.address % 8192 == 0 then
        Canonicalizing(memory, es, done + [e.(tag := TYPE_FIXNUM, datum := page)], rest[1..], page + Pages(e.count))
      else Canonicalizing(memory, es, done + Constants(memory, e.address, e.count), rest[1..], page)
  {
    hide Constants, Pages;
    var e := rest[0];
    if e.address % 8192 == 0 {
      var first := [e.(tag := TYPE_FIXNUM, datum := page)];
      AppendAssociates(done, first, Canonical(memory, rest[1..], page + Pages(e.count)));
    } else {
      AppendAssociates(done, Constants(memory, e.address, e.count), Canonical(memory, rest[1..], page));
    }
  }

  lemma AppendAssociates(a: seq<Entry>, b: seq<Entry>, c: seq<Entry>)
    ensures a + b + c == a + (b + c)
  {
  }

  /** Writing Qs in two parts. */
  lemma {:induction false} WriteTwice(w: Writer, qs: seq<Word>, more: seq<Word>)
    requires w.Valid()
    ensures WriteQs(w, qs + more) == WriteQs(WriteQs(w, qs), more)
    decreases |qs|
  {
    hide NextQ;
    if qs == [] {
      assert qs + more == more;
    } else {
      assert (qs + more)[1..] == qs[1..] + more;
      WriteTwice(NextQ(w, qs[0]), qs[1..], more);
    }
  }

  lemma WriteNothing(w: Writer)
    requires w.Valid()
    ensures WriteQs(w, []) == w
  {
  }

  lemma PutsEntry(order: Order, file: seq<Byte>, memory: seq<Word>, b: Bases, e: Entry)
    requires End(e) <= |memory|
    ensures PutEntry(order, file, memory, b, e) ==
      Put(Put(file, DataPlace(b, e.datum), DataBytes(order, memory, e.address, e.count)), TagPlace(b, e.datum),
          TagBytes(memory, e.address, e.count))
  {
  }
}
