/** An open world file being read: the buffered page, and where the next Q is; and the loading of its entries. */
module WorldFileReader {
  import opened Wrappers
  import opened TaggedMemory
  import opened Ivory
  import opened LoadMaps
  import opened WorldBytes
  import opened WorldFile
  import opened WorldHeader
  import opened SavedWorlds

  class WorldReader {
    const file: seq<Byte>
    const order: Order
    const ivoryDataPage: array<Byte>
    var currentPageNumber: int
    var currentQNumber: nat

    /** The buffer holds the current page, once one has been read. */
    ghost predicate Valid()
      reads this, ivoryDataPage
    {
      && ivoryDataPage.Length == PAGE_BYTES && -1 <= currentPageNumber
      && (currentPageNumber >= 0 ==>
            && PAGE_BYTES * (currentPageNumber + 1) <= |file|
            && ivoryDataPage[..] == file[PAGE_BYTES * currentPageNumber..PAGE_BYTES * (currentPageNumber + 1)])
    }

    /** The number, within the file, of the Q to be read next. */
    ghost function Position(): nat
      reads this
    {
      if currentPageNumber < 0 then currentQNumber else 256 * currentPageNumber + currentQNumber
    }

    constructor (order: Order, file: seq<Byte>)
      ensures Valid() && fresh(ivoryDataPage) && this.file == file && this.order == order && currentPageNumber == -1
    {
      this.file, this.order := file, order;
      ivoryDataPage := new Byte[PAGE_BYTES](_ => 0);
      currentPageNumber, currentQNumber := -1, 0;
    }

    method ReadIvoryWorldFilePage(pageNumber: nat) returns (ok: bool)
      requires Valid()
      modifies this`currentPageNumber, ivoryDataPage
      ensures Valid() && ok == (PAGE_BYTES * (pageNumber + 1) <= |file|)
      ensures currentPageNumber == if ok then pageNumber else old(currentPageNumber)
    {
      if currentPageNumber == pageNumber {
        return true;
      }
      if PAGE_BYTES * (pageNumber + 1) > |file| {
        return false;
      }
      var at := PAGE_BYTES * pageNumber;
      var i := 0;
      while i < PAGE_BYTES
        invariant 0 <= i <= PAGE_BYTES && forall k :: 0 <= k < i ==> ivoryDataPage[k] == file[at + k]
        modifies ivoryDataPage
      {
        ivoryDataPage[i] := file[at + i];
        i := i + 1;
      }
      assert ivoryDataPage[..] == file[at..at + PAGE_BYTES];
      currentPageNumber := pageNumber;
      ok := true;
    }

    method ReadIvoryWorldFileQ(qNumber: nat) returns (q: Word)
      requires Valid() && currentPageNumber >= 0 && qNumber < 256
      ensures Present(file, 256 * currentPageNumber + qNumber) && q == ReadQ(file, 256 * currentPageNumber + qNumber)
    {
      hide GetQ, HasQ;
      BelowPage(qNumber, 1);
      HasQBelow(ivoryDataPage[..], PAGE_BYTES, qNumber);
      PageQ(file, currentPageNumber, qNumber);
      q := GetQ(ivoryDataPage[..], qNumber);
    }

    /** The next Q, on whatever page it is. */
    method ReadIvoryWorldFileNextQ() returns (q: Option<Word>)
      requires Valid() && currentPageNumber >= 0
      modifies this`currentPageNumber, this`currentQNumber, ivoryDataPage
      ensures Valid() && currentPageNumber >= 0
      ensures q == if Present(file, old(Position())) then Some(ReadQ(file, old(Position()))) else None
      ensures q.Some? ==> Position() == old(Position()) + 1
    {
      while currentQNumber >= 256
        invariant Valid() && currentPageNumber >= 0 && Position() == old(Position())
        modifies this`currentPageNumber, this`currentQNumber, ivoryDataPage
        decreases currentQNumber
      {
        var ok := ReadIvoryWorldFilePage(currentPageNumber + 1);
        if !ok {
          return None;
        }
        currentQNumber := currentQNumber - 256;
      }
      var w := ReadIvoryWorldFileQ(currentQNumber);
      currentQNumber := currentQNumber + 1;
      q := Some(w);
    }

    method ReadEntry() returns (e: Option<Entry>)
      requires Valid() && currentPageNumber >= 0
      modifies this`currentPageNumber, this`currentQNumber, ivoryDataPage
      ensures Valid() && currentPageNumber >= 0
      ensures e == var q := old(Position());
        if !Present(file, q) || !Present(file, q + 1) || !Present(file, q + 2) then None
        else DecodeEntry(ReadQ(file, q), ReadQ(file, q + 1), ReadQ(file, q + 2))
      ensures e.Some? ==> Position() == old(Position()) + 3
    {
      hide ReadQ, Present, DecodeEntry;
      e := None;
      var address := ReadIvoryWorldFileNextQ();
      if address.Some? {
        var op := ReadIvoryWorldFileNextQ();
        if op.Some? {
          var data := ReadIvoryWorldFileNextQ();
          if data.Some? {
            e := DecodeEntry(address.value, op.value, data.value);
          }
        }
      }
    }

    method ReadLoadMapEntries(n: nat) returns (es: Option<seq<Entry>>)
      requires Valid() && currentPageNumber >= 0
      modifies this`currentPageNumber, this`currentQNumber, ivoryDataPage
      ensures es == ReadLoadMap(file, old(Position()), n)
    {
      hide ReadQ, Present, DecodeEntry;
      var done := [];
      var left := n;
      assert ReadLoadMap(file, Position(), n) == Prepend([], ReadLoadMap(file, Position(), n)) by {
        PrependNone(ReadLoadMap(file, Position(), n));
      }
      while left > 0
        invariant 0 <= left <= n && Valid() && currentPageNumber >= 0
        invariant ReadLoadMap(file, old(Position()), n) == Prepend(done, ReadLoadMap(file, Position(), left))
        modifies this`currentPageNumber, this`currentQNumber, ivoryDataPage
      {
        ghost var rest := ReadLoadMap(file, Position() + 3, left - 1);
        var e := ReadEntry();
        if e.None? {
          return None;
        }
        PrependTwice(done, [e.value], rest);
        done := done + [e.value];
        left := left - 1;
      }
      es := Some(done);
      assert done + [] == done;
    }

    method OpenWorld() returns (world: Option<World>)
      requires Valid() && currentPageNumber == -1
      modifies this`currentPageNumber, this`currentQNumber, ivoryDataPage
      ensures world == OpenWorldFile(order, file)
    {
      hide ReadQ;
      var ok := ReadIvoryWorldFilePage(0);
      if !ok {
        return None;
      }
      var cookie := BytesWord(order, file[..4]);
      if cookie != COOKIE && cookie != COOKIE_SWAPPED {
        return None;
      }
      var version := ReadIvoryWorldFileQ(0);
      if version.datum != VERSION_1 && version.datum != VERSION_2 {
        return None;
      }
      var wiredCount := ReadIvoryWorldFileQ(1);
      var pages := ReadIvoryWorldFileQ(if version.datum == VERSION_1 then 3 else 2);
      var sysout := [0, 0, 0, 0, 0];
      if version.datum == VERSION_2 {
        var q3, q4, q5, q6, q7 := ReadSysout();
        sysout := [q3, q4, q5, q6, q7];
      }
      currentQNumber := FIRST_MAP_Q;
      var es := ReadLoadMapEntries(wiredCount.datum);
      if es.None? {
        return None;
      }
      var bases := Bases(pages.datum / 0x1000_0000, pages.datum % 0x1000_0000);
      world := Some(World(cookie == COOKIE_SWAPPED, bases, sysout, es.value));
    }

    method ReadSysout() returns (q3: Datum, q4: Datum, q5: Datum, q6: Datum, q7: Datum)
      requires Valid() && currentPageNumber == 0
      ensures Present(file, 3) && Present(file, 4) && Present(file, 5) && Present(file, 6) && Present(file, 7)
      ensures q3 == ReadQ(file, 3).datum && q4 == ReadQ(file, 4).datum && q5 == ReadQ(file, 5).datum
      ensures q6 == ReadQ(file, 6).datum && q7 == ReadQ(file, 7).datum
    {
      hide ReadQ;
      var w := ReadIvoryWorldFileQ(3);
      q3 := w.datum;
      w := ReadIvoryWorldFileQ(4);
      q4 := w.datum;
      w := ReadIvoryWorldFileQ(5);
      q5 := w.datum;
      w := ReadIvoryWorldFileQ(6);
      q6 := w.datum;
      w := ReadIvoryWorldFileQ(7);
      q7 := w.datum;
    }
  }

  function Prepend(done: seq<Entry>, rest: Option<seq<Entry>>): Option<seq<Entry>> {
    if rest.None? then None else Some(done + rest.value)
  }

  lemma PrependNone(rest: Option<seq<Entry>>)
    ensures Prepend([], rest) == rest
  {
    if rest.Some? { assert [] + rest.value == rest.value; }
  }

  lemma PrependTwice(done: seq<Entry>, more: seq<Entry>, rest: Option<seq<Entry>>)
    ensures Prepend(done + more, rest) == Prepend(done, Prepend(more, rest))
  {
    if rest.Some? { assert done + more + rest.value == done + (more + rest.value); }
  }

  /** Loads one entry into memory, word by word; of a constant that runs to the end of memory, the tags. */
  method LoadEntry(order: Order, images: seq<Image>, memory: array<Word>, e: Entry)
    requires memory.Length == MEMORY && Loadable(images, e) && End(e) <= MEMORY
    modifies memory
    ensures memory[..] == LoadMapData(order, images, old(memory[..]), e)
  {
    hide Resolve, Resolvable, SourceAt, Short;
    var k := 0;
    while k < e.count
      invariant 0 <= k <= e.count
      invariant forall a | 0 <= a < MEMORY && !(e.address <= a < e.address + k) :: memory[a] == old(memory[a])
      invariant forall a | e.address <= a < e.address + k ::
        Resolvable(images, SourceAt(VLM_PAGE, e, a)) &&
        var w := Resolve(order, images, SourceAt(VLM_PAGE, e, a));
        memory[a] == if Short(e) then Word(w.tag, old(memory[a]).datum) else w
    {
      LoadableAt(images, e, e.address + k);
      var w := Resolve(order, images, SourceAt(VLM_PAGE, e, e.address + k));
      memory[e.address + k] := if Short(e) then Word(w.tag, memory[e.address + k].datum) else w;
      k := k + 1;
    }
  }

  /** Loads a world's entries in order. */
  method LoadEntries(order: Order, images: seq<Image>, memory: array<Word>, es: seq<Entry>)
    requires memory.Length == MEMORY && forall e :: e in es ==> Loadable(images, e) && End(e) <= MEMORY
    modifies memory
    ensures memory[..] == LoadWorld(order, images, old(memory[..]), es)
  {
    hide LoadMapData, Loadable;
    var i := 0;
    while i < |es|
      invariant 0 <= i <= |es|
      invariant LoadWorld(order, images, memory[..], es[i..]) == LoadWorld(order, images, old(memory[..]), es)
    {
      assert es[i] in es && es[i..][1..] == es[i + 1..];
      LoadEntry(order, images, memory, es[i]);
      i := i + 1;
    }
  }
}
