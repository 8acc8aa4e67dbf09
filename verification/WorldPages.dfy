/** The tags and data pages of a world file: what is written for each entry, and that nothing overwrites it. */
module WorldPages {
  import opened TaggedMemory
  import opened Ivory
  import opened LoadMaps
  import opened WorldBytes
  import opened WorldFile

  /** The data of `n` words from `a` on, in the host's byte order. */
  function DataBytes(order: Order, memory: seq<Word>, a: nat, n: nat): (r: seq<Byte>)
    requires a + n <= |memory|
    ensures |r| == 4 * n
  {
    seq(4 * n, i requires 0 <= i < 4 * n => WordBytes(order, memory[a + i / 4].datum)[i % 4])
  }

  function TagBytes(memory: seq<Word>, a: nat, n: nat): (r: seq<Byte>)
    requires a + n <= |memory|
    ensures |r| == n
  {
    seq<Byte>(n, i requires 0 <= i < n => memory[a + i].tag)
  }

  lemma DataBytesAt(order: Order, memory: seq<Word>, a: nat, n: nat, k: nat)
    requires a + n <= |memory| && k < n
    ensures DataBytes(order, memory, a, n)[4 * k..4 * k + 4] == WordBytes(order, memory[a + k].datum)
  {
    var s, w := DataBytes(order, memory, a, n), WordBytes(order, memory[a + k].datum);
    forall i | 0 <= i < 4 ensures s[4 * k + i] == w[i] {
      Fourfold(k, i);
    }
  }

  lemma Fourfold(k: nat, i: nat)
    requires i < 4
    ensures (4 * k + i) / 4 == k && (4 * k + i) % 4 == i
  {
  }

  /** Writes one entry's data and then its tags. */
  function PutEntry(order: Order, file: seq<Byte>, memory: seq<Word>, b: Bases, e: Entry): seq<Byte>
    requires End(e) <= |memory|
  {
    Put(Put(file, DataPlace(b, e.datum), DataBytes(order, memory, e.address, e.count)),
      TagPlace(b, e.datum), TagBytes(memory, e.address, e.count))
  }

  function WritePages(order: Order, file: seq<Byte>, memory: seq<Word>, b: Bases, es: seq<Entry>): seq<Byte>
    requires forall e :: e in es ==> End(e) <= |memory|
    decreases |es|
  {
    if es == [] then file
    else
      assert es[0] in es;
      var next := if es[0].opcode == DataPages then PutEntry(order, file, memory, b, es[0]) else file;
      WritePages(order, next, memory, b, es[1..])
  }

  /** The file holds an entry's data and tags in the entry's pages. */
  ghost predicate Stored(order: Order, file: seq<Byte>, memory: seq<Word>, b: Bases, e: Entry) {
    var data, tags := DataPlace(b, e.datum), TagPlace(b, e.datum);
    && End(e) <= |memory| && data + 4 * e.count <= |file| && tags + e.count <= |file|
    && file[data..data + 4 * e.count] == DataBytes(order, memory, e.address, e.count)
    && file[tags..tags + e.count] == TagBytes(memory, e.address, e.count)
  }

  // ---------- Nothing overwrites an entry's pages ----------

  /** A part of the file that is clear of the file pages from `from` on: before their tags, or among the data before
      theirs. */
  predicate Clear(b: Bases, from: nat, lo: nat, hi: nat) {
    hi <= TagPlace(b, from) || (DataPlace(b, 0) <= lo && hi <= DataPlace(b, from))
  }

  /** The tags pages end where the data pages begin. */
  predicate Spaced(b: Bases, to: nat) { b.data == b.tags + to }

  lemma EndsWithin(memory: seq<Word>, es: seq<Entry>, from: nat, to: nat)
    requires Placed(memory, es, from, to)
    ensures from <= to && forall e :: e in es ==> End(e) <= |memory|
  {
    if es != [] {
      EndsWithin(memory, es[1..], if es[0].opcode == DataPages then es[0].datum + Pages(es[0].count) else from, to);
    }
  }

  /** What one entry's writes leave alone. */
  lemma {:induction false} PutEntryFrame(order: Order, file: seq<Byte>, memory: seq<Word>, b: Bases, e: Entry,
                                         to: nat, lo: nat, hi: nat)
    requires End(e) <= |memory| && Spaced(b, to) && e.datum + Pages(e.count) <= to
    requires Clear(b, e.datum, lo, hi) && lo <= hi <= |file|
    ensures var r := PutEntry(order, file, memory, b, e); |r| >= |file| && r[lo..hi] == file[lo..hi]
  {
    hide Put, DataBytes, TagBytes;
    var data := DataBytes(order, memory, e.address, e.count);
    var one := Put(file, DataPlace(b, e.datum), data);
    PutFrame(file, DataPlace(b, e.datum), data, lo, hi);
    PutFrame(one, TagPlace(b, e.datum), TagBytes(memory, e.address, e.count), lo, hi);
  }

  lemma {:induction false} PutEntryStores(order: Order, file: seq<Byte>, memory: seq<Word>, b: Bases, e: Entry, to: nat)
    requires End(e) <= |memory| && Spaced(b, to) && e.datum + Pages(e.count) <= to
    ensures Stored(order, PutEntry(order, file, memory, b, e), memory, b, e)
  {
    hide Put, DataBytes, TagBytes;
    var data, tags := DataBytes(order, memory, e.address, e.count), TagBytes(memory, e.address, e.count);
    var at, tagAt := DataPlace(b, e.datum), TagPlace(b, e.datum);
    var one := Put(file, at, data);
    PutReads(file, at, data);
    PutReads(one, tagAt, tags);
    PutFrame(one, tagAt, tags, at, at + 4 * e.count);
  }

  /** Writing entries changes nothing before their tags pages, and nothing among the data before theirs: in particular
      neither the header nor any page given earlier. */
  lemma {:induction false} WritePagesFrame(order: Order, file: seq<Byte>, memory: seq<Word>, b: Bases, es: seq<Entry>,
                                           from: nat, to: nat, lo: nat, hi: nat)
    requires Placed(memory, es, from, to) && (forall e :: e in es ==> End(e) <= |memory|)
    requires Spaced(b, to) && Clear(b, from, lo, hi) && lo <= hi <= |file|
    ensures var r := WritePages(order, file, memory, b, es); |r| >= |file| && r[lo..hi] == file[lo..hi]
    decreases |es|
  {
    hide PutEntry, Pages;
    if es != [] {
      var e, rest := es[0], es[1..];
      assert e in es;
      if e.opcode == DataPages {
        var next := PutEntry(order, file, memory, b, e);
        EndsWithin(memory, rest, e.datum + Pages(e.count), to);
        PutEntryFrame(order, file, memory, b, e, to, lo, hi);
        WritePagesFrame(order, next, memory, b, rest, e.datum + Pages(e.count), to, lo, hi);
      } else {
        WritePagesFrame(order, file, memory, b, rest, from, to, lo, hi);
      }
    }
  }

  /** An entry's data and tags survive writes that are clear of its pages. */
  lemma {:induction false} StoredFrame(order: Order, file: seq<Byte>, other: seq<Byte>, memory: seq<Word>, b: Bases,
                                       e: Entry)
    requires Stored(order, file, memory, b, e)
    requires var data, tags := DataPlace(b, e.datum), TagPlace(b, e.datum);
      && data + 4 * e.count <= |other| && tags + e.count <= |other|
      && file[data..data + 4 * e.count] == other[data..data + 4 * e.count]
      && file[tags..tags + e.count] == other[tags..tags + e.count]
    ensures Stored(order, other, memory, b, e)
  {
  }

  /** An entry's own parts are clear of the pages after its own. */
  lemma OwnPartsClear(b: Bases, e: Entry)
    ensures var data, tags, from := DataPlace(b, e.datum), TagPlace(b, e.datum), e.datum + Pages(e.count);
      Clear(b, from, data, data + 4 * e.count) && Clear(b, from, tags, tags + e.count)
  {
  }

  /** After all pages have been written, every entry's data and tags are in its pages. */
  lemma {:induction false} WritePagesStores(order: Order, file: seq<Byte>, memory: seq<Word>, b: Bases, es: seq<Entry>,
                                            from: nat, to: nat)
    requires Placed(memory, es, from, to) && (forall e :: e in es ==> End(e) <= |memory|) && Spaced(b, to)
    ensures forall e :: e in es && e.opcode == DataPages ==>
      Stored(order, WritePages(order, file, memory, b, es), memory, b, e)
    decreases |es|
  {
    hide PutEntry, Pages, Stored, Clear, DataPlace, TagPlace;
    if es != [] {
      var e, rest := es[0], es[1..];
      assert e in es;
      if e.opcode == DataPages {
        var next, after := PutEntry(order, file, memory, b, e), e.datum + Pages(e.count);
        EndsWithin(memory, rest, after, to);
        PutEntryStores(order, file, memory, b, e, to);
        WritePagesStores(order, next, memory, b, rest, after, to);
        KeepsStored(order, next, memory, b, rest, to, e);
      } else {
        WritePagesStores(order, file, memory, b, rest, from, to);
      }
    }
  }

  lemma {:induction false} KeepsStored(order: Order, file: seq<Byte>, memory: seq<Word>, b: Bases, rest: seq<Entry>,
                                       to: nat, e: Entry)
    requires Stored(order, file, memory, b, e) && Spaced(b, to)
    requires Placed(memory, rest, e.datum + Pages(e.count), to) && forall x :: x in rest ==> End(x) <= |memory|
    ensures Stored(order, WritePages(order, file, memory, b, rest), memory, b, e)
  {
    hide Placed, WritePages, Pages, Clear;
    var data, tags, after := DataPlace(b, e.datum), TagPlace(b, e.datum), e.datum + Pages(e.count);
    OwnPartsClear(b, e);
    WritePagesFrame(order, file, memory, b, rest, after, to, data, data + 4 * e.count);
    WritePagesFrame(order, file, memory, b, rest, after, to, tags, tags + e.count);
    StoredFrame(order, file, WritePages(order, file, memory, b, rest), memory, b, e);
  }
}
