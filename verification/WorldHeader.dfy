/** The header of a VLM world file, written and read back. */
module WorldHeader {
  import opened Wrappers
  import opened TaggedMemory
  import opened Ivory
  import opened LoadMaps
  import opened WorldBytes
  import opened WorldFile

  const VERSION_1 := 0x80_0080
  const VERSION_2 := 0x80_0081
  const COOKIE := 0xA38A_8988
  const COOKIE_SWAPPED := 0x8889_8AA3

  // ---------- Writing ----------

  function OpNumber(op: Opcode): nat {
    match op
    case DataPages => 0
    case Constant => 1
    case ConstantIncremented => 2
    case Copy => 3
  }

  /** An entry whose fields fit theirs in the file. */
  predicate Encodable(e: Entry) {
    e.address < 0x1_0000_0000 && e.count < 0x100_0000 && e.tag < 256 && e.datum < 0x1_0000_0000 && e.world == 0
  }

  function EntryQs(e: Entry): (r: seq<Word>)
    requires Encodable(e)
    ensures |r| == 3
  {
    [Word(TYPE_LOCATIVE, e.address), Word(TYPE_FIXNUM, 0x100_0000 * OpNumber(e.opcode) + e.count), Word(e.tag, e.datum)]
  }

  function MapQs(es: seq<Entry>): (r: seq<Word>)
    requires forall e :: e in es ==> Encodable(e)
    ensures |r| == 3 * |es|
  {
    if es == [] then [] else assert es[0] in es; EntryQs(es[0]) + MapQs(es[1..])
  }

  /** The four bits for the first tags page and the 28 for the first data page. */
  predicate BasesFit(b: Bases) { b.tags < 16 && b.data < 0x1000_0000 }

  /** The Qs of the header. The tags of the first four are the file's magic cookie; `sysout` holds the generation and
      the timestamps of the world and of its parent. */
  function HeaderQs(es: seq<Entry>, sysout: seq<Word>, b: Bases): (r: seq<Word>)
    requires |sysout| == 5 && BasesFit(b) && |es| < 0x1_0000_0000 && forall e :: e in es ==> Encodable(e)
    ensures |r| == FIRST_MAP_Q + 3 * |es|
  {
    [Word(0x88, VERSION_2), Word(0x89, |es|), Word(0x8A, 0x1000_0000 * b.tags + b.data), Word(0xA3, sysout[0].datum)]
    + sysout[1..] + MapQs(es)
  }

  // ---------- Reading ----------

  /** The whole page of a Q can be read. */
  predicate Present(file: seq<Byte>, q: nat) { PAGE_BYTES * (q / 256 + 1) <= |file| }

  function ReadQ(file: seq<Byte>, q: nat): Word
    requires Present(file, q)
  {
    PresentHas(file, q);
    GetQ(file, q)
  }

  lemma PresentHas(file: seq<Byte>, q: nat)
    requires Present(file, q)
    ensures HasQ(file, q)
  {
    QInPage(q / 256, q % 256);
  }

  function DecodeEntry(address: Word, op: Word, data: Word): Option<Entry> {
    var n := op.datum / 0x100_0000;
    if n > 3 then None
    else
      var opcode :=
        if n == 0 then DataPages else if n == 1 then Constant else if n == 2 then ConstantIncremented else Copy;
      Some(Entry(address.datum, opcode, op.datum % 0x100_0000, data.tag, data.datum, 0))
  }

  /** `n` entries from Q `q` on. `None` when the file ends before them, or an opcode is unknown. */
  function ReadLoadMap(file: seq<Byte>, q: nat, n: nat): Option<seq<Entry>>
    decreases n
  {
    if n == 0 then Some([])
    else if !Present(file, q) || !Present(file, q + 1) || !Present(file, q + 2) then None
    else
      var e := DecodeEntry(ReadQ(file, q), ReadQ(file, q + 1), ReadQ(file, q + 2));
      var rest := ReadLoadMap(file, q + 3, n - 1);
      if e.None? || rest.None? then None else Some([e.value] + rest.value)
  }

  /** An open world file. */
  datatype World = World(byteSwapped: bool, bases: Bases, sysout: seq<Datum>, wired: seq<Entry>)

  /** Opens a VLM world file on a host of the given byte order. */
  function OpenWorldFile(order: Order, file: seq<Byte>): Option<World> {
    if !Present(file, 0) then None
    else
      var cookie := BytesWord(order, file[..4]);
      var version := ReadQ(file, 0).datum;
      if (cookie != COOKIE && cookie != COOKIE_SWAPPED) || (version != VERSION_1 && version != VERSION_2) then None
      else
        var pages := ReadQ(file, if version == VERSION_1 then 3 else 2).datum;
        var sysout := if version == VERSION_1 then [0, 0, 0, 0, 0]
          else
            [ReadQ(file, 3).datum, ReadQ(file, 4).datum, ReadQ(file, 5).datum, ReadQ(file, 6).datum,
             ReadQ(file, 7).datum];
        match ReadLoadMap(file, FIRST_MAP_Q, ReadQ(file, 1).datum)
        case None => None
        case Some(es) =>
          Some(World(cookie == COOKIE_SWAPPED, Bases(pages / 0x1000_0000, pages % 0x1000_0000), sysout, es))
  }

  // ---------- Reading undoes writing ----------

  lemma EntryReadBack(e: Entry)
    requires Encodable(e)
    ensures var q := EntryQs(e); DecodeEntry(q[0], q[1], q[2]) == Some(e)
  {
  }

  lemma HeldQ(file: seq<Byte>, qs: seq<Word>, q: nat)
    requires Holds(file, qs) && q < |qs|
    ensures Present(file, q) && ReadQ(file, q) == qs[q]
  {
    hide GetQ, HasQ;
  }

  /** A load map of any length is read back, wherever it starts. */
  lemma {:induction false} LoadMapReadBack(file: seq<Byte>, before: seq<Word>, es: seq<Entry>)
    requires (forall e :: e in es ==> Encodable(e)) && Holds(file, before + MapQs(es))
    ensures ReadLoadMap(file, |before|, |es|) == Some(es)
    decreases |es|
  {
    hide Holds, Encodable, EntryQs, DecodeEntry, Present, ReadQ;
    if es != [] {
      assert es[0] in es;
      var qs, q := EntryQs(es[0]), |before|;
      assert MapQs(es) == qs + MapQs(es[1..]);
      assert forall i | 0 <= i < 3 :: (before + MapQs(es))[q + i] == qs[i];
      HeldQ(file, before + MapQs(es), q);
      HeldQ(file, before + MapQs(es), q + 1);
      HeldQ(file, before + MapQs(es), q + 2);
      EntryReadBack(es[0]);
      assert before + MapQs(es) == before + qs + MapQs(es[1..]);
      LoadMapReadBack(file, before + qs, es[1..]);
      assert [es[0]] + es[1..] == es;
    }
  }

  /** Where the entries of a load map are, and how each of them is written. */
  lemma {:induction false} MapLayout(es: seq<Entry>, i: nat)
    requires (forall e :: e in es ==> Encodable(e)) && i < |es|
    ensures var qs, e := MapQs(es), es[i];
      && Encodable(e)
      && qs[3 * i] == Word(TYPE_LOCATIVE, e.address) && qs[3 * i + 2] == Word(e.tag, e.datum)
      && qs[3 * i + 1].tag == TYPE_FIXNUM && qs[3 * i + 1].datum % 0x100_0000 == e.count
      && qs[3 * i + 1].datum / 0x100_0000 ==
         if e.opcode.DataPages? then 0 else if e.opcode.Constant? then 1 else if e.opcode.ConstantIncremented? then 2
         else 3
    decreases i
  {
    hide Encodable;
    assert es[0] in es;
    assert MapQs(es) == EntryQs(es[0]) + MapQs(es[1..]);
    if i > 0 {
      MapLayout(es[1..], i - 1);
      assert 3 * i == 3 + 3 * (i - 1);
    } else {
      EntryLayout(es[0]);
    }
  }

  lemma EntryLayout(e: Entry)
    requires Encodable(e)
    ensures EntryQs(e)[1].datum / 0x100_0000 == OpNumber(e.opcode) && EntryQs(e)[1].datum % 0x100_0000 == e.count
  {
  }

  /** The first four bytes of the file are the tags of its first four Qs. */
  lemma CookieBytes(file: seq<Byte>, qs: seq<Word>)
    requires Holds(file, qs) && |qs| >= 4
    ensures |file| >= 4 && file[..4] == [qs[0].tag, qs[1].tag, qs[2].tag, qs[3].tag]
  {
    HeldQ(file, qs, 0);
    HeldQ(file, qs, 1);
    HeldQ(file, qs, 2);
    HeldQ(file, qs, 3);
  }

  /** Opening a file gives back the entries, page bases and sysout fields of its header, for any number of entries on
      any number of pages. A big-endian host takes its own files for byte-swapped ones. */
  lemma {:induction false} HeaderReadBack(order: Order, file: seq<Byte>, es: seq<Entry>, sysout: seq<Word>, b: Bases)
    requires |sysout| == 5 && BasesFit(b) && |es| < 0x1_0000_0000 && (forall e :: e in es ==> Encodable(e))
    requires Holds(file, HeaderQs(es, sysout, b))
    ensures OpenWorldFile(order, file) ==
      Some(World(order == Big, b,
                 [sysout[0].datum, sysout[1].datum, sysout[2].datum, sysout[3].datum, sysout[4].datum], es))
  {
    hide Holds, ReadQ, Present, MapQs, ReadLoadMap;
    var qs := HeaderQs(es, sysout, b);
    CookieBytes(file, qs);
    assert BytesWord(order, file[..4]) == if order == Big then COOKIE_SWAPPED else COOKIE;
    HeldQ(file, qs, 0);
    HeldQ(file, qs, 1);
    HeldQ(file, qs, 2);
    HeldQ(file, qs, 3);
    HeldQ(file, qs, 4);
    HeldQ(file, qs, 5);
    HeldQ(file, qs, 6);
    HeldQ(file, qs, 7);
    assert qs == qs[..8] + MapQs(es);
    LoadMapReadBack(file, qs[..8], es);
  }

  /** The older version keeps the page bases in Q 3 and has no sysout fields. */
  lemma {:induction false} OldHeaderReadBack(order: Order, file: seq<Byte>, es: seq<Entry>, qs: seq<Word>, b: Bases)
    requires |qs| == FIRST_MAP_Q && BasesFit(b) && |es| < 0x1_0000_0000 && (forall e :: e in es ==> Encodable(e))
    requires qs[0] == Word(0x88, VERSION_1) && qs[1] == Word(0x89, |es|) && qs[2].tag == 0x8A
    requires qs[3] == Word(0xA3, 0x1000_0000 * b.tags + b.data) && Holds(file, qs + MapQs(es))
    ensures OpenWorldFile(order, file) == Some(World(order == Big, b, [0, 0, 0, 0, 0], es))
  {
    hide Holds, ReadQ, Present, MapQs, ReadLoadMap;
    var all := qs + MapQs(es);
    CookieBytes(file, all);
    HeldQ(file, all, 0);
    HeldQ(file, all, 1);
    HeldQ(file, all, 2);
    HeldQ(file, all, 3);
    LoadMapReadBack(file, qs, es);
  }

  // ---------- What is read at all ----------

  /** The operation of entry `i` of the load map at `q` is one of the four. */
  predicate Known(file: seq<Byte>, q: nat, i: nat) {
    Present(file, q + 3 * i + 1) && ReadQ(file, q + 3 * i + 1).datum < 0x400_0000
  }

  predicate AllKnown(file: seq<Byte>, q: nat, n: nat) { forall i: nat | i < n :: Known(file, q, i) }

  /** A load map is readable if and only if the file goes on to its last Q and every operation is known. */
  lemma {:induction false} ReadsExactly(file: seq<Byte>, q: nat, n: nat)
    ensures ReadLoadMap(file, q, n).Some? <==> n == 0 || (Present(file, q + 3 * n - 1) && AllKnown(file, q, n))
    decreases n
  {
    hide ReadQ, Known, AllKnown, DecodeEntry;
    if n > 0 {
      ReadsExactly(file, q + 3, n - 1);
      KnownNext(file, q, q + 3, n);
      if Present(file, q + 3 * n - 1) {
        FirstKnown(file, q);
      }
    }
  }

  lemma FirstKnown(file: seq<Byte>, q: nat)
    requires Present(file, q) && Present(file, q + 1) && Present(file, q + 2)
    ensures Known(file, q, 0) <==> DecodeEntry(ReadQ(file, q), ReadQ(file, q + 1), ReadQ(file, q + 2)).Some?
  {
    hide ReadQ;
  }

  lemma KnownNext(file: seq<Byte>, q: nat, next: nat, n: nat)
    requires n > 0 && next == q + 3
    ensures AllKnown(file, q, n) <==> Known(file, q, 0) && AllKnown(file, next, n - 1)
    ensures AllKnown(file, next, 0)
  {
    hide ReadQ;
    forall i: nat ensures Known(file, next, i) == Known(file, q, i + 1) {
      assert next + 3 * i + 1 == q + 3 * (i + 1) + 1;
    }
    if Known(file, q, 0) && AllKnown(file, next, n - 1) {
      forall i: nat | i < n ensures Known(file, q, i) {
        if i > 0 { assert Known(file, next, i - 1); }
      }
    }
  }

  /** A file is opened if and only if it starts with the cookie, in either byte order, has one of the two versions, and
      has a readable load map. */
  lemma {:induction false} OpensExactly(order: Order, file: seq<Byte>)
    ensures OpenWorldFile(order, file).Some? <==>
      && Present(file, 0)
      && (file[..4] == [0x88, 0x89, 0x8A, 0xA3] || file[..4] == [0xA3, 0x8A, 0x89, 0x88])
      && (ReadQ(file, 0).datum == 0x80_0080 || ReadQ(file, 0).datum == 0x80_0081)
      && var n := ReadQ(file, 1).datum;
         (n == 0 || (Present(file, 7 + 3 * n) && AllKnown(file, 8, n)))
  {
    hide ReadQ, GetQ, ReadLoadMap, AllKnown;
    if Present(file, 0) {
      CookieExactly(order, file[..4]);
      ReadsExactly(file, FIRST_MAP_Q, ReadQ(file, 1).datum);
    }
  }

  lemma CookieExactly(order: Order, b: seq<Byte>)
    requires |b| == 4
    ensures (BytesWord(order, b) == COOKIE || BytesWord(order, b) == COOKIE_SWAPPED) <==>
      (b == [0x88, 0x89, 0x8A, 0xA3] || b == [0xA3, 0x8A, 0x89, 0x88])
  {
    hide Number;
    BytesReadBack(order, b);
    assert WordBytes(Little, COOKIE) == [0x88, 0x89, 0x8A, 0xA3] && WordBytes(Big, COOKIE) == [0xA3, 0x8A, 0x89, 0x88];
    WordReadBack(order, COOKIE);
    WordReadBack(order, COOKIE_SWAPPED);
  }
}
