/** Bytes of a world file: words in either byte order, and the Ivory page format that packs four Qs, tag bytes first,
    into five words. */
module WorldBytes {
  import opened TaggedMemory
  import opened Ivory

  type Byte = Tag

  datatype Order = Little | Big

  // ---------- Words ----------

  /** Four bytes as a number, the lowest first. */
  function Number(b0: nat, b1: nat, b2: nat, b3: nat): nat { b0 + 256 * (b1 + 256 * (b2 + 256 * b3)) }

  function WordBytes(order: Order, d: Datum): (b: seq<Byte>)
    ensures |b| == 4
  {
    var b0, b1, b2, b3 := d % 256, d / 256 % 256, d / 256 / 256 % 256, d / 256 / 256 / 256;
    if order == Little then [b0, b1, b2, b3] else [b3, b2, b1, b0]
  }

  function BytesWord(order: Order, b: seq<Byte>): Datum
    requires |b| == 4
  {
    if order == Little then Number(b[0], b[1], b[2], b[3]) else Number(b[3], b[2], b[1], b[0])
  }

  lemma WordReadBack(order: Order, d: Datum)
    ensures BytesWord(order, WordBytes(order, d)) == d
  {
  }

  /** The lowest byte is the first one in little-endian order and the last one in big-endian order. */
  lemma BytesExactly(order: Order, d: Datum)
    ensures var b := WordBytes(order, d);
      d == if order == Little then Number(b[0], b[1], b[2], b[3]) else Number(b[3], b[2], b[1], b[0])
  {
  }

  lemma BytesReadBack(order: Order, b: seq<Byte>)
    requires |b| == 4
    ensures WordBytes(order, BytesWord(order, b)) == b
  {
    NumberBytes(b[0], b[1], b[2], b[3]);
    NumberBytes(b[3], b[2], b[1], b[0]);
  }

  lemma NumberBytes(b0: Byte, b1: Byte, b2: Byte, b3: Byte)
    ensures WordBytes(Little, Number(b0, b1, b2, b3)) == [b0, b1, b2, b3]
    ensures WordBytes(Big, Number(b0, b1, b2, b3)) == [b3, b2, b1, b0]
  {
    var n2: int := b2 + 256 * b3;
    var n1: int := b1 + 256 * n2;
    assert n2 / 256 == b3 && n1 / 256 == n2 && Number(b0, b1, b2, b3) / 256 == n1;
  }

  function Other(order: Order): Order { if order == Little then Big else Little }

  /** A word read in the order that it was not written in. */
  function Swapped(d: Datum): Datum { BytesWord(Little, WordBytes(Big, d)) }

  lemma ReadSwapped(order: Order, d: Datum)
    ensures BytesWord(Other(order), WordBytes(order, d)) == Swapped(d)
  {
  }

  // ---------- Files ----------

  function Zeros(n: nat): (r: seq<Byte>)
    ensures |r| == n
  {
    seq(n, _ => 0)
  }

  /** The file with `bytes` written at an offset; a gap before them reads as zeros. */
  function Put(file: seq<Byte>, at: nat, bytes: seq<Byte>): seq<Byte> {
    var f := if |file| < at + |bytes| then file + Zeros(at + |bytes| - |file|) else file;
    f[..at] + bytes + f[at + |bytes|..]
  }

  lemma PutReads(file: seq<Byte>, at: nat, bytes: seq<Byte>)
    ensures var r := Put(file, at, bytes);
      |r| >= |file| && |r| >= at + |bytes| && r[at..at + |bytes|] == bytes
  {
  }

  /** What a write leaves alone. */
  lemma PutFrame(file: seq<Byte>, at: nat, bytes: seq<Byte>, from: nat, to: nat)
    requires from <= to <= |file| && (to <= at || at + |bytes| <= from)
    ensures |Put(file, at, bytes)| >= |file| && Put(file, at, bytes)[from..to] == file[from..to]
  {
    var r := Put(file, at, bytes);
    assert forall i | from <= i < to :: r[i] == file[i];
  }

  // ---------- Ivory page format ----------

  const PAGE_BYTES := 1280

  /** The tag of Q `n` is among the four bytes before its group of four words. */
  function TagAt(n: nat): nat { 20 * (n / 4) + n % 4 }

  function DatumAt(n: nat): nat { 20 * (n / 4) + 4 * (n % 4) + 4 }

  predicate HasQ(bytes: seq<Byte>, n: nat) { DatumAt(n) + 4 <= |bytes| }

  function GetQ(bytes: seq<Byte>, n: nat): Word
    requires HasQ(bytes, n)
  {
    Word(bytes[TagAt(n)], BytesWord(Little, bytes[DatumAt(n)..DatumAt(n) + 4]))
  }

  function SetQ(bytes: seq<Byte>, n: nat, w: Word): (r: seq<Byte>)
    requires HasQ(bytes, n)
    ensures |r| == |bytes|
  {
    var d := DatumAt(n);
    var tagged := bytes[TagAt(n) := w.tag];
    tagged[..d] + WordBytes(Little, w.datum) + tagged[d + 4..]
  }

  /** Distinct Qs share no byte: neither tags nor words nor a tag with a word. */
  lemma QsAreDisjoint(n: nat, m: nat)
    requires n != m
    ensures TagAt(n) != TagAt(m)
    ensures !(DatumAt(m) <= TagAt(n) < DatumAt(m) + 4)
    ensures DatumAt(n) + 4 <= DatumAt(m) || DatumAt(m) + 4 <= DatumAt(n)
  {
  }

  /** A page of Qs behaves like an array. */
  lemma {:induction false} SetQReads(bytes: seq<Byte>, n: nat, w: Word, m: nat)
    requires HasQ(bytes, n) && HasQ(bytes, m)
    ensures GetQ(SetQ(bytes, n, w), m) == if m == n then w else GetQ(bytes, m)
  {
    var r, d := SetQ(bytes, n, w), DatumAt(m);
    if m == n {
      assert r[d..d + 4] == WordBytes(Little, w.datum);
      WordReadBack(Little, w.datum);
    } else {
      QsAreDisjoint(n, m);
      QsAreDisjoint(m, n);
      assert forall i | d <= i < d + 4 :: r[i] == bytes[i];
      assert r[d..d + 4] == bytes[d..d + 4];
    }
  }

  /** Q `n` of a page is Q `256 * k + n` of the file: pages are laid end to end. */
  lemma PageQ(file: seq<Byte>, k: nat, n: nat)
    requires PAGE_BYTES * (k + 1) <= |file| && n < 256
    ensures HasQ(file, 256 * k + n)
    ensures GetQ(file, 256 * k + n) == GetQ(file[PAGE_BYTES * k..PAGE_BYTES * (k + 1)], n)
  {
    hide TagAt, DatumAt;
    QInPage(k, n);
    var at, d := PAGE_BYTES * k, DatumAt(n);
    assert file[at..at + PAGE_BYTES][d..d + 4] == file[at + d..at + d + 4];
  }

  lemma QInPage(k: nat, n: nat)
    requires n < 256
    ensures DatumAt(256 * k + n) == PAGE_BYTES * k + DatumAt(n) && TagAt(256 * k + n) == PAGE_BYTES * k + TagAt(n)
    ensures TagAt(n) < DatumAt(n) && DatumAt(n) + 4 <= PAGE_BYTES
  {
    assert (256 * k + n) / 4 == 64 * k + n / 4 && (256 * k + n) % 4 == n % 4;
  }

  /** Files that agree up to a point hold the same Qs there. */
  lemma SameQ(file: seq<Byte>, other: seq<Byte>, limit: nat, n: nat)
    requires limit <= |file| && limit <= |other| && file[..limit] == other[..limit] && DatumAt(n) + 4 <= limit
    ensures GetQ(file, n) == GetQ(other, n)
  {
    var t, d := TagAt(n), DatumAt(n);
    assert file[t] == file[..limit][t] == other[t];
    SliceOfPrefix(file, other, limit, d, d + 4);
  }

  lemma SliceOfPrefix(file: seq<Byte>, other: seq<Byte>, limit: nat, from: nat, to: nat)
    requires from <= to <= limit <= |file| && limit <= |other| && file[..limit] == other[..limit]
    ensures file[from..to] == other[from..to]
  {
    assert file[from..to] == file[..limit][from..to];
    assert other[from..to] == other[..limit][from..to];
  }

  // ---------- Writing Qs one after the other ----------

  /** The file, the page being filled, its number, and how many Qs are on it. */
  datatype Writer = Writer(file: seq<Byte>, page: seq<Byte>, number: nat, q: nat) {
    predicate Valid() { |page| == PAGE_BYTES && q <= 256 }
  }

  /** The page is written, and an empty one begun, unless nothing is on it. */
  function FlushPage(w: Writer): (r: Writer)
    requires w.Valid()
    ensures r.Valid()
  {
    if w.q == 0 then w
    else Writer(Put(w.file, PAGE_BYTES * w.number, w.page), Zeros(PAGE_BYTES), w.number + 1, 0)
  }

  function NextQ(w: Writer, x: Word): (r: Writer)
    requires w.Valid()
    ensures r.Valid()
  {
    var v := if w.q >= 256 then FlushPage(w) else w;
    v.(page := SetQ(v.page, v.q, x), q := v.q + 1)
  }

  function WriteQs(w: Writer, qs: seq<Word>): (r: Writer)
    requires w.Valid()
    ensures r.Valid()
    decreases |qs|
  {
    if qs == [] then w else WriteQs(NextQ(w, qs[0]), qs[1..])
  }

  /** Pages that `n` Qs take. */
  function PagesFor(n: nat): nat { (n + 255) / 256 }

  /** The file holds the Qs `qs`, from the first on, in whole pages. */
  ghost predicate Holds(file: seq<Byte>, qs: seq<Word>) {
    && PAGE_BYTES * PagesFor(|qs|) <= |file|
    && forall n: nat | n < |qs| :: HasQ(file, n) && GetQ(file, n) == qs[n]
  }

  /** Where a file has its Qs: in groups of four, the four tag bytes before the four words, lowest byte first. */
  lemma {:induction false} FileLayout(file: seq<Byte>, qs: seq<Word>, group: nat, i: nat)
    requires Holds(file, qs) && i < 4 && 4 * group + i < |qs|
    ensures var at, w := 20 * group + 4 + 4 * i, qs[4 * group + i];
      && at + 4 <= |file| && file[20 * group + i] == w.tag
      && w.datum == Number(file[at], file[at + 1], file[at + 2], file[at + 3])
  {
    var n := 4 * group + i;
    assert n / 4 == group && n % 4 == i;
    assert HasQ(file, n) && GetQ(file, n) == qs[n];
  }

  /** The file's first pages and the page being filled together hold the Qs. */
  ghost predicate Filling(w: Writer, qs: seq<Word>) {
    && w.Valid() && |qs| == 256 * w.number + w.q && PAGE_BYTES * w.number <= |w.file|
    && (forall n: nat | n < 256 * w.number :: HasQ(w.file, n) && GetQ(w.file, n) == qs[n])
    && (forall n: nat | n < w.q :: HasQ(w.page, n) && GetQ(w.page, n) == qs[256 * w.number + n])
  }

  /** Writing the page after those in the file adds its Qs to theirs. */
  lemma {:induction false} FlushHolds(w: Writer, qs: seq<Word>)
    requires Filling(w, qs)
    ensures Holds(FlushPage(w).file, qs)
    ensures w.q == 256 ==> Filling(FlushPage(w), qs)
  {
    hide GetQ, HasQ;
    if w.q > 0 {
      var at := PAGE_BYTES * w.number;
      var file := Put(w.file, at, w.page);
      PutReads(w.file, at, w.page);
      PutFrame(w.file, at, w.page, 0, at);
      assert file[..at] == w.file[..at];
      assert PagesFor(|qs|) == w.number + 1;
      forall n: nat | n < |qs| ensures HasQ(file, n) && GetQ(file, n) == qs[n] {
        if n < 256 * w.number {
          BelowPage(n, w.number);
          HasQBelow(file, at, n);
          SameQ(file, w.file, at, n);
        } else {
          PageQ(file, w.number, n - 256 * w.number);
        }
      }
    }
  }

  lemma BelowPage(n: nat, k: nat)
    requires n < 256 * k
    ensures DatumAt(n) + 4 <= PAGE_BYTES * k
  {
  }

  lemma HasQBelow(file: seq<Byte>, limit: nat, n: nat)
    requires limit <= |file| && DatumAt(n) + 4 <= limit
    ensures HasQ(file, n)
  {
  }

  lemma {:induction false} NextQFills(w: Writer, qs: seq<Word>, x: Word)
    requires Filling(w, qs)
    ensures Filling(NextQ(w, x), qs + [x])
  {
    hide GetQ, HasQ;
    if w.q >= 256 { FlushHolds(w, qs); }
    var v := if w.q >= 256 then FlushPage(w) else w;
    var r := NextQ(w, x);
    forall n: nat | n < r.q ensures HasQ(r.page, n) && GetQ(r.page, n) == (qs + [x])[256 * r.number + n] {
      BelowPage(n, 1);
      BelowPage(v.q, 1);
      HasQBelow(v.page, PAGE_BYTES, n);
      HasQBelow(v.page, PAGE_BYTES, v.q);
      HasQBelow(r.page, PAGE_BYTES, n);
      SetQReads(v.page, v.q, x, n);
    }
  }

  /** Qs are read back as they were written, whatever the number of pages. */
  lemma {:induction false} WriteQsFill(w: Writer, before: seq<Word>, qs: seq<Word>)
    requires w.Valid() && Filling(w, before)
    ensures Filling(WriteQs(w, qs), before + qs) && Holds(FlushPage(WriteQs(w, qs)).file, before + qs)
    decreases |qs|
  {
    hide Filling, Holds;
    if qs == [] {
      assert before + qs == before;
      FlushHolds(w, before);
    } else {
      NextQFills(w, before, qs[0]);
      WriteQsFill(NextQ(w, qs[0]), before + [qs[0]], qs[1..]);
      assert before + [qs[0]] + qs[1..] == before + qs;
    }
  }

  /** A later write beyond the pages of the Qs leaves them alone. */
  lemma {:induction false} HoldsFrame(file: seq<Byte>, other: seq<Byte>, qs: seq<Word>, limit: nat)
    requires Holds(file, qs) && PAGE_BYTES * PagesFor(|qs|) <= limit <= |file| && limit <= |other|
    requires file[..limit] == other[..limit]
    ensures Holds(other, qs)
  {
    hide GetQ, HasQ;
    forall n: nat | n < |qs| ensures HasQ(other, n) && GetQ(other, n) == qs[n] {
      BelowPage(n, PagesFor(|qs|));
      HasQBelow(other, limit, n);
      SameQ(file, other, limit, n);
    }
  }
}
