/** Saving a world's memory in a VLM world file: the load map, its header, and the data and tags pages. */
module WorldFile {
  import opened Wrappers
  import opened TaggedMemory
  import opened Ivory
  import opened LoadMaps
  import opened WorldBytes

  const VLM_PAGE: PageSize := 8192
  const MAXIMUM_HEADER_BLOCKS := 14
  const FIRST_MAP_Q := 8

  /** Pages, or tag blocks, that `count` words take. */
  function Pages(count: nat): nat { (count + 8191) / 8192 }

  // ---------- The load map ----------

  /** A request to save parts of memory, of any extents. */
  ghost predicate Requestable(memory: seq<Word>, request: seq<Entry>) {
    && |memory| == MEMORY
    && forall i | 0 <= i < |request| ::
      var e := request[i];
      e.opcode == DataPages && e.address < MEMORY && End(e) <= MEMORY && e.world == 0
  }

  /** The load map that the request is entered in: the count of an entry keeps 24 bits of the extent. */
  function Truncated(request: seq<Entry>): (es: seq<Entry>)
    ensures |es| == |request|
  {
    seq(|request|, i requires 0 <= i < |request| => request[i].(count := request[i].count % 0x100_0000))
  }

  lemma TruncatedIsSavable(memory: seq<Word>, request: seq<Entry>)
    requires Requestable(memory, request)
    ensures Savable(memory, Truncated(request))
  {
  }

  lemma {:induction false} TruncatedCovers(request: seq<Entry>, a: nat)
    ensures Covered(Truncated(request), a) ==> Covered(request, a)
  {
    var es := Truncated(request);
    if Covered(es, a) {
      var i :| 0 <= i < |es| && Covers(es[i], a);
      assert Covers(request[i], a);
    }
  }

  /** The entries of a request do not overlap. */
  ghost predicate Apart(request: seq<Entry>) {
    forall i, j | 0 <= i < |request| && 0 <= j < |request| && i != j ::
      End(request[i]) <= request[j].address || End(request[j]) <= request[i].address
  }

  /** A request whose entries do not overlap is entered without losing an address if and only if every extent fits in 24
      bits. */
  lemma {:induction false} NothingLostExactly(request: seq<Entry>)
    requires Apart(request)
    ensures (forall a: nat :: Covered(request, a) ==> Covered(Truncated(request), a)) <==>
      forall i :: 0 <= i < |request| ==> request[i].count < 0x100_0000
  {
    var es := Truncated(request);
    if forall i :: 0 <= i < |request| ==> request[i].count < 0x100_0000 {
      assert es == request;
    } else {
      var i :| 0 <= i < |request| && request[i].count >= 0x100_0000;
      var last: nat := End(request[i]) - 1;
      assert Covers(request[i], last);
      assert Covered(request, last);
      forall j | 0 <= j < |es| ensures !Covers(es[j], last) {
        assert End(es[j]) <= End(request[j]);
      }
    }
  }

  /** What can be saved: entries for parts of memory, of sizes that their 24-bit field holds. */
  ghost predicate Savable(memory: seq<Word>, es: seq<Entry>) {
    && |memory| == MEMORY
    && forall i | 0 <= i < |es| ::
      es[i].opcode == DataPages && es[i].address < MEMORY && End(es[i]) <= MEMORY &&
      es[i].count < 0x100_0000 && es[i].world == 0
  }

  /** `n` words from `a` on as one-word constants. */
  function Constants(memory: seq<Word>, a: nat, n: nat): (r: seq<Entry>)
    requires a + n <= |memory|
    ensures |r| == n
  {
    seq(n, j requires 0 <= j < n => Entry(a + j, Constant, 1, memory[a + j].tag, memory[a + j].datum, 0))
  }

  /** The load map that is written: an entry that starts a page is given file pages, from `page` on; the words of any
      other entry become constants. */
  function Canonical(memory: seq<Word>, es: seq<Entry>, page: nat): seq<Entry>
    requires Savable(memory, es)
  {
    if es == [] then []
    else
      var e := es[0];
      if e.address % 8192 == 0 then
        [e.(tag := TYPE_FIXNUM, datum := page)] + Canonical(memory, es[1..], page + Pages(e.count))
      else Constants(memory, e.address, e.count) + Canonical(memory, es[1..], page)
  }

  /** The file pages that the entries are given. */
  function PagesGiven(es: seq<Entry>): nat {
    if es == [] then 0 else (if es[0].address % 8192 == 0 then Pages(es[0].count) else 0) + PagesGiven(es[1..])
  }

  // ---------- Places in the file ----------

  /** Block numbers of the first tags and data pages. */
  datatype Bases = Bases(tags: nat, data: nat)

  function TagPlace(b: Bases, page: nat): nat { 8192 * (b.tags + page) }

  function DataPlace(b: Bases, page: nat): nat { 8192 * (b.data + 4 * page) }

  /** Blocks taken by a header with `n` load map entries. */
  function HeaderBlocks(n: nat): nat { (PAGE_BYTES * PagesFor(FIRST_MAP_Q + 3 * n) + 8191) / 8192 }

  /** A one-word constant that says what memory holds. */
  predicate Agrees(memory: seq<Word>, e: Entry) {
    && e.opcode == Constant && e.count == 1 && e.address < |memory| && e.world == 0
    && e.tag == memory[e.address].tag && e.datum == memory[e.address].datum
  }

  /** Data page entries follow each other in the file pages [from, to), and constants say what memory holds. */
  ghost predicate Placed(memory: seq<Word>, es: seq<Entry>, from: nat, to: nat) {
    if es == [] then from <= to
    else
      var e := es[0];
      if e.opcode == DataPages then
        && e.address < |memory| && End(e) <= |memory| && e.count < 0x100_0000 && e.world == 0 && e.tag == TYPE_FIXNUM
        && from <= e.datum < 0x1_0000_0000 && Placed(memory, es[1..], e.datum + Pages(e.count), to)
      else Agrees(memory, e) && Placed(memory, es[1..], from, to)
  }

  lemma {:induction false} PlacedMore(memory: seq<Word>, front: seq<Entry>, es: seq<Entry>, from: nat, to: nat)
    requires forall e :: e in front ==> Agrees(memory, e)
    requires Placed(memory, es, from, to)
    ensures Placed(memory, front + es, from, to)
  {
    if front == [] {
      assert front + es == es;
    } else {
      assert front[0] in front;
      PlacedMore(memory, front[1..], es, from, to);
      assert (front + es)[1..] == front[1..] + es;
    }
  }

  lemma ConstantsAgree(memory: seq<Word>, a: nat, n: nat)
    requires a + n <= |memory|
    ensures forall c :: c in Constants(memory, a, n) ==> Agrees(memory, c)
  {
  }

  lemma PlacedNone(memory: seq<Word>, page: nat)
    ensures Placed(memory, [], page, page)
  {
  }

  lemma PlacedFirst(memory: seq<Word>, e: Entry, rest: seq<Entry>, page: nat, to: nat)
    requires e.opcode == DataPages && e.address < |memory| && End(e) <= |memory| && e.count < 0x100_0000 && e.world == 0
    requires Placed(memory, rest, page + Pages(e.count), to) && page < 0x1_0000_0000
    ensures Placed(memory, [e.(tag := TYPE_FIXNUM, datum := page)] + rest, page, to)
  {
    assert ([e.(tag := TYPE_FIXNUM, datum := page)] + rest)[1..] == rest;
  }

  lemma {:induction false} CanonicalPlaced(memory: seq<Word>, es: seq<Entry>, page: nat)
    requires Savable(memory, es) && page + PagesGiven(es) < 0x1_0000_0000
    ensures Placed(memory, Canonical(memory, es, page), page, page + PagesGiven(es))
  {
    hide Constants, Agrees, Pages, Placed;
    if es != [] {
      var e, rest := es[0], es[1..];
      if e.address % 8192 == 0 {
        var next := page + Pages(e.count);
        CanonicalPlaced(memory, rest, next);
        PlacedFirst(memory, e, Canonical(memory, rest, next), page, next + PagesGiven(rest));
      } else {
        CanonicalPlaced(memory, rest, page);
        ConstantsAgree(memory, e.address, e.count);
        PlacedMore(memory, Constants(memory, e.address, e.count), Canonical(memory, rest, page), page,
          page + PagesGiven(rest));
      }
    } else {
      PlacedNone(memory, page);
    }
  }

  // ---------- The load map means what was to be saved ----------

  lemma {:induction false} ConstantsDenote(memory: seq<Word>, a: nat, n: nat, x: nat)
    requires a + n <= |memory|
    ensures Denote(VLM_PAGE, Constants(memory, a, n), x) ==
      if a <= x < a + n then Some(ConstantWord(memory[x].tag, memory[x].datum)) else None
    decreases n
  {
    var s := Constants(memory, a, n);
    if n > 0 {
      ConstantsDenote(memory, a + 1, n - 1, x);
      assert s[1..] == Constants(memory, a + 1, n - 1);
    }
  }

  /** The last entry covering `a` starts a page. */
  predicate OnPages(es: seq<Entry>, a: nat) {
    es != [] &&
    if Denote(VLM_PAGE, es[1..], a).Some? then OnPages(es[1..], a) else Covers(es[0], a) && es[0].address % 8192 == 0
  }

  /** The load map covers what the request covers: by file pages where the last entry covering an address starts a page,
      by constants that hold memory's words elsewhere. */
  lemma {:induction false} CanonicalDenotes(memory: seq<Word>, es: seq<Entry>, page: nat, a: nat)
    requires Savable(memory, es)
    ensures var d := Denote(VLM_PAGE, Canonical(memory, es, page), a);
      && (d.Some? <==> Denote(VLM_PAGE, es, a).Some?)
      && (d.Some? && d.value.ConstantWord? ==>
            a < |memory| && d.value.tag == memory[a].tag && d.value.datum == memory[a].datum)
      && (d.Some? ==> d.value.ConstantWord? || d.value.FileWord?)
      && (d.Some? && d.value.FileWord? <==> OnPages(es, a))
  {
    hide Constants;
    if es != [] {
      var e := es[0];
      if e.address % 8192 == 0 {
        CanonicalDenotes(memory, es[1..], page + Pages(e.count), a);
      } else {
        CanonicalDenotes(memory, es[1..], page, a);
        DenoteAppend(VLM_PAGE, Constants(memory, e.address, e.count), Canonical(memory, es[1..], page), a);
        ConstantsDenote(memory, e.address, e.count, a);
      }
    }
  }

  /** Some entry that starts a page covers `a`. */
  predicate OnSomePage(es: seq<Entry>, a: nat) {
    es != [] && ((Covers(es[0], a) && es[0].address % 8192 == 0) || OnSomePage(es[1..], a))
  }

  /** The data page entries of the canonical map are those that start a page. */
  lemma {:induction false} CanonicalPages(memory: seq<Word>, es: seq<Entry>, page: nat, a: nat)
    requires Savable(memory, es)
    ensures OnSomePage(es, a) <==>
      exists i :: 0 <= i < |Canonical(memory, es, page)| &&
        Canonical(memory, es, page)[i].opcode == DataPages && Covers(Canonical(memory, es, page)[i], a)
  {
    if es != [] {
      var e, rest := es[0], es[1..];
      var paged := e.address % 8192 == 0;
      var front := if paged then [e.(tag := TYPE_FIXNUM, datum := page)] else Constants(memory, e.address, e.count);
      var next := if paged then page + Pages(e.count) else page;
      CanonicalPages(memory, rest, next, a);
      var c := Canonical(memory, rest, next);
      assert Canonical(memory, es, page) == front + c;
      assert forall i :: 0 <= i < |c| ==> (front + c)[|front| + i] == c[i];
      if paged && Covers(e, a) { assert Covers((front + c)[0], a); }
    }
  }
}
