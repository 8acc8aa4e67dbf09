/** The garbage collector's page scans: the page attributes as a remembered set, and flipping. */
module Scavenger {
  import opened Wrappers
  import opened TaggedMemory

  // ---------- The invariants of the protocol ----------

  /** What the attributes of page `p` promise: no ephemeral pointer behind a clear ephemeral bit, no oldspace pointer
      behind a clear transport fault bit, and no bits at all for a page that does not exist. */
  ghost predicate PageSound(h: Heap, a: Attributes, p: nat)
    requires h.Valid() && p < PAGES
  {
    && (a.exists_ && !a.ephemeral ==> !h.AnyEphemeral(p * 8192, (p + 1) * 8192))
    && (a.exists_ && !a.transportFault ==> h.LeastOld(p * 8192, (p + 1) * 8192).None?)
    && (!a.exists_ ==> a == ABSENT)
  }

  ghost predicate Sound(h: Heap, attrs: seq<Attributes>) {
    h.Valid() && |attrs| == PAGES && forall p :: 0 <= p < PAGES ==> PageSound(h, attrs[p], p)
  }

  // ---------- One scan, page by page ----------

  /** The pages a scan looks into: all existing ones for the slow scan, otherwise those that a flip left faulting. */
  predicate Examined(zoneOldspace: Datum, a: Attributes, slowp: bool) {
    if slowp then a.exists_
    else if zoneOldspace == 0 then a.ephemeral && a.transportFault
    else a.exists_ && a.transportFault
  }

  /** Faults are disabled on every page a scan reaches. */
  function Disabled(a: Attributes): Attributes {
    if a.transportFault && !a.transportDisable then a.(transportDisable := true) else a
  }

  function Finished(a: Attributes): Attributes { a.(transportFault := false, transportDisable := false) }

  /** `a` rounded up to a multiple of 8. */
  function Chunked(a: nat): nat { if a % 8 == 0 then a else a - a % 8 + 8 }

  /** What the fast scan finds in [vma, vma + whack), part of page `p`. It computes the end of its range in 32 bits: one
      at the end of memory wraps to nothing, and one inside the last eight addresses is never met, unless the scan
      returns before it gets there. */
  function FastFound(h: Heap, p: nat, vma: nat, whack: nat): SearchOutcome
    requires h.Valid() && vma + whack <= MEMORY
  {
    var end := vma + whack;
    if end <= LAST_CHUNK then ToOutcome(h.LeastOld(vma, end))
    else if end < MEMORY then
      var found := h.LeastOld(vma, LAST_CHUNK);
      if found.Some? then At(found.value) else Astray
    else if LAST_CHUNK < vma && !h.AnyEphemeral(p * 8192, LAST_CHUNK) then Astray
    else Absent
  }

  /** What one step finds in [vma, vma + whack), part of page `p` with attributes `a`. */
  function FoundOnPage(h: Heap, a: Attributes, p: nat, vma: nat, whack: nat, slowp: bool): SearchOutcome
    requires h.Valid() && vma + whack <= MEMORY
  {
    if !Examined(h.zoneOldspace, Disabled(a), slowp) then Absent
    else if slowp then ToOutcome(h.LeastOld(vma, vma + whack))
    else FastFound(h, p, vma, whack)
  }

  /** Whether a finished fast scan of [vma, vma + whack) has seen an ephemeral pointer on page `p`. */
  predicate Seen(h: Heap, p: nat, vma: nat, whack: nat)
    requires h.Valid() && vma + whack <= MEMORY
  {
    h.AnyEphemeral(p * 8192, Chunked(if vma + whack == MEMORY then vma else vma + whack))
  }

  /** The attributes one step leaves on page `p`, given the page's attributes `before`. */
  function PageAfter(h: Heap, before: Attributes, p: nat, vma: nat, whack: nat, slowp: bool): Attributes
    requires h.Valid() && vma + whack <= MEMORY
  {
    var a := Disabled(before);
    if slowp || FoundOnPage(h, before, p, vma, whack, slowp) != Absent then a
    else if Examined(h.zoneOldspace, a, slowp) then Finished(a).(ephemeral := Seen(h, p, vma, whack))
    else Finished(a)
  }

  /** The attributes that going over page `p` once more leaves. On the last page it looks at nothing. */
  function Rescanned(h: Heap, before: Attributes, p: nat): Attributes
    requires h.Valid() && p < PAGES
  {
    var a := Disabled(before);
    if Examined(h.zoneOldspace, a, false) then
      Finished(a).(ephemeral := p < LAST_PAGE && h.AnyEphemeral(p * 8192, Chunked((p + 1) * 8192)))
    else Finished(a)
  }

  /** A page's attributes after a flip: an ephemeral flip fences normal pages that may hold ephemeral pointers, a
      dynamic flip fences every page; `faultp` is false for the pages that the collector scans atomically. */
  function Enabled(zoneOldspace: Datum, a: Attributes, faultp: bool): Attributes {
    if !a.exists_ then a
    else if zoneOldspace == 0 then
      if !faultp then a.(transportFault := true, transportDisable := true)
      else if a.ephemeral then a.(transportFault := true, transportDisable := false)
      else a.(transportFault := false, transportDisable := false)
    else a.(transportFault := true, transportDisable := !faultp)
  }

  /** The pages of [vma, vma + count), the last of them whole. */
  predicate InRange(vma: nat, count: nat, p: nat) { vma / 8192 <= p < (vma + count + 8191) / 8192 }

  /** The attributes after enabling [vma, vma + count). The end of the range is computed in 32 bits. */
  function EnableRange(zoneOldspace: Datum, attrs: seq<Attributes>, vma: nat, count: nat,
                       faultp: bool): (r: seq<Attributes>)
    requires |attrs| == PAGES && vma + count <= MEMORY
    ensures |r| == PAGES
  {
    seq(PAGES, p requires 0 <= p < PAGES =>
      if vma / 8192 <= p < (vma + count + 8191) % 0x1_0000_0000 / 8192 then Enabled(zoneOldspace, attrs[p], faultp)
      else attrs[p])
  }

  /** Enabling sets up exactly the pages of its range if and only if the range ends at or before the last page, or none
      of its pages had to be changed: a range that reaches into the last page is passed over altogether. */
  lemma {:induction false} EnableExactly(zoneOldspace: Datum, attrs: seq<Attributes>, vma: nat, count: nat,
                                         faultp: bool)
    requires |attrs| == PAGES && vma + count <= MEMORY
    ensures
      (forall p: nat | p < PAGES :: EnableRange(zoneOldspace, attrs, vma, count, faultp)[p] ==
         if InRange(vma, count, p) then Enabled(zoneOldspace, attrs[p], faultp) else attrs[p])
      <==>
      vma + count <= LAST_PAGE * 8192 ||
      forall p: nat | p < PAGES && InRange(vma, count, p) :: Enabled(zoneOldspace, attrs[p], faultp) == attrs[p]
  {
    hide Enabled;
    if vma + count > LAST_PAGE * 8192 {
      assert (vma + count + 8191) % 0x1_0000_0000 / 8192 == 0;
      forall p: nat | p < PAGES ensures EnableRange(zoneOldspace, attrs, vma, count, faultp)[p] == attrs[p] {
      }
    } else {
      assert (vma + count + 8191) % 0x1_0000_0000 == vma + count + 8191;
    }
  }

  function Min(x: nat, y: nat): nat { if x < y then x else y }

  function Max(x: nat, y: nat): nat { if x < y then y else x }

  /** What a scan of `count` words from `vma` on page `p` reports, and the attributes it leaves. The first step covers
      `whack` words, every further one a page or what remains. */
  function Scan(h: Heap, attrs: seq<Attributes>, p: nat, vma: nat, count: nat, whack: nat,
                slowp: bool): (SearchOutcome, seq<Attributes>)
    requires h.Valid() && |attrs| == PAGES && vma + count <= MEMORY && p * 8192 <= vma
    requires count > 0 ==> 0 < whack <= count && (whack < count ==> vma + whack == (p + 1) * 8192)
    decreases count
  {
    if count == 0 then (Absent, attrs)
    else
      var attrs' := attrs[p := PageAfter(h, attrs[p], p, vma, whack, slowp)];
      var found := FoundOnPage(h, attrs[p], p, vma, whack, slowp);
      if found != Absent || whack == count then (found, attrs')
      else Scan(h, attrs', p + 1, vma + whack, count - whack, Min(PAGE, count - whack), slowp)
  }

  /** The lowest address in [lo, hi) holding an oldspace pointer on a page that exists: the scan's specification. */
  function LeastReference(h: Heap, attrs: seq<Attributes>, lo: nat, hi: nat): Option<nat>
    requires h.Valid() && |attrs| == PAGES && hi <= MEMORY
    decreases hi - lo
  {
    if lo >= hi then None
    else if attrs[lo / 8192].exists_ && h.OldAt(lo) then Some(lo)
    else LeastReference(h, attrs, lo + 1, hi)
  }

  lemma {:induction false} LeastReferenceOnPage(h: Heap, attrs: seq<Attributes>, p: nat, lo: nat, hi: nat)
    requires h.Valid() && |attrs| == PAGES && p < PAGES && p * 8192 <= lo <= hi <= (p + 1) * 8192
    ensures LeastReference(h, attrs, lo, hi) == if attrs[p].exists_ then h.LeastOld(lo, hi) else None
    decreases hi - lo
  {
    if lo < hi {
      assert lo / 8192 == p;
      LeastReferenceOnPage(h, attrs, p, lo + 1, hi);
    }
  }

  lemma {:induction false} LeastReferenceJoin(h: Heap, attrs: seq<Attributes>, lo: nat, mid: nat, hi: nat)
    requires h.Valid() && |attrs| == PAGES && lo <= mid <= hi <= MEMORY
    ensures LeastReference(h, attrs, lo, hi) ==
      var r := LeastReference(h, attrs, lo, mid);
      if r.Some? then r else LeastReference(h, attrs, mid, hi)
    decreases mid - lo
  {
    if lo < mid {
      LeastReferenceJoin(h, attrs, lo + 1, mid, hi);
    }
  }

  /** References depend on which pages exist, not on the other attributes. */
  lemma {:induction false} LeastReferenceFrame(h: Heap, attrs: seq<Attributes>, attrs': seq<Attributes>, lo: nat,
                                               hi: nat)
    requires h.Valid() && |attrs| == |attrs'| == PAGES && hi <= MEMORY
    requires forall p :: 0 <= p < PAGES ==> attrs[p].exists_ == attrs'[p].exists_
    ensures LeastReference(h, attrs, lo, hi) == LeastReference(h, attrs', lo, hi)
    decreases hi - lo
  {
    if lo < hi {
      LeastReferenceFrame(h, attrs, attrs', lo + 1, hi);
    }
  }

  predicate OnlyScanBits(a: Attributes, b: Attributes) {
    a.exists_ == b.exists_ && a.modified == b.modified && a.accessFault == b.accessFault && a.writeFault == b.writeFault
  }

  /** Every page keeps all attributes except the transport and ephemeral bits. */
  ghost predicate SamePages(attrs: seq<Attributes>, attrs': seq<Attributes>) {
    |attrs| == |attrs'| && forall p :: 0 <= p < |attrs| ==> OnlyScanBits(attrs[p], attrs'[p])
  }

  /** A page the scan may skip holds no oldspace pointer. */
  lemma {:induction false} SkippedPageIsClean(h: Heap, a: Attributes, p: nat)
    requires h.Valid() && p < PAGES && PageSound(h, a, p) && a.exists_ && !Examined(h.zoneOldspace, Disabled(a), false)
    ensures h.LeastOld(p * 8192, (p + 1) * 8192).None?
  {
    if h.zoneOldspace == 0 && !a.ephemeral {
      OldIsEphemeral(h, p * 8192, (p + 1) * 8192);
    }
  }

  /** One step of the scan, to the end of a page before the last: it reports the first oldspace pointer from `vma` on,
      and the page's new attributes keep their promises. */
  lemma {:induction false} StepIsSound(h: Heap, a: Attributes, p: nat, vma: nat, slowp: bool)
    requires h.Valid() && p < LAST_PAGE && PageSound(h, a, p) && p * 8192 <= vma < (p + 1) * 8192
    requires a.exists_ ==> h.LeastOld(p * 8192, vma).None?
    ensures var whack := (p + 1) * 8192 - vma;
      && FoundOnPage(h, a, p, vma, whack, slowp) ==
         ToOutcome(if a.exists_ then h.LeastOld(vma, (p + 1) * 8192) else None)
      && PageSound(h, PageAfter(h, a, p, vma, whack, slowp), p)
  {
    h.LeastOldJoin(p * 8192, vma, (p + 1) * 8192);
    if a.exists_ && !slowp && !Examined(h.zoneOldspace, Disabled(a), slowp) {
      SkippedPageIsClean(h, a, p);
    }
    PageAfterClears(h, a, p, vma, (p + 1) * 8192 - vma, slowp);
    ChunkedPage(p + 1);
  }

  lemma ChunkedPage(p: nat)
    ensures Chunked(p * 8192) == p * 8192
  {
    assert p * 8192 == 8 * (p * 1024);
  }

  /** Attribute by attribute: what a step may clear, and when. */
  lemma {:induction false} PageAfterClears(h: Heap, before: Attributes, p: nat, vma: nat, whack: nat, slowp: bool)
    requires h.Valid() && vma + whack <= MEMORY
    ensures var after := PageAfter(h, before, p, vma, whack, slowp);
      && OnlyScanBits(before, after) && (before == ABSENT ==> after == ABSENT)
      && (before.transportFault && !after.transportFault ==>
            !slowp && FoundOnPage(h, before, p, vma, whack, slowp) == Absent)
      && (before.ephemeral && !after.ephemeral ==> !Seen(h, p, vma, whack))
  {
  }

  /** What a fast scan to the end of memory needs of the last page, from `vma` on: if it looks into the page at all, no
      oldspace pointer, no ephemeral pointer unless one lies before, and not to start in the last eight addresses before
      an ephemeral pointer is known. */
  predicate LastPageSafe(h: Heap, a: Attributes, vma: nat)
    requires h.Valid() && vma < MEMORY
  {
    Examined(h.zoneOldspace, Disabled(a), false) ==>
      h.LeastOld(vma, MEMORY).None? &&
      if vma <= LAST_CHUNK then
        h.AnyEphemeral(LAST_PAGE * 8192, Chunked(vma)) || !h.AnyEphemeral(Chunked(vma), MEMORY)
      else h.AnyEphemeral(LAST_PAGE * 8192, LAST_CHUNK)
  }

  /** The step that ends with the last page reports its first oldspace pointer and keeps the page's promises if and only
      if it is a slow one, or the page is safe: a fast one looks at nothing. */
  lemma {:induction false} LastStepExactly(h: Heap, a: Attributes, vma: nat, slowp: bool)
    requires h.Valid() && PageSound(h, a, LAST_PAGE) && LAST_PAGE * 8192 <= vma < MEMORY
    requires a.exists_ ==> h.LeastOld(LAST_PAGE * 8192, vma).None?
    ensures var whack := MEMORY - vma;
      FoundOnPage(h, a, LAST_PAGE, vma, whack, slowp) == ToOutcome(if a.exists_ then h.LeastOld(vma, MEMORY) else None)
      && PageSound(h, PageAfter(h, a, LAST_PAGE, vma, whack, slowp), LAST_PAGE)
      <==> slowp || LastPageSafe(h, a, vma)
  {
    var base := LAST_PAGE * 8192;
    h.LeastOldJoin(base, vma, MEMORY);
    PageAfterClears(h, a, LAST_PAGE, vma, MEMORY - vma, slowp);
    if !slowp {
      if !Examined(h.zoneOldspace, Disabled(a), false) {
        if a.exists_ { SkippedPageIsClean(h, a, LAST_PAGE); }
      } else {
        LastPageEphemeral(h, vma);
      }
    }
  }

  lemma {:induction false} LastPageEphemeral(h: Heap, vma: nat)
    requires h.Valid() && LAST_PAGE * 8192 <= vma < MEMORY
    ensures vma <= LAST_CHUNK ==> Chunked(vma) <= LAST_CHUNK
    ensures vma > LAST_CHUNK ==> Chunked(vma) == MEMORY
    ensures var base := LAST_PAGE * 8192;
      h.AnyEphemeral(base, MEMORY) <==> h.AnyEphemeral(base, Chunked(vma)) || h.AnyEphemeral(Chunked(vma), MEMORY)
    ensures h.AnyEphemeral(LAST_PAGE * 8192, LAST_CHUNK) ==> h.AnyEphemeral(LAST_PAGE * 8192, MEMORY)
  {
    h.AnyEphemeralJoin(LAST_PAGE * 8192, Chunked(vma), MEMORY);
    h.AnyEphemeralJoin(LAST_PAGE * 8192, LAST_CHUNK, MEMORY);
  }

  /** The scan of the pages from `p` on, up to `end`, found what is there and left sound attributes. */
  ghost predicate ScansRight(h: Heap, attrs: seq<Attributes>, vma: nat, end: nat,
                             scan: (SearchOutcome, seq<Attributes>))
    requires h.Valid() && |attrs| == PAGES && end <= MEMORY
  {
    scan.0 == ToOutcome(LeastReference(h, attrs, vma, end)) && Sound(h, scan.1)
  }

  /** A scan whose range ends on a page boundary returns the lowest oldspace reference in the range, or nothing when
      none is there, although it skips pages, and keeps the protocol's invariants, if and only if it is a slow one, or
      ends before the last page, or finds a reference before it, or the last page is safe. A scan that starts inside a
      page relies on the part before it having been scanned already. */
  lemma {:induction false} ScanIsSoundExactly(h: Heap, attrs: seq<Attributes>, p: nat, vma: nat, pages: nat,
                                              slowp: bool)
    requires Sound(h, attrs) && 0 < pages && p + pages <= PAGES && p * 8192 <= vma < (p + 1) * 8192
    requires attrs[p].exists_ ==> h.LeastOld(p * 8192, vma).None?
    ensures var end := (p + pages) * 8192;
      var scan := Scan(h, attrs, p, vma, end - vma, (p + 1) * 8192 - vma, slowp);
      && SamePages(attrs, scan.1)
      && (ScansRight(h, attrs, vma, end, scan) <==> ScanSafe(h, attrs, p, vma, pages, slowp))
    decreases pages, 1
  {
    hide LastPageSafe, PageSound, Seen, OnlyScanBits, Examined, Disabled;
    var next, end := (p + 1) * 8192, (p + pages) * 8192;
    var whack := next - vma;
    LeastReferenceOnPage(h, attrs, p, vma, next);
    LeastReferenceJoin(h, attrs, vma, next, end);
    var attrs' := attrs[p := PageAfter(h, attrs[p], p, vma, whack, slowp)];
    PageAfterClears(h, attrs[p], p, vma, whack, slowp);
    UpdateSound(h, attrs, p, attrs'[p]);
    if p == LAST_PAGE {
      LastStepExactly(h, attrs[p], vma, slowp);
    } else {
      StepIsSound(h, attrs[p], p, vma, slowp);
      LeastReferenceJoin(h, attrs, vma, next, LAST_PAGE * 8192);
      if FoundOnPage(h, attrs[p], p, vma, whack, slowp) == Absent && pages > 1 {
        NextPages(h, attrs, p, vma, pages, slowp, attrs');
      }
    }
  }

  /** The rest of a scan after a page on which it found nothing. */
  lemma {:induction false} NextPages(h: Heap, attrs: seq<Attributes>, p: nat, vma: nat, pages: nat, slowp: bool,
                                     attrs': seq<Attributes>)
    requires Sound(h, attrs) && 1 < pages && p + pages <= PAGES && p * 8192 <= vma < (p + 1) * 8192
    requires Sound(h, attrs') && SamePages(attrs, attrs') && (p < LAST_PAGE ==> attrs'[LAST_PAGE] == attrs[LAST_PAGE])
    requires LeastReference(h, attrs, vma, (p + 1) * 8192).None?
    ensures var next, end := (p + 1) * 8192, (p + pages) * 8192;
      var scan := Scan(h, attrs', p + 1, next, end - next, 8192, slowp);
      && SamePages(attrs, scan.1)
      && (ScansRight(h, attrs, vma, end, scan) <==> ScanSafe(h, attrs, p, vma, pages, slowp))
    decreases pages, 0
  {
    hide Scan, LeastReference, LastPageSafe, Sound;
    var next, end := (p + 1) * 8192, (p + pages) * 8192;
    assert |attrs| == |attrs'| == PAGES && h.Valid() by { SoundSize(h, attrs); }
    ScanIsSoundExactly(h, attrs', p + 1, next, pages - 1, slowp);
    LeastReferenceJoin(h, attrs, vma, next, end);
    LeastReferenceJoin(h, attrs, vma, next, LAST_PAGE * 8192);
    LeastReferenceFrame(h, attrs, attrs', next, end);
    LeastReferenceFrame(h, attrs, attrs', next, LAST_PAGE * 8192);
    SamePagesChain(attrs, attrs', Scan(h, attrs', p + 1, next, end - next, 8192, slowp).1);
  }

  lemma SoundSize(h: Heap, attrs: seq<Attributes>)
    requires Sound(h, attrs)
    ensures h.Valid() && |attrs| == PAGES
  {
  }

  /** When a scan is right. */
  predicate ScanSafe(h: Heap, attrs: seq<Attributes>, p: nat, vma: nat, pages: nat, slowp: bool)
    requires h.Valid() && |attrs| == PAGES && vma < MEMORY
  {
    || slowp || p + pages < PAGES || LeastReference(h, attrs, vma, LAST_PAGE * 8192).Some?
    || LastPageSafe(h, attrs[LAST_PAGE], Max(vma, LAST_PAGE * 8192))
  }

  lemma {:induction false} UpdateSound(h: Heap, attrs: seq<Attributes>, p: nat, a': Attributes)
    requires Sound(h, attrs) && p < PAGES && OnlyScanBits(attrs[p], a')
    ensures Sound(h, attrs[p := a']) <==> PageSound(h, a', p)
    ensures SamePages(attrs, attrs[p := a'])
  {
    if Sound(h, attrs[p := a']) { assert PageSound(h, attrs[p := a'][p], p); }
  }

  lemma SamePagesChain(a: seq<Attributes>, b: seq<Attributes>, c: seq<Attributes>)
    requires SamePages(a, b) && SamePages(b, c)
    ensures SamePages(a, c)
  {
  }

  /** A step that stops inside a page, at `end`, may clear the page's bits too early. It keeps the page's promises if
      and only if no oldspace pointer lies behind `end`, and no ephemeral pointer does unless one lies before. */
  lemma {:induction false} PartialStepExactly(h: Heap, a: Attributes, p: nat, vma: nat, end: nat)
    requires h.Valid() && p < PAGES && a.exists_ && Examined(h.zoneOldspace, Disabled(a), false)
    requires p * 8192 <= vma < end <= (p + 1) * 8192 && end <= LAST_CHUNK
    requires h.LeastOld(p * 8192, end).None?
    ensures PageSound(h, PageAfter(h, a, p, vma, end - vma, false), p) <==>
      h.LeastOld(end, (p + 1) * 8192).None? &&
      (h.AnyEphemeral(p * 8192, Chunked(end)) || !h.AnyEphemeral(Chunked(end), (p + 1) * 8192))
  {
    h.LeastOldJoin(p * 8192, vma, end);
    h.LeastOldJoin(p * 8192, end, (p + 1) * 8192);
    ChunkedWithin(p, end);
    h.AnyEphemeralJoin(p * 8192, Chunked(end), (p + 1) * 8192);
  }

  /** A step that stops inside a page, anywhere before the end of memory, reports the first oldspace pointer from `vma`
      on, or none, if and only if it is a slow one, stops before the last eight addresses, passes the page over, or has
      something to report before them: otherwise a fast one walks past its end. */
  lemma {:induction false} PartialFindsExactly(h: Heap, a: Attributes, p: nat, vma: nat, end: nat, slowp: bool)
    requires h.Valid() && p < PAGES && PageSound(h, a, p)
    requires p * 8192 <= vma < end <= (p + 1) * 8192 && end < MEMORY
    ensures FoundOnPage(h, a, p, vma, end - vma, slowp) == ToOutcome(if a.exists_ then h.LeastOld(vma, end) else None)
      <==>
      slowp || end <= LAST_CHUNK || !Examined(h.zoneOldspace, Disabled(a), false) || h.LeastOld(vma, LAST_CHUNK).Some?
  {
    if a.exists_ && !Examined(h.zoneOldspace, Disabled(a), false) {
      SkippedPageIsClean(h, a, p);
      h.LeastOldJoin(p * 8192, vma, (p + 1) * 8192);
      h.LeastOldJoin(vma, end, (p + 1) * 8192);
    }
    if vma <= LAST_CHUNK < end {
      h.LeastOldJoin(vma, LAST_CHUNK, end);
    }
  }

  lemma ChunkedWithin(p: nat, end: nat)
    requires end <= p * 8192 + 8192
    ensures end <= Chunked(end) <= (p + 1) * 8192
  {
    assert p * 8192 + 8192 == 8 * (p * 1024 + 1024);
  }

  /** Going over a page once more keeps its promises if and only if it passes the page over, or no oldspace pointer is
      there, and on the last page no ephemeral pointer either. */
  lemma {:induction false} RescanExactly(h: Heap, a: Attributes, p: nat)
    requires h.Valid() && p < PAGES && PageSound(h, a, p)
    ensures PageSound(h, Rescanned(h, a, p), p) <==> RescanSafe(h, a, p)
  {
    if a.exists_ && !Examined(h.zoneOldspace, Disabled(a), false) { SkippedPageIsClean(h, a, p); }
    ChunkedPage(p + 1);
  }

  predicate RescanSafe(h: Heap, a: Attributes, p: nat)
    requires h.Valid() && p < PAGES
  {
    Examined(h.zoneOldspace, Disabled(a), false) ==>
      h.LeastOld(p * 8192, (p + 1) * 8192).None? &&
      (p == LAST_PAGE ==> !h.AnyEphemeral(p * 8192, (p + 1) * 8192))
  }
}
