/** Whole runs of the flip-and-scan protocol: flips, stores through the write barrier, and scans in any order. */
module Collection {
  import opened Wrappers
  import opened TaggedMemory
  import opened Scavenger
  import opened PageFaults

  datatype Gc = Gc(heap: Heap, attrs: seq<Attributes>)

  /** One call that enables a range of pages after the oldspace registers have been set. */
  datatype EnableCall = EnableCall(vma: nat, count: nat, faultp: bool)

  datatype Event =
    | Flip(ephemeralOldspace: Datum, zoneOldspace: Datum, calls: seq<EnableCall>)
    | Store(address: nat, tag: Tag, datum: Datum)
    | ScanPages(page: nat, vma: nat, pages: nat, slowp: bool)
    | Rescan(page: nat)

  function Stored(h: Heap, a: nat, tag: Tag, datum: Datum): Heap
    requires h.Valid() && a < MEMORY
  {
    h.(tags := h.tags[a := tag], data := h.data[a := datum])
  }

  /** A page that may be written without a fault has both bits set already; every other store goes through the fault
      handler, which sets them. Either way the page ends up touched. */
  lemma WritablePagesAreTouched(a: Attributes)
    requires ComputeProtection(a) == ReadWrite
    ensures Touched(a) == a
  {
  }

  ghost predicate Shaped(s: Gc) { s.heap.Valid() && |s.attrs| == PAGES }

  /** What an event can be in a state. A scan that starts inside a page goes on from a part known to be clean. */
  ghost predicate Possible(s: Gc, e: Event)
    requires Shaped(s)
  {
    match e
    case Flip(_, _, calls) => forall c :: c in calls ==> c.vma + c.count <= MEMORY
    case Store(a, _, _) => a < MEMORY && s.attrs[a / 8192].exists_
    case ScanPages(p, vma, pages, _) =>
      0 < pages && p + pages <= PAGES && p * 8192 <= vma < (p + 1) * 8192 &&
      (s.attrs[p].exists_ ==> s.heap.LeastOld(p * 8192, vma).None?)
    case Rescan(p) => p < PAGES
  }

  /** The calls of a flip, one after the other. */
  function EnableAll(zoneOldspace: Datum, attrs: seq<Attributes>, calls: seq<EnableCall>): (r: seq<Attributes>)
    requires |attrs| == PAGES && forall c :: c in calls ==> c.vma + c.count <= MEMORY
    ensures |r| == PAGES
    decreases |calls|
  {
    if calls == [] then attrs
    else
      var c := calls[0];
      assert c in calls;
      EnableAll(zoneOldspace, EnableRange(zoneOldspace, attrs, c.vma, c.count, c.faultp), calls[1..])
  }

  ghost function After(s: Gc, e: Event): Gc
    requires Shaped(s) && Possible(s, e)
  {
    match e
    case Flip(ephemeral, zone, calls) => Gc(Flipped(s.heap, ephemeral, zone), EnableAll(zone, s.attrs, calls))
    case Store(a, tag, datum) => Gc(Stored(s.heap, a, tag, datum), s.attrs[a / 8192 := Touched(s.attrs[a / 8192])])
    case ScanPages(p, vma, pages, slowp) => s.(attrs := ScanOf(s, p, vma, pages, slowp).1)
    case Rescan(p) => s.(attrs := s.attrs[p := Rescanned(s.heap, s.attrs[p], p)])
  }

  function Flipped(h: Heap, ephemeral: Datum, zone: Datum): Heap {
    h.(ephemeralOldspace := ephemeral, zoneOldspace := zone)
  }

  /** A scan of `pages` pages from page `p` on, beginning at `vma`. */
  function ScanOf(s: Gc, p: nat, vma: nat, pages: nat, slowp: bool): (SearchOutcome, seq<Attributes>)
    requires s.heap.Valid() && |s.attrs| == PAGES && 0 < pages && p + pages <= PAGES && p * 8192 <= vma < (p + 1) * 8192
  {
    Scan(s.heap, s.attrs, p, vma, (p + pages) * 8192 - vma, (p + 1) * 8192 - vma, slowp)
  }

  /** A call reaches a page when the page is in its range, and the range does not reach into the last page. */
  predicate Reaches(c: EnableCall, p: nat) { c.vma + c.count <= LAST_PAGE * 8192 && InRange(c.vma, c.count, p) }

  ghost predicate Fenced(calls: seq<EnableCall>, p: nat) { exists c :: c in calls && Reaches(c, p) }

  /** What each actor owes the protocol. A flip reaches every page that the new registers make unsafe; the mutator
      stores no oldspace pointer on a page without a fault; a fast scan ends before the last page, or finds it safe; a
      page is gone over once more only when nothing is left on it. */
  ghost predicate Permitted(s: Gc, e: Event)
    requires Shaped(s) && Possible(s, e)
  {
    match e
    case Flip(ephemeral, zone, calls) =>
      var h := Flipped(s.heap, ephemeral, zone);
      forall p: nat | p < PAGES && !Fenced(calls, p) && s.attrs[p].exists_ && !s.attrs[p].transportFault ::
        h.LeastOld(p * 8192, (p + 1) * 8192).None?
    case Store(a, tag, datum) => !OldPointer(s.heap, tag, datum) || s.attrs[a / 8192].transportFault
    case ScanPages(p, vma, pages, slowp) => ScanSafe(s.heap, s.attrs, p, vma, pages, slowp)
    case Rescan(p) => RescanSafe(s.heap, s.attrs[p], p)
  }

  predicate OldPointer(h: Heap, tag: Tag, datum: Datum) {
    Bit(POINTER_TYPES, TagType(tag)) && OldspaceAddress(h.ephemeralOldspace, h.zoneOldspace, datum)
  }

  // ---------- Flipping ----------

  lemma {:induction false} EphemeralIgnoresRegisters(h: Heap, h': Heap, lo: nat, hi: nat)
    requires h.Valid() && h'.Valid() && h'.tags == h.tags && h'.data == h.data && hi <= MEMORY
    ensures h.AnyEphemeral(lo, hi) == h'.AnyEphemeral(lo, hi)
    decreases hi - lo
  {
    if lo < hi { EphemeralIgnoresRegisters(h, h', lo + 1, hi); }
  }

  /** A flip to any oldspace: enabling a page re-establishes what its fault bit promises, from nothing but what its
      ephemeral bit promised before. */
  lemma {:induction false} FlipFencesPage(h: Heap, h': Heap, a: Attributes, p: nat, faultp: bool)
    requires h.Valid() && h'.Valid() && h'.tags == h.tags && h'.data == h.data && p < PAGES
    requires (a.exists_ && !a.ephemeral ==> !h.AnyEphemeral(p * 8192, (p + 1) * 8192)) && (!a.exists_ ==> a == ABSENT)
    ensures PageSound(h', Enabled(h'.zoneOldspace, a, faultp), p)
  {
    EphemeralIgnoresRegisters(h, h', p * 8192, (p + 1) * 8192);
    if a.exists_ && !a.ephemeral && h'.zoneOldspace == 0 {
      OldIsEphemeral(h', p * 8192, (p + 1) * 8192);
    }
  }

  // ---------- Stores ----------

  lemma {:induction false} StoreElsewhere(h: Heap, a: nat, tag: Tag, datum: Datum, lo: nat, hi: nat)
    requires h.Valid() && a < MEMORY && hi <= MEMORY && !(lo <= a < hi)
    ensures Stored(h, a, tag, datum).LeastOld(lo, hi) == h.LeastOld(lo, hi)
    ensures Stored(h, a, tag, datum).AnyEphemeral(lo, hi) == h.AnyEphemeral(lo, hi)
    decreases hi - lo
  {
    if lo < hi { StoreElsewhere(h, a, tag, datum, lo + 1, hi); }
  }

  /** Storing anything but an oldspace pointer leaves a clean range clean. */
  lemma {:induction false} StoreKeepsClean(h: Heap, a: nat, tag: Tag, datum: Datum, lo: nat, hi: nat)
    requires h.Valid() && lo <= a < hi <= MEMORY && h.LeastOld(lo, hi).None?
    requires !OldPointer(h, tag, datum)
    ensures Stored(h, a, tag, datum).LeastOld(lo, hi).None?
  {
    var h' := Stored(h, a, tag, datum);
    h.LeastOldJoin(lo, a, hi);
    h.LeastOldJoin(a, a + 1, hi);
    StoreElsewhere(h, a, tag, datum, lo, a);
    StoreElsewhere(h, a, tag, datum, a + 1, hi);
    h'.LeastOldJoin(lo, a, hi);
    h'.LeastOldJoin(a, a + 1, hi);
    assert !h'.OldAt(a);
  }

  /** A store keeps a page's promises exactly when it stores no oldspace pointer there, or the page's fault bit is
      set. */
  lemma {:induction false} StoreExactly(h: Heap, a: nat, tag: Tag, datum: Datum, attr: Attributes, p: nat)
    requires h.Valid() && a < MEMORY && p < PAGES && PageSound(h, attr, p) && (a / 8192 == p ==> attr.exists_)
    ensures PageSound(Stored(h, a, tag, datum), if a / 8192 == p then Touched(attr) else attr, p) <==>
      (a / 8192 == p && OldPointer(h, tag, datum) ==> attr.transportFault)
  {
    var lo, hi := p * 8192, (p + 1) * 8192;
    if a / 8192 == p {
      if !attr.transportFault {
        var h' := Stored(h, a, tag, datum);
        if OldPointer(h, tag, datum) {
          h'.LeastOldIsLeast(lo, hi);
          assert h'.OldAt(a);
        } else {
          StoreKeepsClean(h, a, tag, datum, lo, hi);
        }
      }
    } else {
      StoreElsewhere(h, a, tag, datum, lo, hi);
    }
  }

  // ---------- Flips ----------

  lemma {:induction false} EnabledTwice(h: Heap, a: Attributes, p: nat, faultp: bool)
    requires h.Valid() && p < PAGES && PageSound(h, a, p)
    ensures PageSound(h, Enabled(h.zoneOldspace, a, faultp), p)
  {
    FlipFencesPage(h, h, a, p, faultp);
  }

  /** What the calls of a flip make of a page: fenced if one of them reaches it, and as before otherwise. */
  lemma {:induction false} CallsFence(h: Heap, h': Heap, attrs: seq<Attributes>, calls: seq<EnableCall>, p: nat)
    requires h.Valid() && h'.Valid() && h'.tags == h.tags && h'.data == h.data && p < PAGES && |attrs| == PAGES
    requires forall c :: c in calls ==> c.vma + c.count <= MEMORY
    requires PageSound(h, attrs[p], p) || PageSound(h', attrs[p], p)
    ensures var a := EnableAll(h'.zoneOldspace, attrs, calls)[p];
      if Fenced(calls, p) || PageSound(h', attrs[p], p) then PageSound(h', a, p) else a == attrs[p]
    decreases |calls|
  {
    hide PageSound, Enabled;
    if calls != [] {
      var c := calls[0];
      assert c in calls;
      var after := EnableRange(h'.zoneOldspace, attrs, c.vma, c.count, c.faultp);
      CallReaches(h'.zoneOldspace, attrs, c, p);
      assert Fenced(calls, p) <==> Reaches(c, p) || Fenced(calls[1..], p) by {
        assert forall x :: x in calls <==> x == c || x in calls[1..];
      }
      if Reaches(c, p) {
        if PageSound(h', attrs[p], p) {
          EnabledTwice(h', attrs[p], p, c.faultp);
        } else {
          PromiseOf(h, attrs[p], p);
          FlipFencesPage(h, h', attrs[p], p, c.faultp);
        }
      }
      CallsFence(h, h', after, calls[1..], p);
    }
  }

  lemma CallReaches(zoneOldspace: Datum, attrs: seq<Attributes>, c: EnableCall, p: nat)
    requires |attrs| == PAGES && c.vma + c.count <= MEMORY && p < PAGES
    ensures EnableRange(zoneOldspace, attrs, c.vma, c.count, c.faultp)[p] ==
      if Reaches(c, p) then Enabled(zoneOldspace, attrs[p], c.faultp) else attrs[p]
  {
    hide Enabled;
    if c.vma + c.count > LAST_PAGE * 8192 { assert (c.vma + c.count + 8191) % 0x1_0000_0000 / 8192 == 0; }
  }

  lemma PromiseOf(h: Heap, a: Attributes, p: nat)
    requires h.Valid() && p < PAGES && PageSound(h, a, p)
    ensures (a.exists_ && !a.ephemeral ==> !h.AnyEphemeral(p * 8192, (p + 1) * 8192)) && (!a.exists_ ==> a == ABSENT)
  {
  }

  /** A page that no call reaches keeps its promises under new registers exactly when its fault bit is set, or no
      oldspace pointer is on it. */
  lemma {:induction false} UnreachedExactly(h: Heap, h': Heap, a: Attributes, p: nat)
    requires h.Valid() && h'.Valid() && h'.tags == h.tags && h'.data == h.data && p < PAGES && PageSound(h, a, p)
    ensures PageSound(h', a, p) <==> (a.exists_ && !a.transportFault ==> h'.LeastOld(p * 8192, (p + 1) * 8192).None?)
  {
    EphemeralIgnoresRegisters(h, h', p * 8192, (p + 1) * 8192);
  }

  /** A flip changes no word, but which pointers are old; it keeps every promise exactly when it is permitted. */
  lemma {:induction false} FlipExactly(s: Gc, ephemeral: Datum, zone: Datum, calls: seq<EnableCall>)
    requires SoundGc(s) && Possible(s, Flip(ephemeral, zone, calls))
    ensures SoundGc(After(s, Flip(ephemeral, zone, calls))) <==> Permitted(s, Flip(ephemeral, zone, calls))
    ensures var h' := After(s, Flip(ephemeral, zone, calls)).heap;
      && h'.tags == s.heap.tags && h'.data == s.heap.data
      && forall a: nat | a < MEMORY ::
        h'.OldAt(a) <==> s.heap.PointerAt(a) && OldspaceAddress(ephemeral, zone, s.heap.data[a])
  {
    hide PageSound, EnableAll, Fenced;
    var h', after := Flipped(s.heap, ephemeral, zone), EnableAll(zone, s.attrs, calls);
    forall p: nat | p < PAGES
      ensures PageSound(h', after[p], p) <==>
        Fenced(calls, p) || (s.attrs[p].exists_ && !s.attrs[p].transportFault ==>
                               h'.LeastOld(p * 8192, (p + 1) * 8192).None?)
    {
      CallsFence(s.heap, h', s.attrs, calls, p);
      UnreachedExactly(s.heap, h', s.attrs[p], p);
    }
  }

  // ---------- Runs ----------

  ghost predicate SoundGc(s: Gc) { Sound(s.heap, s.attrs) }

  /** The event leaves the protocol's invariants, and a scan also reports the least reference of its range. */
  ghost predicate GoesRight(s: Gc, e: Event)
    requires Shaped(s) && Possible(s, e)
  {
    && SoundGc(After(s, e))
    && (e.ScanPages? ==>
          ScanOf(s, e.page, e.vma, e.pages, e.slowp).0 ==
          ToOutcome(LeastReference(s.heap, s.attrs, e.vma, (e.page + e.pages) * 8192)))
  }

  /** An event goes right exactly when it is permitted. */
  lemma {:induction false} EventGoesRightExactly(s: Gc, e: Event)
    requires SoundGc(s) && Possible(s, e)
    ensures GoesRight(s, e) <==> Permitted(s, e)
  {
    hide PageSound, Scan, LeastReference, RescanSafe, ScanSafe, Rescanned;
    match e
    case Flip(ephemeral, zone, calls) =>
      FlipExactly(s, ephemeral, zone, calls);
    case Store(a, tag, datum) =>
      StoredExactly(s, a, tag, datum);
    case ScanPages(p, vma, pages, slowp) =>
      ScanIsSoundExactly(s.heap, s.attrs, p, vma, pages, slowp);
    case Rescan(p) =>
      RescanExactly(s.heap, s.attrs[p], p);
      RescanOnly(s.heap, s.attrs[p], p);
      UpdateSound(s.heap, s.attrs, p, Rescanned(s.heap, s.attrs[p], p));
  }

  lemma {:induction false} StoredExactly(s: Gc, a: nat, tag: Tag, datum: Datum)
    requires SoundGc(s) && Possible(s, Store(a, tag, datum))
    ensures SoundGc(After(s, Store(a, tag, datum))) <==> Permitted(s, Store(a, tag, datum))
  {
    hide PageSound, OldPointer;
    var s' := After(s, Store(a, tag, datum));
    forall p: nat | p < PAGES
      ensures PageSound(s'.heap, s'.attrs[p], p) <==>
        (a / 8192 == p && OldPointer(s.heap, tag, datum) ==> s.attrs[p].transportFault)
    {
      StoreExactly(s.heap, a, tag, datum, s.attrs[p], p);
    }
  }

  lemma RescanOnly(h: Heap, a: Attributes, p: nat)
    requires h.Valid() && p < PAGES
    ensures OnlyScanBits(a, Rescanned(h, a, p))
  {
  }

  /** Each event is permitted in the state the earlier ones lead to. */
  ghost predicate PermittedRun(s: Gc, events: seq<Event>)
    decreases |events|
  {
    events != [] ==>
      && Shaped(s) && Possible(s, events[0]) && Permitted(s, events[0])
      && PermittedRun(After(s, events[0]), events[1..])
  }

  ghost function RunAfter(s: Gc, events: seq<Event>): Gc
    requires PermittedRun(s, events)
    decreases |events|
  {
    if events == [] then s else RunAfter(After(s, events[0]), events[1..])
  }

  /** A read of the page goes through, and not because its fault is disabled. */
  predicate Readable(a: Attributes) { Attempt(a, Reading).Goes? && !(a.transportFault && a.transportDisable) }

  /** A store that goes through leaves the page as the event says. */
  lemma StoreGoesThrough(a: Attributes)
    ensures Attempt(a, Writing).Goes? ==> Attempt(a, Writing).attributes == Touched(a)
  {
    AccessExactly(a, Writing);
  }

  /** However flips, stores and scans are interleaved, no read that goes through, other than where the fault is
      disabled, finds an oldspace pointer, and any permitted scan, made at any moment, finds the lowest oldspace
      reference in its range, or none if there is none. */
  lemma {:induction false} RunsStaySound(s: Gc, events: seq<Event>)
    requires SoundGc(s) && PermittedRun(s, events)
    ensures var s' := RunAfter(s, events);
      && SoundGc(s')
      && (forall a :: 0 <= a < MEMORY && s'.attrs[a / 8192].exists_ && !s'.attrs[a / 8192].transportFault ==>
            !s'.heap.OldAt(a))
      && (forall a: nat | a < MEMORY :: Readable(s'.attrs[a / 8192]) ==> !s'.heap.OldAt(a))
      && (forall p: nat, vma: nat, pages: nat, slowp | Possible(s', ScanPages(p, vma, pages, slowp)) ::
            Permitted(s', ScanPages(p, vma, pages, slowp)) ==>
            ScanOf(s', p, vma, pages, slowp).0 ==
            ToOutcome(LeastReference(s'.heap, s'.attrs, vma, (p + pages) * 8192)))
    decreases |events|
  {
    hide PageSound, Scan, LeastReference, ScanSafe;
    if events == [] {
      forall a | 0 <= a < MEMORY && s.attrs[a / 8192].exists_ && !s.attrs[a / 8192].transportFault
        ensures !s.heap.OldAt(a)
      {
        CleanPage(s.heap, s.attrs[a / 8192], a / 8192);
      }
      forall a: nat | a < MEMORY && Readable(s.attrs[a / 8192]) ensures !s.heap.OldAt(a) {
        ReadsNothingOld(s.heap, s.attrs[a / 8192], a / 8192, a);
      }
      forall p: nat, vma: nat, pages: nat, slowp |
          Possible(s, ScanPages(p, vma, pages, slowp)) && Permitted(s, ScanPages(p, vma, pages, slowp))
        ensures ScanOf(s, p, vma, pages, slowp).0 ==
                ToOutcome(LeastReference(s.heap, s.attrs, vma, (p + pages) * 8192))
      {
        EventGoesRightExactly(s, ScanPages(p, vma, pages, slowp));
      }
    } else {
      EventGoesRightExactly(s, events[0]);
      RunsStaySound(After(s, events[0]), events[1..]);
    }
  }

  lemma CleanPage(h: Heap, a: Attributes, p: nat)
    requires h.Valid() && p < PAGES && PageSound(h, a, p) && a.exists_ && !a.transportFault
    ensures forall x :: p * 8192 <= x < (p + 1) * 8192 ==> !h.OldAt(x)
  {
    h.LeastOldIsLeast(p * 8192, (p + 1) * 8192);
  }
}
