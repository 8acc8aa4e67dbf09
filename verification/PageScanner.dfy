/** The page scanner over the emulated memory's arrays, eight tags at a time. */
module PageScanner {
  import opened Wrappers
  import opened TaggedMemory
  import opened Scavenger
  import opened PageFaults

  /** Tags as one little-endian word: the first tag in the low byte. */
  function Pack(tags: seq<Tag>): nat {
    if tags == [] then 0 else tags[0] + 256 * Pack(tags[1..])
  }

  /** The low byte of a packed word is its first tag; shifting it out leaves the rest. */
  lemma PackedStep(tags: seq<Tag>, i: nat, n: nat)
    requires i < n <= |tags|
    ensures Pack(tags[i..n]) % 64 == TagType(tags[i])
    ensures Pack(tags[i..n]) / 256 == Pack(tags[i + 1..n])
  {
    var s := tags[i..n];
    assert s[1..] == tags[i + 1..n];
    assert Pack(s) == s[0] + 256 * Pack(s[1..]);
  }

  function Aligned(a: nat): nat { a - a % 8 }

  lemma ChunkEnd(endvma: nat, thisvma: nat)
    requires endvma <= thisvma < endvma + 8 && thisvma % 8 == 0
    ensures thisvma == Chunked(endvma)
  {
  }

  lemma ChunkInside(endvma: nat, thisvma: nat)
    requires thisvma < endvma < MEMORY && thisvma % 8 == 0
    ensures thisvma + 8 <= Chunked(endvma) <= MEMORY
  {
  }

  /** A pass that started at the chunk of `scanvma` has reached `thisvma` without finding an oldspace pointer. */
  ghost predicate PassState(h: Heap, scanvma: nat, endvma: nat, thisvma: nat, ephemeral: bool)
    requires h.Valid() && scanvma <= endvma < MEMORY && Aligned(scanvma) <= thisvma <= MEMORY
  {
    && h.LeastOld(scanvma, Max(scanvma, Min(thisvma, endvma))).None?
    && ephemeral == h.AnyEphemeral(Aligned(scanvma), thisvma)
  }

  /** One word of a pass: either it ends the search, or the pass moves on. */
  lemma {:induction false} PassStep(h: Heap, scanvma: nat, endvma: nat, thisvma: nat, ephemeral: bool)
    requires h.Valid() && scanvma < endvma < MEMORY && Aligned(scanvma) <= thisvma < MEMORY
    requires PassState(h, scanvma, endvma, thisvma, ephemeral)
    ensures if h.OldAt(thisvma) && scanvma <= thisvma < endvma
      then h.LeastOld(scanvma, endvma) == Some(thisvma)
      else PassState(h, scanvma, endvma, thisvma + 1, ephemeral || h.EphemeralAt(thisvma))
  {
    h.AnyEphemeralJoin(Aligned(scanvma), thisvma, thisvma + 1);
    if scanvma <= thisvma < endvma {
      h.LeastOldJoin(scanvma, thisvma, endvma);
      h.LeastOldJoin(scanvma, thisvma, thisvma + 1);
    }
  }

  class VirtualMemory {
    const tags: array<Tag>
    const data: array<Datum>
    const attributes: array<Attributes>
    const protection: array<Protection>
    var ephemeralOldspace: Datum
    var zoneOldspace: Datum

    /** Every page's protection is the one its attributes call for. */
    ghost predicate Valid()
      reads this, attributes, protection
    {
      && tags.Length == MEMORY && data.Length == MEMORY && attributes.Length == PAGES && protection.Length == PAGES
      && forall p :: 0 <= p < PAGES ==> protection[p] == ComputeProtection(attributes[p])
    }

    ghost function View(): (h: Heap)
      requires tags.Length == MEMORY && data.Length == MEMORY
      reads this, tags, data
      ensures h.Valid()
    {
      Heap(tags[..], data[..], ephemeralOldspace, zoneOldspace)
    }

    /** Looks for an oldspace pointer in [scanvma, endvma), noting whether any ephemeral pointer was met. The tags of
        the last chunk are walked past. */
    method PointerPass(scanvma: nat, endvma: nat) returns (found: SearchOutcome, ephemeral: bool)
      requires Valid() && scanvma < MEMORY && (scanvma < endvma < MEMORY || endvma == 0)
      ensures endvma == 0 ==> found == Absent && !ephemeral
      ensures 0 < endvma <= LAST_CHUNK ==> found == ToOutcome(View().LeastOld(scanvma, endvma))
      ensures 0 < endvma <= LAST_CHUNK && found == Absent ==>
        ephemeral == View().AnyEphemeral(Aligned(scanvma), Chunked(endvma))
      ensures LAST_CHUNK < endvma ==>
        found == (var r := View().LeastOld(scanvma, LAST_CHUNK); if r.Some? then At(r.value) else Astray)
    {
      hide PassState;
      ghost var h := View();
      ephemeral := false;
      var thisvma := Aligned(scanvma);
      if endvma > 0 { PassBegins(h, scanvma, endvma); }
      while thisvma < endvma
        invariant Aligned(scanvma) <= thisvma <= LAST_CHUNK && thisvma % 8 == 0
        invariant endvma > 0 ==> thisvma < endvma + 8 && PassState(h, scanvma, endvma, thisvma, ephemeral)
        invariant endvma == 0 ==> !ephemeral
        decreases MEMORY - thisvma
      {
        if thisvma == LAST_CHUNK {
          PassStrays(h, scanvma, endvma, ephemeral);
          return Astray, ephemeral;
        }
        var r;
        r, ephemeral := ChunkPass(scanvma, endvma, thisvma, ephemeral);
        if r.Some? {
          PassFinds(h, scanvma, endvma, r.value);
          return At(r.value), ephemeral;
        }
        thisvma := thisvma + 8;
      }
      if endvma > 0 { PassEnds(h, scanvma, endvma, thisvma, ephemeral); }
      found := Absent;
    }

    /** One chunk of eight tags. */
    method ChunkPass(scanvma: nat, endvma: nat, chunk: nat, before: bool) returns (found: Option<nat>, ephemeral: bool)
      requires Valid() && scanvma < endvma < MEMORY && Aligned(scanvma) <= chunk <= MEMORY - 8
      requires PassState(View(), scanvma, endvma, chunk, before)
      ensures if found.Some? then found == View().LeastOld(scanvma, endvma) && found.value < chunk + 8
        else PassState(View(), scanvma, endvma, chunk + 8, ephemeral)
    {
      hide PassState, Pack, Bit, OldspaceAddress;
      ghost var h := View();
      ephemeral := before;
      var thisvma, nextvma := chunk, chunk + 8;
      var tagbits := Pack(tags[chunk..nextvma]);
      assert h.tags[chunk..nextvma] == tags[chunk..nextvma];
      while thisvma < nextvma
        invariant chunk <= thisvma <= nextvma
        invariant tagbits == Pack(h.tags[thisvma..nextvma])
        invariant PassState(h, scanvma, endvma, thisvma, ephemeral)
      {
        PackedStep(h.tags, thisvma, nextvma);
        PassStep(h, scanvma, endvma, thisvma, ephemeral);
        if Bit(POINTER_TYPES, tagbits % 64) {
          var word := data[thisvma];
          if word < 0x800_0000 {
            ephemeral := true;
          }
          if OldspaceAddress(ephemeralOldspace, zoneOldspace, word) && scanvma <= thisvma < endvma {
            return Some(thisvma), ephemeral;
          }
        }
        tagbits, thisvma := tagbits / 256, thisvma + 1;
      }
      found := None;
    }

    /** The update pass: looks for an ephemeral pointer in the chunks of [lo, limit), unless one is already known. It
        strays when it has to look at the last chunk. */
    method UpdatePass(lo: nat, limit: nat, known: bool) returns (astray: bool, ephemeral: bool)
      requires Valid() && lo <= limit < MEMORY && (lo < limit || lo % 8 == 0) && (LAST_CHUNK < limit ==> !known)
      ensures limit <= LAST_CHUNK ==>
        !astray && ephemeral == (known || View().AnyEphemeral(Aligned(lo), Chunked(limit)))
      ensures LAST_CHUNK < limit ==> astray == !ephemeral && ephemeral == View().AnyEphemeral(Aligned(lo), LAST_CHUNK)
    {
      ghost var h := View();
      astray, ephemeral := false, known;
      var thisvma := Aligned(lo);
      while thisvma < limit
        invariant Aligned(lo) <= thisvma < limit + 8 && thisvma % 8 == 0 && thisvma <= LAST_CHUNK
        invariant ephemeral == (known || h.AnyEphemeral(Aligned(lo), thisvma))
        invariant LAST_CHUNK < limit ==> !ephemeral
        decreases limit - thisvma
      {
        if thisvma == LAST_CHUNK {
          return true, ephemeral;
        }
        var hit;
        hit, ephemeral := UpdateChunk(thisvma, ephemeral);
        h.AnyEphemeralJoin(Aligned(lo), thisvma, thisvma + 8);
        if hit {
          var end := if limit <= LAST_CHUNK then Chunked(limit) else LAST_CHUNK;
          ChunkInside(limit, thisvma);
          h.AnyEphemeralJoin(Aligned(lo), thisvma + 8, end);
          return;
        }
        thisvma := thisvma + 8;
      }
      ChunkEnd(limit, thisvma);
    }

    /** One chunk of the update pass; `hit` says that the pass is over. */
    method UpdateChunk(chunk: nat, known: bool) returns (hit: bool, ephemeral: bool)
      requires Valid() && chunk <= MEMORY - 8
      ensures ephemeral == (known || View().AnyEphemeral(chunk, chunk + 8)) && (hit ==> ephemeral)
      ensures ephemeral && !known ==> hit
    {
      hide Pack, Bit;
      ghost var h := View();
      ephemeral := known;
      var thisvma, nextvma := chunk, chunk + 8;
      var tagbits := Pack(tags[chunk..nextvma]);
      assert h.tags[chunk..nextvma] == tags[chunk..nextvma];
      while thisvma < nextvma
        invariant chunk <= thisvma <= nextvma
        invariant tagbits == Pack(h.tags[thisvma..nextvma])
        invariant ephemeral == known && !h.AnyEphemeral(chunk, thisvma)
      {
        PackedStep(h.tags, thisvma, nextvma);
        h.AnyEphemeralJoin(chunk, thisvma, thisvma + 1);
        if Bit(POINTER_TYPES, tagbits % 64) {
          if ephemeral || data[thisvma] < 0x800_0000 {
            h.AnyEphemeralJoin(chunk, thisvma + 1, nextvma);
            return true, true;
          }
        }
        tagbits, thisvma := tagbits / 256, thisvma + 1;
      }
      hit := false;
    }

    /** The word-at-a-time scan: changes nothing. */
    method SlowScanPage(scanvma: nat, count: nat) returns (found: Option<nat>)
      requires Valid() && scanvma + count <= MEMORY
      ensures found == View().LeastOld(scanvma, scanvma + count)
    {
      ghost var h := View();
      var vma := scanvma;
      while vma < scanvma + count
        invariant scanvma <= vma <= scanvma + count
        invariant h.LeastOld(scanvma, scanvma + count) == h.LeastOld(vma, scanvma + count)
      {
        if Bit(POINTER_TYPES, TagType(tags[vma])) && OldspaceAddress(ephemeralOldspace, zoneOldspace, data[vma]) {
          return Some(vma);
        }
        vma := vma + 1;
      }
      found := None;
    }

    /** Changes a page's attributes, and its protection when they call for another one. */
    method AdjustProtection(p: nat, a: Attributes)
      requires Valid() && p < PAGES
      modifies attributes, protection
      ensures Valid() && attributes[..] == old(attributes[..])[p := a]
    {
      var was, now := ComputeProtection(attributes[p]), ComputeProtection(a);
      if was != now {
        protection[p] := now;
      }
      attributes[p] := a;
    }

    /** Scans [scanvma, scanvma + count), part of page `p`, eight tags at a time. Unless it returns an oldspace
        pointer it goes on to look for ephemeral pointers before the range, and then records what it knows. An update
        goes over the whole page for ephemeral pointers only. */
    method ScanPage(p: nat, scanvma: nat, count: nat, update: bool) returns (found: SearchOutcome)
      requires Valid() && p * 8192 <= scanvma < (p + 1) * 8192 && 0 < count && scanvma + count <= MEMORY
      requires update ==> scanvma == p * 8192 && count == 8192
      modifies attributes, protection
      ensures Valid() && View() == old(View())
      ensures found == if update then Absent else FastFound(View(), p, scanvma, count)
      ensures found != Absent ==> attributes[..] == old(attributes[..])
      ensures found == Absent ==>
        attributes[..] == old(attributes[..])[p := Finished(old(attributes[p])).(ephemeral :=
          if update then p < LAST_PAGE && View().AnyEphemeral(p * 8192, Chunked((p + 1) * 8192))
          else Seen(View(), p, scanvma, count))]
    {
      ghost var h := View();
      var endvma := (scanvma + count) % 0x1_0000_0000;
      var astray, ephemeral := false, false;
      PageIsAligned(p);
      if update {
        astray, ephemeral := UpdatePageOnly(p, endvma);
      } else {
        found, ephemeral := PointerPass(scanvma, endvma);
        if found != Absent {
          return;
        }
        astray, ephemeral := WrappedPass(p, scanvma, endvma, ephemeral);
        if astray {
          return Astray;
        }
      }
      found := Absent;
      AdjustProtection(p, Finished(attributes[p]).(ephemeral := ephemeral));
    }

    /** The update pass over a whole page, which looks at nothing on the last one. */
    method UpdatePageOnly(p: nat, endvma: nat) returns (astray: bool, ephemeral: bool)
      requires Valid() && p < PAGES && endvma == (p * 8192 + 8192) % 0x1_0000_0000
      ensures !astray && ephemeral == (p < LAST_PAGE && View().AnyEphemeral(p * 8192, Chunked((p + 1) * 8192)))
    {
      astray, ephemeral := false, false;
      if endvma > 0 {
        PageIsAligned(p);
        ChunkedPage(p + 1);
        astray, ephemeral := UpdatePass(p * 8192, endvma, false);
      }
    }

    /** The wrapped pass over the part of a page before the scanned range. */
    method WrappedPass(p: nat, scanvma: nat, endvma: nat, known: bool) returns (astray: bool, ephemeral: bool)
      requires Valid() && p * 8192 <= scanvma < (p + 1) * 8192 && scanvma < MEMORY
      requires endvma == 0 ==> !known
      requires endvma > 0 ==>
        scanvma < endvma <= LAST_CHUNK && known == View().AnyEphemeral(Aligned(scanvma), Chunked(endvma))
      ensures endvma > 0 ==> !astray && ephemeral == View().AnyEphemeral(p * 8192, Chunked(endvma))
      ensures endvma == 0 ==>
        astray == (LAST_CHUNK < scanvma && !View().AnyEphemeral(p * 8192, LAST_CHUNK)) &&
        (!astray ==> ephemeral == View().AnyEphemeral(p * 8192, Chunked(scanvma)))
    {
      ghost var h := View();
      var startvma := scanvma - scanvma % 8192;
      PageOfAddress(p, scanvma);
      PageIsAligned(p);
      astray, ephemeral := UpdatePass(startvma, scanvma, known);
      if endvma > 0 {
        WholeRange(h, startvma, scanvma, endvma);
      } else if LAST_CHUNK < scanvma {
        h.AnyEphemeralJoin(startvma, LAST_CHUNK, Chunked(scanvma));
      }
    }

    /** A page's fault is disabled before anything else is decided about it. */
    method DisableFault(p: nat)
      requires Valid() && p < PAGES
      modifies attributes, protection
      ensures Valid() && attributes[..] == old(attributes[..])[p := Disabled(old(attributes[p]))]
    {
      var a := attributes[p];
      if a.transportFault && !a.transportDisable {
        AdjustProtection(p, a.(transportDisable := true));
      }
    }

    /** A page passed over loses its fault bits, which its protection does not depend on any more. */
    method FinishPage(p: nat)
      requires Valid() && p < PAGES && attributes[p] == Disabled(attributes[p])
      modifies attributes
      ensures Valid() && attributes[..] == old(attributes[..])[p := Finished(old(attributes[p]))]
    {
      attributes[p] := Finished(attributes[p]);
    }

    /** One step of a scan: faults are disabled on page `p`, then the page is looked into or passed over. */
    method ScanStep(p: nat, scanvma: nat, whack: nat, slowp: bool) returns (found: SearchOutcome)
      requires Valid() && p * 8192 <= scanvma < (p + 1) * 8192 && 0 < whack && scanvma + whack <= MEMORY
      modifies attributes, protection
      ensures Valid() && View() == old(View())
      ensures found == FoundOnPage(View(), old(attributes[p]), p, scanvma, whack, slowp)
      ensures attributes[..] ==
        old(attributes[..])[p := PageAfter(View(), old(attributes[p]), p, scanvma, whack, slowp)]
    {
      hide FastFound, Seen;
      DisableFault(p);
      found := Absent;
      if Examined(zoneOldspace, attributes[p], slowp) {
        if slowp {
          var r := SlowScanPage(scanvma, whack);
          found := ToOutcome(r);
        } else {
          found := ScanPage(p, scanvma, whack, false);
        }
      } else if !slowp {
        FinishPage(p);
      }
    }

    /** Scans [vma, vma + count) for oldspace pointers. */
    method VirtualMemoryScan(vma: nat, count: nat, slowp: bool) returns (found: SearchOutcome)
      requires Valid() && vma + count <= MEMORY && 0 < count
      modifies attributes, protection
      ensures Valid() && View() == old(View())
      ensures (found, attributes[..]) ==
        Scan(View(), old(attributes[..]), vma / 8192, vma, count, Min(8192 - vma % 8192, count), slowp)
    {
      hide FoundOnPage, PageAfter;
      ghost var h := View();
      ghost var all := Scan(h, attributes[..], vma / 8192, vma, count, Min(8192 - vma % 8192, count), slowp);
      var p: nat, scanvma: nat, rest: nat, whack: nat := vma / 8192, vma, count, 8192 - vma % 8192;
      if whack > rest {
        whack := rest;
      }
      while rest > 0
        invariant Valid() && View() == h
        invariant rest <= count && scanvma + rest == vma + count
        invariant rest > 0 ==> p * 8192 <= scanvma < (p + 1) * 8192 && 0 < whack <= rest
        invariant rest > 0 ==> whack == rest <= (p + 1) * 8192 - scanvma || scanvma + whack == (p + 1) * 8192
        invariant all ==
          if rest > 0 then Scan(h, attributes[..], p, scanvma, rest, whack, slowp) else (Absent, attributes[..])
      {
        found := ScanStep(p, scanvma, whack, slowp);
        if found != Absent {
          return;
        }
        p, scanvma, rest := p + 1, scanvma + whack, rest - whack;
        whack := if 8192 < rest then 8192 else rest;
      }
      found := Absent;
    }

    /** The handler of a memory fault on page `p`: it touches the page and has the access retried, or makes it a Lisp
        fault. */
    method SegvHandler(p: nat) returns (retry: bool)
      requires Valid() && p < PAGES
      modifies attributes, protection
      ensures Valid() && View() == old(View()) && retry == Retries(old(attributes[p]))
      ensures attributes[..] ==
        if retry then old(attributes[..])[p := Touched(old(attributes[p]))] else old(attributes[..])
    {
      hide ComputeProtection;
      retry := Retries(attributes[p]);
      if retry {
        AdjustProtection(p, Touched(attributes[p]));
      }
    }

    /** An access to page `p` under its protection, retried as the handler says; without success it is a Lisp fault. */
    method AccessPage(p: nat, access: Access) returns (ok: bool)
      requires Valid() && p < PAGES
      modifies attributes, protection
      ensures Valid() && View() == old(View())
      ensures Attempt(old(attributes[p]), access) == if ok then Goes(attributes[p]) else LispFault
      ensures attributes[..] == old(attributes[..])[p := attributes[p]] && (!ok ==> attributes[p] == old(attributes[p]))
    {
      hide ComputeProtection, Retries, Attempt, Touched;
      AccessStep(attributes[p], access);
      ok := Allowed(protection[p], access);
      while !ok
        invariant Valid() && View() == old(View())
        invariant attributes[..] == old(attributes[..])[p := attributes[p]]
        invariant Attempt(attributes[p], access) == Attempt(old(attributes[p]), access) != Forever
        invariant ok <==> Allowed(protection[p], access)
        invariant ok ==> Attempt(attributes[p], access) == Goes(attributes[p])
        invariant attributes[p] == old(attributes[p]) || Attempt(attributes[p], access).Goes?
        decreases if Touched(attributes[p]) == attributes[p] then 0 else 1
      {
        AccessStep(attributes[p], access);
        var retry := SegvHandler(p);
        if !retry {
          return;
        }
        ok := Allowed(protection[p], access);
        AccessStep(attributes[p], access);
      }
    }

    /** A scan of no words from the start of a page goes over the page before it once more, the last one from the start
        of memory: the fast scan to record what the page holds, the slow one as usual. */
    method VirtualMemoryRescan(vma: nat, slowp: bool) returns (found: SearchOutcome)
      requires Valid() && vma < MEMORY && vma % 8192 == 0
      modifies attributes, protection
      ensures Valid() && View() == old(View())
      ensures var p := if vma == 0 then LAST_PAGE else vma / 8192 - 1;
        if slowp then (found, attributes[..]) == Scan(View(), old(attributes[..]), p, p * 8192, 8192, 8192, true)
        else found == Absent && attributes[..] == old(attributes[..])[p := Rescanned(View(), old(attributes[p]), p)]
    {
      var p := if vma == 0 then LAST_PAGE else vma / 8192 - 1;
      assert p < PAGES && ((p + 1) * 8192) % 0x1_0000_0000 == vma;
      if slowp {
        found := ScanStep(p, p * 8192, 8192, true);
      } else {
        found := RescanPage(p);
      }
    }

    method RescanPage(p: nat) returns (found: SearchOutcome)
      requires Valid() && p < PAGES
      modifies attributes, protection
      ensures Valid() && View() == old(View())
      ensures found == Absent && attributes[..] == old(attributes[..])[p := Rescanned(View(), old(attributes[p]), p)]
    {
      hide Examined, ComputeProtection, Finished, FastFound, Seen;
      found := Absent;
      DisableFault(p);
      if Examined(zoneOldspace, attributes[p], false) {
        found := ScanPage(p, p * 8192, 8192, true);
      } else {
        FinishPage(p);
      }
    }

    /** Sets up the pages of [vma, vma + count) for a flip that has just loaded the oldspace registers. */
    method VirtualMemoryEnable(vma: nat, count: nat, faultp: bool)
      requires Valid() && vma + count <= MEMORY
      modifies attributes, protection
      ensures Valid() && View() == old(View())
      ensures attributes[..] == EnableRange(zoneOldspace, old(attributes[..]), vma, count, faultp)
    {
      hide Enabled;
      var p, last := vma / 8192, (vma + count + 8191) % 0x1_0000_0000 / 8192;
      ghost var first := p;
      while p < last
        invariant first <= p && (p <= last || p == first) && last < PAGES
        invariant Valid()
        invariant forall q | 0 <= q < PAGES && !(first <= q < p) :: attributes[q] == old(attributes[q])
        invariant forall q | first <= q < p && q < PAGES ::
          attributes[q] == Enabled(zoneOldspace, old(attributes[q]), faultp)
      {
        var a := Enabled(zoneOldspace, attributes[p], faultp);
        if a != attributes[p] {
          AdjustProtection(p, a);
        }
        p := p + 1;
      }
    }
  }

  // ---------- The first pass ----------

  /** What the protections in force let the mutator read, on pages whose faults are not disabled, is not old. */
  lemma ReadablePageIsClean(vm: VirtualMemory, p: nat, x: nat)
    requires vm.Valid() && p < PAGES && PageSound(vm.View(), vm.attributes[p], p) && p * 8192 <= x < (p + 1) * 8192
    requires vm.protection[p] != NoAccess && !(vm.attributes[p].transportFault && vm.attributes[p].transportDisable)
    ensures !vm.View().OldAt(x)
  {
    ProtectionExactly(vm.attributes[p]);
    vm.View().LeastOldIsLeast(p * 8192, (p + 1) * 8192);
  }

  lemma PassBegins(h: Heap, scanvma: nat, endvma: nat)
    requires h.Valid() && scanvma < endvma < MEMORY
    ensures PassState(h, scanvma, endvma, Aligned(scanvma), false)
  {
  }

  lemma PassEnds(h: Heap, scanvma: nat, endvma: nat, thisvma: nat, ephemeral: bool)
    requires h.Valid() && scanvma < endvma <= thisvma < endvma + 8 && thisvma % 8 == 0 && thisvma <= LAST_CHUNK
    requires Aligned(scanvma) <= thisvma && PassState(h, scanvma, endvma, thisvma, ephemeral)
    ensures endvma <= LAST_CHUNK && h.LeastOld(scanvma, endvma).None?
    ensures ephemeral == h.AnyEphemeral(Aligned(scanvma), Chunked(endvma))
  {
    ChunkEnd(endvma, thisvma);
  }

  lemma PassStrays(h: Heap, scanvma: nat, endvma: nat, ephemeral: bool)
    requires h.Valid() && scanvma < endvma < MEMORY && LAST_CHUNK < endvma && Aligned(scanvma) <= LAST_CHUNK
    requires PassState(h, scanvma, endvma, LAST_CHUNK, ephemeral)
    ensures h.LeastOld(scanvma, LAST_CHUNK).None?
  {
  }

  lemma {:induction false} PassFinds(h: Heap, scanvma: nat, endvma: nat, a: nat)
    requires h.Valid() && scanvma < endvma < MEMORY && h.LeastOld(scanvma, endvma) == Some(a) && a < LAST_CHUNK
    ensures LAST_CHUNK < endvma ==> h.LeastOld(scanvma, LAST_CHUNK) == Some(a)
  {
    if LAST_CHUNK < endvma && scanvma <= LAST_CHUNK {
      h.LeastOldJoin(scanvma, LAST_CHUNK, endvma);
      h.LeastOldIsLeast(LAST_CHUNK, endvma);
    } else if LAST_CHUNK < endvma {
      h.LeastOldIsLeast(scanvma, endvma);
    }
  }

  lemma PageOfAddress(p: nat, a: nat)
    requires p * 8192 <= a < (p + 1) * 8192
    ensures a - a % 8192 == p * 8192
  {
    var r := a - p * 8192;
    assert a == r + p * 8192;
    assert a % 8192 == r;
  }

  lemma PageIsAligned(p: nat)
    ensures Aligned(p * 8192) == p * 8192
  {
    EightFold(p * 1024);
  }

  lemma EightFold(k: nat)
    ensures (8 * k) % 8 == 0
  {
  }

  /** The wrapped update pass and the first pass together cover the chunks of the whole range. */
  lemma {:induction false} WholeRange(h: Heap, start: nat, mid: nat, end: nat)
    requires h.Valid() && start <= mid < end < MEMORY && start % 8 == 0
    ensures h.AnyEphemeral(start, Chunked(end)) <==>
      h.AnyEphemeral(Aligned(mid), Chunked(end)) || h.AnyEphemeral(start, Chunked(mid))
  {
    var lo, hi := Aligned(mid), Chunked(mid);
    assert start <= lo <= hi <= Chunked(end) <= MEMORY;
    h.AnyEphemeralJoin(start, lo, Chunked(end));
    h.AnyEphemeralJoin(start, lo, hi);
    h.AnyEphemeralJoin(lo, hi, Chunked(end));
  }
}
