/** What a page's protection lets through, and what the fault handler makes of the rest. */
module PageFaults {
  import opened TaggedMemory
  import opened Scavenger

  // ---------- Protections ----------

  /** The attribute byte. */
  function AttributeByte(a: Attributes): bv8 {
    (if a.accessFault then 1 else 0) | (if a.writeFault then 2 else 0) | (if a.transportFault then 4 else 0) |
    (if a.transportDisable then 8 else 0) | (if a.ephemeral then 16 else 0) | (if a.modified then 32 else 0) |
    (if a.exists_ then 64 else 0)
  }

  /** The mask tests on the byte: a disabled transport fault is cleared first; then 64 is the exists bit, 4 and 1 are
      the transport and access faults, and 32, 16 and 2 the modified, ephemeral and write fault bits. */
  function MaskedProtection(b: bv8): Protection {
    var c := if b & 8 != 0 then b & 0xFB else b;
    if c & (64 | 4 | 1) != 64 then NoAccess else if c & (32 | 16 | 2) != 32 | 16 then ReadOnly else ReadWrite
  }

  /** When a page is inaccessible, read-only, or all there: the mask tests agree, and in terms of the bits. */
  lemma ProtectionExactly(a: Attributes)
    ensures ComputeProtection(a) == MaskedProtection(AttributeByte(a))
    ensures ComputeProtection(a) == NoAccess <==>
      !a.exists_ || a.accessFault || (a.transportFault && !a.transportDisable)
    ensures ComputeProtection(a) == ReadWrite <==>
      && a.exists_ && !a.accessFault && (a.transportFault ==> a.transportDisable)
      && !a.writeFault && a.ephemeral && a.modified
    ensures ComputeProtection(a) == ReadOnly <==>
      && a.exists_ && !a.accessFault && (a.transportFault ==> a.transportDisable)
      && (a.writeFault || !a.ephemeral || !a.modified)
  {
  }

  // ---------- Accesses ----------

  datatype Access = Reading | Writing

  predicate Allowed(p: Protection, access: Access) { p == ReadWrite || (p == ReadOnly && access == Reading) }

  /** The page attributes after the fault handler has let a store through: both bits it watches for are set. */
  function Touched(a: Attributes): Attributes { a.(ephemeral := true, modified := true) }

  /** The handler notes the access and retries it when, of the exists bit, the three faults and the transport disable
      bit, the byte has exists alone, or with the disable bit, or with the disable bit and the transport fault. */
  predicate Retries(a: Attributes) {
    var b := AttributeByte(a) & (64 | 8 | 4 | 2 | 1);
    b == 64 || b == 64 | 8 || b == 64 | 8 | 4
  }

  /** How an access ends: it goes through, leaving attributes; it becomes a Lisp fault; or it is retried for ever. */
  datatype Ending = Goes(attributes: Attributes) | LispFault | Forever

  /** An access, the handler's retries included. */
  function Attempt(a: Attributes, access: Access): Ending
    decreases if Touched(a) == a then 0 else 1
  {
    if Allowed(ComputeProtection(a), access) then Goes(a)
    else if !Retries(a) then LispFault
    else if Touched(a) == a then Forever
    else Attempt(Touched(a), access)
  }

  /** Every access ends, after one retry at most. A read goes through exactly on a page that is there without an access
      fault or a transport fault in force, and changes nothing; a write needs a page without a write fault as well, and
      leaves it touched; all other accesses are Lisp faults. */
  lemma AccessExactly(a: Attributes, access: Access)
    ensures Attempt(a, access) ==
      if !a.exists_ || a.accessFault || (a.transportFault && !a.transportDisable) then LispFault
      else if access == Reading then Goes(a)
      else if a.writeFault then LispFault
      else Goes(a.(ephemeral := true, modified := true))
  {
    assert Touched(Touched(a)) == Touched(a);
    ProtectionExactly(a);
    ProtectionExactly(Touched(a));
    RetriesExactly(a);
    RetriesExactly(Touched(a));
  }

  /** The handler retries where no fault bit in force stands against an access, and then the page it has touched can be
      written. */
  lemma RetriesExactly(a: Attributes)
    ensures Retries(a) <==> a.exists_ && !a.accessFault && !a.writeFault && (a.transportFault ==> a.transportDisable)
    ensures Retries(a) ==> ComputeProtection(Touched(a)) == ReadWrite
  {
  }

  /** One step of an access. */
  lemma AccessStep(a: Attributes, access: Access)
    ensures Allowed(ComputeProtection(a), access) ==> Attempt(a, access) == Goes(a)
    ensures !Allowed(ComputeProtection(a), access) && !Retries(a) ==> Attempt(a, access) == LispFault
    ensures !Allowed(ComputeProtection(a), access) && Retries(a) ==>
      Touched(a) != a && Attempt(a, access) == Attempt(Touched(a), access) != LispFault
    ensures Touched(Touched(a)) == Touched(a) && Attempt(a, access) != Forever
  {
    AccessExactly(a, access);
    AccessExactly(Touched(a), access);
    RetriesExactly(a);
    ProtectionExactly(a);
  }

  /** A page that can be read, and whose fault is not disabled, holds no oldspace pointer. */
  lemma {:induction false} ReadsNothingOld(h: Heap, a: Attributes, p: nat, x: nat)
    requires h.Valid() && p < PAGES && PageSound(h, a, p) && p * 8192 <= x < (p + 1) * 8192
    requires Attempt(a, Reading).Goes? && !(a.transportFault && a.transportDisable)
    ensures !h.OldAt(x)
  {
    AccessExactly(a, Reading);
    h.LeastOldIsLeast(p * 8192, (p + 1) * 8192);
  }

  // ---------- Flips and scans, as accesses see them ----------

  /** Two attribute bytes differ in the transport bits at most. */
  predicate OnlyTransport(a: Attributes, b: Attributes) {
    a.(transportFault := false, transportDisable := false) == b.(transportFault := false, transportDisable := false)
  }

  /** After a flip the mutator reads nothing old on a page enabled with faults; on one enabled without, the fault bit is
      set for the scan, and no transport fault stops an access. */
  lemma EnabledForAccess(zoneOldspace: Datum, a: Attributes, access: Access)
    requires a.exists_
    ensures var e := Enabled(zoneOldspace, a, true);
      && !e.transportDisable && (e.transportFault <==> zoneOldspace != 0 || a.ephemeral)
      && (e.transportFault ==> Attempt(e, access) == LispFault)
    ensures var e := Enabled(zoneOldspace, a, false);
      && e.transportFault && e.transportDisable
      && (Attempt(e, access).Goes? <==> !a.accessFault && (access == Writing ==> !a.writeFault))
    ensures forall faultp :: OnlyTransport(a, Enabled(zoneOldspace, a, faultp))
  {
    AccessExactly(Enabled(zoneOldspace, a, true), access);
    AccessExactly(Enabled(zoneOldspace, a, false), access);
  }

  /** A page that a scan has reached can be read, whatever the scan found on it, so that the collector can get at the
      reference; when the fast scan is done with a page, the next one passes it over. */
  lemma ScannedForAccess(h: Heap, a: Attributes, p: nat, vma: nat, whack: nat, slowp: bool)
    requires h.Valid() && p < PAGES && p * 8192 <= vma && vma + whack <= (p + 1) * 8192
    ensures var t := PageAfter(h, a, p, vma, whack, slowp);
      && (Attempt(t, Reading).Goes? <==> a.exists_ && !a.accessFault)
      && t.exists_ == a.exists_ && t.accessFault == a.accessFault && t.writeFault == a.writeFault
      && t.modified == a.modified
      && (slowp || FoundOnPage(h, a, p, vma, whack, slowp) != Absent ==>
            t.transportFault == a.transportFault && t.ephemeral == a.ephemeral)
      && (!slowp && FoundOnPage(h, a, p, vma, whack, slowp) == Absent ==>
            !t.transportFault && !t.transportDisable && !Examined(h.zoneOldspace, t, false))
  {
    AccessExactly(PageAfter(h, a, p, vma, whack, slowp), Reading);
  }

  /** A fast scan of a whole page before the last that finds nothing leaves the ephemeral bit exactly as the page's
      words call for, if it looked at them, and alone otherwise. */
  lemma {:induction false} ScannedEphemeral(h: Heap, a: Attributes, p: nat)
    requires h.Valid() && p < LAST_PAGE && FoundOnPage(h, a, p, p * 8192, 8192, false) == Absent
    ensures PageAfter(h, a, p, p * 8192, 8192, false).ephemeral ==
      if Examined(h.zoneOldspace, a, false) then h.AnyEphemeral(p * 8192, (p + 1) * 8192) else a.ephemeral
  {
    ChunkedWhole(p + 1);
  }

  lemma ChunkedWhole(p: nat)
    ensures Chunked(p * 8192) == p * 8192
  {
    assert p * 8192 == 8 * (p * 1024);
  }
}
