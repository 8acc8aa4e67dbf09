/** Searching the tags of memory, eight at a time, for a set of types or of cdr codes. */
module TagSearch {
  import opened Wrappers
  import opened TaggedMemory
  import opened Scavenger
  import opened PageScanner

  /** What of a tag is looked up in the mask. */
  datatype Field = TypeField | CdrField

  predicate Matches(field: Field, mask: nat, tag: Tag) {
    Bit(mask, if field == TypeField then TagType(tag) else TagCdr(tag))
  }

  // ---------- The plain linear searches ----------

  /** The lowest match in [lo, hi). */
  function First(tags: seq<Tag>, field: Field, mask: nat, lo: nat, hi: nat): Option<nat>
    requires hi <= |tags|
    decreases hi - lo
  {
    if lo >= hi then None else if Matches(field, mask, tags[lo]) then Some(lo) else First(tags, field, mask, lo + 1, hi)
  }

  /** The highest match in [lo, hi). */
  function Last(tags: seq<Tag>, field: Field, mask: nat, lo: nat, hi: nat): Option<nat>
    requires hi <= |tags|
    decreases hi
  {
    if lo >= hi then None
    else if Matches(field, mask, tags[hi - 1]) then Some(hi - 1)
    else Last(tags, field, mask, lo, hi - 1)
  }

  lemma {:induction false} FirstIsLeast(tags: seq<Tag>, field: Field, mask: nat, lo: nat, hi: nat)
    requires hi <= |tags|
    ensures var r := First(tags, field, mask, lo, hi);
      if r.Some? then
        lo <= r.value < hi && Matches(field, mask, tags[r.value]) &&
        forall a | lo <= a < r.value :: !Matches(field, mask, tags[a])
      else forall a | lo <= a < hi :: !Matches(field, mask, tags[a])
    decreases hi - lo
  {
    hide Matches;
    if lo < hi { FirstIsLeast(tags, field, mask, lo + 1, hi); }
  }

  lemma {:induction false} LastIsGreatest(tags: seq<Tag>, field: Field, mask: nat, lo: nat, hi: nat)
    requires hi <= |tags|
    ensures var r := Last(tags, field, mask, lo, hi);
      if r.Some? then
        lo <= r.value < hi && Matches(field, mask, tags[r.value]) &&
        forall a | r.value < a < hi :: !Matches(field, mask, tags[a])
      else forall a | lo <= a < hi :: !Matches(field, mask, tags[a])
    decreases hi
  {
    hide Matches;
    if lo < hi { LastIsGreatest(tags, field, mask, lo, hi - 1); }
  }

  lemma {:induction false} FirstJoin(tags: seq<Tag>, field: Field, mask: nat, lo: nat, mid: nat, hi: nat)
    requires lo <= mid <= hi <= |tags|
    ensures First(tags, field, mask, lo, hi) ==
      var r := First(tags, field, mask, lo, mid); if r.Some? then r else First(tags, field, mask, mid, hi)
    decreases mid - lo
  {
    hide Matches;
    if lo < mid { FirstJoin(tags, field, mask, lo + 1, mid, hi); }
  }

  lemma {:induction false} LastJoin(tags: seq<Tag>, field: Field, mask: nat, lo: nat, mid: nat, hi: nat)
    requires lo <= mid <= hi <= |tags|
    ensures Last(tags, field, mask, lo, hi) ==
      var r := Last(tags, field, mask, mid, hi); if r.Some? then r else Last(tags, field, mask, lo, mid)
    decreases hi - mid
  {
    hide Matches;
    if mid < hi { LastJoin(tags, field, mask, lo, mid, hi - 1); }
  }

  // ---------- What the searches do ----------

  /** A search upwards over [start, end): the chunk of eight at the end of memory is walked past, and an end at the end
      of memory wraps to an empty search. */
  function Upwards(tags: seq<Tag>, field: Field, mask: nat, start: nat, end: nat): SearchOutcome
    requires |tags| == MEMORY && start < end <= MEMORY
  {
    if end == MEMORY then Absent
    else if end <= 0xFFFF_FFF8 then ToOutcome(First(tags, field, mask, start, end))
    else
      var r := First(tags, field, mask, start, 0xFFFF_FFF8);
      if r.Some? then At(r.value) else Astray
  }

  /** A search downwards over (limit, start]: the chunk of eight at the start of memory is walked past, and a limit
      before the start of memory wraps to an empty search. */
  function Downwards(tags: seq<Tag>, field: Field, mask: nat, start: nat, limit: int): SearchOutcome
    requires |tags| == MEMORY && -1 <= limit <= start < MEMORY
  {
    if limit < 0 then Absent
    else if limit >= 7 then ToOutcome(Last(tags, field, mask, limit + 1, start + 1))
    else
      var r := Last(tags, field, mask, 8, start + 1);
      if r.Some? then At(r.value) else Astray
  }

  /** Searching upwards finds the lowest match in the range, or that there is none, exactly when the range ends at or
      before the last chunk, or has a match before it; or, for a range to the end of memory, has no match at all. */
  lemma {:induction false} UpwardsExactly(tags: seq<Tag>, field: Field, mask: nat, start: nat, end: nat)
    requires |tags| == MEMORY && start < end <= MEMORY
    ensures Upwards(tags, field, mask, start, end) == ToOutcome(First(tags, field, mask, start, end)) <==>
      if end == MEMORY then First(tags, field, mask, start, MEMORY).None?
      else end <= 0xFFFF_FFF8 || First(tags, field, mask, start, 0xFFFF_FFF8).Some?
  {
    hide Matches;
    if 0xFFFF_FFF8 < end < MEMORY && start <= 0xFFFF_FFF8 {
      FirstJoin(tags, field, mask, start, 0xFFFF_FFF8, end);
    }
  }

  /** Searching downwards finds the highest match in the range, or that there is none, exactly when the range stays
      above the first chunk, or has a match above it; or, for a range down to address 0, has no match at all. */
  lemma {:induction false} DownwardsExactly(tags: seq<Tag>, field: Field, mask: nat, start: nat, limit: int)
    requires |tags| == MEMORY && -1 <= limit <= start < MEMORY
    ensures Downwards(tags, field, mask, start, limit) == ToOutcome(Last(tags, field, mask, limit + 1, start + 1)) <==>
      if limit < 0 then Last(tags, field, mask, 0, start + 1).None?
      else limit >= 7 || Last(tags, field, mask, 8, start + 1).Some?
  {
    hide Matches;
    if 0 <= limit < 7 && 8 <= start + 1 {
      LastJoin(tags, field, mask, limit + 1, 8, start + 1);
    }
  }

  // ---------- Eight tags at a time ----------

  /** The lowest match of a chunk that lies in [start, limit). */
  method ChunkUp(tags: array<Tag>, field: Field, mask: nat, chunk: nat, start: nat, limit: nat)
    returns (found: Option<nat>)
    requires tags.Length == MEMORY && chunk + 8 <= MEMORY && limit <= MEMORY
    ensures found == First(tags[..], field, mask, Max(start, chunk), Min(limit, chunk + 8))
  {
    hide Pack, Matches;
    var thisvma, nextvma := chunk, chunk + 8;
    var tagbits := Pack(tags[chunk..nextvma]);
    ghost var s := tags[..];
    assert s[chunk..nextvma] == tags[chunk..nextvma];
    while thisvma < nextvma
      invariant chunk <= thisvma <= nextvma
      invariant tagbits == Pack(s[thisvma..nextvma])
      invariant First(s, field, mask, Max(start, chunk), Min(limit, chunk + 8)) ==
        First(s, field, mask, Max(start, thisvma), Min(limit, chunk + 8))
    {
      LowTag(s, field, mask, thisvma, nextvma);
      if LowMatches(field, mask, tagbits) && start <= thisvma < limit {
        return Some(thisvma);
      }
      tagbits, thisvma := tagbits / 256, thisvma + 1;
    }
    found := None;
  }

  /** The test on the low byte of packed tags. */
  predicate LowMatches(field: Field, mask: nat, tagbits: nat) {
    Bit(mask, if field == TypeField then tagbits % 64 else tagbits / 64 % 4)
  }

  /** The test on the high byte of eight packed tags. */
  predicate HighMatches(field: Field, mask: nat, tagbits: nat) {
    var high := tagbits / 0x100_0000_0000_0000;
    Bit(mask, if field == TypeField then high % 64 else high / 64 % 4)
  }

  lemma LowTag(tags: seq<Tag>, field: Field, mask: nat, i: nat, n: nat)
    requires i < n <= |tags|
    ensures LowMatches(field, mask, Pack(tags[i..n])) == Matches(field, mask, tags[i])
    ensures Pack(tags[i..n]) / 256 == Pack(tags[i + 1..n])
  {
    hide Bit, Pack;
    PackedStep(tags, i, n);
    var s := tags[i..n];
    assert Pack(s) == s[0] + 256 * Pack(s[1..]) by { PackedFirst(s); }
    assert Pack(s) / 64 % 4 == s[0] / 64;
  }

  lemma PackedFirst(s: seq<Tag>)
    requires s != []
    ensures Pack(s) == s[0] + 256 * Pack(s[1..])
  {
  }

  /** No match below `thisvma` in [start, limit). */
  ghost predicate NoneBelow(tags: seq<Tag>, field: Field, mask: nat, start: nat, limit: nat, thisvma: nat)
    requires |tags| == MEMORY && start < limit < MEMORY
  {
    First(tags, field, mask, start, Max(start, Min(limit, thisvma))).None?
  }

  /** One chunk of a search upwards decides it, or leaves the search above. */
  lemma {:induction false} UpStep(tags: seq<Tag>, field: Field, mask: nat, start: nat, limit: nat, thisvma: nat)
    requires |tags| == MEMORY && start < limit < MEMORY
    requires thisvma < limit && start < thisvma + 8 && thisvma < 0xFFFF_FFF8 && thisvma % 8 == 0
    requires NoneBelow(tags, field, mask, start, limit, thisvma)
    ensures var r := First(tags, field, mask, Max(start, thisvma), Min(limit, thisvma + 8));
      if r.Some? then Upwards(tags, field, mask, start, limit) == At(r.value)
      else NoneBelow(tags, field, mask, start, limit, thisvma + 8)
  {
    hide Matches;
    var lower, upper := Max(start, thisvma), Min(limit, thisvma + 8);
    FirstJoin(tags, field, mask, start, lower, upper);
    FirstJoin(tags, field, mask, start, upper, limit);
    if limit > 0xFFFF_FFF8 { FirstJoin(tags, field, mask, start, upper, 0xFFFF_FFF8); }
  }

  method SearchUp(tags: array<Tag>, field: Field, mask: nat, start: nat, end: nat) returns (found: SearchOutcome)
    requires tags.Length == MEMORY && start < end <= MEMORY
    ensures found == Upwards(tags[..], field, mask, start, end)
  {
    hide First, NoneBelow;
    var limit := if end == MEMORY then 0 else end;
    var thisvma := start - start % 8;
    if limit > 0 { NoneYet(tags[..], field, mask, start, limit, thisvma); }
    while thisvma < limit
      invariant thisvma % 8 == 0 && start < thisvma + 8 && thisvma <= 0xFFFF_FFF8
      invariant limit > 0 ==> thisvma < limit + 8 && NoneBelow(tags[..], field, mask, start, limit, thisvma)
      decreases MEMORY - thisvma
    {
      if thisvma == 0xFFFF_FFF8 {
        NoneFound(tags[..], field, mask, start, limit, thisvma);
        return Astray;
      }
      var r := ChunkUp(tags, field, mask, thisvma, start, limit);
      UpStep(tags[..], field, mask, start, limit, thisvma);
      if r.Some? {
        return At(r.value);
      }
      thisvma := thisvma + 8;
    }
    if limit > 0 { NoneFound(tags[..], field, mask, start, limit, thisvma); }
    found := Absent;
  }

  lemma NoneYet(tags: seq<Tag>, field: Field, mask: nat, start: nat, limit: nat, thisvma: nat)
    requires |tags| == MEMORY && thisvma <= start < limit < MEMORY
    ensures NoneBelow(tags, field, mask, start, limit, thisvma)
  {
  }

  /** Where a search upwards ends without a match. */
  lemma NoneFound(tags: seq<Tag>, field: Field, mask: nat, start: nat, limit: nat, thisvma: nat)
    requires |tags| == MEMORY && start < limit < MEMORY && NoneBelow(tags, field, mask, start, limit, thisvma)
    ensures limit <= thisvma <= 0xFFFF_FFF8 ==> Upwards(tags, field, mask, start, limit) == Absent
    ensures thisvma == 0xFFFF_FFF8 < limit ==> Upwards(tags, field, mask, start, limit) == Astray
  {
  }

  // ---------- Eight packed tags from the top ----------

  function Seven(b0: nat, b1: nat, b2: nat, b3: nat, b4: nat, b5: nat, b6: nat): nat {
    b0 + 256 * (b1 + 256 * (b2 + 256 * (b3 + 256 * (b4 + 256 * (b5 + 256 * b6)))))
  }

  /** Eight bytes as one number: seven low ones and a high one. */
  lemma PackedEight(s: seq<Tag>)
    requires |s| == 8
    ensures Pack(s) == Seven(s[0], s[1], s[2], s[3], s[4], s[5], s[6]) + Times(0x100_0000_0000_0000, s[7])
    ensures Pack(s) == s[0] + Times(256, Seven(s[1], s[2], s[3], s[4], s[5], s[6], s[7]))
    ensures Seven(s[0], s[1], s[2], s[3], s[4], s[5], s[6]) < 0x100_0000_0000_0000
  {
    assert Pack(s[7..]) == s[7] by { PackedFirst(s[7..]); }
    forall i | 0 <= i < 7 ensures Pack(s[i..]) == Times(256, Pack(s[i + 1..])) + s[i] {
      PackedFirst(s[i..]);
      assert s[i..][1..] == s[i + 1..];
    }
    assert s[0..] == s;
  }

  function Times(k: nat, n: nat): nat { k * n }

  /** `j` zero bytes below the first tags of a chunk: the packed tags after `j` shifts towards the top. */
  function Raised(chunk: seq<Tag>, j: nat): (r: seq<Tag>)
    requires |chunk| == 8 && j <= 8
    ensures |r| == 8
  {
    seq<Tag>(j, _ => 0) + chunk[..8 - j]
  }

  /** The high byte is the highest tag left; a shift by eight bits brings up the next. */
  lemma {:induction false} RaisedStep(chunk: seq<Tag>, j: nat)
    requires |chunk| == 8 && j < 8
    ensures Pack(Raised(chunk, j)) / 0x100_0000_0000_0000 == chunk[7 - j]
    ensures Pack(Raised(chunk, j)) * 256 % 0x1_0000_0000_0000_0000 == Pack(Raised(chunk, j + 1))
  {
    hide Pack;
    var s, t := Raised(chunk, j), Raised(chunk, j + 1);
    PackedEight(s);
    PackedEight(t);
    assert s[7] == chunk[7 - j];
    assert t == [0] + s[..7];
    TopByte(Seven(s[0], s[1], s[2], s[3], s[4], s[5], s[6]), s[7]);
  }

  lemma TopByte(low: nat, high: nat)
    requires low < 0x100_0000_0000_0000 && high < 256
    ensures (low + Times(0x100_0000_0000_0000, high)) / 0x100_0000_0000_0000 == high
    ensures (low + Times(0x100_0000_0000_0000, high)) * 256 % 0x1_0000_0000_0000_0000 == Times(256, low)
  {
  }

  /** The highest match of a chunk that lies in (limit, start]. */
  method ChunkDown(tags: array<Tag>, field: Field, mask: nat, chunk: nat, start: nat, limit: nat)
    returns (found: Option<nat>)
    requires tags.Length == MEMORY && 8 <= chunk && chunk + 8 <= MEMORY && limit <= start < MEMORY
    ensures found == Last(tags[..], field, mask, Max(limit + 1, chunk), Min(start + 1, chunk + 8))
  {
    hide Pack, Matches;
    ghost var s, eight := tags[..], tags[chunk..chunk + 8];
    var tagbits := Pack(tags[chunk..chunk + 8]);
    assert Raised(eight, 0) == eight;
    var thisvma, nextvma := chunk + 7, chunk - 1;
    while thisvma > nextvma
      invariant nextvma <= thisvma <= chunk + 7
      invariant tagbits == Pack(Raised(eight, chunk + 7 - thisvma))
      invariant Last(s, field, mask, Max(limit + 1, chunk), Min(start + 1, chunk + 8)) ==
        Last(s, field, mask, Max(limit + 1, chunk), Min(start + 1, thisvma + 1))
    {
      RaisedStep(eight, chunk + 7 - thisvma);
      HighTag(s[thisvma], field, mask, tagbits);
      if HighMatches(field, mask, tagbits) && start >= thisvma > limit {
        return Some(thisvma);
      }
      tagbits, thisvma := tagbits * 256 % 0x1_0000_0000_0000_0000, thisvma - 1;
    }
    found := None;
  }

  lemma HighTag(tag: Tag, field: Field, mask: nat, tagbits: nat)
    requires tagbits / 0x100_0000_0000_0000 == tag
    ensures HighMatches(field, mask, tagbits) == Matches(field, mask, tag)
  {
    hide Bit;
  }

  /** No match above `thisvma` in (limit, start]. */
  ghost predicate NoneAbove(tags: seq<Tag>, field: Field, mask: nat, start: nat, limit: nat, thisvma: nat)
    requires |tags| == MEMORY && limit <= start < MEMORY
  {
    Last(tags, field, mask, Min(start + 1, Max(limit, thisvma) + 1), start + 1).None?
  }

  /** One chunk of a search downwards decides it, or leaves the search below. */
  lemma {:induction false} DownStep(tags: seq<Tag>, field: Field, mask: nat, start: nat, limit: nat, thisvma: nat)
    requires |tags| == MEMORY && limit <= start < MEMORY && limit < thisvma < start + 8 && 8 < thisvma
    requires thisvma % 8 == 7
    requires NoneAbove(tags, field, mask, start, limit, thisvma)
    ensures var r := Last(tags, field, mask, Max(limit + 1, thisvma - 7), Min(start + 1, thisvma + 1));
      if r.Some? then Downwards(tags, field, mask, start, limit) == At(r.value)
      else NoneAbove(tags, field, mask, start, limit, thisvma - 8)
  {
    hide Matches;
    var lower, upper := Max(limit, thisvma - 8) + 1, Min(start, thisvma) + 1;
    LastJoin(tags, field, mask, lower, upper, start + 1);
    LastJoin(tags, field, mask, limit + 1, lower, start + 1);
    if limit < 7 { LastJoin(tags, field, mask, 8, lower, start + 1); }
  }

  method SearchDown(tags: array<Tag>, field: Field, mask: nat, start: nat, low: int) returns (found: SearchOutcome)
    requires tags.Length == MEMORY && -1 <= low <= start < MEMORY
    ensures found == Downwards(tags[..], field, mask, start, low)
  {
    hide Last, NoneAbove;
    var limit: nat := if low < 0 then 0xFFFF_FFFF else low;
    var thisvma: nat := start - start % 8 + 7;
    if low >= 0 { NothingAbove(tags[..], field, mask, start, limit, thisvma); }
    while thisvma > limit
      invariant thisvma % 8 == 7 && thisvma < start + 8 && thisvma < MEMORY
      invariant low == limit ==> thisvma + 8 > limit && NoneAbove(tags[..], field, mask, start, limit, thisvma)
      decreases thisvma
    {
      if thisvma == 7 {
        DownEnd(tags[..], field, mask, start, limit, 7);
        return Astray;
      }
      var r := ChunkDown(tags, field, mask, thisvma - 7, start, limit);
      DownStep(tags[..], field, mask, start, limit, thisvma);
      if r.Some? {
        return At(r.value);
      }
      thisvma := thisvma - 8;
    }
    if low >= 0 { DownEnd(tags[..], field, mask, start, limit, thisvma); }
    found := Absent;
  }

  lemma NothingAbove(tags: seq<Tag>, field: Field, mask: nat, start: nat, limit: nat, thisvma: nat)
    requires |tags| == MEMORY && limit <= start < MEMORY && start <= thisvma
    ensures NoneAbove(tags, field, mask, start, limit, thisvma)
  {
  }

  lemma DownEnd(tags: seq<Tag>, field: Field, mask: nat, start: nat, limit: nat, thisvma: nat)
    requires |tags| == MEMORY && limit <= start < MEMORY && NoneAbove(tags, field, mask, start, limit, thisvma)
    requires thisvma % 8 == 7 && (thisvma == 7 || thisvma <= limit)
    ensures Downwards(tags, field, mask, start, limit) == if limit < 7 then Astray else if thisvma <= limit then Absent
      else Downwards(tags, field, mask, start, limit)
  {
  }

  /** What a search of `count` words from `start` on returns: upwards, or downwards for a negative count. */
  function Searched(tags: seq<Tag>, field: Field, mask: nat, start: nat, count: int): SearchOutcome
    requires |tags| == MEMORY && start < MEMORY && -1 <= start + count <= MEMORY
  {
    if count > 0 then Upwards(tags, field, mask, start, start + count)
    else Downwards(tags, field, mask, start, start + count)
  }

  method VirtualMemorySearchType(tags: array<Tag>, vma: nat, count: int, typeMask: nat) returns (found: SearchOutcome)
    requires tags.Length == MEMORY && vma < MEMORY && -1 <= vma + count <= MEMORY
    ensures found == Searched(tags[..], TypeField, typeMask, vma, count)
  {
    if count > 0 {
      found := SearchUp(tags, TypeField, typeMask, vma, vma + count);
    } else {
      found := SearchDown(tags, TypeField, typeMask, vma, vma + count);
    }
  }

  method VirtualMemorySearchCDR(tags: array<Tag>, vma: nat, count: int, cdrMask: nat) returns (found: SearchOutcome)
    requires tags.Length == MEMORY && vma < MEMORY && -1 <= vma + count <= MEMORY
    ensures found == Searched(tags[..], CdrField, cdrMask, vma, count)
  {
    if count > 0 {
      found := SearchUp(tags, CdrField, cdrMask, vma, vma + count);
    } else {
      found := SearchDown(tags, CdrField, cdrMask, vma, vma + count);
    }
  }
}
