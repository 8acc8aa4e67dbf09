/** Block reads and writes that straddle the stack cache, against one word at a time. */
module BlockTransfer {
  import opened TaggedMemory
  import opened Ivory

  /** Memory, and the words of it that the stack cache holds instead, from `base` on. */
  datatype Store = Store(memory: seq<Word>, cache: seq<Word>, base: nat) {
    ghost predicate Valid() { |memory| == MEMORY && base < MEMORY && base + |cache| <= MEMORY }

    predicate Cached(a: nat) { base <= a < base + |cache| }
  }

  function Read(s: Store, a: nat): Word
    requires s.Valid() && a < MEMORY
  {
    if s.Cached(a) then s.cache[a - s.base] else s.memory[a]
  }

  function Write(s: Store, a: nat, w: Word): (r: Store)
    requires s.Valid() && a < MEMORY
    ensures r.Valid()
  {
    if s.Cached(a) then s.(cache := s.cache[a - s.base := w]) else s.(memory := s.memory[a := w])
  }

  /** One write after the other. */
  function WriteSteps(s: Store, a: nat, words: seq<Word>): (r: Store)
    requires s.Valid() && a + |words| <= MEMORY
    ensures r.Valid()
    decreases |words|
  {
    if words == [] then s else WriteSteps(Write(s, a, words[0]), a + 1, words[1..])
  }

  function ReadSteps(s: Store, a: nat, n: nat): (r: seq<Word>)
    requires s.Valid() && a + n <= MEMORY
    ensures |r| == n
    decreases n
  {
    if n == 0 then [] else [Read(s, a)] + ReadSteps(s, a + 1, n - 1)
  }

  /** A constant and its increments, as the 32-bit data wrap around. */
  function Counting(w: Word, n: nat, increment: int): (r: seq<Word>)
    ensures |r| == n
    decreases n
  {
    if n == 0 then [] else [w] + Counting(w.(datum := (w.datum + increment) % 0x1_0000_0000), n - 1, increment)
  }

  lemma CountingAt(w: Word, n: nat, increment: int, k: nat)
    requires k < n
    ensures Counting(w, n, increment)[k] == Word(w.tag, Wrapped(w.datum + Times(k, increment)))
    decreases n
  {
    if k > 0 {
      var next := w.(datum := (w.datum + increment) % 0x1_0000_0000);
      CountingAt(next, n - 1, increment, k - 1);
      WrapTwice(w.datum + increment, Times(k - 1, increment));
      TimesNext(k - 1, increment);
    }
  }

  function Times(k: int, n: int): int { k * n }

  function Wrapped(n: int): Datum { n % 0x1_0000_0000 }

  lemma TimesNext(k: nat, n: int)
    ensures Times(k + 1, n) == Times(k, n) + n
  {
  }

  lemma WrapTwice(a: int, b: int)
    ensures Wrapped(Wrapped(a) + b) == Wrapped(a + b)
  {
  }

  // ---------- What word-at-a-time transfers mean ----------

  lemma WriteReads(s: Store, a: nat, w: Word, x: nat)
    requires s.Valid() && a < MEMORY && x < MEMORY
    ensures Read(Write(s, a, w), x) == if x == a then w else Read(s, x)
  {
  }

  /** A block written reads back, and nothing else changes, however the block lies across the stack cache. */
  lemma {:induction false} WriteStepsRead(s: Store, a: nat, words: seq<Word>, x: nat)
    requires s.Valid() && a + |words| <= MEMORY && x < MEMORY
    ensures Read(WriteSteps(s, a, words), x) == if a <= x < a + |words| then words[x - a] else Read(s, x)
    decreases |words|
  {
    if words != [] {
      WriteStepsRead(Write(s, a, words[0]), a + 1, words[1..], x);
      WriteReads(s, a, words[0], x);
    }
  }

  lemma {:induction false} ReadStepsAt(s: Store, a: nat, n: nat, k: nat)
    requires s.Valid() && a + n <= MEMORY && k < n
    ensures ReadSteps(s, a, n)[k] == Read(s, a + k)
    decreases n
  {
    if k > 0 { ReadStepsAt(s, a + 1, n - 1, k - 1); }
  }

  lemma {:induction false} StepsReadBack(s: Store, a: nat, words: seq<Word>)
    requires s.Valid() && a + |words| <= MEMORY
    ensures ReadSteps(WriteSteps(s, a, words), a, |words|) == words
  {
    forall k | 0 <= k < |words| ensures ReadSteps(WriteSteps(s, a, words), a, |words|)[k] == words[k] {
      ReadStepsAt(WriteSteps(s, a, words), a, |words|, k);
      WriteStepsRead(s, a, words, a + k);
    }
  }

  // ---------- The three segments ----------

  /** How many words the first segment takes: those below the cache. The end of the block is computed in 32 bits. */
  function FirstSegment(base: nat, a: nat, n: nat): nat
    requires a < MEMORY
  {
    if a >= base then 0 else if (a + n + 0xFFFF_FFFF) % 0x1_0000_0000 < base then n else base - a
  }

  /** The first segment keeps to the block exactly when this is not an empty block at address 0, below the cache. */
  lemma FirstSegmentExactly(base: nat, a: nat, n: nat)
    requires base < MEMORY && a < MEMORY && a + n <= MEMORY
    ensures FirstSegment(base, a, n) <= n <==> !(n == 0 && a == 0 && 0 < base)
    ensures FirstSegment(base, a, n) <= n ==>
      FirstSegment(base, a, n) == if a + n <= base then n else if a < base then base - a else 0
  {
  }

  /** How many of `n` words a transfer past the cache moves: its end is computed in 32 bits, and it moves none when that
      is the end of memory. */
  function Moved(a: nat, n: nat): (k: nat)
    ensures k <= n
  {
    if a < (a + n) % 0x1_0000_0000 then n else 0
  }

  lemma MovedExactly(a: nat, n: nat)
    requires a + n <= MEMORY
    ensures Moved(a, n) == if a + n < MEMORY then n else 0
  {
  }

  /** How many words of a block come before its part beyond the cache. */
  function Before(s: Store, a: nat, n: nat): (k: nat)
    ensures k <= n
  {
    var top := s.base + |s.cache|;
    if a >= top then 0 else if a + n <= top then n else top - a
  }

  /** The block does not end with words beyond the cache at the end of memory. */
  predicate Complete(s: Store, a: nat, n: nat) { a + n < MEMORY || s.base + |s.cache| == MEMORY }

  // ---------- What the block operations do ----------

  /** A block written in three segments. */
  function WriteBlock(s: Store, a: nat, words: seq<Word>): (r: Store)
    requires s.Valid() && a + |words| <= MEMORY
    ensures r.Valid()
  {
    var k := Before(s, a, |words|);
    WriteSteps(WriteSteps(s, a, words[..k]), a + k, words[k..k + Moved(a + k, |words| - k)])
  }

  /** A block read in three segments into a buffer. */
  function ReadBlock(s: Store, a: nat, n: nat, buffer: seq<Word>): (r: seq<Word>)
    requires s.Valid() && a + n <= MEMORY && n <= |buffer|
    ensures |r| == |buffer|
  {
    var k := Before(s, a, n);
    var done := k + Moved(a + k, n - k);
    ReadSteps(s, a, done) + buffer[done..]
  }

  function Retagged(words: seq<Word>, tag: Tag): (r: seq<Word>)
    ensures |r| == |words|
  {
    seq(|words|, i requires 0 <= i < |words| => Word(tag, words[i].datum))
  }

  /** A counting constant past the cache. The tags are all set, and so are data that are all 0; other data are moved
      like words. */
  function WriteConstant(s: Store, a: nat, w: Word, n: nat, increment: int): (r: Store)
    requires s.Valid() && a + n <= MEMORY
    ensures r.Valid()
  {
    if Moved(a, n) == n || (increment == 0 && w.datum == 0) then WriteSteps(s, a, Counting(w, n, increment))
    else WriteSteps(s, a, Retagged(s.memory[a..a + n], w.tag))
  }

  /** A counting constant in three segments. */
  function WriteConstantBlock(s: Store, a: nat, w: Word, n: nat, increment: int): (r: Store)
    requires s.Valid() && a + n <= MEMORY
    ensures r.Valid()
  {
    var k := Before(s, a, n);
    WriteConstant(WriteSteps(s, a, Counting(w, k, increment)), a + k, Advanced(w, k, increment), n - k, increment)
  }

  /** The constant after `k` increments. */
  function Advanced(w: Word, k: nat, increment: int): Word { w.(datum := Wrapped(w.datum + Times(k, increment))) }

  // ---------- When they transfer all their words ----------

  /** None of `n` words from `a` on is cached. */
  predicate Uncached(s: Store, a: nat, n: nat) { n == 0 || s.cache == [] || a + n <= s.base || s.base + |s.cache| <= a }

  function Splice(m: seq<Word>, a: nat, words: seq<Word>): (r: seq<Word>)
    requires a + |words| <= |m|
    ensures |r| == |m|
  {
    m[..a] + words + m[a + |words|..]
  }

  lemma SpliceExactly(m: seq<Word>, a: nat, u: seq<Word>, v: seq<Word>)
    requires |u| == |v| && a + |u| <= |m|
    ensures Splice(m, a, u) == Splice(m, a, v) <==> u == v
    ensures Splice(m, a, u) == m <==> u == m[a..a + |u|]
  {
    assert Splice(m, a, u)[a..a + |u|] == u && Splice(m, a, v)[a..a + |u|] == v;
    assert Splice(m, a, m[a..a + |u|]) == m;
  }

  lemma SpliceIs(m: seq<Word>, a: nat, words: seq<Word>, r: seq<Word>)
    requires a + |words| <= |m| == |r|
    requires forall x | 0 <= x < |m| :: r[x] == if a <= x < a + |words| then words[x - a] else m[x]
    ensures r == Splice(m, a, words)
  {
  }

  /** Writing past the cache replaces a stretch of memory. */
  lemma {:induction false} WriteStepsUncached(s: Store, a: nat, words: seq<Word>)
    requires s.Valid() && a + |words| <= MEMORY && Uncached(s, a, |words|)
    ensures WriteSteps(s, a, words) == s.(memory := Splice(s.memory, a, words))
    decreases |words|
  {
    if words == [] {
      assert s.memory[..a] + [] + s.memory[a..] == s.memory;
    } else {
      var t := Write(s, a, words[0]);
      WriteStepsUncached(t, a + 1, words[1..]);
      assert t.memory[..a + 1] == s.memory[..a] + [words[0]];
      assert t.memory[a + |words|..] == s.memory[a + |words|..];
      assert s.memory[..a] + [words[0]] + words[1..] == s.memory[..a] + words;
    }
  }

  /** Writing leaves all memory outside the block alone. */
  lemma {:induction false} WriteStepsFrame(s: Store, a: nat, words: seq<Word>, x: nat)
    requires s.Valid() && a + |words| <= x < MEMORY
    ensures var r := WriteSteps(s, a, words);
      r.memory[x] == s.memory[x]
    decreases |words|
  {
    if words != [] { WriteStepsFrame(Write(s, a, words[0]), a + 1, words[1..], x); }
  }

  /** Writing past the cache changes nothing exactly when the words are there already. */
  lemma {:induction false} WriteChangesNothingExactly(s: Store, a: nat, words: seq<Word>)
    requires s.Valid() && a + |words| <= MEMORY && Uncached(s, a, |words|)
    ensures WriteSteps(s, a, words) == s <==> s.memory[a..a + |words|] == words
  {
    hide WriteSteps, Splice;
    WriteStepsUncached(s, a, words);
    SpliceExactly(s.memory, a, words, words);
  }

  /** Where the part beyond the cache starts, and that none of it is cached. */
  lemma BeyondCache(s: Store, a: nat, n: nat)
    requires s.Valid() && a < MEMORY && a + n <= MEMORY
    ensures var k := Before(s, a, n);
      && Uncached(s, a + k, n - k)
      && Moved(a + k, n - k) == (if Complete(s, a, n) then n - k else 0)
      && (Complete(s, a, n) <==> a + n < MEMORY || k == n)
  {
  }

  /** The three segments write what single writes would if and only if the block does not end beyond the cache at the
      end of memory, or that part of it was already there. */
  lemma {:induction false} WriteBlockExactly(s: Store, a: nat, words: seq<Word>)
    requires s.Valid() && a < MEMORY && a + |words| <= MEMORY
    ensures WriteBlock(s, a, words) == WriteSteps(s, a, words) <==>
      Complete(s, a, |words|) || s.memory[a + Before(s, a, |words|)..] == words[Before(s, a, |words|)..]
  {
    hide WriteSteps, Before, Moved;
    var n, k := |words|, Before(s, a, |words|);
    BeyondCache(s, a, n);
    var first, rest := words[..k], words[k..];
    assert first + rest == words;
    WriteStepsAppend(s, a, first, rest);
    var t := WriteSteps(s, a, first);
    if Complete(s, a, n) {
      assert words[k..k + (n - k)] == rest;
    } else {
      StepsShape(s, a, first);
      forall x | a + k <= x < MEMORY ensures t.memory[x] == s.memory[x] { WriteStepsFrame(s, a, first, x); }
      assert t.memory[a + k..] == s.memory[a + k..] == s.memory[a + k..a + n];
      WriteNothing(t, a + k, words[k..k]);
      WriteChangesNothingExactly(t, a + k, rest);
    }
  }

  /** They read what single reads would if and only if the block does not end so, or the buffer held these words. */
  lemma {:induction false} ReadBlockExactly(s: Store, a: nat, n: nat, buffer: seq<Word>)
    requires s.Valid() && a < MEMORY && a + n <= MEMORY && n <= |buffer|
    ensures ReadBlock(s, a, n, buffer) == ReadSteps(s, a, n) + buffer[n..] <==>
      Complete(s, a, n) || forall j | Before(s, a, n) <= j < n :: buffer[j] == Read(s, a + j)
  {
    hide Before, Moved, Read;
    BeyondCache(s, a, n);
    var k, all := Before(s, a, n), ReadSteps(s, a, n) + buffer[n..];
    if !Complete(s, a, n) {
      forall j | 0 <= j < n ensures all[j] == Read(s, a + j) { ReadStepsAt(s, a, n, j); }
      forall j | 0 <= j < k ensures ReadSteps(s, a, k)[j] == Read(s, a + j) { ReadStepsAt(s, a, k, j); }
      assert forall j | k <= j < |buffer| :: ReadBlock(s, a, n, buffer)[j] == buffer[j];
    }
  }

  /** A block written reads back into any buffer if and only if it does not end beyond the cache at the end of memory,
      or the buffer held that part of it: neither operation moves it. */
  lemma {:induction false} BlockReadsBackExactly(s: Store, a: nat, words: seq<Word>, buffer: seq<Word>)
    requires s.Valid() && a < MEMORY && a + |words| <= MEMORY && |buffer| == |words|
    ensures ReadBlock(WriteBlock(s, a, words), a, |words|, buffer) == words <==>
      Complete(s, a, |words|) || buffer[Before(s, a, |words|)..] == words[Before(s, a, |words|)..]
  {
    hide WriteSteps, ReadSteps, Before, Moved;
    var n, k := |words|, Before(s, a, |words|);
    BeyondCache(s, a, n);
    var t := WriteBlock(s, a, words);
    SameShape(s, a, words);
    if Complete(s, a, n) {
      WriteBlockExactly(s, a, words);
      StepsReadBack(s, a, words);
    } else {
      WriteNothing(WriteSteps(s, a, words[..k]), a + k, words[k..k]);
      StepsReadBack(s, a, words[..k]);
      assert words[..k] + words[k..] == words;
      assert ReadBlock(t, a, n, buffer) == words[..k] + buffer[k..];
    }
  }

  lemma {:induction false} SameShape(s: Store, a: nat, words: seq<Word>)
    requires s.Valid() && a < MEMORY && a + |words| <= MEMORY
    ensures var t := WriteBlock(s, a, words);
      Before(t, a, |words|) == Before(s, a, |words|) && Complete(t, a, |words|) == Complete(s, a, |words|)
  {
    var k := Before(s, a, |words|);
    StepsShape(s, a, words[..k]);
    StepsShape(WriteSteps(s, a, words[..k]), a + k, words[k..k + Moved(a + k, |words| - k)]);
  }

  lemma {:induction false} StepsShape(s: Store, a: nat, words: seq<Word>)
    requires s.Valid() && a + |words| <= MEMORY
    ensures var r := WriteSteps(s, a, words); r.base == s.base && |r.cache| == |s.cache|
    decreases |words|
  {
    if words != [] { StepsShape(Write(s, a, words[0]), a + 1, words[1..]); }
  }

  /** A counting constant is written as by single writes if and only if the block does not end so, or it is 0 and stays
      0, or the data of that part were already there: its tags are always set. */
  lemma {:induction false} WriteConstantBlockExactly(s: Store, a: nat, w: Word, n: nat, increment: int)
    requires s.Valid() && a < MEMORY && a + n <= MEMORY
    ensures WriteConstantBlock(s, a, w, n, increment) == WriteSteps(s, a, Counting(w, n, increment)) <==>
      || Complete(s, a, n) || (increment == 0 && w.datum == 0)
      || forall x | a + Before(s, a, n) <= x < MEMORY ::
           s.memory[x].datum == Wrapped(w.datum + Times(x - a, increment))
  {
    hide WriteSteps, Before, Moved, Counting, Wrapped, Times;
    var k := Before(s, a, n);
    BeyondCache(s, a, n);
    CountingSplit(w, n, increment, k);
    var rest := Counting(Advanced(w, k, increment), n - k, increment);
    WriteStepsAppend(s, a, Counting(w, k, increment), rest);
    var t := WriteSteps(s, a, Counting(w, k, increment));
    if increment == 0 && w.datum == 0 { ZeroStays(w, k); }
    if !Complete(s, a, n) && !(increment == 0 && w.datum == 0) {
      AdvancedZero(w, k, increment);
      StepsShape(s, a, Counting(w, k, increment));
      forall x | a + k <= x < MEMORY ensures t.memory[x] == s.memory[x] {
        WriteStepsFrame(s, a, Counting(w, k, increment), x);
      }
      forall i | 0 <= i < n - k ensures rest[i] == Word(w.tag, Wrapped(w.datum + Times(k + i, increment))) {
        CountingAt(w, n, increment, k + i);
        assert Counting(w, n, increment)[k + i] == rest[i];
      }
      RetaggedExactly(t, a + k, rest, w.tag);
      forall x | a + k <= x < MEMORY
        ensures t.memory[x].datum == rest[x - (a + k)].datum <==>
          s.memory[x].datum == Wrapped(w.datum + Times(x - a, increment))
      {
        assert x - a == k + (x - (a + k));
      }
    }
  }

  lemma ZeroStays(w: Word, k: nat)
    requires w.datum == 0
    ensures Advanced(w, k, 0) == w
  {
  }

  lemma AdvancedZero(w: Word, k: nat, increment: int)
    ensures increment == 0 ==> Advanced(w, k, increment) == w
  {
  }

  /** Setting the tags of a stretch past the cache writes its words exactly when their data are there. */
  lemma {:induction false} RetaggedExactly(s: Store, a: nat, words: seq<Word>, tag: Tag)
    requires s.Valid() && a + |words| == MEMORY && Uncached(s, a, |words|)
    requires forall i | 0 <= i < |words| :: words[i].tag == tag
    ensures WriteSteps(s, a, Retagged(s.memory[a..MEMORY], tag)) == WriteSteps(s, a, words) <==>
      forall x | a <= x < MEMORY :: s.memory[x].datum == words[x - a].datum
  {
    hide WriteSteps, Splice, Retagged;
    var m := s.memory[a..MEMORY];
    WriteStepsUncached(s, a, Retagged(m, tag));
    WriteStepsUncached(s, a, words);
    SpliceExactly(s.memory, a, Retagged(m, tag), words);
    RetaggedIs(m, tag, words);
    assert forall x | a <= x < MEMORY :: s.memory[x] == m[x - a];
  }

  lemma RetaggedIs(m: seq<Word>, tag: Tag, words: seq<Word>)
    requires |m| == |words| && forall i | 0 <= i < |words| :: words[i].tag == tag
    ensures Retagged(m, tag) == words <==> forall i | 0 <= i < |m| :: m[i].datum == words[i].datum
  {
    var r := Retagged(m, tag);
    if forall i | 0 <= i < |m| :: m[i].datum == words[i].datum {
      assert forall i | 0 <= i < |m| :: r[i] == words[i];
    } else {
      var i :| 0 <= i < |m| && m[i].datum != words[i].datum;
      assert r[i] != words[i];
    }
  }

  class StackCachedMemory {
    const memory: array<Word>
    const cache: array<Word>
    const base: nat

    ghost function State(): Store
      reads memory, cache
    {
      Store(memory[..], cache[..], base)
    }

    predicate InCache(a: nat) { base <= a < base + cache.Length }

    method WriteOne(a: nat, w: Word)
      requires State().Valid() && a < MEMORY && memory != cache
      modifies memory, cache
      ensures State() == Write(old(State()), a, w)
    {
      if InCache(a) { cache[a - base] := w; } else { memory[a] := w; }
    }

    /** Writes words of a block, from its word `from` on, directly to memory. */
    method VirtualMemoryWriteBlockUncached(a: nat, source: seq<Word>, from: nat, count: nat)
      requires State().Valid() && memory != cache && from + count <= |source| && a + count <= MEMORY
      requires Uncached(State(), a, count)
      modifies memory
      ensures State() == WriteSteps(old(State()), a, source[from..from + Moved(a, count)])
    {
      hide WriteSteps;
      ghost var words := source[from..from + Moved(a, count)];
      var data, edata := a, (a + count) % 0x1_0000_0000;
      assert words[0..] == words;
      while data < edata
        invariant a <= data <= a + |words| && State().Valid()
        invariant WriteSteps(State(), data, words[data - a..]) == WriteSteps(old(State()), a, words)
      {
        ghost var before := State();
        WriteStepsUnfold(before, a, words, data - a);
        memory[data] := source[from + (data - a)];
        assert State() == Write(before, data, words[data - a]);
        data := data + 1;
      }
      WriteNothing(State(), data, words[data - a..]);
    }

    /** Writes a block in three segments: below the stack cache, in it, and beyond it. Fails where the first segment
        would write words that the block does not have. */
    method VirtualMemoryWriteBlock(a: nat, source: seq<Word>) returns (ok: bool)
      requires State().Valid() && memory != cache && a < MEMORY && a + |source| <= MEMORY
      modifies memory, cache
      ensures ok <==> !(source == [] && a == 0 && 0 < base)
      ensures ok ==> State() == WriteBlock(old(State()), a, source)
    {
      hide WriteSteps, Write, Before, FirstSegment, Moved;
      ghost var start := State();
      FirstSegmentExactly(base, a, |source|);
      var i: nat := FirstSegment(base, a, |source|);
      if i > |source| {
        return false;
      }
      FirstMoved(start, a, |source|);
      VirtualMemoryWriteBlockUncached(a, source, 0, i);
      StepsShape(start, a, source[..i]);
      CacheEnds(start, a, |source|, i);
      while InCache(a + i) && i < |source|
        invariant i < |source| && start.Cached(a + i) <==> i < Before(start, a, |source|)
        invariant i <= Before(start, a, |source|) && State().Valid()
        invariant a + i >= base || i == |source|
        invariant State() == WriteSteps(start, a, source[..i])
      {
        WriteStepsMore(start, a, source, i);
        WriteOne(a + i, source[i]);
        i := i + 1;
        CacheEnds(start, a, |source|, i);
      }
      VirtualMemoryWriteBlockUncached(a + i, source, i, |source| - i);
      ok := true;
    }

    /** Sets tags from `a` on. */
    method SetTags(a: nat, tag: Tag, count: nat)
      requires a + count <= memory.Length
      modifies memory
      ensures forall x | 0 <= x < memory.Length ::
        memory[x] == if a <= x < a + count then Word(tag, old(memory[x]).datum) else old(memory[x])
    {
      var i := a;
      while i < a + count
        invariant a <= i <= a + count
        invariant forall x | 0 <= x < memory.Length ::
          memory[x] == if a <= x < i then Word(tag, old(memory[x]).datum) else old(memory[x])
      {
        memory[i] := Word(tag, memory[i].datum);
        i := i + 1;
      }
    }

    /** Sets data from `a` on, counting from `w`, until `edata`. */
    method SetData(a: nat, w: Word, edata: nat, increment: int)
      requires edata <= memory.Length
      modifies memory
      ensures forall x | 0 <= x < memory.Length ::
        memory[x] == if a <= x < edata then Word(old(memory[x]).tag, Advanced(w, x - a, increment).datum)
                     else old(memory[x])
    {
      hide Wrapped, Times;
      CountingStarts(w, increment);
      var data, cdata: Datum := a, w.datum;
      while data < edata
        invariant a <= data && (data <= edata || data == a)
        invariant Advanced(w, data - a, increment).datum == cdata
        invariant forall x | 0 <= x < memory.Length ::
          memory[x] == if a <= x < data then Word(old(memory[x]).tag, Advanced(w, x - a, increment).datum)
                       else old(memory[x])
      {
        AdvancedNext(w, data - a, increment);
        memory[data] := Word(memory[data].tag, cdata);
        data, cdata := data + 1, (cdata + increment) % 0x1_0000_0000;
      }
    }

    /** Writes a counting constant directly to memory: first the tags, then the data. */
    method VirtualMemoryWriteBlockConstantUncached(a: nat, w: Word, count: nat, increment: int)
      requires State().Valid() && memory != cache && a + count <= MEMORY && Uncached(State(), a, count)
      modifies memory
      ensures State() == WriteConstant(old(State()), a, w, count, increment)
    {
      hide WriteSteps, Counting, Wrapped, Times, Advanced, Splice, Moved;
      ghost var m := memory[..];
      MovedExactly(a, count);
      ghost var words, retagged := Counting(w, count, increment), Retagged(memory[a..a + count], w.tag);
      WriteStepsUncached(State(), a, words);
      WriteStepsUncached(State(), a, retagged);
      forall i | 0 <= i < count ensures words[i] == Word(w.tag, Advanced(w, i, increment).datum) {
        CountingIs(w, count, increment, i);
      }
      SetTags(a, w.tag, count);
      SetData(a, w, if increment == 0 && w.datum == 0 then a + count else (a + count) % 0x1_0000_0000, increment);
      if Moved(a, count) == count || (increment == 0 && w.datum == 0) {
        SpliceIs(m, a, words, memory[..]);
      } else {
        SpliceIs(m, a, retagged, memory[..]);
      }
    }

    /** Writes a constant, or with an increment a count, in the same three segments. */
    method VirtualMemoryWriteBlockConstant(a: nat, w: Word, count: nat, increment: int) returns (ok: bool)
      requires State().Valid() && memory != cache && a < MEMORY && a + count <= MEMORY
      modifies memory, cache
      ensures ok <==> !(count == 0 && a == 0 && 0 < base)
      ensures ok ==> State() == WriteConstantBlock(old(State()), a, w, count, increment)
    {
      hide Write, WriteSteps, Counting, Wrapped, Times, Before, FirstSegment, Moved;
      ghost var start := State();
      FirstSegmentExactly(base, a, count);
      var i: nat := FirstSegment(base, a, count);
      if i > count {
        return false;
      }
      FirstMoved(start, a, count);
      VirtualMemoryWriteBlockConstantUncached(a, w, i, increment);
      StepsShape(start, a, Counting(w, i, increment));
      var word := w.(datum := (w.datum + i * increment) % 0x1_0000_0000);
      assert word == Advanced(w, i, increment) by { AdvancedIs(w, i, increment); }
      CacheEnds(start, a, count, i);
      while InCache(a + i) && i < count
        invariant i < count && start.Cached(a + i) <==> i < Before(start, a, count)
        invariant i <= Before(start, a, count) && State().Valid()
        invariant a + i >= base || i == count
        invariant word == Advanced(w, i, increment)
        invariant State() == WriteSteps(start, a, Counting(w, i, increment))
      {
        CountingMore(start, a, w, i, increment);
        AdvancedNext(w, i, increment);
        WriteOne(a + i, word);
        word, i := word.(datum := (word.datum + increment) % 0x1_0000_0000), i + 1;
        CacheEnds(start, a, count, i);
      }
      VirtualMemoryWriteBlockConstantUncached(a + i, word, count - i, increment);
      ok := true;
    }

    /** Reads words directly from memory into a buffer, from its word `from` on. */
    method VirtualMemoryReadBlockUncached(a: nat, target: array<Word>, from: nat, count: nat)
      requires State().Valid() && a + count <= MEMORY && from + count <= target.Length
      requires target != memory && target != cache
      modifies target
      ensures forall j | 0 <= j < target.Length ::
        target[j] == if from <= j < from + Moved(a, count) then memory[a + (j - from)] else old(target[j])
    {
      var data, edata := a, (a + count) % 0x1_0000_0000;
      while data < edata
        invariant a <= data <= a + Moved(a, count)
        invariant forall j | 0 <= j < target.Length ::
          target[j] == if from <= j < from + (data - a) then memory[a + (j - from)] else old(target[j])
      {
        target[from + (data - a)] := memory[data];
        data := data + 1;
      }
    }

    /** Reads a block in three segments into a buffer. Fails where the first one would read more than the block. */
    method VirtualMemoryReadBlock(a: nat, target: array<Word>, count: nat) returns (ok: bool)
      requires State().Valid() && a < MEMORY && a + count <= MEMORY && count <= target.Length
      requires target != memory && target != cache
      modifies target
      ensures ok <==> !(count == 0 && a == 0 && 0 < base)
      ensures ok ==> target[..] == ReadBlock(State(), a, count, old(target[..]))
    {
      hide ReadSteps, Before, FirstSegment, Moved;
      ghost var s, buffer := State(), target[..];
      FirstSegmentExactly(base, a, count);
      var i: nat := FirstSegment(base, a, count);
      if i > count {
        return false;
      }
      FirstMoved(s, a, count);
      VirtualMemoryReadBlockUncached(a, target, 0, i);
      CacheEnds(s, a, count, i);
      while InCache(a + i) && i < count
        invariant i < count && s.Cached(a + i) <==> i < Before(s, a, count)
        invariant i <= Before(s, a, count)
        invariant a + i >= base || i == count
        invariant forall j | 0 <= j < target.Length :: target[j] == if j < i then Read(s, a + j) else buffer[j]
      {
        target[i] := cache[a + i - base];
        i := i + 1;
        CacheEnds(s, a, count, i);
      }
      ghost var k := i;
      assert k == Before(s, a, count);
      VirtualMemoryReadBlockUncached(a + i, target, i, count - i);
      ReadBlockIs(s, a, count, buffer, target[..]);
      ok := true;
    }
  }

  /** The cached segment goes on while it has not reached its end. */
  lemma CacheEnds(s: Store, a: nat, n: nat, i: nat)
    requires s.Valid() && a < MEMORY && a + n <= MEMORY && i <= Before(s, a, n) && (a + i >= s.base || i == n)
    ensures i < n && s.Cached(a + i) <==> i < Before(s, a, n)
  {
  }

  lemma CountingIs(w: Word, n: nat, increment: int, k: nat)
    requires k < n
    ensures Counting(w, n, increment)[k] == Word(w.tag, Advanced(w, k, increment).datum)
  {
    CountingAt(w, n, increment, k);
  }

  lemma ReadBlockIs(s: Store, a: nat, n: nat, buffer: seq<Word>, result: seq<Word>)
    requires s.Valid() && a < MEMORY && a + n <= MEMORY && n <= |buffer| == |result|
    requires var k := Before(s, a, n);
      forall j | 0 <= j < |result| ::
        result[j] == if j < k + Moved(a + k, n - k) then Read(s, a + j) else buffer[j]
    ensures result == ReadBlock(s, a, n, buffer)
  {
    hide ReadSteps, Before, Moved, Read;
    var k := Before(s, a, n);
    var done := k + Moved(a + k, n - k);
    forall j | 0 <= j < done ensures result[j] == ReadBlock(s, a, n, buffer)[j] { ReadStepsAt(s, a, done, j); }
  }

  /** The first segment moves all its words, and they are below the cache. */
  lemma FirstMoved(s: Store, a: nat, n: nat)
    requires s.Valid() && a < MEMORY && a + n <= MEMORY && FirstSegment(s.base, a, n) <= n
    ensures var i := FirstSegment(s.base, a, n);
      && Moved(a, i) == i && Uncached(s, a, i) && i <= Before(s, a, n) && (a + i >= s.base || i == n)
  {
  }

  lemma {:induction false} WriteStepsMore(s: Store, a: nat, words: seq<Word>, i: nat)
    requires s.Valid() && i < |words| && a + |words| <= MEMORY
    ensures WriteSteps(s, a, words[..i + 1]) == Write(WriteSteps(s, a, words[..i]), a + i, words[i])
  {
    hide Write;
    assert words[..i + 1] == words[..i] + [words[i]];
    WriteStepsAppend(s, a, words[..i], [words[i]]);
    var t := WriteSteps(s, a, words[..i]);
    assert WriteSteps(t, a + i, [words[i]]) == WriteSteps(Write(t, a + i, words[i]), a + i + 1, []);
  }

  lemma {:induction false} CountingMore(s: Store, a: nat, w: Word, i: nat, increment: int)
    requires s.Valid() && a + i < MEMORY
    ensures WriteSteps(s, a, Counting(w, i + 1, increment)) ==
      Write(WriteSteps(s, a, Counting(w, i, increment)), a + i, Advanced(w, i, increment))
  {
    hide Write, WriteSteps, Counting, Wrapped, Times;
    CountingSplit(w, i + 1, increment, i);
    CountingOne(Advanced(w, i, increment), increment);
    var words := Counting(w, i + 1, increment);
    assert words[..i] == Counting(w, i, increment) && words[i] == Advanced(w, i, increment) && words[..i + 1] == words;
    WriteStepsMore(s, a, words, i);
  }

  lemma CountingOne(w: Word, increment: int)
    ensures Counting(w, 1, increment) == [w]
  {
    assert Counting(w.(datum := (w.datum + increment) % 0x1_0000_0000), 0, increment) == [];
  }

  lemma CountingStarts(w: Word, increment: int)
    ensures Advanced(w, 0, increment) == w
  {
  }

  lemma AdvancedIs(w: Word, k: nat, increment: int)
    ensures Advanced(w, k, increment) == w.(datum := (w.datum + k * increment) % 0x1_0000_0000)
  {
  }

  lemma AdvancedNext(w: Word, k: nat, increment: int)
    ensures var v := Advanced(w, k, increment);
      Advanced(w, k + 1, increment) == v.(datum := (v.datum + increment) % 0x1_0000_0000)
  {
    TimesNext(k, increment);
    WrapTwice(w.datum + Times(k, increment), increment);
  }

  /** A count goes on from where its first part ends. */
  lemma {:induction false} CountingSplit(w: Word, n: nat, increment: int, k: nat)
    requires k <= n
    ensures Counting(w, n, increment) ==
      Counting(w, k, increment) + Counting(w.(datum := Wrapped(w.datum + Times(k, increment))), n - k, increment)
  {
    var rest := w.(datum := Wrapped(w.datum + Times(k, increment)));
    forall i | 0 <= i < n
      ensures Counting(w, n, increment)[i] == (Counting(w, k, increment) + Counting(rest, n - k, increment))[i]
    {
      CountingAt(w, n, increment, i);
      if i < k {
        CountingAt(w, k, increment, i);
      } else {
        CountingAt(rest, n - k, increment, i - k);
        WrapTwice(w.datum + Times(k, increment), Times(i - k, increment));
        TimesSum(k, i - k, increment);
      }
    }
  }

  lemma TimesSum(a: nat, b: nat, n: int)
    ensures Times(a + b, n) == Times(a, n) + Times(b, n)
  {
  }

  lemma {:induction false} WriteStepsAppend(s: Store, a: nat, first: seq<Word>, more: seq<Word>)
    requires s.Valid() && a + |first| + |more| <= MEMORY
    ensures WriteSteps(s, a, first + more) == WriteSteps(WriteSteps(s, a, first), a + |first|, more)
    decreases |first|
  {
    hide Write;
    if first == [] {
      assert first + more == more;
    } else {
      assert (first + more)[1..] == first[1..] + more;
      WriteStepsAppend(Write(s, a, first[0]), a + 1, first[1..], more);
    }
  }

  lemma WriteStepsUnfold(s: Store, a: nat, words: seq<Word>, i: nat)
    requires s.Valid() && i < |words| && a + |words| <= MEMORY
    ensures WriteSteps(s, a + i, words[i..]) == WriteSteps(Write(s, a + i, words[i]), a + i + 1, words[i + 1..])
  {
    hide Write;
    assert words[i..][1..] == words[i + 1..];
  }

  lemma WriteNothing(s: Store, a: nat, words: seq<Word>)
    requires s.Valid() && a <= MEMORY && words == []
    ensures WriteSteps(s, a, words) == s
  {
  }
}
