/** Scrolling the stack cache over the stack in memory. */
module StackScroll {
  import opened TaggedMemory
  import opened Ivory
  import opened CallStack
  import opened ApplyArguments

  const SCROLL := 256

  /** The stack cache holds the words of memory from `base` on. */
  datatype Cached = Cached(stack: seq<Word>, base: nat, memory: seq<Word>) {
    ghost predicate Valid() { |stack| == WINDOW && |memory| == MEMORY && base + WINDOW <= MEMORY }

    /** The word of an address, wherever it is kept. */
    function WordAt(a: nat): Word
      requires Valid() && a < MEMORY
    {
      if base <= a < base + WINDOW then stack[a - base] else memory[a]
    }
  }

  /** The place in the last page that corresponds to a place in any. */
  function LastPage(k: nat): (l: nat)
    requires k < WINDOW
    ensures 768 <= l < WINDOW
  {
    if k < 256 then k + 768 else if k < 512 then k + 512 else if k < 768 then k + 256 else k
  }

  /** The lowest page goes to memory, and the cache moves up by a page. The pages are copied down from the last one on,
      so that the last one ends up in all of them. */
  function ScrollUp(c: Cached): (r: Cached)
    requires c.Valid() && c.base + WINDOW + SCROLL <= MEMORY
    ensures r.Valid()
  {
    Cached(seq(WINDOW, k requires 0 <= k < WINDOW => c.stack[LastPage(k)]),
           c.base + SCROLL, c.memory[..c.base] + c.stack[..SCROLL] + c.memory[c.base + SCROLL..])
  }

  /** The cache moves down by a page, which comes from memory; the highest page is lost. */
  function ScrollDown(c: Cached): (r: Cached)
    requires c.Valid() && SCROLL <= c.base
    ensures r.Valid()
  {
    Cached(c.memory[c.base - SCROLL..c.base] + c.stack[..768], c.base - SCROLL, c.memory)
  }

  /** The second, third and fourth page are the same. */
  ghost predicate Coincide(stack: seq<Word>)
    requires |stack| == WINDOW
  {
    forall k | 256 <= k < 768 :: stack[k] == stack[LastPage(k)]
  }

  /** The stack, up to a pointer on its last page, survives scrolling up if and only if the pages that are copied over
      one another are the same. */
  lemma {:induction false} ScrollUpKeepsExactly(c: Cached, sp: nat)
    requires c.Valid() && c.base + WINDOW + SCROLL <= MEMORY && 767 <= sp < WINDOW
    ensures (forall a: nat | a <= c.base + sp :: ScrollUp(c).WordAt(a) == c.WordAt(a)) <==> Coincide(c.stack)
  {
    var r := ScrollUp(c);
    if Coincide(c.stack) {
      forall a: nat | a <= c.base + sp ensures r.WordAt(a) == c.WordAt(a) {
        if c.base + 256 <= a {
          var k := a - r.base;
          assert r.WordAt(a) == c.stack[LastPage(k)] && c.WordAt(a) == c.stack[k + 256];
          assert LastPage(k + 256) == LastPage(k);
        }
      }
    } else {
      var k :| 256 <= k < 768 && c.stack[k] != c.stack[LastPage(k)];
      assert r.WordAt(c.base + k) != c.WordAt(c.base + k);
    }
  }

  /** Scrolling down keeps all words below the highest page, and those of that page exactly when memory holds them. */
  lemma {:induction false} ScrollDownKeepsExactly(c: Cached)
    requires c.Valid() && SCROLL <= c.base
    ensures forall a: nat | a < c.base + 768 :: ScrollDown(c).WordAt(a) == c.WordAt(a)
    ensures (forall a: nat | a < c.base + WINDOW :: ScrollDown(c).WordAt(a) == c.WordAt(a)) <==>
      c.memory[c.base + 768..c.base + WINDOW] == c.stack[768..]
  {
    var r := ScrollDown(c);
    var saved, top := c.memory[c.base + 768..c.base + WINDOW], c.stack[768..];
    if saved == top {
      forall a: nat | c.base + 768 <= a < c.base + WINDOW ensures r.WordAt(a) == c.WordAt(a) {
        assert saved[a - c.base - 768] == top[a - c.base - 768];
      }
    } else {
      var i :| 0 <= i < 256 && saved[i] != top[i];
      assert r.WordAt(c.base + 768 + i) != c.WordAt(c.base + 768 + i);
    }
  }

  /** Scrolling up and down again gives the cache back exactly when the pages are the same. */
  lemma {:induction false} UpThenDownExactly(c: Cached)
    requires c.Valid() && c.base + WINDOW + SCROLL <= MEMORY
    ensures ScrollDown(ScrollUp(c)).base == c.base
    ensures ScrollDown(ScrollUp(c)).stack == c.stack <==> Coincide(c.stack)
  {
    var u := ScrollUp(c);
    var d := ScrollDown(u);
    assert u.memory[c.base..c.base + SCROLL] == c.stack[..SCROLL];
    forall k | 0 <= k < WINDOW ensures d.stack[k] == if k < 256 then c.stack[k] else c.stack[LastPage(k)] {
    }
    if Coincide(c.stack) {
      assert d.stack == c.stack;
    }
  }

  /** A pull that comes to the limit scrolls: the frame and the arguments pulled so far survive it if and only if the
      pages are the same. */
  lemma FullPullExactly(m: Machine, base: Datum, r: nat, left: nat, memory: seq<Word>)
    requires Room(m, base) && r <= WINDOW && Pull(m, base, r, left).Full?
    requires |memory| == MEMORY && base + WINDOW + SCROLL <= MEMORY
    ensures var machine := Pull(m, base, r, left).machine;
      |machine.stack| == WINDOW && machine.sp < WINDOW &&
      var c := Cached(machine.stack, base, memory);
      (forall a: nat | a <= base + machine.sp :: ScrollUp(c).WordAt(a) == c.WordAt(a)) <==> Coincide(machine.stack)
  {
    FullIsHigh(m, base, r, left);
    var machine := Pull(m, base, r, left).machine;
    ScrollUpKeepsExactly(Cached(machine.stack, base, memory), machine.sp);
  }

  lemma {:induction false} FullIsHigh(m: Machine, base: Datum, r: nat, left: nat)
    requires Room(m, base) && r <= WINDOW && Pull(m, base, r, left).Full?
    ensures var machine := Pull(m, base, r, left).machine; |machine.stack| == WINDOW && LIMIT <= machine.sp < WINDOW
    decreases left
  {
    if m.sp < LIMIT { FullIsHigh(Accept(m, m.stack[r]), base, r + 1, left - 1); }
  }

  class StackCache {
    const stackCache: array<Word>
    const memory: array<Word>
    var base: nat
    var fp: int
    var sp: int
    var lp: int

    ghost function State(): Cached
      reads this, stackCache, memory
    {
      Cached(stackCache[..], base, memory[..])
    }

    /** Copies a page of the cache. */
    method CopyPage(to: nat, from: nat)
      requires stackCache.Length == WINDOW && to < 4 && from < 4 && to != from
      modifies stackCache
      ensures forall k | to * 256 <= k < to * 256 + 256 :: stackCache[k] == old(stackCache[k + (from - to) * 256])
      ensures forall k | 0 <= k < WINDOW && !(to * 256 <= k < to * 256 + 256) :: stackCache[k] == old(stackCache[k])
    {
      forall k | 0 <= k < 256 { stackCache[to * 256 + k] := stackCache[from * 256 + k]; }
    }

    /** Copies each page but the first over the one below, the last page first. */
    method CopyDown()
      requires stackCache.Length == WINDOW
      modifies stackCache
      ensures forall k | 0 <= k < WINDOW :: stackCache[k] == old(stackCache[LastPage(k)])
    {
      var i := 3;
      while i > 0
        invariant 0 <= i <= 3
        invariant forall k | 0 <= k < WINDOW ::
          stackCache[k] == old(stackCache[if i * 256 <= k then LastPage(k) else k])
      {
        i := i - 1;
        CopyPage(i, i + 1);
      }
    }

    /** Copies each page but the last over the one above, the last of them first. */
    method CopyUp()
      requires stackCache.Length == WINDOW
      modifies stackCache
      ensures forall k | 0 <= k < WINDOW :: stackCache[k] == old(stackCache[if k < 256 then k else k - 256])
    {
      var i := 3;
      while i > 0
        invariant 0 <= i <= 3
        invariant forall k | i * 256 + 256 <= k < WINDOW :: stackCache[k] == old(stackCache[k - 256])
        invariant forall k | 0 <= k < i * 256 + 256 :: stackCache[k] == old(stackCache[k])
      {
        i := i - 1;
        CopyPage(i + 1, i);
      }
    }

    method StackCacheScrollUp()
      requires State().Valid() && stackCache != memory && base + WINDOW + SCROLL <= MEMORY
      modifies this, stackCache, memory
      ensures State() == ScrollUp(old(State()))
      ensures fp == old(fp) - SCROLL && sp == old(sp) - SCROLL && lp == old(lp) - SCROLL
    {
      forall k | 0 <= k < SCROLL { memory[base + k] := stackCache[k]; }
      assert memory[..] == old(memory[..base] + stackCache[..SCROLL] + memory[base + SCROLL..]);
      CopyDown();
      fp, sp, lp, base := fp - SCROLL, sp - SCROLL, lp - SCROLL, base + SCROLL;
    }

    method StackCacheScrollDown()
      requires State().Valid() && stackCache != memory && SCROLL <= base
      modifies this, stackCache
      ensures State() == ScrollDown(old(State()))
      ensures fp == old(fp) + SCROLL && sp == old(sp) + SCROLL && lp == old(lp) + SCROLL
    {
      CopyUp();
      fp, sp, lp, base := fp + SCROLL, sp + SCROLL, lp + SCROLL, base - SCROLL;
      forall k | 0 <= k < SCROLL { stackCache[k] := memory[base + k]; }
    }
  }
}
