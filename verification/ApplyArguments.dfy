/** Spreading the list of an apply call: its elements become arguments, as far as they are in the stack cache. */
module ApplyArguments {
  import opened TaggedMemory
  import opened Ivory
  import opened ControlWord
  import opened CallStack

  // ---------- Cdr-coded lists in the stack cache ----------

  /** What follows the elements seen: possibly more, nothing, a tail that is not in the cache, or a bad cdr code. */
  datatype End = More | Proper | Tail(word: Word) | Bad

  /** A list seen to some depth. */
  datatype View = View(items: seq<Word>, end: End) {
    function After(before: seq<Word>): View { View(before + items, end) }
  }

  predicate IsNil(w: Word) { TagType(w.tag) == TYPE_NIL }

  /** A list whose first cell is in the stack cache. */
  predicate InCache(base: Datum, w: Word) { TagType(w.tag) == TYPE_LIST && base <= w.datum < base + WINDOW }

  /** Up to `n` elements of the list whose first cell is `r`. Cdr code 0 means that the next cell follows, 1 that the
      list ends, 2 that the next word holds the tail. */
  function Cells(stack: seq<Word>, base: Datum, r: nat, n: nat): View
    requires |stack| == WINDOW
    decreases n, 0
  {
    if n == 0 then View([], More)
    else if r >= WINDOW then View([], Bad)
    else
      var item, cdr := CdrNext(stack[r]), TagCdr(stack[r].tag);
      if cdr == 0 then Cells(stack, base, r + 1, n - 1).After([item])
      else if cdr == 1 then View([item], Proper)
      else if cdr == 2 && r + 1 < WINDOW then ListAt(stack, base, stack[r + 1], n - 1).After([item])
      else View([], Bad)
  }

  /** Up to `n` elements of the list that a word denotes. */
  function ListAt(stack: seq<Word>, base: Datum, w: Word, n: nat): View
    requires |stack| == WINDOW
    decreases n, 1
  {
    if IsNil(w) then View([], Proper)
    else if InCache(base, w) then Cells(stack, base, w.datum - base, n)
    else View([], Tail(CdrNext(w)))
  }

  /** The first `n` cells of the list at `r`, and their tails, are all below `limit`. */
  predicate Below(stack: seq<Word>, base: Datum, r: nat, limit: nat, n: nat)
    requires |stack| == WINDOW && limit <= WINDOW
    decreases n
  {
    n > 0 ==>
      r < limit &&
      (TagCdr(stack[r].tag) == 0 ==> Below(stack, base, r + 1, limit, n - 1)) &&
      (TagCdr(stack[r].tag) == 2 ==>
         r + 1 < limit &&
         (!IsNil(stack[r + 1]) && InCache(base, stack[r + 1]) ==>
            Below(stack, base, stack[r + 1].datum - base, limit, n - 1)))
  }

  /** Within `n` cells the list has a tail that is in the stack cache. */
  predicate Rejoins(stack: seq<Word>, base: Datum, r: nat, n: nat)
    requires |stack| == WINDOW
    decreases n
  {
    n > 0 && r < WINDOW &&
    (if TagCdr(stack[r].tag) == 0 then Rejoins(stack, base, r + 1, n - 1)
     else TagCdr(stack[r].tag) == 2 && r + 1 < WINDOW && InCache(base, stack[r + 1]))
  }

  /** Lists below a limit are unchanged by pushes above it. */
  lemma {:induction false} CellsFrame(stack: seq<Word>, after: seq<Word>, base: Datum, r: nat, limit: nat, n: nat)
    requires |stack| == |after| == WINDOW && limit <= WINDOW && stack[..limit] == after[..limit]
    requires Below(stack, base, r, limit, n)
    ensures Cells(stack, base, r, n) == Cells(after, base, r, n) && Below(after, base, r, limit, n)
    ensures Rejoins(stack, base, r, n) == Rejoins(after, base, r, n)
    decreases n
  {
    if n > 0 {
      assert stack[r] == stack[..limit][r] == after[r];
      if TagCdr(stack[r].tag) == 0 {
        CellsFrame(stack, after, base, r + 1, limit, n - 1);
      } else if TagCdr(stack[r].tag) == 2 {
        var t := stack[r + 1];
        assert t == stack[..limit][r + 1] == after[r + 1];
        if !IsNil(t) && InCache(base, t) { CellsFrame(stack, after, base, t.datum - base, limit, n - 1); }
      }
    }
  }

  // ---------- Pulling arguments ----------

  /** One more argument, counted by `lp` and, in eight bits, by the argument size. */
  function CountOne(m: Machine): Machine {
    m.(lp := m.lp + 1, control := m.control.(argumentSize := (m.control.argumentSize + 1) % 256))
  }

  /** An argument, pushed and counted. */
  function Accept(m: Machine, w: Word): Machine
    requires m.sp + 1 < |m.stack|
  {
    CountOne(Push(m, CdrNext(w)))
  }

  function WithApply(m: Machine, apply: bool): Machine { m.(control := m.control.(apply := apply)) }

  function PushRest(m: Machine, base: Datum, r: nat): Machine
    requires m.sp + 1 < |m.stack| && r <= WINDOW && base + WINDOW < MEMORY
  {
    Push(m, Word(TYPE_LIST, base + r))
  }

  /** There is a word to push to, and the stack cache does not reach around the end of memory. */
  ghost predicate Room(m: Machine, base: Datum) {
    |m.stack| == WINDOW && m.sp + 1 < WINDOW && base + WINDOW < MEMORY
  }

  /** A pull is done, with some arguments still wanted, or it has come to where the stack cache has to scroll, with the
      cell `rest` next and `left` arguments still to pull. */
  datatype Pulled = Done(machine: Machine, wanted: nat) | Full(machine: Machine, rest: nat, left: nat)

  /** Pulls up to `left` arguments from the cells at `r`. A tail that is in the cache is treated like a bad cdr code,
      after its element was pushed but before it was counted. */
  function Pull(m: Machine, base: Datum, r: nat, left: nat): Pulled
    requires Room(m, base) && r <= WINDOW
    decreases left
  {
    if left == 0 then Done(PushRest(m, base, r), 0)
    else if m.sp >= LIMIT then Full(m, r, left)
    else if r == WINDOW then Done(PushRest(m, base, r), left)
    else
      var w := m.stack[r];
      var a := Accept(m, w);
      var done := WithApply(a, false);
      if TagCdr(w.tag) == 0 then Pull(a, base, r + 1, left - 1)
      else if TagCdr(w.tag) == 1 then Done(done, 0)
      else if TagCdr(w.tag) == 2 && r + 1 < WINDOW then
        var tail := a.stack[r + 1];
        if IsNil(tail) then Done(done, 0)
        else if InCache(base, tail) then Done(PushRest(Push(m, CdrNext(w)), base, tail.datum - base), left)
        else Done(Push(a, CdrNext(tail)), left - 1)
      else Done(PushRest(m, base, r), left)
  }

  /** The first step of a pull. */
  lemma PullUnfolds(m: Machine, base: Datum, r: nat, left: nat)
    requires Room(m, base) && r < WINDOW && left > 0 && m.sp < LIMIT
    ensures var w := m.stack[r];
      var a := Accept(m, w);
      && (TagCdr(w.tag) == 0 ==> Pull(m, base, r, left) == Pull(a, base, r + 1, left - 1))
      && (TagCdr(w.tag) == 1 ==> Pull(m, base, r, left) == Done(WithApply(a, false), 0))
      && (TagCdr(w.tag) == 2 && r + 1 < WINDOW ==>
            var tail := a.stack[r + 1];
            Pull(m, base, r, left) ==
            if IsNil(tail) then Done(WithApply(a, false), 0)
            else if InCache(base, tail) then Done(PushRest(Push(m, CdrNext(w)), base, tail.datum - base), left)
            else Done(Push(a, CdrNext(tail)), left - 1))
  {
  }

  /** No element can be pulled from here. */
  predicate NoCell(stack: seq<Word>, r: nat)
    requires |stack| == WINDOW && r <= WINDOW
  {
    r == WINDOW || TagCdr(stack[r].tag) == 3 || (TagCdr(stack[r].tag) == 2 && r + 1 == WINDOW)
  }

  lemma PullStops(m: Machine, base: Datum, r: nat, left: nat)
    requires Room(m, base) && r <= WINDOW
    ensures left == 0 ==> Pull(m, base, r, left) == Done(PushRest(m, base, r), 0)
    ensures left > 0 && m.sp >= LIMIT ==> Pull(m, base, r, left) == Full(m, r, left)
    ensures left > 0 && m.sp < LIMIT && NoCell(m.stack, r) ==>
      Pull(m, base, r, left) == Done(PushRest(m, base, r), left)
  {
  }

  lemma AcceptPushes(m: Machine, w: Word)
    requires m.sp + 1 < |m.stack|
    ensures var p := Push(m, CdrNext(w));
      p.control == m.control && p.sp == m.sp + 1 && |p.stack| == |m.stack| && Accept(m, w) == CountOne(p)
  {
  }

  /** The apply list is on top of the stack, and starts in the stack cache. */
  ghost predicate Applying(m: Machine, base: Datum) {
    && |m.stack| == WINDOW && 0 < m.sp < WINDOW && base + WINDOW < MEMORY
    && m.lp == m.sp && m.control.apply && InCache(base, m.stack[m.sp])
  }

  function PullApplyArgs(m: Machine, base: Datum, count: nat): Pulled
    requires Applying(m, base)
  {
    Pull(m.(sp := m.sp - 1), base, m.stack[m.sp].datum - base, count)
  }

  /** The machine after `items` have become arguments. */
  ghost predicate Extends(m: Machine, items: seq<Word>, after: Machine) {
    var k := |items|;
    && |after.stack| == |m.stack| == WINDOW && m.lp + k < WINDOW
    && after.stack[..m.lp + k] == m.stack[..m.lp] + items && after.lp == m.lp + k
    && after.control.(apply := m.control.apply) ==
         m.control.(argumentSize := (m.control.argumentSize + k) % 256)
    && after.fp == m.fp && after.continuation == m.continuation && after.pc == m.pc
  }

  /** The arguments are spread: the first `count` elements, or all, have become arguments; the apply bit is cleared
      exactly when the list has ended; otherwise a list remains on top of the stack, just past the arguments. */
  ghost predicate Spreads(m: Machine, seen: View, count: nat, after: Machine, wanted: nat) {
    var k := |seen.items|;
    && k <= count && Extends(m, seen.items, after)
    && after.sp == m.lp + k - B(seen.end == Proper) && after.control.apply == (seen.end != Proper)
    && wanted == (if seen.end == Proper then 0 else count - k)
  }

  lemma ExtendsOneMore(m: Machine, w: Word, items: seq<Word>, after: Machine)
    requires |m.stack| == WINDOW && m.sp + 1 < WINDOW && m.lp == m.sp + 1 && Extends(Accept(m, w), items, after)
    ensures Extends(m, [CdrNext(w)] + items, after)
  {
    var a := Accept(m, w);
    assert a.stack[..a.lp] == m.stack[..m.lp] + [CdrNext(w)];
    assert m.stack[..m.lp] + ([CdrNext(w)] + items) == a.stack[..a.lp] + items;
  }

  lemma SpreadsOneMore(m: Machine, w: Word, seen: View, left: nat, after: Machine, wanted: nat)
    requires |m.stack| == WINDOW && m.sp + 1 < WINDOW && m.lp == m.sp + 1
    requires Spreads(Accept(m, w), seen, left, after, wanted)
    ensures Spreads(m, seen.After([CdrNext(w)]), left + 1, after, wanted)
  {
    hide Extends;
    ExtendsOneMore(m, w, seen.items, after);
  }

  /** Stopping here leaves a list on top of the stack. */
  lemma StopSpreads(m: Machine, rest: Word, end: End, left: nat)
    requires |m.stack| == WINDOW && m.sp + 1 < WINDOW && m.lp == m.sp + 1 && m.control.apply && end != Proper
    ensures Spreads(m, View([], end), left, Push(m, rest), left)
  {
    assert m.stack[..m.lp] + [] == Push(m, rest).stack[..m.lp];
  }

  /** The last element ends the apply. */
  lemma DoneSpreads(m: Machine, w: Word, left: nat)
    requires |m.stack| == WINDOW && m.sp + 2 < WINDOW && m.lp == m.sp + 1 && left > 0
    ensures var a := Accept(m, w);
      Spreads(m, View([CdrNext(w)], Proper), left, a.(control := a.control.(apply := false)), 0)
  {
    assert Accept(m, w).stack[..m.lp + 1] == m.stack[..m.lp] + [CdrNext(w)];
  }

  /** The end of the loop when a cell does not name a next one in the cache. */
  lemma {:induction false} LastPull(m: Machine, base: Datum, r: nat, left: nat)
    requires Room(m, base) && m.control.apply && m.lp == m.sp + 1 && r < WINDOW
    requires left > 0 ==> TagCdr(m.stack[r].tag) != 0 && !Rejoins(m.stack, base, r, left)
    requires left > 0 && TagCdr(m.stack[r].tag) == 2 ==> r + 1 < m.lp
    ensures var p := Pull(m, base, r, left);
      p.Done? ==> Spreads(m, Cells(m.stack, base, r, left), left, p.machine, p.wanted)
  {
    hide Spreads;
    if left > 0 && m.sp >= LIMIT {
      return;
    }
    var w := m.stack[r];
    if left == 0 {
      StopSpreads(m, Word(TYPE_LIST, base + r), More, 0);
    } else if TagCdr(w.tag) == 2 {
      var tail := m.stack[r + 1];
      assert Accept(m, w).stack[r + 1] == tail;
      if IsNil(tail) {
        DoneSpreads(m, w, left);
        assert [CdrNext(w)] + [] == [CdrNext(w)];
      } else {
        StopSpreads(Accept(m, w), CdrNext(tail), Tail(CdrNext(tail)), left - 1);
        SpreadsOneMore(m, w, View([], Tail(CdrNext(tail))), left - 1, Push(Accept(m, w), CdrNext(tail)), left - 1);
      }
    } else if TagCdr(w.tag) == 1 {
      DoneSpreads(m, w, left);
    } else {
      StopSpreads(m, Word(TYPE_LIST, base + r), Bad, left);
    }
  }

  /** The loop, from any cell and for any number of arguments. */
  lemma {:induction false} PullSpreads(m: Machine, base: Datum, r: nat, limit: nat, left: nat)
    requires Room(m, base) && m.control.apply && m.lp == m.sp + 1 && r < WINDOW && limit <= m.lp
    requires Below(m.stack, base, r, limit, left) && !Rejoins(m.stack, base, r, left)
    ensures var p := Pull(m, base, r, left);
      p.Done? ==> Spreads(m, Cells(m.stack, base, r, left), left, p.machine, p.wanted)
    decreases left
  {
    if left > 0 && m.sp >= LIMIT {
      return;
    }
    if left > 0 && TagCdr(m.stack[r].tag) == 0 {
      hide Spreads;
      var w := m.stack[r];
      var a := Accept(m, w);
      assert a.stack[..limit] == m.stack[..limit];
      CellsFrame(m.stack, a.stack, base, r + 1, limit, left - 1);
      PullSpreads(a, base, r + 1, limit, left - 1);
      var p := Pull(a, base, r + 1, left - 1);
      if p.Done? { SpreadsOneMore(m, w, Cells(a.stack, base, r + 1, left - 1), left - 1, p.machine, p.wanted); }
    } else {
      LastPull(m, base, r, left);
    }
  }

  // ---------- What the pull keeps, and where it fails ----------

  lemma {:induction false} BelowLess(stack: seq<Word>, base: Datum, r: nat, limit: nat, n: nat, more: nat)
    requires |stack| == WINDOW && limit <= WINDOW && Below(stack, base, r, limit, more) && n <= more
    ensures Below(stack, base, r, limit, n)
    decreases n
  {
    if n > 0 {
      var w := stack[r];
      if TagCdr(w.tag) == 0 {
        BelowLess(stack, base, r + 1, limit, n - 1, more - 1);
      } else if TagCdr(w.tag) == 2 && !IsNil(stack[r + 1]) && InCache(base, stack[r + 1]) {
        BelowLess(stack, base, stack[r + 1].datum - base, limit, n - 1, more - 1);
      }
    }
  }

  /** `rest` is the list that follows `items` in the list at `r`, seen `n` elements further. */
  predicate Follows(stack: seq<Word>, base: Datum, r: nat, items: seq<Word>, rest: Word, limit: nat, n: nat)
    requires |stack| == WINDOW && limit <= WINDOW
  {
    && Cells(stack, base, r, |items| + n) == ListAt(stack, base, rest, n).After(items)
    && (InCache(base, rest) ==> Below(stack, base, rest.datum - base, limit, n))
  }

  lemma {:induction false} LastRest(m: Machine, base: Datum, r: nat, limit: nat, left: nat, n: nat)
    requires Room(m, base) && m.lp == m.sp + 1 && r < WINDOW && limit <= m.lp
    requires Below(m.stack, base, r, limit, left + n) && !Rejoins(m.stack, base, r, left)
    requires left == 0 || TagCdr(m.stack[r].tag) != 0
    requires Cells(m.stack, base, r, left).end != Proper
    ensures var p := Pull(m, base, r, left);
      p.Done? ==>
        p.machine.sp < |p.machine.stack| &&
        Follows(m.stack, base, r, Cells(m.stack, base, r, left).items, p.machine.stack[p.machine.sp], limit, n)
  {
    if left > 0 && m.sp >= LIMIT {
      return;
    }
    var w := m.stack[r];
    if left == 0 || TagCdr(w.tag) == 3 {
      BelowLess(m.stack, base, r, limit, n, left + n);
      EmptyPrefix(m.stack, base, Word(TYPE_LIST, base + r), n);
    } else {
      assert Accept(m, w).stack[r + 1] == m.stack[r + 1];
      assert [CdrNext(w)] + [] == [CdrNext(w)];
    }
  }

  lemma {:induction false} RestFollows(m: Machine, base: Datum, r: nat, limit: nat, left: nat, n: nat)
    requires Room(m, base) && m.control.apply && m.lp == m.sp + 1 && r < WINDOW && limit <= m.lp
    requires Below(m.stack, base, r, limit, left + n) && !Rejoins(m.stack, base, r, left)
    requires Cells(m.stack, base, r, left).end != Proper
    ensures var p := Pull(m, base, r, left);
      p.Done? ==>
        p.machine.sp < |p.machine.stack| &&
        Follows(m.stack, base, r, Cells(m.stack, base, r, left).items, p.machine.stack[p.machine.sp], limit, n)
    decreases left
  {
    hide Follows, Cells, Below;
    if left > 0 && m.sp >= LIMIT {
      return;
    }
    if left == 0 || TagCdr(m.stack[r].tag) != 0 {
      LastRest(m, base, r, limit, left, n);
    } else {
      BelowTail(m.stack, base, r, limit, left + n);
      CellsOneMore(m.stack, base, r, left - 1);
      var a := Accept(m, m.stack[r]);
      assert a.stack[..limit] == m.stack[..limit];
      CellsFrame(m.stack, a.stack, base, r + 1, limit, left - 1 + n);
      BelowLess(m.stack, base, r + 1, limit, left - 1, left - 1 + n);
      CellsFrame(m.stack, a.stack, base, r + 1, limit, left - 1);
      RestFollows(a, base, r + 1, limit, left - 1, n);
      var p := Pull(a, base, r + 1, left - 1);
      if p.Done? { RestOneMore(m, base, r, limit, left, n, p.machine.stack[p.machine.sp]); }
    }
  }

  lemma {:induction false} RestOneMore(m: Machine, base: Datum, r: nat, limit: nat, left: nat, n: nat, rest: Word)
    requires |m.stack| == WINDOW && m.sp + 1 < WINDOW && r + 1 < WINDOW && limit <= m.sp + 1 && left > 0
    requires Below(m.stack, base, r + 1, limit, left - 1 + n) && TagCdr(m.stack[r].tag) == 0
    requires var stack := Accept(m, m.stack[r]).stack;
      Follows(stack, base, r + 1, Cells(stack, base, r + 1, left - 1).items, rest, limit, n)
    ensures Follows(m.stack, base, r, Cells(m.stack, base, r, left).items, rest, limit, n)
  {
    hide Follows, Cells, Below;
    var stack := Accept(m, m.stack[r]).stack;
    var items := Cells(stack, base, r + 1, left - 1).items;
    assert stack[..limit] == m.stack[..limit];
    BelowLess(m.stack, base, r + 1, limit, left - 1, left - 1 + n);
    CellsFrame(m.stack, stack, base, r + 1, limit, left - 1);
    ItemsBound(m.stack, base, r + 1, left - 1);
    BelowLess(m.stack, base, r + 1, limit, |items| + n, left - 1 + n);
    CellsFrame(m.stack, stack, base, r + 1, limit, |items| + n);
    FollowsFrame(stack, m.stack, base, r + 1, items, rest, limit, n);
    FollowsOneMore(m.stack, base, r, items, rest, limit, n);
    CellsOneMore(m.stack, base, r, left - 1);
  }

  lemma {:induction false} ItemsBound(stack: seq<Word>, base: Datum, r: nat, n: nat)
    requires |stack| == WINDOW
    ensures |Cells(stack, base, r, n).items| <= n
    decreases n
  {
    if n > 0 && r < WINDOW {
      ItemsBound(stack, base, r + 1, n - 1);
      if r + 1 < WINDOW && InCache(base, stack[r + 1]) { ItemsBound(stack, base, stack[r + 1].datum - base, n - 1); }
    }
  }

  lemma EmptyPrefix(stack: seq<Word>, base: Datum, w: Word, n: nat)
    requires |stack| == WINDOW
    ensures ListAt(stack, base, w, n).After([]) == ListAt(stack, base, w, n)
  {
    assert [] + ListAt(stack, base, w, n).items == ListAt(stack, base, w, n).items;
  }

  /** What follows in one stack follows in another that agrees below the limit. */
  lemma {:induction false} FollowsFrame(stack: seq<Word>, after: seq<Word>, base: Datum, r: nat, items: seq<Word>,
                                        rest: Word, limit: nat, n: nat)
    requires |stack| == |after| == WINDOW && limit <= WINDOW && stack[..limit] == after[..limit]
    requires Follows(stack, base, r, items, rest, limit, n) && Below(stack, base, r, limit, |items| + n)
    ensures Follows(after, base, r, items, rest, limit, n)
  {
    CellsFrame(stack, after, base, r, limit, |items| + n);
    if InCache(base, rest) { CellsFrame(stack, after, base, rest.datum - base, limit, n); }
  }

  lemma FollowsOneMore(stack: seq<Word>, base: Datum, r: nat, items: seq<Word>, rest: Word, limit: nat, n: nat)
    requires |stack| == WINDOW && limit <= WINDOW && r < WINDOW && TagCdr(stack[r].tag) == 0
    requires Follows(stack, base, r + 1, items, rest, limit, n)
    ensures Follows(stack, base, r, [CdrNext(stack[r])] + items, rest, limit, n)
  {
    hide ListAt, Below;
    var seen := ListAt(stack, base, rest, n);
    assert [CdrNext(stack[r])] + (items + seen.items) == [CdrNext(stack[r])] + items + seen.items;
  }

  lemma {:induction false} RestFrame(stack: seq<Word>, after: seq<Word>, base: Datum, r: nat, items: seq<Word>,
                                     rest: Word, limit: nat, n: nat)
    requires |stack| == |after| == WINDOW && limit <= WINDOW && stack[..limit] == after[..limit]
    requires Follows(stack, base, r, items, rest, limit, n)
    ensures Cells(stack, base, r, |items| + n) == ListAt(after, base, rest, n).After(items)
  {
    if InCache(base, rest) { CellsFrame(stack, after, base, rest.datum - base, limit, n); }
  }

  /** A tail in the cache: the element before it is on the stack, where the remaining list should be, but is not
      counted as an argument. */
  lemma {:induction false} RejoinMisplaces(m: Machine, base: Datum, r: nat, limit: nat, left: nat)
    requires Room(m, base) && m.control.apply && m.lp == m.sp + 1 && r < WINDOW && limit <= m.lp
    requires Below(m.stack, base, r, limit, left) && Rejoins(m.stack, base, r, left)
    ensures var p := Pull(m, base, r, left);
      p.Done? ==> p.machine.sp == p.machine.lp + 1 && p.machine.control.apply && p.wanted > 0
    decreases left
  {
    if left > 0 && m.sp >= LIMIT {
      return;
    }
    var w := m.stack[r];
    var a := Accept(m, w);
    if TagCdr(w.tag) == 0 {
      assert a.stack[..limit] == m.stack[..limit];
      CellsFrame(m.stack, a.stack, base, r + 1, limit, left - 1);
      RejoinMisplaces(a, base, r + 1, limit, left - 1);
    } else {
      assert a.stack[r + 1] == m.stack[r + 1];
    }
  }

  /** The apply list, wherever it leads, lies below the word that denotes it. */
  ghost predicate ListBelow(stack: seq<Word>, base: Datum, r: nat, limit: nat)
    requires |stack| == WINDOW && limit <= WINDOW
  {
    forall n: nat :: Below(stack, base, r, limit, n)
  }

  /** Arguments are conserved: the frame's arguments gain the list's first elements, `lp` and the argument size
      advance with them, and unless the list has ended the word on top of the stack denotes all that follows. */
  ghost predicate Conserves(m: Machine, base: Datum, count: nat, after: Machine, wanted: nat)
    requires |m.stack| == WINDOW && m.sp < WINDOW && base <= m.stack[m.sp].datum
  {
    var r := m.stack[m.sp].datum - base;
    var seen := Cells(m.stack, base, r, count);
    && Spreads(m, seen, count, after, wanted)
    && (seen.end != Proper ==>
      forall n: nat {:trigger ListAt(after.stack, base, after.stack[after.sp], n)} ::
        Cells(m.stack, base, r, |seen.items| + n) ==
        ListAt(after.stack, base, after.stack[after.sp], n).After(seen.items))
  }

  // ---------- The limit of the stack cache ----------

  /** How many arguments can be pushed before the stack cache has to scroll. */
  function Spare(m: Machine): nat { if m.sp < LIMIT then LIMIT - m.sp else 0 }

  /** The `n` cells from `r` on each name the next one. */
  predicate Chained(stack: seq<Word>, r: nat, n: nat)
    requires |stack| == WINDOW
    decreases n
  {
    n > 0 ==> r < WINDOW && TagCdr(stack[r].tag) == 0 && Chained(stack, r + 1, n - 1)
  }

  lemma {:induction false} ChainedFrame(stack: seq<Word>, after: seq<Word>, base: Datum, r: nat, limit: nat, n: nat)
    requires |stack| == |after| == WINDOW && limit <= WINDOW && stack[..limit] == after[..limit]
    requires Below(stack, base, r, limit, n)
    ensures Chained(stack, r, n) <==> Chained(after, r, n)
    decreases n
  {
    if n > 0 {
      assert stack[r] == stack[..limit][r] == after[r];
      if TagCdr(stack[r].tag) == 0 { ChainedFrame(stack, after, base, r + 1, limit, n - 1); }
    }
  }

  /** A pull comes to the limit exactly when more arguments are wanted than can be pushed, and the list goes on that far
      from cell to cell. */
  lemma {:induction false} FullExactly(m: Machine, base: Datum, r: nat, limit: nat, left: nat)
    requires Room(m, base) && m.lp == m.sp + 1 && r < WINDOW && limit <= m.lp
    requires Below(m.stack, base, r, limit, left)
    ensures Pull(m, base, r, left).Full? <==> left > Spare(m) && Chained(m.stack, r, Spare(m))
    decreases left
  {
    if left > 1 && m.sp < LIMIT && TagCdr(m.stack[r].tag) == 0 {
      var a := Accept(m, m.stack[r]);
      assert a.stack[..limit] == m.stack[..limit];
      CellsFrame(m.stack, a.stack, base, r + 1, limit, left - 1);
      FullExactly(a, base, r + 1, limit, left - 1);
      if left > Spare(m) {
        BelowLess(m.stack, base, r + 1, limit, Spare(m) - 1, left - 1);
        ChainedFrame(m.stack, a.stack, base, r + 1, limit, Spare(m) - 1);
      }
    }
  }

  /** What the machine of a full pull holds. */
  ghost predicate FullAt(m: Machine, base: Datum, r: nat, left: nat, n: nat, p: Pulled) {
    && p.Full? && |m.stack| == |p.machine.stack| == WINDOW && p.left <= left && p.rest == r + (left - p.left)
    && p.machine.sp == m.sp + (left - p.left) >= LIMIT && p.machine.lp == p.machine.sp + 1
    && var items := Cells(m.stack, base, r, left - p.left).items;
    && Extends(m, items, p.machine)
    && Cells(m.stack, base, r, left - p.left + n) == Cells(p.machine.stack, base, p.rest, n).After(items)
  }

  /** Up to the limit nothing is lost: the elements pulled have become arguments, and the cell that is next is the list
      of all that follows them. */
  lemma {:induction false} FullConserves(m: Machine, base: Datum, r: nat, limit: nat, left: nat, n: nat)
    requires Room(m, base) && m.lp == m.sp + 1 && r < WINDOW && limit <= m.lp
    requires Below(m.stack, base, r, limit, left + n)
    ensures Pull(m, base, r, left).Full? ==> FullAt(m, base, r, left, n, Pull(m, base, r, left))
    decreases left
  {
    hide FullAt, Cells;
    if Pull(m, base, r, left).Done? {
      return;
    }
    if m.sp >= LIMIT {
      FullNow(m, base, r, left, n);
    } else {
      var a := Accept(m, m.stack[r]);
      assert a.stack[..limit] == m.stack[..limit];
      CellsFrame(m.stack, a.stack, base, r + 1, limit, left - 1 + n);
      FullConserves(a, base, r + 1, limit, left - 1, n);
      FullOneMore(m, base, r, limit, left, n, Pull(a, base, r + 1, left - 1));
    }
  }

  lemma FullNow(m: Machine, base: Datum, r: nat, left: nat, n: nat)
    requires Room(m, base) && m.lp == m.sp + 1 && m.sp >= LIMIT
    ensures FullAt(m, base, r, left, n, Full(m, r, left))
  {
    assert m.stack[..m.lp] + [] == m.stack[..m.lp];
    assert [] + Cells(m.stack, base, r, n).items == Cells(m.stack, base, r, n).items;
  }

  lemma {:induction false} FullOneMore(m: Machine, base: Datum, r: nat, limit: nat, left: nat, n: nat, p: Pulled)
    requires Room(m, base) && m.lp == m.sp + 1 && r < WINDOW && limit <= m.lp && left > 0
    requires Below(m.stack, base, r, limit, left + n) && TagCdr(m.stack[r].tag) == 0
    requires FullAt(Accept(m, m.stack[r]), base, r + 1, left - 1, n, p)
    ensures FullAt(m, base, r, left, n, p)
  {
    hide Below, Cells, Extends;
    var w := m.stack[r];
    var a, k := Accept(m, w), left - 1 - p.left;
    BelowTail(m.stack, base, r, limit, left + n);
    assert a.stack[..limit] == m.stack[..limit];
    BelowLess(m.stack, base, r + 1, limit, k, left - 1 + n);
    BelowLess(m.stack, base, r + 1, limit, k + n, left - 1 + n);
    CellsFrame(m.stack, a.stack, base, r + 1, limit, k);
    CellsFrame(m.stack, a.stack, base, r + 1, limit, k + n);
    CellsOneMore(m.stack, base, r, k);
    CellsOneMore(m.stack, base, r, k + n);
    ExtendsOneMore(m, w, Cells(a.stack, base, r + 1, k).items, p.machine);
    AfterTwice(Cells(p.machine.stack, base, p.rest, n), [CdrNext(w)], Cells(a.stack, base, r + 1, k).items);
  }

  lemma AfterTwice(v: View, first: seq<Word>, more: seq<Word>)
    ensures v.After(more).After(first) == v.After(first + more)
  {
    assert first + (more + v.items) == first + more + v.items;
  }

  lemma BelowTail(stack: seq<Word>, base: Datum, r: nat, limit: nat, n: nat)
    requires |stack| == WINDOW && limit <= WINDOW && n > 0 && Below(stack, base, r, limit, n)
    requires TagCdr(stack[r].tag) == 0
    ensures r < limit && Below(stack, base, r + 1, limit, n - 1)
  {
  }

  lemma CellsOneMore(stack: seq<Word>, base: Datum, r: nat, n: nat)
    requires |stack| == WINDOW && r < WINDOW && TagCdr(stack[r].tag) == 0
    ensures Cells(stack, base, r, n + 1) == Cells(stack, base, r + 1, n).After([CdrNext(stack[r])])
  {
  }

  /** Pulling conserves arguments, unless it comes to the limit of the stack cache, exactly when none of the cells it
      visits has a tail in the stack cache; it comes to the limit exactly when more arguments are wanted than there is
      room for and the list goes on that far. */
  lemma {:induction false} PullConservesExactly(m: Machine, base: Datum, count: nat)
    requires Applying(m, base) && ListBelow(m.stack, base, m.stack[m.sp].datum - base, m.sp)
    ensures var p, r, spare := PullApplyArgs(m, base, count), m.stack[m.sp].datum - base, Spare(m.(sp := m.sp - 1));
      && (p.Full? <==> count > spare && Chained(m.stack, r, spare))
      && (p.Done? ==> (Conserves(m, base, count, p.machine, p.wanted) <==> !Rejoins(m.stack, base, r, count)))
  {
    hide Pull, Cells, ListAt, Below, Rejoins, Follows;
    var r, limit := m.stack[m.sp].datum - base, m.sp;
    var popped := m.(sp := m.sp - 1);
    var p := PullApplyArgs(m, base, count);
    assert Below(m.stack, base, r, limit, count);
    FullExactly(popped, base, r, limit, count);
    var seen := Cells(m.stack, base, r, count);
    if p.Full? {
      return;
    }
    if Rejoins(m.stack, base, r, count) {
      RejoinMisplaces(popped, base, r, limit, count);
    } else {
      PullSpreads(popped, base, r, limit, count);
      var after := p.machine;
      if seen.end != Proper {
        forall n: nat ensures Cells(m.stack, base, r, |seen.items| + n) ==
            ListAt(after.stack, base, after.stack[after.sp], n).After(seen.items)
        {
          assert Below(m.stack, base, r, limit, count + n);
          RestFollows(popped, base, r, limit, count, n);
          assert after.stack[..limit] == m.stack[..limit];
          RestFrame(m.stack, after.stack, base, r, seen.items, after.stack[after.sp], limit, n);
        }
      }
    }
  }
}
