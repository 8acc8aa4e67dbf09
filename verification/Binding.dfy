/** Shallow dynamic binding: the binding stack saves a cell's old contents, unbinding stores them back. */
module Binding {
  import opened Wrappers
  import opened TaggedMemory
  import opened Ivory
  import opened MemoryCycles

  /** Everything the binding instructions touch. `bsp` is the binding stack pointer, `cleanup` the control word's
      cleanup-bindings bit, `preempt` the two low bits of the preempt register. */
  datatype State = State(memory: Memory, oldspace: set<nat>, bsp: nat, limit: nat, deepBound: bool,
                         cleanup: bool, preemptPending: bool, preemptEnabled: bool) {
    predicate Valid() { |memory| == MEMORY && bsp < MEMORY && limit + 1 < MEMORY }
  }

  datatype Outcome = Ok(state: State) | IllegalOperand(state: State) | Trapped(state: State, access: Access)

  function ReadAt(s: State, vma: nat, cycle: Cycle): Access
    requires |s.memory| == MEMORY && vma < MEMORY
  {
    Read(s.memory, vma, cycle, s.oldspace, MEMORY)
  }

  function TrailAt(s: State, vma: nat): set<nat>
    requires |s.memory| == MEMORY && vma < MEMORY
  {
    Trail(s.memory, vma, BindRead, s.oldspace, MEMORY)
  }

  function Put(s: State, a: nat, w: Word): State
    requires a < |s.memory|
  {
    s.(memory := s.memory[a := w])
  }

  /** Storing through forwarding pointers keeps the cdr code of the cell that is finally written. */
  function StoreContents(s: State, vma: nat, w: Word): (r: Outcome)
    requires |s.memory| == MEMORY && vma < MEMORY
    ensures r.Ok? ==> r.state == s.(memory := r.state.memory) && |r.state.memory| == MEMORY
  {
    var access := ReadAt(s, vma, BindWrite);
    if access.Cell? && access.vma < MEMORY then
      Ok(Put(s, access.vma, Word(MergeCdr(access.word.tag, w.tag), w.datum)))
    else Trapped(s, access)
  }

  /** The locative as it is saved: its cdr code takes in the cleanup bit. */
  function Marked(loc: Word, cleanup: bool): Word {
    if cleanup && (loc.tag / 64) % 2 == 0 then Word(loc.tag + 64, loc.datum) else loc
  }

  /** Binds the cell that `loc` points to; with `Some` value it also stores the value. */
  function Bind(s: State, loc: Word, value: Option<Word>): (r: Outcome)
    requires s.Valid()
    ensures r.Ok? ==> r.state.Valid() && r.state.bsp == s.bsp + 2 && r.state.cleanup
  {
    if s.bsp >= s.limit || s.deepBound then IllegalOperand(s)
    else
      var access := ReadAt(s, loc.datum, BindRead);
      if !access.Cell? then Trapped(s, access)
      else
        var saved := Put(Put(s, s.bsp + 1, Marked(loc, s.cleanup)), s.bsp + 2, access.word);
        var stored := if value.Some? then StoreContents(saved, loc.datum, value.value) else Ok(saved);
        if !stored.Ok? then stored else Ok(stored.state.(cleanup := true, bsp := s.bsp + 2))
  }

  function Unbind(s: State): (r: Outcome)
    requires s.Valid()
    ensures r.Ok? ==> r.state.Valid() && r.state.bsp + 2 == s.bsp
  {
    if !s.cleanup || s.bsp < 2 then IllegalOperand(s)
    else
      var old_, loc := ReadAt(s, s.bsp, BindRead), ReadAt(s, s.bsp - 1, BindRead);
      if !old_.Cell? then Trapped(s, old_)
      else if !loc.Cell? then Trapped(s, loc)
      else
        var stored := StoreContents(s, loc.word.datum, old_.word);
        if !stored.Ok? then stored
        else
          Ok(stored.state.(bsp := s.bsp - 2, cleanup := (loc.word.tag / 64) % 2 == 1,
                           preemptPending := s.preemptPending || s.preemptEnabled))
  }

  function UnbindN(s: State, n: nat): (r: Outcome)
    requires s.Valid()
    ensures r.Ok? ==> r.state.Valid() && r.state.bsp + 2 * n == s.bsp
    decreases n
  {
    if n == 0 then Ok(s)
    else
      var u := Unbind(s);
      if u.Ok? then UnbindN(u.state, n - 1) else u
  }

  // ---------- Binding is a stack ----------

  datatype Bound = Bound(loc: Word, value: Option<Word>)

  function BindAll(s: State, bs: seq<Bound>): (r: Outcome)
    requires s.Valid()
    ensures r.Ok? ==> r.state.Valid() && r.state.bsp == s.bsp + 2 * |bs|
    decreases |bs|
  {
    if bs == [] then Ok(s)
    else
      var b := Bind(s, bs[0].loc, bs[0].value);
      if !b.Ok? then b
      else BindAll(b.state, bs[1..])
  }

  /** A binding stack that will grow to `top` does not meet the chain of cells from `loc`, and `loc` itself can be
      read back from it. */
  ghost predicate Clear(s: State, loc: Word, top: nat)
    requires s.Valid()
  {
    && TagType(loc.tag) == TYPE_LOCATIVE && loc.datum !in s.oldspace
    && (forall a :: s.bsp < a <= top ==> a !in TrailAt(s, loc.datum))
  }

  /** Binding writes accept the value as it is: not a forwarding pointer, a monitored cell, a header or a GC forward. */
  predicate Ordinary(value: Option<Word>, oldspace: set<nat>) {
    value.Some? ==> Decide(BindWrite, value.value, oldspace) == Done
  }

  /** The locative has no cdr bit that could pass for a saved cleanup bit. */
  predicate Unmarked(loc: Word, cleanup: bool) { cleanup || (loc.tag / 64) % 2 == 0 }

  /** A binding that can be undone. */
  ghost predicate Undoable(s: State, b: Bound, top: nat)
    requires s.Valid()
  {
    Clear(s, b.loc, top) && Unmarked(b.loc, s.cleanup) && Ordinary(b.value, s.oldspace)
  }

  ghost predicate AllUndoable(s: State, bs: seq<Bound>, top: nat)
    requires s.Valid() && BindAll(s, bs).Ok?
    decreases |bs|
  {
    bs != [] ==> Undoable(s, bs[0], top) && AllUndoable(Bind(s, bs[0].loc, bs[0].value).state, bs[1..], top)
  }

  /** Same contents outside the binding stack's slots in (lo, hi]. */
  ghost predicate SameOutside(m: Memory, m': Memory, lo: nat, hi: nat) {
    |m| == |m'| && forall a :: 0 <= a < |m| && !(lo < a <= hi) ==> m[a] == m'[a]
  }

  /** A value stored over a word: its type and datum, under the cdr code of the word. */
  predicate StoredAs(before: Word, value: Word, after: Word) {
    after.tag / 64 == before.tag / 64 && after.tag % 64 == value.tag % 64 && after.datum == value.datum
  }

  /** The state right after a binding: the two slots, and the cell that the chain ends at, which holds the value under
      its own cdr code, or is as it was when no value is bound. */
  lemma {:induction false} BindEffect(s: State, b: Bound, top: nat)
    requires s.Valid() && Bind(s, b.loc, b.value).Ok? && Clear(s, b.loc, top) && s.bsp + 2 <= top
    ensures ReadAt(s, b.loc.datum, BindRead).Cell?
    ensures var s', c := Bind(s, b.loc, b.value).state, ReadAt(s, b.loc.datum, BindRead).vma;
      && |s'.memory| == MEMORY && c < MEMORY && !(s.bsp < c <= top)
      && s'.memory[s.bsp + 1] == Marked(b.loc, s.cleanup) && s'.memory[s.bsp + 2] == s.memory[c]
      && (forall a | 0 <= a < MEMORY && a != c && a != s.bsp + 1 && a != s.bsp + 2 :: s'.memory[a] == s.memory[a])
      && (if b.value.Some? then StoredAs(s.memory[c], b.value.value, s'.memory[c]) else s'.memory[c] == s.memory[c])
      && Decide(BindWrite, s'.memory[c], s.oldspace) ==
        (if b.value.Some? then Decide(BindWrite, b.value.value, s.oldspace) else Done)
      && Decide(BindRead, s.memory[c], s.oldspace) == Done
      && s' == s.(memory := s'.memory, bsp := s.bsp + 2, cleanup := true)
  {
    hide Decide, Read, Trail, Marked, StoreContents, Bind;
    BindIs(s, b, top);
    var c := ReadAt(s, b.loc.datum, BindRead).vma;
    if b.value.Some? {
      MergedDecides(s.memory[c].tag, b.value.value, s.oldspace);
    }
  }

  lemma {:induction false} BindIs(s: State, b: Bound, top: nat)
    requires s.Valid() && Bind(s, b.loc, b.value).Ok? && Clear(s, b.loc, top) && s.bsp + 2 <= top
    ensures ReadAt(s, b.loc.datum, BindRead).Cell?
    ensures var c := ReadAt(s, b.loc.datum, BindRead).vma;
      && c < MEMORY && !(s.bsp < c <= top)
      && Decide(BindRead, s.memory[c], s.oldspace) == Decide(BindWrite, s.memory[c], s.oldspace) == Done
      && var saved := Put(Put(s, s.bsp + 1, Marked(b.loc, s.cleanup)), s.bsp + 2, s.memory[c]);
         var stored := if b.value.None? then saved
           else Put(saved, c, Word(MergeCdr(s.memory[c].tag, b.value.value.tag), b.value.value.datum));
         Bind(s, b.loc, b.value) == Ok(stored.(bsp := s.bsp + 2, cleanup := true))
  {
    hide Decide, Read, Trail, Marked;
    var loc := b.loc.datum;
    CellIsDone(s.memory, loc, BindRead, s.oldspace, MEMORY);
    var c := ReadAt(s, loc, BindRead).vma;
    WriteFollowsRead(s.memory[c], s.oldspace);
    var saved := Put(Put(s, s.bsp + 1, Marked(b.loc, s.cleanup)), s.bsp + 2, s.memory[c]);
    assert forall a | a in TrailAt(s, loc) && a < MEMORY :: saved.memory[a] == s.memory[a];
    SameCell(s.memory, saved.memory, loc, s.oldspace, MEMORY);
  }

  /** When a binding goes through: once the read has found a cell, the store behind it cannot trap. */
  lemma {:induction false} BindSucceedsExactly(s: State, loc: Word, value: Option<Word>)
    requires s.Valid() && Clear(s, loc, s.bsp + 2)
    ensures var b := Bind(s, loc, value);
      && (b.Ok? <==> s.bsp < s.limit && !s.deepBound && ReadAt(s, loc.datum, BindRead).Cell?)
      && (b.IllegalOperand? <==> s.limit <= s.bsp || s.deepBound)
      && (b.Trapped? ==> b == Trapped(s, ReadAt(s, loc.datum, BindRead)))
  {
    hide Decide, Read, Trail, Marked;
    var access := ReadAt(s, loc.datum, BindRead);
    if s.bsp < s.limit && !s.deepBound && access.Cell? {
      CellIsDone(s.memory, loc.datum, BindRead, s.oldspace, MEMORY);
      WriteFollowsRead(access.word, s.oldspace);
      var saved := Put(Put(s, s.bsp + 1, Marked(loc, s.cleanup)), s.bsp + 2, access.word);
      assert forall a | a in TrailAt(s, loc.datum) && a < MEMORY :: saved.memory[a] == s.memory[a];
      SameCell(s.memory, saved.memory, loc.datum, s.oldspace, MEMORY);
    }
  }

  /** Wherever the chain leads, over the binding stack itself too, a binding that goes through has stored its value in
      one cell, under the cdr code of the word there, and changed nothing else but the two slots. */
  lemma {:induction false} BindStores(s: State, loc: Word, value: Word) returns (c: nat)
    requires s.Valid() && Bind(s, loc, Some(value)).Ok?
    ensures ReadAt(s, loc.datum, BindRead).Cell? && c < MEMORY
    ensures var word := ReadAt(s, loc.datum, BindRead).word;
      var saved := s.memory[s.bsp + 1 := Marked(loc, s.cleanup)][s.bsp + 2 := word];
      var m := Bind(s, loc, Some(value)).state.memory;
      m == saved[c := m[c]] && StoredAs(saved[c], value, m[c])
  {
    hide Read, Marked;
    var access := ReadAt(s, loc.datum, BindRead);
    var saved := Put(Put(s, s.bsp + 1, Marked(loc, s.cleanup)), s.bsp + 2, access.word);
    c := StoreStores(saved, loc.datum, value);
  }

  /** So has an unbinding that goes through stored the word that its slot reads as. */
  lemma {:induction false} UnbindStores(s: State) returns (c: nat)
    requires s.Valid() && Unbind(s).Ok?
    ensures s.cleanup && s.bsp >= 2 && ReadAt(s, s.bsp, BindRead).Cell? && c < MEMORY
    ensures var m := Unbind(s).state.memory;
      m == s.memory[c := m[c]] && StoredAs(s.memory[c], ReadAt(s, s.bsp, BindRead).word, m[c])
  {
    hide Read;
    var old_, loc := ReadAt(s, s.bsp, BindRead), ReadAt(s, s.bsp - 1, BindRead);
    c := StoreStores(s, loc.word.datum, old_.word);
  }

  lemma StoreStores(s: State, vma: nat, w: Word) returns (c: nat)
    requires |s.memory| == MEMORY && vma < MEMORY && StoreContents(s, vma, w).Ok?
    ensures c < MEMORY
    ensures var m := StoreContents(s, vma, w).state.memory; m == s.memory[c := m[c]] && StoredAs(s.memory[c], w, m[c])
  {
    hide Read;
    c := ReadAt(s, vma, BindWrite).vma;
    MergedDecides(s.memory[c].tag, w, s.oldspace);
    CellIsDone(s.memory, vma, BindWrite, s.oldspace, MEMORY);
  }

  /** A bound value is what a read through the locative finds, if such reads accept it. */
  lemma {:induction false} BoundValueReads(s: State, loc: Word, value: Word)
    requires s.Valid() && Bind(s, loc, Some(value)).Ok? && Clear(s, loc, s.bsp + 2)
    requires Decide(BindRead, value, s.oldspace) == Done
    ensures var s' := Bind(s, loc, Some(value)).state;
      var found := ReadAt(s', loc.datum, BindRead);
      && found.Cell? && found.vma == ReadAt(s, loc.datum, BindRead).vma
      && TagType(found.word.tag) == TagType(value.tag) && found.word.datum == value.datum
  {
    hide Bind, Decide, Read, Trail, Marked;
    BindEffect(s, Bound(loc, Some(value)), s.bsp + 2);
    var s', c := Bind(s, loc, Some(value)).state, ReadAt(s, loc.datum, BindRead).vma;
    assert forall a | a in TrailAt(s, loc.datum) && a != c && a < MEMORY :: s'.memory[a] == s.memory[a];
    SameDecision(value, s'.memory[c], s.oldspace);
    SameCellRead(s.memory, s'.memory, loc.datum, s.oldspace, MEMORY);
  }

  lemma SameDecision(v: Word, w: Word, oldspace: set<nat>)
    requires v.tag % 64 == w.tag % 64 && v.datum == w.datum
    ensures Decide(BindRead, v, oldspace) == Decide(BindRead, w, oldspace)
  {
  }

  /** A cell's cdr code does not matter to what a read does with it. */
  lemma MergedDecides(cdr: Tag, w: Word, oldspace: set<nat>)
    ensures Decide(BindWrite, Word(MergeCdr(cdr, w.tag), w.datum), oldspace) == Decide(BindWrite, w, oldspace)
    ensures MergeCdr(cdr, w.tag) / 64 == cdr / 64 && MergeCdr(cdr, w.tag) % 64 == w.tag % 64
  {
  }

  lemma LocativeDecides(loc: Word, cleanup: bool, oldspace: set<nat>)
    requires TagType(loc.tag) == TYPE_LOCATIVE && loc.datum !in oldspace
    ensures Decide(BindRead, Marked(loc, cleanup), oldspace) == Done && Marked(loc, cleanup).datum == loc.datum
    ensures ((Marked(loc, cleanup).tag / 64) % 2 == 1 <==> cleanup) <==> Unmarked(loc, cleanup)
  {
  }

  /** In any state that has kept a binding's slots and its chain, both slots read as they were saved, and the saved word
      goes back into the bound cell with its old cdr code. */
  lemma {:induction false} BoundCellStands(s: State, b: Bound, top: nat, t: State)
    requires s.Valid() && Bind(s, b.loc, b.value).Ok? && s.bsp + 2 <= top
    requires Clear(s, b.loc, top) && Ordinary(b.value, s.oldspace)
    requires t.Valid() && t.bsp == s.bsp + 2 && t.oldspace == s.oldspace
    requires SameOutside(Bind(s, b.loc, b.value).state.memory, t.memory, s.bsp + 2, top)
    ensures ReadAt(s, b.loc.datum, BindRead).Cell?
    ensures var c := ReadAt(s, b.loc.datum, BindRead).vma;
      && c < MEMORY && !(s.bsp < c <= top)
      && ReadAt(t, t.bsp, BindRead) == Cell(t.bsp, s.memory[c])
      && ReadAt(t, t.bsp - 1, BindRead) == Cell(t.bsp - 1, Marked(b.loc, s.cleanup))
      && StoreContents(t, b.loc.datum, s.memory[c]) == Ok(Put(t, c, s.memory[c]))
      && SameOutside(s.memory, t.memory[c := s.memory[c]], s.bsp, top)
  {
    hide Bind, Decide, Read, Trail, Marked;
    BindEffect(s, b, top);
    var loc := b.loc.datum;
    var s', c := Bind(s, b.loc, b.value).state, ReadAt(s, loc, BindRead).vma;
    assert t.memory[t.bsp] == s.memory[c] && t.memory[t.bsp - 1] == Marked(b.loc, s.cleanup);
    LocativeDecides(b.loc, s.cleanup, s.oldspace);
    ReadDone(t.memory, t.bsp, BindRead, s.oldspace);
    ReadDone(t.memory, t.bsp - 1, BindRead, s.oldspace);
    assert forall a | a in TrailAt(s, loc) && a != c && a < MEMORY :: t.memory[a] == s.memory[a];
    assert t.memory[c] == s'.memory[c];
    SameCell(s.memory, t.memory, loc, s.oldspace, MEMORY);
    MergedDecides(t.memory[c].tag, s.memory[c], s.oldspace);
    assert MergeCdr(t.memory[c].tag, s.memory[c].tag) == s.memory[c].tag;
  }

  /** Undoing a binding in any state that has kept its slots, its cell's cdr code and its chain. */
  lemma {:induction false} UnbindEffect(s: State, b: Bound, top: nat, t: State)
    requires s.Valid() && Bind(s, b.loc, b.value).Ok? && s.bsp + 2 <= top
    requires Clear(s, b.loc, top) && Ordinary(b.value, s.oldspace)
    requires t.Valid()
    requires var s' := Bind(s, b.loc, b.value).state;
      && t == s'.(memory := t.memory, preemptPending := t.preemptPending)
      && SameOutside(s'.memory, t.memory, s.bsp + 2, top)
    ensures Unbind(t).Ok?
    ensures var u := Unbind(t).state;
      && u == s.(memory := u.memory, preemptPending := t.preemptPending || s.preemptEnabled, cleanup := u.cleanup)
      && SameOutside(s.memory, u.memory, s.bsp, top)
      && (u.cleanup == s.cleanup <==> Unmarked(b.loc, s.cleanup))
  {
    hide Bind, Ordinary, Read, Marked, StoreContents;
    BindEffect(s, b, top);
    BoundCellStands(s, b, top, t);
    LocativeDecides(b.loc, s.cleanup, s.oldspace);
  }

  /** A binding followed at once by an unbinding restores memory if and only if the bound value was ordinary, and then
      restores the cleanup bit if and only if the locative was unmarked. */
  lemma {:induction false} UnbindRestoresExactly(s: State, b: Bound)
    requires s.Valid() && Bind(s, b.loc, b.value).Ok? && Clear(s, b.loc, s.bsp + 2)
    ensures var u := Unbind(Bind(s, b.loc, b.value).state);
      && (u.Ok? && SameOutside(s.memory, u.state.memory, s.bsp, s.bsp + 2) <==> Ordinary(b.value, s.oldspace))
      && (u.Ok? ==> (u.state.cleanup == s.cleanup <==> Unmarked(b.loc, s.cleanup)))
  {
    hide Bind, Unbind, Decide, Read, Trail, Marked;
    if Ordinary(b.value, s.oldspace) {
      UnbindEffect(s, b, s.bsp + 2, Bind(s, b.loc, b.value).state);
    } else {
      ForwardingValueStays(s, b);
    }
  }

  /** A bound value that forwards or traps is still there after unbinding, if unbinding gets that far. */
  lemma {:induction false} ForwardingValueStays(s: State, b: Bound)
    requires s.Valid() && Bind(s, b.loc, b.value).Ok? && Clear(s, b.loc, s.bsp + 2) && !Ordinary(b.value, s.oldspace)
    ensures var u := Unbind(Bind(s, b.loc, b.value).state);
      && (u.Ok? ==> !SameOutside(s.memory, u.state.memory, s.bsp, s.bsp + 2))
      && (u.Ok? ==> (u.state.cleanup == s.cleanup <==> Unmarked(b.loc, s.cleanup)))
  {
    hide Bind, Decide, Read, Trail, Marked;
    BindEffect(s, b, s.bsp + 2);
    var loc := b.loc.datum;
    var s', c := Bind(s, b.loc, b.value).state, ReadAt(s, loc, BindRead).vma;
    LocativeDecides(b.loc, s.cleanup, s.oldspace);
    ReadDone(s'.memory, s'.bsp, BindRead, s.oldspace);
    ReadDone(s'.memory, s'.bsp - 1, BindRead, s.oldspace);
    WriteFollowsRead(s.memory[c], s.oldspace);
    if ReadAt(s', loc, BindWrite).Cell? {
      CellIsDone(s'.memory, loc, BindWrite, s.oldspace, MEMORY);
    }
  }

  lemma {:induction false} UnbindSplit(s: State, m: nat, n: nat)
    requires s.Valid() && UnbindN(s, m).Ok?
    ensures UnbindN(s, m + n) == UnbindN(UnbindN(s, m).state, n)
    decreases m
  {
    hide Unbind;
    if m > 0 {
      UnbindSplit(Unbind(s).state, m - 1, n);
    }
  }

  lemma UnbindNext(s: State, n: nat)
    requires s.Valid() && UnbindN(s, n).Ok?
    ensures UnbindN(s, n + 1) == Unbind(UnbindN(s, n).state)
  {
    hide Unbind;
    UnbindSplit(s, n, 1);
    var u := Unbind(UnbindN(s, n).state);
    if u.Ok? {
      assert UnbindN(u.state, 0) == u;
    }
  }

  lemma FirstOfAll(s: State, bs: seq<Bound>, top: nat)
    requires s.Valid() && bs != [] && BindAll(s, bs).Ok? && AllUndoable(s, bs, top)
    ensures Bind(s, bs[0].loc, bs[0].value).Ok? && Undoable(s, bs[0], top)
    ensures var s' := Bind(s, bs[0].loc, bs[0].value).state;
      BindAll(s, bs) == BindAll(s', bs[1..]) && AllUndoable(s', bs[1..], top)
  {
    hide Bind, Undoable;
  }

  /** Any number of bindings, cells bound repeatedly and reached through forwarding pointers included, followed by as
      many unbindings, restores every word outside the binding stack, the binding stack pointer and the cleanup bit. An
      unbinding asks for a preemption where preemptions are enabled, and nothing takes such a request back. */
  lemma {:induction false} UnbindUndoesBind(s: State, bs: seq<Bound>, top: nat)
    requires s.Valid() && BindAll(s, bs).Ok? && AllUndoable(s, bs, top) && s.bsp + 2 * |bs| <= top
    ensures UnbindN(BindAll(s, bs).state, |bs|).Ok?
    ensures var u := UnbindN(BindAll(s, bs).state, |bs|).state;
      && u == s.(memory := u.memory, preemptPending := s.preemptPending || (bs != [] && s.preemptEnabled))
      && SameOutside(s.memory, u.memory, s.bsp, top)
    decreases |bs|
  {
    if bs != [] {
      hide Bind, Unbind, Clear, Unmarked, Ordinary, SameOutside, BindAll, UnbindN, AllUndoable;
      FirstOfAll(s, bs, top);
      var n := |bs| - 1;
      var s' := Bind(s, bs[0].loc, bs[0].value).state;
      BindEffect(s, bs[0], top);
      UnbindUndoesBind(s', bs[1..], top);
      var last := BindAll(s', bs[1..]).state;
      var t := UnbindN(last, n).state;
      UnbindNext(last, n);
      UnbindEffect(s, bs[0], top, t);
    }
  }

  // ---------- Leaving a frame, and restoring the binding stack ----------

  /** What a return does about bindings: it unbinds as long as the cleanup bit is set. */
  function UnbindFrame(s: State): (r: Outcome)
    requires s.Valid()
    ensures r.Ok? ==> r.state.Valid()
    decreases s.bsp
  {
    if !s.cleanup then Ok(s)
    else
      var u := Unbind(s);
      if u.Ok? then UnbindFrame(u.state) else u
  }

  function RestoreBindingStack(s: State, target: nat): (r: Outcome)
    requires s.Valid()
    ensures r.Ok? ==> r.state.Valid()
    decreases s.bsp
  {
    if s.bsp <= target then Ok(s)
    else
      var u := Unbind(s);
      if u.Ok? then RestoreBindingStack(u.state, target) else u
  }

  /** A frame entered with a clear cleanup bit undoes, on return, exactly the bindings made since. */
  lemma {:induction false} ReturnUndoesFrame(s: State, bs: seq<Bound>, top: nat)
    requires s.Valid() && BindAll(s, bs).Ok? && AllUndoable(s, bs, top) && s.bsp + 2 * |bs| <= top
    requires !s.cleanup
    ensures UnbindFrame(BindAll(s, bs).state) == UnbindN(BindAll(s, bs).state, |bs|)
    ensures var u := UnbindFrame(BindAll(s, bs).state);
      && u.Ok? && SameOutside(s.memory, u.state.memory, s.bsp, top)
      && u.state == s.(memory := u.state.memory,
                       preemptPending := s.preemptPending || (bs != [] && s.preemptEnabled))
  {
    UnbindUndoesBind(s, bs, top);
    UnbindsThroughFrame(s, bs, top);
  }

  /** In a frame entered with a clear cleanup bit, one unbinding more than there were bindings is refused. */
  lemma {:induction false} NothingLeftToUnbind(s: State, bs: seq<Bound>, top: nat, n: nat)
    requires s.Valid() && BindAll(s, bs).Ok? && AllUndoable(s, bs, top) && s.bsp + 2 * |bs| <= top
    requires !s.cleanup
    ensures UnbindN(BindAll(s, bs).state, n).IllegalOperand? <==> n > |bs|
  {
    UnbindUndoesBind(s, bs, top);
    var last := BindAll(s, bs).state;
    UnbindSucceeds(last, |bs|, n);
  }

  lemma {:induction false} UnbindSucceeds(s: State, n: nat, m: nat)
    requires s.Valid() && UnbindN(s, n).Ok? && !UnbindN(s, n).state.cleanup
    ensures UnbindN(s, m).IllegalOperand? <==> m > n
    decreases n
  {
    hide Unbind;
    if n == 0 {
      UnbindRefused(s);
    } else if m > 0 {
      UnbindSucceeds(Unbind(s).state, n - 1, m - 1);
    }
  }

  lemma UnbindRefused(s: State)
    requires s.Valid() && !s.cleanup
    ensures Unbind(s).IllegalOperand?
  {
  }

  lemma {:induction false} UnbindsThroughFrame(s: State, bs: seq<Bound>, top: nat)
    requires s.Valid() && BindAll(s, bs).Ok? && AllUndoable(s, bs, top) && s.bsp + 2 * |bs| <= top
    requires UnbindN(BindAll(s, bs).state, |bs|).Ok?
    ensures UnbindFrame(BindAll(s, bs).state) == UnbindFrame(UnbindN(BindAll(s, bs).state, |bs|).state)
    decreases |bs|
  {
    hide Bind, Unbind, Clear, Unmarked, Ordinary;
    if bs != [] {
      var n, s' := |bs| - 1, Bind(s, bs[0].loc, bs[0].value).state;
      UnbindUndoesBind(s', bs[1..], top);
      UnbindsThroughFrame(s', bs[1..], top);
      var last := BindAll(s', bs[1..]).state;
      UnbindSplit(last, n, 1);
      var t := UnbindN(last, n).state;
      assert UnbindN(t, 1).Ok? ==> Unbind(t).Ok? && UnbindN(Unbind(t).state, 0) == Ok(Unbind(t).state);
    }
  }

  /** Restoring the binding stack to an earlier pointer is unbinding as often as was bound since. */
  lemma {:induction false} RestoreIsUnbindN(s: State, target: nat, n: nat)
    requires s.Valid() && s.bsp == target + 2 * n
    ensures RestoreBindingStack(s, target) == UnbindN(s, n)
    decreases n
  {
    hide Unbind;
    if n > 0 {
      var u := Unbind(s);
      if u.Ok? {
        RestoreIsUnbindN(u.state, target, n - 1);
      }
    }
  }
}
