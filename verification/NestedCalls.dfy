/** Calls and traps nest: whatever a well-bracketed piece of code does, its caller gets its registers back. */
module NestedCalls {
  import opened Wrappers
  import opened TaggedMemory
  import opened Ivory
  import opened ControlWord
  import opened CallStack

  /** What a frame executes: pushes, calls whose arguments are code themselves, and instructions that trap, when
      they have already pushed some words. */
  datatype Code =
    | Nothing
    | Push(word: Word, rest: Code)
    | Call(callee: Word, extra: Option<Word>, arguments: Code, disposition: Field2, nextPc: Word, body: Body,
           rest: Code)
    | Trap(pushed: seq<Word>, index: Datum, extras: seq<Word>, handler: Body, rest: Code)

  /** A function body: code, and then either a value or a call for return in tail position. */
  datatype Body =
    | Returns(code: Code, value: Word)
    | TailCalls(code: Code, callee: Word, extra: Option<Word>, arguments: Code, nextPc: Word, body: Body)

  /** The words a call leaves with its caller. */
  function Delivered(d: Field2, value: Word): seq<Word> {
    if d == VALUE then [CdrNext(value)]
    else if d == MULTIPLE then [CdrNext(value), Word(TYPE_FIXNUM, 1)]
    else []
  }

  /** What code leaves on its frame's stack, without any frames: the meaning that the machine has to realize. */
  function Contents(code: Code): seq<Word> {
    match code
    case Nothing => []
    case Push(w, rest) => [CdrNext(w)] + Contents(rest)
    case Call(_, _, _, d, _, body, rest) => Delivered(d, Result(body)) + Contents(rest)
    case Trap(_, _, _, _, rest) => Contents(rest)
  }

  function Result(body: Body): Word {
    match body
    case Returns(_, value) => value
    case TailCalls(_, _, _, _, _, callee) => Result(callee)
  }

  /** Runs a call up to the first instruction of the callee. */
  function Enter(vector: seq<Word>, m: Machine, callee: Word, extra: Option<Word>, arguments: Code, d: Field2,
                 nextPc: Word): (r: Option<Machine>)
    requires FEP_MODE_VECTOR < |vector| && |m.stack| == WINDOW
    ensures r.Some? ==> |r.value.stack| == WINDOW
    decreases arguments, 1
  {
    if m.sp + 3 >= WINDOW then None
    else
      var ready := Run(vector, StartCall(m, callee, extra), arguments);
      if ready.None? then None
      else
        var entered := FinishCall(ready.value, |Contents(arguments)| + 1, d, false, nextPc);
        if entered.None? || !SizesFit(m.fp, entered.value.fp, entered.value.lp) then None else entered
  }

  /** Runs code. `None` when some frame does not fit the stack cache or the eight-bit size fields, when a trap halts
      the machine, or when a call that is not in tail position asks for return. */
  function Run(vector: seq<Word>, m: Machine, code: Code): (r: Option<Machine>)
    requires FEP_MODE_VECTOR < |vector| && |m.stack| == WINDOW
    ensures r.Some? ==> |r.value.stack| == WINDOW
    decreases code, 0
  {
    match code
    case Nothing => Some(m)
    case Push(w, rest) => if m.sp + 1 < WINDOW then Run(vector, CallStack.Push(m, CdrNext(w)), rest) else None
    case Call(callee, extra, arguments, d, nextPc, body, rest) =>
      var entered := Enter(vector, m, callee, extra, arguments, d, nextPc);
      if entered.None? || d == RETURN then None
      else
        var back := RunBody(vector, entered.value, body);
        if back.None? then None else Run(vector, back.value, rest)
    case Trap(pushed, index, extras, handler, rest) =>
      if index >= |vector| || |extras| > 2 || m.sp + |pushed| >= WINDOW then None
      else
        var trapped := TakePreTrap(PushAll(m, pushed), m.sp, vector, index, extras);
        if trapped.None? || !SizesFit(m.fp, m.sp + 1, m.sp + 1) then None
        else
          var back := RunBody(vector, trapped.value, handler);
          if back.None? then None else Run(vector, back.value, rest)
  }

  /** Runs a body in its frame, return included. */
  function RunBody(vector: seq<Word>, m: Machine, body: Body): (r: Option<Machine>)
    requires FEP_MODE_VECTOR < |vector| && |m.stack| == WINDOW
    ensures r.Some? ==> |r.value.stack| == WINDOW
    decreases body, 0
  {
    match body
    case Returns(code, value) =>
      var end := Run(vector, m, code);
      if end.None? then None else ReturnSingle(end.value, value)
    case TailCalls(code, callee, extra, arguments, nextPc, inner) =>
      var end := Run(vector, m, code);
      if end.None? then None
      else
        var entered := Enter(vector, end.value, callee, extra, arguments, RETURN, nextPc);
        if entered.None? then None else RunBody(vector, entered.value, inner)
  }

  // ---------- What returning restores ----------

  /** Equal but for the cdr code. */
  predicate SameWord(a: Word, b: Word) { a.tag % 64 == b.tag % 64 && a.datum == b.datum }

  /** Two machines that no further execution can tell apart: same registers, the PCs up to their cdr bits, and the
      same stack up to its top. */
  ghost predicate Agree(a: Machine, b: Machine) {
    && |a.stack| == |b.stack| == WINDOW && a.fp == b.fp && a.sp == b.sp < WINDOW && a.lp == b.lp
    && a.control == b.control
    && SameWord(a.continuation, b.continuation) && SameWord(a.pc, b.pc)
    && a.stack[..a.sp + 1] == b.stack[..b.sp + 1]
  }

  /** The machine may return from the same frame to the same place. */
  ghost predicate SameFrame(a: Machine, b: Machine) {
    && |a.stack| == |b.stack| == WINDOW && a.fp == b.fp && a.fp + 1 < WINDOW && a.control == b.control
    && SameWord(a.continuation, b.continuation) && a.stack[..a.fp + 2] == b.stack[..b.fp + 2]
  }

  lemma {:induction false} DeliverAgrees(a: Machine, b: Machine, d: Field2, v: Word)
    requires Agree(a, b) && Deliver(a, d, v).Some?
    ensures Deliver(b, d, v).Some? && Agree(Deliver(a, d, v).value, Deliver(b, d, v).value)
  {
  }

  /** A return depends on nothing but the frame header, the control word and the continuation. */
  lemma {:induction false} ReturnDependsOnFrame(a: Machine, b: Machine, v: Word)
    requires SameFrame(a, b) && ReturnSingle(a, v).Some?
    ensures ReturnSingle(b, v).Some? && Agree(ReturnSingle(a, v).value, ReturnSingle(b, v).value)
    decreases a.fp
  {
    hide Unpack, Deliver;
    assert a.stack[a.fp] == a.stack[..a.fp + 2][a.fp] && a.stack[a.fp + 1] == a.stack[..a.fp + 2][a.fp + 1];
    assert b.stack[b.fp] == b.stack[..b.fp + 2][b.fp] && b.stack[b.fp + 1] == b.stack[..b.fp + 2][b.fp + 1];
    var a', b' := PopFrame(a), PopFrame(b);
    assert forall k :: 0 <= k <= a.fp + 2 ==>
      a.stack[..k] == a.stack[..a.fp + 2][..k] && b.stack[..k] == b.stack[..b.fp + 2][..k];
    if a.control.disposition == RETURN {
      ReturnDependsOnFrame(a', b', v);
    } else {
      DeliverAgrees(a', b', a.control.disposition, v);
    }
  }

  /** `e` runs in a frame that `m` has just called with value disposition `d`, to come back to `nextPc`. */
  ghost predicate Entered(m: Machine, e: Machine, d: Field2, nextPc: Word) {
    && m.Valid() && e.Valid() && e.fp == m.sp + 1
    && e.control.callerFrameSize == e.fp - m.fp && e.control.disposition == d && !CleanupBits(e.control)
    && e.continuation == nextPc
    && e.stack[..m.sp + 1] == m.stack[..m.sp + 1]
    && SameWord(e.stack[m.sp + 1], m.continuation) && e.stack[m.sp + 1].tag / 64 == 3
    && e.stack[m.sp + 2] == Word(3 * 64 + TYPE_FIXNUM, Pack(m.control))
  }

  /** `e` is about to run `callee` (but for the cdr code of the PC) in a frame that holds just `arguments`. */
  ghost predicate Called(e: Machine, callee: Word, arguments: seq<Word>) {
    && SameWord(e.pc, callee)
    && |e.stack| == WINDOW && e.fp + 2 <= e.lp == e.sp + 1 <= WINDOW && e.stack[e.fp + 2..e.lp] == arguments
  }

  /** The control word of a new frame: the caller's but for its sizes, its disposition and the cleared flags. */
  ghost predicate Inherits(c: Control, c': Control) {
    c' == c.(argumentSize := c'.argumentSize, callerFrameSize := c'.callerFrameSize, disposition := c'.disposition,
             apply := false, extraArgument := false, callStarted := false, trapOnExit := false,
             cleanupBindings := false, cleanupCatch := false)
  }

  /** The caller's state after a call that delivered `ws`. */
  ghost predicate Back(m: Machine, m': Machine, ws: seq<Word>) {
    && m.Valid() && m'.Valid() && m'.fp == m.fp && m'.lp == m.lp && m'.control == m.control
    && SameWord(m'.continuation, m.continuation)
    && m'.sp == m.sp + |ws| && m'.stack[..m'.sp + 1] == m.stack[..m.sp + 1] + ws
  }

  /** Leaving a frame gives its caller back: registers, control word and everything on its stack. */
  lemma {:induction false} PopRestores(m: Machine, e: Machine, d: Field2, nextPc: Word)
    requires Entered(m, e, d, nextPc)
    ensures Back(m, PopFrame(e), []) && SameFrame(PopFrame(e), m)
    ensures PopFrame(e).pc == if d == RETURN then e.pc else nextPc
  {
    hide Unpack, Pack;
    UnpackPack(m.control);
    assert m.fp + 2 <= m.sp + 1;
    assert e.stack[..m.fp + 2] == e.stack[..m.sp + 1][..m.fp + 2];
    assert m.stack[..m.fp + 2] == m.stack[..m.sp + 1][..m.fp + 2];
  }

  lemma {:induction false} ReturnDelivers(m: Machine, e: Machine, d: Field2, nextPc: Word, v: Word)
    requires Entered(m, e, d, nextPc) && d != RETURN && ReturnSingle(e, v).Some?
    ensures Back(m, ReturnSingle(e, v).value, Delivered(d, v)) && ReturnSingle(e, v).value.pc == nextPc
  {
    hide Unpack, Pack;
    PopRestores(m, e, d, nextPc);
    var p := PopFrame(e);
    var r := Deliver(p, d, v).value;
    assert ReturnSingle(e, v) == Deliver(p, d, v);
    assert r.stack[..r.sp + 1] == p.stack[..p.sp + 1] + Delivered(d, v);
    assert m.stack[..m.sp + 1] + [] == m.stack[..m.sp + 1];
  }

  // ---------- Entering frames ----------

  lemma {:induction false} HeaderPushed(m: Machine)
    requires m.Valid() && m.sp + 2 < WINDOW
    ensures var h := PushHeader(m);
      && h == m.(stack := h.stack, sp := m.sp + 2) && |h.stack| == WINDOW
      && h.stack[..m.sp + 1] == m.stack[..m.sp + 1]
      && SameWord(h.stack[m.sp + 1], m.continuation) && h.stack[m.sp + 1].tag / 64 == 3
      && h.stack[m.sp + 2] == Word(3 * 64 + TYPE_FIXNUM, Pack(m.control))
  {
    hide Pack;
  }

  /** After the arguments have been pushed above the header, finishing the call enters its frame. */
  lemma {:induction false} FinishEnters(m: Machine, started: Machine, ready: Machine, arguments: seq<Word>, d: Field2,
                                        nextPc: Word, callee: Word, extra: seq<Word>)
    requires m.Valid() && m.sp + 3 < WINDOW && Back(started, ready, arguments)
    requires started.fp == m.fp && started.sp == m.sp + 2 + B(started.control.extraArgument)
    requires started.stack[..m.sp + 1] == m.stack[..m.sp + 1]
    requires SameWord(started.stack[m.sp + 1], m.continuation) && started.stack[m.sp + 1].tag / 64 == 3
    requires started.stack[m.sp + 2] == Word(3 * 64 + TYPE_FIXNUM, Pack(m.control))
    requires started.control == m.control.(callStarted := true, extraArgument := started.control.extraArgument)
    requires SameWord(started.continuation, callee) && |extra| == B(started.control.extraArgument)
    requires started.stack[m.sp + 3..started.sp + 1] == extra
    requires FinishCall(ready, |arguments| + 1, d, false, nextPc).Some?
    requires var f := FinishCall(ready, |arguments| + 1, d, false, nextPc).value; SizesFit(m.fp, f.fp, f.lp)
    ensures Entered(m, FinishCall(ready, |arguments| + 1, d, false, nextPc).value, d, nextPc)
    ensures Called(FinishCall(ready, |arguments| + 1, d, false, nextPc).value, callee, extra + arguments)
    ensures Inherits(m.control, FinishCall(ready, |arguments| + 1, d, false, nextPc).value.control)
  {
    hide Pack, FrameControl;
    var f := FinishCall(ready, |arguments| + 1, d, false, nextPc).value;
    FrameControlExactly(ready.control, m.fp, f.fp, f.lp, d, false);
    assert forall i :: 0 <= i <= started.sp ==> ready.stack[i] == ready.stack[..ready.sp + 1][i] == started.stack[i];
    assert ready.stack[..m.sp + 1] == started.stack[..m.sp + 1];
    assert ready.stack[m.sp + 3..ready.sp + 1] == ready.stack[..ready.sp + 1][m.sp + 3..];
    assert started.stack[..started.sp + 1][m.sp + 3..] == extra;
  }

  /** The handler of a trap, as the vector has it: at the index in the lower trap modes, or else, or when that is no PC,
      at the console processor's entry. */
  function Handler(vector: seq<Word>, mode: Field2, index: nat): Option<Word>
    requires FEP_MODE_VECTOR < |vector| && index < |vector|
  {
    var pcs := {TYPE_EVEN_PC, TYPE_ODD_PC};
    if mode < 3 && TagType(vector[index].tag) in pcs then Some(vector[index])
    else if TagType(vector[FEP_MODE_VECTOR].tag) in pcs then Some(vector[FEP_MODE_VECTOR])
    else None
  }

  lemma HandlerExactly(vector: seq<Word>, mode: Field2, index: nat)
    requires FEP_MODE_VECTOR < |vector| && index < |vector|
    ensures FetchTrapVectorEntry(vector, mode, index) == Handler(vector, mode, index)
    decreases 3 - mode
  {
    if mode < 3 {
      HandlerExactly(vector, 3, index);
    }
  }

  /** A trap enters its handler, in a frame that holds the index, the trapping PC and the extra arguments, and in the
      handler's trap mode if that is higher; the machine halts if there is no handler, and the stack cache scrolls if
      eight more words could end above its limit. */
  lemma {:induction false} TrapCalls(vector: seq<Word>, m: Machine, restartsp: nat, index: Datum, extras: seq<Word>)
    requires FEP_MODE_VECTOR < |vector| && index < |vector| && |extras| <= 2
    requires m.(sp := restartsp).Valid() && restartsp + 1 < m.fp + 256
    ensures var t, handler := TakePreTrap(m, restartsp, vector, index, extras),
        Handler(vector, m.control.trapMode, index);
      if restartsp + 8 > LIMIT || handler.None? then t.None?
      else
        && t.Some? && t.value.pc == handler.value
        && Called(t.value, handler.value, Plain([Word(TYPE_FIXNUM, index), m.pc] + extras))
        && TrapInherits(m.control, t.value.control, handler.value.tag / 64)
  {
    hide FetchTrapVectorEntry, Pack, PushHeader, FrameControl, PushAll, CdrNext, Handler;
    if restartsp + 8 > LIMIT { return; }
    var start := m.(sp := restartsp);
    HeaderPushed(start);
    var h := PushHeader(start);
    var p := PushAll(h, [Word(TYPE_FIXNUM, index), m.pc] + extras);
    FrameControlExactly(Untraced(m.control), m.fp, restartsp + 1, p.sp + 1, EFFECT, false);
    HandlerExactly(vector, m.control.trapMode, index);
    PushedSlice(h, [Word(TYPE_FIXNUM, index), m.pc] + extras);
  }

  /** The control word of a handler's frame: as for a call, in the higher of two trap modes, and without traces. */
  ghost predicate TrapInherits(c: Control, c': Control, mode: nat) {
    && Inherits(c.(tracePending := false, callTrace := false, instructionTrace := false), c'.(trapMode := c.trapMode))
    && c'.trapMode == if c.trapMode < mode then mode else c.trapMode
  }

  /** Words without their cdr codes. */
  function Plain(ws: seq<Word>): (r: seq<Word>)
    ensures |r| == |ws|
  {
    seq(|ws|, i requires 0 <= i < |ws| => CdrNext(ws[i]))
  }

  lemma PushedSlice(m: Machine, ws: seq<Word>)
    requires m.sp + |ws| < |m.stack|
    ensures var p := PushAll(m, ws); p.stack[m.sp + 1..p.sp + 1] == Plain(ws)
  {
    hide PushAll, CdrNext;
    PushedWords(m, ws);
    var p := PushAll(m, ws);
    forall i | 0 <= i < |ws| ensures p.stack[m.sp + 1..p.sp + 1][i] == Plain(ws)[i] {
      assert p.stack[m.sp + 1 + i] == CdrNext(ws[i]);
    }
  }

  lemma {:induction false} PushedWords(m: Machine, ws: seq<Word>)
    requires m.sp + |ws| < |m.stack|
    ensures var p := PushAll(m, ws);
      forall i | 0 <= i < |ws| :: p.stack[m.sp + 1 + i] == CdrNext(ws[i])
    decreases |ws|
  {
    if ws != [] {
      var next := CallStack.Push(m, CdrNext(ws[0]));
      PushedWords(next, ws[1..]);
      var p := PushAll(next, ws[1..]);
      assert p.stack[m.sp + 1] == p.stack[..next.sp + 1][m.sp + 1] == next.stack[..next.sp + 1][m.sp + 1];
      forall i | 0 <= i < |ws| ensures p.stack[m.sp + 1 + i] == CdrNext(ws[i]) {
        if i > 0 { assert p.stack[next.sp + 1 + (i - 1)] == CdrNext(ws[1..][i - 1]); }
      }
    }
  }

  lemma {:induction false} TrapEnters(vector: seq<Word>, m: Machine, restartsp: nat, index: Datum, extras: seq<Word>)
    requires FEP_MODE_VECTOR < |vector| && index < |vector| && |extras| <= 2 && m.(sp := restartsp).Valid()
    requires TakePreTrap(m, restartsp, vector, index, extras).Some? && restartsp + 1 < m.fp + 256
    ensures Entered(m.(sp := restartsp), TakePreTrap(m, restartsp, vector, index, extras).value, EFFECT, m.pc)
  {
    hide FetchTrapVectorEntry, Pack, PushHeader, FrameControl;
    var start := m.(sp := restartsp);
    HeaderPushed(start);
    var h := PushHeader(start);
    var p := PushAll(h, [Word(TYPE_FIXNUM, index), m.pc] + extras);
    FrameControlExactly(Untraced(m.control), m.fp, restartsp + 1, p.sp + 1, EFFECT, false);
    assert forall i :: 0 <= i <= h.sp ==> p.stack[i] == p.stack[..h.sp + 1][i] == h.stack[i];
    assert p.stack[..restartsp + 1] == h.stack[..restartsp + 1];
  }

  // ---------- The theorem ----------

  /** A call, whatever code computes its arguments, enters its callee in a frame that holds the extra argument, if any,
      and the arguments' values, and that knows its caller. */
  lemma {:induction false} EnterNests(vector: seq<Word>, m: Machine, callee: Word, extra: Option<Word>, arguments: Code,
                                      d: Field2, nextPc: Word)
    requires FEP_MODE_VECTOR < |vector| && m.Valid() && Enter(vector, m, callee, extra, arguments, d, nextPc).Some?
    ensures Entered(m, Enter(vector, m, callee, extra, arguments, d, nextPc).value, d, nextPc)
    ensures Called(Enter(vector, m, callee, extra, arguments, d, nextPc).value, callee,
                   (if extra.Some? then [CdrNext(extra.value)] else []) + Contents(arguments))
    ensures Inherits(m.control, Enter(vector, m, callee, extra, arguments, d, nextPc).value.control)
    decreases arguments, 1
  {
    hide Pack, FinishCall, Run, PushHeader;
    HeaderPushed(m);
    var started := StartCall(m, callee, extra);
    RunNests(vector, started, arguments);
    var extras := if extra.Some? then [CdrNext(extra.value)] else [];
    assert started.stack[m.sp + 3..started.sp + 1] == extras;
    FinishEnters(m, started, Run(vector, started, arguments).value, Contents(arguments), d, nextPc, callee, extras);
  }

  /** Any code, with calls and traps nested to any depth, leaves its frame as it found it, the words of its meaning on
      top of the stack. */
  lemma {:induction false} RunNests(vector: seq<Word>, m: Machine, code: Code)
    requires FEP_MODE_VECTOR < |vector| && m.Valid() && Run(vector, m, code).Some?
    ensures Back(m, Run(vector, m, code).value, Contents(code))
    decreases code, 0
  {
    hide TakePreTrap, Enter, RunBody, ReturnSingle, PushAll;
    match code
    case Nothing =>
      assert m.stack[..m.sp + 1] + [] == m.stack[..m.sp + 1];
    case Push(w, rest) =>
      var next := CallStack.Push(m, CdrNext(w));
      assert next.stack[..next.sp + 1] == m.stack[..m.sp + 1] + [CdrNext(w)];
      RunNests(vector, next, rest);
      BackChain(m, next, Run(vector, next, rest).value, [CdrNext(w)], Contents(rest));
    case Call(callee, extra, arguments, d, nextPc, body, rest) =>
      EnterNests(vector, m, callee, extra, arguments, d, nextPc);
      var e := Enter(vector, m, callee, extra, arguments, d, nextPc).value;
      CallComesBack(vector, m, e, d, nextPc, body);
      var back := RunBody(vector, e, body).value;
      RunNests(vector, back, rest);
      BackChain(m, back, Run(vector, back, rest).value, Delivered(d, Result(body)), Contents(rest));
    case Trap(pushed, index, extras, handler, rest) =>
      var begun := PushAll(m, pushed);
      PushedBack(m, pushed);
      var back := RunBody(vector, TakePreTrap(begun, m.sp, vector, index, extras).value, handler).value;
      TrapComesBack(vector, begun, m.sp, index, extras, handler);
      BackChain(m, begun.(sp := m.sp), back, [], []);
      RunNests(vector, back, rest);
      BackChain(m, back, Run(vector, back, rest).value, [], Contents(rest));
      assert [] + Contents(rest) == Contents(rest);
  }

  /** While its arguments are computed, whatever they call, a call stays marked as started, with or without an extra
      argument, and with its callee as the continuation; the caller's own control word and continuation are in the
      header. */
  lemma {:induction false} CallStaysStarted(vector: seq<Word>, m: Machine, callee: Word, extra: Option<Word>,
                                            arguments: Code)
    requires FEP_MODE_VECTOR < |vector| && m.Valid() && m.sp + 3 < WINDOW
    requires Run(vector, StartCall(m, callee, extra), arguments).Some?
    ensures var ready := Run(vector, StartCall(m, callee, extra), arguments).value;
      && ready.control == m.control.(callStarted := true, extraArgument := extra.Some?)
      && SameWord(ready.continuation, callee) && ready.fp == m.fp && ready.lp == m.lp
      && SameWord(ready.stack[m.sp + 1], m.continuation) && ready.stack[m.sp + 2].datum == Pack(m.control)
  {
    hide Pack, Run, PushHeader;
    HeaderPushed(m);
    var started := StartCall(m, callee, extra);
    RunNests(vector, started, arguments);
    var ready := Run(vector, started, arguments).value;
    assert forall i :: 0 <= i <= started.sp ==> ready.stack[i] == ready.stack[..ready.sp + 1][i] == started.stack[i];
  }

  lemma PushedBack(m: Machine, ws: seq<Word>)
    requires m.Valid() && m.sp + |ws| < WINDOW
    ensures Back(m, PushAll(m, ws).(sp := m.sp), [])
  {
    hide PushAll;
    assert m.stack[..m.sp + 1] + [] == m.stack[..m.sp + 1];
  }

  lemma {:induction false} BackChain(a: Machine, b: Machine, c: Machine, ws: seq<Word>, ws': seq<Word>)
    requires Back(a, b, ws) && Back(b, c, ws')
    ensures Back(a, c, ws + ws')
  {
    assert a.stack[..a.sp + 1] + ws + ws' == a.stack[..a.sp + 1] + (ws + ws');
  }

  /** A frame entered by a call or a trap returns to its caller, with the value its body computes. */
  lemma {:induction false} CallComesBack(vector: seq<Word>, m: Machine, e: Machine, d: Field2, nextPc: Word, body: Body)
    requires FEP_MODE_VECTOR < |vector| && Entered(m, e, d, nextPc) && d != RETURN && RunBody(vector, e, body).Some?
    ensures var m' := RunBody(vector, e, body).value;
      Back(m, m', Delivered(d, Result(body))) && SameWord(m'.pc, nextPc)
    decreases body, 1
  {
    hide RunBody, ReturnSingle;
    BodyReturns(vector, e, body);
    ReturnDelivers(m, e, d, nextPc, Result(body));
    var m', r := RunBody(vector, e, body).value, ReturnSingle(e, Result(body)).value;
    assert Agree(m', r);
  }

  /** Running a body, tail calls included, amounts to returning its result from the frame it started in. */
  lemma {:induction false} BodyReturns(vector: seq<Word>, m: Machine, body: Body)
    requires FEP_MODE_VECTOR < |vector| && m.Valid() && RunBody(vector, m, body).Some?
    ensures ReturnSingle(m, Result(body)).Some?
    ensures Agree(RunBody(vector, m, body).value, ReturnSingle(m, Result(body)).value)
    decreases body, 0
  {
    hide Run, Enter, PopFrame, ReturnSingle;
    match body
    case Returns(code, value) =>
      RunNests(vector, m, code);
      var end := Run(vector, m, code).value;
      BackKeepsFrame(m, end, Contents(code));
      ReturnDependsOnFrame(end, m, value);
    case TailCalls(code, callee, extra, arguments, nextPc, inner) =>
      RunNests(vector, m, code);
      var end := Run(vector, m, code).value;
      EnterNests(vector, end, callee, extra, arguments, RETURN, nextPc);
      var e := Enter(vector, end, callee, extra, arguments, RETURN, nextPc).value;
      BodyReturns(vector, e, inner);
      var v := Result(inner);
      ReturnThrough(end, e, nextPc, v);
      BackKeepsFrame(m, end, Contents(code));
      ReturnDependsOnFrame(end, m, v);
  }

  lemma {:induction false} BackKeepsFrame(m: Machine, m': Machine, ws: seq<Word>)
    requires Back(m, m', ws)
    ensures SameFrame(m', m)
  {
    assert m'.stack[..m.fp + 2] == m'.stack[..m'.sp + 1][..m.fp + 2];
    assert m.stack[..m.fp + 2] == m.stack[..m.sp + 1][..m.fp + 2];
  }

  /** Returning from a frame called for return is returning from its caller. */
  lemma {:induction false} ReturnThrough(m: Machine, e: Machine, nextPc: Word, v: Word)
    requires Entered(m, e, RETURN, nextPc) && ReturnSingle(e, v).Some?
    ensures ReturnSingle(m, v).Some? && Agree(ReturnSingle(e, v).value, ReturnSingle(m, v).value)
  {
    hide Unpack, Pack;
    PopRestores(m, e, RETURN, nextPc);
    assert ReturnSingle(e, v) == ReturnSingle(PopFrame(e), v);
    ReturnDependsOnFrame(PopFrame(e), m, v);
  }

  /** When the handler of a trap, whatever it does, returns, everything is as at the trap, but for the stack pointer,
      which is back where the instruction found it. */
  lemma {:induction false} TrapComesBack(vector: seq<Word>, m: Machine, restartsp: nat, index: Datum, extras: seq<Word>,
                                         handler: Body)
    requires FEP_MODE_VECTOR < |vector| && index < |vector| && |extras| <= 2
    requires m.(sp := restartsp).Valid() && restartsp + 1 < m.fp + 256
    requires TakePreTrap(m, restartsp, vector, index, extras).Some?
    requires RunBody(vector, TakePreTrap(m, restartsp, vector, index, extras).value, handler).Some?
    ensures var m' := RunBody(vector, TakePreTrap(m, restartsp, vector, index, extras).value, handler).value;
      Back(m.(sp := restartsp), m', []) && SameWord(m'.pc, m.pc)
    decreases handler, 2
  {
    hide TakePreTrap, RunBody;
    TrapEnters(vector, m, restartsp, index, extras);
    var e := TakePreTrap(m, restartsp, vector, index, extras).value;
    CallComesBack(vector, m.(sp := restartsp), e, EFFECT, m.pc, handler);
  }

  /** A trap is transparent: after it the instruction can be run again from the machine `before` that it started on, if
      and only if it had, until the trap at `m`, left alone the registers other than the stack pointer and the stack up
      to where it started. */
  lemma {:induction false} TrapIsTransparent(vector: seq<Word>, before: Machine, m: Machine, index: Datum,
                                             extras: seq<Word>, handler: Body)
    requires FEP_MODE_VECTOR < |vector| && index < |vector| && |extras| <= 2
    requires m.(sp := before.sp).Valid() && before.sp + 1 < m.fp + 256
    requires TakePreTrap(m, before.sp, vector, index, extras).Some?
    requires RunBody(vector, TakePreTrap(m, before.sp, vector, index, extras).value, handler).Some?
    ensures Agree(RunBody(vector, TakePreTrap(m, before.sp, vector, index, extras).value, handler).value, before) <==>
      Agree(m.(sp := before.sp), before)
  {
    hide TakePreTrap, RunBody;
    TrapComesBack(vector, m, before.sp, index, extras, handler);
    assert m.stack[..before.sp + 1] + [] == m.stack[..before.sp + 1];
  }
}
