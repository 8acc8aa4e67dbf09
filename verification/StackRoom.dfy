/** Which nested calls and traps run inside the stack cache, told from stack positions alone. */
module StackRoom {
  import opened Wrappers
  import opened TaggedMemory
  import opened Ivory
  import opened ControlWord
  import opened CallStack
  import opened NestedCalls

  /** A frame above `sp` for `words` words, called from the frame at `fp`: the start of the call, its frame below the
      limit and both sizes in eight bits. */
  predicate FrameFits(fp: nat, sp: nat, words: nat) {
    sp + 3 < WINDOW && sp + 1 <= LIMIT && sp + 1 < fp + 256 && words + 2 < 256
  }

  function Extras(extra: Option<Word>): nat { if extra.Some? then 1 else 0 }

  function Higher(mode: Field2, handler: Word): Field2 { if mode < handler.tag / 64 then handler.tag / 64 else mode }

  /** Code that starts with the top of the stack at `sp`, in the frame at `fp` and the given trap mode, stays inside. */
  predicate Fits(vector: seq<Word>, fp: nat, sp: nat, mode: Field2, code: Code)
    requires FEP_MODE_VECTOR < |vector|
    decreases code, 0
  {
    match code
    case Nothing => true
    case Push(_, rest) => sp + 1 < WINDOW && Fits(vector, fp, sp + 1, mode, rest)
    case Call(_, extra, arguments, d, _, body, rest) =>
      var words, results := Extras(extra) + |Contents(arguments)|, |Delivered(d, Result(body))|;
      && d != RETURN
      && CallFits(vector, fp, sp, mode, extra, arguments)
      && BodyFits(vector, sp + 1, sp + 2 + words, mode, body)
      && sp + results < WINDOW && Fits(vector, fp, sp + results, mode, rest)
    case Trap(pushed, index, extras, handler, rest) =>
      && index < |vector| && |extras| <= 2 && sp + |pushed| < WINDOW
      && sp + 8 <= LIMIT && sp + 1 < fp + 256
      && Handler(vector, mode, index).Some?
      && BodyFits(vector, sp + 1, sp + 4 + |extras|, Higher(mode, Handler(vector, mode, index).value), handler)
      && Fits(vector, fp, sp, mode, rest)
  }

  predicate CallFits(vector: seq<Word>, fp: nat, sp: nat, mode: Field2, extra: Option<Word>, arguments: Code)
    requires FEP_MODE_VECTOR < |vector|
    decreases arguments, 1
  {
    && FrameFits(fp, sp, Extras(extra) + |Contents(arguments)|)
    && Fits(vector, fp, sp + 2 + Extras(extra), mode, arguments)
  }

  predicate BodyFits(vector: seq<Word>, fp: nat, sp: nat, mode: Field2, body: Body)
    requires FEP_MODE_VECTOR < |vector|
    decreases body, 0
  {
    match body
    case Returns(code, _) => Fits(vector, fp, sp, mode, code)
    case TailCalls(code, _, extra, arguments, _, inner) =>
      var sp' := sp + |Contents(code)|;
      && Fits(vector, fp, sp, mode, code) && CallFits(vector, fp, sp', mode, extra, arguments)
      && BodyFits(vector, sp' + 1, sp' + 2 + Extras(extra) + |Contents(arguments)|, mode, inner)
  }

  /** Code runs if and only if it fits. */
  lemma {:induction false} RunsExactly(vector: seq<Word>, m: Machine, code: Code)
    requires FEP_MODE_VECTOR < |vector| && m.Valid()
    ensures Run(vector, m, code).Some? <==> Fits(vector, m.fp, m.sp, m.control.trapMode, code)
    decreases code, 1
  {
    hide TakePreTrap, Enter, RunBody, ReturnSingle, PushAll, CallFits, BodyFits, Handler;
    match code
    case Nothing =>
    case Push(w, rest) =>
      if m.sp + 1 < WINDOW {
        RunsExactly(vector, CallStack.Push(m, CdrNext(w)), rest);
      }
    case Call(callee, extra, arguments, d, nextPc, body, rest) =>
      EntersExactly(vector, m, callee, extra, arguments, d, nextPc);
      var entered := Enter(vector, m, callee, extra, arguments, d, nextPc);
      if entered.Some? && d != RETURN {
        EntersThere(vector, m, callee, extra, arguments, d, nextPc);
        BodyRunsExactly(vector, entered.value, body);
        ReturnsExactly(m, entered.value, d, nextPc, Result(body));
        var back := RunBody(vector, entered.value, body);
        if back.Some? {
          CallComesBack(vector, m, entered.value, d, nextPc, body);
          RunsExactly(vector, back.value, rest);
        }
      }
    case Trap(pushed, index, extras, handler, rest) =>
      if index < |vector| && |extras| <= 2 && m.sp + |pushed| < WINDOW && m.sp + 1 < m.fp + 256 {
        TrapRunsExactly(vector, m, pushed, index, extras, handler, rest);
      }
  }

  lemma {:induction false} TrapRunsExactly(vector: seq<Word>, m: Machine, pushed: seq<Word>, index: Datum,
                                           extras: seq<Word>, handler: Body, rest: Code)
    requires FEP_MODE_VECTOR < |vector| && m.Valid()
    requires index < |vector| && |extras| <= 2 && m.sp + |pushed| < WINDOW && m.sp + 1 < m.fp + 256
    ensures var code := Trap(pushed, index, extras, handler, rest);
      Run(vector, m, code).Some? <==> Fits(vector, m.fp, m.sp, m.control.trapMode, code)
    decreases Trap(pushed, index, extras, handler, rest), 0
  {
    hide TakePreTrap, RunBody, ReturnSingle, PushAll, BodyFits, Handler, Entered, Higher;
    var begun := PushAll(m, pushed);
    PushedBack(m, pushed);
    TrapEntersExactly(vector, m, begun, index, extras);
    var trapped := TakePreTrap(begun, m.sp, vector, index, extras);
    if trapped.Some? {
      var e := trapped.value;
      BodyRunsExactly(vector, e, handler);
      ReturnsExactly(begun.(sp := m.sp), e, EFFECT, m.pc, Result(handler));
      var back := RunBody(vector, e, handler);
      if back.Some? {
        TrapComesBack(vector, begun, m.sp, index, extras, handler);
        RunsExactly(vector, back.value, rest);
      }
    }
  }

  lemma TrapEntersExactly(vector: seq<Word>, m: Machine, begun: Machine, index: Datum, extras: seq<Word>)
    requires FEP_MODE_VECTOR < |vector| && index < |vector| && |extras| <= 2 && m.sp + 1 < m.fp + 256
    requires begun.(sp := m.sp).Valid() && begun.control == m.control && begun.fp == m.fp
    ensures var t := TakePreTrap(begun, m.sp, vector, index, extras);
      var handler := Handler(vector, m.control.trapMode, index);
      && (t.Some? <==> m.sp + 8 <= LIMIT && handler.Some?)
      && (t.Some? ==>
            && Entered(begun.(sp := m.sp), t.value, EFFECT, begun.pc) && t.value.Valid()
            && t.value.fp == m.sp + 1 && t.value.sp == m.sp + 4 + |extras|
            && t.value.control.trapMode == Higher(m.control.trapMode, handler.value))
  {
    hide TakePreTrap, Handler;
    TrapCalls(vector, begun, m.sp, index, extras);
    if TakePreTrap(begun, m.sp, vector, index, extras).Some? {
      TrapEnters(vector, begun, m.sp, index, extras);
    }
  }

  lemma FinishFits(m: Machine, ready: Machine, passed: nat, d: Field2, nextPc: Word)
    requires m.Valid() && ready.sp == m.sp + 2 + B(ready.control.extraArgument) + passed
    ensures var f := FinishCall(ready, passed + 1, d, false, nextPc);
      (f.Some? && SizesFit(m.fp, f.value.fp, f.value.lp)) <==>
      (m.sp + 1 <= LIMIT && m.sp + 1 < m.fp + 256 && passed + B(ready.control.extraArgument) + 2 < 256)
  {
    hide FrameControl;
  }

  lemma {:induction false} EntersExactly(vector: seq<Word>, m: Machine, callee: Word, extra: Option<Word>,
                                         arguments: Code,
                                         d: Field2, nextPc: Word)
    requires FEP_MODE_VECTOR < |vector| && m.Valid()
    ensures Enter(vector, m, callee, extra, arguments, d, nextPc).Some? <==>
      CallFits(vector, m.fp, m.sp, m.control.trapMode, extra, arguments)
    decreases arguments, 2
  {
    hide FinishCall, Run, Fits, StartCall;
    if m.sp + 3 < WINDOW {
      StartFits(m, callee, extra);
      var started := StartCall(m, callee, extra);
      RunsExactly(vector, started, arguments);
      var ready := Run(vector, started, arguments);
      if ready.Some? {
        RunNests(vector, started, arguments);
        FinishFits(m, ready.value, |Contents(arguments)|, d, nextPc);
      }
    }
  }

  lemma EntersThere(vector: seq<Word>, m: Machine, callee: Word, extra: Option<Word>, arguments: Code, d: Field2,
                    nextPc: Word)
    requires FEP_MODE_VECTOR < |vector| && m.Valid() && Enter(vector, m, callee, extra, arguments, d, nextPc).Some?
    ensures var e := Enter(vector, m, callee, extra, arguments, d, nextPc).value;
      && Entered(m, e, d, nextPc) && e.control.trapMode == m.control.trapMode
      && e.sp == m.sp + 2 + Extras(extra) + |Contents(arguments)|
  {
    hide Pack, Enter;
    EnterNests(vector, m, callee, extra, arguments, d, nextPc);
  }

  lemma StartFits(m: Machine, callee: Word, extra: Option<Word>)
    requires m.Valid() && m.sp + 3 < WINDOW
    ensures var started := StartCall(m, callee, extra);
      && started.Valid() && started.fp == m.fp && started.sp == m.sp + 2 + Extras(extra)
      && started.control.trapMode == m.control.trapMode && B(started.control.extraArgument) == Extras(extra)
  {
    hide Pack, PushHeader;
    HeaderPushed(m);
  }

  /** A body runs if and only if it fits and its frame can be returned from. */
  lemma {:induction false} BodyRunsExactly(vector: seq<Word>, m: Machine, body: Body)
    requires FEP_MODE_VECTOR < |vector| && m.Valid()
    ensures RunBody(vector, m, body).Some? <==>
      BodyFits(vector, m.fp, m.sp, m.control.trapMode, body) && ReturnSingle(m, Result(body)).Some?
    decreases body, 0
  {
    hide Run, Enter, PopFrame, ReturnSingle, Fits, CallFits;
    match body
    case Returns(code, value) =>
      RunsExactly(vector, m, code);
      var end := Run(vector, m, code);
      if end.Some? {
        RunNests(vector, m, code);
        SameReturn(m, end.value, Contents(code), value);
      }
    case TailCalls(code, callee, extra, arguments, nextPc, inner) =>
      RunsExactly(vector, m, code);
      var end := Run(vector, m, code);
      if end.Some? {
        RunNests(vector, m, code);
        EntersExactly(vector, end.value, callee, extra, arguments, RETURN, nextPc);
        var entered := Enter(vector, end.value, callee, extra, arguments, RETURN, nextPc);
        if entered.Some? {
          EntersThere(vector, end.value, callee, extra, arguments, RETURN, nextPc);
          BodyRunsExactly(vector, entered.value, inner);
          ReturnsThrough(end.value, entered.value, nextPc, Result(inner));
          SameReturn(m, end.value, Contents(code), Result(inner));
        }
      }
  }

  lemma SameReturn(m: Machine, m': Machine, ws: seq<Word>, v: Word)
    requires Back(m, m', ws)
    ensures ReturnSingle(m, v).Some? <==> ReturnSingle(m', v).Some?
  {
    hide ReturnSingle;
    BackKeepsFrame(m, m', ws);
    if ReturnSingle(m, v).Some? {
      ReturnDependsOnFrame(m, m', v);
    }
    if ReturnSingle(m', v).Some? {
      ReturnDependsOnFrame(m', m, v);
    }
  }

  lemma ReturnsThrough(m: Machine, e: Machine, nextPc: Word, v: Word)
    requires Entered(m, e, RETURN, nextPc)
    ensures ReturnSingle(e, v).Some? <==> ReturnSingle(m, v).Some?
  {
    hide Unpack, Pack, PopFrame;
    PopRestores(m, e, RETURN, nextPc);
    assert ReturnSingle(e, v) == ReturnSingle(PopFrame(e), v);
    hide ReturnSingle;
    SameReturn(m, PopFrame(e), [], v);
  }

  /** A frame that was called otherwise can be returned from if and only if its caller has room for the value. */
  lemma ReturnsExactly(m: Machine, e: Machine, d: Field2, nextPc: Word, v: Word)
    requires Entered(m, e, d, nextPc) && d != RETURN
    ensures ReturnSingle(e, v).Some? <==> m.sp + |Delivered(d, v)| < WINDOW
  {
    hide Unpack, Pack;
    PopRestores(m, e, d, nextPc);
    assert ReturnSingle(e, v) == Deliver(PopFrame(e), d, v);
  }
}
