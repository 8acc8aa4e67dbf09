/** Frames in the stack cache: starting and finishing calls, taking traps, and returning. */
module CallStack {
  import opened Wrappers
  import opened TaggedMemory
  import opened Ivory
  import opened Arithmetic
  import opened ControlWord

  const WINDOW := 1024
  const LIMIT := 896

  /** The registers that frames save and restore. `fp`, `sp` and `lp` index the stack cache; `sp` is its top. */
  datatype Machine = Machine(stack: seq<Word>, fp: nat, sp: nat, lp: nat, control: Control, continuation: Word,
                             pc: Word) {
    /** A frame starts with a continuation and a control word, and its arguments end just below `lp`. */
    ghost predicate Valid() {
      && |stack| == WINDOW && fp + 1 <= sp < WINDOW && lp == fp + control.argumentSize
    }
  }

  function Put(m: Machine, i: nat, w: Word): Machine
    requires i < |m.stack|
  {
    m.(stack := m.stack[i := w])
  }

  /** One word on top of the stack, with the given cdr bits or none. */
  function Push(m: Machine, w: Word): Machine
    requires m.sp + 1 < |m.stack|
  {
    Put(m, m.sp + 1, w).(sp := m.sp + 1)
  }

  /** A tag with both cdr bits set, as frame headers carry it. */
  function Framed(tag: Tag): Tag { tag % 64 + 192 }

  /** Pushes the frame header: the continuation and the control word. */
  function PushHeader(m: Machine): Machine
    requires m.sp + 2 < |m.stack|
  {
    Push(Push(m, Word(Framed(m.continuation.tag), m.continuation.datum)), Word(Framed(TYPE_FIXNUM), Pack(m.control)))
  }

  /** START-CALL of compiled code at `callee`; closures and interpreted functions push an extra argument. */
  function StartCall(m: Machine, callee: Word, extra: Option<Word>): Machine
    requires m.sp + 3 < |m.stack|
  {
    var h := PushHeader(m);
    var p := if extra.Some? then Push(h, CdrNext(extra.value)) else h;
    p.(control := p.control.(callStarted := true, extraArgument := extra.Some?), continuation := callee)
  }

  /** A control word without the fields that a new frame sets anew. */
  function Clear(c: Control, apply: bool): Control {
    c.(argumentSize := 0, callerFrameSize := 0, disposition := 0, apply := apply,
       extraArgument := false, callStarted := false, trapOnExit := false, cleanupBindings := false,
       cleanupCatch := false)
  }

  /** The control word of the frame [fp, lp) called from the frame at `oldFp`: the differences are ored into it as they
      are, in the 23 bits from the frame size field up. */
  function FrameControl(c: Control, oldFp: nat, fp: nat, lp: nat, disposition: Field2, apply: bool): Control
    requires fp <= lp
  {
    Unpack(Ored(Clear(c, apply), lp - fp, (fp - oldFp) % 0x80_0000, disposition))
  }

  /** The two sizes of a frame fit their eight bits. */
  predicate SizesFit(oldFp: nat, fp: nat, lp: nat) { 0 <= lp - fp < 256 && 0 <= fp - oldFp < 256 }

  /** The new frame records where it ends and where its caller's frame starts if and only if both sizes fit; and then it
      sets or clears just these fields. */
  lemma {:induction false} FrameControlExactly(c: Control, oldFp: nat, fp: nat, lp: nat, disposition: Field2,
                                               apply: bool)
    requires fp <= lp
    ensures var c' := FrameControl(c, oldFp, fp, lp, disposition, apply);
      && (fp + c'.argumentSize == lp && fp - c'.callerFrameSize == oldFp <==> SizesFit(oldFp, fp, lp))
      && (SizesFit(oldFp, fp, lp) ==>
            c' == c.(argumentSize := lp - fp, callerFrameSize := fp - oldFp, disposition := disposition, apply := apply,
                     extraArgument := false, callStarted := false, trapOnExit := false, cleanupBindings := false,
                     cleanupCatch := false))
  {
    hide Ored, Unpack;
    SizesFitExactly(Clear(c, apply), lp - fp, (fp - oldFp) % 0x80_0000, disposition);
  }

  /** FINISH-CALL with `n` words to pass and a value disposition. `None` when the new frame would start below the stack
      cache or make it scroll. */
  function FinishCall(m: Machine, n: nat, disposition: Field2, apply: bool, nextPc: Word): (r: Option<Machine>)
    ensures r.Some? ==> r.value.stack == m.stack
    ensures r.Some? <==> 0 <= m.sp - n - B(m.control.extraArgument) <= LIMIT
  {
    var extra := B(m.control.extraArgument);
    if m.sp < n + extra || m.sp - n - extra > LIMIT then None
    else
      var fp := m.sp - n - extra;
      var lp := if apply then m.sp else m.sp + 1;
      Some(m.(fp := fp, lp := lp, pc := m.continuation, continuation := nextPc,
              control := FrameControl(m.control, m.fp, fp, lp, disposition, apply)))
  }

  /** Leaves the current frame, without delivering anything yet. */
  function PopFrame(m: Machine): Machine
    requires m.fp + 1 < |m.stack| && 0 < m.fp && m.control.callerFrameSize <= m.fp
  {
    var saved := Unpack(m.stack[m.fp + 1].datum);
    var fp := m.fp - m.control.callerFrameSize;
    m.(pc := if m.control.disposition == RETURN then m.pc else m.continuation,
       continuation := m.stack[m.fp], sp := m.fp - 1, fp := fp, lp := fp + saved.argumentSize, control := saved)
  }

  function CleanupBits(c: Control): bool { c.trapOnExit || c.cleanupBindings || c.cleanupCatch }

  /** The cleanup bits are the three bits of the packed control word from bit 24 on. */
  lemma {:induction false} CleanupBitsExactly(c: Control)
    ensures CleanupBits(c) <==> Pack(c) / 0x100_0000 % 8 != 0
  {
    hide Pack, Upper;
    PackedLayout(c);
    var w, low := Pack(c), LowBits(c);
    var rest := B(c.trapOnExit) + 2 * B(c.cleanupBindings) + 4 * B(c.cleanupCatch);
    var high := B(c.tracePending) + 2 * B(c.callTrace) + 4 * B(c.instructionTrace) + 8 * c.trapMode;
    LowBitsBound(c);
    assert w == low + 0x100_0000 * (rest + 8 * high);
    assert w / 0x100_0000 == rest + 8 * high by { QuotientAndRest(low, 0x100_0000, rest + 8 * high); }
    QuotientAndRest(rest, 8, high);
  }

  function LowBits(c: Control): nat {
    c.argumentSize + 0x100 * B(c.extraArgument) + 0x200 * c.callerFrameSize + 0x2_0000 * B(c.apply) +
    0x4_0000 * c.disposition + 0x10_0000 * c.spare + 0x40_0000 * B(c.callStarted) + 0x80_0000 * B(c.cleanupInProgress)
  }

  lemma LowBitsBound(c: Control)
    ensures LowBits(c) < 0x100_0000
  {
  }

  /** How a value arrives in the frame returned to. */
  function Deliver(m: Machine, disposition: Field2, value: Word): (r: Option<Machine>)
    requires |m.stack| == WINDOW
    ensures r.Some? ==> |r.value.stack| == WINDOW
  {
    if disposition == VALUE then
      if m.sp + 1 < WINDOW then Some(Push(m, CdrNext(value))) else None
    else if disposition == MULTIPLE then
      if m.sp + 2 < WINDOW then Some(Push(Push(m, CdrNext(value)), Word(TYPE_FIXNUM, 1))) else None
    else Some(m)
  }

  /** RETURN-SINGLE: frames called for return are left one after the other, until one called otherwise takes the
      value. `None` when a frame has cleanups to run or lies outside the stack cache. */
  function ReturnSingle(m: Machine, value: Word): (r: Option<Machine>)
    requires |m.stack| == WINDOW
    ensures r.Some? ==> |r.value.stack| == WINDOW
    decreases m.fp
  {
    if CleanupBits(m.control) || m.fp == 0 || m.fp + 1 >= WINDOW || m.control.callerFrameSize > m.fp then None
    else
      var popped := PopFrame(m);
      if m.control.disposition == RETURN then
        if m.control.callerFrameSize == 0 then None else ReturnSingle(popped, value)
      else Deliver(popped, m.control.disposition, value)
  }

  // ---------- Traps ----------

  const FEP_MODE_VECTOR := 2631

  predicate PcType(w: Word) { TagType(w.tag) == TYPE_EVEN_PC || TagType(w.tag) == TYPE_ODD_PC }

  /** The trap handler's entry for `index`: the console processor's own entry in that mode, or when there is none. */
  function FetchTrapVectorEntry(vector: seq<Word>, mode: Field2, index: nat): Option<Word>
    requires FEP_MODE_VECTOR < |vector| && index < |vector|
    decreases 3 - mode
  {
    var entry := vector[if mode < 3 then index else FEP_MODE_VECTOR];
    if PcType(entry) then Some(entry) else if mode == 3 then None else FetchTrapVectorEntry(vector, 3, index)
  }

  function PushAll(m: Machine, ws: seq<Word>): (r: Machine)
    requires m.sp + |ws| < |m.stack|
    ensures r == m.(stack := r.stack, sp := m.sp + |ws|) && |r.stack| == |m.stack|
    ensures r.stack[..m.sp + 1] == m.stack[..m.sp + 1]
    decreases |ws|
  {
    if ws == [] then m else PushAll(Push(m, CdrNext(ws[0])), ws[1..])
  }

  /** A trap in the course of an instruction, with up to two extra arguments: the stack pointer goes back to
      `restartsp`, where the instruction found it, and the handler runs in a frame of its own, called for effect, to
      return to the instruction. `None` when the machine halts or the stack cache would scroll. */
  function TakePreTrap(m: Machine, restartsp: nat, vector: seq<Word>, index: Datum,
                       extras: seq<Word>): (r: Option<Machine>)
    requires FEP_MODE_VECTOR < |vector| && index < |vector| && |extras| <= 2 && |m.stack| == WINDOW
    ensures r.Some? ==> |r.value.stack| == WINDOW && r.value.fp == restartsp + 1
  {
    if restartsp + 8 > LIMIT then None
    else
      var fp := restartsp + 1;
      var p := PushAll(PushHeader(m.(sp := restartsp)), [Word(TYPE_FIXNUM, index), m.pc] + extras);
      var c := FrameControl(Untraced(m.control), m.fp, fp, p.sp + 1, EFFECT, false);
      var entry := FetchTrapVectorEntry(vector, c.trapMode, index);
      if entry.None? then None
      else
        var mode := TagCdr(entry.value.tag);
        Some(p.(fp := fp, lp := p.sp + 1, continuation := m.pc, pc := entry.value,
                control := if c.trapMode < mode then c.(trapMode := mode) else c))
  }

  function Untraced(c: Control): Control { c.(tracePending := false, callTrace := false, instructionTrace := false) }

  // ---------- Which frames find their caller ----------

  /** A frame knows its extent, which it hands on to the frames it calls, and leaving it gives back the frame pointer
      `oldFp`. */
  ghost predicate FindsCaller(m: Machine, oldFp: nat)
    requires 0 < m.fp && m.fp + 1 < |m.stack|
  {
    m.lp == m.fp + m.control.argumentSize && m.control.callerFrameSize <= m.fp && PopFrame(m).fp == oldFp
  }

  /** A finished call can be returned from if and only if both sizes of its frame fit: the words passed, which 255 and
      an extra argument do not, and the caller's own frame. */
  lemma {:induction false} FinishCallExactly(m: Machine, n: nat, disposition: Field2, apply: bool, nextPc: Word)
    requires |m.stack| == WINDOW && FinishCall(m, n, disposition, apply, nextPc).Some?
    requires 0 < m.sp - n - B(m.control.extraArgument)
    ensures FindsCaller(FinishCall(m, n, disposition, apply, nextPc).value, m.fp) <==>
      var passed := n + B(m.control.extraArgument);
      passed + (if apply then 0 else 1) < 256 && m.fp <= m.sp - passed < m.fp + 256
  {
    hide FrameControl, Unpack;
    var f := FinishCall(m, n, disposition, apply, nextPc).value;
    FrameControlExactly(m.control, m.fp, f.fp, f.lp, disposition, apply);
  }

  /** So it is with a trap: its frame is small, but that of the trapped code may not fit. */
  lemma {:induction false} PreTrapExactly(m: Machine, restartsp: nat, vector: seq<Word>, index: Datum,
                                          extras: seq<Word>)
    requires FEP_MODE_VECTOR < |vector| && index < |vector| && |extras| <= 2 && |m.stack| == WINDOW
    requires TakePreTrap(m, restartsp, vector, index, extras).Some?
    ensures FindsCaller(TakePreTrap(m, restartsp, vector, index, extras).value, m.fp) <==>
      m.fp <= restartsp + 1 < m.fp + 256
  {
    hide FrameControl, Unpack, PushHeader, FetchTrapVectorEntry;
    var f := TakePreTrap(m, restartsp, vector, index, extras).value;
    HeaderSize(m.(sp := restartsp));
    FrameControlExactly(Untraced(m.control), m.fp, f.fp, f.lp, EFFECT, false);
  }

  lemma HeaderSize(m: Machine)
    requires m.sp + 2 < |m.stack|
    ensures PushHeader(m) == m.(stack := PushHeader(m).stack, sp := m.sp + 2) && |PushHeader(m).stack| == |m.stack|
  {
  }
}
