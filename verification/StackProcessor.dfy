/** The sequencer's call, return and trap instructions on the stack cache array and the registers. */
module StackProcessor {
  import opened Wrappers
  import opened TaggedMemory
  import opened Ivory
  import opened ControlWord
  import opened CallStack
  import opened ApplyArguments

  class Sequencer {
    const stackCache: array<Word>
    var fp: nat
    var sp: nat
    var lp: nat
    var control: Control
    var continuation: Word
    var pc: Word

    ghost function State(): Machine
      reads this, stackCache
    {
      Machine(stackCache[..], fp, sp, lp, control, continuation, pc)
    }

    method PushWord(w: Word)
      requires sp + 1 < stackCache.Length
      modifies this`sp, stackCache
      ensures State() == Push(old(State()), w)
    {
      stackCache[sp + 1] := w;
      sp := sp + 1;
    }

    method PushFrameHeader()
      requires sp + 2 < stackCache.Length
      modifies this`sp, stackCache
      ensures State() == PushHeader(old(State()))
    {
      PushWord(Word(Framed(continuation.tag), continuation.datum));
      PushWord(Word(Framed(TYPE_FIXNUM), Pack(control)));
    }

    method ExecuteStartCall(callee: Word, extra: Option<Word>)
      requires sp + 3 < stackCache.Length
      modifies this, stackCache
      ensures State() == StartCall(old(State()), callee, extra)
    {
      PushFrameHeader();
      if extra.Some? {
        PushWord(CdrNext(extra.value));
      }
      control := control.(callStarted := true, extraArgument := extra.Some?);
      continuation := callee;
    }

    /** Fails, changing nothing, where the frame would start below the stack cache or make it scroll. */
    method ExecuteFinishCall(n: nat, disposition: Field2, apply: bool, nextPc: Word) returns (ok: bool)
      modifies this
      ensures FinishCall(old(State()), n, disposition, apply, nextPc) == if ok then Some(State()) else None
      ensures !ok ==> State() == old(State())
    {
      hide Unpack, Ored;
      var extra := B(control.extraArgument);
      if sp < n + extra || sp - n - extra > LIMIT {
        return false;
      }
      var newFp := sp - n - extra;
      var newLp := if apply then sp else sp + 1;
      control := Unpack(Ored(Clear(control, apply), newLp - newFp, (newFp - fp) % 0x80_0000, disposition));
      fp, lp := newFp, newLp;
      pc, continuation := continuation, nextPc;
      ok := true;
    }

    method PopCurrentFrame()
      requires fp + 1 < stackCache.Length && 0 < fp && control.callerFrameSize <= fp
      modifies this
      ensures State() == PopFrame(old(State()))
    {
      hide Unpack;
      var saved := Unpack(stackCache[fp + 1].datum);
      if control.disposition != RETURN {
        pc := continuation;
      }
      continuation := stackCache[fp];
      sp, fp := fp - 1, fp - control.callerFrameSize;
      lp := fp + saved.argumentSize;
      control := saved;
    }

    method DeliverValue(disposition: Field2, value: Word) returns (ok: bool)
      requires stackCache.Length == WINDOW
      modifies this`sp, stackCache
      ensures Deliver(old(State()), disposition, value) == if ok then Some(State()) else None
    {
      if disposition == VALUE {
        if sp + 1 >= WINDOW {
          return false;
        }
        PushWord(CdrNext(value));
      } else if disposition == MULTIPLE {
        if sp + 2 >= WINDOW {
          return false;
        }
        PushWord(CdrNext(value));
        PushWord(Word(TYPE_FIXNUM, 1));
      }
      ok := true;
    }

    /** Fails where a frame has cleanups to run or lies outside the stack cache. */
    method ExecuteReturnSingle(value: Word) returns (ok: bool)
      requires stackCache.Length == WINDOW
      modifies this, stackCache
      ensures ReturnSingle(old(State()), value) == if ok then Some(State()) else None
    {
      hide PopFrame, Deliver;
      ghost var whole := ReturnSingle(State(), value);
      var disposition := RETURN;
      while disposition == RETURN
        invariant disposition == RETURN ==> whole == ReturnSingle(State(), value)
        invariant disposition != RETURN ==> whole == Deliver(State(), disposition, value)
        decreases disposition == RETURN, fp
      {
        if CleanupBits(control) || fp == 0 || fp + 1 >= WINDOW || control.callerFrameSize > fp
           || (control.disposition == RETURN && control.callerFrameSize == 0) {
          return false;
        }
        disposition := control.disposition;
        ghost var before := State();
        PopCurrentFrame();
        PopLowers(before);
      }
      ok := DeliverValue(disposition, value);
    }

    method PushWords(ws: seq<Word>)
      requires sp + |ws| < stackCache.Length
      modifies this`sp, stackCache
      ensures State() == PushAll(old(State()), ws)
    {
      ghost var start := State();
      var i := 0;
      assert ws[0..] == ws;
      while i < |ws|
        invariant i <= |ws| && sp == old(sp) + i
        invariant PushAll(start, ws) == PushAll(State(), ws[i..])
      {
        assert ws[i..][0] == ws[i] && ws[i..][1..] == ws[i + 1..];
        PushWord(CdrNext(ws[i]));
        i := i + 1;
      }
      assert ws[i..] == [];
    }

    /** Takes a trap in the current instruction; fails where the machine would halt or the stack cache scroll. */
    method ExecutePreTrap(restartsp: nat, vector: seq<Word>, index: Datum, extras: seq<Word>) returns (ok: bool)
      requires stackCache.Length == WINDOW && FEP_MODE_VECTOR < |vector| && index < |vector| && |extras| <= 2
      modifies this, stackCache
      ensures TakePreTrap(old(State()), restartsp, vector, index, extras) == if ok then Some(State()) else None
    {
      hide PushHeader, PushAll, FetchTrapVectorEntry, Unpack, Ored;
      var oldFp := fp;
      if restartsp + 8 > LIMIT {
        return false;
      }
      sp := restartsp;
      ghost var start := State();
      PushFrameHeader();
      assert State().sp == restartsp + 2 by { HeaderSize(start); }
      PushWords([Word(TYPE_FIXNUM, index), pc] + extras);
      fp, lp := restartsp + 1, sp + 1;
      control := Unpack(Ored(Clear(Untraced(control), false), lp - fp, (fp - oldFp) % 0x80_0000, EFFECT));
      continuation := pc;
      ok := EnterHandler(FetchTrapVectorEntry(vector, control.trapMode, index));
    }

    /** Goes to the trap handler, in its trap mode if that is higher. */
    method EnterHandler(entry: Option<Word>) returns (ok: bool)
      modifies this`control, this`pc
      ensures ok == entry.Some?
      ensures ok ==>
        var c, mode := old(control), TagCdr(entry.value.tag);
        State() == old(State()).(pc := entry.value, control := if c.trapMode < mode then c.(trapMode := mode) else c)
    {
      if entry.None? {
        return false;
      }
      if control.trapMode < TagCdr(entry.value.tag) {
        control := control.(trapMode := TagCdr(entry.value.tag));
      }
      pc := entry.value;
      ok := true;
    }

    method CountArgument()
      modifies this`lp, this`control
      ensures State() == CountOne(old(State()))
    {
      lp := lp + 1;
      control := control.(argumentSize := (control.argumentSize + 1) % 256);
    }

    method AcceptArgument(w: Word)
      requires sp + 1 < stackCache.Length
      modifies this`sp, this`lp, this`control, stackCache
      ensures State() == Accept(old(State()), w)
    {
      PushWord(CdrNext(w));
      CountArgument();
    }

    /** The last cell of a list in the stack cache, whose next word holds the tail. When that tail is in the cache too,
        the pull stops in front of it, the element pushed but not counted. */
    method PullLastCell(base: Datum, rest: nat, left: nat) returns (wanted: nat)
      requires Room(State(), base) && rest + 1 < WINDOW && left > 0 && sp < LIMIT && TagCdr(stackCache[rest].tag) == 2
      modifies this, stackCache
      ensures Pull(old(State()), base, rest, left) == Done(State(), wanted)
    {
      hide Pull, Accept;
      PullUnfolds(State(), base, rest, left);
      AcceptPushes(State(), stackCache[rest]);
      PushWord(CdrNext(stackCache[rest]));
      var tail := stackCache[rest + 1];
      if !IsNil(tail) && InCache(base, tail) {
        PushWord(Word(TYPE_LIST, tail.datum));
        return left;
      }
      CountArgument();
      if IsNil(tail) {
        control := control.(apply := false);
        return 0;
      } else {
        PushWord(CdrNext(tail));
        return left - 1;
      }
    }

    /** Pulls up to `count` arguments from the apply list on top of the stack. With `full` set it has come to where the
        stack cache has to scroll, at cell `rest`. */
    method PullApplyArgsQuickly(base: Datum, count: nat) returns (full: bool, rest: nat, wanted: nat)
      requires Applying(State(), base)
      modifies this, stackCache
      ensures PullApplyArgs(old(State()), base, count) ==
        if full then Full(State(), rest, wanted) else Done(State(), wanted)
    {
      hide Pull, Accept;
      rest := stackCache[sp].datum - base;
      sp := sp - 1;
      ghost var whole := Pull(State(), base, rest, count);
      wanted := count;
      while wanted > 0 && sp < LIMIT && rest < WINDOW && TagCdr(stackCache[rest].tag) == 0
        invariant wanted <= count && rest <= WINDOW && Room(State(), base)
        invariant whole == Pull(State(), base, rest, wanted)
      {
        PullUnfolds(State(), base, rest, wanted);
        AcceptPushes(State(), stackCache[rest]);
        AcceptArgument(stackCache[rest]);
        wanted, rest := wanted - 1, rest + 1;
      }
      full := wanted > 0 && sp >= LIMIT;
      if full {
        PullStops(State(), base, rest, wanted);
      } else {
        wanted := PullEnd(base, rest, wanted);
      }
    }

    /** The end of a pull: at a cell that is not followed by the next one, or with no argument left to pull. */
    method PullEnd(base: Datum, rest: nat, left: nat) returns (wanted: nat)
      requires Room(State(), base) && rest <= WINDOW && (left > 0 ==> sp < LIMIT)
      requires left == 0 || rest == WINDOW || TagCdr(stackCache[rest].tag) != 0
      modifies this, stackCache
      ensures Pull(old(State()), base, rest, left) == Done(State(), wanted)
    {
      hide Pull, Accept;
      if left > 0 && rest < WINDOW && TagCdr(stackCache[rest].tag) == 1 {
        PullUnfolds(State(), base, rest, left);
        AcceptArgument(stackCache[rest]);
        control := control.(apply := false);
        wanted := 0;
      } else if left > 0 && rest + 1 < WINDOW && TagCdr(stackCache[rest].tag) == 2 {
        wanted := PullLastCell(base, rest, left);
      } else {
        PullStops(State(), base, rest, left);
        PushWord(Word(TYPE_LIST, base + rest));
        wanted := left;
      }
    }
  }

  lemma PopLowers(m: Machine)
    requires m.fp + 1 < |m.stack| && 0 < m.fp && m.control.callerFrameSize <= m.fp
    ensures PopFrame(m).fp == m.fp - m.control.callerFrameSize
  {
  }
}
