/** The binding instructions, step by step on the processor's registers and memory. */
module BindingProcessor {
  import opened Wrappers
  import opened TaggedMemory
  import opened Ivory
  import opened MemoryCycles
  import opened Binding

  /** How an instruction ends. */
  datatype Signal = Finished | Illegal | Trapping(access: Access)

  function SignalOf(o: Outcome): Signal {
    match o
    case Ok(_) => Finished
    case IllegalOperand(_) => Illegal
    case Trapped(_, access) => Trapping(access)
  }

  class Processor {
    var memory: Memory
    var oldspace: set<nat>
    var bindingStackPointer: nat
    var bindingStackLimit: nat
    var deepBoundP: bool
    var cleanupBindings: bool
    var preemptPending: bool
    var preemptEnabled: bool

    ghost function Registers(): State
      reads this
    {
      State(memory, oldspace, bindingStackPointer, bindingStackLimit, deepBoundP, cleanupBindings, preemptPending,
            preemptEnabled)
    }

    /** Reads through forwarding pointers. Only a read that ends is asked for. */
    method MemoryReadInternal(start: nat, cycle: Cycle) returns (access: Access)
      requires |memory| == MEMORY && start < MEMORY
      requires ReadAt(Registers(), start, cycle) != Endless
      ensures access == ReadAt(Registers(), start, cycle)
    {
      hide Decide;
      var vma: nat := start;
      ghost var hops: nat := MEMORY;
      while true
        invariant vma < MEMORY
        invariant Read(memory, vma, cycle, oldspace, hops) == ReadAt(Registers(), start, cycle)
        decreases hops
      {
        var contents := memory[vma];
        match Decide(cycle, contents, oldspace)
        case Done => return Cell(vma, contents);
        case Fault(kind) => return Trap(kind, vma);
        case Follow => vma, hops := contents.datum, hops - 1;
      }
    }

    method StoreContentsInternal(vma: nat, contents: Word) returns (signal: Signal)
      requires |memory| == MEMORY && vma < MEMORY
      requires SignalOf(StoreContents(Registers(), vma, contents)) != Trapping(Endless)
      modifies this
      ensures var o := StoreContents(old(Registers()), vma, contents);
        Registers() == o.state && signal == SignalOf(o)
    {
      hide Read, Decide;
      var dest := MemoryReadInternal(vma, BindWrite);
      if dest.Cell? {
        CellIsDone(memory, vma, BindWrite, oldspace, MEMORY);
        memory := memory[dest.vma := Word(MergeCdr(dest.word.tag, contents.tag), contents.datum)];
        signal := Finished;
      } else {
        signal := Trapping(dest);
      }
    }

    /** BIND-LOCATIVE-TO-VALUE, and without a value BIND-LOCATIVE. */
    method BindLocative(loc: Word, value: Option<Word>) returns (signal: Signal)
      requires Registers().Valid() && SignalOf(Bind(Registers(), loc, value)) != Trapping(Endless)
      modifies this
      ensures var o := Bind(old(Registers()), loc, value); Registers() == o.state && signal == SignalOf(o)
    {
      hide StoreContents, Read, Decide, Marked;
      if bindingStackPointer >= bindingStackLimit || deepBoundP {
        return Illegal;
      }
      var scratch := MemoryReadInternal(loc.datum, BindRead);
      if !scratch.Cell? {
        return Trapping(scratch);
      }
      memory := memory[bindingStackPointer + 1 := Marked(loc, cleanupBindings)];
      memory := memory[bindingStackPointer + 2 := scratch.word];
      if value.Some? {
        signal := StoreContentsInternal(loc.datum, value.value);
        if signal != Finished {
          return;
        }
      }
      cleanupBindings := true;
      bindingStackPointer := bindingStackPointer + 2;
      signal := Finished;
    }

    method UnbindOne() returns (signal: Signal)
      requires Registers().Valid() && SignalOf(Unbind(Registers())) != Trapping(Endless)
      modifies this
      ensures var o := Unbind(old(Registers())); Registers() == o.state && signal == SignalOf(o)
    {
      hide StoreContents, Read, Decide;
      if !cleanupBindings || bindingStackPointer < 2 {
        return Illegal;
      }
      var old_ := MemoryReadInternal(bindingStackPointer, BindRead);
      if !old_.Cell? {
        return Trapping(old_);
      }
      var loc := MemoryReadInternal(bindingStackPointer - 1, BindRead);
      if !loc.Cell? {
        return Trapping(loc);
      }
      signal := StoreContentsInternal(loc.word.datum, old_.word);
      if signal != Finished {
        return;
      }
      bindingStackPointer := bindingStackPointer - 2;
      cleanupBindings := (loc.word.tag / 64) % 2 == 1;
      preemptPending := preemptPending || preemptEnabled;
    }

    /** UNBIND-N. */
    method UnbindMany(count: nat) returns (signal: Signal)
      requires Registers().Valid() && SignalOf(UnbindN(Registers(), count)) != Trapping(Endless)
      modifies this
      ensures var o := UnbindN(old(Registers()), count); Registers() == o.state && signal == SignalOf(o)
    {
      hide Unbind;
      ghost var whole := UnbindN(Registers(), count);
      var i := count;
      while i > 0
        invariant Registers().Valid() && whole == UnbindN(Registers(), i)
      {
        signal := UnbindOne();
        if signal != Finished {
          return;
        }
        i := i - 1;
      }
      signal := Finished;
    }

    /** %RESTORE-BINDING-STACK. */
    method RestoreTo(target: nat) returns (signal: Signal)
      requires Registers().Valid() && SignalOf(RestoreBindingStack(Registers(), target)) != Trapping(Endless)
      modifies this
      ensures var o := RestoreBindingStack(old(Registers()), target); Registers() == o.state && signal == SignalOf(o)
    {
      hide Unbind;
      ghost var whole := RestoreBindingStack(Registers(), target);
      while bindingStackPointer > target
        invariant Registers().Valid() && whole == RestoreBindingStack(Registers(), target)
        decreases bindingStackPointer
      {
        signal := UnbindOne();
        if signal != Finished {
          return;
        }
      }
      signal := Finished;
    }
  }
}
