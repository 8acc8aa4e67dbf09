/** Memory reads and writes that chase forwarding pointers, for the two cycle types the binding instructions use. */
module MemoryCycles {
  import opened TaggedMemory
  import opened Ivory

  type Memory = seq<Word>

  datatype Cycle = BindRead | BindWrite

  /** The memory action table's rows for the two cycles: 1 follows, 2 traps to a monitor, 4 transports, 8 traps. */
  function Action(cycle: Cycle, type_: nat): nat {
    if type_ == 1 then 6
    else if type_ == 2 then (if cycle.BindRead? then 12 else 8)
    else if type_ == 3 || type_ == 37 then 8
    else if 5 <= type_ <= 7 then 5
    else if cycle.BindWrite? then 0
    else if type_ == 0 || type_ == 4 || 11 <= type_ <= 31 || type_ == 34 || type_ == 36 || 38 <= type_ <= 47 then 4
    else 0
  }

  datatype TrapKind = TransportTrap | MonitorTrap | ErrorTrap

  /** Where a read ends: at a cell, in a trap at an address, or never, on a circle of forwarding pointers. */
  datatype Access = Cell(vma: nat, word: Word) | Trap(kind: TrapKind, at: nat) | Endless

  datatype OneRead = Done | Follow | Fault(kind: TrapKind)

  /** What the read loop does with the word it has just fetched. */
  function Decide(cycle: Cycle, w: Word, oldspace: set<nat>): OneRead {
    var action := Action(cycle, TagType(w.tag));
    if (action / 4) % 2 == 1 && action < 8 && w.datum in oldspace then Fault(TransportTrap)
    else
      match action % 4 + (if action >= 8 then 8 else 0)
      case 0 => Done
      case 1 => Follow
      case 2 => Fault(MonitorTrap)
      case _ => Fault(ErrorTrap)
  }

  /** A chain of forwarding pointers with more hops than there are addresses runs in a circle. */
  function Read(m: Memory, vma: nat, cycle: Cycle, oldspace: set<nat>, hops: nat): Access
    requires |m| == MEMORY && vma < MEMORY
    decreases hops
  {
    if hops == 0 then Endless
    else
      match Decide(cycle, m[vma], oldspace)
      case Done => Cell(vma, m[vma])
      case Fault(kind) => Trap(kind, vma)
      case Follow => Read(m, m[vma].datum, cycle, oldspace, hops - 1)
  }

  /** The addresses a read visits. */
  function Trail(m: Memory, vma: nat, cycle: Cycle, oldspace: set<nat>, hops: nat): set<nat>
    requires |m| == MEMORY && vma < MEMORY
    decreases hops
  {
    if hops == 0 then {}
    else if Decide(cycle, m[vma], oldspace).Follow? then
      {vma} + Trail(m, m[vma].datum, cycle, oldspace, hops - 1)
    else {vma}
  }

  lemma {:induction false} CellIsDone(m: Memory, vma: nat, cycle: Cycle, oldspace: set<nat>, hops: nat)
    requires |m| == MEMORY && vma < MEMORY
    requires Read(m, vma, cycle, oldspace, hops).Cell?
    ensures var r := Read(m, vma, cycle, oldspace, hops);
      r.vma < MEMORY && m[r.vma] == r.word && Decide(cycle, r.word, oldspace) == Done &&
      r.vma in Trail(m, vma, cycle, oldspace, hops)
    decreases hops
  {
    if Decide(cycle, m[vma], oldspace).Follow? {
      CellIsDone(m, m[vma].datum, cycle, oldspace, hops - 1);
    }
  }

  /** Whatever a bind read gets past, a bind write gets past too. */
  lemma WriteFollowsRead(w: Word, oldspace: set<nat>)
    requires !Decide(BindRead, w, oldspace).Fault?
    ensures Decide(BindWrite, w, oldspace) == Decide(BindRead, w, oldspace)
  {
  }

  lemma ReadDone(m: Memory, vma: nat, cycle: Cycle, oldspace: set<nat>)
    requires |m| == MEMORY && vma < MEMORY && Decide(cycle, m[vma], oldspace) == Done
    ensures Read(m, vma, cycle, oldspace, MEMORY) == Cell(vma, m[vma])
  {
  }

  /** A read that ended at a cell ends at the same cell after any change that spares the rest of its trail, if the
      cell's new word ends a read as well; also when a write takes the place of the read. */
  lemma {:induction false} SameCell(m: Memory, m': Memory, vma: nat, oldspace: set<nat>, hops: nat)
    requires |m| == |m'| == MEMORY && vma < MEMORY
    requires Read(m, vma, BindRead, oldspace, hops).Cell?
    requires var c := Read(m, vma, BindRead, oldspace, hops).vma;
      && c < MEMORY
      && (forall a | a in Trail(m, vma, BindRead, oldspace, hops) && a != c && a < MEMORY :: m'[a] == m[a])
      && Decide(BindWrite, m'[c], oldspace) == Done
    ensures var c := Read(m, vma, BindRead, oldspace, hops).vma;
      Read(m', vma, BindWrite, oldspace, hops) == Cell(c, m'[c])
    decreases hops
  {
    WriteFollowsRead(m[vma], oldspace);
    if Decide(BindRead, m[vma], oldspace).Follow? {
      CellIsDone(m, m[vma].datum, BindRead, oldspace, hops - 1);
      SameCell(m, m', m[vma].datum, oldspace, hops - 1);
    }
  }

  /** So does another read, when the cell's new word ends a read. */
  lemma {:induction false} SameCellRead(m: Memory, m': Memory, vma: nat, oldspace: set<nat>, hops: nat)
    requires |m| == |m'| == MEMORY && vma < MEMORY
    requires Read(m, vma, BindRead, oldspace, hops).Cell?
    requires var c := Read(m, vma, BindRead, oldspace, hops).vma;
      && c < MEMORY
      && (forall a | a in Trail(m, vma, BindRead, oldspace, hops) && a != c && a < MEMORY :: m'[a] == m[a])
      && Decide(BindRead, m'[c], oldspace) == Done
    ensures var c := Read(m, vma, BindRead, oldspace, hops).vma;
      Read(m', vma, BindRead, oldspace, hops) == Cell(c, m'[c])
    decreases hops
  {
    if Decide(BindRead, m[vma], oldspace).Follow? {
      CellIsDone(m, m[vma].datum, BindRead, oldspace, hops - 1);
      SameCellRead(m, m', m[vma].datum, oldspace, hops - 1);
    }
  }

  /** The rows of the memory action table, eight types to a line: 1 follows, 2 traps to a monitor, 4 transports, 8
      traps. */
  const BIND_READ_ROW: seq<seq<nat>> := [
    [4, 6, 12, 8, 4, 5, 5, 5],
    [0, 0, 0, 4, 4, 4, 4, 4],
    [4, 4, 4, 4, 4, 4, 4, 4],
    [4, 4, 4, 4, 4, 4, 4, 4],
    [0, 0, 4, 0, 4, 8, 4, 4],
    [4, 4, 4, 4, 4, 4, 4, 4],
    [0, 0, 0, 0, 0, 0, 0, 0],
    [0, 0, 0, 0, 0, 0, 0, 0]]
  const BIND_WRITE_ROW: seq<seq<nat>> := [
    [0, 6, 8, 8, 0, 5, 5, 5],
    [0, 0, 0, 0, 0, 0, 0, 0],
    [0, 0, 0, 0, 0, 0, 0, 0],
    [0, 0, 0, 0, 0, 0, 0, 0],
    [0, 0, 0, 0, 0, 8, 0, 0],
    [0, 0, 0, 0, 0, 0, 0, 0],
    [0, 0, 0, 0, 0, 0, 0, 0],
    [0, 0, 0, 0, 0, 0, 0, 0]]

  /** The actions are the table's. */
  lemma ActionIsTable(n: nat, k: nat)
    requires n < 8 && k < 8
    ensures |BIND_READ_ROW| == |BIND_WRITE_ROW| == 8 && |BIND_READ_ROW[n]| == |BIND_WRITE_ROW[n]| == 8
    ensures Action(BindRead, 8 * n + k) == BIND_READ_ROW[n][k] && Action(BindWrite, 8 * n + k) == BIND_WRITE_ROW[n][k]
  {
    assert n == 0 || n == 1 || n == 2 || n == 3 || n == 4 || n == 5 || n == 6 || n == 7;
    assert k == 0 || k == 1 || k == 2 || k == 3 || k == 4 || k == 5 || k == 6 || k == 7;
  }

  /** A bind read transports exactly the pointer types, but for 2 and 37, which trap anyway. */
  lemma TransportsExactly(t: nat)
    requires t < 64
    ensures 4 <= Action(BindRead, t) < 8 <==> Bit(POINTER_TYPES, t) && t != 2 && t != 37
  {
    hide Bit;
    PointerTypesExactly(t);
  }

  /** What a read does with a word, by the table's bits: a transport trap comes first, unless the word traps anyway. */
  lemma DecideExactly(cycle: Cycle, w: Word, oldspace: set<nat>)
    ensures var action := Action(cycle, TagType(w.tag));
      Decide(cycle, w, oldspace) ==
        if (action == 4 || action == 5 || action == 6) && w.datum in oldspace then Fault(TransportTrap)
        else if action == 0 || action == 4 then Done
        else if action == 5 then Follow
        else if action == 6 then Fault(MonitorTrap)
        else Fault(ErrorTrap)
  {
  }
}
