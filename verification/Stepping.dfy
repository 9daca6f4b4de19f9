/** Single-stepping by planted traps and no-ops, and the stub's command sessions as a state machine:
    whenever the debugger looks, memory is what the program and the debugger made it. */
module Stepping {
  import opened Basics
  import opened M32R
  import opened BranchEmulator

  const TRAP1: Half := 0x10F1
  const NOOP: Half := 0x7000

  /** The stepping context. Address 0 means that nothing was planted. */
  datatype Context = Context(stepping: bool, noopAddr: Word, noopSave: Half, trapAddr: Word, trapSave: Half, continueP: bool)

  const IDLE := Context(false, 0, 0, 0, 0, false)

  // ----- planting and restoring

  /** The address at which a step traps. */
  function TrapAddress(m: Memory, pc: Word): Word {
    Wrap(pc + InstructionSize(m, pc))
  }

  /** The memory a step runs in: a no-op before a second-slot instruction, and a trap behind any. */
  function Planted(m: Memory, pc: Word): Memory {
    if SecondSlot(pc) then Poke(Poke(m, pc - 2, NOOP), pc + 2, TRAP1) else Poke(m, TrapAddress(m, pc), TRAP1)
  }

  function ContextFor(m: Memory, pc: Word, continueP: bool): Context {
    if SecondSlot(pc) then Context(true, Wrap(pc - 2), Peek(m, pc - 2), Wrap(pc + 2), Peek(Poke(m, pc - 2, NOOP), pc + 2), continueP)
    else Context(true, 0, 0, TrapAddress(m, pc), Peek(m, TrapAddress(m, pc)), continueP)
  }

  /** What finishing a step does: put back what was saved, where an address was recorded. */
  function Restored(m: Memory, c: Context): Memory {
    var m1 := if c.noopAddr != 0 then Poke(m, c.noopAddr, c.noopSave) else m;
    if c.trapAddr != 0 then Poke(m1, c.trapAddr, c.trapSave) else m1
  }

  /** The bytes a step at `pc` plants in. */
  predicate PlantedAt(m: Memory, pc: Word, a: Word) {
    var t := TrapAddress(m, pc);
    a == t || a == Wrap(t + 1) || (SecondSlot(pc) && (a == Wrap(pc - 2) || a == Wrap(pc - 1)))
  }

  /** The memory without the stub's doing: the target's own at every byte it owns, and the old
      contents at the planted bytes. */
  ghost predicate Undisturbed(result: Memory, m: Memory, target: Memory, pc: Word) {
    forall a: Word :: result[a] == if PlantedAt(m, pc, a) then m[a] else target[a]
  }

  /** The target may write anywhere except over what was planted. */
  ghost predicate LeavesAlone(m: Memory, target: Memory, pc: Word) {
    forall a: Word :: PlantedAt(m, pc, a) ==> target[a] == Planted(m, pc)[a]
  }

  /** Whether a step can be undone: a planted halfword at address 0 looks like none. */
  predicate Plantable(m: Memory, pc: Word) {
    && (pc == 2 ==> Peek(m, 0) == NOOP)
    && (TrapAddress(m, pc) == 0 ==> Peek(m, 0) == TRAP1)
  }

  lemma PokeBytes(m: Memory, at: int, h: Half, a: Word)
    ensures Poke(m, at, h)[a] == if a == Wrap(at + 1) then h % 256 else if a == Wrap(at) then h / 256 else m[a]
  {}

  lemma PokePeek(m: Memory, at: int)
    ensures Peek(m, at) / 256 == m[Wrap(at)] && Peek(m, at) % 256 == m[Wrap(at + 1)]
  {}

  lemma Neighbours(pc: Word)
    ensures var n, t := Wrap(pc - 2), Wrap(pc + 2);
      && Wrap(n + 1) == Wrap(pc - 1) && Wrap(t + 1) == Wrap(pc + 3)
      && Wrap(pc - 2) != Wrap(pc + 2) && Wrap(pc - 2) != Wrap(pc + 3) && Wrap(pc - 1) != Wrap(pc + 2) && Wrap(pc - 1) != Wrap(pc + 3)
      && Wrap(pc - 2) != Wrap(pc - 1) && Wrap(pc + 2) != Wrap(pc + 3)
  {}

  /** What planting and restoring do to each byte, for a step in the first slot. */
  lemma FirstSlotBytes(m: Memory, pc: Word, target: Memory, a: Word)
    requires !SecondSlot(pc) && LeavesAlone(m, target, pc)
    ensures var t, r := TrapAddress(m, pc), Restored(target, ContextFor(m, pc, false));
      r[a] == if PlantedAt(m, pc, a) then (if t != 0 then m[a] else if a == Wrap(t + 1) then TRAP1 % 256 else TRAP1 / 256)
              else target[a]
  {
    var t := TrapAddress(m, pc);
    PokeBytes(m, t, TRAP1, a);
    PokeBytes(target, t, Peek(m, t), a);
    PokePeek(m, t);
    assert PlantedAt(m, pc, a) ==> target[a] == Planted(m, pc)[a];
  }

  /** And for a step in the second slot, where a no-op goes in as well. */
  lemma SecondSlotBytes(m: Memory, pc: Word, target: Memory, a: Word)
    requires SecondSlot(pc) && LeavesAlone(m, target, pc)
    ensures var n, t, r := Wrap(pc - 2), TrapAddress(m, pc), Restored(target, ContextFor(m, pc, false));
      r[a] == if a == n || a == Wrap(n + 1) then (if n != 0 then m[a] else if a == n then NOOP / 256 else NOOP % 256)
              else if a == t || a == Wrap(t + 1) then (if t != 0 then m[a] else if a == t then TRAP1 / 256 else TRAP1 % 256)
              else target[a]
  {
    Neighbours(pc);
    PlantedInSecond(m, pc, a);
    RestoredFromSecond(m, pc, target, a);
    assert PlantedAt(m, pc, a) ==> target[a] == Planted(m, pc)[a];
  }

  /** What such a step plants. */
  lemma PlantedInSecond(m: Memory, pc: Word, a: Word)
    requires SecondSlot(pc)
    ensures var n, t := Wrap(pc - 2), Wrap(pc + 2);
      TrapAddress(m, pc) == t &&
      Planted(m, pc)[a] == if a == t then TRAP1 / 256 else if a == Wrap(t + 1) then TRAP1 % 256
                           else if a == n then NOOP / 256 else if a == Wrap(n + 1) then NOOP % 256 else m[a]
  {
    Neighbours(pc);
    PokeBytes(m, pc - 2, NOOP, a);
    PokeBytes(Poke(m, pc - 2, NOOP), pc + 2, TRAP1, a);
  }

  /** What finishing it puts back. */
  lemma RestoredFromSecond(m: Memory, pc: Word, target: Memory, a: Word)
    requires SecondSlot(pc)
    ensures var n, t := Wrap(pc - 2), Wrap(pc + 2);
      Restored(target, ContextFor(m, pc, false))[a]
      == if (t != 0 && (a == t || a == Wrap(t + 1))) || (n != 0 && (a == n || a == Wrap(n + 1))) then m[a] else target[a]
  {
    ContextInSecond(m, pc);
    RestoredHalves(m, target, Wrap(pc - 2), Wrap(pc + 2), a);
  }

  lemma ContextInSecond(m: Memory, pc: Word)
    requires SecondSlot(pc)
    ensures var n, t := Wrap(pc - 2), Wrap(pc + 2); ContextFor(m, pc, false) == Context(true, n, Peek(m, n), t, Peek(m, t), false)
  {
    SavedUnderNoop(m, pc);
  }

  lemma RestoredHalves(m: Memory, target: Memory, n: Word, t: Word, a: Word)
    ensures Restored(target, Context(true, n, Peek(m, n), t, Peek(m, t), false))[a]
         == if (t != 0 && (a == t || a == Wrap(t + 1))) || (n != 0 && (a == n || a == Wrap(n + 1))) then m[a] else target[a]
  {
    CopiedHalf(m, target, n, a);
    CopiedHalf(m, if n != 0 then Poke(target, n, Peek(m, n)) else target, t, a);
  }

  lemma PeekElsewhere(m: Memory, at: int, h: Half, other: int)
    requires Wrap(at) != Wrap(other) && Wrap(at) != Wrap(other + 1) && Wrap(at + 1) != Wrap(other) && Wrap(at + 1) != Wrap(other + 1)
    ensures Peek(Poke(m, at, h), other) == Peek(m, other)
  {
    PokeBytes(m, at, h, Wrap(other));
    PokeBytes(m, at, h, Wrap(other + 1));
  }

  lemma WrappedPeek(m: Memory, at: int)
    ensures Peek(m, at) == Peek(m, Wrap(at))
  {
    assert Wrap(Wrap(at)) == Wrap(at) && Wrap(Wrap(at) + 1) == Wrap(at + 1);
  }

  /** The trap's halfword is read after the no-op is in, and is still the old one. */
  lemma SavedUnderNoop(m: Memory, pc: Word)
    ensures Peek(Poke(m, pc - 2, NOOP), pc + 2) == Peek(m, Wrap(pc + 2))
    ensures Peek(m, pc - 2) == Peek(m, Wrap(pc - 2))
  {
    Neighbours(pc);
    PeekElsewhere(m, pc - 2, NOOP, pc + 2);
    WrappedPeek(m, pc + 2);
    WrappedPeek(m, pc - 2);
  }

  lemma HalfAtZero(m: Memory, h: Half)
    ensures Peek(m, 0) == h <==> m[0] == h / 256 && m[1] == h % 256
  {
    PokePeek(m, 0);
  }

  /** Finishing a step gives back the memory without the stub's doing, whatever the target did
      elsewhere, exactly when no planted halfword at address 0 differs from what was there. */
  lemma FinishUndoesPrepare(m: Memory, pc: Word, continueP: bool, target: Memory)
    requires LeavesAlone(m, target, pc)
    ensures Undisturbed(Restored(target, ContextFor(m, pc, continueP)), m, target, pc) <==> Plantable(m, pc)
  {
    var r, t := Restored(target, ContextFor(m, pc, continueP)), TrapAddress(m, pc);
    assert r == Restored(target, ContextFor(m, pc, false));
    HalfAtZero(m, NOOP);
    HalfAtZero(m, TRAP1);
    Neighbours(pc);
    if Plantable(m, pc) {
      forall a: Word ensures r[a] == if PlantedAt(m, pc, a) then m[a] else target[a] {
        StepBytes(m, pc, target, a);
      }
    }
    if Undisturbed(r, m, target, pc) {
      StepBytes(m, pc, target, 0);
      StepBytes(m, pc, target, 1);
      assert r[0] == if PlantedAt(m, pc, 0) then m[0] else target[0];
      assert r[1] == if PlantedAt(m, pc, 1) then m[1] else target[1];
    }
  }

  /** Both slots together: a planted byte comes back unless its halfword stood at address 0. */
  lemma StepBytes(m: Memory, pc: Word, target: Memory, a: Word)
    requires LeavesAlone(m, target, pc)
    ensures var r, n, t := Restored(target, ContextFor(m, pc, false)), Wrap(pc - 2), TrapAddress(m, pc);
      r[a] == if !PlantedAt(m, pc, a) then target[a]
              else if t == 0 && a <= 1 then (if a == 0 then TRAP1 / 256 else TRAP1 % 256)
              else if SecondSlot(pc) && n == 0 && a <= 1 then (if a == 0 then NOOP / 256 else NOOP % 256)
              else m[a]
  {
    AtZero(TrapAddress(m, pc), a);
    if SecondSlot(pc) {
      AtZero(Wrap(pc - 2), a);
      PlantedInSecond(m, pc, a);
      WrapNext(pc - 2);
      SecondSlotBytes(m, pc, target, a);
    } else {
      FirstSlotBytes(m, pc, target, a);
    }
  }

  lemma AtZero(x: Word, a: Word)
    ensures x == 0 ==> (a == x || a == Wrap(x + 1) <==> a <= 1) && Wrap(x + 1) == 1
  {}

  lemma WrapNext(x: int)
    ensures Wrap(Wrap(x) + 1) == Wrap(x + 1)
  {}

  // ----- the stub as a state machine

  /** Bit k of a register, given its weight. */
  function Bit(w: Word, weight: nat): nat
    requires weight > 0
  {
    w / weight % 2
  }

  function WithBit(w: Word, weight: nat, b: nat): Word
    requires weight in {0x80, 0x40, 1} && b < 2
  {
    if Bit(w, weight) == b then w else if b == 1 then w + weight else w - weight
  }

  /** The status word with the pre-trap fields moved back into place, one after the other. */
  function RestoredStatus(w: Word): Word {
    var w1 := WithBit(w, 0x80, Bit(w, 0x8000));
    var w2 := WithBit(w1, 0x40, Bit(w1, 0x4000));
    WithBit(w2, 1, Bit(w2, 0x100))
  }

  lemma WithMode(w: Word, b: nat)
    requires b < 2
    ensures var v := WithBit(w, 0x80, b); v / 0x80 % 2 == b && v / 0x100 == w / 0x100
  {
    assert w == w / 0x100 * 0x100 + Bit(w, 0x80) * 0x80 + w % 0x80;
  }

  lemma WithEnable(w: Word, b: nat)
    requires b < 2
    ensures var v := WithBit(w, 0x40, b); v / 0x40 % 2 == b && v / 0x80 == w / 0x80
  {
    assert w == w / 0x80 * 0x80 + Bit(w, 0x40) * 0x40 + w % 0x40;
  }

  lemma WithCondition(w: Word, b: nat)
    requires b < 2
    ensures var v := WithBit(w, 1, b); v % 2 == b && v / 2 == w / 2
  {}

  /** All three fields come from their backups, which keep their values; the bits above are untouched. */
  lemma StatusIsRestored(w: Word)
    ensures var v := RestoredStatus(w);
      && Bit(v, 0x80) == Bit(w, 0x8000) && Bit(v, 0x40) == Bit(w, 0x4000) && Bit(v, 1) == Bit(w, 0x100)
      && v / 0x100 == w / 0x100
  {
    var w1 := WithBit(w, 0x80, Bit(w, 0x8000));
    var w2 := WithBit(w1, 0x40, Bit(w1, 0x4000));
    var v := RestoredStatus(w);
    WithMode(w, Bit(w, 0x8000));
    WithEnable(w1, Bit(w1, 0x4000));
    WithCondition(w2, Bit(w2, 0x100));
    Shifts(w);
    Shifts(w1);
    Shifts(w2);
    Shifts(v);
  }

  /** Shifting a word in two steps. */
  lemma Shifts(v: Word)
    ensures v / 2 / 0x20 == v / 0x40 && v / 0x40 / 2 == v / 0x80 && v / 0x80 / 2 == v / 0x100
    ensures v / 0x100 / 0x80 == v / 0x8000 && v / 0x100 / 0x40 == v / 0x4000
  {}

  /** What the stub makes of the registers stashed at a trap. The condition register is a copy of a
      one-bit signed field. */
  function Cleaned(stashed: Regs): Regs {
    var psw := RestoredStatus(stashed[PSW]);
    var r := stashed[PSW := psw][CBR := if Bit(psw, 0x100) == 1 then 0xFFFF_FFFF else 0][PC := stashed[BPC]];
    if Bit(psw, 0x80) == 1 then r[SPU := r[R15]] else r[SPI := r[R15]]
  }

  /** Setting one register keeps the three stack pointers together. */
  function RegisterSet(regs: Regs, n: nat, v: Word): Regs
    requires n < 24
  {
    var r := regs[n := v];
    var user := Bit(r[PSW], 0x80) == 1;
    if n == R15 then (if user then r[SPU := v] else r[SPI := v])
    else if n == SPU then (if user then r[R15 := v] else r)
    else if n == SPI then (if user then r else r[R15 := v])
    else if n == PSW then (if user then r[R15 := r[SPU]] else r[R15 := r[SPI]])
    else r
  }

  /** A debugger command. A memory write stores the bytes before the first faulting address. */
  datatype Command =
    | SetPC(addr: Word)
    | WriteMemory(at: Word, bytes: seq<Byte>)
    | SetRegister(n: nat, v: Word)
    | SetRegisters(all: Regs)
    | Step(from: Option<Word>)
    | Continue(from: Option<Word>)
    | Other

  /** `stepFlag` is the command loop's own flag: cleared when the loop is entered, set by a step, and
      not cleared by a step that was emulated. */
  datatype Machine = Machine(running: bool, regs: Regs, mem: Memory, ctx: Context, stepFlag: bool)

  function Written(m: Memory, at: int, bytes: seq<Byte>): Memory
    decreases |bytes|
  {
    if bytes == [] then m else Written(m[Wrap(at) := bytes[0]], at + 1, bytes[1..])
  }

  function From(regs: Regs, from: Option<Word>): Regs {
    if from.Some? then regs[PC := from.value] else regs
  }

  /** Emulate a branch, or plant for a step. */
  function Prepared(s: Machine, continueP: bool): Machine {
    var pc := s.regs[PC];
    if IsBranch(s.mem, pc) != 0 then s.(regs := Emulate(s.mem, s.regs), ctx := IDLE)
    else s.(mem := Planted(s.mem, pc), ctx := ContextFor(s.mem, pc, continueP))
  }

  function Commanded(s: Machine, c: Command): Machine {
    match c
    case SetPC(addr) => s.(regs := s.regs[PC := addr])
    case WriteMemory(at, bytes) => s.(mem := Written(s.mem, at, bytes))
    case SetRegister(n, v) => if n < 24 then s.(regs := RegisterSet(s.regs, n, v)) else s
    case SetRegisters(all) => s.(regs := all)
    case Step(from) =>
      var t := Prepared(s.(regs := From(s.regs, from), stepFlag := true), false);
      t.(running := t.ctx.stepping)
    case Continue(from) =>
      var r := From(s.regs, from);
      if s.stepFlag then
        var t := Prepared(s.(regs := r), false);
        t.(running := t.ctx.stepping)
      else if SecondSlot(r[PC]) then Prepared(s.(regs := r), true).(running := true)
      else s.(regs := r, running := true)
    case Other => s
  }

  /** The registers the stub goes by after a trap; trap 1 backs the PC up. */
  function TrapRegs(vector: nat, stashed: Regs): Regs {
    if vector == 1 then BackedUp(Cleaned(stashed)) else Cleaned(stashed)
  }

  function BackedUp(r: Regs): Regs {
    r[PC := Wrap(r[PC] as int - 4)]
  }

  function Finished(s: Machine): Machine {
    if s.ctx.stepping then s.(mem := Restored(s.mem, s.ctx), ctx := IDLE) else s
  }

  /** A console write the stub serves by itself. */
  predicate ConsoleWrite(vector: nat, r: Regs) {
    vector == 0 && r[0] == 5 && (r[1] == 1 || r[1] == 2)
  }

  /** A trap: clean up, finish a step, and either resume at once or enter the command loop. */
  function Trapped(s: Machine, vector: nat, stashed: Regs): Machine {
    var r := TrapRegs(vector, stashed);
    var t := Finished(s.(regs := r));
    if s.ctx.stepping && s.ctx.continueP then t
    else if ConsoleWrite(vector, r) then t.(regs := r[0 := r[3]])
    else t.(running := false, stepFlag := false)
  }

  /** What happens to the machine: the target runs, traps, or the debugger gives a command. */
  datatype Event = Ran(regs: Regs, mem: Memory) | Trap(vector: nat, stashed: Regs) | Told(command: Command)

  function Next(s: Machine, e: Event): Machine {
    match e
    case Ran(regs, mem) => s.(regs := regs, mem := mem)
    case Trap(vector, stashed) => Trapped(s, vector, stashed)
    case Told(c) => Commanded(s, c)
  }

  // ----- the same history on a machine in which nothing is ever planted

  /** The memory of that machine, and where and over what the stub last planted. */
  datatype Ideal = Ideal(mem: Memory, base: Memory, pc: Word)

  /** The target's memory with the planted bytes as they were. */
  function Unplanted(base: Memory, target: Memory, pc: Word): Memory {
    var t := TrapAddress(base, pc);
    if SecondSlot(pc) then Poke(Poke(target, pc - 2, Peek(base, pc - 2)), t, Peek(base, t)) else Poke(target, t, Peek(base, t))
  }

  /** The PC a resuming command starts from, if it plants. */
  predicate Plants(s: Machine, c: Command) {
    && (c.Step? || c.Continue?)
    && (var pc := From(s.regs, c.from)[PC];
        IsBranch(s.mem, pc) == 0 && (c.Step? || s.stepFlag || SecondSlot(pc)))
  }

  function IdealNext(i: Ideal, s: Machine, e: Event): Ideal {
    match e
    case Ran(_, mem) => i.(mem := if s.ctx.stepping then Unplanted(i.base, mem, i.pc) else mem)
    case Trap(_, _) => i
    case Told(c) =>
      if c.WriteMemory? then i.(mem := Written(i.mem, c.at, c.bytes))
      else if Plants(s, c) then i.(base := s.mem, pc := From(s.regs, c.from)[PC])
      else i
  }

  /** What may happen: the target runs only while running, leaving planted halfwords alone, and
      commands come only while stopped, planting only where that can be undone. */
  ghost predicate Enabled(s: Machine, i: Ideal, e: Event) {
    match e
    case Ran(_, mem) => s.running && (s.ctx.stepping ==> LeavesAlone(i.base, mem, i.pc))
    case Trap(_, _) => s.running
    case Told(c) => !s.running && (Plants(s, c) ==> Plantable(s.mem, From(s.regs, c.from)[PC]))
  }

  ghost predicate Transparent(s: Machine, i: Ideal) {
    if s.ctx.stepping then
      && s.running && s.ctx == ContextFor(i.base, i.pc, s.ctx.continueP) && Plantable(i.base, i.pc)
      && LeavesAlone(i.base, s.mem, i.pc) && Undisturbed(i.mem, i.base, s.mem, i.pc)
    else s.ctx == IDLE && s.mem == i.mem
  }

  /** Storing one memory's halfword into another copies its two bytes. */
  lemma CopiedHalf(base: Memory, target: Memory, at: int, a: Word)
    ensures Poke(target, at, Peek(base, at))[a] == if a == Wrap(at) || a == Wrap(at + 1) then base[a] else target[a]
  {
    PokePeek(base, at);
    PokeBytes(target, at, Peek(base, at), a);
  }

  lemma CopiedTwice(base: Memory, target: Memory, x: int, y: int, a: Word)
    ensures Poke(Poke(target, x, Peek(base, x)), y, Peek(base, y))[a]
         == if a == Wrap(x) || a == Wrap(x + 1) || a == Wrap(y) || a == Wrap(y + 1) then base[a] else target[a]
  {
    CopiedHalf(base, target, x, a);
    CopiedHalf(base, Poke(target, x, Peek(base, x)), y, a);
  }

  lemma UnplantedByte(base: Memory, target: Memory, pc: Word, a: Word)
    ensures Unplanted(base, target, pc)[a] == if PlantedAt(base, pc, a) then base[a] else target[a]
  {
    var t := TrapAddress(base, pc);
    if SecondSlot(pc) {
      CopiedTwice(base, target, pc - 2, t, a);
      assert pc - 2 + 1 == pc - 1;
    } else {
      CopiedHalf(base, target, t, a);
    }
  }

  lemma UnplantedIsUndisturbed(base: Memory, target: Memory, pc: Word)
    ensures Undisturbed(Unplanted(base, target, pc), base, target, pc)
  {
    forall a: Word ensures Unplanted(base, target, pc)[a] == if PlantedAt(base, pc, a) then base[a] else target[a] {
      UnplantedByte(base, target, pc, a);
    }
  }

  lemma SameBytes(m: Memory, n: Memory)
    requires forall a: Word :: m[a] == n[a]
    ensures m == n
  {
    forall k | 0 <= k < |m| ensures m[k] == n[k] {
      var a: Word := k;
      assert m[a] == n[a];
    }
  }

  lemma PlantedByte(m: Memory, pc: Word, a: Word)
    requires !PlantedAt(m, pc, a)
    ensures Planted(m, pc)[a] == m[a]
  {
    if SecondSlot(pc) {
      Neighbours(pc);
      PokeBytes(m, pc - 2, NOOP, a);
      PokeBytes(Poke(m, pc - 2, NOOP), pc + 2, TRAP1, a);
    } else {
      PokeBytes(m, TrapAddress(m, pc), TRAP1, a);
    }
  }

  /** Planting leaves a memory whose undisturbed version is the one planted in. */
  lemma PlantedIsTransparent(m: Memory, pc: Word)
    ensures LeavesAlone(m, Planted(m, pc), pc) && Undisturbed(m, m, Planted(m, pc), pc)
  {
    forall a: Word ensures m[a] == if PlantedAt(m, pc, a) then m[a] else Planted(m, pc)[a] {
      if !PlantedAt(m, pc, a) {
        PlantedByte(m, pc, a);
      }
    }
  }

  /** Every event keeps the two machines together. */
  lemma EventIsTransparent(s: Machine, i: Ideal, e: Event)
    requires Transparent(s, i) && Enabled(s, i, e)
    ensures Transparent(Next(s, e), IdealNext(i, s, e))
  {
    match e
    case Ran(_, mem) =>
      if s.ctx.stepping {
        UnplantedIsUndisturbed(i.base, mem, i.pc);
      }
    case Trap(vector, stashed) =>
      if s.ctx.stepping {
        FinishUndoesPrepare(i.base, i.pc, s.ctx.continueP, s.mem);
        SameBytes(Restored(s.mem, s.ctx), i.mem);
      }
    case Told(c) =>
      if Plants(s, c) {
        PlantedIsTransparent(s.mem, From(s.regs, c.from)[PC]);
      }
  }

  function Run(s: Machine, events: seq<Event>): Machine {
    if events == [] then s else Next(Run(s, events[..|events| - 1]), events[|events| - 1])
  }

  function IdealRun(i: Ideal, s: Machine, events: seq<Event>): Ideal {
    if events == [] then i
    else
      var before := events[..|events| - 1];
      IdealNext(IdealRun(i, s, before), Run(s, before), events[|events| - 1])
  }

  ghost predicate Possible(s: Machine, i: Ideal, events: seq<Event>) {
    events == [] ||
    (var before := events[..|events| - 1];
     Possible(s, i, before) && Enabled(Run(s, before), IdealRun(i, s, before), events[|events| - 1]))
  }

  /** Over every run: whenever the stub is stopped at the debugger, its memory is that of the machine
      in which nothing was ever planted, and the stepping context is clear. */
  lemma {:induction false} StoppedMemoryIsTrue(s: Machine, i: Ideal, events: seq<Event>)
    requires Transparent(s, i) && Possible(s, i, events)
    ensures Transparent(Run(s, events), IdealRun(i, s, events))
    ensures !Run(s, events).running ==> Run(s, events).mem == IdealRun(i, s, events).mem && Run(s, events).ctx == IDLE
  {
    if events != [] {
      var before := events[..|events| - 1];
      StoppedMemoryIsTrue(s, i, before);
      EventIsTransparent(Run(s, before), IdealRun(i, s, before), events[|events| - 1]);
    }
  }

  /** The command loop: obey until the target is resumed or there are no more commands. */
  function Served(s: Machine, commands: seq<Command>): Machine
    decreases |commands|
  {
    if s.running || commands == [] then s else Served(Commanded(s, commands[0]), commands[1..])
  }

  function AllTold(commands: seq<Command>): seq<Event> {
    seq(|commands|, i requires 0 <= i < |commands| => Told(commands[i]))
  }

  /** The loop is a run of the machine on the commands it took, all but the last while stopped. */
  lemma {:induction false} ServingIsRunning(s: Machine, commands: seq<Command>) returns (taken: nat)
    ensures taken <= |commands| && Served(s, commands) == Run(s, AllTold(commands[..taken]))
    ensures Served(s, commands).running || taken == |commands|
    ensures forall k :: 0 <= k < taken ==> !Run(s, AllTold(commands[..k])).running
    decreases |commands|
  {
    if s.running || commands == [] {
      return 0;
    }
    var next := Commanded(s, commands[0]);
    var more := ServingIsRunning(next, commands[1..]);
    taken := more + 1;
    forall k | 0 <= k <= more ensures Run(s, AllTold(commands[..k + 1])) == Run(next, AllTold(commands[1..][..k])) {
      RunFromNext(s, commands[0], commands[1..][..k]);
      assert commands[..k + 1] == [commands[0]] + commands[1..][..k];
    }
    forall k | 0 <= k < taken ensures !Run(s, AllTold(commands[..k])).running {
      if k > 0 {
        assert !Run(next, AllTold(commands[1..][..k - 1])).running;
      }
    }
  }

  /** A run's first event may be taken off as well as its last. */
  lemma {:induction false} RunFromNext(s: Machine, c: Command, commands: seq<Command>)
    ensures Run(s, AllTold([c] + commands)) == Run(Commanded(s, c), AllTold(commands))
    decreases |commands|
  {
    var all := AllTold([c] + commands);
    if commands == [] {
      assert all == [Told(c)] && all[..0] == [];
      assert Run(s, all) == Next(Run(s, all[..0]), Told(c));
    } else {
      var n := |commands| - 1;
      RunFromNext(s, c, commands[..n]);
      assert all[..|all| - 1] == AllTold([c] + commands[..n]);
      assert AllTold(commands)[..n] == AllTold(commands[..n]);
    }
  }

  /** One whole step, by whichever command: the target runs with the plants in place and traps. Its
      own writes stay, everything planted is gone, the context is clear, and the debugger hears of it
      unless the step was only made to continue, or the target asked for a console write. */
  lemma StepCycle(s: Machine, c: Command, regs: Regs, target: Memory, vector: nat, stashed: Regs)
    requires !s.running && s.ctx == IDLE && Plants(s, c)
    requires Plantable(s.mem, From(s.regs, c.from)[PC]) && LeavesAlone(s.mem, target, From(s.regs, c.from)[PC])
    ensures var ready := Commanded(s, c);
      var done := Trapped(Next(ready, Ran(regs, target)), vector, stashed);
      && ready.running && ready.mem == Planted(s.mem, From(s.regs, c.from)[PC])
      && Undisturbed(done.mem, s.mem, target, From(s.regs, c.from)[PC]) && done.ctx == IDLE
      && (done.running <==> (c.Continue? && !s.stepFlag) || ConsoleWrite(vector, TrapRegs(vector, stashed)))
  {
    FinishUndoesPrepare(s.mem, From(s.regs, c.from)[PC], c.Continue? && !s.stepFlag, target);
  }

  // ----- the stack pointers

  /** R15 is the stack pointer that the status word selects. */
  ghost predicate Coherent(r: Regs) {
    r[R15] == if Bit(r[PSW], 0x80) == 1 then r[SPU] else r[SPI]
  }

  lemma CleanedIsCoherent(stashed: Regs)
    ensures Coherent(Cleaned(stashed))
  {}

  /** After a trap the stub's registers are the target's, with PC and condition as before the trap. */
  lemma CleanedMeans(stashed: Regs)
    ensures var r := Cleaned(stashed);
      && r[PC] == stashed[BPC] && (r[CBR] != 0 <==> Bit(stashed[PSW], 0x100) == 1)
      && r[if Bit(stashed[PSW], 0x8000) == 1 then SPI else SPU] == stashed[if Bit(stashed[PSW], 0x8000) == 1 then SPI else SPU]
      && forall k :: 0 <= k < 24 && k !in {PSW, CBR, PC, SPI, SPU} ==> r[k] == stashed[k]
  {
    StatusIsRestored(stashed[PSW]);
    Shifts(RestoredStatus(stashed[PSW]));
    Shifts(stashed[PSW]);
  }

  /** A single register is set, the stack pointers agree again, and nothing else moves: no register
      but those three, and neither of the two banked ones unless it is set or selected. */
  lemma RegisterSetMeans(regs: Regs, n: nat, v: Word)
    requires n < 24 && Coherent(regs)
    ensures var r := RegisterSet(regs, n, v);
      && r[n] == v && Coherent(r)
      && (forall k :: 0 <= k < 24 && k != n && k !in {R15, SPI, SPU} ==> r[k] == regs[k])
      && (n != SPU && !(n == R15 && Bit(r[PSW], 0x80) == 1) ==> r[SPU] == regs[SPU])
      && (n != SPI && !(n == R15 && Bit(r[PSW], 0x80) == 0) ==> r[SPI] == regs[SPI])
  {}

  lemma EmulationKeepsStack(m: Memory, regs: Regs)
    ensures forall k :: 0 <= k < 24 && k != R14 && k != PC ==> Emulate(m, regs)[k] == regs[k]
  {}

  /** Any command keeps the stack pointers together, but for setting all registers, which does so
      exactly if the registers set agree. */
  lemma CommandIsCoherent(s: Machine, c: Command)
    requires Coherent(s.regs)
    ensures Coherent(Commanded(s, c).regs) <==> (c.SetRegisters? ==> Coherent(c.all))
  {
    match c
    case SetRegister(n, v) =>
      if n < 24 {
        RegisterSetMeans(s.regs, n, v);
      }
    case Step(from) => EmulationKeepsStack(s.mem, From(s.regs, from));
    case Continue(from) => EmulationKeepsStack(s.mem, From(s.regs, from));
    case _ =>
  }

  /** Commands come only while the stub is stopped, and when all registers are set at once, the ones
      set agree. */
  ghost predicate Agreeing(s: Machine, events: seq<Event>) {
    events == [] ||
    (var before, e := events[..|events| - 1], events[|events| - 1];
     Agreeing(s, before) && (if Run(s, before).running then !e.Told? else e.Told? && (e.command.SetRegisters? ==> Coherent(e.command.all))))
  }

  lemma EventKeepsStacks(s: Machine, e: Event)
    requires if s.running then !e.Told? else Coherent(s.regs) && e.Told? && (e.command.SetRegisters? ==> Coherent(e.command.all))
    ensures Next(s, e).running || Coherent(Next(s, e).regs)
  {
    match e
    case Ran(_, _) =>
    case Trap(vector, stashed) => CleanedIsCoherent(stashed);
    case Told(c) => CommandIsCoherent(s, c);
  }

  /** Over every such run the stack pointers agree whenever the stub is stopped. */
  lemma {:induction false} StoppedStacksAgree(s: Machine, events: seq<Event>)
    requires (s.running || Coherent(s.regs)) && Agreeing(s, events)
    ensures Run(s, events).running || Coherent(Run(s, events).regs)
  {
    if events != [] {
      var before := events[..|events| - 1];
      StoppedStacksAgree(s, before);
      EventKeepsStacks(Run(s, before), events[|events| - 1]);
    }
  }

  // ----- resuming

  /** The target is never resumed at the second slot of a word without a no-op before it and a trap
      behind it. */
  lemma ResumesAtWordStart(s: Machine, c: Command)
    requires !s.running && s.ctx == IDLE && Commanded(s, c).running
    ensures var t := Commanded(s, c);
      SecondSlot(t.regs[PC]) ==> t.ctx.stepping && t.mem == Planted(s.mem, t.regs[PC])
  {
    if c.Continue? && !s.stepFlag {
      var r := From(s.regs, c.from);
      if SecondSlot(r[PC]) && IsBranch(s.mem, r[PC]) != 0 {
        SecondSlotBranchAligns(s.mem, r);
      }
    }
  }

  /** A step over a branch is done by emulation: memory is untouched, and the stub stays stopped. */
  lemma EmulatedStepStays(s: Machine, from: Option<Word>)
    requires !s.running && IsBranch(s.mem, From(s.regs, from)[PC]) != 0
    ensures var t := Commanded(s, Step(from));
      !t.running && t.mem == s.mem && t.regs == Emulate(s.mem, From(s.regs, from)) && t.stepFlag
  {}

  // ----- when a continue is a step

  /** Some command was a step. */
  predicate Stepped(commands: seq<Command>) {
    exists k :: 0 <= k < |commands| && commands[k].Step?
  }

  lemma SteppedFirst(c: Command, rest: seq<Command>)
    ensures Stepped([c] + rest) <==> c.Step? || Stepped(rest)
  {
    var all := [c] + rest;
    if c.Step? {
      assert all[0].Step?;
    }
    if Stepped(rest) {
      var k :| 0 <= k < |rest| && rest[k].Step?;
      assert all[k + 1].Step?;
    }
  }

  lemma OneCommandFlag(s: Machine, c: Command)
    requires !s.running && !s.ctx.stepping
    ensures var t := Commanded(s, c); (t.stepFlag <==> s.stepFlag || c.Step?) && (!t.running ==> !t.ctx.stepping)
  {}

  /** While the stub is served and stays stopped, its flag records whether a step was commanded. */
  lemma {:induction false} FlagMeansStepped(s: Machine, commands: seq<Command>)
    requires !s.running && !s.ctx.stepping && !Served(s, commands).running
    ensures var t := Served(s, commands); (t.stepFlag <==> s.stepFlag || Stepped(commands)) && !t.ctx.stepping
    decreases |commands|
  {
    if commands != [] {
      var next := Commanded(s, commands[0]);
      OneCommandFlag(s, commands[0]);
      SteppedFirst(commands[0], commands[1..]);
      assert commands == [commands[0]] + commands[1..];
      FlagMeansStepped(next, commands[1..]);
    }
  }

  /** What the debugger sees of a step: it is told at once, or it will be told when the step traps. */
  predicate StepsAndReports(t: Machine) {
    !t.running || (t.ctx.stepping && !t.ctx.continueP)
  }

  /** A trap that stops the target begins a session without a step. */
  lemma TrapBegins(s: Machine, vector: nat, stashed: Regs)
    requires s.running
    ensures var t := Trapped(s, vector, stashed); !t.running ==> !t.ctx.stepping && !t.stepFlag
  {}

  lemma ContinueInSession(stopped: Machine, commands: seq<Command>, from: Option<Word>)
    requires !stopped.running && !stopped.ctx.stepping && !stopped.stepFlag && !Served(stopped, commands).running
    ensures StepsAndReports(Commanded(Served(stopped, commands), Continue(from))) <==> Stepped(commands)
  {
    FlagMeansStepped(stopped, commands);
    ContinueByFlag(Served(stopped, commands), from);
  }

  /** A continue is a single step that reports if and only if a step was commanded since the trap that
      stopped the target, whatever else was commanded in between and wherever it continues. */
  lemma ContinueStepsIff(s: Machine, vector: nat, stashed: Regs, commands: seq<Command>, from: Option<Word>)
    requires s.running
    ensures var t := Served(Trapped(s, vector, stashed), commands);
      !t.running ==> (StepsAndReports(Commanded(t, Continue(from))) <==> Stepped(commands))
  {
    if !Served(Trapped(s, vector, stashed), commands).running {
      TrapBegins(s, vector, stashed);
      ContinueInSession(Trapped(s, vector, stashed), commands, from);
    }
  }

  lemma ContinueByFlag(t: Machine, from: Option<Word>)
    requires !t.running && !t.ctx.stepping
    ensures StepsAndReports(Commanded(t, Continue(from))) <==> t.stepFlag
  {}

  /** A branch to the next word at address 4, and nothing else: a step over it is emulated, and the
      continue behind it plants a trap and stops again; without the step it would run freely. */
  lemma ContinueAfterBranch(zeros: Memory, regs: Regs)
    requires (forall k :: 0 <= k < WORD ==> zeros[k] == 0) && regs[PC] == 4
    ensures var s := Machine(false, regs, zeros[4 := 0x7F][5 := 1], IDLE, false);
      var t := Commanded(s, Step(None));
      && !t.running && t.regs[PC] == 8
      && StepsAndReports(Commanded(t, Continue(None))) && Commanded(t, Continue(None)).ctx.trapAddr == 10
      && !StepsAndReports(Commanded(s, Continue(None)))
  {
    var m: Memory := zeros[4 := 0x7F][5 := 1];
    assert Load(m, 4) == 0x7F && Load(m, 5) == 1 && Load(m, 8) == 0 && Load(m, 9) == 0;
    assert IsBranch(m, 4) == 3 && IsBranch(m, 8) == 0;
    EmulatedStepStays(Machine(false, regs, m, IDLE, false), None);
    assert BranchDestination(m, regs, 4, 3) == 8;
  }

  // ----- a halfword at address 0

  /** Stepping the instruction at address 2 in an empty memory leaves the no-op behind at address 0. */
  lemma NoopIsLeft(zeros: Memory)
    requires forall k :: 0 <= k < WORD ==> zeros[k] == 0
    ensures Restored(Planted(zeros, 2), ContextFor(zeros, 2, false))[0] == NOOP / 256 != zeros[0]
  {
    PlantedIsTransparent(zeros, 2);
    StepBytes(zeros, 2, Planted(zeros, 2), 0);
  }
}
