/** The stub itself: registers, memory and stepping context updated in place, proved to move as the
    state machine of Stepping says. */
module Stub {
  import opened Basics
  import opened M32R
  import opened BranchEmulator
  import opened Stepping

  class DebugStub {
    const registers: array<Word>
    const memory: array<Byte>
    var stepping: Context

    ghost predicate Valid() {
      registers.Length == 24 && memory.Length == WORD
    }

    /** The stub's part of the machine, with what only the surroundings know. */
    ghost function State(running: bool, stepFlag: bool): Machine
      requires Valid()
      reads this, registers, memory
    {
      Machine(running, registers[..], memory[..], stepping, stepFlag)
    }

    constructor ()
      ensures Valid() && fresh(registers) && fresh(memory) && stepping == IDLE
    {
      registers := new Word[24](_ => 0);
      memory := new Byte[WORD](_ => 0);
      stepping := IDLE;
    }

    method LoadHalf(a: int) returns (h: Half)
      requires Valid()
      ensures h == Peek(memory[..], a)
    {
      h := memory[Wrap(a)] as int * 256 + memory[Wrap(a + 1)] as int;
    }

    method StoreHalf(a: int, h: Half)
      requires Valid()
      modifies memory
      ensures memory[..] == Poke(old(memory[..]), a, h)
    {
      memory[Wrap(a)] := h / 256;
      memory[Wrap(a + 1)] := h % 256;
    }

    /** Set up a single step. A branch is emulated at once and the answer is no: do not resume. */
    method PrepareToStep(continueP: bool, ghost running: bool, ghost flag: bool) returns (resume: bool)
      requires Valid()
      modifies this`stepping, registers, memory
      ensures State(running, flag) == Prepared(old(State(running, flag)), continueP)
      ensures resume <==> IsBranch(old(memory[..]), old(registers[PC])) == 0
      ensures resume <==> stepping.stepping
    {
      var pc := registers[PC];
      var code := IsBranch(memory[..], pc);
      stepping := IDLE;
      if code != 0 {
        EmulateBranch(pc, code);
        return false;
      } else if SecondSlot(pc) {
        var noop := LoadHalf(pc - 2);
        stepping := stepping.(noopAddr := Wrap(pc - 2), noopSave := noop);
        StoreHalf(pc - 2, NOOP);
        var trap := LoadHalf(pc + 2);
        stepping := stepping.(trapAddr := Wrap(pc + 2), trapSave := trap);
        StoreHalf(pc + 2, TRAP1);
      } else {
        var at := Wrap(pc + InstructionSize(memory[..], pc));
        var trap := LoadHalf(at);
        stepping := stepping.(trapAddr := at, trapSave := trap);
        StoreHalf(at, TRAP1);
      }
      stepping := stepping.(continueP := continueP, stepping := true);
      return true;
    }

    method EmulateBranch(pc: Word, code: nat)
      requires Valid() && pc == registers[PC] && code == IsBranch(memory[..], pc)
      modifies registers
      ensures registers[..] == Emulate(memory[..], old(registers[..]))
    {
      if 2 <= code <= 4 && memory[pc] % 16 == 0xE {
        registers[R14] := Wrap(Aligned(registers[PC]) + 4);
      }
      assert registers[..] == BranchSideEffects(memory[..], old(registers[..]), pc, code);
      if WillBranch(memory[..], registers[..], pc, code) {
        registers[PC] := BranchDestination(memory[..], registers[..], pc, code);
      } else {
        registers[PC] := Wrap(pc + InstructionSize(memory[..], pc));
      }
    }

    /** Put back what a step replaced. The debugger hears of the stop unless the step was only made
        to be able to continue. */
    method FinishFromStep(ghost running: bool, ghost flag: bool) returns (notify: bool)
      requires Valid()
      modifies this`stepping, memory
      ensures State(running, flag) == Finished(old(State(running, flag)))
      ensures notify <==> !(old(stepping.stepping) && old(stepping.continueP))
    {
      if !stepping.stepping {
        return true;
      }
      var continueP := stepping.continueP;
      if stepping.noopAddr != 0 {
        StoreHalf(stepping.noopAddr, stepping.noopSave);
      }
      if stepping.trapAddr != 0 {
        StoreHalf(stepping.trapAddr, stepping.trapSave);
      }
      stepping := IDLE;
      return !continueP;
    }

    method CleanupStash()
      requires Valid()
      modifies registers
      ensures registers[..] == Cleaned(old(registers[..]))
    {
      var psw := registers[PSW];
      psw := WithBit(psw, 0x80, Bit(psw, 0x8000));
      psw := WithBit(psw, 0x40, Bit(psw, 0x4000));
      psw := WithBit(psw, 1, Bit(psw, 0x100));
      registers[PSW] := psw;
      registers[CBR] := if Bit(psw, 0x100) == 1 then 0xFFFF_FFFF else 0;
      registers[PC] := registers[BPC];
      if Bit(psw, 0x80) == 1 {
        registers[SPU] := registers[R15];
      } else {
        registers[SPI] := registers[R15];
      }
    }

    /** Set one register, and the stack pointer that goes with it. */
    method SetRegister(n: nat, v: Word)
      requires Valid() && n < 24
      modifies registers
      ensures registers[..] == RegisterSet(old(registers[..]), n, v)
    {
      registers[n] := v;
      var user := Bit(registers[PSW], 0x80) == 1;
      if n == R15 {
        if user {
          registers[SPU] := registers[R15];
        } else {
          registers[SPI] := registers[R15];
        }
      } else if n == SPU {
        if user {
          registers[R15] := registers[SPU];
        }
      } else if n == SPI {
        if !user {
          registers[R15] := registers[SPI];
        }
      } else if n == PSW {
        if user {
          registers[R15] := registers[SPU];
        } else {
          registers[R15] := registers[SPI];
        }
      }
    }

    method SetRegisters(all: Regs)
      requires Valid()
      modifies registers
      ensures registers[..] == all
    {
      var k := 0;
      while k < 24
        invariant 0 <= k <= 24
        invariant registers[..k] == all[..k]
      {
        registers[k] := all[k];
        k := k + 1;
      }
    }

    method WriteMemory(at: Word, bytes: seq<Byte>)
      requires Valid()
      modifies memory
      ensures memory[..] == Written(old(memory[..]), at, bytes)
    {
      var k := 0;
      while k < |bytes|
        invariant 0 <= k <= |bytes|
        invariant Written(memory[..], at + k, bytes[k..]) == Written(old(memory[..]), at, bytes)
      {
        ghost var before := memory[..];
        memory[Wrap(at + k)] := bytes[k];
        assert memory[..] == before[Wrap(at + k) := bytes[k]];
        assert bytes[k..][1..] == bytes[k + 1..];
        k := k + 1;
      }
    }

    /** The two commands that may resume the target; `flag` is the command loop's own. */
    method Resume(step: bool, from: Option<Word>, stepFlag: bool) returns (resumed: bool, flag: bool)
      requires Valid()
      modifies this`stepping, registers, memory
      ensures State(resumed, flag) == Commanded(old(State(false, stepFlag)), if step then Step(from) else Continue(from))
    {
      flag := step || stepFlag;
      if from.Some? {
        registers[PC] := from.value;
      }
      assert registers[..] == From(old(registers[..]), from);
      if flag {
        resumed := PrepareToStep(false, false, flag);
      } else {
        if SecondSlot(registers[PC]) {
          var _ := PrepareToStep(true, false, flag);
        }
        resumed := true;
      }
    }

    /** One turn of the command loop. */
    method Obey(c: Command, stepFlag: bool) returns (resumed: bool, flag: bool)
      requires Valid()
      modifies this`stepping, registers, memory
      ensures State(resumed, flag) == Commanded(old(State(false, stepFlag)), c)
    {
      resumed, flag := false, stepFlag;
      match c
      case SetPC(addr) => registers[PC] := addr;
      case WriteMemory(at, bytes) => WriteMemory(at, bytes);
      case SetRegister(n, v) =>
        if n < 24 {
          SetRegister(n, v);
        }
      case SetRegisters(all) => SetRegisters(all);
      case Step(from) => resumed, flag := Resume(true, from, stepFlag);
      case Continue(from) => resumed, flag := Resume(false, from, stepFlag);
      case Other =>
    }

    /** From a trap to the target's resumption, or to the last of the commands received so far. */
    method ProcessException(vector: nat, commands: seq<Command>) returns (resumed: bool, flag: bool)
      requires Valid()
      modifies this`stepping, registers, memory
      ensures State(resumed, flag) == Served(Trapped(old(State(true, flag)), vector, old(registers[..])), commands)
    {
      resumed, flag := true, false;
      CleanupStash();
      if vector == 1 {
        registers[PC] := Wrap(registers[PC] as int - 4);
      }
      ghost var clean := TrapRegs(vector, old(registers[..]));
      assert registers[..] == clean;
      var notify := FinishFromStep(true, false);
      assert registers[..] == clean;
      if !notify {
        return;
      }
      if vector == 0 && registers[0] == 5 && (registers[1] == 1 || registers[1] == 2) {
        registers[0] := registers[3];
        return;
      }
      resumed := false;
      var k := 0;
      while !resumed && k < |commands|
        invariant 0 <= k <= |commands|
        invariant Served(State(resumed, flag), commands[k..])
               == Served(Trapped(old(State(true, false)), vector, old(registers[..])), commands)
      {
        ghost var before := State(false, flag);
        resumed, flag := Obey(commands[k], flag);
        assert commands[k..][0] == commands[k] && commands[k..][1..] == commands[k + 1..];
        k := k + 1;
      }
    }
  }
}
