/** The stub's branch emulator, byte by byte as it is written, against the processor's own reading. */
module BranchEmulator {
  import opened Basics
  import opened M32R

  // ----- the emulator's tests

  function ShortBranch(b0: Byte, b1: Byte): nat {
    var i0 := b0 % 0x80;
    if i0 == 0x10 && b1 == 0xB6 then 1
    else if (i0 == 0x1E || i0 == 0x1F) && b1 / 16 == 0xC then 2
    else if i0 == 0x7C || i0 == 0x7D || i0 == 0x7E || i0 == 0x7F then 3
    else 0
  }

  function LongBranch(b0: Byte, b1: Byte): nat {
    if b0 == 0xFC || b0 == 0xFD || b0 == 0xFE || b0 == 0xFF then 4
    else if b0 / 16 == 0xB then
      if b1 / 16 == 0 || b1 / 16 == 1 then 5
      else if b0 == 0xB0 && 8 <= b1 / 16 <= 0xD then 6
      else 0
    else 0
  }

  function InstructionSize(m: Memory, a: Word): nat {
    if SecondSlot(a) || Load(m, a) < 0x80 then 2 else 4
  }

  function IsBranch(m: Memory, a: Word): nat {
    if InstructionSize(m, a) == 2 then ShortBranch(Load(m, a), Load(m, a + 1)) else LongBranch(Load(m, a), Load(m, a + 1))
  }

  predicate WillBranch(m: Memory, regs: Regs, a: Word, code: nat) {
    var b0, b1 := Load(m, a), Load(m, a + 1);
    var r := regs[b1 % 16];
    if code == 1 || code == 2 then true
    else if code == 3 || code == 4 then
      if b0 % 16 == 0xC then regs[CBR] != 0
      else if b0 % 16 == 0xD then regs[CBR] == 0
      else b0 % 16 == 0xE || b0 % 16 == 0xF
    else if code == 5 then
      if b1 / 16 == 0 then regs[b0 % 16] == regs[b1 % 16]
      else b1 / 16 == 1 && regs[b0 % 16] != regs[b1 % 16]
    else if code == 6 then
      if b1 / 16 == 8 then r == 0
      else if b1 / 16 == 9 then r != 0
      else if b1 / 16 == 0xA then Signed(r) < 0
      else if b1 / 16 == 0xB then Signed(r) >= 0
      else if b1 / 16 == 0xC then Signed(r) <= 0
      else b1 / 16 == 0xD && Signed(r) > 0
    else false
  }

  /** A byte as a signed char. */
  function Char(b: Byte): int {
    SignExtended(b, 0x80)
  }

  /** Only the most significant byte of an offset is sign-extended; the others are put in below it. */
  function BranchDestination(m: Memory, regs: Regs, a: Word, code: nat): Word {
    var b1, b2, b3 := Load(m, a + 1), Load(m, a + 2), Load(m, a + 3);
    if code == 1 then Aligned(regs[BPC])
    else if code == 2 then Aligned(regs[b1 % 16])
    else if code == 3 then Wrap(Aligned(a) + Char(b1) * 4)
    else if code == 4 then Wrap(a + (Char(b1) * 0x1_0000 + b2 * 0x100 + b3) * 4)
    else if code == 5 || code == 6 then Wrap(a + (Char(b2) * 0x100 + b3) * 4)
    else 0
  }

  function BranchSideEffects(m: Memory, regs: Regs, a: Word, code: nat): Regs {
    if 2 <= code <= 4 && Load(m, a) % 16 == 0xE then regs[R14 := Wrap(Aligned(regs[PC]) + 4)] else regs
  }

  /** The link register is written first; condition and destination are then read from the result. */
  function Emulate(m: Memory, regs: Regs): Regs {
    var pc := regs[PC];
    var code := IsBranch(m, pc);
    var r := BranchSideEffects(m, regs, pc, code);
    r[PC := if WillBranch(m, r, pc, code) then BranchDestination(m, r, pc, code) else Wrap(pc + InstructionSize(m, pc))]
  }

  // ----- the two readings of an instruction agree

  lemma HalfFields(b0: Byte, b1: Byte)
    ensures var h := b0 * 256 + b1;
      && h / 0x100 == b0 && h % 0x100 == b1
      && h / 0x10 == b0 * 16 + b1 / 16 && h % 0x10 == b1 % 16
      && h / 0x1000 == b0 / 16 && h / 0x10 % 0x10 == b1 / 16
      && h / 0x100 % 0x10 == b0 % 16
      && (h < 0x8000 <==> b0 < 0x80)
  {
    var hi, lo := b1 / 16, b1 % 16;
    assert b1 == 16 * hi + lo;
    assert b0 * 256 + b1 == 16 * (b0 * 16 + hi) + lo;
    assert b0 * 256 + b1 == 0x1000 * (b0 / 16) + 256 * (b0 % 16) + b1;
  }

  lemma SlotBit(b0: Byte, b1: Byte)
    ensures (b0 * 256 + b1) % 0x8000 == b0 % 0x80 * 256 + b1
  {
    assert b0 * 256 + b1 == 0x8000 * (b0 / 0x80) + (b0 % 0x80 * 256 + b1);
  }

  /** What an emulator code stands for, given the instruction's first two bytes and its offset. */
  ghost predicate Reads(code: nat, b0: Byte, b1: Byte, disp: int, d: Decoded)
  {
    match code
    case 0 => d == NotBranch
    case 1 => d == Decoded(Rte, 2)
    case 2 => b1 / 16 == 0xC && (b0 % 16 == 0xE || b0 % 16 == 0xF)
              && d == Decoded(if b0 % 16 == 0xE then Jl(b1 % 16) else Jmp(b1 % 16), 2)
    case 3 => b0 % 16 >= 0xC && d == Decoded(Conditional(b0 % 16, disp), 2)
    case 4 => b0 % 16 >= 0xC && d == Decoded(Conditional(b0 % 16, disp), 4)
    case 5 => b1 / 16 <= 1 && d == Decoded(if b1 / 16 == 0 then Beq(b0 % 16, b1 % 16, disp) else Bne(b0 % 16, b1 % 16, disp), 4)
    case 6 => 8 <= b1 / 16 <= 0xD && d == Decoded(AgainstZero(b1 / 16, b1 % 16, disp), 4)
    case _ => false
  }

  function Conditional(k: nat, disp: int): Branch
    requires 0xC <= k < 0x10
  {
    if k == 0xC then Bc(disp) else if k == 0xD then Bnc(disp) else if k == 0xE then Bl(disp) else Bra(disp)
  }

  function AgainstZero(k: nat, r: nat, disp: int): Branch
    requires 8 <= k <= 0xD
  {
    if k == 8 then Beqz(r, disp) else if k == 9 then Bnez(r, disp) else if k == 0xA then Bltz(r, disp)
    else if k == 0xB then Bgez(r, disp) else if k == 0xC then Blez(r, disp) else Bgtz(r, disp)
  }

  lemma ShortAgrees(b0: Byte, b1: Byte)
    ensures Reads(ShortBranch(b0, b1), b0, b1, Char(b1), DecodeShort(b0 * 256 + b1))
  {
    SlotBit(b0, b1);
    LowNibble(b0);
    ShortFieldsAgree(b0 % 0x80, b1);
  }

  lemma LowNibble(b0: Byte)
    ensures b0 % 0x80 % 16 == b0 % 16
  {
    assert b0 == 0x80 * (b0 / 0x80) + b0 % 0x80;
  }

  /** The same without the slot bit. */
  lemma ShortFieldsAgree(i0: Byte, b1: Byte)
    requires i0 < 0x80
    ensures Reads(ShortBranch(i0, b1), i0, b1, Char(b1), DecodeShort(i0 * 256 + b1))
  {
    HalfFields(i0, b1);
  }

  lemma LongAgrees(b0: Byte, b1: Byte, b2: Byte, b3: Byte)
    ensures var code := LongBranch(b0, b1);
      Reads(code, b0, b1, if code == 4 then Char(b1) * 0x1_0000 + b2 * 0x100 + b3 else Char(b2) * 0x100 + b3,
            DecodeLong(b0 * 256 + b1, b2 * 256 + b3))
  {
    HalfFields(b0, b1);
    SignSpreads(b1, b2 * 256 + b3);
    assert SignExtended(b2 * 256 + b3, 0x8000) == Char(b2) * 0x100 + b3;
    if LongBranch(b0, b1) == 6 {
      assert (b0 * 256 + b1) / 0x10 == 0xB00 + b1 / 16;
    }
  }

  /** Sign-extending the top byte sign-extends the whole offset. */
  lemma SignSpreads(b1: Byte, low: Half)
    ensures SignExtended(b1 * 0x1_0000 + low, 0x80_0000) == Char(b1) * 0x1_0000 + low
  {}

  /** The offset the emulator uses for a code. */
  function Offset(m: Memory, a: Word, code: nat): int {
    var b1, b2, b3 := Load(m, a + 1), Load(m, a + 2), Load(m, a + 3);
    if code <= 3 then Char(b1) else if code == 4 then Char(b1) * 0x1_0000 + b2 * 0x100 + b3 else Char(b2) * 0x100 + b3
  }

  lemma ReadsAgree(m: Memory, a: Word)
    ensures var code := IsBranch(m, a);
      Reads(code, Load(m, a), Load(m, a + 1), Offset(m, a, code), Decode(m, a)) && (code >= 4 ==> a % 4 < 2)
  {
    HalfFields(Load(m, a), Load(m, a + 1));
    if InstructionSize(m, a) == 2 {
      ShortReading(m, a);
    } else {
      LongReading(m, a);
    }
  }

  lemma ShortReading(m: Memory, a: Word)
    requires InstructionSize(m, a) == 2
    ensures var code := IsBranch(m, a);
      code <= 3 && Reads(code, Load(m, a), Load(m, a + 1), Offset(m, a, code), Decode(m, a))
  {
    HalfFields(Load(m, a), Load(m, a + 1));
    ShortAgrees(Load(m, a), Load(m, a + 1));
    ShortCodes(Load(m, a), Load(m, a + 1));
  }

  lemma LongReading(m: Memory, a: Word)
    requires InstructionSize(m, a) == 4
    ensures var code := IsBranch(m, a);
      a % 4 < 2 && Reads(code, Load(m, a), Load(m, a + 1), Offset(m, a, code), Decode(m, a))
  {
    HalfFields(Load(m, a), Load(m, a + 1));
    assert Peek(m, a + 2) == Load(m, a + 2) * 256 + Load(m, a + 3);
    LongAgrees(Load(m, a), Load(m, a + 1), Load(m, a + 2), Load(m, a + 3));
    FirstSlotOffset(a);
  }

  lemma FirstSlotOffset(a: Word)
    ensures !SecondSlot(a) ==> a % 4 < 2
  {}

  /** The address a linking branch leaves in R14. */
  function ReturnAddress(pc: Word): Word {
    Wrap(Aligned(pc) + 4)
  }

  /** A code is 0 exactly for the instructions that are no branches. */
  lemma BranchIsDecoded(m: Memory, a: Word)
    ensures IsBranch(m, a) == 0 <==> Decode(m, a) == NotBranch
    ensures Decode(m, a).Decoded? ==> RegistersOk(Decode(m, a).branch) && Decode(m, a).size == InstructionSize(m, a)
  {
    ReadsAgree(m, a);
    DecodeGivesRegisters(m, a);
  }

  lemma ConditionAgrees(m: Memory, regs: Regs, r: Regs, a: Word)
    requires Decode(m, a).Decoded? && RegistersOk(Decode(m, a).branch)
    requires r == regs || (r == regs[R14 := r[R14]] && Links(Decode(m, a).branch))
    ensures WillBranch(m, r, a, IsBranch(m, a)) <==> TakenIn(Decode(m, a).branch, regs)
  {
    ReadsAgree(m, a);
  }

  lemma SideEffectIsLink(m: Memory, regs: Regs, a: Word)
    requires Decode(m, a).Decoded?
    ensures BranchSideEffects(m, regs, a, IsBranch(m, a))
         == if Links(Decode(m, a).branch) then regs[R14 := ReturnAddress(regs[PC])] else regs
  {
    ReadsAgree(m, a);
  }

  /** The destination is the processor's, unless the jump register is the link register just written. */
  lemma DestinationAgrees(m: Memory, regs: Regs, r: Regs)
    requires Decode(m, regs[PC]).Decoded? && RegistersOk(Decode(m, regs[PC]).branch) && regs[PC] % 2 == 0
    requires r == regs || (r == regs[R14 := r[R14]] && Links(Decode(m, regs[PC]).branch))
    ensures var b := Decode(m, regs[PC]).branch;
      BranchDestination(m, r, regs[PC], IsBranch(m, regs[PC])) == if b == Jl(14) then Aligned(r[R14]) else TargetIn(b, regs)
  {
    var a := regs[PC];
    var code := IsBranch(m, a);
    ReadsAgree(m, a);
    if code >= 3 {
      RelativeByCode(code, Load(m, a), Load(m, a + 1), Offset(m, a, code), Decode(m, a));
      RelativeTarget(m, r, a, code);
    } else {
      AbsoluteByCode(code, Load(m, a), Load(m, a + 1), Offset(m, a, code), Decode(m, a));
      RegisterTarget(Decode(m, a).branch, regs, r);
    }
  }

  /** Where the codes from 3 up go. */
  lemma RelativeTarget(m: Memory, r: Regs, a: Word, code: nat)
    requires 3 <= code <= 6 && a % 2 == 0 && (code >= 4 ==> a % 4 < 2)
    ensures BranchDestination(m, r, a, code) == Wrap(Aligned(a) + Offset(m, a, code) * 4)
  {
    if code >= 4 {
      WordStart(a);
    }
  }

  lemma WordStart(a: Word)
    requires a % 2 == 0 && a % 4 < 2
    ensures Aligned(a) == a
  {}

  /** A jump through a register other than R14 is not disturbed by the link. */
  lemma RegisterTarget(b: Branch, regs: Regs, r: Regs)
    requires RegistersOk(b) && (b.Rte? || b.Jmp? || b.Jl?)
    requires r == regs || (r == regs[R14 := r[R14]] && Links(b))
    ensures Aligned(if b.Rte? then r[BPC] else r[b.r]) == if b == Jl(14) then Aligned(r[R14]) else TargetIn(b, regs)
  {}

  /** Codes 1 and 2 go where a register says. */
  lemma AbsoluteByCode(code: nat, b0: Byte, b1: Byte, disp: int, d: Decoded)
    requires Reads(code, b0, b1, disp, d) && d.Decoded? && code < 3
    ensures code == 1 || code == 2
    ensures code == 1 ==> d.branch == Rte
    ensures code == 2 ==> d.branch == Jl(b1 % 16) || d.branch == Jmp(b1 % 16)
  {}

  /** Codes from 3 up are the branches relative to the PC. */
  lemma RelativeByCode(code: nat, b0: Byte, b1: Byte, disp: int, d: Decoded)
    requires Reads(code, b0, b1, disp, d) && d.Decoded? && code >= 3
    ensures code <= 6 && !d.branch.Rte? && !d.branch.Jmp? && !d.branch.Jl? && d.branch.disp == disp
  {}

  /** Emulating a branch leaves PC and R14 as executing it would, for every branch and every
      register contents. The one exception is exact: JL through R14 goes to its own return address
      instead of the old R14, so the two differ unless those are the same. */
  lemma EmulationIsExecution(m: Memory, regs: Regs)
    requires regs[PC] % 2 == 0 && IsBranch(m, regs[PC]) != 0
    ensures var d := Decode(m, regs[PC]);
      && d.Decoded? && RegistersOk(d.branch)
      && (Emulate(m, regs) == Execute(d, regs)
          <==> !(d.branch == Jl(14) && Aligned(regs[R14]) != ReturnAddress(regs[PC])))
  {
    var pc := regs[PC];
    BranchIsDecoded(m, pc);
    SideEffectIsLink(m, regs, pc);
    var d := Decode(m, pc);
    var r := BranchSideEffects(m, regs, pc, IsBranch(m, pc));
    ConditionAgrees(m, regs, r, pc);
    DestinationAgrees(m, regs, r);
    SameResult(d, regs, r, WillBranch(m, r, pc, IsBranch(m, pc)), BranchDestination(m, r, pc, IsBranch(m, pc)));
  }

  lemma SameResult(d: Decoded, regs: Regs, r: Regs, taken: bool, target: Word)
    requires d.Decoded? && RegistersOk(d.branch)
    requires r == if Links(d.branch) then regs[R14 := ReturnAddress(regs[PC])] else regs
    requires taken <==> TakenIn(d.branch, regs)
    requires target == if d.branch == Jl(14) then Aligned(r[R14]) else TargetIn(d.branch, regs)
    ensures r[PC := if taken then target else Wrap(regs[PC] + d.size)] == Execute(d, regs)
       <==> !(d.branch == Jl(14) && Aligned(regs[R14]) != ReturnAddress(regs[PC]))
  {
    if d.branch == Jl(14) {
      ReturnIsAligned(regs[PC]);
      assert r[PC := target][PC] == ReturnAddress(regs[PC]) && Execute(d, regs)[PC] == Aligned(regs[R14]);
    }
  }

  lemma ReturnIsAligned(pc: Word)
    ensures Aligned(ReturnAddress(pc)) == ReturnAddress(pc)
  {
    AlignedIsMultiple(pc);
    MultipleWraps(Aligned(pc) as int + 4);
  }

  /** After a branch in the second slot the PC is at the start of a word. */
  lemma SecondSlotBranchAligns(m: Memory, regs: Regs)
    requires SecondSlot(regs[PC]) && IsBranch(m, regs[PC]) != 0
    ensures !SecondSlot(Emulate(m, regs)[PC])
  {
    var pc := regs[PC];
    var code := IsBranch(m, pc);
    var r := BranchSideEffects(m, regs, pc, code);
    ShortCodes(Load(m, pc), Load(m, pc as int + 1));
    if WillBranch(m, r, pc, code) {
      ShortTargetAligns(m, r, pc, code);
    } else {
      NextIsFirst(pc);
    }
  }

  lemma ShortCodes(b0: Byte, b1: Byte)
    ensures ShortBranch(b0, b1) <= 3
  {}

  lemma ShortTargetAligns(m: Memory, r: Regs, a: Word, code: nat)
    requires 1 <= code <= 3
    ensures !SecondSlot(BranchDestination(m, r, a, code))
  {
    if code == 3 {
      AlignedIsMultiple(a);
      WordIsFirst(Aligned(a) as int + Char(Load(m, a + 1)) * 4);
    } else {
      AlignedIsFirst(if code == 1 then r[BPC] else r[Load(m, a + 1) % 16]);
    }
  }

  lemma AlignedIsMultiple(a: Word)
    ensures Aligned(a) % 4 == 0
  {}

  lemma AlignedIsFirst(a: Word)
    ensures !SecondSlot(Aligned(a))
  {
    AlignedIsMultiple(a);
    FirstIfMultiple(Aligned(a));
  }

  lemma WordIsFirst(x: int)
    requires x % 4 == 0
    ensures !SecondSlot(Wrap(x))
  {
    MultipleWraps(x);
    FirstIfMultiple(Wrap(x));
  }

  lemma MultipleWraps(x: int)
    ensures x % 4 == 0 ==> x % WORD % 4 == 0
  {}

  lemma FirstIfMultiple(a: Word)
    ensures a % 4 == 0 ==> !SecondSlot(a)
  {}

  lemma NextIsFirst(a: Word)
    requires SecondSlot(a)
    ensures !SecondSlot(Wrap(a + 2))
  {}

  /** JL R14 at address 4 with the old R14 at 0x100: the processor goes there, the emulator to its own
      return address. */
  lemma JumpThroughLink(m: Memory, regs: Regs)
    requires Load(m, 4) == 0x1E && Load(m, 5) == 0xCE && regs[PC] == 4 && regs[R14] == 0x100
    ensures var d := Decode(m, 4);
      && d == Decoded(Jl(14), 2) && Execute(d, regs)[PC] == 0x100 && Emulate(m, regs)[PC] == 8
  {
    assert Peek(m, 4) == 0x1ECE;
    assert IsBranch(m, 4) == 2;
    var r := BranchSideEffects(m, regs, 4, 2);
    assert r[R14] == 8 && BranchDestination(m, r, 4, 2) == 8;
  }
}
