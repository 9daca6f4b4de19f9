/** The processor seen by the stub: registers, memory, and an independent description of its branch
    instructions by whole halfwords and words. */
module M32R {
  import opened Basics

  type Word = x: int | 0 <= x < WORD
  type Half = x: int | 0 <= x < 0x1_0000
  type Memory = m: seq<Byte> | |m| == WORD ghost witness seq(WORD, _ => 0)
  type Regs = r: seq<Word> | |r| == 24 witness seq(24, _ => 0)

  const R14: nat := 14
  const R15: nat := 15
  const PSW: nat := 16
  const CBR: nat := 17
  const SPI: nat := 18
  const SPU: nat := 19
  const BPC: nat := 20
  const PC: nat := 21

  function Wrap(x: int): Word {
    x % WORD
  }

  /** The address with its two low bits cleared. */
  function Aligned(a: Word): Word {
    a - a % 4
  }

  /** Whether an address is the second halfword of its word. */
  predicate SecondSlot(a: Word) {
    a / 2 % 2 == 1
  }

  function Load(m: Memory, a: int): Byte {
    m[Wrap(a)]
  }

  function Peek(m: Memory, a: int): Half {
    Load(m, a) * 256 + Load(m, a + 1)
  }

  /** The memory with a halfword stored, high byte first. */
  function Poke(m: Memory, a: int, h: Half): Memory {
    m[Wrap(a) := h / 256][Wrap(a + 1) := h % 256]
  }

  function SignExtended(v: nat, sign: nat): int
    requires sign > 0
  {
    if v >= sign then v - 2 * sign else v
  }

  function Signed(w: Word): int {
    SignExtended(w, 0x8000_0000)
  }

  // ----- branches: decode by pattern, then execute

  datatype Branch =
    | Rte
    | Jmp(r: nat)
    | Jl(r: nat)
    | Bra(disp: int)
    | Bl(disp: int)
    | Bc(disp: int)
    | Bnc(disp: int)
    | Beq(r1: nat, r2: nat, disp: int)
    | Bne(r1: nat, r2: nat, disp: int)
    | Beqz(r: nat, disp: int)
    | Bnez(r: nat, disp: int)
    | Bltz(r: nat, disp: int)
    | Bgez(r: nat, disp: int)
    | Blez(r: nat, disp: int)
    | Bgtz(r: nat, disp: int)

  datatype Decoded = NotBranch | Decoded(branch: Branch, size: nat)

  /** A 16-bit instruction. The top bit only says that it runs beside its neighbour. */
  function DecodeShort(h: Half): Decoded {
    var op := h % 0x8000;
    var disp := SignExtended(op % 0x100, 0x80);
    if op == 0x10B6 then Decoded(Rte, 2)
    else if op / 0x10 == 0x1FC then Decoded(Jmp(op % 0x10), 2)
    else if op / 0x10 == 0x1EC then Decoded(Jl(op % 0x10), 2)
    else if op / 0x100 == 0x7F then Decoded(Bra(disp), 2)
    else if op / 0x100 == 0x7E then Decoded(Bl(disp), 2)
    else if op / 0x100 == 0x7D then Decoded(Bnc(disp), 2)
    else if op / 0x100 == 0x7C then Decoded(Bc(disp), 2)
    else NotBranch
  }

  /** A 32-bit instruction: the opcode halfword and the one behind it. */
  function DecodeLong(h: Half, low: Half): Decoded {
    var disp24 := SignExtended(h % 0x100 * 0x1_0000 + low, 0x80_0000);
    var disp16 := SignExtended(low, 0x8000);
    if h / 0x100 == 0xFF then Decoded(Bra(disp24), 4)
    else if h / 0x100 == 0xFE then Decoded(Bl(disp24), 4)
    else if h / 0x100 == 0xFD then Decoded(Bnc(disp24), 4)
    else if h / 0x100 == 0xFC then Decoded(Bc(disp24), 4)
    else if h / 0x1000 == 0xB && h / 0x10 % 0x10 == 0 then Decoded(Beq(h / 0x100 % 0x10, h % 0x10, disp16), 4)
    else if h / 0x1000 == 0xB && h / 0x10 % 0x10 == 1 then Decoded(Bne(h / 0x100 % 0x10, h % 0x10, disp16), 4)
    else if h / 0x10 == 0xB08 then Decoded(Beqz(h % 0x10, disp16), 4)
    else if h / 0x10 == 0xB09 then Decoded(Bnez(h % 0x10, disp16), 4)
    else if h / 0x10 == 0xB0A then Decoded(Bltz(h % 0x10, disp16), 4)
    else if h / 0x10 == 0xB0B then Decoded(Bgez(h % 0x10, disp16), 4)
    else if h / 0x10 == 0xB0C then Decoded(Blez(h % 0x10, disp16), 4)
    else if h / 0x10 == 0xB0D then Decoded(Bgtz(h % 0x10, disp16), 4)
    else NotBranch
  }

  /** Instructions in the second slot, or with the top bit clear, are short. */
  function Decode(m: Memory, pc: Word): Decoded {
    var h := Peek(m, pc);
    if SecondSlot(pc) || h < 0x8000 then DecodeShort(h) else DecodeLong(h, Peek(m, pc + 2))
  }

  predicate RegistersOk(b: Branch) {
    match b
    case Jmp(r) => r < 16
    case Jl(r) => r < 16
    case Beq(r1, r2, _) => r1 < 16 && r2 < 16
    case Bne(r1, r2, _) => r1 < 16 && r2 < 16
    case Beqz(r, _) => r < 16
    case Bnez(r, _) => r < 16
    case Bltz(r, _) => r < 16
    case Bgez(r, _) => r < 16
    case Blez(r, _) => r < 16
    case Bgtz(r, _) => r < 16
    case _ => true
  }

  predicate TakenIn(b: Branch, regs: Regs)
    requires RegistersOk(b)
  {
    match b
    case Bc(_) => regs[CBR] != 0
    case Bnc(_) => regs[CBR] == 0
    case Beq(r1, r2, _) => regs[r1] == regs[r2]
    case Bne(r1, r2, _) => regs[r1] != regs[r2]
    case Beqz(r, _) => regs[r] == 0
    case Bnez(r, _) => regs[r] != 0
    case Bltz(r, _) => Signed(regs[r]) < 0
    case Bgez(r, _) => Signed(regs[r]) >= 0
    case Blez(r, _) => Signed(regs[r]) <= 0
    case Bgtz(r, _) => Signed(regs[r]) > 0
    case _ => true
  }

  function TargetIn(b: Branch, regs: Regs): Word
    requires RegistersOk(b)
  {
    match b
    case Rte => Aligned(regs[BPC])
    case Jmp(r) => Aligned(regs[r])
    case Jl(r) => Aligned(regs[r])
    case _ => Wrap(Aligned(regs[PC]) + b.disp * 4)
  }

  predicate Links(b: Branch) {
    b.Bl? || b.Jl?
  }

  /** Everything is read before anything is written: target and condition, then link and PC. */
  function Execute(d: Decoded, regs: Regs): Regs
    requires d.Decoded? && RegistersOk(d.branch)
  {
    var next := if TakenIn(d.branch, regs) then TargetIn(d.branch, regs) else Wrap(regs[PC] + d.size);
    var linked := if Links(d.branch) then regs[R14 := Wrap(Aligned(regs[PC]) + 4)] else regs;
    linked[PC := next]
  }

  lemma DecodeGivesRegisters(m: Memory, pc: Word)
    ensures Decode(m, pc).Decoded? ==> RegistersOk(Decode(m, pc).branch) && (Decode(m, pc).size == 2 || Decode(m, pc).size == 4)
  {}
}
