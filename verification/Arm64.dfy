/**
  A fragment of the A64 instruction set: the PC-relative instructions, the instructions a
  relocation emits, and everything else as a step that does not depend on where it stands.
  Encodings follow the Arm Architecture Reference Manual for A-profile (DDI 0487), sections
  C4.1 and C6.2.
 */
module Arm64 {
  import opened Memory

  const SPACE: int := 0x1_0000_0000_0000_0000

  type Word = x: int | 0 <= x < 0x1_0000_0000
  type Reg = x: int | 0 <= x < 32

  // ---------------------------------------------------------------- decoding

  /** The loads that exist both with a literal address and with a base register. */
  datatype Load = LoadW | LoadX | LoadSW | Prefetch | LoadS | LoadD | LoadQ

  datatype Instr =
    | Adr(page: bool, imm: int, rd: Reg)
    | B(link: bool, offset: int)
    | BCond(cond: nat, offset: int)
    | CompareBranch(wide: bool, nonzero: bool, rt: Reg, offset: int)
    | TestBranch(bit: nat, nonzero: bool, rt: Reg, offset: int)
    | LoadLiteral(load: Load, rt: Reg, offset: int)
    | Mov(keep: bool, hw: nat, part: nat, rd: Reg)
    | BReg(link: bool, rn: Reg)
    | LoadImm(load: Load, rn: Reg, rt: Reg, disp: nat)
    | Nop
    | Other(word: Word)

  /** Two's complement reading of a field whose top bit has weight `half`. */
  function Signed(field: nat, half: nat): int
  {
    if field >= half then field - 2 * half else field
  }

  function Imm26(w: Word): nat { w % 0x400_0000 }
  function Imm19(w: Word): nat { (w / 0x20) % 0x8_0000 }
  function Imm14(w: Word): nat { (w / 0x20) % 0x4000 }
  function ImmAdr(w: Word): nat { (w / 0x20) % 0x8_0000 * 4 + (w / 0x2000_0000) % 4 }

  function LiteralLoad(opc: nat, vector: bool): Load
    requires opc < 4 && (vector ==> opc < 3)
  {
    if vector then (if opc == 0 then LoadS else if opc == 1 then LoadD else LoadQ)
    else if opc == 0 then LoadW else if opc == 1 then LoadX else if opc == 2 then LoadSW else Prefetch
  }

  function Decode(w: Word): Instr
  {
    if (w / 0x100_0000) % 0x20 == 0x10 then
      Adr(w / 0x8000_0000 == 1, Signed(ImmAdr(w), 0x10_0000), w % 32)
    else if (w / 0x400_0000) % 0x20 == 0x05 then
      B(w / 0x8000_0000 == 1, Signed(Imm26(w), 0x200_0000) * 4)
    else if w / 0x100_0000 == 0x54 then
      BCond(w % 16, Signed(Imm19(w), 0x4_0000) * 4)
    else if (w / 0x200_0000) % 0x40 == 0x1a then
      CompareBranch(w / 0x8000_0000 == 1, (w / 0x100_0000) % 2 == 1, w % 32, Signed(Imm19(w), 0x4_0000) * 4)
    else if (w / 0x200_0000) % 0x40 == 0x1b then
      TestBranch(w / 0x8000_0000 * 32 + (w / 0x8_0000) % 32, (w / 0x100_0000) % 2 == 1, w % 32,
                 Signed(Imm14(w), 0x2000) * 4)
    else if IsLiteral(w) then
      if Vector(w) && w / 0x4000_0000 == 3 then Other(w)
      else LoadLiteral(LiteralLoad(w / 0x4000_0000, Vector(w)), w % 32, Signed(Imm19(w), 0x4_0000) * 4)
    else if w / 0x80_0000 == 0x1A5 || w / 0x80_0000 == 0x1E5 then
      Mov(w / 0x80_0000 == 0x1E5, (w / 0x20_0000) % 4, (w / 0x20) % 0x1_0000, w % 32)
    else if w / 0x400 == 0x35_87C0 && w % 32 == 0 then BReg(false, (w / 0x20) % 32)
    else if w / 0x400 == 0x35_8FC0 && w % 32 == 0 then BReg(true, (w / 0x20) % 32)
    else if w / 0x40_0000 == 0x2E5 then Immediate(w, LoadW, 4)
    else if w / 0x40_0000 == 0x3E5 then Immediate(w, LoadX, 8)
    else if w / 0x40_0000 == 0x2E6 then Immediate(w, LoadSW, 4)
    else if w / 0x40_0000 == 0x3E6 then Immediate(w, Prefetch, 8)
    else if w / 0x40_0000 == 0x2F5 then Immediate(w, LoadS, 4)
    else if w / 0x40_0000 == 0x3F5 then Immediate(w, LoadD, 8)
    else if w / 0x40_0000 == 0x0F7 then Immediate(w, LoadQ, 16)
    else if w == 0xd503201f then Nop
    else Other(w)
  }

  predicate IsLiteral(w: Word) { (w / 0x800_0000) % 8 == 3 && (w / 0x100_0000) % 4 == 0 }
  predicate Vector(w: Word) { (w / 0x400_0000) % 2 == 1 }

  function Immediate(w: Word, load: Load, scale: nat): Instr
  {
    LoadImm(load, (w / 0x20) % 32, w % 32, (w / 0x400) % 0x1000 * scale)
  }

  /** Whether what an instruction does depends on the address it stands at. */
  predicate PcRelative(i: Instr)
  {
    i.Adr? || i.B? || i.BCond? || i.CompareBranch? || i.TestBranch? || i.LoadLiteral?
  }

  // --------------------------------------------------------------- execution

  datatype Flags = Flags(n: bool, z: bool, c: bool, v: bool)

  type Regs = s: seq<Addr> | |s| == 31 witness seq(31, _ => 0)
  type Vectors = s: seq<nat> | |s| == 32 witness seq(32, _ => 0)

  /** Everything an instruction can change, except the program counter. */
  datatype Core = Core(x: Regs, sp: Addr, vec: Vectors, flags: Flags, mem: Addr -> Byte)

  /** Where control goes next: the following instruction, a static target, or a computed one. */
  datatype Flow = Fall | To(target: Addr) | Computed(target: Addr)

  /** An instruction outside the fragment continues with the next one or jumps to a computed address. */
  datatype Exit = Continue | Jump(target: Addr)

  /** The instructions outside the fragment, as one function that never sees the PC. */
  type Rest = (Word, Core) -> (Core, Exit)

  function Wrap(a: int): Addr { a % 0x1_0000_0000_0000_0000 }

  function X(c: Core, r: Reg): Addr { if r == 31 then 0 else c.x[r] }
  function BaseReg(c: Core, r: Reg): Addr { if r == 31 then c.sp else c.x[r] }
  function SetX(c: Core, r: Reg, v: Addr): Core { if r == 31 then c else c.(x := c.x[r := v]) }

  /** The condition codes; NV (15) is always true, like AL (14). */
  predicate Holds(cond: nat, f: Flags)
  {
    match cond
    case 0 => f.z
    case 1 => !f.z
    case 2 => f.c
    case 3 => !f.c
    case 4 => f.n
    case 5 => !f.n
    case 6 => f.v
    case 7 => !f.v
    case 8 => f.c && !f.z
    case 9 => !(f.c && !f.z)
    case 10 => f.n == f.v
    case 11 => f.n != f.v
    case 12 => !f.z && f.n == f.v
    case 13 => !(!f.z && f.n == f.v)
    case _ => true
  }

  function Pow2(n: nat): (p: nat)
    ensures p > 0
  {
    if n == 0 then 1 else 2 * Pow2(n - 1)
  }

  predicate BitSet(v: Addr, bit: nat) { (v / Pow2(bit)) % 2 == 1 }

  /** `size` bytes at `a`, little endian. */
  function ReadMem(m: Addr -> Byte, a: Addr, size: nat): nat
    decreases size
  {
    if size == 0 then 0 else m(a) + 0x100 * ReadMem(m, Wrap(a + 1), size - 1)
  }

  function Narrow(v: nat): Addr { v % 0x1_0000_0000_0000_0000 }

  /** The effect of a load from address `a`. A prefetch has no architectural effect. */
  function DoLoad(c: Core, load: Load, rt: Reg, a: Addr): Core
  {
    match load
    case LoadW => SetX(c, rt, Narrow(ReadMem(c.mem, a, 4)))
    case LoadX => SetX(c, rt, Narrow(ReadMem(c.mem, a, 8)))
    case LoadSW =>
      var v := ReadMem(c.mem, a, 4) % 0x1_0000_0000;
      SetX(c, rt, if v >= 0x8000_0000 then v + 0xFFFF_FFFF_0000_0000 else v)
    case Prefetch => c
    case LoadS => c.(vec := c.vec[rt := ReadMem(c.mem, a, 4)])
    case LoadD => c.(vec := c.vec[rt := ReadMem(c.mem, a, 8)])
    case LoadQ => c.(vec := c.vec[rt := ReadMem(c.mem, a, 16)])
  }

  /** Replace the 16 bits of `old` selected by `hw` with `imm`. */
  function Insert(was: Addr, hw: nat, imm: nat): Addr
  {
    var u := if hw == 0 then 1 else if hw == 1 then 0x1_0000 else if hw == 2 then 0x1_0000_0000 else 0x1_0000_0000_0000;
    Wrap(was - (was / u) % 0x1_0000 * u + imm * u)
  }

  function Exec(rest: Rest, w: Word, pc: Addr, c: Core): (Core, Flow)
  {
    match Decode(w)
    case Adr(page, imm, rd) =>
      (SetX(c, rd, Wrap(if page then pc - pc % 4096 + imm * 4096 else pc + imm)), Fall)
    case B(link, offset) =>
      (if link then SetX(c, 30, Wrap(pc + 4)) else c, To(Wrap(pc + offset)))
    case BCond(cond, offset) =>
      (c, if Holds(cond, c.flags) then To(Wrap(pc + offset)) else Fall)
    case CompareBranch(wide, nonzero, rt, offset) =>
      var v := if wide then X(c, rt) else X(c, rt) % 0x1_0000_0000;
      (c, if (v != 0) == nonzero then To(Wrap(pc + offset)) else Fall)
    case TestBranch(bit, nonzero, rt, offset) =>
      (c, if BitSet(X(c, rt), bit) == nonzero then To(Wrap(pc + offset)) else Fall)
    case LoadLiteral(load, rt, offset) => (DoLoad(c, load, rt, Wrap(pc + offset)), Fall)
    case Mov(keep, hw, imm, rd) => (SetX(c, rd, Insert(if keep then X(c, rd) else 0, hw, imm)), Fall)
    case BReg(link, rn) =>
      (if link then SetX(c, 30, Wrap(pc + 4)) else c, Computed(X(c, rn)))
    case LoadImm(load, rn, rt, imm) => (DoLoad(c, load, rt, Wrap(BaseReg(c, rn) + imm)), Fall)
    case Nop => (c, Fall)
    case Other(_) =>
      var (c', exit) := rest(w, c);
      (c', if exit.Jump? then Computed(exit.target) else Fall)
  }
}
