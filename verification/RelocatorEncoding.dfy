/**
  The words a relocation emits decode to the instructions they are meant to be, and the
  immediates it computes reach the targets they are meant to reach.
 */
module RelocatorEncoding {
  import opened Memory
  import opened Arm64
  import opened Relocator

  /** Words whose literal-load form is not allocated; the disassembler rejects them. */
  predicate Allocated(word: Word) { !(IsLiteral(word) && Vector(word) && word / 0x4000_0000 == 3) }

  /** The classification by masks is the architecture's: an instruction is copied exactly when it uses
      no operand relative to where it stands. */
  lemma {:induction false} KindAgrees(word: Word)
    requires Allocated(word)
    ensures KindOf(word).Copy? <==> !PcRelative(Decode(word))
    ensures KindOf(word).Address? <==> Decode(word).Adr?
    ensures KindOf(word).Branch? <==> Decode(word).B?
    ensures KindOf(word).Conditional? <==> Decode(word).BCond?
    ensures KindOf(word).Compare? <==> Decode(word).CompareBranch?
    ensures KindOf(word).Test? <==> Decode(word).TestBranch?
    ensures KindOf(word).Literal? <==> Decode(word).LoadLiteral?
  {
  }

  // -------------------------------------------------------------- immediates

  lemma {:induction false} SignedFieldIsSigned(value: nat, bits: nat)
    requires bits in {14, 19, 21, 26} && value < 2 * Half(bits)
    ensures SignedField(value, bits) == Signed(value, Half(bits))
    ensures 0 - Half(bits) <= SignedField(value, bits) < Half(bits)
  {
  }

  /** `Relative` succeeds exactly on equally aligned targets in the field's asymmetric range,
      and its result, read back as a signed field, reaches the target. */
  lemma {:induction false} RelativeExact(from: Addr, to: Addr, bits: nat)
    requires bits in {14, 19, 21, 26}
    ensures Relative(from, to, bits).Some? <==>
            from % 4 == to % 4 && -4 * Half(bits) <= to - from <= 4 * (Half(bits) - 1)
    ensures Relative(from, to, bits).Some? ==>
            var rel := Relative(from, to, bits).value;
            rel < 2 * Half(bits) && from + SignedField(rel, bits) * 4 == to
  {
    hide Half;
    var h := Half(bits);
    HalfIsPositive(bits);
    if from % 4 == to % 4 {
      Aligned(from, to);
      if to < from && (from - to) / 4 <= h { SmallRemainder(2 * h - (from - to) / 4, 2 * h); }
    }
  }

  lemma {:induction false} HalfIsPositive(bits: nat)
    requires bits in {14, 19, 21, 26}
    ensures Half(bits) > 0
  {
  }

  lemma {:induction false} Aligned(a: int, b: int)
    requires a % 4 == b % 4
    ensures (b - a) / 4 * 4 == b - a && (a - b) / 4 * 4 == a - b
  {
  }

  lemma {:induction false} SmallRemainder(x: int, m: int)
    requires 0 <= x < m
    ensures x % m == x
  {
    Split(x, m, 0, x);
  }

  /** `Absolute` is addition that refuses to leave the address space. */
  lemma {:induction false} AbsoluteExact(pc: Addr, offset: int)
    ensures Absolute(pc, offset) == if pc + offset >= SPACE then Err(Overflow)
                                    else if pc + offset < 0 then Err(Underflow) else Ok(pc + offset)
  {
  }

  /** The address the relocator computes for an operand is the one the instruction uses. */
  lemma {:induction false} TargetIsDecoded(word: Word, pc: Addr)
    requires Allocated(word) && !KindOf(word).Copy? && TargetOf(word, pc).Ok?
    ensures var t := TargetOf(word, pc).value;
            match Decode(word)
            case Adr(page, imm, rd) => rd == word % 32 && t == Wrap(if page then pc - pc % 4096 + imm * 4096 else pc + imm)
            case B(link, offset) => link == (word / 0x8000_0000 == 1) && t == Wrap(pc + offset)
            case BCond(cond, offset) => cond == word % 16 && t == Wrap(pc + offset)
            case CompareBranch(_, _, _, offset) => t == Wrap(pc + offset)
            case TestBranch(_, _, _, offset) => t == Wrap(pc + offset)
            case LoadLiteral(_, rt, offset) => rt == word % 32 && t == Wrap(pc + offset)
            case _ => false
  {
    KindDecodes(word);
    FieldsFit(word);
    hide Decode, KindOf, Imm26, Imm19, Imm14, ImmAdr;
    hide Wrap, Absolute, Signed, SignedField;
    var k := KindOf(word);
    if k == Address {
      SignedFieldIsSigned(ImmAdr(word), 21);
      var imm := SignedField(ImmAdr(word), 21);
      if word / 0x8000_0000 == 1 { AbsoluteWraps(pc - pc % 4096, imm * 4096); } else { AbsoluteWraps(pc, imm); }
    } else if k == Branch {
      SignedFieldIsSigned(Imm26(word), 26);
      AbsoluteWraps(pc, SignedField(Imm26(word), 26) * 4);
    } else if k == Test {
      SignedFieldIsSigned(Imm14(word), 14);
      AbsoluteWraps(pc, SignedField(Imm14(word), 14) * 4);
    } else {
      SignedFieldIsSigned(Imm19(word), 19);
      AbsoluteWraps(pc, SignedField(Imm19(word), 19) * 4);
    }
  }

  lemma {:induction false} AbsoluteWraps(pc: Addr, offset: int)
    requires Absolute(pc, offset).Ok?
    ensures Absolute(pc, offset).value == Wrap(pc + offset)
  {
  }

  lemma {:induction false} KindDecodes(word: Word)
    requires Allocated(word)
    ensures match KindOf(word)
            case Address => Decode(word) == Adr(word / 0x8000_0000 == 1, Signed(ImmAdr(word), 0x10_0000), word % 32)
            case Branch => Decode(word) == B(word / 0x8000_0000 == 1, Signed(Imm26(word), 0x200_0000) * 4)
            case Conditional => Decode(word) == BCond(word % 16, Signed(Imm19(word), 0x4_0000) * 4)
            case Compare => Decode(word).CompareBranch? && Decode(word).offset == Signed(Imm19(word), 0x4_0000) * 4
            case Test => Decode(word).TestBranch? && Decode(word).offset == Signed(Imm14(word), 0x2000) * 4
            case Literal => && Decode(word).LoadLiteral? && Decode(word).rt == word % 32
                            && Decode(word).offset == Signed(Imm19(word), 0x4_0000) * 4
            case Copy => !PcRelative(Decode(word))
  {
    hide Signed, Imm26, Imm19, Imm14, ImmAdr;
  }

  lemma {:induction false} FieldsFit(word: Word)
    ensures Imm26(word) < 0x400_0000 && Imm19(word) < 0x8_0000 && Imm14(word) < 0x4000 && ImmAdr(word) < 0x20_0000
  {
  }

  // ---------------------------------------------------------------- decoding

  /** Quotient and remainder are the only way to split `w` by `d`. */
  lemma {:induction false} Split(w: int, d: int, q: int, r: int)
    requires 0 <= r < d && w == q * d + r
    ensures w / d == q && w % d == r
  {
    var a, b := w / d, w % d;
    DivisionLaw(w, d);
    Distribute(a, q, d);
    assert (a - q) * d == r - b;
    if a > q { AtLeast(a - q, d); } else if a < q { AtLeast(q - a, d); Distribute(q, a, d); }
  }

  lemma {:induction false} DivisionLaw(w: int, d: int)
    requires d > 0
    ensures w == (w / d) * d + w % d && 0 <= w % d < d
  {
  }

  lemma {:induction false} Distribute(a: int, b: int, d: int)
    ensures (a - b) * d == a * d - b * d
  {
  }

  lemma {:induction false} AtLeast(k: int, d: int)
    requires k > 0 && d > 0
    ensures k * d >= d
  {
  }

  lemma {:induction false} DecodeMove(i: nat, reg: Reg, value: Addr)
    requires i < 4
    ensures Decode(MoveWord(i, reg, value)) == Mov(i != 0, i, Part(i, value), reg)
  {
    MoveFields(i, reg, Part(i, value));
  }

  lemma {:induction false} MoveFields(i: nat, reg: Reg, part: nat)
    requires i < 4 && part < 0x1_0000
    ensures var w: Word := (if i == 0 then 0xd2800000 else 0xf2800000) + i * 0x20_0000 + part * 0x20 + reg;
            Decode(w) == Mov(i != 0, i, part, reg)
  {
    var w: Word := (if i == 0 then 0xd2800000 else 0xf2800000) + i * 0x20_0000 + part * 0x20 + reg;
    MoveSlices(i, reg, part, w);
  }

  lemma {:induction false} MoveSlices(i: nat, reg: Reg, part: nat, w: Word)
    requires i < 4 && part < 0x1_0000
    requires w == (if i == 0 then 0xd2800000 else 0xf2800000) + i * 0x20_0000 + part * 0x20 + reg
    ensures w % 32 == reg && (w / 0x20) % 0x1_0000 == part && (w / 0x20_0000) % 4 == i
    ensures w / 0x80_0000 == if i == 0 then 0x1A5 else 0x1E5
    ensures w / 0x100_0000 == if i == 0 then 0xd2 else 0xf2
    ensures w / 0x200_0000 == if i == 0 then 0x69 else 0x79
    ensures w / 0x400_0000 == if i == 0 then 0x34 else 0x3c
    ensures w / 0x800_0000 == if i == 0 then 0x1a else 0x1e
  {
    var top := if i == 0 then 0xd2 else 0xf2;
    var upper := top * 8 + 4 + i;
    Split(w, 0x20, upper * 0x1_0000 + part, reg);
    Split(w / 0x20, 0x1_0000, upper, part);
    Split(w, 0x20_0000, upper, part * 0x20 + reg);
    Split(upper, 4, top * 2 + 1, i);
    Split(w, 0x80_0000, top * 2 + 1, i * 0x20_0000 + part * 0x20 + reg);
    Split(w, 0x100_0000, top, 0x80_0000 + i * 0x20_0000 + part * 0x20 + reg);
    TopFields(w, top);
  }

  lemma {:induction false} DecodeNearBranch(rel: nat, link: bool)
    requires rel < 0x400_0000
    ensures Decode(NearBranch(rel, link)) == B(link, Signed(rel, 0x200_0000) * 4)
  {
    var w := NearBranch(rel, link);
    var top := if link then 0x25 else 5;
    Split(w, 0x400_0000, top, rel);
    Split(w, 0x100_0000, top * 4 + rel / 0x100_0000, rel % 0x100_0000);
    Split(w, 0x8000_0000, top / 32, 5 * 0x400_0000 + rel);
  }

  lemma {:induction false} DecodeFarBranch(reg: Reg, link: bool)
    ensures Decode(FarBranch(reg, link)) == BReg(link, reg)
  {
    FarFields(if link then 0xd63f0000 else 0xd61f0000, reg, FarBranch(reg, link));
  }

  lemma {:induction false} FarFields(base: Word, reg: Reg, w: Word)
    requires base in {0xd63f0000, 0xd61f0000} && w == base + reg * 0x20
    ensures w / 0x400 == base / 0x400 && w % 32 == 0 && (w / 0x20) % 32 == reg
    ensures w / 0x80_0000 == 0x1AC && w / 0x100_0000 == 0xd6 && w / 0x200_0000 == 0x6b
    ensures w / 0x400_0000 == 0x35 && w / 0x800_0000 == 0x1a
  {
  }

  lemma {:induction false} DecodeNop()
    ensures Decode(NOP) == Nop
  {
  }

  /** Every field above bit 24 is determined by the top byte. */
  lemma {:induction false} TopFields(w: Word, top: nat)
    requires w / 0x100_0000 == top
    ensures w / 0x200_0000 == top / 2 && w / 0x400_0000 == top / 4 && w / 0x800_0000 == top / 8
    ensures w / 0x4000_0000 == top / 0x40 && w / 0x8000_0000 == top / 0x80
  {
  }

  lemma {:induction false} DecodeNearLoad(word: Word, rel: nat)
    requires KindOf(word).Literal? && Allocated(word) && rel < 0x8_0000
    ensures Decode(word).LoadLiteral?
    ensures Decode(NearLoad(word, rel)) == LoadLiteral(Decode(word).load, word % 32, Signed(rel, 0x4_0000) * 4)
  {
    hide KindOf, Allocated, Decode, Signed, Imm19, LiteralLoad, Vector;
    var w := NearLoad(word, rel);
    SmallRemainder(rel, 0x8_0000);
    ReplacedField(word, rel, w);
    LiteralByTop(word, w);
    DecodeLiteral(word);
    DecodeLiteral(w);
  }

  /** Whether a word is a literal load, and of what, is in its top byte. */
  lemma {:induction false} LiteralByTop(word: Word, w: Word)
    requires KindOf(word).Literal? && Allocated(word) && w / 0x100_0000 == word / 0x100_0000
    ensures KindOf(w).Literal? && Allocated(w) && Vector(w) == Vector(word) && w / 0x4000_0000 == word / 0x4000_0000
  {
    TopFields(word, word / 0x100_0000);
    TopFields(w, word / 0x100_0000);
  }

  lemma {:induction false} DecodeLiteral(w: Word)
    requires KindOf(w).Literal? && Allocated(w)
    ensures w / 0x4000_0000 < 4 && (Vector(w) ==> w / 0x4000_0000 < 3)
    ensures Decode(w) == LoadLiteral(LiteralLoad(w / 0x4000_0000, Vector(w)), w % 32, Signed(Imm19(w), 0x4_0000) * 4)
  {
    hide Signed, Imm26, Imm19, Imm14, ImmAdr, Immediate, LiteralLoad;
  }

  lemma {:induction false} ReplacedField(word: Word, rel: nat, w: Word)
    requires rel < 0x8_0000 && w == word - Imm19(word) * 0x20 + rel * 0x20
    ensures w % 32 == word % 32 && w / 0x100_0000 == word / 0x100_0000 && Imm19(w) == rel
  {
    SplitImm19(word, word / 0x100_0000, Imm19(word), word % 32);
    ComposedImm19(word / 0x100_0000, rel, word % 32, w);
  }

  lemma {:induction false} DecodeFarLoad(word: Word, reg: Reg)
    requires KindOf(word).Literal? && Allocated(word)
    ensures Decode(word).LoadLiteral?
    ensures Decode(FarLoad(word, reg)) == LoadImm(Decode(word).load, reg, word % 32, 0)
  {
    LoadFields(RegisterLoad(word / 0x4000_0000, Vector(word)), reg, word % 32, FarLoad(word, reg));
    DecodeRegisterLoad(word / 0x4000_0000, Vector(word), reg, word % 32, FarLoad(word, reg));
  }

  lemma {:induction false} LoadFields(base: Word, reg: Reg, rt: Reg, w: Word)
    requires base % 0x40_0000 == 0 && w == base + reg * 0x20 + rt
    ensures w % 32 == rt && (w / 0x20) % 32 == reg && (w / 0x400) % 0x1000 == 0
    ensures w / 0x400 == base / 0x400 && w / 0x40_0000 == base / 0x40_0000
    ensures w / 0x80_0000 == base / 0x80_0000 && w / 0x100_0000 == base / 0x100_0000
  {
    var b := base / 0x40_0000;
    DivisionLaw(base, 0x40_0000);
    Split(w, 0x20, b * 0x2_0000 + reg, rt);
    Split(b * 0x2_0000 + reg, 32, b * 0x1000, reg);
    Split(w, 0x400, b * 0x1000, reg * 0x20 + rt);
    Split(b * 0x1000, 0x1000, b, 0);
    Split(base, 0x400, b * 0x1000, 0);
    Split(w, 0x40_0000, b, reg * 0x20 + rt);
    KeyFields(w, b);
    KeyFields(base, b);
  }

  lemma {:induction false} DecodeRegisterLoad(opc: nat, vector: bool, reg: Reg, rt: Reg, w: Word)
    requires opc < 4 && (vector ==> opc < 3)
    requires w == RegisterLoad(opc, vector) + reg * 0x20 + rt
    ensures Decode(w) == LoadImm(LiteralLoad(opc, vector), reg, rt, 0)
  {
    hide Decode;
    var base := RegisterLoad(opc, vector);
    LoadFields(base, reg, rt, w);
    DecodeByKey(w, base / 0x40_0000);
  }

  /** The size and operation bits of a register load decide how it decodes. */
  lemma {:induction false} DecodeByKey(w: Word, key: nat)
    requires w / 0x40_0000 == key && key in {0x2E5, 0x3E5, 0x2E6, 0x3E6, 0x2F5, 0x3F5, 0x0F7}
    ensures Decode(w) == if key == 0x2E5 then Immediate(w, LoadW, 4) else if key == 0x3E5 then Immediate(w, LoadX, 8)
                         else if key == 0x2E6 then Immediate(w, LoadSW, 4) else if key == 0x3E6 then Immediate(w, Prefetch, 8)
                         else if key == 0x2F5 then Immediate(w, LoadS, 4) else if key == 0x3F5 then Immediate(w, LoadD, 8)
                         else Immediate(w, LoadQ, 16)
  {
    hide Immediate, IsLiteral, Signed, Imm26, Imm19, Imm14, ImmAdr, LiteralLoad, Vector;
    KeyFields(w, key);
    KeyIsNoBranch(w, key);
  }

  lemma {:induction false} KeyIsNoBranch(w: Word, key: nat)
    requires w / 0x40_0000 == key && key in {0x2E5, 0x3E5, 0x2E6, 0x3E6, 0x2F5, 0x3F5, 0x0F7}
    ensures (w / 0x100_0000) % 0x20 != 0x10 && (w / 0x400_0000) % 0x20 != 0x05 && !IsLiteral(w)
    ensures (w / 0x200_0000) % 0x40 != 0x1a && (w / 0x200_0000) % 0x40 != 0x1b
  {
    KeyFields(w, key);
  }

  lemma {:induction false} KeyFields(w: Word, key: nat)
    requires w / 0x40_0000 == key
    ensures w / 0x80_0000 == key / 2 && w / 0x100_0000 == key / 4 && w / 0x200_0000 == key / 8
    ensures w / 0x400_0000 == key / 0x10 && w / 0x800_0000 == key / 0x20 && (w / 0x400) / 0x1000 == key
  {
  }

  /** `b` branches over a six-word slot exactly when `a` would not branch. */
  predicate Opposite(a: Instr, b: Instr)
  {
    match a
    case BCond(cond, _) => b == BCond(if cond % 2 == 0 then cond + 1 else cond - 1, 24)
    case CompareBranch(wide, nonzero, rt, _) => b == CompareBranch(wide, !nonzero, rt, 24)
    case TestBranch(bit, nonzero, rt, _) => b == TestBranch(bit, !nonzero, rt, 24)
    case _ => false
  }

  /** The inverted branch skips the rest of its slot exactly when the original would not branch. */
  lemma {:induction false} DecodeInverted(word: Word)
    requires KindOf(word) == Compare || KindOf(word) == Test || (KindOf(word) == Conditional && word % 16 < 14)
    ensures Opposite(Decode(word), Decode(Inverted(word, KindOf(word))))
  {
    hide *;
    if KindOf(word).Conditional? { ConditionalInverts(word); }
    else if KindOf(word).Compare? { CompareInverts(word); }
    else { TestInverts(word); }
  }

  lemma {:induction false} ConditionalInverts(word: Word)
    requires KindOf(word) == Conditional && word % 16 < 14
    ensures Opposite(Decode(word), Decode(Inverted(word, Conditional)))
  {
    hide Decode, KindOf, Inverted, Imm14, Imm19, Signed;
    ConditionalFields(word);
    DecodeBCond(word);
    DecodeBCond(Inverted(word, Conditional));
    SixWords();
    SameParity(word);
  }

  lemma {:induction false} SameParity(word: Word)
    ensures word % 2 == word % 16 % 2
  {
  }

  lemma {:induction false} SixWords()
    ensures Signed(6, 0x4_0000) * 4 == 24 && Signed(6, 0x2000) * 4 == 24
  {
  }

  lemma {:induction false} CompareInverts(word: Word)
    requires KindOf(word) == Compare
    ensures Opposite(Decode(word), Decode(Inverted(word, Compare)))
  {
    hide Decode, KindOf, Inverted, Imm14, Imm19, Signed, FlippedByte;
    CompareFields(word);
    var top := word / 0x100_0000;
    ByteFlips(top);
    DecodeCompare(word, top);
    DecodeCompare(Inverted(word, Compare), FlippedByte(top));
    SixWords();
  }

  lemma {:induction false} TestInverts(word: Word)
    requires KindOf(word) == Test
    ensures Opposite(Decode(word), Decode(Inverted(word, Test)))
  {
    hide Decode, KindOf, Inverted, Imm14, Imm19, Signed, FlippedByte;
    TestFields(word);
    var top := word / 0x100_0000;
    ByteFlips(top);
    DecodeTest(word, top);
    DecodeTest(Inverted(word, Test), FlippedByte(top));
    SixWords();
  }

  /** The flipped byte selects the same register width and the other sense. */
  lemma {:induction false} ByteFlips(top: nat)
    requires top in {0x34, 0x35, 0x36, 0x37, 0xb4, 0xb5, 0xb6, 0xb7}
    ensures var f := FlippedByte(top);
            && f / 0x80 == top / 0x80 && (f >= 0x80 <==> top >= 0x80) && (f % 2 == 1 <==> top % 2 == 0)
            && (f in {0x34, 0x35, 0xb4, 0xb5} <==> top in {0x34, 0x35, 0xb4, 0xb5})
            && (f in {0x36, 0x37, 0xb6, 0xb7} <==> top in {0x36, 0x37, 0xb6, 0xb7})
  {
  }

  function FlippedByte(top: nat): nat { if top % 2 == 0 then top + 1 else top - 1 }

  lemma {:induction false} DecodeBCond(w: Word)
    requires w / 0x100_0000 == 0x54
    ensures Decode(w) == BCond(w % 16, Signed(Imm19(w), 0x4_0000) * 4)
  {
    TopFields(w, 0x54);
  }

  lemma {:induction false} DecodeCompare(w: Word, top: nat)
    requires w / 0x100_0000 == top && top in {0x34, 0x35, 0xb4, 0xb5}
    ensures Decode(w) == CompareBranch(top >= 0x80, top % 2 == 1, w % 32, Signed(Imm19(w), 0x4_0000) * 4)
  {
    hide Signed, Imm26, Imm19, Imm14, ImmAdr, Immediate, LiteralLoad, Vector, IsLiteral;
    BranchByte(w, top);
  }

  /** What the top byte of a compare or test branch says. */
  lemma {:induction false} BranchByte(w: Word, top: nat)
    requires w / 0x100_0000 == top && top in {0x34, 0x35, 0x36, 0x37, 0xb4, 0xb5, 0xb6, 0xb7}
    ensures (w / 0x100_0000) % 0x20 != 0x10 && (w / 0x400_0000) % 0x20 != 0x05 && w / 0x100_0000 != 0x54
    ensures (w / 0x200_0000) % 0x40 == if top in {0x34, 0x35, 0xb4, 0xb5} then 0x1a else 0x1b
    ensures (w / 0x8000_0000 == 1 <==> top >= 0x80) && w / 0x8000_0000 == top / 0x80
  {
    TopFields(w, top);
  }

  lemma {:induction false} DecodeTest(w: Word, top: nat)
    requires w / 0x100_0000 == top && top in {0x36, 0x37, 0xb6, 0xb7}
    ensures Decode(w) == TestBranch(top / 0x80 * 32 + (w / 0x8_0000) % 32, top % 2 == 1, w % 32,
                                    Signed(Imm14(w), 0x2000) * 4)
  {
    hide Signed, Imm26, Imm19, Imm14, ImmAdr, Immediate, LiteralLoad, Vector, IsLiteral;
    BranchByte(w, top);
  }

  lemma {:induction false} ConditionalFields(word: Word)
    requires KindOf(word).Conditional?
    ensures word / 0x100_0000 == 0x54 == Inverted(word, Conditional) / 0x100_0000
    ensures Imm19(Inverted(word, Conditional)) == 6
    ensures Inverted(word, Conditional) % 16 == if word % 2 == 0 then word % 16 + 1 else word % 16 - 1
  {
    hide FlipLow, Imm14;
    FlippedLow(word, Inverted(word, Conditional), word % 32, Imm19(word));
  }

  lemma {:induction false} TopOf(word: Word, top: nat)
    requires word / 0x100_0000 == top
    ensures (word / 0x20) / 0x8_0000 == top
    ensures (word / 0x20) / 0x4000 == word / 0x8_0000 && (word / 0x8_0000) / 32 == top
  {
  }

  lemma {:induction false} FlippedLow(word: Word, w: Word, low: nat, field: nat)
    requires word / 0x100_0000 == 0x54 && low == word % 32 && field == (word / 0x20) % 0x8_0000
    requires word >= field * 0x20 && w == FlipLow(word - field * 0x20) + 6 * 0x20
    ensures w / 0x100_0000 == 0x54 && Imm19(w) == 6
    ensures w % 16 == if word % 2 == 0 then word % 16 + 1 else word % 16 - 1
  {
    SplitImm19(word, 0x54, field, low);
    var l := if low % 2 == 0 then low + 1 else low - 1;
    ComposedImm19(0x54, 6, l, w);
  }

  lemma {:induction false} SplitImm19(word: Word, top: nat, field: nat, rt: nat)
    requires word / 0x100_0000 == top && rt == word % 32 && field == (word / 0x20) % 0x8_0000
    ensures word - field * 0x20 == top * 0x100_0000 + rt && (word - field * 0x20) / 0x100_0000 == top
    ensures word % 2 == rt % 2 == (word - field * 0x20) % 2 && word % 16 == rt % 16
  {
    TopOf(word, top);
    DivisionLaw(word, 0x20);
    DivisionLaw(word / 0x20, 0x8_0000);
    Split(word - field * 0x20, 0x100_0000, top, rt);
    LowBits(word, word / 0x20, rt);
    LowBits(word - field * 0x20, top * 0x8_0000, rt);
  }

  lemma {:induction false} LowBits(w: int, q: int, r: nat)
    requires w == q * 0x20 + r
    ensures w % 2 == r % 2 && w % 16 == r % 16
  {
    assert w % 16 == r % 16 by { SameRemainder(w, 2 * q, r, 16); }
    assert w % 2 == r % 2 by { SameRemainder(w, 16 * q, r, 2); }
  }

  lemma {:induction false} SameRemainder(w: int, q: int, r: int, d: int)
    requires d > 0 && w == q * d + r
    ensures w % d == r % d
  {
    DivisionLaw(r, d);
    assert w == (q + r / d) * d + r % d by { Distribute(q, 0 - r / d, d); Distribute(0, r / d, d); }
    Split(w, d, q + r / d, r % d);
  }

  lemma {:induction false} SplitImm14(word: Word, top: nat, b40: nat, field: nat, rt: nat)
    requires word / 0x100_0000 == top && rt == word % 32 && field == (word / 0x20) % 0x4000
    requires b40 == (word / 0x8_0000) % 32
    ensures word - field * 0x20 == top * 0x100_0000 + b40 * 0x8_0000 + rt
    ensures (word - field * 0x20) / 0x100_0000 == top
  {
    TopOf(word, top);
    Split(word / 0x20, 0x4000, top * 32 + b40, field);
    Split(word - field * 0x20, 0x100_0000, top, b40 * 0x8_0000 + rt);
  }

  lemma {:induction false} CompareTops(word: Word, top: nat)
    requires KindOf(word).Compare? && top == word / 0x100_0000
    ensures top in {0x34, 0x35, 0xb4, 0xb5}
  {
  }

  lemma {:induction false} TestTops(word: Word, top: nat)
    requires KindOf(word).Test? && top == word / 0x100_0000
    ensures top in {0x36, 0x37, 0xb6, 0xb7}
  {
  }

  lemma {:induction false} CompareFields(word: Word)
    requires KindOf(word).Compare?
    ensures word / 0x100_0000 in {0x34, 0x35, 0xb4, 0xb5}
    ensures var w := Inverted(word, Compare);
            w / 0x100_0000 == FlippedByte(word / 0x100_0000) && Imm19(w) == 6 && w % 32 == word % 32
  {
    hide FlipTop, Imm14;
    CompareTops(word, word / 0x100_0000);
    FlippedTop(word, Inverted(word, Compare), word / 0x100_0000, Imm19(word));
  }

  lemma {:induction false} FlippedTop(word: Word, w: Word, top: nat, field: nat)
    requires top == word / 0x100_0000 && field == (word / 0x20) % 0x8_0000
    requires word >= field * 0x20 && w == FlipTop(word - field * 0x20) + 6 * 0x20
    ensures w / 0x100_0000 == FlippedByte(top)
    ensures Imm19(w) == 6 && w % 32 == word % 32
  {
    var rt := word % 32;
    SplitImm19(word, top, field, rt);
    var top' := FlippedByte(top);
    ComposedImm19(top', 6, rt, w);
  }

  lemma {:induction false} TestFields(word: Word)
    requires KindOf(word).Test?
    ensures word / 0x100_0000 in {0x36, 0x37, 0xb6, 0xb7}
    ensures var w := Inverted(word, Test);
            && w / 0x100_0000 == FlippedByte(word / 0x100_0000) && Imm14(w) == 6 && w % 32 == word % 32
            && (w / 0x8_0000) % 32 == (word / 0x8_0000) % 32
  {
    hide FlipTop, Imm19;
    TestTops(word, word / 0x100_0000);
    FlippedTestTop(word, Inverted(word, Test), word / 0x100_0000, Imm14(word));
  }

  lemma {:induction false} FlippedTestTop(word: Word, w: Word, top: nat, field: nat)
    requires top == word / 0x100_0000 && field == (word / 0x20) % 0x4000
    requires word >= field * 0x20 && w == FlipTop(word - field * 0x20) + 6 * 0x20
    ensures w / 0x100_0000 == FlippedByte(top)
    ensures Imm14(w) == 6 && w % 32 == word % 32 && (w / 0x8_0000) % 32 == (word / 0x8_0000) % 32
  {
    var rt, b40 := word % 32, (word / 0x8_0000) % 32;
    SplitImm14(word, top, b40, field, rt);
    var top' := FlippedByte(top);
    ComposedImm14(top', b40, 6, rt, w);
  }

  lemma {:induction false} ComposedImm19(top: nat, field: nat, rt: Reg, w: Word)
    requires field < 0x8_0000 && w == top * 0x100_0000 + field * 0x20 + rt
    ensures w / 0x100_0000 == top && Imm19(w) == field && w % 32 == rt
  {
    Split(w, 0x20, top * 0x8_0000 + field, rt);
    Split(w / 0x20, 0x8_0000, top, field);
    Split(w, 0x100_0000, top, field * 0x20 + rt);
  }

  lemma {:induction false} ComposedImm14(top: nat, b40: nat, field: nat, rt: Reg, w: Word)
    requires b40 < 32 && field < 0x4000 && w == top * 0x100_0000 + b40 * 0x8_0000 + field * 0x20 + rt
    ensures w / 0x100_0000 == top && (w / 0x8_0000) % 32 == b40 && Imm14(w) == field && w % 32 == rt
  {
    Split(w, 0x20, (top * 32 + b40) * 0x4000 + field, rt);
    Split(w / 0x20, 0x4000, top * 32 + b40, field);
    Split(w, 0x8_0000, top * 32 + b40, field * 0x20 + rt);
    Split(top * 32 + b40, 32, top, b40);
    Split(w, 0x100_0000, top, b40 * 0x8_0000 + field * 0x20 + rt);
  }

  lemma {:induction false} InvertedCondition(cond: nat, f: Flags)
    requires cond < 14
    ensures Holds(if cond % 2 == 0 then cond + 1 else cond - 1, f) == !Holds(cond, f)
  {
  }
}
