/** arch/aarch64_relocator.cpp: the instructions whose operands depend on where they stand, by their encodings. */
module ArmEncodings {
  import opened Memory
  import opened Arm64
  import opened Relocator
  import opened RelocatorEncoding

  /** Four bytes are a word, the lowest first. */
  lemma {:induction false} LowestFirst(bytes: seq<Byte>, offset: nat)
    requires offset + 4 <= |bytes|
    ensures var w := WordAt(bytes, offset);
            && w % 0x100 == bytes[offset] && w / 0x100 % 0x100 == bytes[offset + 1]
            && w / 0x1_0000 % 0x100 == bytes[offset + 2] && w / 0x100_0000 == bytes[offset + 3]
    ensures LittleEndian(WordAt(bytes, offset)) == bytes[offset..offset + 4]
  {
    var w := WordAt(bytes, offset);
    var a: int, b: int, c: int, d: int := bytes[offset], bytes[offset + 1], bytes[offset + 2], bytes[offset + 3];
    Split(w, 0x100, b + 0x100 * c + 0x1_0000 * d, a);
    Split(w, 0x1_0000, c + 0x100 * d, a + 0x100 * b);
    Split(w, 0x100_0000, d, a + 0x100 * b + 0x1_0000 * c);
    Split(b + 0x100 * c + 0x1_0000 * d, 0x100, c + 0x100 * d, b);
    Split(c + 0x100 * d, 0x100, d, c);
  }

  /** What the top byte says of the kind. */
  lemma {:induction false} KindByTop(w: Word, top: nat)
    requires w / 0x100_0000 == top
    ensures KindOf(w) == if top % 0x20 == 0x10 then Address else if (top / 4) % 0x20 == 5 then Branch else if top == 0x54 then Conditional
      else if (top / 2) % 0x40 == 0x1a then Compare else if (top / 2) % 0x40 == 0x1b then Test
      else if (top / 8) % 8 == 3 && top % 4 == 0 then Literal else Copy
  {
    TopFields(w, top);
  }

  /** B and BL (section C6.2 of DDI 0487): a word offset of 26 bits. */
  lemma {:induction false} Branches(link: bool, imm: nat)
    requires imm < 0x400_0000
    ensures var w := (if link then 0x9400_0000 else 0x1400_0000) + imm;
            KindOf(w) == Branch && Decode(w) == B(link, Signed(imm, 0x200_0000) * 4)
  {
  }

  /** B.cond: a condition and a word offset of 19 bits. */
  lemma {:induction false} ConditionalBranches(cond: nat, imm: nat)
    requires cond < 16 && imm < 0x8_0000
    ensures var w := 0x5400_0000 + imm * 0x20 + cond;
            KindOf(w) == Conditional && Decode(w) == BCond(cond, Signed(imm, 0x4_0000) * 4)
  {
    hide Decode, KindOf, Imm19, Signed;
    var w := 0x5400_0000 + imm * 0x20 + cond;
    ComposedImm19(0x54, imm, cond, w);
    Split(w, 16, 0x540_0000 + imm * 2, cond);
    KindByTop(w, 0x54);
    DecodeBCond(w);
  }

  /** CBZ and CBNZ of either width. */
  lemma {:induction false} CompareBranches(wide: bool, nonzero: bool, imm: nat, rt: Reg)
    requires imm < 0x8_0000
    ensures var w := 0x3400_0000 + (if wide then 0x8000_0000 else 0) + (if nonzero then 0x100_0000 else 0) + imm * 0x20 + rt;
            KindOf(w) == Compare && Decode(w) == CompareBranch(wide, nonzero, rt, Signed(imm, 0x4_0000) * 4)
  {
    hide Decode, KindOf, Imm19, Signed;
    var top := 0x34 + (if wide then 0x80 else 0) + (if nonzero then 1 else 0);
    var w := top * 0x100_0000 + imm * 0x20 + rt;
    ComposedImm19(top, imm, rt, w);
    KindByTop(w, top);
    DecodeCompare(w, top);
  }

  /** TBZ and TBNZ: the bit's number is in two parts. */
  lemma {:induction false} TestBranches(high: bool, bit: nat, nonzero: bool, imm: nat, rt: Reg)
    requires bit < 32 && imm < 0x4000
    ensures var w := 0x3600_0000 + (if high then 0x8000_0000 else 0) + (if nonzero then 0x100_0000 else 0) + bit * 0x8_0000 + imm * 0x20 + rt;
            KindOf(w) == Test && Decode(w) == TestBranch(if high then 32 + bit else bit, nonzero, rt, Signed(imm, 0x2000) * 4)
  {
    hide Decode, KindOf, Imm14, Signed;
    var top := 0x36 + (if high then 0x80 else 0) + (if nonzero then 1 else 0);
    var w := top * 0x100_0000 + bit * 0x8_0000 + imm * 0x20 + rt;
    ComposedImm14(top, bit, imm, rt, w);
    KindByTop(w, top);
    DecodeTest(w, top);
  }

  /** ADR and ADRP: 21 bits, of which the lowest two stand apart. */
  lemma {:induction false} Addresses(page: bool, low: nat, high: nat, rd: Reg)
    requires low < 4 && high < 0x8_0000
    ensures var w := 0x1000_0000 + (if page then 0x8000_0000 else 0) + low * 0x2000_0000 + high * 0x20 + rd;
            KindOf(w) == Address && Decode(w) == Adr(page, Signed(high * 4 + low, 0x10_0000), rd)
  {
    hide KindOf, Signed;
    var top := 0x10 + (if page then 0x80 else 0) + low * 0x20;
    var w := top * 0x100_0000 + high * 0x20 + rd;
    ComposedImm19(top, high, rd, w);
    KindByTop(w, top);
    TopFields(w, top);
    Split(w, 0x2000_0000, (if page then 4 else 0) + low, 0x1000_0000 + high * 0x20 + rd);
  }

  /** The literal loads, three of them of vector registers. */
  lemma {:induction false} LiteralLoads(opc: nat, vector: bool, imm: nat, rt: Reg)
    requires opc < 4 && (vector ==> opc < 3) && imm < 0x8_0000
    ensures var w := 0x1800_0000 + opc * 0x4000_0000 + (if vector then 0x400_0000 else 0) + imm * 0x20 + rt;
            KindOf(w) == Literal &&
            Decode(w) == LoadLiteral(
              if vector then (if opc == 0 then LoadS else if opc == 1 then LoadD else LoadQ)
              else if opc == 0 then LoadW else if opc == 1 then LoadX else if opc == 2 then LoadSW else Prefetch,
              rt, Signed(imm, 0x4_0000) * 4)
  {
    hide Decode, KindOf, Imm19, Signed;
    var top := 0x18 + opc * 0x40 + (if vector then 4 else 0);
    var w := top * 0x100_0000 + imm * 0x20 + rt;
    ComposedImm19(top, imm, rt, w);
    KindByTop(w, top);
    TopFields(w, top);
    DecodeLiteral(w);
  }
}
