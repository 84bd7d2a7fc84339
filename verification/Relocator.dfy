/**
  arch/aarch64_relocator.cpp: what each source instruction becomes at its new address.
  Bit masks of the source are written as div/mod slices; a bitwise `|` of disjoint fields is a sum.
 */
module Relocator {
  import opened Memory
  import opened Arm64

  datatype Error =
    | Misaligned | TooLarge | BadScratch | Undecodable | OutOfSpace
    | Overflow | Underflow
    | FarBranchForbidden | FarBranchNeedsScratch | FarLiteralNeedsScratch

  datatype Result<+T> = Ok(value: T) | Err(error: Error)

  datatype Options = Options(scratch: Option<nat>, allowIndirect: bool)

  datatype Kind = Copy | Address | Branch | Conditional | Compare | Test | Literal

  const NOP: Word := 0xd503201f

  function KindOf(word: Word): Kind
  {
    if (word / 0x100_0000) % 0x20 == 0x10 then Address
    else if (word / 0x400_0000) % 0x20 == 0x05 then Branch
    else if word / 0x100_0000 == 0x54 then Conditional
    else if (word / 0x200_0000) % 0x40 == 0x1a then Compare
    else if (word / 0x200_0000) % 0x40 == 0x1b then Test
    else if (word / 0x800_0000) % 8 == 3 && (word / 0x100_0000) % 4 == 0 then Literal
    else Copy
  }

  /** Size in words of the slot reserved for an instruction. */
  function SlotWords(k: Kind): (n: nat)
    ensures 1 <= n <= 6
  {
    match k
    case Copy => 1
    case Address => 4
    case Branch => 5
    case Literal => 5
    case _ => 6
  }

  // ------------------------------------------------------- words and bytes

  function LittleEndian(word: Word): (b: seq<Byte>)
    ensures |b| == 4
  {
    [word % 0x100, (word / 0x100) % 0x100, (word / 0x1_0000) % 0x100, word / 0x100_0000]
  }

  function WordAt(bytes: seq<Byte>, offset: nat): Word
    requires offset + 4 <= |bytes|
  {
    bytes[offset] as int + 0x100 * bytes[offset + 1] as int + 0x1_0000 * bytes[offset + 2] as int + 0x100_0000 * bytes[offset + 3] as int
  }

  function Flatten(words: seq<Word>): (b: seq<Byte>)
    ensures |b| == 4 * |words|
  {
    if words == [] then [] else Flatten(words[..|words| - 1]) + LittleEndian(words[|words| - 1])
  }

  // ------------------------------------------------------------ arithmetic

  /** Half the range of an immediate field, for the field widths A64 branches use. */
  function Half(bits: nat): nat
    requires bits in {14, 19, 21, 26}
  {
    if bits == 14 then 0x2000 else if bits == 19 then 0x4_0000 else if bits == 21 then 0x10_0000 else 0x200_0000
  }

  /** XOR with the sign bit, then subtract it. */
  function SignedField(value: nat, bits: nat): int
    requires bits in {14, 19, 21, 26} && value < 2 * Half(bits)
  {
    (if value >= Half(bits) then value - Half(bits) else value + Half(bits)) - Half(bits)
  }

  function Absolute(pc: Addr, offset: int): Result<Addr>
  {
    if offset >= 0 then
      if offset > SPACE - 1 - pc then Err(Overflow) else Ok(pc + offset)
    else if -offset > pc then Err(Underflow)
    else Ok(pc + offset)
  }

  /** The immediate that reaches `to` from `from`, in words, or None out of range. */
  function Relative(from: Addr, to: Addr, bits: nat): (r: Option<nat>)
    requires bits in {14, 19, 21, 26}
  {
    if from % 4 != to % 4 then None
    else
      var units := (if to >= from then to - from else from - to) / 4;
      if units > (if to >= from then Half(bits) - 1 else Half(bits)) then None
      else Some(if to >= from then units else (2 * Half(bits) - units) % (2 * Half(bits)))
  }

  // -------------------------------------------------------- emitted pieces

  /** The 16-bit part of `value` that move `i` carries. */
  function Part(i: nat, value: Addr): (part: nat)
    requires i < 4
    ensures part < 0x1_0000
  {
    if i == 0 then value % 0x1_0000
    else if i == 1 then (value / 0x1_0000) % 0x1_0000
    else if i == 2 then (value / 0x1_0000_0000) % 0x1_0000
    else value / 0x1_0000_0000_0000
  }

  function MoveWord(i: nat, reg: Reg, value: Addr): Word
    requires i < 4
  {
    (if i == 0 then 0xd2800000 else 0xf2800000) + i * 0x20_0000 + Part(i, value) * 0x20 + reg
  }

  /** MOVZ and three MOVKs that put `value` in `reg`. */
  function Constant(reg: Reg, value: Addr): (ws: seq<Word>)
    ensures |ws| == 4
  {
    [MoveWord(0, reg, value), MoveWord(1, reg, value), MoveWord(2, reg, value), MoveWord(3, reg, value)]
  }

  function NearBranch(rel: nat, link: bool): Word { (if link then 0x94000000 else 0x14000000) + rel % 0x400_0000 }

  function FarBranch(reg: Reg, link: bool): Word { (if link then 0xd63f0000 else 0xd61f0000) + reg * 0x20 }

  function BranchWords(pc: Addr, target: Addr, link: bool, o: Options): (r: Result<seq<Word>>)
    requires o.scratch.Some? ==> o.scratch.value <= 30
    ensures r.Ok? ==> |r.value| == 1 || |r.value| == 5
  {
    match Relative(pc, target, 26)
    case Some(rel) => Ok([NearBranch(rel, link)])
    case None =>
      if !o.allowIndirect then Err(FarBranchForbidden)
      else if !link && o.scratch.None? then Err(FarBranchNeedsScratch)
      else
        var reg := if link then 30 else o.scratch.value;
        Ok(Constant(reg, target) + [FarBranch(reg, link)])
  }

  /** XOR with 1. */
  function FlipLow(w: Word): Word { if w % 2 == 0 then w + 1 else w - 1 }

  /** XOR with 0x01000000. */
  function FlipTop(w: Word): Word { if (w / 0x100_0000) % 2 == 0 then w + 0x100_0000 else w - 0x100_0000 }

  /** A conditional branch with its sense inverted and its target `skip` words ahead. */
  function Inverted(word: Word, k: Kind): Word
    requires k == KindOf(word) && (k.Conditional? || k.Compare? || k.Test?)
  {
    var cleared := word - (if k.Test? then Imm14(word) else Imm19(word)) * 0x20;
    (if k.Conditional? then FlipLow(cleared) else FlipTop(cleared)) + SlotWords(k) * 0x20
  }

  /** A literal load with a new literal offset, in words. */
  function NearLoad(word: Word, rel: nat): Word { word - Imm19(word) * 0x20 + rel % 0x8_0000 * 0x20 }

  function RegisterLoad(opc: nat, vector: bool): Word
  {
    if vector then (if opc == 0 then 0xbd400000 else if opc == 1 then 0xfd400000 else 0x3dc00000)
    else if opc == 0 then 0xb9400000 else if opc == 1 then 0xf9400000 else if opc == 2 then 0xb9800000 else 0xf9800000
  }

  function FarLoad(word: Word, reg: Reg): Word { RegisterLoad(word / 0x4000_0000, Vector(word)) + reg * 0x20 + word % 32 }

  /** The register a far literal load computes its address in. */
  function LiteralReg(word: Word, o: Options): Option<nat>
  {
    if !Vector(word) && word / 0x4000_0000 < 3 && word % 32 != 31 then Some(word % 32) else o.scratch
  }

  function LiteralWords(word: Word, newPc: Addr, target: Addr, o: Options): (r: Result<seq<Word>>)
    requires KindOf(word) == Literal
    requires o.scratch.Some? ==> o.scratch.value <= 30
    ensures r.Ok? ==> |r.value| == 1 || |r.value| == 5
  {
    match Relative(newPc, target, 19)
    case Some(rel) => Ok([NearLoad(word, rel)])
    case None =>
      var reg := LiteralReg(word, o);
      if reg.None? then Err(FarLiteralNeedsScratch)
      else Ok(Constant(reg.value, target) + [FarLoad(word, reg.value)])
  }

  // ------------------------------------------------------------ one slot

  /** The source block, its new place, and where each instruction's slot starts (in words). */
  datatype Layout = Layout(source: Addr, count: nat, destination: Addr, starts: seq<nat>, size: nat)

  /** A static branch target: the relocated instruction when it is inside the block. */
  function MapBranch(l: Layout, target: Addr): int
    requires |l.starts| == l.count
  {
    if target >= l.source && target - l.source < 4 * l.count
    then l.destination + 4 * l.starts[(target - l.source) / 4] else target
  }

  lemma {:induction false} MapFits(l: Layout, target: Addr)
    requires ValidLayout(l)
    ensures 0 <= MapBranch(l, target) < SPACE
  {
  }

  function TargetOf(word: Word, pc: Addr): Result<Addr>
    requires !KindOf(word).Copy?
  {
    var k := KindOf(word);
    if k.Address? then
      var imm := SignedField(ImmAdr(word), 21);
      if word / 0x8000_0000 == 1 then Absolute(pc - pc % 4096, imm * 4096) else Absolute(pc, imm)
    else if k.Branch? then Absolute(pc, SignedField(Imm26(word), 26) * 4)
    else if k.Test? then Absolute(pc, SignedField(Imm14(word), 14) * 4)
    else Absolute(pc, SignedField(Imm19(word), 19) * 4)
  }

  function Nops(n: nat): (ws: seq<Word>)
    ensures |ws| == n
  {
    seq(n, _ => NOP)
  }

  function Pad(ws: seq<Word>, n: nat): (r: seq<Word>)
    requires |ws| <= n
    ensures |r| == n
  {
    ws + Nops(n - |ws|)
  }

  predicate ValidLayout(l: Layout)
  {
    && |l.starts| == l.count
    && l.source % 4 == 0 && l.destination % 4 == 0
    && l.source + 4 * l.count < SPACE
    && l.destination + 4 * l.size < SPACE
    && (forall i :: 0 <= i < l.count ==> l.starts[i] < l.size)
  }

  /** The words before padding for the instruction `word` of `oldPc`, placed at `newPc`. */
  function Body(word: Word, oldPc: Addr, newPc: Addr, l: Layout, o: Options): (r: Result<seq<Word>>)
    requires ValidLayout(l)
    requires newPc + 4 < SPACE
    requires o.scratch.Some? ==> o.scratch.value <= 30
    ensures r.Ok? ==> |r.value| <= SlotWords(KindOf(word))
  {
    var k := KindOf(word);
    if k.Copy? then Ok([word])
    else
      match TargetOf(word, oldPc)
      case Err(e) => Err(e)
      case Ok(target) =>
        if k.Address? then Ok(Constant(word % 32, target))
        else if k.Literal? then LiteralWords(word, newPc, target, o)
        else
          var mapped := MapBranch(l, target);
          if k.Branch? then BranchWords(newPc, mapped, word / 0x8000_0000 == 1, o)
          else if k.Conditional? && word % 16 >= 14 then BranchWords(newPc, mapped, false, o)
          else
            match BranchWords(newPc + 4, mapped, false, o)
            case Err(e) => Err(e)
            case Ok(ws) => Ok([Inverted(word, k)] + ws)
  }

  // ---------------------------------------------------------- whole block

  function CodeWord(code: seq<Byte>, i: nat): Word
    requires 4 * i + 4 <= |code|
  {
    WordAt(code, 4 * i)
  }

  /** Slot start, in words, of instruction `i` when every slot has its full size. */
  function StartOf(code: seq<Byte>, i: nat): (n: nat)
    requires 4 * i <= |code|
    ensures i <= n <= 6 * i
  {
    if i == 0 then 0 else StartOf(code, i - 1) + SlotWords(KindOf(CodeWord(code, i - 1)))
  }

  function LayoutOf(code: seq<Byte>, source: Addr, destination: Addr): Layout
    requires |code| % 4 == 0
  {
    var n := |code| / 4;
    if source == destination then Layout(source, n, destination, seq(n, i => i), n)
    else Layout(source, n, destination, seq(n, i requires 0 <= i < n => StartOf(code, i)), StartOf(code, n))
  }

  /** The relocated words of the first `i` instructions, or the first error among them. */
  function Emitted(code: seq<Byte>, l: Layout, o: Options, i: nat): (r: Result<seq<Word>>)
    requires ValidLayout(l) && |code| == 4 * l.count && i <= l.count
    requires l.size == StartOf(code, l.count)
    requires o.scratch.Some? ==> o.scratch.value <= 30
    ensures r.Ok? ==> |r.value| == StartOf(code, i)
  {
    if i == 0 then Ok([])
    else
      match Emitted(code, l, o, i - 1)
      case Err(e) => Err(e)
      case Ok(before) =>
        StartsIncrease(code, i, l.count);
        var word := CodeWord(code, i - 1);
        match Body(word, l.source + 4 * (i - 1), l.destination + 4 * |before|, l, o)
        case Err(e) => Err(e)
        case Ok(ws) => Ok(before + Pad(ws, SlotWords(KindOf(word))))
  }

  lemma {:induction false} EmittedNone(code: seq<Byte>, l: Layout, o: Options)
    requires ValidLayout(l) && |code| == 4 * l.count
    requires l.size == StartOf(code, l.count)
    requires o.scratch.Some? ==> o.scratch.value <= 30
    ensures Emitted(code, l, o, 0) == Ok([]) && Flatten([]) == []
  {
  }

  /** One step of the second pass. */
  lemma {:induction false} EmittedNext(code: seq<Byte>, l: Layout, o: Options, i: nat, before: seq<Word>)
    requires ValidLayout(l) && |code| == 4 * l.count && i < l.count
    requires l.size == StartOf(code, l.count)
    requires o.scratch.Some? ==> o.scratch.value <= 30
    requires Emitted(code, l, o, i) == Ok(before)
    ensures l.source + 4 * i < 0x1_0000_0000_0000_0000 && l.destination + 4 * |before| + 4 < 0x1_0000_0000_0000_0000
    ensures l.destination + 4 * |before| + 4 < SPACE
    ensures 4 * i + 4 <= |code|
    ensures match Body(CodeWord(code, i), l.source + 4 * i, l.destination + 4 * |before|, l, o)
            case Err(e) => Emitted(code, l, o, i + 1) == Err(e)
            case Ok(ws) => Emitted(code, l, o, i + 1) == Ok(before + Pad(ws, SlotWords(KindOf(CodeWord(code, i)))))
  {
    hide KindOf, Body, SlotWords;
    StartsIncrease(code, i + 1, l.count);
  }

  lemma {:induction false} StartsIncrease(code: seq<Byte>, i: nat, j: nat)
    requires i <= j && 4 * j <= |code|
    ensures StartOf(code, i) + (j - i) <= StartOf(code, j)
  {
    if i < j { StartsIncrease(code, i, j - 1); }
  }

  datatype Relocated = Relocated(bytes: seq<Byte>, offsets: seq<nat>)

  function ByteOffsets(l: Layout): seq<nat>
  {
    seq(|l.starts|, i requires 0 <= i < |l.starts| => 4 * l.starts[i])
  }

  /** The checks made before anything is emitted. `decodes` is the disassembler's verdict. */
  function Rejected(code: seq<Byte>, source: Addr, destination: Addr, o: Options, decodes: bool): Option<Error>
  {
    if |code| == 0 || |code| % 4 != 0 || source % 4 != 0 || destination % 4 != 0 then Some(Misaligned)
    else if |code| > 1024 * 1024 || |code| > SPACE - 1 - source then Some(TooLarge)
    else if o.scratch.Some? && o.scratch.value > 30 then Some(BadScratch)
    else if !decodes then Some(Undecodable)
    else if 4 * LayoutOf(code, source, destination).size > SPACE - 1 - destination then Some(OutOfSpace)
    else None
  }

  lemma {:induction false} LayoutIsValid(code: seq<Byte>, source: Addr, destination: Addr, o: Options, decodes: bool)
    requires Rejected(code, source, destination, o, decodes).None?
    ensures ValidLayout(LayoutOf(code, source, destination))
  {
    forall i | 0 <= i < |code| / 4
      ensures StartOf(code, i) < StartOf(code, |code| / 4)
    {
      StartsIncrease(code, i, |code| / 4);
    }
  }

  function RelocatedCode(code: seq<Byte>, source: Addr, destination: Addr, o: Options, decodes: bool): Result<Relocated>
  {
    match Rejected(code, source, destination, o, decodes)
    case Some(e) => Err(e)
    case None =>
      LayoutIsValid(code, source, destination, o, decodes);
      var l := LayoutOf(code, source, destination);
      if source == destination then Ok(Relocated(code, ByteOffsets(l)))
      else
        match Emitted(code, l, o, l.count)
        case Err(e) => Err(e)
        case Ok(words) => Ok(Relocated(Flatten(words), ByteOffsets(l)))
  }

  // ------------------------------------------------- the program's own form

  /** The output vector that every emitting routine appends to. */
  class CodeBuffer {
    var bytes: seq<Byte>

    constructor ()
      ensures bytes == []
    {
      bytes := [];
    }

    method Emit(word: Word)
      modifies this
      ensures bytes == old(bytes) + LittleEndian(word)
    {
      bytes := bytes + [word % 0x100];
      bytes := bytes + [(word / 0x100) % 0x100];
      bytes := bytes + [(word / 0x1_0000) % 0x100];
      bytes := bytes + [word / 0x100_0000];
    }

    /** Put `value` in register `reg`. */
    method EmitConstant(reg: Reg, value: Addr)
      modifies this
      ensures bytes == old(bytes) + Flatten(Constant(reg, value))
    {
      var ws := Constant(reg, value);
      assert ws[..0] == [];
      for i := 0 to 4
        invariant bytes == old(bytes) + Flatten(ws[..i])
      {
        Emit(MoveWord(i, reg, value));
        assert ws[..i + 1][..i] == ws[..i];
      }
      assert ws[..4] == ws;
    }

    /** Branch to `target`; on an error nothing is emitted. */
    method EmitBranch(pc: Addr, target: Addr, link: bool, o: Options) returns (failed: Option<Error>)
      requires o.scratch.Some? ==> o.scratch.value <= 30
      modifies this
      ensures match BranchWords(pc, target, link, o)
              case Err(e) => failed == Some(e) && bytes == old(bytes)
              case Ok(ws) => failed == None && bytes == old(bytes) + Flatten(ws)
    {
      hide Relative, NearBranch, FarBranch, LittleEndian, Flatten, Constant;
      var rel := Relative(pc, target, 26);
      if rel.Some? {
        var word := NearBranch(rel.value, link);
        FlattenOne(word);
        Emit(word);
        return None;
      }
      if !o.allowIndirect { return Some(FarBranchForbidden); }
      if !link && o.scratch.None? { return Some(FarBranchNeedsScratch); }
      var reg := if link then 30 else o.scratch.value;
      EmitConstant(reg, target);
      var jump := FarBranch(reg, link);
      FlattenOne(jump);
      FlattenConcat(Constant(reg, target), [jump]);
      Emit(jump);
      return None;
    }

    method EmitLiteral(word: Word, newPc: Addr, target: Addr, o: Options) returns (failed: Option<Error>)
      requires KindOf(word) == Literal
      requires o.scratch.Some? ==> o.scratch.value <= 30
      modifies this
      ensures match LiteralWords(word, newPc, target, o)
              case Err(e) => failed == Some(e) && bytes == old(bytes)
              case Ok(ws) => failed == None && bytes == old(bytes) + Flatten(ws)
    {
      hide KindOf, Imm19, NearLoad, FarLoad, LittleEndian, Flatten;
      var rel := Relative(newPc, target, 19);
      if rel.Some? {
        var near := NearLoad(word, rel.value);
        FlattenOne(near);
        Emit(near);
        return None;
      }
      var reg := LiteralReg(word, o);
      if reg.None? { return Some(FarLiteralNeedsScratch); }
      EmitConstant(reg.value, target);
      var load := FarLoad(word, reg.value);
      FlattenOne(load);
      FlattenConcat(Constant(reg.value, target), [load]);
      Emit(load);
      return None;
    }

    /** The unpadded words of one instruction; an error may leave the buffer half written. */
    method EmitBody(word: Word, oldPc: Addr, newPc: Addr, l: Layout, o: Options) returns (failed: Option<Error>)
      requires ValidLayout(l) && newPc + 4 < SPACE
      requires o.scratch.Some? ==> o.scratch.value <= 30
      modifies this
      ensures match Body(word, oldPc, newPc, l, o)
              case Err(e) => failed == Some(e)
              case Ok(ws) => failed == None && bytes == old(bytes) + Flatten(ws)
    {
      hide KindOf, TargetOf, MapBranch, BranchWords, LiteralWords, Inverted, Constant, Flatten, LittleEndian;
      var k := KindOf(word);
      if k.Copy? {
        FlattenOne(word);
        Emit(word);
        return None;
      }
      var target := TargetOf(word, oldPc);
      if target.Err? { return Some(target.error); }
      if k.Address? {
        EmitConstant(word % 32, target.value);
        return None;
      }
      if k.Literal? {
        failed := EmitLiteral(word, newPc, target.value, o);
        return;
      }
      MapFits(l, target.value);
      var mapped := MapBranch(l, target.value);
      var always := k.Conditional? && word % 16 >= 14;
      if k.Branch? || always {
        failed := EmitBranch(newPc, mapped, k.Branch? && word / 0x8000_0000 == 1, o);
        return;
      }
      var skip := Inverted(word, k);
      FlattenOne(skip);
      Emit(skip);
      failed := EmitBranch(newPc + 4, mapped, false, o);
      match BranchWords(newPc + 4, mapped, false, o) {
        case Ok(ws) => FlattenConcat([skip], ws);
        case Err(_) =>
      }
    }

    /** One instruction's whole slot. */
    method EmitSlot(word: Word, oldPc: Addr, newPc: Addr, l: Layout, o: Options) returns (failed: Option<Error>)
      requires ValidLayout(l) && newPc + 4 < SPACE
      requires o.scratch.Some? ==> o.scratch.value <= 30
      modifies this
      ensures match Body(word, oldPc, newPc, l, o)
              case Err(e) => failed == Some(e)
              case Ok(ws) => failed == None && bytes == old(bytes) + Flatten(Pad(ws, SlotWords(KindOf(word))))
    {
      hide KindOf, SlotWords, Body, Flatten;
      var end := |bytes| + 4 * SlotWords(KindOf(word));
      failed := EmitBody(word, oldPc, newPc, l, o);
      if failed.None? {
        ghost var ws := Body(word, oldPc, newPc, l, o).value;
        FlattenConcat(ws, Nops(SlotWords(KindOf(word)) - |ws|));
        PadTo(end);
      }
    }

    /** Fill with NOPs up to `end` bytes. */
    method PadTo(end: nat)
      requires |bytes| <= end && (end - |bytes|) % 4 == 0
      modifies this
      ensures bytes == old(bytes) + Flatten(Nops((end - |old(bytes)|) / 4))
    {
      ghost var n := 0;
      assert Nops(0) == [];
      while |bytes| < end
        invariant |bytes| == |old(bytes)| + 4 * n <= end && (end - |bytes|) % 4 == 0
        invariant bytes == old(bytes) + Flatten(Nops(n))
        decreases end - |bytes|
      {
        Emit(NOP);
        assert Nops(n + 1)[..n] == Nops(n);
        n := n + 1;
      }
    }
  }

  lemma {:induction false} FlattenOne(word: Word)
    ensures Flatten([word]) == LittleEndian(word)
  {
    assert [word][..0] == [];
  }

  lemma {:induction false} FlattenConcat(a: seq<Word>, b: seq<Word>)
    ensures Flatten(a + b) == Flatten(a) + Flatten(b)
  {
    if b == [] {
      assert a + b == a;
    } else {
      var n := |b| - 1;
      assert (a + b)[..|a + b| - 1] == a + b[..n];
      FlattenConcat(a, b[..n]);
    }
  }

  lemma {:induction false} StartsAtZero(code: seq<Byte>)
    ensures StartOf(code, 0) == 0
  {
  }

  lemma {:induction false} NextStart(code: seq<Byte>, i: nat)
    requires 4 * i + 4 <= |code|
    ensures StartOf(code, i + 1) == StartOf(code, i) + SlotWords(KindOf(WordAt(code, 4 * i)))
  {
  }

  lemma {:induction false} StartsOf(code: seq<Byte>, source: Addr, destination: Addr)
    requires |code| % 4 == 0
    ensures var l, n := LayoutOf(code, source, destination), |code| / 4;
            && |l.starts| == n == |ByteOffsets(l)|
            && l.size == (if source == destination then n else StartOf(code, n))
            && forall j :: 0 <= j < n ==>
                 l.starts[j] == (if source == destination then j else StartOf(code, j)) && ByteOffsets(l)[j] == 4 * l.starts[j]
  {
    hide StartOf;
  }

  /** First pass: the byte offset of every slot and the size of them all. */
  method FirstPass(code: seq<Byte>, source: Addr, destination: Addr) returns (offsets: seq<nat>, size: nat)
    requires |code| % 4 == 0
    ensures offsets == ByteOffsets(LayoutOf(code, source, destination))
    ensures size == 4 * LayoutOf(code, source, destination).size
  {
    hide StartOf, SlotWords, KindOf, WordAt, LayoutOf, ByteOffsets;
    ghost var l := LayoutOf(code, source, destination);
    StartsAtZero(code);
    StartsOf(code, source, destination);
    offsets := [];
    size := 0;
    var i := 0;
    while i < |code|
      invariant 0 <= i <= |code| && i % 4 == 0 && |offsets| == i / 4
      invariant size == 4 * (if source == destination then i / 4 else StartOf(code, i / 4))
      invariant forall j :: 0 <= j < |offsets| ==> offsets[j] == 4 * l.starts[j]
      decreases |code| - i
    {
      NextStart(code, i / 4);
      offsets := offsets + [size];
      size := size + (if source == destination then 4 else 4 * SlotWords(KindOf(WordAt(code, i))));
      i := i + 4;
    }
  }

  /** Second pass: emit every slot at the offset the first pass gave it. */
  method SecondPass(code: seq<Byte>, l: Layout, o: Options) returns (result: Result<seq<Byte>>)
    requires ValidLayout(l) && |code| == 4 * l.count
    requires l.size == StartOf(code, l.count)
    requires o.scratch.Some? ==> o.scratch.value <= 30
    ensures match Emitted(code, l, o, l.count)
            case Err(e) => result == Err(e)
            case Ok(words) => result == Ok(Flatten(words))
  {
    hide *;
    var out := new CodeBuffer();
    ghost var words: seq<Word> := [];
    EmittedNone(code, l, o);
    for i := 0 to l.count
      invariant Emitted(code, l, o, i) == Ok(words)
      invariant out.bytes == Flatten(words)
    {
      var word := CodeWord(code, i);
      EmittedNext(code, l, o, i, words);
      var failed := out.EmitSlot(word, l.source + 4 * i, l.destination + |out.bytes|, l, o);
      if failed.Some? {
        EmittedFails(code, l, o, i + 1, l.count);
        return Err(failed.value);
      }
      ghost var slot := Pad(Body(word, l.source + 4 * i, l.destination + 4 * |words|, l, o).value, SlotWords(KindOf(word)));
      FlattenConcat(words, slot);
      words := words + slot;
    }
    return Ok(out.bytes);
  }

  /** The whole relocation. */
  method RelocateAarch64(code: seq<Byte>, source: Addr, destination: Addr, o: Options, decodes: bool)
    returns (result: Result<Relocated>)
    ensures result == RelocatedCode(code, source, destination, o, decodes)
  {
    if |code| == 0 || |code| % 4 != 0 || source % 4 != 0 || destination % 4 != 0 { return Err(Misaligned); }
    if |code| > 1024 * 1024 || |code| > SPACE - 1 - source { return Err(TooLarge); }
    if o.scratch.Some? && o.scratch.value > 30 { return Err(BadScratch); }
    if !decodes { return Err(Undecodable); }
    var offsets, size := FirstPass(code, source, destination);
    if size > SPACE - 1 - destination { return Err(OutOfSpace); }
    if source == destination { return Ok(Relocated(code, offsets)); }
    LayoutIsValid(code, source, destination, o, decodes);
    var starts := seq(|offsets|, j requires 0 <= j < |offsets| => offsets[j] / 4);
    assert starts == LayoutOf(code, source, destination).starts;
    var bytes := SecondPass(code, Layout(source, |code| / 4, destination, starts, size / 4), o);
    return if bytes.Ok? then Ok(Relocated(bytes.value, offsets)) else Err(bytes.error);
  }

  lemma {:induction false} EmittedFails(code: seq<Byte>, l: Layout, o: Options, i: nat, j: nat)
    requires ValidLayout(l) && |code| == 4 * l.count && i <= j <= l.count
    requires l.size == StartOf(code, l.count)
    requires o.scratch.Some? ==> o.scratch.value <= 30
    requires Emitted(code, l, o, i).Err?
    ensures Emitted(code, l, o, j) == Emitted(code, l, o, i)
  {
    if i < j { EmittedFails(code, l, o, i, j - 1); }
  }
}
