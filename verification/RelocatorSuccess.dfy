/**
  Which code can be relocated: `relocateAarch64` refuses badly aligned, oversized or undecodable blocks
  and otherwise fails only where an operand leaves the address space or its target is out of reach and
  no way around is allowed.
 */
module RelocatorSuccess {
  import opened Memory
  import opened Arm64
  import opened Relocator
  import opened RelocatorEncoding

  // ------------------------------------------------ the conditions, on decoded instructions

  /** The bytes kept for an instruction. The words that only look like a literal load count as one. */
  function Room(instr: Instr): nat
  {
    match instr
    case Adr(_, _, _) => 16
    case B(_, _) => 20
    case BCond(_, _) => 24
    case CompareBranch(_, _, _, _) => 24
    case TestBranch(_, _, _, _) => 24
    case LoadLiteral(_, _, _) => 20
    case Other(word) => if LooksLiteral(word) then 20 else 4
    case _ => 4
  }

  predicate LooksLiteral(word: Word) { (word / 0x800_0000) % 8 == 3 && (word / 0x100_0000) % 4 == 0 }

  /** The bytes kept for the first `i` instructions. */
  function RoomUpTo(code: seq<Byte>, i: nat): nat
    requires 4 * i <= |code|
  {
    if i == 0 then 0 else RoomUpTo(code, i - 1) + Room(Decode(CodeWord(code, i - 1)))
  }

  /** What the whole block takes up; a block that stays where it is keeps its size. */
  function WholeRoom(code: seq<Byte>, source: Addr, destination: Addr): nat
    requires |code| % 4 == 0
  {
    if source == destination then |code| else RoomUpTo(code, |code| / 4)
  }

  /** The address lies outside the address space. */
  function Outside(a: int): Option<Error>
  {
    if a < 0 then Some(Underflow) else if a >= 0x1_0000_0000_0000_0000 then Some(Overflow) else None
  }

  /** A branch at `from` reaches 128 MiB either way. Farther off it needs leave to branch indirectly,
      and a scratch register unless it is a call, which goes through x30. A target inside the block
      has moved along with it. */
  function BranchObstacle(code: seq<Byte>, source: Addr, destination: Addr, o: Options, from: int, target: int, link: bool): Option<Error>
    requires |code| % 4 == 0
  {
    if Outside(target).Some? then Outside(target)
    else
      var to := if source <= target < source + |code| then destination + RoomUpTo(code, (target - source) / 4) else target;
      if -0x800_0000 <= to - from < 0x800_0000 then None
      else if !o.allowIndirect then Some(FarBranchForbidden)
      else if !link && o.scratch.None? then Some(FarBranchNeedsScratch)
      else None
  }

  /** A literal is reached within 1 MiB either way. Farther off, its address needs a register: the
      integer register that is loaded, or the scratch register. */
  function LiteralObstacle(o: Options, from: int, target: int, own: bool): Option<Error>
  {
    if Outside(target).Some? then Outside(target)
    else if -0x10_0000 <= target - from < 0x10_0000 || own || o.scratch.Some? then None
    else Some(FarLiteralNeedsScratch)
  }

  /** What keeps an instruction of the block from moving from `here` to `place`. */
  function Obstacle(code: seq<Byte>, source: Addr, destination: Addr, o: Options, instr: Instr, here: int, place: int): Option<Error>
    requires |code| % 4 == 0
  {
    match instr
    case Adr(page, imm, _) => Outside(if page then here - here % 4096 + 4096 * imm else here + imm)
    case B(link, offset) => BranchObstacle(code, source, destination, o, place, here + offset, link)
    case BCond(cond, offset) =>
      BranchObstacle(code, source, destination, o, if cond >= 14 then place else place + 4, here + offset, false)
    case CompareBranch(_, _, _, offset) => BranchObstacle(code, source, destination, o, place + 4, here + offset, false)
    case TestBranch(_, _, _, offset) => BranchObstacle(code, source, destination, o, place + 4, here + offset, false)
    case LoadLiteral(load, rt, offset) =>
      LiteralObstacle(o, place, here + offset, load in {LoadW, LoadX, LoadSW} && rt != 31)
    case Other(word) =>
      if LooksLiteral(word) then LiteralObstacle(o, place, here + 4 * Signed((word / 0x20) % 0x8_0000, 0x4_0000), false) else None
    case _ => None
  }

  /** What keeps instruction `i` from moving to its slot. */
  function ObstacleAt(code: seq<Byte>, source: Addr, destination: Addr, o: Options, i: nat): Option<Error>
    requires |code| % 4 == 0 && 4 * i + 4 <= |code|
  {
    Obstacle(code, source, destination, o, Decode(CodeWord(code, i)), source + 4 * i, destination + RoomUpTo(code, i))
  }

  // ------------------------------------------------------- decoded and masked

  /** The sum an operand stands for, wherever it ends up. */
  function Named(word: Word, pc: Addr): int
    requires !KindOf(word).Copy?
  {
    var k := KindOf(word);
    if k.Address? then
      if word / 0x8000_0000 == 1 then pc - pc % 4096 + SignedField(ImmAdr(word), 21) * 4096
      else pc + SignedField(ImmAdr(word), 21)
    else if k.Branch? then pc + SignedField(Imm26(word), 26) * 4
    else if k.Test? then pc + SignedField(Imm14(word), 14) * 4
    else pc + SignedField(Imm19(word), 19) * 4
  }

  /** What the masks say of a word is what the decoder says, for every word. */
  lemma {:induction false} KindDecoded(word: Word)
    ensures match Decode(word)
            case Adr(page, _, _) => KindOf(word).Address? && page == (word / 0x8000_0000 == 1)
            case B(link, _) => KindOf(word).Branch? && link == (word / 0x8000_0000 == 1)
            case BCond(cond, _) => KindOf(word).Conditional? && cond == word % 16
            case CompareBranch(_, _, _, _) => KindOf(word).Compare?
            case TestBranch(_, _, _, _) => KindOf(word).Test?
            case LoadLiteral(load, rt, _) =>
              KindOf(word).Literal? && rt == word % 32
              && (load in {LoadW, LoadX, LoadSW} <==> !Vector(word) && word / 0x4000_0000 < 3)
            case Other(w) => w == word && if LooksLiteral(w) then KindOf(word).Literal? && Vector(word) else KindOf(word).Copy?
            case _ => KindOf(word).Copy?
  {
    hide ImmAdr, Imm26, Imm19, Imm14, Signed;
  }

  lemma {:induction false} FieldDecoded(word: Word)
    ensures match Decode(word)
            case Adr(_, imm, _) => imm == Signed(ImmAdr(word), 0x10_0000)
            case B(_, offset) => offset == Signed(Imm26(word), 0x200_0000) * 4
            case BCond(_, offset) => offset == Signed(Imm19(word), 0x4_0000) * 4
            case CompareBranch(_, _, _, offset) => offset == Signed(Imm19(word), 0x4_0000) * 4
            case TestBranch(_, _, _, offset) => offset == Signed(Imm14(word), 0x2000) * 4
            case LoadLiteral(_, _, offset) => offset == Signed(Imm19(word), 0x4_0000) * 4
            case _ => true
  {
    hide ImmAdr, Imm26, Imm19, Imm14, Signed, LiteralLoad, IsLiteral, Vector;
  }

  lemma {:induction false} NamedFields(word: Word, pc: Addr)
    ensures KindOf(word).Address? ==>
              var imm := Signed(ImmAdr(word), 0x10_0000);
              Named(word, pc) == if word / 0x8000_0000 == 1 then pc - pc % 4096 + 4096 * imm else pc + imm
    ensures KindOf(word).Branch? ==> Named(word, pc) == pc + Signed(Imm26(word), 0x200_0000) * 4
    ensures KindOf(word).Test? ==> Named(word, pc) == pc + Signed(Imm14(word), 0x2000) * 4
    ensures KindOf(word).Conditional? || KindOf(word).Compare? || KindOf(word).Literal? ==>
              Named(word, pc) == pc + Signed(Imm19(word), 0x4_0000) * 4
  {
    hide KindOf, ImmAdr, Imm26, Imm19, Imm14, Signed, SignedField, Half;
    FieldsFit(word);
    HalvesAre();
    SignedFieldIsSigned(ImmAdr(word), 21);
    SignedFieldIsSigned(Imm26(word), 26);
    SignedFieldIsSigned(Imm19(word), 19);
    SignedFieldIsSigned(Imm14(word), 14);
  }

  lemma {:induction false} NamedDecoded(word: Word, pc: Addr)
    ensures match Decode(word)
            case Adr(page, imm, _) => KindOf(word).Address? && Named(word, pc) == if page then pc - pc % 4096 + 4096 * imm else pc + imm
            case B(_, offset) => KindOf(word).Branch? && Named(word, pc) == pc + offset
            case BCond(_, offset) => KindOf(word).Conditional? && Named(word, pc) == pc + offset
            case CompareBranch(_, _, _, offset) => KindOf(word).Compare? && Named(word, pc) == pc + offset
            case TestBranch(_, _, _, offset) => KindOf(word).Test? && Named(word, pc) == pc + offset
            case LoadLiteral(_, _, offset) => KindOf(word).Literal? && Named(word, pc) == pc + offset
            case Other(w) => LooksLiteral(w) ==> KindOf(word).Literal? && Named(word, pc) == pc + 4 * Signed((w / 0x20) % 0x8_0000, 0x4_0000)
            case _ => true
  {
    hide Decode, KindOf, Named, Signed, Vector, ImmAdr, Imm26, Imm14, LooksLiteral;
    KindDecoded(word);
    FieldDecoded(word);
    NamedFields(word, pc);
  }

  lemma {:induction false} HalvesAre()
    ensures Half(14) == 0x2000 && Half(19) == 0x4_0000 && Half(21) == 0x10_0000 && Half(26) == 0x200_0000
  {
  }

  lemma {:induction false} TargetExactly(word: Word, pc: Addr)
    requires !KindOf(word).Copy?
    ensures var a := Named(word, pc);
            if Outside(a).Some? then TargetOf(word, pc) == Err(Outside(a).value)
            else 0 <= a < 0x1_0000_0000_0000_0000 && TargetOf(word, pc) == Ok(a)
  {
    hide KindOf, SignedField, Absolute;
    var k := KindOf(word);
    if k.Address? {
      AbsoluteExact(if word / 0x8000_0000 == 1 then pc - pc % 4096 else pc,
        if word / 0x8000_0000 == 1 then SignedField(ImmAdr(word), 21) * 4096 else SignedField(ImmAdr(word), 21));
    } else if k.Branch? {
      AbsoluteExact(pc, SignedField(Imm26(word), 26) * 4);
    } else if k.Test? {
      AbsoluteExact(pc, SignedField(Imm14(word), 14) * 4);
    } else {
      AbsoluteExact(pc, SignedField(Imm19(word), 19) * 4);
    }
  }

  lemma {:induction false} RoomIsSlot(word: Word)
    ensures Room(Decode(word)) == 4 * SlotWords(KindOf(word))
  {
    hide Decode, KindOf, LooksLiteral;
    KindDecoded(word);
  }

  lemma {:induction false} RoomIsStart(code: seq<Byte>, i: nat)
    requires 4 * i <= |code|
    ensures RoomUpTo(code, i) == 4 * StartOf(code, i)
  {
    hide Room, SlotWords, KindOf, Decode;
    if i > 0 {
      RoomIsStart(code, i - 1);
      RoomIsSlot(CodeWord(code, i - 1));
    }
  }

  /** The layout of the first pass, of code that moves. */
  predicate Laid(code: seq<Byte>, source: Addr, destination: Addr, l: Layout)
  {
    && ValidLayout(l) && |code| == 4 * l.count && l.source == source && l.destination == destination
    && l.size == StartOf(code, l.count)
    && forall j :: 0 <= j < l.count ==> 4 * j <= |code| && l.starts[j] == StartOf(code, j)
  }

  // ------------------------------------------------------------ one instruction

  lemma {:induction false} BranchExactly(from: Addr, to: Addr, link: bool, o: Options)
    requires from % 4 == 0 && to % 4 == 0 && (o.scratch.Some? ==> o.scratch.value <= 30)
    ensures var r := BranchWords(from, to, link, o);
            if -0x800_0000 <= to - from < 0x800_0000 then r.Ok?
            else if !o.allowIndirect then r == Err(FarBranchForbidden)
            else if !link && o.scratch.None? then r == Err(FarBranchNeedsScratch)
            else r.Ok?
  {
    hide Relative, NearBranch, FarBranch, Constant;
    RelativeExact(from, to, 26);
  }

  lemma {:induction false} LiteralExactly(word: Word, newPc: Addr, to: Addr, o: Options)
    requires KindOf(word) == Literal && newPc % 4 == 0 && to % 4 == 0 && (o.scratch.Some? ==> o.scratch.value <= 30)
    ensures var r := LiteralWords(word, newPc, to, o);
            var own := !Vector(word) && word / 0x4000_0000 < 3 && word % 32 != 31;
            if -0x10_0000 <= to - newPc < 0x10_0000 || own || o.scratch.Some? then r.Ok? else r == Err(FarLiteralNeedsScratch)
  {
    hide Relative, NearLoad, FarLoad, Constant, KindOf, Vector;
    RelativeExact(newPc, to, 19);
  }

  lemma {:induction false} BranchMeets(code: seq<Byte>, source: Addr, destination: Addr, l: Layout, o: Options, from: Addr, target: Addr, link: bool)
    requires |code| % 4 == 0 && Laid(code, source, destination, l)
    requires from % 4 == 0 && target % 4 == 0 && (o.scratch.Some? ==> o.scratch.value <= 30)
    ensures 0 <= MapBranch(l, target) < SPACE
    ensures var r, obstacle := BranchWords(from, MapBranch(l, target), link, o), BranchObstacle(code, source, destination, o, from, target, link);
            if obstacle.Some? then r == Err(obstacle.value) else r.Ok?
  {
    hide BranchWords, StartOf, RoomUpTo;
    MapFits(l, target);
    if source <= target < source + |code| { RoomIsStart(code, (target - source) / 4); }
    BranchExactly(from, MapBranch(l, target), link, o);
  }

  /** One instruction can be emitted exactly when nothing keeps it from moving. */
  lemma {:induction false} BodyExactly(code: seq<Byte>, source: Addr, destination: Addr, word: Word, oldPc: Addr, newPc: Addr, l: Layout, o: Options)
    requires |code| % 4 == 0 && Laid(code, source, destination, l)
    requires oldPc % 4 == 0 && newPc % 4 == 0 && newPc + 4 < 0x1_0000_0000_0000_0000
    requires o.scratch.Some? ==> o.scratch.value <= 30
    ensures var r, obstacle := Body(word, oldPc, newPc, l, o), Obstacle(code, source, destination, o, Decode(word), oldPc, newPc);
            if obstacle.Some? then r == Err(obstacle.value) else r.Ok?
  {
    hide Decode, KindOf, TargetOf, Named, Outside, BranchObstacle, BranchWords, LiteralObstacle, LiteralWords, MapBranch, Laid;
    hide Constant, Inverted, SlotWords, Signed, LooksLiteral, Vector;
    KindDecoded(word);
    if !KindOf(word).Copy? {
      var a := Named(word, oldPc);
      NamedDecoded(word, oldPc);
      TargetExactly(word, oldPc);
      if !KindOf(word).Address? { OperandAligned(word, oldPc); }
      if Outside(a).None? {
        if KindOf(word).Literal? {
          LiteralMeets(word, newPc, a, o);
        } else if !KindOf(word).Address? {
          var plain := KindOf(word).Branch? || (KindOf(word).Conditional? && word % 16 >= 14);
          var link := KindOf(word).Branch? && word / 0x8000_0000 == 1;
          BranchMeets(code, source, destination, l, o, if plain then newPc else newPc + 4, a, link);
        }
      } else {
        BothOutside(code, source, destination, o, a);
      }
    }
  }

  lemma {:induction false} OperandAligned(word: Word, pc: Addr)
    requires pc % 4 == 0 && !KindOf(word).Copy? && !KindOf(word).Address?
    ensures Named(word, pc) % 4 == 0
  {
    hide KindOf, SignedField;
  }

  /** An operand outside the address space stops every kind of instruction. */
  lemma {:induction false} BothOutside(code: seq<Byte>, source: Addr, destination: Addr, o: Options, a: int)
    requires |code| % 4 == 0 && Outside(a).Some?
    ensures forall from, link :: BranchObstacle(code, source, destination, o, from, a, link) == Outside(a)
    ensures forall from, own :: LiteralObstacle(o, from, a, own) == Outside(a)
  {
  }

  lemma {:induction false} LiteralMeets(word: Word, newPc: Addr, to: Addr, o: Options)
    requires KindOf(word) == Literal && newPc % 4 == 0 && to % 4 == 0 && (o.scratch.Some? ==> o.scratch.value <= 30)
    ensures var r := LiteralWords(word, newPc, to, o);
            var obstacle := LiteralObstacle(o, newPc, to, !Vector(word) && word / 0x4000_0000 < 3 && word % 32 != 31);
            if obstacle.Some? then r == Err(obstacle.value) else r.Ok?
  {
    hide LiteralWords, KindOf, Vector;
    LiteralExactly(word, newPc, to, o);
  }

  // ------------------------------------------------------------ the whole block

  /** Nothing keeps the first `i` instructions from moving. */
  ghost predicate Clear(code: seq<Byte>, source: Addr, destination: Addr, o: Options, i: nat)
    requires |code| % 4 == 0 && 4 * i <= |code|
  {
    forall j :: 0 <= j < i ==> ObstacleAt(code, source, destination, o, j).None?
  }

  lemma {:induction false} OneMoreEmitted(code: seq<Byte>, source: Addr, destination: Addr, l: Layout, o: Options, i: nat)
    requires |code| % 4 == 0 && Laid(code, source, destination, l) && i < l.count && (o.scratch.Some? ==> o.scratch.value <= 30)
    requires Emitted(code, l, o, i).Ok?
    ensures var r, obstacle := Emitted(code, l, o, i + 1), ObstacleAt(code, source, destination, o, i);
            if obstacle.Some? then r == Err(obstacle.value) else r.Ok?
  {
    hide Body, Obstacle, StartOf, RoomUpTo, SlotWords, KindOf, Pad, CodeWord, Emitted, Decode;
    EmittedNext(code, l, o, i, Emitted(code, l, o, i).value);
    RoomIsStart(code, i);
    BodyExactly(code, source, destination, CodeWord(code, i), source + 4 * i, destination + 4 * l.starts[i], l, o);
  }

  lemma {:induction false} EmittedExactly(code: seq<Byte>, source: Addr, destination: Addr, l: Layout, o: Options, i: nat)
    requires |code| % 4 == 0 && Laid(code, source, destination, l) && i <= l.count && (o.scratch.Some? ==> o.scratch.value <= 30)
    ensures Emitted(code, l, o, i).Ok? <==> Clear(code, source, destination, o, i)
  {
    hide Emitted, ObstacleAt, Laid;
    LaidCounts(code, source, destination, l);
    if i == 0 {
      EmittedNone(code, l, o);
    } else {
      EmittedExactly(code, source, destination, l, o, i - 1);
      if Emitted(code, l, o, i - 1).Ok? {
        OneMoreEmitted(code, source, destination, l, o, i - 1);
      } else {
        EmittedFails(code, l, o, i - 1, i);
      }
    }
  }

  lemma {:induction false} LaidCounts(code: seq<Byte>, source: Addr, destination: Addr, l: Layout)
    requires Laid(code, source, destination, l)
    ensures ValidLayout(l) && |code| == 4 * l.count && l.size == StartOf(code, l.count)
  {
  }

  lemma {:induction false} FirstObstacle(code: seq<Byte>, source: Addr, destination: Addr, l: Layout, o: Options, i: nat)
    requires |code| % 4 == 0 && Laid(code, source, destination, l) && i < l.count && (o.scratch.Some? ==> o.scratch.value <= 30)
    requires Clear(code, source, destination, o, i) && ObstacleAt(code, source, destination, o, i).Some?
    ensures Emitted(code, l, o, l.count) == Err(ObstacleAt(code, source, destination, o, i).value)
  {
    hide Emitted, ObstacleAt, Laid, Clear;
    LaidCounts(code, source, destination, l);
    EmittedExactly(code, source, destination, l, o, i);
    OneMoreEmitted(code, source, destination, l, o, i);
    EmittedFails(code, l, o, i + 1, l.count);
  }

  lemma {:induction false} LayoutIsLaid(code: seq<Byte>, source: Addr, destination: Addr, o: Options, decodes: bool)
    requires Rejected(code, source, destination, o, decodes).None? && source != destination
    ensures Laid(code, source, destination, LayoutOf(code, source, destination))
  {
    hide StartOf;
    LayoutIsValid(code, source, destination, o, decodes);
  }

  /** The block is aligned, not too large, and fits where it comes from. */
  lemma {:induction false} RejectedExactly(code: seq<Byte>, source: Addr, destination: Addr, o: Options, decodes: bool)
    ensures Rejected(code, source, destination, o, decodes) ==
            if |code| == 0 || |code| % 4 != 0 || source % 4 != 0 || destination % 4 != 0 then Some(Misaligned)
            else if |code| > 0x10_0000 || source + |code| >= 0x1_0000_0000_0000_0000 then Some(TooLarge)
            else if o.scratch.Some? && o.scratch.value > 30 then Some(BadScratch)
            else if !decodes then Some(Undecodable)
            else if destination + WholeRoom(code, source, destination) >= 0x1_0000_0000_0000_0000 then Some(OutOfSpace)
            else None
  {
    hide StartOf, RoomUpTo;
    if |code| % 4 == 0 { RoomIsStart(code, |code| / 4); }
  }

  /** Which code is relocated, for every code, both addresses, all options and either verdict of the
      disassembler. */
  lemma {:induction false} RelocatesExactlyWhen(code: seq<Byte>, source: Addr, destination: Addr, o: Options, decodes: bool)
    ensures RelocatedCode(code, source, destination, o, decodes).Ok? <==>
            && |code| > 0 && |code| % 4 == 0 && |code| <= 0x10_0000
            && source % 4 == 0 && destination % 4 == 0
            && source + |code| < 0x1_0000_0000_0000_0000
            && (o.scratch.Some? ==> o.scratch.value <= 30)
            && decodes
            && destination + WholeRoom(code, source, destination) < 0x1_0000_0000_0000_0000
            && (source != destination ==>
                  forall i :: 0 <= i < |code| / 4 ==> ObstacleAt(code, source, destination, o, i).None?)
  {
    hide StartOf, Emitted, Flatten, ByteOffsets, LayoutOf, ObstacleAt, WholeRoom, Rejected, Laid;
    RejectedExactly(code, source, destination, o, decodes);
    if Rejected(code, source, destination, o, decodes).None? && source != destination {
      var l := LayoutOf(code, source, destination);
      LayoutIsLaid(code, source, destination, o, decodes);
      LaidCounts(code, source, destination, l);
      EmittedExactly(code, source, destination, l, o, l.count);
    }
  }

  /** Why code is not relocated: the first check that fails, and after those the first instruction
      that cannot move. */
  lemma {:induction false} FailsWith(code: seq<Byte>, source: Addr, destination: Addr, o: Options, decodes: bool)
    ensures var r := RelocatedCode(code, source, destination, o, decodes);
            if |code| == 0 || |code| % 4 != 0 || source % 4 != 0 || destination % 4 != 0 then r == Err(Misaligned)
            else if |code| > 0x10_0000 || source + |code| >= 0x1_0000_0000_0000_0000 then r == Err(TooLarge)
            else if o.scratch.Some? && o.scratch.value > 30 then r == Err(BadScratch)
            else if !decodes then r == Err(Undecodable)
            else if destination + WholeRoom(code, source, destination) >= 0x1_0000_0000_0000_0000 then r == Err(OutOfSpace)
            else source != destination ==> forall i ::
              0 <= i < |code| / 4 && Clear(code, source, destination, o, i) && ObstacleAt(code, source, destination, o, i).Some? ==>
                r == Err(ObstacleAt(code, source, destination, o, i).value)
  {
    hide StartOf, Emitted, Flatten, ByteOffsets, LayoutOf, ObstacleAt, WholeRoom, Rejected, Laid;
    RejectedExactly(code, source, destination, o, decodes);
    if Rejected(code, source, destination, o, decodes).None? && source != destination {
      var l := LayoutOf(code, source, destination);
      LayoutIsLaid(code, source, destination, o, decodes);
      LaidCounts(code, source, destination, l);
      forall i | 0 <= i < |code| / 4 && Clear(code, source, destination, o, i) && ObstacleAt(code, source, destination, o, i).Some?
        ensures Emitted(code, l, o, l.count) == Err(ObstacleAt(code, source, destination, o, i).value)
      {
        FirstObstacle(code, source, destination, l, o, i);
      }
    }
  }

  /** Where the instructions of relocated code start, and how long it is: each takes its own room. */
  lemma {:induction false} RoomIsTaken(code: seq<Byte>, source: Addr, destination: Addr, o: Options, decodes: bool)
    requires RelocatedCode(code, source, destination, o, decodes).Ok?
    ensures |code| % 4 == 0
    ensures var r := RelocatedCode(code, source, destination, o, decodes).value;
            && |r.offsets| == |code| / 4
            && (forall i :: 0 <= i < |r.offsets| ==> r.offsets[i] == if source == destination then 4 * i else RoomUpTo(code, i))
            && |r.bytes| == WholeRoom(code, source, destination)
            && (source == destination ==> r.bytes == code)
  {
    hide StartOf, Emitted, Flatten, RoomUpTo;
    RoomIsStart(code, |code| / 4);
    forall i | 0 <= i < |code| / 4 ensures RoomUpTo(code, i) == 4 * StartOf(code, i) { RoomIsStart(code, i); }
  }
}
