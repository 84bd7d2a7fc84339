/**
  One relocated slot does what its source instruction does: the words that are emitted are fetched
  and run on the machine, from the first of them to the end of the slot.
 */
module RelocatorSimulation {
  import opened Memory
  import opened Arm64
  import opened Relocator
  import opened RelocatorEncoding
  import opened RelocatorMeaning

  // ------------------------------------------------------------ fetching

  lemma {:induction false} WordRoundTrip(word: Word)
    ensures WordAt(LittleEndian(word), 0) == word
  {
    DivisionLaw(word, 0x100);
    DivisionLaw(word / 0x100, 0x100);
    DivisionLaw(word / 0x1_0000, 0x100);
    Nested(word);
  }

  lemma {:induction false} Nested(word: Word)
    ensures word / 0x100 / 0x100 == word / 0x1_0000 && word / 0x1_0000 / 0x100 == word / 0x100_0000
  {
  }

  lemma {:induction false} FetchedWord(words: seq<Word>, j: nat)
    requires j < |words|
    ensures WordAt(Flatten(words), 4 * j) == words[j]
  {
    var n := |words| - 1;
    if j == n {
      WordRoundTrip(words[n]);
    } else {
      FetchedWord(words[..n], j);
    }
  }

  /** A program of words placed at `base`. */
  predicate Placed(words: seq<Word>, base: Addr)
  {
    base % 4 == 0 && base + 4 * |words| < SPACE
  }

  function Run(rest: Rest, words: seq<Word>, base: Addr, k: nat, c: Core, pc: Addr): (Core, Addr)
  {
    TargetRun(rest, Flatten(words), base, k, c, pc)
  }

  lemma {:induction false} OneStep(rest: Rest, words: seq<Word>, base: Addr, j: nat, c: Core)
    requires Placed(words, base) && j < |words|
    ensures var (c', flow) := Exec(rest, words[j], base + 4 * j, c);
            Run(rest, words, base, 1, c, base + 4 * j) == (c', NextPc(base + 4 * j, flow))
  {
    hide Exec, NextPc, WordAt, TargetRun, Flatten, Decode;
    FetchedWord(words, j);
    StepInBlock(rest, Flatten(words), base, 4 * j, c);
  }

  lemma {:induction false} StepInBlock(rest: Rest, bytes: seq<Byte>, base: Addr, at: nat, c: Core)
    requires at % 4 == 0 && at + 4 <= |bytes| && base + |bytes| < SPACE
    ensures base + at < SPACE
    ensures var (c', flow) := Exec(rest, WordAt(bytes, at), base + at, c);
            TargetRun(rest, bytes, base, 1, c, base + at) == (c', NextPc(base + at, flow))
  {
    hide Exec, NextPc, WordAt, Decode;
    var (c', flow) := Exec(rest, WordAt(bytes, at), base + at, c);
    assert InBlock(bytes, base, base + at) && base + at - base == at;
    assert TargetRun(rest, bytes, base, 0, c', NextPc(base + at, flow)) == (c', NextPc(base + at, flow));
  }

  /** `k` steps lead from (c, pc) to (c', pc'). */
  ghost predicate Leads(rest: Rest, words: seq<Word>, base: Addr, k: nat, c: Core, pc: Addr, c': Core, pc': Addr)
  {
    Run(rest, words, base, k, c, pc) == (c', pc')
  }

  lemma {:induction false} Then(rest: Rest, words: seq<Word>, base: Addr, k: nat, m: nat,
             c: Core, pc: Addr, c': Core, pc': Addr, c'': Core, pc'': Addr)
    requires Leads(rest, words, base, k, c, pc, c', pc') && Leads(rest, words, base, m, c', pc', c'', pc'')
    ensures Leads(rest, words, base, k + m, c, pc, c'', pc'')
  {
    RunsCompose(rest, Flatten(words), base, k, m, c, pc);
  }

  /** A word whose effect falls through. */
  lemma {:induction false} FallStep(rest: Rest, words: seq<Word>, base: Addr, j: nat, c: Core, c': Core)
    requires Placed(words, base) && j < |words|
    requires Exec(rest, words[j], base + 4 * j, c) == (c', Fall)
    ensures Leads(rest, words, base, 1, c, base + 4 * j, c', base + 4 * (j + 1))
  {
    hide Exec;
    OneStep(rest, words, base, j, c);
  }

  lemma {:induction false} NopRun(rest: Rest, words: seq<Word>, base: Addr, j: nat, m: nat, c: Core)
    requires Placed(words, base) && j + m <= |words|
    requires forall t :: j <= t < j + m ==> words[t] == NOP
    ensures Leads(rest, words, base, m, c, base + 4 * j, c, base + 4 * (j + m))
  {
    hide Placed, Leads;
    PlacedBelow(words, base, j + m);
    if m == 0 {
      NoRun(rest, words, base, c, base + 4 * j);
    } else {
      NopRun(rest, words, base, j, m - 1, c);
      NopStep(rest, words, base, j + m - 1, c);
      Then(rest, words, base, m - 1, 1, c, base + 4 * j, c, base + 4 * (j + m - 1), c, base + 4 * (j + m));
    }
  }

  lemma {:induction false} NoRun(rest: Rest, words: seq<Word>, base: Addr, c: Core, pc: Addr)
    ensures Leads(rest, words, base, 0, c, pc, c, pc)
  {
  }

  lemma {:induction false} NopStep(rest: Rest, words: seq<Word>, base: Addr, j: nat, c: Core)
    requires Placed(words, base) && j < |words| && words[j] == NOP
    ensures Leads(rest, words, base, 1, c, base + 4 * j, c, base + 4 * (j + 1))
  {
    hide Decode;
    DecodeNop();
    FallStep(rest, words, base, j, c, c);
  }

  // ----------------------------------------------------------- constants

  /** The value in `reg` after the first `i` moves of a constant. */
  function Built(i: nat, value: Addr): Addr
    requires i <= 4
  {
    if i == 0 then 0
    else if i == 1 then value % 0x1_0000
    else if i == 2 then value % 0x1_0000_0000
    else if i == 3 then value % 0x1_0000_0000_0000
    else value
  }

  lemma {:induction false} InsertBuilds(i: nat, value: Addr)
    requires i < 4
    ensures Insert(Built(i, value), i, Part(i, value)) == Built(i + 1, value)
  {
    PartsAdd(i, value);
    InsertAbove(Built(i, value), i, Part(i, value));
  }

  function Unit(i: nat): nat
    requires i < 4
  {
    if i == 0 then 1 else if i == 1 then 0x1_0000 else if i == 2 then 0x1_0000_0000 else 0x1_0000_0000_0000
  }

  lemma {:induction false} InsertAbove(was: Addr, i: nat, part: nat)
    requires i < 4 && part < 0x1_0000 && was < Unit(i)
    ensures Insert(was, i, part) == was + part * Unit(i)
  {
    Split(was, Unit(i), 0, was);
  }

  lemma {:induction false} PartsAdd(i: nat, value: Addr)
    requires i < 4
    ensures Built(i, value) < Unit(i) && Built(i + 1, value) == Built(i, value) + Part(i, value) * Unit(i)
  {
    if i == 1 { PartAbove(value, 0x1_0000, 0x1_0000_0000); }
    else if i == 2 { PartAbove(value, 0x1_0000_0000, 0x1_0000_0000_0000); }
    else if i == 3 { DivisionLaw(value, 0x1_0000_0000_0000); }
  }

  lemma {:induction false} PartAbove(value: Addr, unit: nat, next: nat)
    requires unit in {0x1_0000, 0x1_0000_0000} && next == unit * 0x1_0000
    ensures value % next == value % unit + (value / unit) % 0x1_0000 * unit
  {
    var q := value / unit;
    DivisionLaw(value, unit);
    DivisionLaw(q, 0x1_0000);
    Split(value, next, q / 0x1_0000, q % 0x1_0000 * unit + value % unit);
  }

  lemma {:induction false} MoveStep(rest: Rest, words: seq<Word>, base: Addr, j: nat, reg: Reg, value: Addr, i: nat, c: Core)
    requires Placed(words, base) && i < 4 && j + i < |words| && words[j + i] == MoveWord(i, reg, value)
    ensures Leads(rest, words, base, 1, if i == 0 then c else SetX(c, reg, Built(i, value)), base + 4 * (j + i),
                  SetX(c, reg, Built(i + 1, value)), base + 4 * (j + i + 1))
  {
    hide Decode, Insert, Built, Part;
    var c1 := if i == 0 then c else SetX(c, reg, Built(i, value));
    DecodeMove(i, reg, value);
    InsertBuilds(i, value);
    BuiltZero(value);
    if reg != 31 { assert c.x[reg := Built(i, value)][reg := Built(i + 1, value)] == c.x[reg := Built(i + 1, value)]; }
    FallStep(rest, words, base, j + i, c1, SetX(c, reg, Built(i + 1, value)));
  }

  lemma {:induction false} BuiltZero(value: Addr)
    ensures Built(0, value) == 0 && Built(4, value) == value
  {
  }

  /** MOVZ and three MOVKs put any 64-bit value in a register and change nothing else. */
  lemma {:induction false} ConstantRun(rest: Rest, words: seq<Word>, base: Addr, j: nat, reg: Reg, value: Addr, c: Core)
    requires Placed(words, base) && j + 4 <= |words| && words[j..j + 4] == Constant(reg, value)
    ensures Leads(rest, words, base, 4, c, base + 4 * j, SetX(c, reg, value), base + 4 * (j + 4))
  {
    hide *;
    ConstantWords(words, j, reg, value);
    BuiltZero(value);
    var v1, v2, v3 := SetX(c, reg, Built(1, value)), SetX(c, reg, Built(2, value)), SetX(c, reg, Built(3, value));
    var v4 := SetX(c, reg, Built(4, value));
    PlacedBelow(words, base, j + 4);
    MoveStep(rest, words, base, j, reg, value, 0, c);
    MoveStep(rest, words, base, j, reg, value, 1, c);
    MoveStep(rest, words, base, j, reg, value, 2, c);
    MoveStep(rest, words, base, j, reg, value, 3, c);
    Then(rest, words, base, 1, 1, c, base + 4 * j, v1, base + 4 * (j + 1), v2, base + 4 * (j + 2));
    Then(rest, words, base, 2, 1, c, base + 4 * j, v2, base + 4 * (j + 2), v3, base + 4 * (j + 3));
    Then(rest, words, base, 3, 1, c, base + 4 * j, v3, base + 4 * (j + 3), v4, base + 4 * (j + 4));
  }

  lemma {:induction false} ConstantWords(words: seq<Word>, j: nat, reg: Reg, value: Addr)
    requires j + 4 <= |words| && words[j..j + 4] == Constant(reg, value)
    ensures words[j] == MoveWord(0, reg, value) && words[j + 1] == MoveWord(1, reg, value)
    ensures words[j + 2] == MoveWord(2, reg, value) && words[j + 3] == MoveWord(3, reg, value)
  {
    hide MoveWord;
    assert words[j..j + 4][0] == words[j] && words[j..j + 4][1] == words[j + 1];
    assert words[j..j + 4][2] == words[j + 2] && words[j..j + 4][3] == words[j + 3];
  }

  lemma {:induction false} PlacedBelow(words: seq<Word>, base: Addr, j: nat)
    requires Placed(words, base) && j <= |words|
    ensures base + 4 * j < 0x1_0000_0000_0000_0000
  {
  }

  // ------------------------------------------------------------ branches

  /** The words of a branch take control to its target. A link leaves x30 just after the branch. */
  lemma {:induction false} BranchRun(rest: Rest, words: seq<Word>, base: Addr, j: nat, target: Addr, link: bool, o: Options,
                  ws: seq<Word>, c: Core, xs: set<nat>)
      returns (k: nat, c': Core)
    requires Placed(words, base) && j + |ws| <= |words| && words[j..j + |ws|] == ws
    requires o.scratch.Some? ==> o.scratch.value <= 30 && o.scratch.value in xs
    requires BranchWords(base + 4 * j, target, link, o) == Ok(ws)
    requires link ==> 30 in xs
    ensures k > 0 && Leads(rest, words, base, k, c, base + 4 * j, c', target)
    ensures Same(xs, c, c')
    ensures link ==> c'.x[30] == base + 4 * (j + |ws|)
  {
    hide Relative, Constant, FarBranch, NearBranch, Run;
    var rel := Relative(base + 4 * j, target, 26);
    if rel.Some? {
      k, c' := 1, if link then SetX(c, 30, base + 4 * (j + 1)) else c;
      assert words[j..j + 1][0] == words[j];
      NearRun(rest, words, base, j, target, link, rel.value, c);
    } else {
      var reg := if link then 30 else o.scratch.value;
      FarWords(words, j, Constant(reg, target), FarBranch(reg, link));
      k, c' := 5, SetX(SetX(c, reg, target), 30, base + 4 * (j + 5));
      if !link { c' := SetX(c, reg, target); }
      FarRun(rest, words, base, j, reg, target, link, c);
    }
  }

  lemma {:induction false} FarWords(words: seq<Word>, j: nat, constant: seq<Word>, jump: Word)
    requires |constant| == 4 && j + 5 <= |words| && words[j..j + 5] == constant + [jump]
    ensures words[j..j + 4] == constant && words[j + 4] == jump
  {
    assert words[j..j + 5][..4] == words[j..j + 4];
    assert words[j..j + 5][4] == words[j + 4];
  }

  lemma {:induction false} NearRun(rest: Rest, words: seq<Word>, base: Addr, j: nat, target: Addr, link: bool, rel: nat, c: Core)
    requires Placed(words, base) && j < |words|
    requires Relative(base + 4 * j, target, 26) == Some(rel) && words[j] == NearBranch(rel, link)
    ensures Leads(rest, words, base, 1, c, base + 4 * j,
                  if link then SetX(c, 30, base + 4 * (j + 1)) else c, target)
  {
    hide Decode, Relative, Exec, NextPc, NearBranch, Signed, SetX, Run;
    NearTarget(base + 4 * j, target, rel);
    DecodeNearBranch(rel, link);
    NearEffect(rest, words[j], link, Signed(rel, 0x200_0000) * 4, base + 4 * j, target, c);
    OneStep(rest, words, base, j, c);
  }

  lemma {:induction false} NearTarget(from: Addr, to: Addr, rel: nat)
    requires Relative(from, to, 26) == Some(rel)
    ensures rel < 0x400_0000 && from + Signed(rel, 0x200_0000) * 4 == to
  {
    RelativeExact(from, to, 26);
    SignedFieldIsSigned(rel, 26);
  }

  lemma {:induction false} NearEffect(rest: Rest, word: Word, link: bool, offset: int, pc: Addr, target: Addr, c: Core)
    requires Decode(word) == B(link, offset) && pc + offset == target && pc + 4 < SPACE
    ensures var (c', flow) := Exec(rest, word, pc, c);
            c' == (if link then SetX(c, 30, pc + 4) else c) && NextPc(pc, flow) == target
  {
    hide Decode;
  }

  lemma {:induction false} FarRun(rest: Rest, words: seq<Word>, base: Addr, j: nat, reg: Reg, target: Addr, link: bool, c: Core)
    requires Placed(words, base) && j + 5 <= |words| && reg < 31 && (link ==> reg == 30)
    requires words[j..j + 4] == Constant(reg, target) && words[j + 4] == FarBranch(reg, link)
    ensures var c1 := SetX(c, reg, target);
            Leads(rest, words, base, 5, c, base + 4 * j,
                  if link then SetX(c1, 30, base + 4 * (j + 5)) else c1, target)
  {
    hide Decode, Constant, SetX, Run, FarBranch, Exec, NextPc;
    var c1 := SetX(c, reg, target);
    ConstantRun(rest, words, base, j, reg, target, c);
    DecodeFarBranch(reg, link);
    FarEffect(rest, words[j + 4], reg, link, base + 4 * (j + 4), target, c);
    OneStep(rest, words, base, j + 4, c1);
    Then(rest, words, base, 4, 1, c, base + 4 * j, c1, base + 4 * (j + 4),
         if link then SetX(c1, 30, base + 4 * (j + 5)) else c1, target);
  }

  lemma {:induction false} FarEffect(rest: Rest, word: Word, reg: Reg, link: bool, pc: Addr, target: Addr, c: Core)
    requires Decode(word) == BReg(link, reg) && reg < 31 && pc + 4 < SPACE
    ensures var c1 := SetX(c, reg, target);
            var (c', flow) := Exec(rest, word, pc, c1);
            c' == (if link then SetX(c1, 30, pc + 4) else c1) && NextPc(pc, flow) == target
  {
    hide Decode;
  }

  // --------------------------------------------------------------- slots

  /** A relocation that succeeded with a real move: `words` is its output. */
  ghost predicate Moved(code: seq<Byte>, l: Layout, o: Options, words: seq<Word>)
  {
    && ValidLayout(l) && |code| == 4 * l.count && l.count > 0
    && l.size == StartOf(code, l.count) == |words|
    && (forall i :: 0 <= i < l.count ==> l.starts[i] == StartOf(code, i))
    && (o.scratch.Some? ==> o.scratch.value <= 30)
    && Emitted(code, l, o, l.count) == Ok(words)
  }

  lemma {:induction false} EmittedPrefix(code: seq<Byte>, l: Layout, o: Options, i: nat, j: nat)
    requires ValidLayout(l) && |code| == 4 * l.count && i <= j <= l.count
    requires l.size == StartOf(code, l.count)
    requires o.scratch.Some? ==> o.scratch.value <= 30
    requires Emitted(code, l, o, j).Ok?
    ensures Emitted(code, l, o, i).Ok? && Emitted(code, l, o, i).value <= Emitted(code, l, o, j).value
  {
    hide KindOf, SlotWords, Body, Pad;
    if i < j {
      EmittedNext(code, l, o, j - 1, Emitted(code, l, o, j - 1).value);
      EmittedPrefix(code, l, o, i, j - 1);
    }
  }

  /** The `n` words from word `j` on are the padded body of `word`. */
  ghost predicate HoldsBody(word: Word, oldPc: Addr, l: Layout, o: Options, words: seq<Word>, j: nat, n: nat)
    requires ValidLayout(l) && (o.scratch.Some? ==> o.scratch.value <= 30)
  {
    && n == SlotWords(KindOf(word)) && j + n <= |words| && l.destination + 4 * j + 4 < SPACE
    && Body(word, oldPc, l.destination + 4 * j, l, o).Ok?
    && words[j..j + n] == Pad(Body(word, oldPc, l.destination + 4 * j, l, o).value, n)
  }

  lemma {:induction false} MovedBounds(code: seq<Byte>, l: Layout, o: Options, words: seq<Word>, i: nat)
    requires Moved(code, l, o, words) && i < l.count
    ensures ValidLayout(l) && |code| == 4 * l.count && l.size == StartOf(code, l.count) == |words|
    ensures (o.scratch.Some? ==> o.scratch.value <= 30) && Emitted(code, l, o, l.count) == Ok(words)
    ensures 4 * i + 4 <= |code| && l.source + 4 * i < 0x1_0000_0000_0000_0000
    ensures l.starts[i] == StartOf(code, i)
    ensures (if i + 1 < l.count then l.starts[i + 1] else l.size) == StartOf(code, i + 1)
  {
    hide StartOf, Emitted;
  }

  /** Every slot ends exactly where the next one starts and holds its instruction's padded body. */
  lemma {:induction false} SlotHolds(code: seq<Byte>, l: Layout, o: Options, words: seq<Word>, i: nat)
    requires Moved(code, l, o, words) && i < l.count
    ensures ValidLayout(l) && (o.scratch.Some? ==> o.scratch.value <= 30)
    ensures 4 * i + 4 <= |code| && l.source + 4 * i < 0x1_0000_0000_0000_0000
    ensures HoldsBody(CodeWord(code, i), l.source + 4 * i, l, o, words, l.starts[i], SlotWords(KindOf(CodeWord(code, i))))
    ensures l.starts[i] + SlotWords(KindOf(CodeWord(code, i))) == if i + 1 < l.count then l.starts[i + 1] else l.size
  {
    hide KindOf, SlotWords, Body, StartOf, Emitted, WordAt, Pad, Moved, ValidLayout;
    MovedBounds(code, l, o, words, i);
    EmittedPrefix(code, l, o, i, l.count);
    EmittedPrefix(code, l, o, i + 1, l.count);
    var before, after := Emitted(code, l, o, i).value, Emitted(code, l, o, i + 1).value;
    EmittedNext(code, l, o, i, before);
    PieceOf(words, before, after, after[|before|..]);
  }

  lemma {:induction false} PieceOf(words: seq<Word>, before: seq<Word>, after: seq<Word>, piece: seq<Word>)
    requires after <= words && |before| <= |after| && piece == after[|before|..]
    ensures |before| + |piece| <= |words| && words[|before|..|before| + |piece|] == piece
  {
    assert words[..|after|] == after;
  }

  lemma {:induction false} PadParts(words: seq<Word>, j: nat, ws: seq<Word>, n: nat)
    requires |ws| <= n && j + n <= |words| && words[j..j + n] == Pad(ws, n)
    ensures words[j..j + |ws|] == ws
    ensures forall t :: j + |ws| <= t < j + n ==> words[t] == NOP
  {
    forall t | j <= t < j + n ensures words[t] == Pad(ws, n)[t - j] {
      assert words[j..j + n][t - j] == words[t];
    }
  }
}
