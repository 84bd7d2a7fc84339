/**
  Each kind of slot, step for step against its source instruction: copies, addresses, branches,
  conditional branches and literal loads.
 */
module RelocatorSlots {
  import opened Memory
  import opened Arm64
  import opened Relocator
  import opened RelocatorEncoding
  import opened RelocatorMeaning
  import opened RelocatorSimulation

  // ------------------------------------------------------ equal elsewhere

  lemma {:induction false} SameSet(xs: set<nat>, c: Core, d: Core, r: Reg, v: Addr)
    requires Same(xs, c, d)
    ensures Same(xs, SetX(c, r, v), SetX(d, r, v))
  {
  }

  lemma {:induction false} SameScratch(xs: set<nat>, c: Core, r: Reg, v: Addr)
    requires r in xs || r == 31
    ensures Same(xs, c, SetX(c, r, v)) && Same(xs, SetX(c, r, v), c)
  {
  }

  lemma {:induction false} SameTrans(xs: set<nat>, c: Core, d: Core, e: Core)
    requires Same(xs, c, d) && Same(xs, d, e)
    ensures Same(xs, c, e)
  {
  }

  lemma {:induction false} SameLoad(xs: set<nat>, c: Core, d: Core, load: Load, rt: Reg, a: Addr)
    requires Same(xs, c, d)
    ensures Same(xs, DoLoad(c, load, rt, a), DoLoad(d, load, rt, a))
  {
    hide ReadMem;
  }

  /** Loading over the address register leaves no trace of the address. */
  lemma {:induction false} LoadOverwrites(c: Core, load: Load, rt: Reg, a: Addr, v: Addr)
    requires load.LoadW? || load.LoadX? || load.LoadSW?
    requires rt != 31
    ensures DoLoad(SetX(c, rt, v), load, rt, a) == DoLoad(c, load, rt, a)
  {
    hide ReadMem;
    forall w: Addr ensures SetX(SetX(c, rt, v), rt, w) == SetX(c, rt, w) {
      assert c.x[rt := v][rt := w] == c.x[rt := w];
    }
  }

  // ------------------------------------------------------------ the slots

  /** The slot of `word` (from `oldPc`) sits at word `j` of the relocated program. */
  ghost predicate Slotted(word: Word, oldPc: Addr, l: Layout, o: Options, words: seq<Word>, j: nat, ws: seq<Word>)
  {
    && Allocated(word) && ValidLayout(l) && Placed(words, l.destination)
    && (o.scratch.Some? ==> o.scratch.value <= 30)
    && j + SlotWords(KindOf(word)) <= |words|
    && l.destination + 4 * j + 4 < SPACE
    && Body(word, oldPc, l.destination + 4 * j, l, o) == Ok(ws)
    && words[j..j + SlotWords(KindOf(word))] == Pad(ws, SlotWords(KindOf(word)))
  }

  /** Where the relocated program has to be after an instruction with this flow. */
  function FlowPc(l: Layout, end: int, flow: Flow): int
    requires ValidLayout(l)
  {
    match flow
    case Fall => l.destination + 4 * end
    case To(t) => MapBranch(l, t)
    case Computed(a) => a
  }

  /** `k` steps from `d` at the slot do what the instruction does from `c`. */
  ghost predicate Does(rest: Rest, word: Word, oldPc: Addr, l: Layout, words: seq<Word>, j: nat, c: Core, d: Core,
                       xs: set<nat>, k: nat, d': Core)
    requires ValidLayout(l)
  {
    var (c', flow) := Exec(rest, word, oldPc, c);
    && k > 0 && Same(xs, c', d')
    && 0 <= FlowPc(l, j + SlotWords(KindOf(word)), flow) < 0x1_0000_0000_0000_0000
    && 0 <= l.destination + 4 * j < 0x1_0000_0000_0000_0000
    && Leads(rest, words, l.destination, k, d, l.destination + 4 * j, d', FlowPc(l, j + SlotWords(KindOf(word)), flow))
  }

  lemma {:induction false} OtherwiseNeverStatic(rest: Rest, word: Word, pc: Addr, c: Core)
    requires !PcRelative(Decode(word))
    ensures !Exec(rest, word, pc, c).1.To?
  {
    hide Decode;
  }

  lemma {:induction false} IgnoredStep(rest: Rest, word: Word, xs: set<nat>, pc: Addr, pc': Addr, c: Core, d: Core)
    requires Ignores(rest, word, xs) && Same(xs, c, d) && !PcRelative(Decode(word))
    ensures Same(xs, Exec(rest, word, pc, c).0, Exec(rest, word, pc', d).0)
    ensures Exec(rest, word, pc, c).1 == Exec(rest, word, pc', d).1
  {
    hide Decode, Exec, Same;
  }

  lemma {:induction false} CopySlot(rest: Rest, word: Word, oldPc: Addr, l: Layout, o: Options, words: seq<Word>, j: nat, ws: seq<Word>,
                 c: Core, d: Core, xs: set<nat>) returns (k: nat, d': Core)
    requires Slotted(word, oldPc, l, o, words, j, ws) && KindOf(word) == Copy
    requires Ignores(rest, word, xs) && Same(xs, c, d)
    ensures Does(rest, word, oldPc, l, words, j, c, d, xs, k, d')
  {
    hide *;
    CopyFacts(word, oldPc, l, o, words, j, ws);
    IgnoredStep(rest, word, xs, oldPc, l.destination + 4 * j, c, d);
    OtherwiseNeverStatic(rest, word, oldPc, c);
    k, d' := 1, Exec(rest, word, l.destination + 4 * j, d).0;
    OneStep(rest, words, l.destination, j, d);
    CopyDone(rest, word, oldPc, l, words, j, c, d, xs);
  }

  lemma {:induction false} CopyFacts(word: Word, oldPc: Addr, l: Layout, o: Options, words: seq<Word>, j: nat, ws: seq<Word>)
    requires Slotted(word, oldPc, l, o, words, j, ws) && KindOf(word) == Copy
    ensures !PcRelative(Decode(word)) && j < |words| && words[j] == word && Placed(words, l.destination)
    ensures ValidLayout(l) && l.destination + 4 * j + 4 < 0x1_0000_0000_0000_0000
  {
    KindAgrees(word);
    assert words[j..j + 1][0] == words[j];
  }

  lemma {:induction false} CopyDone(rest: Rest, word: Word, oldPc: Addr, l: Layout, words: seq<Word>, j: nat, c: Core, d: Core, xs: set<nat>)
    requires ValidLayout(l) && KindOf(word) == Copy && l.destination + 4 * j + 4 < 0x1_0000_0000_0000_0000
    requires var (c', flow) := Exec(rest, word, oldPc, c);
             var (d', flow') := Exec(rest, word, l.destination + 4 * j, d);
             && Same(xs, c', d') && flow == flow' && !flow.To?
             && Run(rest, words, l.destination, 1, d, l.destination + 4 * j) == (d', NextPc(l.destination + 4 * j, flow'))
    ensures Does(rest, word, oldPc, l, words, j, c, d, xs, 1, Exec(rest, word, l.destination + 4 * j, d).0)
  {
    hide KindOf, Exec, Same, Run;
  }

  lemma {:induction false} AddressSlot(rest: Rest, word: Word, oldPc: Addr, l: Layout, o: Options, words: seq<Word>, j: nat, ws: seq<Word>,
                    c: Core, d: Core, xs: set<nat>) returns (k: nat, d': Core)
    requires Slotted(word, oldPc, l, o, words, j, ws) && KindOf(word) == Address && Same(xs, c, d)
    ensures Does(rest, word, oldPc, l, words, j, c, d, xs, k, d')
  {
    hide Decode, KindOf, Same, TargetOf, SetX, Constant;
    TargetIsDecoded(word, oldPc);
    var t := TargetOf(word, oldPc).value;
    PadParts(words, j, ws, 4);
    k, d' := 4, SetX(d, word % 32, t);
    SameSet(xs, c, d, word % 32, t);
    ConstantRun(rest, words, l.destination, j, word % 32, t, d);
    AddressEffect(rest, word, oldPc, t, c);
  }

  lemma {:induction false} AddressEffect(rest: Rest, word: Word, pc: Addr, t: Addr, c: Core)
    requires Allocated(word) && KindOf(word) == Address && TargetOf(word, pc) == Ok(t)
    ensures Exec(rest, word, pc, c) == (SetX(c, word % 32, t), Fall)
  {
    KindAgrees(word);
    hide Decode, KindOf, SetX, TargetOf;
    TargetIsDecoded(word, pc);
  }

  lemma {:induction false} Done(rest: Rest, word: Word, oldPc: Addr, l: Layout, words: seq<Word>, j: nat, c: Core, d: Core, xs: set<nat>,
             k: nat, d': Core, pc': Addr)
    requires ValidLayout(l) && l.destination + 4 * j < 0x1_0000_0000_0000_0000 && k > 0
    requires Same(xs, Exec(rest, word, oldPc, c).0, d')
    requires FlowPc(l, j + SlotWords(KindOf(word)), Exec(rest, word, oldPc, c).1) == pc'
    requires Leads(rest, words, l.destination, k, d, l.destination + 4 * j, d', pc')
    ensures Does(rest, word, oldPc, l, words, j, c, d, xs, k, d')
  {
    hide KindOf, Exec, Same, Leads, FlowPc, ValidLayout;
  }

  // ------------------------------------------------------------- branches

  /** What a direct branch of any kind does: its target, and whether it is taken. */
  predicate Taken(word: Word, c: Core)
  {
    match Decode(word)
    case BCond(cond, _) => Holds(cond, c.flags)
    case CompareBranch(wide, nonzero, rt, _) => ((if wide then X(c, rt) else X(c, rt) % 0x1_0000_0000) != 0) == nonzero
    case TestBranch(bit, nonzero, rt, _) => BitSet(X(c, rt), bit) == nonzero
    case _ => true
  }

  predicate IsCond(word: Word) { KindOf(word).Conditional? || KindOf(word).Compare? || KindOf(word).Test? }

  lemma {:induction false} CondEffect(rest: Rest, word: Word, pc: Addr, t: Addr, c: Core)
    requires Allocated(word) && IsCond(word) && TargetOf(word, pc) == Ok(t)
    ensures Exec(rest, word, pc, c) == (c, if Taken(word, c) then To(t) else Fall)
  {
    KindAgrees(word);
    hide Decode, KindOf, TargetOf, X, BitSet, Holds;
    TargetIsDecoded(word, pc);
  }

  lemma {:induction false} BranchEffect(rest: Rest, word: Word, pc: Addr, t: Addr, c: Core)
    requires Allocated(word) && KindOf(word).Branch? && TargetOf(word, pc) == Ok(t)
    ensures var link := word / 0x8000_0000 == 1;
            && Decode(word).B? && Decode(word).link == link
            && Exec(rest, word, pc, c) == (if link then SetX(c, 30, Wrap(pc + 4)) else c, To(t))
  {
    KindAgrees(word);
    hide Decode, KindOf, TargetOf, SetX;
    TargetIsDecoded(word, pc);
  }

  /** The inverted branch: taken, it skips to the end of the slot; not taken, it falls through. */
  lemma {:induction false} InvertedEffect(rest: Rest, word: Word, pc: Addr, c: Core)
    requires Allocated(word) && IsCond(word) && !(KindOf(word).Conditional? && word % 16 >= 14) && pc + 24 < SPACE
    ensures Exec(rest, Inverted(word, KindOf(word)), pc, c) == (c, if Taken(word, c) then Fall else To(pc + 24))
  {
    hide Decode, KindOf, Inverted, X, BitSet, Holds;
    if KindOf(word).Conditional? {
      ConditionCode(word);
      InvertedCondition(word % 16, c.flags);
    }
    IsCondDecodes(word);
    DecodeInverted(word);
  }

  lemma {:induction false} IsCondDecodes(word: Word)
    requires Allocated(word) && IsCond(word)
    ensures Decode(word).BCond? <==> KindOf(word).Conditional?
  {
    hide Decode, KindOf;
    KindAgrees(word);
  }

  lemma {:induction false} ConditionCode(word: Word)
    requires KindOf(word).Conditional?
    ensures Decode(word).BCond? && Decode(word).cond == word % 16
  {
    hide Imm19;
  }

  /** AL and NV always branch. */
  lemma {:induction false} AlwaysTaken(word: Word, c: Core)
    requires KindOf(word).Conditional? && word % 16 >= 14
    ensures Taken(word, c)
  {
    hide Decode, KindOf;
    ConditionCode(word);
  }

  lemma {:induction false} TakenSame(rest: Rest, word: Word, xs: set<nat>, c: Core, d: Core)
    requires Same(xs, c, d) && Ignores(rest, word, xs) && Allocated(word) && IsCond(word)
    ensures Taken(word, c) == Taken(word, d)
  {
    KindAgrees(word);
    hide Decode, KindOf, BitSet, Holds, Exec;
  }

  /** The unpadded words of a branch slot. */
  lemma {:induction false} BranchBody(word: Word, oldPc: Addr, l: Layout, o: Options, words: seq<Word>, j: nat, ws: seq<Word>)
    requires Slotted(word, oldPc, l, o, words, j, ws)
    requires KindOf(word).Branch? || (KindOf(word).Conditional? && word % 16 >= 14)
    ensures ValidLayout(l) && Placed(words, l.destination) && l.destination + 4 * j + 4 < 0x1_0000_0000_0000_0000
    ensures TargetOf(word, oldPc).Ok? && 0 <= MapBranch(l, TargetOf(word, oldPc).value) < 0x1_0000_0000_0000_0000
    ensures o.scratch.Some? ==> o.scratch.value <= 30
    ensures BranchWords(l.destination + 4 * j, MapBranch(l, TargetOf(word, oldPc).value),
                        KindOf(word).Branch? && word / 0x8000_0000 == 1, o) == Ok(ws)
    ensures j + |ws| <= |words| && words[j..j + |ws|] == ws
  {
    hide KindOf, TargetOf, BranchWords;
    PadParts(words, j, ws, SlotWords(KindOf(word)));
  }

  lemma {:induction false} BranchSlot(rest: Rest, word: Word, oldPc: Addr, l: Layout, o: Options, words: seq<Word>, j: nat, ws: seq<Word>,
                   c: Core, d: Core, xs: set<nat>) returns (k: nat, d': Core)
    requires Slotted(word, oldPc, l, o, words, j, ws) && KindOf(word).Branch? && Same(xs, c, d)
    requires o.scratch.Some? ==> o.scratch.value in xs
    requires Decode(word).B? && Decode(word).link ==> 30 in xs
    ensures Does(rest, word, oldPc, l, words, j, c, d, xs, k, d')
    ensures Decode(word).B? && Decode(word).link ==> d'.x[30] == l.destination + 4 * (j + |ws|)
  {
    hide *;
    BranchBody(word, oldPc, l, o, words, j, ws);
    var t := TargetOf(word, oldPc).value;
    AllocatedSlot(word, oldPc, l, o, words, j, ws);
    BranchEffect(rest, word, oldPc, t, c);
    var link := word / 0x8000_0000 == 1;
    k, d' := BranchRun(rest, words, l.destination, j, MapBranch(l, t), link, o, ws, d, xs);
    if link { LinkOnly(xs, c, d, d', Wrap(oldPc + 4)); } else { SameTrans(xs, c, d, d'); }
    FlowToMapped(l, j + SlotWords(KindOf(word)), t);
    Done(rest, word, oldPc, l, words, j, c, d, xs, k, d', MapBranch(l, t));
  }

  lemma {:induction false} AllocatedSlot(word: Word, oldPc: Addr, l: Layout, o: Options, words: seq<Word>, j: nat, ws: seq<Word>)
    requires Slotted(word, oldPc, l, o, words, j, ws)
    ensures Allocated(word) && ValidLayout(l) && Placed(words, l.destination)
    ensures l.destination + 4 * (j + SlotWords(KindOf(word))) < 0x1_0000_0000_0000_0000
    ensures j + SlotWords(KindOf(word)) <= |words|
  {
  }

  lemma {:induction false} LinkOnly(xs: set<nat>, c: Core, d: Core, d': Core, v: Addr)
    requires Same(xs, c, d) && Same(xs, d, d') && 30 in xs
    ensures Same(xs, SetX(c, 30, v), d')
  {
  }

  lemma {:induction false} FlowToMapped(l: Layout, end: int, t: Addr)
    requires ValidLayout(l)
    ensures FlowPc(l, end, To(t)) == MapBranch(l, t)
    ensures FlowPc(l, end, Fall) == l.destination + 4 * end
  {
  }

  lemma {:induction false} AlwaysSlot(rest: Rest, word: Word, oldPc: Addr, l: Layout, o: Options, words: seq<Word>, j: nat, ws: seq<Word>,
                   c: Core, d: Core, xs: set<nat>) returns (k: nat, d': Core)
    requires Slotted(word, oldPc, l, o, words, j, ws) && KindOf(word).Conditional? && word % 16 >= 14 && Same(xs, c, d)
    requires o.scratch.Some? ==> o.scratch.value in xs
    ensures Does(rest, word, oldPc, l, words, j, c, d, xs, k, d')
  {
    hide *;
    BranchBody(word, oldPc, l, o, words, j, ws);
    var t := TargetOf(word, oldPc).value;
    AllocatedSlot(word, oldPc, l, o, words, j, ws);
    KindIsCond(word);
    CondEffect(rest, word, oldPc, t, c);
    AlwaysTaken(word, c);
    k, d' := BranchRun(rest, words, l.destination, j, MapBranch(l, t), false, o, ws, d, xs);
    SameTrans(xs, c, d, d');
    FlowToMapped(l, j + SlotWords(KindOf(word)), t);
    Done(rest, word, oldPc, l, words, j, c, d, xs, k, d', MapBranch(l, t));
  }

  lemma {:induction false} KindIsCond(word: Word)
    ensures IsCond(word) <==> KindOf(word).Conditional? || KindOf(word).Compare? || KindOf(word).Test?
    ensures IsCond(word) ==> SlotWords(KindOf(word)) == 6
  {
    hide KindOf;
  }

  lemma {:induction false} CondBody(word: Word, oldPc: Addr, l: Layout, o: Options, words: seq<Word>, j: nat, ws: seq<Word>)
    requires Slotted(word, oldPc, l, o, words, j, ws)
    requires IsCond(word) && !(KindOf(word).Conditional? && word % 16 >= 14)
    ensures ValidLayout(l) && Placed(words, l.destination) && l.destination + 4 * j + 4 < 0x1_0000_0000_0000_0000
    ensures TargetOf(word, oldPc).Ok? && 0 <= MapBranch(l, TargetOf(word, oldPc).value) < 0x1_0000_0000_0000_0000
    ensures o.scratch.Some? ==> o.scratch.value <= 30
    ensures ws != [] && words[j] == Inverted(word, KindOf(word))
    ensures BranchWords(l.destination + 4 * (j + 1), MapBranch(l, TargetOf(word, oldPc).value), false, o) == Ok(ws[1..])
    ensures j + 1 + |ws[1..]| <= |words| && words[j + 1..j + 1 + |ws[1..]|] == ws[1..]
  {
    hide KindOf, TargetOf, BranchWords, Inverted;
    PadParts(words, j, ws, SlotWords(KindOf(word)));
    assert words[j..j + |ws|][1..] == words[j + 1..j + |ws|];
    assert words[j] == ws[0];
  }

  lemma {:induction false} CondSlot(rest: Rest, word: Word, oldPc: Addr, l: Layout, o: Options, words: seq<Word>, j: nat, ws: seq<Word>,
                 c: Core, d: Core, xs: set<nat>) returns (k: nat, d': Core)
    requires Slotted(word, oldPc, l, o, words, j, ws) && Same(xs, c, d) && Ignores(rest, word, xs)
    requires IsCond(word) && !(KindOf(word).Conditional? && word % 16 >= 14)
    requires o.scratch.Some? ==> o.scratch.value in xs
    ensures Does(rest, word, oldPc, l, words, j, c, d, xs, k, d')
  {
    hide *;
    KindIsCond(word);
    CondBody(word, oldPc, l, o, words, j, ws);
    var t := TargetOf(word, oldPc).value;
    AllocatedSlot(word, oldPc, l, o, words, j, ws);
    KindIsCond(word);
    CondEffect(rest, word, oldPc, t, c);
    TakenSame(rest, word, xs, c, d);
    var pc := l.destination + 4 * j;
    InvertedStep(rest, words, l.destination, j, word, d);
    FlowToMapped(l, j + 6, t);
    if Taken(word, c) {
      var m, e := BranchRun(rest, words, l.destination, j + 1, MapBranch(l, t), false, o, ws[1..], d, xs);
      Then(rest, words, l.destination, 1, m, d, pc, d, l.destination + 4 * (j + 1), e, MapBranch(l, t));
      k, d' := 1 + m, e;
      SameTrans(xs, c, d, d');
      Done(rest, word, oldPc, l, words, j, c, d, xs, k, d', MapBranch(l, t));
    } else {
      k, d' := 1, d;
      Done(rest, word, oldPc, l, words, j, c, d, xs, k, d', l.destination + 4 * (j + 6));
    }
  }

  lemma {:induction false} InvertedStep(rest: Rest, words: seq<Word>, base: Addr, j: nat, word: Word, d: Core)
    requires Allocated(word) && IsCond(word) && !(KindOf(word).Conditional? && word % 16 >= 14)
    requires Placed(words, base) && j + 6 <= |words| && words[j] == Inverted(word, KindOf(word))
    ensures base + 4 * (j + 6) < 0x1_0000_0000_0000_0000
    ensures Leads(rest, words, base, 1, d, base + 4 * j, d, base + 4 * (if Taken(word, d) then j + 1 else j + 6))
  {
    hide Inverted, KindOf, Exec, Taken, Run;
    InvertedEffect(rest, word, base + 4 * j, d);
    OneStep(rest, words, base, j, d);
  }

  // ------------------------------------------------------------- literals

  lemma {:induction false} LiteralBody(word: Word, oldPc: Addr, l: Layout, o: Options, words: seq<Word>, j: nat, ws: seq<Word>)
    requires Slotted(word, oldPc, l, o, words, j, ws) && KindOf(word).Literal?
    ensures ValidLayout(l) && Placed(words, l.destination) && l.destination + 4 * j + 4 < 0x1_0000_0000_0000_0000
    ensures TargetOf(word, oldPc).Ok?
    ensures o.scratch.Some? ==> o.scratch.value <= 30
    ensures LiteralWords(word, l.destination + 4 * j, TargetOf(word, oldPc).value, o) == Ok(ws)
    ensures SlotWords(KindOf(word)) == 5 && j + 5 <= |words| && |ws| <= 5 && words[j..j + |ws|] == ws
    ensures forall t :: j + |ws| <= t < j + 5 ==> words[t] == NOP
  {
    hide KindOf, TargetOf, LiteralWords;
    PadParts(words, j, ws, 5);
  }

  lemma {:induction false} LiteralEffect(rest: Rest, word: Word, pc: Addr, t: Addr, c: Core)
    requires Allocated(word) && KindOf(word).Literal? && TargetOf(word, pc) == Ok(t)
    ensures Decode(word).LoadLiteral?
    ensures Exec(rest, word, pc, c) == (DoLoad(c, Decode(word).load, word % 32, t), Fall)
  {
    KindAgrees(word);
    hide Decode, KindOf, TargetOf, DoLoad;
    TargetIsDecoded(word, pc);
  }

  lemma {:induction false} LiteralSlot(rest: Rest, word: Word, oldPc: Addr, l: Layout, o: Options, words: seq<Word>, j: nat, ws: seq<Word>,
                    c: Core, d: Core, xs: set<nat>) returns (k: nat, d': Core)
    requires Slotted(word, oldPc, l, o, words, j, ws) && KindOf(word).Literal? && Same(xs, c, d)
    requires o.scratch.Some? ==> o.scratch.value in xs
    ensures Does(rest, word, oldPc, l, words, j, c, d, xs, k, d')
  {
    hide *;
    LiteralBody(word, oldPc, l, o, words, j, ws);
    AllocatedSlot(word, oldPc, l, o, words, j, ws);
    var t := TargetOf(word, oldPc).value;
    LiteralEffect(rest, word, oldPc, t, c);
    d' := LiteralRun(rest, words, l.destination, j, word, t, o, ws, d, xs);
    k := 5;
    SameLoad(xs, c, d, Decode(word).load, word % 32, t);
    SameTrans(xs, DoLoad(c, Decode(word).load, word % 32, t), DoLoad(d, Decode(word).load, word % 32, t), d');
    FlowToMapped(l, j + 5, t);
    Done(rest, word, oldPc, l, words, j, c, d, xs, k, d', l.destination + 4 * (j + 5));
  }

  lemma {:induction false} LiteralRun(rest: Rest, words: seq<Word>, base: Addr, j: nat, word: Word, t: Addr, o: Options, ws: seq<Word>,
                   d: Core, xs: set<nat>) returns (d': Core)
    requires Placed(words, base) && j + 5 <= |words| && |ws| <= 5 && words[j..j + |ws|] == ws
    requires Allocated(word) && KindOf(word).Literal? && Decode(word).LoadLiteral?
    requires o.scratch.Some? ==> o.scratch.value <= 30 && o.scratch.value in xs
    requires LiteralWords(word, base + 4 * j, t, o) == Ok(ws)
    requires forall n :: j + |ws| <= n < j + 5 ==> words[n] == NOP
    ensures base + 4 * (j + 5) < 0x1_0000_0000_0000_0000
    ensures Leads(rest, words, base, 5, d, base + 4 * j, d', base + 4 * (j + 5))
    ensures Same(xs, DoLoad(d, Decode(word).load, word % 32, t), d')
  {
    hide *;
    LiteralShape(words, base, j, word, t, o, ws);
    PlacedBelow(words, base, j + 5);
    PlacedBelow(words, base, j + 1);
    PlacedBelow(words, base, j + 4);
    var load, rt := Decode(word).load, word % 32;
    if |ws| == 1 {
      d' := DoLoad(d, load, rt, t);
      NearLoadStep(rest, words, base, j, word, t, d);
      NopRun(rest, words, base, j + 1, 4, d');
      Then(rest, words, base, 1, 4, d, base + 4 * j, d', base + 4 * (j + 1), d', base + 4 * (j + 5));
      SameSelf(xs, d');
    } else {
      var reg := LiteralReg(word, o).value;
      var e := SetX(d, reg, t);
      d' := DoLoad(e, load, rt, t);
      ConstantRun(rest, words, base, j, reg, t, d);
      FarLoadStep(rest, words, base, j + 4, word, reg, t, d);
      Then(rest, words, base, 4, 1, d, base + 4 * j, e, base + 4 * (j + 4), d', base + 4 * (j + 5));
      FarLoadSame(xs, word, o, d, t);
    }
  }

  lemma {:induction false} SameSelf(xs: set<nat>, d: Core)
    ensures Same(xs, d, d)
  {
  }

  lemma {:induction false} LiteralShape(words: seq<Word>, base: Addr, j: nat, word: Word, t: Addr, o: Options, ws: seq<Word>)
    requires Placed(words, base) && j + 5 <= |words| && |ws| <= 5 && words[j..j + |ws|] == ws
    requires KindOf(word).Literal?
    requires o.scratch.Some? ==> o.scratch.value <= 30
    requires LiteralWords(word, base + 4 * j, t, o) == Ok(ws)
    ensures |ws| == 1 || |ws| == 5
    ensures |ws| == 1 ==> Relative(base + 4 * j, t, 19).Some? && words[j] == NearLoad(word, Relative(base + 4 * j, t, 19).value)
    ensures |ws| == 5 ==> && LiteralReg(word, o).Some? && LiteralReg(word, o).value < 31
                          && words[j..j + 4] == Constant(LiteralReg(word, o).value, t)
                          && words[j + 4] == FarLoad(word, LiteralReg(word, o).value)
  {
    hide KindOf, Relative, NearLoad, FarLoad, Constant, Vector;
    if |ws| == 1 {
      assert words[j..j + 1][0] == words[j];
    } else {
      assert words[j..j + 5][..4] == words[j..j + 4];
      assert words[j..j + 5][4] == words[j + 4];
    }
  }

  lemma {:induction false} NearLoadStep(rest: Rest, words: seq<Word>, base: Addr, j: nat, word: Word, t: Addr, d: Core)
    requires Placed(words, base) && j < |words| && Allocated(word) && KindOf(word).Literal? && Decode(word).LoadLiteral?
    requires Relative(base + 4 * j, t, 19).Some? && words[j] == NearLoad(word, Relative(base + 4 * j, t, 19).value)
    ensures base + 4 * (j + 1) < 0x1_0000_0000_0000_0000
    ensures Leads(rest, words, base, 1, d, base + 4 * j, DoLoad(d, Decode(word).load, word % 32, t), base + 4 * (j + 1))
  {
    hide Decode, KindOf, NearLoad, Relative, DoLoad, Run, Leads;
    var rel := Relative(base + 4 * j, t, 19).value;
    RelativeExact(base + 4 * j, t, 19);
    SignedFieldIsSigned(rel, 19);
    DecodeNearLoad(word, rel);
    FallStep(rest, words, base, j, d, DoLoad(d, Decode(word).load, word % 32, t));
  }

  lemma {:induction false} FarLoadStep(rest: Rest, words: seq<Word>, base: Addr, j: nat, word: Word, reg: Reg, t: Addr, d: Core)
    requires Placed(words, base) && j < |words| && Allocated(word) && KindOf(word).Literal? && Decode(word).LoadLiteral?
    requires reg < 31 && words[j] == FarLoad(word, reg)
    ensures base + 4 * (j + 1) < 0x1_0000_0000_0000_0000
    ensures var e := SetX(d, reg, t);
            Leads(rest, words, base, 1, e, base + 4 * j, DoLoad(e, Decode(word).load, word % 32, t), base + 4 * (j + 1))
  {
    hide Decode, KindOf, FarLoad, DoLoad, Run, Leads;
    DecodeFarLoad(word, reg);
    var e := SetX(d, reg, t);
    FallStep(rest, words, base, j, e, DoLoad(e, Decode(word).load, word % 32, t));
  }

  lemma {:induction false} FarLoadSame(xs: set<nat>, word: Word, o: Options, d: Core, t: Addr)
    requires Allocated(word) && KindOf(word).Literal? && Decode(word).LoadLiteral?
    requires o.scratch.Some? ==> o.scratch.value <= 30 && o.scratch.value in xs
    requires LiteralReg(word, o).Some?
    ensures LiteralReg(word, o).value < 31
    ensures Same(xs, DoLoad(d, Decode(word).load, word % 32, t),
                 DoLoad(SetX(d, LiteralReg(word, o).value, t), Decode(word).load, word % 32, t))
  {
    LiteralDecodes(word);
    hide Decode, KindOf, DoLoad, SetX, Same, Vector;
    var reg := LiteralReg(word, o).value;
    if !Vector(word) && word / 0x4000_0000 < 3 && word % 32 != 31 {
      LoadOverwrites(d, Decode(word).load, word % 32, t, t);
      SameSelf(xs, DoLoad(d, Decode(word).load, word % 32, t));
    } else {
      SameScratch(xs, d, reg, t);
      SameLoad(xs, d, SetX(d, reg, t), Decode(word).load, word % 32, t);
    }
  }

  lemma {:induction false} LiteralDecodes(word: Word)
    requires Allocated(word) && KindOf(word).Literal?
    ensures !(Vector(word) && word / 0x4000_0000 == 3)
    ensures Decode(word).LoadLiteral? && Decode(word).load == LiteralLoad(word / 0x4000_0000, Vector(word))
  {
    hide Imm19, Signed;
  }
}
