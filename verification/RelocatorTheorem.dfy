/**
  The results about whole relocations: every run of the source block has a counterpart in the relocated
  code, slots tile the output, and calls come back.
 */
module RelocatorTheorem {
  import opened Memory
  import opened Arm64
  import opened Relocator
  import opened RelocatorEncoding
  import opened RelocatorMeaning
  import opened RelocatorSimulation
  import opened RelocatorSlots

  /** The relocated address that corresponds to a place of the source run. */
  function PlaceOf(r: Relocated, destination: Addr, w: Where): int
    requires w.Inside? ==> w.i < |r.offsets|
  {
    match w
    case Inside(i) => destination + r.offsets[i]
    case Past => destination + |r.bytes|
    case Away(a) => a
  }

  // -------------------------------------------------------- one instruction

  lemma {:induction false} SlotIsSlotted(code: seq<Byte>, l: Layout, o: Options, words: seq<Word>, i: nat)
      returns (ws: seq<Word>)
    requires Moved(code, l, o, words) && i < l.count && BlockAllocated(code)
    ensures 4 * i + 4 <= |code| && l.source + 4 * i < 0x1_0000_0000_0000_0000
    ensures Slotted(CodeWord(code, i), l.source + 4 * i, l, o, words, l.starts[i], ws)
  {
    hide KindOf, SlotWords, Body, WordAt, Emitted, StartOf, Allocated;
    SlotHolds(code, l, o, words, i);
    ws := Body(CodeWord(code, i), l.source + 4 * i, l.destination + 4 * l.starts[i], l, o).value;
  }

  lemma {:induction false} SlotDoes(rest: Rest, word: Word, oldPc: Addr, l: Layout, o: Options, words: seq<Word>, j: nat, ws: seq<Word>,
                 c: Core, d: Core, xs: set<nat>) returns (k: nat, d': Core)
    requires Slotted(word, oldPc, l, o, words, j, ws) && Same(xs, c, d) && Ignores(rest, word, xs)
    requires o.scratch.Some? ==> o.scratch.value in xs
    requires Decode(word).B? && Decode(word).link ==> 30 in xs
    ensures Does(rest, word, oldPc, l, words, j, c, d, xs, k, d')
    ensures l.destination + 4 * (j + SlotWords(KindOf(word))) < 0x1_0000_0000_0000_0000
    ensures Decode(word).B? && Decode(word).link ==>
              ReturnsTo(rest, words, l.destination, l.destination + 4 * (j + SlotWords(KindOf(word))), d'.x[30])
  {
    hide *;
    KindIsCond(word);
    AllocatedSlot(word, oldPc, l, o, words, j, ws);
    BranchKind(word);
    var kind := KindOf(word);
    if kind == Copy {
      k, d' := CopySlot(rest, word, oldPc, l, o, words, j, ws, c, d, xs);
    } else if kind == Address {
      k, d' := AddressSlot(rest, word, oldPc, l, o, words, j, ws, c, d, xs);
    } else if kind == Literal {
      k, d' := LiteralSlot(rest, word, oldPc, l, o, words, j, ws, c, d, xs);
    } else if kind == Branch {
      k, d' := BranchSlot(rest, word, oldPc, l, o, words, j, ws, c, d, xs);
      if Decode(word).link { LinkReturns(rest, word, oldPc, l, o, words, j, ws, d'.x[30]); }
    } else if kind == Conditional && word % 16 >= 14 {
      k, d' := AlwaysSlot(rest, word, oldPc, l, o, words, j, ws, c, d, xs);
    } else {
      k, d' := CondSlot(rest, word, oldPc, l, o, words, j, ws, c, d, xs);
    }
  }

  lemma {:induction false} BranchKind(word: Word)
    requires Allocated(word)
    ensures KindOf(word).Branch? <==> Decode(word).B?
  {
    hide Decode, KindOf;
    KindAgrees(word);
  }

  /** `m` steps from `link` reach `end` and change nothing. */
  ghost predicate Coasts(rest: Rest, words: seq<Word>, base: Addr, m: nat, link: Addr, end: Addr, e: Core)
  {
    Leads(rest, words, base, m, e, link, e, end)
  }

  ghost predicate CoastsAlways(rest: Rest, words: seq<Word>, base: Addr, m: nat, link: Addr, end: Addr)
  {
    forall e: Core :: Coasts(rest, words, base, m, link, end, e)
  }

  /** A return to `link` reaches the end of the slot with everything unchanged. */
  ghost predicate ReturnsTo(rest: Rest, words: seq<Word>, base: Addr, end: Addr, link: Addr)
  {
    exists m: nat :: CoastsAlways(rest, words, base, m, link, end)
  }

  lemma {:induction false} LinkReturns(rest: Rest, word: Word, oldPc: Addr, l: Layout, o: Options, words: seq<Word>, j: nat, ws: seq<Word>, link: Addr)
    requires Slotted(word, oldPc, l, o, words, j, ws)
    requires link == l.destination + 4 * (j + |ws|)
    ensures l.destination + 4 * (j + SlotWords(KindOf(word))) < 0x1_0000_0000_0000_0000
    ensures ReturnsTo(rest, words, l.destination, l.destination + 4 * (j + SlotWords(KindOf(word))), link)
  {
    hide KindOf, Leads, Body;
    var n := SlotWords(KindOf(word));
    PadParts(words, j, ws, n);
    var m, end, base := n - |ws|, l.destination + 4 * (j + n), l.destination;
    forall e: Core ensures Coasts(rest, words, base, m, link, end, e) {
      NopRun(rest, words, base, j + |ws|, m, e);
      assert j + |ws| + m == j + n;
    }
    assert CoastsAlways(rest, words, base, m, link, end);
  }

  // ------------------------------------------------------------ whole runs

  /** `k` steps from `d` at the slot of instruction `i` correspond to the source step from `c`. */
  ghost predicate StepMatches(rest: Rest, code: seq<Byte>, l: Layout, words: seq<Word>, i: nat, c: Core, d: Core, xs: set<nat>,
                              k: nat, d': Core)
    requires ValidLayout(l) && |code| == 4 * l.count && i < l.count
  {
    var (c', w) := SourceStep(rest, code, l.source, i, c);
    && k > 0 && Same(xs, c', d')
    && Leads(rest, words, l.destination, k, d, TargetPc(l, Inside(i)), d', TargetPc(l, w))
  }

  /** One source step and its relocated slot. */
  lemma {:induction false} StepMoves(rest: Rest, code: seq<Byte>, l: Layout, o: Options, words: seq<Word>, i: nat, c: Core, d: Core, xs: set<nat>)
      returns (k: nat, d': Core)
    requires ValidLayout(l) && |code| == 4 * l.count && i < l.count
    requires Moved(code, l, o, words) && BlockAllocated(code) && BlockIgnores(rest, code, xs)
    requires MayChange(code, o, xs) && Same(xs, c, d)
    ensures StepMatches(rest, code, l, words, i, c, d, xs, k, d')
  {
    hide *;
    var ws := SlotIsSlotted(code, l, o, words, i);
    StepFacts(rest, code, l, o, words, i, xs);
    var word, j, oldPc := CodeWord(code, i), l.starts[i], l.source + 4 * i;
    k, d' := SlotDoes(rest, word, oldPc, l, o, words, j, ws, c, d, xs);
    StepLands(rest, code, l, o, words, i, c, d, xs, k, d');
  }

  lemma {:induction false} StepFacts(rest: Rest, code: seq<Byte>, l: Layout, o: Options, words: seq<Word>, i: nat, xs: set<nat>)
    requires Moved(code, l, o, words) && i < l.count && BlockIgnores(rest, code, xs) && MayChange(code, o, xs)
    ensures i < |l.starts| && ValidLayout(l) && |code| == 4 * l.count && l.source + |code| < SPACE
    ensures 4 * i + 4 <= |code| && l.source + 4 * i < 0x1_0000_0000_0000_0000
    ensures Ignores(rest, CodeWord(code, i), xs)
    ensures o.scratch.Some? ==> o.scratch.value in xs
    ensures Decode(CodeWord(code, i)).B? && Decode(CodeWord(code, i)).link ==> 30 in xs
  {
    hide Decode, WordAt, Ignores, Emitted;
  }

  lemma {:induction false} StepLands(rest: Rest, code: seq<Byte>, l: Layout, o: Options, words: seq<Word>, i: nat, c: Core, d: Core, xs: set<nat>,
                  k: nat, d': Core)
    requires ValidLayout(l) && |code| == 4 * l.count && i < l.count
    requires 4 * i + 4 <= |code| && l.source + 4 * i < 0x1_0000_0000_0000_0000 && Moved(code, l, o, words)
    requires Does(rest, CodeWord(code, i), l.source + 4 * i, l, words, l.starts[i], c, d, xs, k, d')
    ensures StepMatches(rest, code, l, words, i, c, d, xs, k, d')
  {
    hide Exec, KindOf, SlotWords, FlowPc, Leads, Same, WordAt, Land, SourceStep, TargetPc, Moved, Does, MapBranch;
    LandsOnFlow(code, l, o, words, i, Exec(rest, CodeWord(code, i), l.source + 4 * i, c).1);
    StepIsLand(rest, code, l.source, i, c);
    DoesLeads(rest, CodeWord(code, i), l.source + 4 * i, l, words, i, c, d, xs, k, d');
  }

  lemma {:induction false} StepIsLand(rest: Rest, code: seq<Byte>, source: Addr, i: nat, c: Core)
    requires |code| % 4 == 0 && 4 * i + 4 <= |code| && source + |code| < 0x1_0000_0000_0000_0000
    ensures source + 4 * i < 0x1_0000_0000_0000_0000
    ensures var (c', flow) := Exec(rest, CodeWord(code, i), source + 4 * i, c);
            SourceStep(rest, code, source, i, c) == (c', Land(code, source, i, flow))
  {
    hide Exec, CodeWord, Decode, Land;
  }

  lemma {:induction false} DoesLeads(rest: Rest, word: Word, oldPc: Addr, l: Layout, words: seq<Word>, i: nat, c: Core, d: Core, xs: set<nat>,
                  k: nat, d': Core)
    requires ValidLayout(l) && i < l.count
    requires Does(rest, word, oldPc, l, words, l.starts[i], c, d, xs, k, d')
    ensures var (c', flow) := Exec(rest, word, oldPc, c);
            var end := FlowPc(l, l.starts[i] + SlotWords(KindOf(word)), flow);
            && k > 0 && Same(xs, c', d') && 0 <= end < 0x1_0000_0000_0000_0000
            && Leads(rest, words, l.destination, k, d, TargetPc(l, Inside(i)), d', end)
  {
    hide Exec, KindOf, SlotWords, FlowPc, Leads, Same;
  }

  /** Landing in the source and flowing in the relocated program agree. */
  lemma {:induction false} LandsOnFlow(code: seq<Byte>, l: Layout, o: Options, words: seq<Word>, i: nat, flow: Flow)
    requires Moved(code, l, o, words) && i < l.count && ValidLayout(l) && |code| == 4 * l.count && |code| % 4 == 0
    ensures 4 * i + 4 <= |code|
    ensures var w := Land(code, l.source, i, flow);
            && (w.Inside? ==> w.i < l.count)
            && TargetPc(l, w) == FlowPc(l, l.starts[i] + SlotWords(KindOf(CodeWord(code, i))), flow)
  {
    hide KindOf, SlotWords, Body, WordAt, Emitted, StartOf, Moved;
    if flow.Fall? { SlotHolds(code, l, o, words, i); }
  }

  lemma {:induction false} RunMoves(rest: Rest, code: seq<Byte>, l: Layout, o: Options, words: seq<Word>, i: nat, c: Core, d: Core,
                                    xs: set<nat>, n: nat)
      returns (k: nat, d': Core)
    requires ValidLayout(l) && |code| == 4 * l.count && i < l.count
    requires Moved(code, l, o, words) && BlockAllocated(code) && BlockIgnores(rest, code, xs)
    requires MayChange(code, o, xs) && Same(xs, c, d)
    ensures 4 * i + 4 <= |code| && |code| % 4 == 0 && l.source + |code| < SPACE && ValidLayout(l)
    ensures var (c', w) := SourceRun(rest, code, l.source, i, c, n);
            && (w.Inside? ==> w.i < l.count && n <= k)
            && Same(xs, c', d')
            && Leads(rest, words, l.destination, k, d, TargetPc(l, Inside(i)), d', TargetPc(l, w))
    decreases n
  {
    hide Same, SourceStep, BlockAllocated, BlockIgnores, MayChange, Emitted, StartOf, Leads;
    if n == 0 {
      k, d' := 0, d;
      StandStill(rest, words, l, i, d);
    } else {
      var (c1, w) := SourceStep(rest, code, l.source, i, c);
      var k1, d1 := StepMoves(rest, code, l, o, words, i, c, d, xs);
      assert |code| % 4 == 0 && 4 * i + 4 <= |code|;
      if w.Inside? {
        var k2;
        k2, d' := RunMoves(rest, code, l, o, words, w.i, c1, d1, xs, n - 1);
        k := k1 + k2;
        var (_, w2) := SourceRun(rest, code, l.source, w.i, c1, n - 1);
        Then(rest, words, l.destination, k1, k2, d, TargetPc(l, Inside(i)), d1, TargetPc(l, w), d', TargetPc(l, w2));
      } else {
        k, d' := k1, d1;
      }
    }
  }

  lemma {:induction false} StandStill(rest: Rest, words: seq<Word>, l: Layout, i: nat, d: Core)
    requires ValidLayout(l) && i < l.count
    ensures Leads(rest, words, l.destination, 0, d, TargetPc(l, Inside(i)), d, TargetPc(l, Inside(i)))
  {
  }

  // ------------------------------------------------------- the main results

  /** A run of the relocated code from instruction `i` that ends where the source run `end` ends. */
  ghost predicate Follows(rest: Rest, r: Relocated, destination: Addr, i: nat, d: Core, xs: set<nat>,
                          end: (Core, Where), k: nat, d': Core)
  {
    && i < |r.offsets| && (end.1.Inside? ==> end.1.i < |r.offsets|)
    && 0 <= destination + r.offsets[i] < 0x1_0000_0000_0000_0000
    && Same(xs, end.0, d')
    && TargetRun(rest, r.bytes, destination, k, d, destination + r.offsets[i]) == (d', PlaceOf(r, destination, end.1))
  }

  /** Some relocated run follows the source run; while the source run is inside the block, the
      relocated one has taken at least as many steps. */
  ghost predicate HasCounterpart(rest: Rest, r: Relocated, destination: Addr, i: nat, d: Core, xs: set<nat>,
                                 end: (Core, Where), n: nat)
  {
    exists k: nat, d' :: (end.1.Inside? ==> n <= k) && Follows(rest, r, destination, i, d, xs, end, k, d')
  }

  /** What a successful relocation to another address produced. */
  lemma {:induction false} RelocatedIsMoved(code: seq<Byte>, source: Addr, destination: Addr, o: Options, r: Relocated)
      returns (l: Layout, words: seq<Word>)
    requires source != destination && RelocatedCode(code, source, destination, o, true) == Ok(r)
    ensures ValidLayout(l) && |code| == 4 * l.count && l.count > 0 && l.source == source && l.destination == destination
    ensures Moved(code, l, o, words)
    ensures r.bytes == Flatten(words) && |r.bytes| == 4 * l.size
    ensures |r.offsets| == l.count && forall i :: 0 <= i < l.count ==> r.offsets[i] == 4 * l.starts[i]
  {
    hide Emitted, StartOf;
    LayoutIsValid(code, source, destination, o, true);
    l := LayoutOf(code, source, destination);
    words := Emitted(code, l, o, l.count).value;
  }

  /** Relocation preserves meaning. Take any run of the source block, of any length, from any of
      its instructions, and a state of the relocated program equal to its start except in the
      registers relocation may change. Then the relocated program has a run that ends in the
      corresponding place with everything equal except those registers, provided the block does
      not let them influence anything else. */
  lemma {:induction false} RelocationPreservesRuns(rest: Rest, code: seq<Byte>, source: Addr, destination: Addr, o: Options, r: Relocated,
                                xs: set<nat>, i: nat, c: Core, d: Core, n: nat)
    requires RelocatedCode(code, source, destination, o, true) == Ok(r)
    requires BlockAllocated(code) && MayChange(code, o, xs) && BlockIgnores(rest, code, xs)
    requires 4 * i + 4 <= |code| && Same(xs, c, d)
    ensures |code| % 4 == 0 && source + |code| < SPACE
    ensures HasCounterpart(rest, r, destination, i, d, xs, SourceRun(rest, code, source, i, c, n), n)
  {
    hide *;
    RelocatedBounds(code, source, destination, o, r);
    if source == destination {
      UnmovedRuns(rest, code, source, xs, i, c, d, n);
      UnmovedFollows(rest, code, source, o, r, i, d, xs, SourceRun(rest, code, source, i, c, n), n);
    } else {
      MovedFollows(rest, code, source, destination, o, r, xs, i, c, d, n);
    }
  }

  lemma {:induction false} RelocatedBounds(code: seq<Byte>, source: Addr, destination: Addr, o: Options, r: Relocated)
    requires RelocatedCode(code, source, destination, o, true) == Ok(r)
    ensures |code| % 4 == 0 && source % 4 == 0 && source + |code| < SPACE
    ensures source + |code| < 0x1_0000_0000_0000_0000 && |r.offsets| == |code| / 4
  {
    hide Emitted, StartOf, Flatten;
  }

  lemma {:induction false} MovedFollows(rest: Rest, code: seq<Byte>, source: Addr, destination: Addr, o: Options, r: Relocated,
                     xs: set<nat>, i: nat, c: Core, d: Core, n: nat)
    requires |code| % 4 == 0 && source + |code| < SPACE
    requires source != destination && RelocatedCode(code, source, destination, o, true) == Ok(r)
    requires BlockAllocated(code) && MayChange(code, o, xs) && BlockIgnores(rest, code, xs)
    requires 4 * i + 4 <= |code| && Same(xs, c, d)
    ensures HasCounterpart(rest, r, destination, i, d, xs, SourceRun(rest, code, source, i, c, n), n)
  {
    hide Emitted, StartOf, BlockAllocated, MayChange, BlockIgnores, Same, RelocatedCode, SourceRun, Moved, TargetRun;
    var l, words := RelocatedIsMoved(code, source, destination, o, r);
    var k, d' := RunMoves(rest, code, l, o, words, i, c, d, xs, n);
    assert Follows(rest, r, destination, i, d, xs, SourceRun(rest, code, source, i, c, n), k, d');
  }

  lemma {:induction false} UnmovedFollows(rest: Rest, code: seq<Byte>, source: Addr, o: Options, r: Relocated, i: nat, d: Core, xs: set<nat>,
                       end: (Core, Where), n: nat)
    requires RelocatedCode(code, source, source, o, true) == Ok(r)
    requires HasMirror(rest, code, source, i, d, xs, end, n)
    ensures HasCounterpart(rest, r, source, i, d, xs, end, n)
  {
    hide Mirrors, Follows, RelocatedCode;
    var k: nat, d' :| (end.1.Inside? ==> n <= k) && Mirrors(rest, code, source, i, d, xs, end, k, d');
    MirrorFollows(rest, code, source, o, r, i, d, xs, end, k, d');
  }

  lemma {:induction false} MirrorFollows(rest: Rest, code: seq<Byte>, source: Addr, o: Options, r: Relocated, i: nat, d: Core, xs: set<nat>,
                      end: (Core, Where), k: nat, d': Core)
    requires RelocatedCode(code, source, source, o, true) == Ok(r) && Mirrors(rest, code, source, i, d, xs, end, k, d')
    ensures Follows(rest, r, source, i, d, xs, end, k, d')
  {
    hide Same, TargetRun, RelocatedCode;
    UnmovedPlaces(code, source, o, r);
  }

  /** Relocating a block to where it already is copies it. */
  ghost predicate Mirrors(rest: Rest, code: seq<Byte>, source: Addr, i: nat, d: Core, xs: set<nat>,
                          end: (Core, Where), k: nat, d': Core)
  {
    && source + |code| < SPACE && 4 * i + 4 <= |code| && (end.1.Inside? ==> 4 * end.1.i + 4 <= |code|)
    && Same(xs, end.0, d')
    && TargetRun(rest, code, source, k, d, source + 4 * i) ==
       (d', match end.1 case Inside(j) => source + 4 * j case Past => source + |code| case Away(a) => a)
  }

  ghost predicate HasMirror(rest: Rest, code: seq<Byte>, source: Addr, i: nat, d: Core, xs: set<nat>, end: (Core, Where), n: nat)
  {
    exists k: nat, d' :: (end.1.Inside? ==> n <= k) && Mirrors(rest, code, source, i, d, xs, end, k, d')
  }

  lemma {:induction false} ExecSame(rest: Rest, word: Word, pc: Addr, xs: set<nat>, c: Core, d: Core)
    requires Ignores(rest, word, xs) && Same(xs, c, d)
    ensures Same(xs, Exec(rest, word, pc, c).0, Exec(rest, word, pc, d).0)
    ensures Exec(rest, word, pc, c).1 == Exec(rest, word, pc, d).1
  {
    hide Decode, Holds, BitSet, DoLoad;
    match Decode(word) {
      case LoadLiteral(load, rt, offset) => SameLoad(xs, c, d, load, rt, Wrap(pc + offset));
      case _ =>
    }
  }

  lemma {:induction false} StaticAligned(rest: Rest, word: Word, pc: Addr, c: Core)
    requires pc % 4 == 0
    ensures Exec(rest, word, pc, c).1.To? ==> Exec(rest, word, pc, c).1.target % 4 == 0
  {
    hide Decode, Holds, BitSet, DoLoad, X, SetX, Wrap;
    OffsetAligned(word);
    forall a: int | a % 4 == 0 ensures Wrap(a) % 4 == 0 { WrapAligned(a); }
  }

  lemma {:induction false} WrapAligned(a: int)
    requires a % 4 == 0
    ensures Wrap(a) % 4 == 0
  {
  }

  predicate WholeWords(i: Instr)
  {
    match i
    case B(_, offset) => offset % 4 == 0
    case BCond(_, offset) => offset % 4 == 0
    case CompareBranch(_, _, _, offset) => offset % 4 == 0
    case TestBranch(_, _, _, offset) => offset % 4 == 0
    case _ => true
  }

  lemma {:induction false} OffsetAligned(word: Word)
    ensures WholeWords(Decode(word))
  {
    hide *;
    var i := Decode(word);
    if i.B? || i.BCond? || i.CompareBranch? || i.TestBranch? {
      FourTimes(Signed(Imm26(word), 0x200_0000));
      FourTimes(Signed(Imm19(word), 0x4_0000));
      FourTimes(Signed(Imm14(word), 0x2000));
      BranchOffset(word);
      AlignedOffset(i);
    } else {
      NotABranch(i);
    }
  }

  lemma {:induction false} FourTimes(n: int)
    ensures n * 4 % 4 == 0
  {
  }

  lemma {:induction false} BranchOffset(word: Word)
    ensures var i := Decode(word);
            && (i.B? ==> i.offset == Signed(Imm26(word), 0x200_0000) * 4)
            && (i.BCond? || i.CompareBranch? ==> i.offset == Signed(Imm19(word), 0x4_0000) * 4)
            && (i.TestBranch? ==> i.offset == Signed(Imm14(word), 0x2000) * 4)
  {
    hide Signed, Imm26, Imm19, Imm14, ImmAdr;
  }

  lemma {:induction false} AlignedOffset(i: Instr)
    requires (i.B? || i.BCond? || i.CompareBranch? || i.TestBranch?) && i.offset % 4 == 0
    ensures WholeWords(i)
  {
  }

  lemma {:induction false} NotABranch(i: Instr)
    requires !i.B? && !i.BCond? && !i.CompareBranch? && !i.TestBranch?
    ensures WholeWords(i)
  {
  }

  lemma {:induction false} IgnoredAt(rest: Rest, code: seq<Byte>, xs: set<nat>, i: nat)
    requires BlockIgnores(rest, code, xs) && 4 * i + 4 <= |code|
    ensures Ignores(rest, CodeWord(code, i), xs)
  {
    hide Ignores, WordAt;
  }

  lemma {:induction false} UnmovedStep(rest: Rest, code: seq<Byte>, source: Addr, xs: set<nat>, i: nat, c: Core, d: Core) returns (d': Core)
    requires |code| % 4 == 0 && source % 4 == 0 && source + |code| < SPACE && 4 * i + 4 <= |code|
    requires BlockIgnores(rest, code, xs) && Same(xs, c, d)
    ensures Mirrors(rest, code, source, i, d, xs, SourceStep(rest, code, source, i, c), 1, d')
    ensures d' == Exec(rest, CodeWord(code, i), source + 4 * i, d).0
  {
    hide Exec, Same, WordAt, Ignores, BlockIgnores, TargetRun, Land, NextPc;
    IgnoredAt(rest, code, xs, i);
    StaticAligned(rest, CodeWord(code, i), source + 4 * i, c);
    ExecSame(rest, CodeWord(code, i), source + 4 * i, xs, c, d);
    var (e, flow) := Exec(rest, CodeWord(code, i), source + 4 * i, d);
    d' := e;
    OneTargetStep(rest, code, source, i, d);
    NextIsLanding(code, source, i, flow);
  }

  lemma {:induction false} OneTargetStep(rest: Rest, code: seq<Byte>, source: Addr, i: nat, d: Core)
    requires source + |code| < SPACE && 4 * i + 4 <= |code|
    ensures var (e, flow) := Exec(rest, CodeWord(code, i), source + 4 * i, d);
            TargetRun(rest, code, source, 1, d, source + 4 * i) == (e, NextPc(source + 4 * i, flow))
  {
    hide Exec, WordAt, NextPc;
    var (e, flow) := Exec(rest, CodeWord(code, i), source + 4 * i, d);
    assert InBlock(code, source, source + 4 * i) && source + 4 * i - source == 4 * i;
    assert TargetRun(rest, code, source, 0, e, NextPc(source + 4 * i, flow)) == (e, NextPc(source + 4 * i, flow));
  }

  /** In a block that was not moved control goes where it lands. */
  lemma {:induction false} NextIsLanding(code: seq<Byte>, source: Addr, i: nat, flow: Flow)
    requires |code| % 4 == 0 && source % 4 == 0 && source + |code| < SPACE && 4 * i + 4 <= |code|
    requires flow.To? ==> flow.target % 4 == 0
    ensures NextPc(source + 4 * i, flow) ==
            match Land(code, source, i, flow) case Inside(j) => source + 4 * j case Past => source + |code| case Away(a) => a
  {
  }

  lemma {:induction false} StandsStill(rest: Rest, code: seq<Byte>, source: Addr, xs: set<nat>, i: nat, c: Core, d: Core)
    requires source + |code| < SPACE && 4 * i + 4 <= |code| && Same(xs, c, d)
    ensures HasMirror(rest, code, source, i, d, xs, (c, Inside(i)), 0)
  {
    hide Same;
    assert Mirrors(rest, code, source, i, d, xs, (c, Inside(i)), 0, d);
  }

  lemma {:induction false} UnmovedRuns(rest: Rest, code: seq<Byte>, source: Addr, xs: set<nat>, i: nat, c: Core, d: Core, n: nat)
    requires |code| % 4 == 0 && source % 4 == 0 && source + |code| < SPACE && 4 * i + 4 <= |code|
    requires BlockIgnores(rest, code, xs) && Same(xs, c, d)
    ensures HasMirror(rest, code, source, i, d, xs, SourceRun(rest, code, source, i, c, n), n)
    decreases n
  {
    hide SourceStep, BlockIgnores, Same, HasMirror, Mirrors;
    if n == 0 {
      StandsStill(rest, code, source, xs, i, c, d);
    } else {
      var (c1, w) := SourceStep(rest, code, source, i, c);
      var d1 := UnmovedStep(rest, code, source, xs, i, c, d);
      if w.Inside? {
        SameAfter(rest, code, source, i, d, xs, (c1, w), d1);
        UnmovedRuns(rest, code, source, xs, w.i, c1, d1, n - 1);
        MirrorThen(rest, code, source, i, d, xs, c1, w.i, d1, SourceRun(rest, code, source, w.i, c1, n - 1), n);
      } else {
        MirrorOnce(rest, code, source, i, d, xs, (c1, w), d1, n);
      }
    }
  }

  lemma {:induction false} SameAfter(rest: Rest, code: seq<Byte>, source: Addr, i: nat, d: Core, xs: set<nat>, end: (Core, Where), d1: Core)
    requires Mirrors(rest, code, source, i, d, xs, end, 1, d1)
    ensures Same(xs, end.0, d1)
  {
    hide Same, TargetRun;
  }

  lemma {:induction false} MirrorOnce(rest: Rest, code: seq<Byte>, source: Addr, i: nat, d: Core, xs: set<nat>, end: (Core, Where), d1: Core, n: nat)
    requires Mirrors(rest, code, source, i, d, xs, end, 1, d1) && !end.1.Inside?
    ensures HasMirror(rest, code, source, i, d, xs, end, n)
  {
    hide Mirrors;
  }

  lemma {:induction false} MirrorThen(rest: Rest, code: seq<Byte>, source: Addr, i: nat, d: Core, xs: set<nat>, c1: Core, i1: nat, d1: Core,
                   end: (Core, Where), n: nat)
    requires n > 0 && Mirrors(rest, code, source, i, d, xs, (c1, Inside(i1)), 1, d1)
    requires HasMirror(rest, code, source, i1, d1, xs, end, n - 1)
    ensures HasMirror(rest, code, source, i, d, xs, end, n)
  {
    hide Same, TargetRun;
    var k: nat, d' :| (end.1.Inside? ==> n - 1 <= k) && Mirrors(rest, code, source, i1, d1, xs, end, k, d');
    RunsCompose(rest, code, source, 1, k, d, source + 4 * i);
    assert Mirrors(rest, code, source, i, d, xs, end, 1 + k, d');
  }

  /** A relocated BL links to an address from which control comes back to the slot of the
      instruction after the BL, with nothing changed on the way. */
  lemma {:induction false} CallsReturnBehindTheCall(rest: Rest, code: seq<Byte>, source: Addr, destination: Addr, o: Options, r: Relocated,
                                 xs: set<nat>, i: nat, c: Core, d: Core)
    requires RelocatedCode(code, source, destination, o, true) == Ok(r)
    requires BlockAllocated(code) && MayChange(code, o, xs) && BlockIgnores(rest, code, xs)
    requires 4 * i + 4 <= |code| && Same(xs, c, d)
    requires Decode(CodeWord(code, i)).B? && Decode(CodeWord(code, i)).link
    ensures |code| % 4 == 0 && source + |code| < SPACE && |r.offsets| == |code| / 4
    ensures Returns(rest, r, destination, i, d, xs, SourceStep(rest, code, source, i, c), Land(code, source, i, Fall))
  {
    hide *;
    RelocatedBounds(code, source, destination, o, r);
    if source == destination {
      UnmovedCall(rest, code, source, o, r, xs, i, c, d);
    } else {
      MovedCall(rest, code, source, destination, o, r, xs, i, c, d);
    }
  }

  /** The relocated program does the call `step` from instruction `i`, and its link comes back to `next`. */
  ghost predicate Returns(rest: Rest, r: Relocated, destination: Addr, i: nat, d: Core, xs: set<nat>, step: (Core, Where), next: Where)
    requires next.Inside? ==> next.i < |r.offsets|
  {
    var back := PlaceOf(r, destination, next);
    && 0 <= back < 0x1_0000_0000_0000_0000
    && exists k: nat, d' :: Follows(rest, r, destination, i, d, xs, step, k, d') && ComesBack(rest, r.bytes, destination, d'.x[30], back)
  }

  lemma {:induction false} MovedCall(rest: Rest, code: seq<Byte>, source: Addr, destination: Addr, o: Options, r: Relocated,
                  xs: set<nat>, i: nat, c: Core, d: Core)
    requires source != destination && RelocatedCode(code, source, destination, o, true) == Ok(r)
    requires BlockAllocated(code) && MayChange(code, o, xs) && BlockIgnores(rest, code, xs)
    requires 4 * i + 4 <= |code| && |code| % 4 == 0 && source + |code| < SPACE && |r.offsets| == |code| / 4 && Same(xs, c, d)
    requires Decode(CodeWord(code, i)).B? && Decode(CodeWord(code, i)).link
    ensures Returns(rest, r, destination, i, d, xs, SourceStep(rest, code, source, i, c), Land(code, source, i, Fall))
  {
    hide Emitted, StartOf, Decode, BlockAllocated, MayChange, BlockIgnores, Same, SourceStep, WordAt, Moved, Leads, KindOf, Slotted,
      RelocatedCode, Follows, ComesBack, ReturnsTo, Flatten, TargetPc, Ignores;
    var l, words := RelocatedIsMoved(code, source, destination, o, r);
    var ws := SlotIsSlotted(code, l, o, words, i);
    StepFacts(rest, code, l, o, words, i, xs);
    LandsOnFlow(code, l, o, words, i, Fall);
    var word, j, next, step := CodeWord(code, i), l.starts[i], Land(code, source, i, Fall), SourceStep(rest, code, source, i, c);
    var k, d' := SlotDoes(rest, word, source + 4 * i, l, o, words, j, ws, c, d, xs);
    StepLands(rest, code, l, o, words, i, c, d, xs, k, d');
    PlaceIsTarget(l, r, destination, Inside(i));
    PlaceIsTarget(l, r, destination, step.1);
    PlaceIsTarget(l, r, destination, next);
    MatchFollows(rest, words, destination, r, i, d, xs, step, k, d');
    CoastsBack(rest, words, destination, TargetPc(l, next), d'.x[30]);
  }

  lemma {:induction false} UnmovedCall(rest: Rest, code: seq<Byte>, source: Addr, o: Options, r: Relocated, xs: set<nat>, i: nat, c: Core, d: Core)
    requires RelocatedCode(code, source, source, o, true) == Ok(r) && BlockIgnores(rest, code, xs)
    requires 4 * i + 4 <= |code| && |code| % 4 == 0 && source % 4 == 0 && source + |code| < SPACE
    requires |r.offsets| == |code| / 4 && Same(xs, c, d)
    requires Decode(CodeWord(code, i)).B? && Decode(CodeWord(code, i)).link
    ensures Returns(rest, r, source, i, d, xs, SourceStep(rest, code, source, i, c), Land(code, source, i, Fall))
  {
    hide Same, Exec, StartOf, Emitted, TargetRun, SourceStep, BlockIgnores, Decode, WordAt, Mirrors, Follows, ComesBack, RelocatedCode, Wrap;
    var d' := UnmovedStep(rest, code, source, xs, i, c, d);
    var step, next := SourceStep(rest, code, source, i, c), Land(code, source, i, Fall);
    UnmovedPlaces(code, source, o, r);
    MirrorFollows(rest, code, source, o, r, i, d, xs, step, 1, d');
    CallLinks(rest, CodeWord(code, i), source + 4 * i, d);
    NoSteps(rest, r.bytes, source, source + 4 * i + 4);
  }

  lemma {:induction false} UnmovedPlaces(code: seq<Byte>, source: Addr, o: Options, r: Relocated)
    requires RelocatedCode(code, source, source, o, true) == Ok(r)
    ensures r.bytes == code && |r.offsets| == |code| / 4 && forall j :: 0 <= j < |r.offsets| ==> r.offsets[j] == 4 * j
  {
    hide StartOf, Emitted;
  }

  lemma {:induction false} CallLinks(rest: Rest, word: Word, pc: Addr, d: Core)
    requires Decode(word).B? && Decode(word).link && pc + 4 < SPACE
    ensures Exec(rest, word, pc, d).0.x[30] == pc + 4
  {
    hide Decode;
  }

  lemma {:induction false} NoSteps(rest: Rest, bytes: seq<Byte>, base: Addr, link: Addr)
    ensures ComesBack(rest, bytes, base, link, link)
  {
    assert ComesBackIn(rest, bytes, base, 0, link, link);
  }

  /** From `link` some number of steps reach `end` whatever the rest of the state is. */
  ghost predicate ComesBack(rest: Rest, bytes: seq<Byte>, base: Addr, link: Addr, end: Addr)
  {
    exists m: nat :: ComesBackIn(rest, bytes, base, m, link, end)
  }

  ghost predicate ComesBackIn(rest: Rest, bytes: seq<Byte>, base: Addr, m: nat, link: Addr, end: Addr)
  {
    forall e: Core :: TargetRun(rest, bytes, base, m, e, link) == (e, end)
  }

  lemma {:induction false} MatchFollows(rest: Rest, words: seq<Word>, destination: Addr, r: Relocated, i: nat, d: Core, xs: set<nat>,
                     end: (Core, Where), k: nat, d': Core)
    requires r.bytes == Flatten(words) && i < |r.offsets| && (end.1.Inside? ==> end.1.i < |r.offsets|)
    requires 0 <= destination + r.offsets[i] < 0x1_0000_0000_0000_0000
    requires 0 <= PlaceOf(r, destination, end.1) < 0x1_0000_0000_0000_0000
    requires Same(xs, end.0, d')
    requires Leads(rest, words, destination, k, d, destination + r.offsets[i], d', PlaceOf(r, destination, end.1))
    ensures Follows(rest, r, destination, i, d, xs, end, k, d')
  {
    hide Same, TargetRun, Flatten;
  }

  lemma {:induction false} PlaceIsTarget(l: Layout, r: Relocated, destination: Addr, w: Where)
    requires ValidLayout(l) && l.destination == destination && (w.Inside? ==> w.i < l.count)
    requires |r.bytes| == 4 * l.size && |r.offsets| == l.count
    requires forall i :: 0 <= i < l.count ==> r.offsets[i] == 4 * l.starts[i]
    ensures PlaceOf(r, destination, w) == TargetPc(l, w)
  {
  }

  lemma {:induction false} CoastsBack(rest: Rest, words: seq<Word>, base: Addr, end: Addr, link: Addr)
    requires ReturnsTo(rest, words, base, end, link)
    ensures ComesBack(rest, Flatten(words), base, link, end)
  {
    hide TargetRun, Flatten;
    var m: nat :| CoastsAlways(rest, words, base, m, link, end);
    forall e: Core ensures TargetRun(rest, Flatten(words), base, m, e, link) == (e, end) {
      assert Coasts(rest, words, base, m, link, end, e);
    }
    assert ComesBackIn(rest, Flatten(words), base, m, link, end);
  }

  /** Both passes agree: slots tile the output in order, and each has the size the first pass
      reserved for it. */
  lemma {:induction false} SlotsTileTheOutput(code: seq<Byte>, source: Addr, destination: Addr, o: Options, r: Relocated, i: nat)
    requires RelocatedCode(code, source, destination, o, true) == Ok(r)
    requires 4 * i + 4 <= |code|
    ensures |r.offsets| == |code| / 4 && r.offsets[0] == 0 && destination + |r.bytes| < SPACE
    ensures var size := 4 * (if source == destination then 1 else SlotWords(KindOf(CodeWord(code, i))));
            r.offsets[i] + size == if i + 1 < |r.offsets| then r.offsets[i + 1] else |r.bytes|
  {
    hide SlotWords, KindOf, Body, WordAt, RelocatedCode, Moved, Flatten;
    RelocatedBounds(code, source, destination, o, r);
    if source == destination {
      UnmovedPlaces(code, source, o, r);
    } else {
      var l, words := RelocatedIsMoved(code, source, destination, o, r);
      SlotHolds(code, l, o, words, i);
      StartsAtZero(code);
      FirstSlot(code, l, o, words);
    }
  }

  lemma {:induction false} FirstSlot(code: seq<Byte>, l: Layout, o: Options, words: seq<Word>)
    requires Moved(code, l, o, words)
    ensures l.count > 0 && |l.starts| == l.count && l.starts[0] == StartOf(code, 0)
  {
    hide Emitted;
  }

  /** A branch inside the block never needs an indirect veneer: it always encodes. */
  lemma {:induction false} InnerBranchesStayNear(code: seq<Byte>, source: Addr, destination: Addr, o: Options, i: nat, target: Addr, skip: nat, link: bool)
    requires source != destination && Rejected(code, source, destination, o, true).None?
    requires 4 * i + 4 <= |code| && source <= target < source + |code| && target % 4 == 0 && skip <= 1
    ensures InnerBranchFits(LayoutOf(code, source, destination), i, target, skip, link, o)
  {
    hide StartOf, BranchWords, LayoutOf, KindOf, SlotWords, WordAt;
    var l := LayoutOf(code, source, destination);
    InnerBounds(code, source, destination, o, i, (target - source) / 4);
    NearReach(l.destination + 4 * (l.starts[i] + skip), MapBranch(l, target), link, o);
  }

  /** The branch `skip` words into slot `i` to the mapped `target` is one word long. */
  ghost predicate InnerBranchFits(l: Layout, i: nat, target: Addr, skip: nat, link: bool, o: Options)
  {
    && |l.starts| == l.count && i < l.count && (o.scratch.Some? ==> o.scratch.value <= 30)
    && var from, to := l.destination + 4 * (l.starts[i] + skip), MapBranch(l, target);
       && from < 0x1_0000_0000_0000_0000 && 0 <= to < 0x1_0000_0000_0000_0000
       && BranchWords(from, to, link, o).Ok? && |BranchWords(from, to, link, o).value| == 1
  }

  lemma {:induction false} NearReach(from: Addr, to: Addr, link: bool, o: Options)
    requires o.scratch.Some? ==> o.scratch.value <= 30
    requires from % 4 == 0 && to % 4 == 0 && -0x100_0000 <= to - from <= 0x100_0000
    ensures BranchWords(from, to, link, o).Ok? && |BranchWords(from, to, link, o).value| == 1
  {
    hide NearBranch, FarBranch, Constant;
    RelativeExact(from, to, 26);
  }

  lemma {:induction false} InnerBounds(code: seq<Byte>, source: Addr, destination: Addr, o: Options, i: nat, j: nat)
    requires source != destination && Rejected(code, source, destination, o, true).None?
    requires 4 * i + 4 <= |code| && 4 * j + 4 <= |code|
    ensures var l := LayoutOf(code, source, destination);
            && l.destination % 4 == 0 && l.source == source && l.count == |code| / 4 == |l.starts|
            && l.starts[i] < 0x18_0000 && l.starts[j] < 0x18_0000
            && l.starts[i] < l.size && l.starts[j] < l.size && l.destination + 4 * l.size < SPACE
  {
    hide KindOf, SlotWords, WordAt;
    StartsIncrease(code, i, |code| / 4);
    StartsIncrease(code, j, |code| / 4);
  }
}
