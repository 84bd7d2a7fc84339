/**
  Relocation preserves meaning: running a source instruction and running its relocated slot
  keep corresponding states corresponding, and so does every run until the block is left.
 */
module RelocatorMeaning {
  import opened Memory
  import opened Arm64
  import opened Relocator
  import opened RelocatorEncoding

  // ------------------------------------------------------------------- runs

  /** Where a run of the source block stands: at one of its instructions, just past its last one
      (by falling through), or away at an absolute address. A computed jump always leaves. */
  datatype Where = Inside(i: nat) | Past | Away(a: Addr)

  function Land(code: seq<Byte>, source: Addr, i: nat, flow: Flow): (w: Where)
    requires |code| % 4 == 0
    ensures w.Inside? ==> 4 * w.i + 4 <= |code|
  {
    match flow
    case Fall => if 4 * i + 4 < |code| then Inside(i + 1) else Past
    case To(a) => if source <= a < source + |code| then Inside((a - source) / 4) else Away(a)
    case Computed(a) => Away(a)
  }

  function SourceStep(rest: Rest, code: seq<Byte>, source: Addr, i: nat, c: Core): (r: (Core, Where))
    requires 4 * i + 4 <= |code| && |code| % 4 == 0 && source + |code| < SPACE
    ensures r.1.Inside? ==> 4 * r.1.i + 4 <= |code|
  {
    var (c', flow) := Exec(rest, CodeWord(code, i), source + 4 * i, c);
    (c', Land(code, source, i, flow))
  }

  /** `n` steps of the source block, stopping early when it is left. */
  function SourceRun(rest: Rest, code: seq<Byte>, source: Addr, i: nat, c: Core, n: nat): (r: (Core, Where))
    requires 4 * i + 4 <= |code| && |code| % 4 == 0 && source + |code| < SPACE
    decreases n
  {
    if n == 0 then (c, Inside(i))
    else
      var (c', w) := SourceStep(rest, code, source, i, c);
      if w.Inside? then SourceRun(rest, code, source, w.i, c', n - 1) else (c', w)
  }

  function NextPc(pc: Addr, flow: Flow): Addr
  {
    match flow
    case Fall => Wrap(pc + 4)
    case To(a) => a
    case Computed(a) => a
  }

  predicate InBlock(bytes: seq<Byte>, base: Addr, pc: Addr)
  {
    base <= pc && pc - base + 4 <= |bytes| && (pc - base) % 4 == 0
  }

  /** `k` steps of the machine on the code `bytes` at `base`; outside that code it stands still. */
  function TargetRun(rest: Rest, bytes: seq<Byte>, base: Addr, k: nat, c: Core, pc: Addr): (Core, Addr)
  {
    if k == 0 || !InBlock(bytes, base, pc) then (c, pc)
    else
      var (c', flow) := Exec(rest, WordAt(bytes, pc - base), pc, c);
      TargetRun(rest, bytes, base, k - 1, c', NextPc(pc, flow))
  }

  lemma {:induction false} RunsCompose(rest: Rest, bytes: seq<Byte>, base: Addr, k: nat, m: nat, c: Core, pc: Addr)
    ensures var (c', pc') := TargetRun(rest, bytes, base, k, c, pc);
            TargetRun(rest, bytes, base, k + m, c, pc) == TargetRun(rest, bytes, base, m, c', pc')
    decreases k
  {
    hide Exec, NextPc, WordAt;
    if k == 0 {
    } else if !InBlock(bytes, base, pc) {
      assert TargetRun(rest, bytes, base, m, c, pc) == (c, pc);
    } else {
      var (c', flow) := Exec(rest, WordAt(bytes, pc - base), pc, c);
      RunsCompose(rest, bytes, base, k - 1, m, c', NextPc(pc, flow));
    }
  }

  // -------------------------------------------------- corresponding states

  /** Equal in everything but the registers in `xs`. */
  ghost predicate Same(xs: set<nat>, c: Core, d: Core)
  {
    && c.sp == d.sp && c.vec == d.vec && c.flags == d.flags && c.mem == d.mem
    && (forall r {:trigger c.x[r]} {:trigger d.x[r]} :: 0 <= r < 31 && r !in xs ==> c.x[r] == d.x[r])
  }

  /** The registers relocation may change: the permitted scratch register, and x30 under a BL. */
  ghost predicate MayChange(code: seq<Byte>, o: Options, xs: set<nat>)
  {
    && (o.scratch.Some? ==> o.scratch.value in xs)
    && (forall i :: 0 <= i && 4 * i + 4 <= |code| && Decode(CodeWord(code, i)).B? && Decode(CodeWord(code, i)).link ==> 30 in xs)
  }

  /** The instruction does not let a register in `xs` influence anything else. Address
      generation, literal loads and direct branches never read one. */
  ghost predicate Ignores(rest: Rest, word: Word, xs: set<nat>)
  {
    match Decode(word)
    case CompareBranch(_, _, rt, _) => rt == 31 || rt !in xs
    case TestBranch(_, _, rt, _) => rt == 31 || rt !in xs
    case Adr(_, _, _) => true
    case B(_, _) => true
    case BCond(_, _) => true
    case LoadLiteral(_, _, _) => true
    case _ =>
      forall pc: Addr, pc': Addr, c, d :: Same(xs, c, d) ==>
        && Same(xs, Exec(rest, word, pc, c).0, Exec(rest, word, pc', d).0)
        && Exec(rest, word, pc, c).1 == Exec(rest, word, pc', d).1
  }

  ghost predicate BlockIgnores(rest: Rest, code: seq<Byte>, xs: set<nat>)
  {
    forall i :: 0 <= i && 4 * i + 4 <= |code| ==> Ignores(rest, CodeWord(code, i), xs)
  }

  /** What the disassembler's acceptance guarantees. */
  ghost predicate BlockAllocated(code: seq<Byte>)
  {
    forall i :: 0 <= i && 4 * i + 4 <= |code| ==> Allocated(CodeWord(code, i))
  }

  /** The address in the relocated program that corresponds to a place of the source run. */
  function TargetPc(l: Layout, w: Where): Addr
    requires ValidLayout(l) && (w.Inside? ==> w.i < l.count)
  {
    match w
    case Inside(i) => l.destination + 4 * l.starts[i]
    case Past => l.destination + 4 * l.size
    case Away(a) => a
  }
}
