/** core/autoasm.cpp: sizing passes that give forward labels their addresses, and the pass that then puts the code there. */
module Labels {
  import opened Memory

  const MAX_PASSES: nat := 8

  /** An operand either is text or names a declared label. */
  datatype Part = Text(text: string) | Ref(l: nat)

  /** What the assembler is given: text, a number in place of a name, or a name left as it is. */
  datatype Piece = Word(text: string) | Number(value: Addr) | Name(l: nat)

  /** A line of assembly. `Other` moves nothing; `Block` names an allocation; `Copy` is readmem. */
  datatype Line =
    | Other
    | Block(address: Addr)
    | Define(l: nat)
    | Target(name: string)
    | Copy(name: string, size: nat)
    | Reassemble(name: string)
    | Code(parts: seq<Part>)

  /** What the passes call: they may answer anything, but the same thing every time. Moved code is
      looked at twice, and may have changed in between. */
  datatype Tools = Tools(
    resolve: (string, seq<Addr>) -> Addr,
    assemble: (seq<Piece>, Addr) -> Option<seq<Byte>>,
    sized: (Addr, Addr) -> Option<nat>,
    moved: (Addr, Addr) -> Option<seq<Byte>>,
    read: (Addr, nat) -> Option<seq<Byte>>)

  predicate Declared(lines: seq<Line>, n: nat)
  {
    forall k :: 0 <= k < |lines| ==> LineDeclared(lines[k], n)
  }

  predicate LineDeclared(line: Line, n: nat)
  {
    && (line.Define? ==> line.l < n)
    && (line.Code? ==> forall i :: 0 <= i < |line.parts| && line.parts[i].Ref? ==> line.parts[i].l < n)
  }

  /** Addresses wrap around. */
  function Advance(cur: Addr, size: nat): Addr { (cur + size) % (TOP + 1) }

  // ---------------------------------------------------------------- sizing

  /** Labels without an address yet stand for the place the line itself is at. */
  function ForSizing(parts: seq<Part>, env: seq<Addr>, cur: Addr): seq<Piece>
    requires LineDeclared(Code(parts), |env|)
  {
    seq(|parts|, i requires 0 <= i < |parts| =>
      match parts[i]
      case Text(s) => Word(s)
      case Ref(l) => if env[l] != 0 then Number(env[l]) else Number(cur))
  }

  /** How many bytes a line takes up at `cur`. */
  function Measure(t: Tools, line: Line, env: seq<Addr>, cur: Addr): Option<nat>
    requires LineDeclared(line, |env|)
  {
    match line
    case Code(parts) =>
      var code := t.assemble(ForSizing(parts, env, cur), cur);
      if code.None? then None else Some(|code.value|)
    case Copy(_, size) => Some(size)
    case Reassemble(name) =>
      var source := t.resolve(name, env);
      if source == 0 then None else t.sized(source, cur)
    case _ => Some(0)
  }

  datatype Sizing = Sizing(env: seq<Addr>, cur: Addr, changed: bool)

  function SizeLine(t: Tools, line: Line, s: Sizing): (r: Option<Sizing>)
    requires LineDeclared(line, |s.env|)
    ensures r.Some? ==> |r.value.env| == |s.env|
  {
    match line
    case Other => Some(s)
    case Block(address) => Some(s.(cur := address))
    case Define(l) =>
      if s.cur == 0 then None
      else if s.env[l] != s.cur then Some(Sizing(s.env[l := s.cur], s.cur, true))
      else Some(s)
    case Target(name) =>
      var a := t.resolve(name, s.env);
      if a == 0 then None else Some(s.(cur := a))
    case _ =>
      var size := if s.cur == 0 then None else Measure(t, line, s.env, s.cur);
      if size.None? then None else Some(s.(cur := Advance(s.cur, size.value)))
  }

  /** A pass over the first `n` lines. */
  function SizeUpTo(t: Tools, lines: seq<Line>, s: Sizing, n: nat): (r: Option<Sizing>)
    requires n <= |lines| && Declared(lines, |s.env|)
    ensures r.Some? ==> |r.value.env| == |s.env|
  {
    if n == 0 then Some(s)
    else
      var before := SizeUpTo(t, lines, s, n - 1);
      if before.None? then None else SizeLine(t, lines[n - 1], before.value)
  }

  function Pass(t: Tools, lines: seq<Line>, env: seq<Addr>): (r: Option<Sizing>)
    requires Declared(lines, |env|)
    ensures r.Some? ==> |r.value.env| == |env|
  {
    SizeUpTo(t, lines, Sizing(env, 0, false), |lines|)
  }

  /** Passes until one of them changes nothing. */
  function Passes(t: Tools, lines: seq<Line>, env: seq<Addr>, n: nat): (r: Option<seq<Addr>>)
    requires Declared(lines, |env|)
    ensures r.Some? ==> |r.value| == |env|
    decreases n
  {
    if n == 0 then None
    else
      var s := Pass(t, lines, env);
      if s.None? then None else if !s.value.changed then Some(s.value.env) else Passes(t, lines, s.value.env, n - 1)
  }

  // --------------------------------------------------------------- emission

  /** Labels without an address are left as names. */
  function Substituted(parts: seq<Part>, env: seq<Addr>): seq<Piece>
    requires LineDeclared(Code(parts), |env|)
  {
    seq(|parts|, i requires 0 <= i < |parts| =>
      match parts[i]
      case Text(s) => Word(s)
      case Ref(l) => if env[l] != 0 then Number(env[l]) else Name(l))
  }

  datatype Emission = Emission(env: seq<Addr>, cur: Addr, writes: seq<(Addr, seq<Byte>)>)

  /** Nothing is written for a line without code. */
  function Put(writes: seq<(Addr, seq<Byte>)>, at: Addr, code: seq<Byte>): seq<(Addr, seq<Byte>)>
  {
    if code == [] then writes else writes + [(at, code)]
  }

  function Written(e: Emission, code: seq<Byte>): Emission
  {
    Emission(e.env, Advance(e.cur, |code|), Put(e.writes, e.cur, code))
  }

  /** The bytes a line puts at the current address; `size` is what sizing found moved code to take. */
  function CodeOf(t: Tools, line: Line, env: seq<Addr>, cur: Addr, size: nat): Option<seq<Byte>>
    requires LineDeclared(line, |env|)
  {
    match line
    case Code(parts) => t.assemble(Substituted(parts, env), cur)
    case Copy(name, n) =>
      var source := t.resolve(name, env);
      if source == 0 then None
      else if n == 0 then Some([])
      else
        var code := t.read(source, n);
        if code.None? || |code.value| != n then None else code
    case Reassemble(name) =>
      var source := t.resolve(name, env);
      if source == 0 then None
      else
        var code := t.moved(source, cur);
        if code.None? || code.value == [] || |code.value| != size then None else code
    case _ => Some([])
  }

  function EmitLine(t: Tools, line: Line, size: nat, e: Emission): (r: Option<Emission>)
    requires LineDeclared(line, |e.env|)
    ensures r.Some? ==> |r.value.env| == |e.env|
  {
    match line
    case Other => Some(e)
    case Block(address) => Some(e.(cur := address))
    case Define(l) => if e.cur == 0 then None else Some(e.(env := e.env[l := e.cur]))
    case Target(name) =>
      var a := t.resolve(name, e.env);
      if a == 0 then None else Some(e.(cur := a))
    case _ =>
      var code := if e.cur == 0 then None else CodeOf(t, line, e.env, e.cur, size);
      if code.None? then None else Some(Written(e, code.value))
  }

  function EmitUpTo(t: Tools, lines: seq<Line>, sizes: seq<nat>, e: Emission, n: nat): (r: Option<Emission>)
    requires n <= |lines| == |sizes| && Declared(lines, |e.env|)
    ensures r.Some? ==> |r.value.env| == |e.env|
  {
    if n == 0 then Some(e)
    else
      var before := EmitUpTo(t, lines, sizes, e, n - 1);
      if before.None? then None else EmitLine(t, lines[n - 1], sizes[n - 1], before.value)
  }

  // ---------------------------------------------------------------- the fixpoint

  /** Where line `k` starts when every label keeps its address. */
  function Place(t: Tools, lines: seq<Line>, env: seq<Addr>, k: nat): Option<Sizing>
    requires k <= |lines| && Declared(lines, |env|)
  {
    SizeUpTo(t, lines, Sizing(env, 0, false), k)
  }

  /** Every line can be sized, and every definition is where its label already is. */
  ghost predicate Settled(t: Tools, lines: seq<Line>, env: seq<Addr>)
    requires Declared(lines, |env|)
  {
    forall k :: 0 <= k <= |lines| ==>
      var s := Place(t, lines, env, k);
      s.Some? && s.value.env == env && !s.value.changed
      && (k < |lines| && lines[k].Define? ==> s.value.cur == env[lines[k].l] != 0)
  }

  lemma {:induction false} ChangedStays(t: Tools, lines: seq<Line>, s: Sizing, m: nat, n: nat)
    requires m <= n <= |lines| && Declared(lines, |s.env|) && SizeUpTo(t, lines, s, n).Some?
    ensures SizeUpTo(t, lines, s, m).Some?
    ensures SizeUpTo(t, lines, s, m).value.changed ==> SizeUpTo(t, lines, s, n).value.changed
    decreases n
  {
    if m < n { ChangedStays(t, lines, s, m, n - 1); }
  }

  /** A pass changes nothing exactly when the labels are settled. */
  lemma {:induction false} UnchangedIsSettled(t: Tools, lines: seq<Line>, env: seq<Addr>)
    requires Declared(lines, |env|)
    ensures Pass(t, lines, env).Some? && !Pass(t, lines, env).value.changed <==> Settled(t, lines, env)
    ensures Settled(t, lines, env) ==> Pass(t, lines, env).value.env == env
  {
    var start := Sizing(env, 0, false);
    if Pass(t, lines, env).Some? && !Pass(t, lines, env).value.changed {
      forall k | 0 <= k <= |lines|
        ensures Place(t, lines, env, k).Some? && Place(t, lines, env, k).value.env == env && !Place(t, lines, env, k).value.changed
        ensures k < |lines| && lines[k].Define? ==> Place(t, lines, env, k).value.cur == env[lines[k].l] != 0
      {
        ChangedStays(t, lines, start, k, |lines|);
        SameUntilChanged(t, lines, start, k);
        if k < |lines| {
          ChangedStays(t, lines, start, k + 1, |lines|);
        }
      }
    }
    if Settled(t, lines, env) {
      assert Place(t, lines, env, |lines|).Some?;
    }
  }

  lemma {:induction false} SameUntilChanged(t: Tools, lines: seq<Line>, s: Sizing, n: nat)
    requires n <= |lines| && Declared(lines, |s.env|) && SizeUpTo(t, lines, s, n).Some?
    requires !SizeUpTo(t, lines, s, n).value.changed
    ensures SizeUpTo(t, lines, s, n).value.env == s.env
  {
    if n > 0 { SameUntilChanged(t, lines, s, n - 1); }
  }

  /** What the passes settle on; in particular all definitions of a label are at one address, so a
      label defined at two never converges. */
  lemma {:induction false} ResolvedIsSettled(t: Tools, lines: seq<Line>, env: seq<Addr>, n: nat)
    requires Declared(lines, |env|) && Passes(t, lines, env, n).Some?
    ensures Settled(t, lines, Passes(t, lines, env, n).value)
    decreases n
  {
    var s := Pass(t, lines, env).value;
    if s.changed {
      ResolvedIsSettled(t, lines, s.env, n - 1);
    } else {
      UnchangedIsSettled(t, lines, env);
    }
  }

  // ------------------------------------------------ sizing and emission agree

  predicate Refers(line: Line, l: nat) { line.Code? && Ref(l) in line.parts }

  /** Every label some line names is defined by some line. */
  ghost predicate AllDefined(lines: seq<Line>)
  {
    forall k, l: nat :: 0 <= k < |lines| && Refers(lines[k], l) ==> Define(l) in lines
  }

  /** The sizes sizing recorded for moved code. */
  ghost predicate SizesOf(t: Tools, lines: seq<Line>, env: seq<Addr>, sizes: seq<nat>)
    requires Declared(lines, |env|)
  {
    && |sizes| == |lines|
    && forall k :: 0 <= k < |lines| && lines[k].Reassemble? ==>
      var s := Place(t, lines, env, k);
      s.Some? && Measure(t, lines[k], env, s.value.cur) == Some(sizes[k])
  }

  lemma {:induction false} DefinedHasAddress(t: Tools, lines: seq<Line>, env: seq<Addr>, l: nat)
    requires Declared(lines, |env|) && Settled(t, lines, env) && Define(l) in lines
    ensures l < |env| && env[l] != 0
  {
    var k :| 0 <= k < |lines| && lines[k] == Define(l);
    assert Place(t, lines, env, k).Some?;
  }

  /** With every named label defined, the assembler is given the text it was sized with. */
  lemma {:induction false} SameText(t: Tools, lines: seq<Line>, env: seq<Addr>, k: nat, cur: Addr)
    requires Declared(lines, |env|) && Settled(t, lines, env) && AllDefined(lines)
    requires k < |lines| && lines[k].Code?
    ensures Substituted(lines[k].parts, env) == ForSizing(lines[k].parts, env, cur)
  {
    var parts := lines[k].parts;
    forall i | 0 <= i < |parts| ensures Substituted(parts, env)[i] == ForSizing(parts, env, cur)[i] {
      if parts[i].Ref? {
        assert Refers(lines[k], parts[i].l);
        DefinedHasAddress(t, lines, env, parts[i].l);
      }
    }
  }

  /** The code of line `k` at its sized place. */
  function CodeAt(t: Tools, lines: seq<Line>, env: seq<Addr>, sizes: seq<nat>, k: nat): Option<seq<Byte>>
    requires k < |lines| == |sizes| && Declared(lines, |env|) && Place(t, lines, env, k).Some?
  {
    LineCode(t, lines[k], env, Place(t, lines, env, k).value.cur, sizes[k])
  }

  /** What the first `n` lines write, each at the place sizing gave it. */
  ghost function WritesUpTo(t: Tools, lines: seq<Line>, env: seq<Addr>, sizes: seq<nat>, n: nat): seq<(Addr, seq<Byte>)>
    requires n <= |lines| == |sizes| && Declared(lines, |env|) && Settled(t, lines, env)
  {
    if n == 0 then []
    else
      var before := WritesUpTo(t, lines, env, sizes, n - 1);
      var code := CodeAt(t, lines, env, sizes, n - 1);
      if code.None? then before else Put(before, Place(t, lines, env, n - 1).value.cur, code.value)
  }

  /** Copied and moved code can still be had among the first `n` lines, and is as long as it was. */
  ghost predicate CopiesHold(t: Tools, lines: seq<Line>, env: seq<Addr>, sizes: seq<nat>, n: nat)
    requires n <= |lines| == |sizes| && Declared(lines, |env|) && Settled(t, lines, env)
  {
    forall k :: 0 <= k < n && (lines[k].Copy? || lines[k].Reassemble?) ==> CodeAt(t, lines, env, sizes, k).Some?
  }

  /** The code of a line at `cur`. */
  function LineCode(t: Tools, line: Line, env: seq<Addr>, cur: Addr, size: nat): Option<seq<Byte>>
    requires LineDeclared(line, |env|)
  {
    match line
    case Code(parts) => t.assemble(ForSizing(parts, env, cur), cur)
    case _ => CodeOf(t, line, env, cur, size)
  }

  lemma {:induction false} LineAgrees(t: Tools, line: Line, size: nat, env: seq<Addr>, s: Sizing, next: Sizing, e: Emission)
    requires LineDeclared(line, |env|) && s.env == env == next.env && SizeLine(t, line, s) == Some(next)
    requires line.Define? ==> s.cur == env[line.l]
    requires line.Code? ==> Substituted(line.parts, env) == ForSizing(line.parts, env, s.cur)
    requires line.Reassemble? ==> Measure(t, line, env, s.cur) == Some(size)
    requires e.env == env && e.cur == s.cur
    ensures var r, code := EmitLine(t, line, size, e), LineCode(t, line, env, s.cur, size);
            && (r.Some? <==> (line.Copy? || line.Reassemble? ==> code.Some?))
            && (r.Some? ==> code.Some? && r.value == Emission(env, next.cur, Put(e.writes, e.cur, code.value)))
  {
    hide Substituted, ForSizing;
  }

  lemma {:induction false} SettledAt(t: Tools, lines: seq<Line>, env: seq<Addr>, k: nat)
    requires Declared(lines, |env|) && Settled(t, lines, env) && k < |lines|
    ensures Place(t, lines, env, k).Some? && Place(t, lines, env, k + 1).Some?
    ensures Place(t, lines, env, k).value.env == env == Place(t, lines, env, k + 1).value.env
    ensures SizeLine(t, lines[k], Place(t, lines, env, k).value) == Place(t, lines, env, k + 1)
    ensures lines[k].Define? ==> Place(t, lines, env, k).value.cur == env[lines[k].l]
  {
    hide SizeLine;
    assert Place(t, lines, env, k).Some? && Place(t, lines, env, k + 1).Some?;
  }

  lemma {:induction false} StepAgrees(t: Tools, lines: seq<Line>, env: seq<Addr>, sizes: seq<nat>, k: nat, e: Emission)
    requires Declared(lines, |env|) && Settled(t, lines, env) && AllDefined(lines) && SizesOf(t, lines, env, sizes)
    requires k < |lines| && e.env == env && e.cur == Place(t, lines, env, k).value.cur
    ensures Place(t, lines, env, k).Some? && Place(t, lines, env, k + 1).Some?
    ensures var r, code := EmitLine(t, lines[k], sizes[k], e), CodeAt(t, lines, env, sizes, k);
            && (r.Some? <==> (lines[k].Copy? || lines[k].Reassemble? ==> code.Some?))
            && (r.Some? ==>
                  code.Some? && r.value == Emission(env, Place(t, lines, env, k + 1).value.cur, Put(e.writes, e.cur, code.value)))
  {
    hide EmitLine, SizeLine, Settled, Place, Substituted, ForSizing, LineCode, Measure, AllDefined;
    SettledAt(t, lines, env, k);
    if lines[k].Code? { SameText(t, lines, env, k, e.cur); }
    LineAgrees(t, lines[k], sizes[k], env, Place(t, lines, env, k).value, Place(t, lines, env, k + 1).value, e);
  }

  /** Emission puts every line where sizing had it and binds every label to the address that earlier
      lines were given for it. It stops only where copied or moved code is gone or another size. */
  lemma {:induction false} EmissionAgrees(t: Tools, lines: seq<Line>, env: seq<Addr>, sizes: seq<nat>, n: nat)
    requires Declared(lines, |env|) && Settled(t, lines, env) && AllDefined(lines) && SizesOf(t, lines, env, sizes)
    requires n <= |lines| == |sizes|
    ensures var r := EmitUpTo(t, lines, sizes, Emission(env, 0, []), n);
            && (r.Some? <==> CopiesHold(t, lines, env, sizes, n))
            && (r.Some? ==> r.value == Emission(env, Place(t, lines, env, n).value.cur, WritesUpTo(t, lines, env, sizes, n)))
  {
    hide EmitLine, CodeAt, SizeLine, SizeUpTo, Place, Put, Settled, SizesOf, AllDefined, CopiesHold, Declared;
    if n == 0 {
      NoneYet(t, lines, env, sizes);
    } else {
      EmissionAgrees(t, lines, env, sizes, n - 1);
      SettledAt(t, lines, env, n - 1);
      CopiesNext(t, lines, env, sizes, n - 1);
      var before := EmitUpTo(t, lines, sizes, Emission(env, 0, []), n - 1);
      if before.Some? { StepAgrees(t, lines, env, sizes, n - 1, before.value); }
    }
  }

  lemma {:induction false} NoneYet(t: Tools, lines: seq<Line>, env: seq<Addr>, sizes: seq<nat>)
    requires |lines| == |sizes| && Declared(lines, |env|) && Settled(t, lines, env)
    ensures CopiesHold(t, lines, env, sizes, 0) && Place(t, lines, env, 0) == Some(Sizing(env, 0, false))
  {
  }

  lemma {:induction false} CopiesNext(t: Tools, lines: seq<Line>, env: seq<Addr>, sizes: seq<nat>, n: nat)
    requires n < |lines| == |sizes| && Declared(lines, |env|) && Settled(t, lines, env) && Place(t, lines, env, n).Some?
    ensures var here := lines[n].Copy? || lines[n].Reassemble? ==> CodeAt(t, lines, env, sizes, n).Some?;
            CopiesHold(t, lines, env, sizes, n + 1) <==> CopiesHold(t, lines, env, sizes, n) && here
  {
    hide CodeAt, Place;
  }

  /** Both together: after sizing succeeds, a label defined by line `k` stands, in every line that
      names it, for the address its code is written at. */
  lemma {:induction false} ResolvedThenEmitted(t: Tools, lines: seq<Line>, env: seq<Addr>, sizes: seq<nat>)
    requires Declared(lines, |env|) && AllDefined(lines) && Passes(t, lines, env, 8).Some?
    requires SizesOf(t, lines, Passes(t, lines, env, 8).value, sizes)
    ensures Settled(t, lines, Passes(t, lines, env, 8).value)
    ensures var found := Passes(t, lines, env, 8).value;
            var r := EmitUpTo(t, lines, sizes, Emission(found, 0, []), |lines|);
            && (r.Some? <==> CopiesHold(t, lines, found, sizes, |lines|))
            && (r.Some? ==> r.value.env == found && r.value.writes == WritesUpTo(t, lines, found, sizes, |lines|))
            && forall k :: 0 <= k < |lines| && lines[k].Define? ==>
              found[lines[k].l] == Place(t, lines, found, k).value.cur
  {
    ResolvedIsSettled(t, lines, env, MAX_PASSES);
    EmissionAgrees(t, lines, Passes(t, lines, env, MAX_PASSES).value, sizes, |lines|);
  }

  /** The labels after `n` passes, when none of them stops. */
  ghost function EnvAfter(t: Tools, lines: seq<Line>, env: seq<Addr>, n: nat): (r: Option<seq<Addr>>)
    requires Declared(lines, |env|)
    ensures r.Some? ==> |r.value| == |env|
    decreases n
  {
    if n == 0 then Some(env)
    else
      var s := Pass(t, lines, env);
      if s.None? then None else EnvAfter(t, lines, s.value.env, n - 1)
  }

  /** Pass number `n`, counted from nought, changes nothing. */
  ghost predicate Unchanged(t: Tools, lines: seq<Line>, env: seq<Addr>, n: nat)
    requires Declared(lines, |env|)
  {
    var before := EnvAfter(t, lines, env, n);
    && before.Some? && Pass(t, lines, before.value).Some?
    && Pass(t, lines, before.value).value.env == before.value && !Pass(t, lines, before.value).value.changed
  }

  /** The labels are resolved exactly when one of the first passes changes nothing, to what it left. */
  lemma {:induction false} PassesExactly(t: Tools, lines: seq<Line>, env: seq<Addr>, n: nat)
    requires Declared(lines, |env|)
    ensures Passes(t, lines, env, n).Some? <==> exists m: nat :: m < n && Unchanged(t, lines, env, m)
    ensures forall m: nat :: m < n && Unchanged(t, lines, env, m) ==> Passes(t, lines, env, n) == EnvAfter(t, lines, env, m)
    decreases n
  {
    hide Pass;
    if n > 0 && Pass(t, lines, env).Some? {
      var next := Pass(t, lines, env).value.env;
      PassesExactly(t, lines, next, n - 1);
      UnchangedIsSettled(t, lines, env);
      if !Pass(t, lines, env).value.changed {
        assert Unchanged(t, lines, env, 0);
        forall m: nat ensures EnvAfter(t, lines, env, m) == Some(env) { NothingMoves(t, lines, env, m); }
      } else {
        forall m: nat ensures m > 0 ==> (Unchanged(t, lines, env, m) <==> Unchanged(t, lines, next, m - 1)) {}
        if m: nat :| m < n - 1 && Unchanged(t, lines, next, m) { assert Unchanged(t, lines, env, m + 1); }
      }
    }
  }

  lemma {:induction false} NothingMoves(t: Tools, lines: seq<Line>, env: seq<Addr>, n: nat)
    requires Declared(lines, |env|) && Pass(t, lines, env).Some? && Pass(t, lines, env).value.env == env
    ensures EnvAfter(t, lines, env, n) == Some(env)
  {
    if n > 0 { NothingMoves(t, lines, env, n - 1); }
  }

  /** How one line is sized. */
  lemma {:induction false} LineSized(t: Tools, line: Line, s: Sizing)
    requires LineDeclared(line, |s.env|)
    ensures var r := SizeLine(t, line, s);
            match line
            case Other => r == Some(s)
            case Block(address) => r == Some(s.(cur := address))
            case Define(l) => if s.cur == 0 then r.None?
              else r.Some? && r.value.env == s.env[l := s.cur] && r.value.cur == s.cur && (r.value.changed <==> s.changed || s.env[l] != s.cur)
            case Target(name) => if t.resolve(name, s.env) == 0 then r.None? else r == Some(s.(cur := t.resolve(name, s.env)))
            case Copy(_, size) => if s.cur == 0 then r.None? else Takes(s, r, size)
            case Reassemble(name) =>
              var source := t.resolve(name, s.env);
              if s.cur == 0 || source == 0 || t.sized(source, s.cur).None? then r.None? else Takes(s, r, t.sized(source, s.cur).value)
            case Code(parts) => exists pieces: seq<Piece> ::
              && SpelledSoFar(pieces, parts, s.env, s.cur)
              && var code := t.assemble(pieces, s.cur);
                 if s.cur == 0 || code.None? then r.None? else Takes(s, r, |code.value|)
  {
    if line.Define? && s.env[line.l] == s.cur { assert s.env[line.l := s.cur] == s.env; }
    if line.Code? { assert SpelledSoFar(ForSizing(line.parts, s.env, s.cur), line.parts, s.env, s.cur); }
  }

  /** The line takes up so many bytes, and addresses wrap around. */
  predicate Takes(s: Sizing, r: Option<Sizing>, size: nat)
  {
    r == Some(Sizing(s.env, (s.cur + size) % 0x1_0000_0000_0000_0000, s.changed))
  }

  /** Names are replaced by what is known so far; one not known yet is near. */
  predicate SpelledSoFar(pieces: seq<Piece>, parts: seq<Part>, env: seq<Addr>, cur: Addr)
  {
    && |pieces| == |parts|
    && forall i :: 0 <= i < |parts| ==>
      match parts[i]
      case Text(text) => pieces[i] == Word(text)
      case Ref(l) => l < |env| && pieces[i] == Number(if env[l] == 0 then cur else env[l])
  }

  /** Emission goes on over a line unless there is no place, or copied or moved code cannot be had any more. */
  lemma {:induction false} LineStops(t: Tools, line: Line, size: nat, e: Emission)
    requires LineDeclared(line, |e.env|)
    ensures EmitLine(t, line, size, e).None? <==>
            match line
            case Other => false
            case Block(_) => false
            case Define(_) => e.cur == 0
            case Target(name) => t.resolve(name, e.env) == 0
            case Code(parts) => e.cur == 0 || t.assemble(Substituted(parts, e.env), e.cur).None?
            case Copy(name, n) =>
              var source := t.resolve(name, e.env);
              e.cur == 0 || source == 0 || (n > 0 && (t.read(source, n).None? || |t.read(source, n).value| != n))
            case Reassemble(name) =>
              var source := t.resolve(name, e.env);
              e.cur == 0 || source == 0 || t.moved(source, e.cur).None? || size == 0 || |t.moved(source, e.cur).value| != size
  {
  }

  // -------------------------------------------------- code of one size everywhere

  /** No line's size and no target depends on where the labels are, as on A64. */
  ghost predicate FixedSizes(t: Tools, lines: seq<Line>, n: nat)
    requires Declared(lines, n)
  {
    && (forall k, a: seq<Addr>, b: seq<Addr>, cur: Addr :: 0 <= k < |lines| && |a| == n == |b| ==>
      Measure(t, lines[k], a, cur) == Measure(t, lines[k], b, cur))
    && (forall name, a: seq<Addr>, b: seq<Addr> :: Target(name) in lines && |a| == n == |b| ==>
      t.resolve(name, a) == t.resolve(name, b))
  }

  /** All definitions of a label are at the same place. */
  ghost predicate DefinitionsAgree(t: Tools, lines: seq<Line>, env: seq<Addr>)
    requires Declared(lines, |env|)
  {
    forall j, k :: 0 <= j < k < |lines| && lines[j].Define? && lines[j] == lines[k] ==>
      var a, b := Place(t, lines, env, j), Place(t, lines, env, k);
      a.Some? && b.Some? ==> a.value.cur == b.value.cur
  }

  lemma {:induction false} SamePlaces(t: Tools, lines: seq<Line>, a: Sizing, b: Sizing, n: nat)
    requires n <= |lines| && |a.env| == |b.env| && Declared(lines, |a.env|) && FixedSizes(t, lines, |a.env|) && a.cur == b.cur
    ensures var x, y := SizeUpTo(t, lines, a, n), SizeUpTo(t, lines, b, n);
            x.Some? == y.Some? && (x.Some? ==> x.value.cur == y.value.cur)
  {
    hide Measure;
    if n > 0 {
      SamePlaces(t, lines, a, b, n - 1);
      if lines[n - 1].Target? { assert lines[n - 1] in lines; }
    }
  }

  /** When the definitions agree, one pass gives each label defined so far its one address. */
  lemma {:induction false} LabelsGiven(t: Tools, lines: seq<Line>, env: seq<Addr>, n: nat)
    requires n <= |lines| && Declared(lines, |env|) && DefinitionsAgree(t, lines, env) && Place(t, lines, env, n).Some?
    ensures forall k :: 0 <= k < n && lines[k].Define? ==>
      Place(t, lines, env, k).Some? && Place(t, lines, env, n).value.env[lines[k].l] == Place(t, lines, env, k).value.cur != 0
  {
    if n > 0 {
      LabelsGiven(t, lines, env, n - 1);
      ChangedStays(t, lines, Sizing(env, 0, false), n - 1, n);
    }
  }

  lemma {:induction false} SecondPassSettled(t: Tools, lines: seq<Line>, env: seq<Addr>, next: seq<Addr>, n: nat)
    requires n <= |lines| && |env| == |next| && Declared(lines, |env|) && FixedSizes(t, lines, |env|)
    requires Pass(t, lines, env).Some?
    requires forall k :: 0 <= k < |lines| && lines[k].Define? && Place(t, lines, env, k).Some? ==>
      next[lines[k].l] == Place(t, lines, env, k).value.cur
    ensures Place(t, lines, next, n).Some? && Place(t, lines, next, n).value.env == next && !Place(t, lines, next, n).value.changed
  {
    hide Measure, FixedSizes;
    var start := Sizing(env, 0, false);
    SamePlaces(t, lines, start, Sizing(next, 0, false), n);
    ChangedStays(t, lines, start, n, |lines|);
    if n > 0 {
      SecondPassSettled(t, lines, env, next, n - 1);
      SamePlaces(t, lines, start, Sizing(next, 0, false), n - 1);
      ChangedStays(t, lines, start, n - 1, |lines|);
    }
  }

  /** With code of fixed size, labels resolve exactly when the code can be laid out and no label is
      defined at two places. */
  lemma {:induction false} ResolvesExactlyWhen(t: Tools, lines: seq<Line>, env: seq<Addr>)
    requires Declared(lines, |env|) && FixedSizes(t, lines, |env|)
    ensures Passes(t, lines, env, 8).Some? <==> Pass(t, lines, env).Some? && DefinitionsAgree(t, lines, env)
  {
    var start := Sizing(env, 0, false);
    if Passes(t, lines, env, MAX_PASSES).Some? {
      var found := Passes(t, lines, env, MAX_PASSES).value;
      ResolvedIsSettled(t, lines, env, MAX_PASSES);
      forall k | 0 <= k < |lines|
        ensures Place(t, lines, env, k).Some?
        ensures lines[k].Define? ==> Place(t, lines, env, k).value.cur == found[lines[k].l]
      {
        assert Place(t, lines, found, k).Some?;
        SamePlaces(t, lines, start, Sizing(found, 0, false), k);
      }
    }
    if Pass(t, lines, env).Some? && DefinitionsAgree(t, lines, env) {
      var next := Pass(t, lines, env).value.env;
      LabelsGiven(t, lines, env, |lines|);
      SecondPassSettled(t, lines, env, next, |lines|);
      assert Passes(t, lines, next, MAX_PASSES - 1) == Some(next);
    }
  }

  // -------------------------------------------------------------- the two passes

  /** Size the code until the labels settle, or give up after eight passes. */
  method ResolveForwardLabels(t: Tools, lines: seq<Line>, labels: array<Addr>) returns (ok: bool, sizes: seq<nat>)
    requires Declared(lines, labels.Length)
    modifies labels
    ensures ok <==> Passes(t, lines, old(labels[..]), 8).Some?
    ensures ok ==> Some(labels[..]) == Passes(t, lines, old(labels[..]), 8) && SizesOf(t, lines, labels[..], sizes)
  {
    hide SizeLine, Measure, Settled, Declared;
    sizes := [];
    for pass := 0 to MAX_PASSES
      invariant Passes(t, lines, old(labels[..]), MAX_PASSES) == Passes(t, lines, labels[..], MAX_PASSES - pass)
    {
      ghost var before := labels[..];
      var changed: bool;
      ok, changed, sizes := SizingPass(t, lines, labels);
      if !ok { return; }
      if !changed {
        UnchangedIsSettled(t, lines, before);
        UnchangedSizes(t, lines, before, sizes);
        return;
      }
    }
    ok := false;
  }

  /** One sizing pass. */
  method SizingPass(t: Tools, lines: seq<Line>, labels: array<Addr>) returns (ok: bool, changed: bool, sizes: seq<nat>)
    requires Declared(lines, labels.Length)
    modifies labels
    ensures ok <==> Pass(t, lines, old(labels[..])).Some?
    ensures ok ==> labels[..] == Pass(t, lines, old(labels[..])).value.env
    ensures ok ==> changed == Pass(t, lines, old(labels[..])).value.changed
    ensures ok ==> SizesDuring(t, lines, old(labels[..]), sizes, |lines|)
  {
    hide Measure;
    ghost var env := labels[..];
    ghost var start := Sizing(env, 0, false);
    var cur: Addr := 0;
    changed, sizes := false, seq(|lines|, i => 0);
    for k := 0 to |lines|
      invariant SizeUpTo(t, lines, start, k) == Some(Sizing(labels[..], cur, changed))
      invariant SizesDuring(t, lines, env, sizes, k)
    {
      ghost var was := labels[..];
      var line := lines[k];
      if line.Block? {
        cur := line.address;
      } else if line.Define? {
        if cur == 0 { StopsAt(t, lines, start, k); return false, changed, sizes; }
        if labels[line.l] != cur {
          labels[line.l] := cur;
          changed := true;
        }
        assert labels[..] == if was[line.l] != cur then was[line.l := cur] else was;
      } else if line.Target? {
        var a := t.resolve(line.name, labels[..]);
        if a == 0 { StopsAt(t, lines, start, k); return false, changed, sizes; }
        cur := a;
      } else if !line.Other? {
        if cur == 0 { StopsAt(t, lines, start, k); return false, changed, sizes; }
        var size := Measure(t, line, labels[..], cur);
        if size.None? { StopsAt(t, lines, start, k); return false, changed, sizes; }
        if line.Reassemble? { sizes := sizes[k := size.value]; }
        cur := Advance(cur, size.value);
      }
    }
    ok := true;
  }

  /** The sizes recorded so far for moved code. */
  ghost predicate SizesDuring(t: Tools, lines: seq<Line>, env: seq<Addr>, sizes: seq<nat>, n: nat)
    requires n <= |lines| && Declared(lines, |env|)
  {
    && |sizes| == |lines|
    && forall k :: 0 <= k < n && lines[k].Reassemble? ==>
      var s := Place(t, lines, env, k);
      s.Some? && Measure(t, lines[k], s.value.env, s.value.cur) == Some(sizes[k])
  }

  lemma {:induction false} StopsAt(t: Tools, lines: seq<Line>, s: Sizing, k: nat)
    requires k < |lines| && Declared(lines, |s.env|) && SizeUpTo(t, lines, s, k + 1).None?
    ensures SizeUpTo(t, lines, s, |lines|).None?
  {
    if SizeUpTo(t, lines, s, |lines|).Some? { ChangedStays(t, lines, s, k + 1, |lines|); }
  }

  lemma {:induction false} UnchangedSizes(t: Tools, lines: seq<Line>, env: seq<Addr>, sizes: seq<nat>)
    requires Declared(lines, |env|) && Settled(t, lines, env) && SizesDuring(t, lines, env, sizes, |lines|)
    ensures SizesOf(t, lines, env, sizes)
  {
    hide Measure, Place;
  }

  /** Assemble every line at its place; `writes` is what reaches memory, in order. */
  method EmitLines(t: Tools, lines: seq<Line>, labels: array<Addr>, sizes: seq<nat>)
    returns (ok: bool, writes: seq<(Addr, seq<Byte>)>)
    requires Declared(lines, labels.Length) && |sizes| == |lines|
    modifies labels
    ensures var r := EmitUpTo(t, lines, sizes, Emission(old(labels[..]), 0, []), |lines|);
            ok == r.Some? && (ok ==> labels[..] == r.value.env && writes == r.value.writes)
  {
    hide CodeOf;
    ghost var start := Emission(labels[..], 0, []);
    var cur: Addr := 0;
    writes := [];
    for k := 0 to |lines|
      invariant EmitUpTo(t, lines, sizes, start, k) == Some(Emission(labels[..], cur, writes))
    {
      ghost var was := labels[..];
      var line := lines[k];
      if line.Block? {
        cur := line.address;
      } else if line.Define? {
        if cur == 0 { EmissionStopsAt(t, lines, sizes, start, k, |lines|); return false, writes; }
        labels[line.l] := cur;
        assert labels[..] == was[line.l := cur];
      } else if line.Target? {
        var a := t.resolve(line.name, labels[..]);
        if a == 0 { EmissionStopsAt(t, lines, sizes, start, k, |lines|); return false, writes; }
        cur := a;
      } else if !line.Other? {
        if cur == 0 { EmissionStopsAt(t, lines, sizes, start, k, |lines|); return false, writes; }
        var code := CodeOf(t, line, labels[..], cur, sizes[k]);
        if code.None? { EmissionStopsAt(t, lines, sizes, start, k, |lines|); return false, writes; }
        if code.value != [] {
          writes := writes + [(cur, code.value)];
          cur := Advance(cur, |code.value|);
        }
      }
    }
    ok := true;
  }

  lemma {:induction false} EmissionStopsAt(t: Tools, lines: seq<Line>, sizes: seq<nat>, e: Emission, k: nat, n: nat)
    requires k < n <= |lines| == |sizes| && Declared(lines, |e.env|) && EmitUpTo(t, lines, sizes, e, k + 1).None?
    ensures EmitUpTo(t, lines, sizes, e, n).None?
    decreases n
  {
    if k + 1 < n { EmissionStopsAt(t, lines, sizes, e, k, n - 1); }
  }
}
