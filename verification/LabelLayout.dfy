/** core/autoasm.cpp: where the lines of a script end up once its labels are resolved: one behind the other, labels between them. */
module LabelLayout {
  import opened Memory
  import opened Labels

  /** Emission after `n` lines. */
  ghost function After(t: Tools, lines: seq<Line>, found: seq<Addr>, sizes: seq<nat>, n: nat): Option<Emission>
    requires n <= |lines| == |sizes| && Declared(lines, |found|)
  {
    EmitUpTo(t, lines, sizes, Emission(found, 0, []), n)
  }

  /** The numbers of the lines among the first `n` that write something. */
  ghost function Writers(t: Tools, lines: seq<Line>, found: seq<Addr>, sizes: seq<nat>, n: nat): seq<nat>
    requires n <= |lines| == |sizes| && Declared(lines, |found|) && After(t, lines, found, sizes, n).Some?
  {
    if n == 0 then []
    else
      var more := |After(t, lines, found, sizes, n - 1).value.writes| < |After(t, lines, found, sizes, n).value.writes|;
      Writers(t, lines, found, sizes, n - 1) + if more then [n - 1] else []
  }

  /** The labels are resolved and the lines can be emitted. */
  ghost predicate Laid(t: Tools, lines: seq<Line>, found: seq<Addr>, sizes: seq<nat>)
  {
    && Declared(lines, |found|) && |lines| == |sizes| && AllDefined(lines)
    && Settled(t, lines, found) && SizesOf(t, lines, found, sizes)
    && After(t, lines, found, sizes, |lines|).Some?
  }

  /** No line between these two goes on at another place. */
  predicate Straight(lines: seq<Line>, j: nat, k: nat)
    requires k <= |lines|
  {
    forall m :: j < m < k ==> !lines[m].Block? && !lines[m].Target?
  }

  lemma {:induction false} PrefixLaid(t: Tools, lines: seq<Line>, found: seq<Addr>, sizes: seq<nat>, n: nat)
    requires Laid(t, lines, found, sizes) && n <= |lines|
    ensures After(t, lines, found, sizes, n).Some? && After(t, lines, found, sizes, n).value.env == found
  {
    hide EmitUpTo, Settled, SizesOf, AllDefined, Declared, Place, WritesUpTo, CopiesHold;
    EmissionAgrees(t, lines, found, sizes, n);
    if After(t, lines, found, sizes, n).None? { StoppedBefore(t, lines, found, sizes, n); }
  }

  lemma {:induction false} StoppedBefore(t: Tools, lines: seq<Line>, found: seq<Addr>, sizes: seq<nat>, n: nat)
    requires n <= |lines| == |sizes| && Declared(lines, |found|) && After(t, lines, found, sizes, n).None?
    ensures After(t, lines, found, sizes, |lines|).None?
  {
    hide EmitLine;
    if 0 < n < |lines| { EmissionStopsAt(t, lines, sizes, Emission(found, 0, []), n - 1, |lines|); }
  }

  lemma {:induction false} OneStep(t: Tools, lines: seq<Line>, found: seq<Addr>, sizes: seq<nat>, k: nat)
    requires k < |lines| == |sizes| && Declared(lines, |found|)
    requires After(t, lines, found, sizes, k).Some? && After(t, lines, found, sizes, k).value.env == found
    ensures After(t, lines, found, sizes, k + 1) == EmitLine(t, lines[k], sizes[k], After(t, lines, found, sizes, k).value)
  {
    hide EmitLine;
  }

  /** What one line does: it goes on at another place, or behind the code it puts where it is. */
  lemma {:induction false} OneLine(t: Tools, line: Line, size: nat, here: Emission, next: Emission)
    requires LineDeclared(line, |here.env|) && EmitLine(t, line, size, here) == Some(next)
    ensures match line
            case Other => next == here
            case Block(address) => next.cur == address && next.writes == here.writes
            case Define(l) => here.cur != 0 && next.cur == here.cur && next.writes == here.writes
            case Target(name) => next.cur == t.resolve(name, here.env) != 0 && next.writes == here.writes
            case _ => here.cur != 0 && exists code: seq<Byte> :: Puts(here, next, code)
  {
    hide CodeOf;
    if line.Code? || line.Copy? || line.Reassemble? {
      var code := CodeOf(t, line, here.env, here.cur, size).value;
      assert code == [] ==> next.cur == here.cur;
      assert Puts(here, next, code);
    }
  }

  /** Exactly this code is written, at the place, and the place is behind it then. */
  predicate Puts(here: Emission, next: Emission, code: seq<Byte>)
  {
    && next.writes == (if code == [] then here.writes else here.writes + [(here.cur, code)])
    && next.cur == (here.cur + |code|) % 0x1_0000_0000_0000_0000
  }

  /** What a line that makes code puts where it is, and that it puts nothing only when it has none. */
  lemma {:induction false} LineGivesCode(t: Tools, lines: seq<Line>, found: seq<Addr>, sizes: seq<nat>, k: nat)
    requires Laid(t, lines, found, sizes) && k < |lines|
    ensures After(t, lines, found, sizes, k).Some? && After(t, lines, found, sizes, k + 1).Some?
    ensures var here, next := After(t, lines, found, sizes, k).value, After(t, lines, found, sizes, k + 1).value;
            match lines[k]
            case Code(parts) => exists pieces: seq<Piece>, code: seq<Byte> ::
              t.assemble(pieces, here.cur) == Some(code) && Puts(here, next, code) && Spelled(pieces, parts, found)
            case Copy(name, n) => exists code: seq<Byte> ::
              Puts(here, next, code) && |code| == n && (n > 0 ==> t.read(t.resolve(name, found), n) == Some(code))
            case Reassemble(name) => exists code: seq<Byte> ::
              Puts(here, next, code) && |code| == sizes[k] > 0 && t.moved(t.resolve(name, found), here.cur) == Some(code)
            case _ => next.writes == here.writes
  {
    hide Laid, After, ForSizing, EmitLine;
    LaidIsDeclared(t, lines, found, sizes);
    PrefixLaid(t, lines, found, sizes, k);
    PrefixLaid(t, lines, found, sizes, k + 1);
    OneStep(t, lines, found, sizes, k);
    NamesHaveAddresses(t, lines, found, sizes, k);
    CodePut(t, lines[k], sizes[k], After(t, lines, found, sizes, k).value, After(t, lines, found, sizes, k + 1).value);
  }

  /** The assembler gets the text with every name replaced by the label's address. */
  predicate Spelled(pieces: seq<Piece>, parts: seq<Part>, found: seq<Addr>)
  {
    && |pieces| == |parts|
    && forall i :: 0 <= i < |parts| ==>
      match parts[i] case Text(text) => pieces[i] == Word(text) case Ref(l) => l < |found| && pieces[i] == Number(found[l])
  }

  predicate NamesGiven(line: Line, found: seq<Addr>)
  {
    line.Code? ==>
      forall i :: 0 <= i < |line.parts| && line.parts[i].Ref? ==> line.parts[i].l < |found| && found[line.parts[i].l] != 0
  }

  lemma {:induction false} CodePut(t: Tools, line: Line, size: nat, here: Emission, next: Emission)
    requires LineDeclared(line, |here.env|) && EmitLine(t, line, size, here) == Some(next) && NamesGiven(line, here.env)
    ensures match line
            case Code(parts) => exists pieces: seq<Piece>, code: seq<Byte> ::
              t.assemble(pieces, here.cur) == Some(code) && Puts(here, next, code) && Spelled(pieces, parts, here.env)
            case Copy(name, n) => exists code: seq<Byte> ::
              Puts(here, next, code) && |code| == n && (n > 0 ==> t.read(t.resolve(name, here.env), n) == Some(code))
            case Reassemble(name) => exists code: seq<Byte> ::
              Puts(here, next, code) && |code| == size > 0 && t.moved(t.resolve(name, here.env), here.cur) == Some(code)
            case _ => next.writes == here.writes
  {
    if line.Code? || line.Copy? || line.Reassemble? {
      var code := CodeOf(t, line, here.env, here.cur, size).value;
      assert Puts(here, next, code);
      if line.Code? {
        var pieces := Substituted(line.parts, here.env);
        assert t.assemble(pieces, here.cur) == Some(code) && Spelled(pieces, line.parts, here.env);
      }
    }
  }

  lemma {:induction false} NamesHaveAddresses(t: Tools, lines: seq<Line>, found: seq<Addr>, sizes: seq<nat>, k: nat)
    requires Laid(t, lines, found, sizes) && k < |lines|
    ensures NamesGiven(lines[k], found)
  {
    hide Settled, SizesOf, Declared;
    if lines[k].Code? {
      forall i | 0 <= i < |lines[k].parts| && lines[k].parts[i].Ref?
        ensures lines[k].parts[i].l < |found| && found[lines[k].parts[i].l] != 0
      {
        assert Refers(lines[k], lines[k].parts[i].l);
        DefinedHasAddress(t, lines, found, lines[k].parts[i].l);
      }
    }
  }

  /** Until something is written or a line goes on elsewhere, the place stays the same. */
  lemma {:induction false} Stays(t: Tools, lines: seq<Line>, found: seq<Addr>, sizes: seq<nat>, j: nat, k: nat)
    requires Laid(t, lines, found, sizes) && j <= k <= |lines|
    ensures After(t, lines, found, sizes, j).Some? && After(t, lines, found, sizes, k).Some?
    ensures var a, b := After(t, lines, found, sizes, j).value, After(t, lines, found, sizes, k).value;
            && |a.writes| <= |b.writes|
            && (|a.writes| == |b.writes| && (forall m :: j <= m < k ==> !lines[m].Block? && !lines[m].Target?) ==> a.cur == b.cur)
    decreases k
  {
    hide Laid, After;
    PrefixLaid(t, lines, found, sizes, j);
    PrefixLaid(t, lines, found, sizes, k);
    if j < k {
      Stays(t, lines, found, sizes, j, k - 1);
      LaidIsDeclared(t, lines, found, sizes);
      PrefixLaid(t, lines, found, sizes, k - 1);
      LineDone(t, lines, found, sizes, k - 1);
    }
  }

  lemma {:induction false} LineDone(t: Tools, lines: seq<Line>, found: seq<Addr>, sizes: seq<nat>, k: nat)
    requires k < |lines| == |sizes| && Declared(lines, |found|)
    requires After(t, lines, found, sizes, k).Some? && After(t, lines, found, sizes, k + 1).Some?
    requires After(t, lines, found, sizes, k).value.env == found
    ensures var here, next := After(t, lines, found, sizes, k).value, After(t, lines, found, sizes, k + 1).value;
            && (next.writes == here.writes || MadeBy(t, lines, found, sizes, next.writes[|here.writes|], |here.writes|, k))
            && (next.writes != here.writes ==>
                  |next.writes| == |here.writes| + 1 && next.writes[..|here.writes|] == here.writes)
            && (next.writes == here.writes && !lines[k].Block? && !lines[k].Target? ==> next.cur == here.cur)
            && (lines[k].Block? ==> next.cur == lines[k].address && next.writes == here.writes)
            && (lines[k].Target? ==> next.cur == t.resolve(lines[k].name, found) && next.writes == here.writes)
  {
    hide After, EmitLine;
    var here, next := After(t, lines, found, sizes, k).value, After(t, lines, found, sizes, k + 1).value;
    OneStep(t, lines, found, sizes, k);
    OneLine(t, lines[k], sizes[k], here, next);
  }

  lemma {:induction false} LaidIsDeclared(t: Tools, lines: seq<Line>, found: seq<Addr>, sizes: seq<nat>)
    requires Laid(t, lines, found, sizes)
    ensures Declared(lines, |found|) && |lines| == |sizes|
  {
  }

  /** Write `i` is made by line `k`, at the place of that line; the next line is behind it. */
  ghost predicate MadeBy(t: Tools, lines: seq<Line>, found: seq<Addr>, sizes: seq<nat>, w: (Addr, seq<Byte>), i: nat, k: nat)
  {
    && k < |lines| == |sizes| && Declared(lines, |found|)
    && After(t, lines, found, sizes, k).Some? && After(t, lines, found, sizes, k + 1).Some?
    && var here, next := After(t, lines, found, sizes, k).value, After(t, lines, found, sizes, k + 1).value;
       && w.0 == here.cur && w.1 != [] && next.cur == (w.0 + |w.1|) % 0x1_0000_0000_0000_0000
       && |here.writes| == i && |next.writes| == i + 1
       && (lines[k].Code? || lines[k].Copy? || lines[k].Reassemble?)
  }

  lemma {:induction false} WritersMade(t: Tools, lines: seq<Line>, found: seq<Addr>, sizes: seq<nat>, n: nat)
    requires Laid(t, lines, found, sizes) && n <= |lines|
    ensures After(t, lines, found, sizes, n).Some?
    ensures var writes, from := After(t, lines, found, sizes, n).value.writes, Writers(t, lines, found, sizes, n);
            && |from| == |writes|
            && (forall i :: 0 <= i < |from| ==> from[i] < n && MadeBy(t, lines, found, sizes, writes[i], i, from[i]))
            && (forall i, j :: 0 <= i < j < |from| ==> from[i] < from[j])
  {
    hide Laid, After, Declared, MadeBy;
    PrefixLaid(t, lines, found, sizes, n);
    LaidIsDeclared(t, lines, found, sizes);
    if n == 0 {
      NoneWritten(t, lines, found, sizes);
    } else {
      WritersMade(t, lines, found, sizes, n - 1);
      PrefixLaid(t, lines, found, sizes, n - 1);
      LineDone(t, lines, found, sizes, n - 1);
    }
  }

  lemma {:induction false} NoneWritten(t: Tools, lines: seq<Line>, found: seq<Addr>, sizes: seq<nat>)
    requires |lines| == |sizes| && Declared(lines, |found|)
    ensures After(t, lines, found, sizes, 0) == Some(Emission(found, 0, []))
  {
  }

  lemma {:induction false} BehindWrite(t: Tools, lines: seq<Line>, found: seq<Addr>, sizes: seq<nat>, i: nat, k: nat)
    requires Laid(t, lines, found, sizes) && k <= |lines|
    requires After(t, lines, found, sizes, |lines|).Some? && After(t, lines, found, sizes, k).Some?
    requires |After(t, lines, found, sizes, k).value.writes| == i + 1
    requires var writes, from := After(t, lines, found, sizes, |lines|).value.writes, Writers(t, lines, found, sizes, |lines|);
             i < |writes| == |from| && from[i] < k && Straight(lines, from[i], k)
    ensures var w := After(t, lines, found, sizes, |lines|).value.writes[i];
            After(t, lines, found, sizes, k).value.cur == (w.0 + |w.1|) % 0x1_0000_0000_0000_0000
  {
    hide Laid, After, Writers;
    LaidIsDeclared(t, lines, found, sizes);
    WritersMade(t, lines, found, sizes, |lines|);
    Stays(t, lines, found, sizes, Writers(t, lines, found, sizes, |lines|)[i] + 1, k);
  }

  /** The writes up to line `k` are those of the lines before it. */
  lemma {:induction false} CountedUpTo(t: Tools, lines: seq<Line>, found: seq<Addr>, sizes: seq<nat>, k: nat, i: nat)
    requires Laid(t, lines, found, sizes) && k <= |lines| && After(t, lines, found, sizes, |lines|).Some?
    requires var from := Writers(t, lines, found, sizes, |lines|);
             i <= |from| && (i < |from| ==> k <= from[i]) && (i > 0 ==> from[i - 1] < k)
    ensures After(t, lines, found, sizes, k).Some? && |After(t, lines, found, sizes, k).value.writes| == i
  {
    hide Laid, After, Writers;
    LaidIsDeclared(t, lines, found, sizes);
    WritersMade(t, lines, found, sizes, |lines|);
    PrefixLaid(t, lines, found, sizes, k);
    var from := Writers(t, lines, found, sizes, |lines|);
    if i > 0 { Stays(t, lines, found, sizes, from[i - 1] + 1, k); }
    if i < |from| { Stays(t, lines, found, sizes, k, from[i]); } else { Stays(t, lines, found, sizes, k, |lines|); }
  }

  lemma {:induction false} LabelHere(t: Tools, lines: seq<Line>, found: seq<Addr>, sizes: seq<nat>, k: nat)
    requires Laid(t, lines, found, sizes) && k < |lines| && lines[k].Define? && After(t, lines, found, sizes, k).Some?
    ensures lines[k].l < |found| && found[lines[k].l] == After(t, lines, found, sizes, k).value.cur
  {
    hide EmitUpTo, SizesOf, AllDefined, Declared, WritesUpTo, CopiesHold;
    EmissionAgrees(t, lines, found, sizes, k);
    assert Place(t, lines, found, k).Some?;
    SettledAt(t, lines, found, k);
    LabelDeclared(lines, |found|, k);
  }

  lemma {:induction false} LabelDeclared(lines: seq<Line>, n: nat, k: nat)
    requires Declared(lines, n) && k < |lines| && lines[k].Define?
    ensures lines[k].l < n
  {
  }

  lemma {:induction false} ResolvedIsLaid(t: Tools, lines: seq<Line>, env: seq<Addr>, found: seq<Addr>, sizes: seq<nat>)
    requires |lines| == |sizes| && Declared(lines, |env|) && AllDefined(lines) && Passes(t, lines, env, 8) == Some(found)
    requires SizesOf(t, lines, found, sizes) && After(t, lines, found, sizes, |lines|).Some?
    ensures Laid(t, lines, found, sizes)
  {
    hide Settled, Passes, SizesOf, After, AllDefined;
    ResolvedIsSettled(t, lines, env, 8);
  }

  /** Code stands end to end once the labels are resolved. Take write `i` and a line `k` behind the
      one that made it, up to the line of the next write, with no change of place between them. A
      label defined there stands for the address right behind the write, and so does the next write. */
  lemma {:induction false} EndToEnd(t: Tools, lines: seq<Line>, env: seq<Addr>, found: seq<Addr>, sizes: seq<nat>, i: nat, k: nat)
    requires |lines| == |sizes| && Declared(lines, |env|) && AllDefined(lines) && Passes(t, lines, env, 8) == Some(found)
    requires SizesOf(t, lines, found, sizes) && After(t, lines, found, sizes, |lines|).Some?
    requires var from := Writers(t, lines, found, sizes, |lines|);
             && i < |from| && from[i] < k <= |lines| && (i + 1 < |from| ==> k <= from[i + 1])
             && forall m :: from[i] < m < k ==> !lines[m].Block? && !lines[m].Target?
    ensures var writes, from := After(t, lines, found, sizes, |lines|).value.writes, Writers(t, lines, found, sizes, |lines|);
            |from| == |writes| &&
            var (address, code) := writes[i];
            var behind := (address + |code|) % 0x1_0000_0000_0000_0000;
            && (i + 1 < |writes| && k == from[i + 1] ==> writes[i + 1].0 == behind)
            && (k < |lines| && lines[k].Define? ==> lines[k].l < |found| && found[lines[k].l] == behind)
  {
    hide Laid, After, Writers, SizesOf, AllDefined, Declared;
    ResolvedIsLaid(t, lines, env, found, sizes);
    WritersMade(t, lines, found, sizes, |lines|);
    CountedUpTo(t, lines, found, sizes, k, i + 1);
    BehindWrite(t, lines, found, sizes, i, k);
    if k < |lines| && lines[k].Define? { LabelHere(t, lines, found, sizes, k); }
  }

  /** After a change of place, whatever comes first, code or a label, is at the place gone to. */
  lemma {:induction false} GoneTo(t: Tools, lines: seq<Line>, env: seq<Addr>, found: seq<Addr>, sizes: seq<nat>, j: nat, k: nat)
    requires |lines| == |sizes| && Declared(lines, |env|) && AllDefined(lines) && Passes(t, lines, env, 8) == Some(found)
    requires SizesOf(t, lines, found, sizes) && After(t, lines, found, sizes, |lines|).Some?
    requires j < k < |lines| && (lines[j].Block? || lines[j].Target?)
    requires forall m :: j < m < k ==> !lines[m].Block? && !lines[m].Target?
    requires var from := Writers(t, lines, found, sizes, |lines|); forall i :: 0 <= i < |from| ==> !(j < from[i] < k)
    ensures var writes, from := After(t, lines, found, sizes, |lines|).value.writes, Writers(t, lines, found, sizes, |lines|);
            var place := if lines[j].Block? then lines[j].address else t.resolve(lines[j].name, found);
            && |from| == |writes|
            && (forall i :: 0 <= i < |from| && from[i] == k ==> writes[i].0 == place)
            && (lines[k].Define? ==> lines[k].l < |found| && found[lines[k].l] == place)
  {
    hide Laid, After, Writers, SizesOf, AllDefined, Declared, Passes;
    ResolvedIsLaid(t, lines, env, found, sizes);
    WritersMade(t, lines, found, sizes, |lines|);
    PrefixLaid(t, lines, found, sizes, j);
    PrefixLaid(t, lines, found, sizes, j + 1);
    LineDone(t, lines, found, sizes, j);
    NoneBetween(t, lines, found, sizes, j + 1, k);
    Stays(t, lines, found, sizes, j + 1, k);
    if lines[k].Define? { LabelHere(t, lines, found, sizes, k); }
  }

  lemma {:induction false} NoneBetween(t: Tools, lines: seq<Line>, found: seq<Addr>, sizes: seq<nat>, j: nat, k: nat)
    requires Laid(t, lines, found, sizes) && j <= k <= |lines| && After(t, lines, found, sizes, |lines|).Some?
    requires var from := Writers(t, lines, found, sizes, |lines|); forall i :: 0 <= i < |from| ==> !(j <= from[i] < k)
    ensures After(t, lines, found, sizes, j).Some? && After(t, lines, found, sizes, k).Some?
    ensures |After(t, lines, found, sizes, j).value.writes| == |After(t, lines, found, sizes, k).value.writes|
  {
    hide Laid, After, Writers;
    LaidIsDeclared(t, lines, found, sizes);
    WritersMade(t, lines, found, sizes, |lines|);
    Stays(t, lines, found, sizes, j, k);
    Stays(t, lines, found, sizes, k, |lines|);
    var from, i := Writers(t, lines, found, sizes, |lines|), |After(t, lines, found, sizes, j).value.writes|;
    if i < |After(t, lines, found, sizes, k).value.writes| {
      if from[i] < j { Stays(t, lines, found, sizes, from[i] + 1, j); } else { Stays(t, lines, found, sizes, k, from[i]); }
      assert false;
    }
  }
}
