/**
  core/autoasm.cpp: which flat lists the choice between {$try} and {$except} accepts, among them
  lists that are no nested blocks.
 */
module TryAcceptance {
  import opened Memory
  import opened Texts
  import opened TryExcept

  // ---------------------------------------------------------- markers that pair up

  /** How many blocks are open after `s`, when `d` were before it; none when more close. */
  function DepthAfter(s: seq<Line>, d: nat): Option<nat>
  {
    if s == [] then Some(d)
    else if s[0] == Begin then DepthAfter(s[1..], d + 1)
    else if s[0] == End then if d == 0 then None else DepthAfter(s[1..], d - 1)
    else DepthAfter(s[1..], d)
  }

  /** Every {$endtry} closes a {$try} of the same lines, and all are closed. */
  predicate Paired(s: seq<Line>) { DepthAfter(s, 0) == Some(0) }

  /** No {$except} stands outside of the blocks in `s`, of which `d` are open before it. */
  predicate OuterFree(s: seq<Line>, d: nat)
  {
    s == [] ||
    (!(s[0] == Except && d == 0)
     && OuterFree(s[1..], if s[0] == Begin then d + 1 else if s[0] == End && d > 0 then d - 1 else d))
  }

  lemma {:induction false} DepthJoins(a: seq<Line>, b: seq<Line>, d: nat)
    ensures DepthAfter(a + b, d) == if DepthAfter(a, d).None? then None else DepthAfter(b, DepthAfter(a, d).value)
  {
    if a == [] {
      assert a + b == b;
    } else {
      assert (a + b)[1..] == a[1..] + b;
      DepthJoins(a[1..], b, if a[0] == Begin then d + 1 else if a[0] == End && d > 0 then d - 1 else d);
    }
  }

  lemma {:induction false} FreeJoins(a: seq<Line>, b: seq<Line>, d: nat)
    requires DepthAfter(a, d).Some?
    ensures OuterFree(a + b, d) <==> OuterFree(a, d) && OuterFree(b, DepthAfter(a, d).value)
  {
    if a == [] {
      assert a + b == b;
    } else {
      assert (a + b)[1..] == a[1..] + b;
      FreeJoins(a[1..], b, if a[0] == Begin then d + 1 else if a[0] == End && d > 0 then d - 1 else d);
    }
  }

  lemma {:induction false} DepthShifts(s: seq<Line>, d: nat, more: nat)
    requires DepthAfter(s, d).Some?
    ensures DepthAfter(s, d + more) == Some(DepthAfter(s, d).value + more)
  {
    if s != [] { DepthShifts(s[1..], if s[0] == Begin then d + 1 else if s[0] == End then d - 1 else d, more); }
  }

  lemma {:induction false} DeeperIsFree(s: seq<Line>, d: nat)
    requires DepthAfter(s, d).Some?
    ensures OuterFree(s, d + 1)
  {
    if s != [] { DeeperIsFree(s[1..], if s[0] == Begin then d + 1 else if s[0] == End then d - 1 else d); }
  }

  // ----------------------------------------------------- what the scan for a block finds

  /** Scanning lines that leave `d'` of their own `d` blocks open, inside one more block. */
  lemma {:induction false} ScanSegment(lines: seq<Line>, j: nat, s: seq<Line>, d: nat, except: Option<nat>) returns (last: Option<nat>)
    requires At(lines, j, s) && DepthAfter(s, d).Some? && (except.Some? ==> except.value < j)
    ensures j + |s| <= |lines| && (last.Some? ==> last.value < j + |s|)
    ensures BoundsFrom(lines, j, d + 1, except) == BoundsFrom(lines, j + |s|, DepthAfter(s, d).value + 1, last)
    ensures OuterFree(s, d) ==> last == except
    decreases |s|
  {
    hide BoundsFrom, At;
    AtIs(lines, j, s);
    if s == [] {
      last := except;
    } else {
      assert s == [s[0]] + s[1..];
      AtParts(lines, j, [s[0]], s[1..]);
      AtOne(lines, j, s[0]);
      var d1 := if s[0] == Begin then d + 1 else if s[0] == End then d - 1 else d;
      var e1 := if s[0] == Except && d == 0 then Some(j) else except;
      ScanStep(lines, j, d, except);
      last := ScanSegment(lines, j + 1, s[1..], d1, e1);
    }
  }

  /** The scan at a line that does not end the block. */
  lemma {:induction false} ScanStep(lines: seq<Line>, j: nat, d: nat, except: Option<nat>)
    requires j < |lines| && (except.Some? ==> except.value < j) && !(lines[j] == End && d == 0)
    ensures BoundsFrom(lines, j, d + 1, except)
      == BoundsFrom(lines, j + 1, if lines[j] == Begin then d + 2 else if lines[j] == End then d else d + 1,
                    if lines[j] == Except && d == 0 then Some(j) else except)
  {
  }

  /** What the scan found is what it promises: paired lines up to the last {$except} and from there to
      the {$endtry}, with no other {$except} of this block after it. */
  lemma {:induction false} ScanFound(lines: seq<Line>, j: nat, d: nat, except: Option<nat>)
    requires j <= |lines| && (except.Some? ==> except.value < j)
    requires BoundsFrom(lines, j, d + 1, except).end.Some?
    ensures var r := BoundsFrom(lines, j, d + 1, except);
            var e := r.end.value;
            && lines[e] == End && DepthAfter(lines[j..e], d) == Some(0)
            && ((r.except == except && OuterFree(lines[j..e], d))
                || (r.except.Some? && j <= r.except.value < e && lines[r.except.value] == Except
                    && DepthAfter(lines[j..r.except.value], d) == Some(0)
                    && Paired(lines[r.except.value + 1..e]) && OuterFree(lines[r.except.value + 1..e], 0)))
    decreases |lines| - j
  {
    hide BoundsFrom, DepthAfter, Paired, OuterFree;
    ScanEnds(lines, j, d, except);
    var l := lines[j];
    var r := BoundsFrom(lines, j, d + 1, except);
    var e := r.end.value;
    DepthFirst(lines[j..j], d);
    if l == End && d == 0 {
      assert lines[j..e] == [];
    } else {
      var d1 := if l == Begin then d + 1 else if l == End then d - 1 else d;
      var e1 := if l == Except && d == 0 then Some(j) else except;
      ScanStep(lines, j, d, except);
      ScanFound(lines, j + 1, d1, e1);
      FirstOf(lines, j, e);
      DepthFirst(lines[j..e], d);
      if r.except.Some? && j + 1 <= r.except.value < e {
        FirstOf(lines, j, r.except.value);
        DepthFirst(lines[j..r.except.value], d);
      }
      if e1 != except {
        assert lines[j..j] == [];
        PairedIs(lines[j + 1..e]);
      }
    }
  }

  /** The scan finds an end only among the lines, and at once when the block ends here. */
  lemma {:induction false} ScanEnds(lines: seq<Line>, j: nat, d: nat, except: Option<nat>)
    requires j <= |lines| && (except.Some? ==> except.value < j)
    requires BoundsFrom(lines, j, d + 1, except).end.Some?
    ensures j < |lines| && (lines[j] == End && d == 0 ==> BoundsFrom(lines, j, d + 1, except) == Bounds(except, Some(j)))
  {
  }

  lemma {:induction false} PairedIs(s: seq<Line>)
    ensures Paired(s) <==> DepthAfter(s, 0) == Some(0)
  {
  }

  /** The first line decides how the rest is read. */
  lemma {:induction false} DepthFirst(s: seq<Line>, d: nat)
    ensures s == [] ==> DepthAfter(s, d) == Some(d) && OuterFree(s, d)
    ensures s != [] && !(s[0] == End && d == 0) ==>
              var d1 := if s[0] == Begin then d + 1 else if s[0] == End then d - 1 else d;
              DepthAfter(s, d) == DepthAfter(s[1..], d1) && (OuterFree(s, d) <==> !(s[0] == Except && d == 0) && OuterFree(s[1..], d1))
  {
  }

  lemma {:induction false} FirstOf(lines: seq<Line>, j: nat, e: nat)
    requires j < e <= |lines|
    ensures lines[j..e] != [] && lines[j..e][0] == lines[j] && lines[j..e][1..] == lines[j + 1..e]
  {
  }

  /** A block is where its lines pair up, its last own {$except} at `x` and its end at `e`. */
  ghost predicate BlockAt(lines: seq<Line>, i: nat, x: nat, e: nat)
  {
    && i < x < e < |lines| && lines[i] == Begin && lines[x] == Except && lines[e] == End
    && Paired(lines[i + 1..x]) && Paired(lines[x + 1..e]) && OuterFree(lines[x + 1..e], 0)
  }

  lemma {:induction false} BoundsAreBlock(lines: seq<Line>, i: nat, x: nat, e: nat)
    requires i < |lines| && lines[i] == Begin
    ensures BoundsFrom(lines, i + 1, 1, None) == Bounds(Some(x), Some(e)) <==> BlockAt(lines, i, x, e)
  {
    hide BoundsFrom, BlockAt;
    if BoundsFrom(lines, i + 1, 1, None) == Bounds(Some(x), Some(e)) { BoundsMeanBlock(lines, i, x, e); }
    if BlockAt(lines, i, x, e) { BlockHasBounds(lines, i, x, e); }
  }

  lemma {:induction false} BoundsMeanBlock(lines: seq<Line>, i: nat, x: nat, e: nat)
    requires i < |lines| && lines[i] == Begin && BoundsFrom(lines, i + 1, 1, None) == Bounds(Some(x), Some(e))
    ensures BlockAt(lines, i, x, e)
  {
    hide BoundsFrom, OuterFree, DepthAfter;
    ScanFound(lines, i + 1, 0, None);
  }

  lemma {:induction false} BlockHasBounds(lines: seq<Line>, i: nat, x: nat, e: nat)
    requires BlockAt(lines, i, x, e)
    ensures BoundsFrom(lines, i + 1, 1, None) == Bounds(Some(x), Some(e))
  {
    hide BoundsFrom, OuterFree, DepthAfter;
    var before := ScanSegment(lines, i + 1, lines[i + 1..x], 0, None);
    ExceptStep(lines, x, before);
    var last := ScanSegment(lines, x + 1, lines[x + 1..e], 0, Some(x));
    EndStep(lines, e, last);
  }

  lemma {:induction false} ExceptStep(lines: seq<Line>, x: nat, before: Option<nat>)
    requires x < |lines| && lines[x] == Except && (before.Some? ==> before.value < x)
    ensures BoundsFrom(lines, x, 1, before) == BoundsFrom(lines, x + 1, 1, Some(x))
  {
  }

  lemma {:induction false} EndStep(lines: seq<Line>, e: nat, last: Option<nat>)
    requires e < |lines| && lines[e] == End && (last.Some? ==> last.value < e)
    ensures BoundsFrom(lines, e, 1, last) == Bounds(last, Some(e))
  {
  }

  // ------------------------------------------------------------ accepted lists

  /** A list as far as the choice looks at it: of each block met, the lines before its last {$except},
      those after it, and what is met in the branch taken. */
  datatype Met = Passed(line: Line) | Block(body: seq<Line>, handler: seq<Line>, taken: seq<Met>)

  function MetLines(ts: seq<Met>): seq<Line>
  {
    if ts == [] then [] else OneMet(ts[0]) + MetLines(ts[1..])
  }

  function OneMet(t: Met): seq<Line>
  {
    match t
    case Passed(line) => [line]
    case Block(body, handler, _) => [Begin] + body + [Except] + handler + [End]
  }

  /** In both branches of a block that is met the markers pair up, and so on in the one taken. */
  predicate Sound(target: Option<Target>, ts: seq<Met>)
  {
    ts == [] || (SoundOne(target, ts[0]) && Sound(target, ts[1..]))
  }

  predicate SoundOne(target: Option<Target>, t: Met)
  {
    match t
    case Passed(line) => !Marker(line)
    case Block(body, handler, taken) =>
      && Paired(body) && Paired(handler) && OuterFree(handler, 0)
      && MetLines(taken) == (if CanExecute(target, body) then body else handler) && Sound(target, taken)
  }

  function Taken(ts: seq<Met>): seq<Line>
  {
    if ts == [] then [] else TakenOne(ts[0]) + Taken(ts[1..])
  }

  function TakenOne(t: Met): seq<Line>
  {
    match t
    case Passed(line) => [line]
    case Block(_, _, taken) => Taken(taken)
  }

  lemma {:induction false} MetFirst(t: Met, ts: seq<Met>)
    ensures MetLines([t] + ts) == OneMet(t) + MetLines(ts) && Taken([t] + ts) == TakenOne(t) + Taken(ts)
  {
    assert ([t] + ts)[1..] == ts;
  }

  lemma {:induction false} SoundFirst(target: Option<Target>, t: Met, ts: seq<Met>)
    ensures Sound(target, [t] + ts) <==> SoundOne(target, t) && Sound(target, ts)
  {
    assert ([t] + ts)[1..] == ts;
  }

  lemma {:induction false} BlockLines(lines: seq<Line>, i: nat, x: nat, e: nat)
    requires i < x < e < |lines| && lines[i] == Begin && lines[x] == Except && lines[e] == End
    ensures lines[i..] == ([Begin] + lines[i + 1..x] + [Except] + lines[x + 1..e] + [End]) + lines[e + 1..]
  {
    assert lines[i..] == lines[i..i + 1] + lines[i + 1..x] + lines[x..x + 1] + lines[x + 1..e] + lines[e..e + 1] + lines[e + 1..];
  }

  /** What was accepted, as it was met. */
  lemma {:induction false} AcceptedIsSound(target: Option<Target>, lines: seq<Line>, i: nat) returns (ts: seq<Met>)
    requires i <= |lines| && Selected(target, lines, i).Some?
    ensures Sound(target, ts) && MetLines(ts) == lines[i..] && Selected(target, lines, i) == Some(Taken(ts))
    decreases |lines|, |lines| - i
  {
    hide *;
    if i == |lines| {
      ts := [];
      NoneLeft(target, lines);
      NoneMet(target);
      assert lines[i..] == [];
    } else {
      var first, next;
      if lines[i] != Begin {
        FirstChosen(target, lines, i);
        first, next := Passed(lines[i]), i + 1;
        PassedIsSound(target, lines[i]);
        assert lines[i..] == [lines[i]] + lines[i + 1..];
      } else {
        var x, e := ChosenBlock(target, lines, i);
        BoundsAreBlock(lines, i, x, e);
        SelectBlock(target, lines, i, x, e);
        var body, handler := lines[i + 1..x], lines[x + 1..e];
        var part := if CanExecute(target, body) then body else handler;
        BothJoined(Selected(target, part, 0), Selected(target, lines, e + 1));
        var taken := AcceptedIsSound(target, part, 0);
        assert part[0..] == part;
        first, next := Block(body, handler, taken), e + 1;
        BlockIsSound(target, lines, i, x, e, taken);
        BlockMarkers(lines, i, x, e);
        BlockLines(lines, i, x, e);
      }
      var rest := AcceptedIsSound(target, lines, next);
      ts := [first] + rest;
      MetFirst(first, rest);
      SoundFirst(target, first, rest);
    }
  }

  lemma {:induction false} NoneMet(target: Option<Target>)
    ensures Sound(target, []) && MetLines([]) == [] && Taken([]) == []
  {
  }

  lemma {:induction false} PassedIsSound(target: Option<Target>, line: Line)
    requires !Marker(line)
    ensures SoundOne(target, Passed(line)) && OneMet(Passed(line)) == [line] == TakenOne(Passed(line))
  {
  }

  lemma {:induction false} BlockMarkers(lines: seq<Line>, i: nat, x: nat, e: nat)
    requires BlockAt(lines, i, x, e)
    ensures i < x < e < |lines| && lines[i] == Begin && lines[x] == Except && lines[e] == End
  {
  }

  lemma {:induction false} BlockIsSound(target: Option<Target>, lines: seq<Line>, i: nat, x: nat, e: nat, taken: seq<Met>)
    requires BlockAt(lines, i, x, e) && Sound(target, taken)
    requires MetLines(taken) == if CanExecute(target, lines[i + 1..x]) then lines[i + 1..x] else lines[x + 1..e]
    ensures var t := Block(lines[i + 1..x], lines[x + 1..e], taken);
            && SoundOne(target, t) && TakenOne(t) == Taken(taken)
            && OneMet(t) == [Begin] + lines[i + 1..x] + [Except] + lines[x + 1..e] + [End]
  {
    hide Paired, OuterFree, CanExecute;
  }

  // ------------------------------------------------------ and nothing else is refused

  lemma {:induction false} FiveParts<T>(a: seq<T>, b: seq<T>, c: seq<T>, d: seq<T>, e: seq<T>)
    ensures a + b + c + d + e == a + (b + (c + (d + e)))
  {
  }

  /** One block that is met. */
  lemma {:induction false} BlockIsMet(lines: seq<Line>, i: nat, body: seq<Line>, handler: seq<Line>)
    requires At(lines, i, [Begin] + body + [Except] + handler + [End])
    requires Paired(body) && Paired(handler) && OuterFree(handler, 0)
    ensures var x, e := i + 1 + |body|, i + 2 + |body| + |handler|;
            BlockAt(lines, i, x, e) && lines[i + 1..x] == body && lines[x + 1..e] == handler
  {
    hide At, Paired, OuterFree;
    FiveParts([Begin], body, [Except], handler, [End]);
    AtParts(lines, i, [Begin], body + ([Except] + (handler + [End])));
    AtParts(lines, i + 1, body, [Except] + (handler + [End]));
    AtParts(lines, i + 1 + |body|, [Except], handler + [End]);
    AtParts(lines, i + 2 + |body|, handler, [End]);
    AtOne(lines, i, Begin);
    AtOne(lines, i + 1 + |body|, Except);
    AtOne(lines, i + 2 + |body| + |handler|, End);
    AtIs(lines, i + 1, body);
    AtIs(lines, i + 2 + |body|, handler);
  }

  lemma {:induction false} WholeAt(lines: seq<Line>)
    ensures At(lines, 0, lines)
  {
    assert lines[0..|lines|] == lines;
  }

  lemma {:induction false} SoundIsAccepted(target: Option<Target>, lines: seq<Line>, i: nat, ts: seq<Met>)
    requires At(lines, i, MetLines(ts)) && Sound(target, ts)
    ensures i + |MetLines(ts)| <= |lines|
    ensures Selected(target, lines, i) == Joined(Some(Taken(ts)), Selected(target, lines, i + |MetLines(ts)|))
    decreases ts, 0
  {
    hide *;
    if ts == [] {
      NoneMet(target);
      AtIs(lines, i, []);
      NothingFirst(Selected(target, lines, i));
    } else {
      var t, rest := ts[0], ts[1..];
      assert ts == [t] + rest;
      AtIs(lines, i, MetLines(ts));
      MetFirst(t, rest);
      SoundFirst(target, t, rest);
      AtParts(lines, i, OneMet(t), MetLines(rest));
      SoundOneAccepted(target, lines, i, t);
      SoundIsAccepted(target, lines, i + |OneMet(t)|, rest);
      JoinedThrice(TakenOne(t), Taken(rest), Selected(target, lines, i + |MetLines(ts)|));
    }
  }

  lemma {:induction false} SoundOneAccepted(target: Option<Target>, lines: seq<Line>, i: nat, t: Met)
    requires At(lines, i, OneMet(t)) && SoundOne(target, t)
    ensures i + |OneMet(t)| <= |lines|
    ensures Selected(target, lines, i) == Joined(Some(TakenOne(t)), Selected(target, lines, i + |OneMet(t)|))
    decreases t, 1
  {
    hide At, Selected, CanExecute, Paired, OuterFree, Taken, MetLines;
    AtIs(lines, i, OneMet(t));
    match t
    case Passed(line) =>
      AtOne(lines, i, line);
      SelectSingle(target, lines, i);
    case Block(body, handler, taken) =>
      TakenIsAccepted(target, taken);
      hide *;
      SelectBlockHere(target, lines, i, body, handler);
  }

  lemma {:induction false} SelectBlockHere(target: Option<Target>, lines: seq<Line>, i: nat, body: seq<Line>, handler: seq<Line>)
    requires At(lines, i, [Begin] + body + [Except] + handler + [End])
    requires Paired(body) && Paired(handler) && OuterFree(handler, 0)
    ensures i + |body| + |handler| + 3 <= |lines|
    ensures Selected(target, lines, i) == Joined(Selected(target, if CanExecute(target, body) then body else handler, 0),
                                                 Selected(target, lines, i + |body| + |handler| + 3))
  {
    hide *;
    BlockIsMet(lines, i, body, handler);
    var x, e := i + 1 + |body|, i + 2 + |body| + |handler|;
    BlockMarkers(lines, i, x, e);
    BoundsAreBlock(lines, i, x, e);
    SelectBlock(target, lines, i, x, e);
  }

  lemma {:induction false} TakenIsAccepted(target: Option<Target>, ts: seq<Met>)
    requires Sound(target, ts)
    ensures Selected(target, MetLines(ts), 0) == Some(Taken(ts))
    decreases ts, 3
  {
    hide *;
    var lines := MetLines(ts);
    WholeAt(lines);
    SoundIsAccepted(target, lines, 0, ts);
    NoneLeft(target, lines);
    JoinedWithNone(Taken(ts));
  }

  lemma {:induction false} JoinedWithNone(a: seq<Line>)
    ensures Joined(Some(a), Some([])) == Some(a)
  {
    assert a + [] == a;
  }

  /** Exactly the lists that can be read as sound are accepted, and what is selected is what is taken
      on that reading. */
  lemma {:induction false} AcceptedExactly(target: Option<Target>, lines: seq<Line>, r: seq<Line>)
    ensures Selected(target, lines, 0) == Some(r) <==>
      exists ts :: Sound(target, ts) && MetLines(ts) == lines && Taken(ts) == r
  {
    hide Selected, Sound, MetLines, Taken;
    if Selected(target, lines, 0) == Some(r) {
      var ts := AcceptedIsSound(target, lines, 0);
      assert lines[0..] == lines;
    }
    if ts :| Sound(target, ts) && MetLines(ts) == lines && Taken(ts) == r {
      TakenIsAccepted(target, ts);
    }
  }

  // ------------------------------------------------------ more than one {$except}

  /** Nested blocks pair up and keep their own {$except}. */
  lemma {:induction false} FlatIsPaired(items: seq<Item>)
    requires Proper(items)
    ensures Paired(Flattened(items)) && OuterFree(Flattened(items), 0)
    decreases items, 0
  {
    if items != [] {
      FlatItemPaired(items[0]);
      FlatIsPaired(items[1..]);
      hide FlatItem;
      DepthJoins(FlatItem(items[0]), Flattened(items[1..]), 0);
      FreeJoins(FlatItem(items[0]), Flattened(items[1..]), 0);
    }
  }

  lemma {:induction false} FlatItemPaired(item: Item)
    requires ProperItem(item)
    ensures Paired(FlatItem(item)) && OuterFree(FlatItem(item), 0)
    decreases item, 1
  {
    match item
    case Single(line) =>
      assert [line][1..] == [];
    case Try(body, handler) =>
      FlatIsPaired(body);
      FlatIsPaired(handler);
      BlockIsPaired(Flattened(body), Flattened(handler));
  }

  lemma {:induction false} BlockIsPaired(body: seq<Line>, handler: seq<Line>)
    requires Paired(body) && Paired(handler)
    ensures var s := [Begin] + body + [Except] + handler + [End]; Paired(s) && OuterFree(s, 0)
  {
    var s, tail := [Begin] + body + [Except] + handler + [End], [Except] + (handler + [End]);
    assert s[1..] == body + tail;
    DepthShifts(body, 0, 1);
    DepthShifts(handler, 0, 1);
    DeeperIsFree(body, 0);
    DeeperIsFree(handler, 0);
    DepthJoins(body, tail, 1);
    FreeJoins(body, tail, 1);
    assert tail[1..] == handler + [End];
    DepthJoins(handler, [End], 1);
    FreeJoins(handler, [End], 1);
    assert [End][1..] == [];
  }

  /** The lines of a block before its last {$except}: parts with one between any two of them. */
  function Parted(parts: seq<seq<Item>>): seq<Line>
    requires parts != []
  {
    if |parts| == 1 then Flattened(parts[0]) else Flattened(parts[0]) + ([Except] + Parted(parts[1..]))
  }

  lemma {:induction false} PartedIsPaired(parts: seq<seq<Item>>)
    requires parts != [] && forall k :: 0 <= k < |parts| ==> Proper(parts[k])
    ensures Paired(Parted(parts))
  {
    FlatIsPaired(parts[0]);
    if |parts| > 1 {
      var rest := parts[1..];
      PartedIsPaired(rest);
      hide Flattened;
      DepthJoins(Flattened(parts[0]), [Except] + Parted(rest), 0);
      assert ([Except] + Parted(rest))[1..] == Parted(rest);
    }
  }

  /** Of a block with any number of {$except} only the last one counts. When the lines before it
      cannot all execute, its handler is taken and those lines are gone; when they can, the block is
      refused unless that was its only {$except}. */
  lemma {:induction false} ManyExcepts(target: Option<Target>, parts: seq<seq<Item>>, handler: seq<Item>)
    requires parts != [] && (forall k :: 0 <= k < |parts| ==> Proper(parts[k])) && Proper(handler)
    ensures var body := Parted(parts);
            Selected(target, [Begin] + body + [Except] + Flattened(handler) + [End], 0)
              == if !CanExecute(target, body) then Some(Chosen(target, handler))
                 else if |parts| == 1 then Some(Chosen(target, parts[0])) else None
  {
    PartedIsPaired(parts);
    FlatIsPaired(handler);
    SelectsAsNested(target, handler);
    SelectParted(target, parts);
    hide *;
    SelectOneBlock(target, Parted(parts), Flattened(handler));
  }

  /** A list that is one block. */
  lemma {:induction false} SelectOneBlock(target: Option<Target>, body: seq<Line>, handler: seq<Line>)
    requires Paired(body) && Paired(handler) && OuterFree(handler, 0)
    ensures Selected(target, [Begin] + body + [Except] + handler + [End], 0)
      == Selected(target, if CanExecute(target, body) then body else handler, 0)
  {
    hide Selected, CanExecute, Paired, OuterFree, BlockAt;
    var lines := [Begin] + body + [Except] + handler + [End];
    var x, e := 1 + |body|, 2 + |body| + |handler|;
    WholeAt(lines);
    BlockIsMet(lines, 0, body, handler);
    BoundsAreBlock(lines, 0, x, e);
    SelectBlock(target, lines, 0, x, e);
    NoneLeft(target, lines);
    var r := Selected(target, if CanExecute(target, body) then body else handler, 0);
    if r.Some? { assert r.value + [] == r.value; }
  }

  lemma {:induction false} SelectParted(target: Option<Target>, parts: seq<seq<Item>>)
    requires parts != [] && Proper(parts[0])
    ensures Selected(target, Parted(parts), 0) == if |parts| == 1 then Some(Chosen(target, parts[0])) else None
  {
    if |parts| == 1 {
      SelectsAsNested(target, parts[0]);
    } else {
      var a, rest := Flattened(parts[0]), [Except] + Parted(parts[1..]);
      var body := Parted(parts);
      assert body[0..|body|] == body == a + rest;
      AtParts(body, 0, a, rest);
      SelectItems(target, body, 0, parts[0]);
      assert body[|a|] == Except;
      SelectNothing(target, body, |a|);
    }
  }

  /** The case of two: refused exactly when the lines of both parts before the last {$except} can
      execute, and otherwise both are dropped, also when those of the first part could. */
  lemma {:induction false} SecondExcept(target: Option<Target>, body: seq<Item>, middle: seq<Item>, handler: seq<Item>)
    requires Proper(body) && Proper(middle) && Proper(handler)
    ensures var front := Flattened(body) + [Except] + Flattened(middle);
            Selected(target, [Begin] + front + [Except] + Flattened(handler) + [End], 0)
              == if CanExecute(target, front) then None else Some(Chosen(target, handler))
    ensures CanExecute(target, Flattened(body) + [Except] + Flattened(middle))
      <==> CanExecute(target, Flattened(body)) && CanExecute(target, Flattened(middle))
  {
    var parts := [body, middle];
    assert parts[1..] == [middle];
    assert Parted(parts) == Flattened(body) + [Except] + Flattened(middle);
    ManyExcepts(target, parts, handler);
    hide Flattened;
    BothExecute(target, Flattened(body), Flattened(middle));
  }

  lemma {:induction false} BothExecute(target: Option<Target>, a: seq<Line>, b: seq<Line>)
    ensures CanExecute(target, a + [Except] + b) <==> CanExecute(target, a) && CanExecute(target, b)
  {
    var s := a + [Except] + b;
    if CanExecute(target, s) {
      PartsCanExecute(target, a + [Except], b);
      PartsCanExecute(target, a, [Except]);
    }
    if target.Some? && CanExecute(target, a) && CanExecute(target, b) {
      forall i | 0 <= i < |s| && s[i].Assertion? ensures target.value(s[i].text) {
        if i < |a| { assert s[i] == a[i]; } else if i > |a| { assert s[i] == b[i - |a| - 1]; }
      }
    }
  }
}
