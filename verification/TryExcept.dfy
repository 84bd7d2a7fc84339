/**
  core/autoasm.cpp: {$try} / {$except} / {$endtry}. The lines are kept flat; choosing branches on
  the flat list is choosing them in the nested blocks.
 */
module TryExcept {
  import opened Memory
  import opened Texts

  datatype Line = Plain(text: string) | Assertion(text: string) | Begin | Except | End

  /** Whether an assertion holds in the target; nothing is written while branches are chosen. */
  type Target = string -> bool

  predicate Marker(l: Line) { l == Begin || l == Except || l == End }

  /** Every assertion in the branch holds, those of blocks nested in it and of both their branches
      included. Without a target there is nothing to ask. */
  predicate CanExecute(target: Option<Target>, branch: seq<Line>)
  {
    target.None? || forall i :: 0 <= i < |branch| && branch[i].Assertion? ==> target.value(branch[i].text)
  }

  // -------------------------------------------------------- choosing on the flat list

  /** The last {$except} and the {$endtry} of the block whose inside is looked at from `j` on. */
  datatype Bounds = Bounds(except: Option<nat>, end: Option<nat>)

  function BoundsFrom(lines: seq<Line>, j: nat, depth: nat, except: Option<nat>): (r: Bounds)
    requires j <= |lines| && depth > 0 && (except.Some? ==> except.value < j)
    ensures r.end.Some? ==> j <= r.end.value < |lines| && (r.except.Some? ==> r.except.value < r.end.value)
    decreases |lines| - j
  {
    if j == |lines| then Bounds(except, None)
    else
      match lines[j]
      case Begin => BoundsFrom(lines, j + 1, depth + 1, except)
      case End => if depth == 1 then Bounds(except, Some(j)) else BoundsFrom(lines, j + 1, depth - 1, except)
      case Except => BoundsFrom(lines, j + 1, depth, if depth == 1 then Some(j) else except)
      case _ => BoundsFrom(lines, j + 1, depth, except)
  }

  lemma {:induction false} ExceptAfter(lines: seq<Line>, j: nat, depth: nat, except: Option<nat>, from: nat)
    requires j <= |lines| && depth > 0 && (except.Some? ==> from <= except.value < j) && from <= j
    ensures var r := BoundsFrom(lines, j, depth, except); r.except.Some? ==> from <= r.except.value
    decreases |lines| - j
  {
    if j < |lines| {
      match lines[j]
      case Begin => ExceptAfter(lines, j + 1, depth + 1, except, from);
      case End => if depth > 1 { ExceptAfter(lines, j + 1, depth - 1, except, from); }
      case Except => ExceptAfter(lines, j + 1, depth, if depth == 1 then Some(j) else except, from);
      case _ => ExceptAfter(lines, j + 1, depth, except, from);
    }
  }

  /** The lines chosen from `i` on, or none when the markers do not pair up. */
  function Selected(target: Option<Target>, lines: seq<Line>, i: nat): Option<seq<Line>>
    requires i <= |lines|
    decreases |lines|, |lines| - i
  {
    if i == |lines| then Some([])
    else if lines[i] == Except || lines[i] == End then None
    else if lines[i] != Begin then Joined(Some([lines[i]]), Selected(target, lines, i + 1))
    else
      var b := BoundsFrom(lines, i + 1, 1, None);
      if b.end.None? || b.except.None? then None
      else
        ExceptAfter(lines, i + 1, 1, None, i + 1);
        var body, handler := lines[i + 1..b.except.value], lines[b.except.value + 1..b.end.value];
        var branch := Selected(target, if CanExecute(target, body) then body else handler, 0);
        if branch.None? then None else Joined(branch, Selected(target, lines, b.end.value + 1))
  }

  function Joined(a: Option<seq<Line>>, b: Option<seq<Line>>): Option<seq<Line>>
  {
    if a.None? || b.None? then None else Some(a.value + b.value)
  }

  /** The scan for the end of a block. */
  method FindBounds(lines: seq<Line>, i: nat) returns (b: Bounds)
    requires i < |lines|
    ensures b == BoundsFrom(lines, i + 1, 1, None)
  {
    var except: Option<nat>, depth := None, 1;
    for j := i + 1 to |lines|
      invariant depth > 0 && (except.Some? ==> except.value < j)
      invariant BoundsFrom(lines, j, depth, except) == BoundsFrom(lines, i + 1, 1, None)
    {
      if lines[j] == Begin {
        depth := depth + 1;
      } else if lines[j] == End {
        depth := depth - 1;
        if depth == 0 { return Bounds(except, Some(j)); }
      } else if lines[j] == Except && depth == 1 {
        except := Some(j);
      }
    }
    return Bounds(except, None);
  }

  method TryBranchCanExecute(target: Option<Target>, branch: seq<Line>) returns (ok: bool)
    ensures ok == CanExecute(target, branch)
    ensures ok <==> target.None? || forall text :: Assertion(text) in branch ==> target.value(text)
  {
    CanExecuteMeans(target, branch);
    if target.None? { return true; }
    for i := 0 to |branch|
      invariant forall k :: 0 <= k < i && branch[k].Assertion? ==> target.value(branch[k].text)
    {
      if branch[i].Assertion? && !target.value(branch[i].text) { return false; }
    }
    return true;
  }

  lemma {:induction false} CanExecuteMeans(target: Option<Target>, branch: seq<Line>)
    ensures CanExecute(target, branch) <==> target.None? || forall text :: Assertion(text) in branch ==> target.value(text)
  {
    if target.Some? && CanExecute(target, branch) {
      forall text | Assertion(text) in branch ensures target.value(text) {
        var i :| 0 <= i < |branch| && branch[i] == Assertion(text);
      }
    }
    if target.Some? && forall text :: Assertion(text) in branch ==> target.value(text) {
      forall i | 0 <= i < |branch| && branch[i].Assertion? ensures target.value(branch[i].text) {
        assert Assertion(branch[i].text) in branch;
      }
    }
  }

  method SelectTryExceptBranches(target: Option<Target>, lines: seq<Line>) returns (selected: Option<seq<Line>>)
    ensures selected == Selected(target, lines, 0)
    decreases |lines|
  {
    hide Selected, BoundsFrom, CanExecute;
    var chosen: seq<Line> := [];
    var i := 0;
    NothingFirst(Selected(target, lines, 0));
    while i < |lines|
      invariant i <= |lines|
      invariant Selected(target, lines, 0) == Joined(Some(chosen), Selected(target, lines, i))
    {
      if lines[i] == Except || lines[i] == End {
        SelectNothing(target, lines, i);
        return None;
      }
      if lines[i] != Begin {
        SelectSingle(target, lines, i);
        JoinedThrice(chosen, [lines[i]], Selected(target, lines, i + 1));
        chosen := chosen + [lines[i]];
        i := i + 1;
      } else {
        var b := FindBounds(lines, i);
        if b.end.None? || b.except.None? {
          SelectNothing(target, lines, i);
          return None;
        }
        SelectBlock(target, lines, i, b.except.value, b.end.value);
        var body, handler := lines[i + 1..b.except.value], lines[b.except.value + 1..b.end.value];
        var can := TryBranchCanExecute(target, body);
        var branch := SelectTryExceptBranches(target, if can then body else handler);
        if branch.None? { return None; }
        JoinedThrice(chosen, branch.value, Selected(target, lines, b.end.value + 1));
        chosen := chosen + branch.value;
        i := b.end.value + 1;
      }
    }
    NoneLeft(target, lines);
    assert chosen + [] == chosen;
    return Some(chosen);
  }

  lemma {:induction false} SelectNothing(target: Option<Target>, lines: seq<Line>, i: nat)
    requires i < |lines| && Marker(lines[i])
    requires lines[i] == Begin ==> var b := BoundsFrom(lines, i + 1, 1, None); b.end.None? || b.except.None?
    ensures Selected(target, lines, i) == None
  {
  }

  lemma {:induction false} JoinedThrice(a: seq<Line>, b: seq<Line>, c: Option<seq<Line>>)
    ensures Joined(Some(a), Joined(Some(b), c)) == Joined(Some(a + b), c)
  {
    if c.Some? { assert a + (b + c.value) == a + b + c.value; }
  }

  lemma {:induction false} NothingFirst(b: Option<seq<Line>>)
    ensures Joined(Some([]), b) == b
  {
    if b.Some? { assert [] + b.value == b.value; }
  }

  lemma {:induction false} SelectBlock(target: Option<Target>, lines: seq<Line>, i: nat, x: nat, e: nat)
    requires i < |lines| && lines[i] == Begin && BoundsFrom(lines, i + 1, 1, None) == Bounds(Some(x), Some(e))
    ensures i < x < e < |lines|
    ensures Selected(target, lines, i)
      == Joined(Selected(target, if CanExecute(target, lines[i + 1..x]) then lines[i + 1..x] else lines[x + 1..e], 0),
                Selected(target, lines, e + 1))
  {
    hide CanExecute;
    ExceptAfter(lines, i + 1, 1, None, i + 1);
  }

  // -------------------------------------------------- what any selection leaves

  /** `a` is what is left of `b` when some lines are dropped. */
  predicate Subsequence(a: seq<Line>, b: seq<Line>)
  {
    a == [] || (b != [] && ((a[0] == b[0] && Subsequence(a[1..], b[1..])) || Subsequence(a, b[1..])))
  }

  predicate NoMarkers(s: seq<Line>) { forall k :: 0 <= k < |s| ==> !Marker(s[k]) }

  lemma {:induction false} DropsMore(a: seq<Line>, skip: seq<Line>, b: seq<Line>)
    requires Subsequence(a, b)
    ensures Subsequence(a, skip + b)
  {
    if skip == [] {
      assert skip + b == b;
    } else {
      DropsMore(a, skip[1..], b);
      assert (skip + b)[1..] == skip[1..] + b;
    }
  }

  lemma {:induction false} SubsequencesJoin(a: seq<Line>, b: seq<Line>, c: seq<Line>, d: seq<Line>)
    requires Subsequence(a, b) && Subsequence(c, d)
    ensures Subsequence(a + c, b + d)
    decreases |b|
  {
    if a == [] {
      assert a + c == c;
      DropsMore(c, b, d);
    } else {
      assert (b + d)[1..] == b[1..] + d;
      if a[0] == b[0] && Subsequence(a[1..], b[1..]) {
        SubsequencesJoin(a[1..], b[1..], c, d);
        assert (a + c)[1..] == a[1..] + c;
      } else {
        SubsequencesJoin(a, b[1..], c, d);
      }
    }
  }

  /** Lines chosen from a part and from the rest are lines chosen from the whole. */
  lemma {:induction false} JoinAround(chosen: seq<Line>, part: seq<Line>, more: seq<Line>, rest: seq<Line>, before: seq<Line>, between: seq<Line>)
    requires Subsequence(chosen, part) && Subsequence(more, rest)
    ensures Subsequence(chosen + more, before + (part + (between + rest)))
  {
    hide Subsequence;
    DropsMore(more, between, rest);
    SubsequencesJoin(chosen, part, more, between + rest);
    DropsMore(chosen + more, before, part + (between + rest));
  }

  lemma {:induction false} Cut(lines: seq<Line>, i: nat, a: nat, b: nat, c: nat)
    requires i <= a <= b <= c <= |lines|
    ensures lines[i..] == lines[i..a] + (lines[a..b] + (lines[b..c] + lines[c..]))
  {
  }

  lemma {:induction false} NoMarkersJoin(a: seq<Line>, b: seq<Line>)
    requires NoMarkers(a) && NoMarkers(b)
    ensures NoMarkers(a + b)
  {
  }

  lemma {:induction false} FirstKept(lines: seq<Line>, i: nat, rest: seq<Line>)
    requires i < |lines| && !Marker(lines[i]) && NoMarkers(rest) && Subsequence(rest, lines[i + 1..])
    ensures NoMarkers([lines[i]] + rest) && Subsequence([lines[i]] + rest, lines[i..])
  {
    assert lines[i..][1..] == lines[i + 1..];
    assert ([lines[i]] + rest)[1..] == rest;
  }

  /** Whatever the lines, what is chosen is some of them in order, without a marker left. */
  lemma {:induction false} SelectionDropsMarkers(target: Option<Target>, lines: seq<Line>, i: nat)
    requires i <= |lines| && Selected(target, lines, i).Some?
    ensures NoMarkers(Selected(target, lines, i).value) && Subsequence(Selected(target, lines, i).value, lines[i..])
    decreases |lines|, |lines| - i
  {
    hide *;
    if i == |lines| {
      NoneLeft(target, lines);
      NoneChosen(lines[i..]);
    } else if lines[i] != Begin {
      FirstChosen(target, lines, i);
      SelectionDropsMarkers(target, lines, i + 1);
      FirstKept(lines, i, Selected(target, lines, i + 1).value);
    } else {
      var x, e := ChosenBlock(target, lines, i);
      SelectBlock(target, lines, i, x, e);
      var can := CanExecute(target, lines[i + 1..x]);
      var part := if can then lines[i + 1..x] else lines[x + 1..e];
      BothJoined(Selected(target, part, 0), Selected(target, lines, e + 1));
      var chosen, more := Selected(target, part, 0).value, Selected(target, lines, e + 1).value;
      SelectionDropsMarkers(target, part, 0);
      SelectionDropsMarkers(target, lines, e + 1);
      assert part[0..] == part;
      NoMarkersJoin(chosen, more);
      if can {
        JoinAround(chosen, part, more, lines[e + 1..], lines[i..i + 1], lines[x..e + 1]);
        Cut(lines, i, i + 1, x, e + 1);
      } else {
        JoinAround(chosen, part, more, lines[e + 1..], lines[i..x + 1], lines[e..e + 1]);
        Cut(lines, i, x + 1, e, e + 1);
      }
    }
  }

  lemma {:induction false} NoneLeft(target: Option<Target>, lines: seq<Line>)
    ensures Selected(target, lines, |lines|) == Some([])
  {
  }

  lemma {:induction false} FirstChosen(target: Option<Target>, lines: seq<Line>, i: nat)
    requires i < |lines| && lines[i] != Begin && Selected(target, lines, i).Some?
    ensures !Marker(lines[i]) && Selected(target, lines, i + 1).Some?
    ensures Selected(target, lines, i) == Some([lines[i]] + Selected(target, lines, i + 1).value)
  {
  }

  lemma {:induction false} ChosenBlock(target: Option<Target>, lines: seq<Line>, i: nat) returns (x: nat, e: nat)
    requires i < |lines| && lines[i] == Begin && Selected(target, lines, i).Some?
    ensures BoundsFrom(lines, i + 1, 1, None) == Bounds(Some(x), Some(e))
  {
    hide CanExecute;
    var b := BoundsFrom(lines, i + 1, 1, None);
    x, e := b.except.value, b.end.value;
  }

  lemma {:induction false} BothJoined(a: Option<seq<Line>>, b: Option<seq<Line>>)
    requires Joined(a, b).Some?
    ensures a.Some? && b.Some? && Joined(a, b) == Some(a.value + b.value)
  {
  }

  lemma {:induction false} NoneChosen(b: seq<Line>)
    ensures NoMarkers([]) && Subsequence([], b)
  {
  }

  // -------------------------------------------------------------- nested blocks

  datatype Item = Single(line: Line) | Try(body: seq<Item>, handler: seq<Item>)

  function Flattened(items: seq<Item>): seq<Line>
  {
    if items == [] then [] else FlatItem(items[0]) + Flattened(items[1..])
  }

  function FlatItem(item: Item): seq<Line>
  {
    match item
    case Single(line) => [line]
    case Try(body, handler) => [Begin] + Flattened(body) + [Except] + Flattened(handler) + [End]
  }

  predicate Proper(items: seq<Item>) { items == [] || (ProperItem(items[0]) && Proper(items[1..])) }

  predicate ProperItem(item: Item)
  {
    match item
    case Single(line) => !Marker(line)
    case Try(body, handler) => Proper(body) && Proper(handler)
  }

  /** What the blocks mean: the body if it can execute, else the handler. */
  function Chosen(target: Option<Target>, items: seq<Item>): seq<Line>
    decreases items, 0
  {
    if items == [] then [] else ChosenItem(target, items[0]) + Chosen(target, items[1..])
  }

  function ChosenItem(target: Option<Target>, item: Item): seq<Line>
    decreases item, 1
  {
    match item
    case Single(line) => [line]
    case Try(body, handler) =>
      if CanExecute(target, Flattened(body)) then Chosen(target, body) else Chosen(target, handler)
  }

  /** The scan passes over whole items: their markers pair up one level further in. */
  lemma {:induction false} ScanItems(lines: seq<Line>, j: nat, depth: nat, except: Option<nat>, items: seq<Item>)
    requires At(lines, j, Flattened(items)) && Proper(items) && depth > 0 && (except.Some? ==> except.value < j)
    ensures BoundsFrom(lines, j, depth, except) == BoundsFrom(lines, j + |Flattened(items)|, depth, except)
    decreases items, 0
  {
    hide BoundsFrom, FlatItem, At, ProperItem;
    AtIs(lines, j, Flattened(items));
    if items != [] {
      AtParts(lines, j, FlatItem(items[0]), Flattened(items[1..]));
      ScanItem(lines, j, depth, except, items[0]);
      ScanItems(lines, j + |FlatItem(items[0])|, depth, except, items[1..]);
    }
  }

  lemma {:induction false} ScanItem(lines: seq<Line>, j: nat, depth: nat, except: Option<nat>, item: Item)
    requires At(lines, j, FlatItem(item)) && ProperItem(item) && depth > 0 && (except.Some? ==> except.value < j)
    ensures BoundsFrom(lines, j, depth, except) == BoundsFrom(lines, j + |FlatItem(item)|, depth, except)
    decreases item, 1
  {
    hide BoundsFrom, Flattened, At;
    match item
    case Single(line) =>
      AtOne(lines, j, line);
      ScanOne(lines, j, depth, except);
    case Try(body, handler) =>
      TryParts(lines, j, body, handler);
      hide FlatItem;
      ScanTry(lines, j, depth, except, body, handler);
  }

  lemma {:induction false} ScanTry(lines: seq<Line>, j: nat, depth: nat, except: Option<nat>, body: seq<Item>, handler: seq<Item>)
    requires Proper(body) && Proper(handler) && depth > 0 && (except.Some? ==> except.value < j)
    requires At(lines, j, FlatItem(Try(body, handler)))
    ensures BoundsFrom(lines, j, depth, except)
      == BoundsFrom(lines, j + |FlatItem(Try(body, handler))|, depth, except)
    decreases Try(body, handler), 0
  {
    hide *;
    TryParts(lines, j, body, handler);
    var x, e := j + 1 + |Flattened(body)|, j + 2 + |Flattened(body)| + |Flattened(handler)|;
    ScanOne(lines, j, depth, except);
    ScanItems(lines, j + 1, depth + 1, except, body);
    ScanOne(lines, x, depth + 1, except);
    ScanItems(lines, x + 1, depth + 1, except, handler);
    ScanOne(lines, e, depth + 1, except);
  }

  lemma {:induction false} ScanOne(lines: seq<Line>, j: nat, depth: nat, except: Option<nat>)
    requires j < |lines| && depth > 0 && (except.Some? ==> except.value < j)
    ensures lines[j] == Begin ==> BoundsFrom(lines, j, depth, except) == BoundsFrom(lines, j + 1, depth + 1, except)
    ensures lines[j] == End && depth > 1 ==>
      BoundsFrom(lines, j, depth, except) == BoundsFrom(lines, j + 1, depth - 1, except)
    ensures !Marker(lines[j]) ==> BoundsFrom(lines, j, depth, except) == BoundsFrom(lines, j + 1, depth, except)
    ensures lines[j] == Except && depth > 1 ==> BoundsFrom(lines, j, depth, except) == BoundsFrom(lines, j + 1, depth, except)
  {
  }

  /** Where the parts of a block are. */
  lemma {:induction false} TryParts(lines: seq<Line>, i: nat, body: seq<Item>, handler: seq<Item>)
    requires At(lines, i, FlatItem(Try(body, handler)))
    ensures var x, e := i + 1 + |Flattened(body)|, i + 2 + |Flattened(body)| + |Flattened(handler)|;
            && e < |lines| && lines[i] == Begin && lines[x] == Except && lines[e] == End
            && At(lines, i + 1, Flattened(body)) && At(lines, x + 1, Flattened(handler))
            && |FlatItem(Try(body, handler))| == e + 1 - i
  {
    hide Flattened, At;
    var b, h := Flattened(body), Flattened(handler);
    assert FlatItem(Try(body, handler)) == [Begin] + (b + ([Except] + (h + [End])));
    AtParts(lines, i, [Begin], b + ([Except] + (h + [End])));
    AtParts(lines, i + 1, b, [Except] + (h + [End]));
    AtParts(lines, i + 1 + |b|, [Except], h + [End]);
    AtParts(lines, i + 2 + |b|, h, [End]);
    AtOne(lines, i, Begin);
    AtOne(lines, i + 1 + |b|, Except);
    AtOne(lines, i + 2 + |b| + |h|, End);
  }

  lemma {:induction false} SelectItems(target: Option<Target>, lines: seq<Line>, i: nat, items: seq<Item>)
    requires At(lines, i, Flattened(items)) && Proper(items)
    ensures Selected(target, lines, i)
      == Joined(Some(Chosen(target, items)), Selected(target, lines, i + |Flattened(items)|))
    decreases items, 0
  {
    hide Selected, FlatItem, BoundsFrom, At, ChosenItem, ProperItem;
    AtIs(lines, i, Flattened(items));
    if items == [] {
      var rest := Selected(target, lines, i);
      if rest.Some? { assert [] + rest.value == rest.value; }
    } else {
      var first, more := items[0], items[1..];
      AtParts(lines, i, FlatItem(first), Flattened(more));
      SelectItem(target, lines, i, first);
      SelectItems(target, lines, i + |FlatItem(first)|, more);
      JoinedThrice(ChosenItem(target, first), Chosen(target, more), Selected(target, lines, i + |Flattened(items)|));
    }
  }

  lemma {:induction false} SelectItem(target: Option<Target>, lines: seq<Line>, i: nat, item: Item)
    requires At(lines, i, FlatItem(item)) && ProperItem(item)
    ensures Selected(target, lines, i)
      == Joined(Some(ChosenItem(target, item)), Selected(target, lines, i + |FlatItem(item)|))
    decreases item, 1
  {
    hide At, Flattened, Chosen, Selected, CanExecute, BoundsFrom;
    match item
    case Single(line) =>
      AtOne(lines, i, line);
      SelectSingle(target, lines, i);
    case Try(body, handler) =>
      SelectTry(target, lines, i, body, handler);
  }

  lemma {:induction false} SelectSingle(target: Option<Target>, lines: seq<Line>, i: nat)
    requires i < |lines| && !Marker(lines[i])
    ensures Selected(target, lines, i) == Joined(Some([lines[i]]), Selected(target, lines, i + 1))
  {
  }

  lemma {:induction false} SelectTry(target: Option<Target>, lines: seq<Line>, i: nat, body: seq<Item>, handler: seq<Item>)
    requires At(lines, i, FlatItem(Try(body, handler))) && Proper(body) && Proper(handler)
    ensures Selected(target, lines, i)
      == Joined(Some(ChosenItem(target, Try(body, handler))), Selected(target, lines, i + |FlatItem(Try(body, handler))|))
    decreases Try(body, handler), 0
  {
    hide At, FlatItem, Flattened, Chosen, Selected, CanExecute, BoundsFrom;
    var x, e := BlockBounds(lines, i, body, handler);
    SelectWhole(target, body);
    SelectWhole(target, handler);
    SelectBlock(target, lines, i, x, e);
  }

  lemma {:induction false} SelectWhole(target: Option<Target>, items: seq<Item>)
    requires Proper(items)
    ensures Selected(target, Flattened(items), 0) == Some(Chosen(target, items))
    decreases items, 3
  {
    var lines := Flattened(items);
    assert lines[0..|lines|] == lines;
    SelectItems(target, lines, 0, items);
    assert Chosen(target, items) + [] == Chosen(target, items);
  }

  lemma {:induction false} BlockBounds(lines: seq<Line>, i: nat, body: seq<Item>, handler: seq<Item>) returns (x: nat, e: nat)
    requires Proper(body) && Proper(handler) && At(lines, i, FlatItem(Try(body, handler)))
    ensures i < x < e < |lines| && lines[i] == Begin && e + 1 == i + |FlatItem(Try(body, handler))|
    ensures BoundsFrom(lines, i + 1, 1, None) == Bounds(Some(x), Some(e))
    ensures lines[i + 1..x] == Flattened(body) && lines[x + 1..e] == Flattened(handler)
  {
    hide FlatItem, Flattened, At;
    TryParts(lines, i, body, handler);
    x, e := i + 1 + |Flattened(body)|, i + 2 + |Flattened(body)| + |Flattened(handler)|;
    ScanItems(lines, i + 1, 1, None, body);
    ScanItems(lines, x + 1, 1, Some(x), handler);
    AtIs(lines, i + 1, Flattened(body));
    AtIs(lines, x + 1, Flattened(handler));
  }

  /** Choosing on the flat list is choosing in the nested blocks. */
  lemma {:induction false} SelectsAsNested(target: Option<Target>, items: seq<Item>)
    requires Proper(items)
    ensures Selected(target, Flattened(items), 0) == Some(Chosen(target, items))
  {
    SelectWhole(target, items);
  }

  /** The lines with every block's body kept and every handler dropped. */
  function BodiesOnly(items: seq<Item>): seq<Line>
  {
    if items == [] then [] else BodyOnly(items[0]) + BodiesOnly(items[1..])
  }

  function BodyOnly(item: Item): seq<Line>
  {
    match item
    case Single(line) => [line]
    case Try(body, _) => BodiesOnly(body)
  }

  lemma {:induction false} PartsCanExecute(target: Option<Target>, a: seq<Line>, b: seq<Line>)
    requires CanExecute(target, a + b)
    ensures CanExecute(target, a) && CanExecute(target, b)
  {
    if target.Some? {
      forall i | 0 <= i < |a| && a[i].Assertion? ensures target.value(a[i].text) { assert (a + b)[i] == a[i]; }
      forall i | 0 <= i < |b| && b[i].Assertion? ensures target.value(b[i].text) { assert (a + b)[|a| + i] == b[i]; }
    }
  }

  /** Inside a body that can execute, every nested block keeps its body too. */
  lemma {:induction false} BodyKeepsBodies(target: Option<Target>, items: seq<Item>)
    requires CanExecute(target, Flattened(items))
    ensures Chosen(target, items) == BodiesOnly(items)
    decreases items, 0
  {
    if items != [] {
      PartsCanExecute(target, FlatItem(items[0]), Flattened(items[1..]));
      BodyKeepsBodies(target, items[1..]);
      var first := items[0];
      if first.Try? {
        var tail := [Except] + Flattened(first.handler) + [End];
        assert FlatItem(first) == [Begin] + (Flattened(first.body) + tail);
        PartsCanExecute(target, [Begin], Flattened(first.body) + tail);
        PartsCanExecute(target, Flattened(first.body), tail);
        BodyKeepsBodies(target, first.body);
      }
    }
  }

  /** What is chosen, piece by piece. Of a block it is the body, with all its own bodies, when every
      assertion anywhere in the body holds or there is no target to ask; and it is what is chosen of
      the handler when some assertion fails. What stands behind is chosen for itself. */
  lemma {:induction false} BlockSelected(target: Option<Target>, body: seq<Item>, handler: seq<Item>, rest: seq<Item>)
    requires Proper(body) && Proper(handler) && Proper(rest)
    ensures var lines := [Begin] + Flattened(body) + [Except] + Flattened(handler) + [End] + Flattened(rest);
            var holds := target.None? || forall text :: Assertion(text) in Flattened(body) ==> target.value(text);
            var behind := Selected(target, Flattened(rest), 0);
            var taken := if holds then Some(BodiesOnly(body)) else Selected(target, Flattened(handler), 0);
            && behind.Some? && taken.Some? && Selected(target, lines, 0) == Some(taken.value + behind.value)
            && (holds ==> Selected(target, Flattened(body), 0) == taken)
  {
    hide Selected, CanExecute, Proper, Flattened, FlatItem, Chosen, BodiesOnly;
    var items := [Try(body, handler)] + rest;
    ItemsAre(target, Try(body, handler), rest);
    CanExecuteMeans(target, Flattened(body));
    SelectWhole(target, items);
    SelectWhole(target, rest);
    SelectWhole(target, body);
    SelectWhole(target, handler);
    if CanExecute(target, Flattened(body)) { BodyKeepsBodies(target, body); }
  }

  lemma {:induction false} LineSelected(target: Option<Target>, line: Line, rest: seq<Item>)
    requires !Marker(line) && Proper(rest)
    ensures var behind := Selected(target, Flattened(rest), 0);
            behind.Some? && Selected(target, [line] + Flattened(rest), 0) == Some([line] + behind.value)
  {
    hide Selected, CanExecute, Proper, Flattened, FlatItem, Chosen, BodiesOnly;
    ItemsAre(target, Single(line), rest);
    SelectWhole(target, [Single(line)] + rest);
    SelectWhole(target, rest);
  }

  lemma {:induction false} ItemsAre(target: Option<Target>, first: Item, rest: seq<Item>)
    ensures Proper([first] + rest) <==> ProperItem(first) && Proper(rest)
    ensures first.Try? ==> (ProperItem(first) <==> Proper(first.body) && Proper(first.handler))
    ensures first.Single? ==> (ProperItem(first) <==> !Marker(first.line)) && ChosenItem(target, first) == [first.line]
    ensures first.Try? ==>
      ChosenItem(target, first) == if CanExecute(target, Flattened(first.body)) then Chosen(target, first.body) else Chosen(target, first.handler)
    ensures Flattened([first] + rest) == FlatItem(first) + Flattened(rest)
    ensures first.Single? ==> FlatItem(first) == [first.line]
    ensures first.Try? ==> FlatItem(first) == [Begin] + Flattened(first.body) + [Except] + Flattened(first.handler) + [End]
    ensures Chosen(target, [first] + rest) == ChosenItem(target, first) + Chosen(target, rest)
  {
    hide CanExecute;
    assert ([first] + rest)[1..] == rest;
  }
}
