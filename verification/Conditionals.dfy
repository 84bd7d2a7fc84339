/** core/autoasm.cpp: {$if} / {$else} / {$endif}; the stack machine that expands them does what the nested blocks mean. */
module Conditionals {
  import opened Memory

  /** A directive of the text, or a piece of text between directives. `Misspelt` starts with "if". */
  datatype Token = Plain(text: string) | If(condition: string) | Else | EndIf | Misspelt

  /** The evaluator may keep state: it answers the last of all the conditions it was asked so far. */
  type Evaluator = seq<string> -> Option<bool>

  /** Both ways of stopping say what was asked. */
  datatype Outcome = Expanded(output: string, asked: seq<string>) | Rejected(asked: seq<string>)

  // ------------------------------------------------------------- nested blocks

  datatype Item = Piece(text: string) | Block(condition: string, body: seq<Item>, hasElse: bool, other: seq<Item>)

  function Flattened(items: seq<Item>): seq<Token>
  {
    if items == [] then [] else FlatItem(items[0]) + Flattened(items[1..])
  }

  function FlatItem(item: Item): seq<Token>
  {
    match item
    case Piece(text) => [Plain(text)]
    case Block(condition, body, hasElse, other) =>
      [If(condition)] + Flattened(body) + (if hasElse then [Else] + Flattened(other) else []) + [EndIf]
  }

  /** Every condition says something, and only an else has an other branch. */
  predicate Proper(items: seq<Item>)
  {
    items == [] || (ProperItem(items[0]) && Proper(items[1..]))
  }

  predicate ProperItem(item: Item)
  {
    match item
    case Piece(_) => true
    case Block(condition, body, hasElse, other) =>
      condition != "" && Proper(body) && Proper(other) && (hasElse || other == [])
  }

  /** What the blocks mean: text is kept, and of each block the branch its condition picks. */
  function Meaning(eval: Evaluator, items: seq<Item>, asked: seq<string>): Outcome
    decreases items, 0
  {
    if items == [] then Expanded("", asked)
    else
      match ItemMeaning(eval, items[0], asked)
      case Rejected(a) => Rejected(a)
      case Expanded(first, a) =>
        match Meaning(eval, items[1..], a)
        case Rejected(b) => Rejected(b)
        case Expanded(rest, b) => Expanded(first + rest, b)
  }

  function ItemMeaning(eval: Evaluator, item: Item, asked: seq<string>): Outcome
    decreases item, 1
  {
    match item
    case Piece(text) => Expanded(text, asked)
    case Block(condition, body, hasElse, other) =>
      var now := asked + [condition];
      match eval(now)
      case None => Rejected(now)
      case Some(taken) => Meaning(eval, if taken then body else other, now)
  }

  // ---------------------------------------------------------- the stack machine

  datatype Branch = Branch(parent: bool, taken: bool, seenElse: bool)

  datatype Machine = Machine(stack: seq<Branch>, active: bool, output: string, asked: seq<string>)

  datatype Step = Next(machine: Machine) | Stop(asked: seq<string>)

  /** One token. A condition that is off the path is neither asked nor taken. */
  function OneToken(eval: Evaluator, m: Machine, t: Token): Step
  {
    var top := |m.stack| - 1;
    match t
    case Plain(text) => Next(if m.active then m.(output := m.output + text) else m)
    case Misspelt => Stop(m.asked)
    case If(condition) =>
      if condition == "" then Stop(m.asked)
      else if !m.active then Next(m.(stack := m.stack + [Branch(false, false, false)]))
      else
        var now := m.asked + [condition];
        (match eval(now)
         case None => Stop(now)
         case Some(taken) => Next(Machine(m.stack + [Branch(true, taken, false)], taken, m.output, now)))
    case Else =>
      if m.stack == [] || m.stack[top].seenElse then Stop(m.asked)
      else
        var b := m.stack[top].(seenElse := true);
        Next(m.(stack := m.stack[..top] + [b], active := b.parent && !b.taken))
    case EndIf =>
      if m.stack == [] then Stop(m.asked)
      else Next(m.(stack := m.stack[..top], active := m.stack[top].parent))
  }

  function Run(eval: Evaluator, m: Machine, tokens: seq<Token>): Outcome
    decreases |tokens|
  {
    if tokens == [] then if m.stack == [] then Expanded(m.output, m.asked) else Rejected(m.asked)
    else
      match OneToken(eval, m, tokens[0])
      case Stop(asked) => Rejected(asked)
      case Next(next) => Run(eval, next, tokens[1..])
  }

  const START := Machine([], true, "", [])

  /** The loop over the text. */
  method ExpandConditionalBlocks(eval: Evaluator, tokens: seq<Token>) returns (r: Outcome)
    ensures r == Run(eval, START, tokens)
  {
    var stack: seq<Branch>, active, output, asked: seq<string> := [], true, "", [];
    for i := 0 to |tokens|
      invariant Run(eval, Machine(stack, active, output, asked), tokens[i..]) == Run(eval, START, tokens)
    {
      ghost var rest := tokens[i..];
      assert rest[0] == tokens[i] && rest[1..] == tokens[i + 1..];
      match tokens[i] {
        case Plain(text) =>
          if active { output := output + text; }
        case Misspelt =>
          return Rejected(asked);
        case If(condition) =>
          if condition == "" { return Rejected(asked); }
          var taken := false;
          if active {
            asked := asked + [condition];
            var answer := eval(asked);
            if answer.None? { return Rejected(asked); }
            taken := answer.value;
          }
          stack := stack + [Branch(active, taken, false)];
          active := active && taken;
        case Else =>
          if stack == [] || stack[|stack| - 1].seenElse { return Rejected(asked); }
          var branch := stack[|stack| - 1].(seenElse := true);
          stack := stack[..|stack| - 1] + [branch];
          active := branch.parent && !branch.taken;
        case EndIf =>
          if stack == [] { return Rejected(asked); }
          active := stack[|stack| - 1].parent;
          stack := stack[..|stack| - 1];
      }
    }
    return if stack == [] then Expanded(output, asked) else Rejected(asked);
  }

  // ------------------------------------------- the machine does what blocks mean

  /** What running through `items` and then `rest` comes to, from a machine that is on or off. */
  function Through(eval: Evaluator, m: Machine, r: Outcome, rest: seq<Token>): Outcome
  {
    if !m.active then Run(eval, m, rest)
    else
      match r
      case Rejected(asked) => Rejected(asked)
      case Expanded(text, asked) => Run(eval, m.(output := m.output + text, asked := asked), rest)
  }

  lemma {:induction false} RunItems(eval: Evaluator, m: Machine, items: seq<Item>, rest: seq<Token>)
    requires Proper(items)
    ensures Run(eval, m, Flattened(items) + rest) == Through(eval, m, Meaning(eval, items, m.asked), rest)
    decreases items, 0
  {
    hide Run, FlatItem, ItemMeaning, ProperItem;
    if items == [] {
      assert [] + rest == rest;
      assert m.output + "" == m.output;
    } else {
      var tail := Flattened(items[1..]) + rest;
      assert Flattened(items) + rest == FlatItem(items[0]) + tail;
      RunItem(eval, m, items[0], tail);
      var first := ItemMeaning(eval, items[0], m.asked);
      if !m.active {
        RunItems(eval, m, items[1..], rest);
      } else if first.Expanded? {
        var next := m.(output := m.output + first.output, asked := first.asked);
        RunItems(eval, next, items[1..], rest);
        var r := Meaning(eval, items[1..], first.asked);
        if r.Expanded? { assert m.output + (first.output + r.output) == next.output + r.output; }
      }
    }
  }

  lemma {:induction false} RunFirst(eval: Evaluator, m: Machine, t: Token, rest: seq<Token>)
    ensures Run(eval, m, [t] + rest) == match OneToken(eval, m, t)
                                         case Stop(asked) => Rejected(asked)
                                         case Next(next) => Run(eval, next, rest)
  {
    hide OneToken;
    assert ([t] + rest)[1..] == rest;
  }

  lemma {:induction false} RunItem(eval: Evaluator, m: Machine, item: Item, rest: seq<Token>)
    requires ProperItem(item)
    ensures Run(eval, m, FlatItem(item) + rest) == Through(eval, m, ItemMeaning(eval, item, m.asked), rest)
    decreases item, 1
  {
    match item {
      case Piece(text) =>
        assert ([Plain(text)] + rest)[1..] == rest;
      case Block(condition, body, hasElse, other) =>
        var end := Ending(hasElse, other, rest);
        var tokens := FlatItem(item) + rest;
        assert tokens == [If(condition)] + (Flattened(body) + end);
        assert tokens[1..] == Flattened(body) + end;
        var now := m.asked + [condition];
        if !m.active {
          var inside := m.(stack := m.stack + [Branch(false, false, false)]);
          RunItems(eval, inside, body, end);
          RunEnding(eval, inside, m.stack, hasElse, other, rest);
        } else if eval(now).Some? {
          var taken := eval(now).value;
          var inside := Machine(m.stack + [Branch(true, taken, false)], taken, m.output, now);
          RunItems(eval, inside, body, end);
          var r := Meaning(eval, body, now);
          if !taken {
            RunEnding(eval, inside, m.stack, hasElse, other, rest);
          } else if r.Expanded? {
            RunEnding(eval, inside.(output := m.output + r.output, asked := r.asked), m.stack, hasElse, other, rest);
          }
        }
    }
  }

  /** What follows the first branch of a block. */
  function Ending(hasElse: bool, other: seq<Item>, rest: seq<Token>): seq<Token>
  {
    (if hasElse then [Else] + Flattened(other) else []) + [EndIf] + rest
  }

  /** From the end of a block's first branch, the other one counts if the first was not taken. */
  lemma {:induction false} RunEnding(eval: Evaluator, m: Machine, below: seq<Branch>, hasElse: bool, other: seq<Item>, rest: seq<Token>)
    requires |m.stack| == |below| + 1 && m.stack[..|below|] == below
    requires var b := m.stack[|below|]; !b.seenElse && m.active == (b.parent && b.taken)
    requires Proper(other) && (hasElse || other == [])
    ensures var b := m.stack[|below|];
            var on := b.parent && !b.taken;
            var after := m.(stack := below, active := b.parent);
            Run(eval, m, Ending(hasElse, other, rest))
              == if on then Through(eval, after, Meaning(eval, other, m.asked), rest) else Run(eval, after, rest)
    decreases other, 2
  {
    hide Run, Flattened, Proper;
    var b := m.stack[|below|];
    var close := [EndIf] + rest;
    if hasElse {
      var on := b.parent && !b.taken;
      var inside := m.(stack := below + [b.(seenElse := true)], active := on);
      assert Ending(hasElse, other, rest) == [Else] + (Flattened(other) + close);
      assert inside.stack[..|below|] == below;
      RunFirst(eval, m, Else, Flattened(other) + close);
      RunItems(eval, inside, other, close);
      RunFirst(eval, inside, EndIf, rest);
      var r := Meaning(eval, other, m.asked);
      if r.Expanded? { RunFirst(eval, inside.(output := m.output + r.output, asked := r.asked), EndIf, rest); }
    } else {
      assert Ending(hasElse, other, rest) == close;
      RunFirst(eval, m, EndIf, rest);
      assert m.output + "" == m.output;
    }
  }

  // -------------------------------------------------- anything else is rejected

  /** Directives pair up; `open` says of each block around whether its else was seen. */
  predicate Balanced(tokens: seq<Token>, open: seq<bool>)
    decreases |tokens|
  {
    if tokens == [] then open == []
    else
      var rest := tokens[1..];
      match tokens[0]
      case Plain(_) => Balanced(rest, open)
      case Misspelt => false
      case If(condition) => condition != "" && Balanced(rest, open + [false])
      case Else => open != [] && !open[|open| - 1] && Balanced(rest, open[..|open| - 1] + [true])
      case EndIf => open != [] && Balanced(rest, open[..|open| - 1])
  }

  function SeenElse(stack: seq<Branch>): seq<bool>
  {
    seq(|stack|, i requires 0 <= i < |stack| => stack[i].seenElse)
  }

  lemma {:induction false} ExpandedIsBalanced(eval: Evaluator, m: Machine, tokens: seq<Token>)
    requires Run(eval, m, tokens).Expanded?
    ensures Balanced(tokens, SeenElse(m.stack))
    decreases |tokens|
  {
    hide OneToken, Balanced, SeenElse;
    if tokens == [] {
      NothingOpen(m);
    } else {
      ExpandedIsBalanced(eval, OneToken(eval, m, tokens[0]).machine, tokens[1..]);
      OneBalanced(eval, m, tokens);
    }
  }

  lemma {:induction false} NothingOpen(m: Machine)
    requires m.stack == []
    ensures Balanced([], SeenElse(m.stack))
  {
  }

  lemma {:induction false} OneBalanced(eval: Evaluator, m: Machine, tokens: seq<Token>)
    requires tokens != [] && OneToken(eval, m, tokens[0]).Next?
    requires Balanced(tokens[1..], SeenElse(OneToken(eval, m, tokens[0]).machine.stack))
    ensures Balanced(tokens, SeenElse(m.stack))
  {
    var next := OneToken(eval, m, tokens[0]).machine;
    var open, top := SeenElse(m.stack), |m.stack| - 1;
    match tokens[0] {
      case Plain(_) =>
      case If(_) => assert SeenElse(next.stack) == open + [false];
      case Else => assert SeenElse(next.stack) == open[..top] + [true];
      case EndIf => assert SeenElse(next.stack) == open[..top];
      case Misspelt =>
    }
  }

  lemma {:induction false} FlattenedFirst(first: Item, items: seq<Item>)
    ensures Flattened([first] + items) == FlatItem(first) + Flattened(items)
    ensures Proper([first] + items) <==> ProperItem(first) && Proper(items)
  {
    assert ([first] + items)[1..] == items;
  }

  /** Read blocks up to the end or the directive that closes the block around. */
  lemma {:induction false} Parsed(tokens: seq<Token>, open: seq<bool>) returns (items: seq<Item>, rest: seq<Token>)
    requires Balanced(tokens, open)
    ensures Proper(items) && tokens == Flattened(items) + rest && Balanced(rest, open)
    ensures rest == [] || rest[0] == Else || rest[0] == EndIf
    decreases |tokens|
  {
    if tokens == [] || tokens[0] == Else || tokens[0] == EndIf {
      items, rest := [], tokens;
      assert [] + tokens == tokens;
    } else {
      var first, after := ParsedItem(tokens, open);
      var more;
      more, rest := Parsed(after, open);
      items := [first] + more;
      FlattenedFirst(first, more);
      assert tokens == FlatItem(first) + Flattened(more) + rest;
    }
  }

  lemma {:induction false} ParsedItem(tokens: seq<Token>, open: seq<bool>) returns (item: Item, rest: seq<Token>)
    requires Balanced(tokens, open) && tokens != [] && (tokens[0].Plain? || tokens[0].If?)
    ensures ProperItem(item) && tokens == FlatItem(item) + rest && Balanced(rest, open) && |rest| < |tokens|
    decreases |tokens|, 0
  {
    hide Flattened, Proper;
    var tail := tokens[1..];
    assert tokens == [tokens[0]] + tail;
    if tokens[0].Plain? {
      item, rest := Piece(tokens[0].text), tail;
    } else {
      var body, end := Parsed(tail, open + [false]);
      assert end != [] && end == [end[0]] + end[1..];
      hide FlatItem;
      var condition, other := tokens[0].condition, [];
      if end[0] == EndIf {
        rest := end[1..];
        assert (open + [false])[..|open|] == open;
        item := Block(condition, body, false, []);
        ShortBlock(condition, body, rest);
      } else {
        assert (open + [false])[..|open|] + [true] == open + [true];
        var last;
        other, last := Parsed(end[1..], open + [true]);
        assert last != [] && last[0] == EndIf && last == [EndIf] + last[1..];
        rest := last[1..];
        assert (open + [true])[..|open|] == open;
        item := Block(condition, body, true, other);
        LongBlock(condition, body, other, rest);
      }
    }
  }

  lemma {:induction false} ShortBlock(condition: string, body: seq<Item>, rest: seq<Token>)
    ensures [If(condition)] + (Flattened(body) + ([EndIf] + rest)) == FlatItem(Block(condition, body, false, [])) + rest
    ensures ProperItem(Block(condition, body, false, [])) <==> condition != "" && Proper(body)
  {
    hide Flattened;
  }

  lemma {:induction false} LongBlock(condition: string, body: seq<Item>, other: seq<Item>, rest: seq<Token>)
    ensures [If(condition)] + (Flattened(body) + ([Else] + (Flattened(other) + ([EndIf] + rest))))
      == FlatItem(Block(condition, body, true, other)) + rest
    ensures ProperItem(Block(condition, body, true, other)) <==> condition != "" && Proper(body) && Proper(other)
  {
    hide Flattened;
  }

  // --------------------------------------------------------------- main results

  /** On nested blocks the machine gives what the blocks mean, having asked the evaluator the same
      conditions in the same order, and it stops at the same one. */
  lemma {:induction false} ExpandsToMeaning(eval: Evaluator, items: seq<Item>)
    requires Proper(items)
    ensures Run(eval, START, Flattened(items)) == Meaning(eval, items, [])
  {
    RunItems(eval, START, items, []);
    assert Flattened(items) + [] == Flattened(items);
    var r := Meaning(eval, items, []);
    if r.Expanded? { assert "" + r.output == r.output; }
  }

  /** It succeeds exactly on the text of nested blocks whose conditions all get an answer. */
  lemma {:induction false} ExpandsExactlyBlocks(eval: Evaluator, tokens: seq<Token>)
    ensures Run(eval, START, tokens).Expanded? <==>
      exists items :: Proper(items) && tokens == Flattened(items) && Meaning(eval, items, []).Expanded?
  {
    if Run(eval, START, tokens).Expanded? {
      ExpandedIsBalanced(eval, START, tokens);
      assert SeenElse([]) == [];
      var items, rest := Parsed(tokens, []);
      assert rest == [];
      assert tokens == Flattened(items);
      ExpandsToMeaning(eval, items);
    }
    if items :| Proper(items) && tokens == Flattened(items) && Meaning(eval, items, []).Expanded? {
      ExpandsToMeaning(eval, items);
    }
  }

  // ------------------------------------------------------------ piece by piece

  /** Expanding some text after these conditions were asked. */
  function ExpandedFrom(eval: Evaluator, asked: seq<string>, tokens: seq<Token>): Outcome
  {
    Run(eval, Machine([], true, "", asked), tokens)
  }

  /** One outcome and then another. */
  function Then(first: Outcome, rest: Outcome): Outcome
  {
    match first
    case Rejected(asked) => Rejected(asked)
    case Expanded(text, _) =>
      match rest
      case Rejected(asked) => Rejected(asked)
      case Expanded(more, asked) => Expanded(text + more, asked)
  }

  lemma {:induction false} ExpandedIsMeaning(eval: Evaluator, asked: seq<string>, items: seq<Item>)
    requires Proper(items)
    ensures ExpandedFrom(eval, asked, Flattened(items)) == Meaning(eval, items, asked)
  {
    hide Flattened, Meaning, Proper;
    var m := Machine([], true, "", asked);
    assert Flattened(items) + [] == Flattened(items);
    RunItems(eval, m, items, []);
    var r := Meaning(eval, items, asked);
    if r.Expanded? { assert "" + r.output == r.output; }
  }

  /** A block expands to its first branch when its condition holds and to the other one when it does
      not; only that branch may ask more, and what stands behind the block comes after it. Without an
      answer everything is refused. */
  lemma {:induction false} BlockExpanded(eval: Evaluator, asked: seq<string>, condition: string, body: seq<Item>, hasElse: bool,
      other: seq<Item>, rest: seq<Item>)
    requires condition != "" && Proper(body) && Proper(other) && Proper(rest) && (hasElse || other == [])
    ensures var now := asked + [condition];
            var block := [If(condition)] + Flattened(body) + (if hasElse then [Else] + Flattened(other) else []) + [EndIf];
            var r := ExpandedFrom(eval, asked, block + Flattened(rest));
            if eval(now).None? then r == Rejected(now)
            else
              var first := ExpandedFrom(eval, now, if eval(now) == Some(true) then Flattened(body) else Flattened(other));
              r == Then(first, ExpandedFrom(eval, first.asked, Flattened(rest)))
  {
    hide Proper, Flattened, Run, ExpandedFrom;
    var block := Block(condition, body, hasElse, other);
    var now := asked + [condition];
    FirstItem(eval, asked, block, rest);
    ExpandedIsMeaning(eval, asked, [block] + rest);
    ExpandedIsMeaning(eval, now, body);
    ExpandedIsMeaning(eval, now, other);
    if eval(now).Some? {
      var first := Meaning(eval, if eval(now).value then body else other, now);
      ExpandedIsMeaning(eval, first.asked, rest);
    }
  }

  /** Text outside blocks is kept. */
  lemma {:induction false} TextExpanded(eval: Evaluator, asked: seq<string>, text: string, rest: seq<Item>)
    requires Proper(rest)
    ensures ExpandedFrom(eval, asked, [Plain(text)] + Flattened(rest))
      == Then(Expanded(text, asked), ExpandedFrom(eval, asked, Flattened(rest)))
  {
    hide Proper, Flattened, Run, ExpandedFrom;
    FirstItem(eval, asked, Piece(text), rest);
    ExpandedIsMeaning(eval, asked, [Piece(text)] + rest);
    ExpandedIsMeaning(eval, asked, rest);
  }

  lemma {:induction false} FirstItem(eval: Evaluator, asked: seq<string>, item: Item, rest: seq<Item>)
    requires ProperItem(item) && Proper(rest)
    ensures Proper([item] + rest) && Flattened([item] + rest) == FlatItem(item) + Flattened(rest)
    ensures var first := ItemMeaning(eval, item, asked);
            Meaning(eval, [item] + rest, asked) == Then(first, Meaning(eval, rest, first.asked))
  {
    hide ItemMeaning, FlatItem;
    assert ([item] + rest)[1..] == rest;
  }

  /** A directive without a condition, or a misspelt one, refuses the text wherever it stands. */
  lemma {:induction false} NeverExpanded(eval: Evaluator, m: Machine, tokens: seq<Token>)
    requires If("") in tokens || Misspelt in tokens
    ensures Run(eval, m, tokens).Rejected?
    decreases |tokens|
  {
    var step := OneToken(eval, m, tokens[0]);
    if step.Next? {
      assert If("") in tokens[1..] || Misspelt in tokens[1..];
      NeverExpanded(eval, step.machine, tokens[1..]);
    }
  }
}
