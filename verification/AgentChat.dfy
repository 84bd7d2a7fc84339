/** core/agent_chat.cpp: a conversation with a model that calls tools; whatever happens, the transcript stays valid. */
module AgentChats {
  import opened Memory

  datatype Provider = Anthropic | OpenAi

  /** Tool arguments, as far as approval looks at them. */
  datatype Args = Object(frozen: Option<bool>) | NotObject

  datatype Call = Call(id: string, name: string, args: Args)

  datatype Block = TextBlock(text: string) | ToolUse(call: Call) | ToolResult(id: string, content: string, isError: bool) | OtherBlock

  datatype Content = Plain(text: string) | Blocks(blocks: seq<Block>)

  datatype Message = User(content: Content) | Assistant(blocks: seq<Block>) | Tool(id: string, result: string)

  // ------------------------------------------------------ a valid transcript

  function CallsOf(blocks: seq<Block>): seq<Call>
  {
    if blocks == [] then []
    else CallsOf(blocks[..|blocks| - 1]) + (if blocks[|blocks| - 1].ToolUse? then [blocks[|blocks| - 1].call] else [])
  }

  function Ids(calls: seq<Call>): (ids: seq<string>)
    ensures |ids| == |calls|
  {
    seq(|calls|, i requires 0 <= i < |calls| => calls[i].id)
  }

  /** A user turn answers exactly these calls: their results come first and in order, and
      nothing after them is a result. */
  predicate Answers(c: Content, pending: seq<string>)
  {
    match c
    case Plain(_) => pending == []
    case Blocks(bs) =>
      && |pending| <= |bs|
      && (forall i :: 0 <= i < |pending| ==> bs[i].ToolResult? && bs[i].id == pending[i])
      && (forall i :: |pending| <= i < |bs| ==> !bs[i].ToolResult?)
  }

  /** Whose turn it is (Anthropic), and the calls still without a result. */
  datatype Turn = Turn(userNext: bool, pending: seq<string>)

  function Next(p: Provider, t: Turn, m: Message): Option<Turn>
  {
    match p
    case Anthropic => (
      match m
      case User(c) => if t.userNext && Answers(c, t.pending) then Some(Turn(false, [])) else None
      case Assistant(bs) => if !t.userNext && bs != [] then Some(Turn(true, Ids(CallsOf(bs)))) else None
      case Tool(_, _) => None
    )
    case OpenAi => (
      match m
      case User(c) => if t.pending == [] && Answers(c, []) then Some(Turn(false, [])) else None
      case Assistant(bs) => if t.pending == [] then Some(Turn(true, Ids(CallsOf(bs)))) else None
      case Tool(id, _) => if t.pending != [] && t.pending[0] == id then Some(Turn(true, t.pending[1..])) else None
    )
  }

  function Fold(p: Provider, ms: seq<Message>): Option<Turn>
  {
    if ms == [] then Some(Turn(true, []))
    else
      var before := Fold(p, ms[..|ms| - 1]);
      if before.None? then None else Next(p, before.value, ms[|ms| - 1])
  }

  /** Every call has exactly one result, directly after it and in order; Anthropic's turns
      alternate and start with the user. */
  predicate Valid(p: Provider, ms: seq<Message>)
  {
    Fold(p, ms).Some? && Fold(p, ms).value.pending == []
  }

  /** Valid, and it is the model's turn. */
  predicate Requestable(p: Provider, ms: seq<Message>)
  {
    Valid(p, ms) && ms != [] && (p.Anthropic? ==> !Fold(p, ms).value.userNext)
  }

  lemma {:induction false} FoldAppend(p: Provider, ms: seq<Message>, m: Message)
    ensures Fold(p, ms + [m]) == if Fold(p, ms).None? then None else Next(p, Fold(p, ms).value, m)
  {
    assert (ms + [m])[..|ms|] == ms;
  }

  lemma {:induction false} EmptyFold(p: Provider)
    ensures Fold(p, []) == Some(Turn(true, []))
  {
  }

  lemma {:induction false} FoldPrefix(p: Provider, ms: seq<Message>, n: nat)
    requires n <= |ms| && Fold(p, ms).Some?
    ensures Fold(p, ms[..n]).Some?
    ensures n < |ms| ==> Next(p, Fold(p, ms[..n]).value, ms[n]).Some? && Fold(p, ms[..n + 1]) == Next(p, Fold(p, ms[..n]).value, ms[n])
  {
    hide Fold, Next;
    if n < |ms| {
      var front, last := ms[..|ms| - 1], ms[|ms| - 1];
      assert ms == front + [last];
      FoldAppend(p, front, last);
      FoldPrefix(p, front, n);
      assert front[..n] == ms[..n];
      if n < |front| { assert front[..n + 1] == ms[..n + 1]; } else { assert ms[..n + 1] == ms; }
    } else {
      assert ms[..n] == ms;
    }
  }

  lemma {:induction false} Alternates(ms: seq<Message>)
    requires Fold(Anthropic, ms).Some?
    ensures Fold(Anthropic, ms).value.userNext <==> |ms| % 2 == 0
  {
    hide Fold, Answers, Ids, CallsOf;
    if ms == [] {
      EmptyFold(Anthropic);
    } else {
      var front, last := ms[..|ms| - 1], ms[|ms| - 1];
      assert ms == front + [last];
      FoldAppend(Anthropic, front, last);
      Alternates(front);
    }
  }

  /** Validity for Anthropic, turn by turn: user and assistant alternate, and the user turn after
      an assistant turn answers exactly its calls. */
  lemma {:induction false} AnthropicTurns(ms: seq<Message>, i: nat)
    requires Valid(Anthropic, ms) && i < |ms|
    ensures if i % 2 == 0 then ms[i].User? else ms[i].Assistant?
    ensures ms[i].Assistant? && CallsOf(ms[i].blocks) != [] ==> i + 1 < |ms|
    ensures ms[i].Assistant? && i + 1 < |ms| ==> ms[i + 1].User? && Answers(ms[i + 1].content, Ids(CallsOf(ms[i].blocks)))
    ensures ms[i].Assistant? && i + 1 < |ms| && CallsOf(ms[i].blocks) != [] ==>
              ms[i + 1].content.Blocks? && |ms[i + 1].content.blocks| >= |CallsOf(ms[i].blocks)|
    ensures ms[i].Assistant? && i + 1 < |ms| && ms[i + 1].content.Blocks? ==>
              var calls, results := CallsOf(ms[i].blocks), ms[i + 1].content.blocks;
              forall j :: 0 <= j < |results| ==>
                if j < |calls| then results[j].ToolResult? && results[j].id == calls[j].id else !results[j].ToolResult?
  {
    FoldPrefix(Anthropic, ms, i);
    Alternates(ms[..i]);
    if i + 1 < |ms| { FoldPrefix(Anthropic, ms, i + 1); } else { assert ms[..i + 1] == ms; }
  }

  /** Validity for OpenAI: the results of an assistant message's calls follow it one by one. */
  lemma {:induction false} OpenAiResults(ms: seq<Message>, i: nat, j: nat)
    requires Valid(OpenAi, ms) && i < |ms| && ms[i].Assistant? && j < |CallsOf(ms[i].blocks)|
    ensures i + 1 + j < |ms| && ms[i + 1 + j].Tool? && ms[i + 1 + j].id == CallsOf(ms[i].blocks)[j].id
  {
    OpenAiPending(ms, i, j);
    assert ms[..|ms|] == ms;
    if i + 1 + j < |ms| { FoldPrefix(OpenAi, ms, i + 1 + j); }
  }

  lemma {:induction false} OpenAiPending(ms: seq<Message>, i: nat, j: nat)
    requires Fold(OpenAi, ms).Some? && Fold(OpenAi, ms).value.pending == []
    requires i < |ms| && ms[i].Assistant? && j <= |CallsOf(ms[i].blocks)|
    ensures i + 1 + j <= |ms| && Fold(OpenAi, ms[..i + 1 + j]).Some?
    ensures Fold(OpenAi, ms[..i + 1 + j]).value.pending == Ids(CallsOf(ms[i].blocks))[j..]
  {
    hide Fold, Ids, CallsOf, Answers;
    if j == 0 {
      FoldPrefix(OpenAi, ms, i);
    } else {
      OpenAiPending(ms, i, j - 1);
      var at := i + j;
      assert ms[..|ms|] == ms;
      if at < |ms| { FoldPrefix(OpenAi, ms, at); }
    }
  }

  // --------------------------------------------------------- the user's text

  function AddText(c: Content, text: string): Content
  {
    match c
    case Plain(t) => Blocks([TextBlock(t), TextBlock(text)])
    case Blocks(bs) => Blocks(bs + [TextBlock(text)])
  }

  /** The transcript with the user's text: Anthropic's joins a user turn that is already there. */
  function WithText(p: Provider, ms: seq<Message>, text: string): (r: seq<Message>)
    ensures r != []
  {
    if p.Anthropic? && ms != [] && ms[|ms| - 1].User?
    then ms[..|ms| - 1] + [User(AddText(ms[|ms| - 1].content, text))]
    else ms + [User(Plain(text))]
  }

  /** The text comes last, and everything said before is kept. */
  lemma {:induction false} TextIsLast(p: Provider, ms: seq<Message>, text: string)
    ensures var r := WithText(p, ms, text);
            var last := r[|r| - 1];
            if p.Anthropic? && ms != [] && ms[|ms| - 1].User? then
              && |r| == |ms| && r[..|r| - 1] == ms[..|ms| - 1] && last.User? && last.content.Blocks?
              && var was, bs := ms[|ms| - 1].content, last.content.blocks;
                 |bs| > 0 && bs[|bs| - 1] == TextBlock(text) && bs[..|bs| - 1] == if was.Plain? then [TextBlock(was.text)] else was.blocks
            else r == ms + [User(Plain(text))]
  {
  }

  lemma {:induction false} TextIsRequestable(p: Provider, ms: seq<Message>, text: string)
    requires Valid(p, ms)
    ensures Requestable(p, WithText(p, ms, text))
  {
    hide Fold, Answers, AddText;
    if p.Anthropic? && ms != [] && ms[|ms| - 1].User? {
      var front, c := ms[..|ms| - 1], ms[|ms| - 1].content;
      assert ms == front + [User(c)];
      FoldAppend(p, front, User(c));
      FoldAppend(p, front, User(AddText(c, text)));
      AddedTextAnswers(c, text, Fold(p, front).value.pending);
    } else {
      FoldAppend(p, ms, User(Plain(text)));
      if ms != [] && p.Anthropic? {
        assert ms == ms[..|ms| - 1] + [ms[|ms| - 1]];
        FoldAppend(p, ms[..|ms| - 1], ms[|ms| - 1]);
      }
      EmptyFold(p);
      PlainAnswers(text);
    }
  }

  lemma {:induction false} PlainAnswers(text: string)
    ensures Answers(Plain(text), [])
  {
  }

  lemma {:induction false} AddedTextAnswers(c: Content, text: string, pending: seq<string>)
    requires Answers(c, pending)
    ensures Answers(AddText(c, text), pending)
  {
  }

  // ---------------------------------------------------------------- approval

  predicate NeedsApproval(call: Call)
  {
    if call.name in {"write", "aa_enable", "aa_disable", "find_accessed_addresses", "save_table", "attach"} then true
    else call.name == "set_frozen" && call.args.Object? && call.args.frozen == Some(true)
  }

  const MAX_CALLS_PER_REPLY := 16

  /** What the outside sees, in order. */
  datatype Event = Sent(request: seq<Message>) | Asked(call: Call, yes: bool) | Ran(call: Call)

  function RanSinceSent(trace: seq<Event>): nat
  {
    if trace == [] then 0
    else match trace[|trace| - 1]
      case Sent(_) => 0
      case Asked(_, _) => RanSinceSent(trace[..|trace| - 1])
      case Ran(_) => RanSinceSent(trace[..|trace| - 1]) + 1
  }

  /** Only valid transcripts are sent; a tool that needs approval runs right after a yes to that
      very call, and nothing else is asked about; at most 16 tools run for one reply. */
  predicate Permitted(p: Provider, before: seq<Event>, e: Event)
  {
    match e
    case Sent(request) => Requestable(p, request)
    case Asked(call, _) => call.args.Object? && NeedsApproval(call)
    case Ran(call) =>
      && call.args.Object?
      && RanSinceSent(before) < MAX_CALLS_PER_REPLY
      && (NeedsApproval(call) ==> before != [] && before[|before| - 1] == Asked(call, true))
  }

  predicate Proper(p: Provider, trace: seq<Event>)
  {
    trace == [] || (Proper(p, trace[..|trace| - 1]) && Permitted(p, trace[..|trace| - 1], trace[|trace| - 1]))
  }

  lemma {:induction false} ProperAppend(p: Provider, trace: seq<Event>, e: Event)
    requires Proper(p, trace) && Permitted(p, trace, e)
    ensures Proper(p, trace + [e])
    ensures RanSinceSent(trace + [e]) == if e.Sent? then 0 else if e.Ran? then RanSinceSent(trace) + 1 else RanSinceSent(trace)
  {
    hide Permitted;
    assert (trace + [e])[..|trace|] == trace;
  }

  lemma {:induction false} ProperPrefix(p: Provider, trace: seq<Event>, n: nat)
    requires Proper(p, trace) && n <= |trace|
    ensures Proper(p, trace[..n]) && (n < |trace| ==> Permitted(p, trace[..n], trace[n]))
    decreases |trace|
  {
    hide Permitted;
    if n < |trace| {
      var front := trace[..|trace| - 1];
      if n < |front| {
        ProperPrefix(p, front, n);
        assert front[..n] == trace[..n];
      }
    } else {
      assert trace[..n] == trace;
    }
  }

  /** The tools that change the target or the user's files. */
  ghost predicate Changes(call: Call)
  {
    || call.name == "write" || call.name == "aa_enable" || call.name == "aa_disable"
    || call.name == "find_accessed_addresses" || call.name == "save_table" || call.name == "attach"
    || (call.name == "set_frozen" && call.args == Object(Some(true)))
  }

  /** Whatever happened, a tool that changes something ran only right after the user had said yes to
      that very call, and about no other tool was the user asked. */
  lemma {:induction false} ChangesAreApproved(p: Provider, trace: seq<Event>, i: nat)
    requires Proper(p, trace) && i < |trace|
    ensures trace[i].Ran? && Changes(trace[i].call) ==> i > 0 && trace[i - 1] == Asked(trace[i].call, true)
    ensures trace[i].Asked? ==> Changes(trace[i].call)
    ensures trace[i].Ran? || trace[i].Asked? ==> trace[i].call.args.Object?
    ensures trace[i].Sent? ==> Requestable(p, trace[i].request)
  {
    hide Requestable;
    ProperPrefix(p, trace, i);
  }

  /** Between two requests at most sixteen tools run. */
  lemma {:induction false} SixteenPerReply(p: Provider, trace: seq<Event>, i: nat, j: nat)
    requires Proper(p, trace) && i <= j <= |trace|
    requires forall k :: i <= k < j ==> !trace[k].Sent?
    ensures |RanCalls(trace[i..j])| <= 16
  {
    hide Proper, Permitted, RanSinceSent, RanCalls;
    ProperPrefix(p, trace, j);
    RanBounded(p, trace[..j]);
    RanIsCounted(p, trace, i, j);
  }

  lemma {:induction false} RanBounded(p: Provider, trace: seq<Event>)
    requires Proper(p, trace)
    ensures RanSinceSent(trace) <= MAX_CALLS_PER_REPLY
  {
    hide NeedsApproval, Requestable;
    if trace != [] { RanBounded(p, trace[..|trace| - 1]); }
  }

  lemma {:induction false} RanIsCounted(p: Provider, trace: seq<Event>, i: nat, j: nat)
    requires Proper(p, trace) && i <= j <= |trace|
    requires forall k :: i <= k < j ==> !trace[k].Sent?
    ensures |RanCalls(trace[i..j])| <= RanSinceSent(trace[..j])
  {
    hide NeedsApproval, Requestable;
    if i < j {
      RanIsCounted(p, trace, i, j - 1);
      ProperPrefix(p, trace, j - 1);
      assert trace[..j][..j - 1] == trace[..j - 1];
      assert trace[i..j][..j - 1 - i] == trace[i..j - 1];
    }
  }

  /** The calls that ran, in order. */
  function RanCalls(trace: seq<Event>): seq<Call>
  {
    if trace == [] then []
    else
      var last := trace[|trace| - 1];
      RanCalls(trace[..|trace| - 1]) + (if last.Ran? then [last.call] else [])
  }

  /** `ran` is some of `calls`, each at most once and in the same order. */
  predicate Picks(ran: seq<Call>, calls: seq<Call>)
  {
    if calls == [] then ran == []
    else
      var n, m := |calls| - 1, |ran| - 1;
      Picks(ran, calls[..n]) || (ran != [] && ran[m] == calls[n] && Picks(ran[..m], calls[..n]))
  }

  lemma {:induction false} OneBlock(block: Block)
    ensures CallsOf([]) == [] && CallsOf([block]) == if block.ToolUse? then [block.call] else []
  {
    assert [block][..0] == [];
  }

  /** The calls of some blocks are their tool uses, in order. */
  lemma {:induction false} CallsJoin(a: seq<Block>, b: seq<Block>)
    ensures CallsOf(a + b) == CallsOf(a) + CallsOf(b)
  {
    if b == [] {
      assert a + b == a;
    } else {
      var n := |b| - 1;
      CallsJoin(a, b[..n]);
      assert (a + b)[..|a + b| - 1] == a + b[..n];
    }
  }

  /** The requests sent. */
  function SentIn(trace: seq<Event>): nat
  {
    if trace == [] then 0 else SentIn(trace[..|trace| - 1]) + if trace[|trace| - 1].Sent? then 1 else 0
  }

  lemma {:induction false} SentAppend(trace: seq<Event>, e: Event)
    ensures SentIn(trace + [e]) == SentIn(trace) + if e.Sent? then 1 else 0
  {
    assert (trace + [e])[..|trace|] == trace;
  }

  lemma {:induction false} NothingSent(trace: seq<Event>, done: seq<Event>)
    requires forall i :: 0 <= i < |done| ==> !done[i].Sent?
    ensures SentIn(trace + done) == SentIn(trace)
  {
    if done == [] {
      assert trace + done == trace;
    } else {
      var n := |done| - 1;
      NothingSent(trace, done[..n]);
      SentAppend(trace + done[..n], done[n]);
      assert trace + done == trace + done[..n] + [done[n]];
    }
  }

  /** What came of one call: whether the user had stopped the turn, the result, and what was seen. */
  datatype Answer = Answer(stopped: bool, content: string, isError: bool, done: seq<Event>)

  /** A call is refused, or it runs, after a yes when it needs one. */
  predicate AnsweredAs(call: Call, hasApprover: bool, a: Answer)
  {
    if a.stopped then a == Answer(true, "The user stopped the assistant.", true, [])
    else if !call.args.Object? then a == Answer(false, "arguments are not a JSON object", true, [])
    else if !NeedsApproval(call) then a.done == [Ran(call)]
    else
      || (hasApprover && a.done == [Asked(call, true), Ran(call)])
      || a == Answer(false, "The user declined this change.", true, if hasApprover then [Asked(call, false)] else [])
  }

  /** The first calls were answered in order; once the user stops the turn, no later one runs. */
  predicate AllAnswered(calls: seq<Call>, hasApprover: bool, given: seq<Answer>)
  {
    && |given| <= |calls|
    && (forall i :: 0 <= i < |given| ==> AnsweredAs(calls[i], hasApprover, given[i]))
    && (forall i, j :: 0 <= i < j < |given| && given[i].stopped ==> given[j].stopped)
  }

  /** All that was seen, call by call. */
  function Seen(given: seq<Answer>): seq<Event>
  {
    if given == [] then [] else Seen(given[..|given| - 1]) + given[|given| - 1].done
  }

  lemma {:induction false} SeenAppend(given: seq<Answer>, a: Answer)
    ensures Seen(given + [a]) == Seen(given) + a.done
  {
    assert (given + [a])[..|given|] == given;
  }

  /** What was seen of one more call comes behind what was seen of those before. */
  lemma {:induction false} SeenMore(start: seq<Event>, was: seq<Event>, now: seq<Event>, call: Call, hasApprover: bool, given: seq<Answer>, a: Answer)
    requires was == start + Seen(given) && now == was + a.done && AnsweredAs(call, hasApprover, a)
    ensures now == start + Seen(given + [a]) && SentIn(now) == SentIn(was)
    ensures a.stopped && Seen(given) == [] ==> Seen(given + [a]) == []
  {
    hide Seen, SentIn, AnsweredAs, NeedsApproval;
    AnswerPerformed(call, hasApprover, a);
    NothingSent(was, a.done);
    SeenAppend(given, a);
    assert start + (Seen(given) + a.done) == start + Seen(given) + a.done;
    if a.stopped { StoppedDid(call, hasApprover, a); }
  }

  lemma {:induction false} StoppedDid(call: Call, hasApprover: bool, a: Answer)
    requires AnsweredAs(call, hasApprover, a) && a.stopped
    ensures a.done == []
  {
  }

  lemma {:induction false} AnsweredMore(calls: seq<Call>, hasApprover: bool, given: seq<Answer>, a: Answer)
    requires AllAnswered(calls, hasApprover, given) && |given| < |calls| && AnsweredAs(calls[|given|], hasApprover, a)
    requires (exists i :: 0 <= i < |given| && given[i].stopped) ==> a.stopped
    ensures AllAnswered(calls, hasApprover, given + [a])
  {
    hide AnsweredAs;
  }

  lemma {:induction false} AnswerPerformed(call: Call, hasApprover: bool, a: Answer)
    requires AnsweredAs(call, hasApprover, a)
    ensures Performed(call, a.done) && forall i :: 0 <= i < |a.done| ==> !a.done[i].Sent?
  {
  }

  /** What may come of one call: nothing, a refusal, or its run. */
  predicate Performed(call: Call, done: seq<Event>)
  {
    || done == []
    || (NeedsApproval(call) && done == [Asked(call, false)])
    || done == if NeedsApproval(call) then [Asked(call, true), Ran(call)] else [Ran(call)]
  }

  lemma {:induction false} RanAppend(before: seq<Event>, e: Event)
    ensures RanCalls(before + [e]) == RanCalls(before) + (if e.Ran? then [e.call] else [])
  {
    assert (before + [e])[..|before|] == before;
  }

  lemma {:induction false} PicksNext(before: seq<Event>, calls: seq<Call>, i: nat, done: seq<Event>)
    requires i < |calls| && Picks(RanCalls(before), calls[..i]) && Performed(calls[i], done)
    ensures Picks(RanCalls(before + done), calls[..i + 1])
  {
    hide NeedsApproval, RanCalls;
    var ran := RanCalls(before);
    assert calls[..i + 1][..i] == calls[..i];
    assert (ran + [calls[i]])[..|ran|] == ran;
    assert ran + [] == ran;
    if done == [] {
      assert before + done == before;
    } else {
      RanAppend(before, done[0]);
      assert |done| == 1 ==> before + done == before + [done[0]];
      if |done| == 2 {
        RanAppend(before + [done[0]], done[1]);
        assert before + done == before + [done[0]] + [done[1]];
      }
    }
  }

  const LIMIT_NOTE := "only 16 tool calls run per reply; send this one again"

  /** One result a call, in order: what came of it, and past those that were tried a note that it
      did not run. */
  predicate AnswersAll(p: Provider, calls: seq<Call>, given: seq<Answer>, added: seq<Message>)
  {
    match p
    case Anthropic =>
      |added| == 1 && added[0].User? && added[0].content.Blocks? && ResultBlocks(calls, given, added[0].content.blocks)
    case OpenAi => ToolMessages(calls, given, added)
  }

  predicate ResultBlocks(calls: seq<Call>, given: seq<Answer>, results: seq<Block>)
  {
    && |results| == |calls|
    && forall j :: 0 <= j < |results| ==>
         results[j] == if j < |given| then ToolResult(calls[j].id, given[j].content, given[j].isError)
                       else ToolResult(calls[j].id, "only 16 tool calls run per reply; send this one again", true)
  }

  predicate ToolMessages(calls: seq<Call>, given: seq<Answer>, tools: seq<Message>)
  {
    && |tools| == |calls|
    && forall j :: 0 <= j < |tools| ==>
         tools[j] == Tool(calls[j].id, if j < |given| then given[j].content
                                       else "only 16 tool calls run per reply; send this one again")
  }

  lemma {:induction false} IdOf(calls: seq<Call>, i: nat)
    requires i < |calls|
    ensures |Ids(calls)| == |calls| && Ids(calls)[i] == calls[i].id
  {
  }

  // ----------------------------------------------------------------- replies

  /** A tool call of an OpenAI message; `function` may be missing. */
  datatype RawCall = RawCall(id: string, function_: Option<(string, Args)>)

  datatype Body = NotJson | NoContent | ContentBlocks(blocks: seq<Block>) | ChoiceMessage(text: Option<string>, calls: seq<RawCall>)

  datatype Response = Response(truncated: bool, status: nat, body: Body)

  /** The calls the reply can be answered for. Only these go into the transcript, so that each call
      there gets its result. */
  function KeptCalls(raw: seq<RawCall>): seq<Call>
  {
    if raw == [] then []
    else
      var c := raw[|raw| - 1];
      KeptCalls(raw[..|raw| - 1]) + (if c.function_.Some? then [Call(c.id, c.function_.value.0, c.function_.value.1)] else [])
  }

  /** Calls are kept in order, and only one without a function is dropped. */
  lemma {:induction false} KeptJoin(a: seq<RawCall>, b: seq<RawCall>)
    ensures KeptCalls(a + b) == KeptCalls(a) + KeptCalls(b)
  {
    if b == [] {
      assert a + b == a;
    } else {
      var n := |b| - 1;
      KeptJoin(a, b[..n]);
      assert (a + b)[..|a + b| - 1] == a + b[..n];
    }
  }

  lemma {:induction false} OneKept(c: RawCall)
    ensures KeptCalls([]) == []
    ensures KeptCalls([c]) == if c.function_.Some? then [Call(c.id, c.function_.value.0, c.function_.value.1)] else []
  {
    assert [c][..0] == [];
  }

  function AsBlocks(text: string, calls: seq<Call>): (bs: seq<Block>)
    ensures |bs| == |calls| + 1
  {
    [TextBlock(text)] + seq(|calls|, i requires 0 <= i < |calls| => ToolUse(calls[i]))
  }

  lemma {:induction false} AsBlocksCalls(text: string, calls: seq<Call>)
    ensures CallsOf(AsBlocks(text, calls)) == calls
  {
    var bs := AsBlocks(text, calls);
    if calls == [] {
      assert bs[..0] == [] && CallsOf(bs[..0]) == [];
    } else {
      var n := |calls| - 1;
      AsBlocksCalls(text, calls[..n]);
      assert bs[..|bs| - 1] == AsBlocks(text, calls[..n]);
    }
  }

  /** What a successful reply adds to the transcript. */
  function ReplyMessages(p: Provider, body: Body): seq<Message>
  {
    if p.Anthropic? && body.ContentBlocks? then (if body.blocks == [] then [] else [Assistant(body.blocks)])
    else if p.OpenAi? && body.ChoiceMessage?
    then [Assistant(AsBlocks(if body.text.Some? then body.text.value else "", KeptCalls(body.calls)))]
    else []
  }

  function ReplyCalls(p: Provider, body: Body): seq<Call>
  {
    if p.Anthropic? && body.ContentBlocks? then CallsOf(body.blocks)
    else if p.OpenAi? && body.ChoiceMessage? then KeptCalls(body.calls) else []
  }

  /** After a reply the calls it made, and nothing else, wait for results. */
  lemma {:induction false} ReplyPends(p: Provider, ms: seq<Message>, body: Body)
    requires Requestable(p, ms)
    ensures var f := Fold(p, ms + ReplyMessages(p, body));
            && f.Some? && f.value.pending == Ids(ReplyCalls(p, body))
            && (ReplyCalls(p, body) != [] ==> f.value.userNext)
    ensures ms != [] && (ReplyCalls(p, body) == [] ==> Valid(p, ms + ReplyMessages(p, body)))
  {
    var added := ReplyMessages(p, body);
    if added == [] {
      assert ms + [] == ms;
    } else {
      if p.OpenAi? { AsBlocksCalls(if body.text.Some? then body.text.value else "", KeptCalls(body.calls)); }
      FoldAppend(p, ms, added[0]);
      assert ms + added == ms + [added[0]];
    }
  }

  /** Tool messages that answer the pending calls one by one. */
  lemma {:induction false} ToolsAnswer(ms: seq<Message>, tools: seq<Message>, pending: seq<string>)
    requires Fold(OpenAi, ms).Some? && Fold(OpenAi, ms).value.pending == pending
    requires |tools| <= |pending| && forall i :: 0 <= i < |tools| ==> tools[i].Tool? && tools[i].id == pending[i]
    ensures Fold(OpenAi, ms + tools).Some? && Fold(OpenAi, ms + tools).value.pending == pending[|tools|..]
  {
    hide Fold, Answers;
    if tools == [] {
      assert ms + tools == ms;
    } else {
      var n := |tools| - 1;
      ToolsAnswer(ms, tools[..n], pending);
      FoldAppend(OpenAi, ms + tools[..n], tools[n]);
      assert ms + tools == ms + tools[..n] + [tools[n]];
    }
  }

  /** The results of one reply's calls, in the provider's form. */
  lemma {:induction false} ResultsComplete(p: Provider, ms: seq<Message>, pending: seq<string>, results: seq<Block>, tools: seq<Message>)
    requires Fold(p, ms).Some? && Fold(p, ms).value == Turn(true, pending) && ms != []
    requires p.Anthropic? ==> tools == [] && Answers(Blocks(results), pending) && |results| == |pending|
    requires p.OpenAi? ==> |tools| == |pending| && forall i :: 0 <= i < |tools| ==> tools[i].Tool? && tools[i].id == pending[i]
    ensures Requestable(p, ms + tools + (if p.Anthropic? then [User(Blocks(results))] else []))
  {
    if p.Anthropic? {
      assert ms + [] == ms;
      FoldAppend(p, ms, User(Blocks(results)));
    } else {
      ToolsAnswer(ms, tools, pending);
      assert ms + tools + [] == ms + tools;
    }
  }

  lemma {:induction false} NothingRan(calls: seq<Call>, hasApprover: bool)
    ensures Picks(RanCalls(Seen([])), calls[..0]) && ResultBlocks(calls[..0], [], []) && ToolMessages(calls[..0], [], [])
    ensures AllAnswered(calls, hasApprover, []) && Seen([]) == []
  {
  }

  lemma {:induction false} NextResult(calls: seq<Call>, i: nat, given: seq<Answer>, now: seq<Answer>, results: seq<Block>, next: Block)
    requires i < |calls| && ResultBlocks(calls[..i], given, results) && given <= now && |given| <= i
    requires if |now| > |given| then |given| == i && now == given + [now[i]] && next == ToolResult(calls[i].id, now[i].content, now[i].isError)
             else next == ToolResult(calls[i].id, LIMIT_NOTE, true)
    ensures ResultBlocks(calls[..i + 1], now, results + [next])
  {
    forall j | 0 <= j < i ensures (results + [next])[j] == results[j] && calls[..i + 1][j] == calls[..i][j] {}
  }

  lemma {:induction false} NextTool(calls: seq<Call>, i: nat, given: seq<Answer>, now: seq<Answer>, tools: seq<Message>, next: Message)
    requires i < |calls| && ToolMessages(calls[..i], given, tools) && given <= now && |given| <= i
    requires if |now| > |given| then |given| == i && now == given + [now[i]] && next == Tool(calls[i].id, now[i].content)
             else next == Tool(calls[i].id, LIMIT_NOTE)
    ensures ToolMessages(calls[..i + 1], now, tools + [next])
  {
    forall j | 0 <= j < i ensures (tools + [next])[j] == tools[j] && calls[..i + 1][j] == calls[..i][j] {}
  }

  /** The first `i` calls have their results. */
  ghost predicate SoFar(p: Provider, calls: seq<Call>, i: nat, hasApprover: bool, given: seq<Answer>, results: seq<Block>, tools: seq<Message>)
  {
    && i <= |calls| && |given| == Min(i, 16) && AllAnswered(calls, hasApprover, given)
    && Picks(RanCalls(Seen(given)), calls[..Min(i, 16)])
    && if p.Anthropic? then tools == [] && ResultBlocks(calls[..i], given, results) else ToolMessages(calls[..i], given, tools)
  }

  lemma {:induction false} NoneSoFar(p: Provider, calls: seq<Call>, hasApprover: bool)
    ensures SoFar(p, calls, 0, hasApprover, [], [], [])
  {
    hide *;
    NothingRan(calls, hasApprover);
    assert SoFar(p, calls, 0, hasApprover, [], [], []) by { SoFarIs(p, calls, 0, hasApprover, [], [], []); }
  }

  lemma {:induction false} SoFarIs(p: Provider, calls: seq<Call>, i: nat, hasApprover: bool, given: seq<Answer>, results: seq<Block>, tools: seq<Message>)
    ensures SoFar(p, calls, i, hasApprover, given, results, tools) <==>
            && i <= |calls| && |given| == (if i < 16 then i else 16) && AllAnswered(calls, hasApprover, given)
            && Picks(RanCalls(Seen(given)), calls[..if i < 16 then i else 16])
            && if p.Anthropic? then tools == [] && ResultBlocks(calls[..i], given, results) else ToolMessages(calls[..i], given, tools)
  {
    hide AllAnswered, Picks, RanCalls, Seen, ResultBlocks, ToolMessages;
  }

  lemma {:induction false} NextSoFar(p: Provider, calls: seq<Call>, i: nat, hasApprover: bool, before: seq<Answer>, given: seq<Answer>,
      results: seq<Block>, tools: seq<Message>, content: string, isError: bool)
    requires i < |calls| && SoFar(p, calls, i, hasApprover, before, results, tools)
    requires if i < 16 then
               && |given| == i + 1 && given == before + [given[i]] && given[i].content == content && given[i].isError == isError
               && AnsweredAs(calls[i], hasApprover, given[i])
               && ((exists j :: 0 <= j < i && given[j].stopped) ==> given[i].stopped)
             else given == before && content == LIMIT_NOTE && isError
    ensures SoFar(p, calls, i + 1, hasApprover, given,
              if p.Anthropic? then results + [ToolResult(calls[i].id, content, isError)] else results,
              if p.Anthropic? then tools else tools + [Tool(calls[i].id, content)])
  {
    hide *;
    SoFarIs(p, calls, i, hasApprover, before, results, tools);
    if i < 16 {
      forall j | 0 <= j < i && before[j].stopped ensures given[i].stopped { assert given[j] == before[j]; }
      AnsweredMore(calls, hasApprover, before, given[i]);
      AnswerPerformed(calls[i], hasApprover, given[i]);
      PicksNext(Seen(before), calls, i, given[i].done);
      SeenAppend(before, given[i]);
    }
    if p.Anthropic? {
      NextResult(calls, i, before, given, results, ToolResult(calls[i].id, content, isError));
    } else {
      NextTool(calls, i, before, given, tools, Tool(calls[i].id, content));
    }
    SoFarIs(p, calls, i + 1, hasApprover, given,
      if p.Anthropic? then results + [ToolResult(calls[i].id, content, isError)] else results,
      if p.Anthropic? then tools else tools + [Tool(calls[i].id, content)]);
  }

  lemma {:induction false} AllSoFar(p: Provider, calls: seq<Call>, hasApprover: bool, given: seq<Answer>, results: seq<Block>, tools: seq<Message>)
    requires SoFar(p, calls, |calls|, hasApprover, given, results, tools)
    ensures |given| == Min(|calls|, 16) && AllAnswered(calls, hasApprover, given) && Picks(RanCalls(Seen(given)), calls[..Min(|calls|, 16)])
    ensures if p.Anthropic? then tools == [] && ResultBlocks(calls, given, results) else ToolMessages(calls, given, tools)
  {
    hide AllAnswered, Picks, RanCalls, Seen, ResultBlocks, ToolMessages;
    assert calls[..|calls|] == calls;
  }

  lemma {:induction false} AnswersComplete(p: Provider, calls: seq<Call>, given: seq<Answer>, ms: seq<Message>, results: seq<Block>, tools: seq<Message>)
    requires Fold(p, ms) == Some(Turn(true, Ids(calls))) && ms != []
    requires if p.Anthropic? then tools == [] && ResultBlocks(calls, given, results) else ToolMessages(calls, given, tools)
    ensures var all := ms + tools + (if p.Anthropic? then [User(Blocks(results))] else []);
            ms <= all && Requestable(p, all) && AnswersAll(p, calls, given, all[|ms|..])
  {
    hide Fold, Requestable, Ids;
    assert (ms + tools + [])[|ms|..] == tools;
    assert (ms + [] + [User(Blocks(results))])[|ms|..] == [User(Blocks(results))];
    forall i | 0 <= i < |calls| ensures |Ids(calls)| == |calls| && Ids(calls)[i] == calls[i].id { IdOf(calls, i); }
    ResultsComplete(p, ms, Ids(calls), results, tools);
  }

  // ---------------------------------------------------------------- the chat

  class AgentChat {
    const provider: Provider
    const modelChosen: bool
    const hasApprover: bool
    const maxRounds: int
    var messages: seq<Message>
    var cancelled: bool
    var trace: seq<Event>

    constructor (provider: Provider, modelChosen: bool, hasApprover: bool, maxRounds: int)
      ensures this.provider == provider && this.modelChosen == modelChosen && this.hasApprover == hasApprover
      ensures this.maxRounds == maxRounds && messages == [] && trace == [] && !cancelled && Ok()
    {
      this.provider, this.modelChosen, this.hasApprover, this.maxRounds := provider, modelChosen, hasApprover, maxRounds;
      messages, cancelled, trace := [], false, [];
    }

    /** Between two calls of `Send`. */
    ghost predicate Ok()
      reads this
    {
      Valid(provider, messages) && Proper(provider, trace)
    }

    /** Another thread may cancel at any time. */
    method PollCancel() returns (stop: bool)
      modifies this`cancelled
      ensures stop == cancelled && (old(cancelled) ==> stop)
    {
      var pressed: bool := *;
      cancelled := cancelled || pressed;
      return cancelled;
    }

    /** The transport, whatever it answers. */
    method Transport() returns (response: Response)
      requires Requestable(provider, messages) && Proper(provider, trace)
      modifies this`trace
      ensures trace == old(trace) + [Sent(messages)] && Proper(provider, trace) && RanSinceSent(trace) == 0
    {
      ProperAppend(provider, trace, Sent(messages));
      trace := trace + [Sent(messages)];
      response := *;
    }

    method ParseReply(body: Body) returns (ok: bool, calls: seq<Call>)
      modifies this`messages
      ensures ok <==> if provider.Anthropic? then body.ContentBlocks? else body.ChoiceMessage?
      ensures calls == if ok then ReplyCalls(provider, body) else []
      ensures messages == old(messages) + (if ok then ReplyMessages(provider, body) else [])
      ensures ok && provider.Anthropic? ==>
                messages == old(messages) + if body.blocks == [] then [] else [Assistant(body.blocks)]
      ensures ok && provider.OpenAi? ==>
                && |messages| == |old(messages)| + 1 && old(messages) <= messages
                && var said := messages[|old(messages)|];
                   && said.Assistant? && |said.blocks| == 1 + |calls|
                   && said.blocks[0] == TextBlock(if body.text.Some? then body.text.value else "")
                   && forall i :: 0 <= i < |calls| ==> said.blocks[1 + i] == ToolUse(calls[i])
    {
      calls := [];
      if body.NotJson? { return false, []; }
      if provider.Anthropic? {
        if !body.ContentBlocks? { return false, []; }
        var bs := body.blocks;
        for i := 0 to |bs|
          invariant calls == CallsOf(bs[..i]) && messages == old(messages)
        {
          assert bs[..i + 1][..i] == bs[..i];
          if bs[i].ToolUse? { calls := calls + [bs[i].call]; }
        }
        assert bs[..|bs|] == bs;
        if bs != [] { messages := messages + [Assistant(bs)]; }
        return true, calls;
      }
      if !body.ChoiceMessage? { return false, []; }
      var raw := body.calls;
      for i := 0 to |raw|
        invariant calls == KeptCalls(raw[..i]) && messages == old(messages)
      {
        assert raw[..i + 1][..i] == raw[..i];
        if raw[i].function_.Some? { calls := calls + [Call(raw[i].id, raw[i].function_.value.0, raw[i].function_.value.1)]; }
      }
      assert raw[..|raw|] == raw;
      messages := messages + [Assistant(AsBlocks(if body.text.Some? then body.text.value else "", calls))];
      return true, calls;
    }

    /** The result of one call: refused, or whatever the tool answers. Nothing else than `PollCancel`
        looks at or sets `cancelled`, so that afterwards it tells whether the turn had been stopped. */
    method Perform(call: Call) returns (content: string, isError: bool, ghost done: seq<Event>)
      requires Proper(provider, trace) && RanSinceSent(trace) < MAX_CALLS_PER_REPLY
      modifies this`trace, this`cancelled
      ensures Proper(provider, trace) && RanSinceSent(trace) <= RanSinceSent(old(trace)) + 1
      ensures trace == old(trace) + done && (old(cancelled) ==> cancelled)
      ensures done == [] <==> cancelled || !call.args.Object? || (NeedsApproval(call) && !hasApprover)
      ensures Ran(call) in done <==>
              !cancelled && call.args.Object? && (NeedsApproval(call) ==> Asked(call, true) in done)
      ensures done != [] ==>
              done == if !NeedsApproval(call) then [Ran(call)]
                      else if Ran(call) in done then [Asked(call, true), Ran(call)] else [Asked(call, false)]
      ensures cancelled ==> content == "The user stopped the assistant." && isError
      ensures !cancelled && !call.args.Object? ==> content == "arguments are not a JSON object" && isError
      ensures !cancelled && call.args.Object? && Ran(call) !in done ==> content == "The user declined this change." && isError
      ensures AnsweredAs(call, hasApprover, Answer(cancelled, content, isError, done))
    {
      hide Proper, Requestable, Fold, NeedsApproval, RanSinceSent;
      var stop := PollCancel();
      if stop { return "The user stopped the assistant.", true, []; }
      if !call.args.Object? { return "arguments are not a JSON object", true, []; }
      done := [];
      if NeedsApproval(call) {
        var yes := false;
        if hasApprover {
          yes := *;
          ProperAppend(provider, trace, Asked(call, yes));
          trace := trace + [Asked(call, yes)];
          done := [Asked(call, yes)];
        }
        if !yes { return "The user declined this change.", true, done; }
      }
      ProperAppend(provider, trace, Ran(call));
      trace := trace + [Ran(call)];
      done := done + [Ran(call)];
      content, isError := *, *;
    }

    /** Answer every call of a reply, in order: `given` is what `Perform` gave for each of the first
        sixteen. Only those may run, each at most once and in order. */
    method AnswerCalls(calls: seq<Call>) returns (ghost given: seq<Answer>)
      requires Proper(provider, trace) && RanSinceSent(trace) == 0 && messages != []
      requires Fold(provider, messages) == Some(Turn(true, Ids(calls)))
      modifies this`messages, this`trace, this`cancelled
      ensures Requestable(provider, messages) && Proper(provider, trace) && old(messages) <= messages
      ensures |given| == Min(|calls|, 16) && AllAnswered(calls, hasApprover, given) && trace == old(trace) + Seen(given)
      ensures AnswersAll(provider, calls, given, messages[|old(messages)|..])
      ensures Picks(RanCalls(Seen(given)), calls[..Min(|calls|, 16)])
      ensures SentIn(trace) == SentIn(old(trace))
      ensures forall i :: 0 <= i < |given| && given[i].stopped ==> cancelled
      ensures old(cancelled) ==> cancelled && trace == old(trace) && forall i :: 0 <= i < |given| ==> given[i].stopped
    {
      hide Proper, Requestable, Fold, RanSinceSent, Picks, RanCalls, Performed, Ids, ResultBlocks, ToolMessages, AnswersAll, AnsweredAs,
        AllAnswered, Seen, SentIn, NeedsApproval, SoFar, Min, Permitted;
      var results: seq<Block> := [];
      ghost var ms := messages;
      ghost var tools: seq<Message> := [];
      given := [];
      NothingRan(calls, hasApprover);
      NoneSoFar(provider, calls, hasApprover);
      for i := 0 to |calls|
        invariant SoFar(provider, calls, i, hasApprover, given, results, tools) && (provider.Anthropic? ==> tools == [])
        invariant Proper(provider, trace) && RanSinceSent(trace) <= |given| && trace == old(trace) + Seen(given)
        invariant |given| == (if i < 16 then i else 16) && messages == ms + tools && SentIn(trace) == SentIn(old(trace))
        invariant forall j :: 0 <= j < |given| && given[j].stopped ==> cancelled
        invariant old(cancelled) ==> cancelled && Seen(given) == [] && forall j :: 0 <= j < |given| ==> given[j].stopped
      {
        var call := calls[i];
        ghost var before := given;
        var content, isError := LIMIT_NOTE, true;
        if i < MAX_CALLS_PER_REPLY {
          ghost var done, was := [], trace;
          content, isError, done := Perform(call);
          ghost var a := Answer(cancelled, content, isError, done);
          SeenMore(old(trace), was, trace, call, hasApprover, before, a);
          given := before + [a];
        }
        NextSoFar(provider, calls, i, hasApprover, before, given, results, tools, content, isError);
        if provider.Anthropic? {
          results := results + [ToolResult(call.id, content, isError)];
        } else {
          messages := messages + [Tool(call.id, content)];
          tools := tools + [Tool(call.id, content)];
        }
      }
      AllSoFar(provider, calls, hasApprover, given, results, tools);
      AnswersComplete(provider, calls, given, ms, results, tools);
      if provider.Anthropic? {
        messages := messages + [User(Blocks(results))];
      } else {
        assert ms + tools + [] == ms + tools;
      }
    }

    /** A failed turn: unless it `acted`, its text is unsaid. */
    method Fail(start: nat, beforeMerge: Option<Message>, acted: bool)
      requires start <= |messages| && (beforeMerge.Some? ==> start > 0)
      modifies this`messages
      ensures messages == if acted then old(messages) else Unsaid(old(messages), start, beforeMerge)
    {
      if !acted {
        messages := messages[..start];
        if beforeMerge.Some? { messages := messages[start - 1 := beforeMerge.value]; }
      }
    }

    /** Add the user's text; `start` and `beforeMerge` are what takes it back. */
    method AddUserText(text: string) returns (start: nat, beforeMerge: Option<Message>)
      modifies this`messages
      ensures messages == WithText(provider, old(messages), text) && start == |old(messages)| <= |messages|
      ensures beforeMerge.Some? ==> start > 0
      ensures Unsaid(messages, start, beforeMerge) == old(messages)
    {
      start, beforeMerge := |messages|, None;
      if provider.Anthropic? && messages != [] && messages[|messages| - 1].User? {
        var last := messages[|messages| - 1];
        beforeMerge := Some(last);
        messages := messages[|messages| - 1 := User(AddText(last.content, text))];
      } else {
        messages := messages + [User(Plain(text))];
      }
    }

    /** One request and what comes of it: `got` is the answer, if the request was made at all, and
        whether the user had stopped the turn when it came. */
    method Round() returns (outcome: Outcome, ghost got: Option<(Response, bool)>)
      requires Requestable(provider, messages) && Proper(provider, trace)
      modifies this`messages, this`trace, this`cancelled
      ensures old(trace) <= trace && Proper(provider, trace)
      ensures outcome.Failed? ==> messages == old(messages)
      ensures old(cancelled) ==> cancelled && trace == old(trace) && outcome.Failed?
      ensures outcome.Finished? ==> Valid(provider, messages) && got.Some? && messages == old(messages) + ReplyMessages(provider, got.value.0.body)
      ensures outcome.Answered? || outcome.Stopped? ==> Requestable(provider, messages) && old(messages) <= messages
      ensures got.None? ==> cancelled && trace == old(trace)
      ensures got.Some? ==> old(trace) + [Sent(old(messages))] <= trace && (got.value.1 ==> cancelled)
      ensures SentIn(trace) == SentIn(old(trace)) + if got.Some? then 1 else 0
      ensures outcome.Failed? <==> got.None? || got.value.1 || !Readable(provider, got.value.0)
      ensures outcome.Finished? <==> got.Some? && !got.value.1 && Final(provider, got.value.0)
      ensures outcome.Stopped? ==> cancelled
      ensures outcome.Failed? || outcome.Finished? ==>
                trace == old(trace) + if got.Some? then [Sent(old(messages))] else []
    {
      hide Valid, Proper, Requestable, Fold, RanSinceSent, AnswersAll, AllAnswered, Picks, RanCalls, Ids, ReplyMessages, ReplyCalls, SentIn;
      got := None;
      var stop := PollCancel();
      if stop { return Failed, None; }
      SentAppend(trace, Sent(messages));
      var response := Transport();
      stop := PollCancel();
      got := Some((response, stop));
      if stop || response.truncated || response.status != 200 { return Failed, got; }
      var parsed, calls := ParseReply(response.body);
      if !parsed { return Failed, got; }
      ReplyPends(provider, old(messages), response.body);
      NoCallsIsFinal(provider, response);
      if calls == [] { return Finished, got; }
      ghost var given := AnswerCalls(calls);
      stop := PollCancel();
      return if stop then Stopped else Answered, got;
    }

    /** One user turn. `acted`: some reply's calls were answered. Whatever happens, the transcript
        stays valid and keeps everything said before. A turn that fails before that leaves the
        transcript as it was, exactly when a request could have been made at all or no model was
        chosen: a turn with no rounds keeps the text. It succeeds exactly when the last reply was read
        and calls no tool, and otherwise there was no model, the user stopped it, the last reply
        could not be read, or all the rounds were used up. */
    method Send(text: string) returns (ok: bool, ghost acted: bool, ghost last: Option<Response>, ghost requests: nat)
      requires Ok()
      modifies this`messages, this`trace, this`cancelled
      ensures Ok() && old(trace) <= trace
      ensures !ok && !acted ==> (messages == old(messages) <==> maxRounds > 0 || !modelChosen)
      ensures !ok && !acted && maxRounds <= 0 && modelChosen ==> messages == WithText(provider, old(messages), text)
      ensures ok || acted ==> WithText(provider, old(messages), text) <= messages
      ensures ok ==> modelChosen && maxRounds > 0
      ensures old(cancelled) ==> cancelled && trace == old(trace) && !ok && !acted
      ensures SentIn(trace) == SentIn(old(trace)) + requests && (last.Some? <==> requests > 0)
      ensures requests <= if modelChosen && maxRounds > 0 then maxRounds else 0
      ensures acted ==> requests > 0
      ensures ok ==> last.Some? && Final(provider, last.value)
      ensures !ok && modelChosen && !cancelled ==>
                requests >= maxRounds || (last.Some? && !Readable(provider, last.value))
      ensures modelChosen && !cancelled && last.Some? && Final(provider, last.value) ==> ok
    {
      hide Valid, Proper, Fold, Requestable, WithText, SentIn, Readable, Final, ReplyMessages;
      TextIsRequestable(provider, messages, text);
      WithTextDiffers(provider, messages, text);
      var start, beforeMerge := AddUserText(text);
      ghost var asked := messages;
      last, requests := None, 0;
      if !modelChosen {
        Fail(start, beforeMerge, false);
        return false, false, None, 0;
      }
      var ran := false;
      var round := 0;
      while round < maxRounds
        invariant 0 <= round && (ran <==> round > 0) && requests == round && (last.Some? <==> requests > 0)
        invariant maxRounds >= 0 ==> round <= maxRounds
        invariant maxRounds < 0 ==> round == 0
        invariant last.Some? ==> !Final(provider, last.value)
        invariant SentIn(trace) == SentIn(old(trace)) + requests
        invariant Requestable(provider, messages) && Proper(provider, trace) && old(trace) <= trace
        invariant if ran then asked <= messages else messages == asked
        invariant old(cancelled) ==> cancelled && trace == old(trace) && !ran
        decreases maxRounds - round
      {
        RequestableIsValid(provider, messages);
        var outcome;
        ghost var got;
        outcome, got := Round();
        if got.Some? {
          FinalIsReadable(provider, got.value.0);
          last, requests := Some(got.value.0), requests + 1;
        }
        match outcome {
          case Failed => Fail(start, beforeMerge, ran); return false, ran, last, requests;
          case Finished => return true, ran, last, requests;
          case Stopped => RequestableIsValid(provider, messages); return false, true, last, requests;
          case Answered =>
        }
        ran := true;
        round := round + 1;
      }
      RequestableIsValid(provider, messages);
      return false, ran, last, requests;
    }
  }

  /** The server sent the whole reply, with the status for success and the content that belongs in it. */
  predicate Readable(p: Provider, r: Response)
  {
    !r.truncated && r.status == 200 && if p.Anthropic? then r.body.ContentBlocks? else r.body.ChoiceMessage?
  }

  /** A readable reply that calls no tool that could be answered. */
  ghost predicate Final(p: Provider, r: Response)
  {
    && Readable(p, r)
    && (p.Anthropic? ==> forall i :: 0 <= i < |r.body.blocks| ==> !r.body.blocks[i].ToolUse?)
    && (p.OpenAi? ==> forall i :: 0 <= i < |r.body.calls| ==> r.body.calls[i].function_.None?)
  }

  lemma {:induction false} FinalIsReadable(p: Provider, r: Response)
    ensures Final(p, r) ==> Readable(p, r)
  {
  }

  lemma {:induction false} NoCallsIsFinal(p: Provider, r: Response)
    requires Readable(p, r)
    ensures ReplyCalls(p, r.body) == [] <==> Final(p, r)
  {
    if p.Anthropic? { NoUse(r.body.blocks); } else { NoneKept(r.body.calls); }
  }

  lemma {:induction false} NoUse(blocks: seq<Block>)
    ensures CallsOf(blocks) == [] <==> forall i :: 0 <= i < |blocks| ==> !blocks[i].ToolUse?
  {
    if blocks != [] {
      var n := |blocks| - 1;
      NoUse(blocks[..n]);
      assert forall i :: 0 <= i < n ==> blocks[..n][i] == blocks[i];
    }
  }

  lemma {:induction false} NoneKept(raw: seq<RawCall>)
    ensures KeptCalls(raw) == [] <==> forall i :: 0 <= i < |raw| ==> raw[i].function_.None?
  {
    if raw != [] {
      var n := |raw| - 1;
      NoneKept(raw[..n]);
      assert forall i :: 0 <= i < n ==> raw[..n][i] == raw[i];
    }
  }

  /** How a round ends: with more to do, with a final text, with nothing done, or cancelled after
      the calls were answered. */
  datatype Outcome = Answered | Finished | Failed | Stopped

  function Unsaid(ms: seq<Message>, start: nat, beforeMerge: Option<Message>): seq<Message>
    requires start <= |ms| && (beforeMerge.Some? ==> start > 0)
  {
    if beforeMerge.Some? then ms[..start][start - 1 := beforeMerge.value] else ms[..start]
  }

  lemma {:induction false} RequestableIsValid(p: Provider, ms: seq<Message>)
    requires Requestable(p, ms)
    ensures Valid(p, ms)
  {
  }

  lemma {:induction false} WithTextDiffers(p: Provider, ms: seq<Message>, text: string)
    ensures WithText(p, ms, text) != ms
  {
    if p.Anthropic? && ms != [] && ms[|ms| - 1].User? {
      var c := ms[|ms| - 1].content;
      assert AddText(c, text) != c by {
        if c.Blocks? { assert |AddText(c, text).blocks| == |c.blocks| + 1; }
      }
      assert WithText(p, ms, text)[|ms| - 1] != ms[|ms| - 1];
    } else {
      assert |WithText(p, ms, text)| == |ms| + 1;
    }
  }
}
