/** core/ct_file.cpp: reading the entry lists; what the writer wrote is read back list by list. */
module TableReaders {
  import opened Memory
  import opened Texts
  import opened TableForests
  import opened TableRoundTrips
  import opened TableTexts

  // ------------------------------------------------------- finding and matching

  /** The first `t` from `from` on, or the length of the text. */
  function Find(x: seq<Token>, t: Token, from: nat): (r: nat)
    requires from <= |x|
    ensures from <= r <= |x| && (r < |x| ==> x[r] == t)
    ensures forall k :: from <= k < r ==> x[k] != t
    decreases |x| - from
  {
    if from == |x| || x[from] == t then from else Find(x, t, from + 1)
  }

  /** An entry's own elements, if there are any from `from` up to `to`. */
  function FindOwn(x: seq<Token>, from: nat, until: nat): (r: Option<Token>)
    requires from <= until <= |x|
    ensures r.None? <==> forall k :: from <= k < until ==> !x[k].Own?
    ensures r.Some? ==> exists k :: from <= k < until && x[k] == r.value && x[k].Own? && forall j :: from <= j < k ==> !x[j].Own?
    decreases until - from
  {
    if from == until then None else if x[from].Own? then Some(x[from]) else FindOwn(x, from + 1, until)
  }

  /** The close that brings `depth` opens back to none, counting from `i` on. */
  function CloseFrom(x: seq<Token>, open: Token, close: Token, i: nat, depth: nat): (r: Option<nat>)
    requires i <= |x| && depth > 0
    ensures r.Some? ==> i <= r.value < |x|
    decreases |x| - i
  {
    if i == |x| then None
    else if x[i] == open then CloseFrom(x, open, close, i + 1, depth + 1)
    else if x[i] == close then if depth == 1 then Some(i) else CloseFrom(x, open, close, i + 1, depth - 1)
    else CloseFrom(x, open, close, i + 1, depth)
  }

  lemma {:induction false} NothingBetween(x: seq<Token>, open: Token, close: Token, i: nat, j: nat, depth: nat)
    requires i <= j <= |x| && depth > 0
    requires forall k :: i <= k < j ==> x[k] != open && x[k] != close
    ensures CloseFrom(x, open, close, i, depth) == CloseFrom(x, open, close, j, depth)
    decreases j - i
  {
    if i < j { NothingBetween(x, open, close, i + 1, j, depth); }
  }

  lemma {:induction false} NoMoreCloses(x: seq<Token>, open: Token, close: Token, i: nat, depth: nat)
    requires i <= |x| && depth > 0 && forall k :: i <= k < |x| ==> x[k] != close
    ensures CloseFrom(x, open, close, i, depth) == None
    decreases |x| - i
  {
    if i < |x| { NoMoreCloses(x, open, close, i + 1, if x[i] == open then depth + 1 else depth); }
  }

  /** The close that matches the open at `openPos`, found by jumping from mark to mark. */
  method FindMatchingClose(x: seq<Token>, openPos: nat, open: Token, close: Token) returns (r: Option<nat>)
    requires openPos < |x| && open != close
    ensures r == CloseFrom(x, open, close, openPos + 1, 1)
  {
    var scan, depth := openPos + 1, 1;
    while depth > 0
      invariant depth > 0 && scan <= |x|
      invariant CloseFrom(x, open, close, scan, depth) == CloseFrom(x, open, close, openPos + 1, 1)
      decreases |x| - scan
    {
      var nextOpen, nextClose := Find(x, open, scan), Find(x, close, scan);
      if nextClose == |x| {
        NoMoreCloses(x, open, close, scan, depth);
        return None;
      }
      if nextOpen != |x| && nextOpen < nextClose {
        NothingBetween(x, open, close, scan, nextOpen, depth);
        depth := depth + 1;
        scan := nextOpen + 1;
      } else {
        NothingBetween(x, open, close, scan, nextClose, depth);
        depth := depth - 1;
        if depth == 0 { return Some(nextClose); }
        scan := nextClose + 1;
      }
    }
    assert false;
    r := None;
  }

  /** Opens less closes in `x[i..j]`. */
  function Nesting(x: seq<Token>, open: Token, close: Token, i: nat, j: nat): int
    requires i <= j <= |x|
    decreases j - i
  {
    if i == j then 0
    else Nesting(x, open, close, i + 1, j) + if x[i] == open then 1 else if x[i] == close then -1 else 0
  }

  /** The matching close is where the nesting first comes down to none. */
  ghost predicate Matches(x: seq<Token>, open: Token, close: Token, i: nat, depth: nat, c: nat)
  {
    && i <= c < |x| && depth + Nesting(x, open, close, i, c + 1) == 0
    && forall k :: i < k <= c ==> depth + Nesting(x, open, close, i, k) > 0
  }

  lemma {:induction false} CloseMatches(x: seq<Token>, open: Token, close: Token, i: nat, depth: nat, c: nat)
    requires i <= |x| && depth > 0 && open != close
    ensures CloseFrom(x, open, close, i, depth) == Some(c) <==> Matches(x, open, close, i, depth, c)
    decreases |x| - i
  {
    if i < |x| {
      var d := depth + if x[i] == open then 1 else if x[i] == close then -1 else 0;
      assert Nesting(x, open, close, i, i + 1) == d - depth by { assert Nesting(x, open, close, i + 1, i + 1) == 0; }
      var next := i + 1;
      forall k: nat | next <= k <= |x|
        ensures depth + Nesting(x, open, close, i, k) == d + Nesting(x, open, close, next, k)
      {
      }
      if d > 0 {
        CloseMatches(x, open, close, next, d, c);
        MatchesNext(x, open, close, i, next, depth, d, c);
      } else {
        MatchesHere(x, open, close, i, depth, c);
      }
    }
  }

  lemma {:induction false} MatchesNext(x: seq<Token>, open: Token, close: Token, i: nat, next: nat, depth: nat, d: nat, c: nat)
    requires i < |x| && next == i + 1 && d > 0 && depth + Nesting(x, open, close, i, next) == d
    requires forall k: nat :: next <= k <= |x| ==>
      depth + Nesting(x, open, close, i, k) == d + Nesting(x, open, close, next, k)
    ensures Matches(x, open, close, i, depth, c) <==> Matches(x, open, close, next, d, c)
  {
    hide Nesting;
    if Matches(x, open, close, i, depth, c) {
      assert i < c;
      forall k | next < k <= c ensures d + Nesting(x, open, close, next, k) > 0 {
        assert depth + Nesting(x, open, close, i, k) > 0;
      }
    }
  }

  lemma {:induction false} MatchesHere(x: seq<Token>, open: Token, close: Token, i: nat, depth: nat, c: nat)
    requires i < |x| && depth + Nesting(x, open, close, i, i + 1) == 0
    ensures Matches(x, open, close, i, depth, c) <==> c == i
  {
    hide Nesting;
  }

  // -------------------------------------------------------------- one record

  /** Where a record ends, where its own elements end, and the list nested in it. */
  datatype Extent = Extent(close: nat, ownEnd: nat, childBegin: nat, childEnd: nat)

  function ExtentAt(x: seq<Token>, start: nat, end: nat): (r: Option<Extent>)
    requires start < end <= |x|
    ensures r.Some? ==> start < r.value.close < end && start <= r.value.ownEnd <= r.value.close + 1
    ensures r.Some? && r.value.childBegin < r.value.childEnd ==>
      start < r.value.childBegin && r.value.childEnd < r.value.close
  {
    var c := CloseFrom(x, EntryOpen, EntryClose, start + 1, 1);
    if c.None? || c.value + 1 > end then None
    else
      var nested := Find(x, ListOpen, start);
      if nested >= c.value then Some(Extent(c.value, c.value + 1, 0, 0))
      else
        var m := CloseFrom(x, ListOpen, ListClose, nested + 1, 1);
        if m.Some? && m.value < c.value then Some(Extent(c.value, nested, nested + 1, m.value))
        else Some(Extent(c.value, nested, 0, 0))
  }

  function RecordId(own: Option<Token>): int
  {
    if own.Some? && own.value.Own? && own.value.id >= 0 then own.value.id else -1
  }

  function RecordFields(own: Option<Token>): string
  {
    if own.Some? && own.value.Own? then own.value.fields else ""
  }

  function WithOwn(l: Loaded, own: Option<Token>, parentId: int): Loaded
  {
    WithRecord(l, IdFor(l.used, RecordId(own)), parentId, RecordFields(own))
  }

  /** The close at `c` matches the open at `p`. */
  ghost predicate Closes(x: seq<Token>, open: Token, close: Token, p: nat, c: nat)
  {
    Matches(x, open, close, p + 1, 1, c)
  }

  lemma {:induction false} ClosesExactly(x: seq<Token>, open: Token, close: Token, p: nat)
    requires p < |x| && open != close
    ensures forall c: nat :: CloseFrom(x, open, close, p + 1, 1) == Some(c) <==> Closes(x, open, close, p, c)
  {
    forall c: nat ensures CloseFrom(x, open, close, p + 1, 1) == Some(c) <==> Closes(x, open, close, p, c) {
      CloseMatches(x, open, close, p + 1, 1, c);
    }
  }

  /** A record goes to its matching close, which must come before `end`. Its own elements end where the
      first list in it opens; that list is nested in it if it is closed within the record. */
  lemma {:induction false} ExtentMeans(x: seq<Token>, start: nat, end: nat, close: nat)
    requires start < end <= |x|
    ensures ExtentAt(x, start, end).Some? <==> exists c: nat :: c < end && Closes(x, EntryOpen, EntryClose, start, c)
    ensures close < end && Closes(x, EntryOpen, EntryClose, start, close) ==>
              var e := ExtentAt(x, start, end).value;
              e.close == close && ((forall k :: start <= k < close ==> x[k] != ListOpen) ==> e.ownEnd == close + 1 && e.childBegin == e.childEnd)
  {
    hide CloseFrom, Closes;
    ClosesExactly(x, EntryOpen, EntryClose, start);
    var r := CloseFrom(x, EntryOpen, EntryClose, start + 1, 1);
    if r.Some? { assert Closes(x, EntryOpen, EntryClose, start, r.value); }
  }

  lemma {:induction false} NestedMeans(x: seq<Token>, start: nat, end: nat, close: nat, nested: nat, inner: nat)
    requires start < end <= |x| && close < end && Closes(x, EntryOpen, EntryClose, start, close)
    requires start <= nested < close && x[nested] == ListOpen && forall k :: start <= k < nested ==> x[k] != ListOpen
    ensures ExtentAt(x, start, end).Some? && ExtentAt(x, start, end).value.ownEnd == nested
    ensures var e := ExtentAt(x, start, end).value;
            && (Closes(x, ListOpen, ListClose, nested, inner) && inner < close ==> e.childBegin == nested + 1 && e.childEnd == inner)
            && ((forall c: nat :: c < close ==> !Closes(x, ListOpen, ListClose, nested, c)) ==> e.childBegin == e.childEnd)
  {
    hide CloseFrom, Closes;
    ClosesExactly(x, EntryOpen, EntryClose, start);
    ClosesExactly(x, ListOpen, ListClose, nested);
    assert CloseFrom(x, EntryOpen, EntryClose, start + 1, 1) == Some(close);
    FindIs(x, ListOpen, start, nested);
    var r := CloseFrom(x, ListOpen, ListClose, nested + 1, 1);
    if r.Some? { assert Closes(x, ListOpen, ListClose, nested, r.value); }
  }

  lemma {:induction false} FindIs(x: seq<Token>, t: Token, from: nat, at: nat)
    requires from <= at < |x| && x[at] == t && forall k :: from <= k < at ==> x[k] != t
    ensures Find(x, t, from) == at
  {
    hide Find;
  }

  // ---------------------------------------------------------------- reading

  /** The records directly inside `x[pos..end]`. */
  function Read(x: seq<Token>, pos: nat, end: nat, parentId: int, l: Loaded, depth: nat): Loaded
    requires pos <= end <= |x|
    decreases end - pos
  {
    if depth >= MAX_DEPTH then l.(ok := false)
    else
      var start := Find(x, EntryOpen, pos);
      if start >= end then l
      else
        var e := ExtentAt(x, start, end);
        if e.None? then l
        else
          var own := FindOwn(x, start, e.value.ownEnd);
          var here := WithOwn(l, own, parentId);
          var id := IdFor(l.used, RecordId(own));
          var inner := if e.value.childEnd > e.value.childBegin
            then Read(x, e.value.childBegin, e.value.childEnd, id, here, depth + 1) else here;
          Read(x, e.value.close + 1, end, parentId, inner, depth)
  }

  /** Whether another whole record starts at or after `pos`. */
  predicate HasRecord(x: seq<Token>, pos: nat, end: nat)
    requires pos <= end <= |x|
  {
    Find(x, EntryOpen, pos) < end && ExtentAt(x, Find(x, EntryOpen, pos), end).Some?
  }

  lemma {:induction false} ReadTooDeep(x: seq<Token>, pos: nat, end: nat, parentId: int, l: Loaded, depth: nat)
    requires pos <= end <= |x| && depth >= MAX_DEPTH
    ensures Read(x, pos, end, parentId, l, depth) == l.(ok := false)
  {
  }

  lemma {:induction false} ReadDone(x: seq<Token>, pos: nat, end: nat, parentId: int, l: Loaded, depth: nat)
    requires pos <= end <= |x| && depth < MAX_DEPTH && !HasRecord(x, pos, end)
    ensures Read(x, pos, end, parentId, l, depth) == l
  {
    hide Find, ExtentAt;
  }

  lemma {:induction false} ReadStep(x: seq<Token>, pos: nat, end: nat, parentId: int, l: Loaded, depth: nat, start: nat, e: Extent)
    requires pos <= end <= |x| && depth < MAX_DEPTH
    requires start == Find(x, EntryOpen, pos) < end && ExtentAt(x, start, end) == Some(e)
    ensures var own := FindOwn(x, start, e.ownEnd);
            var inner := if e.childEnd > e.childBegin
              then Read(x, e.childBegin, e.childEnd, IdFor(l.used, RecordId(own)), WithOwn(l, own, parentId), depth + 1)
              else WithOwn(l, own, parentId);
            Read(x, pos, end, parentId, l, depth) == Read(x, e.close + 1, end, parentId, inner, depth)
  {
    hide Find, ExtentAt, FindOwn, IdFor, RecordId, WithOwn;
  }

  class TableReader {
    const x: seq<Token>
    var entries: seq<Entry>
    var usedIds: seq<int>
    var validFormat: bool

    constructor (x: seq<Token>)
      ensures this.x == x && State() == Loaded([], [], true)
    {
      this.x, entries, usedIds, validFormat := x, [], [], true;
    }

    ghost function State(): Loaded
      reads this
    {
      Loaded(entries, usedIds, validFormat)
    }

    /** One more than the largest id, or the first gap when the largest is the last there is. */
    method UnusedId() returns (id: int)
      ensures id == FreshId(usedIds)
    {
      if usedIds == [] { return 1; }
      if MaxOf(usedIds) < INT_MAX { return MaxOf(usedIds) + 1; }
      id := 1;
      GapIsFirst(usedIds, 1);
      while id in usedIds
        invariant 1 <= id <= FirstGap(usedIds, 1)
        decreases FirstGap(usedIds, 1) - id
      {
        id := id + 1;
      }
    }

    /** Where the record that opens at `start` ends, and the list nested in it. */
    method RecordExtent(start: nat, end: nat) returns (e: Option<Extent>)
      requires start < end <= |x| && x[start] == EntryOpen
      ensures e == ExtentAt(x, start, end)
    {
      var close := FindMatchingClose(x, start, EntryOpen, EntryClose);
      if close.None? || close.value + 1 > end { return None; }
      var ownEnd, childBegin, childEnd := close.value + 1, 0, 0;
      var nestedOpen := Find(x, ListOpen, start);
      if nestedOpen < close.value {
        ownEnd := nestedOpen;
        var nestedClose := FindMatchingClose(x, nestedOpen, ListOpen, ListClose);
        if nestedClose.Some? && nestedClose.value < close.value {
          childBegin, childEnd := nestedOpen + 1, nestedClose.value;
        }
      }
      return Some(Extent(close.value, ownEnd, childBegin, childEnd));
    }

    /** A record without an id, or with one that is taken, gets a fresh one. */
    method AddEntry(own: Option<Token>, parentId: int) returns (id: int)
      modifies this
      ensures State() == WithOwn(old(State()), own, parentId)
      ensures id == IdFor(old(usedIds), RecordId(own))
    {
      id := RecordId(own);
      if id < 0 || id in usedIds { id := UnusedId(); }
      usedIds := usedIds + [id];
      entries := entries + [Entry(id, parentId, RecordFields(own))];
    }

    method ParseEntries(begin: nat, end: nat, parentId: int, depth: nat)
      requires begin <= end <= |x|
      modifies this
      ensures State() == Read(x, begin, end, parentId, old(State()), depth)
      decreases end - begin
    {
      hide Find, CloseFrom, ExtentAt, FindOwn, IdFor, WithOwn, RecordId, Read;
      if depth >= MAX_DEPTH {
        ReadTooDeep(x, begin, end, parentId, State(), depth);
        validFormat := false;
        return;
      }
      var pos := begin;
      while true
        invariant begin <= pos <= end
        invariant Read(x, pos, end, parentId, State(), depth) == Read(x, begin, end, parentId, old(State()), depth)
        decreases end - pos
      {
        var start := Find(x, EntryOpen, pos);
        if start >= end {
          ReadDone(x, pos, end, parentId, State(), depth);
          break;
        }
        var e := RecordExtent(start, end);
        if e.None? {
          ReadDone(x, pos, end, parentId, State(), depth);
          break;
        }
        ReadStep(x, pos, end, parentId, State(), depth, start, e.value);
        var own := FindOwn(x, start, e.value.ownEnd);
        var id := AddEntry(own, parentId);
        if e.value.childEnd > e.value.childBegin {
          ParseEntries(e.value.childBegin, e.value.childEnd, id, depth + 1);
        }
        pos := e.value.close + 1;
      }
    }
  }

  /** The entries of a table's outermost list. */
  function ReadTable(x: seq<Token>): Loaded
  {
    var open := Find(x, ListOpen, 0);
    if open == |x| then Loaded([], [], true)
    else
      var close := CloseFrom(x, ListOpen, ListClose, open + 1, 1);
      if close.None? then Loaded([], [], true) else Read(x, open + 1, close.value, -1, Loaded([], [], true), 0)
  }

  method LoadTable(x: seq<Token>) returns (entries: seq<Entry>, ok: bool)
    ensures entries == ReadTable(x).entries && ok == ReadTable(x).ok
  {
    var topOpen := Find(x, ListOpen, 0);
    if topOpen == |x| { return [], true; }
    var topClose := FindMatchingClose(x, topOpen, ListOpen, ListClose);
    if topClose.None? { return [], true; }
    var reader := new TableReader(x);
    reader.ParseEntries(topOpen + 1, topClose.value, -1, 0);
    return reader.entries, reader.validFormat;
  }

  /** A table's entries are those of the first list, if it is closed; other text has none, and that is
      no fault. */
  lemma {:induction false} TableMeans(x: seq<Token>, open: nat, close: nat)
    ensures (forall k :: 0 <= k < |x| ==> x[k] != ListOpen) ==> ReadTable(x) == Loaded([], [], true)
    ensures open < |x| && x[open] == ListOpen && (forall k :: 0 <= k < open ==> x[k] != ListOpen) ==>
              if Closes(x, ListOpen, ListClose, open, close) then
                open < close < |x| && ReadTable(x) == Read(x, open + 1, close, -1, Loaded([], [], true), 0)
              else (forall c: nat :: !Closes(x, ListOpen, ListClose, open, c)) ==> ReadTable(x) == Loaded([], [], true)
  {
    hide Read, CloseFrom, Closes;
    if open < |x| && x[open] == ListOpen && forall k :: 0 <= k < open ==> x[k] != ListOpen {
      FindIs(x, ListOpen, 0, open);
      ClosesExactly(x, ListOpen, ListClose, open);
      var r := CloseFrom(x, ListOpen, ListClose, open + 1, 1);
      if r.Some? { assert Closes(x, ListOpen, ListClose, open, r.value); }
    }
  }

  // --------------------------------------------------- any text gives a forest

  /** Reading any text at all gives unique ids and parents before their children. */
  lemma {:induction false} ReadKeeps(x: seq<Token>, pos: nat, end: nat, parentId: int, l: Loaded, depth: nat)
    requires pos <= end <= |x| && WellLoaded(l) && (parentId == -1 || parentId in l.used)
    ensures WellLoaded(Read(x, pos, end, parentId, l, depth))
    ensures l.used <= Read(x, pos, end, parentId, l, depth).used
    decreases end - pos
  {
    hide Read, Find, ExtentAt, FindOwn, IdFor, RecordId, RecordFields, WellLoaded;
    if depth >= MAX_DEPTH {
      ReadTooDeep(x, pos, end, parentId, l, depth);
      StaysWellLoaded(l);
    } else if !HasRecord(x, pos, end) {
      ReadDone(x, pos, end, parentId, l, depth);
    } else {
      var start := Find(x, EntryOpen, pos);
      var e := ExtentAt(x, start, end).value;
      ReadStep(x, pos, end, parentId, l, depth, start, e);
      var own := FindOwn(x, start, e.ownEnd);
      var id, here := IdFor(l.used, RecordId(own)), WithOwn(l, own, parentId);
      AddRecord(l, id, parentId, RecordFields(own));
      assert here.used[|l.used|] == id;
      var inner := if e.childEnd > e.childBegin then Read(x, e.childBegin, e.childEnd, id, here, depth + 1) else here;
      if e.childEnd > e.childBegin { ReadKeeps(x, e.childBegin, e.childEnd, id, here, depth + 1); }
      PrefixHas(l.used, inner.used, parentId);
      ReadKeeps(x, e.close + 1, end, parentId, inner, depth);
    }
  }

  lemma {:induction false} AnyTextGivesForest(x: seq<Token>)
    ensures UniqueIds(ReadTable(x).entries) && ParentsFirst(ReadTable(x).entries)
  {
    hide Find, CloseFrom, Read;
    var none := Loaded([], [], true);
    assert WellLoaded(none);
    var open := Find(x, ListOpen, 0);
    if open < |x| && CloseFrom(x, ListOpen, ListClose, open + 1, 1).Some? {
      ReadKeeps(x, open + 1, CloseFrom(x, ListOpen, ListClose, open + 1, 1).value, -1, none, 0);
    }
  }

  // ------------------------------------------- written text is read list by list

  /** Only opened lists have anything in them. */
  predicate Listable(nodes: seq<Node>)
  {
    nodes == [] || ((nodes[0].kids != [] ==> nodes[0].list) && Listable(nodes[0].kids) && Listable(nodes[1..]))
  }

  lemma {:induction false} ListableConcat(a: seq<Node>, b: seq<Node>)
    requires Listable(a) && Listable(b)
    ensures Listable(a + b)
  {
    if a == [] {
      assert a + b == b;
    } else {
      ListableConcat(a[1..], b);
      assert (a + b)[1..] == a[1..] + b;
    }
  }

  lemma {:induction false} WrittenIsListable(es: seq<Entry>, done: set<nat>, list: seq<nat>, depth: nat)
    requires depth < MAX_DEPTH && Below(list, |es|)
    ensures Listable(WriteAll(es, done, list, depth).nodes)
    decreases MAX_DEPTH - depth, |list|
  {
    if list != [] {
      var first := WriteEntry(es, done, list[0], depth);
      if list[0] !in done {
        EntryStep(es, done, list[0], depth);
        if ChildrenOf(es, list[0]) != [] && depth + 1 < MAX_DEPTH {
          WrittenIsListable(es, done + {list[0]}, ChildrenOf(es, list[0]), depth + 1);
        }
        assert first.nodes[1..] == [];
      }
      WrittenIsListable(es, first.done, list[1..], depth);
      ListableConcat(first.nodes, WriteAll(es, first.done, list[1..], depth).nodes);
    }
  }

  /** The two kinds of brackets. */
  predicate Kind(open: Token, close: Token)
  {
    (open == EntryOpen && close == EntryClose) || (open == ListOpen && close == ListClose)
  }

  /** Where a printed record's parts stand. */
  lemma {:induction false} PrintedParts(x: seq<Token>, i: nat, es: seq<Entry>, n: Node)
    requires At(x, i, PrintedNode(es, n))
    ensures i + 2 < |x| && x[i] == EntryOpen && x[i + 1] == OwnOf(es, n.index)
    ensures n.list ==>
      var m := i + 3 + |Printed(es, n.kids)|;
      |PrintedNode(es, n)| == m + 2 - i && m + 1 < |x|
      && x[i + 2] == ListOpen && At(x, i + 3, Printed(es, n.kids)) && x[m] == ListClose && x[m + 1] == EntryClose
    ensures !n.list ==> |PrintedNode(es, n)| == 3 && x[i + 2] == EntryClose
  {
    var own := [EntryOpen, OwnOf(es, n.index)];
    if n.list {
      var t := Printed(es, n.kids);
      assert PrintedNode(es, n) == own + ([ListOpen] + (t + [ListClose, EntryClose]));
      AtParts(x, i, own, [ListOpen] + (t + [ListClose, EntryClose]));
      AtParts(x, i + 2, [ListOpen], t + [ListClose, EntryClose]);
      AtParts(x, i + 3, t, [ListClose, EntryClose]);
      assert own[0] == EntryOpen;
      AtTwo(x, i, own[0], own[1]);
      AtOne(x, i + 2, ListOpen);
      AtTwo(x, i + 3 + |t|, ListClose, EntryClose);
    } else {
      assert PrintedNode(es, n) == own + [EntryClose];
      AtParts(x, i, own, [EntryClose]);
      AtTwo(x, i, own[0], own[1]);
      AtOne(x, i + 2, EntryClose);
    }
  }

  lemma {:induction false} AtTwo(x: seq<Token>, i: nat, a: Token, b: Token)
    ensures At(x, i, [a, b]) <==> i + 1 < |x| && x[i] == a && x[i + 1] == b
  {
    if At(x, i, [a, b]) { assert x[i..i + 2][0] == a && x[i..i + 2][1] == b; }
  }

  lemma {:induction false} SkipOne(x: seq<Token>, open: Token, close: Token, i: nat, depth: nat)
    requires i < |x| && depth > 0
    ensures x[i] == open ==> CloseFrom(x, open, close, i, depth) == CloseFrom(x, open, close, i + 1, depth + 1)
    ensures x[i] == close != open && depth > 1 ==>
      CloseFrom(x, open, close, i, depth) == CloseFrom(x, open, close, i + 1, depth - 1)
    ensures x[i] == close != open && depth == 1 ==> CloseFrom(x, open, close, i, depth) == Some(i)
    ensures x[i] != open && x[i] != close ==>
      CloseFrom(x, open, close, i, depth) == CloseFrom(x, open, close, i + 1, depth)
  {
  }

  /** Printed records open and close their brackets in pairs, so matching passes over them. */
  lemma {:induction false} SkipPrinted(x: seq<Token>, i: nat, es: seq<Entry>, nodes: seq<Node>, open: Token, close: Token, depth: nat)
    requires At(x, i, Printed(es, nodes)) && Kind(open, close) && depth > 0
    ensures i + |Printed(es, nodes)| <= |x|
    ensures CloseFrom(x, open, close, i, depth) == CloseFrom(x, open, close, i + |Printed(es, nodes)|, depth)
    decreases nodes
  {
    if nodes != [] {
      var n := nodes[0];
      hide CloseFrom, PrintedNode;
      AtParts(x, i, PrintedNode(es, n), Printed(es, nodes[1..]));
      SkipNode(x, i, es, n, open, close, depth);
      SkipPrinted(x, i + |PrintedNode(es, n)|, es, nodes[1..], open, close, depth);
    }
  }

  lemma {:induction false} SkipNode(x: seq<Token>, i: nat, es: seq<Entry>, n: Node, open: Token, close: Token, depth: nat)
    requires At(x, i, PrintedNode(es, n)) && Kind(open, close) && depth > 0
    ensures i + |PrintedNode(es, n)| <= |x|
    ensures CloseFrom(x, open, close, i, depth) == CloseFrom(x, open, close, i + |PrintedNode(es, n)|, depth)
    decreases n
  {
    hide CloseFrom, PrintedNode, Printed, At;
    PrintedParts(x, i, es, n);
    var d := if open == EntryOpen then depth + 1 else depth;
    SkipOne(x, open, close, i, depth);
    SkipOne(x, open, close, i + 1, d);
    if n.list {
      var m := i + 3 + |Printed(es, n.kids)|;
      var inside := depth + 1;
      SkipOne(x, open, close, i + 2, d);
      SkipPrinted(x, i + 3, es, n.kids, open, close, inside);
      SkipOne(x, open, close, m, inside);
      SkipOne(x, open, close, m + 1, d);
    } else {
      SkipOne(x, open, close, i + 2, d);
    }
  }

  /** A printed record's extent, and its own elements. */
  lemma {:induction false} PrintedExtent(x: seq<Token>, i: nat, end: nat, es: seq<Entry>, n: Node)
    requires At(x, i, PrintedNode(es, n)) && i + |PrintedNode(es, n)| <= end <= |x|
    ensures i < end && Find(x, EntryOpen, i) == i
    ensures var close, kids := i + |PrintedNode(es, n)| - 1, |Printed(es, n.kids)|;
            var e := if n.list then Extent(close, i + 2, i + 3, i + 3 + kids) else Extent(close, close + 1, 0, 0);
            ExtentAt(x, i, end) == Some(e) && FindOwn(x, i, e.ownEnd) == Some(OwnOf(es, n.index))
  {
    hide CloseFrom, PrintedNode, Printed, At;
    PrintedParts(x, i, es, n);
    assert Find(x, EntryOpen, i) == i;
    SkipOne(x, EntryOpen, EntryClose, i + 1, 1);
    SkipOne(x, EntryOpen, EntryClose, i + 2, 1);
    assert FindOwn(x, i + 1, i + 2) == Some(OwnOf(es, n.index));
    if n.list {
      var m := i + 3 + |Printed(es, n.kids)|;
      SkipPrinted(x, i + 3, es, n.kids, EntryOpen, EntryClose, 1);
      SkipOne(x, EntryOpen, EntryClose, m, 1);
      SkipOne(x, EntryOpen, EntryClose, m + 1, 1);
      assert Find(x, ListOpen, i) == i + 2;
      SkipPrinted(x, i + 3, es, n.kids, ListOpen, ListClose, 1);
      SkipOne(x, ListOpen, ListClose, m, 1);
    } else {
      assert FindOwn(x, i + 1, i + 3) == Some(OwnOf(es, n.index));
      assert Find(x, ListOpen, i) >= i + 2;
    }
  }

  lemma {:induction false} PrintedEmpty(es: seq<Entry>, nodes: seq<Node>)
    ensures Printed(es, nodes) == [] <==> nodes == []
  {
    if nodes != [] { assert |PrintedNode(es, nodes[0])| > 0; }
  }

  lemma {:induction false} OwnIsEntry(l: Loaded, es: seq<Entry>, i: nat, parentId: int)
    requires i < |es|
    ensures var id := IdFor(l.used, es[i].id);
            IdFor(l.used, RecordId(Some(OwnOf(es, i)))) == id
            && WithOwn(l, Some(OwnOf(es, i)), parentId) == WithRecord(l, id, parentId, es[i].fields)
  {
  }

  lemma {:induction false} LoadStep(es: seq<Entry>, nodes: seq<Node>, parentId: int, l: Loaded, depth: nat)
    requires Below(Order(nodes), |es|) && depth < MAX_DEPTH && nodes != []
    ensures nodes[0].index < |es| && Below(Order(nodes[0].kids), |es|) && Below(Order(nodes[1..]), |es|)
    ensures var e := es[nodes[0].index];
            var id := IdFor(l.used, e.id);
            var here := WithRecord(l, id, parentId, e.fields);
            var inner := if nodes[0].kids != [] then Load(es, nodes[0].kids, id, here, depth + 1) else here;
            Load(es, nodes, parentId, l, depth) == Load(es, nodes[1..], parentId, inner, depth)
  {
    hide IdFor, WithRecord, Order;
    OrderParts(nodes, |es|);
  }

  lemma {:induction false} ReadPrintedStep(x: seq<Token>, pos: nat, end: nat, es: seq<Entry>, n: Node, parentId: int, l: Loaded, depth: nat)
    requires At(x, pos, PrintedNode(es, n)) && pos + |PrintedNode(es, n)| <= end <= |x|
    requires n.index < |es| && (n.kids != [] ==> n.list) && depth < MAX_DEPTH
    ensures n.kids != [] ==> At(x, pos + 3, Printed(es, n.kids)) && pos + 3 + |Printed(es, n.kids)| <= |x|
    ensures var id := IdFor(l.used, es[n.index].id);
            var here := WithRecord(l, id, parentId, es[n.index].fields);
            var inner := if n.kids != [] then Read(x, pos + 3, pos + 3 + |Printed(es, n.kids)|, id, here, depth + 1) else here;
            Read(x, pos, end, parentId, l, depth) == Read(x, pos + |PrintedNode(es, n)|, end, parentId, inner, depth)
  {
    hide *;
    PrintedFits(x, pos, es, n);
    PrintedEmpty(es, n.kids);
    PrintedExtent(x, pos, end, es, n);
    OwnIsEntry(l, es, n.index, parentId);
    ReadStep(x, pos, end, parentId, l, depth, pos, ExtentAt(x, pos, end).value);
  }

  lemma {:induction false} PrintedFirst(es: seq<Entry>, nodes: seq<Node>)
    requires nodes != []
    ensures Printed(es, nodes) == PrintedNode(es, nodes[0]) + Printed(es, nodes[1..])
  {
  }

  lemma {:induction false} ReadNothing(x: seq<Token>, pos: nat, end: nat, es: seq<Entry>, nodes: seq<Node>, parentId: int, l: Loaded, depth: nat)
    requires end == pos + |Printed(es, nodes)| <= |x| && Below(Order(nodes), |es|)
    requires depth >= MAX_DEPTH || nodes == []
    ensures Read(x, pos, end, parentId, l, depth) == Load(es, nodes, parentId, l, depth)
  {
    hide ExtentAt, FindOwn, WithOwn, IdFor, Order, PrintedNode, Find;
  }

  /** Printed lists are read as the lists they print. */
  lemma {:induction false} ReadPrinted(x: seq<Token>, pos: nat, end: nat, es: seq<Entry>, nodes: seq<Node>, parentId: int, l: Loaded, depth: nat)
    requires At(x, pos, Printed(es, nodes)) && end == pos + |Printed(es, nodes)| <= |x|
    requires Listable(nodes) && Below(Order(nodes), |es|)
    ensures Read(x, pos, end, parentId, l, depth) == Load(es, nodes, parentId, l, depth)
    decreases nodes
  {
    hide *;
    if depth >= MAX_DEPTH || nodes == [] {
      ReadNothing(x, pos, end, es, nodes, parentId, l, depth);
    } else {
      var n := nodes[0];
      PrintedFirst(es, nodes);
      ListableParts(nodes);
      LoadStep(es, nodes, parentId, l, depth);
      AtParts(x, pos, PrintedNode(es, n), Printed(es, nodes[1..]));
      ReadPrintedStep(x, pos, end, es, n, parentId, l, depth);
      var id := IdFor(l.used, es[n.index].id);
      var here := WithRecord(l, id, parentId, es[n.index].fields);
      if n.kids != [] {
        ReadPrinted(x, pos + 3, pos + 3 + |Printed(es, n.kids)|, es, n.kids, id, here, depth + 1);
      }
      var inner := if n.kids != [] then Load(es, n.kids, id, here, depth + 1) else here;
      ReadPrinted(x, pos + |PrintedNode(es, n)|, end, es, nodes[1..], parentId, inner, depth);
    }
  }

  lemma {:induction false} ListableParts(nodes: seq<Node>)
    requires nodes != [] && Listable(nodes)
    ensures (nodes[0].kids != [] ==> nodes[0].list) && Listable(nodes[0].kids) && Listable(nodes[1..])
  {
  }

  lemma {:induction false} PrintedFits(x: seq<Token>, i: nat, es: seq<Entry>, n: Node)
    requires At(x, i, PrintedNode(es, n))
    ensures i + |PrintedNode(es, n)| <= |x|
    ensures n.list ==> At(x, i + 3, Printed(es, n.kids)) && i + 3 + |Printed(es, n.kids)| <= |x|
  {
    PrintedParts(x, i, es, n);
  }

  lemma {:induction false} SavedIsListable(es: seq<Entry>)
    ensures Listable(Saved(es))
  {
    var roots := WriteAll(es, {}, RootsUpTo(es, |es|), 0);
    WrittenIsListable(es, {}, RootsUpTo(es, |es|), 0);
    WrittenIsListable(es, roots.done, All(|es|), 0);
    ListableConcat(roots.nodes, WriteAll(es, roots.done, All(|es|), 0).nodes);
  }

  /** The outermost list is the whole text. */
  lemma {:induction false} OutermostList(es: seq<Entry>, nodes: seq<Node>)
    ensures var t := Printed(es, nodes);
            var x := [ListOpen] + t + [ListClose];
            && Find(x, ListOpen, 0) == 0 && At(x, 1, t)
            && CloseFrom(x, ListOpen, ListClose, 1, 1) == Some(1 + |t|)
  {
    hide Printed, CloseFrom;
    var t := Printed(es, nodes);
    var x := [ListOpen] + t + [ListClose];
    assert x[0] == ListOpen && x[1 + |t|] == ListClose;
    assert x[1..1 + |t|] == t;
    SkipPrinted(x, 1, es, nodes, ListOpen, ListClose, 1);
    SkipOne(x, ListOpen, ListClose, 1 + |t|, 1);
  }

  /** Reading the text the writer writes gives the nested lists the table was saved as. */
  lemma {:induction false} WrittenIsRead(es: seq<Entry>)
    ensures ReadTable(TextOf(es)) == Reloaded(es)
  {
    hide Saved, Printed, CloseFrom, Find, Read, Load, Reloaded, At;
    OutermostList(es, Saved(es));
    SavedIsListable(es);
    SavedNames(es);
    var end := 1 + |Printed(es, Saved(es))|;
    assert ReadTable(TextOf(es)) == Read(TextOf(es), 1, end, -1, Loaded([], [], true), 0);
    ReadPrinted(TextOf(es), 1, end, es, Saved(es), -1, Loaded([], [], true), 0);
    ReloadedIs(es);
  }

  /** Loading a saved table never fails, and gives the table itself exactly when that was a forest
      in preorder, with unique ids that are not negative and at most 64 levels. */
  lemma {:induction false} TextRoundTrip(es: seq<Entry>)
    ensures ReadTable(TextOf(es)).ok
    ensures ReadTable(TextOf(es)).entries == es <==> PreorderForest(es)
    ensures PreorderForest(ReadTable(TextOf(es)).entries)
  {
    hide PreorderForest, Reloaded, ReadTable, TextOf;
    WrittenIsRead(es);
    RoundTrip(es);
    ReloadedIsForest(es);
  }

  /** The text of nested lists of entries, however deep, is read without complaint exactly when no more
      than 64 lists are in each other. */
  lemma {:induction false} DeepTextRefused(es: seq<Entry>, nodes: seq<Node>)
    requires Listable(nodes) && Below(Order(nodes), |es|)
    ensures ReadTable([ListOpen] + Printed(es, nodes) + [ListClose]).ok <==> Height(nodes) <= 64
  {
    hide Printed, CloseFrom, Find, Read, Load, At, Listable, Order, Height;
    var none := Loaded([], [], true);
    OutermostList(es, nodes);
    ReadPrinted([ListOpen] + Printed(es, nodes) + [ListClose], 1, 1 + |Printed(es, nodes)|, es, nodes, -1, none, 0);
    LoadsExactly(es, nodes, -1, none, 0);
  }
}
