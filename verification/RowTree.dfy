/**
  core/address_list.hpp: a tree kept as rows with indents. A row's descendants are the rows right
  after it with deeper indents.
 */
module RowTree {

  /** Row `i` is nested under row `r`. */
  predicate Descendant(indents: seq<int>, i: nat, r: nat)
  {
    r < i < |indents| && forall k :: r < k <= i ==> indents[k] > indents[r]
  }

  method DescendantRange(indents: seq<int>, row: nat) returns (begin: nat, end: nat)
    ensures begin == row + 1 <= end && (row < |indents| ==> end <= |indents|)
    ensures forall i: nat :: begin <= i < end <==> Descendant(indents, i, row)
  {
    begin, end := row + 1, row + 1;
    if row >= |indents| { return; }
    while end < |indents| && indents[end] > indents[row]
      invariant row < end <= |indents|
      invariant forall k :: row < k < end ==> indents[k] > indents[row]
    {
      end := end + 1;
    }
    if end < |indents| {
      forall i: nat | end <= i ensures !Descendant(indents, i, row) {
        assert !(indents[end] > indents[row]);
      }
    }
  }

  lemma {:induction false} DescendantsNest(indents: seq<int>, a: nat, b: nat, c: nat)
    requires Descendant(indents, b, a) && Descendant(indents, c, b)
    ensures Descendant(indents, c, a)
  {
    assert indents[b] > indents[a];
  }

  // ------------------------------------------------------------------ collapsing

  /** Some collapsed row has row `i` under it. */
  ghost predicate UnderCollapsed(indents: seq<int>, collapsed: seq<bool>, i: nat)
  {
    exists r :: 0 <= r < |collapsed| && collapsed[r] && Descendant(indents, i, r)
  }

  /** Row `r` is still open before row `i`: no row since then ended its scope. */
  predicate OpenAt(indents: seq<int>, r: nat, i: nat)
  {
    r < i <= |indents| && forall k :: r < k < i ==> indents[k] > indents[r]
  }

  /** `rows` are some collapsed rows open before `i`, outermost first, and `stack` their indents. */
  ghost predicate Stacked(indents: seq<int>, collapsed: seq<bool>, i: nat, rows: seq<nat>, stack: seq<int>)
  {
    && |rows| == |stack|
    && (forall k :: 0 <= k < |rows| ==>
          rows[k] < |collapsed| && collapsed[rows[k]] && OpenAt(indents, rows[k], i) && stack[k] == indents[rows[k]])
    && (forall j, k :: 0 <= j < k < |rows| ==> stack[j] < stack[k])
  }

  /** All of those that are open. */
  ghost predicate OpenRows(indents: seq<int>, collapsed: seq<bool>, i: nat, rows: seq<nat>, stack: seq<int>)
  {
    && Stacked(indents, collapsed, i, rows, stack)
    && forall r: nat :: r < |collapsed| && collapsed[r] && OpenAt(indents, r, i) ==> r in rows
  }

  /** At least those that row `i` is under. */
  ghost predicate AboveRow(indents: seq<int>, collapsed: seq<bool>, i: nat, rows: seq<nat>, stack: seq<int>)
    requires i < |indents|
  {
    && Stacked(indents, collapsed, i, rows, stack)
    && forall r: nat :: r < |collapsed| && collapsed[r] && Descendant(indents, i, r) ==> r in rows
  }

  lemma {:induction false} Descends(indents: seq<int>, i: nat, r: nat)
    requires i < |indents|
    ensures Descendant(indents, i, r) <==> OpenAt(indents, r, i) && indents[r] < indents[i]
  {
  }

  lemma {:induction false} Popped(indents: seq<int>, collapsed: seq<bool>, i: nat, rows: seq<nat>, stack: seq<int>)
    requires i < |indents| && AboveRow(indents, collapsed, i, rows, stack)
    requires stack != [] && stack[|stack| - 1] >= indents[i]
    ensures |rows| == |stack| && AboveRow(indents, collapsed, i, rows[..|rows| - 1], stack[..|stack| - 1])
  {
    var last := |rows| - 1;
    forall r: nat | r < |collapsed| && collapsed[r] && Descendant(indents, i, r) ensures r in rows[..last] {
      Descends(indents, i, r);
      var k :| 0 <= k < |rows| && rows[k] == r;
      assert k < last && rows[..last][k] == r;
    }
  }

  lemma {:induction false} AllAbove(indents: seq<int>, collapsed: seq<bool>, i: nat, rows: seq<nat>, stack: seq<int>)
    requires i < |indents| && AboveRow(indents, collapsed, i, rows, stack)
    requires stack == [] || stack[|stack| - 1] < indents[i]
    ensures stack != [] <==> UnderCollapsed(indents, collapsed, i)
    ensures var push := i < |collapsed| && collapsed[i];
            OpenRows(indents, collapsed, i + 1, if push then rows + [i] else rows, if push then stack + [indents[i]] else stack)
  {
    hide UnderCollapsed, OpenAt, Descendant, Stacked;
    SomeAbove(indents, collapsed, i, rows, stack);
    StillStacked(indents, collapsed, i, rows, stack);
    var push := i < |collapsed| && collapsed[i];
    if push { PushedStack(indents, collapsed, i, rows, stack); }
    var after := if push then rows + [i] else rows;
    forall r: nat | r < |collapsed| && collapsed[r] && OpenAt(indents, r, i + 1) ensures r in after {
      if r != i {
        OpenPast(indents, r, i);
        Descends(indents, i, r);
      }
    }
  }

  lemma {:induction false} StillStacked(indents: seq<int>, collapsed: seq<bool>, i: nat, rows: seq<nat>, stack: seq<int>)
    requires i < |indents| && Stacked(indents, collapsed, i, rows, stack)
    requires stack == [] || stack[|stack| - 1] < indents[i]
    ensures Stacked(indents, collapsed, i + 1, rows, stack)
  {
    hide OpenAt;
    forall k | 0 <= k < |rows| ensures OpenAt(indents, rows[k], i + 1) {
      assert stack[k] <= stack[|stack| - 1];
      NotYet(indents, rows[k], i);
      OpenPast(indents, rows[k], i);
    }
  }

  lemma {:induction false} NotYet(indents: seq<int>, r: nat, i: nat)
    requires OpenAt(indents, r, i)
    ensures r < i
  {
  }

  lemma {:induction false} PushedStack(indents: seq<int>, collapsed: seq<bool>, i: nat, rows: seq<nat>, stack: seq<int>)
    requires i < |indents| && Stacked(indents, collapsed, i + 1, rows, stack) && i < |collapsed| && collapsed[i]
    requires stack == [] || stack[|stack| - 1] < indents[i]
    ensures Stacked(indents, collapsed, i + 1, rows + [i], stack + [indents[i]])
  {
    OpenNow(indents, i);
    hide OpenAt;
    var rs, ss := rows + [i], stack + [indents[i]];
    forall j, k | 0 <= j < k < |rs| ensures ss[j] < ss[k] {
      if k == |rows| { assert stack[j] <= stack[|stack| - 1]; }
    }
  }

  lemma {:induction false} OpenPast(indents: seq<int>, r: nat, i: nat)
    requires r != i < |indents|
    ensures OpenAt(indents, r, i + 1) <==> OpenAt(indents, r, i) && indents[r] < indents[i]
  {
  }

  lemma {:induction false} OpenNow(indents: seq<int>, i: nat)
    requires i < |indents|
    ensures OpenAt(indents, i, i + 1)
  {
  }

  lemma {:induction false} SomeAbove(indents: seq<int>, collapsed: seq<bool>, i: nat, rows: seq<nat>, stack: seq<int>)
    requires i < |indents| && AboveRow(indents, collapsed, i, rows, stack)
    requires stack == [] || stack[|stack| - 1] < indents[i]
    ensures stack != [] <==> UnderCollapsed(indents, collapsed, i)
  {
    hide OpenAt, Descendant;
    if stack != [] {
      Descends(indents, i, rows[|rows| - 1]);
    }
  }

  /** A row is hidden exactly when some collapsed row has it under it. */
  method HiddenByCollapse(indents: seq<int>, collapsed: seq<bool>) returns (hidden: seq<bool>)
    ensures |hidden| == |indents|
    ensures forall i :: 0 <= i < |indents| ==> (hidden[i] <==> UnderCollapsed(indents, collapsed, i))
  {
    hide UnderCollapsed, OpenAt, Descendant, OpenRows, AboveRow;
    hidden := [];
    var stack: seq<int> := [];
    ghost var rows: seq<nat> := [];
    NoneOpen(indents, collapsed);
    for i := 0 to |indents|
      invariant |hidden| == i
      invariant OpenRows(indents, collapsed, i, rows, stack)
      invariant forall k :: 0 <= k < i ==> (hidden[k] <==> UnderCollapsed(indents, collapsed, k))
    {
      OpenBefore(indents, collapsed, i, rows, stack);
      while stack != [] && stack[|stack| - 1] >= indents[i]
        invariant AboveRow(indents, collapsed, i, rows, stack)
        decreases |stack|
      {
        Popped(indents, collapsed, i, rows, stack);
        stack, rows := stack[..|stack| - 1], rows[..|rows| - 1];
      }
      AllAbove(indents, collapsed, i, rows, stack);
      hidden := hidden + [stack != []];
      if i < |collapsed| && collapsed[i] {
        stack, rows := stack + [indents[i]], rows + [i];
      }
    }
  }

  lemma {:induction false} NoneOpen(indents: seq<int>, collapsed: seq<bool>)
    ensures OpenRows(indents, collapsed, 0, [], [])
  {
  }

  lemma {:induction false} OpenBefore(indents: seq<int>, collapsed: seq<bool>, i: nat, rows: seq<nat>, stack: seq<int>)
    requires i < |indents| && OpenRows(indents, collapsed, i, rows, stack)
    ensures AboveRow(indents, collapsed, i, rows, stack)
  {
    forall r: nat | r < |collapsed| && collapsed[r] && Descendant(indents, i, r) ensures r in rows { Descends(indents, i, r); }
  }

  // -------------------------------------------------------------------- deletion

  predicate Ascending(s: seq<nat>) { forall i, j :: 0 <= i < j < |s| ==> s[i] < s[j] }

  /** Row `i` is selected, or under a selected row. */
  predicate Deleted(indents: seq<int>, selected: seq<nat>, i: nat)
  {
    i < |indents| && (i in selected || exists r :: r in selected && Descendant(indents, i, r))
  }

  method ExpandGroupDeletion(indents: seq<int>, selected: seq<nat>) returns (out: seq<nat>)
    ensures Ascending(out)
    ensures forall i: nat :: i in out <==> Deleted(indents, selected, i)
  {
    hide Deleted, Descendant;
    var n := |indents|;
    var mark := new bool[n](i => false);
    NothingSelected(indents, selected);
    for s := 0 to |selected|
      invariant forall i: nat :: i < n ==> (mark[i] <==> Deleted(indents, selected[..s], i))
    {
      var r := selected[s];
      assert selected[..s + 1] == selected[..s] + [r];
      OneMoreDeleted(indents, selected[..s], r);
      if r < n {
        mark[r] := true;
        var begin, end := DescendantRange(indents, r);
        for i := begin to end
          invariant forall k: nat :: k < n ==>
            (mark[k] <==> Deleted(indents, selected[..s], k) || k == r || (begin <= k < i))
        {
          mark[i] := true;
        }
      }
    }
    assert selected[..|selected|] == selected;
    NothingSelected(indents, selected);
    out := [];
    for i := 0 to n
      invariant Ascending(out) && forall k: nat :: k in out <==> k < i && Deleted(indents, selected, k)
    {
      if mark[i] {
        assert forall j :: 0 <= j < |out| ==> out[j] in out;
        out := out + [i];
      }
    }
  }

  lemma {:induction false} OneMoreDeleted(indents: seq<int>, selected: seq<nat>, r: nat)
    ensures forall i: nat :: Deleted(indents, selected + [r], i) <==>
      Deleted(indents, selected, i) || (r < |indents| && (i == r || Descendant(indents, i, r)))
  {
    hide Descendant;
    forall i: nat
      ensures Deleted(indents, selected + [r], i) <==>
        Deleted(indents, selected, i) || (r < |indents| && (i == r || Descendant(indents, i, r)))
    {
      DescendantBounds(indents, i, r);
      assert r in selected + [r];
      if a :| a in selected && Descendant(indents, i, a) { assert a in selected + [r]; }
    }
  }

  lemma {:induction false} DescendantBounds(indents: seq<int>, i: nat, r: nat)
    ensures Descendant(indents, i, r) ==> r < i < |indents|
  {
  }

  lemma {:induction false} NothingSelected(indents: seq<int>, selected: seq<nat>)
    ensures forall i: nat :: !Deleted(indents, [], i)
    ensures forall i: nat :: Deleted(indents, selected, i) ==> i < |indents|
  {
  }

  /** What is deleted is closed under descendants, so a row that stays keeps the rows it is under; and
      no smaller set with the selection in it is closed. */
  lemma {:induction false} DeletionIsLeast(indents: seq<int>, selected: seq<nat>, other: seq<nat>)
    ensures forall i: nat, r: nat :: Deleted(indents, selected, r) && Descendant(indents, i, r) ==> Deleted(indents, selected, i)
    ensures (forall r: nat :: r in selected && r < |indents| ==> r in other)
      && (forall i: nat, r: nat :: r in other && Descendant(indents, i, r) ==> i in other)
      ==> forall i: nat :: Deleted(indents, selected, i) ==> i in other
  {
    forall i: nat, r: nat | Deleted(indents, selected, r) && Descendant(indents, i, r) ensures Deleted(indents, selected, i) {
      if r !in selected {
        var a :| a in selected && Descendant(indents, r, a);
        DescendantsNest(indents, a, r, i);
      }
    }
  }

  /** The rows that stay, in order. */
  ghost predicate Stay(indents: seq<int>, selected: seq<nat>, kept: seq<nat>)
  {
    Ascending(kept) && forall i: nat :: i in kept <==> i < |indents| && !Deleted(indents, selected, i)
  }

  /** The indents of some rows. */
  function IndentsOf(indents: seq<int>, rows: seq<nat>): seq<int>
    requires forall k :: 0 <= k < |rows| ==> rows[k] < |indents|
  {
    seq(|rows|, k requires 0 <= k < |rows| => indents[rows[k]])
  }

  lemma {:induction false} StayInRange(indents: seq<int>, selected: seq<nat>, kept: seq<nat>)
    requires Stay(indents, selected, kept)
    ensures forall k :: 0 <= k < |kept| ==> kept[k] < |indents| && !Deleted(indents, selected, kept[k])
  {
    hide Deleted;
    forall k | 0 <= k < |kept| ensures kept[k] < |indents| && !Deleted(indents, selected, kept[k]) { assert kept[k] in kept; }
  }

  /** The first row after `d` that is not under it. */
  lemma {:induction false} EndsBefore(indents: seq<int>, d: nat, q: nat) returns (e: nat)
    requires d < q < |indents| && !Descendant(indents, q, d)
    ensures d < e <= q && indents[e] <= indents[d] && forall k :: d < k < e ==> indents[k] > indents[d]
  {
    e := d + 1;
    while indents[e] > indents[d]
      invariant d < e <= q && forall k :: d < k < e ==> indents[k] > indents[d]
      decreases q - e
    {
      if e == q { assert Descendant(indents, q, d); }
      e := e + 1;
    }
  }

  /** No row between two kept ones is as shallow as the first, if no kept one is. */
  lemma {:induction false} NoShallowRow(indents: seq<int>, selected: seq<nat>, kept: seq<nat>, p: nat, q: nat, d: nat)
    requires Stay(indents, selected, kept) && p < q < |kept| && kept[q] < |indents| && kept[p] < |indents|
    requires forall k :: p < k <= q ==> kept[k] < |indents| && indents[kept[k]] > indents[kept[p]]
    requires kept[p] < d <= kept[q]
    ensures indents[d] > indents[kept[p]]
    decreases kept[q] - d
  {
    hide Deleted;
    if d in kept {
      var k :| 0 <= k < |kept| && kept[k] == d;
      assert p < k <= q;
    } else {
      StayInRange(indents, selected, kept);
      DeletionIsLeast(indents, selected, []);
      var e := EndsBefore(indents, d, kept[q]);
      NoShallowRow(indents, selected, kept, p, q, e);
    }
  }

  /** In the list that is left a row has exactly the rows above it that stayed of those it had. */
  lemma {:induction false} DeletionKeepsTree(indents: seq<int>, selected: seq<nat>, kept: seq<nat>, p: nat, q: nat)
    requires Stay(indents, selected, kept) && p < |kept| && q < |kept|
    ensures forall k :: 0 <= k < |kept| ==> kept[k] < |indents|
    ensures Descendant(IndentsOf(indents, kept), q, p) <==> Descendant(indents, kept[q], kept[p])
  {
    hide Deleted;
    StayInRange(indents, selected, kept);
    var left := IndentsOf(indents, kept);
    if Descendant(left, q, p) {
      forall k | p < k <= q ensures indents[kept[k]] > indents[kept[p]] { assert left[k] > left[p]; }
      forall d | kept[p] < d <= kept[q] ensures indents[d] > indents[kept[p]] {
        NoShallowRow(indents, selected, kept, p, q, d);
      }
    }
    if Descendant(indents, kept[q], kept[p]) {
      forall k | p < k <= q ensures left[k] > left[p] { assert kept[p] < kept[k] <= kept[q]; }
    }
  }

  // ---------------------------------------------------------------------- moving

  /** Row `r` belongs to the block that moves. */
  predicate InBlock(start: int, len: int, r: int) { start <= r < start + len }

  /** The rows outside the block, by position. */
  function RestAt(start: int, len: int, k: int): int { if k < start then k else k + len }

  /** The row that comes to position `k` when the block goes after the first `at` of the others. */
  function RowAt(start: int, len: int, at: int, k: int): int
  {
    if k < at then RestAt(start, len, k) else if k < at + len then start + (k - at) else RestAt(start, len, k - len)
  }

  /** How many rows outside the block come before row `dest`. */
  function RestBefore(start: int, len: int, dest: int): int
  {
    if dest <= start then dest else if dest <= start + len then start else dest - len
  }

  method MoveRangePermutation(count: int, start: int, len: int, dest: int) returns (perm: seq<int>)
    ensures |perm| == if count > 0 then count else 0
    ensures 0 < count && 0 < len && 0 <= start && start + len <= count && 0 <= dest <= count ==>
      forall k :: 0 <= k < count ==> perm[k] == RowAt(start, len, RestBefore(start, len, dest), k)
    ensures !(0 < count && 0 < len && 0 <= start && start + len <= count && 0 <= dest <= count) ==>
      forall k :: 0 <= k < count ==> perm[k] == k
  {
    perm := [];
    if count <= 0 || len <= 0 || start < 0 || start > count || len > count - start || dest < 0 || dest > count {
      if count <= 0 { return; }
      for i := 0 to count
        invariant |perm| == i && forall k :: 0 <= k < i ==> perm[k] == k
      {
        perm := perm + [i];
      }
      return;
    }
    var rest: seq<int> := [];
    for i := 0 to count
      invariant |rest| == (if i <= start then i else if i <= start + len then start else i - len)
      invariant forall k :: 0 <= k < |rest| ==> rest[k] == RestAt(start, len, k)
    {
      if i < start || i >= start + len { rest := rest + [i]; }
    }
    var insertPos := 0;
    while insertPos < |rest| && rest[insertPos] < dest
      invariant insertPos <= RestBefore(start, len, dest) <= |rest|
    {
      insertPos := insertPos + 1;
    }
    for k := 0 to insertPos
      invariant |perm| == k && forall j :: 0 <= j < k ==> perm[j] == RestAt(start, len, j)
    {
      perm := perm + [rest[k]];
    }
    for i := start to start + len
      invariant |perm| == insertPos + i - start
      invariant forall j :: 0 <= j < |perm| ==> perm[j] == RowAt(start, len, insertPos, j)
    {
      perm := perm + [i];
    }
    for k := insertPos to |rest|
      invariant |perm| == k + len
      invariant forall j :: 0 <= j < |perm| ==> perm[j] == RowAt(start, len, insertPos, j)
    {
      perm := perm + [rest[k]];
    }
  }

  /** A move loses and doubles no row. The block stays together and in order; the other rows keep
      their order, and those before it are the ones that were before `dest`. */
  lemma {:induction false} MoveReorders(count: int, start: int, len: int, dest: int, j: int, k: int)
    requires 0 < len && 0 <= start && start + len <= count && 0 <= dest <= count && 0 <= j < k < count
    ensures var at := RestBefore(start, len, dest);
            var a, b := RowAt(start, len, at, j), RowAt(start, len, at, k);
            && 0 <= a < count && 0 <= b < count && a != b
            && (InBlock(start, len, a) <==> at <= j < at + len)
            && (InBlock(start, len, a) == InBlock(start, len, b) ==> a < b)
            && (!InBlock(start, len, a) && InBlock(start, len, b) ==> a < dest)
            && (InBlock(start, len, a) && !InBlock(start, len, b) ==> dest <= b)
  {
  }

  // -------------------------------------------------------------------- grouping

  /** The selected rows below `n` in order, each once. */
  function Members(n: nat, selected: seq<nat>): (r: seq<nat>)
    ensures Ascending(r) && forall i: nat :: i in r <==> i < n && i in selected
    ensures forall k :: 0 <= k < |r| ==> r[k] < n && r[k] in selected
  {
    if n == 0 then []
    else
      var before := Members(n - 1, selected);
      assert forall j :: 0 <= j < |before| ==> before[j] in before;
      if n - 1 in selected then before + [n - 1] else before
  }

  function MinIndent(indents: seq<int>, rows: seq<nat>): (m: int)
    requires rows != [] && forall k :: 0 <= k < |rows| ==> rows[k] < |indents|
    ensures forall k :: 0 <= k < |rows| ==> m <= indents[rows[k]]
    ensures exists k :: 0 <= k < |rows| && m == indents[rows[k]]
  {
    var last := indents[rows[|rows| - 1]];
    if |rows| == 1 then last
    else
      var m := MinIndent(indents, rows[..|rows| - 1]);
      if last < m then last else m
  }

  predicate AscendingRows(s: seq<int>) { forall i, j :: 0 <= i < j < |s| ==> s[i] < s[j] }

  /** `order` puts a new header, written -1, at the first selected row and the selected rows after it;
      the other rows keep their order around them. */
  ghost predicate Groups(order: seq<int>, n: nat, selected: seq<nat>)
  {
    var m := Members(n, selected);
    && m != [] && |order| == n + 1 && m[0] + 1 + |m| <= n + 1
    && (forall k :: 0 <= k < m[0] ==> order[k] == k)
    && order[m[0]] == -1
    && (forall k :: 0 <= k < |m| ==> order[m[0] + 1 + k] == m[k])
    && AscendingRows(order[m[0] + 1 + |m|..])
    && forall x :: x in order[m[0] + 1 + |m|..] <==> m[0] <= x < n && x !in selected
  }

  /** A row's new indent: the header has its own, and the selected rows go one deeper. */
  function NewIndent(row: int, indents: seq<int>, selected: seq<nat>, header: int): int
  {
    if !(0 <= row < |indents|) then header else if row in selected then indents[row] + 1 else indents[row]
  }

  predicate GroupIndents(order: seq<int>, indent: seq<int>, indents: seq<int>, selected: seq<nat>, header: int)
  {
    |indent| == |order| && forall k :: 0 <= k < |order| ==> indent[k] == NewIndent(order[k], indents, selected, header)
  }

  /** The order after `i` rows, once the header is in place. */
  ghost predicate GroupedSoFar(order: seq<int>, rows: seq<nat>, tail: seq<int>, selected: seq<nat>, i: nat)
    requires rows != []
  {
    var at := rows[0];
    && |order| == at + 1 + |rows| + |tail|
    && (forall k :: 0 <= k < at ==> order[k] == k)
    && order[at] == -1
    && (forall k :: 0 <= k < |rows| ==> order[at + 1 + k] == rows[k])
    && order[at + 1 + |rows|..] == tail
    && AscendingRows(tail) && forall x :: x in tail <==> at <= x < i && x !in selected
  }

  lemma {:induction false} FirstMember(n: nat, selected: seq<nat>, i: nat)
    requires i < n && Members(n, selected) != []
    ensures Members(n, selected)[0] < n && Members(n, selected)[0] in selected
    ensures i in selected ==> Members(n, selected)[0] <= i
    ensures i <= Members(n, selected)[0] ==> Members(i, selected) == []
  {
    var m := Members(n, selected);
    assert m[0] in m;
    if i in selected {
      var k :| 0 <= k < |m| && m[k] == i;
    }
    if i <= m[0] && Members(i, selected) != [] {
      assert Members(i, selected)[0] in Members(i, selected);
    }
  }

  method PutMembers(indents: seq<int>, rows: seq<nat>) returns (order: seq<int>, indent: seq<int>)
    requires forall k :: 0 <= k < |rows| ==> rows[k] < |indents|
    ensures |order| == |indent| == |rows|
    ensures forall k :: 0 <= k < |rows| ==> order[k] == rows[k] && indent[k] == indents[rows[k]] + 1
  {
    order, indent := [], [];
    for k := 0 to |rows|
      invariant |order| == |indent| == k
      invariant forall j :: 0 <= j < k ==> order[j] == rows[j] && indent[j] == indents[rows[j]] + 1
    {
      order, indent := order + [rows[k] as int], indent + [indents[rows[k]] + 1];
    }
  }

  /** The order after `i` rows; `tail` is what follows the members. */
  ghost predicate SoFar(order: seq<int>, rows: seq<nat>, tail: seq<int>, selected: seq<nat>, i: nat)
    requires rows != []
  {
    if i <= rows[0] then tail == [] && |order| == i && forall k :: 0 <= k < i ==> order[k] == k
    else GroupedSoFar(order, rows, tail, selected, i) && |tail| == i - rows[0] - |Members(i, selected)|
  }

  lemma {:induction false} PutHeader(order: seq<int>, rows: seq<nat>, tail: seq<int>, members: seq<int>, selected: seq<nat>)
    requires rows != [] && SoFar(order, rows, tail, selected, rows[0])
    requires |members| == |rows| && (forall k :: 0 <= k < |rows| ==> members[k] == rows[k])
    requires rows[0] in selected && Members(rows[0], selected) == []
    ensures SoFar(order + ([-1] + members), rows, tail, selected, rows[0] + 1)
  {
    MembersNext(selected, rows[0]);
    hide Members;
  }

  lemma {:induction false} PutOther(order: seq<int>, rows: seq<nat>, tail: seq<int>, selected: seq<nat>, i: nat)
    requires rows != [] && i !in selected && i != rows[0] && SoFar(order, rows, tail, selected, i)
    ensures SoFar(order + [i as int], rows, if i > rows[0] then tail + [i as int] else tail, selected, i + 1)
  {
    MembersNext(selected, i);
    hide Members, GroupedSoFar;
    if i > rows[0] {
      assert (tail + [i as int])[..|tail|] == tail;
      OneMoreRow(order, rows, tail + [i as int], selected, i);
    }
  }

  lemma {:induction false} MoreIndents(a: seq<int>, b: seq<int>, c: seq<int>, d: seq<int>, indents: seq<int>, selected: seq<nat>, header: int)
    requires GroupIndents(a, b, indents, selected, header) && GroupIndents(c, d, indents, selected, header)
    ensures GroupIndents(a + c, b + d, indents, selected, header)
  {
  }

  lemma {:induction false} Skipped(order: seq<int>, rows: seq<nat>, tail: seq<int>, selected: seq<nat>, i: nat)
    requires rows != [] && i in selected && rows[0] < i && SoFar(order, rows, tail, selected, i)
    ensures SoFar(order, rows, tail, selected, i + 1)
  {
    MembersNext(selected, i);
    hide Members;
  }

  method GroupSelection(indents: seq<int>, selected: seq<nat>) returns (ok: bool, order: seq<int>, indent: seq<int>)
    ensures ok <==> exists r :: r in selected && r < |indents|
    ensures ok ==> Groups(order, |indents|, selected)
    ensures ok ==> GroupIndents(order, indent, indents, selected, MinIndent(indents, Members(|indents|, selected)))
    ensures ok ==> |indent| == |order| && forall k :: 0 <= k < |order| ==> StandsAt(order[k], indent[k], indents, selected)
    ensures !ok ==> order == [] && indent == []
  {
    var n := |indents|;
    var rows := Members(n, selected);
    order, indent := [], [];
    if rows == [] {
      assert forall r :: r in selected && r < n ==> r in rows;
      return false, [], [];
    }
    ghost var tail;
    order, indent, tail := GroupRows(indents, selected, rows, MinIndent(indents, rows));
    AllGrouped(order, n, selected, tail);
    forall k | 0 <= k < |order| ensures k < |indent| && StandsAt(order[k], indent[k], indents, selected) {
      RowStands(order, indent, indents, selected, k);
    }
    ok := true;
  }

  /** The header has the least indent of the selected rows; those are one deeper, the others as they were. */
  ghost predicate StandsAt(row: int, indent: int, indents: seq<int>, selected: seq<nat>)
  {
    if row == -1 then
      && (forall r :: r in selected && r < |indents| ==> indent <= indents[r])
      && exists r :: r in selected && r < |indents| && indent == indents[r]
    else 0 <= row < |indents| && indent == if row in selected then indents[row] + 1 else indents[row]
  }

  lemma {:induction false} RowStands(order: seq<int>, indent: seq<int>, indents: seq<int>, selected: seq<nat>, k: nat)
    requires Groups(order, |indents|, selected) && k < |order|
    requires GroupIndents(order, indent, indents, selected, MinIndent(indents, Members(|indents|, selected)))
    ensures k < |indent| && StandsAt(order[k], indent[k], indents, selected)
  {
    var m := Members(|indents|, selected);
    var header := MinIndent(indents, m);
    RowInRange(order, |indents|, selected, m, k);
    if order[k] == -1 {
      forall r | r in selected && r < |indents| ensures header <= indents[r] {
        assert r in m;
        var i :| 0 <= i < |m| && m[i] == r;
      }
      var i :| 0 <= i < |m| && header == indents[m[i]];
      assert m[i] in selected && m[i] < |indents|;
    }
  }

  lemma {:induction false} RowInRange(order: seq<int>, n: nat, selected: seq<nat>, m: seq<nat>, k: nat)
    requires Groups(order, n, selected) && m == Members(n, selected) && k < |order|
    ensures -1 <= order[k] < n && (order[k] == -1 <==> k == m[0])
  {
    var tail := order[m[0] + 1 + |m|..];
    if k > m[0] + |m| {
      assert tail[k - m[0] - 1 - |m|] == order[k];
      TailRows(order, n, selected, m, order[k]);
    } else if k > m[0] {
      assert order[m[0] + 1 + (k - m[0] - 1)] == m[k - m[0] - 1];
      MemberIsBelow(n, selected, m, k - m[0] - 1);
    } else {
      MemberIsBelow(n, selected, m, 0);
    }
  }

  lemma {:induction false} TailRows(order: seq<int>, n: nat, selected: seq<nat>, m: seq<nat>, x: int)
    requires Groups(order, n, selected) && m == Members(n, selected)
    ensures m != [] && m[0] + 1 + |m| <= |order|
    ensures x in order[m[0] + 1 + |m|..] ==> x !in selected && m[0] <= x < n
  {
  }

  lemma {:induction false} MemberIsBelow(n: nat, selected: seq<nat>, m: seq<nat>, k: nat)
    requires m == Members(n, selected) && k < |m|
    ensures m[k] < n
  {
    hide Members;
  }

  ghost predicate AreMembers(rows: seq<nat>, n: nat, selected: seq<nat>) { rows == Members(n, selected) != [] }

  /** The loop over all rows. */
  method GroupRows(indents: seq<int>, selected: seq<nat>, rows: seq<nat>, header: int)
    returns (order: seq<int>, indent: seq<int>, ghost tail: seq<int>)
    requires AreMembers(rows, |indents|, selected)
    ensures SoFar(order, rows, tail, selected, |indents|) && GroupIndents(order, indent, indents, selected, header)
  {
    hide *;
    order, indent, tail := [], [], [];
    SomeMember(rows, |indents|, selected);
    NothingYet(rows, selected);
    NoIndents(indents, selected, header);
    var insertAt := rows[0];
    for i := 0 to |indents|
      invariant SoFar(order, rows, tail, selected, i) && GroupIndents(order, indent, indents, selected, header)
    {
      MemberFacts(rows, indents, selected, i);
      if i == insertAt {
        var members, deeper := PutMembers(indents, rows);
        PutHeader(order, rows, tail, members, selected);
        HeaderIndents(members, deeper, rows, indents, selected, header);
        MoreIndents(order, indent, [-1] + members, [header] + deeper, indents, selected, header);
        order, indent := order + ([-1] + members), indent + ([header] + deeper);
      }
      if i !in selected {
        PutOther(order, rows, tail, selected, i);
        if i > insertAt { tail := tail + [i as int]; }
        OneIndent(i, indents, selected, header);
        MoreIndents(order, indent, [i as int], [indents[i]], indents, selected, header);
        order, indent := order + [i as int], indent + [indents[i]];
      } else if i > insertAt {
        Skipped(order, rows, tail, selected, i);
      }
    }
  }

  lemma {:induction false} SomeMember(rows: seq<nat>, n: nat, selected: seq<nat>)
    requires AreMembers(rows, n, selected)
    ensures rows != []
  {
  }

  lemma {:induction false} MemberFacts(rows: seq<nat>, indents: seq<int>, selected: seq<nat>, i: nat)
    requires AreMembers(rows, |indents|, selected) && i < |indents|
    ensures rows != [] && rows[0] in selected && Members(rows[0], selected) == []
    ensures i in selected ==> rows[0] <= i
    ensures forall k :: 0 <= k < |rows| ==> rows[k] < |indents| && rows[k] in selected
  {
    FirstMember(|indents|, selected, i);
    FirstMember(|indents|, selected, rows[0]);
  }

  lemma {:induction false} NoIndents(indents: seq<int>, selected: seq<nat>, header: int)
    ensures GroupIndents([], [], indents, selected, header)
  {
  }

  lemma {:induction false} NothingYet(rows: seq<nat>, selected: seq<nat>)
    requires rows != []
    ensures SoFar([], rows, [], selected, 0)
  {
  }

  lemma {:induction false} OneIndent(i: nat, indents: seq<int>, selected: seq<nat>, header: int)
    requires i < |indents| && i !in selected
    ensures GroupIndents([i as int], [indents[i]], indents, selected, header)
  {
  }

  lemma {:induction false} HeaderIndents(members: seq<int>, deeper: seq<int>, rows: seq<nat>, indents: seq<int>, selected: seq<nat>, header: int)
    requires |members| == |deeper| == |rows|
    requires forall k :: 0 <= k < |rows| ==>
      rows[k] in selected && rows[k] < |indents| && members[k] == rows[k] && deeper[k] == indents[rows[k]] + 1
    ensures GroupIndents([-1] + members, [header] + deeper, indents, selected, header)
  {
  }

  lemma {:induction false} MembersNext(selected: seq<nat>, i: nat)
    ensures |Members(i + 1, selected)| == |Members(i, selected)| + (if i in selected then 1 else 0)
  {
  }

  lemma {:induction false} AllGrouped(order: seq<int>, n: nat, selected: seq<nat>, tail: seq<int>)
    requires Members(n, selected) != [] && Members(n, selected)[0] < n
    requires SoFar(order, Members(n, selected), tail, selected, n)
    ensures Groups(order, n, selected)
  {
    hide Members;
  }

  lemma {:induction false} OneMoreRow(order: seq<int>, rows: seq<nat>, tail: seq<int>, selected: seq<nat>, i: nat)
    requires rows != [] && rows[0] <= i && i !in selected && tail != [] && tail[|tail| - 1] == i
    requires GroupedSoFar(order, rows, tail[..|tail| - 1], selected, i)
    ensures GroupedSoFar(order + [i as int], rows, tail, selected, i + 1)
  {
    var before := tail[..|tail| - 1];
    assert tail == before + [i as int];
    assert forall k :: 0 <= k < |before| ==> before[k] in before;
  }

  /** Under the new indents every member is in the header's range. */
  lemma {:induction false} MembersAreUnderHeader(order: seq<int>, indent: seq<int>, indents: seq<int>, selected: seq<nat>, k: nat)
    requires Groups(order, |indents|, selected) && k < |Members(|indents|, selected)|
    requires GroupIndents(order, indent, indents, selected, MinIndent(indents, Members(|indents|, selected)))
    ensures Descendant(indent, Members(|indents|, selected)[0] + 1 + k, Members(|indents|, selected)[0])
  {
    hide *;
    var at := Members(|indents|, selected)[0];
    forall j | 0 <= j <= k ensures IsDeeper(indent, at, j) { DeeperThanHeader(order, indent, indents, selected, j); }
    AllDeeper(indent, at, k);
  }

  predicate IsDeeper(indent: seq<int>, at: nat, j: nat) { at + 1 + j < |indent| && indent[at + 1 + j] > indent[at] }

  lemma {:induction false} AllDeeper(indent: seq<int>, at: nat, k: nat)
    requires forall j: nat :: j <= k ==> IsDeeper(indent, at, j)
    ensures Descendant(indent, at + 1 + k, at)
  {
    assert IsDeeper(indent, at, k);
    forall j | at < j <= at + 1 + k ensures indent[j] > indent[at] { assert IsDeeper(indent, at, j - at - 1); }
  }

  lemma {:induction false} DeeperThanHeader(order: seq<int>, indent: seq<int>, indents: seq<int>, selected: seq<nat>, k: nat)
    requires Groups(order, |indents|, selected) && k < |Members(|indents|, selected)|
    requires GroupIndents(order, indent, indents, selected, MinIndent(indents, Members(|indents|, selected)))
    ensures IsDeeper(indent, Members(|indents|, selected)[0], k)
  {
    hide *;
    var m := Members(|indents|, selected);
    var header := MinIndent(indents, m);
    GroupAt(order, indent, indents, selected, k, header);
    MemberIndent(indents, selected, m, k, header);
    Deeper(indent, m[0], k);
  }

  lemma {:induction false} Deeper(indent: seq<int>, at: nat, k: nat)
    requires at + 1 + k < |indent| && indent[at + 1 + k] > indent[at]
    ensures IsDeeper(indent, at, k)
  {
  }

  lemma {:induction false} GroupAt(order: seq<int>, indent: seq<int>, indents: seq<int>, selected: seq<nat>, k: nat, header: int)
    requires Groups(order, |indents|, selected) && k < |Members(|indents|, selected)|
    requires GroupIndents(order, indent, indents, selected, header)
    ensures var m := Members(|indents|, selected);
            && m[0] + 1 + k < |order| == |indent| && order[m[0] + 1 + k] == m[k]
            && indent[m[0] + 1 + k] == NewIndent(m[k], indents, selected, header) && indent[m[0]] == header
  {
    hide Members;
  }

  lemma {:induction false} MemberIndent(indents: seq<int>, selected: seq<nat>, m: seq<nat>, k: nat, header: int)
    requires m == Members(|indents|, selected) && k < |m| && header == MinIndent(indents, m)
    ensures NewIndent(m[k], indents, selected, header) > header
  {
    hide Members, MinIndent;
  }

  // ------------------------------------------------ who is under whom after grouping

  /** What stands where: the header, `m` below it, then the rows that are not selected. */
  ghost predicate GroupedInto(order: seq<int>, indent: seq<int>, indents: seq<int>, selected: seq<nat>, m: seq<nat>, header: int)
  {
    && Groups(order, |indents|, selected) && m == Members(|indents|, selected) && header == MinIndent(indents, m)
    && GroupIndents(order, indent, indents, selected, header)
  }

  lemma {:induction false} MemberStands(order: seq<int>, indent: seq<int>, indents: seq<int>, selected: seq<nat>, m: seq<nat>, header: int, k: nat)
    requires GroupedInto(order, indent, indents, selected, m, header) && k < |m|
    ensures m[k] < |indents| && m[k] in selected && m[0] + |m| < |order| == |indent|
    ensures indent[m[0]] == header && indent[m[0] + 1 + k] == indents[m[k]] + 1 > header
  {
    hide *;
    GroupedParts(order, indent, indents, selected, m, header);
    MemberIsSelected(indents, selected, m, k);
    GroupAt(order, indent, indents, selected, k, header);
    GroupAt(order, indent, indents, selected, |m| - 1, header);
    MemberIndent(indents, selected, m, k, header);
    SelectedGoesDeeper(m[k], indents, selected, header);
  }

  lemma {:induction false} GroupedParts(order: seq<int>, indent: seq<int>, indents: seq<int>, selected: seq<nat>, m: seq<nat>, header: int)
    requires GroupedInto(order, indent, indents, selected, m, header)
    ensures Groups(order, |indents|, selected) && m == Members(|indents|, selected) && m != [] && header == MinIndent(indents, m)
    ensures GroupIndents(order, indent, indents, selected, header)
  {
    hide Members, MinIndent;
  }

  lemma {:induction false} MemberIsSelected(indents: seq<int>, selected: seq<nat>, m: seq<nat>, k: nat)
    requires m == Members(|indents|, selected) && k < |m|
    ensures m[k] < |indents| && m[k] in selected
  {
    hide Members;
  }

  lemma {:induction false} SelectedGoesDeeper(row: nat, indents: seq<int>, selected: seq<nat>, header: int)
    requires row < |indents| && row in selected
    ensures NewIndent(row, indents, selected, header) == indents[row] + 1
  {
  }

  /** A row after the members: where it stands, and which rows stand between. */
  lemma {:induction false} OtherStands(order: seq<int>, indent: seq<int>, indents: seq<int>, selected: seq<nat>, m: seq<nat>, header: int, p: nat)
    requires GroupedInto(order, indent, indents, selected, m, header) && m != [] && m[0] + |m| < p < |order|
    ensures |order| == |indent| && m[0] <= order[p] < |indents| && order[p] !in selected && indent[p] == indents[order[p]]
    ensures forall q :: m[0] + |m| < q < p ==> order[q] < order[p]
  {
    var tail := order[m[0] + 1 + |m|..];
    assert forall q :: m[0] + |m| < q < |order| ==> order[q] == tail[q - m[0] - 1 - |m|];
    assert order[p] in tail;
    hide Members, MinIndent;
  }

  /** Every row that is not selected stands after the members, if not before the header. */
  lemma {:induction false} OtherAt(order: seq<int>, indent: seq<int>, indents: seq<int>, selected: seq<nat>, m: seq<nat>, header: int, y: nat)
    returns (q: nat)
    requires GroupedInto(order, indent, indents, selected, m, header) && m != [] && m[0] <= y < |indents| && y !in selected
    ensures m[0] + |m| < q < |order| && order[q] == y
  {
    hide Members, MinIndent;
    var tail := order[m[0] + 1 + |m|..];
    assert y as int in tail;
    var t :| 0 <= t < |tail| && tail[t] == y;
    q := m[0] + 1 + |m| + t;
  }

  /** Which other rows come under the new header: those with no row that is not selected, from the place
      of the header up to them, as shallow as the header. A row before the header never does. */
  lemma {:induction false} UnderHeaderExactly(order: seq<int>, indent: seq<int>, indents: seq<int>, selected: seq<nat>, m: seq<nat>, header: int, p: nat)
    requires GroupedInto(order, indent, indents, selected, m, header) && m != [] && m[0] + |m| < p < |order|
    ensures |order| == |indent|
    ensures Descendant(indent, p, m[0]) <==>
      forall y :: m[0] <= y <= order[p] && y < |indents| && y !in selected ==> indents[y] > header
  {
    hide GroupedInto;
    MemberStands(order, indent, indents, selected, m, header, 0);
    OtherStands(order, indent, indents, selected, m, header, p);
    if Descendant(indent, p, m[0]) {
      forall y | m[0] <= y <= order[p] && y < |indents| && y !in selected ensures indents[y] > header {
        var q := OtherAt(order, indent, indents, selected, m, header, y);
        OtherStands(order, indent, indents, selected, m, header, q);
        assert q <= p;
      }
    }
    if forall y :: m[0] <= y <= order[p] && y < |indents| && y !in selected ==> indents[y] > header {
      forall j | m[0] < j <= p ensures indent[j] > indent[m[0]] {
        if j <= m[0] + |m| {
          MemberStands(order, indent, indents, selected, m, header, j - m[0] - 1);
        } else {
          OtherStands(order, indent, indents, selected, m, header, j);
        }
      }
    }
  }

  /** The members' nesting after grouping: one is under another when all members from there to it were deeper. */
  lemma {:induction false} MemberNesting(order: seq<int>, indent: seq<int>, indents: seq<int>, selected: seq<nat>, m: seq<nat>, header: int, i: nat, k: nat)
    requires GroupedInto(order, indent, indents, selected, m, header) && i < k < |m|
    ensures |order| == |indent| && m[0] + |m| < |order| && forall j :: 0 <= j < |m| ==> m[j] < |indents|
    ensures Descendant(indent, m[0] + 1 + k, m[0] + 1 + i) <==> forall j :: i < j <= k ==> indents[m[j]] > indents[m[i]]
  {
    forall j | 0 <= j < |m| ensures m[j] < |indents| && indent[m[0] + 1 + j] == indents[m[j]] + 1 {
      MemberStands(order, indent, indents, selected, m, header, j);
    }
    MemberStands(order, indent, indents, selected, m, header, 0);
    hide GroupedInto;
    if Descendant(indent, m[0] + 1 + k, m[0] + 1 + i) {
      forall j | i < j <= k ensures indents[m[j]] > indents[m[i]] { assert indent[m[0] + 1 + j] > indent[m[0] + 1 + i]; }
    }
    if forall j :: i < j <= k ==> indents[m[j]] > indents[m[i]] {
      forall j | m[0] + 1 + i < j <= m[0] + 1 + k ensures indent[j] > indent[m[0] + 1 + i] {
        assert indents[m[j - m[0] - 1]] > indents[m[i]];
      }
    }
  }

  /** The rows from one member to another are the members between them and rows that are not selected. */
  lemma {:induction false} OldNesting(indents: seq<int>, selected: seq<nat>, m: seq<nat>, i: nat, k: nat)
    requires m == Members(|indents|, selected) && i < k < |m|
    ensures m[i] < m[k] < |indents|
    ensures forall j :: 0 <= j < |m| ==> m[j] < |indents|
    ensures Descendant(indents, m[k], m[i]) <==>
      && (forall j :: i < j <= k ==> indents[m[j]] > indents[m[i]])
      && (forall y :: m[i] < y < m[k] && y !in selected ==> indents[y] > indents[m[i]])
  {
    hide Members;
    forall y | m[i] < y <= m[k] && y in selected ensures exists j :: i < j <= k && m[j] == y { BetweenMembers(indents, selected, m, i, k, y); }
    if Descendant(indents, m[k], m[i]) {
      forall j | i < j <= k ensures indents[m[j]] > indents[m[i]] { assert m[i] < m[j] <= m[k]; }
    } else if (forall j :: i < j <= k ==> indents[m[j]] > indents[m[i]]) && forall y :: m[i] < y < m[k] && y !in selected ==> indents[y] > indents[m[i]] {
      forall y | m[i] < y <= m[k] ensures indents[y] > indents[m[i]] {
        if y in selected { var j :| i < j <= k && m[j] == y; }
      }
    }
  }

  lemma {:induction false} BetweenMembers(indents: seq<int>, selected: seq<nat>, m: seq<nat>, i: nat, k: nat, y: nat)
    requires m == Members(|indents|, selected) && i < k < |m| && m[i] < y <= m[k] && y in selected
    ensures exists j :: i < j <= k && m[j] == y
  {
    hide Members;
    assert m[k] in m;
    assert y in m;
    var j :| 0 <= j < |m| && m[j] == y;
  }

  /** No member loses a member above it, and the nesting of two members stays as it was exactly when no
      shallow row that is not selected stood between them. */
  lemma {:induction false} NestingKept(order: seq<int>, indent: seq<int>, indents: seq<int>, selected: seq<nat>, m: seq<nat>, header: int, i: nat, k: nat)
    requires GroupedInto(order, indent, indents, selected, m, header) && i < k < |m|
    ensures |order| == |indent| && m[0] + |m| < |order| && forall j :: 0 <= j < |m| ==> m[j] < |indents|
    ensures Descendant(indents, m[k], m[i]) ==> Descendant(indent, m[0] + 1 + k, m[0] + 1 + i)
    ensures (Descendant(indent, m[0] + 1 + k, m[0] + 1 + i) <==> Descendant(indents, m[k], m[i])) <==>
      ((forall j :: i < j <= k ==> indents[m[j]] > indents[m[i]]) ==>
         forall y :: m[i] < y < m[k] && y !in selected ==> indents[y] > indents[m[i]])
  {
    MemberNesting(order, indent, indents, selected, m, header, i, k);
    OldNesting(indents, selected, m, i, k);
    hide GroupedInto, Descendant;
  }

  /** A selection of neighbours keeps its nesting, whatever is around it. */
  lemma {:induction false} NeighboursKeepNesting(order: seq<int>, indent: seq<int>, indents: seq<int>, selected: seq<nat>, m: seq<nat>, header: int, i: nat, k: nat)
    requires GroupedInto(order, indent, indents, selected, m, header) && i < k < |m|
    requires forall y :: m[i] < y < m[k] ==> y in selected
    ensures |order| == |indent| && m[0] + |m| < |order| && m[i] < |indents| && m[k] < |indents|
    ensures Descendant(indent, m[0] + 1 + k, m[0] + 1 + i) <==> Descendant(indents, m[k], m[i])
  {
    NestingKept(order, indent, indents, selected, m, header, i, k);
    hide GroupedInto, Descendant;
  }

  /** Rows 0 and 3 are grouped, and row 1 that was under row 0 ends up under the header, though it was not
      selected; and row 3 ends up under row 0, where it was not. */
  lemma {:induction false} GroupingReparents()
    ensures var indents, selected: seq<nat> := [0, 1, 0, 1], [0, 3];
            var order, indent := [-1, 0, 3, 1, 2], [0, 1, 2, 1, 0];
            && GroupedInto(order, indent, indents, selected, [0, 3], 0)
            && Descendant(indent, 3, 0) && Descendant(indent, 2, 1) && !Descendant(indents, 3, 0)
  {
    FirstAndLast();
    FirstAndLastGrouped();
    FirstAndLastIndents();
    hide Members, MinIndent, Groups, GroupIndents;
    var indents: seq<int>, selected: seq<nat>, m: seq<nat> := [0, 1, 0, 1], [0, 3], [0, 3];
    var order: seq<int>, indent: seq<int> := [-1, 0, 3, 1, 2], [0, 1, 2, 1, 0];
    assert GroupedInto(order, indent, indents, selected, m, 0);
    assert indents[2] <= indents[0];
  }

  lemma {:induction false} FirstAndLastGrouped()
    ensures Groups([-1, 0, 3, 1, 2], 4, [0, 3])
  {
    FirstAndLast();
    hide Members;
    var order: seq<int>, selected: seq<nat> := [-1, 0, 3, 1, 2], [0, 3];
    assert order[3..] == [1, 2];
    forall x ensures x in order[3..] <==> 0 <= x < 4 && x !in selected {}
  }

  lemma {:induction false} FirstAndLastIndents()
    ensures MinIndent([0, 1, 0, 1], [0, 3]) == 0
    ensures GroupIndents([-1, 0, 3, 1, 2], [0, 1, 2, 1, 0], [0, 1, 0, 1], [0, 3], 0)
  {
    assert [0, 3][..1] == [0];
    hide MinIndent;
  }

  lemma {:induction false} FirstAndLast()
    ensures Members(4, [0, 3]) == [0, 3]
  {
    var selected: seq<nat> := [0, 3];
    assert Members(0, selected) == [];
    assert Members(1, selected) == [] + [0] == [0];
    assert Members(2, selected) == [0] && Members(3, selected) == [0];
    assert Members(4, selected) == [0] + [3];
  }
}
