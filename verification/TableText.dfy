/** core/ct_file.cpp: the marked-up text of the entry lists, as tokens. */
module TableTexts {
  import opened Memory
  import opened TableForests
  import opened TableRoundTrips

  /** `Own` stands for an entry's own elements: its id and everything else. */
  datatype Token = EntryOpen | EntryClose | ListOpen | ListClose | Own(id: int, fields: string)

  // ------------------------------------------------------------------- writing

  /** A written entry's own elements; only positions of entries are ever written. */
  function OwnOf(es: seq<Entry>, i: nat): Token
  {
    if i < |es| then Own(es[i].id, es[i].fields) else Own(-1, "")
  }

  function Printed(es: seq<Entry>, nodes: seq<Node>): seq<Token>
    decreases nodes
  {
    if nodes == [] then [] else PrintedNode(es, nodes[0]) + Printed(es, nodes[1..])
  }

  function PrintedNode(es: seq<Entry>, n: Node): seq<Token>
    decreases n
  {
    [EntryOpen, OwnOf(es, n.index)] + (if n.list then [ListOpen] + Printed(es, n.kids) + [ListClose] else []) + [EntryClose]
  }

  /** The list of all entries as the writer leaves it. */
  function TextOf(es: seq<Entry>): seq<Token>
  {
    [ListOpen] + Printed(es, Saved(es)) + [ListClose]
  }

  lemma {:induction false} PrintedConcat(es: seq<Entry>, a: seq<Node>, b: seq<Node>)
    ensures Printed(es, a + b) == Printed(es, a) + Printed(es, b)
  {
    hide PrintedNode;
    if a == [] {
      assert a + b == b;
    } else {
      PrintedConcat(es, a[1..], b);
      assert (a + b)[1..] == a[1..] + b;
    }
  }

  lemma {:induction false} PrintedOne(es: seq<Entry>, n: Node)
    ensures Printed(es, [n]) == PrintedNode(es, n)
  {
    assert [n][1..] == [] && PrintedNode(es, n) + [] == PrintedNode(es, n);
  }

  /** One more entry at the end of a list is written after the rest. */
  lemma {:induction false} WriteOneMore(es: seq<Entry>, done: set<nat>, list: seq<nat>, i: nat, depth: nat)
    requires depth < MAX_DEPTH && Below(list, |es|) && i < |es|
    ensures Below(list + [i], |es|)
    ensures var w := WriteAll(es, done, list, depth);
            var e := WriteEntry(es, w.done, i, depth);
            WriteAll(es, done, list + [i], depth) == Walk(w.nodes + e.nodes, e.done)
    decreases list
  {
    hide WriteEntry;
    if list == [] {
      assert [i][1..] == [];
    } else {
      var first := WriteEntry(es, done, list[0], depth);
      WriteOneMore(es, first.done, list[1..], i, depth);
      assert (list + [i])[1..] == list[1..] + [i];
    }
  }

  lemma {:induction false} EntryStep(es: seq<Entry>, done: set<nat>, i: nat, depth: nat)
    requires i < |es| && depth < MAX_DEPTH && i !in done
    ensures ChildrenOf(es, i) != [] && depth + 1 < MAX_DEPTH ==>
      var inner := WriteAll(es, done + {i}, ChildrenOf(es, i), depth + 1);
      && WriteEntry(es, done, i, depth) == Walk([Node(i, true, inner.nodes)], inner.done)
      && PrintedNode(es, Node(i, true, inner.nodes))
        == [EntryOpen, OwnOf(es, i)] + ([ListOpen] + Printed(es, inner.nodes) + [ListClose]) + [EntryClose]
    ensures !(ChildrenOf(es, i) != [] && depth + 1 < MAX_DEPTH) ==>
      WriteEntry(es, done, i, depth) == Walk([Node(i, false, [])], done + {i})
    ensures PrintedNode(es, Node(i, false, [])) == [EntryOpen, OwnOf(es, i)] + [EntryClose]
  {
  }

  /** Each entry's children and whether it is one, from one pass over the ids and one over the
      entries. */
  method LinkChildren(es: seq<Entry>) returns (children: seq<seq<nat>>, isChild: seq<bool>)
    ensures |children| == |isChild| == |es|
    ensures forall j :: 0 <= j < |es| ==> children[j] == ChildrenOf(es, j)
    ensures forall i :: 0 <= i < |es| ==> (isChild[i] <==> ParentOf(es, i).Some?)
  {
    var idToIndex: map<int, nat> := map[];
    for i := 0 to |es|
      invariant forall id :: id in idToIndex <==> IndexOfId(es[..i], id).Some?
      invariant forall id :: id in idToIndex ==> IndexOfId(es[..i], id) == Some(idToIndex[id])
    {
      assert es[..i + 1][..i] == es[..i];
      if es[i].id !in idToIndex { idToIndex := idToIndex[es[i].id := i]; }
    }
    assert es[..|es|] == es;
    children, isChild := seq(|es|, j => []), seq(|es|, j => false);
    for i := 0 to |es|
      invariant |children| == |isChild| == |es|
      invariant forall j :: 0 <= j < |es| ==> children[j] == ChildrenUpTo(es, j, i)
      invariant forall k :: 0 <= k < i ==> (isChild[k] <==> ParentOf(es, k).Some?)
      invariant forall k :: i <= k < |es| ==> !isChild[k]
    {
      var p := es[i].parentId;
      if p != -1 && p in idToIndex && idToIndex[p] != i {
        FoundHasId(es, p);
        children := children[idToIndex[p] := children[idToIndex[p]] + [i]];
        isChild := isChild[i := true];
      }
    }
  }

  class TableWriter {
    const es: seq<Entry>
    const children: seq<seq<nat>>
    const done: array<bool>
    var text: seq<Token>

    ghost predicate Valid() {
      done.Length == |es| == |children| && forall j :: 0 <= j < |es| ==> children[j] == ChildrenOf(es, j)
    }

    ghost function Done(): set<nat>
      reads done
    {
      set i: nat | i < done.Length && done[i]
    }

    constructor (es: seq<Entry>, children: seq<seq<nat>>)
      requires |children| == |es| && forall j :: 0 <= j < |es| ==> children[j] == ChildrenOf(es, j)
      ensures Valid() && fresh(done) && this.es == es && text == [] && Done() == {}
    {
      this.es, this.children, text := es, children, [];
      done := new bool[|es|](i => false);
    }

    method WriteEntry(i: nat, depth: nat)
      requires Valid() && i < |es| && depth < MAX_DEPTH
      modifies this, done
      ensures Valid()
      ensures Done() == TableForests.WriteEntry(es, old(Done()), i, depth).done
      ensures text == old(text) + Printed(es, TableForests.WriteEntry(es, old(Done()), i, depth).nodes)
      decreases MAX_DEPTH - depth, 0
    {
      hide Printed, PrintedNode, ChildrenOf;
      if done[i] {
        assert i in Done();
        NothingPrinted(es, text);
        return;
      }
      assert i !in Done();
      EntryStep(es, Done(), i, depth);
      done[i] := true;
      ghost var now := Done();
      assert now == old(Done()) + {i};
      text := text + [EntryOpen, Own(es[i].id, es[i].fields)];
      if children[i] != [] && depth + 1 < MAX_DEPTH {
        assert children[i] == ChildrenOf(es, i);
        ghost var inner := WriteAll(es, now, ChildrenOf(es, i), depth + 1);
        text := text + [ListOpen];
        assert Done() == now;
        WriteList(children[i], depth + 1);
        assert Done() == inner.done;
        text := text + [ListClose];
        assert Walk([Node(i, true, inner.nodes)], inner.done) == TableForests.WriteEntry(es, old(Done()), i, depth);
        PrintedOne(es, Node(i, true, inner.nodes));
      } else {
        PrintedOne(es, Node(i, false, []));
      }
      text := text + [EntryClose];
    }

    /** The loop over a list of entries. */
    method WriteList(list: seq<nat>, depth: nat)
      requires Valid() && Below(list, |es|) && depth < MAX_DEPTH
      modifies this, done
      ensures Valid()
      ensures Done() == WriteAll(es, old(Done()), list, depth).done
      ensures text == old(text) + Printed(es, WriteAll(es, old(Done()), list, depth).nodes)
      decreases MAX_DEPTH - depth, 1
    {
      hide Printed, ChildrenOf;
      NothingPrinted(es, text);
      for k := 0 to |list|
        invariant Valid()
        invariant Done() == WriteAll(es, old(Done()), list[..k], depth).done
        invariant text == old(text) + Printed(es, WriteAll(es, old(Done()), list[..k], depth).nodes)
      {
        ghost var w := WriteAll(es, old(Done()), list[..k], depth);
        ghost var e := TableForests.WriteEntry(es, w.done, list[k], depth);
        WriteEntry(list[k], depth);
        WriteOneMore(es, old(Done()), list[..k], list[k], depth);
        PrintedConcat(es, w.nodes, e.nodes);
        assert list[..k + 1] == list[..k] + [list[k]];
      }
      assert list[..|list|] == list;
    }
  }

  lemma {:induction false} NothingPrinted(es: seq<Entry>, text: seq<Token>)
    ensures text + Printed(es, []) == text
  {
  }

  /** The whole list of entries: the roots, then a sweep over what no root leads to. */
  method WriteTable(es: seq<Entry>) returns (text: seq<Token>)
    ensures text == TextOf(es)
  {
    hide WriteAll, WriteEntry, Printed, ParentOf, ChildrenOf;
    var children, isChild := LinkChildren(es);
    var writer := new TableWriter(es, children);
    writer.text := [ListOpen];
    WriteRoots(writer, isChild);
    ghost var roots := WriteAll(es, {}, RootsUpTo(es, |es|), 0);
    NothingWritten(es, roots.done, roots.nodes);
    for i := 0 to |es|
      invariant writer.Valid() && writer.es == es
      invariant writer.Done() == WriteAll(es, roots.done, All(|es|)[..i], 0).done
      invariant writer.text == [ListOpen] + Printed(es, roots.nodes + WriteAll(es, roots.done, All(|es|)[..i], 0).nodes)
    {
      assert All(|es|)[..i + 1] == All(|es|)[..i] + [i];
      WrittenNext(es, roots.done, All(|es|)[..i], i, roots.nodes);
      if !writer.done[i] {
        writer.WriteEntry(i, 0);
      } else {
        assert i in writer.Done();
        SkippedEntry(es, writer.Done(), i, writer.text);
      }
    }
    assert All(|es|)[..|es|] == All(|es|);
    text := writer.text + [ListClose];
  }

  method WriteRoots(writer: TableWriter, isChild: seq<bool>)
    requires writer.Valid() && writer.text == [ListOpen] && writer.Done() == {}
    requires |isChild| == |writer.es| && forall i :: 0 <= i < |isChild| ==> (isChild[i] <==> ParentOf(writer.es, i).Some?)
    modifies writer, writer.done
    ensures var w := WriteAll(writer.es, {}, RootsUpTo(writer.es, |writer.es|), 0);
            writer.Done() == w.done && writer.text == [ListOpen] + Printed(writer.es, w.nodes)
  {
    hide WriteAll, WriteEntry, Printed, ParentOf, ChildrenOf;
    ghost var es := writer.es;
    NothingWritten(es, {}, []);
    for i := 0 to |isChild|
      invariant writer.Done() == WriteAll(es, {}, RootsUpTo(es, i), 0).done
      invariant writer.text == [ListOpen] + Printed(es, WriteAll(es, {}, RootsUpTo(es, i), 0).nodes)
    {
      if !isChild[i] {
        WrittenNext(es, {}, RootsUpTo(es, i), i, []);
        assert RootsUpTo(es, i + 1) == RootsUpTo(es, i) + [i];
        NoneBefore(WriteAll(es, {}, RootsUpTo(es, i), 0).nodes);
        NoneBefore(WriteAll(es, {}, RootsUpTo(es, i + 1), 0).nodes);
        writer.WriteEntry(i, 0);
      } else {
        assert RootsUpTo(es, i + 1) == RootsUpTo(es, i);
      }
    }
  }

  lemma {:induction false} WrittenNext(es: seq<Entry>, done: set<nat>, list: seq<nat>, i: nat, before: seq<Node>)
    requires Below(list, |es|) && i < |es|
    ensures Below(list + [i], |es|)
    ensures var w := WriteAll(es, done, list, 0);
            var e := WriteEntry(es, w.done, i, 0);
            var next := WriteAll(es, done, list + [i], 0);
            && next.done == e.done
            && Printed(es, before + next.nodes) == Printed(es, before + w.nodes) + Printed(es, e.nodes)
  {
    var w := WriteAll(es, done, list, 0);
    var e := WriteEntry(es, w.done, i, 0);
    WriteOneMore(es, done, list, i, 0);
    PrintedConcat(es, before + w.nodes, e.nodes);
    assert before + w.nodes + e.nodes == before + (w.nodes + e.nodes);
  }

  lemma {:induction false} NothingWritten(es: seq<Entry>, done: set<nat>, before: seq<Node>)
    ensures WriteAll(es, done, [], 0) == Walk([], done)
    ensures before + WriteAll(es, done, [], 0).nodes == before && Printed(es, []) == []
  {
  }

  lemma {:induction false} NoneBefore(nodes: seq<Node>)
    ensures [] + nodes == nodes
  {
  }

  lemma {:induction false} SkippedEntry(es: seq<Entry>, done: set<nat>, i: nat, text: seq<Token>)
    requires i < |es| && i in done
    ensures WriteEntry(es, done, i, 0) == Walk([], done) && text + Printed(es, []) == text
  {
  }
}
