/**
  core/ct_file.cpp: saving the entries of a cheat table as nested lists. Parent links may dangle,
  repeat or form cycles; every entry is still written exactly once.
 */
module TableForests {
  import opened Memory

  const MAX_DEPTH: nat := 64

  /** An entry of a table; `fields` stands for all of its other fields. */
  datatype Entry = Entry(id: int, parentId: int, fields: string)

  /** A written entry, and the list nested in it if one was opened. */
  datatype Node = Node(index: nat, list: bool, kids: seq<Node>)

  predicate Below(s: seq<nat>, n: nat) { forall k :: 0 <= k < |s| ==> s[k] < n }

  // ------------------------------------------------------ parents and children

  /** The first entry with this id. */
  function IndexOfId(es: seq<Entry>, id: int): Option<nat>
  {
    if es == [] then None
    else
      var before := IndexOfId(es[..|es| - 1], id);
      if before.Some? then before else if es[|es| - 1].id == id then Some(|es| - 1) else None
  }

  lemma {:induction false} FirstWithId(es: seq<Entry>, id: int)
    ensures IndexOfId(es, id).None? ==> forall k :: 0 <= k < |es| ==> es[k].id != id
    ensures IndexOfId(es, id).Some? ==>
              var p := IndexOfId(es, id).value;
              p < |es| && es[p].id == id && forall k :: 0 <= k < p ==> es[k].id != id
  {
    if es != [] { FirstWithId(es[..|es| - 1], id); }
  }

  /** The entry `i` is nested in, if any. */
  function ParentOf(es: seq<Entry>, i: nat): Option<nat>
    requires i < |es|
  {
    if es[i].parentId == -1 then None
    else
      var p := IndexOfId(es, es[i].parentId);
      if p.Some? && p.value != i then p else None
  }

  /** The entries among the first `n` that are nested in `j`, in order. */
  function ChildrenUpTo(es: seq<Entry>, j: nat, n: nat): (cs: seq<nat>)
    requires n <= |es|
    ensures Below(cs, n)
  {
    if n == 0 then [] else ChildrenUpTo(es, j, n - 1) + (if ParentOf(es, n - 1) == Some(j) then [n - 1] else [])
  }

  function ChildrenOf(es: seq<Entry>, j: nat): (cs: seq<nat>)
    ensures Below(cs, |es|)
  {
    ChildrenUpTo(es, j, |es|)
  }

  /** An entry is nested in the first one that has its parent id, unless that is the entry itself or it
      names no parent; the children of an entry are in the order of the table. */
  lemma {:induction false} ParentMeans(es: seq<Entry>, i: nat, j: nat)
    requires i < |es|
    ensures ParentOf(es, i) == Some(j) <==>
            && j < |es| && j != i && es[i].parentId != -1 && es[j].id == es[i].parentId
            && forall k :: 0 <= k < j ==> es[k].id != es[i].parentId
    ensures i in ChildrenOf(es, j) <==> ParentOf(es, i) == Some(j)
    ensures forall a, b :: 0 <= a < b < |ChildrenOf(es, j)| ==> ChildrenOf(es, j)[a] < ChildrenOf(es, j)[b]
  {
    FirstWithId(es, es[i].parentId);
    ChildrenMean(es, j, |es|, i);
  }

  lemma {:induction false} ChildrenMean(es: seq<Entry>, j: nat, n: nat, i: nat)
    requires n <= |es|
    ensures i in ChildrenUpTo(es, j, n) <==> i < n && ParentOf(es, i) == Some(j)
    ensures forall a, b :: 0 <= a < b < |ChildrenUpTo(es, j, n)| ==> ChildrenUpTo(es, j, n)[a] < ChildrenUpTo(es, j, n)[b]
  {
    hide ParentOf;
    if n > 0 { ChildrenMean(es, j, n - 1, i); }
  }

  // --------------------------------------------------------------- the walk

  datatype Walk = Walk(nodes: seq<Node>, done: set<nat>)

  /** Write entry `i` unless it was written already, and inside it its children, as deep as the
      loader follows. */
  function WriteEntry(es: seq<Entry>, done: set<nat>, i: nat, depth: nat): Walk
    requires i < |es| && depth < MAX_DEPTH
    decreases MAX_DEPTH - depth, 0
  {
    if i in done then Walk([], done)
    else if ChildrenOf(es, i) != [] && depth + 1 < MAX_DEPTH then
      var inner := WriteAll(es, done + {i}, ChildrenOf(es, i), depth + 1);
      Walk([Node(i, true, inner.nodes)], inner.done)
    else Walk([Node(i, false, [])], done + {i})
  }

  function WriteAll(es: seq<Entry>, done: set<nat>, list: seq<nat>, depth: nat): Walk
    requires depth < MAX_DEPTH && Below(list, |es|)
    decreases MAX_DEPTH - depth, 1 + |list|
  {
    if list == [] then Walk([], done)
    else
      var first := WriteEntry(es, done, list[0], depth);
      var rest := WriteAll(es, first.done, list[1..], depth);
      Walk(first.nodes + rest.nodes, rest.done)
  }

  function RootsUpTo(es: seq<Entry>, n: nat): (r: seq<nat>)
    requires n <= |es|
    ensures Below(r, n)
  {
    if n == 0 then [] else RootsUpTo(es, n - 1) + (if ParentOf(es, n - 1).None? then [n - 1] else [])
  }

  function All(n: nat): (r: seq<nat>)
    ensures |r| == n && forall i :: 0 <= i < n ==> r[i] == i
  {
    seq(n, i => i)
  }

  /** The whole save: the roots, then whatever hangs in a cycle or too deep. */
  function Saved(es: seq<Entry>): seq<Node>
  {
    var roots := WriteAll(es, {}, RootsUpTo(es, |es|), 0);
    roots.nodes + WriteAll(es, roots.done, All(|es|), 0).nodes
  }

  // ------------------------------------------------- every entry exactly once

  /** The entries of a forest in the order they are written. */
  function Order(nodes: seq<Node>): seq<nat>
  {
    if nodes == [] then [] else [nodes[0].index] + Order(nodes[0].kids) + Order(nodes[1..])
  }

  function Height(nodes: seq<Node>): nat
  {
    if nodes == [] then 0 else Max(1 + Height(nodes[0].kids), Height(nodes[1..]))
  }

  predicate NoDuplicates(s: seq<nat>) { forall i, j :: 0 <= i < j < |s| ==> s[i] != s[j] }

  ghost predicate Fresh(before: set<nat>, w: Walk)
  {
    && NoDuplicates(Order(w.nodes))
    && (forall i :: i in Order(w.nodes) ==> i !in before)
    && w.done == before + (set i | i in Order(w.nodes))
  }

  lemma {:induction false} OrderFirst(nodes: seq<Node>)
    ensures Order([]) == []
    ensures nodes != [] ==> Order(nodes) == [nodes[0].index] + Order(nodes[0].kids) + Order(nodes[1..])
  {
  }

  lemma {:induction false} OrderConcat(a: seq<Node>, b: seq<Node>)
    ensures Order(a + b) == Order(a) + Order(b)
  {
    hide Order;
    OrderFirst(a);
    OrderFirst(a + b);
    if a == [] {
      assert a + b == b;
    } else {
      OrderConcat(a[1..], b);
      assert (a + b)[0] == a[0] && (a + b)[1..] == a[1..] + b;
    }
  }

  lemma {:induction false} HeightConcat(a: seq<Node>, b: seq<Node>)
    ensures Height(a + b) == Max(Height(a), Height(b))
  {
    if a == [] {
      assert a + b == b;
    } else {
      HeightConcat(a[1..], b);
      assert (a + b)[1..] == a[1..] + b;
    }
  }

  lemma {:induction false} FreshThen(before: set<nat>, a: Walk, b: Walk)
    requires Fresh(before, a) && Fresh(a.done, b)
    ensures Fresh(before, Walk(a.nodes + b.nodes, b.done))
  {
    OrderConcat(a.nodes, b.nodes);
    var x, y := Order(a.nodes), Order(b.nodes);
    forall i, j | 0 <= i < j < |x + y| ensures (x + y)[i] != (x + y)[j] {
      if i < |x| <= j {
        assert x[i] in x && y[j - |x|] in y;
      }
    }
  }

  lemma {:induction false} FreshNode(before: set<nat>, i: nat, list: bool, inner: Walk)
    requires i !in before && Fresh(before + {i}, inner)
    ensures Fresh(before, Walk([Node(i, list, inner.nodes)], inner.done))
  {
    var nodes := [Node(i, list, inner.nodes)];
    assert nodes[1..] == [];
    assert Order(nodes) == [i] + Order(inner.nodes);
  }

  lemma {:induction false} EntryWalk(es: seq<Entry>, done: set<nat>, i: nat, depth: nat)
    requires i < |es| && depth < MAX_DEPTH
    ensures var w := WriteEntry(es, done, i, depth);
            Fresh(done, w) && i in w.done && depth + Height(w.nodes) <= MAX_DEPTH
    decreases MAX_DEPTH - depth, 0
  {
    if i !in done {
      if ChildrenOf(es, i) != [] && depth + 1 < MAX_DEPTH {
        ListWalk(es, done + {i}, ChildrenOf(es, i), depth + 1);
        FreshNode(done, i, true, WriteAll(es, done + {i}, ChildrenOf(es, i), depth + 1));
      } else {
        FreshNode(done, i, false, Walk([], done + {i}));
      }
    }
  }

  lemma {:induction false} ListWalk(es: seq<Entry>, done: set<nat>, list: seq<nat>, depth: nat)
    requires depth < MAX_DEPTH && Below(list, |es|)
    ensures var w := WriteAll(es, done, list, depth);
            Fresh(done, w) && (forall k :: 0 <= k < |list| ==> list[k] in w.done) && depth + Height(w.nodes) <= MAX_DEPTH
    decreases MAX_DEPTH - depth, 1 + |list|
  {
    if list != [] {
      var first := WriteEntry(es, done, list[0], depth);
      var rest := WriteAll(es, first.done, list[1..], depth);
      EntryWalk(es, done, list[0], depth);
      ListWalk(es, first.done, list[1..], depth);
      FreshThen(done, first, rest);
      HeightConcat(first.nodes, rest.nodes);
      forall k | 0 <= k < |list| ensures list[k] in rest.done {
        if k > 0 { assert list[1..][k - 1] == list[k]; }
      }
    }
  }

  /** Whatever the parent links are, every entry is written exactly once, and no deeper than the
      loader reads. */
  lemma {:induction false} SavedExactlyOnce(es: seq<Entry>)
    ensures NoDuplicates(Order(Saved(es)))
    ensures forall i: nat :: i in Order(Saved(es)) <==> i < |es|
    ensures Height(Saved(es)) <= 64
  {
    var roots := WriteAll(es, {}, RootsUpTo(es, |es|), 0);
    var rest := WriteAll(es, roots.done, All(|es|), 0);
    ListWalk(es, {}, RootsUpTo(es, |es|), 0);
    ListWalk(es, roots.done, All(|es|), 0);
    FreshThen({}, roots, rest);
    HeightConcat(roots.nodes, rest.nodes);
    OnlyEntries(es, {}, RootsUpTo(es, |es|), 0);
    OnlyEntries(es, roots.done, All(|es|), 0);
    OrderConcat(roots.nodes, rest.nodes);
    forall i: nat | i < |es| ensures i in Order(Saved(es)) {
      assert All(|es|)[i] in rest.done;
    }
  }

  lemma {:induction false} OnlyEntries(es: seq<Entry>, done: set<nat>, list: seq<nat>, depth: nat)
    requires depth < MAX_DEPTH && Below(list, |es|)
    ensures Below(Order(WriteAll(es, done, list, depth).nodes), |es|)
    decreases MAX_DEPTH - depth, 1 + |list|
  {
    hide Order;
    OrderFirst([]);
    if list != [] {
      var first := WriteEntry(es, done, list[0], depth);
      OrderFirst(first.nodes);
      OnlyEntries(es, first.done, list[1..], depth);
      OrderConcat(first.nodes, WriteAll(es, first.done, list[1..], depth).nodes);
      if list[0] !in done {
        assert first.nodes[1..] == [];
        if first.nodes[0].list { OnlyEntries(es, done + {list[0]}, ChildrenOf(es, list[0]), depth + 1); }
      }
    }
  }

  /** In every nested list, only children of the entry that it is nested in. */
  ghost predicate UnderParents(es: seq<Entry>, nodes: seq<Node>)
  {
    nodes == [] ||
    (&& (forall k :: 0 <= k < |nodes[0].kids| ==>
           nodes[0].kids[k].index < |es| && ParentOf(es, nodes[0].kids[k].index) == Some(nodes[0].index))
     && UnderParents(es, nodes[0].kids) && UnderParents(es, nodes[1..]))
  }

  lemma {:induction false} UnderParentsConcat(es: seq<Entry>, a: seq<Node>, b: seq<Node>)
    requires UnderParents(es, a) && UnderParents(es, b)
    ensures UnderParents(es, a + b)
  {
    hide ParentOf;
    if a == [] {
      assert a + b == b;
    } else {
      UnderParentsConcat(es, a[1..], b);
      assert (a + b)[1..] == a[1..] + b;
    }
  }

  lemma {:induction false} OneUnder(es: seq<Entry>, n: Node)
    requires UnderParents(es, n.kids)
    requires forall k :: 0 <= k < |n.kids| ==> n.kids[k].index < |es| && ParentOf(es, n.kids[k].index) == Some(n.index)
    ensures UnderParents(es, [n])
  {
    hide ParentOf;
    assert [n][1..] == [];
  }

  lemma {:induction false} NoneUnder(es: seq<Entry>)
    ensures UnderParents(es, [])
  {
  }

  lemma {:induction false} EntryUnder(es: seq<Entry>, done: set<nat>, i: nat, depth: nat)
    requires i < |es| && depth < MAX_DEPTH
    ensures var nodes := WriteEntry(es, done, i, depth).nodes;
            UnderParents(es, nodes) && forall k :: 0 <= k < |nodes| ==> nodes[k].index == i
    decreases MAX_DEPTH - depth, 0
  {
    hide ParentOf, ChildrenOf, UnderParents;
    NoneUnder(es);
    if i !in done {
      var kids := ChildrenOf(es, i);
      if kids != [] && depth + 1 < MAX_DEPTH {
        WrittenUnder(es, done + {i}, kids, depth + 1);
        var inner := WriteAll(es, done + {i}, kids, depth + 1).nodes;
        forall k | 0 <= k < |inner| ensures inner[k].index < |es| && ParentOf(es, inner[k].index) == Some(i) {
          ChildHere(es, i, inner[k].index);
        }
        OneUnder(es, Node(i, true, inner));
      } else {
        OneUnder(es, Node(i, false, []));
      }
    }
  }

  /** The top of a written list is made of entries of that list. */
  lemma {:induction false} WrittenUnder(es: seq<Entry>, done: set<nat>, list: seq<nat>, depth: nat)
    requires depth < MAX_DEPTH && Below(list, |es|)
    ensures var nodes := WriteAll(es, done, list, depth).nodes;
            UnderParents(es, nodes) && forall k :: 0 <= k < |nodes| ==> nodes[k].index in list
    decreases MAX_DEPTH - depth, 1 + |list|
  {
    hide ParentOf, ChildrenOf, UnderParents, WriteEntry;
    NoneUnder(es);
    if list != [] {
      var first := WriteEntry(es, done, list[0], depth);
      EntryUnder(es, done, list[0], depth);
      WrittenUnder(es, first.done, list[1..], depth);
      UnderParentsConcat(es, first.nodes, WriteAll(es, first.done, list[1..], depth).nodes);
    }
  }

  lemma {:induction false} ChildHere(es: seq<Entry>, j: nat, i: nat)
    requires i in ChildrenOf(es, j)
    ensures i < |es| && ParentOf(es, i) == Some(j)
  {
    ChildrenMean(es, j, |es|, i);
  }

  /** Whatever the parent links are, what is nested in an entry names it as its parent. */
  lemma {:induction false} SavedUnderParents(es: seq<Entry>)
    ensures UnderParents(es, Saved(es))
  {
    var roots := WriteAll(es, {}, RootsUpTo(es, |es|), 0);
    WrittenUnder(es, {}, RootsUpTo(es, |es|), 0);
    WrittenUnder(es, roots.done, All(|es|), 0);
    UnderParentsConcat(es, roots.nodes, WriteAll(es, roots.done, All(|es|), 0).nodes);
  }

  predicate Ascending(s: seq<nat>) { forall i, j :: 0 <= i < j < |s| ==> s[i] < s[j] }

  function Tops(nodes: seq<Node>): seq<nat>
  {
    seq(|nodes|, k requires 0 <= k < |nodes| => nodes[k].index)
  }

  lemma {:induction false} RootsAre(es: seq<Entry>, n: nat)
    requires n <= |es|
    ensures Ascending(RootsUpTo(es, n))
    ensures forall i :: i in RootsUpTo(es, n) <==> 0 <= i < n && ParentOf(es, i).None?
  {
    hide ParentOf;
    if n > 0 { RootsAre(es, n - 1); }
  }

  /** On top of a written list are the entries of the list that were not written before, in its order,
      if none of them is under another. */
  lemma {:induction false} TopsOf(es: seq<Entry>, done: set<nat>, list: seq<nat>, depth: nat)
    requires depth < MAX_DEPTH && Below(list, |es|) && Ascending(list)
    ensures Ascending(Tops(WriteAll(es, done, list, depth).nodes))
    ensures forall i :: i in Tops(WriteAll(es, done, list, depth).nodes) ==> i in list
    decreases list
  {
    hide WriteEntry;
    if list != [] {
      var first := WriteEntry(es, done, list[0], depth);
      EntryTop(es, done, list[0], depth);
      TopsOf(es, first.done, list[1..], depth);
      var rest := WriteAll(es, first.done, list[1..], depth).nodes;
      assert Tops(first.nodes + rest) == Tops(first.nodes) + Tops(rest);
      forall k | 0 <= k < |rest| ensures Tops(rest)[k] > list[0] {
        assert Tops(rest)[k] in list[1..];
        var j :| 0 <= j < |list[1..]| && list[1..][j] == Tops(rest)[k];
        assert list[j + 1] > list[0];
      }
    }
  }

  lemma {:induction false} EntryTop(es: seq<Entry>, done: set<nat>, i: nat, depth: nat)
    requires i < |es| && depth < MAX_DEPTH
    ensures var w := WriteEntry(es, done, i, depth);
            Tops(w.nodes) == (if i in done then [] else [i])
  {
    hide ChildrenOf;
  }

  ghost predicate HasParent(es: seq<Entry>, i: nat) { i < |es| && ParentOf(es, i).Some? }

  /** What is written besides an entry hangs somewhere under one. */
  lemma {:induction false} NewUnderEntry(es: seq<Entry>, done: set<nat>, i: nat, depth: nat)
    requires i < |es| && depth < MAX_DEPTH
    ensures forall j :: j in WriteEntry(es, done, i, depth).done ==> j in done || j == i || HasParent(es, j)
    decreases MAX_DEPTH - depth, 0
  {
    hide ParentOf, ChildrenOf, HasParent;
    if i !in done && ChildrenOf(es, i) != [] && depth + 1 < MAX_DEPTH {
      NewUnderList(es, done + {i}, ChildrenOf(es, i), depth + 1);
      forall j | j in ChildrenOf(es, i) ensures HasParent(es, j) { ChildHasParent(es, i, j); }
    }
  }

  lemma {:induction false} ChildHasParent(es: seq<Entry>, j: nat, i: nat)
    requires i in ChildrenOf(es, j)
    ensures HasParent(es, i)
  {
    ChildHere(es, j, i);
  }

  lemma {:induction false} NewUnderList(es: seq<Entry>, done: set<nat>, list: seq<nat>, depth: nat)
    requires depth < MAX_DEPTH && Below(list, |es|)
    ensures forall j :: j in WriteAll(es, done, list, depth).done ==> j in done || j in list || HasParent(es, j)
    decreases MAX_DEPTH - depth, 1 + |list|
  {
    hide WriteEntry, HasParent;
    if list != [] {
      NewUnderEntry(es, done, list[0], depth);
      NewUnderList(es, WriteEntry(es, done, list[0], depth).done, list[1..], depth);
    }
  }

  lemma {:induction false} RootsOnTop(es: seq<Entry>, done: set<nat>, list: seq<nat>)
    requires Below(list, |es|) && Ascending(list)
    requires forall i :: i in list ==> i !in done && !HasParent(es, i)
    ensures Tops(WriteAll(es, done, list, 0).nodes) == list
    decreases list
  {
    hide WriteEntry, HasParent;
    if list != [] {
      var first := WriteEntry(es, done, list[0], 0);
      EntryTop(es, done, list[0], 0);
      NewUnderEntry(es, done, list[0], 0);
      forall i | i in list[1..] ensures i !in first.done && !HasParent(es, i) {
        var j :| 0 <= j < |list[1..]| && list[1..][j] == i;
        assert list[j + 1] > list[0];
      }
      RootsOnTop(es, first.done, list[1..]);
      var rest := WriteAll(es, first.done, list[1..], 0).nodes;
      assert Tops(first.nodes + rest) == Tops(first.nodes) + Tops(rest);
    }
  }

  /** On top of a saved table are first all entries without a parent and then others, both in the order
      of the table. */
  lemma {:induction false} SavedTops(es: seq<Entry>) returns (roots: seq<nat>, others: seq<nat>)
    ensures Tops(Saved(es)) == roots + others && Ascending(roots) && Ascending(others)
    ensures forall i :: i in roots <==> 0 <= i < |es| && ParentOf(es, i).None?
  {
    hide ParentOf, ChildrenOf, WriteAll;
    roots := RootsUpTo(es, |es|);
    RootsAre(es, |es|);
    forall i | i in roots ensures !HasParent(es, i) {}
    RootsOnTop(es, {}, roots);
    var w := WriteAll(es, {}, roots, 0);
    TopsOf(es, w.done, All(|es|), 0);
    others := Tops(WriteAll(es, w.done, All(|es|), 0).nodes);
  }
}
