/** core/ct_file.cpp: reading nested entry lists back; a proper forest comes back as it was saved. */
module TableRoundTrips {
  import opened Memory
  import opened TableForests

  const INT_MAX: int := 0x7FFF_FFFF

  // ---------------------------------------------------------------- fresh ids

  /** The largest id taken; ids are never negative. */
  function MaxOf(used: seq<int>): (m: int)
    ensures forall i :: 0 <= i < |used| ==> used[i] <= m
    ensures m >= 0
  {
    if used == [] then 0 else Max(MaxOf(used[..|used| - 1]), used[|used| - 1])
  }

  function Other(used: seq<int>, k: int): (r: seq<int>)
    ensures forall x :: x in r <==> x in used && x != k
    ensures |r| <= |used| && (k in used ==> |r| < |used|)
  {
    if used == [] then []
    else
      var front, last := used[..|used| - 1], used[|used| - 1];
      assert forall x :: x in used <==> x in front || x == last;
      if last == k then Other(front, k) else Other(front, k) + [last]
  }

  /** The first number from `k` on that is not taken. */
  function FirstGap(used: seq<int>, k: int): (g: int)
    ensures g >= k && g !in used
    decreases |used|
  {
    if k in used then FirstGap(Other(used, k), k + 1) else k
  }

  function FreshId(used: seq<int>): (id: int)
    ensures id !in used && id >= 1
  {
    if used == [] then 1 else if MaxOf(used) < INT_MAX then MaxOf(used) + 1 else FirstGap(used, 1)
  }

  lemma {:induction false} GapIsFirst(used: seq<int>, k: int)
    ensures forall i :: k <= i < FirstGap(used, k) ==> i in used
    decreases |used|
  {
    if k in used { GapIsFirst(Other(used, k), k + 1); }
  }

  lemma {:induction false} MaxIsThere(used: seq<int>)
    requires used != [] && forall i :: 0 <= i < |used| ==> used[i] >= 0
    ensures MaxOf(used) in used
  {
    if |used| > 1 { MaxIsThere(used[..|used| - 1]); }
  }

  /** A fresh id is one for the first entry, else one more than the largest id, as long as that is an
      `int`; after that it is the first number that is free. */
  lemma {:induction false} FreshMeans(used: seq<int>, m: int)
    requires forall i :: 0 <= i < |used| ==> 0 <= used[i] <= m
    ensures used == [] ==> FreshId(used) == 1
    ensures m in used && m < 0x7FFF_FFFF ==> FreshId(used) == m + 1
    ensures m in used && m >= 0x7FFF_FFFF ==>
              FreshId(used) >= 1 && FreshId(used) !in used && forall i :: 1 <= i < FreshId(used) ==> i in used
  {
    if used != [] {
      MaxIsThere(used);
      GapIsFirst(used, 1);
      var k :| 0 <= k < |used| && used[k] == MaxOf(used);
    }
  }

  // ------------------------------------------------------------------ loading

  /** The entries read, the ids they took, and whether the file was well formed. */
  datatype Loaded = Loaded(entries: seq<Entry>, used: seq<int>, ok: bool)

  /** A record keeps its id when it has one that is free. */
  function IdFor(used: seq<int>, id: int): (r: int)
    ensures r !in used && r >= 0
    ensures id >= 0 && id !in used ==> r == id
  {
    if id >= 0 && id !in used then id else FreshId(used)
  }

  function WithRecord(l: Loaded, id: int, parentId: int, fields: string): Loaded
  {
    Loaded(l.entries + [Entry(id, parentId, fields)], l.used + [id], l.ok)
  }

  /** Read a nested list whose records are entries of `es`. */
  function Load(es: seq<Entry>, nodes: seq<Node>, parentId: int, l: Loaded, depth: nat): (r: Loaded)
    requires Below(Order(nodes), |es|)
    decreases nodes
  {
    if depth >= MAX_DEPTH then l.(ok := false)
    else if nodes == [] then l
    else
      var node := nodes[0];
      OrderParts(nodes, |es|);
      var id := IdFor(l.used, es[node.index].id);
      var here := WithRecord(l, id, parentId, es[node.index].fields);
      var inner := if node.kids != [] then Load(es, node.kids, id, here, depth + 1) else here;
      Load(es, nodes[1..], parentId, inner, depth)
  }

  lemma {:induction false} OrderParts(nodes: seq<Node>, n: nat)
    requires nodes != [] && Below(Order(nodes), n)
    ensures nodes[0].index < n && Below(Order(nodes[0].kids), n) && Below(Order(nodes[1..]), n)
  {
    var a, b, c := [nodes[0].index], Order(nodes[0].kids), Order(nodes[1..]);
    assert Order(nodes) == a + b + c;
    assert Order(nodes)[0] == a[0];
    forall k | 0 <= k < |b| ensures b[k] < n { assert Order(nodes)[1 + k] == b[k]; }
    forall k | 0 <= k < |c| ensures c[k] < n { assert Order(nodes)[1 + |b| + k] == c[k]; }
  }

  predicate UniqueIds(es: seq<Entry>) { forall i, j :: 0 <= i < j < |es| ==> es[i].id != es[j].id }

  /** Every parent is an earlier entry, or none. */
  ghost predicate ParentsFirst(es: seq<Entry>)
  {
    forall k :: 0 <= k < |es| ==> es[k].parentId == -1 || exists j :: 0 <= j < k && es[j].id == es[k].parentId
  }

  /** What reading keeps true at every record. */
  ghost predicate WellLoaded(l: Loaded)
  {
    && UniqueIds(l.entries) && ParentsFirst(l.entries) && |l.used| == |l.entries|
    && forall i :: 0 <= i < |l.entries| ==> l.used[i] == l.entries[i].id >= 0
  }

  lemma {:induction false} AddRecord(l: Loaded, id: int, parentId: int, fields: string)
    requires WellLoaded(l) && id >= 0 && id !in l.used && (parentId == -1 || parentId in l.used)
    ensures WellLoaded(WithRecord(l, id, parentId, fields))
  {
    var n, es := |l.entries|, l.entries + [Entry(id, parentId, fields)];
    forall i, j | 0 <= i < j < |es| ensures es[i].id != es[j].id {
      if j == n { assert l.used[i] in l.used; }
    }
    forall k | 0 <= k < |es| ensures es[k].parentId == -1 || exists j :: 0 <= j < k && es[j].id == es[k].parentId {
      if k < n {
        if es[k].parentId != -1 {
          var j :| 0 <= j < k && l.entries[j].id == l.entries[k].parentId;
          assert es[j].id == es[k].parentId;
        }
      } else if parentId != -1 {
        var j :| 0 <= j < n && l.used[j] == parentId;
        assert es[j].id == parentId;
      }
    }
  }

  lemma {:induction false} PrefixHas(a: seq<int>, b: seq<int>, x: int)
    requires a <= b
    ensures x in a ==> x in b
  {
    if x in a {
      var i :| 0 <= i < |a| && a[i] == x;
      assert b[i] == x;
    }
  }

  /** Loading gives unique ids and a forest: each parent is an entry before its children. */
  lemma {:induction false} LoadKeeps(es: seq<Entry>, nodes: seq<Node>, parentId: int, l: Loaded, depth: nat)
    requires WellLoaded(l) && Below(Order(nodes), |es|) && (parentId == -1 || parentId in l.used)
    ensures WellLoaded(Load(es, nodes, parentId, l, depth))
    ensures l.used <= Load(es, nodes, parentId, l, depth).used
    decreases nodes
  {
    hide WellLoaded, IdFor, Order;
    if depth < MAX_DEPTH && nodes != [] {
      var node := nodes[0];
      OrderParts(nodes, |es|);
      var id := IdFor(l.used, es[node.index].id);
      var here := WithRecord(l, id, parentId, es[node.index].fields);
      AddRecord(l, id, parentId, es[node.index].fields);
      assert here.used[|l.used|] == id;
      if node.kids != [] { LoadKeeps(es, node.kids, id, here, depth + 1); }
      var inner := if node.kids != [] then Load(es, node.kids, id, here, depth + 1) else here;
      PrefixHas(l.used, inner.used, parentId);
      LoadKeeps(es, nodes[1..], parentId, inner, depth);
    } else {
      StaysWellLoaded(l);
    }
  }

  lemma {:induction false} StaysWellLoaded(l: Loaded)
    ensures WellLoaded(l) ==> WellLoaded(l.(ok := false))
  {
  }

  // ------------------------------------------------------------ proper forests

  datatype Tree = Tree(id: int, fields: string, kids: seq<Tree>)

  /** A forest as a flat list, parents before children. */
  function Listed(f: seq<Tree>, parentId: int): seq<Entry>
  {
    if f == [] then []
    else [Entry(f[0].id, parentId, f[0].fields)] + Listed(f[0].kids, f[0].id) + Listed(f[1..], parentId)
  }

  function Size(f: seq<Tree>): nat
  {
    if f == [] then 0 else 1 + Size(f[0].kids) + Size(f[1..])
  }

  function Ids(f: seq<Tree>): set<int>
  {
    if f == [] then {} else {f[0].id} + Ids(f[0].kids) + Ids(f[1..])
  }

  function Levels(f: seq<Tree>): nat
  {
    if f == [] then 0 else Max(1 + Levels(f[0].kids), Levels(f[1..]))
  }

  predicate DistinctTree(f: seq<Tree>)
  {
    f == [] ||
    (&& f[0].id !in Ids(f[0].kids) && f[0].id !in Ids(f[1..]) && Ids(f[0].kids) !! Ids(f[1..])
     && DistinctTree(f[0].kids) && DistinctTree(f[1..]))
  }

  /** Positions of the roots of `f` when it is listed from `off` on. */
  function Positions(f: seq<Tree>, off: nat): seq<nat>
  {
    if f == [] then [] else [off] + Positions(f[1..], off + 1 + Size(f[0].kids))
  }

  /** The nodes the writer should produce for `f` listed from `off` on. */
  function NodesOf(f: seq<Tree>, off: nat): seq<Node>
  {
    if f == [] then []
    else [Node(off, f[0].kids != [], NodesOf(f[0].kids, off + 1))] + NodesOf(f[1..], off + 1 + Size(f[0].kids))
  }

  lemma {:induction false} ListedSize(f: seq<Tree>, parentId: int)
    ensures |Listed(f, parentId)| == Size(f)
  {
    if f != [] {
      ListedSize(f[0].kids, f[0].id);
      ListedSize(f[1..], parentId);
    }
  }

  // ------------------------------------------- where the children of a tree are

  /** The positions, counted from `base`, of the entries of `s` whose parent id is `id`. */
  function Under(s: seq<Entry>, id: int, base: nat): seq<nat>
  {
    if s == [] then []
    else
      var last := |s| - 1;
      Under(s[..last], id, base) + (if s[last].parentId == id then [base + last] else [])
  }

  lemma {:induction false} UnderConcat(a: seq<Entry>, b: seq<Entry>, id: int, base: nat)
    ensures Under(a + b, id, base) == Under(a, id, base) + Under(b, id, base + |a|)
  {
    if b == [] {
      assert a + b == a;
    } else {
      UnderConcat(a, b[..|b| - 1], id, base);
      assert (a + b)[..|a + b| - 1] == a + b[..|b| - 1];
    }
  }

  lemma {:induction false} NotAmong(f: seq<Tree>, id: int)
    requires f != [] && id !in Ids(f)
    ensures id != f[0].id && id !in Ids(f[0].kids) && id !in Ids(f[1..])
  {
  }

  lemma {:induction false} DistinctParts(f: seq<Tree>)
    requires f != [] && DistinctTree(f)
    ensures f[0].id !in Ids(f[0].kids) && DistinctTree(f[0].kids) && DistinctTree(f[1..])
  {
  }

  /** In a listed forest that does not hold `id`, only the roots can have it as their parent. */
  lemma {:induction false} RootsUnder(f: seq<Tree>, parentId: int, id: int, off: nat)
    requires id !in Ids(f)
    ensures Under(Listed(f, parentId), id, off) == if parentId == id then Positions(f, off) else []
  {
    hide *;
    if f == [] {
      NoneListed(parentId, id, off);
    } else {
      ListedFirst(f, parentId);
      NotAmong(f, id);
      ListedSize(f[0].kids, f[0].id);
      RootsUnder(f[0].kids, f[0].id, id, off + 1);
      RootsUnder(f[1..], parentId, id, off + 1 + Size(f[0].kids));
      UnderFirst(Entry(f[0].id, parentId, f[0].fields), Listed(f[0].kids, f[0].id), Listed(f[1..], parentId), id, off);
      PositionsFirst(f, off);
    }
  }

  lemma {:induction false} NoneListed(parentId: int, id: int, off: nat)
    ensures Under(Listed([], parentId), id, off) == [] && Positions([], off) == []
  {
  }

  lemma {:induction false} ListedFirst(f: seq<Tree>, parentId: int)
    requires f != []
    ensures Listed(f, parentId)
      == [Entry(f[0].id, parentId, f[0].fields)] + Listed(f[0].kids, f[0].id) + Listed(f[1..], parentId)
  {
  }

  lemma {:induction false} PositionsFirst(f: seq<Tree>, off: nat)
    requires f != []
    ensures Positions(f, off) == [off] + Positions(f[1..], off + 1 + Size(f[0].kids))
  {
  }

  lemma {:induction false} UnderFirst(e: Entry, a: seq<Entry>, b: seq<Entry>, id: int, off: nat)
    requires Under(a, id, off + 1) == []
    ensures Under([e] + a + b, id, off)
      == if e.parentId == id then [off] + Under(b, id, off + 1 + |a|) else Under(b, id, off + 1 + |a|)
  {
    UnderConcat([e] + a, b, id, off);
    UnderConcat([e], a, id, off);
    assert Under([e], id, off) == if e.parentId == id then [off] else [] by { assert [e][..0] == []; }
  }

  /** `es` holds the trees of `f` from `off` on, each with its children right where they belong. */
  ghost predicate Placed(es: seq<Entry>, f: seq<Tree>, off: nat)
  {
    f == [] ||
    (&& off < |es| && es[off].id == f[0].id && es[off].fields == f[0].fields
     && Under(es, f[0].id, 0) == Positions(f[0].kids, off + 1)
     && Placed(es, f[0].kids, off + 1) && Placed(es, f[1..], off + 1 + Size(f[0].kids)))
  }

  ghost predicate Unrelated(s: seq<Entry>, ids: set<int>) { forall k :: 0 <= k < |s| ==> s[k].parentId !in ids }

  lemma {:induction false} NoneUnder(s: seq<Entry>, id: int, base: nat)
    requires forall k :: 0 <= k < |s| ==> s[k].parentId != id
    ensures Under(s, id, base) == []
  {
    if s != [] { NoneUnder(s[..|s| - 1], id, base); }
  }

  lemma {:induction false} UnrelatedParts(a: seq<Entry>, b: seq<Entry>, ids: set<int>)
    requires Unrelated(a, ids) && Unrelated(b, ids)
    ensures Unrelated(a + b, ids)
  {
  }

  lemma {:induction false} ListedUnrelated(f: seq<Tree>, parentId: int, ids: set<int>)
    requires Ids(f) !! ids && parentId !in ids
    ensures Unrelated(Listed(f, parentId), ids)
  {
    if f != [] {
      ListedUnrelated(f[0].kids, f[0].id, ids);
      ListedUnrelated(f[1..], parentId, ids);
    }
  }

  lemma {:induction false} OnlyInside(p: seq<Entry>, a: seq<Entry>, q: seq<Entry>, id: int)
    requires forall k :: 0 <= k < |p| ==> p[k].parentId != id
    requires forall k :: 0 <= k < |q| ==> q[k].parentId != id
    ensures Under(p + a + q, id, 0) == Under(a, id, |p|)
  {
    NoneUnder(p, id, 0);
    NoneUnder(q, id, |p + a|);
    UnderConcat(p + a, q, id, 0);
    UnderConcat(p, a, id, 0);
  }

  /** The parts of `before + Listed(f, parentId) + after` around the first tree's children. */
  lemma {:induction false} Regroup(p: seq<Entry>, e: seq<Entry>, a: seq<Entry>, b: seq<Entry>, q: seq<Entry>)
    ensures p + (e + a + b) + q == (p + e) + a + (b + q) == (p + e + a) + b + q
  {
  }

  lemma {:induction false} AtEnd(p: seq<Entry>, e: Entry, a: seq<Entry>, b: seq<Entry>, q: seq<Entry>)
    ensures |p| < |p + ([e] + a + b) + q| && (p + ([e] + a + b) + q)[|p|] == e
  {
  }

  /** The only entries below the first tree's root are the roots of its own list. */
  lemma {:induction false} KidsOfFirst(before: seq<Entry>, f: seq<Tree>, parentId: int, after: seq<Entry>)
    requires f != [] && DistinctTree(f) && parentId !in Ids(f)
    requires Unrelated(before, Ids(f)) && Unrelated(after, Ids(f))
    ensures Under(before + Listed(f, parentId) + after, f[0].id, 0) == Positions(f[0].kids, |before| + 1)
  {
    hide Under, Positions;
    var t := f[0];
    var e, a, b := Entry(t.id, parentId, t.fields), Listed(t.kids, t.id), Listed(f[1..], parentId);
    assert Listed(f, parentId) == [e] + a + b;
    ListedUnrelated(f[1..], parentId, {t.id});
    RootsUnder(t.kids, t.id, t.id, |before| + 1);
    hide *;
    Regroup(before, [e], a, b, after);
    OnlyInside(before + [e], a, b + after, t.id);
  }

  lemma {:induction false} PartsUnrelated(before: seq<Entry>, f: seq<Tree>, parentId: int, after: seq<Entry>)
    requires f != [] && DistinctTree(f) && parentId !in Ids(f)
    requires Unrelated(before, Ids(f)) && Unrelated(after, Ids(f))
    ensures Unrelated(before + [Entry(f[0].id, parentId, f[0].fields)], Ids(f[0].kids))
    ensures Unrelated(Listed(f[1..], parentId) + after, Ids(f[0].kids))
    ensures Unrelated(before + [Entry(f[0].id, parentId, f[0].fields)] + Listed(f[0].kids, f[0].id), Ids(f[1..]))
    ensures Unrelated(after, Ids(f[1..]))
  {
    var e := Entry(f[0].id, parentId, f[0].fields);
    ListedUnrelated(f[0].kids, f[0].id, Ids(f[1..]));
    ListedUnrelated(f[1..], parentId, Ids(f[0].kids));
    FewerIds(before, f);
    FewerIds(after, f);
    OneUnrelated(e, Ids(f));
    FewerIds([e], f);
    hide *;
    UnrelatedParts(before, [e], Ids(f[0].kids));
    UnrelatedParts(Listed(f[1..], parentId), after, Ids(f[0].kids));
    UnrelatedParts(before, [e], Ids(f[1..]));
    UnrelatedParts(before + [e], Listed(f[0].kids, f[0].id), Ids(f[1..]));
  }

  /** `f` is listed in `es`, between `before` and `after`. */
  ghost predicate ListedIn(es: seq<Entry>, before: seq<Entry>, f: seq<Tree>, parentId: int, after: seq<Entry>)
  {
    && es == before + Listed(f, parentId) + after
    && DistinctTree(f) && parentId !in Ids(f) && Unrelated(before, Ids(f)) && Unrelated(after, Ids(f))
  }

  lemma {:induction false} PartsListedIn(es: seq<Entry>, before: seq<Entry>, f: seq<Tree>, parentId: int, after: seq<Entry>)
    requires f != [] && ListedIn(es, before, f, parentId, after)
    ensures |before| < |es| && es[|before|] == Entry(f[0].id, parentId, f[0].fields)
    ensures Under(es, f[0].id, 0) == Positions(f[0].kids, |before| + 1)
    ensures var front := before + [es[|before|]];
            var a, b := Listed(f[0].kids, f[0].id), Listed(f[1..], parentId);
            && ListedIn(es, front, f[0].kids, f[0].id, b + after)
            && ListedIn(es, front + a, f[1..], parentId, after)
            && |front| == |before| + 1 && |front + a| == |before| + 1 + Size(f[0].kids)
  {
    hide Unrelated, Under, Positions, Ids, DistinctTree, Size;
    var e, a, b := Entry(f[0].id, parentId, f[0].fields), Listed(f[0].kids, f[0].id), Listed(f[1..], parentId);
    ListedFirst(f, parentId);
    hide Listed;
    KidsOfFirst(before, f, parentId, after);
    PartsUnrelated(before, f, parentId, after);
    DistinctParts(f);
    NotAmong(f, parentId);
    ListedSize(f[0].kids, f[0].id);
    AtEnd(before, e, a, b, after);
    Regroup(before, [e], a, b, after);
  }

  lemma {:induction false} ListedIsPlaced(es: seq<Entry>, before: seq<Entry>, f: seq<Tree>, parentId: int, after: seq<Entry>)
    requires ListedIn(es, before, f, parentId, after)
    ensures Placed(es, f, |before|)
    decreases f
  {
    hide ListedIn, Under, Positions, Listed, Size;
    if f != [] {
      PartsListedIn(es, before, f, parentId, after);
      var front := before + [es[|before|]];
      var a, b := Listed(f[0].kids, f[0].id), Listed(f[1..], parentId);
      ListedIsPlaced(es, front, f[0].kids, f[0].id, b + after);
      ListedIsPlaced(es, front + a, f[1..], parentId, after);
    }
  }

  lemma {:induction false} OneUnrelated(e: Entry, ids: set<int>)
    ensures e.parentId !in ids ==> Unrelated([e], ids)
  {
  }

  lemma {:induction false} FewerIds(s: seq<Entry>, f: seq<Tree>)
    requires f != [] && Unrelated(s, Ids(f))
    ensures Unrelated(s, Ids(f[0].kids)) && Unrelated(s, Ids(f[1..]))
  {
  }

  /** A listed entry's parent is the given one or another entry of the forest. */
  lemma {:induction false} ListedParents(f: seq<Tree>, parentId: int)
    requires DistinctTree(f) && parentId !in Ids(f)
    ensures forall k :: 0 <= k < |Listed(f, parentId)| ==>
      var e := Listed(f, parentId)[k];
      e.id in Ids(f) && e.id != e.parentId && (e.parentId == parentId || e.parentId in Ids(f))
  {
    if f != [] {
      ListedParents(f[0].kids, f[0].id);
      ListedParents(f[1..], parentId);
    }
  }

  // ------------------------------------------------- the writer on a proper forest

  /** Unique ids, and every parent is none or another entry. */
  ghost predicate ProperParents(es: seq<Entry>)
  {
    && UniqueIds(es)
    && forall k :: 0 <= k < |es| ==>
      es[k].id >= 0 && es[k].parentId != es[k].id && (es[k].parentId == -1 || IndexOfId(es, es[k].parentId).Some?)
  }

  lemma {:induction false} FoundHasId(es: seq<Entry>, id: int)
    ensures IndexOfId(es, id).Some? ==> IndexOfId(es, id).value < |es| && es[IndexOfId(es, id).value].id == id
  {
    if es != [] { FoundHasId(es[..|es| - 1], id); }
  }

  lemma {:induction false} IdIsFound(es: seq<Entry>, j: nat)
    requires j < |es|
    ensures IndexOfId(es, es[j].id).Some?
  {
    if j < |es| - 1 { IdIsFound(es[..|es| - 1], j); }
  }

  lemma {:induction false} ParentMeansId(es: seq<Entry>, i: nat, j: nat)
    requires ProperParents(es) && i < |es| && j < |es|
    ensures ParentOf(es, i) == Some(j) <==> es[i].parentId == es[j].id
    ensures ParentOf(es, i).None? <==> es[i].parentId == -1
  {
    FoundHasId(es, es[i].parentId);
    IdIsFound(es, j);
    FoundHasId(es, es[j].id);
  }

  lemma {:induction false} ChildrenAreUnder(es: seq<Entry>, j: nat, n: nat)
    requires ProperParents(es) && j < |es| && n <= |es|
    ensures ChildrenUpTo(es, j, n) == Under(es[..n], es[j].id, 0)
  {
    hide ProperParents, ParentOf;
    if n > 0 {
      ChildrenAreUnder(es, j, n - 1);
      ParentMeansId(es, n - 1, j);
      assert es[..n][..n - 1] == es[..n - 1];
    }
  }

  lemma {:induction false} RootsAreUnder(es: seq<Entry>, n: nat)
    requires ProperParents(es) && n <= |es|
    ensures RootsUpTo(es, n) == Under(es[..n], -1, 0)
  {
    hide ProperParents, ParentOf;
    if n > 0 {
      RootsAreUnder(es, n - 1);
      ParentMeansId(es, n - 1, n - 1);
      assert es[..n][..n - 1] == es[..n - 1];
    }
  }

  /** The numbers from `a` up to, not including, `b`. */
  function Span(a: nat, b: nat): (r: set<nat>)
    ensures forall i :: i in r <==> a <= i < b
    decreases b - a
  {
    if a >= b then {} else {a} + Span(a + 1, b)
  }

  lemma {:induction false} PlacedFits(es: seq<Entry>, f: seq<Tree>, off: nat)
    requires Placed(es, f, off)
    ensures Below(Positions(f, off), |es|)
  {
    if f != [] {
      PlacedFits(es, f[1..], off + 1 + Size(f[0].kids));
      PositionsFirst(f, off);
    }
  }

  lemma {:induction false} PlacedFirst(es: seq<Entry>, f: seq<Tree>, off: nat)
    requires f != [] && Placed(es, f, off) && ProperParents(es)
    ensures off < |es| && es[off].id == f[0].id && es[off].fields == f[0].fields
    ensures ChildrenOf(es, off) == Positions(f[0].kids, off + 1)
    ensures Placed(es, f[0].kids, off + 1) && Placed(es, f[1..], off + 1 + Size(f[0].kids))
  {
    ChildrenAreUnder(es, off, |es|);
    assert es[..|es|] == es;
  }

  lemma {:induction false} LevelsOfFirst(f: seq<Tree>)
    requires f != []
    ensures Levels(f) >= 1 + Levels(f[0].kids) && Levels(f) >= Levels(f[1..])
    ensures f[0].kids != [] ==> Levels(f[0].kids) >= 1
  {
  }

  lemma {:induction false} SpanParts(done: set<nat>, off: nat, m: nat, n: nat)
    ensures done + {off} + Span(off + 1, off + 1 + m) + Span(off + 1 + m, off + 1 + m + n) == done + Span(off, off + 1 + m + n)
    ensures off in Span(off, off + 1 + m + n)
    ensures done !! Span(off, off + 1 + m + n) ==>
      done + {off} !! Span(off + 1, off + 1 + m)
      && done + {off} + Span(off + 1, off + 1 + m) !! Span(off + 1 + m, off + 1 + m + n)
  {
  }

  lemma {:induction false} SpanOfNone(done: set<nat>, off: nat)
    ensures done + Span(off, off) == done
  {
  }

  /** The writer turns a listed forest into the nested lists of that forest. */
  lemma {:induction false} ForestIsWritten(es: seq<Entry>, f: seq<Tree>, off: nat, done: set<nat>, depth: nat)
    requires ProperParents(es) && Placed(es, f, off) && Below(Positions(f, off), |es|)
    requires depth < MAX_DEPTH && depth + Levels(f) <= MAX_DEPTH && done !! Span(off, off + Size(f))
    ensures WriteAll(es, done, Positions(f, off), depth) == Walk(NodesOf(f, off), done + Span(off, off + Size(f)))
    decreases f
  {
    hide ProperParents, Placed, ChildrenOf, Levels, Span;
    if f == [] {
      SpanOfNone(done, off);
    } else {
      var m, n := Size(f[0].kids), Size(f[1..]);
      PlacedFirst(es, f, off);
      LevelsOfFirst(f);
      PositionsFirst(f, off);
      SpanParts(done, off, m, n);
      assert off !in done;
      PlacedFits(es, f[0].kids, off + 1);
      PlacedFits(es, f[1..], off + 1 + m);
      if f[0].kids != [] {
        ForestIsWritten(es, f[0].kids, off + 1, done + {off}, depth + 1);
      } else {
        SpanOfNone(done + {off}, off + 1);
      }
      assert WriteEntry(es, done, off, depth)
        == Walk([Node(off, f[0].kids != [], NodesOf(f[0].kids, off + 1))], done + {off} + Span(off + 1, off + 1 + m));
      ForestIsWritten(es, f[1..], off + 1 + m, done + {off} + Span(off + 1, off + 1 + m), depth);
      assert Positions(f, off)[1..] == Positions(f[1..], off + 1 + m);
    }
  }

  // ------------------------------------------------- the reader on nested lists

  /** The ids of a forest in the order they are listed. */
  function IdList(f: seq<Tree>): (r: seq<int>)
    ensures forall x :: x in r <==> x in Ids(f)
  {
    if f == [] then [] else [f[0].id] + IdList(f[0].kids) + IdList(f[1..])
  }

  lemma {:induction false} NodesOfFirst(f: seq<Tree>, off: nat, n: nat)
    requires f != [] && Below(Order(NodesOf(f, off)), n)
    ensures NodesOf(f, off) != [] && NodesOf(f, off)[1..] == NodesOf(f[1..], off + 1 + Size(f[0].kids))
    ensures NodesOf(f, off)[0] == Node(off, f[0].kids != [], NodesOf(f[0].kids, off + 1))
    ensures off < n && Below(Order(NodesOf(f[0].kids, off + 1)), n)
    ensures Below(Order(NodesOf(f[1..], off + 1 + Size(f[0].kids))), n)
  {
    OrderParts(NodesOf(f, off), n);
  }

  ghost predicate Free(f: seq<Tree>, used: seq<int>) { forall x :: x in Ids(f) ==> x >= 0 && x !in used }

  lemma {:induction false} FreeParts(f: seq<Tree>, used: seq<int>)
    requires f != [] && DistinctTree(f) && Free(f, used)
    ensures f[0].id >= 0 && f[0].id !in used
    ensures DistinctTree(f[0].kids) && Free(f[0].kids, used + [f[0].id])
    ensures DistinctTree(f[1..]) && Free(f[1..], used + [f[0].id] + IdList(f[0].kids))
  {
  }

  lemma {:induction false} Gathered<T>(p: seq<T>, e: seq<T>, a: seq<T>, b: seq<T>)
    ensures p + (e + a + b) == p + e + a + b
  {
  }

  lemma {:induction false} ListsOfFirst(f: seq<Tree>, parentId: int)
    requires f != []
    ensures IdList(f) == [f[0].id] + IdList(f[0].kids) + IdList(f[1..])
    ensures Listed(f, parentId)
      == [Entry(f[0].id, parentId, f[0].fields)] + Listed(f[0].kids, f[0].id) + Listed(f[1..], parentId)
  {
  }

  /** Reading the nested lists of a forest lists it again, ids unchanged. */
  lemma {:induction false} ForestIsRead(es: seq<Entry>, f: seq<Tree>, off: nat, parentId: int, l: Loaded, depth: nat)
    requires Placed(es, f, off) && DistinctTree(f) && Free(f, l.used)
    requires depth < MAX_DEPTH && depth + Levels(f) <= MAX_DEPTH && Below(Order(NodesOf(f, off)), |es|)
    ensures Load(es, NodesOf(f, off), parentId, l, depth)
      == Loaded(l.entries + Listed(f, parentId), l.used + IdList(f), l.ok)
    decreases f
  {
    hide Placed, Levels, Order, NodesOf, Listed, IdList, Free, DistinctTree, Positions, Load, Size;
    if f == [] {
      NothingListed(off, parentId, l);
      LoadNone(es, parentId, l, depth);
    } else {
      NodesOfFirst(f, off, |es|);
      PlacedHere(es, f, off);
      LevelsOfFirst(f);
      FreeParts(f, l.used);
      ListsOfFirst(f, parentId);
      LoadFirst(es, NodesOf(f, off), parentId, l, depth);
      var here := WithRecord(l, f[0].id, parentId, f[0].fields);
      var inner := Loaded(here.entries + Listed(f[0].kids, f[0].id), here.used + IdList(f[0].kids), l.ok);
      if f[0].kids == [] {
        NothingListed(off + 1, f[0].id, here);
      } else {
        ForestIsRead(es, f[0].kids, off + 1, f[0].id, here, depth + 1);
        SomeNodes(f[0].kids, off + 1);
      }
      ForestIsRead(es, f[1..], off + 1 + Size(f[0].kids), parentId, inner, depth);
      Gathered(l.entries, [Entry(f[0].id, parentId, f[0].fields)], Listed(f[0].kids, f[0].id), Listed(f[1..], parentId));
      Gathered(l.used, [f[0].id], IdList(f[0].kids), IdList(f[1..]));
    }
  }

  lemma {:induction false} LoadNone(es: seq<Entry>, parentId: int, l: Loaded, depth: nat)
    requires depth < MAX_DEPTH
    ensures Below(Order([]), |es|) && Load(es, [], parentId, l, depth) == l
  {
  }

  /** One record, the list nested in it, and the records after it. */
  lemma {:induction false} LoadFirst(es: seq<Entry>, nodes: seq<Node>, parentId: int, l: Loaded, depth: nat)
    requires Below(Order(nodes), |es|) && nodes != [] && depth < MAX_DEPTH
    ensures nodes[0].index < |es| && Below(Order(nodes[0].kids), |es|) && Below(Order(nodes[1..]), |es|)
    ensures var e := es[nodes[0].index];
            var id := IdFor(l.used, e.id);
            var here := WithRecord(l, id, parentId, e.fields);
            var inner := if nodes[0].kids != [] then Load(es, nodes[0].kids, id, here, depth + 1) else here;
            Load(es, nodes, parentId, l, depth) == Load(es, nodes[1..], parentId, inner, depth)
  {
    hide Order, IdFor, WithRecord;
    OrderParts(nodes, |es|);
  }

  lemma {:induction false} NothingListed(off: nat, parentId: int, l: Loaded)
    ensures NodesOf([], off) == []
    ensures Loaded(l.entries + Listed([], parentId), l.used + IdList([]), l.ok) == l
  {
  }

  lemma {:induction false} SomeNodes(f: seq<Tree>, off: nat)
    requires f != []
    ensures NodesOf(f, off) != []
  {
  }

  lemma {:induction false} PlacedHere(es: seq<Entry>, f: seq<Tree>, off: nat)
    requires f != [] && Placed(es, f, off)
    ensures off < |es| && es[off].id == f[0].id && es[off].fields == f[0].fields
    ensures Placed(es, f[0].kids, off + 1) && Placed(es, f[1..], off + 1 + Size(f[0].kids))
  {
  }

  // ------------------------------------------------------------- save, then load

  lemma {:induction false} SavedNames(es: seq<Entry>)
    ensures Below(Order(Saved(es)), |es|)
  {
    SavedExactlyOnce(es);
    var o := Order(Saved(es));
    forall k | 0 <= k < |o| ensures o[k] < |es| { assert o[k] in o; }
  }

  /** A table saved and loaded again. */
  function Reloaded(es: seq<Entry>): Loaded
  {
    SavedNames(es);
    Load(es, Saved(es), -1, Loaded([], [], true), 0)
  }

  /** A forest in preorder, with unique ids that are not negative and at most 64 levels. */
  ghost predicate PreorderForest(es: seq<Entry>)
  {
    && UniqueIds(es) && (forall k :: 0 <= k < |es| ==> es[k].id >= 0)
    && exists f :: es == Listed(f, -1) && Levels(f) <= 64
  }

  lemma {:induction false} IdIsListed(f: seq<Tree>, parentId: int, id: int) returns (k: nat)
    requires id in Ids(f)
    ensures k < |Listed(f, parentId)| && Listed(f, parentId)[k].id == id
  {
    if id == f[0].id {
      k := 0;
    } else if id in Ids(f[0].kids) {
      k := IdIsListed(f[0].kids, f[0].id, id);
      k := 1 + k;
    } else {
      k := IdIsListed(f[1..], parentId, id);
      k := 1 + |Listed(f[0].kids, f[0].id)| + k;
    }
  }

  lemma {:induction false} PartsUnique(e: Entry, a: seq<Entry>, b: seq<Entry>)
    requires UniqueIds([e] + a + b)
    ensures UniqueIds(a) && UniqueIds(b)
    ensures forall j :: 0 <= j < |a| ==> a[j].id != e.id
    ensures forall k :: 0 <= k < |b| ==> b[k].id != e.id
    ensures forall j, k :: 0 <= j < |a| && 0 <= k < |b| ==> a[j].id != b[k].id
  {
    var s := [e] + a + b;
    assert s[0] == e;
    assert forall j :: 0 <= j < |a| ==> s[1 + j] == a[j];
    assert forall k :: 0 <= k < |b| ==> s[1 + |a| + k] == b[k];
  }

  lemma {:induction false} UniqueIsDistinct(f: seq<Tree>, parentId: int)
    requires UniqueIds(Listed(f, parentId))
    ensures DistinctTree(f)
  {
    hide UniqueIds;
    if f != [] {
      var e, a, b := Entry(f[0].id, parentId, f[0].fields), Listed(f[0].kids, f[0].id), Listed(f[1..], parentId);
      ListedFirst(f, parentId);
      PartsUnique(e, a, b);
      UniqueIsDistinct(f[0].kids, f[0].id);
      UniqueIsDistinct(f[1..], parentId);
      if e.id in Ids(f[0].kids) { var j := IdIsListed(f[0].kids, f[0].id, e.id); assert false; }
      if e.id in Ids(f[1..]) { var k := IdIsListed(f[1..], parentId, e.id); assert false; }
      forall x | x in Ids(f[0].kids) ensures x !in Ids(f[1..]) {
        if x in Ids(f[1..]) {
          var j := IdIsListed(f[0].kids, f[0].id, x);
          var k := IdIsListed(f[1..], parentId, x);
          assert false;
        }
      }
    }
  }

  lemma {:induction false} ForestIsProper(es: seq<Entry>, f: seq<Tree>)
    requires es == Listed(f, -1) && UniqueIds(es) && forall k :: 0 <= k < |es| ==> es[k].id >= 0
    ensures ProperParents(es) && DistinctTree(f) && Free(f, []) && -1 !in Ids(f)
  {
    UniqueIsDistinct(f, -1);
    forall x | x in Ids(f) ensures x >= 0 && exists k :: 0 <= k < |es| && es[k].id == x {
      var k := IdIsListed(f, -1, x);
      assert es[k].id == x;
    }
    ListedParents(f, -1);
    forall k | 0 <= k < |es| && es[k].parentId != -1 ensures IndexOfId(es, es[k].parentId).Some? {
      var j := IdIsListed(f, -1, es[k].parentId);
      IdIsFound(es, j);
    }
  }

  lemma {:induction false} NothingLeft(es: seq<Entry>, done: set<nat>, list: seq<nat>)
    requires Below(list, |es|) && forall k :: 0 <= k < |list| ==> list[k] in done
    ensures WriteAll(es, done, list, 0) == Walk([], done)
  {
    if list != [] { NothingLeft(es, done, list[1..]); }
  }

  lemma {:induction false} ForestIsSaved(es: seq<Entry>, f: seq<Tree>)
    requires es == Listed(f, -1) && ProperParents(es) && DistinctTree(f) && -1 !in Ids(f) && Levels(f) <= MAX_DEPTH
    ensures Saved(es) == NodesOf(f, 0) && Placed(es, f, 0)
  {
    WholeIsListed(es, f);
    hide *;
    ListedIsPlaced(es, [], f, -1, []);
    RootsAreUnder(es, |es|);
    RootsUnder(f, -1, -1, 0);
    assert es[..|es|] == es;
    ListedSize(f, -1);
    AtDepthZero(f, |es|);
    var done: set<nat> := {} + Span(0, |es|);
    var roots := RootsUpTo(es, |es|);
    assert roots == Positions(f, 0);
    RootsAreWritten(es, f, roots, done);
    NothingLeft(es, done, All(|es|));
    SavedInTwo(es, roots, NodesOf(f, 0), done);
  }

  lemma {:induction false} RootsAreWritten(es: seq<Entry>, f: seq<Tree>, roots: seq<nat>, done: set<nat>)
    requires ProperParents(es) && Placed(es, f, 0) && roots == Positions(f, 0) && Below(roots, |es|) && Levels(f) <= MAX_DEPTH
    requires |es| == Size(f) && done == {} + Span(0, |es|)
    ensures WriteAll(es, {}, roots, 0) == Walk(NodesOf(f, 0), done)
  {
    hide *;
    AtDepthZero(f, |es|);
    ForestIsWritten(es, f, 0, {}, 0);
  }

  lemma {:induction false} WholeIsListed(es: seq<Entry>, f: seq<Tree>)
    requires es == Listed(f, -1) && DistinctTree(f) && -1 !in Ids(f)
    ensures ListedIn(es, [], f, -1, [])
  {
    hide Listed;
    assert es == [] + Listed(f, -1) + [];
  }

  lemma {:induction false} AtDepthZero(f: seq<Tree>, n: nat)
    ensures 0 < MAX_DEPTH && {} !! Span(0, 0 + Size(f)) && Below(All(n), n)
    ensures forall k :: 0 <= k < |All(n)| ==> All(n)[k] in {} + Span(0, n)
  {
    hide Size;
  }

  /** What the roots lead to, and nothing after it. */
  lemma {:induction false} SavedInTwo(es: seq<Entry>, roots: seq<nat>, nodes: seq<Node>, done: set<nat>)
    requires roots == RootsUpTo(es, |es|) && WriteAll(es, {}, roots, 0) == Walk(nodes, done)
    requires WriteAll(es, done, All(|es|), 0) == Walk([], done)
    ensures Saved(es) == nodes
  {
    hide WriteAll, RootsUpTo;
    assert nodes + [] == nodes;
  }

  lemma {:induction false} ForestComesBack(es: seq<Entry>, f: seq<Tree>)
    requires es == Listed(f, -1) && UniqueIds(es) && Levels(f) <= MAX_DEPTH
    requires forall k :: 0 <= k < |es| ==> es[k].id >= 0
    ensures Reloaded(es).entries == es
  {
    ForestIsProper(es, f);
    ForestIsSaved(es, f);
    hide *;
    SavedNames(es);
    ForestIsRead(es, f, 0, -1, Loaded([], [], true), 0);
    ReloadedIs(es);
    assert [] + Listed(f, -1) == es;
  }

  lemma {:induction false} ReloadedIs(es: seq<Entry>)
    ensures Below(Order(Saved(es)), |es|)
    ensures Reloaded(es) == Load(es, Saved(es), -1, Loaded([], [], true), 0)
  {
    SavedNames(es);
  }

  lemma {:induction false} HeightOfFirst(nodes: seq<Node>)
    requires nodes != []
    ensures Height(nodes) == Max(1 + Height(nodes[0].kids), Height(nodes[1..]))
    ensures nodes[0].kids != [] ==> Height(nodes[0].kids) >= 1
  {
  }

  /** Whatever is read is a forest in preorder, as deep as the lists were. */
  lemma {:induction false} ReadIsForest(es: seq<Entry>, nodes: seq<Node>, parentId: int, l: Loaded, depth: nat)
    returns (f: seq<Tree>)
    requires Below(Order(nodes), |es|) && depth < MAX_DEPTH && depth + Height(nodes) <= MAX_DEPTH
    ensures var r := Load(es, nodes, parentId, l, depth);
            r.entries == l.entries + Listed(f, parentId) && r.ok == l.ok
    ensures Levels(f) == Height(nodes)
    decreases nodes
  {
    hide Order, IdFor;
    if nodes == [] {
      f := [];
      assert l.entries + [] == l.entries;
    } else {
      var node := nodes[0];
      HeightOfFirst(nodes);
      OrderParts(nodes, |es|);
      var id := IdFor(l.used, es[node.index].id);
      var here := WithRecord(l, id, parentId, es[node.index].fields);
      var inner := if node.kids != [] then Load(es, node.kids, id, here, depth + 1) else here;
      var kids := [];
      if node.kids != [] { kids := ReadIsForest(es, node.kids, id, here, depth + 1); }
      assert inner.entries == here.entries + Listed(kids, id);
      var rest := ReadIsForest(es, nodes[1..], parentId, inner, depth);
      f := Joined(l.entries, id, es[node.index].fields, kids, rest, parentId);
    }
  }

  lemma {:induction false} Joined(p: seq<Entry>, id: int, fields: string, kids: seq<Tree>, rest: seq<Tree>, parentId: int)
    returns (f: seq<Tree>)
    ensures p + Listed(f, parentId) == p + [Entry(id, parentId, fields)] + Listed(kids, id) + Listed(rest, parentId)
    ensures Levels(f) == Max(1 + Levels(kids), Levels(rest))
  {
    f := [Tree(id, fields, kids)] + rest;
    assert f[1..] == rest;
    ListedFirst(f, parentId);
    hide *;
    Gathered(p, [Entry(id, parentId, fields)], Listed(kids, id), Listed(rest, parentId));
  }

  lemma {:induction false} ReloadedIsForest(es: seq<Entry>)
    ensures PreorderForest(Reloaded(es).entries) && Reloaded(es).ok
  {
    ReloadedIs(es);
    SavedExactlyOnce(es);
    var none := Loaded([], [], true);
    LoadKeeps(es, Saved(es), -1, none, 0);
    var f := ReadIsForest(es, Saved(es), -1, none, 0);
    assert [] + Listed(f, -1) == Listed(f, -1);
  }

  /** A saved table loads as itself exactly when it is a forest in preorder with unique ids that
      are not negative and at most 64 levels; any other table is turned into one. */
  lemma {:induction false} RoundTrip(es: seq<Entry>)
    ensures Reloaded(es).entries == es <==> PreorderForest(es)
    ensures Reloaded(es).ok
  {
    hide Reloaded;
    ReloadedIsForest(es);
    if PreorderForest(es) {
      var f :| es == Listed(f, -1) && Levels(f) <= MAX_DEPTH;
      ForestComesBack(es, f);
    }
  }

  /** From `n` on, `r` has the entries named by `order`, ids and parents aside. */
  ghost predicate FieldsFrom(es: seq<Entry>, r: seq<Entry>, n: nat, order: seq<nat>)
  {
    |r| == n + |order| && forall k :: 0 <= k < |order| ==> order[k] < |es| && r[n + k].fields == es[order[k]].fields
  }

  lemma {:induction false} FieldsJoin(es: seq<Entry>, p: seq<Entry>, e: Entry, i: nat, inner: seq<Entry>, a: seq<nat>,
      r: seq<Entry>, b: seq<nat>)
    requires i < |es| && e.fields == es[i].fields
    requires p + [e] <= inner && FieldsFrom(es, inner, |p| + 1, a)
    requires inner <= r && FieldsFrom(es, r, |inner|, b)
    ensures p <= r && FieldsFrom(es, r, |p|, [i] + a + b)
  {
    var o := [i] + a + b;
    assert r[|p|] == inner[|p|] == (p + [e])[|p|];
    forall k | 0 <= k < |o| ensures o[k] < |es| && r[|p| + k].fields == es[o[k]].fields {
      if 0 < k <= |a| {
        assert o[k] == a[k - 1] && r[|p| + k] == inner[|p| + 1 + (k - 1)];
      } else if k > |a| {
        assert o[k] == b[k - 1 - |a|] && r[|p| + k] == r[|inner| + (k - 1 - |a|)];
      }
    }
  }

  lemma {:induction false} FieldsRead(es: seq<Entry>, nodes: seq<Node>, parentId: int, l: Loaded, depth: nat)
    requires Below(Order(nodes), |es|) && depth < MAX_DEPTH && depth + Height(nodes) <= MAX_DEPTH
    ensures l.entries <= Load(es, nodes, parentId, l, depth).entries
    ensures FieldsFrom(es, Load(es, nodes, parentId, l, depth).entries, |l.entries|, Order(nodes))
    decreases nodes
  {
    hide IdFor, Order, Height, FieldsFrom;
    if nodes == [] {
      NoOrder(es, l.entries);
    } else {
      var node := nodes[0];
      HeightOfFirst(nodes);
      OrderParts(nodes, |es|);
      var id := IdFor(l.used, es[node.index].id);
      var here := WithRecord(l, id, parentId, es[node.index].fields);
      var inner := if node.kids != [] then Load(es, node.kids, id, here, depth + 1) else here;
      if node.kids != [] { FieldsRead(es, node.kids, id, here, depth + 1); } else { NoOrder(es, here.entries); }
      FieldsRead(es, nodes[1..], parentId, inner, depth);
      OrderFirst(nodes);
      FieldsJoin(es, l.entries, Entry(id, parentId, es[node.index].fields), node.index, inner.entries, Order(node.kids),
        Load(es, nodes[1..], parentId, inner, depth).entries, Order(nodes[1..]));
    }
  }

  lemma {:induction false} NoOrder(es: seq<Entry>, r: seq<Entry>)
    ensures FieldsFrom(es, r, |r|, Order([]))
  {
  }

  /** Entry for entry, the table loaded is the one saved, in the order it was written. */
  lemma {:induction false} EntriesKept(es: seq<Entry>)
    ensures var r, o := Reloaded(es).entries, Order(Saved(es));
            && |r| == |o| && NoDuplicates(o) && (forall i: nat :: i in o <==> i < |es|)
            && forall k :: 0 <= k < |o| ==> o[k] < |es| && r[k].fields == es[o[k]].fields
  {
    hide Order, Saved, Load;
    SavedExactlyOnce(es);
    SavedNames(es);
    ReloadedIs(es);
    FieldsRead(es, Saved(es), -1, Loaded([], [], true), 0);
  }

  /** So what one save and load makes of a table, the next ones keep. */
  lemma {:induction false} ReloadSettles(es: seq<Entry>)
    ensures Reloaded(Reloaded(es).entries).entries == Reloaded(es).entries
  {
    hide Reloaded, PreorderForest;
    ReloadedIsForest(es);
    RoundTrip(Reloaded(es).entries);
  }

  /** Nested lists load without complaint exactly as long as there are no more than 64 of them in each
      other; what is nested deeper is left out. */
  lemma {:induction false} LoadsExactly(es: seq<Entry>, nodes: seq<Node>, parentId: int, l: Loaded, depth: nat)
    requires Below(Order(nodes), |es|)
    ensures Load(es, nodes, parentId, l, depth).ok <==> l.ok && depth < 64 && depth + Height(nodes) <= 64
    decreases nodes
  {
    hide Order, IdFor;
    if depth < MAX_DEPTH && nodes != [] {
      var node := nodes[0];
      HeightOfFirst(nodes);
      OrderParts(nodes, |es|);
      var id := IdFor(l.used, es[node.index].id);
      var here := WithRecord(l, id, parentId, es[node.index].fields);
      var inner := if node.kids != [] then Load(es, node.kids, id, here, depth + 1) else here;
      if node.kids != [] { LoadsExactly(es, node.kids, id, here, depth + 1); } else { assert Height(node.kids) == 0; }
      LoadsExactly(es, nodes[1..], parentId, inner, depth);
    }
  }
}
