/** core/autoasm.cpp: a failed enable whose undo, too, failed is undone only after other scripts came and went. */
module LateUndo {
  import opened Memory
  import opened Layers

  // ------------------------------------------------------- events that work

  predicate Can(w: World, e: Event)
  {
    match e
    case Enable(written, saved) => written.Keys == saved.Keys && written.Keys <= w.mem.Keys
    case Disable(k) => k < |w.layers|
    case _ => false
  }

  function After(w: World, e: Event): World
    requires Can(w, e)
  {
    if e.Enable? then World(Overlay(w.mem, e.written), w.layers + [Layer(Found(w.mem, e.written), e.written, e.saved, false)])
    else Disabled(w, e.k)
  }

  lemma {:induction false} AfterIsStep(w: World, e: Event, w': World)
    requires e.Enable? || e.Disable?
    ensures Step(w, e, w') <==> Can(w, e) && w' == After(w, e)
  {
    hide Overlay, Found, Disabled;
  }

  predicate Doable(w: World, events: seq<Event>)
    decreases |events|
  {
    events == [] || (Can(w, events[0]) && Doable(After(w, events[0]), events[1..]))
  }

  function AllAfter(w: World, events: seq<Event>): World
    requires Doable(w, events)
    decreases |events|
  {
    if events == [] then w else AllAfter(After(w, events[0]), events[1..])
  }

  lemma {:induction false} CanKeeps(w: World, e: Event)
    requires WellFormed(w) && Can(w, e)
    ensures WellFormed(After(w, e)) && After(w, e).mem.Keys == w.mem.Keys
    ensures |After(w, e).layers| == if e.Enable? then |w.layers| + 1 else |w.layers| - 1
  {
    hide Without, WellFormed, Overlay, Found, PutBack;
    AfterIsStep(w, e, After(w, e));
    StepKeepsShape(w, e, After(w, e));
  }

  /** What can be done does not depend on the values. */
  lemma {:induction false} SameDoable(w: World, v: World, events: seq<Event>)
    requires WellFormed(w) && WellFormed(v) && w.mem.Keys == v.mem.Keys && |w.layers| == |v.layers|
    requires Doable(w, events)
    ensures Doable(v, events)
    decreases |events|
  {
    if events != [] {
      CanKeeps(w, events[0]);
      CanKeeps(v, events[0]);
      hide After, WellFormed;
      SameDoable(After(w, events[0]), After(v, events[0]), events[1..]);
    }
  }

  // ------------------------------------------- the scripts before and those since

  /** Of the layers before the failed enable those that are left. */
  function OlderLeft(layers: seq<Layer>, events: seq<Event>): seq<Layer>
    decreases |events|
  {
    if events == [] then layers
    else OlderLeft(OlderAfter(layers, events[0]), events[1..])
  }

  function OlderAfter(layers: seq<Layer>, e: Event): seq<Layer>
  {
    if e.Disable? && e.k < |layers| then Without(layers, e.k) else layers
  }

  /** What the scripts wrote that were enabled since and are left; `n` older ones lie below. */
  function LaterLeft(n: nat, later: seq<Mem>, events: seq<Event>): seq<Mem>
    decreases |events|
  {
    if events == [] then later
    else LaterLeft(if events[0].Disable? && events[0].k < n then n - 1 else n, LaterAfter(n, later, events[0]), events[1..])
  }

  function LaterAfter(n: nat, later: seq<Mem>, e: Event): seq<Mem>
  {
    if e.Enable? then later + [e.written]
    else if e.Disable? && n <= e.k < n + |later| then later[..e.k - n] + later[e.k - n + 1..] else later
  }

  /** What the newest of them wrote at `a`. */
  function TopWrite(later: seq<Mem>, a: Addr): Option<Byte>
  {
    if later == [] then None
    else if a in later[|later| - 1] then Some(later[|later| - 1][a]) else TopWrite(later[..|later| - 1], a)
  }

  /** What the disables of the older scripts make of a byte that shows `x` below the later ones. */
  function Below(layers: seq<Layer>, events: seq<Event>, a: Addr, x: Byte): Byte
    decreases |events|
  {
    if events == [] then x else Below(OlderAfter(layers, events[0]), events[1..], a, BelowAfter(layers, events[0], a, x))
  }

  function BelowAfter(layers: seq<Layer>, e: Event, a: Addr, x: Byte): Byte
  {
    if e.Disable? && e.k < |layers| && a in PutBack(layers, e.k) then PutBack(layers, e.k)[a] else x
  }

  /** The layers of `w` are the older ones and above them layers that wrote `later`. */
  ghost predicate Stacked(w: World, older: seq<Layer>, later: seq<Mem>)
  {
    && WellFormed(w) && |w.layers| == |older| + |later| && w.layers[..|older|] == older
    && forall j :: 0 <= j < |later| ==> LaterAt(w.layers, |older|, later, j)
  }

  predicate LaterAt(layers: seq<Layer>, n: nat, later: seq<Mem>, j: nat)
  {
    j < |later| && n + j < |layers| && layers[n + j].written == later[j] && !layers[n + j].shaken
  }

  /** The value at `a` with only the first `j` layers in place, of which the first `n` leave `x`. */
  function Standing(layers: seq<Layer>, n: nat, j: nat, a: Addr, x: Byte): Byte
    requires j <= |layers| && Keyed(layers)
  {
    var p := Newest(layers, j, a);
    if p >= n then layers[p].written[a] else x
  }

  ghost predicate ByteAt(w: World, n: nat, a: Addr, x: Byte)
    requires Keyed(w.layers)
  {
    && a in w.mem && w.mem[a] == Standing(w.layers, n, |w.layers|, a, x)
    && forall j :: n <= j < |w.layers| ==> RestoresAt(w.layers, n, j, a, x)
  }

  ghost predicate RestoresAt(layers: seq<Layer>, n: nat, j: nat, a: Addr, x: Byte)
    requires j < |layers| && Keyed(layers)
  {
    a in layers[j].restore ==> layers[j].restore[a] == Standing(layers, n, j, a, x)
  }

  // ------------------------------------------------------------- one event

  lemma {:induction false} EnableStacks(w: World, e: Event, older: seq<Layer>, later: seq<Mem>)
    requires Stacked(w, older, later) && Can(w, e) && e.Enable?
    ensures Stacked(After(w, e), older, later + [e.written])
  {
    CanKeeps(w, e);
    hide WellFormed, Overlay, Found;
    var r, all := After(w, e).layers, later + [e.written];
    assert r[..|older|] == w.layers[..|older|];
    forall j | 0 <= j < |all| ensures LaterAt(r, |older|, all, j) {
      if j < |later| { assert LaterAt(w.layers, |older|, later, j); }
    }
  }

  lemma {:induction false} EnableByte(w: World, e: Event, n: nat, a: Addr, x: Byte)
    requires WellFormed(w) && Can(w, e) && e.Enable? && n <= |w.layers| && ByteAt(w, n, a, x)
    ensures WellFormed(After(w, e)) && ByteAt(After(w, e), n, a, x)
  {
    CanKeeps(w, e);
    var w' := After(w, e);
    var m := |w.layers|;
    hide WellFormed, Keyed, Newest;
    forall j | n <= j < m + 1 ensures RestoresAt(w'.layers, n, j, a, x) {
      NewestOfPrefix(w.layers, w'.layers, j, a);
      if j < m { assert RestoresAt(w.layers, n, j, a, x); }
    }
    NewestOfPrefix(w.layers, w'.layers, m, a);
    NewestNext(w'.layers, m, a);
  }

  lemma {:induction false} NewestNext(layers: seq<Layer>, n: nat, a: Addr)
    requires n < |layers|
    ensures Newest(layers, n + 1, a) == if a in layers[n].restore then n else Newest(layers, n, a)
  {
  }

  lemma {:induction false} DisableStacks(w: World, e: Event, older: seq<Layer>, later: seq<Mem>)
    requires Stacked(w, older, later) && Can(w, e) && e.Disable?
    ensures Stacked(After(w, e), OlderAfter(older, e), LaterAfter(|older|, later, e))
  {
    hide *;
    StackedShape(w, older, later);
    CanKeeps(w, e);
    DisabledLayers(w, e);
    var n, rest := |OlderAfter(older, e)|, LaterAfter(|older|, later, e);
    OlderStay(w.layers, older, e);
    OlderCounts(older, e);
    LaterCounts(|older|, later, e);
    CanDisable(w, e);
    forall j | 0 <= j < |rest| ensures LaterAt(Without(w.layers, e.k), n, rest, j) { LaterStay(w, older, later, e, j); }
    StackedIs(After(w, e), OlderAfter(older, e), rest);
  }

  lemma {:induction false} CanDisable(w: World, e: Event)
    requires Can(w, e) && e.Disable?
    ensures e.k < |w.layers|
  {
  }

  lemma {:induction false} DisabledLayers(w: World, e: Event)
    requires Can(w, e) && e.Disable?
    ensures e.k < |w.layers| && After(w, e).layers == Without(w.layers, e.k) && After(w, e) == Disabled(w, e.k)
  {
    hide Without, PutBack, Overlay;
  }

  lemma {:induction false} StackedIs(w: World, older: seq<Layer>, later: seq<Mem>)
    requires WellFormed(w) && |w.layers| == |older| + |later| && w.layers[..|older|] == older
    requires forall j :: 0 <= j < |later| ==> LaterAt(w.layers, |older|, later, j)
    ensures Stacked(w, older, later)
  {
    hide WellFormed, LaterAt;
  }

  lemma {:induction false} LaterCounts(n: nat, later: seq<Mem>, e: Event)
    ensures |LaterAfter(n, later, e)| ==
            if e.Enable? then |later| + 1 else if e.Disable? && n <= e.k < n + |later| then |later| - 1 else |later|
  {
  }

  lemma {:induction false} OlderStay(layers: seq<Layer>, older: seq<Layer>, e: Event)
    requires |older| <= |layers| && layers[..|older|] == older && e.Disable? && e.k < |layers|
    ensures |OlderAfter(older, e)| <= |layers| - 1 && Without(layers, e.k)[..|OlderAfter(older, e)|] == OlderAfter(older, e)
  {
    hide Inherit;
    assert forall i :: 0 <= i < |older| ==> layers[i] == older[i];
    var k, r := e.k, Without(layers, e.k);
    if k < |older| {
      forall j | 0 <= j < |older| - 1 ensures r[j] == Without(older, k)[j] {
        if j >= k { SameHeir(layers, older, k, j + 1); }
      }
    } else {
      assert r[..|older|] == older;
    }
  }

  lemma {:induction false} LaterStay(w: World, older: seq<Layer>, later: seq<Mem>, e: Event, j: nat)
    requires Stacked(w, older, later) && Can(w, e) && e.Disable? && j < |LaterAfter(|older|, later, e)|
    ensures e.k < |w.layers| && LaterAt(Without(w.layers, e.k), |OlderAfter(older, e)|, LaterAfter(|older|, later, e), j)
  {
    hide *;
    StackedShape(w, older, later);
    CanDisable(w, e);
    OlderCounts(older, e);
    LaterCounts(|older|, later, e);
    var at := |OlderAfter(older, e)| + j;
    var i: nat := if at < e.k then at - |older| else at + 1 - |older|;
    LaterHolds(w, older, later, i, 0);
    LaterPick(|older|, later, e, j);
    WrittenBelow(w.layers, e.k, at);
    LaterIs(Without(w.layers, e.k), |OlderAfter(older, e)|, LaterAfter(|older|, later, e), j);
  }

  lemma {:induction false} LaterPick(n: nat, later: seq<Mem>, e: Event, j: nat)
    requires e.Disable? && j < |LaterAfter(n, later, e)| && e.k < n + |later|
    ensures var i := if e.k < n || n + j < e.k then j else j + 1; i < |later| && LaterAfter(n, later, e)[j] == later[i]
  {
  }

  lemma {:induction false} WrittenBelow(layers: seq<Layer>, k: nat, at: nat)
    requires k < |layers| && at < |layers| - 1
    ensures var p := layers[if at < k then at else at + 1];
            Without(layers, k)[at].written == p.written && Without(layers, k)[at].shaken == p.shaken
  {
    hide Inherit;
    if at >= k { WrittenStays(layers, k, at + 1); }
  }

  lemma {:induction false} LaterIs(layers: seq<Layer>, n: nat, later: seq<Mem>, j: nat)
    requires j < |later| && n + j < |layers| && layers[n + j].written == later[j] && !layers[n + j].shaken
    ensures LaterAt(layers, n, later, j)
  {
  }

  lemma {:induction false} WrittenStays(layers: seq<Layer>, k: nat, j: nat)
    requires k < j < |layers|
    ensures Inherit(layers, k, j).written == layers[j].written && Inherit(layers, k, j).shaken == layers[j].shaken
  {
    hide Heir;
  }

  lemma {:induction false} SameHeir(layers: seq<Layer>, older: seq<Layer>, k: nat, j: nat)
    requires |older| <= |layers| && layers[..|older|] == older && k < j < |older|
    ensures Inherit(layers, k, j) == Inherit(older, k, j)
  {
    assert forall i :: 0 <= i < |older| ==> layers[i] == older[i];
    forall a: Addr ensures Heir(layers, k, j, a) <==> Heir(older, k, j, a) { NewestOfPrefix(layers, older, j, a); }
    hide Heir;
  }

  /** What is left of `n` older layers, and of what they leave at `a`, when layer `k` goes. */
  function OlderCount(n: nat, k: nat): nat { if k < n then n - 1 else n }

  function LeftAt(layers: seq<Layer>, n: nat, k: nat, a: Addr, x: Byte): Byte
    requires k < |layers| && n <= |layers|
  {
    if k < n && a in layers[k].restore && Newest(layers, n, a) == k then layers[k].restore[a] else x
  }

  /** `v` stood at `a` below layer `j`; what stands there after layer `k` went. */
  lemma {:induction false} StandsAfter(layers: seq<Layer>, n: nat, k: nat, j: nat, a: Addr, x: Byte, v: Byte)
    requires Keyed(layers) && k < j <= |layers| && n <= j && Keyed(Without(layers, k))
    requires v == Standing(layers, n, j, a, x) && (k >= n ==> RestoresAt(layers, n, k, a, x))
    ensures Standing(Without(layers, k), OlderCount(n, k), j - 1, a, LeftAt(layers, n, k, a, x))
      == if a in layers[k].restore && Newest(layers, j, a) == k then layers[k].restore[a] else v
  {
    NewestWithout(layers, k, j, a);
    var p := Newest(layers, j, a);
    if p > k { WrittenStays(layers, k, p); }
    SameBelow(layers, n, j, a);
    if p == k && k >= n { LowerStays(layers, k, Newest(layers, k, a)); }
    hide Inherit, Newest;
  }

  lemma {:induction false} LowerStays(layers: seq<Layer>, k: nat, p: int)
    requires k < |layers| && p < k
    ensures 0 <= p ==> Without(layers, k)[p] == layers[p]
  {
    hide Inherit;
  }

  lemma {:induction false} DisableByte(w: World, e: Event, n: nat, a: Addr, x: Byte)
    requires WellFormed(w) && Can(w, e) && e.Disable? && n <= |w.layers| && ByteAt(w, n, a, x)
    ensures WellFormed(After(w, e)) && ByteAt(After(w, e), OlderCount(n, e.k), a, LeftAt(w.layers, n, e.k, a, x))
  {
    hide *;
    CanKeeps(w, e);
    DisabledLayers(w, e);
    ShapeIsKeyed(w, After(w, e));
    ByteParts(w, n, a, x);
    var k, n', x' := e.k, OlderCount(n, e.k), LeftAt(w.layers, n, e.k, a, x);
    MemAfter(w, k, a);
    StandsAfter(w.layers, n, k, |w.layers|, a, x, w.mem[a]);
    forall j | n' <= j < |w.layers| - 1 ensures RestoresAt(Without(w.layers, k), n', j, a, x') {
      RestoredAfter(w.layers, n, k, j, a, x);
    }
    ByteIs(After(w, e), n', a, x');
  }

  lemma {:induction false} ByteParts(w: World, n: nat, a: Addr, x: Byte)
    requires Keyed(w.layers) && ByteAt(w, n, a, x)
    ensures a in w.mem && w.mem[a] == Standing(w.layers, n, |w.layers|, a, x)
    ensures forall j :: n <= j < |w.layers| ==> RestoresAt(w.layers, n, j, a, x)
  {
    hide Keyed, Standing, RestoresAt;
  }

  lemma {:induction false} ByteIs(w: World, n: nat, a: Addr, x: Byte)
    requires Keyed(w.layers) && a in w.mem && w.mem[a] == Standing(w.layers, n, |w.layers|, a, x)
    requires forall j :: n <= j < |w.layers| ==> RestoresAt(w.layers, n, j, a, x)
    ensures ByteAt(w, n, a, x)
  {
    hide Keyed, Standing, RestoresAt;
  }

  lemma {:induction false} MemAfter(w: World, k: nat, a: Addr)
    requires k < |w.layers| && a in w.mem
    ensures a in Disabled(w, k).mem
    ensures Disabled(w, k).mem[a]
      == if a in w.layers[k].restore && Newest(w.layers, |w.layers|, a) == k then w.layers[k].restore[a] else w.mem[a]
  {
    hide Newest;
  }

  lemma {:induction false} ShapeIsKeyed(w: World, v: World)
    requires WellFormed(w) && WellFormed(v)
    ensures Keyed(w.layers) && Keyed(v.layers)
  {
  }

  lemma {:induction false} RestoredAfter(layers: seq<Layer>, n: nat, k: nat, i: nat, a: Addr, x: Byte)
    requires Keyed(layers) && k < |layers| && OlderCount(n, k) <= i < |layers| - 1 && n <= |layers| && Keyed(Without(layers, k))
    requires forall j :: n <= j < |layers| ==> RestoresAt(layers, n, j, a, x)
    ensures RestoresAt(Without(layers, k), OlderCount(n, k), i, a, LeftAt(layers, n, k, a, x))
  {
    hide Newest, Keyed, Without;
    if k >= n { assert RestoresAt(layers, n, k, a, x); }
    if i < k {
      LowerStays(layers, k, i);
      assert RestoresAt(layers, n, i, a, x);
      SameLower(layers, n, k, i, a, x);
    } else {
      assert RestoresAt(layers, n, i + 1, a, x);
      HeritageAt(layers, k, i + 1, a);
      if a in layers[i + 1].restore { StandsAfter(layers, n, k, i + 1, a, x, layers[i + 1].restore[a]); }
    }
  }

  lemma {:induction false} SameLower(layers: seq<Layer>, n: nat, k: nat, i: nat, a: Addr, x: Byte)
    requires i < k < |layers| && Keyed(layers) && Keyed(Without(layers, k))
    ensures Standing(Without(layers, k), n, i, a, x) == Standing(layers, n, i, a, x)
  {
    BelowStays(layers, k);
    hide Without, Keyed;
    NewestOfPrefix(layers, Without(layers, k), i, a);
    LowerStays(layers, k, Newest(layers, i, a));
  }

  lemma {:induction false} HeritageAt(layers: seq<Layer>, k: nat, j: nat, a: Addr)
    requires k < j < |layers|
    ensures a in Without(layers, k)[j - 1].restore <==> a in layers[j].restore
    ensures a in layers[j].restore ==>
              var now := Without(layers, k)[j - 1].restore[a];
              now == if a in layers[k].restore && Newest(layers, j, a) == k then layers[k].restore[a] else layers[j].restore[a]
  {
  }

  /** The newest holder below `n` is the newest below `j` when that is below `n`. */
  lemma {:induction false} SameBelow(layers: seq<Layer>, n: nat, j: nat, a: Addr)
    requires n <= j <= |layers|
    ensures Newest(layers, j, a) < n ==> Newest(layers, n, a) == Newest(layers, j, a)
  {
    if n < j { SameBelow(layers, n, j - 1, a); }
  }

  // ------------------------------------------------------------ any number of them

  lemma {:induction false} ByteStep(w: World, e: Event, older: seq<Layer>, later: seq<Mem>, a: Addr, x: Byte)
    requires Stacked(w, older, later) && Can(w, e) && ByteAt(w, |older|, a, x)
    ensures Stacked(After(w, e), OlderAfter(older, e), LaterAfter(|older|, later, e))
    ensures ByteAt(After(w, e), |OlderAfter(older, e)|, a, BelowAfter(older, e, a, x))
  {
    StackedShape(w, older, later);
    hide Stacked, ByteAt, After, WellFormed, Keyed, Without;
    if e.Enable? {
      EnableStacks(w, e, older, later);
      EnableByte(w, e, |older|, a, x);
    } else {
      DisableStacks(w, e, older, later);
      DisableByte(w, e, |older|, a, x);
      SameLeft(w.layers, older, e, a, x);
    }
  }

  lemma {:induction false} StackedShape(w: World, older: seq<Layer>, later: seq<Mem>)
    requires Stacked(w, older, later)
    ensures WellFormed(w) && Keyed(w.layers) && |w.layers| == |older| + |later| && w.layers[..|older|] == older
  {
  }

  lemma {:induction false} SameLeft(layers: seq<Layer>, older: seq<Layer>, e: Event, a: Addr, x: Byte)
    requires |older| <= |layers| && layers[..|older|] == older && e.Disable? && e.k < |layers|
    ensures LeftAt(layers, |older|, e.k, a, x) == BelowAfter(older, e, a, x)
    ensures OlderCount(|older|, e.k) == |OlderAfter(older, e)|
  {
    assert forall i :: 0 <= i < |older| ==> layers[i] == older[i];
    NewestOfPrefix(layers, older, |older|, a);
    hide Newest;
  }

  lemma {:induction false} ByteRun(w: World, events: seq<Event>, older: seq<Layer>, later: seq<Mem>, a: Addr, x: Byte)
    requires Stacked(w, older, later) && Doable(w, events) && ByteAt(w, |older|, a, x)
    ensures Stacked(AllAfter(w, events), OlderLeft(older, events), LaterLeft(|older|, later, events))
    ensures ByteAt(AllAfter(w, events), |OlderLeft(older, events)|, a, Below(older, events, a, x))
    decreases |events|
  {
    hide Stacked, ByteAt, After, Can, OlderAfter, LaterAfter, BelowAfter;
    if events != [] {
      var e := events[0];
      ByteStep(w, e, older, later, a, x);
      OlderCounts(older, e);
      ByteRun(After(w, e), events[1..], OlderAfter(older, e), LaterAfter(|older|, later, e), a, BelowAfter(older, e, a, x));
    }
  }

  lemma {:induction false} OlderCounts(older: seq<Layer>, e: Event)
    ensures |OlderAfter(older, e)| == if e.Disable? && e.k < |older| then |older| - 1 else |older|
  {
    hide Inherit;
  }

  lemma {:induction false} ShapeRun(w: World, events: seq<Event>, older: seq<Layer>, later: seq<Mem>)
    requires Stacked(w, older, later) && Doable(w, events)
    ensures Stacked(AllAfter(w, events), OlderLeft(older, events), LaterLeft(|older|, later, events))
    decreases |events|
  {
    hide Stacked, After, Can, OlderAfter, LaterAfter;
    if events != [] {
      var e := events[0];
      if e.Enable? {
        EnableStacks(w, e, older, later);
      } else {
        OnlyTwoKinds(w, e);
        DisableStacks(w, e, older, later);
      }
      OlderCounts(older, e);
      if e.Enable? { NotOlder(older, later, e); }
      ShapeRun(After(w, e), events[1..], OlderAfter(older, e), LaterAfter(|older|, later, e));
    }
  }

  lemma {:induction false} OnlyTwoKinds(w: World, e: Event)
    requires Can(w, e)
    ensures e.Enable? || e.Disable?
  {
  }

  lemma {:induction false} NotOlder(older: seq<Layer>, later: seq<Mem>, e: Event)
    requires e.Enable?
    ensures OlderAfter(older, e) == older && LaterAfter(|older|, later, e) == later + [e.written]
  {
  }

  lemma {:induction false} NothingLater(m: Mem, layers: seq<Layer>, a: Addr)
    requires WellFormed(World(m, layers)) && a in m
    ensures Stacked(World(m, layers), layers, []) && ByteAt(World(m, layers), |layers|, a, m[a])
  {
    assert layers[..|layers|] == layers;
  }

  // ---------------------------------------------------------------- the late undo

  /** Two worlds that differ at most in what undos may write on their way. */
  ghost predicate Alike(w: World, v: World)
  {
    && w.mem == v.mem && |w.layers| == |v.layers|
    && forall j :: 0 <= j < |w.layers| ==>
         && w.layers[j].restore == v.layers[j].restore && w.layers[j].written == v.layers[j].written
         && w.layers[j].shaken == v.layers[j].shaken
  }

  /** What the late undo leaves at a byte it holds is right, `m` being what the failed enable left there:
      when no script enabled since still holds the byte, the older scripts disabled since must have left
      it as the enable found it; when one does, the newest such must have written just that value, and
      they must restore the same as if the failed enable had not left anything. */
  predicate StaysRight(layers: seq<Layer>, events: seq<Event>, undo: Mem, m: Mem, a: Addr)
    requires a in undo && a in m
  {
    var top := TopWrite(LaterLeft(|layers|, [], events), a);
    if top.None? then Below(layers, events, a, undo[a]) == undo[a]
    else top.value == undo[a] && Below(layers, events, a, m[a]) == Below(layers, events, a, undo[a])
  }

  lemma {:induction false} TopIsNewest(w: World, older: seq<Layer>, later: seq<Mem>, i: nat, a: Addr)
    requires Stacked(w, older, later) && i <= |later|
    ensures var p := Newest(w.layers, |older| + i, a);
            TopWrite(later[..i], a) == if p >= |older| then Some(w.layers[p].written[a]) else None
  {
    if i > 0 {
      TopIsNewest(w, older, later, i - 1, a);
      assert later[..i][..i - 1] == later[..i - 1];
      LaterHolds(w, older, later, i - 1, a);
      NewestNext(w.layers, |older| + i - 1, a);
    }
  }

  lemma {:induction false} LaterHolds(w: World, older: seq<Layer>, later: seq<Mem>, j: nat, a: Addr)
    requires Stacked(w, older, later) && j < |later|
    ensures a in w.layers[|older| + j].restore <==> a in later[j]
    ensures w.layers[|older| + j].restore.Keys == later[j].Keys && w.layers[|older| + j].written == later[j]
    ensures !w.layers[|older| + j].shaken
  {
    assert LaterAt(w.layers, |older|, later, j);
  }

  /** The lowest of the later layers that hold `a`. */
  lemma {:induction false} LowestHolder(layers: seq<Layer>, n: nat, j: nat, a: Addr) returns (i: nat)
    requires n <= j <= |layers| && Newest(layers, j, a) >= n
    ensures n <= i < j && a in layers[i].restore && Newest(layers, i, a) < n
  {
    i := Newest(layers, j, a);
    if Newest(layers, i, a) >= n { i := LowestHolder(layers, n, i, a); }
  }

  lemma {:induction false} SameNewest(w: World, v: World, older: seq<Layer>, later: seq<Mem>, j: nat, a: Addr)
    requires Stacked(w, older, later) && Stacked(v, older, later) && j <= |w.layers|
    ensures |v.layers| == |w.layers| && Newest(w.layers, j, a) == Newest(v.layers, j, a)
    ensures forall i :: 0 <= i < |w.layers| ==> w.layers[i].written == v.layers[i].written
  {
    forall i | 0 <= i < |w.layers|
      ensures w.layers[i].restore.Keys == v.layers[i].restore.Keys && w.layers[i].written == v.layers[i].written
    {
      if i < |older| {
        assert w.layers[i] == w.layers[..|older|][i] && v.layers[i] == v.layers[..|older|][i];
      } else {
        LaterHolds(w, older, later, i - |older|, a);
        LaterHolds(v, older, later, i - |older|, a);
      }
    }
    NewestOfPrefix(w.layers, v.layers, j, a);
  }

  ghost predicate SameRestores(w: World, v: World, n: nat, a: Addr)
    requires |w.layers| == |v.layers|
  {
    forall j :: n <= j < |w.layers| ==> SameRestore(w.layers[j], v.layers[j], a)
  }

  predicate SameRestore(x: Layer, y: Layer, a: Addr)
  {
    (a in x.restore <==> a in y.restore) && (a in x.restore ==> x.restore[a] == y.restore[a])
  }

  /** Two worlds of the same scripts, one byte of which differs below the later ones. */
  lemma {:induction false} TwoBytes(w: World, v: World, older: seq<Layer>, later: seq<Mem>, a: Addr, x: Byte, y: Byte)
    requires Stacked(w, older, later) && Stacked(v, older, later) && ByteAt(w, |older|, a, x) && ByteAt(v, |older|, a, y)
    ensures |w.layers| == |v.layers| && a in w.mem && a in v.mem
    ensures var top := TopWrite(later, a);
            && w.mem[a] == (if top.Some? then top.value else x) && v.mem[a] == (if top.Some? then top.value else y)
            && (SameRestores(w, v, |older|, a) <==> top.None? || x == y)
  {
    hide *;
    var n := |older|;
    StackedShape(w, older, later);
    StackedShape(v, older, later);
    TopByte(w, older, later, a, x);
    TopByte(v, older, later, a, y);
    TopIsNewest(w, older, later, |later|, a);
    assert later[..|later|] == later;
    forall j | n <= j < |w.layers| ensures TwoRestores(w, v, n, j, a, x, y) {
      RestoresTwo(w, v, older, later, j, a, x, y);
    }
    TwoOrOne(w, v, n, a, x, y);
  }

  lemma {:induction false} TopByte(w: World, older: seq<Layer>, later: seq<Mem>, a: Addr, x: Byte)
    requires Stacked(w, older, later) && ByteAt(w, |older|, a, x)
    ensures a in w.mem && w.mem[a] == if TopWrite(later, a).Some? then TopWrite(later, a).value else x
  {
    TopIsNewest(w, older, later, |later|, a);
    assert later[..|later|] == later;
    StackedShape(w, older, later);
    hide Stacked, TopWrite, Newest;
  }

  lemma {:induction false} TwoOrOne(w: World, v: World, n: nat, a: Addr, x: Byte, y: Byte)
    requires |w.layers| == |v.layers| && forall j :: n <= j < |w.layers| ==> TwoRestores(w, v, n, j, a, x, y)
    requires n <= |w.layers|
    ensures SameRestores(w, v, n, a) <==> Newest(w.layers, |w.layers|, a) < n || x == y
  {
    hide Newest;
    if Newest(w.layers, |w.layers|, a) >= n && x != y {
      var i := LowestHolder(w.layers, n, |w.layers|, a);
      assert TwoRestores(w, v, n, i, a, x, y);
      assert !SameRestore(w.layers[i], v.layers[i], a);
    } else {
      forall j | n <= j < |w.layers| ensures SameRestore(w.layers[j], v.layers[j], a) {
        assert TwoRestores(w, v, n, j, a, x, y);
      }
    }
  }

  /** Layer `j` of the two worlds: the same but where it is the lowest of the later ones. */
  ghost predicate TwoRestores(w: World, v: World, n: nat, j: nat, a: Addr, x: Byte, y: Byte)
    requires j < |w.layers| == |v.layers|
  {
    && (a in w.layers[j].restore <==> a in v.layers[j].restore)
    && (a in w.layers[j].restore ==>
          && Newest(w.layers, |w.layers|, a) >= n
          && (if Newest(w.layers, j, a) >= n then w.layers[j].restore[a] == v.layers[j].restore[a]
              else w.layers[j].restore[a] == x && v.layers[j].restore[a] == y))
  }

  lemma {:induction false} RestoresTwo(w: World, v: World, older: seq<Layer>, later: seq<Mem>, j: nat, a: Addr, x: Byte, y: Byte)
    requires Stacked(w, older, later) && Stacked(v, older, later) && |older| <= j < |w.layers| == |v.layers|
    requires ByteAt(w, |older|, a, x) && ByteAt(v, |older|, a, y)
    ensures TwoRestores(w, v, |older|, j, a, x, y)
  {
    StackedShape(w, older, later);
    StackedShape(v, older, later);
    LaterHolds(w, older, later, j - |older|, a);
    LaterHolds(v, older, later, j - |older|, a);
    SameNewest(w, v, older, later, j, a);
    assert RestoresAt(w.layers, |older|, j, a, x) && RestoresAt(v.layers, |older|, j, a, y);
    hide Stacked;
  }

  /** What the late undo makes of the world. */
  function UndoneLate(w: World, undo: Mem): World { World(Overlay(w.mem, undo), w.layers) }

  lemma {:induction false} AllKeys(w: World, events: seq<Event>)
    requires WellFormed(w) && Doable(w, events)
    ensures WellFormed(AllAfter(w, events)) && AllAfter(w, events).mem.Keys == w.mem.Keys
    decreases |events|
  {
    hide WellFormed, After, Can;
    if events != [] {
      CanKeeps(w, events[0]);
      AllKeys(After(w, events[0]), events[1..]);
    }
  }

  /** Both orders at `a`, before the late undo. */
  ghost predicate Compared(w: World, v: World, layers: seq<Layer>, events: seq<Event>, before: Mem, m: Mem, a: Addr)
    requires a in before && a in m
  {
    var top := TopWrite(LaterLeft(|layers|, [], events), a);
    var x, y := Below(layers, events, a, m[a]), Below(layers, events, a, before[a]);
    && |w.layers| == |v.layers| && a in w.mem && a in v.mem
    && w.mem[a] == (if top.Some? then top.value else x) && v.mem[a] == (if top.Some? then top.value else y)
    && (SameRestores(w, v, |OlderLeft(layers, events)|, a) <==> top.None? || x == y)
  }

  lemma {:induction false} CompareByte(before: Mem, m: Mem, layers: seq<Layer>, events: seq<Event>, a: Addr)
    requires WellFormed(World(before, layers)) && WellFormed(World(m, layers)) && a in before && a in m
    requires Doable(World(before, layers), events) && Doable(World(m, layers), events)
    ensures Compared(AllAfter(World(m, layers), events), AllAfter(World(before, layers), events), layers, events, before, m, a)
  {
    NothingLater(m, layers, a);
    NothingLater(before, layers, a);
    ByteRun(World(m, layers), events, layers, [], a, m[a]);
    ByteRun(World(before, layers), events, layers, [], a, before[a]);
    hide *;
    TwoBytes(AllAfter(World(m, layers), events), AllAfter(World(before, layers), events),
      OlderLeft(layers, events), LaterLeft(|layers|, [], events), a, Below(layers, events, a, m[a]), Below(layers, events, a, before[a]));
    ComparedIs(AllAfter(World(m, layers), events), AllAfter(World(before, layers), events), layers, events, before, m, a);
  }

  lemma {:induction false} ComparedIs(w: World, v: World, layers: seq<Layer>, events: seq<Event>, before: Mem, m: Mem, a: Addr)
    requires a in before && a in m && |w.layers| == |v.layers| && a in w.mem && a in v.mem
    requires var top := TopWrite(LaterLeft(|layers|, [], events), a);
             var x, y := Below(layers, events, a, m[a]), Below(layers, events, a, before[a]);
             && w.mem[a] == (if top.Some? then top.value else x) && v.mem[a] == (if top.Some? then top.value else y)
             && (SameRestores(w, v, |OlderLeft(layers, events)|, a) <==> top.None? || x == y)
    ensures Compared(w, v, layers, events, before, m, a)
  {
  }

  /** What the two orders agree in whatever the bytes are. */
  ghost predicate SameScripts(w: World, v: World, n: nat)
  {
    && WellFormed(w) && WellFormed(v) && w.mem.Keys == v.mem.Keys && n <= |w.layers| == |v.layers|
    && (forall j :: 0 <= j < n ==> w.layers[j] == v.layers[j])
    && forall j :: 0 <= j < |w.layers| ==> w.layers[j].written == v.layers[j].written && w.layers[j].shaken == v.layers[j].shaken
  }

  lemma {:induction false} ScriptsAgree(w: World, v: World, older: seq<Layer>, later: seq<Mem>)
    requires Stacked(w, older, later) && Stacked(v, older, later) && w.mem.Keys == v.mem.Keys
    ensures SameScripts(w, v, |older|)
  {
    hide WellFormed;
    forall j | 0 <= j < |w.layers|
      ensures w.layers[j].written == v.layers[j].written && w.layers[j].shaken == v.layers[j].shaken
      ensures j < |older| ==> w.layers[j] == v.layers[j]
    {
      if j < |older| {
        assert w.layers[j] == w.layers[..|older|][j] && v.layers[j] == v.layers[..|older|][j];
      } else {
        LaterHolds(w, older, later, j - |older|, 0);
        LaterHolds(v, older, later, j - |older|, 0);
      }
    }
  }

  /** Alike byte by byte. */
  lemma {:induction false} AlikeByBytes(w: World, v: World, undo: Mem, n: nat)
    requires SameScripts(w, v, n) && undo.Keys <= w.mem.Keys
    ensures Alike(UndoneLate(w, undo), v) <==>
      forall a :: a in w.mem ==> (if a in undo then undo[a] else w.mem[a]) == v.mem[a] && SameRestores(w, v, n, a)
  {
    var l := UndoneLate(w, undo);
    if forall a :: a in w.mem ==> (if a in undo then undo[a] else w.mem[a]) == v.mem[a] && SameRestores(w, v, n, a) {
      assert l.mem == v.mem;
      forall j | 0 <= j < |w.layers| ensures w.layers[j].restore == v.layers[j].restore {
        forall a | a in w.layers[j].restore ensures a in v.layers[j].restore && w.layers[j].restore[a] == v.layers[j].restore[a] {
          assert a in w.mem;
          if j >= n { assert SameRestore(w.layers[j], v.layers[j], a); }
        }
      }
    }
    if Alike(l, v) {
      forall a | a in w.mem ensures (if a in undo then undo[a] else w.mem[a]) == v.mem[a] && SameRestores(w, v, n, a) {
        assert l.mem[a] == v.mem[a];
      }
    }
  }

  /** The other order: after the failed enable other scripts are enabled and disabled, any number in any
      order, and only then it is undone. That leaves the same memory and the same restores as if it had
      been undone at once, exactly when each byte of the undo stays right. */
  lemma {:induction false} LateUndoExactly(before: Mem, m: Mem, undo: Mem, layers: seq<Layer>, events: seq<Event>)
    requires WellFormed(World(before, layers)) && LeftBehind(before, m, undo) && Doable(World(before, layers), events)
    ensures Doable(World(m, layers), events)
    ensures Alike(UndoneLate(AllAfter(World(m, layers), events), undo), AllAfter(World(before, layers), events)) <==>
            forall a :: a in undo ==> a in m && StaysRight(layers, events, undo, m, a)
  {
    SameDoable(World(before, layers), World(m, layers), events);
    AllKeys(World(m, layers), events);
    AllKeys(World(before, layers), events);
    BothStacked(before, m, layers, events);
    var w, v, n := AllAfter(World(m, layers), events), AllAfter(World(before, layers), events), |OlderLeft(layers, events)|;
    hide WellFormed, Doable, AllAfter, OlderLeft, Alike, SameScripts, SameRestores, StaysRight;
    AlikeByBytes(w, v, undo, n);
    forall a | a in before
      ensures (if a in undo then undo[a] else w.mem[a]) == v.mem[a] && SameRestores(w, v, n, a) <==>
              (a in undo ==> StaysRight(layers, events, undo, m, a))
    {
      CompareByte(before, m, layers, events, a);
      ByteVerdict(before, m, undo, layers, events, w, v, a);
    }
  }

  lemma {:induction false} BothStacked(before: Mem, m: Mem, layers: seq<Layer>, events: seq<Event>)
    requires WellFormed(World(before, layers)) && m.Keys == before.Keys
    requires Doable(World(before, layers), events) && Doable(World(m, layers), events)
    ensures SameScripts(AllAfter(World(m, layers), events), AllAfter(World(before, layers), events), |OlderLeft(layers, events)|)
  {
    hide SameScripts, ByteAt, Below;
    AllKeys(World(m, layers), events);
    AllKeys(World(before, layers), events);
    assert layers[..|layers|] == layers;
    ShapeRun(World(m, layers), events, layers, []);
    ShapeRun(World(before, layers), events, layers, []);
    ScriptsAgree(AllAfter(World(m, layers), events), AllAfter(World(before, layers), events),
      OlderLeft(layers, events), LaterLeft(|layers|, [], events));
  }

  lemma {:induction false} ByteVerdict(before: Mem, m: Mem, undo: Mem, layers: seq<Layer>, events: seq<Event>, w: World, v: World, a: Addr)
    requires LeftBehind(before, m, undo) && a in before && Compared(w, v, layers, events, before, m, a)
    ensures |w.layers| == |v.layers| && a in w.mem && a in v.mem
    ensures (if a in undo then undo[a] else w.mem[a]) == v.mem[a] && SameRestores(w, v, |OlderLeft(layers, events)|, a) <==>
            (a in undo ==> StaysRight(layers, events, undo, m, a))
  {
    hide SameRestores, Below, TopWrite, LaterLeft, OlderLeft;
  }

  /** A stretch of a run in which scripts are only enabled and disabled. */
  lemma {:induction false} Stretch(worlds: seq<World>, events: seq<Event>, i: nat, j: nat)
    requires i <= j <= |events| < |worlds|
    requires forall t :: i <= t < j ==> (events[t].Enable? || events[t].Disable?) && Step(worlds[t], events[t], worlds[t + 1])
    ensures Doable(worlds[i], events[i..j]) && AllAfter(worlds[i], events[i..j]) == worlds[j]
    decreases j - i
  {
    hide Step, Can, After;
    if i < j {
      AfterIsStep(worlds[i], events[i], worlds[i + 1]);
      Stretch(worlds, events, i + 1, j);
      assert events[i..j][0] == events[i] && events[i..j][1..] == events[i + 1..j];
    }
  }

  /** In any run: an enable fails at `i`, other scripts are enabled and disabled, and the undo is tried
      again at `j`. */
  lemma {:induction false} LateRetry(initial: Mem, worlds: seq<World>, events: seq<Event>, i: nat, j: nat, undo: Mem)
    requires Run(initial, worlds, events) && i < j < |events|
    requires events[i] == FailedEnable(undo) && events[j] == Retry(undo)
    requires forall t :: i < t < j ==> events[t].Enable? || events[t].Disable?
    ensures Doable(worlds[i], events[i + 1..j])
    ensures Alike(worlds[j + 1], AllAfter(worlds[i], events[i + 1..j])) <==>
            forall a :: a in undo ==> a in worlds[i + 1].mem && StaysRight(worlds[i].layers, events[i + 1..j], undo, worlds[i + 1].mem, a)
  {
    hide *;
    RunLength(initial, worlds, events);
    RunStarts(initial, worlds, events, i);
    RunStarts(initial, worlds, events, i + 1);
    forall t: nat | t < |events| ensures Step(worlds[t], events[t], worlds[t + 1]) { StepOf(initial, worlds, events, t, 0); }
    Stretch(worlds, events, i + 1, j);
    FailedAndRetried(worlds[i], worlds[i + 1], worlds[j], worlds[j + 1], undo);
    var mid := events[i + 1..j];
    SameDoable(worlds[i + 1], worlds[i], mid);
    LateUndoExactly(worlds[i].mem, worlds[i + 1].mem, undo, worlds[i].layers, mid);
  }

  lemma {:induction false} FailedAndRetried(w: World, torn: World, late: World, w': World, undo: Mem)
    requires Step(w, FailedEnable(undo), torn) && Step(late, Retry(undo), w')
    ensures w == World(w.mem, w.layers) && torn == World(torn.mem, w.layers) && w.mem.Keys == torn.mem.Keys
    ensures LeftBehind(w.mem, torn.mem, undo) && w' == UndoneLate(late, undo)
  {
    hide Overlay;
  }

  // ------------------------------------------------------- and what is right then

  lemma {:induction false} RunKeepsInvariant(initial: Mem, w: World, events: seq<Event>)
    requires Invariant(initial, w) && Doable(w, events)
    ensures Invariant(initial, AllAfter(w, events))
    decreases |events|
  {
    hide Invariant, After, Can;
    if events != [] {
      OnlyTwoKinds(w, events[0]);
      AfterIsStep(w, events[0], After(w, events[0]));
      StepKeeps(initial, w, events[0], After(w, events[0]));
      RunKeepsInvariant(initial, After(w, events[0]), events[1..]);
    }
  }

  predicate Unshaken(layers: seq<Layer>) { forall k :: 0 <= k < |layers| ==> !layers[k].shaken }

  lemma {:induction false} WithoutUnshaken(layers: seq<Layer>, k: nat)
    requires Unshaken(layers) && k < |layers|
    ensures Unshaken(Without(layers, k))
  {
    forall j | 0 <= j < |layers| - 1 ensures !Without(layers, k)[j].shaken {
      if j >= k { WrittenStays(layers, k, j + 1); }
    }
  }

  lemma {:induction false} StaysUnshaken(w: World, events: seq<Event>)
    requires Unshaken(w.layers) && Doable(w, events)
    ensures Unshaken(AllAfter(w, events).layers)
    decreases |events|
  {
    hide Without, Overlay, Found, PutBack;
    if events != [] {
      OnlyTwoKinds(w, events[0]);
      if events[0].Disable? { WithoutUnshaken(w.layers, events[0].k); }
      StaysUnshaken(After(w, events[0]), events[1..]);
    }
  }

  /** The same scripts, none of them shaken. */
  ghost predicate Twins(x: seq<Layer>, y: seq<Layer>)
  {
    && |x| == |y| && Unshaken(x) && Unshaken(y) && Keyed(x) && Keyed(y)
    && forall j :: 0 <= j < |x| ==> x[j].written == y[j].written
  }

  lemma {:induction false} TwinsFit(initial: Mem, x: seq<Layer>, y: seq<Layer>, n: nat, a: Addr, v: Byte, u: Byte)
    requires Twins(x, y) && n <= |x| && Fits(initial, x, n, a, v)
    ensures Fits(initial, y, n, a, u) <==> u == v
  {
    forall k | 0 <= k < n ensures x[k].restore.Keys == y[k].restore.Keys { assert x[k].written == y[k].written; }
    NewestOfPrefix(x, y, n, a);
  }

  lemma {:induction false} TwinKeys(x: seq<Layer>, y: seq<Layer>, j: nat)
    requires Twins(x, y) && j < |x|
    ensures x[j].restore.Keys == y[j].restore.Keys
  {
    assert x[j].written == y[j].written;
  }

  /** The scripts that are there determine what is right. */
  lemma {:induction false} RightIsUnique(initial: Mem, w: World, v: World)
    requires Invariant(initial, w) && Invariant(initial, v) && Twins(w.layers, v.layers)
    ensures Alike(w, v)
  {
    hide FitAt, Fits, Twins, Keyed;
    forall a | a in initial
      ensures w.mem[a] == v.mem[a]
      ensures forall j :: 0 <= j < |w.layers| && j < |v.layers| && a in w.layers[j].restore && a in v.layers[j].restore ==>
                w.layers[j].restore[a] == v.layers[j].restore[a]
    {
      OneIsUnique(initial, w.layers, v.layers, a, w.mem[a], v.mem[a]);
    }
    assert w.mem == v.mem;
    TwinsUnshaken(w.layers, v.layers);
    forall j | 0 <= j < |w.layers| ensures w.layers[j].restore == v.layers[j].restore { TwinKeys(w.layers, v.layers, j); }
  }

  lemma {:induction false} TwinsUnshaken(x: seq<Layer>, y: seq<Layer>)
    requires Twins(x, y)
    ensures |x| == |y| && forall j :: 0 <= j < |x| ==> x[j].written == y[j].written && x[j].shaken == y[j].shaken
  {
  }

  lemma {:induction false} OneIsUnique(initial: Mem, x: seq<Layer>, y: seq<Layer>, a: Addr, v: Byte, u: Byte)
    requires Twins(x, y) && FitAt(initial, x, a, v) && FitAt(initial, y, a, u)
    ensures |x| == |y| && u == v
    ensures forall j :: 0 <= j < |x| && a in x[j].restore && a in y[j].restore ==> x[j].restore[a] == y[j].restore[a]
  {
    hide Fits;
    TwinsFit(initial, x, y, |x|, a, v, u);
    forall j | 0 <= j < |x| && a in x[j].restore && a in y[j].restore ensures x[j].restore[a] == y[j].restore[a] {
      TwinsFit(initial, x, y, j, a, x[j].restore[a], y[j].restore[a]);
    }
  }

  lemma {:induction false} AlikeIsRight(initial: Mem, w: World, v: World)
    requires Alike(w, v) && Invariant(initial, v) && Twins(v.layers, w.layers) && WellFormed(w)
    ensures Invariant(initial, w)
  {
    hide FitAt, Twins, WellFormed;
    forall a | a in w.mem ensures FitAt(initial, w.layers, a, w.mem[a]) {
      FitsTwin(initial, v.layers, w.layers, a, v.mem[a]);
    }
  }

  lemma {:induction false} FitsTwin(initial: Mem, x: seq<Layer>, y: seq<Layer>, a: Addr, v: Byte)
    requires Twins(x, y) && FitAt(initial, x, a, v) && forall j :: 0 <= j < |x| ==> x[j].restore == y[j].restore
    ensures FitAt(initial, y, a, v)
  {
    hide Fits;
    TwinsFit(initial, x, y, |x|, a, v, v);
    forall j | 0 <= j < |y| && a in y[j].restore ensures Fits(initial, y, j, a, y[j].restore[a]) {
      TwinsFit(initial, x, y, j, a, x[j].restore[a], x[j].restore[a]);
    }
  }

  lemma {:induction false} ScriptsAreTwins(w: World, v: World, n: nat)
    requires SameScripts(w, v, n) && Unshaken(w.layers) && Unshaken(v.layers)
    ensures Twins(w.layers, v.layers) && Twins(v.layers, w.layers)
  {
  }

  /** So with no disable that failed, the layers are right after the late undo exactly when each byte of
      it stays right. */
  lemma {:induction false} LateUndoIsRight(initial: Mem, before: Mem, m: Mem, undo: Mem, layers: seq<Layer>, events: seq<Event>)
    requires Invariant(initial, World(before, layers)) && Unshaken(layers)
    requires LeftBehind(before, m, undo) && Doable(World(before, layers), events)
    ensures Doable(World(m, layers), events)
    ensures Invariant(initial, UndoneLate(AllAfter(World(m, layers), events), undo)) <==>
            forall a :: a in undo ==> a in m && StaysRight(layers, events, undo, m, a)
  {
    LateUndoExactly(before, m, undo, layers, events);
    RunKeepsInvariant(initial, World(before, layers), events);
    StaysUnshaken(World(before, layers), events);
    StaysUnshaken(World(m, layers), events);
    AllKeys(World(m, layers), events);
    BothStacked(before, m, layers, events);
    var w, v := AllAfter(World(m, layers), events), AllAfter(World(before, layers), events);
    ScriptsAreTwins(w, v, |OlderLeft(layers, events)|);
    hide StaysRight, Doable, AllAfter, OlderLeft, FitAt, Keyed, Unshaken, Alike, SameScripts, Twins;
    RetriedKeys(w.mem, undo);
    if Invariant(initial, UndoneLate(w, undo)) { RightIsUnique(initial, UndoneLate(w, undo), v); }
    if Alike(UndoneLate(w, undo), v) { AlikeIsRight(initial, UndoneLate(w, undo), v); }
  }

  // ------------------------------------------------------------------ single events

  /** For one disable in between: the two restores must agree wherever they meet. */
  lemma {:induction false} LateUndoAfterOne(before: Mem, m: Mem, undo: Mem, layers: seq<Layer>, k: nat)
    requires WellFormed(World(before, layers)) && LeftBehind(before, m, undo) && k < |layers|
    ensures Alike(UndoneLate(Disabled(World(m, layers), k), undo), Disabled(World(before, layers), k)) <==>
            forall a :: a in undo && a in PutBack(layers, k) ==> PutBack(layers, k)[a] == undo[a]
  {
    var e := Disable(k);
    OneEvent(World(before, layers), e);
    OneEvent(World(m, layers), e);
    LateUndoExactly(before, m, undo, layers, [e]);
    hide PutBack, Without, Overlay, Alike, StaysRight;
    forall a | a in undo && a in m
      ensures StaysRight(layers, [e], undo, m, a) <==> (a in PutBack(layers, k) ==> PutBack(layers, k)[a] == undo[a])
    {
      OneStays(layers, e, undo, m, a);
    }
  }

  lemma {:induction false} OneEvent(w: World, e: Event)
    requires Can(w, e)
    ensures Doable(w, [e]) && AllAfter(w, [e]) == After(w, e)
  {
    hide Can, After;
    assert [e][1..] == [];
  }

  lemma {:induction false} OneStays(layers: seq<Layer>, e: Event, undo: Mem, m: Mem, a: Addr)
    requires a in undo && a in m && (e.Enable? || (e.Disable? && e.k < |layers|))
    ensures StaysRight(layers, [e], undo, m, a) <==>
            if e.Enable? then a in e.written ==> e.written[a] == undo[a] && m[a] == undo[a]
            else a in PutBack(layers, e.k) ==> PutBack(layers, e.k)[a] == undo[a]
  {
    hide PutBack, Without;
    assert [e][1..] == [];
    assert Below(layers, [e], a, undo[a]) == BelowAfter(layers, e, a, undo[a]);
    assert Below(layers, [e], a, m[a]) == BelowAfter(layers, e, a, m[a]);
    assert LaterLeft(|layers|, [], [e]) == LaterAfter(|layers|, [], e);
    if e.Enable? {
      assert [] + [e.written] == [e.written];
      TopOfOne(e.written, a);
      assert LaterLeft(|layers|, [], [e]) == [e.written];
    } else {
      assert LaterLeft(|layers|, [], [e]) == [];
    }
  }

  lemma {:induction false} TopOfOne(written: Mem, a: Addr)
    ensures TopWrite([written], a) == if a in written then Some(written[a]) else None
  {
    assert [written][..0] == [];
  }

  /** For one enable in between: where it wrote over the undo, it must have found and written just what
      the undo puts back. */
  lemma {:induction false} LateUndoAfterEnable(before: Mem, m: Mem, undo: Mem, layers: seq<Layer>, written: Mem, saved: map<Addr, set<Byte>>)
    requires WellFormed(World(before, layers)) && LeftBehind(before, m, undo)
    requires written.Keys == saved.Keys && written.Keys <= before.Keys
    ensures var e := Enable(written, saved);
            Alike(UndoneLate(After(World(m, layers), e), undo), After(World(before, layers), e)) <==>
              forall a :: a in undo && a in written ==> a in m && written[a] == undo[a] && m[a] == undo[a]
  {
    var e := Enable(written, saved);
    OneEvent(World(before, layers), e);
    OneEvent(World(m, layers), e);
    LateUndoExactly(before, m, undo, layers, [e]);
    hide Found, Overlay, Alike, StaysRight;
    forall a | a in undo && a in m
      ensures StaysRight(layers, [e], undo, m, a) <==> (a in written ==> written[a] == undo[a] && m[a] == undo[a])
    {
      OneStays(layers, e, undo, m, a);
    }
  }

  /** It fails where a failed enable had begun to write over an older script: the older script is
      disabled, and the late undo puts that script's byte back, with no script left to restore it. */
  lemma {:induction false} LateUndoResurrects()
    ensures var initial: Mem, older := map[0 := 1], Layer(map[0 := 1], map[0 := 2], map[0 := {1}], false);
            var before: Mem, m: Mem, undo: Mem := map[0 := 2], map[0 := 3], map[0 := 2];
            && Invariant(initial, World(before, [older])) && LeftBehind(before, m, undo)
            && Disabled(World(before, [older]), 0) == World(initial, [])
            && UndoneLate(Disabled(World(m, [older]), 0), undo) == World(before, [])
  {
    var initial: Mem, older := map[0 := 1], Layer(map[0 := 1], map[0 := 2], map[0 := {1}], false);
    var layers := [older];
    assert Newest(layers, 0, 0) == -1 && Newest(layers, 1, 0) == 0;
    assert PutBack(layers, 0) == map[0 := 1];
    assert Without(layers, 0) == [];
    assert Keyed(layers);
  }

  /** And where another script was enabled over what it had left: the late undo overwrites that script,
      which will restore what the failed enable had left. */
  lemma {:induction false} LateUndoOverwrites()
    ensures var before: Mem, m: Mem, undo: Mem := map[0 := 2], map[0 := 3], map[0 := 2];
            var e := Enable(map[0 := 9], map[0 := {3}]);
            var late := UndoneLate(After(World(m, []), e), undo);
            && Invariant(before, World(before, [])) && LeftBehind(before, m, undo)
            && late == World(map[0 := 2], [Layer(map[0 := 3], map[0 := 9], map[0 := {3}], false)])
            && !Invariant(before, late)
  {
    var m: Mem, undo: Mem, written: Mem := map[0 := 3], map[0 := 2], map[0 := 9];
    var layers := [Layer(map[0 := 3], written, map[0 := {3}], false)];
    assert Found(m, written) == map[0 := 3];
    assert Newest(layers, 1, 0) == 0;
    assert !FitAt(map[0 := 2], layers, 0, 2);
  }
}
