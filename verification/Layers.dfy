/** The layered undo of core/autoasm.cpp, seen from above: every enabled script is a layer, and layers come and go in any order. */
module Layers {
  import opened Memory

  /** `saved`: the values an undo of this script may write at a byte on its way. `shaken`: a disable of
      it failed part way, so some of its bytes may have such values. */
  datatype Layer = Layer(restore: Mem, written: Mem, saved: map<Addr, set<Byte>>, shaken: bool)

  /** Oldest layer first. */
  datatype World = World(mem: Mem, layers: seq<Layer>)

  predicate Keyed(layers: seq<Layer>)
  {
    forall k :: 0 <= k < |layers| ==> layers[k].restore.Keys == layers[k].written.Keys == layers[k].saved.Keys
  }

  predicate WellFormed(w: World)
  {
    && Keyed(w.layers)
    && forall k :: 0 <= k < |w.layers| ==> w.layers[k].restore.Keys <= w.mem.Keys
  }

  /** The newest of the first `n` layers that holds `a`, or -1. */
  function Newest(layers: seq<Layer>, n: nat, a: Addr): (k: int)
    requires n <= |layers|
    ensures -1 <= k < n
    ensures k >= 0 ==> a in layers[k].restore
    ensures forall j :: k < j < n ==> a !in layers[j].restore
  {
    if n == 0 then -1 else if a in layers[n - 1].restore then n - 1 else Newest(layers, n - 1, a)
  }

  /** `v` is a value `a` may have with only the first `n` layers in place: the initial byte, or what
      the newest of them that wrote `a` put there, or may have left there when it is shaken. */
  predicate Fits(initial: Mem, layers: seq<Layer>, n: nat, a: Addr, v: Byte)
    requires n <= |layers| && Keyed(layers)
  {
    var k := Newest(layers, n, a);
    if k < 0 then a in initial && v == initial[a]
    else v == layers[k].written[a] || (layers[k].shaken && v in layers[k].saved[a])
  }

  /** At `a` each layer restores what the next older one wrote, and the newest one wrote `v`. */
  ghost predicate FitAt(initial: Mem, layers: seq<Layer>, a: Addr, v: Byte)
  {
    && Keyed(layers) && Fits(initial, layers, |layers|, a, v)
    && forall k :: 0 <= k < |layers| && a in layers[k].restore ==> Fits(initial, layers, k, a, layers[k].restore[a])
  }

  ghost predicate Invariant(initial: Mem, w: World)
  {
    WellFormed(w) && w.mem.Keys == initial.Keys && forall a :: a in w.mem ==> FitAt(initial, w.layers, a, w.mem[a])
  }

  // ------------------------------------------------------------------ steps

  function Overlay(m: Mem, over: Mem): Mem { m + over }

  /** What the memory shows where something was written. */
  function Found(m: Mem, written: Mem): Mem
    requires written.Keys <= m.Keys
  {
    map a | a in written :: m[a]
  }

  /** A script that writes `written` is enabled. */
  ghost predicate Enables(w: World, w': World, written: Mem, saved: map<Addr, set<Byte>>)
  {
    && written.Keys == saved.Keys && written.Keys <= w.mem.Keys
    && w' == World(Overlay(w.mem, written), w.layers + [Layer(Found(w.mem, written), written, saved, false)])
  }

  /** Layer `j` after layer `k` below it is taken out: where it is the next newer holder of a
      byte of `k`, it now restores what `k` would have restored. */
  function Inherit(layers: seq<Layer>, k: nat, j: nat): Layer
    requires k < j < |layers|
  {
    var layer := layers[j];
    Layer(map a | a in layer.restore :: if Heir(layers, k, j, a) then layers[k].restore[a] else layer.restore[a],
          layer.written,
          map a | a in layer.saved :: layer.saved[a] + (if Heir(layers, k, j, a) then {layers[k].restore[a]} else {}),
          layer.shaken)
  }

  /** Layer `j` is the next that holds `a` after layer `k`, which does, too. */
  predicate Heir(layers: seq<Layer>, k: nat, j: nat, a: Addr)
    requires k < j < |layers|
  {
    a in layers[k].restore && Newest(layers, j, a) == k
  }

  function Without(layers: seq<Layer>, k: nat): (r: seq<Layer>)
    requires k < |layers|
    ensures |r| == |layers| - 1
  {
    seq(|layers| - 1, j requires 0 <= j < |layers| - 1 => if j < k then layers[j] else Inherit(layers, k, j + 1))
  }

  /** The bytes layer `k` puts back itself: those no newer layer holds. */
  function PutBack(layers: seq<Layer>, k: nat): Mem
    requires k < |layers|
  {
    map a | a in layers[k].restore && Newest(layers, |layers|, a) == k :: layers[k].restore[a]
  }

  /** The world with layer `k` disabled. */
  function Disabled(w: World, k: nat): World
    requires k < |w.layers|
  {
    World(Overlay(w.mem, PutBack(w.layers, k)), Without(w.layers, k))
  }

  /** A disable of layer `k` fails: some of the bytes it puts back may have changed, each to a value
      that its undo writes, and nothing else. */
  ghost predicate Shakes(w: World, w': World, k: nat)
  {
    && k < |w.layers| && w'.mem.Keys == w.mem.Keys
    && (forall a :: a in w.mem && w'.mem[a] != w.mem[a] ==>
          a in PutBack(w.layers, k) && a in w.layers[k].saved && w'.mem[a] in w.layers[k].saved[a])
    && w'.layers == w.layers[k := w.layers[k].(shaken := true)]
  }

  /** An enable that began with memory `before` failed, and so did its rollback: memory is now `m`,
      and the undo still has `undo` to put back. */
  ghost predicate LeftBehind(before: Mem, m: Mem, undo: Mem)
  {
    && m.Keys == before.Keys && undo.Keys <= before.Keys
    && forall a :: a in before ==> if a in undo then undo[a] == before[a] else m[a] == before[a]
  }

  /** Only bytes of `undo` changed. */
  ghost predicate ChangedWithin(before: Mem, m: Mem, undo: Mem)
  {
    && m.Keys == before.Keys && undo.Keys <= before.Keys
    && forall a :: a in before && a !in undo ==> m[a] == before[a]
  }

  datatype Event =
    | Enable(written: Mem, saved: map<Addr, set<Byte>>)
    | Disable(k: nat)
    | FailedDisable(k: nat)
    /** An enable fails and leaves `undo` to be put back; no layer joins. */
    | FailedEnable(undo: Mem)
    /** Such an undo is tried again. */
    | Retry(undo: Mem)
    | FailedRetry(undo: Mem)

  ghost predicate Step(w: World, e: Event, w': World)
  {
    match e
    case Enable(written, saved) => Enables(w, w', written, saved)
    case Disable(k) => k < |w.layers| && w' == Disabled(w, k)
    case FailedDisable(k) => Shakes(w, w', k)
    case FailedEnable(undo) => w'.layers == w.layers && LeftBehind(w.mem, w'.mem, undo)
    case Retry(undo) => undo.Keys <= w.mem.Keys && w' == World(Overlay(w.mem, undo), w.layers)
    case FailedRetry(undo) => w'.layers == w.layers && ChangedWithin(w.mem, w'.mem, undo)
  }

  // ------------------------------------------------------------- the shape of a world

  /** The shape of a world, right or not. */
  lemma {:induction false} StepKeepsShape(w: World, e: Event, w': World)
    requires WellFormed(w) && Step(w, e, w')
    ensures WellFormed(w') && w'.mem.Keys == w.mem.Keys
  {
    hide Newest, PutBack, Overlay, Without, Found;
    match e {
      case Enable(written, saved) => EnabledShape(w, w', written, saved);
      case Disable(k) => DisabledKeys(w, k); WithoutKeyed(w.layers, k);
      case FailedDisable(k) => ShakenKeyed(w, w', k);
      case FailedEnable(undo) =>
      case Retry(undo) => RetriedKeys(w.mem, undo);
      case FailedRetry(undo) =>
    }
  }

  lemma {:induction false} RetriedKeys(m: Mem, undo: Mem)
    requires undo.Keys <= m.Keys
    ensures Overlay(m, undo).Keys == m.Keys
  {
  }

  lemma {:induction false} EnabledShape(w: World, w': World, written: Mem, saved: map<Addr, set<Byte>>)
    requires WellFormed(w) && Enables(w, w', written, saved)
    ensures WellFormed(w') && w'.mem.Keys == w.mem.Keys
  {
  }

  lemma {:induction false} WithoutKeyed(layers: seq<Layer>, k: nat)
    requires k < |layers| && Keyed(layers)
    ensures Keyed(Without(layers, k))
    ensures forall i :: 0 <= i < |layers| - 1 ==>
              Without(layers, k)[i].restore.Keys == layers[if i < k then i else i + 1].restore.Keys
  {
    hide Heir;
    var r := Without(layers, k);
    forall i | 0 <= i < |r|
      ensures r[i].restore.Keys == layers[if i < k then i else i + 1].restore.Keys
      ensures r[i].restore.Keys == r[i].written.Keys == r[i].saved.Keys
    {
      if i >= k {
        assert r[i].restore.Keys == layers[i + 1].restore.Keys;
        assert r[i].saved.Keys == layers[i + 1].saved.Keys;
      }
    }
  }

  lemma {:induction false} DisabledKeys(w: World, k: nat)
    requires WellFormed(w) && k < |w.layers|
    ensures Overlay(w.mem, PutBack(w.layers, k)).Keys == w.mem.Keys
  {
    hide Newest;
  }

  lemma {:induction false} ShakenKeyed(w: World, w': World, k: nat)
    requires WellFormed(w) && Shakes(w, w', k)
    ensures WellFormed(w')
  {
    hide PutBack;
  }

  // ------------------------------------------------------------------- newest holders

  lemma {:induction false} NewestOfPrefix(a1: seq<Layer>, a2: seq<Layer>, n: nat, a: Addr)
    requires n <= |a1| && n <= |a2|
    requires forall k :: 0 <= k < n ==> a1[k].restore.Keys == a2[k].restore.Keys
    ensures Newest(a1, n, a) == Newest(a2, n, a)
  {
    if n > 0 { NewestOfPrefix(a1, a2, n - 1, a); }
  }

  /** How the newest holder moves when layer `k` is taken out. */
  lemma {:induction false} NewestWithout(layers: seq<Layer>, k: nat, j: nat, a: Addr)
    requires k < j <= |layers|
    ensures var p := Newest(layers, j, a);
            Newest(Without(layers, k), j - 1, a) == if p > k then p - 1 else if p == k then Newest(layers, k, a) else p
  {
    hide Heir;
    var r := Without(layers, k);
    if j == k + 1 {
      NewestOfPrefix(layers, r, k, a);
    } else {
      assert r[j - 2].restore.Keys == layers[j - 1].restore.Keys;
      NewestWithout(layers, k, j - 1, a);
    }
  }

  // ----------------------------------------------------------- preservation, byte by byte

  /** The first `n` layers are the same in `b`, except that some may be shaken there. */
  predicate Agrees(a: seq<Layer>, b: seq<Layer>, n: nat)
  {
    && n <= |a| && n <= |b|
    && forall k :: 0 <= k < n ==> b[k] == a[k] || b[k] == a[k].(shaken := true)
  }

  lemma {:induction false} FitsAgree(initial: Mem, layers: seq<Layer>, layers': seq<Layer>, n: nat, a: Addr, v: Byte)
    requires Keyed(layers) && Keyed(layers') && n <= |layers| && Agrees(layers, layers', n) && Fits(initial, layers, n, a, v)
    ensures Fits(initial, layers', n, a, v)
  {
    NewestOfPrefix(layers, layers', n, a);
  }

  lemma {:induction false} AgreesTo(a: seq<Layer>, b: seq<Layer>, n: nat, k: nat)
    requires Agrees(a, b, n) && k <= n
    ensures Agrees(a, b, k)
  {
  }

  /** Restoring and showing what fits. */
  ghost predicate RestoreFits(initial: Mem, layers: seq<Layer>, k: nat, a: Addr)
    requires k < |layers| && Keyed(layers)
  {
    a in layers[k].restore ==> Fits(initial, layers, k, a, layers[k].restore[a])
  }

  lemma {:induction false} AllFit(initial: Mem, layers: seq<Layer>, a: Addr, v: Byte)
    requires Keyed(layers) && Fits(initial, layers, |layers|, a, v)
    requires forall k :: 0 <= k < |layers| ==> RestoreFits(initial, layers, k, a)
    ensures FitAt(initial, layers, a, v)
  {
    hide Fits, Keyed;
    forall k | 0 <= k < |layers| && a in layers[k].restore ensures Fits(initial, layers, k, a, layers[k].restore[a]) {
      assert RestoreFits(initial, layers, k, a);
    }
  }

  lemma {:induction false} EachFits(initial: Mem, layers: seq<Layer>, a: Addr, v: Byte, k: nat)
    requires FitAt(initial, layers, a, v) && k < |layers|
    ensures Keyed(layers) && Fits(initial, layers, |layers|, a, v) && RestoreFits(initial, layers, k, a)
  {
    hide Fits, Keyed;
  }

  lemma {:induction false} RestoreAgrees(initial: Mem, layers: seq<Layer>, layers': seq<Layer>, n: nat, k: nat, a: Addr)
    requires Keyed(layers) && Keyed(layers') && Agrees(layers, layers', n) && k < n && RestoreFits(initial, layers, k, a)
    ensures RestoreFits(initial, layers', k, a)
  {
    hide Fits, Keyed;
    AgreesTo(layers, layers', n, k);
    if a in layers[k].restore { FitsAgree(initial, layers, layers', k, a, layers[k].restore[a]); }
  }

  /** One layer more. */
  lemma {:induction false} EnableFits(initial: Mem, layers: seq<Layer>, top: Layer, a: Addr, v: Byte)
    requires FitAt(initial, layers, a, v) && Keyed(layers + [top]) && (a in top.restore ==> top.restore[a] == v)
    requires top.restore.Keys == top.written.Keys
    ensures FitAt(initial, layers + [top], a, if a in top.restore then top.written[a] else v)
  {
    hide *;
    var n, all, v' := |layers|, layers + [top], if a in top.restore then top.written[a] else v;
    FitNow(initial, layers, a, v);
    Extends(layers, top);
    FitsAgree(initial, layers, all, n, a, v);
    FitsTop(initial, all, n, a, v');
    forall k | 0 <= k < |all| ensures RestoreFits(initial, all, k, a) {
      if k < n {
        EachFits(initial, layers, a, v, k);
        RestoreAgrees(initial, layers, all, n, k, a);
      } else {
        TopRestores(initial, all, n, a, v);
      }
    }
    AllFit(initial, all, a, v');
  }

  lemma {:induction false} FitNow(initial: Mem, layers: seq<Layer>, a: Addr, v: Byte)
    requires FitAt(initial, layers, a, v)
    ensures Keyed(layers) && Fits(initial, layers, |layers|, a, v)
  {
    hide Fits, Keyed;
  }

  lemma {:induction false} Extends(layers: seq<Layer>, top: Layer)
    ensures Agrees(layers, layers + [top], |layers|)
  {
  }

  lemma {:induction false} TopRestores(initial: Mem, layers: seq<Layer>, n: nat, a: Addr, v: Byte)
    requires n < |layers| && Keyed(layers) && Fits(initial, layers, n, a, v) && (a in layers[n].restore ==> layers[n].restore[a] == v)
    ensures RestoreFits(initial, layers, n, a)
  {
  }

  lemma {:induction false} FitsTop(initial: Mem, layers: seq<Layer>, n: nat, a: Addr, v: Byte)
    requires n < |layers| && Keyed(layers)
    requires if a in layers[n].restore then v == layers[n].written[a] else Fits(initial, layers, n, a, v)
    ensures Fits(initial, layers, n + 1, a, v)
  {
  }

  lemma {:induction false} FitsWithout(initial: Mem, layers: seq<Layer>, k: nat, j: nat, a: Addr, v: Byte)
    requires k < j <= |layers| && Keyed(layers) && Keyed(Without(layers, k))
    requires if Newest(layers, j, a) == k then Fits(initial, layers, k, a, v) else Fits(initial, layers, j, a, v)
    ensures Fits(initial, Without(layers, k), j - 1, a, v)
  {
    hide Newest, Heir, Keyed;
    NewestWithout(layers, k, j, a);
    var p := Newest(layers, j, a);
    if p > k { GrownByHeritage(layers, k, p, a); }
  }

  lemma {:induction false} GrownByHeritage(layers: seq<Layer>, k: nat, p: nat, a: Addr)
    requires k < p < |layers| && Keyed(layers) && a in layers[p].restore
    ensures var q := Without(layers, k)[p - 1];
            && q.written == layers[p].written && q.shaken == layers[p].shaken && a in q.saved && a in q.restore
            && layers[p].saved[a] <= q.saved[a]
            && q.restore[a] == if Heir(layers, k, p, a) then layers[k].restore[a] else layers[p].restore[a]
  {
    hide Heir;
  }

  /** Layer `k` is taken out; `v` is what stood at `a`. */
  lemma {:induction false} DisableFits(initial: Mem, layers: seq<Layer>, k: nat, a: Addr, v: Byte)
    requires FitAt(initial, layers, a, v) && k < |layers|
    ensures FitAt(initial, Without(layers, k), a, if a in PutBack(layers, k) then PutBack(layers, k)[a] else v)
  {
    hide *;
    StillKeyed(layers, k);
    FitNow(initial, layers, a, v);
    EachFits(initial, layers, a, v, k);
    var v' := if a in PutBack(layers, k) then PutBack(layers, k)[a] else v;
    PutBackFits(initial, layers, k, a, v, v');
    FitsWithout(initial, layers, k, |layers|, a, v');
    var r := Without(layers, k);
    forall i | 0 <= i < |r| ensures RestoreFits(initial, r, i, a) { LeftFits(initial, layers, k, a, v, i); }
    AllFit(initial, r, a, v');
  }

  lemma {:induction false} StillKeyed(layers: seq<Layer>, k: nat)
    requires k < |layers|
    ensures Keyed(layers) ==> Keyed(Without(layers, k))
  {
    if Keyed(layers) { WithoutKeyed(layers, k); }
  }

  lemma {:induction false} LeftFits(initial: Mem, layers: seq<Layer>, k: nat, a: Addr, v: Byte, i: nat)
    requires FitAt(initial, layers, a, v) && k < |layers| && i < |layers| - 1 && Keyed(Without(layers, k))
    ensures RestoreFits(initial, Without(layers, k), i, a)
  {
    hide *;
    FitNow(initial, layers, a, v);
    EachFits(initial, layers, a, v, k);
    if i < k {
      BelowStays(layers, k);
      EachFits(initial, layers, a, v, i);
      RestoreAgrees(initial, layers, Without(layers, k), k, i, a);
    } else {
      EachFits(initial, layers, a, v, i + 1);
      HeirFits(initial, layers, k, i + 1, a);
    }
  }

  lemma {:induction false} PutBackFits(initial: Mem, layers: seq<Layer>, k: nat, a: Addr, v: Byte, v': Byte)
    requires k < |layers| && Keyed(layers) && Fits(initial, layers, |layers|, a, v) && RestoreFits(initial, layers, k, a)
    requires v' == if a in PutBack(layers, k) then PutBack(layers, k)[a] else v
    ensures if Newest(layers, |layers|, a) == k then Fits(initial, layers, k, a, v') else Fits(initial, layers, |layers|, a, v')
  {
    hide Fits, Newest;
  }

  lemma {:induction false} BelowStays(layers: seq<Layer>, k: nat)
    requires k < |layers|
    ensures |Without(layers, k)| == |layers| - 1 && Agrees(layers, Without(layers, k), k)
  {
    hide Inherit;
  }

  /** What a newer layer restores after it inherited from layer `k`. */
  lemma {:induction false} HeirFits(initial: Mem, layers: seq<Layer>, k: nat, j: nat, a: Addr)
    requires k < j < |layers| && Keyed(layers) && Keyed(Without(layers, k))
    requires RestoreFits(initial, layers, k, a) && RestoreFits(initial, layers, j, a)
    ensures RestoreFits(initial, Without(layers, k), j - 1, a)
  {
    WithoutKeyed(layers, k);
    hide Fits, Keyed, Without;
    if a in layers[j].restore {
      GrownByHeritage(layers, k, j, a);
      FitsWithout(initial, layers, k, j, a, Without(layers, k)[j - 1].restore[a]);
    }
  }

  /** Layer `k` is shaken: what stood at `a` still fits there, and so does each of its saved values
      where it is the newest. */
  lemma {:induction false} ShakeFits(initial: Mem, layers: seq<Layer>, k: nat, a: Addr, v: Byte, x: Byte)
    requires FitAt(initial, layers, a, v) && k < |layers|
    requires x == v || (a in PutBack(layers, k) && a in layers[k].saved && x in layers[k].saved[a])
    ensures FitAt(initial, layers[k := layers[k].(shaken := true)], a, x)
  {
    FitNow(initial, layers, a, v);
    var n, r := |layers|, layers[k := layers[k].(shaken := true)];
    ShakenAgrees(layers, k);
    hide *;
    forall i | 0 <= i < n ensures RestoreFits(initial, r, i, a) {
      EachFits(initial, layers, a, v, i);
      RestoreAgrees(initial, layers, r, n, i, a);
    }
    if x == v { FitsAgree(initial, layers, r, n, a, v); } else { ShakenFits(initial, layers, r, k, a, x); }
    AllFit(initial, r, a, x);
  }

  lemma {:induction false} ShakenAgrees(layers: seq<Layer>, k: nat)
    requires Keyed(layers) && k < |layers|
    ensures Keyed(layers[k := layers[k].(shaken := true)])
    ensures Agrees(layers, layers[k := layers[k].(shaken := true)], |layers|)
  {
  }

  lemma {:induction false} ShakenFits(initial: Mem, layers: seq<Layer>, r: seq<Layer>, k: nat, a: Addr, x: Byte)
    requires k < |layers| && r == layers[k := layers[k].(shaken := true)] && Keyed(layers) && Keyed(r)
    requires a in PutBack(layers, k) && a in layers[k].saved && x in layers[k].saved[a]
    ensures Fits(initial, r, |r|, a, x)
  {
    NewestOfPrefix(layers, r, |layers|, a);
  }

  /** What an event makes of the byte that belongs at `a`, which memory shows unless a failed enable
      left something else there. */
  lemma {:induction false} StepFits(initial: Mem, w: World, e: Event, w': World, a: Addr)
    requires WellFormed(w) && Step(w, e, w') && a in w.mem && FitAt(initial, w.layers, a, w.mem[a])
    requires e.Enable? || e.Disable? || e.FailedDisable?
    ensures a in w'.mem && FitAt(initial, w'.layers, a, w'.mem[a])
  {
    hide FitAt, Newest, Without, PutBack;
    StepKeepsShape(w, e, w');
    match e {
      case Enable(written, saved) =>
        EnableFits(initial, w.layers, w'.layers[|w.layers|], a, w.mem[a]);
      case Disable(k) =>
        DisableFits(initial, w.layers, k, a, w.mem[a]);
      case FailedDisable(k) =>
        ShakeFits(initial, w.layers, k, a, w.mem[a], w'.mem[a]);
    }
  }

  lemma {:induction false} StepKeeps(initial: Mem, w: World, e: Event, w': World)
    requires Invariant(initial, w) && Step(w, e, w')
    requires e.Enable? || e.Disable? || e.FailedDisable?
    ensures Invariant(initial, w')
  {
    hide FitAt, Step, WellFormed;
    StepKeepsShape(w, e, w');
    forall a | a in w'.mem ensures FitAt(initial, w'.layers, a, w'.mem[a]) { StepFits(initial, w, e, w', a); }
  }

  /** Handing originals on keeps the layers right whichever of them leaves. */
  lemma {:induction false} DisableKeeps(initial: Mem, w: World, k: nat)
    requires Invariant(initial, w) && k < |w.layers|
    ensures Invariant(initial, Disabled(w, k))
  {
    StepKeeps(initial, w, Disable(k), Disabled(w, k));
  }

  /** A failed enable that is undone at once never happened. */
  lemma {:induction false} RetriedAtOnce(w: World, torn: World, w': World, undo: Mem)
    requires Step(w, FailedEnable(undo), torn) && Step(torn, Retry(undo), w')
    ensures w' == w
  {
    assert w'.mem == w.mem;
  }

  // ------------------------------------------------------------- whole runs

  /** `worlds` is a run from the untouched target through `events`. */
  ghost predicate Run(initial: Mem, worlds: seq<World>, events: seq<Event>)
  {
    && |worlds| == |events| + 1 && worlds[0] == World(initial, [])
    && forall i :: 0 <= i < |events| ==> Step(worlds[i], events[i], worlds[i + 1])
  }

  /** How a byte stands in a run: settled, or left behind by a failed enable that found `undo` there and
      was not undone yet, or touched by something else before that undo was. */
  datatype Standing = Settled | Behind(undo: Mem) | Astray

  /** What an event makes of the standing of `a`. */
  function Stands(s: Standing, w: World, e: Event, a: Addr): Standing
  {
    match e
    case Enable(written, _) => if a in written then Touched(s) else s
    case Disable(k) => if k < |w.layers| && a in PutBack(w.layers, k) then Touched(s) else s
    case FailedDisable(k) => if k < |w.layers| && a in PutBack(w.layers, k) then Touched(s) else s
    case FailedEnable(undo) => if a !in undo then s else if s.Settled? then Behind(undo) else Astray
    case Retry(undo) => if a !in undo then s else if s == Behind(undo) then Settled else Astray
    case FailedRetry(undo) => if a !in undo || s == Behind(undo) then s else Astray
  }

  function Touched(s: Standing): Standing { if s.Behind? then Astray else s }

  ghost function StandingOf(worlds: seq<World>, events: seq<Event>, n: nat, a: Addr): Standing
    requires n <= |events| < |worlds|
  {
    if n == 0 then Settled else Stands(StandingOf(worlds, events, n - 1, a), worlds[n - 1], events[n - 1], a)
  }

  /** A byte that no failed enable left behind is settled throughout. */
  lemma {:induction false} SettledThroughout(worlds: seq<World>, events: seq<Event>, n: nat, a: Addr)
    requires n <= |events| < |worlds|
    requires forall i :: 0 <= i < n && (events[i].FailedEnable? || events[i].Retry? || events[i].FailedRetry?) ==> a !in events[i].undo
    ensures StandingOf(worlds, events, n, a) == Settled
  {
    hide PutBack;
    if n > 0 { SettledThroughout(worlds, events, n - 1, a); }
  }

  /** The byte that belongs at `a`: what is there, or what the pending undo has for it. */
  ghost predicate Holds(initial: Mem, w: World, a: Addr, s: Standing)
    requires a in w.mem
  {
    match s
    case Settled => FitAt(initial, w.layers, a, w.mem[a])
    case Behind(undo) => a in undo && FitAt(initial, w.layers, a, undo[a])
    case Astray => true
  }

  lemma {:induction false} StandsFits(initial: Mem, w: World, e: Event, w': World, a: Addr, s: Standing)
    requires WellFormed(w) && Step(w, e, w') && a in w.mem && Holds(initial, w, a, s)
    ensures a in w'.mem && Holds(initial, w', a, Stands(s, w, e, a))
  {
    hide FitAt, Newest, Without, PutBack;
    StepKeepsShape(w, e, w');
    if s.Settled? && (e.Enable? || e.Disable? || e.FailedDisable?) {
      StepFits(initial, w, e, w', a);
    } else if s.Behind? {
      match e {
        case Enable(written, saved) =>
          if a !in written { EnableFits(initial, w.layers, w'.layers[|w.layers|], a, s.undo[a]); }
        case Disable(k) =>
          if a !in PutBack(w.layers, k) { DisableFits(initial, w.layers, k, a, s.undo[a]); }
        case FailedDisable(k) =>
          ShakeFits(initial, w.layers, k, a, s.undo[a], s.undo[a]);
        case FailedEnable(_) =>
        case Retry(_) =>
        case FailedRetry(_) =>
      }
    }
  }

  /** What every run keeps of every byte, whatever fails in it. */
  lemma {:induction false} EveryRunKeeps(initial: Mem, worlds: seq<World>, events: seq<Event>, n: nat, a: Addr)
    requires Run(initial, worlds, events) && n < |worlds| && a in initial
    ensures WellFormed(worlds[n]) && worlds[n].mem.Keys == initial.Keys
    ensures Holds(initial, worlds[n], a, StandingOf(worlds, events, n, a))
  {
    hide *;
    RunStarts(initial, worlds, events, n);
    if n == 0 {
      Begins(initial, worlds, events, a);
    } else {
      EveryRunKeeps(initial, worlds, events, n - 1, a);
      StepOf(initial, worlds, events, n - 1, a);
      StandsFits(initial, worlds[n - 1], events[n - 1], worlds[n], a, StandingOf(worlds, events, n - 1, a));
    }
  }

  lemma {:induction false} Begins(initial: Mem, worlds: seq<World>, events: seq<Event>, a: Addr)
    requires Run(initial, worlds, events) && a in initial
    ensures a in worlds[0].mem && Holds(initial, worlds[0], a, StandingOf(worlds, events, 0, a))
  {
    hide FitAt, Step;
    NoLayers(initial, a);
  }

  lemma {:induction false} StepOf(initial: Mem, worlds: seq<World>, events: seq<Event>, i: nat, a: Addr)
    requires Run(initial, worlds, events) && i < |events|
    ensures Step(worlds[i], events[i], worlds[i + 1])
    ensures StandingOf(worlds, events, i + 1, a) == Stands(StandingOf(worlds, events, i, a), worlds[i], events[i], a)
  {
    hide Step, Stands;
  }

  lemma {:induction false} NoLayers(initial: Mem, a: Addr)
    requires a in initial
    ensures FitAt(initial, [], a, initial[a])
  {
  }

  /** With every byte settled all of the layers are right. */
  lemma {:induction false} SettledIsRight(initial: Mem, worlds: seq<World>, events: seq<Event>, n: nat)
    requires Run(initial, worlds, events) && n < |worlds|
    requires forall a :: a in initial ==> StandingOf(worlds, events, n, a) == Settled
    ensures Invariant(initial, worlds[n])
  {
    hide FitAt, Run, StandingOf;
    RunStarts(initial, worlds, events, n);
    forall a | a in worlds[n].mem ensures FitAt(initial, worlds[n].layers, a, worlds[n].mem[a]) {
      EveryRunKeeps(initial, worlds, events, n, a);
    }
  }

  /** A run goes on. */
  lemma {:induction false} RunMore(initial: Mem, worlds: seq<World>, events: seq<Event>, e: Event, w: World)
    requires Run(initial, worlds, events) && Step(worlds[|events|], e, w)
    ensures Run(initial, worlds + [w], events + [e])
  {
    hide Step;
    var vs, es := worlds + [w], events + [e];
    forall i | 0 <= i < |es| ensures Step(vs[i], es[i], vs[i + 1]) {
      if i < |events| { assert vs[i] == worlds[i] && es[i] == events[i] && vs[i + 1] == worlds[i + 1]; }
    }
  }

  lemma {:induction false} RunLength(initial: Mem, worlds: seq<World>, events: seq<Event>)
    requires Run(initial, worlds, events)
    ensures |worlds| == |events| + 1
  {
  }

  lemma {:induction false} RunStarts(initial: Mem, worlds: seq<World>, events: seq<Event>, n: nat)
    requires Run(initial, worlds, events) && n < |worlds|
    ensures |worlds| == |events| + 1 && WellFormed(worlds[n]) && worlds[n].mem.Keys == initial.Keys
  {
    hide Step;
    if n > 0 {
      RunStarts(initial, worlds, events, n - 1);
      StepKeepsShape(worlds[n - 1], events[n - 1], worlds[n]);
    }
  }

  /** What memory shows at `a`: the newest layer that wrote it, or the initial byte. */
  lemma {:induction false} NewestShows(initial: Mem, w: World, a: Addr)
    requires a in w.mem && FitAt(initial, w.layers, a, w.mem[a])
    ensures var k := Newest(w.layers, |w.layers|, a);
            if k < 0 then a in initial && w.mem[a] == initial[a]
            else w.mem[a] == w.layers[k].written[a] || (w.layers[k].shaken && w.mem[a] in w.layers[k].saved[a])
  {
  }

  /** Scripts may be enabled and disabled in any order, and any of it may fail: at every moment each
      settled byte is what the newest still enabled script that wrote it put there, or, if a disable of
      that very script failed, one of the values its undo writes; and once no enabled script wrote it,
      it is the initial byte. Failed disables of scripts that were disabled for good since leave no
      trace, and neither do failed enables that were undone before anything else touched the byte. */
  lemma {:induction false} AnyOrderDisable(initial: Mem, worlds: seq<World>, events: seq<Event>, n: nat, a: Addr)
    requires Run(initial, worlds, events) && n < |worlds| && a in initial
    requires StandingOf(worlds, events, n, a) == Settled
    ensures a in worlds[n].mem && WellFormed(worlds[n])
    ensures var w := worlds[n];
            var k := Newest(w.layers, |w.layers|, a);
            if k < 0 then w.mem[a] == initial[a]
            else w.mem[a] == w.layers[k].written[a] || (w.layers[k].shaken && w.mem[a] in w.layers[k].saved[a])
  {
    EveryRunKeeps(initial, worlds, events, n, a);
    NewestShows(initial, worlds[n], a);
  }

  /** With every script disabled and every byte settled, memory is as it was. */
  lemma {:induction false} AllDisabledRestores(initial: Mem, worlds: seq<World>, events: seq<Event>, n: nat)
    requires Run(initial, worlds, events) && n < |worlds| && worlds[n].layers == []
    requires forall a :: a in initial ==> StandingOf(worlds, events, n, a) == Settled
    ensures worlds[n].mem == initial
  {
    hide StandingOf, Run;
    RunStarts(initial, worlds, events, n);
    forall a | a in initial ensures worlds[n].mem[a] == initial[a] {
      AnyOrderDisable(initial, worlds, events, n, a);
    }
  }
}
