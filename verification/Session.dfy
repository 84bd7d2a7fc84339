/** core/autoasm.cpp: many data scripts through one assembler, with anything failing; every history of calls is a run of the layers. */
module Sessions {
  import opened Memory
  import opened UndoLog
  import opened Handovers
  import opened Processes
  import opened Restore
  import opened Activations
  import opened Assembler
  import Layers

  /** Data patches outside allocations. */
  predicate Plain(log: seq<Saved>)
  {
    && AllSized(log) && SavedWhole(log)
    && forall i :: 0 <= i < |log| ==> !log[i].verify && log[i].lease.NoLease?
  }

  /** A script, byte by byte: what it restores now, what it wrote, and what its undo may write on its way. */
  ghost function LayerOf(log: seq<Saved>, overrides: seq<Override>, shaken: bool): Layers.Layer
  {
    Layers.Layer(map a: Addr | 0 <= a <= TOP && Original(log, a).Some? :: Value(Restores(log, overrides, a)),
                 map a: Addr | 0 <= a <= TOP && Original(log, a).Some? :: Value(Written(log, a)),
                 map a: Addr | 0 <= a <= TOP && Original(log, a).Some? :: HeldValues(log, overrides, a),
                 shaken)
  }

  /** One of the overrides has `v` for `a`. */
  ghost predicate GivenAt(overrides: seq<Override>, a: Addr, v: Byte)
  {
    exists i :: 0 <= i < |overrides| && GivenBy(overrides[i], a, v)
  }

  predicate GivenBy(o: Override, a: Addr, v: Byte) { OverrideCovers(o, a) && o.bytes[a - o.address] == v }

  /** `v` is a byte that the script saved at `a` or that was handed to it. */
  ghost predicate HeldAt(log: seq<Saved>, overrides: seq<Override>, a: Addr, v: Byte)
  {
    SavedAt(log, a, v) || GivenAt(overrides, a, v)
  }

  ghost function HeldValues(log: seq<Saved>, overrides: seq<Override>, a: Addr): set<Byte>
  {
    set v: Byte | 0 <= v < 0x100 && HeldAt(log, overrides, a, v)
  }

  function Value(o: Option<Byte>): Byte { if o.Some? then o.value else 0 }

  // ------------------------------------------------- ranges, logs and layers

  lemma {:induction false} PlainHolds(log: seq<Saved>, a: Addr)
    requires Plain(log)
    ensures DataCovers(log, a) <==> Original(log, a).Some?
    ensures InRanges(RangesOf(log), a) <==> Original(log, a).Some?
  {
    OriginalIsSome(log, a);
    if Original(log, a).Some? {
      var i :| 0 <= i < |log| && Hits(log[i], a);
      assert InRange(RangesOf(log)[i], a);
      assert IsData(log[i]) && Covers(log[i], a);
    }
    if InRanges(RangesOf(log), a) {
      var i :| 0 <= i < |log| && InRange(RangesOf(log)[i], a);
      assert Hits(log[i], a);
    }
    if DataCovers(log, a) {
      var i :| 0 <= i < |log| && IsData(log[i]) && Covers(log[i], a);
      assert Hits(log[i], a);
    }
  }

  lemma {:induction false} AppliedPlain(log: seq<Saved>, overrides: seq<Override>)
    requires Plain(log)
    ensures Plain(Applied(log, overrides))
  {
    if overrides != [] { AppliedPlain(log, overrides[..|overrides| - 1]); }
  }

  // ------------------------------------------------------ what passes on

  ghost predicate Gets(hs: seq<Handover>, o: Ownership, a: Addr)
  {
    exists i :: 0 <= i < |hs| && hs[i].to == o && HandoverCovers(hs[i], a)
  }

  /** After the handovers a receiver's last override at a byte it got is the old script's value. */
  lemma {:induction false} LastGiven(log: seq<Saved>, newer: seq<LivePatch>, hs: seq<Handover>, o: Ownership,
                                     overrides: seq<Override>, a: Addr)
    requires AllRightful(log, newer, hs)
    ensures LastOverride(overrides + Given(hs, o), a) == if Gets(hs, o, a) then Original(log, a) else LastOverride(overrides, a)
  {
    hide Rightful, OverrideCovers;
    if hs == [] {
      assert overrides + [] == overrides;
    } else {
      var n := |hs| - 1;
      assert forall i :: 0 <= i < n ==> hs[..n][i] == hs[i];
      LastGiven(log, newer, hs[..n], o, overrides, a);
      GetsLast(hs, o, a);
      GivenStep(hs, o, overrides, a);
      RightfulByte(log, newer, hs[n], a);
    }
  }

  lemma {:induction false} RightfulByte(log: seq<Saved>, newer: seq<LivePatch>, h: Handover, a: Addr)
    requires Rightful(log, newer, h)
    ensures OverrideCovers(Override(h.address, h.bytes), a) <==> HandoverCovers(h, a)
    ensures HandoverCovers(h, a) ==> Original(log, a) == Some(h.bytes[a - h.address])
  {
  }

  lemma {:induction false} GivenStep(hs: seq<Handover>, o: Ownership, overrides: seq<Override>, a: Addr)
    requires hs != []
    ensures var n := |hs| - 1;
            var x := Override(hs[n].address, hs[n].bytes);
            LastOverride(overrides + Given(hs, o), a) ==
            if hs[n].to == o && OverrideCovers(x, a) then Some(x.bytes[a - x.address])
            else LastOverride(overrides + Given(hs[..n], o), a)
  {
    var n := |hs| - 1;
    var before := overrides + Given(hs[..n], o);
    var x := Override(hs[n].address, hs[n].bytes);
    if hs[n].to == o {
      assert overrides + Given(hs, o) == before + [x];
      assert (before + [x])[..|before|] == before;
    } else {
      assert overrides + Given(hs, o) == before;
    }
  }

  lemma {:induction false} GetsLast(hs: seq<Handover>, o: Ownership, a: Addr)
    requires hs != []
    ensures var n := |hs| - 1;
            Gets(hs, o, a) <==> Gets(hs[..n], o, a) || (hs[n].to == o && HandoverCovers(hs[n], a))
  {
    var n := |hs| - 1;
    if Gets(hs[..n], o, a) {
      var i :| 0 <= i < n && hs[..n][i].to == o && HandoverCovers(hs[..n][i], a);
      assert hs[i].to == o && HandoverCovers(hs[i], a);
    }
    if Gets(hs, o, a) {
      var i :| 0 <= i < |hs| && hs[i].to == o && HandoverCovers(hs[i], a);
      assert i < n ==> hs[..n][i] == hs[i];
    }
  }

  lemma {:induction false} GetsWhatPasses(log: seq<Saved>, newer: seq<LivePatch>, hs: seq<Handover>, o: Ownership, a: Addr)
    requires HandedOn(log, newer, hs)
    ensures Gets(hs, o, a) <==> Passes(log, newer, a) && newer[FirstHolder(newer, a)].owner == o
  {
    if Gets(hs, o, a) {
      var i :| 0 <= i < |hs| && hs[i].to == o && HandoverCovers(hs[i], a);
      assert Rightful(log, newer, hs[i]);
    }
    if Passes(log, newer, a) {
      assert SomeHandover(hs, a);
      var i :| 0 <= i < |hs| && HandoverCovers(hs[i], a);
      assert Rightful(log, newer, hs[i]);
    }
  }

  /** A receiver's layer after the handovers. */
  lemma {:induction false} ReceiverRestores(log: seq<Saved>, newer: seq<LivePatch>, hs: seq<Handover>, o: Ownership,
                         own: seq<Saved>, overrides: seq<Override>, a: Addr)
    requires HandedOn(log, newer, hs) && Original(own, a).Some?
    ensures Restores(own, overrides + Given(hs, o), a) ==
            if Passes(log, newer, a) && newer[FirstHolder(newer, a)].owner == o then Original(log, a)
            else Restores(own, overrides, a)
  {
    LastGiven(log, newer, hs, o, overrides, a);
    GetsWhatPasses(log, newer, hs, o, a);
    if Gets(hs, o, a) {
      var i :| 0 <= i < |hs| && hs[i].to == o && HandoverCovers(hs[i], a);
      assert Rightful(log, newer, hs[i]);
    }
  }

  // ------------------------------------------------------ a disable, from above

  ghost function LayersOf(logs: seq<seq<Saved>>, overrides: seq<seq<Override>>, shaken: seq<bool>): (r: seq<Layers.Layer>)
    requires |logs| == |overrides| == |shaken|
    ensures |r| == |logs|
  {
    seq(|logs|, i requires 0 <= i < |logs| => LayerOf(logs[i], overrides[i], shaken[i]))
  }

  /** Every live script is plain data, and its live ranges are those of its saved originals. */
  ghost predicate Tracks(live: seq<LivePatch>, logs: seq<seq<Saved>>)
  {
    && |live| == |logs| && Distinct(live)
    && forall i :: 0 <= i < |live| ==> Plain(logs[i]) && live[i].ranges == RangesOf(logs[i])
  }

  function Without<T>(s: seq<T>, k: nat): seq<T>
    requires k < |s|
  {
    s[..k] + s[k + 1..]
  }

  lemma {:induction false} TracksCount(live: seq<LivePatch>, logs: seq<seq<Saved>>)
    requires Tracks(live, logs)
    ensures |live| == |logs|
  {
  }

  lemma {:induction false} PlainSized(log: seq<Saved>)
    requires Plain(log)
    ensures AllSized(log)
  {
  }

  lemma {:induction false} HoldersMatch(live: seq<LivePatch>, logs: seq<seq<Saved>>, overrides: seq<seq<Override>>, shaken: seq<bool>, i: nat, a: Addr)
    requires Tracks(live, logs) && |logs| == |overrides| == |shaken| && i < |live|
    ensures InRanges(live[i].ranges, a) <==> a in LayersOf(logs, overrides, shaken)[i].restore
    ensures a in LayersOf(logs, overrides, shaken)[i].restore <==> Original(logs[i], a).Some?
  {
    PlainHolds(logs[i], a);
  }

  /** The newest holder below layer `i` is `k` exactly when `i` is the first newer holder. */
  lemma {:induction false} FirstIsNewest(live: seq<LivePatch>, logs: seq<seq<Saved>>, overrides: seq<seq<Override>>, shaken: seq<bool>,
                      k: nat, i: nat, a: Addr)
    requires Tracks(live, logs) && |logs| == |overrides| == |shaken| && k < i < |live|
    requires a in LayersOf(logs, overrides, shaken)[i].restore && a in LayersOf(logs, overrides, shaken)[k].restore
    ensures FirstHolder(live[k + 1..], a) < |live| - k - 1
    ensures Layers.Newest(LayersOf(logs, overrides, shaken), i, a) == k <==> FirstHolder(live[k + 1..], a) == i - k - 1
  {
    hide LayerOf, RangesOf, Plain;
    var layers, newer := LayersOf(logs, overrides, shaken), live[k + 1..];
    forall m | 0 <= m < |live| ensures InRanges(live[m].ranges, a) <==> a in layers[m].restore {
      HoldersMatch(live, logs, overrides, shaken, m, a);
    }
    assert newer[i - k - 1] == live[i];
    var f, n := FirstHolder(newer, a), Layers.Newest(layers, i, a);
    assert newer[f] == live[k + 1 + f];
    if n == k {
      assert forall m :: k < m < i ==> !InRanges(live[m].ranges, a);
    } else {
      assert n > k;
      assert newer[n - k - 1] == live[n];
    }
  }

  lemma {:induction false} NoneNewer(live: seq<LivePatch>, logs: seq<seq<Saved>>, overrides: seq<seq<Override>>, shaken: seq<bool>, k: nat, a: Addr)
    requires Tracks(live, logs) && |logs| == |overrides| == |shaken| && k < |live|
    requires a in LayersOf(logs, overrides, shaken)[k].restore
    ensures Layers.Newest(LayersOf(logs, overrides, shaken), |live|, a) == k <==> FirstHolder(live[k + 1..], a) == |live| - k - 1
  {
    hide LayerOf, RangesOf, Plain;
    var layers, newer := LayersOf(logs, overrides, shaken), live[k + 1..];
    forall m | 0 <= m < |live| ensures InRanges(live[m].ranges, a) <==> a in layers[m].restore {
      HoldersMatch(live, logs, overrides, shaken, m, a);
    }
    var f, n := FirstHolder(newer, a), Layers.Newest(layers, |live|, a);
    if n > k { assert newer[n - k - 1] == live[n]; }
    if f < |newer| { assert newer[f] == live[k + 1 + f]; }
  }

  /** A newer script is handed a byte exactly when it is the heir of it. */
  lemma {:induction false} HeirGets(live: seq<LivePatch>, logs: seq<seq<Saved>>, overrides: seq<seq<Override>>, shaken: seq<bool>,
                 k: nat, i: nat, hs: seq<Handover>, a: Addr)
    requires Tracks(live, logs) && |logs| == |overrides| == |shaken| && k < i < |live|
    requires HandedOn(Applied(logs[k], overrides[k]), live[k + 1..], hs) && Original(logs[i], a).Some?
    ensures var layers, log, newer := LayersOf(logs, overrides, shaken), Applied(logs[k], overrides[k]), live[k + 1..];
            && (Gets(hs, live[i].owner, a) <==> Layers.Heir(layers, k, i, a))
            && (Gets(hs, live[i].owner, a) <==> Passes(log, newer, a) && newer[FirstHolder(newer, a)].owner == live[i].owner)
            && (Layers.Heir(layers, k, i, a) ==> Original(log, a) == Some(layers[k].restore[a]))
  {
    hide RangesOf, Given, HandedOn, Applied, Gets, FirstHolder, Layers.Newest, DataCovers;
    var log, newer := Applied(logs[k], overrides[k]), live[k + 1..];
    GetsWhatPasses(log, newer, hs, live[i].owner, a);
    AppliedRestores(logs[k], overrides[k], a);
    AppliedPlain(logs[k], overrides[k]);
    PlainHolds(log, a);
    HoldersMatch(live, logs, overrides, shaken, k, a);
    HoldersMatch(live, logs, overrides, shaken, i, a);
    hide LastOverride, Original, Plain;
    if a in LayersOf(logs, overrides, shaken)[k].restore {
      FirstIsNewest(live, logs, overrides, shaken, k, i, a);
      assert newer[FirstHolder(newer, a)] == live[k + 1 + FirstHolder(newer, a)];
    }
  }

  /** A newer script's layer after the disable is the one the layered undo prescribes. */
  lemma {:induction false} NewerInherits(live: seq<LivePatch>, logs: seq<seq<Saved>>, overrides: seq<seq<Override>>, shaken: seq<bool>,
                      k: nat, i: nat, hs: seq<Handover>)
    requires Tracks(live, logs) && |logs| == |overrides| == |shaken| && k < i < |live|
    requires HandedOn(Applied(logs[k], overrides[k]), live[k + 1..], hs)
    ensures LayerOf(logs[i], overrides[i] + Given(hs, live[i].owner), shaken[i]) ==
            Layers.Inherit(LayersOf(logs, overrides, shaken), k, i)
  {
    TracksCount(live, logs);
    var layers := LayersOf(logs, overrides, shaken);
    assert layers[i] == LayerOf(logs[i], overrides[i], shaken[i]);
    hide *;
    var after, want := LayerOf(logs[i], overrides[i] + Given(hs, live[i].owner), shaken[i]), Layers.Inherit(layers, k, i);
    forall a: Addr
      ensures SameAt(after, want, a)
    {
      LayerAt(logs[i], overrides[i], shaken[i], a);
      LayerAt(logs[i], overrides[i] + Given(hs, live[i].owner), shaken[i], a);
      InheritAt(layers, k, i, a);
      if Original(logs[i], a).Some? {
        InheritedByte(live, logs, overrides, shaken, k, i, hs, a);
        InheritedSaved(live, logs, overrides, shaken, k, i, hs, a);
      }
      SameAtIs(after, want, a);
    }
    LayerAt(logs[i], overrides[i], shaken[i], 0);
    LayerAt(logs[i], overrides[i] + Given(hs, live[i].owner), shaken[i], 0);
    InheritAt(layers, k, i, 0);
    SameLayer(after, want);
  }

  predicate SameAt(x: Layers.Layer, y: Layers.Layer, a: Addr)
  {
    && (a in x.restore <==> a in y.restore) && (a in x.restore ==> x.restore[a] == y.restore[a])
    && (a in x.written <==> a in y.written) && (a in x.written ==> x.written[a] == y.written[a])
    && (a in x.saved <==> a in y.saved) && (a in x.saved ==> x.saved[a] == y.saved[a])
  }

  lemma {:induction false} SameAtIs(x: Layers.Layer, y: Layers.Layer, a: Addr)
    requires a in x.restore <==> a in y.restore
    requires a in x.written <==> a in y.written
    requires a in x.saved <==> a in y.saved
    requires a in x.restore ==> x.restore[a] == y.restore[a]
    requires a in x.written ==> x.written[a] == y.written[a]
    requires a in x.saved ==> x.saved[a] == y.saved[a]
    ensures SameAt(x, y, a)
  {
  }

  lemma {:induction false} SameLayer(x: Layers.Layer, y: Layers.Layer)
    requires x.shaken == y.shaken && forall a: Addr :: SameAt(x, y, a)
    ensures x == y
  {
    forall a: Addr ensures a in x.restore <==> a in y.restore { assert SameAt(x, y, a); }
    assert x.restore == y.restore by {
      forall a | a in x.restore ensures x.restore[a] == y.restore[a] { assert SameAt(x, y, a); }
    }
    forall a: Addr ensures a in x.written <==> a in y.written { assert SameAt(x, y, a); }
    assert x.written == y.written by {
      forall a | a in x.written ensures x.written[a] == y.written[a] { assert SameAt(x, y, a); }
    }
    forall a: Addr ensures a in x.saved <==> a in y.saved { assert SameAt(x, y, a); }
    assert x.saved == y.saved by {
      forall a | a in x.saved ensures x.saved[a] == y.saved[a] { assert SameAt(x, y, a); }
    }
  }

  lemma {:induction false} InheritAt(layers: seq<Layers.Layer>, k: nat, i: nat, a: Addr)
    requires k < i < |layers|
    ensures var x, y := layers[i], Layers.Inherit(layers, k, i);
            && y.shaken == x.shaken && y.written == x.written
            && (a in y.restore <==> a in x.restore) && (a in y.saved <==> a in x.saved)
            && (a in x.restore ==> y.restore[a] == if Layers.Heir(layers, k, i, a) then layers[k].restore[a] else x.restore[a])
            && (a in x.saved ==> y.saved[a] == x.saved[a] + if Layers.Heir(layers, k, i, a) then {layers[k].restore[a]} else {})
  {
    hide Layers.Newest;
  }

  lemma {:induction false} InheritedByte(live: seq<LivePatch>, logs: seq<seq<Saved>>, overrides: seq<seq<Override>>, shaken: seq<bool>,
                      k: nat, i: nat, hs: seq<Handover>, a: Addr)
    requires Tracks(live, logs) && |logs| == |overrides| == |shaken| && k < i < |live|
    requires HandedOn(Applied(logs[k], overrides[k]), live[k + 1..], hs) && Original(logs[i], a).Some?
    ensures var layers := LayersOf(logs, overrides, shaken);
            Value(Restores(logs[i], overrides[i] + Given(hs, live[i].owner), a)) ==
            if Layers.Heir(layers, k, i, a) then layers[k].restore[a] else Value(Restores(logs[i], overrides[i], a))
  {
    TracksCount(live, logs);
    hide Given, HandedOn, Applied, Restores, Tracks, LayersOf, Layers.Heir, Original, Passes;
    ReceiverRestores(Applied(logs[k], overrides[k]), live[k + 1..], hs, live[i].owner, logs[i], overrides[i], a);
    HeirGets(live, logs, overrides, shaken, k, i, hs, a);
  }

  lemma {:induction false} GivenMore(x: seq<Override>, y: seq<Override>, a: Addr, v: Byte)
    ensures GivenAt(x + y, a, v) <==> GivenAt(x, a, v) || GivenAt(y, a, v)
  {
    hide GivenBy;
    if GivenAt(x, a, v) {
      var i :| 0 <= i < |x| && GivenBy(x[i], a, v);
      assert GivenBy((x + y)[i], a, v);
    }
    if GivenAt(y, a, v) {
      var i :| 0 <= i < |y| && GivenBy(y[i], a, v);
      assert GivenBy((x + y)[|x| + i], a, v);
    }
  }

  lemma {:induction false} GivenNow(o: Override, a: Addr, v: Byte)
    ensures GivenAt([o], a, v) <==> GivenBy(o, a, v)
    ensures !GivenAt([], a, v)
  {
    if GivenBy(o, a, v) { assert GivenBy([o][0], a, v); }
  }

  /** What was handed to a script at `a`. */
  lemma {:induction false} GivenIs(log: seq<Saved>, newer: seq<LivePatch>, hs: seq<Handover>, o: Ownership, a: Addr, v: Byte)
    requires AllRightful(log, newer, hs)
    ensures GivenAt(Given(hs, o), a, v) <==> Gets(hs, o, a) && Original(log, a) == Some(v)
  {
    hide Rightful, OverrideCovers, Original, GivenAt, Gets;
    if hs == [] {
      GivenNow(Override(0, []), a, v);
      NobodyGets(o, a);
    } else {
      var n := |hs| - 1;
      assert forall i :: 0 <= i < n ==> hs[..n][i] == hs[i];
      GivenIs(log, newer, hs[..n], o, a, v);
      GetsLast(hs, o, a);
      RightfulByte(log, newer, hs[n], a);
      var x := Override(hs[n].address, hs[n].bytes);
      GivenMore(Given(hs[..n], o), if hs[n].to == o then [x] else [], a, v);
      GivenNow(x, a, v);
    }
  }

  lemma {:induction false} NobodyGets(o: Ownership, a: Addr)
    ensures !Gets([], o, a)
  {
  }

  lemma {:induction false} InheritedSaved(live: seq<LivePatch>, logs: seq<seq<Saved>>, overrides: seq<seq<Override>>, shaken: seq<bool>,
                       k: nat, i: nat, hs: seq<Handover>, a: Addr)
    requires Tracks(live, logs) && |logs| == |overrides| == |shaken| && k < i < |live|
    requires HandedOn(Applied(logs[k], overrides[k]), live[k + 1..], hs) && Original(logs[i], a).Some?
    ensures var layers := LayersOf(logs, overrides, shaken);
            HeldValues(logs[i], overrides[i] + Given(hs, live[i].owner), a) ==
            HeldValues(logs[i], overrides[i], a) + if Layers.Heir(layers, k, i, a) then {layers[k].restore[a]} else {}
  {
    TracksCount(live, logs);
    hide Given, Applied, Tracks, Layers.Heir, Original, Passes, SavedAt, GivenAt, Gets;
    var log := Applied(logs[k], overrides[k]);
    HeirGets(live, logs, overrides, shaken, k, i, hs, a);
    forall v: Byte
      ensures GivenAt(overrides[i] + Given(hs, live[i].owner), a, v) <==>
              GivenAt(overrides[i], a, v) || (Gets(hs, live[i].owner, a) && Original(log, a) == Some(v))
    {
      GivenMore(overrides[i], Given(hs, live[i].owner), a, v);
      GivenIs(log, live[k + 1..], hs, live[i].owner, a, v);
    }
  }

  /** The layers after a committed disable. */
  lemma {:induction false} DisabledLayers(live: seq<LivePatch>, logs: seq<seq<Saved>>, overrides: seq<seq<Override>>, overrides': seq<seq<Override>>,
                       shaken: seq<bool>, k: nat, hs: seq<Handover>)
    requires Tracks(live, logs) && |logs| == |overrides| == |overrides'| == |shaken| && k < |live|
    requires HandedOn(Applied(logs[k], overrides[k]), live[k + 1..], hs)
    requires forall i :: 0 <= i < |live| && i != k ==> overrides'[i] == overrides[i] + Given(hs, live[i].owner)
    ensures LayersOf(Without(logs, k), Without(overrides', k), Without(shaken, k)) ==
            Layers.Without(LayersOf(logs, overrides, shaken), k)
  {
    hide LayerOf, RangesOf, Plain, Given, Applied, HandedOn, Layers.Inherit;
    var after := LayersOf(Without(logs, k), Without(overrides', k), Without(shaken, k));
    var want := Layers.Without(LayersOf(logs, overrides, shaken), k);
    forall j | 0 <= j < |live| - 1 ensures after[j] == want[j] {
      if j < k {
        OlderGetsNothing(live, logs[k], overrides[k], k, j, hs);
        assert overrides[j] + [] == overrides[j];
      } else {
        NewerInherits(live, logs, overrides, shaken, k, j + 1, hs);
      }
    }
  }

  lemma {:induction false} OlderGetsNothing(live: seq<LivePatch>, log: seq<Saved>, overrides: seq<Override>, k: nat, j: nat, hs: seq<Handover>)
    requires Distinct(live) && j < k < |live| && HandedOn(Applied(log, overrides), live[k + 1..], hs)
    ensures Given(hs, live[j].owner) == []
  {
    hide Applied, Original;
    var newer := live[k + 1..];
    forall i | 0 <= i < |hs| ensures hs[i].to != live[j].owner {
      assert Rightful(Applied(log, overrides), newer, hs[i]);
      assert HandoverCovers(hs[i], hs[i].address);
      var f := FirstHolder(newer, hs[i].address);
      assert newer[f] == live[k + 1 + f];
    }
    GivenToOthers(hs, live[j].owner);
  }

  /** Memory after a committed disable, or a failed one. */
  lemma {:induction false} DisabledMemory(live: seq<LivePatch>, logs: seq<seq<Saved>>, overrides: seq<seq<Override>>, shaken: seq<bool>, k: nat,
                       m: Mem, m': Mem)
    requires Tracks(live, logs) && |logs| == |overrides| == |shaken| && k < |live| && m.Keys == m'.Keys
    requires var log, newer := Applied(logs[k], overrides[k]), live[k + 1..];
             forall a: Addr :: a in m && m'[a] != m[a] ==> Original(log, a).Some? && !Passes(log, newer, a) && SavedAt(log, a, m'[a])
    ensures ChangedBySaved(m, m', LayersOf(logs, overrides, shaken), k)
    ensures RestoredExcept(m', Applied(logs[k], overrides[k]), live[k + 1..]) ==>
              m' == Layers.Overlay(m, Layers.PutBack(LayersOf(logs, overrides, shaken), k))
  {
    hide Applied, Original, RangesOf, Plain, Restores, LastOverride, FirstHolder, SavedAt, HeldValues, Written;
    var log, newer := Applied(logs[k], overrides[k]), live[k + 1..];
    var layers := LayersOf(logs, overrides, shaken);
    var put := Layers.PutBack(layers, k);
    forall a: Addr
      ensures a in put <==> Original(log, a).Some? && !Passes(log, newer, a)
      ensures a in put ==> Some(put[a]) == Original(log, a)
    {
      PutBackByte(live, logs, overrides, shaken, k, a);
    }
    forall a: Addr | a in m && m'[a] != m[a] ensures a in put && a in layers[k].saved && m'[a] in layers[k].saved[a] {
      HoldersMatch(live, logs, overrides, shaken, k, a);
      PlainSized(logs[k]);
      AppliedSaved(logs[k], overrides[k], a, m'[a]);
      HeldIsValue(logs[k], overrides[k], a, m'[a]);
    }
  }

  /** What a failed disable may do. */
  ghost predicate ChangedBySaved(m: Mem, m': Mem, layers: seq<Layers.Layer>, k: nat)
    requires k < |layers|
  {
    && m'.Keys == m.Keys
    && forall a :: a in m && m'[a] != m[a] ==>
         a in Layers.PutBack(layers, k) && a in layers[k].saved && m'[a] in layers[k].saved[a]
  }

  lemma {:induction false} HeldIsValue(log: seq<Saved>, overrides: seq<Override>, a: Addr, v: Byte)
    requires HeldAt(log, overrides, a, v)
    ensures v in HeldValues(log, overrides, a)
  {
    hide HeldAt;
  }

  lemma {:induction false} LastIsGiven(overrides: seq<Override>, a: Addr)
    requires LastOverride(overrides, a).Some?
    ensures GivenAt(overrides, a, LastOverride(overrides, a).value)
  {
    var n := |overrides| - 1;
    var v := LastOverride(overrides, a).value;
    if OverrideCovers(overrides[n], a) {
      assert GivenBy(overrides[n], a, v);
    } else {
      LastIsGiven(overrides[..n], a);
      GivenMore(overrides[..n], [overrides[n]], a, v);
      assert overrides[..n] + [overrides[n]] == overrides;
    }
  }

  /** What a script restores anywhere was saved by it or handed to it. */
  lemma {:induction false} AppliedSaved(log: seq<Saved>, overrides: seq<Override>, a: Addr, v: Byte)
    requires AllSized(log) && SavedAt(Applied(log, overrides), a, v)
    ensures HeldAt(log, overrides, a, v)
  {
    hide Applied, LastOverride;
    var view := Applied(log, overrides);
    var i :| 0 <= i < |view| && SavedBy(view[i], a, v);
    AppliedPatch(log, overrides, i, a);
    if LastOverride(overrides, a).Some? { LastIsGiven(overrides, a); } else { assert SavedBy(log[i], a, v); }
  }

  lemma {:induction false} PutBackByte(live: seq<LivePatch>, logs: seq<seq<Saved>>, overrides: seq<seq<Override>>, shaken: seq<bool>, k: nat, a: Addr)
    requires Tracks(live, logs) && |logs| == |overrides| == |shaken| && k < |live|
    ensures var log, newer := Applied(logs[k], overrides[k]), live[k + 1..];
            var put := Layers.PutBack(LayersOf(logs, overrides, shaken), k);
            && (a in put <==> Original(log, a).Some? && !Passes(log, newer, a))
            && (a in put ==> Some(put[a]) == Original(log, a))
  {
    hide RangesOf, Applied;
    var log, newer := Applied(logs[k], overrides[k]), live[k + 1..];
    AppliedRestores(logs[k], overrides[k], a);
    AppliedPlain(logs[k], overrides[k]);
    PlainHolds(log, a);
    HoldersMatch(live, logs, overrides, shaken, k, a);
    if Original(logs[k], a).Some? { NoneNewer(live, logs, overrides, shaken, k, a); }
  }

  // ------------------------------------------------------- an enable, from above

  lemma {:induction false} EnabledLayer(before: Mem, m: Mem, log: seq<Saved>)
    requires RunLog(before, m, log) && Landed(m, log)
    ensures var layer := LayerOf(log, [], false);
            && layer.written.Keys == layer.saved.Keys && layer.written.Keys <= before.Keys
            && m == Layers.Overlay(before, layer.written)
            && layer.restore == Layers.Found(before, layer.written)
  {
    hide Original, Written, Accepted, HeldValues;
    var layer := LayerOf(log, [], false);
    forall a: Addr | a in m ensures m[a] == if a in layer.written then layer.written[a] else before[a] {
      assert ByteLogged(before, m, log, a);
    }
    forall a | a in layer.restore ensures a in before && layer.restore[a] == before[a] {
      assert ByteLogged(before, m, log, a);
    }
    assert layer.restore.Keys == layer.written.Keys;
  }

  /** The event of a successful enable. */
  ghost function EnableOf(log: seq<Saved>): Layers.Event
  {
    Layers.Enable(LayerOf(log, [], false).written, LayerOf(log, [], false).saved)
  }

  lemma {:induction false} EnabledStep(w: Layers.World, m: Mem, log: seq<Saved>)
    requires RunLog(w.mem, m, log) && Landed(m, log)
    ensures Layers.Step(w, EnableOf(log), Layers.World(m, w.layers + [LayerOf(log, [], false)]))
  {
    hide RunLog, Landed;
    EnabledLayer(w.mem, m, log);
    var layer := LayerOf(log, [], false);
    assert !layer.shaken;
    hide LayerOf;
    assert layer == Layers.Layer(layer.restore, layer.written, layer.saved, false);
  }

  ghost function OverridesOf(us: seq<Undo>): (r: seq<seq<Override>>)
    reads set i | 0 <= i < |us| :: us[i].owner
    ensures |r| == |us| && forall i :: 0 <= i < |us| ==> r[i] == us[i].owner.overrides
  {
    if us == [] then []
    else
      var n := |us| - 1;
      assert forall i :: 0 <= i < n ==> us[..n][i].owner == us[i].owner;
      OverridesOf(us[..n]) + [us[n].owner.overrides]
  }

  predicate DataOnly(requests: seq<Request>)
  {
    forall i :: 0 <= i < |requests| ==> (requests[i].executable ==> requests[i].mutableData) && requests[i].lease.NoLease?
  }

  /** What the undo of a failed enable still puts back. */
  ghost function Behind(log: seq<Saved>): Mem
  {
    map a: Addr | 0 <= a <= TOP && Original(log, a).Some? :: Value(Original(log, a))
  }

  lemma {:induction false} PartRollback(before: Mem, m: Mem, log: seq<Saved>, requests: seq<Request>)
    requires StillToUndo(before, m, log, requests) && DataOnly(requests)
    ensures Plain(log) && AllMapped(m, log) && Layers.LeftBehind(before, m, Behind(log))
  {
    hide Original, LastWrite;
  }

  lemma {:induction false} ApartReady(m: Mem, log: seq<Saved>)
    requires Plain(log)
    ensures AllSized(log) && Owned(m, log)
  {
  }

  /** A cleanup of a failed enable's undo, when nothing passes to others. */
  lemma {:induction false} ApartUndone(m: Mem, m': Mem, log: seq<Saved>)
    requires m'.Keys == m.Keys && forall a: Addr :: !Passes(log, [], a)
    requires forall a: Addr :: a in m' && m'[a] != m[a] ==> Original(log, a).Some? && !Passes(log, [], a)
    ensures RestoredExcept(m', log, []) ==> m' == Layers.Overlay(m, Behind(log))
    ensures AllMapped(m, log) ==> AllMapped(m', log) && Behind(log).Keys <= m.Keys && Layers.ChangedWithin(m, m', Behind(log))
  {
    hide Original, Passes;
  }

  lemma {:induction false} PlainWritten(logs: seq<seq<Saved>>, i: nat, a: Addr)
    requires i < |logs| && Plain(logs[i])
    ensures Original(logs[i], a).Some? ==> Written(logs[i], a).Some?
  {
    WrittenIsOriginal(logs[i], a);
  }

  lemma {:induction false} EmptyRun(before: Mem, m: Mem, log: seq<Saved>, requests: seq<Request>)
    requires RunLog(before, m, log) && Assembler.Logs(log, requests) && requests == []
    ensures m == before
  {
    forall a | a in m ensures m[a] == before[a] { assert ByteLogged(before, m, log, a); }
  }

  lemma {:induction false} LoggedPlain(before: Mem, m: Mem, log: seq<Saved>, requests: seq<Request>)
    requires RunLog(before, m, log) && Assembler.Logs(log, requests) && DataOnly(requests)
    ensures Plain(log)
  {
  }

  lemma {:induction false} TracksMore(live: seq<LivePatch>, logs: seq<seq<Saved>>, live': seq<LivePatch>, log: seq<Saved>)
    requires Tracks(live, logs) && Plain(log) && Distinct(live')
    requires |live'| == |live| + 1 && live'[..|live|] == live && live'[|live|].ranges == RangesOf(log)
    ensures Tracks(live', logs + [log])
  {
    forall i | 0 <= i < |live'| ensures Plain((logs + [log])[i]) && live'[i].ranges == RangesOf((logs + [log])[i]) {
      if i < |live| { assert live'[i] == live'[..|live|][i]; }
    }
  }

  lemma {:induction false} LayersAppend(logs: seq<seq<Saved>>, overrides: seq<seq<Override>>, shaken: seq<bool>, log: seq<Saved>)
    requires |logs| == |overrides| == |shaken|
    ensures LayersOf(logs + [log], overrides + [[]], shaken + [false]) == LayersOf(logs, overrides, shaken) + [LayerOf(log, [], false)]
  {
    hide LayerOf;
  }

  // ---------------------------------------------------------------- the session

  /** Whoever enables scripts keeps the undo of each; here next to the assembler's own list. */
  class Session {
    const proc: Process
    const assembler: AutoAssembler
    var undos: seq<Undo>
    ghost var shaken: seq<bool>
    ghost const initial: Mem
    /** The history of calls: the states, and what happened between them. */
    ghost var worlds: seq<Layers.World>
    ghost var events: seq<Layers.Event>

    constructor (proc: Process)
      ensures this.proc == proc && initial == proc.mem && undos == [] && fresh(assembler)
      ensures Valid() && Abs() == Layers.World(initial, [])
    {
      this.proc := proc;
      assembler := new AutoAssembler(proc);
      undos, shaken := [], [];
      initial := proc.mem;
      worlds, events := [Layers.World(proc.mem, [])], [];
      new;
      assert Abs() == Layers.World(initial, []);
    }

    ghost function Logs(): (r: seq<seq<Saved>>)
      reads this`undos
      ensures |r| == |undos|
    {
      var us := undos;
      seq(|us|, i requires 0 <= i < |us| => us[i].originals)
    }

    ghost function Owners(): set<object>
      reads this`undos
    {
      set i | 0 <= i < |undos| :: undos[i].owner
    }

    ghost function Overrides(): (r: seq<seq<Override>>)
      reads this`undos, Owners()
      ensures |r| == |undos|
    {
      OverridesOf(undos)
    }

    /** Memory and scripts, byte by byte. */
    ghost function Abs(): Layers.World
      requires |shaken| == |undos|
      reads this`undos, this`shaken, proc, Owners()
    {
      Layers.World(proc.mem, LayersOf(Logs(), Overrides(), shaken))
    }

    ghost predicate Linked()
      reads this`undos, this`shaken, assembler, Owners(), assembler.Owners()
    {
      && assembler.proc == proc && assembler.Struct() && |shaken| == |undos| == |assembler.live|
      && (forall i :: 0 <= i < |undos| ==> undos[i].owner == assembler.live[i].owner)
      && Tracks(assembler.live, Logs())
    }

    /** The history is a run of the layered undo that has come to this state. */
    ghost predicate Valid()
      reads this`undos, this`shaken, this`worlds, this`events, proc, assembler, Owners(), assembler.Owners()
    {
      Linked() && Layers.Run(initial, worlds, events) && worlds[|events|] == Abs()
    }

    /** How a byte stands now. */
    ghost function Standing(a: Addr): Layers.Standing
      requires |worlds| == |events| + 1
      reads this`worlds, this`events
    {
      Layers.StandingOf(worlds, events, |events|, a)
    }

    /** `e` has happened. */
    ghost predicate Happened(was: seq<Layers.Event>, e: Layers.Event, past: seq<Layers.World>)
      requires |shaken| == |undos|
      reads this`undos, this`shaken, this`worlds, this`events, proc, Owners()
    {
      events == was + [e] && worlds == past + [Abs()]
    }

    ghost method Record(e: Layers.Event)
      requires Linked() && Layers.Run(initial, worlds, events) && Layers.Step(worlds[|events|], e, Abs())
      modifies this`worlds, this`events
      ensures Valid() && Happened(old(events), e, old(worlds))
    {
      hide Layers.Step, LayersOf, OverridesOf, Tracks;
      Layers.RunMore(initial, worlds, events, e, Abs());
      hide Layers.Run;
      worlds, events := worlds + [Abs()], events + [e];
    }

    lemma {:induction false} SameOwners()
      requires Linked()
      ensures Owners() == assembler.Owners()
    {
      forall o | o in Owners() ensures o in assembler.Owners() {
        var i :| 0 <= i < |undos| && o == undos[i].owner;
        assert assembler.live[i].owner == o;
      }
      forall o | o in assembler.Owners() ensures o in Owners() {
        var i :| 0 <= i < |assembler.live| && o == assembler.live[i].owner;
        assert undos[i].owner == o;
      }
    }

    /** The script at `k` covers `a`, and none enabled after it does. */
    ghost predicate NewestOver(k: nat, a: Addr)
      reads this`undos
    {
      && k < |undos| && Original(undos[k].originals, a).Some?
      && forall i :: k < i < |undos| ==> Original(undos[i].originals, a).None?
    }

    /** A settled byte is what the newest live script that covers it last wrote there, or, if a disable of
        that script failed, a byte it saved or was handed; and the initial byte when no live script covers it. */
    lemma {:induction false} NewestScriptShows(a: Addr)
      requires Valid() && a in initial && Standing(a) == Layers.Settled
      ensures a in proc.mem
      ensures (forall i :: 0 <= i < |undos| ==> Original(undos[i].originals, a).None?) ==> proc.mem[a] == initial[a]
      ensures forall k: nat :: NewestOver(k, a) ==>
                || Written(undos[k].originals, a) == Some(proc.mem[a])
                || (shaken[k] && HeldAt(undos[k].originals, undos[k].owner.overrides, a, proc.mem[a]))
    {
      hide *;
      ReadValid();
      StandingIs(a);
      Layers.AnyOrderDisable(initial, worlds, events, |events|, a);
      Combine();
      ShowsScript(Logs(), Overrides(), shaken, initial, proc.mem, a);
      forall i | 0 <= i < |undos| ensures Logs()[i] == undos[i].originals && Overrides()[i] == undos[i].owner.overrides { ScriptAt(i); }
      forall k: nat | NewestOver(k, a)
        ensures k < |undos|
        ensures || Written(undos[k].originals, a) == Some(proc.mem[a])
                || (shaken[k] && HeldAt(undos[k].originals, undos[k].owner.overrides, a, proc.mem[a]))
      {
        NewestScript(k, a);
        ShowsMeans(Logs(), Overrides(), shaken, proc.mem, a, k);
      }
    }

    lemma {:induction false} ScriptAt(i: nat)
      requires i < |undos|
      ensures Logs()[i] == undos[i].originals && Overrides()[i] == undos[i].owner.overrides
    {
    }

    lemma {:induction false} NewestScript(k: nat, a: Addr)
      requires NewestOver(k, a)
      ensures k < |undos| && Original(undos[k].originals, a).Some?
      ensures forall i :: k < i < |undos| ==> Original(undos[i].originals, a).None?
    {
    }

    lemma {:induction false} StandingIs(a: Addr)
      requires |worlds| == |events| + 1
      ensures Standing(a) == Layers.StandingOf(worlds, events, |events|, a)
    {
    }

    lemma {:induction false} ReadValid()
      requires Valid()
      ensures Linked()
      ensures |shaken| == |undos| && Layers.Run(initial, worlds, events) && |worlds| == |events| + 1 && worlds[|events|] == Abs()
      ensures forall i :: 0 <= i < |undos| ==> Plain(Logs()[i])
    {
    }

    /** Enable a script of data patches: an enable of the layered undo, or nothing at all, or a failed one
        whose bytes `left` still puts back. */
    method Enable(requests: seq<Request>, allocations: seq<Addr>) returns (success: bool, ghost restored: bool, left: Undo)
      requires Valid() && Proposed(requests) && DataOnly(requests)
      modifies this`undos, this`shaken, this`worlds, this`events, assembler`live, proc`mem, proc`freed, Owners()
      ensures Valid()
      ensures success && requests != [] ==>
                && undos == old(undos) + [left] && Assembler.Logs(left.originals, requests)
                && Happened(old(events), EnableOf(left.originals), old(worlds))
      ensures (success && requests == []) || (!success && restored) ==>
                Abs() == old(Abs()) && undos == old(undos) && events == old(events) && worlds == old(worlds)
      ensures !success && !restored ==>
                && Abs().layers == old(Abs().layers) && undos == old(undos) && Apart(left)
                && Happened(old(events), Layers.FailedEnable(Behind(left.originals)), old(worlds))
      ensures proc.reliable ==> success || restored
      ensures success ==> AllReached(old(proc.mem), requests)
      ensures proc.reliable && AllReached(old(proc.mem), requests) ==> success
    {
      hide OverridesOf, RunLog, Landed, LayerOf, LayersOf, Plain, Tracks, Layers.Run, RangesOf, Assembler.Logs, DataOnly, Layers.Step,
        AllReached, Layers.LeftBehind, Behind, StillToUndo, AllMapped, Distinct;
      SameOwners();
      ghost var w, before := Abs(), proc.mem;
      var undo;
      success, undo, restored := assembler.Execute(requests, allocations);
      left := undo;
      assert Overrides() == old(Overrides()) && Logs() == old(Logs());
      if success && requests != [] {
        LoggedPlain(before, proc.mem, undo.originals, requests);
        Keep(undo, w, old(assembler.live));
        Record(EnableOf(undo.originals));
      } else {
        assert old(assembler.live) + [] == old(assembler.live);
        if success { EmptyRun(before, proc.mem, undo.originals, requests); }
        if !success && !restored {
          PartRollback(before, proc.mem, undo.originals, requests);
          FailedStep(w, Abs(), Behind(undo.originals));
          Record(Layers.FailedEnable(Behind(undo.originals)));
        }
      }
    }

    /** Record the undo of a script that the assembler has just enabled, in the world `w`. */
    method Keep(undo: Undo, ghost w: Layers.World, ghost live: seq<LivePatch>)
      requires assembler.proc == proc && assembler.Struct() && |shaken| == |undos| == |live|
      requires assembler.live == live + [LivePatch(undo.owner, RangesOf(undo.originals))] && undo.owner.overrides == []
      requires (forall i :: 0 <= i < |undos| ==> undos[i].owner == live[i].owner) && Tracks(live, Logs())
      requires Plain(undo.originals) && RunLog(w.mem, proc.mem, undo.originals) && Landed(proc.mem, undo.originals)
      requires w.layers == LayersOf(Logs(), Overrides(), shaken)
      modifies this`undos, this`shaken
      ensures Linked() && undos == old(undos) + [undo]
      ensures Layers.Step(w, EnableOf(undo.originals), Abs())
    {
      hide OverridesOf, RunLog, Landed, LayerOf, LayersOf, Plain, Tracks, RangesOf, Layers.Step;
      ghost var logs, overrides, was := Logs(), Overrides(), shaken;
      undos := undos + [undo];
      shaken := shaken + [false];
      assert Logs() == logs + [undo.originals];
      assert Overrides() == overrides + [[]];
      TracksMore(live, logs, assembler.live, undo.originals);
      LayersAppend(logs, overrides, was, undo.originals);
      EnabledStep(w, proc.mem, undo.originals);
      assert Abs() == Layers.World(proc.mem, w.layers + [LayerOf(undo.originals, [], false)]);
    }

    lemma {:induction false} Position(k: nat)
      requires Linked() && k < |undos|
      ensures IndexOf(assembler.live, undos[k].owner) == k && undos[k].originals != []
      ensures NewerThan(assembler.live, undos[k].owner) == assembler.live[k + 1..]
      ensures Removed(assembler.live, undos[k].owner) == Without(assembler.live, k)
      ensures undos[k].owner in Owners() && !undos[k].owner.complete && Plain(undos[k].originals)
      ensures Logs()[k] == undos[k].originals && Overrides()[k] == undos[k].owner.overrides
      ensures forall i :: 0 <= i < |undos| && i != k ==> undos[i].owner != undos[k].owner && undos[i].owner in assembler.Owners()
    {
      assert undos[k].owner == assembler.live[k].owner;
    }

    /** The undo of a failed enable: its owner is not among the live scripts. */
    ghost predicate Apart(undo: Undo)
      reads this`undos, proc`mem, undo.owner
    {
      && undo.owner !in Owners() && !undo.owner.complete && undo.owner.overrides == []
      && Plain(undo.originals) && AllMapped(proc.mem, undo.originals)
    }

    /** Try the undo of a failed enable again. Committed, it puts back all it holds; `before` is what
        memory was when the enable began, if nothing else happened since. */
    method UndoEnable(undo: Undo, ghost before: Mem) returns (success: bool, left: Undo, ghost committed: bool)
      requires Valid() && Apart(undo)
      modifies this`worlds, this`events, assembler`live, proc`mem, proc`freed, undo.owner, Owners()
      ensures Valid() && Abs().layers == old(Abs().layers)
      ensures var put := Behind(undo.originals);
              Happened(old(events), if committed then Layers.Retry(put) else Layers.FailedRetry(put), old(worlds))
      ensures committed ==> proc.mem == Layers.Overlay(old(proc.mem), Behind(undo.originals)) && left.originals == []
      ensures !committed ==> Apart(undo) && left == undo && Layers.ChangedWithin(old(proc.mem), proc.mem, Behind(undo.originals))
      ensures success ==> committed
      ensures proc.reliable ==> success
      ensures Layers.LeftBehind(before, old(proc.mem), Behind(undo.originals)) ==>
                if committed then proc.mem == before else Layers.LeftBehind(before, proc.mem, Behind(undo.originals))
    {
      hide OverridesOf, LayerOf, LayersOf, Plain, Tracks, Passes, Original, AllMapped, RestoredExcept, HandedOn, Distinct,
        Owned, Applied, Removed, NewerThan, IndexOf, SavedAt, Layers.Run, Layers.Step;
      SameOwners();
      ghost var m, w, overrides, live := proc.mem, Abs(), Overrides(), assembler.live;
      ghost var hs;
      ApartReady(m, undo.originals);
      NobodyNewer(live, undo.owner, undo.originals);
      success, left, committed, hs := assembler.Cleanup(undo);
      if committed { NothingHanded(undo.originals, hs); }
      forall o: Ownership | o in old(assembler.Owners()) ensures o.overrides == old(o.overrides) {
        assert Given(hs, o) == [];
      }
      assert Overrides() == overrides;
      ApartUndone(m, proc.mem, undo.originals);
      RetryStep(w, Abs(), Behind(undo.originals), committed);
      Record(if committed then Layers.Retry(Behind(undo.originals)) else Layers.FailedRetry(Behind(undo.originals)));
    }

    /** Disable the script at `k`. Committed, it is a disable of the layered undo, and `left` holds only
        allocations that could not be freed; not committed, its undo is kept for a retry and only
        bytes it would put back may have changed, to bytes it saved or was handed. */
    method Disable(k: nat) returns (success: bool, left: Undo, ghost committed: bool)
      requires Valid() && k < |undos|
      modifies this`undos, this`shaken, this`worlds, this`events, assembler`live, proc`mem, proc`freed, Owners()
      ensures Valid()
      ensures Happened(old(events), if committed then Layers.Disable(k) else Layers.FailedDisable(k), old(worlds))
      ensures undos == if committed then Without(old(undos), k) else old(undos)
      ensures success ==> committed
      ensures committed <==> left.originals == []
      ensures proc.reliable ==> success
      ensures if committed then FreedBut(old(proc.freed), proc.freed, old(undos)[k].allocations, left.allocations) && (success ==> left.allocations == [])
              else proc.freed == old(proc.freed)
    {
      hide AfterCommit, AfterFailure, Layers.Step, Without, Linked, Layers.Run, Layers.WellFormed;
      LinkedLayers(k);
      ghost var w := Abs();
      ReadValid();
      Layers.RunStarts(initial, worlds, events, |events|);
      success, left, committed := CleanUp(k, w);
      if left.originals == [] {
        ForgetStep(k, w);
      } else {
        ShakeStep(k, w);
      }
      Combine();
      Record(if committed then Layers.Disable(k) else Layers.FailedDisable(k));
    }

    lemma {:induction false} LinkedLayers(k: nat)
      requires Linked() && k < |undos|
      ensures |shaken| == |undos|
    {
    }

    /** The assembler restored and forgot the script at `k` of `w`; the session has yet to. */
    ghost predicate AfterCommit(k: nat, w: Layers.World)
      reads this`undos, this`shaken, proc, assembler, Owners(), assembler.Owners()
    {
      && Forgettable(k) && k < |w.layers|
      && proc.mem == Layers.Overlay(w.mem, Layers.PutBack(w.layers, k))
      && LayersOf(Without(Logs(), k), Without(Overrides(), k), Without(shaken, k)) == Layers.Without(w.layers, k)
    }

    /** A cleanup of the script at `k` of `w` failed. */
    ghost predicate AfterFailure(k: nat, w: Layers.World)
      reads this`undos, this`shaken, proc, assembler, Owners(), assembler.Owners()
    {
      && Linked() && k < |undos|
      && w.layers == LayersOf(Logs(), Overrides(), shaken) && ChangedBySaved(w.mem, proc.mem, w.layers, k)
    }

    /** The assembler has forgotten the script at `k`, the session has not yet. */
    ghost predicate Forgettable(k: nat)
      reads this`undos, this`shaken, assembler, Owners(), assembler.Owners()
    {
      && k < |undos| == |shaken| && assembler.proc == proc && assembler.Struct() && |assembler.live| == |undos| - 1
      && (forall i :: 0 <= i < |undos| - 1 ==> assembler.live[i].owner == undos[if i < k then i else i + 1].owner)
      && Tracks(assembler.live, Without(Logs(), k))
    }

    method ForgetStep(k: nat, ghost w: Layers.World)
      requires AfterCommit(k, w)
      modifies this`undos, this`shaken
      ensures k < |old(undos)| && undos == Without(old(undos), k) && Linked() && Layers.Step(w, Layers.Disable(k), Abs())
    {
      hide OverridesOf, LayerOf, LayersOf, Layers.PutBack, Layers.Overlay, Layers.Without, Tracks, Linked;
      Forget(k);
      Combine();
    }

    ghost method ShakeStep(k: nat, w: Layers.World)
      requires AfterFailure(k, w)
      modifies this`shaken
      ensures undos == old(undos) && Linked() && Layers.Step(w, Layers.FailedDisable(k), Abs())
    {
      hide OverridesOf, LayerOf, LayersOf, Plain, Tracks, RangesOf, Layers.Step, Layers.PutBack, Distinct;
      ShakenStep(w, proc.mem, Logs(), Overrides(), shaken, k);
      Shake(k);
    }

    lemma {:induction false} Combine()
      requires Linked()
      ensures |shaken| == |undos|
      ensures Abs() == Layers.World(proc.mem, LayersOf(Logs(), Overrides(), shaken))
    {
    }

    ghost method Shake(k: nat)
      requires Linked() && k < |undos|
      modifies this`shaken
      ensures Linked() && Logs() == old(Logs()) && Overrides() == old(Overrides()) && shaken == old(shaken)[k := true]
    {
      hide OverridesOf, Plain, RangesOf, Tracks;
      shaken := shaken[k := true];
    }

    /** Drop the record of a script the assembler has forgotten. */
    method Forget(k: nat)
      requires Forgettable(k)
      modifies this`undos, this`shaken
      ensures undos == Without(old(undos), k) && shaken == Without(old(shaken), k) && Linked()
      ensures Logs() == Without(old(Logs()), k) && Overrides() == Without(old(Overrides()), k)
    {
      hide OverridesOf, Plain, RangesOf, Tracks;
      undos := undos[..k] + undos[k + 1..];
      shaken := shaken[..k] + shaken[k + 1..];
      assert Logs() == Without(old(Logs()), k);
      assert Overrides() == Without(old(Overrides()), k);
    }

    /** The assembler's cleanup, in terms of the layers. */
    method CleanUp(k: nat, ghost w: Layers.World) returns (success: bool, left: Undo, ghost committed: bool)
      requires Linked() && k < |undos| && w == Abs() && Layers.WellFormed(w)
      modifies assembler`live, proc`mem, proc`freed, Owners()
      ensures committed == (left.originals == []) && (success ==> committed) && (proc.reliable ==> success)
      ensures if committed then AfterCommit(k, w) else AfterFailure(k, w)
      ensures if committed then FreedBut(old(proc.freed), proc.freed, undos[k].allocations, left.allocations) && (success ==> left.allocations == [])
              else proc.freed == old(proc.freed)
    {
      hide OverridesOf, LayerOf, LayersOf, Plain, Tracks, RangesOf, RestoredExcept, HandedOn, Applied, Passes, Original,
        Layers.PutBack, Layers.Without, Layers.Overlay, Distinct, IndexOf, NewerThan, Removed, Given, AllSized, Owned, AllMapped;
      SameOwners();
      Position(k);
      ghost var ovs, live := Overrides(), assembler.live;
      DisableReady(w, Logs(), ovs, shaken, k);
      ghost var hs;
      success, left, committed, hs := assembler.Cleanup(undos[k]);
      DisabledMemory(live, Logs(), ovs, shaken, k, w.mem, proc.mem);
      if committed {
        DisabledLayers(live, Logs(), ovs, Overrides(), shaken, k, hs);
        TracksLess(live, Logs(), k);
      } else {
        assert Overrides() == ovs;
      }
    }
  }

  /** A plain script never fails the ownership check, and what it restores is mapped. */
  lemma {:induction false} DisableReady(w: Layers.World, logs: seq<seq<Saved>>, overrides: seq<seq<Override>>, shaken: seq<bool>, k: nat)
    requires |logs| == |overrides| == |shaken| && k < |logs| && Plain(logs[k])
    requires Layers.WellFormed(w) && w.layers == LayersOf(logs, overrides, shaken)
    ensures var log := Applied(logs[k], overrides[k]);
            AllSized(logs[k]) && Owned(w.mem, log) && AllMapped(w.mem, log)
  {
    hide Original, Applied;
    AppliedPlain(logs[k], overrides[k]);
    forall a: Addr | Original(Applied(logs[k], overrides[k]), a).Some? ensures a in w.mem {
      AppliedRestores(logs[k], overrides[k], a);
      assert a in w.layers[k].restore;
    }
  }

  lemma {:induction false} TracksLess(live: seq<LivePatch>, logs: seq<seq<Saved>>, k: nat)
    requires Tracks(live, logs) && k < |live|
    ensures Tracks(Without(live, k), Without(logs, k))
  {
    hide Plain, RangesOf;
  }

  lemma {:induction false} ShakenStep(w: Layers.World, m: Mem, logs: seq<seq<Saved>>, overrides: seq<seq<Override>>, shaken: seq<bool>, k: nat)
    requires |logs| == |overrides| == |shaken| && k < |logs|
    requires w.layers == LayersOf(logs, overrides, shaken) && ChangedBySaved(w.mem, m, w.layers, k)
    ensures Layers.Step(w, Layers.FailedDisable(k), Layers.World(m, LayersOf(logs, overrides, shaken[k := true])))
  {
    hide LayerOf, Layers.PutBack;
    LayerShaken(logs[k], overrides[k], shaken[k]);
    assert LayersOf(logs, overrides, shaken[k := true]) == w.layers[k := w.layers[k].(shaken := true)];
  }

  lemma {:induction false} FailedStep(w: Layers.World, w': Layers.World, undo: Mem)
    requires w'.layers == w.layers && Layers.LeftBehind(w.mem, w'.mem, undo)
    ensures Layers.Step(w, Layers.FailedEnable(undo), w')
  {
  }

  lemma {:induction false} RetryStep(w: Layers.World, w': Layers.World, undo: Mem, committed: bool)
    requires w'.layers == w.layers && undo.Keys <= w.mem.Keys
    requires if committed then w'.mem == Layers.Overlay(w.mem, undo) else Layers.ChangedWithin(w.mem, w'.mem, undo)
    ensures Layers.Step(w, if committed then Layers.Retry(undo) else Layers.FailedRetry(undo), w')
  {
  }

  /** Script `k` shows at `a`, or one of its held bytes does. */
  ghost predicate Shows(logs: seq<seq<Saved>>, overrides: seq<seq<Override>>, shaken: seq<bool>, m: Mem, a: Addr, k: nat)
    requires |logs| == |overrides| == |shaken| && k < |logs| && a in m
  {
    Written(logs[k], a) == Some(m[a]) || (shaken[k] && HeldAt(logs[k], overrides[k], a, m[a]))
  }

  lemma {:induction false} ShowsMeans(logs: seq<seq<Saved>>, overrides: seq<seq<Override>>, shaken: seq<bool>, m: Mem, a: Addr, k: nat)
    requires |logs| == |overrides| == |shaken| && k < |logs| && a in m && Shows(logs, overrides, shaken, m, a, k)
    ensures Written(logs[k], a) == Some(m[a]) || (shaken[k] && HeldAt(logs[k], overrides[k], a, m[a]))
  {
  }

  lemma {:induction false} ShowsScript(logs: seq<seq<Saved>>, overrides: seq<seq<Override>>, shaken: seq<bool>, initial: Mem, m: Mem, a: Addr)
    requires |logs| == |overrides| == |shaken| && (forall i :: 0 <= i < |logs| ==> Plain(logs[i])) && a in m && a in initial
    requires Layers.WellFormed(Layers.World(m, LayersOf(logs, overrides, shaken)))
    requires var layers := LayersOf(logs, overrides, shaken);
             var k := Layers.Newest(layers, |layers|, a);
             if k < 0 then m[a] == initial[a]
             else m[a] == layers[k].written[a] || (layers[k].shaken && m[a] in layers[k].saved[a])
    ensures (forall i :: 0 <= i < |logs| ==> Original(logs[i], a).None?) ==> m[a] == initial[a]
    ensures forall k :: 0 <= k < |logs| && Original(logs[k], a).Some? && (forall i :: k < i < |logs| ==> Original(logs[i], a).None?) ==>
              Shows(logs, overrides, shaken, m, a, k)
  {
    hide Original, Written, Plain, LayerOf, HeldAt, HeldValues, Layers.WellFormed;
    var layers := LayersOf(logs, overrides, shaken);
    forall i | 0 <= i < |logs| ensures a in layers[i].restore <==> Original(logs[i], a).Some? { LayerAt(logs[i], overrides[i], shaken[i], a); }
    var k := Layers.Newest(layers, |layers|, a);
    if k >= 0 {
      LayerAt(logs[k], overrides[k], shaken[k], a);
      PlainWritten(logs, k, a);
      ValueIsHeld(logs[k], overrides[k], a, m[a]);
    }
  }

  lemma {:induction false} LayerAt(log: seq<Saved>, overrides: seq<Override>, shaken: bool, a: Addr)
    ensures var layer := LayerOf(log, overrides, shaken);
            && layer.shaken == shaken && (a in layer.restore <==> Original(log, a).Some?)
            && (a in layer.written <==> Original(log, a).Some?) && (a in layer.saved <==> Original(log, a).Some?)
            && (Original(log, a).Some? ==>
                  && layer.restore[a] == Value(Restores(log, overrides, a)) && layer.written[a] == Value(Written(log, a))
                  && layer.saved[a] == HeldValues(log, overrides, a))
  {
    hide Original, Written, Restores, HeldValues;
  }

  lemma {:induction false} ValueIsHeld(log: seq<Saved>, overrides: seq<Override>, a: Addr, v: Byte)
    ensures v in HeldValues(log, overrides, a) ==> HeldAt(log, overrides, a, v)
  {
    hide HeldAt;
  }

  lemma {:induction false} LayerShaken(log: seq<Saved>, overrides: seq<Override>, shaken: bool)
    ensures LayerOf(log, overrides, true) == LayerOf(log, overrides, shaken).(shaken := true)
  {
  }
}
