/**
  core/autoasm.cpp: which saved bytes of a script that is being disabled pass to newer scripts
  that wrote over them, and which it restores itself.
 */
module Handovers {
  import opened Memory
  import opened UndoLog

  /** What the shared ownership record of an activation holds. */
  class Ownership {
    var complete: bool
    var overrides: seq<Override>

    constructor ()
      ensures !complete && overrides == []
    {
      complete, overrides := false, [];
    }
  }

  datatype LivePatch = LivePatch(owner: Ownership, ranges: seq<Range>)

  datatype Handover = Handover(to: Ownership, address: Addr, bytes: seq<Byte>)

  /** An inclusive interval of addresses. */
  datatype Interval = Interval(first: Addr, last: Addr)

  ghost predicate InRanges(rs: seq<Range>, a: Addr) { exists i :: 0 <= i < |rs| && InRange(rs[i], a) }
  predicate RangesSized(rs: seq<Range>) { forall i :: 0 <= i < |rs| ==> rs[i].size == 0 || rs[i].size - 1 <= TOP - rs[i].address }

  predicate InInterval(v: Interval, a: Addr) { v.first <= a <= v.last }
  ghost predicate InIntervals(vs: seq<Interval>, a: Addr) { exists i :: 0 <= i < |vs| && InInterval(vs[i], a) }
  predicate Proper(vs: seq<Interval>) { forall i :: 0 <= i < |vs| ==> vs[i].first <= vs[i].last }

  // ----------------------------------------------------------- who gets what

  /** Data outside allocations; only such patches are handed over. */
  predicate IsData(p: Saved) { !p.verify && p.lease.NoLease? && p.bytes != [] }

  ghost predicate DataCovers(log: seq<Saved>, a: Addr)
  {
    exists i :: 0 <= i < |log| && IsData(log[i]) && Covers(log[i], a)
  }

  /** The oldest of the newer scripts that wrote `a`, or |newer|. */
  ghost function FirstHolder(newer: seq<LivePatch>, a: Addr): (k: nat)
    ensures k <= |newer|
    ensures k < |newer| ==> InRanges(newer[k].ranges, a)
    ensures forall j :: 0 <= j < k ==> !InRanges(newer[j].ranges, a)
  {
    if newer == [] then 0
    else
      var k := FirstHolder(newer[..|newer| - 1], a);
      assert forall j :: 0 <= j < |newer| - 1 ==> newer[..|newer| - 1][j] == newer[j];
      if k < |newer| - 1 then k
      else if InRanges(newer[|newer| - 1].ranges, a) then |newer| - 1 else |newer|
  }

  /** The byte at `a` passes to a newer script. */
  ghost predicate Passes(log: seq<Saved>, newer: seq<LivePatch>, a: Addr)
  {
    DataCovers(log, a) && FirstHolder(newer, a) < |newer|
  }

  ghost predicate HandoverCovers(h: Handover, a: Addr) { h.address <= a < h.address + |h.bytes| }

  /** `h` takes bytes that pass to its receiver, with the values the script would restore. */
  ghost predicate Rightful(log: seq<Saved>, newer: seq<LivePatch>, h: Handover)
  {
    && h.bytes != [] && |h.bytes| - 1 <= TOP - h.address
    && forall a: Addr :: HandoverCovers(h, a) ==>
         && Passes(log, newer, a) && h.to == newer[FirstHolder(newer, a)].owner
         && Original(log, a) == Some(h.bytes[a - h.address])
  }

  ghost predicate SomeHandover(hs: seq<Handover>, a: Addr) { exists i :: 0 <= i < |hs| && HandoverCovers(hs[i], a) }

  // ------------------------------------------------------------- the loops

  /** Split the open intervals by one range: what it takes, and what stays open. */
  method SplitOpen(open: seq<Interval>, address: Addr, size: nat) returns (taken: seq<Interval>, rest: seq<Interval>)
    requires Proper(open) && 0 < size && size - 1 <= TOP - address
    ensures Proper(taken) && Proper(rest)
    ensures forall a: Addr :: InIntervals(taken, a) <==> InIntervals(open, a) && address <= a < address + size
    ensures forall a: Addr :: InIntervals(rest, a) <==> InIntervals(open, a) && !(address <= a < address + size)
  {
    taken, rest := [], [];
    for i := 0 to |open|
      invariant Proper(taken) && Proper(rest)
      invariant forall a: Addr :: InIntervals(taken, a) <==> InIntervals(open[..i], a) && address <= a < address + size
      invariant forall a: Addr :: InIntervals(rest, a) <==> InIntervals(open[..i], a) && !(address <= a < address + size)
    {
      var v := open[i];
      Extend(open[..i], v);
      assert open[..i + 1] == open[..i] + [v];
      var lo, hi := Max(v.first, address), Min(v.last, address + (size - 1));
      if lo > hi {
        Extend(rest, v);
        rest := rest + [v];
      } else {
        Extend(taken, Interval(lo, hi));
        taken := taken + [Interval(lo, hi)];
        if v.first < lo {
          Extend(rest, Interval(v.first, lo - 1));
          rest := rest + [Interval(v.first, lo - 1)];
        }
        if hi < v.last {
          Extend(rest, Interval(hi + 1, v.last));
          rest := rest + [Interval(hi + 1, v.last)];
        }
      }
    }
    assert open[..|open|] == open;
  }

  lemma {:induction false} Extend(vs: seq<Interval>, v: Interval)
    ensures forall a: Addr :: InIntervals(vs + [v], a) <==> InIntervals(vs, a) || InInterval(v, a)
  {
    forall a: Addr ensures InIntervals(vs + [v], a) <==> InIntervals(vs, a) || InInterval(v, a) {
      if InIntervals(vs, a) {
        var i :| 0 <= i < |vs| && InInterval(vs[i], a);
        assert InInterval((vs + [v])[i], a);
      }
      if InInterval(v, a) { assert InInterval((vs + [v])[|vs|], a); }
    }
  }

  /** The bytes restored on an interval, wherever any are. */
  method OriginalAt(originals: seq<Saved>, first: Addr, last: Addr) returns (bytes: seq<Byte>)
    requires AllSized(originals) && first <= last
    ensures |bytes| == last - first + 1
    ensures forall i :: 0 <= i < |bytes| && Original(originals, first + i).Some? ==>
              Original(originals, first + i) == Some(bytes[i])
  {
    hide Original, Splice;
    forall a: Addr ensures Original([], a) == None { OriginalOfNone(a); }
    assert originals[|originals|..] == [];
    bytes := seq(last - first + 1, _ => 0);
    for k := |originals| downto 0
      invariant |bytes| == last - first + 1
      invariant forall i :: 0 <= i < |bytes| && Original(originals[k..], first + i).Some? ==>
                  Original(originals[k..], first + i) == Some(bytes[i])
    {
      var patch := originals[k];
      ghost var before := bytes;
      if patch.bytes != [] && !patch.lease.Released? {
        var lo := Max(first, patch.address);
        var hi := Min(last, patch.address + (|patch.bytes| - 1));
        if lo <= hi {
          bytes := Splice(bytes, lo - first, patch.bytes[lo - patch.address..hi - patch.address + 1]);
        }
      }
      assert originals[k..][1..] == originals[k + 1..];
      forall i | 0 <= i < |bytes| && Original(originals[k..], first + i).Some?
        ensures Original(originals[k..], first + i) == Some(bytes[i])
      {
        OriginalHead(originals[k..], first + i);
      }
    }
    assert originals[0..] == originals;
  }

  ghost predicate AllRightful(log: seq<Saved>, newer: seq<LivePatch>, hs: seq<Handover>)
  {
    forall i :: 0 <= i < |hs| ==> Rightful(log, newer, hs[i])
  }

  lemma {:induction false} ExtendHandovers(hs: seq<Handover>, more: seq<Handover>)
    ensures forall a: Addr :: SomeHandover(hs + more, a) <==> SomeHandover(hs, a) || SomeHandover(more, a)
  {
    forall a: Addr ensures SomeHandover(hs + more, a) <==> SomeHandover(hs, a) || SomeHandover(more, a) {
      if SomeHandover(hs, a) {
        var i :| 0 <= i < |hs| && HandoverCovers(hs[i], a);
        assert HandoverCovers((hs + more)[i], a);
      }
      if SomeHandover(more, a) {
        var i :| 0 <= i < |more| && HandoverCovers(more[i], a);
        assert HandoverCovers((hs + more)[|hs| + i], a);
      }
    }
  }

  /** One handover for each taken interval. */
  method Collect(originals: seq<Saved>, ghost newer: seq<LivePatch>, owner: Ownership, taken: seq<Interval>)
    returns (hs: seq<Handover>)
    requires AllSized(originals) && Proper(taken)
    requires forall a: Addr :: InIntervals(taken, a) ==>
               Passes(originals, newer, a) && newer[FirstHolder(newer, a)].owner == owner && Original(originals, a).Some?
    ensures AllRightful(originals, newer, hs)
    ensures forall a: Addr :: SomeHandover(hs, a) <==> InIntervals(taken, a)
  {
    hs := [];
    for i := 0 to |taken|
      invariant AllRightful(originals, newer, hs)
      invariant forall a: Addr :: SomeHandover(hs, a) <==> InIntervals(taken[..i], a)
    {
      var v := taken[i];
      var bytes := OriginalAt(originals, v.first, v.last);
      var h := Handover(owner, v.first, bytes);
      forall a: Addr | HandoverCovers(h, a)
        ensures Passes(originals, newer, a) && h.to == newer[FirstHolder(newer, a)].owner &&
                Original(originals, a) == Some(h.bytes[a - h.address])
      {
        assert InInterval(taken[i], a);
        assert v.first + (a - v.first) == a;
      }
      Extend(taken[..i], v);
      assert taken[..i + 1] == taken[..i] + [v];
      ExtendHandovers(hs, [h]);
      SingleHandover(h);
      hs := hs + [h];
    }
    assert taken[..|taken|] == taken;
  }

  lemma {:induction false} SingleHandover(h: Handover)
    ensures forall a: Addr :: SomeHandover([h], a) <==> HandoverCovers(h, a)
  {
    forall a: Addr | HandoverCovers(h, a) ensures SomeHandover([h], a) {
      assert HandoverCovers([h][0], a);
    }
  }

  /** `a` is in the patch but in none of the newer scripts seen so far. */
  ghost predicate StillOpen(p: Saved, newer: seq<LivePatch>, k: nat, m: nat, a: Addr)
    requires k <= |newer| && (k < |newer| ==> m <= |newer[k].ranges|)
  {
    && Covers(p, a)
    && (forall j :: 0 <= j < k ==> !InRanges(newer[j].ranges, a))
    && (k < |newer| ==> !InRanges(newer[k].ranges[..m], a))
  }

  /** Hand over one patch: each byte goes to the oldest newer script that wrote it. */
  method HandOverPatch(originals: seq<Saved>, i: nat, newer: seq<LivePatch>) returns (hs: seq<Handover>)
    requires AllSized(originals) && i < |originals| && IsData(originals[i])
    requires forall k :: 0 <= k < |newer| ==> RangesSized(newer[k].ranges)
    ensures AllRightful(originals, newer, hs)
    ensures forall a: Addr :: SomeHandover(hs, a) <==> Covers(originals[i], a) && FirstHolder(newer, a) < |newer|
  {
    var p := originals[i];
    hs := [];
    var open := [Interval(p.address, p.address + (|p.bytes| - 1))];
    StartOpen(p, newer);
    for k := 0 to |newer|
      invariant Proper(open) && AllRightful(originals, newer, hs)
      invariant forall a: Addr :: InIntervals(open, a) <==> StillOpen(p, newer, k, 0, a)
      invariant forall a: Addr :: SomeHandover(hs, a) <==> Covers(p, a) && !InIntervals(open, a)
    {
      for m := 0 to |newer[k].ranges|
        invariant Proper(open) && AllRightful(originals, newer, hs)
        invariant forall a: Addr :: InIntervals(open, a) <==> StillOpen(p, newer, k, m, a)
        invariant forall a: Addr :: SomeHandover(hs, a) <==> Covers(p, a) && !InIntervals(open, a)
      {
        var r := newer[k].ranges[m];
        NextRange(p, newer, k, m);
        if r.size == 0 { continue; }
        var taken, rest := SplitOpen(open, r.address, r.size);
        forall a: Addr | InIntervals(taken, a)
          ensures Passes(originals, newer, a) && newer[FirstHolder(newer, a)].owner == newer[k].owner && Original(originals, a).Some?
        {
          assert StillOpen(p, newer, k, m, a) && InRange(newer[k].ranges[m], a);
          HeldHere(originals, i, newer, k, m, a);
        }
        var more := Collect(originals, newer, newer[k].owner, taken);
        ExtendHandovers(hs, more);
        hs := hs + more;
        open := rest;
      }
      NextScript(p, newer, k);
    }
  }

  lemma {:induction false} StartOpen(p: Saved, newer: seq<LivePatch>)
    requires IsData(p) && Sized(p)
    ensures forall a: Addr :: InIntervals([Interval(p.address, p.address + (|p.bytes| - 1))], a) <==> StillOpen(p, newer, 0, 0, a)
    ensures forall a: Addr :: !SomeHandover([], a)
  {
    var v := Interval(p.address, p.address + (|p.bytes| - 1));
    Extend([], v);
    assert [] + [v] == [v];
  }

  lemma {:induction false} NextRange(p: Saved, newer: seq<LivePatch>, k: nat, m: nat)
    requires k < |newer| && m < |newer[k].ranges|
    ensures forall a: Addr :: StillOpen(p, newer, k, m + 1, a) <==>
              StillOpen(p, newer, k, m, a) && !InRange(newer[k].ranges[m], a)
  {
    var rs := newer[k].ranges;
    forall a: Addr ensures InRanges(rs[..m + 1], a) <==> InRanges(rs[..m], a) || InRange(rs[m], a) {
      if InRanges(rs[..m], a) {
        var i :| 0 <= i < m && InRange(rs[..m][i], a);
        assert InRange(rs[..m + 1][i], a);
      }
      if InRange(rs[m], a) { assert InRange(rs[..m + 1][m], a); }
    }
  }

  lemma {:induction false} NextScript(p: Saved, newer: seq<LivePatch>, k: nat)
    requires k < |newer|
    ensures forall a: Addr :: StillOpen(p, newer, k + 1, 0, a) <==> StillOpen(p, newer, k, |newer[k].ranges|, a)
  {
    assert newer[k].ranges[..|newer[k].ranges|] == newer[k].ranges;
  }

  lemma {:induction false} HeldHere(originals: seq<Saved>, i: nat, newer: seq<LivePatch>, k: nat, m: nat, a: Addr)
    requires i < |originals| && IsData(originals[i]) && k < |newer| && m < |newer[k].ranges|
    requires StillOpen(originals[i], newer, k, m, a) && InRange(newer[k].ranges[m], a)
    ensures Passes(originals, newer, a) && FirstHolder(newer, a) == k && Original(originals, a).Some?
  {
    assert InRanges(newer[k].ranges, a);
    assert Hits(originals[i], a);
    OriginalIsSome(originals, a);
  }

  /** The handovers of a script with these saved originals, and the originals it keeps. */
  method PlanHandovers(originals: seq<Saved>, newer: seq<LivePatch>) returns (handovers: seq<Handover>, kept: seq<Saved>)
    requires AllSized(originals)
    requires forall k :: 0 <= k < |newer| ==> RangesSized(newer[k].ranges)
    ensures AllRightful(originals, newer, handovers)
    ensures forall a: Addr :: SomeHandover(handovers, a) <==> Passes(originals, newer, a)
    ensures AllSized(kept)
    ensures forall a: Addr :: Original(kept, a) == if Passes(originals, newer, a) then None else Original(originals, a)
    ensures forall a: Addr, v: Byte :: SavedAt(kept, a, v) ==> SavedAt(originals, a, v)
  {
    hide SavedAt;
    hide DataCovers, SomeHandover, FirstHolder, Rightful, Original, HandoverCovers, Dropped, RangesSized;
    NothingYet();
    handovers := [];
    for i := 0 to |originals|
      invariant AllRightful(originals, newer, handovers)
      invariant forall a: Addr :: SomeHandover(handovers, a) <==> DataCovers(originals[..i], a) && FirstHolder(newer, a) < |newer|
    {
      var patch := originals[i];
      NextPatch(originals, i);
      if patch.verify || !patch.lease.NoLease? || patch.bytes == [] { continue; }
      var more := HandOverPatch(originals, i, newer);
      ExtendHandovers(handovers, more);
      handovers := handovers + more;
    }
    assert originals[..|originals|] == originals;
    kept := originals;
    for i := 0 to |handovers|
      invariant AllSized(kept)
      invariant forall a: Addr :: Original(kept, a) == if SomeHandover(handovers[..i], a) then None else Original(originals, a)
      invariant forall a: Addr, v: Byte :: SavedAt(kept, a, v) ==> SavedAt(originals, a, v)
    {
      var h := handovers[i];
      RightfulFits(originals, newer, h);
      var first, last := h.address, h.address + (|h.bytes| - 1);
      ghost var before := kept;
      kept := DropRange(kept, first, last);
      SingleHandover(h);
      ExtendHandovers(handovers[..i], [h]);
      assert handovers[..i + 1] == handovers[..i] + [h];
      forall a: Addr
        ensures Original(kept, a) == if SomeHandover(handovers[..i + 1], a) then None else Original(originals, a)
      {
        DroppedOriginal(before, first, last, a);
      }
      DroppedOriginal(before, first, last, first);
      forall a: Addr, v: Byte | SavedAt(kept, a, v) ensures SavedAt(originals, a, v) { DroppedSaved(before, first, last, a, v); }
    }
    assert handovers[..|handovers|] == handovers;
  }

  lemma {:induction false} NothingYet()
    ensures forall a: Addr :: !SomeHandover([], a) && !DataCovers([], a)
  {
  }

  lemma {:induction false} RightfulFits(originals: seq<Saved>, newer: seq<LivePatch>, h: Handover)
    requires Rightful(originals, newer, h)
    ensures h.bytes != [] && h.address + |h.bytes| - 1 <= TOP
    ensures forall a: Addr :: HandoverCovers(h, a) <==> h.address <= a <= h.address + |h.bytes| - 1
  {
  }

  lemma {:induction false} NextPatch(originals: seq<Saved>, i: nat)
    requires i < |originals|
    ensures forall a: Addr :: DataCovers(originals[..i + 1], a) <==>
              DataCovers(originals[..i], a) || (IsData(originals[i]) && Covers(originals[i], a))
  {
    var log, next := originals[..i], originals[..i + 1];
    forall a: Addr
      ensures DataCovers(next, a) <==> DataCovers(log, a) || (IsData(originals[i]) && Covers(originals[i], a))
    {
      if DataCovers(log, a) {
        var j :| 0 <= j < |log| && IsData(log[j]) && Covers(log[j], a);
        assert IsData(next[j]) && Covers(next[j], a);
      }
      if IsData(originals[i]) && Covers(originals[i], a) { assert IsData(next[i]) && Covers(next[i], a); }
    }
  }

  /** A byte passes exactly when data outside allocations was saved there and some newer script wrote
      it; it goes to the oldest such script. */
  lemma {:induction false} PassesMeans(log: seq<Saved>, newer: seq<LivePatch>, a: Addr)
    ensures Passes(log, newer, a) <==>
            && (exists i :: 0 <= i < |log| && !log[i].verify && log[i].lease == NoLease && log[i].address <= a < log[i].address + |log[i].bytes|)
            && (exists k :: 0 <= k < |newer| && InRanges(newer[k].ranges, a))
    ensures forall k :: 0 <= k < |newer| && InRanges(newer[k].ranges, a) && (forall j :: 0 <= j < k ==> !InRanges(newer[j].ranges, a)) ==>
              FirstHolder(newer, a) == k
  {
    if i :| 0 <= i < |log| && !log[i].verify && log[i].lease == NoLease && log[i].address <= a < log[i].address + |log[i].bytes| {
      assert IsData(log[i]) && Covers(log[i], a);
    }
  }
}
