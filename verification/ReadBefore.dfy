/**
  core/autoasm.cpp: for which patches of a run `readBeforeScript` can be trusted, whatever the
  patches write and whatever they find.
 */
module ReadBefore {
  import opened Memory
  import opened UndoLog
  import opened Handovers
  import opened Processes
  import opened Restore
  import opened Activations

  /** The read shows what the run found in every run that patched these ranges in this order. */
  ghost predicate RightInEveryRun(ranges: seq<Range>, address: Addr, size: nat)
  {
    forall before: Mem, m: Mem, log: seq<Saved> ::
      RunLog(before, m, log) && Landed(m, log) && RangesOf(log) == ranges && Mapped(m, address, size)
      ==> ShownAsFound(before, m, log, address, size)
  }

  predicate IsAddress(a: int) { 0 <= a <= TOP }

  /** A memory that is mapped everywhere. */
  function Everywhere(v: Byte): (m: Mem)
    ensures forall a: Addr :: a in m && m[a] == v
  {
    map a: Addr | 0 <= a <= TOP && IsAddress(a) :: v
  }

  function Patched(m: Mem, r: Range): (m': Mem)
    ensures m'.Keys == m.Keys
    ensures forall a: Addr :: a in m ==> m'[a] == if InRange(r, a) then 2 else m[a]
  {
    map a: Addr | a in m :: if InRange(r, a) then 2 else m[a]
  }

  /** A run over a memory of ones whose patches write twos: a patch finds a two exactly where an
      earlier one lies. */
  ghost predicate OnesToTwos(ranges: seq<Range>, m: Mem, log: seq<Saved>)
  {
    && (forall a: Addr :: a in m)
    && RunLog(Everywhere(1), m, log) && Landed(m, log) && RangesOf(log) == ranges
    && (forall a: Addr :: m[a] == if InRanges(ranges, a) then 2 else 1)
    && forall i, a: Addr :: 0 <= i < |log| && Covers(log[i], a) ==>
      log[i].bytes[a - log[i].address] == if InRanges(ranges[..i], a) then 2 else 1
  }

  lemma {:induction false} RunExists(ranges: seq<Range>) returns (m: Mem, log: seq<Saved>)
    requires RangesSized(ranges)
    ensures OnesToTwos(ranges, m, log)
  {
    if ranges == [] {
      m, log := Everywhere(1), [];
      assert forall a: Addr :: !InRanges(ranges, a);
    } else {
      var n := |ranges| - 1;
      var m0, log0 := RunExists(ranges[..n]);
      var p := Twos(m0, ranges[n]);
      m, log := Patched(m0, ranges[n]), log0 + [p];
      NextRun(ranges, m0, log0, p);
    }
  }

  /** The record of a patch of twos. */
  lemma {:induction false} Twos(m: Mem, r: Range) returns (p: Saved)
    requires r.size == 0 || r.size - 1 <= TOP - r.address
    requires forall a: Addr :: a in m
    ensures Found(m, p) && Range(p.address, |p.bytes|) == r && forall i :: 0 <= i < r.size ==> p.written[i] == 2
  {
    var found := seq(r.size, i requires 0 <= i < r.size && r.address + r.size - 1 <= TOP => m[r.address + i]);
    p := Saved(r.address, found, seq(r.size, i => 2), true, NoLease, true);
  }

  lemma {:induction false} NextRun(ranges: seq<Range>, m: Mem, log: seq<Saved>, p: Saved)
    requires ranges != [] && OnesToTwos(ranges[..|ranges| - 1], m, log) && Found(m, p)
    requires Range(p.address, |p.bytes|) == ranges[|ranges| - 1]
    requires forall i :: 0 <= i < |p.bytes| ==> p.written[i] == 2
    ensures OnesToTwos(ranges, Patched(m, ranges[|ranges| - 1]), log + [p])
  {
    hide RunLog, Landed, Patched, InRanges, InRange, RangesOf;
    var r := ranges[|ranges| - 1];
    OnesStay(m, log, p, r);
    OneRangeMore(ranges);
    MoreRanges(ranges, log, p);
    LaterBytes(ranges, m, log, p);
  }

  lemma {:induction false} MoreRanges(ranges: seq<Range>, log0: seq<Saved>, p: Saved)
    requires ranges != [] && RangesOf(log0) == ranges[..|ranges| - 1]
    requires ranges[|ranges| - 1] == Range(p.address, |p.bytes|)
    ensures RangesOf(log0 + [p]) == ranges
  {
  }

  lemma {:induction false} OneRangeMore(ranges: seq<Range>)
    requires ranges != []
    ensures forall a: Addr :: InRanges(ranges, a) <==> InRanges(ranges[..|ranges| - 1], a) || InRange(ranges[|ranges| - 1], a)
  {
    var n := |ranges| - 1;
    forall a: Addr ensures InRanges(ranges, a) <==> InRanges(ranges[..n], a) || InRange(ranges[n], a) {
      if InRanges(ranges[..n], a) {
        var i :| 0 <= i < n && InRange(ranges[..n][i], a);
        assert InRange(ranges[i], a);
      }
      if i :| 0 <= i < |ranges| && InRange(ranges[i], a) {
        if i < n { assert InRange(ranges[..n][i], a); }
      }
    }
  }

  lemma {:induction false} OnesStay(m0: Mem, log0: seq<Saved>, p: Saved, r: Range)
    requires RunLog(Everywhere(1), m0, log0) && Landed(m0, log0) && Found(m0, p)
    requires p.address == r.address && |p.written| == r.size && forall i :: 0 <= i < r.size ==> p.written[i] == 2
    ensures RunLog(Everywhere(1), Patched(m0, r), log0 + [p]) && Landed(Patched(m0, r), log0 + [p])
  {
    hide Patched;
    var m := Patched(m0, r);
    assert Mapped(m0, p.address, |p.written|);
    assert FullyWritten(m0, m, p.address, p.written);
    hide RunLog, Landed;
    assert PartlyWritten(m0, m, p.address, p.written);
    WriteKeepsLog(Everywhere(1), m0, m, log0, p);
    WriteKeepsLanded(Everywhere(1), m0, m, log0, p);
  }

  lemma {:induction false} LaterBytes(ranges: seq<Range>, m0: Mem, log0: seq<Saved>, p: Saved)
    requires ranges != [] && OnesToTwos(ranges[..|ranges| - 1], m0, log0)
    requires |p.bytes| == ranges[|ranges| - 1].size && p.address == ranges[|ranges| - 1].address
    requires forall a: Addr :: Covers(p, a) ==> a in m0 && p.bytes[a - p.address] == m0[a]
    ensures forall i, a: Addr :: 0 <= i < |log0 + [p]| && Covers((log0 + [p])[i], a) ==>
      (log0 + [p])[i].bytes[a - (log0 + [p])[i].address] == if InRanges(ranges[..i], a) then 2 else 1
  {
    hide RunLog, Landed, InRanges;
    var n, log := |ranges| - 1, log0 + [p];
    assert |log0| == n;
    forall i, a: Addr | 0 <= i < |log| && Covers(log[i], a)
      ensures log[i].bytes[a - log[i].address] == if InRanges(ranges[..i], a) then 2 else 1
    {
      if i < n { assert log[i] == log0[i] && ranges[..n][..i] == ranges[..i]; }
    }
  }

  lemma {:induction false} FirstAtTop(ranges: seq<Range>, a: Addr) returns (j: nat)
    requires FirstEndsAtTop(ranges, a)
    ensures j < |ranges| && InRange(ranges[j], a) && EndsAtTop(ranges[j].address, ranges[j].size)
    ensures forall i :: 0 <= i < j ==> !InRange(ranges[i], a)
  {
    if InRange(ranges[0], a) {
      j := 0;
    } else {
      var k := FirstAtTop(ranges[1..], a);
      j := k + 1;
      forall i | 0 <= i < j ensures !InRange(ranges[i], a) {
        if i > 0 { assert ranges[1..][i - 1] == ranges[i]; }
      }
    }
  }

  /** Where the original below the top comes from. */
  lemma {:induction false} OriginalBelowTop(log: seq<Saved>, a: Addr) returns (i: nat)
    requires Original(BelowTop(log), a).Some?
    ensures i < |log| && Hits(log[i], a) && !EndsAtTop(log[i].address, |log[i].bytes|)
    ensures Original(BelowTop(log), a) == Some(log[i].bytes[a - log[i].address])
  {
    if log == [] {
      assert false;
    } else {
      var rest := log[1..];
      var top := EndsAtTop(log[0].address, |log[0].bytes|);
      if top {
        assert BelowTop(log) == BelowTop(rest) by { assert [] + BelowTop(rest) == BelowTop(rest); }
      } else {
        assert BelowTop(log)[1..] == BelowTop(rest);
        OriginalHead(BelowTop(log), a);
      }
      if !top && Hits(log[0], a) {
        i := 0;
      } else {
        var k := OriginalBelowTop(rest, a);
        i := k + 1;
      }
    }
  }

  /** An exposed byte is shown as a two, though the run found a one. */
  lemma {:induction false} ExposedIsWrong(ranges: seq<Range>, m: Mem, log: seq<Saved>, address: Addr, size: nat, a: Addr)
    requires OnesToTwos(ranges, m, log) && size - 1 <= TOP - address && Within(address, size, a)
    requires Exposed(ranges, address, size, a)
    ensures AllSized(log) && Seen(m, log, address, size, a) == 2
  {
    SeenExactly(m, log, address, size, a);
    assert InRanges(ranges, a);
    if !EndsAtTop(address, size) && Original(BelowTop(log), a).Some? {
      var j := FirstAtTop(ranges, a);
      var i := OriginalBelowTop(log, a);
      assert ranges[i] == Range(log[i].address, |log[i].bytes|) && ranges[j] == Range(log[j].address, |log[j].bytes|);
      assert InRange(ranges[i], a) && i != j;
      assert InRange(ranges[..i][j], a);
    }
  }

  /** The read is right in every run with these patches exactly when no byte of it is exposed: the
      script did not write it, or the read does not end at the top of the address space and neither
      does the script's earliest patch over that byte. */
  lemma {:induction false} RightExactlyWhenHidden(ranges: seq<Range>, address: Addr, size: nat)
    requires RangesSized(ranges) && size > 0 && size - 1 <= TOP - address
    ensures RightInEveryRun(ranges, address, size) <==>
      forall a: Addr :: Within(address, size, a) ==> !Exposed(ranges, address, size, a)
  {
    hide Exposed, Seen, ByteLogged, Landed, Leftover;
    if a: Addr :| Within(address, size, a) && Exposed(ranges, address, size, a) {
      var m, log := RunExists(ranges);
      ExposedIsWrong(ranges, m, log, address, size, a);
      assert a in m && Everywhere(1)[a] == 1;
      assert Mapped(m, address, size) && !ShownAsFound(Everywhere(1), m, log, address, size);
    } else {
      forall before: Mem, m: Mem, log: seq<Saved> |
        RunLog(before, m, log) && Landed(m, log) && RangesOf(log) == ranges && Mapped(m, address, size)
        ensures ShownAsFound(before, m, log, address, size)
      {
        ReadBeforeExact(before, m, log, address, size);
      }
    }
  }

  /** A read of the topmost byte shows the script its own write there. */
  lemma {:induction false} TopByteIsSeenPatched()
    ensures !RightInEveryRun([Range(TOP, 1)], TOP, 1)
    ensures var before: Mem, m: Mem := map[TOP := 1], map[TOP := 2];
            var log := [Saved(TOP, [1], [2], true, NoLease, true)];
            RunLog(before, m, log) && Landed(m, log) && Seen(m, log, TOP, 1, TOP) == 2
  {
    var before: Mem, m: Mem := map[TOP := 1], map[TOP := 2];
    OneExposed(before, m, Saved(TOP, [1], [2], true, NoLease, true), TOP, 1, TOP);
  }

  /** So does a read that ends below the top, of a byte whose patch goes on to the top. */
  lemma {:induction false} PatchToTheTopIsSeen()
    ensures !RightInEveryRun([Range(TOP - 1, 2)], TOP - 1, 1)
    ensures var before: Mem, m: Mem := map[TOP - 1 := 1, TOP := 1], map[TOP - 1 := 2, TOP := 2];
            var log := [Saved(TOP - 1, [1, 1], [2, 2], true, NoLease, true)];
            RunLog(before, m, log) && Landed(m, log) && Seen(m, log, TOP - 1, 1, TOP - 1) == 2
  {
    var before: Mem, m: Mem := map[TOP - 1 := 1, TOP := 1], map[TOP - 1 := 2, TOP := 2];
    OneExposed(before, m, Saved(TOP - 1, [1, 1], [2, 2], true, NoLease, true), TOP - 1, 1, TOP - 1);
  }

  /** A single patch of which a byte is exposed. */
  lemma {:induction false} OneExposed(before: Mem, m: Mem, p: Saved, address: Addr, size: nat, a: Addr)
    requires Found(before, p) && FullyWritten(before, m, p.address, p.written)
    requires size - 1 <= TOP - address && Within(address, size, a) && Covers(p, a) && a in m
    requires EndsAtTop(address, size) || EndsAtTop(p.address, |p.bytes|)
    ensures RunLog(before, m, [p]) && Landed(m, [p]) && Seen(m, [p], address, size, a) == m[a]
    ensures !RightInEveryRun([Range(p.address, |p.bytes|)], address, size)
  {
    hide FullyWritten, RunLog, Landed, Seen, RightInEveryRun;
    OnePatch(before, m, p);
    var ranges := [Range(p.address, |p.bytes|)];
    assert InRange(ranges[0], a);
    assert Exposed(ranges, address, size, a);
    RightExactlyWhenHidden(ranges, address, size);
    OneLeft(m, p, address, size, a);
  }

  lemma {:induction false} OneLeft(m: Mem, p: Saved, address: Addr, size: nat, a: Addr)
    requires Sized(p) && |p.written| == |p.bytes| && !p.lease.Released?
    requires size - 1 <= TOP - address && Within(address, size, a) && a in m
    requires EndsAtTop(address, size) || EndsAtTop(p.address, |p.bytes|)
    ensures Seen(m, [p], address, size, a) == m[a]
  {
    hide Seen, EndsAtTop;
    SeenExactly(m, [p], address, size, a);
    assert BelowTop([p][1..]) == [];
  }

  lemma {:induction false} OnePatch(before: Mem, m: Mem, p: Saved)
    requires Found(before, p) && FullyWritten(before, m, p.address, p.written)
    ensures RunLog(before, m, [p]) && Landed(m, [p])
  {
    assert RunLog(before, before, []);
    assert Landed(before, []);
    assert [] + [p] == [p];
    WriteKeepsLog(before, before, m, [], p);
    WriteKeepsLanded(before, before, m, [], p);
  }
}
