/** core/autoasm.cpp: the writes of one run of a script, and how they are saved for undo. */
module Activations {
  import opened Memory
  import opened UndoLog
  import opened Processes
  import opened Restore

  predicate SavedWhole(log: seq<Saved>)
  {
    forall i :: 0 <= i < |log| ==> !log[i].lease.Released? && |log[i].written| == |log[i].bytes|
  }

  /** The log of a run that began with memory `before` and has memory `m` now: wherever it
      covers a byte, it restores the byte the run found, and the byte now is one of the states
      the run saved or wrote; everywhere else memory is untouched. */
  ghost predicate RunLog(before: Mem, m: Mem, log: seq<Saved>)
  {
    && AllSized(log) && SavedWhole(log) && AllMapped(m, log) && m.Keys == before.Keys
    && forall a: Addr :: a in m ==> ByteLogged(before, m, log, a)
  }

  ghost predicate ByteLogged(before: Mem, m: Mem, log: seq<Saved>, a: Addr)
    requires a in m && a in before
  {
    if Original(log, a).Some? then Original(log, a) == Some(before[a]) && Accepted(log, a, m[a]) else m[a] == before[a]
  }

  /** Every write so far landed completely. */
  ghost predicate Landed(m: Mem, log: seq<Saved>)
  {
    forall a: Addr :: a in m && Original(log, a).Some? ==> Written(log, a) == Some(m[a])
  }

  /** `m'` is `m` after a write of `bytes` at `address`, some of which may not have landed. */
  ghost predicate PartlyWritten(m: Mem, m': Mem, address: Addr, bytes: seq<Byte>)
  {
    && m'.Keys == m.Keys
    && forall a: Addr :: a in m ==> m'[a] == m[a] || (Within(address, |bytes|, a) && m'[a] == bytes[a - address])
  }

  ghost predicate FullyWritten(m: Mem, m': Mem, address: Addr, bytes: seq<Byte>)
  {
    && m'.Keys == m.Keys && Mapped(m, address, |bytes|)
    && forall a: Addr :: a in m ==> m'[a] == if Within(address, |bytes|, a) then bytes[a - address] else m[a]
  }

  /** Logging the bytes found at a range. */
  ghost predicate Found(m: Mem, p: Saved)
  {
    && Sized(p) && !p.lease.Released? && |p.written| == |p.bytes|
    && forall a: Addr :: Covers(p, a) ==> a in m && p.bytes[a - p.address] == m[a]
  }

  lemma {:induction false} MappedFits(m: Mem, address: Addr, size: nat)
    ensures Mapped(m, address, size) ==> address + size - 1 <= TOP
  {
  }

  lemma {:induction false} FoundAs(m: Mem, p: Saved)
    requires Sized(p) && !p.lease.Released? && |p.written| == |p.bytes| && Mapped(m, p.address, |p.bytes|)
    requires forall a: Addr :: Within(p.address, |p.bytes|, a) ==> p.bytes[a - p.address] == m[a]
    ensures Found(m, p)
  {
    assert forall a: Addr :: Covers(p, a) ==> Within(p.address, |p.bytes|, a);
  }

  lemma {:induction false} WriteDid(m: Mem, m': Mem, address: Addr, bytes: seq<Byte>, ok: bool)
    requires m'.Keys == m.Keys
    requires forall a: Addr :: a in m' ==> m'[a] == m[a] || (Within(address, |bytes|, a) && m'[a] == bytes[a - address])
    requires ok ==> Mapped(m', address, |bytes|) && forall a: Addr :: Within(address, |bytes|, a) ==> m'[a] == bytes[a - address]
    ensures PartlyWritten(m, m', address, bytes) && (ok ==> FullyWritten(m, m', address, bytes))
  {
  }

  lemma {:induction false} WroteTwice(m: Mem, first: Mem, m': Mem, address: Addr, bytes: seq<Byte>)
    requires PartlyWritten(m, first, address, bytes) && PartlyWritten(first, m', address, bytes)
    ensures PartlyWritten(m, m', address, bytes)
    ensures FullyWritten(first, m', address, bytes) ==> FullyWritten(m, m', address, bytes)
  {
  }

  lemma {:induction false} OthersKept(m: Mem, m': Mem, address: Addr, bytes: seq<Byte>)
    requires PartlyWritten(m, m', address, bytes)
    ensures forall a: Addr :: a in m' && !Within(address, |bytes|, a) ==> a in m && m'[a] == m[a]
  {
  }

  lemma {:induction false} AcceptedGrows(log: seq<Saved>, p: Saved, a: Addr, v: Byte)
    ensures Accepted(log + [p], a, v) <==> Accepted(log, a, v) || AcceptedBy(p, a, v)
  {
    if Accepted(log, a, v) {
      var j :| 0 <= j < |log| && AcceptedBy(log[j], a, v);
      assert AcceptedBy((log + [p])[j], a, v);
    }
    if AcceptedBy(p, a, v) { assert AcceptedBy((log + [p])[|log|], a, v); }
  }

  lemma {:induction false} AppendOne(log: seq<Saved>, p: Saved, a: Addr)
    ensures Original(log + [p], a) == if Original(log, a).Some? then Original(log, a)
                                      else if Hits(p, a) then Some(p.bytes[a - p.address]) else None
    ensures Written(log + [p], a) == if Covers(p, a) && |p.written| == |p.bytes| then Some(p.written[a - p.address]) else Written(log, a)
  {
    assert (log + [p])[..|log|] == log;
  }

  /** A logged write, landed or not, keeps the log true of the run. */
  lemma {:induction false} WriteKeepsLog(before: Mem, m: Mem, m': Mem, log: seq<Saved>, p: Saved)
    requires RunLog(before, m, log) && Found(m, p) && PartlyWritten(m, m', p.address, p.written)
    ensures RunLog(before, m', log + [p])
  {
    hide Original, Written;
    var log' := log + [p];
    forall i | 0 <= i < |log'| ensures Sized(log'[i]) && !log'[i].lease.Released? && |log'[i].written| == |log'[i].bytes| {
      if i < |log| { assert log'[i] == log[i]; }
    }
    forall a: Addr ensures Original(log', a).Some? ==> a in m' {
      AppendOne(log, p, a);
    }
    forall a: Addr | a in m' ensures ByteLogged(before, m', log', a) {
      AppendOne(log, p, a);
      assert ByteLogged(before, m, log, a);
      AcceptedGrows(log, p, a, m[a]);
      AcceptedGrows(log, p, a, m'[a]);
    }
  }

  lemma {:induction false} WriteKeepsLanded(before: Mem, m: Mem, m': Mem, log: seq<Saved>, p: Saved)
    requires RunLog(before, m, log) && Landed(m, log) && Found(m, p) && FullyWritten(m, m', p.address, p.written)
    ensures Landed(m', log + [p])
  {
    hide Original, Written;
    forall a: Addr | a in m' && Original(log + [p], a).Some? ensures Written(log + [p], a) == Some(m'[a]) {
      AppendOne(log, p, a);
    }
  }

  /** The run's own state passes the ownership check, even after a partly landed write. */
  lemma {:induction false} RunOwnsItsState(before: Mem, m: Mem, log: seq<Saved>)
    requires RunLog(before, m, log)
    ensures Owned(m, log)
  {
    forall i, a: Addr | 0 <= i < |log| && Checked(log[i]) && Covers(log[i], a) ensures a in m && Accepted(log, a, m[a]) {
      assert Hits(log[i], a);
      OriginalIsSome(log, a);
      assert ByteLogged(before, m, log, a);
    }
  }

  /** Undoing a run: memory that has every restored byte and differs from `m` nowhere else is
      what the run found. */
  lemma {:induction false} RollbackIsExact(before: Mem, m: Mem, m': Mem, log: seq<Saved>)
    requires RunLog(before, m, log) && m'.Keys == m.Keys && Restored(m', log)
    requires forall a: Addr :: a in m && m'[a] != m[a] ==> Original(log, a).Some?
    ensures m' == before
  {
    forall a | a in m' ensures m'[a] == before[a] {
      assert ByteLogged(before, m, log, a);
    }
  }

  // ----------------------------------------------------- what the script saw

  /** Address arithmetic of the target: 64 bits, wrapping. */
  function Wrapped(a: int): Addr { a % 0x1_0000_0000_0000_0000 }

  /** A range whose end, one past its last byte, wraps to zero. */
  predicate EndsAtTop(address: int, size: int) { address + size > TOP }

  /** `a` lies between the larger start and the smaller end, as they come out of the arithmetic. */
  predicate LaysOver(p: Saved, address: Addr, size: nat, a: Addr)
  {
    Max(address, p.address) <= a < Min(Wrapped(address + size), Wrapped(p.address + |p.bytes|))
  }

  /** What a script is shown at `a`: the first logged patch that lies over it, or the byte there now. */
  function Seen(m: Mem, log: seq<Saved>, address: Addr, size: nat, a: Addr): Byte
    requires AllSized(log) && a in m
  {
    if log == [] then m[a]
    else if LaysOver(log[0], address, size, a) && Covers(log[0], a) then log[0].bytes[a - log[0].address]
    else Seen(m, log[1..], address, size, a)
  }

  lemma {:induction false} WrappedEnd(address: Addr, size: nat)
    requires size > 0 ==> size - 1 <= TOP - address
    ensures Wrapped(address + size) == if EndsAtTop(address, size) then 0 else address + size
  {
  }

  /** The bounds of an overlay never leave either range. */
  lemma {:induction false} OverlayBounds(address: Addr, size: nat, p: Saved)
    requires Sized(p) && (size > 0 ==> size - 1 <= TOP - address)
    ensures var lo, hi := Max(address, p.address), Min(Wrapped(address + size), Wrapped(p.address + |p.bytes|));
            lo < hi ==> address <= lo && p.address <= lo && hi <= address + size && hi <= p.address + |p.bytes|
  {
    WrappedEnd(address, size);
    WrappedEnd(p.address, |p.bytes|);
    hide Wrapped;
  }

  /** One saved range laid over bytes read at `addr`. */
  method LayOver(read: seq<Byte>, addr: Addr, it: Saved) returns (out: seq<Byte>)
    requires Sized(it) && (read != [] ==> |read| - 1 <= TOP - addr)
    ensures |out| == |read|
    ensures forall a: Addr :: Within(addr, |read|, a) ==>
              out[a - addr] == if LaysOver(it, addr, |read|, a) && Covers(it, a) then it.bytes[a - it.address] else read[a - addr]
  {
    hide *;
    OverlayBounds(addr, |read|, it);
    out := read;
    var lo := Max(addr, it.address);
    var hi := Min(Wrapped(addr + |read|), Wrapped(it.address + |it.bytes|));
    if lo < hi {
      out := Splice(out, lo - addr, it.bytes[lo - it.address..hi - it.address]);
      SpliceIsOverlay(read, addr, it, lo, hi);
    } else {
      NoOverlay(addr, |read|, it);
    }
  }

  lemma {:induction false} SpliceIsOverlay(read: seq<Byte>, addr: Addr, it: Saved, lo: int, hi: int)
    requires lo == Max(addr, it.address) && hi == Min(Wrapped(addr + |read|), Wrapped(it.address + |it.bytes|))
    requires addr <= lo && it.address <= lo < hi <= addr + |read| && hi <= it.address + |it.bytes|
    ensures var out := Splice(read, lo - addr, it.bytes[lo - it.address..hi - it.address]);
            forall a: Addr :: Within(addr, |read|, a) ==>
              out[a - addr] == if LaysOver(it, addr, |read|, a) && Covers(it, a) then it.bytes[a - it.address] else read[a - addr]
  {
    hide Wrapped, Splice, Max, Min;
    var part := it.bytes[lo - it.address..hi - it.address];
    forall a: Addr | Within(addr, |read|, a)
      ensures Splice(read, lo - addr, part)[a - addr]
        == if LaysOver(it, addr, |read|, a) && Covers(it, a) then it.bytes[a - it.address] else read[a - addr]
    {
      if lo <= a < hi { assert part[a - lo] == it.bytes[a - it.address]; }
    }
  }

  lemma {:induction false} NoOverlay(addr: Addr, size: nat, it: Saved)
    requires Max(addr, it.address) >= Min(Wrapped(addr + size), Wrapped(it.address + |it.bytes|))
    ensures forall a: Addr :: !LaysOver(it, addr, size, a)
  {
    hide Wrapped, Max, Min;
  }

  /** The logged patches without those that end at the very top of the address space. */
  function BelowTop(log: seq<Saved>): (r: seq<Saved>)
    ensures AllSized(log) ==> AllSized(r)
  {
    if log == [] then []
    else (if EndsAtTop(log[0].address, |log[0].bytes|) then [] else [log[0]]) + BelowTop(log[1..])
  }

  /** What stands at `a` when the patches that end at the top are not taken back. */
  function Leftover(m: Mem, log: seq<Saved>, address: Addr, size: nat, a: Addr): Byte
    requires a in m
  {
    var o := Original(BelowTop(log), a);
    if EndsAtTop(address, size) || o.None? then m[a] else o.value
  }

  /** The byte shown, for every log and range: in a range that ends at the top the byte there now, in
      any other the earliest original among the patches that do not end at the top. */
  lemma {:induction false} SeenExactly(m: Mem, log: seq<Saved>, address: Addr, size: nat, a: Addr)
    requires AllSized(log) && SavedWhole(log) && a in m && size - 1 <= TOP - address && Within(address, size, a)
    ensures Seen(m, log, address, size, a) == Leftover(m, log, address, size, a)
  {
    hide Original, LaysOver, EndsAtTop;
    if log == [] {
      NoOriginal(a);
    } else {
      SeenExactly(m, log[1..], address, size, a);
      var p, rest := log[0], BelowTop(log[1..]);
      if Covers(p, a) { LaysOverBelowTop(p, address, size, a); }
      if EndsAtTop(p.address, |p.bytes|) {
        assert BelowTop(log) == rest by { assert [] + rest == rest; }
      } else {
        OriginalHead(BelowTop(log), a);
        assert BelowTop(log)[1..] == rest;
      }
    }
  }

  lemma {:induction false} NoOriginal(a: Addr)
    ensures Original([], a) == None
  {
  }

  /** Of the bytes that a patch covers in a range, all are laid over unless one of the two ends at the top. */
  lemma {:induction false} LaysOverBelowTop(p: Saved, address: Addr, size: nat, a: Addr)
    requires Sized(p) && size - 1 <= TOP - address && Within(address, size, a) && Covers(p, a)
    ensures LaysOver(p, address, size, a) <==> !EndsAtTop(address, size) && !EndsAtTop(p.address, |p.bytes|)
  {
    WrappedEnd(address, size);
    WrappedEnd(p.address, |p.bytes|);
    hide Wrapped;
  }

  /** The earliest patch over `a` ends at the top. */
  predicate FirstEndsAtTop(ranges: seq<Range>, a: Addr)
  {
    ranges != [] && if InRange(ranges[0], a) then EndsAtTop(ranges[0].address, ranges[0].size) else FirstEndsAtTop(ranges[1..], a)
  }

  /** The script wrote `a`, and nothing takes its earliest write there back. */
  predicate Exposed(ranges: seq<Range>, address: Addr, size: nat, a: Addr)
  {
    (exists i :: 0 <= i < |ranges| && InRange(ranges[i], a)) && (EndsAtTop(address, size) || FirstEndsAtTop(ranges, a))
  }

  lemma {:induction false} FirstBelowTop(log: seq<Saved>, a: Addr)
    requires SavedWhole(log) && !FirstEndsAtTop(RangesOf(log), a)
    ensures Original(BelowTop(log), a) == Original(log, a)
  {
    if log != [] {
      var p, rest := log[0], log[1..];
      assert RangesOf(log)[1..] == RangesOf(rest);
      OriginalHead(log, a);
      if EndsAtTop(p.address, |p.bytes|) {
        assert BelowTop(log) == BelowTop(rest) by { assert [] + BelowTop(rest) == BelowTop(rest); }
      } else {
        assert BelowTop(log)[1..] == BelowTop(rest);
        OriginalHead(BelowTop(log), a);
      }
      if !Hits(p, a) { FirstBelowTop(rest, a); }
    }
  }

  lemma {:induction false} CoveredMeansLogged(log: seq<Saved>, a: Addr)
    requires SavedWhole(log)
    ensures Original(log, a).Some? <==> exists i :: 0 <= i < |RangesOf(log)| && InRange(RangesOf(log)[i], a)
  {
    OriginalIsSome(log, a);
    if i :| 0 <= i < |log| && Hits(log[i], a) { assert InRange(RangesOf(log)[i], a); }
    if i :| 0 <= i < |RangesOf(log)| && InRange(RangesOf(log)[i], a) { assert Hits(log[i], a); }
  }

  /** One byte of a run: hidden bytes are shown as the run found them. */
  lemma {:induction false} HiddenIsRight(before: Mem, m: Mem, log: seq<Saved>, address: Addr, size: nat, a: Addr)
    requires RunLog(before, m, log) && size - 1 <= TOP - address && Within(address, size, a) && a in m
    requires !Exposed(RangesOf(log), address, size, a)
    ensures Seen(m, log, address, size, a) == before[a]
  {
    hide Original, Seen, Accepted, BelowTop, FirstEndsAtTop;
    assert ByteLogged(before, m, log, a);
    SeenExactly(m, log, address, size, a);
    CoveredMeansLogged(log, a);
    if Original(log, a).Some? {
      FirstBelowTop(log, a);
    } else {
      NothingBelow(log, a);
    }
  }

  lemma {:induction false} NothingBelow(log: seq<Saved>, a: Addr)
    requires Original(log, a).None?
    ensures Original(BelowTop(log), a).None?
  {
    if log != [] {
      var rest := log[1..];
      OriginalHead(log, a);
      NothingBelow(rest, a);
      if EndsAtTop(log[0].address, |log[0].bytes|) {
        assert BelowTop(log) == BelowTop(rest) by { assert [] + BelowTop(rest) == BelowTop(rest); }
      } else {
        assert BelowTop(log)[1..] == BelowTop(rest);
        OriginalHead(BelowTop(log), a);
      }
    }
  }

  /** The script is shown what it found throughout a range, whatever it wrote before. */
  ghost predicate ShownAsFound(before: Mem, m: Mem, log: seq<Saved>, address: Addr, size: nat)
    requires AllSized(log) && Mapped(m, address, size) && m.Keys == before.Keys
  {
    forall a: Addr :: Within(address, size, a) ==> Seen(m, log, address, size, a) == before[a]
  }

  /** `readBeforeScript` shows a script what it found, its own writes hidden, exactly when at each
      exposed byte what is left standing there happens to be what the run found. */
  lemma {:induction false} ReadBeforeExact(before: Mem, m: Mem, log: seq<Saved>, address: Addr, size: nat)
    requires RunLog(before, m, log) && size > 0 && Mapped(m, address, size)
    ensures ShownAsFound(before, m, log, address, size) <==>
      forall a: Addr :: Within(address, size, a) && Exposed(RangesOf(log), address, size, a) ==>
        Leftover(m, log, address, size, a) == before[a]
  {
    hide Seen, Leftover, Exposed, ByteLogged;
    forall a: Addr | Within(address, size, a)
      ensures Seen(m, log, address, size, a) == Leftover(m, log, address, size, a)
      ensures !Exposed(RangesOf(log), address, size, a) ==> Seen(m, log, address, size, a) == before[a]
    {
      SeenExactly(m, log, address, size, a);
      if !Exposed(RangesOf(log), address, size, a) { HiddenIsRight(before, m, log, address, size, a); }
    }
  }

  /** So a script sees what it found whenever neither the range nor a patch of its own in the range
      ends at the top of the address space. */
  lemma {:induction false} ReadBelowTop(before: Mem, m: Mem, log: seq<Saved>, address: Addr, size: nat)
    requires RunLog(before, m, log) && size > 0 && Mapped(m, address, size) && !EndsAtTop(address, size)
    requires forall i, a: Addr :: 0 <= i < |log| && Within(address, size, a) && Covers(log[i], a) ==>
      !EndsAtTop(log[i].address, |log[i].bytes|)
    ensures ShownAsFound(before, m, log, address, size)
  {
    hide Leftover, ByteLogged, Seen, ShownAsFound;
    forall a: Addr | Within(address, size, a) ensures !Exposed(RangesOf(log), address, size, a) {
      forall i | 0 <= i < |RangesOf(log)| && InRange(RangesOf(log)[i], a)
        ensures !EndsAtTop(RangesOf(log)[i].address, RangesOf(log)[i].size)
      {
        assert Covers(log[i], a);
      }
      NoneEndsAtTop(RangesOf(log), a);
    }
    ReadBeforeExact(before, m, log, address, size);
  }

  lemma {:induction false} NoneEndsAtTop(ranges: seq<Range>, a: Addr)
    requires forall i :: 0 <= i < |ranges| && InRange(ranges[i], a) ==> !EndsAtTop(ranges[i].address, ranges[i].size)
    ensures !FirstEndsAtTop(ranges, a)
  {
    if ranges != [] { NoneEndsAtTop(ranges[1..], a); }
  }

  class Activation {
    const proc: Process
    var originals: seq<Saved>
    ghost const before: Mem

    constructor (proc: Process)
      ensures this.proc == proc && before == proc.mem && originals == [] && Valid() && Landed(proc.mem, originals)
    {
      this.proc, this.originals, this.before := proc, [], proc.mem;
    }

    ghost predicate Valid()
      reads this, proc
    {
      RunLog(before, proc.mem, originals)
    }

    /** Save the bytes at `addr`, then write `bytes` there. `foreign`: code of another
        architecture, whose failed write is not retried. `tries` is what came of each write. */
    method PatchMemory(addr: Addr, bytes: seq<Byte>, executable: bool, mutableData: bool, foreign: bool, lease: Lease)
      returns (ok: bool, ghost tries: seq<bool>)
      requires Valid() && !lease.Released?
      modifies this`originals, proc`mem
      ensures Valid()
      ensures originals == old(originals) ==> !ok && proc.mem == old(proc.mem)
      ensures originals != old(originals) ==>
                && |originals| == |old(originals)| + 1 && originals[..|old(originals)|] == old(originals)
                && Found(old(proc.mem), originals[|old(originals)|])
                && originals[|old(originals)|] == Saved(addr, originals[|old(originals)|].bytes, bytes, executable, lease, executable && !mutableData)
      ensures forall a: Addr :: a in proc.mem && !Within(addr, |bytes|, a) ==> a in old(proc.mem) && proc.mem[a] == old(proc.mem[a])
      ensures ok ==> FullyWritten(old(proc.mem), proc.mem, addr, bytes)
      ensures ok && old(Landed(proc.mem, originals)) ==> Landed(proc.mem, originals)
      ensures proc.reliable && Mapped(old(proc.mem), addr, |bytes|) ==> ok
      ensures tries == [] <==> originals == old(originals)
      ensures tries != [] ==> tries == if tries[0] then [true] else if executable && foreign then [false] else [false, ok]
      ensures ok <==> true in tries
    {
      hide Original, Written, ByteLogged, PartlyWritten, FullyWritten, Mapped, Found, RunLog, Landed;
      tries := [];
      MappedFits(proc.mem, addr, |bytes|);
      if bytes != [] && |bytes| - 1 > TOP - addr { return false, []; }
      var orig := proc.Read(addr, |bytes|);
      if orig.None? { return false, []; }
      ghost var log, m := originals, proc.mem;
      var patch := Saved(addr, orig.value, bytes, executable, lease, executable && !mutableData);
      FoundAs(m, patch);
      originals := originals + [patch];
      ok := proc.Write(addr, bytes);
      tries := [ok];
      WriteDid(m, proc.mem, addr, bytes, ok);
      if !ok && !(executable && foreign) {
        ghost var first := proc.mem;
        ok := proc.Write(addr, bytes);
        tries := tries + [ok];
        WriteDid(first, proc.mem, addr, bytes, ok);
        WroteTwice(m, first, proc.mem, addr, bytes);
      }
      WriteKeepsLog(before, m, proc.mem, log, patch);
      OthersKept(m, proc.mem, addr, bytes);
      if ok && Landed(m, log) { WriteKeepsLanded(before, m, proc.mem, log, patch); }
    }

    /** The bytes at `addr` as the script found them, or None when they cannot be read. */
    method ReadBeforeScript(addr: Addr, size: nat) returns (r: Option<seq<Byte>>)
      requires Valid()
      ensures r.Some? ==> && |r.value| == size && Mapped(proc.mem, addr, size)
                          && forall a: Addr :: Within(addr, size, a) ==> r.value[a - addr] == Seen(proc.mem, originals, addr, size, a)
      ensures proc.reliable && Mapped(proc.mem, addr, size) ==> r.Some?
    {
      if size > 0 && size - 1 > TOP - addr { return None; }
      var live := proc.Read(addr, size);
      if live.None? { return None; }
      var out := live.value;
      assert originals[|originals|..] == [];
      for k := |originals| downto 0
        invariant |out| == size
        invariant forall a: Addr :: Within(addr, size, a) ==> out[a - addr] == Seen(proc.mem, originals[k..], addr, size, a)
      {
        assert originals[k..][0] == originals[k] && originals[k..][1..] == originals[k + 1..];
        out := LayOver(out, addr, originals[k]);
      }
      assert originals[0..] == originals;
      return Some(out);
    }
  }
}
