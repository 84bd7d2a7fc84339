/** core/autoasm.cpp: checking, writing back and verifying saved originals. */
module Restore {
  import opened Memory
  import opened UndoLog
  import opened Handovers
  import opened Processes

  /** `v` is one of the states this script saved or left at `a`. */
  ghost predicate Accepted(log: seq<Saved>, a: Addr, v: Byte)
  {
    exists j :: 0 <= j < |log| && AcceptedBy(log[j], a, v)
  }

  predicate AcceptedBy(p: Saved, a: Addr, v: Byte)
  {
    Hits(p, a) && (v == p.bytes[a - p.address] || (a - p.address < |p.written| && v == p.written[a - p.address]))
  }

  predicate Checked(p: Saved) { p.verify && !p.lease.Released? && |p.written| == |p.bytes| }

  /** No byte of a checked patch was changed by anyone else. */
  ghost predicate Owned(m: Mem, log: seq<Saved>)
  {
    forall i, a: Addr :: 0 <= i < |log| && Checked(log[i]) && Covers(log[i], a) ==> a in m && Accepted(log, a, m[a])
  }

  /** Every byte the log restores has the restored value. */
  ghost predicate Restored(m: Mem, log: seq<Saved>)
  {
    forall a: Addr :: Original(log, a).Some? ==> a in m && Original(log, a) == Some(m[a])
  }

  ghost predicate AllMapped(m: Mem, log: seq<Saved>)
  {
    forall a: Addr :: Original(log, a).Some? ==> a in m
  }

  /** Whether some checked byte is in none of the states the log saved or left. It may claim a conflict
      when a read fails, but never overlooks one. */
  method CodeOwnershipConflict(proc: Process, log: seq<Saved>) returns (conflict: bool)
    requires AllSized(log)
    ensures !conflict ==> Owned(proc.mem, log)
    ensures proc.reliable && Owned(proc.mem, log) ==> !conflict
  {
    for i := 0 to |log|
      invariant forall j, a: Addr :: 0 <= j < i && Checked(log[j]) && Covers(log[j], a) ==> a in proc.mem && Accepted(log, a, proc.mem[a])
    {
      var patch := log[i];
      if !patch.verify || patch.lease.Released? || |patch.written| != |patch.bytes| { continue; }
      var actual := proc.Read(patch.address, |patch.bytes|);
      if actual.None? {
        assert forall a: Addr :: Within(patch.address, |patch.bytes|, a) ==> Covers(log[i], a);
        return true;
      }
      for offset := 0 to |patch.bytes|
        invariant forall a: Addr :: Within(patch.address, offset, a) ==> Accepted(log, a, proc.mem[a])
      {
        var at := patch.address + offset;
        assert Within(patch.address, |patch.bytes|, at);
        var accepted := false;
        for j := 0 to |log|
          invariant accepted <==> exists k :: 0 <= k < j && AcceptedBy(log[k], at, actual.value[offset])
        {
          if AcceptedBy(log[j], at, actual.value[offset]) { accepted := true; }
        }
        if !accepted {
          assert Covers(log[i], at);
          return true;
        }
      }
    }
    return false;
  }

  /** The bytes an active patch's range has once everything is restored. */
  method WantedAt(log: seq<Saved>, i: nat) returns (wanted: seq<Byte>)
    requires AllSized(log) && i < |log| && log[i].bytes != [] && !log[i].lease.Released?
    ensures |wanted| == |log[i].bytes|
    ensures forall a: Addr :: Within(log[i].address, |wanted|, a) ==> Original(log, a) == Some(wanted[a - log[i].address])
  {
    var patch := log[i];
    wanted := OriginalAt(log, patch.address, patch.address + (|patch.bytes| - 1));
    forall a: Addr | Within(patch.address, |wanted|, a) ensures Original(log, a) == Some(wanted[a - patch.address]) {
      assert Hits(log[i], a);
      OriginalIsSome(log, a);
      assert patch.address + (a - patch.address) == a;
    }
  }

  /** The first saved range whose bytes are not the restored ones. */
  method FirstMismatch(proc: Process, log: seq<Saved>) returns (mismatch: Option<Addr>)
    requires AllSized(log)
    ensures mismatch.None? ==> Restored(proc.mem, log)
    ensures proc.reliable && Restored(proc.mem, log) ==> mismatch.None?
    ensures mismatch.Some? ==> exists i: nat :: FirstWrong(proc.mem, proc.reliable, log, i) && log[i].address == mismatch.value
  {
    hide Original;
    for i := 0 to |log|
      invariant forall j, a: Addr :: 0 <= j < i && Hits(log[j], a) ==> a in proc.mem && Original(log, a) == Some(proc.mem[a])
    {
      var patch := log[i];
      if patch.bytes == [] || patch.lease.Released? { continue; }
      var wanted := WantedAt(log, i);
      var actual := proc.Read(patch.address, |patch.bytes|);
      if actual.None? {
        if proc.reliable { NotAllRight(proc.mem, log, i); }
        assert FirstWrong(proc.mem, proc.reliable, log, i);
        return Some(patch.address);
      }
      if actual.value != wanted {
        SomeWrong(proc.mem, log, i, actual.value, wanted);
        assert FirstWrong(proc.mem, proc.reliable, log, i);
        SomeDifference(proc.mem, log, patch.address, actual.value, wanted);
        return Some(patch.address);
      }
      forall a: Addr | Hits(log[i], a) ensures a in proc.mem && Original(log, a) == Some(proc.mem[a]) {
        assert Within(patch.address, |patch.bytes|, a);
      }
    }
    forall a: Addr | Original(log, a).Some? ensures a in proc.mem && Original(log, a) == Some(proc.mem[a]) {
      OriginalIsSome(log, a);
    }
    return None;
  }

  /** The range's bytes are there and are the restored ones. */
  ghost predicate RangeRight(m: Mem, log: seq<Saved>, i: nat)
    requires i < |log|
  {
    forall a: Addr :: Hits(log[i], a) ==> a in m && Original(log, a) == Some(m[a])
  }

  /** Range `i` is wrong, as far as can be told, and the ranges before it are right. */
  ghost predicate FirstWrong(m: Mem, reliable: bool, log: seq<Saved>, i: nat)
  {
    && i < |log| && log[i].bytes != [] && !log[i].lease.Released?
    && (forall j :: 0 <= j < i ==> RangeRight(m, log, j))
    && (reliable ==> !RangeRight(m, log, i))
  }

  lemma {:induction false} NotAllRight(m: Mem, log: seq<Saved>, i: nat)
    requires i < |log| && Sized(log[i]) && log[i].bytes != [] && !log[i].lease.Released? && !Mapped(m, log[i].address, |log[i].bytes|)
    ensures !RangeRight(m, log, i)
  {
    hide Original;
    var a: Addr :| Within(log[i].address, |log[i].bytes|, a) && a !in m;
    assert Hits(log[i], a);
  }

  lemma {:induction false} SomeWrong(m: Mem, log: seq<Saved>, i: nat, actual: seq<Byte>, wanted: seq<Byte>)
    requires i < |log| && Sized(log[i]) && log[i].bytes != [] && !log[i].lease.Released?
    requires |actual| == |wanted| == |log[i].bytes| && actual != wanted
    requires forall a: Addr :: Within(log[i].address, |wanted|, a) ==> a in m && actual[a - log[i].address] == m[a]
    requires forall a: Addr :: Within(log[i].address, |wanted|, a) ==> Original(log, a) == Some(wanted[a - log[i].address])
    ensures !RangeRight(m, log, i)
  {
    hide Original;
    var k :| 0 <= k < |wanted| && actual[k] != wanted[k];
    var a: Addr := log[i].address + k;
    assert Within(log[i].address, |wanted|, a) && Hits(log[i], a);
  }

  lemma {:induction false} SomeDifference(m: Mem, log: seq<Saved>, address: Addr, actual: seq<Byte>, wanted: seq<Byte>)
    requires |actual| == |wanted| && actual != wanted && address + |wanted| - 1 <= TOP
    requires forall a: Addr :: Within(address, |wanted|, a) ==> a in m && actual[a - address] == m[a]
    requires forall a: Addr :: Within(address, |wanted|, a) ==> Original(log, a) == Some(wanted[a - address])
    ensures !Restored(m, log)
  {
    var k :| 0 <= k < |wanted| && actual[k] != wanted[k];
    var a: Addr := address + k;
    assert Within(address, |wanted|, a);
  }

  lemma {:induction false} WrittenIsSaved(m: Mem, m': Mem, log: seq<Saved>, i: nat)
    requires i < |log| && !log[i].lease.Released? && m'.Keys == m.Keys
    requires forall a: Addr :: a in m' ==>
               m'[a] == m[a] || (Within(log[i].address, |log[i].bytes|, a) && m'[a] == log[i].bytes[a - log[i].address])
    ensures forall a: Addr :: a in m' && m'[a] != m[a] ==> SavedAt(log, a, m'[a])
  {
    forall a: Addr | a in m' && m'[a] != m[a] ensures SavedAt(log, a, m'[a]) { assert SavedBy(log[i], a, m'[a]); }
  }

  /** Write every saved original back, newest first, so that the earliest one wins. */
  method WriteBack(proc: Process, log: seq<Saved>) returns (ok: bool)
    requires AllSized(log)
    modifies proc`mem
    ensures proc.mem.Keys == old(proc.mem.Keys)
    ensures forall a: Addr :: a in proc.mem && Original(log, a).None? ==> proc.mem[a] == old(proc.mem[a])
    ensures forall a: Addr :: a in proc.mem && proc.mem[a] != old(proc.mem[a]) ==> SavedAt(log, a, proc.mem[a])
    ensures ok ==> Restored(proc.mem, log)
    ensures proc.reliable && AllMapped(old(proc.mem), log) ==> ok
  {
    hide Original;
    forall a: Addr ensures Original([], a) == None { OriginalOfNone(a); }
    assert log[|log|..] == [];
    ok := true;
    for i := |log| downto 0
      invariant proc.mem.Keys == old(proc.mem.Keys)
      invariant forall a: Addr :: a in proc.mem && Original(log[i..], a).None? ==> proc.mem[a] == old(proc.mem[a])
      invariant forall a: Addr :: a in proc.mem && proc.mem[a] != old(proc.mem[a]) ==> SavedAt(log, a, proc.mem[a])
      invariant ok ==> Restored(proc.mem, log[i..])
      invariant proc.reliable && AllMapped(old(proc.mem), log) ==> ok
    {
      var patch := log[i];
      assert log[i..][1..] == log[i + 1..] && log[i..][0] == patch;
      if patch.lease.Released? {
        forall a: Addr ensures Original(log[i..], a) == Original(log[i + 1..], a) { OriginalHead(log[i..], a); }
        continue;
      }
      if proc.reliable && AllMapped(old(proc.mem), log) && patch.bytes != [] {
        forall a: Addr | Within(patch.address, |patch.bytes|, a) ensures a in proc.mem {
          assert Hits(log[i], a);
          OriginalIsSome(log, a);
        }
      }
      ghost var m := proc.mem;
      var written := proc.Write(patch.address, patch.bytes);
      WrittenIsSaved(m, proc.mem, log, i);
      ok := ok && written;
      forall a: Addr
        ensures Original(log[i..], a) == if Within(patch.address, |patch.bytes|, a) then Some(patch.bytes[a - patch.address])
                                         else Original(log[i + 1..], a)
      {
        OriginalHead(log[i..], a);
      }
    }
    assert log[0..] == log;
  }

  /** Restore the originals unless they are all there already, and verify the result. */
  method RestoreBytes(proc: Process, log: seq<Saved>) returns (ok: bool)
    requires AllSized(log)
    modifies proc`mem
    ensures proc.mem.Keys == old(proc.mem.Keys)
    ensures forall a: Addr :: a in proc.mem && Original(log, a).None? ==> proc.mem[a] == old(proc.mem[a])
    ensures forall a: Addr :: a in proc.mem && proc.mem[a] != old(proc.mem[a]) ==> SavedAt(log, a, proc.mem[a])
    ensures ok ==> Restored(proc.mem, log)
    ensures proc.reliable && AllMapped(old(proc.mem), log) ==> ok
  {
    var mismatch := FirstMismatch(proc, log);
    if mismatch.None? { return true; }
    var written := WriteBack(proc, log);
    mismatch := FirstMismatch(proc, log);
    return written && mismatch.None?;
  }

  /** The allocations that could not be freed. */
  method FreeAll(proc: Process, allocations: seq<Addr>) returns (pending: seq<Addr>)
    modifies proc`freed
    ensures FreedBut(old(proc.freed), proc.freed, allocations, pending)
    ensures proc.reliable || allocations == [] ==> pending == []
  {
    hide FreedBut;
    pending := [];
    FreedNone(proc.freed, proc.freed, [], []);
    assert allocations[..0] == [];
    for i := 0 to |allocations|
      invariant |pending| <= i && (proc.reliable ==> pending == [])
      invariant FreedBut(old(proc.freed), proc.freed, allocations[..i], pending)
    {
      ghost var before := proc.freed;
      var freed := proc.Free(allocations[i]);
      FreedOne(old(proc.freed), before, proc.freed, allocations[..i], pending, allocations[i]);
      assert allocations[..i + 1] == allocations[..i] + [allocations[i]];
      if !freed { pending := pending + [allocations[i]]; }
    }
    assert allocations[..|allocations|] == allocations;
  }

  /** `v` is a byte that this patch saved or wrote at `a`. */
  predicate Knows(p: Saved, a: Addr, v: Byte)
  {
    && p.lease != Released && p.address <= a < p.address + |p.bytes|
    && (v == p.bytes[a - p.address] || (a < p.address + |p.written| && v == p.written[a - p.address]))
  }

  /** A script owns its code when every byte of its code patches is one that some patch of the script
      saved or wrote there. */
  lemma {:induction false} OwnedMeans(m: Mem, log: seq<Saved>)
    ensures Owned(m, log) <==>
            forall i, a: Addr :: 0 <= i < |log| && log[i].verify && log[i].lease != Released && |log[i].written| == |log[i].bytes| && Covers(log[i], a) ==>
              a in m && exists j :: 0 <= j < |log| && Knows(log[j], a, m[a])
  {
    forall j, a: Addr, v: Byte | 0 <= j < |log| ensures AcceptedBy(log[j], a, v) <==> Knows(log[j], a, v) {}
    hide AcceptedBy, Knows;
    forall a: Addr, v: Byte ensures Accepted(log, a, v) <==> exists j :: 0 <= j < |log| && Knows(log[j], a, v) {
      if j :| 0 <= j < |log| && Knows(log[j], a, v) { assert AcceptedBy(log[j], a, v); }
      if j :| 0 <= j < |log| && AcceptedBy(log[j], a, v) { assert Knows(log[j], a, v); }
    }
  }
}
