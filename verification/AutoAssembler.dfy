/** core/autoasm.cpp: activating and undoing scripts through one assembler. */
module Assembler {
  import opened Memory
  import opened UndoLog
  import opened Handovers
  import opened Processes
  import opened Restore
  import opened Activations

  /** What `disable` needs to undo an activation. */
  datatype Undo = Undo(originals: seq<Saved>, owner: Ownership, allocations: seq<Addr>)

  ghost predicate Distinct(live: seq<LivePatch>)
  {
    forall i, j :: 0 <= i < j < |live| ==> live[i].owner != live[j].owner
  }

  /** Position of the script, or |live| when it has nothing to restore. */
  ghost function IndexOf(live: seq<LivePatch>, owner: Ownership): (k: nat)
    ensures k <= |live| && (k < |live| ==> live[k].owner == owner)
    ensures forall j :: 0 <= j < k ==> live[j].owner != owner
  {
    if live == [] then 0 else if live[0].owner == owner then 0
    else
      var k := IndexOf(live[1..], owner);
      assert forall j :: 1 <= j < |live| ==> live[j] == live[1..][j - 1];
      1 + k
  }

  ghost function NewerThan(live: seq<LivePatch>, owner: Ownership): seq<LivePatch>
  {
    var k := IndexOf(live, owner);
    if k < |live| then live[k + 1..] else []
  }

  ghost function Removed(live: seq<LivePatch>, owner: Ownership): seq<LivePatch>
  {
    var k := IndexOf(live, owner);
    if k < |live| then live[..k] + live[k + 1..] else live
  }

  /** The first `i` scripts without the one at `k`. */
  ghost function RemovedTo(live: seq<LivePatch>, k: nat, i: nat): seq<LivePatch>
    requires i <= |live|
  {
    if i <= k then live[..i] else live[..k] + live[k + 1..i]
  }

  lemma {:induction false} RemovedNext(live: seq<LivePatch>, k: nat, i: nat)
    requires i < |live|
    ensures RemovedTo(live, k, i + 1) == RemovedTo(live, k, i) + if i == k then [] else [live[i]]
  {
    if i < k {
      assert live[..i + 1] == live[..i] + [live[i]];
    } else if i > k {
      assert live[k + 1..i + 1] == live[k + 1..i] + [live[i]];
    }
  }

  lemma {:induction false} RemovedNone(live: seq<LivePatch>, k: nat)
    ensures RemovedTo(live, k, 0) == []
  {
  }

  lemma {:induction false} RemovedAll(live: seq<LivePatch>, owner: Ownership)
    ensures RemovedTo(live, IndexOf(live, owner), |live|) == Removed(live, owner)
  {
  }

  /** The overrides that the handovers give to `owner`, in order. */
  ghost function Given(hs: seq<Handover>, owner: Ownership): seq<Override>
  {
    if hs == [] then []
    else
      var h := hs[|hs| - 1];
      Given(hs[..|hs| - 1], owner) + (if h.to == owner then [Override(h.address, h.bytes)] else [])
  }

  /** A script is given its handovers, in order, and no others. */
  lemma {:induction false} GivenJoins(hs: seq<Handover>, more: seq<Handover>, o: Ownership)
    ensures Given(hs + more, o) == Given(hs, o) + Given(more, o)
  {
    if more == [] {
      assert hs + more == hs;
    } else {
      var n := |more| - 1;
      GivenJoins(hs, more[..n], o);
      assert (hs + more)[..|hs + more| - 1] == hs + more[..n];
    }
  }

  lemma {:induction false} GivenOne(h: Handover, o: Ownership)
    ensures Given([], o) == [] && Given([h], o) == if h.to == o then [Override(h.address, h.bytes)] else []
  {
    assert [h][..0] == [];
  }

  lemma {:induction false} GivenToOthers(hs: seq<Handover>, o: Ownership)
    requires forall i :: 0 <= i < |hs| ==> hs[i].to != o
    ensures Given(hs, o) == []
  {
    if hs != [] { GivenToOthers(hs[..|hs| - 1], o); }
  }

  lemma {:induction false} WrittenIsMapped(m: Mem, m': Mem, address: Addr, bytes: seq<Byte>)
    requires FullyWritten(m, m', address, bytes)
    ensures Mapped(m, address, |bytes|) && m'.Keys == m.Keys
  {
  }

  /** One patch a script asks for. */
  datatype Request = Request(address: Addr, bytes: seq<Byte>, executable: bool, mutableData: bool, foreign: bool, lease: Lease)

  predicate Proposed(requests: seq<Request>)
  {
    forall i :: 0 <= i < |requests| ==> requests[i].bytes != [] && !requests[i].lease.Released?
  }

  /** Every patch lies in mapped memory. */
  ghost predicate AllReached(m: Mem, requests: seq<Request>)
  {
    forall i :: 0 <= i < |requests| ==> Mapped(m, requests[i].address, |requests[i].bytes|)
  }

  lemma {:induction false} ReachedNext(m: Mem, now: Mem, requests: seq<Request>, i: nat)
    requires i < |requests| && m.Keys == now.Keys && AllReached(m, requests[..i])
    ensures AllReached(m, requests[..i + 1]) <==> Mapped(now, requests[i].address, |requests[i].bytes|)
    ensures AllReached(m, requests) ==> Mapped(now, requests[i].address, |requests[i].bytes|)
  {
    assert Mapped(now, requests[i].address, |requests[i].bytes|) <==> Mapped(m, requests[i].address, |requests[i].bytes|);
    if Mapped(now, requests[i].address, |requests[i].bytes|) {
      var first := requests[..i + 1];
      forall j | 0 <= j < |first| ensures Mapped(m, first[j].address, |first[j].bytes|) {
        if j < i { assert first[j] == requests[..i][j]; }
      }
    }
    if AllReached(m, requests[..i + 1]) { assert requests[..i + 1][i] == requests[i]; }
  }

  lemma {:induction false} NoneReached(m: Mem, requests: seq<Request>)
    ensures AllReached(m, requests[..0])
  {
  }

  /** The log records the requests in order. */
  predicate Logs(log: seq<Saved>, requests: seq<Request>)
  {
    && |log| == |requests|
    && forall i :: 0 <= i < |log| ==>
         && log[i].address == requests[i].address && log[i].written == requests[i].bytes && log[i].lease == requests[i].lease
         && log[i].verify == (requests[i].executable && !requests[i].mutableData)
  }

  /** The value of the last request that covers `a`. */
  function LastWrite(requests: seq<Request>, a: Addr): Option<Byte>
  {
    if requests == [] then None
    else
      var q := requests[|requests| - 1];
      if q.address <= a < q.address + |q.bytes| then Some(q.bytes[a - q.address]) else LastWrite(requests[..|requests| - 1], a)
  }

  /** The last request over `a` decides. */
  lemma {:induction false} LastRequest(requests: seq<Request>, i: nat, a: Addr)
    requires i < |requests| && requests[i].address <= a < requests[i].address + |requests[i].bytes|
    requires forall j :: i < j < |requests| ==> a < requests[j].address || requests[j].address + |requests[j].bytes| <= a
    ensures LastWrite(requests, a) == Some(requests[i].bytes[a - requests[i].address])
  {
    if i < |requests| - 1 { LastRequest(requests[..|requests| - 1], i, a); }
  }

  lemma {:induction false} NoRequest(requests: seq<Request>, a: Addr)
    requires forall j :: 0 <= j < |requests| ==> a < requests[j].address || requests[j].address + |requests[j].bytes| <= a
    ensures LastWrite(requests, a) == None
  {
    if requests != [] { NoRequest(requests[..|requests| - 1], a); }
  }

  function AfterWrites(m: Mem, requests: seq<Request>, a: Addr): Byte
    requires a in m
  {
    if LastWrite(requests, a).Some? then LastWrite(requests, a).value else m[a]
  }

  lemma {:induction false} LogsLastWrite(log: seq<Saved>, requests: seq<Request>, a: Addr)
    requires SavedWhole(log) && Logs(log, requests)
    ensures Written(log, a) == LastWrite(requests, a) && (Original(log, a).Some? <==> LastWrite(requests, a).Some?)
  {
    if log != [] { LogsLastWrite(log[..|log| - 1], requests[..|requests| - 1], a); }
  }

  /** A successful run leaves every byte at the last write the script made there. */
  lemma {:induction false} RunWrites(before: Mem, m: Mem, log: seq<Saved>, requests: seq<Request>, a: Addr)
    requires RunLog(before, m, log) && Landed(m, log) && Logs(log, requests) && a in m
    ensures m[a] == AfterWrites(before, requests, a)
  {
    LogsLastWrite(log, requests, a);
    assert ByteLogged(before, m, log, a);
  }

  function SectionOverrides(log: seq<Saved>): seq<Override>
  {
    if log == [] then [] else SectionOverrides(log[..|log| - 1]) + [Override(log[|log| - 1].address, log[|log| - 1].written)]
  }

  lemma {:induction false} SectionLast(overrides: seq<Override>, log: seq<Saved>, a: Addr)
    requires AllSized(log) && SavedWhole(log)
    ensures LastOverride(overrides + SectionOverrides(log), a) == if Written(log, a).Some? then Written(log, a) else LastOverride(overrides, a)
  {
    if log == [] {
      assert overrides + [] == overrides;
    } else {
      var n := |log| - 1;
      SectionLast(overrides, log[..n], a);
      var before, x := overrides + SectionOverrides(log[..n]), Override(log[n].address, log[n].written);
      assert overrides + SectionOverrides(log) == before + [x];
      assert (before + [x])[..|before|] == before;
      assert OverrideCovers(x, a) <==> Covers(log[n], a);
    }
  }

  lemma {:induction false} SectionRestores(originals: seq<Saved>, overrides: seq<Override>, log: seq<Saved>, requests: seq<Request>, a: Addr)
    requires AllSized(log) && SavedWhole(log) && Logs(log, requests)
    ensures Restores(originals, overrides + SectionOverrides(log), a) ==
            if Original(originals, a).Some? && LastWrite(requests, a).Some? then LastWrite(requests, a)
            else Restores(originals, overrides, a)
  {
    SectionLast(overrides, log, a);
    LogsLastWrite(log, requests, a);
  }

  /** Bytes no newer script wrote do not pass. */
  lemma {:induction false} NotPassed(originals: seq<Saved>, overrides: seq<Override>, newer: seq<LivePatch>, a: Addr)
    requires AllSized(originals)
    requires Original(originals, a).Some? ==> forall i :: 0 <= i < |newer| ==> !InRanges(newer[i].ranges, a)
    ensures Original(Applied(originals, overrides), a).Some? ==> !Passes(Applied(originals, overrides), newer, a)
  {
    AppliedRestores(originals, overrides, a);
  }

  class AutoAssembler {
    const proc: Process
    var live: seq<LivePatch>

    constructor (proc: Process)
      ensures this.proc == proc && live == [] && Struct()
    {
      this.proc, live := proc, [];
    }

    ghost predicate Struct()
      reads this, Owners()
    {
      && Distinct(live)
      && forall i :: 0 <= i < |live| ==> live[i].owner in Owners() && !live[i].owner.complete && RangesSized(live[i].ranges) && live[i].ranges != []
    }

    ghost function Owners(): set<object>
      reads this
    {
      set i | 0 <= i < |live| :: live[i].owner
    }

    /** Forget scripts whose undo is complete. */
    method EraseComplete()
      requires Struct()
      modifies this`live
      ensures live == old(live)
    {
      var kept: seq<LivePatch> := [];
      for i := 0 to |live|
        invariant live == old(live) && Struct()
        invariant kept == live[..i]
      {
        if !live[i].owner.complete { kept := kept + [live[i]]; }
      }
      live := kept;
    }

    /** The live scripts enabled after `owner` that wrote something. */
    method FindNewer(owner: Ownership) returns (newer: seq<LivePatch>)
      requires Struct()
      ensures newer == NewerThan(live, owner)
    {
      var self := 0;
      while self < |live| && live[self].owner != owner
        invariant self <= |live| && forall j :: 0 <= j < self ==> live[j].owner != owner
      {
        self := self + 1;
      }
      newer := [];
      if self == |live| { return; }
      for j := self + 1 to |live|
        invariant newer == live[self + 1..j]
      {
        if live[j].ranges != [] { newer := newer + [live[j]]; }
      }
    }

    /** The restored bytes are no longer this script's to hand over or keep. */
    method EraseOwner(owner: Ownership)
      requires Struct()
      modifies this`live
      ensures live == Removed(old(live), owner)
    {
      var kept: seq<LivePatch> := [];
      ghost var k := IndexOf(live, owner);
      assert forall i :: 0 <= i < |live| && i != k ==> live[i].owner != owner;
      hide Distinct, IndexOf, Struct, RemovedTo, Removed;
      RemovedAll(live, owner);
      RemovedNone(live, k);
      for i := 0 to |live|
        invariant live == old(live)
        invariant kept == RemovedTo(live, k, i)
      {
        RemovedNext(live, k, i);
        if live[i].owner != owner { kept := kept + [live[i]]; }
      }
      live := kept;
    }

    /** Give the newer scripts what they now restore. */
    method Commit(hs: seq<Handover>)
      requires Struct() && forall i :: 0 <= i < |hs| ==> hs[i].to in Owners()
      modifies Owners()
      ensures forall o: Ownership :: o in Owners() ==> o.overrides == old(o.overrides) + Given(hs, o) && o.complete == old(o.complete)
    {
      assert hs[..0] == [];
      for i := 0 to |hs|
        invariant forall o: Ownership :: o in Owners() ==> o.overrides == old(o.overrides) + Given(hs[..i], o) && o.complete == old(o.complete)
      {
        var to := hs[i].to;
        assert hs[..i + 1][..i] == hs[..i];
        to.overrides := to.overrides + [Override(hs[i].address, hs[i].bytes)];
      }
      assert hs[..|hs|] == hs;
    }

    /** The point of no return: the newer scripts hold what passed, this one holds nothing. */
    method CommitAndErase(owner: Ownership, hs: seq<Handover>, ghost log: seq<Saved>)
      requires Struct() && AllRightful(log, NewerThan(live, owner), hs)
      modifies this`live, Owners()
      ensures Struct() && live == Removed(old(live), owner) && owner !in Owners()
      ensures forall o: Ownership :: o in old(Owners()) && o != owner ==> o.overrides == old(o.overrides) + Given(hs, o)
      ensures owner.complete == old(owner.complete) && owner.overrides == old(owner.overrides)
    {
      hide AllRightful, RangesSized, Removed, NewerThan, IndexOf, Given;
      ReceiversAreLive(live, owner, log, hs);
      GivenToOthers(hs, owner);
      RemovedKeeps(live, owner);
      Commit(hs);
      EraseOwner(owner);
    }

    /** Originals with the script's overrides laid over them. */
    method WithOverrides(originals: seq<Saved>, overrides: seq<Override>) returns (r: seq<Saved>)
      ensures r == Applied(originals, overrides)
    {
      r := originals;
      for i := 0 to |overrides|
        invariant r == Applied(originals, overrides[..i])
      {
        r := OverrideOriginals(r, overrides[i].address, overrides[i].bytes);
        assert overrides[..i + 1][..i] == overrides[..i];
        assert overrides[i] == Override(overrides[i].address, overrides[i].bytes);
      }
      assert overrides[..|overrides|] == overrides;
    }

    /** What a cleanup restores, and who is newer, in the state before it. */
    ghost function Effective(saved: Undo): seq<Saved>
      reads saved.owner
    {
      Applied(saved.originals, saved.owner.overrides)
    }

    /** Everything of a cleanup up to the verified restore: plan the handovers, restore the rest. */
    method RestoreOwn(originals: seq<Saved>, newer: seq<LivePatch>) returns (ok: bool, handovers: seq<Handover>)
      requires AllSized(originals) && forall k :: 0 <= k < |newer| ==> RangesSized(newer[k].ranges)
      modifies proc`mem
      ensures proc.mem.Keys == old(proc.mem.Keys)
      ensures forall a: Addr :: a in proc.mem && proc.mem[a] != old(proc.mem[a]) ==>
                Original(originals, a).Some? && !Passes(originals, newer, a) && SavedAt(originals, a, proc.mem[a])
      ensures !Owned(old(proc.mem), originals) ==> !ok && proc.mem == old(proc.mem)
      ensures ok ==> RestoredExcept(proc.mem, originals, newer) && HandedOn(originals, newer, handovers)
      ensures proc.reliable && Owned(old(proc.mem), originals) && AllMapped(old(proc.mem), originals) ==> ok
    {
      hide Original, Passes, SomeHandover, Rightful, RangesSized, SavedAt, Owned;
      var conflict := CodeOwnershipConflict(proc, originals);
      if conflict { return false, []; }
      var kept;
      handovers, kept := PlanHandovers(originals, newer);
      ok := RestoreBytes(proc, kept);
    }

    /** Undo a script. With `committed` its saved bytes are back in memory and were checked,
        and the bytes that newer scripts wrote over have passed to them (`hs`); without it nothing
        but restorable bytes of memory may have changed, each to one of the saved values. Code that
        is in none of the states this script saved or wrote is someone else's: then nothing happens. */
    method Cleanup(saved: Undo) returns (success: bool, left: Undo, ghost committed: bool, ghost hs: seq<Handover>)
      requires Struct() && AllSized(saved.originals)
      modifies this`live, proc`mem, proc`freed, saved.owner, Owners()
      ensures Struct()
      ensures proc.mem.Keys == old(proc.mem.Keys)
      ensures old(saved.owner.complete) ==> success && !committed && proc.mem == old(proc.mem) && live == old(live)
      ensures success ==> left == saved.(originals := [], allocations := [])
      ensures var log, newer := old(Effective(saved)), old(NewerThan(live, saved.owner));
              && (forall a: Addr :: a in proc.mem && proc.mem[a] != old(proc.mem[a]) ==>
                    Original(log, a).Some? && !Passes(log, newer, a) && SavedAt(log, a, proc.mem[a]))
              && (committed ==> Owned(old(proc.mem), log))
              && (!Owned(old(proc.mem), log) ==> proc.mem == old(proc.mem) && (old(saved.owner.complete) || !success))
              && (committed ==> RestoredExcept(proc.mem, log, newer) && HandedOn(log, newer, hs))
              && (proc.reliable && Owned(old(proc.mem), log) && AllMapped(old(proc.mem), log) ==> success)
      ensures committed ==> live == Removed(old(live), saved.owner) && left.originals == [] && left.owner == saved.owner
      ensures !committed ==> && hs == [] && live == old(live) && (success || left == saved)
                             && forall o: Ownership :: o in old(Owners()) ==> o.overrides == old(o.overrides)
      ensures forall o: Ownership :: o in old(Owners()) && o != saved.owner ==> o.overrides == old(o.overrides) + Given(hs, o)
      ensures saved.owner.overrides == old(saved.owner.overrides)
      ensures (saved.owner.complete <==> success) && (success ==> committed || old(saved.owner.complete))
      ensures committed && saved.allocations == [] ==> success
      ensures if committed then FreedBut(old(proc.freed), proc.freed, saved.allocations, left.allocations) && (success ==> left.allocations == [])
              else proc.freed == old(proc.freed)
    {
      hide FreedBut, Passes, RestoredExcept, AllRightful, RangesSized, Owned, AllMapped, Original, Applied, NewerThan, Removed, Distinct, SavedAt;
      committed, hs := false, [];
      if saved.owner.complete { return true, saved.(originals := [], allocations := []), false, []; }
      var originals := WithOverrides(saved.originals, saved.owner.overrides);
      SizedApplied(saved.originals, saved.owner.overrides);
      EraseComplete();
      var newer := FindNewer(saved.owner);
      NewerSized(live, saved.owner);
      var restored, handovers := RestoreOwn(originals, newer);
      if !restored { return false, saved, false, []; }
      CommitAndErase(saved.owner, handovers, originals);
      committed, hs := true, handovers;
      var pending := FreeAll(proc, saved.allocations);
      if pending != [] { return false, Undo([], saved.owner, pending), true, handovers; }
      saved.owner.complete := true;
      return true, Undo([], saved.owner, []), true, handovers;
    }

    /** Run one section of a script: all of its patches, or none of them. `restored` tells that a
        failed run left memory as it found it; otherwise `undo` holds what is still to be put back.
        Only an activation joins the live scripts. */
    method Run(requests: seq<Request>, allocations: seq<Addr>, activation: bool) returns (success: bool, undo: Undo, ghost restored: bool)
      requires Struct() && Proposed(requests)
      modifies this`live, proc`mem, proc`freed, Owners()
      ensures Struct() && proc.mem.Keys == old(proc.mem.Keys)
      ensures success ==> && fresh(undo.owner) && !undo.owner.complete && undo.owner.overrides == []
                          && undo.allocations == allocations && Logs(undo.originals, requests)
                          && RunLog(old(proc.mem), proc.mem, undo.originals) && Landed(proc.mem, undo.originals)
                          && live == old(live) + (if requests == [] || !activation then [] else [LivePatch(undo.owner, RangesOf(undo.originals))])
      ensures !success ==> live == old(live)
      ensures !success && (restored || undo.originals == []) ==> proc.mem == old(proc.mem) && undo.originals == []
      ensures !success && !restored ==> && fresh(undo.owner) && !undo.owner.complete && undo.owner.overrides == []
                                        && undo.allocations == allocations && StillToUndo(old(proc.mem), proc.mem, undo.originals, requests)
      ensures proc.reliable ==> success || restored
      ensures if !success && restored then FreedBut(old(proc.freed), proc.freed, allocations, undo.allocations)
              else proc.freed == old(proc.freed)
      ensures success ==> AllReached(old(proc.mem), requests)
      ensures proc.reliable && AllReached(old(proc.mem), requests) ==> success
      ensures forall o: Ownership :: o in old(Owners()) ==> o.overrides == old(o.overrides) && o.complete == old(o.complete)
    {
      hide FreedBut, ByteLogged, AllMapped, Landed, RangesSized, StillToUndo, RunLog, LogsPart, AllReached, RangesOf, Original, Removed, SavedWhole;
      restored := false;
      var owner := new Ownership();
      var run, ok := PatchAll(requests);
      RunLogWhole(old(proc.mem), proc.mem, run.originals);
      if !ok {
        ghost var m := proc.mem;
        success, undo, restored := Rollback(run.originals, owner, allocations, old(proc.mem));
        AfterPartRollback(old(proc.mem), m, proc.mem, run.originals, requests);
        return;
      }
      undo := Undo(run.originals, owner, allocations);
      if activation && run.originals != [] { Join(owner, run.originals); }
      return true, undo, false;
    }

    /** The patches of a section, up to the first that fails. */
    method PatchAll(requests: seq<Request>) returns (run: Activation, ok: bool)
      requires Proposed(requests)
      modifies proc`mem
      ensures fresh(run) && run.proc == proc && run.before == old(proc.mem) && RunLog(old(proc.mem), proc.mem, run.originals)
      ensures proc.mem.Keys == old(proc.mem.Keys)
      ensures if ok then Landed(proc.mem, run.originals) && Logs(run.originals, requests) else LogsPart(run.originals, requests)
      ensures ok ==> AllReached(old(proc.mem), requests)
      ensures proc.reliable && AllReached(old(proc.mem), requests) ==> ok
    {
      hide ByteLogged, AllMapped, Landed, RunLog, Found, FullyWritten, LogsPart, AllReached, Mapped, RangesOf, Original, SavedWhole;
      NoneReached(proc.mem, requests);
      run := new Activation(proc);
      for i := 0 to |requests|
        invariant run.Valid() && run.before == old(proc.mem) && run.proc == proc && fresh(run)
        invariant Landed(proc.mem, run.originals) && Logs(run.originals, requests[..i])
        invariant proc.mem.Keys == old(proc.mem.Keys) && AllReached(old(proc.mem), requests[..i])
      {
        var q := requests[i];
        ghost var before, found := run.originals, proc.mem;
        ReachedNext(old(proc.mem), proc.mem, requests, i);
        var patched;
        ghost var tries;
        patched, tries := run.PatchMemory(q.address, q.bytes, q.executable, q.mutableData, q.foreign, q.lease);
        if patched { WrittenIsMapped(found, proc.mem, q.address, q.bytes); }
        LogsMore(before, run.originals, requests, i);
        RunLogWhole(old(proc.mem), proc.mem, run.originals);
        if !patched { return run, false; }
      }
      assert requests[..|requests|] == requests;
      return run, true;
    }

    /** A script that patched something joins the live ones as the newest. */
    method Join(owner: Ownership, log: seq<Saved>)
      requires Struct() && log != [] && AllSized(log) && owner !in Owners() && !owner.complete
      modifies this`live
      ensures Struct() && live == old(live) + [LivePatch(owner, RangesOf(log))]
    {
      EraseComplete();
      assert forall i :: 0 <= i < |live| ==> live[i].owner in Owners();
      live := live + [LivePatch(owner, RangesOf(log))];
    }

    /** Activate a script. */
    method Execute(requests: seq<Request>, allocations: seq<Addr>) returns (success: bool, undo: Undo, ghost restored: bool)
      requires Struct() && Proposed(requests)
      modifies this`live, proc`mem, proc`freed, Owners()
      ensures Struct() && proc.mem.Keys == old(proc.mem.Keys)
      ensures success ==> && fresh(undo.owner) && !undo.owner.complete && undo.owner.overrides == []
                          && undo.allocations == allocations && Logs(undo.originals, requests)
                          && RunLog(old(proc.mem), proc.mem, undo.originals) && Landed(proc.mem, undo.originals)
                          && live == old(live) + (if requests == [] then [] else [LivePatch(undo.owner, RangesOf(undo.originals))])
      ensures !success ==> live == old(live)
      ensures !success && restored ==> proc.mem == old(proc.mem)
      ensures !success && !restored ==> && fresh(undo.owner) && !undo.owner.complete && undo.owner.overrides == []
                                        && undo.allocations == allocations && StillToUndo(old(proc.mem), proc.mem, undo.originals, requests)
      ensures proc.reliable ==> success || restored
      ensures if !success && restored then FreedBut(old(proc.freed), proc.freed, allocations, undo.allocations)
              else proc.freed == old(proc.freed)
      ensures success ==> AllReached(old(proc.mem), requests)
      ensures proc.reliable && AllReached(old(proc.mem), requests) ==> success
      ensures forall o: Ownership :: o in old(Owners()) ==> o.overrides == old(o.overrides)
    {
      hide AllReached, FreedBut;
      success, undo, restored := Run(requests, allocations, true);
    }

    /** Run the script's [DISABLE] section: its writes stay, as overrides of what the script
        restores, unless it fails; then they are undone. */
    method RunDisableSection(saved: Undo, requests: seq<Request>) returns (refused: bool, sectionFailed: bool)
      requires Struct() && Proposed(requests) && AllSized(saved.originals) && !saved.owner.complete
      modifies this`live, proc`mem, proc`freed, saved.owner, Owners()
      ensures Struct() && live == old(live) && proc.mem.Keys == old(proc.mem.Keys) && !saved.owner.complete
      ensures !refused && sectionFailed ==> proc.mem == old(proc.mem) && saved.owner.overrides == old(saved.owner.overrides)
      ensures !refused && !sectionFailed ==>
                && (forall a: Addr :: a in proc.mem ==> proc.mem[a] == AfterWrites(old(proc.mem), requests, a))
                && (forall a: Addr :: Restores(saved.originals, saved.owner.overrides, a) ==
                      if Original(saved.originals, a).Some? && LastWrite(requests, a).Some? then LastWrite(requests, a)
                      else Restores(saved.originals, old(saved.owner.overrides), a))
      ensures !Owned(old(proc.mem), old(Effective(saved))) ==> refused && !sectionFailed
      ensures refused ==> && saved.owner.overrides == old(saved.owner.overrides) && (!sectionFailed ==> proc.mem == old(proc.mem))
                          && forall a: Addr :: a in proc.mem && proc.mem[a] != old(proc.mem[a]) ==> LastWrite(requests, a).Some?
      ensures proc.reliable && Owned(old(proc.mem), old(Effective(saved))) ==>
                !refused && (sectionFailed <==> !AllReached(old(proc.mem), requests))
      ensures !refused && Owned(old(proc.mem), old(Effective(saved))) ==> Owned(proc.mem, Effective(saved))
      ensures proc.freed == old(proc.freed)
    {
      hide Original, ByteLogged, AllMapped, Landed, RangesSized, Owned, Written, LastOverride, LastWrite, LogsPart, Applied, StillToUndo, Restores, AllReached;
      var view := WithOverrides(saved.originals, saved.owner.overrides);
      SizedApplied(saved.originals, saved.owner.overrides);
      var conflict := CodeOwnershipConflict(proc, view);
      if conflict { return true, false; }
      var success, section;
      ghost var restored;
      success, section, restored := Run(requests, [], false);
      FreedNone(old(proc.freed), proc.freed, [], section.allocations);
      if !success {
        if section.originals != [] {
          ChangedByWrites(old(proc.mem), proc.mem, section.originals, requests);
          return true, true;
        }
        return false, true;
      }
      ghost var before, log := saved.owner.overrides, section.originals;
      for i := 0 to |section.originals|
        invariant Struct() && live == old(live) && !saved.owner.complete && section.originals == log && proc.freed == old(proc.freed)
        invariant proc.mem.Keys == old(proc.mem.Keys) && RunLog(old(proc.mem), proc.mem, log) && Landed(proc.mem, log)
        invariant saved.owner.overrides == before + SectionOverrides(log[..i])
      {
        var write := section.originals[i];
        assert log[..i + 1][..i] == log[..i];
        saved.owner.overrides := saved.owner.overrides + [Override(write.address, write.written)];
      }
      assert log[..|log|] == log;
      forall a: Addr | a in proc.mem ensures proc.mem[a] == AfterWrites(old(proc.mem), requests, a) {
        RunWrites(old(proc.mem), proc.mem, log, requests, a);
      }
      forall a: Addr
        ensures Restores(saved.originals, saved.owner.overrides, a) ==
                if Original(saved.originals, a).Some? && LastWrite(requests, a).Some? then LastWrite(requests, a)
                else Restores(saved.originals, before, a)
      {
        SectionRestores(saved.originals, before, log, requests, a);
      }
      if Owned(old(proc.mem), view) { SectionKeepsOwned(saved.originals, before, old(proc.mem), proc.mem, log); }
      return false, false;
    }

    /** Disable a script that has a [DISABLE] section. When no newer live script wrote over it, a
        committed disable leaves each byte at the section's last write there, else at what the script
        restores, else alone; a failed section leaves the plain restore. Without `committed` the undo
        is kept, and only bytes that the section wrote or the script restores may have changed. */
    method DisableWithSection(saved: Undo, requests: seq<Request>)
      returns (success: bool, left: Undo, sectionFailed: bool, ghost committed: bool)
      requires Struct() && Proposed(requests) && AllSized(saved.originals) && !saved.owner.complete
      requires forall a: Addr :: Original(saved.originals, a).Some? ==>
                 forall i :: 0 <= i < |NewerThan(live, saved.owner)| ==> !InRanges(NewerThan(live, saved.owner)[i].ranges, a)
      modifies this`live, proc`mem, proc`freed, saved.owner, Owners()
      ensures Struct() && proc.mem.Keys == old(proc.mem.Keys)
      ensures committed ==> && live == Removed(old(live), saved.owner) && left.originals == []
                            && forall a: Addr :: a in proc.mem ==>
                                 proc.mem[a] == (var base := Restores(saved.originals, old(saved.owner.overrides), a);
                                                 if !sectionFailed && LastWrite(requests, a).Some? then LastWrite(requests, a).value
                                                 else if base.Some? then base.value else old(proc.mem)[a])
      ensures success ==> committed
      ensures committed && saved.allocations == [] ==> success
      ensures !committed ==> && left == saved && live == old(live)
                             && forall a: Addr :: a in proc.mem && proc.mem[a] != old(proc.mem)[a] ==>
                                  LastWrite(requests, a).Some? || Original(saved.originals, a).Some?
      ensures var log := old(Effective(saved));
              && (!Owned(old(proc.mem), log) ==> !committed && proc.mem == old(proc.mem) && saved.owner.overrides == old(saved.owner.overrides))
              && (if committed then FreedBut(old(proc.freed), proc.freed, saved.allocations, left.allocations) && (success ==> left.allocations == [])
                  else proc.freed == old(proc.freed))
              && (proc.reliable && Owned(old(proc.mem), log) ==> (sectionFailed <==> !AllReached(old(proc.mem), requests)))
              && (proc.reliable && Owned(old(proc.mem), log) && AllMapped(old(proc.mem), log) ==> success)
    {
      hide AllReached, FreedBut, Original, LastWrite, LastOverride, Passes, RangesSized, Distinct, IndexOf, Owned, Removed, LogsPart, RestoredExcept, HandedOn, Struct;
      ghost var before, newer := proc.mem, NewerThan(live, saved.owner);
      var refused;
      committed := false;
      refused, sectionFailed := RunDisableSection(saved, requests);
      if refused { return false, saved, sectionFailed, false; }
      ghost var middle, overrides := proc.mem, saved.owner.overrides;
      StillMapped(saved.originals, old(saved.owner.overrides), overrides, before, middle);
      ghost var hs;
      success, left, committed, hs := Cleanup(saved);
      forall a: Addr
        ensures Original(Applied(saved.originals, overrides), a) == Restores(saved.originals, overrides, a)
        ensures !Passes(Applied(saved.originals, overrides), newer, a) || Restores(saved.originals, overrides, a).None?
      {
        AppliedRestores(saved.originals, overrides, a);
        NotPassed(saved.originals, overrides, newer, a);
      }
      if committed { CommittedByte(proc.mem, middle, Applied(saved.originals, overrides), newer); }
    }

    /** Undo a partial activation. */
    method Rollback(originals: seq<Saved>, owner: Ownership, allocations: seq<Addr>, ghost before: Mem)
      returns (success: bool, undo: Undo, ghost restored: bool)
      requires Struct() && RunLog(before, proc.mem, originals)
      requires owner !in Owners() && !owner.complete && owner.overrides == []
      modifies this`live, proc`mem, proc`freed, owner, Owners()
      ensures Struct() && !success && live == old(live) && proc.mem.Keys == old(proc.mem.Keys)
      ensures restored || undo.originals == [] ==> proc.mem == before
      ensures if restored then undo.originals == [] else undo == Undo(originals, owner, allocations)
      ensures forall a: Addr :: a in proc.mem && proc.mem[a] != old(proc.mem[a]) ==> Original(originals, a).Some?
      ensures proc.reliable ==> restored
      ensures if restored then FreedBut(old(proc.freed), proc.freed, allocations, undo.allocations) else proc.freed == old(proc.freed)
      ensures !owner.complete || restored
      ensures owner.overrides == []
      ensures forall o: Ownership :: o in old(Owners()) ==> o.overrides == old(o.overrides) && o.complete == old(o.complete)
    {
      ghost var m := proc.mem;
      RunOwnsItsState(before, m, originals);
      NobodyNewer(live, owner, originals);
      var done, left;
      ghost var hs;
      done, left, restored, hs := Cleanup(Undo(originals, owner, allocations));
      assert old(Effective(Undo(originals, owner, allocations))) == originals && old(NewerThan(live, owner)) == [];
      if restored { NothingHanded(originals, hs); }
      forall o: Ownership | o in old(Owners()) ensures o.overrides == old(o.overrides) {
        assert o != owner;
        assert Given(hs, o) == [];
      }
      if restored {
        RollbackIsExact(before, m, proc.mem, originals);
      } else if originals == [] {
        assert forall a: Addr :: Original(originals, a).None?;
        forall a | a in proc.mem ensures proc.mem[a] == before[a] { assert ByteLogged(before, m, originals, a); }
      }
      return false, left, restored;
    }
  }

  /** The log records a first part of the requests. */
  ghost predicate LogsPart(log: seq<Saved>, requests: seq<Request>)
  {
    |log| <= |requests| && Logs(log, requests[..|log|])
  }

  lemma {:induction false} LogsMore(before: seq<Saved>, log: seq<Saved>, requests: seq<Request>, i: nat)
    requires i < |requests| && Logs(before, requests[..i])
    requires log == before || (|log| == i + 1 && log[..i] == before)
    requires log != before ==> var q := requests[i];
               log[i] == Saved(q.address, log[i].bytes, q.bytes, q.executable, q.lease, q.executable && !q.mutableData)
    ensures LogsPart(log, requests)
    ensures log != before ==> Logs(log, requests[..i + 1])
  {
    if log != before {
      forall j | 0 <= j < |log| ensures log[j] == if j < i then before[j] else log[i] {
        if j < i { assert log[..i][j] == before[j]; }
      }
    }
  }

  /** What a failed run and its part rollback leave: every byte that is not as before the run is one
      the undo puts back, and the undo has no other bytes than the run asked to write. */
  ghost predicate StillToUndo(before: Mem, m: Mem, log: seq<Saved>, requests: seq<Request>)
  {
    && AllSized(log) && SavedWhole(log) && LogsPart(log, requests) && m.Keys == before.Keys
    && (forall a: Addr :: a in m && Original(log, a).None? ==> m[a] == before[a])
    && (forall a: Addr :: Original(log, a).Some? ==> a in m && Original(log, a) == Some(before[a]) && LastWrite(requests, a).Some?)
  }

  lemma {:induction false} ChangedByWrites(before: Mem, m: Mem, log: seq<Saved>, requests: seq<Request>)
    requires StillToUndo(before, m, log, requests)
    ensures m.Keys == before.Keys && forall a: Addr :: a in m && m[a] != before[a] ==> LastWrite(requests, a).Some?
  {
    hide Original, LastWrite, LogsPart;
  }

  lemma {:induction false} RunLogWhole(before: Mem, m: Mem, log: seq<Saved>)
    requires RunLog(before, m, log)
    ensures AllSized(log) && SavedWhole(log) && m.Keys == before.Keys
  {
  }

  lemma {:induction false} AfterPartRollback(before: Mem, m: Mem, m': Mem, log: seq<Saved>, requests: seq<Request>)
    requires RunLog(before, m, log) && LogsPart(log, requests) && m'.Keys == m.Keys
    requires forall a: Addr :: a in m && m'[a] != m[a] ==> Original(log, a).Some?
    ensures StillToUndo(before, m', log, requests)
  {
    hide Original, LastWrite, Logs;
    forall a: Addr ensures Original(log, a).Some? ==> LastWrite(requests, a).Some? {
      LogsLastWrite(log, requests[..|log|], a);
      if Original(log, a).Some? { WrittenByMore(requests, |log|, a); }
    }
    forall a: Addr | a in m
      ensures Original(log, a).None? ==> m'[a] == before[a]
      ensures Original(log, a).Some? ==> Original(log, a) == Some(before[a])
    {
      assert ByteLogged(before, m, log, a);
    }
  }

  lemma {:induction false} WrittenByMore(requests: seq<Request>, n: nat, a: Addr)
    requires n <= |requests| && LastWrite(requests[..n], a).Some?
    ensures LastWrite(requests, a).Some?
  {
    if n < |requests| {
      assert requests[..|requests| - 1][..n] == requests[..n];
      WrittenByMore(requests[..|requests| - 1], n, a);
    } else {
      assert requests[..n] == requests;
    }
  }

  /** An applied override changes bytes, not patches. */
  lemma {:induction false} AppliedPatch(log: seq<Saved>, overrides: seq<Override>, i: nat, a: Addr)
    requires AllSized(log) && i < |log|
    ensures var p, q := log[i], Applied(log, overrides)[i];
            && q.address == p.address && |q.bytes| == |p.bytes| && q.written == p.written && q.lease == p.lease && q.verify == p.verify
            && (Covers(p, a) ==> q.bytes[a - p.address] == (if LastOverride(overrides, a).Some? then LastOverride(overrides, a).value
                                                            else p.bytes[a - p.address]))
  {
    if overrides != [] {
      var n := |overrides| - 1;
      AppliedPatch(log, overrides[..n], i, a);
      SizedApplied(log, overrides[..n]);
    }
  }

  /** What a [DISABLE] section wrote is no conflict: the script's own patches say it is theirs. */
  lemma {:induction false} SectionKeepsOwned(originals: seq<Saved>, overrides: seq<Override>, m: Mem, m': Mem, log: seq<Saved>)
    requires AllSized(originals) && Owned(m, Applied(originals, overrides))
    requires RunLog(m, m', log) && Landed(m', log)
    ensures Owned(m', Applied(originals, overrides + SectionOverrides(log)))
  {
    hide Original, Written, LastOverride, Applied, AllSized;
    var view, view' := Applied(originals, overrides), Applied(originals, overrides + SectionOverrides(log));
    forall i, a: Addr | 0 <= i < |view'| && Checked(view'[i]) && Covers(view'[i], a) ensures a in m' && Accepted(view', a, m'[a]) {
      AppliedPatch(originals, overrides, i, a);
      AppliedPatch(originals, overrides + SectionOverrides(log), i, a);
      assert Checked(view[i]) && Covers(view[i], a);
      AcceptedAfterSection(originals, overrides, m, m', log, i, a);
    }
  }

  lemma {:induction false} AcceptedAfterSection(originals: seq<Saved>, overrides: seq<Override>, m: Mem, m': Mem, log: seq<Saved>, i: nat, a: Addr)
    requires AllSized(originals) && RunLog(m, m', log) && Landed(m', log) && i < |originals|
    requires Hits(Applied(originals, overrides)[i], a) && a in m && Accepted(Applied(originals, overrides), a, m[a])
    ensures Accepted(Applied(originals, overrides + SectionOverrides(log)), a, m'[a])
  {
    hide Original, Written, LastOverride, Applied;
    var view, view' := Applied(originals, overrides), Applied(originals, overrides + SectionOverrides(log));
    SectionLast(overrides, log, a);
    assert ByteLogged(m, m', log, a);
    WrittenIsOriginal(log, a);
    if Written(log, a).Some? {
      AppliedPatch(originals, overrides, i, a);
      AppliedPatch(originals, overrides + SectionOverrides(log), i, a);
      assert AcceptedBy(view'[i], a, m'[a]);
    } else {
      var j :| 0 <= j < |view| && AcceptedBy(view[j], a, m[a]);
      AppliedPatch(originals, overrides, j, a);
      AppliedPatch(originals, overrides + SectionOverrides(log), j, a);
      assert AcceptedBy(view'[j], a, m'[a]);
    }
  }

  lemma {:induction false} WrittenIsOriginal(log: seq<Saved>, a: Addr)
    requires SavedWhole(log)
    ensures Written(log, a).Some? <==> Original(log, a).Some?
  {
    if log != [] { WrittenIsOriginal(log[..|log| - 1], a); }
  }

  lemma {:induction false} StillMapped(log: seq<Saved>, overrides: seq<Override>, overrides': seq<Override>, m: Mem, m': Mem)
    requires AllSized(log) && m.Keys == m'.Keys
    ensures AllMapped(m, Applied(log, overrides)) ==> AllMapped(m', Applied(log, overrides'))
  {
    hide Original, Applied, LastOverride;
    forall a: Addr
      ensures Original(Applied(log, overrides), a).Some? <==> Original(log, a).Some?
      ensures Original(Applied(log, overrides'), a).Some? <==> Original(log, a).Some?
    {
      AppliedRestores(log, overrides, a);
      AppliedRestores(log, overrides', a);
    }
  }

  /** A committed cleanup from which nothing passes to others. */
  lemma {:induction false} CommittedByte(m': Mem, m: Mem, log: seq<Saved>, newer: seq<LivePatch>)
    requires RestoredExcept(m', log, newer) && m'.Keys == m.Keys
    requires forall a: Addr :: a in m' && m'[a] != m[a] ==> Original(log, a).Some? && !Passes(log, newer, a)
    requires forall a: Addr :: Original(log, a).Some? ==> !Passes(log, newer, a)
    ensures forall a: Addr :: a in m' ==> m'[a] == if Original(log, a).Some? then Original(log, a).value else m[a]
  {
    hide Original, Passes;
  }

  /** Every byte that `newer` wrote over checked code of `older` is one that `older` knows. */
  ghost predicate KnownUnder(older: seq<Saved>, newer: seq<Saved>)
  {
    forall i, a: Addr :: 0 <= i < |older| && Checked(older[i]) && Covers(older[i], a) && Written(newer, a).Some? ==>
      Accepted(older, a, Written(newer, a).value)
  }

  /** A script that was enabled over the code of another: the older one still owns its code exactly
      when every byte that the newer one wrote over it is one the older one knows. Otherwise it cannot
      be disabled before the newer one is. */
  lemma {:induction false} OwnedUnderHook(older: seq<Saved>, before: Mem, m: Mem, newer: seq<Saved>)
    requires Owned(before, older) && RunLog(before, m, newer) && Landed(m, newer)
    ensures Owned(m, older) <==> KnownUnder(older, newer)
  {
    hide Accepted, Original, Written, Checked, Covers;
    forall a: Addr
      ensures Written(newer, a).Some? ==> a in m && m[a] == Written(newer, a).value
      ensures a in before && Written(newer, a).None? ==> a in m && m[a] == before[a]
    {
      WrittenIsOriginal(newer, a);
      if a in m { assert ByteLogged(before, m, newer, a); }
    }
    hide ByteLogged, Landed, RunLog;
    if Owned(m, older) {
      forall i, a: Addr | 0 <= i < |older| && Checked(older[i]) && Covers(older[i], a) && Written(newer, a).Some?
        ensures Accepted(older, a, Written(newer, a).value)
      {
        assert Accepted(older, a, m[a]);
      }
    }
    if KnownUnder(older, newer) {
      forall i, a: Addr | 0 <= i < |older| && Checked(older[i]) && Covers(older[i], a) ensures a in m && Accepted(older, a, m[a]) {
        assert Accepted(older, a, before[a]);
      }
    }
  }

  /** Nothing passes from a script that is not live. */
  lemma {:induction false} NobodyNewer(live: seq<LivePatch>, owner: Ownership, log: seq<Saved>)
    requires forall i :: 0 <= i < |live| ==> live[i].owner != owner
    ensures NewerThan(live, owner) == [] && Removed(live, owner) == live && Applied(log, []) == log
    ensures forall a: Addr :: !Passes(log, [], a)
  {
  }

  lemma {:induction false} NothingHanded(log: seq<Saved>, hs: seq<Handover>)
    requires HandedOn(log, [], hs)
    ensures hs == []
  {
    if hs != [] {
      assert Rightful(log, [], hs[0]);
      assert HandoverCovers(hs[0], hs[0].address);
    }
  }

  /** Every byte the log restores and that does not pass to a newer script has its restored value. */
  ghost predicate RestoredExcept(m: Mem, log: seq<Saved>, newer: seq<LivePatch>)
  {
    forall a: Addr :: Original(log, a).Some? && !Passes(log, newer, a) ==> a in m && Original(log, a) == Some(m[a])
  }

  /** The handovers take exactly the bytes that pass, each to its rightful receiver. */
  ghost predicate HandedOn(log: seq<Saved>, newer: seq<LivePatch>, hs: seq<Handover>)
  {
    AllRightful(log, newer, hs) && forall a: Addr :: SomeHandover(hs, a) <==> Passes(log, newer, a)
  }

  lemma {:induction false} NewerSized(live: seq<LivePatch>, owner: Ownership)
    requires forall i :: 0 <= i < |live| ==> RangesSized(live[i].ranges)
    ensures forall i :: 0 <= i < |NewerThan(live, owner)| ==> RangesSized(NewerThan(live, owner)[i].ranges)
  {
  }

  lemma {:induction false} RemovedKeeps(live: seq<LivePatch>, owner: Ownership)
    requires Distinct(live)
    ensures Distinct(Removed(live, owner))
    ensures forall x :: x in Removed(live, owner) ==> x in live && x.owner != owner
  {
    var k, r := IndexOf(live, owner), Removed(live, owner);
    forall i | 0 <= i < |r| ensures r[i] == live[if i < k then i else i + 1] {}
  }

  lemma {:induction false} SizedApplied(log: seq<Saved>, overrides: seq<Override>)
    requires AllSized(log)
    ensures AllSized(Applied(log, overrides))
  {
    hide Original;
    AppliedRestores(log, overrides, 0);
  }

  lemma {:induction false} ReceiversAreLive(live: seq<LivePatch>, owner: Ownership, log: seq<Saved>, hs: seq<Handover>)
    requires Distinct(live) && AllRightful(log, NewerThan(live, owner), hs)
    ensures forall i :: 0 <= i < |hs| ==> hs[i].to != owner && exists j :: 0 <= j < |live| && live[j].owner == hs[i].to
  {
    var newer, k := NewerThan(live, owner), IndexOf(live, owner);
    forall i | 0 <= i < |hs| ensures hs[i].to != owner && exists j :: 0 <= j < |live| && live[j].owner == hs[i].to {
      var h := hs[i];
      assert Rightful(log, newer, h);
      assert HandoverCovers(h, h.address);
      var j := FirstHolder(newer, h.address);
      assert newer[j] == live[k + 1 + j];
    }
  }
}
