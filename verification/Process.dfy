/** A target process: mapped memory whose reads and writes may fail, writes also part way. */
module Processes {
  import opened Memory

  ghost predicate Mapped(m: Mem, address: Addr, size: nat)
  {
    && address + size - 1 <= TOP
    && forall a: Addr :: Within(address, size, a) ==> a in m
  }

  class Process {
    var mem: Mem
    /** What was freed, in order. */
    ghost var freed: seq<Addr>
    /** Reads and writes of mapped memory never fail. */
    const reliable: bool

    constructor (mem: Mem, reliable: bool)
      ensures this.mem == mem && this.reliable == reliable && freed == []
    {
      this.mem, this.reliable, freed := mem, reliable, [];
    }

    method Read(address: Addr, size: nat) returns (r: Option<seq<Byte>>)
      ensures r.Some? ==> && Mapped(mem, address, size) && |r.value| == size
                          && forall a: Addr :: Within(address, size, a) ==> r.value[a - address] == mem[a]
      ensures reliable && Mapped(mem, address, size) ==> r.Some?
    {
      if address + size - 1 > TOP { return None; }
      if !reliable {
        var fails: bool := *;
        if fails { return None; }
      }
      var bytes: seq<Byte> := [];
      for i := 0 to size
        invariant |bytes| == i
        invariant forall a: Addr :: Within(address, i, a) ==> a in mem && bytes[a - address] == mem[a]
      {
        if address + i !in mem {
          assert Within(address, size, address + i);
          return None;
        }
        bytes := bytes + [mem[address + i]];
      }
      return Some(bytes);
    }

    method Write(address: Addr, bytes: seq<Byte>) returns (ok: bool)
      modifies this`mem
      ensures mem.Keys == old(mem.Keys)
      ensures forall a: Addr :: a in mem ==>
                mem[a] == old(mem[a]) || (Within(address, |bytes|, a) && mem[a] == bytes[a - address])
      ensures ok ==> && Mapped(mem, address, |bytes|)
                     && forall a: Addr :: Within(address, |bytes|, a) ==> mem[a] == bytes[a - address]
      ensures reliable && Mapped(old(mem), address, |bytes|) ==> ok
    {
      if address + |bytes| - 1 > TOP { return false; }
      var landed := |bytes|;
      if !reliable { landed :| 0 <= landed <= |bytes|; }
      for i := 0 to landed
        invariant mem.Keys == old(mem.Keys)
        invariant forall a: Addr :: Within(address, i, a) ==> a in mem && mem[a] == bytes[a - address]
        invariant forall a: Addr :: a in mem && !Within(address, i, a) ==> mem[a] == old(mem[a])
      {
        if address + i !in mem {
          assert Within(address, |bytes|, address + i);
          return false;
        }
        mem := mem[address + i := bytes[i]];
      }
      return landed == |bytes|;
    }

    /** Unmap an allocation; the bytes modelled here are outside of it. */
    method Free(allocation: Addr) returns (ok: bool)
      modifies this`freed
      ensures reliable ==> ok
      ensures freed == old(freed) + if ok then [allocation] else []
    {
      ok := true;
      if !reliable { ok := *; }
      if ok { freed := freed + [allocation]; }
    }
  }

  /** Every one of these allocations was freed since, or is left; and nothing else was freed. */
  ghost predicate FreedBut(before: seq<Addr>, after: seq<Addr>, allocations: seq<Addr>, left: seq<Addr>)
  {
    before <= after && multiset(allocations) == multiset(after[|before|..]) + multiset(left)
  }

  lemma {:induction false} FreedOne(before: seq<Addr>, now: seq<Addr>, after: seq<Addr>, allocations: seq<Addr>, left: seq<Addr>, a: Addr)
    requires FreedBut(before, now, allocations, left)
    requires after == now || after == now + [a]
    ensures FreedBut(before, after, allocations + [a], if after == now then left + [a] else left)
  {
    if after != now { assert after[|before|..] == now[|before|..] + [a]; }
  }

  lemma {:induction false} FreedNone(before: seq<Addr>, after: seq<Addr>, allocations: seq<Addr>, left: seq<Addr>)
    ensures FreedBut(before, before, [], [])
    ensures FreedBut(before, after, [], left) ==> after == before && left == []
  {
    if FreedBut(before, after, [], left) {
      assert |multiset(after[|before|..]) + multiset(left)| == 0;
      assert |multiset(after[|before|..])| == |after| - |before| && |multiset(left)| == |left|;
    }
  }
}
