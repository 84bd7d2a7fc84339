/**
  core/agent_tools.cpp: the process a script is tried on. Its writes and allocations are kept beside
  the real memory, which is only read; together they look like one flat memory.
 */
module DryRun {
  import opened Memory

  const STEP: int := 0x1_0000
  const ATTEMPTS: nat := 32768
  const DEFAULT_BASE: int := 0x1000_0000

  datatype Block = Block(base: int, bytes: seq<Byte>)
  datatype Region = Region(base: int, size: nat)

  /** The byte at `a` after the writes, which lie over `was`; the latest one is on top. */
  function Overlaid(writes: seq<Block>, a: int, was: Byte): Byte
  {
    if writes == [] then was
    else
      var w := writes[|writes| - 1];
      if Within(w.base, |w.bytes|, a) then w.bytes[a - w.base] else Overlaid(writes[..|writes| - 1], a, was)
  }

  /** The first block that holds all of the range. */
  function BlockAt(blocks: seq<Block>, address: int, size: nat): (r: Option<nat>)
    ensures r.Some? ==> r.value < |blocks| && Holds(blocks[r.value], address, size)
    ensures r.None? ==> forall i :: 0 <= i < |blocks| ==> !Holds(blocks[i], address, size)
  {
    if blocks == [] then None
    else
      var before := BlockAt(blocks[..|blocks| - 1], address, size);
      if before.Some? then before else if Holds(blocks[|blocks| - 1], address, size) then Some(|blocks| - 1) else None
  }

  predicate Holds(b: Block, address: int, size: nat) { b.base <= address && address + size <= b.base + |b.bytes| }

  /** A byte of a write is seen afterwards: one block holds the whole range, or the process has the byte. */
  predicate Lands(inner: map<int, Byte>, blocks: seq<Block>, address: int, size: nat, a: int)
  {
    Within(address, size, a) && (BlockAt(blocks, address, size).Some? || a in inner)
  }

  /** The write of `data` is a write of flat memory: one block holds the whole range, or the blocks have
      the same bytes there already. */
  ghost predicate LandsFlat(blocks: seq<Block>, address: int, data: seq<Byte>)
  {
    || BlockAt(blocks, address, |data|).Some?
    || forall i, a :: 0 <= i < |blocks| && Holds(blocks[i], a, 1) && Within(address, |data|, a) ==>
         blocks[i].bytes[a - blocks[i].base] == data[a - address]
  }

  /** A write over the edge of a block loses the byte that belongs in the block. */
  lemma {:induction false} LostAtTheEdge()
    ensures var blocks := [Block(0x1_0000, [0, 0])];
            && Apart(map[], [], blocks) && BlockAt(blocks, 0x1_0000, 1) == Some(0)
            && !Lands(map[], blocks, 0xFFFF, 2, 0x1_0000) && !LandsFlat(blocks, 0xFFFF, [1, 2])
  {
    var blocks := [Block(0x1_0000, [0, 0])];
    assert blocks[..0] == [];
    assert BlockAt(blocks, 0xFFFF, 2).None?;
    assert Holds(blocks[0], 0x1_0000, 1) && Within(0xFFFF, 2, 0x1_0000);
  }

  /** Ranges that are not empty overlap exactly when they share an address. */
  lemma {:induction false} OverlapShares(base: int, size: nat, otherBase: int, otherSize: nat)
    requires size > 0 && otherSize > 0
    ensures Overlap(base, size, otherBase, otherSize) <==> exists a :: Within(base, size, a) && Within(otherBase, otherSize, a)
  {
    if Overlap(base, size, otherBase, otherSize) {
      var a := Max(base, otherBase);
      assert Within(base, size, a) && Within(otherBase, otherSize, a);
    }
  }

  predicate Overlap(base: int, size: nat, otherBase: int, otherSize: nat)
  {
    base < otherBase + otherSize && otherBase < base + size
  }

  function Rounded(size: nat): nat { (size + STEP - 1) / STEP * STEP }

  function FirstCandidate(preferredBase: int): int
  {
    var base := if preferredBase != 0 then preferredBase else DEFAULT_BASE;
    base - base % STEP
  }

  /** Blocks lie apart from each other and from what is mapped. */
  ghost predicate Apart(inner: map<int, Byte>, regions: seq<Region>, blocks: seq<Block>)
  {
    && (forall a :: a in inner ==> exists r :: 0 <= r < |regions| && Within(regions[r].base, regions[r].size, a))
    && (forall i, a :: 0 <= i < |blocks| && Holds(blocks[i], a, 1) ==> a !in inner)
    && (forall i, j, a :: 0 <= i < j < |blocks| && Holds(blocks[i], a, 1) ==> !Holds(blocks[j], a, 1))
  }

  lemma {:induction false} ApartAdded(inner: map<int, Byte>, regions: seq<Region>, blocks: seq<Block>, b: Block)
    requires Apart(inner, regions, blocks)
    requires forall a :: Holds(b, a, 1) ==> a !in inner
    requires forall i, a :: 0 <= i < |blocks| && Holds(blocks[i], a, 1) ==> !Holds(b, a, 1)
    ensures Apart(inner, regions, blocks + [b])
  {
    hide Holds;
    var all := blocks + [b];
    forall i | 0 <= i < |blocks| ensures all[i] == blocks[i] {}
  }

  lemma {:induction false} StaysApart(inner: map<int, Byte>, regions: seq<Region>, blocks: seq<Block>, i: nat, b: Block)
    requires Apart(inner, regions, blocks) && i < |blocks| && b.base == blocks[i].base && |b.bytes| == |blocks[i].bytes|
    ensures Apart(inner, regions, blocks[i := b])
  {
    var all := blocks[i := b];
    forall k, a | 0 <= k < |blocks| ensures Holds(all[k], a, 1) <==> Holds(blocks[k], a, 1) {}
    hide Holds;
  }

  class DryRunProcess {
    const inner: map<int, Byte>
    const regions: seq<Region>
    var allocations: seq<Block>
    var writes: seq<Block>

    ghost predicate Valid()
      reads this
    {
      Apart(inner, regions, allocations)
    }

    /** The flat memory a script sees. */
    ghost function View(a: int): Option<Byte>
      reads this
    {
      var b := BlockAt(allocations, a, 1);
      if b.Some? then Some(allocations[b.value].bytes[a - allocations[b.value].base])
      else if a in inner then Some(Overlaid(writes, a, inner[a]))
      else None
    }

    /** What the real process shows, with the script's own writes over it. */
    ghost function Outside(a: int): Option<Byte>
      reads this
    {
      if a in inner then Some(Overlaid(writes, a, inner[a])) else None
    }

    lemma {:induction false} OutsideIsSeen(a: int)
      requires Valid() && a in inner
      ensures View(a) == Outside(a) && BlockAt(allocations, a, 1).None?
    {
      hide Overlaid;
    }

    constructor (inner: map<int, Byte>, regions: seq<Region>)
      requires forall a :: a in inner ==> exists r :: 0 <= r < |regions| && Within(regions[r].base, regions[r].size, a)
      ensures Valid() && forall a :: View(a) == if a in inner then Some(inner[a]) else None
    {
      this.inner, this.regions, allocations, writes := inner, regions, [], [];
    }

    /** A range within one block is read from there, all of it. Any other is read from the process with
        the script's writes over it, up to the first byte that the process does not have; so it stops
        short at a block that it runs into. What is read is what the script sees there. */
    method Read(address: int, size: nat) returns (data: seq<Byte>)
      requires Valid()
      ensures |data| <= size
      ensures forall i :: 0 <= i < |data| ==> View(address + i) == Some(data[i])
      ensures |data| < size <==> BlockAt(allocations, address, size).None? && exists a :: Within(address, size, a) && a !in inner
      ensures |data| < size ==> address + |data| !in inner
    {
      hide Overlaid, View;
      var block := BlockAt(allocations, address, size);
      if block.Some? {
        var b := allocations[block.value];
        data := b.bytes[address - b.base..address - b.base + size];
        forall i | 0 <= i < size ensures View(address + i) == Some(data[i]) { InBlock(address + i, block.value); }
        return;
      }
      data := [];
      while |data| < size && address + |data| in inner
        invariant |data| <= size
        invariant forall a :: Within(address, |data|, a) ==> a in inner && data[a - address] == inner[a]
      {
        data := data + [inner[address + |data|]];
      }
      ghost var raw := data;
      data := WithWrites(address, data);
      forall i | 0 <= i < |data| ensures View(address + i) == Some(data[i]) {
        var a := address + i;
        assert Within(address, size, a) && Within(address, |raw|, a);
        OutsideIsSeen(a);
      }
      if |data| < size { assert Within(address, size, address + |data|); }
    }

    /** The script's own writes laid over what the process has. */
    method WithWrites(address: int, bytes: seq<Byte>) returns (data: seq<Byte>)
      ensures |data| == |bytes|
      ensures forall a :: Within(address, |data|, a) ==> data[a - address] == Overlaid(writes, a, bytes[a - address])
    {
      data := bytes;
      for w := 0 to |writes|
        invariant |data| == |bytes|
        invariant forall a :: Within(address, |data|, a) ==> data[a - address] == Overlaid(writes[..w], a, bytes[a - address])
      {
        ghost var before := data;
        var top := writes[w];
        assert writes[..w + 1][..w] == writes[..w];
        for i := 0 to |top.bytes|
          invariant |data| == |bytes|
          invariant forall a :: Within(address, |data|, a) ==>
            data[a - address] == if Within(top.base, i, a) then top.bytes[a - top.base] else before[a - address]
        {
          var at := top.base + i;
          if at >= address && at < address + |data| { data := data[at - address := top.bytes[i]]; }
        }
      }
      assert writes[..|writes|] == writes;
    }

    /** The script sees what it wrote in a range within one block, and in any other range at the bytes of
        the process; nothing else changes. So bytes that such a range has in a block are lost. */
    method Write(address: int, data: seq<Byte>)
      requires Valid()
      modifies this
      ensures Valid()
      ensures forall a :: View(a) == if Lands(inner, old(allocations), address, |data|, a) then Some(data[a - address]) else old(View(a))
      ensures LandsFlat(old(allocations), address, data) <==>
              forall a :: View(a) == if Within(address, |data|, a) && old(View(a)).Some? then Some(data[a - address]) else old(View(a))
    {
      hide View, Overlaid, BlockAt, Apart;
      var block := BlockAt(allocations, address, |data|);
      if block.Some? {
        var b := allocations[block.value];
        var at := address - b.base;
        forall a | Holds(b, a, 1) ensures View(a) == Some(b.bytes[a - b.base]) { InBlock(a, block.value); }
        ReplaceBlock(block.value, b.bytes[..at] + data + b.bytes[at + |data|..]);
      } else {
        forall i, a | 0 <= i < |allocations| && Holds(allocations[i], a, 1)
          ensures a !in inner && View(a) == Some(allocations[i].bytes[a - allocations[i].base])
        {
          InBlock(a, i);
          if a in inner { OutsideIsSeen(a); }
        }
        forall a | a in inner ensures View(a).Some? { OutsideIsSeen(a); }
        forall a | View(a).Some? && a !in inner ensures exists i :: 0 <= i < |allocations| && Holds(allocations[i], a, 1) { SeenInBlock(a); }
        AddWrite(Block(address, data));
        if LandsFlat(allocations, address, data) {
          forall a | Within(address, |data|, a) && old(View(a)).Some? && a !in inner ensures old(View(a)) == Some(data[a - address]) {
            var i :| 0 <= i < |allocations| && Holds(allocations[i], a, 1);
          }
        } else {
          var i, a :| 0 <= i < |allocations| && Holds(allocations[i], a, 1) && Within(address, |data|, a)
            && allocations[i].bytes[a - allocations[i].base] != data[a - address];
          assert View(a) == old(View(a)) == Some(allocations[i].bytes[a - allocations[i].base]);
        }
      }
    }

    lemma {:induction false} SeenInBlock(a: int)
      requires View(a).Some? && a !in inner
      ensures exists i :: 0 <= i < |allocations| && Holds(allocations[i], a, 1)
    {
      var b := BlockAt(allocations, a, 1);
      assert Holds(allocations[b.value], a, 1);
    }

    /** A write beside the process. */
    method AddWrite(w: Block)
      requires Valid()
      modifies `writes
      ensures Valid()
      ensures forall a :: View(a) == if Within(w.base, |w.bytes|, a) && a in inner then Some(w.bytes[a - w.base]) else old(View(a))
    {
      forall a | a in inner ensures BlockAt(allocations, a, 1).None? { OutsideIsSeen(a); }
      hide BlockAt;
      writes := writes + [w];
      assert writes[..|writes| - 1] == old(writes);
    }

    /** Other bytes in a block. */
    method ReplaceBlock(i: nat, bytes: seq<Byte>)
      requires Valid() && i < |allocations| && |bytes| == |allocations[i].bytes|
      modifies `allocations
      ensures Valid()
      ensures forall a :: View(a) == if Holds(old(allocations[i]), a, 1) then Some(bytes[a - old(allocations[i].base)]) else old(View(a))
    {
      ghost var b := allocations[i];
      forall a ensures Holds(b, a, 1) ==> BlockAt(allocations, a, 1) == Some(i) {
        if Holds(b, a, 1) { InBlock(a, i); }
      }
      StaysApart(inner, regions, allocations, i, Block(b.base, bytes));
      hide BlockAt, Overlaid, Apart;
      allocations := allocations[i := Block(allocations[i].base, bytes)];
      forall a ensures BlockAt(allocations, a, 1) == BlockAt(old(allocations), a, 1) {
        SameBlocks(old(allocations), allocations, a);
      }
    }

    predicate IsFree(base: int, size: nat)
      reads this
    {
      && (forall r :: 0 <= r < |regions| ==> !Overlap(base, size, regions[r].base, regions[r].size))
      && (forall i :: 0 <= i < |allocations| ==> !Overlap(base, size, allocations[i].base, |allocations[i].bytes|))
    }

    /** The `n`th candidate is free. */
    predicate FreeAt(first: int, n: nat, room: nat)
      reads this
    {
      IsFree(first + n * 0x1_0000, room)
    }

    ghost predicate FirstFree(first: int, n: nat, room: nat, spot: int)
      reads this
    {
      && spot == first + n * 0x1_0000 && IsFree(spot, room)
      && forall m :: 0 <= m < n ==> !FreeAt(first, m, room)
    }

    /** A free spot of `room` bytes, which are whole steps of 64 KiB and enough, at one of the first
        32768 steps from the one, `lowest`, that the preferred address is in; the first such spot. It
        reads as zeros, and nothing else the script sees changes. */
    method Allocate(size: nat, preferredBase: int) returns (spot: Option<int>, ghost lowest: int, ghost room: nat)
      requires Valid()
      modifies this
      ensures Valid()
      ensures room % 0x1_0000 == 0 && size <= room < size + 0x1_0000
      ensures lowest % 0x1_0000 == 0
      ensures lowest <= (if preferredBase != 0 then preferredBase else 0x1000_0000) < lowest + 0x1_0000
      ensures spot.None? ==> forall n :: 0 <= n < 32768 ==> !old(FreeAt(lowest, n, room))
      ensures spot.Some? ==> exists n: nat :: n < 32768 && old(FirstFree(lowest, n, room, spot.value))
      ensures forall a :: View(a) == if spot.Some? && Within(spot.value, room, a) then Some(0) else old(View(a))
      ensures spot.Some? ==> forall a :: Within(spot.value, room, a) ==> old(View(a)) == None
    {
      var candidate, rounded := FirstCandidate(preferredBase), Rounded(size);
      lowest, room := candidate, rounded;
      for attempt := 0 to ATTEMPTS
        invariant candidate == lowest + attempt * 0x1_0000
        invariant forall m :: 0 <= m < attempt ==> !FreeAt(lowest, m, room)
        invariant unchanged(this)
      {
        assert IsFree(candidate, rounded) == FreeAt(lowest, attempt, room);
        if IsFree(candidate, rounded) {
          assert FirstFree(lowest, attempt, room, candidate);
          AddBlock(Block(candidate, seq(rounded, i => 0)));
          return Some(candidate), lowest, room;
        }
        candidate := candidate + STEP;
      }
      return None, lowest, room;
    }

    method AddBlock(b: Block)
      requires Valid() && IsFree(b.base, |b.bytes|)
      modifies this
      ensures Valid()
      ensures forall a :: View(a) == if Holds(b, a, 1) then Some(b.bytes[a - b.base]) else old(View(a))
      ensures forall a :: Holds(b, a, 1) ==> old(View(a)) == None
    {
      FreeIsUnseen(b);
      forall a ensures BlockAt(allocations + [b], a, 1)
        == if BlockAt(allocations, a, 1).None? && Holds(b, a, 1) then Some(|allocations|) else BlockAt(allocations, a, 1)
      {
        BlockAdded(allocations, b, a);
      }
      ApartAdded(inner, regions, allocations, b);
      hide IsFree, BlockAt, Overlaid, Apart;
      allocations := allocations + [b];
    }

    lemma {:induction false} FreeIsUnseen(b: Block)
      requires Valid() && IsFree(b.base, |b.bytes|)
      ensures forall a :: Holds(b, a, 1) ==> a !in inner && BlockAt(allocations, a, 1).None?
      ensures forall i, a :: 0 <= i < |allocations| && Holds(allocations[i], a, 1) ==> !Holds(b, a, 1)
    {
    }

    lemma {:induction false} InBlock(a: int, i: nat)
      requires Valid() && i < |allocations| && Holds(allocations[i], a, 1)
      ensures BlockAt(allocations, a, 1) == Some(i) && View(a) == Some(allocations[i].bytes[a - allocations[i].base])
    {
    }
  }

  lemma {:induction false} BlockAdded(blocks: seq<Block>, b: Block, a: int)
    ensures BlockAt(blocks + [b], a, 1) == if BlockAt(blocks, a, 1).None? && Holds(b, a, 1) then Some(|blocks|) else BlockAt(blocks, a, 1)
  {
    assert (blocks + [b])[..|blocks|] == blocks;
  }

  lemma {:induction false} SameBlocks(x: seq<Block>, y: seq<Block>, a: int)
    requires |x| == |y| && forall i :: 0 <= i < |x| ==> x[i].base == y[i].base && |x[i].bytes| == |y[i].bytes|
    ensures BlockAt(x, a, 1) == BlockAt(y, a, 1)
  {
    if x != [] { SameBlocks(x[..|x| - 1], y[..|y| - 1], a); }
  }
}
