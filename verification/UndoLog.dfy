/**
  Saved originals of one auto-assembler script (core/autoasm.cpp): what a log of overlapping
  patches restores, how overrides change that, and how ranges leave it.
 */
module UndoLog {
  import opened Memory

  /** Lease of the allocation a patch lies in, if any; a released one is never written again. */
  datatype Lease = NoLease | Held | Released

  datatype Saved = Saved(address: Addr, bytes: seq<Byte>, written: seq<Byte>, executable: bool, lease: Lease, verify: bool)

  datatype Override = Override(address: Addr, bytes: seq<Byte>)

  /** Where a patch lies. */
  datatype Range = Range(address: Addr, size: nat)

  predicate InRange(r: Range, a: Addr) { r.address <= a < r.address + r.size }

  predicate Sized(p: Saved) { p.bytes == [] || |p.bytes| - 1 <= TOP - p.address }
  predicate AllSized(log: seq<Saved>) { forall i :: 0 <= i < |log| ==> Sized(log[i]) }
  predicate Covers(p: Saved, a: Addr) { p.address <= a < p.address + |p.bytes| }

  /** The patch restores `a`. */
  predicate Hits(p: Saved, a: Addr) { !p.lease.Released? && Covers(p, a) }

  function RangesOf(log: seq<Saved>): (r: seq<Range>)
    ensures |r| == |log|
  {
    seq(|log|, i requires 0 <= i < |log| => Range(log[i].address, |log[i].bytes|))
  }

  /** What the whole log restores at `a`: the earliest patch over it decides. */
  function Original(log: seq<Saved>, a: Addr): Option<Byte>
  {
    if log == [] then None
    else
      var before := Original(log[..|log| - 1], a);
      var p := log[|log| - 1];
      if before.Some? then before else if Hits(p, a) then Some(p.bytes[a - p.address]) else None
  }

  /** The patch restores `v` at `a`. */
  predicate SavedBy(p: Saved, a: Addr, v: Byte) { Hits(p, a) && p.bytes[a - p.address] == v }

  /** `v` is one of the values that the log has for `a`. */
  ghost predicate SavedAt(log: seq<Saved>, a: Addr, v: Byte) { exists i :: 0 <= i < |log| && SavedBy(log[i], a, v) }

  /** What the script's last write over `a` put there. */
  function Written(log: seq<Saved>, a: Addr): Option<Byte>
  {
    if log == [] then None
    else
      var p := log[|log| - 1];
      if Covers(p, a) && |p.written| == |p.bytes| then Some(p.written[a - p.address]) else Written(log[..|log| - 1], a)
  }

  lemma {:induction false} OriginalHead(log: seq<Saved>, a: Addr)
    requires log != []
    ensures Original(log, a) == if Hits(log[0], a) then Some(log[0].bytes[a - log[0].address]) else Original(log[1..], a)
  {
    var n := |log| - 1;
    if n > 0 {
      OriginalHead(log[..n], a);
      assert log[..n][1..] == log[1..][..n - 1];
    } else {
      assert log[..0] == [] && log[1..] == [];
    }
  }

  lemma {:induction false} OriginalIsSome(log: seq<Saved>, a: Addr)
    ensures Original(log, a).Some? <==> exists i :: 0 <= i < |log| && Hits(log[i], a)
  {
    if log != [] {
      var n := |log| - 1;
      OriginalIsSome(log[..n], a);
      if Original(log[..n], a).Some? {
        var i :| 0 <= i < n && Hits(log[..n][i], a);
        assert Hits(log[i], a);
      }
      forall i | 0 <= i < |log| && Hits(log[i], a) ensures Original(log, a).Some? {
        assert i < n ==> log[..n][i] == log[i];
      }
    }
  }

  lemma {:induction false} OriginalConcat(x: seq<Saved>, y: seq<Saved>, a: Addr)
    ensures Original(x + y, a) == if Original(x, a).Some? then Original(x, a) else Original(y, a)
  {
    if y == [] {
      assert x + y == x;
    } else {
      OriginalConcat(x, y[..|y| - 1], a);
      assert (x + y)[..|x + y| - 1] == x + y[..|y| - 1];
    }
  }

  // -------------------------------------------------------------- overrides

  predicate OverrideSized(o: Override) { o.bytes != [] && |o.bytes| - 1 <= TOP - o.address }
  predicate OverrideCovers(o: Override, a: Addr) { OverrideSized(o) && o.address <= a < o.address + |o.bytes| }

  function OverriddenPatch(p: Saved, o: Override): Saved
  {
    if p.bytes == [] || !Sized(p) then p
    else p.(bytes := seq(|p.bytes|, i requires 0 <= i < |p.bytes| =>
              if OverrideCovers(o, p.address + i) then o.bytes[p.address + i - o.address] else p.bytes[i]))
  }

  function Overridden(log: seq<Saved>, o: Override): (r: seq<Saved>)
    ensures |r| == |log|
  {
    if !OverrideSized(o) then log else seq(|log|, i requires 0 <= i < |log| => OverriddenPatch(log[i], o))
  }

  /** The log under one more override: each saved range that overlaps it gets the overlap copied in,
      whoever wrote it and in whatever order. */
  method OverrideOriginals(originals: seq<Saved>, address: Addr, bytes: seq<Byte>) returns (r: seq<Saved>)
    ensures r == Overridden(originals, Override(address, bytes))
  {
    hide OverriddenPatch, Splice, Max, Min;
    if bytes == [] || |bytes| - 1 > TOP - address { return originals; }
    var last := address + (|bytes| - 1);
    r := originals;
    for i := 0 to |originals|
      invariant |r| == |originals|
      invariant forall j :: 0 <= j < i ==> r[j] == OverriddenPatch(originals[j], Override(address, bytes))
      invariant forall j :: i <= j < |r| ==> r[j] == originals[j]
    {
      var p := originals[i];
      LaidOver(p, Override(address, bytes));
      if p.bytes == [] || |p.bytes| - 1 > TOP - p.address { continue; }
      var lo := Max(address, p.address);
      var hi := Min(last, p.address + (|p.bytes| - 1));
      if lo <= hi { r := r[i := p.(bytes := Splice(p.bytes, lo - p.address, bytes[lo - address..hi - address + 1]))]; }
    }
  }

  /** Copying in the overlap of a patch and an override. */
  lemma {:induction false} LaidOver(p: Saved, o: Override)
    requires OverrideSized(o)
    ensures p.bytes == [] || !Sized(p) ==> OverriddenPatch(p, o) == p
    ensures p.bytes != [] && Sized(p) ==>
              var lo, hi := Max(o.address, p.address), Min(o.address + |o.bytes| - 1, p.address + |p.bytes| - 1);
              && (lo <= hi ==> p.address <= lo && hi < p.address + |p.bytes| && o.address <= lo && hi < o.address + |o.bytes|)
              && OverriddenPatch(p, o) ==
                 if lo > hi then p else p.(bytes := Splice(p.bytes, lo - p.address, o.bytes[lo - o.address..hi - o.address + 1]))
  {
    hide OverriddenPatch, Splice;
    if p.bytes == [] || !Sized(p) {
      NotLaidOver(p, o);
    } else {
      var lo, hi := Max(o.address, p.address), Min(o.address + |o.bytes| - 1, p.address + |p.bytes| - 1);
      if lo <= hi {
        SplicedIsOverridden(p, o, lo, hi, Splice(p.bytes, lo - p.address, o.bytes[lo - o.address..hi - o.address + 1]));
      } else {
        SplicedIsOverridden(p, o, lo, hi, p.bytes);
      }
    }
  }

  lemma {:induction false} NotLaidOver(p: Saved, o: Override)
    requires p.bytes == [] || !Sized(p)
    ensures OverriddenPatch(p, o) == p
  {
  }

  lemma {:induction false} SplicedIsOverridden(p: Saved, o: Override, lo: int, hi: int, bytes: seq<Byte>)
    requires p.bytes != [] && Sized(p) && OverrideSized(o) && |bytes| == |p.bytes|
    requires lo == Max(o.address, p.address) && hi == Min(o.address + |o.bytes| - 1, p.address + |p.bytes| - 1)
    requires forall i :: 0 <= i < |bytes| ==>
               bytes[i] == if lo <= p.address + i <= hi then o.bytes[p.address + i - o.address] else p.bytes[i]
    ensures OverriddenPatch(p, o) == p.(bytes := bytes)
  {
    var q := OverriddenPatch(p, o);
    forall i | 0 <= i < |bytes| ensures q.bytes[i] == bytes[i] {
      assert OverrideCovers(o, p.address + i) <==> lo <= p.address + i <= hi;
    }
  }

  /** `dst` with `src` copied over it at `at`. */
  function Splice(dst: seq<Byte>, at: nat, src: seq<Byte>): (r: seq<Byte>)
    requires at + |src| <= |dst|
    ensures |r| == |dst|
    ensures forall i :: 0 <= i < |dst| ==> r[i] == if at <= i < at + |src| then src[i - at] else dst[i]
  {
    dst[..at] + src + dst[at + |src|..]
  }

  /** Overrides applied in order. */
  function Applied(log: seq<Saved>, overrides: seq<Override>): (r: seq<Saved>)
    ensures |r| == |log|
  {
    if overrides == [] then log
    else Overridden(Applied(log, overrides[..|overrides| - 1]), overrides[|overrides| - 1])
  }

  function LastOverride(overrides: seq<Override>, a: Addr): Option<Byte>
  {
    if overrides == [] then None
    else
      var o := overrides[|overrides| - 1];
      if OverrideCovers(o, a) then Some(o.bytes[a - o.address]) else LastOverride(overrides[..|overrides| - 1], a)
  }

  /** What a script restores at `a`: its last override there, else its own original. */
  function Restores(log: seq<Saved>, overrides: seq<Override>, a: Addr): Option<Byte>
  {
    if Original(log, a).None? then None
    else if LastOverride(overrides, a).Some? then LastOverride(overrides, a) else Original(log, a)
  }

  lemma {:induction false} OverriddenOriginal(log: seq<Saved>, o: Override, a: Addr)
    requires AllSized(log)
    ensures AllSized(Overridden(log, o))
    ensures Original(Overridden(log, o), a) ==
            if Original(log, a).Some? && OverrideCovers(o, a) then Some(o.bytes[a - o.address]) else Original(log, a)
  {
    hide OverriddenPatch, OverrideCovers, Hits;
    if log != [] && OverrideSized(o) {
      var n := |log| - 1;
      PatchOverridden(log[n], o, a);
      OverriddenOriginal(log[..n], o, a);
      assert Overridden(log, o)[..n] == Overridden(log[..n], o);
    }
    if !OverrideSized(o) { assert !OverrideCovers(o, a) by { NotSized(o, a); } }
  }

  lemma {:induction false} NotSized(o: Override, a: Addr)
    requires !OverrideSized(o)
    ensures !OverrideCovers(o, a)
  {
  }

  lemma {:induction false} PatchOverridden(p: Saved, o: Override, a: Addr)
    requires Sized(p)
    ensures var q := OverriddenPatch(p, o);
            && Sized(q) && q.address == p.address && |q.bytes| == |p.bytes| && (Hits(q, a) <==> Hits(p, a))
            && (Hits(p, a) ==> 0 <= a - p.address < |p.bytes|)
            && (Hits(p, a) ==> q.bytes[a - p.address] == if OverrideCovers(o, a) then o.bytes[a - o.address] else p.bytes[a - p.address])
  {
  }

  /** The last override wins. */
  lemma {:induction false} AppliedRestores(log: seq<Saved>, overrides: seq<Override>, a: Addr)
    requires AllSized(log)
    ensures AllSized(Applied(log, overrides))
    ensures Original(Applied(log, overrides), a) == Restores(log, overrides, a)
  {
    if overrides != [] {
      var n := |overrides| - 1;
      AppliedRestores(log, overrides[..n], a);
      OverriddenOriginal(Applied(log, overrides[..n]), overrides[n], a);
    }
  }

  // ----------------------------------------------------------------- ranges

  function Piece(p: Saved, from: Addr, to: Addr): Saved
    requires p.address <= from <= to < p.address + |p.bytes|
  {
    var offset, count := from - p.address, to - from + 1;
    Saved(from, p.bytes[offset..offset + count],
          if |p.written| == |p.bytes| then p.written[offset..offset + count] else [],
          p.executable, p.lease, p.verify)
  }

  /** What is left of a patch without [first, last]. */
  function Pieces(p: Saved, first: Addr, last: Addr): seq<Saved>
    requires Sized(p)
  {
    var end := p.address + |p.bytes| - 1;
    if p.bytes == [] || last < p.address || first > end then [p]
    else
      (if first > p.address then [Piece(p, p.address, first - 1)] else []) +
      (if last < end then [Piece(p, last + 1, end)] else [])
  }

  function Dropped(log: seq<Saved>, first: Addr, last: Addr): seq<Saved>
    requires AllSized(log)
  {
    if log == [] then [] else Dropped(log[..|log| - 1], first, last) + Pieces(log[|log| - 1], first, last)
  }

  lemma {:induction false} DroppedNext(log: seq<Saved>, i: nat, first: Addr, last: Addr)
    requires AllSized(log) && i < |log|
    ensures Dropped(log[..i + 1], first, last) == Dropped(log[..i], first, last) + Pieces(log[i], first, last)
  {
    assert log[..i + 1][..i] == log[..i];
  }

  /** The pieces of the whole log outside [first, last], in order. */
  method DropRange(originals: seq<Saved>, first: Addr, last: Addr) returns (kept: seq<Saved>)
    requires AllSized(originals) && first <= last
    ensures kept == Dropped(originals, first, last)
  {
    hide Dropped, Piece;
    DroppedNone(originals, first, last);
    kept := [];
    for i := 0 to |originals|
      invariant kept == Dropped(originals[..i], first, last)
    {
      DroppedNext(originals, i, first, last);
      var p := originals[i];
      var end := if p.bytes == [] then p.address else p.address + (|p.bytes| - 1);
      if p.bytes == [] || last < p.address || first > end {
        kept := kept + [p];
        continue;
      }
      ghost var before := kept;
      if first > p.address { kept := kept + [Piece(p, p.address, first - 1)]; }
      if last < end { kept := kept + [Piece(p, last + 1, end)]; }
      assert kept == before + Pieces(p, first, last);
    }
    assert originals[..|originals|] == originals;
  }

  lemma {:induction false} DroppedNone(log: seq<Saved>, first: Addr, last: Addr)
    requires AllSized(log)
    ensures Dropped(log[..0], first, last) == []
  {
  }

  lemma {:induction false} PiecesOriginal(p: Saved, first: Addr, last: Addr, a: Addr)
    requires Sized(p) && first <= last
    ensures AllSized(Pieces(p, first, last))
    ensures Original(Pieces(p, first, last), a) ==
            if Hits(p, a) && !(first <= a <= last) then Some(p.bytes[a - p.address]) else None
    ensures forall q :: q in Pieces(p, first, last) ==> q.verify == p.verify && q.lease == p.lease
  {
    hide Original, Piece, Hits;
    var end := p.address + |p.bytes| - 1;
    if p.bytes == [] || last < p.address || first > end {
      OriginalOfOne(p, a);
      OutsideHits(p, first, last, a);
    } else {
      var left := if first > p.address then [Piece(p, p.address, first - 1)] else [];
      var right := if last < end then [Piece(p, last + 1, end)] else [];
      OriginalOfNone(a);
      if first > p.address { PieceOriginal(p, p.address, first - 1, a); }
      if last < end { PieceOriginal(p, last + 1, end, a); }
      OriginalConcat(left, right, a);
      OutsideHits(p, first, last, a);
    }
  }

  lemma {:induction false} OriginalOfOne(p: Saved, a: Addr)
    ensures Original([p], a) == if Hits(p, a) then Some(p.bytes[a - p.address]) else None
  {
    assert [p][..0] == [];
  }

  lemma {:induction false} OriginalOfNone(a: Addr)
    ensures Original([], a) == None
  {
  }

  lemma {:induction false} OutsideHits(p: Saved, first: Addr, last: Addr, a: Addr)
    requires Sized(p)
    ensures Hits(p, a) ==> !p.lease.Released? && p.address <= a < p.address + |p.bytes|
    ensures p.address <= a < p.address + |p.bytes| && !p.lease.Released? ==> Hits(p, a)
  {
  }

  lemma {:induction false} PieceOriginal(p: Saved, from: Addr, to: Addr, a: Addr)
    requires Sized(p) && p.address <= from <= to < p.address + |p.bytes|
    ensures Sized(Piece(p, from, to)) && Piece(p, from, to).verify == p.verify && Piece(p, from, to).lease == p.lease
    ensures Original([Piece(p, from, to)], a) == if Hits(p, a) && from <= a <= to then Some(p.bytes[a - p.address]) else None
  {
    OriginalOfOne(Piece(p, from, to), a);
  }

  /** A dropped range is restored by nothing; the rest is restored as before. */
  lemma {:induction false} DroppedOriginal(log: seq<Saved>, first: Addr, last: Addr, a: Addr)
    requires AllSized(log) && first <= last
    ensures AllSized(Dropped(log, first, last))
    ensures Original(Dropped(log, first, last), a) == if first <= a <= last then None else Original(log, a)
  {
    if log != [] {
      var n := |log| - 1;
      DroppedOriginal(log[..n], first, last, a);
      PiecesOriginal(log[n], first, last, a);
      OriginalConcat(Dropped(log[..n], first, last), Pieces(log[n], first, last), a);
    }
  }

  /** The pieces have no values that the whole did not have. */
  lemma {:induction false} DroppedSaved(log: seq<Saved>, first: Addr, last: Addr, a: Addr, v: Byte)
    requires AllSized(log) && first <= last && SavedAt(Dropped(log, first, last), a, v)
    ensures SavedAt(log, a, v)
  {
    var n := |log| - 1;
    var before, pieces := Dropped(log[..n], first, last), Pieces(log[n], first, last);
    var i :| 0 <= i < |Dropped(log, first, last)| && SavedBy(Dropped(log, first, last)[i], a, v);
    if i < |before| {
      assert SavedBy(before[i], a, v);
      DroppedSaved(log[..n], first, last, a, v);
      var k :| 0 <= k < n && SavedBy(log[..n][k], a, v);
      assert SavedBy(log[k], a, v);
    } else {
      PieceSaved(log[n], first, last, i - |before|, a, v);
    }
  }

  lemma {:induction false} PieceSaved(p: Saved, first: Addr, last: Addr, i: nat, a: Addr, v: Byte)
    requires Sized(p) && first <= last && i < |Pieces(p, first, last)| && SavedBy(Pieces(p, first, last)[i], a, v)
    ensures SavedBy(p, a, v)
  {
    hide Piece, SavedBy;
    var q, end := Pieces(p, first, last)[i], p.address + |p.bytes| - 1;
    if q != p {
      if first > p.address && first <= end && q == Piece(p, p.address, first - 1) {
        SavedInPiece(p, p.address, first - 1, a, v);
      } else {
        SavedInPiece(p, last + 1, end, a, v);
      }
    }
  }

  lemma {:induction false} SavedInPiece(p: Saved, from: Addr, to: Addr, a: Addr, v: Byte)
    requires p.address <= from <= to < p.address + |p.bytes| && SavedBy(Piece(p, from, to), a, v)
    ensures SavedBy(p, a, v)
  {
  }

  // ------------------------------------------------------- the same in plain terms

  /** The first patch over `a` whose allocation still stands decides what is restored there. */
  lemma {:induction false} FirstDecides(log: seq<Saved>, i: nat, a: Addr)
    requires i < |log| && log[i].lease != Released && log[i].address <= a < log[i].address + |log[i].bytes|
    requires forall j :: 0 <= j < i ==> log[j].lease == Released || a < log[j].address || log[j].address + |log[j].bytes| <= a
    ensures Original(log, a) == Some(log[i].bytes[a - log[i].address])
  {
    OriginalHead(log, a);
    if i > 0 { FirstDecides(log[1..], i - 1, a); }
  }

  /** Where no such patch is, nothing is restored. */
  lemma {:induction false} NoneDecides(log: seq<Saved>, a: Addr)
    requires forall j :: 0 <= j < |log| ==> log[j].lease == Released || a < log[j].address || log[j].address + |log[j].bytes| <= a
    ensures Original(log, a) == None
  {
    if log != [] {
      OriginalHead(log, a);
      NoneDecides(log[1..], a);
    }
  }

  /** The last patch over `a` decides what the script left there. */
  lemma {:induction false} LastWritten(log: seq<Saved>, i: nat, a: Addr)
    requires i < |log| && |log[i].written| == |log[i].bytes| && log[i].address <= a < log[i].address + |log[i].bytes|
    requires forall j :: i < j < |log| ==> a < log[j].address || log[j].address + |log[j].bytes| <= a
    ensures Written(log, a) == Some(log[i].written[a - log[i].address])
  {
    if i < |log| - 1 { LastWritten(log[..|log| - 1], i, a); }
  }

  /** The last override over `a` decides what a script restores there, if it restores anything. */
  lemma {:induction false} LastDecides(overrides: seq<Override>, i: nat, a: Addr)
    requires i < |overrides| && OverrideSized(overrides[i]) && overrides[i].address <= a < overrides[i].address + |overrides[i].bytes|
    requires forall j :: i < j < |overrides| ==> a < overrides[j].address || overrides[j].address + |overrides[j].bytes| <= a
    ensures LastOverride(overrides, a) == Some(overrides[i].bytes[a - overrides[i].address])
  {
    if i < |overrides| - 1 { LastDecides(overrides[..|overrides| - 1], i, a); }
  }

  /** `q` is the part of `p` from `from` to `last`, and in all else like it. */
  predicate PartOf(q: Saved, p: Saved, from: int, last: int)
  {
    && p.address <= from <= last < p.address + |p.bytes|
    && q.address == from && q.bytes == p.bytes[from - p.address..last + 1 - p.address]
    && (|p.written| == |p.bytes| ==> q.written == p.written[from - p.address..last + 1 - p.address])
    && q.executable == p.executable && q.lease == p.lease && q.verify == p.verify
  }

  /** What dropping a range leaves of one patch: all of it when they do not meet, else the part before
      the range and the part behind it. */
  lemma {:induction false} PiecesAre(p: Saved, first: Addr, last: Addr)
    requires Sized(p) && p.bytes != [] && first <= last
    ensures var end, r := p.address + |p.bytes| - 1, Pieces(p, first, last);
            if last < p.address || end < first then r == [p]
            else if p.address < first && last < end then |r| == 2 && PartOf(r[0], p, p.address, first - 1) && PartOf(r[1], p, last + 1, end)
            else if p.address < first then |r| == 1 && PartOf(r[0], p, p.address, first - 1)
            else if last < end then |r| == 1 && PartOf(r[0], p, last + 1, end)
            else r == []
  {
    hide Piece, PartOf;
    if p.address < first <= p.address + |p.bytes| - 1 { PieceIsPart(p, p.address, first - 1); }
    if p.address <= last + 1 <= p.address + |p.bytes| - 1 { PieceIsPart(p, last + 1, p.address + |p.bytes| - 1); }
  }

  lemma {:induction false} PieceIsPart(p: Saved, from: Addr, last: Addr)
    requires p.address <= from <= last < p.address + |p.bytes|
    ensures PartOf(Piece(p, from, last), p, from, last)
  {
  }
}
