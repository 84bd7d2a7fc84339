/** analysis/signature.cpp: byte patterns that find one address again, searched in overlapping chunks. */
module SignatureSearch {
  import opened Memory

  datatype PatByte = PatByte(value: Byte, wild: bool)

  /** A range of memory and what it holds. */
  datatype Range = Range(base: int, bytes: seq<Byte>)

  /** How much of a read at an address succeeds. */
  type Reads = (int, nat) -> nat

  predicate MatchAt(pat: seq<PatByte>, mem: seq<Byte>, p: nat)
  {
    0 < |pat| && p + |pat| <= |mem| && forall j :: 0 <= j < |pat| ==> pat[j].wild || mem[p + j] == pat[j].value
  }

  /** The matches that start before `n`. */
  function Matches(pat: seq<PatByte>, mem: seq<Byte>, n: nat): nat
  {
    if n == 0 then 0 else Matches(pat, mem, n - 1) + (if MatchAt(pat, mem, n - 1) then 1 else 0)
  }

  predicate LowestMatch(pat: seq<PatByte>, mem: seq<Byte>, p: nat)
  {
    MatchAt(pat, mem, p) && Matches(pat, mem, p) == 0
  }

  lemma {:induction false} MatchesGrow(pat: seq<PatByte>, mem: seq<Byte>, m: nat, n: nat)
    requires m <= n
    ensures Matches(pat, mem, m) <= Matches(pat, mem, n)
    ensures m < n && MatchAt(pat, mem, m) ==> Matches(pat, mem, m) < Matches(pat, mem, n)
    decreases n - m
  {
    if m < n { MatchesGrow(pat, mem, m + 1, n); }
  }

  /** No match starts too close to the end. */
  lemma {:induction false} NoMatchPastEnd(pat: seq<PatByte>, mem: seq<Byte>, m: nat, n: nat)
    requires m <= n && (pat == [] || |mem| < m + |pat|)
    ensures Matches(pat, mem, n) == Matches(pat, mem, m)
    decreases n - m
  {
    if m < n { NoMatchPastEnd(pat, mem, m, n - 1); }
  }

  method Compare(pat: seq<PatByte>, buffer: seq<Byte>, p: nat) returns (m: bool)
    requires 0 < |pat| && p + |pat| <= |buffer|
    ensures m == MatchAt(pat, buffer, p)
    ensures m <==> forall j :: 0 <= j < |pat| && !pat[j].wild ==> buffer[p + j] == pat[j].value
  {
    for j := 0 to |pat|
      invariant forall i :: 0 <= i < j ==> pat[i].wild || buffer[p + i] == pat[i].value
    {
      if !pat[j].wild && buffer[p + j] != pat[j].value { return false; }
    }
    return true;
  }

  /** Count matches in a buffer, up to two. */
  method CountInBuffer(pat: seq<PatByte>, buffer: seq<Byte>, base: int) returns (cnt: nat, first: int)
    ensures cnt == Min(2, Matches(pat, buffer, |buffer|))
    ensures cnt > 0 ==> first >= base && LowestMatch(pat, buffer, first - base)
  {
    cnt, first := 0, 0;
    if pat == [] || |pat| > |buffer| {
      NoMatchPastEnd(pat, buffer, 0, |buffer|);
      return;
    }
    var p := 0;
    while p + |pat| <= |buffer|
      invariant p + |pat| <= |buffer| + 1
      invariant cnt == Matches(pat, buffer, p) <= 1
      invariant cnt > 0 ==> first >= base && LowestMatch(pat, buffer, first - base)
    {
      var m := Compare(pat, buffer, p);
      if m {
        if cnt == 0 { first := base + p; }
        cnt := cnt + 1;
        if cnt > 1 {
          MatchesGrow(pat, buffer, p + 1, |buffer|);
          return;
        }
      }
      p := p + 1;
    }
    NoMatchPastEnd(pat, buffer, p, |buffer|);
  }

  lemma {:induction false} MatchInChunk(pat: seq<PatByte>, mem: seq<Byte>, offset: nat, got: nat, p: nat)
    requires offset + got <= |mem| && p + |pat| <= got
    ensures MatchAt(pat, mem[offset..offset + got], p) == MatchAt(pat, mem, offset + p)
  {
    var chunk := mem[offset..offset + got];
    if MatchAt(pat, chunk, p) {
      forall j | 0 <= j < |pat| ensures pat[j].wild || mem[offset + p + j] == pat[j].value {
        assert chunk[p + j] == mem[offset + p + j];
      }
    }
  }

  /** What a search that has seen the starts before `n` has found. */
  predicate FoundUpTo(pat: seq<PatByte>, r: Range, n: nat, cnt: nat, first: int)
  {
    && cnt == Matches(pat, r.bytes, n)
    && (cnt > 0 ==> first >= r.base && LowestMatch(pat, r.bytes, first - r.base))
  }

  lemma {:induction false} FoundNext(pat: seq<PatByte>, r: Range, n: nat, cnt: nat, first: int)
    requires FoundUpTo(pat, r, n, cnt, first)
    ensures !MatchAt(pat, r.bytes, n) ==> FoundUpTo(pat, r, n + 1, cnt, first)
    ensures MatchAt(pat, r.bytes, n) ==> FoundUpTo(pat, r, n + 1, cnt + 1, if cnt == 0 then r.base + n else first)
  {
  }

  /** Search what was read of the range from `offset` on; stop at the second match. */
  method CountInChunk(pat: seq<PatByte>, r: Range, offset: nat, got: nat, cnt0: nat, first0: int) returns (cnt: nat, first: int)
    requires 0 < |pat| <= got && offset + got <= |r.bytes|
    requires cnt0 <= 1 && FoundUpTo(pat, r, offset, cnt0, first0)
    ensures cnt <= 2 && exists n :: offset <= n <= offset + got - |pat| + 1 && FoundUpTo(pat, r, n, cnt, first)
    ensures cnt < 2 ==> FoundUpTo(pat, r, offset + got - |pat| + 1, cnt, first)
  {
    hide MatchAt, LowestMatch, FoundUpTo;
    cnt, first := cnt0, first0;
    var buffer := r.bytes[offset..offset + got];
    var limit := got - |pat| + 1;
    for p := 0 to limit
      invariant cnt <= 1 && FoundUpTo(pat, r, offset + p, cnt, first)
    {
      MatchInChunk(pat, r.bytes, offset, got, p);
      FoundNext(pat, r, offset + p, cnt, first);
      var m := Compare(pat, buffer, p);
      if m {
        if cnt == 0 { first := r.base + offset + p; }
        cnt := cnt + 1;
        if cnt > 1 { return; }
      }
    }
  }

  /** Some read inside the range comes back short. */
  ghost predicate ShortIn(available: Reads, r: Range)
  {
    exists at, size: nat :: r.base <= at && at + size <= r.base + |r.bytes| && available(at, size) < size
  }

  ghost predicate ShortInScope(available: Reads, scope: seq<Range>)
  {
    exists i :: 0 <= i < |scope| && ShortIn(available, scope[i])
  }

  /** The same over a range that is read chunk by chunk, each overlapping the next by one byte less
      than the pattern. */
  method CountMatches(available: Reads, pat: seq<PatByte>, r: Range, chunk: nat) returns (cnt: nat, first: int, incomplete: bool)
    requires chunk > 0
    ensures cnt <= 2 && cnt <= Matches(pat, r.bytes, |r.bytes|)
    ensures !incomplete ==> cnt == Min(2, Matches(pat, r.bytes, |r.bytes|))
    ensures cnt > 0 ==> first >= r.base && LowestMatch(pat, r.bytes, first - r.base)
    ensures incomplete ==> ShortIn(available, r)
  {
    hide MatchAt, LowestMatch;
    cnt, first, incomplete := 0, 0, false;
    var size := |r.bytes|;
    if pat == [] || |pat| > size {
      NoMatchPastEnd(pat, r.bytes, 0, size);
      return;
    }
    var offset := 0;
    while offset + |pat| <= size
      invariant offset + |pat| <= size + 1
      invariant !incomplete && cnt <= 1 && FoundUpTo(pat, r, offset, cnt, first)
      decreases size - offset
    {
      var want := Min(chunk + |pat| - 1, size - offset);
      var got := Min(available(r.base + offset, want), want);
      if got < want { incomplete := true; }
      if got < |pat| {
        MatchesGrow(pat, r.bytes, offset, size);
        return;
      }
      cnt, first := CountInChunk(pat, r, offset, got, cnt, first);
      if cnt > 1 {
        ghost var n :| offset <= n <= offset + got - |pat| + 1 && FoundUpTo(pat, r, n, cnt, first);
        MatchesGrow(pat, r.bytes, n, size);
        return;
      }
      if got < want {
        MatchesGrow(pat, r.bytes, offset + got - |pat| + 1, size);
        return;
      }
      offset := offset + got - |pat| + 1;
    }
    NoMatchPastEnd(pat, r.bytes, offset, size);
  }

  // -------------------------------------------------------------- several ranges

  function Total(pat: seq<PatByte>, scope: seq<Range>): nat
  {
    if scope == [] then 0 else Total(pat, scope[..|scope| - 1]) + Matches(pat, scope[|scope| - 1].bytes, |scope[|scope| - 1].bytes|)
  }

  predicate MatchesAddress(pat: seq<PatByte>, scope: seq<Range>, address: int)
  {
    exists i :: 0 <= i < |scope| && address >= scope[i].base && MatchAt(pat, scope[i].bytes, address - scope[i].base)
  }

  lemma {:induction false} OneRangeMore(pat: seq<PatByte>, scope: seq<Range>, i: nat)
    requires i < |scope|
    ensures Total(pat, scope[..i + 1]) == Total(pat, scope[..i]) + Matches(pat, scope[i].bytes, |scope[i].bytes|)
    ensures Total(pat, scope[..i + 1]) <= Total(pat, scope)
    decreases |scope|
  {
    assert scope[..i + 1][..i] == scope[..i];
    if i + 1 < |scope| {
      OneRangeMore(pat, scope[..|scope| - 1], i);
      assert scope[..|scope| - 1][..i + 1] == scope[..i + 1];
      assert scope[..|scope| - 1][..i] == scope[..i];
    } else {
      assert scope[..i + 1] == scope;
    }
  }

  /** Read every range once. */
  method ReadScope(available: Reads, scope: seq<Range>) returns (cached: seq<seq<Byte>>, incomplete: bool)
    ensures |cached| == |scope|
    ensures !incomplete ==> forall i :: 0 <= i < |scope| ==> cached[i] == scope[i].bytes
    ensures incomplete ==> ShortInScope(available, scope)
  {
    cached, incomplete := [], false;
    for i := 0 to |scope|
      invariant |cached| == i
      invariant !incomplete ==> forall k :: 0 <= k < i ==> cached[k] == scope[k].bytes
      invariant incomplete ==> ShortInScope(available, scope)
    {
      var size := |scope[i].bytes|;
      var n := Min(available(scope[i].base, size), size);
      if n < size { incomplete := true; }
      cached := cached + [scope[i].bytes[..n]];
    }
  }

  /** Count over all ranges, until two are found. */
  method CountAll(available: Reads, pat: seq<PatByte>, scope: seq<Range>, cached: Option<seq<seq<Byte>>>, chunk: nat)
    returns (found: nat, first: int, incomplete: bool)
    requires chunk > 0 && (cached.Some? ==> |cached.value| == |scope|)
    ensures !incomplete && (cached.Some? ==> forall i :: 0 <= i < |scope| ==> cached.value[i] == scope[i].bytes) ==>
      Min(2, found) == Min(2, Total(pat, scope)) && (found > 0 ==> MatchesAddress(pat, scope, first))
    ensures incomplete ==> ShortInScope(available, scope)
  {
    hide MatchAt, Matches, Total, MatchesAddress, LowestMatch, ShortIn, ShortInScope;
    found, first, incomplete := 0, 0, false;
    NoneCounted(pat, scope);
    var i := 0;
    while i < |scope| && found < 2
      invariant i <= |scope|
      invariant !incomplete && (cached.Some? ==> forall k :: 0 <= k < |scope| ==> cached.value[k] == scope[k].bytes) ==>
        && Min(2, found) == Min(2, Total(pat, scope[..i]))
        && (found > 0 ==> MatchesAddress(pat, scope, first))
      invariant incomplete ==> ShortInScope(available, scope)
      invariant Total(pat, scope[..i]) <= Total(pat, scope)
    {
      var c, at, short;
      if cached.Some? {
        c, at := CountInBuffer(pat, cached.value[i], scope[i].base);
        short := false;
      } else {
        c, at, short := CountMatches(available, pat, scope[i], chunk);
      }
      incomplete := incomplete || short;
      if short { ShortHere(available, scope, i); }
      if c > 0 && found == 0 {
        first := at;
        if !incomplete && (cached.Some? ==> cached.value[i] == scope[i].bytes) { FoundHere(pat, scope, i, at); }
      }
      found := found + c;
      OneRangeMore(pat, scope, i);
      i := i + 1;
    }
    assert scope[..|scope|] == scope;
  }

  lemma {:induction false} NoneCounted(pat: seq<PatByte>, scope: seq<Range>)
    ensures Total(pat, scope[..0]) == 0
  {
  }

  lemma {:induction false} ShortHere(available: Reads, scope: seq<Range>, i: nat)
    requires i < |scope| && ShortIn(available, scope[i])
    ensures ShortInScope(available, scope)
  {
  }

  lemma {:induction false} FoundHere(pat: seq<PatByte>, scope: seq<Range>, i: nat, at: int)
    requires i < |scope| && at >= scope[i].base && LowestMatch(pat, scope[i].bytes, at - scope[i].base)
    ensures MatchesAddress(pat, scope, at)
  {
    hide MatchAt;
  }

  // --------------------------------------------------------------- the signature

  /** The pattern without the wildcards at its end. */
  function Trimmed(pat: seq<PatByte>): (r: seq<PatByte>)
    ensures r <= pat && (r != [] ==> !r[|r| - 1].wild)
    ensures forall j :: |r| <= j < |pat| ==> pat[j].wild
  {
    if pat != [] && pat[|pat| - 1].wild then Trimmed(pat[..|pat| - 1]) else pat
  }

  /** The pattern of the first `k` instructions. */
  function Prefix(insns: seq<seq<PatByte>>, k: nat): seq<PatByte>
    requires k <= |insns|
  {
    if k == 0 then [] else Prefix(insns, k - 1) + insns[k - 1]
  }

  /** The pattern grows to `k` instructions: the first that match once, or as many as may be used. */
  ghost predicate StopsAt(insns: seq<seq<PatByte>>, scope: seq<Range>, maxBytes: nat, k: nat)
  {
    && k <= |insns|
    && (forall j :: 1 <= j < k ==> Total(Trimmed(Prefix(insns, j)), scope) != 1 && |Prefix(insns, j)| < maxBytes)
    && (k < |insns| ==> k > 0 && (Total(Trimmed(Prefix(insns, k)), scope) == 1 || |Prefix(insns, k)| >= maxBytes))
  }

  lemma {:induction false} TwoMatches(pat: seq<PatByte>, mem: seq<Byte>, p: nat, q: nat)
    requires p < q && MatchAt(pat, mem, p) && MatchAt(pat, mem, q)
    ensures Matches(pat, mem, |mem|) >= 2
  {
    MatchesGrow(pat, mem, p, q);
    MatchesGrow(pat, mem, q, |mem|);
  }

  lemma {:induction false} MatchedRange(pat: seq<PatByte>, scope: seq<Range>, i: nat, p: nat)
    requires i < |scope| && MatchAt(pat, scope[i].bytes, p)
    ensures Matches(pat, scope[i].bytes, |scope[i].bytes|) >= 1
    ensures Total(pat, scope[..i + 1]) >= Total(pat, scope[..i]) + 1 && Total(pat, scope) >= Total(pat, scope[..i + 1])
  {
    MatchesGrow(pat, scope[i].bytes, p, |scope[i].bytes|);
    OneRangeMore(pat, scope, i);
  }

  lemma {:induction false} TotalGrows(pat: seq<PatByte>, scope: seq<Range>, m: nat, n: nat)
    requires m <= n <= |scope|
    ensures Total(pat, scope[..m]) <= Total(pat, scope[..n])
    decreases n
  {
    if m < n {
      TotalGrows(pat, scope, m, n - 1);
      OneRangeMore(pat, scope, n - 1);
    }
  }

  /** A pattern that matches once matches at one address. */
  lemma {:induction false} OnlyAddress(pat: seq<PatByte>, scope: seq<Range>, a: int, b: int)
    requires Total(pat, scope) == 1 && MatchesAddress(pat, scope, a) && MatchesAddress(pat, scope, b)
    ensures a == b
  {
    hide MatchAt, Matches, Total;
    var i :| 0 <= i < |scope| && a >= scope[i].base && MatchAt(pat, scope[i].bytes, a - scope[i].base);
    var j :| 0 <= j < |scope| && b >= scope[j].base && MatchAt(pat, scope[j].bytes, b - scope[j].base);
    var p, q := a - scope[i].base, b - scope[j].base;
    hide MatchesAddress;
    MatchedRange(pat, scope, i, p);
    MatchedRange(pat, scope, j, q);
    if i < j {
      TotalGrows(pat, scope, i + 1, j);
    } else if j < i {
      TotalGrows(pat, scope, j + 1, i);
    } else if p != q {
      TwoMatches(pat, scope[i].bytes, if p < q then p else q, if p < q then q else p);
      OneRangeMore(pat, scope, i);
    }
  }

  /** Extend the pattern instruction by instruction until it matches once. With every read complete,
      the pattern is that of the first instructions that match once, and it is said to be unique
      exactly when it matches once, at `address`. */
  method MakeSignatureIn(available: Reads, insns: seq<seq<PatByte>>, address: int, scope: seq<Range>, maxBytes: nat,
      useCache: bool, chunk: nat)
    returns (pattern: seq<PatByte>, unique: bool, incomplete: bool)
    requires chunk > 0
    ensures incomplete ==> !unique
    ensures incomplete ==> ShortInScope(available, scope)
    ensures !incomplete ==> exists k ::
      StopsAt(insns, scope, maxBytes, k) && pattern == Trimmed(Prefix(insns, k))
    ensures !incomplete ==> (unique <==> Total(pattern, scope) == 1 && MatchesAddress(pattern, scope, address))
  {
    hide Total, MatchesAddress, Trimmed;
    incomplete := false;
    var cached: Option<seq<seq<Byte>>> := None;
    if useCache {
      var buffers;
      buffers, incomplete := ReadScope(available, scope);
      cached := Some(buffers);
    }
    var pat: seq<PatByte>, k := [], 0;
    unique := false;
    while k < |insns|
      invariant k <= |insns| && pat == Prefix(insns, k) && !unique
      invariant !incomplete && cached.Some? ==> forall i :: 0 <= i < |scope| ==> cached.value[i] == scope[i].bytes
      invariant cached.Some? ==> |cached.value| == |scope|
      invariant incomplete ==> ShortInScope(available, scope)
      invariant !incomplete ==>
        forall j :: 1 <= j <= k ==> Total(Trimmed(Prefix(insns, j)), scope) != 1 && |Prefix(insns, j)| < maxBytes
    {
      pat := pat + insns[k];
      k := k + 1;
      var found, first, short := CountAll(available, Trimmed(pat), scope, cached, chunk);
      incomplete := incomplete || short;
      if found == 1 {
        unique := first == address;
        if !incomplete && MatchesAddress(Trimmed(pat), scope, address) { OnlyAddress(Trimmed(pat), scope, first, address); }
        break;
      }
      if |pat| >= maxBytes { break; }
    }
    assert !incomplete ==> StopsAt(insns, scope, maxBytes, k);
    pattern := Trimmed(pat);
    if !unique {
      var found, first, short := CountAll(available, pattern, scope, cached, chunk);
      incomplete := incomplete || short;
      unique := found == 1 && first == address;
      if !incomplete && found == 1 && MatchesAddress(pattern, scope, address) { OnlyAddress(pattern, scope, first, address); }
    }
    if incomplete { unique := false; }
  }

  /** The instructions were read at `address`, in a range that is searched. */
  ghost predicate CodeIsThere(insns: seq<seq<PatByte>>, scope: seq<Range>, address: int)
  {
    exists i :: 0 <= i < |scope| && HoldsCode(Prefix(insns, |insns|), scope[i], address)
  }

  predicate HoldsCode(pat: seq<PatByte>, r: Range, address: int)
  {
    && r.base <= address && address - r.base + |pat| <= |r.bytes|
    && forall j :: 0 <= j < |pat| ==> r.bytes[address - r.base + j] == pat[j].value
  }

  lemma {:induction false} PrefixOfPrefix(insns: seq<seq<PatByte>>, k: nat, n: nat)
    requires k <= n <= |insns|
    ensures Prefix(insns, k) <= Prefix(insns, n)
    decreases n
  {
    if k < n { PrefixOfPrefix(insns, k, n - 1); }
  }

  /** The code itself is a match of every pattern made from it. */
  lemma {:induction false} CodeMatchesItself(insns: seq<seq<PatByte>>, scope: seq<Range>, address: int, k: nat)
    requires k <= |insns| && CodeIsThere(insns, scope, address) && Trimmed(Prefix(insns, k)) != []
    ensures MatchesAddress(Trimmed(Prefix(insns, k)), scope, address)
  {
    hide Trimmed, Prefix;
    PrefixOfPrefix(insns, k, |insns|);
    var all, pat := Prefix(insns, |insns|), Trimmed(Prefix(insns, k));
    var i :| 0 <= i < |scope| && HoldsCode(all, scope[i], address);
    forall j | 0 <= j < |pat| ensures scope[i].bytes[address - scope[i].base + j] == pat[j].value {
      assert pat[j] == all[j];
    }
    assert MatchAt(pat, scope[i].bytes, address - scope[i].base);
  }

  /** So with every read complete, code gets a unique signature exactly when the pattern of some
      number of its first instructions, all but the last within `maxBytes`, matches once. */
  lemma {:induction false} UniqueExactlyWhen(insns: seq<seq<PatByte>>, scope: seq<Range>, address: int, maxBytes: nat, k: nat)
    requires StopsAt(insns, scope, maxBytes, k) && CodeIsThere(insns, scope, address)
    ensures var pattern := Trimmed(Prefix(insns, k));
            Total(pattern, scope) == 1 && MatchesAddress(pattern, scope, address) <==>
              exists j :: 0 < j <= |insns| && (j == 1 || |Prefix(insns, j - 1)| < maxBytes) && Total(Trimmed(Prefix(insns, j)), scope) == 1
  {
    hide Trimmed, Prefix, Total, MatchesAddress, CodeIsThere;
    var pattern := Trimmed(Prefix(insns, k));
    EmptyPrefix(insns);
    if j :| 0 < j <= |insns| && (j == 1 || |Prefix(insns, j - 1)| < maxBytes) && Total(Trimmed(Prefix(insns, j)), scope) == 1 {
      if k < j { PrefixOfPrefix(insns, k, j - 1); }
      assert Total(pattern, scope) == 1;
    }
    if Total(pattern, scope) == 1 {
      NoPatternNoMatch(scope);
      CodeMatchesItself(insns, scope, address, k);
      assert k == 1 || |Prefix(insns, k - 1)| < maxBytes;
    }
  }

  lemma {:induction false} EmptyPrefix(insns: seq<seq<PatByte>>)
    ensures Prefix(insns, 0) == [] == Trimmed(Prefix(insns, 0))
  {
  }

  lemma {:induction false} NoPatternNoMatch(scope: seq<Range>)
    ensures Total([], scope) == 0
  {
    if scope != [] {
      NoPatternNoMatch(scope[..|scope| - 1]);
      NoMatchPastEnd([], scope[|scope| - 1].bytes, 0, |scope[|scope| - 1].bytes|);
    }
  }
}
