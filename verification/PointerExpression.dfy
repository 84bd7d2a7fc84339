/**
  core/ct_file.cpp: pointer chains as text, one pair of brackets a level, and back.
 */
module PointerExpressions {
  import opened Memory
  import opened Texts

  const TWO_64: int := 0x1_0000_0000_0000_0000
  const TWO_63: int := 0x8000_0000_0000_0000

  datatype Chain = Chain(base: string, offsets: seq<int>)

  // ------------------------------------------------------------------- hex digits

  function Digit(d: int): char
    requires 0 <= d < 16
  {
    "0123456789abcdef"[d]
  }

  function DigitValue(c: char): Option<int> { if DigitWeight(c) < 16 then Some(DigitWeight(c)) else None }

  function Hex(n: nat): (s: string)
    ensures s != ""
  {
    if n < 16 then [Digit(n)] else Hex(n / 16) + [Digit(n % 16)]
  }

  /** The value of all the digits, in 64 bits. */
  function HexValue(s: string): Option<int>
  {
    if s == "" then Some(0)
    else
      var before, d := HexValue(s[..|s| - 1]), DigitValue(s[|s| - 1]);
      if before.None? || d.None? then None else Some((before.value * 16 + d.value) % TWO_64)
  }

  predicate HexDigits(s: string) { forall k :: 0 <= k < |s| ==> DigitValue(s[k]).Some? }

  lemma {:induction false} DigitIsRead(d: int)
    requires 0 <= d < 16
    ensures DigitValue(Digit(d)) == Some(d)
  {
    assert d == 0 || d == 1 || d == 2 || d == 3 || d == 4 || d == 5 || d == 6 || d == 7
      || d == 8 || d == 9 || d == 10 || d == 11 || d == 12 || d == 13 || d == 14 || d == 15;
  }

  lemma {:induction false} OneDigitMore(s: string, v: int, d: int)
    requires 0 <= d < 16 && 0 <= v && v * 16 + d < TWO_64 && HexDigits(s) && HexValue(s) == Some(v)
    ensures HexDigits(s + [Digit(d)]) && HexValue(s + [Digit(d)]) == Some(v * 16 + d)
  {
    hide Digit, DigitValue;
    DigitIsRead(d);
    assert (s + [Digit(d)])[..|s|] == s;
  }

  lemma {:induction false} HexIsRead(n: nat)
    requires n < TWO_64
    ensures HexDigits(Hex(n)) && HexValue(Hex(n)) == Some(n)
  {
    hide Digit, DigitValue;
    if n < 16 {
      OneDigitMore("", 0, n);
      assert "" + [Digit(n)] == Hex(n);
    } else {
      HexIsRead(n / 16);
      OneDigitMore(Hex(n / 16), n / 16, n % 16);
    }
  }

  // ------------------------------------------------------------------- writing

  function OffsetText(off: int): string
    requires -TWO_63 < off < TWO_63
  {
    if off >= 0 then "+" + Hex(off) else "-" + Hex(0 - off)
  }

  predicate InRange(offsets: seq<int>) { forall i :: 0 <= i < |offsets| ==> -TWO_63 < offsets[i] < TWO_63 }

  /** The innermost brackets hold the base; the first offset is the outermost. */
  function Built(base: string, offsets: seq<int>): string
    requires InRange(offsets)
  {
    if offsets == [] then base else "[" + Built(base, offsets[1..]) + "]" + OffsetText(offsets[0])
  }

  method BuildPointerExpression(base: string, offsets: seq<int>) returns (expr: string)
    requires InRange(offsets)
    ensures expr == Built(base, offsets)
  {
    if offsets == [] { return base; }
    expr := base;
    var i := |offsets|;
    assert offsets[i..] == [];
    while i > 0
      invariant 0 <= i <= |offsets| && InRange(offsets[i..]) && expr == Built(base, offsets[i..])
    {
      i := i - 1;
      assert offsets[i..][1..] == offsets[i + 1..];
      expr := "[" + expr + "]" + OffsetText(offsets[i]);
    }
    assert offsets[0..] == offsets;
  }

  // ------------------------------------------------------------------- reading

  predicate Blank(c: char) { c == ' ' || c == '\t' }

  function Trim(s: string): string
  {
    if s != "" && Blank(s[0]) then Trim(s[1..])
    else if s != "" && Blank(s[|s| - 1]) then Trim(s[..|s| - 1])
    else s
  }

  predicate Trimmed(s: string) { s == "" || (!Blank(s[0]) && !Blank(s[|s| - 1])) }

  lemma {:induction false} TrimTrims(s: string)
    ensures Trimmed(Trim(s)) && (Trimmed(s) ==> Trim(s) == s)
    decreases |s|
  {
    if s != "" {
      if Blank(s[0]) { TrimTrims(s[1..]); } else if Blank(s[|s| - 1]) { TrimTrims(s[..|s| - 1]); }
    }
  }

  /** Two's complement. */
  function AsSigned(v: int): int
    requires 0 <= v < TWO_64
  {
    if v < TWO_63 then v else v - TWO_64
  }

  function Negated(v: int): int { if v == -TWO_63 then v else 0 - v }

  /** A sign, perhaps 0x, and at least one hex digit. */
  function OffsetValue(s: string): Option<int>
  {
    var signed := s != "" && (s[0] == '+' || s[0] == '-');
    var rest := if signed then s[1..] else s;
    var digits := if |rest| > 1 && rest[0] == '0' && (rest[1] == 'x' || rest[1] == 'X') then rest[2..] else rest;
    var v := if digits == "" then None else HexValue(digits);
    Signed(signed && s[0] == '-', v)
  }

  function Signed(neg: bool, v: Option<int>): Option<int>
  {
    if v.None? || !(0 <= v.value < TWO_64) then None
    else Some(if neg then Negated(AsSigned(v.value)) else AsSigned(v.value))
  }

  lemma {:induction false} ValueFits(s: string)
    ensures HexValue(s).Some? ==> 0 <= HexValue(s).value < TWO_64
  {
  }

  /** The loop over the digits. */
  method ReadDigits(s: string, start: nat) returns (r: Option<int>)
    requires start <= |s|
    ensures r == HexValue(s[start..])
    ensures r.Some? ==> 0 <= r.value < TWO_64
  {
    hide DigitValue;
    ghost var digits := s[start..];
    var i, v := start, 0;
    while i < |s|
      invariant start <= i <= |s|
      invariant HexValue(digits[..i - start]) == Some(v) && 0 <= v < TWO_64
    {
      assert digits[..i - start + 1][..i - start] == digits[..i - start] && digits[i - start] == s[i];
      var d := DigitValue(s[i]);
      if d.None? {
        NotHex(digits, i - start + 1);
        return None;
      }
      v := (v * 16 + d.value) % TWO_64;
      i := i + 1;
    }
    assert digits[..|s| - start] == digits;
    return Some(v);
  }

  method ParseSignedHexOffset(s: string) returns (off: Option<int>)
    ensures off == OffsetValue(s)
  {
    hide HexValue;
    if s == "" { return None; }
    var i, neg := 0, false;
    if s[i] == '+' || s[i] == '-' {
      neg := s[i] == '-';
      i := i + 1;
    }
    if i + 1 < |s| && s[i] == '0' && (s[i + 1] == 'x' || s[i + 1] == 'X') { i := i + 2; }
    DigitsFrom(s, i);
    if i >= |s| { return None; }
    var v := ReadDigits(s, i);
    if v.None? { return None; }
    return Some(if neg then Negated(AsSigned(v.value)) else AsSigned(v.value));
  }

  /** What the offset's value is read from, when its digits start at `i`. */
  lemma {:induction false} DigitsFrom(s: string, i: nat)
    requires s != "" && i <= |s|
    requires var sign := if s[0] == '+' || s[0] == '-' then 1 else 0;
             i == if sign + 1 < |s| && s[sign] == '0' && (s[sign + 1] == 'x' || s[sign + 1] == 'X') then sign + 2 else sign
    ensures i == |s| ==> OffsetValue(s) == None
    ensures i < |s| ==> OffsetValue(s) == Signed(s[0] == '-', HexValue(s[i..]))
  {
    hide HexValue;
    if s[0] == '+' || s[0] == '-' {
      assert i > 1 ==> s[1..][2..] == s[i..];
    }
    ValueFits(s[i..]);
  }

  lemma {:induction false} NotHex(s: string, n: nat)
    requires n <= |s| && HexValue(s[..n]).None?
    ensures HexValue(s).None?
    decreases |s|
  {
    if n < |s| {
      assert s[..|s| - 1][..n] == s[..n];
      NotHex(s[..|s| - 1], n);
    } else {
      assert s[..n] == s;
    }
  }

  /** The position of the last ']'. */
  function LastClose(s: string): (r: Option<nat>)
    ensures r.Some? ==> r.value < |s| && s[r.value] == ']' && forall k :: r.value < k < |s| ==> s[k] != ']'
    ensures r.None? ==> forall k :: 0 <= k < |s| ==> s[k] != ']'
  {
    if s == "" then None else if s[|s| - 1] == ']' then Some(|s| - 1) else LastClose(s[..|s| - 1])
  }

  /** Peel brackets off a trimmed expression; each level's offset comes before those inside it. */
  function Peeled(e: string, offsets: seq<int>): Option<Chain>
    decreases |e|
  {
    if e == "" then None
    else if e[0] != '[' then Some(Chain(e, offsets))
    else
      var close := LastClose(e);
      if close.None? then None
      else
        var tail := Trim(e[close.value + 1..]);
        var off := if tail == "" then Some(0) else OffsetValue(tail);
        if off.None? then None
        else
          TrimShrinks(e[1..close.value]);
          Peeled(Trim(e[1..close.value]), offsets + [off.value])
  }

  lemma {:induction false} TrimShrinks(s: string)
    ensures |Trim(s)| <= |s|
    decreases |s|
  {
    if s != "" {
      if Blank(s[0]) { TrimShrinks(s[1..]); } else if Blank(s[|s| - 1]) { TrimShrinks(s[..|s| - 1]); }
    }
  }

  /** A plain address is not a chain. */
  function Parsed(expr: string): Option<Chain>
  {
    var e := Trim(expr);
    if e == "" || e[0] != '[' then None else Peeled(e, [])
  }

  method ParsePointerExpression(expr: string) returns (chain: Option<Chain>)
    ensures chain == Parsed(expr)
  {
    var e := Trim(expr);
    if e == "" || e[0] != '[' { return None; }
    var offsets: seq<int> := [];
    while e != "" && e[0] == '['
      invariant Peeled(e, offsets) == Parsed(expr)
      decreases |e|
    {
      var rb := LastClose(e);
      if rb.None? { return None; }
      var tail := Trim(e[rb.value + 1..]);
      var off := Some(0);
      if tail != "" {
        off := ParseSignedHexOffset(tail);
        if off.None? { return None; }
      }
      offsets := offsets + [off.value];
      TrimShrinks(e[1..rb.value]);
      e := Trim(e[1..rb.value]);
    }
    if e == "" { return None; }
    return Some(Chain(e, offsets));
  }

  // ------------------------------------------------------------------- round trip

  lemma {:induction false} OffsetIsRead(off: int)
    requires -0x8000_0000_0000_0000 < off < 0x8000_0000_0000_0000
    ensures var s := OffsetText(off);
            && |s| > 1 && Trim(s) == s && OffsetValue(s) == Some(off)
            && !Blank(s[|s| - 1]) && forall k :: 0 <= k < |s| ==> s[k] != ']'
  {
    hide *;
    var n := if off >= 0 then off else 0 - off;
    var sign := if off >= 0 then '+' else '-';
    OffsetTextIs(off, sign, n);
    HexIsRead(n);
    SignedIsRead(sign, Hex(n), n);
    TrimTrims([sign] + Hex(n));
    NoCloseIn(sign, Hex(n));
  }

  lemma {:induction false} OffsetTextIs(off: int, sign: char, n: nat)
    requires -0x8000_0000_0000_0000 < off < 0x8000_0000_0000_0000
    requires n == (if off >= 0 then off else 0 - off) && sign == if off >= 0 then '+' else '-'
    ensures -TWO_63 < off < TWO_63 && n < TWO_63 < TWO_64 && OffsetText(off) == [sign] + Hex(n)
  {
  }

  lemma {:induction false} NoCloseIn(sign: char, h: string)
    requires sign != ']' && h != "" && forall k :: 0 <= k < |h| ==> h[k] != ']'
    ensures forall k :: 0 <= k < |[sign] + h| ==> ([sign] + h)[k] != ']'
    ensures ([sign] + h)[|[sign] + h| - 1] == h[|h| - 1]
  {
  }

  lemma {:induction false} SignedIsRead(sign: char, h: string, n: nat)
    requires sign == '+' || sign == '-'
    requires h != "" && HexDigits(h) && n < TWO_63 && HexValue(h) == Some(n)
    ensures OffsetValue([sign] + h) == Some(if sign == '-' then 0 - n else n)
    ensures Trimmed([sign] + h) && !Blank(h[|h| - 1]) && forall k :: 0 <= k < |h| ==> h[k] != ']'
  {
    hide HexValue;
    var s := [sign] + h;
    assert s[1..] == h;
    assert DigitValue(h[|h| - 1]).Some? && s[|s| - 1] == h[|h| - 1];
    if |h| > 1 { assert DigitValue(h[1]).Some?; }
    forall k | 0 <= k < |h| ensures h[k] != ']' { assert DigitValue(h[k]).Some?; }
  }

  /** What a chain can have as its base. */
  predicate PlainBase(base: string) { base != "" && Trimmed(base) && base[0] != '[' }

  lemma {:induction false} BuiltIsPeeled(base: string, offsets: seq<int>, before: seq<int>)
    requires InRange(offsets) && PlainBase(base)
    ensures Built(base, offsets) != "" && Trimmed(Built(base, offsets))
    ensures offsets != [] ==> Built(base, offsets)[0] == '['
    ensures Peeled(Built(base, offsets), before) == Some(Chain(base, before + offsets))
    decreases |offsets|
  {
    if offsets == [] {
      assert before + [] == before;
    } else {
      var inner, text := Built(base, offsets[1..]), OffsetText(offsets[0]);
      assert Built(base, offsets) == "[" + inner + "]" + text;
      OffsetIsRead(offsets[0]);
      BuiltIsPeeled(base, offsets[1..], before + [offsets[0]]);
      TrimTrims(inner);
      assert before + [offsets[0]] + offsets[1..] == before + offsets;
      hide *;
      PeelOne(inner, text, offsets[0], before);
    }
  }

  lemma {:induction false} PeelOne(inner: string, text: string, off: int, before: seq<int>)
    requires |text| > 1 && Trim(text) == text && OffsetValue(text) == Some(off) && !Blank(text[|text| - 1])
    requires Trim(inner) == inner && forall k :: 0 <= k < |text| ==> text[k] != ']'
    ensures var e := "[" + inner + "]" + text;
            e != "" && e[0] == '[' && Trimmed(e) && Peeled(e, before) == Peeled(inner, before + [off])
  {
    hide OffsetValue, Trim;
    LastOfLevel(inner, text);
  }

  lemma {:induction false} LastOfLevel(inner: string, text: string)
    requires |text| > 1 && forall k :: 0 <= k < |text| ==> text[k] != ']'
    ensures var e := "[" + inner + "]" + text;
            && LastClose(e) == Some(1 + |inner|) && e[2 + |inner|..] == text && e[1..1 + |inner|] == inner
            && e[0] == '[' && e[|e| - 1] == text[|text| - 1]
  {
    var e := "[" + inner + "]" + text;
    assert e[1 + |inner|] == ']';
    assert forall k :: 1 + |inner| < k < |e| ==> e[k] == text[k - 2 - |inner|];
  }

  lemma {:induction false} PeeledIsPlain(e: string, offsets: seq<int>)
    requires Trimmed(e) && Peeled(e, offsets).Some?
    ensures PlainBase(Peeled(e, offsets).value.base)
    decreases |e|
  {
    if e[0] == '[' {
      var inside := e[1..LastClose(e).value];
      TrimTrims(inside);
      TrimShrinks(inside);
      var tail := Trim(e[LastClose(e).value + 1..]);
      PeeledIsPlain(Trim(inside), offsets + [if tail == "" then 0 else OffsetValue(tail).value]);
    }
  }

  /** A chain with offsets is read back as written exactly when its base is a plain address: trimmed,
      not empty, and not starting with a bracket. It may have brackets and signs anywhere else. */
  lemma {:induction false} ChainRoundTrip(base: string, offsets: seq<int>)
    requires InRange(offsets) && offsets != []
    ensures Parsed(Built(base, offsets)) == Some(Chain(base, offsets)) <==> PlainBase(base)
  {
    var e := Built(base, offsets);
    TrimTrims(e);
    if PlainBase(base) {
      BuiltIsPeeled(base, offsets, []);
      assert [] + offsets == offsets;
    }
    if Parsed(e).Some? { PeeledIsPlain(Trim(e), []); }
  }

  /** Whatever was read as a chain is read again from the text written for it. */
  lemma {:induction false} ReadIsStable(expr: string)
    requires Parsed(expr).Some? && InRange(Parsed(expr).value.offsets)
    ensures var c := Parsed(expr).value; Parsed(Built(c.base, c.offsets)) == Some(c)
  {
    var c := Parsed(expr).value;
    TrimTrims(expr);
    PeeledIsPlain(Trim(expr), []);
    SomeOffset(Trim(expr), []);
    ChainRoundTrip(c.base, c.offsets);
  }

  lemma {:induction false} SomeOffset(e: string, offsets: seq<int>)
    requires Peeled(e, offsets).Some?
    ensures |Peeled(e, offsets).value.offsets| >= |offsets| && (e[0] == '[' ==> Peeled(e, offsets).value.offsets != [])
    decreases |e|
  {
    if e[0] == '[' {
      var inside := e[1..LastClose(e).value];
      TrimShrinks(inside);
      var tail := Trim(e[LastClose(e).value + 1..]);
      SomeOffset(Trim(inside), offsets + [if tail == "" then 0 else OffsetValue(tail).value]);
    }
  }

  // ------------------------------------------------------- what else can be read

  lemma {:induction false} WrapStep(v: nat, d: nat)
    requires d < 16
    ensures (v % 0x1_0000_0000_0000_0000 * 16 + d) % 0x1_0000_0000_0000_0000 == (v * 16 + d) % 0x1_0000_0000_0000_0000
  {
    var q, r := v / 0x1_0000_0000_0000_0000, v % 0x1_0000_0000_0000_0000;
    assert v * 16 + d == r * 16 + d + 16 * q * 0x1_0000_0000_0000_0000;
  }

  lemma {:induction false} HexMore(front: string, v: nat, d: nat, digits: string)
    requires digits in {"0123456789abcdef", "0123456789ABCDEF"} && d < 16
    requires HexDigits(front) && HexValue(front) == Some(v % 0x1_0000_0000_0000_0000)
    ensures HexDigits(front + [digits[d]]) && HexValue(front + [digits[d]]) == Some((v * 16 + d) % 0x1_0000_0000_0000_0000)
  {
    hide DigitWeight;
    DigitTable('0');
    WrapStep(v, d);
    assert (front + [digits[d]])[..|front|] == front;
  }

  /** Hexadecimal digits in either case are read as their number, in 64 bits. */
  lemma {:induction false} NumeralIsRead(n: nat, digits: string)
    requires digits in {"0123456789abcdef", "0123456789ABCDEF"}
    ensures HexDigits(Numeral(n, 16, digits)) && HexValue(Numeral(n, 16, digits)) == Some(n % 0x1_0000_0000_0000_0000)
    decreases n
  {
    hide HexValue, HexDigits;
    if n < 16 {
      NoDigits();
      HexMore("", 0, n, digits);
      assert "" + [digits[n]] == [digits[n]];
    } else {
      NumeralIsRead(n / 16, digits);
      HexMore(Numeral(n / 16, 16, digits), n / 16, n % 16, digits);
    }
  }

  lemma {:induction false} NoDigits()
    ensures HexDigits("") && HexValue("") == Some(0)
  {
  }

  predicate Prefixes(prefix: string) { prefix == "" || prefix == "0x" || prefix == "0X" }
  predicate Signs(sign: string) { sign == "" || sign == "+" || sign == "-" }

  lemma {:induction false} FormIsRead(sign: string, prefix: string, digits: string)
    requires Signs(sign) && Prefixes(prefix) && digits != "" && HexDigits(digits)
    ensures OffsetValue(sign + prefix + digits) == Signed(sign == "-", HexValue(digits))
  {
    hide HexValue, Signed;
    var s := sign + prefix + digits;
    assert DigitValue(digits[0]).Some?;
    if |digits| > 1 { assert DigitValue(digits[1]).Some?; }
    assert s[|sign|..] == prefix + digits && s[0..] == s;
    assert (prefix + digits)[|prefix|..] == digits;
  }

  /** An offset with or without a sign, with or without 0x, in digits of either case: 64 bits of two's
      complement, negated after a minus. */
  lemma {:induction false} OffsetForms(sign: string, prefix: string, n: nat, digits: string)
    requires sign in {"", "+", "-"} && prefix in {"", "0x", "0X"} && digits in {"0123456789abcdef", "0123456789ABCDEF"}
    ensures var low := n % 0x1_0000_0000_0000_0000;
            var v := if low < 0x8000_0000_0000_0000 then low else low - 0x1_0000_0000_0000_0000;
            OffsetValue(sign + prefix + Numeral(n, 16, digits))
              == Some(if sign == "-" && v != -0x8000_0000_0000_0000 then 0 - v else v)
  {
    hide OffsetValue, HexValue, HexDigits, Numeral;
    NumeralIsRead(n, digits);
    FormIsRead(sign, prefix, Numeral(n, 16, digits));
  }

  ghost predicate Form(s: string, sign: string, prefix: string, digits: string)
  {
    && s == sign + prefix + digits && digits != ""
    && sign in {"", "+", "-"} && prefix in {"", "0x", "0X"}
    && forall k :: 0 <= k < |digits| ==> digits[k] in "0123456789abcdef" || digits[k] in "0123456789ABCDEF"
  }

  lemma {:induction false} HexOnly(s: string)
    ensures HexValue(s).Some? <==> HexDigits(s)
  {
    hide DigitValue;
    if s != "" {
      HexOnly(s[..|s| - 1]);
      if HexDigits(s) { assert DigitValue(s[|s| - 1]).Some?; }
    }
  }

  lemma {:induction false} DigitsAreHex(s: string)
    ensures HexDigits(s) <==> forall k :: 0 <= k < |s| ==> s[k] in "0123456789abcdef" || s[k] in "0123456789ABCDEF"
  {
    hide DigitWeight;
    forall k | 0 <= k < |s| ensures DigitValue(s[k]).Some? <==> s[k] in "0123456789abcdef" || s[k] in "0123456789ABCDEF" {
      DigitTable(s[k]);
      if s[k] in "0123456789abcdef" { var d :| 0 <= d < 16 && "0123456789abcdef"[d] == s[k]; }
      if s[k] in "0123456789ABCDEF" { var d :| 0 <= d < 16 && "0123456789ABCDEF"[d] == s[k]; }
    }
  }

  lemma {:induction false} PrefixOf(rest: string) returns (prefix: string, digits: string)
    ensures rest == prefix + digits && Prefixes(prefix)
    ensures digits == if |rest| > 1 && rest[0] == '0' && (rest[1] == 'x' || rest[1] == 'X') then rest[2..] else rest
  {
    if |rest| > 1 && rest[0] == '0' && (rest[1] == 'x' || rest[1] == 'X') {
      prefix, digits := rest[..2], rest[2..];
      assert rest[..2] == "0x" || rest[..2] == "0X";
    } else {
      prefix, digits := "", rest;
      assert "" + rest == rest;
    }
  }

  lemma {:induction false} SignOf(s: string) returns (sign: string, rest: string)
    ensures s == sign + rest && Signs(sign)
    ensures rest == if s != "" && (s[0] == '+' || s[0] == '-') then s[1..] else s
  {
    if s != "" && (s[0] == '+' || s[0] == '-') {
      sign, rest := [s[0]], s[1..];
    } else {
      sign, rest := "", s;
      assert "" + s == s;
    }
  }

  lemma {:induction false} OffsetParts(s: string, rest: string, digits: string)
    requires rest == if s != "" && (s[0] == '+' || s[0] == '-') then s[1..] else s
    requires digits == if |rest| > 1 && rest[0] == '0' && (rest[1] == 'x' || rest[1] == 'X') then rest[2..] else rest
    ensures OffsetValue(s) == Signed(s != "" && s[0] == '-', if digits == "" then None else HexValue(digits))
  {
    hide HexValue, Signed;
  }

  lemma {:induction false} FormOf(s: string) returns (sign: string, prefix: string, digits: string)
    requires OffsetValue(s).Some?
    ensures s == sign + prefix + digits && Signs(sign) && Prefixes(prefix) && digits != "" && HexValue(digits).Some?
  {
    hide *;
    var rest;
    sign, rest := SignOf(s);
    prefix, digits := PrefixOf(rest);
    OffsetParts(s, rest, digits);
    SignedOfNone(s != "" && s[0] == '-');
    Regrouped(sign, prefix, digits);
  }

  lemma {:induction false} Regrouped(a: string, b: string, c: string)
    ensures a + (b + c) == a + b + c
  {
  }

  lemma {:induction false} SignedOfNone(neg: bool)
    ensures Signed(neg, None) == None
    ensures forall v: Option<int> :: Signed(neg, v).Some? ==> v.Some?
  {
  }

  /** Nothing else is an offset. */
  lemma {:induction false} OffsetExactly(s: string)
    ensures OffsetValue(s).Some? <==> exists sign, prefix, digits :: Form(s, sign, prefix, digits)
  {
    hide HexValue, HexDigits, OffsetValue;
    if OffsetValue(s).Some? {
      var sign, prefix, digits := FormOf(s);
      HexOnly(digits);
      DigitsAreHex(digits);
      assert Form(s, sign, prefix, digits);
    }
    if sign, prefix, digits :| Form(s, sign, prefix, digits) {
      DigitsAreHex(digits);
      HexOnly(digits);
      FormIsRead(sign, prefix, digits);
      ValueFits(digits);
    }
  }

  predicate AllBlank(s: string) { forall k :: 0 <= k < |s| ==> s[k] == ' ' || s[k] == '\t' }

  lemma {:induction false} TrimAround(before: string, s: string, after: string)
    requires AllBlank(before) && AllBlank(after) && Trimmed(s)
    ensures Trim(before + s + after) == s
    decreases |before| + |after|
  {
    var all := before + s + after;
    if before != "" {
      assert all[1..] == before[1..] + s + after;
      TrimAround(before[1..], s, after);
    } else if after != "" {
      if s == "" {
        assert all == after && all[1..] == "" + s + after[1..];
        TrimAround("", s, after[1..]);
      } else {
        assert all[0] == s[0];
        assert all[..|all| - 1] == before + s + after[..|after| - 1];
        TrimAround(before, s, after[..|after| - 1]);
      }
    } else {
      assert all == s;
      TrimTrims(s);
    }
  }

  /** One level, with white space anywhere around its parts: no text behind the bracket is offset zero. */
  lemma {:induction false} LevelRead(inner: string, text: string, off: int, offsets: seq<int>, b1: string, b2: string, b3: string, b4: string)
    requires AllBlank(b1) && AllBlank(b2) && AllBlank(b3) && AllBlank(b4) && Trimmed(inner) && Trimmed(text)
    requires if text == "" then off == 0 else OffsetValue(text) == Some(off)
    requires forall k :: 0 <= k < |text| ==> text[k] != ']'
    ensures Peeled("[" + (b1 + inner + b2) + "]" + (b3 + text + b4), offsets) == Peeled(inner, offsets + [off])
  {
    hide Trim, OffsetValue;
    TrimAround(b1, inner, b2);
    TrimAround(b3, text, b4);
    var e := "[" + (b1 + inner + b2) + "]" + (b3 + text + b4);
    var close := 1 + |b1 + inner + b2|;
    assert e[close] == ']';
    assert e[close + 1..] == b3 + text + b4 && e[1..close] == b1 + inner + b2;
    forall k | close < k < |e| ensures e[k] != ']' { assert e[k] == (b3 + text + b4)[k - close - 1]; }
    assert LastClose(e) == Some(close);
  }

  /** Only text that begins with a bracket is a chain at all. */
  lemma {:induction false} ChainBegins(text: string, b1: string, b2: string)
    requires AllBlank(b1) && AllBlank(b2) && Trimmed(text)
    ensures Parsed(b1 + text + b2) == if text != "" && text[0] == '[' then Peeled(text, []) else None
  {
    hide Trim;
    TrimAround(b1, text, b2);
  }

  lemma {:induction false} HexIsNumeral(n: nat)
    ensures Hex(n) == Numeral(n, 16, "0123456789abcdef")
  {
    if n >= 16 { HexIsNumeral(n / 16); }
  }

  /** How a chain is written: each level in brackets, then a sign and lower-case digits, also for zero. */
  lemma {:induction false} LevelWritten(base: string, offsets: seq<int>)
    requires InRange(offsets)
    ensures offsets == [] ==> Built(base, offsets) == base
    ensures offsets != [] ==>
              var off := offsets[0];
              Built(base, offsets) == "[" + Built(base, offsets[1..]) + "]"
                + (if off >= 0 then "+" + Numeral(off, 16, "0123456789abcdef") else "-" + Numeral(0 - off, 16, "0123456789abcdef"))
  {
    if offsets != [] { HexIsNumeral(if offsets[0] >= 0 then offsets[0] else 0 - offsets[0]); }
  }
}
