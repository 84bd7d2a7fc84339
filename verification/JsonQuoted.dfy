/** core/ct_file.cpp, `jsonInteger`: integers that a table keeps as quoted text, in three bases. */
module JsonQuoted {
  import opened Memory
  import opened Texts
  import opened JsonIntegers

  // -------------------------------------------------------------- digits of a base

  predicate IsSpace(c: char) { c == ' ' || '\U{0009}' <= c <= '\U{000D}' }
  predicate AllSpace(s: string) { forall i :: 0 <= i < |s| ==> IsSpace(s[i]) }

  predicate InBase(s: string, base: nat) { forall i :: 0 <= i < |s| ==> DigitWeight(s[i]) < base }

  function ValIn(s: string, base: nat): nat
  {
    if s == "" then 0 else base * ValIn(s[..|s| - 1], base) + DigitWeight(s[|s| - 1])
  }

  lemma {:induction false} ValInLast(s: string, base: nat)
    requires s != ""
    ensures ValIn(s, base) == base * ValIn(s[..|s| - 1], base) + DigitWeight(s[|s| - 1])
  {
  }

  lemma {:induction false} AtLeast(x: nat, p: nat)
    requires p > 0
    ensures p * x >= x
  {
  }

  lemma {:induction false} ValInGrows(s: string, base: nat, i: nat)
    requires base > 0 && i <= |s|
    ensures ValIn(s[..i], base) <= ValIn(s, base)
  {
    hide ValIn, DigitWeight;
    if i < |s| {
      var n := |s| - 1;
      assert s[..n][..i] == s[..i];
      ValInGrows(s[..n], base, i);
      ValInLast(s, base);
      AtLeast(ValIn(s[..n], base), base);
    } else {
      assert s[..i] == s;
    }
  }

  lemma {:induction false} ValInNext(s: string, base: nat, i: nat)
    requires i < |s|
    ensures ValIn(s[..0], base) == 0 && ValIn(s[..i + 1], base) == base * ValIn(s[..i], base) + DigitWeight(s[i])
  {
    assert s[..i + 1][..i] == s[..i];
  }

  lemma {:induction false} ZeroInFront(s: string, base: nat)
    ensures ValIn("0" + s, base) == ValIn(s, base)
  {
    if s == "" {
      assert "0" + s == "0" && "0"[..0] == "";
    } else {
      ZeroInFront(s[..|s| - 1], base);
      assert ("0" + s)[..|s|] == "0" + s[..|s| - 1];
    }
  }

  /** All of the digits, or None at a character that is none and beyond 64 bits. */
  method FromChars(s: string, base: nat) returns (m: Option<nat>)
    requires base > 0
    ensures m == if s != "" && InBase(s, base) && ValIn(s, base) <= UINT64_MAX then Some(ValIn(s, base)) else None
  {
    if s == "" { return None; }
    hide ValIn;
    ValInNext(s, base, 0);
    var value := 0;
    for i := 0 to |s|
      invariant value == ValIn(s[..i], base) <= UINT64_MAX
      invariant forall j :: 0 <= j < i ==> DigitWeight(s[j]) < base
    {
      if DigitWeight(s[i]) >= base { return None; }
      ValInNext(s, base, i);
      value := base * value + DigitWeight(s[i]);
      if value > UINT64_MAX {
        ValInGrows(s, base, i + 1);
        return None;
      }
    }
    assert s[..|s|] == s;
    return Some(value);
  }

  // ------------------------------------------------------------- the quoted text

  /** The text taken apart: space around a sign, the prefix of a base, and digits of that base. */
  datatype Quoted = Quoted(before: string, sign: string, prefix: string, digits: string, after: string)

  function Base(prefix: string): nat { if prefix == "" then 10 else if prefix == "0" then 8 else 16 }

  /** Decimal digits do not begin with a zero unless it is all there is: that is the prefix of base eight. */
  predicate IsQuoted(q: Quoted)
  {
    && AllSpace(q.before) && AllSpace(q.after) && q.sign in {"", "+", "-"} && q.prefix in {"", "0", "0x", "0X"}
    && q.digits != "" && InBase(q.digits, Base(q.prefix)) && (q.prefix == "" && |q.digits| > 1 ==> q.digits[0] != '0')
  }

  function QuotedText(q: Quoted): string { q.before + Inner(q) + q.after }
  function Inner(q: Quoted): string { q.sign + (q.prefix + q.digits) }

  function QuotedValue(q: Quoted): int
  {
    var m := ValIn(q.digits, Base(q.prefix));
    if q.sign == "-" then 0 - m else m
  }

  // ------------------------------------------------------------------ reading it

  function WithoutFront(s: string): string
  {
    if s != "" && IsSpace(s[0]) then WithoutFront(s[1..]) else s
  }

  function WithoutBack(s: string): string
  {
    if s != "" && IsSpace(s[|s| - 1]) then WithoutBack(s[..|s| - 1]) else s
  }

  function Trimmed(s: string): string { WithoutBack(WithoutFront(s)) }

  /** Digits with the prefix of their base. */
  function Unsigned(t: string): Option<nat>
  {
    var based := |t| > 1 && t[0] == '0';
    var hex := based && (t[1] == 'x' || t[1] == 'X');
    var base := if hex then 16 else if based then 8 else 10;
    var digits := if hex then t[2..] else t;
    if digits != "" && InBase(digits, base) && ValIn(digits, base) <= UINT64_MAX then Some(ValIn(digits, base)) else None
  }

  function Signed(s: string): Option<int>
  {
    if s == "" then None
    else
      var m := Unsigned(if s[0] == '-' || s[0] == '+' then s[1..] else s);
      if m.None? then None else Some(if s[0] == '-' then 0 - m.value else m.value)
  }

  lemma {:induction false} FrontSpace(before: string, s: string)
    requires AllSpace(before) && (s == "" || !IsSpace(s[0]))
    ensures WithoutFront(before + s) == s
  {
    if before == "" {
      assert before + s == s;
    } else {
      FrontSpace(before[1..], s);
      assert (before + s)[1..] == before[1..] + s;
    }
  }

  lemma {:induction false} BackSpace(s: string, after: string)
    requires AllSpace(after) && (s == "" || !IsSpace(s[|s| - 1]))
    ensures WithoutBack(s + after) == s
  {
    if after == "" {
      assert s + after == s;
    } else {
      BackSpace(s, after[..|after| - 1]);
      assert (s + after)[..|s + after| - 1] == s + after[..|after| - 1];
    }
  }

  lemma {:induction false} FrontIsSpace(s: string) returns (before: string)
    ensures AllSpace(before) && s == before + WithoutFront(s)
  {
    if s != "" && IsSpace(s[0]) {
      var more := FrontIsSpace(s[1..]);
      before := [s[0]] + more;
    } else {
      before := "";
    }
  }

  lemma {:induction false} BackIsSpace(s: string) returns (after: string)
    ensures AllSpace(after) && s == WithoutBack(s) + after
  {
    if s != "" && IsSpace(s[|s| - 1]) {
      var more := BackIsSpace(s[..|s| - 1]);
      after := more + [s[|s| - 1]];
    } else {
      after := "";
    }
  }

  lemma {:induction false} InnerHasNoSpace(q: Quoted)
    requires IsQuoted(q)
    ensures var s := Inner(q); s != "" && !IsSpace(s[0]) && !IsSpace(s[|s| - 1])
  {
    var s := Inner(q);
    assert s[|s| - 1] == q.digits[|q.digits| - 1];
    assert DigitWeight(q.digits[0]) < Base(q.prefix) && DigitWeight(q.digits[|q.digits| - 1]) < Base(q.prefix);
    assert s[0] == if q.sign != "" then q.sign[0] else if q.prefix != "" then q.prefix[0] else q.digits[0];
  }

  /** Prefix and digits are read in the base of the prefix. */
  lemma {:induction false} UnsignedOf(q: Quoted)
    requires IsQuoted(q)
    ensures var m := ValIn(q.digits, Base(q.prefix));
            Unsigned(q.prefix + q.digits) == if m <= UINT64_MAX then Some(m) else None
    ensures (q.prefix + q.digits)[0] != '-' && (q.prefix + q.digits)[0] != '+'
  {
    hide ValIn;
    var t, d := q.prefix + q.digits, q.digits;
    assert DigitWeight(d[0]) < Base(q.prefix);
    if q.prefix == "" {
      assert t == d;
    } else if q.prefix == "0" {
      ZeroInFront(d, 8);
      assert t[1] == d[0] && InBase(t, 8);
    } else {
      assert t[2..] == d && t[1] == q.prefix[1];
    }
  }

  lemma {:induction false} ReadsQuoted(q: Quoted)
    requires IsQuoted(q)
    ensures var v := QuotedValue(q);
            Signed(Trimmed(QuotedText(q))) == if -UINT64_MAX <= v <= UINT64_MAX then Some(v) else None
  {
    hide ValIn, Unsigned, InBase;
    InnerHasNoSpace(q);
    assert QuotedText(q) == q.before + (Inner(q) + q.after);
    assert (Inner(q) + q.after)[0] == Inner(q)[0];
    FrontSpace(q.before, Inner(q) + q.after);
    BackSpace(Inner(q), q.after);
    UnsignedOf(q);
    var t := q.prefix + q.digits;
    assert q.sign == "" ==> Inner(q) == t;
    assert q.sign != "" ==> Inner(q)[1..] == t && Inner(q)[0] == q.sign[0];
  }

  lemma {:induction false} UnsignedIsQuoted(t: string) returns (prefix: string, digits: string)
    requires Unsigned(t).Some?
    ensures IsQuoted(Quoted("", "", prefix, digits, "")) && t == prefix + digits
    ensures ValIn(digits, Base(prefix)) == Unsigned(t).value
  {
    hide ValIn;
    if |t| > 1 && t[0] == '0' {
      if t[1] == 'x' || t[1] == 'X' {
        prefix, digits := t[..2], t[2..];
        assert prefix == "0x" || prefix == "0X";
      } else {
        prefix, digits := "0", t[1..];
        assert t == "0" + digits;
        ZeroInFront(digits, 8);
      }
    } else {
      prefix, digits := "", t;
      assert t == "" + digits;
    }
  }

  lemma {:induction false} ReadIsQuoted(text: string) returns (q: Quoted)
    requires Signed(Trimmed(text)).Some?
    ensures IsQuoted(q) && QuotedText(q) == text && QuotedValue(q) == Signed(Trimmed(text)).value
  {
    hide *;
    var before := FrontIsSpace(text);
    var after := BackIsSpace(WithoutFront(text));
    TrimmedIs(text);
    var sign, prefix, digits := SignedIsQuoted(Trimmed(text));
    q := Quoted(before, sign, prefix, digits, after);
    QuotedBetween(text, q, Signed(Trimmed(text)).value);
  }

  lemma {:induction false} TrimmedIs(text: string)
    ensures Trimmed(text) == WithoutBack(WithoutFront(text))
  {
  }

  lemma {:induction false} SignedIsQuoted(s: string) returns (sign: string, prefix: string, digits: string)
    requires Signed(s).Some?
    ensures var q := Quoted("", sign, prefix, digits, "");
            IsQuoted(q) && s == sign + (prefix + digits) && QuotedValue(q) == Signed(s).value
  {
    hide ValIn, Unsigned, InBase;
    sign := if s[0] == '-' || s[0] == '+' then [s[0]] else "";
    var t := s[|sign|..];
    prefix, digits := UnsignedIsQuoted(t);
    assert s == sign + t;
  }

  /** Space around it changes nothing. */
  lemma {:induction false} QuotedBetween(text: string, q: Quoted, v: int)
    requires AllSpace(q.before) && AllSpace(q.after) && text == q.before + (q.sign + (q.prefix + q.digits) + q.after)
    requires IsQuoted(q.(before := "", after := "")) && QuotedValue(q.(before := "", after := "")) == v
    ensures IsQuoted(q) && QuotedText(q) == text && QuotedValue(q) == v
  {
    hide ValIn, InBase;
    assert q.before + (Inner(q) + q.after) == q.before + Inner(q) + q.after;
  }

  /** The integer from `lo` to `hi` that a quoted text stands for. */
  method QuotedInteger(text: string, lo: int, hi: int) returns (r: Option<int>)
    requires (lo == 0 && 0 < hi <= UINT64_MAX) || (lo == -hi - 1 && 0 < hi <= UINT64_MAX / 2)
    ensures forall v: int :: r == Some(v) <==> lo <= v <= hi && exists q :: IsQuoted(q) && QuotedText(q) == text && QuotedValue(q) == v
  {
    hide IsQuoted, QuotedText, QuotedValue, ValIn, InBase, IsSpace;
    ghost var meant := Signed(Trimmed(text));
    ReadsExactly(text);
    var token := text;
    while token != "" && IsSpace(token[0])
      invariant WithoutFront(token) == WithoutFront(text)
      decreases |token|
    {
      token := token[1..];
    }
    while token != "" && IsSpace(token[|token| - 1])
      invariant WithoutBack(token) == Trimmed(text)
      decreases |token|
    {
      token := token[..|token| - 1];
    }
    if token == "" { return None; }
    var negative := token[0] == '-';
    if negative || token[0] == '+' { token := token[1..]; }
    if token == "" { return None; }
    var base := 10;
    if |token| > 1 && token[0] == '0' {
      base := 8;
      if token[1] == 'x' || token[1] == 'X' {
        base := 16;
        token := token[2..];
      }
    }
    var magnitude := FromChars(token, base);
    if magnitude.None? { return None; }
    ghost var value: int := magnitude.value;
    if negative { value := 0 - value; }
    assert meant == Some(value);
    r := InRange(magnitude.value, negative, lo, hi);
  }

  lemma {:induction false} ReadsExactly(text: string)
    ensures forall v: int :: -UINT64_MAX <= v <= UINT64_MAX ==>
              (Signed(Trimmed(text)) == Some(v) <==> exists q :: IsQuoted(q) && QuotedText(q) == text && QuotedValue(q) == v)
  {
    hide *;
    forall v: int | -UINT64_MAX <= v <= UINT64_MAX
      ensures Signed(Trimmed(text)) == Some(v) <==> exists q :: IsQuoted(q) && QuotedText(q) == text && QuotedValue(q) == v
    {
      if Signed(Trimmed(text)) == Some(v) { var q := ReadIsQuoted(text); }
      if q :| IsQuoted(q) && QuotedText(q) == text && QuotedValue(q) == v { ReadsQuoted(q); }
    }
  }

  // ------------------------------------------------------- numerals, written out

  /** The white space of C: blank, tab, line feed, vertical tab, form feed and carriage return. */
  lemma {:induction false} SpacesAre(c: char)
    ensures IsSpace(c) <==> c == ' ' || c == '\t' || c == '\n' || c == '\U{000B}' || c == '\U{000C}' || c == '\r'
  {
  }

  lemma {:induction false} NumeralValue(n: nat, base: nat, digits: string)
    requires base in {8, 10, 16} && digits in {"0123456789abcdef", "0123456789ABCDEF"}
    ensures InBase(Numeral(n, base, digits), base) && ValIn(Numeral(n, base, digits), base) == n
    ensures n > 0 ==> Numeral(n, base, digits)[0] != '0'
    decreases n
  {
    hide ValIn, InBase, DigitWeight;
    if n < base {
      DigitMore("", 0, n, base, digits);
      assert "" + [digits[n]] == [digits[n]];
    } else {
      Quotient(n, base);
      NumeralValue(n / base, base, digits);
      DigitMore(Numeral(n / base, base, digits), n / base, n % base, base, digits);
    }
  }

  lemma {:induction false} Quotient(n: nat, base: nat)
    requires base in {8, 10, 16} && n >= base
    ensures base * (n / base) + n % base == n && 0 < n / base < n && 0 <= n % base < base
  {
  }

  lemma {:induction false} DigitMore(front: string, v: nat, w: nat, base: nat, digits: string)
    requires base in {8, 10, 16} && digits in {"0123456789abcdef", "0123456789ABCDEF"} && w < base
    requires if front == "" then v == 0 else InBase(front, base) && ValIn(front, base) == v
    ensures InBase(front + [digits[w]], base) && ValIn(front + [digits[w]], base) == base * v + w
    ensures w > 0 ==> digits[w] != '0'
  {
    hide DigitWeight;
    DigitTable('0');
    assert DigitWeight(digits[w]) == w && DigitWeight('0') == 0 by { assert digits[0] == '0'; }
    assert (front + [digits[w]])[..|front|] == front;
  }

  /** An integer of 64-bit magnitude can be quoted in decimal, in octal after a 0, and in hexadecimal after
      0x, with a sign and with white space around it; no other number is read from such text. */
  lemma {:induction false} NumeralsRead(before: string, sign: string, prefix: string, n: nat, digits: string, after: string)
    requires AllSpace(before) && AllSpace(after) && sign in {"", "+", "-"} && prefix in {"", "0", "0x", "0X"}
    requires digits in {"0123456789abcdef", "0123456789ABCDEF"}
    ensures var base := if prefix == "" then 10 else if prefix == "0" then 8 else 16;
            var text := before + (sign + (prefix + Numeral(n, base, digits))) + after;
            Signed(Trimmed(text)) == if n <= 0xFFFF_FFFF_FFFF_FFFF then Some(if sign == "-" then 0 - n else n) else None
  {
    hide ValIn, InBase, IsSpace, Unsigned, Numeral;
    var base := if prefix == "" then 10 else if prefix == "0" then 8 else 16;
    NumeralValue(n, base, digits);
    if n == 0 { ZeroNumeral(base, digits); }
    ReadsQuoted(Quoted(before, sign, prefix, Numeral(n, base, digits), after));
  }

  lemma {:induction false} ZeroNumeral(base: nat, digits: string)
    requires base in {8, 10, 16} && |digits| >= base
    ensures |Numeral(0, base, digits)| == 1
  {
  }
}
