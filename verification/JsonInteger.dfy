/**
  core/ct_file.cpp, `jsonInteger`: the exact integer a JSON number token stands for, its fraction and
  exponent included.
 */
module JsonIntegers {
  import opened Memory

  const UINT64_MAX: int := 0xFFFF_FFFF_FFFF_FFFF

  predicate IsDigit(c: char) { '0' <= c <= '9' }
  predicate Digits(s: string) { forall i :: 0 <= i < |s| ==> IsDigit(s[i]) }
  function DigitOf(c: char): nat requires IsDigit(c) { c as int - '0' as int }

  /** A number token by the grammar of section 6 of RFC 8259, taken apart. `exp` holds the
      exponent's letter, its sign if written, and its digits. */
  datatype Exponent = Exponent(letter: char, sign: string, digits: string)
  datatype Number = Number(negative: bool, whole: string, fraction: Option<string>, exponent: Option<Exponent>)

  predicate IsNumber(n: Number)
  {
    && Digits(n.whole) && n.whole != "" && (n.whole[0] == '0' ==> |n.whole| == 1)
    && (n.fraction.Some? ==> Digits(n.fraction.value) && n.fraction.value != "")
    && (n.exponent.Some? ==>
          && n.exponent.value.letter in {'e', 'E'} && n.exponent.value.sign in {"", "+", "-"}
          && Digits(n.exponent.value.digits) && n.exponent.value.digits != "")
  }

  function Coefficient(n: Number): string { n.whole + (if n.fraction.Some? then "." + n.fraction.value else "") }
  function Tail(n: Number): string
  {
    if n.exponent.None? then "" else [n.exponent.value.letter] + n.exponent.value.sign + n.exponent.value.digits
  }
  function Text(n: Number): string { (if n.negative then "-" else "") + Coefficient(n) + Tail(n) }

  // ------------------------------------------------------------- its value

  function Pow10(n: nat): (p: nat)
    ensures p > 0
  {
    if n == 0 then 1 else 10 * Pow10(n - 1)
  }

  function Val(s: string): nat
    requires Digits(s)
  {
    if s == "" then 0 else 10 * Val(s[..|s| - 1]) + DigitOf(s[|s| - 1])
  }

  function AllDigits(n: Number): string { n.whole + (if n.fraction.Some? then n.fraction.value else "") }
  function Places(n: Number): nat { if n.fraction.Some? then |n.fraction.value| else 0 }
  function Shift(n: Number): int
    requires IsNumber(n)
  {
    (if n.exponent.None? then 0
     else if n.exponent.value.sign == "-" then -(Val(n.exponent.value.digits) as int)
     else Val(n.exponent.value.digits)) - Places(n)
  }

  /** The token's exact rational value, digits times a power of ten, is the integer `v`. */
  predicate Denotes(n: Number, v: int)
    requires IsNumber(n)
  {
    var d := Val(AllDigits(n));
    var k := Shift(n);
    var m := if n.negative then -v else v;
    if k >= 0 then m == d * Pow10(k) else m * Pow10(-k) == d
  }

  // ------------------------------------------------------------ arithmetic

  lemma {:induction false} ValLast(s: string)
    requires Digits(s)
    ensures Val(s) == if s == "" then 0 else 10 * Val(s[..|s| - 1]) + DigitOf(s[|s| - 1])
  {
  }

  lemma {:induction false} PowNext(n: nat)
    ensures Pow10(0) == 1 && Pow10(n + 1) == 10 * Pow10(n)
  {
  }

  lemma {:induction false} TenTimes(x: int, p: int, r: int)
    ensures 10 * (x * p + r) == x * (10 * p) + 10 * r
  {
  }

  lemma {:induction false} ValConcat(a: string, b: string)
    requires Digits(a) && Digits(b)
    ensures Digits(a + b) && Val(a + b) == Val(a) * Pow10(|b|) + Val(b)
  {
    hide Val, Pow10;
    ValLast(b);
    if b == "" {
      assert a + b == a;
      PowNext(0);
    } else {
      var n := |b| - 1;
      ValConcat(a, b[..n]);
      assert (a + b)[..|a + b| - 1] == a + b[..n];
      ValLast(a + b);
      PowNext(n);
      TenTimes(Val(a), Pow10(n), Val(b[..n]));
    }
  }

  lemma {:induction false} ValBound(s: string)
    requires Digits(s)
    ensures Val(s) < Pow10(|s|)
  {
    if s != "" { ValBound(s[..|s| - 1]); }
  }

  lemma {:induction false} ValZero(s: string)
    requires Digits(s)
    ensures Val(s) == 0 <==> forall i :: 0 <= i < |s| ==> s[i] == '0'
  {
    if s != "" {
      var t := s[..|s| - 1];
      ValZero(t);
      if forall i :: 0 <= i < |s| ==> s[i] == '0' {
        assert forall i :: 0 <= i < |t| ==> t[i] == s[i];
      }
      if Val(s) == 0 {
        forall i | 0 <= i < |s| ensures s[i] == '0' { if i < |t| { assert t[i] == s[i]; } }
      }
    }
  }

  lemma {:induction false} ValLeading(s: string)
    requires Digits(s) && s != "" && s[0] != '0'
    ensures Val(s) >= Pow10(|s| - 1)
  {
    var a, b := s[..1], s[1..];
    assert s == a + b;
    ValConcat(a, b);
    assert a[..0] == "" && Val(a) == DigitOf(s[0]) >= 1;
    AtLeastOnce(Val(a), Pow10(|b|));
  }

  lemma {:induction false} AtLeastOnce(k: nat, p: nat)
    requires k >= 1
    ensures k * p >= p
  {
  }

  lemma {:induction false} PowAdd(a: nat, b: nat)
    ensures Pow10(a + b) == Pow10(a) * Pow10(b)
  {
    if a > 0 {
      PowAdd(a - 1, b);
      assert Pow10(a + b) == 10 * Pow10(a - 1 + b);
      assert 10 * (Pow10(a - 1) * Pow10(b)) == (10 * Pow10(a - 1)) * Pow10(b);
    }
  }

  lemma {:induction false} PowMonotone(a: nat, b: nat)
    requires a <= b
    ensures Pow10(a) <= Pow10(b)
  {
    if a < b { PowMonotone(a, b - 1); }
  }

  lemma {:induction false} PowTwenty()
    ensures Pow10(20) == 100_000_000_000_000_000_000
    ensures Pow10(20) > UINT64_MAX
  {
    assert Pow10(5) == 100_000;
    PowAdd(5, 5);
    PowAdd(10, 10);
  }

  // ---------------------------------------------------- when it is an integer

  /** `m` is `d` times ten to the `k`. */
  predicate Scaled(d: nat, k: int, m: int)
  {
    if k >= 0 then m == d * Pow10(k) else m * Pow10(-k) == d
  }

  /** A nonzero coefficient with fewer digits than places to remove is no integer. */
  lemma {:induction false} TooManyPlaces(s: string, places: nat, m: int)
    requires Digits(s) && Val(s) > 0 && places > |s|
    ensures !Scaled(Val(s), 0 - places, m)
  {
    ValBound(s);
    PowMonotone(|s|, places);
    if m * Pow10(places) == Val(s) {
      if m >= 1 { AtLeastOnce(m, Pow10(places)); } else { NotPositive(m, Pow10(places)); }
    }
  }

  lemma {:induction false} NotPositive(m: int, p: nat)
    requires m <= 0
    ensures m * p <= 0
  {
  }

  /** Removing places works exactly when only zeros are removed. */
  lemma {:induction false} RemovedZeros(s: string, remove: nat, m: int)
    requires Digits(s) && remove <= |s|
    ensures var end := |s| - remove;
            Digits(s[..end]) &&
            (Scaled(Val(s), 0 - remove, m) <==> (forall i :: end <= i < |s| ==> s[i] == '0') && m == Val(s[..end]))
  {
    hide Val, Pow10;
    var end := |s| - remove;
    var a, b, p := s[..end], s[end..], Pow10(remove);
    assert s == a + b;
    ValConcat(a, b);
    ValBound(b);
    ValZero(b);
    SameTail(s, end, b);
    PowZero();
    if m * p == Val(a) * p + Val(b) { SameQuotient(m, Val(a), p, Val(b)); }
  }

  lemma {:induction false} SameTail(s: string, end: nat, b: string)
    requires end <= |s| && b == s[end..]
    ensures (forall i :: end <= i < |s| ==> s[i] == '0') <==> (forall i :: 0 <= i < |b| ==> b[i] == '0')
  {
    assert forall i :: 0 <= i < |b| ==> b[i] == s[end + i];
    assert forall i :: end <= i < |s| ==> s[i] == b[i - end];
  }

  lemma {:induction false} PowZero()
    ensures Pow10(0) == 1
  {
  }

  lemma {:induction false} SameQuotient(m: int, a: int, p: nat, r: nat)
    requires p > 0 && r < p && m * p == a * p + r
    ensures m == a && r == 0
  {
    assert (m - a) * p == r by { assert (m - a) * p == m * p - a * p; }
    if m > a { AtLeastOnce(m - a, p); } else { NotPositive(m - a, p); }
  }

  /** More than 20 appended zeros leave the 64-bit range. */
  lemma {:induction false} TooManyZeros(d: nat, k: nat, m: int)
    requires d > 0 && k > 20 && Scaled(d, k, m)
    ensures m > UINT64_MAX
  {
    PowTwenty();
    PowMonotone(20, k);
    AtLeastOnce(d, Pow10(k));
  }

  // ------------------------------------------------------------- the loops

  /** The coefficient's digits without its point, how many follow the point, and where it ends. */
  method ScanCoefficient(token: string, ghost n: Number) returns (digits: string, fractional: nat, pos: nat)
    requires IsNumber(n) && token == Coefficient(n) + Tail(n)
    ensures digits == AllDigits(n) && fractional == Places(n) && pos == |Coefficient(n)|
  {
    hide IsNumber, Coefficient, Tail, Text, Shift, Digits, Places, AllDigits;
    CoefficientParts(n, token);
    digits, fractional, pos := "", 0, 0;
    var afterPoint := false;
    ghost var w := |n.whole|;
    while pos < |token| && token[pos] != 'e' && token[pos] != 'E'
      invariant pos <= |Coefficient(n)|
      invariant afterPoint <==> pos > w
      invariant pos <= w ==> digits == n.whole[..pos] && fractional == 0
      invariant pos > w ==> n.fraction.Some? && fractional == pos - w - 1 && digits == n.whole + n.fraction.value[..fractional]
    {
      CoefficientAt(n, token, pos);
      if token[pos] == '.' {
        afterPoint := true;
        assert n.whole[..w] == n.whole;
        pos := pos + 1;
        continue;
      }
      digits := digits + [token[pos]];
      if afterPoint { fractional := fractional + 1; }
      pos := pos + 1;
    }
    if pos < |Coefficient(n)| { CoefficientAt(n, token, pos); }
    assert n.whole[..w] == n.whole;
    if n.fraction.Some? { assert n.fraction.value[..Places(n)] == n.fraction.value; }
  }

  lemma {:induction false} CoefficientParts(n: Number, token: string)
    requires IsNumber(n) && token == Coefficient(n) + Tail(n)
    ensures |Coefficient(n)| <= |token| && Places(n) == (if n.fraction.Some? then |n.fraction.value| else 0)
    ensures |Coefficient(n)| == |n.whole| + if n.fraction.Some? then 1 + |n.fraction.value| else 0
    ensures AllDigits(n) == if n.fraction.Some? then n.whole + n.fraction.value else n.whole
    ensures n.fraction.Some? ==> |n.fraction.value| > 0
  {
  }

  lemma {:induction false} CoefficientAt(n: Number, token: string, pos: nat)
    requires IsNumber(n) && token == Coefficient(n) + Tail(n) && pos < |token|
    ensures pos < |Coefficient(n)| ==>
              && token[pos] != 'e' && token[pos] != 'E'
              && (pos < |n.whole| ==> token[pos] == n.whole[pos] && token[pos] != '.')
              && (pos == |n.whole| ==> token[pos] == '.')
              && (pos > |n.whole| ==> n.fraction.Some? && token[pos] == n.fraction.value[pos - |n.whole| - 1] && token[pos] != '.')
    ensures pos == |Coefficient(n)| ==> token[pos] == 'e' || token[pos] == 'E'
  {
  }

  /** The exponent's magnitude, or None as soon as it is known to exceed `bound`. */
  method ScanExponent(digits: string, bound: nat) returns (exponent: Option<nat>)
    requires Digits(digits) && bound >= 20
    ensures exponent == if Val(digits) <= bound then Some(Val(digits)) else None
  {
    var e := 0;
    for i := 0 to |digits|
      invariant e == Val(digits[..i]) <= bound
    {
      var digit := DigitOf(digits[i]);
      assert digits[..i + 1][..i] == digits[..i];
      if e > (bound - digit) / 10 {
        ValPrefix(digits, i + 1);
        return None;
      }
      e := e * 10 + digit;
    }
    assert digits[..|digits|] == digits;
    return Some(e);
  }

  lemma {:induction false} ValPrefix(s: string, i: nat)
    requires Digits(s) && i <= |s|
    ensures Digits(s[..i]) && Val(s) >= Val(s[..i])
  {
    hide Val, Pow10;
    assert s == s[..i] + s[i..];
    ValConcat(s[..i], s[i..]);
    Grows(Val(s[..i]), Pow10(|s[i..]|));
  }

  lemma {:induction false} Grows(x: nat, p: nat)
    requires p >= 1
    ensures x * p >= x
  {
  }

  lemma {:induction false} NoDigits(s: string)
    ensures s[..0] == "" && Digits(s[..0]) && Val(s[..0]) == 0
  {
  }

  lemma {:induction false} NextDigit(s: string, i: nat)
    requires Digits(s) && i < |s|
    ensures Val(s[..i + 1]) == 10 * Val(s[..i]) + DigitOf(s[i])
  {
    assert s[..i + 1][..i] == s[..i];
  }

  /** The first `end` digits followed by `append` zeros, or None beyond 64 bits. */
  method Magnitude(digits: string, end: nat, append: nat) returns (m: Option<nat>)
    requires Digits(digits) && end <= |digits|
    ensures var v := Val(digits[..end]) * Pow10(append);
            m == if v <= UINT64_MAX then Some(v) else None
  {
    hide Val, Pow10;
    ghost var all := WithZeros(digits, end, append);
    NoDigits(all);
    var magnitude := 0;
    for i := 0 to end + append
      invariant magnitude == Val(all[..i]) <= UINT64_MAX
    {
      OneDigit(digits, end, all, i);
      var digit := if i < end then DigitOf(digits[i]) else 0;
      if magnitude > (UINT64_MAX - digit) / 10 {
        ValPrefix(all, i + 1);
        return None;
      }
      magnitude := magnitude * 10 + digit;
    }
    assert all[..|all|] == all;
    return Some(magnitude);
  }

  /** The digits that are gone through. */
  ghost function WithZeros(digits: string, end: nat, append: nat): (all: string)
    requires Digits(digits) && end <= |digits|
    ensures Digits(all) && |all| == end + append && Val(all) == Val(digits[..end]) * Pow10(append)
    ensures forall i :: 0 <= i < |all| ==> all[i] == if i < end then digits[i] else '0'
  {
    var zeros := seq(append, _ => '0');
    ValConcat(digits[..end], zeros);
    ValZero(zeros);
    digits[..end] + zeros
  }

  lemma {:induction false} OneDigit(digits: string, end: nat, all: string, i: nat)
    requires Digits(digits) && Digits(all) && end <= |digits| && i < |all|
    requires all[i] == if i < end then digits[i] else '0'
    ensures i < end ==> IsDigit(digits[i])
    ensures Digits(all[..i]) && Digits(all[..i + 1])
    ensures Val(all[..i + 1]) == 10 * Val(all[..i]) + if i < end then DigitOf(digits[i]) else 0
    ensures i < end ==> DigitOf(digits[i]) < 10
  {
    hide Val;
    NextDigit(all, i);
  }

  // ------------------------------------------------------------ the function

  const SIZE_MAX: int := 0xFFFF_FFFF_FFFF_FFFF

  /** Leading zeros do not count. */
  lemma {:induction false} WithoutZeros(s: string, first: nat)
    requires Digits(s) && first <= |s| && forall i :: 0 <= i < first ==> s[i] == '0'
    ensures Digits(s[first..]) && Val(s[first..]) == Val(s)
  {
    hide Val, Pow10;
    var z := s[..first];
    assert s == z + s[first..];
    ValConcat(z, s[first..]);
    ValZero(z);
  }

  /** How the exponent's sign, digits and the places after the point become a shift. */
  lemma {:induction false} ShiftIs(n: Number, token: string, pos: nat)
    requires IsNumber(n) && token == Coefficient(n) + Tail(n) && pos == |Coefficient(n)|
    ensures n.exponent.None? <==> pos == |token|
    ensures pos < |token| ==>
              var signed := token[pos + 1] == '-' || token[pos + 1] == '+';
              var from := if signed then pos + 2 else pos + 1;
              && pos + 1 < |token| && from <= |token| && token[from..] == n.exponent.value.digits
              && (token[pos + 1] == '-' <==> n.exponent.value.sign == "-")
  {
    if n.exponent.Some? {
      var e := n.exponent.value;
      var c := Coefficient(n);
      assert token[pos + 1] == (e.sign + e.digits)[0];
      var from := pos + 1 + |e.sign|;
      assert token[from..] == e.digits;
      if e.sign == "" { assert IsDigit(e.digits[0]); }
    }
  }

  /** The outcome of the decimal part: `m` is the magnitude, or there is none within 64 bits. */
  ghost predicate Decides(d: nat, k: int, m: Option<nat>)
  {
    forall x: nat :: (x <= UINT64_MAX && Scaled(d, k, x)) <==> m == Some(x)
  }

  /** Shift a coefficient with no leading zero. */
  method ShiftDigits(digits: string, fractional: nat, exponent: nat, negativeExponent: bool) returns (m: Option<nat>)
    requires Digits(digits) && digits != "" && digits[0] != '0'
    ensures Decides(Val(digits), (if negativeExponent then 0 - exponent else exponent) - fractional, m)
  {
    hide Val, Pow10;
    ghost var k := (if negativeExponent then 0 - exponent else exponent) - fractional;
    Positive(digits);
    var remove, append := 0, 0;
    if negativeExponent {
      if exponent > |digits| || fractional > |digits| - exponent {
        NoPlaces(digits, fractional + exponent);
        return None;
      }
      remove := fractional + exponent;
    } else if exponent >= fractional {
      append := exponent - fractional;
    } else {
      remove := fractional - exponent;
    }
    if remove > |digits| || append > 20 {
      if remove > |digits| { NoPlaces(digits, remove); } else { NoZeros(Val(digits), append); }
      return None;
    }
    var end := |digits| - remove;
    for i := end to |digits|
      invariant forall j :: end <= j < i ==> digits[j] == '0'
    {
      if digits[i] != '0' {
        forall x: nat ensures !Scaled(Val(digits), k, x) { RemovedZeros(digits, remove, x); }
        return None;
      }
    }
    m := Magnitude(digits, end, append);
    assert append > 0 ==> digits[..end] == digits;
    PowZero();
    forall x: nat ensures Scaled(Val(digits), k, x) <==> x == Val(digits[..end]) * Pow10(append) {
      if append == 0 { RemovedZeros(digits, remove, x); }
    }
  }

  lemma {:induction false} Positive(s: string)
    requires Digits(s) && s != "" && s[0] != '0'
    ensures Val(s) > 0
  {
    ValLeading(s);
  }

  lemma {:induction false} NoPlaces(s: string, places: nat)
    requires Digits(s) && Val(s) > 0 && places > |s|
    ensures Decides(Val(s), 0 - places, None)
  {
    hide Scaled;
    var d, k := Val(s), 0 - places;
    forall x: nat ensures !Scaled(d, k, x) { TooManyPlaces(s, places, x); }
  }

  lemma {:induction false} NoZeros(d: nat, k: nat)
    requires d > 0 && k > 20
    ensures Decides(d, k, None)
  {
    hide Scaled;
    forall x: nat | Scaled(d, k, x) ensures x > UINT64_MAX { TooManyZeros(d, k, x); }
  }

  /** Past the exponent cut-off nothing representable is lost. */
  lemma {:induction false} CutOff(digits: string, fractional: nat, exponent: nat, negativeExponent: bool, length: nat)
    requires Digits(digits) && Val(digits) > 0 && |digits| <= length && fractional <= length && exponent > length + 20
    ensures Decides(Val(digits), (if negativeExponent then 0 - exponent else exponent) - fractional, None)
  {
    hide Val;
    if negativeExponent { NoPlaces(digits, exponent + fractional); } else { NoZeros(Val(digits), exponent - fractional); }
  }

  /** A number token without its minus sign. */
  method DecimalMagnitude(token: string, ghost n: Number) returns (m: Option<nat>)
    requires IsNumber(n) && token == Coefficient(n) + Tail(n) && |token| <= SIZE_MAX - 20
    ensures Digits(AllDigits(n)) && Decides(Val(AllDigits(n)), Shift(n), m)
  {
    hide *;
    var digits, fractional, pos := ScanCoefficient(token, n);
    NumberParts(n, token);
    var first := 0;
    while first < |digits| && digits[first] == '0'
      invariant first <= |digits| && forall i :: 0 <= i < first ==> digits[i] == '0'
    {
      first := first + 1;
    }
    ghost var all := digits;
    if first == |digits| {
      ZeroCoefficient(digits, Shift(n));
      return Some(0);
    }
    WithoutZeros(digits, first);
    digits := digits[first..];
    Positive(digits);
    ShiftIs(n, token, pos);
    var exponent, negativeExponent := 0, false;
    if pos < |token| {
      pos := pos + 1;
      negativeExponent := token[pos] == '-';
      if token[pos] == '-' || token[pos] == '+' { pos := pos + 1; }
      if |token| > SIZE_MAX - 20 { return None; }
      var e := ScanExponent(token[pos..], |token| + 20);
      if e.None? {
        CutOff(digits, fractional, Val(n.exponent.value.digits), negativeExponent, |token|);
        return None;
      }
      exponent := e.value;
    }
    m := ShiftDigits(digits, fractional, exponent, negativeExponent);
  }

  /** What a scan of a token needs to know of the number in it. */
  lemma {:induction false} NumberParts(n: Number, token: string)
    requires IsNumber(n) && token == Coefficient(n) + Tail(n)
    ensures Digits(AllDigits(n)) && |AllDigits(n)| <= |token| && Places(n) <= |token| && |Coefficient(n)| <= |token|
    ensures n.exponent.None? ==> Shift(n) == 0 - Places(n)
    ensures n.exponent.Some? ==>
              var e := n.exponent.value;
              && Digits(e.digits)
              && Shift(n) == (if e.sign == "-" then 0 - Val(e.digits) else Val(e.digits)) - Places(n)
  {
    hide Val;
  }

  lemma {:induction false} ZeroCoefficient(digits: string, k: int)
    requires Digits(digits) && forall i :: 0 <= i < |digits| ==> digits[i] == '0'
    ensures Decides(Val(digits), k, Some(0))
  {
    hide Val, Pow10;
    ValZero(digits);
    forall x: nat ensures Scaled(0, k, x) <==> x == 0 {
      if k < 0 && x > 0 { AtLeastOnce(x, Pow10(-k)); }
    }
  }

  /** The integer a number token stands for, exactly, if it is one of the integers from `lo` to `hi`:
      a signed type of up to 64 bits, or an unsigned one. */
  method JsonInteger(token: string, lo: int, hi: int, ghost n: Number) returns (r: Option<int>)
    requires IsNumber(n) && token == Text(n) && |token| <= SIZE_MAX - 20
    requires (lo == 0 && 0 < hi <= UINT64_MAX) || (lo == -hi - 1 && 0 < hi <= UINT64_MAX / 2)
    ensures forall v: int :: r == Some(v) <==> Denotes(n, v) && lo <= v <= hi
  {
    var rest := token;
    if rest == "" { return None; }
    var negative := rest[0] == '-';
    if negative { rest := rest[1..]; }
    SignStripped(n);
    if rest == "" { return None; }
    var magnitude := DecimalMagnitude(rest, n);
    DenotesSigned(n, magnitude, lo, hi);
    if magnitude.None? { return None; }
    r := InRange(magnitude.value, negative, lo, hi);
  }

  /** A magnitude and its sign in the type's range. */
  method InRange(magnitude: nat, negative: bool, lo: int, hi: int) returns (r: Option<int>)
    requires (lo == 0 && 0 < hi <= UINT64_MAX) || (lo == -hi - 1 && 0 < hi <= UINT64_MAX / 2)
    ensures var v := if negative then 0 - magnitude else magnitude;
            r == if lo <= v <= hi then Some(v) else None
  {
    if lo < 0 {
      if magnitude > hi + (if negative then 1 else 0) { return None; }
      if negative && magnitude == hi + 1 { return Some(lo); }
      return Some(if negative then 0 - magnitude else magnitude);
    } else {
      if (negative && magnitude != 0) || magnitude > hi { return None; }
      return Some(magnitude);
    }
  }

  lemma {:induction false} SignStripped(n: Number)
    requires IsNumber(n)
    ensures Text(n) != "" && (Text(n)[0] == '-' <==> n.negative)
    ensures (if n.negative then Text(n)[1..] else Text(n)) == Coefficient(n) + Tail(n)
  {
    assert Coefficient(n)[0] == n.whole[0];
  }

  lemma {:induction false} DenotesSigned(n: Number, magnitude: Option<nat>, lo: int, hi: int)
    requires IsNumber(n) && Digits(AllDigits(n)) && Decides(Val(AllDigits(n)), Shift(n), magnitude)
    requires -UINT64_MAX <= lo <= hi <= UINT64_MAX
    ensures forall v: int :: Denotes(n, v) && lo <= v <= hi <==>
              magnitude.Some? && v == (if n.negative then 0 - magnitude.value else magnitude.value) && lo <= v <= hi
  {
    hide Val, Pow10, Shift;
    var d, k := Val(AllDigits(n)), Shift(n);
    forall v: int | lo <= v <= hi
      ensures Denotes(n, v) <==> magnitude.Some? && v == (if n.negative then 0 - magnitude.value else magnitude.value)
    {
      var m := if n.negative then -v else v;
      assert Denotes(n, v) <==> Scaled(d, k, m);
      if m < 0 { NeverNegative(d, k, m); } else { assert Scaled(d, k, m) <==> magnitude == Some(m as nat); }
    }
  }

  lemma {:induction false} NeverNegative(d: nat, k: int, m: int)
    requires m < 0
    ensures !Scaled(d, k, m)
  {
    if k < 0 { AtLeastOnce(-m, Pow10(-k)); assert m * Pow10(-k) == -((-m) * Pow10(-k)); }
  }
}
