/** What the readers of text and of tokens share: pieces of a sequence, and the values of digits. */
module Texts {
  /** `t` stands in `s` from `i` on. */
  predicate At<T(==)>(s: seq<T>, i: nat, t: seq<T>) { i + |t| <= |s| && s[i..i + |t|] == t }

  lemma {:induction false} AtIs<T>(s: seq<T>, i: nat, t: seq<T>)
    requires At(s, i, t)
    ensures i + |t| <= |s| && s[i..i + |t|] == t
  {
  }

  lemma {:induction false} AtParts<T>(s: seq<T>, i: nat, a: seq<T>, b: seq<T>)
    ensures At(s, i, a + b) <==> At(s, i, a) && At(s, i + |a|, b)
  {
    if At(s, i, a + b) {
      assert s[i..i + |a|] == (a + b)[..|a|];
      assert s[i + |a|..i + |a| + |b|] == (a + b)[|a|..];
    }
  }

  lemma {:induction false} AtOne<T>(s: seq<T>, i: nat, t: T)
    ensures At(s, i, [t]) <==> i < |s| && s[i] == t
  {
    if At(s, i, [t]) { assert s[i..i + 1][0] == t; }
  }

  /** The value of a digit of base sixteen or less; 99 is none. */
  function DigitWeight(c: char): nat
  {
    if '0' <= c <= '9' then c as int - '0' as int
    else if 'a' <= c <= 'f' then c as int - 'a' as int + 10
    else if 'A' <= c <= 'F' then c as int - 'A' as int + 10 else 99
  }

  /** Digits in either case have their value, and nothing else is a digit. */
  lemma {:induction false} DigitTable(c: char)
    ensures forall d :: 0 <= d < 16 ==> DigitWeight("0123456789abcdef"[d]) == d == DigitWeight("0123456789ABCDEF"[d])
    ensures c !in "0123456789abcdef" && c !in "0123456789ABCDEF" ==> DigitWeight(c) >= 16
  {
    forall d | 0 <= d < 16 ensures DigitWeight("0123456789abcdef"[d]) == d == DigitWeight("0123456789ABCDEF"[d]) {
      assert d == 0 || d == 1 || d == 2 || d == 3 || d == 4 || d == 5 || d == 6 || d == 7
        || d == 8 || d == 9 || d == 10 || d == 11 || d == 12 || d == 13 || d == 14 || d == 15;
    }
    if DigitWeight(c) < 16 {
      var w := DigitWeight(c);
      assert c == "0123456789abcdef"[w] || c == "0123456789ABCDEF"[w];
    }
  }

  /** A number written in some digits. */
  function Numeral(n: nat, base: nat, digits: string): (d: string)
    requires base in {8, 10, 16} && |digits| >= base
    ensures d != ""
  {
    if n < base then [digits[n]] else Numeral(n / base, base, digits) + [digits[n % base]]
  }
}
