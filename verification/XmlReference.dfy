/** core/ct_file.cpp: what each kind of markup in a text is read as: references by name, by number, and literal sections. */
module XmlReferences {
  import opened Memory
  import opened Texts
  import opened XmlTexts

  /** Which characters are escaped, and how; all others are written as they are. */
  lemma {:induction false} EscapesOnly(c: char, s: string)
    ensures Escape([c] + s) ==
            (if c == '&' then "&amp;" else if c == '<' then "&lt;" else if c == '>' then "&gt;"
             else if c == '"' then "&quot;" else [c]) + Escape(s)
  {
    EscapeFirst(c, s);
  }

  /** The five references by name. */
  lemma {:induction false} NamedRead(s: string, i: nat, name: string, c: char)
    requires (name, c) in {("&lt;", '<'), ("&gt;", '>'), ("&amp;", '&'), ("&quot;", '"'), ("&apos;", '\'')} && At(s, i, name)
    ensures UnescapeFrom(s, i) == [c] + UnescapeFrom(s, i + |name|)
  {
    hide At, NextPiece;
    AtBegins(s, i, name);
    if c == '\'' { ApostrophePiece(s, i); } else { EntityPiece(s, i, name, c); }
  }

  lemma {:induction false} ApostrophePiece(s: string, i: nat)
    requires At(s, i, "&apos;") && i < |s|
    ensures NextPiece(s, i) == Piece("'", i + 6)
  {
    hide At, Find, Number, Utf8;
    AtBegins(s, i, "&apos;");
    NotAtFirst(s, i, "<![CDATA[");
    NotAt(s, i, "&#");
    NotAt(s, i, "&lt;");
    NotAt(s, i, "&gt;");
    NotAt(s, i, "&quot;");
    LetterAt(s, i, "&apos;", 2);
    LetterAt(s, i, "&amp;", 2);
  }

  lemma {:induction false} LetterAt(s: string, i: nat, pat: string, k: nat)
    requires k < |pat|
    ensures At(s, i, pat) ==> i + k < |s| && s[i + k] == pat[k]
  {
    if At(s, i, pat) { assert s[i..i + |pat|][k] == pat[k]; }
  }

  /** A literal section is copied without a look at what is in it, up to its end or the end of the text. */
  lemma {:induction false} LiteralRead(s: string, i: nat, close: nat)
    requires At(s, i, "<![CDATA[") && i + 9 <= close <= |s|
    requires forall k :: i + 9 <= k < close ==> !At(s, k, "]]>")
    requires close == |s| || At(s, close, "]]>")
    ensures UnescapeFrom(s, i) == s[i + 9..close] + if close == |s| then "" else UnescapeFrom(s, close + 3)
  {
    hide At, Find, NextPiece, UnescapeFrom;
    AtBegins(s, i, "<![CDATA[");
    if close < |s| {
      FindIs(s, "]]>", i + 9, close);
    } else {
      NothingAtEnd(s, i + 9);
    }
    LiteralPiece(s, i);
    Unescapes(s, i);
    if close == |s| { PastEnd(s); }
  }

  lemma {:induction false} LiteralPiece(s: string, i: nat)
    requires i < |s| && At(s, i, "<![CDATA[")
    ensures i + 9 <= |s|
    ensures var close := Find(s, "]]>", i + 9);
            NextPiece(s, i) == if close.None? then Piece(s[i + 9..], |s|) else Piece(s[i + 9..close.value], close.value + 3)
  {
    hide Find, CharacterReference;
  }

  lemma {:induction false} PastEnd(s: string)
    ensures UnescapeFrom(s, |s|) == ""
  {
  }

  lemma {:induction false} NothingAtEnd(s: string, from: nat)
    requires from <= |s| && forall k :: from <= k < |s| ==> !At(s, k, "]]>")
    ensures Find(s, "]]>", from) == None
  {
    hide Find;
  }

  /** Any other character is read as it is; so is a '&' that begins no reference. */
  lemma {:induction false} PlainRead(s: string, i: nat)
    requires i < |s| && s[i] != '&' && !At(s, i, "<![CDATA[")
    ensures UnescapeFrom(s, i) == [s[i]] + UnescapeFrom(s, i + 1)
  {
  }

  // ------------------------------------------------------------ references by number

  /** The digits of a reference and their base. */
  function Digits(d: string): string { if d != "" && (d[0] == 'x' || d[0] == 'X') then d[1..] else d }
  function BaseOf(d: string): int { if d != "" && (d[0] == 'x' || d[0] == 'X') then 16 else 10 }

  /** A code point that is no surrogate. */
  predicate Scalar(n: int) { 0 < n <= 0x10FFFF && !(0xD800 <= n <= 0xDFFF) }

  /** A reference by number is read exactly when it has at least one digit and at most ten characters
      between its marks, all digits, and the number is a code point; otherwise its '&' is kept. */
  lemma {:induction false} NumericExactly(s: string, i: nat, d: string)
    requires At(s, i, "&#" + d + ";") && ';' !in d
    ensures var n := Number(Digits(d), BaseOf(d));
            UnescapeFrom(s, i) ==
            if |d| <= 10 && Digits(d) != "" && n.Some? && Scalar(n.value) then Utf8(n.value) + UnescapeFrom(s, i + |d| + 3)
            else "&" + UnescapeFrom(s, i + 1)
  {
    hide Find, Number, Utf8, NextPiece, CharacterReference, UnescapeFrom;
    ReferencePlaces(s, i, d);
    ReferenceIs(s, i, d);
    ReferencePiece(s, i);
    Unescapes(s, i);
  }

  lemma {:induction false} Unescapes(s: string, i: nat)
    requires i < |s|
    ensures UnescapeFrom(s, i) == NextPiece(s, i).text + UnescapeFrom(s, NextPiece(s, i).next)
  {
  }

  lemma {:induction false} ReferencePlaces(s: string, i: nat, d: string)
    requires At(s, i, "&#" + d + ";") && ';' !in d
    ensures i + |d| + 2 < |s| && At(s, i, "&#") && s[i] == '&' && s[i + 1] == '#' && s[i + 2..i + 2 + |d|] == d
    ensures Find(s, ";", i) == Some(i + 2 + |d|)
  {
    hide At, Find;
    AtParts(s, i, "&#" + d, ";");
    AtParts(s, i, "&#", d);
    AtOne(s, i + 2 + |d|, ';');
    AtIs(s, i + 2, d);
    LetterAt(s, i, "&#", 0);
    LetterAt(s, i, "&#", 1);
    forall k | i <= k < i + 2 + |d| ensures !At(s, k, ";") {
      if k >= i + 2 { assert s[k] == d[k - i - 2]; }
      AtOne(s, k, ';');
    }
    FindIs(s, ";", i, i + 2 + |d|);
  }

  lemma {:induction false} ReferenceIs(s: string, i: nat, d: string)
    requires i + |d| + 2 < |s| && At(s, i, "&#") && s[i + 2..i + 2 + |d|] == d && Find(s, ";", i) == Some(i + 2 + |d|)
    requires s[i + 2 + |d|] == ';'
    ensures var n := Number(Digits(d), BaseOf(d));
            CharacterReference(s, i) ==
            if |d| <= 10 && Digits(d) != "" && n.Some? && Scalar(n.value) then Some(Piece(Utf8(n.value), i + |d| + 3)) else None
  {
    hide Find, Number, Utf8, At;
    if d != "" { assert d[0] == s[i + 2]; }
    if d != "" && (d[0] == 'x' || d[0] == 'X') { assert s[i + 3..i + 2 + |d|] == d[1..]; }
  }

  lemma {:induction false} ReferencePiece(s: string, i: nat)
    requires i + 1 < |s| && s[i] == '&' && s[i + 1] == '#'
    ensures NextPiece(s, i) == if CharacterReference(s, i).Some? then CharacterReference(s, i).value else Piece("&", i + 1)
  {
    hide At, CharacterReference;
    NotAtFirst(s, i, "<![CDATA[");
    NotAt(s, i, "&lt;");
    NotAt(s, i, "&gt;");
    NotAt(s, i, "&amp;");
    NotAt(s, i, "&quot;");
    NotAt(s, i, "&apos;");
  }

  predicate Continues(c: char) { 0x80 <= c as int < 0xC0 }

  /** The bytes of a code point, read back as RFC 3629, section 3, says: the first tells how many follow. */
  lemma {:induction false} Utf8Decodes(n: int)
    requires Scalar(n)
    ensures n < 0x80 ==> Utf8(n) == [n as char]
    ensures 0x80 <= n < 0x800 ==>
              var b := Utf8(n);
              && |b| == 2 && 0xC2 <= b[0] as int < 0xE0 && Continues(b[1])
              && n == (b[0] as int - 0xC0) * 64 + (b[1] as int - 0x80)
    ensures 0x800 <= n < 0x1_0000 ==>
              var b := Utf8(n);
              && |b| == 3 && 0xE0 <= b[0] as int < 0xF0 && Continues(b[1]) && Continues(b[2])
              && n == (b[0] as int - 0xE0) * 4096 + (b[1] as int - 0x80) * 64 + (b[2] as int - 0x80)
    ensures 0x1_0000 <= n ==>
              var b := Utf8(n);
              && |b| == 4 && 0xF0 <= b[0] as int < 0xF8 && Continues(b[1]) && Continues(b[2]) && Continues(b[3])
              && n == (b[0] as int - 0xF0) * 262144 + (b[1] as int - 0x80) * 4096 + (b[2] as int - 0x80) * 64 + (b[3] as int - 0x80)
  {
    if 0x800 <= n < 0x1_0000 {
      ThreeBytes(n);
    } else if 0x1_0000 <= n {
      FourBytes(n);
    }
  }

  lemma {:induction false} Sixes(n: nat)
    ensures n == n / 64 * 64 + n % 64
    ensures n / 64 == n / 4096 * 64 + n / 64 % 64
    ensures n / 4096 == n / 262144 * 64 + n / 4096 % 64
  {
  }

  lemma {:induction false} ThreeBytes(n: int)
    requires 0x800 <= n < 0x1_0000
    ensures var b := Utf8(n);
            && |b| == 3 && 0xE0 <= b[0] as int < 0xF0 && Continues(b[1]) && Continues(b[2])
            && n == (b[0] as int - 0xE0) * 4096 + (b[1] as int - 0x80) * 64 + (b[2] as int - 0x80)
  {
    Sixes(n);
    assert 0 <= n / 4096 < 16 && 0 <= n / 64 % 64 < 64 && 0 <= n % 64 < 64;
  }

  lemma {:induction false} FourBytes(n: int)
    requires 0x1_0000 <= n <= 0x10FFFF
    ensures var b := Utf8(n);
            && |b| == 4 && 0xF0 <= b[0] as int < 0xF8 && Continues(b[1]) && Continues(b[2]) && Continues(b[3])
            && n == (b[0] as int - 0xF0) * 262144 + (b[1] as int - 0x80) * 4096 + (b[2] as int - 0x80) * 64 + (b[3] as int - 0x80)
  {
    Sixes(n);
    assert 0 <= n / 262144 < 8 && 0 <= n / 4096 % 64 < 64 && 0 <= n / 64 % 64 < 64 && 0 <= n % 64 < 64;
  }

  function Power(base: nat, k: nat): nat { if k == 0 then 1 else base * Power(base, k - 1) }

  /** Numerals in base ten or sixteen, in either case, are read as the number. */
  lemma {:induction false} NumeralIsRead(n: nat, base: nat, digits: string)
    requires base in {10, 16} && digits in {"0123456789abcdef", "0123456789ABCDEF"}
    ensures Number(Numeral(n, base, digits), base) == Some(n)
    decreases n
  {
    hide Number;
    if n < base {
      DigitMore("", n, 0, base, digits);
      assert "" + [digits[n]] == [digits[n]];
    } else {
      Quotient(n, base);
      NumeralIsRead(n / base, base, digits);
      DigitMore(Numeral(n / base, base, digits), n % base, n / base, base, digits);
    }
  }

  lemma {:induction false} NumeralLength(n: nat, base: nat, digits: string, k: nat)
    requires base in {10, 16} && |digits| == 16 && n < Power(base, k) && k > 0
    ensures |Numeral(n, base, digits)| <= k
    ensures forall i :: 0 <= i < |Numeral(n, base, digits)| ==> Numeral(n, base, digits)[i] in digits
    decreases k
  {
    if n >= base {
      PowerStep(n, base, k);
      NumeralLength(n / base, base, digits, k - 1);
    }
  }

  lemma {:induction false} Quotient(n: nat, base: nat)
    requires base in {10, 16} && n >= base
    ensures n / base * base + n % base == n && n / base < n
  {
  }

  lemma {:induction false} PowerStep(n: nat, base: nat, k: nat)
    requires base in {10, 16} && base <= n < Power(base, k)
    ensures k > 1 && n / base < Power(base, k - 1) && n / base < n
  {
    assert Power(base, 1) == base * Power(base, 0) == base;
  }

  lemma {:induction false} DigitMore(front: string, w: nat, v: nat, base: nat, digits: string)
    requires base in {10, 16} && digits in {"0123456789abcdef", "0123456789ABCDEF"} && w < base
    requires if front == "" then v == 0 else Number(front, base) == Some(v)
    ensures Number(front + [digits[w]], base) == Some(v * base + w)
  {
    hide DigitWeight;
    DigitTable('0');
    assert (front + [digits[w]])[..|front|] == front;
  }

  /** Every code point can be written by its number, in decimal or after an x in hexadecimal. */
  lemma {:induction false} EveryNumberRead(s: string, i: nat, n: int, x: string, digits: string)
    requires Scalar(n) && digits in {"0123456789abcdef", "0123456789ABCDEF"} && x in {"", "x", "X"}
    requires At(s, i, "&#" + (x + Numeral(n, if x == "" then 10 else 16, digits)) + ";")
    ensures var text := x + Numeral(n, if x == "" then 10 else 16, digits);
            UnescapeFrom(s, i) == Utf8(n) + UnescapeFrom(s, i + |text| + 3)
  {
    hide At, Numeral, Number, UnescapeFrom, Utf8, Power;
    var base := if x == "" then 10 else 16;
    var numeral := Numeral(n, base, digits);
    Powers();
    NumeralIsRead(n, base, digits);
    NumeralLength(n, base, digits, 7);
    assert numeral[0] in digits;
    assert ';' !in x + numeral;
    assert Digits(x + numeral) == numeral && BaseOf(x + numeral) == base;
    NumericExactly(s, i, x + numeral);
  }

  lemma {:induction false} Powers()
    ensures Power(10, 7) == 10000000 && Power(16, 7) == 0x1000_0000
  {
  }

  // ------------------------------------------------------------------------- tags

  /** An element's text goes from the first opening tag of its name to the first closing tag after that. */
  lemma {:induction false} TagRead(xml: string, tag: string, open: nat, close: nat)
    requires At(xml, open, "<" + tag + ">") && forall k :: 0 <= k < open ==> !At(xml, k, "<" + tag + ">")
    requires open + |tag| + 2 <= close && At(xml, close, "</" + tag + ">")
    requires forall k :: open + |tag| + 2 <= k < close ==> !At(xml, k, "</" + tag + ">")
    ensures close <= |xml| && GetTag(xml, tag) == xml[open + |tag| + 2..close]
  {
    hide At, Find;
    FindIs(xml, "<" + tag + ">", 0, open);
    FindIs(xml, "</" + tag + ">", open + |tag| + 2, close);
    FoundFits(xml, "</" + tag + ">", open + |tag| + 2);
  }

  /** Without such tags there is no text. */
  lemma {:induction false} NoTag(xml: string, tag: string)
    requires (forall k :: 0 <= k < |xml| ==> !At(xml, k, "<" + tag + ">")) || (forall k :: 0 <= k < |xml| ==> !At(xml, k, "</" + tag + ">"))
    ensures GetTag(xml, tag) == ""
  {
    hide At, Find;
    NotPastEnd(xml, "<" + tag + ">");
    NotPastEnd(xml, "</" + tag + ">");
  }

  lemma {:induction false} NotPastEnd(xml: string, pat: string)
    requires pat != ""
    ensures forall k :: |xml| <= k ==> !At(xml, k, pat)
  {
  }
}
