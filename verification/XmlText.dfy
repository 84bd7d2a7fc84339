/**
  core/ct_file.cpp: text between tags. What is escaped has no markup in it and is read back as it
  was, and a field is found by its tag among the others.
 */
module XmlTexts {
  import opened Memory
  import opened Texts

  /** The first place of `pat` from `from` on. */
  function Find(s: string, pat: string, from: nat): (r: Option<nat>)
    ensures r.Some? ==> from <= r.value && At(s, r.value, pat)
    ensures r.Some? ==> forall k :: from <= k < r.value ==> !At(s, k, pat)
    ensures r.None? ==> forall k :: from <= k ==> !At(s, k, pat)
    decreases |s| - from
  {
    if At(s, from, pat) then Some(from) else if from >= |s| then None else Find(s, pat, from + 1)
  }

  // ------------------------------------------------------------------- escaping

  function Escaped(c: char): string
  {
    match c
    case '&' => "&amp;"
    case '<' => "&lt;"
    case '>' => "&gt;"
    case '"' => "&quot;"
    case _ => [c]
  }

  function Escape(s: string): string
  {
    if s == "" then "" else Escape(s[..|s| - 1]) + Escaped(s[|s| - 1])
  }

  method XmlEscape(s: string) returns (out: string)
    ensures out == Escape(s)
  {
    out := "";
    for i := 0 to |s|
      invariant out == Escape(s[..i])
    {
      assert s[..i + 1][..i] == s[..i];
      out := out + Escaped(s[i]);
    }
    assert s[..|s|] == s;
  }

  // ----------------------------------------------------------------- unescaping

  function DigitIn(c: char, base: int): Option<int> { if DigitWeight(c) < base then Some(DigitWeight(c)) else None }

  function Number(s: string, base: int): Option<int>
  {
    if s == "" then Some(0)
    else
      var before, d := Number(s[..|s| - 1], base), DigitIn(s[|s| - 1], base);
      if before.None? || d.None? then None else Some(before.value * base + d.value)
  }

  /** A code point as UTF-8, a character a byte. */
  function Utf8(cp: int): string
    requires 0 < cp <= 0x10FFFF
  {
    if cp < 0x80 then [cp as char]
    else if cp < 0x800 then [(0xC0 + cp / 64) as char, (0x80 + cp % 64) as char]
    else if cp < 0x1_0000 then [(0xE0 + cp / 4096) as char, (0x80 + cp / 64 % 64) as char, (0x80 + cp % 64) as char]
    else [(0xF0 + cp / 262144) as char, (0x80 + cp / 4096 % 64) as char, (0x80 + cp / 64 % 64) as char, (0x80 + cp % 64) as char]
  }

  /** What was read, and the position after it. */
  datatype Piece = Piece(text: string, next: nat)

  /** A valid character reference at `i`, such as &#10; or &#x27;. */
  function CharacterReference(s: string, i: nat): (r: Option<Piece>)
    ensures r.Some? ==> r.value.next > i
  {
    if !At(s, i, "&#") then None
    else
      var semi := Find(s, ";", i);
      if semi.None? || semi.value - i > 12 then None
      else
        var hex := i + 2 < |s| && (s[i + 2] == 'x' || s[i + 2] == 'X');
        var first := if hex then i + 3 else i + 2;
        var cp := if first >= semi.value then None else Number(s[first..semi.value], if hex then 16 else 10);
        if cp.None? || !(0 < cp.value <= 0x10FFFF) || 0xD800 <= cp.value <= 0xDFFF then None
        else Some(Piece(Utf8(cp.value), semi.value + 1))
  }

  /** One step of unescaping: a CDATA section, a reference, or one character as it is. */
  function NextPiece(s: string, i: nat): (p: Piece)
    requires i < |s|
    ensures p.next > i
  {
    if At(s, i, "<![CDATA[") then
      var close := Find(s, "]]>", i + 9);
      if close.None? then Piece(s[i + 9..], |s|) else Piece(s[i + 9..close.value], close.value + 3)
    else if s[i] != '&' then Piece([s[i]], i + 1)
    else if CharacterReference(s, i).Some? then CharacterReference(s, i).value
    else if At(s, i, "&lt;") then Piece("<", i + 4)
    else if At(s, i, "&gt;") then Piece(">", i + 4)
    else if At(s, i, "&amp;") then Piece("&", i + 5)
    else if At(s, i, "&quot;") then Piece("\"", i + 6)
    else if At(s, i, "&apos;") then Piece("'", i + 6)
    else Piece([s[i]], i + 1)
  }

  function UnescapeFrom(s: string, i: nat): string
    decreases |s| - i
  {
    if i >= |s| then "" else NextPiece(s, i).text + UnescapeFrom(s, NextPiece(s, i).next)
  }

  method XmlUnescape(s: string) returns (out: string)
    ensures out == UnescapeFrom(s, 0)
  {
    out := "";
    var i := 0;
    while i < |s|
      invariant out + UnescapeFrom(s, i) == UnescapeFrom(s, 0)
      decreases |s| - i
    {
      var p := NextPiece(s, i);
      out := out + p.text;
      i := p.next;
    }
  }

  // ------------------------------------------------------------------ round trip

  lemma {:induction false} NoMarkup(s: string)
    ensures forall k :: 0 <= k < |Escape(s)| ==> Escape(s)[k] != '<' && Escape(s)[k] != '>' && Escape(s)[k] != '"'
  {
    if s != "" { NoMarkup(s[..|s| - 1]); }
  }

  lemma {:induction false} EscapeLast(s: string)
    ensures Escape("") == "" && (s != "" ==> Escape(s) == Escape(s[..|s| - 1]) + Escaped(s[|s| - 1]))
  {
  }

  lemma {:induction false} EscapeFirst(c: char, s: string)
    ensures Escape([c] + s) == Escaped(c) + Escape(s)
  {
    hide *;
    EscapeLast(s);
    EscapeLast([c] + s);
    if s == "" {
      assert [c] + s == [c] && [c][..0] == "";
    } else {
      EscapeFirst(c, s[..|s| - 1]);
      assert ([c] + s)[..|s|] == [c] + s[..|s| - 1];
    }
  }

  lemma {:induction false} AtFront(a: string, pat: string, b: string)
    ensures At(a + pat + b, |a|, pat)
  {
  }

  /** The escape of one character, wherever it stands, is read as that character. */
  lemma {:induction false} PieceOfEscaped(a: string, c: char, b: string)
    ensures |a| < |a + Escaped(c) + b| && NextPiece(a + Escaped(c) + b, |a|) == Piece([c], |a| + |Escaped(c)|)
  {
    hide At, NextPiece;
    var s, i := a + Escaped(c) + b, |a|;
    AtFront(a, Escaped(c), b);
    AtBegins(s, i, Escaped(c));
    if |Escaped(c)| == 1 {
      PlainPiece(s, i);
    } else {
      EntityPiece(s, i, Escaped(c), c);
    }
  }

  lemma {:induction false} AtBegins(s: string, i: nat, pat: string)
    requires At(s, i, pat) && pat != ""
    ensures i < |s| && s[i] == pat[0] && (|pat| > 1 ==> i + 1 < |s| && s[i + 1] == pat[1])
  {
  }

  lemma {:induction false} PlainPiece(s: string, i: nat)
    requires i < |s| && s[i] != '&' && s[i] != '<'
    ensures NextPiece(s, i) == Piece([s[i]], i + 1)
  {
    hide At;
    NotAtFirst(s, i, "<![CDATA[");
  }

  lemma {:induction false} EntityPiece(s: string, i: nat, pat: string, c: char)
    requires At(s, i, pat) && i < |s|
    requires (pat, c) in {("&lt;", '<'), ("&gt;", '>'), ("&amp;", '&'), ("&quot;", '"')}
    ensures NextPiece(s, i) == Piece([c], i + |pat|)
  {
    hide At, Find, Number, Utf8;
    AtBegins(s, i, pat);
    NotAtFirst(s, i, "<![CDATA[");
    NotAt(s, i, "&#");
    NotAt(s, i, "&lt;");
    NotAt(s, i, "&gt;");
    NotAt(s, i, "&amp;");
  }

  lemma {:induction false} NotAtFirst(s: string, i: nat, pat: string)
    requires pat != ""
    ensures i < |s| && s[i] != pat[0] ==> !At(s, i, pat)
  {
    if At(s, i, pat) { assert s[i] == pat[0]; }
  }

  lemma {:induction false} NotAt(s: string, i: nat, pat: string)
    requires |pat| > 1
    ensures i + 1 < |s| && s[i + 1] != pat[1] ==> !At(s, i, pat)
  {
    if At(s, i, pat) { assert s[i + 1] == pat[1]; }
  }

  lemma {:induction false} UnescapeRest(a: string, s: string)
    ensures UnescapeFrom(a + Escape(s), |a|) == s
    decreases |s|
  {
    hide NextPiece, Escape, Escaped;
    if s == "" {
      assert a + Escape("") == a by { EscapeNothing(); }
    } else {
      var rest := Escape(s[1..]);
      EscapeFirst(s[0], s[1..]);
      assert [s[0]] + s[1..] == s;
      PieceOfEscaped(a, s[0], rest);
      UnescapeRest(a + Escaped(s[0]), s[1..]);
      assert a + Escape(s) == a + Escaped(s[0]) + rest;
    }
  }

  lemma {:induction false} EscapeNothing()
    ensures Escape("") == ""
  {
  }

  /** Any text at all comes back from its escaped form. */
  lemma {:induction false} EscapeRoundTrip(s: string)
    ensures UnescapeFrom(Escape(s), 0) == s
  {
    UnescapeRest("", s);
    assert "" + Escape(s) == Escape(s);
  }

  // ------------------------------------------------------------------------ tags

  function OpenTag(tag: string): string { "<" + tag + ">" }
  function CloseTag(tag: string): string { "</" + tag + ">" }

  /** The text of the first element with this tag. */
  function GetTag(xml: string, tag: string): string
  {
    var open := Find(xml, OpenTag(tag), 0);
    if open.None? then ""
    else
      var start := open.value + |OpenTag(tag)|;
      var end := Find(xml, CloseTag(tag), start);
      if end.None? then "" else xml[start..end.value]
  }

  datatype Field = Field(tag: string, value: string)

  predicate Name(tag: string) { tag != "" && forall k :: 0 <= k < |tag| ==> tag[k] !in "<>/" }

  predicate NoOpen(s: string) { forall k :: 0 <= k < |s| ==> s[k] != '<' }

  /** A field on its line. */
  function Line(f: Field, indent: string): string
  {
    indent + OpenTag(f.tag) + Escape(f.value) + CloseTag(f.tag) + "\n"
  }

  function Lines(fields: seq<Field>, indent: string): string
  {
    if fields == [] then "" else Line(fields[0], indent) + Lines(fields[1..], indent)
  }

  lemma {:induction false} FindIs(s: string, pat: string, from: nat, at: nat)
    requires from <= at && At(s, at, pat) && forall k :: from <= k < at ==> !At(s, k, pat)
    ensures Find(s, pat, from) == Some(at)
  {
    var r := Find(s, pat, from);
    if r.Some? && r.value > at { assert false; }
  }

  /** A tag's bracket only opens where there is a '<'. */
  lemma {:induction false} NoTagIn(a: string, b: string, c: string, pat: string)
    requires NoOpen(b) && pat != "" && pat[0] == '<'
    ensures forall k :: |a| <= k < |a + b| ==> !At(a + b + c, k, pat)
  {
    var s := a + b + c;
    forall k | |a| <= k < |a + b| ensures !At(s, k, pat) {
      assert s[k] == b[k - |a|];
      NotAtFirst(s, k, pat);
    }
  }

  lemma {:induction false} SameEnd(s: string, from: nat, x: nat, y: nat)
    requires from <= x < |s| && from <= y < |s| && s[x] == '>' == s[y]
    requires (forall k :: from <= k < x ==> s[k] != '>') && (forall k :: from <= k < y ==> s[k] != '>')
    ensures x == y
  {
  }

  /** Two tags that stand at the same place are the same. */
  lemma {:induction false} SameTag(s: string, i: nat, a: string, b: string)
    requires Name(a) && Name(b)
    ensures At(s, i, OpenTag(a)) && At(s, i, OpenTag(b)) ==> a == b
    ensures !(At(s, i, OpenTag(a)) && At(s, i, CloseTag(b)))
  {
    if At(s, i, OpenTag(a)) {
      var x := OpenTag(a);
      forall k | 0 <= k < |a| ensures s[i + 1 + k] == a[k] != '>' && a[k] != '/' { assert s[i..i + |x|][1 + k] == x[1 + k] == a[k]; }
      assert s[i + 1 + |a|] == s[i..i + |x|][1 + |a|] == x[1 + |a|] == '>';
      if At(s, i, OpenTag(b)) {
        var y := OpenTag(b);
        forall k | 0 <= k < |b| ensures s[i + 1 + k] == b[k] != '>' { assert s[i..i + |y|][1 + k] == y[1 + k] == b[k]; }
        assert s[i + 1 + |b|] == s[i..i + |y|][1 + |b|] == y[1 + |b|] == '>';
        SameEnd(s, i + 1, i + 1 + |a|, i + 1 + |b|);
      }
      NotAt(s, i, CloseTag(b));
      assert s[i + 1] == a[0];
    }
  }

  /** What surrounds a value in a line of text. */
  lemma {:induction false} LineParts(before: string, f: Field, indent: string, after: string)
    ensures var s := before + Line(f, indent) + after;
            var o := |before| + |indent|;
            var v := o + |OpenTag(f.tag)|;
            var c := v + |Escape(f.value)|;
            && At(s, o, OpenTag(f.tag)) && At(s, c, CloseTag(f.tag)) && c <= |s| && s[v..c] == Escape(f.value)
            && s == before + indent + (OpenTag(f.tag) + Escape(f.value) + CloseTag(f.tag) + "\n" + after)
            && s == (before + indent + OpenTag(f.tag)) + Escape(f.value) + (CloseTag(f.tag) + "\n" + after)
  {
    hide *;
    var e, open, close := Escape(f.value), OpenTag(f.tag), CloseTag(f.tag);
    var s := before + Line(f, indent) + after;
    LineIs(f, indent);
    Regroup(before, indent, open, e, close, "\n", after);
    AtFront(before + indent, open, e + close + "\n" + after);
    AtFront(before + indent + open, e, close + "\n" + after);
    AtFront(before + indent + open + e, close, "\n" + after);
    AtIs(s, |before + indent + open|, e);
  }

  lemma {:induction false} LineIs(f: Field, indent: string)
    ensures Line(f, indent) == indent + OpenTag(f.tag) + Escape(f.value) + CloseTag(f.tag) + "\n"
  {
  }

  lemma {:induction false} Regroup(p: string, i: string, o: string, e: string, c: string, n: string, q: string)
    ensures var s := p + (i + o + e + c + n) + q;
            && s == (p + i) + (o + e + c + n + q) && s == (p + i) + o + (e + c + n + q)
            && s == (p + i + o) + e + (c + n + q) && s == (p + i + o + e) + c + (n + q)
  {
  }

  /** A field's own line is where its tag is found. */
  lemma {:induction false} OwnField(f: Field, indent: string, after: string)
    requires NoOpen(indent)
    ensures GetTag(Line(f, indent) + after, f.tag) == Escape(f.value)
  {
    hide Escape, At, Find;
    var s := Line(f, indent) + after;
    assert s == "" + Line(f, indent) + after;
    LineParts("", f, indent, after);
    var open, close := OpenTag(f.tag), CloseTag(f.tag);
    var o := |indent|;
    var v := o + |open|;
    assert "" + indent == indent;
    NoTagIn("", indent, open + Escape(f.value) + close + "\n" + after, open);
    FindIs(s, open, 0, o);
    NoMarkup(f.value);
    NoTagIn(indent + open, Escape(f.value), close + "\n" + after, close);
    FindIs(s, close, v, v + |Escape(f.value)|);
  }

  /** Nothing stands at a place in five pieces of which only the second and fourth could hold it. */
  lemma {:induction false} NoneInFive(a: string, b: string, c: string, pat: string, after: string)
    requires NoOpen(a) && NoOpen(b) && NoOpen(c) && pat != "" && pat[0] == '<'
    requires !At(a + "<" + b + "<" + c + after, |a|, pat) && !At(a + "<" + b + "<" + c + after, |a| + 1 + |b|, pat)
    ensures forall k :: 0 <= k < |a + "<" + b + "<" + c| ==> !At(a + "<" + b + "<" + c + after, k, pat)
  {
    var s := a + "<" + b + "<" + c + after;
    assert s == "" + a + ("<" + b + "<" + c + after);
    assert s == (a + "<") + b + ("<" + c + after);
    hide At, NoOpen;
    NoTagIn("", a, "<" + b + "<" + c + after, pat);
    NoTagIn(a + "<", b, "<" + c + after, pat);
    NoTagIn(a + "<" + b + "<", c, after, pat);
    forall k | 0 <= k < |a + "<" + b + "<" + c| ensures !At(s, k, pat) {
      if k < |a| {
        assert k < |"" + a|;
      } else if |a| < k < |a| + 1 + |b| {
        assert |a + "<"| <= k < |a + "<" + b|;
      } else if k > |a| + 1 + |b| {
        assert |a + "<" + b + "<"| <= k;
      }
    }
  }

  lemma {:induction false} LineInFive(f: Field, indent: string)
    requires Name(f.tag)
    ensures Line(f, indent) == indent + "<" + (f.tag + ">" + Escape(f.value)) + "<" + ("/" + f.tag + ">\n")
    ensures NoOpen(f.tag + ">" + Escape(f.value)) && NoOpen("/" + f.tag + ">\n")
  {
    NoMarkup(f.value);
    hide Escape;
  }

  lemma {:induction false} NoneInLine(f: Field, indent: string, after: string, tag: string)
    requires NoOpen(indent) && Name(tag) && Name(f.tag) && tag != f.tag
    ensures forall k :: 0 <= k < |Line(f, indent)| ==> !At(Line(f, indent) + after, k, OpenTag(tag))
  {
    hide *;
    var b, c := f.tag + ">" + Escape(f.value), "/" + f.tag + ">\n";
    var s := Line(f, indent) + after;
    LineInFive(f, indent);
    LineParts("", f, indent, after);
    NothingBefore(Line(f, indent), after);
    TagLength(f.tag);
    TagLength(tag);
    SameTag(s, |indent|, tag, f.tag);
    SameTag(s, |indent| + 1 + |b|, tag, f.tag);
    NoneInFive(indent, b, c, OpenTag(tag), after);
  }

  lemma {:induction false} NothingBefore(line: string, after: string)
    ensures "" + line + after == line + after
  {
  }

  lemma {:induction false} TagLength(tag: string)
    ensures |OpenTag(tag)| == |tag| + 2 && OpenTag(tag)[0] == '<'
  {
  }

  lemma {:induction false} FindShifts(a: string, b: string, pat: string, from: nat)
    ensures Find(a + b, pat, |a| + from) == (match Find(b, pat, from) case None => None case Some(k) => Some(|a| + k))
    decreases |b| - from
  {
    AtShifts(a, b, pat, from);
    hide At;
    if from < |b| { FindShifts(a, b, pat, from + 1); }
  }

  lemma {:induction false} AtShifts(a: string, b: string, pat: string, k: nat)
    ensures At(a + b, |a| + k, pat) <==> At(b, k, pat)
  {
    if k + |pat| <= |b| { assert (a + b)[|a| + k..|a| + k + |pat|] == b[k..k + |pat|]; }
  }

  lemma {:induction false} FindPasses(s: string, pat: string, from: nat, n: nat)
    requires from <= n <= |s| && forall k :: from <= k < n ==> !At(s, k, pat)
    ensures Find(s, pat, from) == Find(s, pat, n)
    decreases n - from
  {
    if from < n { FindPasses(s, pat, from + 1, n); }
  }

  lemma {:induction false} OtherLine(f: Field, indent: string, after: string, tag: string)
    requires NoOpen(indent) && Name(tag) && Name(f.tag) && tag != f.tag
    ensures GetTag(Line(f, indent) + after, tag) == GetTag(after, tag)
  {
    hide *;
    var line := Line(f, indent);
    TagText(line + after, tag);
    TagText(after, tag);
    NoneInLine(f, indent, after, tag);
    FindPasses(line + after, OpenTag(tag), 0, |line|);
    FindShifts(line, after, OpenTag(tag), 0);
    var open := Find(after, OpenTag(tag), 0);
    if open.Some? {
      var start := open.value + |OpenTag(tag)|;
      FindShifts(line, after, CloseTag(tag), start);
      var end := Find(after, CloseTag(tag), start);
      FoundFits(after, OpenTag(tag), 0);
      FoundFits(after, CloseTag(tag), start);
      if end.Some? { SliceShifts(line, after, start, end.value); }
    }
  }

  lemma {:induction false} TagText(xml: string, tag: string)
    ensures var open := Find(xml, OpenTag(tag), 0);
            GetTag(xml, tag) ==
            if open.None? then ""
            else
              var start := open.value + |OpenTag(tag)|;
              var end := Find(xml, CloseTag(tag), start);
              if end.None? then "" else xml[start..end.value]
  {
    hide Find, OpenTag, CloseTag;
  }

  lemma {:induction false} SliceShifts(a: string, b: string, i: nat, j: nat)
    requires i <= j <= |b|
    ensures (a + b)[|a| + i..|a| + j] == b[i..j]
  {
  }

  lemma {:induction false} FoundFits(s: string, pat: string, from: nat)
    ensures Find(s, pat, from).Some? ==> from <= Find(s, pat, from).value <= |s|
  {
  }

  ghost predicate DistinctTags(fields: seq<Field>)
  {
    && (forall i :: 0 <= i < |fields| ==> Name(fields[i].tag))
    && forall i, j :: 0 <= i < j < |fields| ==> fields[i].tag != fields[j].tag
  }

  /** Of fields with different tags, each is found by its own and unescapes to its value, whatever the
      values are; a tag that none of them has gives nothing. */
  lemma {:induction false} FieldsRoundTrip(fields: seq<Field>, indent: string, tag: string)
    requires DistinctTags(fields) && NoOpen(indent) && Name(tag)
    ensures forall i :: 0 <= i < |fields| && fields[i].tag == tag ==>
      UnescapeFrom(GetTag(Lines(fields, indent), tag), 0) == fields[i].value
    ensures (forall i :: 0 <= i < |fields| ==> fields[i].tag != tag) ==> GetTag(Lines(fields, indent), tag) == ""
    decreases |fields|
  {
    hide GetTag, UnescapeFrom, Line;
    if fields == [] {
      NoFields(tag);
    } else if fields[0].tag == tag {
      OwnField(fields[0], indent, Lines(fields[1..], indent));
      EscapeRoundTrip(fields[0].value);
    } else {
      OtherLine(fields[0], indent, Lines(fields[1..], indent), tag);
      FieldsRoundTrip(fields[1..], indent, tag);
      assert forall i :: 0 < i < |fields| ==> fields[i] == fields[1..][i - 1];
    }
  }

  lemma {:induction false} NoFields(tag: string)
    ensures GetTag("", tag) == ""
  {
  }
}
