/** The ways to write a string (section 7 of RFC 8259): all of them are read, and printing chooses one of them. */
module StringTexts {
  import opened CStrings
  import opened Utf8
  import opened Rendering
  import opened Parsing

  type CodePoint = n: nat | n <= 0x10FFFF

  /**
   One character, or one code point, of a string as it is written.  A "\u" without four digits spoils what follows:
   it is read as a NUL, and so the string ends there, wherever its closing quote is.
   */
  datatype Writing = Plain(c: char) | Short(letter: char, c: char) | Code(escapes: string, cp: CodePoint) | Spoiled(tail: string)

  /** An ordinary character, one of the eight escapes with a letter, or "\u" escapes with digits in either case. */
  predicate Allowed(w: Writing) {
    match w
    case Plain(c) => c != '"' && c != '\\'
    case Short(letter, c) =>
      || (letter == '"' && c == '"') || (letter == '\\' && c == '\\') || (letter == '/' && c == '/')
      || (letter == 'b' && c == 8 as char) || (letter == 'f' && c == 12 as char) || (letter == 'n' && c == 10 as char)
      || (letter == 'r' && c == 13 as char) || (letter == 't' && c == 9 as char)
    case Code(escapes, cp) => WritesCodePoint(escapes, cp)
    case Spoiled(_) => false
  }

  predicate AllAllowed(ws: seq<Writing>) {
    forall i | 0 <= i < |ws| :: Allowed(ws[i])
  }

  function TextOf(w: Writing): string {
    match w
    case Plain(c) => [c]
    case Short(letter, _) => ['\\', letter]
    case Code(escapes, _) => escapes
    case Spoiled(tail) => tail
  }

  /** What it stands for: the character, or the UTF-8 bytes of the code point. */
  function BytesOf(w: Writing): string {
    match w
    case Plain(c) => [c]
    case Short(_, c) => [c]
    case Code(_, cp) => EncodeUtf8(cp)
    case Spoiled(_) => [NUL]
  }

  /** The text of the writings, followed by more text. */
  function Written(ws: seq<Writing>, post: string): string {
    if ws == [] then post else TextOf(ws[0]) + Written(ws[1..], post)
  }

  function Bytes(ws: seq<Writing>): string {
    if ws == [] then "" else BytesOf(ws[0]) + Bytes(ws[1..])
  }

  /** The writings between quotes. */
  function Quoted(ws: seq<Writing>, post: string): string {
    ['"'] + Written(ws, ['"'] + post)
  }

  // ---------- the first pass

  function Shifted(n: nat, r: Option<nat>): Option<nat> {
    if r.None? then None else Some(n + r.value)
  }

  lemma {:induction false} ClosingQuotePrefix(a: string, t: string, i: nat)
    requires i <= |t|
    ensures ClosingQuote(a + t, |a| + i) == Shifted(|a|, ClosingQuote(t, i))
    decreases |t| - i
  {
    if i < |t| {
      assert (a + t)[|a| + i] == t[i];
      if t[i] == '\\' && i + 1 < |t| { ClosingQuotePrefix(a, t, i + 2); }
      if t[i] != '"' && t[i] != '\\' { ClosingQuotePrefix(a, t, i + 1); }
    }
  }

  /** An escaped character is passed over together with its backslash. */
  lemma {:induction false} PassPair(x: char, rest: string)
    ensures ClosingQuote(['\\', x] + rest, 0) == Shifted(2, ClosingQuote(rest, 0))
  {
    var t := ['\\', x] + rest;
    assert t[0] == '\\';
    ClosingQuotePrefix(['\\', x], rest, 0);
  }

  lemma {:induction false} PassPlain(s: string, rest: string)
    requires forall i | 0 <= i < |s| :: s[i] != '"' && s[i] != '\\'
    ensures ClosingQuote(s + rest, 0) == Shifted(|s|, ClosingQuote(rest, 0))
  {
    if s == "" {
      assert s + rest == rest;
    } else {
      var t := s[1..] + rest;
      assert s + rest == [s[0]] + t && ([s[0]] + t)[0] == s[0];
      PassPlain(s[1..], rest);
      ClosingQuotePrefix([s[0]], t, 0);
    }
  }

  lemma HexIsPlain(h: string, n: nat)
    requires WritesHex4(h, n)
    ensures |h| == 4 && forall i | 0 <= i < 4 :: h[i] != '"' && h[i] != '\\'
  {
  }

  lemma PassEscape(h: string, n: nat, rest: string)
    requires WritesHex4(h, n)
    ensures ClosingQuote("\\u" + h + rest, 0) == Shifted(6, ClosingQuote(rest, 0))
  {
    HexIsPlain(h, n);
    hide ClosingQuote, WritesHex4;
    PassPlain(h, rest);
    PassPair('u', h + rest);
    assert "\\u" + h + rest == ['\\', 'u'] + (h + rest);
  }

  lemma PassCode(t: string, cp: nat, rest: string)
    requires WritesCodePoint(t, cp)
    ensures ClosingQuote(t + rest, 0) == Shifted(|t|, ClosingQuote(rest, 0))
  {
    hide ClosingQuote, WritesHex4;
    if cp < 0x1_0000 {
      PassEscape(t[2..], cp, rest);
      assert t == "\\u" + t[2..];
    } else {
      var p := Split(cp);
      var second := t[6..];
      assert second == "\\u" + t[8..] && t == "\\u" + t[2..6] + second;
      PassEscape(t[8..], p.1, rest);
      PassEscape(t[2..6], p.0, second + rest);
      assert t + rest == "\\u" + t[2..6] + (second + rest);
    }
  }

  lemma PassWriting(w: Writing, rest: string)
    requires Allowed(w)
    ensures ClosingQuote(TextOf(w) + rest, 0) == Shifted(|TextOf(w)|, ClosingQuote(rest, 0))
  {
    hide ClosingQuote;
    match w
    case Plain(c) => PassPlain([c], rest);
    case Short(letter, _) => PassPair(letter, rest);
    case Code(escapes, cp) => PassCode(escapes, cp, rest);
    case Spoiled(_) =>
  }

  lemma {:induction false} PassWritings(ws: seq<Writing>, post: string)
    requires AllAllowed(ws)
    ensures |Written(ws, "")| + |post| == |Written(ws, post)| && Written(ws, post) == Written(ws, "") + post
    ensures ClosingQuote(Written(ws, post), 0) == Shifted(|Written(ws, "")|, ClosingQuote(post, 0))
  {
    hide ClosingQuote, Allowed, TextOf;
    if ws != [] {
      PassWritings(ws[1..], post);
      PassWriting(ws[0], Written(ws[1..], post));
    }
  }

  // ---------- the second pass

  lemma UnescapeShort(letter: char, c: char, rest: string)
    requires Allowed(Short(letter, c))
    ensures Unescape(['\\', letter] + rest) == Prepend([c], Unescape(rest))
  {
    hide Utf16Literal, EncodeUtf8;
    var t := ['\\', letter] + rest;
    assert t[0] == '\\' && t[1] == letter && t[2..] == rest;
  }

  lemma UnescapeCode(t: string, cp: nat, rest: string)
    requires WritesCodePoint(t, cp)
    ensures Unescape(t + rest) == Prepend(EncodeUtf8(cp), Unescape(rest))
  {
    LiteralRoundTrip(t, cp, rest);
    assert t[0] == t[..2][0] && t[1] == t[..2][1];
    hide Utf16Literal, WritesCodePoint, EncodeUtf8;
    var u := t + rest;
    assert u[0] == '\\' && u[1] == 'u' && u[|t|..] == rest;
  }

  lemma UnescapeWriting(w: Writing, rest: string)
    requires Allowed(w)
    ensures Unescape(TextOf(w) + rest) == Prepend(BytesOf(w), Unescape(rest))
  {
    match w
    case Plain(c) =>
      hide Utf16Literal, EncodeUtf8;
      assert ([c] + rest)[0] == c && ([c] + rest)[1..] == rest;
    case Short(letter, c) => UnescapeShort(letter, c, rest);
    case Code(escapes, cp) => UnescapeCode(escapes, cp, rest);
    case Spoiled(_) =>
  }

  lemma {:induction false} UnescapeWritings(ws: seq<Writing>, post: string)
    requires AllAllowed(ws)
    ensures Unescape(Written(ws, post)) == Prepend(Bytes(ws), Unescape(post))
  {
    hide Unescape, Allowed, TextOf, BytesOf;
    if ws == [] {
      if Unescape(post).Some? { assert "" + Unescape(post).value == Unescape(post).value; }
    } else {
      UnescapeWritings(ws[1..], post);
      UnescapeWriting(ws[0], Written(ws[1..], post));
      if Unescape(post).Some? {
        var r := Unescape(post).value;
        assert BytesOf(ws[0]) + (Bytes(ws[1..]) + r) == (BytesOf(ws[0]) + Bytes(ws[1..])) + r;
      }
    }
  }

  // ---------- parse_string

  /** Every writing of a string is read, whatever mix of ordinary characters and escapes it is. */
  lemma {:induction false} ReadsAnyWriting(ws: seq<Writing>, post: string)
    requires AllAllowed(ws)
    ensures ParseString(Quoted(ws, post)) == Parsed(UpToNul(Bytes(ws)), post)
  {
    hide Unescape, UpToNul, Allowed, TextOf, BytesOf, Written, Bytes;
    var (t, end) := (Quoted(ws, post), ['"'] + post);
    var n := |Written(ws, "")|;
    PassWritings(ws, end);
    assert ClosingQuote(end, 0) == Some(0);
    ClosingQuotePrefix(['"'], Written(ws, end), 0);
    hide ClosingQuote;
    assert ClosingQuote(t, 1) == Some(1 + n);
    assert t[1..1 + n] == Written(ws, "") && t[1 + n + 1..] == post;
    UnescapeWritings(ws, "");
    assert Unescape("") == Some("") by { UnescapeNothing(); }
    assert Bytes(ws) + "" == Bytes(ws);
  }

  lemma UnescapeNothing()
    ensures Unescape("") == Some("")
  {
  }

  /** A backslash before any other character makes the string malformed, whatever stands before and after. */
  lemma {:induction false} RefusesOtherLetters(ws: seq<Writing>, x: char, rest: string)
    requires AllAllowed(ws) && x !in "\"\\/bfnrtu"
    ensures ParseString(['"'] + Written(ws, ['\\', x] + rest)) == Failed
  {
    hide Allowed, TextOf, BytesOf, Written, Bytes, UpToNul;
    assert ShortUnescape(x).None? by { OtherLetter(x); }
    hide ShortUnescape;
    var tail := ['\\', x] + rest;
    var (t, n) := (['"'] + Written(ws, tail), |Written(ws, "")|);
    PassWritings(ws, tail);
    PassPair(x, rest);
    ClosingQuotePrefix(['"'], Written(ws, tail), 0);
    hide ClosingQuote;
    var end := ClosingQuote(t, 1);
    if end.Some? {
      var more := t[1 + n..end.value];
      assert t[1..end.value] == Written(ws, "") + more;
      PassWritings(ws, more);
      UnescapeWritings(ws, more);
      assert more[0] == '\\' && more[1] == x;
      UnescapeOther(more);
    }
  }

  lemma OtherLetter(x: char)
    requires x !in "\"\\/bfnrtu"
    ensures ShortUnescape(x).None? && x != 'u'
  {
    var s := "\"\\/bfnrtu";
    assert s[0] == '"' && s[1] == '\\' && s[2] == '/' && s[3] == 'b' && s[4] == 'f' && s[5] == 'n' && s[6] == 'r' && s[7] == 't' && s[8] == 'u';
  }

  lemma UnescapeOther(t: string)
    requires |t| >= 2 && t[0] == '\\' && t[1] != 'u' && ShortUnescape(t[1]).None?
    ensures Unescape(t).None?
  {
    hide Utf16Literal, EncodeUtf8;
  }

  // ---------- print_string_ptr

  const HEX_DIGITS := "0123456789abcdef"

  /** How each character is printed. */
  function PrintedAs(c: char): string {
    if c == '"' then "\\\""
    else if c == '\\' then "\\\\"
    else if c == 8 as char then "\\b"
    else if c == 12 as char then "\\f"
    else if c == 10 as char then "\\n"
    else if c == 13 as char then "\\r"
    else if c == 9 as char then "\\t"
    else if c < 32 as char then "\\u00" + [HEX_DIGITS[c as int / 16], HEX_DIGITS[c as int % 16]]
    else [c]
  }

  function PrintedString(s: string): string {
    if s == "" then "" else PrintedAs(s[0]) + PrintedString(s[1..])
  }

  lemma PrintedControl(c: char)
    requires c < 32 as char
    ensures Hex4(c as int) == "00" + [HEX_DIGITS[c as int / 16], HEX_DIGITS[c as int % 16]]
  {
    var n := c as int;
    assert n / 4096 == 0 && n / 256 % 16 == 0 && n / 16 % 16 == n / 16;
    assert forall d | 0 <= d < 16 :: HexDigit(d) == HEX_DIGITS[d];
  }

  lemma EscapeCharExact(c: char)
    ensures EscapeChar(c) == PrintedAs(c)
  {
    if ShortEscape(c).None? && c < ' ' {
      PrintedControl(c);
      hide Hex4;
      assert "\\u" + Hex4(c as int) == "\\u00" + [HEX_DIGITS[c as int / 16], HEX_DIGITS[c as int % 16]];
    }
  }

  /** A string is printed character by character, and never with a raw control character in it. */
  lemma {:induction false} QuoteExact(s: string)
    ensures Quote(s) == "\"" + PrintedString(s) + "\""
    ensures forall i | 0 <= i < |Quote(s)| :: Quote(s)[i] >= 32 as char
  {
    EscapeExact(s);
  }

  lemma {:induction false} EscapeExact(s: string)
    ensures Escape(s) == PrintedString(s)
    ensures forall i | 0 <= i < |Escape(s)| :: Escape(s)[i] >= 32 as char
  {
    if s != "" {
      EscapeCharExact(s[0]);
      EscapeExact(s[1..]);
    }
  }

  /** The writing that printing chooses for a character. */
  function WritingOf(c: char): (w: Writing) {
    if ShortEscape(c).Some? then Short(ShortEscape(c).value, c)
    else if c < 32 as char then Code("\\u" + Hex4(c as int), c as int)
    else Plain(c)
  }

  function WritingsOf(s: string): (ws: seq<Writing>)
    ensures |ws| == |s| && forall i | 0 <= i < |s| :: ws[i] == WritingOf(s[i])
  {
    seq(|s|, i requires 0 <= i < |s| => WritingOf(s[i]))
  }

  lemma WritingOfIs(c: char)
    ensures Allowed(WritingOf(c)) && TextOf(WritingOf(c)) == EscapeChar(c) && BytesOf(WritingOf(c)) == [c]
  {
    if ShortEscape(c).None? && c < ' ' {
      var e := "\\u" + Hex4(c as int);
      Hex4Writes(c as int);
      assert e[..2] == "\\u" && e[2..] == Hex4(c as int);
      assert EncodeUtf8(c as int) == [c];
    }
  }

  /** So printed strings are written as the standard allows. */
  lemma {:induction false} PrintedIsWriting(s: string, post: string)
    ensures AllAllowed(WritingsOf(s)) && Bytes(WritingsOf(s)) == s
    ensures Quoted(WritingsOf(s), post) == Quote(s) + post
  {
    forall i | 0 <= i < |s| ensures Allowed(WritingsOf(s)[i]) { WritingOfIs(s[i]); }
    EscapedIsWriting(s, ['"'] + post);
    hide Escape;
    assert ['"'] + (Escape(s) + (['"'] + post)) == ("\"" + Escape(s) + "\"") + post;
  }

  lemma {:induction false} EscapedIsWriting(s: string, post: string)
    requires AllAllowed(WritingsOf(s))
    ensures Bytes(WritingsOf(s)) == s && Written(WritingsOf(s), post) == Escape(s) + post
  {
    hide EscapeChar, WritingOf, TextOf, BytesOf, Allowed;
    if s == "" {
      assert Escape(s) + post == post;
    } else {
      assert WritingsOf(s)[1..] == WritingsOf(s[1..]);
      WritingOfIs(s[0]);
      EscapedIsWriting(s[1..], post);
      assert s == [s[0]] + s[1..];
    }
  }
}
