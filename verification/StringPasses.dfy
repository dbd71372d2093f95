/** parse_string: the pass that estimates the size of the output, and the pass that writes it. */
module StringPasses {
  import opened CStrings
  import opened Utf8
  import opened Parsing

  // ---------- the estimate

  /** In the first pass an escape starts at position i of the text behind the opening quote. */
  predicate Starts(x: string, i: nat)
    requires i < |x|
  {
    x[i] == '\\' && (i == 0 || !Starts(x, i - 1))
  }

  /** How many escapes the first pass meets before position i. */
  function Skipped(x: string, i: nat): (n: nat)
    requires i <= |x|
    ensures n <= i
  {
    if i == 0 then 0 else Skipped(x, i - 1) + if Starts(x, i - 1) then 1 else 0
  }

  lemma {:induction false} RoomGrows(x: string, i: nat, j: nat)
    requires i <= j <= |x|
    ensures i - Skipped(x, i) <= j - Skipped(x, j)
  {
    if i < j { RoomGrows(x, i, j - 1); }
  }

  /** Of two neighbouring characters at most one starts an escape. */
  lemma SkippedInPair(x: string, i: nat)
    requires i + 2 <= |x|
    ensures Skipped(x, i + 2) <= Skipped(x, i) + 1
  {
  }

  lemma SkippedInSix(x: string, i: nat)
    requires i + 6 <= |x|
    ensures Skipped(x, i + 6) <= Skipped(x, i) + 3
  {
    SkippedInPair(x, i);
    SkippedInPair(x, i + 2);
    SkippedInPair(x, i + 4);
  }

  /** First pass, from behind the opening quote: the closing quote, and the escapes before it. */
  method FindClosingQuote(content: string, start: nat) returns (end: Option<nat>, skipped: nat)
    requires start <= |content|
    ensures end == ClosingQuote(content, start)
    ensures end.Some? ==> var x := content[start..]; var n := end.value - start;
      n < |x| && x[n] == '"' && skipped == Skipped(x, n) && (n == 0 || !Starts(x, n - 1))
  {
    ghost var x := content[start..];
    var e := start;
    skipped := 0;
    while e < |content| && content[e] != '"'
      invariant start <= e <= |content|
      invariant ClosingQuote(content, start) == ClosingQuote(content, e)
      invariant skipped == Skipped(x, e - start) && (e == start || !Starts(x, e - start - 1))
      decreases |content| - e
    {
      assert x[e - start] == content[e];
      if content[e] == '\\' {
        if e + 1 >= |content| {
          return None, skipped;
        }
        skipped := skipped + 1;
        e := e + 1;
      }
      e := e + 1;
    }
    if e >= |content| {
      return None, skipped;
    }
    assert x[e - start] == content[e];
    end := Some(e);
  }

  // ---------- one literal

  /** cp >> 6k */
  function Shift(cp: nat, k: nat): nat {
    if k == 0 then cp else Shift(cp, k - 1) / 64
  }

  lemma EncodedByShifts(cp: nat)
    requires cp <= 0x10FFFF
    ensures var b := EncodeUtf8(cp);
      && |b| == (if cp < 0x80 then 1 else if cp < 0x800 then 2 else if cp < 0x1_0000 then 3 else 4)
      && (forall q | 0 < q < |b| :: b[q] == Continuation(Shift(cp, |b| - 1 - q)))
      && var mark := if |b| == 1 then 0 else if |b| == 2 then 0xC0 else if |b| == 3 then 0xE0 else 0xF0;
         Shift(cp, |b| - 1) + mark < 256 && b[0] == Byte(Shift(cp, |b| - 1) + mark)
  {
    assert cp / 64 / 64 == cp / 4096 && cp / 4096 / 64 == cp / 262144;
    assert Shift(cp, 1) == cp / 64;
    assert Shift(cp, 2) == cp / 4096;
    assert Shift(cp, 3) == cp / 262144;
  }

  /** The value of the first i digits, already shifted for the next one unless there is none. */
  function Nibbles(s: string, i: nat): nat
    requires i <= |s| == 4
  {
    if i == 0 then 0
    else (Nibbles(s, i - 1) + if IsHexDigit(s[i - 1]) then HexValue(s[i - 1]) else 0) * if i < 4 then 16 else 1
  }

  lemma AllNibbles(s: string)
    requires |s| == 4
    ensures (forall k | 0 <= k < 4 :: IsHexDigit(s[k])) ==> Nibbles(s, 4) == ParseHex4(s)
  {
    assert Nibbles(s, 4) == Nibbles(s, 3) + if IsHexDigit(s[3]) then HexValue(s[3]) else 0;
    assert Nibbles(s, 3) == (Nibbles(s, 2) + if IsHexDigit(s[2]) then HexValue(s[2]) else 0) * 16;
    assert Nibbles(s, 2) == (Nibbles(s, 1) + if IsHexDigit(s[1]) then HexValue(s[1]) else 0) * 16;
  }

  /** parse_hex4 */
  method ReadHex4(input: string, at: nat) returns (h: nat)
    requires at + 4 <= |input|
    ensures h == ParseHex4(input[at..at + 4])
  {
    ghost var s := input[at..at + 4];
    AllNibbles(s);
    h := 0;
    for i := 0 to 4
      invariant forall k | 0 <= k < i :: IsHexDigit(s[k])
      invariant h == Nibbles(s, i)
    {
      var c := input[at + i];
      assert c == s[i];
      if '0' <= c <= '9' {
        h := h + (c as int - '0' as int);
      } else if 'A' <= c <= 'F' {
        h := h + (10 + c as int - 'A' as int);
      } else if 'a' <= c <= 'f' {
        h := h + (10 + c as int - 'a' as int);
      } else {
        return 0;
      }
      if i < 3 {
        h := h * 16;
      }
    }
  }

  /** The bytes of a code point, the last one first: the loop of utf16_literal_to_utf8. */
  method WriteUtf8(cp: nat, output: array<char>, w: nat) returns (w': nat)
    requires cp <= 0x10FFFF && w + |EncodeUtf8(cp)| <= output.Length
    modifies output
    ensures w' == w + |EncodeUtf8(cp)|
    ensures forall k | 0 <= k < |EncodeUtf8(cp)| :: output[w + k] == EncodeUtf8(cp)[k]
    ensures forall k | 0 <= k < w :: output[k] == old(output[k])
  {
    hide EncodeUtf8;
    EncodedByShifts(cp);
    ghost var b := EncodeUtf8(cp);
    var length, mark;
    if cp < 0x80 {
      length, mark := 1, 0;
    } else if cp < 0x800 {
      length, mark := 2, 0xC0;
    } else if cp < 0x1_0000 {
      length, mark := 3, 0xE0;
    } else {
      length, mark := 4, 0xF0;
    }
    var left, position := cp, length - 1;
    while position > 0
      invariant 0 <= position < length && left == Shift(cp, length - 1 - position)
      invariant forall k | position < k < length :: output[w + k] == b[k]
      invariant forall k | 0 <= k < w :: output[k] == old(output[k])
    {
      output[w + position] := Continuation(left);
      left := left / 64;
      position := position - 1;
    }
    output[w] := Byte(left + mark);
    w' := w + length;
  }

  lemma SliceOfSlice(s: string, i: nat, end: nat, a: nat, b: nat)
    requires i <= end <= |s| && a <= b <= end - i
    ensures s[i + a..i + b] == s[i..end][a..b]
  {
    var t := s[i..end];
    assert forall k | 0 <= k < b - a :: s[i + a..i + b][k] == s[i + a + k] == t[a + k] == t[a..b][k];
  }

  /** utf16_literal_to_utf8: the length of the literal, or 0 if it is malformed. */
  method Utf16LiteralToUtf8(input: string, i: nat, end: nat, output: array<char>, w: nat) returns (length: nat, w': nat)
    requires i <= end <= |input| && w <= output.Length
    requires var literal := Utf16Literal(input[i..end]);
      literal.Some? ==> w + |EncodeUtf8(literal.value.0)| <= output.Length
    modifies output
    ensures var literal := Utf16Literal(input[i..end]);
      if literal.None? then length == 0 && w' == w
      else
        var bytes := EncodeUtf8(literal.value.0);
        && length == literal.value.1 && w' == w + |bytes|
        && forall k | 0 <= k < |bytes| :: output[w + k] == bytes[k]
    ensures forall k | 0 <= k < w :: output[k] == old(output[k])
  {
    hide EncodeUtf8, ParseHex4;
    ghost var t := input[i..end];
    length, w' := 0, w;
    if end - i < 6 {
      return;
    }
    var first := ReadHex4(input, i + 2);
    SliceOfSlice(input, i, end, 2, 6);
    if 0xDC00 <= first <= 0xDFFF {
      return;
    }
    var codepoint, size;
    if 0xD800 <= first <= 0xDBFF {
      if end - (i + 6) < 6 {
        return;
      }
      if input[i + 6] != '\\' || input[i + 7] != 'u' {
        return;
      }
      var second := ReadHex4(input, i + 8);
      SliceOfSlice(input, i, end, 8, 12);
      if second < 0xDC00 || second > 0xDFFF {
        return;
      }
      codepoint, size := 0x1_0000 + (first % 0x400 * 0x400 + second % 0x400), 12;
    } else {
      codepoint, size := first, 6;
    }
    w' := WriteUtf8(codepoint, output, w);
    length := size;
  }

  // ---------- the second pass

  /** What the second pass has still to read; it can stand one position behind the closing quote. */
  function Unread(content: string, i: nat, end: nat): string
    requires end <= |content|
  {
    if i <= end then content[i..end] else ""
  }

  lemma UnescapeNext(content: string, i: nat, end: nat)
    requires i < end < |content| && content[end] == '"'
    ensures var (t, next) := (content[i..end], content[i + 1]);
      Unescape(t) ==
      if content[i] != '\\' then Prepend([content[i]], Unescape(Unread(content, i + 1, end)))
      else if next == 'u' then
        var literal := Utf16Literal(t);
        if literal.None? then None
        else Prepend(EncodeUtf8(literal.value.0), Unescape(Unread(content, i + literal.value.1, end)))
      else if ShortUnescape(next).None? then None
      else Prepend([ShortUnescape(next).value], Unescape(Unread(content, i + 2, end)))
  {
    var t := content[i..end];
    hide Utf16Literal, EncodeUtf8, Prepend, ShortUnescape;
    assert t[0] == content[i] && t[1..] == content[i + 1..end];
    assert |t| > 1 ==> t[1] == content[i + 1] && t[2..] == content[i + 2..end];
    var literal := Utf16Literal(t);
    if literal.Some? { assert t[literal.value.1..] == content[i + literal.value.1..end]; }
  }

  lemma PrependTwice(a: string, b: string, rest: Option<string>)
    ensures Prepend(a, Prepend(b, rest)) == Prepend(a + b, rest)
  {
    if rest.Some? { assert a + (b + rest.value) == (a + b) + rest.value; }
  }

  /** Bytes written, and escapes that the first pass counted before i, fit into i. */
  ghost predicate Fits(x: string, n: nat, i: nat, w: nat) {
    n <= |x| && w + Skipped(x, if i <= n then i else n) <= if i <= n then i else n
  }

  /** The room that an escape needs, wherever the first pass saw escapes. */
  lemma RoomForEscape(x: string, n: nat, i: nat, w: nat)
    requires i < n < |x| && Fits(x, n, i, w) && !Starts(x, n - 1)
    ensures x[i] != '\\' ==> Fits(x, n, i + 1, w + 1)
    ensures x[i] == '\\' ==> Fits(x, n, i + 2, w + 1)
  {
    if i + 2 <= n { SkippedInPair(x, i); }
  }

  lemma RoomForLiteral(x: string, n: nat, i: nat, w: nat, t: string)
    requires i < n < |x| && Fits(x, n, i, w) && |t| == n - i && Utf16Literal(t).Some?
    ensures var (cp, length) := Utf16Literal(t).value; Fits(x, n, i + length, w + |EncodeUtf8(cp)|)
  {
    var (cp, length) := Utf16Literal(t).value;
    if length == 6 { SkippedInSix(x, i); } else { SkippedInSix(x, i); SkippedInSix(x, i + 6); }
    assert length == 6 ==> cp < 0x1_0000;
    assert length == 6 || length == 12;
  }

  lemma FitsAtEnd(x: string, n: nat, i: nat, w: nat)
    requires Fits(x, n, i, w)
    ensures w <= n - Skipped(x, n)
  {
    RoomGrows(x, if i <= n then i else n, n);
  }

  /** Second pass: `done` is unescaped, and what is still unread decides the rest; n is where the string ends. */
  ghost predicate Unescaping(content: string, start: nat, end: nat, i: nat, done: string) {
    && start <= end < |content| && content[end] == '"' && start <= i <= end + 1
    && (start == end || !Starts(content[start..], end - start - 1))
    && Unescape(content[start..end]) == Prepend(done, Unescape(Unread(content, i, end)))
    && Fits(content[start..], end - start, i - start, |done|)
  }

  lemma UnescapeMore(content: string, start: nat, end: nat, i: nat, done: string, bytes: string, i': nat)
    requires Unescaping(content, start, end, i, done) && i < i' <= end + 1
    requires Unescape(Unread(content, i, end)) == Prepend(bytes, Unescape(Unread(content, i', end)))
    requires Fits(content[start..], end - start, i' - start, |done| + |bytes|)
    ensures Unescaping(content, start, end, i', done + bytes)
    ensures |done + bytes| <= end - start - Skipped(content[start..], end - start)
  {
    hide Unescape, Starts, Skipped;
    PrependTwice(done, bytes, Unescape(Unread(content, i', end)));
    FitsAtEnd(content[start..], end - start, i' - start, |done| + |bytes|);
  }

  /** The next byte is an ordinary character. */
  lemma UnescapePlain(content: string, start: nat, end: nat, i: nat, done: string)
    requires Unescaping(content, start, end, i, done) && i < end && content[i] != '\\'
    ensures |done| + 1 <= end - start - Skipped(content[start..], end - start)
    ensures Unescaping(content, start, end, i + 1, done + [content[i]])
  {
    hide Unescape, Starts, Skipped, Utf16Literal, EncodeUtf8, ShortUnescape, Fits, Unescaping, Prepend, Unread;
    RoomFor(content, start, end, i, done);
    UnescapeNext(content, i, end);
    UnescapeMore(content, start, end, i, done, [content[i]], i + 1);
  }

  /** The next bytes come from a literal. */
  lemma UnescapeLiteral(content: string, start: nat, end: nat, i: nat, done: string) returns (bytes: string, i': nat)
    requires Unescaping(content, start, end, i, done) && i < end && content[i] == '\\' && content[i + 1] == 'u'
    requires Utf16Literal(content[i..end]).Some?
    ensures bytes == EncodeUtf8(Utf16Literal(content[i..end]).value.0) && i' == i + Utf16Literal(content[i..end]).value.1
    ensures |done| + |bytes| <= end - start - Skipped(content[start..], end - start)
    ensures Unescaping(content, start, end, i', done + bytes)
  {
    hide Unescape, Starts, Skipped, Utf16Literal, EncodeUtf8, ShortUnescape, Fits, Unescaping, Prepend, Unread;
    RoomFor(content, start, end, i, done);
    UnescapeNext(content, i, end);
    var literal := Utf16Literal(content[i..end]).value;
    bytes, i' := EncodeUtf8(literal.0), i + literal.1;
    UnescapeMore(content, start, end, i, done, bytes, i');
  }

  lemma BadLiteral(content: string, start: nat, end: nat, i: nat, done: string)
    requires Unescaping(content, start, end, i, done) && i < end && content[i] == '\\' && content[i + 1] == 'u'
    requires Utf16Literal(content[i..end]).None?
    ensures Unescape(content[start..end]).None?
  {
    hide Unescape, Starts, Skipped, Utf16Literal, EncodeUtf8, ShortUnescape, Fits, Unescaping, Prepend, Unread;
    RoomFor(content, start, end, i, done);
    UnescapeNext(content, i, end);
    NothingUnescaped(content, start, end, i, done);
  }

  /** The next byte comes from a one-character escape, or the string is malformed. */
  lemma UnescapeShort(content: string, start: nat, end: nat, i: nat, done: string)
    requires Unescaping(content, start, end, i, done) && i < end && content[i] == '\\' && content[i + 1] != 'u'
    ensures var c := ShortUnescape(content[i + 1]);
      if c.None? then Unescape(content[start..end]).None?
      else
        && |done| + 1 <= end - start - Skipped(content[start..], end - start)
        && Unescaping(content, start, end, i + 2, done + [c.value])
  {
    hide Unescape, Starts, Skipped, Utf16Literal, EncodeUtf8, ShortUnescape, Fits, Unescaping, Prepend, Unread;
    RoomFor(content, start, end, i, done);
    UnescapeNext(content, i, end);
    var c := ShortUnescape(content[i + 1]);
    if c.Some? {
      UnescapeMore(content, start, end, i, done, [c.value], i + 2);
    } else {
      NothingUnescaped(content, start, end, i, done);
    }
  }

  lemma NothingUnescaped(content: string, start: nat, end: nat, i: nat, done: string)
    requires Unescaping(content, start, end, i, done) && Unescape(Unread(content, i, end)).None?
    ensures Unescape(content[start..end]).None?
  {
    hide Unescape, Starts, Skipped;
  }

  lemma RoomFor(content: string, start: nat, end: nat, i: nat, done: string)
    requires Unescaping(content, start, end, i, done) && i < end
    ensures start <= i < end < |content| && content[end] == '"'
    ensures Unread(content, i, end) == content[i..end]
    ensures var (x, n, w) := (content[start..], end - start, |done|);
      && (content[i] != '\\' ==> Fits(x, n, i + 1 - start, w + 1))
      && (content[i] == '\\' ==> Fits(x, n, i + 2 - start, w + 1))
      && var literal := Utf16Literal(content[i..end]);
         literal.Some? ==>
           && i + literal.value.1 <= end
           && Fits(x, n, i + literal.value.1 - start, w + |EncodeUtf8(literal.value.0)|)
  {
    hide Unescape, Starts, Skipped, EncodeUtf8, Utf16Literal, Fits;
    var x, n := content[start..], end - start;
    assert x[i - start] == content[i];
    RoomForEscape(x, n, i - start, |done|);
    if Utf16Literal(content[i..end]).Some? { RoomForLiteral(x, n, i - start, |done|, content[i..end]); }
  }

  /** The letters of the one-character escapes. */
  method ShortEscapeOf(c: char) returns (r: Option<char>)
    ensures r == ShortUnescape(c)
  {
    match c
    case 'b' => r := Some(8 as char);
    case 'f' => r := Some(12 as char);
    case 'n' => r := Some('\n');
    case 'r' => r := Some('\r');
    case 't' => r := Some('\t');
    case _ => r := if c == '"' || c == '\\' || c == '/' then Some(c) else None;
  }

  /**
   The second pass, into an output of the estimated length.  Every write is inside it, for valid escapes and
   others, also where this pass and the first one see different escapes.
   */
  method WriteUnescaped(content: string, start: nat, end: nat, output: array<char>) returns (ok: bool, at: nat)
    requires start <= end < |content| && content[end] == '"' && (start == end || !Starts(content[start..], end - start - 1))
    requires output.Length == end - start + 2 - Skipped(content[start..], end - start)
    modifies output
    ensures start <= at <= |content|
    ensures ok <==> Unescape(content[start..end]).Some?
    ensures ok ==> var s := Unescape(content[start..end]).value; |s| < output.Length && output[..|s| + 1] == s + [NUL]
  {
    hide Unescape, Starts, Skipped, Utf16Literal, EncodeUtf8, ShortUnescape, Unescaping;
    ghost var done := "";
    var i, w: nat := start, 0;
    BeforeUnescaping(content, start, end);
    while i < end
      invariant start <= i <= end + 1 <= |content| && content[end] == '"' && w == |done| && w + 2 <= output.Length
      invariant Unescaping(content, start, end, i, done)
      invariant forall k | 0 <= k < |done| :: output[k] == done[k]
      decreases end + 1 - i
    {
      if content[i] != '\\' {
        UnescapePlain(content, start, end, i, done);
        output[w] := content[i];
        done := done + [content[i]];
        i, w := i + 1, w + 1;
      } else if content[i + 1] == 'u' {
        var length;
        ghost var bytes, i' := "", i;
        if Utf16Literal(content[i..end]).Some? {
          bytes, i' := UnescapeLiteral(content, start, end, i, done);
        } else {
          BadLiteral(content, start, end, i, done);
        }
        length, w := Utf16LiteralToUtf8(content, i, end, output, w);
        if length == 0 {
          return false, i;
        }
        done := done + bytes;
        i := i + length;
      } else {
        UnescapeShort(content, start, end, i, done);
        var c := ShortEscapeOf(content[i + 1]);
        if c.None? {
          return false, i;
        }
        output[w] := c.value;
        done := done + [c.value];
        i, w := i + 2, w + 1;
      }
    }
    AfterUnescaping(content, start, end, i, done);
    output[w] := NUL;
    return true, i;
  }

  lemma BeforeUnescaping(content: string, start: nat, end: nat)
    requires start <= end < |content| && content[end] == '"' && (start == end || !Starts(content[start..], end - start - 1))
    ensures Unescaping(content, start, end, start, "") && Skipped(content[start..], end - start) <= end - start
  {
    PrependNothing(Unescape(content[start..end]));
    hide Unescape;
  }

  lemma AfterUnescaping(content: string, start: nat, end: nat, i: nat, done: string)
    requires Unescaping(content, start, end, i, done) && i >= end
    ensures Unescape(content[start..end]) == Some(done)
  {
    assert Unread(content, i, end) == "" && Unescape("") == Some("");
    hide Unescape;
    assert done + "" == done;
  }

  lemma PrependNothing(rest: Option<string>)
    ensures Prepend("", rest) == rest
  {
    if rest.Some? { assert "" + rest.value == rest.value; }
  }
}
