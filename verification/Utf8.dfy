/** UTF-16 escapes and UTF-8 bytes (section 3 of RFC 3629).  A byte is a char below 256. */
module Utf8 {
  import opened CStrings

  predicate IsHexDigit(c: char) {
    '0' <= c <= '9' || 'A' <= c <= 'F' || 'a' <= c <= 'f'
  }

  function HexValue(c: char): (v: nat)
    requires IsHexDigit(c)
    ensures v < 16
  {
    if '0' <= c <= '9' then c as int - '0' as int
    else if 'A' <= c <= 'F' then 10 + c as int - 'A' as int
    else 10 + c as int - 'a' as int
  }

  /** parse_hex4: the value of four hexadecimal digits, or 0 as soon as one of them is none. */
  function ParseHex4(s: string): (h: nat)
    requires |s| == 4
    ensures h < 0x1_0000
  {
    if IsHexDigit(s[0]) && IsHexDigit(s[1]) && IsHexDigit(s[2]) && IsHexDigit(s[3]) then
      ((HexValue(s[0]) * 16 + HexValue(s[1])) * 16 + HexValue(s[2])) * 16 + HexValue(s[3])
    else 0
  }

  predicate IsHighSurrogate(code: nat) { 0xD800 <= code <= 0xDBFF }

  predicate IsLowSurrogate(code: nat) { 0xDC00 <= code <= 0xDFFF }

  /** The code points that UTF-8 encodes: everything up to 0x10FFFF but the surrogates. */
  predicate IsScalar(cp: nat) {
    cp <= 0x10FFFF && !IsHighSurrogate(cp) && !IsLowSurrogate(cp)
  }

  function Byte(b: nat): char
    requires b < 256
  {
    b as char
  }

  /** 10xxxxxx with the low six bits of the code point: (codepoint | 0x80) & 0xBF. */
  function Continuation(cp: nat): (c: char)
    ensures 0x80 <= c as int < 0xC0 && c as int - 0x80 == cp % 64
  {
    Byte(0x80 + cp % 64)
  }

  function EncodeUtf8(cp: nat): (bytes: string)
    requires cp <= 0x10FFFF
    ensures 1 <= |bytes| <= 4
  {
    if cp < 0x80 then [Byte(cp)]
    else if cp < 0x800 then [Byte(0xC0 + cp / 64), Continuation(cp)]
    else if cp < 0x1_0000 then [Byte(0xE0 + cp / 4096), Continuation(cp / 64), Continuation(cp)]
    else [Byte(0xF0 + cp / 262144), Continuation(cp / 4096), Continuation(cp / 64), Continuation(cp)]
  }

  predicate IsContinuation(c: char) {
    0x80 <= c as int < 0xC0
  }

  /** One whole UTF-8 sequence: its code point, unless it is cut short, overlong, a surrogate or out of range. */
  function DecodeUtf8(b: string): Option<nat> {
    if |b| == 1 && b[0] as int < 0x80 then Some(b[0] as int)
    else if |b| == 2 && 0xC0 <= b[0] as int < 0xE0 && IsContinuation(b[1]) then
      Shortest((b[0] as int - 0xC0) * 64 + Six(b[1]), 0x80)
    else if |b| == 3 && 0xE0 <= b[0] as int < 0xF0 && IsContinuation(b[1]) && IsContinuation(b[2]) then
      Shortest((b[0] as int - 0xE0) * 4096 + Six(b[1]) * 64 + Six(b[2]), 0x800)
    else if |b| == 4 && 0xF0 <= b[0] as int < 0xF8 && IsContinuation(b[1]) && IsContinuation(b[2]) && IsContinuation(b[3]) then
      Shortest((b[0] as int - 0xF0) * 262144 + Six(b[1]) * 4096 + Six(b[2]) * 64 + Six(b[3]), 0x1_0000)
    else None
  }

  function Six(c: char): (v: nat)
    requires IsContinuation(c)
    ensures v < 64
  {
    c as int - 0x80
  }

  function Shortest(cp: nat, least: nat): Option<nat> {
    if least <= cp && IsScalar(cp) then Some(cp) else None
  }

  /** Division and remainder by 64 take a number apart into its six-bit digits, and put it together. */
  lemma SixBitDigits(a: nat, b: nat, c: nat, d: nat)
    requires b < 64 && c < 64 && d < 64
    ensures var x := a * 262144 + b * 4096 + c * 64 + d;
      x / 262144 == a && x / 4096 % 64 == b && x / 64 % 64 == c && x % 64 == d
  {
    var x := a * 262144 + b * 4096 + c * 64 + d;
    assert x / 64 == a * 4096 + b * 64 + c;
    assert x / 4096 == a * 64 + b;
  }

  lemma SixBitSum(cp: nat)
    ensures cp / 64 * 64 + cp % 64 == cp
    ensures cp / 4096 * 4096 + cp / 64 % 64 * 64 + cp % 64 == cp
    ensures cp / 262144 * 262144 + cp / 4096 % 64 * 4096 + cp / 64 % 64 * 64 + cp % 64 == cp
  {
    assert cp / 4096 == cp / 64 / 64 && cp / 262144 == cp / 4096 / 64;
  }

  lemma DecodeFour(cp: nat)
    requires 0x1_0000 <= cp <= 0x10FFFF
    ensures DecodeUtf8(EncodeUtf8(cp)) == Some(cp)
  {
    var b := EncodeUtf8(cp);
    var (p, q, r, s) := (cp / 262144, cp / 4096 % 64, cp / 64 % 64, cp % 64);
    SixBitSum(cp);
    assert b[0] as int - 0xF0 == p && Six(b[1]) == q && Six(b[2]) == r && Six(b[3]) == s;
    hide EncodeUtf8, Continuation;
    assert DecodeUtf8(b) == Shortest(p * 262144 + q * 4096 + r * 64 + s, 0x1_0000);
  }

  lemma DecodeEncoded(cp: nat)
    requires IsScalar(cp)
    ensures DecodeUtf8(EncodeUtf8(cp)) == Some(cp)
  {
    var b := EncodeUtf8(cp);
    if 0x80 <= cp < 0x1_0000 {
      SixBitSum(cp);
      assert Six(b[|b| - 1]) == cp % 64 && (|b| == 3 ==> Six(b[1]) == cp / 64 % 64);
    } else if cp >= 0x1_0000 {
      DecodeFour(cp);
    }
  }

  lemma EncodeDecoded(b: string)
    requires DecodeUtf8(b).Some?
    ensures b == EncodeUtf8(DecodeUtf8(b).value)
  {
    var cp := DecodeUtf8(b).value;
    if |b| == 2 {
      SixBitDigits(0, 0, b[0] as int - 0xC0, Six(b[1]));
    } else if |b| == 3 {
      SixBitDigits(0, b[0] as int - 0xE0, Six(b[1]), Six(b[2]));
    } else if |b| == 4 {
      SixBitDigits(b[0] as int - 0xF0, Six(b[1]), Six(b[2]), Six(b[3]));
    }
  }

  /** The encoder's output is the one byte sequence that decodes to the code point. */
  lemma EncodingIsUnique(cp: nat, b: string)
    requires IsScalar(cp)
    ensures DecodeUtf8(b) == Some(cp) <==> b == EncodeUtf8(cp)
  {
    DecodeEncoded(cp);
    if DecodeUtf8(b) == Some(cp) { EncodeDecoded(b); }
  }

  // ---------- UTF-16 literals in strings

  function Combine(high: nat, low: nat): nat {
    0x1_0000 + high % 0x400 * 0x400 + low % 0x400
  }

  /** utf16_literal_to_utf8 on the text from the backslash on: the code point and the characters it takes. */
  function Utf16Literal(t: string): (r: Option<(nat, nat)>)
    ensures r.Some? ==> IsScalar(r.value.0) && 6 <= r.value.1 <= |t|
  {
    if |t| < 6 then None
    else
      var first := ParseHex4(t[2..6]);
      if IsLowSurrogate(first) then None
      else if !IsHighSurrogate(first) then Some((first, 6))
      else if |t| < 12 || t[6] != '\\' || t[7] != 'u' then None
      else
        var second := ParseHex4(t[8..12]);
        if IsLowSurrogate(second) then Some((Combine(first, second), 12)) else None
  }

  function HexDigit(d: nat): (c: char)
    requires d < 16
    ensures IsHexDigit(c) && HexValue(c) == d
  {
    if d < 10 then ('0' as int + d) as char else ('a' as int + (d - 10)) as char
  }

  /** "%04x" */
  function Hex4(n: nat): (s: string)
    requires n < 0x1_0000
    ensures |s| == 4 && forall c | c in s :: IsHexDigit(c)
  {
    [HexDigit(n / 4096), HexDigit(n / 256 % 16), HexDigit(n / 16 % 16), HexDigit(n % 16)]
  }

  // ---------- four hexadecimal digits, in either case

  /** The character stands for the digit d: 0 to 9, and a to f or A to F from ten on. */
  predicate IsDigitFor(c: char, d: nat) {
    && d < 16
    && (if d < 10 then c as int == '0' as int + d
        else c as int == 'a' as int + d - 10 || c as int == 'A' as int + d - 10)
  }

  /** Four digits, each in either case, that write the number. */
  predicate WritesHex4(h: string, n: nat) {
    && |h| == 4 && n < 0x1_0000
    && IsDigitFor(h[0], n / 4096) && IsDigitFor(h[1], n / 256 % 16) && IsDigitFor(h[2], n / 16 % 16) && IsDigitFor(h[3], n % 16)
  }

  lemma FourDigits(a: nat, b: nat, c: nat, d: nat)
    requires a < 16 && b < 16 && c < 16 && d < 16
    ensures var n := a * 4096 + b * 256 + c * 16 + d;
      n < 0x1_0000 && n / 4096 == a && n / 256 % 16 == b && n / 16 % 16 == c && n % 16 == d
  {
    var n := a * 4096 + b * 256 + c * 16 + d;
    assert n / 16 == a * 256 + b * 16 + c && n / 256 == a * 16 + b;
  }

  lemma FourDigitsSum(n: nat)
    requires n < 0x1_0000
    ensures n / 4096 < 16 && n == n / 4096 * 4096 + n / 256 % 16 * 256 + n / 16 % 16 * 16 + n % 16
  {
  }

  /** parse_hex4 reads four digits by their places, whatever the case of each. */
  lemma ReadsFourDigits(h: string, a: nat, b: nat, c: nat, d: nat)
    requires |h| == 4 && IsDigitFor(h[0], a) && IsDigitFor(h[1], b) && IsDigitFor(h[2], c) && IsDigitFor(h[3], d)
    ensures ParseHex4(h) == a * 4096 + b * 256 + c * 16 + d
    ensures WritesHex4(h, a * 4096 + b * 256 + c * 16 + d)
  {
    assert HexValue(h[0]) == a && HexValue(h[1]) == b && HexValue(h[2]) == c && HexValue(h[3]) == d;
    FourDigits(a, b, c, d);
  }

  lemma ParseWrittenHex4(h: string, n: nat)
    requires WritesHex4(h, n)
    ensures ParseHex4(h) == n
  {
    ReadsFourDigits(h, n / 4096, n / 256 % 16, n / 16 % 16, n % 16);
    FourDigitsSum(n);
  }

  lemma Hex4Writes(n: nat)
    requires n < 0x1_0000
    ensures WritesHex4(Hex4(n), n)
  {
  }

  /** Any other character among the four makes the whole 0: this is no error for the code. */
  lemma OtherCharactersReadAsZero(h: string, i: nat)
    requires i < |h| == 4 && forall d: nat :: !IsDigitFor(h[i], d)
    ensures ParseHex4(h) == 0
  {
    if IsHexDigit(h[i]) { assert IsDigitFor(h[i], HexValue(h[i])); }
  }

  lemma ParsedIsWritten(h: string)
    requires |h| == 4 && ParseHex4(h) > 0
    ensures WritesHex4(h, ParseHex4(h))
  {
    forall i | 0 <= i < 4 ensures IsDigitFor(h[i], HexValue(h[i])) { }
    ReadsFourDigits(h, HexValue(h[0]), HexValue(h[1]), HexValue(h[2]), HexValue(h[3]));
  }

  lemma WrittenOrOther(h: string)
    requires |h| == 4
    ensures WritesHex4(h, ParseHex4(h)) || exists i :: 0 <= i < 4 && forall d: nat :: !IsDigitFor(h[i], d)
  {
    if i: nat :| i < 4 && !IsHexDigit(h[i]) {
    } else {
      ReadsFourDigits(h, HexValue(h[0]), HexValue(h[1]), HexValue(h[2]), HexValue(h[3]));
    }
  }

  /** The surrogate pair of a code point above 0xFFFF. */
  function Split(cp: nat): (p: (nat, nat))
    requires 0x1_0000 <= cp <= 0x10FFFF
    ensures IsHighSurrogate(p.0) && IsLowSurrogate(p.1)
  {
    (0xD800 + (cp - 0x1_0000) / 0x400, 0xDC00 + (cp - 0x1_0000) % 0x400)
  }

  /** Surrogate pairs and the code points from 0x10000 to 0x10FFFF correspond one to one. */
  lemma PairsAreOneToOne(high: nat, low: nat, cp: nat)
    requires IsHighSurrogate(high) && IsLowSurrogate(low) && 0x1_0000 <= cp <= 0x10FFFF
    ensures 0x1_0000 <= Combine(high, low) <= 0x10FFFF
    ensures Combine(high, low) == cp <==> Split(cp) == (high, low)
  {
    var (a, b) := (high - 0xD800, low - 0xDC00);
    assert high % 0x400 == a && low % 0x400 == b;
    assert (a * 0x400 + b) / 0x400 == a && (a * 0x400 + b) % 0x400 == b;
  }

  /** The text writes the code point with one escape, or above 0xFFFF with two, its digits in either case. */
  predicate WritesCodePoint(t: string, cp: nat) {
    && cp <= 0x10FFFF && !(0xD800 <= cp <= 0xDFFF)
    && if cp < 0x1_0000 then |t| == 6 && t[..2] == "\\u" && WritesHex4(t[2..], cp)
       else
         && |t| == 12 && t[..2] == "\\u" && t[6..8] == "\\u"
         && WritesHex4(t[2..6], 0xD800 + (cp - 0x1_0000) / 0x400) && WritesHex4(t[8..], 0xDC00 + (cp - 0x1_0000) % 0x400)
  }

  /** Every code point is read back from every way to write it, whatever follows. */
  lemma LiteralRoundTrip(t: string, cp: nat, rest: string)
    requires WritesCodePoint(t, cp)
    ensures Utf16Literal(t + rest) == Some((cp, |t|))
  {
    hide WritesHex4, ParseHex4;
    var u := t + rest;
    if cp < 0x1_0000 {
      assert u[2..6] == t[2..];
      ParseWrittenHex4(t[2..], cp);
    } else {
      var p := Split(cp);
      assert u[2..6] == t[2..6] && u[8..12] == t[8..];
      assert u[6] == t[6..8][0] && u[7] == t[6..8][1];
      ParseWrittenHex4(t[2..6], p.0);
      ParseWrittenHex4(t[8..], p.1);
      PairsAreOneToOne(p.0, p.1, cp);
    }
  }

  /** The text begins with an escape, in either case, of a low surrogate. */
  ghost predicate BeginsWithLow(t: string) {
    |t| >= 6 && t[..2] == "\\u" && exists low :: 0xDC00 <= low <= 0xDFFF && WritesHex4(t[2..6], low)
  }

  /** A literal is rejected exactly when its surrogates do not come as a high and then a low one. */
  lemma LoneSurrogatesRejected(h: string, code: nat, rest: string)
    requires WritesHex4(h, code)
    ensures Utf16Literal("\\u" + h + rest).None? <==>
      0xDC00 <= code <= 0xDFFF || (0xD800 <= code <= 0xDBFF && !BeginsWithLow(rest))
  {
    assert |h| == 4;
    hide WritesHex4, ParseHex4;
    var t := "\\u" + h + rest;
    assert t[2..6] == h;
    ParseWrittenHex4(h, code);
    if |rest| >= 6 {
      var low := ParseHex4(rest[2..6]);
      assert t[8..12] == rest[2..6] && t[6] == rest[0] && t[7] == rest[1];
      assert rest[..2] == [rest[0], rest[1]];
      if low > 0 { ParsedIsWritten(rest[2..6]); }
      if n: nat :| 0xDC00 <= n <= 0xDFFF && WritesHex4(rest[2..6], n) { ParseWrittenHex4(rest[2..6], n); }
    }
  }

  /** With a character that is no hexadecimal digit the code reads a NUL. */
  lemma OtherCharactersAreNul(h: string, i: nat, rest: string)
    requires i < |h| == 4 && forall d: nat :: !IsDigitFor(h[i], d)
    ensures Utf16Literal("\\u" + h + rest) == Some((0, 6))
  {
    hide ParseHex4;
    assert ("\\u" + h + rest)[2..6] == h;
    OtherCharactersReadAsZero(h, i);
  }
}
