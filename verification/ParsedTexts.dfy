/** The parser reads nothing else: every text that it accepts is the text of a syntax tree with the value it returns. */
module ParsedTexts {
  import opened CStrings
  import opened JsonTree
  import opened Numbers
  import opened Utf8
  import opened Parsing
  import opened StringTexts
  import opened JsonTexts
  import opened ParseTexts

  // ---------- what is read, beyond the standard

  /** "\u" and something else than four digits. */
  ghost predicate IsSpoiled(tail: string) {
    |tail| >= 6 && tail[0] == '\\' && tail[1] == 'u' && exists i :: 2 <= i < 6 && forall d: nat :: !IsDigitFor(tail[i], d)
  }

  ghost predicate AllRead(ws: seq<Writing>) {
    forall i | 0 <= i < |ws| :: Allowed(ws[i]) || (i == |ws| - 1 && ws[i].Spoiled? && IsSpoiled(ws[i].tail))
  }

  /** As `Accepted`, but strings may be spoiled. */
  ghost predicate IsRead(s: Syntax) {
    match s
    case IntegerOf(negative, digits) => AreDigits(digits) && |digits| + (if negative then 1 else 0) <= 63
    case StringOf(ws) => AllRead(ws)
    case ArrayOf(inside, es) =>
      IsWhite(inside) && forall i | 0 <= i < |es| :: IsWhite(es[i].before) && IsRead(es[i].value) && IsWhite(es[i].after)
    case ObjectOf(inside, es) =>
      IsWhite(inside) && forall i | 0 <= i < |es| ::
        && IsWhite(es[i].before) && AllRead(es[i].key) && IsWhite(es[i].afterKey)
        && IsWhite(es[i].beforeValue) && IsRead(es[i].value) && IsWhite(es[i].after)
    case _ => true
  }

  // ---------- strings

  lemma {:induction false} UpToNulBehind(x: string, a: string, b: string)
    requires UpToNul(a) == UpToNul(b)
    ensures UpToNul(x + a) == UpToNul(x + b)
  {
    if x == "" {
      assert x + a == a && x + b == b;
    } else {
      assert (x + a)[1..] == x[1..] + a && (x + b)[1..] == x[1..] + b;
      UpToNulBehind(x[1..], a, b);
    }
  }

  /** A literal is what writes its code point, or begins a spoiled tail. */
  lemma LiteralIsWriting(c: string)
    requires Utf16Literal(c).Some? && c[0] == '\\' && c[1] == 'u'
    ensures var (cp, n) := Utf16Literal(c).value; WritesCodePoint(c[..n], cp) || (cp == 0 && IsSpoiled(c))
  {
    var (cp, n) := Utf16Literal(c).value;
    var (h, t) := (c[2..6], c[..n]);
    assert t[..2] == "\\u" && t[2..6] == h;
    hide ParseHex4, WritesHex4;
    WrittenOrOther(h);
    if !WritesHex4(h, ParseHex4(h)) {
      var i :| 0 <= i < 4 && forall d: nat :: !IsDigitFor(h[i], d);
      OtherCharactersReadAsZero(h, i);
      assert c[2 + i] == h[i];
    } else if n == 12 {
      var low := c[8..12];
      assert t[8..] == low && t[6..8] == "\\u";
      ParsedIsWritten(low);
      PairsAreOneToOne(ParseHex4(h), ParseHex4(low), cp);
    } else {
      assert t[2..] == h;
    }
  }

  /** The first pass stops at the end of c. */
  ghost predicate Aligned(c: string, post: string) {
    ClosingQuote(c + (['"'] + post), 0) == Some(|c|)
  }

  lemma {:induction false} AlignedRest(w: Writing, rest: string, post: string)
    requires Allowed(w) && Aligned(TextOf(w) + rest, post)
    ensures Aligned(rest, post)
  {
    hide ClosingQuote, Allowed, TextOf;
    PassWriting(w, rest + (['"'] + post));
    assert (TextOf(w) + rest) + (['"'] + post) == TextOf(w) + (rest + (['"'] + post));
  }

  /** The writing at the start of a text, and what is read after it. */
  lemma FirstWriting(c: string, post: string) returns (w: Writing, rest: string)
    requires c != "" && Unescape(c).Some? && Aligned(c, post)
    ensures c == TextOf(w) + rest && |rest| < |c|
    ensures (Allowed(w) && Unescape(rest).Some? && Unescape(c).value == BytesOf(w) + Unescape(rest).value)
         || (w.Spoiled? && IsSpoiled(w.tail) && rest == "" && UpToNul(Unescape(c).value) == "")
  {
    hide Utf16Literal, EncodeUtf8;
    var t := c + (['"'] + post);
    assert t[0] == c[0];
    if c[0] != '\\' {
      w, rest := Plain(c[0]), c[1..];
    } else {
      assert |c| > 1;
      assert t[1] == c[1];
      if c[1] == 'u' {
        LiteralIsWriting(c);
        var (cp, n) := Utf16Literal(c).value;
        if WritesCodePoint(c[..n], cp) {
          w, rest := Code(c[..n], cp), c[n..];
        } else {
          w, rest := Spoiled(c), "";
          assert EncodeUtf8(0) == [NUL] by { NulByte(); }
        }
      } else {
        w, rest := Short(c[1], ShortUnescape(c[1]).value), c[2..];
      }
    }
  }

  lemma NulByte()
    ensures EncodeUtf8(0) == [NUL]
  {
  }

  lemma {:induction false} UnescapedIsWriting(c: string, post: string) returns (ws: seq<Writing>)
    requires Unescape(c).Some? && Aligned(c, post)
    ensures AllRead(ws) && c == Written(ws, "") && UpToNul(Unescape(c).value) == UpToNul(Bytes(ws))
    decreases |c|
  {
    if c == "" {
      ws := [];
    } else {
      hide Unescape, Allowed, IsSpoiled, BytesOf, TextOf, Aligned, UpToNul;
      var w, rest := FirstWriting(c, post);
      if w.Spoiled? {
        ws := [w];
        SpoiledAlone(w);
      } else {
        AlignedRest(w, rest, post);
        var more := UnescapedIsWriting(rest, post);
        ws := [w] + more;
        WritingFirst(w, more);
        UpToNulBehind(BytesOf(w), Unescape(rest).value, Bytes(more));
      }
    }
  }

  lemma {:induction false} WritingFirst(w: Writing, more: seq<Writing>)
    requires Allowed(w) && AllRead(more)
    ensures var ws := [w] + more;
      AllRead(ws) && Written(ws, "") == TextOf(w) + Written(more, "") && Bytes(ws) == BytesOf(w) + Bytes(more)
  {
    hide Allowed, TextOf, BytesOf, IsSpoiled;
    assert ([w] + more)[1..] == more;
  }

  lemma SpoiledAlone(w: Writing)
    requires w.Spoiled?
    ensures Written([w], "") == w.tail && TextOf(w) == w.tail && UpToNul(Bytes([w])) == ""
  {
    assert Bytes([w]) == [NUL] + Bytes([]) && Written([w], "") == w.tail + Written([], "");
  }

  /** A string that is accepted is written between quotes in one of the ways that are read. */
  lemma {:induction false} ReadString(t: string) returns (ws: seq<Writing>)
    requires ParseString(t).Parsed?
    ensures var r := ParseString(t); AllRead(ws) && t == Quoted(ws, r.rest) && r.value == UpToNul(Bytes(ws))
  {
    hide Unescape, UpToNul, Written, Bytes;
    var n := ClosingQuote(t, 1).value;
    var (c, post) := (t[1..n], t[n + 1..]);
    assert t == ['"'] + (c + (['"'] + post));
    ClosingQuotePrefix(['"'], c + (['"'] + post), 0);
    hide ClosingQuote;
    ws := UnescapedIsWriting(c, post);
    WrittenThen(ws, ['"'] + post);
  }

  lemma {:induction false} WrittenThen(ws: seq<Writing>, post: string)
    ensures Written(ws, post) == Written(ws, "") + post
  {
    WrittenFollowed(ws, "", post);
    hide Written;
    assert "" + post == post;
  }

  // ---------- numbers

  lemma {:induction false} RunFits(t: string, room: nat)
    ensures |NumberRun(t, room)| <= room
  {
    if room > 0 && t != "" { RunFits(t[1..], room - 1); }
  }

  lemma {:induction false} NumberParts(t: string) returns (k: nat, digits: string)
    requires ParseNumber(t).Parsed? && (t[0] == '-' || IsDigit(t[0]))
    ensures k == (if t[0] == '-' then 1 else 0) && digits != "" && AllDigits(digits) && k + |digits| <= |t| && k + |digits| <= 63
    ensures digits == t[k..k + |digits|]
    ensures var n: int := DecimalValue(digits, 0); ParseNumber(t) == Parsed(Number(if k == 1 then -n else n), t[k + |digits|..])
  {
    var run := NumberRun(t, 63);
    RunFits(t, 63);
    assert run[0] == t[0];
    hide NumberRun, DecimalValue, AllDigits;
    k := if t[0] == '-' then 1 else 0;
    digits := DigitRun(run[k..]);
    hide DigitRun;
    assert run[k..][..|digits|] == t[k..k + |digits|];
  }

  lemma DigitsAre(digits: string)
    requires AllDigits(digits) && digits != ""
    ensures AreDigits(digits) && DecimalValue(digits, 0) == Positional(digits)
  {
    assert forall i | 0 <= i < |digits| :: digits[i] in digits;
    PositionalDigits(digits, 0);
    hide Positional, DecimalValue;
  }

  lemma {:induction false} NumberTextIs(t: string, k: nat, digits: string)
    requires k <= 1 && k + |digits| <= |t| && digits == t[k..k + |digits|] && (k == 1 ==> t[0] == '-')
    ensures t == TextThen(IntegerOf(k == 1, digits), t[k + |digits|..])
  {
    var rest := t[k + |digits|..];
    assert t == t[..k] + (digits + rest);
    assert t[..k] == if k == 1 then ['-'] else [];
  }

  lemma {:induction false} ReadNumber(t: string) returns (s: Syntax)
    requires ParseNumber(t).Parsed? && (t[0] == '-' || IsDigit(t[0]))
    ensures var r := ParseNumber(t); IsRead(s) && t == TextThen(s, r.rest) && r.value == ValueOf(s) && Nesting(r.value) == 0
  {
    var k, digits := NumberParts(t);
    DigitsAre(digits);
    NumberTextIs(t, k, digits);
    hide ParseNumber, Positional, DecimalValue, AreDigits, AllDigits, IsDigit, TextThen;
    s := IntegerOf(k == 1, digits);
  }

  // ---------- one step of the parser

  lemma {:induction false} SkippedIsWhite(t: string) returns (w: string)
    ensures t == w + SkipWhitespace(t) && IsWhite(w)
  {
    hide IsSuffix;
    if |t| > 1 && t[0] <= ' ' {
      var rest := SkippedIsWhite(t[1..]);
      var x := SkipWhitespace(t[1..]);
      assert SkipWhitespace(t) == x;
      hide SkipWhitespace;
      w := [t[0]] + rest;
      assert w + x == [t[0]] + (rest + x);
    } else {
      w := "";
    }
  }

  lemma EndsAre(t: string, rest: string, close: char)
    requires IsSuffix(rest, t) && rest != ""
    ensures var next := SkipWhitespace(rest);
      AfterElement(t, rest, close) ==
      if next[0] == close then Close(next[1..])
      else if next[0] == ',' then Next.Comma(SkipWhitespace(next[1..]))
      else Neither
  {
    hide SkipWhitespace;
  }

  lemma AroundSign(rest: string) returns (after: string, gap: string)
    requires rest != ""
    ensures var next := SkipWhitespace(rest);
      IsWhite(after) && IsWhite(gap) && rest == after + next && next[1..] == gap + SkipWhitespace(next[1..]) && next == [next[0]] + next[1..]
  {
    after := SkippedIsWhite(rest);
    gap := SkippedIsWhite(SkipWhitespace(rest)[1..]);
    hide SkipWhitespace, IsWhite;
  }

  /** What stands around the sign that ends an element: the closing bracket or a comma. */
  lemma Ended(t: string, rest: string, close: char) returns (after: string, gap: string)
    requires IsSuffix(rest, t) && !AfterElement(t, rest, close).Neither?
    ensures IsWhite(after) && IsWhite(gap)
    ensures var r := AfterElement(t, rest, close);
      rest == after + if r.Close? then [close] + r.rest else [','] + (gap + r.rest)
  {
    hide SkipWhitespace, IsWhite;
    EndsAre(t, rest, close);
    hide AfterElement, IsSuffix;
    after, gap := AroundSign(rest);
  }

  // ---------- values

  /** The text is that of the tree, and its value has been read within the nesting limit. */
  ghost predicate IsTextOf(t: string, s: Syntax, depth: nat, v: Json, rest: string) {
    IsRead(s) && t == TextThen(s, rest) && v == ValueOf(s) && Nesting(v) + depth <= 1000
  }

  /** What is accepted is the text of a syntax tree with that value. */
  lemma {:induction false} ReadsOnlyTexts(t: string, depth: nat) returns (s: Syntax)
    requires ParseValue(t, depth).Parsed? && depth <= 1000
    ensures var r := ParseValue(t, depth); IsTextOf(t, s, depth, r.value, r.rest)
    decreases |t|, 2
  {
    hide ParseNumber, ParseString, ParseArray, ParseObject, TextThen, IsRead;
    if StartsWith(t, "null") || StartsWith(t, "false") || StartsWith(t, "true") {
      s := ReadLiteral(t, depth);
    } else if t[0] == '"' {
      var ws := ReadString(t);
      s := StringOf(ws);
      StringIs(ws, ParseString(t).rest);
    } else if t[0] == '-' || IsDigit(t[0]) {
      s := ReadNumber(t);
    } else if t[0] == '[' {
      s := ReadArray(t, depth);
    } else {
      s := ReadObject(t, depth);
    }
  }

  lemma {:induction false} StringIs(ws: seq<Writing>, rest: string)
    requires AllRead(ws)
    ensures var s := StringOf(ws); IsRead(s) && TextThen(s, rest) == Quoted(ws, rest) && ValueOf(s) == String(UpToNul(Bytes(ws)))
  {
  }

  lemma {:induction false} ReadLiteral(t: string, depth: nat) returns (s: Syntax)
    requires StartsWith(t, "null") || StartsWith(t, "false") || StartsWith(t, "true")
    requires depth <= 1000
    ensures var r := ParseValue(t, depth); r.Parsed? && IsTextOf(t, s, depth, r.value, r.rest)
  {
    hide ParseNumber, ParseString, ParseArray, ParseObject;
    if StartsWith(t, "null") {
      s := NullText;
      assert t == "null" + t[4..];
    } else if StartsWith(t, "false") {
      s := FalseText;
      assert t == "false" + t[5..];
    } else {
      s := TrueText;
      assert t == "true" + t[4..];
    }
  }

  // ---------- arrays

  ghost predicate AreElements(t: string, es: seq<Element>, depth: nat, vs: seq<Json>, rest: string) {
    && es != [] && (forall i | 0 <= i < |es| :: IsWhite(es[i].before) && IsRead(es[i].value) && IsWhite(es[i].after))
    && t == ElementsThen(es, [']'] + rest) && vs == ItemsOf(es) && NestingOfItems(vs) + depth <= 1000
  }

  lemma {:induction false} ReadItems(t: string, depth: nat, before: string) returns (es: seq<Element>)
    requires ParseItems(t, depth).Parsed? && depth <= 1000 && IsWhite(before)
    ensures var r := ParseItems(t, depth); AreElements(before + t, es, depth, r.value, r.rest)
    decreases |t|, 3
  {
    hide AreElements, IsTextOf, ParseValue, AfterElement, IsWhite;
    var v := ParseValue(t, depth);
    var s := ReadsOnlyTexts(t, depth);
    var after, gap := Ended(t, v.rest, ']');
    var next := AfterElement(t, v.rest, ']');
    hide IsSuffix;
    if next.Close? {
      es := [Element(before, s, after)];
      LastElement(t, s, depth, v.value, v.rest, before, after, next.rest);
    } else {
      var more := ReadItems(next.rest, depth, gap);
      var r := ParseItems(next.rest, depth);
      es := [Element(before, s, after)] + more;
      MoreElements(t, s, depth, v.value, v.rest, before, after, gap + next.rest, more, r.value, r.rest);
    }
  }

  lemma {:induction false} LastElement(
    t: string, s: Syntax, depth: nat, v: Json, rest: string, before: string, after: string, end: string)
    requires IsTextOf(t, s, depth, v, rest) && IsWhite(before) && IsWhite(after) && rest == after + ([']'] + end)
    ensures AreElements(before + t, [Element(before, s, after)], depth, [v], end)
  {
    hide TextThen, IsRead, IsWhite, ValueOf;
    var es := [Element(before, s, after)];
    assert es[1..] == [] && ItemsOf([]) == [];
    assert NestingOfItems([v]) == Max(Nesting(v), NestingOfItems([v][1..]));
  }

  lemma {:induction false} MoreElements(
    t: string, s: Syntax, depth: nat, v: Json, rest: string, before: string, after: string,
    next: string, more: seq<Element>, vs: seq<Json>, end: string)
    requires IsTextOf(t, s, depth, v, rest) && IsWhite(before) && IsWhite(after) && rest == after + ([','] + next)
    requires AreElements(next, more, depth, vs, end)
    ensures AreElements(before + t, [Element(before, s, after)] + more, depth, [v] + vs, end)
  {
    hide TextThen, IsRead, IsWhite, ValueOf;
    var es := [Element(before, s, after)] + more;
    assert es[1..] == more && ([v] + vs)[1..] == vs;
    assert forall i | 1 <= i < |es| :: es[i] == more[i - 1];
  }

  lemma AfterStart(t: string) returns (gap: string)
    requires t != ""
    ensures var first := SkipWhitespace(t[1..]); t == [t[0]] + (gap + first) && IsWhite(gap) && |first| < |t|
  {
    hide IsSuffix;
    gap := SkippedIsWhite(t[1..]);
    hide SkipWhitespace, IsWhite;
    assert t == [t[0]] + t[1..];
  }

  lemma ArrayParts(t: string, depth: nat)
    requires t != "" && t[0] == '[' && ParseArray(t, depth).Parsed?
    ensures var (first, r) := (SkipWhitespace(t[1..]), ParseArray(t, depth));
      && first != "" && depth < 1000
      && if first[0] == ']' then r == Parsed(Array([]), first[1..]) && first == [']'] + r.rest
         else
           var items := ParseItems(first, depth + 1);
           items.Parsed? && r == Parsed(Array(items.value), items.rest)
  {
    hide IsSuffix, SkipWhitespace, ParseItems;
  }

  lemma {:induction false} ReadArray(t: string, depth: nat) returns (s: Syntax)
    requires t != "" && t[0] == '[' && ParseArray(t, depth).Parsed? && depth <= 1000
    ensures var r := ParseArray(t, depth); IsTextOf(t, s, depth, r.value, r.rest)
    decreases |t|, 1
  {
    hide SkipWhitespace, IsWhite, ParseItems, IsTextOf, AreElements, IsSuffix;
    var gap := AfterStart(t);
    var first := SkipWhitespace(t[1..]);
    ArrayParts(t, depth);
    hide ParseArray;
    if first[0] == ']' {
      s := ArrayOf(gap, []);
      EmptyArray(gap, depth, first[1..]);
    } else {
      var es := ReadItems(first, depth + 1, gap);
      s := ArrayOf("", es);
      var r := ParseItems(first, depth + 1);
      SomeArray(gap + first, es, depth, r.value, r.rest);
    }
  }

  lemma {:induction false} EmptyArray(gap: string, depth: nat, rest: string)
    requires IsWhite(gap) && depth < 1000
    ensures IsTextOf(['['] + (gap + ([']'] + rest)), ArrayOf(gap, []), depth, Array([]), rest)
  {
  }

  lemma {:induction false} SomeArray(t: string, es: seq<Element>, depth: nat, vs: seq<Json>, rest: string)
    requires AreElements(t, es, depth + 1, vs, rest)
    ensures IsTextOf(['['] + t, ArrayOf("", es), depth, Array(vs), rest)
  {
    hide ElementsThen, ItemsOf, NestingOfItems;
  }

  // ---------- objects

  ghost predicate IsEntry(e: Entry) {
    && IsWhite(e.before) && AllRead(e.key) && IsWhite(e.afterKey)
    && IsWhite(e.beforeValue) && IsRead(e.value) && IsWhite(e.after)
  }

  ghost predicate AreEntries(t: string, es: seq<Entry>, depth: nat, ms: seq<Member<Json>>, rest: string) {
    && es != [] && (forall i | 0 <= i < |es| :: IsEntry(es[i]))
    && t == EntriesThen(es, ['}'] + rest) && ms == MembersOf(es) && NestingOfMembers(ms) + depth <= 1000
  }

  /** One member, with the white space around it. */
  ghost predicate IsMember(t: string, e: Entry, depth: nat, m: Member<Json>, rest: string) {
    IsEntry(e) && t == EntryThen(e, rest) && m == MemberOf(e) && Nesting(m.value) + depth <= 1000
  }

  lemma MemberSteps(t: string, depth: nat) returns (colon: string, text: string)
    requires ParseMember(t, depth).Parsed?
    ensures ParseString(t).Parsed? && colon == SkipWhitespace(ParseString(t).rest)
    ensures colon != "" && colon[0] == ':' && text == SkipWhitespace(colon[1..]) && |text| < |t|
    ensures var v := ParseValue(text, depth);
      v.Parsed? && ParseMember(t, depth) == Parsed(Member(ParseString(t).value, v.value), v.rest)
  {
    hide ParseString, ParseValue;
    colon := SkipWhitespace(ParseString(t).rest);
    text := SkipWhitespace(colon[1..]);
    hide SkipWhitespace;
  }

  lemma AroundColon(rest: string) returns (afterKey: string, beforeValue: string)
    requires var colon := SkipWhitespace(rest); colon != "" && colon[0] == ':'
    ensures IsWhite(afterKey) && IsWhite(beforeValue)
    ensures rest == afterKey + ([':'] + (beforeValue + SkipWhitespace(SkipWhitespace(rest)[1..])))
  {
    var colon := SkipWhitespace(rest);
    afterKey := SkippedIsWhite(rest);
    beforeValue := SkippedIsWhite(colon[1..]);
    hide SkipWhitespace, IsWhite;
    assert colon == [':'] + colon[1..];
  }

  /** A member that is accepted: its key, the colon within white space, and the text of its value. */
  lemma {:induction false} MemberParts(t: string, depth: nat) returns (ws: seq<Writing>, afterKey: string, beforeValue: string, text: string)
    requires ParseMember(t, depth).Parsed?
    ensures AllRead(ws) && IsWhite(afterKey) && IsWhite(beforeValue)
    ensures |text| < |t| && t == Quoted(ws, afterKey + ([':'] + (beforeValue + text)))
    ensures var v := ParseValue(text, depth);
      v.Parsed? && ParseMember(t, depth) == Parsed(Member(UpToNul(Bytes(ws)), v.value), v.rest)
  {
    var colon;
    colon, text := MemberSteps(t, depth);
    hide ParseMember, ParseValue, ParseString, IsWhite, Quoted, Bytes, UpToNul, AllRead;
    ws := ReadString(t);
    afterKey, beforeValue := AroundColon(ParseString(t).rest);
    hide SkipWhitespace;
  }

  lemma {:induction false} ReadMember(t: string, depth: nat) returns (e: Entry)
    requires ParseMember(t, depth).Parsed? && depth <= 1000
    ensures var r := ParseMember(t, depth); IsMember(t, e, depth, r.value, r.rest) && e.before == "" && e.after == ""
    decreases |t|, 3
  {
    hide ParseMember, ParseValue, IsSuffix, IsTextOf, Quoted, Bytes, UpToNul, AllRead, IsWhite, IsMember;
    var ws, afterKey, beforeValue, text := MemberParts(t, depth);
    var value := ReadsOnlyTexts(text, depth);
    e := Entry("", ws, afterKey, beforeValue, value, "");
    var r := ParseValue(text, depth);
    MemberIs(text, e, depth, r.value, r.rest);
  }

  lemma {:induction false} MemberIs(text: string, e: Entry, depth: nat, v: Json, rest: string)
    requires IsTextOf(text, e.value, depth, v, rest)
    requires e.before == "" && e.after == "" && AllRead(e.key) && IsWhite(e.afterKey) && IsWhite(e.beforeValue)
    ensures IsMember(Quoted(e.key, e.afterKey + ([':'] + (e.beforeValue + text))), e, depth, Member(UpToNul(Bytes(e.key)), v), rest)
  {
    hide TextThen, Quoted, Bytes, UpToNul, AllRead, IsRead, ValueOf;
  }

  lemma {:induction false} ReadMembers(t: string, depth: nat, before: string) returns (es: seq<Entry>)
    requires ParseMembers(t, depth).Parsed? && depth <= 1000 && IsWhite(before)
    ensures var r := ParseMembers(t, depth); AreEntries(before + t, es, depth, r.value, r.rest)
    decreases |t|, 4
  {
    hide AreEntries, IsMember, ParseMember, AfterElement, IsWhite;
    var m := ParseMember(t, depth);
    var e := ReadMember(t, depth);
    var after, gap := Ended(t, m.rest, '}');
    var next := AfterElement(t, m.rest, '}');
    hide IsSuffix;
    var whole := e.(before := before, after := after);
    if next.Close? {
      es := [whole];
      LastEntry(t, e, depth, m.value, m.rest, before, after, next.rest);
    } else {
      var more := ReadMembers(next.rest, depth, gap);
      var r := ParseMembers(next.rest, depth);
      es := [whole] + more;
      MoreEntries(t, e, depth, m.value, m.rest, before, after, gap + next.rest, more, r.value, r.rest);
    }
  }

  lemma {:induction false} LastEntry(
    t: string, e: Entry, depth: nat, m: Member<Json>, rest: string, before: string, after: string, end: string)
    requires IsMember(t, e, depth, m, rest) && IsWhite(before) && IsWhite(after) && rest == after + (['}'] + end)
    ensures AreEntries(before + t, [e.(before := before, after := after)], depth, [m], end)
  {
    hide TextThen, Quoted, Bytes, UpToNul, AllRead, IsRead, IsWhite, ValueOf;
    var es := [e.(before := before, after := after)];
    assert es[1..] == [] && MembersOf([]) == [];
    assert NestingOfMembers([m]) == Max(Nesting(m.value), NestingOfMembers([m][1..]));
  }

  lemma {:induction false} MoreEntries(
    t: string, e: Entry, depth: nat, m: Member<Json>, rest: string, before: string, after: string,
    next: string, more: seq<Entry>, ms: seq<Member<Json>>, end: string)
    requires IsMember(t, e, depth, m, rest) && IsWhite(before) && IsWhite(after) && rest == after + ([','] + next)
    requires AreEntries(next, more, depth, ms, end)
    ensures AreEntries(before + t, [e.(before := before, after := after)] + more, depth, [m] + ms, end)
  {
    hide TextThen, Quoted, Bytes, UpToNul, AllRead, IsRead, IsWhite, ValueOf;
    var es := [e.(before := before, after := after)] + more;
    assert es[1..] == more && ([m] + ms)[1..] == ms;
    assert forall i | 1 <= i < |es| :: es[i] == more[i - 1];
  }

  lemma ObjectParts(t: string, depth: nat)
    requires t != "" && t[0] == '{' && ParseObject(t, depth).Parsed?
    ensures var (first, r) := (SkipWhitespace(t[1..]), ParseObject(t, depth));
      && first != "" && depth < 1000
      && if first[0] == '}' then r == Parsed(Object([]), first[1..]) && first == ['}'] + r.rest
         else
           var ms := ParseMembers(first, depth + 1);
           ms.Parsed? && r == Parsed(Object(ms.value), ms.rest)
  {
    hide IsSuffix, SkipWhitespace, ParseMembers;
  }

  lemma {:induction false} ReadObject(t: string, depth: nat) returns (s: Syntax)
    requires t != "" && t[0] == '{' && ParseObject(t, depth).Parsed? && depth <= 1000
    ensures var r := ParseObject(t, depth); IsTextOf(t, s, depth, r.value, r.rest)
    decreases |t|, 1
  {
    hide SkipWhitespace, IsWhite, ParseMembers, IsTextOf, AreEntries, IsSuffix;
    var gap := AfterStart(t);
    var first := SkipWhitespace(t[1..]);
    ObjectParts(t, depth);
    hide ParseObject;
    if first[0] == '}' {
      s := ObjectOf(gap, []);
      EmptyObject(gap, depth, first[1..]);
    } else {
      var es := ReadMembers(first, depth + 1, gap);
      s := ObjectOf("", es);
      var r := ParseMembers(first, depth + 1);
      SomeObject(gap + first, es, depth, r.value, r.rest);
    }
  }

  lemma {:induction false} EmptyObject(gap: string, depth: nat, rest: string)
    requires IsWhite(gap) && depth < 1000
    ensures IsTextOf(['{'] + (gap + (['}'] + rest)), ObjectOf(gap, []), depth, Object([]), rest)
  {
  }

  lemma {:induction false} SomeObject(t: string, es: seq<Entry>, depth: nat, ms: seq<Member<Json>>, rest: string)
    requires AreEntries(t, es, depth + 1, ms, rest)
    ensures IsTextOf(['{'] + t, ObjectOf("", es), depth, Object(ms), rest)
  {
    hide EntriesThen, MembersOf, NestingOfMembers;
  }

  // ---------- whole documents

  lemma {:induction false} LastChar(s: Syntax)
    requires IsRead(s)
    ensures var t := Text(s); t != "" && t[|t| - 1] != NUL
  {
    match s {
      case StringOf(ws) =>
        WrittenThen(ws, ['"']);
        assert ['"'] + [] == ['"'];
      case ArrayOf(inside, es) =>
        if es != [] { ElementsFollowed(es, "", [']']); }
        assert "" + [']'] == [']'] + "" == [']'];
      case ObjectOf(inside, es) =>
        if es != [] { EntriesFollowed(es, "", ['}']); }
        assert "" + ['}'] == ['}'] + "" == ['}'];
      case _ =>
    }
  }

  lemma MarkSplit(t: string) returns (mark: bool)
    ensures t == Mark(mark) + SkipByteOrderMark(t)
  {
    mark := |t| > 4 && t[0] == 0xEF as char && t[1] == 0xBB as char && t[2] == 0xBF as char;
    if mark { assert t[..3] == BYTE_ORDER_MARK; }
  }

  lemma UpToTheEnd(start: string, x: string, rest: string, text: string) returns (behind: string)
    requires text + [NUL] == start + (x + rest) && x != "" && x[|x| - 1] != NUL
    ensures rest == behind + [NUL] && text == start + (x + behind)
  {
    var whole := start + (x + rest);
    var tail := x + rest;
    assert tail[|tail| - 1] == whole[|whole| - 1] == (text + [NUL])[|text|] == NUL;
    assert rest == "" ==> tail == x;
    behind := rest[..|rest| - 1];
    assert rest[|rest| - 1] == tail[|tail| - 1];
    assert text == whole[..|whole| - 1];
  }

  lemma {:induction false} OnlyWhiteBehind(behind: string)
    requires NulFree(behind) && SkipWhitespace(behind + [NUL])[0] == NUL
    ensures IsWhite(behind)
  {
    var w := SkippedIsWhite(behind + [NUL]);
    var end := SkipWhitespace(behind + [NUL]);
    hide SkipWhitespace;
    assert (w + end)[|w|] == NUL;
    assert forall i | 0 <= i < |behind| :: (behind + [NUL])[i] == behind[i] && behind[i] in behind;
    assert forall i | 0 <= i < |behind| :: behind[i] == (behind + [NUL])[i] == w[i];
  }

  /**
   cJSON_ParseWithOpts accepts nothing else: a byte order mark, white space, the text of a tree nested at most 1000
   deep, and, if the end of the text is required, only white space behind it.
   */
  lemma {:induction false} ParsesOnlyDocuments(text: string, requireNul: bool)
    returns (mark: bool, before: string, s: Syntax, behind: string)
    requires NulFree(text) && Parse(text, requireNul).Some?
    ensures text == Mark(mark) + (before + (Text(s) + behind)) && IsWhite(before) && IsRead(s)
    ensures Parse(text, requireNul) == Some(ValueOf(s)) && Nesting(ValueOf(s)) <= 1000
    ensures requireNul ==> IsWhite(behind)
  {
    hide ParseValue, TextThen, ValueOf, Nesting, IsRead, Mark, BYTE_ORDER_MARK, SkipByteOrderMark, IsWhite;
    var whole := text + [NUL];
    var u := SkipByteOrderMark(whole);
    mark := MarkSplit(whole);
    before := SkippedIsWhite(u);
    var t := SkipWhitespace(u);
    hide SkipWhitespace;
    s := ReadsOnlyTexts(t, 0);
    var rest := ParseValue(t, 0).rest;
    TextFollowed(s, "", rest);
    LastChar(s);
    var x := Text(s);
    hide Text;
    assert "" + rest == rest;
    assert whole == (Mark(mark) + before) + (x + rest);
    behind := UpToTheEnd(Mark(mark) + before, x, rest, text);
    assert (Mark(mark) + before) + (x + behind) == Mark(mark) + (before + (x + behind));
    if requireNul {
      assert forall c | c in behind :: c in text;
      OnlyWhiteBehind(behind);
    }
  }
}
