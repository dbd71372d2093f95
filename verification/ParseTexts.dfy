/** The parser reads every JSON text of RFC 8259 whose numbers are integers, up to the nesting limit, with its value. */
module ParseTexts {
  import opened CStrings
  import opened JsonTree
  import opened Numbers
  import opened Parsing
  import opened StringTexts
  import opened JsonTexts

  // ---------- numbers

  lemma {:induction false} PositionalDigits(s: string, before: nat)
    requires forall i | 0 <= i < |s| :: '0' <= s[i] <= '9'
    ensures AllDigits(s) && Positional(s) >= 0
    ensures DecimalValue(s, 0) == Positional(s)
  {
    if s != "" {
      var init := s[..|s| - 1];
      PositionalDigits(init, before);
      assert s == init + [s[|s| - 1]];
      DecimalValueAppend(init, s[|s| - 1], 0);
    }
  }

  lemma {:induction false} NumberRunOf(s: string, post: string, room: nat)
    requires |s| <= room && forall i | 0 <= i < |s| :: IsNumberChar(s[i])
    requires post != "" && !IsNumberChar(post[0])
    ensures NumberRun(s + post, room) == s
  {
    if s == "" {
      assert s + post == post;
    } else {
      assert (s + post)[1..] == s[1..] + post;
      NumberRunOf(s[1..], post, room - 1);
      assert s == [s[0]] + s[1..];
    }
  }

  lemma {:induction false} DigitRunOf(s: string)
    requires AllDigits(s)
    ensures DigitRun(s) == s
  {
    if s != "" {
      assert s[0] in s;
      DigitRunOf(s[1..]);
      assert s == [s[0]] + s[1..];
    }
  }

  function Signed(sign: string, n: int): int {
    if sign == "-" then -n else n
  }

  lemma DigitFacts(digits: string)
    requires AreDigits(digits)
    ensures AllDigits(digits) && DigitRun(digits) == digits && DecimalValue(digits, 0) == Positional(digits)
    ensures digits != "" && digits[0] != '-' && digits[0] != '+'
  {
    PositionalDigits(digits, 0);
    DigitRunOf(digits);
    hide DigitRun, Positional, DecimalValue;
  }

  lemma ReadUnsigned(digits: string)
    requires AreDigits(digits)
    ensures ReadInteger(digits) == Some((Positional(digits), |digits|))
  {
    hide DigitRun, Positional, DecimalValue, AllDigits, AreDigits;
    DigitFacts(digits);
    assert digits[0..] == digits;
  }

  lemma ReadSigned(c: char, digits: string)
    requires AreDigits(digits) && (c == '-' || c == '+')
    ensures ReadInteger([c] + digits) == Some((if c == '-' then -Positional(digits) else Positional(digits), 1 + |digits|))
  {
    hide DigitRun, Positional, DecimalValue, AllDigits, AreDigits;
    DigitFacts(digits);
    var s := [c] + digits;
    assert s[0] == c && s[1..] == digits;
  }

  lemma NumberOfRun(sign: string, digits: string)
    requires sign == "" || sign == "-" || sign == "+"
    requires AreDigits(digits)
    ensures ReadInteger(sign + digits) == Some((Signed(sign, Positional(digits)), |sign| + |digits|))
  {
    hide AreDigits, ReadInteger, Positional;
    if sign == "" {
      assert sign + digits == digits;
      ReadUnsigned(digits);
    } else {
      assert sign == [sign[0]];
      ReadSigned(sign[0], digits);
    }
  }

  lemma NumberChars(sign: string, digits: string)
    requires sign == "" || sign == "-" || sign == "+"
    requires AreDigits(digits)
    ensures forall i | 0 <= i < |sign + digits| :: IsNumberChar((sign + digits)[i])
  {
  }

  /** A sign is read even where the grammar of numbers has none: '+' is for strtod to take. */
  lemma ReadsAnyInteger(sign: string, digits: string, post: string)
    requires sign == "" || sign == "-" || sign == "+"
    requires AreDigits(digits) && |sign| + |digits| <= 63 && post != "" && !IsNumberChar(post[0])
    ensures ParseNumber(sign + (digits + post)) == Parsed(Number(Signed(sign, Positional(digits))), post)
  {
    hide NumberRun, ReadInteger, Positional, Signed, IsNumberChar, AreDigits;
    var s := sign + digits;
    NumberChars(sign, digits);
    NumberOfRun(sign, digits);
    NumberRunOf(s, post, 63);
    SignedText(sign, digits, post);
  }

  lemma SignedText(sign: string, digits: string, post: string)
    ensures sign + (digits + post) == (sign + digits) + post
    ensures ((sign + digits) + post)[|sign| + |digits|..] == post
  {
  }

  // ---------- white space

  ghost predicate Follows(post: string) {
    post != "" && !IsNumberChar(post[0])
  }

  lemma {:induction false} SkipWhite(w: string, x: string)
    requires IsWhite(w) && x != "" && x[0] > ' '
    ensures SkipWhitespace(w + x) == x
  {
    if w == "" {
      assert w + x == x;
    } else {
      assert (w + x)[1..] == w[1..] + x;
      SkipWhite(w[1..], x);
    }
  }

  lemma {:induction false} FirstChar(s: Syntax, post: string)
    requires Accepted(s)
    ensures var t := TextThen(s, post); t != "" && t[0] > ' ' && t[0] != ']' && t[0] != '}' && t[0] < 0x80 as char
  {
    hide ElementsThen, EntriesThen, Written;
  }

  lemma WhiteThen(w: string, c: char, rest: string)
    requires IsWhite(w) && !IsNumberChar(c)
    ensures Follows(w + ([c] + rest))
  {
    assert w != "" ==> w[0] <= ' ';
  }

  // ---------- one step of the parser

  lemma ParseValueArray(body: string, depth: nat)
    requires body != ""
    ensures var first := SkipWhitespace(body);
      ParseValue(['['] + body, depth) ==
      if depth >= NESTING_LIMIT then Failed
      else if first[0] == ']' then Parsed(Array([]), first[1..])
      else match ParseItems(first, depth + 1)
           case Failed => Failed
           case Parsed(items, rest) => Parsed(Array(items), rest)
  {
    hide SkipWhitespace, ParseItems, ParseString, ParseNumber, ParseObject;
    var t := ['['] + body;
    assert t[0] == '[' && t[1..] == body;
    assert ParseValue(t, depth) == ParseArray(t, depth);
    hide ParseValue;
  }

  lemma ParseValueObject(body: string, depth: nat)
    requires body != ""
    ensures var first := SkipWhitespace(body);
      ParseValue(['{'] + body, depth) ==
      if depth >= NESTING_LIMIT then Failed
      else if first[0] == '}' then Parsed(Object([]), first[1..])
      else match ParseMembers(first, depth + 1)
           case Failed => Failed
           case Parsed(ms, rest) => Parsed(Object(ms), rest)
  {
    hide SkipWhitespace, ParseMembers, ParseString, ParseNumber, ParseArray;
    var t := ['{'] + body;
    assert t[0] == '{' && t[1..] == body;
    assert ParseValue(t, depth) == ParseObject(t, depth);
    hide ParseValue;
  }

  /** After white space, the closing bracket ends the list and a comma leads to the next element. */
  lemma ElementEnds(t: string, white: string, close: char, end: string)
    requires IsSuffix(white + ([close] + end), t) && IsWhite(white) && close > ' '
    ensures AfterElement(t, white + ([close] + end), close) == Close(end)
  {
    SkipWhite(white, [close] + end);
  }

  lemma ElementContinues(t: string, white: string, close: char, more: string)
    requires IsSuffix(white + ([','] + more), t) && IsWhite(white) && close != ','
    ensures AfterElement(t, white + ([','] + more), close) == Next.Comma(SkipWhitespace(more))
  {
    SkipWhite(white, [','] + more);
    assert ([','] + more)[1..] == more;
  }

  lemma ItemsEnd(t: string, depth: nat, v: Json, white: string, post: string)
    requires ParseValue(t, depth) == Parsed(v, white + ([']'] + post)) && IsWhite(white)
    ensures ParseItems(t, depth) == Parsed([v], post)
  {
    hide ParseValue, AfterElement;
    ElementEnds(t, white, ']', post);
  }

  lemma ItemsGoOn(t: string, depth: nat, v: Json, white: string, more: string)
    requires ParseValue(t, depth) == Parsed(v, white + ([','] + more)) && IsWhite(white)
    ensures ParseItems(t, depth) ==
      match ParseItems(SkipWhitespace(more), depth)
      case Failed => Failed
      case Parsed(vs, end) => Parsed([v] + vs, end)
  {
    hide ParseValue, AfterElement, SkipWhitespace;
    ElementContinues(t, white, ']', more);
  }

  lemma {:induction false} MembersEnd(t: string, depth: nat, m: Member<Json>, white: string, post: string)
    requires ParseMember(t, depth) == Parsed(m, white + (['}'] + post)) && IsWhite(white)
    ensures ParseMembers(t, depth) == Parsed([m], post)
  {
    hide ParseMember, AfterElement;
    ElementEnds(t, white, '}', post);
  }

  lemma {:induction false} MembersGoOn(t: string, depth: nat, m: Member<Json>, white: string, more: string)
    requires ParseMember(t, depth) == Parsed(m, white + ([','] + more)) && IsWhite(white)
    ensures ParseMembers(t, depth) ==
      match ParseMembers(SkipWhitespace(more), depth)
      case Failed => Failed
      case Parsed(ms, end) => Parsed([m] + ms, end)
  {
    hide ParseMember, AfterElement, SkipWhitespace;
    ElementContinues(t, white, '}', more);
  }

  lemma KeyThenValue(t: string, depth: nat, key: string, white: string, rest: string)
    requires ParseString(t) == Parsed(key, white + ([':'] + rest)) && IsWhite(white)
    ensures ParseMember(t, depth) ==
      match ParseValue(SkipWhitespace(rest), depth)
      case Failed => Failed
      case Parsed(v, end) => Parsed(Member(key, v), end)
  {
    var colon := [':'] + rest;
    SkipWhite(white, colon);
    assert colon[1..] == rest;
    hide ParseString, ParseValue, SkipWhitespace, IsSuffix;
  }

  // ---------- values

  /** Reading a text: exactly those within the nesting limit are accepted. */
  ghost predicate Reads(s: Syntax, depth: nat, post: string) {
    ParseValue(TextThen(s, post), depth) ==
    if Nesting(ValueOf(s)) + depth <= 1000 then Parsed(ValueOf(s), post) else Failed
  }

  lemma {:induction false} ReadsAnyText(s: Syntax, depth: nat, post: string)
    requires Accepted(s) && depth <= 1000 && Follows(post)
    ensures Reads(s, depth, post)
    decreases s, 0
  {
    match s
    case ArrayOf(inside, es) => ReadsArray(inside, es, depth, post);
    case ObjectOf(inside, es) => ReadsObject(inside, es, depth, post);
    case _ => ReadsScalar(s, depth, post);
  }

  lemma ReadsLiterals(post: string, depth: nat)
    ensures ParseValue("null" + post, depth) == Parsed(Null, post)
    ensures ParseValue("false" + post, depth) == Parsed(False, post)
    ensures ParseValue("true" + post, depth) == Parsed(True, post)
  {
    var (n, f, t) := ("null" + post, "false" + post, "true" + post);
    assert n[..4] == "null" && n[4..] == post;
    assert f[0] == 'f' && f[..5] == "false" && f[5..] == post;
    assert t[0] == 't' && t[..4] == "true" && t[4..] == post;
  }

  lemma StartsNumber(t: string, depth: nat)
    requires t != "" && (t[0] == '-' || '0' <= t[0] <= '9')
    ensures ParseValue(t, depth) == ParseNumber(t)
  {
    hide ParseNumber, ParseString, ParseArray, ParseObject;
    assert !StartsWith(t, "null") && !StartsWith(t, "false") && !StartsWith(t, "true") by {
      assert "null"[0] == 'n' && "false"[0] == 'f' && "true"[0] == 't';
    }
  }

  lemma {:induction false} NumberText(negative: bool, digits: string, post: string)
    requires AreDigits(digits)
    ensures var t := TextThen(IntegerOf(negative, digits), post);
      t == (if negative then "-" else "") + (digits + post) && t != "" && (t[0] == '-' || '0' <= t[0] <= '9')
  {
    assert ['-'] == "-";
  }

  lemma {:induction false} ReadsNumber(negative: bool, digits: string, depth: nat, post: string)
    requires Accepted(IntegerOf(negative, digits)) && Follows(post) && depth <= 1000
    ensures Reads(IntegerOf(negative, digits), depth, post)
  {
    NumberText(negative, digits, post);
    ReadsAnyInteger(if negative then "-" else "", digits, post);
    StartsNumber(TextThen(IntegerOf(negative, digits), post), depth);
    hide ParseNumber, Positional, TextThen, ParseValue;
  }

  lemma {:induction false} ReadsString(ws: seq<Writing>, depth: nat, post: string)
    requires AllAllowed(ws) && depth <= 1000
    ensures Reads(StringOf(ws), depth, post)
  {
    ReadsAnyWriting(ws, post);
    hide ParseString, Written, Bytes, UpToNul;
    var t := Quoted(ws, post);
    assert t[0] == '"';
  }

  lemma {:induction false} ReadsScalar(s: Syntax, depth: nat, post: string)
    requires Accepted(s) && depth <= 1000 && Follows(post) && !s.ArrayOf? && !s.ObjectOf?
    ensures Reads(s, depth, post)
  {
    hide ParseValue, Follows;
    match s {
      case IntegerOf(negative, digits) => ReadsNumber(negative, digits, depth, post);
      case StringOf(ws) => ReadsString(ws, depth, post);
      case _ => ReadsLiterals(post, depth);
    }
  }

  lemma {:induction false} ArrayFacts(inside: string, es: seq<Element>, post: string)
    requires Accepted(ArrayOf(inside, es))
    ensures var s := ArrayOf(inside, es);
      && IsWhite(inside) && Accepted(ArrayOf("", es)) && ValueOf(s) == Array(ItemsOf(es))
      && Nesting(ValueOf(s)) == 1 + NestingOfItems(ItemsOf(es))
      && TextThen(s, post) == ['['] + if es == [] then inside + ([']'] + post) else ElementsThen(es, [']'] + post)
    ensures es != [] ==> IsWhite(es[0].before) && Accepted(es[0].value) && IsWhite(es[0].after)
    ensures es == [] ==> ItemsOf(es) == [] && NestingOfItems(ItemsOf(es)) == 0
  {
  }

  lemma {:induction false} ReadsArray(inside: string, es: seq<Element>, depth: nat, post: string)
    requires Accepted(ArrayOf(inside, es)) && depth <= 1000 && Follows(post)
    ensures Reads(ArrayOf(inside, es), depth, post)
    decreases es, 2
  {
    hide ParseValue, ParseItems, ElementsThen, TextThen, ValueOf, Nesting, NestingOfItems, ItemsOf, Accepted, IsWhite;
    ArrayFacts(inside, es, post);
    if es == [] {
      SkipWhite(inside, [']'] + post);
      ParseValueArray(inside + ([']'] + post), depth);
    } else {
      var body := ElementsThen(es, [']'] + post);
      SkipToElement(es, [']'] + post);
      hide SkipWhitespace;
      ParseValueArray(body, depth);
      if depth < 1000 { ReadsElements(es, depth + 1, post); }
    }
  }

  /** What follows the value of the first element. */
  function AfterFirst(es: seq<Element>, end: string): string
    requires es != []
  {
    es[0].after + if |es| == 1 then end else [','] + ElementsThen(es[1..], end)
  }

  lemma {:induction false} SkipToElement(es: seq<Element>, end: string)
    requires es != [] && IsWhite(es[0].before) && Accepted(es[0].value)
    ensures var t := TextThen(es[0].value, AfterFirst(es, end));
      ElementsThen(es, end) != "" && SkipWhitespace(ElementsThen(es, end)) == t && t != "" && t[0] != ']'
  {
    var t := TextThen(es[0].value, AfterFirst(es, end));
    assert ElementsThen(es, end) == es[0].before + t;
    hide ElementsThen, TextThen;
    FirstChar(es[0].value, AfterFirst(es, end));
    SkipWhite(es[0].before, t);
  }

  lemma {:induction false} ElementsFacts(es: seq<Element>)
    requires es != [] && Accepted(ArrayOf("", es))
    ensures var (e, rest) := (es[0], es[1..]);
      && IsWhite(e.before) && Accepted(e.value) && IsWhite(e.after) && Accepted(ArrayOf("", rest))
      && ItemsOf(es) == [ValueOf(e.value)] + ItemsOf(rest) && (|es| == 1 ==> ItemsOf(es) == [ValueOf(e.value)])
      && NestingOfItems(ItemsOf(es)) == Max(Nesting(ValueOf(e.value)), NestingOfItems(ItemsOf(rest)))
      && (|es| == 1 ==> NestingOfItems(ItemsOf(es)) == Nesting(ValueOf(e.value)))
  {
    assert ItemsOf(es)[1..] == ItemsOf(es[1..]);
    assert |es| == 1 ==> ItemsOf(es[1..]) == [];
  }

  lemma {:induction false} TailFollows(es: seq<Element>, post: string)
    requires es != [] && IsWhite(es[0].after)
    ensures Follows(AfterFirst(es, [']'] + post))
  {
    hide ElementsThen;
    if |es| == 1 { WhiteThen(es[0].after, ']', post); } else { WhiteThen(es[0].after, ',', ElementsThen(es[1..], [']'] + post)); }
  }

  lemma {:induction false} ReadsElements(es: seq<Element>, depth: nat, post: string)
    requires es != [] && Accepted(ArrayOf("", es)) && depth <= 1000 && Follows(post)
    ensures ParseItems(SkipWhitespace(ElementsThen(es, [']'] + post)), depth) ==
      if NestingOfItems(ItemsOf(es)) + depth <= 1000 then Parsed(ItemsOf(es), post) else Failed
    decreases es, 1
  {
    hide ParseValue, SkipWhitespace, ElementsThen, TextThen, AfterElement, ItemsOf, ValueOf, Nesting, NestingOfItems, Accepted, IsWhite;
    var (e, end) := (es[0], [']'] + post);
    ElementsFacts(es);
    var (t, v) := (TextThen(e.value, AfterFirst(es, end)), ValueOf(e.value));
    SkipToElement(es, end);
    TailFollows(es, post);
    hide Follows;
    ReadsAnyText(e.value, depth, AfterFirst(es, end));
    if Nesting(v) + depth > 1000 {
      assert ParseItems(t, depth).Failed?;
    } else if |es| == 1 {
      hide ParseItems;
      ItemsEnd(t, depth, v, e.after, post);
    } else {
      hide ParseItems;
      ItemsGoOn(t, depth, v, e.after, ElementsThen(es[1..], end));
      ReadsElements(es[1..], depth, post);
    }
  }

  // ---------- objects

  lemma {:induction false} ObjectFacts(inside: string, es: seq<Entry>, post: string)
    requires Accepted(ObjectOf(inside, es))
    ensures var s := ObjectOf(inside, es);
      && IsWhite(inside) && Accepted(ObjectOf("", es)) && ValueOf(s) == Object(MembersOf(es))
      && Nesting(ValueOf(s)) == 1 + NestingOfMembers(MembersOf(es))
      && TextThen(s, post) == ['{'] + if es == [] then inside + (['}'] + post) else EntriesThen(es, ['}'] + post)
    ensures es != [] ==> IsWhite(es[0].before)
    ensures es == [] ==> MembersOf(es) == [] && NestingOfMembers(MembersOf(es)) == 0
  {
    hide Bytes;
  }

  lemma {:induction false} ReadsObject(inside: string, es: seq<Entry>, depth: nat, post: string)
    requires Accepted(ObjectOf(inside, es)) && depth <= 1000 && Follows(post)
    ensures Reads(ObjectOf(inside, es), depth, post)
    decreases es, 3
  {
    hide ParseValue, ParseMembers, EntriesThen, TextThen, ValueOf, Nesting, NestingOfMembers, MembersOf, Accepted, IsWhite;
    ObjectFacts(inside, es, post);
    if es == [] {
      SkipWhite(inside, ['}'] + post);
      ParseValueObject(inside + (['}'] + post), depth);
    } else {
      var body := EntriesThen(es, ['}'] + post);
      SkipToEntry(es, ['}'] + post);
      hide SkipWhitespace;
      ParseValueObject(body, depth);
      if depth < 1000 { ReadsEntries(es, depth + 1, post); }
    }
  }

  function AfterFirstEntry(es: seq<Entry>, end: string): string
    requires es != []
  {
    es[0].after + if |es| == 1 then end else [','] + EntriesThen(es[1..], end)
  }

  /** The text of one entry, from its key on. */
  function EntryThen(e: Entry, tail: string): string {
    Quoted(e.key, e.afterKey + ([':'] + (e.beforeValue + TextThen(e.value, tail))))
  }

  lemma {:induction false} SkipToEntry(es: seq<Entry>, end: string)
    requires es != [] && IsWhite(es[0].before)
    ensures var t := EntryThen(es[0], AfterFirstEntry(es, end));
      EntriesThen(es, end) != "" && SkipWhitespace(EntriesThen(es, end)) == t && t != "" && t[0] != '}'
  {
    var t := EntryThen(es[0], AfterFirstEntry(es, end));
    assert EntriesThen(es, end) == es[0].before + t;
    assert t[0] == '"';
    hide EntriesThen, EntryThen;
    SkipWhite(es[0].before, t);
  }

  lemma {:induction false} ReadsEntry(e: Entry, depth: nat, tail: string)
    requires AllAllowed(e.key) && Accepted(e.value) && IsWhite(e.afterKey) && IsWhite(e.beforeValue)
    requires depth <= 1000 && Follows(tail)
    ensures ParseMember(EntryThen(e, tail), depth) ==
      if Nesting(ValueOf(e.value)) + depth <= 1000 then Parsed(Member(UpToNul(Bytes(e.key)), ValueOf(e.value)), tail) else Failed
    decreases e, 1
  {
    var value := TextThen(e.value, tail);
    ReadsAnyWriting(e.key, e.afterKey + ([':'] + (e.beforeValue + value)));
    hide TextThen, Quoted, ParseString, ParseValue, ParseMember, Bytes, UpToNul;
    FirstChar(e.value, tail);
    SkipWhite(e.beforeValue, value);
    hide SkipWhitespace;
    KeyThenValue(EntryThen(e, tail), depth, UpToNul(Bytes(e.key)), e.afterKey, e.beforeValue + value);
    ReadsAnyText(e.value, depth, tail);
  }

  function MemberOf(e: Entry): Member<Json> {
    Member(UpToNul(Bytes(e.key)), ValueOf(e.value))
  }

  lemma {:induction false} EntriesFacts(es: seq<Entry>)
    requires es != [] && Accepted(ObjectOf("", es))
    ensures var (e, rest) := (es[0], es[1..]);
      && IsWhite(e.before) && AllAllowed(e.key) && IsWhite(e.afterKey) && IsWhite(e.beforeValue) && Accepted(e.value) && IsWhite(e.after)
      && Accepted(ObjectOf("", rest))
      && MembersOf(es) == [MemberOf(e)] + MembersOf(rest) && (|es| == 1 ==> MembersOf(es) == [MemberOf(e)])
      && NestingOfMembers(MembersOf(es)) == Max(Nesting(ValueOf(e.value)), NestingOfMembers(MembersOf(rest)))
      && (|es| == 1 ==> NestingOfMembers(MembersOf(es)) == Nesting(ValueOf(e.value)))
  {
    hide Bytes;
    assert MembersOf(es)[1..] == MembersOf(es[1..]);
    assert |es| == 1 ==> MembersOf(es[1..]) == [];
  }

  lemma {:induction false} EntryTailFollows(es: seq<Entry>, post: string)
    requires es != [] && IsWhite(es[0].after)
    ensures Follows(AfterFirstEntry(es, ['}'] + post))
  {
    hide EntriesThen;
    if |es| == 1 { WhiteThen(es[0].after, '}', post); } else { WhiteThen(es[0].after, ',', EntriesThen(es[1..], ['}'] + post)); }
  }

  lemma {:induction false} ReadsEntries(es: seq<Entry>, depth: nat, post: string)
    requires es != [] && Accepted(ObjectOf("", es)) && depth <= 1000 && Follows(post)
    ensures ParseMembers(SkipWhitespace(EntriesThen(es, ['}'] + post)), depth) ==
      if NestingOfMembers(MembersOf(es)) + depth <= 1000 then Parsed(MembersOf(es), post) else Failed
    decreases es, 2
  {
    hide ParseMember, SkipWhitespace, EntriesThen, EntryThen, AfterElement, MembersOf, ValueOf, Nesting, NestingOfMembers, Accepted, IsWhite, AllAllowed;
    var (e, end) := (es[0], ['}'] + post);
    var t := EntryThen(e, AfterFirstEntry(es, end));
    EntriesFacts(es);
    SkipToEntry(es, end);
    EntryTailFollows(es, post);
    hide Follows;
    ReadsEntry(e, depth, AfterFirstEntry(es, end));
    if Nesting(ValueOf(e.value)) + depth > 1000 {
      assert ParseMembers(t, depth).Failed?;
    } else if |es| == 1 {
      hide ParseMembers;
      MembersEnd(t, depth, MemberOf(e), e.after, post);
    } else {
      hide ParseMembers;
      MembersGoOn(t, depth, MemberOf(e), e.after, EntriesThen(es[1..], end));
      ReadsEntries(es[1..], depth, post);
    }
  }

  // ---------- whole documents

  const BYTE_ORDER_MARK := [0xEF as char, 0xBB as char, 0xBF as char]

  lemma {:induction false} SkipToNul(w: string)
    requires IsWhite(w)
    ensures SkipWhitespace(w + [NUL]) == [NUL]
  {
    if w == "" {
      assert w + [NUL] == [NUL];
    } else {
      assert (w + [NUL])[1..] == w[1..] + [NUL];
      SkipToNul(w[1..]);
    }
  }

  /** What stands behind the value, its white space skipped. */
  lemma {:induction false} SkipBehind(after: string, junk: string)
    requires IsWhite(after) && (junk != "" ==> junk[0] > ' ')
    ensures SkipWhitespace((after + junk) + [NUL]) == junk + [NUL]
  {
    assert (after + junk) + [NUL] == after + (junk + [NUL]);
    if junk == "" {
      assert junk + [NUL] == [NUL];
      SkipToNul(after);
    } else {
      SkipWhite(after, junk + [NUL]);
    }
  }

  lemma {:induction false} MarkIsSkipped(mark: bool, before: string, t: string)
    requires IsWhite(before) && |t| > 1 && ' ' < t[0] < 0x80 as char
    ensures SkipWhitespace(SkipByteOrderMark(Mark(mark) + (before + t))) == t
  {
    var u := before + t;
    SkipWhite(before, t);
    hide SkipWhitespace;
    if mark {
      var v := BYTE_ORDER_MARK + u;
      assert v[3..] == u && v[0] == 0xEF as char && v[1] == 0xBB as char && v[2] == 0xBF as char;
    } else {
      assert "" + u == u;
      assert u[0] < 0x80 as char;
    }
  }

  function Mark(mark: bool): string {
    if mark then BYTE_ORDER_MARK else ""
  }

  lemma {:induction false} DocumentText(start: string, before: string, s: Syntax, behind: string)
    requires Accepted(s)
    ensures var t := TextThen(s, behind + [NUL]);
      (start + (before + (Text(s) + behind))) + [NUL] == start + (before + t) && |t| > 1 && ' ' < t[0] < 0x80 as char
  {
    var post := behind + [NUL];
    TextFollowed(s, "", post);
    assert "" + post == post;
    FirstChar(s, post);
    FirstChar(s, "");
    hide TextThen;
    var x := Text(s);
    assert TextThen(s, post) == x + post;
    assert (start + (before + (x + behind))) + [NUL] == start + (before + (x + (behind + [NUL])));
  }

  lemma BehindFollows(after: string, junk: string)
    requires IsWhite(after) && (junk != "" ==> !IsNumberChar(junk[0]))
    ensures Follows((after + junk) + [NUL])
  {
    assert after != "" ==> after[0] <= ' ';
  }

  /**
   cJSON_ParseWithOpts: a JSON text within white space, behind a byte order mark or not, is read exactly if it is
   nested at most 1000 deep; other characters behind it are refused only when the end of the text is required.
   */
  lemma {:induction false} ParsesAnyDocument(mark: bool, before: string, s: Syntax, after: string, junk: string, requireNul: bool)
    requires Accepted(s) && IsWhite(before) && IsWhite(after)
    requires junk != "" ==> junk[0] > ' ' && !IsNumberChar(junk[0])
    ensures Parse(Mark(mark) + (before + (Text(s) + (after + junk))), requireNul) ==
      if Nesting(ValueOf(s)) <= 1000 && (requireNul ==> junk == "") then Some(ValueOf(s)) else None
  {
    hide TextThen, ValueOf, Nesting, ParseValue, BYTE_ORDER_MARK, SkipWhitespace, SkipByteOrderMark, Text, Accepted, IsWhite, Mark;
    var behind := after + junk;
    DocumentText(Mark(mark), before, s, behind);
    MarkIsSkipped(mark, before, TextThen(s, behind + [NUL]));
    SkipBehind(after, junk);
    BehindFollows(after, junk);
    ReadsAnyText(s, 0, behind + [NUL]);
    assert (junk + [NUL])[0] == if junk == "" then NUL else junk[0];
  }
}
