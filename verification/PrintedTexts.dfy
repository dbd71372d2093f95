/** Printing chooses one of the JSON texts of RFC 8259 that stand for the tree, and parsing reads it back. */
module PrintedTexts {
  import opened CStrings
  import opened JsonTree
  import opened Numbers
  import opened Rendering
  import opened RenderedParts
  import opened Parsing
  import opened StringTexts
  import opened JsonTexts
  import opened ParseTexts

  // ---------- the layout of printed text

  /** A line break and one tab for each object and array around. */
  function NewLine(format: bool, level: nat): string {
    if format then "\n" + Tabs(level) else ""
  }

  /**
   The text that is printed.  Formatted, the elements of an array are separated by a comma and a space, every member
   of an object begins a new line, and a tab stands before its value.  Unformatted there is no white space at all.
   */
  function SyntaxOf(j: Json, format: bool, level: nat): Syntax
    decreases j, 1
  {
    match j
    case Null => NullText
    case False => FalseText
    case True => TrueText
    case Number(n) => IntegerOf(n < 0, Decimal(if n < 0 then -n else n))
    case String(s) => StringOf(WritingsOf(s))
    case Array(items) => ArrayOf("", ElementsOf(items, "", format, level))
    case Object(ms) => ObjectOf(NewLine(format, level), EntriesOf(ms, format, level))
  }

  function ElementsOf(items: seq<Json>, before: string, format: bool, level: nat): (es: seq<Element>)
    ensures |es| == |items|
    decreases items, 0
  {
    if items == [] then []
    else
      [Element(before, SyntaxOf(items[0], format, level + 1), "")]
      + ElementsOf(items[1..], if format then " " else "", format, level)
  }

  function EntriesOf(ms: seq<Member<Json>>, format: bool, level: nat): (es: seq<Entry>)
    ensures |es| == |ms|
    decreases ms, 0
  {
    if ms == [] then []
    else [EntryOf(ms[0].key, SyntaxOf(ms[0].value, format, level + 1), |ms| == 1, format, level)] + EntriesOf(ms[1..], format, level)
  }

  function EntryOf(key: string, value: Syntax, last: bool, format: bool, level: nat): Entry {
    Entry(NewLine(format, level + 1), WritingsOf(key), "", if format then "\t" else "", value, if last then NewLine(format, level) else "")
  }

  // ---------- printing writes that text

  lemma {:induction false} SyntaxText(j: Json, format: bool, level: nat, post: string)
    ensures TextThen(SyntaxOf(j, format, level), post) == ValueThen(j, format, level, post)
    decreases j, 1
  {
    match j {
      case Number(n) => IntegerSyntaxText(n, post);
      case String(s) => PrintedIsWriting(s, post);
      case Array(items) => ArraySyntaxText(items, format, level, post);
      case Object(ms) => ObjectSyntaxText(ms, format, level, post);
      case _ =>
    }
  }

  lemma IntegerSyntaxText(n: int, post: string)
    ensures TextThen(SyntaxOf(Number(n), false, 0), post) == Integer(n) + post
  {
    hide Decimal;
    var d := Decimal(if n < 0 then -n else n);
    assert ['-'] + (d + post) == ("-" + d) + post;
    assert [] + (d + post) == d + post;
  }

  lemma {:induction false} ArraySyntaxText(items: seq<Json>, format: bool, level: nat, post: string)
    ensures TextThen(SyntaxOf(Array(items), format, level), post) == ValueThen(Array(items), format, level, post)
    decreases items, 2
  {
    ArrayText(items, format, level, post);
    assert "" + ([']'] + post) == "]" + post;
    if items != [] {
      ItemsSyntaxText(items, "", format, level, "]" + post);
      var t := ItemsThen(items, format, level + 1, "]" + post);
      assert "" + t == t;
    }
    hide ElementsThen, ElementsOf, ItemsThen, ValueThen;
    assert "]" == [']'] && "[" == ['['];
  }

  lemma {:induction false} ItemsSyntaxText(items: seq<Json>, before: string, format: bool, level: nat, end: string)
    requires items != []
    ensures ElementsThen(ElementsOf(items, before, format, level), end) == before + ItemsThen(items, format, level + 1, end)
    decreases items, 0
  {
    hide TextThen, SyntaxOf;
    var es := ElementsOf(items, before, format, level);
    var gap := if format then " " else "";
    assert es[1..] == ElementsOf(items[1..], gap, format, level);
    ItemsSplit(items, format, level + 1, end);
    var rest := ItemsThen(items[1..], format, level + 1, end);
    var tail := Separator(format, |items| > 1) + rest;
    if |items| == 1 {
      NoItemsThen(format, level + 1, end);
      assert "" + end == end;
    } else {
      ItemsSyntaxText(items[1..], gap, format, level, end);
      SeparatorThen(format, rest);
      assert "" + tail == tail;
    }
    SyntaxText(items[0], format, level + 1, tail);
    hide ItemsThen, ValueThen, ElementsOf;
  }

  lemma NoItemsThen(format: bool, level: nat, end: string)
    ensures ItemsThen([], format, level, end) == end
  {
    assert RenderItems([], format, level) == "";
  }

  lemma SeparatorThen(format: bool, rest: string)
    ensures Separator(format, true) + rest == [','] + ((if format then " " else "") + rest)
    ensures Separator(format, false) + rest == rest
  {
  }

  lemma {:induction false} ObjectSyntaxText(ms: seq<Member<Json>>, format: bool, level: nat, post: string)
    ensures TextThen(SyntaxOf(Object(ms), format, level), post) == ValueThen(Object(ms), format, level, post)
    decreases ms, 2
  {
    ObjectText(ms, format, level, post);
    var body := When(format, "\n") + MembersThen(ms, format, level + 1, ObjectEnd(format, level, post));
    if ms == [] {
      NoMembersThen(format, level + 1, ObjectEnd(format, level, post));
      LineThenEnd(format, level, post);
    } else {
      MembersSyntaxText(ms, format, level, post);
    }
    hide EntriesThen, EntriesOf, MembersThen, ObjectEnd, ValueThen, NewLine, When;
    assert "{" == ['{'];
  }

  lemma LineThenEnd(format: bool, level: nat, post: string)
    ensures When(format, "\n") + ObjectEnd(format, level, post) == NewLine(format, level) + (['}'] + post)
  {
    assert "\n" + (Tabs(level) + (['}'] + post)) == ("\n" + Tabs(level)) + (['}'] + post);
    assert "" + ("" + (['}'] + post)) == "" + (['}'] + post);
  }

  lemma LineThen(format: bool, level: nat, x: string)
    ensures When(format, "\n") + (When(format, Tabs(level)) + x) == NewLine(format, level) + x
  {
    assert "\n" + (Tabs(level) + x) == ("\n" + Tabs(level)) + x;
    assert "" + ("" + x) == "" + x;
  }

  lemma {:induction false} MembersSyntaxText(ms: seq<Member<Json>>, format: bool, level: nat, post: string)
    requires ms != []
    ensures EntriesThen(EntriesOf(ms, format, level), ['}'] + post) ==
      When(format, "\n") + MembersThen(ms, format, level + 1, ObjectEnd(format, level, post))
    decreases ms, 0
  {
    hide TextThen, SyntaxOf, ObjectEnd, NewLine, When, MemberEnd, MemberThen, MembersThen, EntryThen;
    var (es, end) := (EntriesOf(ms, format, level), ObjectEnd(format, level, post));
    assert es[1..] == EntriesOf(ms[1..], format, level);
    SplitMembers(ms, format, level + 1, end);
    var rest := MembersThen(ms[1..], format, level + 1, end);
    var tail := MemberEnd(format, |ms| > 1) + rest;
    if |ms| == 1 {
      LastMemberTail(format, level, post);
    } else {
      MembersSyntaxText(ms[1..], format, level, post);
      MemberTail(format, rest);
      assert "" + tail == tail;
    }
    assert AfterFirstEntry(es, ['}'] + post) == tail;
    EntriesSplit(es, ['}'] + post);
    MemberSyntaxText(ms[0], |ms| == 1, format, level, tail);
    LineThen(format, level + 1, MemberThen(ms[0], format, level + 1, tail));
    hide EntriesThen;
  }

  lemma {:induction false} EntriesSplit(es: seq<Entry>, end: string)
    requires es != []
    ensures EntriesThen(es, end) == es[0].before + EntryThen(es[0], AfterFirstEntry(es, end))
  {
  }

  lemma LastMemberTail(format: bool, level: nat, post: string)
    ensures MemberEnd(format, false) + MembersThen([], format, level + 1, ObjectEnd(format, level, post))
         == NewLine(format, level) + (['}'] + post)
  {
    NoMembersThen(format, level + 1, ObjectEnd(format, level, post));
    LineThenEnd(format, level, post);
    hide ObjectEnd, MembersThen, NewLine;
    assert MemberEnd(format, false) == When(format, "\n");
  }

  lemma MemberTail(format: bool, rest: string)
    ensures MemberEnd(format, true) + rest == [','] + (When(format, "\n") + rest)
  {
    assert ("," + When(format, "\n")) + rest == [','] + (When(format, "\n") + rest);
  }

  lemma {:induction false} MemberSyntaxText(m: Member<Json>, last: bool, format: bool, level: nat, tail: string)
    ensures var e := EntryOf(m.key, SyntaxOf(m.value, format, level + 1), last, format, level);
      EntryThen(e, tail) == MemberThen(m, format, level + 1, tail)
    decreases m, 2
  {
    SyntaxText(m.value, format, level + 1, tail);
    var value := ValueThen(m.value, format, level + 1, tail);
    var x := ":" + (When(format, "\t") + value);
    PrintedIsWriting(m.key, x);
    hide TextThen, ValueThen, Quoted, Quote, SyntaxOf;
    assert "" + x == x && ":" == [':'];
  }

  // ---------- the text stands for the tree

  lemma {:induction false} SyntaxStandsFor(j: Json, format: bool, level: nat)
    requires Printable(j)
    ensures var s := SyntaxOf(j, format, level); ValueOf(s) == j && IsStandard(s) && NumbersFit(s)
    decreases j, 1
  {
    match j {
      case Number(n) => IntegerStandsFor(n);
      case String(s) => StringStandsFor(s);
      case Array(items) => ItemsStandFor(items, "", format, level);
      case Object(ms) =>
        NewLineIsWhite(format, level);
        MembersStandFor(ms, format, level);
      case _ =>
    }
  }

  lemma DecimalIsStandard(n: nat)
    ensures IsStandardInteger(Decimal(n)) && Positional(Decimal(n)) == n
  {
    var d := Decimal(n);
    DecimalRoundTrip(n);
    assert forall i | 0 <= i < |d| :: d[i] in d;
    assert d[0] == '0' ==> |d| == 1;
    hide Decimal;
    PositionalDigits(d, 0);
    hide Positional, DecimalValue;
  }

  lemma IntegerStandsFor(n: int)
    requires -NUMBER_BOUND < n < NUMBER_BOUND
    ensures var s := SyntaxOf(Number(n), false, 0); ValueOf(s) == Number(n) && IsStandard(s) && NumbersFit(s)
  {
    hide Decimal, Positional, IsStandardInteger;
    IntegerText(n);
    DecimalIsStandard(if n < 0 then -n else n);
  }

  lemma StringStandsFor(s: string)
    requires NulFree(s)
    ensures UpToNul(Bytes(WritingsOf(s))) == s && IsStandardString(WritingsOf(s))
  {
    PrintedIsWriting(s, "");
    hide Quoted, Bytes, Allowed;
  }

  lemma NewLineIsWhite(format: bool, level: nat)
    ensures IsStandardWhite(NewLine(format, level))
  {
  }

  lemma {:induction false} ItemsStandFor(items: seq<Json>, before: string, format: bool, level: nat)
    requires Printable(Array(items)) && (before == "" || before == " ")
    ensures var s := ArrayOf("", ElementsOf(items, before, format, level));
      ValueOf(s) == Array(items) && IsStandard(s) && NumbersFit(s)
    decreases items, 0
  {
    hide SyntaxOf, IsStandard, NumbersFit, ValueOf, IsStandardWhite;
    EmptyStands();
    if items != [] {
      var gap := if format then " " else "";
      assert Printable(items[0]) && Printable(Array(items[1..]));
      hide Printable;
      SyntaxStandsFor(items[0], format, level + 1);
      ItemsStandFor(items[1..], gap, format, level);
      ElementStands(Element(before, SyntaxOf(items[0], format, level + 1), ""), ElementsOf(items[1..], gap, format, level), items[1..]);
      assert items == [items[0]] + items[1..];
    }
  }

  lemma EmptyStands()
    ensures IsStandardWhite("") && IsStandardWhite(" ")
    ensures var s := ArrayOf("", []); ValueOf(s) == Array([]) && IsStandard(s) && NumbersFit(s)
    ensures var s := ObjectOf("", []); ValueOf(s) == Object([]) && IsStandard(s) && NumbersFit(s)
  {
  }

  lemma {:induction false} ElementStands(e: Element, es: seq<Element>, vs: seq<Json>)
    requires IsStandardWhite(e.before) && e.after == "" && IsStandard(e.value) && NumbersFit(e.value)
    requires var s := ArrayOf("", es); IsStandard(s) && NumbersFit(s) && ValueOf(s) == Array(vs)
    ensures var s := ArrayOf("", [e] + es);
      IsStandard(s) && NumbersFit(s) && ValueOf(s) == Array([ValueOf(e.value)] + vs)
  {
    var all := [e] + es;
    assert all[0] == e && all[1..] == es;
    hide IsStandardWhite;
    assert forall i | 1 <= i < |all| :: all[i] == es[i - 1];
  }

  lemma {:induction false} MembersStandFor(ms: seq<Member<Json>>, format: bool, level: nat)
    requires Printable(Object(ms))
    ensures var s := ObjectOf("", EntriesOf(ms, format, level));
      ValueOf(s) == Object(ms) && IsStandard(s) && NumbersFit(s)
    decreases ms, 0
  {
    hide SyntaxOf, EntryOf, IsStandard, NumbersFit, ValueOf, EntryFits, Bytes;
    EmptyStands();
    if ms != [] {
      var (m, value) := (ms[0], SyntaxOf(ms[0].value, format, level + 1));
      assert NulFree(m.key) && Printable(m.value) && Printable(Object(ms[1..]));
      hide Printable;
      SyntaxStandsFor(m.value, format, level + 1);
      MembersStandFor(ms[1..], format, level);
      EntryIsStandard(m.key, value, |ms| == 1, format, level);
      EntryStands(EntryOf(m.key, value, |ms| == 1, format, level), EntriesOf(ms[1..], format, level), ms[1..]);
      assert ms == [m] + ms[1..];
    }
  }

  predicate EntryFits(e: Entry) {
    && IsStandardWhite(e.before) && IsStandardString(e.key) && IsStandardWhite(e.afterKey)
    && IsStandardWhite(e.beforeValue) && IsStandard(e.value) && IsStandardWhite(e.after) && NumbersFit(e.value)
  }

  lemma {:induction false} EntryIsStandard(key: string, value: Syntax, last: bool, format: bool, level: nat)
    requires NulFree(key) && IsStandard(value) && NumbersFit(value)
    ensures var e := EntryOf(key, value, last, format, level);
      EntryFits(e) && UpToNul(Bytes(e.key)) == key && e.value == value
  {
    StringStandsFor(key);
    NewLineIsWhite(format, level);
    NewLineIsWhite(format, level + 1);
    hide NewLine, IsStandard, IsStandardString, NumbersFit, Bytes;
  }

  lemma {:induction false} EntryStands(e: Entry, es: seq<Entry>, ms: seq<Member<Json>>)
    requires EntryFits(e)
    requires var s := ObjectOf("", es); IsStandard(s) && NumbersFit(s) && ValueOf(s) == Object(ms)
    ensures var s := ObjectOf("", [e] + es);
      && IsStandard(s) && NumbersFit(s)
      && ValueOf(s) == Object([Member(UpToNul(Bytes(e.key)), ValueOf(e.value))] + ms)
  {
    var all := [e] + es;
    assert all[0] == e && all[1..] == es;
    hide IsStandardWhite, IsStandardString, Bytes;
    assert forall i | 1 <= i < |all| :: all[i] == es[i - 1];
  }

  // ---------- results

  /** Printed text is a JSON text of RFC 8259 that stands for the tree, laid out as `SyntaxOf` says. */
  lemma {:induction false} RenderedIsJson(j: Json, format: bool, level: nat)
    requires Printable(j)
    ensures var s := SyntaxOf(j, format, level);
      Render(j, format, level) == Text(s) && IsStandard(s) && NumbersFit(s) && ValueOf(s) == j
  {
    SyntaxText(j, format, level, "");
    SyntaxStandsFor(j, format, level);
    hide Render;
    assert Render(j, format, level) + "" == Render(j, format, level);
  }

  /** cJSON_Parse of either rendering gives the tree back exactly when it is nested at most 1000 deep. */
  lemma PrintThenParse(j: Json, format: bool, requireNul: bool)
    requires Printable(j)
    ensures Parse(Render(j, format, 0), requireNul) == if Nesting(j) <= NESTING_LIMIT then Some(j) else None
  {
    var s := SyntaxOf(j, format, 0);
    RenderedIsJson(j, format, 0);
    StandardIsAccepted(s);
    ParsesAnyDocument(false, "", s, "", "", requireNul);
    hide Render, Text, Parse, Nesting, Accepted, SyntaxOf;
    var t := Text(s);
    assert "" + ("" + (t + ("" + ""))) == t;
  }

  /** A printed string is read back, whatever follows it. */
  lemma ParseQuoted(s: string, post: string)
    requires NulFree(s)
    ensures ParseString(Quote(s) + post) == Parsed(s, post)
  {
    PrintedIsWriting(s, post);
    ReadsAnyWriting(WritingsOf(s), post);
    hide Quote, Quoted, Bytes, ParseString, AllAllowed;
  }
}
