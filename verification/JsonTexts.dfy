/**
 The JSON texts of RFC 8259 as syntax trees: white space (section 2), the digits of numbers (section 6) and the
 writing of strings (section 7) are chosen freely, wherever the standard leaves a choice.
 */
module JsonTexts {
  import opened CStrings
  import opened JsonTree
  import opened StringTexts

  datatype Syntax =
    | NullText
    | FalseText
    | TrueText
    | IntegerOf(negative: bool, digits: string)
    | StringOf(s: seq<Writing>)
    | ArrayOf(inside: string, elements: seq<Element>)
    | ObjectOf(inside: string, entries: seq<Entry>)

  /** An element with the white space around it.  `inside` above is the white space of an empty array or object. */
  datatype Element = Element(before: string, value: Syntax, after: string)

  datatype Entry = Entry(before: string, key: seq<Writing>, afterKey: string, beforeValue: string, value: Syntax, after: string)

  // ---------- the text

  /** The text, followed by more text. */
  function TextThen(s: Syntax, post: string): string
    decreases s, 0
  {
    match s
    case NullText => "null" + post
    case FalseText => "false" + post
    case TrueText => "true" + post
    case IntegerOf(negative, digits) => (if negative then ['-'] else []) + (digits + post)
    case StringOf(ws) => Quoted(ws, post)
    case ArrayOf(inside, es) => ['['] + if es == [] then inside + ([']'] + post) else ElementsThen(es, [']'] + post)
    case ObjectOf(inside, es) => ['{'] + if es == [] then inside + (['}'] + post) else EntriesThen(es, ['}'] + post)
  }

  function ElementsThen(es: seq<Element>, end: string): string
    requires es != []
    decreases es, 1
  {
    var e := es[0];
    e.before + TextThen(e.value, e.after + if |es| == 1 then end else [','] + ElementsThen(es[1..], end))
  }

  function EntriesThen(es: seq<Entry>, end: string): string
    requires es != []
    decreases es, 1
  {
    var e := es[0];
    var tail := e.after + if |es| == 1 then end else [','] + EntriesThen(es[1..], end);
    e.before + Quoted(e.key, e.afterKey + ([':'] + (e.beforeValue + TextThen(e.value, tail))))
  }

  // ---------- the value

  /** The number that a run of digits writes in base ten. */
  function Positional(digits: string): int {
    if digits == "" then 0
    else 10 * Positional(digits[..|digits| - 1]) + (digits[|digits| - 1] as int - '0' as int)
  }

  /** What the text stands for; strings are C strings and end at a NUL. */
  function ValueOf(s: Syntax): Json
    decreases s, 0
  {
    match s
    case NullText => Null
    case FalseText => False
    case TrueText => True
    case IntegerOf(negative, digits) => Number(if negative then -Positional(digits) else Positional(digits))
    case StringOf(ws) => String(UpToNul(Bytes(ws)))
    case ArrayOf(_, es) => Array(ItemsOf(es))
    case ObjectOf(_, es) => Object(MembersOf(es))
  }

  function ItemsOf(es: seq<Element>): (r: seq<Json>)
    ensures |r| == |es|
    decreases es, 1
  {
    if es == [] then [] else [ValueOf(es[0].value)] + ItemsOf(es[1..])
  }

  function MembersOf(es: seq<Entry>): (r: seq<Member<Json>>)
    ensures |r| == |es|
    decreases es, 1
  {
    if es == [] then [] else [Member(UpToNul(Bytes(es[0].key)), ValueOf(es[0].value))] + MembersOf(es[1..])
  }

  // ---------- what the parser accepts

  /** White space for the parser: everything up to the space. */
  predicate IsWhite(w: string) {
    forall i | 0 <= i < |w| :: w[i] <= ' '
  }

  predicate AreDigits(s: string) {
    s != "" && forall i | 0 <= i < |s| :: '0' <= s[i] <= '9'
  }

  /** Numbers of at most 63 characters, which is what the parser copies. */
  predicate Accepted(s: Syntax) {
    match s
    case IntegerOf(negative, digits) => AreDigits(digits) && |digits| + (if negative then 1 else 0) <= 63
    case StringOf(ws) => AllAllowed(ws)
    case ArrayOf(inside, es) =>
      IsWhite(inside) && forall i | 0 <= i < |es| :: IsWhite(es[i].before) && Accepted(es[i].value) && IsWhite(es[i].after)
    case ObjectOf(inside, es) =>
      IsWhite(inside) && forall i | 0 <= i < |es| ::
        && IsWhite(es[i].before) && AllAllowed(es[i].key) && IsWhite(es[i].afterKey)
        && IsWhite(es[i].beforeValue) && Accepted(es[i].value) && IsWhite(es[i].after)
    case _ => true
  }

  // ---------- what the standard allows

  /** Section 2 of RFC 8259: space, tab, line feed and carriage return. */
  predicate IsStandardWhite(w: string) {
    forall i | 0 <= i < |w| :: w[i] == 32 as char || w[i] == 9 as char || w[i] == 10 as char || w[i] == 13 as char
  }

  /** Section 7: no raw control characters. */
  predicate IsStandardString(ws: seq<Writing>) {
    AllAllowed(ws) && forall i | 0 <= i < |ws| && ws[i].Plain? :: ws[i].c >= 32 as char
  }

  /** Section 6, without fractions and exponents: no leading zeros. */
  predicate IsStandardInteger(digits: string) {
    AreDigits(digits) && (digits[0] == '0' ==> |digits| == 1)
  }

  predicate IsStandard(s: Syntax) {
    match s
    case IntegerOf(_, digits) => IsStandardInteger(digits)
    case StringOf(ws) => IsStandardString(ws)
    case ArrayOf(inside, es) =>
      IsStandardWhite(inside) && forall i | 0 <= i < |es| ::
        IsStandardWhite(es[i].before) && IsStandard(es[i].value) && IsStandardWhite(es[i].after)
    case ObjectOf(inside, es) =>
      IsStandardWhite(inside) && forall i | 0 <= i < |es| ::
        && IsStandardWhite(es[i].before) && IsStandardString(es[i].key) && IsStandardWhite(es[i].afterKey)
        && IsStandardWhite(es[i].beforeValue) && IsStandard(es[i].value) && IsStandardWhite(es[i].after)
    case _ => true
  }

  /** The one limit of the parser that the standard does not have. */
  predicate NumbersFit(s: Syntax) {
    match s
    case IntegerOf(negative, digits) => |digits| + (if negative then 1 else 0) <= 63
    case ArrayOf(_, es) => forall i | 0 <= i < |es| :: NumbersFit(es[i].value)
    case ObjectOf(_, es) => forall i | 0 <= i < |es| :: NumbersFit(es[i].value)
    case _ => true
  }

  lemma {:induction false} StandardIsAccepted(s: Syntax)
    requires IsStandard(s) && NumbersFit(s)
    ensures Accepted(s)
  {
    match s {
      case ArrayOf(_, es) => forall i | 0 <= i < |es| ensures Accepted(es[i].value) { StandardIsAccepted(es[i].value); }
      case ObjectOf(_, es) => forall i | 0 <= i < |es| ensures Accepted(es[i].value) { StandardIsAccepted(es[i].value); }
      case _ =>
    }
  }

  // ---------- the text does not depend on what follows it

  function Text(s: Syntax): string {
    TextThen(s, "")
  }

  lemma {:induction false} TextFollowed(s: Syntax, a: string, b: string)
    ensures TextThen(s, a + b) == TextThen(s, a) + b
    decreases s, 0
  {
    match s {
      case StringOf(ws) =>
        hide Quoted;
        QuotedFollowed(ws, a, b);
      case ArrayOf(inside, es) =>
        hide ElementsThen;
        Regrouped([']'], a, b);
        Regrouped(inside, [']'] + a, b);
        if es != [] { ElementsFollowed(es, [']'] + a, b); }
        Regrouped(['['], if es == [] then inside + ([']'] + a) else ElementsThen(es, [']'] + a), b);
      case ObjectOf(inside, es) =>
        hide EntriesThen;
        Regrouped(['}'], a, b);
        Regrouped(inside, ['}'] + a, b);
        if es != [] { EntriesFollowed(es, ['}'] + a, b); }
        Regrouped(['{'], if es == [] then inside + (['}'] + a) else EntriesThen(es, ['}'] + a), b);
      case IntegerOf(negative, digits) =>
        Regrouped(digits, a, b);
        Regrouped(if negative then ['-'] else [], digits + a, b);
      case _ =>
    }
  }

  lemma {:induction false} WrittenFollowed(ws: seq<Writing>, a: string, b: string)
    ensures Written(ws, a + b) == Written(ws, a) + b
  {
    hide TextOf;
    if ws != [] {
      WrittenFollowed(ws[1..], a, b);
      assert TextOf(ws[0]) + (Written(ws[1..], a) + b) == (TextOf(ws[0]) + Written(ws[1..], a)) + b;
    }
  }

  lemma {:induction false} QuotedFollowed(ws: seq<Writing>, a: string, b: string)
    ensures Quoted(ws, a + b) == Quoted(ws, a) + b
  {
    hide Written;
    assert (['"'] + a) + b == ['"'] + (a + b);
    WrittenFollowed(ws, ['"'] + a, b);
  }

  lemma Regrouped(x: string, y: string, z: string)
    ensures x + (y + z) == (x + y) + z
  {
  }

  lemma {:induction false} ElementsFollowed(es: seq<Element>, a: string, b: string)
    requires es != []
    ensures ElementsThen(es, a + b) == ElementsThen(es, a) + b
    decreases es, 1
  {
    hide TextThen;
    var e := es[0];
    var tail := if |es| == 1 then a else [','] + ElementsThen(es[1..], a);
    if |es| > 1 {
      ElementsFollowed(es[1..], a, b);
      Regrouped([','], ElementsThen(es[1..], a), b);
    }
    Regrouped(e.after, tail, b);
    TextFollowed(e.value, e.after + tail, b);
    Regrouped(e.before, TextThen(e.value, e.after + tail), b);
  }

  lemma {:induction false} EntriesFollowed(es: seq<Entry>, a: string, b: string)
    requires es != []
    ensures EntriesThen(es, a + b) == EntriesThen(es, a) + b
    decreases es, 1
  {
    hide TextThen, Quoted;
    var e := es[0];
    var tail := if |es| == 1 then a else [','] + EntriesThen(es[1..], a);
    if |es| > 1 {
      EntriesFollowed(es[1..], a, b);
      Regrouped([','], EntriesThen(es[1..], a), b);
    }
    Regrouped(e.after, tail, b);
    TextFollowed(e.value, e.after + tail, b);
    var value := TextThen(e.value, e.after + tail);
    Regrouped(e.beforeValue, value, b);
    Regrouped([':'], e.beforeValue + value, b);
    Regrouped(e.afterKey, [':'] + (e.beforeValue + value), b);
    QuotedFollowed(e.key, e.afterKey + ([':'] + (e.beforeValue + value)), b);
    Regrouped(e.before, Quoted(e.key, e.afterKey + ([':'] + (e.beforeValue + value))), b);
  }
}
