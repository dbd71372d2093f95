/** The text of a tree, as cJSON_Print (formatted) and cJSON_PrintUnformatted define it. */
module Rendering {
  import opened CStrings
  import opened JsonTree
  import opened Numbers
  import opened Utf8

  const BACKSPACE: char := 8 as char
  const FORM_FEED: char := 12 as char

  /** The letter of a one-character escape, if the character has one. */
  function ShortEscape(c: char): Option<char> {
    if c == '"' || c == '\\' then Some(c)
    else if c == BACKSPACE then Some('b')
    else if c == FORM_FEED then Some('f')
    else if c == '\n' then Some('n')
    else if c == '\r' then Some('r')
    else if c == '\t' then Some('t')
    else None
  }

  function EscapeChar(c: char): (s: string)
    ensures 1 <= |s| <= 6
  {
    if ShortEscape(c).Some? then ['\\', ShortEscape(c).value]
    else if c < ' ' then "\\u" + Hex4(c as int)
    else [c]
  }

  function Escape(s: string): string {
    if s == "" then "" else EscapeChar(s[0]) + Escape(s[1..])
  }

  function Quote(s: string): string {
    "\"" + Escape(s) + "\""
  }

  function Integer(n: int): string {
    if n < 0 then "-" + Decimal(-n) else Decimal(n)
  }

  function Tabs(n: nat): (s: string)
    ensures |s| == n && forall i | 0 <= i < n :: s[i] == '\t'
  {
    seq(n, i => '\t')
  }

  function When(b: bool, s: string): string {
    if b then s else ""
  }

  /** `depth` is the number of arrays and objects around the value; formatted objects indent by it. */
  function Render(j: Json, format: bool, depth: nat): string
    decreases j, 1
  {
    match j
    case Null => "null"
    case False => "false"
    case True => "true"
    case Number(n) => Integer(n)
    case String(s) => Quote(s)
    case Array(items) => "[" + RenderItems(items, format, depth + 1) + "]"
    case Object(ms) =>
      "{" + When(format, "\n") + RenderMembers(ms, format, depth + 1) + When(format, Tabs(depth)) + "}"
  }

  function Separator(format: bool, more: bool): string {
    When(more, "," + When(format, " "))
  }

  function RenderItems(items: seq<Json>, format: bool, depth: nat): string
    decreases items, 0
  {
    if items == [] then ""
    else Render(items[0], format, depth) + Separator(format, |items| > 1) + RenderItems(items[1..], format, depth)
  }

  function RenderKey(key: string, format: bool, depth: nat): string {
    When(format, Tabs(depth)) + Quote(key) + ":" + When(format, "\t")
  }

  function MemberEnd(format: bool, more: bool): string {
    When(more, ",") + When(format, "\n")
  }

  function RenderMembers(ms: seq<Member<Json>>, format: bool, depth: nat): string
    decreases ms, 0
  {
    if ms == [] then ""
    else
      RenderKey(ms[0].key, format, depth) + Render(ms[0].value, format, depth) + MemberEnd(format, |ms| > 1)
      + RenderMembers(ms[1..], format, depth)
  }

  /** The numbers that "%1.15g" writes out as plain integers. */
  const NUMBER_BOUND: int := 1_000_000_000_000_000

  /** What the model of printing covers: C strings, and numbers of at most fifteen digits. */
  predicate Printable(j: Json) {
    match j
    case Number(n) => -NUMBER_BOUND < n < NUMBER_BOUND
    case String(s) => NulFree(s)
    case Array(items) => forall i | 0 <= i < |items| :: Printable(items[i])
    case Object(ms) => forall i | 0 <= i < |ms| :: NulFree(ms[i].key) && Printable(ms[i].value)
    case _ => true
  }
}
