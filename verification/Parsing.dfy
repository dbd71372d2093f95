/**
 The parser as a function on the text from the current offset on.  Whatever is left of the buffer is
 the rest; the buffer ends with its NUL, which counts as text.
 */
module Parsing {
  import opened CStrings
  import opened JsonTree
  import opened Numbers
  import opened Utf8

  const NESTING_LIMIT: nat := 1000

  datatype Parsed<+T> = Failed | Parsed(value: T, rest: string)

  ghost predicate IsSuffix(s: string, t: string) {
    |s| <= |t| && s == t[|t| - |s|..]
  }

  /** The rest is a proper suffix of the text: something was consumed, and only from the front. */
  ghost predicate Consumes<T>(t: string, r: Parsed<T>) {
    r.Parsed? ==> |r.rest| < |t| && IsSuffix(r.rest, t)
  }

  lemma SuffixTransitive(a: string, b: string, c: string)
    requires IsSuffix(a, b) && IsSuffix(b, c)
    ensures IsSuffix(a, c)
  {
  }

  lemma SuffixTail(a: string, t: string)
    requires IsSuffix(a, t) && a != ""
    ensures IsSuffix(a[1..], t)
  {
  }

  /** buffer_skip_whitespace: skips characters up to the space, but never the last one of the buffer. */
  function SkipWhitespace(t: string): (r: string)
    ensures IsSuffix(r, t)
    ensures t != "" ==> r != ""
  {
    if |t| > 1 && t[0] <= ' ' then SkipWhitespace(t[1..]) else t
  }

  lemma AfterBracket(t: string)
    requires t != ""
    ensures var first := SkipWhitespace(t[1..]); IsSuffix(first, t) && |first| < |t|
  {
    hide SkipWhitespace;
    SuffixTransitive(SkipWhitespace(t[1..]), t[1..], t);
  }

  predicate StartsWith(t: string, literal: string) {
    literal <= t
  }

  // ---------- numbers

  predicate IsNumberChar(c: char) {
    IsDigit(c) || c == '+' || c == '-' || c == 'e' || c == 'E' || c == '.'
  }

  /** The characters copied for strtod: at most `room` of them. */
  function NumberRun(t: string, room: nat): (r: string)
    ensures |r| <= |t| && r == t[..|r|]
  {
    if room == 0 || t == "" || !IsNumberChar(t[0]) then "" else [t[0]] + NumberRun(t[1..], room - 1)
  }

  function DigitRun(t: string): (r: string)
    ensures |r| <= |t| && r == t[..|r|] && AllDigits(r)
  {
    if t == "" || !IsDigit(t[0]) then "" else [t[0]] + DigitRun(t[1..])
  }

  /** strtod as far as integers go: a sign, digits, and the number of characters used. */
  function ReadInteger(run: string): (r: Option<(int, nat)>)
    ensures r.Some? ==> 0 < r.value.1 <= |run|
  {
    var sign := if run != "" && (run[0] == '-' || run[0] == '+') then 1 else 0;
    var digits := DigitRun(run[sign..]);
    if digits == "" then None
    else
      var n := DecimalValue(digits, 0);
      Some((if sign == 1 && run[0] == '-' then -(n as int) else n, sign + |digits|))
  }

  function ParseNumber(t: string): (r: Parsed<Json>)
    ensures Consumes(t, r)
  {
    var read := ReadInteger(NumberRun(t, 63));
    if read.None? then Failed else Parsed(Number(read.value.0), t[read.value.1..])
  }

  // ---------- strings

  /** First pass: where the closing quote is, counted from i, skipping one character after a backslash. */
  function ClosingQuote(t: string, i: nat): (r: Option<nat>)
    requires i <= |t|
    ensures r.Some? ==> i <= r.value < |t| && t[r.value] == '"'
    decreases |t| - i
  {
    if i == |t| then None
    else if t[i] == '"' then Some(i)
    else if t[i] == '\\' then (if i + 1 >= |t| then None else ClosingQuote(t, i + 2))
    else ClosingQuote(t, i + 1)
  }

  /** The character that a one-character escape stands for. */
  function ShortUnescape(c: char): Option<char> {
    if c == 'b' then Some(8 as char)
    else if c == 'f' then Some(12 as char)
    else if c == 'n' then Some('\n')
    else if c == 'r' then Some('\r')
    else if c == 't' then Some('\t')
    else if c == '"' || c == '\\' || c == '/' then Some(c)
    else None
  }

  /**
   Second pass, on the text c before the closing quote.  A backslash at the very end is followed by the
   closing quote itself, which this pass then takes for an escaped quote.
   */
  function Unescape(c: string): Option<string>
    decreases |c|
  {
    if c == "" then Some("")
    else if c[0] != '\\' then Prepend([c[0]], Unescape(c[1..]))
    else
      var next := if |c| > 1 then c[1] else '"';
      if next == 'u' then
        var literal := Utf16Literal(c);
        if literal.None? then None
        else Prepend(EncodeUtf8(literal.value.0), Unescape(c[literal.value.1..]))
      else if ShortUnescape(next).None? then None
      else Prepend([ShortUnescape(next).value], Unescape(if |c| > 1 then c[2..] else ""))
  }

  function Prepend(s: string, rest: Option<string>): Option<string> {
    if rest.None? then None else Some(s + rest.value)
  }

  function ParseString(t: string): (r: Parsed<string>)
    ensures Consumes(t, r)
  {
    if t == "" || t[0] != '"' then Failed
    else
      var end := ClosingQuote(t, 1);
      if end.None? then Failed
      else
        var s := Unescape(t[1..end.value]);
        if s.None? then Failed else Parsed(UpToNul(s.value), t[end.value + 1..])
  }

  // ---------- values

  /** What follows an element: the closing bracket, or a comma and the start of the next element. */
  datatype Next = Neither | Close(rest: string) | Comma(rest: string)

  function AfterElement(ghost t: string, rest: string, close: char): (r: Next)
    requires IsSuffix(rest, t)
    ensures !r.Neither? ==> |r.rest| < |rest| && IsSuffix(r.rest, t)
  {
    var next := SkipWhitespace(rest);
    hide IsSuffix;
    SuffixTransitive(next, rest, t);
    if next == "" then Neither
    else
      SuffixTail(next, t);
      if next[0] == close then Close(next[1..])
      else if next[0] == ',' then
        var more := SkipWhitespace(next[1..]);
        SuffixTransitive(more, next[1..], t);
        Comma(more)
      else Neither
  }

  function ParseValue(t: string, depth: nat): (r: Parsed<Json>)
    ensures Consumes(t, r)
    decreases |t|, 2
  {
    if StartsWith(t, "null") then Parsed(Null, t[4..])
    else if StartsWith(t, "false") then Parsed(False, t[5..])
    else if StartsWith(t, "true") then Parsed(True, t[4..])
    else if t == "" then Failed
    else if t[0] == '"' then
      match ParseString(t)
      case Failed => Failed
      case Parsed(s, rest) => Parsed(String(s), rest)
    else if t[0] == '-' || IsDigit(t[0]) then ParseNumber(t)
    else if t[0] == '[' then ParseArray(t, depth)
    else if t[0] == '{' then ParseObject(t, depth)
    else Failed
  }

  function ParseArray(t: string, depth: nat): (r: Parsed<Json>)
    requires t != "" && t[0] == '['
    ensures Consumes(t, r)
    decreases |t|, 1
  {
    hide IsSuffix;
    AfterBracket(t);
    var first := SkipWhitespace(t[1..]);
    if depth >= NESTING_LIMIT || first == "" then Failed
    else if first[0] == ']' then SuffixTail(first, t); Parsed(Array([]), first[1..])
    else
      match ParseItems(first, depth + 1)
      case Failed => Failed
      case Parsed(items, rest) => SuffixTransitive(rest, first, t); Parsed(Array(items), rest)
  }

  /** The loop of parse_array, from the start of an element on. */
  function ParseItems(t: string, depth: nat): (r: Parsed<seq<Json>>)
    ensures Consumes(t, r)
    decreases |t|, 3
  {
    match ParseValue(t, depth)
    case Failed => Failed
    case Parsed(v, rest) =>
      match AfterElement(t, rest, ']')
      case Neither => Failed
      case Close(end) => Parsed([v], end)
      case Comma(more) =>
        match ParseItems(more, depth)
        case Failed => Failed
        case Parsed(vs, end) => SuffixTransitive(end, more, t); Parsed([v] + vs, end)
  }

  function ParseObject(t: string, depth: nat): (r: Parsed<Json>)
    requires t != "" && t[0] == '{'
    ensures Consumes(t, r)
    decreases |t|, 1
  {
    hide IsSuffix;
    AfterBracket(t);
    var first := SkipWhitespace(t[1..]);
    if depth >= NESTING_LIMIT || first == "" then Failed
    else if first[0] == '}' then SuffixTail(first, t); Parsed(Object([]), first[1..])
    else
      match ParseMembers(first, depth + 1)
      case Failed => Failed
      case Parsed(ms, rest) => SuffixTransitive(rest, first, t); Parsed(Object(ms), rest)
  }

  function ParseMember(t: string, depth: nat): (r: Parsed<Member<Json>>)
    ensures Consumes(t, r)
    decreases |t|, 3
  {
    match ParseString(t)
    case Failed => Failed
    case Parsed(key, rest) =>
      var colon := SkipWhitespace(rest);
      hide IsSuffix;
      SuffixTransitive(colon, rest, t);
      if colon == "" || colon[0] != ':' then Failed
      else
        var value := SkipWhitespace(colon[1..]);
        SuffixTail(colon, t);
        SuffixTransitive(value, colon[1..], t);
        match ParseValue(value, depth)
        case Failed => Failed
        case Parsed(v, end) => SuffixTransitive(end, value, t); Parsed(Member(key, v), end)
  }

  /** The loop of parse_object, from the start of a key on. */
  function ParseMembers(t: string, depth: nat): (r: Parsed<seq<Member<Json>>>)
    ensures Consumes(t, r)
    decreases |t|, 4
  {
    match ParseMember(t, depth)
    case Failed => Failed
    case Parsed(m, rest) =>
      match AfterElement(t, rest, '}')
      case Neither => Failed
      case Close(end) => Parsed([m], end)
      case Comma(more) =>
        match ParseMembers(more, depth)
        case Failed => Failed
        case Parsed(ms, end) => SuffixTransitive(end, more, t); Parsed([m] + ms, end)
  }

  // ---------- cJSON_ParseWithOpts

  /** The byte order mark is skipped only when two more characters follow it. */
  function SkipByteOrderMark(t: string): (r: string)
    ensures t != "" ==> r != ""
  {
    if |t| > 4 && t[0] == 0xEF as char && t[1] == 0xBB as char && t[2] == 0xBF as char then t[3..] else t
  }

  function Parse(text: string, requireNul: bool): Option<Json> {
    match ParseValue(SkipWhitespace(SkipByteOrderMark(text + [NUL])), 0)
    case Failed => None
    case Parsed(j, rest) =>
      var end := SkipWhitespace(rest);
      if requireNul && (end == "" || end[0] != NUL) then None else Some(j)
  }
}
