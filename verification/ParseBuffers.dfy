/** The parse buffer: the text being read, how far the parser has come, and how deep it is nested. */
module ParseBuffers {
  import opened CStrings
  import opened JsonTree
  import opened Numbers
  import opened Utf8
  import opened Parsing
  import opened StringPasses
  import opened Nodes

  class ParseBuffer {
    const content: string
    var offset: nat
    var depth: nat

    /** The text ends with its NUL, and the offset stays inside. */
    ghost predicate Valid()
      reads this`offset
    {
      content != "" && content[|content| - 1] == NUL && offset <= |content|
    }

    /** What is left to read, the NUL included. */
    ghost function Rest(): string
      requires Valid()
      reads this`offset
    {
      content[offset..]
    }

    constructor (text: string)
      ensures Valid() && content == text + [NUL] && offset == 0 && depth == 0
    {
      content := text + [NUL];
      offset, depth := 0, 0;
    }

    /** can_access_at_index, and the current character is c. */
    predicate Sees(c: char)
      reads this`offset
    {
      offset < |content| && content[offset] == c
    }

    /** can_read and strncmp */
    predicate SeesWord(word: string)
      reads this`offset
    {
      offset + |word| <= |content| && content[offset..offset + |word|] == word
    }

    /** Moves past k characters, none of them the final NUL. */
    method Skip(k: nat)
      requires Valid() && offset + k <= |content|
      modifies this`offset
      ensures Valid() && offset == old(offset) + k && Rest() == old(Rest())[k..]
    {
      offset := offset + k;
    }

    method Enter()
      modifies this`depth
      ensures depth == old(depth) + 1
    {
      depth := depth + 1;
    }

    method Leave()
      requires depth > 0
      modifies this`depth
      ensures depth == old(depth) - 1
    {
      depth := depth - 1;
    }

    /** buffer_skip_whitespace */
    method SkipBlanks()
      requires Valid()
      modifies this`offset
      ensures Valid() && old(offset) <= offset && Rest() == SkipWhitespace(old(Rest()))
      ensures old(offset) < |content| ==> offset < |content|
    {
      hide SkipWhitespace;
      if offset >= |content| {
        SkipNothing();
        return;
      }
      while offset < |content| && content[offset] <= ' '
        invariant old(offset) <= offset <= |content|
        invariant offset < |content| ==> SkipWhitespace(old(Rest())) == SkipWhitespace(content[offset..])
        invariant offset == |content| ==> SkipWhitespace(old(Rest())) == content[|content| - 1..]
        decreases |content| - offset
      {
        SkipOne(content, offset);
        offset := offset + 1;
      }
      if offset == |content| {
        offset := offset - 1;
      } else {
        SkipOne(content, offset);
      }
    }
  }

  lemma SkipOne(content: string, i: nat)
    requires i < |content|
    ensures SkipWhitespace(content[i..]) ==
      if i + 1 < |content| && content[i] <= ' ' then SkipWhitespace(content[i + 1..]) else content[i..]
  {
    assert content[i..][1..] == content[i + 1..];
  }

  lemma SkipNothing()
    ensures SkipWhitespace("") == ""
  {
  }

  lemma RunOne(t: string, i: nat, room: nat)
    requires i <= |t|
    ensures NumberRun(t[i..], room) ==
      if room == 0 || i == |t| || !IsNumberChar(t[i]) then "" else [t[i]] + NumberRun(t[i + 1..], room - 1)
  {
    if i < |t| { assert t[i..][1..] == t[i + 1..]; }
  }

  /** parse_string: the text of the string in a buffer of its own, whose C string becomes the value. */
  method ParseStringInto(item: Node, p: ParseBuffer) returns (ok: bool)
    requires p.Valid() && p.offset < |p.content|
    modifies p`offset, item`kind, item`valuestring
    ensures p.Valid() && old(p.offset) <= p.offset
    ensures var r := ParseString(old(p.Rest()));
      && (ok <==> r.Parsed?)
      && (ok ==> item.kind == KString && item.valuestring == r.value && p.Rest() == r.rest && p.offset > old(p.offset))
      && (!ok ==> item.kind == old(item.kind) && item.valuestring == old(item.valuestring))
  {
    hide Unescape, Starts, Skipped, ClosingQuote, UpToNul;
    ghost var t := p.Rest();
    var start := p.offset + 1;
    if p.content[p.offset] != '"' {
      p.offset := start;
      return false;
    }
    var end, skipped := FindClosingQuote(p.content, start);
    ClosingQuoteShift(p.content, p.offset);
    if end.None? {
      p.offset := start;
      return false;
    }
    var length := end.value - p.offset - skipped;
    var output := new char[length + 1];
    var at;
    ok, at := WriteUnescaped(p.content, start, end.value, output);
    assert p.content[start..end.value] == t[1..end.value - p.offset];
    if !ok {
      p.offset := at;
      return;
    }
    TextOf(output[..], Unescape(p.content[start..end.value]).value);
    item.kind, item.valuestring := KString, UpToNul(output[..]);
    p.offset := end.value + 1;
  }

  lemma TextOf(output: string, s: string)
    requires |s| < |output| && output[..|s| + 1] == s + [NUL]
    ensures UpToNul(output) == UpToNul(s)
  {
    var u := UpToNul(s);
    assert output[|s|] == output[..|s| + 1][|s|];
    assert forall i | 0 <= i < |s| :: output[i] == output[..|s| + 1][i] == s[i];
    assert output[..|u|] == u;
    assert output[|u|] == NUL;
    NulAt(output, |u|);
  }

  /** The search for the closing quote, counted from the start of the buffer or of the string. */
  lemma {:induction false} ClosingQuoteFrom(content: string, offset: nat, i: nat)
    requires offset + i <= |content|
    ensures var q := ClosingQuote(content, offset + i);
      ClosingQuote(content[offset..], i) == if q.None? then None else Some(q.value - offset)
    decreases |content| - i
  {
    var t := content[offset..];
    if i < |t| {
      assert t[i] == content[offset + i];
      if t[i] == '\\' && i + 1 < |t| { ClosingQuoteFrom(content, offset, i + 2); }
      if t[i] != '"' && t[i] != '\\' { ClosingQuoteFrom(content, offset, i + 1); }
    }
  }

  lemma ClosingQuoteShift(content: string, offset: nat)
    requires offset < |content|
    ensures var q := ClosingQuote(content, offset + 1);
      ClosingQuote(content[offset..], 1) == if q.None? then None else Some(q.value - offset)
  {
    ClosingQuoteFrom(content, offset, 1);
  }

  lemma Regroup(a: string, c: char, b: string)
    ensures a + ([c] + b) == (a + [c]) + b
  {
  }

  /** The characters that parse_number hands to strtod. */
  method CopyNumber(p: ParseBuffer) returns (run: string)
    requires p.Valid()
    ensures p.Valid() && run == NumberRun(p.Rest(), 63)
  {
    hide NumberRun, IsNumberChar;
    ghost var t := p.Rest();
    var i: nat := 0;
    run := "";
    assert t[0..] == t;
    while i < 63 && p.offset + i < |p.content| && IsNumberChar(p.content[p.offset + i])
      invariant i <= 63 && i <= |t|
      invariant NumberRun(t, 63) == run + NumberRun(t[i..], 63 - i)
      decreases 63 - i
    {
      RunStep(t, i, run);
      run := run + [p.content[p.offset + i]];
      i := i + 1;
    }
    RunOne(t, i, 63 - i);
  }

  lemma RunStep(t: string, i: nat, run: string)
    requires i < 63 && i < |t| && IsNumberChar(t[i]) && NumberRun(t, 63) == run + NumberRun(t[i..], 63 - i)
    ensures NumberRun(t, 63) == (run + [t[i]]) + NumberRun(t[i + 1..], 62 - i)
  {
    hide NumberRun, IsNumberChar;
    RunOne(t, i, 63 - i);
    Regroup(run, t[i], NumberRun(t[i + 1..], 62 - i));
  }

  /** parse_number, for the texts that strtod reads as integers. */
  method ParseNumberInto(item: Node, p: ParseBuffer) returns (ok: bool)
    requires p.Valid()
    modifies p`offset, item`kind, item`number
    ensures p.Valid() && old(p.offset) <= p.offset
    ensures var r := ParseNumber(old(p.Rest()));
      && (ok <==> r.Parsed?)
      && (ok ==> item.kind == KNumber && r.value == Number(item.number) && p.Rest() == r.rest && p.offset > old(p.offset))
      && (!ok ==> p.offset == old(p.offset))
  {
    hide NumberRun, ReadInteger;
    var run := CopyNumber(p);
    var read := ReadInteger(run);
    if read.None? {
      return false;
    }
    item.kind, item.number := KNumber, read.value.0;
    p.offset := p.offset + read.value.1;
    ok := true;
  }
}
