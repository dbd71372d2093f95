/** print_value and its helpers: the text of a tree of nodes, written into a print buffer. */
module Printing {
  import opened CStrings
  import opened JsonTree
  import opened Numbers
  import opened Utf8
  import opened Rendering
  import opened Nodes
  import opened Trees
  import opened Comparing
  import opened PrintBuffers
  import opened RenderedParts

  // ---------- strings

  /** The bytes that escaping adds, as the first loop of print_string_ptr counts them. */
  function EscapeCharacters(s: string): nat {
    if s == "" then 0 else |EscapeChar(s[0])| - 1 + EscapeCharacters(s[1..])
  }

  lemma {:induction false} EscapedLength(s: string)
    ensures |Escape(s)| == |s| + EscapeCharacters(s)
    ensures EscapeCharacters(s) == 0 ==> Escape(s) == s
  {
    if s != "" {
      EscapedLength(s[1..]);
    }
  }

  lemma {:induction false} EscapeAppend(a: string, b: string)
    ensures Escape(a + b) == Escape(a) + Escape(b)
    ensures EscapeCharacters(a + b) == EscapeCharacters(a) + EscapeCharacters(b)
  {
    if a == "" {
      assert a + b == b;
    } else {
      assert (a + b)[1..] == a[1..] + b;
      EscapeAppend(a[1..], b);
    }
  }

  /** The text of the first characters, one more at a time. */
  lemma EscapeNext(s: string, i: nat)
    requires i < |s|
    ensures Escape(s[..i + 1]) == Escape(s[..i]) + EscapeChar(s[i])
    ensures EscapeCharacters(s[..i + 1]) == EscapeCharacters(s[..i]) + |EscapeChar(s[i])| - 1
    ensures |Escape(s[..i])| + |EscapeChar(s[i])| <= |Escape(s)|
  {
    assert s[..i + 1] == s[..i] + [s[i]] && s == s[..i + 1] + s[i + 1..];
    EscapeAppend(s[..i], [s[i]]);
    EscapeAppend(s[..i + 1], s[i + 1..]);
    assert Escape([s[i]]) == EscapeChar(s[i]) && EscapeCharacters([s[i]]) == |EscapeChar(s[i])| - 1;
  }

  lemma NothingToEscape(s: string)
    ensures Escape(s[..0]) == "" && EscapeCharacters(s[..0]) == 0
  {
  }

  method CountEscapes(input: string) returns (escapes: nat)
    ensures escapes == EscapeCharacters(input) && |input| + escapes == |Escape(input)|
  {
    hide Escape, EscapeCharacters;
    escapes := 0;
    NothingToEscape(input);
    for i := 0 to |input|
      invariant escapes == EscapeCharacters(input[..i])
    {
      EscapeNext(input, i);
      var c := input[i];
      if c == '"' || c == '\\' || c == BACKSPACE || c == FORM_FEED || c == '\n' || c == '\r' || c == '\t' {
        escapes := escapes + 1;
      } else if c < ' ' {
        escapes := escapes + 5;
      }
    }
    assert input[..|input|] == input;
    EscapedLength(input);
  }

  /** The loop of print_string_ptr that writes the characters, escaped where necessary. */
  method WriteEscaped(b: array<char>, at: nat, input: string)
    requires at + |Escape(input)| < b.Length
    modifies b
    ensures forall i | 0 <= i < |Escape(input)| :: b[at + i] == Escape(input)[i]
    ensures forall i | 0 <= i < at || at + |Escape(input)| < i < b.Length :: b[i] == old(b[i])
  {
    hide Escape, EscapeCharacters, EscapeChar;
    ghost var done := "";
    var w: nat := at;
    NothingToEscape(input);
    for i := 0 to |input|
      invariant done == Escape(input[..i]) && w == at + |done| && |done| <= |Escape(input)|
      invariant forall k | 0 <= k < |done| :: b[at + k] == done[k]
      invariant forall k | 0 <= k < at || at + |Escape(input)| < k < b.Length :: b[k] == old(b[k])
    {
      EscapeNext(input, i);
      w := WriteCharacter(b, w, input[i]);
      done := done + EscapeChar(input[i]);
    }
    assert input[..|input|] == input;
  }

  /** One character; the longest form is written by sprintf, which adds a NUL. */
  method WriteCharacter(b: array<char>, at: nat, c: char) returns (w: nat)
    requires at + |EscapeChar(c)| < b.Length
    modifies b
    ensures w == at + |EscapeChar(c)|
    ensures forall k | 0 <= k < |EscapeChar(c)| :: b[at + k] == EscapeChar(c)[k]
    ensures forall k | 0 <= k < at || at + |EscapeChar(c)| < k < b.Length :: b[k] == old(b[k])
  {
    w := at;
    if c > 31 as char && c != '"' && c != '\\' {
      b[w] := c;
    } else {
      b[w] := '\\';
      w := w + 1;
      if c == '\\' {
        b[w] := '\\';
      } else if c == '"' {
        b[w] := '"';
      } else if c == BACKSPACE {
        b[w] := 'b';
      } else if c == FORM_FEED {
        b[w] := 'f';
      } else if c == '\n' {
        b[w] := 'n';
      } else if c == '\r' {
        b[w] := 'r';
      } else if c == '\t' {
        b[w] := 't';
      } else {
        var u := "u" + Hex4(c as int);
        CopyText(b, w, u);
        b[w + 5] := NUL;
        assert forall k | 1 <= k < 6 :: b[at + k] == b[w + (k - 1)] == u[k - 1] == EscapeChar(c)[k];
        w := w + 4;
      }
    }
    w := w + 1;
  }

  /** print_string_ptr: exactly the length computed beforehand is written, and a NUL. */
  method PrintString(input: string, p: PrintBuffer, ghost t: string) returns (ok: bool)
    requires p.At(t) && NulFree(input)
    modifies p, p.buffer
    ensures p.Kept() && p.depth == old(p.depth) && p.Limit() == old(p.Limit())
    ensures ok <==> |t| + |Quote(input)| + 2 <= p.Limit()
    ensures ok ==> p.Ended(t + Quote(input))
  {
    hide Escape, EscapeCharacters;
    var escapes := CountEscapes(input);
    var length := |input| + escapes;
    EscapedLength(input);
    ok := p.Ensure(length + 3, t);
    if !ok {
      return;
    }
    var b, at := p.buffer, p.offset;
    b[at] := '"';
    if escapes == 0 {
      CopyText(b, at + 1, input);
    } else {
      WriteEscaped(b, at + 1, input);
    }
    b[at + 1 + length] := '"';
    b[at + 1 + length + 1] := NUL;
    QuoteAt(t, input);
  }

  lemma QuoteAt(t: string, s: string)
    requires NulFree(s)
    ensures NulFree(Quote(s))
    ensures forall i | 0 <= i < |t| + |Quote(s)| ::
              (t + Quote(s))[i] ==
              if i < |t| then t[i] else if i == |t| || i == |t| + 1 + |Escape(s)| then '"' else Escape(s)[i - |t| - 1]
  {
  }

  // ---------- values

  /** Text t has been followed by r, unless t, r and two more bytes do not fit. */
  twostate predicate Printed(p: PrintBuffer, t: string, r: string, ok: bool)
    reads p, p.buffer
  {
    && p.Kept() && p.Limit() == old(p.Limit())
    && (ok <==> |t| + |r| + 2 <= p.Limit())
    && (ok ==> p.depth == old(p.depth) && p.Ended(t + r))
  }

  method PrintNumber(number: int, p: PrintBuffer, ghost t: string) returns (ok: bool)
    requires p.At(t) && -NUMBER_BOUND < number < NUMBER_BOUND
    modifies p, p.buffer
    ensures Printed(p, t, Integer(number), ok)
  {
    var text := Integer(number);
    IntegerText(number);
    if |text| > 25 {
      return false;
    }
    ok := p.Append(text, |text| + 1, true, t);
  }

  /** What is still to be printed of an array from element i on. */
  ghost function ArrayRest(s: Shape, i: nat, format: bool, depth: nat): string
    requires i <= |s.kids|
  {
    RenderItems(ItemsOf(s.kids)[i..], format, depth) + "]"
  }

  lemma ArrayRestStep(s: Shape, i: nat, format: bool, depth: nat)
    requires i <= |s.kids|
    ensures i == |s.kids| ==> ArrayRest(s, i, format, depth) == "]"
    ensures i < |s.kids| ==>
      ArrayRest(s, i, format, depth) ==
      Render(ValueOf(s.kids[i]), format, depth)
      + (Separator(format, i + 1 < |s.kids|) + ArrayRest(s, i + 1, format, depth))
  {
    var items := ItemsOf(s.kids)[i..];
    if i < |s.kids| {
      assert items[0] == ValueOf(s.kids[i]) && items[1..] == ItemsOf(s.kids)[i + 1..];
      hide Render;
      Regroup3(Render(items[0], format, depth), Separator(format, |items| > 1), RenderItems(items[1..], format, depth), "]");
    }
  }

  lemma ArrayWhole(s: Shape, format: bool, depth: nat)
    requires s.data.kind.KArray?
    ensures Render(ValueOf(s), format, depth) == "[" + ArrayRest(s, 0, format, depth + 1)
  {
    assert ItemsOf(s.kids)[0..] == ItemsOf(s.kids);
    assert ValueOf(s) == Array(ItemsOf(s.kids));
    hide ValueOf, RenderItems;
  }

  lemma Chunk(done: string, a: string, rest: string)
    ensures done + (a + rest) == (done + a) + rest
  {
  }

  ghost predicate CanPrint(s: Shape)
    reads Reach(CellsOf(s))
  {
    IsTree(s) && Printable(ValueOf(s))
  }

  method PrintArray(item: Node, p: PrintBuffer, ghost s: Shape, ghost t: string) returns (ok: bool)
    requires s.node == item && s.data.kind.KArray? && CanPrint(s) && p.At(t)
    modifies p, p.buffer
    ensures CanPrint(s)
    ensures Printed(p, t, Render(ValueOf(s), p.format, old(p.depth)), ok)
    decreases s, 1
  {
    hide Render, CanPrint, ArrayRest, PrintBuffer.At, PrintBuffer.Ended, PrintBuffer.Limit;
    ghost var format, depth := p.format, p.depth + 1;
    ghost var text := ArrayRest(s, 0, format, depth);
    ArrayWhole(s, format, p.depth);
    Chunk(t, "[", text);
    assert allocated(Reach(CellsOf(s)));
    ok := p.Append("[", 1, false, t);
    if !ok {
      assert CanPrint(s);
      return;
    }
    p.depth := p.depth + 1;
    assert p.At(t + "[");
    assert CanPrint(s);
    ghost var done;
    ok, done := PrintElements(item, p, s, t + "[", (t + "[") + text);
    if !ok {
      return;
    }
    ok := p.Put("]", 2, done);
    assert CanPrint(s);
    if ok {
      p.depth := p.depth - 1;
    }
  }

  method PrintElements(item: Node, p: PrintBuffer, ghost s: Shape, ghost start: string, ghost all: string)
    returns (ok: bool, ghost done: string)
    requires s.node == item && s.data.kind.KArray? && CanPrint(s) && p.At(start)
    requires start + ArrayRest(s, 0, p.format, p.depth) == all
    modifies p, p.buffer
    ensures CanPrint(s) && p.Kept() && p.Limit() == old(p.Limit())
    ensures !ok ==> |all| + 2 > p.Limit()
    ensures ok ==> p.depth == old(p.depth) && p.At(done) && done + "]" == all
    decreases s, 0, 1
  {
    hide Render, CanPrint, ArrayRest, PrintBuffer.At, PrintBuffer.Ended, PrintBuffer.Limit;
    FirstPrinted(s);
    var current := item.child;
    ghost var i, depth := 0, p.depth;
    done, ok := start, true;
    while current != null
      invariant CanPrint(s) && p.Kept() && p.Limit() == old(p.Limit()) && p.depth == depth
      invariant i <= |s.kids| && current == if i < |s.kids| then s.kids[i].node else null
      invariant p.At(done) && done + ArrayRest(s, i, p.format, p.depth) == all
      decreases |s.kids| - i
    {
      ok, done := PrintElement(current, p, s, i, done, all);
      if !ok {
        return;
      }
      KidPrinted(s, i);
      current := current.next;
      i := i + 1;
    }
    ArrayRestStep(s, i, p.format, depth);
    ok := true;
  }

  lemma FirstPrinted(s: Shape)
    requires CanPrint(s)
    ensures s.node.child == if s.kids == [] then null else s.kids[0].node
    ensures HasData(s.node, s.data) && WellFormed(s)
  {
    FirstKid(s);
  }

  lemma KidPrinted(s: Shape, i: nat)
    requires CanPrint(s) && i < |s.kids|
    ensures CanPrint(s.kids[i]) && (s.data.kind.KObject? ==> NulFree(KeyOf(s.kids[i]))) && HasData(s.kids[i].node, s.kids[i].data)
    ensures s.kids[i].node.next == if i + 1 < |s.kids| then s.kids[i + 1].node else null
  {
    KidIsTree(s, i);
    KidFacts(s, false, i);
    KidPrintable(s, i);
  }

  lemma KidPrintable(s: Shape, i: nat)
    requires WellFormed(s) && Printable(ValueOf(s)) && i < |s.kids|
    ensures Printable(ValueOf(s.kids[i])) && (s.data.kind.KObject? ==> NulFree(KeyOf(s.kids[i])))
  {
    var v := ValueOf(s);
    if s.data.kind.KArray? {
      assert v.items[i] == ValueOf(s.kids[i]);
    } else {
      assert v.members[i] == Member(KeyOf(s.kids[i]), ValueOf(s.kids[i]));
    }
  }

  /** One turn of the loop over an array: the element, and what separates it from the next one. */
  method PrintElement(current: Node, p: PrintBuffer, ghost s: Shape, ghost i: nat, ghost done: string, ghost all: string)
    returns (ok: bool, ghost done': string)
    requires CanPrint(s) && s.data.kind.KArray? && i < |s.kids| && s.kids[i].node == current && p.At(done)
    requires done + ArrayRest(s, i, p.format, p.depth) == all
    modifies p, p.buffer
    ensures CanPrint(s) && p.Kept() && p.Limit() == old(p.Limit())
    ensures !ok ==> |all| + 2 > p.Limit()
    ensures ok ==> p.depth == old(p.depth) && p.At(done') && done' + ArrayRest(s, i + 1, p.format, p.depth) == all
    decreases s, 0, 0
  {
    hide Render, CanPrint, ArrayRest;
    done' := done;
    ghost var text, rest := Render(ValueOf(s.kids[i]), p.format, p.depth), ArrayRest(s, i + 1, p.format, p.depth);
    ghost var separator := Separator(p.format, i + 1 < |s.kids|);
    ArrayRestStep(s, i, p.format, p.depth);
    Chunk(done, text, separator + rest);
    Chunk(done + text, separator, rest);
    KidPrinted(s, i);
    assert allocated(Reach(CellsOf(s)));
    ok := PrintValue(current, p, s.kids[i], done);
    assert CanPrint(s);
    if !ok {
      return;
    }
    done' := done + text;
    p.UpdateOffset(done');
    assert CanPrint(s);
    KidPrinted(s, i);
    if current.next != null {
      var length := if p.format then 2 else 1;
      ok := p.Append(if p.format then ", " else ",", length + 1, true, done');
      assert CanPrint(s);
      done' := done' + separator;
    }
  }

  // ---------- objects

  /** What is still to be printed of an object from member i on; `depth` is that of its members. */
  ghost function ObjectRest(s: Shape, i: nat, format: bool, depth: nat): string
    requires i <= |s.kids| && depth > 0
  {
    RenderMembers(MembersOf(s.kids)[i..], format, depth) + Closing(format, depth)
  }

  function Closing(format: bool, depth: nat): (r: string)
    requires depth > 0
    ensures |r| == if format then depth else 1
    ensures NulFree(r)
  {
    if format then Tabs(depth - 1) + "}" else "}"
  }

  function Colon(format: bool): (r: string)
    ensures |r| == (if format then 2 else 1) && NulFree(r)
  {
    if format then ":\t" else ":"
  }

  function Indent(format: bool, depth: nat): (r: string)
    ensures |r| == (if format then depth else 0) && NulFree(r)
  {
    if format then Tabs(depth) else ""
  }

  lemma ObjectRestStep(s: Shape, i: nat, format: bool, depth: nat)
    requires i <= |s.kids| && depth > 0
    ensures i == |s.kids| ==> ObjectRest(s, i, format, depth) == Closing(format, depth)
    ensures i < |s.kids| ==>
      ObjectRest(s, i, format, depth) ==
      Indent(format, depth)
      + (Quote(KeyOf(s.kids[i]))
         + (Colon(format)
            + (Render(ValueOf(s.kids[i]), format, depth)
               + (MemberEnd(format, i + 1 < |s.kids|) + ObjectRest(s, i + 1, format, depth)))))
  {
    var ms := MembersOf(s.kids)[i..];
    if i < |s.kids| {
      assert ms[0] == Member(KeyOf(s.kids[i]), ValueOf(s.kids[i])) && ms[1..] == MembersOf(s.kids)[i + 1..];
      hide Render, Quote, MembersOf, Closing;
      RegroupMember(Indent(format, depth), Quote(ms[0].key), ":", When(format, "\t"), Colon(format),
                    Render(ms[0].value, format, depth), MemberEnd(format, |ms| > 1), RenderMembers(ms[1..], format, depth),
                    Closing(format, depth));
    }
  }

  lemma RegroupMember(a: string, b: string, c: string, d: string, cd: string, e: string, f: string, g: string, h: string)
    requires cd == c + d
    ensures (((a + b + c + d) + e + f) + g) + h == a + (b + (cd + (e + (f + (g + h)))))
  {
    Regroup(a, b, c, d, e, f, g, h);
    assert c + (d + (e + (f + (g + h)))) == (c + d) + (e + (f + (g + h)));
  }

  lemma ObjectWhole(s: Shape, format: bool, depth: nat)
    requires s.data.kind.KObject?
    ensures Render(ValueOf(s), format, depth) == (if format then "{\n" else "{") + ObjectRest(s, 0, format, depth + 1)
  {
    var ms := MembersOf(s.kids);
    assert ms[0..] == ms;
    assert ValueOf(s) == Object(ms);
    hide ValueOf, RenderMembers, MembersOf;
    RegroupObject(When(format, "\n"), RenderMembers(ms, format, depth + 1), When(format, Tabs(depth)));
    if !format { assert "" + "}" == "}" && "{" + "" == "{"; }
  }

  lemma RegroupObject(a: string, body: string, b: string)
    ensures "{" + a + body + b + "}" == ("{" + a) + (body + (b + "}"))
  {
  }

  /** The indentation, the key and the colon of a member. */
  method PrintKey(key: string, p: PrintBuffer, ghost done: string, ghost rest: string) returns (ok: bool, ghost done': string)
    requires p.At(done) && NulFree(key)
    modifies p, p.buffer
    ensures p.Kept() && p.Limit() == old(p.Limit()) && p.depth == old(p.depth)
    ensures var all := done + (Indent(p.format, p.depth) + (Quote(key) + (Colon(p.format) + rest)));
      (!ok ==> |all| + 2 > p.Limit()) && (ok ==> p.At(done') && done' + rest == all)
  {
    hide Quote, PrintBuffer.At, PrintBuffer.Ended, PrintBuffer.Limit;
    ghost var (a, b, c) := (Indent(p.format, p.depth), Quote(key), Colon(p.format));
    Chunk(done, a, b + (c + rest));
    Chunk(done + a, b, c + rest);
    Chunk(done + a + b, c, rest);
    hide Indent, Colon;
    done', ok := done, true;
    if p.format {
      ok := p.Append(Tabs(p.depth), p.depth, false, done');
      if !ok {
        IndentIs(p.format, p.depth);
        return;
      }
    }
    IndentIs(p.format, p.depth);
    done' := done + a;
    ok := PrintString(key, p, done');
    if !ok {
      return;
    }
    done' := done' + b;
    p.UpdateOffset(done');
    ok := p.Append(if p.format then ":\t" else ":", if p.format then 2 else 1, false, done');
    ColonIs(p.format);
    done' := done' + c;
  }

  lemma IndentIs(format: bool, depth: nat)
    ensures Indent(format, depth) == if format then Tabs(depth) else ""
    ensures NulFree(Tabs(depth))
    ensures forall s: string :: s + "" == s
  {
  }

  lemma ColonIs(format: bool)
    ensures Colon(format) == if format then ":\t" else ":"
  {
  }

  /** One turn of the loop over an object. */
  method PrintMember(current: Node, p: PrintBuffer, ghost s: Shape, ghost i: nat, ghost done: string, ghost all: string)
    returns (ok: bool, ghost done': string)
    requires CanPrint(s) && s.data.kind.KObject? && i < |s.kids| && s.kids[i].node == current && p.At(done)
    requires p.depth > 0 && done + ObjectRest(s, i, p.format, p.depth) == all
    modifies p, p.buffer
    ensures CanPrint(s) && p.Kept() && p.Limit() == old(p.Limit())
    ensures !ok ==> |all| + 2 > p.Limit()
    ensures ok ==> p.depth == old(p.depth) && p.At(done') && done' + ObjectRest(s, i + 1, p.format, p.depth) == all
    decreases s, 0, 0
  {
    hide Render, CanPrint, ObjectRest, PrintBuffer.At, PrintBuffer.Ended, PrintBuffer.Limit, Quote, Indent, Colon, MemberEnd, ValueOf;
    ghost var text, rest := Render(ValueOf(s.kids[i]), p.format, p.depth), ObjectRest(s, i + 1, p.format, p.depth);
    ghost var end := MemberEnd(p.format, i + 1 < |s.kids|);
    ObjectRestStep(s, i, p.format, p.depth);
    KidPrinted(s, i);
    KidKey(s, i);
    assert allocated(Reach(CellsOf(s)));
    ok, done' := PrintKey(current.key.value, p, done, text + (end + rest));
    assert CanPrint(s);
    if !ok {
      return;
    }
    Chunk(done', text, end + rest);
    Chunk(done' + text, end, rest);
    KidPrinted(s, i);
    assert allocated(Reach(CellsOf(s)));
    ok := PrintValue(current, p, s.kids[i], done');
    assert CanPrint(s);
    if !ok {
      return;
    }
    done' := done' + text;
    p.UpdateOffset(done');
    assert CanPrint(s);
    KidPrinted(s, i);
    var ending := EndOfMember(p.format, current.next != null);
    ok := p.Append(ending, |ending| + 1, true, done');
    assert CanPrint(s);
    done' := done' + end;
  }

  method EndOfMember(format: bool, more: bool) returns (r: string)
    ensures r == MemberEnd(format, more) && NulFree(r)
  {
    r := if more then "," else "";
    r := r + if format then "\n" else "";
  }

  lemma KidKey(s: Shape, i: nat)
    requires CanPrint(s) && s.data.kind.KObject? && i < |s.kids|
    ensures s.kids[i].node.key == Some(KeyOf(s.kids[i]))
  {
    KidFacts(s, false, i);
  }

  method PrintMembers(item: Node, p: PrintBuffer, ghost s: Shape, ghost start: string, ghost all: string)
    returns (ok: bool, ghost done: string)
    requires s.node == item && s.data.kind.KObject? && CanPrint(s) && p.At(start)
    requires p.depth > 0 && start + ObjectRest(s, 0, p.format, p.depth) == all
    modifies p, p.buffer
    ensures CanPrint(s) && p.Kept() && p.Limit() == old(p.Limit())
    ensures !ok ==> |all| + 2 > p.Limit()
    ensures ok ==> p.depth == old(p.depth) && p.At(done) && done + Closing(p.format, p.depth) == all
    decreases s, 0, 1
  {
    hide Render, CanPrint, ObjectRest, PrintBuffer.At, PrintBuffer.Ended, PrintBuffer.Limit;
    FirstPrinted(s);
    var current := item.child;
    ghost var i, depth := 0, p.depth;
    done, ok := start, true;
    while current != null
      invariant CanPrint(s) && p.Kept() && p.Limit() == old(p.Limit()) && p.depth == depth
      invariant i <= |s.kids| && current == if i < |s.kids| then s.kids[i].node else null
      invariant p.At(done) && done + ObjectRest(s, i, p.format, p.depth) == all
      decreases |s.kids| - i
    {
      ok, done := PrintMember(current, p, s, i, done, all);
      if !ok {
        return;
      }
      KidPrinted(s, i);
      current := current.next;
      i := i + 1;
    }
    ObjectRestStep(s, i, p.format, depth);
    ok := true;
  }

  method PrintObject(item: Node, p: PrintBuffer, ghost s: Shape, ghost t: string) returns (ok: bool)
    requires s.node == item && s.data.kind.KObject? && CanPrint(s) && p.At(t)
    modifies p, p.buffer
    ensures CanPrint(s)
    ensures Printed(p, t, Render(ValueOf(s), p.format, old(p.depth)), ok)
    decreases s, 1
  {
    hide Render, CanPrint, ObjectRest, PrintBuffer.At, PrintBuffer.Ended, PrintBuffer.Limit;
    ghost var format, depth := p.format, p.depth + 1;
    ghost var text := ObjectRest(s, 0, format, depth);
    var opening := if p.format then "{\n" else "{";
    ObjectWhole(s, format, p.depth);
    Chunk(t, opening, text);
    assert |text| > 0 by { ObjectRestLength(s, 0, format, depth); }
    assert allocated(Reach(CellsOf(s)));
    ok := p.Append(opening, |opening| + 1, false, t);
    assert CanPrint(s);
    if !ok {
      return;
    }
    p.depth := p.depth + 1;
    assert p.At(t + opening);
    assert CanPrint(s);
    ghost var done;
    ok, done := PrintMembers(item, p, s, t + opening, (t + opening) + text);
    if !ok {
      return;
    }
    ok := PutClosing(p, done);
    assert CanPrint(s);
  }

  lemma ObjectRestLength(s: Shape, i: nat, format: bool, depth: nat)
    requires i <= |s.kids| && depth > 0
    ensures |ObjectRest(s, i, format, depth)| > 0
  {
    hide RenderMembers;
  }

  method PutClosing(p: PrintBuffer, ghost t: string) returns (ok: bool)
    requires p.At(t) && p.depth > 0
    modifies p, p.buffer
    ensures p.Kept() && p.Limit() == old(p.Limit())
    ensures ok <==> |t| + |Closing(p.format, old(p.depth))| + 2 <= p.Limit()
    ensures ok ==> p.depth == old(p.depth) - 1 && p.Ended(t + Closing(p.format, old(p.depth)))
  {
    hide PrintBuffer.At, PrintBuffer.Ended, PrintBuffer.Limit;
    var closing := Closing(p.format, p.depth);
    ok := p.Put(closing, if p.format then p.depth + 1 else 2, t);
    if ok {
      p.depth := p.depth - 1;
    }
  }

  // ---------- any value

  /** print_value: succeeds exactly when two bytes more than the text fit, and then has written the text. */
  method PrintValue(item: Node, p: PrintBuffer, ghost s: Shape, ghost t: string) returns (ok: bool)
    requires s.node == item && CanPrint(s) && p.At(t)
    modifies p, p.buffer
    ensures CanPrint(s)
    ensures Printed(p, t, Render(ValueOf(s), p.format, old(p.depth)), ok)
    decreases s, 2
  {
    hide CanPrint, PrintBuffer.At, PrintBuffer.Ended, PrintBuffer.Limit, Quote, Integer;
    FirstPrinted(s);
    OwnText(s, p.format, p.depth);
    assert allocated(Reach(CellsOf(s)));
    match item.kind
    case KNull =>
      ok := p.Put("null", 5, t);
      assert CanPrint(s);
    case KFalse =>
      ok := p.Put("false", 6, t);
      assert CanPrint(s);
    case KTrue =>
      ok := p.Put("true", 5, t);
      assert CanPrint(s);
    case KNumber =>
      ok := PrintNumber(item.number, p, t);
      assert CanPrint(s);
    case KString =>
      ok := PrintString(item.valuestring, p, t);
      assert CanPrint(s);
    case KArray =>
      ok := PrintArray(item, p, s, t);
    case KObject =>
      ok := PrintObject(item, p, s, t);
  }

  lemma OwnText(s: Shape, format: bool, depth: nat)
    requires CanPrint(s)
    ensures var r := Render(ValueOf(s), format, depth);
      match s.data.kind
      case KNull => r == "null"
      case KFalse => r == "false"
      case KTrue => r == "true"
      case KNumber => r == Integer(s.data.number) && -NUMBER_BOUND < s.data.number < NUMBER_BOUND
      case KString => r == Quote(s.data.text) && NulFree(s.data.text)
      case KArray => true
      case KObject => true
      case KInvalid => false
  {
  }

  // ---------- entry points

  /** The buffer holds the text and its NUL. */
  ghost predicate Shows(b: array<char>, text: string)
    reads b
  {
    |text| < b.Length && b[..|text| + 1] == text + [NUL]
  }

  lemma EndedShows(p: PrintBuffer, text: string)
    requires p.Ended("" + text)
    ensures Shows(p.buffer, text)
  {
    assert "" + text == text;
  }

  /** cJSON_PrintPreallocated: exactly the buffers with two bytes more than the text will do. */
  method PrintPreallocated(item: Node, buffer: array<char>, format: bool, ghost s: Shape) returns (ok: bool)
    requires s.node == item && CanPrint(s) && buffer.Length <= INT_MAX
    modifies buffer
    ensures ok <==> |Render(ValueOf(s), format, 0)| + 2 <= buffer.Length
    ensures ok ==> Shows(buffer, Render(ValueOf(s), format, 0))
  {
    hide CanPrint, Render, Shows;
    assert allocated(Reach(CellsOf(s)));
    var p := new PrintBuffer.Preallocated(buffer, format);
    assert CanPrint(s);
    ok := PrintValue(item, p, s, "");
    if ok { EndedShows(p, Render(ValueOf(s), format, 0)); }
  }

  /** cJSON_PrintBuffered: the same text whatever size the buffer starts with. */
  method PrintBuffered(item: Node, prebuffer: int, format: bool, ghost s: Shape) returns (printed: array?<char>)
    requires s.node == item && CanPrint(s) && prebuffer <= INT_MAX
    ensures printed != null <==> prebuffer >= 0 && |Render(ValueOf(s), format, 0)| + 2 <= INT_MAX
    ensures printed != null ==> Shows(printed, Render(ValueOf(s), format, 0))
  {
    hide CanPrint, Render, Shows;
    if prebuffer < 0 {
      return null;
    }
    assert allocated(Reach(CellsOf(s)));
    var p := new PrintBuffer(prebuffer, false, format);
    assert CanPrint(s);
    var ok := PrintValue(item, p, s, "");
    if !ok {
      return null;
    }
    EndedShows(p, Render(ValueOf(s), format, 0));
    printed := p.buffer;
  }

  /** cJSON_Print and cJSON_PrintUnformatted: the text in a buffer of exactly its size. */
  method Print(item: Node, format: bool, ghost s: Shape) returns (printed: array?<char>)
    requires s.node == item && CanPrint(s)
    ensures printed != null <==> |Render(ValueOf(s), format, 0)| + 2 <= INT_MAX
    ensures printed != null ==> fresh(printed) && printed[..] == Render(ValueOf(s), format, 0) + [NUL]
  {
    hide CanPrint, Render, PrintBuffer.Ended, PrintBuffer.Limit, PrintBuffer.At;
    assert allocated(Reach(CellsOf(s)));
    var p := new PrintBuffer(256, false, format);
    LimitOf(p);
    assert CanPrint(s);
    var ok := PrintValue(item, p, s, "");
    if !ok {
      return null;
    }
    printed := Shrink(p, "" + Render(ValueOf(s), format, 0));
  }

  lemma LimitOf(p: PrintBuffer)
    ensures !p.noalloc ==> p.Limit() == INT_MAX
  {
  }

  method Shrink(p: PrintBuffer, ghost text: string) returns (printed: array<char>)
    requires p.Ended(text)
    modifies p
    ensures fresh(printed) && printed[..] == text + [NUL]
  {
    p.UpdateOffset(text);
    printed := new char[p.offset + 1];
    CopyText(printed, 0, p.buffer[..p.offset]);
    printed[p.offset] := NUL;
    assert forall i | 0 <= i < |text| :: printed[0 + i] == text[i];
  }
}
