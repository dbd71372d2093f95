/** Printing, minifying and parsing together, on linked nodes and character buffers. */
module TextOnNodes {
  import opened CStrings
  import opened JsonTree
  import opened Numbers
  import opened Rendering
  import opened Parsing
  import opened PrintedTexts
  import opened Minifying
  import opened MinifyRendered
  import opened MinifyExact
  import opened MinifyInPlace
  import opened Nodes
  import opened Trees
  import opened Comparing
  import opened PrintBuffers
  import opened Printing
  import opened ParseTrees

  // ---------- rendered text is a C string

  lemma {:induction false} EscapedIsText(s: string)
    requires NulFree(s)
    ensures NulFree(Escape(s))
  {
    if s != "" {
      assert s[0] in s && forall c | c in s[1..] :: c in s;
      EscapedIsText(s[1..]);
    }
  }

  lemma QuotedIsText(s: string)
    requires NulFree(s)
    ensures NulFree(Quote(s))
  {
    EscapedIsText(s);
  }

  lemma {:induction false} RenderIsText(j: Json, format: bool, depth: nat)
    requires Printable(j)
    ensures NulFree(Render(j, format, depth))
    decreases j, 1
  {
    hide Quote;
    match j
    case Number(n) => assert forall c | c in Decimal(if n < 0 then -n else n) :: IsDigit(c);
    case String(s) => QuotedIsText(s);
    case Array(items) => ItemsAreText(items, format, depth + 1);
    case Object(ms) => MembersAreText(ms, format, depth + 1);
    case _ =>
  }

  lemma {:induction false} ItemsAreText(items: seq<Json>, format: bool, depth: nat)
    requires Printable(Array(items))
    ensures NulFree(RenderItems(items, format, depth))
    decreases items, 0
  {
    hide Render;
    if items != [] {
      RenderIsText(items[0], format, depth);
      ItemsAreText(items[1..], format, depth);
    }
  }

  lemma {:induction false} MembersAreText(ms: seq<Member<Json>>, format: bool, depth: nat)
    requires Printable(Object(ms))
    ensures NulFree(RenderMembers(ms, format, depth))
    decreases ms, 0
  {
    hide Render, Quote;
    if ms != [] {
      QuotedIsText(ms[0].key);
      RenderIsText(ms[0].value, format, depth);
      MembersAreText(ms[1..], format, depth);
    }
  }

  lemma BufferText(b: array<char>, text: string)
    requires b[..] == text + [NUL] && NulFree(text)
    ensures UpToNul(b[..]) == text && NUL in b[..]
  {
    assert b[..][|text|] == NUL && b[..][..|text|] == text;
    NulAt(b[..], |text|);
  }

  // ---------- what the callers do

  /**
   cJSON_Print and then cJSON_Minify on the printed buffer, as the dialog sends its messages: the buffer holds
   the unformatted text exactly for the trees that the minifier does not misread.
   */
  method PrintAndMinify(item: Node, ghost s: Shape) returns (printed: array?<char>)
    requires s.node == item && CanPrint(s)
    ensures printed != null <==> |Render(ValueOf(s), true, 0)| + 2 <= INT_MAX
    ensures printed != null ==>
      (UpToNul(printed[..]) == Render(ValueOf(s), false, 0) <==> EndsClean(ValueOf(s)) || OnlyLastIsDirty(ValueOf(s)))
  {
    hide Render, UpToNul, Minify;
    ghost var j := ValueOf(s);
    assert Printable(j);
    hide CanPrint;
    printed := Print(item, true, s);
    if printed != null {
      RenderIsText(j, true, 0);
      BufferText(printed, Render(j, true, 0));
      MinifyBuffer(printed);
      MinifyUndoesFormattingExactly(j);
    }
  }

  /** Printing a tree and parsing the text gives a tree of the same value, unless it is nested too deeply. */
  method PrintAndParse(item: Node, format: bool, requireNul: bool, ghost s: Shape) returns (copy: Node?, ghost t: Shape)
    requires s.node == item && CanPrint(s)
    ensures copy != null <==> |Render(ValueOf(s), format, 0)| + 2 <= INT_MAX && Nesting(ValueOf(s)) <= NESTING_LIMIT
    ensures copy != null ==> Reads(copy, t, ValueOf(s)) && fresh(NodesOf(t))
  {
    hide Render, Parse, Reads;
    ghost var j := ValueOf(s);
    assert Printable(j);
    hide CanPrint;
    var printed := Print(item, format, s);
    if printed == null {
      return null, s;
    }
    var text := printed[..printed.Length - 1];
    assert text == Render(j, format, 0);
    PrintThenParse(j, format, requireNul);
    copy, t := ParseText(text, requireNul);
  }
}
