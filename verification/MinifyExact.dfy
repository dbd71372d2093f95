/** When minifying undoes formatting: the trees for which the misread final backslash does no harm. */
module MinifyExact {
  import opened CStrings
  import opened JsonTree
  import opened Rendering
  import opened RenderedParts
  import opened Minifying
  import opened MinifyRendered

  /** The only string that ends in a backslash closes the text, up to closing brackets of arrays. */
  predicate OnlyLastIsDirty(j: Json) {
    match j
    case String(s) => EndsInBackslash(s)
    case Array(items) =>
      && items != []
      && (forall i | 0 <= i < |items| - 1 :: EndsClean(items[i]))
      && OnlyLastIsDirty(items[|items| - 1])
    case _ => false
  }

  /** The two texts differ at some character that both have. */
  predicate Diverges(m: string, u: string) {
    m != "" && u != "" && (m[0] != u[0] || Diverges(m[1..], u[1..]))
  }

  lemma {:induction false} DivergesAfter(p: string, m: string, u: string)
    requires Diverges(m, u)
    ensures Diverges(p + m, p + u)
  {
    if p == "" {
      assert p + m == m && p + u == u;
    } else {
      DivergesAfter(p[1..], m, u);
      assert (p + m)[1..] == p[1..] + m && (p + u)[1..] == p[1..] + u;
    }
  }

  lemma {:induction false} DivergingDiffer(m: string, u: string)
    requires Diverges(m, u)
    ensures m != u
  {
    if m[0] == u[0] {
      DivergingDiffer(m[1..], u[1..]);
    }
  }

  /** What becomes of text that is taken for the rest of a string. */
  function MinifyInString(t: string): string {
    var n := StringLength(t);
    t[..n] + Minify(t[n..])
  }

  lemma InStringStep(c: char, post: string)
    requires c != '"' && c != '\\'
    ensures MinifyInString([c] + post) == [c] + MinifyInString(post)
  {
    var t := [c] + post;
    var n := StringLength(post);
    assert t[1..] == post && StringLength(t) == 1 + n;
    assert t[..1 + n] == [c] + post[..n] && t[1 + n..] == post[n..];
  }

  lemma MinifyDirtyQuoted(s: string, post: string)
    requires EndsInBackslash(s)
    ensures Minify(Quote(s) + post) == Quote(s) + MinifyInString(post)
  {
    hide Escape, StringLength;
    StringLengthExact(s, post);
    var t := Quote(s) + post;
    assert t[1..] == Escape(s) + ("\"" + post);
    var n := 1 + StringLength(t[1..]);
    var k := StringLength(post);
    assert t[..n] == Quote(s) + post[..k] && t[n..] == post[k..];
    MinifyString(t);
  }

  /** A blank that is copied although the unformatted text has none there. */
  lemma KeptBlank(p: string, c: char, rest: string, u: string)
    requires IsBlank(c) && u != "" && !IsBlank(u[0])
    ensures Diverges(p + MinifyInString([c] + rest), p + u)
  {
    hide MinifyInString, Minify;
    InStringStep(c, rest);
    DivergesAfter(p, MinifyInString([c] + rest), u);
  }

  /** How a tree that is not clean is minified: as if the text never left its last string, or wrongly. */
  ghost predicate Spoils(j: Json, level: nat, level': nat, post: string, x: string) {
    var m := Minify(ValueThen(j, true, level, post));
    if OnlyLastIsDirty(j) then m == ValueThen(j, false, level', MinifyInString(post))
    else Diverges(m, ValueThen(j, false, level', x))
  }

  ghost predicate SpoilsItems(items: seq<Json>, level: nat, level': nat, post: string, x: string) {
    var m := Minify(ItemsThen(items, true, level, post));
    if OnlyLastIsDirty(Array(items)) then m == ItemsThen(items, false, level', MinifyInString(post))
    else Diverges(m, ItemsThen(items, false, level', x))
  }

  lemma {:induction false} DirtyValue(j: Json, level: nat, level': nat, post: string, x: string)
    requires !EndsClean(j)
    ensures Spoils(j, level, level', post, x)
    decreases j, 1
  {
    match j
    case String(s) =>
      hide Quote;
      MinifyDirtyQuoted(s, post);
    case Array(items) =>
      hide Render, RenderItems, ItemsThen, ValueThen, MinifyInString;
      var text := ItemsThen(items, true, level + 1, "]" + post);
      ArrayText(items, true, level, post);
      ArrayText(items, false, level', x);
      ArrayText(items, false, level', MinifyInString(post));
      MinifyPlain("[", text);
      DirtyItems(items, level + 1, level' + 1, "]" + post, "]" + x);
      InStringStep(']', post);
      if !OnlyLastIsDirty(j) {
        DivergesAfter("[", Minify(text), ItemsThen(items, false, level' + 1, "]" + x));
      }
    case Object(ms) =>
      DirtyObject(ms, level, level', post, x);
  }

  lemma OnlyLastOfItems(items: seq<Json>)
    requires |items| > 1
    ensures OnlyLastIsDirty(Array(items)) <==> EndsClean(items[0]) && OnlyLastIsDirty(Array(items[1..]))
  {
    assert items == [items[0]] + items[1..];
  }

  lemma {:induction false} DirtyItems(items: seq<Json>, level: nat, level': nat, post: string, x: string)
    requires !EndsClean(Array(items))
    ensures SpoilsItems(items, level, level', post, x)
    decreases items, 0
  {
    hide Render, RenderItems, MinifyInString, StringLength;
    var more, first := |items| > 1, items[0];
    var rest, rest' := ItemsThen(items[1..], true, level, post), ItemsThen(items[1..], false, level', x);
    var tail, tail' := Separator(true, more) + rest, Separator(false, more) + rest';
    ItemsSplit(items, true, level, post);
    ItemsSplit(items, false, level', x);
    ItemsSplit(items, false, level', MinifyInString(post));
    if more { OnlyLastOfItems(items); } else { NoItems(items[1..], level, level', post, x); }
    hide ItemsThen;
    if EndsClean(first) {
      MinifySeparator(more, rest);
      MinifyValue(first, level, level', tail);
      DirtyItems(items[1..], level, level', post, x);
      if !OnlyLastIsDirty(Array(items)) {
        DivergesAfter(Separator(false, more), Minify(rest), rest');
        DivergesAfter(Render(first, false, level'), Minify(tail), tail');
      }
    } else {
      DirtyValue(first, level, level', tail, tail');
      if OnlyLastIsDirty(first) && more {
        CommaKept(first, items[1..], level, level', rest, x);
      }
    }
  }

  lemma NoItems(items: seq<Json>, level: nat, level': nat, post: string, x: string)
    requires items == []
    ensures ItemsThen(items, true, level, post) == post
    ensures ItemsThen(items, false, level', x) == x
    ensures ItemsThen(items, false, level', MinifyInString(post)) == MinifyInString(post)
    ensures Separator(true, false) + post == post && Separator(false, false) + x == x
    ensures Separator(false, false) + MinifyInString(post) == MinifyInString(post)
  {
    hide MinifyInString;
  }

  /** The space after the comma stays when the text before it counts as part of a string. */
  lemma {:induction false} CommaKept(first: Json, others: seq<Json>, level: nat, level': nat, rest: string, x: string)
    requires others != []
    ensures var tail' := Separator(false, true) + ItemsThen(others, false, level', x);
            Diverges(ValueThen(first, false, level', MinifyInString(Separator(true, true) + rest)),
                     ValueThen(first, false, level', tail'))
  {
    var u := ItemsThen(others, false, level', x);
    StartOfItems(others, false, level', x);
    hide ItemsThen, Render, MinifyInString, Minify, Diverges;
    assert Separator(true, true) + rest == [','] + ([' '] + rest);
    assert Separator(false, true) + u == [','] + u;
    InStringStep(',', [' '] + rest);
    KeptBlank([','], ' ', rest, u);
    DivergesAfter(Render(first, false, level'), [','] + MinifyInString([' '] + rest), [','] + u);
  }

  lemma {:induction false} DirtyObject(ms: seq<Member<Json>>, level: nat, level': nat, post: string, x: string)
    requires !EndsClean(Object(ms))
    ensures Diverges(Minify(ValueThen(Object(ms), true, level, post)), ValueThen(Object(ms), false, level', x))
    decreases ms, 2
  {
    hide Render, RenderMembers, MembersThen, Diverges;
    var end, end' := ObjectEnd(true, level, post), ObjectEnd(false, level', x);
    var body, body' := MembersThen(ms, true, level + 1, end), MembersThen(ms, false, level' + 1, end');
    ObjectText(ms, true, level, post);
    ObjectText(ms, false, level', x);
    MinifyPlain("{", "\n" + body);
    MinifyBlank("\n", body);
    assert end'[0] == '}';
    DirtyMembers(ms, level + 1, level' + 1, end, end');
    DivergesAfter("{", Minify(body), body');
    assert "" + body' == body';
  }

  lemma {:induction false} DirtyMembers(ms: seq<Member<Json>>, level: nat, level': nat, post: string, x: string)
    requires !EndsClean(Object(ms)) && x != "" && !IsBlank(x[0])
    ensures Diverges(Minify(MembersThen(ms, true, level, post)), MembersThen(ms, false, level', x))
    decreases ms, 0
  {
    hide MembersThen, MemberThen, MemberEnd, Diverges;
    var first, more := ms[0], |ms| > 1;
    var rest, rest' := MembersThen(ms[1..], true, level, post), MembersThen(ms[1..], false, level', x);
    var tail, tail' := MemberEnd(true, more) + rest, MemberEnd(false, more) + rest';
    SplitMembers(ms, true, level, post);
    SplitMembers(ms, false, level', x);
    MinifyBlank(Tabs(level), MemberThen(first, true, level, tail));
    assert "" + MemberThen(first, false, level', tail') == MemberThen(first, false, level', tail');
    MinifyMemberEnd(more, rest);
    if EndsInBackslash(first.key) {
      DirtyKey(first, level, level', tail, tail');
    } else if EndsClean(first.value) {
      MinifyMember(first, level, level', tail);
      DirtyMembers(ms[1..], level, level', post, x);
      DivergesAfter(MemberEnd(false, more), Minify(rest), rest');
      InMember(first, level', Minify(tail), tail');
    } else {
      RestOfMembers(ms, level', x);
      DirtyMember(first, level, level', rest, rest', more);
    }
  }

  lemma {:induction false} RestOfMembers(ms: seq<Member<Json>>, level': nat, x: string)
    requires ms != [] && x != "" && !IsBlank(x[0])
    ensures var r := MembersThen(ms[1..], false, level', x); r != "" && !IsBlank(r[0])
  {
    if |ms| > 1 {
      hide MembersThen, Render, Escape;
      SplitMembers(ms[1..], false, level', x);
    } else {
      NoMembersThen(false, level', x);
    }
  }

  /** A difference after a member is a difference. */
  lemma {:induction false} InMember(m: Member<Json>, level: nat, t: string, u: string)
    requires Diverges(t, u)
    ensures Diverges(MemberThen(m, false, level, t), MemberThen(m, false, level, u))
  {
    hide Diverges, Quote, Render;
    var p := Quote(m.key) + ":" + Render(m.value, false, level);
    assert MemberThen(m, false, level, t) == p + t;
    assert MemberThen(m, false, level, u) == p + u;
    DivergesAfter(p, t, u);
  }

  /** The tab after the colon stays when the key ends in a backslash. */
  lemma {:induction false} DirtyKey(m: Member<Json>, level: nat, level': nat, tail: string, tail': string)
    requires EndsInBackslash(m.key)
    ensures Diverges(Minify(MemberThen(m, true, level, tail)), MemberThen(m, false, level', tail'))
  {
    var v, v' := ValueThen(m.value, true, level, tail), ValueThen(m.value, false, level', tail');
    FirstChar(m.value, false, level');
    assert v'[0] == Render(m.value, false, level')[0];
    hide ValueThen, Quote, Render, Diverges, Minify, MinifyInString;
    MinifyDirtyQuoted(m.key, ":" + ("\t" + v));
    InStringStep(':', "\t" + v);
    KeptBlank(":", '\t', v, v');
    DivergesAfter(Quote(m.key), MinifyInString(":" + ("\t" + v)), ":" + v');
    assert MemberThen(m, false, level', tail') == Quote(m.key) + (":" + v') by {
      assert "" + v' == v';
    }
  }

  lemma {:induction false} MemberText(m: Member<Json>, level: nat, tail: string)
    ensures MemberThen(m, true, level, tail) == Quote(m.key) + (":" + ("\t" + ValueThen(m.value, true, level, tail)))
    ensures MemberThen(m, false, level, tail) == (Quote(m.key) + ":") + ValueThen(m.value, false, level, tail)
  {
    hide ValueThen, Quote;
    var v := ValueThen(m.value, false, level, tail);
    assert "" + v == v && Quote(m.key) + (":" + v) == (Quote(m.key) + ":") + v;
  }

  /** The text up to the value of a member is minified to what it is without formatting. */
  lemma {:induction false} MinifyUpToValue(m: Member<Json>, level: nat, tail: string)
    requires !EndsInBackslash(m.key)
    ensures Minify(MemberThen(m, true, level, tail)) == (Quote(m.key) + ":") + Minify(ValueThen(m.value, true, level, tail))
  {
    hide ValueThen, Quote, Minify, MemberThen;
    var v := ValueThen(m.value, true, level, tail);
    MemberText(m, level, tail);
    MinifyQuoted(m.key, ":" + ("\t" + v));
    MinifyPlain(":", "\t" + v);
    MinifyBlank("\t", v);
    assert Quote(m.key) + (":" + Minify(v)) == (Quote(m.key) + ":") + Minify(v);
  }

  lemma {:induction false} DirtyMember(m: Member<Json>, level: nat, level': nat, rest: string, rest': string, more: bool)
    requires !EndsInBackslash(m.key) && !EndsClean(m.value) && rest' != "" && !IsBlank(rest'[0])
    ensures Diverges(Minify(MemberThen(m, true, level, MemberEnd(true, more) + rest)),
                     MemberThen(m, false, level', MemberEnd(false, more) + rest'))
    decreases m, 2
  {
    hide Quote, Render, Diverges, Minify, MinifyInString, MemberEnd, MemberThen, ValueThen;
    var tail, tail' := MemberEnd(true, more) + rest, MemberEnd(false, more) + rest';
    MinifyUpToValue(m, level, tail);
    MemberText(m, level', tail');
    DirtyValue(m.value, level, level', tail, tail');
    if OnlyLastIsDirty(m.value) {
      LineKept(rest, rest', more);
      AfterValue(m.value, level', MinifyInString(tail), tail');
    }
    DivergesAfter(Quote(m.key) + ":", Minify(ValueThen(m.value, true, level, tail)), ValueThen(m.value, false, level', tail'));
  }

  lemma AfterValue(j: Json, level: nat, t: string, u: string)
    requires Diverges(t, u)
    ensures Diverges(ValueThen(j, false, level, t), ValueThen(j, false, level, u))
  {
    hide Render, Diverges;
    DivergesAfter(Render(j, false, level), t, u);
  }

  /** The line break after a member stays when the text before it counts as part of a string. */
  lemma LineKept(rest: string, rest': string, more: bool)
    requires rest' != "" && !IsBlank(rest'[0])
    ensures Diverges(MinifyInString(MemberEnd(true, more) + rest), MemberEnd(false, more) + rest')
  {
    hide Diverges, MinifyInString;
    var p := if more then "," else "";
    assert MemberEnd(true, more) + rest == p + (['\n'] + rest);
    assert MemberEnd(false, more) + rest' == p + rest';
    if more { InStringStep(',', ['\n'] + rest); } else { assert p + (['\n'] + rest) == ['\n'] + rest; }
    KeptBlank(p, '\n', rest, rest');
    assert p + MinifyInString(['\n'] + rest) == MinifyInString(p + (['\n'] + rest));
  }

  /** cJSON_Minify undoes the formatting of exactly these trees. */
  lemma MinifyUndoesFormattingExactly(j: Json)
    ensures Minify(Render(j, true, 0)) == Render(j, false, 0) <==> EndsClean(j) || OnlyLastIsDirty(j)
  {
    if EndsClean(j) {
      MinifyUndoesFormatting(j);
    } else {
      hide Render;
      DirtyValue(j, 0, 0, "", "");
      assert Render(j, true, 0) + "" == Render(j, true, 0) && Render(j, false, 0) + "" == Render(j, false, 0);
      assert MinifyInString("") == "";
      if !OnlyLastIsDirty(j) {
        DivergingDiffer(Minify(Render(j, true, 0)), Render(j, false, 0));
      }
    }
  }
}
