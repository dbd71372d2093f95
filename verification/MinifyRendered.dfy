/** Minifying the formatted text of a tree gives its unformatted text. */
module MinifyRendered {
  import opened CStrings
  import opened JsonTree
  import opened Numbers
  import opened Utf8
  import opened Rendering
  import opened RenderedParts
  import opened Minifying

  // ---------- strings

  predicate EndsInBackslash(s: string) {
    s != "" && s[|s| - 1] == '\\'
  }

  lemma StringLengthStep(c: char, rest: string)
    requires rest != "" && (c == '\\' ==> rest[0] != '"')
    ensures StringLength(EscapeChar(c) + rest) == |EscapeChar(c)| + StringLength(rest)
  {
    if ShortEscape(c).Some? {
      ShortEscapeStep(ShortEscape(c).value, rest);
    } else if c < ' ' {
      var e := EscapeChar(c);
      var t := e + rest;
      assert e[0] == '\\' && e[1] == 'u' && forall k | 2 <= k < 6 :: e[k] in Hex4(c as int);
      hide EscapeChar, ShortEscape, Hex4;
      StringLengthPlain(e, rest, 1);
      assert t[0] == '\\' && t[1] == 'u';
    }
  }

  lemma ShortEscapeStep(letter: char, rest: string)
    requires rest != "" && (letter == '\\' ==> rest[0] != '"')
    ensures StringLength(['\\', letter] + rest) == 2 + StringLength(rest)
  {
    var t := ['\\', letter] + rest;
    assert t[0] == '\\' && t[1] == letter && t[2] == rest[0];
    assert t[1..][0] == letter && t[1..][1..] == rest && t[2..] == rest;
    assert letter != '"' ==> StringLength(t) == 1 + StringLength(t[1..]);
  }

  /** Characters that are neither a quote nor a backslash are passed over one by one. */
  lemma {:induction false} StringLengthPlain(e: string, rest: string, i: nat)
    requires i <= |e| && forall k | i <= k < |e| :: e[k] != '"' && e[k] != '\\'
    ensures StringLength((e + rest)[i..]) == |e| - i + StringLength(rest)
    decreases |e| - i
  {
    var t := e + rest;
    if i == |e| {
      assert t[i..] == rest;
    } else {
      StringLengthPlain(e, rest, i + 1);
      assert t[i..][0] == e[i] && t[i..][1..] == t[i + 1..];
    }
  }

  /**
   How far minify_string runs over a rendered string: to its closing quote, or, when the string ends in a
   backslash, past that quote to the end of what it takes for the rest of the string.
   */
  lemma {:induction false} StringLengthExact(s: string, post: string)
    ensures StringLength(Escape(s) + ("\"" + post)) ==
      |Escape(s)| + 1 + if EndsInBackslash(s) then StringLength(post) else 0
  {
    var end := "\"" + post;
    if s == "" {
      assert Escape(s) + end == end;
    } else {
      var rest := Escape(s[1..]) + end;
      assert Escape(s) + end == EscapeChar(s[0]) + rest;
      StringLengthExact(s[1..], post);
      if s == "\\" {
        assert rest == end;
        LastBackslash(post);
      } else {
        assert s[0] == '\\' && s[1..] != "" ==> rest[0] == EscapeChar(s[1])[0] != '"';
        StringLengthStep(s[0], rest);
      }
    }
  }

  lemma LastBackslash(post: string)
    ensures EscapeChar('\\') == "\\\\"
    ensures StringLength("\\\\" + ("\"" + post)) == 3 + StringLength(post)
  {
    var t := "\\\\" + ("\"" + post);
    assert t[0] == '\\' && t[1] == '\\' && t[2] == '"' && t[3..] == post;
    assert t[1..][0] == '\\' && t[1..][1] == '"' && t[1..][2..] == post;
  }

  lemma MinifyQuoted(s: string, post: string)
    requires !EndsInBackslash(s)
    ensures Minify(Quote(s) + post) == Quote(s) + Minify(post)
  {
    hide Escape, StringLength;
    StringLengthExact(s, post);
    var t := Quote(s) + post;
    assert t[1..] == Escape(s) + ("\"" + post);
    var n := 1 + StringLength(t[1..]);
    assert t[..n] == Quote(s) && t[n..] == post;
    MinifyString(t);
  }

  // ---------- everything else

  predicate IsPlain(c: char) {
    !IsBlank(c) && c != '/' && c != '"'
  }

  lemma {:induction false} MinifyPlain(s: string, post: string)
    requires forall i | 0 <= i < |s| :: IsPlain(s[i])
    ensures Minify(s + post) == s + Minify(post)
  {
    if s == "" {
      assert s + post == post;
    } else {
      assert (s + post)[0] == s[0] && (s + post)[1..] == s[1..] + post;
      MinifyPlain(s[1..], post);
      assert s == [s[0]] + s[1..];
    }
  }

  lemma {:induction false} MinifyBlank(w: string, post: string)
    requires forall i | 0 <= i < |w| :: IsBlank(w[i])
    ensures Minify(w + post) == Minify(post)
  {
    if w == "" {
      assert w + post == post;
    } else {
      assert (w + post)[0] == w[0] && (w + post)[1..] == w[1..] + post;
      MinifyBlank(w[1..], post);
    }
  }

  // ---------- trees

  /** No string and no key ends in a backslash. */
  predicate EndsClean(j: Json) {
    match j
    case String(s) => !EndsInBackslash(s)
    case Array(items) => forall i | 0 <= i < |items| :: EndsClean(items[i])
    case Object(ms) => forall i | 0 <= i < |ms| :: !EndsInBackslash(ms[i].key) && EndsClean(ms[i].value)
    case _ => true
  }

  lemma ScalarIsPlain(j: Json)
    requires !j.String? && !j.Array? && !j.Object?
    ensures forall i | 0 <= i < |Render(j, false, 0)| :: IsPlain(Render(j, false, 0)[i])
    ensures forall format, level :: Render(j, format, level) == Render(j, false, 0)
  {
    if j.Number? {
      var d := Decimal(if j.n < 0 then -j.n else j.n);
      assert forall i | 0 <= i < |d| :: d[i] in d;
    }
  }

  lemma {:induction false} MinifyValue(j: Json, level: nat, level': nat, post: string)
    requires EndsClean(j)
    ensures Minify(ValueThen(j, true, level, post)) == ValueThen(j, false, level', Minify(post))
    decreases j, 1
  {
    match j
    case String(s) =>
      hide Quote;
      MinifyQuoted(s, post);
    case Array(items) =>
      hide Render, RenderItems;
      ArrayText(items, true, level, post);
      ArrayText(items, false, level', Minify(post));
      MinifyPlain("[", ItemsThen(items, true, level + 1, "]" + post));
      MinifyItems(items, level + 1, level' + 1, "]" + post);
      MinifyPlain("]", post);
    case Object(ms) =>
      MinifyObject(ms, level, level', post);
    case _ =>
      ScalarIsPlain(j);
      MinifyPlain(Render(j, false, 0), post);
  }

  lemma {:induction false} MinifyItems(items: seq<Json>, level: nat, level': nat, post: string)
    requires EndsClean(Array(items))
    ensures Minify(ItemsThen(items, true, level, post)) == ItemsThen(items, false, level', Minify(post))
    decreases items, 0
  {
    if items == [] {
      assert RenderItems(items, true, level) + post == post;
      assert RenderItems(items, false, level') + Minify(post) == Minify(post);
    } else {
      var rest, rest' := ItemsThen(items[1..], true, level, post), ItemsThen(items[1..], false, level', Minify(post));
      ItemsSplit(items, true, level, post);
      ItemsSplit(items, false, level', Minify(post));
      MinifySeparator(|items| > 1, rest);
      MinifyItems(items[1..], level, level', post);
      MinifyValue(items[0], level, level', Separator(true, |items| > 1) + rest);
    }
  }

  lemma MinifySeparator(more: bool, rest: string)
    ensures Minify(Separator(true, more) + rest) == Separator(false, more) + Minify(rest)
  {
    if more {
      assert Separator(true, more) + rest == "," + (" " + rest);
      MinifyPlain(",", " " + rest);
      MinifyBlank(" ", rest);
      assert Separator(false, more) == ",";
    } else {
      assert Separator(true, more) + rest == rest && Separator(false, more) + Minify(rest) == Minify(rest);
    }
  }

  lemma {:induction false} MinifyObject(ms: seq<Member<Json>>, level: nat, level': nat, post: string)
    requires EndsClean(Object(ms))
    ensures Minify(ValueThen(Object(ms), true, level, post)) == ValueThen(Object(ms), false, level', Minify(post))
    decreases ms, 2
  {
    hide Render, RenderMembers, MembersThen, ObjectEnd;
    var body := MembersThen(ms, true, level + 1, ObjectEnd(true, level, post));
    ObjectText(ms, true, level, post);
    ObjectText(ms, false, level', Minify(post));
    MinifyPlain("{", "\n" + body);
    MinifyBlank("\n", body);
    MinifyMembers(ms, level + 1, level' + 1, ObjectEnd(true, level, post));
    MinifyObjectEnd(level, level', post);
    var body' := MembersThen(ms, false, level' + 1, ObjectEnd(false, level', Minify(post)));
    assert "" + body' == body';
  }

  lemma MinifyObjectEnd(level: nat, level': nat, post: string)
    ensures Minify(ObjectEnd(true, level, post)) == ObjectEnd(false, level', Minify(post))
  {
    MinifyBlank(Tabs(level), ['}'] + post);
    MinifyPlain(['}'], post);
    assert "" + (['}'] + Minify(post)) == ['}'] + Minify(post);
  }

  lemma {:induction false} MinifyMembers(ms: seq<Member<Json>>, level: nat, level': nat, post: string)
    requires EndsClean(Object(ms))
    ensures Minify(MembersThen(ms, true, level, post)) == MembersThen(ms, false, level', Minify(post))
    decreases ms, 0
  {
    if ms == [] {
      NoMembersThen(true, level, post);
      NoMembersThen(false, level', Minify(post));
    } else {
      hide MembersThen, MemberThen, MemberEnd;
      var rest := MembersThen(ms[1..], true, level, post);
      var tail, first := MemberEnd(true, |ms| > 1) + rest, ms[0];
      SplitMembers(ms, true, level, post);
      SplitMembers(ms, false, level', Minify(post));
      MinifyBlank(Tabs(level), MemberThen(first, true, level, tail));
      MinifyMember(first, level, level', tail);
      MinifyMemberEnd(|ms| > 1, rest);
      MinifyMembers(ms[1..], level, level', post);
      var first' := MemberThen(first, false, level', Minify(tail));
      assert "" + first' == first';
    }
  }

  lemma MinifyMemberEnd(more: bool, rest: string)
    ensures Minify(MemberEnd(true, more) + rest) == MemberEnd(false, more) + Minify(rest)
  {
    MinifyBlank("\n", rest);
    if more {
      assert MemberEnd(true, more) + rest == "," + ("\n" + rest);
      MinifyPlain(",", "\n" + rest);
      assert MemberEnd(false, more) == ",";
    } else {
      assert MemberEnd(true, more) + rest == "\n" + rest;
      assert MemberEnd(false, more) + Minify(rest) == Minify(rest);
    }
  }

  lemma {:induction false} MinifyMember(m: Member<Json>, level: nat, level': nat, tail: string)
    requires !EndsInBackslash(m.key) && EndsClean(m.value)
    ensures Minify(MemberThen(m, true, level, tail)) == MemberThen(m, false, level', Minify(tail))
    decreases m, 2
  {
    hide ValueThen, Quote;
    var v, v' := ValueThen(m.value, true, level, tail), ValueThen(m.value, false, level', Minify(tail));
    MinifyQuoted(m.key, ":" + ("\t" + v));
    MinifyPlain(":", "\t" + v);
    MinifyBlank("\t", v);
    MinifyValue(m.value, level, level', tail);
    assert "" + v' == v';
  }

  /** cJSON_Minify undoes the formatting of every tree none of whose strings and keys ends in a backslash. */
  lemma MinifyUndoesFormatting(j: Json)
    requires EndsClean(j)
    ensures Minify(Render(j, true, 0)) == Render(j, false, 0)
  {
    hide Render;
    MinifyValue(j, 0, 0, "");
    assert Render(j, true, 0) + "" == Render(j, true, 0) && Render(j, false, 0) + "" == Render(j, false, 0);
    assert Minify("") == "";
  }
}
