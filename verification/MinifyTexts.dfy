/** What minifying keeps and what it leaves out, for texts put together from strings, comments, white space and the rest. */
module MinifyTexts {
  import opened CStrings
  import opened Minifying

  datatype Piece = White(c: char) | LineComment(body: string) | Comment(body: string) | Slash | Literal(body: string) | Other(c: char)

  /** "*" and "/" next to each other. */
  ghost predicate Closes(t: string, i: nat) {
    i + 1 < |t| && t[i] == '*' && t[i + 1] == '/'
  }

  /** Every quote stands directly behind a backslash. */
  ghost predicate QuotesEscaped(body: string) {
    forall i | 0 <= i < |body| && body[i] == '"' :: i > 0 && body[i - 1] == '\\'
  }

  /** A piece, with what follows it: only a slash that begins no comment depends on that. */
  ghost predicate Fits(p: Piece, rest: string) {
    match p
    case White(c) => c == 32 as char || c == 9 as char || c == 13 as char || c == 10 as char
    case LineComment(body) => '\n' !in body
    case Comment(body) => forall i | 0 <= i < |body| :: !Closes(body + "*/", i)
    case Slash => rest == "" || (rest[0] != '/' && rest[0] != '*')
    case Literal(body) => QuotesEscaped(body) && (body == "" || body[|body| - 1] != '\\')
    case Other(c) => c !in " \t\r\n/\""
  }

  function TextOf(p: Piece): string {
    match p
    case White(c) => [c]
    case LineComment(body) => "//" + body + "\n"
    case Comment(body) => "/*" + body + "*/"
    case Slash => "/"
    case Literal(body) => "\"" + body + "\""
    case Other(c) => [c]
  }

  /** Strings and other characters are kept as they are. */
  function KeptOf(p: Piece): string {
    match p
    case Literal(body) => "\"" + body + "\""
    case Other(c) => [c]
    case _ => ""
  }

  lemma {:induction false} LineEnds(body: string, rest: string)
    requires '\n' !in body
    ensures AfterLine(body + "\n" + rest) == rest && AfterLine(body) == ""
  {
    var t := body + "\n" + rest;
    if body == "" {
      assert t[0] == '\n' && t[1..] == rest;
    } else {
      assert body[0] in body && t[0] == body[0] && t[1..] == body[1..] + "\n" + rest;
      LineEnds(body[1..], rest);
    }
  }

  lemma {:induction false} CommentEnds(body: string, rest: string)
    requires forall i | 0 <= i < |body| :: !Closes(body + "*/", i)
    ensures AfterComment(body + "*/" + rest) == rest
  {
    var t := body + "*/" + rest;
    if body == "" {
      assert t[0] == '*' && t[1] == '/' && t[2..] == rest;
    } else {
      var (u, v) := (body + "*/", body[1..] + "*/");
      assert !Closes(u, 0) && t[0] == u[0] && t[1] == u[1];
      assert t[1..] == v + rest;
      forall i | 0 <= i < |body[1..]| ensures !Closes(v, i) {
        assert !Closes(u, i + 1) && v[i] == u[i + 1] && v[i + 1] == u[i + 2];
      }
      CommentEnds(body[1..], rest);
    }
  }

  /** Read from within: a quote at the start may be escaped by the character before. */
  lemma {:induction false} LiteralEnds(body: string, rest: string)
    requires QuotesEscaped(body) && (body == "" || body[|body| - 1] != '\\')
    ensures StringLength(body + "\"" + rest) == |body| + 1
  {
    var t := body + "\"" + rest;
    if body == "" {
      assert t[0] == '"';
    } else {
      assert t[0] == body[0] && t[0] != '"';
      if body[0] == '\\' && t[1] == '"' {
        assert |body| > 1 && t[2..] == body[2..] + "\"" + rest;
        LiteralEnds(body[2..], rest);
      } else {
        assert t[1..] == body[1..] + "\"" + rest;
        assert |body| > 1 ==> t[1] == body[1];
        LiteralEnds(body[1..], rest);
      }
    }
  }

  lemma MinifyOne(c: char, rest: string)
    requires Fits(White(c), rest) || Fits(Other(c), rest)
    ensures Minify([c] + rest) == (if Fits(White(c), rest) then "" else [c]) + Minify(rest)
  {
    var s := " \t\r\n/\"";
    assert s[0] == ' ' && s[1] == '\t' && s[2] == '\r' && s[3] == '\n' && s[4] == '/' && s[5] == '"';
    var t := [c] + rest;
    assert t[0] == c && t[1..] == rest;
  }

  lemma {:induction false} MinifyLineComment(body: string, rest: string)
    requires '\n' !in body
    ensures Minify("//" + body + "\n" + rest) == Minify(rest)
  {
    var t := "//" + body + "\n" + rest;
    assert t[0] == '/' && t[1] == '/' && t[2..] == body + "\n" + rest;
    LineEnds(body, rest);
  }

  lemma {:induction false} MinifyComment(body: string, rest: string)
    requires forall i | 0 <= i < |body| :: !Closes(body + "*/", i)
    ensures Minify("/*" + body + "*/" + rest) == Minify(rest)
  {
    var t := "/*" + body + "*/" + rest;
    assert t[0] == '/' && t[1] == '*' && t[2..] == body + "*/" + rest;
    CommentEnds(body, rest);
  }

  lemma {:induction false} MinifyLiteral(body: string, rest: string)
    requires QuotesEscaped(body) && (body == "" || body[|body| - 1] != '\\')
    ensures Minify("\"" + body + "\"" + rest) == "\"" + body + "\"" + Minify(rest)
  {
    var (p, t) := ("\"" + body + "\"", "\"" + body + "\"" + rest);
    assert t[0] == '"' && t[1..] == body + "\"" + rest;
    LiteralEnds(body, rest);
    MinifyString(t);
    hide Minify, StringLength;
    assert t[..|body| + 2] == p && t[|body| + 2..] == rest;
  }

  lemma MinifySlash(rest: string)
    requires rest == "" || (rest[0] != '/' && rest[0] != '*')
    ensures Minify("/" + rest) == Minify(rest)
  {
    var t := "/" + rest;
    assert t[0] == '/' && t[1..] == rest;
  }

  lemma {:induction false} MinifyPiece(p: Piece, rest: string)
    requires Fits(p, rest)
    ensures Minify(TextOf(p) + rest) == KeptOf(p) + Minify(rest)
  {
    hide Minify;
    match p {
      case White(c) => MinifyOne(c, rest);
      case LineComment(body) => MinifyLineComment(body, rest);
      case Comment(body) => MinifyComment(body, rest);
      case Slash => MinifySlash(rest);
      case Literal(body) => MinifyLiteral(body, rest);
      case Other(c) => MinifyOne(c, rest);
    }
  }

  function Text(ps: seq<Piece>, end: string): string {
    if ps == [] then end else TextOf(ps[0]) + Text(ps[1..], end)
  }

  function Kept(ps: seq<Piece>, end: string): string {
    if ps == [] then end else KeptOf(ps[0]) + Kept(ps[1..], end)
  }

  ghost predicate AllFit(ps: seq<Piece>, end: string) {
    ps != [] ==> Fits(ps[0], Text(ps[1..], end)) && AllFit(ps[1..], end)
  }

  /** Minifying keeps the strings and the other characters, in order, and nothing else. */
  lemma {:induction false} MinifyPieces(ps: seq<Piece>, end: string)
    requires AllFit(ps, end)
    ensures Minify(Text(ps, end)) == Kept(ps, Minify(end))
  {
    hide Fits, TextOf, KeptOf, Minify;
    if ps != [] {
      MinifyPieces(ps[1..], end);
      MinifyPiece(ps[0], Text(ps[1..], end));
    }
  }

  /** At the end of the text an unclosed comment is left out, and an unclosed string is kept. */
  lemma {:induction false} MinifyUnclosed(body: string)
    ensures Minify("") == ""
    ensures '\n' !in body ==> Minify("//" + body) == ""
    ensures (forall i | 0 <= i < |body| :: !Closes(body, i)) ==> Minify("/*" + body) == ""
    ensures (QuotesEscaped(body) ==> Minify("\"" + body) == "\"" + body)
  {
    var (line, comment, literal) := ("//" + body, "/*" + body, "\"" + body);
    assert line[0] == '/' && line[1] == '/' && line[2..] == body;
    assert comment[0] == '/' && comment[1] == '*' && comment[2..] == body;
    assert literal[0] == '"' && literal[1..] == body;
    if '\n' !in body { LineEnds(body, ""); }
    if forall i | 0 <= i < |body| :: !Closes(body, i) { CommentStays(body); }
    if QuotesEscaped(body) {
      LiteralStays(body);
      MinifyString(literal);
    }
  }

  lemma {:induction false} CommentStays(body: string)
    requires forall i | 0 <= i < |body| :: !Closes(body, i)
    ensures AfterComment(body) == ""
  {
    if body != "" {
      assert !Closes(body, 0);
      forall i | 0 <= i < |body[1..]| ensures !Closes(body[1..], i) { assert !Closes(body, i + 1); }
      CommentStays(body[1..]);
    }
  }

  lemma {:induction false} LiteralStays(body: string)
    requires QuotesEscaped(body)
    ensures StringLength(body) == |body|
  {
    if body != "" {
      if body[0] == '\\' && |body| > 1 && body[1] == '"' {
        LiteralStays(body[2..]);
      } else {
        LiteralStays(body[1..]);
      }
    }
  }
}
