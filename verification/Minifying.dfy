/** cJSON_Minify as a function: the text without white space and comments outside strings. */
module Minifying {
  import opened CStrings

  predicate IsBlank(c: char) {
    c == ' ' || c == '\t' || c == '\r' || c == '\n'
  }

  /** skip_oneline_comment: what is left after the line. */
  function AfterLine(t: string): (r: string)
    ensures |r| <= |t|
  {
    if t == "" then "" else if t[0] == '\n' then t[1..] else AfterLine(t[1..])
  }

  /** skip_multiline_comment: what is left after the closing mark. */
  function AfterComment(t: string): (r: string)
    ensures |r| <= |t|
  {
    if t == "" then "" else if |t| > 1 && t[0] == '*' && t[1] == '/' then t[2..] else AfterComment(t[1..])
  }

  /** minify_string after the opening quote: how much of t still belongs to the string. */
  function StringLength(t: string): (n: nat)
    ensures n <= |t|
  {
    if t == "" then 0
    else if t[0] == '"' then 1
    else if t[0] == '\\' && |t| > 1 && t[1] == '"' then 2 + StringLength(t[2..])
    else 1 + StringLength(t[1..])
  }

  function Minify(t: string): string
    decreases |t|
  {
    if t == "" then ""
    else if IsBlank(t[0]) then Minify(t[1..])
    else if t[0] == '/' then
      if |t| > 1 && t[1] == '/' then Minify(AfterLine(t[2..]))
      else if |t| > 1 && t[1] == '*' then Minify(AfterComment(t[2..]))
      else Minify(t[1..])
    else if t[0] == '"' then
      var n := 1 + StringLength(t[1..]);
      t[..n] + Minify(t[n..])
    else [t[0]] + Minify(t[1..])
  }

  /** The extent of a string depends only on the string, once it is closed or nothing follows it. */
  lemma {:induction false} StringLengthStable(u: string, x: string)
    requires StringLength(u) < |u| || x == ""
    ensures StringLength(u[..StringLength(u)] + x) == StringLength(u)
  {
    var k := StringLength(u);
    var v := u[..k] + x;
    if u == "" || u[0] == '"' {
    } else if u[0] == '\\' && |u| > 1 && u[1] == '"' {
      StringLengthStable(u[2..], x);
      assert v[0] == u[0] && v[1] == u[1] && v[2..] == u[2..][..k - 2] + x;
    } else {
      StringLengthStable(u[1..], x);
      assert v[0] == u[0] && v[1..] == u[1..][..k - 1] + x;
      assert k > 1 ==> v[1] == u[1];
    }
  }

  lemma MinifyString(t: string)
    requires t != "" && t[0] == '"'
    ensures var n := 1 + StringLength(t[1..]); Minify(t) == t[..n] + Minify(t[n..])
  {
  }

  lemma {:induction false} MinifyIsIdempotent(t: string)
    ensures Minify(Minify(t)) == Minify(t)
    decreases |t|
  {
    if t == "" {
    } else if IsBlank(t[0]) {
      MinifyIsIdempotent(t[1..]);
    } else if t[0] == '/' {
      if |t| > 1 && t[1] == '/' { MinifyIsIdempotent(AfterLine(t[2..])); }
      else if |t| > 1 && t[1] == '*' { MinifyIsIdempotent(AfterComment(t[2..])); }
      else { MinifyIsIdempotent(t[1..]); }
    } else if t[0] == '"' {
      var n := 1 + StringLength(t[1..]);
      var rest := Minify(t[n..]);
      MinifyIsIdempotent(t[n..]);
      StringLengthStable(t[1..], rest);
      var v := t[..n] + rest;
      assert v[1..] == t[1..][..n - 1] + rest;
      assert v[..n] == t[..n] && v[n..] == rest;
      MinifyString(v);
    } else {
      MinifyIsIdempotent(t[1..]);
      var v := [t[0]] + Minify(t[1..]);
      assert v[1..] == Minify(t[1..]);
    }
  }
}
