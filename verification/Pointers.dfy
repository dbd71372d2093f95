/** JSON Pointers (RFC 6901, sections 3 and 4): escaping, comparing, resolving and building them. */
module Pointers {
  import opened CStrings
  import opened JsonTree
  import opened Numbers

  // ---------- escaping

  function EncodeChar(c: char): string {
    if c == '~' then "~0" else if c == '/' then "~1" else [c]
  }

  function Encode(name: string): string {
    if name == "" then "" else EncodeChar(name[0]) + Encode(name[1..])
  }

  /** The text before the next '/'. */
  function Token(p: string): string {
    if p == "" || p[0] == '/' then "" else [p[0]] + Token(p[1..])
  }

  /** The text from the next '/' on. */
  function AfterToken(p: string): (r: string)
    ensures |r| <= |p|
    ensures r == "" || r[0] == '/'
  {
    if p == "" || p[0] == '/' then p else AfterToken(p[1..])
  }

  lemma {:induction false} TokenOf(t: string, rest: string)
    requires '/' !in t && (rest == "" || rest[0] == '/')
    ensures Token(t + rest) == t && AfterToken(t + rest) == rest
  {
    if t == "" {
      assert t + rest == rest;
    } else {
      assert (t + rest)[1..] == t[1..] + rest;
      TokenOf(t[1..], rest);
    }
  }

  lemma {:induction false} EncodeHasNoSlash(name: string)
    ensures '/' !in Encode(name)
  {
    if name != "" {
      EncodeHasNoSlash(name[1..]);
    }
  }

  lemma {:induction false} EncodeInjective(a: string, b: string)
    requires Encode(a) == Encode(b)
    ensures a == b
  {
    if a != "" && b != "" {
      assert Encode(a)[0] == EncodeChar(a[0])[0] && Encode(b)[0] == EncodeChar(b[0])[0];
      if a[0] == '~' || a[0] == '/' {
        assert Encode(a)[1] == EncodeChar(a[0])[1] && Encode(b)[1] == EncodeChar(b[0])[1];
      }
      assert a[0] == b[0];
      assert Encode(a[1..]) == Encode(a)[|EncodeChar(a[0])|..] == Encode(b[1..]);
      EncodeInjective(a[1..], b[1..]);
      assert a == [a[0]] + a[1..] && b == [b[0]] + b[1..];
    }
  }

  // ---------- comparing the next token with a name

  function CharAt(s: string, i: nat): char {
    if i < |s| then s[i] else NUL
  }

  function FoldChar(cs: bool, c: char): char {
    if cs then c else ToLower(c)
  }

  /** compare_pointers: walk the name and the token together, reading ~0 and ~1 as one character. */
  predicate ComparePointers(name: string, p: string, cs: bool)
    decreases |p|
  {
    if name == "" || p == "" || p[0] == '/' then
      (p != "" && p[0] != '/') == (name != "")
    else if p[0] == '~' then
      if (CharAt(p, 1) != '0' || name[0] != '~') && (CharAt(p, 1) != '1' || name[0] != '/') then false
      else ComparePointers(name[1..], p[2..], cs)
    else if FoldChar(cs, name[0]) != FoldChar(cs, p[0]) then false
    else ComparePointers(name[1..], p[1..], cs)
  }

  lemma {:induction false} FoldIsPointwise(cs: bool, s: string)
    ensures forall i | 0 <= i < |s| :: Fold(cs, s)[i] == FoldChar(cs, s[i])
    ensures s != "" ==> Fold(cs, s) == [FoldChar(cs, s[0])] + Fold(cs, s[1..])
  {
  }

  lemma FoldAppend(cs: bool, a: string, b: string)
    ensures Fold(cs, a + b) == Fold(cs, a) + Fold(cs, b)
  {
    FoldIsPointwise(cs, a);
    FoldIsPointwise(cs, b);
    FoldIsPointwise(cs, a + b);
    hide Fold;
    forall i | 0 <= i < |a + b| ensures Fold(cs, a + b)[i] == (Fold(cs, a) + Fold(cs, b))[i] {
      assert (a + b)[i] == if i < |a| then a[i] else b[i - |a|];
    }
  }

  lemma {:induction false} ComparePointersFolded(name: string, p: string, cs: bool)
    ensures ComparePointers(name, p, cs) == ComparePointers(Fold(cs, name), Fold(cs, p), true)
    decreases |p|
  {
    FoldIsPointwise(cs, name);
    FoldIsPointwise(cs, p);
    if name != "" && p != "" && p[0] != '/' {
      assert Fold(cs, name)[1..] == Fold(cs, name[1..]) && Fold(cs, p)[1..] == Fold(cs, p[1..]);
      if p[0] == '~' && |p| > 1 {
        FoldIsPointwise(cs, p[1..]);
        assert Fold(cs, p)[2..] == Fold(cs, p[2..]);
        ComparePointersFolded(name[1..], p[2..], cs);
      } else {
        ComparePointersFolded(name[1..], p[1..], cs);
      }
    }
  }

  lemma {:induction false} TokenFold(cs: bool, p: string)
    ensures Token(Fold(cs, p)) == Fold(cs, Token(p))
  {
    FoldIsPointwise(cs, p);
    if p != "" && p[0] != '/' {
      TokenFold(cs, p[1..]);
      FoldIsPointwise(cs, Token(p));
    }
  }

  /** Case-sensitively, the comparison holds exactly when the next token is the escaped name. */
  lemma {:induction false} CompareSensitive(name: string, p: string)
    ensures ComparePointers(name, p, true) <==> Token(p) == Encode(name)
    decreases |p|
  {
    var t, e := Token(p), Encode(name);
    if name == "" || p == "" || p[0] == '/' {
      assert name != "" ==> |e| > 0;
    } else if p[0] == '~' && |p| > 1 && (p[1] == '0' || p[1] == '1') {
      CompareSensitive(name[1..], p[2..]);
      assert Token(p) == ['~', p[1]] + Token(p[2..]);
      assert e[0] == EncodeChar(name[0])[0];
      if name[0] == '~' || name[0] == '/' {
        assert e[1] == EncodeChar(name[0])[1];
        assert t[2..] == Token(p[2..]) && e[2..] == Encode(name[1..]);
      }
    } else {
      CompareSensitive(name[1..], p[1..]);
      assert t[0] == p[0] && t[1..] == Token(p[1..]) && e[0] == EncodeChar(name[0])[0];
      if name[0] == '~' || name[0] == '/' {
        assert e[1] == EncodeChar(name[0])[1];
        assert |t| > 1 ==> t[1] == p[1];
      } else {
        assert e[1..] == Encode(name[1..]);
      }
    }
  }

  /** The comparison holds exactly when the next token is the escaped name, up to case when folding. */
  lemma ComparePointersExact(name: string, p: string, cs: bool)
    ensures ComparePointers(name, p, cs) <==> Fold(cs, Token(p)) == Encode(Fold(cs, name))
  {
    ComparePointersFolded(name, p, cs);
    CompareSensitive(Fold(cs, name), Fold(cs, p));
    TokenFold(cs, p);
  }

  lemma {:induction false} EncodeFold(cs: bool, name: string)
    ensures Encode(Fold(cs, name)) == Fold(cs, Encode(name))
  {
    FoldIsPointwise(cs, name);
    if name != "" {
      EncodeFold(cs, name[1..]);
      FoldAppend(cs, EncodeChar(name[0]), Encode(name[1..]));
      FoldIsPointwise(cs, EncodeChar(name[0]));
      assert Fold(cs, EncodeChar(name[0])) == EncodeChar(FoldChar(cs, name[0]));
    } else {
      assert Encode(name) == "" && Fold(cs, name) == "";
    }
  }

  /** A token built by escaping a name is matched by exactly the names equal to it up to the flag. */
  lemma ComparesWithEncoded(name: string, other: string, rest: string, cs: bool)
    requires rest == "" || rest[0] == '/'
    ensures ComparePointers(name, Encode(other) + rest, cs) <==> KeyEq(cs, name, other)
  {
    EncodeHasNoSlash(other);
    TokenOf(Encode(other), rest);
    ComparePointersExact(name, Encode(other) + rest, cs);
    EncodeFold(cs, other);
    if Encode(Fold(cs, name)) == Encode(Fold(cs, other)) {
      EncodeInjective(Fold(cs, name), Fold(cs, other));
    }
  }

  // ---------- decode_pointer_inplace

  /**
   The decoding loop on the text of the buffer: `r` is the reading and `w` the writing position.  Ordinary
   characters are passed over without being copied, and "~1" writes one position too far.
   */
  function DecodeFrom(buffer: string, r: nat, w: nat): string
    requires w <= r <= |buffer|
    decreases |buffer| - r
  {
    if r == |buffer| then buffer[..w]
    else if buffer[r] != '~' then DecodeFrom(buffer, r + 1, w + 1)
    else if CharAt(buffer, r + 1) == '0' then DecodeFrom(buffer[w := '~'], r + 2, w + 1)
    else if CharAt(buffer, r + 1) == '1' then DecodeFrom(buffer[w + 1 := '/'], r + 2, w + 1)
    else buffer
  }

  function Decode(token: string): string {
    DecodeFrom(token, 0, 0)
  }

  /** What decoding makes of position i of a name whose escaped form is e. */
  function DecodedChar(name: string, e: string, i: nat): char
    requires i < |name| <= |e|
  {
    if name[i] == '~' then '~' else if i > 0 && name[i - 1] == '/' then '/' else e[i]
  }

  lemma {:induction false} EncodeAppend(a: string, b: string)
    ensures Encode(a + b) == Encode(a) + Encode(b)
  {
    if a == "" {
      assert a + b == b;
    } else {
      assert (a + b)[1..] == a[1..] + b;
      EncodeAppend(a[1..], b);
    }
  }

  lemma {:induction false} EncodeLength(name: string)
    ensures |name| <= |Encode(name)|
  {
    if name != "" {
      EncodeLength(name[1..]);
    }
  }

  /** The loop invariant: `done` characters of the name are decoded, the escaped text from r on is untouched. */
  ghost predicate Decoding(name: string, e: string, done: nat, r: nat, buffer: string) {
    && done <= |name| <= |e| == |buffer|
    && done <= r <= |e|
    && (done > 0 && name[done - 1] == '/' ==> done < r)
    && (forall i | r <= i < |e| :: buffer[i] == e[i])
    && (forall i | 0 <= i < done :: buffer[i] == DecodedChar(name, e, i))
    && (forall i | done <= i < r :: buffer[i] == if i == done && i > 0 && name[i - 1] == '/' then '/' else e[i])
  }

  /** Where the escape of character k of the name starts in the escaped name. */
  ghost function Offset(name: string, k: nat): nat
    requires k <= |name|
  {
    if k == 0 then 0 else Offset(name, k - 1) + |EncodeChar(name[k - 1])|
  }

  lemma {:induction false} OffsetIsLength(name: string, k: nat)
    requires k <= |name|
    ensures Offset(name, k) == |Encode(name[..k])|
  {
    if k > 0 {
      OffsetIsLength(name, k - 1);
      assert name[..k] == name[..k - 1] + [name[k - 1]];
      EncodeAppend(name[..k - 1], [name[k - 1]]);
      assert Encode([name[k - 1]]) == EncodeChar(name[k - 1]);
    }
  }

  lemma EncodeAt(name: string, k: nat)
    requires k < |name|
    ensures var r, c := Offset(name, k), EncodeChar(name[k]);
      r + |c| <= |Encode(name)| && forall i | 0 <= i < |c| :: Encode(name)[r + i] == c[i]
  {
    var c := [name[k]];
    OffsetIsLength(name, k);
    assert name[..k + 1] == name[..k] + c && name == name[..k + 1] + name[k + 1..];
    EncodeAppend(name[..k], c);
    EncodeAppend(name[..k + 1], name[k + 1..]);
    assert Encode(c) == EncodeChar(name[k]);
  }

  function DecodedBuffer(c: char, buffer: string, w: nat): string
    requires w + |EncodeChar(c)| <= |buffer|
  {
    if c == '~' then buffer[w := '~'] else if c == '/' then buffer[w + 1 := '/'] else buffer
  }

  lemma DecodingNext(name: string, e: string, done: nat, r: nat, buffer: string)
    requires done < |name| && Decoding(name, e, done, r, buffer)
    requires r + |EncodeChar(name[done])| <= |e|
    requires forall i | 0 <= i < |EncodeChar(name[done])| :: e[r + i] == EncodeChar(name[done])[i]
    ensures var next, r' := DecodedBuffer(name[done], buffer, done), r + |EncodeChar(name[done])|;
      DecodeFrom(buffer, r, done) == DecodeFrom(next, r', done + 1) && Decoding(name, e, done + 1, r', next)
  {
    assert buffer[r] == e[r] == EncodeChar(name[done])[0];
    if |EncodeChar(name[done])| == 2 {
      assert buffer[r + 1] == e[r + 1] == EncodeChar(name[done])[1];
    }
  }

  ghost predicate IsDecodedName(name: string, e: string, d: string) {
    |d| == |name| <= |e| && forall i | 0 <= i < |name| :: d[i] == DecodedChar(name, e, i)
  }

  lemma DecodeLast(name: string, e: string, buffer: string)
    requires Decoding(name, e, |name|, |e|, buffer)
    ensures IsDecodedName(name, e, DecodeFrom(buffer, |e|, |name|))
  {
  }

  lemma DecodeOne(name: string, e: string, done: nat, r: nat, buffer: string) returns (next: string, r': nat)
    requires done < |name| && Decoding(name, e, done, r, buffer)
    requires e == Encode(name) && r == Offset(name, done)
    ensures Decoding(name, e, done + 1, r', next) && r' == Offset(name, done + 1)
    ensures DecodeFrom(buffer, r, done) == DecodeFrom(next, r', done + 1)
  {
    EncodeAt(name, done);
    DecodingNext(name, e, done, r, buffer);
    next, r' := DecodedBuffer(name[done], buffer, done), r + |EncodeChar(name[done])|;
  }

  lemma {:induction false} DecodeStep(name: string, e: string, done: nat, r: nat, buffer: string)
    requires Decoding(name, e, done, r, buffer) && r == Offset(name, done)
    requires e == Encode(name) && Offset(name, |name|) == |e|
    ensures IsDecodedName(name, e, DecodeFrom(buffer, r, done))
    decreases |name| - done
  {
    hide DecodeFrom, IsDecodedName;
    if done == |name| {
      DecodeLast(name, e, buffer);
    } else {
      var next, r' := DecodeOne(name, e, done, r, buffer);
      DecodeStep(name, e, done + 1, r', next);
    }
  }

  /** Decoding an escaped name keeps its length and yields DecodedChar at every position. */
  lemma DecodeEncode(name: string)
    ensures IsDecodedName(name, Encode(name), Decode(Encode(name)))
  {
    assert name[..|name|] == name;
    OffsetIsLength(name, |name|);
    EncodeLength(name);
    DecodeStep(name, Encode(name), 0, 0, Encode(name));
  }

  /** No '/', and every character after the first '~' already stands where the escaped text has it. */
  predicate SurvivesDecoding(name: string) {
    '/' !in name && forall i | 0 <= i < |name| :: name[i] == '~' || CharAt(Encode(name), i) == name[i]
  }

  /** decode_pointer_inplace undoes the escaping exactly on these names. */
  lemma DecodeUndoesEncode(name: string)
    ensures Decode(Encode(name)) == name <==> SurvivesDecoding(name)
  {
    DecodeEncode(name);
    EncodeHasNoSlash(name);
    EncodeLength(name);
    if '/' in name {
      var i := FirstSlash(name);
      assert Decode(Encode(name))[i] == Encode(name)[i] != name[i];
    }
  }

  lemma FirstSlash(name: string) returns (i: nat)
    requires '/' in name
    ensures i < |name| && name[i] == '/' && '/' !in name[..i]
  {
    i := 0;
    while name[i] != '/'
      invariant i < |name| && '/' !in name[..i]
      invariant '/' in name[i..]
      decreases |name| - i
    {
      assert name[i..] == [name[i]] + name[i + 1..];
      i := i + 1;
    }
  }

  lemma {:induction false} PlainNamesAreNotEscaped(name: string)
    requires '~' !in name && '/' !in name
    ensures Encode(name) == name && SurvivesDecoding(name)
  {
    if name != "" {
      PlainNamesAreNotEscaped(name[1..]);
    }
  }
}
