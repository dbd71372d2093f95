/** The loops over JSON Pointers, on character buffers as the utilities run them. */
module PointerLoops {
  import opened CStrings
  import opened JsonTree
  import opened Numbers
  import opened Pointers
  import opened Locations

  // ---------- escaping

  lemma EncodeNext(s: string, i: nat)
    requires i < |s|
    ensures Encode(s[..i + 1]) == Encode(s[..i]) + EncodeChar(s[i])
    ensures |Encode(s[..i])| + |EncodeChar(s[i])| <= |Encode(s)|
  {
    assert s[..i + 1] == s[..i] + [s[i]] && s == s[..i + 1] + s[i + 1..];
    EncodeAppend(s[..i], [s[i]]);
    EncodeAppend(s[..i + 1], s[i + 1..]);
    assert Encode([s[i]]) == EncodeChar(s[i]);
  }

  lemma EncodeEnds(s: string)
    ensures Encode(s[..0]) == "" && s[..|s|] == s
  {
  }

  /** pointer_encoded_length: what encode_string_as_pointer writes before its NUL. */
  method PointerEncodedLength(s: string) returns (length: nat)
    ensures length == |Encode(s)|
  {
    hide Encode;
    length := 0;
    EncodeEnds(s);
    for i := 0 to |s|
      invariant length == |Encode(s[..i])|
    {
      EncodeNext(s, i);
      if s[i] == '~' || s[i] == '/' {
        length := length + 1;
      }
      length := length + 1;
    }
  }

  /** encode_string_as_pointer, writing from `at` on: the escaped name and a NUL, and nothing else. */
  method EncodeStringAsPointer(destination: array<char>, at: nat, source: string)
    requires at + |Encode(source)| < destination.Length
    modifies destination
    ensures forall k | 0 <= k < |Encode(source)| :: destination[at + k] == Encode(source)[k]
    ensures destination[at + |Encode(source)|] == NUL
    ensures forall k | 0 <= k < at || at + |Encode(source)| < k < destination.Length :: destination[k] == old(destination[k])
  {
    hide Encode;
    var w: nat := at;
    ghost var done := "";
    EncodeEnds(source);
    for i := 0 to |source|
      invariant done == Encode(source[..i]) && w == at + |done| && |done| <= |Encode(source)|
      invariant forall k | 0 <= k < |done| :: destination[at + k] == done[k]
      invariant forall k | 0 <= k < at || at + |Encode(source)| < k < destination.Length :: destination[k] == old(destination[k])
    {
      EncodeNext(source, i);
      done := done + EncodeChar(source[i]);
      if source[i] == '/' {
        destination[w] := '~';
        destination[w + 1] := '1';
        w := w + 1;
      } else if source[i] == '~' {
        destination[w] := '~';
        destination[w + 1] := '0';
        w := w + 1;
      } else {
        destination[w] := source[i];
      }
      w := w + 1;
    }
    destination[w] := NUL;
  }

  // ---------- comparing

  /** At position i stands the escape of c. */
  predicate IsEscapeOf(p: string, i: nat, c: char) {
    CharAt(p, i) == '~' && ((CharAt(p, i + 1) == '0' && c == '~') || (CharAt(p, i + 1) == '1' && c == '/'))
  }

  lemma CompareStep(name: string, p: string, cs: bool, n: nat, i: nat)
    requires n < |name| && i < |p| && p[i] != '/'
    ensures var here := ComparePointers(name[n..], p[i..], cs);
      if p[i] == '~' then
        if IsEscapeOf(p, i, name[n]) then i + 1 < |p| && here == ComparePointers(name[n + 1..], p[i + 2..], cs) else !here
      else
        here == (FoldChar(cs, name[n]) == FoldChar(cs, p[i]) && ComparePointers(name[n + 1..], p[i + 1..], cs))
  {
    var x, y := name[n..], p[i..];
    assert x[0] == name[n] && y[0] == p[i] && x[1..] == name[n + 1..] && y[1..] == p[i + 1..];
    assert CharAt(y, 1) == CharAt(p, i + 1) && (i + 1 < |p| ==> y[2..] == p[i + 2..]);
  }

  lemma CompareEnd(name: string, p: string, cs: bool, n: nat, i: nat)
    requires n <= |name| && i <= |p| && (n == |name| || i == |p| || p[i] == '/')
    ensures ComparePointers(name[n..], p[i..], cs) <==> ((i < |p| && p[i] != '/') == (n < |name|))
  {
  }

  /** compare_pointers: true exactly when the next token is the escaped name, up to case when folding. */
  method ComparePointerToken(name: string, p: string, cs: bool) returns (equal: bool)
    ensures equal <==> Fold(cs, Token(p)) == Encode(Fold(cs, name))
  {
    hide ComparePointers, Fold, Encode, Token;
    ComparePointersExact(name, p, cs);
    var n, i := 0, 0;
    assert name[0..] == name && p[0..] == p;
    while n < |name| && i < |p| && p[i] != '/'
      invariant n <= |name| && i <= |p|
      invariant ComparePointers(name, p, cs) == ComparePointers(name[n..], p[i..], cs)
      decreases |name| - n
    {
      CompareStep(name, p, cs, n, i);
      if p[i] == '~' {
        if (CharAt(p, i + 1) != '0' || name[n] != '~') && (CharAt(p, i + 1) != '1' || name[n] != '/') {
          return false;
        } else {
          i := i + 1;
        }
      } else if (!cs && ToLower(name[n]) != ToLower(p[i])) || (cs && name[n] != p[i]) {
        return false;
      }
      n, i := n + 1, i + 1;
    }
    CompareEnd(name, p, cs, n, i);
    if (i < |p| && p[i] != '/') != (n < |name|) {
      return false;
    }
    return true;
  }

  // ---------- array indices

  /** decode_array_index_from_pointer, with the loop condition as it is. */
  method DecodeArrayIndex(pointer: string) returns (ok: bool, index: nat)
    ensures ok <==> DecodeIndex(pointer).Some?
    ensures ok ==> index == DecodeIndex(pointer).value
  {
    index := 0;
    if CharAt(pointer, 0) == '0' && CharAt(pointer, 1) != NUL && CharAt(pointer, 1) != '/' {
      return false, 0;
    }
    var parsed: nat, position: nat := 0, 0;
    while CharAt(pointer, position) >= '0' && CharAt(pointer, 0) <= '9'
      invariant position <= |pointer|
      invariant DecodeIndex(pointer) == DecodeIndexFrom(pointer, position, parsed)
      decreases |pointer| - position
    {
      parsed := 10 * parsed + (pointer[position] as int - '0' as int);
      position := position + 1;
    }
    if CharAt(pointer, position) != NUL && CharAt(pointer, position) != '/' {
      return false, 0;
    }
    return true, parsed;
  }

  // ---------- decoding in place

  lemma DecodeNext(buffer: string, r: nat, w: nat)
    requires w <= r <= |buffer|
    ensures DecodeFrom(buffer, r, w) ==
      if r == |buffer| then buffer[..w]
      else if buffer[r] != '~' then DecodeFrom(buffer, r + 1, w + 1)
      else if CharAt(buffer, r + 1) == '0' then DecodeFrom(buffer[w := '~'], r + 2, w + 1)
      else if CharAt(buffer, r + 1) == '1' then DecodeFrom(buffer[w + 1 := '/'], r + 2, w + 1)
      else buffer
  {
  }

  /** The buffer holds the text from the start on, behind it a NUL. */
  ghost predicate Buffered(b: array<char>, text: string)
    reads b
  {
    |text| < b.Length && NUL !in text && b[|text|] == NUL && forall i | 0 <= i < |text| :: b[i] == text[i]
  }

  lemma BufferedIs(b: array<char>, text: string)
    requires Buffered(b, text)
    ensures UpToNul(b[..]) == text
  {
    assert b[..][..|text|] == text;
    NulAt(b[..], |text|);
  }

  lemma BufferedAt(b: array<char>, text: string, r: nat)
    requires Buffered(b, text) && r <= |text|
    ensures r < b.Length && (b[r] == NUL <==> r == |text|)
    ensures r < |text| ==> r + 1 < b.Length && b[r] == text[r] && b[r + 1] == CharAt(text, r + 1)
  {
    assert r < |text| ==> text[r] in text;
  }

  lemma BufferedStart(b: array<char>)
    requires NUL in b[..]
    ensures Buffered(b, UpToNul(b[..]))
  {
  }

  /** What the buffer holds from position n on. */
  ghost function Tail(b: array<char>, n: nat): seq<char>
    requires n <= b.Length
    reads b
  {
    b[n..]
  }

  lemma KeptBehind(b: array<char>, before: seq<char>, n: nat)
    requires n <= b.Length == |before| && Tail(b, n) == before[n..]
    ensures forall i | n <= i < b.Length :: b[i] == before[i]
  {
    forall i | n <= i < b.Length ensures b[i] == before[i] {
      assert b[n..][i - n] == before[n..][i - n];
    }
  }

  lemma KeptTail(b: array<char>, before: seq<char>, n: nat)
    requires n < b.Length == |before| && Tail(b, n) == before[n..]
    ensures Tail(b, n + 1) == before[n + 1..]
  {
    assert b[n + 1..] == b[n..][1..] && before[n + 1..] == before[n..][1..];
  }

  /** decode_pointer_inplace: the string in the buffer becomes what Decode makes of it. */
  method DecodePointerInPlace(b: array<char>)
    requires NUL in b[..]
    modifies b
    ensures UpToNul(b[..]) == Decode(UpToNul(old(b[..])))
    ensures forall i | |UpToNul(old(b[..]))| < i < b.Length :: b[i] == old(b[i])
  {
    ghost var before := b[..];
    ghost var t := UpToNul(before);
    BufferedStart(b);
    assert Decode(t) == DecodeFrom(t, 0, 0);
    assert Tail(b, |t|) == before[|t|..];
    hide DecodeFrom, UpToNul, CharAt, Buffered, Decode, Tail;
    ghost var text := t;
    BufferedAt(b, text, 0);
    var r, w: nat := 0, 0;
    while b[r] != NUL
      invariant w <= r <= |text| == |t| < b.Length && (b[r] == NUL <==> r == |text|)
      invariant Buffered(b, text) && Decode(t) == DecodeFrom(text, r, w)
      invariant Tail(b, |t|) == before[|t|..]
      decreases |text| - r
    {
      DecodeNext(text, r, w);
      BufferedAt(b, text, r);
      if b[r] == '~' {
        var valid;
        valid, text := DecodeEscape(b, text, r, w);
        if !valid {
          BufferedIs(b, text);
          KeptBehind(b, before, |t|);
          return;
        }
        r := r + 1;
      }
      r, w := r + 1, w + 1;
      BufferedAt(b, text, r);
    }
    DecodeNext(text, r, w);
    Finish(b, text, w, before);
  }

  /** The NUL behind what has been decoded. */
  method Finish(b: array<char>, ghost text: string, w: nat, ghost before: seq<char>)
    requires Buffered(b, text) && w <= |text| < b.Length == |before| && Tail(b, |text|) == before[|text|..]
    modifies b
    ensures UpToNul(b[..]) == text[..w]
    ensures forall i | |text| < i < b.Length :: b[i] == before[i]
  {
    hide UpToNul, Buffered, Tail;
    KeptTail(b, before, |text|);
    Cut(b, text, w);
    BufferedIs(b, text[..w]);
    KeptBehind(b, before, |text| + 1);
  }

  /** The two escapes: "~1" is written one position too far. */
  method DecodeEscape(b: array<char>, ghost text: string, r: nat, w: nat) returns (valid: bool, ghost text': string)
    requires Buffered(b, text) && w <= r < |text| < b.Length && text[r] == '~'
    modifies b
    ensures |text'| == |text| && Buffered(b, text') && (valid ==> r + 2 <= |text|)
    ensures DecodeFrom(text, r, w) == if valid then DecodeFrom(text', r + 2, w + 1) else text'
    ensures Tail(b, |text|) == old(Tail(b, |text|))
  {
    hide DecodeFrom, CharAt, Buffered;
    DecodeNext(text, r, w);
    BufferedAt(b, text, r);
    valid, text' := true, text;
    if b[r + 1] == '0' {
      EscapeInside(text, r);
      text' := Overwrite(b, text, w, '~');
    } else if b[r + 1] == '1' {
      EscapeInside(text, r);
      text' := Overwrite(b, text, w + 1, '/');
    } else {
      valid := false;
    }
  }

  method Overwrite(b: array<char>, ghost text: string, w: nat, c: char) returns (ghost text': string)
    requires Buffered(b, text) && w < |text| < b.Length && c != NUL
    modifies b
    ensures text' == text[w := c] && Buffered(b, text')
    ensures Tail(b, |text|) == old(Tail(b, |text|))
  {
    b[w] := c;
    text' := text[w := c];
  }

  method Cut(b: array<char>, ghost text: string, w: nat)
    requires Buffered(b, text) && w <= |text| < b.Length
    modifies b
    ensures Buffered(b, text[..w])
    ensures Tail(b, |text| + 1) == old(Tail(b, |text| + 1))
  {
    b[w] := NUL;
  }

  lemma EscapeInside(text: string, r: nat)
    requires r < |text| && CharAt(text, r + 1) != NUL
    ensures r + 1 < |text|
  {
  }
}
