/** What the tokens of a pointer mean (RFC 6901, sections 3 and 4), token by token. */
module PointerTokens {
  import opened CStrings
  import opened JsonTree
  import opened Numbers
  import opened Pointers
  import opened Locations

  /** Section 3: '~' is written "~0" and '/' is written "~1", one character after the other. */
  lemma {:induction false} EscapedByCharacters(a: string, c: char, b: string)
    ensures Encode("") == "" && Encode("~") == "~0" && Encode("/") == "~1"
    ensures c != '~' && c != '/' ==> Encode([c]) == [c]
    ensures Encode(a + [c] + b) == Encode(a) + Encode([c]) + Encode(b)
  {
    EncodeAppend(a + [c], b);
    EncodeAppend(a, [c]);
    assert "~" == ['~'] && "/" == ['/'];
    assert Encode(['~']) == EncodeChar('~') + Encode("") && Encode(['/']) == EncodeChar('/') + Encode("");
    assert Encode([c]) == EncodeChar(c) + Encode("");
  }

  /** Any text without a leading slash leads to the whole document, not only the empty pointer. */
  lemma NoSlashIsTheRoot(cs: bool, j: Json, p: string)
    requires p == "" || p[0] != '/'
    ensures Resolve(cs, j, p) == Some([])
  {
  }

  /** The first member whose escaped name is the token, under the flag. */
  ghost predicate IsMemberFor(cs: bool, ms: seq<Member<Json>>, t: string, i: nat) {
    && i < |ms| && Fold(cs, t) == Encode(Fold(cs, ms[i].key))
    && forall k | 0 <= k < i :: Fold(cs, t) != Encode(Fold(cs, ms[k].key))
  }

  /** Child i is the one that the token names. */
  ghost predicate IsChildFor(cs: bool, j: Json, t: string, i: nat) {
    match j
    case Array(items) => i < |items| && DecodeIndex(t) == Some(i)
    case Object(ms) => IsMemberFor(cs, ms, t, i)
    case _ => false
  }

  lemma {:induction false} IndexEndsAtSlash(t: string, rest: string, position: nat, parsed: nat)
    requires '/' !in t && (rest == "" || rest[0] == '/') && position <= |t|
    ensures DecodeIndexFrom(t + rest, position, parsed) == DecodeIndexFrom(t, position, parsed)
    decreases |t| - position
  {
    var p := t + rest;
    assert position < |t| ==> p[position] == t[position] && t[position] in t;
    assert t != "" ==> p[0] == t[0];
    if position < |t| && t[position] >= '0' {
      IndexEndsAtSlash(t, rest, position + 1, 10 * parsed + (p[position] as int - '0' as int));
    }
  }

  lemma IndexOfTokenAlone(t: string, rest: string)
    requires '/' !in t && (rest == "" || rest[0] == '/')
    ensures DecodeIndex(t + rest) == DecodeIndex(t)
  {
    IndexEndsAtSlash(t, rest, 0, 0);
    hide DecodeIndexFrom;
    var p := t + rest;
    assert forall i | 0 <= i < |t| :: t[i] in t && p[i] == t[i];
  }

  lemma {:induction false} StepExact(cs: bool, j: Json, t: string, rest: string, i: nat)
    requires '/' !in t && (rest == "" || rest[0] == '/')
    ensures IsChildFor(cs, j, t, i) <==> Step(cs, j, t + rest) == Some(i)
  {
    hide DecodeIndex, ComparePointers, Fold, Encode;
    if j.Array? {
      IndexOfTokenAlone(t, rest);
    } else if j.Object? {
      TokenOf(t, rest);
      var ms := j.members;
      forall k | 0 <= k < |ms| ensures ComparePointers(ms[k].key, t + rest, cs) <==> Fold(cs, t) == Encode(Fold(cs, ms[k].key)) {
        ComparePointersExact(ms[k].key, t + rest, cs);
      }
    }
  }

  /** Section 4: a token selects the child that it names, and the rest of the pointer goes on from there. */
  lemma {:induction false} TokenSelects(cs: bool, j: Json, t: string, rest: string, i: nat)
    requires '/' !in t && (rest == "" || rest[0] == '/') && IsChildFor(cs, j, t, i)
    ensures i < ChildCount(j)
    ensures var below := Resolve(cs, Child(j, i), rest);
      Resolve(cs, j, "/" + t + rest) == if below.None? then None else Some([i] + below.value)
  {
    hide Resolve, Step, IsChildFor, Child;
    StepExact(cs, j, t, rest, i);
    ResolveStep(cs, j, t, rest);
    assert Step(cs, j, t + rest).value < ChildCount(j);
    var below := Resolve(cs, Child(j, i), rest);
    if below.Some? { assert Below(i, below) == Some([i] + below.value); }
  }

  /** And a token that names no child leads nowhere. */
  lemma {:induction false} TokenSelectsNothing(cs: bool, j: Json, t: string, rest: string)
    requires '/' !in t && (rest == "" || rest[0] == '/')
    requires forall i: nat :: !IsChildFor(cs, j, t, i)
    ensures Resolve(cs, j, "/" + t + rest).None?
  {
    hide Resolve, Step, IsChildFor;
    ResolveStep(cs, j, t, rest);
    var step := Step(cs, j, t + rest);
    if step.Some? { StepExact(cs, j, t, rest, step.value); }
  }

  lemma {:induction false} StepAlone(cs: bool, j: Json, t: string, a: string, b: string)
    requires '/' !in t && (a == "" || a[0] == '/') && (b == "" || b[0] == '/')
    ensures Step(cs, j, t + a) == Step(cs, j, t + b)
  {
    hide Step, IsChildFor;
    if Step(cs, j, t + a).Some? {
      StepExact(cs, j, t, a, Step(cs, j, t + a).value);
      StepExact(cs, j, t, b, Step(cs, j, t + a).value);
    } else if Step(cs, j, t + b).Some? {
      StepExact(cs, j, t, a, Step(cs, j, t + b).value);
      StepExact(cs, j, t, b, Step(cs, j, t + b).value);
    }
  }

  lemma {:induction false} TokenSplit(p: string)
    ensures p == Token(p) + AfterToken(p) && '/' !in Token(p)
  {
    if p != "" && p[0] != '/' { TokenSplit(p[1..]); }
  }

  lemma Regrouped(first: string, rest: string, t: string)
    ensures "/" + (first + rest) == "/" + first + rest
    ensures "/" + first + rest + "/" + t == "/" + first + (rest + "/" + t)
  {
    assert "/" + first + rest + "/" == "/" + first + (rest + "/");
  }

  lemma FirstToken(p: string, t: string) returns (first: string, rest: string)
    requires p != "" && p[0] == '/'
    ensures |rest| < |p| && '/' !in first && (rest == "" || rest[0] == '/')
    ensures p == "/" + first + rest && p + "/" + t == "/" + first + (rest + "/" + t) && (rest + "/" + t)[0] == '/'
  {
    hide Token, AfterToken;
    first, rest := Token(p[1..]), AfterToken(p[1..]);
    TokenSplit(p[1..]);
    assert p == "/" + p[1..];
    Regrouped(first, rest, t);
  }

  /** One more token at the end of a pointer selects a child of what the pointer leads to. */
  lemma {:induction false} LastTokenSelects(cs: bool, j: Json, p: string, t: string, at: Location, i: nat)
    requires (p == "" || p[0] == '/') && '/' !in t
    requires Resolve(cs, j, p) == Some(at) && IsChildFor(cs, At(j, at), t, i)
    ensures Resolve(cs, j, p + "/" + t) == Some(at + [i])
    decreases |p|
  {
    hide Step, IsChildFor;
    if p == "" {
      assert "" + "/" + t == "/" + t + "";
      TokenSelects(cs, j, t, "", i);
      NoSlashIsTheRoot(cs, Child(j, i), "");
      assert [i] + [] == at + [i];
    } else {
      var first, rest := FirstToken(p, t);
      hide Resolve;
      ResolveStep(cs, j, first, rest);
      ResolveStep(cs, j, first, rest + "/" + t);
      StepAlone(cs, j, first, rest, rest + "/" + t);
      var step := Step(cs, j, first + rest).value;
      assert at == [step] + at[1..];
      LastTokenSelects(cs, Child(j, step), rest, t, at[1..], i);
      assert [step] + (at[1..] + [i]) == at + [i];
    }
  }

  // ---------- tokens that are no escaped name

  /** A '~' that begins no escape. */
  predicate IsStray(tail: string) {
    tail != "" && tail[0] == '~' && (|tail| == 1 || (tail[1] != '0' && tail[1] != '1'))
  }

  /** What decoding leaves behind when it gives up after the name: the rest is not moved up. */
  ghost predicate GivenUp(name: string, e: string, d: string) {
    && |d| == |e| && |name| <= |e|
    && (forall i | 0 <= i < |name| :: d[i] == DecodedChar(name, e, i))
    && forall i | |name| <= i < |e| :: d[i] == if i == |name| && i > 0 && name[i - 1] == '/' then '/' else e[i]
  }

  lemma StrayEnds(name: string, tail: string, buffer: string)
    requires IsStray(tail) && var e := Encode(name) + tail; Decoding(name, e, |name|, |Encode(name)|, buffer)
    ensures GivenUp(name, Encode(name) + tail, DecodeFrom(buffer, |Encode(name)|, |name|))
  {
    var (e, r) := (Encode(name) + tail, |Encode(name)|);
    assert buffer[r] == e[r] == tail[0];
    assert |tail| > 1 ==> buffer[r + 1] == e[r + 1] == tail[1];
    assert DecodeFrom(buffer, r, |name|) == buffer;
    hide DecodeFrom, Encode;
  }

  lemma StrayStep(name: string, tail: string, done: nat, r: nat, buffer: string) returns (next: string, r': nat)
    requires done < |name| && Decoding(name, Encode(name) + tail, done, r, buffer) && r == Offset(name, done)
    ensures Decoding(name, Encode(name) + tail, done + 1, r', next) && r' == Offset(name, done + 1)
    ensures DecodeFrom(buffer, r, done) == DecodeFrom(next, r', done + 1)
  {
    assert done <= r && |buffer| == |Encode(name)| + |tail|;
    hide DecodeFrom, Decoding, Encode;
    var (e, c) := (Encode(name), EncodeChar(name[done]));
    EncodeAt(name, done);
    forall i | 0 <= i < |c| ensures (e + tail)[r + i] == c[i] { assert (e + tail)[r + i] == e[r + i]; }
    DecodingNext(name, e + tail, done, r, buffer);
    next, r' := DecodedBuffer(name[done], buffer, done), r + |c|;
  }

  lemma {:induction false} DecodeUpToStray(name: string, tail: string, done: nat, r: nat, buffer: string)
    requires IsStray(tail) && Decoding(name, Encode(name) + tail, done, r, buffer)
    requires r == Offset(name, done) && Offset(name, |name|) == |Encode(name)|
    ensures GivenUp(name, Encode(name) + tail, DecodeFrom(buffer, r, done))
    decreases |name| - done
  {
    hide DecodeFrom, GivenUp;
    if done == |name| {
      StrayEnds(name, tail, buffer);
    } else {
      var next, r' := StrayStep(name, tail, done, r, buffer);
      DecodeUpToStray(name, tail, done + 1, r', next);
    }
  }

  /** Decoding gives up at a '~' that is not followed by '0' or '1', and keeps the length of the token. */
  lemma DecodeGivesUp(name: string, tail: string)
    requires IsStray(tail)
    ensures GivenUp(name, Encode(name) + tail, Decode(Encode(name) + tail))
  {
    assert name[..|name|] == name;
    OffsetIsLength(name, |name|);
    EncodeLength(name);
    DecodeUpToStray(name, tail, 0, 0, Encode(name) + tail);
  }
}
