/** Places in a tree, as child positions from the root, and the pointers that lead to them. */
module Locations {
  import opened CStrings
  import opened JsonTree
  import opened Numbers
  import opened Pointers
  import opened Members

  type Location = seq<nat>

  function ChildCount(j: Json): nat {
    match j
    case Array(items) => |items|
    case Object(ms) => |ms|
    case _ => 0
  }

  function Child(j: Json, i: nat): (c: Json)
    requires i < ChildCount(j)
    ensures c < j
  {
    match j
    case Array(items) => items[i]
    case Object(ms) => ms[i].value
  }

  function WithChild(j: Json, i: nat, c: Json): (r: Json)
    requires i < ChildCount(j)
    ensures ChildCount(r) == ChildCount(j) && Child(r, i) == c
  {
    match j
    case Array(items) => Array(items[i := c])
    case Object(ms) => Object(ms[i := Member(ms[i].key, c)])
  }

  predicate IsLocation(j: Json, at: Location)
    decreases |at|
  {
    at == [] || (at[0] < ChildCount(j) && IsLocation(Child(j, at[0]), at[1..]))
  }

  function At(j: Json, at: Location): Json
    requires IsLocation(j, at)
    decreases |at|
  {
    if at == [] then j else At(Child(j, at[0]), at[1..])
  }

  function Put(j: Json, at: Location, v: Json): Json
    requires IsLocation(j, at)
    decreases |at|
  {
    if at == [] then v else WithChild(j, at[0], Put(Child(j, at[0]), at[1..], v))
  }

  // ---------- array indices in pointers

  /**
   decode_array_index_from_pointer.  Its loop tests the first character, not the current one, against '9',
   so after a digit any character from '0' on is taken for a digit.
   */
  function DecodeIndex(p: string): Option<nat> {
    if CharAt(p, 0) == '0' && CharAt(p, 1) != NUL && CharAt(p, 1) != '/' then None
    else DecodeIndexFrom(p, 0, 0)
  }

  function DecodeIndexFrom(p: string, position: nat, parsed: nat): Option<nat>
    requires position <= |p|
    decreases |p| - position
  {
    if CharAt(p, position) >= '0' && CharAt(p, 0) <= '9' then
      DecodeIndexFrom(p, position + 1, 10 * parsed + (p[position] as int - '0' as int))
    else if CharAt(p, position) != NUL && CharAt(p, position) != '/' then None
    else Some(parsed)
  }

  /** The array-index rule of RFC 6901, section 4: digits without a leading zero. */
  predicate IsArrayIndex(t: string) {
    t != "" && (forall c | c in t :: IsDigit(c)) && (t[0] == '0' ==> |t| == 1)
  }

  /** The tokens on which the loop departs from the rule. */
  predicate IsMisread(t: string) {
    || t == ""
    || (IsDigit(t[0]) && (t[0] == '0' ==> |t| == 1) && (forall c | c in t :: c >= '0') && exists c | c in t :: c > '9')
  }

  lemma {:induction false} DecodeIndexDigits(t: string, rest: string, position: nat, parsed: nat)
    requires t != "" && IsDigit(t[0]) && NulFree(t) && '/' !in t && (rest == "" || rest[0] == '/')
    requires position <= |t|
    ensures var r := DecodeIndexFrom(t + rest, position, parsed);
      && (r.Some? <==> forall i | position <= i < |t| :: t[i] >= '0')
      && (AllDigits(t[position..]) ==> r == Some(DecimalValue(t[position..], parsed)))
    decreases |t| - position
  {
    var p := t + rest;
    if position < |t| && t[position] >= '0' {
      var parsed' := 10 * parsed + (p[position] as int - '0' as int);
      DecodeIndexDigits(t, rest, position + 1, parsed');
      assert t[position..][1..] == t[position + 1..];
      assert AllDigits(t[position..]) ==> t[position] in t[position..] && AllDigits(t[position + 1..]);
    } else if position < |t| {
      assert t[position] in t[position..];
      assert t[position] in t;
      assert CharAt(p, position) == t[position];
    }
  }

  /** The index is read as RFC 6901 says on every token except the misread ones, which it accepts. */
  lemma DecodeIndexExact(t: string, rest: string)
    requires NulFree(t) && '/' !in t && (rest == "" || rest[0] == '/')
    ensures IsArrayIndex(t) ==> AllDigits(t) && DecodeIndex(t + rest) == Some(DecimalValue(t, 0))
    ensures !IsArrayIndex(t) ==> (DecodeIndex(t + rest).Some? <==> IsMisread(t))
  {
    var p := t + rest;
    if t == "" {
      assert p == rest;
    } else {
      assert t[0] in t && CharAt(p, 0) == t[0];
      assert |t| > 1 ==> t[1] in t && CharAt(p, 1) == t[1];
      if IsDigit(t[0]) {
        DecodeIndexDigits(t, rest, 0, 0);
        assert t[0..] == t;
        assert forall i | 0 <= i < |t| :: t[i] in t;
        assert (forall c | c in t :: c >= '0') <==> forall i | 0 <= i < |t| :: t[i] >= '0';
        assert (forall c | c in t :: IsDigit(c)) || !(forall c | c in t :: c >= '0') || exists c | c in t :: c > '9';
      }
    }
  }

  /** "1a" is taken for index 59: 'a' counts as the digit 'a' - '0'. */
  lemma MisreadIndexExample()
    ensures !IsArrayIndex("1a") && DecodeIndex("1a") == Some(59)
  {
    assert "1a"[1] == 'a' && 'a' in "1a" && !IsDigit('a');
    calc {
      DecodeIndexFrom("1a", 0, 0);
      DecodeIndexFrom("1a", 1, 1);
      DecodeIndexFrom("1a", 2, 59);
      Some(59);
    }
  }

  lemma DecodeIndexOfDecimal(n: nat, rest: string)
    requires rest == "" || rest[0] == '/'
    ensures DecodeIndex(Decimal(n) + rest) == Some(n)
  {
    var t := Decimal(n);
    DecimalRoundTrip(n);
    assert NUL !in t && '/' !in t;
    DecodeIndexExact(t, rest);
  }

  // ---------- resolving a pointer

  /** Position of the first member whose key matches the next token, or |ms|. */
  function IndexOfToken(cs: bool, ms: seq<Member<Json>>, p: string): (i: nat)
    ensures i <= |ms|
    ensures i < |ms| ==> ComparePointers(ms[i].key, p, cs)
    ensures forall j | 0 <= j < i :: !ComparePointers(ms[j].key, p, cs)
  {
    if ms == [] || ComparePointers(ms[0].key, p, cs) then 0 else 1 + IndexOfToken(cs, ms[1..], p)
  }

  /** The child that the next token of p selects. */
  function Step(cs: bool, j: Json, p: string): (r: Option<nat>)
    ensures r.Some? ==> r.value < ChildCount(j)
  {
    match j
    case Array(items) =>
      var index := DecodeIndex(p);
      if index.Some? && index.value < |items| then index else None
    case Object(ms) =>
      var i := IndexOfToken(cs, ms, p);
      if i < |ms| then Some(i) else None
    case _ => None
  }

  /** get_item_from_pointer: the location it walks to, if any. */
  function Resolve(cs: bool, j: Json, p: string): (r: Option<Location>)
    ensures r.Some? ==> IsLocation(j, r.value)
    decreases |p|
  {
    if p == "" || p[0] != '/' then Some([])
    else
      var step := Step(cs, j, p[1..]);
      if step.None? then None
      else
        var below := Resolve(cs, Child(j, step.value), AfterToken(p[1..]));
        if below.None? then None else Some([step.value] + below.value)
  }

  /** The token that cJSONUtils_FindPointerFromObjectTo writes for child i. */
  function TokenFor(j: Json, i: nat): string
    requires i < ChildCount(j)
  {
    match j
    case Array(_) => Decimal(i)
    case Object(ms) => Encode(ms[i].key)
  }

  function PointerTo(j: Json, at: Location): string
    requires IsLocation(j, at)
    decreases |at|
  {
    if at == [] then "" else "/" + TokenFor(j, at[0]) + PointerTo(Child(j, at[0]), at[1..])
  }

  lemma TokenForHasNoSlash(j: Json, i: nat)
    requires i < ChildCount(j)
    ensures '/' !in TokenFor(j, i)
  {
    if j.Object? { EncodeHasNoSlash(j.members[i].key); }
  }

  lemma {:induction false} TokenIndex(cs: bool, ms: seq<Member<Json>>, key: string, rest: string)
    requires rest == "" || rest[0] == '/'
    ensures IndexOfToken(cs, ms, Encode(key) + rest) == IndexOf(cs, ms, key)
  {
    hide Fold, ComparePointers, Encode;
    var i := IndexOfToken(cs, ms, Encode(key) + rest);
    forall k | 0 <= k < |ms| ensures ComparePointers(ms[k].key, Encode(key) + rest, cs) <==> KeyEq(cs, ms[k].key, key) {
      ComparesWithEncoded(ms[k].key, key, rest, cs);
    }
    IndexOfIs(cs, ms, key, i);
  }

  /** The token of child i leads to the first child whose key equals that child's key. */
  lemma StepOfToken(cs: bool, j: Json, i: nat, rest: string)
    requires i < ChildCount(j) && (rest == "" || rest[0] == '/')
    ensures j.Array? ==> Step(cs, j, TokenFor(j, i) + rest) == Some(i)
    ensures j.Object? ==> Step(cs, j, TokenFor(j, i) + rest) == Some(IndexOf(cs, j.members, j.members[i].key))
  {
    if j.Array? {
      DecodeIndexOfDecimal(i, rest);
    } else {
      TokenIndex(cs, j.members, j.members[i].key, rest);
      assert KeyEq(cs, j.members[i].key, j.members[i].key);
    }
  }

  /** On the way to `at`, no member is hidden behind an earlier one with an equal key. */
  predicate IsVisible(cs: bool, j: Json, at: Location)
    requires IsLocation(j, at)
    decreases |at|
  {
    at == [] ||
    ((j.Object? ==> IndexOf(cs, j.members, j.members[at[0]].key) == at[0]) && IsVisible(cs, Child(j, at[0]), at[1..]))
  }

  lemma {:induction false} PointerToStarts(j: Json, at: Location)
    requires IsLocation(j, at)
    ensures PointerTo(j, at) == "" || PointerTo(j, at)[0] == '/'
  {
  }

  function Below(i: nat, below: Option<Location>): (r: Option<Location>)
    ensures below.Some? ==> r.Some? && r.value != [] && r.value[0] == i && r.value[1..] == below.value
    ensures below.None? ==> r.None?
  {
    if below.None? then None else Some([i] + below.value)
  }

  lemma ResolveStep(cs: bool, j: Json, t: string, rest: string)
    requires '/' !in t && (rest == "" || rest[0] == '/')
    ensures var step := Step(cs, j, t + rest);
      Resolve(cs, j, "/" + t + rest) ==
      if step.None? then None else Below(step.value, Resolve(cs, Child(j, step.value), rest))
  {
    var p := "/" + t + rest;
    assert p[1..] == t + rest;
    TokenOf(t, rest);
  }

  /** Resolving the pointer built for a node returns that very node exactly when no earlier key hides it. */
  lemma {:induction false} FindThenGet(cs: bool, j: Json, at: Location)
    requires IsLocation(j, at)
    ensures Resolve(cs, j, PointerTo(j, at)) == Some(at) <==> IsVisible(cs, j, at)
    decreases |at|
  {
    if at != [] {
      var c, t := Child(j, at[0]), TokenFor(j, at[0]);
      var rest := PointerTo(c, at[1..]);
      PointerToStarts(c, at[1..]);
      TokenForHasNoSlash(j, at[0]);
      StepOfToken(cs, j, at[0], rest);
      ResolveStep(cs, j, t, rest);
      FindThenGet(cs, c, at[1..]);
      assert at == [at[0]] + at[1..];
    }
  }

  lemma {:induction false} UniqueIsVisible(cs: bool, j: Json, at: Location)
    requires IsLocation(j, at) && Unique(cs, j)
    ensures IsVisible(cs, j, at)
    decreases |at|
  {
    if at != [] {
      UniqueIsVisible(cs, Child(j, at[0]), at[1..]);
    }
  }
}
