/** Exactly when the patches generated for one changed member of an object have their effect. */
module PatchExact {
  import opened CStrings
  import opened JsonTree
  import opened Sequences
  import opened Numbers
  import opened Pointers
  import opened Sorting
  import opened Equality
  import opened Members
  import opened SortingEdits
  import opened Patches
  import opened PatchRoundTrip

  // ---------- equal trees need no patches

  lemma {:induction false} NoPatches(cs: bool, path: string, x: Json)
    ensures CreatePatches(cs, path, x, x) == []
    decreases x, 1, 0
  {
    match x
    case Array(items) => NoArrayPatches(cs, path, x, 0);
    case Object(ms) => NoObjectPatches(cs, path, x, SortedMembers(cs, ms));
    case _ =>
  }

  lemma {:induction false} NoArrayPatches(cs: bool, path: string, x: Json, i: nat)
    requires x.Array? && i <= |x.items|
    ensures ArrayPatches(cs, path, x, x, i) == []
    decreases x, 0, |x.items| - i
  {
    hide CreatePatches, Decimal;
    if i < |x.items| {
      NoPatches(cs, path + "/" + Decimal(i), x.items[i]);
      NoArrayPatches(cs, path, x, i + 1);
    }
  }

  lemma {:induction false} NoObjectPatches(cs: bool, path: string, from: Json, fs: seq<Member<Json>>)
    requires from.Object? && forall i | 0 <= i < |fs| :: fs[i] in from.members
    ensures ObjectPatches(cs, path, from, fs, fs) == []
    decreases from, 0, |fs|
  {
    hide CreatePatches, ChildPath;
    if fs != [] {
      StrCmpZero(Fold(cs, fs[0].key), Fold(cs, fs[0].key));
      NoPatches(cs, ChildPath(path, fs[0].key), fs[0].value);
      NoObjectPatches(cs, path, from, fs[1..]);
    }
  }

  // ---------- two sorted lists that differ in one member

  /** The walk passes a member that both lists begin with. */
  lemma {:induction false} SkipHead(cs: bool, from: Json, fs: seq<Member<Json>>, ts: seq<Member<Json>>)
    requires from.Object? && forall i | 0 <= i < |fs| :: fs[i] in from.members
    requires fs != [] && ts != [] && fs[0] == ts[0]
    ensures ObjectPatches(cs, "", from, fs, ts) == ObjectPatches(cs, "", from, fs[1..], ts[1..])
  {
    hide CreatePatches, ChildPath;
    StrCmpZero(Fold(cs, fs[0].key), Fold(cs, fs[0].key));
    NoPatches(cs, ChildPath("", fs[0].key), fs[0].value);
  }

  lemma {:induction false} RemovedHead(cs: bool, from: Json, fs: seq<Member<Json>>)
    requires from.Object? && forall i | 0 <= i < |fs| :: fs[i] in from.members
    requires StrictlySorted(cs, fs) && fs != []
    ensures ObjectPatches(cs, "", from, fs, fs[1..]) == [Edit(Remove, ChildPath("", fs[0].key), None)]
  {
    hide CompareStrings, ChildPath, CreatePatches;
    assert |fs| > 1 ==> CompareStrings(cs, fs[0].key, fs[1].key) < 0;
    hide StrictlySorted;
    NoObjectPatches(cs, "", from, fs[1..]);
  }

  lemma {:induction false} RemovedOne(cs: bool, from: Json, fs: seq<Member<Json>>, j: nat)
    requires from.Object? && forall i | 0 <= i < |fs| :: fs[i] in from.members
    requires StrictlySorted(cs, fs) && j < |fs|
    ensures ObjectPatches(cs, "", from, fs, Without(fs, j)) == [Edit(Remove, ChildPath("", fs[j].key), None)]
    decreases j
  {
    hide ChildPath, ObjectPatches, StrictlySorted;
    if j == 0 {
      assert Without(fs, 0) == fs[1..];
      RemovedHead(cs, from, fs);
    } else {
      assert Without(fs, j)[1..] == Without(fs[1..], j - 1);
      SkipHead(cs, from, fs, Without(fs, j));
      StrictTail(cs, fs);
      RemovedOne(cs, from, fs[1..], j - 1);
    }
  }

  lemma {:induction false} AddedOne(cs: bool, from: Json, ts: seq<Member<Json>>, j: nat)
    requires StrictlySorted(cs, ts) && j < |ts|
    requires from.Object? && forall i | 0 <= i < |Without(ts, j)| :: Without(ts, j)[i] in from.members
    ensures ObjectPatches(cs, "", from, Without(ts, j), ts) == [Edit(Add, ChildPath("", ts[j].key), Some(ts[j].value))]
    decreases j
  {
    hide StrCmp, Fold, ChildPath;
    var fs := Without(ts, j);
    if j == 0 {
      assert fs == ts[1..];
      if fs != [] { StrCmpAntisymmetric(Fold(cs, ts[0].key), Fold(cs, fs[0].key)); }
      NoObjectPatches(cs, "", from, ts[1..]);
    } else {
      assert fs[1..] == Without(ts[1..], j - 1);
      SkipHead(cs, from, fs, ts);
      AddedOne(cs, from, ts[1..], j - 1);
    }
  }

  lemma {:induction false} ChangedOne(cs: bool, from: Json, fs: seq<Member<Json>>, j: nat, v: Json)
    requires from.Object? && forall i | 0 <= i < |fs| :: fs[i] in from.members
    requires j < |fs| && Replaced(fs[j].value, v)
    ensures ObjectPatches(cs, "", from, fs, fs[j := Member(fs[j].key, v)]) == [Edit(Replace, ChildPath("", fs[j].key), Some(v))]
    decreases j
  {
    hide StrCmp, Fold, ChildPath;
    var ts := fs[j := Member(fs[j].key, v)];
    if j == 0 {
      assert ts[1..] == fs[1..];
      StrCmpZero(Fold(cs, fs[0].key), Fold(cs, fs[0].key));
      NoObjectPatches(cs, "", from, fs[1..]);
    } else {
      assert ts[1..] == fs[1..][j - 1 := Member(fs[j].key, v)];
      SkipHead(cs, from, fs, ts);
      ChangedOne(cs, from, fs[1..], j - 1, v);
    }
  }

  // ---------- one generated edit

  lemma {:induction false} RemovalPatch(cs: bool, ms: seq<Member<Json>>, i: nat)
    requires UniqueKeys(cs, ms) && i < |ms|
    ensures CreatePatches(cs, "", Object(ms), Object(Without(ms, i))) == [Edit(Remove, ChildPath("", ms[i].key), None)]
  {
    hide ChildPath, MergeSort, UniqueKeys, StrictlySorted, Without, ObjectPatches;
    var j := SortWithout(cs, ms, i);
    SortFacts(cs, ms);
    RemovedOne(cs, Object(ms), SortedMembers(cs, ms), j);
  }

  lemma {:induction false} ReplacementPatch(cs: bool, ms: seq<Member<Json>>, i: nat, v: Json)
    requires UniqueKeys(cs, ms) && i < |ms| && Replaced(ms[i].value, v)
    ensures CreatePatches(cs, "", Object(ms), Object(ms[i := Member(ms[i].key, v)])) == [Edit(Replace, ChildPath("", ms[i].key), Some(v))]
  {
    hide ChildPath, MergeSort, UniqueKeys, StrictlySorted, ObjectPatches, Replaced;
    var j := SortChanged(cs, ms, i, v);
    ChangedOne(cs, Object(ms), SortedMembers(cs, ms), j, v);
  }

  lemma {:induction false} AdditionPatch(cs: bool, ms: seq<Member<Json>>, m: Member<Json>)
    requires UniqueKeys(cs, ms + [m])
    ensures CreatePatches(cs, "", Object(ms), Object(ms + [m])) == [Edit(Add, ChildPath("", m.key), Some(m.value))]
  {
    hide ChildPath, MergeSort, UniqueKeys, StrictlySorted, ObjectPatches;
    var ns := ms + [m];
    assert Without(ns, |ms|) == ms;
    hide Without;
    var j := SortWithout(cs, ns, |ms|);
    SortFacts(cs, ns);
    var (fs, ts) := (SortedMembers(cs, ms), SortedMembers(cs, ns));
    assert fs == Without(ts, j) && ts[j] == m;
    AddedOne(cs, Object(ms), ts, j);
  }

  lemma {:induction false} ApplyOneEdit(cs: bool, from: Json, to: Json, e: Edit)
    requires CreatePatches(cs, "", from, to) == [e]
    ensures ApplyPatches(cs, from, GeneratePatches(cs, from, to)) == Perform(cs, from, e)
  {
    hide Perform, ApplyPatch, CreatePatches;
    ApplyDocuments(cs, from, [e]);
    assert [e][1..] == [];
    var o := Perform(cs, from, e);
    assert o.doc.Some? ==> PerformAll(cs, o.doc.value, []) == Outcome(0, o.doc);
  }

  // ---------- names that decoding spoils

  predicate CaselessChar(c: char) {
    !('A' <= c <= 'Z') && !('a' <= c <= 'z')
  }

  predicate Caseless(s: string) {
    forall i | 0 <= i < |s| :: CaselessChar(s[i])
  }

  lemma {:induction false} CaselessPrefix(s: string, n: nat)
    requires n <= |s| && Caseless(s[..n])
    ensures n <= |Encode(s)| && Caseless(Encode(s)[..n])
  {
    EncodeLength(s);
    assert s == s[..n] + s[n..];
    EncodeAppend(s[..n], s[n..]);
    EncodeLength(s[..n]);
    CaselessEncode(s[..n]);
    assert forall i | 0 <= i < n :: Encode(s)[i] == Encode(s[..n])[i];
  }

  lemma {:induction false} CaselessEncode(s: string)
    requires Caseless(s)
    ensures Caseless(Encode(s))
  {
    if s != "" {
      CaselessEncode(s[1..]);
    }
  }

  lemma {:induction false} PlainStart(s: string, n: nat)
    requires n <= |s| && '~' !in s[..n] && '/' !in s[..n]
    ensures Encode(s) == s[..n] + Encode(s[n..])
  {
    assert s == s[..n] + s[n..];
    EncodeAppend(s[..n], s[n..]);
    PlainNamesAreNotEscaped(s[..n]);
  }

  /** Behind the first '~' a name without '/' that decodes to itself up to case has no letters. */
  lemma {:induction false} CaselessTail(rest: string, k: nat)
    requires k <= |rest|
    requires forall i | 0 <= i < |rest| && rest[i] != '~' :: i <= |Encode(rest)| && ToLower(("0" + Encode(rest))[i]) == ToLower(rest[i])
    ensures Caseless(rest[..k])
    ensures forall i | 0 <= i < k && rest[i] != '~' :: i <= |Encode(rest)| && ("0" + Encode(rest))[i] == rest[i]
    decreases k
  {
    if k > 0 {
      var i := k - 1;
      CaselessTail(rest, i);
      if rest[i] != '~' {
        CaselessPrefix(rest, i);
        if i > 0 { assert ("0" + Encode(rest))[i] == Encode(rest)[..i][i - 1]; }
        assert CaselessChar(("0" + Encode(rest))[i]);
      }
      assert forall m | 0 <= m < i :: rest[..k][m] == rest[..i][m];
    }
  }

  /** A name that does not survive decoding does not even come back up to case. */
  lemma {:induction false} DecodedUpToCase(name: string)
    ensures KeyEq(false, Decode(Encode(name)), name) ==> SurvivesDecoding(name)
  {
    var d := Decode(Encode(name));
    DecodeEncode(name);
    hide Decode;
    if '/' in name {
      SpoiledSlash(name, d);
    } else if KeyEq(false, d, name) {
      assert forall i | 0 <= i < |name| :: ToLower(d[i]) == Lower(d)[i] == Lower(name)[i] == ToLower(name[i]);
      SpoiledTail(name, d);
    }
  }

  lemma {:induction false} SpoiledSlash(name: string, d: string)
    requires '/' in name && IsDecodedName(name, Encode(name), d)
    ensures !KeyEq(false, d, name)
  {
    EncodeHasNoSlash(name);
    var i := FirstSlash(name);
    if i > 0 { assert name[..i][i - 1] != '/'; }
    assert d[i] == Encode(name)[i] != '/';
    assert Lower(d)[i] != Lower(name)[i];
  }

  /** Where the first '~' stands, and the escaped name before and behind it. */
  lemma {:induction false} TildeSplit(name: string) returns (n: nat)
    requires '/' !in name && '~' in name
    ensures n < |name| && name[n] == '~' && |name| <= |Encode(name)|
    ensures forall i | 0 <= i < n :: Encode(name)[i] == name[i] && name[i] != '~'
    ensures |name[n + 1..]| <= |Encode(name[n + 1..])|
    ensures forall i | n < i < |name| :: Encode(name)[i] == ("0" + Encode(name[n + 1..]))[i - n - 1]
  {
    n := FirstTilde(name);
    var rest := name[n + 1..];
    assert forall i | 0 <= i < n :: name[i] == name[..n][i] && name[i] in name;
    PlainStart(name, n);
    assert name[n..] == ['~'] + rest;
    assert Encode(name[n..]) == "~0" + Encode(rest);
    assert Encode(name) == (name[..n] + "~") + ("0" + Encode(rest));
    EncodeLength(rest);
    EncodeLength(name);
  }

  lemma {:induction false} SpoiledTail(name: string, d: string)
    requires '/' !in name && IsDecodedName(name, Encode(name), d)
    requires forall i | 0 <= i < |name| :: ToLower(d[i]) == ToLower(name[i])
    ensures SurvivesDecoding(name)
  {
    hide ToLower, Encode;
    var e := Encode(name);
    if '~' !in name {
      PlainNamesAreNotEscaped(name);
    } else {
      var n := TildeSplit(name);
      var rest := name[n + 1..];
      var tail := "0" + Encode(rest);
      forall i | 0 <= i < |rest| && rest[i] != '~' ensures ToLower(tail[i]) == ToLower(rest[i]) {
        assert name[n + 1 + i] == rest[i] && e[n + 1 + i] == tail[i] && name[n + i] in name;
        assert d[n + 1 + i] == e[n + 1 + i];
      }
      CaselessTail(rest, |rest|);
      forall i | 0 <= i < |name| && name[i] != '~' ensures e[i] == name[i] {
        if i > n { assert rest[i - n - 1] == name[i] && e[i] == tail[i - n - 1]; }
      }
    }
  }

  lemma FirstTilde(name: string) returns (i: nat)
    requires '~' in name
    ensures i < |name| && name[i] == '~' && '~' !in name[..i]
  {
    i := 0;
    while name[i] != '~'
      invariant i < |name| && '~' !in name[..i]
      invariant '~' in name[i..]
      decreases |name| - i
    {
      assert name[i..] == [name[i]] + name[i + 1..];
      i := i + 1;
    }
  }

  // ---------- what the edit does when its key is hidden or spoiled

  lemma {:induction false} NotSame(cs: bool, ms: seq<Member<Json>>, ns: seq<Member<Json>>, key: string)
    requires !SameLookup(cs, ms, ns, key)
    ensures !Same(cs, Object(ms), Object(ns))
  {
    SameByLookups(cs, ms, ns);
  }

  lemma {:induction false} PerformMiss(cs: bool, doc: Json, op: Change, t: string, v: Option<Json>)
    requires '/' !in t && ChildToDetach(doc, Decode(t)).None? && op != Add
    ensures Perform(cs, doc, Edit(op, "/" + t, v)) == Outcome(13, Some(doc))
  {
    hide SplitLast, Decode, ChildToDetach;
    SplitLastOfChild(t);
  }

  /** The search for the decoded key finds the member exactly when its key is visible and survives. */
  lemma {:induction false} HitExact(cs: bool, ms: seq<Member<Json>>, i: nat)
    requires UniqueKeys(cs, ms) && i < |ms|
    ensures IndexOf(cs, ms, ms[i].key) == i
    ensures IndexOf(false, ms, Decode(Encode(ms[i].key))) == i
      <==> Visible(cs, ms, ms[i].key) && SurvivesDecoding(ms[i].key)
  {
    hide SurvivesDecoding, Decode, Fold;
    IndexOfOwnKey(cs, ms, i);
    DecodeUndoesEncode(ms[i].key);
    DecodedUpToCase(ms[i].key);
  }

  lemma {:induction false} RemovalExact(cs: bool, ms: seq<Member<Json>>, i: nat)
    requires UniqueKeys(cs, ms) && i < |ms|
    ensures Achieves(cs, Perform(cs, Object(ms), Edit(Remove, ChildPath("", ms[i].key), None)), Object(Without(ms, i)))
      <==> Visible(cs, ms, ms[i].key) && SurvivesDecoding(ms[i].key)
  {
    hide Perform, Decode, Encode, Visible, SurvivesDecoding, Same, Fold;
    var k := ms[i].key;
    var r := IndexOf(false, ms, Decode(Encode(k)));
    HitExact(cs, ms, i);
    EncodeHasNoSlash(k);
    assert ChildPath("", k) == "/" + Encode(k);
    if r == |ms| {
      PerformMiss(cs, Object(ms), Remove, Encode(k), None);
    } else {
      PerformRemove(cs, Object(ms), Encode(k), r);
      if r == i { SameReflexive(cs, Object(Without(ms, i))); } else { LostRemoval(cs, ms, i, r); }
    }
  }

  lemma {:induction false} LostRemoval(cs: bool, ms: seq<Member<Json>>, i: nat, r: nat)
    requires UniqueKeys(cs, ms) && i < |ms| && r < |ms| && r != i
    ensures !Same(cs, Object(Without(ms, r)), Object(Without(ms, i)))
  {
    hide Fold;
    var k := ms[i].key;
    IndexOfOwnKey(cs, ms, i);
    IndexOfWithout(cs, ms, r, k);
    RemoveKeyUnique(cs, ms, k);
    NotSame(cs, Without(ms, r), Without(ms, i), k);
  }

  lemma {:induction false} ReplacementExact(cs: bool, ms: seq<Member<Json>>, i: nat, v: Json)
    requires UniqueKeys(cs, ms) && i < |ms| && Replaced(ms[i].value, v)
    ensures Achieves(cs, Perform(cs, Object(ms), Edit(Replace, ChildPath("", ms[i].key), Some(v))), Object(ms[i := Member(ms[i].key, v)]))
      <==> Visible(cs, ms, ms[i].key) && SurvivesDecoding(ms[i].key)
  {
    hide Perform, Decode, Encode, Visible, SurvivesDecoding, Same, Fold, Replaced, UniqueKeys, Without, RemoveKey;
    var k := ms[i].key;
    var d := Decode(Encode(k));
    var r := IndexOf(false, ms, d);
    HitExact(cs, ms, i);
    EncodeHasNoSlash(k);
    assert ChildPath("", k) == "/" + Encode(k);
    if r == |ms| {
      PerformMiss(cs, Object(ms), Replace, Encode(k), Some(v));
    } else {
      PerformReplace(cs, Object(ms), Encode(k), r, v);
      DecodeUndoesEncode(k);
      if r == i {
        MovedMember(cs, ms, i, v);
      } else if SurvivesDecoding(k) {
        LostMember(cs, ms, i, r, v);
      } else {
        DecodedUpToCase(k);
        OldValue(cs, ms, i, r, v, d);
      }
    }
  }

  /** Replacing takes the member out and appends it. */
  lemma {:induction false} MovedMember(cs: bool, ms: seq<Member<Json>>, i: nat, v: Json)
    requires UniqueKeys(cs, ms) && i < |ms|
    ensures var k := ms[i].key; Same(cs, Object(RemoveKey(cs, Without(ms, i), k) + [Member(k, v)]), Object(ms[i := Member(k, v)]))
  {
    hide Fold, Same;
    var k := ms[i].key;
    var (rest, ns) := (RemoveKey(cs, ms, k), ms[i := Member(k, v)]);
    IndexOfOwnKey(cs, ms, i);
    RemoveKeyUnique(cs, ms, k);
    SameByLookups(cs, rest + [Member(k, v)], ns);
    forall key: string ensures SameLookup(cs, rest + [Member(k, v)], ns, key) {
      ReplacedLookup(cs, ms, Member(k, v), key);
      UpdatedInPlaceAt(cs, ms, k, i, v, key);
      ReflexiveLookup(cs, ns, key);
    }
  }

  lemma {:induction false} ReflexiveLookup(cs: bool, ms: seq<Member<Json>>, key: string)
    ensures SameLookup(cs, ms, ms, key)
  {
    SameReflexive(cs, Object(ms));
    SameByLookups(cs, ms, ms);
  }

  /** The wrong member was taken out, and the right one appended. */
  lemma {:induction false} LostMember(cs: bool, ms: seq<Member<Json>>, i: nat, r: nat, v: Json)
    requires UniqueKeys(cs, ms) && i < |ms| && r < |ms| && r != i
    ensures var k := ms[i].key; !Same(cs, Object(RemoveKey(cs, Without(ms, r), k) + [Member(k, v)]), Object(ms[i := Member(k, v)]))
  {
    hide Fold, Same;
    var (k, x) := (ms[i].key, ms[r].key);
    var rest := Without(ms, r);
    IndexOfOwnKey(cs, ms, r);
    RemoveKeyUnique(cs, ms, x);
    assert rest == RemoveKey(cs, ms, x);
    assert !KeyEq(cs, x, k);
    ReplacedLookup(cs, rest, Member(k, v), x);
    UpdatedIndex(cs, ms, i, v, x);
    NotSame(cs, RemoveKey(cs, rest, k) + [Member(k, v)], ms[i := Member(k, v)], x);
  }

  lemma {:induction false} OtherKind(cs: bool, f: Json, t: Json)
    requires Replaced(f, t)
    ensures !Same(cs, f, t)
  {
  }

  lemma {:induction false} KeptLookup(cs: bool, ms: seq<Member<Json>>, i: nat, r: nat, m: Member<Json>)
    requires UniqueKeys(cs, ms) && i < |ms| && r < |ms| && r != i && !KeyEq(cs, ms[i].key, m.key)
    ensures Lookup(cs, RemoveKey(cs, Without(ms, r), m.key) + [m], ms[i].key) == Some(ms[i].value)
  {
    hide Fold;
    IndexOfOwnKey(cs, ms, i);
    IndexOfWithout(cs, ms, r, ms[i].key);
    WithoutKeepsOrder(cs, ms, r);
    hide UniqueKeys, KeyEq;
    ReplacedLookup(cs, Without(ms, r), m, ms[i].key);
  }

  /** The value went to a spoiled key, and the right member kept its old value. */
  lemma {:induction false} OldValue(cs: bool, ms: seq<Member<Json>>, i: nat, r: nat, v: Json, d: string)
    requires UniqueKeys(cs, ms) && i < |ms| && r < |ms| && r != i && Replaced(ms[i].value, v)
    requires !KeyEq(false, d, ms[i].key)
    ensures !Same(cs, Object(RemoveKey(cs, Without(ms, r), d) + [Member(d, v)]), Object(ms[i := Member(ms[i].key, v)]))
  {
    var k := ms[i].key;
    OtherKind(cs, ms[i].value, v);
    assert !KeyEq(cs, k, d);
    hide Fold, Same, Replaced, Without, RemoveKey;
    IndexOfOwnKey(cs, ms, i);
    KeptLookup(cs, ms, i, r, Member(d, v));
    UpdatedIndex(cs, ms, i, v, k);
    hide UniqueKeys;
    NotSame(cs, RemoveKey(cs, Without(ms, r), d) + [Member(d, v)], ms[i := Member(k, v)], k);
  }

  lemma {:induction false} AdditionExact(cs: bool, ms: seq<Member<Json>>, m: Member<Json>)
    requires UniqueKeys(cs, ms + [m])
    ensures Achieves(cs, Perform(cs, Object(ms), Edit(Add, ChildPath("", m.key), Some(m.value))), Object(ms + [m]))
      <==> SurvivesDecoding(m.key)
  {
    hide Perform, Decode, Encode, SurvivesDecoding, Same, Fold;
    var d := Decode(Encode(m.key));
    EncodeHasNoSlash(m.key);
    assert ChildPath("", m.key) == "/" + Encode(m.key);
    PerformAdd(cs, Object(ms), Encode(m.key), m.value);
    DecodeUndoesEncode(m.key);
    AbsentKey(cs, ms, m);
    if d == m.key {
      SameReflexive(cs, Object(ms + [m]));
    } else {
      DecodedUpToCase(m.key);
      SpoiledKey(cs, ms, m, d);
    }
  }

  lemma {:induction false} AbsentKey(cs: bool, ms: seq<Member<Json>>, m: Member<Json>)
    requires UniqueKeys(cs, ms + [m])
    ensures UniqueKeys(cs, ms) && IndexOf(cs, ms, m.key) == |ms| && IndexOf(cs, ms + [m], m.key) == |ms|
  {
    hide Fold;
    assert (ms + [m])[|ms|] == m;
    IndexOfOwnKey(cs, ms + [m], |ms|);
    assert forall i | 0 <= i < |ms| :: ms[i] == (ms + [m])[i];
    IndexOfIs(cs, ms, m.key, |ms|);
  }

  lemma {:induction false} SpoiledKey(cs: bool, ms: seq<Member<Json>>, m: Member<Json>, d: string)
    requires UniqueKeys(cs, ms + [m]) && !KeyEq(false, d, m.key)
    ensures !Same(cs, Object(RemoveKey(cs, ms, d) + [Member(d, m.value)]), Object(ms + [m]))
  {
    assert !KeyEq(cs, m.key, d);
    hide Fold, Same;
    AbsentKey(cs, ms, m);
    ReplacedLookup(cs, ms, Member(d, m.value), m.key);
    NotSame(cs, RemoveKey(cs, ms, d) + [Member(d, m.value)], ms + [m], m.key);
  }

  // ---------- the generated patches

  /** Removing a member comes out right exactly when no other key hides it and its key survives decoding. */
  lemma {:induction false} RemovingKeyExact(cs: bool, ms: seq<Member<Json>>, i: nat)
    requires UniqueKeys(cs, ms) && i < |ms|
    ensures var (doc, to) := (Object(ms), Object(Without(ms, i)));
      Achieves(cs, ApplyPatches(cs, doc, GeneratePatches(cs, doc, to)), to)
      <==> Visible(cs, ms, ms[i].key) && SurvivesDecoding(ms[i].key)
  {
    hide Perform, CreatePatches, Visible, SurvivesDecoding, Same, ChildPath;
    RemovalPatch(cs, ms, i);
    ApplyOneEdit(cs, Object(ms), Object(Without(ms, i)), Edit(Remove, ChildPath("", ms[i].key), None));
    RemovalExact(cs, ms, i);
  }

  /** So does exchanging its value, unless the new value is patched from within. */
  lemma {:induction false} ReplacingKeyExact(cs: bool, ms: seq<Member<Json>>, i: nat, v: Json)
    requires UniqueKeys(cs, ms) && i < |ms| && Replaced(ms[i].value, v)
    ensures var (doc, to) := (Object(ms), Object(ms[i := Member(ms[i].key, v)]));
      Achieves(cs, ApplyPatches(cs, doc, GeneratePatches(cs, doc, to)), to)
      <==> Visible(cs, ms, ms[i].key) && SurvivesDecoding(ms[i].key)
  {
    hide Perform, CreatePatches, Visible, SurvivesDecoding, Same, ChildPath, Replaced;
    var e := Edit(Replace, ChildPath("", ms[i].key), Some(v));
    ReplacementPatch(cs, ms, i, v);
    ApplyOneEdit(cs, Object(ms), Object(ms[i := Member(ms[i].key, v)]), e);
    ReplacementExact(cs, ms, i, v);
  }

  /** Adding a member comes out right exactly when its key survives decoding. */
  lemma {:induction false} AddingKeyExact(cs: bool, ms: seq<Member<Json>>, m: Member<Json>)
    requires UniqueKeys(cs, ms + [m])
    ensures var (doc, to) := (Object(ms), Object(ms + [m]));
      Achieves(cs, ApplyPatches(cs, doc, GeneratePatches(cs, doc, to)), to) <==> SurvivesDecoding(m.key)
  {
    hide Perform, CreatePatches, SurvivesDecoding, Same, ChildPath;
    AdditionPatch(cs, ms, m);
    ApplyOneEdit(cs, Object(ms), Object(ms + [m]), Edit(Add, ChildPath("", m.key), Some(m.value)));
    AdditionExact(cs, ms, m);
  }

  /**
   detach_path ignores the case flag: the patches generated case-sensitively for the removal of one of two keys
   that differ only in case succeed and remove the other one.
   */
  lemma {:induction false} CaseFlagDropped()
    ensures var (doc, to) := (Object([Member("A", Null), Member("a", True)]), Object([Member("A", Null)]));
      ApplyPatches(true, doc, GeneratePatches(true, doc, to)) == Outcome(0, Some(Object([Member("a", True)])))
  {
    hide Perform, CreatePatches;
    var ms := [Member("A", Null), Member("a", True)];
    assert Lower("A") == "a" && Lower("a") == "a";
    assert IndexOf(false, ms, "a") == 0;
    DecodePlain("a");
    assert ChildPath("", "a") == "/" + "a";
    PerformRemove(true, Object(ms), "a", 0);
    assert Without(ms, 0) == [Member("a", True)] && Without(ms, 1) == [Member("A", Null)];
    RemovalPatch(true, ms, 1);
    ApplyOneEdit(true, Object(ms), Object(Without(ms, 1)), Edit(Remove, "/" + "a", None));
  }
}
