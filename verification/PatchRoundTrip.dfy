/** Applying the generated patches turns one document into the other. */
module PatchRoundTrip {
  import opened CStrings
  import opened JsonTree
  import opened Sequences
  import opened Numbers
  import opened Pointers
  import opened Locations
  import opened Sorting
  import opened Equality
  import opened Members
  import opened SortingEdits
  import opened Patches

  // ---------- from patch documents to edits

  function PerformAll(cs: bool, doc: Json, edits: seq<Edit>): Outcome
    decreases |edits|
  {
    if edits == [] then Outcome(0, Some(doc))
    else
      var first := Perform(cs, doc, edits[0]);
      if first.status != 0 || first.doc.None? then first else PerformAll(cs, first.doc.value, edits[1..])
  }

  lemma DocumentFields(cs: bool, e: Edit)
    ensures var d := PatchDocument(e);
      && Field(cs, d, "op") == Some(String(ChangeName(e.op)))
      && Field(cs, d, "path") == Some(String(e.path))
      && Field(cs, d, "value") == e.value
  {
    var ms := PatchDocument(e).members;
    assert |"op"| == 2 && |"path"| == 4 && |"value"| == 5;
    assert ms[0] == Member("op", String(ChangeName(e.op))) && ms[1] == Member("path", String(e.path));
    IndexOfIs(cs, ms, "op", 0);
    IndexOfIs(cs, ms, "path", 1);
    IndexOfIs(cs, ms, "value", 2);
  }

  lemma {:induction false} ApplyPatchDocument(cs: bool, doc: Json, e: Edit)
    ensures ApplyPatch(cs, doc, PatchDocument(e)) == Perform(cs, doc, e)
  {
    DocumentFields(cs, e);
    assert DecodeOperation(Some(String(ChangeName(e.op)))) == Do(e.op);
  }

  lemma {:induction false} ApplyDocuments(cs: bool, doc: Json, edits: seq<Edit>)
    ensures ApplyAll(cs, doc, Documents(edits)) == PerformAll(cs, doc, edits)
    decreases |edits|
  {
    if edits != [] {
      ApplyPatchDocument(cs, doc, edits[0]);
      var first := Perform(cs, doc, edits[0]);
      assert Documents(edits)[1..] == Documents(edits[1..]);
      if first.status == 0 && first.doc.Some? { ApplyDocuments(cs, first.doc.value, edits[1..]); }
    }
  }

  lemma {:induction false} PerformAppend(cs: bool, doc: Json, a: seq<Edit>, b: seq<Edit>)
    ensures var o := PerformAll(cs, doc, a);
      PerformAll(cs, doc, a + b) == if o.status == 0 && o.doc.Some? then PerformAll(cs, o.doc.value, b) else o
    decreases |a|
  {
    if a == [] {
      assert a + b == b;
    } else {
      var first := Perform(cs, doc, a[0]);
      assert (a + b)[1..] == a[1..] + b;
      if first.status == 0 && first.doc.Some? { PerformAppend(cs, first.doc.value, a[1..], b); }
    }
  }

  lemma {:induction false} PerformThen(cs: bool, doc: Json, a: seq<Edit>, b: seq<Edit>, next: Json)
    requires PerformAll(cs, doc, a) == Outcome(0, Some(next))
    ensures PerformAll(cs, doc, a + b) == PerformAll(cs, next, b)
  {
    PerformAppend(cs, doc, a, b);
  }

  lemma {:induction false} PerformOne(cs: bool, doc: Json, e: Edit, b: seq<Edit>, next: Json)
    requires Perform(cs, doc, e) == Outcome(0, Some(next))
    ensures PerformAll(cs, doc, [e] + b) == PerformAll(cs, next, b)
  {
    assert PerformAll(cs, next, []) == Outcome(0, Some(next));
    assert [e][1..] == [];
    PerformThen(cs, doc, [e], b, next);
  }

  // ---------- the generated edits: their shape and their paths

  function Prefixed(path: string, edits: seq<Edit>): (r: seq<Edit>)
    ensures |r| == |edits|
    ensures forall i | 0 <= i < |r| :: r[i] == edits[i].(path := path + edits[i].path)
  {
    if edits == [] then [] else [edits[0].(path := path + edits[0].path)] + Prefixed(path, edits[1..])
  }

  /** Every path of these edits goes through a child. */
  predicate Inside(edits: seq<Edit>) {
    forall e | e in edits :: e.path != "" && e.path[0] == '/'
  }

  lemma {:induction false} PrefixedAppend(path: string, a: seq<Edit>, b: seq<Edit>)
    ensures Prefixed(path, a + b) == Prefixed(path, a) + Prefixed(path, b)
  {
  }

  lemma PrefixedTwice(p: string, q: string, edits: seq<Edit>)
    ensures Prefixed(p, Prefixed(q, edits)) == Prefixed(p + q, edits)
  {
    forall i | 0 <= i < |edits| ensures p + (q + edits[i].path) == (p + q) + edits[i].path { }
  }

  lemma {:induction false} CreateIsPrefixed(cs: bool, path: string, from: Json, to: Json)
    ensures CreatePatches(cs, path, from, to) == Prefixed(path, CreatePatches(cs, "", from, to))
    ensures SameKind(from, to) && (from.Array? || from.Object?) ==> Inside(CreatePatches(cs, "", from, to))
    decreases from, 1, 0
  {
    assert path + "" == path;
    if SameKind(from, to) {
      match from
      case Array(items) => ArrayIsPrefixed(cs, path, from, to, 0);
      case Object(ms) => ObjectIsPrefixed(cs, path, from, SortedMembers(cs, ms), SortedMembers(cs, to.members));
      case _ =>
    }
  }

  lemma ChildPathPrefixed(path: string, token: string)
    ensures ChildPath(path, token) == path + ChildPath("", token)
    ensures ChildPath("", token) != "" && ChildPath("", token)[0] == '/'
  {
  }

  lemma {:induction false} ChildEditsPrefixed(cs: bool, path: string, t: string, from: Json, to: Json)
    requires CreatePatches(cs, path + t, from, to) == Prefixed(path + t, CreatePatches(cs, "", from, to))
    requires CreatePatches(cs, t, from, to) == Prefixed(t, CreatePatches(cs, "", from, to))
    requires t != "" && t[0] == '/'
    ensures CreatePatches(cs, path + t, from, to) == Prefixed(path, CreatePatches(cs, t, from, to))
    ensures Inside(CreatePatches(cs, t, from, to))
  {
    PrefixedTwice(path, t, CreatePatches(cs, "", from, to));
  }

  lemma {:induction false} OnePrefixed(path: string, op: Change, token: string, v: Option<Json>, rest: seq<Edit>)
    requires Inside(rest)
    ensures var (here, there) := ([Edit(op, ChildPath("", token), v)], [Edit(op, ChildPath(path, token), v)]);
      Prefixed(path, here + rest) == there + Prefixed(path, rest) && Inside(here + rest)
  {
    ChildPathPrefixed(path, token);
    PrefixedAppend(path, [Edit(op, ChildPath("", token), v)], rest);
    hide ChildPath;
  }

  /** The step of ArrayIsPrefixed for a pair of elements. */
  lemma {:induction false} PairPrefixed(cs: bool, path: string, i: nat, from: Json, to: Json, rest: seq<Edit>)
    requires Inside(rest)
    requires CreatePatches(cs, path + ("/" + Decimal(i)), from, to) == Prefixed(path + ("/" + Decimal(i)), CreatePatches(cs, "", from, to))
    requires CreatePatches(cs, "/" + Decimal(i), from, to) == Prefixed("/" + Decimal(i), CreatePatches(cs, "", from, to))
    ensures var (here, there) := (CreatePatches(cs, "" + "/" + Decimal(i), from, to), CreatePatches(cs, path + "/" + Decimal(i), from, to));
      Prefixed(path, here + rest) == there + Prefixed(path, rest) && Inside(here + rest)
  {
    var t := "/" + Decimal(i);
    hide CreatePatches, Decimal, Prefixed, Inside;
    assert "" + "/" + Decimal(i) == t && path + "/" + Decimal(i) == path + t;
    var here := CreatePatches(cs, t, from, to);
    ChildEditsPrefixed(cs, path, t, from, to);
    PrefixedAppend(path, here, rest);
    InsideAppend(here, rest);
  }

  lemma {:induction false} InsideAppend(a: seq<Edit>, b: seq<Edit>)
    requires Inside(a) && Inside(b)
    ensures Inside(a + b)
  {
  }

  lemma {:induction false} ArrayIsPrefixed(cs: bool, path: string, from: Json, to: Json, i: nat)
    requires from.Array? && to.Array? && i <= Max(|from.items|, |to.items|)
    ensures ArrayPatches(cs, path, from, to, i) == Prefixed(path, ArrayPatches(cs, "", from, to, i))
    ensures Inside(ArrayPatches(cs, "", from, to, i))
    decreases from, 0, Max(|from.items|, |to.items|) - i
  {
    hide CreatePatches, ChildPath, Decimal, Inside, Prefixed;
    if i < |from.items| || i < |to.items| {
      ArrayIsPrefixed(cs, path, from, to, i + 1);
      var rest := ArrayPatches(cs, "", from, to, i + 1);
      if i < |from.items| && i < |to.items| {
        var t := "/" + Decimal(i);
        CreateIsPrefixed(cs, path + t, from.items[i], to.items[i]);
        CreateIsPrefixed(cs, t, from.items[i], to.items[i]);
        PairPrefixed(cs, path, i, from.items[i], to.items[i], rest);
      } else if i < |from.items| {
        OnePrefixed(path, Remove, Decimal(|to.items|), None, rest);
      } else {
        OnePrefixed(path, Add, "-", Some(to.items[i]), rest);
      }
    } else {
      NonePrefixed(path);
    }
  }

  lemma NonePrefixed(path: string)
    ensures Prefixed(path, []) == [] && Inside([])
  {
  }

  lemma {:induction false} ObjectIsPrefixed(
    cs: bool, path: string, from: Json, fs: seq<Member<Json>>, ts: seq<Member<Json>>)
    requires from.Object? && forall i | 0 <= i < |fs| :: fs[i] in from.members
    ensures ObjectPatches(cs, path, from, fs, ts) == Prefixed(path, ObjectPatches(cs, "", from, fs, ts))
    ensures Inside(ObjectPatches(cs, "", from, fs, ts))
    decreases from, 0, |fs| + |ts|
  {
    if fs != [] || ts != [] {
      var diff := if fs == [] then 1 else if ts == [] then -1 else CompareStrings(cs, fs[0].key, ts[0].key);
      if diff == 0 {
        var t := ChildPath("", fs[0].key);
        ObjectIsPrefixed(cs, path, from, fs[1..], ts[1..]);
        ChildPathPrefixed(path, fs[0].key);
        CreateIsPrefixed(cs, path + t, fs[0].value, ts[0].value);
        CreateIsPrefixed(cs, t, fs[0].value, ts[0].value);
        ChildEditsPrefixed(cs, path, t, fs[0].value, ts[0].value);
        PrefixedAppend(path, CreatePatches(cs, t, fs[0].value, ts[0].value), ObjectPatches(cs, "", from, fs[1..], ts[1..]));
      } else if diff < 0 {
        ObjectIsPrefixed(cs, path, from, fs[1..], ts);
        ChildPathPrefixed(path, fs[0].key);
        PrefixedAppend(path, [Edit(Remove, ChildPath("", fs[0].key), None)], ObjectPatches(cs, "", from, fs[1..], ts));
      } else {
        ObjectIsPrefixed(cs, path, from, fs, ts[1..]);
        ChildPathPrefixed(path, ts[0].key);
        PrefixedAppend(path, [Edit(Add, ChildPath("", ts[0].key), Some(ts[0].value))],
                       ObjectPatches(cs, "", from, fs, ts[1..]));
      }
    }
  }

  // ---------- edits below a child act on the child

  lemma {:induction false} SplitLastPrefix(a: string, p: string)
    requires SplitLast(p).Some?
    ensures SplitLast(a + p) == Some((a + SplitLast(p).value.0, SplitLast(p).value.1))
    decreases |p|
  {
    var init := p[..|p| - 1];
    assert (a + p)[..|a + p| - 1] == a + init;
    assert (a + p)[|a + p| - 1] == p[|p| - 1];
    if p[|p| - 1] != '/' { SplitLastPrefix(a, init); }
  }

  lemma {:induction false} SplitLastOfChild(t: string)
    requires '/' !in t
    ensures SplitLast("/" + t) == Some(("", t))
    decreases |t|
  {
    var p := "/" + t;
    if t != "" {
      var init := t[..|t| - 1];
      assert p[..|p| - 1] == "/" + init && p[|p| - 1] == t[|t| - 1];
      SplitLastOfChild(init);
      assert t == init + [t[|t| - 1]];
    } else {
      assert p == "/" && p[..0] == "";
    }
  }

  lemma {:induction false} SplitLastParent(p: string)
    requires p != "" && p[0] == '/'
    ensures SplitLast(p).Some?
    ensures var parent := SplitLast(p).value.0; parent == "" || parent[0] == '/'
    decreases |p|
  {
    if |p| > 1 { SplitLastParent(p[..|p| - 1]); }
  }

  /** The token leads to child i whatever follows it, and still does after a child is exchanged. */
  ghost predicate Leads(cs: bool, doc: Json, t: string, i: nat) {
    && '/' !in t
    && i < ChildCount(doc)
    && forall rest: string | rest == "" || rest[0] == '/' :: Step(cs, doc, t + rest) == Some(i)
  }

  lemma {:induction false} SameKeysSameToken(cs: bool, ms: seq<Member<Json>>, ns: seq<Member<Json>>, p: string)
    requires |ms| == |ns| && forall i | 0 <= i < |ms| :: ms[i].key == ns[i].key
    ensures IndexOfToken(cs, ms, p) == IndexOfToken(cs, ns, p)
  {
  }

  lemma {:induction false} LeadsAfterPut(cs: bool, doc: Json, t: string, i: nat, c: Json)
    requires Leads(cs, doc, t, i)
    ensures Leads(cs, WithChild(doc, i, c), t, i)
  {
    forall rest: string | rest == "" || rest[0] == '/' ensures Step(cs, WithChild(doc, i, c), t + rest) == Some(i) {
      assert Step(cs, doc, t + rest) == Some(i);
      if doc.Object? { SameKeysSameToken(cs, doc.members, WithChild(doc, i, c).members, t + rest); }
    }
  }

  function Lift(doc: Json, i: nat, o: Outcome): Outcome
    requires i < ChildCount(doc)
  {
    Outcome(o.status, if o.doc.None? then None else Some(WithChild(doc, i, o.doc.value)))
  }

  lemma WithSameChild(doc: Json, i: nat)
    requires i < ChildCount(doc)
    ensures WithChild(doc, i, Child(doc, i)) == doc
  {
  }

  lemma DetachInside(cs: bool, doc: Json, t: string, i: nat, path: string)
    requires Leads(cs, doc, t, i) && path != "" && path[0] == '/'
    ensures var inner, outer := DetachTarget(cs, Child(doc, i), path), DetachTarget(cs, doc, "/" + t + path);
      && (inner.None? <==> outer.None?)
      && (inner.Some? ==> outer == Some(([i] + inner.value.0, inner.value.1))
                          && Detach(doc, outer.value) == WithChild(doc, i, Detach(Child(doc, i), inner.value)))
  {
    SplitLastParent(path);
    SplitLastPrefix("/" + t, path);
    var parent := SplitLast(path).value.0;
    ResolveStep(cs, doc, t, parent);
  }

  lemma {:induction false} AddInside(cs: bool, doc: Json, t: string, i: nat, path: string, v: Json)
    requires Leads(cs, doc, t, i) && path != "" && path[0] == '/'
    ensures AddAt(cs, doc, "/" + t + path, v) == Lift(doc, i, AddAt(cs, Child(doc, i), path, v))
  {
    SplitLastParent(path);
    SplitLastPrefix("/" + t, path);
    var parent := SplitLast(path).value.0;
    ResolveStep(cs, doc, t, parent);
    WithSameChild(doc, i);
  }

  lemma {:induction false} PerformInside(cs: bool, doc: Json, t: string, i: nat, e: Edit)
    requires Leads(cs, doc, t, i) && e.path != "" && e.path[0] == '/'
    ensures Perform(cs, doc, e.(path := "/" + t + e.path)) == Lift(doc, i, Perform(cs, Child(doc, i), e))
    ensures Perform(cs, Child(doc, i), e).doc.Some?
  {
    WithSameChild(doc, i);
    if e.op != Add { DetachInside(cs, doc, t, i, e.path); }
    if e.op != Remove && e.value.Some? {
      AddInside(cs, doc, t, i, e.path, e.value.value);
      var inner := DetachTarget(cs, Child(doc, i), e.path);
      if e.op == Replace && inner.Some? {
        var c := Detach(Child(doc, i), inner.value);
        LeadsAfterPut(cs, doc, t, i, c);
        AddInside(cs, WithChild(doc, i, c), t, i, e.path, e.value.value);
        WithChildTwice(doc, i, c, AddAt(cs, c, e.path, e.value.value));
      }
    }
  }

  lemma {:induction false} WithChildTwice(doc: Json, i: nat, c: Json, o: Outcome)
    requires i < ChildCount(doc)
    ensures Lift(WithChild(doc, i, c), i, o) == Lift(doc, i, o)
  {
    if o.doc.Some? {
      match doc
      case Array(items) => assert items[i := c][i := o.doc.value] == items[i := o.doc.value];
      case Object(ms) =>
        var m := Member(ms[i].key, o.doc.value);
        assert ms[i := Member(ms[i].key, c)][i := m] == ms[i := m];
    }
  }

  lemma {:induction false} PerformAllInside(cs: bool, doc: Json, t: string, i: nat, edits: seq<Edit>)
    requires Leads(cs, doc, t, i) && Inside(edits)
    ensures PerformAll(cs, doc, Prefixed("/" + t, edits)) == Lift(doc, i, PerformAll(cs, Child(doc, i), edits))
    ensures PerformAll(cs, Child(doc, i), edits).doc.Some?
    decreases |edits|
  {
    WithSameChild(doc, i);
    if edits != [] {
      PerformInside(cs, doc, t, i, edits[0]);
      assert Prefixed("/" + t, edits)[1..] == Prefixed("/" + t, edits[1..]);
      var o := Perform(cs, Child(doc, i), edits[0]);
      if o.status == 0 {
        var c := o.doc.value;
        LeadsAfterPut(cs, doc, t, i, c);
        PerformAllInside(cs, WithChild(doc, i, c), t, i, edits[1..]);
        WithChildTwice(doc, i, c, PerformAll(cs, c, edits[1..]));
      }
    }
  }

  // ---------- one edit at the top of a container

  lemma DecodePlain(t: string)
    requires '~' !in t && '/' !in t
    ensures Decode(t) == t && Encode(t) == t
  {
    PlainNamesAreNotEscaped(t);
    DecodeUndoesEncode(t);
  }

  function AddTop(cs: bool, doc: Json, t: string, v: Json): Outcome {
    var (status, r) := AddChild(cs, doc, Decode(t), v);
    Outcome(status, Some(r))
  }

  /** An edit whose path is one token acts on the document itself. */
  lemma {:induction false} AddAtTop(cs: bool, doc: Json, t: string, v: Json)
    requires '/' !in t
    ensures AddAt(cs, doc, "/" + t, v) == AddTop(cs, doc, t, v)
  {
    hide SplitLast, Decode, AddChild;
    SplitLastOfChild(t);
  }

  lemma DetachTop(cs: bool, doc: Json, t: string)
    requires '/' !in t && ChildToDetach(doc, Decode(t)).Some?
    ensures var i := ChildToDetach(doc, Decode(t)).value;
      DetachTarget(cs, doc, "/" + t) == Some(([], i)) && Detach(doc, ([], i)) == WithoutChild(doc, i)
  {
    hide SplitLast, Decode, ChildToDetach;
    SplitLastOfChild(t);
  }

  lemma {:induction false} PerformAdd(cs: bool, doc: Json, t: string, v: Json)
    requires '/' !in t
    ensures Perform(cs, doc, Edit(Add, "/" + t, Some(v))) == AddTop(cs, doc, t, v)
  {
    hide AddAt, AddTop;
    AddAtTop(cs, doc, t, v);
  }

  lemma PerformRemove(cs: bool, doc: Json, t: string, i: nat)
    requires '/' !in t && ChildToDetach(doc, Decode(t)) == Some(i)
    ensures Perform(cs, doc, Edit(Remove, "/" + t, None)) == Outcome(0, Some(WithoutChild(doc, i)))
  {
    hide DetachTarget, Detach, ChildToDetach;
    DetachTop(cs, doc, t);
  }

  lemma {:induction false} PerformReplace(cs: bool, doc: Json, t: string, i: nat, v: Json)
    requires '/' !in t && ChildToDetach(doc, Decode(t)) == Some(i)
    ensures Perform(cs, doc, Edit(Replace, "/" + t, Some(v))) == AddTop(cs, WithoutChild(doc, i), t, v)
  {
    hide DetachTarget, Detach, ChildToDetach, AddAt, AddTop;
    DetachTop(cs, doc, t);
    AddAtTop(cs, WithoutChild(doc, i), t, v);
  }

  lemma ElementToken(i: nat)
    ensures Decode(Decimal(i)) == Decimal(i) && DecodeIndex(Decimal(i)) == Some(i) && Decimal(i) != "-"
    ensures ChildPath("", Decimal(i)) == "/" + Decimal(i)
  {
    DecodePlain(Decimal(i));
    DecodeIndexOfDecimal(i, "");
    assert Decimal(i) + "" == Decimal(i);
  }

  lemma ElementLeads(cs: bool, items: seq<Json>, i: nat)
    requires i < |items|
    ensures Leads(cs, Array(items), Decimal(i), i)
  {
    forall rest: string | rest == "" || rest[0] == '/' ensures Step(cs, Array(items), Decimal(i) + rest) == Some(i) {
      DecodeIndexOfDecimal(i, rest);
    }
  }

  lemma {:induction false} ReplaceElement(cs: bool, items: seq<Json>, i: nat, v: Json)
    requires i < |items|
    ensures Perform(cs, Array(items), Edit(Replace, "/" + Decimal(i), Some(v))) == Outcome(0, Some(Array(items[i := v])))
  {
    hide Perform, Decode, DecodeIndex, Decimal;
    ElementToken(i);
    PerformReplace(cs, Array(items), Decimal(i), i, v);
    var rest := Without(items, i);
    assert rest[..i] + [v] + rest[i..] == items[i := v];
  }

  lemma RemoveElement(cs: bool, items: seq<Json>, i: nat)
    requires i < |items|
    ensures Perform(cs, Array(items), Edit(Remove, ChildPath("", Decimal(i)), None)) == Outcome(0, Some(Array(Without(items, i))))
  {
    hide Perform, Decode, DecodeIndex, Decimal;
    ElementToken(i);
    PerformRemove(cs, Array(items), Decimal(i), i);
  }

  lemma {:induction false} AppendElement(cs: bool, items: seq<Json>, v: Json)
    ensures Perform(cs, Array(items), Edit(Add, ChildPath("", "-"), Some(v))) == Outcome(0, Some(Array(items + [v])))
  {
    hide Perform, Decode;
    DecodePlain("-");
    assert ChildPath("", "-") == "/" + "-";
    PerformAdd(cs, Array(items), "-", v);
  }

  /** The search that ignores case finds the member that the search with the flag finds. */
  predicate Visible(cs: bool, ms: seq<Member<Json>>, key: string) {
    IndexOf(false, ms, key) == IndexOf(cs, ms, key) < |ms|
  }

  lemma MemberToken(key: string)
    requires SurvivesDecoding(key)
    ensures Decode(Encode(key)) == key && '/' !in Encode(key) && ChildPath("", key) == "/" + Encode(key)
  {
    EncodeHasNoSlash(key);
    DecodeUndoesEncode(key);
  }

  lemma {:induction false} RemoveMember(cs: bool, ms: seq<Member<Json>>, key: string)
    requires SurvivesDecoding(key) && Visible(cs, ms, key)
    ensures Perform(cs, Object(ms), Edit(Remove, ChildPath("", key), None)) == Outcome(0, Some(Object(RemoveKey(cs, ms, key))))
  {
    hide Perform, Decode, Encode;
    MemberToken(key);
    PerformRemove(cs, Object(ms), Encode(key), IndexOf(cs, ms, key));
  }

  lemma {:induction false} AddMember(cs: bool, ms: seq<Member<Json>>, key: string, v: Json)
    requires SurvivesDecoding(key)
    ensures Perform(cs, Object(ms), Edit(Add, ChildPath("", key), Some(v)))
         == Outcome(0, Some(Object(RemoveKey(cs, ms, key) + [Member(key, v)])))
  {
    hide Perform, Decode, Encode;
    MemberToken(key);
    PerformAdd(cs, Object(ms), Encode(key), v);
  }

  lemma {:induction false} ReplaceMember(cs: bool, ms: seq<Member<Json>>, key: string, v: Json)
    requires SurvivesDecoding(key) && UniqueKeys(cs, ms) && Visible(cs, ms, key)
    ensures Perform(cs, Object(ms), Edit(Replace, ChildPath("", key), Some(v)))
         == Outcome(0, Some(Object(RemoveKey(cs, ms, key) + [Member(key, v)])))
  {
    hide Perform, Decode, Encode;
    MemberToken(key);
    PerformReplace(cs, Object(ms), Encode(key), IndexOf(cs, ms, key), v);
    RemoveKeyUnique(cs, ms, key);
    assert RemoveKey(cs, RemoveKey(cs, ms, key), key) == RemoveKey(cs, ms, key);
  }

  lemma {:induction false} MemberLeads(cs: bool, ms: seq<Member<Json>>, key: string)
    requires IndexOf(cs, ms, key) < |ms|
    ensures Leads(cs, Object(ms), Encode(key), IndexOf(cs, ms, key))
  {
    EncodeHasNoSlash(key);
    forall rest: string | rest == "" || rest[0] == '/'
      ensures Step(cs, Object(ms), Encode(key) + rest) == Some(IndexOf(cs, ms, key))
    {
      TokenIndex(cs, ms, key, rest);
    }
  }

  // ---------- the round trip

  ghost predicate Achieves(cs: bool, o: Outcome, to: Json) {
    o.status == 0 && o.doc.Some? && Same(cs, o.doc.value, to)
  }

  /** create_patches exchanges such a value as a whole instead of walking into it. */
  predicate Replaced(from: Json, to: Json) {
    !SameKind(from, to) || (!from.Array? && !from.Object? && from != to)
  }

  /** A member with value f has its key named at the end of a path: it is removed, or replaced. */
  predicate Edited(f: Option<Json>, t: Option<Json>) {
    f.Some? && (t.None? || Replaced(f.value, t.value))
  }

  /**
   No member hides the key from the search that ignores case: every earlier member that equals it up to case is
   itself edited, and its turn comes before.
   */
  ghost predicate Unshadowed(cs: bool, dm: seq<Member<Json>>, fs: seq<Member<Json>>, ts: seq<Member<Json>>, key: string) {
    forall x: string | KeyEq(false, x, key) && IndexOf(cs, dm, x) < IndexOf(cs, dm, key) ::
      Edited(Lookup(cs, fs, x), Lookup(cs, ts, x)) && CompareStrings(cs, x, key) < 0
  }

  /** What one key needs: an edited one is not hidden, and under another one the values need it in turn. */
  ghost predicate KeyLands(cs: bool, dm: seq<Member<Json>>, from: Json, fs: seq<Member<Json>>, ts: seq<Member<Json>>, key: string)
    requires forall i | 0 <= i < |fs| :: fs[i].value < from
    decreases from, 0
  {
    var (d, f, t) := (Lookup(cs, dm, key), Lookup(cs, fs, key), Lookup(cs, ts, key));
    f.Some? ==>
      if Edited(f, t) then Unshadowed(cs, dm, fs, ts, key)
      else d.Some? ==> EditsLand(cs, d.value, f.value, t.value)
  }

  /** The keys at the ends of paths survive the in-place decoding. */
  ghost predicate EndsDecode(cs: bool, fm: seq<Member<Json>>, tm: seq<Member<Json>>) {
    && (forall m | m in fm && Edited(Some(m.value), Lookup(cs, tm, m.key)) :: SurvivesDecoding(m.key))
    && (forall m | m in tm && Lookup(cs, fm, m.key).None? :: SurvivesDecoding(m.key))
  }

  /** Every generated edit reaches the member it is meant for. */
  ghost predicate EditsLand(cs: bool, doc: Json, from: Json, to: Json)
    decreases from, 1
  {
    SameKind(from, to) ==>
      match from
      case Array(items) =>
        doc.Array? ==> forall i | 0 <= i < |items| && i < |to.items| && i < |doc.items| ::
          EditsLand(cs, doc.items[i], items[i], to.items[i])
      case Object(ms) =>
        && EndsDecode(cs, ms, to.members)
        && (doc.Object? ==> forall key: string :: KeyLands(cs, doc.members, from, ms, to.members, key))
      case _ => true
  }

  /** What the trees must satisfy. */
  ghost predicate Patchable(cs: bool, doc: Json, from: Json, to: Json) {
    && Same(cs, doc, from)
    && Unique(cs, doc) && Unique(cs, from) && Unique(cs, to)
    && EditsLand(cs, doc, from, to)
  }

  lemma {:induction false} PerformRoundTrip(cs: bool, doc: Json, from: Json, to: Json)
    requires Patchable(cs, doc, from, to)
    ensures Achieves(cs, PerformAll(cs, doc, CreatePatches(cs, "", from, to)), to)
    decreases from, 1, 0
  {
    if !SameKind(from, to) || (!from.Array? && !from.Object?) {
      SameReflexive(cs, to);
      assert from == to || CreatePatches(cs, "", from, to) == [Edit(Replace, "", Some(to))];
    } else if from.Array? {
      ArrayRoundTrip(cs, doc.items, from, to, 0);
    } else {
      MergeSortUnique(cs, from.members);
      MergeSortUnique(cs, to.members);
      ObjectStart(cs, doc.members, from, to);
      ObjectRoundTrip(cs, doc.members, from, to, SortedMembers(cs, from.members), SortedMembers(cs, to.members));
    }
  }

  /** Patching a child in place: either the child is exchanged, or its edits replace it as a whole. */
  lemma {:induction false} PerformChild(cs: bool, doc: Json, t: string, i: nat, from: Json, to: Json)
    requires Leads(cs, doc, t, i)
    requires Achieves(cs, PerformAll(cs, Child(doc, i), CreatePatches(cs, "", from, to)), to)
    ensures var edits := CreatePatches(cs, "/" + t, from, to);
      if Replaced(from, to) then edits == [Edit(Replace, "/" + t, Some(to))]
      else exists c :: Same(cs, c, to) && PerformAll(cs, doc, edits) == Outcome(0, Some(WithChild(doc, i, c)))
  {
    var edits := CreatePatches(cs, "", from, to);
    CreateIsPrefixed(cs, "/" + t, from, to);
    CreateIsPrefixed(cs, "", from, to);
    if Replaced(from, to) {
      assert edits == [Edit(Replace, "", Some(to))];
      assert "/" + t + "" == "/" + t;
    } else {
      PerformAllInside(cs, doc, t, i, edits);
    }
  }

  // ---------- arrays

  /** Before step i of the array walk: done elements match `to`, the others still match `from`. */
  ghost predicate ArrayPending(cs: bool, items: seq<Json>, from: seq<Json>, to: seq<Json>, i: nat) {
    && i <= Max(|from|, |to|)
    && |items| == (if i <= |to| then Max(|from|, i) else |from| + |to| - i)
    && (forall k | 0 <= k < i && k < |to| :: Same(cs, items[k], to[k]))
    && (i <= |to| ==> forall k | i <= k < |from| :: Same(cs, items[k], from[k]) && Unique(cs, items[k]))
    && (forall k | i <= k < |from| && k < |to| :: EditsLand(cs, items[k], from[k], to[k]))
  }

  lemma {:induction false} ArrayPendingHead(cs: bool, items: seq<Json>, from: Json, to: Json, i: nat)
    requires from.Array? && to.Array? && ArrayPending(cs, items, from.items, to.items, i)
    requires Unique(cs, from) && Unique(cs, to) && i < |from.items| && i < |to.items|
    ensures i < |items| && Patchable(cs, items[i], from.items[i], to.items[i])
    ensures forall c | Same(cs, c, to.items[i]) :: ArrayPending(cs, items[i := c], from.items, to.items, i + 1)
  {
    hide Same, EditsLand;
  }

  lemma {:induction false} ArrayPendingNone(cs: bool, items: seq<Json>, from: seq<Json>, to: seq<Json>)
    requires ArrayPending(cs, items, from, to, Max(|from|, |to|))
    ensures Same(cs, Array(items), Array(to))
  {
  }

  lemma {:induction false} ArrayRoundTrip(cs: bool, items: seq<Json>, from: Json, to: Json, i: nat)
    requires from.Array? && to.Array? && ArrayPending(cs, items, from.items, to.items, i)
    requires Unique(cs, from) && Unique(cs, to)
    ensures Achieves(cs, PerformAll(cs, Array(items), ArrayPatches(cs, "", from, to, i)), to)
    decreases from, 0, Max(|from.items|, |to.items|) - i, 1
  {
    hide Perform, CreatePatches, Decimal, Encode, Same, Unique, EditsLand;
    var fs, ts := from.items, to.items;
    if i < |fs| && i < |ts| {
      ArrayPairRoundTrip(cs, items, from, to, i);
    } else if i < |fs| {
      var e := Edit(Remove, ChildPath("", Decimal(|ts|)), None);
      RemoveElement(cs, items, |ts|);
      ArrayRoundTrip(cs, Without(items, |ts|), from, to, i + 1);
      PerformOne(cs, Array(items), e, ArrayPatches(cs, "", from, to, i + 1), Array(Without(items, |ts|)));
    } else if i < |ts| {
      var e := Edit(Add, ChildPath("", "-"), Some(ts[i]));
      AppendElement(cs, items, ts[i]);
      SameReflexive(cs, ts[i]);
      ArrayRoundTrip(cs, items + [ts[i]], from, to, i + 1);
      PerformOne(cs, Array(items), e, ArrayPatches(cs, "", from, to, i + 1), Array(items + [ts[i]]));
    } else {
      ArrayPendingNone(cs, items, fs, ts);
    }
  }

  lemma {:induction false} ArrayPairRoundTrip(cs: bool, items: seq<Json>, from: Json, to: Json, i: nat)
    requires from.Array? && to.Array? && ArrayPending(cs, items, from.items, to.items, i)
    requires Unique(cs, from) && Unique(cs, to) && i < |from.items| && i < |to.items|
    ensures Achieves(cs, PerformAll(cs, Array(items), ArrayPatches(cs, "", from, to, i)), to)
    decreases from, 0, Max(|from.items|, |to.items|) - i, 0
  {
    hide Perform, CreatePatches, Decimal, Encode, Same, Unique, EditsLand, PerformAll;
    var (f, t) := (from.items[i], to.items[i]);
    ArrayPendingHead(cs, items, from, to, i);
    hide ArrayPending;
    PerformRoundTrip(cs, items[i], f, t);
    var c := PerformElement(cs, items, i, f, t);
    ArrayRoundTrip(cs, items[i := c], from, to, i + 1);
    assert "" + "/" + Decimal(i) == "/" + Decimal(i);
    PerformThen(cs, Array(items), CreatePatches(cs, "/" + Decimal(i), f, t),
                ArrayPatches(cs, "", from, to, i + 1), Array(items[i := c]));
  }

  lemma {:induction false} PerformElement(cs: bool, items: seq<Json>, i: nat, from: Json, to: Json) returns (c: Json)
    requires i < |items|
    requires Achieves(cs, PerformAll(cs, items[i], CreatePatches(cs, "", from, to)), to)
    ensures Same(cs, c, to)
    ensures PerformAll(cs, Array(items), CreatePatches(cs, "/" + Decimal(i), from, to)) == Outcome(0, Some(Array(items[i := c])))
  {
    var t := Decimal(i);
    ElementLeads(cs, items, i);
    CreateIsPrefixed(cs, "/" + t, from, to);
    PerformChild(cs, Array(items), t, i, from, to);
    var edits := CreatePatches(cs, "/" + t, from, to);
    if Replaced(from, to) {
      ReplaceElement(cs, items, i, to);
      SameReflexive(cs, to);
      c := to;
    } else {
      c :| Same(cs, c, to) && PerformAll(cs, Array(items), edits) == Outcome(0, Some(WithChild(Array(items), i, c)));
    }
  }

  // ---------- objects

  ghost predicate Among(from: Json, fs: seq<Member<Json>>) {
    from.Object? && forall i | 0 <= i < |fs| :: fs[i] in from.members
  }

  /** What holds for one key while the members before the heads of `fs` and `ts` are patched. */
  ghost predicate PendingAt(
    cs: bool, dm: seq<Member<Json>>, from: Json, fs: seq<Member<Json>>, ts: seq<Member<Json>>, tm: seq<Member<Json>>, key: string)
    requires Among(from, fs)
  {
    var (d, f, t) := (Lookup(cs, dm, key), Lookup(cs, fs, key), Lookup(cs, ts, key));
    && (f.Some? || t.Some? ==> t == Lookup(cs, tm, key))
    && (f.Some? ==> d.Some? && Same(cs, d.value, f.value) && Unique(cs, d.value) && KeyLands(cs, dm, from, fs, ts, key))
    && (f.None? && t.Some? ==> d.None? && Lookup(cs, from.members, key).None?)
    && (f.None? && t.None? ==> SameLookup(cs, dm, tm, key))
  }

  ghost predicate Pending(
    cs: bool, dm: seq<Member<Json>>, from: Json, fs: seq<Member<Json>>, ts: seq<Member<Json>>, tm: seq<Member<Json>>)
    requires Among(from, fs)
  {
    UniqueKeys(cs, dm) && forall key: string :: PendingAt(cs, dm, from, fs, ts, tm, key)
  }

  /** One key changed its value (None: it is gone), the others look up as before. */
  ghost predicate UpdatedAt(
    cs: bool, dm: seq<Member<Json>>, dm': seq<Member<Json>>, k: string, v: Option<Json>, key: string)
  {
    if KeyEq(cs, key, k) then Lookup(cs, dm', key) == v else Lookup(cs, dm', key) == Lookup(cs, dm, key)
  }

  /** No key comes to stand before a key other than k; k itself does not stand before one unless it stays in place. */
  ghost predicate OrderKeptAt(
    cs: bool, dm: seq<Member<Json>>, dm': seq<Member<Json>>, k: string, stays: bool, x: string, key: string)
  {
    !KeyEq(cs, key, k) && IndexOf(cs, dm, key) < |dm| && IndexOf(cs, dm', x) < IndexOf(cs, dm', key) ==>
      IndexOf(cs, dm, x) < IndexOf(cs, dm, key) && (stays || !KeyEq(cs, x, k))
  }

  ghost predicate Updated(
    cs: bool, dm: seq<Member<Json>>, dm': seq<Member<Json>>, k: string, v: Option<Json>, stays: bool)
  {
    && UniqueKeys(cs, dm')
    && (forall key: string :: UpdatedAt(cs, dm, dm', k, v, key))
    && forall x: string, key: string :: OrderKeptAt(cs, dm, dm', k, stays, x, key)
  }

  lemma {:induction false} IndexAfterRemove(cs: bool, dm: seq<Member<Json>>, k: string, x: string)
    requires UniqueKeys(cs, dm)
    ensures var (r, i, rest) := (IndexOf(cs, dm, k), IndexOf(cs, dm, x), RemoveKey(cs, dm, k));
      IndexOf(cs, rest, x) == if KeyEq(cs, x, k) then |rest| else if r < i then i - 1 else i
  {
    hide Fold;
    var (r, i) := (IndexOf(cs, dm, k), IndexOf(cs, dm, x));
    if KeyEq(cs, x, k) {
      RemoveKeyUnique(cs, dm, k);
      IndexOfFold(cs, RemoveKey(cs, dm, k), x, k);
    } else if r < |dm| {
      IndexOfWithout(cs, dm, r, x);
    }
  }

  lemma {:induction false} UpdatedByRemove(cs: bool, dm: seq<Member<Json>>, k: string)
    requires UniqueKeys(cs, dm)
    ensures Updated(cs, dm, RemoveKey(cs, dm, k), k, None, false)
  {
    var rest := RemoveKey(cs, dm, k);
    RemoveKeyUnique(cs, dm, k);
    hide Fold, IndexOf, KeyEq, RemoveKey, UniqueKeys;
    forall key: string ensures UpdatedAt(cs, dm, rest, k, None, key) { RemoveKeyLookup(cs, dm, k, key); }
    forall x: string, key: string ensures OrderKeptAt(cs, dm, rest, k, false, x, key) {
      RemoveKeyOrder(cs, dm, k, x, key);
    }
  }

  lemma {:induction false} RemoveKeyOrder(cs: bool, dm: seq<Member<Json>>, k: string, x: string, key: string)
    requires UniqueKeys(cs, dm)
    ensures OrderKeptAt(cs, dm, RemoveKey(cs, dm, k), k, false, x, key)
    ensures !KeyEq(cs, key, k) && IndexOf(cs, dm, key) < |dm| ==> IndexOf(cs, RemoveKey(cs, dm, k), key) < |RemoveKey(cs, dm, k)|
  {
    IndexAfterRemove(cs, dm, k, x);
    IndexAfterRemove(cs, dm, k, key);
    if IndexOf(cs, dm, k) == IndexOf(cs, dm, key) < |dm| {
      assert KeyEq(cs, key, k);
    }
    hide Fold, KeyEq;
  }

  lemma {:induction false} UpdatedByMove(cs: bool, dm: seq<Member<Json>>, m: Member<Json>)
    requires UniqueKeys(cs, dm)
    ensures Updated(cs, dm, RemoveKey(cs, dm, m.key) + [m], m.key, Some(m.value), false)
  {
    var rest := RemoveKey(cs, dm, m.key);
    ReplacedUnique(cs, dm, m);
    hide Fold, IndexOf, KeyEq, RemoveKey, UniqueKeys;
    forall key: string ensures UpdatedAt(cs, dm, rest + [m], m.key, Some(m.value), key) {
      ReplacedLookup(cs, dm, m, key);
    }
    forall x: string, key: string ensures OrderKeptAt(cs, dm, rest + [m], m.key, false, x, key) {
      RemoveKeyOrder(cs, dm, m.key, x, key);
      AppendIndex(cs, rest, m, x);
      AppendIndex(cs, rest, m, key);
    }
  }

  lemma {:induction false} UpdatedInPlaceAt(cs: bool, dm: seq<Member<Json>>, k: string, i: nat, c: Json, key: string)
    requires i == IndexOf(cs, dm, k) < |dm|
    ensures UpdatedAt(cs, dm, dm[i := Member(dm[i].key, c)], k, Some(c), key)
    ensures IndexOf(cs, dm[i := Member(dm[i].key, c)], key) == IndexOf(cs, dm, key)
  {
    hide Fold, Same, Unique;
    UpdatedIndex(cs, dm, i, c, key);
    var j := IndexOf(cs, dm, key);
    if KeyEq(cs, key, k) {
      IndexOfFold(cs, dm, key, k);
    } else {
      assert KeyEq(cs, dm[i].key, k) && (j < |dm| ==> KeyEq(cs, dm[j].key, key));
      assert j != i;
    }
  }

  lemma {:induction false} UpdatedInPlace(cs: bool, dm: seq<Member<Json>>, k: string, c: Json)
    requires UniqueKeys(cs, dm) && IndexOf(cs, dm, k) < |dm|
    ensures var i := IndexOf(cs, dm, k); Updated(cs, dm, dm[i := Member(dm[i].key, c)], k, Some(c), true)
  {
    hide KeyEq, UpdatedAt;
    var i := IndexOf(cs, dm, k);
    var dm' := dm[i := Member(dm[i].key, c)];
    forall key: string ensures UpdatedAt(cs, dm, dm', k, Some(c), key) {
      UpdatedInPlaceAt(cs, dm, k, i, c, key);
    }
    forall x: string, key: string ensures OrderKeptAt(cs, dm, dm', k, true, x, key) {
      UpdatedInPlaceAt(cs, dm, k, i, c, x);
      UpdatedInPlaceAt(cs, dm, k, i, c, key);
    }
  }

  /** An unpatched key stays unhidden and keeps what its value needs when another key has had its turn. */
  lemma {:induction false} StillLands(cs: bool, dm: seq<Member<Json>>, dm': seq<Member<Json>>, from: Json, k: string, v: Option<Json>, stays: bool,
                   fs: seq<Member<Json>>, ts: seq<Member<Json>>, fs': seq<Member<Json>>, ts': seq<Member<Json>>, key: string)
    requires Among(from, fs) && Among(from, fs') && Updated(cs, dm, dm', k, v, stays)
    requires Dropped(cs, fs, fs', k) && Dropped(cs, ts, ts', k)
    requires stays ==> !Edited(Lookup(cs, fs, k), Lookup(cs, ts, k))
    requires !KeyEq(cs, key, k) && Lookup(cs, dm, key).Some? && KeyLands(cs, dm, from, fs, ts, key)
    ensures KeyLands(cs, dm', from, fs', ts', key)
  {
    hide Fold, EditsLand;
    assert UpdatedAt(cs, dm, dm', k, v, key);
    var (f, t) := (Lookup(cs, fs, key), Lookup(cs, ts, key));
    if Edited(f, t) {
      forall x: string | KeyEq(false, x, key) && IndexOf(cs, dm', x) < IndexOf(cs, dm', key)
        ensures Edited(Lookup(cs, fs', x), Lookup(cs, ts', x)) && CompareStrings(cs, x, key) < 0
      {
        assert OrderKeptAt(cs, dm, dm', k, stays, x, key);
        if KeyEq(cs, x, k) {
          IndexOfFold(cs, fs, x, k);
          IndexOfFold(cs, ts, x, k);
          assert false;
        }
      }
    }
  }

  /** The key that has just had its turn. */
  lemma {:induction false} PendingHere(cs: bool, dm: seq<Member<Json>>, dm': seq<Member<Json>>, from: Json, k: string, v: Option<Json>,
                    fs: seq<Member<Json>>, ts: seq<Member<Json>>, fs': seq<Member<Json>>, ts': seq<Member<Json>>, tm: seq<Member<Json>>, key: string)
    requires Among(from, fs) && Among(from, fs') && PendingAt(cs, dm, from, fs, ts, tm, key) && UpdatedAt(cs, dm, dm', k, v, key)
    requires Dropped(cs, fs, fs', k) && Dropped(cs, ts, ts', k) && KeyEq(cs, key, k)
    requires Lookup(cs, fs, k).Some? || Lookup(cs, ts, k).Some?
    requires (v.Some? <==> Lookup(cs, ts, k).Some?) && (v.Some? ==> Same(cs, v.value, Lookup(cs, ts, k).value))
    ensures PendingAt(cs, dm', from, fs', ts', tm, key)
  {
    hide Fold, KeyLands, Same, Unique, IndexOf, Lookup;
    LookupFold(cs, fs, key, k);
    LookupFold(cs, ts, key, k);
  }

  lemma {:induction false} PendingElsewhere(cs: bool, dm: seq<Member<Json>>, dm': seq<Member<Json>>, from: Json, k: string, v: Option<Json>, stays: bool,
                    fs: seq<Member<Json>>, ts: seq<Member<Json>>, fs': seq<Member<Json>>, ts': seq<Member<Json>>, tm: seq<Member<Json>>, key: string)
    requires Among(from, fs) && Among(from, fs') && PendingAt(cs, dm, from, fs, ts, tm, key) && Updated(cs, dm, dm', k, v, stays)
    requires Dropped(cs, fs, fs', k) && Dropped(cs, ts, ts', k) && !KeyEq(cs, key, k)
    requires stays ==> !Edited(Lookup(cs, fs, k), Lookup(cs, ts, k))
    ensures PendingAt(cs, dm', from, fs', ts', tm, key)
  {
    hide Fold, KeyLands, Same, Unique, IndexOf, Lookup, KeyEq;
    assert UpdatedAt(cs, dm, dm', k, v, key);
    if Lookup(cs, fs, key).Some? {
      StillLands(cs, dm, dm', from, k, v, stays, fs, ts, fs', ts', key);
    }
  }

  lemma {:induction false} PendingNext(cs: bool, dm: seq<Member<Json>>, dm': seq<Member<Json>>, from: Json, k: string, v: Option<Json>, stays: bool,
                    fs: seq<Member<Json>>, ts: seq<Member<Json>>, fs': seq<Member<Json>>, ts': seq<Member<Json>>, tm: seq<Member<Json>>)
    requires Among(from, fs) && Among(from, fs') && Pending(cs, dm, from, fs, ts, tm) && Updated(cs, dm, dm', k, v, stays)
    requires Dropped(cs, fs, fs', k) && Dropped(cs, ts, ts', k)
    requires stays ==> !Edited(Lookup(cs, fs, k), Lookup(cs, ts, k))
    requires Lookup(cs, fs, k).Some? || Lookup(cs, ts, k).Some?
    requires (v.Some? <==> Lookup(cs, ts, k).Some?) && (v.Some? ==> Same(cs, v.value, Lookup(cs, ts, k).value))
    ensures Pending(cs, dm', from, fs', ts', tm)
  {
    hide PendingAt, UpdatedAt, OrderKeptAt, Lookup, KeyEq, Same, Dropped, UniqueKeys;
    forall key: string ensures PendingAt(cs, dm', from, fs', ts', tm, key) {
      assert PendingAt(cs, dm, from, fs, ts, tm, key);
      if KeyEq(cs, key, k) {
        assert UpdatedAt(cs, dm, dm', k, v, key);
        PendingHere(cs, dm, dm', from, k, v, fs, ts, fs', ts', tm, key);
      } else {
        PendingElsewhere(cs, dm, dm', from, k, v, stays, fs, ts, fs', ts', tm, key);
      }
    }
  }

  lemma {:induction false} ObjectStart(cs: bool, dm: seq<Member<Json>>, from: Json, to: Json)
    requires from.Object? && to.Object? && Patchable(cs, Object(dm), from, to)
    ensures Among(from, SortedMembers(cs, from.members))
    ensures Pending(cs, dm, from, SortedMembers(cs, from.members), SortedMembers(cs, to.members), to.members)
  {
    var (fm, tm) := (from.members, to.members);
    var fs, ts := SortedMembers(cs, fm), SortedMembers(cs, tm);
    MergeSortPermutes(cs, fm);
    MergeSortPermutes(cs, tm);
    SameByLookups(cs, dm, fm);
    hide MergeSort, Fold;
    forall key: string ensures Lookup(cs, fs, key) == Lookup(cs, fm, key) && Lookup(cs, ts, key) == Lookup(cs, tm, key) {
      PermutedLookup(cs, fm, fs, key);
      PermutedLookup(cs, tm, ts, key);
    }
    forall key: string ensures PendingAt(cs, dm, from, fs, ts, tm, key) {
      assert KeyLands(cs, dm, from, fm, tm, key);
      SameLanding(cs, dm, from, fm, tm, fs, ts, key);
      assert SameLookup(cs, dm, fm, key);
      LookupIsUnique(cs, dm, key);
    }
  }

  lemma LookupIsUnique(cs: bool, ms: seq<Member<Json>>, key: string)
    requires Unique(cs, Object(ms))
    ensures Lookup(cs, ms, key).Some? ==> Unique(cs, Lookup(cs, ms, key).value)
  {
  }

  lemma {:induction false} SameLanding(cs: bool, dm: seq<Member<Json>>, from: Json, fm: seq<Member<Json>>, tm: seq<Member<Json>>,
                    fs: seq<Member<Json>>, ts: seq<Member<Json>>, key: string)
    requires Among(from, fm) && Among(from, fs)
    requires forall x: string :: Lookup(cs, fs, x) == Lookup(cs, fm, x) && Lookup(cs, ts, x) == Lookup(cs, tm, x)
    requires KeyLands(cs, dm, from, fm, tm, key)
    ensures KeyLands(cs, dm, from, fs, ts, key)
  {
    hide EditsLand, IndexOf, Lookup, Fold;
  }

  lemma {:induction false} PerformMember(cs: bool, dm: seq<Member<Json>>, key: string, from: Json, to: Json)
    returns (dm': seq<Member<Json>>, c: Json)
    requires UniqueKeys(cs, dm) && IndexOf(cs, dm, key) < |dm|
    requires Replaced(from, to) ==> Visible(cs, dm, key) && SurvivesDecoding(key)
    requires Achieves(cs, PerformAll(cs, dm[IndexOf(cs, dm, key)].value, CreatePatches(cs, "", from, to)), to)
    ensures PerformAll(cs, Object(dm), CreatePatches(cs, ChildPath("", key), from, to)) == Outcome(0, Some(Object(dm')))
    ensures Updated(cs, dm, dm', key, Some(c), !Replaced(from, to)) && Same(cs, c, to)
  {
    var i, t := IndexOf(cs, dm, key), Encode(key);
    assert ChildPath("", key) == "/" + t;
    var edits := CreatePatches(cs, "/" + t, from, to);
    MemberLeads(cs, dm, key);
    CreateIsPrefixed(cs, "/" + t, from, to);
    PerformChild(cs, Object(dm), t, i, from, to);
    if Replaced(from, to) {
      c, dm' := to, RemoveKey(cs, dm, key) + [Member(key, to)];
      ReplaceMember(cs, dm, key, to);
      SameReflexive(cs, to);
      UpdatedByMove(cs, dm, Member(key, to));
    } else {
      c :| Same(cs, c, to) && PerformAll(cs, Object(dm), edits) == Outcome(0, Some(WithChild(Object(dm), i, c)));
      dm' := dm[i := Member(dm[i].key, c)];
      UpdatedInPlace(cs, dm, key, c);
    }
  }

  /** The head of `fs` is in the document and unpatched, and if it is edited, nothing hides it. */
  lemma {:induction false} PendingHead(cs: bool, dm: seq<Member<Json>>, from: Json, fs: seq<Member<Json>>, ts: seq<Member<Json>>, tm: seq<Member<Json>>)
    requires fs != [] && Among(from, fs) && StrictlySorted(cs, fs) && Pending(cs, dm, from, fs, ts, tm)
    ensures var k := fs[0].key;
      && Lookup(cs, fs, k) == Some(fs[0].value) && UniqueKeys(cs, dm) && IndexOf(cs, dm, k) < |dm|
      && Lookup(cs, ts, k) == Lookup(cs, tm, k)
      && var d := dm[IndexOf(cs, dm, k)].value;
         && Same(cs, d, fs[0].value) && Unique(cs, d)
         && if Edited(Some(fs[0].value), Lookup(cs, ts, k)) then Visible(cs, dm, k)
            else EditsLand(cs, d, fs[0].value, Lookup(cs, ts, k).value)
  {
    hide Same, Unique, Fold, EditsLand;
    var k := fs[0].key;
    assert PendingAt(cs, dm, from, fs, ts, tm, k);
    assert IndexOf(cs, fs, k) == 0;
    if Edited(Some(fs[0].value), Lookup(cs, ts, k)) {
      HeadIsVisible(cs, dm, fs, ts);
    }
  }

  lemma {:induction false} HeadIsVisible(cs: bool, dm: seq<Member<Json>>, fs: seq<Member<Json>>, ts: seq<Member<Json>>)
    requires fs != [] && StrictlySorted(cs, fs) && UniqueKeys(cs, dm)
    requires IndexOf(cs, dm, fs[0].key) < |dm| && Unshadowed(cs, dm, fs, ts, fs[0].key)
    ensures Visible(cs, dm, fs[0].key)
  {
    var k := fs[0].key;
    var (p, q) := (IndexOf(false, dm, k), IndexOf(cs, dm, k));
    assert KeyEq(cs, dm[q].key, k) ==> KeyEq(false, dm[q].key, k);
    assert p <= q;
    if p < q {
      var x := dm[p].key;
      IndexOfOwnKey(cs, dm, p);
      assert Edited(Lookup(cs, fs, x), Lookup(cs, ts, x)) && CompareStrings(cs, x, k) < 0;
      var i := IndexOf(cs, fs, x);
      assert KeyEq(cs, fs[i].key, x);
      if i > 0 {
        assert CompareStrings(cs, fs[0].key, fs[i].key) < 0;
        StrCmpAntisymmetric(Fold(cs, fs[0].key), Fold(cs, fs[i].key));
      }
      StrCmpZero(Fold(cs, k), Fold(cs, x));
      assert false;
    }
  }

  lemma {:induction false} PendingNone(cs: bool, dm: seq<Member<Json>>, from: Json, tm: seq<Member<Json>>)
    requires Among(from, []) && Pending(cs, dm, from, [], [], tm)
    ensures Same(cs, Object(dm), Object(tm))
  {
    hide Same, Fold;
    forall key: string ensures SameLookup(cs, dm, tm, key) { assert PendingAt(cs, dm, from, [], [], tm, key); }
    SameByLookups(cs, dm, tm);
  }

  /** What the walk over the two sorted lists keeps. */
  ghost predicate Walking(cs: bool, dm: seq<Member<Json>>, from: Json, to: Json, fs: seq<Member<Json>>, ts: seq<Member<Json>>) {
    && from.Object? && to.Object?
    && Unique(cs, from) && Unique(cs, to) && EndsDecode(cs, from.members, to.members)
    && Among(from, fs) && Among(to, ts)
    && StrictlySorted(cs, fs) && StrictlySorted(cs, ts)
    && Pending(cs, dm, from, fs, ts, to.members)
  }

  lemma {:induction false} ObjectRoundTrip(
    cs: bool, dm: seq<Member<Json>>, from: Json, to: Json, fs: seq<Member<Json>>, ts: seq<Member<Json>>)
    requires Walking(cs, dm, from, to, fs, ts)
    ensures Achieves(cs, PerformAll(cs, Object(dm), ObjectPatches(cs, "", from, fs, ts)), to)
    decreases from, 0, |fs| + |ts|, 1
  {
    hide Perform, Pending, Fold, Unique, RemoveKey, EditsLand, CompareStrings;
    if fs == [] && ts == [] {
      PendingNone(cs, dm, from, to.members);
    } else if fs != [] && ts != [] && CompareStrings(cs, fs[0].key, ts[0].key) == 0 {
      ObjectRoundTripBoth(cs, dm, from, to, fs, ts);
    } else if fs != [] && (ts == [] || CompareStrings(cs, fs[0].key, ts[0].key) < 0) {
      ObjectRoundTripRemoved(cs, dm, from, to, fs, ts);
    } else {
      ObjectRoundTripAdded(cs, dm, from, to, fs, ts);
    }
  }

  /** The head of `ts` under the key of the head of `fs`. */
  lemma {:induction false} SameHeads(cs: bool, fs: seq<Member<Json>>, ts: seq<Member<Json>>)
    requires fs != [] && ts != [] && CompareStrings(cs, fs[0].key, ts[0].key) == 0
    requires UniqueKeys(cs, fs) && UniqueKeys(cs, ts)
    ensures Lookup(cs, ts, fs[0].key) == Some(ts[0].value) && KeyEq(cs, fs[0].key, ts[0].key)
    ensures Dropped(cs, fs, fs[1..], fs[0].key) && Dropped(cs, ts, ts[1..], fs[0].key)
  {
    StrCmpZero(Fold(cs, fs[0].key), Fold(cs, ts[0].key));
    DroppedHead(cs, fs);
    DroppedHead(cs, ts);
    assert IndexOf(cs, ts, fs[0].key) == 0;
    hide IndexOf;
  }

  lemma {:induction false} ObjectRoundTripBoth(
    cs: bool, dm: seq<Member<Json>>, from: Json, to: Json, fs: seq<Member<Json>>, ts: seq<Member<Json>>)
    requires Walking(cs, dm, from, to, fs, ts)
    requires fs != [] && ts != [] && CompareStrings(cs, fs[0].key, ts[0].key) == 0
    ensures Achieves(cs, PerformAll(cs, Object(dm), ObjectPatches(cs, "", from, fs, ts)), to)
    decreases from, 0, |fs| + |ts|, 0
  {
    hide Perform, Pending, Fold, RemoveKey, Updated, Dropped, EditsLand, IndexOf, Lookup, Same, EndsDecode, CompareStrings, StrictlySorted;
    StrictTail(cs, fs);
    StrictTail(cs, ts);
    var (u, v) := (fs[0], ts[0]);
    SameHeads(cs, fs, ts);
    PendingHead(cs, dm, from, fs, ts, to.members);
    MemberFacts(cs, from, to, u, v);
    if Replaced(u.value, v.value) { LandsWhenReplaced(cs, dm[IndexOf(cs, dm, u.key)].value, u.value, v.value); }
    hide Unique;
    PerformRoundTrip(cs, dm[IndexOf(cs, dm, u.key)].value, u.value, v.value);
    var dm', c := PerformMember(cs, dm, u.key, u.value, v.value);
    PendingNext(cs, dm, dm', from, u.key, Some(c), !Replaced(u.value, v.value), fs, ts, fs[1..], ts[1..], to.members);
    ObjectRoundTrip(cs, dm', from, to, fs[1..], ts[1..]);
    PerformThen(cs, Object(dm), CreatePatches(cs, ChildPath("", u.key), u.value, v.value),
                ObjectPatches(cs, "", from, fs[1..], ts[1..]), Object(dm'));
  }

  /** What a pair of members takes over from the objects that hold them. */
  lemma {:induction false} MemberFacts(cs: bool, from: Json, to: Json, u: Member<Json>, v: Member<Json>)
    requires from.Object? && to.Object? && Unique(cs, from) && Unique(cs, to) && EndsDecode(cs, from.members, to.members)
    requires u in from.members && v in to.members && Lookup(cs, to.members, u.key) == Some(v.value)
    ensures Unique(cs, u.value) && Unique(cs, v.value)
    ensures Replaced(u.value, v.value) ==> SurvivesDecoding(u.key)
  {
    hide SurvivesDecoding, Lookup;
  }

  lemma {:induction false} LandsWhenReplaced(cs: bool, doc: Json, from: Json, to: Json)
    requires Replaced(from, to)
    ensures EditsLand(cs, doc, from, to)
  {
  }

  lemma {:induction false} ObjectRoundTripRemoved(
    cs: bool, dm: seq<Member<Json>>, from: Json, to: Json, fs: seq<Member<Json>>, ts: seq<Member<Json>>)
    requires Walking(cs, dm, from, to, fs, ts)
    requires fs != [] && (ts == [] || CompareStrings(cs, fs[0].key, ts[0].key) < 0)
    ensures Achieves(cs, PerformAll(cs, Object(dm), ObjectPatches(cs, "", from, fs, ts)), to)
    decreases from, 0, |fs| + |ts|, 0
  {
    hide Perform, Pending, Fold, RemoveKey, Updated, Dropped, EditsLand, IndexOf, Lookup, Same, CompareStrings, Unique;
    StrictTail(cs, fs);
    var (k, dm') := (fs[0].key, RemoveKey(cs, dm, fs[0].key));
    DroppedHead(cs, fs);
    DroppedNone(cs, ts, k);
    LookupDropped(cs, ts, k);
    hide StrictlySorted;
    PendingHead(cs, dm, from, fs, ts, to.members);
    assert fs[0] in from.members && Edited(Some(fs[0].value), Lookup(cs, to.members, k));
    RemoveMember(cs, dm, k);
    UpdatedByRemove(cs, dm, k);
    PendingNext(cs, dm, dm', from, k, None, false, fs, ts, fs[1..], ts, to.members);
    ObjectRoundTrip(cs, dm', from, to, fs[1..], ts);
    PerformOne(cs, Object(dm), Edit(Remove, ChildPath("", k), None), ObjectPatches(cs, "", from, fs[1..], ts), Object(dm'));
  }

  lemma {:induction false} ObjectRoundTripAdded(
    cs: bool, dm: seq<Member<Json>>, from: Json, to: Json, fs: seq<Member<Json>>, ts: seq<Member<Json>>)
    requires Walking(cs, dm, from, to, fs, ts)
    requires ts != [] && (fs == [] || CompareStrings(cs, fs[0].key, ts[0].key) > 0)
    ensures Achieves(cs, PerformAll(cs, Object(dm), ObjectPatches(cs, "", from, fs, ts)), to)
    decreases from, 0, |fs| + |ts|, 0
  {
    hide Perform, Fold, RemoveKey, Updated, Dropped, EditsLand, IndexOf, Same, StrCmp, Unique, KeyLands;
    StrictTail(cs, ts);
    var m := ts[0];
    var dm' := RemoveKey(cs, dm, m.key) + [m];
    if fs != [] { StrCmpAntisymmetric(Fold(cs, m.key), Fold(cs, fs[0].key)); }
    DroppedNone(cs, fs, m.key);
    LookupDropped(cs, fs, m.key);
    DroppedHead(cs, ts);
    hide StrictlySorted;
    NewKey(cs, dm, from, to, fs, ts);
    AddMember(cs, dm, m.key, m.value);
    UpdatedByMove(cs, dm, m);
    SameReflexive(cs, m.value);
    hide Pending, Lookup;
    PendingNext(cs, dm, dm', from, m.key, Some(m.value), false, fs, ts, fs, ts[1..], to.members);
    ObjectRoundTrip(cs, dm', from, to, fs, ts[1..]);
    PerformOne(cs, Object(dm), Edit(Add, ChildPath("", m.key), Some(m.value)),
               ObjectPatches(cs, "", from, fs, ts[1..]), Object(dm'));
  }

  /** The head of `ts` is new to the document. */
  lemma {:induction false} NewKey(
    cs: bool, dm: seq<Member<Json>>, from: Json, to: Json, fs: seq<Member<Json>>, ts: seq<Member<Json>>)
    requires Walking(cs, dm, from, to, fs, ts) && ts != [] && Lookup(cs, fs, ts[0].key).None?
    ensures SurvivesDecoding(ts[0].key) && Lookup(cs, ts, ts[0].key) == Some(ts[0].value)
    ensures UniqueKeys(cs, dm)
  {
    hide Same, Unique, EditsLand, KeyLands, SurvivesDecoding;
    assert PendingAt(cs, dm, from, fs, ts, to.members, ts[0].key);
    assert IndexOf(cs, ts, ts[0].key) == 0;
    assert ts[0] in to.members;
  }

  // ---------- the theorem

  /**
   The patches generated for (from, to), applied to any document that equals `from` up to member order,
   all return status 0 and leave a document that equals `to` up to member order.  `Patchable` asks for unique
   keys, that every key named at the end of a path survives the decoding there, and that no other member hides
   a removed or replaced one from the search that ignores case.
   */
  lemma {:induction false} PatchesRoundTrip(cs: bool, doc: Json, from: Json, to: Json)
    requires Patchable(cs, doc, from, to)
    ensures Achieves(cs, ApplyPatches(cs, doc, GeneratePatches(cs, from, to)), to)
  {
    ApplyDocuments(cs, doc, CreatePatches(cs, "", from, to));
    PerformRoundTrip(cs, doc, from, to);
  }

  // ---------- a condition that does not depend on the order of the members

  /** No other key of the object equals this one up to case. */
  predicate Alone(ms: seq<Member<Json>>, key: string) {
    forall n | n in ms && KeyEq(false, n.key, key) :: n.key == key
  }

  /** What one member needs in whatever order the members are. */
  ghost predicate MemberLands(cs: bool, from: Json, m: Member<Json>, t: Option<Json>)
    requires from.Object? && m in from.members
    decreases from, 0
  {
    if Edited(Some(m.value), t) then cs ==> Alone(from.members, m.key)
    else EditsLandAnywhere(cs, m.value, t.value)
  }

  /** Every generated edit reaches its member in each document that equals `from` up to member order. */
  ghost predicate EditsLandAnywhere(cs: bool, from: Json, to: Json)
    decreases from, 1
  {
    SameKind(from, to) ==>
      match from
      case Array(items) =>
        forall i | 0 <= i < |items| && i < |to.items| :: EditsLandAnywhere(cs, items[i], to.items[i])
      case Object(ms) =>
        && EndsDecode(cs, ms, to.members)
        && forall m | m in ms :: MemberLands(cs, from, m, Lookup(cs, to.members, m.key))
      case _ => true
  }

  lemma {:induction false} LandsInAnyOrder(cs: bool, doc: Json, from: Json, to: Json)
    requires Same(cs, doc, from) && EditsLandAnywhere(cs, from, to)
    ensures EditsLand(cs, doc, from, to)
    decreases from, 1
  {
    if SameKind(from, to) && from.Array? {
      forall i | 0 <= i < |from.items| && i < |to.items| ensures EditsLand(cs, doc.items[i], from.items[i], to.items[i]) {
        LandsInAnyOrder(cs, doc.items[i], from.items[i], to.items[i]);
      }
    } else if SameKind(from, to) && from.Object? {
      SameByLookups(cs, doc.members, from.members);
      forall key: string ensures KeyLands(cs, doc.members, from, from.members, to.members, key) {
        assert SameLookup(cs, doc.members, from.members, key);
        KeyLandsInAnyOrder(cs, doc.members, from, to, key);
      }
    }
  }

  lemma {:induction false} KeyLandsInAnyOrder(cs: bool, dm: seq<Member<Json>>, from: Json, to: Json, key: string)
    requires from.Object? && to.Object? && SameLookups(cs, dm, from.members) && EditsLandAnywhere(cs, from, to)
    ensures KeyLands(cs, dm, from, from.members, to.members, key)
    decreases from, 0
  {
    hide Same, Fold, EndsDecode, EditsLand;
    var (fm, tm) := (from.members, to.members);
    if Lookup(cs, fm, key).Some? {
      var m := fm[IndexOf(cs, fm, key)];
      assert SameLookup(cs, dm, fm, key) && MemberLands(cs, from, m, Lookup(cs, tm, m.key));
      LookupFold(cs, tm, m.key, key);
      if !Edited(Some(m.value), Lookup(cs, tm, key)) {
        LandsInAnyOrder(cs, Lookup(cs, dm, key).value, m.value, Lookup(cs, tm, key).value);
      } else {
        AloneIsUnshadowed(cs, dm, fm, tm, m.key, key);
      }
    }
  }

  lemma {:induction false} AloneIsUnshadowed(
    cs: bool, dm: seq<Member<Json>>, fm: seq<Member<Json>>, tm: seq<Member<Json>>, k: string, key: string)
    requires SameLookups(cs, dm, fm) && KeyEq(cs, k, key) && (cs ==> Alone(fm, k))
    ensures Unshadowed(cs, dm, fm, tm, key)
  {
    hide Same;
    forall x: string | KeyEq(false, x, key) && IndexOf(cs, dm, x) < |dm| ensures IndexOf(cs, dm, x) == IndexOf(cs, dm, key) {
      assert SameLookup(cs, dm, fm, x);
      if cs {
        assert fm[IndexOf(cs, fm, x)].key == x;
      }
      IndexOfFold(cs, dm, x, key);
    }
  }
}
