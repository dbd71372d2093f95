/** What the operations of JSON Patch do (sections 4.1 to 4.5 of RFC 6902), stated on the patch objects themselves. */
module PatchOperations {
  import opened CStrings
  import opened JsonTree
  import opened Sequences
  import opened Members
  import opened Pointers
  import opened Locations
  import opened Patches
  import opened PointerTokens

  /** The patch asks for this operation at this path. */
  ghost predicate Asks(cs: bool, patch: Json, op: string, path: string) {
    Field(cs, patch, "op") == Some(String(op)) && Field(cs, patch, "path") == Some(String(path))
  }

  ghost predicate IsLastSlash(path: string, k: nat) {
    k < |path| && path[k] == '/' && '/' !in path[k + 1..]
  }

  /** The name in the last token of a path. */
  function NameIn(path: string, k: nat): string
    requires k < |path|
  {
    Decode(path[k + 1..])
  }

  // ---------- children by name

  /** The first member whose key equals the name under the flag. */
  ghost predicate IsFirst(cs: bool, ms: seq<Member<Json>>, name: string, i: nat) {
    i < |ms| && KeyEq(cs, ms[i].key, name) && forall k | 0 <= k < i :: !KeyEq(cs, ms[k].key, name)
  }

  /** Child i is what removing takes out: an element by its index, a member by its name up to case. */
  ghost predicate IsNamed(parent: Json, name: string, i: nat) {
    match parent
    case Array(items) => DecodeIndex(name) == Some(i) && i < |items|
    case Object(ms) => IsFirst(false, ms, name, i)
    case _ => false
  }

  /** The path leads to child i of the container at `at`. */
  ghost predicate Finds(cs: bool, doc: Json, path: string, k: nat, at: Location, i: nat) {
    && IsLastSlash(path, k) && Resolve(cs, doc, path[..k]) == Some(at)
    && IsNamed(At(doc, at), NameIn(path, k), i)
  }

  function TakeOut(parent: Json, i: nat): Json
    requires i < ChildCount(parent)
  {
    match parent
    case Array(items) => Array(items[..i] + items[i + 1..])
    case Object(ms) => Object(ms[..i] + ms[i + 1..])
  }

  /** Section 4.1: what adding under a name makes of a container, and the status. */
  ghost predicate Added(cs: bool, parent: Json, name: string, v: Json, status: nat, r: Json) {
    match parent
    case Array(items) =>
      if name == "-" then status == 0 && r == Array(items + [v])
      else if DecodeIndex(name).None? then status == 11 && r == parent
      else
        var i := DecodeIndex(name).value;
        if i > |items| then status == 10 && r == parent else status == 0 && r == Array(items[..i] + [v] + items[i..])
    case Object(ms) =>
      && status == 0
      && (forall i: nat | IsFirst(cs, ms, name, i) :: r == Object(ms[..i] + ms[i + 1..] + [Member(name, v)]))
      && ((forall i | 0 <= i < |ms| :: !KeyEq(cs, ms[i].key, name)) ==> r == Object(ms + [Member(name, v)]))
    case _ => status == 9 && r == parent
  }

  // ---------- splitting the path

  lemma {:induction false} SplitLastAt(path: string, k: nat)
    requires IsLastSlash(path, k)
    ensures SplitLast(path) == Some((path[..k], path[k + 1..]))
  {
    var (init, last) := (path[..|path| - 1], path[|path| - 1]);
    if k == |path| - 1 {
      assert path[k + 1..] == "";
    } else {
      assert last in path[k + 1..];
      assert init[k + 1..] + [last] == path[k + 1..] && init[..k] == path[..k];
      SplitLastAt(init, k);
    }
  }

  lemma {:induction false} NoSplit(path: string)
    ensures SplitLast(path).None? <==> '/' !in path
  {
    if path != "" {
      var init := path[..|path| - 1];
      NoSplit(init);
      assert path == init + [path[|path| - 1]];
    }
  }

  /** A path with a slash has a last one. */
  lemma {:induction false} LastSlash(path: string) returns (k: nat)
    requires '/' in path
    ensures IsLastSlash(path, k)
  {
    k := |path| - 1;
    if path[k] != '/' {
      var init := path[..k];
      assert path == init + [path[k]];
      k := LastSlash(init);
      assert path[k + 1..] == init[k + 1..] + [path[|path| - 1]];
    }
  }

  lemma IndexIsFirst(cs: bool, ms: seq<Member<Json>>, name: string, i: nat)
    ensures IsFirst(cs, ms, name, i) <==> i < |ms| && i == IndexOf(cs, ms, name)
  {
    hide Fold;
    var k := IndexOf(cs, ms, name);
    assert i < k ==> !KeyEq(cs, ms[i].key, name);
  }

  lemma NamedIsDetached(parent: Json, name: string, i: nat)
    ensures IsNamed(parent, name, i) <==> ChildToDetach(parent, name) == Some(i)
  {
    if parent.Object? {
      IndexIsFirst(false, parent.members, name, i);
    }
  }

  lemma {:induction false} FoundIsDetached(cs: bool, doc: Json, path: string, k: nat, at: Location, i: nat)
    requires Finds(cs, doc, path, k, at, i)
    ensures DetachTarget(cs, doc, path) == Some((at, i))
    ensures i < ChildCount(At(doc, at)) && Detach(doc, (at, i)) == Put(doc, at, TakeOut(At(doc, at), i))
  {
    hide SplitLast, Decode, Resolve, IsNamed, ChildToDetach;
    SplitLastAt(path, k);
    NamedIsDetached(At(doc, at), NameIn(path, k), i);
  }

  lemma {:induction false} DetachedIsFound(cs: bool, doc: Json, path: string) returns (k: nat)
    requires DetachTarget(cs, doc, path).Some?
    ensures var (at, i) := DetachTarget(cs, doc, path).value; Finds(cs, doc, path, k, at, i)
  {
    hide SplitLast, Decode, Resolve, IsNamed, ChildToDetach;
    NoSplit(path);
    k := LastSlash(path);
    SplitLastAt(path, k);
    var (at, i) := DetachTarget(cs, doc, path).value;
    NamedIsDetached(At(doc, at), NameIn(path, k), i);
  }

  /**
   What is taken out is what the pointer leads to, if its last token has no '~' to be decoded and a member found has
   that name under the flag and not only up to case.
   */
  lemma {:induction false} FoundWhereItLeads(cs: bool, doc: Json, path: string, k: nat, at: Location, i: nat)
    requires Finds(cs, doc, path, k, at, i) && path[0] == '/' && '~' !in path[k + 1..]
    requires At(doc, at).Object? ==> KeyEq(cs, At(doc, at).members[i].key, path[k + 1..])
    ensures Resolve(cs, doc, path) == Some(at + [i])
  {
    var t := path[k + 1..];
    PlainNamesAreNotEscaped(t);
    DecodeUndoesEncode(t);
    assert path == path[..k] + "/" + t;
    if At(doc, at).Object? { FirstIsMemberFor(cs, At(doc, at).members, t, i); }
    hide Resolve, Decode, Encode, SurvivesDecoding, IsMemberFor, IsFirst;
    LastTokenSelects(cs, doc, path[..k], t, at, i);
  }

  lemma {:induction false} FirstIsMemberFor(cs: bool, ms: seq<Member<Json>>, t: string, i: nat)
    requires IsFirst(false, ms, t, i) && KeyEq(cs, ms[i].key, t) && Encode(t) == t
    ensures IsMemberFor(cs, ms, t, i)
  {
    EncodeFold(cs, t);
    forall k | 0 <= k < |ms| ensures Fold(cs, t) == Encode(Fold(cs, ms[k].key)) <==> KeyEq(cs, ms[k].key, t) {
      if Encode(Fold(cs, t)) == Encode(Fold(cs, ms[k].key)) { EncodeInjective(Fold(cs, t), Fold(cs, ms[k].key)); }
    }
    assert forall k | 0 <= k < i :: !KeyEq(cs, ms[k].key, t);
  }

  // ---------- remove

  /** Section 4.2: the child at the path is taken out of its container, and nothing else changes. */
  lemma {:induction false} RemoveTakesOut(cs: bool, doc: Json, patch: Json, path: string, k: nat, at: Location, i: nat)
    requires Asks(cs, patch, "remove", path) && Finds(cs, doc, path, k, at, i)
    ensures i < ChildCount(At(doc, at))
    ensures ApplyPatch(cs, doc, patch) == Outcome(0, Some(Put(doc, at, TakeOut(At(doc, at), i))))
  {
    hide Field, TakeOut, Put, At, DetachTarget, Detach;
    FoundIsDetached(cs, doc, path, k, at, i);
    assert path != "";
    hide Finds;
  }

  /** Otherwise it fails with 13 and changes nothing; the root itself becomes invalid. */
  lemma {:induction false} RemoveFindsNothing(cs: bool, doc: Json, patch: Json, path: string)
    requires Asks(cs, patch, "remove", path)
    requires forall k: nat, at, i: nat :: !Finds(cs, doc, path, k, at, i)
    ensures ApplyPatch(cs, doc, patch) == if path == "" then Outcome(0, None) else Outcome(13, Some(doc))
  {
    hide Field, Finds, DetachTarget, Detach;
    if DetachTarget(cs, doc, path).Some? {
      var k := DetachedIsFound(cs, doc, path);
    }
  }

  // ---------- add

  lemma AddChildExact(cs: bool, parent: Json, name: string, v: Json)
    ensures var (status, r) := AddChild(cs, parent, name, v); Added(cs, parent, name, v, status, r)
  {
    if parent.Object? {
      var ms := parent.members;
      hide KeyEq;
      forall i: nat | IsFirst(cs, ms, name, i) ensures RemoveKey(cs, ms, name) == ms[..i] + ms[i + 1..] {
        IndexIsFirst(cs, ms, name, i);
      }
    }
  }

  /** Section 4.1: at a path below the root the value goes into the container that the path names. */
  lemma {:induction false} AddPutsIn(cs: bool, doc: Json, patch: Json, path: string, v: Json, k: nat, at: Location)
    requires Asks(cs, patch, "add", path) && Field(cs, patch, "value") == Some(v)
    requires IsLastSlash(path, k) && Resolve(cs, doc, path[..k]) == Some(at)
    ensures exists status: nat, r: Json {:trigger Added(cs, At(doc, at), NameIn(path, k), v, status, r)} ::
      Added(cs, At(doc, at), NameIn(path, k), v, status, r) && ApplyPatch(cs, doc, patch) == Outcome(status, Some(Put(doc, at, r)))
  {
    hide Field, Decode, Resolve, Added, AddChild, Put, At;
    SplitLastAt(path, k);
    AddChildExact(cs, At(doc, at), NameIn(path, k), v);
    var (status, r) := AddChild(cs, At(doc, at), NameIn(path, k), v);
    assert ApplyPatch(cs, doc, patch) == Outcome(status, Some(Put(doc, at, r)));
  }

  /** At the root the value becomes the document; without a container to put it in, the status is 9. */
  lemma {:induction false} AddElsewhere(cs: bool, doc: Json, patch: Json, path: string, v: Json)
    requires Asks(cs, patch, "add", path) && Field(cs, patch, "value") == Some(v)
    requires forall k: nat :: IsLastSlash(path, k) ==> Resolve(cs, doc, path[..k]).None?
    ensures ApplyPatch(cs, doc, patch) == if path == "" then Outcome(0, Some(v)) else Outcome(9, Some(doc))
  {
    hide Field, Resolve, AddChild;
    if '/' in path {
      var k := LastSlash(path);
      SplitLastAt(path, k);
    } else {
      NoSplit(path);
    }
    hide IsLastSlash;
  }

  // ---------- replace, move and copy in terms of remove and add

  /** Section 4.3: "replace" is "remove" and then "add" with the same value; the root is exchanged as a whole. */
  lemma {:induction false} ReplaceIsRemoveThenAdd(
    cs: bool, doc: Json, replace: Json, remove: Json, add: Json, path: string, v: Json)
    requires Asks(cs, replace, "replace", path) && Asks(cs, remove, "remove", path) && Asks(cs, add, "add", path)
    requires Field(cs, replace, "value") == Some(v) && Field(cs, add, "value") == Some(v)
    ensures var removed := ApplyPatch(cs, doc, remove);
      ApplyPatch(cs, doc, replace) ==
      if path == "" then Outcome(0, Some(v))
      else if removed.status == 0 && removed.doc.Some? then ApplyPatch(cs, removed.doc.value, add)
      else removed
  {
    hide Field, DetachTarget, Detach, Patches.AddAt;
  }

  /** Section 4.4: "move" is "remove" at the old place and then "add" of what stood there.  Moving to the root fails. */
  lemma {:induction false} MoveIsRemoveThenAdd(
    cs: bool, doc: Json, move: Json, remove: Json, add: Json, from: string, path: string, k: nat, at: Location, i: nat)
    requires Asks(cs, move, "move", path) && Field(cs, move, "from") == Some(String(from))
    requires Asks(cs, remove, "remove", from) && Finds(cs, doc, from, k, at, i)
    requires i < ChildCount(At(doc, at))
    requires Asks(cs, add, "add", path) && Field(cs, add, "value") == Some(Child(At(doc, at), i))
    ensures var removed := ApplyPatch(cs, doc, remove);
      && removed.status == 0 && removed.doc.Some?
      && ApplyPatch(cs, doc, move) ==
         if path == "" then Outcome(9, removed.doc) else ApplyPatch(cs, removed.doc.value, add)
  {
    hide Field, TakeOut, Put, At, Child, AddChild, Resolve, DetachTarget, IsNamed, IsLastSlash;
    FoundIsDetached(cs, doc, from, k, at, i);
    RemoveTakesOut(cs, doc, remove, from, k, at, i);
    hide Finds, Detach, NameIn;
  }

  lemma {:induction false} MoveFindsNothing(cs: bool, doc: Json, move: Json, from: string, path: string)
    requires Asks(cs, move, "move", path) && Field(cs, move, "from") == Some(String(from))
    requires forall k: nat, at, i: nat :: !Finds(cs, doc, from, k, at, i)
    ensures ApplyPatch(cs, doc, move) == Outcome(5, Some(doc))
  {
    hide Field, Finds, DetachTarget, Detach;
    if DetachTarget(cs, doc, from).Some? {
      var k := DetachedIsFound(cs, doc, from);
    }
  }

  /** Section 4.5: "copy" is "add" of what stands at the old place, which stays there.  Copying to the root fails. */
  lemma {:induction false} CopyIsAdd(
    cs: bool, doc: Json, copy: Json, add: Json, from: string, path: string)
    requires Asks(cs, copy, "copy", path) && Field(cs, copy, "from") == Some(String(from)) && Asks(cs, add, "add", path)
    requires var source := Resolve(cs, doc, from); source.Some? ==> Field(cs, add, "value") == Some(At(doc, source.value))
    ensures ApplyPatch(cs, doc, copy) ==
      if Resolve(cs, doc, from).None? then Outcome(5, Some(doc))
      else if path == "" then Outcome(9, Some(doc))
      else ApplyPatch(cs, doc, add)
  {
    hide Field, Resolve, AddChild, At, Put;
  }

  // ---------- malformed patches

  ghost predicate IsText(v: Option<Json>) {
    v.Some? && v.value.String?
  }

  const OPERATIONS := ["add", "remove", "replace", "move", "copy", "test"]

  /** The status of malformed patches: the path is looked at first, then the operation, then the operands. */
  lemma {:induction false} MalformedPatch(cs: bool, doc: Json, patch: Json)
    ensures var (path, op) := (Field(cs, patch, "path"), Field(cs, patch, "op"));
      && (!IsText(path) ==> ApplyPatch(cs, doc, patch) == Outcome(2, Some(doc)))
      && (IsText(path) && !(IsText(op) && op.value.s in OPERATIONS) ==> ApplyPatch(cs, doc, patch) == Outcome(3, Some(doc)))
  {
    hide Field, Perform, Transfer, TestStatus;
    var o := OPERATIONS;
    assert o[0] == "add" && o[1] == "remove" && o[2] == "replace" && o[3] == "move" && o[4] == "copy" && o[5] == "test";
  }

  lemma {:induction false} MissingOperand(cs: bool, doc: Json, patch: Json, op: string, path: string)
    requires Asks(cs, patch, op, path)
    ensures var (from, value) := (Field(cs, patch, "from"), Field(cs, patch, "value"));
      && ((op == "move" || op == "copy") && from.None? ==> ApplyPatch(cs, doc, patch) == Outcome(4, Some(doc)))
      && ((op == "move" || op == "copy") && from.Some? && !IsText(from) ==> ApplyPatch(cs, doc, patch) == Outcome(5, Some(doc)))
      && ((op == "add" || (op == "replace" && path == "")) && value.None? ==> ApplyPatch(cs, doc, patch) == Outcome(7, Some(doc)))
      && (op == "test" && value.None? ==> ApplyPatch(cs, doc, patch) == Outcome(1, Some(doc)))
  {
    hide Field, DetachTarget, Detach, Patches.AddAt;
  }

  /** A "replace" without a value has removed the old one before it fails. */
  lemma {:induction false} ReplaceWithoutValue(cs: bool, doc: Json, replace: Json, remove: Json, path: string)
    requires path != "" && Asks(cs, replace, "replace", path) && Asks(cs, remove, "remove", path)
    requires Field(cs, replace, "value").None?
    ensures var removed := ApplyPatch(cs, doc, remove);
      ApplyPatch(cs, doc, replace) == Outcome(if removed.status == 0 then 7 else removed.status, removed.doc)
  {
    hide Field, DetachTarget, Detach;
  }

  /** Section 5: the patches are applied in order, up to the first that fails. */
  lemma {:induction false} InOrder(cs: bool, doc: Json, patches: Json, first: Json, rest: seq<Json>)
    ensures !patches.Array? ==> ApplyPatches(cs, doc, patches) == Outcome(1, Some(doc))
    ensures ApplyPatches(cs, doc, Array([])) == Outcome(0, Some(doc))
    ensures var o := ApplyPatch(cs, doc, first);
      ApplyPatches(cs, doc, Array([first] + rest)) ==
      if o.status == 0 && o.doc.Some? then ApplyPatches(cs, o.doc.value, Array(rest)) else o
  {
    hide ApplyPatch;
    assert ([first] + rest)[1..] == rest;
  }
}
