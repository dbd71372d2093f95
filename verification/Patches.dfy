/** JSON Patch (RFC 6902, section 4): the patch documents, the interpreter and the generator. */
module Patches {
  import opened CStrings
  import opened JsonTree
  import opened Sequences
  import opened Numbers
  import opened Pointers
  import opened Locations
  import opened Sorting
  import opened Equality
  import opened Members

  /** The operations that the generator emits. */
  datatype Change = Add | Remove | Replace

  datatype Operation = Invalid | Do(change: Change) | Move | Copy | Test

  /** One generated patch before it is written out as an object. */
  datatype Edit = Edit(op: Change, path: string, value: Option<Json>)

  /** `doc` is None after the root itself was removed: the item is then of type cJSON_Invalid. */
  datatype Outcome = Outcome(status: nat, doc: Option<Json>)

  // ---------- patch documents

  function ChangeName(op: Change): string {
    match op
    case Add => "add"
    case Remove => "remove"
    case Replace => "replace"
  }

  function DecodeOperation(name: Option<Json>): Operation {
    if name.None? || !name.value.String? then Invalid
    else if name.value.s == "add" then Do(Add)
    else if name.value.s == "remove" then Do(Remove)
    else if name.value.s == "replace" then Do(Replace)
    else if name.value.s == "move" then Move
    else if name.value.s == "copy" then Copy
    else if name.value.s == "test" then Test
    else Invalid
  }

  /** compose_patch: the object that holds one patch. */
  function PatchDocument(e: Edit): Json {
    Object([Member("op", String(ChangeName(e.op))), Member("path", String(e.path))]
           + if e.value.Some? then [Member("value", e.value.value)] else [])
  }

  function Field(cs: bool, patch: Json, name: string): Option<Json> {
    if patch.Object? then Lookup(cs, patch.members, name) else None
  }

  // ---------- edits of one container

  function WithoutChild(j: Json, i: nat): Json
    requires i < ChildCount(j)
  {
    match j
    case Array(items) => Array(Without(items, i))
    case Object(ms) => Object(Without(ms, i))
  }

  /** The last '/' splits a pointer into the pointer to the parent and the token of the child. */
  function SplitLast(p: string): Option<(string, string)> {
    if p == "" then None
    else
      var (init, last) := (p[..|p| - 1], p[|p| - 1]);
      if last == '/' then Some((init, ""))
      else match SplitLast(init)
           case None => None
           case Some(split) => Some((split.0, split.1 + [last]))
  }

  /** The child that detach_path removes: objects are searched without regard to case, whatever the flag. */
  function ChildToDetach(parent: Json, token: string): (r: Option<nat>)
    ensures r.Some? ==> r.value < ChildCount(parent)
  {
    match parent
    case Array(items) =>
      var index := DecodeIndex(token);
      if index.Some? && index.value < |items| then index else None
    case Object(ms) =>
      var i := IndexOf(false, ms, token);
      if i < |ms| then Some(i) else None
    case _ => None
  }

  /** detach_path: the location it detaches, if it finds one. */
  function DetachTarget(cs: bool, doc: Json, path: string): (r: Option<(Location, nat)>)
    ensures r.Some? ==> IsLocation(doc, r.value.0) && r.value.1 < ChildCount(At(doc, r.value.0))
  {
    match SplitLast(path)
    case None => None
    case Some(split) =>
      match Resolve(cs, doc, split.0)
      case None => None
      case Some(at) =>
        match ChildToDetach(At(doc, at), Decode(split.1))
        case None => None
        case Some(i) => Some((at, i))
  }

  function Detach(doc: Json, target: (Location, nat)): Json
    requires IsLocation(doc, target.0) && target.1 < ChildCount(At(doc, target.0))
  {
    Put(doc, target.0, WithoutChild(At(doc, target.0), target.1))
  }

  /** Adding a value under a decoded token: the status, and the container afterwards. */
  function AddChild(cs: bool, parent: Json, token: string, v: Json): (nat, Json) {
    match parent
    case Array(items) =>
      if token == "-" then (0, Array(items + [v]))
      else
        var index := DecodeIndex(token);
        if index.None? then (11, parent)
        else if index.value > |items| then (10, parent)
        else (0, Array(InsertAt(items, index.value, v)))
    case Object(ms) => (0, Object(RemoveKey(cs, ms, token) + [Member(token, v)]))
    case _ => (9, parent)
  }

  function AddAt(cs: bool, doc: Json, path: string, v: Json): Outcome {
    match SplitLast(path)
    case None => Outcome(9, Some(doc))
    case Some(split) =>
      match Resolve(cs, doc, split.0)
      case None => Outcome(9, Some(doc))
      case Some(at) =>
        var (status, parent) := AddChild(cs, At(doc, at), Decode(split.1), v);
        Outcome(status, Some(Put(doc, at, parent)))
  }

  // ---------- apply_patch

  function AddOrFail(cs: bool, doc: Json, path: string, v: Option<Json>): Outcome {
    if v.None? then Outcome(7, Some(doc)) else AddAt(cs, doc, path, v.value)
  }

  /** The part of apply_patch for "add", "remove" and "replace", on decoded operands. */
  function Perform(cs: bool, doc: Json, e: Edit): Outcome {
    if e.path == "" then
      if e.op == Remove then Outcome(0, None)
      else if e.value.None? then Outcome(7, Some(doc))
      else Outcome(0, e.value)
    else if e.op == Add then AddOrFail(cs, doc, e.path, e.value)
    else
      var target := DetachTarget(cs, doc, e.path);
      if target.None? then Outcome(13, Some(doc))
      else if e.op == Remove then Outcome(0, Some(Detach(doc, target.value)))
      else AddOrFail(cs, Detach(doc, target.value), e.path, e.value)
  }

  /** "move" and "copy": the value comes from the document, detached or duplicated. */
  function Transfer(cs: bool, doc: Json, op: Operation, path: string, from: Option<Json>): Outcome {
    if from.None? then Outcome(4, Some(doc))
    else if !from.value.String? then Outcome(5, Some(doc))
    else if op == Move then
      var target := DetachTarget(cs, doc, from.value.s);
      if target.None? then Outcome(5, Some(doc))
      else AddAt(cs, Detach(doc, target.value), path, Child(At(doc, target.value.0), target.value.1))
    else
      var source := Resolve(cs, doc, from.value.s);
      if source.None? then Outcome(5, Some(doc)) else AddAt(cs, doc, path, At(doc, source.value))
  }

  function TestStatus(cs: bool, doc: Json, path: string, expected: Option<Json>): nat {
    var found := Resolve(cs, doc, path);
    if found.Some? && expected.Some? && CompareSorted(cs, At(doc, found.value), expected.value) then 0 else 1
  }

  function ApplyPatch(cs: bool, doc: Json, patch: Json): Outcome {
    var path := Field(cs, patch, "path");
    if path.None? || !path.value.String? then Outcome(2, Some(doc))
    else
      var op := DecodeOperation(Field(cs, patch, "op"));
      match op
      case Invalid => Outcome(3, Some(doc))
      case Test => Outcome(TestStatus(cs, doc, path.value.s, Field(cs, patch, "value")), Some(doc))
      case Move => Transfer(cs, doc, op, path.value.s, Field(cs, patch, "from"))
      case Copy => Transfer(cs, doc, op, path.value.s, Field(cs, patch, "from"))
      case Do(change) => Perform(cs, doc, Edit(change, path.value.s, Field(cs, patch, "value")))
  }

  /** cJSONUtils_ApplyPatches: in order, up to the first failure. */
  function ApplyAll(cs: bool, doc: Json, patches: seq<Json>): Outcome
    decreases |patches|
  {
    if patches == [] then Outcome(0, Some(doc))
    else
      var first := ApplyPatch(cs, doc, patches[0]);
      if first.status != 0 || first.doc.None? then first else ApplyAll(cs, first.doc.value, patches[1..])
  }

  function ApplyPatches(cs: bool, doc: Json, patches: Json): Outcome {
    if patches.Array? then ApplyAll(cs, doc, patches.items) else Outcome(1, Some(doc))
  }

  // ---------- create_patches

  predicate SameKind(a: Json, b: Json) {
    match a
    case Null => b.Null?
    case False => b.False?
    case True => b.True?
    case Number(_) => b.Number?
    case String(_) => b.String?
    case Array(_) => b.Array?
    case Object(_) => b.Object?
  }

  function ChildPath(path: string, token: string): string {
    path + "/" + Encode(token)
  }

  function CreatePatches(cs: bool, path: string, from: Json, to: Json): seq<Edit>
    decreases from, 1, 0
  {
    if !SameKind(from, to) then [Edit(Replace, path, Some(to))]
    else match from
      case Array(items) => ArrayPatches(cs, path, from, to, 0)
      case Object(ms) => ObjectPatches(cs, path, from, SortedMembers(cs, ms), SortedMembers(cs, to.members))
      case _ => if from == to then [] else [Edit(Replace, path, Some(to))]
  }

  /** From element i on: patches for the pairs, then removals, then additions at the end. */
  function ArrayPatches(cs: bool, path: string, from: Json, to: Json, i: nat): seq<Edit>
    requires from.Array? && to.Array? && i <= Max(|from.items|, |to.items|)
    decreases from, 0, Max(|from.items|, |to.items|) - i
  {
    if i < |from.items| && i < |to.items| then
      CreatePatches(cs, path + "/" + Decimal(i), from.items[i], to.items[i]) + ArrayPatches(cs, path, from, to, i + 1)
    else if i < |from.items| then
      [Edit(Remove, ChildPath(path, Decimal(|to.items|)), None)] + ArrayPatches(cs, path, from, to, i + 1)
    else if i < |to.items| then
      [Edit(Add, ChildPath(path, "-"), Some(to.items[i]))] + ArrayPatches(cs, path, from, to, i + 1)
    else []
  }

  function SortedMembers(cs: bool, ms: seq<Member<Json>>): (s: seq<Member<Json>>)
    ensures forall i | 0 <= i < |s| :: s[i] in ms
  {
    assert forall i | 0 <= i < |ms| :: MergeSort(cs, ms)[i] in ms by {
      forall i | 0 <= i < |ms| ensures MergeSort(cs, ms)[i] in ms { SortedMember(cs, ms, i); }
    }
    MergeSort(cs, ms)
  }

  /** Walks both sorted member lists at once; `from` only bounds the recursion. */
  function ObjectPatches(cs: bool, path: string, ghost from: Json, fs: seq<Member<Json>>, ts: seq<Member<Json>>): seq<Edit>
    requires from.Object? && forall i | 0 <= i < |fs| :: fs[i] in from.members
    decreases from, 0, |fs| + |ts|
  {
    if fs == [] && ts == [] then []
    else
      var diff := if fs == [] then 1 else if ts == [] then -1 else CompareStrings(cs, fs[0].key, ts[0].key);
      if diff == 0 then
        CreatePatches(cs, ChildPath(path, fs[0].key), fs[0].value, ts[0].value)
        + ObjectPatches(cs, path, from, fs[1..], ts[1..])
      else if diff < 0 then
        [Edit(Remove, ChildPath(path, fs[0].key), None)] + ObjectPatches(cs, path, from, fs[1..], ts)
      else
        [Edit(Add, ChildPath(path, ts[0].key), Some(ts[0].value))] + ObjectPatches(cs, path, from, fs, ts[1..])
  }

  /** cJSONUtils_GeneratePatches: the array of patch objects. */
  function GeneratePatches(cs: bool, from: Json, to: Json): Json {
    var edits := CreatePatches(cs, "", from, to);
    Array(Documents(edits))
  }

  function Documents(edits: seq<Edit>): (r: seq<Json>)
    ensures |r| == |edits|
  {
    if edits == [] then [] else [PatchDocument(edits[0])] + Documents(edits[1..])
  }
}
