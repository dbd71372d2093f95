/** get_item_from_pointer and cJSONUtils_FindPointerFromObjectTo on trees of nodes. */
module TreePointers {
  import opened CStrings
  import opened JsonTree
  import opened Numbers
  import opened Pointers
  import opened Locations
  import opened PointerLoops
  import opened Nodes
  import opened Trees
  import opened Comparing

  predicate IsPlace(s: Shape, at: Location)
    decreases |at|
  {
    at == [] || (at[0] < |s.kids| && IsPlace(s.kids[at[0]], at[1..]))
  }

  function ShapeAt(s: Shape, at: Location): Shape
    requires IsPlace(s, at)
    decreases |at|
  {
    if at == [] then s else ShapeAt(s.kids[at[0]], at[1..])
  }

  lemma ChildValue(s: Shape)
    requires WellFormed(s)
    ensures ChildCount(ValueOf(s)) == |s.kids|
    ensures forall i | 0 <= i < |s.kids| :: Child(ValueOf(s), i) == ValueOf(s.kids[i])
  {
  }

  /** The places of the nodes are the locations of the value. */
  lemma {:induction false} PlacesAreLocations(s: Shape, at: Location)
    requires WellFormed(s)
    ensures IsPlace(s, at) <==> IsLocation(ValueOf(s), at)
    ensures IsPlace(s, at) ==>
      WellFormed(ShapeAt(s, at)) && ValueOf(ShapeAt(s, at)) == At(ValueOf(s), at)
    decreases |at|
  {
    ChildValue(s);
    if at != [] && at[0] < |s.kids| {
      PlacesAreLocations(s.kids[at[0]], at[1..]);
    }
  }

  // ---------- get_item_from_pointer

  function Behind(at: Location, r: Option<Location>): Option<Location> {
    if r.None? then None else Some(at + r.value)
  }

  lemma {:induction false} ResolveOne(cs: bool, j: Json, p: string, at: Location)
    requires p != "" && p[0] == '/'
    ensures var step := Step(cs, j, p[1..]);
      Behind(at, Resolve(cs, j, p)) ==
      if step.None? then None
      else Behind(at + [step.value], Resolve(cs, Child(j, step.value), AfterToken(p[1..])))
  {
    var step := Step(cs, j, p[1..]);
    hide Step;
    if step.Some? {
      var below := Resolve(cs, Child(j, step.value), AfterToken(p[1..]));
      if below.Some? { assert at + ([step.value] + below.value) == (at + [step.value]) + below.value; }
    }
  }

  /** get_array_item */
  method ItemAt(parent: Node, index: nat, ghost s: Shape) returns (item: Node?)
    requires IsTree(s) && s.node == parent
    ensures IsTree(s) && item == if index < |s.kids| then s.kids[index].node else null
  {
    hide IsTree;
    assert Children(parent, Roots(s.kids)) by { ChildList(s); }
    assert allocated(Reach(CellsOf(s)));
    item := GetArrayItem(parent, index, Roots(s.kids));
    assert IsTree(s);
  }

  lemma ChildList(s: Shape)
    requires IsTree(s)
    ensures Children(s.node, Roots(s.kids))
  {
    OwnCell(s, false);
  }

  /** The search for the member that the next token names. */
  method FindToken(parent: Node, p: string, cs: bool, ghost s: Shape) returns (item: Node?, ghost i: nat)
    requires IsTree(s) && s.node == parent && s.data.kind.KObject?
    ensures IsTree(s) && i == IndexOfToken(cs, MembersOf(s.kids), p)
    ensures item == if i < |s.kids| then s.kids[i].node else null
  {
    hide IsTree, MembersOf, ComparePointers, IndexOfToken, Fold, Encode, Token;
    FirstKid(s);
    item, i := parent.child, 0;
    while item != null
      invariant IsTree(s)
      invariant i <= |s.kids| && item == if i < |s.kids| then s.kids[i].node else null
      invariant forall k | 0 <= k < i :: !ComparePointers(MembersOf(s.kids)[k].key, p, cs)
      decreases |s.kids| - i
    {
      KeyTest(s, cs, "", i);
      ComparePointersExact(item.key.value, p, cs);
      assert allocated(Reach(CellsOf(s)));
      var found := ComparePointerToken(item.key.value, p, cs);
      assert IsTree(s);
      if found {
        FirstToken(cs, MembersOf(s.kids), p, i);
        return;
      }
      KeyTest(s, cs, "", i);
      item := item.next;
      i := i + 1;
    }
    FirstToken(cs, MembersOf(s.kids), p, i);
  }

  lemma {:induction false} FirstToken(cs: bool, ms: seq<Member<Json>>, p: string, i: nat)
    requires i <= |ms| && (i < |ms| ==> ComparePointers(ms[i].key, p, cs))
    requires forall k | 0 <= k < i :: !ComparePointers(ms[k].key, p, cs)
    ensures IndexOfToken(cs, ms, p) == i
  {
    hide ComparePointers;
  }

  /** Which child the next token selects; the source searches for it in two loops. */
  method StepInto(current: Node, p: string, cs: bool, ghost s: Shape) returns (next: Node?, ghost i: Option<nat>)
    requires IsTree(s) && s.node == current
    ensures IsTree(s) && i == Step(cs, ValueOf(s), p)
    ensures i.Some? ==> i.value < |s.kids|
    ensures next == if i.Some? then s.kids[i.value].node else null
  {
    hide IsTree, Step, DecodeIndex;
    FirstKid(s);
    StepOf(s, cs, p);
    if current.kind == KArray {
      assert allocated(Reach(CellsOf(s)));
      var ok, index := DecodeArrayIndex(p);
      assert IsTree(s);
      if !ok {
        return null, None;
      }
      next := ItemAt(current, index, s);
      i := if index < |s.kids| then Some(index) else None;
    } else if current.kind == KObject {
      ghost var k;
      next, k := FindToken(current, p, cs, s);
      i := if k < |s.kids| then Some(k) else None;
    } else {
      return null, None;
    }
  }

  lemma StepOf(s: Shape, cs: bool, p: string)
    requires IsTree(s)
    ensures Step(cs, ValueOf(s), p) ==
      match s.data.kind
      case KArray =>
        var index := DecodeIndex(p);
        if index.Some? && index.value < |s.kids| then index else None
      case KObject =>
        var i := IndexOfToken(cs, MembersOf(s.kids), p);
        if i < |s.kids| then Some(i) else None
      case _ => None
  {
    hide DecodeIndex, IndexOfToken;
  }

  lemma {:induction false} ShapeBelow(s: Shape, at: Location, i: nat)
    requires IsPlace(s, at) && i < |ShapeAt(s, at).kids|
    ensures IsPlace(s, at + [i]) && ShapeAt(s, at + [i]) == ShapeAt(s, at).kids[i]
    decreases |at|
  {
    if at != [] {
      ShapeBelow(s.kids[at[0]], at[1..], i);
      assert (at + [i])[1..] == at[1..] + [i];
    } else {
      assert [] + [i] == [i] && [i][1..] == [];
    }
  }

  lemma {:induction false} TreeBelow(s: Shape, at: Location)
    requires IsTree(s) && IsPlace(s, at)
    ensures IsTree(ShapeAt(s, at))
    decreases |at|
  {
    if at != [] {
      KidIsTree(s, at[0]);
      TreeBelow(s.kids[at[0]], at[1..]);
    }
  }

  /** Skips to the next token or the end. */
  method SkipToken(p: string, start: nat) returns (i: nat)
    requires start <= |p|
    ensures start <= i <= |p| && p[i..] == AfterToken(p[start..])
  {
    i := start;
    while i < |p| && p[i] != '/'
      invariant start <= i <= |p| && AfterToken(p[start..]) == AfterToken(p[i..])
      decreases |p| - i
    {
      assert p[i..][1..] == p[i + 1..];
      i := i + 1;
    }
  }

  lemma ResolveEnd(cs: bool, j: Json, p: string)
    requires p == "" || p[0] != '/'
    ensures Resolve(cs, j, p) == Some([])
  {
  }

  /** get_item_from_pointer: the node at the location that the pointer resolves to, or null. */
  method GetItem(root: Node, pointer: string, cs: bool, ghost s: Shape) returns (item: Node?, ghost at: Option<Location>)
    requires IsTree(s) && s.node == root
    ensures IsTree(s) && at == Resolve(cs, ValueOf(s), pointer)
    ensures at.Some? ==> IsPlace(s, at.value)
    ensures item == if at.Some? then ShapeAt(s, at.value).node else null
  {
    hide IsTree, Resolve, Step, AfterToken, ValueOf;
    var current, i: nat := root, 0;
    ghost var done: Location := [];
    assert pointer[0..] == pointer;
    BehindNothing(Resolve(cs, ValueOf(s), pointer));
    while i < |pointer| && pointer[i] == '/'
      invariant i <= |pointer| && IsTree(s) && IsPlace(s, done)
      invariant current == ShapeAt(s, done).node
      invariant Resolve(cs, ValueOf(s), pointer) == Behind(done, Resolve(cs, ValueOf(ShapeAt(s, done)), pointer[i..]))
      decreases |pointer| - i
    {
      ghost var u := ShapeAt(s, done);
      TreeBelow(s, done);
      ResolveOne(cs, ValueOf(u), pointer[i..], done);
      assert pointer[i..][1..] == pointer[i + 1..];
      i := i + 1;
      assert allocated(Reach(CellsOf(s)));
      var next;
      ghost var k;
      next, k := StepInto(current, pointer[i..], cs, u);
      assert IsTree(s);
      if next == null {
        return null, None;
      }
      ChildAt(s, done, k.value);
      done := done + [k.value];
      current := next;
      assert allocated(Reach(CellsOf(s)));
      i := SkipToken(pointer, i);
      assert IsTree(s);
    }
    ResolveEnd(cs, ValueOf(ShapeAt(s, done)), pointer[i..]);
    BehindEnd(done);
    item, at := current, Some(done);
  }

  lemma BehindNothing(r: Option<Location>)
    ensures Behind([], r) == r
  {
    if r.Some? { assert [] + r.value == r.value; }
  }

  lemma BehindEnd(at: Location)
    ensures Behind(at, Some([])) == Some(at)
  {
    assert at + [] == at;
  }

  lemma {:induction false} ChildAt(s: Shape, at: Location, i: nat)
    requires IsTree(s) && IsPlace(s, at) && i < |ShapeAt(s, at).kids|
    ensures IsPlace(s, at + [i]) && ShapeAt(s, at + [i]) == ShapeAt(s, at).kids[i]
    ensures i < ChildCount(ValueOf(ShapeAt(s, at))) && Child(ValueOf(ShapeAt(s, at)), i) == ValueOf(ShapeAt(s, at).kids[i])
  {
    ShapeBelow(s, at, i);
    PlacesAreLocations(s, at);
    ChildValue(ShapeAt(s, at));
  }

  // ---------- cJSONUtils_FindPointerFromObjectTo

  /** The buffer for "/", the escaped key, the pointer below and a NUL is exactly long enough. */
  method JoinKey(key: string, below: string) returns (full: array<char>)
    ensures full[..] == "/" + Encode(key) + below + [NUL]
  {
    hide Encode;
    var size := PointerEncodedLength(key);
    full := new char[|below| + size + 2];
    full[0] := '/';
    EncodeStringAsPointer(full, 1, key);
    for k := 0 to |below|
      invariant full[0] == '/'
      invariant forall i | 0 <= i < |Encode(key)| :: full[1 + i] == Encode(key)[i]
      invariant forall i | 0 <= i < k :: full[1 + |Encode(key)| + i] == below[i]
    {
      full[1 + size + k] := below[k];
    }
    full[1 + size + |below|] := NUL;
    ghost var text := "/" + Encode(key) + below + [NUL];
    forall i | 0 <= i < |text| ensures full[i] == text[i] {
      if 1 <= i <= size { assert full[1 + (i - 1)] == Encode(key)[i - 1]; }
      if size < i <= size + |below| { assert full[1 + |Encode(key)| + (i - 1 - size)] == below[i - 1 - size]; }
    }
  }

  lemma {:induction false} PointerStep(s: Shape, i: nat, below: Location)
    requires WellFormed(s) && i < |s.kids| && IsPlace(s.kids[i], below)
    ensures IsPlace(s, [i] + below) && ShapeAt(s, [i] + below) == ShapeAt(s.kids[i], below)
    ensures IsLocation(ValueOf(s), [i] + below) && IsLocation(ValueOf(s.kids[i]), below)
    ensures var rest := PointerTo(ValueOf(s.kids[i]), below);
      PointerTo(ValueOf(s), [i] + below) == "/" + (if s.data.kind.KArray? then Decimal(i) else Encode(KeyOf(s.kids[i]))) + rest
  {
    var at := [i] + below;
    assert at[1..] == below && at[0] == i;
    PlacesAreLocations(s.kids[i], below);
    ChildValue(s);
    TokenOfKid(s, i);
    hide Encode, Decimal, ValueOf, WellFormed;
    LocationStep(ValueOf(s), i, below);
  }

  lemma {:induction false} LocationStep(j: Json, i: nat, below: Location)
    requires i < ChildCount(j) && IsLocation(Child(j, i), below)
    ensures IsLocation(j, [i] + below)
    ensures PointerTo(j, [i] + below) == "/" + TokenFor(j, i) + PointerTo(Child(j, i), below)
  {
    var at := [i] + below;
    assert at[1..] == below && at[0] == i;
    hide TokenFor;
  }

  lemma TokenOfKid(s: Shape, i: nat)
    requires WellFormed(s) && i < |s.kids|
    ensures i < ChildCount(ValueOf(s))
    ensures TokenFor(ValueOf(s), i) == if s.data.kind.KArray? then Decimal(i) else Encode(KeyOf(s.kids[i]))
  {
    hide Encode, Decimal;
    ChildValue(s);
  }

  /** The pointer to a node of the tree; none exactly when the node is not in the tree. */
  method FindPointer(root: Node, target: Node, ghost s: Shape) returns (pointer: Option<string>, ghost at: Location)
    requires IsTree(s) && s.node == root
    ensures IsTree(s) && (pointer.Some? <==> target in NodesOf(s))
    ensures pointer.Some? ==> IsPlace(s, at) && ShapeAt(s, at).node == target
    ensures pointer.Some? ==> IsLocation(ValueOf(s), at) && pointer.value == PointerTo(ValueOf(s), at)
    decreases s
  {
    hide IsTree, PointerTo, IsLocation, NodesOf, ValueOf, IsPlace, ShapeAt;
    NodesSplit(s);
    if root == target {
      RootPointer(s);
      return Some(""), [];
    }
    FirstKid(s);
    var child, index := root.child, 0;
    while child != null
      invariant IsTree(s) && index <= |s.kids| && child == if index < |s.kids| then s.kids[index].node else null
      invariant target !in Trees.Below(s.kids[..index])
      decreases |s.kids| - index
    {
      var below;
      ghost var rest;
      KidIsTree(s, index);
      assert allocated(Reach(CellsOf(s)));
      below, rest := FindPointer(child, target, s.kids[index]);
      assert IsTree(s);
      BelowNext(s.kids, index);
      if below.Some? {
        KidIn(s.kids, index);
        KidKind(s, index);
        PointerStep(s, index, rest);
        at := [index] + rest;
        if root.kind == KArray {
          return Some("/" + Decimal(index) + below.value), at;
        }
        var full := JoinKey(child.key.value, below.value);
        assert full[..][..full.Length - 1] == "/" + Encode(child.key.value) + below.value;
        return Some(full[..full.Length - 1]), at;
      }
      NextKid(s, index);
      child := child.next;
      index := index + 1;
    }
    assert s.kids[..index] == s.kids;
    return None, [];
  }

  lemma NodesSplit(s: Shape)
    ensures NodesOf(s) == {s.node} + Trees.Below(s.kids) && Trees.Below(s.kids[..0]) == {}
  {
  }

  lemma RootPointer(s: Shape)
    ensures IsPlace(s, []) && ShapeAt(s, []) == s && IsLocation(ValueOf(s), []) && PointerTo(ValueOf(s), []) == ""
  {
  }

  lemma BelowNext(kids: seq<Shape>, i: nat)
    requires i < |kids|
    ensures Trees.Below(kids[..i + 1]) == Trees.Below(kids[..i]) + NodesOf(kids[i])
  {
    assert kids[..i + 1] == kids[..i] + [kids[i]];
    BelowAppend(kids[..i], [kids[i]]);
    BelowOne(kids[i]);
  }

  lemma KidKind(s: Shape, i: nat)
    requires IsTree(s) && i < |s.kids|
    ensures WellFormed(s) && s.node.kind == s.data.kind && (s.data.kind.KArray? || s.data.kind.KObject?)
    ensures s.data.kind.KObject? ==> s.kids[i].node.key == Some(KeyOf(s.kids[i]))
  {
    OwnCell(s, false);
    KidFacts(s, false, i);
  }

  /** Case-sensitively, in a tree with unique keys, the pointer that is found for a node leads back to that node. */
  method FindThenGetNode(root: Node, target: Node, cs: bool, ghost s: Shape) returns (found: Node?)
    requires IsTree(s) && s.node == root && Unique(cs, ValueOf(s))
    ensures IsTree(s) && found == if target in NodesOf(s) then target else null
  {
    hide IsTree, PointerTo, IsLocation, NodesOf, ValueOf, IsPlace, ShapeAt, Unique;
    assert allocated(Reach(CellsOf(s)));
    var pointer;
    ghost var at, back;
    pointer, at := FindPointer(root, target, s);
    if pointer.None? {
      return null;
    }
    UniqueIsVisible(cs, ValueOf(s), at);
    FindThenGet(cs, ValueOf(s), at);
    found, back := GetItem(root, pointer.value, cs, s);
  }
}
