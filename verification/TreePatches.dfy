/** apply_patch on trees of nodes: the document is edited in place, the patch only read. */
module TreePatches {
  import opened CStrings
  import opened JsonTree
  import opened Sequences
  import opened Numbers
  import opened Members
  import opened Pointers
  import opened PointerLoops
  import L = Locations
  import P = Patches
  import PrintBuffers
  import opened Nodes
  import opened Trees
  import opened Comparing
  import opened TreeEdits
  import opened ObjectEdits
  import opened TreePointers
  import opened TreeFocus

  // ---------- paths

  function Glue(split: Option<(string, string)>, tail: string): Option<(string, string)> {
    if split.None? then None else Some((split.value.0, split.value.1 + tail))
  }

  lemma GlueNothing(path: string)
    ensures path[..|path|] == path && Glue(P.SplitLast(path), path[|path|..]) == P.SplitLast(path)
  {
    assert path[|path|..] == "";
    if P.SplitLast(path).Some? { assert P.SplitLast(path).value.1 + "" == P.SplitLast(path).value.1; }
  }

  lemma SplitStep(path: string, i: nat)
    requires 0 < i <= |path|
    ensures var rest := P.SplitLast(path[..i - 1]);
      Glue(P.SplitLast(path[..i]), path[i..]) ==
      if path[i - 1] == '/' then Some((path[..i - 1], path[i..])) else Glue(rest, path[i - 1..])
  {
    var rest := P.SplitLast(path[..i - 1]);
    assert path[..i][..i - 1] == path[..i - 1];
    assert [path[i - 1]] + path[i..] == path[i - 1..] && "" + path[i..] == path[i..];
    if rest.Some? {
      assert (rest.value.1 + [path[i - 1]]) + path[i..] == rest.value.1 + ([path[i - 1]] + path[i..]);
    }
  }

  /** strrchr: the last '/' splits the path. */
  method SplitPath(path: string) returns (found: bool, parent: string, child: string)
    ensures P.SplitLast(path) == if found then Some((parent, child)) else None
  {
    hide P.SplitLast, Glue;
    var i := |path|;
    GlueNothing(path);
    while i > 0 && path[i - 1] != '/'
      invariant 0 <= i <= |path| && P.SplitLast(path) == Glue(P.SplitLast(path[..i]), path[i..])
    {
      SplitStep(path, i);
      i := i - 1;
    }
    if i == 0 {
      NoSlash(path[i..]);
      return false, "", "";
    }
    SplitStep(path, i);
    return true, path[..i - 1], path[i..];
  }

  lemma NoSlash(tail: string)
    ensures Glue(P.SplitLast(""), tail) == None
  {
  }

  /** decode_pointer_inplace on a copy of the token. */
  method DecodeToken(token: string) returns (name: string)
    requires NulFree(token)
    ensures name == Decode(token)
  {
    hide Decode;
    var b := new char[|token| + 1];
    PrintBuffers.CopyText(b, 0, token);
    b[|token|] := NUL;
    assert forall i | 0 <= i < |token| :: b[0 + i] == token[i];
    assert b[..][..|token|] == token;
    NulAt(b[..], |token|);
    assert b[..][|token|] == NUL;
    DecodePointerInPlace(b);
    name := UpToNul(b[..]);
  }

  // ---------- detach_path

  lemma DetachedValue(sub: Shape, i: nat)
    requires WellFormed(sub) && i < |sub.kids|
    ensures var u := sub.(kids := Without(sub.kids, i));
      && WellFormed(u) && SameRoot(u, sub)
      && i < L.ChildCount(ValueOf(sub)) && ValueOf(u) == P.WithoutChild(ValueOf(sub), i)
      && ValueOf(sub.kids[i]) == L.Child(ValueOf(sub), i)
  {
    ChildValue(sub);
    var u := sub.(kids := Without(sub.kids, i));
    assert WellFormed(u);
    if sub.data.kind.KArray? { DetachedItem(sub, i); } else { DetachedMember(sub, i); }
    hide ValueOf;
  }

  lemma DetachedItem(sub: Shape, i: nat)
    requires sub.data.kind.KArray? && i < |sub.kids|
    ensures i < L.ChildCount(ValueOf(sub))
    ensures ValueOf(sub.(kids := Without(sub.kids, i))) == P.WithoutChild(ValueOf(sub), i)
  {
    ItemsWithout(sub.kids, i);
    hide ItemsOf;
  }

  lemma ItemsWithout(kids: seq<Shape>, i: nat)
    requires i < |kids|
    ensures ItemsOf(Without(kids, i)) == Without(ItemsOf(kids), i)
  {
    hide ValueOf;
  }

  lemma {:induction false} ItemsInsert(kids: seq<Shape>, i: nat, u: Shape)
    requires i <= |kids|
    ensures ItemsOf(InsertAt(kids, i, u)) == InsertAt(ItemsOf(kids), i, ValueOf(u))
  {
    hide ValueOf;
  }

  lemma DetachedMember(sub: Shape, i: nat)
    requires sub.data.kind.KObject? && i < |sub.kids|
    ensures i < L.ChildCount(ValueOf(sub))
    ensures ValueOf(sub.(kids := Without(sub.kids, i))) == P.WithoutChild(ValueOf(sub), i)
  {
    MembersWithout(sub, i);
  }

  /** Where the children of a node that is looked for can be. */
  ghost predicate TargetOf(s: Shape, at: L.Location, i: nat, item: Node) {
    IsPlace(s, at) && i < |ShapeAt(s, at).kids| && ShapeAt(s, at).kids[i].node == item
  }

  /** The child with the decoded token: by position, or by key whatever its case. */
  method ChildToDetach(parent: Node, token: string, ghost s: Shape) returns (item: Node?, ghost i: Option<nat>)
    requires IsTree(s) && s.node == parent
    ensures IsTree(s) && i == P.ChildToDetach(ValueOf(s), token)
    ensures i.Some? ==> i.value < |s.kids|
    ensures item == if i.Some? then s.kids[i.value].node else null
  {
    hide IsTree, L.DecodeIndex, ValueOf, MembersOf;
    FirstKid(s);
    DetachCases(s, token);
    assert allocated(Reach(CellsOf(s)));
    if parent.kind == KArray {
      var ok, index := DecodeArrayIndex(token);
      assert IsTree(s);
      if !ok {
        return null, None;
      }
      item := ItemAt(parent, index, s);
      i := if index < |s.kids| then Some(index) else None;
    } else if parent.kind == KObject {
      ghost var k;
      item, k := GetObjectItem(parent, token, false, s);
      i := if k < |s.kids| then Some(k) else None;
    } else {
      return null, None;
    }
  }

  lemma DetachCases(s: Shape, token: string)
    requires IsTree(s)
    ensures P.ChildToDetach(ValueOf(s), token) ==
      match s.data.kind
      case KArray =>
        var index := L.DecodeIndex(token);
        if index.Some? && index.value < |s.kids| then index else None
      case KObject =>
        var i := IndexOf(false, MembersOf(s.kids), token);
        if i < |s.kids| then Some(i) else None
      case _ => None
  {
    hide L.DecodeIndex, IndexOf;
  }

  /** The edit: the child and the document without it are whole trees. */
  method DetachAt(parent: Node, item: Node, ghost s: Shape, ghost at: L.Location, ghost i: nat) returns (ghost t: Shape)
    requires Linked(s, true) && WellFormed(s) && TargetOf(s, at, i, item) && ShapeAt(s, at).node == parent
    modifies parent`child, Below(ShapeAt(s, at).kids)`next, Below(ShapeAt(s, at).kids)`prev
    ensures Linked(t, true) && WellFormed(t) && SameRoot(t, s)
    ensures L.IsLocation(ValueOf(s), at) && i < L.ChildCount(L.At(ValueOf(s), at))
    ensures ValueOf(t) == P.Detach(ValueOf(s), (at, i))
    ensures var u := ShapeAt(s, at).kids[i];
      && Loose(u) && ValueOf(u) == L.Child(L.At(ValueOf(s), at), i)
      && NodesOf(s) == NodesOf(t) + NodesOf(u) && NodesOf(t) !! NodesOf(u)
  {
    hide Below, CellsBelow, CellsOf, NodesOf, Reach, Linked, WellFormed, ValueOf, OutsideCells, ShapeAt, PutShape;
    ghost var sub, out := ShapeAt(s, at), OutsideCells(s, at);
    BeforeEdit(s, at, true);
    PlacesAreLocations(s, at);
    DetachedValue(sub, i);
    WholeIsSeparate(s);
    assert allocated(out);
    ghost var v := DetachKid(parent, item, sub, i);
    forall c | c in out ensures Holds(c, true) {
      assert old(Holds(c, true));
    }
    KidIsLoose(sub, i);
    t := PutShape(s, at, v);
    AfterEdit(s, at, v, true);
  }

  lemma WholeIsSeparate(s: Shape)
    requires Linked(s, true)
    ensures Separate(s)
  {
  }

  ghost predicate DetachedFrom(s: Shape, t: Shape, item: Node, u: Shape)
    reads Reach(CellsOf(t)), Reach(CellsOf(u)), u.node
  {
    && Loose(u) && u.node == item && NodesOf(t) <= NodesOf(s) && NodesOf(u) <= NodesOf(s) && NodesOf(t) !! NodesOf(u)
  }

  /** detach_path: the item at the path, if DetachTarget finds one, and the document without it. */
  method DetachPath(root: Node, path: string, cs: bool, ghost s: Shape)
    returns (item: Node?, ghost t: Shape, ghost u: Option<Shape>)
    requires Linked(s, true) && WellFormed(s) && s.node == root && NulFree(path)
    modifies NodesOf(s) - {root}, root`child
    ensures Linked(t, true) && WellFormed(t) && SameRoot(t, s)
    ensures var target := P.DetachTarget(cs, ValueOf(s), path);
      if target.None? then item == null && t == s
      else
        && ValueOf(t) == P.Detach(ValueOf(s), target.value)
        && item != null && u.Some? && DetachedFrom(s, t, item, u.value)
        && ValueOf(u.value) == L.Child(L.At(ValueOf(s), target.value.0), target.value.1)
  {
    hide Below, CellsOf, NodesOf, Reach, Linked, WellFormed, ValueOf, ShapeAt, Decode, P.ChildToDetach, IsTree, L.Resolve, P.Detach;
    item, t, u := null, s, None;
    assert allocated(Reach(CellsOf(s)));
    var found, parentPath, token := SplitPath(path);
    assert Linked(s, true);
    if !found {
      return;
    }
    TreeOf(s);
    var parent;
    ghost var at, i;
    assert allocated(Reach(CellsOf(s)));
    parent, at := GetItem(root, parentPath, cs, s);
    assert Linked(s, true) && IsTree(s);
    SplitParts(path);
    token := DecodeToken(token);
    assert Linked(s, true) && IsTree(s);
    if parent == null {
      return;
    }
    ghost var sub := ShapeAt(s, at.value);
    TreeBelow(s, at.value);
    PlacesAreLocations(s, at.value);
    var child;
    child, i := ChildToDetach(parent, token, sub);
    assert Linked(s, true);
    if child == null {
      return;
    }
    BeforeEdit(s, at.value, true);
    t := DetachAt(parent, child, s, at.value, i.value);
    item, u := child, Some(sub.kids[i.value]);
  }

  lemma SplitParts(path: string)
    requires NulFree(path)
    ensures P.SplitLast(path).Some? ==> NulFree(P.SplitLast(path).value.1)
  {
  }

  // ---------- adding a value under a path

  /** The edits of AddChild on the children of one node. */
  method AddChild(parent: Node, token: string, value: Node, cs: bool, ghost s: Shape, ghost u: Shape)
    returns (status: nat, ghost t: Shape)
    requires Linked(s, true) && WellFormed(s) && s.node == parent && Loose(u) && u.node == value && NodesOf(s) !! NodesOf(u)
    modifies parent`child, Below(s.kids)`next, Below(s.kids)`prev, value`next, value`prev, value`key
    ensures Linked(t, true) && WellFormed(t) && SameRoot(t, s) && NodesOf(t) <= NodesOf(s) + NodesOf(u)
    ensures (status, ValueOf(t)) == P.AddChild(cs, ValueOf(s), token, ValueOf(u))
  {
    hide Below, CellsOf, NodesOf, Reach, Linked, WellFormed, ValueOf, L.DecodeIndex, MembersOf, ItemsOf, Loose, RemoveKey;
    t := s;
    LooseParts(u);
    AddCases(cs, s, token, u);
    assert HasData(parent, s.data) by { WholeParts(s); }
    NodesAre(s);
    NodesAre(u);
    WholeReach(u);
    if parent.kind == KArray {
      if token == "-" {
        t := AppendKid(parent, value, s, u);
        return 0, t;
      }
      assert allocated(Reach(CellsOf(s))) && allocated(Reach(CellsOf(u)));
      var ok, index := DecodeArrayIndex(token);
      assert Linked(s, true) && Loose(u);
      if !ok {
        return 11, t;
      }
      LooseParts(u);
      ok, t := InsertKid(parent, index, value, s, u);
      return if ok then 0 else 10, t;
    } else if parent.kind == KObject {
      var removed;
      ghost var rest, i;
      ObjectOf(s);
      assert allocated(Reach(CellsOf(u)));
      removed, rest, i := DetachFromObject(parent, token, cs, s);
      assert Loose(u);
      RootApart(rest);
      t := AddToObject(parent, token, value, rest, u);
      ObjectIs(t);
      return 0, t;
    } else {
      return 9, t;
    }
  }

  lemma LooseParts(u: Shape)
    requires Loose(u)
    ensures Detached(u) && WellFormed(u)
  {
  }

  lemma ObjectOf(s: Shape)
    requires WellFormed(s) && s.data.kind.KObject?
    ensures IsObject(s)
  {
  }

  lemma {:induction false} AddCases(cs: bool, s: Shape, token: string, u: Shape)
    requires WellFormed(s) && WellFormed(u)
    ensures var (r, v) := (P.AddChild(cs, ValueOf(s), token, ValueOf(u)), s);
      match s.data.kind
      case KArray =>
        if token == "-" then WellFormed(s.(kids := s.kids + [u])) && r == (0, ValueOf(s.(kids := s.kids + [u])))
        else
          var index := L.DecodeIndex(token);
          if index.None? then r == (11, ValueOf(s))
          else if index.value > |s.kids| then r == (10, ValueOf(s))
          else WellFormed(s.(kids := InsertAt(s.kids, index.value, u))) && r == (0, ValueOf(s.(kids := InsertAt(s.kids, index.value, u))))
      case KObject => r == (0, Object(RemoveKey(cs, MembersOf(s.kids), token) + [Member(token, ValueOf(u))]))
      case _ => r == (9, ValueOf(s))
  {
    hide L.DecodeIndex, RemoveKey;
    if s.data.kind.KArray? {
      assert InsertAt(s.kids, |s.kids|, u) == s.kids + [u];
      assert InsertAt(ItemsOf(s.kids), |s.kids|, ValueOf(u)) == ItemsOf(s.kids) + [ValueOf(u)];
      InsertedItem(s, u, |s.kids|);
      var index := L.DecodeIndex(token);
      if index.Some? && index.value <= |s.kids| { InsertedItem(s, u, index.value); }
    }
  }

  lemma {:induction false} InsertedItem(s: Shape, u: Shape, i: nat)
    requires WellFormed(s) && WellFormed(u) && s.data.kind.KArray? && i <= |s.kids|
    ensures WellFormed(s.(kids := InsertAt(s.kids, i, u)))
    ensures ValueOf(s.(kids := InsertAt(s.kids, i, u))) == Array(InsertAt(ItemsOf(s.kids), i, ValueOf(u)))
  {
    ItemsInsert(s.kids, i, u);
    hide ItemsOf;
  }

  /** The last part of apply_patch: "value" is added to "path". */
  method AddAt(root: Node, path: string, value: Node, cs: bool, ghost s: Shape, ghost u: Shape)
    returns (status: nat, ghost t: Shape)
    requires Linked(s, true) && WellFormed(s) && s.node == root && NulFree(path)
    requires Loose(u) && u.node == value && NodesOf(s) !! NodesOf(u)
    modifies NodesOf(s) - {root}, root`child, value`next, value`prev, value`key
    ensures Linked(t, true) && WellFormed(t) && SameRoot(t, s) && NodesOf(t) <= NodesOf(s) + NodesOf(u)
    ensures P.Outcome(status, Some(ValueOf(t))) == P.AddAt(cs, ValueOf(s), path, ValueOf(u))
  {
    hide Below, CellsOf, NodesOf, Reach, Linked, WellFormed, ValueOf, Loose, IsTree, P.AddChild, L.Resolve, ShapeAt, PutShape, OutsideCells;
    t := s;
    NodesAre(u);
    assert allocated(Reach(CellsOf(s))) && allocated(Reach(CellsOf(u)));
    var found, parentPath, token := SplitPath(path);
    assert Linked(s, true) && Loose(u);
    TreeOf(s);
    if !found {
      return 9, t;
    }
    var parent;
    ghost var at;
    assert allocated(Reach(CellsOf(s))) && allocated(Reach(CellsOf(u)));
    parent, at := GetItem(root, parentPath, cs, s);
    assert Linked(s, true) && Loose(u);
    SplitParts(path);
    assert allocated(Reach(CellsOf(s))) && allocated(Reach(CellsOf(u)));
    token := DecodeToken(token);
    assert Linked(s, true) && Loose(u);
    if parent == null {
      return 9, t;
    }
    BeforeEdit(s, at.value, true);
    status, t := AddInPlace(parent, token, value, cs, s, at.value, u);
  }

  /** The edit, seen from the whole tree. */
  method AddInPlace(parent: Node, token: string, value: Node, cs: bool, ghost s: Shape, ghost at: L.Location, ghost u: Shape)
    returns (status: nat, ghost t: Shape)
    requires Linked(s, true) && WellFormed(s) && IsPlace(s, at) && ShapeAt(s, at).node == parent
    requires Loose(u) && u.node == value && NodesOf(s) !! NodesOf(u)
    modifies parent`child, Below(ShapeAt(s, at).kids)`next, Below(ShapeAt(s, at).kids)`prev, value`next, value`prev, value`key
    ensures Linked(t, true) && WellFormed(t) && SameRoot(t, s) && NodesOf(t) <= NodesOf(s) + NodesOf(u)
    ensures L.IsLocation(ValueOf(s), at)
    ensures var (r, j) := P.AddChild(cs, L.At(ValueOf(s), at), token, ValueOf(u));
      status == r && ValueOf(t) == L.Put(ValueOf(s), at, j)
  {
    hide Below, CellsOf, NodesOf, Reach, Linked, WellFormed, ValueOf, Loose, P.AddChild, ShapeAt, PutShape, OutsideCells;
    ghost var sub, out := ShapeAt(s, at), OutsideCells(s, at);
    ghost var v;
    BeforeEdit(s, at, true);
    PlacesAreLocations(s, at);
    WholeIsSeparate(s);
    NodesAre(u);
    OutsideNodes(s, at);
    assert allocated(out);
    status, v := AddChild(parent, token, value, cs, sub, u);
    forall c | c in out ensures Holds(c, true) {
      assert old(Holds(c, true));
    }
    t := PutShape(s, at, v);
    AfterEdit(s, at, v, true);
  }

  // ---------- apply_patch

  /** The text of every string and key ends at its NUL. */
  predicate IsCText(j: Json) {
    match j
    case String(s) => NulFree(s)
    case Array(items) => forall i | 0 <= i < |items| :: IsCText(items[i])
    case Object(ms) => forall i | 0 <= i < |ms| :: NulFree(ms[i].key) && IsCText(ms[i].value)
    case _ => true
  }

  /** A member of a patch object, if there is one with this name. */
  method GetField(patch: Node, name: string, cs: bool, ghost sp: Shape) returns (item: Node?, ghost u: Shape)
    requires IsTree(sp) && sp.node == patch
    ensures IsTree(sp)
    ensures item == null <==> P.Field(cs, ValueOf(sp), name).None?
    ensures item != null ==>
      && u.node == item && IsTree(u) && HasData(item, u.data) && NodesOf(u) <= NodesOf(sp)
      && P.Field(cs, ValueOf(sp), name) == Some(ValueOf(u)) && (IsCText(ValueOf(sp)) ==> IsCText(ValueOf(u)))
  {
    hide IsTree, NodesOf, ValueOf, MembersOf, IndexOf, P.Field, IsCText, HasData;
    item, u := null, sp;
    FirstKid(sp);
    KindOf(sp);
    if patch.kind != KObject { FieldNone(sp, cs, name); }
    if patch.kind == KObject {
      ghost var k;
      item, k := GetObjectItem(patch, name, cs, sp);
      FieldAt(sp, cs, name, k);
      if item != null {
        u := sp.kids[k];
        KidIsTree(sp, k);
        FirstKid(u);
      }
    }
  }

  lemma KindOf(s: Shape)
    requires IsTree(s)
    ensures s.node.kind == s.data.kind && s.node.valuestring == s.data.text
  {
    OwnCell(s, false);
  }

  lemma FieldNone(sp: Shape, cs: bool, name: string)
    requires !sp.data.kind.KObject?
    ensures P.Field(cs, ValueOf(sp), name).None?
  {
  }

  lemma FieldAt(sp: Shape, cs: bool, name: string, k: nat)
    requires sp.data.kind.KObject? && k == IndexOf(cs, MembersOf(sp.kids), name)
    ensures P.Field(cs, ValueOf(sp), name) == if k < |sp.kids| then Some(ValueOf(sp.kids[k])) else None
    ensures k < |sp.kids| && IsCText(ValueOf(sp)) ==> IsCText(ValueOf(sp.kids[k]))
    ensures k < |sp.kids| ==> NodesOf(sp.kids[k]) <= NodesOf(sp)
  {
    ObjectValue(sp);
    hide IndexOf, ValueOf, MembersOf;
    if k < |sp.kids| {
      KidIn(sp.kids, k);
      NodesAre(sp);
      hide NodesOf, Below, CellsOf;
      MemberIsText(MembersOf(sp.kids), k);
    }
  }

  lemma {:induction false} MemberIsText(ms: seq<Member<Json>>, k: nat)
    requires k < |ms|
    ensures IsCText(Object(ms)) ==> NulFree(ms[k].key) && IsCText(ms[k].value)
  {
    hide NulFree;
  }

  lemma TextOf(u: Shape)
    requires WellFormed(u)
    ensures u.data.kind.KString? <==> ValueOf(u).String?
    ensures u.data.kind.KString? ==> ValueOf(u) == String(u.data.text) && (IsCText(ValueOf(u)) ==> NulFree(u.data.text))
  {
  }

  /** What a step of apply_patch leaves behind: the outcome of the model, on nodes of the document and new ones. */
  ghost predicate Leaves(root: Node, t: Shape, status: nat, r: P.Outcome)
    reads Reach(CellsOf(t)), root, t.node
  {
    && t.node == root && status == r.status
    && match r.doc
       case Some(j) => Loose(t) && ValueOf(t) == j
       case None => t.data.kind.KInvalid? && HasData(root, t.data) && root.child == null
  }

  lemma LeavesDoc(root: Node, t: Shape, status: nat, r: P.Outcome)
    requires t.node == root && r == P.Outcome(status, Some(ValueOf(t)))
    requires Linked(t, true) && WellFormed(t) && root.next == null && root.prev == null
    ensures Leaves(root, t, status, r)
  {
  }

  /** "value" is looked up, duplicated and added. */
  method AddField(root: Node, patch: Node, path: string, cs: bool, ghost s: Shape, ghost sp: Shape)
    returns (status: nat, ghost t: Shape)
    requires Loose(s) && s.node == root && IsTree(sp) && sp.node == patch && NodesOf(s) !! NodesOf(sp) && NulFree(path)
    modifies NodesOf(s)
    ensures Leaves(root, t, status, P.AddOrFail(cs, ValueOf(s), path, P.Field(cs, ValueOf(sp), "value")))
    ensures forall n | n in NodesOf(t) :: n in NodesOf(s) || fresh(n)
    ensures IsTree(sp)
  {
    hide CellsOf, NodesOf, Reach, Linked, WellFormed, ValueOf, Loose, IsTree, P.AddAt, Leaves, P.Field;
    var value;
    ghost var u, d;
    t := s;
    assert allocated(Reach(CellsOf(s))) && allocated(Reach(CellsOf(sp))) && allocated(NodesOf(s));
    WholeReach(sp);
    LooseFacts(s);
    value, u := GetField(patch, "value", cs, sp);
    assert Loose(s);
    if value == null {
      LeavesDoc(root, t, 7, P.Outcome(7, Some(ValueOf(s))));
      return 7, t;
    }
    assert allocated(Reach(CellsOf(s))) && allocated(Reach(CellsOf(sp)));
    value, d := DuplicateTree(value, u);
    assert Linked(s, true) && IsTree(sp);
    NodesAre(d);
    status, t := AddAt(root, path, value, cs, s, d);
    assert IsTree(sp);
    LeavesDoc(root, t, status, P.AddAt(cs, ValueOf(s), path, ValueOf(d)));
  }

  lemma LooseFacts(s: Shape)
    requires Loose(s)
    ensures Linked(s, true) && WellFormed(s) && IsTree(s) && s.node.next == null && s.node.prev == null
    ensures s.node in NodesOf(s)
  {
  }

  /** overwrite_item with an invalid item, for "remove" on the root. */
  method RemoveRoot(root: Node) returns (ghost t: Shape)
    modifies root
    ensures Leaves(root, t, 0, P.Outcome(0, None)) && NodesOf(t) == {root}
  {
    root.next, root.prev, root.child, root.kind := null, null, null, KInvalid;
    root.valuestring, root.number, root.key := "", 0, None;
    t := Shape(root, Data(KInvalid, "", 0, None), []);
  }

  /** overwrite_item with a duplicate, whose own root is then dropped. */
  method ReplaceRoot(root: Node, value: Node, ghost u: Shape) returns (ghost t: Shape)
    requires Loose(u) && u.node == value && root !in NodesOf(u)
    modifies root
    ensures t == Shape(root, u.data.(key := None), u.kids)
    ensures Loose(t) && ValueOf(t) == ValueOf(u) && NodesOf(t) == {root} + Below(u.kids)
  {
    hide Below, NodesOf, Reach, CellsBelow, ValueOf, WellFormed, Linked, SeparateKids, WholeKids, Children, Tailed;
    ghost var kids := u.kids;
    RootParts(u);
    assert root !in Reach(CellsBelow(kids));
    assert allocated(Reach(CellsBelow(kids)));
    root.next, root.prev, root.child, root.kind := value.next, value.prev, value.child, value.kind;
    root.valuestring, root.number, root.key := value.valuestring, value.number, None;
    t := Shape(root, u.data.(key := None), kids);
    assert WholeKids(kids);
    RootWhole(root, kids);
    WholeOf(t);
    SameButKey(u, t);
  }

  lemma RootParts(u: Shape)
    requires Loose(u)
    ensures HasData(u.node, u.data) && u.node.next == null && u.node.prev == null
    ensures u.node.child == HeadOf(Roots(u.kids)) && WholeKids(u.kids)
    ensures Distinct(Roots(u.kids)) && Links(Roots(u.kids)) && Tailed(Roots(u.kids))
    ensures NodesOf(u) == {u.node} + Below(u.kids) && Reach(CellsBelow(u.kids)) <= Below(u.kids) && WellFormed(u)
    ensures forall n | n in Roots(u.kids) :: n in Below(u.kids)
  {
    WholeParts(u);
    RootsBelow(u.kids);
    forall c | c in CellsBelow(u.kids) ensures c.node in Below(u.kids) && forall n | n in c.roots :: n in Below(u.kids) {
      CellInsideKids(u.kids, c);
    }
  }

  lemma RootWhole(root: Node, kids: seq<Shape>)
    requires root !in Roots(kids) && Distinct(Roots(kids)) && root.child == HeadOf(Roots(kids))
    requires Links(Roots(kids)) && Tailed(Roots(kids))
    ensures List(root, Roots(kids))
  {
  }

  lemma {:induction false} SameButKey(u: Shape, t: Shape)
    requires t.kids == u.kids && t.data == u.data.(key := t.data.key)
    ensures ValueOf(t) == ValueOf(u) && WellFormed(t) == WellFormed(u)
  {
  }

  /** The value for "add" and "replace" on the root. */
  method WriteRoot(root: Node, patch: Node, cs: bool, ghost s: Shape, ghost sp: Shape) returns (status: nat, ghost t: Shape)
    requires Loose(s) && s.node == root && IsTree(sp) && sp.node == patch && NodesOf(s) !! NodesOf(sp)
    modifies root
    ensures var v := P.Field(cs, ValueOf(sp), "value");
      Leaves(root, t, status, if v.None? then P.Outcome(7, Some(ValueOf(s))) else P.Outcome(0, v))
    ensures forall n | n in NodesOf(t) :: n in NodesOf(s) || fresh(n)
    ensures IsTree(sp)
  {
    hide CellsOf, NodesOf, Reach, Linked, WellFormed, ValueOf, Loose, IsTree, Leaves, P.Field, Below;
    var value;
    ghost var u, d;
    t := s;
    assert allocated(Reach(CellsOf(s))) && allocated(Reach(CellsOf(sp)));
    WholeReach(sp);
    LooseFacts(s);
    value, u := GetField(patch, "value", cs, sp);
    assert Loose(s);
    if value == null {
      LeavesDoc(root, t, 7, P.Outcome(7, Some(ValueOf(s))));
      return 7, t;
    }
    value, d := DuplicateTree(value, u);
    assert IsTree(sp);
    NodesAre(d);
    assert allocated(Reach(CellsOf(sp)));
    t := ReplaceRoot(root, value, d);
    assert IsTree(sp);
    LooseFacts(t);
    LeavesDoc(root, t, 0, P.Outcome(0, Some(ValueOf(d))));
    status := 0;
  }

  /** The part of apply_patch for "add", "remove" and "replace". */
  method PerformOn(root: Node, patch: Node, change: P.Change, path: string, cs: bool, ghost s: Shape, ghost sp: Shape)
    returns (status: nat, ghost t: Shape)
    requires Loose(s) && s.node == root && IsTree(sp) && sp.node == patch && NodesOf(s) !! NodesOf(sp) && NulFree(path)
    modifies NodesOf(s)
    ensures Leaves(root, t, status,
                   P.Perform(cs, ValueOf(s), P.Edit(change, path, P.Field(cs, ValueOf(sp), "value"))))
    ensures forall n | n in NodesOf(t) :: n in NodesOf(s) || fresh(n)
    ensures IsTree(sp)
  {
    hide CellsOf, NodesOf, Reach, Linked, WellFormed, ValueOf, Loose, IsTree, Leaves, P.Field, P.Detach, P.AddOrFail, P.DetachTarget;
    LooseFacts(s);
    WholeReach(sp);
    if path == "" {
      if change == P.Remove {
        assert allocated(Reach(CellsOf(sp)));
        t := RemoveRoot(root);
        assert IsTree(sp);
        return 0, t;
      }
      status, t := WriteRoot(root, patch, cs, s, sp);
      return;
    }
    t := s;
    if change != P.Add {
      var item;
      ghost var rest, u;
      assert allocated(Reach(CellsOf(sp)));
      item, rest, u := DetachPath(root, path, cs, s);
      assert IsTree(sp);
      assert root.next == null && root.prev == null;
      RestIsLoose(s, rest);
      t := rest;
      if item == null {
        LeavesDoc(root, t, 13, P.Outcome(13, Some(ValueOf(s))));
        return 13, t;
      }
      if change == P.Remove {
        LeavesDoc(root, t, 0, P.Outcome(0, Some(ValueOf(t))));
        return 0, t;
      }
    }
    status, t := AddField(root, patch, path, cs, t, sp);
  }

  lemma {:induction false} RestIsLoose(s: Shape, t: Shape)
    requires Linked(t, true) && WellFormed(t) && SameRoot(t, s) && s.node.next == null && s.node.prev == null
    ensures Loose(t)
  {
  }

  /** The part of apply_patch for "move" and "copy". */
  method TransferOn(root: Node, patch: Node, move: bool, path: string, cs: bool, ghost s: Shape, ghost sp: Shape)
    returns (status: nat, ghost t: Shape)
    requires Loose(s) && s.node == root && IsTree(sp) && sp.node == patch && NodesOf(s) !! NodesOf(sp)
    requires NulFree(path) && IsCText(ValueOf(sp))
    modifies NodesOf(s)
    ensures Leaves(root, t, status,
                   P.Transfer(cs, ValueOf(s), if move then P.Move else P.Copy, path, P.Field(cs, ValueOf(sp), "from")))
    ensures forall n | n in NodesOf(t) :: n in NodesOf(s) || fresh(n)
    ensures IsTree(sp)
  {
    hide CellsOf, NodesOf, Reach, Linked, WellFormed, ValueOf, Loose, IsTree, Leaves, P.Field, IsCText;
    LooseFacts(s);
    WholeReach(sp);
    t := s;
    var from;
    ghost var u;
    assert allocated(Reach(CellsOf(s))) && allocated(Reach(CellsOf(sp))) && allocated(NodesOf(s));
    from, u := GetField(patch, "from", cs, sp);
    assert Loose(s);
    if from == null {
      LeavesDoc(root, t, 4, P.Outcome(4, Some(ValueOf(s))));
      return 4, t;
    }
    TextOfTree(u);
    if from.kind != KString {
      LeavesDoc(root, t, 5, P.Outcome(5, Some(ValueOf(s))));
      return 5, t;
    }
    if move {
      status, t := MoveOn(root, from.valuestring, path, cs, s);
    } else {
      status, t := CopyOn(root, from.valuestring, path, cs, s);
    }
    assert IsTree(sp);
  }

  lemma TextOfTree(u: Shape)
    requires IsTree(u)
    ensures HasData(u.node, u.data)
    ensures u.data.kind.KString? <==> ValueOf(u).String?
    ensures u.data.kind.KString? ==> ValueOf(u) == String(u.data.text) && (IsCText(ValueOf(u)) ==> NulFree(u.data.text))
  {
    OwnCell(u, false);
    TextOf(u);
  }

  method MoveOn(root: Node, from: string, path: string, cs: bool, ghost s: Shape) returns (status: nat, ghost t: Shape)
    requires Loose(s) && s.node == root && NulFree(path) && NulFree(from)
    modifies NodesOf(s)
    ensures Leaves(root, t, status, P.Transfer(cs, ValueOf(s), P.Move, path, Some(String(from))))
    ensures forall n | n in NodesOf(t) :: n in NodesOf(s) || fresh(n)
  {
    hide CellsOf, NodesOf, Reach, Linked, WellFormed, ValueOf, Loose, IsTree, Leaves, P.DetachTarget, P.Detach, P.AddAt;
    LooseFacts(s);
    var item;
    ghost var u;
    item, t, u := DetachPath(root, from, cs, s);
    assert root.next == null && root.prev == null;
    if item == null {
      LeavesDoc(root, t, 5, P.Outcome(5, Some(ValueOf(s))));
      return 5, t;
    }
    NodesAre(u.value);
    ghost var rest := t;
    LooseFacts(u.value);
    assert allocated(NodesOf(s));
    assert item != root by { NodesAre(rest); }
    status, t := AddAt(root, path, item, cs, rest, u.value);
    LeavesDoc(root, t, status, P.AddAt(cs, ValueOf(rest), path, ValueOf(u.value)));
  }

  method CopyOn(root: Node, from: string, path: string, cs: bool, ghost s: Shape) returns (status: nat, ghost t: Shape)
    requires Loose(s) && s.node == root && NulFree(path)
    modifies NodesOf(s)
    ensures Leaves(root, t, status, P.Transfer(cs, ValueOf(s), P.Copy, path, Some(String(from))))
    ensures forall n | n in NodesOf(t) :: n in NodesOf(s) || fresh(n)
  {
    hide CellsOf, NodesOf, Reach, Linked, WellFormed, ValueOf, Loose, IsTree, Leaves, L.Resolve, P.AddAt;
    LooseFacts(s);
    t := s;
    var source;
    ghost var at, d;
    assert allocated(Reach(CellsOf(s))) && allocated(NodesOf(s));
    source, at := GetItem(root, from, cs, s);
    assert Loose(s);
    if source == null {
      LeavesDoc(root, t, 5, P.Outcome(5, Some(ValueOf(s))));
      return 5, t;
    }
    TreeBelow(s, at.value);
    PlacesAreLocations(s, at.value);
    assert allocated(Reach(CellsOf(s)));
    source, d := DuplicateTree(source, ShapeAt(s, at.value));
    assert Linked(s, true);
    NodesAre(d);
    status, t := AddAt(root, path, source, cs, s, d);
    LeavesDoc(root, t, status, P.AddAt(cs, ValueOf(s), path, ValueOf(d)));
  }

  /** decode_patch_operation */
  method OperationOf(patch: Node, cs: bool, ghost sp: Shape) returns (op: P.Operation)
    requires IsTree(sp) && sp.node == patch
    ensures IsTree(sp) && op == P.DecodeOperation(P.Field(cs, ValueOf(sp), "op"))
  {
    hide IsTree, P.Field, ValueOf, IsCText;
    var item;
    ghost var u;
    item, u := GetField(patch, "op", cs, sp);
    if item == null {
      return P.Invalid;
    }
    TextOfTree(u);
    if item.kind != KString {
      return P.Invalid;
    }
    var name := item.valuestring;
    op := if name == "add" then P.Do(P.Add)
          else if name == "remove" then P.Do(P.Remove)
          else if name == "replace" then P.Do(P.Replace)
          else if name == "move" then P.Move
          else if name == "copy" then P.Copy
          else if name == "test" then P.Test
          else P.Invalid;
  }

  predicate IsTest(cs: bool, patch: Json) {
    P.DecodeOperation(P.Field(cs, patch, "op")).Test?
  }

  /** apply_patch: the status and the document of ApplyPatch, in place; the patch is left alone. */
  method ApplyOne(root: Node, patch: Node, cs: bool, ghost s: Shape, ghost sp: Shape) returns (status: nat, ghost t: Shape)
    requires Loose(s) && s.node == root && IsTree(sp) && sp.node == patch && NodesOf(s) !! NodesOf(sp)
    requires IsCText(ValueOf(sp)) && !IsTest(cs, ValueOf(sp))
    modifies NodesOf(s)
    ensures Leaves(root, t, status, P.ApplyPatch(cs, ValueOf(s), ValueOf(sp)))
    ensures forall n | n in NodesOf(t) :: n in NodesOf(s) || fresh(n)
    ensures IsTree(sp)
  {
    hide CellsOf, NodesOf, Reach, Linked, WellFormed, ValueOf, Loose, IsTree, Leaves, P.Field, IsCText, P.Perform, P.Transfer;
    LooseFacts(s);
    t := s;
    var path;
    ghost var u;
    assert allocated(Reach(CellsOf(s)));
    path, u := GetField(patch, "path", cs, sp);
    assert Loose(s);
    if path != null { TextOfTree(u); }
    if path == null || path.kind != KString {
      LeavesDoc(root, t, 2, P.Outcome(2, Some(ValueOf(s))));
      return 2, t;
    }
    var text := path.valuestring;
    assert allocated(Reach(CellsOf(s)));
    var op := OperationOf(patch, cs, sp);
    assert Loose(s);
    match op
    case Invalid =>
      LeavesDoc(root, t, 3, P.Outcome(3, Some(ValueOf(s))));
      return 3, t;
    case Do(change) =>
      status, t := PerformOn(root, patch, change, text, cs, s, sp);
    case Move =>
      status, t := TransferOn(root, patch, true, text, cs, s, sp);
    case Copy =>
      status, t := TransferOn(root, patch, false, text, cs, s, sp);
  }

  /** No patch but the last one that is applied removes the root. */
  predicate KeepsRoot(cs: bool, doc: Json, patches: seq<Json>)
    decreases |patches|
  {
    patches == [] ||
    var first := P.ApplyPatch(cs, doc, patches[0]);
    first.status != 0 || (if first.doc.None? then |patches| == 1 else KeepsRoot(cs, first.doc.value, patches[1..]))
  }

  predicate Applicable(cs: bool, patches: seq<Json>) {
    forall i | 0 <= i < |patches| :: IsCText(patches[i]) && !IsTest(cs, patches[i])
  }

  lemma {:induction false} ApplyStep(cs: bool, doc: Json, patches: seq<Json>, j: nat)
    requires j <= |patches|
    ensures P.ApplyAll(cs, doc, patches[j..]) ==
      if j == |patches| then P.Outcome(0, Some(doc))
      else
        var first := P.ApplyPatch(cs, doc, patches[j]);
        if first.status != 0 || first.doc.None? then first else P.ApplyAll(cs, first.doc.value, patches[j + 1..])
    ensures KeepsRoot(cs, doc, patches[j..]) <==>
      j == |patches| ||
      var first := P.ApplyPatch(cs, doc, patches[j]);
      first.status != 0
      || (if first.doc.None? then j + 1 == |patches| else KeepsRoot(cs, first.doc.value, patches[j + 1..]))
  {
    hide P.ApplyPatch;
    if j < |patches| { assert patches[j..][0] == patches[j] && patches[j..][1..] == patches[j + 1..]; }
  }

  lemma LeavesSome(root: Node, t: Shape, status: nat, r: P.Outcome)
    requires Leaves(root, t, status, r)
    ensures status == r.status && t.node == root
    ensures r.doc.Some? ==> Loose(t) && ValueOf(t) == r.doc.value
  {
  }

  /** cJSONUtils_ApplyPatches: the outcome of ApplyAll, patch by patch on the same nodes. */
  method ApplyAllOn(root: Node, patches: Node, cs: bool, ghost s: Shape, ghost sp: Shape) returns (status: nat, ghost t: Shape)
    requires Loose(s) && s.node == root && IsTree(sp) && sp.node == patches && NodesOf(s) !! NodesOf(sp)
    requires Applicable(cs, ItemsOf(sp.kids)) && KeepsRoot(cs, ValueOf(s), ItemsOf(sp.kids))
    modifies NodesOf(s)
    ensures Leaves(root, t, status, P.ApplyPatches(cs, ValueOf(s), ValueOf(sp)))
    ensures IsTree(sp)
  {
    hide CellsOf, NodesOf, Reach, WellFormed, ValueOf, Loose, IsTree, Leaves, IsCText, IsTest, KeepsRoot, P.ApplyPatch, P.ApplyAll, ItemsOf;
    LooseFacts(s);
    FirstKid(sp);
    PatchesAre(sp);
    t := s;
    if patches.kind != KArray {
      LeavesDoc(root, t, 1, P.Outcome(1, Some(ValueOf(s))));
      return 1, t;
    }
    var patch := patches.child;
    ghost var j, all := 0, ItemsOf(sp.kids);
    assert all[0..] == all;
    ghost var gone := false;
    while patch != null
      invariant IsTree(sp) && NodesOf(t) !! NodesOf(sp)
      invariant j <= |sp.kids| && patch == if j < |sp.kids| then sp.kids[j].node else null
      invariant forall n | n in NodesOf(t) :: n in NodesOf(s) || fresh(n)
      invariant gone ==> patch == null && Leaves(root, t, 0, P.ApplyAll(cs, ValueOf(s), all))
      invariant !gone ==> Loose(t) && t.node == root && KeepsRoot(cs, ValueOf(t), all[j..])
      invariant !gone ==> P.ApplyAll(cs, ValueOf(s), all) == P.ApplyAll(cs, ValueOf(t), all[j..])
      decreases |sp.kids| - j
    {
      ApplyStep(cs, ValueOf(t), all, j);
      PatchAt(sp, j);
      WholeReach(sp);
      ghost var doc, first := t, P.ApplyPatch(cs, ValueOf(t), all[j]);
      assert allocated(Reach(CellsOf(sp))) && allocated(NodesOf(sp));
      status, t := ApplyOne(root, patch, cs, t, sp.kids[j]);
      assert IsTree(sp);
      LeavesSome(root, t, status, first);
      if status != 0 {
        return;
      }
      gone := first.doc.None?;
      PatchAt(sp, j);
      patch := patch.next;
      j := j + 1;
    }
    status := 0;
    if !gone {
      ApplyStep(cs, ValueOf(t), all, j);
      LooseFacts(t);
      LeavesDoc(root, t, 0, P.Outcome(0, Some(ValueOf(t))));
    }
  }

  lemma PatchesAre(sp: Shape)
    requires IsTree(sp)
    ensures sp.data.kind.KArray? ==> ValueOf(sp) == Array(ItemsOf(sp.kids))
    ensures sp.data.kind.KArray? <==> ValueOf(sp).Array?
  {
    hide HoldAll, CellsOf, Reach, ItemsOf, MembersOf;
    assert WellFormed(sp);
    hide WellFormed, IsTree;
  }

  lemma PatchAt(sp: Shape, j: nat)
    requires IsTree(sp) && j < |sp.kids|
    ensures IsTree(sp.kids[j]) && ItemsOf(sp.kids)[j] == ValueOf(sp.kids[j]) && NodesOf(sp.kids[j]) <= NodesOf(sp)
    ensures sp.kids[j].node.next == if j + 1 < |sp.kids| then sp.kids[j + 1].node else null
  {
    KidIsTree(sp, j);
    KidIn(sp.kids, j);
    NextKid(sp, j);
    NodesAre(sp);
  }
}
