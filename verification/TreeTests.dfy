/** The "test" operation on trees of nodes: it compares in place, which sorts parts of the document and of the patch. */
module TreeTests {
  import opened CStrings
  import opened JsonTree
  import opened Equality
  import L = Locations
  import P = Patches
  import opened Nodes
  import opened Trees
  import opened Comparing
  import opened TreeEdits
  import opened TreePointers
  import opened TreeFocus
  import opened TreeSorting
  import opened TreeComparing

  lemma {:induction false} ReorderedPlace(s: Shape, at: L.Location, u: Shape)
    requires Separate(s) && WellFormed(s) && IsPlace(s, at) && Reordered(ShapeAt(s, at), u)
    ensures Reordered(s, PutShape(s, at, u))
    decreases |at|
  {
    hide NodesOf, Below, SameValue;
    if at != [] {
      var i := at[0];
      KidParts(s, i);
      ReorderedPlace(s.kids[i], at[1..], u);
      ReorderedKid(s, i, PutShape(s.kids[i], at[1..], u));
    }
  }

  lemma {:induction false} KidParts(s: Shape, i: nat)
    requires Separate(s) && WellFormed(s) && i < |s.kids|
    ensures Separate(s.kids[i]) && WellFormed(s.kids[i])
  {
    SeparateKid(s.kids, i);
  }

  /** A place of the document and a member of the patch, and what a comparison of the two leaves alone. */
  lemma {:induction false} TestParts(root: Node, patch: Node, s: Shape, sp: Shape, at: L.Location, i: nat)
    requires TwoTrees(root, patch, s, sp) && IsPlace(s, at) && i < |sp.kids|
    ensures Separate(s) && WellFormed(s) && Separate(sp) && WellFormed(sp) && NodesOf(s) !! NodesOf(sp)
    ensures TwoTrees(ShapeAt(s, at).node, sp.kids[i].node, ShapeAt(s, at), sp.kids[i])
    ensures NodesOf(ShapeAt(s, at)) <= NodesOf(s) && Below(ShapeAt(s, at).kids) <= Below(s.kids) <= NodesOf(s)
    ensures NodesOf(sp.kids[i]) <= NodesOf(sp) && Below(sp.kids[i].kids) <= Below(sp.kids) <= NodesOf(sp)
    ensures forall c | c in OutsideCells(s, at) ::
      && Holds(c, false) && c.node !in NodesOf(ShapeAt(s, at)) && c.node in NodesOf(s)
      && forall n | n in c.roots :: n !in Below(ShapeAt(s, at).kids) && n in NodesOf(s)
    ensures forall c | c in Rest(sp, i) ::
      && Holds(c, false) && c.node !in NodesOf(sp.kids[i]) && c.node in NodesOf(sp)
      && forall n | n in c.roots :: n !in Below(sp.kids[i].kids) && n in NodesOf(sp)
  {
    hide Below, CellsOf, Reach, WellFormed, NodesOf;
    LinkedIsSeparate(s);
    LinkedIsSeparate(sp);
    BeforeEdit(s, at, false);
    OutsideNodes(s, at);
    SubtreeNodes(s, at);
    NodesAre(s);
    BeforeKid(sp, i);
  }

  /** Both trees again, after the two parts have been compared. */
  lemma {:induction false} AfterTest(root: Node, patch: Node, s: Shape, sp: Shape, at: L.Location, i: nat, u: Shape, v: Shape)
    requires s.node == root && sp.node == patch && NodesOf(s) !! NodesOf(sp)
    requires Separate(s) && WellFormed(s) && Separate(sp) && WellFormed(sp) && IsPlace(s, at) && i < |sp.kids|
    requires TwoTrees(ShapeAt(s, at).node, sp.kids[i].node, u, v) && Reordered(ShapeAt(s, at), u) && Reordered(sp.kids[i], v)
    requires forall c | c in OutsideCells(s, at) :: Holds(c, false)
    requires forall c | c in Rest(sp, i) :: Holds(c, false)
    ensures var (t, tp) := (PutShape(s, at, u), sp.(kids := sp.kids[i := v]));
      TwoTrees(root, patch, t, tp) && Reordered(s, t) && Reordered(sp, tp)
  {
    hide Below, CellsOf, Reach, NodesOf, SameValue, WellFormed;
    SameNodes(ShapeAt(s, at), u);
    AfterEdit(s, at, u, false);
    ReorderedPlace(s, at, u);
    AfterKid(sp, i, v);
    SameNodes(s, PutShape(s, at, u));
    SameNodes(sp, sp.(kids := sp.kids[i := v]));
  }

  lemma {:induction false} TestedValues(cs: bool, s: Shape, sp: Shape, path: string, at: Option<L.Location>, i: nat)
    requires WellFormed(s) && WellFormed(sp) && sp.data.kind.KObject?
    requires at == L.Resolve(cs, ValueOf(s), path) && (at.Some? ==> IsPlace(s, at.value))
    requires i == IndexOf(cs, MembersOf(sp.kids), "value")
    ensures P.TestStatus(cs, ValueOf(s), path, P.Field(cs, ValueOf(sp), "value")) ==
      if at.Some? && i < |sp.kids| && CompareSorted(cs, ValueOf(ShapeAt(s, at.value)), ValueOf(sp.kids[i])) then 0 else 1
  {
    if at.Some? { PlacesAreLocations(s, at.value); }
    ObjectValue(sp);
    hide CompareSorted, L.Resolve, IndexOf, WellFormed, ValueOf;
  }

  /** The comparison of a subtree of the document with a member of the patch. */
  method CompareAt(x: Node, y: Node, cs: bool, ghost root: Node, ghost patch: Node, ghost s: Shape, ghost sp: Shape, ghost at: L.Location, ghost i: nat)
    returns (equal: bool, ghost t: Shape, ghost tp: Shape)
    requires TwoTrees(root, patch, s, sp) && IsPlace(s, at) && i < |sp.kids|
    requires x == ShapeAt(s, at).node && y == sp.kids[i].node
    modifies (NodesOf(s) + NodesOf(sp))`child, (Below(s.kids) + Below(sp.kids))`next, (Below(s.kids) + Below(sp.kids))`prev
    ensures TwoTrees(root, patch, t, tp) && Reordered(s, t) && Reordered(sp, tp)
    ensures equal <==> CompareSorted(cs, ValueOf(ShapeAt(s, at)), ValueOf(sp.kids[i]))
  {
    hide NodesOf, Below, CellsOf, Reach, WellFormed, ValueOf, TwoTrees, Reordered, Separate, OutsideCells, Rest, CompareSorted;
    ghost var u, v;
    TestParts(root, patch, s, sp, at, i);
    TwoParts(root, patch, s, sp);
    assert allocated(OutsideCells(s, at)) && allocated(Rest(sp, i));
    equal, u, v := CompareJson(x, y, cs, ShapeAt(s, at), sp.kids[i]);
    forall c | c in OutsideCells(s, at) ensures Holds(c, false) {
      assert old(Holds(c, false));
    }
    forall c | c in Rest(sp, i) ensures Holds(c, false) {
      assert old(Holds(c, false));
    }
    AfterTest(root, patch, s, sp, at, i, u, v);
    t, tp := PutShape(s, at, u), sp.(kids := sp.kids[i := v]);
  }

  lemma {:induction false} TwoParts(root: Node, patch: Node, s: Shape, sp: Shape)
    requires TwoTrees(root, patch, s, sp)
    ensures s.node == root && sp.node == patch
  {
  }

  /**
   The "test" of apply_patch: the status is that of the comparison with the value found, and of the document and
   the patch only the order of members may change.
   */
  method TestOn(root: Node, patch: Node, path: string, cs: bool, ghost s: Shape, ghost sp: Shape)
    returns (status: nat, ghost t: Shape, ghost tp: Shape)
    requires TwoTrees(root, patch, s, sp) && sp.data.kind.KObject?
    modifies (NodesOf(s) + NodesOf(sp))`child, (Below(s.kids) + Below(sp.kids))`next, (Below(s.kids) + Below(sp.kids))`prev
    ensures TwoTrees(root, patch, t, tp) && Reordered(s, t) && Reordered(sp, tp)
    ensures status == P.TestStatus(cs, ValueOf(s), path, P.Field(cs, ValueOf(sp), "value"))
  {
    hide NodesOf, Below, CellsOf, Reach, WellFormed, ValueOf, MembersOf, TwoTrees, Reordered, IsTree;
    hide P.TestStatus, P.Field, CompareSorted, L.Resolve, IndexOf, HasData;
    t, tp := s, sp;
    TreesAre(root, patch, s, sp);
    ReorderedItself(s);
    ReorderedItself(sp);
    assert allocated(Reach(CellsOf(s))) && allocated(Reach(CellsOf(sp)));
    var found, value, equal;
    ghost var at, i;
    found, at := GetItem(root, path, cs, s);
    assert TwoTrees(root, patch, s, sp) && IsTree(sp);
    value, i := GetObjectItem(patch, "value", cs, sp);
    assert TwoTrees(root, patch, s, sp);
    TestedValues(cs, s, sp, path, at, i);
    if found == null || value == null {
      return 1, t, tp;
    }
    equal, t, tp := CompareAt(found, value, cs, root, patch, s, sp, at.value, i);
    status := if equal then 0 else 1;
  }
}
