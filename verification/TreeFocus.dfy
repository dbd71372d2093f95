/** Editing one node's children somewhere inside a tree leaves the rest of the tree as it was. */
module TreeFocus {
  import opened CStrings
  import opened JsonTree
  import opened Sequences
  import L = Locations
  import opened Nodes
  import opened Trees
  import opened TreeEdits
  import opened TreePointers

  /** The tree with another subtree at a place. */
  function PutShape(s: Shape, at: L.Location, u: Shape): Shape
    requires IsPlace(s, at)
    decreases |at|
  {
    if at == [] then u else s.(kids := s.kids[at[0] := PutShape(s.kids[at[0]], at[1..], u)])
  }

  /** The cells that are not of the subtree at a place. */
  ghost function OutsideCells(s: Shape, at: L.Location): set<Cell>
    requires IsPlace(s, at)
    decreases |at|
  {
    if at == [] then {}
    else
      {CellOf(s)} + CellsBelow(Without(s.kids, at[0])) + OutsideCells(s.kids[at[0]], at[1..])
  }

  /** The subtree takes the place of another one with the same root and key. */
  predicate SameRoot(u: Shape, v: Shape) {
    u.node == v.node && u.data.key == v.data.key
  }

  lemma {:induction false} PutValue(s: Shape, at: L.Location, u: Shape)
    requires WellFormed(s) && IsPlace(s, at) && SameRoot(u, ShapeAt(s, at)) && WellFormed(u)
    ensures WellFormed(PutShape(s, at, u)) && SameRoot(PutShape(s, at, u), s)
    ensures L.IsLocation(ValueOf(s), at) && ValueOf(PutShape(s, at, u)) == L.Put(ValueOf(s), at, ValueOf(u))
    decreases |at|
  {
    PlacesAreLocations(s, at);
    if at != [] {
      var i := at[0];
      var k, v := s.kids[i], PutShape(s.kids[i], at[1..], u);
      PutValue(k, at[1..], u);
      PutKid(s, i, v);
      ChildValue(s);
    }
  }

  lemma {:induction false} PutKid(s: Shape, i: nat, v: Shape)
    requires WellFormed(s) && i < |s.kids| && WellFormed(v) && SameRoot(v, s.kids[i])
    ensures WellFormed(s.(kids := s.kids[i := v]))
    ensures i < L.ChildCount(ValueOf(s))
    ensures ValueOf(s.(kids := s.kids[i := v])) == L.WithChild(ValueOf(s), i, ValueOf(v))
  {
    hide ValueOf, L.WithChild;
    if s.data.kind.KArray? { PutItem(s, i, v); } else { PutMember(s, i, v); }
  }

  lemma {:induction false} PutItem(s: Shape, i: nat, v: Shape)
    requires s.data.kind.KArray? && i < |s.kids|
    ensures i < L.ChildCount(ValueOf(s))
    ensures ValueOf(s.(kids := s.kids[i := v])) == L.WithChild(ValueOf(s), i, ValueOf(v))
  {
    var t := s.(kids := s.kids[i := v]);
    assert ValueOf(s) == Array(ItemsOf(s.kids)) && ValueOf(t) == Array(ItemsOf(t.kids));
    hide ItemsOf, ValueOf;
    ReplacedItems(s.kids, i, v);
  }

  lemma {:induction false} ReplacedItems(kids: seq<Shape>, i: nat, v: Shape)
    requires i < |kids|
    ensures ItemsOf(kids[i := v]) == ItemsOf(kids)[i := ValueOf(v)]
  {
    hide ValueOf;
  }

  lemma {:induction false} PutMember(s: Shape, i: nat, v: Shape)
    requires s.data.kind.KObject? && i < |s.kids| && v.data.key == s.kids[i].data.key
    ensures i < L.ChildCount(ValueOf(s))
    ensures ValueOf(s.(kids := s.kids[i := v])) == L.WithChild(ValueOf(s), i, ValueOf(v))
  {
    var t := s.(kids := s.kids[i := v]);
    assert ValueOf(s) == Object(MembersOf(s.kids)) && ValueOf(t) == Object(MembersOf(t.kids));
    hide MembersOf, ValueOf;
    ReplacedMembers(s.kids, i, v);
  }

  lemma {:induction false} ReplacedMembers(kids: seq<Shape>, i: nat, v: Shape)
    requires i < |kids| && v.data.key == kids[i].data.key
    ensures MembersOf(kids[i := v]) == MembersOf(kids)[i := Member(MembersOf(kids)[i].key, ValueOf(v))]
  {
    hide ValueOf;
  }

  lemma {:induction false} KidsReplaced(kids: seq<Shape>, i: nat, v: Shape)
    requires i < |kids|
    ensures Without(kids[i := v], i) == Without(kids, i)
    ensures Below(kids[i := v]) == Below(Without(kids, i)) + NodesOf(v)
    ensures CellsBelow(kids[i := v]) == CellsBelow(Without(kids, i)) + CellsOf(v)
  {
    assert Without(kids[i := v], i) == Without(kids, i);
    KidsSplit(kids[i := v], i);
  }

  lemma {:induction false} PutCells(s: Shape, at: L.Location, u: Shape)
    requires IsPlace(s, at) && u.node == ShapeAt(s, at).node
    ensures CellsOf(PutShape(s, at, u)) == OutsideCells(s, at) + CellsOf(u)
    ensures CellsOf(s) == OutsideCells(s, at) + CellsOf(ShapeAt(s, at))
    ensures PutShape(s, at, u).node == s.node
    decreases |at|
  {
    if at != [] {
      var i := at[0];
      var v := PutShape(s.kids[i], at[1..], u);
      PutCells(s.kids[i], at[1..], u);
      KidsReplaced(s.kids, i, v);
      KidsSplit(s.kids, i);
      assert Roots(s.kids[i := v]) == Roots(s.kids);
    }
  }

  lemma {:induction false} PutSeparate(s: Shape, at: L.Location, u: Shape)
    requires IsPlace(s, at) && Separate(s) && Separate(u) && u.node == ShapeAt(s, at).node
    requires NodesOf(u) !! NodesOf(s) - NodesOf(ShapeAt(s, at))
    ensures Separate(PutShape(s, at, u)) && NodesOf(ShapeAt(s, at)) <= NodesOf(s)
    ensures NodesOf(PutShape(s, at, u)) == (NodesOf(s) - NodesOf(ShapeAt(s, at))) + NodesOf(u)
    decreases |at|
  {
    if at != [] {
      var i := at[0];
      var k := s.kids[i];
      var v := PutShape(k, at[1..], u);
      KidIn(s.kids, i);
      SeparateWithout(s.kids, i);
      KidsSplit(s.kids, i);
      SubtreeNodes(k, at[1..]);
      PutSeparate(k, at[1..], u);
      PutCells(k, at[1..], u);
      assert SeparateKids(Without(s.kids, i)) && NodesOf(k) !! Below(Without(s.kids, i)) && s.node !in Below(s.kids);
      PutSeparateKid(s, i, v, NodesOf(ShapeAt(s, at)), NodesOf(u));
    }
  }

  lemma {:induction false} PutSeparateKid(s: Shape, i: nat, v: Shape, before: set<Node>, after: set<Node>)
    requires i < |s.kids| && SeparateKids(Without(s.kids, i)) && NodesOf(s.kids[i]) !! Below(Without(s.kids, i))
    requires s.node !in Below(s.kids) && Separate(v) && before <= NodesOf(s.kids[i])
    requires NodesOf(v) == (NodesOf(s.kids[i]) - before) + after && after !! NodesOf(s) - before
    ensures var t := s.(kids := s.kids[i := v]); Separate(t) && NodesOf(t) == (NodesOf(s) - before) + after
  {
    var t := s.(kids := s.kids[i := v]);
    KidsReplaced(s.kids, i, v);
    KidsSplit(s.kids, i);
    NodesAre(s);
    NodesAre(t);
    hide NodesOf, Below, SeparateKids, Without;
    SeparateInsert(Without(s.kids, i), i, v);
    assert InsertAt(Without(s.kids, i), i, v) == s.kids[i := v];
  }

  lemma {:induction false} SubtreeNodes(s: Shape, at: L.Location)
    requires IsPlace(s, at)
    ensures NodesOf(ShapeAt(s, at)) <= NodesOf(s) && (at != [] ==> NodesOf(ShapeAt(s, at)) <= Below(s.kids))
    ensures Below(ShapeAt(s, at).kids) <= Below(s.kids)
    decreases |at|
  {
    if at != [] {
      KidIn(s.kids, at[0]);
      SubtreeNodes(s.kids[at[0]], at[1..]);
    }
  }

  /** Cells outside the subtree mention its root at most as a child, and nothing below it. */
  lemma {:induction false} OutsideApart(s: Shape, at: L.Location, c: Cell)
    requires IsPlace(s, at) && Separate(s) && c in OutsideCells(s, at)
    ensures c.node !in NodesOf(ShapeAt(s, at)) && c.node in NodesOf(s)
    ensures forall n | n in c.roots :: n !in Below(ShapeAt(s, at).kids)
    decreases |at|
  {
    var i := at[0];
    var k, rest := s.kids[i], Without(s.kids, i);
    SeparateWithout(s.kids, i);
    KidsSplit(s.kids, i);
    SubtreeNodes(k, at[1..]);
    if c in CellsBelow(rest) {
      CellInsideKids(rest, c);
    } else if c == CellOf(s) {
      assert forall j | 0 <= j < |s.kids| :: s.kids[j].node !in Below(k.kids) by {
        forall j | 0 <= j < |s.kids| ensures s.kids[j].node !in Below(k.kids) { RootNotBelow(s.kids, i, j); }
      }
    } else {
      OutsideApart(k, at[1..], c);
    }
  }

  lemma RootNotBelow(kids: seq<Shape>, i: nat, j: nat)
    requires SeparateKids(kids) && i < |kids| && j < |kids|
    ensures kids[j].node !in Below(kids[i].kids)
  {
    SeparateWithout(kids, i);
    if j != i {
      var rest := Without(kids, i);
      RootsBelow(rest);
      assert Roots(rest)[if j < i then j else j - 1] == kids[j].node;
    }
  }

  /** Before an edit of the subtree: it is whole, and the other cells hold without it. */
  lemma {:induction false} BeforeEdit(s: Shape, at: L.Location, tailed: bool)
    requires Linked(s, tailed) && WellFormed(s) && IsPlace(s, at)
    ensures var sub := ShapeAt(s, at);
      && Linked(sub, tailed) && WellFormed(sub) && NodesOf(sub) <= NodesOf(s) && NodesOf(sub) == {sub.node} + Below(sub.kids)
      && s.node !in Below(sub.kids)
      && forall c | c in OutsideCells(s, at) ::
           Holds(c, tailed) && c.node !in NodesOf(sub) && forall n | n in c.roots :: n !in Below(sub.kids)
  {
    var sub := ShapeAt(s, at);
    SubtreeNodes(s, at);
    PlacesAreLocations(s, at);
    PutCells(s, at, sub);
    SubtreeSeparate(s, at);
    forall c | c in OutsideCells(s, at)
      ensures Holds(c, tailed) && c.node !in NodesOf(sub) && forall n | n in c.roots :: n !in Below(sub.kids)
    {
      OutsideApart(s, at, c);
    }
  }

  lemma {:induction false} SubtreeSeparate(s: Shape, at: L.Location)
    requires Separate(s) && IsPlace(s, at)
    ensures Separate(ShapeAt(s, at))
    decreases |at|
  {
    if at != [] {
      SeparateKid(s.kids, at[0]);
      SubtreeSeparate(s.kids[at[0]], at[1..]);
    }
  }

  /** After it: the whole tree with the edited subtree in its place. */
  lemma {:induction false} AfterEdit(s: Shape, at: L.Location, u: Shape, tailed: bool)
    requires Separate(s) && WellFormed(s) && IsPlace(s, at) && SameRoot(u, ShapeAt(s, at)) && Linked(u, tailed) && WellFormed(u)
    requires NodesOf(u) !! NodesOf(s) - NodesOf(ShapeAt(s, at))
    requires forall c | c in OutsideCells(s, at) :: Holds(c, tailed)
    ensures var t := PutShape(s, at, u);
      && Linked(t, tailed) && WellFormed(t) && SameRoot(t, s)
      && NodesOf(t) == (NodesOf(s) - NodesOf(ShapeAt(s, at))) + NodesOf(u)
    ensures L.IsLocation(ValueOf(s), at)
    ensures ValueOf(PutShape(s, at, u)) == L.Put(ValueOf(s), at, ValueOf(u))
  {
    hide NodesOf, Below, CellsOf, Reach, WellFormed, ValueOf;
    PutCells(s, at, u);
    PutSeparate(s, at, u);
    PutValue(s, at, u);
    HeldEach(OutsideCells(s, at), tailed);
    HoldUnion(OutsideCells(s, at), CellsOf(u), CellsOf(PutShape(s, at, u)), tailed);
  }

  lemma {:induction false} OutsideNodes(s: Shape, at: L.Location)
    requires Separate(s) && IsPlace(s, at)
    ensures forall c | c in OutsideCells(s, at) :: c.node in NodesOf(s) && forall n | n in c.roots :: n in NodesOf(s)
  {
    forall c | c in OutsideCells(s, at) ensures c.node in NodesOf(s) && forall n | n in c.roots :: n in NodesOf(s) {
      PutCells(s, at, ShapeAt(s, at));
      CellInside(s, c);
      NodesAre(s);
    }
  }
}
