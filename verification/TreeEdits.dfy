/** Detaching, appending, inserting and replacing whole subtrees in the child list of one node. */
module TreeEdits {
  import opened CStrings
  import opened JsonTree
  import opened Sequences
  import opened Nodes
  import opened Trees

  /** A tree that is in no list. */
  ghost predicate Detached(s: Shape)
    reads Reach(CellsOf(s)), s.node
  {
    Linked(s, true) && s.node.next == null && s.node.prev == null
  }

  ghost predicate WholeKids(kids: seq<Shape>)
    reads Reach(CellsBelow(kids))
  {
    SeparateKids(kids) && HoldAll(CellsBelow(kids), true)
  }

  lemma WholeParts(s: Shape)
    requires Linked(s, true)
    ensures HasData(s.node, s.data) && List(s.node, Roots(s.kids)) && WholeKids(s.kids) && s.node !in Below(s.kids)
  {
    assert CellOf(s) in CellsOf(s);
  }

  lemma WholeOf(s: Shape)
    requires HasData(s.node, s.data) && List(s.node, Roots(s.kids)) && WholeKids(s.kids) && s.node !in Below(s.kids)
    ensures Linked(s, true) && NodesOf(s) == {s.node} + Below(s.kids)
  {
  }

  lemma {:induction false} SeparateKid(kids: seq<Shape>, i: nat)
    requires SeparateKids(kids) && i < |kids|
    ensures Separate(kids[i])
  {
    if i > 0 { SeparateKid(kids[1..], i - 1); }
  }

  lemma {:induction false} KidsSplit(kids: seq<Shape>, i: nat)
    requires i < |kids|
    ensures Below(kids) == Below(Without(kids, i)) + NodesOf(kids[i])
    ensures CellsBelow(kids) == CellsBelow(Without(kids, i)) + CellsOf(kids[i])
  {
    hide NodesOf, CellsOf;
    if i == 0 {
      assert Without(kids, i) == kids[1..];
    } else {
      KidsSplit(kids[1..], i - 1);
      var w := Without(kids, i);
      assert w[0] == kids[0] && w[1..] == Without(kids[1..], i - 1);
    }
  }

  lemma {:induction false} SeparateWithout(kids: seq<Shape>, i: nat)
    requires SeparateKids(kids) && i < |kids|
    ensures SeparateKids(Without(kids, i)) && NodesOf(kids[i]) !! Below(Without(kids, i)) && Separate(kids[i])
  {
    hide NodesOf, Separate;
    var w := Without(kids, i);
    if i == 0 {
      assert w == kids[1..];
    } else {
      SeparateWithout(kids[1..], i - 1);
      assert w[0] == kids[0] && w[1..] == Without(kids[1..], i - 1);
      KidsSplit(kids[1..], i - 1);
    }
  }

  lemma {:induction false} SeparateInsert(kids: seq<Shape>, i: nat, u: Shape)
    requires SeparateKids(kids) && i <= |kids| && Separate(u) && NodesOf(u) !! Below(kids)
    ensures SeparateKids(InsertAt(kids, i, u))
    ensures Below(InsertAt(kids, i, u)) == Below(kids) + NodesOf(u)
    ensures CellsBelow(InsertAt(kids, i, u)) == CellsBelow(kids) + CellsOf(u)
  {
    hide NodesOf, CellsOf, Separate;
    var w := InsertAt(kids, i, u);
    assert Without(w, i) == kids;
    KidsSplit(w, i);
    if i == 0 {
      assert w[0] == u && w[1..] == kids;
    } else {
      SeparateInsert(kids[1..], i - 1, u);
      assert w[0] == kids[0] && w[1..] == InsertAt(kids[1..], i - 1, u);
    }
  }

  lemma RootsWithout(kids: seq<Shape>, i: nat)
    requires i < |kids|
    ensures Roots(Without(kids, i)) == Without(Roots(kids), i)
  {
  }

  lemma {:induction false} RootsInsert(kids: seq<Shape>, i: nat, u: Shape)
    requires i <= |kids|
    ensures Roots(InsertAt(kids, i, u)) == InsertAt(Roots(kids), i, u.node)
  {
  }

  lemma NodesAre(s: Shape)
    ensures NodesOf(s) == {s.node} + Below(s.kids)
  {
  }

  lemma RootApart(s: Shape)
    requires Linked(s, true)
    ensures NodesOf(s) == {s.node} + Below(s.kids) && s.node !in Below(s.kids)
  {
  }

  /** The splice itself, and that nothing below the roots notices it. */
  method DetachLinks(parent: Node, item: Node, ghost kids: seq<Shape>, ghost i: nat)
    requires List(parent, Roots(kids)) && WholeKids(kids) && parent !in Below(kids) && i < |kids| && kids[i].node == item
    modifies parent`child, Below(kids)`next, Below(kids)`prev
    ensures List(parent, Without(Roots(kids), i)) && item.next == null && item.prev == null
    ensures HoldAll(CellsBelow(kids), true)
  {
    hide Below, CellsBelow, CellsOf, NodesOf, SeparateKids, HoldAll, List;
    ghost var ns := Roots(kids);
    RootsBelow(kids);
    HoldEach(CellsBelow(kids), true);
    assert allocated(CellsBelow(kids));
    assert forall k | 0 <= k < |ns| :: ns[k] in Below(kids);
    DetachItemViaPointer(parent, item, ns, i);
    forall c | c in CellsBelow(kids) ensures Holds(c, true) {
      BelowRoots(kids, c);
      assert old(Holds(c, true));
    }
    HeldEach(CellsBelow(kids), true);
  }

  /** cJSON_DetachItemViaPointer on a tree: the child and what is left are whole. */
  method DetachKid(parent: Node, item: Node, ghost s: Shape, ghost i: nat) returns (ghost t: Shape)
    requires Linked(s, true) && s.node == parent && i < |s.kids| && s.kids[i].node == item
    modifies parent`child, Below(s.kids)`next, Below(s.kids)`prev
    ensures t == s.(kids := Without(s.kids, i))
    ensures Linked(t, true) && Detached(s.kids[i]) && NodesOf(s) == NodesOf(t) + NodesOf(s.kids[i]) && NodesOf(t) !! NodesOf(s.kids[i])
  {
    hide Below, CellsBelow, CellsOf, NodesOf, SeparateKids, Separate, HoldAll, Reach, List;
    ghost var kids := s.kids;
    t := s.(kids := Without(kids, i));
    WholeParts(s);
    SeparateWithout(kids, i);
    KidsSplit(kids, i);
    RootsWithout(kids, i);
    NodesAre(s);
    NodesAre(t);
    DetachLinks(parent, item, kids, i);
    HoldParts(CellsBelow(t.kids), CellsOf(kids[i]), CellsBelow(kids));
    WholeOf(t);
  }

  lemma HoldParts(a: set<Cell>, b: set<Cell>, all: set<Cell>)
    requires HoldAll(all, true) && all == a + b
    ensures HoldAll(a, true) && HoldAll(b, true)
  {
  }

  /** What the roots of the kids and a new item mean for the frame of a list operation. */
  lemma {:induction false} InsertFacts(s: Shape, i: nat, u: Shape)
    requires Linked(s, true) && Detached(u) && NodesOf(s) !! NodesOf(u) && i <= |s.kids|
    ensures var all := InsertAt(s.kids, i, u);
      && HasData(s.node, s.data) && List(s.node, Roots(s.kids)) && s.node !in Below(all)
      && SeparateKids(s.kids) && SeparateKids(all) && HoldAll(CellsBelow(all), true)
      && Below(all) == Below(s.kids) + NodesOf(u) && NodesOf(s) == {s.node} + Below(s.kids)
      && Roots(all) == InsertAt(Roots(s.kids), i, u.node)
      && u.node !in Below(s.kids) && u.node !in Roots(s.kids) && u.node != s.node && u.node in Below(all)
      && u.node.next == null
  {
    WholeParts(s);
    NodesAre(u);
    NodesAre(s);
    RootsBelow(s.kids);
    SeparateInsert(s.kids, i, u);
    RootsInsert(s.kids, i, u);
    hide Below, CellsBelow, NodesOf, Separate, SeparateKids, Reach;
    HoldUnion(CellsBelow(s.kids), CellsOf(u), CellsBelow(InsertAt(s.kids, i, u)), true);
  }

  /** insert_item_in_array on a tree: at the position if there is one, otherwise nothing changes. */
  method InsertKid(parent: Node, which: nat, item: Node, ghost s: Shape, ghost u: Shape) returns (ok: bool, ghost t: Shape)
    requires Linked(s, true) && s.node == parent && Detached(u) && u.node == item && NodesOf(s) !! NodesOf(u)
    modifies parent`child, Below(s.kids)`next, Below(s.kids)`prev, item`next, item`prev
    ensures ok <==> which <= |s.kids|
    ensures t == if ok then s.(kids := InsertAt(s.kids, which, u)) else s
    ensures Linked(t, true) && (ok ==> NodesOf(t) == NodesOf(s) + NodesOf(u))
  {
    hide Below, CellsBelow, CellsOf, NodesOf, SeparateKids, Separate, HoldAll, Reach, List, Linked, Detached;
    ghost var ns, i := Roots(s.kids), if which <= |s.kids| then which else |s.kids|;
    ghost var all := InsertAt(s.kids, i, u);
    InsertFacts(s, i, u);
    HoldEach(CellsBelow(all), true);
    assert allocated(CellsBelow(all)) && allocated(Below(s.kids));
    assert forall k | 0 <= k < |ns| :: ns[k] in Below(s.kids) by { RootsBelow(s.kids); }
    ok := InsertItemOrFail(parent, which, item, ns);
    forall c | c in CellsBelow(all) ensures Holds(c, true) {
      BelowRoots(all, c);
      assert forall k | 0 <= k < |all| :: Roots(all)[k] in Roots(all);
      assert Roots(all)[i] == item;
      assert old(Holds(c, true));
    }
    HeldEach(CellsBelow(all), true);
    t := if ok then s.(kids := all) else s;
    WholeAfter(s, all, t, i, u);
  }

  /** cJSON_AddItemToArray on a tree. */
  method AppendKid(parent: Node, item: Node, ghost s: Shape, ghost u: Shape) returns (ghost t: Shape)
    requires Linked(s, true) && s.node == parent && Detached(u) && u.node == item && NodesOf(s) !! NodesOf(u)
    modifies parent`child, Below(s.kids)`next, Below(s.kids)`prev, item`next, item`prev
    ensures t == s.(kids := s.kids + [u]) && Linked(t, true) && NodesOf(t) == NodesOf(s) + NodesOf(u)
  {
    hide Below, CellsBelow, CellsOf, NodesOf, SeparateKids, Separate, HoldAll, Reach, List, Linked, Detached;
    ghost var ns, i := Roots(s.kids), |s.kids|;
    ghost var all := InsertAt(s.kids, i, u);
    assert all == s.kids + [u];
    InsertFacts(s, i, u);
    HoldEach(CellsBelow(all), true);
    assert allocated(CellsBelow(all)) && allocated(Below(s.kids));
    assert forall k | 0 <= k < |ns| :: ns[k] in Below(s.kids) by { RootsBelow(s.kids); }
    OwnTail(s);
    AddItemToArray(parent, item, ns);
    assert InsertAt(ns, i, item) == ns + [item];
    forall c | c in CellsBelow(all) ensures Holds(c, true) {
      BelowRoots(all, c);
      assert forall k | 0 <= k < |all| :: Roots(all)[k] in Roots(all);
      assert Roots(all)[i] == item;
      assert old(Holds(c, true));
    }
    HeldEach(CellsBelow(all), true);
    t := s.(kids := all);
    WholeAfter(s, all, t, i, u);
  }

  lemma OwnTail(s: Shape)
    requires List(s.node, Roots(s.kids))
    ensures Children(s.node, Roots(s.kids)) && Tailed(Roots(s.kids))
  {
  }

  lemma {:induction false} WholeAfter(s: Shape, all: seq<Shape>, t: Shape, i: nat, u: Shape)
    requires i <= |s.kids| && all == InsertAt(s.kids, i, u) && (t == s || t == s.(kids := all))
    requires HasData(s.node, s.data) && List(s.node, Roots(t.kids)) && s.node !in Below(all)
    requires SeparateKids(all) && HoldAll(CellsBelow(all), true) && SeparateKids(s.kids)
    ensures Linked(t, true)
    ensures t == s.(kids := all) ==> NodesOf(t) == NodesOf(s) + NodesOf(u)
  {
    hide Below, CellsBelow, CellsOf, SeparateKids, HoldAll, List, NodesOf, Linked;
    assert Without(all, i) == s.kids;
    KidsSplit(all, i);
    HoldParts(CellsBelow(s.kids), CellsOf(u), CellsBelow(all));
    NodesAre(s);
    NodesAre(t);
    WholeOf(t);
  }
}
