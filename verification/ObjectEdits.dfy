/** Looking up, detaching and adding members of an object in a tree of nodes. */
module ObjectEdits {
  import opened CStrings
  import opened JsonTree
  import opened Sequences
  import opened Members
  import opened Nodes
  import opened Trees
  import opened Comparing
  import opened TreeEdits
  import opened Duplicating

  /** A whole tree that stands for a JSON value and is in no list. */
  ghost predicate Loose(s: Shape)
    reads Reach(CellsOf(s)), s.node
  {
    Detached(s) && WellFormed(s)
  }

  predicate IsObject(s: Shape) {
    WellFormed(s) && s.data.kind.KObject?
  }

  lemma ObjectIs(t: Shape)
    requires IsObject(t)
    ensures WellFormed(t) && ValueOf(t) == Object(MembersOf(t.kids))
  {
  }

  lemma KidIsLoose(s: Shape, i: nat)
    requires WellFormed(s) && i < |s.kids| && Detached(s.kids[i])
    ensures Loose(s.kids[i])
  {
  }

  lemma MembersWithout(s: Shape, i: nat)
    requires i < |s.kids|
    ensures MembersOf(Without(s.kids, i)) == Without(MembersOf(s.kids), i)
  {
  }

  lemma IsObjectWithout(s: Shape, i: nat)
    requires IsObject(s) && i < |s.kids|
    ensures IsObject(s.(kids := Without(s.kids, i)))
  {
  }

  /** cJSON_DetachItemFromObject and its case-sensitive form: the first member with the key, if there is one. */
  method DetachFromObject(parent: Node, name: string, cs: bool, ghost s: Shape) returns (item: Node?, ghost t: Shape, ghost i: nat)
    requires Linked(s, true) && IsObject(s) && s.node == parent
    modifies parent`child, Below(s.kids)`next, Below(s.kids)`prev
    ensures i == IndexOf(cs, MembersOf(s.kids), name)
    ensures Linked(t, true) && IsObject(t) && t.node == parent && t.data == s.data
    ensures MembersOf(t.kids) == RemoveKey(cs, MembersOf(s.kids), name)
    ensures item == null <==> i == |s.kids|
    ensures item == null ==> t == s
    ensures item != null ==>
      && t.kids == Without(s.kids, i) && s.kids[i].node == item && Loose(s.kids[i])
      && NodesOf(s) == NodesOf(t) + NodesOf(s.kids[i]) && NodesOf(t) !! NodesOf(s.kids[i])
  {
    hide Linked, Detached, NodesOf, Below, Reach, CellsOf, IndexOf, MembersOf, WellFormed, Loose;
    t := s;
    TreeOf(s);
    assert allocated(Reach(CellsOf(s)));
    item, i := GetObjectItem(parent, name, cs, s);
    assert Linked(s, true);
    if item != null {
      t := DetachKid(parent, item, s, i);
      MembersWithout(s, i);
      IsObjectWithout(s, i);
      KidIsLoose(s, i);
    }
  }

  lemma TreeOf(s: Shape)
    requires Linked(s, true) && WellFormed(s)
    ensures IsTree(s)
  {
  }

  function WithKey(u: Shape, key: string): Shape {
    u.(data := u.data.(key := Some(key)))
  }

  lemma WithKeyFacts(u: Shape, key: string)
    ensures NodesOf(WithKey(u, key)) == NodesOf(u) && ValueOf(WithKey(u, key)) == ValueOf(u)
    ensures WellFormed(WithKey(u, key)) == WellFormed(u) && KeyOf(WithKey(u, key)) == key
  {
  }

  /** The new name of an item that is added to an object. */
  method SetKey(item: Node, key: string, ghost u: Shape)
    requires Detached(u) && u.node == item
    modifies item`key
    ensures Detached(WithKey(u, key))
  {
    hide Below, CellsBelow, SeparateKids, Reach;
    WholeParts(u);
    HoldEach(CellsBelow(u.kids), true);
    assert allocated(CellsBelow(u.kids));
    item.key := Some(key);
    forall c | c in CellsBelow(u.kids) ensures Holds(c, true) {
      CellInsideKids(u.kids, c);
      assert old(Holds(c, true));
    }
    HeldEach(CellsBelow(u.kids), true);
    WholeOf(WithKey(u, key));
  }

  lemma {:induction false} MembersAppend(kids: seq<Shape>, u: Shape)
    ensures MembersOf(kids + [u]) == MembersOf(kids) + [Member(KeyOf(u), ValueOf(u))]
  {
    hide ValueOf, KeyOf;
    forall i | 0 <= i < |kids| + 1
      ensures MembersOf(kids + [u])[i] == (MembersOf(kids) + [Member(KeyOf(u), ValueOf(u))])[i]
    {
    }
  }

  lemma {:induction false} IsObjectAppend(s: Shape, u: Shape)
    requires IsObject(s) && WellFormed(u) && u.data.key.Some?
    ensures IsObject(s.(kids := s.kids + [u]))
  {
  }

  /** cJSON_AddItemToObject */
  method AddToObject(parent: Node, key: string, item: Node, ghost s: Shape, ghost u: Shape) returns (ghost t: Shape)
    requires Linked(s, true) && IsObject(s) && s.node == parent && Loose(u) && u.node == item && NodesOf(s) !! NodesOf(u)
    modifies parent`child, Below(s.kids)`next, Below(s.kids)`prev, item`next, item`prev, item`key
    ensures Linked(t, true) && IsObject(t) && t.node == parent && t.data == s.data
    ensures MembersOf(t.kids) == MembersOf(s.kids) + [Member(key, ValueOf(u))]
    ensures NodesOf(t) == NodesOf(s) + NodesOf(u)
  {
    hide Linked, Detached, NodesOf, Below, Reach, CellsOf, MembersOf, WellFormed, ValueOf;
    ghost var v := WithKey(u, key);
    assert item in NodesOf(u) && item !in NodesOf(s) by { NodesAre(u); }
    NodesAre(s);
    WholeReach(s);
    WithKeyFacts(u, key);
    assert allocated(Reach(CellsOf(s)));
    SetKey(item, key, u);
    assert Linked(s, true);
    t := AppendKid(parent, item, s, v);
    MembersAppend(s.kids, v);
    IsObjectAppend(s, v);
  }

  /** cJSON_AddItemToObject on an object that is in no list. */
  method AddMember(parent: Node, key: string, item: Node, ghost s: Shape, ghost u: Shape) returns (ghost t: Shape)
    requires Loose(s) && IsObject(s) && s.node == parent && Loose(u) && u.node == item && NodesOf(s) !! NodesOf(u)
    modifies NodesOf(s), NodesOf(u)
    ensures Loose(t) && IsObject(t) && t.node == parent && NodesOf(t) == NodesOf(s) + NodesOf(u)
    ensures MembersOf(t.kids) == MembersOf(s.kids) + [Member(key, ValueOf(u))]
  {
    hide Below, NodesOf, Reach, CellsOf, Linked, WellFormed, ValueOf, MembersOf;
    ObjectParts(s);
    NodesAre(u);
    t := AddToObject(parent, key, item, s, u);
    ObjectWhole(t);
  }

  lemma {:induction false} ObjectParts(s: Shape)
    requires Loose(s)
    ensures Linked(s, true) && s.node.next == null && s.node.prev == null
    ensures NodesOf(s) == {s.node} + Below(s.kids) && s.node !in Below(s.kids)
  {
  }

  lemma {:induction false} ObjectWhole(t: Shape)
    requires Linked(t, true) && IsObject(t) && t.node.next == null && t.node.prev == null
    ensures Loose(t)
  {
  }

  /** The cells of a tree mention only its own nodes. */
  lemma WholeReach(s: Shape)
    ensures Reach(CellsOf(s)) <= NodesOf(s)
  {
    forall c | c in CellsOf(s) ensures c.node in NodesOf(s) && forall n | n in c.roots :: n in NodesOf(s) {
      CellInside(s, c);
    }
  }

  /** A duplicate of a tree that stands for a JSON value. */
  method DuplicateTree(item: Node, ghost s: Shape) returns (copy: Node, ghost t: Shape)
    requires IsTree(s) && s.node == item
    ensures IsTree(s) && Loose(t) && t.node == copy && fresh(NodesOf(t))
    ensures ValueOf(t) == ValueOf(s) && t.data == s.data
  {
    hide CellsOf, NodesOf, Reach, ValueOf, WellFormed, HoldAll, Separate;
    assert allocated(Reach(CellsOf(s)));
    copy, t := Duplicate(item, true, s);
    CopyHasSameValue(s, t);
  }

  /** cJSON_CreateObject and its like: an item of some kind with nothing in it. */
  method NewItem(kind: Kind, text: string) returns (item: Node, ghost t: Shape)
    requires !kind.KInvalid?
    ensures Loose(t) && t == Shape(item, Data(kind, text, 0, None), []) && NodesOf(t) == {item} && fresh(item)
    ensures MembersOf(t.kids) == []
  {
    item := new Node();
    item.kind, item.valuestring := kind, text;
    t := Shape(item, Data(kind, text, 0, None), []);
    NothingBelow();
    WholeOf(t);
  }

  lemma NothingBelow()
    ensures Roots([]) == [] && Below([]) == {} && CellsBelow([]) == {} && SeparateKids([]) && MembersOf([]) == []
  {
  }
}
