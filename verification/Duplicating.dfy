/** cJSON_Duplicate: a copy of a tree on nodes of its own. */
module Duplicating {
  import opened CStrings
  import opened JsonTree
  import opened Nodes
  import opened Trees

  /** The same data in the same places. */
  predicate Copied(s: Shape, t: Shape) {
    s.data == t.data && CopiedKids(s.kids, t.kids)
  }

  predicate CopiedKids(a: seq<Shape>, b: seq<Shape>) {
    |a| == |b| && forall i | 0 <= i < |a| :: Copied(a[i], b[i])
  }

  lemma {:induction false} CopyHasSameValue(s: Shape, t: Shape)
    requires Copied(s, t)
    ensures ValueOf(s) == ValueOf(t) && (WellFormed(s) <==> WellFormed(t))
  {
    forall i | 0 <= i < |s.kids|
      ensures s.kids[i].data == t.kids[i].data
      ensures ValueOf(s.kids[i]) == ValueOf(t.kids[i]) && (WellFormed(s.kids[i]) <==> WellFormed(t.kids[i]))
    {
      CopyHasSameValue(s.kids[i], t.kids[i]);
    }
    assert ItemsOf(s.kids) == ItemsOf(t.kids);
    assert forall i | 0 <= i < |s.kids| :: MembersOf(s.kids)[i] == MembersOf(t.kids)[i];
  }

  /** The copies made so far, linked below the new item. */
  ghost predicate Copying(copy: Node, last: Node?, ts: seq<Shape>)
    reads copy, Below(ts), Reach(CellsBelow(ts)), Roots(ts)
  {
    && SeparateKids(ts) && copy !in Below(ts)
    && HoldAll(CellsBelow(ts), true)
    && Links(Roots(ts)) && copy.child == HeadOf(Roots(ts))
    && last == if ts == [] then null else ts[|ts| - 1].node
  }

  /** The loop of cJSON_Duplicate stands before child |ts| of the item. */
  ghost predicate AtChild(child: Node?, s: Shape, ts: seq<Shape>) {
    && |ts| <= |s.kids|
    && child == (if |ts| < |s.kids| then s.kids[|ts|].node else null)
    && forall i | 0 <= i < |ts| :: Copied(s.kids[i], ts[i])
  }

  /** cJSON_Duplicate.  The list of children need not have its tail noted: the copy notes it anew. */
  method Duplicate(item: Node, recurse: bool, ghost s: Shape) returns (copy: Node, ghost t: Shape)
    requires s.node == item && HoldAll(CellsOf(s), false)
    ensures fresh(NodesOf(t)) && Separate(t) && HoldAll(CellsOf(t), true)
    ensures t.node == copy && copy.next == null && copy.prev == null
    ensures recurse ==> Copied(s, t)
    ensures !recurse ==> t == Shape(copy, s.data, [])
    decreases s
  {
    hide Below, CellsBelow, SeparateKids, Separate, HoldAll, NodesOf, CellsOf, Reach, Copying, HasData, Copied;
    OwnCell(s, false);
    assert allocated(Reach(CellsOf(s)));
    copy := CopyOf(item, s.data);
    t := Shape(copy, s.data, []);
    NothingCopied(copy);
    if !recurse {
      LoneCopy(copy, s.data);
      return;
    }
    var child, last := item.child, null;
    ghost var ts: seq<Shape> := [];
    while child != null
      invariant fresh(copy) && fresh(Below(ts)) && copy.next == null && copy.prev == null && HasData(copy, s.data)
      invariant AtChild(child, s, ts) && HoldAll(CellsOf(s), false)
      invariant Copying(copy, last, ts)
      decreases |s.kids| - |ts|
    {
      ghost var u;
      var newchild;
      KidFacts(s, false, |ts|);
      assert allocated(Below(ts)) && allocated(Roots(ts)) && allocated(Reach(CellsBelow(ts))) && allocated(Reach(CellsOf(s)));
      newchild, u := Duplicate(child, true, s.kids[|ts|]);
      assert HoldAll(CellsOf(s), false) && Copying(copy, last, ts);
      BelowOne(u);
      BelowAppend(ts, [u]);
      Outside(copy, last, ts);
      assert newchild in NodesOf(u) by { OwnNode(u); }
      last := LinkCopy(copy, last, newchild, ts, u);
      ts := ts + [u];
      assert HoldAll(CellsOf(s), false);
      child := child.next;
    }
    t := Shape(copy, s.data, ts);
    Outside(copy, last, ts);
    NoteTail(copy, last, t);
    KidsCopied(s, t);
  }

  /** The last step: the head of the copied children names the tail. */
  method NoteTail(copy: Node, last: Node?, ghost t: Shape)
    requires Copying(copy, last, t.kids) && t.node == copy && HasData(copy, t.data)
    modifies Below(t.kids)`prev
    ensures Separate(t) && HoldAll(CellsOf(t), true)
    ensures copy.prev == old(copy.prev)
  {
    hide Below, CellsBelow, HoldAll, NodesOf, Reach;
    ghost var ts := t.kids;
    RootsBelow(ts);
    SeparateRoots(ts);
    assert allocated(CellsBelow(ts));
    assert forall c | c in CellsBelow(ts) :: Holds(c, true) by { HoldEach(CellsBelow(ts), true); }
    assert copy.child != null ==> copy.child == Roots(ts)[0] && copy.child in Roots(ts);
    if copy.child != null {
      copy.child.prev := last;
    }
    assert Holds(CellOf(t), true);
    forall c | c in CellsBelow(ts) ensures Holds(c, true) {
      BelowRoots(ts, c);
      assert old(Holds(c, true));
      assert copy.child != null ==> copy.child !in c.roots;
      assert Links(c.roots) && Tailed(c.roots);
    }
    HeldEach(CellsOf(t), true);
  }

  lemma {:induction false} KidsCopied(s: Shape, t: Shape)
    requires s.data == t.data && |s.kids| == |t.kids| && forall i | 0 <= i < |t.kids| :: Copied(s.kids[i], t.kids[i])
    ensures Copied(s, t) && NodesOf(t) == {t.node} + Below(t.kids)
  {
  }

  lemma Outside(copy: Node, last: Node?, ts: seq<Shape>)
    requires Copying(copy, last, ts)
    ensures copy !in Below(ts) && forall n | n in Roots(ts) :: n in Below(ts)
  {
    RootsBelow(ts);
  }

  method CopyOf(item: Node, ghost d: Data) returns (copy: Node)
    requires HasData(item, d)
    ensures fresh(copy) && HasData(copy, d) && copy.next == null && copy.prev == null && copy.child == null
  {
    copy := new Node();
    copy.kind, copy.number, copy.valuestring, copy.key := item.kind, item.number, item.valuestring, item.key;
  }

  lemma OwnNode(s: Shape)
    ensures s.node in NodesOf(s)
  {
  }

  lemma NothingCopied(copy: Node)
    requires copy.child == null
    ensures Copying(copy, null, []) && Below([]) == {}
  {
    assert Roots([]) == [];
  }

  lemma LoneCopy(copy: Node, d: Data)
    requires HasData(copy, d) && copy.child == null
    ensures var t := Shape(copy, d, []); Separate(t) && HoldAll(CellsOf(t), true) && NodesOf(t) == {copy}
  {
    assert Roots([]) == [];
  }

  /** Hooks the copy of the next child to the copies made before. */
  method LinkCopy(copy: Node, last: Node?, newchild: Node, ghost ts: seq<Shape>, ghost u: Shape) returns (last': Node)
    requires Copying(copy, last, ts) && u.node == newchild && newchild.next == null && newchild.prev == null
    requires Separate(u) && HoldAll(CellsOf(u), true) && copy !in NodesOf(u) && Below(ts) !! NodesOf(u)
    modifies copy`child, Below(ts)`next, newchild`prev
    ensures Copying(copy, last', ts + [u])
  {
    hide Below, CellsBelow, SeparateKids, Separate, HoldAll, NodesOf, CellsOf, Reach;
    ghost var us := ts + [u];
    assert allocated(CellsBelow(us));
    RootsBelow(ts);
    BelowOne(u);
    BelowAppend(ts, [u]);
    SeparateAppend(ts, u);
    AllHold(ts, u);
    SeparateRoots(us);
    assert Roots(us) == Roots(ts) + [newchild] && Roots(us)[|ts|] == newchild;
    assert last != null ==> Roots(us)[|ts| - 1] == last && last in Roots(us);
    assert copy !in Below(us);
    if last != null {
      last.next := newchild;
      newchild.prev := last;
    } else {
      copy.child := newchild;
    }
    last' := newchild;
    forall c | c in CellsBelow(us) ensures Holds(c, true) {
      BelowRoots(us, c);
      assert old(Holds(c, true));
      assert newchild !in c.roots && (last != null ==> last !in c.roots);
      assert Links(c.roots) && Tailed(c.roots);
    }
    HeldEach(CellsBelow(us), true);
  }

  lemma {:induction false} AllHold(ts: seq<Shape>, u: Shape)
    requires HoldAll(CellsBelow(ts), true) && HoldAll(CellsOf(u), true)
    ensures HoldAll(CellsBelow(ts + [u]), true)
  {
    BelowOne(u);
    BelowAppend(ts, [u]);
  }
}
