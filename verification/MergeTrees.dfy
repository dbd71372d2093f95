/** merge_patch on trees of nodes: the target is edited in place, the patch only read. */
module MergeTrees {
  import opened CStrings
  import opened JsonTree
  import opened Members
  import opened Nodes
  import opened Trees
  import opened Comparing
  import opened TreeEdits
  import opened ObjectEdits
  import opened Duplicating
  import Merging = MergePatches

  ghost function Values(s: Option<Shape>): Option<Json> {
    if s.None? then None else Some(ValueOf(s.value))
  }

  ghost function OptionNodes(s: Option<Shape>): set<Node> {
    if s.None? then {} else NodesOf(s.value)
  }

  ghost predicate LooseOption(n: Node?, s: Option<Shape>)
    reads if s.None? then {} else Reach(CellsOf(s.value)) + {s.value.node}
  {
    match s
    case None => n == null
    case Some(t) => n == t.node && Loose(t)
  }

  /** Whole, an object, and in no list. */
  ghost predicate Target(parent: Node, s: Shape)
    reads Reach(CellsOf(s)), parent, s.node
  {
    Linked(s, true) && IsObject(s) && s.node == parent && parent.next == null && parent.prev == null
  }

  /** The members of the target after one member of the patch. */
  function MergeStep(cs: bool, tm: seq<Member<Json>>, m: Member<Json>): seq<Member<Json>> {
    var rest := RemoveKey(cs, tm, m.key);
    if m.value.Null? then rest else rest + [Member(m.key, Merging.MergePatch(cs, Lookup(cs, tm, m.key), m.value))]
  }

  lemma PatchMember(sp: Shape, j: nat)
    requires IsTree(sp) && sp.data.kind.KObject? && j < |sp.kids|
    ensures IsTree(sp.kids[j]) && MembersOf(sp.kids)[j] == Member(KeyOf(sp.kids[j]), ValueOf(sp.kids[j]))
    ensures var n := sp.kids[j].node;
      && n.key == Some(KeyOf(sp.kids[j])) && (n.kind.KNull? <==> ValueOf(sp.kids[j]).Null?)
      && n.next == if j + 1 < |sp.kids| then sp.kids[j + 1].node else null
    ensures NodesOf(sp.kids[j]) <= NodesOf(sp)
  {
    NodesAre(sp);
    KidIsTree(sp, j);
    KidIn(sp.kids, j);
    hide NodesOf, Below, CellsOf, HoldAll, Reach, IsTree, MembersOf;
    PatchKid(sp, j);
  }

  lemma PatchKid(sp: Shape, j: nat)
    requires IsTree(sp) && sp.data.kind.KObject? && j < |sp.kids|
    ensures var n := sp.kids[j].node;
      && n.key == Some(KeyOf(sp.kids[j])) && (n.kind.KNull? <==> ValueOf(sp.kids[j]).Null?)
      && n.next == if j + 1 < |sp.kids| then sp.kids[j + 1].node else null
  {
    KidFacts(sp, false, j);
    hide HoldAll, CellsOf, Reach, MembersOf;
    assert WellFormed(sp.kids[j]) && sp.kids[j].data.key.Some?;
  }

  /** Members are looked up among the children that stand for them. */
  lemma LookupKid(s: Shape, cs: bool, key: string, i: nat)
    requires i == IndexOf(cs, MembersOf(s.kids), key)
    ensures Lookup(cs, MembersOf(s.kids), key) == if i < |s.kids| then Some(ValueOf(s.kids[i])) else None
  {
    hide IndexOf;
  }

  /** One turn of the loop over the patch. */
  method MergeMember(parent: Node, child: Node, cs: bool, ghost s: Shape, ghost sp: Shape, ghost j: nat) returns (ghost t: Shape)
    requires Target(parent, s) && IsTree(sp) && sp.data.kind.KObject? && NodesOf(s) !! NodesOf(sp)
    requires j < |sp.kids| && sp.kids[j].node == child
    modifies NodesOf(s)
    ensures Target(parent, t) && IsTree(sp)
    ensures MembersOf(t.kids) == MergeStep(cs, MembersOf(s.kids), MembersOf(sp.kids)[j])
    ensures forall n | n in NodesOf(t) :: n in NodesOf(s) || fresh(n)
    decreases sp, 0
  {
    hide Linked, NodesOf, Below, Reach, CellsOf, MembersOf, WellFormed, ValueOf, IsTree, IndexOf, Loose, IsObject;
    PatchMember(sp, j);
    RootApart(s);
    WholeReach(sp);
    var key := child.key.value;
    assert allocated(Reach(CellsOf(sp)));
    var item;
    ghost var rest, i;
    var isNull := child.kind.KNull?;
    item, rest, i := DetachFromObject(parent, key, cs, s);
    assert IsTree(sp);
    RootApart(rest);
    t := rest;
    if !isNull {
      LookupKid(s, cs, key, i);
      ghost var old_item := if item == null then None else Some(s.kids[i]);
      PatchMember(sp, j);
      WholeReach(rest);
      assert allocated(Reach(CellsOf(sp))) && allocated(Reach(CellsOf(rest))) && allocated(NodesOf(rest));
      var replacement;
      ghost var u;
      replacement, u := MergeInto(item, child, cs, old_item, sp.kids[j]);
      assert Linked(rest, true) && IsTree(sp);
      NodesAre(u);
      assert allocated(Reach(CellsOf(sp)));
      t := AddToObject(parent, key, replacement, rest, u);
      assert IsTree(sp);
    }
  }

  lemma {:induction false} MergeMembersStep(cs: bool, tm: seq<Member<Json>>, pm: seq<Member<Json>>, j: nat)
    requires j <= |pm|
    ensures Merging.MergeMembers(cs, tm, pm[j..]) ==
      if j == |pm| then tm else Merging.MergeMembers(cs, MergeStep(cs, tm, pm[j]), pm[j + 1..])
  {
    if j < |pm| { assert pm[j..][0] == pm[j] && pm[j..][1..] == pm[j + 1..]; }
  }

  /** The loop over the members of the patch. */
  method MergeAll(result: Node, patch: Node, cs: bool, ghost s: Shape, ghost sp: Shape) returns (ghost t: Shape)
    requires Target(result, s) && IsTree(sp) && sp.node == patch && sp.data.kind.KObject? && NodesOf(s) !! NodesOf(sp)
    modifies NodesOf(s)
    ensures Target(result, t) && IsTree(sp)
    ensures MembersOf(t.kids) == Merging.MergeMembers(cs, MembersOf(s.kids), MembersOf(sp.kids))
    ensures forall n | n in NodesOf(t) :: n in NodesOf(s) || fresh(n)
    decreases sp, 1
  {
    hide NodesOf, Reach, CellsOf, MembersOf, ValueOf, IsTree, Target, Merging.MergeMembers, MergeStep;
    FirstKid(sp);
    var child := patch.child;
    ghost var j, pm := 0, MembersOf(sp.kids);
    t := s;
    assert pm[0..] == pm;
    MergeMembersStep(cs, MembersOf(t.kids), pm, j);
    while child != null
      invariant Target(result, t) && IsTree(sp) && NodesOf(t) !! NodesOf(sp)
      invariant j <= |sp.kids| && child == if j < |sp.kids| then sp.kids[j].node else null
      invariant forall n | n in NodesOf(t) :: n in NodesOf(s) || fresh(n)
      invariant Merging.MergeMembers(cs, MembersOf(s.kids), pm) == Merging.MergeMembers(cs, MembersOf(t.kids), pm[j..])
      decreases |sp.kids| - j
    {
      MergeMembersStep(cs, MembersOf(t.kids), pm, j);
      assert allocated(NodesOf(sp));
      t := MergeMember(result, child, cs, t, sp, j);
      PatchMember(sp, j);
      child := child.next;
      j := j + 1;
    }
    MergeMembersStep(cs, MembersOf(t.kids), pm, j);
  }

  /**
   merge_patch: the result is a whole tree whose value is the merge of the two values.  It is made of nodes of
   the target and of new ones; the patch and everything else is left alone.
   */
  method MergeInto(target: Node?, patch: Node, cs: bool, ghost st: Option<Shape>, ghost sp: Shape)
    returns (result: Node, ghost t: Shape)
    requires LooseOption(target, st) && IsTree(sp) && sp.node == patch && OptionNodes(st) !! NodesOf(sp)
    modifies OptionNodes(st)
    ensures t.node == result && Loose(t) && IsTree(sp)
    ensures ValueOf(t) == Merging.MergePatch(cs, Values(st), ValueOf(sp))
    ensures forall n | n in NodesOf(t) :: n in OptionNodes(st) || fresh(n)
    decreases sp, 2
  {
    hide NodesOf, Reach, CellsOf, MembersOf, IsTree, Loose, Target;
    FirstKid(sp);
    MergeCases(cs, st, sp);
    ghost var s: Shape;
    if patch.kind != KObject {
      result, t := DuplicateTree(patch, sp);
      return;
    }
    if st.Some? { OwnData(st.value); }
    assert allocated(Reach(CellsOf(sp))) && allocated(NodesOf(sp));
    if target == null || target.kind != KObject {
      result, s := NewItem(KObject, "");
      LooseTarget(result, s);
    } else {
      result, s := target, st.value;
      LooseTarget(result, s);
    }
    t := MergeAll(result, patch, cs, s, sp);
    TargetValue(result, t);
  }

  lemma OwnData(s: Shape)
    requires Loose(s)
    ensures HasData(s.node, s.data)
  {
    WholeParts(s);
  }

  lemma LooseTarget(result: Node, s: Shape)
    requires Loose(s) && s.node == result && s.data.kind.KObject?
    ensures Target(result, s)
  {
  }

  lemma TargetValue(result: Node, t: Shape)
    requires Target(result, t)
    ensures t.node == result && Loose(t) && ValueOf(t) == Object(MembersOf(t.kids))
  {
    hide HoldAll, Separate, CellsOf, Reach, MembersOf;
    assert t.data.kind.KObject?;
    assert Linked(t, true) && WellFormed(t);
    hide WellFormed;
  }

  /** What merging comes down to for trees of nodes. */
  lemma {:induction false} MergeCases(cs: bool, st: Option<Shape>, sp: Shape)
    requires IsTree(sp) && (st.Some? ==> Loose(st.value))
    ensures var r := Merging.MergePatch(cs, Values(st), ValueOf(sp));
      if !sp.data.kind.KObject? then r == ValueOf(sp)
      else r == Object(Merging.MergeMembers(
                         cs, if st.Some? && st.value.data.kind.KObject? then MembersOf(st.value.kids) else [],
                         MembersOf(sp.kids)))
  {
    hide Merging.MergeMembers, HoldAll, CellsOf, Reach, Separate, MembersOf, ItemsOf;
    assert WellFormed(sp) && (st.Some? ==> WellFormed(st.value));
    hide IsTree, Loose, WellFormed;
  }
}
