/** cJSON_Compare and get_object_item on trees of nodes. */
module Comparing {
  import opened CStrings
  import opened JsonTree
  import opened Equality
  import Members
  import opened Nodes
  import opened Trees

  /** A tree of nodes that stands for a JSON value; its lists may have lost their tails. */
  ghost predicate IsTree(s: Shape)
    reads Reach(CellsOf(s))
  {
    HoldAll(CellsOf(s), false) && WellFormed(s)
  }

  /** What the search of get_object_item finds at child i. */
  lemma KeyTest(s: Shape, cs: bool, name: string, i: nat)
    requires IsTree(s) && s.data.kind.KObject? && i < |s.kids|
    ensures var n, key := s.kids[i].node, MembersOf(s.kids)[i].key;
      && n.key == Some(key) && (CompareStrings(cs, name, key) == 0 <==> KeyEq(cs, key, name))
      && n.next == if i + 1 < |s.kids| then s.kids[i + 1].node else null
  {
    KidFacts(s, false, i);
    StrCmpZero(Fold(cs, name), Fold(cs, MembersOf(s.kids)[i].key));
  }

  lemma FirstKid(s: Shape)
    requires IsTree(s)
    ensures HasData(s.node, s.data) && !s.data.kind.KInvalid?
    ensures s.node.child == if s.kids == [] then null else s.kids[0].node
  {
    OwnCell(s, false);
  }

  /** get_object_item: the first child whose key equals the name, or null. */
  method GetObjectItem(parent: Node, name: string, cs: bool, ghost s: Shape) returns (item: Node?, ghost i: nat)
    requires s.node == parent && IsTree(s) && s.data.kind.KObject?
    ensures IsTree(s)
    ensures i == IndexOf(cs, MembersOf(s.kids), name)
    ensures item == if i < |s.kids| then s.kids[i].node else null
  {
    hide IsTree, CompareStrings, KeyEq, MembersOf;
    FirstKid(s);
    item, i := parent.child, 0;
    if item != null { KeyTest(s, cs, name, i); }
    while item != null && item.key.Some? && CompareStrings(cs, name, item.key.value) != 0
      invariant IsTree(s)
      invariant i <= |s.kids| && item == if i < |s.kids| then s.kids[i].node else null
      invariant item != null ==>
        item.key.Some? && (CompareStrings(cs, name, item.key.value) == 0 <==> KeyEq(cs, MembersOf(s.kids)[i].key, name))
      invariant forall k | 0 <= k < i :: !KeyEq(cs, MembersOf(s.kids)[k].key, name)
      decreases |s.kids| - i
    {
      KeyTest(s, cs, name, i);
      item := item.next;
      i := i + 1;
      if item != null { KeyTest(s, cs, name, i); }
    }
    Members.IndexOfIs(cs, MembersOf(s.kids), name, i);
  }

  lemma KidIsTree(s: Shape, i: nat)
    requires IsTree(s) && i < |s.kids|
    ensures IsTree(s.kids[i])
  {
    KidHolds(s, false, i);
  }

  /** What equality comes down to for each kind of item. */
  lemma {:induction false} CompareScalars(cs: bool, sa: Shape, sb: Shape)
    requires IsTree(sa) && IsTree(sb)
    ensures var (x, y, p, q) := (ValueOf(sa), ValueOf(sb), sa.data, sb.data);
      && (p.kind != q.kind ==> !Compare(cs, x, y))
      && (p.kind == q.kind ==>
            match p.kind
            case KNumber => Compare(cs, x, y) <==> p.number == q.number
            case KString => Compare(cs, x, y) <==> p.text == q.text
            case KArray => true
            case KObject => true
            case _ => Compare(cs, x, y))
  {
    hide MembersOf, ItemsOf, Nesting, IndexOf;
  }

  ghost predicate PairsEqual(cs: bool, sa: Shape, sb: Shape, n: nat)
    requires n <= |sa.kids| && n <= |sb.kids|
  {
    forall i | 0 <= i < n :: Compare(cs, ValueOf(sa.kids[i]), ValueOf(sb.kids[i]))
  }

  lemma {:induction false} CompareArrays(cs: bool, sa: Shape, sb: Shape)
    requires sa.data.kind.KArray? && sb.data.kind.KArray?
    ensures Compare(cs, ValueOf(sa), ValueOf(sb)) <==> |sa.kids| == |sb.kids| && PairsEqual(cs, sa, sb, |sa.kids|)
  {
    var x, y := ValueOf(sa), ValueOf(sb);
    assert x.items == ItemsOf(sa.kids) && y.items == ItemsOf(sb.kids);
    hide ValueOf;
    assert Compare(cs, x, y) <==> |x.items| == |y.items| && forall i | 0 <= i < |x.items| :: Compare(cs, x.items[i], y.items[i]);
    hide Compare;
  }

  ghost predicate MemberFound(cs: bool, m: Member<Json>, ns: seq<Member<Json>>) {
    var k := IndexOf(cs, ns, m.key);
    k < |ns| && Compare(cs, m.value, ns[k].value)
  }

  /** The first n members of one object have equals in the other one. */
  ghost predicate Found(cs: bool, ms: seq<Member<Json>>, ns: seq<Member<Json>>, n: nat)
    requires n <= |ms|
  {
    forall i | 0 <= i < n :: MemberFound(cs, ms[i], ns)
  }

  lemma {:induction false} CompareOfObjects(cs: bool, x: Json, y: Json)
    requires x.Object? && y.Object?
    ensures Compare(cs, x, y) <==> Found(cs, x.members, y.members, |x.members|) && Found(cs, y.members, x.members, |y.members|)
  {
    hide IndexOf, Nesting;
  }

  /** cJSON_Compare: the same item, or equal values. */
  method CompareItems(a: Node, b: Node, cs: bool, ghost sa: Shape, ghost sb: Shape) returns (equal: bool)
    requires sa.node == a && sb.node == b && IsTree(sa) && IsTree(sb)
    requires a == b || NodesOf(sa) !! NodesOf(sb)
    ensures IsTree(sa) && IsTree(sb)
    ensures equal <==> a == b || Compare(cs, ValueOf(sa), ValueOf(sb))
    decreases Nesting(ValueOf(sa)) + Nesting(ValueOf(sb)), 1
  {
    hide IsTree, Compare, NodesOf, ValueOf, WellFormed, PairsEqual, Found;
    FirstKid(sa);
    FirstKid(sb);
    CompareScalars(cs, sa, sb);
    if a.kind != b.kind || a.kind.KInvalid? {
      return false;
    }
    if a == b {
      return true;
    }
    match a.kind
    case KNumber => return a.number == b.number;
    case KString => return a.valuestring == b.valuestring;
    case KArray =>
      CompareArrays(cs, sa, sb);
      equal := CompareElements(a, b, cs, sa, sb);
    case KObject =>
      ObjectValue(sa);
      ObjectValue(sb);
      CompareOfObjects(cs, ValueOf(sa), ValueOf(sb));
      var found := AllFound(a, b, cs, sa, sb);
      if !found {
        return false;
      }
      equal := AllFound(b, a, cs, sb, sa);
    case _ => return true;
  }

  /** The loop over two arrays. */
  method CompareElements(a: Node, b: Node, cs: bool, ghost sa: Shape, ghost sb: Shape) returns (equal: bool)
    requires sa.node == a && sb.node == b && IsTree(sa) && IsTree(sb) && NodesOf(sa) !! NodesOf(sb)
    requires sa.data.kind.KArray? && sb.data.kind.KArray?
    ensures IsTree(sa) && IsTree(sb)
    ensures equal <==> |sa.kids| == |sb.kids| && PairsEqual(cs, sa, sb, |sa.kids|)
    decreases Nesting(ValueOf(sa)) + Nesting(ValueOf(sb)), 0
  {
    hide IsTree, Compare, NodesOf, ValueOf, Nesting;
    var x, y := a.child, b.child;
    ghost var i := 0;
    FirstKid(sa);
    FirstKid(sb);
    while x != null && y != null
      invariant IsTree(sa) && IsTree(sb)
      invariant i <= |sa.kids| && i <= |sb.kids| && PairsEqual(cs, sa, sb, i)
      invariant x == (if i < |sa.kids| then sa.kids[i].node else null)
      invariant y == (if i < |sb.kids| then sb.kids[i].node else null)
      decreases |sa.kids| - i
    {
      Kids(sa, sb, i, i);
      assert allocated(Reach(CellsOf(sa))) && allocated(Reach(CellsOf(sb)));
      var same := CompareItems(x, y, cs, sa.kids[i], sb.kids[i]);
      if !same {
        return false;
      }
      NextKid(sa, i);
      NextKid(sb, i);
      x, y := x.next, y.next;
      i := i + 1;
    }
    equal := x == y;
    if x != null && y == null { KidIsTree(sa, i); }
  }

  /** One of the two loops over the members of an object. */
  method AllFound(a: Node, b: Node, cs: bool, ghost sa: Shape, ghost sb: Shape) returns (found: bool)
    requires sa.node == a && sb.node == b && IsTree(sa) && IsTree(sb) && NodesOf(sa) !! NodesOf(sb)
    requires sa.data.kind.KObject? && sb.data.kind.KObject?
    ensures IsTree(sa) && IsTree(sb)
    ensures found <==> Found(cs, MembersOf(sa.kids), MembersOf(sb.kids), |sa.kids|)
    decreases Nesting(ValueOf(sa)) + Nesting(ValueOf(sb)), 0
  {
    hide IsTree, Compare, NodesOf, ValueOf, Nesting, IndexOf, KeyEq, CompareStrings, MemberFound, MembersOf, Found;
    var x := a.child;
    ghost var i := 0;
    FirstKid(sa);
    NoneFound(cs, MembersOf(sa.kids), MembersOf(sb.kids));
    while x != null
      invariant IsTree(sa) && IsTree(sb)
      invariant i <= |sa.kids| && Found(cs, MembersOf(sa.kids), MembersOf(sb.kids), i)
      invariant x == if i < |sa.kids| then sa.kids[i].node else null
      decreases |sa.kids| - i
    {
      var y, same;
      ghost var k;
      KeyTest(sa, cs, "", i);
      assert allocated(Reach(CellsOf(sa))) && allocated(Reach(CellsOf(sb)));
      y, k := GetObjectItem(b, x.key.value, cs, sb);
      FoundAt(cs, sa, sb, i, k);
      if y == null {
        return false;
      }
      Kids(sa, sb, i, k);
      assert allocated(Reach(CellsOf(sa))) && allocated(Reach(CellsOf(sb)));
      same := CompareItems(x, y, cs, sa.kids[i], sb.kids[k]);
      if !same {
        return false;
      }
      NextKid(sa, i);
      x := x.next;
      i := i + 1;
    }
    found := true;
  }

  lemma {:induction false} NoneFound(cs: bool, ms: seq<Member<Json>>, ns: seq<Member<Json>>)
    ensures Found(cs, ms, ns, 0)
  {
  }

  lemma {:induction false} FoundAt(cs: bool, sa: Shape, sb: Shape, i: nat, k: nat)
    requires i < |sa.kids| && k == IndexOf(cs, MembersOf(sb.kids), MembersOf(sa.kids)[i].key)
    ensures var (ms, ns) := (MembersOf(sa.kids), MembersOf(sb.kids));
            var here := k < |sb.kids| && Compare(cs, ValueOf(sa.kids[i]), ValueOf(sb.kids[k]));
            (here && Found(cs, ms, ns, i) ==> Found(cs, ms, ns, i + 1)) && (!here ==> !Found(cs, ms, ns, |sa.kids|))
  {
    hide IndexOf, Compare;
  }

  lemma NextKid(s: Shape, i: nat)
    requires IsTree(s) && i < |s.kids|
    ensures s.kids[i].node.next == if i + 1 < |s.kids| then s.kids[i + 1].node else null
  {
    KidFacts(s, false, i);
  }

  lemma {:induction false} Kids(sa: Shape, sb: Shape, i: nat, k: nat)
    requires IsTree(sa) && IsTree(sb) && i < |sa.kids| && k < |sb.kids| && NodesOf(sa) !! NodesOf(sb)
    requires sa.data.kind == sb.data.kind && (sa.data.kind.KArray? || sa.data.kind.KObject?)
    ensures IsTree(sa.kids[i]) && IsTree(sb.kids[k]) && NodesOf(sa.kids[i]) !! NodesOf(sb.kids[k])
    ensures sa.kids[i].node != sb.kids[k].node
    ensures Nesting(ValueOf(sa.kids[i])) < Nesting(ValueOf(sa)) && Nesting(ValueOf(sb.kids[k])) < Nesting(ValueOf(sb))
  {
    KidIsTree(sa, i);
    KidIsTree(sb, k);
    KidIn(sa.kids, i);
    KidIn(sb.kids, k);
    KidNesting(sa, i);
    KidNesting(sb, k);
    assert sa.kids[i].node in NodesOf(sa) && sb.kids[k].node in NodesOf(sb);
  }

  lemma KidNesting(s: Shape, i: nat)
    requires i < |s.kids| && (s.data.kind.KArray? || s.data.kind.KObject?)
    ensures Nesting(ValueOf(s.kids[i])) < Nesting(ValueOf(s))
  {
    var v := ValueOf(s);
    if s.data.kind.KArray? {
      assert v.items[i] == ValueOf(s.kids[i]);
    } else {
      assert v.members[i].value == ValueOf(s.kids[i]);
    }
  }
}
