/** generate_merge_patch on trees of nodes: both are sorted in place on the way, and the patch is a new tree. */
module TreeMergeDiff {
  import opened CStrings
  import opened JsonTree
  import opened Sorting
  import opened Equality
  import P = Patches
  import M = MergePatches
  import opened MergeOrders
  import opened Nodes
  import opened Trees
  import opened Comparing
  import opened TreeEdits
  import opened ObjectEdits
  import opened TreeFocus
  import opened TreeSorting
  import opened TreeComparing
  import opened MergeTrees
  import opened TreeDiff

  // ---------- the patch under construction, and the two trees

  ghost predicate Making(patch: Node, from: Node, to: Node, sp: Shape, sf: Shape, st: Shape)
    reads Reach(CellsOf(sp)), sp.node, Reach(CellsOf(sf)), Reach(CellsOf(st))
  {
    && Loose(sp) && IsObject(sp) && sp.node == patch
    && TwoTrees(from, to, sf, st) && NodesOf(sp) !! NodesOf(sf) + NodesOf(st)
  }

  lemma {:induction false} MakingParts(patch: Node, from: Node, to: Node, sp: Shape, sf: Shape, st: Shape)
    requires Making(patch, from, to, sp, sf, st)
    ensures Loose(sp) && IsObject(sp) && sp.node == patch && TwoTrees(from, to, sf, st)
    ensures NodesOf(sp) !! NodesOf(sf) + NodesOf(st)
    ensures Reach(CellsOf(sp)) <= NodesOf(sp) && Reach(CellsOf(sf)) <= NodesOf(sf) && Reach(CellsOf(st)) <= NodesOf(st)
    ensures patch in NodesOf(sp) && Below(sf.kids) <= NodesOf(sf) && Below(st.kids) <= NodesOf(st)
    ensures IsTree(sf) && IsTree(st) && sf.node == from && st.node == to
  {
    WholeReach(sp);
    WholeReach(sf);
    WholeReach(st);
    NodesAre(sp);
    NodesAre(sf);
    NodesAre(st);
  }

  lemma {:induction false} MakingAgain(patch: Node, from: Node, to: Node, sp: Shape, sf: Shape, st: Shape)
    requires Loose(sp) && IsObject(sp) && sp.node == patch
    requires TwoTrees(from, to, sf, st) && NodesOf(sp) !! NodesOf(sf) + NodesOf(st)
    ensures Making(patch, from, to, sp, sf, st)
  {
  }

  /** One more member of the patch. */
  method AddOne(patch: Node, key: string, item: Node, ghost from: Node, ghost to: Node,
                ghost sp: Shape, ghost u: Shape, ghost sf: Shape, ghost st: Shape) returns (ghost tp: Shape)
    requires Making(patch, from, to, sp, sf, st) && Loose(u) && u.node == item
    requires NodesOf(u) !! NodesOf(sp) && NodesOf(u) !! NodesOf(sf) && NodesOf(u) !! NodesOf(st)
    modifies NodesOf(sp), NodesOf(u)
    ensures Making(patch, from, to, tp, sf, st) && NodesOf(tp) == NodesOf(sp) + NodesOf(u)
    ensures MembersOf(tp.kids) == MembersOf(sp.kids) + [Member(key, ValueOf(u))]
  {
    hide NodesOf, Below, CellsOf, Reach, ValueOf, MembersOf, TwoTrees, Making, Loose, IsObject, IsTree;
    MakingParts(patch, from, to, sp, sf, st);
    assert allocated(Reach(CellsOf(sf))) && allocated(Reach(CellsOf(st)));
    tp := AddMember(patch, key, item, sp, u);
    assert TwoTrees(from, to, sf, st);
    MakingAgain(patch, from, to, tp, sf, st);
  }

  // ---------- what is left of the walk

  ghost function MembersLeft(cs: bool, from: Json, sf: Shape, st: Shape, i: nat, j: nat): seq<Member<Json>>
    requires Walked(from, sf) && i <= |sf.kids| && j <= |st.kids|
  {
    M.DifferingMembers(cs, from, MembersOf(sf.kids)[i..], MembersOf(st.kids)[j..])
  }

  /** What two members with the same key come to. */
  ghost function CommonMembers(cs: bool, f: Json, key: string, t: Json): seq<Member<Json>> {
    if CompareSorted(cs, f, t) then []
    else
      match M.GenerateMergePatch(false, f, t)
      case None => []
      case Some(v) => [Member(key, v)]
  }

  lemma {:induction false} MembersLeftStep(cs: bool, from: Json, sf: Shape, st: Shape, i: nat, j: nat)
    requires Walked(from, sf) && i <= |sf.kids| && j <= |st.kids|
    ensures MembersLeft(cs, from, sf, st, i, j) ==
      if i == |sf.kids| && j == |st.kids| then []
      else
        var diff := if i == |sf.kids| then 1 else if j == |st.kids| then -1 else StrCmp(KeyOf(sf.kids[i]), KeyOf(st.kids[j]));
        if diff < 0 then [Member(KeyOf(sf.kids[i]), Null)] + MembersLeft(cs, from, sf, st, i + 1, j)
        else if diff > 0 then [Member(KeyOf(st.kids[j]), ValueOf(st.kids[j]))] + MembersLeft(cs, from, sf, st, i, j + 1)
        else CommonMembers(cs, ValueOf(sf.kids[i]), KeyOf(st.kids[j]), ValueOf(st.kids[j])) + MembersLeft(cs, from, sf, st, i + 1, j + 1)
  {
    hide StrCmp, MembersOf, ValueOf, KeyOf, CompareSorted, M.GenerateMergePatch;
    var (fs, ts) := (MembersOf(sf.kids)[i..], MembersOf(st.kids)[j..]);
    if i < |sf.kids| {
      assert fs[0] == MembersOf(sf.kids)[i] && fs[1..] == MembersOf(sf.kids)[i + 1..];
    }
    if j < |st.kids| {
      assert ts[0] == MembersOf(st.kids)[j] && ts[1..] == MembersOf(st.kids)[j + 1..];
    }
  }

  lemma {:induction false} MembersStep(all: seq<Member<Json>>, done: seq<Member<Json>>, here: seq<Member<Json>>, left: seq<Member<Json>>)
    requires all == done + (here + left)
    ensures all == (done + here) + left
  {
  }

  lemma {:induction false} KeysAt(from: Node, to: Node, sf: Shape, st: Shape, i: nat, j: nat)
    requires TwoTrees(from, to, sf, st) && sf.data.kind.KObject? && st.data.kind.KObject?
    ensures i < |sf.kids| ==> sf.kids[i].node.key == Some(KeyOf(sf.kids[i]))
    ensures i < |sf.kids| ==> sf.kids[i].node.next == if i + 1 < |sf.kids| then sf.kids[i + 1].node else null
    ensures j < |st.kids| ==> st.kids[j].node.key == Some(KeyOf(st.kids[j]))
    ensures j < |st.kids| ==> st.kids[j].node.next == if j + 1 < |st.kids| then st.kids[j + 1].node else null
  {
    TreesAre(from, to, sf, st);
    if i < |sf.kids| { KeyTest(sf, true, "", i); }
    if j < |st.kids| { KeyTest(st, true, "", j); }
  }

  // ---------- the members found so far

  ghost predicate BothClean(sf: Shape, st: Shape) {
    Clean(ValueOf(sf)) && Clean(ValueOf(st))
  }

  /** The members of the patch are the generated ones, up to the order inside their values. */
  ghost predicate Follows(sf: Shape, st: Shape, sp: Shape, done: seq<Member<Json>>) {
    BothClean(sf, st) ==> ParallelMembers(MembersOf(sp.kids), done)
  }

  lemma {:induction false} FollowsMore(sf: Shape, st: Shape, sp: Shape, tp: Shape, done: seq<Member<Json>>, m: Member<Json>, n: Member<Json>)
    requires Follows(sf, st, sp, done) && MembersOf(tp.kids) == MembersOf(sp.kids) + [m]
    requires m.key == n.key && (BothClean(sf, st) ==> Parallel(m.value, n.value))
    ensures Follows(sf, st, tp, done + [n])
  {
    hide Clean, ValueOf, MembersOf, Parallel;
    if BothClean(sf, st) { ParallelAppend(MembersOf(sp.kids), done, m, n); }
  }

  lemma {:induction false} CleanKid(s: Shape, i: nat)
    requires WellFormed(s) && i < |s.kids| && Clean(ValueOf(s))
    ensures Clean(ValueOf(s.kids[i]))
  {
    if s.data.kind.KObject? {
      ObjectValue(s);
      CleanMember(MembersOf(s.kids), MembersOf(s.kids)[i]);
    } else {
      assert ValueOf(s).items[i] == ValueOf(s.kids[i]);
    }
  }

  lemma {:induction false} CleanAlike(a: Json, b: Json)
    requires SameValue(a, b) && Clean(a)
    ensures Alike(a, b)
  {
  }

  // ---------- the values

  /** The patch for two trees of nodes is parallel to the generated one, if keys are unique under either reading. */
  ghost predicate GeneratedFor(cs: bool, sf: Shape, st: Shape, sp: Option<Shape>) {
    BothClean(sf, st) ==> ParallelOption(Values(sp), M.GenerateMergePatch(cs, ValueOf(sf), ValueOf(st)))
  }

  /** The patch for two children that have been sorted by the comparison serves them as they were. */
  lemma {:induction false} GeneratedBefore(cs: bool, sf: Shape, st: Shape, tf: Shape, tt: Shape, sp: Option<Shape>)
    requires Reordered(sf, tf) && Reordered(st, tt) && GeneratedFor(cs, tf, tt, sp)
    ensures GeneratedFor(cs, sf, st, sp)
  {
    hide Clean, SameValue, ValueOf, M.GenerateMergePatch, Parallel, Alike, Below, NodesOf, WellFormed;
    var (f, f', t, t') := (ValueOf(sf), ValueOf(tf), ValueOf(st), ValueOf(tt));
    if BothClean(sf, st) {
      CleanAlike(f, f');
      CleanAlike(t, t');
      AlikeIsClean(f, f');
      AlikeIsClean(t, t');
      AlikeGenerate(cs, f, f', t, t');
      var (g, g') := (M.GenerateMergePatch(cs, f, t), M.GenerateMergePatch(cs, f', t'));
      if g.Some? {
        ParallelBack(g.value, g'.value);
        ParallelThrough(Values(sp).value, g'.value, g.value);
      }
    }
  }

  lemma {:induction false} AlikeIsClean(a: Json, b: Json)
    requires Alike(a, b)
    ensures Clean(a) && Clean(b)
  {
  }

  // ---------- generate_merge_patch

  /** A key of `from` only: the patch holds a null for it. */
  method AddNull(patch: Node, key: string, ghost from: Node, ghost to: Node, ghost sp: Shape, ghost tf: Shape, ghost tt: Shape,
                 ghost sf: Shape, ghost st: Shape, ghost done: seq<Member<Json>>) returns (ghost tp: Shape)
    requires Making(patch, from, to, sp, tf, tt) && Follows(sf, st, sp, done)
    modifies NodesOf(sp)
    ensures Making(patch, from, to, tp, tf, tt) && Follows(sf, st, tp, done + [Member(key, Null)])
    ensures forall n | n in NodesOf(tp) :: n in NodesOf(sp) || fresh(n)
  {
    hide NodesOf, Below, CellsOf, Reach, MembersOf, TwoTrees, Making, Loose, IsObject, IsTree, Follows;
    MakingParts(patch, from, to, sp, tf, tt);
    assert allocated(Reach(CellsOf(sp))) && allocated(Reach(CellsOf(tf))) && allocated(Reach(CellsOf(tt)));
    assert allocated(NodesOf(sp)) && allocated(NodesOf(tf)) && allocated(NodesOf(tt));
    var item;
    ghost var u;
    item, u := NewItem(KNull, "");
    assert Loose(sp) && TwoTrees(from, to, tf, tt);
    MakingAgain(patch, from, to, sp, tf, tt);
    assert ValueOf(u) == Null;
    tp := AddOne(patch, key, item, from, to, sp, u, tf, tt);
    NullIsParallel();
    FollowsMore(sf, st, sp, tp, done, Member(key, Null), Member(key, Null));
  }

  /** A key of `to` only: the patch holds a duplicate of its value. */
  method AddNew(patch: Node, key: string, value: Node, ghost from: Node, ghost to: Node, ghost sp: Shape, ghost tf: Shape, ghost tt: Shape,
                ghost j: nat, ghost sf: Shape, ghost st: Shape, ghost done: seq<Member<Json>>) returns (ghost tp: Shape)
    requires Making(patch, from, to, sp, tf, tt) && Follows(sf, st, sp, done)
    requires j < |tt.kids| == |st.kids| && value == tt.kids[j].node && tt.kids[j] == st.kids[j] && WellFormed(st)
    modifies NodesOf(sp)
    ensures Making(patch, from, to, tp, tf, tt) && Follows(sf, st, tp, done + [Member(key, ValueOf(st.kids[j]))])
    ensures forall n | n in NodesOf(tp) :: n in NodesOf(sp) || fresh(n)
  {
    hide NodesOf, Below, CellsOf, Reach, MembersOf, TwoTrees, Making, Loose, IsObject, IsTree, Follows, ValueOf, WellFormed, Clean, Alike, Parallel;
    MakingParts(patch, from, to, sp, tf, tt);
    assert allocated(Reach(CellsOf(sp))) && allocated(Reach(CellsOf(tf))) && allocated(Reach(CellsOf(tt)));
    assert allocated(NodesOf(sp)) && allocated(NodesOf(tf)) && allocated(NodesOf(tt));
    KidIsTree(tt, j);
    var item;
    ghost var u;
    item, u := DuplicateTree(value, tt.kids[j]);
    assert Loose(sp) && TwoTrees(from, to, tf, tt);
    MakingAgain(patch, from, to, sp, tf, tt);
    tp := AddOne(patch, key, item, from, to, sp, u, tf, tt);
    if BothClean(sf, st) {
      CleanKid(st, j);
      AlikeItself(ValueOf(st.kids[j]));
      AlikeIsParallel(ValueOf(st.kids[j]), ValueOf(st.kids[j]));
    }
    FollowsMore(sf, st, sp, tp, done, Member(key, ValueOf(u)), Member(key, ValueOf(st.kids[j])));
  }

  /** One pair of children: their patch is a new tree, and both may be sorted. */
  method MergePair(x: Node, y: Node, ghost from: Node, ghost to: Node, ghost sf: Shape, ghost st: Shape, ghost i: nat, ghost j: nat)
    returns (r: Node?, ghost sr: Option<Shape>, ghost u: Shape, ghost v: Shape)
    requires TwoTrees(from, to, sf, st)
    requires i < |sf.kids| && j < |st.kids| && x == sf.kids[i].node && y == st.kids[j].node
    modifies (NodesOf(sf) + NodesOf(st))`child, (Below(sf.kids) + Below(st.kids))`next, (Below(sf.kids) + Below(st.kids))`prev
    ensures var tf, tt := sf.(kids := sf.kids[i := u]), st.(kids := st.kids[j := v]);
      TwoTrees(from, to, tf, tt) && Reordered(sf, tf) && Reordered(st, tt)
    ensures u.node == x && v.node == y && u.data == sf.kids[i].data && v.data == st.kids[j].data
    ensures x.next == old(x.next) && y.next == old(y.next)
    ensures LooseOption(r, sr) && fresh(OptionNodes(sr))
    ensures GeneratedFor(false, sf.kids[i], st.kids[j], sr)
    decreases NodesOf(sf), 0
  {
    hide NodesOf, Below, CellsOf, Reach, WellFormed, ValueOf, Linked, OutsideCells, Reordered, Rest, Loose, GeneratedFor;
    BeforeKid(sf, i);
    BeforeKid(st, j);
    LinkedIsSeparate(sf);
    LinkedIsSeparate(st);
    RootApartOf(sf.kids[i]);
    RootApartOf(st.kids[j]);
    SmallerKid(sf, i);
    assert allocated(Rest(sf, i)) && allocated(Rest(st, j));
    r, sr, u, v := GenerateMergeOn(x, y, false, sf.kids[i], st.kids[j]);
    forall c | c in Rest(sf, i) ensures Holds(c, false) {
      assert old(Holds(c, false));
    }
    forall c | c in Rest(st, j) ensures Holds(c, false) {
      assert old(Holds(c, false));
    }
    AfterKid(sf, i, u);
    AfterKid(st, j, v);
    SameNodes(sf.kids[i], u);
    SameNodes(st.kids[j], v);
    SameNodes(sf, sf.(kids := sf.kids[i := u]));
    SameNodes(st, st.(kids := st.kids[j := v]));
  }

  lemma {:induction false} SmallerKid(s: Shape, i: nat)
    requires Separate(s) && i < |s.kids|
    ensures NodesOf(s.kids[i]) < NodesOf(s)
  {
    KidIn(s.kids, i);
    NodesAre(s);
    assert s.node in NodesOf(s) && s.node !in Below(s.kids);
  }

  /** A key of both: the values are compared, and if they differ the patch holds their patch, if there is one. */
  method AddCommon(patch: Node, x: Node, y: Node, from: Node, to: Node, cs: bool, ghost sp: Shape, ghost tf: Shape, ghost tt: Shape,
                   ghost i: nat, ghost j: nat, ghost sf: Shape, ghost st: Shape, ghost done: seq<Member<Json>>)
    returns (x': Node?, y': Node?, ghost tp: Shape, ghost uf: Shape, ghost ut: Shape)
    requires Making(patch, from, to, sp, tf, tt) && Reordered(sf, tf) && Reordered(st, tt) && Follows(sf, st, sp, done)
    requires sf.data.kind.KObject? && st.data.kind.KObject? && WellFormed(sf) && WellFormed(st)
    requires i < |sf.kids| && j < |st.kids| && Passed(x, i, sf, tf) && Passed(y, j, st, tt)
    modifies NodesOf(sp)
    modifies (NodesOf(sf) + NodesOf(st))`child, (Below(sf.kids) + Below(st.kids))`next, (Below(sf.kids) + Below(st.kids))`prev
    ensures Making(patch, from, to, tp, uf, ut) && Reordered(sf, uf) && Reordered(st, ut)
    ensures Follows(sf, st, tp, done + CommonMembers(cs, ValueOf(sf.kids[i]), KeyOf(st.kids[j]), ValueOf(st.kids[j])))
    ensures Passed(x', i + 1, sf, uf) && Passed(y', j + 1, st, ut)
    ensures forall n | n in NodesOf(tp) :: n in NodesOf(sp) || fresh(n)
    decreases NodesOf(sf), 1
  {
    hide NodesOf, Below, CellsOf, Reach, MembersOf, TwoTrees, Making, Loose, IsObject, IsTree, Follows, ValueOf, WellFormed, Reordered, KeyOf;
    hide CommonMembers, GeneratedFor, CompareSorted;
    MakingParts(patch, from, to, sp, tf, tt);
    SameNodes(sf, tf);
    SameNodes(st, tt);
    KeysAt(from, to, tf, tt, i, j);
    assert allocated(Reach(CellsOf(sp))) && allocated(NodesOf(sp));
    var key := y.key.value;
    var same, r;
    ghost var u, v, u', v', sr;
    same, u, v := ComparePair(x, y, cs, tf, tt, i, j);
    uf, ut, tp := tf.(kids := tf.kids[i := u]), tt.(kids := tt.kids[j := v]), sp;
    ReorderedTransitive(sf, tf, uf);
    ReorderedTransitive(st, tt, ut);
    SameNodes(sf, uf);
    SameNodes(st, ut);
    assert Loose(sp);
    ghost var (f, k, t) := (ValueOf(sf.kids[i]), KeyOf(st.kids[j]), ValueOf(st.kids[j]));
    if same {
      NothingCommon(cs, f, k, t, done);
      MakingAgain(patch, from, to, tp, uf, ut);
    } else {
      assert allocated(Reach(CellsOf(sp))) && allocated(NodesOf(sp)) && allocated(NodesOf(sf)) && allocated(NodesOf(st));
      r, sr, u', v' := MergePair(x, y, from, to, uf, ut, i, j);
      ghost var wf, wt := uf.(kids := uf.kids[i := u']), ut.(kids := ut.kids[j := v']);
      ReorderedTransitive(sf, uf, wf);
      ReorderedTransitive(st, ut, wt);
      SameNodes(sf, wf);
      SameNodes(st, wt);
      assert Loose(sp);
      MakingAgain(patch, from, to, sp, wf, wt);
      GeneratedBefore(false, sf.kids[i], st.kids[j], u, v, sr);
      if r != null {
        OptionParts(r, sr);
        tp := AddOne(patch, key, r, from, to, sp, sr.value, wf, wt);
      }
      FollowsCommon(cs, sf, st, sp, tp, i, j, sr, done);
      uf, ut := wf, wt;
    }
    KeysAfter(patch, from, to, tp, uf, ut, i, j);
    x', y' := x.next, y.next;
  }

  lemma {:induction false} OptionParts(r: Node, sr: Option<Shape>)
    requires LooseOption(r, sr)
    ensures sr.Some? && Loose(sr.value) && sr.value.node == r && OptionNodes(sr) == NodesOf(sr.value)
  {
  }

  lemma {:induction false} NothingCommon(cs: bool, f: Json, key: string, t: Json, done: seq<Member<Json>>)
    requires CompareSorted(cs, f, t)
    ensures done + CommonMembers(cs, f, key, t) == done
  {
    hide CompareSorted, M.GenerateMergePatch;
  }

  lemma {:induction false} FollowsCommon(cs: bool, sf: Shape, st: Shape, sp: Shape, tp: Shape, i: nat, j: nat, sr: Option<Shape>, done: seq<Member<Json>>)
    requires Follows(sf, st, sp, done) && i < |sf.kids| && j < |st.kids| && WellFormed(sf) && WellFormed(st)
    requires !CompareSorted(cs, ValueOf(sf.kids[i]), ValueOf(st.kids[j])) && GeneratedFor(false, sf.kids[i], st.kids[j], sr)
    requires if sr.None? then tp == sp
             else MembersOf(tp.kids) == MembersOf(sp.kids) + [Member(KeyOf(st.kids[j]), ValueOf(sr.value))]
    ensures Follows(sf, st, tp, done + CommonMembers(cs, ValueOf(sf.kids[i]), KeyOf(st.kids[j]), ValueOf(st.kids[j])))
  {
    hide ValueOf, MembersOf, Clean, Parallel, WellFormed, CompareSorted, M.GenerateMergePatch, KeyOf;
    if BothClean(sf, st) {
      CleanKid(sf, i);
      CleanKid(st, j);
      var g := M.GenerateMergePatch(false, ValueOf(sf.kids[i]), ValueOf(st.kids[j]));
      if g.Some? {
        FollowsMore(sf, st, sp, tp, done, Member(KeyOf(st.kids[j]), ValueOf(sr.value)), Member(KeyOf(st.kids[j]), g.value));
      } else {
        assert done + [] == done;
      }
    }
  }

  /** The loop over the two sorted objects. */
  method DifferingOn(patch: Node, from: Node, to: Node, cs: bool, ghost sp: Shape, ghost sf: Shape, ghost st: Shape, ghost value: Json)
    returns (ghost tp: Shape, ghost tf: Shape, ghost tt: Shape)
    requires Making(patch, from, to, sp, sf, st) && MembersOf(sp.kids) == []
    requires sf.data.kind.KObject? && st.data.kind.KObject? && WellFormed(sf) && WellFormed(st) && Walked(value, sf)
    modifies NodesOf(sp)
    modifies (NodesOf(sf) + NodesOf(st))`child, (Below(sf.kids) + Below(st.kids))`next, (Below(sf.kids) + Below(st.kids))`prev
    ensures Making(patch, from, to, tp, tf, tt) && Reordered(sf, tf) && Reordered(st, tt)
    ensures Follows(sf, st, tp, MembersLeft(cs, value, sf, st, 0, 0))
    ensures forall n | n in NodesOf(tp) :: n in NodesOf(sp) || fresh(n)
    decreases NodesOf(sf), 2
  {
    hide NodesOf, Below, CellsOf, Reach, MembersOf, TwoTrees, Making, Loose, IsObject, IsTree, Follows, ValueOf, WellFormed, Reordered, KeyOf;
    hide CommonMembers, MembersLeft, Walked, StrCmp;
    tp, tf, tt := sp, sf, st;
    ghost var done: seq<Member<Json>>, i, j := [], 0, 0;
    ghost var all := MembersLeft(cs, value, sf, st, 0, 0);
    assert all == [] + all;
    FollowsStart(sf, st, sp);
    ReorderedItself(sf);
    ReorderedItself(st);
    MakingParts(patch, from, to, sp, sf, st);
    FirstKid(sf);
    FirstKid(st);
    var x, y := from.child, to.child;
    while x != null || y != null
      invariant Making(patch, from, to, tp, tf, tt) && Reordered(sf, tf) && Reordered(st, tt)
      invariant Passed(x, i, sf, tf) && Passed(y, j, st, tt) && Follows(sf, st, tp, done)
      invariant all == done + MembersLeft(cs, value, sf, st, i, j)
      invariant forall n | n in NodesOf(tp) :: n in NodesOf(sp) || fresh(n)
      decreases |sf.kids| - i + (|st.kids| - j)
    {
      MakingParts(patch, from, to, tp, tf, tt);
      SameNodes(sf, tf);
      SameNodes(st, tt);
      KeysAt(from, to, tf, tt, i, j);
      MembersLeftStep(cs, value, sf, st, i, j);
      var diff;
      if x == null {
        diff := 1;
      } else if y == null {
        diff := -1;
      } else {
        diff := StrCmp(x.key.value, y.key.value);
      }
      if diff < 0 {
        ghost var here := [Member(KeyOf(sf.kids[i]), Null)];
        MembersStep(all, done, here, MembersLeft(cs, value, sf, st, i + 1, j));
        tp := AddNull(patch, x.key.value, from, to, tp, tf, tt, sf, st, done);
        done := done + here;
        KeysAfter(patch, from, to, tp, tf, tt, i, j);
        x, i := x.next, i + 1;
      } else if diff > 0 {
        ghost var here := [Member(KeyOf(st.kids[j]), ValueOf(st.kids[j]))];
        MembersStep(all, done, here, MembersLeft(cs, value, sf, st, i, j + 1));
        tp := AddNew(patch, y.key.value, y, from, to, tp, tf, tt, j, sf, st, done);
        done := done + here;
        KeysAfter(patch, from, to, tp, tf, tt, i, j);
        y, j := y.next, j + 1;
      } else {
        ghost var here := CommonMembers(cs, ValueOf(sf.kids[i]), KeyOf(st.kids[j]), ValueOf(st.kids[j]));
        MembersStep(all, done, here, MembersLeft(cs, value, sf, st, i + 1, j + 1));
        x, y, tp, tf, tt := AddCommon(patch, x, y, from, to, cs, tp, tf, tt, i, j, sf, st, done);
        done := done + here;
        i, j := i + 1, j + 1;
      }
    }
    MembersLeftStep(cs, value, sf, st, i, j);
    assert done + [] == done;
  }

  lemma {:induction false} KeysAfter(patch: Node, from: Node, to: Node, sp: Shape, sf: Shape, st: Shape, i: nat, j: nat)
    requires Making(patch, from, to, sp, sf, st) && sf.data.kind.KObject? && st.data.kind.KObject?
    ensures i < |sf.kids| ==> sf.kids[i].node.next == if i + 1 < |sf.kids| then sf.kids[i + 1].node else null
    ensures j < |st.kids| ==> st.kids[j].node.next == if j + 1 < |st.kids| then st.kids[j + 1].node else null
  {
    KeysAt(from, to, sf, st, i, j);
  }

  lemma {:induction false} FollowsStart(sf: Shape, st: Shape, sp: Shape)
    requires MembersOf(sp.kids) == []
    ensures Follows(sf, st, sp, [])
  {
  }

  /**
   generate_merge_patch: a new tree, or NULL, that stands for the patch of GenerateMergePatch up to the order of
   members inside the values it takes over whole.
   */
  method GenerateMergeOn(from: Node, to: Node, cs: bool, ghost sf: Shape, ghost st: Shape)
    returns (patch: Node?, ghost sp: Option<Shape>, ghost tf: Shape, ghost tt: Shape)
    requires TwoTrees(from, to, sf, st)
    modifies (NodesOf(sf) + NodesOf(st))`child, (Below(sf.kids) + Below(st.kids))`next, (Below(sf.kids) + Below(st.kids))`prev
    ensures TwoTrees(from, to, tf, tt) && Reordered(sf, tf) && Reordered(st, tt)
    ensures LooseOption(patch, sp) && fresh(OptionNodes(sp))
    ensures GeneratedFor(cs, sf, st, sp)
    decreases NodesOf(sf), 3
  {
    hide NodesOf, Below, CellsOf, Reach, MembersOf, TwoTrees, Making, Loose, IsObject, IsTree, Follows, ValueOf, WellFormed, Reordered;
    hide GeneratedFor, Walked, SortedKids, MembersLeft, BothClean;
    tf, tt := sf, st;
    TreesAre(from, to, sf, st);
    ReorderedItself(sf);
    ReorderedItself(st);
    ghost var u;
    if to.kind != KObject || from.kind != KObject {
      assert allocated(Reach(CellsOf(sf))) && allocated(Reach(CellsOf(st)));
      patch, u := DuplicateTree(to, st);
      sp := Some(u);
      WholeValue(cs, sf, st, u);
      return;
    }
    ghost var uf := SortFirst(from, to, cs, sf, st);
    SameNodes(sf, uf);
    ghost var ut := SortFirst(to, from, cs, st, uf);
    SameNodes(st, ut);
    assert allocated(Reach(CellsOf(uf))) && allocated(Reach(CellsOf(ut))) && allocated(NodesOf(uf)) && allocated(NodesOf(ut));
    var made;
    made, u := NewItem(KObject, "");
    assert TwoTrees(from, to, uf, ut);
    NewPatchObject(u);
    MakingAgain(made, from, to, u, uf, ut);
    WalkedSorted(cs, sf);
    ghost var tp;
    tp, tf, tt := DifferingOn(made, from, to, cs, u, uf, ut, ValueOf(sf));
    ReorderedTransitive(sf, uf, tf);
    ReorderedTransitive(st, ut, tt);
    MakingParts(made, from, to, tp, tf, tt);
    ChildOf(tp);
    ObjectPatch(cs, sf, st, uf, ut, tp);
    if made.child == null {
      return null, None, tf, tt;
    }
    patch, sp := made, Some(tp);
  }

  lemma {:induction false} NewPatchObject(u: Shape)
    requires Loose(u) && u.data.kind.KObject?
    ensures IsObject(u)
  {
  }

  lemma {:induction false} ChildOf(s: Shape)
    requires Loose(s)
    ensures s.node.child == null <==> s.kids == []
  {
    WholeParts(s);
  }

  lemma {:induction false} WholeValue(cs: bool, sf: Shape, st: Shape, u: Shape)
    requires !(sf.data.kind.KObject? && st.data.kind.KObject?) && WellFormed(sf) && WellFormed(st) && ValueOf(u) == ValueOf(st)
    ensures GeneratedFor(cs, sf, st, Some(u))
  {
    assert !(ValueOf(sf).Object? && ValueOf(st).Object?);
    hide ValueOf, Clean, Alike, Parallel;
    if BothClean(sf, st) {
      AlikeItself(ValueOf(st));
      AlikeIsParallel(ValueOf(st), ValueOf(st));
    }
  }

  lemma {:induction false} SortedLeft(cs: bool, sf: Shape, st: Shape, uf: Shape, ut: Shape)
    requires sf.data.kind.KObject? && st.data.kind.KObject? && Walked(ValueOf(sf), uf)
    requires uf == sf.(kids := SortedKids(cs, sf.kids)) && ut == st.(kids := SortedKids(cs, st.kids))
    ensures var ms := MembersLeft(cs, ValueOf(sf), uf, ut, 0, 0);
      M.GenerateMergePatch(cs, ValueOf(sf), ValueOf(st)) == if ms == [] then None else Some(Object(ms))
  {
    ObjectValue(sf);
    ObjectValue(st);
    SortedValues(cs, sf.kids);
    SortedValues(cs, st.kids);
    var (ms, ns) := (MembersOf(sf.kids), MembersOf(st.kids));
    hide ValueOf, SortedKids, MergeSort, MembersOf, Walked, M.DifferingMembers, M.GenerateMergePatch;
    assert MembersOf(uf.kids)[0..] == P.SortedMembers(cs, ms) && MembersOf(ut.kids)[0..] == P.SortedMembers(cs, ns);
    M.GenerateOfObjects(cs, ms, ns);
  }

  /** The finished object is the patch, or empty when there is none. */
  lemma {:induction false} ObjectPatch(cs: bool, sf: Shape, st: Shape, uf: Shape, ut: Shape, tp: Shape)
    requires sf.data.kind.KObject? && st.data.kind.KObject? && Walked(ValueOf(sf), uf) && IsObject(tp)
    requires uf == sf.(kids := SortedKids(cs, sf.kids)) && ut == st.(kids := SortedKids(cs, st.kids))
    requires Reordered(sf, uf) && Reordered(st, ut) && Follows(uf, ut, tp, MembersLeft(cs, ValueOf(sf), uf, ut, 0, 0))
    ensures GeneratedFor(cs, sf, st, if tp.kids == [] then None else Some(tp))
  {
    ObjectIs(tp);
    assert |MembersOf(tp.kids)| == |tp.kids|;
    hide ValueOf, SortedKids, MembersOf, Clean, Parallel, Walked, MembersLeft, M.GenerateMergePatch, WellFormed, Reordered, SameValue;
    SortedLeft(cs, sf, st, uf, ut);
    if BothClean(sf, st) {
      ReorderedClean(sf, uf);
      ReorderedClean(st, ut);
      ParallelObjects(MembersOf(tp.kids), MembersLeft(cs, ValueOf(sf), uf, ut, 0, 0));
    }
  }

  lemma {:induction false} ReorderedClean(s: Shape, t: Shape)
    requires Reordered(s, t) && Clean(ValueOf(s))
    ensures Clean(ValueOf(t))
  {
  }

  // ---------- generating and merging

  /**
   A merge patch is generated, which may sort both trees, and merged into a duplicate of `from` as it is then: the
   result equals `to` exactly when no null stands in the way, and NULL is generated only for equal trees.
   */
  method GenerateThenMerge(from: Node, to: Node, cs: bool, ghost sf: Shape, ghost st: Shape)
    returns (patch: Node?, doc: Node, ghost td: Shape)
    requires TwoTrees(from, to, sf, st) && BothClean(sf, st) && M.Generable(cs, cs, ValueOf(sf), ValueOf(st))
    modifies (NodesOf(sf) + NodesOf(st))`child, (Below(sf.kids) + Below(st.kids))`next, (Below(sf.kids) + Below(st.kids))`prev
    ensures td.node == doc && Loose(td)
    ensures patch == null ==> Same(cs, ValueOf(sf), ValueOf(st))
    ensures patch != null ==> (Same(cs, ValueOf(td), ValueOf(st)) <==> M.NullSafe(cs, Some(ValueOf(sf)), ValueOf(st)))
  {
    hide NodesOf, Below, CellsOf, Reach, TwoTrees, Loose, IsTree, ValueOf, WellFormed, Reordered, GeneratedFor, BothClean;
    hide Same, M.Generable, M.NullSafe, M.MergePatch;
    ghost var sp, tf, tt, sd;
    patch, sp, tf, tt := GenerateMergeOn(from, to, cs, sf, st);
    TreesAre(from, to, tf, tt);
    if patch == null {
      doc, sd := DuplicateTree(from, tf);
      Merges(cs, sf, st, tf, sd, sp);
      td := sd;
      return;
    }
    OptionParts(patch, sp);
    ghost var s := sp.value;
    assert allocated(Reach(CellsOf(s))) && allocated(NodesOf(s));
    doc, sd := DuplicateTree(from, tf);
    assert Loose(s);
    LooseIsTree(s);
    Merges(cs, sf, st, tf, sd, sp);
    doc, td := MergeInto(doc, patch, cs, Some(sd), s);
  }

  lemma {:induction false} LooseIsTree(s: Shape)
    requires Loose(s)
    ensures IsTree(s)
  {
    assert Linked(s, true);
  }

  lemma {:induction false} Merges(cs: bool, sf: Shape, st: Shape, tf: Shape, sd: Shape, sp: Option<Shape>)
    requires BothClean(sf, st) && M.Generable(cs, cs, ValueOf(sf), ValueOf(st))
    requires Reordered(sf, tf) && ValueOf(sd) == ValueOf(tf) && GeneratedFor(cs, sf, st, sp)
    ensures M.MergesTo(cs, ValueOf(sd), ValueOf(sf), ValueOf(st), Values(sp))
  {
    hide ValueOf, Same, Unique, M.Generable, Parallel, M.GenerateMergePatch, Below, NodesOf, WellFormed;
    if cs { SameSymmetric(true, ValueOf(sf), ValueOf(tf)); } else { SameSymmetric(false, ValueOf(sf), ValueOf(tf)); }
    ParallelMerges(cs, ValueOf(sd), ValueOf(sf), ValueOf(st), Values(sp));
  }
}
