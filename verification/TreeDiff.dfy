/** create_patches on trees of nodes: both trees are sorted in place, and patches are appended to a list. */
module TreeDiff {
  import opened CStrings
  import opened JsonTree
  import opened Numbers
  import opened Sorting
  import opened Equality
  import opened Pointers
  import opened PointerLoops
  import L = Locations
  import P = Patches
  import PrintBuffers
  import opened Nodes
  import opened Trees
  import opened Comparing
  import opened TreeEdits
  import opened ObjectEdits
  import opened TreeFocus
  import opened TreeSorting
  import opened TreeComparing

  /** The buffer for the path, "/", the escaped name and a NUL is exactly long enough. */
  method ChildPathOf(path: string, name: string) returns (full: string)
    ensures full == P.ChildPath(path, name)
  {
    hide Encode;
    var size := PointerEncodedLength(name);
    var b := new char[|path| + size + 2];
    PrintBuffers.CopyText(b, 0, path);
    b[|path|] := '/';
    EncodeStringAsPointer(b, |path| + 1, name);
    full := b[..|path| + 1 + size];
    ghost var text := path + "/" + Encode(name);
    forall i | 0 <= i < |text| ensures full[i] == text[i] {
      if i < |path| { assert b[0 + i] == path[i]; }
      if i > |path| { assert b[|path| + 1 + (i - |path| - 1)] == Encode(name)[i - |path| - 1]; }
    }
  }

  /** The list of patches under construction. */
  ghost predicate PatchList(patches: Node, sq: Shape)
    reads Reach(CellsOf(sq))
  {
    Linked(sq, true) && WellFormed(sq) && sq.data.kind.KArray? && sq.node == patches
  }

  lemma {:induction false} ItemsAppend(kids: seq<Shape>, u: Shape)
    ensures ItemsOf(kids + [u]) == ItemsOf(kids) + [ValueOf(u)]
  {
    hide ValueOf;
    forall i | 0 <= i < |kids| + 1 ensures ItemsOf(kids + [u])[i] == (ItemsOf(kids) + [ValueOf(u)])[i] {
    }
  }

  /** A string in an object. */
  method AddString(parent: Node, key: string, text: string, ghost s: Shape) returns (ghost t: Shape)
    requires Loose(s) && IsObject(s) && s.node == parent
    modifies NodesOf(s)
    ensures Loose(t) && IsObject(t) && t.node == parent
    ensures forall n | n in NodesOf(t) :: n in NodesOf(s) || fresh(n)
    ensures MembersOf(t.kids) == MembersOf(s.kids) + [Member(key, String(text))]
  {
    hide NodesOf, Reach, CellsOf, Linked, WellFormed, MembersOf;
    assert allocated(Reach(CellsOf(s))) && allocated(NodesOf(s));
    var item;
    ghost var u;
    item, u := NewItem(KString, text);
    assert Loose(s);
    assert ValueOf(u) == String(text);
    t := AddMember(parent, key, item, s, u);
  }

  /** The object of one patch, not yet in the list. */
  method NewPatch(op: P.Change, path: string, value: Node?, ghost sv: Option<Shape>) returns (patch: Node, ghost u: Shape)
    requires value == null <==> sv.None?
    requires sv.Some? ==> IsTree(sv.value) && sv.value.node == value
    ensures sv.Some? ==> IsTree(sv.value)
    ensures Loose(u) && u.node == patch && fresh(NodesOf(u))
    ensures ValueOf(u) == P.PatchDocument(P.Edit(op, path, if sv.None? then None else Some(ValueOf(sv.value))))
  {
    hide NodesOf, Reach, CellsOf, Linked, WellFormed, ValueOf, IsTree, MembersOf;
    ghost var reach := if sv.Some? then Reach(CellsOf(sv.value)) else {};
    assert allocated(reach);
    patch, u := NewItem(KObject, "");
    NewObject(u);
    u := AddString(patch, "op", P.ChangeName(op), u);
    u := AddString(patch, "path", path, u);
    if value != null {
      assert IsTree(sv.value);
      var item;
      ghost var v;
      assert allocated(Reach(CellsOf(u))) && allocated(NodesOf(u));
      item, v := DuplicateTree(value, sv.value);
      assert Loose(u);
      u := AddMember(patch, "value", item, u, v);
      assert IsTree(sv.value);
    }
    ObjectIs(u);
  }

  lemma {:induction false} NewObject(u: Shape)
    requires WellFormed(u) && u.data.kind.KObject?
    ensures IsObject(u)
  {
  }

  ghost function DocumentOf(op: P.Change, path: string, suffix: Option<string>, sv: Option<Shape>): Json {
    P.PatchDocument(P.Edit(op, if suffix.None? then path else P.ChildPath(path, suffix.value),
                           if sv.None? then None else Some(ValueOf(sv.value))))
  }

  /** compose_patch: one more object at the end of the list. */
  method ComposePatch(patches: Node, op: P.Change, path: string, suffix: Option<string>, value: Node?,
                      ghost sq: Shape, ghost sv: Option<Shape>) returns (ghost tq: Shape)
    requires PatchList(patches, sq)
    requires value == null <==> sv.None?
    requires sv.Some? ==> IsTree(sv.value) && sv.value.node == value && NodesOf(sv.value) !! NodesOf(sq)
    modifies patches`child, Below(sq.kids)`next, Below(sq.kids)`prev
    ensures PatchList(patches, tq) && ItemsOf(tq.kids) == ItemsOf(sq.kids) + [DocumentOf(op, path, suffix, sv)]
    ensures forall n | n in NodesOf(tq) :: n in NodesOf(sq) || fresh(n)
  {
    hide NodesOf, Reach, CellsOf, WellFormed, ValueOf, IsTree, Linked, ItemsOf, PatchList, P.ChildPath;
    var patch, full;
    ghost var u;
    ListParts(patches, sq);
    assert allocated(Reach(CellsOf(sq))) && allocated(NodesOf(sq));
    full := path;
    if suffix.Some? {
      ghost var reach := if sv.Some? then Reach(CellsOf(sv.value)) else {};
      assert allocated(reach);
      full := ChildPathOf(path, suffix.value);
      if sv.Some? { assert IsTree(sv.value); }
      assert Linked(sq, true);
    }
    assert allocated(Reach(CellsOf(sq))) && allocated(NodesOf(sq));
    patch, u := NewPatch(op, full, value, sv);
    assert Linked(sq, true);
    PatchParts(u);
    NodesAre(u);
    tq := AppendKid(patches, patch, sq, u);
    ItemsAppend(sq.kids, u);
    ListWhole(patches, sq, u);
  }

  lemma {:induction false} ListParts(patches: Node, sq: Shape)
    requires PatchList(patches, sq)
    ensures Linked(sq, true) && sq.node == patches && WellFormed(sq) && sq.data.kind.KArray?
  {
  }

  lemma {:induction false} PatchParts(u: Shape)
    requires Loose(u)
    ensures Detached(u) && WellFormed(u)
  {
  }

  lemma {:induction false} ListWhole(patches: Node, sq: Shape, u: Shape)
    requires WellFormed(sq) && sq.data.kind.KArray? && sq.node == patches && WellFormed(u)
    requires Linked(sq.(kids := sq.kids + [u]), true)
    ensures PatchList(patches, sq.(kids := sq.kids + [u]))
  {
  }

  // ---------- create_patches

  /** The list of patches and the two trees, on nodes of their own. */
  ghost predicate Diffing(patches: Node, from: Node, to: Node, sq: Shape, sf: Shape, st: Shape)
    reads Reach(CellsOf(sq)), Reach(CellsOf(sf)), Reach(CellsOf(st))
  {
    PatchList(patches, sq) && TwoTrees(from, to, sf, st) && NodesOf(sq) !! NodesOf(sf) + NodesOf(st)
  }

  ghost predicate Grown(sq: Shape, tq: Shape, edits: seq<P.Edit>) {
    ItemsOf(tq.kids) == ItemsOf(sq.kids) + P.Documents(edits)
  }

  lemma {:induction false} DocumentsAppend(a: seq<P.Edit>, b: seq<P.Edit>)
    ensures P.Documents(a + b) == P.Documents(a) + P.Documents(b)
  {
    hide P.PatchDocument;
    if a == [] {
      assert a + b == b;
    } else {
      assert (a + b)[1..] == a[1..] + b;
      DocumentsAppend(a[1..], b);
    }
  }

  lemma {:induction false} GrownTwice(sq: Shape, tq: Shape, uq: Shape, a: seq<P.Edit>, b: seq<P.Edit>)
    requires Grown(sq, tq, a) && Grown(tq, uq, b)
    ensures Grown(sq, uq, a + b)
  {
    DocumentsAppend(a, b);
    hide P.Documents;
  }

  lemma {:induction false} GrownNot(sq: Shape)
    ensures Grown(sq, sq, [])
  {
    assert P.Documents([]) == [];
  }

  /** The parts of the three trees, and what an edit of one leaves alone. */
  lemma {:induction false} DiffParts(patches: Node, from: Node, to: Node, sq: Shape, sf: Shape, st: Shape)
    requires Diffing(patches, from, to, sq, sf, st)
    ensures PatchList(patches, sq) && TwoTrees(from, to, sf, st) && sf.node == from && st.node == to
    ensures NodesOf(sq) !! NodesOf(sf) + NodesOf(st) && NodesOf(sf) !! NodesOf(st)
    ensures Reach(CellsOf(sq)) <= NodesOf(sq) && Reach(CellsOf(sf)) <= NodesOf(sf) && Reach(CellsOf(st)) <= NodesOf(st)
    ensures NodesOf(sq) == {patches} + Below(sq.kids) && from in NodesOf(sf) && to in NodesOf(st)
    ensures Below(sf.kids) <= NodesOf(sf) && Below(st.kids) <= NodesOf(st)
    ensures IsTree(sf) && IsTree(st)
  {
    WholeReach(sq);
    WholeReach(sf);
    WholeReach(st);
    NodesAre(sq);
    NodesAre(sf);
    NodesAre(st);
  }

  lemma {:induction false} DiffAgain(patches: Node, from: Node, to: Node, sq: Shape, sf: Shape, st: Shape)
    requires PatchList(patches, sq) && TwoTrees(from, to, sf, st) && NodesOf(sq) !! NodesOf(sf) + NodesOf(st)
    ensures Diffing(patches, from, to, sq, sf, st)
  {
  }

  lemma {:induction false} OneMore(sq: Shape, tq: Shape, e: P.Edit)
    requires ItemsOf(tq.kids) == ItemsOf(sq.kids) + [P.PatchDocument(e)]
    ensures Grown(sq, tq, [e])
  {
    assert [e][1..] == [];
  }

  /** compose_patch while the two trees are walked; the value, if any, is a subtree of one of them. */
  method AppendPatch(patches: Node, e: P.Change, path: string, suffix: Option<string>, value: Node?, ghost edit: P.Edit,
                     ghost from: Node, ghost to: Node, ghost sq: Shape, ghost sf: Shape, ghost st: Shape, ghost sv: Option<Shape>)
    returns (ghost tq: Shape)
    requires Diffing(patches, from, to, sq, sf, st)
    requires value == null <==> sv.None?
    requires sv.Some? ==> IsTree(sv.value) && sv.value.node == value && NodesOf(sv.value) <= NodesOf(st)
    requires edit == P.Edit(e, if suffix.None? then path else P.ChildPath(path, suffix.value),
                            if sv.None? then None else Some(ValueOf(sv.value)))
    modifies patches`child, Below(sq.kids)`next, Below(sq.kids)`prev
    ensures Diffing(patches, from, to, tq, sf, st) && Grown(sq, tq, [edit])
    ensures forall n | n in NodesOf(tq) :: n in NodesOf(sq) || fresh(n)
  {
    hide NodesOf, Below, Reach, CellsOf, WellFormed, ValueOf, IsTree, Linked, ItemsOf, PatchList, P.ChildPath, TwoTrees, Diffing, Grown, P.PatchDocument;
    DiffParts(patches, from, to, sq, sf, st);
    assert allocated(Reach(CellsOf(sf))) && allocated(Reach(CellsOf(st))) && allocated(NodesOf(sf)) && allocated(NodesOf(st));
    tq := ComposePatch(patches, e, path, suffix, value, sq, sv);
    assert TwoTrees(from, to, sf, st);
    OneMore(sq, tq, edit);
    DiffAgain(patches, from, to, tq, sf, st);
  }

  /** Between two steps: both trees reordered at most, and the given patches appended. */
  ghost predicate Doing(patches: Node, from: Node, to: Node, sq: Shape, sf: Shape, st: Shape,
                        tq: Shape, tf: Shape, tt: Shape, edits: seq<P.Edit>)
    reads Reach(CellsOf(tq)), Reach(CellsOf(tf)), Reach(CellsOf(tt))
  {
    && Diffing(patches, from, to, tq, tf, tt)
    && Reordered(sf, tf) && Reordered(st, tt) && Grown(sq, tq, edits)
  }

  // ---------- arrays

  ghost function ArrayLeft(cs: bool, path: string, sf: Shape, st: Shape, i: nat): seq<P.Edit>
    requires sf.data.kind.KArray? && st.data.kind.KArray? && i <= Max(|sf.kids|, |st.kids|)
  {
    P.ArrayPatches(cs, path, ValueOf(sf), ValueOf(st), i)
  }

  lemma {:induction false} ArrayLeftStep(cs: bool, path: string, sf: Shape, st: Shape, i: nat)
    requires sf.data.kind.KArray? && st.data.kind.KArray? && i <= Max(|sf.kids|, |st.kids|)
    ensures ArrayLeft(cs, path, sf, st, i) ==
      if i < |sf.kids| && i < |st.kids| then
        P.CreatePatches(cs, path + "/" + Decimal(i), ValueOf(sf.kids[i]), ValueOf(st.kids[i]))
        + ArrayLeft(cs, path, sf, st, i + 1)
      else if i < |sf.kids| then
        [P.Edit(P.Remove, P.ChildPath(path, Decimal(|st.kids|)), None)] + ArrayLeft(cs, path, sf, st, i + 1)
      else if i < |st.kids| then
        [P.Edit(P.Add, P.ChildPath(path, "-"), Some(ValueOf(st.kids[i])))] + ArrayLeft(cs, path, sf, st, i + 1)
      else []
  {
    hide P.CreatePatches, Decimal, P.ChildPath;
    assert ValueOf(sf) == Array(ItemsOf(sf.kids)) && ValueOf(st) == Array(ItemsOf(st.kids));
    hide ValueOf;
  }

  lemma {:induction false} EditsStep(all: seq<P.Edit>, done: seq<P.Edit>, here: seq<P.Edit>, left: seq<P.Edit>)
    requires all == done + (here + left)
    ensures all == (done + here) + left
  {
  }

  /** The pairs of elements that both arrays have. */
  method ArrayPairs(patches: Node, path: string, from: Node, to: Node, cs: bool, ghost sq: Shape, ghost sf: Shape, ghost st: Shape,
                    ghost bound: nat)
    returns (index: nat, x: Node?, y: Node?, ghost tq: Shape, ghost tf: Shape, ghost tt: Shape, ghost done: seq<P.Edit>)
    requires Diffing(patches, from, to, sq, sf, st) && sf.data.kind.KArray? && st.data.kind.KArray?
    requires forall i | 0 <= i < |sf.kids| :: Nesting(ValueOf(sf.kids[i])) < bound
    modifies patches`child, Below(sq.kids)`next, Below(sq.kids)`prev
    modifies (NodesOf(sf) + NodesOf(st))`child, (Below(sf.kids) + Below(st.kids))`next, (Below(sf.kids) + Below(st.kids))`prev
    ensures Doing(patches, from, to, sq, sf, st, tq, tf, tt, done)
    ensures index == if |sf.kids| < |st.kids| then |sf.kids| else |st.kids|
    ensures |tf.kids| == |sf.kids| && |tt.kids| == |st.kids|
    ensures x == if index < |sf.kids| then tf.kids[index].node else null
    ensures y == if index < |st.kids| then tt.kids[index].node else null
    ensures forall k | index <= k < |tt.kids| :: tt.kids[k] == st.kids[k]
    ensures ArrayLeft(cs, path, sf, st, 0) == done + ArrayLeft(cs, path, sf, st, index)
    ensures forall n | n in NodesOf(tq) :: n in NodesOf(sq) || fresh(n)
    decreases bound, 0
  {
    hide NodesOf, Below, CellsOf, Reach, ValueOf, Reordered, Diffing, Grown, IsTree, TwoTrees, Decimal, P.CreatePatches, ArrayLeft;
    tq, tf, tt, done := sq, sf, st, [];
    StartDoing(patches, from, to, sq, sf, st);
    DiffParts(patches, from, to, sq, sf, st);
    FirstKid(sf);
    FirstKid(st);
    x, y, index := from.child, to.child, 0;
    while x != null && y != null
      invariant Doing(patches, from, to, sq, sf, st, tq, tf, tt, done)
      invariant index <= |sf.kids| == |tf.kids| && index <= |st.kids| == |tt.kids|
      invariant x == (if index < |sf.kids| then tf.kids[index].node else null)
      invariant y == (if index < |st.kids| then tt.kids[index].node else null)
      invariant forall k | index <= k < |tf.kids| :: tf.kids[k] == sf.kids[k]
      invariant forall k | index <= k < |tt.kids| :: tt.kids[k] == st.kids[k]
      invariant ArrayLeft(cs, path, sf, st, 0) == done + ArrayLeft(cs, path, sf, st, index)
      invariant forall n | n in NodesOf(tq) :: n in NodesOf(sq) || fresh(n)
      decreases |sf.kids| - index
    {
      ghost var uq, u, v;
      var here := path + "/" + Decimal(index);
      ghost var edits := P.CreatePatches(cs, here, ValueOf(sf.kids[index]), ValueOf(st.kids[index]));
      ArrayLeftStep(cs, path, sf, st, index);
      EditsStep(ArrayLeft(cs, path, sf, st, 0), done, edits, ArrayLeft(cs, path, sf, st, index + 1));
      DiffParts(patches, from, to, tq, tf, tt);
      ListApart(patches, from, to, tq, tf, tt);
      SameNodes(sf, tf);
      SameNodes(st, tt);
      NextKid(tf, index);
      NextKid(tt, index);
      uq, u, v := PatchPair(patches, here, x, y, cs, from, to, tq, tf, tt, index, index);
      DoingMore(patches, from, to, sq, sf, st, tq, tf, tt, done,
                uq, tf.(kids := tf.kids[index := u]), tt.(kids := tt.kids[index := v]), edits);
      tq, tf, tt := uq, tf.(kids := tf.kids[index := u]), tt.(kids := tt.kids[index := v]);
      done := done + edits;
      x, y := x.next, y.next;
      index := index + 1;
    }
  }

  lemma {:induction false} StartDoing(patches: Node, from: Node, to: Node, sq: Shape, sf: Shape, st: Shape)
    requires Diffing(patches, from, to, sq, sf, st)
    ensures Doing(patches, from, to, sq, sf, st, sq, sf, st, [])
  {
    hide Reach, CellsOf, NodesOf, Reordered, Grown;
    GrownNot(sq);
    ReorderedItself(sf);
    ReorderedItself(st);
  }

  lemma {:induction false} DoingMore(patches: Node, from: Node, to: Node, sq: Shape, sf: Shape, st: Shape,
                  tq: Shape, tf: Shape, tt: Shape, done: seq<P.Edit>, uq: Shape, uf: Shape, ut: Shape, edits: seq<P.Edit>)
    requires Reordered(sf, tf) && Reordered(st, tt) && Grown(sq, tq, done)
    requires Diffing(patches, from, to, uq, uf, ut) && Reordered(tf, uf) && Reordered(tt, ut) && Grown(tq, uq, edits)
    ensures Doing(patches, from, to, sq, sf, st, uq, uf, ut, done + edits)
  {
    hide Reach, CellsOf, NodesOf, Reordered, Grown, Diffing;
    GrownTwice(sq, tq, uq, done, edits);
    ReorderedTransitive(sf, tf, uf);
    ReorderedTransitive(st, tt, ut);
  }

  /** What is left of the longer array: removals at the end of the shorter one, or additions at the end. */
  method ArrayRests(patches: Node, path: string, from: Node, to: Node, cs: bool, index: nat, x: Node?, y: Node?,
                    ghost sq: Shape, ghost sf: Shape, ghost st: Shape, ghost vf: Shape, ghost vt: Shape)
    returns (ghost tq: Shape)
    requires Diffing(patches, from, to, sq, sf, st) && sf.data.kind.KArray? && st.data.kind.KArray?
    requires index == if |sf.kids| < |st.kids| then |sf.kids| else |st.kids|
    requires x == if index < |sf.kids| then sf.kids[index].node else null
    requires y == if index < |st.kids| then st.kids[index].node else null
    requires vf.data.kind.KArray? && vt.data.kind.KArray? && |vf.kids| == |sf.kids| && |vt.kids| == |st.kids|
    requires forall k | index <= k < |st.kids| :: st.kids[k] == vt.kids[k]
    modifies patches`child, Below(sq.kids)`next, Below(sq.kids)`prev
    ensures Diffing(patches, from, to, tq, sf, st) && Grown(sq, tq, ArrayLeft(cs, path, vf, vt, index))
    ensures forall n | n in NodesOf(tq) :: n in NodesOf(sq) || fresh(n)
  {
    hide NodesOf, Below, CellsOf, Reach, ValueOf, Reordered, Diffing, Grown, IsTree, TwoTrees, Decimal, Encode, P.CreatePatches, ArrayLeft;
    tq := sq;
    GrownNot(sq);
    ghost var done: seq<P.Edit>, i := [], index;
    var current := x;
    ghost var all := ArrayLeft(cs, path, vf, vt, index);
    assert all == [] + all;
    DiffParts(patches, from, to, sq, sf, st);
    while current != null
      invariant index <= i <= |sf.kids| && current == if i < |sf.kids| then sf.kids[i].node else null
      invariant Diffing(patches, from, to, tq, sf, st) && Grown(sq, tq, done)
      invariant all == done + ArrayLeft(cs, path, vf, vt, i)
      invariant forall n | n in NodesOf(tq) :: n in NodesOf(sq) || fresh(n)
      decreases |sf.kids| - i
    {
      ghost var edit := P.Edit(P.Remove, P.ChildPath(path, Decimal(index)), None);
      ArrayLeftStep(cs, path, vf, vt, i);
      EditsStep(all, done, [edit], ArrayLeft(cs, path, vf, vt, i + 1));
      ListApart(patches, from, to, tq, sf, st);
      ghost var uq := AppendPatch(patches, P.Remove, path, Some(Decimal(index)), null, edit, from, to, tq, sf, st, None);
      GrownTwice(sq, tq, uq, done, [edit]);
      tq, done := uq, done + [edit];
      DiffParts(patches, from, to, tq, sf, st);
      NextKid(sf, i);
      current := current.next;
      i := i + 1;
    }
    current := y;
    while current != null
      invariant i <= Max(|sf.kids|, |st.kids|) && i >= |sf.kids| && index <= i
      invariant current == if i < |st.kids| then st.kids[i].node else null
      invariant Diffing(patches, from, to, tq, sf, st) && Grown(sq, tq, done)
      invariant all == done + ArrayLeft(cs, path, vf, vt, i)
      invariant forall n | n in NodesOf(tq) :: n in NodesOf(sq) || fresh(n)
      decreases |st.kids| - i
    {
      ghost var edit := P.Edit(P.Add, P.ChildPath(path, "-"), Some(ValueOf(st.kids[i])));
      ArrayLeftStep(cs, path, vf, vt, i);
      EditsStep(all, done, [edit], ArrayLeft(cs, path, vf, vt, i + 1));
      ListApart(patches, from, to, tq, sf, st);
      KidTree(patches, from, to, tq, sf, st, i);
      ghost var uq := AppendPatch(patches, P.Add, path, Some("-"), current, edit, from, to, tq, sf, st, Some(st.kids[i]));
      GrownTwice(sq, tq, uq, done, [edit]);
      tq, done := uq, done + [edit];
      DiffParts(patches, from, to, tq, sf, st);
      NextKid(st, i);
      current := current.next;
      i := i + 1;
    }
    ArrayLeftStep(cs, path, vf, vt, i);
    assert done + [] == done;
  }

  lemma {:induction false} ListApart(patches: Node, from: Node, to: Node, sq: Shape, sf: Shape, st: Shape)
    requires Diffing(patches, from, to, sq, sf, st)
    ensures NodesOf(sq) == {patches} + Below(sq.kids) && patches !in Below(sq.kids)
  {
    RootApart(sq);
  }

  lemma {:induction false} KidTree(patches: Node, from: Node, to: Node, sq: Shape, sf: Shape, st: Shape, i: nat)
    requires Diffing(patches, from, to, sq, sf, st) && i < |st.kids|
    ensures IsTree(st.kids[i]) && NodesOf(st.kids[i]) <= NodesOf(st)
  {
    DiffParts(patches, from, to, sq, sf, st);
    KidIsTree(st, i);
    KidIn(st.kids, i);
    NodesAre(st);
  }

  /** create_patches on two arrays. */
  method ArrayDiff(patches: Node, path: string, from: Node, to: Node, cs: bool, ghost sq: Shape, ghost sf: Shape, ghost st: Shape,
                   ghost bound: nat)
    returns (ghost tq: Shape, ghost tf: Shape, ghost tt: Shape)
    requires Diffing(patches, from, to, sq, sf, st) && sf.data.kind.KArray? && st.data.kind.KArray?
    requires forall i | 0 <= i < |sf.kids| :: Nesting(ValueOf(sf.kids[i])) < bound
    modifies patches`child, Below(sq.kids)`next, Below(sq.kids)`prev
    modifies (NodesOf(sf) + NodesOf(st))`child, (Below(sf.kids) + Below(st.kids))`next, (Below(sf.kids) + Below(st.kids))`prev
    ensures Doing(patches, from, to, sq, sf, st, tq, tf, tt, ArrayLeft(cs, path, sf, st, 0))
    ensures forall n | n in NodesOf(tq) :: n in NodesOf(sq) || fresh(n)
    decreases bound, 1
  {
    hide NodesOf, Below, CellsOf, Reach, ValueOf, Reordered, Diffing, Grown, ArrayLeft;
    var index, x, y;
    ghost var done;
    ListApart(patches, from, to, sq, sf, st);
    index, x, y, tq, tf, tt, done := ArrayPairs(patches, path, from, to, cs, sq, sf, st, bound);
    DiffParts(patches, from, to, tq, tf, tt);
    ListApart(patches, from, to, tq, tf, tt);
    SameNodes(sf, tf);
    SameNodes(st, tt);
    ghost var uq := ArrayRests(patches, path, from, to, cs, index, x, y, tq, tf, tt, sf, st);
    GrownTwice(sq, tq, uq, done, ArrayLeft(cs, path, sf, st, index));
    tq := uq;
  }

  // ---------- objects

  /** The members of a tree are members of the object that is walked. */
  ghost predicate Walked(from: Json, sf: Shape) {
    from.Object? && forall m | m in MembersOf(sf.kids) :: m in from.members
  }

  ghost function ObjectLeft(cs: bool, path: string, from: Json, sf: Shape, st: Shape, i: nat, j: nat): seq<P.Edit>
    requires Walked(from, sf) && i <= |sf.kids| && j <= |st.kids|
  {
    P.ObjectPatches(cs, path, from, MembersOf(sf.kids)[i..], MembersOf(st.kids)[j..])
  }

  lemma {:induction false} ObjectLeftStep(cs: bool, path: string, from: Json, sf: Shape, st: Shape, i: nat, j: nat)
    requires Walked(from, sf) && i <= |sf.kids| && j <= |st.kids|
    ensures ObjectLeft(cs, path, from, sf, st, i, j) ==
      if i == |sf.kids| && j == |st.kids| then []
      else
        var diff := if i == |sf.kids| then 1 else if j == |st.kids| then -1
                    else CompareStrings(cs, KeyOf(sf.kids[i]), KeyOf(st.kids[j]));
        if diff == 0 then
          P.CreatePatches(cs, P.ChildPath(path, KeyOf(sf.kids[i])), ValueOf(sf.kids[i]), ValueOf(st.kids[j]))
          + ObjectLeft(cs, path, from, sf, st, i + 1, j + 1)
        else if diff < 0 then
          [P.Edit(P.Remove, P.ChildPath(path, KeyOf(sf.kids[i])), None)] + ObjectLeft(cs, path, from, sf, st, i + 1, j)
        else
          [P.Edit(P.Add, P.ChildPath(path, KeyOf(st.kids[j])), Some(ValueOf(st.kids[j])))]
          + ObjectLeft(cs, path, from, sf, st, i, j + 1)
  {
    hide P.CreatePatches, P.ChildPath, CompareStrings, MembersOf, ValueOf, KeyOf;
    var (fs, ts) := (MembersOf(sf.kids)[i..], MembersOf(st.kids)[j..]);
    if i < |sf.kids| {
      assert fs[0] == MembersOf(sf.kids)[i] && fs[1..] == MembersOf(sf.kids)[i + 1..];
    }
    if j < |st.kids| {
      assert ts[0] == MembersOf(st.kids)[j] && ts[1..] == MembersOf(st.kids)[j + 1..];
    }
  }

  lemma {:induction false} KeyAt(patches: Node, from: Node, to: Node, sq: Shape, sf: Shape, st: Shape, i: nat, j: nat)
    requires Diffing(patches, from, to, sq, sf, st) && sf.data.kind.KObject? && st.data.kind.KObject?
    ensures i < |sf.kids| ==> sf.kids[i].node.key == Some(KeyOf(sf.kids[i]))
    ensures i < |sf.kids| ==> sf.kids[i].node.next == if i + 1 < |sf.kids| then sf.kids[i + 1].node else null
    ensures j < |st.kids| ==> st.kids[j].node.key == Some(KeyOf(st.kids[j]))
    ensures j < |st.kids| ==> st.kids[j].node.next == if j + 1 < |st.kids| then st.kids[j + 1].node else null
  {
    DiffParts(patches, from, to, sq, sf, st);
    if i < |sf.kids| { KeyTest(sf, true, "", i); }
    if j < |st.kids| { KeyTest(st, true, "", j); }
  }

  /** Where the loop over two sorted objects stands: what is not yet passed is as it was at the start. */
  ghost predicate Passed(x: Node?, i: nat, sf: Shape, tf: Shape) {
    && i <= |sf.kids| == |tf.kids|
    && x == (if i < |tf.kids| then tf.kids[i].node else null)
    && forall k | i <= k < |tf.kids| :: tf.kids[k] == sf.kids[k]
  }

  /** create_patches on two objects, after both have been sorted. */
  method ObjectDiff(patches: Node, path: string, from: Node, to: Node, cs: bool, ghost sq: Shape, ghost sf: Shape, ghost st: Shape,
                    ghost value: Json, ghost bound: nat)
    returns (ghost tq: Shape, ghost tf: Shape, ghost tt: Shape)
    requires Diffing(patches, from, to, sq, sf, st) && sf.data.kind.KObject? && st.data.kind.KObject? && Walked(value, sf)
    requires forall i | 0 <= i < |sf.kids| :: Nesting(ValueOf(sf.kids[i])) < bound
    modifies patches`child, Below(sq.kids)`next, Below(sq.kids)`prev
    modifies (NodesOf(sf) + NodesOf(st))`child, (Below(sf.kids) + Below(st.kids))`next, (Below(sf.kids) + Below(st.kids))`prev
    ensures Doing(patches, from, to, sq, sf, st, tq, tf, tt, ObjectLeft(cs, path, value, sf, st, 0, 0))
    ensures forall n | n in NodesOf(tq) :: n in NodesOf(sq) || fresh(n)
    decreases bound, 1
  {
    hide NodesOf, Below, CellsOf, Reach, ValueOf, Reordered, Diffing, Grown, IsTree, TwoTrees, P.CreatePatches, P.ChildPath, Encode;
    hide ObjectLeft, CompareStrings, KeyOf, Walked;
    tq, tf, tt := sq, sf, st;
    ghost var done: seq<P.Edit>, i, j := [], 0, 0;
    ghost var all := ObjectLeft(cs, path, value, sf, st, 0, 0);
    assert all == [] + all;
    StartDoing(patches, from, to, sq, sf, st);
    DiffParts(patches, from, to, sq, sf, st);
    FirstKid(sf);
    FirstKid(st);
    var x, y := from.child, to.child;
    while x != null || y != null
      invariant Doing(patches, from, to, sq, sf, st, tq, tf, tt, done)
      invariant Passed(x, i, sf, tf) && Passed(y, j, st, tt)
      invariant all == done + ObjectLeft(cs, path, value, sf, st, i, j)
      invariant forall n | n in NodesOf(tq) :: n in NodesOf(sq) || fresh(n)
      decreases |sf.kids| - i + (|st.kids| - j)
    {
      DiffParts(patches, from, to, tq, tf, tt);
      ListApart(patches, from, to, tq, tf, tt);
      SameNodes(sf, tf);
      SameNodes(st, tt);
      KeyAt(patches, from, to, tq, tf, tt, i, j);
      ObjectLeftStep(cs, path, value, sf, st, i, j);
      var diff;
      if x == null {
        diff := 1;
      } else if y == null {
        diff := -1;
      } else {
        diff := CompareStrings(cs, x.key.value, y.key.value);
      }
      if diff == 0 {
        ghost var edits := P.CreatePatches(cs, P.ChildPath(path, KeyOf(sf.kids[i])), ValueOf(sf.kids[i]), ValueOf(st.kids[j]));
        EditsStep(all, done, edits, ObjectLeft(cs, path, value, sf, st, i + 1, j + 1));
        x, y, tq, tf, tt := SameKey(patches, path, x, y, from, to, cs, sq, sf, st, tq, tf, tt, i, j, done, edits);
        done := done + edits;
        i, j := i + 1, j + 1;
      } else if diff < 0 {
        ghost var edit := P.Edit(P.Remove, P.ChildPath(path, KeyOf(sf.kids[i])), None);
        EditsStep(all, done, [edit], ObjectLeft(cs, path, value, sf, st, i + 1, j));
        tq := OnePatch(patches, P.Remove, path, x.key.value, null, edit, from, to, cs, sq, sf, st, tq, tf, tt, done, None);
        done := done + [edit];
        KeyAt(patches, from, to, tq, tf, tt, i, j);
        x, i := x.next, i + 1;
      } else {
        ghost var edit := P.Edit(P.Add, P.ChildPath(path, KeyOf(st.kids[j])), Some(ValueOf(st.kids[j])));
        EditsStep(all, done, [edit], ObjectLeft(cs, path, value, sf, st, i, j + 1));
        KidTree(patches, from, to, tq, tf, tt, j);
        tq := OnePatch(patches, P.Add, path, y.key.value, y, edit, from, to, cs, sq, sf, st, tq, tf, tt, done, Some(tt.kids[j]));
        done := done + [edit];
        KeyAt(patches, from, to, tq, tf, tt, i, j);
        y, j := y.next, j + 1;
      }
    }
    ObjectLeftStep(cs, path, value, sf, st, i, j);
    assert done + [] == done;
  }

  /** The members with the same key on both sides. */
  method SameKey(patches: Node, path: string, x: Node, y: Node, from: Node, to: Node, cs: bool,
                 ghost sq: Shape, ghost sf: Shape, ghost st: Shape, ghost tq: Shape, ghost tf: Shape, ghost tt: Shape,
                 ghost i: nat, ghost j: nat, ghost done: seq<P.Edit>, ghost edits: seq<P.Edit>)
    returns (x': Node?, y': Node?, ghost uq: Shape, ghost uf: Shape, ghost ut: Shape)
    requires Doing(patches, from, to, sq, sf, st, tq, tf, tt, done)
    requires sf.data.kind.KObject? && st.data.kind.KObject?
    requires i < |sf.kids| && j < |st.kids| && Passed(x, i, sf, tf) && Passed(y, j, st, tt)
    requires edits == P.CreatePatches(cs, P.ChildPath(path, KeyOf(sf.kids[i])), ValueOf(sf.kids[i]), ValueOf(st.kids[j]))
    modifies patches`child, Below(tq.kids)`next, Below(tq.kids)`prev
    modifies (NodesOf(sf) + NodesOf(st))`child, (Below(sf.kids) + Below(st.kids))`next, (Below(sf.kids) + Below(st.kids))`prev
    ensures Doing(patches, from, to, sq, sf, st, uq, uf, ut, done + edits)
    ensures Passed(x', i + 1, sf, uf) && Passed(y', j + 1, st, ut)
    ensures forall n | n in NodesOf(uq) :: n in NodesOf(tq) || fresh(n)
    decreases Nesting(ValueOf(sf.kids[i])), 4
  {
    hide NodesOf, Below, CellsOf, Reach, ValueOf, Reordered, Diffing, Grown, IsTree, TwoTrees, P.CreatePatches, P.ChildPath, KeyOf;
    DiffParts(patches, from, to, tq, tf, tt);
    ListApart(patches, from, to, tq, tf, tt);
    SameNodes(sf, tf);
    SameNodes(st, tt);
    KeyAt(patches, from, to, tq, tf, tt, i, j);
    assert allocated(Reach(CellsOf(tq))) && allocated(Reach(CellsOf(tf))) && allocated(Reach(CellsOf(tt)));
    var here := ChildPathOf(path, x.key.value);
    assert Diffing(patches, from, to, tq, tf, tt);
    ghost var u, v;
    uq, u, v := PatchPair(patches, here, x, y, cs, from, to, tq, tf, tt, i, j);
    uf, ut := tf.(kids := tf.kids[i := u]), tt.(kids := tt.kids[j := v]);
    DoingMore(patches, from, to, sq, sf, st, tq, tf, tt, done, uq, uf, ut, edits);
    x', y' := x.next, y.next;
  }

  /** A key on one side only. */
  method OnePatch(patches: Node, op: P.Change, path: string, key: string, value: Node?, ghost edit: P.Edit,
                  ghost from: Node, ghost to: Node, ghost cs: bool,
                  ghost sq: Shape, ghost sf: Shape, ghost st: Shape, ghost tq: Shape, ghost tf: Shape, ghost tt: Shape,
                  ghost done: seq<P.Edit>, ghost sv: Option<Shape>)
    returns (ghost uq: Shape)
    requires Doing(patches, from, to, sq, sf, st, tq, tf, tt, done)
    requires value == null <==> sv.None?
    requires sv.Some? ==> IsTree(sv.value) && sv.value.node == value && NodesOf(sv.value) <= NodesOf(tt)
    requires edit == P.Edit(op, P.ChildPath(path, key), if sv.None? then None else Some(ValueOf(sv.value)))
    modifies patches`child, Below(tq.kids)`next, Below(tq.kids)`prev
    ensures Doing(patches, from, to, sq, sf, st, uq, tf, tt, done + [edit])
    ensures forall n | n in NodesOf(uq) :: n in NodesOf(tq) || fresh(n)
  {
    hide NodesOf, Below, CellsOf, Reach, ValueOf, Reordered, Diffing, Grown, IsTree, P.ChildPath;
    uq := AppendPatch(patches, op, path, Some(key), value, edit, from, to, tq, tf, tt, sv);
    GrownTwice(sq, tq, uq, done, [edit]);
  }

  /** What create_patches comes down to for each kind of item. */
  lemma {:induction false} DiffCases(cs: bool, path: string, sf: Shape, st: Shape)
    requires WellFormed(sf) && WellFormed(st)
    ensures var (all, p, q) := (P.CreatePatches(cs, path, ValueOf(sf), ValueOf(st)), sf.data, st.data);
      var replace := [P.Edit(P.Replace, path, Some(ValueOf(st)))];
      if p.kind != q.kind then all == replace
      else
        match p.kind
        case KNumber => all == if p.number == q.number then [] else replace
        case KString => all == if p.text == q.text then [] else replace
        case KArray => all == ArrayLeft(cs, path, sf, st, 0)
        case KObject =>
          var (uf, ut) := (sf.(kids := SortedKids(cs, sf.kids)), st.(kids := SortedKids(cs, st.kids)));
          Walked(ValueOf(sf), uf) && all == ObjectLeft(cs, path, ValueOf(sf), uf, ut, 0, 0)
        case _ => all == []
  {
    if sf.data.kind == st.data.kind && sf.data.kind.KArray? {
      DiffArrays(cs, path, sf, st);
    } else if sf.data.kind == st.data.kind && sf.data.kind.KObject? {
      DiffObjects(cs, path, sf, st);
    } else {
      DiffScalars(cs, path, sf, st);
    }
    hide P.CreatePatches, ValueOf, SortedKids, ArrayLeft, ObjectLeft, Walked;
  }

  lemma {:induction false} DiffArrays(cs: bool, path: string, sf: Shape, st: Shape)
    requires sf.data.kind.KArray? && st.data.kind.KArray?
    ensures P.CreatePatches(cs, path, ValueOf(sf), ValueOf(st)) == ArrayLeft(cs, path, sf, st, 0)
  {
    assert ValueOf(sf).Array? && ValueOf(st).Array?;
    hide ValueOf;
  }

  lemma {:induction false} DiffObjects(cs: bool, path: string, sf: Shape, st: Shape)
    requires sf.data.kind.KObject? && st.data.kind.KObject?
    ensures var (uf, ut) := (sf.(kids := SortedKids(cs, sf.kids)), st.(kids := SortedKids(cs, st.kids)));
      Walked(ValueOf(sf), uf)
      && P.CreatePatches(cs, path, ValueOf(sf), ValueOf(st)) == ObjectLeft(cs, path, ValueOf(sf), uf, ut, 0, 0)
  {
    var (uf, ut) := (sf.(kids := SortedKids(cs, sf.kids)), st.(kids := SortedKids(cs, st.kids)));
    WalkedSorted(cs, sf);
    SortedValues(cs, sf.kids);
    SortedValues(cs, st.kids);
    ObjectValue(sf);
    ObjectValue(st);
    hide ValueOf, SortedKids, MergeSort, MembersOf, Walked, P.ObjectPatches;
    var (ms, ns) := (MembersOf(sf.kids), MembersOf(st.kids));
    assert MembersOf(uf.kids)[0..] == P.SortedMembers(cs, ms) && MembersOf(ut.kids)[0..] == P.SortedMembers(cs, ns);
    DiffMembers(cs, path, ms, ns);
  }

  lemma {:induction false} DiffMembers(cs: bool, path: string, ms: seq<Member<Json>>, ns: seq<Member<Json>>)
    ensures P.CreatePatches(cs, path, Object(ms), Object(ns)) ==
      P.ObjectPatches(cs, path, Object(ms), P.SortedMembers(cs, ms), P.SortedMembers(cs, ns))
  {
    hide P.ObjectPatches, P.SortedMembers;
  }

  lemma {:induction false} WalkedSorted(cs: bool, s: Shape)
    requires s.data.kind.KObject?
    ensures Walked(ValueOf(s), s.(kids := SortedKids(cs, s.kids)))
  {
    SortedValues(cs, s.kids);
    ObjectValue(s);
    hide ValueOf, SortedKids, MergeSort, MembersOf;
    var sorted := MembersOf(SortedKids(cs, s.kids));
    forall m | m in sorted ensures m in MembersOf(s.kids) {
      var i :| 0 <= i < |sorted| && sorted[i] == m;
      SortedMember(cs, MembersOf(s.kids), i);
    }
  }

  lemma {:induction false} DiffScalars(cs: bool, path: string, sf: Shape, st: Shape)
    requires WellFormed(sf) && WellFormed(st)
    requires sf.data.kind == st.data.kind ==> !sf.data.kind.KArray? && !sf.data.kind.KObject?
    ensures var (all, p, q) := (P.CreatePatches(cs, path, ValueOf(sf), ValueOf(st)), sf.data, st.data);
      var replace := [P.Edit(P.Replace, path, Some(ValueOf(st)))];
      if p.kind != q.kind then all == replace
      else
        match p.kind
        case KNumber => all == if p.number == q.number then [] else replace
        case KString => all == if p.text == q.text then [] else replace
        case KArray => true
        case KObject => true
        case _ => all == []
  {
    hide P.ArrayPatches, P.ObjectPatches, P.SortedMembers, ItemsOf, MembersOf;
  }

  /** create_patches: appends exactly the patches of CreatePatches, and leaves both trees sorted but equal in value. */
  method CreatePatchesOn(patches: Node, path: string, from: Node, to: Node, cs: bool, ghost sq: Shape, ghost sf: Shape, ghost st: Shape)
    returns (ghost tq: Shape, ghost tf: Shape, ghost tt: Shape)
    requires Diffing(patches, from, to, sq, sf, st)
    modifies patches`child, Below(sq.kids)`next, Below(sq.kids)`prev
    modifies (NodesOf(sf) + NodesOf(st))`child, (Below(sf.kids) + Below(st.kids))`next, (Below(sf.kids) + Below(st.kids))`prev
    ensures Diffing(patches, from, to, tq, tf, tt) && Reordered(sf, tf) && Reordered(st, tt)
    ensures Grown(sq, tq, P.CreatePatches(cs, path, ValueOf(sf), ValueOf(st)))
    ensures forall n | n in NodesOf(tq) :: n in NodesOf(sq) || fresh(n)
    decreases Nesting(ValueOf(sf)), 2
  {
    hide NodesOf, Below, CellsOf, Reach, ValueOf, Reordered, Diffing, Grown, IsTree, TwoTrees, P.CreatePatches, P.ChildPath, SortedKids;
    hide ObjectLeft, ArrayLeft, Walked, WellFormed, Nesting;
    DiffParts(patches, from, to, sq, sf, st);
    TreesAre(from, to, sf, st);
    DiffCases(cs, path, sf, st);
    ListApart(patches, from, to, sq, sf, st);
    StartDoing(patches, from, to, sq, sf, st);
    tq, tf, tt := sq, sf, st;
    ghost var replace := P.Edit(P.Replace, path, Some(ValueOf(st)));
    if from.kind != to.kind
       || (from.kind == KNumber && from.number != to.number) || (from.kind == KString && from.valuestring != to.valuestring) {
      tq := AppendPatch(patches, P.Replace, path, None, to, replace, from, to, sq, sf, st, Some(st));
      return;
    }
    match from.kind
    case KArray =>
      KidsNest(cs, sf);
      tq, tf, tt := ArrayDiff(patches, path, from, to, cs, sq, sf, st, Nesting(ValueOf(sf)));
    case KObject =>
      KidsNest(cs, sf);
      ghost var uf, ut := SortBoth(patches, from, to, cs, sq, sf, st);
      tq, tf, tt := ObjectDiff(patches, path, from, to, cs, sq, uf, ut, ValueOf(sf), Nesting(ValueOf(sf)));
      ReorderedTransitive(sf, uf, tf);
      ReorderedTransitive(st, ut, tt);
    case _ =>
  }

  /** sort_object on both trees. */
  method SortBoth(patches: Node, from: Node, to: Node, cs: bool, ghost sq: Shape, ghost sf: Shape, ghost st: Shape)
    returns (ghost uf: Shape, ghost ut: Shape)
    requires Diffing(patches, from, to, sq, sf, st) && sf.data.kind.KObject? && st.data.kind.KObject?
    modifies from`child, to`child, (Below(sf.kids) + Below(st.kids))`next, (Below(sf.kids) + Below(st.kids))`prev
    ensures uf == sf.(kids := SortedKids(cs, sf.kids)) && ut == st.(kids := SortedKids(cs, st.kids))
    ensures Diffing(patches, from, to, sq, uf, ut) && Reordered(sf, uf) && Reordered(st, ut)
    ensures NodesOf(uf) == NodesOf(sf) && Below(uf.kids) == Below(sf.kids)
    ensures NodesOf(ut) == NodesOf(st) && Below(ut.kids) == Below(st.kids)
  {
    hide NodesOf, Below, CellsOf, Reach, ValueOf, Reordered, Diffing, TwoTrees, SortedKids, PatchList;
    DiffParts(patches, from, to, sq, sf, st);
    assert allocated(Reach(CellsOf(sq))) && allocated(NodesOf(sq)) && allocated(NodesOf(sf)) && allocated(NodesOf(st));
    uf := SortFirst(from, to, cs, sf, st);
    SameNodes(sf, uf);
    ut := SortFirst(to, from, cs, st, uf);
    SameNodes(st, ut);
    assert PatchList(patches, sq);
    DiffAgain(patches, from, to, sq, uf, ut);
  }

  /** One pair of children: patches for it are appended, and both may be sorted. */
  method PatchPair(patches: Node, path: string, x: Node, y: Node, cs: bool, ghost from: Node, ghost to: Node,
                   ghost sq: Shape, ghost sf: Shape, ghost st: Shape, ghost i: nat, ghost j: nat)
    returns (ghost tq: Shape, ghost u: Shape, ghost v: Shape)
    requires Diffing(patches, from, to, sq, sf, st)
    requires i < |sf.kids| && j < |st.kids| && x == sf.kids[i].node && y == st.kids[j].node
    modifies patches`child, Below(sq.kids)`next, Below(sq.kids)`prev
    modifies (NodesOf(sf) + NodesOf(st))`child, (Below(sf.kids) + Below(st.kids))`next, (Below(sf.kids) + Below(st.kids))`prev
    ensures var tf, tt := sf.(kids := sf.kids[i := u]), st.(kids := st.kids[j := v]);
      Diffing(patches, from, to, tq, tf, tt) && Reordered(sf, tf) && Reordered(st, tt)
    ensures u.node == x && v.node == y && u.data == sf.kids[i].data && v.data == st.kids[j].data
    ensures x.next == old(x.next) && y.next == old(y.next)
    ensures Grown(sq, tq, P.CreatePatches(cs, path, ValueOf(sf.kids[i]), ValueOf(st.kids[j])))
    ensures forall n | n in NodesOf(tq) :: n in NodesOf(sq) || fresh(n)
    decreases Nesting(ValueOf(sf.kids[i])), 3
  {
    hide NodesOf, Below, CellsOf, Reach, WellFormed, ValueOf, Linked, OutsideCells, Reordered, Rest, PatchList, TwoTrees, Diffing, Grown, IsTree;
    DiffParts(patches, from, to, sq, sf, st);
    PairParts(from, to, sf, st, i, j);
    PairDiffing(patches, from, to, sq, sf, st, i, j);
    assert allocated(Rest(sf, i)) && allocated(Rest(st, j)) && allocated(NodesOf(sf)) && allocated(NodesOf(st));
    tq, u, v := CreatePatchesOn(patches, path, x, y, cs, sq, sf.kids[i], st.kids[j]);
    forall c | c in Rest(sf, i) ensures Holds(c, false) {
      assert old(Holds(c, false));
    }
    forall c | c in Rest(st, j) ensures Holds(c, false) {
      assert old(Holds(c, false));
    }
    PairDone(patches, x, y, tq, u, v);
    AfterKid(sf, i, u);
    AfterKid(st, j, v);
    SameNodes(sf.kids[i], u);
    SameNodes(st.kids[j], v);
    SameNodes(sf, sf.(kids := sf.kids[i := u]));
    SameNodes(st, st.(kids := st.kids[j := v]));
    PairWhole(patches, from, to, tq, sf.(kids := sf.kids[i := u]), st.(kids := st.kids[j := v]));
  }

  lemma {:induction false} PairParts(from: Node, to: Node, sf: Shape, st: Shape, i: nat, j: nat)
    requires TwoTrees(from, to, sf, st) && i < |sf.kids| && j < |st.kids|
    ensures Separate(sf) && WellFormed(sf) && Separate(st) && WellFormed(st)
    ensures NodesOf(sf.kids[i]) <= NodesOf(sf) && NodesOf(st.kids[j]) <= NodesOf(st)
    ensures Below(sf.kids[i].kids) <= Below(sf.kids) && Below(st.kids[j].kids) <= Below(st.kids)
    ensures sf.kids[i].node !in Below(sf.kids[i].kids) && st.kids[j].node !in Below(st.kids[j].kids)
    ensures sf.kids[i].node in NodesOf(sf) && st.kids[j].node in NodesOf(st)
    ensures Linked(sf.kids[i], false) && WellFormed(sf.kids[i]) && Linked(st.kids[j], false) && WellFormed(st.kids[j])
    ensures forall c | c in Rest(sf, i) ::
      && Holds(c, false) && c.node !in NodesOf(sf.kids[i]) && c.node in NodesOf(sf)
      && forall n | n in c.roots :: n !in Below(sf.kids[i].kids) && n in NodesOf(sf)
    ensures forall c | c in Rest(st, j) ::
      && Holds(c, false) && c.node !in NodesOf(st.kids[j]) && c.node in NodesOf(st)
      && forall n | n in c.roots :: n !in Below(st.kids[j].kids) && n in NodesOf(st)
  {
    hide Below, CellsOf, Reach, WellFormed, NodesOf;
    BeforeKid(sf, i);
    BeforeKid(st, j);
    RootApartOf(sf.kids[i]);
    RootApartOf(st.kids[j]);
  }

  lemma {:induction false} PairDiffing(patches: Node, from: Node, to: Node, sq: Shape, sf: Shape, st: Shape, i: nat, j: nat)
    requires Diffing(patches, from, to, sq, sf, st) && i < |sf.kids| && j < |st.kids|
    ensures Diffing(patches, sf.kids[i].node, st.kids[j].node, sq, sf.kids[i], st.kids[j])
  {
    hide Below, CellsOf, Reach, WellFormed, NodesOf, PatchList;
    BeforeKid(sf, i);
    BeforeKid(st, j);
  }

  lemma {:induction false} PairDone(patches: Node, x: Node, y: Node, tq: Shape, u: Shape, v: Shape)
    requires Diffing(patches, x, y, tq, u, v)
    ensures PatchList(patches, tq) && Linked(u, false) && Linked(v, false)
  {
  }

  lemma {:induction false} PairWhole(patches: Node, from: Node, to: Node, tq: Shape, tf: Shape, tt: Shape)
    requires PatchList(patches, tq) && NodesOf(tq) !! NodesOf(tf) + NodesOf(tt) && NodesOf(tf) !! NodesOf(tt)
    requires Linked(tf, false) && WellFormed(tf) && Linked(tt, false) && WellFormed(tt) && tf.node == from && tt.node == to
    ensures Diffing(patches, from, to, tq, tf, tt)
  {
  }
}
