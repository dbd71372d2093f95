/** Generating patches and applying them, on linked nodes from beginning to end. */
module TreeRoundTrip {
  import opened CStrings
  import opened JsonTree
  import opened Numbers
  import opened Equality
  import opened Pointers
  import P = Patches
  import opened PatchRoundTrip
  import opened Nodes
  import opened Trees
  import opened Comparing
  import opened TreeEdits
  import opened ObjectEdits
  import opened TreeSorting
  import opened TreeComparing
  import opened TreeDiff
  import opened TreePatches

  // ---------- what the generated patches are like

  lemma {:induction false} EncodedIsText(name: string)
    requires NulFree(name)
    ensures NulFree(Encode(name))
  {
    if name != "" {
      assert name[0] in name;
      assert forall c | c in name[1..] :: c in name;
      EncodedIsText(name[1..]);
    }
  }

  lemma ChildPathIsText(path: string, name: string)
    requires NulFree(path) && NulFree(name)
    ensures NulFree(P.ChildPath(path, name))
  {
    EncodedIsText(name);
  }

  lemma DecimalIsText(i: nat)
    ensures NulFree(Decimal(i)) && NulFree("-")
  {
    assert forall c | c in Decimal(i) :: IsDigit(c);
  }

  /** Paths and values that are C strings throughout. */
  ghost predicate TextEdits(edits: seq<P.Edit>) {
    forall i | 0 <= i < |edits| :: NulFree(edits[i].path) && (edits[i].value.Some? ==> IsCText(edits[i].value.value))
  }

  ghost predicate TextMembers(ms: seq<Member<Json>>) {
    forall m | m in ms :: NulFree(m.key) && IsCText(m.value)
  }

  lemma {:induction false} SortedIsText(cs: bool, ms: seq<Member<Json>>)
    requires IsCText(Object(ms))
    ensures TextMembers(P.SortedMembers(cs, ms))
  {
    var s := P.SortedMembers(cs, ms);
    hide P.SortedMembers;
    forall m | m in s ensures NulFree(m.key) && IsCText(m.value) {
      var i :| 0 <= i < |s| && s[i] == m;
      var j :| 0 <= j < |ms| && ms[j] == m;
    }
  }

  lemma {:induction false} PatchesAreText(cs: bool, path: string, from: Json, to: Json)
    requires NulFree(path) && IsCText(from) && IsCText(to)
    ensures TextEdits(P.CreatePatches(cs, path, from, to))
    decreases from, 1, 0
  {
    if P.SameKind(from, to) && from.Array? {
      ArrayPatchesAreText(cs, path, from, to, 0);
    } else if P.SameKind(from, to) && from.Object? {
      SortedIsText(cs, from.members);
      SortedIsText(cs, to.members);
      ObjectPatchesAreText(cs, path, from, P.SortedMembers(cs, from.members), P.SortedMembers(cs, to.members));
    }
  }

  lemma {:induction false} ArrayPatchesAreText(cs: bool, path: string, from: Json, to: Json, i: nat)
    requires from.Array? && to.Array? && i <= Max(|from.items|, |to.items|)
    requires NulFree(path) && IsCText(from) && IsCText(to)
    ensures TextEdits(P.ArrayPatches(cs, path, from, to, i))
    decreases from, 0, Max(|from.items|, |to.items|) - i
  {
    hide P.CreatePatches, P.ChildPath, Decimal;
    DecimalIsText(i);
    DecimalIsText(|to.items|);
    if i < |from.items| && i < |to.items| {
      PatchesAreText(cs, path + "/" + Decimal(i), from.items[i], to.items[i]);
      ArrayPatchesAreText(cs, path, from, to, i + 1);
    } else if i < |from.items| {
      ChildPathIsText(path, Decimal(|to.items|));
      ArrayPatchesAreText(cs, path, from, to, i + 1);
    } else if i < |to.items| {
      ChildPathIsText(path, "-");
      ArrayPatchesAreText(cs, path, from, to, i + 1);
    }
  }

  lemma {:induction false} ObjectPatchesAreText(cs: bool, path: string, from: Json, fs: seq<Member<Json>>, ts: seq<Member<Json>>)
    requires from.Object? && forall i | 0 <= i < |fs| :: fs[i] in from.members
    requires NulFree(path) && TextMembers(fs) && TextMembers(ts)
    ensures TextEdits(P.ObjectPatches(cs, path, from, fs, ts))
    decreases from, 0, |fs| + |ts|
  {
    hide P.CreatePatches, P.ChildPath, CompareStrings, IsCText;
    if fs != [] || ts != [] {
      var diff := if fs == [] then 1 else if ts == [] then -1 else CompareStrings(cs, fs[0].key, ts[0].key);
      if diff == 0 {
        assert fs[0] in fs && ts[0] in ts && fs[0] in from.members;
        ChildPathIsText(path, fs[0].key);
        PatchesAreText(cs, P.ChildPath(path, fs[0].key), fs[0].value, ts[0].value);
        ObjectPatchesAreText(cs, path, from, fs[1..], ts[1..]);
      } else if diff < 0 {
        assert fs[0] in fs;
        ChildPathIsText(path, fs[0].key);
        ObjectPatchesAreText(cs, path, from, fs[1..], ts);
      } else {
        assert ts[0] in ts;
        ChildPathIsText(path, ts[0].key);
        ObjectPatchesAreText(cs, path, from, fs, ts[1..]);
      }
    }
  }

  lemma DocumentIsPatch(cs: bool, e: P.Edit)
    requires NulFree(e.path) && (e.value.Some? ==> IsCText(e.value.value))
    ensures IsCText(P.PatchDocument(e)) && !IsTest(cs, P.PatchDocument(e))
  {
    var d := P.PatchDocument(e);
    assert IsCText(String(P.ChangeName(e.op)));
    assert KeyEq(cs, d.members[0].key, "op");
    assert IndexOf(cs, d.members, "op") == 0;
  }

  lemma {:induction false} DocumentsAreApplicable(cs: bool, edits: seq<P.Edit>)
    requires TextEdits(edits)
    ensures Applicable(cs, P.Documents(edits))
  {
    hide P.PatchDocument, IsCText, IsTest;
    if edits != [] {
      DocumentIsPatch(cs, edits[0]);
      DocumentsAreApplicable(cs, edits[1..]);
      var rest := P.Documents(edits[1..]);
      assert forall i | 0 < i < |edits| :: P.Documents(edits)[i] == rest[i - 1];
    }
  }

  /** Patches that all succeed and leave a document never removed its root. */
  lemma {:induction false} SuccessKeepsRoot(cs: bool, doc: Json, patches: seq<Json>)
    requires P.ApplyAll(cs, doc, patches).status == 0 && P.ApplyAll(cs, doc, patches).doc.Some?
    ensures KeepsRoot(cs, doc, patches)
    decreases |patches|
  {
    hide P.ApplyPatch;
    if patches != [] {
      var first := P.ApplyPatch(cs, doc, patches[0]);
      SuccessKeepsRoot(cs, first.doc.value, patches[1..]);
    }
  }

  // ---------- on nodes

  /** cJSONUtils_GeneratePatches: a new tree that holds the generated patches. */
  method GeneratePatchesOn(from: Node, to: Node, cs: bool, ghost sf: Shape, ghost st: Shape)
    returns (patches: Node, ghost tq: Shape, ghost tf: Shape, ghost tt: Shape)
    requires TwoTrees(from, to, sf, st)
    modifies (NodesOf(sf) + NodesOf(st))`child, (Below(sf.kids) + Below(st.kids))`next, (Below(sf.kids) + Below(st.kids))`prev
    ensures Diffing(patches, from, to, tq, tf, tt) && fresh(NodesOf(tq))
    ensures Reordered(sf, tf) && Reordered(st, tt)
    ensures ValueOf(tq) == P.GeneratePatches(cs, ValueOf(sf), ValueOf(st))
  {
    hide NodesOf, Below, CellsOf, Reach, ValueOf, Linked, WellFormed, Reordered, TwoTrees, P.CreatePatches, P.Documents, Diffing;
    ghost var sq;
    ApartNodes(from, to, sf, st);
    assert allocated(NodesOf(sf)) && allocated(NodesOf(st)) && allocated(Reach(CellsOf(sf))) && allocated(Reach(CellsOf(st)));
    patches, sq := NewItem(KArray, "");
    assert TwoTrees(from, to, sf, st);
    EmptyList(patches, sq);
    DiffAgain(patches, from, to, sq, sf, st);
    ListApart(patches, from, to, sq, sf, st);
    tq, tf, tt := CreatePatchesOn(patches, "", from, to, cs, sq, sf, st);
    ListValue(patches, from, to, sq, tq, tf, tt, P.CreatePatches(cs, "", ValueOf(sf), ValueOf(st)));
  }

  lemma {:induction false} ApartNodes(from: Node, to: Node, sf: Shape, st: Shape)
    requires TwoTrees(from, to, sf, st)
    ensures NodesOf(sf) !! NodesOf(st)
  {
  }

  lemma EmptyList(patches: Node, sq: Shape)
    requires Loose(sq) && sq == Shape(patches, Data(KArray, "", 0, None), [])
    ensures PatchList(patches, sq) && ItemsOf(sq.kids) == []
  {
  }

  lemma {:induction false} ListValue(patches: Node, from: Node, to: Node, sq: Shape, tq: Shape, tf: Shape, tt: Shape, edits: seq<P.Edit>)
    requires Diffing(patches, from, to, tq, tf, tt) && ItemsOf(sq.kids) == [] && Grown(sq, tq, edits)
    ensures ValueOf(tq) == Array(P.Documents(edits))
  {
    assert [] + P.Documents(edits) == P.Documents(edits);
    hide P.Documents;
  }

  /** What the round trip needs of the two values. */
  ghost predicate RoundTrips(cs: bool, from: Json, to: Json) {
    && Unique(cs, from) && Unique(cs, to) && EditsLandAnywhere(cs, from, to)
    && IsCText(from) && IsCText(to)
  }

  /**
   Patches are generated, which sorts both trees; applied to a duplicate of `from` as it is then, they all
   succeed and turn it into a tree that equals `to` up to member order.
   */
  method DiffThenPatch(from: Node, to: Node, cs: bool, ghost sf: Shape, ghost st: Shape)
    returns (status: nat, doc: Node, ghost td: Shape)
    requires TwoTrees(from, to, sf, st) && RoundTrips(cs, ValueOf(sf), ValueOf(st))
    modifies (NodesOf(sf) + NodesOf(st))`child, (Below(sf.kids) + Below(st.kids))`next, (Below(sf.kids) + Below(st.kids))`prev
    ensures status == 0 && td.node == doc && Loose(td) && fresh(doc)
    ensures Same(cs, ValueOf(td), ValueOf(st))
  {
    hide NodesOf, Below, CellsOf, Reach, ValueOf, Linked, WellFormed, Reordered, TwoTrees, Diffing, IsTree, P.GeneratePatches;
    hide Applicable, KeepsRoot, P.ApplyPatches, Unique, Same, Loose, Leaves, ItemsOf;
    var patches;
    ghost var tq, tf, tt, sd;
    patches, tq, tf, tt := GeneratePatchesOn(from, to, cs, sf, st);
    DiffParts(patches, from, to, tq, tf, tt);
    PatchesTree(patches, tq);
    assert allocated(Reach(CellsOf(tq))) && allocated(NodesOf(tq));
    doc, sd := DuplicateTree(from, tf);
    assert IsTree(tq);
    NodesAre(sd);
    ReadyToApply(cs, sf, st, tf, sd, tq);
    status, td := ApplyAllOn(doc, patches, cs, sd, tq);
    Applied(cs, doc, td, status, P.ApplyPatches(cs, ValueOf(sd), ValueOf(tq)), ValueOf(st));
  }

  lemma PatchesTree(patches: Node, tq: Shape)
    requires PatchList(patches, tq)
    ensures IsTree(tq) && tq.node == patches && ValueOf(tq) == Array(ItemsOf(tq.kids))
  {
  }

  /** The duplicate is a document that the generated patches apply to. */
  lemma {:induction false} ReadyToApply(cs: bool, sf: Shape, st: Shape, tf: Shape, sd: Shape, tq: Shape)
    requires RoundTrips(cs, ValueOf(sf), ValueOf(st)) && Reordered(sf, tf) && ValueOf(sd) == ValueOf(tf)
    requires ValueOf(tq) == P.GeneratePatches(cs, ValueOf(sf), ValueOf(st)) && ValueOf(tq) == Array(ItemsOf(tq.kids))
    ensures Applicable(cs, ItemsOf(tq.kids)) && KeepsRoot(cs, ValueOf(sd), ItemsOf(tq.kids))
    ensures Achieves(cs, P.ApplyPatches(cs, ValueOf(sd), ValueOf(tq)), ValueOf(st))
  {
    var (f, t, d) := (ValueOf(sf), ValueOf(st), ValueOf(sd));
    assert SameValue(f, d);
    hide ValueOf, NodesOf, Below, ItemsOf, WellFormed, IsCText, Unique, Same, EditsLandAnywhere, EditsLand, P.CreatePatches, P.ApplyAll, P.Documents;
    if cs { SameSymmetric(true, f, d); } else { SameSymmetric(false, f, d); }
    LandsInAnyOrder(cs, d, f, t);
    PatchesRoundTrip(cs, d, f, t);
    PatchesAreText(cs, "", f, t);
    DocumentsAreApplicable(cs, P.CreatePatches(cs, "", f, t));
    SuccessKeepsRoot(cs, d, ItemsOf(tq.kids));
  }

  lemma {:induction false} Applied(cs: bool, doc: Node, td: Shape, status: nat, r: P.Outcome, to: Json)
    requires Leaves(doc, td, status, r) && Achieves(cs, r, to)
    ensures status == 0 && td.node == doc && Loose(td) && Same(cs, ValueOf(td), to)
  {
  }
}
