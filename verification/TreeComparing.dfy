/** compare_json on trees of nodes: both are sorted in place on the way. */
module TreeComparing {
  import opened CStrings
  import opened JsonTree
  import opened Sorting
  import opened Equality
  import Members
  import L = Locations
  import opened Nodes
  import opened Trees
  import opened Comparing
  import opened TreeEdits
  import opened TreePointers
  import opened TreeFocus
  import opened TreeSorting
  import ObjectEdits

  // ---------- what sorting keeps

  ghost predicate SameUnder(flag: bool, a: Json, b: Json) {
    Unique(flag, a) ==> Unique(flag, b) && Same(flag, a, b)
  }

  /** Equal values, under either reading of keys for which the keys are unique. */
  ghost predicate SameValue(a: Json, b: Json) {
    SameUnder(true, a, b) && SameUnder(false, a, b)
  }

  /** The same nodes with the same data below the same root, and the same value if keys are unique. */
  ghost predicate Reordered(s: Shape, t: Shape) {
    && t.node == s.node && t.data == s.data && Below(t.kids) == Below(s.kids) && NodesOf(t) == NodesOf(s)
    && WellFormed(t) && SameValue(ValueOf(s), ValueOf(t))
  }

  lemma {:induction false} SameTransitively(flag: bool, a: Json, b: Json, c: Json)
    requires SameUnder(flag, a, b) && SameUnder(flag, b, c)
    ensures SameUnder(flag, a, c)
  {
    hide Same, Unique;
    if Unique(flag, a) { SameTransitive(flag, a, b, c); }
  }

  lemma {:induction false} SortedUnder(flag: bool, cs: bool, ms: seq<Member<Json>>)
    ensures SameUnder(flag, Object(ms), Object(MergeSort(cs, ms)))
  {
    var sorted := MergeSort(cs, ms);
    if Unique(flag, Object(ms)) {
      MergeSortPermutes(cs, ms);
      PermutedUnique(flag, ms, sorted);
      forall i | 0 <= i < |sorted| ensures Unique(flag, sorted[i].value) { InMultiset(ms, sorted, sorted[i]); }
      hide MergeSort, Fold;
      forall key: string ensures SameLookup(flag, ms, sorted, key) {
        PermutedLookup(flag, ms, sorted, key);
        if Lookup(flag, ms, key).Some? { SameReflexive(flag, Lookup(flag, ms, key).value); }
      }
      SameByLookups(flag, ms, sorted);
    }
  }

  lemma {:induction false} MemberUnder(flag: bool, ms: seq<Member<Json>>, i: nat, v: Json)
    requires i < |ms| && SameUnder(flag, ms[i].value, v)
    ensures SameUnder(flag, Object(ms), Object(ms[i := Member(ms[i].key, v)]))
  {
    var ns := ms[i := Member(ms[i].key, v)];
    if Unique(flag, Object(ms)) {
      hide Fold;
      forall key: string
        ensures var k, m := IndexOf(flag, ms, key), IndexOf(flag, ns, key);
          (k < |ms| <==> m < |ns|) && (k < |ms| ==> Same(flag, ms[k].value, ns[m].value))
      {
        var k := IndexOf(flag, ms, key);
        Members.IndexOfIs(flag, ns, key, k);
        if k < |ms| && k != i { SameReflexive(flag, ms[k].value); }
      }
      assert UniqueKeys(flag, ns);
    }
  }

  lemma {:induction false} ItemUnder(flag: bool, items: seq<Json>, i: nat, v: Json)
    requires i < |items| && SameUnder(flag, items[i], v)
    ensures SameUnder(flag, Array(items), Array(items[i := v]))
  {
    if Unique(flag, Array(items)) {
      forall k | 0 <= k < |items| ensures Same(flag, items[k], items[i := v][k]) {
        if k != i { SameReflexive(flag, items[k]); }
      }
    }
  }

  lemma {:induction false} SameValueTransitive(a: Json, b: Json, c: Json)
    requires SameValue(a, b) && SameValue(b, c)
    ensures SameValue(a, c)
  {
    SameTransitively(true, a, b, c);
    SameTransitively(false, a, b, c);
  }

  lemma {:induction false} SortedValue(cs: bool, ms: seq<Member<Json>>)
    ensures SameValue(Object(ms), Object(MergeSort(cs, ms)))
  {
    SortedUnder(true, cs, ms);
    SortedUnder(false, cs, ms);
  }

  lemma {:induction false} MemberValue(ms: seq<Member<Json>>, i: nat, v: Json)
    requires i < |ms| && SameValue(ms[i].value, v)
    ensures SameValue(Object(ms), Object(ms[i := Member(ms[i].key, v)]))
  {
    MemberUnder(true, ms, i, v);
    MemberUnder(false, ms, i, v);
  }

  lemma {:induction false} ItemValue(items: seq<Json>, i: nat, v: Json)
    requires i < |items| && SameValue(items[i], v)
    ensures SameValue(Array(items), Array(items[i := v]))
  {
    ItemUnder(true, items, i, v);
    ItemUnder(false, items, i, v);
  }

  lemma {:induction false} ReorderedTransitive(s: Shape, t: Shape, u: Shape)
    requires Reordered(s, t) && Reordered(t, u)
    ensures Reordered(s, u)
  {
    hide SameValue;
    SameValueTransitive(ValueOf(s), ValueOf(t), ValueOf(u));
  }

  lemma ReorderedItself(s: Shape)
    requires WellFormed(s)
    ensures Reordered(s, s)
  {
    SameReflexive(true, ValueOf(s));
    SameReflexive(false, ValueOf(s));
  }

  lemma {:induction false} ReorderedKid(s: Shape, i: nat, u: Shape)
    requires Separate(s) && WellFormed(s) && i < |s.kids| && Reordered(s.kids[i], u)
    ensures Reordered(s, s.(kids := s.kids[i := u]))
  {
    var t := s.(kids := s.kids[i := u]);
    PutKid(s, i, u);
    KidsReplaced(s.kids, i, u);
    KidsSplit(s.kids, i);
    NodesAre(s);
    NodesAre(t);
    hide NodesOf, Below, SameValue, Separate;
    ReorderedKidValue(s, i, u);
  }

  lemma {:induction false} ReorderedKidValue(s: Shape, i: nat, u: Shape)
    requires WellFormed(s) && i < |s.kids| && SameValue(ValueOf(s.kids[i]), ValueOf(u)) && u.data.key == s.kids[i].data.key
    ensures SameValue(ValueOf(s), ValueOf(s.(kids := s.kids[i := u])))
  {
    hide SameValue, ItemsOf, MembersOf;
    KidValues(s.kids, i, u);
    if s.data.kind.KArray? {
      ItemValue(ItemsOf(s.kids), i, ValueOf(u));
    } else {
      MemberValue(MembersOf(s.kids), i, ValueOf(u));
    }
  }

  lemma {:induction false} KidValues(kids: seq<Shape>, i: nat, u: Shape)
    requires i < |kids| && u.data.key == kids[i].data.key
    ensures ItemsOf(kids[i := u]) == ItemsOf(kids)[i := ValueOf(u)] && ItemsOf(kids)[i] == ValueOf(kids[i])
    ensures MembersOf(kids[i := u]) == MembersOf(kids)[i := Member(KeyOf(kids[i]), ValueOf(u))]
    ensures MembersOf(kids)[i] == Member(KeyOf(kids[i]), ValueOf(kids[i]))
    ensures |ItemsOf(kids)| == |MembersOf(kids)| == |kids|
  {
    hide ValueOf;
    ReplacedItems(kids, i, u);
    ReplacedMembers(kids, i, u);
  }

  // ---------- editing one child of a tree

  ghost function OneKid(s: Shape, i: nat): L.Location
    requires i < |s.kids|
    ensures IsPlace(s, OneKid(s, i)) && ShapeAt(s, OneKid(s, i)) == s.kids[i]
  {
    assert [i][1..] == [];
    [i]
  }

  lemma {:induction false} PutOneKid(s: Shape, i: nat, u: Shape)
    requires i < |s.kids|
    ensures PutShape(s, OneKid(s, i), u) == s.(kids := s.kids[i := u])
  {
  }

  ghost function Rest(s: Shape, i: nat): set<Cell>
    requires i < |s.kids|
  {
    OutsideCells(s, OneKid(s, i))
  }

  lemma BeforeKid(s: Shape, i: nat)
    requires Linked(s, false) && WellFormed(s) && i < |s.kids|
    ensures Linked(s.kids[i], false) && WellFormed(s.kids[i]) && NodesOf(s.kids[i]) <= NodesOf(s) && s.kids[i].node in NodesOf(s.kids[i])
    ensures Below(s.kids[i].kids) <= Below(s.kids) <= NodesOf(s) && NodesOf(s.kids[i]) <= Below(s.kids)
    ensures forall c | c in Rest(s, i) ::
      && Holds(c, false) && c.node !in NodesOf(s.kids[i]) && c.node in NodesOf(s)
      && forall n | n in c.roots :: n !in Below(s.kids[i].kids) && n in NodesOf(s)
  {
    var at := OneKid(s, i);
    BeforeEdit(s, at, false);
    OutsideNodes(s, at);
    KidIn(s.kids, i);
    NodesAre(s);
    NodesAre(s.kids[i]);
    SubtreeNodes(s, at);
  }

  lemma {:induction false} AfterKid(s: Shape, i: nat, u: Shape)
    requires Separate(s) && WellFormed(s) && i < |s.kids| && Linked(u, false) && Reordered(s.kids[i], u)
    requires forall c | c in Rest(s, i) :: Holds(c, false)
    ensures Linked(s.(kids := s.kids[i := u]), false) && Reordered(s, s.(kids := s.kids[i := u]))
  {
    hide NodesOf, Below;
    AfterEdit(s, OneKid(s, i), u, false);
    PutOneKid(s, i, u);
    ReorderedKid(s, i, u);
  }

  // ---------- the comparison

  /** What both trees must be to be compared, and are again afterwards. */
  ghost predicate TwoTrees(a: Node, b: Node, sa: Shape, sb: Shape)
    reads Reach(CellsOf(sa)), Reach(CellsOf(sb))
  {
    && sa.node == a && sb.node == b && NodesOf(sa) !! NodesOf(sb)
    && Linked(sa, false) && WellFormed(sa) && Linked(sb, false) && WellFormed(sb)
  }

  ghost predicate PairEqual(cs: bool, keyed: bool, x: Shape, y: Shape) {
    (keyed ==> CompareStrings(cs, KeyOf(x), KeyOf(y)) == 0) && CompareSorted(cs, ValueOf(x), ValueOf(y))
  }

  ghost predicate PairsEqualUpTo(cs: bool, keyed: bool, a: seq<Shape>, b: seq<Shape>, n: nat)
    requires n <= |a| && n <= |b|
  {
    forall i | 0 <= i < n :: PairEqual(cs, keyed, a[i], b[i])
  }

  /** compare_json: the relation CompareSorted, at the cost of a new order of the members. */
  method CompareJson(a: Node, b: Node, cs: bool, ghost sa: Shape, ghost sb: Shape)
    returns (equal: bool, ghost ta: Shape, ghost tb: Shape)
    requires TwoTrees(a, b, sa, sb)
    modifies (NodesOf(sa) + NodesOf(sb))`child, (Below(sa.kids) + Below(sb.kids))`next, (Below(sa.kids) + Below(sb.kids))`prev
    ensures TwoTrees(a, b, ta, tb) && Reordered(sa, ta) && Reordered(sb, tb)
    ensures equal <==> CompareSorted(cs, ValueOf(sa), ValueOf(sb))
    decreases Nesting(ValueOf(sa)), 2
  {
    hide NodesOf, Below, CellsOf, Reach, WellFormed, ValueOf, Linked, Reordered, CompareSorted, SortedKids, Nesting;
    ta, tb := sa, sb;
    TreesAre(a, b, sa, sb);
    ReorderedItself(sa);
    ReorderedItself(sb);
    SortedCases(cs, sa, sb);
    if a.kind != b.kind {
      return false, ta, tb;
    }
    match a.kind
    case KNumber => return a.number == b.number, ta, tb;
    case KString => return a.valuestring == b.valuestring, ta, tb;
    case KArray =>
      KidsNest(cs, sa);
      equal, ta, tb := ComparePairs(a, b, cs, false, sa, sb, Nesting(ValueOf(sa)));
    case KObject =>
      KidsNest(cs, sa);
      ghost var ua := SortFirst(a, b, cs, sa, sb);
      SameNodes(sa, ua);
      ghost var ub := SortFirst(b, a, cs, sb, ua);
      SameNodes(sb, ub);
      equal, ta, tb := ComparePairs(a, b, cs, true, ua, ub, Nesting(ValueOf(sa)));
      ReorderedTransitive(sa, ua, ta);
      ReorderedTransitive(sb, ub, tb);
    case _ => return true, ta, tb;
  }

  lemma {:induction false} TreesAre(a: Node, b: Node, sa: Shape, sb: Shape)
    requires TwoTrees(a, b, sa, sb)
    ensures IsTree(sa) && IsTree(sb) && HasData(a, sa.data) && HasData(b, sb.data)
    ensures WellFormed(sa) && WellFormed(sb) && !sa.data.kind.KInvalid?
    ensures a in NodesOf(sa) && b in NodesOf(sb) && sa.node == a && sb.node == b
  {
    OwnCell(sa, false);
    OwnCell(sb, false);
    NodesAre(sa);
    NodesAre(sb);
  }

  /** What the comparison comes down to for each kind of item. */
  lemma {:induction false} SortedCases(cs: bool, sa: Shape, sb: Shape)
    requires WellFormed(sa) && WellFormed(sb)
    ensures var (x, y, p, q) := (ValueOf(sa), ValueOf(sb), sa.data, sb.data);
      && (p.kind != q.kind ==> !CompareSorted(cs, x, y))
      && (p.kind == q.kind ==>
            match p.kind
            case KNumber => CompareSorted(cs, x, y) <==> p.number == q.number
            case KString => CompareSorted(cs, x, y) <==> p.text == q.text
            case KArray => CompareSorted(cs, x, y) <==>
              |sa.kids| == |sb.kids| && PairsEqualUpTo(cs, false, sa.kids, sb.kids, |sa.kids|)
            case KObject => CompareSorted(cs, x, y) <==>
              |sa.kids| == |sb.kids|
              && PairsEqualUpTo(cs, true, SortedKids(cs, sa.kids), SortedKids(cs, sb.kids), |sa.kids|)
            case _ => CompareSorted(cs, x, y))
  {
    if sa.data.kind != sb.data.kind || !(sa.data.kind.KArray? || sa.data.kind.KObject?) {
      SortedScalars(cs, sa, sb);
    } else if sa.data.kind.KArray? {
      SortedArrays(cs, sa, sb);
    } else {
      SortedObjects(cs, sa, sb);
    }
    hide CompareSorted, ValueOf, SortedKids;
  }

  lemma {:induction false} SortedScalars(cs: bool, sa: Shape, sb: Shape)
    requires WellFormed(sa) && WellFormed(sb)
    ensures var (x, y, p, q) := (ValueOf(sa), ValueOf(sb), sa.data, sb.data);
      && (p.kind != q.kind ==> !CompareSorted(cs, x, y))
      && (p.kind == q.kind ==>
            match p.kind
            case KNumber => CompareSorted(cs, x, y) <==> p.number == q.number
            case KString => CompareSorted(cs, x, y) <==> p.text == q.text
            case KArray => true
            case KObject => true
            case _ => CompareSorted(cs, x, y))
  {
    hide MembersOf, ItemsOf, Nesting, MergeSort;
  }

  lemma {:induction false} SortedArrays(cs: bool, sa: Shape, sb: Shape)
    requires sa.data.kind.KArray? && sb.data.kind.KArray?
    ensures CompareSorted(cs, ValueOf(sa), ValueOf(sb)) <==>
      |sa.kids| == |sb.kids| && PairsEqualUpTo(cs, false, sa.kids, sb.kids, |sa.kids|)
  {
    var x, y := ValueOf(sa), ValueOf(sb);
    assert x.items == ItemsOf(sa.kids) && y.items == ItemsOf(sb.kids);
    hide ValueOf;
    assert CompareSorted(cs, x, y) <==> |x.items| == |y.items| && forall i | 0 <= i < |x.items| :: CompareSorted(cs, x.items[i], y.items[i]);
    hide CompareSorted;
    assert |sa.kids| == |sb.kids| ==>
      forall i | 0 <= i < |sa.kids| :: PairEqual(cs, false, sa.kids[i], sb.kids[i]) <==> CompareSorted(cs, x.items[i], y.items[i]);
  }

  lemma {:induction false} SortedObjects(cs: bool, sa: Shape, sb: Shape)
    requires sa.data.kind.KObject? && sb.data.kind.KObject?
    ensures CompareSorted(cs, ValueOf(sa), ValueOf(sb)) <==>
      |sa.kids| == |sb.kids|
      && PairsEqualUpTo(cs, true, SortedKids(cs, sa.kids), SortedKids(cs, sb.kids), |sa.kids|)
  {
    ObjectValue(sa);
    ObjectValue(sb);
    SortedValues(cs, sa.kids);
    SortedValues(cs, sb.kids);
    hide ValueOf, SortedKids, MergeSort, CompareSorted, AllPairs, PairsEqualUpTo;
    ZippedObjects(cs, ValueOf(sa), ValueOf(sb));
    KidPairs(cs, SortedKids(cs, sa.kids), SortedKids(cs, sb.kids));
  }

  lemma {:induction false} KidPairs(cs: bool, a: seq<Shape>, b: seq<Shape>)
    ensures AllPairs(cs, MembersOf(a), MembersOf(b)) <==> |a| == |b| && PairsEqualUpTo(cs, true, a, b, |a|)
  {
    hide ValueOf, CompareSorted, CompareStrings, MembersOf, KeyOf;
    assert |a| == |b| ==>
      forall i | 0 <= i < |a| :: PairEqual(cs, true, a[i], b[i]) <==> MemberPair(cs, MembersOf(a)[i], MembersOf(b)[i]);
  }

  ghost predicate MemberPair(cs: bool, m: Member<Json>, n: Member<Json>) {
    CompareStrings(cs, m.key, n.key) == 0 && CompareSorted(cs, m.value, n.value)
  }

  ghost predicate AllPairs(cs: bool, ms: seq<Member<Json>>, ns: seq<Member<Json>>) {
    |ms| == |ns| && forall i | 0 <= i < |ms| :: MemberPair(cs, ms[i], ns[i])
  }

  lemma {:induction false} ZippedObjects(cs: bool, x: Json, y: Json)
    requires x.Object? && y.Object?
    ensures CompareSorted(cs, x, y) <==> AllPairs(cs, MergeSort(cs, x.members), MergeSort(cs, y.members))
  {
    hide Nesting, MergeSort, CompareStrings;
    var (ms, ns) := (MergeSort(cs, x.members), MergeSort(cs, y.members));
    if |x.members| == |y.members| {
      if i :| 0 <= i < |ms| && !MemberPair(cs, ms[i], ns[i]) {
        assert CompareStrings(cs, ms[i].key, ns[i].key) != 0 || !CompareSorted(cs, ms[i].value, ns[i].value);
        assert !CompareSorted(cs, x, y);
      } else {
        forall i | 0 <= i < |ms| ensures CompareStrings(cs, ms[i].key, ns[i].key) == 0 && CompareSorted(cs, ms[i].value, ns[i].value) {
          assert MemberPair(cs, ms[i], ns[i]);
        }
        assert CompareSorted(cs, x, y);
      }
    }
  }

  lemma KidsNest(cs: bool, s: Shape)
    requires s.data.kind.KArray? || s.data.kind.KObject?
    ensures forall i | 0 <= i < |s.kids| :: Nesting(ValueOf(s.kids[i])) < Nesting(ValueOf(s))
    ensures forall i | 0 <= i < |s.kids| :: Nesting(ValueOf(SortedKids(cs, s.kids)[i])) < Nesting(ValueOf(s))
  {
    forall i | 0 <= i < |s.kids| ensures Nesting(ValueOf(s.kids[i])) < Nesting(ValueOf(s)) { KidNesting(s, i); }
    hide ValueOf, SortedKids, Nesting;
    forall i | 0 <= i < |s.kids| ensures Nesting(ValueOf(SortedKids(cs, s.kids)[i])) < Nesting(ValueOf(s)) {
      SortedKidAt(cs, s.kids, i);
    }
  }

  /** sort_object on one of the two trees. */
  method SortFirst(a: Node, b: Node, cs: bool, ghost sa: Shape, ghost sb: Shape) returns (ghost ta: Shape)
    requires TwoTrees(a, b, sa, sb) && sa.data.kind.KObject?
    modifies a`child, Below(sa.kids)`next, Below(sa.kids)`prev
    ensures ta == sa.(kids := SortedKids(cs, sa.kids)) && TwoTrees(a, b, ta, sb) && TwoTrees(b, a, sb, ta)
    ensures Reordered(sa, ta)
  {
    hide NodesOf, Below, CellsOf, Reach, WellFormed, Linked, SortedKids, TwoTrees, Reordered, MergeSort;
    assert allocated(Reach(CellsOf(sb)));
    ApartFrom(a, b, sa, sb);
    LinkedIsSeparate(sa);
    ta := SortKids(a, cs, sa);
    assert Linked(sb, false);
    ReorderedSort(cs, sa);
    TwoAgain(cs, a, b, sa, sb, ta);
  }

  lemma {:induction false} ApartFrom(a: Node, b: Node, sa: Shape, sb: Shape)
    requires TwoTrees(a, b, sa, sb)
    ensures a !in Reach(CellsOf(sb)) && Below(sa.kids) !! Reach(CellsOf(sb))
    ensures sa.node == a && sb.node == b && NodesOf(sa) !! NodesOf(sb)
    ensures Linked(sa, false) && WellFormed(sa) && Linked(sb, false) && WellFormed(sb)
  {
    ObjectEdits.WholeReach(sb);
    NodesAre(sa);
  }

  lemma {:induction false} TwoAgain(cs: bool, a: Node, b: Node, sa: Shape, sb: Shape, ta: Shape)
    requires Linked(ta, false) && Reordered(sa, ta) && sa.node == a
    requires sb.node == b && NodesOf(sa) !! NodesOf(sb) && Linked(sb, false) && WellFormed(sb)
    ensures TwoTrees(a, b, ta, sb) && TwoTrees(b, a, sb, ta)
  {
    hide Linked, NodesOf, Below, SameValue;
  }

  lemma ReorderedSort(cs: bool, s: Shape)
    requires Separate(s) && WellFormed(s) && s.data.kind.KObject?
    ensures Reordered(s, s.(kids := SortedKids(cs, s.kids)))
  {
    var t := s.(kids := SortedKids(cs, s.kids));
    assert SeparateKids(s.kids);
    ObjectValue(s);
    ObjectValue(t);
    NodesAre(s);
    NodesAre(t);
    hide SortedKids, NodesOf, Below, MergeSort, SameValue, WellFormed, CellsBelow, SeparateKids, Separate, ValueOf, MembersOf;
    SortedPermutes(cs, s.kids);
    PermutedSeparate(s.kids, t.kids);
    SortedValues(cs, s.kids);
    WellFormedSorted(cs, s);
    SortedValue(cs, MembersOf(s.kids));
  }

  /** The loop over two lists of children, which compares keys as well in objects. */
  method ComparePairs(a: Node, b: Node, cs: bool, keyed: bool, ghost sa: Shape, ghost sb: Shape, ghost bound: nat)
    returns (equal: bool, ghost ta: Shape, ghost tb: Shape)
    requires TwoTrees(a, b, sa, sb) && (keyed ==> sa.data.kind.KObject? && sb.data.kind.KObject?)
    requires forall i | 0 <= i < |sa.kids| :: Nesting(ValueOf(sa.kids[i])) < bound
    modifies (NodesOf(sa) + NodesOf(sb))`child, (Below(sa.kids) + Below(sb.kids))`next, (Below(sa.kids) + Below(sb.kids))`prev
    ensures TwoTrees(a, b, ta, tb) && Reordered(sa, ta) && Reordered(sb, tb)
    ensures equal <==> |sa.kids| == |sb.kids| && PairsEqualUpTo(cs, keyed, sa.kids, sb.kids, |sa.kids|)
    decreases bound, 1
  {
    hide NodesOf, Below, CellsOf, Reach, WellFormed, ValueOf, Linked, Reordered, PairEqual, TwoTrees, CompareStrings;
    ta, tb := sa, sb;
    TreesAre(a, b, sa, sb);
    ReorderedItself(sa);
    ReorderedItself(sb);
    FirstKid(sa);
    FirstKid(sb);
    var x, y := a.child, b.child;
    ghost var i := 0;
    while x != null && y != null
      invariant TwoTrees(a, b, ta, tb) && Reordered(sa, ta) && Reordered(sb, tb)
      invariant i <= |sa.kids| == |ta.kids| && i <= |sb.kids| == |tb.kids|
      invariant x == (if i < |sa.kids| then sa.kids[i].node else null)
      invariant y == (if i < |sb.kids| then sb.kids[i].node else null)
      invariant forall k | i <= k < |ta.kids| :: ta.kids[k] == sa.kids[k]
      invariant forall k | i <= k < |tb.kids| :: tb.kids[k] == sb.kids[k]
      invariant PairsEqualUpTo(cs, keyed, sa.kids, sb.kids, i)
      decreases |sa.kids| - i
    {
      SameNodes(sa, ta);
      SameNodes(sb, tb);
      PairTest(cs, keyed, a, b, ta, tb, i);
      if keyed && CompareStrings(cs, x.key.value, y.key.value) != 0 {
        return false, ta, tb;
      }
      var same;
      ghost var u, v;
      same, u, v := ComparePair(x, y, cs, ta, tb, i, i);
      ghost var ua, ub := ta.(kids := ta.kids[i := u]), tb.(kids := tb.kids[i := v]);
      ReorderedTransitive(sa, ta, ua);
      ReorderedTransitive(sb, tb, ub);
      ta, tb := ua, ub;
      if !same {
        return false, ta, tb;
      }
      x, y := x.next, y.next;
      i := i + 1;
    }
    equal := x == null && y == null;
  }

  lemma {:induction false} PairTest(cs: bool, keyed: bool, a: Node, b: Node, ta: Shape, tb: Shape, i: nat)
    requires TwoTrees(a, b, ta, tb) && (keyed ==> ta.data.kind.KObject? && tb.data.kind.KObject?)
    requires i < |ta.kids| && i < |tb.kids|
    ensures var (x, y) := (ta.kids[i], tb.kids[i]);
      && x.node.next == (if i + 1 < |ta.kids| then ta.kids[i + 1].node else null)
      && y.node.next == (if i + 1 < |tb.kids| then tb.kids[i + 1].node else null)
      && (keyed ==> x.node.key.Some? && y.node.key.Some?)
      && (PairEqual(cs, keyed, x, y) <==>
            (keyed ==> CompareStrings(cs, x.node.key.value, y.node.key.value) == 0)
            && CompareSorted(cs, ValueOf(x), ValueOf(y)))
  {
    hide CompareStrings, CompareSorted;
    TreesAre(a, b, ta, tb);
    NextKid(ta, i);
    NextKid(tb, i);
    if keyed {
      KeyTest(ta, cs, "", i);
      KeyTest(tb, cs, "", i);
    }
  }

  /** One pair of children. */
  method ComparePair(x: Node, y: Node, cs: bool, ghost sa: Shape, ghost sb: Shape, ghost i: nat, ghost j: nat)
    returns (equal: bool, ghost u: Shape, ghost v: Shape)
    requires TwoTrees(sa.node, sb.node, sa, sb) && i < |sa.kids| && j < |sb.kids| && x == sa.kids[i].node && y == sb.kids[j].node
    modifies (NodesOf(sa) + NodesOf(sb))`child, (Below(sa.kids) + Below(sb.kids))`next, (Below(sa.kids) + Below(sb.kids))`prev
    ensures var ta, tb := sa.(kids := sa.kids[i := u]), sb.(kids := sb.kids[j := v]);
      TwoTrees(sa.node, sb.node, ta, tb) && Reordered(sa, ta) && Reordered(sb, tb)
    ensures u.node == x && v.node == y && u.data == sa.kids[i].data && v.data == sb.kids[j].data
    ensures Reordered(sa.kids[i], u) && Reordered(sb.kids[j], v)
    ensures x.next == old(x.next) && y.next == old(y.next)
    ensures equal <==> CompareSorted(cs, ValueOf(sa.kids[i]), ValueOf(sb.kids[j]))
    decreases Nesting(ValueOf(sa.kids[i])), 3
  {
    hide NodesOf, Below, CellsOf, Reach, WellFormed, ValueOf, Linked, OutsideCells, Reordered, CompareSorted, Rest;
    BeforeKid(sa, i);
    BeforeKid(sb, j);
    LinkedIsSeparate(sa);
    LinkedIsSeparate(sb);
    RootApartOf(sa.kids[i]);
    RootApartOf(sb.kids[j]);
    assert allocated(Rest(sa, i)) && allocated(Rest(sb, j));
    equal, u, v := CompareJson(x, y, cs, sa.kids[i], sb.kids[j]);
    forall c | c in Rest(sa, i) ensures Holds(c, false) {
      assert old(Holds(c, false));
    }
    forall c | c in Rest(sb, j) ensures Holds(c, false) {
      assert old(Holds(c, false));
    }
    AfterKid(sa, i, u);
    AfterKid(sb, j, v);
    SameNodes(sa.kids[i], u);
    SameNodes(sb.kids[j], v);
    SameNodes(sa, sa.(kids := sa.kids[i := u]));
    SameNodes(sb, sb.(kids := sb.kids[j := v]));
  }

  lemma RootApartOf(s: Shape)
    requires Linked(s, false)
    ensures s.node !in Below(s.kids)
  {
  }

  lemma LinkedIsSeparate(s: Shape)
    requires Linked(s, false)
    ensures Separate(s)
  {
  }

  lemma {:induction false} SameNodes(s: Shape, t: Shape)
    requires Reordered(s, t)
    ensures NodesOf(t) == NodesOf(s) && t.node == s.node && WellFormed(t) && Below(t.kids) == Below(s.kids) && t.data == s.data
  {
  }
}
