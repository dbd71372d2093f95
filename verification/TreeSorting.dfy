/** sort_object on trees of nodes, and what sorting does to the values they stand for. */
module TreeSorting {
  import opened CStrings
  import opened JsonTree
  import opened Sorting
  import opened Equality
  import opened Nodes
  import opened Trees
  import opened Comparing
  import SortLists
  import TreeEdits

  // ---------- the sort only looks at keys

  function Renamed<T, U>(f: T -> U, s: seq<Member<T>>): (r: seq<Member<U>>)
    ensures |r| == |s| && forall i | 0 <= i < |s| :: r[i] == Member(s[i].key, f(s[i].value))
  {
    seq(|s|, i requires 0 <= i < |s| => Member(s[i].key, f(s[i].value)))
  }

  lemma RenamedParts<T, U>(f: T -> U, s: seq<Member<T>>, k: nat)
    requires k <= |s|
    ensures Renamed(f, s)[..k] == Renamed(f, s[..k]) && Renamed(f, s)[k..] == Renamed(f, s[k..])
  {
  }

  lemma {:induction false} RenamedCons<T, U>(f: T -> U, m: Member<T>, s: seq<Member<T>>)
    ensures Renamed(f, [m] + s) == [Member(m.key, f(m.value))] + Renamed(f, s)
  {
  }

  lemma {:induction false} MergeRenamed<T, U>(cs: bool, f: T -> U, a: seq<Member<T>>, b: seq<Member<T>>)
    ensures Merge(cs, Renamed(f, a), Renamed(f, b)) == Renamed(f, Merge(cs, a, b))
  {
    if a != [] && b != [] {
      RenamedParts(f, a, 1);
      RenamedParts(f, b, 1);
      if CompareStrings(cs, a[0].key, b[0].key) < 0 {
        MergeRenamed(cs, f, a[1..], b);
        RenamedCons(f, a[0], Merge(cs, a[1..], b));
      } else {
        MergeRenamed(cs, f, a, b[1..]);
        RenamedCons(f, b[0], Merge(cs, a, b[1..]));
      }
      hide Renamed, CompareStrings;
    }
  }

  /** Sorting commutes with replacing the values. */
  lemma {:induction false} SortRenamed<T, U>(cs: bool, f: T -> U, s: seq<Member<T>>)
    ensures MergeSort(cs, Renamed(f, s)) == Renamed(f, MergeSort(cs, s))
    decreases |s|
  {
    hide CompareStrings, Merge;
    var r := Renamed(f, s);
    SameOrder(cs, f, s);
    assert |s| <= 1 ==> Ascending(cs, s);
    hide Ascending;
    if !Ascending(cs, s) {
      var middle := (|s| + 1) / 2;
      RenamedParts(f, s, middle);
      hide Renamed;
      SortRenamed(cs, f, s[..middle]);
      SortRenamed(cs, f, s[middle..]);
      MergeRenamed(cs, f, MergeSort(cs, s[..middle]), MergeSort(cs, s[middle..]));
    }
  }

  lemma SameOrder<T, U>(cs: bool, f: T -> U, s: seq<Member<T>>)
    ensures Ascending(cs, Renamed(f, s)) <==> Ascending(cs, s)
  {
    hide CompareStrings;
  }

  // ---------- children in key order

  function KidMembers(kids: seq<Shape>): (r: seq<Member<Shape>>)
    ensures |r| == |kids| && forall i | 0 <= i < |kids| :: r[i] == Member(KeyOf(kids[i]), kids[i])
  {
    seq(|kids|, i requires 0 <= i < |kids| => Member(KeyOf(kids[i]), kids[i]))
  }

  function SortedKids(cs: bool, kids: seq<Shape>): (r: seq<Shape>)
    ensures |r| == |kids|
  {
    var ms := MergeSort(cs, KidMembers(kids));
    seq(|ms|, i requires 0 <= i < |ms| => ms[i].value)
  }

  /** The sorted children are the children, each with its own key. */
  lemma SortedKidAt(cs: bool, kids: seq<Shape>, i: nat)
    requires i < |kids|
    ensures SortedKids(cs, kids)[i] in kids
    ensures MergeSort(cs, KidMembers(kids))[i] == Member(KeyOf(SortedKids(cs, kids)[i]), SortedKids(cs, kids)[i])
  {
    SortedMember(cs, KidMembers(kids), i);
    hide MergeSort, KeyOf;
    var m := MergeSort(cs, KidMembers(kids))[i];
    var j :| 0 <= j < |kids| && KidMembers(kids)[j] == m;
    assert kids[j] == m.value;
  }

  function NodeOf(s: Shape): Node {
    s.node
  }

  function Keyed(kids: seq<Shape>): SortLists.Keyed {
    Renamed(NodeOf, KidMembers(kids))
  }

  lemma SortedValues(cs: bool, kids: seq<Shape>)
    ensures MembersOf(SortedKids(cs, kids)) == MergeSort(cs, MembersOf(kids))
    ensures Keyed(SortedKids(cs, kids)) == MergeSort(cs, Keyed(kids))
  {
    SortRenamed(cs, ValueOf, KidMembers(kids));
    SortRenamed(cs, NodeOf, KidMembers(kids));
    assert Renamed(ValueOf, KidMembers(kids)) == MembersOf(kids);
    hide MergeSort, KeyOf, ValueOf;
    var sorted := SortedKids(cs, kids);
    forall i | 0 <= i < |kids|
      ensures MembersOf(sorted)[i] == MergeSort(cs, MembersOf(kids))[i]
      ensures Keyed(sorted)[i] == MergeSort(cs, Keyed(kids))[i]
    {
      SortedKidAt(cs, kids, i);
    }
  }

  lemma {:induction false} CountKids(kids: seq<Shape>, k: Shape)
    ensures multiset(KidMembers(kids))[Member(KeyOf(k), k)] == multiset(kids)[k]
  {
    hide KeyOf;
    if kids != [] {
      CountKids(kids[1..], k);
      assert KidMembers(kids)[1..] == KidMembers(kids[1..]);
      Uncons(KidMembers(kids));
      Uncons(kids);
    }
  }

  lemma SortedPermutes(cs: bool, kids: seq<Shape>)
    ensures multiset(SortedKids(cs, kids)) == multiset(kids)
  {
    var sorted := SortedKids(cs, kids);
    MergeSortPermutes(cs, KidMembers(kids));
    forall i | 0 <= i < |kids| ensures KidMembers(sorted)[i] == MergeSort(cs, KidMembers(kids))[i] {
      SortedKidAt(cs, kids, i);
    }
    assert KidMembers(sorted) == MergeSort(cs, KidMembers(kids));
    hide MergeSort, KeyOf, SortedKids;
    forall k: Shape ensures multiset(sorted)[k] == multiset(kids)[k] {
      CountKids(sorted, k);
      CountKids(kids, k);
    }
  }

  // ---------- permuted children

  ghost predicate PairwiseApart(kids: seq<Shape>) {
    && (forall i | 0 <= i < |kids| :: Separate(kids[i]))
    && forall i, j | 0 <= i < j < |kids| :: NodesOf(kids[i]) !! NodesOf(kids[j])
  }

  lemma {:induction false} OwnerOf(kids: seq<Shape>, n: Node) returns (i: nat)
    requires n in Below(kids)
    ensures i < |kids| && n in NodesOf(kids[i])
  {
    if n in NodesOf(kids[0]) {
      i := 0;
    } else {
      var k := OwnerOf(kids[1..], n);
      i := k + 1;
    }
  }

  lemma {:induction false} HolderOf(kids: seq<Shape>, c: Cell) returns (i: nat)
    requires c in CellsBelow(kids)
    ensures i < |kids| && c in CellsOf(kids[i])
  {
    if c in CellsOf(kids[0]) {
      i := 0;
    } else {
      var k := HolderOf(kids[1..], c);
      i := k + 1;
    }
  }

  lemma {:induction false} KidsApart(kids: seq<Shape>, i: nat, j: nat)
    requires SeparateKids(kids) && i < j < |kids|
    ensures NodesOf(kids[i]) !! NodesOf(kids[j])
  {
    if i == 0 {
      KidIn(kids[1..], j - 1);
    } else {
      KidsApart(kids[1..], i - 1, j - 1);
    }
  }

  lemma {:induction false} ApartFromAll(kids: seq<Shape>, x: set<Node>)
    requires forall i | 0 <= i < |kids| :: NodesOf(kids[i]) !! x
    ensures Below(kids) !! x
  {
    if kids != [] {
      assert NodesOf(kids[0]) !! x;
      forall i | 0 <= i < |kids[1..]| ensures NodesOf(kids[1..][i]) !! x { assert kids[1..][i] == kids[i + 1]; }
      ApartFromAll(kids[1..], x);
    }
  }

  lemma {:induction false} SeparateFromPairs(kids: seq<Shape>)
    requires PairwiseApart(kids)
    ensures SeparateKids(kids)
  {
    if kids != [] {
      var rest := kids[1..];
      forall i | 0 <= i < |rest| ensures Separate(rest[i]) && NodesOf(rest[i]) !! NodesOf(kids[0]) {
        assert rest[i] == kids[i + 1];
        assert NodesOf(kids[0]) !! NodesOf(kids[i + 1]);
      }
      forall i, j | 0 <= i < j < |rest| ensures NodesOf(rest[i]) !! NodesOf(rest[j]) {
        assert NodesOf(kids[i + 1]) !! NodesOf(kids[j + 1]);
      }
      SeparateFromPairs(rest);
      ApartFromAll(rest, NodesOf(kids[0]));
      assert Separate(kids[0]);
    }
  }

  /** The same children in another order. */
  lemma {:induction false} PermutedSeparate(a: seq<Shape>, b: seq<Shape>)
    requires multiset(a) == multiset(b) && SeparateKids(a)
    ensures SeparateKids(b) && Below(b) == Below(a) && CellsBelow(b) == CellsBelow(a)
  {
    hide NodesOf, CellsOf, Separate, SeparateKids, Below, CellsBelow;
    forall i | 0 <= i < |b| ensures Separate(b[i]) {
      var p := PlaceIn(a, b, i);
      TreeEdits.SeparateKid(a, p);
    }
    forall i, j | 0 <= i < j < |b| ensures NodesOf(b[i]) !! NodesOf(b[j]) {
      var p, q := PlacesIn(a, b, i, j);
      if p < q { KidsApart(a, p, q); } else { KidsApart(a, q, p); }
    }
    SeparateFromPairs(b);
    SameMembers(a, b);
    SameMembers(b, a);
  }

  lemma {:induction false} PlaceIn(a: seq<Shape>, b: seq<Shape>, i: nat) returns (p: nat)
    requires multiset(a) == multiset(b) && i < |b|
    ensures p < |a| && a[p] == b[i]
  {
    InMultiset(a, b, b[i]);
    p :| 0 <= p < |a| && a[p] == b[i];
  }

  lemma {:induction false} SameMembers(a: seq<Shape>, b: seq<Shape>)
    requires multiset(a) == multiset(b)
    ensures Below(b) <= Below(a) && CellsBelow(b) <= CellsBelow(a)
  {
    hide NodesOf, CellsOf, Below, CellsBelow;
    forall n | n in Below(b) ensures n in Below(a) {
      var i := OwnerOf(b, n);
      var p := PlaceIn(a, b, i);
      KidIn(a, p);
    }
    forall c | c in CellsBelow(b) ensures c in CellsBelow(a) {
      var i := HolderOf(b, c);
      var p := PlaceIn(a, b, i);
      KidIn(a, p);
    }
  }

  /** Two positions come from two different ones. */
  lemma {:induction false} PlacesIn(a: seq<Shape>, b: seq<Shape>, i: nat, j: nat) returns (p: nat, q: nat)
    requires multiset(a) == multiset(b) && i < j < |b|
    ensures p < |a| && q < |a| && p != q && a[p] == b[i] && a[q] == b[j]
  {
    p := PlaceIn(a, b, i);
    q := PlaceIn(a, b, j);
    if p == q {
      TwiceInMultiset(b, i, j);
      q := SecondPlace(a, b[i], p);
    }
  }

  lemma {:induction false} SecondPlace(a: seq<Shape>, x: Shape, p: nat) returns (q: nat)
    requires p < |a| && a[p] == x && multiset(a)[x] >= 2
    ensures q < |a| && q != p && a[q] == x
  {
    assert a == a[..p] + [x] + a[p + 1..];
    if x in a[..p] {
      q :| 0 <= q < p && a[..p][q] == x;
    } else {
      assert x in a[p + 1..];
      var k :| 0 <= k < |a[p + 1..]| && a[p + 1..][k] == x;
      q := p + 1 + k;
    }
  }

  // ---------- sort_object

  lemma ChainedParts(s: Shape)
    requires Linked(s, false)
    ensures HasData(s.node, s.data) && Children(s.node, Roots(s.kids))
    ensures SeparateKids(s.kids) && HoldAll(CellsBelow(s.kids), false) && s.node !in Below(s.kids)
    ensures NodesOf(s) == {s.node} + Below(s.kids)
  {
    OwnCell(s, false);
  }

  lemma ChainedOf(s: Shape)
    requires HasData(s.node, s.data) && Children(s.node, Roots(s.kids))
    requires SeparateKids(s.kids) && HoldAll(CellsBelow(s.kids), false) && s.node !in Below(s.kids)
    ensures Linked(s, false) && NodesOf(s) == {s.node} + Below(s.kids)
  {
  }

  lemma KeyedFacts(s: Shape)
    requires Linked(s, false) && WellFormed(s) && s.data.kind.KObject?
    ensures SortLists.Items(Keyed(s.kids)) == Roots(s.kids) && SortLists.HasKeys(Keyed(s.kids))
    ensures SortLists.NodeSet(Keyed(s.kids)) <= Below(s.kids)
  {
    assert SortLists.Items(Keyed(s.kids)) == Roots(s.kids);
    RootsBelow(s.kids);
    forall i | 0 <= i < |s.kids| ensures s.kids[i].node.key == Some(KeyOf(s.kids[i])) {
      KidFacts(s, false, i);
    }
  }

  lemma ItemsOfSorted(cs: bool, kids: seq<Shape>)
    ensures SortLists.Items(MergeSort(cs, Keyed(kids))) == Roots(SortedKids(cs, kids))
  {
    SortedValues(cs, kids);
    hide MergeSort;
    assert SortLists.Items(Keyed(SortedKids(cs, kids))) == Roots(SortedKids(cs, kids));
  }

  lemma WellFormedSorted(cs: bool, s: Shape)
    requires WellFormed(s)
    ensures WellFormed(s.(kids := SortedKids(cs, s.kids)))
  {
    hide SortedKids;
    var t := s.(kids := SortedKids(cs, s.kids));
    forall i | 0 <= i < |t.kids|
      ensures WellFormed(t.kids[i]) && (s.data.kind.KObject? ==> t.kids[i].data.key.Some?)
    {
      SortedKidAt(cs, s.kids, i);
    }
  }

  /** sort_object on a tree: the same subtrees in key order. */
  method SortKids(parent: Node, cs: bool, ghost s: Shape) returns (ghost t: Shape)
    requires Linked(s, false) && WellFormed(s) && s.data.kind.KObject? && s.node == parent
    modifies parent`child, Below(s.kids)`next, Below(s.kids)`prev
    ensures t == s.(kids := SortedKids(cs, s.kids)) && Linked(t, false) && WellFormed(t)
    ensures Below(t.kids) == Below(s.kids) && MembersOf(t.kids) == MergeSort(cs, MembersOf(s.kids))
  {
    hide Below, CellsBelow, CellsOf, NodesOf, SeparateKids, Separate, HoldAll, Reach, SortedKids, MergeSort, Children, Keyed, WellFormed;
    ghost var kids, km := s.kids, Keyed(s.kids);
    t := s.(kids := SortedKids(cs, kids));
    ChainedParts(s);
    KeyedFacts(s);
    ItemsOfSorted(cs, kids);
    SortedValues(cs, kids);
    SortedPermutes(cs, kids);
    PermutedSeparate(kids, t.kids);
    WellFormedSorted(cs, s);
    HoldEach(CellsBelow(kids), false);
    assert allocated(CellsBelow(kids));
    NodeSetIsRoots(kids);
    ghost var rm := SortLists.SortObject(parent, cs, km);
    forall c | c in CellsBelow(kids) ensures Holds(c, false) {
      BelowRoots(kids, c);
      assert old(Holds(c, false));
    }
    HeldEach(CellsBelow(kids), false);
    ChainedOf(t);
  }

  lemma NodeSetIsRoots(kids: seq<Shape>)
    ensures forall n | n in SortLists.NodeSet(Keyed(kids)) :: n in Roots(kids)
  {
    assert SortLists.Items(Keyed(kids)) == Roots(kids);
  }
}
