/** sort_list: the in-place merge sort of the children of an object, on the linked nodes themselves. */
module SortLists {
  import opened CStrings
  import opened JsonTree
  import opened Sorting
  import opened Equality
  import opened Nodes

  /** Nodes paired with their keys: what the sort sees of a chain. */
  type Keyed = seq<Member<Node>>

  function Items(km: Keyed): (ns: seq<Node>)
    ensures |ns| == |km| && forall i | 0 <= i < |km| :: ns[i] == km[i].value
  {
    seq(|km|, i requires 0 <= i < |km| => km[i].value)
  }

  ghost predicate HasKeys(km: Keyed)
    reads Items(km)`key
  {
    forall i | 0 <= i < |km| :: km[i].value.key == Some(km[i].key)
  }

  ghost function NodeSet(km: Keyed): set<Node> {
    set n | n in Items(km)
  }

  /** A chain of keyed nodes that are all different. */
  ghost predicate Chain(km: Keyed)
    reads NodeSet(km)`next, NodeSet(km)`prev, NodeSet(km)`key
  {
    Links(Items(km)) && Distinct(Items(km)) && HasKeys(km)
  }

  lemma ItemsOfSlice(km: Keyed, i: nat, j: nat)
    requires i <= j <= |km|
    ensures Items(km[i..j]) == Items(km)[i..j]
  {
  }

  lemma {:induction false} ItemsAppend(a: Keyed, b: Keyed)
    ensures Items(a + b) == Items(a) + Items(b)
  {
  }

  lemma {:induction false} SameItems(a: Keyed, b: Keyed, n: Node)
    requires multiset(a) == multiset(b)
    ensures n in Items(a) <==> n in Items(b)
  {
    if n in Items(a) {
      var i :| 0 <= i < |a| && Items(a)[i] == n;
      InMultiset(a, b, a[i]);
      var j :| 0 <= j < |b| && b[j] == a[i];
      assert Items(b)[j] == n;
    }
    if n in Items(b) {
      var i :| 0 <= i < |b| && Items(b)[i] == n;
      InMultiset(a, b, b[i]);
      var j :| 0 <= j < |a| && a[j] == b[i];
      assert Items(a)[j] == n;
    }
  }

  lemma {:induction false} DistinctOccursOnce(km: Keyed, m: Member<Node>)
    requires Distinct(Items(km))
    ensures multiset(km)[m] <= 1
  {
    if km != [] {
      Uncons(km);
      ItemsOfSlice(km, 1, |km|);
      assert km[1..|km|] == km[1..];
      DistinctOccursOnce(km[1..], m);
      forall i | 0 <= i < |km[1..]| ensures km[1..][i] != km[0] {
        assert Items(km)[0] != Items(km)[i + 1];
      }
    }
  }

  /** A rearrangement of keyed nodes that are all different: still different, and the same nodes and keys. */
  lemma {:induction false} Rearranged(a: Keyed, b: Keyed)
    requires multiset(a) == multiset(b) && Distinct(Items(a)) && HasKeys(a)
    ensures Distinct(Items(b)) && HasKeys(b)
    ensures forall n :: n in Items(a) <==> n in Items(b)
  {
    forall n ensures n in Items(a) <==> n in Items(b) { SameItems(a, b, n); }
    forall i | 0 <= i < |b| ensures b[i].value.key == Some(b[i].key) { InMultiset(a, b, b[i]); }
    forall i, j | 0 <= i < j < |b| ensures Items(b)[i] != Items(b)[j] {
      InMultiset(a, b, b[i]);
      InMultiset(a, b, b[j]);
      if b[i] == b[j] {
        TwiceInMultiset(b, i, j);
        DistinctOccursOnce(a, b[i]);
      } else {
        var p :| 0 <= p < |a| && a[p] == b[i];
        var q :| 0 <= q < |a| && a[q] == b[j];
        assert Items(a)[p] != Items(a)[q];
      }
    }
  }

  /** The test for a list that is sorted already. */
  method IsAscending(list: Node, cs: bool, ghost km: Keyed) returns (sorted: bool)
    requires Chain(km) && list == HeadOf(Items(km))
    ensures Chain(km)
    ensures sorted <==> Ascending(cs, km)
  {
    var current: Node := list;
    ghost var i := 0;
    while current.next != null && CompareStrings(cs, current.key.value, current.next.key.value) < 0
      invariant i < |km| && current == km[i].value
      invariant forall k | 0 <= k < i :: CompareStrings(cs, km[k].key, km[k + 1].key) < 0
      decreases |km| - i
    {
      assert current == Items(km)[i];
      current := current.next;
      i := i + 1;
    }
    assert current == Items(km)[i];
    sorted := current.next == null;
  }

  /** Two pointers at different speeds find the node after the first half, rounded up. */
  method Middle(list: Node, ghost km: Keyed) returns (second: Node)
    requires |km| >= 2 && list == HeadOf(Items(km)) && Chain(km)
    ensures second == km[(|km| + 1) / 2].value && Chain(km)
  {
    var current, slow: Node? := list, list;
    ghost var k, c := 0, 0;
    while current != null
      invariant 2 * (k - 1) < |km| && c == (if 2 * k <= |km| then 2 * k else |km|)
      invariant 0 <= k < |km| && slow == Items(km)[k]
      invariant current == if c < |km| then Items(km)[c] else null
      decreases |km| - c
    {
      slow := slow.next;
      current := current.next;
      k, c := k + 1, c + 1;
      if current != null {
        current := current.next;
        c := c + 1;
      }
    }
    second := slow;
  }

  /** Links, except that the last node may point anywhere. */
  ghost predicate Open(ns: seq<Node>)
    reads ns`next, ns`prev
  {
    && (forall i {:trigger ns[i].next} | 0 <= i < |ns| - 1 :: ns[i].next == ns[i + 1])
    && (forall i {:trigger ns[i].prev} | 0 < i < |ns| :: ns[i].prev == ns[i - 1])
  }

  ghost predicate Apart(a: seq<Node>, b: seq<Node>) {
    forall n | n in a :: n !in b
  }

  ghost predicate AllApart(done: seq<Node>, x: seq<Node>, y: seq<Node>) {
    Distinct(done) && Distinct(x) && Distinct(y) && Apart(done, x) && Apart(done, y) && Apart(x, y)
  }

  lemma TakeHead(done: seq<Node>, x: seq<Node>, y: seq<Node>)
    requires x != [] && AllApart(done, x, y)
    ensures AllApart(done + [x[0]], x[1..], y) && AllApart(done + [x[0]], y, x[1..])
  {
    assert x[0] in x && forall i | 0 <= i < |done| :: done[i] in done;
    forall i | 0 <= i < |x| - 1 ensures x[1..][i] in x && x[1..][i] != x[0] {
      assert x[1..][i] == x[i + 1];
    }
  }

  /** Links the head of x to the merged part; the three lists stay what they are otherwise. */
  method Append(tail: Node, item: Node, ghost done: seq<Node>, ghost x: seq<Node>, ghost y: seq<Node>)
    requires done != [] && tail == done[|done| - 1] && x != [] && item == x[0]
    requires Open(done) && Links(x) && Links(y) && AllApart(done, x, y)
    modifies tail`next, item`prev
    ensures Open(done + [item]) && Links(x[1..]) && Links(y)
    ensures item.next == HeadOf(x[1..]) && item !in done
  {
    assert tail !in x && tail !in y && item !in y && item !in done;
    tail.next := item;
    item.prev := tail;
  }

  /** Links the whole rest x to the merged part. */
  method AppendRest(tail: Node, item: Node, ghost done: seq<Node>, ghost x: seq<Node>)
    requires done != [] && tail == done[|done| - 1] && x != [] && item == x[0]
    requires Open(done) && Links(x) && Distinct(done) && Distinct(x) && Apart(done, x)
    modifies tail`next, item`prev
    ensures Links(done + x) && item !in done
  {
    assert tail !in x && item !in done;
    tail.next := item;
    item.prev := tail;
  }

  ghost predicate Within(ns: seq<Node>, pool: set<Node>) {
    forall n | n in ns :: n in pool
  }

  /** Where the merging loop stands: the merged part, and what is left of both lists. */
  ghost predicate Merging(f: Node?, s: Node?, head: Node?, tail: Node?, done: Keyed, fs: Keyed, ss: Keyed, pool: set<Node>)
    reads pool`next, pool`prev, pool`key
  {
    && Within(Items(done), pool) && Within(Items(fs), pool) && Within(Items(ss), pool)
    && f == HeadOf(Items(fs)) && s == HeadOf(Items(ss))
    && Links(Items(fs)) && Links(Items(ss)) && Open(Items(done))
    && HasKeys(fs) && HasKeys(ss)
    && AllApart(Items(done), Items(fs), Items(ss))
    && (fs != [] || ss != [])
    && if done == [] then fs != [] && ss != [] && head == null && tail == null
       else head == done[0].value && tail == done[|done| - 1].value
  }

  lemma {:induction false} SwapMerging(f: Node?, s: Node?, head: Node?, tail: Node?, done: Keyed, fs: Keyed, ss: Keyed, pool: set<Node>)
    requires Merging(f, s, head, tail, done, fs, ss, pool)
    ensures Merging(s, f, head, tail, done, ss, fs, pool)
  {
    hide Links, Open;
  }

  lemma {:induction false} Heads(f: Node?, s: Node?, head: Node?, tail: Node?, done: Keyed, fs: Keyed, ss: Keyed, pool: set<Node>)
    requires Merging(f, s, head, tail, done, fs, ss, pool)
    ensures f == (if fs == [] then null else fs[0].value) && s == (if ss == [] then null else ss[0].value)
    ensures fs != [] || ss != []
    ensures fs != [] ==> fs[0].value.key == Some(fs[0].key)
    ensures ss != [] ==> ss[0].value.key == Some(ss[0].key)
    ensures f == null || s == null ==> done != [] && head == done[0].value
  {
  }

  lemma KeysOfTail(km: Keyed)
    requires km != [] && HasKeys(km)
    ensures HasKeys(km[1..])
  {
  }

  lemma {:induction false} MergeStep(cs: bool, a: Keyed, b: Keyed)
    ensures a == [] ==> Merge(cs, a, b) == b
    ensures b == [] ==> Merge(cs, a, b) == a
    ensures a != [] && b != [] && CompareStrings(cs, a[0].key, b[0].key) < 0 ==>
              Merge(cs, a, b) == [a[0]] + Merge(cs, a[1..], b)
    ensures a != [] && b != [] && CompareStrings(cs, a[0].key, b[0].key) >= 0 ==>
              Merge(cs, a, b) == [b[0]] + Merge(cs, a, b[1..])
  {
  }

  /** One step of the loop: the smaller head, of the list xs, moves to the merged part. */
  method Advance(x: Node, ghost y: Node?, head: Node?, tail: Node?, ghost done: Keyed, ghost xs: Keyed, ghost ys: Keyed,
                 ghost pool: set<Node>)
    returns (ghost done': Keyed, ghost xs': Keyed, head': Node, tail': Node, next: Node?)
    requires Merging(x, y, head, tail, done, xs, ys, pool) && ys != []
    modifies pool`next, pool`prev
    ensures xs != [] && done' == done + [xs[0]] && xs' == xs[1..]
    ensures Merging(next, y, head', tail', done', xs', ys, pool)
    ensures head' == (if head == null then x else head) && head'.prev == old(head'.prev)
  {
    hide Links, Open, AllApart;
    done', xs' := done + [xs[0]], xs[1..];
    TakeHead(Items(done), Items(xs), Items(ys));
    KeysOfTail(xs);
    assert x == Items(xs)[0] && x in Items(xs);
    assert tail != null ==> tail == Items(done)[|done| - 1] && tail in Items(done);
    assert Items(xs') == Items(xs)[1..] && Items(done') == Items(done) + [x];
    if head == null {
      Single(Items(xs));
      assert Items(done') == [x];
      head', tail' := x, x;
    } else {
      assert head == Items(done)[0] && head in Items(done);
      Append(tail, x, Items(done), Items(xs), Items(ys));
      head', tail' := head, x;
    }
    next := x.next;
  }

  lemma Single(ns: seq<Node>)
    requires ns != [] && Links(ns)
    ensures Links(ns[1..]) && Open([ns[0]]) && ns[0].next == HeadOf(ns[1..])
  {
  }

  /** The merging loop of sort_list, with the rest of a list appended at the end. */
  method MergeLists(first: Node, second: Node, cs: bool, ghost fm: Keyed, ghost sm: Keyed, ghost pool: set<Node>)
    returns (result: Node, ghost rm: Keyed)
    requires fm != [] && sm != []
    requires Merging(first, second, null, null, [], fm, sm, pool)
    modifies pool`next, pool`prev
    ensures rm == Merge(cs, fm, sm) && rm != [] && result == rm[0].value && Links(Items(rm))
    ensures (result == first || result == second) && result.prev == old(result.prev)
  {
    hide Fold, CompareStrings, Merge, Merging, Links, Items, HasKeys;
    var f, s: Node? := first, second;
    var head, tail: Node? := null, null;
    ghost var done: Keyed, fs, ss := [], fm, sm;
    while f != null && s != null
      invariant Merging(f, s, head, tail, done, fs, ss, pool)
      invariant Merge(cs, fm, sm) == done + Merge(cs, fs, ss)
      invariant head == null ==> f == first && s == second
      invariant head == null ==> first.prev == old(first.prev) && second.prev == old(second.prev)
      invariant head != null ==> (head == first || head == second) && head.prev == old(head.prev)
      decreases |fs| + |ss|
    {
      Heads(f, s, head, tail, done, fs, ss, pool);
      MergeStep(cs, fs, ss);
      if CompareStrings(cs, f.key.value, s.key.value) < 0 {
        done, fs, head, tail, f := Advance(f, s, head, tail, done, fs, ss, pool);
      } else {
        SwapMerging(f, s, head, tail, done, fs, ss, pool);
        done, ss, head, tail, s := Advance(s, f, head, tail, done, ss, fs, pool);
        SwapMerging(s, f, head, tail, done, ss, fs, pool);
      }
    }
    Heads(f, s, head, tail, done, fs, ss, pool);
    MergeStep(cs, fs, ss);
    rm := done + if fs == [] then ss else fs;
    AppendRemaining(f, s, head, tail, done, fs, ss, pool);
    result := head;
  }

  /** After the loop: what is left of one of the two lists follows the merged part. */
  method AppendRemaining(f: Node?, s: Node?, ghost head: Node, tail: Node?, ghost done: Keyed, ghost fs: Keyed, ghost ss: Keyed,
                         ghost pool: set<Node>)
    requires Merging(f, s, head, tail, done, fs, ss, pool) && (f == null || s == null)
    modifies pool`next, pool`prev
    ensures Links(Items(done + if fs == [] then ss else fs)) && head.prev == old(head.prev)
  {
    hide Open, Links;
    assert tail == Items(done)[|done| - 1] && tail in Items(done);
    assert head == Items(done)[0] && head in Items(done);
    if f != null {
      assert f == Items(fs)[0] && f in Items(fs);
      AppendRest(tail, f, Items(done), Items(fs));
      ItemsAppend(done, fs);
    }
    if s != null {
      assert s == Items(ss)[0] && s in Items(ss);
      AppendRest(tail, s, Items(done), Items(ss));
      ItemsAppend(done, ss);
    }
  }

  /** Cuts the chain in front of the node in the middle. */
  method Split(second: Node, ghost ns: seq<Node>, ghost middle: nat)
    requires 0 < middle < |ns| && second == ns[middle] && Links(ns) && Distinct(ns)
    modifies ns`next, ns`prev
    ensures Links(ns[..middle]) && Links(ns[middle..])
    ensures second.prev == null && ns[0].prev == old(ns[0].prev)
  {
    assert second.prev == ns[middle - 1];
    if second.prev != null {
      second.prev.next := null;
      second.prev := null;
    }
  }

  lemma Halves(km: Keyed, middle: nat)
    requires 0 < middle < |km| && Distinct(Items(km)) && HasKeys(km)
    requires Links(Items(km)[..middle]) && Links(Items(km)[middle..])
    ensures Chain(km[..middle]) && Chain(km[middle..])
    ensures NodeSet(km[..middle]) !! NodeSet(km[middle..])
    ensures NodeSet(km) == NodeSet(km[..middle]) + NodeSet(km[middle..])
  {
    hide Links;
    ItemsAppend(km[..middle], km[middle..]);
    assert km == km[..middle] + km[middle..];
    assert Items(km[..middle]) == Items(km)[..middle] && Items(km[middle..]) == Items(km)[middle..];
  }

  /** Two chains without common nodes are where the merging loop starts. */
  lemma {:induction false} BeforeMerging(first: Node?, second: Node?, fm: Keyed, sm: Keyed)
    requires Chain(fm) && Chain(sm) && NodeSet(fm) !! NodeSet(sm) && fm != [] && sm != []
    requires first == HeadOf(Items(fm)) && second == HeadOf(Items(sm))
    ensures Merging(first, second, null, null, [], fm, sm, NodeSet(fm) + NodeSet(sm))
  {
    hide Links;
    assert Items([]) == [];
    assert Items(fm) != [] && Items(sm) != [];
    forall n | n in Items(fm) ensures n !in Items(sm) {
      assert n in NodeSet(fm);
    }
    assert Open([]);
  }

  lemma {:induction false} AfterMerging(cs: bool, km: Keyed, fm: Keyed, sm: Keyed)
    requires !Ascending(cs, km) && HasKeys(km) && Distinct(Items(km))
    requires fm == MergeSort(cs, km[..(|km| + 1) / 2]) && sm == MergeSort(cs, km[(|km| + 1) / 2..])
    ensures var rm := Merge(cs, fm, sm);
            && rm == MergeSort(cs, km) && multiset(rm) == multiset(km)
            && Distinct(Items(rm)) && HasKeys(rm) && NodeSet(rm) == NodeSet(km)
  {
    hide Fold, CompareStrings, Merge;
    MergeSortPermutes(cs, km);
    var rm := MergeSort(cs, km);
    Rearranged(km, rm);
    assert NodeSet(rm) == NodeSet(km) by {
      assert forall n :: n in NodeSet(rm) <==> n in Items(rm);
      assert forall n :: n in NodeSet(km) <==> n in Items(km);
    }
  }

  lemma ChainFacts(cs: bool, km: Keyed, list: Node?)
    requires Chain(km) && list == HeadOf(Items(km))
    ensures Links(Items(km)) && Distinct(Items(km)) && HasKeys(km)
    ensures forall n | n in Items(km) :: n in NodeSet(km)
    ensures |Items(km)| == |km| && forall i | 0 <= i < |km| :: Items(km)[i] == km[i].value
    ensures list == null <==> km == []
    ensures list != null ==> list == km[0].value && (list.next == null <==> |km| == 1)
    ensures |km| <= 1 || Ascending(cs, km) ==> MergeSort(cs, km) == km
  {
    if |km| > 1 { assert Items(km)[0].next == Items(km)[1]; }
  }

  /** Cuts the chain in two halves. */
  method Halve(list: Node, ghost km: Keyed, ghost middle: nat) returns (second: Node)
    requires Chain(km) && |km| >= 2 && list == HeadOf(Items(km)) && middle == (|km| + 1) / 2
    modifies NodeSet(km)`next, NodeSet(km)`prev
    ensures Chain(km[..middle]) && Chain(km[middle..]) && HasKeys(km) && Distinct(Items(km))
    ensures NodeSet(km[..middle]) !! NodeSet(km[middle..])
    ensures NodeSet(km) == NodeSet(km[..middle]) + NodeSet(km[middle..])
    ensures list == HeadOf(Items(km[..middle])) && second == HeadOf(Items(km[middle..]))
    ensures second.prev == null && list.prev == old(list.prev)
  {
    hide Links, Items, NodeSet, Fold;
    ChainFacts(true, km, list);
    second := Middle(list, km);
    assert Links(Items(km));
    Split(second, Items(km), middle);
    Halves(km, middle);
    HeadsOfHalves(km, middle);
  }

  lemma InNodeSet(list: Node?, km: Keyed)
    requires list == HeadOf(Items(km)) && km != []
    ensures list != null && list in NodeSet(km)
  {
  }

  lemma HeadsOfHalves(km: Keyed, middle: nat)
    requires 0 < middle < |km|
    ensures HeadOf(Items(km[..middle])) == km[0].value && HeadOf(Items(km[middle..])) == km[middle].value
  {
  }

  /**
   sort_list: afterwards a chain through the same nodes in the order that the merge sort gives, every
   node but the first naming its predecessor.  What the first node names is left as it was, or cut.
   */
  method SortList(list: Node?, cs: bool, ghost km: Keyed) returns (result: Node?, ghost rm: Keyed)
    requires Chain(km) && list == HeadOf(Items(km))
    modifies NodeSet(km)`next, NodeSet(km)`prev
    ensures rm == MergeSort(cs, km) && multiset(rm) == multiset(km)
    ensures Chain(rm) && NodeSet(rm) == NodeSet(km) && result == HeadOf(Items(rm))
    ensures result != null ==> result.prev == if result == list then old(list.prev) else null
    decreases |km|, 1
  {
    hide Fold, CompareStrings, Links, MergeSort, Items, HasKeys, Distinct, Chain, NodeSet;
    result, rm := list, km;
    ChainFacts(cs, km, list);
    if list == null || list.next == null {
      return;
    }
    var sorted := IsAscending(list, cs, km);
    if !sorted {
      ghost var middle := (|km| + 1) / 2;
      var second := Halve(list, km, middle);
      result, rm := SortHalves(list, second, cs, km, middle);
    }
  }

  method SortHalves(first: Node, second: Node, cs: bool, ghost km: Keyed, ghost middle: nat)
    returns (result: Node, ghost rm: Keyed)
    requires |km| >= 2 && middle == (|km| + 1) / 2 && !Ascending(cs, km) && HasKeys(km) && Distinct(Items(km))
    requires Chain(km[..middle]) && Chain(km[middle..]) && NodeSet(km[..middle]) !! NodeSet(km[middle..])
    requires NodeSet(km) == NodeSet(km[..middle]) + NodeSet(km[middle..])
    requires first == HeadOf(Items(km[..middle])) && second == HeadOf(Items(km[middle..])) && second.prev == null
    modifies NodeSet(km)`next, NodeSet(km)`prev
    ensures rm == MergeSort(cs, km) && multiset(rm) == multiset(km)
    ensures Chain(rm) && NodeSet(rm) == NodeSet(km) && result == HeadOf(Items(rm))
    ensures result.prev == if result == first then old(first.prev) else null
    decreases |km|, 0
  {
    hide Fold, CompareStrings, Merge, Merging, Ascending, Links, MergeSort, Items, HasKeys, Distinct, Chain, NodeSet;
    ghost var fm, sm;
    var f, s;
    assert allocated(NodeSet(km[middle..]));
    assert first in NodeSet(km[..middle]) && second in NodeSet(km[middle..]) by {
      InNodeSet(first, km[..middle]);
      InNodeSet(second, km[middle..]);
    }
    f, fm := SortList(first, cs, km[..middle]);
    assert Chain(km[middle..]);
    assert allocated(NodeSet(fm));
    s, sm := SortList(second, cs, km[middle..]);
    assert Chain(fm);
    InNodeSet(f, fm);
    InNodeSet(s, sm);
    BeforeMerging(f, s, fm, sm);
    result, rm := MergeLists(f, s, cs, fm, sm, NodeSet(km));
    assert HasKeys(km);
    AfterMerging(cs, km, fm, sm);
    Rechain(result, rm);
  }

  lemma Rechain(result: Node, rm: Keyed)
    requires Links(Items(rm)) && Distinct(Items(rm)) && HasKeys(rm) && rm != [] && result == rm[0].value
    ensures Chain(rm) && result == HeadOf(Items(rm))
  {
  }

  /**
   sort_object: the children are the same nodes, now in key order.  When the head named the tail before, it does
   so afterwards exactly if the sort moved neither the first nor the last child.  Otherwise it names nothing or
   another child, and appending goes wrong.
   */
  method SortObject(parent: Node, cs: bool, ghost km: Keyed) returns (ghost rm: Keyed)
    requires Children(parent, Items(km)) && HasKeys(km)
    modifies parent`child, NodeSet(km)`next, NodeSet(km)`prev
    ensures Children(parent, Items(rm)) && HasKeys(rm)
    ensures rm == MergeSort(cs, km) && multiset(rm) == multiset(km) && Sorted(cs, rm)
    ensures old(Tailed(Items(km))) ==>
      (Tailed(Items(rm)) <==> km == [] || (rm[0] == km[0] && rm[|rm| - 1] == km[|km| - 1]))
    ensures old(HeadNamesOne(Items(km))) ==> HeadNamesOne(Items(rm))
  {
    hide Fold, CompareStrings, MergeSort, Links;
    MergeSortSorts(cs, km);
    parent.child, rm := SortList(parent.child, cs, km);
  }
}
