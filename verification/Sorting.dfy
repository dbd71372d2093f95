/** The key order and the merge sort of sort_list, on the sequence of members that a chain holds. */
module Sorting {
  import opened CStrings
  import opened JsonTree

  /** The "already sorted" test of sort_list: every key strictly before the next one. */
  predicate Ascending<T>(cs: bool, s: seq<Member<T>>) {
    forall i | 0 <= i < |s| - 1 :: CompareStrings(cs, s[i].key, s[i + 1].key) < 0
  }

  ghost predicate Sorted<T>(cs: bool, s: seq<Member<T>>) {
    forall i, j | 0 <= i < j < |s| :: CompareStrings(cs, s[i].key, s[j].key) <= 0
  }

  ghost predicate StrictlySorted<T>(cs: bool, s: seq<Member<T>>) {
    forall i, j | 0 <= i < j < |s| :: CompareStrings(cs, s[i].key, s[j].key) < 0
  }

  /** The merging loop: the smaller head goes first, and on a tie the head of the second list does. */
  function Merge<T>(cs: bool, a: seq<Member<T>>, b: seq<Member<T>>): (r: seq<Member<T>>)
    ensures |r| == |a| + |b|
  {
    if a == [] then b
    else if b == [] then a
    else if CompareStrings(cs, a[0].key, b[0].key) < 0 then [a[0]] + Merge(cs, a[1..], b)
    else [b[0]] + Merge(cs, a, b[1..])
  }

  function MergeSort<T>(cs: bool, s: seq<Member<T>>): (r: seq<Member<T>>)
    ensures |r| == |s|
    decreases |s|
  {
    if Ascending(cs, s) then s
    else
      var middle := (|s| + 1) / 2;
      Merge(cs, MergeSort(cs, s[..middle]), MergeSort(cs, s[middle..]))
  }

  lemma Uncons<T>(s: seq<T>)
    requires s != []
    ensures multiset(s) == multiset{s[0]} + multiset(s[1..])
  {
    assert s == [s[0]] + s[1..];
  }

  lemma {:induction false} MergePermutes<T>(cs: bool, a: seq<Member<T>>, b: seq<Member<T>>)
    ensures multiset(Merge(cs, a, b)) == multiset(a) + multiset(b)
  {
    if a == [] || b == [] {
      return;
    }
    var r := Merge(cs, a, b);
    Uncons(r);
    if CompareStrings(cs, a[0].key, b[0].key) < 0 {
      MergePermutes(cs, a[1..], b);
      assert r[1..] == Merge(cs, a[1..], b);
      Uncons(a);
    } else {
      MergePermutes(cs, a, b[1..]);
      assert r[1..] == Merge(cs, a, b[1..]);
      Uncons(b);
    }
  }

  lemma SplitMultiset<T>(s: seq<T>, middle: nat)
    requires middle <= |s|
    ensures multiset(s) == multiset(s[..middle]) + multiset(s[middle..])
  {
    assert s == s[..middle] + s[middle..];
  }

  lemma {:induction false} MergeSortPermutes<T>(cs: bool, s: seq<Member<T>>)
    ensures multiset(MergeSort(cs, s)) == multiset(s)
    decreases |s|
  {
    if !Ascending(cs, s) {
      var middle := (|s| + 1) / 2;
      var a, b := MergeSort(cs, s[..middle]), MergeSort(cs, s[middle..]);
      MergeSortPermutes(cs, s[..middle]);
      MergeSortPermutes(cs, s[middle..]);
      MergePermutes(cs, a, b);
      SplitMultiset(s, middle);
      assert MergeSort(cs, s) == Merge(cs, a, b);
    }
  }

  lemma InMultiset<T>(s: seq<T>, t: seq<T>, x: T)
    requires multiset(s) == multiset(t)
    ensures x in s <==> x in t
  {
    assert x in s <==> x in multiset(s);
  }

  lemma {:induction false} AscendingIsStrictlySorted<T>(cs: bool, s: seq<Member<T>>)
    requires Ascending(cs, s)
    ensures StrictlySorted(cs, s)
  {
    forall i, j | 0 <= i < j < |s| ensures CompareStrings(cs, s[i].key, s[j].key) < 0 {
      AscendingPair(cs, s, i, j);
    }
  }

  lemma {:induction false} AscendingPair<T>(cs: bool, s: seq<Member<T>>, i: nat, j: nat)
    requires Ascending(cs, s) && i < j < |s|
    ensures CompareStrings(cs, s[i].key, s[j].key) < 0
    decreases j
  {
    hide Fold, StrCmp;
    if i < j - 1 {
      AscendingPair(cs, s, i, j - 1);
      StrCmpTransitive(Fold(cs, s[i].key), Fold(cs, s[j - 1].key), Fold(cs, s[j].key));
    }
  }

  ghost predicate NotBefore<T>(cs: bool, head: Member<T>, s: seq<Member<T>>) {
    forall m | m in s :: CompareStrings(cs, head.key, m.key) <= 0
  }

  lemma {:induction false} SortedCons<T>(cs: bool, head: Member<T>, s: seq<Member<T>>)
    ensures Sorted(cs, [head] + s) <==> NotBefore(cs, head, s) && Sorted(cs, s)
  {
    hide CompareStrings;
    var r := [head] + s;
    if Sorted(cs, r) {
      forall m | m in s ensures CompareStrings(cs, head.key, m.key) <= 0 {
        var i :| 0 <= i < |s| && s[i] == m;
        assert r[0] == head && r[i + 1] == m;
      }
      forall i, j | 0 <= i < j < |s| ensures CompareStrings(cs, s[i].key, s[j].key) <= 0 {
        assert r[i + 1] == s[i] && r[j + 1] == s[j];
      }
    }
    if NotBefore(cs, head, s) && Sorted(cs, s) {
      forall i, j | 0 <= i < j < |r| ensures CompareStrings(cs, r[i].key, r[j].key) <= 0 {
        assert r[j] == s[j - 1] && r[j] in s;
        assert i > 0 ==> r[i] == s[i - 1];
      }
    }
  }

  /** The head that the merge picks is not after any member that is left. */
  lemma {:induction false} HeadIsLeast<T>(cs: bool, head: Member<T>, other: Member<T>, s: seq<Member<T>>)
    requires CompareStrings(cs, head.key, other.key) <= 0
    requires NotBefore(cs, other, s)
    ensures NotBefore(cs, head, [other] + s)
  {
    forall m | m in s ensures CompareStrings(cs, head.key, m.key) <= 0 {
      StrCmpTransitive(Fold(cs, head.key), Fold(cs, other.key), Fold(cs, m.key));
    }
  }

  lemma {:induction false} MergeNotBefore<T>(cs: bool, head: Member<T>, a: seq<Member<T>>, b: seq<Member<T>>)
    requires NotBefore(cs, head, a) && NotBefore(cs, head, b)
    ensures NotBefore(cs, head, Merge(cs, a, b))
  {
    MergePermutes(cs, a, b);
    forall m | m in Merge(cs, a, b) ensures m in a || m in b {
      assert m in multiset(a) + multiset(b);
    }
  }

  lemma {:induction false} MergeSorts<T>(cs: bool, a: seq<Member<T>>, b: seq<Member<T>>)
    requires Sorted(cs, a) && Sorted(cs, b)
    ensures Sorted(cs, Merge(cs, a, b))
  {
    if a == [] || b == [] {
      return;
    }
    assert a == [a[0]] + a[1..] && b == [b[0]] + b[1..];
    SortedCons(cs, a[0], a[1..]);
    SortedCons(cs, b[0], b[1..]);
    if CompareStrings(cs, a[0].key, b[0].key) < 0 {
      HeadIsLeast(cs, a[0], b[0], b[1..]);
      MergeNotBefore(cs, a[0], a[1..], b);
      MergeSorts(cs, a[1..], b);
      SortedCons(cs, a[0], Merge(cs, a[1..], b));
    } else {
      StrCmpAntisymmetric(Fold(cs, a[0].key), Fold(cs, b[0].key));
      HeadIsLeast(cs, b[0], a[0], a[1..]);
      MergeNotBefore(cs, b[0], a, b[1..]);
      MergeSorts(cs, a, b[1..]);
      SortedCons(cs, b[0], Merge(cs, a, b[1..]));
    }
  }

  lemma {:induction false} MergeSortSorts<T>(cs: bool, s: seq<Member<T>>)
    ensures Sorted(cs, MergeSort(cs, s))
    decreases |s|
  {
    if Ascending(cs, s) {
      AscendingIsStrictlySorted(cs, s);
    } else {
      var middle := (|s| + 1) / 2;
      MergeSortSorts(cs, s[..middle]);
      MergeSortSorts(cs, s[middle..]);
      MergeSorts(cs, MergeSort(cs, s[..middle]), MergeSort(cs, s[middle..]));
    }
  }
}
