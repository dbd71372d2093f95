/**
 Equality of JSON trees.  `Same` is the meaning; `Compare` is the double lookup of cJSON_Compare and
 `CompareSorted` the sort-and-zip of compare_json.
 */
module Equality {
  import opened CStrings
  import opened JsonTree
  import opened Sorting
  import opened Members

  lemma {:induction false} SameReflexive(cs: bool, a: Json)
    ensures Same(cs, a, a)
  {
    match a
    case Array(items) =>
      forall i | 0 <= i < |items| ensures Same(cs, items[i], items[i]) { SameReflexive(cs, items[i]); }
    case Object(ms) =>
      forall i | 0 <= i < |ms| ensures Same(cs, ms[i].value, ms[i].value) { SameReflexive(cs, ms[i].value); }
    case _ =>
  }

  lemma {:induction false} SameSymmetric(cs: bool, a: Json, b: Json)
    requires Same(cs, a, b)
    ensures Same(cs, b, a)
    decreases a
  {
    match a
    case Array(items) =>
      forall i | 0 <= i < |items| ensures Same(cs, b.items[i], items[i]) { SameSymmetric(cs, items[i], b.items[i]); }
    case Object(ms) =>
      forall key: string
        ensures var i, k := IndexOf(cs, ms, key), IndexOf(cs, b.members, key);
          (i < |ms| <==> k < |b.members|) && (k < |b.members| ==> Same(cs, b.members[k].value, ms[i].value))
      {
        var i, k := IndexOf(cs, ms, key), IndexOf(cs, b.members, key);
        if i < |ms| { SameSymmetric(cs, ms[i].value, b.members[k].value); }
      }
    case _ =>
  }

  lemma {:induction false} SameTransitive(cs: bool, a: Json, b: Json, c: Json)
    requires Same(cs, a, b) && Same(cs, b, c)
    ensures Same(cs, a, c)
    decreases a
  {
    match a
    case Array(items) =>
      forall i | 0 <= i < |items| ensures Same(cs, items[i], c.items[i]) {
        SameTransitive(cs, items[i], b.items[i], c.items[i]);
      }
    case Object(ms) =>
      forall key: string
        ensures var i, k := IndexOf(cs, ms, key), IndexOf(cs, c.members, key);
          (i < |ms| <==> k < |c.members|) && (i < |ms| ==> Same(cs, ms[i].value, c.members[k].value))
      {
        var i, j, k := IndexOf(cs, ms, key), IndexOf(cs, b.members, key), IndexOf(cs, c.members, key);
        if i < |ms| { SameTransitive(cs, ms[i].value, b.members[j].value, c.members[k].value); }
      }
    case _ =>
  }

  /** cJSON_Compare: every member of either object is looked up in the other one. */
  predicate Compare(cs: bool, a: Json, b: Json)
    decreases Nesting(a) + Nesting(b)
  {
    match a
    case Array(xs) => b.Array? && |xs| == |b.items| && forall i | 0 <= i < |xs| :: Compare(cs, xs[i], b.items[i])
    case Object(ms) =>
      && b.Object?
      && (forall i | 0 <= i < |ms| ::
            var k := IndexOf(cs, b.members, ms[i].key);
            k < |b.members| && Compare(cs, ms[i].value, b.members[k].value))
      && (forall k | 0 <= k < |b.members| ::
            var i := IndexOf(cs, ms, b.members[k].key);
            i < |ms| && Compare(cs, b.members[k].value, ms[i].value))
    case _ => a == b
  }

  /** compare_json: sort the members of both objects, then walk the two lists side by side. */
  predicate CompareSorted(cs: bool, a: Json, b: Json)
    decreases Nesting(a)
  {
    match a
    case Array(xs) =>
      b.Array? && |xs| == |b.items| && forall i | 0 <= i < |xs| :: CompareSorted(cs, xs[i], b.items[i])
    case Object(ms) =>
      && b.Object?
      && |ms| == |b.members|
      && forall i | 0 <= i < |ms| ::
           var (m, n) := (MergeSort(cs, ms)[i], MergeSort(cs, b.members)[i]);
           assert Nesting(m.value) < Nesting(a) by { SortedMember(cs, ms, i); }
           CompareStrings(cs, m.key, n.key) == 0 && CompareSorted(cs, m.value, n.value)
    case _ => a == b
  }

  lemma SortedMember<T>(cs: bool, ms: seq<Member<T>>, i: nat)
    requires i < |ms|
    ensures MergeSort(cs, ms)[i] in ms
  {
    MergeSortPermutes(cs, ms);
    InMultiset(MergeSort(cs, ms), ms, MergeSort(cs, ms)[i]);
  }

  lemma {:induction false} UniqueOccursOnce<T>(cs: bool, ms: seq<Member<T>>, m: Member<T>)
    requires UniqueKeys(cs, ms)
    ensures multiset(ms)[m] <= 1
  {
    if ms != [] {
      Uncons(ms);
      UniqueOccursOnce(cs, ms[1..], m);
      assert ms[0] !in ms[1..];
    }
  }

  lemma TwiceInMultiset<T>(s: seq<T>, i: nat, j: nat)
    requires i < j < |s| && s[i] == s[j]
    ensures multiset(s)[s[i]] >= 2
  {
    SplitMultiset(s, j);
    assert s[..j][i] == s[i] && s[j..][0] == s[i];
    assert s[i] in multiset(s[..j]) && s[i] in multiset(s[j..]);
  }

  lemma {:induction false} PermutedUnique<T>(cs: bool, ms: seq<Member<T>>, ns: seq<Member<T>>)
    requires UniqueKeys(cs, ms) && multiset(ms) == multiset(ns)
    ensures UniqueKeys(cs, ns)
  {
    forall i, j | 0 <= i < j < |ns| ensures !KeyEq(cs, ns[i].key, ns[j].key) {
      InMultiset(ms, ns, ns[i]);
      InMultiset(ms, ns, ns[j]);
      if ns[i] == ns[j] {
        TwiceInMultiset(ns, i, j);
        UniqueOccursOnce(cs, ms, ns[i]);
      }
    }
  }

  /** With unique keys, what a key looks up does not depend on the order of the members. */
  lemma {:induction false} PermutedLookup<T>(cs: bool, ms: seq<Member<T>>, ns: seq<Member<T>>, key: string)
    requires UniqueKeys(cs, ms) && multiset(ms) == multiset(ns)
    ensures Lookup(cs, ms, key) == Lookup(cs, ns, key)
  {
    PermutedUnique(cs, ms, ns);
    var i, k := IndexOf(cs, ms, key), IndexOf(cs, ns, key);
    if i < |ms| { InMultiset(ms, ns, ms[i]); }
    if k < |ns| { InMultiset(ms, ns, ns[k]); }
  }

  lemma MergeSortUnique<T>(cs: bool, ms: seq<Member<T>>)
    requires UniqueKeys(cs, ms)
    ensures var s := MergeSort(cs, ms); UniqueKeys(cs, s) && StrictlySorted(cs, s)
  {
    var s := MergeSort(cs, ms);
    MergeSortPermutes(cs, ms);
    PermutedUnique(cs, ms, s);
    MergeSortSorts(cs, ms);
    forall i, j | 0 <= i < j < |s| ensures CompareStrings(cs, s[i].key, s[j].key) < 0 {
      StrCmpZero(Fold(cs, s[i].key), Fold(cs, s[j].key));
    }
  }

  ghost predicate SameKeySet<T>(cs: bool, s: seq<Member<T>>, t: seq<Member<T>>) {
    forall key: string :: IndexOf(cs, s, key) < |s| <==> IndexOf(cs, t, key) < |t|
  }

  /** Strictly sorted lists that look up the same keys agree on their keys, position by position. */
  lemma {:induction false} SortedSameKeys<T>(cs: bool, s: seq<Member<T>>, t: seq<Member<T>>, i: nat)
    requires StrictlySorted(cs, s) && StrictlySorted(cs, t)
    requires SameKeySet(cs, s, t) && SameKeySet(cs, t, s) && i <= |s| && i <= |t|
    requires forall j | 0 <= j < i :: KeyEq(cs, s[j].key, t[j].key)
    ensures |s| == |t| && forall j | 0 <= j < |s| :: KeyEq(cs, s[j].key, t[j].key)
    decreases |s| - i
  {
    hide SameKeySet, Fold, CompareStrings;
    StrictIndex(cs, s);
    StrictIndex(cs, t);
    if i < |s| {
      SortedNextKey(cs, s, t, i);
      SortedSameKeys(cs, s, t, i + 1);
    } else if i < |t| {
      SortedNextKey(cs, t, s, i);
      assert false;
    }
  }

  lemma {:induction false} SortedNextKey<T>(cs: bool, s: seq<Member<T>>, t: seq<Member<T>>, i: nat)
    requires StrictlySorted(cs, s) && StrictlySorted(cs, t) && UniqueKeys(cs, s) && UniqueKeys(cs, t)
    requires SameKeySet(cs, s, t) && i < |s| && i <= |t|
    requires forall j | 0 <= j < i :: KeyEq(cs, s[j].key, t[j].key)
    ensures i < |t| && KeyEq(cs, s[i].key, t[i].key)
  {
    hide Fold, StrCmp;
    var p := IndexOf(cs, t, s[i].key);
    assert IndexOf(cs, s, s[i].key) < |s|;
    assert p < |t| && p >= i;
    if p > i {
      var q := IndexOf(cs, s, t[i].key);
      assert IndexOf(cs, t, t[i].key) < |t|;
      assert q < |s| && q >= i;
      hide SameKeySet, IndexOf, UniqueKeys;
      StrCmpAntisymmetric(Fold(cs, s[q].key), Fold(cs, s[i].key));
    }
  }

  lemma StrictIndex<T>(cs: bool, s: seq<Member<T>>)
    requires StrictlySorted(cs, s)
    ensures UniqueKeys(cs, s)
    ensures forall i | 0 <= i < |s| :: IndexOf(cs, s, s[i].key) == i
  {
    forall i, j | 0 <= i < j < |s| ensures !KeyEq(cs, s[i].key, s[j].key) {
      StrCmpZero(Fold(cs, s[i].key), Fold(cs, s[j].key));
    }
  }

  /** A key before the head of a strictly sorted list is not in it. */
  lemma BeforeHead<T>(cs: bool, key: string, s: seq<Member<T>>)
    requires StrictlySorted(cs, s) && (s != [] ==> CompareStrings(cs, key, s[0].key) < 0)
    ensures forall k: string | KeyEq(cs, k, key) :: Lookup(cs, s, k).None?
  {
    forall i | 0 <= i < |s| ensures !KeyEq(cs, s[i].key, key) {
      if i > 0 { StrCmpTransitive(Fold(cs, key), Fold(cs, s[0].key), Fold(cs, s[i].key)); }
      StrCmpZero(Fold(cs, key), Fold(cs, s[i].key));
    }
    forall k: string | KeyEq(cs, k, key) ensures Lookup(cs, s, k).None? {
      assert IndexOf(cs, s, k) < |s| ==> KeyEq(cs, s[IndexOf(cs, s, k)].key, key);
    }
  }

  lemma IndexOfOwnKey<T>(cs: bool, ms: seq<Member<T>>, i: nat)
    requires i < |ms| && UniqueKeys(cs, ms)
    ensures IndexOf(cs, ms, ms[i].key) == i
  {
    assert KeyEq(cs, ms[IndexOf(cs, ms, ms[i].key)].key, ms[i].key);
  }

  /** On trees with unique keys the double lookup decides `Same`. */
  lemma {:induction false} CompareMeansSame(cs: bool, a: Json, b: Json)
    requires Unique(cs, a) && Unique(cs, b)
    ensures Compare(cs, a, b) <==> Same(cs, a, b)
    decreases Nesting(a) + Nesting(b)
  {
    match a
    case Array(xs) =>
      if b.Array? && |xs| == |b.items| {
        forall i | 0 <= i < |xs| ensures Compare(cs, xs[i], b.items[i]) <==> Same(cs, xs[i], b.items[i]) {
          CompareMeansSame(cs, xs[i], b.items[i]);
        }
      }
    case Object(ms) =>
      if b.Object? {
        CompareMeansSameMembers(cs, a, b);
        if Compare(cs, a, b) { LookupsFromCompare(cs, a, b); }
        if Same(cs, a, b) { CompareFromLookups(cs, a, b); }
      }
    case _ =>
  }

  ghost predicate MembersAgree(cs: bool, a: Json, b: Json)
    requires a.Object? && b.Object?
  {
    forall i, k | 0 <= i < |a.members| && 0 <= k < |b.members| ::
      var (u, v) := (a.members[i].value, b.members[k].value);
      (Compare(cs, u, v) <==> Same(cs, u, v)) && (Compare(cs, v, u) <==> Same(cs, u, v))
  }

  lemma {:induction false} CompareMeansSameMembers(cs: bool, a: Json, b: Json)
    requires a.Object? && b.Object? && Unique(cs, a) && Unique(cs, b)
    ensures MembersAgree(cs, a, b)
    decreases Nesting(a) + Nesting(b), 0
  {
    forall i, k | 0 <= i < |a.members| && 0 <= k < |b.members|
      ensures var (u, v) := (a.members[i].value, b.members[k].value);
        (Compare(cs, u, v) <==> Same(cs, u, v)) && (Compare(cs, v, u) <==> Same(cs, u, v))
    {
      var (u, v) := (a.members[i].value, b.members[k].value);
      CompareMeansSame(cs, u, v);
      CompareMeansSame(cs, v, u);
      if Same(cs, u, v) { SameSymmetric(cs, u, v); }
      if Same(cs, v, u) { SameSymmetric(cs, v, u); }
    }
  }

  lemma {:induction false} LookupsFromCompare(cs: bool, a: Json, b: Json)
    requires a.Object? && b.Object? && MembersAgree(cs, a, b) && Compare(cs, a, b)
    ensures Same(cs, a, b)
  {
    var ms, ns := a.members, b.members;
    forall key: string
      ensures var i, k := IndexOf(cs, ms, key), IndexOf(cs, ns, key);
        (i < |ms| <==> k < |ns|) && (i < |ms| ==> Same(cs, ms[i].value, ns[k].value))
    {
      var i, k := IndexOf(cs, ms, key), IndexOf(cs, ns, key);
      if i < |ms| { IndexOfFold(cs, ns, ms[i].key, key); }
      if k < |ns| { IndexOfFold(cs, ms, ns[k].key, key); }
    }
  }

  lemma {:induction false} CompareFromLookups(cs: bool, a: Json, b: Json)
    requires a.Object? && b.Object? && Unique(cs, a) && Unique(cs, b)
    requires MembersAgree(cs, a, b) && Same(cs, a, b)
    ensures Compare(cs, a, b)
  {
    var ms, ns := a.members, b.members;
    forall i | 0 <= i < |ms|
      ensures var k := IndexOf(cs, ns, ms[i].key); k < |ns| && Compare(cs, ms[i].value, ns[k].value)
    {
      IndexOfOwnKey(cs, ms, i);
    }
    forall k | 0 <= k < |ns|
      ensures var i := IndexOf(cs, ms, ns[k].key); i < |ms| && Compare(cs, ns[k].value, ms[i].value)
    {
      IndexOfOwnKey(cs, ns, k);
    }
  }

  /** On trees with unique keys the sort-and-zip comparison decides `Same` too. */
  lemma {:induction false} CompareSortedMeansSame(cs: bool, a: Json, b: Json)
    requires Unique(cs, a) && Unique(cs, b)
    ensures CompareSorted(cs, a, b) <==> Same(cs, a, b)
    decreases Nesting(a)
  {
    match a
    case Array(xs) =>
      if b.Array? && |xs| == |b.items| {
        forall i | 0 <= i < |xs| ensures CompareSorted(cs, xs[i], b.items[i]) <==> Same(cs, xs[i], b.items[i]) {
          CompareSortedMeansSame(cs, xs[i], b.items[i]);
        }
      }
    case Object(ms) =>
      if b.Object? {
        SameWhenSorted(cs, ms, b.members);
        forall i | 0 <= i < |ms| && |ms| == |b.members|
          ensures var (u, v) := (MergeSort(cs, ms)[i].value, MergeSort(cs, b.members)[i].value);
            CompareSorted(cs, u, v) <==> Same(cs, u, v)
        {
          SortedMember(cs, ms, i);
          SortedMember(cs, b.members, i);
          CompareSortedMeansSame(cs, MergeSort(cs, ms)[i].value, MergeSort(cs, b.members)[i].value);
        }
        CompareSortedZip(cs, a, b);
      }
    case _ =>
  }

  lemma {:induction false} CompareSortedZip(cs: bool, a: Json, b: Json)
    requires a.Object? && b.Object?
    requires |a.members| == |b.members| ==> forall i | 0 <= i < |a.members| ::
      var (u, v) := (MergeSort(cs, a.members)[i].value, MergeSort(cs, b.members)[i].value);
      CompareSorted(cs, u, v) <==> Same(cs, u, v)
    ensures CompareSorted(cs, a, b) <==> SameZipped(cs, MergeSort(cs, a.members), MergeSort(cs, b.members))
  {
    var s, t := MergeSort(cs, a.members), MergeSort(cs, b.members);
    forall i | 0 <= i < |s| && i < |t|
      ensures CompareStrings(cs, s[i].key, t[i].key) == 0 <==> KeyEq(cs, s[i].key, t[i].key)
    {
      StrCmpZero(Fold(cs, s[i].key), Fold(cs, t[i].key));
    }
  }

  lemma {:induction false} SameWhenSorted(cs: bool, ms: seq<Member<Json>>, ns: seq<Member<Json>>)
    requires UniqueKeys(cs, ms) && UniqueKeys(cs, ns)
    ensures Same(cs, Object(ms), Object(ns)) <==> SameZipped(cs, MergeSort(cs, ms), MergeSort(cs, ns))
  {
    var s, t := MergeSort(cs, ms), MergeSort(cs, ns);
    MergeSortUnique(cs, ms);
    MergeSortUnique(cs, ns);
    SameByLookups(cs, ms, ns);
    LookupsAfterSort(cs, ms, ns);
    if SameLookups(cs, s, t) { LookupsOfSorted(cs, s, t); }
    if SameZipped(cs, s, t) { LookupsOfZipped(cs, s, t); }
  }

  /** A key looks up the same in both lists, for every key. */
  ghost predicate SameLookups(cs: bool, ms: seq<Member<Json>>, ns: seq<Member<Json>>) {
    forall key: string :: SameLookup(cs, ms, ns, key)
  }

  ghost predicate SameLookup(cs: bool, ms: seq<Member<Json>>, ns: seq<Member<Json>>, key: string) {
    var (u, v) := (Lookup(cs, ms, key), Lookup(cs, ns, key));
    (u.Some? <==> v.Some?) && (u.Some? ==> Same(cs, u.value, v.value))
  }

  lemma {:induction false} SameByLookups(cs: bool, ms: seq<Member<Json>>, ns: seq<Member<Json>>)
    ensures Same(cs, Object(ms), Object(ns)) <==> SameLookups(cs, ms, ns)
  {
    if SameLookups(cs, ms, ns) {
      forall key: string
        ensures var i, k := IndexOf(cs, ms, key), IndexOf(cs, ns, key);
          (i < |ms| <==> k < |ns|) && (i < |ms| ==> Same(cs, ms[i].value, ns[k].value))
      {
        assert SameLookup(cs, ms, ns, key);
      }
    }
  }

  lemma {:induction false} LookupsAfterSort(cs: bool, ms: seq<Member<Json>>, ns: seq<Member<Json>>)
    requires UniqueKeys(cs, ms) && UniqueKeys(cs, ns)
    ensures SameLookups(cs, ms, ns) <==> SameLookups(cs, MergeSort(cs, ms), MergeSort(cs, ns))
  {
    var s, t := MergeSort(cs, ms), MergeSort(cs, ns);
    MergeSortPermutes(cs, ms);
    MergeSortPermutes(cs, ns);
    forall key: string ensures SameLookup(cs, ms, ns, key) <==> SameLookup(cs, s, t, key) {
      PermutedLookup(cs, ms, s, key);
      PermutedLookup(cs, ns, t, key);
    }
  }

  ghost predicate SameZipped(cs: bool, s: seq<Member<Json>>, t: seq<Member<Json>>) {
    |s| == |t| && forall i | 0 <= i < |s| :: KeyEq(cs, s[i].key, t[i].key) && Same(cs, s[i].value, t[i].value)
  }

  lemma {:induction false} LookedUpKeys(cs: bool, s: seq<Member<Json>>, t: seq<Member<Json>>)
    requires SameLookups(cs, s, t)
    ensures SameKeySet(cs, s, t) && SameKeySet(cs, t, s)
  {
    hide Fold, Same, IndexOf;
    forall key: string ensures IndexOf(cs, s, key) < |s| <==> IndexOf(cs, t, key) < |t| {
      assert SameLookup(cs, s, t, key);
    }
  }

  lemma {:induction false} ZippedValue(cs: bool, s: seq<Member<Json>>, t: seq<Member<Json>>, i: nat)
    requires i < |s| == |t| && SameLookups(cs, s, t) && KeyEq(cs, s[i].key, t[i].key)
    requires IndexOf(cs, s, s[i].key) == i && IndexOf(cs, t, t[i].key) == i
    ensures Same(cs, s[i].value, t[i].value)
  {
    hide Fold, Same;
    IndexOfFold(cs, t, s[i].key, t[i].key);
    hide IndexOf;
    assert SameLookup(cs, s, t, s[i].key);
  }

  lemma {:induction false} LookupsOfSorted(cs: bool, s: seq<Member<Json>>, t: seq<Member<Json>>)
    requires StrictlySorted(cs, s) && StrictlySorted(cs, t) && SameLookups(cs, s, t)
    ensures SameZipped(cs, s, t)
  {
    hide Fold, Same, CompareStrings, IndexOf, SameKeySet, SameLookups, StrictlySorted;
    StrictIndex(cs, s);
    StrictIndex(cs, t);
    LookedUpKeys(cs, s, t);
    SortedSameKeys(cs, s, t, 0);
    forall i | 0 <= i < |s| ensures Same(cs, s[i].value, t[i].value) {
      ZippedValue(cs, s, t, i);
    }
  }

  lemma {:induction false} LookupsOfZipped(cs: bool, s: seq<Member<Json>>, t: seq<Member<Json>>)
    requires SameZipped(cs, s, t)
    ensures SameLookups(cs, s, t)
  {
    forall key: string ensures SameLookup(cs, s, t, key) {
      var i, k := IndexOf(cs, s, key), IndexOf(cs, t, key);
      assert i < |s| ==> KeyEq(cs, t[i].key, key);
      assert k < |t| ==> KeyEq(cs, s[k].key, key);
      assert i == k;
    }
  }
}
