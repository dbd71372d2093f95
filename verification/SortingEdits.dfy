/** Sorted member lists: walking two of them at once, and sorting lists that differ in one member. */
module SortingEdits {
  import opened CStrings
  import opened JsonTree
  import opened Sequences
  import opened Members
  import opened Sorting
  import opened Equality

  lemma StrictTail<T>(cs: bool, s: seq<Member<T>>)
    requires StrictlySorted(cs, s)
    ensures UniqueKeys(cs, s) && (s != [] ==> StrictlySorted(cs, s[1..]))
  {
    StrictIndex(cs, s);
  }

  // ---------- walking

  lemma {:induction false} LookupFold(cs: bool, ms: seq<Member<Json>>, a: string, b: string)
    requires KeyEq(cs, a, b)
    ensures Lookup(cs, ms, a) == Lookup(cs, ms, b)
  {
    IndexOfFold(cs, ms, a, b);
  }

  /** fs' is fs without the key k: what the walk leaves of a list when the key has had its turn. */
  ghost predicate Dropped(cs: bool, fs: seq<Member<Json>>, fs': seq<Member<Json>>, k: string) {
    forall x: string :: Lookup(cs, fs', x) == if KeyEq(cs, x, k) then None else Lookup(cs, fs, x)
  }

  lemma {:induction false} DroppedHead(cs: bool, fs: seq<Member<Json>>)
    requires fs != [] && UniqueKeys(cs, fs)
    ensures Dropped(cs, fs, fs[1..], fs[0].key)
  {
    forall x: string ensures Lookup(cs, fs[1..], x) == if KeyEq(cs, x, fs[0].key) then None else Lookup(cs, fs, x) {
      TailLookup(cs, fs, x);
    }
  }

  lemma {:induction false} DroppedNone(cs: bool, ts: seq<Member<Json>>, k: string)
    requires StrictlySorted(cs, ts) && (ts != [] ==> CompareStrings(cs, k, ts[0].key) < 0)
    ensures Dropped(cs, ts, ts, k)
  {
    BeforeHead(cs, k, ts);
  }

  lemma {:induction false} LookupDropped(cs: bool, ts: seq<Member<Json>>, k: string)
    requires Dropped(cs, ts, ts, k)
    ensures Lookup(cs, ts, k).None?
  {
    assert KeyEq(cs, k, k);
  }

  // ---------- sorting

  lemma TailsAgree<T>(s: seq<T>, t: seq<T>)
    requires s != [] && t != [] && s[0] == t[0] && multiset(s) == multiset(t)
    ensures multiset(s[1..]) == multiset(t[1..])
  {
    Uncons(s);
    Uncons(t);
    assert multiset(s[1..]) == multiset(s) - multiset{s[0]};
    assert multiset(t[1..]) == multiset(t) - multiset{t[0]};
  }

  lemma {:induction false} SortedOnce(cs: bool, s: seq<Member<Json>>, t: seq<Member<Json>>)
    requires StrictlySorted(cs, s) && StrictlySorted(cs, t) && multiset(s) == multiset(t)
    ensures s == t
  {
    hide StrictlySorted;
    assert |s| == |multiset(s)| == |multiset(t)| == |t|;
    if s != [] {
      SameHead(cs, s, t);
      TailsAgree(s, t);
      StrictTail(cs, s);
      StrictTail(cs, t);
      SortedOnce(cs, s[1..], t[1..]);
    }
  }

  lemma {:induction false} SameHead(cs: bool, s: seq<Member<Json>>, t: seq<Member<Json>>)
    requires StrictlySorted(cs, s) && StrictlySorted(cs, t) && multiset(s) == multiset(t) && s != [] && t != []
    ensures s[0] == t[0]
  {
    InMultiset(s, t, s[0]);
    InMultiset(s, t, t[0]);
    var a :| 0 <= a < |t| && t[a] == s[0];
    var b :| 0 <= b < |s| && s[b] == t[0];
    StrCmpAntisymmetric(Fold(cs, s[0].key), Fold(cs, t[0].key));
    hide StrCmp, Fold;
  }

  lemma WithoutMultiset<T>(s: seq<T>, i: nat)
    requires i < |s|
    ensures multiset(s) == multiset(Without(s, i)) + multiset{s[i]}
  {
    assert s == s[..i] + ([s[i]] + s[i + 1..]);
  }

  lemma SameWithout<T>(s: seq<T>, i: nat, t: seq<T>, j: nat)
    requires i < |s| && j < |t| && multiset(s) == multiset(t) && s[i] == t[j]
    ensures multiset(Without(s, i)) == multiset(Without(t, j))
  {
    WithoutMultiset(s, i);
    WithoutMultiset(t, j);
    assert multiset(Without(s, i)) == multiset(s) - multiset{s[i]};
    assert multiset(Without(t, j)) == multiset(t) - multiset{t[j]};
  }

  lemma SameUpdated<T>(s: seq<T>, i: nat, t: seq<T>, j: nat, x: T)
    requires i < |s| && j < |t| && multiset(s) == multiset(t) && s[i] == t[j]
    ensures multiset(s[i := x]) == multiset(t[j := x])
  {
    SameWithout(s, i, t, j);
    assert Without(s[i := x], i) == Without(s, i) && Without(t[j := x], j) == Without(t, j);
    WithoutMultiset(s[i := x], i);
    WithoutMultiset(t[j := x], j);
  }

  lemma {:induction false} SortFacts(cs: bool, ms: seq<Member<Json>>)
    requires UniqueKeys(cs, ms)
    ensures StrictlySorted(cs, MergeSort(cs, ms)) && multiset(MergeSort(cs, ms)) == multiset(ms)
  {
    MergeSortUnique(cs, ms);
    MergeSortPermutes(cs, ms);
  }

  lemma {:induction false} SortedAt(cs: bool, ms: seq<Member<Json>>, i: nat) returns (j: nat)
    requires i < |ms|
    ensures j < |MergeSort(cs, ms)| && MergeSort(cs, ms)[j] == ms[i]
  {
    MergeSortPermutes(cs, ms);
    InMultiset(MergeSort(cs, ms), ms, ms[i]);
    j :| 0 <= j < |MergeSort(cs, ms)| && MergeSort(cs, ms)[j] == ms[i];
  }

  lemma {:induction false} WithoutKeepsOrder(cs: bool, ms: seq<Member<Json>>, i: nat)
    requires i < |ms|
    ensures UniqueKeys(cs, ms) ==> UniqueKeys(cs, Without(ms, i))
    ensures StrictlySorted(cs, ms) ==> StrictlySorted(cs, Without(ms, i))
  {
    hide Fold, StrCmp;
  }

  lemma {:induction false} UpdateKeepsOrder(cs: bool, ms: seq<Member<Json>>, i: nat, v: Json)
    requires i < |ms|
    ensures UniqueKeys(cs, ms) ==> UniqueKeys(cs, ms[i := Member(ms[i].key, v)])
    ensures StrictlySorted(cs, ms) ==> StrictlySorted(cs, ms[i := Member(ms[i].key, v)])
  {
    hide Fold, StrCmp;
  }

  /** Leaving a member out commutes with sorting. */
  lemma {:induction false} SortWithout(cs: bool, ms: seq<Member<Json>>, i: nat) returns (j: nat)
    requires UniqueKeys(cs, ms) && i < |ms|
    ensures j < |MergeSort(cs, ms)| && MergeSort(cs, ms)[j] == ms[i]
    ensures MergeSort(cs, Without(ms, i)) == Without(MergeSort(cs, ms), j)
  {
    hide MergeSort, UniqueKeys, StrictlySorted, Without;
    var s := MergeSort(cs, ms);
    WithoutKeepsOrder(cs, ms, i);
    SortFacts(cs, ms);
    SortFacts(cs, Without(ms, i));
    j := SortedAt(cs, ms, i);
    SameWithout(ms, i, s, j);
    WithoutKeepsOrder(cs, s, j);
    SortedOnce(cs, MergeSort(cs, Without(ms, i)), Without(s, j));
  }

  /** So does exchanging the value of a member. */
  lemma {:induction false} SortChanged(cs: bool, ms: seq<Member<Json>>, i: nat, v: Json) returns (j: nat)
    requires UniqueKeys(cs, ms) && i < |ms|
    ensures j < |MergeSort(cs, ms)| && MergeSort(cs, ms)[j] == ms[i]
    ensures MergeSort(cs, ms[i := Member(ms[i].key, v)]) == MergeSort(cs, ms)[j := Member(ms[i].key, v)]
  {
    hide MergeSort, UniqueKeys, StrictlySorted;
    var (m, s) := (Member(ms[i].key, v), MergeSort(cs, ms));
    UpdateKeepsOrder(cs, ms, i, v);
    SortFacts(cs, ms);
    SortFacts(cs, ms[i := m]);
    j := SortedAt(cs, ms, i);
    SameUpdated(ms, i, s, j, m);
    UpdateKeepsOrder(cs, s, j, v);
    SortedOnce(cs, MergeSort(cs, ms[i := m]), s[j := m]);
  }
}
