/** Unique keys are not only enough for cJSON_Compare and compare_json to agree: every tree without them is a witness. */
module RepeatedKeys {
  import opened CStrings
  import opened JsonTree
  import opened Sequences
  import opened Members
  import opened Sorting
  import opened Equality
  import opened SortingEdits

  lemma {:induction false} CompareSortedReflexive(cs: bool, a: Json)
    ensures CompareSorted(cs, a, a)
    decreases Nesting(a)
  {
    match a {
      case Array(xs) =>
        forall i | 0 <= i < |xs| ensures CompareSorted(cs, xs[i], xs[i]) { CompareSortedReflexive(cs, xs[i]); }
      case Object(ms) =>
        forall i | 0 <= i < |ms|
          ensures var m := MergeSort(cs, ms)[i]; CompareStrings(cs, m.key, m.key) == 0 && CompareSorted(cs, m.value, m.value)
        {
          var m := MergeSort(cs, ms)[i];
          SortedMember(cs, ms, i);
          StrCmpZero(Fold(cs, m.key), Fold(cs, m.key));
          CompareSortedReflexive(cs, m.value);
        }
      case _ =>
    }
  }

  /** b is equal to a for the double lookup, in both directions, and different for the zip. */
  ghost predicate Divides(cs: bool, a: Json, b: Json) {
    Compare(cs, a, b) && Compare(cs, b, a) && !CompareSorted(cs, a, b)
  }

  /** Member i of ms is found in ns, with an equal value. */
  predicate FoundIn(cs: bool, ms: seq<Member<Json>>, ns: seq<Member<Json>>, i: nat)
    requires i < |ms|
  {
    var k := IndexOf(cs, ns, ms[i].key);
    k < |ns| && Compare(cs, ms[i].value, ns[k].value)
  }

  lemma {:induction false} CompareByFinding(cs: bool, ms: seq<Member<Json>>, ns: seq<Member<Json>>)
    ensures Compare(cs, Object(ms), Object(ns))
      <==> (forall i | 0 <= i < |ms| :: FoundIn(cs, ms, ns, i)) && (forall k | 0 <= k < |ns| :: FoundIn(cs, ns, ms, k))
  {
    hide IndexOf;
    if (forall i | 0 <= i < |ms| :: FoundIn(cs, ms, ns, i)) && (forall k | 0 <= k < |ns| :: FoundIn(cs, ns, ms, k)) {
      forall i | 0 <= i < |ms|
        ensures var k := IndexOf(cs, ns, ms[i].key); k < |ns| && Compare(cs, ms[i].value, ns[k].value)
      {
        assert FoundIn(cs, ms, ns, i);
      }
      forall k | 0 <= k < |ns|
        ensures var i := IndexOf(cs, ms, ns[k].key); i < |ms| && Compare(cs, ns[k].value, ms[i].value)
      {
        assert FoundIn(cs, ns, ms, k);
      }
    }
  }

  lemma {:induction false} SameHit(cs: bool, ms: seq<Member<Json>>, r: nat, key: string)
    requires r < |ms| && IndexOf(cs, ms, ms[r].key) != r && IndexOf(cs, ms, key) < |ms|
    ensures var k := IndexOf(cs, Without(ms, r), key); k < |ms| - 1 && Without(ms, r)[k] == ms[IndexOf(cs, ms, key)]
  {
    hide Fold;
    NotFirst(cs, ms, r, key);
    IndexOfWithout(cs, ms, r, key);
  }

  lemma {:induction false} FoundInRest(cs: bool, ms: seq<Member<Json>>, r: nat, i: nat)
    requires r < |ms| && i < |ms| && IndexOf(cs, ms, ms[r].key) != r && FoundIn(cs, ms, ms, i)
    ensures FoundIn(cs, ms, Without(ms, r), i)
    ensures i != r ==> FoundIn(cs, Without(ms, r), ms, if i < r then i else i - 1)
  {
    SameHit(cs, ms, r, ms[i].key);
    assert i != r ==> Without(ms, r)[if i < r then i else i - 1] == ms[i];
    hide Compare, IndexOf, Without, KeyEq;
  }

  lemma {:induction false} OtherLength(cs: bool, ms: seq<Member<Json>>, ns: seq<Member<Json>>)
    requires |ms| != |ns|
    ensures !CompareSorted(cs, Object(ms), Object(ns))
  {
    hide MergeSort;
  }

  /** Leaving out a member that an earlier one with the same key hides. */
  lemma {:induction false} HiddenMember(cs: bool, ms: seq<Member<Json>>, r: nat)
    requires r < |ms| && IndexOf(cs, ms, ms[r].key) != r && Compare(cs, Object(ms), Object(ms))
    ensures Divides(cs, Object(ms), Object(Without(ms, r)))
  {
    hide Compare, CompareSorted, FoundIn, IndexOf, Fold;
    var rest := Without(ms, r);
    CompareByFinding(cs, ms, ms);
    forall i | 0 <= i < |ms| ensures FoundIn(cs, ms, rest, i) { FoundInRest(cs, ms, r, i); }
    forall k | 0 <= k < |rest| ensures FoundIn(cs, rest, ms, k) { FoundInRest(cs, ms, r, if k < r then k else k + 1); }
    CompareByFinding(cs, ms, rest);
    CompareByFinding(cs, rest, ms);
    OtherLength(cs, ms, rest);
  }

  lemma NotFirst(cs: bool, ms: seq<Member<Json>>, r: nat, key: string)
    requires r < |ms| && IndexOf(cs, ms, ms[r].key) != r
    ensures IndexOf(cs, ms, key) != r
  {
    if KeyEq(cs, ms[r].key, key) { IndexOfFold(cs, ms, ms[r].key, key); }
  }

  lemma {:induction false} CompareByElements(cs: bool, xs: seq<Json>, ys: seq<Json>)
    ensures Compare(cs, Array(xs), Array(ys)) <==> |xs| == |ys| && forall i | 0 <= i < |xs| :: Compare(cs, xs[i], ys[i])
    ensures CompareSorted(cs, Array(xs), Array(ys)) <==> |xs| == |ys| && forall i | 0 <= i < |xs| :: CompareSorted(cs, xs[i], ys[i])
  {
  }

  lemma {:induction false} DividedElement(cs: bool, xs: seq<Json>, i: nat, c: Json)
    requires i < |xs| && Compare(cs, Array(xs), Array(xs)) && Divides(cs, xs[i], c)
    ensures Divides(cs, Array(xs), Array(xs[i := c]))
  {
    hide Compare, CompareSorted;
    var ys := xs[i := c];
    CompareByElements(cs, xs, xs);
    CompareByElements(cs, xs, ys);
    CompareByElements(cs, ys, xs);
    assert !CompareSorted(cs, xs[i], ys[i]);
  }

  lemma {:induction false} DividedMember(cs: bool, ms: seq<Member<Json>>, i: nat, c: Json)
    requires UniqueKeys(cs, ms) && i < |ms| && Compare(cs, Object(ms), Object(ms)) && Divides(cs, ms[i].value, c)
    ensures Divides(cs, Object(ms), Object(ms[i := Member(ms[i].key, c)]))
  {
    hide Fold, Compare, CompareSorted, IndexOf;
    var ns := ms[i := Member(ms[i].key, c)];
    CompareByFinding(cs, ms, ms);
    forall k | 0 <= k < |ms| ensures FoundIn(cs, ms, ns, k) && FoundIn(cs, ns, ms, k) {
      assert FoundIn(cs, ms, ms, k);
      IndexOfOwnKey(cs, ms, k);
      UpdatedIndex(cs, ms, i, c, ms[k].key);
    }
    hide FoundIn;
    CompareByFinding(cs, ms, ns);
    CompareByFinding(cs, ns, ms);
    DividedWhenSorted(cs, ms, i, c);
  }

  lemma {:induction false} DividedWhenSorted(cs: bool, ms: seq<Member<Json>>, i: nat, c: Json)
    requires UniqueKeys(cs, ms) && i < |ms| && !CompareSorted(cs, ms[i].value, c)
    ensures !CompareSorted(cs, Object(ms), Object(ms[i := Member(ms[i].key, c)]))
  {
    hide MergeSort, CompareStrings;
    var j := SortChanged(cs, ms, i, c);
    assert MergeSort(cs, ms[i := Member(ms[i].key, c)])[j] == Member(ms[i].key, c);
  }

  /** A tree that equals itself, and in which some key is repeated, has a partner on which the two disagree. */
  lemma {:induction false} DividingPartner(cs: bool, a: Json) returns (b: Json)
    requires !Unique(cs, a) && Compare(cs, a, a)
    ensures Divides(cs, a, b)
    decreases a
  {
    hide CompareSorted, Fold, Divides;
    match a {
      case Array(xs) =>
        var i :| 0 <= i < |xs| && !Unique(cs, xs[i]);
        var c := DividingPartner(cs, xs[i]);
        DividedElement(cs, xs, i, c);
        b := Array(xs[i := c]);
      case Object(ms) =>
        if !UniqueKeys(cs, ms) {
          var i, r :| 0 <= i < r < |ms| && KeyEq(cs, ms[i].key, ms[r].key);
          HiddenMember(cs, ms, r);
          b := Object(Without(ms, r));
        } else {
          var i :| 0 <= i < |ms| && !Unique(cs, ms[i].value);
          IndexOfOwnKey(cs, ms, i);
          var c := DividingPartner(cs, ms[i].value);
          DividedMember(cs, ms, i, c);
          b := Object(ms[i := Member(ms[i].key, c)]);
        }
    }
  }

  /**
   The two comparisons disagree on every tree in which some object repeats a key, with itself or with the tree
   that lacks one repeated member.
   */
  lemma {:induction false} UniquenessIsNeeded(cs: bool, a: Json)
    requires !Unique(cs, a)
    ensures exists b :: Compare(cs, a, b) != CompareSorted(cs, a, b)
  {
    if Compare(cs, a, a) {
      var b := DividingPartner(cs, a);
      assert Compare(cs, a, b) != CompareSorted(cs, a, b);
    } else {
      CompareSortedReflexive(cs, a);
      assert Compare(cs, a, a) != CompareSorted(cs, a, a);
    }
  }
}
