/** The order of keys, spelled out on characters, and what sorting by it makes of a member list. */
module KeyOrder {
  import opened CStrings
  import opened JsonTree
  import opened Sorting

  /** tolower changes the 26 ASCII capitals and nothing else. */
  lemma LettersLowered(c: char)
    ensures var (upper, lower) := ("ABCDEFGHIJKLMNOPQRSTUVWXYZ", "abcdefghijklmnopqrstuvwxyz");
      && |upper| == |lower| == 26
      && (forall i | 0 <= i < 26 :: Lower(upper)[i] == lower[i])
      && (c !in upper ==> Lower([c]) == [c])
  {
    var upper := "ABCDEFGHIJKLMNOPQRSTUVWXYZ";
    if 'A' <= c <= 'Z' { assert upper[c as int - 'A' as int] == c; }
  }

  /** The characters of a key as they are compared: capitals count as small letters unless the flag is set. */
  function Compared(cs: bool, key: string): (r: string)
    ensures |r| == |key|
  {
    seq(|key|, i requires 0 <= i < |key| =>
      if !cs && 'A' <= key[i] <= 'Z' then (key[i] as int - 'A' as int + 'a' as int) as char else key[i])
  }

  lemma ComparedIsFold(cs: bool, key: string)
    ensures Compared(cs, key) == Fold(cs, key)
  {
  }

  /** a and b agree before position i, where a has the smaller character. */
  ghost predicate SmallerAt(a: string, b: string, i: nat) {
    i < |a| && i < |b| && a[..i] == b[..i] && a[i] < b[i]
  }

  /** The order of strcmp: a proper prefix comes first, and otherwise the first difference decides. */
  ghost predicate Precedes(a: string, b: string) {
    a < b || exists i :: SmallerAt(a, b, i)
  }

  lemma {:induction false} StrCmpExact(a: string, b: string)
    ensures StrCmp(a, b) < 0 <==> Precedes(a, b)
  {
    if a == "" || b == "" {
      assert a == "" && b != "" ==> a < b;
    } else if a[0] != b[0] {
      assert a[0] < b[0] ==> SmallerAt(a, b, 0);
    } else {
      var (a', b') := (a[1..], b[1..]);
      StrCmpExact(a', b');
      assert a == [a[0]] + a' && b == [b[0]] + b';
      if i: nat :| SmallerAt(a', b', i) {
        assert a[..i + 1] == [a[0]] + a'[..i] && b[..i + 1] == [b[0]] + b'[..i];
        assert SmallerAt(a, b, i + 1);
      }
      if i: nat :| SmallerAt(a, b, i) {
        assert a'[..i - 1] == a[..i][1..] && b'[..i - 1] == b[..i][1..];
        assert SmallerAt(a', b', i - 1);
      }
    }
  }

  /** compare_strings orders keys by their characters, and takes them for equal when no character differs. */
  lemma CompareExact(cs: bool, a: string, b: string)
    ensures CompareStrings(cs, a, b) < 0 <==> Precedes(Compared(cs, a), Compared(cs, b))
    ensures CompareStrings(cs, a, b) == 0 <==> Compared(cs, a) == Compared(cs, b)
    ensures CompareStrings(cs, a, b) > 0 <==> Precedes(Compared(cs, b), Compared(cs, a))
  {
    hide StrCmp, Precedes, Compared, Fold;
    var (x, y) := (Fold(cs, a), Fold(cs, b));
    ComparedIsFold(cs, a);
    ComparedIsFold(cs, b);
    StrCmpExact(x, y);
    StrCmpExact(y, x);
    StrCmpAntisymmetric(y, x);
    StrCmpZero(x, y);
  }

  /** Sorting puts every key before the ones that follow it, or level with them. */
  lemma {:induction false} SortsByCharacters<T>(cs: bool, s: seq<Member<T>>)
    ensures var r := MergeSort(cs, s);
      forall i, j | 0 <= i < j < |r| ::
        var (a, b) := (Compared(cs, r[i].key), Compared(cs, r[j].key)); a == b || Precedes(a, b)
  {
    MergeSortSorts(cs, s);
    var r := MergeSort(cs, s);
    hide MergeSort, CompareStrings, Compared, Precedes;
    forall i, j | 0 <= i < j < |r|
      ensures var (a, b) := (Compared(cs, r[i].key), Compared(cs, r[j].key)); a == b || Precedes(a, b)
    {
      CompareExact(cs, r[i].key, r[j].key);
    }
  }

  // ---------- members with equal keys

  /** The members whose key is compared like this one, in their order. */
  function WithKey<T>(cs: bool, s: seq<Member<T>>, key: string): seq<Member<T>> {
    if s == [] then []
    else (if Compared(cs, s[0].key) == Compared(cs, key) then [s[0]] else []) + WithKey(cs, s[1..], key)
  }

  function Reversed<T>(s: seq<T>): (r: seq<T>)
    ensures |r| == |s| && forall i | 0 <= i < |s| :: r[i] == s[|s| - 1 - i]
  {
    seq(|s|, i requires 0 <= i < |s| => s[|s| - 1 - i])
  }

  lemma {:induction false} WithKeyAppend<T>(cs: bool, s: seq<Member<T>>, t: seq<Member<T>>, key: string)
    ensures WithKey(cs, s + t, key) == WithKey(cs, s, key) + WithKey(cs, t, key)
  {
    hide Compared;
    if s == [] {
      assert s + t == t;
    } else {
      assert (s + t)[1..] == s[1..] + t;
      WithKeyAppend(cs, s[1..], t, key);
    }
  }

  lemma {:induction false} WithKeyAbsent<T>(cs: bool, s: seq<Member<T>>, key: string)
    requires forall m | m in s :: Compared(cs, m.key) != Compared(cs, key)
    ensures WithKey(cs, s, key) == []
  {
    hide Compared;
    if s != [] {
      assert s[0] in s;
      WithKeyAbsent(cs, s[1..], key);
    }
  }

  /** Where the first list's head goes first, the second list holds no member with its key. */
  lemma {:induction false} HeadIsAlone<T>(cs: bool, m: Member<T>, b: seq<Member<T>>, key: string)
    requires b != [] && Sorted(cs, b) && CompareStrings(cs, m.key, b[0].key) < 0 && Compared(cs, m.key) == Compared(cs, key)
    ensures WithKey(cs, b, key) == []
  {
    hide Compared, StrCmp, Fold;
    forall n | n in b ensures Compared(cs, n.key) != Compared(cs, key) {
      var j :| 0 <= j < |b| && b[j] == n;
      if j > 0 { StrCmpTransitive(Fold(cs, m.key), Fold(cs, b[0].key), Fold(cs, n.key)); }
      CompareExact(cs, m.key, n.key);
    }
    WithKeyAbsent(cs, b, key);
  }

  /** On a tie the second list goes first. */
  lemma {:induction false} MergeTies<T>(cs: bool, a: seq<Member<T>>, b: seq<Member<T>>, key: string)
    requires Sorted(cs, a) && Sorted(cs, b)
    ensures WithKey(cs, Merge(cs, a, b), key) == WithKey(cs, b, key) + WithKey(cs, a, key)
  {
    hide CompareStrings, Compared;
    if a != [] && b != [] {
      if CompareStrings(cs, a[0].key, b[0].key) < 0 {
        var rest := Merge(cs, a[1..], b);
        MergeTies(cs, a[1..], b, key);
        assert ([a[0]] + rest)[1..] == rest;
        if Compared(cs, a[0].key) == Compared(cs, key) { HeadIsAlone(cs, a[0], b, key); }
      } else {
        var rest := Merge(cs, a, b[1..]);
        MergeTies(cs, a, b[1..], key);
        assert ([b[0]] + rest)[1..] == rest;
      }
    }
  }

  lemma {:induction false} FewWithKey<T>(cs: bool, s: seq<Member<T>>, key: string)
    requires Ascending(cs, s)
    ensures |WithKey(cs, s, key)| <= 1
  {
    if s != [] {
      AscendingIsStrictlySorted(cs, s);
      FewWithKey(cs, s[1..], key);
      if Compared(cs, s[0].key) == Compared(cs, key) && |s| > 1 {
        assert Sorted(cs, s[1..]);
        HeadIsAlone(cs, s[0], s[1..], key);
      }
    }
  }

  lemma ReversedParts<T>(s: seq<T>, t: seq<T>)
    ensures Reversed(s + t) == Reversed(t) + Reversed(s)
    ensures |s| <= 1 ==> Reversed(s) == s
  {
  }

  lemma {:induction false} TiesOfHalves<T>(cs: bool, a: seq<Member<T>>, b: seq<Member<T>>, key: string)
    requires WithKey(cs, MergeSort(cs, a), key) == Reversed(WithKey(cs, a, key))
    requires WithKey(cs, MergeSort(cs, b), key) == Reversed(WithKey(cs, b, key))
    ensures WithKey(cs, Merge(cs, MergeSort(cs, a), MergeSort(cs, b)), key) == Reversed(WithKey(cs, a + b, key))
  {
    hide MergeSort, WithKey, Merge, Reversed, Sorted;
    MergeSortSorts(cs, a);
    MergeSortSorts(cs, b);
    MergeTies(cs, MergeSort(cs, a), MergeSort(cs, b), key);
    WithKeyAppend(cs, a, b, key);
    ReversedParts(WithKey(cs, a, key), WithKey(cs, b, key));
  }

  /** Members with equal keys come out of the sort in the reverse of their order. */
  lemma {:induction false} TiesReversed<T>(cs: bool, s: seq<Member<T>>, key: string)
    ensures WithKey(cs, MergeSort(cs, s), key) == Reversed(WithKey(cs, s, key))
    decreases |s|
  {
    hide CompareStrings, Compared, WithKey, Merge, Reversed;
    if Ascending(cs, s) {
      FewWithKey(cs, s, key);
      ReversedParts(WithKey(cs, s, key), []);
    } else {
      var middle := (|s| + 1) / 2;
      var (a, b) := (s[..middle], s[middle..]);
      TiesReversed(cs, a, key);
      TiesReversed(cs, b, key);
      TiesOfHalves(cs, a, b, key);
      assert s == a + b;
    }
  }
}
