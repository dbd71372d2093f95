/** JSON Merge Patch (section 2 of RFC 7396): merging, and generating a patch that turns one tree into another. */
module MergePatches {
  import opened CStrings
  import opened JsonTree
  import opened Sequences
  import opened Members
  import opened Sorting
  import opened Equality
  import opened SortingEdits
  import opened Patches

  // ---------- merge_patch

  function MembersOf(target: Option<Json>): seq<Member<Json>> {
    if target.Some? && target.value.Object? then target.value.members else []
  }

  function MergePatch(cs: bool, target: Option<Json>, patch: Json): Json
    decreases patch, 1
  {
    if patch.Object? then Object(MergeMembers(cs, MembersOf(target), patch.members)) else patch
  }

  /** The loop over the members of the patch; what it replaces moves to the end of the target. */
  function MergeMembers(cs: bool, tm: seq<Member<Json>>, pm: seq<Member<Json>>): seq<Member<Json>>
    decreases pm, 0
  {
    if pm == [] then tm
    else
      var (key, v) := (pm[0].key, pm[0].value);
      var rest := RemoveKey(cs, tm, key);
      MergeMembers(cs, if v.Null? then rest else rest + [Member(key, MergePatch(cs, Lookup(cs, tm, key), v))], pm[1..])
  }

  /** What RFC 7396 makes of one name: `t` is its value in the target, `p` its value in the patch. */
  function MergedValue(cs: bool, t: Option<Json>, p: Option<Json>): Option<Json> {
    if p.None? then t else if p.value.Null? then None else Some(MergePatch(cs, t, p.value))
  }

  lemma {:induction false} MergeLookups(cs: bool, tm: seq<Member<Json>>, pm: seq<Member<Json>>)
    requires UniqueKeys(cs, tm) && UniqueKeys(cs, pm)
    ensures var r := MergeMembers(cs, tm, pm);
      && UniqueKeys(cs, r)
      && forall key: string :: Lookup(cs, r, key) == MergedValue(cs, Lookup(cs, tm, key), Lookup(cs, pm, key))
    decreases |pm|
  {
    hide Fold, MergePatch;
    if pm != [] {
      var (k, v) := (pm[0].key, pm[0].value);
      var m := Member(k, MergePatch(cs, Lookup(cs, tm, k), v));
      var next := if v.Null? then RemoveKey(cs, tm, k) else RemoveKey(cs, tm, k) + [m];
      if v.Null? { RemoveKeyUnique(cs, tm, k); } else { ReplacedUnique(cs, tm, m); }
      MergeLookups(cs, next, pm[1..]);
      forall key: string
        ensures Lookup(cs, MergeMembers(cs, next, pm[1..]), key)
             == MergedValue(cs, Lookup(cs, tm, key), Lookup(cs, pm, key))
      {
        TailLookup(cs, pm, key);
        if v.Null? { RemoveKeyLookup(cs, tm, k, key); } else { ReplacedLookup(cs, tm, m, key); }
        if KeyEq(cs, key, k) { IndexOfFold(cs, tm, key, k); IndexOfFold(cs, pm, key, k); }
      }
    }
  }

  /** merge_patch is the MergePatch function of RFC 7396: the patch itself, or an object merged name by name. */
  lemma {:induction false} MergeIsRfc7396(cs: bool, target: Option<Json>, patch: Json)
    requires UniqueKeys(cs, MembersOf(target)) && UniqueKeys(cs, MembersOf(Some(patch)))
    ensures var r := MergePatch(cs, target, patch);
      && (!patch.Object? ==> r == patch)
      && (patch.Object? ==> r.Object? && UniqueKeys(cs, r.members) && forall key: string ::
            Lookup(cs, r.members, key)
            == MergedValue(cs, Lookup(cs, MembersOf(target), key), Lookup(cs, patch.members, key)))
  {
    MergeLookups(cs, MembersOf(target), MembersOf(Some(patch)));
  }

  ghost predicate UniqueOption(cs: bool, target: Option<Json>) {
    target.Some? ==> Unique(cs, target.value)
  }

  lemma {:induction false} LookupIsUnique(cs: bool, ms: seq<Member<Json>>, key: string)
    requires Unique(cs, Object(ms))
    ensures UniqueOption(cs, Lookup(cs, ms, key))
    ensures Lookup(cs, ms, key).Some? ==> Lookup(cs, ms, key).value < Object(ms)
  {
  }

  /** Merging the same patch a second time changes nothing. */
  lemma {:induction false} MergeIsIdempotent(cs: bool, target: Option<Json>, patch: Json)
    requires UniqueOption(cs, target) && Unique(cs, patch)
    ensures var once := MergePatch(cs, target, patch); Same(cs, MergePatch(cs, Some(once), patch), once)
    decreases patch
  {
    var once := MergePatch(cs, target, patch);
    if !patch.Object? {
      SameReflexive(cs, once);
      return;
    }
    var twice := MergePatch(cs, Some(once), patch);
    MergeIsRfc7396(cs, target, patch);
    MergeIsRfc7396(cs, Some(once), patch);
    forall key: string ensures SameLookup(cs, twice.members, once.members, key) {
      var (t, p) := (Lookup(cs, MembersOf(target), key), Lookup(cs, patch.members, key));
      LookupIsUnique(cs, MembersOf(target), key);
      LookupIsUnique(cs, patch.members, key);
      if p.None? {
        if t.Some? { SameReflexive(cs, t.value); }
      } else if !p.value.Null? {
        MergeIsIdempotent(cs, t, p.value);
      }
    }
    SameByLookups(cs, twice.members, once.members);
  }

  // ---------- generate_merge_patch

  /** None stands for the NULL patch.  Below the top the case flag is dropped, and keys are merged by strcmp. */
  function GenerateMergePatch(cs: bool, from: Json, to: Json): Option<Json>
    decreases from, 1
  {
    if !to.Object? || !from.Object? then Some(to)
    else
      var ms := DifferingMembers(cs, from, SortedMembers(cs, from.members), SortedMembers(cs, to.members));
      if ms == [] then None else Some(Object(ms))
  }

  function DifferingMembers(cs: bool, ghost from: Json, fs: seq<Member<Json>>, ts: seq<Member<Json>>): seq<Member<Json>>
    requires from.Object? && forall i | 0 <= i < |fs| :: fs[i] in from.members
    decreases from, 0, |fs| + |ts|
  {
    if fs == [] && ts == [] then []
    else
      var diff := if fs == [] then 1 else if ts == [] then -1 else StrCmp(fs[0].key, ts[0].key);
      if diff < 0 then [Member(fs[0].key, Null)] + DifferingMembers(cs, from, fs[1..], ts)
      else if diff > 0 then [ts[0]] + DifferingMembers(cs, from, fs, ts[1..])
      else
        var rest := DifferingMembers(cs, from, fs[1..], ts[1..]);
        if CompareSorted(cs, fs[0].value, ts[0].value) then rest
        else
          match GenerateMergePatch(false, fs[0].value, ts[0].value)
          case None => rest
          case Some(v) => [Member(ts[0].key, v)] + rest
  }

  // ---------- when the walk follows the sort

  /** The order that the members are sorted by and the order that they are walked by agree on two keys. */
  predicate KeyOrderAgrees(g: bool, a: string, b: string) {
    (CompareStrings(g, a, b) < 0 <==> StrCmp(a, b) < 0) && (CompareStrings(g, a, b) == 0 <==> a == b)
  }

  predicate OrderAgrees(g: bool, ms: seq<Member<Json>>) {
    forall m, n | m in ms && n in ms :: KeyOrderAgrees(g, m.key, n.key)
  }

  /**
   What the walk needs of two trees: at two objects that it enters, all keys of both are ordered by strcmp as they
   are sorted; where the comparison takes two values for equal they are.  The flag g, by which the members are
   sorted and compared, is cs at the top and false below.
   */
  predicate Generable(g: bool, cs: bool, from: Json, to: Json)
    decreases from
  {
    from.Object? && to.Object? ==>
      && OrderAgrees(g, from.members + to.members)
      && forall m | m in from.members ::
           var t := Lookup(cs, to.members, m.key);
           t.Some? ==> if CompareSorted(g, m.value, t.value) then Compare(cs, m.value, t.value)
                       else Generable(false, cs, m.value, t.value)
  }

  /** Keys of the list that are equal for the flag are equal. */
  ghost predicate KeysApart(cs: bool, ms: seq<Member<Json>>) {
    forall m, n | m in ms && n in ms && KeyEq(cs, m.key, n.key) :: m.key == n.key
  }

  lemma {:induction false} AgreeingKeysApart(g: bool, cs: bool, ms: seq<Member<Json>>)
    requires OrderAgrees(g, ms) && (g ==> cs)
    ensures KeysApart(cs, ms) && KeysApart(g, ms)
  {
    hide StrCmp, Fold;
    forall m, n | m in ms && n in ms && KeyEq(false, m.key, n.key) && !g ensures m.key == n.key {
      StrCmpZero(Fold(false, m.key), Fold(false, n.key));
      assert KeyOrderAgrees(g, m.key, n.key);
    }
    assert forall a: string, b: string | KeyEq(true, a, b) :: a == b by { SensitiveKeys(); }
  }

  lemma SensitiveKeys()
    ensures forall a: string, b: string | KeyEq(true, a, b) :: a == b
  {
  }

  lemma {:induction false} ApartUnique(cs: bool, other: bool, ms: seq<Member<Json>>)
    requires UniqueKeys(cs, ms) && KeysApart(other, ms)
    ensures UniqueKeys(other, ms)
  {
    hide Fold;
    forall i, j | 0 <= i < j < |ms| ensures !KeyEq(other, ms[i].key, ms[j].key) {
      assert ms[i] in ms && ms[j] in ms && !KeyEq(cs, ms[i].key, ms[j].key);
    }
  }

  /** Members sorted by the flag g are strictly sorted by strcmp. */
  lemma {:induction false} SortedByStrcmp(g: bool, cs: bool, ms: seq<Member<Json>>)
    requires UniqueKeys(cs, ms) && OrderAgrees(g, ms) && KeysApart(g, ms)
    ensures StrictlySorted(true, MergeSort(g, ms)) && multiset(MergeSort(g, ms)) == multiset(ms)
  {
    var s := MergeSort(g, ms);
    ApartUnique(cs, g, ms);
    SortFacts(g, ms);
    forall i, j | 0 <= i < j < |s| ensures CompareStrings(true, s[i].key, s[j].key) < 0 {
      InMultiset(s, ms, s[i]);
      InMultiset(s, ms, s[j]);
      assert KeyOrderAgrees(g, s[i].key, s[j].key);
    }
  }

  // ---------- what is generated for each key

  /** What the generated patch holds for one key, from the values of the two trees. */
  function GeneratedValue(g: bool, f: Option<Json>, t: Option<Json>): Option<Json> {
    if t.None? then (if f.None? then None else Some(Null))
    else if f.None? then t
    else if CompareSorted(g, f.value, t.value) then None
    else GenerateMergePatch(false, f.value, t.value)
  }

  ghost predicate IsGenerated(g: bool, cs: bool, r: seq<Member<Json>>, fs: seq<Member<Json>>, ts: seq<Member<Json>>) {
    UniqueKeys(cs, r) && forall key: string :: GeneratedAt(g, cs, r, fs, ts, key)
  }

  ghost predicate GeneratedAt(
    g: bool, cs: bool, r: seq<Member<Json>>, fs: seq<Member<Json>>, ts: seq<Member<Json>>, key: string)
  {
    Lookup(cs, r, key) == GeneratedValue(g, Lookup(cs, fs, key), Lookup(cs, ts, key))
  }

  /** A key before the head by strcmp is not in the list under the flag either. */
  lemma {:induction false} AbsentKeyDropped(cs: bool, s: seq<Member<Json>>, m: Member<Json>, all: seq<Member<Json>>)
    requires StrictlySorted(true, s) && (s != [] ==> StrCmp(m.key, s[0].key) < 0)
    requires KeysApart(cs, all) && m in all && forall n | n in s :: n in all
    ensures Dropped(cs, s, s, m.key)
  {
    assert s != [] ==> CompareStrings(true, m.key, s[0].key) < 0;
    hide StrCmp, Fold;
    BeforeHead(true, m.key, s);
    assert KeyEq(true, m.key, m.key);
    forall i | 0 <= i < |s| ensures !KeyEq(cs, s[i].key, m.key) {
      assert s[i] in all && s[i].key != m.key;
    }
  }

  lemma {:induction false} GeneratedNext(g: bool, cs: bool, r: seq<Member<Json>>, fs: seq<Member<Json>>, ts: seq<Member<Json>>,
                      fs': seq<Member<Json>>, ts': seq<Member<Json>>, k: string)
    requires IsGenerated(g, cs, r, fs', ts') && Dropped(cs, fs, fs', k) && Dropped(cs, ts, ts', k)
    ensures var v := GeneratedValue(g, Lookup(cs, fs, k), Lookup(cs, ts, k));
      IsGenerated(g, cs, if v.None? then r else [Member(k, v.value)] + r, fs, ts)
  {
    var v := GeneratedValue(g, Lookup(cs, fs, k), Lookup(cs, ts, k));
    assert GeneratedValue(g, None, None) == None;
    assert KeyEq(cs, k, k);
    hide GeneratedValue, Fold, IndexOf, Lookup;
    assert GeneratedAt(g, cs, r, fs', ts', k);
    if v.Some? { ConsUnique(cs, Member(k, v.value), r); }
    var r' := if v.None? then r else [Member(k, v.value)] + r;
    forall key: string ensures GeneratedAt(g, cs, r', fs, ts, key) {
      assert GeneratedAt(g, cs, r, fs', ts', key);
      if v.Some? { ConsLookup(cs, Member(k, v.value), r, key); }
      if KeyEq(cs, key, k) {
        LookupFold(cs, fs, key, k);
        LookupFold(cs, ts, key, k);
      }
    }
  }

  lemma GeneratedEmpty(g: bool, cs: bool)
    ensures IsGenerated(g, cs, [], [], [])
  {
    forall key: string ensures GeneratedAt(g, cs, [], [], [], key) { }
  }

  /** What DifferingLookups keeps while the two lists are walked. */
  ghost predicate WalkedByStrcmp(cs: bool, from: Json, fs: seq<Member<Json>>, ts: seq<Member<Json>>, all: seq<Member<Json>>) {
    && from.Object? && (forall i | 0 <= i < |fs| :: fs[i] in from.members)
    && StrictlySorted(true, fs) && StrictlySorted(true, ts)
    && KeysApart(cs, all) && (forall n | n in fs :: n in all) && (forall n | n in ts :: n in all)
  }

  lemma {:induction false} HeadDropped(cs: bool, s: seq<Member<Json>>, all: seq<Member<Json>>)
    requires s != [] && StrictlySorted(true, s) && KeysApart(cs, all) && forall n | n in s :: n in all
    ensures Dropped(cs, s, s[1..], s[0].key) && Lookup(cs, s, s[0].key) == Some(s[0].value)
    ensures StrictlySorted(true, s[1..]) && forall n | n in s[1..] :: n in all
  {
    StrictTail(true, s);
    ApartUnique(true, cs, s);
    assert IndexOf(cs, s, s[0].key) == 0;
    hide StrictlySorted;
    DroppedHead(cs, s);
  }

  /** The generated members look up as GeneratedValue says, whatever the flag that the patch is merged with. */
  lemma {:induction false} DifferingLookups(
    g: bool, cs: bool, from: Json, fs: seq<Member<Json>>, ts: seq<Member<Json>>, all: seq<Member<Json>>)
    requires WalkedByStrcmp(cs, from, fs, ts, all)
    ensures IsGenerated(g, cs, DifferingMembers(g, from, fs, ts), fs, ts)
    decreases |fs| + |ts|
  {
    hide CompareSorted, GenerateMergePatch, IsGenerated, KeysApart, StrictlySorted, Lookup, StrCmp, Dropped;
    if fs == [] && ts == [] {
      GeneratedEmpty(g, cs);
      return;
    }
    if fs != [] { HeadDropped(cs, fs, all); }
    if ts != [] { HeadDropped(cs, ts, all); }
    var diff := if fs == [] then 1 else if ts == [] then -1 else StrCmp(fs[0].key, ts[0].key);
    if diff < 0 {
      DifferingLookups(g, cs, from, fs[1..], ts, all);
      AbsentKeyDropped(cs, ts, fs[0], all);
      LookupDropped(cs, ts, fs[0].key);
      GeneratedNext(g, cs, DifferingMembers(g, from, fs[1..], ts), fs, ts, fs[1..], ts, fs[0].key);
    } else if diff > 0 {
      if fs != [] { StrCmpAntisymmetric(ts[0].key, fs[0].key); }
      DifferingLookups(g, cs, from, fs, ts[1..], all);
      AbsentKeyDropped(cs, fs, ts[0], all);
      LookupDropped(cs, fs, ts[0].key);
      GeneratedNext(g, cs, DifferingMembers(g, from, fs, ts[1..]), fs, ts, fs, ts[1..], ts[0].key);
    } else {
      StrCmpZero(fs[0].key, ts[0].key);
      DifferingLookups(g, cs, from, fs[1..], ts[1..], all);
      GeneratedNext(g, cs, DifferingMembers(g, from, fs[1..], ts[1..]), fs, ts, fs[1..], ts[1..], fs[0].key);
    }
  }

  lemma {:induction false} GeneratedMembers(g: bool, cs: bool, from: Json, to: Json) returns (gm: seq<Member<Json>>)
    requires from.Object? && to.Object? && (g ==> cs)
    requires UniqueKeys(cs, from.members) && UniqueKeys(cs, to.members) && OrderAgrees(g, from.members + to.members)
    ensures GenerateMergePatch(g, from, to) == if gm == [] then None else Some(Object(gm))
    ensures IsGenerated(g, cs, gm, from.members, to.members)
  {
    var (fm, tm) := (from.members, to.members);
    var all := fm + tm;
    var (fs, ts) := (SortedMembers(g, fm), SortedMembers(g, tm));
    AgreeingKeysApart(g, cs, all);
    SortedByStrcmp(g, cs, fm);
    SortedByStrcmp(g, cs, tm);
    gm := DifferingMembers(g, from, fs, ts);
    hide MergeSort, DifferingMembers, OrderAgrees, KeysApart, StrictlySorted, GeneratedValue, UniqueKeys;
    forall n | n in fs ensures n in all { InMultiset(fs, fm, n); }
    forall n | n in ts ensures n in all { InMultiset(ts, tm, n); }
    DifferingLookups(g, cs, from, fs, ts, all);
    forall key: string ensures GeneratedAt(g, cs, gm, fm, tm, key) {
      assert GeneratedAt(g, cs, gm, fs, ts, key);
      PermutedLookup(cs, fm, fs, key);
      PermutedLookup(cs, tm, ts, key);
    }
  }

  // ---------- the merge round trip

  /**
   No null of `to` can be taken for a removal: a member is safe when it already has its value in `from`, or when
   neither it nor, further down, a member of it is a null that the patch would have to carry.
   */
  predicate NullSafe(cs: bool, from: Option<Json>, to: Json)
    decreases to
  {
    to.Object? ==> forall i | 0 <= i < |to.members| ::
      var (u, v) := (Lookup(cs, MembersOf(from), to.members[i].key), to.members[i].value);
      (u.Some? && Compare(cs, u.value, v)) || (!v.Null? && NullSafe(cs, u, v))
  }

  predicate SafeValue(cs: bool, u: Option<Json>, v: Json) {
    (u.Some? && Compare(cs, u.value, v)) || (!v.Null? && NullSafe(cs, u, v))
  }

  ghost predicate SafeAt(cs: bool, fm: seq<Member<Json>>, tm: seq<Member<Json>>, key: string) {
    var t := Lookup(cs, tm, key);
    t.Some? ==> SafeValue(cs, Lookup(cs, fm, key), t.value)
  }

  lemma {:induction false} NullSafeByKeys(cs: bool, from: Option<Json>, to: Json)
    requires to.Object? && UniqueKeys(cs, to.members)
    ensures NullSafe(cs, from, to) <==> forall key: string :: SafeAt(cs, MembersOf(from), to.members, key)
  {
    hide Fold;
    var (fm, tm) := (MembersOf(from), to.members);
    if forall key: string :: SafeAt(cs, fm, tm, key) {
      forall i | 0 <= i < |tm| ensures SafeValue(cs, Lookup(cs, fm, tm[i].key), tm[i].value) {
        IndexOfOwnKey(cs, tm, i);
        assert SafeAt(cs, fm, tm, tm[i].key);
      }
    }
    if NullSafe(cs, from, to) {
      forall key: string ensures SafeAt(cs, fm, tm, key) {
        var i := IndexOf(cs, tm, key);
        if i < |tm| { LookupFold(cs, fm, tm[i].key, key); }
      }
    }
  }

  /** A patch merged into something that is not an object comes back without its nulls. */
  lemma {:induction false} MergeIntoNothing(cs: bool, target: Option<Json>, v: Json)
    requires target.Some? ==> !target.value.Object?
    requires Unique(cs, v)
    ensures Same(cs, MergePatch(cs, target, v), v) <==> NullSafe(cs, target, v)
    decreases v
  {
    if !v.Object? {
      SameReflexive(cs, v);
      return;
    }
    var r := MergePatch(cs, target, v);
    MergeIsRfc7396(cs, target, v);
    SameByLookups(cs, r.members, v.members);
    NullSafeByKeys(cs, target, v);
    forall key: string ensures SameLookup(cs, r.members, v.members, key) <==> SafeAt(cs, [], v.members, key) {
      LookupIsUnique(cs, v.members, key);
      var t := Lookup(cs, v.members, key);
      if t.Some? { MergeIntoNothing(cs, None, t.value); }
    }
  }

  lemma {:induction false} EqualIsSafe(cs: bool, from: Json, to: Json)
    requires Unique(cs, from) && Unique(cs, to) && Same(cs, from, to)
    ensures Compare(cs, from, to) && NullSafe(cs, Some(from), to)
  {
    CompareMeansSame(cs, from, to);
    if to.Object? {
      SameSymmetric(cs, from, to);
      SameByLookups(cs, from.members, to.members);
      NullSafeByKeys(cs, Some(from), to);
      forall key: string ensures SafeAt(cs, from.members, to.members, key) {
        assert SameLookup(cs, from.members, to.members, key);
        LookupIsUnique(cs, from.members, key);
        LookupIsUnique(cs, to.members, key);
        var (f, t) := (Lookup(cs, from.members, key), Lookup(cs, to.members, key));
        if t.Some? { CompareMeansSame(cs, f.value, t.value); }
      }
    }
  }

  /** Merging r takes every document that equals `from` to `to`, exactly when no null stands in the way. */
  ghost predicate MergesTo(cs: bool, doc: Json, from: Json, to: Json, r: Option<Json>) {
    && (r.None? ==> Same(cs, from, to))
    && (r.Some? ==> (Same(cs, MergePatch(cs, Some(doc), r.value), to) <==> NullSafe(cs, Some(from), to)))
  }

  ghost predicate SameOption(cs: bool, a: Option<Json>, b: Option<Json>) {
    (a.Some? <==> b.Some?) && (a.Some? ==> Same(cs, a.value, b.value))
  }

  /** One key of the round trip: d, f and t are its values in the document and in the two trees, p in the patch. */
  ghost predicate KeyMerges(cs: bool, d: Option<Json>, f: Option<Json>, t: Option<Json>, p: Option<Json>) {
    && (SameOption(cs, MergedValue(cs, d, p), t) <==> (t.Some? ==> SafeValue(cs, f, t.value)))
    && (p.None? ==> SameOption(cs, f, t))
  }

  /** A patch for two values that differ, in its place among the members. */
  lemma {:induction false} ValueMerges(cs: bool, d: Json, f: Json, t: Json, p: Option<Json>)
    requires Unique(cs, f) && Unique(cs, t) && Same(cs, d, f)
    requires MergesTo(cs, d, f, t, p) && (p.Some? ==> (p.value.Null? <==> t.Null?) && (t.Null? ==> !f.Null?))
    ensures KeyMerges(cs, Some(d), Some(f), Some(t), p)
  {
    hide NullSafe, MergePatch;
    if Same(cs, f, t) { EqualIsSafe(cs, f, t); }
    CompareMeansSame(cs, f, t);
    if p.None? { SameTransitive(cs, d, f, t); }
  }

  lemma {:induction false} NewValueMerges(cs: bool, t: Json)
    requires Unique(cs, t)
    ensures KeyMerges(cs, None, None, Some(t), Some(t))
  {
    MergeIntoNothing(cs, None, t);
  }

  lemma {:induction false} MergedKey(g: bool, cs: bool, d: Option<Json>, f: Option<Json>, t: Option<Json>)
    requires UniqueOption(cs, d) && UniqueOption(cs, f) && UniqueOption(cs, t) && SameOption(cs, d, f)
    requires f.Some? && t.Some? ==>
      if CompareSorted(g, f.value, t.value) then Compare(cs, f.value, t.value) else Generable(false, cs, f.value, t.value)
    ensures KeyMerges(cs, d, f, t, GeneratedValue(g, f, t))
    decreases if f.Some? then Nesting(f.value) else 0, 3
  {
    if f.Some? && t.Some? {
      var p := GeneratedValue(g, f, t);
      CompareMeansSame(cs, f.value, t.value);
      if !CompareSorted(g, f.value, t.value) {
        MergeRoundTripAt(false, cs, d.value, f.value, t.value);
        GeneratedNull(g, f.value, t.value);
      }
      ValueMerges(cs, d.value, f.value, t.value, p);
    } else if t.Some? {
      NewValueMerges(cs, t.value);
    }
  }

  lemma {:induction false} GeneratedNull(g: bool, f: Json, t: Json)
    requires !CompareSorted(g, f, t)
    ensures var p := GenerateMergePatch(false, f, t); p.Some? ==> (p.value.Null? <==> t.Null?) && (t.Null? ==> !f.Null?)
  {
  }

  lemma {:induction false} MergeRoundTripAt(g: bool, cs: bool, doc: Json, from: Json, to: Json)
    requires Unique(cs, doc) && Unique(cs, from) && Unique(cs, to) && Same(cs, doc, from)
    requires (g ==> cs) && Generable(g, cs, from, to)
    ensures MergesTo(cs, doc, from, to, GenerateMergePatch(g, from, to))
    decreases Nesting(from), 2
  {
    if !to.Object? {
      SameReflexive(cs, to);
    } else if !from.Object? {
      MergeIntoNothing(cs, Some(doc), to);
      NullSafeByKeys(cs, Some(doc), to);
      NullSafeByKeys(cs, Some(from), to);
    } else {
      var gm := GeneratedMembers(g, cs, from, to);
      forall key: string
        ensures KeyMerges(cs, Lookup(cs, doc.members, key), Lookup(cs, from.members, key), Lookup(cs, to.members, key),
                          Lookup(cs, gm, key))
      {
        MergedKeyOf(g, cs, doc, from, to, gm, key);
      }
      MergesByKeys(cs, doc.members, from.members, to.members, gm);
    }
  }

  lemma {:induction false} MergedKeyOf(g: bool, cs: bool, doc: Json, from: Json, to: Json, gm: seq<Member<Json>>, key: string)
    requires Unique(cs, doc) && Unique(cs, from) && Unique(cs, to) && Same(cs, doc, from)
    requires from.Object? && to.Object? && (g ==> cs) && Generable(g, cs, from, to)
    requires IsGenerated(g, cs, gm, from.members, to.members)
    ensures KeyMerges(cs, Lookup(cs, doc.members, key), Lookup(cs, from.members, key), Lookup(cs, to.members, key),
                      Lookup(cs, gm, key))
    decreases Nesting(from), 1
  {
    assert doc.Object?;
    hide Same, Compare, CompareSorted, KeyMerges, GeneratedValue, Unique, MergePatch, Fold;
    var (dm, fm, tm) := (doc.members, from.members, to.members);
    SameByLookups(cs, dm, fm);
    assert SameLookup(cs, dm, fm, key) && GeneratedAt(g, cs, gm, fm, tm, key);
    LookupIsUnique(cs, dm, key);
    LookupIsUnique(cs, fm, key);
    LookupIsUnique(cs, tm, key);
    var i := IndexOf(cs, fm, key);
    if i < |fm| {
      LookupFold(cs, tm, fm[i].key, key);
      assert fm[i] in fm;
    }
    MergedKey(g, cs, Lookup(cs, dm, key), Lookup(cs, fm, key), Lookup(cs, tm, key));
  }

  lemma NothingFound(cs: bool, key: string)
    ensures Lookup<Json>(cs, [], key).None?
  {
  }

  lemma {:induction false} MergesByKeys(
    cs: bool, dm: seq<Member<Json>>, fm: seq<Member<Json>>, tm: seq<Member<Json>>, gm: seq<Member<Json>>)
    requires UniqueKeys(cs, dm) && UniqueKeys(cs, gm) && UniqueKeys(cs, tm)
    requires forall key: string ::
      KeyMerges(cs, Lookup(cs, dm, key), Lookup(cs, fm, key), Lookup(cs, tm, key), Lookup(cs, gm, key))
    ensures MergesTo(cs, Object(dm), Object(fm), Object(tm), if gm == [] then None else Some(Object(gm)))
  {
    hide Same, SafeValue, Fold, UniqueKeys, IndexOf, NullSafe, Lookup;
    var r := MergePatch(cs, Some(Object(dm)), Object(gm));
    MergeIsRfc7396(cs, Some(Object(dm)), Object(gm));
    SameByLookups(cs, fm, tm);
    SameByLookups(cs, r.members, tm);
    NullSafeByKeys(cs, Some(Object(fm)), Object(tm));
    assert r == Object(r.members);
    hide MergePatch;
    forall key: string ensures SameLookup(cs, r.members, tm, key) <==> SafeAt(cs, fm, tm, key) {
      assert KeyMerges(cs, Lookup(cs, dm, key), Lookup(cs, fm, key), Lookup(cs, tm, key), Lookup(cs, gm, key));
    }
    assert MembersOf(Some(Object(fm))) == fm;
    assert SameLookups(cs, r.members, tm) <==> (forall key: string :: SafeAt(cs, fm, tm, key));
    assert Same(cs, r, Object(tm)) <==> NullSafe(cs, Some(Object(fm)), Object(tm));
    if gm == [] {
      forall key: string ensures SameLookup(cs, fm, tm, key) {
        assert KeyMerges(cs, Lookup(cs, dm, key), Lookup(cs, fm, key), Lookup(cs, tm, key), Lookup(cs, gm, key));
        NothingFound(cs, key);
      }
    }
  }

  /**
   Merging the generated patch into any document that equals `from` gives a tree that equals `to` exactly when no
   null of `to` stands in the way, and the NULL patch is generated only for trees that are already equal.
   */
  lemma {:induction false} MergeRoundTrip(cs: bool, doc: Json, from: Json, to: Json)
    requires Unique(cs, doc) && Unique(cs, from) && Unique(cs, to) && Same(cs, doc, from)
    requires Generable(cs, cs, from, to)
    ensures var g := GenerateMergePatch(cs, from, to);
      && (g.None? ==> Same(cs, from, to))
      && (g.Some? ==> (Same(cs, MergePatch(cs, Some(doc), g.value), to) <==> NullSafe(cs, Some(from), to)))
  {
    MergeRoundTripAt(cs, cs, doc, from, to);
  }

  // ---------- where the generation goes wrong

  lemma OneMember(g: bool, m: Member<Json>)
    ensures SortedMembers(g, [m]) == [m] && [m][1..] == []
  {
  }

  /** The second key is taken for a new one, and then both keys of `from` for gone ones. */
  lemma {:induction false} PatchOfMisordered(k1: string, k2: string, v: Json)
    requires CompareStrings(false, k1, k2) < 0 && StrCmp(k1, k2) > 0
    ensures GenerateMergePatch(false, Object([Member(k1, v), Member(k2, v)]), Object([Member(k2, v)]))
         == Some(Object([Member(k2, v), Member(k1, Null), Member(k2, Null)]))
  {
    hide CompareStrings, StrCmp, CompareSorted;
    var (a, b) := (Member(k1, v), Member(k2, v));
    var fs, from := [a, b], Object([a, b]);
    assert Ascending(false, fs);
    assert SortedMembers(false, fs) == fs;
    OneMember(false, b);
    assert fs[1..] == [b];
    assert DifferingMembers(false, from, [], []) == [];
    assert DifferingMembers(false, from, [b], []) == [Member(k2, Null)] + [];
    assert DifferingMembers(false, from, fs, []) == [Member(k1, Null)] + [Member(k2, Null)];
    assert DifferingMembers(false, from, fs, [b]) == [b] + ([Member(k1, Null)] + [Member(k2, Null)]);
    assert [b] + ([Member(k1, Null)] + [Member(k2, Null)]) == [b, Member(k1, Null), Member(k2, Null)];
    hide DifferingMembers;
    GenerateOfObjects(false, fs, [b]);
  }

  lemma {:induction false} GenerateOfObjects(g: bool, fm: seq<Member<Json>>, tm: seq<Member<Json>>)
    ensures var ms := DifferingMembers(g, Object(fm), SortedMembers(g, fm), SortedMembers(g, tm));
      GenerateMergePatch(g, Object(fm), Object(tm)) == if ms == [] then None else Some(Object(ms))
  {
  }

  /** The first member of a patch, as the loop takes it. */
  lemma {:induction false} MergeStep(cs: bool, tm: seq<Member<Json>>, m: Member<Json>, pm: seq<Member<Json>>)
    ensures var rest := RemoveKey(cs, tm, m.key);
      MergeMembers(cs, tm, [m] + pm)
      == MergeMembers(cs, if m.value.Null? then rest else rest + [Member(m.key, MergePatch(cs, Lookup(cs, tm, m.key), m.value))], pm)
  {
    assert ([m] + pm)[1..] == pm;
    hide MergePatch;
  }

  lemma {:induction false} RemoveSingle(cs: bool, m: Member<Json>, key: string)
    requires KeyEq(cs, m.key, key)
    ensures RemoveKey(cs, [m], key) == []
  {
    assert Without([m], 0) == [];
  }

  lemma {:induction false} RemoveOfTwo(cs: bool, a: Member<Json>, b: Member<Json>)
    requires !KeyEq(cs, a.key, b.key)
    ensures RemoveKey(cs, [a, b], a.key) == [b] && RemoveKey(cs, [a, b], b.key) == [a]
  {
    hide Fold;
    IndexOfIs(cs, [a, b], a.key, 0);
    IndexOfIs(cs, [a, b], b.key, 1);
    assert Without([a, b], 0) == [b] && Without([a, b], 1) == [a];
  }

  lemma {:induction false} LoseBoth(cs: bool, k1: string, k2: string, v: Json)
    requires !KeyEq(cs, k1, k2) && !v.Null?
    ensures MergePatch(cs, Some(Object([Member(k1, v), Member(k2, v)])),
                       Object([Member(k2, v), Member(k1, Null), Member(k2, Null)])) == Object([])
  {
    var (a, b) := (Member(k1, v), Member(k2, v));
    var b' := Member(k2, MergePatch(cs, Lookup(cs, [a, b], k2), v));
    var (p1, p2) := (Member(k1, Null), Member(k2, Null));
    assert MergeMembers(cs, [], []) == [];
    hide MergePatch, MergeMembers, Fold, Lookup, RemoveKey;
    RemoveOfTwo(cs, a, b);
    RemoveOfTwo(cs, a, b');
    RemoveSingle(cs, b', k2);
    InOrder(b, p1, p2);
    assert [a] + [b'] == [a, b'] by { InOrder(a, b', b'); }
    MergeStep(cs, [a, b], b, [p1] + ([p2] + []));
    MergeStep(cs, [a, b'], p1, [p2] + []);
    MergeStep(cs, [b'], p2, []);
    MergeOfObject(cs, [a, b], [b, p1, p2]);
  }

  lemma InOrder(a: Member<Json>, b: Member<Json>, c: Member<Json>)
    ensures [a] + ([b] + ([c] + [])) == [a, b, c] && [a] + [b] == [a, b]
  {
  }

  lemma MergeOfObject(cs: bool, tm: seq<Member<Json>>, pm: seq<Member<Json>>)
    ensures MergePatch(cs, Some(Object(tm)), Object(pm)) == Object(MergeMembers(cs, tm, pm))
  {
  }

  /** A name that only changes its case is added first and then removed. */
  lemma {:induction false} PatchOfRecased(k1: string, k2: string, v: Json)
    requires StrCmp(k1, k2) > 0
    ensures GenerateMergePatch(false, Object([Member(k1, v)]), Object([Member(k2, v)]))
         == Some(Object([Member(k2, v), Member(k1, Null)]))
  {
    hide StrCmp, CompareSorted;
    var (a, b, from) := (Member(k1, v), Member(k2, v), Object([Member(k1, v)]));
    OneMember(false, a);
    OneMember(false, b);
    assert DifferingMembers(false, from, [], []) == [];
    assert DifferingMembers(false, from, [a], []) == [Member(k1, Null)] + [];
    assert DifferingMembers(false, from, [a], [b]) == [b] + [Member(k1, Null)];
    assert [b] + [Member(k1, Null)] == [b, Member(k1, Null)];
    hide DifferingMembers;
    GenerateOfObjects(false, [a], [b]);
  }

  lemma {:induction false} LoseRecased(k1: string, k2: string, v: Json)
    requires KeyEq(false, k1, k2) && !v.Null?
    ensures MergePatch(false, Some(Object([Member(k1, v)])), Object([Member(k2, v), Member(k1, Null)])) == Object([])
  {
    var (a, b) := (Member(k1, v), Member(k2, v));
    var b' := Member(k2, MergePatch(false, Lookup(false, [a], k2), v));
    var p := Member(k1, Null);
    assert MergeMembers(false, [], []) == [];
    hide MergePatch, MergeMembers, Fold, Lookup, RemoveKey;
    RemoveSingle(false, a, k2);
    RemoveSingle(false, b', k1);
    assert [b] + [p] == [b, p] && [p] + [] == [p] && [] + [b'] == [b'];
    MergeStep(false, [a], b, [p]);
    MergeStep(false, [b'], p, []);
    MergeOfObject(false, [a], [b, p]);
  }

  /** The trees give a patch, no null stands in its way, and still merging it into `from` does not give `to`. */
  ghost predicate Breaks(cs: bool, from: Json, to: Json) {
    && Unique(cs, from) && Unique(cs, to) && NullSafe(cs, Some(from), to)
    && var g := GenerateMergePatch(cs, from, to);
       g.Some? && !Same(cs, MergePatch(cs, Some(from), g.value), to)
  }

  ghost predicate OnlyKeys(j: Json, a: string, b: string) {
    j.Object? && forall m | m in j.members :: m.key == a || m.key == b
  }

  lemma {:induction false} SmallTrees(k1: string, k2: string, v: Json)
    requires !v.Null? && !v.Object? && Unique(false, v)
    ensures Unique(false, Object([Member(k1, v)]))
    ensures !KeyEq(false, k1, k2) ==> Unique(false, Object([Member(k1, v), Member(k2, v)]))
    ensures forall from :: NullSafe(false, from, Object([Member(k2, v)]))
    ensures !Same(false, Object([]), Object([Member(k2, v)]))
  {
    hide Fold;
    assert IndexOf(false, [Member(k2, v)], k2) == 0;
    forall from ensures NullSafe(false, from, Object([Member(k2, v)])) { }
  }

  lemma {:induction false} MisorderedBreak(k1: string, k2: string, v: Json)
    requires CompareStrings(false, k1, k2) < 0 && StrCmp(k1, k2) > 0 && !v.Null? && !v.Object? && Unique(false, v)
    ensures Breaks(false, Object([Member(k1, v), Member(k2, v)]), Object([Member(k2, v)]))
  {
    hide GenerateMergePatch, MergePatch, Fold, StrCmp, Same, Unique, NullSafe;
    StrCmpZero(Fold(false, k1), Fold(false, k2));
    PatchOfMisordered(k1, k2, v);
    LoseBoth(false, k1, k2, v);
    SmallTrees(k1, k2, v);
    SmallTrees(k2, k2, v);
  }

  lemma {:induction false} RecasedBreak(k1: string, k2: string, v: Json)
    requires KeyEq(false, k1, k2) && StrCmp(k1, k2) > 0 && !v.Null? && !v.Object? && Unique(false, v)
    ensures Breaks(false, Object([Member(k1, v)]), Object([Member(k2, v)]))
  {
    hide GenerateMergePatch, MergePatch, Fold, StrCmp, Same, Unique, NullSafe;
    PatchOfRecased(k1, k2, v);
    LoseRecased(k1, k2, v);
    SmallTrees(k1, k2, v);
    SmallTrees(k2, k2, v);
  }

  /**
   Any two names on which the two orders disagree break the round trip when case is ignored: there are trees with
   no other keys on which it fails, although their keys are unique and no null is involved.
   */
  lemma {:induction false} AgreementIsNeeded(a: string, b: string, v: Json) returns (from: Json, to: Json)
    requires !KeyOrderAgrees(false, a, b) && !v.Null? && !v.Object? && Unique(false, v)
    ensures OnlyKeys(from, a, b) && OnlyKeys(to, a, b) && Breaks(false, from, to)
  {
    hide Breaks;
    StrCmpZero(a, b);
    StrCmpAntisymmetric(a, b);
    StrCmpZero(Fold(false, a), Fold(false, b));
    StrCmpAntisymmetric(Fold(false, a), Fold(false, b));
    StrCmpAntisymmetric(Fold(false, b), Fold(false, a));
    hide StrCmp, Fold;
    var (k1, k2) := if CompareStrings(false, a, b) < 0 || (KeyEq(false, a, b) && StrCmp(a, b) > 0) then (a, b) else (b, a);
    if KeyEq(false, a, b) {
      RecasedBreak(k1, k2, v);
      from, to := Object([Member(k1, v)]), Object([Member(k2, v)]);
    } else {
      MisorderedBreak(k1, k2, v);
      from, to := Object([Member(k1, v), Member(k2, v)]), Object([Member(k2, v)]);
    }
  }

  /** The flag is dropped below the top: a change there that shows only case-sensitively is left out of the patch. */
  lemma {:induction false} FlagDroppedBelow(k1: string, k2: string, f: Json, t: Json)
    requires CompareSorted(false, f, t) && !Same(true, f, t)
    ensures var (from, to) := (Object([Member(k1, Object([Member(k2, f)]))]), Object([Member(k1, Object([Member(k2, t)]))]));
      GenerateMergePatch(true, from, to) == None && !Same(true, from, to)
  {
    hide CompareSorted, StrCmp, Fold, Same;
    StrCmpZero(k1, k1);
    StrCmpZero(k2, k2);
    var (fi, ti) := (Member(k2, f), Member(k2, t));
    OneMember(false, fi);
    OneMember(false, ti);
    assert DifferingMembers(false, Object([fi]), [], []) == [];
    assert GenerateMergePatch(false, Object([fi]), Object([ti])) == None;
    var (fo, to) := (Member(k1, Object([fi])), Member(k1, Object([ti])));
    OneMember(true, fo);
    OneMember(true, to);
    assert DifferingMembers(true, Object([fo]), [], []) == [];
    assert GenerateMergePatch(true, Object([fo]), Object([to])) == None;
    OneDiffers(k2, f, t);
    OneDiffers(k1, fo.value, to.value);
  }

  lemma {:induction false} OneDiffers(k: string, f: Json, t: Json)
    requires !Same(true, f, t)
    ensures !Same(true, Object([Member(k, f)]), Object([Member(k, t)]))
  {
    assert IndexOf(true, [Member(k, f)], k) == 0 && IndexOf(true, [Member(k, t)], k) == 0;
  }
}
