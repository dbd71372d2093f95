/** Merge patches for trees that differ only in the order of their members. */
module MergeOrders {
  import opened CStrings
  import opened JsonTree
  import opened Members
  import opened Sorting
  import opened Equality
  import opened SortingEdits
  import opened Patches
  import opened MergePatches

  /** The keys are unique under either reading. */
  ghost predicate Clean(j: Json) {
    Unique(true, j) && Unique(false, j)
  }

  /** Equal under either reading of keys. */
  ghost predicate Alike(a: Json, b: Json) {
    Clean(a) && Clean(b) && Same(true, a, b) && Same(false, a, b)
  }

  ghost predicate AlikeMembers(ms: seq<Member<Json>>, ns: seq<Member<Json>>) {
    |ms| == |ns| && forall i | 0 <= i < |ms| :: ms[i].key == ns[i].key && Alike(ms[i].value, ns[i].value)
  }

  lemma {:induction false} AlikeItself(a: Json)
    requires Clean(a)
    ensures Alike(a, a)
  {
    SameReflexive(true, a);
    SameReflexive(false, a);
  }

  lemma {:induction false} AlikeBack(a: Json, b: Json)
    requires Alike(a, b)
    ensures Alike(b, a)
  {
    SameSymmetric(true, a, b);
    SameSymmetric(false, a, b);
  }

  lemma {:induction false} AlikeThrough(a: Json, b: Json, c: Json)
    requires Alike(a, b) && Alike(b, c)
    ensures Alike(a, c)
  {
    SameTransitive(true, a, b, c);
    SameTransitive(false, a, b, c);
  }

  lemma {:induction false} CleanMember(ms: seq<Member<Json>>, m: Member<Json>)
    requires Clean(Object(ms)) && m in ms
    ensures Clean(m.value) && m.value < Object(ms)
  {
  }

  /** A key leads to alike values in alike objects, under either reading. */
  lemma {:induction false} AlikeLookup(cs: bool, ms: seq<Member<Json>>, ns: seq<Member<Json>>, key: string)
    requires Alike(Object(ms), Object(ns))
    ensures var (u, v) := (Lookup(cs, ms, key), Lookup(cs, ns, key));
      (u.Some? <==> v.Some?) && (u.Some? ==> Alike(u.value, v.value) && u.value < Object(ms))
  {
    SameByLookups(cs, ms, ns);
    assert SameLookup(cs, ms, ns, key);
    var (i, k) := (IndexOf(cs, ms, key), IndexOf(cs, ns, key));
    if i < |ms| {
      CleanMember(ms, ms[i]);
      CleanMember(ns, ns[k]);
      SameKeyBelow(cs, ms, ns, i, k);
    }
  }

  /** Members that match under one reading have the very same key, and match under both. */
  lemma {:induction false} SameKeyBelow(cs: bool, ms: seq<Member<Json>>, ns: seq<Member<Json>>, i: nat, k: nat)
    requires Alike(Object(ms), Object(ns)) && i < |ms| && k < |ns| && KeyEq(cs, ms[i].key, ns[k].key)
    ensures ms[i].key == ns[k].key
    ensures Same(true, ms[i].value, ns[k].value) && Same(false, ms[i].value, ns[k].value)
  {
    hide Same;
    SameByLookups(true, ms, ns);
    SameByLookups(false, ms, ns);
    assert SameLookup(true, ms, ns, ms[i].key) && SameLookup(false, ms, ns, ms[i].key);
    IndexOfOwnKey(true, ms, i);
    IndexOfOwnKey(false, ms, i);
    var p := IndexOf(true, ns, ms[i].key);
    SensitiveKeys();
    assert ns[p].key == ms[i].key;
    IndexOfOwnKey(cs, ns, p);
    IndexOfOwnKey(cs, ns, k);
    IndexOfFold(cs, ns, ms[i].key, ns[k].key);
    assert p == k;
    IndexOfOwnKey(false, ns, k);
  }

  /** Sorting alike objects gives the same keys in the same places. */
  lemma {:induction false} AlikeSorted(g: bool, ms: seq<Member<Json>>, ns: seq<Member<Json>>)
    requires Alike(Object(ms), Object(ns))
    ensures AlikeMembers(MergeSort(g, ms), MergeSort(g, ns))
  {
    var (s, t) := (MergeSort(g, ms), MergeSort(g, ns));
    SameWhenSorted(g, ms, ns);
    forall i | 0 <= i < |s| ensures s[i].key == t[i].key && Alike(s[i].value, t[i].value) {
      SortedMember(g, ms, i);
      SortedMember(g, ns, i);
      CleanMember(ms, s[i]);
      CleanMember(ns, t[i]);
      var p :| 0 <= p < |ms| && ms[p] == s[i];
      var q :| 0 <= q < |ns| && ns[q] == t[i];
      SameKeyBelow(g, ms, ns, p, q);
    }
  }

  lemma {:induction false} AlikeCompare(g: bool, f: Json, f': Json, t: Json, t': Json)
    requires Alike(f, f') && Alike(t, t')
    ensures CompareSorted(g, f, t) <==> CompareSorted(g, f', t')
  {
    AlikeBack(f, f');
    AlikeBack(t, t');
    CompareSortedMeansSame(g, f, t);
    CompareSortedMeansSame(g, f', t');
    if Same(g, f, t) {
      SameTransitive(g, f', f, t);
      SameTransitive(g, f', t, t');
    }
    if Same(g, f', t') {
      SameTransitive(g, f, f', t');
      SameTransitive(g, f, t', t);
    }
  }

  // ---------- parallel patches

  /** The same members in the same order, down to values that are alike. */
  ghost predicate Parallel(a: Json, b: Json)
    decreases a
  {
    || Alike(a, b)
    || (a.Object? && b.Object? && |a.members| == |b.members| && forall i | 0 <= i < |a.members| ::
          a.members[i].key == b.members[i].key && Parallel(a.members[i].value, b.members[i].value))
  }

  ghost predicate ParallelMembers(ms: seq<Member<Json>>, ns: seq<Member<Json>>) {
    |ms| == |ns| && forall i | 0 <= i < |ms| :: ms[i].key == ns[i].key && Parallel(ms[i].value, ns[i].value)
  }

  ghost predicate ParallelOption(a: Option<Json>, b: Option<Json>) {
    (a.Some? <==> b.Some?) && (a.Some? ==> Parallel(a.value, b.value))
  }

  lemma {:induction false} ParallelObjects(ms: seq<Member<Json>>, ns: seq<Member<Json>>)
    requires ParallelMembers(ms, ns)
    ensures Parallel(Object(ms), Object(ns))
  {
  }

  lemma {:induction false} ParallelAppend(ms: seq<Member<Json>>, ns: seq<Member<Json>>, m: Member<Json>, n: Member<Json>)
    requires ParallelMembers(ms, ns) && m.key == n.key && Parallel(m.value, n.value)
    ensures ParallelMembers(ms + [m], ns + [n])
  {
    hide Parallel;
  }

  lemma {:induction false} ParallelCons(m: Member<Json>, n: Member<Json>, ms: seq<Member<Json>>, ns: seq<Member<Json>>)
    requires ParallelMembers(ms, ns) && m.key == n.key && Parallel(m.value, n.value)
    ensures ParallelMembers([m] + ms, [n] + ns)
  {
    hide Parallel;
  }

  lemma {:induction false} ParallelBack(a: Json, b: Json)
    requires Parallel(a, b)
    ensures Parallel(b, a)
    decreases a
  {
    if Alike(a, b) {
      AlikeBack(a, b);
    } else {
      forall i | 0 <= i < |a.members| ensures Parallel(b.members[i].value, a.members[i].value) {
        ParallelBack(a.members[i].value, b.members[i].value);
      }
    }
  }

  /** Beside a clean tree, parallel means alike. */
  lemma {:induction false} ParallelToClean(a: Json, b: Json)
    requires Parallel(a, b) && Clean(a)
    ensures Alike(a, b)
    decreases a
  {
    if !Alike(a, b) {
      var (ms, ns) := (a.members, b.members);
      forall i | 0 <= i < |ms| ensures Alike(ms[i].value, ns[i].value) {
        CleanMember(ms, ms[i]);
        ParallelToClean(ms[i].value, ns[i].value);
      }
      ZippedAlike(ms, ns);
    }
  }

  lemma {:induction false} ZippedAlike(ms: seq<Member<Json>>, ns: seq<Member<Json>>)
    requires AlikeMembers(ms, ns) && Clean(Object(ms))
    ensures Alike(Object(ms), Object(ns))
  {
    hide Same;
    LookupsOfZipped(true, ms, ns);
    LookupsOfZipped(false, ms, ns);
    SameByLookups(true, ms, ns);
    SameByLookups(false, ms, ns);
    assert UniqueKeys(true, ns) && UniqueKeys(false, ns);
  }

  lemma {:induction false} ParallelThrough(a: Json, b: Json, c: Json)
    requires Parallel(a, b) && Parallel(b, c)
    ensures Parallel(a, c)
    decreases b
  {
    if Clean(b) {
      ParallelBack(a, b);
      ParallelToClean(b, a);
      ParallelToClean(b, c);
      AlikeBack(b, a);
      AlikeThrough(a, b, c);
    } else {
      forall i | 0 <= i < |b.members| ensures Parallel(a.members[i].value, c.members[i].value) {
        ParallelThrough(a.members[i].value, b.members[i].value, c.members[i].value);
      }
    }
  }

  // ---------- generating

  /** Alike trees get parallel patches. */
  lemma {:induction false} AlikeGenerate(g: bool, f: Json, f': Json, t: Json, t': Json)
    requires Alike(f, f') && Alike(t, t')
    ensures ParallelOption(GenerateMergePatch(g, f, t), GenerateMergePatch(g, f', t'))
    decreases f, 1
  {
    assert (f.Object? <==> f'.Object?) && (t.Object? <==> t'.Object?);
    if f.Object? && t.Object? {
      AlikeSorted(g, f.members, f'.members);
      AlikeSorted(g, t.members, t'.members);
      var (fs, fs', ts, ts') := (SortedMembers(g, f.members), SortedMembers(g, f'.members), SortedMembers(g, t.members), SortedMembers(g, t'.members));
      hide MergeSort;
      WalkAlike(g, f, f', fs, fs', ts, ts');
      ParallelObjects(DifferingMembers(g, f, fs, ts), DifferingMembers(g, f', fs', ts'));
    }
  }

  lemma {:induction false} WalkAlike(g: bool, f: Json, f': Json, fs: seq<Member<Json>>, fs': seq<Member<Json>>,
                                     ts: seq<Member<Json>>, ts': seq<Member<Json>>)
    requires f.Object? && f'.Object? && AlikeMembers(fs, fs') && AlikeMembers(ts, ts')
    requires forall i | 0 <= i < |fs| :: fs[i] in f.members
    requires forall i | 0 <= i < |fs'| :: fs'[i] in f'.members
    ensures ParallelMembers(DifferingMembers(g, f, fs, ts), DifferingMembers(g, f', fs', ts'))
    decreases f, 0, |fs| + |ts|
  {
    hide CompareSorted, GenerateMergePatch, StrCmp, Alike, Parallel;
    if fs == [] && ts == [] {
      return;
    }
    var diff := if fs == [] then 1 else if ts == [] then -1 else StrCmp(fs[0].key, ts[0].key);
    if diff < 0 {
      WalkAlike(g, f, f', fs[1..], fs'[1..], ts, ts');
      NullIsParallel();
      ParallelCons(Member(fs[0].key, Null), Member(fs'[0].key, Null),
                   DifferingMembers(g, f, fs[1..], ts), DifferingMembers(g, f', fs'[1..], ts'));
    } else if diff > 0 {
      WalkAlike(g, f, f', fs, fs', ts[1..], ts'[1..]);
      AlikeIsParallel(ts[0].value, ts'[0].value);
      ParallelCons(ts[0], ts'[0], DifferingMembers(g, f, fs, ts[1..]), DifferingMembers(g, f', fs', ts'[1..]));
    } else {
      var (u, u', v, v') := (fs[0].value, fs'[0].value, ts[0].value, ts'[0].value);
      WalkAlike(g, f, f', fs[1..], fs'[1..], ts[1..], ts'[1..]);
      AlikeCompare(g, u, u', v, v');
      assert fs[0] in f.members;
      AlikeGenerate(false, u, u', v, v');
      var (p, p') := (GenerateMergePatch(false, u, v), GenerateMergePatch(false, u', v'));
      if p.Some? {
        ParallelCons(Member(ts[0].key, p.value), Member(ts'[0].key, p'.value),
                     DifferingMembers(g, f, fs[1..], ts[1..]), DifferingMembers(g, f', fs'[1..], ts'[1..]));
      }
    }
  }

  lemma NullIsParallel()
    ensures Parallel(Null, Null)
  {
  }

  lemma {:induction false} AlikeIsParallel(a: Json, b: Json)
    requires Alike(a, b)
    ensures Parallel(a, b)
  {
  }

  // ---------- merging

  /** The parts of a patch that are taken over whole have unique keys. */
  predicate WholesUnique(cs: bool, p: Json) {
    if p.Object? then forall i | 0 <= i < |p.members| :: WholesUnique(cs, p.members[i].value) else Unique(cs, p)
  }

  lemma {:induction false} UniqueWholes(cs: bool, p: Json)
    requires Unique(cs, p)
    ensures WholesUnique(cs, p)
  {
    if p.Object? {
      forall i | 0 <= i < |p.members| ensures WholesUnique(cs, p.members[i].value) { UniqueWholes(cs, p.members[i].value); }
    }
  }

  lemma {:induction false} ParallelWholes(cs: bool, a: Json, b: Json)
    requires Parallel(a, b)
    ensures WholesUnique(cs, a)
    decreases a
  {
    if Alike(a, b) {
      UniqueWholes(cs, a);
    } else {
      forall i | 0 <= i < |a.members| ensures WholesUnique(cs, a.members[i].value) {
        ParallelWholes(cs, a.members[i].value, b.members[i].value);
      }
    }
  }

  lemma {:induction false} MergeStaysUnique(cs: bool, t: Option<Json>, p: Json)
    requires UniqueOption(cs, t) && WholesUnique(cs, p)
    ensures Unique(cs, MergePatch(cs, t, p))
    decreases p, 1
  {
    if p.Object? { MembersStayUnique(cs, MembersOf(t), p.members); }
  }

  lemma {:induction false} MembersStayUnique(cs: bool, tm: seq<Member<Json>>, pm: seq<Member<Json>>)
    requires Unique(cs, Object(tm)) && forall m | m in pm :: WholesUnique(cs, m.value)
    ensures Unique(cs, Object(MergeMembers(cs, tm, pm)))
    decreases pm, 0
  {
    hide MergePatch, Fold, WholesUnique;
    if pm != [] {
      var (k, v) := (pm[0].key, pm[0].value);
      LookupIsUnique(cs, tm, k);
      assert pm[0] in pm;
      MergeStaysUnique(cs, Lookup(cs, tm, k), v);
      var r := MergePatch(cs, Lookup(cs, tm, k), v);
      EditStaysUnique(cs, tm, k, if v.Null? then None else Some(r));
      MembersStayUnique(cs, Edited(cs, tm, k, if v.Null? then None else Some(r)), pm[1..]);
    }
  }

  /** The member with the key is taken out, and a new value, if any, comes in at the end. */
  function Edited(cs: bool, tm: seq<Member<Json>>, k: string, r: Option<Json>): seq<Member<Json>> {
    if r.None? then RemoveKey(cs, tm, k) else RemoveKey(cs, tm, k) + [Member(k, r.value)]
  }

  lemma {:induction false} EditStaysUnique(cs: bool, tm: seq<Member<Json>>, k: string, r: Option<Json>)
    requires Unique(cs, Object(tm)) && UniqueOption(cs, r)
    ensures Unique(cs, Object(Edited(cs, tm, k, r)))
  {
    hide Fold, KeyEq;
    if r.None? { RemoveKeyUnique(cs, tm, k); } else { ReplacedUnique(cs, tm, Member(k, r.value)); }
  }

  lemma {:induction false} EditLookup(cs: bool, tm: seq<Member<Json>>, k: string, r: Option<Json>, key: string)
    requires UniqueKeys(cs, tm)
    ensures Lookup(cs, Edited(cs, tm, k, r), key) == if KeyEq(cs, key, k) then r else Lookup(cs, tm, key)
  {
    hide Fold;
    if r.None? { RemoveKeyLookup(cs, tm, k, key); } else { ReplacedLookup(cs, tm, Member(k, r.value), key); }
  }

  lemma {:induction false} EditStaysSame(cs: bool, tm: seq<Member<Json>>, tm': seq<Member<Json>>, k: string, r: Option<Json>, r': Option<Json>)
    requires UniqueKeys(cs, tm) && UniqueKeys(cs, tm') && Same(cs, Object(tm), Object(tm')) && SameOption(cs, r, r')
    ensures Same(cs, Object(Edited(cs, tm, k, r)), Object(Edited(cs, tm', k, r')))
  {
    hide Same, Edited, Fold;
    SameByLookups(cs, tm, tm');
    forall key: string ensures SameLookup(cs, Edited(cs, tm, k, r), Edited(cs, tm', k, r'), key) {
      assert SameLookup(cs, tm, tm', key);
      EditLookup(cs, tm, k, r, key);
      EditLookup(cs, tm', k, r', key);
    }
    SameByLookups(cs, Edited(cs, tm, k, r), Edited(cs, tm', k, r'));
  }

  lemma {:induction false} MergeByEdits(cs: bool, tm: seq<Member<Json>>, pm: seq<Member<Json>>)
    requires pm != []
    ensures var (k, v) := (pm[0].key, pm[0].value);
      var r := if v.Null? then None else Some(MergePatch(cs, Lookup(cs, tm, k), v));
      MergeMembers(cs, tm, pm) == MergeMembers(cs, Edited(cs, tm, k, r), pm[1..])
  {
    hide MergePatch;
  }

  /** Merging parallel patches into equal targets gives equal trees. */
  lemma {:induction false} MergeParallel(cs: bool, d: Option<Json>, d': Option<Json>, a: Json, b: Json)
    requires UniqueOption(cs, d) && UniqueOption(cs, d') && SameOption(cs, d, d') && Parallel(a, b)
    ensures Same(cs, MergePatch(cs, d, a), MergePatch(cs, d', b))
    decreases a, 1
  {
    if a.Object? {
      var (tm, tm') := (MembersOf(d), MembersOf(d'));
      SameTargets(cs, d, d');
      MergeOfObject(cs, tm, a.members);
      MergeOfObject(cs, tm', b.members);
      if Alike(a, b) {
        MergeAlike(cs, d, d', a, b);
      } else {
        MergeAlong(cs, tm, tm', a.members, b.members);
      }
    }
  }

  lemma {:induction false} SameTargets(cs: bool, d: Option<Json>, d': Option<Json>)
    requires UniqueOption(cs, d) && UniqueOption(cs, d') && SameOption(cs, d, d')
    ensures var (tm, tm') := (MembersOf(d), MembersOf(d'));
      Unique(cs, Object(tm)) && Unique(cs, Object(tm')) && Same(cs, Object(tm), Object(tm'))
  {
    SameReflexive(cs, Object([]));
  }

  lemma {:induction false} MergeAlong(cs: bool, tm: seq<Member<Json>>, tm': seq<Member<Json>>, pm: seq<Member<Json>>, pm': seq<Member<Json>>)
    requires Unique(cs, Object(tm)) && Unique(cs, Object(tm')) && Same(cs, Object(tm), Object(tm')) && ParallelMembers(pm, pm')
    ensures Same(cs, Object(MergeMembers(cs, tm, pm)), Object(MergeMembers(cs, tm', pm')))
    decreases pm, 0
  {
    hide MergePatch, Fold, Parallel, Same, Unique, Edited, Lookup;
    if pm != [] {
      var (k, v, v') := (pm[0].key, pm[0].value, pm'[0].value);
      var (t, t') := (Lookup(cs, tm, k), Lookup(cs, tm', k));
      LookupIsUnique(cs, tm, k);
      LookupIsUnique(cs, tm', k);
      SameByLookups(cs, tm, tm');
      assert SameLookup(cs, tm, tm', k);
      MergeParallel(cs, t, t', v, v');
      ParallelBack(v, v');
      ParallelWholes(cs, v, v');
      ParallelWholes(cs, v', v);
      NullsAgree(v, v');
      MergeStaysUnique(cs, t, v);
      MergeStaysUnique(cs, t', v');
      var r, r' := if v.Null? then None else Some(MergePatch(cs, t, v)), if v.Null? then None else Some(MergePatch(cs, t', v'));
      MergeByEdits(cs, tm, pm);
      MergeByEdits(cs, tm', pm');
      assert UniqueKeys(cs, tm) && UniqueKeys(cs, tm') by { UniqueTop(cs, tm); UniqueTop(cs, tm'); }
      EditStaysSame(cs, tm, tm', k, r, r');
      EditStaysUnique(cs, tm, k, r);
      EditStaysUnique(cs, tm', k, r');
      MergeAlong(cs, Edited(cs, tm, k, r), Edited(cs, tm', k, r'), pm[1..], pm'[1..]);
    }
  }

  lemma {:induction false} UniqueTop(cs: bool, tm: seq<Member<Json>>)
    requires Unique(cs, Object(tm))
    ensures UniqueKeys(cs, tm)
  {
  }

  lemma {:induction false} NullsAgree(a: Json, b: Json)
    requires Parallel(a, b)
    ensures a.Null? <==> b.Null?
  {
  }

  lemma {:induction false} MergeAlike(cs: bool, d: Option<Json>, d': Option<Json>, a: Json, b: Json)
    requires UniqueOption(cs, d) && UniqueOption(cs, d') && SameOption(cs, d, d') && Alike(a, b) && a.Object?
    ensures Same(cs, MergePatch(cs, d, a), MergePatch(cs, d', b))
    decreases a, 0, 1
  {
    var (tm, tm') := (MembersOf(d), MembersOf(d'));
    SameTargets(cs, d, d');
    MergeIsRfc7396(cs, d, a);
    MergeIsRfc7396(cs, d', b);
    var (r, r') := (MergePatch(cs, d, a), MergePatch(cs, d', b));
    hide MergePatch, Same, Unique, Fold, Lookup, Alike, MergedValue;
    forall key: string ensures SameLookup(cs, r.members, r'.members, key) {
      MergeAlikeAt(cs, tm, tm', a, b, key);
    }
    SameByLookups(cs, r.members, r'.members);
  }

  lemma {:induction false} MergeAlikeAt(cs: bool, tm: seq<Member<Json>>, tm': seq<Member<Json>>, a: Json, b: Json, key: string)
    requires Unique(cs, Object(tm)) && Unique(cs, Object(tm')) && Same(cs, Object(tm), Object(tm'))
    requires Alike(a, b) && a.Object?
    ensures b.Object?
    ensures SameOption(cs, MergedValue(cs, Lookup(cs, tm, key), Lookup(cs, a.members, key)),
                       MergedValue(cs, Lookup(cs, tm', key), Lookup(cs, b.members, key)))
    decreases a, 0, 0
  {
    assert b.Object?;
    hide MergePatch, Same, Unique, Fold, Lookup, Alike;
    var (p, p') := (Lookup(cs, a.members, key), Lookup(cs, b.members, key));
    SameByLookups(cs, tm, tm');
    assert SameLookup(cs, tm, tm', key);
    AlikeLookup(cs, a.members, b.members, key);
    LookupIsUnique(cs, tm, key);
    LookupIsUnique(cs, tm', key);
    if p.Some? {
      AlikeIsParallel(p.value, p'.value);
      NullsAgree(p.value, p'.value);
      MergeParallel(cs, Lookup(cs, tm, key), Lookup(cs, tm', key), p.value, p'.value);
    }
  }

  /** So a patch parallel to the generated one makes the same round trip. */
  lemma {:induction false} ParallelMerges(cs: bool, doc: Json, from: Json, to: Json, p: Option<Json>)
    requires Unique(cs, doc) && Unique(cs, from) && Unique(cs, to) && Same(cs, doc, from) && Generable(cs, cs, from, to)
    requires ParallelOption(p, GenerateMergePatch(cs, from, to))
    ensures MergesTo(cs, doc, from, to, p)
  {
    var g := GenerateMergePatch(cs, from, to);
    MergeRoundTrip(cs, doc, from, to);
    if p.Some? {
      SameReflexive(cs, doc);
      MergeParallel(cs, Some(doc), Some(doc), p.value, g.value);
      var (x, y) := (MergePatch(cs, Some(doc), p.value), MergePatch(cs, Some(doc), g.value));
      if Same(cs, y, to) { SameTransitive(cs, x, y, to); }
      if Same(cs, x, to) {
        SameSymmetric(cs, x, y);
        SameTransitive(cs, y, x, to);
      }
    }
  }
}
