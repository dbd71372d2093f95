/** How the edits of a member list change what a key looks up. */
module Members {
  import opened CStrings
  import opened JsonTree
  import opened Sequences

  function RemoveKey<T>(cs: bool, ms: seq<Member<T>>, key: string): seq<Member<T>> {
    var i := IndexOf(cs, ms, key);
    if i < |ms| then Without(ms, i) else ms
  }

  lemma IndexOfIs<T>(cs: bool, ms: seq<Member<T>>, key: string, i: nat)
    requires i <= |ms|
    requires i < |ms| ==> KeyEq(cs, ms[i].key, key)
    requires forall j | 0 <= j < i :: !KeyEq(cs, ms[j].key, key)
    ensures IndexOf(cs, ms, key) == i
  {
    hide Fold;
  }

  lemma IndexOfFold<T>(caseSensitive: bool, ms: seq<Member<T>>, a: string, b: string)
    requires KeyEq(caseSensitive, a, b)
    ensures IndexOf(caseSensitive, ms, a) == IndexOf(caseSensitive, ms, b)
  {
    hide Fold;
  }

  lemma IndexOfWithout<T>(cs: bool, ms: seq<Member<T>>, r: nat, key: string)
    requires r < |ms| && r != IndexOf(cs, ms, key)
    ensures var i := IndexOf(cs, ms, key); IndexOf(cs, Without(ms, r), key) == if r < i then i - 1 else i
  {
    hide Fold;
    var i := IndexOf(cs, ms, key);
    IndexOfIs(cs, Without(ms, r), key, if r < i then i - 1 else i);
  }

  lemma RemoveKeyUnique<T>(cs: bool, ms: seq<Member<T>>, key: string)
    requires UniqueKeys(cs, ms)
    ensures UniqueKeys(cs, RemoveKey(cs, ms, key))
    ensures IndexOf(cs, RemoveKey(cs, ms, key), key) == |RemoveKey(cs, ms, key)|
  {
    hide Fold;
    var rest := RemoveKey(cs, ms, key);
    IndexOfIs(cs, rest, key, |rest|);
  }

  lemma OtherKeysKept<T>(cs: bool, ms: seq<Member<T>>, key: string, k: string)
    requires !KeyEq(cs, k, key)
    ensures Lookup(cs, RemoveKey(cs, ms, key), k) == Lookup(cs, ms, k)
  {
    hide Fold;
    var r := IndexOf(cs, ms, key);
    if r < |ms| {
      var i, rest := IndexOf(cs, ms, k), Without(ms, r);
      assert i != r;
      IndexOfWithout(cs, ms, r, k);
      assert i < |ms| ==> rest[if r < i then i - 1 else i] == ms[i];
    }
  }

  lemma RemoveKeyLookup<T>(cs: bool, ms: seq<Member<T>>, key: string, k: string)
    requires UniqueKeys(cs, ms)
    ensures Lookup(cs, RemoveKey(cs, ms, key), k) == if KeyEq(cs, k, key) then None else Lookup(cs, ms, k)
  {
    hide Fold;
    if KeyEq(cs, k, key) {
      RemoveKeyUnique(cs, ms, key);
      IndexOfFold(cs, RemoveKey(cs, ms, key), k, key);
    } else {
      OtherKeysKept(cs, ms, key, k);
    }
  }

  lemma {:induction false} AppendIndex<T>(cs: bool, ms: seq<Member<T>>, m: Member<T>, k: string)
    ensures var i := IndexOf(cs, ms, k);
      IndexOf(cs, ms + [m], k) == if i < |ms| || KeyEq(cs, m.key, k) then i else |ms| + 1
  {
    hide Fold;
    var i := IndexOf(cs, ms, k);
    IndexOfIs(cs, ms + [m], k, if i < |ms| || KeyEq(cs, m.key, k) then i else |ms| + 1);
  }

  lemma {:induction false} AppendUnique<T>(cs: bool, ms: seq<Member<T>>, m: Member<T>)
    requires UniqueKeys(cs, ms) && IndexOf(cs, ms, m.key) == |ms|
    ensures UniqueKeys(cs, ms + [m])
  {
    hide Fold;
  }

  /** Putting a member in the place of the one with its key, at the end of the list. */
  lemma {:induction false} ReplacedLookup<T>(cs: bool, ms: seq<Member<T>>, m: Member<T>, k: string)
    requires UniqueKeys(cs, ms)
    ensures var r := RemoveKey(cs, ms, m.key) + [m];
      Lookup(cs, r, k) == if KeyEq(cs, k, m.key) then Some(m.value) else Lookup(cs, ms, k)
  {
    hide Fold;
    var rest := RemoveKey(cs, ms, m.key);
    RemoveKeyLookup(cs, ms, m.key, k);
    AppendIndex(cs, rest, m, k);
  }

  lemma {:induction false} ReplacedUnique<T>(cs: bool, ms: seq<Member<T>>, m: Member<T>)
    requires UniqueKeys(cs, ms)
    ensures UniqueKeys(cs, RemoveKey(cs, ms, m.key) + [m])
  {
    hide Fold;
    RemoveKeyUnique(cs, ms, m.key);
    AppendUnique(cs, RemoveKey(cs, ms, m.key), m);
  }

  lemma UpdatedIndex<T>(cs: bool, ms: seq<Member<T>>, i: nat, v: T, k: string)
    requires i < |ms|
    ensures IndexOf(cs, ms[i := Member(ms[i].key, v)], k) == IndexOf(cs, ms, k)
  {
    hide Fold;
    IndexOfIs(cs, ms[i := Member(ms[i].key, v)], k, IndexOf(cs, ms, k));
  }

  lemma {:induction false} TailLookup<T>(cs: bool, ms: seq<Member<T>>, k: string)
    requires ms != [] && UniqueKeys(cs, ms)
    ensures Lookup(cs, ms[1..], k) == if KeyEq(cs, k, ms[0].key) then None else Lookup(cs, ms, k)
  {
    hide Fold;
    if KeyEq(cs, k, ms[0].key) { IndexOfIs(cs, ms[1..], k, |ms| - 1); }
  }

  lemma {:induction false} ConsLookup<T>(cs: bool, m: Member<T>, rest: seq<Member<T>>, k: string)
    ensures Lookup(cs, [m] + rest, k) == if KeyEq(cs, m.key, k) then Some(m.value) else Lookup(cs, rest, k)
  {
    hide Fold;
    assert ([m] + rest)[1..] == rest;
    IndexOfIs(cs, [m] + rest, k, if KeyEq(cs, m.key, k) then 0 else 1 + IndexOf(cs, rest, k));
  }

  lemma {:induction false} ConsUnique<T>(cs: bool, m: Member<T>, rest: seq<Member<T>>)
    requires UniqueKeys(cs, rest) && Lookup(cs, rest, m.key).None?
    ensures UniqueKeys(cs, [m] + rest)
  {
    hide Fold;
    forall j | 0 <= j < |rest| ensures !KeyEq(cs, m.key, rest[j].key) { }
  }
}
