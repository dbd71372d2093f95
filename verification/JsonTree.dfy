/** The value of a cJSON tree, without its links: what a reader of the tree can see. */
module JsonTree {
  import opened CStrings

  datatype Member<+T> = Member(key: string, value: T)

  datatype Json =
    | Null
    | False
    | True
    | Number(n: int)
    | String(s: string)
    | Array(items: seq<Json>)
    | Object(members: seq<Member<Json>>)

  predicate KeyEq(caseSensitive: bool, a: string, b: string) {
    Fold(caseSensitive, a) == Fold(caseSensitive, b)
  }

  /** Position of the first member with this key, or |ms| if there is none. */
  function IndexOf<T>(caseSensitive: bool, ms: seq<Member<T>>, key: string): (i: nat)
    ensures i <= |ms|
    ensures i < |ms| ==> KeyEq(caseSensitive, ms[i].key, key)
    ensures forall j | 0 <= j < i :: !KeyEq(caseSensitive, ms[j].key, key)
  {
    if ms == [] || KeyEq(caseSensitive, ms[0].key, key) then 0
    else 1 + IndexOf(caseSensitive, ms[1..], key)
  }

  function Lookup<T>(caseSensitive: bool, ms: seq<Member<T>>, key: string): Option<T> {
    var i := IndexOf(caseSensitive, ms, key);
    if i < |ms| then Some(ms[i].value) else None
  }

  predicate UniqueKeys<T>(caseSensitive: bool, ms: seq<Member<T>>) {
    forall i, j | 0 <= i < j < |ms| :: !KeyEq(caseSensitive, ms[i].key, ms[j].key)
  }

  /** Every object in the tree has pairwise different keys. */
  predicate Unique(caseSensitive: bool, j: Json) {
    match j
    case Array(items) => forall i | 0 <= i < |items| :: Unique(caseSensitive, items[i])
    case Object(ms) =>
      && UniqueKeys(caseSensitive, ms)
      && forall i | 0 <= i < |ms| :: Unique(caseSensitive, ms[i].value)
    case _ => true
  }

  /** Equality that ignores the order of members: objects agree when every key looks up the same. */
  ghost predicate Same(caseSensitive: bool, a: Json, b: Json)
    decreases a
  {
    match a
    case Array(items) =>
      && b.Array?
      && |items| == |b.items|
      && forall i | 0 <= i < |items| :: Same(caseSensitive, items[i], b.items[i])
    case Object(ms) =>
      && b.Object?
      && forall key: string ::
           var i := IndexOf(caseSensitive, ms, key);
           var k := IndexOf(caseSensitive, b.members, key);
           && (i < |ms| <==> k < |b.members|)
           && (i < |ms| ==> Same(caseSensitive, ms[i].value, b.members[k].value))
    case _ => a == b
  }

  function Max(a: nat, b: nat): nat {
    if a < b then b else a
  }

  /** How many arrays and objects enclose the deepest point of the tree. */
  function Nesting(j: Json): (n: nat)
    ensures j.Array? ==> forall i | 0 <= i < |j.items| :: Nesting(j.items[i]) < n
    ensures j.Object? ==> forall i | 0 <= i < |j.members| :: Nesting(j.members[i].value) < n
    decreases j, 1
  {
    match j
    case Array(items) => 1 + NestingOfItems(items)
    case Object(ms) => 1 + NestingOfMembers(ms)
    case _ => 0
  }

  function NestingOfItems(items: seq<Json>): (n: nat)
    ensures forall i | 0 <= i < |items| :: Nesting(items[i]) <= n
    decreases items, 0
  {
    if items == [] then 0 else Max(Nesting(items[0]), NestingOfItems(items[1..]))
  }

  function NestingOfMembers(ms: seq<Member<Json>>): (n: nat)
    ensures forall i | 0 <= i < |ms| :: Nesting(ms[i].value) <= n
    decreases ms, 0
  {
    if ms == [] then 0 else Max(Nesting(ms[0].value), NestingOfMembers(ms[1..]))
  }
}
