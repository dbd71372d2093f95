/** Any run of list edits: the chain stays linked, its head names its tail, and it is the edited sequence. */
module ListRuns {
  import opened CStrings
  import opened Sequences
  import opened Nodes

  datatype Edit = Append(item: Node) | Insert(which: nat, item: Node) | Detach(which: nat) | Replace(which: nat, item: Node)

  /** What one edit does to the sequence of children; positions past the end append, or do nothing. */
  function Edited(ns: seq<Node>, e: Edit): seq<Node> {
    match e
    case Append(item) => ns + [item]
    case Insert(which, item) => InsertAt(ns, if which < |ns| then which else |ns|, item)
    case Detach(which) => if which < |ns| then Without(ns, which) else ns
    case Replace(which, item) => if which < |ns| then ns[which := item] else ns
  }

  function Run(ns: seq<Node>, edits: seq<Edit>): seq<Node>
    decreases |edits|
  {
    if edits == [] then ns else Run(Edited(ns, edits[0]), edits[1..])
  }

  /** An item that enters the list is one of the pool and not in the list yet. */
  predicate Admissible(parent: Node, ns: seq<Node>, e: Edit, pool: set<Node>) {
    match e
    case Detach(_) => true
    case Replace(which, item) => item in pool && item != parent && (item in ns ==> which < |ns| && ns[which] == item)
    case _ => e.item in pool && e.item != parent && e.item !in ns
  }

  predicate AllAdmissible(parent: Node, ns: seq<Node>, edits: seq<Edit>, pool: set<Node>)
    decreases |edits|
  {
    edits == []
    || (Admissible(parent, ns, edits[0], pool) && AllAdmissible(parent, Edited(ns, edits[0]), edits[1..], pool))
  }

  /** Nodes of the pool that are in no list point nowhere. */
  ghost predicate RestIsFree(ns: seq<Node>, pool: set<Node>)
    reads pool`next
  {
    (forall i | 0 <= i < |ns| :: ns[i] in pool) && forall n | n in pool && n !in ns :: n.next == null
  }

  method DoAppend(parent: Node, item: Node, ghost ns: seq<Node>, ghost pool: set<Node>)
    requires List(parent, ns) && RestIsFree(ns, pool) && item in pool && item != parent && item !in ns
    modifies parent`child, pool`next, pool`prev
    ensures List(parent, ns + [item]) && RestIsFree(ns + [item], pool)
  {
    assert Children(parent, ns) && Tailed(ns);
    hide List, Children, Tailed;
    AddItemToArray(parent, item, ns);
    ghost var ms := ns + [item];
    assert forall i | 0 <= i < |ms| :: ms[i] == if i < |ns| then ns[i] else item;
    assert item in ms && forall n | n in ns :: n in ms;
  }

  method DoInsert(parent: Node, which: nat, item: Node, ghost ns: seq<Node>, ghost pool: set<Node>)
    requires List(parent, ns) && RestIsFree(ns, pool) && item in pool && item != parent && item !in ns
    modifies parent`child, pool`next, pool`prev
    ensures List(parent, Edited(ns, Insert(which, item))) && RestIsFree(Edited(ns, Insert(which, item)), pool)
  {
    hide List;
    var ok := InsertItemInArray(parent, which, item, ns);
    ghost var ms := Edited(ns, Insert(which, item));
    assert forall n | n in ns :: n in ms by { InsertedMembers(ns, if which < |ns| then which else |ns|, item); }
    assert item in ms by { assert ms[if which < |ns| then which else |ns|] == item; }
  }

  lemma InsertedMembers(ns: seq<Node>, i: nat, item: Node)
    requires i <= |ns|
    ensures forall n | n in ns :: n in InsertAt(ns, i, item)
  {
    forall k | 0 <= k < |ns| ensures ns[k] in InsertAt(ns, i, item) {
      assert InsertAt(ns, i, item)[if k < i then k else k + 1] == ns[k];
    }
  }

  lemma WithoutMembers(ns: seq<Node>, i: nat, n: Node)
    requires i < |ns| && n in ns
    ensures n == ns[i] || n in Without(ns, i)
  {
    var k :| 0 <= k < |ns| && ns[k] == n;
    if k != i {
      assert Without(ns, i)[if k < i then k else k - 1] == n;
    }
  }

  method DoDetach(parent: Node, which: nat, ghost ns: seq<Node>, ghost pool: set<Node>)
    requires List(parent, ns) && RestIsFree(ns, pool)
    modifies parent`child, pool`next, pool`prev
    ensures List(parent, Edited(ns, Detach(which))) && RestIsFree(Edited(ns, Detach(which)), pool)
  {
    hide List;
    var item := DetachItemFromArray(parent, which, ns);
    if which < |ns| {
      ghost var ms := Without(ns, which);
      hide Without;
      forall n | n in pool && n !in ms ensures n.next == null {
        if n in ns { WithoutMembers(ns, which, n); }
      }
    }
  }

  method DoReplace(parent: Node, which: nat, item: Node, ghost ns: seq<Node>, ghost pool: set<Node>)
    requires List(parent, ns) && RestIsFree(ns, pool) && item in pool && item != parent
    requires item in ns ==> which < |ns| && ns[which] == item
    modifies parent`child, pool`next, pool`prev
    ensures List(parent, Edited(ns, Replace(which, item))) && RestIsFree(Edited(ns, Replace(which, item)), pool)
  {
    assert Children(parent, ns);
    hide List, Children;
    var before := GetArrayItem(parent, which, ns);
    if before == null {
      return;
    }
    ReplaceItemViaPointer(parent, before, item, ns, which);
    ghost var ms := ns[which := item];
    assert ms[which] == item;
    forall k | 0 <= k < |ns| && k != which ensures ns[k] in ms {
      assert ms[k] == ns[k];
    }
  }

  /** Any run of edits through the library keeps the list and makes the edits of Run. */
  method RunEdits(parent: Node, edits: seq<Edit>, ghost ns: seq<Node>, ghost pool: set<Node>)
    requires List(parent, ns) && RestIsFree(ns, pool) && AllAdmissible(parent, ns, edits, pool)
    modifies parent`child, pool`next, pool`prev
    ensures List(parent, Run(ns, edits)) && RestIsFree(Run(ns, edits), pool)
  {
    hide List, RestIsFree, AllAdmissible, Run, Edited;
    ghost var current := ns;
    assert edits[0..] == edits;
    for i := 0 to |edits|
      invariant List(parent, current) && RestIsFree(current, pool)
      invariant AllAdmissible(parent, current, edits[i..], pool)
      invariant Run(ns, edits) == Run(current, edits[i..])
    {
      RunStep(parent, current, edits, i, pool);
      match edits[i] {
        case Append(item) => DoAppend(parent, item, current, pool);
        case Insert(which, item) => DoInsert(parent, which, item, current, pool);
        case Detach(which) => DoDetach(parent, which, current, pool);
        case Replace(which, item) => DoReplace(parent, which, item, current, pool);
      }
      current := Edited(current, edits[i]);
    }
    RunEnd(current, edits);
  }

  lemma RunStep(parent: Node, ns: seq<Node>, edits: seq<Edit>, i: nat, pool: set<Node>)
    requires i < |edits| && AllAdmissible(parent, ns, edits[i..], pool)
    ensures Admissible(parent, ns, edits[i], pool) && AllAdmissible(parent, Edited(ns, edits[i]), edits[i + 1..], pool)
    ensures Run(ns, edits[i..]) == Run(Edited(ns, edits[i]), edits[i + 1..])
    ensures edits[i].Append? ==> Edited(ns, edits[i]) == ns + [edits[i].item]
  {
    assert edits[i..][0] == edits[i] && edits[i..][1..] == edits[i + 1..];
  }

  lemma RunEnd(ns: seq<Node>, edits: seq<Edit>)
    ensures Run(ns, edits[|edits|..]) == ns
  {
  }
}
