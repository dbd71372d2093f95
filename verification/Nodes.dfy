/** The cJSON item and the doubly linked lists that hold the children of arrays and objects. */
module Nodes {
  import opened CStrings
  import opened Sequences

  datatype Kind = KInvalid | KFalse | KTrue | KNull | KNumber | KString | KArray | KObject

  class Node {
    var next: Node?
    var prev: Node?
    var child: Node?
    var kind: Kind
    var valuestring: string
    var number: int
    var key: Option<string>

    /** cJSON_New_Item: all fields are zero. */
    constructor ()
      ensures next == null && prev == null && child == null
      ensures kind == KInvalid && valuestring == "" && number == 0 && key == None
    {
      next, prev, child := null, null, null;
      kind, valuestring, number, key := KInvalid, "", 0, None;
    }
  }

  ghost predicate Distinct(ns: seq<Node>) {
    forall i, j | 0 <= i < j < |ns| :: ns[i] != ns[j]
  }

  /** A next chain through exactly these nodes, in which every node but the first names its predecessor. */
  ghost predicate Links(ns: seq<Node>)
    reads ns`next, ns`prev
  {
    && (forall i {:trigger ns[i].next} | 0 <= i < |ns| - 1 :: ns[i].next == ns[i + 1])
    && (ns != [] ==> ns[|ns| - 1].next == null)
    && (forall i {:trigger ns[i].prev} | 0 < i < |ns| :: ns[i].prev == ns[i - 1])
  }

  /** The head names the tail: what appending in constant time relies on. */
  ghost predicate Tailed(ns: seq<Node>)
    reads ns`prev
  {
    ns != [] ==> ns[0].prev == ns[|ns| - 1]
  }

  function HeadOf(ns: seq<Node>): Node? {
    if ns == [] then null else ns[0]
  }

  /** The list of children of an array or object. */
  ghost predicate Children(parent: Node, ns: seq<Node>)
    reads parent`child, ns`next, ns`prev
  {
    parent !in ns && Distinct(ns) && parent.child == HeadOf(ns) && Links(ns)
  }

  ghost predicate List(parent: Node, ns: seq<Node>)
    reads parent`child, ns`next, ns`prev
  {
    Children(parent, ns) && Tailed(ns)
  }

  /** get_array_item: null when the index is past the end. */
  method GetArrayItem(parent: Node, index: nat, ghost ns: seq<Node>) returns (item: Node?)
    requires Children(parent, ns)
    ensures item == if index < |ns| then ns[index] else null
  {
    var left: nat := index;
    item := parent.child;
    ghost var i := 0;
    while item != null && left > 0
      invariant i <= |ns| && left + i == index
      invariant item == if i < |ns| then ns[i] else null
      decreases left
    {
      left := left - 1;
      item := item.next;
      i := i + 1;
    }
    assert item == null ==> i == |ns|;
  }

  /** The head names some node of the list, or nothing: all that a sort can leave behind. */
  ghost predicate HeadNamesOne(ns: seq<Node>)
    reads ns`prev
  {
    ns != [] ==> ns[0].prev == null || ns[0].prev in ns
  }

  /**
   add_item_to_array.  The item follows the node that the head names: the whole list if that is the tail, and
   otherwise everything behind that node is cut off.  If the head names nothing, the item is lost.
   */
  method AddItemToArray(parent: Node, item: Node, ghost ns: seq<Node>)
    requires Children(parent, ns) && HeadNamesOne(ns)
    requires item !in ns && item != parent && item.next == null
    modifies parent`child, ns`next, ns`prev, item`next, item`prev
    ensures old(Tailed(ns)) <==> List(parent, ns + [item])
    ensures forall k | 0 <= k < |ns| && old(ns[0].prev) == ns[k] :: List(parent, ns[..k + 1] + [item])
    ensures ns != [] && old(ns[0].prev) == null ==> Children(parent, ns) && ns[0].prev == null
  {
    var child := parent.child;
    if child == null {
      parent.child := item;
      item.prev := item;
      item.next := null;
      assert ns == [];
    } else if child.prev != null {
      ghost var k :| 0 <= k < |ns| && ns[k] == child.prev;
      child.prev.next := item;
      item.prev := child.prev;
      parent.child.prev := item;
      Appended(parent, item, ns, k);
    } else {
      assert (ns + [item])[|ns| - 1] == ns[|ns| - 1] && (ns + [item])[|ns|] == item;
    }
  }

  /** The list after its node k has been linked to a new tail. */
  lemma Appended(parent: Node, item: Node, ns: seq<Node>, k: nat)
    requires k < |ns| && Distinct(ns) && parent !in ns && item !in ns && item != parent && parent.child == ns[0]
    requires forall i {:trigger ns[i].next} | 0 <= i < k :: ns[i].next == ns[i + 1]
    requires forall i {:trigger ns[i].prev} | 0 < i <= k :: ns[i].prev == ns[i - 1]
    requires ns[k].next == item && item.next == null && item.prev == ns[k] && ns[0].prev == item
    ensures List(parent, ns[..k + 1] + [item])
    ensures List(parent, ns + [item]) <==> k == |ns| - 1
    ensures forall j | 0 <= j < |ns| && ns[j] == ns[k] :: j == k
  {
    var ms := ns[..k + 1] + [item];
    assert forall i | 0 <= i < |ms| :: ms[i] == if i <= k then ns[i] else item;
    if k == |ns| - 1 {
      assert ms == ns + [item];
    } else {
      var all := ns + [item];
      assert all[k] == ns[k] && all[k + 1] == ns[k + 1] != item;
    }
  }

  /** The list around a node that has been taken out of it. */
  lemma Spliced(parent: Node, ns: seq<Node>, i: nat)
    requires i < |ns| && Distinct(ns) && parent !in ns
    requires parent.child == if i > 0 then ns[0] else if |ns| > 1 then ns[1] else null
    requires forall j {:trigger ns[j].next} | 0 <= j < |ns| && j != i ::
      ns[j].next == if j + 1 != i then (if j + 1 < |ns| then ns[j + 1] else null) else if i + 1 < |ns| then ns[i + 1] else null
    requires forall j {:trigger ns[j].prev} | 0 < j < |ns| && j != i && (i == 0 ==> j > 1) ::
      ns[j].prev == if j - 1 != i then ns[j - 1] else ns[i - 1]
    requires |ns| > 1 ==> ns[if i == 0 then 1 else 0].prev == ns[if i == |ns| - 1 then |ns| - 2 else |ns| - 1]
    ensures List(parent, Without(ns, i))
  {
    var ms := Without(ns, i);
    assert forall j | 0 <= j < |ms| :: ms[j] == ns[if j < i then j else j + 1];
    assert Distinct(ms);
    assert Links(ms);
    assert Tailed(ms);
  }

  /** cJSON_DetachItemViaPointer */
  method DetachItemViaPointer(parent: Node, item: Node, ghost ns: seq<Node>, ghost i: nat)
    requires List(parent, ns) && i < |ns| && ns[i] == item
    modifies parent`child, ns`next, ns`prev
    ensures List(parent, Without(ns, i))
    ensures item.next == null && item.prev == null
  {
    hide Without, List;
    assert Children(parent, ns) && Tailed(ns) by { ListIs(parent, ns); }
    if item != parent.child {
      item.prev.next := item.next;
    }
    if item.next != null {
      item.next.prev := item.prev;
    }
    if item == parent.child {
      parent.child := item.next;
    } else if item.next == null {
      parent.child.prev := item.prev;
    }
    item.prev := null;
    item.next := null;
    Spliced(parent, ns, i);
  }

  lemma ListIs(parent: Node, ns: seq<Node>)
    requires List(parent, ns)
    ensures Children(parent, ns) && Tailed(ns)
  {
  }

  /** detach_item_from_array of the utilities: the same splice by position, null when there is no such item. */
  method DetachItemFromArray(parent: Node, which: nat, ghost ns: seq<Node>) returns (item: Node?)
    requires List(parent, ns)
    modifies parent`child, ns`next, ns`prev
    ensures which < |ns| ==> item == ns[which] && List(parent, Without(ns, which)) && item.next == null && item.prev == null
    ensures which >= |ns| ==> item == null && List(parent, ns)
  {
    var c := GetArrayItem(parent, which, ns);
    if c == null {
      return null;
    }
    DetachItemViaPointer(parent, c, ns, which);
    return c;
  }

  /** The splice that both insertion procedures share once they stand at a node. */
  method InsertBefore(parent: Node, at: Node, item: Node, ghost ns: seq<Node>, ghost i: nat)
    requires List(parent, ns) && i < |ns| && ns[i] == at
    requires item !in ns && item != parent
    modifies parent`child, ns`next, ns`prev, item`next, item`prev
    ensures List(parent, InsertAt(ns, i, item))
  {
    item.next := at;
    item.prev := at.prev;
    at.prev := item;
    if at == parent.child {
      parent.child := item;
    } else {
      item.prev.next := item;
    }
  }

  /** cJSON_InsertItemInArray: past the end it appends. */
  method InsertItemInArray(parent: Node, which: int, item: Node, ghost ns: seq<Node>) returns (ok: bool)
    requires List(parent, ns)
    requires item !in ns && item != parent && item.next == null
    modifies parent`child, ns`next, ns`prev, item`next, item`prev
    ensures ok <==> which >= 0
    ensures !ok ==> List(parent, ns)
    ensures ok ==> List(parent, InsertAt(ns, if which < |ns| then which else |ns|, item))
  {
    if which < 0 {
      return false;
    }
    var after := GetArrayItem(parent, which, ns);
    if after == null {
      AddItemToArray(parent, item, ns);
      assert InsertAt(ns, |ns|, item) == ns + [item];
    } else {
      InsertBefore(parent, after, item, ns, which);
    }
    return true;
  }

  /** insert_item_in_array of the utilities: past the end it fails. */
  method InsertItemOrFail(parent: Node, which: nat, item: Node, ghost ns: seq<Node>) returns (ok: bool)
    requires List(parent, ns)
    requires item !in ns && item != parent && item.next == null
    modifies parent`child, ns`next, ns`prev, item`next, item`prev
    ensures ok <==> which <= |ns|
    ensures !ok ==> List(parent, ns) && item.next == null
    ensures ok ==> List(parent, InsertAt(ns, which, item))
  {
    var child, left: nat := parent.child, which;
    ghost var i := 0;
    while child != null && left > 0
      invariant i <= |ns| && left + i == which
      invariant child == if i < |ns| then ns[i] else null
      decreases left
    {
      child := child.next;
      left := left - 1;
      i := i + 1;
    }
    assert child == null ==> i == |ns|;
    if left > 0 {
      return false;
    }
    if child == null {
      AddItemToArray(parent, item, ns);
      assert InsertAt(ns, |ns|, item) == ns + [item];
    } else {
      InsertBefore(parent, child, item, ns, which);
    }
    return true;
  }

  /** cJSON_ReplaceItemViaPointer for an item of the list and a replacement outside it. */
  method ReplaceItemViaPointer(parent: Node, item: Node, replacement: Node, ghost ns: seq<Node>, ghost i: nat)
    requires List(parent, ns) && i < |ns| && ns[i] == item
    requires replacement == item || (replacement !in ns && replacement != parent)
    modifies parent`child, ns`next, ns`prev, replacement`next, replacement`prev
    ensures List(parent, ns[i := replacement])
    ensures replacement != item ==> item.next == null && item.prev == null
  {
    if replacement == item {
      return;
    }
    replacement.next := item.next;
    replacement.prev := item.prev;
    if replacement.next != null {
      replacement.next.prev := replacement;
    }
    if parent.child == item {
      if parent.child.prev == parent.child {
        replacement.prev := replacement;
      }
      parent.child := replacement;
    } else {
      if replacement.prev != null {
        replacement.prev.next := replacement;
      }
      if replacement.next == null {
        parent.child.prev := replacement;
      }
    }
    item.next := null;
    item.prev := null;
  }
}
