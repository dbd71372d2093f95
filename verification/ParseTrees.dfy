/** parse_value, parse_array and parse_object: the text of a parse buffer, read into linked nodes. */
module ParseTrees {
  import opened CStrings
  import opened JsonTree
  import opened Numbers
  import opened Utf8
  import opened Parsing
  import opened Nodes
  import opened Trees
  import opened ParseBuffers

  // ---------- one step of the parsing functions

  function After<T>(vs: seq<T>, r: Parsed<seq<T>>): Parsed<seq<T>> {
    if r.Failed? then Failed else Parsed(vs + r.value, r.rest)
  }

  lemma AfterTwice<T>(a: seq<T>, v: T, r: Parsed<seq<T>>)
    ensures After(a, After([v], r)) == After(a + [v], r)
  {
    if r.Parsed? { assert a + ([v] + r.value) == (a + [v]) + r.value; }
  }

  lemma AfterNothing<T>(r: Parsed<seq<T>>)
    ensures After([], r) == r
  {
    if r.Parsed? { assert [] + r.value == r.value; }
  }

  lemma ItemsStep(t: string, depth: nat)
    ensures var r := ParseValue(t, depth);
      ParseItems(t, depth) ==
      if r.Failed? then Failed
      else
        var next := SkipWhitespace(r.rest);
        if next != "" && next[0] == ']' then Parsed([r.value], next[1..])
        else if next != "" && next[0] == ',' then After([r.value], ParseItems(SkipWhitespace(next[1..]), depth))
        else Failed
  {
    hide ParseValue, SkipWhitespace;
  }

  lemma MembersStep(t: string, depth: nat)
    ensures var r := ParseMember(t, depth);
      ParseMembers(t, depth) ==
      if r.Failed? then Failed
      else
        var next := SkipWhitespace(r.rest);
        if next != "" && next[0] == '}' then Parsed([r.value], next[1..])
        else if next != "" && next[0] == ',' then After([r.value], ParseMembers(SkipWhitespace(next[1..]), depth))
        else Failed
  {
    hide ParseMember, SkipWhitespace;
  }

  // ---------- the list under construction

  /** Finished trees, chained by their roots. */
  ghost predicate Built(head: Node?, current: Node?, ts: seq<Shape>)
    reads Below(ts), Reach(CellsBelow(ts)), Roots(ts)
  {
    && SeparateKids(ts) && HoldAll(CellsBelow(ts), true)
    && Links(Roots(ts)) && head == HeadOf(Roots(ts))
    && current == if ts == [] then null else ts[|ts| - 1].node
  }

  /** The same with a new node at the end whose value is still to be read. */
  ghost predicate Pending(head: Node?, n: Node, ts: seq<Shape>)
    reads Below(ts), Reach(CellsBelow(ts)), Roots(ts), n`next, n`prev
  {
    && SeparateKids(ts) && HoldAll(CellsBelow(ts), true) && n !in Below(ts)
    && Links(Roots(ts) + [n]) && head == HeadOf(Roots(ts) + [n])
  }

  lemma NothingBuilt()
    ensures Built(null, null, []) && Below([]) == {}
  {
    assert Roots([]) == [];
  }

  lemma {:induction false} Complete(head: Node?, n: Node, ts: seq<Shape>, u: Shape)
    requires Pending(head, n, ts) && u.node == n && Separate(u) && HoldAll(CellsOf(u), true) && NodesOf(u) !! Below(ts)
    ensures Built(head, n, ts + [u]) && Below(ts + [u]) == Below(ts) + NodesOf(u)
  {
    BelowOne(u);
    BelowAppend(ts, [u]);
    SeparateAppend(ts, u);
    assert Roots(ts + [u]) == Roots(ts) + [n];
  }

  /** A new item at the end of the list. */
  method StartItem(head: Node?, current: Node?, ghost ts: seq<Shape>) returns (head': Node, n: Node)
    requires Built(head, current, ts)
    modifies Below(ts)`next
    ensures fresh(n) && n.child == null && n.key == None && n.valuestring == "" && Pending(head', n, ts)
  {
    hide Below, CellsBelow, SeparateKids, HoldAll, Reach;
    assert allocated(CellsBelow(ts)) && allocated(Below(ts));
    RootsBelow(ts);
    assert forall c | c in CellsBelow(ts) :: Holds(c, true) by { HoldEach(CellsBelow(ts), true); }
    n := new Node();
    if head == null {
      head' := n;
    } else {
      assert current == Roots(ts)[|ts| - 1] && current in Roots(ts);
      current.next := n;
      n.prev := current;
      head' := head;
    }
    forall c | c in CellsBelow(ts) ensures Holds(c, true) {
      BelowRoots(ts, c);
      assert old(Holds(c, true));
      assert ts != [] ==> current !in c.roots;
      assert Links(c.roots) && Tailed(c.roots);
    }
    HeldEach(CellsBelow(ts), true);
    assert n !in Below(ts) && Links(Roots(ts) + [n]);
  }

  /** The item is a tree with the given value, on nodes of its own. */
  ghost predicate Reads(item: Node, t: Shape, v: Json)
    reads Reach(CellsOf(t)), item`key
  {
    && t.node == item && Separate(t) && HoldAll(CellsOf(t), true) && WellFormed(t)
    && ValueOf(t) == v && t.data.key == item.key
  }

  /** The values of the trees built so far. */
  ghost predicate HaveValues(ts: seq<Shape>, vs: seq<Json>) {
    |ts| == |vs| && forall i | 0 <= i < |ts| :: WellFormed(ts[i]) && ValueOf(ts[i]) == vs[i]
  }

  ghost predicate HaveMembers(ts: seq<Shape>, ms: seq<Member<Json>>) {
    |ts| == |ms| && forall i | 0 <= i < |ts| ::
      WellFormed(ts[i]) && ts[i].data.key == Some(ms[i].key) && ValueOf(ts[i]) == ms[i].value
  }

  lemma {:induction false} ArrayShape(item: Node, d: Data, ts: seq<Shape>, vs: seq<Json>)
    requires HaveValues(ts, vs) && d.kind.KArray?
    ensures WellFormed(Shape(item, d, ts)) && ValueOf(Shape(item, d, ts)) == Array(vs)
  {
    assert ItemsOf(ts) == vs;
  }

  lemma {:induction false} ObjectShape(item: Node, d: Data, ts: seq<Shape>, ms: seq<Member<Json>>)
    requires HaveMembers(ts, ms) && d.kind.KObject?
    ensures WellFormed(Shape(item, d, ts)) && ValueOf(Shape(item, d, ts)) == Object(ms)
  {
    assert MembersOf(ts) == ms;
  }

  /** The end of parse_array and parse_object: the list becomes the children of the item. */
  method CloseList(item: Node, kind: Kind, head: Node?, current: Node?, ghost ts: seq<Shape>) returns (ghost t: Shape)
    requires Built(head, current, ts) && item !in Below(ts)
    modifies item`kind, item`child, Below(ts)`prev
    ensures t == Shape(item, Data(kind, item.valuestring, item.number, item.key), ts)
    ensures Separate(t) && HoldAll(CellsOf(t), true) && NodesOf(t) == {item} + Below(ts)
  {
    hide Below, CellsBelow, SeparateKids, HoldAll, Reach;
    assert allocated(CellsBelow(ts)) && allocated(Below(ts));
    RootsBelow(ts);
    SeparateRoots(ts);
    assert forall c | c in CellsBelow(ts) :: Holds(c, true) by { HoldEach(CellsBelow(ts), true); }
    assert head != null ==> head == Roots(ts)[0] && head in Roots(ts);
    if head != null {
      head.prev := current;
    }
    item.kind := kind;
    item.child := head;
    t := Shape(item, Data(kind, item.valuestring, item.number, item.key), ts);
    assert Holds(CellOf(t), true);
    forall c | c in CellsBelow(ts) ensures Holds(c, true) {
      BelowRoots(ts, c);
      assert old(Holds(c, true));
      assert head != null ==> head !in c.roots;
      assert Links(c.roots) && Tailed(c.roots);
    }
    HeldEach(CellsOf(t), true);
  }

  // ---------- the parser

  /** Where the loop of parse_array stands: the values read, and the text that is left. */
  ghost predicate ItemsLeft(first: string, depth: nat, vs: seq<Json>, rest: string, more: bool) {
    if more then rest != "" && ParseItems(first, depth) == After(vs, ParseItems(SkipWhitespace(rest[1..]), depth))
    else ParseItems(first, depth) == if rest != "" && rest[0] == ']' then Parsed(vs, rest[1..]) else Failed
  }

  lemma ItemsStart(rest: string, depth: nat)
    requires rest != ""
    ensures ItemsLeft(SkipWhitespace(rest[1..]), depth, [], rest, true) && HaveValues([], [])
  {
    AfterNothing(ParseItems(SkipWhitespace(rest[1..]), depth));
  }

  lemma ItemsNext(first: string, depth: nat, vs: seq<Json>, rest: string)
    requires ItemsLeft(first, depth, vs, rest, true)
    ensures rest != ""
    ensures var r := ParseValue(SkipWhitespace(rest[1..]), depth);
      if r.Failed? then ParseItems(first, depth).Failed?
      else
        var next := SkipWhitespace(r.rest);
        ItemsLeft(first, depth, vs + [r.value], next, next != "" && next[0] == ',')
  {
    hide ParseValue, ParseItems, SkipWhitespace;
    var t := SkipWhitespace(rest[1..]);
    ItemsStep(t, depth);
    var r := ParseValue(t, depth);
    if r.Parsed? {
      var next := SkipWhitespace(r.rest);
      if next != "" { AfterTwice(vs, r.value, ParseItems(SkipWhitespace(next[1..]), depth)); }
    }
  }

  lemma ItemsEnd(first: string, depth: nat, vs: seq<Json>, rest: string)
    requires ItemsLeft(first, depth, vs, rest, false)
    ensures ParseItems(first, depth) == if rest != "" && rest[0] == ']' then Parsed(vs, rest[1..]) else Failed
  {
  }

  lemma {:induction false} MoreValues(ts: seq<Shape>, vs: seq<Json>, u: Shape, v: Json)
    requires HaveValues(ts, vs) && WellFormed(u) && ValueOf(u) == v
    ensures HaveValues(ts + [u], vs + [v])
  {
    hide WellFormed, ValueOf;
  }

  lemma PendingReach(head: Node?, n: Node, ts: seq<Shape>)
    requires Pending(head, n, ts)
    ensures n !in Below(ts) && n !in Reach(CellsBelow(ts)) && n !in Roots(ts)
  {
    RootsBelow(ts);
    if c :| c in CellsBelow(ts) && (c.node == n || n in c.roots) {
      CellInsideKids(ts, c);
    }
  }

  lemma {:induction false} TreeRead(n: Node, u: Shape, v: Json)
    requires Reads(n, u, v)
    ensures u.node == n && Separate(u) && HoldAll(CellsOf(u), true) && WellFormed(u) && ValueOf(u) == v && u.data.key == n.key
    ensures NodesOf(u) == {n} + Below(u.kids)
  {
  }

  /** From the character before an element on: the element and the white space around it. */
  method ElementInto(n: Node, p: ParseBuffer) returns (ok: bool, ghost u: Shape)
    requires p.Valid() && p.offset < |p.content| && n.child == null
    modifies p`offset, p`depth, n`kind, n`valuestring, n`number, n`child
    ensures p.Valid() && old(p.offset) < p.offset
    ensures var r := ParseValue(SkipWhitespace(old(p.Rest())[1..]), old(p.depth));
      && (ok <==> r.Parsed?)
      && (ok ==> p.depth == old(p.depth) && p.Rest() == SkipWhitespace(r.rest)
                 && Reads(n, u, r.value) && fresh(Below(u.kids)))
    decreases |p.content| - p.offset, 0
  {
    hide Reads, ParseValue, SkipWhitespace, NodesOf, CellsOf, Reach, IsSuffix, Below;
    p.Skip(1);
    p.SkipBlanks();
    ok, u := ParseValueInto(n, p);
    if ok {
      assert fresh(Below(u.kids));
      assert allocated(Reach(CellsOf(u)));
      p.SkipBlanks();
    }
  }

  /** One turn of the loop of parse_array. */
  method ItemInto(p: ParseBuffer, head: Node?, current: Node?, ghost ts: seq<Shape>)
    returns (ok: bool, head': Node, n: Node, ghost u: Shape)
    requires p.Valid() && p.offset < |p.content| && Built(head, current, ts)
    modifies p`offset, p`depth, Below(ts)`next
    ensures p.Valid() && old(p.offset) < p.offset
    ensures var r := ParseValue(SkipWhitespace(old(p.Rest())[1..]), old(p.depth));
      && (ok <==> r.Parsed?)
      && (ok ==> p.depth == old(p.depth) && p.Rest() == SkipWhitespace(r.rest) && WellFormed(u) && ValueOf(u) == r.value)
    ensures ok ==> Built(head', n, ts + [u]) && Below(ts + [u]) == Below(ts) + NodesOf(u) && fresh(NodesOf(u))
    decreases |p.content| - p.offset, 1
  {
    hide Reads, ParseValue, SkipWhitespace, NodesOf, CellsOf, Reach, Below, Built, Pending, IsSuffix;
    head', n := StartItem(head, current, ts);
    assert allocated(Below(ts)) && allocated(Reach(CellsBelow(ts))) && allocated(Roots(ts));
    PendingReach(head', n, ts);
    ok, u := ElementInto(n, p);
    if ok {
      assert fresh(Below(u.kids)) && fresh(n);
      assert Pending(head', n, ts);
      TreeRead(n, u, ParseValue(SkipWhitespace(old(p.Rest())[1..]), old(p.depth)).value);
      Complete(head', n, ts, u);
    }
  }

  /** The loop of parse_array. */
  method ItemsInto(p: ParseBuffer) returns (ok: bool, head: Node?, current: Node?, ghost ts: seq<Shape>)
    requires p.Valid() && p.offset < |p.content|
    modifies p`offset, p`depth
    ensures p.Valid() && old(p.offset) < p.offset
    ensures var r := ParseItems(SkipWhitespace(old(p.Rest())[1..]), old(p.depth));
      && (ok <==> r.Parsed?)
      && (ok ==> p.depth == old(p.depth) && p.Rest() != "" && p.Rest()[1..] == r.rest
                 && Built(head, current, ts) && fresh(Below(ts)) && HaveValues(ts, r.value))
    decreases |p.content| - p.offset, 2
  {
    hide ParseValue, ParseItems, SkipWhitespace, NodesOf, CellsOf, Reach, Below, Built, HaveValues, ItemsLeft, IsSuffix;
    ghost var first := SkipWhitespace(p.Rest()[1..]);
    ghost var vs: seq<Json> := [];
    head, current, ts := null, null, [];
    NothingBuilt();
    ItemsStart(p.Rest(), p.depth);
    var more := true;
    while more
      invariant p.Valid() && old(p.offset) <= p.offset && p.depth == old(p.depth)
      invariant more || old(p.offset) < p.offset
      invariant Built(head, current, ts) && fresh(Below(ts)) && HaveValues(ts, vs)
      invariant ItemsLeft(first, p.depth, vs, p.Rest(), more)
      decreases |p.content| - p.offset, more
    {
      ghost var u;
      ItemsNext(first, p.depth, vs, p.Rest());
      ghost var r := ParseValue(SkipWhitespace(p.Rest()[1..]), p.depth);
      ok, head, current, u := ItemInto(p, head, current, ts);
      if !ok {
        return;
      }
      MoreValues(ts, vs, u, r.value);
      ts, vs := ts + [u], vs + [r.value];
      more := p.Sees(',');
    }
    ItemsEnd(first, p.depth, vs, p.Rest());
    ok := p.Sees(']');
  }

  lemma {:induction false} SkipTwice(t: string)
    ensures SkipWhitespace(SkipWhitespace(t)) == SkipWhitespace(t)
  {
    if |t| > 1 && t[0] <= ' ' { SkipTwice(t[1..]); }
  }

  /** Reads as ParseArray says; the characters behind the bracket are read from `first` on. */
  lemma ArrayStart(t: string, depth: nat, first: string)
    requires t != "" && t[0] == '[' && first == SkipWhitespace(t[1..]) && first != ""
    ensures ParseArray(t, depth) ==
      if depth >= NESTING_LIMIT then Failed
      else if first[0] == ']' then Parsed(Array([]), first[1..])
      else
        match ParseItems(SkipWhitespace(first), depth + 1)
        case Failed => Failed
        case Parsed(items, rest) => Parsed(Array(items), rest)
  {
    SkipTwice(t[1..]);
    hide SkipWhitespace, ParseItems, IsSuffix;
  }

  lemma TooDeep(t: string, depth: nat)
    requires t != ""
    ensures depth >= NESTING_LIMIT && t[0] == '[' ==> ParseArray(t, depth).Failed?
    ensures depth >= NESTING_LIMIT && t[0] == '{' ==> ParseObject(t, depth).Failed?
  {
    hide SkipWhitespace, IsSuffix;
  }

  /** The text between the brackets of an array; on failure the depth stays raised. */
  method ArrayList(p: ParseBuffer)
    returns (ok: bool, head: Node?, current: Node?, ghost ts: seq<Shape>, ghost vs: seq<Json>)
    requires p.Valid() && p.Sees('[')
    modifies p`offset, p`depth
    ensures p.Valid() && old(p.offset) <= p.offset
    ensures var r := ParseArray(old(p.Rest()), old(p.depth));
      && (ok <==> r.Parsed?)
      && (ok ==> p.depth == old(p.depth) && p.Rest() != "" && r == Parsed(Array(vs), p.Rest()[1..]))
    ensures ok ==> Built(head, current, ts) && fresh(Below(ts)) && HaveValues(ts, vs)
    decreases |p.content| - p.offset, 3
  {
    hide ParseItems, ParseArray, SkipWhitespace, Reach, Below, Built, HaveValues, IsSuffix;
    ok, head, current, ts, vs := false, null, null, [], [];
    TooDeep(p.Rest(), p.depth);
    if p.depth >= NESTING_LIMIT {
      return;
    }
    p.Enter();
    p.Skip(1);
    p.SkipBlanks();
    ghost var first := p.Rest();
    ArrayStart(old(p.Rest()), old(p.depth), first);
    NothingBuilt();
    NoValues();
    if !p.Sees(']') {
      p.offset := p.offset - 1;
      assert p.Rest()[1..] == first;
      ok, head, current, ts := ItemsInto(p);
      if !ok {
        return;
      }
      vs := ParseItems(SkipWhitespace(first), p.depth).value;
    }
    assert allocated(Below(ts)) && allocated(Reach(CellsBelow(ts))) && allocated(Roots(ts));
    p.Leave();
    ok := true;
    assert Built(head, current, ts);
  }

  /** parse_array */
  method ParseArrayInto(item: Node, p: ParseBuffer) returns (ok: bool, ghost t: Shape)
    requires p.Valid() && item.child == null && p.Sees('[')
    modifies p`offset, p`depth, item`kind, item`child
    ensures p.Valid() && old(p.offset) <= p.offset
    ensures var r := ParseArray(old(p.Rest()), old(p.depth));
      && (ok <==> r.Parsed?)
      && (ok ==> p.depth == old(p.depth) && p.Rest() == r.rest && Reads(item, t, r.value) && fresh(Below(t.kids)))
    decreases |p.content| - p.offset, 4
  {
    hide Reads, ParseArray, Reach, Below, Built, HaveValues, IsSuffix;
    t := Shape(item, Data(KArray, "", 0, None), []);
    var head, current;
    ghost var ts, vs;
    ok, head, current, ts, vs := ArrayList(p);
    if ok {
      assert allocated(Below(ts)) && item !in Below(ts);
      t := CloseList(item, KArray, head, current, ts);
      FinishArray(item, t, ts, vs);
      assert allocated(Reach(CellsOf(t)));
      p.Skip(1);
      assert Reads(item, t, Array(vs));
    }
  }

  lemma NoValues()
    ensures HaveValues([], []) && HaveMembers([], [])
  {
  }

  lemma {:induction false} FinishArray(item: Node, t: Shape, ts: seq<Shape>, vs: seq<Json>)
    requires t.node == item && t.kids == ts && t.data.kind.KArray? && t.data.key == item.key && HaveValues(ts, vs)
    requires Separate(t) && HoldAll(CellsOf(t), true)
    ensures Reads(item, t, Array(vs))
  {
    ArrayShape(item, t.data, ts, vs);
  }

  // ---------- objects

  ghost predicate MembersLeft(first: string, depth: nat, ms: seq<Member<Json>>, rest: string, more: bool) {
    if more then rest != "" && ParseMembers(first, depth) == After(ms, ParseMembers(SkipWhitespace(rest[1..]), depth))
    else ParseMembers(first, depth) == if rest != "" && rest[0] == '}' then Parsed(ms, rest[1..]) else Failed
  }

  lemma MembersStart(rest: string, depth: nat)
    requires rest != ""
    ensures MembersLeft(SkipWhitespace(rest[1..]), depth, [], rest, true) && HaveMembers([], [])
  {
    AfterNothing(ParseMembers(SkipWhitespace(rest[1..]), depth));
  }

  lemma {:induction false} MembersNext(first: string, depth: nat, ms: seq<Member<Json>>, rest: string)
    requires MembersLeft(first, depth, ms, rest, true)
    ensures rest != ""
    ensures var r := ParseMember(SkipWhitespace(rest[1..]), depth);
      if r.Failed? then ParseMembers(first, depth).Failed?
      else
        var next := SkipWhitespace(r.rest);
        MembersLeft(first, depth, ms + [r.value], next, next != "" && next[0] == ',')
  {
    hide ParseMember, ParseMembers, SkipWhitespace;
    var t := SkipWhitespace(rest[1..]);
    MembersStep(t, depth);
    var r := ParseMember(t, depth);
    if r.Parsed? {
      var next := SkipWhitespace(r.rest);
      if next != "" { AfterTwice(ms, r.value, ParseMembers(SkipWhitespace(next[1..]), depth)); }
    }
  }

  lemma {:induction false} MembersEnd(first: string, depth: nat, ms: seq<Member<Json>>, rest: string)
    requires MembersLeft(first, depth, ms, rest, false)
    ensures ParseMembers(first, depth) == if rest != "" && rest[0] == '}' then Parsed(ms, rest[1..]) else Failed
  {
  }

  lemma {:induction false} MoreMembers(ts: seq<Shape>, ms: seq<Member<Json>>, u: Shape, m: Member<Json>)
    requires HaveMembers(ts, ms) && WellFormed(u) && u.data.key == Some(m.key) && ValueOf(u) == m.value
    ensures HaveMembers(ts + [u], ms + [m])
  {
    hide WellFormed, ValueOf;
  }

  /** What ParseMember does from the key on. */
  lemma MemberStep(t: string, depth: nat)
    ensures var k := ParseString(t);
      ParseMember(t, depth) ==
      if k.Failed? then Failed
      else
        var colon := SkipWhitespace(k.rest);
        if colon == "" || colon[0] != ':' then Failed
        else
          match ParseValue(SkipWhitespace(colon[1..]), depth)
          case Failed => Failed
          case Parsed(v, end) => Parsed(Member(k.value, v), end)
  {
    hide ParseString, ParseValue, SkipWhitespace, IsSuffix;
  }

  /** The key of a member, moved from the value string to its place. */
  method KeyInto(n: Node, p: ParseBuffer) returns (ok: bool)
    requires p.Valid() && p.offset < |p.content|
    modifies p`offset, n`kind, n`valuestring, n`key
    ensures p.Valid() && old(p.offset) <= p.offset
    ensures var r := ParseString(old(p.Rest()));
      && (ok <==> r.Parsed?)
      && (ok ==> p.Rest() == SkipWhitespace(r.rest) && n.key == Some(r.value) && n.valuestring == "")
  {
    hide ParseString, SkipWhitespace;
    ok := ParseStringInto(n, p);
    if !ok {
      return;
    }
    p.SkipBlanks();
    n.key := Some(n.valuestring);
    n.valuestring := "";
  }

  /** One turn of the loop of parse_object, up to the value and the white space behind it. */
  method MemberInto(n: Node, p: ParseBuffer) returns (ok: bool, ghost u: Shape)
    requires p.Valid() && p.offset + 1 < |p.content| && n.child == null
    modifies p`offset, p`depth, n`kind, n`valuestring, n`number, n`child, n`key
    ensures p.Valid() && old(p.offset) < p.offset
    ensures var r := ParseMember(SkipWhitespace(old(p.Rest())[1..]), old(p.depth));
      && (ok <==> r.Parsed?)
      && (ok ==> p.depth == old(p.depth) && p.Rest() == SkipWhitespace(r.rest)
                 && Reads(n, u, r.value.value) && n.key == Some(r.value.key) && fresh(Below(u.kids)))
    decreases |p.content| - p.offset, 0
  {
    hide Reads, ParseValue, ParseMember, ParseString, SkipWhitespace, NodesOf, CellsOf, Reach, IsSuffix, Below;
    u := Shape(n, Data(KNull, "", 0, None), []);
    p.Skip(1);
    p.SkipBlanks();
    MemberStep(p.Rest(), p.depth);
    ok := KeyInto(n, p);
    if !ok {
      return;
    }
    if !p.Sees(':') {
      return false, u;
    }
    p.Skip(1);
    p.SkipBlanks();
    ok, u := ParseValueInto(n, p);
    if ok {
      assert fresh(Below(u.kids));
      assert allocated(Reach(CellsOf(u)));
      p.SkipBlanks();
    }
  }

  method NewMemberInto(p: ParseBuffer, head: Node?, current: Node?, ghost ts: seq<Shape>)
    returns (ok: bool, head': Node, n: Node, ghost u: Shape)
    requires p.Valid() && p.offset + 1 < |p.content| && Built(head, current, ts)
    modifies p`offset, p`depth, Below(ts)`next
    ensures p.Valid() && old(p.offset) < p.offset
    ensures var r := ParseMember(SkipWhitespace(old(p.Rest())[1..]), old(p.depth));
      && (ok <==> r.Parsed?)
      && (ok ==> p.depth == old(p.depth) && p.Rest() == SkipWhitespace(r.rest)
                 && WellFormed(u) && u.data.key == Some(r.value.key) && ValueOf(u) == r.value.value)
    ensures ok ==> Built(head', n, ts + [u]) && Below(ts + [u]) == Below(ts) + NodesOf(u) && fresh(NodesOf(u))
    decreases |p.content| - p.offset, 1
  {
    hide Reads, ParseMember, SkipWhitespace, NodesOf, CellsOf, Reach, Below, Built, Pending, IsSuffix;
    head', n := StartItem(head, current, ts);
    assert allocated(Below(ts)) && allocated(Reach(CellsBelow(ts))) && allocated(Roots(ts));
    PendingReach(head', n, ts);
    ok, u := MemberInto(n, p);
    if ok {
      assert fresh(Below(u.kids)) && fresh(n);
      assert Pending(head', n, ts);
      TreeRead(n, u, ParseMember(SkipWhitespace(old(p.Rest())[1..]), old(p.depth)).value.value);
      Complete(head', n, ts, u);
    }
  }

  /** The loop of parse_object. */
  method MembersInto(p: ParseBuffer) returns (ok: bool, head: Node?, current: Node?, ghost ts: seq<Shape>)
    requires p.Valid() && p.offset + 1 < |p.content|
    modifies p`offset, p`depth
    ensures p.Valid() && old(p.offset) < p.offset
    ensures var r := ParseMembers(SkipWhitespace(old(p.Rest())[1..]), old(p.depth));
      && (ok <==> r.Parsed?)
      && (ok ==> p.depth == old(p.depth) && p.Rest() != "" && p.Rest()[1..] == r.rest
                 && Built(head, current, ts) && fresh(Below(ts)) && HaveMembers(ts, r.value))
    decreases |p.content| - p.offset, 2
  {
    hide ParseMember, ParseMembers, SkipWhitespace, NodesOf, CellsOf, Reach, Below, Built, HaveMembers, MembersLeft, IsSuffix;
    ghost var first := SkipWhitespace(p.Rest()[1..]);
    ghost var ms: seq<Member<Json>> := [];
    head, current, ts := null, null, [];
    NothingBuilt();
    MembersStart(p.Rest(), p.depth);
    var more := true;
    while more
      invariant p.Valid() && old(p.offset) <= p.offset && p.depth == old(p.depth)
      invariant if more then p.offset + 1 < |p.content| else old(p.offset) < p.offset
      invariant Built(head, current, ts) && fresh(Below(ts)) && HaveMembers(ts, ms)
      invariant MembersLeft(first, p.depth, ms, p.Rest(), more)
      decreases |p.content| - p.offset, more
    {
      ghost var u;
      MembersNext(first, p.depth, ms, p.Rest());
      ghost var r := ParseMember(SkipWhitespace(p.Rest()[1..]), p.depth);
      ok, head, current, u := NewMemberInto(p, head, current, ts);
      if !ok {
        return;
      }
      MoreMembers(ts, ms, u, r.value);
      ts, ms := ts + [u], ms + [r.value];
      more := p.Sees(',');
    }
    MembersEnd(first, p.depth, ms, p.Rest());
    ok := p.Sees('}');
  }

  lemma ObjectStart(t: string, depth: nat, first: string)
    requires t != "" && t[0] == '{' && first == SkipWhitespace(t[1..]) && first != ""
    ensures ParseObject(t, depth) ==
      if depth >= NESTING_LIMIT then Failed
      else if first[0] == '}' then Parsed(Object([]), first[1..])
      else
        match ParseMembers(SkipWhitespace(first), depth + 1)
        case Failed => Failed
        case Parsed(ms, rest) => Parsed(Object(ms), rest)
  {
    SkipTwice(t[1..]);
    hide SkipWhitespace, ParseMembers, IsSuffix;
  }

  lemma {:induction false} FinishObject(item: Node, t: Shape, ts: seq<Shape>, ms: seq<Member<Json>>)
    requires t.node == item && t.kids == ts && t.data.kind.KObject? && t.data.key == item.key && HaveMembers(ts, ms)
    requires Separate(t) && HoldAll(CellsOf(t), true)
    ensures Reads(item, t, Object(ms))
  {
    ObjectShape(item, t.data, ts, ms);
  }

  /** The text between the brackets of an object; on failure the depth stays raised. */
  method ObjectList(p: ParseBuffer)
    returns (ok: bool, head: Node?, current: Node?, ghost ts: seq<Shape>, ghost ms: seq<Member<Json>>)
    requires p.Valid() && p.Sees('{')
    modifies p`offset, p`depth
    ensures p.Valid() && old(p.offset) <= p.offset
    ensures var r := ParseObject(old(p.Rest()), old(p.depth));
      && (ok <==> r.Parsed?)
      && (ok ==> p.depth == old(p.depth) && p.Rest() != "" && r == Parsed(Object(ms), p.Rest()[1..]))
    ensures ok ==> Built(head, current, ts) && fresh(Below(ts)) && HaveMembers(ts, ms)
    decreases |p.content| - p.offset, 3
  {
    hide ParseMembers, ParseObject, SkipWhitespace, Reach, Below, Built, HaveMembers, IsSuffix;
    ok, head, current, ts, ms := false, null, null, [], [];
    TooDeep(p.Rest(), p.depth);
    if p.depth >= NESTING_LIMIT {
      return;
    }
    p.Enter();
    p.Skip(1);
    p.SkipBlanks();
    ghost var first := p.Rest();
    ObjectStart(old(p.Rest()), old(p.depth), first);
    NothingBuilt();
    NoValues();
    if !p.Sees('}') {
      p.offset := p.offset - 1;
      assert p.Rest()[1..] == first;
      ok, head, current, ts := MembersInto(p);
      if !ok {
        return;
      }
      ms := ParseMembers(SkipWhitespace(first), p.depth).value;
    }
    assert allocated(Below(ts)) && allocated(Reach(CellsBelow(ts))) && allocated(Roots(ts));
    p.Leave();
    ok := true;
    assert Built(head, current, ts);
  }

  /** parse_object */
  method ParseObjectInto(item: Node, p: ParseBuffer) returns (ok: bool, ghost t: Shape)
    requires p.Valid() && item.child == null && p.Sees('{')
    modifies p`offset, p`depth, item`kind, item`child
    ensures p.Valid() && old(p.offset) <= p.offset
    ensures var r := ParseObject(old(p.Rest()), old(p.depth));
      && (ok <==> r.Parsed?)
      && (ok ==> p.depth == old(p.depth) && p.Rest() == r.rest && Reads(item, t, r.value) && fresh(Below(t.kids)))
    decreases |p.content| - p.offset, 4
  {
    hide Reads, ParseObject, Reach, Below, Built, HaveMembers, IsSuffix;
    t := Shape(item, Data(KObject, "", 0, None), []);
    var head, current;
    ghost var ts, ms;
    ok, head, current, ts, ms := ObjectList(p);
    if ok {
      assert allocated(Below(ts)) && item !in Below(ts);
      t := CloseList(item, KObject, head, current, ts);
      FinishObject(item, t, ts, ms);
      assert allocated(Reach(CellsOf(t)));
      p.Skip(1);
      assert Reads(item, t, Object(ms));
    }
  }

  // ---------- any value

  predicate StartsScalar(t: string) {
    || StartsWith(t, "null") || StartsWith(t, "false") || StartsWith(t, "true")
    || (t != "" && (t[0] == '"' || t[0] == '-' || IsDigit(t[0])))
  }

  lemma NotScalar(t: string, depth: nat)
    requires !StartsScalar(t)
    ensures ParseValue(t, depth) ==
      if t != "" && t[0] == '[' then ParseArray(t, depth)
      else if t != "" && t[0] == '{' then ParseObject(t, depth)
      else Failed
  {
    hide ParseArray, ParseObject, IsSuffix, StartsWith, ParseNumber, ParseString;
  }

  /** The first cases of parse_value, which read no further values. */
  method ParseScalarInto(item: Node, p: ParseBuffer) returns (matched: bool, ok: bool, ghost t: Shape)
    requires p.Valid() && item.child == null
    modifies p`offset, item`kind, item`valuestring, item`number
    ensures p.Valid() && old(p.offset) <= p.offset
    ensures matched <==> StartsScalar(old(p.Rest()))
    ensures !matched ==> !ok && p.offset == old(p.offset)
    ensures var r := ParseValue(old(p.Rest()), p.depth);
      matched ==> (ok <==> r.Parsed?) && (ok ==> p.Rest() == r.rest && Reads(item, t, r.value) && t.kids == [])
  {
    hide Reads, ParseArray, ParseObject, ParseString, ParseNumber, IsSuffix;
    t := Shape(item, Data(KNull, "", 0, None), []);
    matched, ok := true, true;
    ghost var v := ParseValue(p.Rest(), p.depth);
    if p.SeesWord("null") {
      item.kind := KNull;
      p.Skip(4);
    } else if p.SeesWord("false") {
      item.kind := KFalse;
      p.Skip(5);
    } else if p.SeesWord("true") {
      item.kind := KTrue;
      p.Skip(4);
    } else if p.Sees('"') {
      ok := ParseStringInto(item, p);
    } else if p.Sees('-') || (p.offset < |p.content| && '0' <= p.content[p.offset] <= '9') {
      ok := ParseNumberInto(item, p);
    } else {
      matched, ok := false, false;
    }
    if ok {
      t := Shape(item, Data(item.kind, item.valuestring, item.number, item.key), []);
      LoneItem(item, t, v.value);
    }
  }

  /** parse_value: reads exactly what ParseValue reads, into a tree on new nodes, and restores the depth. */
  method ParseValueInto(item: Node, p: ParseBuffer) returns (ok: bool, ghost t: Shape)
    requires p.Valid() && item.child == null
    modifies p`offset, p`depth, item`kind, item`valuestring, item`number, item`child
    ensures p.Valid() && old(p.offset) <= p.offset
    ensures var r := ParseValue(old(p.Rest()), old(p.depth));
      && (ok <==> r.Parsed?)
      && (ok ==> p.depth == old(p.depth) && p.Rest() == r.rest && Reads(item, t, r.value) && fresh(Below(t.kids)))
    decreases |p.content| - p.offset, 5
  {
    hide Reads, ParseValue, ParseArray, ParseObject, IsSuffix, Reach, StartsScalar;
    var matched;
    matched, ok, t := ParseScalarInto(item, p);
    if matched {
      return;
    }
    NotScalar(p.Rest(), p.depth);
    if p.Sees('[') {
      ok, t := ParseArrayInto(item, p);
    } else if p.Sees('{') {
      ok, t := ParseObjectInto(item, p);
    }
  }

  lemma {:induction false} LoneItem(item: Node, t: Shape, v: Json)
    requires t == Shape(item, Data(item.kind, item.valuestring, item.number, item.key), []) && item.child == null
    requires match item.kind
      case KNull => v == Null
      case KFalse => v == False
      case KTrue => v == True
      case KNumber => v == Number(item.number)
      case KString => v == String(item.valuestring)
      case _ => false
    ensures Reads(item, t, v) && Below(t.kids) == {}
  {
    assert Roots([]) == [];
  }

  // ---------- entry point

  /** skip_utf8_bom */
  method SkipMark(p: ParseBuffer)
    requires p.Valid() && p.offset == 0
    modifies p`offset
    ensures p.Valid() && p.Rest() == SkipByteOrderMark(old(p.Rest())) && p.offset < |p.content|
  {
    if p.offset + 4 < |p.content| && p.content[0] == 0xEF as char && p.content[1] == 0xBB as char && p.content[2] == 0xBF as char {
      p.Skip(3);
    }
  }

  /**
   cJSON_ParseWithOpts: a new item exactly for the texts that Parse accepts, whose tree has that value and whose
   lists all name their tails.
   */
  method ParseText(text: string, requireNul: bool) returns (item: Node?, ghost t: Shape)
    ensures item != null <==> Parse(text, requireNul).Some?
    ensures item != null ==> Reads(item, t, Parse(text, requireNul).value) && fresh(NodesOf(t))
    ensures item != null ==> item.next == null && item.prev == null && item.key == None
  {
    hide Reads, ParseValue, IsSuffix, Reach, SkipWhitespace, SkipByteOrderMark, Below;
    var p := new ParseBuffer(text);
    var n := new Node();
    SkipMark(p);
    p.SkipBlanks();
    ghost var r := ParseValue(p.Rest(), 0);
    var ok;
    ok, t := ParseValueInto(n, p);
    if !ok {
      return null, t;
    }
    TreeRead(n, t, r.value);
    if requireNul {
      assert allocated(Reach(CellsOf(t)));
      p.SkipBlanks();
      assert Reads(n, t, r.value);
      if !p.Sees(NUL) {
        return null, t;
      }
    }
    item := n;
  }
}
