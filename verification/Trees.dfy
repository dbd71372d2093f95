/** cJSON items linked into trees: which nodes a tree has, what each of them holds, and the value it stands for. */
module Trees {
  import opened CStrings
  import opened JsonTree
  import opened Nodes

  /** The fields of an item other than its links. */
  datatype Data = Data(kind: Kind, text: string, number: int, key: Option<string>)

  /** A tree of nodes as a value: what every node holds, and which nodes are its children. */
  datatype Shape = Shape(node: Node, data: Data, kids: seq<Shape>)

  /** One node with its data and its list of children. */
  datatype Cell = Cell(node: Node, data: Data, roots: seq<Node>)

  function Roots(kids: seq<Shape>): (ns: seq<Node>)
    ensures |ns| == |kids| && forall i | 0 <= i < |kids| :: ns[i] == kids[i].node
  {
    seq(|kids|, i requires 0 <= i < |kids| => kids[i].node)
  }

  function CellOf(s: Shape): Cell {
    Cell(s.node, s.data, Roots(s.kids))
  }

  ghost function Below(kids: seq<Shape>): set<Node> {
    if kids == [] then {} else NodesOf(kids[0]) + Below(kids[1..])
  }

  /** All nodes of the tree. */
  ghost function NodesOf(s: Shape): set<Node> {
    {s.node} + Below(s.kids)
  }

  ghost function CellsBelow(kids: seq<Shape>): set<Cell> {
    if kids == [] then {} else CellsOf(kids[0]) + CellsBelow(kids[1..])
  }

  ghost function CellsOf(s: Shape): set<Cell> {
    {CellOf(s)} + CellsBelow(s.kids)
  }

  /** No node occurs twice. */
  ghost predicate SeparateKids(kids: seq<Shape>) {
    kids == [] || (Separate(kids[0]) && SeparateKids(kids[1..]) && NodesOf(kids[0]) !! Below(kids[1..]))
  }

  ghost predicate Separate(s: Shape) {
    s.node !in Below(s.kids) && SeparateKids(s.kids)
  }

  ghost predicate HasData(n: Node, d: Data)
    reads n`kind, n`valuestring, n`number, n`key
  {
    n.kind == d.kind && n.valuestring == d.text && n.number == d.number && n.key == d.key
  }

  /** The node holds its data and its children are linked; if `tailed`, the first child names the last. */
  ghost predicate Holds(c: Cell, tailed: bool)
    reads c.node`kind, c.node`valuestring, c.node`number, c.node`key, c.node`child, c.roots`next, c.roots`prev
  {
    HasData(c.node, c.data) && Children(c.node, c.roots) && (tailed ==> Tailed(c.roots))
  }

  ghost predicate HoldAll(cells: set<Cell>, tailed: bool)
    reads Reach(cells)
  {
    forall c | c in cells :: Holds(c, tailed)
  }

  ghost function Reach(cells: set<Cell>): (r: set<Node>)
    ensures forall c | c in cells :: c.node in r && forall n | n in c.roots :: n in r
  {
    (set c | c in cells :: c.node) + set c, i | c in cells && 0 <= i < |c.roots| :: c.roots[i]
  }

  /** A tree on nodes that are all different; if `tailed`, every list names its tail. */
  ghost predicate Linked(s: Shape, tailed: bool)
    reads Reach(CellsOf(s))
  {
    Separate(s) && HoldAll(CellsOf(s), tailed)
  }

  // ---------- values

  function ItemsOf(kids: seq<Shape>): (r: seq<Json>)
    ensures |r| == |kids| && forall i | 0 <= i < |kids| :: r[i] == ValueOf(kids[i])
    decreases kids, 0
  {
    if kids == [] then [] else [ValueOf(kids[0])] + ItemsOf(kids[1..])
  }

  function KeyOf(s: Shape): string {
    if s.data.key.Some? then s.data.key.value else ""
  }

  function MembersOf(kids: seq<Shape>): (r: seq<Member<Json>>)
    ensures |r| == |kids| && forall i | 0 <= i < |kids| :: r[i] == Member(KeyOf(kids[i]), ValueOf(kids[i]))
    decreases kids, 0
  {
    if kids == [] then [] else [Member(KeyOf(kids[0]), ValueOf(kids[0]))] + MembersOf(kids[1..])
  }

  /** The value that a tree of nodes stands for. */
  function ValueOf(s: Shape): Json
    decreases s, 1
  {
    match s.data.kind
    case KFalse => False
    case KTrue => True
    case KNumber => Number(s.data.number)
    case KString => String(s.data.text)
    case KArray => Array(ItemsOf(s.kids))
    case KObject => Object(MembersOf(s.kids))
    case KNull => Null
    case KInvalid => Null
  }

  /** Only arrays and objects have children, the children of objects have keys, and no item is invalid. */
  predicate WellFormed(s: Shape) {
    && !s.data.kind.KInvalid?
    && (s.kids != [] ==> s.data.kind.KArray? || s.data.kind.KObject?)
    && forall i | 0 <= i < |s.kids| :: WellFormed(s.kids[i]) && (s.data.kind.KObject? ==> s.kids[i].data.key.Some?)
  }

  // ---------- which nodes the cells of a tree mention

  lemma {:induction false} BelowAppend(a: seq<Shape>, b: seq<Shape>)
    ensures Below(a + b) == Below(a) + Below(b) && CellsBelow(a + b) == CellsBelow(a) + CellsBelow(b)
  {
    if a == [] {
      assert a + b == b;
    } else {
      assert (a + b)[1..] == a[1..] + b;
      BelowAppend(a[1..], b);
    }
  }

  lemma BelowOne(s: Shape)
    ensures Below([s]) == NodesOf(s) && CellsBelow([s]) == CellsOf(s)
  {
    assert [s][1..] == [];
  }

  lemma {:induction false} KidIn(kids: seq<Shape>, i: nat)
    requires i < |kids|
    ensures NodesOf(kids[i]) <= Below(kids) && CellsOf(kids[i]) <= CellsBelow(kids)
  {
    if i > 0 {
      KidIn(kids[1..], i - 1);
    }
  }

  lemma RootsBelow(kids: seq<Shape>)
    ensures forall n | n in Roots(kids) :: n in Below(kids)
  {
    forall i | 0 <= i < |kids| ensures kids[i].node in Below(kids) { KidIn(kids, i); }
  }

  /** A cell mentions as children only nodes strictly below the roots. */
  lemma {:induction false} CellInside(s: Shape, c: Cell)
    requires c in CellsOf(s)
    ensures c.node in NodesOf(s) && forall n | n in c.roots :: n in Below(s.kids)
    decreases s, 1
  {
    RootsBelow(s.kids);
    if c != CellOf(s) {
      CellInsideKids(s.kids, c);
    }
  }

  lemma {:induction false} CellInsideKids(kids: seq<Shape>, c: Cell)
    requires c in CellsBelow(kids)
    ensures c.node in Below(kids) && forall n | n in c.roots :: n in Below(kids)
    decreases kids, 0
  {
    if c in CellsOf(kids[0]) {
      CellInside(kids[0], c);
    } else {
      CellInsideKids(kids[1..], c);
    }
  }

  /** In separate trees no root is a child of any cell. */
  lemma {:induction false} RootsAreNoChildren(kids: seq<Shape>, c: Cell)
    requires SeparateKids(kids) && c in CellsBelow(kids)
    ensures forall n | n in c.roots :: n !in Roots(kids)
  {
    RootsBelow(kids[1..]);
    if c in CellsOf(kids[0]) {
      CellInside(kids[0], c);
    } else {
      CellInsideKids(kids[1..], c);
      RootsAreNoChildren(kids[1..], c);
    }
    assert forall i | 0 <= i < |kids| :: Roots(kids)[i] == if i == 0 then kids[0].node else Roots(kids[1..])[i - 1];
  }

  lemma {:induction false} SeparateAppend(kids: seq<Shape>, s: Shape)
    requires SeparateKids(kids) && Separate(s) && Below(kids) !! NodesOf(s)
    ensures SeparateKids(kids + [s])
  {
    BelowOne(s);
    if kids == [] {
      assert kids + [s] == [s] && [s][1..] == [];
    } else {
      assert (kids + [s])[1..] == kids[1..] + [s];
      SeparateAppend(kids[1..], s);
      BelowAppend(kids[1..], [s]);
    }
  }

  lemma {:induction false} SeparateRoots(kids: seq<Shape>)
    requires SeparateKids(kids)
    ensures Distinct(Roots(kids))
  {
    if kids != [] {
      SeparateRoots(kids[1..]);
      RootsBelow(kids[1..]);
      var r, t := Roots(kids), Roots(kids[1..]);
      assert forall i | 0 < i < |kids| :: r[i] == t[i - 1];
      assert forall i | 0 < i < |kids| :: r[i] in Below(kids[1..]);
    }
  }

  /** A cell below separate roots: its node is one of theirs, and its children are none of the roots. */
  lemma BelowRoots(kids: seq<Shape>, c: Cell)
    requires SeparateKids(kids) && c in CellsBelow(kids)
    ensures c.node in Below(kids) && forall n | n in c.roots :: n in Below(kids) && n !in Roots(kids)
  {
    CellInsideKids(kids, c);
    RootsAreNoChildren(kids, c);
  }

  lemma OwnCell(s: Shape, tailed: bool)
    requires HoldAll(CellsOf(s), tailed)
    ensures Holds(CellOf(s), tailed)
  {
    assert CellOf(s) in CellsOf(s);
  }

  lemma KidHolds(s: Shape, tailed: bool, i: nat)
    requires HoldAll(CellsOf(s), tailed) && i < |s.kids|
    ensures HoldAll(CellsOf(s.kids[i]), tailed)
  {
    KidIn(s.kids, i);
  }

  /** What a walk over the children finds at child i. */
  lemma KidFacts(s: Shape, tailed: bool, i: nat)
    requires HoldAll(CellsOf(s), tailed) && i < |s.kids|
    ensures HoldAll(CellsOf(s.kids[i]), tailed) && HasData(s.kids[i].node, s.kids[i].data)
    ensures s.kids[i].node.next == if i + 1 < |s.kids| then s.kids[i + 1].node else null
  {
    hide HoldAll, CellsOf;
    KidHolds(s, tailed, i);
    OwnCell(s, tailed);
    OwnCell(s.kids[i], tailed);
    assert Roots(s.kids)[i] == s.kids[i].node;
  }

  lemma HoldEach(cells: set<Cell>, tailed: bool)
    requires HoldAll(cells, tailed)
    ensures forall c | c in cells :: Holds(c, tailed)
  {
  }

  lemma HeldEach(cells: set<Cell>, tailed: bool)
    requires forall c | c in cells :: Holds(c, tailed)
    ensures HoldAll(cells, tailed)
  {
  }

  lemma ObjectValue(s: Shape)
    requires s.data.kind.KObject?
    ensures ValueOf(s) == Object(MembersOf(s.kids))
  {
  }

  lemma HoldUnion(a: set<Cell>, b: set<Cell>, all: set<Cell>, tailed: bool)
    requires HoldAll(a, tailed) && HoldAll(b, tailed) && all == a + b
    ensures HoldAll(all, tailed)
  {
  }
}
