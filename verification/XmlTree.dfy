/** The linked form of an XML tree: children chained by next and prev under their parent's child
    pointer, each pointing back at its parent. */
module XmlTree {
  import opened CText
  import opened XmlText

  /** What a node holds besides its links. */
  datatype Data = Data(name: Option<string>, text: Option<string>, prefix: Option<string>, uri: Option<string>,
    attr: Option<string>)

  class Node {
    var name: Option<string>
    var text: Option<string>
    var prefix: Option<string>
    var uri: Option<string>
    var attr: Option<string>
    var parent: Node?
    var child: Node?
    var prev: Node?
    var next: Node?

    constructor ()
      ensures DataOf(this) == Data(None, None, None, None, None)
      ensures parent == null && child == null && prev == null && next == null
    {
      name, text, prefix, uri, attr := None, None, None, None, None;
      parent, child, prev, next := null, null, null, null;
    }
  }

  function DataOf(x: Node): Data
    reads x
  {
    Data(x.name, x.text, x.prefix, x.uri, x.attr)
  }

  predicate IsElement(d: Data) { d.name.Some? && d.text.None? }

  predicate IsText(d: Data) { d.name.None? && d.text.Some? }

  datatype Cell = Cell(parent: Node?, child: Node?, prev: Node?, next: Node?, data: Data)

  type View = map<Node, Cell>

  function CellOf(x: Node): Cell
    reads x
  {
    Cell(x.parent, x.child, x.prev, x.next, DataOf(x))
  }

  ghost function Memory(s: set<Node>): View
    reads s
  {
    map x | x in s :: CellOf(x)
  }

  /** A tree as it lies in memory. */
  datatype Shape = Shape(node: Node, data: Data, kids: seq<Shape>)

  function Nodes(sh: Shape): set<Node> {
    {sh.node} + NodesOf(sh.kids)
  }

  function NodesOf(kids: seq<Shape>): set<Node> {
    set i, x | 0 <= i < |kids| && x in Nodes(kids[i]) :: x
  }

  function NodeAt(kids: seq<Shape>, i: int): Node? {
    if 0 <= i < |kids| then kids[i].node else null
  }

  ghost predicate Chained(v: View, up: Node, kids: seq<Shape>, i: nat)
    requires i < |kids|
  {
    var x := kids[i].node;
    x in v && v[x].next == NodeAt(kids, i + 1) && v[x].prev == NodeAt(kids, i - 1) && v[x].parent == up
  }

  /** The tree is laid out as `sh` says; the root's own place is left open. */
  ghost predicate Inside(v: View, sh: Shape) {
    && sh.node in v && v[sh.node].data == sh.data && v[sh.node].child == NodeAt(sh.kids, 0)
    && forall i: nat :: i < |sh.kids| ==> Chained(v, sh.node, sh.kids, i) && Inside(v, sh.kids[i])
  }

  ghost predicate Laid(sh: Shape)
    reads Nodes(sh)
  {
    Inside(Memory(Nodes(sh)), sh)
  }

  ghost predicate Apart(sh: Shape) {
    sh.node !in NodesOf(sh.kids) && AllApart(sh.kids)
  }

  ghost predicate AllApart(kids: seq<Shape>) {
    && (forall i: nat :: i < |kids| ==> Apart(kids[i]))
    && (forall i: nat, j: nat :: i < |kids| && j < |kids| && i != j ==> Nodes(kids[i]) !! Nodes(kids[j]))
  }

  // ---------------------------------------------------------------- reading the layout

  lemma KidNodes(sh: Shape, i: nat)
    requires i < |sh.kids|
    ensures Nodes(sh.kids[i]) <= NodesOf(sh.kids) <= Nodes(sh) && sh.kids[i].node in Nodes(sh.kids[i])
  {}

  lemma OwnNode(sh: Shape)
    ensures sh.node in Nodes(sh)
  {}

  lemma AllAllocated(sh: Shape)
    ensures allocated(Nodes(sh))
  {}

  lemma KidIn(v: View, sh: Shape, i: nat)
    requires Inside(v, sh) && i < |sh.kids|
    ensures Chained(v, sh.node, sh.kids, i) && Inside(v, sh.kids[i]) && sh.kids[i].node in v
  {}

  lemma RootIn(v: View, sh: Shape)
    requires Inside(v, sh)
    ensures sh.node in v && v[sh.node].child == NodeAt(sh.kids, 0) && v[sh.node].data == sh.data
  {}

  lemma InsideBy(w: View, sh: Shape)
    requires sh.node in w && w[sh.node].data == sh.data && w[sh.node].child == NodeAt(sh.kids, 0)
    requires forall i: nat :: i < |sh.kids| ==> Chained(w, sh.node, sh.kids, i) && Inside(w, sh.kids[i])
    ensures Inside(w, sh)
  {}

  /** Only the root's own place may differ. */
  lemma {:induction false} Steady(v: View, w: View, sh: Shape)
    requires Inside(v, sh) && sh.node in w && w[sh.node].data == v[sh.node].data && w[sh.node].child == v[sh.node].child
    requires forall x :: x in NodesOf(sh.kids) && x in v ==> x in w && w[x] == v[x]
    ensures Inside(w, sh)
  {
    forall i: nat | i < |sh.kids| ensures Chained(w, sh.node, sh.kids, i) && Inside(w, sh.kids[i]) {
      KidNodes(sh, i);
      assert Chained(v, sh.node, sh.kids, i);
      Steady(v, w, sh.kids[i]);
    }
  }

  lemma InsideIf(s: set<Node>, sh: Shape)
    requires Laid(sh) && Nodes(sh) <= s
    ensures Inside(Memory(s), sh)
  {
    Steady(Memory(Nodes(sh)), Memory(s), sh);
  }

  lemma LaidIf(s: set<Node>, sh: Shape)
    requires Inside(Memory(s), sh) && Nodes(sh) <= s
    ensures Laid(sh)
  {
    Steady(Memory(s), Memory(Nodes(sh)), sh);
  }

  lemma KidLaid(sh: Shape, i: nat)
    requires Laid(sh) && i < |sh.kids|
    ensures Laid(sh.kids[i]) && sh.kids[i].node in Nodes(sh)
    ensures var x := sh.kids[i].node;
      x.next == NodeAt(sh.kids, i + 1) && x.prev == NodeAt(sh.kids, i - 1) && x.parent == sh.node
        && DataOf(x) == sh.kids[i].data
  {
    var v := Memory(Nodes(sh));
    KidNodes(sh, i);
    KidIn(v, sh, i);
    RootIn(v, sh.kids[i]);
    Steady(v, Memory(Nodes(sh.kids[i])), sh.kids[i]);
  }

  lemma Start(sh: Shape)
    requires Laid(sh)
    ensures sh.node.child == NodeAt(sh.kids, 0) && DataOf(sh.node) == sh.data
  {
    RootIn(Memory(Nodes(sh)), sh);
  }

  // ---------------------------------------------------------------- places in a tree

  lemma PairApart(sh: Shape, i: nat, j: nat)
    requires Apart(sh) && i < |sh.kids| && j < |sh.kids|
    ensures Apart(sh.kids[i]) && sh.node !in Nodes(sh.kids[i])
    ensures i != j ==> Nodes(sh.kids[i]) !! Nodes(sh.kids[j])
    ensures sh.kids[i].node == sh.kids[j].node <==> i == j
  {
    KidNodes(sh, i);
    KidNodes(sh, j);
  }

  lemma ApartIf(sh: Shape)
    requires forall i: nat :: i < |sh.kids| ==> Apart(sh.kids[i]) && sh.node !in Nodes(sh.kids[i])
    requires forall i: nat, j: nat ::
      i < |sh.kids| && j < |sh.kids| && i != j ==> Nodes(sh.kids[i]) !! Nodes(sh.kids[j])
    ensures Apart(sh)
  {}

  lemma UnderKid(sh: Shape, i: nat)
    requires Apart(sh) && i < |sh.kids|
    ensures sh.kids[i].node !in NodesOf(sh.kids[i].kids) && NodesOf(sh.kids[i].kids) <= Nodes(sh.kids[i])
  {
    PairApart(sh, i, i);
  }

  function WithKids(sh: Shape, kids: seq<Shape>): Shape {
    sh.(kids := kids)
  }

  lemma WithKidsNodes(sh: Shape, kids: seq<Shape>, s: set<Node>)
    requires sh.node in s && forall i: nat :: i < |kids| ==> Nodes(kids[i]) <= s
    ensures Nodes(WithKids(sh, kids)) <= s
  {}

  // ---------------------------------------------------------------- appending

  lemma GrownApart(sh: Shape, it: Shape)
    requires Apart(sh) && Apart(it) && Nodes(sh) !! Nodes(it)
    ensures Apart(WithKids(sh, sh.kids + [it])) && Nodes(WithKids(sh, sh.kids + [it])) <= Nodes(sh) + Nodes(it)
  {
    hide Apart, Nodes, NodesOf;
    var grown := WithKids(sh, sh.kids + [it]);
    OwnNode(sh);
    forall i: nat | i < |grown.kids|
      ensures Apart(grown.kids[i]) && sh.node !in Nodes(grown.kids[i]) && Nodes(grown.kids[i]) <= Nodes(sh) + Nodes(it)
    {
      if i < |sh.kids| {
        PairApart(sh, i, i);
        KidNodes(sh, i);
      }
    }
    forall i: nat, j: nat | i < |grown.kids| && j < |grown.kids|
      && i != j ensures Nodes(grown.kids[i]) !! Nodes(grown.kids[j]) {
      if i < |sh.kids| { KidNodes(sh, i); }
      if j < |sh.kids| { KidNodes(sh, j); }
      if i < |sh.kids| && j < |sh.kids| { PairApart(sh, i, j); }
    }
    ApartIf(grown);
    WithKidsNodes(sh, grown.kids, Nodes(sh) + Nodes(it));
  }

  /** `it` hangs behind the last child, or as the first. */
  ghost predicate Hung(v: View, w: View, sh: Shape, it: Node) {
    && w.Keys == v.Keys && sh.node in v && it in v
    && if sh.kids == [] then
         && w[sh.node] == v[sh.node].(child := it) && w[it] == v[it].(parent := sh.node)
         && forall x :: x in v && x != sh.node && x != it ==> w[x] == v[x]
       else
         var last := sh.kids[|sh.kids| - 1].node;
         && last in v && w[last] == v[last].(next := it) && w[it] == v[it].(prev := last, parent := sh.node)
         && forall x :: x in v && x != last && x != it ==> w[x] == v[x]
  }

  lemma OldKid(v: View, w: View, sh: Shape, it: Shape, i: nat)
    requires Inside(v, sh) && Apart(sh) && Nodes(sh) !! Nodes(it) && i < |sh.kids| && Hung(v, w, sh, it.node)
    ensures Chained(w, sh.node, sh.kids + [it], i) && Inside(w, sh.kids[i])
  {
    hide Inside, Apart, Nodes, NodesOf;
    var n := |sh.kids|;
    OwnNode(it);
    KidIn(v, sh, i);
    PairApart(sh, i, n - 1);
    KidNodes(sh, i);
    KidNodes(sh, n - 1);
    UnderKid(sh, i);
    Steady(v, w, sh.kids[i]);
  }

  lemma NewKid(v: View, w: View, sh: Shape, it: Shape)
    requires Inside(v, it) && Apart(it) && Nodes(sh) !! Nodes(it) && Hung(v, w, sh, it.node)
    requires v[it.node].next == null && v[it.node].prev == null
    ensures Chained(w, sh.node, sh.kids + [it], |sh.kids|) && Inside(w, it)
  {
    hide Inside, Apart, Nodes, NodesOf;
    OwnNode(it);
    OwnNode(sh);
    if sh.kids != [] {
      KidNodes(sh, |sh.kids| - 1);
    }
    ItUnder(it);
    Steady(v, w, it);
  }

  lemma NewRoot(v: View, w: View, sh: Shape, it: Shape)
    requires Inside(v, sh) && Apart(sh) && Nodes(sh) !! Nodes(it) && Hung(v, w, sh, it.node)
    ensures w[sh.node].data == sh.data && w[sh.node].child == NodeAt(sh.kids + [it], 0)
  {
    RootIn(v, sh);
    OwnNode(sh);
    OwnNode(it);
    if sh.kids != [] {
      KidNodes(sh, |sh.kids| - 1);
      PairApart(sh, |sh.kids| - 1, |sh.kids| - 1);
    }
  }

  /** The picture once `it` hangs behind the last child. */
  lemma Appended(v: View, w: View, sh: Shape, it: Shape)
    requires Inside(v, sh) && Inside(v, it) && Apart(sh) && Apart(it) && Nodes(sh) !! Nodes(it)
    requires Hung(v, w, sh, it.node) && v[it.node].next == null && v[it.node].prev == null
    ensures Inside(w, WithKids(sh, sh.kids + [it]))
  {
    hide Inside, Apart, Nodes, Hung;
    var kids := sh.kids + [it];
    NewRoot(v, w, sh, it);
    assert sh.node in w by { HungKeys(v, w, sh, it.node); }
    forall i: nat | i < |kids| ensures Chained(w, sh.node, kids, i) && Inside(w, kids[i]) {
      if i < |sh.kids| {
        OldKid(v, w, sh, it, i);
      } else {
        NewKid(v, w, sh, it);
      }
    }
    InsideBy(w, WithKids(sh, kids));
  }

  lemma HungKeys(v: View, w: View, sh: Shape, it: Node)
    requires Hung(v, w, sh, it)
    ensures sh.node in w && w.Keys == v.Keys
  {}

  lemma ItUnder(it: Shape)
    requires Apart(it)
    ensures it.node !in NodesOf(it.kids) && NodesOf(it.kids) <= Nodes(it)
  {}

  // ---------------------------------------------------------------- taking out

  function Removed(kids: seq<Shape>, k: nat): seq<Shape>
    requires k < |kids|
  {
    kids[..k] + kids[k + 1..]
  }

  /** Where a remaining child stood before. */
  function Was(k: nat, i: nat): nat {
    if i < k then i else i + 1
  }

  /** Child `k` has been taken out of its list; what lies below it may have changed too. */
  ghost predicate Out(v: View, w: View, sh: Shape, k: nat)
    requires k < |sh.kids|
  {
    var p, n := NodeAt(sh.kids, k - 1), NodeAt(sh.kids, k + 1);
    && w.Keys == v.Keys && sh.node in v && (p != null ==> p in v) && (n != null ==> n in v)
    && w[sh.node] == (if p == null then v[sh.node].(child := n) else v[sh.node])
    && (p != null ==> w[p] == v[p].(next := n)) && (n != null ==> w[n] == v[n].(prev := p))
    && forall x :: x in v && x !in Nodes(sh.kids[k]) && x != sh.node && x != p && x != n ==> w[x] == v[x]
  }

  lemma StayingKid(v: View, w: View, sh: Shape, k: nat, i: nat)
    requires Inside(v, sh) && Apart(sh) && k < |sh.kids| && i < |sh.kids| - 1 && Out(v, w, sh, k)
    ensures Removed(sh.kids, k)[i] == sh.kids[Was(k, i)]
    ensures Chained(w, sh.node, Removed(sh.kids, k), i) && Inside(w, sh.kids[Was(k, i)])
  {
    hide Inside, Apart, Nodes, NodesOf;
    var j := Was(k, i);
    KidIn(v, sh, j);
    PairApart(sh, j, k);
    KidNodes(sh, j);
    UnderKid(sh, j);
    if k > 0 {
      PairApart(sh, j, k - 1);
      KidNodes(sh, k - 1);
    }
    if k + 1 < |sh.kids| {
      PairApart(sh, j, k + 1);
      KidNodes(sh, k + 1);
    }
    Steady(v, w, sh.kids[j]);
  }

  /** The picture once child `k` is out. */
  lemma TakenOut(v: View, w: View, sh: Shape, k: nat)
    requires Inside(v, sh) && Apart(sh) && k < |sh.kids| && Out(v, w, sh, k)
    ensures Inside(w, WithKids(sh, Removed(sh.kids, k)))
  {
    hide Inside, Apart, Nodes;
    var kids := Removed(sh.kids, k);
    RootIn(v, sh);
    forall i: nat | i < |kids| ensures Chained(w, sh.node, kids, i) && Inside(w, kids[i]) {
      StayingKid(v, w, sh, k, i);
    }
    InsideBy(w, WithKids(sh, kids));
  }

  lemma RemovedApart(sh: Shape, k: nat)
    requires Apart(sh) && k < |sh.kids|
    ensures Apart(WithKids(sh, Removed(sh.kids, k)))
      && Nodes(WithKids(sh, Removed(sh.kids, k))) == Nodes(sh) - Nodes(sh.kids[k])
  {
    hide Apart, Nodes, NodesOf;
    var rest := WithKids(sh, Removed(sh.kids, k));
    forall i: nat | i < |rest.kids|
      ensures rest.kids[i] == sh.kids[Was(k, i)] && Apart(rest.kids[i]) && sh.node !in Nodes(rest.kids[i])
      ensures Nodes(rest.kids[i]) <= Nodes(sh) - Nodes(sh.kids[k])
    {
      PairApart(sh, Was(k, i), k);
      KidNodes(sh, Was(k, i));
    }
    forall i: nat, j: nat | i < |rest.kids| && j < |rest.kids|
      && i != j ensures Nodes(rest.kids[i]) !! Nodes(rest.kids[j]) {
      PairApart(sh, Was(k, i), Was(k, j));
    }
    ApartIf(rest);
    OwnNode(sh);
    PairApart(sh, k, k);
    WithKidsNodes(sh, rest.kids, Nodes(sh) - Nodes(sh.kids[k]));
    forall x | x in Nodes(sh) && x !in Nodes(sh.kids[k]) ensures x in Nodes(rest) {
      Kept(sh, k, x);
    }
  }

  lemma Kept(sh: Shape, k: nat, x: Node)
    requires k < |sh.kids| && x in Nodes(sh) && x !in Nodes(sh.kids[k])
    ensures x in Nodes(WithKids(sh, Removed(sh.kids, k)))
  {
    var rest := WithKids(sh, Removed(sh.kids, k));
    if x != sh.node {
      var j: nat :| j < |sh.kids| && x in Nodes(sh.kids[j]);
      var i: nat := if j < k then j else j - 1;
      assert rest.kids[i] == sh.kids[j];
      KidNodes(rest, i);
    }
  }
}
