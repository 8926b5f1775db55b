/** The linked form of a JSON tree: items chained by next and prev under the child pointer of
    their parent, and the operations on such a chain as operations on a sequence. */
module JsonTree {
  import opened CText

  /** What an item holds besides its links. */
  datatype Data = Data(kind: int, isReference: bool, valuestring: Option<string>, valueint: int, valuedouble: real,
    name: Option<string>)

  const CJSON_FALSE := 0
  const CJSON_TRUE := 1
  const CJSON_NULL := 2
  const CJSON_NUMBER := 3
  const CJSON_STRING := 4
  const CJSON_ARRAY := 5
  const CJSON_OBJECT := 6

  const BLANK := Data(CJSON_FALSE, false, None, 0, 0.0, None)

  class Item {
    var next: Item?
    var prev: Item?
    var child: Item?
    var kind: int
    var isReference: bool
    var valuestring: Option<string>
    var valueint: int
    var valuedouble: real
    var name: Option<string>

    constructor ()
      ensures next == null && prev == null && child == null && DataOf(this) == BLANK
    {
      next, prev, child := null, null, null;
      kind, isReference, valuestring, valueint, valuedouble, name := CJSON_FALSE, false, None, 0, 0.0, None;
    }
  }

  function DataOf(x: Item): Data
    reads x
  {
    Data(x.kind, x.isReference, x.valuestring, x.valueint, x.valuedouble, x.name)
  }

  /** An item with its links. */
  datatype Cell = Cell(next: Item?, prev: Item?, child: Item?, data: Data)

  type View = map<Item, Cell>

  function CellOf(x: Item): Cell
    reads x
  {
    Cell(x.next, x.prev, x.child, DataOf(x))
  }

  ghost function Memory(s: set<Item>): View
    reads s
  {
    map x | x in s :: CellOf(x)
  }

  /** A tree as it lies in memory. */
  datatype Shape = Shape(node: Item, data: Data, kids: seq<Shape>)

  /** A tree without its addresses. */
  datatype Tree = Tree(data: Data, kids: seq<Tree>)

  function TreeOf(sh: Shape): Tree {
    Tree(sh.data, seq(|sh.kids|, i requires 0 <= i < |sh.kids| => TreeOf(sh.kids[i])))
  }

  function Nodes(sh: Shape): set<Item> {
    {sh.node} + NodesOf(sh.kids)
  }

  function NodesOf(kids: seq<Shape>): set<Item> {
    set i, x | 0 <= i < |kids| && x in Nodes(kids[i]) :: x
  }

  function NodeAt(kids: seq<Shape>, i: int): Item? {
    if 0 <= i < |kids| then kids[i].node else null
  }

  /** The i-th item of a chain points at its neighbours. */
  ghost predicate Chained(v: View, kids: seq<Shape>, i: nat)
    requires i < |kids|
  {
    var x := kids[i].node;
    x in v && v[x].next == NodeAt(kids, i + 1) && v[x].prev == NodeAt(kids, i - 1)
  }

  /** The tree is laid out as `sh` says; the root's own place in a list is left open. */
  ghost predicate Inside(v: View, sh: Shape) {
    && sh.node in v && v[sh.node].data == sh.data && v[sh.node].child == NodeAt(sh.kids, 0)
    && forall i: nat :: i < |sh.kids| ==> Chained(v, sh.kids, i) && Inside(v, sh.kids[i])
  }

  ghost predicate Laid(sh: Shape)
    reads Nodes(sh)
  {
    Inside(Memory(Nodes(sh)), sh)
  }

  /** No item stands in two places. */
  ghost predicate Apart(sh: Shape) {
    sh.node !in NodesOf(sh.kids) && AllApart(sh.kids)
  }

  ghost predicate AllApart(kids: seq<Shape>) {
    && (forall i: nat :: i < |kids| ==> Apart(kids[i]))
    && (forall i: nat, j: nat :: i < |kids| && j < |kids| && i != j ==> Nodes(kids[i]) !! Nodes(kids[j]))
  }

  lemma KidNodes(sh: Shape, i: nat)
    requires i < |sh.kids|
    ensures Nodes(sh.kids[i]) <= NodesOf(sh.kids) <= Nodes(sh) && sh.kids[i].node in Nodes(sh.kids[i])
  {}

  /** Only the links of the root may differ. */
  lemma {:induction false} Steady(v: View, w: View, sh: Shape)
    requires Inside(v, sh) && sh.node in w && w[sh.node].data == v[sh.node].data && w[sh.node].child == v[sh.node].child
    requires forall x :: x in NodesOf(sh.kids) && x in v ==> x in w && w[x] == v[x]
    ensures Inside(w, sh)
  {
    forall i: nat | i < |sh.kids| ensures Chained(w, sh.kids, i) && Inside(w, sh.kids[i]) {
      KidNodes(sh, i);
      assert Chained(v, sh.kids, i);
      Steady(v, w, sh.kids[i]);
    }
  }

  // ---------------------------------------------------------------- appending, taking out, replacing

  function WithKids(sh: Shape, kids: seq<Shape>): Shape {
    sh.(kids := kids)
  }

  function Removed(kids: seq<Shape>, k: nat): seq<Shape>
    requires k < |kids|
  {
    kids[..k] + kids[k + 1..]
  }

  /** The kids of `sh` in `w` are those of `kids`: each is chained in its new place, and inside it
      nothing has changed. */
  lemma Rebuilt(v: View, w: View, sh: Shape, kids: seq<Shape>)
    requires sh.node in w && w[sh.node].data == sh.data && w[sh.node].child == NodeAt(kids, 0)
    requires forall i: nat :: i < |kids| ==> Chained(w, kids, i) && Inside(v, kids[i]) && SameInside(v, w, kids[i])
    ensures Inside(w, WithKids(sh, kids))
  {
    forall i: nat | i < |kids| ensures Inside(w, kids[i]) {
      Steady(v, w, kids[i]);
    }
  }

  /** Inside the tree nothing has changed, but for the links of its root. */
  ghost predicate SameInside(v: View, w: View, sh: Shape) {
    && sh.node in v && sh.node in w && w[sh.node].data == v[sh.node].data && w[sh.node].child == v[sh.node].child
    && forall x :: x in NodesOf(sh.kids) && x in v ==> x in w && w[x] == v[x]
  }

  /** `w` differs from `v` in the links of the items of `some` only. */
  ghost predicate Relinked(v: View, w: View, some: set<Item>) {
    && v.Keys == w.Keys
    && forall x :: x in v ==> w[x].data == v[x].data && (x !in some ==> w[x] == v[x])
  }

  ghost function Heads(kids: seq<Shape>): set<Item> {
    set k | k in kids :: k.node
  }

  lemma SameIf(v: View, w: View, sh: Shape, some: set<Item>)
    requires Inside(v, sh) && Relinked(v, w, some) && some !! NodesOf(sh.kids) && w[sh.node].child == v[sh.node].child
    ensures SameInside(v, w, sh)
  {}

  /** The items of a list are not below any of them. */
  lemma HeadsOutside(sh: Shape, i: nat)
    requires Apart(sh) && i < |sh.kids|
    ensures Heads(sh.kids) + {sh.node} !! NodesOf(sh.kids[i].kids)
  {
    KidNodes(sh, i);
    forall k | k in sh.kids ensures k.node !in NodesOf(sh.kids[i].kids) {
      var j: nat :| j < |sh.kids| && sh.kids[j] == k;
      KidNodes(sh, j);
      assert j == i ==> Apart(sh.kids[i]);
    }
  }

  lemma HeadsDiffer(sh: Shape, i: nat, j: nat)
    requires Apart(sh) && i < |sh.kids| && j < |sh.kids|
    ensures sh.kids[i].node == sh.kids[j].node <==> i == j
    ensures sh.kids[i].node != sh.node && sh.kids[i].node in Heads(sh.kids)
  {
    KidNodes(sh, i);
    KidNodes(sh, j);
  }

  function Next(v: View, x: Item, y: Item?): View
    requires x in v
  {
    v[x := v[x].(next := y)]
  }

  function Prev(v: View, x: Item, y: Item?): View
    requires x in v
  {
    v[x := v[x].(prev := y)]
  }

  function Child(v: View, x: Item, y: Item?): View
    requires x in v
  {
    v[x := v[x].(child := y)]
  }

  lemma Append(v: View, sh: Shape, it: Shape)
    requires Inside(v, sh) && Inside(v, it) && Apart(sh) && Apart(it) && Nodes(sh) !! Nodes(it)
    requires v[it.node].next == null && v[it.node].prev == null
    ensures sh.kids != [] ==> sh.kids[|sh.kids| - 1].node in v
    ensures Inside(Appended(v, sh, it.node), WithKids(sh, sh.kids + [it]))
    ensures Apart(WithKids(sh, sh.kids + [it]))
  {
    GrownApart(sh, it);
    if sh.kids == [] {
      var w, kids := Child(v, sh.node, it.node), [it];
      SameIf(v, w, it, {sh.node});
      assert Chained(w, kids, 0) && sh.kids + [it] == kids;
      Rebuilt(v, w, sh, kids);
    } else {
      AppendMore(v, sh, it);
    }
  }

  function Appended(v: View, sh: Shape, it: Item): View
    requires sh.node in v && it in v && (sh.kids != [] ==> sh.kids[|sh.kids| - 1].node in v)
  {
    if sh.kids == [] then Child(v, sh.node, it)
    else
      var last := sh.kids[|sh.kids| - 1].node;
      Prev(Next(v, last, it), it, last)
  }

  lemma AppendedIs(v: View, sh: Shape, it: Item)
    requires sh.node in v && it in v && (sh.kids != [] ==> sh.kids[|sh.kids| - 1].node in v)
    ensures sh.kids == [] ==> Appended(v, sh, it) == Child(v, sh.node, it)
    ensures sh.kids != [] ==>
      var last := sh.kids[|sh.kids| - 1].node;
      Appended(v, sh, it) == Prev(Next(v, last, it), it, last)
  {}

  lemma GrownApart(sh: Shape, it: Shape)
    requires Apart(sh) && Apart(it) && Nodes(sh) !! Nodes(it)
    ensures Apart(WithKids(sh, sh.kids + [it]))
  {
    var kids := sh.kids + [it];
    forall i: nat | i < |kids| ensures Apart(kids[i]) && Nodes(kids[i]) <= NodesOf(sh.kids) + Nodes(it) {
      if i < |sh.kids| {
        KidNodes(sh, i);
      }
    }
    forall i: nat, j: nat | i < |kids| && j < |kids| && i != j ensures Nodes(kids[i]) !! Nodes(kids[j]) {
      if i < |sh.kids| { KidNodes(sh, i); }
      if j < |sh.kids| { KidNodes(sh, j); }
    }
  }

  lemma AppendMore(v: View, sh: Shape, it: Shape)
    requires Inside(v, sh) && Inside(v, it) && Apart(sh) && Apart(it) && Nodes(sh) !! Nodes(it) && sh.kids != []
    requires v[it.node].next == null
    ensures var last := sh.kids[|sh.kids| - 1].node;
      last in v && Inside(Prev(Next(v, last, it.node), it.node, last), WithKids(sh, sh.kids + [it]))
  {
    hide Inside, Apart, Nodes, NodesOf, SameInside, Relinked, Heads;
    var n := |sh.kids|;
    KidIn(v, sh, n - 1);
    RootIn(v, sh);
    RootIn(v, it);
    var last, kids := sh.kids[n - 1].node, sh.kids + [it];
    var w := Prev(Next(v, last, it.node), it.node, last);
    var some := {last, it.node};
    assert Relinked(v, w, some) by {
      NextRelinks(v, last, it.node);
      PrevRelinks(Next(v, last, it.node), it.node, last);
      RelinkTwice(v, Next(v, last, it.node), w, {last}, {it.node});
      assert some == {last} + {it.node};
    }
    LastApart(sh, it);
    forall i: nat | i < |kids| ensures Chained(w, kids, i) && Inside(v, kids[i]) && SameInside(v, w, kids[i]) {
      if i < n {
        KidIn(v, sh, i);
        HeadsDiffer(sh, i, n - 1);
        ApartHead(sh, it, i);
        assert Chained(w, kids, i);
        SameIf(v, w, kids[i], some);
      } else {
        assert Chained(w, kids, i);
        SameIf(v, w, it, some);
      }
    }
    HeadsDiffer(sh, 0, n - 1);
    KidIn(v, sh, 0);
    Rebuilt(v, w, sh, kids);
  }

  lemma KidIn(v: View, sh: Shape, i: nat)
    requires Inside(v, sh) && i < |sh.kids|
    ensures Chained(v, sh.kids, i) && Inside(v, sh.kids[i]) && sh.kids[i].node in v
  {}

  lemma RootIn(v: View, sh: Shape)
    requires Inside(v, sh)
    ensures sh.node in v && v[sh.node].child == NodeAt(sh.kids, 0) && v[sh.node].data == sh.data
  {}

  lemma NextRelinks(v: View, x: Item, y: Item?)
    requires x in v
    ensures Relinked(v, Next(v, x, y), {x})
  {}

  lemma PrevRelinks(v: View, x: Item, y: Item?)
    requires x in v
    ensures Relinked(v, Prev(v, x, y), {x})
  {}

  lemma RelinkTwice(u: View, v: View, w: View, a: set<Item>, b: set<Item>)
    requires Relinked(u, v, a) && Relinked(v, w, b)
    ensures Relinked(u, w, a + b)
  {}

  lemma LastApart(sh: Shape, it: Shape)
    requires Apart(sh) && Apart(it) && Nodes(sh) !! Nodes(it) && sh.kids != []
    ensures {sh.kids[|sh.kids| - 1].node, it.node} !! NodesOf(it.kids)
    ensures sh.kids[|sh.kids| - 1].node != it.node && sh.node != it.node
  {
    KidNodes(sh, |sh.kids| - 1);
  }

  lemma ApartHead(sh: Shape, it: Shape, i: nat)
    requires Apart(sh) && Nodes(sh) !! Nodes(it) && i < |sh.kids|
    ensures {sh.kids[|sh.kids| - 1].node, it.node} !! NodesOf(sh.kids[i].kids)
    ensures sh.kids[i].node != it.node
  {
    HeadsOutside(sh, i);
    KidNodes(sh, i);
    HeadsDiffer(sh, |sh.kids| - 1, |sh.kids| - 1);
  }

  /** Taking an item out of its chain, as the code relinks its neighbours. */
  function Unchained(v: View, root: Item, c: Item, p: Item?, n: Item?): View
    requires root in v && c in v && (p != null ==> p in v) && (n != null ==> n in v)
  {
    var v1 := if p != null then Next(v, p, n) else v;
    var v2 := if n != null then Prev(v1, n, p) else v1;
    var v3 := if p == null then Child(v2, root, n) else v2;
    Next(Prev(v3, c, null), c, null)
  }

  /** An item, its list and its neighbours are all different. */
  predicate Around(list: Item, c: Item, p: Item?, n: Item?) {
    c != list && c != p && c != n && list != p && list != n && (p != null ==> p != n)
  }

  lemma UnchainedIs(v: View, root: Item, c: Item, p: Item?, n: Item?)
    requires root in v && c in v && (p != null ==> p in v) && (n != null ==> n in v)
    requires Around(root, c, p, n)
    ensures var w := Unchained(v, root, c, p, n);
      && w.Keys == v.Keys && w[c] == v[c].(next := null, prev := null)
      && w[root] == v[root].(child := if p == null then n else v[root].child)
      && (p != null ==> w[p] == v[p].(next := n)) && (n != null ==> w[n] == v[n].(prev := p))
      && (forall x :: x in v && x != c && x != root && x != p && x != n ==> w[x] == v[x])
  {}

  lemma Remove(v: View, sh: Shape, k: nat)
    requires Inside(v, sh) && Apart(sh) && k < |sh.kids|
    ensures Ready(v, sh, k)
    ensures var w := Unchained(v, sh.node, sh.kids[k].node, NodeAt(sh.kids, k - 1), NodeAt(sh.kids, k + 1));
      Inside(w, WithKids(sh, Removed(sh.kids, k))) && Inside(w, sh.kids[k])
      && w[sh.kids[k].node].next == null && w[sh.kids[k].node].prev == null
    ensures Apart(WithKids(sh, Removed(sh.kids, k)))
  {
    hide Inside, Apart, Nodes, NodesOf, SameInside, Relinked, Heads;
    AreReady(v, sh, k);
    var c, p, n := sh.kids[k].node, NodeAt(sh.kids, k - 1), NodeAt(sh.kids, k + 1);
    UnchainedIs(v, sh.node, c, p, n);
    var w := Unchained(v, sh.node, c, p, n);
    var kids := Removed(sh.kids, k);
    RootIn(v, sh);
    OnlyHeads(v, w, sh, k);
    forall i: nat | i < |kids| ensures Chained(w, kids, i) && Inside(v, kids[i]) && SameInside(v, w, kids[i]) {
      var j := if i < k then i else i + 1;
      Neighbours(v, sh, k, j);
      OneSame(v, w, sh, j);
    }
    Rebuilt(v, w, sh, kids);
    KidIn(v, sh, k);
    OneSame(v, w, sh, k);
    Steady2(v, w, sh.kids[k]);
    RemovedApart(sh, k);
  }

  ghost predicate Ready(v: View, sh: Shape, k: nat)
    requires k < |sh.kids|
  {
    && sh.node in v && sh.kids[k].node in v
    && (NodeAt(sh.kids, k - 1) != null ==> NodeAt(sh.kids, k - 1) in v)
    && (NodeAt(sh.kids, k + 1) != null ==> NodeAt(sh.kids, k + 1) in v)
  }

  lemma AreReady(v: View, sh: Shape, k: nat)
    requires Inside(v, sh) && Apart(sh) && k < |sh.kids|
    ensures Ready(v, sh, k)
    ensures Around(sh.node, sh.kids[k].node, NodeAt(sh.kids, k - 1), NodeAt(sh.kids, k + 1))
  {
    hide Inside, Apart;
    RootIn(v, sh);
    KidIn(v, sh, k);
    HeadsDiffer(sh, k, k);
    if k > 0 { KidIn(v, sh, k - 1); HeadsDiffer(sh, k - 1, k); }
    if k + 1 < |sh.kids| { KidIn(v, sh, k + 1); HeadsDiffer(sh, k + 1, k); }
    if 0 < k && k + 1 < |sh.kids| { HeadsDiffer(sh, k - 1, k + 1); }
  }

  /** Which kid is a neighbour of the k-th. */
  lemma Neighbours(v: View, sh: Shape, k: nat, j: nat)
    requires Inside(v, sh) && Apart(sh) && k < |sh.kids| && j < |sh.kids|
    ensures var x := sh.kids[j].node;
      && Chained(v, sh.kids, j) && Inside(v, sh.kids[j]) && x != sh.node && (x == sh.kids[k].node <==> j == k)
      && (x == NodeAt(sh.kids, k - 1) <==> j == k - 1) && (x == NodeAt(sh.kids, k + 1) <==> j == k + 1)
  {
    hide Inside, Apart;
    KidIn(v, sh, j);
    HeadsDiffer(sh, j, k);
    if k > 0 { HeadsDiffer(sh, j, k - 1); }
    if k + 1 < |sh.kids| { HeadsDiffer(sh, j, k + 1); }
  }

  ghost predicate OnlyRelinked(v: View, w: View, sh: Shape) {
    Relinked(v, w, Heads(sh.kids) + {sh.node})
      && forall i: nat :: i < |sh.kids| && sh.kids[i].node in v ==> w[sh.kids[i].node].child == v[sh.kids[i].node].child
  }

  lemma OnlyHeads(v: View, w: View, sh: Shape, k: nat)
    requires Inside(v, sh) && Apart(sh) && k < |sh.kids| && Ready(v, sh, k)
    requires var c, p, n := sh.kids[k].node, NodeAt(sh.kids, k - 1), NodeAt(sh.kids, k + 1);
      && w.Keys == v.Keys && w[c] == v[c].(next := null, prev := null)
      && w[sh.node] == v[sh.node].(child := if p == null then n else v[sh.node].child)
      && (p != null ==> w[p] == v[p].(next := n)) && (n != null ==> w[n] == v[n].(prev := p))
      && (forall x :: x in v && x != c && x != sh.node && x != p && x != n ==> w[x] == v[x])
    ensures OnlyRelinked(v, w, sh)
  {
    hide Inside, Apart;
    forall i: nat | i < |sh.kids| ensures sh.kids[i].node in Heads(sh.kids) && sh.kids[i].node != sh.node {
      HeadsDiffer(sh, i, i);
    }
  }

  lemma OneSame(v: View, w: View, sh: Shape, j: nat)
    requires Inside(v, sh) && Apart(sh) && j < |sh.kids| && OnlyRelinked(v, w, sh)
    ensures SameInside(v, w, sh.kids[j])
  {
    KidIn(v, sh, j);
    HeadsOutside(sh, j);
    SameIf(v, w, sh.kids[j], Heads(sh.kids) + {sh.node});
  }

  lemma Steady2(v: View, w: View, sh: Shape)
    requires Inside(v, sh) && SameInside(v, w, sh)
    ensures Inside(w, sh)
  {
    Steady(v, w, sh);
  }

  lemma RemovedApart(sh: Shape, k: nat)
    requires Apart(sh) && k < |sh.kids|
    ensures Apart(WithKids(sh, Removed(sh.kids, k))) && Apart(sh.kids[k])
    ensures Nodes(WithKids(sh, Removed(sh.kids, k))) !! Nodes(sh.kids[k])
  {
    KidNodes(sh, k);
    RemovedAll(sh.kids, k);
    RemovedNodes(sh.kids, k);
  }

  function Before(k: nat, i: nat): nat {
    if i < k then i else i + 1
  }

  lemma RemovedAll(kids: seq<Shape>, k: nat)
    requires AllApart(kids) && k < |kids|
    ensures AllApart(Removed(kids, k))
  {
    hide Nodes, Apart, AllApart, Removed;
    var rest := Removed(kids, k);
    RemovedLength(kids, k);
    forall i: nat | i < |rest| ensures Apart(rest[i]) {
      RemovedAt(kids, k, i);
      PairApart(kids, Before(k, i), Before(k, i));
    }
    forall i: nat, j: nat | i < |rest| && j < |rest| && i != j ensures Nodes(rest[i]) !! Nodes(rest[j]) {
      RemovedAt(kids, k, i);
      RemovedAt(kids, k, j);
      PairApart(kids, Before(k, i), Before(k, j));
    }
    AllApartIf(rest);
  }

  lemma RemovedLength(kids: seq<Shape>, k: nat)
    requires k < |kids|
    ensures |Removed(kids, k)| == |kids| - 1
  {}

  lemma RemovedAt(kids: seq<Shape>, k: nat, i: nat)
    requires k < |kids| && i < |kids| - 1
    ensures Before(k, i) < |kids| && i < |Removed(kids, k)| && Removed(kids, k)[i] == kids[Before(k, i)]
  {}

  lemma PairApart(kids: seq<Shape>, i: nat, j: nat)
    requires AllApart(kids) && i < |kids| && j < |kids|
    ensures Apart(kids[i]) && (i != j ==> Nodes(kids[i]) !! Nodes(kids[j]))
  {}

  lemma AllApartIf(kids: seq<Shape>)
    requires forall i: nat :: i < |kids| ==> Apart(kids[i])
    requires forall i: nat, j: nat :: i < |kids| && j < |kids| && i != j ==> Nodes(kids[i]) !! Nodes(kids[j])
    ensures AllApart(kids)
  {}

  lemma RemovedNodes(kids: seq<Shape>, k: nat)
    requires AllApart(kids) && k < |kids|
    ensures NodesOf(Removed(kids, k)) <= NodesOf(kids) && NodesOf(Removed(kids, k)) !! Nodes(kids[k])
  {
    hide Nodes, Apart;
    var rest := Removed(kids, k);
    forall x | x in NodesOf(rest) ensures x in NodesOf(kids) && x !in Nodes(kids[k]) {
      var i: nat :| i < |rest| && x in Nodes(rest[i]);
      assert rest[i] == kids[Before(k, i)];
    }
  }

  /** Putting an item in the place of another, as the code relinks. */
  function Swapped(v: View, root: Item, c: Item, it: Item, p: Item?, n: Item?): View
    requires root in v && c in v && it in v && (p != null ==> p in v) && (n != null ==> n in v)
  {
    var v1 := Prev(Next(v, it, n), it, p);
    var v2 := if n != null then Prev(v1, n, it) else v1;
    var v3 := if p == null then Child(v2, root, it) else Next(v2, p, it);
    Prev(Next(v3, c, null), c, null)
  }

  lemma SwappedIs(v: View, root: Item, c: Item, it: Item, p: Item?, n: Item?)
    requires root in v && c in v && it in v && (p != null ==> p in v) && (n != null ==> n in v)
    requires Around(root, c, p, n)
    requires it != c && it != root && it != p && it != n
    ensures var w := Swapped(v, root, c, it, p, n);
      && w.Keys == v.Keys && w[c] == v[c].(next := null, prev := null) && w[it] == v[it].(next := n, prev := p)
      && w[root] == v[root].(child := if p == null then it else v[root].child)
      && (p != null ==> w[p] == v[p].(next := it)) && (n != null ==> w[n] == v[n].(prev := it))
      && (forall x :: x in v && x != c && x != root && x != p && x != n && x != it ==> w[x] == v[x])
  {}

  lemma Replace(v: View, sh: Shape, k: nat, it: Shape)
    requires Inside(v, sh) && Apart(sh) && k < |sh.kids| && Inside(v, it) && Apart(it) && Nodes(sh) !! Nodes(it)
    ensures Ready(v, sh, k) && it.node in v
    ensures var w := Swapped(v, sh.node, sh.kids[k].node, it.node, NodeAt(sh.kids, k - 1), NodeAt(sh.kids, k + 1));
      Inside(w, WithKids(sh, sh.kids[k := it])) && Inside(w, sh.kids[k])
      && w[sh.kids[k].node].next == null && w[sh.kids[k].node].prev == null
    ensures Apart(WithKids(sh, sh.kids[k := it]))
  {
    hide Inside, Apart, Nodes, NodesOf, SameInside, Relinked, Heads, Swapped;
    AreReady(v, sh, k);
    RootIn(v, it);
    RootIn(v, sh);
    Strange(sh, it, k);
    var c, p, n := sh.kids[k].node, NodeAt(sh.kids, k - 1), NodeAt(sh.kids, k + 1);
    SwappedIs(v, sh.node, c, it.node, p, n);
    var w := Swapped(v, sh.node, c, it.node, p, n);
    var kids := sh.kids[k := it];
    HeadsAndOne(v, w, sh, k, it);
    forall i: nat | i < |kids| ensures Chained(w, kids, i) && Inside(v, kids[i]) && SameInside(v, w, kids[i]) {
      Neighbours(v, sh, k, i);
      Strange(sh, it, i);
      if i == k {
        ItSame(v, w, sh, it);
      } else {
        OneStill(v, w, sh, it, i);
      }
    }
    Rebuilt(v, w, sh, kids);
    KidIn(v, sh, k);
    OneStill(v, w, sh, it, k);
    Steady2(v, w, sh.kids[k]);
    ReplacedApart(sh, k, it);
  }

  lemma Strange(sh: Shape, it: Shape, i: nat)
    requires Nodes(sh) !! Nodes(it) && i < |sh.kids|
    ensures it.node != sh.node && it.node != sh.kids[i].node
    ensures it.node != NodeAt(sh.kids, i - 1) && it.node != NodeAt(sh.kids, i + 1)
  {
    KidNodes(sh, i);
    if i > 0 { KidNodes(sh, i - 1); }
    if i + 1 < |sh.kids| { KidNodes(sh, i + 1); }
  }

  ghost predicate RelinkedWith(v: View, w: View, sh: Shape, it: Shape) {
    && Relinked(v, w, Heads(sh.kids) + {sh.node, it.node})
    && (forall i: nat :: i < |sh.kids| && sh.kids[i].node in v ==> w[sh.kids[i].node].child == v[sh.kids[i].node].child)
    && (it.node in v ==> w[it.node].child == v[it.node].child)
  }

  lemma HeadsAndOne(v: View, w: View, sh: Shape, k: nat, it: Shape)
    requires Inside(v, sh) && Apart(sh) && k < |sh.kids| && Ready(v, sh, k) && it.node in v && Nodes(sh) !! Nodes(it)
    requires var c, p, n := sh.kids[k].node, NodeAt(sh.kids, k - 1), NodeAt(sh.kids, k + 1);
      && w.Keys == v.Keys && w[c] == v[c].(next := null, prev := null)
        && w[it.node] == v[it.node].(next := n, prev := p)
      && w[sh.node] == v[sh.node].(child := if p == null then it.node else v[sh.node].child)
      && (p != null ==> w[p] == v[p].(next := it.node)) && (n != null ==> w[n] == v[n].(prev := it.node))
      && (forall x :: x in v && x != c && x != sh.node && x != p && x != n && x != it.node ==> w[x] == v[x])
    ensures RelinkedWith(v, w, sh, it)
  {
    hide Inside, Apart, Nodes;
    forall i: nat | i < |sh.kids| ensures sh.kids[i].node in Heads(sh.kids) && sh.kids[i].node != sh.node {
      HeadsDiffer(sh, i, i);
    }
  }

  lemma OneStill(v: View, w: View, sh: Shape, it: Shape, j: nat)
    requires Inside(v, sh) && Apart(sh) && j < |sh.kids| && RelinkedWith(v, w, sh, it) && Nodes(sh) !! Nodes(it)
    ensures SameInside(v, w, sh.kids[j])
  {
    KidIn(v, sh, j);
    HeadsOutside(sh, j);
    KidNodes(sh, j);
    SameIf(v, w, sh.kids[j], Heads(sh.kids) + {sh.node, it.node});
  }

  lemma ItSame(v: View, w: View, sh: Shape, it: Shape)
    requires Inside(v, it) && Apart(it) && RelinkedWith(v, w, sh, it) && Nodes(sh) !! Nodes(it)
    ensures SameInside(v, w, it)
  {
    forall k | k in sh.kids ensures k.node in Nodes(sh) {
      var i: nat :| i < |sh.kids| && sh.kids[i] == k;
      KidNodes(sh, i);
    }
    SameIf(v, w, it, Heads(sh.kids) + {sh.node, it.node});
  }

  lemma ReplacedApart(sh: Shape, k: nat, it: Shape)
    requires Apart(sh) && k < |sh.kids| && Apart(it) && Nodes(sh) !! Nodes(it)
    ensures Apart(WithKids(sh, sh.kids[k := it])) && Apart(sh.kids[k])
  {
    var kids := sh.kids[k := it];
    assert AllApart(kids) by {
      hide Apart, Nodes;
      forall i: nat | i < |kids| ensures Apart(kids[i]) && (i != k ==> Nodes(kids[i]) <= Nodes(sh)) {
        KidNodes(sh, i);
      }
    }
    forall x | x in NodesOf(kids) ensures x in NodesOf(sh.kids) || x in Nodes(it) {
      var i: nat :| i < |kids| && x in Nodes(kids[i]);
      KidNodes(sh, i);
    }
  }
}
