/** Building and cutting XML trees in memory: xml_add_child and xml_delete_tree, each against what it does to
    the sequence of children. */
module XmlEdit {
  import opened XmlTree

  lemma IsNow(s: set<Node>, w: View)
    requires w.Keys == s && forall x :: x in s ==> w[x] == CellOf(x)
    ensures Memory(s) == w
  {}

  /** Hangs a detached node behind the children of an element; any other node takes no children. */
  method AddChild(node: Node, child: Node, ghost sh: Shape, ghost it: Shape)
    requires Laid(sh) && Apart(sh) && sh.node == node && Laid(it) && Apart(it) && it.node == child
    requires Nodes(sh) !! Nodes(it) && child.next == null && child.prev == null
    modifies Nodes(sh), child
    ensures IsElement(sh.data) ==> Laid(WithKids(sh, sh.kids + [it])) && Apart(WithKids(sh, sh.kids + [it]))
    ensures !IsElement(sh.data) ==> Laid(sh) && Laid(it)
    ensures node.parent == old(node.parent) && node.prev == old(node.prev) && node.next == old(node.next)
  {
    hide Inside, Apart, Nodes, Hung;
    Start(sh);
    OwnNode(sh);
    OwnNode(it);
    if IsElement(DataOf(node)) {
      ghost var s := Nodes(sh) + Nodes(it);
      ghost var v := Memory(s);
      InsideIf(s, sh);
      InsideIf(s, it);
      GrownApart(sh, it);
      if node.child != null {
        var lastChild := node.child;
        ghost var i: nat := 0;
        KidLaid(sh, 0);
        while lastChild.next != null
          modifies {}
          invariant Laid(sh) && i < |sh.kids| && lastChild == sh.kids[i].node
            && lastChild.next == NodeAt(sh.kids, i + 1)
          decreases |sh.kids| - i
        {
          lastChild, i := lastChild.next, i + 1;
          KidLaid(sh, i);
        }
        KidLaid(sh, i);
        PairApart(sh, i, i);
        KidNodes(sh, i);
        Link(node, lastChild, child, s);
        HungBehind(v, Memory(s), sh, child);
      } else {
        LinkFirst(node, child, s);
        HungFirst(v, Memory(s), sh, child);
      }
      Appended(v, Memory(s), sh, it);
      LaidIf(s, WithKids(sh, sh.kids + [it]));
    }
  }

  /** Behind the last child. */
  method Link(node: Node, last: Node, child: Node, ghost s: set<Node>)
    requires node in s && last in s && child in s && last != child && node != child && last != node
    modifies last`next, child`prev, child`parent
    ensures Memory(s) == old(Memory(s))[last := old(CellOf(last)).(next := child)]
        [child := old(CellOf(child)).(prev := last, parent := node)]
  {
    last.next := child;
    child.prev := last;
    child.parent := node;
    IsNow(s, old(Memory(s))[last := old(CellOf(last)).(next := child)][child := old(CellOf(child)).(prev := last,
      parent := node)]);
  }

  /** As the first child. */
  method LinkFirst(node: Node, child: Node, ghost s: set<Node>)
    requires node in s && child in s && node != child
    modifies node`child, child`parent
    ensures Memory(s) == old(Memory(s))[node := old(CellOf(node)).(child := child)]
        [child := old(CellOf(child)).(parent := node)]
  {
    node.child := child;
    child.parent := node;
    IsNow(s, old(Memory(s))[node := old(CellOf(node)).(child := child)]
        [child := old(CellOf(child)).(parent := node)]);
  }

  lemma HungBehind(v: View, w: View, sh: Shape, it: Node)
    requires sh.kids != [] && sh.node in v && it in v && sh.kids[|sh.kids| - 1].node in v
      && it != sh.kids[|sh.kids| - 1].node
    requires var last := sh.kids[|sh.kids| - 1].node;
      w == v[last := v[last].(next := it)][it := v[it].(prev := last, parent := sh.node)]
    ensures Hung(v, w, sh, it)
  {}

  lemma HungFirst(v: View, w: View, sh: Shape, it: Node)
    requires sh.kids == [] && sh.node in v && it in v && it != sh.node
    requires w == v[sh.node := v[sh.node].(child := it)][it := v[it].(parent := sh.node)]
    ensures Hung(v, w, sh, it)
  {}

  // ---------------------------------------------------------------- deleting

  /** The nodes of a tree, each behind those below it: the order in which they are freed. */
  function PostOrder(sh: Shape): seq<Node> {
    PostOrderAll(sh.kids) + [sh.node]
  }

  function PostOrderAll(kids: seq<Shape>): seq<Node>
    decreases kids
  {
    if kids == [] then [] else PostOrderAll(kids[..|kids| - 1]) + PostOrder(kids[|kids| - 1])
  }

  lemma PostOrderMore(kids: seq<Shape>, j: nat)
    requires j < |kids|
    ensures PostOrderAll(kids[..j + 1]) == PostOrderAll(kids[..j]) + PostOrder(kids[j])
  {
    assert kids[..j + 1][..j] == kids[..j];
  }

  /** The place a node has under its parent, if it has one. */
  datatype Place = Loose | Under(up: Shape, k: nat)

  predicate Placed(sh: Shape, place: Place) {
    match place
    case Loose => true
    case Under(up, k) => k < |up.kids| && up.kids[k] == sh
  }

  ghost function Around(place: Place): set<Node> {
    match place
    case Loose => {}
    case Under(up, _) => Nodes(up)
  }

  /** Frees the tree from below and takes its root out of its place. */
  method DeleteTree(root: Node, ghost sh: Shape, ghost place: Place) returns (ghost freed: seq<Node>)
    requires Laid(sh) && Apart(sh) && sh.node == root && Placed(sh, place)
    requires place.Loose? ==> root.prev == null && root.parent == null
    requires place.Under? ==> Laid(place.up) && Apart(place.up)
    modifies Nodes(sh), Around(place)
    ensures freed == PostOrder(sh)
    ensures place.Under? ==> var rest := WithKids(place.up, Removed(place.up.kids, place.k));
      Laid(rest) && Apart(rest) && Links(place.up.node) == old(Links(place.up.node))
    decreases sh
  {
    hide Inside, Apart, Nodes, PostOrderAll;
    Start(sh);
    OwnNode(sh);
    ghost var v := Memory(Around(place));
    if place.Under? {
      KidLaid(place.up, place.k);
      KidNodes(place.up, place.k);
    }
    freed := DeleteKids(root, sh);
    Unlink(root, place, v);
    if place.Under? {
      RemovedApart(place.up, place.k);
      TakenOut(v, Memory(Nodes(place.up)), place.up, place.k);
      LaidIf(Nodes(place.up), WithKids(place.up, Removed(place.up.kids, place.k)));
    }
    freed := freed + [root];
  }

  /** Outside child `k` memory is still as in `v`, and the child's own links stand. */
  ghost predicate Ready(root: Node, place: Place, v: View)
    reads root, Around(place)
  {
    match place
    case Loose => root.prev == null && root.parent == null
    case Under(up, k) =>
      && k < |up.kids| && up.kids[k].node == root && Inside(v, up) && Apart(up) && v.Keys == Nodes(up)
      && Links(root) == (up.node, NodeAt(up.kids, k - 1), NodeAt(up.kids, k + 1))
      && forall x :: x in Nodes(up) && x !in Nodes(up.kids[k]) ==> CellOf(x) == v[x]
  }

  lemma Neighbours(v: View, up: Shape, k: nat)
    requires Inside(v, up) && Apart(up) && k < |up.kids|
    ensures var p, n := NodeAt(up.kids, k - 1), NodeAt(up.kids, k + 1);
      && up.node in v && up.node !in Nodes(up.kids[k]) && up.node != p && up.node != n && (p != null ==> p != n)
      && (p != null ==> p in v && p !in Nodes(up.kids[k])) && (n != null ==> n in v && n !in Nodes(up.kids[k]))
      && (p != null ==> p in Nodes(up)) && (n != null ==> n in Nodes(up)) && v[up.node].child == NodeAt(up.kids, 0)
  {
    hide Inside, Apart, Nodes;
    RootIn(v, up);
    PairApart(up, k, k);
    if k > 0 {
      KidIn(v, up, k - 1);
      PairApart(up, k - 1, k);
      KidNodes(up, k - 1);
      PairApart(up, k - 1, k - 1);
    }
    if k + 1 < |up.kids| {
      KidIn(v, up, k + 1);
      PairApart(up, k + 1, k);
      KidNodes(up, k + 1);
      PairApart(up, k + 1, k + 1);
      if k > 0 {
        PairApart(up, k - 1, k + 1);
      }
    }
  }

  method Unlink(root: Node, ghost place: Place, ghost v: View)
    requires Ready(root, place, v)
    modifies Around(place)
    ensures place.Under? ==>
      Out(v, Memory(Nodes(place.up)), place.up, place.k) && Links(place.up.node) == old(Links(place.up.node))
  {
    hide Inside, Apart, Nodes;
    if place.Under? {
      Neighbours(v, place.up, place.k);
      OwnNode(place.up);
    }
    if root.prev != null {
      root.prev.next := root.next;
      if root.next != null {
        root.next.prev := root.prev;
      }
    } else if root.parent != null {
      root.parent.child := root.next;
      if root.next != null {
        root.next.prev := null;
      }
    }
  }

  /** A node's own place. */
  function Links(x: Node): (Node?, Node?, Node?)
    reads x
  {
    (x.parent, x.prev, x.next)
  }

  /** `while(root->child) xml_delete_tree(root->child)` */
  method DeleteKids(root: Node, ghost sh: Shape) returns (ghost freed: seq<Node>)
    requires Laid(sh) && Apart(sh) && sh.node == root
    modifies Nodes(sh)
    ensures freed == PostOrderAll(sh.kids) && root.child == null && Links(root) == old(Links(root))
      && DataOf(root) == sh.data
    decreases sh, 0
  {
    hide Inside, Apart, Nodes, PostOrder;
    freed := [];
    Start(sh);
    ghost var cur, j: nat := sh, 0;
    assert sh.kids[0..] == sh.kids && sh.kids[..0] == [];
    while root.child != null
      invariant Laid(cur) && Apart(cur) && j <= |sh.kids| && cur == WithKids(sh, sh.kids[j..])
        && root.child == NodeAt(cur.kids, 0)
      invariant Nodes(cur) <= Nodes(sh) && Links(root) == old(Links(root)) && DataOf(root) == sh.data
      invariant freed == PostOrderAll(sh.kids[..j])
      decreases |sh.kids| - j
    {
      KidLaid(cur, 0);
      PairApart(cur, 0, 0);
      KidNodes(cur, 0);
      RemovedApart(cur, 0);
      PostOrderMore(sh.kids, j);
      assert sh.kids[j..][0] == sh.kids[j] && sh.kids[j..][1..] == sh.kids[j + 1..];
      assert Removed(cur.kids, 0) == cur.kids[1..];
      ghost var more := DeleteTree(root.child, cur.kids[0], Under(cur, 0));
      freed := freed + more;
      j := j + 1;
      cur := WithKids(sh, sh.kids[j..]);
      Start(cur);
    }
    assert sh.kids[..j] == sh.kids;
  }

  // ---------------------------------------------------------------- each node is freed once

  ghost predicate Once(s: seq<Node>) {
    forall i, j :: 0 <= i < j < |s| ==> s[i] != s[j]
  }

  ghost predicate Lists(s: seq<Node>, nodes: set<Node>) {
    Once(s) && (forall x :: x in s ==> x in nodes) && (forall x :: x in nodes ==> x in s)
  }

  lemma ListsBoth(a: seq<Node>, b: seq<Node>, m: set<Node>, n: set<Node>)
    requires Lists(a, m) && Lists(b, n) && m !! n
    ensures Lists(a + b, m + n)
  {
    var s := a + b;
    forall i, j | 0 <= i < j < |s| ensures s[i] != s[j] {
      assert s[i] in m <==> i < |a| by { assert if i < |a| then s[i] in a else s[i] in b; }
      assert s[j] in m <==> j < |a| by { assert if j < |a| then s[j] in a else s[j] in b; }
    }
  }

  /** Deleting a tree frees every node of it, and none twice. */
  lemma {:induction false} FreedOnce(sh: Shape)
    requires Apart(sh)
    ensures Lists(PostOrder(sh), Nodes(sh))
    decreases sh, 1
  {
    FreedAllOnce(sh.kids);
    assert Lists([sh.node], {sh.node});
    ListsBoth(PostOrderAll(sh.kids), [sh.node], NodesOf(sh.kids), {sh.node});
    assert NodesOf(sh.kids) + {sh.node} == Nodes(sh);
  }

  lemma {:induction false} FreedAllOnce(kids: seq<Shape>)
    requires AllApart(kids)
    ensures Lists(PostOrderAll(kids), NodesOf(kids))
    decreases kids, 0
  {
    hide Apart, Nodes, PostOrder;
    if kids == [] {
      assert NodesOf(kids) == {};
    } else {
      var front, last := kids[..|kids| - 1], kids[|kids| - 1];
      FrontApart(kids);
      FreedAllOnce(front);
      FreedOnce(last);
      ListsBoth(PostOrderAll(front), PostOrder(last), NodesOf(front), Nodes(last));
    }
  }

  lemma FrontApart(kids: seq<Shape>)
    requires AllApart(kids) && kids != []
    ensures AllApart(kids[..|kids| - 1]) && Apart(kids[|kids| - 1])
    ensures NodesOf(kids[..|kids| - 1]) !! Nodes(kids[|kids| - 1])
    ensures NodesOf(kids) == NodesOf(kids[..|kids| - 1]) + Nodes(kids[|kids| - 1])
  {
    hide Apart, Nodes;
    var front := kids[..|kids| - 1];
    forall x | x in NodesOf(front) ensures x in NodesOf(kids) && x !in Nodes(kids[|kids| - 1]) {
      var i: nat :| i < |front| && x in Nodes(front[i]);
      assert front[i] == kids[i];
    }
    forall x | x in NodesOf(kids) ensures x in NodesOf(front) || x in Nodes(kids[|kids| - 1]) {
      var i: nat :| i < |kids| && x in Nodes(kids[i]);
      assert i < |front| ==> front[i] == kids[i];
    }
    forall x | x in Nodes(kids[|kids| - 1]) ensures x in NodesOf(kids) {}
  }
}
