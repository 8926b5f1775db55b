/** cJSON_Duplicate: a copy in fresh memory that differs in the reference flag only. */
module JsonDuplicate {
  import opened JsonTree
  import opened JsonList

  /** The tree with no item marked as a reference. */
  function Unflagged(t: Tree): Tree {
    Tree(Plain(t.data), seq(|t.kids|, i requires 0 <= i < |t.kids| => Unflagged(t.kids[i])))
  }

  function Plain(d: Data): Data {
    d.(isReference := false)
  }

  lemma UnflaggedIs(sh: Shape, copy: Shape)
    requires copy.data == Plain(sh.data) && |copy.kids| == |sh.kids|
    requires forall i :: 0 <= i < |sh.kids| ==> TreeOf(copy.kids[i]) == Unflagged(TreeOf(sh.kids[i]))
    ensures TreeOf(copy) == Unflagged(TreeOf(sh))
  {
    assert TreeOf(copy).kids == Unflagged(TreeOf(sh)).kids;
  }

  lemma LaidAlone(node: Item, data: Data)
    requires DataOf(node) == data && node.child == null
    ensures Laid(Shape(node, data, [])) && Apart(Shape(node, data, [])) && Nodes(Shape(node, data, [])) == {node}
  {}

  /** Links a finished copy behind the last one, or as the first. */
  method Adopt(newitem: Item, nptr: Item?, newchild: Item, ghost cur: Shape, ghost kid: Shape)
    requires Laid(cur) && Apart(cur) && cur.node == newitem && Laid(kid) && Apart(kid) && kid.node == newchild
    requires Nodes(cur) !! Nodes(kid) && newchild.next == null && newchild.prev == null
    requires nptr == NodeAt(cur.kids, |cur.kids| - 1)
    modifies Nodes(cur), Nodes(kid)
    ensures Laid(WithKids(cur, cur.kids + [kid])) && Apart(WithKids(cur, cur.kids + [kid]))
    ensures newitem.next == old(newitem.next) && newitem.prev == old(newitem.prev)
  {
    hide Inside, Apart, Nodes, Appended;
    ghost var s := Nodes(cur) + Nodes(kid);
    ghost var v := Memory(s);
    InsideIf(s, cur);
    InsideIf(s, kid);
    RootIn(v, cur);
    RootIn(v, kid);
    OwnNode(cur);
    OwnNode(kid);
    Append(v, cur, kid);
    AppendedIs(v, cur, newchild);
    GrownNodes(cur, kid);
    if nptr != null {
      Walk(cur, |cur.kids| - 1);
      RootsDiffer(cur, kid, |cur.kids| - 1);
      HeadsDiffer(cur, |cur.kids| - 1, |cur.kids| - 1);
      nptr.next, newchild.prev := newchild, nptr;
      IsNow(s, Prev(Next(v, nptr, newchild), newchild, nptr));
    } else {
      newitem.child := newchild;
      IsNow(s, Child(v, newitem, newchild));
    }
    LaidIf(s, WithKids(cur, cur.kids + [kid]));
  }

  /** A new item with the fields of another, but for the flag. */
  method CopyFields(item: Item, ghost sh: Shape) returns (newitem: Item, ghost copy: Shape)
    requires Laid(sh) && sh.node == item
    ensures fresh(newitem) && newitem.next == null && newitem.prev == null
    ensures copy == Shape(newitem, Plain(sh.data), []) && Laid(copy) && Apart(copy) && Nodes(copy) == {newitem}
    ensures Laid(sh)
  {
    hide Inside, Apart, Nodes;
    Start(sh);
    AllAllocated(sh);
    newitem := new Item();
    newitem.kind, newitem.isReference := item.kind, false;
    newitem.valueint, newitem.valuedouble := item.valueint, item.valuedouble;
    newitem.valuestring, newitem.name := item.valuestring, item.name;
    copy := Shape(newitem, Plain(sh.data), []);
    LaidAlone(newitem, copy.data);
  }

  method Duplicate(item: Item?, recurse: bool, ghost sh: Shape) returns (newitem: Item?, ghost copy: Shape)
    requires item != null ==> Laid(sh) && sh.node == item
    ensures item == null <==> newitem == null
    ensures item != null ==> copy.node == newitem && Laid(copy) && Apart(copy) && fresh(Nodes(copy)) && Laid(sh)
    ensures item != null ==> newitem.next == null && newitem.prev == null
    ensures item != null ==> TreeOf(copy) == if recurse then Unflagged(TreeOf(sh)) else Tree(Plain(sh.data), [])
    decreases sh, 0
  {
    hide Inside, Apart, Nodes, TreeOf, Unflagged;
    copy := sh;
    if item == null {
      return null, copy;
    }
    AllAllocated(sh);
    newitem, copy := CopyFields(item, sh);
    if !recurse {
      TreeAlone(copy);
      return;
    }
    Start(sh);
    var cptr, nptr: Item? := item.child, null;
    ghost var i: nat := 0;
    while cptr != null
      invariant i <= |sh.kids| && cptr == NodeAt(sh.kids, i) && Laid(sh)
      invariant copy.node == newitem && copy.data == Plain(sh.data) && |copy.kids| == i
        && nptr == NodeAt(copy.kids, i - 1)
      invariant Laid(copy) && Apart(copy) && fresh(Nodes(copy)) && newitem.next == null && newitem.prev == null
      invariant forall j :: 0 <= j < i ==> TreeOf(copy.kids[j]) == Unflagged(TreeOf(sh.kids[j]))
      decreases |sh.kids| - i
    {
      cptr, nptr, copy := DuplicateChild(cptr, newitem, nptr, sh, i, sh.kids[i], copy);
      i := i + 1;
    }
    UnflaggedIs(sh, copy);
  }

  /** One turn of the loop: the next child is copied and linked behind the last copy. */
  method DuplicateChild(cptr: Item, newitem: Item, nptr: Item?, ghost sh: Shape, ghost i: nat, ghost from: Shape,
                        ghost cur: Shape)
    returns (next: Item?, newchild: Item, ghost copy: Shape)
    requires Laid(sh) && i < |sh.kids| && from == sh.kids[i] && cptr == from.node
    requires Laid(cur) && Apart(cur) && cur.node == newitem && newitem.next == null && newitem.prev == null
    requires nptr == NodeAt(cur.kids, |cur.kids| - 1) && Nodes(cur) !! Nodes(sh)
    modifies Nodes(cur)
    ensures Laid(sh) && next == NodeAt(sh.kids, i + 1)
    ensures |copy.kids| == |cur.kids| + 1 && copy == WithKids(cur, cur.kids + [copy.kids[|cur.kids|]])
      && newchild == copy.kids[|cur.kids|].node
    ensures Laid(copy) && Apart(copy) && newitem.next == null && newitem.prev == null
    ensures forall x :: x in Nodes(copy) ==> x in Nodes(cur) || fresh(x)
    ensures TreeOf(copy.kids[|cur.kids|]) == Unflagged(TreeOf(from))
    decreases from, 1
  {
    hide Inside, Apart, Nodes, TreeOf, Unflagged;
    Walk(sh, i);
    KidLaid(sh, i);
    AllAllocated(sh);
    AllAllocated(cur);
    ghost var kid;
    newchild, kid := Duplicate(cptr, true, from);
    AllAllocated(kid);
    GrownNodes(cur, kid);
    Adopt(newitem, nptr, newchild, cur, kid);
    copy := WithKids(cur, cur.kids + [kid]);
    Walk(sh, i);
    next := cptr.next;
  }

  lemma TreeAlone(sh: Shape)
    requires sh.kids == []
    ensures TreeOf(sh) == Tree(sh.data, [])
  {}
}
