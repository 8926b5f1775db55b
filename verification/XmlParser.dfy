/** The parser of xml.c as it runs: a cursor over the text, the searches it makes, and nodes that are
    hung under their parent before they are filled. */
module XmlParser {
  import opened CText
  import opened XmlText
  import opened XmlTree
  import opened XmlEdit

  // ---------------------------------------------------------------- searches

  lemma FrontChar(s: string, i: nat)
    requires i < |s|
    ensures s[i..] != "" && s[i..][0] == s[i] && s[i..][1..] == s[i + 1..]
  {}

  lemma NotPrefix(pat: string, s: string, i: nat)
    requires i < |pat| && (i < |s| ==> s[i] != pat[i])
    ensures !(pat <= s)
  {}

  /** How much of the pattern stands at the start of a text, a character at a time. */
  method Compare(s: string, at: nat, pat: string) returns (same: bool)
    requires at <= |s| && NoNul(s) && NoNul(pat)
    ensures same <==> pat <= s[at..]
  {
    var i := 0;
    while true
      invariant i <= |pat| && at + i <= |s| && pat[..i] == s[at..at + i]
      decreases |pat| - i
    {
      if At(pat, i) == '\0' {
        assert pat[..i] == pat && s[at..][..i] == s[at..at + i];
        return true;
      }
      if At(s, at + i) != At(pat, i) {
        assert at + i < |s| ==> s[at..][i] == s[at + i];
        if i < |pat| {
          NotPrefix(pat, s[at..], i);
        }
        return false;
      }
      i := i + 1;
    }
  }

  /** xml_strstr: where the pattern first stands. */
  method XmlStrStr(s: string, pat: string) returns (r: Option<nat>)
    requires NoNul(s) && NoNul(pat)
    ensures r == StrStr(s, pat)
  {
    if At(pat, 0) == '\0' {
      assert pat == "";
      return Some(0);
    }
    var p := 0;
    assert s[0..] == s;
    while At(s, p) != '\0'
      invariant p <= |s| && StrStr(s, pat) == match StrStr(s[p..], pat) case None => None case Some(i) => Some(p + i)
      decreases |s| - p
    {
      FrontChar(s, p);
      if At(s, p) == At(pat, 0) {
        var same := Compare(s, p, pat);
        if same {
          return Some(p);
        }
      } else {
        NotPrefix(pat, s[p..], 0);
      }
      p := p + 1;
    }
    r := None;
  }

  lemma {:induction false} TrimFrontIs(s: string, n: nat)
    requires n <= |s| && (forall i :: 0 <= i < n ==> s[i] == ' ') && (n < |s| ==> s[n] != ' ')
    ensures TrimFront(s) == s[n..]
  {
    if n > 0 {
      TrimFrontIs(s[1..], n - 1);
      assert s[1..][n - 1..] == s[n..];
    }
  }

  lemma {:induction false} TrimRearIs(s: string, n: nat)
    requires n <= |s| && (forall i :: n <= i < |s| ==> s[i] == ' ') && (n > 0 ==> s[n - 1] != ' ')
    ensures TrimRear(s) == s[..n]
  {
    if n < |s| {
      TrimRearIs(s[..|s| - 1], n);
      assert s[..|s| - 1][..n] == s[..n];
    } else {
      assert s[..n] == s;
    }
  }

  /** str_strip: one loop from each end. */
  method StripLoops(s: string) returns (r: Option<string>)
    ensures r == StrStrip(s)
  {
    if |s| == 0 {
      return None;
    }
    var front := 0;
    while front < |s| && s[front] == ' '
      invariant front <= |s| && forall i :: 0 <= i < front ==> s[i] == ' '
    {
      front := front + 1;
    }
    TrimFrontIs(s, front);
    if front == |s| {
      return None;
    }
    var rear := |s| - 1;
    while rear >= front && s[rear] == ' '
      invariant front <= rear < |s| && forall i :: rear < i < |s| ==> s[i] == ' '
      decreases rear
    {
      rear := rear - 1;
    }
    var t := s[front..];
    TrimRearIs(t, rear + 1 - front);
    assert t[..rear + 1 - front] == s[front..rear + 1];
    r := Some(s[front..rear + 1]);
  }

  /** Where the content of an element ends. */
  method FindEndTag(doc: string, q: string) returns (r: Option<nat>)
    requires NoNul(doc) && NoNul(q)
    ensures r == FindEnd(doc, q)
  {
    r := XmlStrStr(doc, EndTag(q));
    if r.None? {
      r := XmlStrStr(doc, "</" + q + " ");
    }
  }

  // ---------------------------------------------------------------- what a node stands for

  /** The node, with its children, stands for the tree. */
  ghost predicate Stands(sh: Shape, t: Xml)
    decreases t
  {
    match t
    case Text(text) => sh.data == Data(None, Some(text), None, None, None) && sh.kids == []
    case Elem(prefix, name, uri, attr, kids) =>
      && sh.data == Data(Some(name), None, prefix, uri, attr) && |sh.kids| == |kids|
      && forall i: nat :: i < |kids| ==> Stands(sh.kids[i], kids[i])
  }

  ghost predicate AllStand(kids: seq<Shape>, ts: seq<Xml>) {
    |kids| == |ts| && forall i: nat :: i < |ts| ==> Stands(kids[i], ts[i])
  }

  /** What the rest of a text adds to the children there are. */
  function Then(done: seq<Xml>, more: Outcome<seq<Xml>>): Outcome<seq<Xml>> {
    match more
    case Done(ts) => Done(done + ts)
    case Undefined => Undefined
  }

  lemma ThenOne(done: seq<Xml>, t: Xml, more: Outcome<seq<Xml>>)
    ensures Then(done, Prepend(t, more)) == Then(done + [t], more)
  {
    if more.Done? {
      assert done + ([t] + more.value) == (done + [t]) + more.value;
    }
  }

  function Element(tag: Tag, kids: seq<Xml>): Xml {
    Elem(tag.prefix, tag.name, tag.uri, tag.attr, kids)
  }

  // One round of the loop, on the text that is left.

  lemma RoundText(s: string, some: bool)
    requires s != "" && NextTag(s) == Done(None)
    ensures ParseKids(s, some) == Done(if some then [] else [Text(s)])
  {
    hide NextTag;
  }

  lemma RoundEmpty(s: string, some: bool, f: Front)
    requires s != "" && NextTag(s) == Done(Some(f)) && f.empty
    ensures ParseKids(s, some) == Prepend(Element(f.tag, []), ParseKids(f.rest, true))
  {
    hide NextTag;
  }

  lemma RoundSkip(s: string, some: bool, f: Front)
    requires s != "" && NextTag(s) == Done(Some(f)) && !f.empty
      && FindEnd(f.rest, QName(f.tag.prefix, f.tag.name)) == None
    ensures ParseKids(s, some) == ParseKids(f.rest, some)
  {
    hide NextTag, FindEnd, QName;
  }

  lemma RoundFull(s: string, some: bool, f: Front, e: nat)
    requires s != "" && NextTag(s) == Done(Some(f)) && !f.empty
      && FindEnd(f.rest, QName(f.tag.prefix, f.tag.name)) == Some(e)
    requires ParseKids(s, some).Done?
    ensures e < |f.rest| && ParseKids(f.rest[..e], false).Done? && StrChr(f.rest[e..], '>').Some?
    ensures ParseKids(s, some)
      == Prepend(Element(f.tag, ParseKids(f.rest[..e], false).value),
        ParseKids(f.rest[e..][StrChr(f.rest[e..], '>').value + 1..], true))
  {
    hide NextTag, FindEnd, QName, StrChr;
  }

  // ---------------------------------------------------------------- nodes

  method NewElement(tag: Tag) returns (node: Node, ghost sh: Shape)
    ensures fresh(node) && node.parent == null && node.prev == null && node.next == null
    ensures sh == Shape(node, Data(Some(tag.name), None, tag.prefix, tag.uri, tag.attr), []) && Laid(sh) && Apart(sh)
      && Nodes(sh) == {node}
  {
    node := new Node();
    node.name, node.prefix, node.uri, node.attr := Some(tag.name), tag.prefix, tag.uri, tag.attr;
    sh := Shape(node, DataOf(node), []);
  }

  method NewText(text: string) returns (node: Node, ghost sh: Shape)
    ensures fresh(node) && node.parent == null && node.prev == null && node.next == null
    ensures sh == Shape(node, Data(None, Some(text), None, None, None), []) && Laid(sh) && Apart(sh)
      && Nodes(sh) == {node}
  {
    node := new Node();
    node.text := Some(text);
    sh := Shape(node, DataOf(node), []);
  }

  /** The last child is filled while it hangs in its place. */
  lemma FilledBelow(v: View, w: View, cur: Shape, kid: Shape)
    requires Inside(v, cur) && Apart(cur) && cur.kids != [] && Inside(w, kid) && Apart(kid)
    requires var old_ := cur.kids[|cur.kids| - 1];
      && kid.node == old_.node && kid.data == old_.data
      && (forall x :: x in Nodes(cur) && x !in Nodes(old_) && x in v ==> x in w && w[x] == v[x] && x !in Nodes(kid))
      && kid.node in v && kid.node in w && w[kid.node].next == v[kid.node].next && w[kid.node].prev == v[kid.node].prev
      && w[kid.node].parent == v[kid.node].parent
    ensures var kids := cur.kids[|cur.kids| - 1 := kid];
      Inside(w, WithKids(cur, kids)) && Apart(WithKids(cur, kids))
        && Nodes(WithKids(cur, kids)) <= Nodes(cur) + Nodes(kid)
  {
    hide Inside, Apart, Nodes, NodesOf;
    var n, kids := |cur.kids| - 1, cur.kids[|cur.kids| - 1 := kid];
    var filled := WithKids(cur, kids);
    RootIn(v, cur);
    OwnNode(cur);
    PairApart(cur, n, n);
    forall i: nat | i < |kids|
      ensures Chained(w, cur.node, kids, i) && Inside(w, kids[i]) && Apart(kids[i])
      ensures cur.node !in Nodes(kids[i]) && Nodes(kids[i]) <= Nodes(cur) + Nodes(kid)
      ensures i != n ==> Nodes(kids[i]) !! Nodes(kid)
    {
      KidIn(v, cur, i);
      PairApart(cur, i, n);
      KidNodes(cur, i);
      if i != n {
        UnderKid(cur, i);
        NodesKnown(v, cur, i);
        Steady(v, w, cur.kids[i]);
      }
    }
    forall i: nat, j: nat | i < |kids| && j < |kids| && i != j ensures Nodes(kids[i]) !! Nodes(kids[j]) {
      PairApart(cur, i, j);
    }
    InsideBy(w, filled);
    ApartIf(filled);
    WithKidsNodes(cur, kids, Nodes(cur) + Nodes(kid));
  }

  /** The picture shows every node of a tree it holds. */
  lemma {:induction false} AllKnown(v: View, sh: Shape)
    requires Inside(v, sh)
    ensures forall x :: x in Nodes(sh) ==> x in v
  {
    hide Inside, Nodes;
    RootIn(v, sh);
    forall i: nat | i < |sh.kids| ensures forall x :: x in Nodes(sh.kids[i]) ==> x in v {
      KidIn(v, sh, i);
      AllKnown(v, sh.kids[i]);
    }
    NodesSplit(sh);
  }

  lemma NodesSplit(sh: Shape)
    ensures forall x :: x in Nodes(sh) ==> x == sh.node || exists i: nat :: i < |sh.kids| && x in Nodes(sh.kids[i])
  {}

  lemma NodesKnown(v: View, sh: Shape, i: nat)
    requires Inside(v, sh) && i < |sh.kids|
    ensures forall x :: x in Nodes(sh.kids[i]) ==> x in v
  {
    AllKnown(v, sh.kids[i]);
  }

  // ---------------------------------------------------------------- the loop

  /** A text node below an element that has no child yet. */
  method AddText(root: Node, text: string, ghost cur: Shape, ghost done: seq<Xml>) returns (ghost next: Shape)
    requires Laid(cur) && Apart(cur) && cur.node == root && IsElement(cur.data) && AllStand(cur.kids, done)
    modifies Nodes(cur)
    ensures Laid(next) && Apart(next) && next.node == root && next.data == cur.data
      && AllStand(next.kids, done + [Text(text)])
    ensures Links(root) == old(Links(root)) && forall x :: x in Nodes(next) ==> x in Nodes(cur) || fresh(x)
  {
    hide Inside, Apart, Nodes, Stands;
    AllAllocated(cur);
    ghost var it;
    var node;
    node, it := NewText(text);
    AddChild(root, node, cur, it);
    next := WithKids(cur, cur.kids + [it]);
    GrownApart(cur, it);
    TextStands(it, text);
  }

  lemma TextStands(it: Shape, text: string)
    requires it.data == Data(None, Some(text), None, None, None) && it.kids == []
    ensures Stands(it, Text(text))
  {}

  lemma EmptyStands(it: Shape, tag: Tag)
    requires it.data == Data(Some(tag.name), None, tag.prefix, tag.uri, tag.attr) && it.kids == []
    ensures Stands(it, Element(tag, []))
  {}

  lemma ElementStands(it: Shape, tag: Tag, kids: seq<Xml>)
    requires it.data == Data(Some(tag.name), None, tag.prefix, tag.uri, tag.attr) && AllStand(it.kids, kids)
    ensures Stands(it, Element(tag, kids))
  {}

  /** A new element, hung behind the children there are. */
  method HangElement(root: Node, tag: Tag, ghost cur: Shape) returns (node: Node, ghost it: Shape, ghost hung: Shape)
    requires Laid(cur) && Apart(cur) && cur.node == root && IsElement(cur.data)
    modifies Nodes(cur)
    ensures it == Shape(node, Data(Some(tag.name), None, tag.prefix, tag.uri, tag.attr), []) && Nodes(it) == {node}
      && fresh(node)
    ensures hung == WithKids(cur, cur.kids + [it]) && Laid(hung) && Apart(hung) && Laid(it) && Apart(it)
    ensures Links(root) == old(Links(root)) && forall x :: x in Nodes(hung) ==> x in Nodes(cur) || fresh(x)
  {
    hide Inside, Apart, Nodes;
    AllAllocated(cur);
    node, it := NewElement(tag);
    AddChild(root, node, cur, it);
    hung := WithKids(cur, cur.kids + [it]);
    GrownApart(cur, it);
    KidLaid(hung, |cur.kids|);
    PairApart(hung, |cur.kids|, |cur.kids|);
  }

  /** An element without content. */
  method AddEmpty(root: Node, tag: Tag, ghost cur: Shape, ghost done: seq<Xml>) returns (ghost next: Shape)
    requires Laid(cur) && Apart(cur) && cur.node == root && IsElement(cur.data) && AllStand(cur.kids, done)
    modifies Nodes(cur)
    ensures Laid(next) && Apart(next) && next.node == root && next.data == cur.data
      && AllStand(next.kids, done + [Element(tag, [])])
    ensures Links(root) == old(Links(root)) && forall x :: x in Nodes(next) ==> x in Nodes(cur) || fresh(x)
  {
    hide Inside, Apart, Nodes, Stands, Element;
    ghost var it;
    var node;
    node, it, next := HangElement(root, tag, cur);
    EmptyStands(it, tag);
  }

  /** An element with content: hung under its parent first, then filled from its own text. */
  method AddFull(root: Node, tag: Tag, inner: string, ghost cur: Shape, ghost done: seq<Xml>, ghost kids: seq<Xml>)
    returns (ghost next: Shape)
    requires Laid(cur) && Apart(cur) && cur.node == root && IsElement(cur.data) && AllStand(cur.kids, done)
    requires NoNul(inner) && ParseKids(inner, false) == Done(kids)
    modifies Nodes(cur)
    ensures Laid(next) && Apart(next) && next.node == root && next.data == cur.data
      && AllStand(next.kids, done + [Element(tag, kids)])
    ensures Links(root) == old(Links(root)) && forall x :: x in Nodes(next) ==> x in Nodes(cur) || fresh(x)
    decreases |inner|, 4
  {
    hide Inside, Apart, Nodes, Stands, Element, ParseKids;
    ghost var it, hung;
    var node;
    node, it, hung := HangElement(root, tag, cur);
    next := FillLast(root, node, inner, hung, it, kids);
    ElementStands(next.kids[|cur.kids|], tag, kids);
  }

  /** Fills the last child where it hangs. */
  method FillLast(root: Node, node: Node, inner: string, ghost hung: Shape, ghost it: Shape, ghost kids: seq<Xml>)
    returns (ghost next: Shape)
    requires Laid(hung) && Apart(hung) && hung.node == root && hung.kids != [] && hung.kids[|hung.kids| - 1] == it
    requires Laid(it) && Apart(it) && it.node == node && IsElement(it.data) && it.kids == [] && Nodes(it) == {node}
    requires NoNul(inner) && ParseKids(inner, false) == Done(kids)
    modifies node
    ensures |next.kids| == |hung.kids|
      && next == WithKids(hung, hung.kids[|hung.kids| - 1 := next.kids[|hung.kids| - 1]])
    ensures Laid(next) && Apart(next) && AllStand(next.kids[|hung.kids| - 1].kids, kids)
      && next.kids[|hung.kids| - 1].data == it.data
    ensures Links(root) == old(Links(root)) && forall x :: x in Nodes(next) ==> x in Nodes(hung) || fresh(x)
    decreases |inner|, 3
  {
    hide Inside, Apart, Nodes, Stands, ParseKids;
    ghost var s := Nodes(hung);
    ghost var v := Memory(s);
    AllAllocated(hung);
    KidNodes(hung, |hung.kids| - 1);
    PairApart(hung, |hung.kids| - 1, |hung.kids| - 1);
    OwnNode(hung);
    ghost var filled := ParseKidsInto(node, inner, it, kids);
    AllAllocated(filled);
    ghost var all := s + Nodes(filled);
    InsideIf(all, filled);
    OwnNode(filled);
    FilledBelow(v, Memory(all), hung, filled);
    next := WithKids(hung, hung.kids[|hung.kids| - 1 := filled]);
    LaidIf(all, next);
  }

  /** Adds the children that the text describes to a node that has none. */
  method ParseKidsInto(root: Node, doc: string, ghost sh: Shape, ghost ts: seq<Xml>) returns (ghost cur: Shape)
    requires Laid(sh) && Apart(sh) && sh.node == root && IsElement(sh.data) && sh.kids == []
    requires NoNul(doc) && ParseKids(doc, false) == Done(ts)
    modifies Nodes(sh)
    ensures Laid(cur) && Apart(cur) && cur.node == root && cur.data == sh.data && AllStand(cur.kids, ts)
    ensures Links(root) == old(Links(root)) && forall x :: x in Nodes(cur) ==> x in Nodes(sh) || fresh(x)
    decreases |doc|, 2
  {
    hide Inside, Apart, Nodes, Stands, ParseKids, NextTag, FindEnd;
    cur := sh;
    ghost var done: seq<Xml> := [];
    var p := 0;
    assert doc[0..] == doc && [] + ts == ts;
    while p < |doc|
      invariant p <= |doc| && Laid(cur) && Apart(cur) && cur.node == root && cur.data == sh.data
        && AllStand(cur.kids, done)
      invariant Then(done, ParseKids(doc[p..], cur.kids != [])) == Done(ts)
      invariant Links(root) == old(Links(root)) && forall x :: x in Nodes(cur) ==> x in Nodes(sh) || fresh(x)
      decreases |doc| - p
    {
      p, cur, done := Turn(root, doc, p, cur, done, ts);
    }
    assert doc[p..] == "";
    NoMore(cur.kids != []);
    assert done + [] == done;
  }

  lemma NoMore(some: bool)
    ensures ParseKids("", some) == Done([])
  {}

  lemma {:induction false} TrimNoNul(s: string)
    requires NoNul(s)
    ensures NoNul(TrimFront(s)) && NoNul(TrimRear(s))
  {
    if s != "" {
      TrimNoNul(s[1..]);
      TrimNoNul(s[..|s| - 1]);
    }
  }

  lemma StripNoNul(s: string)
    requires NoNul(s)
    ensures StrStrip(s).Some? ==> NoNul(StrStrip(s).value)
  {
    TrimNoNul(s);
    TrimNoNul(TrimFront(s));
  }

  lemma NameNoNul(s: string)
    requires NoNul(s)
    ensures NameAndAttr(s).0.Some? ==> NoNul(NameAndAttr(s).0.value)
  {
    hide StrChr, StrStrip;
    if StrChr(s, ' ').Some? {
      StripNoNul(s[..StrChr(s, ' ').value]);
    } else {
      StripNoNul(s);
    }
  }

  lemma TagNoNul(t: string)
    requires NoNul(t) && ParseTag(t).Done?
    ensures NoNul(QName(ParseTag(t).value.prefix, ParseTag(t).value.name))
  {
    hide StrChr, StrStrip, TagUri, NameAndAttr, PrefixEnd;
    var c := PrefixEnd(t);
    if c.Some? {
      StripNoNul(t[..c.value]);
      NameNoNul(t[c.value + 1..]);
    } else {
      NameNoNul(t);
    }
  }

  /** What strchr finds of the next tag. */
  lemma NextTagIs(s: string)
    ensures StrChr(s, '<').None? ==> NextTag(s) == Done(None)
    ensures StrChr(s, '<').Some? ==>
      var t := s[StrChr(s, '<').value + 1..];
      && (StrChr(t, '>').None? ==> NextTag(s) == Done(None))
      && (StrChr(t, '>').Some? ==>
           var r := StrChr(t, '>').value;
           var empty := r > 0 && t[r - 1] == '/';
           var tag := ParseTag(if empty then t[..r - 1] else t[..r]);
           NextTag(s) == if tag.Undefined? then Undefined else Done(Some(Front(tag.value, empty, t[r + 1..]))))
  {
    hide StrChr, ParseTag;
  }

  lemma Defined(s: string, some: bool)
    requires s != "" && ParseKids(s, some).Done?
    ensures NextTag(s).Done?
  {
    hide NextTag, FindEnd, StrChr;
  }

  lemma ThenDone(done: seq<Xml>, more: Outcome<seq<Xml>>, ts: seq<Xml>)
    requires Then(done, more) == Done(ts)
    ensures more.Done?
  {}

  lemma SuffixOfSuffix(s: string, p: nat, i: nat)
    requires p + i <= |s|
    ensures s[p..][i..] == s[p + i..]
  {}

  /** No tag when a bracket is missing. */
  lemma NoTagAt(doc: string, p: nat, q: nat)
    requires p <= q <= |doc|
    requires if p == q then StrChr(doc[p..], '<') == None
      else StrChr(doc[p..], '<') == Some(q - p - 1) && StrChr(doc[q..], '>') == None
    ensures NextTag(doc[p..]) == Done(None)
  {
    hide NextTag, StrChr;
    NextTagIs(doc[p..]);
    SuffixOfSuffix(doc, p, q - p);
  }

  /** The text of the tag whose brackets stand in front of `q` and at `q + gt`. */
  function Between(doc: string, q: nat, gt: nat): string
    requires q + gt < |doc|
  {
    doc[q..if gt > 0 && doc[q + gt - 1] == '/' then q + gt - 1 else q + gt]
  }

  lemma BetweenIs(doc: string, q: nat, gt: nat)
    requires q + gt < |doc| && NoNul(doc)
    ensures var t := doc[q..];
      var empty := gt > 0 && t[gt - 1] == '/';
      && empty == (gt > 0 && doc[q + gt - 1] == '/')
      && Between(doc, q, gt) == (if empty then t[..gt - 1] else t[..gt]) && t[gt + 1..] == doc[q + gt + 1..]
      && NoNul(Between(doc, q, gt))
  {}

  lemma TagAt(doc: string, p: nat, q: nat, gt: nat)
    requires p < q <= |doc| && StrChr(doc[p..], '<') == Some(q - p - 1) && StrChr(doc[q..], '>') == Some(gt)
    requires NextTag(doc[p..]).Done? && NoNul(doc)
    ensures q + gt < |doc|
    ensures var tag := ParseTag(Between(doc, q, gt));
      && tag.Done?
      && NextTag(doc[p..]) == Done(Some(Front(tag.value, gt > 0 && doc[q + gt - 1] == '/', doc[q + gt + 1..])))
      && NoNul(QName(tag.value.prefix, tag.value.name))
  {
    hide NextTag, ParseTag, StrChr, QName, NoNul, Between;
    SuffixOfSuffix(doc, p, q - p);
    NextTagIs(doc[p..]);
    BetweenIs(doc, q, gt);
    TagNoNul(Between(doc, q, gt));
  }

  /** The next tag from the cursor on, and where the text behind it starts. */
  method FindTag(doc: string, p: nat) returns (found: bool, tag: Tag, empty: bool, docFront: nat)
    requires NoNul(doc) && p < |doc| && NextTag(doc[p..]).Done?
    ensures !found ==> NextTag(doc[p..]) == Done(None)
    ensures found ==> p < docFront <= |doc| && NextTag(doc[p..]) == Done(Some(Front(tag, empty, doc[docFront..])))
    ensures found ==> NoNul(QName(tag.prefix, tag.name))
  {
    hide NextTag, ParseTag, StrChr, QName, NoNul;
    found, tag, empty, docFront := false, Tag(None, "", None, None), false, p;
    var lt := StrChr(doc[p..], '<');
    if lt.None? {
      NoTagAt(doc, p, p);
    } else {
      var q := p + lt.value + 1;
      var gt := StrChr(doc[q..], '>');
      if gt.None? {
        NoTagAt(doc, p, q);
      } else {
        TagAt(doc, p, q, gt.value);
        found, empty := true, gt.value > 0 && doc[q + gt.value - 1] == '/';
        tag, docFront := ParseTag(Between(doc, q, gt.value)).value, q + gt.value + 1;
      }
    }
  }

  /** No more tags: the rest is text, if the element has no child yet. */
  method LastText(root: Node, s: string, ghost cur: Shape, ghost done: seq<Xml>, ghost ts: seq<Xml>)
    returns (ghost next: Shape, ghost done': seq<Xml>)
    requires Laid(cur) && Apart(cur) && cur.node == root && IsElement(cur.data) && AllStand(cur.kids, done) && s != ""
    requires Then(done, ParseKids(s, cur.kids != [])) == Done(ts) && NextTag(s) == Done(None)
    modifies Nodes(cur)
    ensures Laid(next) && Apart(next) && next.node == root && next.data == cur.data && AllStand(next.kids, done')
      && done' == ts
    ensures Links(root) == old(Links(root)) && forall x :: x in Nodes(next) ==> x in Nodes(cur) || fresh(x)
  {
    hide Inside, Apart, Nodes, Stands, ParseKids, NextTag;
    Start(cur);
    RoundText(s, cur.kids != []);
    next, done' := cur, done;
    assert done + [] == done;
    if root.child == null {
      next := AddText(root, s, cur, done);
      done' := done + [Text(s)];
    }
  }

  /** One round of the loop. */
  method Turn(root: Node, doc: string, p: nat, ghost cur: Shape, ghost done: seq<Xml>, ghost ts: seq<Xml>)
    returns (q: nat, ghost next: Shape, ghost done': seq<Xml>)
    requires NoNul(doc) && p < |doc|
    requires Laid(cur) && Apart(cur) && cur.node == root && IsElement(cur.data) && AllStand(cur.kids, done)
    requires Then(done, ParseKids(doc[p..], cur.kids != [])) == Done(ts)
    modifies Nodes(cur)
    ensures p < q <= |doc| && Laid(next) && Apart(next) && next.node == root && next.data == cur.data
      && AllStand(next.kids, done')
    ensures Then(done', ParseKids(doc[q..], next.kids != [])) == Done(ts)
    ensures Links(root) == old(Links(root)) && forall x :: x in Nodes(next) ==> x in Nodes(cur) || fresh(x)
    decreases |doc|, 1
  {
    hide Inside, Apart, Nodes, Stands, ParseKids, NextTag, FindEnd, Element, QName;
    var s := doc[p..];
    ThenDone(done, ParseKids(s, cur.kids != []), ts);
    Defined(s, cur.kids != []);
    AllAllocated(cur);
    var found, tag, empty, docFront := FindTag(doc, p);
    if found {
      q, next, done' := OneElement(root, doc, p, tag, empty, docFront, cur, done, ts);
    } else {
      q := |doc|;
      next, done' := LastText(root, s, cur, done, ts);
      assert doc[q..] == "";
      NoMore(next.kids != []);
      assert done' + [] == done';
    }
  }

  /** What the loop does with the tag it has found. */
  method OneElement(root: Node, doc: string, p: nat, tag: Tag, empty: bool, docFront: nat, ghost cur: Shape,
                    ghost done: seq<Xml>, ghost ts: seq<Xml>)
    returns (q: nat, ghost next: Shape, ghost done': seq<Xml>)
    requires NoNul(doc) && p < docFront <= |doc| && NextTag(doc[p..]) == Done(Some(Front(tag, empty, doc[docFront..])))
    requires Laid(cur) && Apart(cur) && cur.node == root && IsElement(cur.data) && AllStand(cur.kids, done)
    requires Then(done, ParseKids(doc[p..], cur.kids != [])) == Done(ts) && NoNul(QName(tag.prefix, tag.name))
    modifies Nodes(cur)
    ensures p < q <= |doc| && Laid(next) && Apart(next) && next.node == root && next.data == cur.data
      && AllStand(next.kids, done')
    ensures Then(done', ParseKids(doc[q..], next.kids != [])) == Done(ts)
    ensures Links(root) == old(Links(root)) && forall x :: x in Nodes(next) ==> x in Nodes(cur) || fresh(x)
    decreases |doc|, 0
  {
    hide Inside, Apart, Nodes, Stands, ParseKids, NextTag, FindEnd, Element, ParseTag, StrChr, QName;
    ghost var s, f := doc[p..], Front(tag, empty, doc[docFront..]);
    next, done', q := cur, done, docFront;
    ThenDone(done, ParseKids(s, cur.kids != []), ts);
    if empty {
      RoundEmpty(s, cur.kids != [], f);
      ThenOne(done, Element(tag, []), ParseKids(f.rest, true));
      next := AddEmpty(root, tag, cur, done);
      done' := done + [Element(tag, [])];
    } else {
      var rest := doc[docFront..];
      AllAllocated(cur);
      var rear := FindEndTag(rest, QName(tag.prefix, tag.name));
      if rear.Some? {
        var e := rear.value;
        RoundFull(s, cur.kids != [], f, e);
        var inner := rest[..e];
        ghost var kids := ParseKids(inner, false).value;
        var close := StrChr(rest[e..], '>').value;
        ThenOne(done, Element(tag, kids), ParseKids(rest[e..][close + 1..], true));
        next := AddFull(root, tag, inner, cur, done, kids);
        done' := done + [Element(tag, kids)];
        q := docFront + e + (close + 1);
        assert rest[e..][close + 1..] == doc[q..];
      } else {
        RoundSkip(s, cur.kids != [], f);
      }
    }
  }

  // ---------------------------------------------------------------- the root

  lemma RootNone(s: string)
    requires NextTag(s) == Done(None)
    ensures ParseRoot(s) == Done(None)
  {
    hide NextTag;
  }

  lemma RootSkip(s: string, f: Front)
    requires NextTag(s) == Done(Some(f)) && !f.empty && FindEnd(f.rest, QName(f.tag.prefix, f.tag.name)) == None
    ensures ParseRoot(s) == ParseRoot(f.rest)
  {
    hide NextTag, FindEnd, QName;
  }

  lemma RootEmpty(s: string, f: Front)
    requires NextTag(s) == Done(Some(f)) && f.empty
    ensures ParseRoot(s) == Done(Some(Element(f.tag, [])))
  {
    hide NextTag;
  }

  lemma RootFull(s: string, f: Front, e: nat)
    requires NextTag(s) == Done(Some(f)) && !f.empty && FindEnd(f.rest, QName(f.tag.prefix, f.tag.name)) == Some(e)
    requires ParseRoot(s).Done?
    ensures e < |f.rest| && ParseKids(f.rest[..e], false).Done?
    ensures ParseRoot(s) == Done(Some(Element(f.tag, ParseKids(f.rest[..e], false).value)))
  {
    hide NextTag, FindEnd, QName;
  }

  lemma RootDefined(s: string)
    requires ParseRoot(s).Done?
    ensures NextTag(s).Done?
  {
    hide NextTag, FindEnd;
  }

  /** A finished tree in memory. */
  ghost predicate Built(sh: Option<Shape>, root: Node?, t: Xml)
    reads if sh.Some? then Nodes(sh.value) else {}
  {
    sh.Some? && sh.value.node == root && Laid(sh.value) && Apart(sh.value) && Stands(sh.value, t)
  }

  /** The first element of a text, with all below it; none when the text holds no element. */
  method ParseDoc(doc: string) returns (root: Node?, ghost sh: Option<Shape>)
    requires NoNul(doc) && ParseRoot(doc).Done?
    ensures root == null <==> ParseRoot(doc).value.None?
    ensures root != null ==> Built(sh, root, ParseRoot(doc).value.value) && fresh(Nodes(sh.value))
    ensures root != null ==> root.parent == null && root.prev == null && root.next == null
  {
    hide Inside, Apart, Nodes, Stands, ParseKids, ParseRoot, NextTag, FindEnd, Element, ParseTag, StrChr, QName;
    ghost var whole := ParseRoot(doc);
    var p := 0;
    assert doc[0..] == doc;
    root, sh := null, None;
    while p < |doc|
      invariant p <= |doc|
      invariant root == null ==> ParseRoot(doc[p..]) == whole
      invariant root != null ==>
        p == |doc| && whole.value.Some? && Built(sh, root, whole.value.value) && fresh(Nodes(sh.value))
      invariant root != null ==> Links(root) == (null, null, null)
      decreases |doc| - p
    {
      p, root, sh := RootTurn(doc, p, whole);
    }
    assert root == null ==> doc[p..] == "";
    RootNothing();
  }

  lemma RootNothing()
    ensures ParseRoot("") == Done(None)
  {}

  /** One round of the loop while there is no root. */
  method RootTurn(doc: string, p: nat, ghost whole: Outcome<Option<Xml>>)
    returns (q: nat, root: Node?, ghost sh: Option<Shape>)
    requires NoNul(doc) && p < |doc| && ParseRoot(doc[p..]) == whole && whole.Done?
    ensures p < q <= |doc| && (root == null ==> ParseRoot(doc[q..]) == whole)
    ensures root != null ==>
      q == |doc| && whole.value.Some? && Built(sh, root, whole.value.value) && fresh(Nodes(sh.value))
    ensures root != null ==> Links(root) == (null, null, null)
  {
    hide Inside, Apart, Nodes, Stands, Built, ParseRoot, NextTag, QName;
    RootDefined(doc[p..]);
    var found, tag, empty, docFront := FindTag(doc, p);
    if found {
      q, root, sh := RootElement(doc, p, tag, empty, docFront, whole);
    } else {
      q, root, sh := |doc|, null, None;
      RootNone(doc[p..]);
      RootNothing();
      assert doc[q..] == "";
    }
  }

  method RootElement(doc: string, p: nat, tag: Tag, empty: bool, docFront: nat, ghost whole: Outcome<Option<Xml>>)
    returns (q: nat, root: Node?, ghost sh: Option<Shape>)
    requires NoNul(doc) && p < docFront <= |doc| && NextTag(doc[p..]) == Done(Some(Front(tag, empty, doc[docFront..])))
    requires ParseRoot(doc[p..]) == whole && whole.Done? && NoNul(QName(tag.prefix, tag.name))
    ensures p < q <= |doc| && (root == null ==> ParseRoot(doc[q..]) == whole)
    ensures root != null ==>
      q == |doc| && whole.value.Some? && Built(sh, root, whole.value.value) && fresh(Nodes(sh.value))
    ensures root != null ==> Links(root) == (null, null, null)
  {
    hide Inside, Apart, Nodes, Stands, ParseKids, ParseRoot, NextTag, FindEnd, Element, QName;
    ghost var s, f := doc[p..], Front(tag, empty, doc[docFront..]);
    q, root, sh := |doc|, null, None;
    if empty {
      RootEmpty(s, f);
      ghost var it;
      root, it := NewElement(tag);
      EmptyStands(it, tag);
      sh := Some(it);
    } else {
      var rest := doc[docFront..];
      var rear := FindEndTag(rest, QName(tag.prefix, tag.name));
      if rear.Some? {
        RootFull(s, f, rear.value);
        var inner := rest[..rear.value];
        ghost var kids := ParseKids(inner, false).value;
        ghost var it;
        root, it := NewElement(tag);
        it := ParseKidsInto(root, inner, it, kids);
        ElementStands(it, tag, kids);
        sh := Some(it);
      } else {
        RootSkip(s, f);
        q := docFront;
      }
    }
  }

  // ---------------------------------------------------------------- behind the prolog

  /** The loop over processing instructions, and the one over declarations and comments. */
  method PrologEnd(s: string, pat: string) returns (at: nat)
    requires NoNul(s) && NoNul(pat) && s != "" && BehindLast(s, pat).Done?
    ensures at <= |s| && BehindLast(s, pat) == Done(s[at..])
  {
    hide BehindLast, StrStr, StrChr, NoNul;
    var pos: nat := 0;
    at := 0;
    assert s[0..] == s;
    ghost var whole := BehindLast(s, pat);
    while pos < |s|
      invariant pos <= |s| && at <= |s|
      invariant if pos < |s| then BehindLast(s[pos..], pat) == whole else whole == Done(s[at..])
      decreases |s| - pos
    {
      assert NoNul(s[pos..]) by { SuffixNoNul(s, pos); }
      var found := XmlStrStr(s[pos..], pat);
      if found.Some? {
        BehindFrom(s, pos, pat, found.value);
        at := pos + found.value;
        var close := StrChr(s[at..], '>').value;
        pos := at + close + 1;
      } else {
        BehindNone(s[pos..], pat);
        at := pos;
        return;
      }
    }
  }

  lemma SuffixNoNul(s: string, pos: nat)
    requires NoNul(s) && pos <= |s|
    ensures NoNul(s[pos..])
  {}

  lemma BehindNone(s: string, pat: string)
    requires s != "" && StrStr(s, pat).None?
    ensures BehindLast(s, pat) == Done(s)
  {}

  lemma BehindFrom(s: string, pos: nat, pat: string, i: nat)
    requires pos < |s| && StrStr(s[pos..], pat) == Some(i) && BehindLast(s[pos..], pat).Done?
    ensures pos + i <= |s| && StrChr(s[pos + i..], '>').Some?
    ensures var j := pos + i + StrChr(s[pos + i..], '>').value + 1;
      j <= |s| && BehindLast(s[pos..], pat) == if j == |s| then Done(s[pos + i..]) else BehindLast(s[j..], pat)
  {
    hide BehindLast, StrStr, StrChr;
    BehindStep(s[pos..], pat);
    SuffixOfSuffix(s, pos, i);
    SuffixOfSuffix(s, pos + i, StrChr(s[pos + i..], '>').value + 1);
  }

  lemma BehindStep(s: string, pat: string)
    requires s != ""
    ensures StrStr(s, pat).None? ==> BehindLast(s, pat) == Done(s)
    ensures StrStr(s, pat).Some? ==>
      var t := s[StrStr(s, pat).value..];
      && (StrChr(t, '>').None? ==> BehindLast(s, pat) == Undefined)
      && (StrChr(t, '>').Some? ==>
           var rest := t[StrChr(t, '>').value + 1..];
           BehindLast(s, pat) == if rest == "" then Done(t) else BehindLast(rest, pat))
  {
    hide StrStr, StrChr;
  }

  /** xml_parse. */
  method Parse(doc: string) returns (root: Node?, ghost sh: Option<Shape>)
    requires NoNul(doc) && ParseXml(doc).Done?
    ensures root == null <==> ParseXml(doc).value.None?
    ensures root != null ==> Built(sh, root, ParseXml(doc).value.value) && fresh(Nodes(sh.value))
  {
    hide BehindLast, ParseRoot, Stands, Inside, Apart, Nodes;
    var procInst := PrologEnd(doc, "<?");
    var comment := PrologEnd(doc, "<!");
    var prologEnd := if procInst > comment then procInst else comment;
    root, sh := ParseDoc(doc[prologEnd..]);
  }
}
