/** Dumping an XML tree: the size computed beforehand is the length of what the dumper then appends
    to its buffer, at every level and indent. */
module XmlDump {
  import opened CText
  import opened XmlText
  import opened XmlTree

  predicate OptNoNul(s: Option<string>) {
    s.None? || NoNul(s.value)
  }

  /** Every node is an element or a text, and its strings are C strings. */
  ghost predicate Dumpable(sh: Shape) {
    var d := sh.data;
    && OptNoNul(d.prefix) && OptNoNul(d.name) && OptNoNul(d.attr) && OptNoNul(d.text)
    && (IsText(d) || (IsElement(d) && forall i: nat :: i < |sh.kids| ==> Dumpable(sh.kids[i])))
  }

  /** The tree that the nodes stand for. */
  ghost function XmlOf(sh: Shape): (t: Xml)
    requires Dumpable(sh)
    ensures t.Elem? <==> IsElement(sh.data)
  {
    if IsText(sh.data) then Text(sh.data.text.value)
    else Elem(sh.data.prefix, sh.data.name.value, sh.data.uri, sh.data.attr, XmlsOf(sh.kids))
  }

  ghost function XmlsOf(kids: seq<Shape>): (ts: seq<Xml>)
    requires forall i: nat :: i < |kids| ==> Dumpable(kids[i])
    ensures |ts| == |kids| && forall i: nat :: i < |ts| ==> ts[i] == XmlOf(kids[i])
    decreases kids
  {
    seq(|kids|, i requires 0 <= i < |kids| => XmlOf(kids[i]))
  }

  // ---------------------------------------------------------------- children from the left

  lemma {:induction false} DumpKidsConcat(a: seq<Xml>, b: seq<Xml>, level: nat, space: nat)
    ensures DumpKids(a + b, level, space) == DumpKids(a, level, space) + DumpKids(b, level, space)
  {
    if a == [] {
      assert a + b == b;
    } else {
      hide DumpKid;
      assert (a + b)[1..] == a[1..] + b;
      DumpKidsConcat(a[1..], b, level, space);
      Assoc(DumpKid(a[0], level, space), DumpKids(a[1..], level, space), DumpKids(b, level, space));
    }
  }

  lemma Assoc(a: string, b: string, c: string)
    ensures (a + b) + c == a + (b + c)
  {}

  lemma DumpKidsMore(kids: seq<Xml>, i: nat, level: nat, space: nat)
    requires i < |kids|
    ensures DumpKids(kids[..i + 1], level, space) == DumpKids(kids[..i], level, space) + DumpKid(kids[i], level, space)
  {
    hide DumpKid;
    assert kids[..i + 1] == kids[..i] + [kids[i]];
    DumpKidsConcat(kids[..i], [kids[i]], level, space);
    assert DumpKids([kids[i]], level, space) == DumpKid(kids[i], level, space) + DumpKids([kids[i]][1..], level, space);
    assert [kids[i]][1..] == [] && DumpKid(kids[i], level, space) + "" == DumpKid(kids[i], level, space);
  }

  lemma DumpIs(sh: Shape, level: nat, space: nat)
    requires Dumpable(sh) && IsElement(sh.data)
    ensures Dump(XmlOf(sh), level, space)
      == "<" + TagBody(sh.data.prefix, sh.data.name.value, sh.data.attr) + ">"
         + DumpKids(XmlsOf(sh.kids), level, space) + Closing(XmlsOf(sh.kids), level, space)
         + EndTag(QName(sh.data.prefix, sh.data.name.value))
  {
    hide DumpKids, Closing, TagBody, EndTag, QName;
  }

  // ---------------------------------------------------------------- the size

  method TreeSize(root: Node, level: nat, space: nat, ghost sh: Shape) returns (size: nat)
    requires Laid(sh) && sh.node == root && Dumpable(sh)
    ensures Laid(sh) && size == |Dump(XmlOf(sh), level, space)|
    decreases sh
  {
    hide Inside, Nodes, Dump, DumpKids, DumpKid;
    Start(sh);
    AllAllocated(sh);
    size := 0;
    if IsText(DataOf(root)) {
      size := size + |root.text.value|;
      TextIs(sh, level, space);
    } else if IsElement(DataOf(root)) {
      DumpIs(sh, level, space);
      var startSize;
      if root.prefix.Some? && root.attr.Some? {
        startSize := |root.prefix.value| + |root.name.value| + |root.attr.value| + 4;
      } else if root.prefix.Some? {
        startSize := |root.prefix.value| + |root.name.value| + 3;
      } else if root.attr.Some? {
        startSize := |root.name.value| + |root.attr.value| + 3;
      } else {
        startSize := |root.name.value| + 2;
      }
      size := size + startSize;
      var kidsSize := KidsSize(root, level, space, sh);
      size := size + kidsSize;
      var endSize;
      if root.prefix.Some? {
        endSize := |root.prefix.value| + |root.name.value| + 4;
      } else {
        endSize := |root.name.value| + 3;
      }
      size := size + endSize;
    }
  }

  lemma TextIs(sh: Shape, level: nat, space: nat)
    requires Dumpable(sh) && IsText(sh.data)
    ensures Dump(XmlOf(sh), level, space) == sh.data.text.value
  {}

  lemma NoKids(kids: seq<Xml>, level: nat, space: nat)
    ensures DumpKids(kids[..0], level, space) == ""
  {}

  lemma KidLen(t: Xml, level: nat, space: nat)
    ensures |DumpKid(t, level, space)|
      == |Dump(t, NextLevel(level), space)| + if t.Elem? && level != 0 then 1 + level * space else 0
  {
    hide Dump;
  }

  lemma ClosingLen(kids: seq<Xml>, level: nat, space: nat)
    ensures |Closing(kids, level, space)| == if level > 0 && kids != []
      && kids[|kids| - 1].Elem? then 1 + (level - 1) * space else 0
  {}

  /** The loop over the children, and the line break before the closing tag. */
  method KidsSize(root: Node, level: nat, space: nat, ghost sh: Shape) returns (size: nat)
    requires Laid(sh) && sh.node == root && Dumpable(sh) && IsElement(sh.data)
    ensures Laid(sh) && size == |DumpKids(XmlsOf(sh.kids), level, space) + Closing(XmlsOf(sh.kids), level, space)|
    decreases sh, 0
  {
    hide Inside, Nodes, Dump, DumpKids, DumpKid, Closing, XmlOf;
    var nextLevel := if level != 0 then level + 1 else 0;
    Start(sh);
    AllAllocated(sh);
    ghost var kids := XmlsOf(sh.kids);
    size := 0;
    NoKids(kids, level, space);
    var child, isElementChild := root.child, false;
    ghost var i: nat := 0;
    while child != null
      invariant i <= |sh.kids| && child == NodeAt(sh.kids, i) && Laid(sh)
      invariant size == |DumpKids(kids[..i], level, space)|
      invariant isElementChild <==> i > 0 && kids[i - 1].Elem?
      decreases |sh.kids| - i
    {
      KidLaid(sh, i);
      DumpKidsMore(kids, i, level, space);
      KidLen(kids[i], level, space);
      isElementChild := IsElement(DataOf(child));
      if isElementChild && level != 0 {
        size := size + 1;
        size := size + level * space;
      }
      var kidSize := TreeSize(child, nextLevel, space, sh.kids[i]);
      size := size + kidSize;
      child, i := child.next, i + 1;
    }
    assert kids[..i] == kids;
    ClosingLen(kids, level, space);
    if isElementChild && level != 0 {
      size := size + 1;
      size := size + (level - 1) * space;
    }
  }

  // ---------------------------------------------------------------- the dump

  /** The buffer holds a C string and has zeros behind it. */
  ghost predicate Holds(b: string, s: string) {
    |s| < |b| && b[..|s|] == s && NoNul(s) && forall i :: |s| <= i < |b| ==> b[i] == '\0'
  }

  lemma StopsAtEnd(b: string, text: string, end: nat)
    requires Holds(b, text) && end <= |text|
    ensures b[end] == '\0' <==> end == |text|
  {
    if end < |text| {
      assert b[end] == b[..|text|][end];
    }
  }

  /** `strcat(xml_buf, s)`: to the terminator, and from there on. */
  method StrCat(buf: array<char>, s: string, ghost text: string)
    requires Holds(buf[..], text) && NoNul(s) && |text| + |s| < buf.Length
    modifies buf
    ensures Holds(buf[..], text + s)
  {
    var end := 0;
    while buf[end] != '\0'
      invariant end <= |text|
      decreases |text| - end
    {
      end := end + 1;
    }
    StopsAtEnd(buf[..], text, end);
    for i := 0 to |s|
      invariant forall k :: 0 <= k < buf.Length ==>
        buf[k] == if k < end then text[k] else if k < end + i then s[k - end] else '\0'
    {
      buf[end + i] := s[i];
    }
    buf[end + |s|] := '\0';
    assert buf[..|text + s|] == text + s;
  }

  /** A line break, and spaces from an eleven byte buffer cut to length, `n` times. */
  method StrCatIndent(buf: array<char>, n: nat, space: nat, ghost text: string)
    requires Holds(buf[..], text) && space <= 10 && |text| + 1 + n * space < buf.Length
    modifies buf
    ensures Holds(buf[..], text + "\n" + Repeat(' ', n * space))
  {
    StrCat(buf, "\n", text);
    var spaceBuf := Repeat(' ', space);
    ghost var t := text + "\n";
    assert t + Repeat(' ', 0) == t;
    for i := 0 to n
      invariant Holds(buf[..], t + Repeat(' ', i * space))
    {
      Times(i, n, space);
      RepeatPlus(' ', i * space, space);
      Assoc(t, Repeat(' ', i * space), spaceBuf);
      StrCat(buf, spaceBuf, t + Repeat(' ', i * space));
    }
  }

  lemma Times(i: nat, n: nat, space: nat)
    requires i < n
    ensures i * space + space == (i + 1) * space <= n * space
  {}

  lemma {:induction false} RepeatPlus(c: char, m: nat, n: nat)
    ensures Repeat(c, m + n) == Repeat(c, m) + Repeat(c, n)
  {
    if m > 0 {
      RepeatPlus(c, m - 1, n);
    }
  }

  lemma {:induction false} DumpNoNul(sh: Shape, level: nat, space: nat)
    requires Dumpable(sh)
    ensures NoNul(Dump(XmlOf(sh), level, space))
  {
    if IsElement(sh.data) {
      KidsNoNul(sh.kids, level, space);
      hide Dump, DumpKids, Closing, XmlOf, XmlsOf;
      DumpIs(sh, level, space);
      ClosingNoNul(XmlsOf(sh.kids), level, space);
      TagsNoNul(sh.data);
      hide TagBody, EndTag, QName, Dumpable;
    } else {
      TextIs(sh, level, space);
    }
  }

  lemma TagsNoNul(d: Data)
    requires OptNoNul(d.prefix) && OptNoNul(d.name) && OptNoNul(d.attr) && d.name.Some?
    ensures NoNul(TagBody(d.prefix, d.name.value, d.attr)) && NoNul(EndTag(QName(d.prefix, d.name.value)))
  {}

  lemma {:induction false} KidsNoNul(kids: seq<Shape>, level: nat, space: nat)
    requires forall i: nat :: i < |kids| ==> Dumpable(kids[i])
    ensures NoNul(DumpKids(XmlsOf(kids), level, space))
  {
    if kids != [] {
      hide Dump, XmlOf, Dumpable;
      DumpNoNul(kids[0], NextLevel(level), space);
      KidsNoNul(kids[1..], level, space);
      assert XmlsOf(kids)[1..] == XmlsOf(kids[1..]);
    }
  }

  lemma ClosingNoNul(kids: seq<Xml>, level: nat, space: nat)
    ensures NoNul(Closing(kids, level, space))
  {}

  lemma {:induction false} KidsGrow(kids: seq<Xml>, i: nat, level: nat, space: nat)
    requires i <= |kids|
    ensures |DumpKids(kids[..i], level, space)| <= |DumpKids(kids, level, space)|
    decreases |kids| - i
  {
    if i < |kids| {
      hide DumpKid, DumpKids;
      DumpKidsMore(kids, i, level, space);
      KidsGrow(kids, i + 1, level, space);
    } else {
      assert kids[..i] == kids;
    }
  }

  /** The prefix and its colon if there is one, and the name. */
  method StrCatName(root: Node, buf: array<char>, ghost text: string, ghost d: Data)
    requires d == DataOf(root) && IsElement(d) && OptNoNul(d.prefix) && OptNoNul(d.name)
    requires Holds(buf[..], text) && |text| + |QName(d.prefix, d.name.value)| < buf.Length
    modifies buf
    ensures Holds(buf[..], text + QName(d.prefix, d.name.value))
  {
    hide Holds;
    if root.prefix.Some? {
      StrCat(buf, root.prefix.value, text);
      StrCat(buf, ":", text + root.prefix.value);
      StrCat(buf, root.name.value, text + root.prefix.value + ":");
      assert text + root.prefix.value + ":" + root.name.value == text + QName(d.prefix, d.name.value);
    } else {
      StrCat(buf, root.name.value, text);
    }
  }

  /** `<`, the qualified name, the attributes, `>`. */
  method DumpStart(root: Node, buf: array<char>, ghost text: string, ghost d: Data)
    requires d == DataOf(root) && IsElement(d) && OptNoNul(d.prefix) && OptNoNul(d.name) && OptNoNul(d.attr)
    requires Holds(buf[..], text) && |text| + 2 + |TagBody(d.prefix, d.name.value, d.attr)| < buf.Length
    modifies buf
    ensures Holds(buf[..], text + ("<" + TagBody(d.prefix, d.name.value, d.attr) + ">"))
  {
    hide Holds, QName;
    ghost var q := QName(d.prefix, d.name.value);
    StrCat(buf, "<", text);
    StrCatName(root, buf, text + "<", d);
    if root.attr.Some? {
      StrCat(buf, " ", text + "<" + q);
      StrCat(buf, root.attr.value, text + "<" + q + " ");
      StrCat(buf, ">", text + "<" + q + " " + root.attr.value);
      assert text + "<" + q + " " + root.attr.value + ">"
        == text + ("<" + TagBody(d.prefix, d.name.value, d.attr) + ">");
    } else {
      StrCat(buf, ">", text + "<" + q);
      assert text + "<" + q + ">" == text + ("<" + TagBody(d.prefix, d.name.value, d.attr) + ">");
    }
  }

  method DumpEnd(root: Node, buf: array<char>, ghost text: string, ghost d: Data)
    requires d == DataOf(root) && IsElement(d) && OptNoNul(d.prefix) && OptNoNul(d.name)
    requires Holds(buf[..], text) && |text| + |EndTag(QName(d.prefix, d.name.value))| < buf.Length
    modifies buf
    ensures Holds(buf[..], text + EndTag(QName(d.prefix, d.name.value)))
  {
    hide Holds, QName;
    ghost var q := QName(d.prefix, d.name.value);
    StrCat(buf, "</", text);
    StrCatName(root, buf, text + "</", d);
    StrCat(buf, ">", text + "</" + q);
    assert text + "</" + q + ">" == text + EndTag(q);
  }

  /** Appends the dump of a tree to what the buffer holds. */
  method DumpInto(root: Node, buf: array<char>, level: nat, space: nat, ghost text: string, ghost sh: Shape)
    requires Laid(sh) && sh.node == root && Dumpable(sh) && space <= 10
    requires Holds(buf[..], text) && |text| + |Dump(XmlOf(sh), level, space)| < buf.Length
    modifies buf
    ensures Laid(sh) && Holds(buf[..], text + Dump(XmlOf(sh), level, space))
    decreases sh, 2
  {
    hide Inside, Nodes, Dump, DumpKids, DumpKid, Holds, Closing, TagBody, EndTag;
    Start(sh);
    AllAllocated(sh);
    if IsText(DataOf(root)) {
      TextIs(sh, level, space);
      StrCat(buf, root.text.value, text);
    } else if IsElement(DataOf(root)) {
      DumpIs(sh, level, space);
      ghost var d, kids := sh.data, DumpKids(XmlsOf(sh.kids), level, space) + Closing(XmlsOf(sh.kids), level, space);
      ghost var start, end := "<" + TagBody(d.prefix, d.name.value, d.attr)
        + ">", EndTag(QName(d.prefix, d.name.value));
      assert Dump(XmlOf(sh), level, space) == start + kids + end;
      DumpStart(root, buf, text, d);
      DumpKidsInto(root, buf, level, space, text + start, sh);
      Start(sh);
      DumpEnd(root, buf, text + start + kids, d);
      assert text + start + kids + end == text + (start + kids + end);
    }
  }

  method DumpKidsInto(root: Node, buf: array<char>, level: nat, space: nat, ghost text: string, ghost sh: Shape)
    requires Laid(sh) && sh.node == root && Dumpable(sh) && IsElement(sh.data) && space <= 10
    requires Holds(buf[..], text)
    requires |text| + |DumpKids(XmlsOf(sh.kids), level, space) + Closing(XmlsOf(sh.kids), level, space)| < buf.Length
    modifies buf
    ensures Laid(sh) && Holds(buf[..], text + (DumpKids(XmlsOf(sh.kids), level, space)
      + Closing(XmlsOf(sh.kids), level, space)))
    decreases sh, 1
  {
    hide Inside, Nodes, Dump, DumpKids, DumpKid, Holds, XmlOf;
    var nextLevel := if level != 0 then level + 1 else 0;
    Start(sh);
    AllAllocated(sh);
    ghost var kids := XmlsOf(sh.kids);
    NoKids(kids, level, space);
    assert text + "" == text;
    var child, isElementChild := root.child, false;
    ghost var i: nat := 0;
    while child != null
      invariant i <= |sh.kids| && child == NodeAt(sh.kids, i) && Laid(sh)
      invariant Holds(buf[..], text + DumpKids(kids[..i], level, space))
      invariant isElementChild <==> i > 0 && kids[i - 1].Elem?
      decreases |sh.kids| - i
    {
      KidLaid(sh, i);
      KidsGrow(kids, i + 1, level, space);
      isElementChild := IsElement(DataOf(child));
      DumpOneKid(child, buf, isElementChild, level, nextLevel, space, text, kids, i, sh.kids[i]);
      KidLaid(sh, i);
      child, i := child.next, i + 1;
    }
    assert kids[..i] == kids;
    ghost var t := text + DumpKids(kids, level, space);
    if isElementChild && level != 0 {
      StrCatIndent(buf, level - 1, space, t);
      assert t + "\n" + Repeat(' ', (level - 1) * space) == t + Closing(kids, level, space);
    } else {
      assert t + Closing(kids, level, space) == t;
    }
    Assoc(text, DumpKids(kids, level, space), Closing(kids, level, space));
  }

  /** One child: on a line of its own if it is an element and lines are broken. */
  method DumpOneKid(child: Node, buf: array<char>, isElementChild: bool, level: nat, nextLevel: nat, space: nat,
                    ghost text: string, ghost kids: seq<Xml>, ghost i: nat, ghost kid: Shape)
    requires Laid(kid) && kid.node == child && Dumpable(kid) && space <= 10 && nextLevel == NextLevel(level)
    requires i < |kids| && kids[i] == XmlOf(kid) && (isElementChild <==> IsElement(kid.data))
    requires Holds(buf[..], text + DumpKids(kids[..i], level, space))
    requires |text| + |DumpKids(kids[..i + 1], level, space)| < buf.Length
    modifies buf
    ensures Laid(kid) && Holds(buf[..], text + DumpKids(kids[..i + 1], level, space))
    decreases kid, 3
  {
    hide Inside, Nodes, Dump, DumpKids, Holds, XmlOf;
    DumpKidsMore(kids, i, level, space);
    AllAllocated(kid);
    ghost var t := text + DumpKids(kids[..i], level, space);
    ghost var line := if kids[i].Elem? then Indent(level, level, space) else "";
    assert t + "" == t;
    if isElementChild && level != 0 {
      StrCatIndent(buf, level, space, t);
      assert t + "\n" + Repeat(' ', level * space) == t + line;
    }
    DumpInto(child, buf, nextLevel, space, t + line, kid);
    Assoc(t, line, Dump(kids[i], nextLevel, space));
    Assoc(text, DumpKids(kids[..i], level, space), DumpKid(kids[i], level, space));
  }

  /** The dump in a buffer that it fills. */
  method DumpTree(root: Node, ghost sh: Shape) returns (buf: array<char>)
    requires Laid(sh) && sh.node == root && Dumpable(sh)
    ensures fresh(buf) && Laid(sh) && buf[..] == Dump(XmlOf(sh), 0, 0) + "\0"
  {
    hide Inside, Nodes, Dump, XmlOf;
    AllAllocated(sh);
    var xmlSize := TreeSize(root, 0, 0, sh);
    buf := new char[xmlSize + 1](_ => '\0');
    assert "" + Dump(XmlOf(sh), 0, 0) == Dump(XmlOf(sh), 0, 0);
    DumpInto(root, buf, 0, 0, "", sh);
  }

  // ---------------------------------------------------------------- with a prolog, and broken into lines

  /** Breaking lines never makes a dump shorter. */
  lemma {:induction false} FlatIsShortest(t: Xml, level: nat, space: nat)
    ensures |Dump(t, 0, space)| <= |Dump(t, level, space)|
    decreases t, 1
  {
    if t.Elem? {
      hide DumpKids, Closing, TagBody, EndTag, QName;
      FlatKids(t.kids, level, space);
      FlatClosing(t.kids, level, space);
    }
  }

  lemma FlatClosing(kids: seq<Xml>, level: nat, space: nat)
    ensures Closing(kids, 0, space) == ""
  {}

  lemma {:induction false} FlatKids(kids: seq<Xml>, level: nat, space: nat)
    ensures |DumpKids(kids, 0, space)| <= |DumpKids(kids, level, space)|
    decreases kids, 0
  {
    if kids != [] {
      FlatIsShortest(kids[0], NextLevel(level), space);
      FlatKids(kids[1..], level, space);
    }
  }

  predicate NoElement(kids: seq<Xml>) {
    forall i :: 0 <= i < |kids| ==> kids[i].Text?
  }

  predicate NoElementChild(t: Xml) {
    t.Elem? ==> NoElement(t.kids)
  }

  /** One level deeper a dump is longer, by the spaces in front of the elements in it. */
  lemma {:induction false} DeeperIsLonger(t: Xml, level: nat, space: nat)
    requires level >= 1
    ensures |Dump(t, level, space)| <= |Dump(t, level + 1, space)|
    ensures |Dump(t, level, space)| == |Dump(t, level + 1, space)| <==> space == 0 || NoElementChild(t)
    decreases t, 1
  {
    if t.Elem? {
      hide DumpKids, Closing, TagBody, EndTag, QName, NoElement;
      DeeperKids(t.kids, level, space);
      DeeperClosing(t.kids, level, space);
    }
  }

  lemma DeeperClosing(kids: seq<Xml>, level: nat, space: nat)
    requires level >= 1
    ensures |Closing(kids, level, space)| <= |Closing(kids, level + 1, space)|
    ensures space == 0 || NoElement(kids) ==> |Closing(kids, level, space)| == |Closing(kids, level + 1, space)|
  {
    assert level * space == (level - 1) * space + space;
  }

  lemma DeeperIndent(level: nat, space: nat)
    requires level >= 1
    ensures |Indent(level + 1, level + 1, space)| == |Indent(level, level, space)| + space
  {
    assert (level + 1) * space == level * space + space;
  }

  lemma {:induction false} DeeperKid(t: Xml, level: nat, space: nat)
    requires level >= 1
    ensures |DumpKid(t, level, space)| <= |DumpKid(t, level + 1, space)|
    ensures |DumpKid(t, level, space)| == |DumpKid(t, level + 1, space)| <==> space == 0 || t.Text?
    decreases t, 2
  {
    hide Dump, Indent;
    DeeperIsLonger(t, level + 1, space);
    DeeperIndent(level, space);
    if t.Text? {
      assert Dump(t, level + 1, space) == Dump(t, level + 2, space) by { TextDump(t, level + 1, level + 2, space); }
    }
  }

  lemma TextDump(t: Xml, a: nat, b: nat, space: nat)
    requires t.Text?
    ensures Dump(t, a, space) == Dump(t, b, space)
  {}

  lemma NoElementStep(kids: seq<Xml>)
    requires kids != []
    ensures NoElement(kids) <==> kids[0].Text? && NoElement(kids[1..])
  {
    assert forall i :: 1 <= i < |kids| ==> kids[i] == kids[1..][i - 1];
  }

  lemma {:induction false} DeeperKids(kids: seq<Xml>, level: nat, space: nat)
    requires level >= 1
    ensures |DumpKids(kids, level, space)| <= |DumpKids(kids, level + 1, space)|
    ensures |DumpKids(kids, level, space)| == |DumpKids(kids, level + 1, space)| <==> space == 0 || NoElement(kids)
    decreases kids, 0
  {
    if kids != [] {
      hide DumpKid, NoElement;
      NoElementStep(kids);
      DeeperKid(kids[0], level, space);
      DeeperKids(kids[1..], level, space);
    }
  }

  /** A dump that starts at level `newLine` fits the size of one that starts at level one, if and only
      if it is that one, or nothing in it is indented. */
  lemma {:induction false} FitsLevelOneIff(t: Xml, newLine: nat, space: nat)
    ensures |Dump(t, newLine, space)| <= |Dump(t, 1, space)| <==> newLine <= 1 || space == 0 || NoElementChild(t)
    ensures newLine >= 1 ==> |Dump(t, 1, space)| <= |Dump(t, newLine, space)|
    decreases newLine
  {
    hide Dump, NoElementChild;
    if newLine == 0 {
      FlatIsShortest(t, 1, space);
    } else if newLine > 1 {
      FitsLevelOneIff(t, newLine - 1, space);
      DeeperIsLonger(t, newLine - 1, space);
    }
  }

  /** `<a>` with an empty `<b>` in it, started at level two and indented by one. */
  lemma LevelTwoOverflows()
    ensures var t := Elem(None, "a", None, None, [Elem(None, "b", None, None, [])]);
      |Dump(t, 2, 1)| > |Dump(t, 1, 1)|
  {
    var t := Elem(None, "a", None, None, [Elem(None, "b", None, None, [])]);
    assert t.kids[0].Elem?;
    FitsLevelOneIff(t, 2, 1);
  }

  /** The prolog, a line break if lines are broken, and the dump, in a buffer sized for broken lines
      that start at level one. */
  method DumpTreeEx(root: Node, prolog: Option<string>, newLine: nat, space0: nat, ghost sh: Shape)
    returns (buf: array<char>)
    requires Laid(sh) && sh.node == root && Dumpable(sh) && OptNoNul(prolog)
    requires newLine <= 1 || space0 == 0 || NoElementChild(XmlOf(sh))
    ensures fresh(buf) && Laid(sh)
    ensures var space := if space0 > 10 then 10 else space0;
      Holds(buf[..], Front(prolog, newLine) + Dump(XmlOf(sh), newLine, space))
    ensures Front(prolog, newLine) == if prolog.None? then "" else prolog.value + if newLine == 0 then "" else "\n"
  {
    hide Inside, Nodes, Dump, XmlOf, NoElementChild;
    AllAllocated(sh);
    assert prolog.Some? ==> prolog.value + "" == prolog.value;
    var space := if space0 > 10 then 10 else space0;
    var xmlSize := TreeSize(root, 1, space, sh);
    FitsLevelOneIff(XmlOf(sh), newLine, space);
    if prolog.Some? && newLine != 0 {
      buf := new char[|prolog.value| + xmlSize + 2](_ => '\0');
      StrCat(buf, prolog.value, "");
      assert "" + prolog.value == prolog.value;
      StrCat(buf, "\n", prolog.value);
    } else if prolog.Some? {
      buf := new char[|prolog.value| + xmlSize + 1](_ => '\0');
      StrCat(buf, prolog.value, "");
      assert "" + prolog.value == prolog.value;
    } else {
      buf := new char[xmlSize + 1](_ => '\0');
    }
    DumpInto(root, buf, newLine, space, Front(prolog, newLine), sh);
  }

  function Front(prolog: Option<string>, newLine: nat): string {
    if prolog.None? then "" else if newLine != 0 then prolog.value + "\n" else prolog.value
  }
}
