/** Parsing a dumped tree gives back the tree. */
module XmlRoundTrip {
  import opened CText
  import opened XmlText

  predicate Lacks(s: string, cs: string) {
    forall i :: 0 <= i < |s| ==> s[i] !in cs
  }

  /** A name or prefix that no separator of the grammar interrupts. */
  predicate Ordinary(n: string) {
    n != "" && Lacks(n, " :/<>")
  }

  /** A name or prefix that no separator inside a tag interrupts. */
  predicate Unbroken(n: string) {
    n != "" && Lacks(n, " :")
  }

  /** An attribute text that stands between a space and the end of a start tag. */
  predicate Attributes(a: string) {
    a != "" && a[0] != ' ' && a[|a| - 1] != ' ' && a[|a| - 1] != '/' && Lacks(a, "<>")
  }

  predicate TagFits(prefix: Option<string>, name: string, attr: Option<string>) {
    && (prefix.Some? ==> Ordinary(prefix.value))
    && Ordinary(name)
    && (attr.Some? ==> Attributes(attr.value))
  }

  /** Trees of ordinary names and any attribute texts: an element holds elements, or exactly one
      text. */
  predicate Plain(t: Xml)
    decreases t, 1
  {
    match t
    case Text(text) => text != "" && Lacks(text, "<")
    case Elem(prefix, name, _, attr, kids) =>
      TagFits(prefix, name, attr) && ((|kids| == 1 && kids[0].Text?) || AllElements(kids)) && AllPlain(kids)
  }

  predicate AllPlain(kids: seq<Xml>)
    decreases kids, 0
  {
    forall i :: 0 <= i < |kids| ==> Plain(kids[i])
  }

  predicate AllElements(kids: seq<Xml>) {
    forall i :: 0 <= i < |kids| ==> kids[i].Elem?
  }

  /** The tree has an element of qualified name `q`. */
  predicate Names(t: Xml, q: string) {
    t.Elem? && (QName(t.prefix, t.name) == q || exists i :: 0 <= i < |t.kids| && Names(t.kids[i], q))
  }

  predicate AnyNames(kids: seq<Xml>, q: string) {
    exists i :: 0 <= i < |kids| && Names(kids[i], q)
  }

  /** No element lies inside an element of the same qualified name. */
  predicate Unnested(t: Xml) {
    t.Elem? ==>
      !AnyNames(t.kids, QName(t.prefix, t.name)) && forall i :: 0 <= i < |t.kids| ==> Unnested(t.kids[i])
  }

  /** The namespace declaration in front of its quoted uri. */
  function Declaration(prefix: Option<string>): string {
    match prefix
    case Some(p) => "xmlns:" + p
    case None => "xmlns"
  }

  /** The uri that an attribute text shows for a prefix. */
  function UriRead(prefix: Option<string>, attr: Option<string>): Outcome<Option<string>> {
    TagUri(AttrPart(attr), " " + Declaration(prefix))
  }

  /** The attribute text shows the uri of the element. */
  predicate UriKept(prefix: Option<string>, uri: Option<string>, attr: Option<string>) {
    UriRead(prefix, attr) == Done(uri)
  }

  predicate UrisKept(t: Xml) {
    t.Elem? ==> UriKept(t.prefix, t.uri, t.attr) && forall i :: 0 <= i < |t.kids| ==> UrisKept(t.kids[i])
  }

  // ---------------------------------------------------------------- searches

  lemma {:induction false} StrStrFirst(a: string, p: string, b: string)
    requires forall i :: 0 <= i < |a| ==> !(p <= (a + p + b)[i..])
    ensures StrStr(a + p + b, p) == Some(|a|)
  {
    var s := a + p + b;
    if a == "" {
      assert s == p + b;
    } else {
      assert !(p <= s[0..]);
      assert s[1..] == a[1..] + p + b;
      forall i | 0 <= i < |a[1..]| ensures !(p <= (a[1..] + p + b)[i..]) {
        assert s[1..][i..] == s[i + 1..];
      }
      StrStrFirst(a[1..], p, b);
    }
  }

  lemma StripExact(s: string)
    requires s != "" && s[0] != ' ' && s[|s| - 1] != ' '
    ensures StrStrip(s) == Some(s)
    ensures StrStrip(" " + s) == Some(s)
  {
    assert (" " + s)[1..] == s;
  }

  lemma {:induction false} StrChrOver(a: string, c: char, b: string)
    requires c !in a
    ensures StrChr(a + b, c) == match StrChr(b, c)
      case Some(i) => Some(|a| + i)
      case None => None
  {
    if a == "" {
      assert a + b == b;
    } else {
      assert (a + b)[1..] == a[1..] + b;
      StrChrOver(a[1..], c, b);
    }
  }

  lemma {:induction false} StrChrEarly(a: string, c: char, b: string)
    requires c in a
    ensures StrChr(a + b, c) == StrChr(a, c)
  {
    assert (a + b)[0] == a[0];
    if a[0] != c {
      assert (a + b)[1..] == a[1..] + b;
      StrChrEarly(a[1..], c, b);
    }
  }

  lemma QuotedBy(s: string, m: char, f: nat)
    requires StrChr(s, '=').Some? && m == (if At(s, StrChr(s, '=').value + 1) == '\'' then '\'' else '\"')
    requires StrChr(s, m) == Some(f)
    ensures QuotedValue(s) == match StrChr(s[f + 1..], m)
      case Some(r) => Done(s[f + 1..][..r])
      case None => Undefined
  {}

  // ---------------------------------------------------------------- tags

  lemma QNameOrdinary(prefix: Option<string>, name: string)
    requires (prefix.Some? ==> Ordinary(prefix.value)) && Ordinary(name)
    ensures QName(prefix, name) != "" && Lacks(QName(prefix, name), " /<>")
  {}

  lemma FirstSpace(q: string, more: string)
    requires ' ' !in q && (more == "" || more[0] == ' ')
    ensures StrChr(q + more, ' ') == if more == "" then None else Some(|q|)
  {
    if more == "" {
      assert q + more == q;
    } else {
      StrChrIn(q, ' ', more[1..]);
      Uncons(q, more);
    }
  }

  lemma Uncons(q: string, more: string)
    requires more != ""
    ensures q + more == q + [more[0]] + more[1..]
  {}

  lemma PrefixOfTag(prefix: Option<string>, name: string, more: string)
    requires (prefix.Some? ==> Unbroken(prefix.value)) && Unbroken(name)
    requires more == "" || more[0] == ' '
    ensures PrefixEnd(QName(prefix, name) + more) == (if prefix.Some? then Some(|prefix.value|) else None)
  {
    var q := QName(prefix, name);
    FirstSpace(q, more);
    if prefix.Some? {
      assert q + more == prefix.value + [':'] + (name + more);
      StrChrIn(prefix.value, ':', name + more);
    } else {
      var c := StrChr(q + more, ':');
      assert c.Some? ==> |q| <= c.value;
    }
  }

  lemma NameOfTag(name: string, attr: Option<string>)
    requires Ordinary(name)
    requires attr.Some? ==> attr.value != "" && attr.value[0] != ' ' && attr.value[|attr.value| - 1] != ' '
    ensures NameAndAttr(name + AttrPart(attr)) == (Some(name), attr)
  {
    StripExact(name);
    match attr
    case Some(a) =>
      var s := name + (" " + a);
      assert s == name + [' '] + a;
      StrChrIn(name, ' ', a);
      assert s[..|name|] == name && s[|name|..] == " " + a;
      StripExact(a);
    case None =>
      assert name + "" == name;
  }

  lemma {:induction false} StrStrOver(a: string, p: string, b: string)
    requires p != "" && p[0] !in a
    ensures StrStr(a + b, p) == match StrStr(b, p)
      case Some(i) => Some(|a| + i)
      case None => None
  {
    if a == "" {
      assert a + b == b;
    } else {
      assert (a + b)[0] == a[0] && (a + b)[1..] == a[1..] + b;
      StrStrOver(a[1..], p, b);
    }
  }

  lemma UriBehind(q: string, s: string, ns: string)
    requires ns != "" && ns[0] == ' ' && ' ' !in q
    ensures TagUri(q + s, ns) == TagUri(s, ns)
  {
    hide QuotedValue, StrStr;
    StrStrOver(q, ns, s);
    match StrStr(s, ns)
    case Some(i) =>
      assert (q + s)[|q| + i..] == s[i..];
    case None =>
  }

  /** The name of a tag shows no uri. */
  lemma UriOfTag(prefix: Option<string>, name: string, attr: Option<string>)
    requires TagFits(prefix, name, attr)
    ensures TagUri(TagBody(prefix, name, attr), " " + Declaration(prefix)) == UriRead(prefix, attr)
  {
    hide TagUri, Declaration, QName, AttrPart;
    QNameOrdinary(prefix, name);
    UriBehind(QName(prefix, name), AttrPart(attr), " " + Declaration(prefix));
  }

  /** A tag with what was read for its uri. */
  function TagRead(prefix: Option<string>, name: string, uri: Outcome<Option<string>>,
                   attr: Option<string>): Outcome<Tag> {
    match uri
    case Done(v) => Done(Tag(prefix, name, v, attr))
    case Undefined => Undefined
  }

  lemma PrefixedTag(p: string, tag: string, rest: string, uri: Outcome<Option<string>>, name: string,
                    attr: Option<string>)
    requires tag == p + ":" + rest && Unbroken(p)
    requires PrefixEnd(tag) == Some(|p|)
    requires TagUri(tag, " xmlns:" + p) == uri
    requires NameAndAttr(rest) == (Some(name), attr)
    ensures ParseTag(tag) == TagRead(Some(p), name, uri, attr)
  {
    assert tag[..|p|] == p && tag[|p| + 1..] == rest;
    StripExact(p);
  }

  lemma UnprefixedTag(tag: string, uri: Outcome<Option<string>>, name: string, attr: Option<string>)
    requires PrefixEnd(tag) == None
    requires TagUri(tag, " xmlns") == uri
    requires NameAndAttr(tag) == (Some(name), attr)
    ensures ParseTag(tag) == TagRead(None, name, uri, attr)
  {}

  lemma PrefixedRoundTrip(p: string, name: string, attr: Option<string>)
    requires TagFits(Some(p), name, attr)
    ensures ParseTag(TagBody(Some(p), name, attr)) == TagRead(Some(p), name, UriRead(Some(p), attr), attr)
  {
    hide UriRead, PrefixEnd, NameAndAttr, TagUri;
    var tag, more := TagBody(Some(p), name, attr), AttrPart(attr);
    assert tag == QName(Some(p), name) + more;
    PrefixOfTag(Some(p), name, more);
    UriOfTag(Some(p), name, attr);
    NameOfTag(name, attr);
    RegroupTag(p, name, more);
    assert Declaration(Some(p)) == "xmlns:" + p;
    PrefixedTag(p, tag, name + more, UriRead(Some(p), attr), name, attr);
  }

  lemma BareDeclaration()
    ensures " " + Declaration(None) == " xmlns"
  {
    assert " " + "xmlns" == " xmlns";
  }

  lemma UnprefixedRoundTrip(name: string, attr: Option<string>)
    requires TagFits(None, name, attr)
    ensures ParseTag(TagBody(None, name, attr)) == TagRead(None, name, UriRead(None, attr), attr)
  {
    hide UriRead, PrefixEnd, NameAndAttr, TagUri;
    var tag, more := TagBody(None, name, attr), AttrPart(attr);
    assert tag == QName(None, name) + more;
    PrefixOfTag(None, name, more);
    UriOfTag(None, name, attr);
    NameOfTag(name, attr);
    BareDeclaration();
    UnprefixedTag(tag, UriRead(None, attr), name, attr);
  }

  /** Parsing the text between the brackets of a start tag gives back its prefix, its name and its
      attribute text, and the uri that the attribute text shows. */
  lemma TagRoundTrip(prefix: Option<string>, name: string, uri: Option<string>, attr: Option<string>)
    requires TagFits(prefix, name, attr)
    ensures ParseTag(TagBody(prefix, name, attr)) == TagRead(prefix, name, UriRead(prefix, attr), attr)
    ensures ParseTag(TagBody(prefix, name, attr)) == Done(Tag(prefix, name, uri, attr)) <==> UriKept(prefix, uri, attr)
  {
    hide UriRead;
    match prefix
    case Some(p) => PrefixedRoundTrip(p, name, attr);
    case None => UnprefixedRoundTrip(name, attr);
  }

  lemma RegroupTag(p: string, name: string, more: string)
    ensures p + ":" + name + more == p + ":" + (name + more)
    ensures " " + ("xmlns:" + p) == " xmlns:" + p
  {}

  // ---------------------------------------------------------------- end tags

  /** Names the text behind the part under consideration; it limits where `Skims` unfolds. */
  ghost predicate Behind(u: string) { true }

  /** No end tag of `q` starts inside `p`, whatever follows. */
  ghost predicate Skims(p: string, q: string) {
    forall u: string {:trigger Behind(u)} :: Behind(u) ==> NoneInside(p, q, u)
  }

  ghost predicate NoneInside(p: string, q: string, u: string) {
    forall i :: 0 <= i < |p| ==> !(EndTag(q) <= (p + u)[i..])
  }

  lemma SkimThen(p1: string, p2: string, q: string)
    requires Skims(p1, q) && Skims(p2, q)
    ensures Skims(p1 + p2, q)
  {
    forall u: string | Behind(u) ensures NoneInside(p1 + p2, q, u) {
      assert Behind(p2 + u);
      var s := p1 + p2 + u;
      assert s == p1 + (p2 + u);
      forall i | 0 <= i < |p1 + p2| ensures !(EndTag(q) <= s[i..]) {
        if i >= |p1| { assert s[i..] == (p2 + u)[i - |p1|..]; }
      }
    }
  }

  lemma SkimOpen(p: string, q: string)
    requires Lacks(p, "<")
    ensures Skims(p, q)
  {
    forall u: string | Behind(u) ensures NoneInside(p, q, u) {
      forall i | 0 <= i < |p| ensures !(EndTag(q) <= (p + u)[i..]) {
        assert (p + u)[i..][0] == p[i] && EndTag(q)[0] == '<';
      }
    }
  }

  lemma SkimStartTag(body: string, q: string)
    requires body != "" && Lacks(body, "<") && body[0] != '/'
    ensures Skims("<" + body + ">", q)
  {
    var p := "<" + body + ">";
    forall u: string | Behind(u) ensures NoneInside(p, q, u) {
      forall i | 0 <= i < |p| ensures !(EndTag(q) <= (p + u)[i..]) {
        assert (p + u)[i..][0] == p[i] && EndTag(q)[0] == '<' && EndTag(q)[1] == '/';
        if i == 0 { assert (p + u)[i..][1] == body[0]; }
      }
    }
  }

  lemma EndTagsDiffer(q: string, q': string, u: string)
    requires Lacks(q, ">") && Lacks(q', ">") && EndTag(q) <= EndTag(q') + u
    ensures q == q'
  {
    var s := EndTag(q') + u;
    var n := if |q| < |q'| then |q| else |q'|;
    assert EndTag(q)[n + 2] == s[n + 2];
    assert EndTag(q)[|q| + 2] == '>' && s[|q'| + 2] == '>';
    assert |q| == |q'|;
    forall k | 0 <= k < |q| ensures q[k] == q'[k] {
      assert EndTag(q)[k + 2] == q[k] && s[k + 2] == q'[k];
    }
  }

  lemma SkimEndTag(q': string, q: string)
    requires Lacks(q, "<>") && Lacks(q', "<>") && q != q'
    ensures Skims(EndTag(q'), q)
  {
    var p := EndTag(q');
    forall u: string | Behind(u) ensures NoneInside(p, q, u) {
      forall i | 0 <= i < |p| ensures !(EndTag(q) <= (p + u)[i..]) {
        assert (p + u)[i..][0] == p[i] && EndTag(q)[0] == '<';
        if i == 0 {
          assert (p + u)[0..] == p + u;
          if EndTag(q) <= p + u { EndTagsDiffer(q, q', u); }
        }
      }
    }
  }

  lemma TagBodyShape(prefix: Option<string>, name: string, attr: Option<string>)
    requires TagFits(prefix, name, attr)
    ensures var body := TagBody(prefix, name, attr);
      body != "" && Lacks(body, "<>") && body[0] != '/' && body[|body| - 1] != '/'
  {
    QNameOrdinary(prefix, name);
    if attr.Some? {
      assert TagBody(prefix, name, attr)[|TagBody(prefix, name, attr)| - 1] == attr.value[|attr.value| - 1];
    }
  }

  lemma SkimIndent(level: nat, n: nat, space: nat, q: string)
    ensures Lacks(Indent(level, n, space), "<") && Skims(Indent(level, n, space), q)
  {
    SkimOpen(Indent(level, n, space), q);
  }

  /** The dump of a tree without an element named `q` shows no end tag of `q`. */
  lemma {:induction false} SkimDump(t: Xml, q: string, level: nat, space: nat)
    requires Plain(t) && !Names(t, q) && Lacks(q, "<>")
    ensures Skims(Dump(t, level, space), q)
    decreases t, 1
  {
    match t
    case Text(text) => SkimOpen(text, q);
    case Elem(prefix, name, uri, attr, kids) =>
      var start, end := "<" + TagBody(prefix, name, attr) + ">", EndTag(QName(prefix, name));
      var content, closing := DumpKids(kids, level, space), Closing(kids, level, space);
      TagBodyShape(prefix, name, attr);
      QNameOrdinary(prefix, name);
      SkimStartTag(TagBody(prefix, name, attr), q);
      SkimDumpKids(kids, q, level, space);
      SkimClosing(kids, q, level, space);
      SkimEndTag(QName(prefix, name), q);
      SkimThen(start, content, q);
      SkimThen(start + content, closing, q);
      SkimThen(start + content + closing, end, q);
  }

  lemma SkimClosing(kids: seq<Xml>, q: string, level: nat, space: nat)
    ensures Lacks(Closing(kids, level, space), "<") && Skims(Closing(kids, level, space), q)
  {
    SkimOpen(Closing(kids, level, space), q);
  }

  lemma {:induction false} SkimDumpKids(kids: seq<Xml>, q: string, level: nat, space: nat)
    requires AllPlain(kids) && !AnyNames(kids, q) && Lacks(q, "<>")
    ensures Skims(DumpKids(kids, level, space), q)
    decreases kids, 0
  {
    if kids == [] {
      SkimOpen("", q);
    } else {
      var indent := if kids[0].Elem? then Indent(level, level, space) else "";
      SkimOpen(indent, q);
      SkimDump(kids[0], q, NextLevel(level), space);
      SkimThen(indent, Dump(kids[0], NextLevel(level), space), q);
      forall i | 0 <= i < |kids[1..]| ensures !Names(kids[1..][i], q) { assert kids[1..][i] == kids[i + 1]; }
      SkimDumpKids(kids[1..], q, level, space);
      SkimThen(DumpKid(kids[0], level, space), DumpKids(kids[1..], level, space), q);
    }
  }

  // ---------------------------------------------------------------- trees

  /** What stands between the tags of a dumped element. */
  function Content(kids: seq<Xml>, level: nat, space: nat): string {
    DumpKids(kids, level, space) + Closing(kids, level, space)
  }

  lemma DumpShape(t: Xml, level: nat, space: nat)
    requires t.Elem?
    ensures Dump(t, level, space)
         == "<" + TagBody(t.prefix, t.name, t.attr) + ">" + Content(t.kids, level, space)
           + EndTag(QName(t.prefix, t.name))
  {
    var a, b, c := "<" + TagBody(t.prefix, t.name, t.attr)
      + ">", DumpKids(t.kids, level, space), Closing(t.kids, level, space);
    assert a + b + c == a + (b + c);
  }

  lemma SplitAt(a: string, c: char, b: string)
    requires c !in a
    ensures var s := a + [c] + b;
      StrChr(s, c) == Some(|a|) && s[..|a|] == a && s[|a| + 1..] == b
  {
    StrChrIn(a, c, b);
  }

  lemma NextTagIn(ind: string, body: string, rest: string, tag: Outcome<Tag>)
    requires Lacks(ind, "<") && Lacks(body, "<>") && body != "" && body[|body| - 1] != '/'
    requires ParseTag(body) == tag
    ensures NextTag(ind + ['<'] + (body + ['>'] + rest)) == FrontOf(tag, rest)
  {
    var t := body + ['>'] + rest;
    SplitAt(ind, '<', t);
    SplitAt(body, '>', rest);
    assert t[|body| - 1] == body[|body| - 1];
  }

  /** The first tag of a dumped element, as it is read. */
  lemma NextTagOfDump(ind: string, t: Xml, level: nat, space: nat, rest: string)
    requires Plain(t) && t.Elem? && Lacks(ind, "<")
    ensures NextTag(ind + Dump(t, level, space) + rest)
         == FrontRead(t, Content(t.kids, level, space) + EndTag(QName(t.prefix, t.name)) + rest)
  {
    hide Dump, Content, NextTag, ParseTag, UriRead;
    var body := TagBody(t.prefix, t.name, t.attr);
    var content, end := Content(t.kids, level, space), EndTag(QName(t.prefix, t.name));
    TagRoundTrip(t.prefix, t.name, t.uri, t.attr);
    TagBodyShape(t.prefix, t.name, t.attr);
    NextTagIn(ind, body, content + end + rest, TagRead(t.prefix, t.name, UriRead(t.prefix, t.attr), t.attr));
    DumpShape(t, level, space);
    RegroupElement(ind, body, content, end, rest);
  }

  function FrontRead(t: Xml, rest: string): Outcome<Option<Front>>
    requires t.Elem?
  {
    FrontOf(TagRead(t.prefix, t.name, UriRead(t.prefix, t.attr), t.attr), rest)
  }

  function FrontOf(tag: Outcome<Tag>, rest: string): Outcome<Option<Front>> {
    match tag
    case Done(g) => Done(Some(Front(g, false, rest)))
    case Undefined => Undefined
  }

  lemma RegroupElement(ind: string, body: string, content: string, end: string, rest: string)
    ensures ind + ("<" + body + ">" + content + end) + rest == ind + ['<'] + (body + ['>'] + (content + end + rest))
  {}

  /** The search for the end tag stops behind the content of its own element. */
  lemma FindEndOfContent(t: Xml, level: nat, space: nat, rest: string)
    requires Plain(t) && t.Elem? && Unnested(t)
    ensures FindEnd(Content(t.kids, level, space) + EndTag(QName(t.prefix, t.name)) + rest, QName(t.prefix, t.name))
         == Some(|Content(t.kids, level, space)|)
  {
    var q := QName(t.prefix, t.name);
    var content := Content(t.kids, level, space);
    QNameOrdinary(t.prefix, t.name);
    SkimDumpKids(t.kids, q, level, space);
    SkimClosing(t.kids, q, level, space);
    SkimThen(DumpKids(t.kids, level, space), Closing(t.kids, level, space), q);
    SkimmedSearch(content, q, rest);
  }

  lemma SkimmedSearch(content: string, q: string, rest: string)
    requires Skims(content, q)
    ensures StrStr(content + EndTag(q) + rest, EndTag(q)) == Some(|content|)
  {
    var u := EndTag(q) + rest;
    assert Behind(u);
    assert content + EndTag(q) + rest == content + u;
    StrStrFirst(content, EndTag(q), rest);
  }

  lemma EndTagClose(q: string, rest: string)
    requires Lacks(q, "<>")
    ensures StrChr(EndTag(q) + rest, '>') == Some(|q| + 2)
    ensures (EndTag(q) + rest)[|q| + 3..] == rest
  {
    assert EndTag(q) + rest == ("</" + q) + ['>'] + rest;
    StrChrIn("</" + q, '>', rest);
  }

  lemma SplitDoc(content: string, end: string, rest: string)
    ensures var doc := content + end + rest;
      doc[..|content|] == content && doc[|content|..] == end + rest && (end + rest)[|end|..] == rest
  {}

  lemma ParseKidsStep(s: string, some: bool, tag: Tag, content: string, end: string, rest: string, kids: seq<Xml>)
    requires s != ""
    requires NextTag(s) == Done(Some(Front(tag, false, content + end + rest)))
    requires FindEnd(content + end + rest, QName(tag.prefix, tag.name)) == Some(|content|)
    requires ParseKids(content, false) == Done(kids)
    requires end != "" && StrChr(end + rest, '>') == Some(|end| - 1)
    ensures ParseKids(s, some) == Prepend(Elem(tag.prefix, tag.name, tag.uri, tag.attr, kids), ParseKids(rest, true))
  {
    SplitDoc(content, end, rest);
  }

  lemma ParseNothing(s: string, some: bool)
    requires Lacks(s, "<")
    ensures ParseKids(s, some) == Done(if some || s == "" then [] else [Text(s)])
  {}

  lemma TextContent(kids: seq<Xml>, level: nat, space: nat)
    requires |kids| == 1 && kids[0].Text?
    ensures Content(kids, level, space) == kids[0].text
  {
    assert DumpKid(kids[0], level, space) == "" + kids[0].text == kids[0].text;
    assert kids[1..] == [];
    assert DumpKids(kids, level, space) == kids[0].text + "" == kids[0].text;
  }

  lemma {:induction false} ParseContent(t: Xml, level: nat, space: nat)
    requires Plain(t) && t.Elem? && Unnested(t) && UrisKept(t)
    ensures ParseKids(Content(t.kids, level, space), false) == Done(t.kids)
    decreases t, 1
  {
    var kids := t.kids;
    if kids != [] && kids[0].Text? {
      assert Plain(kids[0]) && kids == [kids[0]];
      TextContent(kids, level, space);
      ParseNothing(kids[0].text, false);
    } else {
      SkimClosing(kids, "", level, space);
      ParseDumpKids(kids, level, space, Closing(kids, level, space), false);
    }
  }

  lemma KidsStep(kids: seq<Xml>, level: nat, space: nat, ws: string)
    requires kids != [] && kids[0].Elem?
    ensures DumpKids(kids, level, space) + ws
         == Indent(level, level, space) + Dump(kids[0], NextLevel(level), space)
           + (DumpKids(kids[1..], level, space) + ws)
  {
    hide Dump, Indent;
    RegroupKids(Indent(level, level, space), Dump(kids[0], NextLevel(level), space), DumpKids(kids[1..], level, space),
      ws);
  }

  lemma {:induction false} ParseDumpKids(kids: seq<Xml>, level: nat, space: nat, ws: string, some: bool)
    requires AllPlain(kids) && AllElements(kids)
    requires forall i :: 0 <= i < |kids| ==> Unnested(kids[i]) && UrisKept(kids[i])
    requires Lacks(ws, "<") && (kids == [] ==> some || ws == "")
    ensures ParseKids(DumpKids(kids, level, space) + ws, some) == Done(kids)
    decreases kids, 0
  {
    hide Dump, DumpKids, ParseKids, Lacks, Plain, Unnested, UrisKept, Indent;
    if kids == [] {
      assert DumpKids(kids, level, space) + ws == ws by { NoKidsDump(level, space); }
      ParseNothing(ws, some);
    } else {
      var t, ind := kids[0], Indent(level, level, space);
      var rest := DumpKids(kids[1..], level, space) + ws;
      KidsStep(kids, level, space, ws);
      SkimIndent(level, level, space, "");
      ParseElement(ind, t, NextLevel(level), space, rest, some);
      ParseDumpKids(kids[1..], level, space, ws, true);
      assert kids == [t] + kids[1..];
    }
  }

  lemma NoKidsDump(level: nat, space: nat)
    ensures DumpKids([], level, space) == ""
  {}

  lemma RegroupKids(ind: string, dump: string, more: string, ws: string)
    ensures ind + dump + more + ws == ind + dump + (more + ws)
  {}

  lemma {:induction false} ParseElement(ind: string, t: Xml, level: nat, space: nat, rest: string, some: bool)
    requires Plain(t) && t.Elem? && Unnested(t) && UrisKept(t) && Lacks(ind, "<")
    ensures ParseKids(ind + Dump(t, level, space) + rest, some) == Prepend(t, ParseKids(rest, true))
    decreases t, 2
  {
    hide ParseKids, NextTag, FindEnd, Content, Unnested, Lacks, StrChr, Dump;
    var q, content := QName(t.prefix, t.name), Content(t.kids, level, space);
    NextTagOfDump(ind, t, level, space, rest);
    FindEndOfContent(t, level, space, rest);
    ParseContent(t, level, space);
    QNameOrdinary(t.prefix, t.name);
    EndTagClose(q, rest);
    ParseKidsStep(ind + Dump(t, level, space) + rest, some, Tag(t.prefix, t.name, t.uri, t.attr), content, EndTag(q),
      rest, t.kids);
  }

  /** A dumped element, at any level and indent and behind anything without a tag, parses to
      itself. */
  lemma RoundTrip(ind: string, t: Xml, level: nat, space: nat, rest: string)
    requires Plain(t) && t.Elem? && Unnested(t) && UrisKept(t) && Lacks(ind, "<")
    ensures ParseRoot(ind + Dump(t, level, space) + rest) == Done(Some(t))
  {
    var q, content := QName(t.prefix, t.name), Content(t.kids, level, space);
    NextTagOfDump(ind, t, level, space, rest);
    FindEndOfContent(t, level, space, rest);
    ParseContent(t, level, space);
    SplitDoc(content, EndTag(q), rest);
  }
}
