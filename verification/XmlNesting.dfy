/** The round trip of a plain element holds exactly when no element lies inside an element of the
    same qualified name, and no prefix spoils the search for its uri: otherwise the search for the end
    tag stops too early and elements of the tree are lost, or a uri comes back as another one. */
module XmlNesting {
  import opened CText
  import opened XmlText
  import opened XmlRoundTrip

  /** How many `<` a text holds. */
  function Angles(s: string): nat {
    if s == "" then 0 else (if s[0] == '<' then 1 else 0) + Angles(s[1..])
  }

  /** How many elements a list of trees holds. */
  function Elements(ts: seq<Xml>): nat
    decreases ts, 0
  {
    if ts == [] then 0 else ElementsOf(ts[0]) + Elements(ts[1..])
  }

  function ElementsOf(t: Xml): nat
    decreases t, 1
  {
    match t
    case Text(_) => 0
    case Elem(_, _, _, _, kids) => 1 + Elements(kids)
  }

  lemma {:induction false} AnglesConcat(a: string, b: string)
    ensures Angles(a + b) == Angles(a) + Angles(b)
  {
    if a == "" {
      assert a + b == b;
    } else {
      assert (a + b)[1..] == a[1..] + b;
      AnglesConcat(a[1..], b);
    }
  }

  lemma {:induction false} NoAngles(s: string)
    requires Lacks(s, "<")
    ensures Angles(s) == 0
  {
    if s != "" { NoAngles(s[1..]); }
  }

  lemma AnglesCut(s: string, i: nat)
    requires i <= |s|
    ensures Angles(s) == Angles(s[..i]) + Angles(s[i..])
    ensures i < |s| && s[i] == '<' ==> Angles(s[i..]) == 1 + Angles(s[i + 1..])
  {
    assert s == s[..i] + s[i..];
    AnglesConcat(s[..i], s[i..]);
    if i < |s| { assert s[i..][1..] == s[i + 1..]; }
  }

  /** No tag of the text closes itself. */
  predicate TagClean(s: string) {
    forall i :: 0 <= i < |s| && s[i] == '<' ==> CleanBehind(s[i + 1..])
  }

  predicate CleanBehind(t: string) {
    match StrChr(t, '>')
    case None => true
    case Some(r) => !(r > 0 && t[r - 1] == '/')
  }

  lemma CleanSuffix(s: string, i: nat)
    requires TagClean(s) && i <= |s|
    ensures TagClean(s[i..])
  {
    forall k | 0 <= k < |s[i..]| && s[i..][k] == '<' ensures CleanBehind(s[i..][k + 1..]) {
      assert s[i..][k + 1..] == s[i + k + 1..];
    }
  }

  lemma {:induction false} StrChrPrefix(t: string, n: nat, c: char)
    requires n <= |t|
    ensures StrChr(t[..n], c) == match StrChr(t, c)
      case Some(r) => if r < n then Some(r) else None
      case None => None
  {
    if n > 0 {
      assert t[..n][1..] == t[1..][..n - 1];
      StrChrPrefix(t[1..], n - 1, c);
    }
  }

  lemma CleanPrefix(s: string, n: nat)
    requires TagClean(s) && n <= |s|
    ensures TagClean(s[..n])
  {
    forall k | 0 <= k < |s[..n]| && s[..n][k] == '<' ensures CleanBehind(s[..n][k + 1..]) {
      var t := s[k + 1..];
      assert s[..n][k + 1..] == t[..n - k - 1];
      StrChrPrefix(t, n - k - 1, '>');
    }
  }

  lemma {:induction false} StrStrFound(s: string, p: string)
    requires StrStr(s, p).Some?
    ensures p <= s[StrStr(s, p).value..]
  {
    if !(p <= s) { StrStrFound(s[1..], p); assert s[1..][StrStr(s, p).value - 1..] == s[StrStr(s, p).value..]; }
  }

  lemma FindEndAngle(doc: string, q: string)
    requires FindEnd(doc, q).Some?
    ensures doc[FindEnd(doc, q).value] == '<'
  {
    if StrStr(doc, EndTag(q)).Some? {
      StrStrFound(doc, EndTag(q));
    } else {
      StrStrFound(doc, "</" + q + " ");
    }
  }

  lemma CleanFront(s: string)
    requires TagClean(s) && NextTag(s).Done? && NextTag(s).value.Some?
    ensures var front := NextTag(s).value.value;
      !front.empty && TagClean(front.rest) && Angles(front.rest) < Angles(s)
  {
    var f := StrChr(s, '<').value;
    var t := s[f + 1..];
    var r := StrChr(t, '>').value;
    AnglesCut(s, f);
    AnglesCut(t, r + 1);
    CleanSuffix(s, f + 1);
    CleanSuffix(t, r + 1);
  }

  lemma CleanEnd(doc: string, e: nat)
    requires TagClean(doc) && e < |doc| && doc[e] == '<' && StrChr(doc[e..], '>').Some?
    ensures var after := doc[e..][StrChr(doc[e..], '>').value + 1..];
      TagClean(doc[..e]) && TagClean(after) && Angles(doc[..e]) + 1 + Angles(after) <= Angles(doc)
  {
    var t := doc[e..];
    var c := StrChr(t, '>').value;
    AnglesCut(doc, e);
    AnglesCut(t, c + 1);
    AnglesCut(t[..c + 1], 0);
    assert t[..c + 1][0..] == t[..c + 1];
    CleanPrefix(doc, e);
    CleanSuffix(doc, e);
    CleanSuffix(t, c + 1);
  }

  lemma PrependElements(t: Xml, ts: seq<Xml>)
    ensures Elements([t] + ts) == ElementsOf(t) + Elements(ts)
  {
    assert ([t] + ts)[1..] == ts;
  }

  /** Each parsed element takes two angle brackets of a text without self-closing tags. */
  lemma {:induction false} ParsedElements(s: string, some: bool)
    requires TagClean(s) && ParseKids(s, some).Done?
    ensures 2 * Elements(ParseKids(s, some).value) <= Angles(s)
    decreases |s|
  {
    hide TagClean, Angles, FindEnd, NextTag, QName;
    if s != "" && NextTag(s).value.Some? {
      var Front(tag, empty, rest) := NextTag(s).value.value;
      CleanFront(s);
      match FindEnd(rest, QName(tag.prefix, tag.name))
      case None => ParsedElements(rest, some);
      case Some(e) =>
        var after := rest[e..][StrChr(rest[e..], '>').value + 1..];
        FindEndAngle(rest, QName(tag.prefix, tag.name));
        CleanEnd(rest, e);
        ParsedElements(rest[..e], false);
        ParsedElements(after, true);
        PrependElements(Elem(tag.prefix, tag.name, tag.uri, tag.attr, ParseKids(rest[..e], false).value),
          ParseKids(after, true).value);
    }
  }

  // ---------------------------------------------------------------- dumps

  /** The text `p` keeps a clean text clean in front of it. */
  ghost predicate Seals(p: string) {
    forall u: string {:trigger Behind(u)} :: Behind(u) && TagClean(u) ==> TagClean(p + u)
  }

  lemma SealThen(p1: string, p2: string)
    requires Seals(p1) && Seals(p2)
    ensures Seals(p1 + p2)
  {
    forall u: string | Behind(u) && TagClean(u) ensures TagClean(p1 + p2 + u) {
      assert Behind(p2 + u);
      assert p1 + p2 + u == p1 + (p2 + u);
    }
  }

  lemma SealOpen(p: string)
    requires Lacks(p, "<")
    ensures Seals(p)
  {
    forall u: string | Behind(u) && TagClean(u) ensures TagClean(p + u) {
      forall i | 0 <= i < |p + u| && (p + u)[i] == '<' ensures CleanBehind((p + u)[i + 1..]) {
        assert (p + u)[i + 1..] == u[i - |p| + 1..];
      }
    }
  }

  lemma SealTag(body: string)
    requires Lacks(body, "<>") && body != "" && body[|body| - 1] != '/'
    ensures Seals("<" + body + ">")
  {
    var p := "<" + body + ">";
    forall u: string | Behind(u) && TagClean(u) ensures TagClean(p + u) {
      forall i | 0 <= i < |p + u| && (p + u)[i] == '<' ensures CleanBehind((p + u)[i + 1..]) {
        if i == 0 {
          assert (p + u)[1..] == body + ['>'] + u;
          StrChrIn(body, '>', u);
        } else {
          assert i >= |p|;
          assert (p + u)[i + 1..] == u[i - |p| + 1..];
        }
      }
    }
  }

  lemma SealEndTag(q: string)
    requires q != "" && Lacks(q, "/<>")
    ensures Seals(EndTag(q)) && Angles(EndTag(q)) == 1
  {
    assert EndTag(q) == "<" + ("/" + q) + ">";
    SealTag("/" + q);
    AnglesCut(EndTag(q), 0);
    assert EndTag(q)[0..] == EndTag(q);
    NoAngles(EndTag(q)[1..]);
  }

  /** A dump is free of self-closing tags and holds two angle brackets for each element. */
  lemma {:induction false} SealDump(t: Xml, level: nat, space: nat)
    requires Plain(t)
    ensures Seals(Dump(t, level, space)) && Angles(Dump(t, level, space)) == 2 * ElementsOf(t)
    decreases t, 1
  {
    match t
    case Text(text) =>
      SealOpen(text);
      NoAngles(text);
    case Elem(prefix, name, uri, attr, kids) =>
      var start, end := "<" + TagBody(prefix, name, attr) + ">", EndTag(QName(prefix, name));
      var content := Content(kids, level, space);
      TagBodyShape(prefix, name, attr);
      QNameOrdinary(prefix, name);
      SealTag(TagBody(prefix, name, attr));
      AnglesCut(start, 0);
      assert start[0..] == start;
      NoAngles(start[1..]);
      SealContent(kids, level, space);
      SealEndTag(QName(prefix, name));
      SealThen(start, content);
      SealThen(start + content, end);
      AnglesConcat(start, content);
      AnglesConcat(start + content, end);
      DumpShape(t, level, space);
  }

  lemma {:induction false} SealContent(kids: seq<Xml>, level: nat, space: nat)
    requires AllPlain(kids)
    ensures Seals(Content(kids, level, space)) && Angles(Content(kids, level, space)) == 2 * Elements(kids)
    decreases kids, 1
  {
    SealDumpKids(kids, level, space);
    SkimClosing(kids, "", level, space);
    SealOpen(Closing(kids, level, space));
    NoAngles(Closing(kids, level, space));
    SealThen(DumpKids(kids, level, space), Closing(kids, level, space));
    AnglesConcat(DumpKids(kids, level, space), Closing(kids, level, space));
  }

  lemma {:induction false} SealDumpKids(kids: seq<Xml>, level: nat, space: nat)
    requires AllPlain(kids)
    ensures Seals(DumpKids(kids, level, space)) && Angles(DumpKids(kids, level, space)) == 2 * Elements(kids)
    decreases kids, 0
  {
    if kids == [] {
      SealOpen("");
    } else {
      var ind := if kids[0].Elem? then Indent(level, level, space) else "";
      var dump, more := Dump(kids[0], NextLevel(level), space), DumpKids(kids[1..], level, space);
      SealOpen(ind);
      NoAngles(ind);
      SealDump(kids[0], NextLevel(level), space);
      SealDumpKids(kids[1..], level, space);
      SealThen(ind, dump);
      SealThen(ind + dump, more);
      AnglesConcat(ind, dump);
      AnglesConcat(ind + dump, more);
    }
  }

  // ---------------------------------------------------------------- the converse

  lemma {:induction false} StrStrLeast(s: string, p: string, i: nat)
    requires p != "" && i <= |s| && p <= s[i..]
    ensures StrStr(s, p).Some? && StrStr(s, p).value <= i
  {
    if !(p <= s) {
      assert s[1..][i - 1..] == s[i..];
      StrStrLeast(s[1..], p, i - 1);
    }
  }

  /** An end tag that is found before the content is over cuts elements off. */
  lemma CutLosesElements(kids: seq<Xml>, level: nat, space: nat, e: nat)
    requires AllPlain(kids) && e < |Content(kids, level, space)| && Content(kids, level, space)[e] == '<'
    ensures ParseKids(Content(kids, level, space)[..e], false) != Done(kids)
  {
    var content := Content(kids, level, space);
    SealContent(kids, level, space);
    assert Behind("") && TagClean("");
    assert content + "" == content;
    CleanPrefix(content, e);
    AnglesCut(content, e);
    if ParseKids(content[..e], false).Done? {
      ParsedElements(content[..e], false);
    }
  }

  /** If the content of an element is parsed back, the search for its end tag went to its own. */
  lemma EndIsOwn(t: Xml, level: nat, space: nat, rest: string, e: nat)
    requires Plain(t) && t.Elem?
    requires var content := Content(t.kids, level, space);
      var doc := content + EndTag(QName(t.prefix, t.name)) + rest;
      FindEnd(doc, QName(t.prefix, t.name)) == Some(e) && ParseKids(doc[..e], false) == Done(t.kids)
    ensures e == |Content(t.kids, level, space)|
    ensures ParseKids(Content(t.kids, level, space), false) == Done(t.kids)
  {
    var content, end := Content(t.kids, level, space), EndTag(QName(t.prefix, t.name));
    var doc := content + end + rest;
    SplitDoc(content, end, rest);
    StrStrLeast(doc, end, |content|);
    FindEndAngle(doc, QName(t.prefix, t.name));
    if e < |content| {
      assert doc[..e] == content[..e] && doc[e] == content[e];
      CutLosesElements(t.kids, level, space, e);
    }
  }

  lemma {:induction false} NamedTreeShowsEnd(t: Xml, q: string, level: nat, space: nat) returns (i: nat)
    requires Names(t, q)
    ensures i < |Dump(t, level, space)| && EndTag(q) <= Dump(t, level, space)[i..]
    decreases t, 1
  {
    var start := "<" + TagBody(t.prefix, t.name, t.attr) + ">";
    var content, end := Content(t.kids, level, space), EndTag(QName(t.prefix, t.name));
    DumpShape(t, level, space);
    if QName(t.prefix, t.name) == q {
      i := |start + content|;
      assert Dump(t, level, space)[i..] == end;
    } else {
      i := NamedKidsShowEnd(t.kids, q, level, space);
      i := Within(start, content, end, i, EndTag(q));
    }
  }

  lemma Within(a: string, b: string, c: string, i: nat, p: string) returns (k: nat)
    requires i < |b| && p <= b[i..]
    ensures k == |a| + i && p <= (a + b + c)[k..]
  {
    k := |a| + i;
    assert (a + b + c)[k..] == b[i..] + c;
  }

  lemma {:induction false} NamedKidsShowEnd(kids: seq<Xml>, q: string, level: nat, space: nat) returns (i: nat)
    requires AnyNames(kids, q)
    ensures i < |Content(kids, level, space)| && EndTag(q) <= Content(kids, level, space)[i..]
    decreases kids, 1
  {
    i := NamedListShowsEnd(kids, q, level, space);
    i := Within("", DumpKids(kids, level, space), Closing(kids, level, space), i, EndTag(q));
    assert "" + DumpKids(kids, level, space) + Closing(kids, level, space) == Content(kids, level, space);
  }

  lemma {:induction false} NamedListShowsEnd(kids: seq<Xml>, q: string, level: nat, space: nat) returns (i: nat)
    requires AnyNames(kids, q)
    ensures i < |DumpKids(kids, level, space)| && EndTag(q) <= DumpKids(kids, level, space)[i..]
    decreases kids, 0
  {
    var ind := if kids[0].Elem? then Indent(level, level, space) else "";
    var dump, more := Dump(kids[0], NextLevel(level), space), DumpKids(kids[1..], level, space);
    if Names(kids[0], q) {
      i := NamedTreeShowsEnd(kids[0], q, NextLevel(level), space);
      i := Within(ind, dump, more, i, EndTag(q));
    } else {
      var k :| 0 <= k < |kids| && Names(kids[k], q);
      assert kids[1..][k - 1] == kids[k];
      i := NamedListShowsEnd(kids[1..], q, level, space);
      i := Within(ind + dump, more, "", i, EndTag(q));
      assert ind + dump + more + "" == ind + dump + more;
    }
  }

  lemma OwnEndIsUnnamed(t: Xml, level: nat, space: nat, rest: string)
    requires t.Elem?
    requires var content := Content(t.kids, level, space);
      FindEnd(content + EndTag(QName(t.prefix, t.name)) + rest, QName(t.prefix, t.name)) == Some(|content|)
    ensures !AnyNames(t.kids, QName(t.prefix, t.name))
  {
    hide Content, StrStr, QName, AnyNames;
    var q, content := QName(t.prefix, t.name), Content(t.kids, level, space);
    var doc := content + EndTag(q) + rest;
    if AnyNames(t.kids, q) {
      var i := NamedKidsShowEnd(t.kids, q, level, space);
      var k := Within("", content, EndTag(q) + rest, i, EndTag(q));
      assert "" + content + (EndTag(q) + rest) == doc;
      StrStrLeast(doc, EndTag(q), k);
    }
  }

  lemma OwnEndFound(t: Xml, level: nat, space: nat, rest: string)
    requires t.Elem?
    ensures var content, end := Content(t.kids, level, space), EndTag(QName(t.prefix, t.name));
      StrStr(content + end + rest, end).Some?
  {
    var content, end := Content(t.kids, level, space), EndTag(QName(t.prefix, t.name));
    SplitDoc(content, end, rest);
    StrStrLeast(content + end + rest, end, |content|);
  }

  lemma {:induction false} ParsedContentUnnested(t: Xml, level: nat, space: nat)
    requires Plain(t) && t.Elem? && ParseKids(Content(t.kids, level, space), false) == Done(t.kids)
    ensures forall i :: 0 <= i < |t.kids| ==> Unnested(t.kids[i]) && UrisKept(t.kids[i])
    decreases t, 1
  {
    if AllElements(t.kids) {
      SkimClosing(t.kids, "", level, space);
      ParsedKidsUnnested(t.kids, level, space, Closing(t.kids, level, space), false);
    }
  }

  lemma ParsedFirst(s: string, some: bool, tag: Tag, doc: string, e: nat, t: Xml, more: seq<Xml>)
    requires s != "" && NextTag(s) == Done(Some(Front(tag, false, doc)))
    requires FindEnd(doc, QName(tag.prefix, tag.name)) == Some(e)
    requires t.Elem? && ParseKids(s, some) == Done([t] + more)
    ensures ParseKids(doc[..e], false) == Done(t.kids) && tag.uri == t.uri
    ensures StrChr(doc[e..], '>').Some?
    ensures ParseKids(doc[e..][StrChr(doc[e..], '>').value + 1..], true) == Done(more)
  {
    var kids, after := ParseKids(doc[..e], false), ParseKids(doc[e..][StrChr(doc[e..], '>').value + 1..], true);
    var first := Elem(tag.prefix, tag.name, tag.uri, tag.attr, kids.value);
    assert ParseKids(s, some) == Prepend(first, after);
    assert ([t] + more)[0] == t && ([t] + more)[1..] == more;
    assert ([first] + after.value)[0] == first && ([first] + after.value)[1..] == after.value;
  }

  lemma ParsedTag(t: Xml, uri: Option<string>)
    requires t.Elem? && UriRead(t.prefix, t.attr) == Done(uri)
    ensures uri == t.uri <==> UriKept(t.prefix, t.uri, t.attr)
  {}

  lemma ParsedElement(ind: string, t: Xml, level: nat, space: nat, rest: string, some: bool, more: seq<Xml>)
    requires Plain(t) && t.Elem? && Lacks(ind, "<")
    requires ParseKids(ind + Dump(t, level, space) + rest, some) == Done([t] + more)
    ensures ParseKids(Content(t.kids, level, space), false) == Done(t.kids)
    ensures !AnyNames(t.kids, QName(t.prefix, t.name)) && UriKept(t.prefix, t.uri, t.attr)
    ensures ParseKids(rest, true) == Done(more)
  {
    var q, content := QName(t.prefix, t.name), Content(t.kids, level, space);
    var doc := content + EndTag(q) + rest;
    NextTagOfDump(ind, t, level, space, rest);
    DumpNonEmpty(t, level, space);
    var uri := UriRead(t.prefix, t.attr).value;
    OwnEndFound(t, level, space, rest);
    var e := FindEnd(doc, q).value;
    ParsedFirst(ind + Dump(t, level, space) + rest, some, Tag(t.prefix, t.name, uri, t.attr), doc, e, t, more);
    ParsedTag(t, uri);
    EndIsOwn(t, level, space, rest, e);
    OwnEndIsUnnamed(t, level, space, rest);
    SplitDoc(content, EndTag(q), rest);
    QNameOrdinary(t.prefix, t.name);
    EndTagClose(q, rest);
  }

  lemma DumpNonEmpty(t: Xml, level: nat, space: nat)
    requires t.Elem?
    ensures Dump(t, level, space) != ""
  {}

  lemma KeptKid(t: Xml)
    requires t.Elem? && !AnyNames(t.kids, QName(t.prefix, t.name)) && UriKept(t.prefix, t.uri, t.attr)
    requires forall i :: 0 <= i < |t.kids| ==> Unnested(t.kids[i]) && UrisKept(t.kids[i])
    ensures Unnested(t) && UrisKept(t)
  {}

  lemma {:induction false} ParsedKidsUnnested(kids: seq<Xml>, level: nat, space: nat, ws: string, some: bool)
    requires AllPlain(kids) && AllElements(kids) && Lacks(ws, "<")
    requires ParseKids(DumpKids(kids, level, space) + ws, some) == Done(kids)
    ensures forall i :: 0 <= i < |kids| ==> Unnested(kids[i]) && UrisKept(kids[i])
    decreases kids, 0
  {
    if kids != [] {
      hide Dump, DumpKids, ParseKids, Content, Lacks, Plain, Unnested, UrisKept, UriKept, AnyNames, Indent;
      var t := kids[0];
      var more := DumpKids(kids[1..], level, space);
      KidsStep(kids, level, space, ws);
      SkimIndent(level, level, space, "");
      assert kids == [t] + kids[1..];
      ParsedElement(Indent(level, level, space), t, NextLevel(level), space, more + ws, some, kids[1..]);
      ParsedContentUnnested(t, NextLevel(level), space);
      KeptKid(t);
      ParsedKidsUnnested(kids[1..], level, space, ws, true);
      forall i | 0 <= i < |kids| ensures Unnested(kids[i]) && UrisKept(kids[i]) {
        if i > 0 { assert kids[i] == kids[1..][i - 1]; }
      }
    }
  }

  lemma ParsedRoot(s: string, tag: Tag, doc: string, e: nat, t: Xml)
    requires NextTag(s) == Done(Some(Front(tag, false, doc)))
    requires FindEnd(doc, QName(tag.prefix, tag.name)) == Some(e)
    requires t.Elem? && ParseRoot(s) == Done(Some(t))
    ensures ParseKids(doc[..e], false) == Done(t.kids) && tag.uri == t.uri
  {}

  /** What a dumped element must be like if it comes back. */
  lemma RoundTripOnlyIf(ind: string, t: Xml, level: nat, space: nat, rest: string)
    requires Plain(t) && t.Elem? && Lacks(ind, "<")
    requires ParseRoot(ind + Dump(t, level, space) + rest) == Done(Some(t))
    ensures Unnested(t) && UrisKept(t)
  {
    var q, content := QName(t.prefix, t.name), Content(t.kids, level, space);
    var doc := content + EndTag(q) + rest;
    NextTagOfDump(ind, t, level, space, rest);
    var uri := UriRead(t.prefix, t.attr).value;
    OwnEndFound(t, level, space, rest);
    var e := FindEnd(doc, q).value;
    ParsedRoot(ind + Dump(t, level, space) + rest, Tag(t.prefix, t.name, uri, t.attr), doc, e, t);
    ParsedTag(t, uri);
    EndIsOwn(t, level, space, rest, e);
    OwnEndIsUnnamed(t, level, space, rest);
    ParsedContentUnnested(t, level, space);
  }

  /** The round trip, with its exact condition. */
  lemma RoundTripIff(ind: string, t: Xml, level: nat, space: nat, rest: string)
    requires Plain(t) && t.Elem? && Lacks(ind, "<")
    ensures ParseRoot(ind + Dump(t, level, space) + rest) == Done(Some(t)) <==> Unnested(t) && UrisKept(t)
  {
    if Unnested(t) && UrisKept(t) {
      RoundTrip(ind, t, level, space, rest);
    }
    if ParseRoot(ind + Dump(t, level, space) + rest) == Done(Some(t)) {
      RoundTripOnlyIf(ind, t, level, space, rest);
    }
  }

  /** An element inside one of its own name is lost, with whatever stands in front and behind. */
  lemma NestedIsLost(ind: string, level: nat, space: nat, rest: string)
    requires Lacks(ind, "<")
    ensures var t := Elem(None, "a", None, None, [Elem(None, "a", None, None, [])]);
      ParseRoot(ind + Dump(t, level, space) + rest) != Done(Some(t))
  {
    var kid := Elem(None, "a", None, None, []);
    var t := Elem(None, "a", None, None, [kid]);
    assert Plain(kid) && t.kids[0] == kid && Names(kid, "a");
    assert AnyNames(t.kids, "a");
    RoundTripIff(ind, t, level, space, rest);
  }
}
