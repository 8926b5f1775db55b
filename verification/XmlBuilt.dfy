/** Trees as xml_new_element and xml_new_text build them: the attribute text of an element is the
    declaration of its uri. It shows that uri unless the prefix spoils the search for it. */
module XmlBuilt {
  import opened CText
  import opened XmlText
  import opened XmlRoundTrip
  import opened XmlNesting

  /** The quote that the value behind the first `=` is searched by, when that `=` stands in `p`. */
  function Mark(p: string): char {
    match StrChr(p, '=')
    case Some(e) => if At(p, e + 1) == '\'' then '\'' else '\"'
    case None => '\"'
  }

  /** What a prefix that holds its own mark has read in place of any uri: the text up to the next
      mark, which may be the one in front of the uri. None when there is no next one. */
  function Misread(p: string): Option<string>
    requires Mark(p) in p
  {
    var t := p[StrChr(p, Mark(p)).value + 1..];
    match StrChr(t, Mark(p))
    case Some(r) => Some(t[..r])
    case None => if Mark(p) == '\"' then Some(t + "=") else None
  }

  /** The uri of a tag is not mistaken: there is no prefix or no uri, or the prefix does not hold its
      mark, or by coincidence what is read in place of the uri is the uri. */
  predicate DeclarationKept(prefix: Option<string>, uri: Option<string>) {
    prefix.Some? && uri.Some? && Mark(prefix.value) in prefix.value ==> Misread(prefix.value) == uri
  }

  /** An element as it was built, with all elements in it. */
  predicate Built(t: Xml) {
    t.Elem? ==>
      t.attr == NamespaceAttr(t.prefix, t.uri) && (t.uri.Some? ==> Lacks(t.uri.value, "<>\'\""))
      && forall i :: 0 <= i < |t.kids| ==> Built(t.kids[i])
  }

  predicate DeclarationsKept(t: Xml) {
    t.Elem? ==> DeclarationKept(t.prefix, t.uri) && forall i :: 0 <= i < |t.kids| ==> DeclarationsKept(t.kids[i])
  }

  // ---------------------------------------------------------------- what is read for a declared uri

  /** The value read behind a declaration `ns` and its uri. */
  function ReadBehind(ns: string, u: string): Outcome<string> {
    if Mark(ns) !in ns then Done(u)
    else
      match Misread(ns)
      case Some(v) => Done(v)
      case None => Undefined
  }

  lemma MarkOf(ns: string, u: string)
    ensures var s := ns + ("=\"" + u + "\"");
      StrChr(s, '=').Some? && Mark(ns) == if At(s, StrChr(s, '=').value + 1) == '\'' then '\'' else '\"'
  {
    var b := "=\"" + u + "\"";
    if '=' in ns {
      StrChrEarly(ns, '=', b);
    } else {
      StrChrOver(ns, '=', b);
    }
  }

  lemma QuotedUri(ns: string, u: string)
    requires Lacks(u, "\'\"")
    ensures QuotedValue(ns + ("=\"" + u + "\"")) == ReadBehind(ns, u)
  {
    hide Mark, StrChr, QuotedValue;
    var m := Mark(ns);
    MarkOf(ns, u);
    if m in ns {
      StrChrEarly(ns, m, "=\"" + u + "\"");
      QuotedBy(ns + ("=\"" + u + "\""), m, StrChr(ns, m).value);
      QuotedInside(ns, u, StrChr(ns, m).value);
    } else {
      UnquotedMark(ns);
      BehindEquals(u);
      StrChrOver(ns, '\"', "=\"" + u + "\"");
      QuotedBy(ns + ("=\"" + u + "\""), m, |ns| + 1);
      assert (ns + ("=\"" + u + "\""))[|ns| + 2..] == u + ['\"'] + "";
      StrChrIn(u, '\"', "");
      assert (u + ['\"'] + "")[..|u|] == u;
    }
  }

  lemma QuotedInside(ns: string, u: string, f: nat)
    requires Lacks(u, "\'\"") && f < |ns| && (Mark(ns) == '\'' || Mark(ns) == '\"')
    ensures var t, m := ns[f + 1..], Mark(ns);
      var s := (ns + ("=\"" + u + "\""))[f + 1..];
      (match StrChr(s, m) case Some(r) => Done(s[..r]) case None => Undefined)
      == (match StrChr(t, m)
          case Some(r) => Done(t[..r])
          case None => if m == '\"' then Done(t + "=") else Undefined)
  {
    hide Mark, StrChr;
    var t, m, b := ns[f + 1..], Mark(ns), "=\"" + u + "\"";
    assert (ns + b)[f + 1..] == t + b;
    if m in t {
      StrChrEarly(t, m, b);
      assert (t + b)[..StrChr(t, m).value] == t[..StrChr(t, m).value];
    } else {
      StrChrOver(t, m, b);
      BehindEquals(u);
      assert (t + b)[..|t| + 1] == t + "=";
    }
  }

  lemma UnquotedMark(ns: string)
    ensures Mark(ns) == '\"' || (Mark(ns) == '\'' && '\'' in ns)
  {}

  lemma BehindEquals(u: string)
    requires Lacks(u, "\'\"")
    ensures StrChr("=\"" + u + "\"", '\"') == Some(1) && StrChr("=\"" + u + "\"", '\'') == None
  {
    assert "=\"" + u + "\"" == "=" + ['\"'] + (u + "\"");
    StrChrIn("=", '\"', u + "\"");
  }

  /** A declaration keeps what a prefix has read. */
  lemma MarkOfPrefix(a: string, p: string)
    requires Lacks(a, "=\'\"")
    ensures Mark(a + p) == Mark(p) && (Mark(p) in a + p <==> Mark(p) in p)
    ensures Mark(p) in p ==> Misread(a + p) == Misread(p)
  {
    hide StrChr;
    StrChrOver(a, '=', p);
    UnquotedMark(p);
    StrChrOver(a, Mark(p), p);
    assert Mark(a + p) == Mark(p) by {
      if '=' in p {
        var e := StrChr(p, '=').value;
        assert At(a + p, |a| + e + 1) == At(p, e + 1);
      }
    }
    if Mark(p) in p {
      var f := StrChr(p, Mark(p)).value;
      assert (a + p)[|a| + f + 1..] == p[f + 1..];
    }
  }

  lemma ReadOfPrefix(prefix: Option<string>, u: string)
    ensures ReadBehind(" " + Declaration(prefix), u) == Done(u) <==> DeclarationKept(prefix, Some(u))
    ensures prefix.Some? && Mark(prefix.value) in prefix.value ==>
      ReadBehind(" " + Declaration(prefix), u)
      == match Misread(prefix.value) case Some(v) => Done(v) case None => Undefined
  {
    match prefix
    case Some(p) =>
      assert " " + Declaration(prefix) == " xmlns:" + p;
      MarkOfPrefix(" xmlns:", p);
    case None =>
      assert " " + Declaration(prefix) == " xmlns" + "";
      MarkOfPrefix(" xmlns", "");
  }

  lemma DeclarationText(prefix: Option<string>, u: string)
    ensures AttrPart(NamespaceAttr(prefix, Some(u))) == (" " + Declaration(prefix)) + ("=\"" + u + "\"")
  {}

  lemma ReadsDeclaration(prefix: Option<string>, u: string)
    requires Lacks(u, "\'\"")
    ensures UriRead(prefix, NamespaceAttr(prefix, Some(u)))
         == match ReadBehind(" " + Declaration(prefix), u) case Done(v) => Done(Some(v)) case Undefined => Undefined
  {
    hide ReadBehind, QuotedValue, NamespaceAttr, Declaration;
    var ns, b := " " + Declaration(prefix), "=\"" + u + "\"";
    DeclarationText(prefix, u);
    assert ns <= ns + b && (ns + b)[0..] == ns + b;
    QuotedUri(ns, u);
  }

  /** A declared uri is shown if and only if the prefix does not spoil it. */
  lemma DeclaredUri(prefix: Option<string>, uri: Option<string>)
    requires uri.Some? ==> Lacks(uri.value, "<>\'\"")
    ensures UriKept(prefix, uri, NamespaceAttr(prefix, uri)) <==> DeclarationKept(prefix, uri)
  {
    match uri
    case Some(u) =>
      ReadsDeclaration(prefix, u);
      ReadOfPrefix(prefix, u);
    case None =>
  }

  lemma {:induction false} DeclaredUris(t: Xml)
    requires Built(t)
    ensures UrisKept(t) <==> DeclarationsKept(t)
  {
    hide UriKept, DeclarationKept;
    if t.Elem? {
      DeclaredUri(t.prefix, t.uri);
      forall i | 0 <= i < |t.kids| ensures UrisKept(t.kids[i]) <==> DeclarationsKept(t.kids[i]) {
        DeclaredUris(t.kids[i]);
      }
    }
  }

  /** The round trip of a tree that was built, with its exact condition on names, prefixes and uris. */
  lemma BuiltRoundTripIff(ind: string, t: Xml, level: nat, space: nat, rest: string)
    requires Plain(t) && t.Elem? && Built(t) && Lacks(ind, "<")
    ensures ParseRoot(ind + Dump(t, level, space) + rest) == Done(Some(t)) <==> Unnested(t) && DeclarationsKept(t)
  {
    hide Dump, ParseRoot, Plain, Unnested, UrisKept, DeclarationsKept, Built;
    RoundTripIff(ind, t, level, space, rest);
    DeclaredUris(t);
  }

  // ---------------------------------------------------------------- prefixes with quotes

  lemma MisreadPrefixes()
    ensures Mark("a\"b") == '\"' && Misread("a\"b") == Some("b=")
    ensures Mark("=\'") == '\'' && Misread("=\'") == None
  {
    var p, p' := "a\"b", "=\'";
    assert p == "a" + ['\"'] + "b" && p' == "=" + ['\''] + "" && p' == "" + ['='] + "\'";
    StrChrIn("a", '\"', "b");
    StrChrIn("=", '\'', "");
    StrChrIn("", '=', "\'");
    assert p[2..] == "b" && p'[2..] == "" && "b" + "=" == "b=";
  }

  lemma ReadsMisread(p: string, u: string)
    requires Mark(p) in p && Lacks(u, "\'\"")
    ensures UriRead(Some(p), NamespaceAttr(Some(p), Some(u)))
         == match Misread(p) case Some(v) => Done(Some(v)) case None => Undefined
  {
    hide ReadBehind, UriRead, Misread, Mark;
    ReadsDeclaration(Some(p), u);
    ReadOfPrefix(Some(p), u);
  }

  /** A quote in a prefix that spoils its uri, one that spoils the whole tag, and one that happens to
      stand in front of the same text. */
  lemma QuotedPrefixes()
    ensures ParseTag(TagBody(Some("a\"b"), "n", NamespaceAttr(Some("a\"b"), Some("u"))))
         == Done(Tag(Some("a\"b"), "n", Some("b="), NamespaceAttr(Some("a\"b"), Some("u"))))
    ensures ParseTag(TagBody(Some("=\'"), "n", NamespaceAttr(Some("=\'"), Some("u")))) == Undefined
    ensures ParseTag(TagBody(Some("a\"b"), "n", NamespaceAttr(Some("a\"b"), Some("b="))))
         == Done(Tag(Some("a\"b"), "n", Some("b="), NamespaceAttr(Some("a\"b"), Some("b="))))
  {
    hide ParseTag, TagBody, NamespaceAttr, Mark, Misread, StrChr;
    MisreadPrefixes();
    QuotedTag("a\"b", "u");
    QuotedTag("=\'", "u");
    QuotedTag("a\"b", "b=");
  }

  lemma QuotedTag(p: string, u: string)
    requires Ordinary(p) && Mark(p) in p && Lacks(u, "<>\'\"")
    ensures var attr := NamespaceAttr(Some(p), Some(u));
      ParseTag(TagBody(Some(p), "n", attr)) == match Misread(p)
        case Some(v) => Done(Tag(Some(p), "n", Some(v), attr))
        case None => Undefined
  {
    hide ParseTag, TagBody, Mark, Misread, UriRead;
    var attr := NamespaceAttr(Some(p), Some(u));
    ReadsMisread(p, u);
    assert Ordinary("n") && Attributes(attr.value);
    TagRoundTrip(Some(p), "n", None, attr);
  }
}
