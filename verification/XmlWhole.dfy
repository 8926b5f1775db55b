/** The dumper and the parser together, on trees in memory. */
module XmlWhole {
  import opened CText
  import opened XmlText
  import opened XmlTree
  import XmlRoundTrip
  import XmlProlog
  import Grammar = XmlGrammar
  import Document = XmlDocument
  import Dumper = XmlDump
  import Parser = XmlParser

  /** The text that a buffer holds, by its terminator. */
  method TextOf(buf: array<char>, ghost s: string) returns (text: string)
    requires Dumper.Holds(buf[..], s)
    ensures text == s
  {
    var n := 0;
    while buf[n] != '\0'
      invariant n <= |s|
      decreases |s| - n
    {
      Dumper.StopsAtEnd(buf[..], s, n);
      n := n + 1;
    }
    Dumper.StopsAtEnd(buf[..], s, n);
    text := buf[..n];
  }

  lemma FrontIsProlog(prolog: Option<string>, newLine: nat)
    requires prolog.Some? ==> XmlProlog.Prolog(prolog.value)
    ensures XmlProlog.Prolog(Dumper.Front(prolog, newLine))
  {
    if prolog.Some? && newLine != 0 {
      var p, f := prolog.value, prolog.value + "\n";
      forall i | 0 <= i < |f| && f[i] == '<' ensures XmlProlog.Opens(f[i..]) {
        assert p[i] == '<' && XmlProlog.Opens(p[i..]);
        assert f[i..] == p[i..] + "\n";
      }
    }
  }

  /** The trees that come back from a dump. */
  ghost predicate Kept(t: Xml) {
    XmlRoundTrip.Unnested(t) && XmlRoundTrip.UrisKept(t) && XmlProlog.Unmarked(t)
  }

  /** Dumping a tree, flat or in lines, with a prolog or without, and parsing the text builds a new
      tree that stands for the same document. */
  method DumpAndParse(root: Node, prolog: Option<string>, newLine: nat, space: nat, ghost sh: Shape)
    returns (copy: Node?, ghost built: Option<Shape>)
    requires Laid(sh) && sh.node == root && Dumper.Dumpable(sh) && IsElement(sh.data)
    requires newLine <= 1 || space == 0 || Dumper.NoElementChild(Dumper.XmlOf(sh))
    requires prolog.Some? ==> XmlProlog.Prolog(prolog.value) && NoNul(prolog.value)
    requires XmlRoundTrip.Plain(Dumper.XmlOf(sh)) && Kept(Dumper.XmlOf(sh))
    ensures Laid(sh) && copy != null && Parser.Built(built, copy, Dumper.XmlOf(sh)) && fresh(Nodes(built.value))
  {
    hide Inside, Apart, Nodes, Dump, ParseXml, Dumper.XmlOf, Dumper.Dumpable, Dumper.Holds, Parser.Built;
    hide XmlRoundTrip.Plain, XmlRoundTrip.Unnested, XmlRoundTrip.UrisKept, XmlProlog.Unmarked, XmlProlog.Prolog;
    hide Dumper.NoElementChild;
    ghost var t, cut := Dumper.XmlOf(sh), if space > 10 then 10 else space;
    AllAllocated(sh);
    var buf := Dumper.DumpTreeEx(root, prolog, newLine, space, sh);
    var text := TextOf(buf, Dumper.Front(prolog, newLine) + Dump(t, newLine, cut));
    FrontIsProlog(prolog, newLine);
    XmlProlog.ParseXmlRoundTrip(Dumper.Front(prolog, newLine), t, newLine, cut);
    HeldNoNul(buf[..], text);
    copy, built := Parser.Parse(text);
  }

  lemma HeldNoNul(b: string, s: string)
    requires Dumper.Holds(b, s)
    ensures NoNul(s)
  {}

  /** Parsing a document as it may be written, with spaces in its tags, tags that close themselves, and
      words anywhere, builds a new tree that stands for it. */
  method ParseDocument(doc: string, ghost prolog: string, ghost n: Grammar.Node, ghost rest: string)
    returns (root: Node?, ghost built: Option<Shape>)
    requires NoNul(doc) && doc == prolog + (Grammar.Spell(n) + rest)
    requires XmlProlog.Prolog(prolog) && Grammar.Fits(n) && Document.NamesUnmarked(n) && XmlRoundTrip.Lacks(rest, "<")
    requires Grammar.EndsFound([n]) && Grammar.UrisShown([n])
    ensures root != null && Parser.Built(built, root, Grammar.TreeOf(n)) && fresh(Nodes(built.value))
  {
    hide Nodes, ParseXml, Parser.Built, Grammar.Fits, Grammar.Spell, Grammar.EndsFound, Grammar.UrisShown;
    hide Grammar.TreeOf, XmlProlog.Prolog, Document.NamesUnmarked;
    Document.DocumentIff(prolog, n, rest);
    root, built := Parser.Parse(doc);
  }
}
