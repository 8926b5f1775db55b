/** The dump of a tree, flat or in lines, is a document of the grammar that means the tree. */
module XmlLayout {
  import opened CText
  import opened XmlText
  import opened XmlRoundTrip
  import opened XmlTokens
  import opened XmlGrammar

  /** In lines, each element stands on a line of its own, behind `n` spaces. */
  function Line(lines: bool, n: nat): string {
    if lines then "\n" + seq(n, _ => ' ') else ""
  }

  /** The element behind `lead`. Its child elements stand on lines, `level` times `space` spaces deep and the
      children in them one time deeper, and its end tag behind them stands one time less deep; words stand
      between the tags themselves. At level 0 there are no lines. */
  function Written(t: Xml, lead: string, level: nat, space: nat): Node
    requires t.Elem?
    decreases t, 1
  {
    var mark := Mark(t.prefix, t.name, " ", t.attr, "");
    if |t.kids| == 1 && t.kids[0].Text? then Node(lead, mark, t.uri, false, [], t.kids[0].text, "")
    else
      Node(lead, mark, t.uri, false, WrittenAll(t.kids, level, space),
        if t.kids == [] || level == 0 then "" else Line(true, (level - 1) * space), "")
  }

  function WrittenAll(kids: seq<Xml>, level: nat, space: nat): seq<Node>
    decreases kids, 0
  {
    if kids == [] then []
    else
      (if kids[0].Elem? then
         [Written(kids[0], Line(level > 0, level * space), if level == 0 then 0 else level + 1, space)]
       else [])
      + WrittenAll(kids[1..], level, space)
  }

  lemma LineIs(level: nat, n: nat, space: nat)
    ensures Line(level > 0, n * space) == Indent(level, n, space) && Lacks(Line(level > 0, n * space), "<")
  {}

  lemma MarkTextIs(prefix: Option<string>, name: string, attr: Option<string>)
    ensures MarkText(Mark(prefix, name, " ", attr, "")) == TagBody(prefix, name, attr)
  {
    if attr.Some? { assert " " + attr.value + "" == " " + attr.value; }
  }

  lemma MarkFitting(prefix: Option<string>, name: string, attr: Option<string>)
    requires TagFits(prefix, name, attr)
    ensures MarkFits(Mark(prefix, name, " ", attr, ""))
  {
    hide TagFits;
  }

  /** What stands between the tags. */
  function Between(n: Node): string {
    TextOf(Inner(n.kids, n.tail))
  }

  lemma SpellBetween(n: Node)
    requires !n.closed
    ensures Spell(n) == n.lead + ("<" + MarkText(n.mark) + ">" + Between(n) + StopText(Named(n.mark), n.spaces))
  {
    hide TextOf, Inner, Spell, MarkText, StopText;
    SpellParts(n, "");
    TextPlus(Inner(n.kids, n.tail), [OwnStop(n)]);
    StopAlone(OwnStop(n));
    JoinedUp(n.lead, MarkText(n.mark), Between(n), StopText(Named(n.mark), n.spaces));
    assert Spell(n) + "" == Spell(n);
  }

  lemma StopAlone(t: Token)
    ensures TextOf([t]) == TokenText(t)
  {
    hide TokenText;
    TextFirst([t]);
    assert TokenText(t) + "" == TokenText(t);
  }

  lemma JoinedUp(lead: string, body: string, x: string, end: string)
    ensures lead + ("<" + body + ">" + (x + end + "")) == lead + ("<" + body + ">" + x + end)
  {}

  lemma {:induction false} WrittenSpells(t: Xml, lead: string, level: nat, space: nat)
    requires Plain(t) && t.Elem?
    ensures Spell(Written(t, lead, level, space)) == lead + Dump(t, level, space)
    decreases t, 1
  {
    hide Spell, Between, Content, Dump, MarkText, TagBody, StopText, EndTag, Plain;
    var n := Written(t, lead, level, space);
    SpellBetween(n);
    MarkTextIs(t.prefix, t.name, t.attr);
    DumpShape(t, level, space);
    StopIsEnd(Named(n.mark));
    assert Between(n) == Content(t.kids, level, space) by { BetweenIs(t, lead, level, space); }
  }

  lemma StopIsEnd(q: string)
    ensures StopText(q, "") == EndTag(q)
  {}

  lemma {:induction false} BetweenIs(t: Xml, lead: string, level: nat, space: nat)
    requires Plain(t) && t.Elem?
    ensures Between(Written(t, lead, level, space)) == Content(t.kids, level, space)
    decreases t, 0
  {
    hide Plain, TextOf, Closing, Line, Dump, DumpKids;
    var n, kids := Written(t, lead, level, space), t.kids;
    assert AllPlain(kids) && ((|kids| == 1 && kids[0].Text?) || AllElements(kids)) by { PlainKids(t); }
    if |kids| == 1 && kids[0].Text? {
      TextContent(kids, level, space);
      StopAlone(Words(n.tail));
      assert Inner([], n.tail) == [Words(n.tail)];
      assert TokenText(Words(n.tail)) == n.tail;
    } else {
      KidsSpell(kids, level, space, n.tail);
      ClosingIs(kids, level, space);
    }
  }

  lemma PlainKids(t: Xml)
    requires Plain(t) && t.Elem?
    ensures AllPlain(t.kids) && ((|t.kids| == 1 && t.kids[0].Text?) || AllElements(t.kids))
    ensures TagFits(t.prefix, t.name, t.attr)
  {}

  lemma ClosingIs(kids: seq<Xml>, level: nat, space: nat)
    requires AllElements(kids)
    ensures Closing(kids, level, space) == if kids == [] || level == 0 then "" else Line(true, (level - 1) * space)
  {
    if level > 0 { LineIs(level, level - 1, space); }
  }

  lemma {:induction false} KidsSpell(kids: seq<Xml>, level: nat, space: nat, tail: string)
    requires AllPlain(kids) && AllElements(kids)
    ensures TextOf(Inner(WrittenAll(kids, level, space), tail)) == DumpKids(kids, level, space) + tail
    decreases kids, 0
  {
    if kids == [] {
      StopAlone(Words(tail));
      assert Inner([], tail) == [Words(tail)];
      assert "" + tail == tail;
    } else {
      hide Plain, TextOf, Dump, Line, Indent, Written, Inner;
      var ind, next := Line(level > 0, level * space), if level == 0 then 0 else level + 1;
      var n, more := Written(kids[0], ind, next, space), WrittenAll(kids[1..], level, space);
      assert WrittenAll(kids, level, space) == [n] + more && ([n] + more)[1..] == more;
      InnerFirst([n] + more, tail);
      TextPlus(TokensOf(n), Inner(more, tail));
      WrittenSpells(kids[0], ind, next, space);
      KidsSpell(kids[1..], level, space, tail);
      LineIs(level, level, space);
      KidsStep(kids, level, space, tail);
      Reassoc(ind, Dump(kids[0], next, space), DumpKids(kids[1..], level, space) + tail);
    }
  }

  lemma InnerFirst(ns: seq<Node>, tail: string)
    requires ns != []
    ensures Inner(ns, tail) == TokensOf(ns[0]) + Inner(ns[1..], tail)
  {}

  lemma Reassoc(a: string, b: string, c: string)
    ensures a + b + c == (a + b) + c
  {}

  /** Meaning and fit. */
  lemma {:induction false} WrittenMeans(t: Xml, lead: string, level: nat, space: nat)
    requires Plain(t) && t.Elem? && Lacks(lead, "<")
    ensures Fits(Written(t, lead, level, space)) && TreeOf(Written(t, lead, level, space)) == t
    decreases t, 1
  {
    hide Line, Lacks, TagFits, MarkFits;
    var n := Written(t, lead, level, space);
    MarkFitting(t.prefix, t.name, t.attr);
    NothingLacks();
    if |t.kids| == 1 && t.kids[0].Text? {
      assert Plain(t.kids[0]);
      assert t.kids == [t.kids[0]];
    } else {
      AllWrittenMean(t.kids, level, space, n.tail, false);
      if level > 0 { LineIs(level, level - 1, space); }
    }
  }

  lemma NothingLacks()
    ensures Lacks("", "<") && Spaces("")
  {}

  lemma {:induction false} AllWrittenMean(kids: seq<Xml>, level: nat, space: nat, tail: string, some: bool)
    requires AllPlain(kids) && AllElements(kids)
    requires kids == [] ==> some || tail == ""
    ensures AllFit(WrittenAll(kids, level, space)) && TreesOf(WrittenAll(kids, level, space), tail, some) == kids
    decreases kids, 0
  {
    if kids != [] {
      hide Line, Plain, Written, Fits;
      var ind := Line(level > 0, level * space);
      LineIs(level, level, space);
      WrittenMeans(kids[0], ind, if level == 0 then 0 else level + 1, space);
      AllWrittenMean(kids[1..], level, space, tail, true);
      hide TreeOf;
      var n := Written(kids[0], ind, if level == 0 then 0 else level + 1, space);
      var more := WrittenAll(kids[1..], level, space);
      assert WrittenAll(kids, level, space) == [n] + more && ([n] + more)[1..] == more;
    }
  }

  /** A dump is the written form of its tree, and that form means the tree. */
  lemma DumpIsDocument(t: Xml, level: nat, space: nat)
    requires Plain(t) && t.Elem?
    ensures var n := Written(t, "", level, space);
      Fits(n) && Spell(n) == Dump(t, level, space) && TreeOf(n) == t
  {
    hide Spell, Dump, Fits, TreeOf, Written;
    assert Lacks("", "<") by { NothingLacks(); }
    WrittenSpells(t, "", level, space);
    WrittenMeans(t, "", level, space);
    assert "" + Dump(t, level, space) == Dump(t, level, space);
  }
}
