/** Written documents behind a prolog, and what a few of them are parsed to. */
module XmlDocument {
  import opened CText
  import opened XmlText
  import opened XmlRoundTrip
  import opened XmlTokens
  import opened XmlGrammar
  import opened XmlProlog

  // ---------------------------------------------------------------- behind a prolog

  /** A tag whose name is not marked like an instruction or a declaration. */
  predicate TokenUnmarked(t: Token) {
    match t
    case Start(m) => NameFits(Named(m))
    case Single(m) => NameFits(Named(m))
    case _ => true
  }

  predicate TokensUnmarked(ts: seq<Token>) {
    forall i :: 0 <= i < |ts| ==> TokenUnmarked(ts[i])
  }

  predicate NamesUnmarked(n: Node) {
    NameFits(Named(n.mark)) && forall i :: 0 <= i < |n.kids| ==> NamesUnmarked(n.kids[i])
  }

  lemma MoreUnmarked(a: seq<Token>, b: seq<Token>)
    requires TokensUnmarked(a) && TokensUnmarked(b)
    ensures TokensUnmarked(a + b)
  {
    hide TokenUnmarked;
  }

  lemma {:induction false} NodeUnmarked(n: Node)
    requires NamesUnmarked(n)
    ensures TokensUnmarked(TokensOf(n))
    decreases n, 1
  {
    hide NameFits;
    if !n.closed { InnerUnmarked(n.kids, n.tail); }
  }

  lemma {:induction false} InnerUnmarked(ns: seq<Node>, tail: string)
    requires forall i :: 0 <= i < |ns| ==> NamesUnmarked(ns[i])
    ensures TokensUnmarked(Inner(ns, tail))
    decreases ns, 0
  {
    hide NamesUnmarked, TokensOf;
    if ns != [] {
      NodeUnmarked(ns[0]);
      InnerUnmarked(ns[1..], tail);
      MoreUnmarked(TokensOf(ns[0]), Inner(ns[1..], tail));
    }
  }

  lemma MarkFirst(m: Mark)
    requires MarkFits(m)
    ensures MarkText(m) != "" && MarkText(m)[0] == Named(m)[0] && Lacks(MarkText(m), "<>")
  {
    MarkShape(m);
  }

  lemma TagTextNoOpen(text: string, body: string, c: char)
    requires body != "" && body[0] != c && Lacks(body, "<") && text == "<" + body + ">"
    ensures NoOpen(text, c)
  {
    TagNoOpen(body, c);
  }

  lemma StopNoOpen(q: string, spaces: string, c: char)
    requires Lacks(q, "<") && Spaces(spaces) && (c == '?' || c == '!')
    ensures NoOpen(StopText(q, spaces), c)
  {
    TagTextNoOpen(StopText(q, spaces), "/" + q + spaces, c);
  }

  lemma TokenNoOpen(t: Token, c: char)
    requires TokenFits(t) && TokenUnmarked(t) && (c == '?' || c == '!')
    ensures NoOpen(TokenText(t), c)
  {
    hide MarkText, Named, MarkFits, NoOpen, StopText;
    match t
    case Words(s) => NoAngleNoOpen(s, c);
    case Start(m) =>
      MarkFirst(m);
      TagTextNoOpen(TokenText(t), MarkText(m), c);
    case Single(m) =>
      MarkFirst(m);
      TagTextNoOpen(TokenText(t), MarkText(m) + "/", c);
    case Stop(prefix, name, spaces) =>
      QNameOrdinary(prefix, name);
      StopNoOpen(QName(prefix, name), spaces, c);
  }

  lemma {:induction false} TextNoOpen(ts: seq<Token>, c: char)
    requires Fit(ts) && TokensUnmarked(ts) && (c == '?' || c == '!')
    ensures NoOpen(TextOf(ts), c)
  {
    if ts != [] {
      TokenNoOpen(ts[0], c);
      hide TokenText, TokenFits, TokenUnmarked;
      TextNoOpen(ts[1..], c);
      NoOpenThen(TokenText(ts[0]), TextOf(ts[1..]), c);
    }
  }

  lemma {:induction false} NotInWords(s: string, p: string)
    requires Lacks(s, "<") && p != "" && p[0] == '<'
    ensures StrStr(s, p) == None
  {
    if s != "" { NotInWords(s[1..], p); }
  }

  lemma SpellSome(n: Node)
    ensures Spell(n) != ""
  {
    SpellParts(n, "");
    assert Spell(n) + "" == Spell(n);
    hide Spell;
    TagTextSome(if n.closed then Single(n.mark) else Start(n.mark), n.lead,
      if n.closed then "" else TextOf(Inner(n.kids, n.tail) + [OwnStop(n)]) + "");
  }

  /** Words in front of a document belong to its lead. */
  lemma LedBy(ind: string, n: Node)
    requires Fits(n) && Lacks(ind, "<")
    ensures var n' := n.(lead := ind + n.lead);
      Fits(n') && Spell(n') == ind + Spell(n) && TreeOf(n') == TreeOf(n)
    ensures EndsFound([n.(lead := ind + n.lead)]) == EndsFound([n])
    ensures UrisShown([n.(lead := ind + n.lead)]) == UrisShown([n])
  {
    var n' := n.(lead := ind + n.lead);
    LeadFits(ind, n);
    hide TextOf, TokenText, Inner, TreesOf, EndsFound, UrisShown, Fits, TokensOf, EndFound, UriKept, Spell, Lacks;
    OnlyOne(n);
    OnlyOne(n');
    assert EndFound(n, []) == EndFound(n', []) by { SameEnds(ind, n); }
    assert Spell(n') == ind + Spell(n) by { LeadText(ind, n); }
  }

  lemma LeadText(ind: string, n: Node)
    ensures Spell(n.(lead := ind + n.lead)) == ind + Spell(n)
  {
    hide TextOf, TokenText, Inner, Spell;
    var n' := n.(lead := ind + n.lead);
    var x := if n.closed then TokenText(Single(n.mark)) + ""
      else TokenText(Start(n.mark)) + (TextOf(Inner(n.kids, n.tail) + [OwnStop(n)]) + "");
    SpellParts(n, "");
    SpellParts(n', "");
    Regrouped(ind, n.lead, x, Spell(n), Spell(n'));
  }

  lemma Regrouped(a: string, b: string, c: string, x: string, x': string)
    requires x + "" == b + c && x' + "" == a + b + c
    ensures x' == a + x
  {
    assert x + "" == x && x' + "" == x';
  }

  lemma LeadFits(ind: string, n: Node)
    requires Fits(n) && Lacks(ind, "<")
    ensures Fits(n.(lead := ind + n.lead))
  {
    hide MarkFits, Spaces;
  }

  lemma SameEnds(ind: string, n: Node)
    ensures EndFound(n, []) == EndFound(n.(lead := ind + n.lead), [])
  {
    hide AnyEnds;
  }

  /** A document behind any prolog, with words behind it, is parsed to its tree if and only if the search
      for an end tag finds the own one of each element, and no prefix spoils a uri. */
  lemma DocumentIff(prolog: string, n: Node, rest: string)
    requires Prolog(prolog) && Fits(n) && NamesUnmarked(n) && Lacks(rest, "<")
    ensures ParseXml(prolog + (Spell(n) + rest)) == Done(Some(TreeOf(n))) <==> EndsFound([n]) && UrisShown([n])
  {
    hide Spell, Fits, ParseXml, ParseRoot, Prolog, NoOpen, TreeOf, EndsFound, UrisShown, StrStr, Named, NamesUnmarked;
    hide Lacks, TokenFits, TokenUnmarked, TokensOf;
    var d := Spell(n) + rest;
    TokensFit(n);
    NodeUnmarked(n);
    forall c | c == '?' || c == '!' ensures NoOpen(d, c) {
      TextNoOpen(TokensOf(n), c);
      assert Spell(n) == TextOf(TokensOf(n)) by { SpellIs(n); }
      NoAngleNoOpen(rest, c);
      NoOpenThen(Spell(n), rest, c);
    }
    SpellSome(n);
    var ind := PrologSkipped(prolog, d);
    LedBy(ind, n);
    NotInWords(rest, EndTag(Named(n.mark)));
    ParseIff(n.(lead := ind + n.lead), rest);
    assert ind + Spell(n) + rest == ind + d;
  }

  lemma SpellIs(n: Node)
    ensures Spell(n) == TextOf(TokensOf(n))
  {}

  // ---------------------------------------------------------------- particular documents

  lemma {:induction false} NothingInside(ns: seq<Node>, q: string, spaced: bool)
    requires ns == []
    ensures !AnyEnds(ns, q, spaced)
  {}

  lemma LeafFits(prefix: Option<string>, name: string, uri: Option<string>, attr: Option<string>, text: string,
                 spaces: string)
    requires TagFits(prefix, name, attr) && UriKept(prefix, uri, attr) && Lacks(text, "<") && Spaces(spaces)
    ensures var n := Node("", Mark(prefix, name, " ", attr, ""), uri, false, [], text, spaces);
      Fits(n) && EndsFound([n]) && UrisShown([n])
    ensures var n := Node("", Mark(prefix, name, " ", attr, ""), uri, false, [], text, spaces);
      Spell(n) == "<" + TagBody(prefix, name, attr) + ">" + text + "</" + QName(prefix, name) + spaces + ">"
  {
    var m := Mark(prefix, name, " ", attr, "");
    var n := Node("", m, uri, false, [], text, spaces);
    hide UriRead, EndTag, TextOf, Inner, Spell, TagFits, Lacks, AnyEnds;
    OnlyOne(n);
    NothingInside([], Named(m), false);
    NothingInside([], Named(m), true);
    assert Spaces("") && Lacks("", "<") by { WordsFit(); }
    SpellParts(n, "");
    LeafText(text, OwnStop(n));
    LeafMark(prefix, name, attr);
    LeafJoin(TagBody(prefix, name, attr), text, QName(prefix, name), spaces);
    assert Spell(n) + "" == Spell(n);
  }

  lemma LeafMark(prefix: Option<string>, name: string, attr: Option<string>)
    ensures MarkText(Mark(prefix, name, " ", attr, "")) == TagBody(prefix, name, attr)
  {
    if attr.Some? { assert " " + attr.value + "" == " " + attr.value; }
  }

  lemma LeafJoin(body: string, text: string, q: string, spaces: string)
    ensures "" + ("<" + body + ">" + (text + StopText(q, spaces) + ""))
         == "<" + body + ">" + text + "</" + q + spaces + ">"
  {}

  lemma WordsFit()
    ensures Lacks("", "<") && Lacks(" ", "<") && Spaces("")
  {}

  lemma LeafText(text: string, t: Token)
    ensures TextOf(Inner([], text) + [t]) == text + TokenText(t)
  {
    assert Inner([], text) + [t] == [Words(text), t];
    TwoTexts(text, t);
  }

  /** An element of words comes back with any number of spaces in its end tag, and with anything behind it,
      as long as no end tag of its name without spaces is there. */
  lemma SpacedEnd(prefix: Option<string>, name: string, uri: Option<string>, attr: Option<string>, text: string,
                  spaces: string, rest: string)
    requires TagFits(prefix, name, attr) && UriKept(prefix, uri, attr) && Lacks(text, "<") && Spaces(spaces)
    requires spaces != "" ==> StrStr(rest, EndTag(QName(prefix, name))) == None
    ensures ParseRoot("<" + TagBody(prefix, name, attr) + ">" + text + "</" + QName(prefix, name) + spaces + ">" + rest)
         == Done(Some(Elem(prefix, name, uri, attr, if text == "" then [] else [Text(text)])))
  {
    hide ParseRoot, Fits, UriKept, Spell, StrStr, TagFits, Lacks;
    var n := Node("", Mark(prefix, name, " ", attr, ""), uri, false, [], text, spaces);
    LeafFits(prefix, name, uri, attr, text, spaces);
    ParseIff(n, rest);
  }

  /** A bracket that nothing closes belongs to the words. */
  lemma OpenBracket(w: string, v: string, some: bool)
    requires Lacks(w, "<") && '>' !in v
    ensures ParseKids(w + "<" + v, some) == Done(if some then [] else [Text(w + "<" + v)])
    ensures ParseRoot(w + "<" + v) == Done(None)
  {
    hide ParseTag;
    SplitAt(w, '<', v);
    assert w + "<" + v == w + ['<'] + v;
    assert StrChr(v, '>') == None by { NoChr(v, '>'); }
  }

  lemma {:induction false} NoChr(s: string, c: char)
    requires c !in s
    ensures StrChr(s, c) == None
  {}

  /** The tokens of two elements of one name, of which the first has spaces in its end tag. */
  function TwoOf(name: string, x: string, spaces: string, y: string): seq<Token> {
    var m := Mark(None, name, " ", None, "");
    [Start(m), Words(x), Stop(None, name, spaces), Start(m), Words(y), Stop(None, name, "")]
  }

  lemma NoUriRead()
    ensures UriRead(None, None) == Done(None)
  {}

  lemma NextToken(t: Token, ts: seq<Token>, some: bool)
    requires !t.Words?
    ensures ReadKids([t] + ts, some) == ReadTag(t, ts, some)
  {
    hide ReadTag;
    assert ([t] + ts)[1..] == ts && TagsIn([t] + ts) == 0;
  }

  lemma NextWords(x: string, t: Token, ts: seq<Token>, some: bool)
    requires !t.Words?
    ensures ReadKids([Words(x), t] + ts, some) == ReadTag(t, ts, some)
  {
    hide ReadTag;
    FirstTag(x, t, ts);
    assert ([Words(x), t] + ts)[2..] == ts;
  }

  lemma NoStop(ts: seq<Token>, q: string)
    requires forall i :: 0 <= i < |ts| ==> !ts[i].Stop?
    ensures FindStop(ts, q) == None
  {}

  /** An element whose end tag has spaces runs on to the end tag of a later one of its name: of the words of
      the two, the first are lost. */
  lemma LaterEndTaken(name: string, x: string, spaces: string, y: string, some: bool)
    requires Ordinary(name) && Lacks(x, "<") && Spaces(spaces) && spaces != "" && Lacks(y, "<") && y != ""
    ensures ParseKids(TextOf(TwoOf(name, x, spaces, y)), some) == Done([Elem(None, name, None, None, [Text(y)])])
  {
    hide Lacks, ReadKids, TextOf, UriRead, FindStop;
    var m, own := Mark(None, name, " ", None, ""), Stop(None, name, "");
    var ts := TwoOf(name, x, spaces, y);
    assert Fit(ts) by { assert Lacks(" ", "<") by { WordsFit(); } TwoFit(name, x, spaces, y); }
    ParseTokens(ts, some);
    NoUriRead();
    var inner, late := [Words(x), Stop(None, name, spaces), Start(m), Words(y)], [Start(m), Words(y)];
    assert ts == [Start(m)] + (inner + [own]);
    NextToken(Start(m), inner + [own], some);
    assert FindStop(inner + [own], name) == Some(4) by { StopIsOwnHere(inner, own, name); }
    assert (inner + [own])[..4] == inner && (inner + [own])[5..] == [];
    assert inner == [Words(x), Stop(None, name, spaces)] + late;
    NextWords(x, Stop(None, name, spaces), late, false);
    assert late == [Start(m)] + [Words(y)];
    NextToken(Start(m), [Words(y)], false);
    NoStop([Words(y)], name);
    OnlyWords(y);
    var e := Elem(None, name, None, None, [Text(y)]);
    assert [e] + [] == [e];
  }

  lemma TwoFit(name: string, x: string, spaces: string, y: string)
    requires Ordinary(name) && Lacks(x, "<") && Spaces(spaces) && Lacks(y, "<")
    ensures Fit(TwoOf(name, x, spaces, y))
  {
    hide Lacks;
  }

  lemma StopIsOwnHere(inner: seq<Token>, own: Token, q: string)
    requires |inner| == 4 && IsStop(own, q, false) && forall i :: 0 <= i < 4 ==> !IsStop(inner[i], q, false)
    ensures FindStop(inner + [own], q) == Some(4)
  {
    assert (inner + [own])[4] == own;
  }

  lemma OnlyWords(y: string)
    ensures y != "" ==> ReadKids([Words(y)], false) == Done([Text(y)])
    ensures ReadKids([], true) == Done([])
  {
    assert [Words(y)][1..] == [] && TextOf([Words(y)]) == y + "" == y;
  }
}
