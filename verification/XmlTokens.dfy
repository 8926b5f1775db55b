/** Texts made of words and tags, as the parser reads them: what follows a tag may be spaces, an end
    tag may have spaces in it, a tag may close itself, and tags need not match. The searches in the
    text are searches for a token, and so the parser is one on sequences of tokens. */
module XmlTokens {
  import opened CText
  import opened XmlText
  import opened XmlRoundTrip
  import XmlNesting

  /** What stands in a start tag, with spaces in front of the attributes and behind them. */
  datatype Mark = Mark(prefix: Option<string>, name: string, gap: string, attr: Option<string>, trail: string)

  datatype Token =
    | Words(s: string)
    | Start(mark: Mark)
    | Single(mark: Mark)
    | Stop(prefix: Option<string>, name: string, spaces: string)

  predicate Spaces(s: string) {
    forall i :: 0 <= i < |s| ==> s[i] == ' '
  }

  predicate MarkFits(m: Mark) {
    TagFits(m.prefix, m.name, m.attr) && Spaces(m.gap) && m.gap != "" && Spaces(m.trail)
  }

  /** What the parser needs to read it, be it in the place of a start tag or not. */
  predicate MarkReads(m: Mark) {
    && (m.prefix.Some? ==> Unbroken(m.prefix.value)) && Unbroken(m.name)
    && (m.attr.Some? ==> m.attr.value != "" && m.attr.value[0] != ' ' && m.attr.value[|m.attr.value| - 1] != ' ')
    && Spaces(m.gap) && m.gap != "" && Spaces(m.trail)
  }

  lemma FittingReads(m: Mark)
    requires MarkFits(m)
    ensures MarkReads(m)
  {}

  function Named(m: Mark): string {
    QName(m.prefix, m.name)
  }

  predicate TokenFits(t: Token) {
    match t
    case Words(s) => Lacks(s, "<")
    case Start(m) => MarkFits(m)
    case Single(m) => MarkFits(m)
    case Stop(prefix, name, spaces) => TagFits(prefix, name, None) && Spaces(spaces)
  }

  predicate Fit(ts: seq<Token>) {
    forall i :: 0 <= i < |ts| ==> TokenFits(ts[i])
  }

  /** The attributes with the spaces around them. */
  function Spaced(m: Mark): string {
    match m.attr
    case Some(a) => m.gap + a + m.trail
    case None => m.trail
  }

  function MarkText(m: Mark): string {
    Named(m) + Spaced(m)
  }

  function StopText(q: string, spaces: string): string {
    "</" + q + spaces + ">"
  }

  function TokenText(t: Token): string {
    match t
    case Words(s) => s
    case Start(m) => "<" + MarkText(m) + ">"
    case Single(m) => "<" + MarkText(m) + "/>"
    case Stop(prefix, name, spaces) => StopText(QName(prefix, name), spaces)
  }

  function TextOf(ts: seq<Token>): string {
    if ts == [] then "" else TokenText(ts[0]) + TextOf(ts[1..])
  }

  lemma {:induction false} TextPlus(a: seq<Token>, b: seq<Token>)
    ensures TextOf(a + b) == TextOf(a) + TextOf(b)
  {
    hide TokenText;
    if a == [] {
      assert a + b == b;
    } else {
      assert (a + b)[1..] == a[1..] + b;
      TextPlus(a[1..], b);
    }
  }

  // ---------------------------------------------------------------- start tags

  lemma {:induction false} TrimSpaces(a: string, s: string)
    requires Spaces(a) && (s == "" || s[0] != ' ')
    ensures TrimFront(a + s) == s
  {
    if a == "" {
      assert a + s == s;
    } else {
      assert (a + s)[1..] == a[1..] + s;
      TrimSpaces(a[1..], s);
    }
  }

  lemma {:induction false} TrimTrail(s: string, b: string)
    requires Spaces(b) && (s == "" || s[|s| - 1] != ' ')
    ensures TrimRear(s + b) == s
  {
    if b == "" {
      assert s + b == s;
    } else {
      var c := b[..|b| - 1];
      assert (s + b)[..|s + b| - 1] == s + c;
      TrimTrail(s, c);
    }
  }

  lemma StripSpaces(a: string, s: string, b: string)
    requires Spaces(a) && Spaces(b) && s != "" && s[0] != ' ' && s[|s| - 1] != ' '
    ensures StrStrip(a + s + b) == Some(s)
  {
    TrimSpaces(a, s + b);
    TrimTrail(s, b);
    assert a + s + b == a + (s + b);
  }

  lemma StripNothing(a: string)
    requires Spaces(a)
    ensures StrStrip(a) == None
  {
    TrimSpaces(a, "");
    assert a + "" == a;
  }

  lemma SpacedShape(m: Mark)
    requires MarkReads(m)
    ensures var s := Spaced(m); (s == "" || s[0] == ' ') && StrStrip(s) == m.attr
  {
    match m.attr
    case Some(a) => StripSpaces(m.gap, a, m.trail);
    case None => StripNothing(m.trail);
  }

  lemma NameThenAttr(name: string, m: Mark)
    requires MarkReads(m) && Unbroken(name)
    ensures NameAndAttr(name + Spaced(m)) == (Some(name), m.attr)
  {
    hide StrStrip;
    var s := Spaced(m);
    SpacedShape(m);
    StripExact(name);
    if s == "" {
      assert name + s == name;
      StripNothing("");
    } else {
      SplitAt(name, ' ', s[1..]);
      assert name + s == name + [' '] + s[1..];
      assert (name + s)[..|name|] == name && (name + s)[|name|..] == s;
    }
  }

  // ---------------------------------------------------------------- the uri of a spaced tag

  /** A pattern with one space, in front. */
  predicate Declares(ns: string) {
    |ns| > 1 && ns[0] == ' ' && forall i :: 1 <= i < |ns| ==> ns[i] != ' '
  }

  lemma {:induction false} DeclareBehindSpaces(gap: string, s: string, ns: string)
    requires Spaces(gap) && gap != "" && Declares(ns)
    ensures TagUri(gap + s, ns) == TagUri(" " + s, ns)
  {
    if |gap| > 1 {
      var t := gap[1..] + s;
      assert gap + s == " " + t && t[0] == ' ';
      DeclareBehindSpaces(gap[1..], s, ns);
      OneSpaceMore(t, ns);
    } else {
      assert gap == " ";
    }
  }

  lemma OneSpaceMore(t: string, ns: string)
    requires Declares(ns) && t != "" && t[0] == ' '
    ensures TagUri(" " + t, ns) == TagUri(t, ns)
  {
    var x := " " + t;
    assert x[1..] == t && x[1] == t[0];
    if StrStr(t, ns).Some? {
      var i := StrStr(t, ns).value;
      assert x[i + 1..] == t[i..];
    }
  }

  lemma {:induction false} StrStrTrail(s: string, trail: string, ns: string)
    requires Declares(ns) && Spaces(trail)
    ensures StrStr(s + trail, ns) == StrStr(s, ns)
  {
    if s == "" {
      NoneInSpaces(trail, ns);
      assert s + trail == trail;
    } else {
      assert (s + trail)[1..] == s[1..] + trail;
      StrStrTrail(s[1..], trail, ns);
      PrefixTrail(s, trail, ns);
    }
  }

  lemma PrefixTrail(s: string, trail: string, ns: string)
    requires Declares(ns) && Spaces(trail) && s != ""
    ensures ns <= s + trail <==> ns <= s
  {
    var x := s + trail;
    assert |s| < |x| ==> x[|s|] == ' ';
    if ns <= s { assert ns <= x; }
    if ns <= x && |ns| <= |s| { assert s == x[..|s|]; }
  }

  lemma {:induction false} NoneInSpaces(trail: string, ns: string)
    requires Declares(ns) && Spaces(trail)
    ensures StrStr(trail, ns) == None
  {
    assert |trail| > 1 ==> trail[1] == ' ';
    if trail != "" { NoneInSpaces(trail[1..], ns); }
  }

  lemma ChrTrail(s: string, trail: string, c: char)
    requires Spaces(trail) && c != ' '
    ensures StrChr(s + trail, c) == StrChr(s, c)
  {
    if c in s {
      StrChrEarly(s, c, trail);
    } else {
      assert c !in trail;
      StrChrOver(s, c, trail);
    }
  }

  /** Spaces at the end do not change what is quoted. */
  lemma QuotedTrail(s: string, trail: string)
    requires Spaces(trail)
    ensures QuotedValue(s + trail) == QuotedValue(s)
  {
    hide StrChr, QuotedValue;
    var x := s + trail;
    ChrTrail(s, trail, '=');
    match StrChr(s, '=')
    case None =>
      NoneQuoted(s);
      NoneQuoted(x);
    case Some(e) =>
      assert At(x, e + 1) == '\'' <==> At(s, e + 1) == '\'';
      QuotedTrailBy(s, trail, if At(s, e + 1) == '\'' then '\'' else '\"');
  }

  lemma NoneQuoted(s: string)
    requires StrChr(s, '=').None? || StrChr(s, if At(s, StrChr(s, '=').value + 1) == '\'' then '\'' else '\"').None?
    ensures QuotedValue(s) == Undefined
  {
    hide StrChr;
  }

  lemma QuotedTrailBy(s: string, trail: string, sep: char)
    requires Spaces(trail) && sep != ' ' && StrChr(s, '=').Some? && StrChr(s + trail, '=').Some?
    requires sep == if At(s, StrChr(s, '=').value + 1) == '\'' then '\'' else '\"'
    requires sep == if At(s + trail, StrChr(s + trail, '=').value + 1) == '\'' then '\'' else '\"'
    ensures QuotedValue(s + trail) == QuotedValue(s)
  {
    hide StrChr, QuotedValue;
    var x := s + trail;
    ChrTrail(s, trail, sep);
    match StrChr(s, sep)
    case None =>
      NoneQuoted(s);
      NoneQuoted(x);
    case Some(f) =>
      assert x[f + 1..] == s[f + 1..] + trail;
      ChrTrail(s[f + 1..], trail, sep);
      QuotedBy(s, sep, f);
      QuotedBy(x, sep, f);
      if StrChr(s[f + 1..], sep).Some? {
        assert x[f + 1..][..StrChr(s[f + 1..], sep).value] == s[f + 1..][..StrChr(s[f + 1..], sep).value];
      }
  }

  lemma UriTrail(s: string, trail: string, ns: string)
    requires Declares(ns) && Spaces(trail)
    ensures TagUri(s + trail, ns) == TagUri(s, ns)
  {
    hide QuotedValue;
    StrStrTrail(s, trail, ns);
    if StrStr(s, ns).Some? {
      var i := StrStr(s, ns).value;
      assert (s + trail)[i..] == s[i..] + trail;
      QuotedTrail(s[i..], trail);
    }
  }

  lemma DeclarationDeclares(prefix: Option<string>)
    requires prefix.Some? ==> Unbroken(prefix.value)
    ensures Declares(" " + Declaration(prefix))
  {}

  lemma UriSpaced(m: Mark)
    requires MarkReads(m)
    ensures TagUri(Spaced(m), " " + Declaration(m.prefix)) == UriRead(m.prefix, m.attr)
  {
    hide TagUri, StrStr;
    var ns := " " + Declaration(m.prefix);
    DeclarationDeclares(m.prefix);
    match m.attr
    case Some(a) =>
      UriTrail(m.gap + a, m.trail, ns);
      DeclareBehindSpaces(m.gap, a, ns);
    case None =>
      UriTrail("", m.trail, ns);
      assert "" + m.trail == m.trail;
  }

  /** A tag is read as without the spaces. */
  lemma ParseMark(m: Mark)
    requires MarkReads(m)
    ensures ParseTag(MarkText(m)) == TagRead(m.prefix, m.name, UriRead(m.prefix, m.attr), m.attr)
  {
    hide UriRead, PrefixEnd, NameAndAttr, TagUri, Spaced;
    var q, s, ns := Named(m), Spaced(m), " " + Declaration(m.prefix);
    SpacedShape(m);
    PrefixOfTag(m.prefix, m.name, s);
    UriBehind(q, s, ns);
    UriSpaced(m);
    NameThenAttr(m.name, m);
    match m.prefix
    case Some(p) =>
      RegroupTag(p, m.name, s);
      PrefixedTag(p, q + s, m.name + s, UriRead(m.prefix, m.attr), m.name, m.attr);
    case None =>
      BareDeclaration();
      UnprefixedTag(q + s, UriRead(m.prefix, m.attr), m.name, m.attr);
  }

  // ---------------------------------------------------------------- the next tag

  function ReadMark(m: Mark): Outcome<Tag> {
    TagRead(m.prefix, m.name, UriRead(m.prefix, m.attr), m.attr)
  }

  lemma MarkShape(m: Mark)
    requires MarkFits(m)
    ensures var body := MarkText(m);
      body != "" && Lacks(body, "<>") && body[0] != '/' && body[|body| - 1] != '/'
    ensures Lacks(Named(m), " /<>") && Named(m) != ""
  {
    QNameOrdinary(m.prefix, m.name);
  }

  lemma NextTagAt(ind: string, body: string, empty: bool, rest: string, tag: Outcome<Tag>)
    requires Lacks(ind, "<") && Lacks(body, "<>") && body != "" && body[|body| - 1] != '/'
    requires ParseTag(body) == tag
    ensures NextTag(ind + ("<" + body + (if empty then "/>" else ">") + rest)) == match tag
      case Done(g) => Done(Some(Front(g, empty, rest)))
      case Undefined => Undefined
  {
    hide ParseTag;
    var inner := if empty then body + "/" else body;
    var t := inner + ['>'] + rest;
    var s := ind + ("<" + body + (if empty then "/>" else ">") + rest);
    assert s == ind + ['<'] + t;
    SplitAt(ind, '<', t);
    SplitAt(inner, '>', rest);
    assert t[|inner| - 1] == inner[|inner| - 1];
    if empty { assert t[..|inner| - 1] == body; }
  }

  lemma NextStart(ind: string, m: Mark, rest: string)
    requires Lacks(ind, "<") && MarkFits(m)
    ensures NextTag(ind + (TokenText(Start(m)) + rest)) == FrontOf(ReadMark(m), rest)
  {
    hide NextTag, ParseTag, MarkFits, UriRead;
    MarkShape(m);
    FittingReads(m);
    ParseMark(m);
    NextTagAt(ind, MarkText(m), false, rest, ReadMark(m));
  }

  lemma NextSingle(ind: string, m: Mark, rest: string)
    requires Lacks(ind, "<") && MarkFits(m)
    ensures NextTag(ind + (TokenText(Single(m)) + rest)) == match ReadMark(m)
      case Done(g) => Done(Some(Front(g, true, rest)))
      case Undefined => Undefined
  {
    hide NextTag, ParseTag, MarkFits, UriRead;
    MarkShape(m);
    FittingReads(m);
    ParseMark(m);
    NextTagAt(ind, MarkText(m), true, rest, ReadMark(m));
  }

  /** An end tag taken for a start tag: the slash belongs to the name. */
  function StrayMark(prefix: Option<string>, name: string, spaces: string): Mark {
    match prefix
    case Some(p) => Mark(Some("/" + p), name, " ", None, spaces)
    case None => Mark(None, "/" + name, " ", None, spaces)
  }

  function StrayTag(prefix: Option<string>, name: string): Tag {
    match prefix
    case Some(p) => Tag(Some("/" + p), name, None, None)
    case None => Tag(None, "/" + name, None, None)
  }

  lemma StrayShape(prefix: Option<string>, name: string, spaces: string)
    requires TokenFits(Stop(prefix, name, spaces))
    ensures var m := StrayMark(prefix, name, spaces);
      && MarkReads(m) && ReadMark(m) == Done(StrayTag(prefix, name))
      && MarkText(m) == "/" + QName(prefix, name) + spaces && Named(m) == "/" + QName(prefix, name)
  {
    QNameOrdinary(prefix, name);
  }

  lemma NextStray(ind: string, prefix: Option<string>, name: string, spaces: string, rest: string)
    requires Lacks(ind, "<") && TokenFits(Stop(prefix, name, spaces))
    ensures NextTag(ind + (TokenText(Stop(prefix, name, spaces)) + rest))
         == Done(Some(Front(StrayTag(prefix, name), false, rest)))
  {
    hide NextTag, ParseTag, UriRead;
    var m := StrayMark(prefix, name, spaces);
    StrayShape(prefix, name, spaces);
    ParseMark(m);
    QNameOrdinary(prefix, name);
    NextTagAt(ind, MarkText(m), false, rest, ReadMark(m));
    assert "<" + MarkText(m) + ">" == StopText(QName(prefix, name), spaces);
  }

  // ---------------------------------------------------------------- end tags

  /** What the parser looks for behind a start tag: the end tag itself, or one that goes on with a space. */
  function EndMark(q: string, spaced: bool): string {
    if spaced then "</" + q + " " else EndTag(q)
  }

  predicate IsStop(t: Token, q: string, spaced: bool) {
    t.Stop? && QName(t.prefix, t.name) == q && (t.spaces != "") == spaced
  }

  /** The first end tag of `q` that has spaces, or has none. */
  function FirstStop(ts: seq<Token>, q: string, spaced: bool): (r: Option<nat>)
    ensures r.Some? ==> r.value < |ts| && IsStop(ts[r.value], q, spaced)
    ensures r.Some? ==> forall i :: 0 <= i < r.value ==> !IsStop(ts[i], q, spaced)
    ensures r.None? ==> forall i :: 0 <= i < |ts| ==> !IsStop(ts[i], q, spaced)
  {
    if ts == [] then None
    else if IsStop(ts[0], q, spaced) then Some(0)
    else
      match FirstStop(ts[1..], q, spaced)
      case None => None
      case Some(i) => Some(i + 1)
  }

  lemma SamePlace(q: string, q': string, c: char, c': char, u: string)
    requires c == '>' || c == ' '
    requires c' == '>' || c' == ' '
    requires Lacks(q, " >") && Lacks(q', " >")
    ensures "</" + q + [c] <= "</" + q' + [c'] + u <==> q == q' && c == c'
  {
    var p, s := "</" + q + [c], "</" + q' + [c'] + u;
    if p <= s {
      var n := if |q| < |q'| then |q| else |q'|;
      assert p[n + 2] == s[n + 2];
      assert p[|q| + 2] == c && s[|q'| + 2] == c';
      assert |q| == |q'|;
      forall k | 0 <= k < |q| ensures q[k] == q'[k] {
        assert p[k + 2] == q[k] && s[k + 2] == q'[k];
      }
    }
  }

  /** An end tag is the one that is looked for if it has the same name and spaces as well, or as little. */
  lemma StopMatches(q: string, spaced: bool, q': string, spaces: string, u: string)
    requires Lacks(q, " >") && Lacks(q', " >") && Spaces(spaces)
    ensures EndMark(q, spaced) <= StopText(q', spaces) + u <==> q == q' && (spaces != "") == spaced
  {
    var c, c' := if spaced then ' ' else '>', if spaces == "" then '>' else ' ';
    var v := if spaces == "" then u else spaces[1..] + ">" + u;
    assert StopText(q', spaces) + u == "</" + q' + [c'] + v;
    assert EndMark(q, spaced) == "</" + q + [c];
    SamePlace(q, q', c, c', v);
  }

  lemma SkipAngle(c: char, a: string, b: string, p: string)
    requires p != "" && p[0] == '<' && Lacks(a, "<") && !(p <= [c] + a + b)
    ensures StrStr([c] + a + b, p) == match StrStr(b, p)
      case Some(i) => Some(1 + |a| + i)
      case None => None
  {
    var s := [c] + a + b;
    assert s[1..] == a + b;
    StrStrOver(a, p, b);
  }

  lemma OverTag(body: string, u: string, p: string)
    requires |p| > 1 && p[0] == '<' && p[1] == '/' && body != "" && Lacks(body, "<") && body[0] != '/'
    ensures StrStr("<" + body + u, p) == match StrStr(u, p)
      case Some(i) => Some(1 + |body| + i)
      case None => None
  {
    assert ("<" + body + u)[1] == body[0];
    SkipAngle('<', body, u, p);
  }

  /** A token that is not the end tag is passed over. */
  lemma OverToken(t: Token, q: string, spaced: bool, u: string)
    requires TokenFits(t) && Lacks(q, " <>") && !IsStop(t, q, spaced)
    ensures StrStr(TokenText(t) + u, EndMark(q, spaced)) == match StrStr(u, EndMark(q, spaced))
      case Some(i) => Some(|TokenText(t)| + i)
      case None => None
  {
    hide StrStr, MarkText, Spaced, MarkFits;
    var p := EndMark(q, spaced);
    assert p[0] == '<' && p[1] == '/';
    match t
    case Words(s) => StrStrOver(s, p, u);
    case Start(m) =>
      MarkShape(m);
      OverTag(MarkText(m) + ">", u, p);
      assert "<" + (MarkText(m) + ">") == TokenText(t);
    case Single(m) =>
      MarkShape(m);
      OverTag(MarkText(m) + "/>", u, p);
      assert "<" + (MarkText(m) + "/>") == TokenText(t);
    case Stop(prefix, name, spaces) =>
      QNameOrdinary(prefix, name);
      OverStop(QName(prefix, name), spaces, q, spaced, u);
  }

  lemma OverStop(q': string, spaces: string, q: string, spaced: bool, u: string)
    requires Lacks(q', " <>") && Spaces(spaces) && Lacks(q, " <>") && !(q' == q && (spaces != "") == spaced)
    ensures StrStr(StopText(q', spaces) + u, EndMark(q, spaced)) == match StrStr(u, EndMark(q, spaced))
      case Some(i) => Some(|StopText(q', spaces)| + i)
      case None => None
  {
    hide StrStr;
    StopMatches(q, spaced, q', spaces, u);
    var a := "/" + q' + spaces + ">";
    assert StopText(q', spaces) == ['<'] + a;
    SkipAngle('<', a, u, EndMark(q, spaced));
  }

  /** The search in the text is one for a token. */
  lemma {:induction false} StopFound(ts: seq<Token>, u: string, q: string, spaced: bool)
    requires Fit(ts) && Lacks(q, " <>")
    ensures StrStr(TextOf(ts) + u, EndMark(q, spaced)) == match FirstStop(ts, q, spaced)
      case Some(k) => Some(|TextOf(ts[..k])|)
      case None => (match StrStr(u, EndMark(q, spaced))
        case Some(i) => Some(|TextOf(ts)| + i)
        case None => None)
  {
    hide StrStr, TokenFits, TokenText, EndMark, IsStop, Lacks;
    if ts == [] {
      assert "" + u == u;
    } else {
      var rest := TextOf(ts[1..]) + u;
      assert TextOf(ts) + u == TokenText(ts[0]) + rest;
      if IsStop(ts[0], q, spaced) {
        AtStop(ts[0], q, spaced, rest);
        assert ts[..0] == [];
      } else {
        OverToken(ts[0], q, spaced, rest);
        StopFound(ts[1..], u, q, spaced);
        if FirstStop(ts, q, spaced).Some? {
          var k := FirstStop(ts, q, spaced).value;
          assert ts[..k][1..] == ts[1..][..k - 1] && ts[..k][0] == ts[0];
        }
      }
    }
  }

  lemma AtStop(t: Token, q: string, spaced: bool, u: string)
    requires TokenFits(t) && IsStop(t, q, spaced) && Lacks(q, " <>")
    ensures StrStr(TokenText(t) + u, EndMark(q, spaced)) == Some(0)
  {
    StopMatches(q, spaced, q, t.spaces, u);
  }

  /** The end tag of `q`, or else the first one that has spaces. */
  function FindStop(ts: seq<Token>, q: string): (r: Option<nat>)
    ensures r.Some? ==> r.value < |ts| && ts[r.value].Stop?
  {
    match FirstStop(ts, q, false)
    case Some(k) => Some(k)
    case None => FirstStop(ts, q, true)
  }

  lemma EndOfToken(ts: seq<Token>, q: string)
    requires Fit(ts) && Lacks(q, " <>")
    ensures FindEnd(TextOf(ts), q) == match FindStop(ts, q)
      case Some(k) => Some(|TextOf(ts[..k])|)
      case None => None
  {
    hide TextOf, StrStr, FirstStop;
    StopFound(ts, "", q, false);
    StopFound(ts, "", q, true);
    assert TextOf(ts) + "" == TextOf(ts);
    assert StrStr("", EndMark(q, false)) == None && StrStr("", EndMark(q, true)) == None by { NotInNothing(q); }
  }

  lemma NotInNothing(q: string)
    ensures StrStr("", EndMark(q, false)) == None && StrStr("", EndMark(q, true)) == None
  {}

  /** No end tag is that of an end tag. */
  lemma NoSuchStop(ts: seq<Token>, q: string)
    requires Fit(ts)
    ensures FindStop(ts, "/" + q) == None
  {
    forall i, spaced | 0 <= i < |ts| ensures !IsStop(ts[i], "/" + q, spaced) {
      assert TokenFits(ts[i]);
      if ts[i].Stop? {
        QNameOrdinary(ts[i].prefix, ts[i].name);
        assert QName(ts[i].prefix, ts[i].name)[0] != '/';
      }
    }
  }

  // ---------------------------------------------------------------- the parser on tokens

  function TagsIn(ts: seq<Token>): (i: nat)
    ensures i <= |ts|
    ensures forall k :: 0 <= k < i ==> ts[k].Words?
    ensures i < |ts| ==> !ts[i].Words?
  {
    if ts == [] || !ts[0].Words? then 0 else 1 + TagsIn(ts[1..])
  }

  /** _xml_parse_doc below an element, token by token: a tag that closes itself is an element, a start
      tag is one if an end tag is found for it, and other tags are passed over. */
  function ReadKids(ts: seq<Token>, some: bool): Outcome<seq<Xml>>
    decreases |ts|, 0
  {
    var i := TagsIn(ts);
    if i < |ts| then ReadTag(ts[i], ts[i + 1..], some)
    else Done(if some || TextOf(ts) == "" then [] else [Text(TextOf(ts))])
  }

  function ReadTag(t: Token, rest: seq<Token>, some: bool): Outcome<seq<Xml>>
    requires !t.Words?
    decreases |rest|, 1
  {
    match t
    case Stop(_, _, _) => ReadKids(rest, some)
    case Single(m) => (
      match UriRead(m.prefix, m.attr)
      case Undefined => Undefined
      case Done(uri) => Prepend(Elem(m.prefix, m.name, uri, m.attr, []), ReadKids(rest, true)))
    case Start(m) =>
      match UriRead(m.prefix, m.attr)
      case Undefined => Undefined
      case Done(uri) =>
        match FindStop(rest, Named(m))
        case None => ReadKids(rest, some)
        case Some(k) =>
          match ReadKids(rest[..k], false)
          case Undefined => Undefined
          case Done(kids) => Prepend(Elem(m.prefix, m.name, uri, m.attr, kids), ReadKids(rest[k + 1..], true))
  }

  lemma {:induction false} WordsLack(ts: seq<Token>)
    requires Fit(ts) && forall k :: 0 <= k < |ts| ==> ts[k].Words?
    ensures Lacks(TextOf(ts), "<")
  {
    if ts != [] {
      assert TokenFits(ts[0]);
      WordsLack(ts[1..]);
    }
  }

  lemma TextSplit(ts: seq<Token>, i: nat)
    requires i < |ts|
    ensures TextOf(ts) == TextOf(ts[..i]) + (TokenText(ts[i]) + TextOf(ts[i + 1..]))
    ensures TextOf(ts)[..|TextOf(ts[..i])|] == TextOf(ts[..i])
    ensures TextOf(ts)[|TextOf(ts[..i])|..] == TokenText(ts[i]) + TextOf(ts[i + 1..])
  {
    hide TextOf, TokenText;
    assert ts == ts[..i] + ts[i..];
    TextPlus(ts[..i], ts[i..]);
    assert TextOf(ts[i..]) == TokenText(ts[i]) + TextOf(ts[i + 1..]) by { TextFirst(ts[i..]); }
  }

  lemma TextFirst(ts: seq<Token>)
    requires ts != []
    ensures TextOf(ts) == TokenText(ts[0]) + TextOf(ts[1..])
  {}

  lemma FitParts(ts: seq<Token>, i: nat)
    requires Fit(ts) && i < |ts|
    ensures Fit(ts[..i]) && Fit(ts[i + 1..]) && TokenFits(ts[i])
  {
    hide TokenFits;
  }

  /** Behind an end tag. */
  lemma StopEnds(t: Token, rest: string)
    requires TokenFits(t) && t.Stop?
    ensures var s := TokenText(t) + rest;
      StrChr(s, '>').Some? && s[StrChr(s, '>').value + 1..] == rest
  {
    hide StrChr;
    QNameOrdinary(t.prefix, t.name);
    var a := "</" + QName(t.prefix, t.name) + t.spaces;
    assert TokenText(t) + rest == a + ['>'] + rest;
    SplitAt(a, '>', rest);
  }

  lemma NoTagsRead(ts: seq<Token>, some: bool)
    requires Fit(ts) && TagsIn(ts) == |ts|
    ensures ParseKids(TextOf(ts), some) == ReadKids(ts, some)
  {
    hide TextOf;
    WordsLack(ts);
    ParseNothing(TextOf(ts), some);
  }

  lemma StrayRead(s: string, some: bool, g: Tag, rest: string)
    requires s != "" && NextTag(s) == Done(Some(Front(g, false, rest)))
    requires FindEnd(rest, QName(g.prefix, g.name)) == None
    ensures ParseKids(s, some) == ParseKids(rest, some)
  {
    hide NextTag, FindEnd, QName;
  }

  lemma SingleRead(s: string, some: bool, m: Mark, uri: Option<string>, rest: string)
    requires s != "" && NextTag(s) == Done(Some(Front(Tag(m.prefix, m.name, uri, m.attr), true, rest)))
    ensures ParseKids(s, some) == Prepend(Elem(m.prefix, m.name, uri, m.attr, []), ParseKids(rest, true))
  {
    hide NextTag, FindEnd, QName;
  }

  lemma UndefinedRead(s: string, some: bool)
    requires s != "" && NextTag(s) == Undefined
    ensures ParseKids(s, some) == Undefined
  {
    hide NextTag;
  }

  lemma ElementRead(s: string, some: bool, g: Tag, rest: string, e: nat, r: nat)
    requires s != "" && NextTag(s) == Done(Some(Front(g, false, rest)))
    requires FindEnd(rest, QName(g.prefix, g.name)) == Some(e) && StrChr(rest[e..], '>') == Some(r)
    ensures ParseKids(s, some) == match ParseKids(rest[..e], false)
      case Undefined => Undefined
      case Done(kids) => Prepend(Elem(g.prefix, g.name, g.uri, g.attr, kids), ParseKids(rest[e..][r + 1..], true))
  {
    hide NextTag, FindEnd, QName, StrChr;
  }

  lemma TagTextSome(t: Token, a: string, b: string)
    requires !t.Words?
    ensures a + (TokenText(t) + b) != ""
  {}

  /** The parser reads any fitting sequence of words and tags as its tokens say. */
  lemma {:induction false} ParseTokens(ts: seq<Token>, some: bool)
    requires Fit(ts)
    ensures ParseKids(TextOf(ts), some) == ReadKids(ts, some)
    decreases |ts|, 0
  {
    hide ParseKids, TextOf, TokenText, Lacks, ReadTag, TokenFits;
    var i := TagsIn(ts);
    if i == |ts| {
      NoTagsRead(ts, some);
    } else {
      TextSplit(ts, i);
      FitParts(ts, i);
      WordsLack(ts[..i]);
      ParseFrom(TextOf(ts[..i]), ts[i], ts[i + 1..], some);
    }
  }

  lemma {:induction false} ParseFrom(ind: string, t: Token, rest: seq<Token>, some: bool)
    requires Lacks(ind, "<") && TokenFits(t) && Fit(rest) && !t.Words?
    ensures ParseKids(ind + (TokenText(t) + TextOf(rest)), some) == ReadTag(t, rest, some)
    decreases |rest|, 1
  {
    hide ParseKids, ReadKids, TextOf, TokenText, FindEnd, NextTag, Lacks, FindStop, UriRead, QName, TokenFits, MarkFits;
    var s := ind + (TokenText(t) + TextOf(rest));
    TagTextSome(t, ind, TextOf(rest));
    ParseTokens(rest, some);
    ParseTokens(rest, true);
    match t
    case Stop(prefix, name, spaces) =>
      NextStray(ind, prefix, name, spaces, TextOf(rest));
      StrayFound(prefix, name, spaces, rest);
      StrayRead(s, some, StrayTag(prefix, name), TextOf(rest));
    case Single(m) =>
      assert MarkFits(m) by { FitMark(t); }
      NextSingle(ind, m, TextOf(rest));
      match UriRead(m.prefix, m.attr) {
        case Undefined => UndefinedRead(s, some);
        case Done(uri) => SingleRead(s, some, m, uri, TextOf(rest));
      }
    case Start(m) =>
      assert MarkFits(m) by { FitMark(t); }
      NextStart(ind, m, TextOf(rest));
      match UriRead(m.prefix, m.attr)
      case Undefined => UndefinedRead(s, some);
      case Done(uri) =>
        var q := QName(m.prefix, m.name);
        assert Lacks(q, " <>") by { MarkName(m); }
        EndOfToken(rest, q);
        var g := Tag(m.prefix, m.name, uri, m.attr);
        match FindStop(rest, q)
        case None => StrayRead(s, some, g, TextOf(rest));
        case Some(k) =>
          TextSplit(rest, k);
          FitParts(rest, k);
          StopEnds(rest[k], TextOf(rest[k + 1..]));
          ParseTokens(rest[..k], false);
          ParseTokens(rest[k + 1..], true);
          var e := |TextOf(rest[..k])|;
          ElementRead(s, some, g, TextOf(rest), e, StrChr(TextOf(rest)[e..], '>').value);
  }

  lemma FitMark(t: Token)
    requires TokenFits(t) && (t.Single? || t.Start?)
    ensures MarkFits(t.mark)
  {}

  lemma MarkName(m: Mark)
    requires MarkFits(m)
    ensures Lacks(Named(m), " <>")
  {
    MarkShape(m);
  }

  lemma StrayFound(prefix: Option<string>, name: string, spaces: string, ts: seq<Token>)
    requires Fit(ts) && TokenFits(Stop(prefix, name, spaces))
    ensures var g := StrayTag(prefix, name); FindEnd(TextOf(ts), QName(g.prefix, g.name)) == None
  {
    hide FindEnd, TextOf, FindStop;
    var q := QName(prefix, name);
    QNameOrdinary(prefix, name);
    NoSuchStop(ts, q);
    EndOfToken(ts, "/" + q);
    var g := StrayTag(prefix, name);
    assert QName(g.prefix, g.name) == "/" + q;
  }
}
