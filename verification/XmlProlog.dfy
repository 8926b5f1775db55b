/** xml_parse behind a prolog: it skips processing instructions and declarations in front of a dumped
    document, and takes nothing inside the document for one, if and only if no name is marked like
    one. */
module XmlProlog {
  import opened CText
  import opened XmlText
  import opened XmlRoundTrip
  import opened XmlNesting

  /** Every `<` has a character behind it that is not `c`. */
  predicate NoOpen(s: string, c: char) {
    forall i :: 0 <= i < |s| && s[i] == '<' ==> i + 1 < |s| && s[i + 1] != c
  }

  lemma NoOpenThen(a: string, b: string, c: char)
    requires NoOpen(a, c) && NoOpen(b, c)
    ensures NoOpen(a + b, c)
  {
    var s := a + b;
    forall i | 0 <= i < |s| && s[i] == '<' ensures i + 1 < |s| && s[i + 1] != c {
      if i < |a| {
        assert a[i] == '<' && s[i + 1] == a[i + 1];
      } else {
        assert b[i - |a|] == '<' && s[i + 1] == b[i - |a| + 1];
      }
    }
  }

  lemma NoAngleNoOpen(s: string, c: char)
    requires Lacks(s, "<")
    ensures NoOpen(s, c)
  {}

  lemma TagNoOpen(body: string, c: char)
    requires body != "" && body[0] != c && Lacks(body, "<")
    ensures NoOpen("<" + body + ">", c)
  {
    var s := "<" + body + ">";
    assert s[1] == body[0];
    assert forall i :: 1 <= i < |s| - 1 ==> s[i] == body[i - 1];
  }

  /** No name starts with the mark of an instruction or a declaration. */
  predicate Unmarked(t: Xml) {
    t.Elem? ==> NameFits(QName(t.prefix, t.name)) && forall i :: 0 <= i < |t.kids| ==> Unmarked(t.kids[i])
  }

  predicate NameFits(q: string) {
    q != "" && q[0] != '?' && q[0] != '!'
  }

  lemma BodyNoOpen(t: Xml, c: char)
    requires Plain(t) && t.Elem? && NameFits(QName(t.prefix, t.name)) && (c == '?' || c == '!')
    ensures NoOpen("<" + TagBody(t.prefix, t.name, t.attr) + ">", c) && NoOpen(EndTag(QName(t.prefix, t.name)), c)
  {
    var q, body := QName(t.prefix, t.name), TagBody(t.prefix, t.name, t.attr);
    assert Lacks(q, "<");
    assert Lacks(AttrPart(t.attr), "<");
    assert body[0] == q[0] && Lacks(body, "<");
    TagNoOpen(body, c);
    TagNoOpen("/" + q, c);
    assert EndTag(q) == "<" + ("/" + q) + ">";
  }

  lemma {:induction false} DumpNoOpen(t: Xml, level: nat, space: nat, c: char)
    requires Plain(t) && Unmarked(t) && (c == '?' || c == '!')
    ensures NoOpen(Dump(t, level, space), c)
    decreases t, 1
  {
    match t
    case Text(text) => NoAngleNoOpen(text, c);
    case Elem(prefix, name, _, attr, kids) =>
      hide DumpKids, Closing, TagBody, EndTag, QName;
      BodyNoOpen(t, c);
      KidsNoOpen(kids, level, space, c);
      ClosingNoOpen(kids, level, space, c);
      var start, inner, closing, end := "<" + TagBody(prefix, name, attr)
        + ">", DumpKids(kids, level, space), Closing(kids, level, space), EndTag(QName(prefix, name));
      NoOpenThen(start, inner, c);
      NoOpenThen(start + inner, closing, c);
      NoOpenThen(start + inner + closing, end, c);
  }

  lemma ClosingNoOpen(kids: seq<Xml>, level: nat, space: nat, c: char)
    ensures NoOpen(Closing(kids, level, space), c)
  {}

  lemma {:induction false} KidsNoOpen(kids: seq<Xml>, level: nat, space: nat, c: char)
    requires (forall i :: 0 <= i < |kids| ==> Plain(kids[i]) && Unmarked(kids[i])) && (c == '?' || c == '!')
    ensures NoOpen(DumpKids(kids, level, space), c)
    decreases kids, 0
  {
    if kids != [] {
      hide Dump, Plain, Unmarked;
      DumpNoOpen(kids[0], NextLevel(level), space, c);
      KidsNoOpen(kids[1..], level, space, c);
      IndentNoOpen(level, level, space, c);
      NoOpenThen(if kids[0].Elem? then Indent(level, level, space) else "", Dump(kids[0], NextLevel(level), space), c);
      NoOpenThen(DumpKid(kids[0], level, space), DumpKids(kids[1..], level, space), c);
    }
  }

  lemma IndentNoOpen(level: nat, n: nat, space: nat, c: char)
    ensures NoOpen(Indent(level, n, space), c)
  {}

  // ---------------------------------------------------------------- the prolog

  /** Every `<` opens an instruction or a declaration, and a `>` follows it. */
  predicate Prolog(p: string) {
    forall i :: 0 <= i < |p| && p[i] == '<' ==> Opens(p[i..])
  }

  predicate Opens(s: string) {
    |s| > 1 && (s[1] == '?' || s[1] == '!') && '>' in s
  }

  lemma PrologSuffix(p: string, n: nat)
    requires Prolog(p) && n <= |p|
    ensures Prolog(p[n..])
  {
    forall i | 0 <= i < |p[n..]| && p[n..][i] == '<' ensures Opens(p[n..][i..]) {
      assert p[n..][i..] == p[n + i..];
    }
  }

  /** The search for the last `<c` ends inside the prolog, behind all of them. */
  lemma {:induction false} BehindProlog(p: string, d: string, c: char) returns (n: nat)
    requires Prolog(p) && NoOpen(d, c) && d != ""
    ensures n <= |p| && BehindLast(p + d, ['<', c]) == Done(p[n..] + d)
    ensures NoneOf(p[n..], c)
    decreases |p|
  {
    hide Prolog, NoOpen, NoneOf, StrStr, BehindLast;
    match StrStr(p + d, ['<', c])
    case None =>
      n := 0;
      assert p[0..] == p;
      NoneBefore(p, d, c);
      NothingBehind(p + d, ['<', c]);
    case Some(i) =>
      var j := SkipOne(p, d, c, i);
      PrologSuffix(p, j);
      n := BehindProlog(p[j..], d, c);
      assert p[j..][n..] == p[j + n..];
      n := j + n;
  }

  /** Every `<` of the text has a character behind it that is not `c`, if one is there at all. */
  predicate NoneOf(p: string, c: char) {
    forall i :: 0 <= i < |p| && p[i] == '<' ==> i + 1 < |p| && p[i + 1] != c
  }

  lemma NothingBehind(s: string, pat: string)
    requires s != "" && StrStr(s, pat) == None
    ensures BehindLast(s, pat) == Done(s)
  {}

  lemma SkipOne(p: string, d: string, c: char, i: nat) returns (j: nat)
    requires Prolog(p) && NoOpen(d, c) && d != "" && StrStr(p + d, ['<', c]) == Some(i)
    ensures i < j <= |p| && BehindLast(p + d, ['<', c]) == BehindLast(p[j..] + d, ['<', c])
  {
    hide StrStr, StrChr, NoOpen, Prolog;
    FirstInProlog(p, d, c, i);
    PrologAt(p, i);
    StrChrEarly(p[i..], '>', d);
    assert (p + d)[i..] == p[i..] + d;
    j := i + StrChr(p[i..], '>').value + 1;
    assert (p[i..] + d)[j - i..] == p[j..] + d;
  }

  lemma PrologAt(p: string, i: nat)
    requires Prolog(p) && i < |p| && p[i] == '<'
    ensures Opens(p[i..])
  {}

  lemma NoOpenAt(d: string, c: char, k: nat)
    requires NoOpen(d, c) && k <= |d|
    ensures !(['<', c] <= d[k..])
  {
    if k < |d| && d[k] == '<' {
      assert d[k..][1] == d[k + 1];
    }
  }

  lemma FirstInProlog(p: string, d: string, c: char, i: nat)
    requires NoOpen(d, c) && StrStr(p + d, ['<', c]) == Some(i)
    ensures i < |p| && p[i] == '<'
  {
    hide NoOpen;
    StrStrFound(p + d, ['<', c]);
    if i >= |p| {
      assert (p + d)[i..] == d[i - |p|..];
      NoOpenAt(d, c, i - |p|);
    }
    assert (p + d)[i..][0] == (p + d)[i];
  }

  lemma NoneBefore(p: string, d: string, c: char)
    requires Prolog(p) && StrStr(p + d, ['<', c]) == None
    ensures NoneOf(p, c)
  {
    forall i | 0 <= i < |p| && p[i] == '<' ensures i + 1 < |p| && p[i + 1] != c {
      assert Opens(p[i..]);
      assert p[i + 1] == p[i..][1];
      if p[i + 1] == c {
        assert ['<', c] <= (p + d)[i..];
        StrStrLeast(p + d, ['<', c], i);
      }
    }
  }

  /** Behind a prolog the parser sees the document, with blanks or other text in front of it. */
  lemma PrologSkipped(p: string, d: string) returns (ind: string)
    requires Prolog(p) && NoOpen(d, '?') && NoOpen(d, '!') && d != ""
    ensures Lacks(ind, "<") && ParseXml(p + d) == ParseRoot(ind + d)
  {
    hide ParseRoot, BehindLast, Prolog, NoOpen, NoneOf;
    assert ['<', '?'] == "<?" && ['<', '!'] == "<!";
    var a := BehindProlog(p, d, '?');
    var b := BehindProlog(p, d, '!');
    var n := if a > b then a else b;
    ind := p[n..];
    PrologSuffix(p, n);
    NoneOfSuffix(p, a, n, '?');
    NoneOfSuffix(p, b, n, '!');
    NothingOpens(ind);
  }

  lemma NoneOfSuffix(p: string, a: nat, n: nat, c: char)
    requires a <= n <= |p| && NoneOf(p[a..], c)
    ensures NoneOf(p[n..], c)
  {
    forall i | 0 <= i < |p[n..]| && p[n..][i] == '<' ensures i + 1 < |p[n..]| && p[n..][i + 1] != c {
      assert p[a..][n - a + i] == '<' && (n - a + i + 1 < |p[a..]| ==> p[a..][n - a + i + 1] == p[n..][i + 1]);
    }
  }

  lemma OpensAt(p: string, i: nat)
    requires Prolog(p) && i < |p|
    ensures p[i] == '<' ==> i + 1 < |p| && (p[i + 1] == '?' || p[i + 1] == '!')
  {
    if p[i] == '<' {
      PrologAt(p, i);
      assert p[i..][1] == p[i + 1];
    }
  }

  lemma NothingOpens(p: string)
    requires Prolog(p) && NoneOf(p, '?') && NoneOf(p, '!')
    ensures Lacks(p, "<")
  {
    forall i | 0 <= i < |p| ensures p[i] != '<' {
      OpensAt(p, i);
    }
  }

  // ---------------------------------------------------------------- names that are marked

  /** One step of the search. */
  lemma BehindNext(s: string, pat: string, i: nat)
    requires s != "" && BehindLast(s, pat).Done? && StrStr(s, pat) == Some(i)
    ensures StrChr(s[i..], '>').Some?
    ensures var j := i + StrChr(s[i..], '>').value + 1;
      j <= |s| && BehindLast(s, pat) == if s[j..] == "" then Done(s[i..]) else BehindLast(s[j..], pat)
  {
    hide StrStr, StrChr;
    var j := i + StrChr(s[i..], '>').value + 1;
    assert s[i..][j - i..] == s[j..];
  }

  lemma {:induction false} BehindIsSuffix(s: string, pat: string) returns (n: nat)
    requires s != "" && BehindLast(s, pat).Done?
    ensures n <= |s| && BehindLast(s, pat).value == s[n..]
    decreases |s|
  {
    hide StrStr, StrChr, BehindLast;
    match StrStr(s, pat)
    case None =>
      n := 0;
      NothingBehind(s, pat);
      assert s[0..] == s;
    case Some(i) =>
      BehindNext(s, pat, i);
      var j := i + StrChr(s[i..], '>').value + 1;
      if s[j..] == "" {
        n := i;
      } else {
        n := BehindIsSuffix(s[j..], pat);
        assert s[j..][n..] == s[j + n..];
        n := j + n;
      }
  }

  /** A mark at `k` is passed, when it is closed at `m` in front of the end of the text. */
  lemma {:induction false} PassesMark(s: string, c: char, k: nat, m: nat)
    requires k < m < |s| - 1 && ['<', c] <= s[k..] && s[m] == '>' && BehindLast(s, ['<', c]).Done?
    ensures |BehindLast(s, ['<', c]).value| < |s| - k
    decreases |s|
  {
    hide StrStr, StrChr, BehindLast;
    StrStrLeast(s, ['<', c], k);
    var i := StrStr(s, ['<', c]).value;
    var j := NextMark(s, ['<', c], i, m);
    if j <= k {
      assert s[j..][k - j..] == s[k..] && s[j..][m - j] == s[m];
      PassesMark(s[j..], c, k - j, m - j);
    } else {
      var n := BehindIsSuffix(s[j..], ['<', c]);
    }
  }

  lemma {:induction false} FirstIsEarly(s: string, c: char, k: nat)
    requires k < |s| && s[k] == c
    ensures StrChr(s, c).Some? && StrChr(s, c).value <= k
  {
    if s[0] != c { FirstIsEarly(s[1..], c, k - 1); }
  }

  lemma NextMark(s: string, pat: string, i: nat, m: nat) returns (j: nat)
    requires StrStr(s, pat) == Some(i) && i < m < |s| - 1 && s[m] == '>'
    ensures i < j <= m + 1 && BehindLast(s, pat) == BehindLast(s[j..], pat)
  {
    hide StrStr;
    FirstIsEarly(s[i..], '>', m - i);
    var r := StrChr(s[i..], '>').value;
    j := i + r + 1;
    assert s[i..][r + 1..] == s[j..];
  }

  lemma PlainParts(t: Xml)
    requires Plain(t) && t.Elem?
    ensures AllPlain(t.kids) && QName(t.prefix, t.name) != ""
  {}

  lemma MarkedPart(t: Xml)
    requires !Unmarked(t)
    ensures t.Elem? && (!NameFits(QName(t.prefix, t.name)) || exists i :: 0 <= i < |t.kids| && !Unmarked(t.kids[i]))
  {}

  lemma QNameFirst(prefix: Option<string>, name: string, attr: Option<string>)
    requires QName(prefix, name) != ""
    ensures TagBody(prefix, name, attr) != "" && TagBody(prefix, name, attr)[0] == QName(prefix, name)[0]
  {}

  /** A name that is marked stands in the dump behind a `<`, and its tag is closed inside. */
  lemma {:induction false} MarkShows(t: Xml, level: nat, space: nat) returns (c: char, k: nat, m: nat)
    requires Plain(t) && !Unmarked(t)
    ensures c == '?' || c == '!'
    ensures k < m < |Dump(t, level, space)| - 1
    ensures ['<', c] <= Dump(t, level, space)[k..] && Dump(t, level, space)[m] == '>'
    decreases t, 1
  {
    hide Dump, DumpKids, Closing, Unmarked, Plain, TagBody, QName;
    MarkedPart(t);
    assert AllPlain(t.kids) by { PlainParts(t); }
    var body, q := TagBody(t.prefix, t.name, t.attr), QName(t.prefix, t.name);
    var content := Content(t.kids, level, space);
    DumpShape(t, level, space);
    if !NameFits(q) {
      assert q != "" by { PlainParts(t); }
      assert body[0] == q[0] by { QNameFirst(t.prefix, t.name, t.attr); }
      c, k, m := q[0], 0, |body| + 1;
    } else {
      var d := DumpKids(t.kids, level, space);
      c, k, m := MarkedKidShows(t.kids, level, space);
      k, m := MarkWithin("<" + body + ">", d, Closing(t.kids, level, space) + EndTag(q), c, k, m);
      assert "<" + body + ">" + d + (Closing(t.kids, level, space) + EndTag(q)) == Dump(t, level, space);
    }
  }

  lemma MarkWithin(a: string, b: string, d: string, c: char, k: nat, m: nat) returns (k': nat, m': nat)
    requires k < m < |b| && ['<', c] <= b[k..] && b[m] == '>'
    ensures k' < m' && m' - |a| == m && ['<', c] <= (a + b + d)[k'..] && (a + b + d)[m'] == '>'
  {
    k' := Within(a, b, d, k, ['<', c]);
    m' := |a| + m;
  }

  lemma {:induction false} MarkedKidShows(kids: seq<Xml>, level: nat, space: nat) returns (c: char, k: nat, m: nat)
    requires AllPlain(kids) && exists i :: 0 <= i < |kids| && !Unmarked(kids[i])
    ensures c == '?' || c == '!'
    ensures k < m < |DumpKids(kids, level, space)|
    ensures ['<', c] <= DumpKids(kids, level, space)[k..] && DumpKids(kids, level, space)[m] == '>'
    decreases kids, 0
  {
    hide Dump;
    var ind := if kids[0].Elem? then Indent(level, level, space) else "";
    var dump, more := Dump(kids[0], NextLevel(level), space), DumpKids(kids[1..], level, space);
    if !Unmarked(kids[0]) {
      c, k, m := MarkShows(kids[0], NextLevel(level), space);
      k, m := MarkWithin(ind, dump, more, c, k, m);
    } else {
      var i :| 0 <= i < |kids| && !Unmarked(kids[i]);
      assert kids[1..][i - 1] == kids[i];
      c, k, m := MarkedKidShows(kids[1..], level, space);
      k, m := MarkWithin(ind + dump, more, "", c, k, m);
      assert ind + dump + more + "" == ind + dump + more;
    }
  }

  /** The first element of a text without self-closing tags takes two angle brackets for each element
      in it. */
  lemma {:induction false} RootElements(s: string)
    requires TagClean(s) && ParseRoot(s).Done? && ParseRoot(s).value.Some?
    ensures 2 * ElementsOf(ParseRoot(s).value.value) <= Angles(s)
    decreases |s|
  {
    var Front(tag, empty, rest) := NextTag(s).value.value;
    CleanFront(s);
    match FindEnd(rest, QName(tag.prefix, tag.name))
    case None => RootElements(rest);
    case Some(e) =>
      FindEndAngle(rest, QName(tag.prefix, tag.name));
      AnglesCut(rest, e);
      CleanPrefix(rest, e);
      ParsedElements(rest[..e], false);
  }

  lemma NothingClean()
    ensures TagClean("")
  {}

  /** If the parser starts behind the first `<` of a dump, it cannot read all its elements. */
  lemma LateStart(p: string, t: Xml, level: nat, space: nat, k: nat, n: nat)
    requires Plain(t) && t.Elem?
    requires k < |Dump(t, level, space)| && Dump(t, level, space)[k] == '<'
      && |p| + k < n <= |p + Dump(t, level, space)|
    ensures ParseRoot((p + Dump(t, level, space))[n..]) != Done(Some(t))
  {
    hide ParseRoot, Dump, Plain, TagClean, ElementsOf;
    var d := Dump(t, level, space);
    SealDump(t, level, space);
    assert Behind("") && d + "" == d;
    assert TagClean("") by { NothingClean(); }
    assert (p + d)[n..] == d[n - |p|..];
    CleanSuffix(d, n - |p|);
    AnglesCut(d, k);
    AnglesCut(d[k + 1..], n - |p| - k - 1);
    assert d[k + 1..][n - |p| - k - 1..] == d[n - |p|..];
    if ParseRoot(d[n - |p|..]) == Done(Some(t)) { RootElements(d[n - |p|..]); }
  }

  /** A marked name is taken for the prolog, and what stands in front of it is lost. */
  lemma MarkedIsLost(p: string, t: Xml, level: nat, space: nat)
    requires Plain(t) && t.Elem? && !Unmarked(t)
    ensures ParseXml(p + Dump(t, level, space)) != Done(Some(t))
  {
    hide Dump, ParseRoot, BehindLast, Plain, Unmarked;
    var s := p + Dump(t, level, space);
    var c, k, m := MarkShows(t, level, space);
    assert s[|p| + k..] == Dump(t, level, space)[k..] && s[|p| + m] == '>';
    assert ['<', '?'] == "<?" && ['<', '!'] == "<!";
    assert Dump(t, level, space)[k] == Dump(t, level, space)[k..][0] == '<';
    if ParseXml(s) == Done(Some(t)) {
      PassesMark(s, c, |p| + k, |p| + m);
      var a := BehindIsSuffix(s, "<?");
      var b := BehindIsSuffix(s, "<!");
      LateStart(p, t, level, space, k, if a > b then a else b);
    }
  }

  // ---------------------------------------------------------------- documents

  lemma DocumentNoOpen(t: Xml, level: nat, space: nat)
    requires Plain(t) && t.Elem? && Unmarked(t)
    ensures Dump(t, level, space) != "" && NoOpen(Dump(t, level, space), '?') && NoOpen(Dump(t, level, space), '!')
  {
    DumpNonEmpty(t, level, space);
    DumpNoOpen(t, level, space, '?');
    DumpNoOpen(t, level, space, '!');
  }

  /** Parsing a dumped document, behind any prolog, gives back its tree if and only if no element
      lies inside one of the same qualified name, no prefix spoils its uri, and no name is marked like
      an instruction or a declaration. */
  lemma ParseXmlRoundTrip(prolog: string, t: Xml, level: nat, space: nat)
    requires Plain(t) && t.Elem? && Prolog(prolog)
    ensures ParseXml(prolog + Dump(t, level, space)) == Done(Some(t)) <==> Unnested(t) && UrisKept(t) && Unmarked(t)
  {
    hide Dump, ParseRoot, ParseXml, Plain, Unnested, UrisKept, Unmarked, Prolog;
    if Unmarked(t) {
      DocumentNoOpen(t, level, space);
      var ind := PrologSkipped(prolog, Dump(t, level, space));
      RoundTripIff(ind, t, level, space, "");
      assert ind + Dump(t, level, space) + "" == ind + Dump(t, level, space);
    } else {
      MarkedIsLost(prolog, t, level, space);
    }
  }
}
