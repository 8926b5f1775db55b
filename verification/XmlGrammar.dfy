/** Documents as they may be written: any words in front of a tag, spaces in a tag, tags that close
    themselves, and end tags with spaces in them. Such a document is parsed to its tree if and only
    if the search for an end tag finds the own one of each element, and no prefix spoils a uri. */
module XmlGrammar {
  import opened CText
  import opened XmlText
  import opened XmlRoundTrip
  import opened XmlTokens
  import XmlNesting

  /** An element with the words in front of it, its children, the words behind the last of them, and the
      spaces in its end tag. */
  datatype Node = Node(lead: string, mark: Mark, uri: Option<string>, closed: bool, kids: seq<Node>, tail: string,
                       spaces: string)

  predicate Fits(n: Node) {
    && Lacks(n.lead, "<") && MarkFits(n.mark) && Lacks(n.tail, "<") && Spaces(n.spaces)
    && (n.closed ==> n.kids == [] && n.tail == "")
    && forall i :: 0 <= i < |n.kids| ==> Fits(n.kids[i])
  }

  predicate AllFit(ns: seq<Node>) {
    forall i :: 0 <= i < |ns| ==> Fits(ns[i])
  }

  function OwnStop(n: Node): Token {
    Stop(n.mark.prefix, n.mark.name, n.spaces)
  }

  function TokensOf(n: Node): seq<Token>
    decreases n, 1
  {
    if n.closed then [Words(n.lead), Single(n.mark)]
    else [Words(n.lead), Start(n.mark)] + (Inner(n.kids, n.tail) + [OwnStop(n)])
  }

  function Inner(ns: seq<Node>, tail: string): (ts: seq<Token>)
    ensures ts != []
    decreases ns, 0
  {
    if ns == [] then [Words(tail)] else TokensOf(ns[0]) + Inner(ns[1..], tail)
  }

  /** How the element is written. */
  function Spell(n: Node): string {
    TextOf(TokensOf(n))
  }

  function TreeOf(n: Node): Xml
    decreases n, 1
  {
    Elem(n.mark.prefix, n.mark.name, n.uri, n.mark.attr, TreesOf(n.kids, n.tail, false))
  }

  /** Words count if no element stands beside them. */
  function TreesOf(ns: seq<Node>, tail: string, some: bool): seq<Xml>
    decreases ns, 0
  {
    if ns == [] then (if some || tail == "" then [] else [Text(tail)])
    else [TreeOf(ns[0])] + TreesOf(ns[1..], tail, true)
  }

  // ---------------------------------------------------------------- the condition

  /** The element, or one in it, has an end tag of `q`, with spaces or without. */
  predicate Ends(n: Node, q: string, spaced: bool) {
    !n.closed
    && ((Named(n.mark) == q && (n.spaces != "") == spaced)
        || exists i :: 0 <= i < |n.kids| && Ends(n.kids[i], q, spaced))
  }

  predicate AnyEnds(ns: seq<Node>, q: string, spaced: bool) {
    exists i :: 0 <= i < |ns| && Ends(ns[i], q, spaced)
  }

  /** Nothing keeps the search from the own end tag of the element: no end tag of that name without spaces
      in it, and if the own one has spaces, none with spaces in it and none without behind it. */
  predicate EndFound(n: Node, later: seq<Node>) {
    n.closed
    || (!AnyEnds(n.kids, Named(n.mark), false)
        && (n.spaces != "" ==> !AnyEnds(n.kids, Named(n.mark), true) && !AnyEnds(later, Named(n.mark), false)))
  }

  predicate EndsFound(ns: seq<Node>) {
    ns != [] ==> EndFound(ns[0], ns[1..]) && EndsFound(ns[0].kids) && EndsFound(ns[1..])
  }

  predicate UrisShown(ns: seq<Node>) {
    ns != [] ==>
      UriKept(ns[0].mark.prefix, ns[0].uri, ns[0].mark.attr) && UrisShown(ns[0].kids) && UrisShown(ns[1..])
  }

  // ---------------------------------------------------------------- stops

  lemma FitMore(a: seq<Token>, b: seq<Token>)
    requires Fit(a) && Fit(b)
    ensures Fit(a + b)
  {
    hide TokenFits;
  }

  lemma {:induction false} TokensFit(n: Node)
    requires Fits(n)
    ensures Fit(TokensOf(n))
    decreases n, 1
  {
    hide Lacks, MarkFits;
    if !n.closed {
      InnerFits(n.kids, n.tail);
      assert TokenFits(OwnStop(n)) by { MarkOfStop(n); }
    }
  }

  lemma MarkOfStop(n: Node)
    requires Fits(n)
    ensures TokenFits(OwnStop(n))
  {}

  lemma {:induction false} InnerFits(ns: seq<Node>, tail: string)
    requires AllFit(ns) && Lacks(tail, "<")
    ensures Fit(Inner(ns, tail))
    decreases ns, 0
  {
    hide Lacks, Fits, TokensOf;
    if ns != [] {
      TokensFit(ns[0]);
      InnerFits(ns[1..], tail);
      FitMore(TokensOf(ns[0]), Inner(ns[1..], tail));
    }
  }

  predicate HasStop(ts: seq<Token>, q: string, spaced: bool) {
    exists i :: 0 <= i < |ts| && IsStop(ts[i], q, spaced)
  }

  lemma HasMore(a: seq<Token>, b: seq<Token>, q: string, spaced: bool)
    ensures HasStop(a + b, q, spaced) <==> HasStop(a, q, spaced) || HasStop(b, q, spaced)
  {
    hide IsStop;
    if HasStop(a, q, spaced) {
      var i :| 0 <= i < |a| && IsStop(a[i], q, spaced);
      assert (a + b)[i] == a[i];
    }
    if HasStop(b, q, spaced) {
      var i :| 0 <= i < |b| && IsStop(b[i], q, spaced);
      assert (a + b)[|a| + i] == b[i];
    }
  }

  lemma HasOne(t: Token, q: string, spaced: bool)
    ensures HasStop([t], q, spaced) <==> IsStop(t, q, spaced)
  {
    assert [t][0] == t;
  }

  lemma HasNone(t: Token, t': Token, q: string, spaced: bool)
    requires !t.Stop? && !t'.Stop?
    ensures !HasStop([t, t'], q, spaced) && !HasStop([t], q, spaced)
  {}

  lemma {:induction false} StopsOf(n: Node, q: string, spaced: bool)
    ensures HasStop(TokensOf(n), q, spaced) <==> Ends(n, q, spaced)
    decreases n, 1
  {
    hide HasStop;
    HasNone(Words(n.lead), Single(n.mark), q, spaced);
    HasNone(Words(n.lead), Start(n.mark), q, spaced);
    if !n.closed {
      StopsIn(n.kids, n.tail, q, spaced);
      HasOne(OwnStop(n), q, spaced);
      HasMore(Inner(n.kids, n.tail), [OwnStop(n)], q, spaced);
      HasMore([Words(n.lead), Start(n.mark)], Inner(n.kids, n.tail) + [OwnStop(n)], q, spaced);
    }
  }

  lemma {:induction false} StopsIn(ns: seq<Node>, tail: string, q: string, spaced: bool)
    ensures HasStop(Inner(ns, tail), q, spaced) <==> AnyEnds(ns, q, spaced)
    decreases ns, 0
  {
    hide HasStop, Ends, TokensOf;
    if ns == [] {
      HasNone(Words(tail), Words(tail), q, spaced);
    } else {
      StopsOf(ns[0], q, spaced);
      StopsIn(ns[1..], tail, q, spaced);
      HasMore(TokensOf(ns[0]), Inner(ns[1..], tail), q, spaced);
      AnyMore(ns, q, spaced);
    }
  }

  lemma AnyMore(ns: seq<Node>, q: string, spaced: bool)
    requires ns != []
    ensures AnyEnds(ns, q, spaced) <==> Ends(ns[0], q, spaced) || AnyEnds(ns[1..], q, spaced)
  {
    hide Ends;
    if AnyEnds(ns, q, spaced) {
      var i :| 0 <= i < |ns| && Ends(ns[i], q, spaced);
      assert i > 0 ==> ns[1..][i - 1] == ns[i];
    }
    if AnyEnds(ns[1..], q, spaced) {
      var i :| 0 <= i < |ns[1..]| && Ends(ns[1..][i], q, spaced);
      assert ns[i + 1] == ns[1..][i];
    }
  }

  /** The search finds the token at the end of `inner` if nothing of its name is in the way. */
  lemma StopIsOwn(inner: seq<Token>, own: Token, more: seq<Token>, q: string)
    requires IsStop(own, q, false) || IsStop(own, q, true)
    ensures FindStop(inner + [own] + more, q) == Some(|inner|)
      <==> !HasStop(inner, q, false)
           && (own.spaces != "" ==> !HasStop(inner, q, true) && !HasStop(more, q, false))
  {
    var ts, k := inner + [own] + more, |inner|;
    assert ts[k] == own;
    assert forall i :: 0 <= i < k ==> ts[i] == inner[i];
    assert forall i :: 0 <= i < |more| ==> ts[k + 1 + i] == more[i];
    assert forall i :: k < i < |ts| ==> ts[i] == more[i - k - 1];
  }

  // ---------------------------------------------------------------- nothing is lost

  function Weight(ts: seq<Token>): nat {
    if ts == [] then 0
    else (match ts[0]
          case Words(_) => 0
          case Single(_) => 2
          case _ => 1) + Weight(ts[1..])
  }

  lemma {:induction false} WeightPlus(a: seq<Token>, b: seq<Token>)
    ensures Weight(a + b) == Weight(a) + Weight(b)
  {
    if a == [] {
      assert a + b == b;
    } else {
      assert (a + b)[1..] == a[1..] + b;
      WeightPlus(a[1..], b);
    }
  }

  lemma WeightCut(ts: seq<Token>, i: nat)
    requires i < |ts|
    ensures Weight(ts) == Weight(ts[..i]) + Weight([ts[i]]) + Weight(ts[i + 1..])
  {
    assert ts == ts[..i] + ([ts[i]] + ts[i + 1..]);
    WeightPlus(ts[..i], [ts[i]] + ts[i + 1..]);
    WeightPlus([ts[i]], ts[i + 1..]);
  }

  lemma WeightOne(t: Token)
    ensures Weight([t]) == if t.Words? then 0 else if t.Single? then 2 else 1
  {
    assert [t][1..] == [];
  }

  /** The depth behind the tokens, unless it falls below zero on the way. */
  function Run(ts: seq<Token>, d: nat): Option<nat> {
    if ts == [] then Some(d)
    else if ts[0].Start? then Run(ts[1..], d + 1)
    else if ts[0].Stop? then (if d == 0 then None else Run(ts[1..], d - 1))
    else Run(ts[1..], d)
  }

  lemma {:induction false} RunPlus(a: seq<Token>, b: seq<Token>, d: nat)
    ensures Run(a + b, d) == match Run(a, d)
      case Some(d') => Run(b, d')
      case None => None
  {
    if a == [] {
      assert a + b == b;
    } else {
      assert (a + b)[1..] == a[1..] + b;
      RunPlus(a[1..], b, if a[0].Start? then d + 1 else if a[0].Stop? && d > 0 then d - 1 else d);
    }
  }

  lemma {:induction false} RunWords(ts: seq<Token>, d: nat)
    requires forall k :: 0 <= k < |ts| ==> ts[k].Words?
    ensures Run(ts, d) == Some(d) && Weight(ts) == 0
  {
    if ts != [] { RunWords(ts[1..], d); }
  }

  lemma RunOne(t: Token, d: nat)
    ensures Run([t], d)
         == if t.Start? then Some(d + 1) else if t.Stop? then (if d == 0 then None else Some(d - 1)) else Some(d)
  {
    assert [t][1..] == [];
  }

  /** Where the parser reads as many elements as there are tags for, the tags match. */
  lemma {:induction false} Lossless(ts: seq<Token>, some: bool, d: nat)
    requires ReadKids(ts, some).Done?
    ensures 2 * XmlNesting.Elements(ReadKids(ts, some).value) <= Weight(ts)
    ensures 2 * XmlNesting.Elements(ReadKids(ts, some).value) == Weight(ts) ==> Run(ts, d) == Some(d)
    decreases |ts|, 0
  {
    hide TextOf, Weight, Run, ReadTag;
    var i := TagsIn(ts);
    RunWords(ts[..i], d);
    if i == |ts| {
      assert ts[..i] == ts;
    } else {
      WeightCut(ts, i);
      RunCut(ts, i, d);
      hide ReadKids;
      LosslessTag(ts[i], ts[i + 1..], some, d);
    }
  }

  lemma {:induction false} LosslessTag(t: Token, rest: seq<Token>, some: bool, d: nat)
    requires !t.Words? && ReadTag(t, rest, some).Done?
    ensures 2 * XmlNesting.Elements(ReadTag(t, rest, some).value) <= Weight([t]) + Weight(rest)
    ensures 2 * XmlNesting.Elements(ReadTag(t, rest, some).value) == Weight([t]) + Weight(rest) ==>
      Run([t], d).Some? && Run(rest, Run([t], d).value) == Some(d)
    decreases |rest|, 1
  {
    hide ReadKids, UriRead, FindStop, Weight, Run;
    WeightOne(t);
    RunOne(t, d);
    match t
    case Stop(_, _, _) => Lossless(rest, some, d);
    case Single(m) =>
      Lossless(rest, true, d);
      var uri := UriRead(m.prefix, m.attr).value;
      XmlNesting.PrependElements(Elem(m.prefix, m.name, uri, m.attr, []), ReadKids(rest, true).value);
    case Start(m) =>
      var uri := UriRead(m.prefix, m.attr).value;
      match FindStop(rest, Named(m))
      case None => Lossless(rest, some, d);
      case Some(k) =>
        var kids, later := ReadKids(rest[..k], false).value, ReadKids(rest[k + 1..], true).value;
        Lossless(rest[..k], false, d + 1);
        Lossless(rest[k + 1..], true, d);
        MatchedPair(rest, k, d);
        XmlNesting.PrependElements(Elem(m.prefix, m.name, uri, m.attr, kids), later);
  }

  lemma MatchedPair(rest: seq<Token>, k: nat, d: nat)
    requires k < |rest| && rest[k].Stop?
    ensures Weight(rest) == Weight(rest[..k]) + 1 + Weight(rest[k + 1..])
    ensures Run(rest[..k], d + 1) == Some(d + 1) ==> Run(rest, d + 1) == Run(rest[k + 1..], d)
  {
    hide Weight, Run;
    WeightCut(rest, k);
    WeightOne(rest[k]);
    RunCut(rest, k, d + 1);
    RunOne(rest[k], d + 1);
  }

  lemma RunCut(ts: seq<Token>, i: nat, d: nat)
    requires i < |ts|
    ensures Run(ts[..i], d) == Some(d) ==> Run(ts, d) == match Run([ts[i]], d)
      case Some(d') => Run(ts[i + 1..], d')
      case None => None
  {
    hide Run;
    assert ts == ts[..i] + ([ts[i]] + ts[i + 1..]);
    RunPlus(ts[..i], [ts[i]] + ts[i + 1..], d);
    RunPlus([ts[i]], ts[i + 1..], d);
  }

  // ---------------------------------------------------------------- the tags of a tree match

  lemma {:induction false} Balanced(n: Node, d: nat)
    requires Fits(n)
    ensures Run(TokensOf(n), d) == Some(d) && Weight(TokensOf(n)) == 2 * XmlNesting.ElementsOf(TreeOf(n))
    decreases n, 1
  {
    if n.closed {
      assert TokensOf(n) == [Words(n.lead)] + [Single(n.mark)];
      assert TreesOf(n.kids, n.tail, false) == [];
      TwoTokens(Words(n.lead), Single(n.mark), d);
    } else {
      InnerBalanced(n.kids, n.tail, false, d + 1);
      hide Fits, Inner, Run, Weight;
      var inner := Inner(n.kids, n.tail);
      TwoTokens(Words(n.lead), Start(n.mark), d);
      RunPlus([Words(n.lead), Start(n.mark)], inner + [OwnStop(n)], d);
      RunPlus(inner, [OwnStop(n)], d + 1);
      RunOne(OwnStop(n), d + 1);
      WeightPlus([Words(n.lead), Start(n.mark)], inner + [OwnStop(n)]);
      WeightPlus(inner, [OwnStop(n)]);
      WeightOne(OwnStop(n));
    }
  }

  lemma TwoTokens(t: Token, t': Token, d: nat)
    requires t.Words?
    ensures Run([t, t'], d) == Run([t'], d) && Weight([t, t']) == Weight([t'])
    ensures t'.Single? ==> Run([t'], d) == Some(d) && Weight([t']) == 2
    ensures t'.Start? ==> Run([t'], d) == Some(d + 1) && Weight([t']) == 1
  {
    assert [t, t'][1..] == [t'];
    RunOne(t', d);
    WeightOne(t');
  }

  lemma {:induction false} InnerBalanced(ns: seq<Node>, tail: string, some: bool, d: nat)
    requires AllFit(ns)
    ensures Run(Inner(ns, tail), d) == Some(d)
    ensures Weight(Inner(ns, tail)) == 2 * XmlNesting.Elements(TreesOf(ns, tail, some))
    decreases ns, 0
  {
    if ns == [] {
      RunOne(Words(tail), d);
      WeightOne(Words(tail));
    } else {
      Balanced(ns[0], d);
      InnerBalanced(ns[1..], tail, true, d);
      hide Fits, TokensOf, TreeOf, Run, Weight;
      RunPlus(TokensOf(ns[0]), Inner(ns[1..], tail), d);
      WeightPlus(TokensOf(ns[0]), Inner(ns[1..], tail));
      XmlNesting.PrependElements(TreeOf(ns[0]), TreesOf(ns[1..], tail, true));
    }
  }

  /** A balanced run that ends at an end tag is all of what stands in front of it. */
  lemma OnlyBalanced(inner: seq<Token>, own: Token, more: seq<Token>, k: nat)
    requires Run(inner, 0) == Some(0) && own.Stop?
    requires var ts := inner + [own] + more; k < |ts| && ts[k].Stop? && Run(ts[..k], 0) == Some(0)
    ensures k == |inner|
  {
    hide Run;
    var ts := inner + [own] + more;
    RunOne(ts[k], 0);
    RunOne(own, 0);
    if k < |inner| {
      assert ts[..k] == inner[..k] && ts[k] == inner[k];
      RunCut(inner, k, 0);
    } else if k > |inner| {
      assert ts[..k][..|inner|] == inner && ts[..k][|inner|] == own;
      RunCut(ts[..k], |inner|, 0);
    }
  }

  // ---------------------------------------------------------------- the parse of a list

  lemma ReadSingle(lead: string, m: Mark, more: seq<Token>, some: bool)
    ensures ReadKids([Words(lead), Single(m)] + more, some) == match UriRead(m.prefix, m.attr)
      case Undefined => Undefined
      case Done(uri) => Prepend(Elem(m.prefix, m.name, uri, m.attr, []), ReadKids(more, true))
  {
    var ts := [Words(lead), Single(m)] + more;
    FirstTag(lead, Single(m), more);
    assert ts[2..] == more && ts[1] == Single(m);
  }

  lemma FirstTag(lead: string, t: Token, more: seq<Token>)
    requires !t.Words?
    ensures TagsIn([Words(lead), t] + more) == 1
  {
    assert ([Words(lead), t] + more)[1..] == [t] + more;
  }

  lemma ReadStart(lead: string, m: Mark, rest: seq<Token>, some: bool)
    ensures ReadKids([Words(lead), Start(m)] + rest, some) == match UriRead(m.prefix, m.attr)
      case Undefined => Undefined
      case Done(uri) => match FindStop(rest, Named(m))
        case None => ReadKids(rest, some)
        case Some(k) => match ReadKids(rest[..k], false)
          case Undefined => Undefined
          case Done(kids) => Prepend(Elem(m.prefix, m.name, uri, m.attr, kids), ReadKids(rest[k + 1..], true))
  {
    var ts := [Words(lead), Start(m)] + rest;
    FirstTag(lead, Start(m), rest);
    assert ts[2..] == rest && ts[1] == Start(m);
  }

  lemma InnerSplit(n: Node, ns: seq<Node>, tail: string)
    requires ns != [] && n == ns[0]
    ensures var more := Inner(ns[1..], tail);
      Inner(ns, tail) == if n.closed then [Words(n.lead), Single(n.mark)] + more
        else [Words(n.lead), Start(n.mark)] + (Inner(n.kids, n.tail) + [OwnStop(n)] + more)
  {
    var more, inner := Inner(ns[1..], tail), Inner(n.kids, n.tail);
    if !n.closed {
      assert [Words(n.lead), Start(n.mark)] + (inner + [OwnStop(n)]) + more
          == [Words(n.lead), Start(n.mark)] + (inner + [OwnStop(n)] + more);
    }
  }

  lemma OwnFound(n: Node, later: seq<Node>, tail: string)
    requires !n.closed
    ensures FindStop(Inner(n.kids, n.tail) + [OwnStop(n)] + Inner(later, tail), Named(n.mark))
         == Some(|Inner(n.kids, n.tail)|)
      <==> EndFound(n, later)
  {
    hide FindStop, HasStop, AnyEnds, Inner;
    var q := Named(n.mark);
    StopIsOwn(Inner(n.kids, n.tail), OwnStop(n), Inner(later, tail), q);
    StopsIn(n.kids, n.tail, q, false);
    StopsIn(n.kids, n.tail, q, true);
    StopsIn(later, tail, q, false);
  }

  /** The parts of a parsed list come back if and only if nothing is in the way of their ends and uris. */
  lemma {:induction false} ReadIff(ns: seq<Node>, tail: string, some: bool)
    requires AllFit(ns) && Lacks(tail, "<")
    ensures ReadKids(Inner(ns, tail), some) == Done(TreesOf(ns, tail, some)) <==> EndsFound(ns) && UrisShown(ns)
    decreases ns
  {
    hide Fits, Lacks, ReadKids, Inner, TreesOf, EndFound, UriRead, FindStop, Named;
    if ns == [] {
      ReadWords(tail, some);
    } else {
      var n := ns[0];
      ReadIff(ns[1..], tail, true);
      InnerSplit(n, ns, tail);
      TreesSplit(ns, tail, some);
      assert AllFit(n.kids) && Lacks(n.tail, "<") by { KidsFit(n); }
      if n.closed {
        ClosedParts(n, ns[1..]);
        ReadSingle(n.lead, n.mark, Inner(ns[1..], tail), some);
        var uri := UriRead(n.mark.prefix, n.mark.attr);
        if uri.Done? {
          PrependIs(Elem(n.mark.prefix, n.mark.name, uri.value, n.mark.attr, []), ReadKids(Inner(ns[1..], tail), true),
            TreeOf(n), TreesOf(ns[1..], tail, true));
        }
      } else {
        ReadIff(n.kids, n.tail, false);
        ReadElementIff(n, ns[1..], tail, some);
        BehindIs(n, ns[1..], tail);
      }
    }
  }

  lemma ReadWords(tail: string, some: bool)
    ensures ReadKids(Inner([], tail), some) == Done(TreesOf([], tail, some))
  {
    assert [Words(tail)][1..] == [] && TextOf([Words(tail)]) == tail + "" == tail;
  }

  lemma TreesSplit(ns: seq<Node>, tail: string, some: bool)
    requires ns != []
    ensures TreesOf(ns, tail, some) == [TreeOf(ns[0])] + TreesOf(ns[1..], tail, true)
  {}

  lemma KidsFit(n: Node)
    requires Fits(n)
    ensures AllFit(n.kids) && Lacks(n.tail, "<") && (n.closed ==> n.kids == [] && TreesOf(n.kids, n.tail, false) == [])
  {}

  lemma ClosedParts(n: Node, later: seq<Node>)
    requires Fits(n) && n.closed
    ensures EndFound(n, later) && EndsFound(n.kids) && UrisShown(n.kids) && TreesOf(n.kids, n.tail, false) == []
  {}

  lemma PrependIs(t: Xml, more: Outcome<seq<Xml>>, t': Xml, ts: seq<Xml>)
    ensures Prepend(t, more) == Done([t'] + ts) <==> t == t' && more == Done(ts)
  {
    if more.Done? {
      assert ([t] + more.value)[0] == t && ([t] + more.value)[1..] == more.value;
      assert ([t'] + ts)[0] == t' && ([t'] + ts)[1..] == ts;
    }
  }

  /** What stands behind the start tag of an element. */
  function BehindStart(n: Node, later: seq<Node>, tail: string): seq<Token> {
    Inner(n.kids, n.tail) + [OwnStop(n)] + Inner(later, tail)
  }

  /** The weight of an element and what follows it. */
  lemma WholeWeight(n: Node, later: seq<Node>, tail: string)
    requires Fits(n) && AllFit(later) && !n.closed
    ensures 1 + Weight(BehindStart(n, later, tail))
         == 2 * (1 + XmlNesting.Elements(TreesOf(n.kids, n.tail, false))
                 + XmlNesting.Elements(TreesOf(later, tail, true)))
  {
    hide Weight, Inner, TreesOf, Fits;
    assert AllFit(n.kids) by { KidsFit(n); }
    InnerBalanced(n.kids, n.tail, false, 0);
    InnerBalanced(later, tail, true, 0);
    WeightPlus(Inner(n.kids, n.tail) + [OwnStop(n)], Inner(later, tail));
    WeightPlus(Inner(n.kids, n.tail), [OwnStop(n)]);
    WeightOne(OwnStop(n));
  }

  /** An element is not passed over without loss. */
  lemma NotPassedOver(n: Node, later: seq<Node>, tail: string, some: bool)
    requires Fits(n) && AllFit(later) && !n.closed
    ensures ReadKids(BehindStart(n, later, tail), some) != Done([TreeOf(n)] + TreesOf(later, tail, true))
  {
    hide Weight, Inner, Fits, ReadKids, TreesOf, BehindStart;
    WholeWeight(n, later, tail);
    XmlNesting.PrependElements(TreeOf(n), TreesOf(later, tail, true));
    if ReadKids(BehindStart(n, later, tail), some).Done? {
      Lossless(BehindStart(n, later, tail), some, 0);
    }
  }

  /** Nor is it read with another end tag. */
  lemma NotCutElsewhere(n: Node, later: seq<Node>, tail: string, k: nat)
    requires Fits(n) && AllFit(later) && !n.closed
    requires var rest := BehindStart(n, later, tail); k < |rest| && rest[k].Stop? && k != |Inner(n.kids, n.tail)|
    ensures var rest := BehindStart(n, later, tail);
      !(ReadKids(rest[..k], false) == Done(TreesOf(n.kids, n.tail, false))
        && ReadKids(rest[k + 1..], true) == Done(TreesOf(later, tail, true)))
  {
    hide Weight, Inner, Fits, ReadKids, TreesOf, Run;
    var rest := BehindStart(n, later, tail);
    WholeWeight(n, later, tail);
    if ReadKids(rest[..k], false).Done? && ReadKids(rest[k + 1..], true).Done? {
      Lossless(rest[..k], false, 0);
      Lossless(rest[k + 1..], true, 0);
      WeightCut(rest, k);
      WeightOne(rest[k]);
      assert AllFit(n.kids) by { KidsFit(n); }
      InnerBalanced(n.kids, n.tail, false, 0);
      if Run(rest[..k], 0) == Some(0) {
        OnlyBalanced(Inner(n.kids, n.tail), OwnStop(n), Inner(later, tail), k);
      }
    }
  }

  lemma OwnCut(n: Node, later: seq<Node>, tail: string)
    ensures var rest, k := BehindStart(n, later, tail), |Inner(n.kids, n.tail)|;
      k < |rest| && rest[..k] == Inner(n.kids, n.tail) && rest[k + 1..] == Inner(later, tail)
  {}

  lemma {:induction false} ReadElementIff(n: Node, later: seq<Node>, tail: string, some: bool)
    requires Fits(n) && AllFit(later) && !n.closed
    ensures ReadKids([Words(n.lead), Start(n.mark)] + BehindStart(n, later, tail), some)
         == Done([TreeOf(n)] + TreesOf(later, tail, true))
      <==> EndFound(n, later) && UriKept(n.mark.prefix, n.uri, n.mark.attr)
           && ReadKids(Inner(n.kids, n.tail), false) == Done(TreesOf(n.kids, n.tail, false))
           && ReadKids(Inner(later, tail), true) == Done(TreesOf(later, tail, true))
  {
    hide Inner, Fits, ReadKids, TreesOf, FindStop, UriRead, Named, BehindStart, EndFound;
    var rest, m := BehindStart(n, later, tail), n.mark;
    ReadStart(n.lead, m, rest, some);
    assert FindStop(rest, Named(m)) == Some(|Inner(n.kids, n.tail)|) <==> EndFound(n, later) by {
      OwnFound(n, later, tail);
      assert rest == Inner(n.kids, n.tail) + [OwnStop(n)] + Inner(later, tail) by { BehindIs(n, later, tail); }
    }
    match UriRead(m.prefix, m.attr)
    case Undefined =>
    case Done(uri) =>
      match FindStop(rest, Named(m))
      case None => NotPassedOver(n, later, tail, some);
      case Some(k) =>
        var kids := ReadKids(rest[..k], false);
        OwnCut(n, later, tail);
        if k != |Inner(n.kids, n.tail)| {
          NotCutElsewhere(n, later, tail, k);
        }
        if kids.Done? {
          PrependIs(Elem(m.prefix, m.name, uri, m.attr, kids.value), ReadKids(rest[k + 1..], true), TreeOf(n),
            TreesOf(later, tail, true));
        }
  }

  lemma BehindIs(n: Node, later: seq<Node>, tail: string)
    ensures BehindStart(n, later, tail) == Inner(n.kids, n.tail) + [OwnStop(n)] + Inner(later, tail)
  {}

  // ---------------------------------------------------------------- documents

  lemma RootStart(ind: string, m: Mark, rest: string)
    requires Lacks(ind, "<") && MarkFits(m)
    ensures ParseRoot(ind + (TokenText(Start(m)) + rest)) == match UriRead(m.prefix, m.attr)
      case Undefined => Undefined
      case Done(uri) => match FindEnd(rest, Named(m))
        case None => ParseRoot(rest)
        case Some(e) => match ParseKids(rest[..e], false)
          case Undefined => Undefined
          case Done(kids) => Done(Some(Elem(m.prefix, m.name, uri, m.attr, kids)))
  {
    hide NextTag, FindEnd, ParseKids, UriRead, TokenText;
    NextStart(ind, m, rest);
  }

  lemma RootSingle(ind: string, m: Mark, rest: string)
    requires Lacks(ind, "<") && MarkFits(m)
    ensures ParseRoot(ind + (TokenText(Single(m)) + rest)) == match UriRead(m.prefix, m.attr)
      case Undefined => Undefined
      case Done(uri) => Done(Some(Elem(m.prefix, m.name, uri, m.attr, [])))
  {
    hide NextTag, FindEnd, ParseKids, UriRead, TokenText;
    NextSingle(ind, m, rest);
  }

  /** The search behind the root, in its own tokens. */
  lemma RootEnd(n: Node, rest: string)
    requires Fits(n) && !n.closed
    requires n.spaces != "" ==> StrStr(rest, EndTag(Named(n.mark))) == None
    ensures var ts := Inner(n.kids, n.tail) + [OwnStop(n)];
      FindStop(ts, Named(n.mark)).Some?
      && FindEnd(TextOf(ts) + rest, Named(n.mark)) == Some(|TextOf(ts[..FindStop(ts, Named(n.mark)).value])|)
      && (FindStop(ts, Named(n.mark)) == Some(|Inner(n.kids, n.tail)|) <==> EndFound(n, []))
  {
    hide TextOf, StrStr, FirstStop, AnyEnds, HasStop, Fits, Inner;
    var inner, own, q := Inner(n.kids, n.tail), OwnStop(n), Named(n.mark);
    var ts := inner + [own];
    assert AllFit(n.kids) && Lacks(n.tail, "<") by { KidsFit(n); }
    InnerFits(n.kids, n.tail);
    MarkOfStop(n);
    FitMore(inner, [own]);
    assert Lacks(q, " <>") by { assert MarkFits(n.mark) by { MarkOf(n); } MarkName(n.mark); }
    StopFound(ts, rest, q, false);
    StopFound(ts, rest, q, true);
    assert ts[|inner|] == own;
    StopIsOwn(inner, own, [], q);
    assert inner + [own] + [] == ts;
    StopsIn(n.kids, n.tail, q, false);
    StopsIn(n.kids, n.tail, q, true);
    assert !HasStop([], q, false) && !AnyEnds([], q, false) by { EmptyHas(q); }
  }

  lemma MarkOf(n: Node)
    requires Fits(n)
    ensures MarkFits(n.mark) && Lacks(n.lead, "<")
  {}

  lemma EmptyHas(q: string)
    ensures !HasStop([], q, false) && !AnyEnds([], q, false)
  {}

  lemma SpellParts(n: Node, rest: string)
    ensures n.closed ==> Spell(n) + rest == n.lead + (TokenText(Single(n.mark)) + rest)
    ensures !n.closed ==>
      Spell(n) + rest
      == n.lead + (TokenText(Start(n.mark)) + (TextOf(Inner(n.kids, n.tail) + [OwnStop(n)]) + rest))
  {
    hide TextOf, TokenText, Inner;
    var ts := if n.closed then [] else Inner(n.kids, n.tail) + [OwnStop(n)];
    var t := if n.closed then Single(n.mark) else Start(n.mark);
    assert TokensOf(n) == [Words(n.lead), t] + ts;
    TextPlus([Words(n.lead), t], ts);
    assert TextOf([Words(n.lead), t]) == n.lead + TokenText(t) by { TwoTexts(n.lead, t); }
    assert TextOf([]) == "" by { NoText(); }
  }

  lemma TwoTexts(lead: string, t: Token)
    ensures TextOf([Words(lead), t]) == lead + TokenText(t)
  {
    hide TokenText;
    assert [Words(lead), t][1..] == [t] && [t][1..] == [];
    TextFirst([Words(lead), t]);
    TextFirst([t]);
    assert TextOf([t]) == TokenText(t) + TextOf([]) && TextOf([]) == "";
    assert TokenText(Words(lead)) == lead by { WordsText(lead); }
  }

  lemma WordsText(s: string)
    ensures TokenText(Words(s)) == s
  {}

  lemma NoText()
    ensures TextOf([]) == ""
  {}

  /** A document, with anything behind it, is parsed to its tree if and only if the search for an end tag
      finds the own one of each of its elements, and no prefix spoils a uri. What stands behind a root
      whose end tag has spaces may not hold one without. */
  lemma ParseIff(n: Node, rest: string)
    requires Fits(n)
    requires n.spaces != "" ==> StrStr(rest, EndTag(Named(n.mark))) == None
    ensures ParseRoot(Spell(n) + rest) == Done(Some(TreeOf(n))) <==> EndsFound([n]) && UrisShown([n])
  {
    hide Spell, Fits, ParseRoot, ParseKids, FindEnd, UriRead, TokenText, TextOf, EndFound, Inner, FindStop, StrStr;
    hide TreesOf, Named, EndsFound, UrisShown;
    var m := n.mark;
    SpellParts(n, rest);
    MarkOf(n);
    KidsFit(n);
    OnlyOne(n);
    if n.closed {
      ClosedParts(n, []);
      RootSingle(n.lead, m, rest);
    } else {
      var inner := Inner(n.kids, n.tail);
      var ts := inner + [OwnStop(n)];
      RootStart(n.lead, m, TextOf(ts) + rest);
      RootEnd(n, rest);
      var k := FindStop(ts, Named(m)).value;
      assert ts == ts[..k] + ts[k..];
      TextPlus(ts[..k], ts[k..]);
      assert (TextOf(ts) + rest)[..|TextOf(ts[..k])|] == TextOf(ts[..k]);
      InnerFits(n.kids, n.tail);
      FitCut(inner, OwnStop(n), k);
      ParseTokens(ts[..k], false);
      ReadIff(n.kids, n.tail, false);
      if k != |inner| {
        CutLoses(n, k);
      } else {
        assert ts[..k] == inner;
      }
    }
  }

  lemma OnlyOne(n: Node)
    ensures EndsFound([n]) <==> EndFound(n, []) && EndsFound(n.kids)
    ensures UrisShown([n]) <==> UriKept(n.mark.prefix, n.uri, n.mark.attr) && UrisShown(n.kids)
  {
    hide EndFound, UriRead;
    assert [n][1..] == [] && UrisShown([]) && EndsFound([]);
  }

  lemma FitCut(inner: seq<Token>, own: Token, k: nat)
    requires Fit(inner) && k <= |inner|
    ensures Fit((inner + [own])[..k])
  {
    hide TokenFits;
    assert (inner + [own])[..k] == inner[..k];
  }

  /** Cut at an end tag inside, the content of an element is not read whole. */
  lemma CutLoses(n: Node, k: nat)
    requires Fits(n) && k < |Inner(n.kids, n.tail)| && Inner(n.kids, n.tail)[k].Stop?
    ensures ReadKids((Inner(n.kids, n.tail) + [OwnStop(n)])[..k], false) != Done(TreesOf(n.kids, n.tail, false))
  {
    hide Fits, Inner, ReadKids, TreesOf, Weight, Run;
    var inner := Inner(n.kids, n.tail);
    assert (inner + [OwnStop(n)])[..k] == inner[..k];
    assert AllFit(n.kids) by { KidsFit(n); }
    InnerBalanced(n.kids, n.tail, false, 0);
    WeightCut(inner, k);
    WeightOne(inner[k]);
    if ReadKids(inner[..k], false).Done? {
      Lossless(inner[..k], false, 0);
    }
  }
}
