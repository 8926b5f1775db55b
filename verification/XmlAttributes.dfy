/** Reading and writing one attribute inside the attribute text of an element, by string search. */
module XmlAttributes {
  import opened CText
  import opened XmlText
  import opened XmlRoundTrip

  // ---------------------------------------------------------------- the code

  /** Where the attribute `k` stands if it is quoted by `q`: the end of the text in front of it, and
      the start of its value. */
  function FindQuoted(s: string, k: string, q: char): (r: Option<(nat, nat)>)
    ensures r.Some? ==> r.value.0 <= r.value.1 <= |s|
  {
    match StrStr(s, " " + k + "=" + [q])
    case Some(i) => Some((i, i + |k| + 3))
    case None => if k + "=" + [q] <= s then Some((0, |k| + 2)) else None
  }

  /** The two ends of the value of attribute `k` and the end of the text in front of it: first
      looked for in single, then in double quotes. */
  function Locate(s: string, k: string): (r: Outcome<Option<(nat, nat, nat)>>)
    ensures r.Done? && r.value.Some? ==> r.value.value.0 <= r.value.value.1 <= r.value.value.2 < |s|
  {
    match FindQuoted(s, k, '\'')
    case Some((front, start)) => ValueEnd(s, front, start, '\'')
    case None =>
      match FindQuoted(s, k, '\"')
      case Some((front, start)) => ValueEnd(s, front, start, '\"')
      case None => Done(None)
  }

  function ValueEnd(s: string, front: nat, start: nat, q: char): (r: Outcome<Option<(nat, nat, nat)>>)
    requires front <= start <= |s|
    ensures r.Done? && r.value.Some? ==> r.value.value.0 <= r.value.value.1 <= r.value.value.2 < |s|
  {
    match StrChr(s[start..], q)
    case Some(n) => Done(Some((front, start, start + n)))
    case None => Undefined
  }

  /** xml_get_attribute. */
  function GetAttribute(attr: Option<string>, k: string): Outcome<Option<string>> {
    match attr
    case None => Done(None)
    case Some(s) =>
      match Locate(s, k)
      case Undefined => Undefined
      case Done(None) => Done(None)
      case Done(Some((_, start, end))) => Done(Some(s[start..end]))
  }

  /** The new attribute as it is written: in double quotes unless the value holds one. */
  function Written(k: string, v: string): string {
    if '\"' in v then k + "=\'" + v + "\'" else k + "=\"" + v + "\""
  }

  /** The new attribute between what is left in front of and behind the old one. */
  function Assemble(before: Option<string>, item: string, behind: Option<string>): string {
    match (before, behind)
    case (Some(a), Some(b)) => a + " " + item + " " + b
    case (Some(a), None) => a + " " + item
    case (None, Some(b)) => item + " " + b
    case (None, None) => item
  }

  /** The attribute text that xml_set_attribute leaves. */
  function SetAttrText(attr: Option<string>, k: string, v: string): Outcome<string> {
    match attr
    case None => Done(Written(k, v))
    case Some(s) =>
      match Locate(s, k)
      case Undefined => Undefined
      case Done(None) => Done(s + " " + Written(k, v))
      case Done(Some((front, _, end))) =>
        Done(Assemble(StrStrip(s[..front]), Written(k, v), StrStrip(s[end + 1..])))
  }

  /** The uri that xml_set_attribute leaves: the namespace declaration of the node sets it. */
  function SetUri(prefix: Option<string>, uri: Option<string>, k: string, v: string): Option<string> {
    if k == Declaration(prefix) then Some(v) else uri
  }

  // ---------------------------------------------------------------- attribute lists

  datatype Attr = Attr(name: string, value: string, quote: char)

  predicate KeyFits(k: string) {
    k != "" && Lacks(k, " =\'\"")
  }

  predicate AttrFits(a: Attr) {
    KeyFits(a.name) && (a.quote == '\'' || a.quote == '\"') && '=' !in a.value && a.quote !in a.value
  }

  predicate ListFits(l: seq<Attr>) {
    && (forall i :: 0 <= i < |l| ==> AttrFits(l[i]))
    && (forall i, j :: 0 <= i < j < |l| ==> l[i].name != l[j].name)
  }

  function Item(a: Attr): string {
    a.name + "=" + [a.quote] + a.value + [a.quote]
  }

  /** The attribute text of a list. */
  function Render(l: seq<Attr>): string {
    if l == [] then "" else if |l| == 1 then Item(l[0]) else Item(l[0]) + " " + Render(l[1..])
  }

  /** The value of attribute `k` in a list of attributes. */
  function Lookup(l: seq<Attr>, k: string): Option<string> {
    if l == [] then None else if l[0].name == k then Some(l[0].value) else Lookup(l[1..], k)
  }

  /** The list with `k` set to `v`, in place if it is there and at the end otherwise. */
  function Update(l: seq<Attr>, k: string, v: string): seq<Attr> {
    if l == [] then [Attr(k, v, if '\"' in v then '\'' else '\"')]
    else if l[0].name == k then [Attr(k, v, if '\"' in v then '\'' else '\"')] + l[1..]
    else [l[0]] + Update(l[1..], k, v)
  }

  predicate ValueFits(v: string) {
    '=' !in v && !('\'' in v && '\"' in v)
  }

  // ---------------------------------------------------------------- searching

  function Pattern(k: string, q: char): string {
    " " + k + "=" + [q]
  }

  predicate NoneStarts(p: string, s: string, n: nat)
    requires n <= |s|
  {
    forall i :: 0 <= i < n ==> !(p <= s[i..])
  }

  lemma Mismatch(p: string, s: string, i: nat, m: nat)
    requires m < |p| && i + m < |s| && p[m] != s[i + m]
    ensures !(p <= s[i..])
  {
    assert s[i..][m] == s[i + m];
  }

  lemma ItemHidesPattern(a: Attr, k: string, q: char, u: string, i: nat)
    requires AttrFits(a) && KeyFits(k) && i < |Item(a)|
    ensures !(Pattern(k, q) <= (Item(a) + u)[i..])
  {
    var p, s := Pattern(k, q), Item(a) + u;
    var j, e := |Item(a)| - 1, |k| + 1;
    if s[i] != ' ' {
      Mismatch(p, s, i, 0);
    } else if i + e < j {
      assert i >= |a.name| + 2;
      assert s[i + e] == a.value[i + e - |a.name| - 2];
      Mismatch(p, s, i, e);
    } else {
      assert s[j] == a.quote;
      assert p[j - i] == if j - i == e then '=' else k[j - i - 1];
      Mismatch(p, s, i, j - i);
    }
  }

  lemma PatternAtItem(b: Attr, k: string, q: char, w: string)
    requires AttrFits(b) && KeyFits(k)
    ensures Pattern(k, q) <= " " + Item(b) + w <==> b.name == k && b.quote == q
  {
    var p, s := Pattern(k, q), " " + Item(b) + w;
    var n := if |k| < |b.name| then |k| else |b.name|;
    if b.name == k && b.quote == q {
      assert s == p + (b.value + [b.quote] + w);
    }
    if p <= s {
      assert p[n + 1] == s[n + 1];
      assert |k| == |b.name|;
      forall i | 0 <= i < n ensures k[i] == b.name[i] { assert p[i + 1] == s[i + 1]; }
      assert p[n + 2] == s[n + 2];
    }
  }

  predicate Has(l: seq<Attr>, k: string, q: char) {
    exists i :: 0 <= i < |l| && l[i].name == k && l[i].quote == q
  }

  lemma SuffixBehind(a: string, b: string, i: nat)
    requires |a| <= i <= |a + b|
    ensures (a + b)[i..] == b[i - |a|..]
  {}

  lemma SeparatorHidesPattern(b: Attr, k: string, q: char, w: string)
    requires AttrFits(b) && KeyFits(k) && !(b.name == k && b.quote == q)
    ensures NoneStarts(Pattern(k, q), " " + Item(b) + w, 1)
  {
    PatternAtItem(b, k, q, w);
    assert (" " + Item(b) + w)[0..] == " " + Item(b) + w;
  }

  lemma NoneStartsThen(p: string, a: string, b: string, n: nat)
    requires n <= |b| && NoneStarts(p, a + b, |a|) && NoneStarts(p, b, n)
    ensures NoneStarts(p, a + b, |a| + n)
  {
    forall i | 0 <= i < |a| + n ensures !(p <= (a + b)[i..]) {
      if i >= |a| { SuffixBehind(a, b, i); }
    }
  }

  /** What follows the first item of a list in its text. */
  function BehindFirst(l: seq<Attr>, u: string): string
    requires l != []
  {
    if |l| == 1 then u else " " + (Render(l[1..]) + u)
  }

  lemma SplitFirst(l: seq<Attr>, u: string)
    requires l != []
    ensures Render(l) + u == Item(l[0]) + BehindFirst(l, u)
  {
    if |l| > 1 { RegroupBehind(Item(l[0]), Render(l[1..]), u); }
  }

  lemma RegroupBehind(x: string, y: string, u: string)
    ensures x + " " + y + u == x + (" " + (y + u))
  {}

  /** The pattern does not start inside a list whose attributes behind the first lack it. */
  lemma {:induction false} ListHidesPattern(l: seq<Attr>, k: string, q: char, u: string)
    requires l != [] && (forall i :: 0 <= i < |l| ==> AttrFits(l[i])) && KeyFits(k)
    requires !Has(l[1..], k, q)
    ensures NoneStarts(Pattern(k, q), Render(l) + u, |Render(l)|)
  {
    var p, w := Pattern(k, q), BehindFirst(l, u);
    SplitFirst(l, u);
    assert NoneStarts(p, Item(l[0]) + w, |Item(l[0])|) by {
      forall i | 0 <= i < |Item(l[0])| ensures !(p <= (Item(l[0]) + w)[i..]) { ItemHidesPattern(l[0], k, q, w, i); }
    }
    if |l| > 1 {
      var t := Render(l[1..]) + u;
      HasTail(l[1..], k, q);
      ListHidesPattern(l[1..], k, q, u);
      SplitFirst(l[1..], u);
      assert l[1..][0] == l[1];
      SeparatorHidesPattern(l[1], k, q, BehindFirst(l[1..], u));
      assert " " + Item(l[1]) + BehindFirst(l[1..], u) == " " + t;
      NoneStartsThen(p, " ", t, |Render(l[1..])|);
      NoneStartsThen(p, Item(l[0]), w, 1 + |Render(l[1..])|);
    }
  }

  lemma HasTail(l: seq<Attr>, k: string, q: char)
    requires l != [] && !Has(l, k, q)
    ensures !Has(l[1..], k, q)
  {
    forall i | 0 <= i < |l[1..]| ensures !(l[1..][i].name == k && l[1..][i].quote == q) {
      assert l[1..][i] == l[i + 1];
    }
  }

  // ---------------------------------------------------------------- splitting a list

  /** The attribute text in front of and behind one attribute of a list. */
  function Ahead(pre: seq<Attr>): string {
    if pre == [] then "" else Render(pre)
  }

  function Gap(pre: seq<Attr>): string {
    if pre == [] then "" else " "
  }

  function Rear(post: seq<Attr>): string {
    if post == [] then "" else " " + Render(post)
  }

  lemma {:induction false} RenderConcat(a: seq<Attr>, b: seq<Attr>)
    requires a != [] && b != []
    ensures Render(a + b) == Render(a) + " " + Render(b)
  {
    if |a| == 1 {
      assert (a + b)[1..] == b;
    } else {
      assert (a + b)[1..] == a[1..] + b;
      RenderConcat(a[1..], b);
      Regroup(Item(a[0]), Render(a[1..]), Render(b));
    }
  }

  lemma Regroup(x: string, y: string, z: string)
    ensures x + " " + (y + " " + z) == x + " " + y + " " + z
  {}

  lemma {:induction false} NoneStartsNone(p: string, s: string)
    requires p != "" && NoneStarts(p, s, |s|)
    ensures StrStr(s, p) == None
  {
    assert s[0..] == s;
    if s != "" {
      assert !(p <= s[0..]);
      forall i | 0 <= i < |s[1..]| ensures !(p <= s[1..][i..]) { assert s[1..][i..] == s[i + 1..]; }
      NoneStartsNone(p, s[1..]);
    }
  }

  /** A missing attribute is not found. */
  lemma FindMissing(l: seq<Attr>, k: string, q: char)
    requires l != [] && ListFits(l) && KeyFits(k) && !Has(l, k, q)
    ensures FindQuoted(Render(l), k, q) == None
  {
    var s, p := Render(l), Pattern(k, q);
    HasTail(l, k, q);
    ListHidesPattern(l, k, q, "");
    assert s + "" == s;
    NoneStartsNone(p, s);
    FirstIsOther(l, k, q);
  }

  lemma ConsPrefix(p: string, t: string)
    ensures " " + p <= " " + t <==> p <= t
  {
    assert (" " + t)[1..] == t && (" " + p)[1..] == p;
    if " " + p <= " " + t {
      forall i | 0 <= i < |p| ensures p[i] == t[i] { assert (" " + p)[i + 1] == (" " + t)[i + 1]; }
    }
  }

  lemma PatternCons(k: string, q: char, x: string, w: string)
    ensures Pattern(k, q) == " " + (k + "=" + [q])
    ensures " " + x + w == " " + (x + w)
  {}

  lemma FirstIsOther(l: seq<Attr>, k: string, q: char)
    requires l != [] && ListFits(l) && KeyFits(k)
    ensures k + "=" + [q] <= Render(l) <==> l[0].name == k && l[0].quote == q
  {
    var w := BehindFirst(l, "");
    SplitFirst(l, "");
    assert Render(l) + "" == Render(l);
    PatternAtItem(l[0], k, q, w);
    PatternCons(k, q, Item(l[0]), w);
    ConsPrefix(k + "=" + [q], Render(l));
  }

  /** An attribute other than the first is found by the pattern with its leading space. */
  lemma FindLater(pre: seq<Attr>, a: Attr, b: string)
    requires pre != [] && AttrFits(a) && (forall i :: 0 <= i < |pre| ==> AttrFits(pre[i]) && pre[i].name != a.name)
    ensures StrStr(Render(pre) + Pattern(a.name, a.quote) + b, Pattern(a.name, a.quote)) == Some(|Render(pre)|)
  {
    var p := Pattern(a.name, a.quote);
    assert !Has(pre[1..], a.name, a.quote);
    ListHidesPattern(pre, a.name, a.quote, p + b);
    assert Render(pre) + (p + b) == Render(pre) + p + b;
    StrStrFirst(Render(pre), p, b);
  }

  /** What a list says about the attributes around one of its attributes. */
  lemma ListParts(pre: seq<Attr>, a: Attr, post: seq<Attr>)
    requires ListFits(pre + [a] + post)
    ensures AttrFits(a)
    ensures forall i :: 0 <= i < |pre| ==> AttrFits(pre[i]) && pre[i].name != a.name
    ensures forall i :: 0 <= i < |post| ==> AttrFits(post[i]) && post[i].name != a.name
  {
    var l, n := pre + [a] + post, |pre|;
    assert l[n] == a && AttrFits(l[n]);
    forall i | 0 <= i < |pre| ensures AttrFits(pre[i]) && pre[i].name != a.name {
      assert pre[i] == l[i] && AttrFits(l[i]) && l[i].name != l[n].name;
    }
    forall i | 0 <= i < |post| ensures AttrFits(post[i]) && post[i].name != a.name {
      assert post[i] == l[n + 1 + i] && AttrFits(l[n + 1 + i]) && l[n].name != l[n + 1 + i].name;
    }
  }

  lemma HasOnly(pre: seq<Attr>, a: Attr, post: seq<Attr>, q: char)
    requires ListFits(pre + [a] + post) && q != a.quote
    ensures !Has(pre + [a] + post, a.name, q)
  {
    ListParts(pre, a, post);
  }

  /** The first attribute is found at the front. */
  lemma FindFirst(a: Attr, post: seq<Attr>)
    requires ListFits([a] + post)
    ensures FindQuoted(Render([a] + post), a.name, a.quote) == Some((0, |a.name| + 2))
  {
    var l := [a] + post;
    assert l == [] + [a] + post && l[1..] == post;
    ListParts([], a, post);
    ListHidesPattern(l, a.name, a.quote, "");
    assert Render(l) + "" == Render(l);
    NoneStartsNone(Pattern(a.name, a.quote), Render(l));
    FirstIsOther(l, a.name, a.quote);
  }

  lemma FoundAt(s: string, k: string, q: char, i: nat)
    requires StrStr(s, Pattern(k, q)) == Some(i)
    ensures FindQuoted(s, k, q) == Some((i, i + |k| + 3))
  {
    hide StrStr;
  }

  lemma LaterText(pre: seq<Attr>, a: Attr, post: seq<Attr>)
    requires pre != []
    ensures Render(pre + [a] + post)
         == Render(pre) + Pattern(a.name, a.quote) + (a.value + [a.quote] + Rear(post))
  {
    hide Render, Rear, Item, Pattern;
    RenderSplit(pre, a, post);
    RegroupItem(Render(pre), a, Rear(post));
  }

  /** An attribute is found where it stands. */
  lemma FindPresent(pre: seq<Attr>, a: Attr, post: seq<Attr>)
    requires ListFits(pre + [a] + post)
    ensures FindQuoted(Render(pre + [a] + post), a.name, a.quote) == Some((|Ahead(pre)|, Start(pre, a)))
  {
    hide AttrFits, Has, Render, Item, StrStr, FindQuoted, Pattern;
    ListParts(pre, a, post);
    if pre == [] {
      assert pre + [a] + post == [a] + post;
      FindFirst(a, post);
    } else {
      FindLater(pre, a, a.value + [a.quote] + Rear(post));
      LaterText(pre, a, post);
      FoundAt(Render(pre + [a] + post), a.name, a.quote, |Render(pre)|);
    }
  }

  /** Where the value of an attribute starts. */
  function Start(pre: seq<Attr>, a: Attr): nat {
    |Ahead(pre)| + |Gap(pre)| + |a.name| + 2
  }

  lemma RegroupItem(x: string, a: Attr, w: string)
    ensures x + " " + Item(a) + w == x + Pattern(a.name, a.quote) + (a.value + [a.quote] + w)
  {}

  lemma RenderSplit(pre: seq<Attr>, a: Attr, post: seq<Attr>)
    ensures Render(pre + [a] + post)
         == Ahead(pre) + Gap(pre) + Item(a) + Rear(post)
  {
    hide Item, Render;
    var tail := [a] + post;
    assert pre + [a] + post == pre + tail;
    RenderFirst(a, post);
    if pre != [] {
      RenderConcat(pre, tail);
      RegroupItems(Render(pre), Item(a), Rear(post));
    } else {
      assert pre + tail == tail;
      assert "" + "" + Item(a) == Item(a);
    }
  }

  lemma RenderFirst(a: Attr, post: seq<Attr>)
    ensures Render([a] + post) == Item(a) + Rear(post)
  {
    hide Item;
    assert ([a] + post)[1..] == post;
    if post != [] { RegroupRear(Item(a), Render(post)); }
  }

  lemma RegroupItems(x: string, y: string, z: string)
    ensures x + " " + (y + z) == x + " " + y + z
  {}

  // ---------------------------------------------------------------- the laws

  lemma {:induction false} LookupMissing(l: seq<Attr>, k: string)
    requires Lookup(l, k).None?
    ensures forall i :: 0 <= i < |l| ==> l[i].name != k
  {
    if l != [] {
      LookupMissing(l[1..], k);
      forall i | 0 <= i < |l| ensures l[i].name != k { if i > 0 { assert l[i] == l[1..][i - 1]; } }
    }
  }

  lemma {:induction false} LookupSplits(l: seq<Attr>, k: string) returns (pre: seq<Attr>, a: Attr, post: seq<Attr>)
    requires Lookup(l, k).Some?
    ensures l == pre + [a] + post && a.name == k && Lookup(l, k) == Some(a.value)
  {
    if l[0].name == k {
      pre, a, post := [], l[0], l[1..];
    } else {
      pre, a, post := LookupSplits(l[1..], k);
      assert l == [l[0]] + l[1..] == [l[0]] + pre + [a] + post;
      pre := [l[0]] + pre;
    }
  }

  lemma LocateMissing(l: seq<Attr>, k: string)
    requires l != [] && ListFits(l) && KeyFits(k) && forall i :: 0 <= i < |l| ==> l[i].name != k
    ensures Locate(Render(l), k) == Done(None)
  {
    FindMissing(l, k, '\'');
    FindMissing(l, k, '\"');
  }

  predicate Located(s: string, x: string, a: Attr, w: string) {
    match Locate(s, a.name)
    case Done(Some((front, start, end))) => s[..front] == x && s[start..end] == a.value && s[end + 1..] == w
    case _ => false
  }

  lemma EndOfValue(s: string, front: nat, start: nat, v: string, q: char, w: string)
    requires front <= start <= |s| && s[start..] == v + [q] + w && q !in v
    ensures ValueEnd(s, front, start, q) == Done(Some((front, start, start + |v|)))
  {
    hide StrChr;
    SplitAt(v, q, w);
  }

  lemma LocateBy(s: string, k: string, q: char, front: nat, start: nat)
    requires front <= start <= |s| && (q == '\'' || q == '\"') && FindQuoted(s, k, q) == Some((front, start))
    requires q == '\"' ==> FindQuoted(s, k, '\'') == None
    ensures Locate(s, k) == ValueEnd(s, front, start, q)
  {
    hide FindQuoted, ValueEnd;
  }

  lemma LocateAt(s: string, x: string, sp: string, a: Attr, w: string)
    requires AttrFits(a) && s == x + sp + Item(a) + w
    requires FindQuoted(s, a.name, a.quote) == Some((|x|, |x| + |sp| + |a.name| + 2))
    requires a.quote == '\"' ==> FindQuoted(s, a.name, '\'') == None
    ensures Located(s, x, a, w)
  {
    hide FindQuoted, Locate, ValueEnd, KeyFits, Item;
    var st := |x| + |sp| + |a.name| + 2;
    SplitValue(x, sp, a, w);
    EndOfValue(s, |x|, st, a.value, a.quote, w);
    LocateBy(s, a.name, a.quote, |x|, st);
  }

  lemma LocatePresent(pre: seq<Attr>, a: Attr, post: seq<Attr>)
    requires ListFits(pre + [a] + post)
    ensures Located(Render(pre + [a] + post), Ahead(pre), a, Rear(post))
  {
    hide FindQuoted, Located, Render, KeyFits, Ahead, Gap, Rear, Has, Item;
    var l := pre + [a] + post;
    ListParts(pre, a, post);
    FindPresent(pre, a, post);
    RenderSplit(pre, a, post);
    if a.quote == '\"' {
      HasOnly(pre, a, post, '\'');
      FindMissing(l, a.name, '\'');
    }
    LocateAt(Render(l), Ahead(pre), Gap(pre), a, Rear(post));
  }

  lemma SplitValue(x: string, sp: string, a: Attr, w: string)
    ensures var (s, st) := (x + sp + Item(a) + w, |x| + |sp| + |a.name| + 2);
      && s[..|x|] == x
      && s[st..] == a.value + [a.quote] + w
      && s[st..st + |a.value|] == a.value
      && s[st + |a.value| + 1..] == w
  {}

  lemma GetPresent(pre: seq<Attr>, a: Attr, post: seq<Attr>)
    requires ListFits(pre + [a] + post)
    ensures GetAttribute(Some(Render(pre + [a] + post)), a.name) == Done(Some(a.value))
  {
    LocatePresent(pre, a, post);
  }

  /** xml_get_attribute reads the value of the attribute in the list, or nothing. */
  lemma GetIsLookup(l: seq<Attr>, k: string)
    requires ListFits(l) && KeyFits(k)
    ensures GetAttribute(if l == [] then None else Some(Render(l)), k) == Done(Lookup(l, k))
  {
    if Lookup(l, k).Some? {
      var pre, a, post := LookupSplits(l, k);
      GetPresent(pre, a, post);
    } else if l != [] {
      LookupMissing(l, k);
      LocateMissing(l, k);
    }
  }

  function New(k: string, v: string): Attr {
    Attr(k, v, if '\"' in v then '\'' else '\"')
  }

  lemma NewFits(k: string, v: string)
    requires KeyFits(k) && ValueFits(v)
    ensures AttrFits(New(k, v)) && Item(New(k, v)) == Written(k, v)
  {}

  lemma {:induction false} UpdateMissing(l: seq<Attr>, k: string, v: string)
    requires forall i :: 0 <= i < |l| ==> l[i].name != k
    ensures Update(l, k, v) == l + [New(k, v)]
  {
    if l != [] {
      UpdateMissing(l[1..], k, v);
      assert l + [New(k, v)] == [l[0]] + (l[1..] + [New(k, v)]);
    }
  }

  lemma {:induction false} UpdatePresent(pre: seq<Attr>, a: Attr, post: seq<Attr>, v: string)
    requires forall i :: 0 <= i < |pre| ==> pre[i].name != a.name
    ensures Update(pre + [a] + post, a.name, v) == pre + [New(a.name, v)] + post
  {
    var l, b := pre + [a] + post, New(a.name, v);
    if pre == [] {
      assert l[1..] == post;
      assert pre + [b] + post == [b] + post;
    } else {
      assert l[0] == pre[0] && l[1..] == pre[1..] + [a] + post;
      UpdatePresent(pre[1..], a, post, v);
      assert pre + [b] + post == [pre[0]] + (pre[1..] + [b] + post);
    }
  }

  lemma RenderEnds(l: seq<Attr>)
    requires l != [] && forall i :: 0 <= i < |l| ==> AttrFits(l[i])
    ensures Render(l) != "" && Render(l)[0] != ' ' && Render(l)[|Render(l)| - 1] != ' '
  {
    if |l| > 1 { RenderEnds(l[1..]); }
  }

  /** xml_set_attribute turns the attribute text of a list into that of the updated list. */
  lemma SetIsUpdate(l: seq<Attr>, k: string, v: string)
    requires ListFits(l) && KeyFits(k) && ValueFits(v)
    ensures SetAttrText(if l == [] then None else Some(Render(l)), k, v) == Done(Render(Update(l, k, v)))
    ensures ListFits(Update(l, k, v)) && Update(l, k, v) != []
  {
    if Lookup(l, k).Some? {
      hide SetAttrText, ListFits, Update;
      var pre, a, post := LookupSplits(l, k);
      SetPresent(pre, a, post, v);
    } else {
      hide Locate, Written;
      NewFits(k, v);
      LookupMissing(l, k);
      UpdateMissing(l, k, v);
      if l != [] {
        LocateMissing(l, k);
        RenderConcat(l, [New(k, v)]);
      }
    }
  }

  lemma UpdateFits(pre: seq<Attr>, a: Attr, post: seq<Attr>, b: Attr)
    requires ListFits(pre + [a] + post) && AttrFits(b) && b.name == a.name
    ensures ListFits(pre + [b] + post)
  {
    var l, m := pre + [a] + post, pre + [b] + post;
    ListParts(pre, a, post);
    forall i, j | 0 <= i < j < |m| ensures m[i].name != m[j].name {
      assert m[i].name == l[i].name && m[j].name == l[j].name && l[i].name != l[j].name;
    }
  }

  lemma StripAround(pre: seq<Attr>, post: seq<Attr>)
    requires (forall i :: 0 <= i < |pre| ==> AttrFits(pre[i])) && (forall i :: 0 <= i < |post| ==> AttrFits(post[i]))
    ensures StrStrip(Ahead(pre)) == if pre == [] then None else Some(Render(pre))
    ensures StrStrip(Rear(post)) == if post == [] then None else Some(Render(post))
  {
    if pre != [] { RenderEnds(pre); StripExact(Render(pre)); }
    if post != [] { RenderEnds(post); StripExact(Render(post)); }
  }

  lemma AssembleAround(pre: seq<Attr>, post: seq<Attr>, item: string)
    ensures Assemble(if pre == [] then None else Some(Render(pre)), item,
                     if post == [] then None else Some(Render(post)))
         == Ahead(pre) + Gap(pre) + item + Rear(post)
  {
    if pre == [] { assert "" + "" + item == item; }
    if post != [] { RegroupRear(Ahead(pre) + Gap(pre) + item, Render(post)); }
  }

  lemma RegroupRear(x: string, y: string)
    ensures x + (" " + y) == x + " " + y
  {}

  lemma SetPresent(pre: seq<Attr>, a: Attr, post: seq<Attr>, v: string)
    requires ListFits(pre + [a] + post) && ValueFits(v)
    ensures var l := pre + [a] + post;
      && SetAttrText(Some(Render(l)), a.name, v) == Done(Render(Update(l, a.name, v)))
      && ListFits(Update(l, a.name, v)) && Update(l, a.name, v) != []
  {
    ListParts(pre, a, post);
    NewFits(a.name, v);
    LocatePresent(pre, a, post);
    UpdatePresent(pre, a, post, v);
    UpdateFits(pre, a, post, New(a.name, v));
    StripAround(pre, post);
    RenderSplit(pre, New(a.name, v), post);
    AssembleAround(pre, post, Written(a.name, v));
  }

  lemma {:induction false} LookupUpdate(l: seq<Attr>, k: string, v: string, j: string)
    ensures Lookup(Update(l, k, v), j) == if j == k then Some(v) else Lookup(l, j)
  {
    if l != [] && l[0].name != k {
      LookupUpdate(l[1..], k, v, j);
      assert Update(l, k, v)[1..] == Update(l[1..], k, v);
    } else if l != [] {
      assert Update(l, k, v)[1..] == l[1..];
    }
  }

  /** After a set, a get of the same name gives the value set and a get of any other name gives
      what it gave before. */
  lemma GetAfterSet(l: seq<Attr>, k: string, v: string, j: string)
    requires ListFits(l) && KeyFits(k) && ValueFits(v) && KeyFits(j)
    ensures var attr := if l == [] then None else Some(Render(l));
      && SetAttrText(attr, k, v).Done?
      && GetAttribute(Some(SetAttrText(attr, k, v).value), j)
         == (if j == k then Done(Some(v)) else GetAttribute(attr, j))
  {
    SetIsUpdate(l, k, v);
    GetIsLookup(Update(l, k, v), j);
    GetIsLookup(l, j);
    LookupUpdate(l, k, v, j);
  }

  /** The uri of a node is the value of its namespace declaration: true of a new element, and kept
      by every set. */
  lemma UriFollows(prefix: Option<string>, uri: Option<string>, l: seq<Attr>, k: string, v: string)
    requires uri == Lookup(l, Declaration(prefix))
    ensures SetUri(prefix, uri, k, v) == Lookup(Update(l, k, v), Declaration(prefix))
  {
    LookupUpdate(l, k, v, Declaration(prefix));
  }

  lemma NewElementUri(prefix: Option<string>, uri: Option<string>)
    requires uri.Some? ==> '\"' !in uri.value
    ensures var l := if uri.Some? then [Attr(Declaration(prefix), uri.value, '\"')] else [];
      && NamespaceAttr(prefix, uri) == (if l == [] then None else Some(Render(l)))
      && uri == Lookup(l, Declaration(prefix))
  {
    if uri.Some? {
      var l := [Attr(Declaration(prefix), uri.value, '\"')];
      assert Lookup(l, Declaration(prefix)) == uri;
      assert Render(l) == Declaration(prefix) + "=\"" + uri.value + "\"";
      assert "xmlns" + "=\"" == "xmlns=\"";
    }
  }

  // ---------------------------------------------------------------- edited elements in the round trip

  /** The declaration of a prefix stands at the front of the attribute: as its name, or as the front
      of a longer name. */
  predicate Declares(a: Attr, d: string) {
    d <= Item(a)
  }

  /** The value of the first attribute that is taken for the declaration. */
  function FirstDeclared(l: seq<Attr>, d: string): Option<string> {
    if l == [] then None else if Declares(l[0], d) then Some(l[0].value) else FirstDeclared(l[1..], d)
  }

  /** No value in front of that attribute shows the declaration behind a space. */
  predicate Unshown(l: seq<Attr>, d: string) {
    l == [] || Declares(l[0], d) || (StrStr(Item(l[0]), " " + d).None? && Unshown(l[1..], d))
  }

  lemma {:induction false} NoneStartsOf(p: string, s: string)
    requires p != "" && StrStr(s, p).None?
    ensures NoneStarts(p, s, |s|)
  {
    if s != "" {
      NoneStartsOf(p, s[1..]);
      forall i | 0 <= i < |s| ensures !(p <= s[i..]) {
        if i > 0 { assert s[i..] == s[1..][i - 1..]; } else { assert s[0..] == s; }
      }
    }
  }

  /** What starts inside a text and holds no space behind its first character cannot go on in a text
      that starts with a space. */
  lemma EndsBefore(d: string, s: string, w: string, i: nat)
    requires ' ' !in d && i < |s| && (w == "" || w[0] == ' ') && " " + d <= (s + w)[i..]
    ensures " " + d <= s[i..]
  {
    assert (s + w)[i..] == s[i..] + w;
    PrefixInside(" " + d, s[i..], w);
  }

  lemma PrefixInside(p: string, s: string, w: string)
    requires p <= s + w && (w == "" || w[0] == ' ') && s != "" && (p == "" || ' ' !in p[1..])
    ensures p <= s
  {
    assert forall k :: 1 <= k < |p| ==> p[k] == p[1..][k - 1] && p[k] != ' ';
    assert w != "" ==> (s + w)[|s|] == ' ';
  }

  lemma NotInItem(a: Attr, d: string, w: string)
    requires ' ' !in d && (w == "" || w[0] == ' ') && StrStr(Item(a), " " + d).None?
    ensures NoneStarts(" " + d, Item(a) + w, |Item(a)|)
  {
    NoneStartsOf(" " + d, Item(a));
    forall i | 0 <= i < |Item(a)| ensures !(" " + d <= (Item(a) + w)[i..]) {
      if " " + d <= (Item(a) + w)[i..] { EndsBefore(d, Item(a), w, i); }
    }
  }

  lemma DeclaresAt(a: Attr, d: string, w: string)
    requires ' ' !in d && (w == "" || w[0] == ' ')
    ensures " " + d <= " " + (Item(a) + w) <==> Declares(a, d)
  {
    ConsPrefix(d, Item(a) + w);
    if d <= Item(a) + w { PrefixInside(d, Item(a), w); }
  }

  /** The text that the search goes through: each attribute with a space in front. */
  lemma SpacedFirst(l: seq<Attr>)
    requires l != []
    ensures Rear(l) == " " + (Item(l[0]) + Rear(l[1..]))
    ensures Rear(l[1..]) == "" || Rear(l[1..])[0] == ' '
  {
    hide Item;
    if |l| > 1 { RegroupRear(Item(l[0]), Render(l[1..])); }
  }

  lemma ItemParts(a: Attr, w: string)
    ensures var (s, n, v) := (" " + (Item(a) + w), " " + a.name, a.value + [a.quote] + w);
      && s == n + ['='] + ([a.quote] + v) && s == (n + "=") + [a.quote] + v
      && s[|n| + 2..] == v && At(s, |n| + 1) == a.quote
  {}

  lemma ValueOfItem(a: Attr, w: string)
    requires AttrFits(a)
    ensures QuotedValue(" " + (Item(a) + w)) == Done(a.value)
  {
    hide StrChr, QuotedValue, Item;
    var s, n := " " + (Item(a) + w), " " + a.name;
    ItemParts(a, w);
    StrChrIn(n, '=', [a.quote] + (a.value + [a.quote] + w));
    StrChrIn(n + "=", a.quote, a.value + [a.quote] + w);
    QuotedBy(s, a.quote, |n| + 1);
    SplitAt(a.value, a.quote, w);
  }

  lemma {:induction false} StrStrBehind(p: string, a: string, b: string)
    requires p != "" && NoneStarts(p, a + b, |a|)
    ensures StrStr(a + b, p) == match StrStr(b, p) case Some(i) => Some(|a| + i) case None => None
  {
    if a == "" {
      assert a + b == b;
    } else {
      assert (a + b)[0..] == a + b && (a + b)[1..] == a[1..] + b;
      forall i | 0 <= i < |a[1..]| ensures !(p <= (a[1..] + b)[i..]) {
        assert (a + b)[1..][i..] == (a + b)[i + 1..];
      }
      StrStrBehind(p, a[1..], b);
    }
  }

  lemma DeclaredHere(l: seq<Attr>, d: string)
    requires l != [] && AttrFits(l[0]) && ' ' !in d && Declares(l[0], d)
    ensures TagUri(Rear(l), " " + d) == Done(Some(l[0].value))
  {
    hide AttrFits, QuotedValue, Declares, Rear, Item;
    SpacedFirst(l);
    DeclaresAt(l[0], d, Rear(l[1..]));
    ValueOfItem(l[0], Rear(l[1..]));
    assert Rear(l)[0..] == Rear(l);
  }

  lemma DeclaredLater(l: seq<Attr>, d: string)
    requires l != [] && ' ' !in d && !Declares(l[0], d) && StrStr(Item(l[0]), " " + d).None?
    ensures TagUri(Rear(l), " " + d) == TagUri(Rear(l[1..]), " " + d)
  {
    hide TagUri, StrStr, NoneStarts, Declares, Rear, Item;
    var a, w := l[0], Rear(l[1..]);
    SpacedFirst(l);
    DeclaresAt(a, d, w);
    NotInItem(a, d, w);
    UriFurther(" " + d, " " + Item(a), w, Item(a));
    SpaceFirst(Item(a), w);
  }

  lemma SpaceFirst(x: string, y: string)
    ensures " " + x + y == " " + (x + y)
  {}

  /** The uri that is read from the attributes is the value of the first one that is taken for the
      declaration. */
  lemma {:induction false} UriOfList(l: seq<Attr>, d: string)
    requires (forall i :: 0 <= i < |l| ==> AttrFits(l[i])) && ' ' !in d && Unshown(l, d)
    ensures TagUri(Rear(l), " " + d) == Done(FirstDeclared(l, d))
  {
    if l != [] {
      hide AttrFits, TagUri, StrStr, Declares, Rear, Item;
      if Declares(l[0], d) {
        DeclaredHere(l, d);
      } else {
        UriOfList(l[1..], d);
        DeclaredLater(l, d);
      }
    }
  }

  lemma UriFurther(p: string, a: string, w: string, item: string)
    requires a == " " + item && p != "" && !(p <= " " + (item + w)) && NoneStarts(p, item + w, |item|)
    ensures TagUri(a + w, p) == TagUri(w, p)
  {
    hide StrStr, QuotedValue;
    assert a + w == " " + (item + w);
    forall i | 0 <= i < |a| ensures !(p <= (a + w)[i..]) {
      if i > 0 { assert (a + w)[i..] == (item + w)[i - 1..]; } else { assert (a + w)[0..] == a + w; }
    }
    StrStrBehind(p, a, w);
    match StrStr(w, p)
    case Some(i) =>
      assert (a + w)[|a| + i..] == w[i..];
    case None =>
  }

  lemma {:induction false} FirstIsLookup(l: seq<Attr>, d: string)
    requires forall i :: 0 <= i < |l| ==> (Declares(l[i], d) <==> l[i].name == d)
    ensures FirstDeclared(l, d) == Lookup(l, d)
  {
    if l != [] {
      forall i | 0 <= i < |l[1..]| ensures Declares(l[1..][i], d) <==> l[1..][i].name == d {
        assert l[1..][i] == l[i + 1];
      }
      FirstIsLookup(l[1..], d);
    }
  }

  /** Attributes whose names and values fit into a tag. */
  predicate Tagged(l: seq<Attr>) {
    forall i :: 0 <= i < |l| ==> Lacks(l[i].name, "<>") && Lacks(l[i].value, "<>")
  }

  lemma {:induction false} RenderAttributes(l: seq<Attr>)
    requires l != [] && (forall i :: 0 <= i < |l| ==> AttrFits(l[i])) && Tagged(l)
    ensures Attributes(Render(l))
  {
    var a := l[0];
    assert Lacks(Item(a), "<>") && Item(a)[0] != ' ' && Item(a)[|Item(a)| - 1] == a.quote;
    if |l| > 1 {
      forall i | 0 <= i < |l[1..]| ensures AttrFits(l[1..][i]) && Lacks(l[1..][i].name, "<>")
        && Lacks(l[1..][i].value, "<>") {
        assert l[1..][i] == l[i + 1];
      }
      RenderAttributes(l[1..]);
    }
  }

  function AttrOf(l: seq<Attr>): Option<string> {
    if l == [] then None else Some(Render(l))
  }

  /** The tag of an element with any attributes comes back, with the uri of the first attribute that
      is taken for the declaration. */
  lemma ListTagRoundTrip(prefix: Option<string>, name: string, l: seq<Attr>)
    requires (prefix.Some? ==> Ordinary(prefix.value)) && Ordinary(name) && ListFits(l) && Tagged(l)
    requires Unshown(l, Declaration(prefix))
    ensures TagFits(prefix, name, AttrOf(l))
    ensures forall uri :: UriKept(prefix, uri, AttrOf(l)) <==> uri == FirstDeclared(l, Declaration(prefix))
    ensures ParseTag(TagBody(prefix, name, AttrOf(l)))
         == Done(Tag(prefix, name, FirstDeclared(l, Declaration(prefix)), AttrOf(l)))
  {
    hide ParseTag, TagBody, TagUri, Render, Ordinary, Attributes, Unshown;
    var d := Declaration(prefix);
    if l != [] { RenderAttributes(l); }
    assert ' ' !in d by { NoSpace(prefix); }
    UriOfList(l, d);
    assert AttrPart(AttrOf(l)) == Rear(l);
    TagRoundTrip(prefix, name, FirstDeclared(l, d), AttrOf(l));
  }

  lemma NoSpace(prefix: Option<string>)
    requires prefix.Some? ==> Ordinary(prefix.value)
    ensures ' ' !in Declaration(prefix)
  {}

  /** An element whose attribute was set comes back from its tag, with the uri that the set left. */
  lemma EditedTagRoundTrip(prefix: Option<string>, name: string, l: seq<Attr>, k: string, v: string)
    requires (prefix.Some? ==> Ordinary(prefix.value)) && Ordinary(name)
    requires ListFits(l) && KeyFits(k) && ValueFits(v)
    requires var (m, d) := (Update(l, k, v), Declaration(prefix));
      Tagged(m) && Unshown(m, d) && forall i :: 0 <= i < |m| ==> (Declares(m[i], d) <==> m[i].name == d)
    ensures var attr := SetAttrText(AttrOf(l), k, v);
      && attr.Done?
      && ParseTag(TagBody(prefix, name, Some(attr.value)))
         == Done(Tag(prefix, name, SetUri(prefix, Lookup(l, Declaration(prefix)), k, v), Some(attr.value)))
  {
    hide ParseTag, TagBody, SetAttrText, Render, Ordinary, Update, Unshown, Tagged, ListFits, KeyFits, Declaration;
    var m := Update(l, k, v);
    SetIsUpdate(l, k, v);
    ListTagRoundTrip(prefix, name, m);
    FirstIsLookup(m, Declaration(prefix));
    UriFollows(prefix, Lookup(l, Declaration(prefix)), l, k, v);
  }

  /** A longer name is taken for the declaration: an element with the prefix `p` and no uri comes back
      with the uri of the prefix `pq`. */
  lemma LongerNameTaken()
    ensures var l := [Attr("xmlns:pq", "v", '\"')];
      && Lookup(l, Declaration(Some("p"))) == None
      && ParseTag(TagBody(Some("p"), "n", AttrOf(l))) == Done(Tag(Some("p"), "n", Some("v"), AttrOf(l)))
  {
    hide ParseTag, TagBody, Render;
    var a := Attr("xmlns:pq", "v", '\"');
    assert Item(a) == "xmlns:pq=\"v\"" && Declaration(Some("p")) == "xmlns:p";
    assert Declares(a, "xmlns:p");
    assert Ordinary("p") && Ordinary("n") && AttrFits(a) && Tagged([a]);
    ListTagRoundTrip(Some("p"), "n", [a]);
  }
}
