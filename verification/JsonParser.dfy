/** The parser of cJSON.c as it runs: a position that moves through the text, and items that are
    linked into their list before they are filled. */
module JsonParser {
  import opened CText
  import opened JsonText
  import opened JsonTree
  import opened JsonList

  lemma Front(text: string, p: nat)
    requires p < |text| && NoNul(text)
    ensures text[p..] != "" && text[p..][0] == text[p] == At(text, p) != '\0' && text[p..][1..] == text[p + 1..]
    ensures Head(text[p..]) == text[p]
  {}

  lemma AtEnd(text: string, p: nat)
    requires p <= |text| && NoNul(text)
    ensures At(text, p) == Head(text[p..]) && (At(text, p) == '\0' <==> p == |text|)
  {}

  method SkipBlank(text: string, start: nat) returns (p: nat)
    requires start <= |text| && NoNul(text)
    ensures start <= p <= |text| && Skip(text[start..]) == text[p..]
  {
    p := start;
    while At(text, p) != '\0' && At(text, p) as int <= 32
      invariant start <= p <= |text| && Skip(text[start..]) == Skip(text[p..])
      decreases |text| - p
    {
      Front(text, p);
      p := p + 1;
    }
    if p < |text| {
      Front(text, p);
    }
  }

  // ---------------------------------------------------------------- numbers

  /** A digit loop, on the double. */
  method DigitLoop(text: string, start: nat, first: real, ghost k: nat) returns (p: nat, n: real, ghost m: nat)
    requires start <= |text| && NoNul(text) && first == k as real
    ensures start <= p <= |text| && n == m as real && Digits(text[start..], k) == (m, text[p..])
  {
    p, n, m := start, first, k;
    while IsDigit(At(text, p))
      invariant start <= p <= |text| && n == m as real && Digits(text[start..], k) == Digits(text[p..], m)
      decreases |text| - p
    {
      Front(text, p);
      n := n * 10.0 + DigitVal(text[p]) as real;
      m := 10 * m + DigitVal(text[p]);
      p := p + 1;
    }
    AtEnd(text, p);
  }

  /** The exponent's digits, on an integer. */
  method ExponentLoop(text: string, start: nat) returns (p: nat, k: nat)
    requires start <= |text| && NoNul(text)
    ensures start <= p <= |text| && Digits(text[start..], 0) == (k, text[p..])
  {
    p, k := start, 0;
    while IsDigit(At(text, p))
      invariant start <= p <= |text| && Digits(text[start..], 0) == Digits(text[p..], k)
      decreases |text| - p
    {
      Front(text, p);
      k := k * 10 + DigitVal(text[p]);
      p := p + 1;
    }
    AtEnd(text, p);
  }

  method Exponent(text: string, start: nat) returns (p: nat, e: int)
    requires start <= |text| && NoNul(text)
    ensures start <= p <= |text| && ParseExponent(text[start..]) == (e, text[p..])
  {
    p, e := start, 0;
    AtEnd(text, p);
    if At(text, p) == 'e' || At(text, p) == 'E' {
      Front(text, p);
      p := p + 1;
      var sign: int := 1;
      AtEnd(text, p);
      if At(text, p) == '+' {
        Front(text, p);
        p := p + 1;
      } else if At(text, p) == '-' {
        Front(text, p);
        sign, p := -1, p + 1;
      }
      var k;
      p, k := ExponentLoop(text, p);
      e := k * sign;
    }
  }

  /** `(int)` of a double: towards zero. */
  function Trunc(d: real): int {
    if d >= 0.0 then d.Floor else -((-d).Floor)
  }

  lemma Signed(sign: real, n: real, power: real)
    requires sign == 1.0 || sign == -1.0
    ensures sign * n * power == if sign == 1.0 then n * power else -(n * power)
  {}

  method MantissaLoops(text: string, start: nat) returns (p: nat, n: real, scale: int, ghost m: nat)
    requires start <= |text| && NoNul(text)
    ensures start <= p <= |text| && n == m as real && Mantissa(text[start..]) == (m, text[p..], scale)
  {
    p, n, scale, m := start, 0.0, 0, 0;
    AtEnd(text, p);
    if At(text, p) == '0' {
      Front(text, p);
      p := p + 1;
    }
    AtEnd(text, p);
    if '1' <= At(text, p) <= '9' {
      p, n, m := DigitLoop(text, p, n, m);
    }
    AtEnd(text, p);
    ghost var s3 := text[p..];
    assert At(s3, 1) == At(text, p + 1);
    if At(text, p) == '.' && IsDigit(At(text, p + 1)) {
      Front(text, p);
      p := p + 1;
      var q := p;
      p, n, m := DigitLoop(text, p, n, m);
      scale := -(p - q);
    }
  }

  method ParseNumberInto(item: Item, text: string, start: nat) returns (p: nat)
    requires start <= |text| && NoNul(text) && (Head(text[start..]) == '-' || IsDigit(Head(text[start..])))
    modifies item`kind, item`valueint, item`valuedouble
    ensures start <= p <= |text| && ParseNumber(text[start..]) == (item.valuedouble, text[p..])
    ensures item.valueint == Trunc(item.valuedouble) && item.kind == CJSON_NUMBER
  {
    hide Mantissa, ParseExponent, Pow10;
    p := start;
    AtEnd(text, p);
    var sign := 1.0;
    if At(text, p) == '-' {
      Front(text, p);
      sign, p := -1.0, p + 1;
    }
    var n, scale;
    ghost var m;
    ghost var s1 := text[p..];
    p, n, scale, m := MantissaLoops(text, p);
    ghost var s4 := text[p..];
    var e;
    p, e := Exponent(text, p);
    ghost var magnitude := m as real * Pow10(scale + e);
    Signed(sign, n, Pow10(scale + e));
    n := sign * n * Pow10(scale + e);
    item.valuedouble := n;
    item.valueint := Trunc(n);
    item.kind := CJSON_NUMBER;
    assert item.valuedouble == if sign == 1.0 then magnitude else -magnitude;
    assert s1 == if Head(text[start..]) == '-' then text[start..][1..] else text[start..];
    assert Mantissa(s1) == (m, s4, scale);
    assert ParseExponent(s4) == (e, text[p..]);
    assert ParseNumber(text[start..]).0 == item.valuedouble;
  }

  // ---------------------------------------------------------------- strings

  /** What an escape adds, with the pointer behind the backslash; the pointer ends up behind the escape. */
  method CopyEscape(text: string, start: nat) returns (p: nat, bytes: string)
    requires start < |text| && NoNul(text)
    ensures start < p <= |text| && UnescapeOne(text[start..]) == (bytes, text[p..])
  {
    hide UnicodeEscape;
    p := start;
    Front(text, p);
    match text[p] {
      case 'b' => bytes := [BS];
      case 'f' => bytes := [FF];
      case 'n' => bytes := "\n";
      case 'r' => bytes := "\r";
      case 't' => bytes := "\t";
      case 'u' =>
        var n;
        bytes, n := Unicode(text, p + 1);
        Clamp(text, p, n);
        p := p + n;
        if p >= |text| {
          p := |text| - 1;
        }
      case c => bytes := [c];
    }
    p := p + 1;
  }

  lemma Clamp(text: string, p: nat, n: nat)
    requires p < |text|
    ensures var q := if p + n >= |text| then |text| - 1 else p + n; Drop(text[p..], 1 + n) == text[q + 1..]
  {}

  /** The four or ten characters of a `\u` escape; it stands for no byte when it names no code point. */
  method Unicode(text: string, p: nat) returns (bytes: string, n: nat)
    requires p <= |text|
    ensures (bytes, n) == UnicodeEscape(text[p..])
  {
    bytes, n := "", 4;
    var uc := Hex4(text[p..]);
    if LowSurrogate(uc) || uc == 0 {
      return;
    }
    if HighSurrogate(uc) {
      assert At(text[p..], 4) == At(text, p + 4) && At(text[p..], 5) == At(text, p + 5);
      if At(text, p + 4) != '\\' || At(text, p + 5) != 'u' {
        return;
      }
      var lo := Hex4(Drop(text[p..], 6));
      n := 10;
      if !LowSurrogate(lo) {
        return;
      }
      uc := Combine(uc, lo);
    }
    bytes := EncodeUtf8(uc);
  }

  /** What an unescaped tail adds to what has been collected. */
  function Behind(out: string, rest: (string, string)): (string, string) {
    (out + rest.0, rest.1)
  }

  /** One turn of the copying loop: a character, or an escape. */
  method CopyChar(text: string, start: nat, collected: string) returns (p: nat, out: string)
    requires start < |text| && NoNul(text) && text[start] != '\"'
    ensures start < p <= |text| && Behind(collected, Unescape(text[start..])) == Behind(out, Unescape(text[p..]))
  {
    hide UnescapeOne, Unescape;
    p, out := start, collected;
    Front(text, p);
    UnescapeStep(text[p..]);
    if text[p] != '\\' {
      p := p + 1;
      Regroup(collected, [text[start]], Unescape(text[p..]).0);
      out := out + [text[start]];
    } else {
      p := p + 1;
      if p < |text| {
        var bytes;
        p, bytes := CopyEscape(text, p);
        Regroup(collected, bytes, Unescape(text[p..]).0);
        out := out + bytes;
      } else {
        NothingLeft(text, p);
      }
    }
  }

  lemma NothingLeft(text: string, p: nat)
    requires p <= |text| && (p == |text| || text[p] == '\"')
    ensures Unescape(text[p..]) == ("", text[p..])
  {}

  /** The string without its escapes. */
  method ParseStringInto(item: Item, text: string, start: nat) returns (end: Option<nat>, ep: nat)
    requires start <= |text| && NoNul(text)
    modifies item`kind, item`valuestring
    ensures match ParseString(text[start..])
      case Ok(x, r) => end.Some? && start < end.value <= |text| && text[end.value..] == r
                       && item.valuestring == Some(x) && item.kind == CJSON_STRING
      case Fail(at) => end.None? && ep == start && item.valuestring == old(item.valuestring)
                       && item.kind == old(item.kind)
  {
    hide Unescape;
    ep := start;
    AtEnd(text, start);
    if At(text, start) != '\"' {
      return None, ep;
    }
    Front(text, start);
    var p: nat, out := start + 1, "";
    ghost var whole := Unescape(text[p..]);
    assert "" + whole.0 == whole.0;
    AtEnd(text, p);
    while At(text, p) != '\"' && At(text, p) != '\0'
      invariant start < p <= |text| && Behind(out, Unescape(text[p..])) == whole
      decreases |text| - p
    {
      AtEnd(text, p);
      Front(text, p);
      p, out := CopyChar(text, p, out);
    }
    AtEnd(text, p);
    NothingLeft(text, p);
    assert out + "" == out;
    if At(text, p) == '\"' {
      Front(text, p);
      p := p + 1;
    }
    item.valuestring := Some(out);
    item.kind := CJSON_STRING;
    end := Some(p);
  }

  lemma Regroup(a: string, b: string, c: string)
    ensures a + (b + c) == (a + b) + c
  {}

  lemma UnescapeStep(s: string)
    requires s != "" && s[0] != '\"'
    ensures s[0] != '\\' ==> Unescape(s) == ([s[0]] + Unescape(s[1..]).0, Unescape(s[1..]).1)
    ensures s[0] == '\\' && |s| == 1 ==> Unescape(s) == ("", "")
    ensures s[0] == '\\' && |s| > 1 ==>
      var (c, t) := UnescapeOne(s[1..]); Unescape(s) == (c + Unescape(t).0, Unescape(t).1)
  {
    hide UnescapeOne;
  }

  // ---------------------------------------------------------------- what an item stands for

  /** The item, with its children, stands for the value. */
  ghost predicate Means(sh: Shape, v: Json)
    decreases v
  {
    var d := sh.data;
    match v
    case Null => d.kind == CJSON_NULL
    case False => d.kind == CJSON_FALSE
    case True => d.kind == CJSON_TRUE && d.valueint == 1
    case Num(x) => d.kind == CJSON_NUMBER && d.valuedouble == x && d.valueint == Trunc(x)
    case Str(s) => d.kind == CJSON_STRING && d.valuestring == Some(s)
    case Arr(items) => d.kind == CJSON_ARRAY && |sh.kids| == |items|
      && forall i: nat :: i < |items| ==> Means(sh.kids[i], items[i])
    case Obj(members) =>
      && d.kind == CJSON_OBJECT && |sh.kids| == |members|
      && forall i: nat ::
        i < |members| ==> sh.kids[i].data.name == Some(members[i].name) && Means(sh.kids[i], members[i].value)
  }

  ghost predicate AllMean(kids: seq<Shape>, items: seq<Json>) {
    |kids| == |items| && forall i: nat :: i < |items| ==> Means(kids[i], items[i])
  }

  ghost predicate AllBind(kids: seq<Shape>, members: seq<Member>) {
    |kids| == |members|
    && forall i: nat :: i < |members| ==> kids[i].data.name == Some(members[i].name) && Means(kids[i], members[i].value)
  }

  // ---------------------------------------------------------------- the rest of a list

  /** Behind an element: a comma and more elements, or the end of the array. */
  function ItemsAfter(t: string): Parsed<seq<Json>> {
    if Head(t) == ',' then ParseItems(t[1..])
    else if Head(t) == ']' then Ok([], t[1..])
    else Fail(t)
  }

  function Behold<T>(front: seq<T>, r: Parsed<seq<T>>): Parsed<seq<T>> {
    match r
    case Ok(vs, q) => Ok(front + vs, q)
    case Fail(at) => Fail(at)
  }

  lemma BeholdOne<T>(front: seq<T>, v: T, r: Parsed<seq<T>>)
    ensures Behold(front, Behold([v], r)) == Behold(front + [v], r)
  {
    if r.Ok? {
      assert front + ([v] + r.value) == (front + [v]) + r.value;
    }
  }

  lemma ItemsStep(s: string)
    ensures ParseItems(s) == match ParseValue(Skip(s)) case Fail(at) => Fail(at) case Ok(v, r) => Behold([v],
      ItemsAfter(Skip(r)))
  {
    hide ParseValue;
    var r := ParseValue(Skip(s));
    if r.Ok? && Head(Skip(r.rest)) == ']' {
      assert [r.value] + [] == [r.value];
    }
  }

  function MembersAfter(t: string): Parsed<seq<Member>> {
    if Head(t) == ',' then ParseMembers(t[1..])
    else if Head(t) == '}' then Ok([], t[1..])
    else Fail(t)
  }

  lemma MembersStep(s: string)
    ensures ParseMembers(s) == match ParseMember(s) case Fail(at) => Fail(at) case Ok(m, t) => Behold([m],
      MembersAfter(t))
  {
    hide ParseMember;
    var r := ParseMember(s);
    if r.Ok? && Head(r.rest) == '}' {
      assert [r.value] + [] == [r.value];
    }
  }

  // ---------------------------------------------------------------- linking first, filling later

  /** A filled item behind a list it was linked to before. */
  lemma LateAppend(u: View, w: View, cur: Shape, kid: Shape)
    requires Inside(u, cur) && Apart(cur) && Inside(w, kid) && Apart(kid) && Nodes(cur) !! Nodes(kid) && cur.kids != []
    requires var last := cur.kids[|cur.kids| - 1].node;
      && last in u && last in w && w[last] == u[last].(next := kid.node)
      && kid.node in w && w[kid.node].prev == last && w[kid.node].next == null
      && forall x :: x in Nodes(cur) && x in u && x != last ==> x in w && w[x] == u[x]
    ensures Inside(w, WithKids(cur, cur.kids + [kid])) && Apart(WithKids(cur, cur.kids + [kid]))
  {
    hide Inside, Apart, Nodes, NodesOf;
    GrownApart(cur, kid);
    var n := |cur.kids|;
    var last, kids := cur.kids[n - 1].node, cur.kids + [kid];
    RootIn(u, cur);
    OwnNode(cur);
    KidIn(u, cur, n - 1);
    HeadsDiffer(cur, n - 1, n - 1);
    HeadsDiffer(cur, 0, n - 1);
    KidIn(u, cur, 0);
    forall i: nat | i < |kids| ensures Chained(w, kids, i) && Inside(w, kids[i]) {
      if i < n {
        KidIn(u, cur, i);
        KidNodes(cur, i);
        HeadsDiffer(cur, i, n - 1);
        HeadsDiffer(cur, i, i);
        HeadsOutside(cur, i);
        LastOutside(cur, i);
        assert Chained(w, kids, i);
        Steady(u, w, cur.kids[i]);
      } else {
        assert Chained(w, kids, i);
      }
    }
    InsideBy(w, WithKids(cur, kids));
  }

  lemma LastOutside(cur: Shape, i: nat)
    requires Apart(cur) && i < |cur.kids|
    ensures cur.kids[|cur.kids| - 1].node !in NodesOf(cur.kids[i].kids)
    ensures NodesOf(cur.kids[i].kids) <= Nodes(cur)
  {
    HeadsOutside(cur, i);
    HeadsDiffer(cur, |cur.kids| - 1, |cur.kids| - 1);
    KidNodes(cur, i);
  }

  lemma InsideBy(w: View, sh: Shape)
    requires sh.node in w && w[sh.node].data == sh.data && w[sh.node].child == NodeAt(sh.kids, 0)
    requires forall i: nat :: i < |sh.kids| ==> Chained(w, sh.kids, i) && Inside(w, sh.kids[i])
    ensures Inside(w, sh)
  {}

  // ---------------------------------------------------------------- the recursive descent

  ghost predicate Filled(sh: Shape, item: Item, v: Json)
    reads Nodes(sh)
  {
    Laid(sh) && Apart(sh) && sh.node == item && Means(sh, v)
  }

  lemma FilledAlone(item: Item, v: Json)
    requires item.child == null && Means(Shape(item, DataOf(item), []), v)
    ensures Filled(Shape(item, DataOf(item), []), item, v) && Nodes(Shape(item, DataOf(item), [])) == {item}
  {}

  /** Fills a blank item from the text. */
  method ParseValueInto(item: Item, text: string, start: nat) returns (end: Option<nat>, ep: nat, ghost sh: Shape)
    requires start <= |text| && NoNul(text) && item.child == null && item.valuestring == None
    modifies item`child, item`kind, item`valuestring, item`valueint, item`valuedouble
    ensures match ParseValue(text[start..])
      case Ok(v, r) => end.Some? && start < end.value <= |text| && text[end.value..] == r
                       && Filled(sh, item, v) && sh.data.name == item.name
      case Fail(at) => end.None? && ep <= |text| && text[ep..] == at
    ensures end.Some? ==> forall x :: x in Nodes(sh) ==> x == item || fresh(x)
    decreases |text| - start, 1
  {
    hide ParseNumber, ParseItems, ParseMembers, Skip, Unescape;
    ghost var s := text[start..];
    ep := start;
    AtEnd(text, start);
    if "null" <= text[start..] {
      item.kind := CJSON_NULL;
      end, sh := Some(start + 4), Shape(item, DataOf(item), []);
      FilledAlone(item, Null);
    } else if "false" <= text[start..] {
      item.kind := CJSON_FALSE;
      end, sh := Some(start + 5), Shape(item, DataOf(item), []);
      FilledAlone(item, False);
    } else if "true" <= text[start..] {
      item.kind := CJSON_TRUE;
      item.valueint := 1;
      end, sh := Some(start + 4), Shape(item, DataOf(item), []);
      FilledAlone(item, True);
    } else if At(text, start) == '\"' {
      end, ep := ParseStringInto(item, text, start);
      sh := Shape(item, DataOf(item), []);
      FilledAlone(item, Str(item.valuestring.value));
    } else if At(text, start) == '-' || IsDigit(At(text, start)) {
      var p := ParseNumberInto(item, text, start);
      end, sh := Some(p), Shape(item, DataOf(item), []);
      NumberMoves(text, start, p);
      FilledAlone(item, Num(item.valuedouble));
    } else if At(text, start) == '[' {
      end, ep, sh := ParseArrayInto(item, text, start);
    } else if At(text, start) == '{' {
      end, ep, sh := ParseObjectInto(item, text, start);
    } else {
      end, sh := None, Shape(item, DataOf(item), []);
    }
  }

  lemma NumberMoves(text: string, start: nat, p: nat)
    requires start <= p <= |text| && (Head(text[start..]) == '-' || IsDigit(Head(text[start..])))
    requires ParseNumber(text[start..]).1 == text[p..]
    ensures start < p
  {}

  /** A blank item behind the last of a list, filled from the text. */
  method NextItem(child: Item, text: string, start: nat, ghost cur: Shape, ghost vs: seq<Json>)
    returns (end: Option<nat>, ep: nat, newItem: Item, ghost cur': Shape, ghost vs': seq<Json>)
    requires start < |text| && NoNul(text) && text[start] == ','
    requires Laid(cur) && Apart(cur) && cur.kids != [] && child == cur.kids[|cur.kids| - 1].node
      && AllMean(cur.kids, vs)
    modifies child`next
    ensures end.None? ==> ep <= |text| && ItemsAfter(text[start..]) == Fail(text[ep..])
    ensures end.Some? ==> start < end.value <= |text|
    ensures end.Some? ==> Behold(vs, ItemsAfter(text[start..])) == Behold(vs', ItemsAfter(text[end.value..]))
    ensures end.Some? ==>
      Laid(cur') && Apart(cur') && cur'.node == cur.node && cur'.data == cur.data && AllMean(cur'.kids, vs')
    ensures end.Some? ==> cur'.kids != [] && newItem == cur'.kids[|cur'.kids| - 1].node && fresh(newItem)
    ensures end.Some? ==> forall x :: x in Nodes(cur') ==> x in Nodes(cur) || fresh(x)
    decreases |text| - start, 0
  {
    hide Inside, Apart, Nodes, ParseValue, ParseItems, Skip, Means;
    AllAllocated(cur);
    ghost var u := Memory(Nodes(cur));
    KidNodes(cur, |cur.kids| - 1);
    Front(text, start);
    newItem := new Item();
    child.next := newItem;
    newItem.prev := child;
    var p := SkipBlank(text, start + 1);
    ghost var kid;
    ItemsStep(text[start + 1..]);
    end, ep, kid := ParseValueInto(newItem, text, p);
    cur', vs' := cur, vs;
    if end.None? {
      return;
    }
    ghost var v := ParseValue(text[p..]).value;
    AllAllocated(kid);
    p := SkipBlank(text, end.value);
    end := Some(p);
    cur', vs' := WithKids(cur, cur.kids + [kid]), vs + [v];
    BeholdOne(vs, v, ItemsAfter(text[p..]));
    ghost var all := Nodes(cur) + Nodes(kid);
    InsideIf(all, kid);
    LastIn(u, cur);
    OwnNode(kid);
    LateAppend(u, Memory(all), cur, kid);
    GrownNodes(cur, kid);
    LaidIf(all, cur');
  }

  lemma LastIn(u: View, cur: Shape)
    requires Inside(u, cur) && cur.kids != []
    ensures cur.kids[|cur.kids| - 1].node in u && cur.kids[|cur.kids| - 1].node in Nodes(cur)
    ensures u[cur.kids[|cur.kids| - 1].node].next == null
  {
    KidIn(u, cur, |cur.kids| - 1);
    KidNodes(cur, |cur.kids| - 1);
  }

  lemma OneApart(item: Item, data: Data, kid: Shape)
    requires Apart(kid) && item !in Nodes(kid)
    ensures Apart(Shape(item, data, [kid])) && Nodes(Shape(item, data, [kid])) == {item} + Nodes(kid)
  {
    KidNodes(Shape(item, data, [kid]), 0);
    assert NodesOf([kid]) == Nodes(kid);
  }

  /** The first item of a list hangs under its parent before it is filled. */
  lemma FirstKid(item: Item, data: Data, kid: Shape)
    requires DataOf(item) == data && item.child == kid.node && kid.node.next == null && kid.node.prev == null
    requires Laid(kid) && Apart(kid) && item !in Nodes(kid)
    ensures Laid(Shape(item, data, [kid])) && Apart(Shape(item, data, [kid]))
      && Nodes(Shape(item, data, [kid])) == {item} + Nodes(kid)
  {
    hide Apart;
    var sh := Shape(item, data, [kid]);
    var w := Memory(Nodes(sh));
    OneApart(item, data, kid);
    KidNodes(sh, 0);
    OwnNode(kid);
    InsideIf(Nodes(sh), kid);
    assert Chained(w, sh.kids, 0);
    InsideBy(w, sh);
  }

  method ParseArrayInto(item: Item, text: string, start: nat) returns (end: Option<nat>, ep: nat, ghost sh: Shape)
    requires start < |text| && NoNul(text) && text[start] == '[' && item.child == null && item.valuestring == None
    modifies item`child, item`kind
    ensures match ParseValue(text[start..])
      case Ok(v, r) => end.Some? && start < end.value <= |text| && text[end.value..] == r
                       && Filled(sh, item, v) && sh.data.name == item.name
      case Fail(at) => end.None? && ep <= |text| && text[ep..] == at
    ensures end.Some? ==> forall x :: x in Nodes(sh) ==> x == item || fresh(x)
    decreases |text| - start, 0
  {
    hide ParseItems, Skip, Inside, Apart, Nodes, ParseValue;
    ghost var s := text[start..];
    Front(text, start);
    item.kind := CJSON_ARRAY;
    var p := SkipBlank(text, start + 1);
    ep := start;
    sh := Shape(item, DataOf(item), []);
    ArrayIs(s);
    AtEnd(text, p);
    if At(text, p) == ']' {
      Front(text, p);
      end := Some(p + 1);
      assert Means(sh, Arr([]));
      FilledAlone(item, Arr([]));
      return;
    }
    var child, newItem;
    ghost var vs;
    end, ep, child, sh, vs := FirstItem(item, text, p);
    ghost var whole := ParseItems(text[p..]);
    if end.None? {
      return;
    }
    p := end.value;
    AtEnd(text, p);
    while At(text, p) == ','
      invariant start < p <= |text| && At(text, p) == Head(text[p..]) && Behold(vs, ItemsAfter(text[p..])) == whole
      invariant Laid(sh) && Apart(sh) && sh.node == item
        && sh.data == Data(CJSON_ARRAY, item.isReference, None, item.valueint, item.valuedouble, item.name)
      invariant AllMean(sh.kids, vs) && sh.kids != [] && child == sh.kids[|sh.kids| - 1].node && fresh(child)
      invariant forall x :: x in Nodes(sh) ==> x == item || fresh(x)
      decreases |text| - p
    {
      end, ep, newItem, sh, vs := NextItem(child, text, p, sh, vs);
      if end.None? {
        return;
      }
      p := end.value;
      child := newItem;
      AtEnd(text, p);
    }
    if At(text, p) == ']' {
      Front(text, p);
      end := Some(p + 1);
      assert vs + [] == vs;
      assert Means(sh, Arr(vs));
    } else {
      end, ep := None, p;
    }
  }

  lemma ArrayIs(s: string)
    requires s != "" && s[0] == '['
    ensures var t := Skip(s[1..]);
      ParseValue(s) == if Head(t) == ']' then Ok(Arr([]), t[1..])
        else match ParseItems(t) case Ok(items, r) => Ok(Arr(items), r) case Fail(at) => Fail(at)
  {
    hide ParseItems, Skip;
  }

  /** The first element of an array. */
  method FirstItem(item: Item, text: string, start: nat)
    returns (end: Option<nat>, ep: nat, child: Item, ghost sh: Shape, ghost vs: seq<Json>)
    requires start <= |text| && NoNul(text) && item.child == null
    modifies item`child
    ensures end.None? ==> ep <= |text| && ParseItems(text[start..]) == Fail(text[ep..])
    ensures end.Some? ==>
      start < end.value <= |text| && ParseItems(text[start..]) == Behold(vs, ItemsAfter(text[end.value..]))
    ensures end.Some? ==> Laid(sh) && Apart(sh) && sh.node == item && sh.data == DataOf(item) && AllMean(sh.kids, vs)
    ensures end.Some? ==> sh.kids != [] && child == sh.kids[|sh.kids| - 1].node && fresh(child)
    ensures end.Some? ==> forall x :: x in Nodes(sh) ==> x == item || fresh(x)
    decreases |text| - start, 2
  {
    hide ParseItems, ParseValue, Skip, Inside, Apart, Nodes, Means;
    child := new Item();
    item.child := child;
    var p := SkipBlank(text, start);
    ghost var kid;
    ItemsStep(text[start..]);
    end, ep, kid := ParseValueInto(child, text, p);
    sh, vs := kid, [];
    if end.None? {
      return;
    }
    ghost var v := ParseValue(text[p..]).value;
    AllAllocated(kid);
    p := SkipBlank(text, end.value);
    end := Some(p);
    FirstKid(item, DataOf(item), kid);
    sh, vs := Shape(item, DataOf(item), [kid]), [v];
  }

  // ---------------------------------------------------------------- objects

  lemma MemberIs(s: string)
    ensures ParseMember(s) == match ParseString(Skip(s))
      case Fail(at) => Fail(at)
      case Ok(name, r) =>
        var t := Skip(r);
        if Head(t) != ':' then Fail(t)
        else match ParseValue(Skip(t[1..])) case Ok(v, q) => Ok(Member(name, v), Skip(q)) case Fail(at) => Fail(at)
  {
    hide ParseString, ParseValue, Skip;
  }

  /** A name, a colon and a value, into a blank item. */
  method ParseMemberInto(child: Item, text: string, start: nat) returns (end: Option<nat>, ep: nat, ghost kid: Shape)
    requires start <= |text| && NoNul(text) && child.child == null && child.valuestring == None
    modifies child`child, child`kind, child`valuestring, child`valueint, child`valuedouble, child`name
    ensures match ParseMember(text[start..])
      case Ok(m, t) => end.Some? && start < end.value <= |text| && text[end.value..] == t
                       && Filled(kid, child, m.value) && kid.data.name == Some(m.name)
      case Fail(at) => end.None? && ep <= |text| && text[ep..] == at
    ensures end.Some? ==> forall x :: x in Nodes(kid) ==> x == child || fresh(x)
    decreases |text| - start, 2
  {
    hide ParseMember, ParseString, ParseValue, Skip, Inside, Apart, Nodes, Means;
    MemberIs(text[start..]);
    var p := SkipBlank(text, start);
    kid := Shape(child, DataOf(child), []);
    end, ep := ParseStringInto(child, text, p);
    if end.None? {
      return;
    }
    p := SkipBlank(text, end.value);
    child.name := child.valuestring;
    child.valuestring := None;
    AtEnd(text, p);
    if At(text, p) != ':' {
      return None, p, kid;
    }
    Front(text, p);
    p := SkipBlank(text, p + 1);
    end, ep, kid := ParseValueInto(child, text, p);
    if end.Some? {
      AllAllocated(kid);
      p := SkipBlank(text, end.value);
      end := Some(p);
    }
  }

  method NextMember(child: Item, text: string, start: nat, ghost cur: Shape, ghost ms: seq<Member>)
    returns (end: Option<nat>, ep: nat, newItem: Item, ghost cur': Shape, ghost ms': seq<Member>)
    requires start < |text| && NoNul(text) && text[start] == ','
    requires Laid(cur) && Apart(cur) && cur.kids != [] && child == cur.kids[|cur.kids| - 1].node
      && AllBind(cur.kids, ms)
    modifies child`next
    ensures end.None? ==> ep <= |text| && MembersAfter(text[start..]) == Fail(text[ep..])
    ensures end.Some? ==> start < end.value <= |text|
    ensures end.Some? ==> Behold(ms, MembersAfter(text[start..])) == Behold(ms', MembersAfter(text[end.value..]))
    ensures end.Some? ==>
      Laid(cur') && Apart(cur') && cur'.node == cur.node && cur'.data == cur.data && AllBind(cur'.kids, ms')
    ensures end.Some? ==> cur'.kids != [] && newItem == cur'.kids[|cur'.kids| - 1].node && fresh(newItem)
    ensures end.Some? ==> forall x :: x in Nodes(cur') ==> x in Nodes(cur) || fresh(x)
    decreases |text| - start, 0
  {
    hide Inside, Apart, Nodes, ParseMember, ParseMembers, Means;
    AllAllocated(cur);
    ghost var u := Memory(Nodes(cur));
    KidNodes(cur, |cur.kids| - 1);
    Front(text, start);
    newItem := new Item();
    child.next := newItem;
    newItem.prev := child;
    ghost var kid;
    MembersStep(text[start + 1..]);
    end, ep, kid := ParseMemberInto(newItem, text, start + 1);
    cur', ms' := cur, ms;
    if end.None? {
      return;
    }
    ghost var m := ParseMember(text[start + 1..]).value;
    cur', ms' := WithKids(cur, cur.kids + [kid]), ms + [m];
    BeholdOne(ms, m, MembersAfter(text[end.value..]));
    ghost var all := Nodes(cur) + Nodes(kid);
    InsideIf(all, kid);
    LastIn(u, cur);
    OwnNode(kid);
    LateAppend(u, Memory(all), cur, kid);
    GrownNodes(cur, kid);
    LaidIf(all, cur');
  }

  /** The first member of an object. */
  method FirstMember(item: Item, text: string, start: nat)
    returns (end: Option<nat>, ep: nat, child: Item, ghost sh: Shape, ghost ms: seq<Member>)
    requires start <= |text| && NoNul(text) && item.child == null
    modifies item`child
    ensures end.None? ==> ep <= |text| && ParseMembers(text[start..]) == Fail(text[ep..])
    ensures end.Some? ==>
      start < end.value <= |text| && ParseMembers(text[start..]) == Behold(ms, MembersAfter(text[end.value..]))
    ensures end.Some? ==> Laid(sh) && Apart(sh) && sh.node == item && sh.data == DataOf(item) && AllBind(sh.kids, ms)
    ensures end.Some? ==> sh.kids != [] && child == sh.kids[|sh.kids| - 1].node && fresh(child)
    ensures end.Some? ==> forall x :: x in Nodes(sh) ==> x == item || fresh(x)
    decreases |text| - start, 3
  {
    hide ParseMembers, ParseMember, Inside, Apart, Nodes, Means;
    child := new Item();
    item.child := child;
    ghost var kid;
    MembersStep(text[start..]);
    end, ep, kid := ParseMemberInto(child, text, start);
    sh, ms := kid, [];
    if end.None? {
      return;
    }
    FirstKid(item, DataOf(item), kid);
    sh, ms := Shape(item, DataOf(item), [kid]), [ParseMember(text[start..]).value];
  }

  lemma ObjectIs(s: string)
    requires s != "" && s[0] == '{'
    ensures var t := Skip(s[1..]);
      ParseValue(s) == if Head(t) == '}' then Ok(Obj([]), t[1..])
        else match ParseMembers(t) case Ok(members, r) => Ok(Obj(members), r) case Fail(at) => Fail(at)
  {
    hide ParseMembers, Skip;
  }

  method ParseObjectInto(item: Item, text: string, start: nat) returns (end: Option<nat>, ep: nat, ghost sh: Shape)
    requires start < |text| && NoNul(text) && text[start] == '{' && item.child == null && item.valuestring == None
    modifies item`child, item`kind
    ensures match ParseValue(text[start..])
      case Ok(v, r) => end.Some? && start < end.value <= |text| && text[end.value..] == r
                       && Filled(sh, item, v) && sh.data.name == item.name
      case Fail(at) => end.None? && ep <= |text| && text[ep..] == at
    ensures end.Some? ==> forall x :: x in Nodes(sh) ==> x == item || fresh(x)
    decreases |text| - start, 0
  {
    hide ParseMembers, Skip, Inside, Apart, Nodes, ParseValue;
    Front(text, start);
    item.kind := CJSON_OBJECT;
    var p := SkipBlank(text, start + 1);
    ep := start;
    sh := Shape(item, DataOf(item), []);
    ObjectIs(text[start..]);
    AtEnd(text, p);
    if At(text, p) == '}' {
      Front(text, p);
      end := Some(p + 1);
      assert Means(sh, Obj([]));
      FilledAlone(item, Obj([]));
      return;
    }
    var child, newItem;
    ghost var ms;
    end, ep, child, sh, ms := FirstMember(item, text, p);
    ghost var whole := ParseMembers(text[p..]);
    if end.None? {
      return;
    }
    p := end.value;
    AtEnd(text, p);
    while At(text, p) == ','
      invariant start < p <= |text| && At(text, p) == Head(text[p..]) && Behold(ms, MembersAfter(text[p..])) == whole
      invariant Laid(sh) && Apart(sh) && sh.node == item
      invariant sh.data == Data(CJSON_OBJECT, item.isReference, None, item.valueint, item.valuedouble, item.name)
      invariant AllBind(sh.kids, ms) && sh.kids != [] && child == sh.kids[|sh.kids| - 1].node && fresh(child)
      invariant forall x :: x in Nodes(sh) ==> x == item || fresh(x)
      decreases |text| - p
    {
      end, ep, newItem, sh, ms := NextMember(child, text, p, sh, ms);
      if end.None? {
        return;
      }
      p := end.value;
      child := newItem;
      AtEnd(text, p);
    }
    if At(text, p) == '}' {
      Front(text, p);
      end := Some(p + 1);
      assert ms + [] == ms;
      assert Means(sh, Obj(ms));
    } else {
      end, ep := None, p;
    }
  }

  /** cJSON_ParseWithOpts: a new tree, or nothing and the place of the error. */
  method ParseWithOptions(text: string, requireNullTerminated: bool)
    returns (c: Item?, parseEnd: nat, ep: nat, ghost sh: Shape)
    requires NoNul(text)
    ensures match ParseWithOpts(text, requireNullTerminated)
      case Ok(v, r) => c != null && parseEnd <= |text| && text[parseEnd..] == r && Filled(sh, c, v) && c.next == null
        && c.prev == null
      case Fail(at) => c == null && ep <= |text| && text[ep..] == at
    ensures c != null ==> fresh(Nodes(sh))
  {
    hide ParseValue, Skip, Inside, Apart, Nodes, Means;
    var item := new Item();
    assert text[0..] == text;
    var p := SkipBlank(text, 0);
    var end;
    end, ep, sh := ParseValueInto(item, text, p);
    parseEnd := 0;
    if end.None? {
      return null, parseEnd, ep, sh;
    }
    parseEnd := end.value;
    if requireNullTerminated {
      AllAllocated(sh);
      parseEnd := SkipBlank(text, parseEnd);
      AtEnd(text, parseEnd);
      if At(text, parseEnd) != '\0' {
        return null, parseEnd, parseEnd, sh;
      }
    }
    c := item;
  }
}
