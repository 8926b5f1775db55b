/** Parsing a printed tree gives back the tree and stops exactly at its end. */
module JsonRoundTrip {
  import opened CText
  import opened JsonText

  // ---------------------------------------------------------------- numbers

  lemma {:induction false} DigitsOfDec(n: nat, t: string)
    ensures Digits(Dec(n) + t, 0) == Digits(t, n)
  {
    if n < 10 {
      assert Dec(n) + t == [Digit(n)] + t;
      assert ([Digit(n)] + t)[1..] == t;
    } else {
      var u := [Digit(n % 10)] + t;
      assert Dec(n) + t == Dec(n / 10) + u;
      DigitsOfDec(n / 10, u);
      assert u[1..] == t;
    }
  }

  lemma {:induction false} DecFirst(n: nat)
    ensures Dec(n) != ""
    ensures n > 0 ==> '1' <= Dec(n)[0] <= '9'
    ensures n == 0 ==> Dec(n) == "0"
  {
    if n >= 10 { DecFirst(n / 10); }
  }

  /** What must not follow a number for it to end there. */
  predicate EndsNumber(t: string) {
    !IsDigit(Head(t)) && Head(t) != '.' && Head(t) != 'e' && Head(t) != 'E'
  }

  lemma ParsePrintedNat(n: nat, t: string)
    requires EndsNumber(t)
    ensures IsDigit(Head(Dec(n) + t))
    ensures ParseNumber(Dec(n) + t) == (n as real, t)
  {
    DecFirst(n);
    var s := Dec(n) + t;
    assert Head(s) == Dec(n)[0];
    if n == 0 {
      assert s[1..] == t;
    } else {
      DigitsOfDec(n, t);
    }
    assert Pow10(0) == 1.0;
  }

  lemma ParseNegated(u: string)
    requires IsDigit(Head(u))
    ensures ParseNumber("-" + u) == (-ParseNumber(u).0, ParseNumber(u).1)
  {
    hide Mantissa, ParseExponent, Scaled;
    assert ("-" + u)[1..] == u && Head("-" + u) == '-';
  }

  lemma ParsePrintedInt(n: int, t: string)
    requires EndsNumber(t)
    ensures PrintInt(n) != "" && (PrintInt(n)[0] == '-' || IsDigit(PrintInt(n)[0]))
    ensures ParseNumber(PrintInt(n) + t) == (n as real, t)
  {
    hide Dec, ParseNumber;
    DecFirst(if n < 0 then -n else n);
    if n < 0 {
      ParsePrintedNat(-n, t);
      ParseNegated(Dec(-n) + t);
      assert PrintInt(n) + t == "-" + (Dec(-n) + t);
    } else {
      ParsePrintedNat(n, t);
    }
  }

  // ---------------------------------------------------------------- strings

  lemma UnescapeEscapedControl(c: char, t: string)
    requires 0 < c as int < 32
    ensures UnescapeOne("u00" + [HexDigit(c as int / 16), HexDigit(c as int % 16)] + t) == ([c], t)
  {
    var hi, lo := HexDigit(c as int / 16), HexDigit(c as int % 16);
    assert HexVal(hi) == c as int / 16 && HexVal(lo) == c as int % 16;
    var u := "u00" + [hi, lo] + t;
    assert u[1..] == "00" + [hi, lo] + t;
    assert Hex4(u[1..]) == c as int;
    assert UnicodeEscape(u[1..]) == ([c], 4);
    assert Drop(u, 5) == t;
  }

  lemma UnescapeEscapedChar(c: char, t: string)
    requires 0 < c as int < 256
    ensures Unescape(EscapeChar(c) + t) == ([c] + Unescape(t).0, Unescape(t).1)
  {
    var s := EscapeChar(c) + t;
    if c as int > 31 && c != '\"' && c != '\\' {
      assert s[1..] == t;
    } else if |EscapeChar(c)| == 2 {
      assert s[1..] == [EscapeChar(c)[1]] + t;
      assert s[1..][1..] == t;
      assert UnescapeOne(s[1..]) == ([c], t);
    } else {
      assert s[1..] == "u00" + [HexDigit(c as int / 16), HexDigit(c as int % 16)] + t;
      UnescapeEscapedControl(c, t);
    }
  }

  lemma {:induction false} UnescapeEscaped(s: string, t: string)
    requires NulFree(s)
    ensures Unescape(Escape(s) + "\"" + t) == (s, "\"" + t)
  {
    if s == "" {
      assert Escape(s) + "\"" + t == "\"" + t;
    } else {
      var u := Escape(s[1..]) + "\"" + t;
      assert Escape(s) + "\"" + t == EscapeChar(s[0]) + u;
      UnescapeEscapedChar(s[0], u);
      UnescapeEscaped(s[1..], t);
      assert [s[0]] + s[1..] == s;
    }
  }

  lemma ParsePrintedString(s: string, t: string)
    requires NulFree(s)
    ensures ParseString(PrintString(s) + t) == Ok(s, t)
  {
    assert (PrintString(s) + t)[1..] == Escape(s) + "\"" + t;
    UnescapeEscaped(s, t);
    assert ("\"" + t)[1..] == t;
  }

  // ---------------------------------------------------------------- trees

  lemma {:induction false} SkipTabs(n: nat, t: string)
    ensures Skip(Repeat('\t', n) + t) == Skip(t)
  {
    var s := Repeat('\t', n) + t;
    if n == 0 {
      assert s == t;
    } else {
      assert s[1..] == Repeat('\t', n - 1) + t;
      SkipTabs(n - 1, t);
    }
  }

  lemma SkipTabsOf(fmt: bool, n: int, t: string)
    ensures Skip(Tabs(fmt, n) + t) == Skip(t)
  {
    if fmt && n > 0 { SkipTabs(n, t); } else { assert Tabs(fmt, n) + t == t; }
  }

  lemma SkipNewLine(fmt: bool, u: string)
    ensures Skip(NewLine(fmt) + u) == Skip(u)
  {
    if fmt { assert ("\n" + u)[1..] == u; } else { assert "" + u == u; }
  }

  lemma SkipIndent(fmt: bool, n: int, t: string)
    ensures Skip(NewLine(fmt) + Tabs(fmt, n) + t) == Skip(t)
  {
    assert NewLine(fmt) + Tabs(fmt, n) + t == NewLine(fmt) + (Tabs(fmt, n) + t);
    SkipNewLine(fmt, Tabs(fmt, n) + t);
    SkipTabsOf(fmt, n, t);
  }

  /** A printed value starts with a character that is neither blank nor a closing bracket. */
  lemma PrintFirst(v: Json, depth: nat, fmt: bool)
    requires Printable(v)
    ensures Print(v, depth, fmt) != ""
    ensures var c := Print(v, depth, fmt)[0]; c as int > 32 && c != ']' && c != '}'
  {
    if v.Num? { ParsePrintedInt(v.d.Floor, ""); }
  }

  lemma SkipToPrint(sp: string, v: Json, depth: nat, fmt: bool, t: string)
    requires Printable(v) && (sp == "" || sp == " " || sp == "\t")
    ensures Skip(sp + Print(v, depth, fmt) + t) == Print(v, depth, fmt) + t
    ensures Head(Print(v, depth, fmt) + t) == Print(v, depth, fmt)[0]
  {
    PrintFirst(v, depth, fmt);
    var s := Print(v, depth, fmt) + t;
    assert sp + Print(v, depth, fmt) + t == sp + s;
    if sp != "" { assert (sp + s)[1..] == s; }
  }

  /** Only a number needs to know what follows it. */
  predicate Ends(v: Json, t: string) {
    v.Num? ==> EndsNumber(t)
  }

  lemma {:induction false} ParsePrinted(v: Json, depth: nat, fmt: bool, t: string)
    requires Printable(v) && Ends(v, t)
    ensures ParseValue(Print(v, depth, fmt) + t) == Ok(v, t)
    decreases v, 1
  {
    var s := Print(v, depth, fmt) + t;
    match v
    case Null => assert "null" <= s && s[4..] == t;
    case False =>
      assert s[0] == 'f';
      assert "false" <= s && s[5..] == t;
    case True =>
      assert s[0] == 't';
      assert "true" <= s && s[4..] == t;
    case Num(d) => ParsePrintedInt(d.Floor, t);
    case Str(x) => ParsePrintedString(x, t);
    case Arr(items) => ParsePrintedArray(items, depth, fmt, t);
    case Obj(members) => ParsePrintedObject(members, depth, fmt, t);
  }

  lemma ParseOpenArray(s: string, u: string)
    requires s == "[" + u
    ensures ParseValue(s) ==
      if Head(Skip(u)) == ']' then Ok(Arr([]), Skip(u)[1..])
      else match ParseItems(Skip(u))
        case Ok(items, r) => Ok(Arr(items), r)
        case Fail(at) => Fail(at)
  {
    assert s[0] == '[' && s[1..] == u;
  }

  function Blank(fmt: bool): string {
    if fmt then " " else ""
  }

  /** The text from a list of items to the end of their array. */
  function ItemsText(items: seq<Json>, depth: nat, fmt: bool, t: string): string
    requires Printable(Arr(items))
  {
    PrintItems(items, depth, fmt) + ("]" + t)
  }

  /** The text of a list of items after its first one. */
  function AfterItem(items: seq<Json>, depth: nat, fmt: bool, t: string): string
    requires items != [] && Printable(Arr(items))
  {
    if |items| == 1 then "]" + t
    else "," + (Blank(fmt) + ItemsText(items[1..], depth, fmt, t))
  }

  lemma SplitItems(items: seq<Json>, depth: nat, fmt: bool, t: string)
    requires items != [] && Printable(Arr(items))
    ensures ItemsText(items, depth, fmt, t) == Print(items[0], depth, fmt) + AfterItem(items, depth, fmt, t)
  {
    if |items| > 1 {
      assert (if fmt then ", " else ",") == "," + Blank(fmt);
      Regroup(Print(items[0], depth, fmt), ",", Blank(fmt), PrintItems(items[1..], depth, fmt), "]" + t);
    }
  }

  lemma Regroup(a: string, b: string, c: string, d: string, e: string)
    ensures a + (b + c) + d + e == a + (b + (c + (d + e)))
  {}

  lemma {:induction false} ParsePrintedArray(items: seq<Json>, depth: nat, fmt: bool, t: string)
    requires Printable(Arr(items))
    ensures ParseValue(Print(Arr(items), depth, fmt) + t) == Ok(Arr(items), t)
    decreases items, 2
  {
    var u := ItemsText(items, depth + 1, fmt, t);
    assert Print(Arr(items), depth, fmt) + t == "[" + u;
    ParseOpenArray("[" + u, u);
    if items == [] {
      assert u == "]" + t;
      assert u[1..] == t;
    } else {
      ParsePrintedItems("", items, depth + 1, fmt, t);
      ItemsStart(items, depth + 1, fmt, t);
      assert "" + u == u;
    }
  }

  lemma ParseItemsStep(s: string, v: Json, w: string)
    requires ParseValue(Skip(s)) == Ok(v, w)
    ensures Head(w) == ']' ==> ParseItems(s) == Ok([v], w[1..])
    ensures Head(w) == ',' && ParseItems(w[1..]).Ok? ==>
      ParseItems(s) == Ok([v] + ParseItems(w[1..]).value, ParseItems(w[1..]).rest)
  {}

  lemma ItemsStart(items: seq<Json>, depth: nat, fmt: bool, t: string)
    requires items != [] && Printable(Arr(items))
    ensures var s := ItemsText(items, depth, fmt, t);
      Skip(s) == s && Head(s) != ']'
  {
    hide Print, PrintItems, ItemsText, AfterItem, Skip;
    var p, w := Print(items[0], depth, fmt), AfterItem(items, depth, fmt, t);
    SplitItems(items, depth, fmt, t);
    assert "" + p + w == p + w;
    SkipToPrint("", items[0], depth, fmt, w);
    PrintFirst(items[0], depth, fmt);
  }

  lemma {:induction false} ParsePrintedItems(sp: string, items: seq<Json>, depth: nat, fmt: bool, t: string)
    requires sp == "" || sp == " "
    requires items != [] && Printable(Arr(items))
    ensures ParseItems(sp + ItemsText(items, depth, fmt, t)) == Ok(items, t)
    decreases items, 1
  {
    hide ParseItems, ParseValue, Skip, ItemsText, AfterItem, Print, PrintItems;
    var p, w := Print(items[0], depth, fmt), AfterItem(items, depth, fmt, t);
    var s := sp + ItemsText(items, depth, fmt, t);
    SplitItems(items, depth, fmt, t);
    assert s == sp + p + w;
    SkipToPrint(sp, items[0], depth, fmt, w);
    AfterItemRest(items, depth, fmt, t);
    ParsePrinted(items[0], depth, fmt, w);
    ParseItemsStep(s, items[0], w);
    if |items| > 1 {
      ParsePrintedItems(Blank(fmt), items[1..], depth, fmt, t);
    }
  }

  lemma AfterItemRest(items: seq<Json>, depth: nat, fmt: bool, t: string)
    requires items != [] && Printable(Arr(items))
    ensures var w := AfterItem(items, depth, fmt, t);
      if |items| == 1 then Head(w) == ']' && w[1..] == t && items == [items[0]]
      else
        Head(w) == ',' && w[1..] == Blank(fmt) + ItemsText(items[1..], depth, fmt, t)
        && items == [items[0]] + items[1..]
  {
    hide ItemsText, Print, PrintItems, Blank;
    if |items| == 1 {
      assert ("]" + t)[1..] == t;
    } else {
      Behind(",", Blank(fmt) + ItemsText(items[1..], depth, fmt, t));
    }
  }

  lemma Behind(a: string, b: string)
    requires |a| == 1
    ensures Head(a + b) == a[0] && (a + b)[1..] == b
  {}

  /** The text from a list of members to the end of their object. */
  function MembersText(members: seq<Member>, depth: nat, fmt: bool, t: string): string
    requires Printable(Obj(members))
  {
    NewLine(fmt) + PrintMembers(members, depth + 1, fmt) + Tabs(fmt, depth) + "}" + t
  }

  /** The text after the first member of a list. */
  function AfterMember(members: seq<Member>, depth: nat, fmt: bool, t: string): string
    requires members != [] && Printable(Obj(members))
  {
    if |members| == 1 then NewLine(fmt) + Tabs(fmt, depth) + ("}" + t)
    else "," + MembersText(members[1..], depth, fmt, t)
  }

  lemma SplitMembers(members: seq<Member>, depth: nat, fmt: bool, t: string)
    requires members != [] && Printable(Obj(members))
    ensures MembersText(members, depth, fmt, t)
         == NewLine(fmt) + PrintMember(members[0], depth + 1, fmt) + AfterMember(members, depth, fmt, t)
  {
    var p, nl, tabs := PrintMember(members[0], depth + 1, fmt), NewLine(fmt), Tabs(fmt, depth);
    var more := PrintMembers(members[1..], depth + 1, fmt);
    if |members| == 1 {
      assert PrintMembers(members, depth + 1, fmt) == p + nl;
      RegroupLast(nl, p, tabs, "}", t);
    } else {
      assert PrintMembers(members, depth + 1, fmt) == p + "," + nl + more;
      RegroupMember(nl, p, more, tabs, "}", t);
    }
  }

  lemma RegroupLast(nl: string, p: string, tabs: string, e: string, t: string)
    ensures nl + (p + nl) + tabs + e + t == nl + p + (nl + tabs + (e + t))
  {}

  lemma RegroupMember(nl: string, p: string, more: string, tabs: string, e: string, t: string)
    ensures nl + (p + "," + nl + more) + tabs + e + t == nl + p + ("," + (nl + more + tabs + e + t))
  {}

  lemma ParseOpenObject(s: string, u: string)
    requires s == "{" + u
    ensures ParseValue(s) ==
      if Head(Skip(u)) == '}' then Ok(Obj([]), Skip(u)[1..])
      else match ParseMembers(u)
        case Ok(members, r) => Ok(Obj(members), r)
        case Fail(at) => Fail(at)
  {
    assert s[0] == '{' && s[1..] == u;
    ParseMembersSkip(u);
  }

  lemma ParseMembersSkip(s: string)
    ensures ParseMembers(Skip(s)) == ParseMembers(s)
  {
    assert Skip(Skip(s)) == Skip(s);
    assert ParseMember(Skip(s)) == ParseMember(s);
  }

  lemma RegroupEmpty(nl: string, tabs: string, t: string)
    ensures "{" + nl + tabs + "}" + t == "{" + (nl + tabs + ("}" + t))
  {}

  lemma RegroupObject(nl: string, ms: string, tabs: string, t: string)
    ensures "{" + nl + ms + tabs + "}" + t == "{" + (nl + ms + tabs + "}" + t)
  {}

  lemma {:induction false} ParsePrintedObject(members: seq<Member>, depth: nat, fmt: bool, t: string)
    requires Printable(Obj(members))
    ensures ParseValue(Print(Obj(members), depth, fmt) + t) == Ok(Obj(members), t)
    decreases members, 4
  {
    if members == [] {
      var w := "}" + t;
      var u := NewLine(fmt) + Tabs(fmt, depth - 1) + w;
      RegroupEmpty(NewLine(fmt), Tabs(fmt, depth - 1), t);
      ParseOpenObject("{" + u, u);
      SkipIndent(fmt, depth - 1, w);
      assert w[1..] == t;
    } else {
      var u := MembersText(members, depth, fmt, t);
      RegroupObject(NewLine(fmt), PrintMembers(members, depth + 1, fmt), Tabs(fmt, depth), t);
      ParseOpenObject("{" + u, u);
      ParsePrintedMembers(members, depth, fmt, t);
    }
  }

  lemma ParseMembersStep(s: string, m: Member, w: string)
    requires ParseMember(s) == Ok(m, w)
    ensures Head(w) == '}' ==> ParseMembers(s) == Ok([m], w[1..])
    ensures Head(w) == ',' && ParseMembers(w[1..]).Ok? ==>
      ParseMembers(s) == Ok([m] + ParseMembers(w[1..]).value, ParseMembers(w[1..]).rest)
  {}

  lemma AfterMemberRest(members: seq<Member>, depth: nat, fmt: bool, t: string)
    requires members != [] && Printable(Obj(members))
    ensures var w := Skip(AfterMember(members, depth, fmt, t));
      if |members| == 1 then Head(w) == '}' && w[1..] == t && members == [members[0]]
      else
        Head(w) == ',' && w[1..] == MembersText(members[1..], depth, fmt, t)
        && members == [members[0]] + members[1..]
  {
    var w := AfterMember(members, depth, fmt, t);
    if |members| == 1 {
      SkipIndent(fmt, depth, "}" + t);
      assert ("}" + t)[1..] == t;
    } else {
      assert Skip(w) == w;
    }
  }

  lemma {:induction false} ParsePrintedMembers(members: seq<Member>, depth: nat, fmt: bool, t: string)
    requires members != [] && Printable(Obj(members))
    ensures Head(Skip(MembersText(members, depth, fmt, t))) == '\"'
    ensures ParseMembers(MembersText(members, depth, fmt, t)) == Ok(members, t)
    decreases members, 3
  {
    var m, w := members[0], AfterMember(members, depth, fmt, t);
    SplitMembers(members, depth, fmt, t);
    ParsePrintedMember(m, depth + 1, fmt, w);
    ParseMembersStep(MembersText(members, depth, fmt, t), m, Skip(w));
    AfterMemberRest(members, depth, fmt, t);
    if |members| > 1 {
      ParsePrintedMembers(members[1..], depth, fmt, t);
    }
  }

  lemma ParseMemberStep(s: string, name: string, c: string, v: Json, w: string)
    requires ParseString(Skip(s)) == Ok(name, ":" + c)
    requires ParseValue(Skip(c)) == Ok(v, w)
    ensures ParseMember(s) == Ok(Member(name, v), Skip(w))
  {
    assert Skip(":" + c) == ":" + c && (":" + c)[1..] == c;
  }

  lemma RegroupPair(a: string, q: string, b: string, c: string, d: string, w: string)
    ensures a + (b + q + (":" + c) + d) + w == a + b + (q + (":" + (c + d + w)))
  {}

  lemma {:induction false} ParsePrintedMember(m: Member, depth: nat, fmt: bool, w: string)
    requires NulFree(m.name) && Printable(m.value) && Ends(m.value, w)
    ensures Head(Skip(NewLine(fmt) + PrintMember(m, depth, fmt) + w)) == '\"'
    ensures ParseMember(NewLine(fmt) + PrintMember(m, depth, fmt) + w) == Ok(m, Skip(w))
    decreases m, 2
  {
    var s := NewLine(fmt) + PrintMember(m, depth, fmt) + w;
    var tab, p := if fmt then "\t" else "", Print(m.value, depth, fmt);
    var c := tab + p + w;
    var u := PrintString(m.name) + (":" + c);
    assert s == NewLine(fmt) + Tabs(fmt, depth) + u by {
      assert (if fmt then ":\t" else ":") == ":" + tab;
      RegroupPair(NewLine(fmt), PrintString(m.name), Tabs(fmt, depth), tab, p, w);
    }
    SkipIndent(fmt, depth, u);
    ParsePrintedString(m.name, ":" + c);
    SkipToPrint(tab, m.value, depth, fmt, w);
    ParsePrinted(m.value, depth, fmt, w);
    ParseMemberStep(s, m.name, c, m.value, w);
  }

  /** cJSON_Parse undoes cJSON_Print and cJSON_PrintUnformatted, whether or not it is asked to
      insist on the end of the text. */
  lemma RoundTrip(v: Json, fmt: bool, whole: bool)
    requires Printable(v)
    ensures ParseWithOpts(Print(v, 0, fmt), whole) == Ok(v, "")
  {
    var s := Print(v, 0, fmt);
    assert "" + s + "" == s && s + "" == s;
    SkipToPrint("", v, 0, fmt, "");
    ParsePrinted(v, 0, fmt, "");
  }
}
