/** Minifying either print of a tree gives, byte for byte, the unformatted print. */
module JsonMinify {
  import opened CText
  import opened JsonText

  /** Names the text behind the part under consideration; it limits where `Squeezes` unfolds. */
  ghost predicate Behind(t: string) { true }

  /** The minifier turns the text `p` into `q` wherever `p` stands in front of a text, and does
      not let a literal or comment leak out of `p`. */
  ghost predicate Squeezes(p: string, q: string) {
    forall t: string {:trigger Behind(t)} :: Behind(t) ==> SqueezesBefore(p, q, t)
  }

  ghost predicate SqueezesBefore(p: string, q: string, t: string) {
    Minify(p + t) == q + Minify(t) && (Closed(t) ==> Closed(p + t))
  }

  lemma Then(p1: string, q1: string, p2: string, q2: string)
    requires Squeezes(p1, q1) && Squeezes(p2, q2)
    ensures Squeezes(p1 + p2, q1 + q2)
  {
    forall t: string | Behind(t)
      ensures SqueezesBefore(p1 + p2, q1 + q2, t)
    {
      assert Behind(p2 + t);
      assert p1 + p2 + t == p1 + (p2 + t);
      assert q1 + q2 + Minify(t) == q1 + (q2 + Minify(t));
    }
  }

  predicate Plain(p: string) {
    forall i :: 0 <= i < |p| ==> !IsBlank(p[i]) && p[i] != '/' && p[i] != '\"'
  }

  lemma {:induction false} PlainFront(p: string, t: string)
    requires Plain(p)
    ensures SqueezesBefore(p, p, t)
  {
    if p == "" {
      assert p + t == t && "" + Minify(t) == Minify(t);
    } else {
      var u := p[1..] + t;
      assert p + t == [p[0]] + u;
      assert (p + t)[1..] == u;
      PlainFront(p[1..], t);
      assert p == [p[0]] + p[1..];
      assert p + Minify(t) == [p[0]] + (p[1..] + Minify(t));
    }
  }

  lemma SqueezePlain(p: string)
    requires Plain(p)
    ensures Squeezes(p, p)
  {
    forall t: string | Behind(t) ensures SqueezesBefore(p, p, t) {
      PlainFront(p, t);
    }
  }

  lemma {:induction false} BlankFront(p: string, t: string)
    requires forall i :: 0 <= i < |p| ==> IsBlank(p[i])
    ensures Minify(p + t) == Minify(t) && Closed(p + t) == Closed(t)
  {
    if p == "" {
      assert p + t == t;
    } else {
      assert (p + t)[1..] == p[1..] + t;
      BlankFront(p[1..], t);
    }
  }

  lemma SqueezeBlank(p: string)
    requires forall i :: 0 <= i < |p| ==> IsBlank(p[i])
    ensures Squeezes(p, "")
  {
    forall t: string | Behind(t) ensures SqueezesBefore(p, "", t) {
      BlankFront(p, t);
      assert "" + Minify(t) == Minify(t);
    }
  }

  lemma LiteralPlain(c: char, u: string)
    requires c != '\"' && c != '\\'
    ensures LiteralLen([c] + u) == 1 + LiteralLen(u) && LiteralClosed([c] + u) == LiteralClosed(u)
  {
    assert ([c] + u)[1..] == u;
  }

  lemma LiteralEscape(c: char, u: string)
    ensures LiteralLen(['\\', c] + u) == 2 + LiteralLen(u) && LiteralClosed(['\\', c] + u) == LiteralClosed(u)
  {
    assert (['\\', c] + u)[2..] == u;
  }

  lemma LiteralControl(a: char, b: char, u: string)
    requires a != '\"' && a != '\\' && b != '\"' && b != '\\'
    ensures LiteralLen("\\u00" + [a, b] + u) == 6 + LiteralLen(u)
    ensures LiteralClosed("\\u00" + [a, b] + u) == LiteralClosed(u)
  {
    var u1 := [b] + u;
    var u2 := [a] + u1;
    var u3 := ['0'] + u2;
    var u4 := ['0'] + u3;
    LiteralPlain(b, u);
    LiteralPlain(a, u1);
    LiteralPlain('0', u2);
    LiteralPlain('0', u3);
    LiteralEscape('u', u4);
    assert "\\u00" + [a, b] + u == ['\\', 'u'] + u4;
  }

  lemma LiteralEscapedChar(c: char, u: string)
    requires 0 < c as int < 256
    ensures LiteralLen(EscapeChar(c) + u) == |EscapeChar(c)| + LiteralLen(u)
    ensures LiteralClosed(EscapeChar(c) + u) == LiteralClosed(u)
  {
    var e := EscapeChar(c);
    if |e| == 1 {
      LiteralPlain(c, u);
    } else if |e| == 2 {
      LiteralEscape(e[1], u);
      assert e == ['\\', e[1]];
    } else {
      LiteralControl(HexDigit(c as int / 16), HexDigit(c as int % 16), u);
    }
  }

  lemma {:induction false} LiteralEscaped(s: string, t: string)
    requires NulFree(s)
    ensures LiteralLen(Escape(s) + "\"" + t) == |Escape(s)| + 1
    ensures LiteralClosed(Escape(s) + "\"" + t)
  {
    if s == "" {
      assert Escape(s) + "\"" + t == "\"" + t;
    } else {
      var u := Escape(s[1..]) + "\"" + t;
      assert Escape(s) + "\"" + t == EscapeChar(s[0]) + u;
      LiteralEscapedChar(s[0], u);
      LiteralEscaped(s[1..], t);
    }
  }

  lemma SqueezeString(s: string)
    requires NulFree(s)
    ensures Squeezes(PrintString(s), PrintString(s))
  {
    var p := PrintString(s);
    forall t: string | Behind(t) ensures SqueezesBefore(p, p, t) {
      LiteralEscaped(s, t);
      assert (p + t)[1..] == Escape(s) + "\"" + t;
      assert (p + t)[..|p|] == p && (p + t)[|p|..] == t;
    }
  }

  lemma {:induction false} DecPlain(n: nat)
    ensures Plain(Dec(n))
  {
    if n >= 10 { DecPlain(n / 10); }
  }

  lemma IntPlain(n: int)
    ensures Plain(PrintInt(n))
  {
    DecPlain(if n < 0 then -n else n);
  }

  lemma SqueezeIndent(fmt: bool, n: int)
    ensures Squeezes(NewLine(fmt), "")
    ensures Squeezes(Tabs(fmt, n), "")
  {
    SqueezeBlank(NewLine(fmt));
    SqueezeBlank(Tabs(fmt, n));
  }

  lemma {:induction false} SqueezePrint(v: Json, depth: nat, depth': nat, fmt: bool)
    requires Printable(v)
    ensures Squeezes(Print(v, depth, fmt), Print(v, depth', false))
    decreases v, 1
  {
    match v
    case Null => SqueezePlain("null");
    case False => SqueezePlain("false");
    case True => SqueezePlain("true");
    case Num(d) =>
      IntPlain(d.Floor);
      SqueezePlain(PrintInt(d.Floor));
    case Str(s) => SqueezeString(s);
    case Arr(items) =>
      SqueezePlain("[");
      SqueezePlain("]");
      SqueezeItems(items, depth + 1, depth' + 1, fmt);
      Then("[", "[", PrintItems(items, depth + 1, fmt), PrintItems(items, depth' + 1, false));
      Then("[" + PrintItems(items, depth + 1, fmt), "[" + PrintItems(items, depth' + 1, false), "]", "]");
    case Obj(members) => SqueezeObject(members, depth, depth', fmt);
  }

  lemma {:induction false} SqueezeItems(items: seq<Json>, depth: nat, depth': nat, fmt: bool)
    requires Printable(Arr(items))
    ensures Squeezes(PrintItems(items, depth, fmt), PrintItems(items, depth', false))
    decreases items, 0
  {
    if items == [] {
      SqueezePlain("");
    } else {
      SqueezePrint(items[0], depth, depth', fmt);
      if |items| > 1 {
        var p, q := Print(items[0], depth, fmt), Print(items[0], depth', false);
        SqueezeSeparator(fmt);
        SqueezeItems(items[1..], depth, depth', fmt);
        Then(p, q, if fmt then ", " else ",", ",");
        Then(p + (if fmt then ", " else ","), q + ",", PrintItems(items[1..], depth, fmt),
          PrintItems(items[1..], depth', false));
      }
    }
  }

  lemma SqueezeSeparator(fmt: bool)
    ensures Squeezes(if fmt then ", " else ",", ",")
    ensures Squeezes(if fmt then ":\t" else ":", ":")
  {
    SqueezePlain(",");
    SqueezePlain(":");
    SqueezeBlank(" ");
    SqueezeBlank("\t");
    Then(",", ",", " ", "");
    Then(":", ":", "\t", "");
    assert "," + " " == ", " && "," + "" == ",";
    assert ":" + "\t" == ":\t" && ":" + "" == ":";
  }

  lemma {:induction false} SqueezeObject(members: seq<Member>, depth: nat, depth': nat, fmt: bool)
    requires Printable(Obj(members))
    ensures Squeezes(Print(Obj(members), depth, fmt), Print(Obj(members), depth', false))
    decreases members, 2
  {
    SqueezePlain("{");
    SqueezePlain("}");
    SqueezeIndent(fmt, if members == [] then depth - 1 else depth);
    Then("{", "{", NewLine(fmt), "");
    if members == [] {
      var tabs := Tabs(fmt, depth - 1);
      Then("{" + NewLine(fmt), "{" + "", tabs, "");
      Then("{" + NewLine(fmt) + tabs, "{" + "" + "", "}", "}");
      assert Print(Obj(members), depth', false) == "{" + "" + "" + "}";
    } else {
      var ms, ms' := PrintMembers(members, depth + 1, fmt), PrintMembers(members, depth' + 1, false);
      SqueezeMembers(members, depth + 1, depth' + 1, fmt);
      Then("{" + NewLine(fmt), "{" + "", ms, ms');
      Then("{" + NewLine(fmt) + ms, "{" + "" + ms', Tabs(fmt, depth), "");
      Then("{" + NewLine(fmt) + ms + Tabs(fmt, depth), "{" + "" + ms' + "", "}", "}");
      assert Print(Obj(members), depth', false) == "{" + "" + ms' + "" + "}";
    }
  }

  lemma {:induction false} SqueezeMember(m: Member, depth: nat, depth': nat, fmt: bool)
    requires NulFree(m.name) && Printable(m.value)
    ensures Squeezes(PrintMember(m, depth, fmt), PrintMember(m, depth', false))
    decreases m, 2
  {
    var tabs, name, colon := Tabs(fmt, depth), PrintString(m.name), if fmt then ":\t" else ":";
    SqueezeIndent(fmt, depth);
    SqueezeString(m.name);
    SqueezeSeparator(fmt);
    SqueezePrint(m.value, depth, depth', fmt);
    Then(tabs, "", name, name);
    Then(tabs + name, "" + name, colon, ":");
    Then(tabs + name + colon, "" + name + ":", Print(m.value, depth, fmt), Print(m.value, depth', false));
  }

  lemma {:induction false} SqueezeMembers(members: seq<Member>, depth: nat, depth': nat, fmt: bool)
    requires Printable(Obj(members))
    ensures Squeezes(PrintMembers(members, depth, fmt), PrintMembers(members, depth', false))
    decreases members, 0
  {
    if members == [] {
      SqueezePlain("");
    } else {
      var m, m' := PrintMember(members[0], depth, fmt), PrintMember(members[0], depth', false);
      var comma := if |members| > 1 then "," else "";
      SqueezeMember(members[0], depth, depth', fmt);
      SqueezePlain(comma);
      SqueezeIndent(fmt, 0);
      SqueezeMembers(members[1..], depth, depth', fmt);
      Then(m, m', comma, comma);
      Then(m + comma, m' + comma, NewLine(fmt), "");
      Then(m + comma + NewLine(fmt), m' + comma + "", PrintMembers(members[1..], depth, fmt),
        PrintMembers(members[1..], depth', false));
    }
  }

  /** The minifier is defined on every print and commutes with the choice of format. */
  lemma MinifyPrint(v: Json, depth: nat, depth': nat, fmt: bool)
    requires Printable(v)
    ensures Minify(Print(v, depth, fmt)) == Print(v, depth', false)
    ensures Closed(Print(v, depth, fmt))
  {
    SqueezePrint(v, depth, depth', fmt);
    assert Behind("");
    assert Print(v, depth, fmt) + "" == Print(v, depth, fmt);
    assert Print(v, depth', false) + Minify("") == Print(v, depth', false);
  }
}
