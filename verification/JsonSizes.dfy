/** The sizes the printers compute before they allocate, against the texts they then write. */
module JsonSizes {
  import opened CText
  import opened JsonText

  // ---------------------------------------------------------------- no terminator inside

  lemma NoNulPlus(a: string, b: string)
    requires NoNul(a) && NoNul(b)
    ensures NoNul(a + b)
  {}

  lemma {:induction false} EscapeNoNul(s: string)
    requires NulFree(s)
    ensures NoNul(Escape(s))
  {
    if s != "" {
      EscapeNoNul(s[1..]);
      NoNulPlus(EscapeChar(s[0]), Escape(s[1..]));
    }
  }

  lemma {:induction false} DecNoNul(n: nat)
    ensures NoNul(Dec(n))
  {
    if n >= 10 {
      DecNoNul(n / 10);
    }
  }

  lemma {:induction false} PrintNoNul(v: Json, depth: nat, fmt: bool)
    requires Printable(v)
    ensures NoNul(Print(v, depth, fmt))
    decreases v, 2
  {
    hide PrintItems, PrintMembers, Escape, Dec;
    match v
    case Num(d) => DecNoNul(if d.Floor < 0 then -d.Floor else d.Floor);
    case Str(s) => EscapeNoNul(s);
    case Arr(items) => ItemsNoNul(items, depth + 1, fmt);
    case Obj(members) => MembersNoNul(members, depth + 1, fmt);
    case _ =>
  }

  lemma {:induction false} ItemsNoNul(items: seq<Json>, depth: nat, fmt: bool)
    requires forall i :: 0 <= i < |items| ==> Printable(items[i])
    ensures NoNul(PrintItems(items, depth, fmt))
    decreases items, 1
  {
    if items != [] {
      PrintNoNul(items[0], depth, fmt);
      ItemsNoNul(items[1..], depth, fmt);
    }
  }

  lemma {:induction false} MembersNoNul(members: seq<Member>, depth: nat, fmt: bool)
    requires forall i :: 0 <= i < |members| ==> NulFree(members[i].name) && Printable(members[i].value)
    ensures NoNul(PrintMembers(members, depth, fmt))
    decreases members, 1
  {
    hide Print, PrintString, NewLine, Tabs;
    if members != [] {
      var m := members[0];
      EscapeNoNul(m.name);
      PrintNoNul(m.value, depth, fmt);
      MembersNoNul(members[1..], depth, fmt);
      MemberNoNul(m, depth, fmt);
      LineNoNul(|members| > 1, fmt);
      NoNulPlus(PrintMember(m, depth, fmt), if |members| > 1 then "," else "");
    }
  }

  lemma LineNoNul(more: bool, fmt: bool)
    ensures NoNul(if more then "," else "") && NoNul(NewLine(fmt))
  {}

  lemma MemberNoNul(m: Member, depth: nat, fmt: bool)
    requires NulFree(m.name) && Printable(m.value) && NoNul(Escape(m.name)) && NoNul(Print(m.value, depth, fmt))
    ensures NoNul(PrintMember(m, depth, fmt))
  {
    hide Print, Escape;
  }

  // ---------------------------------------------------------------- strings

  predicate Special(c: char) {
    c == '\"' || c == '\\' || c == BS || c == FF || c == '\n' || c == '\r' || c == '\t'
  }

  /** What the first pass of print_string_ptr adds for one character. */
  function CharLen(c: char): nat {
    1 + if Special(c) then 1 else if c as int < 32 then 5 else 0
  }

  function StringLen(s: string): nat {
    if s == "" then 0 else StringLen(s[..|s| - 1]) + CharLen(s[|s| - 1])
  }

  lemma CharLenIs(c: char)
    ensures |EscapeChar(c)| == CharLen(c)
  {}

  lemma {:induction false} EscapeSnoc(s: string, c: char)
    ensures Escape(s + [c]) == Escape(s) + EscapeChar(c)
  {
    if s == "" {
      assert s + [c] == [c];
      assert Escape([c]) == EscapeChar(c) + Escape([c][1..]);
    } else {
      assert (s + [c])[1..] == s[1..] + [c];
      EscapeSnoc(s[1..], c);
    }
  }

  /** The first pass counts exactly the characters of the escaped string. */
  lemma {:induction false} StringLenIs(s: string)
    ensures StringLen(s) == |Escape(s)|
  {
    if s != "" {
      var t := s[..|s| - 1];
      StringLenIs(t);
      EscapeSnoc(t, s[|s| - 1]);
      assert t + [s[|s| - 1]] == s;
      CharLenIs(s[|s| - 1]);
    }
  }

  /** A 32-bit integer fits the 21 bytes print_number takes. */
  lemma {:induction false} DecLen(n: nat, k: nat)
    requires n < Ten(k)
    ensures |Dec(n)| <= if k == 0 then 1 else k
  {
    if n >= 10 {
      DecLen(n / 10, k - 1);
    }
  }

  function Ten(k: nat): nat {
    if k == 0 then 1 else 10 * Ten(k - 1)
  }

  lemma IntFits(n: int)
    requires INT_MIN <= n <= INT_MAX
    ensures |PrintInt(n)| < 21
  {
    assert Ten(10) == 10_000_000_000 by {
      assert Ten(5) == 100_000;
      assert Ten(8) == 100_000_000;
    }
    DecLen(if n < 0 then -n else n, 10);
  }

  // ---------------------------------------------------------------- arrays

  function Sep(fmt: bool): string {
    if fmt then ", " else ","
  }

  /** The array's text up to entry `i`, its separator included. */
  function FrontItems(items: seq<Json>, i: nat, depth: nat, fmt: bool): string
    requires i <= |items| && forall k :: 0 <= k < |items| ==> Printable(items[k])
    decreases i
  {
    if i == 0 then ""
    else
      FrontItems(items, i - 1, depth, fmt)
      + (Print(items[i - 1], depth, fmt) + if i != |items| then Sep(fmt) else "")
  }

  lemma Assoc(a: string, b: string, c: string)
    ensures (a + b) + c == a + (b + c)
  {}

  lemma {:induction false} FrontItemsRest(items: seq<Json>, i: nat, depth: nat, fmt: bool)
    requires i <= |items| && forall k :: 0 <= k < |items| ==> Printable(items[k])
    ensures PrintItems(items, depth, fmt) == FrontItems(items, i, depth, fmt) + PrintItems(items[i..], depth, fmt)
    decreases i
  {
    if i == 0 {
      assert items[0..] == items;
    } else {
      FrontItemsRest(items, i - 1, depth, fmt);
      var rest, tail := items[i - 1..], items[i..];
      assert rest[0] == items[i - 1] && rest[1..] == tail;
      var e, sep := Print(items[i - 1], depth, fmt), if i != |items| then Sep(fmt) else "";
      assert PrintItems(rest, depth, fmt) == e + sep + PrintItems(tail, depth, fmt);
      Assoc(FrontItems(items, i - 1, depth, fmt), e + sep, PrintItems(tail, depth, fmt));
    }
  }

  lemma FrontItemsAll(items: seq<Json>, depth: nat, fmt: bool)
    requires forall k :: 0 <= k < |items| ==> Printable(items[k])
    ensures FrontItems(items, |items|, depth, fmt) == PrintItems(items, depth, fmt)
  {
    FrontItemsRest(items, |items|, depth, fmt);
    assert items[|items|..] == [];
  }

  /** What the first loop of print_array has added for the first `i` entries. */
  function ItemsLen(items: seq<Json>, i: nat, depth: nat, fmt: bool): nat
    requires i <= |items| && forall k :: 0 <= k < |items| ==> Printable(items[k])
    decreases i
  {
    if i == 0 then 0
    else
      ItemsLen(items, i - 1, depth, fmt) + |Print(items[i - 1], depth, fmt)| + 2 + if fmt then 1 else 0
  }

  lemma {:induction false} FrontItemsFit(items: seq<Json>, i: nat, depth: nat, fmt: bool)
    requires i <= |items| && forall k :: 0 <= k < |items| ==> Printable(items[k])
    ensures |FrontItems(items, i, depth, fmt)|
      == ItemsLen(items, i, depth, fmt) - i - if i == |items| && i > 0 then |Sep(fmt)| else 0
    decreases i
  {
    if i > 0 {
      FrontItemsFit(items, i - 1, depth, fmt);
    }
  }

  lemma {:induction false} ItemsLenGrows(items: seq<Json>, i: nat, depth: nat, fmt: bool)
    requires i <= |items| && forall k :: 0 <= k < |items| ==> Printable(items[k])
    ensures ItemsLen(items, i, depth, fmt) <= ItemsLen(items, |items|, depth, fmt)
    decreases |items| - i
  {
    if i < |items| {
      ItemsLenGrows(items, i + 1, depth, fmt);
    }
  }

  // ---------------------------------------------------------------- objects

  predicate Keyed(members: seq<Member>) {
    forall i :: 0 <= i < |members| ==> NulFree(members[i].name) && Printable(members[i].value)
  }

  /** One line of an object, behind the member itself. */
  function LineEnd(last: bool, fmt: bool): string {
    (if last then "" else ",") + NewLine(fmt)
  }

  function FrontMembers(members: seq<Member>, i: nat, depth: nat, fmt: bool): string
    requires i <= |members| && Keyed(members)
    decreases i
  {
    if i == 0 then ""
    else
      FrontMembers(members, i - 1, depth, fmt)
      + (PrintMember(members[i - 1], depth, fmt) + LineEnd(i == |members|, fmt))
  }

  lemma MembersStep(members: seq<Member>, depth: nat, fmt: bool)
    requires Keyed(members) && members != []
    ensures PrintMembers(members, depth, fmt)
      == (PrintMember(members[0], depth, fmt) + LineEnd(|members| == 1, fmt)) + PrintMembers(members[1..], depth, fmt)
  {
    var m, c := PrintMember(members[0], depth, fmt), if |members| > 1 then "," else "";
    Assoc(m, c, NewLine(fmt));
  }

  lemma {:induction false} FrontMembersRest(members: seq<Member>, i: nat, depth: nat, fmt: bool)
    requires i <= |members| && Keyed(members)
    ensures PrintMembers(members, depth, fmt) == FrontMembers(members, i, depth, fmt)
      + PrintMembers(members[i..], depth, fmt)
    decreases i
  {
    hide PrintMember, PrintMembers;
    if i == 0 {
      assert members[0..] == members;
      assert "" + PrintMembers(members, depth, fmt) == PrintMembers(members, depth, fmt);
    } else {
      FrontMembersRest(members, i - 1, depth, fmt);
      var rest := members[i - 1..];
      assert rest[0] == members[i - 1] && rest[1..] == members[i..];
      MembersStep(rest, depth, fmt);
      Assoc(FrontMembers(members, i - 1, depth, fmt), PrintMember(members[i - 1], depth, fmt)
        + LineEnd(i == |members|, fmt),
        PrintMembers(members[i..], depth, fmt));
    }
  }

  lemma FrontMembersAll(members: seq<Member>, depth: nat, fmt: bool)
    requires Keyed(members)
    ensures FrontMembers(members, |members|, depth, fmt) == PrintMembers(members, depth, fmt)
  {
    FrontMembersRest(members, |members|, depth, fmt);
    assert members[|members|..] == [];
  }

  /** What the first loop of print_object has added for the first `i` members. */
  function MembersLen(members: seq<Member>, i: nat, depth: nat, fmt: bool): nat
    requires i <= |members| && Keyed(members)
    decreases i
  {
    if i == 0 then 0
    else
      MembersLen(members, i - 1, depth, fmt) + |Print(members[i - 1].value, depth, fmt)|
      + |PrintString(members[i - 1].name)| + 2 + if fmt then 2 + depth else 0
  }

  lemma MemberLen(m: Member, depth: nat, fmt: bool, last: bool)
    requires NulFree(m.name) && Printable(m.value)
    ensures |PrintMember(m, depth, fmt) + LineEnd(last, fmt)|
      == |Print(m.value, depth, fmt)| + |PrintString(m.name)| + (if last then 1 else 2) + if fmt then 2 + depth else 0
  {}

  lemma {:induction false} FrontMembersFit(members: seq<Member>, i: nat, depth: nat, fmt: bool)
    requires i <= |members| && Keyed(members)
    ensures |FrontMembers(members, i, depth, fmt)| == MembersLen(members, i, depth, fmt) - if i == |members|
      && i > 0 then 1 else 0
    decreases i
  {
    hide PrintMember, LineEnd;
    if i > 0 {
      FrontMembersFit(members, i - 1, depth, fmt);
      MemberLen(members[i - 1], depth, fmt, i == |members|);
    }
  }

  lemma {:induction false} MembersLenGrows(members: seq<Member>, i: nat, depth: nat, fmt: bool)
    requires i <= |members| && Keyed(members)
    ensures MembersLen(members, i, depth, fmt) <= MembersLen(members, |members|, depth, fmt)
    decreases |members| - i
  {
    if i < |members| {
      MembersLenGrows(members, i + 1, depth, fmt);
    }
  }

  // ---------------------------------------------------------------- the sizes

  /** print_array takes as many bytes too many as there are entries, and three, or four with spaces
      between them. */
  lemma ArraySizeIs(items: seq<Json>, depth: nat, fmt: bool)
    requires items != [] && forall k :: 0 <= k < |items| ==> Printable(items[k])
    ensures |Print(Arr(items), depth, fmt)| + 1 + |items| + (if fmt then 4 else 3)
      == 5 + ItemsLen(items, |items|, depth + 1, fmt)
  {
    FrontItemsFit(items, |items|, depth + 1, fmt);
    FrontItemsAll(items, depth + 1, fmt);
  }

  /** print_object takes five bytes too many, at any depth and format. */
  lemma ObjectSizeIs(members: seq<Member>, depth: nat, fmt: bool)
    requires members != [] && Keyed(members)
    ensures |Print(Obj(members), depth, fmt)| + 1 + 5
      == 7 + (if fmt then depth + 1 else 0) + MembersLen(members, |members|, depth + 1, fmt)
  {
    FrontMembersFit(members, |members|, depth + 1, fmt);
    FrontMembersAll(members, depth + 1, fmt);
  }
}
