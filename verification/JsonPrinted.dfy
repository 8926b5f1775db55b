/** Both prints of a tree are texts of RFC 8259 that denote the tree. With blanks and comments put
    between its tokens the unformatted one is still minified to itself. */
module JsonPrinted {
  import opened CText
  import opened JsonText
  import opened JsonGrammar
  import opened JsonComments
  import JsonUtf8

  // ---------------------------------------------------------------- strings

  /** How a byte is spelled in a print: the control characters and the two special ones are escaped. */
  function ChOf(c: char): Ch {
    if c == '\"' then Short(0)
    else if c == '\\' then Short(1)
    else if c == BS then Short(3)
    else if c == FF then Short(4)
    else if c == '\n' then Short(5)
    else if c == '\r' then Short(6)
    else if c == '\t' then Short(7)
    else if c as int < 32 then
      Code(['0', '0', "0123456789abcdef"[c as int / 16], "0123456789abcdef"[c as int % 16]], c as nat)
    else Raw(c)
  }

  function ChsOf(s: string): seq<Ch> {
    if s == "" then [] else [ChOf(s[0])] + ChsOf(s[1..])
  }

  lemma CharPrinted(c: char)
    requires 0 < c as int < 256
    ensures ChFits(ChOf(c)) && SpellCh(ChOf(c)) == EscapeChar(c) && BytesOf(ChOf(c)) == [c]
  {
    hide JsonUtf8.Escapes;
    if ChOf(c).Code? {
      ControlFits(c as nat);
      ControlDigits(c);
    }
  }

  lemma NibbleOf(k: nat)
    requires k < 16
    ensures JsonUtf8.Nibble("0123456789abcdef"[k], k) && "0123456789abcdef"[k] == HexDigit(k)
  {}

  lemma ControlFits(n: nat)
    requires 0 < n < 32
    ensures JsonUtf8.Escapes(['0', '0', "0123456789abcdef"[n / 16], "0123456789abcdef"[n % 16]], n)
  {
    NibbleOf(0);
    NibbleOf(n / 16);
    NibbleOf(n % 16);
    hide JsonUtf8.Nibble;
    assert n / 4096 == 0 && n / 256 % 16 == 0 && n / 16 % 16 == n / 16;
  }

  lemma ControlDigits(c: char)
    requires 0 < c as int < 32 && ChOf(c).Code?
    ensures SpellCh(ChOf(c)) == EscapeChar(c) && EncodeUtf8(c as nat) == [c]
  {
    NibbleOf(c as nat / 16);
    NibbleOf(c as nat % 16);
    hide JsonUtf8.Nibble, HexDigit;
  }

  lemma {:induction false} CharsPrinted(s: string)
    requires NulFree(s)
    ensures AllFit(ChsOf(s)) && SpellChs(ChsOf(s)) == Escape(s) && BytesOfAll(ChsOf(s)) == s
  {
    if s != "" {
      CharPrinted(s[0]);
      hide ChOf, ChFits, SpellCh, EscapeChar, BytesOf;
      CharsPrinted(s[1..]);
    }
  }

  // ---------------------------------------------------------------- numbers

  function DecOf(n: nat): seq<nat> {
    if n < 10 then [n] else DecOf(n / 10) + [n % 10]
  }

  lemma {:induction false} SpellLast(ds: seq<nat>, d: nat)
    ensures SpellDigits(ds + [d]) == SpellDigits(ds) + [DigitChar(d)]
  {
    hide DigitChar;
    if ds == [] {
      assert ds + [d] == [d] && [d][1..] == [];
    } else {
      assert (ds + [d])[1..] == ds[1..] + [d];
      SpellLast(ds[1..], d);
    }
  }

  lemma SameDigit(d: nat)
    requires d < 10
    ensures DigitChar(d) == Digit(d)
  {}

  lemma {:induction false} DecPrinted(n: nat)
    ensures var ds := DecOf(n);
      AreDigits(ds) && ds != [] && (n > 0 ==> ds[0] != 0) && (n < 10 ==> |ds| == 1)
      && SpellDigits(ds) == Dec(n) && ValueOf(ds) == n
  {
    var ds := DecOf(n);
    SameDigit(n % 10);
    hide DigitChar;
    SpellLast(if n < 10 then [] else DecOf(n / 10), n % 10);
    if n >= 10 {
      DecPrinted(n / 10);
      assert ds[..|ds| - 1] == DecOf(n / 10);
    } else {
      assert ds == [] + [n] && SpellDigits([]) == "" && ValueOf([]) == 0;
    }
  }

  function NumberOf(n: int): Number {
    Number(n < 0, DecOf(if n < 0 then -n else n), [], NoExponent)
  }

  lemma IntPrinted(n: int)
    ensures NumberFits(NumberOf(n)) && SpellNumber(NumberOf(n)) == PrintInt(n)
    ensures NumberValue(NumberOf(n)) == n as real
  {
    hide DecOf, Dec, ValueOf, SpellDigits, TenTo;
    DecPrinted(if n < 0 then -n else n);
    NoFraction();
  }

  lemma NoFraction()
    ensures ValueOf([]) == 0 && TenTo(0) == 1.0
  {}

  // ---------------------------------------------------------------- values

  /** The print of `v` as a text of the grammar: with `fmt` a blank behind each comma of an array, each
      member of an object on a line of its own, and a tab behind its colon. */
  function Printed(v: Json, depth: nat, fmt: bool): Text
    decreases v, 1
  {
    match v
    case Null => NullText
    case False => FalseText
    case True => TrueText
    case Num(d) => NumberText(NumberOf(d.Floor))
    case Str(s) => StringText(ChsOf(s))
    case Arr(items) => ArrayText("", PrintedItems("", items, depth + 1, fmt))
    case Obj(members) =>
      ObjectText(NewLine(fmt) + Tabs(fmt, depth - 1), PrintedMembers(members, depth + 1, fmt))
  }

  function PrintedItems(before: string, items: seq<Json>, depth: nat, fmt: bool): (r: seq<Slot>)
    ensures |r| == |items|
    decreases items, 0
  {
    if items == [] then []
    else
      [Slot(before, Printed(items[0], depth, fmt), "")]
      + PrintedItems(if fmt then " " else "", items[1..], depth, fmt)
  }

  function PrintedMember(m: Member, last: bool, depth: nat, fmt: bool): Entry
    decreases m, 2
  {
    var after := if last then NewLine(fmt) + Tabs(fmt, depth - 1) else "";
    Entry(NewLine(fmt) + Tabs(fmt, depth), ChsOf(m.name), "",
      Slot(if fmt then "\t" else "", Printed(m.value, depth, fmt), after))
  }

  function PrintedMembers(members: seq<Member>, depth: nat, fmt: bool): (r: seq<Entry>)
    ensures |r| == |members|
    decreases members, 0
  {
    if members == [] then []
    else [PrintedMember(members[0], |members| == 1, depth, fmt)] + PrintedMembers(members[1..], depth, fmt)
  }

  lemma Layout(fmt: bool, n: int)
    ensures Gap(NewLine(fmt) + Tabs(fmt, n)) && Gap(if fmt then " " else "") && Gap(if fmt then "\t" else "")
  {}

  predicate AllPrintable(items: seq<Json>) {
    forall i :: 0 <= i < |items| ==> Printable(items[i])
  }

  predicate MembersPrintable(members: seq<Member>) {
    forall i :: 0 <= i < |members| ==> NulFree(members[i].name) && Printable(members[i].value)
  }

  ghost predicate IsText(v: Json, depth: nat, fmt: bool)
    requires Printable(v)
  {
    var t := Printed(v, depth, fmt);
    Fits(t) && Spell(t) == Print(v, depth, fmt) && Denotes(t) == v
  }

  /** Every print is a text of RFC 8259, and denotes the tree. */
  lemma {:induction false} PrintIsText(v: Json, depth: nat, fmt: bool)
    requires Printable(v)
    ensures var t := Printed(v, depth, fmt); Fits(t) && Spell(t) == Print(v, depth, fmt) && Denotes(t) == v
    decreases v, 1
  {
    match v
    case Arr(items) => ArrayIsText(items, depth, fmt);
    case Obj(members) => ObjectIsText(members, depth, fmt);
    case Num(d) => NumberIsText(d, depth, fmt);
    case Str(x) => StringIsText(x, depth, fmt);
    case _ => WordIsText(v, depth, fmt);
    assert IsText(v, depth, fmt);
    hide Printable, Printed, Fits, Spell, Print, Denotes;
  }

  lemma NumberIsText(d: real, depth: nat, fmt: bool)
    requires Printable(Num(d))
    ensures IsText(Num(d), depth, fmt)
  {
    hide NumberFits, SpellNumber, NumberValue, PrintInt, NumberOf;
    IntPrinted(d.Floor);
  }

  lemma StringIsText(x: string, depth: nat, fmt: bool)
    requires Printable(Str(x))
    ensures IsText(Str(x), depth, fmt)
  {
    hide AllFit, SpellChs, Escape, BytesOfAll, ChsOf;
    CharsPrinted(x);
    var t := Printed(Str(x), depth, fmt);
    assert Spell(t) == SpellString(ChsOf(x));
  }

  lemma WordIsText(v: Json, depth: nat, fmt: bool)
    requires v.Null? || v.False? || v.True?
    ensures IsText(v, depth, fmt)
  {}

  lemma {:induction false} ArrayIsText(items: seq<Json>, depth: nat, fmt: bool)
    requires Printable(Arr(items))
    ensures IsText(Arr(items), depth, fmt)
    decreases items, 2
  {
    hide SlotFits, SpellSlots, ItemsOf;
    assert AllPrintable(items);
    ItemsFit("", items, depth + 1, fmt);
    if items != [] { ItemsSpell("", items, depth + 1, fmt); }
    ArrayFits("", PrintedItems("", items, depth + 1, fmt));
    ArraySpelled(items, depth, fmt);
  }

  lemma ArraySpelled(items: seq<Json>, depth: nat, fmt: bool)
    requires Printable(Arr(items))
    requires var slots := PrintedItems("", items, depth + 1, fmt);
      slots != [] ==> SpellSlots(slots) == "" + PrintItems(items, depth + 1, fmt)
    ensures Spell(Printed(Arr(items), depth, fmt)) == Print(Arr(items), depth, fmt)
  {
    hide PrintedItems, SpellSlots;
    assert AllPrintable(items);
    var p := PrintItems(items, depth + 1, fmt);
    assert "" + p == p;
  }

  lemma {:induction false} ObjectIsText(members: seq<Member>, depth: nat, fmt: bool)
    requires Printable(Obj(members))
    ensures IsText(Obj(members), depth, fmt)
    decreases members, 3
  {
    hide EntryFits, SpellEntries, MembersOf;
    assert MembersPrintable(members);
    MembersFit(members, depth + 1, fmt);
    if members != [] { MembersSpell(members, depth + 1, fmt); }
    Layout(fmt, depth - 1);
    ObjectFits(NewLine(fmt) + Tabs(fmt, depth - 1), PrintedMembers(members, depth + 1, fmt));
    ObjectSpelled(members, depth, fmt);
  }

  lemma ObjectSpelled(members: seq<Member>, depth: nat, fmt: bool)
    requires Printable(Obj(members))
    requires var entries := PrintedMembers(members, depth + 1, fmt);
      members != [] ==>
        SpellEntries(entries) == NewLine(fmt) + PrintMembers(members, depth + 1, fmt) + Tabs(fmt, depth)
    ensures Spell(Printed(Obj(members), depth, fmt)) == Print(Obj(members), depth, fmt)
  {
    hide PrintedMembers, SpellEntries, NewLine, Tabs;
    assert MembersPrintable(members);
    if members == [] {
      Braces(NewLine(fmt), "", Tabs(fmt, depth - 1), NewLine(fmt) + Tabs(fmt, depth - 1));
    } else {
      var entries := PrintedMembers(members, depth + 1, fmt);
      Braces(NewLine(fmt), PrintMembers(members, depth + 1, fmt), Tabs(fmt, depth), SpellEntries(entries));
    }
  }

  lemma Braces(nl: string, x: string, tabs: string, y: string)
    requires y == nl + x + tabs
    ensures "{" + y + "}" == "{" + nl + x + tabs + "}"
    ensures x == "" ==> "{" + y + "}" == "{" + nl + tabs + "}"
  {}

  lemma MoreSlots(s: Slot, rest: seq<Slot>)
    requires SlotFits(s) && forall i :: 0 <= i < |rest| ==> SlotFits(rest[i])
    ensures var slots := [s] + rest;
      && (forall i :: 0 <= i < |slots| ==> SlotFits(slots[i]))
      && ItemsOf(slots) == [Denotes(s.value)] + ItemsOf(rest)
      && SpellSlots(slots) == SpellSlot(s) + if rest == [] then "" else "," + SpellSlots(rest)
  {
    hide SlotFits, SpellSlot, Denotes;
    assert ([s] + rest)[1..] == rest;
  }

  lemma {:induction false} ItemIsText(before: string, v: Json, depth: nat, fmt: bool)
    requires Printable(v) && Gap(before)
    ensures var s := Slot(before, Printed(v, depth, fmt), "");
      SlotFits(s) && Denotes(s.value) == v && SpellSlot(s) == before + Print(v, depth, fmt) + ""
    decreases v, 2
  {
    PrintIsText(v, depth, fmt);
    Empty();
    hide Fits, Gap, Spell, Print, Denotes, Printed, Printable;
  }

  lemma ItemsSplit(before: string, items: seq<Json>, depth: nat, fmt: bool)
    requires AllPrintable(items) && items != []
    ensures PrintedItems(before, items, depth, fmt)
         == [Slot(before, Printed(items[0], depth, fmt), "")]
            + PrintedItems(if fmt then " " else "", items[1..], depth, fmt)
    ensures AllPrintable(items[1..]) && Printable(items[0])
    ensures PrintItems(items, depth, fmt)
         == if |items| == 1 then Print(items[0], depth, fmt)
            else Print(items[0], depth, fmt) + (if fmt then ", " else ",") + PrintItems(items[1..], depth, fmt)
  {
    hide Print, Printed, Printable;
  }

  lemma {:induction false} ItemsFit(before: string, items: seq<Json>, depth: nat, fmt: bool)
    requires AllPrintable(items) && Gap(before)
    ensures var slots := PrintedItems(before, items, depth, fmt);
      (forall i :: 0 <= i < |slots| ==> SlotFits(slots[i])) && ItemsOf(slots) == items
    decreases items, 0
  {
    if items != [] {
      ItemsSplit(before, items, depth, fmt);
      hide AllPrintable, Gap, Print, Denotes, Printed, Printable, SlotFits, SpellSlots, SpellSlot, ItemsOf, PrintItems;
      hide PrintedItems;
      var blank := if fmt then " " else "";
      Layout(fmt, 0);
      ItemIsText(before, items[0], depth, fmt);
      ItemsFit(blank, items[1..], depth, fmt);
      MoreSlots(Slot(before, Printed(items[0], depth, fmt), ""), PrintedItems(blank, items[1..], depth, fmt));
    }
  }

  lemma {:induction false} ItemsSpell(before: string, items: seq<Json>, depth: nat, fmt: bool)
    requires AllPrintable(items) && Gap(before) && items != []
    ensures SpellSlots(PrintedItems(before, items, depth, fmt)) == before + PrintItems(items, depth, fmt)
    decreases items, 1
  {
    ItemsSplit(before, items, depth, fmt);
    hide AllPrintable, Gap, Print, Denotes, Printed, Printable, SlotFits, SpellSlots, SpellSlot, ItemsOf, PrintItems;
    hide PrintedItems;
    var blank := if fmt then " " else "";
    Layout(fmt, 0);
    ItemIsText(before, items[0], depth, fmt);
    ItemsFit(blank, items[1..], depth, fmt);
    var s, rest := Slot(before, Printed(items[0], depth, fmt), ""), PrintedItems(blank, items[1..], depth, fmt);
    MoreSlots(s, rest);
    if |items| == 1 {
      ItemsSpelled(before, Print(items[0], depth, fmt), SpellSlot(s), "", "", fmt);
    } else {
      ItemsSpell(blank, items[1..], depth, fmt);
      ItemsSpelled(before, Print(items[0], depth, fmt), SpellSlot(s), PrintItems(items[1..], depth, fmt),
        SpellSlots(rest), fmt);
    }
  }

  lemma ItemsSpelled(before: string, p: string, x: string, q: string, y: string, fmt: bool)
    requires x == before + p + ""
    ensures x + "" == before + p
    ensures y == (if fmt then " " else "") + q ==> x + ("," + y) == before + (p + (if fmt then ", " else ",") + q)
  {
    if y == (if fmt then " " else "") + q {
      ItemsJoin(before, p, if fmt then " " else "", q, if fmt then ", " else ",");
    }
  }

  lemma ItemsJoin(before: string, p: string, blank: string, q: string, comma: string)
    requires comma == "," + blank
    ensures before + p + "" + ("," + (blank + q)) == before + (p + comma + q)
  {}

  /** A member up to what stands behind its value. */
  lemma {:induction false} MemberIsText(m: Member, last: bool, depth: nat, fmt: bool)
    requires NulFree(m.name) && Printable(m.value)
    ensures var e := PrintedMember(m, last, depth, fmt);
      EntryFits(e) && MemberOf(e) == m
      && SpellEntry(e) == NewLine(fmt) + PrintMember(m, depth, fmt)
                          + if last then NewLine(fmt) + Tabs(fmt, depth - 1) else ""
    decreases m, 2
  {
    PrintIsText(m.value, depth, fmt);
    CharsPrinted(m.name);
    Layout(fmt, depth);
    Layout(fmt, depth - 1);
    hide Fits, Gap, Spell, Print, Denotes, Printed, AllFit, BytesOfAll, SpellChs, Escape, ChsOf, NewLine, Tabs;
    assert Gap("") by { Layout(false, 0); Empty(); }
    MemberJoin(NewLine(fmt), Tabs(fmt, depth), PrintString(m.name), if fmt then "\t" else "",
      if fmt then ":\t" else ":", Print(m.value, depth, fmt), if last then NewLine(fmt) + Tabs(fmt, depth - 1) else "");
  }

  lemma Empty()
    ensures Gap("")
  {}

  lemma MemberJoin(nl: string, tabs: string, name: string, tab: string, colon: string, p: string, after: string)
    requires colon == ":" + tab
    ensures nl + tabs + name + "" + ":" + (tab + p + after) == nl + (tabs + name + colon + p) + after
  {}

  lemma MoreEntries(e: Entry, rest: seq<Entry>)
    requires EntryFits(e) && forall i :: 0 <= i < |rest| ==> EntryFits(rest[i])
    ensures var entries := [e] + rest;
      && (forall i :: 0 <= i < |entries| ==> EntryFits(entries[i]))
      && MembersOf(entries) == [MemberOf(e)] + MembersOf(rest)
      && SpellEntries(entries) == SpellEntry(e) + if rest == [] then "" else "," + SpellEntries(rest)
  {
    hide EntryFits, SpellEntry, MemberOf;
    assert ([e] + rest)[1..] == rest;
  }

  lemma MembersSplit(members: seq<Member>, depth: nat, fmt: bool)
    requires MembersPrintable(members) && members != []
    ensures PrintedMembers(members, depth, fmt)
         == [PrintedMember(members[0], |members| == 1, depth, fmt)] + PrintedMembers(members[1..], depth, fmt)
    ensures MembersPrintable(members[1..]) && NulFree(members[0].name) && Printable(members[0].value)
    ensures PrintMembers(members, depth, fmt)
         == PrintMember(members[0], depth, fmt) + (if |members| > 1 then "," else "") + NewLine(fmt)
            + PrintMembers(members[1..], depth, fmt)
    ensures PrintMembers([], depth, fmt) == ""
  {
    hide PrintMember, PrintedMember, Printable, NewLine;
  }

  lemma {:induction false} MembersFit(members: seq<Member>, depth: nat, fmt: bool)
    requires MembersPrintable(members) && depth > 0
    ensures var entries := PrintedMembers(members, depth, fmt);
      (forall i :: 0 <= i < |entries| ==> EntryFits(entries[i])) && MembersOf(entries) == members
    decreases members, 0
  {
    if members != [] {
      MembersSplit(members, depth, fmt);
      hide MembersPrintable, Printable, EntryFits, MemberOf, SpellEntry, PrintMember, PrintedMember, NewLine, Tabs;
      hide SpellEntries, MembersOf, PrintMembers, PrintedMembers;
      MemberIsText(members[0], |members| == 1, depth, fmt);
      MembersFit(members[1..], depth, fmt);
      MoreEntries(PrintedMember(members[0], |members| == 1, depth, fmt), PrintedMembers(members[1..], depth, fmt));
    }
  }

  lemma {:induction false} MembersSpell(members: seq<Member>, depth: nat, fmt: bool)
    requires MembersPrintable(members) && depth > 0 && members != []
    ensures SpellEntries(PrintedMembers(members, depth, fmt))
         == NewLine(fmt) + PrintMembers(members, depth, fmt) + Tabs(fmt, depth - 1)
    decreases members, 1
  {
    MembersSplit(members, depth, fmt);
    hide MembersPrintable, Printable, EntryFits, MemberOf, SpellEntry, PrintMember, PrintedMember, NewLine, Tabs;
    hide SpellEntries, MembersOf, PrintMembers, PrintedMembers;
    var last := |members| == 1;
    MemberIsText(members[0], last, depth, fmt);
    MembersFit(members[1..], depth, fmt);
    MoreEntries(PrintedMember(members[0], last, depth, fmt), PrintedMembers(members[1..], depth, fmt));
    var p, nl, tabs := PrintMember(members[0], depth, fmt), NewLine(fmt), Tabs(fmt, depth - 1);
    if last {
      MembersEnd(nl, p, tabs);
    } else {
      MembersSpell(members[1..], depth, fmt);
      MembersJoin(nl, p, PrintMembers(members[1..], depth, fmt), tabs);
    }
  }

  lemma MembersEnd(nl: string, p: string, tabs: string)
    ensures nl + p + (nl + tabs) + "" == nl + (p + "" + nl + "") + tabs
  {}

  lemma MembersJoin(nl: string, p: string, q: string, tabs: string)
    ensures nl + p + "" + ("," + (nl + q + tabs)) == nl + (p + "," + nl + q) + tabs
  {}

  // ---------------------------------------------------------------- blanks and comments in a print

  lemma {:induction false} BarePrinted(v: Json, depth: nat, depth': nat, fmt: bool)
    ensures Bare(Printed(v, depth, fmt)) == Printed(v, depth', false)
    decreases v, 1
  {
    match v
    case Arr(items) => BareItems("", items, depth + 1, depth' + 1, fmt);
    case Obj(members) => BareMembers(members, depth + 1, depth' + 1, fmt);
    case _ =>
  }

  lemma {:induction false} BareItems(before: string, items: seq<Json>, depth: nat, depth': nat, fmt: bool)
    ensures BareSlots(PrintedItems(before, items, depth, fmt)) == PrintedItems("", items, depth', false)
    decreases items, 0
  {
    if items != [] {
      BarePrinted(items[0], depth, depth', fmt);
      BareItems(if fmt then " " else "", items[1..], depth, depth', fmt);
      hide Bare, Printed;
    }
  }

  lemma {:induction false} BareMember(m: Member, last: bool, depth: nat, depth': nat, fmt: bool)
    ensures BareEntry(PrintedMember(m, last, depth, fmt)) == PrintedMember(m, last, depth', false)
    decreases m, 2
  {
    BarePrinted(m.value, depth, depth', fmt);
    assert "" + "" == "";
    hide Bare, Printed, ChsOf;
  }

  lemma {:induction false} BareMembers(members: seq<Member>, depth: nat, depth': nat, fmt: bool)
    ensures BareEntries(PrintedMembers(members, depth, fmt)) == PrintedMembers(members, depth', false)
    decreases members, 0
  {
    if members != [] {
      BareMember(members[0], |members| == 1, depth, depth', fmt);
      BareMembers(members[1..], depth, depth', fmt);
      hide BareEntry, PrintedMember;
    }
  }

  /** A print with any blanks and comments put between its tokens is minified to the unformatted print. */
  lemma MinifyCommented(before: string, t: Text, after: string, v: Json, depth: nat, depth': nat, fmt: bool)
    requires Silent(before) && Commented(t) && Silent(after) && Printable(v)
    requires Bare(t) == Bare(Printed(v, depth, fmt))
    ensures Minify(before + Spell(t) + after) == Print(v, depth', false) && Closed(before + Spell(t) + after)
  {
    hide Silent, Commented, Printable, Minify, Closed, Spell, Bare, Printed, Print, Fits, Denotes;
    BarePrinted(v, depth, depth', fmt);
    PrintIsText(v, depth', false);
    MinifyText(before, t, after);
  }
}
