/** The printers, the parser and the minifier together, on trees in memory and on buffers. */
module JsonWhole {
  import opened CText
  import opened JsonText
  import opened JsonTree
  import opened JsonList
  import JsonSizes
  import JsonRoundTrip
  import JsonMinify
  import Grammar = JsonGrammar
  import Comments = JsonComments
  import Printer = JsonPrinter
  import Parser = JsonParser
  import Minifier = JsonMinifyLoop

  /** What the parser builds for a printable value is an item that prints as that value. */
  lemma {:induction false} MeansTyped(sh: Shape, v: Json)
    requires Parser.Means(sh, v) && Printable(v)
    ensures Printer.Typed(sh) && Printer.ValueOf(sh) == v
    decreases v
  {
    match v
    case Arr(items) =>
      hide Printer.Typed, Printer.ValueOf;
      forall i: nat | i < |items| ensures Printer.Typed(sh.kids[i]) && Printer.ValueOf(sh.kids[i]) == items[i] {
        MeansTyped(sh.kids[i], items[i]);
      }
      ArrayValue(sh, items);
    case Obj(members) =>
      hide Printer.Typed, Printer.ValueOf;
      forall i: nat | i < |members|
        ensures Binds(sh.kids[i], members[i])
      {
        MeansTyped(sh.kids[i], members[i].value);
      }
      ObjectValue(sh, members);
    case _ =>
      hide Printer.HasName;
      Leaf(sh, v);
  }

  lemma ArrayValue(sh: Shape, items: seq<Json>)
    requires sh.data.kind == CJSON_ARRAY && |sh.kids| == |items|
    requires forall i: nat :: i < |items| ==> Printer.Typed(sh.kids[i]) && Printer.ValueOf(sh.kids[i]) == items[i]
    ensures Printer.Typed(sh) && Printer.ValueOf(sh) == Arr(items)
  {
    assert Printer.ValueOf(sh).items == items;
  }

  ghost predicate Binds(k: Shape, m: Member) {
    && Printer.Typed(k) && Printer.HasName(k.data)
    && k.data.name.value == m.name && Printer.ValueOf(k) == m.value
  }

  lemma ObjectValue(sh: Shape, members: seq<Member>)
    requires sh.data.kind == CJSON_OBJECT && |sh.kids| == |members|
    requires forall i: nat :: i < |members| ==> Binds(sh.kids[i], members[i])
    ensures Printer.Typed(sh) && Printer.ValueOf(sh) == Obj(members)
  {
    assert Printer.ValueOf(sh).members == members;
  }

  lemma Leaf(sh: Shape, v: Json)
    requires Parser.Means(sh, v) && Printable(v) && !v.Arr? && !v.Obj?
    ensures Printer.Typed(sh) && Printer.ValueOf(sh) == v
  {}

  /** Printing a tree and parsing the text builds a new tree of the same value, and uses up the text. */
  method PrintAndParse(item: Item, fmt: bool, ghost sh: Shape) returns (c: Item?, ghost copy: Shape)
    requires Laid(sh) && sh.node == item && Printer.Typed(sh)
    ensures c != null && copy.node == c && Laid(copy) && Apart(copy) && fresh(Nodes(copy)) && Laid(sh)
    ensures Printer.Typed(copy) && Printer.ValueOf(copy) == Printer.ValueOf(sh)
  {
    hide Inside, Apart, Nodes, Print, ParseWithOpts, Printer.ValueOf, Printer.Typed, Parser.Means;
    ghost var v := Printer.ValueOf(sh);
    AllAllocated(sh);
    var out := Printer.PrintValue(item, 0, fmt, sh);
    var n := Printer.StrLen(out, Print(v, 0, fmt));
    var text := out[..n];
    assert text == Print(v, 0, fmt);
    JsonRoundTrip.RoundTrip(v, fmt, true);
    var parseEnd, ep;
    c, parseEnd, ep, copy := Parser.ParseWithOptions(text, true);
    MeansTyped(copy, v);
  }

  /** Printing with line breaks and minifying the buffer in place gives the print without them. */
  method PrintAndMinify(item: Item, depth: nat, ghost sh: Shape) returns (out: array<char>)
    requires Laid(sh) && sh.node == item && Printer.Typed(sh)
    ensures Printer.Holds(out[..], Print(Printer.ValueOf(sh), depth, false))
  {
    hide Inside, Nodes, Print, Minify, Closed, Printer.ValueOf, Printer.Typed;
    ghost var v := Printer.ValueOf(sh);
    out := Printer.PrintValue(item, depth, true, sh);
    ghost var text := Print(v, depth, true);
    JsonMinify.MinifyPrint(v, depth, depth, true);
    JsonSizes.PrintNoNul(v, depth, false);
    ghost var n := Minifier.MinifyInPlace(out, |text|);
    Printer.HoldsIf(out[..], Print(v, depth, false));
  }

  /** A text of RFC 8259 becomes a new tree of the value it denotes. */
  method ParseText(text: string, ghost before: string, ghost t: Grammar.Text, ghost after: string)
    returns (c: Item?, ghost sh: Shape)
    requires NoNul(text) && text == before + (Grammar.Spell(t) + after)
    requires Grammar.Gap(before) && Grammar.Fits(t) && Grammar.Gap(after)
    ensures c != null && Parser.Filled(sh, c, Grammar.Denotes(t)) && fresh(Nodes(sh))
  {
    hide Parser.Filled, Nodes, Grammar.Spell, Grammar.Fits, Grammar.Gap, Grammar.Denotes, ParseWithOpts;
    Grammar.TextParses(before, t, after);
    var parseEnd, ep;
    c, parseEnd, ep, sh := Parser.ParseWithOptions(text, true);
  }

  /** Minified in place, a text with blanks and comments between its tokens is the text without them, and
      becomes a new tree of the value it denotes. */
  method MinifyAndParse(buf: array<char>, ghost end: nat, ghost before: string, ghost t: Grammar.Text,
                        ghost after: string)
    returns (c: Item?, ghost sh: Shape)
    requires Minifier.Unread(buf[..], buf[..], 0, end) && buf[..end] == before + Grammar.Spell(t) + after
    requires Comments.Silent(before) && Comments.Commented(t) && Comments.Silent(after)
    modifies buf
    ensures Printer.Holds(buf[..], Grammar.Spell(Comments.Bare(t)))
    ensures c != null && Parser.Filled(sh, c, Grammar.Denotes(t)) && fresh(Nodes(sh))
  {
    hide Parser.Filled, Nodes, Grammar.Spell, Grammar.Denotes, ParseWithOpts, Minify, Closed;
    hide Comments.Silent, Comments.Commented, Comments.Bare;
    ghost var x := Grammar.Spell(Comments.Bare(t));
    Comments.MinifyText(before, t, after);
    Comments.MinifyNoNul(buf[..end]);
    ghost var n := Minifier.MinifyInPlace(buf, end);
    Printer.HoldsIf(buf[..], x);
    var k := Printer.StrLen(buf, x);
    var text := buf[..k];
    assert text == x;
    var parseEnd, ep;
    c, parseEnd, ep, sh := Parser.ParseWithOptions(text, true);
  }
}
