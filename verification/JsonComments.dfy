/** The minifier on texts with blanks and comments: what it passes over and what it keeps. A text of
    RFC 8259 with comments between its tokens is minified to the same text without anything between
    them, and so to a text that parses to the same value. */
module JsonComments {
  import opened CText
  import opened JsonText
  import opened JsonGrammar
  import JsonUtf8

  /** What a text is made of, as the minifier takes it apart. */
  datatype Piece = Space(c: char) | Line(s: string) | Block(s: string) | Literal(s: string) | Other(c: char)

  /** The characters of a string literal between its quotes: each quote among them stands behind a
      backslash, and no backslash is the last. */
  predicate Inside(s: string) {
    s == ""
    || (s[0] == '\\' && |s| > 1 && Inside(s[2..]))
    || (s[0] != '\\' && s[0] != '\"' && Inside(s[1..]))
  }

  /** The text of a block comment: no `*` in front of a `/`, the one that opens it included. */
  predicate Commentary(s: string) {
    forall i :: 0 <= i < |s| && s[i] == '/' ==> i > 0 && s[i - 1] != '*'
  }

  predicate PieceFits(p: Piece) {
    match p
    case Space(c) => c == ' ' || c == '\t' || c == '\r' || c == '\n'
    case Line(s) => '\n' !in s
    case Block(s) => Commentary(s)
    case Literal(s) => Inside(s)
    case Other(c) => c != ' ' && c != '\t' && c != '\r' && c != '\n' && c != '/' && c != '\"'
  }

  function PieceText(p: Piece): string {
    match p
    case Space(c) => [c]
    case Line(s) => "//" + s + "\n"
    case Block(s) => "/*" + s + "*/"
    case Literal(s) => "\"" + s + "\""
    case Other(c) => [c]
  }

  /** Literals and other characters stay, blanks and comments go. */
  function Kept(p: Piece): string {
    if p.Literal? || p.Other? then PieceText(p) else ""
  }

  function TextOf(ps: seq<Piece>): string {
    if ps == [] then "" else PieceText(ps[0]) + TextOf(ps[1..])
  }

  function KeptOf(ps: seq<Piece>): string {
    if ps == [] then "" else Kept(ps[0]) + KeptOf(ps[1..])
  }

  predicate PiecesFit(ps: seq<Piece>) {
    forall i :: 0 <= i < |ps| ==> PieceFits(ps[i])
  }

  // ---------------------------------------------------------------- one piece

  /** In front of `t`, the text `x` is minified to `y`, and is closed. */
  predicate Goes(x: string, y: string, t: string) {
    Minify(x + t) == y + Minify(t) && (Closed(t) ==> Closed(x + t))
  }

  lemma {:induction false} LineEnds(s: string, t: string)
    requires '\n' !in s
    ensures SkipLine(s + ("\n" + t)) == "\n" + t
  {
    if s == "" {
      assert s + ("\n" + t) == "\n" + t;
    } else {
      assert (s + ("\n" + t))[1..] == s[1..] + ("\n" + t);
      LineEnds(s[1..], t);
    }
  }

  /** A line comment and its line feed are passed over. */
  lemma LineGoes(s: string, t: string)
    requires '\n' !in s
    ensures Goes("//" + s + "\n", "", t)
  {
    hide SkipLine;
    var x := "//" + s + "\n" + t;
    LineEnds("/" + s, t);
    assert x[1..] == "/" + s + ("\n" + t) && ("\n" + t)[1..] == t;
    assert At(x, 1) == '/' && x[0] == '/';
    assert Minify("\n" + t) == Minify(t) && Closed("\n" + t) == Closed(t);
    assert "" + Minify(t) == Minify(t);
  }

  /** A line comment that nothing ends takes the rest of the text. */
  lemma LastLineGoes(s: string)
    requires '\n' !in s
    ensures Minify("//" + s) == "" && Closed("//" + s)
  {
    var x := "//" + s;
    SkipsAll("/" + s);
    assert x[1..] == "/" + s;
  }

  lemma {:induction false} SkipsAll(s: string)
    requires '\n' !in s
    ensures SkipLine(s) == ""
  {
    if s != "" { SkipsAll(s[1..]); }
  }

  /** The search for the end of a block comment that goes on at `s`. */
  lemma {:induction false} BlockEnds(s: string, t: string)
    requires forall i :: 0 <= i < |s| - 1 ==> !(s[i] == '*' && s[i + 1] == '/')
    ensures SkipBlock(s + ("*/" + t)) == "*/" + t
  {
    var x := s + ("*/" + t);
    if s == "" {
      assert x == "*/" + t;
    } else {
      assert x[1..] == s[1..] + ("*/" + t);
      assert At(x, 1) == if |s| > 1 then s[1] else '*';
      BlockEnds(s[1..], t);
    }
  }

  /** A block comment is passed over. */
  lemma BlockGoes(s: string, t: string)
    requires Commentary(s)
    ensures Goes("/*" + s + "*/", "", t)
  {
    hide SkipBlock;
    var x := "/*" + s + "*/" + t;
    assert forall i :: 0 <= i < |s| ==> ("*" + s)[i + 1] == s[i];
    BlockEnds("*" + s, t);
    assert x[1..] == "*" + s + ("*/" + t) && Drop("*/" + t, 2) == t;
    assert At(x, 1) == '*' && x[0] == '/';
    assert "" + Minify(t) == Minify(t);
  }

  lemma {:induction false} LiteralEnds(s: string, t: string)
    requires Inside(s)
    ensures LiteralLen(s + ("\"" + t)) == |s| + 1 && LiteralClosed(s + ("\"" + t))
  {
    var x := s + ("\"" + t);
    if s == "" {
      assert x == "\"" + t;
    } else if s[0] == '\\' {
      assert x[2..] == s[2..] + ("\"" + t);
      LiteralEnds(s[2..], t);
    } else {
      assert x[1..] == s[1..] + ("\"" + t);
      LiteralEnds(s[1..], t);
    }
  }

  /** A string literal stays as it is. */
  lemma LiteralStays(s: string, t: string)
    requires Inside(s)
    ensures Goes("\"" + s + "\"", "\"" + s + "\"", t)
  {
    hide LiteralLen, LiteralClosed;
    var y := "\"" + s + "\"";
    LiteralEnds(s, t);
    assert (y + t)[1..] == s + ("\"" + t);
    assert (y + t)[..|y|] == y && (y + t)[|y|..] == t;
  }

  lemma CharGoes(c: char, t: string)
    requires c != '/' && c != '\"'
    ensures Goes([c], if IsBlank(c) then "" else [c], t)
  {
    assert ([c] + t)[1..] == t;
    assert "" + Minify(t) == Minify(t);
  }

  /** A slash that starts no comment stays. */
  lemma SlashStays(t: string)
    requires Head(t) != '/' && Head(t) != '*'
    ensures Goes("/", "/", t)
  {
    assert ("/" + t)[1..] == t && At("/" + t, 1) == Head(t);
  }

  lemma PieceGoes(p: Piece, t: string)
    requires PieceFits(p)
    ensures Goes(PieceText(p), Kept(p), t)
  {
    hide Goes;
    match p
    case Space(c) => CharGoes(c, t);
    case Line(s) => LineGoes(s, t);
    case Block(s) => BlockGoes(s, t);
    case Literal(s) => LiteralStays(s, t);
    case Other(c) => CharGoes(c, t);
  }

  // ---------------------------------------------------------------- texts

  lemma GoesThen(a: string, y: string, b: string, z: string, t: string)
    requires Goes(a, y, b + t) && Goes(b, z, t)
    ensures Goes(a + b, y + z, t)
  {
    hide Minify, Closed;
    assert a + b + t == a + (b + t);
    assert y + (z + Minify(t)) == y + z + Minify(t);
  }

  lemma NothingGoes(t: string)
    ensures Goes("", "", t)
  {
    hide Minify, Closed;
    assert "" + t == t && "" + Minify(t) == Minify(t);
  }

  /** Any text of such pieces is minified to what is kept of them. */
  lemma {:induction false} PiecesGo(ps: seq<Piece>, t: string)
    requires PiecesFit(ps)
    ensures Goes(TextOf(ps), KeptOf(ps), t)
  {
    hide Goes, PieceFits, PieceText, Kept;
    if ps == [] {
      NothingGoes(t);
    } else {
      PieceGoes(ps[0], TextOf(ps[1..]) + t);
      PiecesGo(ps[1..], t);
      GoesThen(PieceText(ps[0]), Kept(ps[0]), TextOf(ps[1..]), KeptOf(ps[1..]), t);
    }
  }

  lemma MinifyPieces(ps: seq<Piece>)
    requires PiecesFit(ps)
    ensures Minify(TextOf(ps)) == KeptOf(ps) && Closed(TextOf(ps))
  {
    PiecesGo(ps, "");
    assert TextOf(ps) + "" == TextOf(ps) && KeptOf(ps) + "" == KeptOf(ps);
  }

  // ---------------------------------------------------------------- texts of tokens

  /** The text `x` is made of pieces of which `y` is kept. */
  ghost predicate Shrinks(x: string, y: string) {
    exists ps :: PiecesFit(ps) && TextOf(ps) == x && KeptOf(ps) == y
  }

  lemma ShrinksTo(x: string, y: string)
    requires Shrinks(x, y)
    ensures Minify(x) == y && Closed(x)
  {
    var ps :| PiecesFit(ps) && TextOf(ps) == x && KeptOf(ps) == y;
    MinifyPieces(ps);
  }

  lemma {:induction false} Join(ps: seq<Piece>, qs: seq<Piece>)
    ensures TextOf(ps + qs) == TextOf(ps) + TextOf(qs) && KeptOf(ps + qs) == KeptOf(ps) + KeptOf(qs)
  {
    hide PieceText, Kept;
    if ps == [] {
      assert ps + qs == qs;
    } else {
      assert (ps + qs)[1..] == ps[1..] + qs && (ps + qs)[0] == ps[0];
      Join(ps[1..], qs);
    }
  }

  lemma Then(a: string, y: string, b: string, z: string)
    requires Shrinks(a, y) && Shrinks(b, z)
    ensures Shrinks(a + b, y + z)
  {
    hide TextOf, KeptOf, PieceFits;
    var ps :| PiecesFit(ps) && TextOf(ps) == a && KeptOf(ps) == y;
    var qs :| PiecesFit(qs) && TextOf(qs) == b && KeptOf(qs) == z;
    Join(ps, qs);
    assert PiecesFit(ps + qs);
  }

  lemma One(p: Piece)
    requires PieceFits(p)
    ensures Shrinks(PieceText(p), Kept(p))
  {
    hide PieceFits, PieceText, Kept;
    assert [p][1..] == [] && TextOf([]) == "" && KeptOf([]) == "";
    assert PiecesFit([p]) && TextOf([p]) == PieceText(p) && KeptOf([p]) == Kept(p);
  }

  lemma Nothing()
    ensures Shrinks("", "")
  {
    assert PiecesFit([]) && TextOf([]) == "" && KeptOf([]) == "";
  }

  /** Characters outside literals that are kept. */
  predicate Solid(s: string) {
    forall i :: 0 <= i < |s| ==> PieceFits(Other(s[i]))
  }

  lemma {:induction false} SolidStays(s: string)
    requires Solid(s)
    ensures Shrinks(s, s)
  {
    hide Shrinks;
    if s == "" {
      Nothing();
    } else {
      One(Other(s[0]));
      SolidStays(s[1..]);
      Then([s[0]], [s[0]], s[1..], s[1..]);
      assert s == [s[0]] + s[1..];
    }
  }

  lemma {:induction false} DigitsSolid(ds: seq<nat>)
    ensures Solid(SpellDigits(ds))
  {
    if ds != [] { DigitsSolid(ds[1..]); }
  }

  lemma NumberSolid(n: Number)
    requires NumberFits(n)
    ensures Solid(SpellNumber(n))
  {
    DigitsSolid(n.whole);
    DigitsSolid(n.fraction);
    if n.exponent.Exponent? { DigitsSolid(n.exponent.digits); }
  }

  lemma DigitsInside(e: string, n: nat)
    requires JsonUtf8.Digits4(e, n)
    ensures |e| == 4 && forall i :: 0 <= i < 4 ==> e[i] != '\\' && e[i] != '\"'
  {}

  lemma InsideChar(c: char, t: string)
    requires c != '\\' && c != '\"' && Inside(t)
    ensures Inside([c] + t)
  {
    assert ([c] + t)[1..] == t;
  }

  lemma InsideFour(e: string, t: string)
    requires |e| == 4 && (forall i :: 0 <= i < 4 ==> e[i] != '\\' && e[i] != '\"') && Inside(t)
    ensures Inside(e + t)
  {
    hide Inside;
    InsideChar(e[3], t);
    InsideChar(e[2], [e[3]] + t);
    InsideChar(e[1], [e[2]] + ([e[3]] + t));
    InsideChar(e[0], [e[1]] + ([e[2]] + ([e[3]] + t)));
    assert e + t == [e[0]] + ([e[1]] + ([e[2]] + ([e[3]] + t)));
  }

  lemma InsideSlash(c: char, t: string)
    requires Inside(t)
    ensures Inside(['\\', c] + t)
  {
    assert (['\\', c] + t)[2..] == t;
  }

  lemma InsideCode(e: string, uc: nat, t: string)
    requires JsonUtf8.Escapes(e, uc) && Inside(t)
    ensures Inside("\\u" + e + t)
  {
    hide Inside, JsonUtf8.Digits4;
    if uc < 0x10000 {
      DigitsInside(e, uc);
      InsideFour(e, t);
      InsideSlash('u', e + t);
      assert "\\u" + e + t == "\\u" + (e + t);
    } else {
      var a, b := e[..4], e[6..];
      DigitsInside(a, 0xD800 + (uc - 0x10000) / 1024);
      DigitsInside(b, 0xDC00 + (uc - 0x10000) % 1024);
      InsideFour(b, t);
      InsideSlash('u', b + t);
      InsideFour(a, "\\u" + (b + t));
      InsideSlash('u', a + ("\\u" + (b + t)));
      assert e == a + e[4..6] + b;
      assert "\\u" + e + t == "\\u" + (a + ("\\u" + (b + t)));
    }
  }

  lemma InsideCh(ch: Ch, t: string)
    requires ChFits(ch) && Inside(t)
    ensures Inside(SpellCh(ch) + t)
  {
    hide Inside, JsonUtf8.Escapes;
    match ch
    case Raw(c) => InsideChar(c, t);
    case Short(k) => InsideSlash(SHORT[k], t);
    case Code(e, uc) => InsideCode(e, uc, t);
    case Odd(c) => InsideSlash(c, t);
  }

  lemma {:induction false} InsideString(cs: seq<Ch>)
    requires AllFit(cs)
    ensures Inside(SpellChs(cs))
  {
    if cs != [] {
      InsideString(cs[1..]);
      hide Inside, ChFits;
      InsideCh(cs[0], SpellChs(cs[1..]));
    }
  }

  lemma StringStays(cs: seq<Ch>)
    requires AllFit(cs)
    ensures Shrinks(SpellString(cs), SpellString(cs))
  {
    hide Shrinks;
    InsideString(cs);
    One(Literal(SpellChs(cs)));
  }

  // ---------------------------------------------------------------- texts of RFC 8259

  /** Blanks and comments, all of which goes. */
  ghost predicate Silent(g: string) {
    Shrinks(g, "")
  }

  /** A text as the grammar has it, with blanks and comments between its tokens. */
  ghost predicate Commented(t: Text) {
    match t
    case ArrayText(gap, slots) => Silent(gap) && forall i :: 0 <= i < |slots| ==> CommentedSlot(slots[i])
    case ObjectText(gap, entries) => Silent(gap) && forall i :: 0 <= i < |entries| ==> CommentedEntry(entries[i])
    case _ => Fits(t)
  }

  ghost predicate CommentedSlot(s: Slot) {
    Silent(s.before) && Commented(s.value) && Silent(s.after)
  }

  ghost predicate CommentedEntry(e: Entry) {
    Silent(e.before) && AllFit(e.name) && Silent(e.between) && CommentedSlot(e.slot)
  }

  /** The same text without anything between its tokens. */
  function Bare(t: Text): Text {
    match t
    case ArrayText(_, slots) => ArrayText("", BareSlots(slots))
    case ObjectText(_, entries) => ObjectText("", BareEntries(entries))
    case _ => t
  }

  function BareSlot(s: Slot): Slot
    decreases s, 1
  {
    Slot("", Bare(s.value), "")
  }

  function BareSlots(slots: seq<Slot>): (r: seq<Slot>)
    ensures |r| == |slots|
    decreases slots, 0
  {
    if slots == [] then [] else [BareSlot(slots[0])] + BareSlots(slots[1..])
  }

  function BareEntry(e: Entry): Entry
    decreases e, 2
  {
    Entry("", e.name, "", BareSlot(e.slot))
  }

  function BareEntries(entries: seq<Entry>): (r: seq<Entry>)
    ensures |r| == |entries|
    decreases entries, 0
  {
    if entries == [] then [] else [BareEntry(entries[0])] + BareEntries(entries[1..])
  }

  lemma Enclose(a: string, x: string, y: string, b: string)
    requires Solid(a) && Solid(b) && Shrinks(x, y)
    ensures Shrinks(a + x + b, a + y + b)
  {
    hide Shrinks;
    SolidStays(a);
    SolidStays(b);
    Then(a, a, x, y);
    Then(a + x, a + y, b, b);
  }

  /** Minifying takes everything between the tokens away. */
  lemma {:induction false} TextShrinks(t: Text)
    requires Commented(t)
    ensures Shrinks(Spell(t), Spell(Bare(t)))
    decreases t, 1
  {
    hide Shrinks;
    match t
    case NullText => SolidStays("null");
    case FalseText => SolidStays("false");
    case TrueText => SolidStays("true");
    case NumberText(n) =>
      NumberSolid(n);
      SolidStays(SpellNumber(n));
    case StringText(cs) => StringStays(cs);
    case ArrayText(gap, slots) =>
      if slots == [] {
        Enclose("[", gap, "", "]");
      } else {
        SlotsShrink(slots);
        Enclose("[", SpellSlots(slots), SpellSlots(BareSlots(slots)), "]");
      }
    case ObjectText(gap, entries) =>
      if entries == [] {
        Enclose("{", gap, "", "}");
      } else {
        EntriesShrink(entries);
        Enclose("{", SpellEntries(entries), SpellEntries(BareEntries(entries)), "}");
      }
  }

  lemma Surround(a: string, x: string, y: string, b: string)
    requires Silent(a) && Silent(b) && Shrinks(x, y)
    ensures Shrinks(a + x + b, "" + y + "")
  {
    hide Shrinks;
    Then(a, "", x, y);
    Then(a + x, "" + y, b, "");
  }

  lemma {:induction false} SlotShrinks(s: Slot)
    requires CommentedSlot(s)
    ensures Shrinks(SpellSlot(s), SpellSlot(BareSlot(s)))
    decreases s, 2
  {
    hide Shrinks, Spell, Bare, Silent;
    TextShrinks(s.value);
    Surround(s.before, Spell(s.value), Spell(Bare(s.value)), s.after);
  }

  lemma {:induction false} SlotsShrink(slots: seq<Slot>)
    requires slots != [] && forall i :: 0 <= i < |slots| ==> CommentedSlot(slots[i])
    ensures Shrinks(SpellSlots(slots), SpellSlots(BareSlots(slots)))
    decreases slots, 0
  {
    hide Shrinks, CommentedSlot, SpellSlot, BareSlot;
    assert CommentedSlot(slots[0]);
    SlotShrinks(slots[0]);
    var x, y := SpellSlot(slots[0]), SpellSlot(BareSlot(slots[0]));
    if |slots| == 1 {
      assert x + "" == x && y + "" == y;
    } else {
      SlotsShrink(slots[1..]);
      Enclose("", x, y, ",");
      assert "" + x + "," == x + "," && "" + y + "," == y + ",";
      var xs, ys := SpellSlots(slots[1..]), SpellSlots(BareSlots(slots[1..]));
      Then(x + ",", y + ",", xs, ys);
      assert x + ("," + xs) == x + "," + xs && y + ("," + ys) == y + "," + ys;
    }
  }

  lemma Named(b: string, name: string, m: string, x: string, y: string)
    requires Silent(b) && Shrinks(name, name) && Silent(m) && Shrinks(x, y)
    ensures Shrinks(b + name + m + ":" + x, "" + name + "" + ":" + y)
  {
    hide Shrinks;
    Surround(b, name, name, m);
    SolidStays(":");
    Then(b + name + m, "" + name + "", ":", ":");
    Then(b + name + m + ":", "" + name + "" + ":", x, y);
  }

  lemma {:induction false} EntryShrinks(e: Entry)
    requires CommentedEntry(e)
    ensures Shrinks(SpellEntry(e), SpellEntry(BareEntry(e)))
    decreases e, 3
  {
    hide Shrinks, Silent, CommentedSlot, SpellSlot, BareSlot, SpellString;
    SlotShrinks(e.slot);
    StringStays(e.name);
    Named(e.before, SpellString(e.name), e.between, SpellSlot(e.slot), SpellSlot(BareSlot(e.slot)));
  }

  lemma {:induction false} EntriesShrink(entries: seq<Entry>)
    requires entries != [] && forall i :: 0 <= i < |entries| ==> CommentedEntry(entries[i])
    ensures Shrinks(SpellEntries(entries), SpellEntries(BareEntries(entries)))
    decreases entries, 0
  {
    hide Shrinks, CommentedEntry, SpellEntry, BareEntry;
    assert CommentedEntry(entries[0]);
    EntryShrinks(entries[0]);
    var x, y := SpellEntry(entries[0]), SpellEntry(BareEntry(entries[0]));
    if |entries| == 1 {
      assert x + "" == x && y + "" == y;
    } else {
      EntriesShrink(entries[1..]);
      Enclose("", x, y, ",");
      assert "" + x + "," == x + "," && "" + y + "," == y + ",";
      var xs, ys := SpellEntries(entries[1..]), SpellEntries(BareEntries(entries[1..]));
      Then(x + ",", y + ",", xs, ys);
      assert x + ("," + xs) == x + "," + xs && y + ("," + ys) == y + "," + ys;
    }
  }

  // ---------------------------------------------------------------- what it still means

  lemma {:induction false} BareFits(t: Text)
    requires Commented(t)
    ensures Fits(Bare(t)) && Denotes(Bare(t)) == Denotes(t)
    decreases t, 1
  {
    match t
    case ArrayText(_, slots) =>
      SlotsBare(slots);
    case ObjectText(_, entries) =>
      EntriesBare(entries);
    case _ =>
  }

  lemma {:induction false} SlotsBare(slots: seq<Slot>)
    requires forall i :: 0 <= i < |slots| ==> CommentedSlot(slots[i])
    ensures forall i :: 0 <= i < |slots| ==> SlotFits(BareSlots(slots)[i])
    ensures ItemsOf(BareSlots(slots)) == ItemsOf(slots)
    decreases slots, 0
  {
    hide Silent, Denotes;
    if slots != [] {
      assert CommentedSlot(slots[0]);
      BareFits(slots[0].value);
      SlotsBare(slots[1..]);
      assert BareSlots(slots)[1..] == BareSlots(slots[1..]);
    }
  }

  lemma {:induction false} EntryBare(e: Entry)
    requires CommentedEntry(e)
    ensures EntryFits(BareEntry(e)) && MemberOf(BareEntry(e)) == MemberOf(e)
    decreases e, 2
  {
    hide Silent, BytesOfAll, AllFit;
    BareFits(e.slot.value);
  }

  lemma {:induction false} EntriesBare(entries: seq<Entry>)
    requires forall i :: 0 <= i < |entries| ==> CommentedEntry(entries[i])
    ensures forall i :: 0 <= i < |entries| ==> EntryFits(BareEntries(entries)[i])
    ensures MembersOf(BareEntries(entries)) == MembersOf(entries)
    decreases entries, 0
  {
    hide CommentedEntry, EntryFits, BareEntry, MemberOf;
    if entries != [] {
      assert CommentedEntry(entries[0]);
      EntryBare(entries[0]);
      EntriesBare(entries[1..]);
      assert BareEntries(entries)[1..] == BareEntries(entries[1..]);
    }
  }

  /** Blanks and comments between the tokens of a text, in front of it and behind it: minified it is the
      text without them, and parses to what the text denotes. */
  lemma MinifyText(before: string, t: Text, after: string)
    requires Silent(before) && Commented(t) && Silent(after)
    ensures Minify(before + Spell(t) + after) == Spell(Bare(t)) && Closed(before + Spell(t) + after)
    ensures ParseWithOpts(Spell(Bare(t)), true) == Ok(Denotes(t), "")
  {
    hide Shrinks, ParseWithOpts, Silent, Minify, Closed, Spell;
    TextShrinks(t);
    Surround(before, Spell(t), Spell(Bare(t)), after);
    assert "" + Spell(Bare(t)) + "" == Spell(Bare(t));
    ShrinksTo(before + Spell(t) + after, Spell(Bare(t)));
    BareFits(t);
    TextParses("", Bare(t), "");
    assert "" + (Spell(Bare(t)) + "") == Spell(Bare(t));
  }

  // ---------------------------------------------------------------- terminators

  lemma {:induction false} SkipsNoNul(s: string)
    requires NoNul(s)
    ensures NoNul(SkipLine(s)) && NoNul(SkipBlock(s))
  {
    if s != "" { SkipsNoNul(s[1..]); }
  }

  /** Minifying puts no terminator into a text. */
  lemma {:induction false} MinifyNoNul(s: string)
    requires NoNul(s)
    ensures NoNul(Minify(s))
    decreases |s|
  {
    hide SkipLine, SkipBlock, LiteralLen;
    if s != "" {
      MinifyNoNul(s[1..]);
      SkipsNoNul(s[1..]);
      MinifyNoNul(SkipLine(s[1..]));
      MinifyNoNul(Drop(SkipBlock(s[1..]), 2));
      MinifyNoNul(s[1 + LiteralLen(s[1..])..]);
    }
  }
}
