/** Commands as they may be written: fields in quotes, with any character behind a backslash and anything
    behind the closing quote, and bare ones, with any run of commas and brackets between them. What
    argv gets of such a command is said for every length, and where it leaves the buffers. */
module ParamGrammar {
  import opened CText
  import opened ParseParam

  /** A character between quotes: itself, or behind a backslash. */
  datatype Ch = Raw(c: char) | Slashed(c: char)

  datatype Item = InQuotes(cs: seq<Ch>, junk: string) | Plain(text: string)

  /** An item with the delimiters in front of it. */
  datatype Part = Part(run: string, item: Item)

  /** A command: its parts, the delimiters behind the last of them, and a quote that nothing follows. */
  datatype Command = Command(parts: seq<Part>, run: string, quote: bool)

  predicate IsRun(s: string) {
    forall i :: 0 <= i < |s| ==> Delim(s[i])
  }

  predicate Free(s: string) {
    forall i :: 0 <= i < |s| ==> !Delim(s[i])
  }

  predicate ChFits(ch: Ch) {
    ch.c != '\0' && (ch.Raw? ==> ch.c != '"' && ch.c != '\\')
  }

  predicate ItemFits(it: Item) {
    match it
    case InQuotes(cs, junk) => (forall i :: 0 <= i < |cs| ==> ChFits(cs[i])) && Free(junk) && NoNul(junk)
    case Plain(t) => t != "" && t[0] != '"' && Free(t) && NoNul(t)
  }

  predicate PartFits(p: Part) {
    IsRun(p.run) && ItemFits(p.item)
  }

  /** Delimiters stand between any two items. */
  predicate Fits(cmd: Command) {
    && (forall i :: 0 <= i < |cmd.parts| ==> PartFits(cmd.parts[i]) && (i > 0 ==> cmd.parts[i].run != ""))
    && IsRun(cmd.run) && (cmd.quote && cmd.parts != [] ==> cmd.run != "")
  }

  /** The parts fit, and what stands behind them. */
  predicate AllFit(parts: seq<Part>, end: Command) {
    Fits(end.(parts := parts))
  }

  // ---------------------------------------------------------------- how it is written

  function SpellCh(ch: Ch): string {
    if ch.Raw? then [ch.c] else ['\\', ch.c]
  }

  function SpellChs(cs: seq<Ch>): string {
    if cs == [] then "" else SpellCh(cs[0]) + SpellChs(cs[1..])
  }

  function SpellItem(it: Item): string {
    match it
    case InQuotes(cs, junk) => "\"" + SpellChs(cs) + "\"" + junk
    case Plain(t) => t
  }

  function SpellParts(parts: seq<Part>): string {
    if parts == [] then "" else parts[0].run + SpellItem(parts[0].item) + SpellParts(parts[1..])
  }

  function SpellEnd(cmd: Command): string {
    cmd.run + if cmd.quote then "\"" else ""
  }

  function Spell(cmd: Command): string {
    SpellParts(cmd.parts) + SpellEnd(cmd)
  }

  // ---------------------------------------------------------------- what it means

  /** How many empty fields a run of delimiters shows: one between two commas. */
  function Gaps(run: string): nat {
    if |run| < 2 then 0 else (if run[0] == ',' && run[1] == ',' then 1 else 0) + Gaps(run[1..])
  }

  function Chars(cs: seq<Ch>): (s: string)
    ensures |s| == |cs|
  {
    seq(|cs|, i requires 0 <= i < |cs| => cs[i].c)
  }

  function Value(it: Item): string {
    match it
    case InQuotes(cs, _) => Chars(cs)
    case Plain(t) => t
  }

  /** Null pointers in front. */
  function Nulls(n: nat, more: Args): Args {
    match more
    case None => None
    case Some(r) => Some(seq(n, _ => Null) + r)
  }

  /** What argv gets from its place `argc` on: a null pointer for each gap, and the value of each item. The
      last that argv has room for ends it, and runs on to the end of the command if it is not in quotes.
      None if a pointer would be written behind argv, or a quoted text behind the buffer it is collected in. */
  function Meant(parts: seq<Part>, end: Command, argc: nat): Args
    decreases |parts|
  {
    if parts == [] then
      if argc + Gaps(end.run) > MAX_ARGC then None else Nulls(Gaps(end.run), Some([]))
    else
      var n, it := argc + Gaps(parts[0].run), parts[0].item;
      var behind := SpellParts(parts[1..]) + SpellEnd(end);
      if n >= MAX_ARGC || (it.InQuotes? && |SpellChs(it.cs)| > BUFLEN) then None
      else
        var value := if n + 1 == MAX_ARGC && it.Plain? then it.text + behind else Value(it);
        Nulls(Gaps(parts[0].run),
          Cons(Str(value), if n + 1 == MAX_ARGC then Some([]) else Meant(parts[1..], end, n + 1)))
  }

  // ---------------------------------------------------------------- the splitting of it

  lemma {:induction false} UnquoteChs(cs: seq<Ch>, rest: string)
    requires forall i :: 0 <= i < |cs| ==> ChFits(cs[i])
    ensures Unquote(SpellChs(cs) + ("\"" + rest)) == Some((Chars(cs), |SpellChs(cs)|))
  {
    hide ChFits, SpellChs, Unquote, Chars;
    var q := "\"" + rest;
    if cs == [] {
      NoChs(q);
    } else {
      var t := SpellChs(cs[1..]) + q;
      UnquoteChs(cs[1..], rest);
      ChsSplit(cs, q);
      UnquoteOne(cs[0], t);
      CharsSplit(cs);
    }
  }

  lemma NoChs(q: string)
    requires q != "" && q[0] == '\"'
    ensures Unquote(SpellChs([]) + q) == Some((Chars([]), |SpellChs([])|))
  {
    assert SpellChs([]) + q == q;
  }

  lemma CharsSplit(cs: seq<Ch>)
    requires cs != []
    ensures Chars(cs) == [cs[0].c] + Chars(cs[1..])
  {}

  lemma ChsSplit(cs: seq<Ch>, q: string)
    requires cs != []
    ensures SpellChs(cs) + q == SpellCh(cs[0]) + (SpellChs(cs[1..]) + q)
    ensures |SpellChs(cs)| == |SpellCh(cs[0])| + |SpellChs(cs[1..])|
  {}

  lemma UnquoteOne(ch: Ch, t: string)
    requires ChFits(ch)
    ensures Unquote(SpellCh(ch) + t) == Push(ch.c, |SpellCh(ch)|, Unquote(t))
  {
    var e := SpellCh(ch);
    assert (e + t)[|e|..] == t;
  }

  lemma {:induction false} RunStep(run: string, rest: string, argc: nat)
    requires IsRun(run) && (rest == "" || !Delim(rest[0])) && argc <= MAX_ARGC
    ensures Inner(run + rest, argc)
      == if argc + Gaps(run) > MAX_ARGC then None else Nulls(Gaps(run), Inner(rest, argc + Gaps(run)))
  {
    if run == "" {
      assert run + rest == rest;
      NoNulls(Inner(rest, argc));
    } else {
      var more := run[1..];
      var gap := |run| > 1 && run[0] == ',' && run[1] == ',';
      assert Gaps(run) == Gaps(more) + if gap then 1 else 0;
      InnerDelim(run, rest, argc);
      if !gap || argc < MAX_ARGC {
        RunStep(more, rest, if gap then argc + 1 else argc);
        hide Inner, Gaps, Delim, Nulls, Cons;
        if argc + Gaps(run) <= MAX_ARGC {
          OneMore(Gaps(more), Inner(rest, argc + Gaps(run)));
        }
        assert Cons(Null, None) == None by { ConsNone(); }
      }
    }
  }

  lemma ConsNone()
    ensures Cons(Null, None) == None
  {}

  lemma InnerDelim(run: string, rest: string, argc: nat)
    requires IsRun(run) && run != "" && (rest == "" || !Delim(rest[0]))
    ensures Inner(run + rest, argc)
      == if |run| > 1 && run[0] == ',' && run[1] == ',' then
           (if argc >= MAX_ARGC then None else Cons(Null, Inner(run[1..] + rest, argc + 1)))
         else Inner(run[1..] + rest, argc)
  {
    hide Unquote, FieldLen, Outer, Cons;
    var s := run + rest;
    assert s[1..] == run[1..] + rest && s[0] == run[0];
    assert At(s, 1) == ',' <==> |run| > 1 && run[1] == ',';
  }

  lemma NoNulls(r: Args)
    ensures Nulls(0, r) == r
  {
    if r.Some? { assert seq(0, _ => Null) + r.value == r.value; }
  }

  lemma OneMore(n: nat, r: Args)
    ensures Cons(Null, Nulls(n, r)) == Nulls(n + 1, r)
  {
    if r.Some? {
      var a: seq<Arg>, b: seq<Arg> := seq(n, _ => Null), seq(n + 1, _ => Null);
      assert [Null] + (a + r.value) == b + r.value;
    }
  }

  lemma JunkEnds(junk: string, rest: string)
    requires Free(junk) && (rest == "" || Delim(rest[0]))
    ensures var t := junk + rest; t[FieldLen(t)..] == rest
  {
    FieldLenIs(junk, rest);
  }

  lemma InnerQuoted(s: string, u: string, n: nat, t: string, rest: string, argc: nat)
    requires |s| > 1 && s[0] == '\"' && Unquote(s[1..]) == Some((u, n))
    requires s[n + 2..] == t && t[FieldLen(t)..] == rest
    ensures Inner(s, argc) == if argc >= MAX_ARGC || n > BUFLEN then None else Cons(Str(u), Outer(rest, argc + 1))
  {
    hide Unquote, FieldLen, Outer;
  }

  lemma QuotedItem(cs: seq<Ch>, junk: string, rest: string, argc: nat)
    requires ItemFits(InQuotes(cs, junk)) && (rest == "" || Delim(rest[0]))
    ensures Inner(SpellItem(InQuotes(cs, junk)) + rest, argc)
      == if argc >= MAX_ARGC || |SpellChs(cs)| > BUFLEN then None else Cons(Str(Chars(cs)), Outer(rest, argc + 1))
  {
    hide Unquote, FieldLen, Outer, Inner, ChFits, SpellChs, Chars;
    var s := SpellItem(InQuotes(cs, junk)) + rest;
    UnquoteChs(cs, junk + rest);
    JunkEnds(junk, rest);
    QuotedSplit(SpellChs(cs), junk, rest);
    InnerQuoted(s, Chars(cs), |SpellChs(cs)|, junk + rest, rest, argc);
  }

  lemma QuotedSplit(body: string, junk: string, rest: string)
    ensures var s := "\"" + body + "\"" + junk + rest;
      |s| > 1 && s[0] == '\"' && s[1..] == body + ("\"" + (junk + rest)) && s[|body| + 2..] == junk + rest
  {}

  lemma PlainItem(t: string, rest: string, argc: nat)
    requires ItemFits(Plain(t)) && (rest == "" || Delim(rest[0])) && argc <= MAX_ARGC
    ensures Inner(t + rest, argc)
      == if argc >= MAX_ARGC then None
         else Cons(Str(if argc + 1 == MAX_ARGC then t + rest else t), Outer(rest, argc + 1))
  {
    hide Unquote, FieldLen, Outer;
    var s := t + rest;
    FieldLenIs(t, rest);
    assert s[..|t|] == t && s[|t|..] == rest && s[0] == t[0] && s != "\"";
  }

  lemma OneItem(it: Item, rest: string, argc: nat)
    requires ItemFits(it) && (rest == "" || Delim(rest[0])) && argc <= MAX_ARGC
    ensures SpellItem(it) != "" && !Delim(SpellItem(it)[0])
    ensures Inner(SpellItem(it) + rest, argc)
      == if argc >= MAX_ARGC || (it.InQuotes? && |SpellChs(it.cs)| > BUFLEN) then None
         else
           Cons(Str(if argc + 1 == MAX_ARGC && it.Plain? then it.text + rest else Value(it)), Outer(rest, argc + 1))
  {
    hide Inner, Outer;
    match it
    case InQuotes(cs, junk) => QuotedItem(cs, junk, rest, argc);
    case Plain(t) => PlainItem(t, rest, argc);
  }

  /** What stands behind an item: nothing, or a delimiter. */
  lemma BehindItem(parts: seq<Part>, end: Command)
    requires AllFit(parts, end) && parts != []
    ensures var rest := SpellParts(parts[1..]) + SpellEnd(end); rest == "" || Delim(rest[0])
    ensures AllFit(parts[1..], end) && PartFits(parts[0])
  {
    hide ItemFits;
    var more := parts[1..];
    assert forall i :: 0 <= i < |more| ==> more[i] == parts[i + 1];
    if more != [] {
      assert PartFits(more[0]) && more[0].run != "";
      assert SpellParts(more)[0] == more[0].run[0];
    }
  }

  lemma OuterIs(s: string, argc: nat)
    ensures Outer(s, argc) == if s == "" || argc >= MAX_ARGC then Some([]) else Inner(s, argc)
  {}

  lemma EndMeant(end: Command, argc: nat)
    requires AllFit([], end) && argc < MAX_ARGC
    ensures Outer(SpellParts([]) + SpellEnd(end), argc) == Meant([], end, argc)
  {
    assert "" + SpellEnd(end) == SpellEnd(end);
    var rest := if end.quote then "\"" else "";
    RunStep(end.run, rest, argc);
    assert Inner(rest, argc + Gaps(end.run)) == Some([]);
    OuterIs(SpellEnd(end), argc);
    hide Inner, Outer;
    if SpellEnd(end) == "" {
      NoNulls(Some([]));
    }
  }

  lemma PartsSplit(parts: seq<Part>, end: Command)
    requires parts != []
    ensures SpellParts(parts) + SpellEnd(end)
         == parts[0].run + (SpellItem(parts[0].item) + (SpellParts(parts[1..]) + SpellEnd(end)))
  {
    hide SpellItem, SpellEnd;
  }

  lemma ItemFirst(it: Item, rest: string)
    requires SpellItem(it) != "" && !Delim(SpellItem(it)[0])
    ensures var s := SpellItem(it) + rest; s != "" && !Delim(s[0])
  {}

  /** What an item gives, in front of what the rest does. */
  function First(p: Part, behind: string, argc: nat, more: Args): Args {
    var n := argc + Gaps(p.run);
    if n >= MAX_ARGC || (p.item.InQuotes? && |SpellChs(p.item.cs)| > BUFLEN) then None
    else
      Nulls(Gaps(p.run),
        Cons(Str(if n + 1 == MAX_ARGC && p.item.Plain? then p.item.text + behind else Value(p.item)), more))
  }

  lemma MeantStep(parts: seq<Part>, end: Command, argc: nat)
    requires parts != []
    ensures var n, behind := argc + Gaps(parts[0].run), SpellParts(parts[1..]) + SpellEnd(end);
      Meant(parts, end, argc) == First(parts[0], behind, argc,
        if n + 1 >= MAX_ARGC then Some([]) else Meant(parts[1..], end, n + 1))
  {
    hide Gaps, SpellParts, SpellEnd, SpellChs, Value, Nulls, Cons;
  }

  lemma OnePart(p: Part, behind: string, argc: nat)
    requires PartFits(p) && (behind == "" || Delim(behind[0])) && argc < MAX_ARGC
    ensures var s := p.run + (SpellItem(p.item) + behind);
      Outer(s, argc) == First(p, behind, argc, Outer(behind, argc + Gaps(p.run) + 1))
  {
    hide Inner, Outer, ItemFits, SpellItem, SpellChs, Value, Gaps, Delim, Cons;
    var n := argc + Gaps(p.run);
    OneItem(p.item, behind, if n <= MAX_ARGC then n else 1);
    ItemFirst(p.item, behind);
    RunStep(p.run, SpellItem(p.item) + behind, argc);
    OuterIs(p.run + (SpellItem(p.item) + behind), argc);
  }

  /** argv gets of any command what it means. */
  lemma {:induction false} SplitParts(parts: seq<Part>, end: Command, argc: nat)
    requires AllFit(parts, end) && argc < MAX_ARGC
    ensures Outer(SpellParts(parts) + SpellEnd(end), argc) == Meant(parts, end, argc)
    decreases |parts|
  {
    hide AllFit, PartFits, SpellItem, SpellEnd, SpellParts, Gaps, Delim, Meant, First, Inner, Outer;
    if parts == [] {
      EndMeant(end, argc);
    } else {
      BehindItem(parts, end);
      var p, behind := parts[0], SpellParts(parts[1..]) + SpellEnd(end);
      var n := argc + Gaps(p.run);
      PartsSplit(parts, end);
      OnePart(p, behind, argc);
      OuterIs(behind, n + 1);
      MeantStep(parts, end, argc);
      if n + 1 < MAX_ARGC {
        SplitParts(parts[1..], end, n + 1);
      }
    }
  }

  lemma SplitCommand(cmd: Command)
    requires Fits(cmd)
    ensures Outer(Spell(cmd), 1) == Meant(cmd.parts, cmd, 1)
  {
    assert cmd.(parts := cmd.parts) == cmd;
    SplitParts(cmd.parts, cmd, 1);
  }

  // ---------------------------------------------------------------- short commands

  /** The items and the gaps between them, as long as argv has room. */
  function ArgsOf(parts: seq<Part>, run: string): seq<Arg> {
    if parts == [] then seq(Gaps(run), _ => Null)
    else seq(Gaps(parts[0].run), _ => Null) + [Str(Value(parts[0].item))] + ArgsOf(parts[1..], run)
  }

  predicate Collected(parts: seq<Part>) {
    forall i :: 0 <= i < |parts| && parts[i].item.InQuotes? ==> |SpellChs(parts[i].item.cs)| <= BUFLEN
  }

  lemma NullsInFront(n: nat, a: Arg, more: seq<Arg>)
    ensures Nulls(n, Cons(a, Some(more))) == Some(seq(n, _ => Null) + [a] + more)
  {
    var ns: seq<Arg> := seq(n, _ => Null);
    assert ns + ([a] + more) == ns + [a] + more;
  }

  lemma {:induction false} ShortMeant(parts: seq<Part>, end: Command, argc: nat)
    requires argc + |ArgsOf(parts, end.run)| < MAX_ARGC && Collected(parts)
    ensures Meant(parts, end, argc) == Some(ArgsOf(parts, end.run))
    decreases |parts|
  {
    hide Value, Gaps, Nulls, Cons, SpellChs;
    if parts == [] {
      NoArgsMeant(end, argc);
    } else {
      var k, v := Gaps(parts[0].run), Str(Value(parts[0].item));
      var more := ArgsOf(parts[1..], end.run);
      MeantStep(parts, end, argc);
      hide Meant;
      assert |ArgsOf(parts, end.run)| == k + 1 + |more|;
      ShortMeant(parts[1..], end, argc + k + 1);
      NullsInFront(k, v, more);
    }
  }

  lemma NoArgsMeant(end: Command, argc: nat)
    requires argc + Gaps(end.run) < MAX_ARGC
    ensures Meant([], end, argc) == Some(ArgsOf([], end.run))
  {
    var ns: seq<Arg> := seq(Gaps(end.run), _ => Null);
    assert ns + [] == ns;
  }

  /** Of a command with ten arguments or less, argv gets each item and each gap, whatever delimiters stand
      between them. */
  lemma SplitShort(cmd: Command)
    requires Fits(cmd) && Collected(cmd.parts) && |ArgsOf(cmd.parts, cmd.run)| + 1 < MAX_ARGC
    ensures Outer(Spell(cmd), 1) == Some(ArgsOf(cmd.parts, cmd.run))
  {
    SplitCommand(cmd);
    ShortMeant(cmd.parts, cmd, 1);
  }

  // ---------------------------------------------------------------- terminators

  lemma {:induction false} ChsNoNul(cs: seq<Ch>)
    requires forall i :: 0 <= i < |cs| ==> ChFits(cs[i])
    ensures NoNul(SpellChs(cs))
  {
    if cs != [] {
      assert ChFits(cs[0]);
      ChsNoNul(cs[1..]);
    }
  }

  lemma ItemNoNul(it: Item)
    requires ItemFits(it)
    ensures NoNul(SpellItem(it))
  {
    if it.InQuotes? {
      ChsNoNul(it.cs);
      hide SpellChs;
    }
  }

  lemma {:induction false} PartsNoNul(parts: seq<Part>)
    requires forall i :: 0 <= i < |parts| ==> PartFits(parts[i])
    ensures NoNul(SpellParts(parts))
  {
    if parts != [] {
      assert PartFits(parts[0]);
      ItemNoNul(parts[0].item);
      PartsNoNul(parts[1..]);
      assert NoNul(parts[0].run);
      hide SpellItem, PartFits;
    }
  }

  lemma CommandNoNul(cmd: Command)
    requires Fits(cmd)
    ensures NoNul(Spell(cmd))
  {
    PartsNoNul(cmd.parts);
    assert NoNul(cmd.run);
    hide SpellParts;
  }
}
