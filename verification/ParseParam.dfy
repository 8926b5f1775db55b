/** Splitting the arguments of an AT command in place: fields behind commas and brackets, quoted
    fields with backslash escapes. */
module ParseParam {
  import opened CText

  const MAX_ARGC: nat := 12
  const BUFLEN: nat := 64

  /** An entry of argv: a null pointer, or a pointer to a C string. */
  datatype Arg = Null | Str(text: string)

  type Args = Option<seq<Arg>>

  predicate Delim(c: char) {
    c == ',' || c == '[' || c == ']'
  }

  function Cons(a: Arg, rest: Args): Args {
    match rest
    case None => None
    case Some(r) => Some([a] + r)
  }

  /** The text of a quoted field up to its closing quote, with the escapes undone, and how many bytes
      it takes. None when the quote or an escape is cut off by the end of the command. */
  function Unquote(s: string): (r: Option<(string, nat)>)
    ensures r.Some? ==> |r.value.0| <= r.value.1 < |s|
  {
    if s == "" then None
    else if s[0] == '"' then Some(("", 0))
    else if s[0] != '\\' then Push(s[0], 1, Unquote(s[1..]))
    else if |s| == 1 then None
    else Push(s[1], 2, Unquote(s[2..]))
  }

  function Push(c: char, k: nat, r: Option<(string, nat)>): Option<(string, nat)> {
    if r.None? then None else Some(([c] + r.value.0, r.value.1 + k))
  }

  /** How far it is to the next delimiter. */
  function FieldLen(s: string): (n: nat)
    ensures n <= |s| && (n < |s| ==> Delim(s[n]))
    ensures forall i :: 0 <= i < n ==> !Delim(s[i])
  {
    if s == "" || Delim(s[0]) then 0 else 1 + FieldLen(s[1..])
  }

  /** What the rest of the command adds to argv, once the outer loop is entered; None where the code
      would leave its buffers. */
  function Inner(s: string, argc: nat): Args
    decreases |s|, 0
  {
    if s == "" then Some([])
    else if Delim(s[0]) then
      if s[0] == ',' && At(s, 1) == ',' then
        if argc >= MAX_ARGC then None else Cons(Null, Inner(s[1..], argc + 1))
      else Inner(s[1..], argc)
    else if s == "\"" then Some([])
    else if argc >= MAX_ARGC then None
    else if s[0] == '"' then
      match Unquote(s[1..])
      case None => None
      case Some((u, n)) =>
        if n > BUFLEN then None
        else
          var t := s[n + 2..];
          Cons(Str(u), Outer(t[FieldLen(t)..], argc + 1))
    else
      var n := FieldLen(s);
      Cons(Str(if argc + 1 == MAX_ARGC then s else s[..n]), Outer(s[n..], argc + 1))
  }

  function Outer(s: string, argc: nat): Args
    decreases |s|, 1
  {
    if s == "" || argc >= MAX_ARGC then Some([]) else Inner(s, argc)
  }

  // ---------------------------------------------------------------- writing a command

  datatype Field = Empty | Quoted(text: string) | Bare(text: string)

  function EscapeChar(c: char): string {
    if c == '"' || c == '\\' then ['\\', c] else [c]
  }

  function Escape(s: string): string {
    if s == "" then ""
    else EscapeChar(s[0]) + Escape(s[1..])
  }

  function Text(f: Field): string {
    match f
    case Empty => ""
    case Quoted(t) => "\"" + Escape(t) + "\""
    case Bare(t) => t
  }

  function JoinTail(fs: seq<Field>): string {
    if fs == [] then "" else "," + Text(fs[0]) + JoinTail(fs[1..])
  }

  /** The fields with commas between them. */
  function Join(fs: seq<Field>): string {
    if fs == [] then "" else Text(fs[0]) + JoinTail(fs[1..])
  }

  predicate Fits(f: Field) {
    match f
    case Empty => true
    case Quoted(t) => NulFree(t) && |Escape(t)| <= BUFLEN
    case Bare(t) => NulFree(t) && t != "" && t[0] != '"' && forall i :: 0 <= i < |t| ==> !Delim(t[i])
  }

  function ArgOf(f: Field): Arg {
    if f.Empty? then Null else Str(f.text)
  }

  function ArgsOf(fs: seq<Field>): (r: seq<Arg>)
    ensures |r| == |fs| && forall i :: 0 <= i < |fs| ==> r[i] == ArgOf(fs[i])
  {
    seq(|fs|, i requires 0 <= i < |fs| => ArgOf(fs[i]))
  }

  /** What comes back: an empty field is seen by the second of two commas, so a command that ends with
      one loses it, and so does one that starts with one. */
  function KeptTail(fs: seq<Field>): seq<Arg> {
    if fs == [] || fs == [Empty] then [] else [ArgOf(fs[0])] + KeptTail(fs[1..])
  }

  function Kept(fs: seq<Field>): seq<Arg> {
    if fs == [] then []
    else if fs[0].Empty? then KeptTail(fs[1..])
    else [ArgOf(fs[0])] + KeptTail(fs[1..])
  }

  lemma KeptStep(fs: seq<Field>)
    ensures fs == [] || fs == [Empty] ==> KeptTail(fs) == []
    ensures fs != [] && fs != [Empty] ==> KeptTail(fs) == [ArgOf(fs[0])] + KeptTail(fs[1..])
  {}

  lemma ArgsStep(f: Field, fs: seq<Field>)
    ensures ArgsOf([f] + fs) == [ArgOf(f)] + ArgsOf(fs)
  {}

  /** All but the last. */
  function Front(fs: seq<Field>): seq<Field>
    requires fs != []
  {
    fs[..|fs| - 1]
  }

  predicate Trailing(fs: seq<Field>) {
    fs != [] && fs[|fs| - 1].Empty?
  }

  lemma {:induction false} KeptTailIs(fs: seq<Field>)
    ensures KeptTail(fs) == if Trailing(fs) then ArgsOf(Front(fs)) else ArgsOf(fs)
  {
    hide ArgsOf, KeptTail;
    KeptStep(fs);
    NoArgs();
    if |fs| == 1 {
      assert fs == [fs[0]] + [] && Front(fs) == [];
      KeptStep([]);
      ArgsStep(fs[0], []);
    } else if |fs| > 1 {
      var rest := fs[1..];
      KeptTailIs(rest);
      assert Front(fs) == [fs[0]] + Front(rest) && fs == [fs[0]] + rest;
      ArgsStep(fs[0], rest);
      ArgsStep(fs[0], Front(rest));
    }
  }

  lemma NoArgs()
    ensures ArgsOf([]) == []
  {}

  /** Every field comes back, the empty ones as null pointers, if and only if the first and the last
      are not empty. */
  lemma KeptAll(fs: seq<Field>)
    ensures Kept(fs) == ArgsOf(fs) <==> fs == [] || (!fs[0].Empty? && !fs[|fs| - 1].Empty?)
  {
    hide KeptTail;
    if fs != [] {
      var rest := fs[1..];
      KeptTailIs(rest);
      assert fs == [fs[0]] + rest;
      ArgsStep(fs[0], rest);
      assert Trailing(rest) <==> |fs| > 1 && fs[|fs| - 1].Empty?;
      assert |fs| > 1 && Trailing(rest) ==> |Kept(fs)| < |fs|;
    }
  }

  lemma {:induction false} UnquoteEscaped(s: string, q: string)
    requires NulFree(s) && q != "" && q[0] == '"'
    ensures Unquote(Escape(s) + q) == Some((s, |Escape(s)|))
  {
    hide Unquote, Escape, EscapeChar;
    EscapeStep(s);
    if s == "" {
      assert Escape(s) + q == q;
      UnquoteEnd(q);
    } else {
      var c, t := EscapeChar(s[0]), Escape(s[1..]);
      UnquoteEscaped(s[1..], q);
      UnquoteStep(s[0], t + q, s[1..], |t|);
      assert (c + t) + q == c + (t + q);
    }
  }

  lemma EscapeStep(s: string)
    ensures if s == "" then Escape(s) == "" else Escape(s) == EscapeChar(s[0]) + Escape(s[1..]) && s == [s[0]] + s[1..]
  {}

  lemma UnquoteEnd(q: string)
    requires q != "" && q[0] == '"'
    ensures Unquote(q) == Some(("", 0))
  {}

  lemma UnquoteStep(c: char, t: string, u: string, n: nat)
    requires Unquote(t) == Some((u, n))
    ensures Unquote(EscapeChar(c) + t) == Some(([c] + u, n + |EscapeChar(c)|))
  {
    var e := EscapeChar(c);
    assert (e + t)[|e|..] == t;
  }

  lemma {:induction false} FieldLenIs(t: string, rest: string)
    requires forall i :: 0 <= i < |t| ==> !Delim(t[i])
    requires rest == "" || Delim(rest[0])
    ensures FieldLen(t + rest) == |t|
  {
    if t == "" {
      assert t + rest == rest;
    } else {
      FieldLenIs(t[1..], rest);
      assert (t + rest)[1..] == t[1..] + rest;
    }
  }

  lemma CommaStep(rest: string, argc: nat)
    ensures Inner("," + rest, argc) ==
      if rest != "" && rest[0] == ',' then (if argc >= MAX_ARGC then None else Cons(Null, Inner(rest, argc + 1)))
      else Inner(rest, argc)
  {
    hide Unquote, FieldLen, Outer;
    var s := "," + rest;
    assert s[1..] == rest;
  }

  lemma QuotedStep(body: string, u: string, rest: string, argc: nat)
    requires Unquote(body + "\"" + rest) == Some((u, |body|)) && |body| <= BUFLEN && argc < MAX_ARGC
    requires rest == "" || Delim(rest[0])
    ensures Inner("\"" + body + "\"" + rest, argc) == Cons(Str(u), Outer(rest, argc + 1))
  {
    hide Unquote, FieldLen, Outer;
    var s := "\"" + body + "\"" + rest;
    assert s[1..] == body + "\"" + rest;
    assert s[|body| + 2..] == rest;
    FieldLenIs("", rest);
    assert "" + rest == rest && rest[0..] == rest;
  }

  lemma BareStep(t: string, rest: string, argc: nat)
    requires t != "" && t[0] != '"' && argc < MAX_ARGC && forall i :: 0 <= i < |t| ==> !Delim(t[i])
    requires rest == "" || (Delim(rest[0]) && argc + 1 < MAX_ARGC)
    ensures Inner(t + rest, argc) == Cons(Str(t), Outer(rest, argc + 1))
  {
    hide Unquote, FieldLen, Outer;
    var s := t + rest;
    FieldLenIs(t, rest);
    assert s[..|t|] == t && s[|t|..] == rest;
    assert rest == "" ==> s == t;
  }

  lemma OneField(f: Field, rest: string, argc: nat)
    requires Fits(f) && !f.Empty? && argc < MAX_ARGC
    requires rest == "" || (Delim(rest[0]) && argc + 1 < MAX_ARGC)
    ensures Inner(Text(f) + rest, argc) == Cons(ArgOf(f), Outer(rest, argc + 1))
    ensures Text(f) != "" && Text(f)[0] != ','
  {
    hide Inner, Outer, Unquote, FieldLen;
    match f
    case Quoted(t) =>
      UnquoteEscaped(t, "\"" + rest);
      assert Escape(t) + "\"" + rest == Escape(t) + ("\"" + rest);
      QuotedStep(Escape(t), t, rest, argc);
    case Bare(t) =>
      BareStep(t, rest, argc);
  }

  lemma TailStart(fs: seq<Field>)
    ensures if fs == [] then JoinTail(fs) == ""
      else JoinTail(fs) == "," + (Text(fs[0]) + JoinTail(fs[1..])) && JoinTail(fs)[0] == ','
  {}

  /** What may stand behind the last field: nothing, or a closing bracket. */
  predicate Shut(r: string) {
    r == "" || r == "]"
  }

  lemma {:induction false} TailBack(fs: seq<Field>, argc: nat, r: string)
    requires argc + |fs| <= MAX_ARGC && (forall i :: 0 <= i < |fs| ==> Fits(fs[i])) && Shut(r)
    requires r != "" ==> argc + |fs| < MAX_ARGC
    ensures Outer(JoinTail(fs) + r, argc) == Some(KeptTail(fs))
    ensures Inner(JoinTail(fs) + r, argc) == Some(KeptTail(fs))
  {
    hide Inner, JoinTail, KeptTail, Text, Fits;
    TailStart(fs);
    KeptStep(fs);
    InnerNothing(argc);
    if fs == [] {
      assert "" + r == r;
    } else {
      var t, rest := Text(fs[0]), JoinTail(fs[1..]);
      TailStart(fs[1..]);
      assert "," + (t + rest) + r == "," + (t + (rest + r));
      CommaStep(t + (rest + r), argc);
      TailBack(fs[1..], argc + 1, r);
      if fs[0].Empty? {
        assert t == "" by { EmptyText(fs[0]); }
        assert t + (rest + r) == rest + r;
        assert fs[1..] == [] ==> fs == [Empty] && rest + r == r;
      } else {
        OneField(fs[0], rest + r, argc);
      }
    }
  }

  lemma EmptyText(f: Field)
    requires f.Empty?
    ensures Text(f) == ""
  {}

  lemma InnerNothing(argc: nat)
    ensures Inner("", argc) == Some([]) && Inner("]", argc) == Some([])
  {}

  /** Splitting a joined command gives back its fields. */
  lemma RoundTrip(fs: seq<Field>)
    requires |fs| < MAX_ARGC && forall i :: 0 <= i < |fs| ==> Fits(fs[i])
    ensures Outer(Join(fs), 1) == Some(Kept(fs))
  {
    JoinBack(fs, "");
    assert Join(fs) + "" == Join(fs);
  }

  /** So does splitting one in brackets, if there is room for one more. */
  lemma BracketedRoundTrip(fs: seq<Field>)
    requires |fs| + 1 < MAX_ARGC && forall i :: 0 <= i < |fs| ==> Fits(fs[i])
    ensures Outer("[" + Join(fs) + "]", 1) == Some(Kept(fs))
  {
    hide Join, Kept, Fits, Inner;
    JoinBack(fs, "]");
    var s := Join(fs) + "]";
    assert "[" + Join(fs) + "]" == "[" + s;
    OpenStep(s, 1);
  }

  lemma OpenStep(s: string, argc: nat)
    requires s != "" && argc < MAX_ARGC
    ensures Outer("[" + s, argc) == Outer(s, argc)
  {
    assert ("[" + s)[1..] == s;
  }

  lemma JoinBack(fs: seq<Field>, r: string)
    requires |fs| < MAX_ARGC && (forall i :: 0 <= i < |fs| ==> Fits(fs[i])) && Shut(r)
    requires r != "" ==> |fs| + 1 < MAX_ARGC
    ensures Outer(Join(fs) + r, 1) == Some(Kept(fs))
  {
    hide Inner, JoinTail, KeptTail, Fits, Text;
    if fs == [] {
      assert "" + r == r;
      InnerNothing(1);
    } else {
      var t, rest := Text(fs[0]), JoinTail(fs[1..]);
      assert Join(fs) + r == t + (rest + r);
      hide Join;
      if fs[0].Empty? {
        assert t == "" by { EmptyText(fs[0]); }
        assert t + (rest + r) == rest + r;
        hide Outer;
        TailBack(fs[1..], 1, r);
      } else {
        TailStart(fs[1..]);
        OneField(fs[0], rest + r, 1);
        assert Outer(t + (rest + r), 1) == Inner(t + (rest + r), 1);
        hide Outer;
        TailBack(fs[1..], 2, r);
      }
    }
  }

  lemma {:induction false} EscapeNulFree(s: string)
    requires NulFree(s)
    ensures NulFree(Escape(s))
  {
    if s != "" {
      EscapeNulFree(s[1..]);
    }
  }

  lemma TextNulFree(f: Field)
    requires Fits(f)
    ensures NulFree(Text(f))
  {
    if f.Quoted? {
      EscapeNulFree(f.text);
    }
  }

  lemma {:induction false} TailNulFree(fs: seq<Field>)
    requires forall i :: 0 <= i < |fs| ==> Fits(fs[i])
    ensures NulFree(JoinTail(fs))
  {
    if fs != [] {
      TextNulFree(fs[0]);
      TailNulFree(fs[1..]);
    }
  }

  lemma JoinNulFree(fs: seq<Field>)
    requires forall i :: 0 <= i < |fs| ==> Fits(fs[i])
    ensures NulFree(Join(fs))
  {
    if fs != [] {
      TextNulFree(fs[0]);
      TailNulFree(fs[1..]);
    }
  }
}
