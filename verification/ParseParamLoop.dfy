/** The splitting as the code does it: delimiters are overwritten with the terminator, and a quoted
    field is copied back over itself without its escapes. */
module ParseParamLoop {
  import opened CText
  import opened ParseParam
  import Grammar = ParamGrammar

  /** A C string in the buffer that ends before `lim`. */
  predicate Points(b: string, p: Option<nat>, a: Arg, lim: nat) {
    match a
    case Null => p.None?
    case Str(u) => p.Some? && p.value + |u| < lim && StringAt(b, p.value, u)
  }

  predicate StringAt(b: string, i: nat, u: string) {
    i + |u| < |b| && b[i..i + |u|] == u && NoNul(u) && b[i + |u|] == '\0'
  }

  predicate Set(b: string, argv: seq<Option<nat>>, all: seq<Arg>, m: nat, lim: nat) {
    m < |argv| && m <= |all| && forall k :: 0 <= k < m ==> Points(b, argv[k + 1], all[k], lim)
  }

  /** Behind `pos` the command is as it was given. */
  predicate Rest(b: string, was: string, pos: nat, end: nat) {
    pos <= end < |b| == |was| && b[pos..] == was[pos..] && b[end] == '\0' && NoNul(was[pos..end])
  }

  lemma Frame(b: string, c: string, argv: seq<Option<nat>>, args: seq<Option<nat>>, all: seq<Arg>, m: nat, lim: nat,
              lim': nat)
    requires Set(b, argv, all, m, lim) && lim <= lim' && lim <= |b| == |c| && |argv| == |args| && b[..lim] == c[..lim]
    requires forall k :: 1 <= k <= m ==> argv[k] == args[k]
    ensures Set(c, args, all, m, lim')
  {
    forall k | 0 <= k < m ensures Points(c, args[k + 1], all[k], lim') {
      assert Points(b, argv[k + 1], all[k], lim);
      if all[k].Str? {
        PointsFrame(b, c, argv[k + 1].value, all[k].text, lim);
      }
    }
  }

  lemma PointsFrame(b: string, c: string, i: nat, u: string, lim: nat)
    requires StringAt(b, i, u) && i + |u| < lim <= |b| == |c| && b[..lim] == c[..lim]
    ensures StringAt(c, i, u)
  {
    assert c[i..i + |u|] == c[..lim][i..i + |u|] == b[..lim][i..i + |u|] == b[i..i + |u|];
    assert c[i + |u|] == c[..lim][i + |u|] == b[..lim][i + |u|];
  }

  /** The scan for the next delimiter. */
  method SkipField(buf: array<char>, start: nat, ghost end: nat) returns (pos: nat)
    requires Rest(buf[..], buf[..], start, end)
    ensures pos == start + FieldLen(buf[start..end]) <= end
  {
    pos := start;
    while buf[pos] != ',' && buf[pos] != '\0' && buf[pos] != '[' && buf[pos] != ']'
      invariant start <= pos <= end
      invariant FieldLen(buf[start..end]) == pos - start + FieldLen(buf[pos..end])
      decreases end - pos
    {
      assert pos < end && buf[pos..end][1..] == buf[pos + 1..end];
      pos := pos + 1;
    }
    assert pos < end ==> Delim(buf[pos..end][0]) by {
      if pos < end {
        assert buf[start..end][pos - start] == buf[pos];
      }
    }
  }

  /** The loop over delimiters: each is overwritten, and two commas in a row make a null pointer. */
  method Delims(buf: array<char>, argv: array<Option<nat>>, start: nat, first: nat, ghost end: nat,
                ghost rest: seq<Arg>)
    returns (pos: nat, argc: nat)
    requires argv.Length == MAX_ARGC && first <= MAX_ARGC && Rest(buf[..], buf[..], start, end)
    requires Inner(buf[start..end], first) == Some(rest)
    modifies buf, argv
    ensures start <= pos <= end && (start < end && Delim(old(buf[start])) ==> start < pos)
    ensures forall i :: 0 <= i < buf.Length ==> buf[i] == if start <= i < pos then '\0' else old(buf[i])
    ensures pos < end ==> !Delim(buf[pos])
    ensures first <= argc <= MAX_ARGC && argc - first <= |rest|
      && Inner(old(buf[..])[pos..end], argc) == Some(rest[argc - first..])
    ensures forall k :: 0 <= k < argc - first ==> rest[k] == Null
    ensures forall k :: first <= k < argc ==> argv[k] == None
    ensures forall k :: 0 <= k < MAX_ARGC && !(first <= k < argc) ==> argv[k] == old(argv[k])
  {
    hide Inner, Outer, Unquote, FieldLen, Cons;
    ghost var was := buf[..];
    pos, argc := start, first;
    while buf[pos] == ',' || buf[pos] == '[' || buf[pos] == ']'
      invariant start <= pos <= end
      invariant forall i :: 0 <= i < buf.Length ==> buf[i] == if start <= i < pos then '\0' else was[i]
      invariant first <= argc <= MAX_ARGC && argc - first <= |rest|
        && Inner(was[pos..end], argc) == Some(rest[argc - first..])
      invariant forall k :: 0 <= k < argc - first ==> rest[k] == Null
      invariant forall k :: first <= k < argc ==> argv[k] == None
      invariant forall k :: 0 <= k < MAX_ARGC && !(first <= k < argc) ==> argv[k] == old(argv[k])
      decreases end - pos
    {
      DelimAt(was, pos, end, argc, rest, argc - first);
      if buf[pos] == ',' && buf[pos + 1] == ',' {
        argv[argc] := None;
        argc := argc + 1;
      }
      buf[pos] := '\0';
      pos := pos + 1;
    }
    assert pos == start ==> buf[pos] == was[start];
  }

  lemma DelimAt(was: string, pos: nat, end: nat, argc: nat, rest: seq<Arg>, i: nat)
    requires pos <= end < |was| && was[end] == '\0' && Delim(was[pos]) && i <= |rest|
    requires Inner(was[pos..end], argc) == Some(rest[i..])
    ensures pos < end
    ensures if was[pos] == ',' && was[pos + 1] == ',' then
              argc < MAX_ARGC && i < |rest| && rest[i] == Null
              && Inner(was[pos + 1..end], argc + 1) == Some(rest[i + 1..])
            else Inner(was[pos + 1..end], argc) == Some(rest[i..])
  {
    hide Unquote, FieldLen, Outer;
    var s := was[pos..end];
    assert s[1..] == was[pos + 1..end] && (|s| > 1 ==> s[1] == was[pos + 1]);
    assert i < |rest| ==> rest[i..][0] == rest[i] && rest[i..][1..] == rest[i + 1..];
  }

  /** The text of a quoted field: collected without its escapes, then copied back over itself, with
      terminators up to the closing quote. */
  method QuotedField(buf: array<char>, start: nat, ghost end: nat, ghost u: string, ghost n: nat) returns (pos: nat)
    requires Rest(buf[..], buf[..], start, end) && Unquote(buf[start..end]) == Some((u, n)) && n <= BUFLEN
    modifies buf
    ensures pos == start + n < end
    ensures forall i :: 0 <= i < buf.Length ==>
      buf[i] == if i < start || i > pos then old(buf[i]) else if i < start + |u| then u[i - start] else '\0'
  {
    hide Unquote;
    ghost var was := buf[..];
    var copy := new char[BUFLEN](_ => '\0');
    var count, cnt := 0, 0;
    pos := start;
    assert u[0..] == u;
    while buf[pos] != '"' && buf[pos] != '\0'
      modifies copy
      invariant pos == start + cnt <= start + n < end && count <= cnt && count <= |u|
      invariant Unquote(was[pos..end]) == Some((u[count..], n - cnt))
      invariant forall i :: 0 <= i < BUFLEN ==> copy[i] == if i < count then u[i] else '\0'
      decreases end - pos
    {
      QuoteStep(was[pos..end], u[count..], n - cnt);
      assert was[pos..end][1..] == was[pos + 1..end];
      assert |was[pos..end]| > 1 ==> was[pos..end][1] == was[pos + 1] && was[pos..end][2..] == was[pos + 2..end];
      if buf[pos] == '\\' {
        pos := pos + 1;
        cnt := cnt + 1;
      }
      assert u[count..][1..] == u[count + 1..];
      copy[count] := buf[pos];
      count := count + 1;
      cnt := cnt + 1;
      pos := pos + 1;
    }
    QuoteEnd(was[pos..end], u[count..], n - cnt);
    buf[pos] := '\0';
    for i := 0 to cnt
      modifies buf
      invariant forall k :: 0 <= k < buf.Length ==>
        buf[k] == if start <= k < start + i then copy[k - start] else if k == pos then '\0' else was[k]
    {
      buf[pos - cnt + i] := copy[i];
    }
  }

  lemma QuoteStep(s: string, u: string, n: nat)
    requires Unquote(s) == Some((u, n)) && s != "" && s[0] != '"'
    ensures u != "" && n > 0
    ensures s[0] == '\\' ==> n > 1 && |s| > 1 && s[1] == u[0] && Unquote(s[2..]) == Some((u[1..], n - 2))
    ensures s[0] != '\\' ==> s[0] == u[0] && Unquote(s[1..]) == Some((u[1..], n - 1))
  {
    hide Push;
    if s[0] == '\\' {
      Pushed(s[1], 2, Unquote(s[2..]), u, n);
    } else {
      Pushed(s[0], 1, Unquote(s[1..]), u, n);
    }
  }

  lemma Pushed(c: char, k: nat, r: Option<(string, nat)>, u: string, n: nat)
    requires Push(c, k, r) == Some((u, n))
    ensures n >= k && u != "" && u[0] == c && r == Some((u[1..], n - k))
  {
    assert u[1..] == r.value.0;
  }

  lemma QuoteEnd(s: string, u: string, n: nat)
    requires Unquote(s) == Some((u, n)) && (s == "" || s[0] == '"')
    ensures u == "" && n == 0
  {}

  lemma {:induction false} UnquoteNoNul(s: string, u: string, n: nat)
    requires Unquote(s) == Some((u, n)) && NoNul(s)
    ensures NoNul(u)
  {
    if s[0] != '"' {
      QuoteStep(s, u, n);
      assert NoNul(s[1..]);
      if s[0] == '\\' {
        UnquoteNoNul(s[2..], u[1..], n - 2);
      } else {
        UnquoteNoNul(s[1..], u[1..], n - 1);
      }
      assert u == [u[0]] + u[1..];
    }
  }

  lemma QuotedIs(s: string, argc: nat, all: seq<Arg>) returns (u: string, n: nat)
    requires Inner(s, argc) == Some(all) && |s| > 1 && s[0] == '"'
    ensures argc < MAX_ARGC && Unquote(s[1..]) == Some((u, n)) && n <= BUFLEN && n + 2 <= |s|
    ensures var t := s[n + 2..];
      all != [] && all[0] == Str(u) && Outer(t[FieldLen(t)..], argc + 1) == Some(all[1..])
  {
    hide Outer, Unquote;
    u, n := Unquote(s[1..]).value.0, Unquote(s[1..]).value.1;
  }

  lemma BareIs(s: string, argc: nat, all: seq<Arg>)
    requires Inner(s, argc) == Some(all) && s != "" && s[0] != '"' && !Delim(s[0])
    ensures var n := FieldLen(s);
      argc < MAX_ARGC && n == 1 + FieldLen(s[1..]) && all != []
      && all[0] == Str(if argc + 1 == MAX_ARGC then s else s[..n]) && Outer(s[n..], argc + 1) == Some(all[1..])
  {
    hide Outer, Unquote;
  }

  /** The last argument, unquoted and not yet terminated: it runs up to the delimiter the loop stands
      at. The last that argv has room for runs up to the end. */
  predicate Open(b: string, p: Option<nat>, a: Arg, stop: nat) {
    a.Str? && p.Some? && p.value + |a.text| == stop < |b| && b[p.value..stop] == a.text && NoNul(a.text)
  }

  /** Between two turns of the outer loop. */
  predicate State(b: string, was: string, argv: seq<Option<nat>>, all: seq<Arg>, argc: nat, pos: nat, end: nat,
                  open: bool) {
    && Rest(b, was, pos, end) && was[end] == '\0'
    && |argv| == MAX_ARGC && 1 <= argc <= MAX_ARGC && argc - 1 <= |all|
    && Outer(was[pos..end], argc) == Some(all[argc - 1..])
    && (if open then argc > 1 && Set(b, argv, all, argc - 2, pos)
          && Open(b, argv[argc - 1], all[argc - 2], if argc == MAX_ARGC then end else pos)
            && (pos == end || Delim(was[pos]))
        else Set(b, argv, all, argc - 1, pos))
  }

  lemma QuotedState(b: string, c: string, args: seq<Option<nat>>, was: string, all: seq<Arg>, argc: nat,
                    start: nat, q: nat, pos: nat, end: nat, u: string)
    requires Rest(b, was, start, end) && was[end] == '\0' && |args| == MAX_ARGC && 1 <= argc < MAX_ARGC
      && argc - 1 < |all|
    requires all[argc - 1] == Str(u) && NoNul(u) && Set(b, args, all, argc - 1, start)
    requires |c| == |b| && start + 1 + |u| <= q < pos <= end
    requires forall i :: 0 <= i < |c| ==> c[i] == if i <= start then (if i < start then b[i] else '\0')
      else if i > q then b[i] else if i < start + 1 + |u| then u[i - start - 1] else '\0'
    requires Outer(was[pos..end], argc + 1) == Some(all[argc..])
    ensures State(c, was, args[argc := Some(start + 1)], all, argc + 1, pos, end, false)
  {
    hide Outer;
    var args' := args[argc := Some(start + 1)];
    assert b[..start] == c[..start];
    Frame(b, c, args, args', all, argc - 1, start, pos);
    assert StringAt(c, start + 1, u) by { Terminated(c, start + 1, u, pos); }
    RestFurther(b, c, was, start, pos, end);
  }

  lemma BareState(b: string, args: seq<Option<nat>>, was: string, all: seq<Arg>, argc: nat, start: nat, pos: nat,
                  end: nat)
    requires Rest(b, was, start, end) && was[end] == '\0' && |args| == MAX_ARGC && 1 <= argc < MAX_ARGC
      && argc - 1 < |all|
    requires Set(b, args, all, argc - 1, start) && start < pos <= end && (pos == end || Delim(was[pos]))
    requires all[argc - 1] == Str(if argc + 1 == MAX_ARGC then was[start..end] else was[start..pos])
    requires Outer(was[pos..end], argc + 1) == Some(all[argc..])
    ensures State(b, was, args[argc := Some(start)], all, argc + 1, pos, end, true)
  {
    hide Outer;
    var args' := args[argc := Some(start)];
    Frame(b, b, args, args', all, argc - 1, start, pos);
    RestFurther(b, b, was, start, pos, end);
    assert b[start..end] == was[start..end] && b[start..pos] == was[start..pos] by {
      assert forall i :: start <= i < |b| ==> b[i] == b[start..][i - start] == was[start..][i - start] == was[i];
    }
    assert NoNul(was[start..pos]) by {
      assert was[start..pos] == was[start..end][..pos - start];
    }
  }

  lemma RestFurther(b: string, c: string, was: string, start: nat, pos: nat, end: nat)
    requires Rest(b, was, start, end) && |c| == |b| && start <= pos <= end
      && forall i :: pos <= i < |c| ==> c[i] == b[i]
    ensures Rest(c, was, pos, end)
  {
    assert c[pos..] == b[pos..] == b[start..][pos - start..] == was[start..][pos - start..] == was[pos..];
    assert was[pos..end] == was[start..end][pos - start..];
    assert c[end] == b[end];
  }

  lemma Terminated(b: string, i: nat, u: string, lim: nat)
    requires i + |u| < lim <= |b| && NoNul(u) && b[i + |u|] == '\0'
    requires forall k :: i <= k < i + |u| ==> b[k] == u[k - i]
    ensures StringAt(b, i, u)
  {
    assert b[i..i + |u|] == u;
  }

  /** The quoted field at `start`, and the way to the next delimiter. */
  method TakeQuoted(buf: array<char>, start: nat, ghost end: nat, ghost was: string, ghost u: string, ghost n: nat)
    returns (pos: nat)
    requires Rest(buf[..], was, start, end) && start + 1 < end && n <= BUFLEN && NoNul(u)
    requires Unquote(was[start + 1..end]) == Some((u, n))
    modifies buf
    ensures start + 1 + n < pos <= end && pos == start + n + 2 + FieldLen(was[start + n + 2..end])
    ensures forall i :: 0 <= i < buf.Length ==> buf[i] == if i <= start then (if i < start then old(buf[i]) else '\0')
      else if i > start + 1 + n then old(buf[i]) else if i < start + 1 + |u| then u[i - start - 1] else '\0'
  {
    hide Unquote, FieldLen;
    ghost var b := buf[..];
    pos := start;
    buf[pos] := '\0';
    pos := pos + 1;
    RestFurther(b, buf[..], was, start, pos, end);
    SameSlice(buf[..], was, pos, end);
    pos := QuotedField(buf, pos, end, u, n);
    pos := pos + 1;
    RestFurther(b, buf[..], was, start, pos, end);
    SameSlice(buf[..], was, pos, end);
    pos := SkipField(buf, pos, end);
  }

  method QuotedArg(buf: array<char>, argv: array<Option<nat>>, start: nat, argc: nat, ghost end: nat,
                   ghost was: string, ghost all: seq<Arg>)
    returns (pos: nat)
    requires argv.Length == MAX_ARGC && 1 <= argc <= MAX_ARGC && argc - 1 <= |all|
    requires Rest(buf[..], was, start, end) && was[end] == '\0' && start + 1 < end && was[start] == '"'
    requires Inner(was[start..end], argc) == Some(all[argc - 1..]) && Set(buf[..], argv[..], all, argc - 1, start)
    modifies buf, argv
    ensures argc < MAX_ARGC && start < pos <= end && State(buf[..], was, argv[..], all, argc + 1, pos, end, false)
    ensures argv[..] == old(argv[..])[argc := argv[argc]]
    ensures buf[end..] == old(buf[end..])
  {
    hide Inner, Outer, Unquote, FieldLen, State, Set, Points;
    ghost var b, args := buf[..], argv[..];
    ghost var s := was[start..end];
    assert s[1..] == was[start + 1..end];
    ghost var u, n := QuotedIs(s, argc, all[argc - 1..]);
    UnquoteNoNul(s[1..], u, n);
    argv[argc] := Some(start + 1);
    pos := TakeQuoted(buf, start, end, was, u, n);
    ghost var q := start + 1 + n;
    ghost var t := was[q + 1..end];
    assert s[n + 2..] == t && t[FieldLen(t)..] == was[pos..end];
    assert all[argc - 1..][0] == all[argc - 1] && all[argc - 1..][1..] == all[argc..];
    QuotedState(b, buf[..], args, was, all, argc, start, q, pos, end, u);
    assert argv[..] == args[argc := Some(start + 1)];
  }

  lemma SameSlice(b: string, was: string, pos: nat, end: nat)
    requires Rest(b, was, pos, end)
    ensures b[pos..end] == was[pos..end]
  {
    assert b[pos..end] == b[pos..][..end - pos];
  }

  method BareArg(buf: array<char>, argv: array<Option<nat>>, start: nat, argc: nat, ghost end: nat, ghost was: string,
                 ghost all: seq<Arg>)
    returns (pos: nat)
    requires argv.Length == MAX_ARGC && 1 <= argc <= MAX_ARGC && argc - 1 <= |all|
    requires Rest(buf[..], was, start, end) && was[end] == '\0' && start < end && !Delim(was[start])
      && was[start] != '"'
    requires Inner(was[start..end], argc) == Some(all[argc - 1..]) && Set(buf[..], argv[..], all, argc - 1, start)
    modifies argv
    ensures argc < MAX_ARGC && start < pos <= end && State(buf[..], was, argv[..], all, argc + 1, pos, end, true)
    ensures argv[..] == old(argv[..])[argc := argv[argc]]
  {
    hide Inner, Outer, FieldLen, State, Set, Points;
    ghost var args := argv[..];
    ghost var s := was[start..end];
    assert s[0] == was[start] && s[1..] == was[start + 1..end];
    BareIs(s, argc, all[argc - 1..]);
    argv[argc] := Some(start);
    pos := start + 1;
    ghost var t := was[pos..end];
    RestFurther(buf[..], buf[..], was, start, pos, end);
    assert buf[pos..end] == t by { SameSlice(buf[..], was, pos, end); }
    pos := SkipField(buf, pos, end);
    NextDelim(t);
    BareSlices(was, start, pos, end);
    assert all[argc - 1..][0] == all[argc - 1] && all[argc - 1..][1..] == all[argc..];
    BareState(buf[..], args, was, all, argc, start, pos, end);
    assert argv[..] == args[argc := Some(start)];
  }

  lemma BareSlices(was: string, start: nat, pos: nat, end: nat)
    requires start < pos <= end <= |was|
    ensures var s := was[start..end]; s[pos - start..] == was[pos..end] && s[..pos - start] == was[start..pos]
    ensures pos < end ==> was[start + 1..end][pos - start - 1] == was[pos]
  {}

  lemma NextDelim(s: string)
    ensures FieldLen(s) < |s| ==> Delim(s[FieldLen(s)])
  {}

  /** The loop over delimiters terminates an argument left open, and adds null pointers. */
  lemma Settle(b: string, c: string, was: string, args: seq<Option<nat>>, args': seq<Option<nat>>, all: seq<Arg>,
               rest: seq<Arg>, argc: nat, argc': nat, start: nat, pos: nat, end: nat, open: bool)
    requires State(b, was, args, all, argc, start, end, open) && start < end && argc < MAX_ARGC
      && rest == all[argc - 1..]
    requires start <= pos <= end && |c| == |b| && (Delim(was[start]) ==> start < pos)
    requires forall i :: 0 <= i < |c| ==> c[i] == if start <= i < pos then '\0' else b[i]
    requires |args'| == MAX_ARGC && argc <= argc' <= MAX_ARGC && argc' - argc <= |rest|
    requires forall k :: 0 <= k < argc' - argc ==> rest[k] == Null
    requires forall k :: argc <= k < argc' ==> args'[k] == None
    requires forall k :: 0 <= k < MAX_ARGC && !(argc <= k < argc') ==> args'[k] == args[k]
    ensures Rest(c, was, pos, end) && argc' - 1 <= |all| && Set(c, args', all, argc' - 1, pos)
  {
    hide Outer;
    RestFurther(b, c, was, start, pos, end);
    var m := if open then argc - 2 else argc - 1;
    assert b[..start] == c[..start];
    Frame(b, c, args, args', all, m, start, pos);
    forall k | 0 <= k < argc' - 1 ensures Points(c, args'[k + 1], all[k], pos) {
      if k >= argc - 1 {
        assert rest[k - (argc - 1)] == all[k];
      } else if k >= m {
        assert c[args[k + 1].value..start] == b[args[k + 1].value..start];
      }
    }
  }

  lemma AtEnd(b: string, was: string, argv: seq<Option<nat>>, all: seq<Arg>, argc: nat, pos: nat, end: nat, open: bool)
    requires State(b, was, argv, all, argc, pos, end, open) && (argc == MAX_ARGC || pos == end)
    ensures |all| == argc - 1 && Set(b, argv, all, argc - 1, |b|)
  {
    Frame(b, b, argv, argv, all, if open then argc - 2 else argc - 1, pos, |b|);
  }

  lemma Rejoin(b: string, was: string, argv: seq<Option<nat>>, all: seq<Arg>, argc: nat, end: nat)
    requires Rest(b, was, end, end) && was[end] == '\0' && |argv| == MAX_ARGC && 1 <= argc <= MAX_ARGC
      && argc - 1 == |all|
    requires Set(b, argv, all, argc - 1, end)
    ensures State(b, was, argv, all, argc, end, end, false)
  {
    assert all[argc - 1..] == [] && was[end..end] == "";
  }

  lemma InnerEnds(s: string, argc: nat, all: seq<Arg>)
    requires Inner(s, argc) == Some(all) && (s == "" || s == "\"")
    ensures all == []
  {}

  lemma OuterIsInner(s: string, argc: nat)
    requires s != "" && argc < MAX_ARGC
    ensures Outer(s, argc) == Inner(s, argc)
  {}

  /** One turn of the outer loop; `stop` when it breaks out. */
  method Turn(buf: array<char>, argv: array<Option<nat>>, start: nat, first: nat,
              ghost end: nat, ghost was: string, ghost all: seq<Arg>, ghost open: bool)
    returns (pos: nat, argc: nat, stop: bool, ghost open': bool)
    requires argv.Length == MAX_ARGC && State(buf[..], was, argv[..], all, first, start, end, open)
    requires first < MAX_ARGC && buf[start] != '\0'
    modifies buf, argv
    ensures first <= argc <= MAX_ARGC && start <= pos <= end && (stop ==> pos == end) && (!stop ==> start < pos)
    ensures State(buf[..], was, argv[..], all, argc, pos, end, open')
    ensures forall k :: 0 <= k < MAX_ARGC && !(first <= k < argc) ==> argv[k] == old(argv[k])
    ensures buf[end..] == old(buf[end..])
  {
    hide Inner, Outer, State, Set, Rest;
    ghost var b, args := buf[..], argv[..];
    Bounds(b, was, args, all, first, start, end, open);
    ghost var rest := all[first - 1..];
    Enter(b, was, args, all, first, start, end, open);
    pos, argc := Delims(buf, argv, start, first, end, rest);
    Settle(b, buf[..], was, args, argv[..], all, rest, first, argc, start, pos, end, open);
    assert rest[argc - first..] == all[argc - 1..];
    SliceLater(b, was, start, pos, end);
    AtPos(buf[..], was, pos, end);
    stop, open' := false, false;
    if buf[pos] == '\0' {
      InnerEnds(was[pos..end], argc, all[argc - 1..]);
      Rejoin(buf[..], was, argv[..], all, argc, end);
      stop := true;
    } else if buf[pos] == '"' {
      if buf[pos + 1] == '\0' {
        InnerEnds(was[pos..end], argc, all[argc - 1..]);
        LoneQuote(buf[..], was, argv[..], all, argc, pos, end);
        buf[pos] := '\0';
        pos := pos + 1;
        stop := true;
      } else {
        pos := QuotedArg(buf, argv, pos, argc, end, was, all);
        argc := argc + 1;
      }
    } else {
      open' := true;
      pos := BareArg(buf, argv, pos, argc, end, was, all);
      argc := argc + 1;
    }
  }

  lemma Bounds(b: string, was: string, argv: seq<Option<nat>>, all: seq<Arg>, argc: nat, pos: nat, end: nat, open: bool)
    requires State(b, was, argv, all, argc, pos, end, open)
    ensures pos <= end < |b| == |was| && 1 <= argc <= |all| + 1 && Rest(b, was, pos, end)
  {}

  lemma SliceLater(b: string, was: string, start: nat, pos: nat, end: nat)
    requires Rest(b, was, start, end) && start <= pos <= end
    ensures b[pos..end] == was[pos..end]
  {
    RestFurther(b, b, was, start, pos, end);
    SameSlice(b, was, pos, end);
  }

  /** A quote with nothing behind it is dropped. */
  lemma LoneQuote(b: string, was: string, argv: seq<Option<nat>>, all: seq<Arg>, argc: nat, pos: nat, end: nat)
    requires |argv| == MAX_ARGC && 1 <= argc <= MAX_ARGC && argc - 1 == |all|
    requires Rest(b, was, pos, end) && was[end] == '\0' && pos + 1 == end && Set(b, argv, all, argc - 1, pos)
    ensures State(b[pos := '\0'], was, argv, all, argc, end, end, false)
  {
    var c := b[pos := '\0'];
    assert b[..pos] == c[..pos];
    Frame(b, c, argv, argv, all, argc - 1, pos, end);
    RestFurther(b, c, was, pos, end, end);
    Rejoin(c, was, argv, all, argc, end);
  }

  method Split(buf: array<char>, argv: array<Option<nat>>, ghost end: nat) returns (argc: nat)
    requires argv.Length == MAX_ARGC
    requires end < buf.Length && buf[end] == '\0' && NoNul(buf[..end]) && Outer(buf[..end], 1).Some?
    modifies buf, argv
    ensures var all := Outer(old(buf[..end]), 1).value;
      argc == |all| + 1 <= MAX_ARGC && Set(buf[..], argv[..], all, |all|, buf.Length)
    ensures forall k :: 0 <= k < MAX_ARGC && !(1 <= k < argc) ==> argv[k] == old(argv[k])
    ensures buf[end..] == old(buf[end..])
  {
    hide Inner, Outer, State, Set, Rest;
    ghost var was := buf[..];
    ghost var all := Outer(was[..end], 1).value;
    assert was[..end] == buf[..end];
    argc := 1;
    var pos, stop := 0, false;
    ghost var open := false;
    Begin(was, argv[..], all, end);
    while !stop && argc < MAX_ARGC && buf[pos] != '\0'
      invariant 1 <= argc <= MAX_ARGC && pos <= end && (stop ==> pos == end)
      invariant State(buf[..], was, argv[..], all, argc, pos, end, open)
      invariant forall k :: 0 <= k < MAX_ARGC && !(1 <= k < argc) ==> argv[k] == old(argv[k])
      invariant buf[end..] == was[end..]
      decreases end - pos, !stop
    {
      pos, argc, stop, open := Turn(buf, argv, pos, argc, end, was, all, open);
    }
    if argc < MAX_ARGC && !stop {
      ToEnd(buf[..], was, argv[..], all, argc, pos, end, open);
    }
    AtEnd(buf[..], was, argv[..], all, argc, pos, end, open);
  }

  lemma ToEnd(b: string, was: string, argv: seq<Option<nat>>, all: seq<Arg>, argc: nat, pos: nat, end: nat, open: bool)
    requires State(b, was, argv, all, argc, pos, end, open) && b[pos] == '\0'
    ensures pos == end
  {
    AtPos(b, was, pos, end);
  }

  /** Splits the command in place and counts the arguments, the command name included. What comes out
      is what the reference function says: strings in the buffer, and null pointers. */
  method Parse(buf: array?<char>, argv: array<Option<nat>>, ghost end: nat) returns (argc: nat)
    requires argv.Length == MAX_ARGC
    requires buf != null ==> end < buf.Length && buf[end] == '\0' && NoNul(buf[..end]) && Outer(buf[..end], 1).Some?
    modifies if buf == null then {} else {buf}, argv
    ensures buf == null ==> argc == 1 && argv[..] == old(argv[..])
    ensures buf != null ==> var all := Outer(old(buf[..end]), 1).value;
      argc == |all| + 1 <= MAX_ARGC && Set(buf[..], argv[..], all, |all|, buf.Length)
    ensures forall k :: 0 <= k < MAX_ARGC && !(1 <= k < argc) ==> argv[k] == old(argv[k])
    ensures buf != null ==> buf[end..] == old(buf[end..])
  {
    hide Inner, Outer, Set, NoNul;
    argc := 1;
    if buf != null {
      argc := Split(buf, argv, end);
    }
  }

  lemma Begin(was: string, argv: seq<Option<nat>>, all: seq<Arg>, end: nat)
    requires |argv| == MAX_ARGC && end < |was| && was[end] == '\0' && NoNul(was[..end])
      && Outer(was[..end], 1) == Some(all)
    ensures State(was, was, argv, all, 1, 0, end, false)
  {
    hide Outer;
    assert was[0..end] == was[..end] && all[0..] == all;
  }

  lemma Enter(b: string, was: string, argv: seq<Option<nat>>, all: seq<Arg>, argc: nat, pos: nat, end: nat, open: bool)
    requires State(b, was, argv, all, argc, pos, end, open) && b[pos] != '\0' && argc < MAX_ARGC
    ensures pos < end && b[pos] == was[pos] && b[pos..end] == was[pos..end]
    ensures Rest(b, b, pos, end) && Inner(b[pos..end], argc) == Some(all[argc - 1..]) && was[end] == '\0'
  {
    SameSlice(b, was, pos, end);
    assert b[pos] == b[pos..][0] == was[pos..][0];
    OuterIsInner(was[pos..end], argc);
  }

  lemma AtPos(b: string, was: string, pos: nat, end: nat)
    requires Rest(b, was, pos, end)
    ensures pos <= end < |b| && b[pos] == was[pos] && (b[pos] == '\0' <==> pos == end)
      && (b[pos] == '\0' ==> was[pos..end] == "")
    ensures b[pos] == '"' ==>
      pos + 1 < |b| && (b[pos + 1] == '\0' <==> was[pos..end] == "\"") && (b[pos + 1] == '\0' ==> pos + 1 == end)
  {
    assert b[pos] == b[pos..][0] == was[pos..][0];
    assert pos < end ==> was[pos..end][0] == was[pos] && b[pos + 1] == b[pos..][1] == was[pos..][1] == was[pos + 1];
    assert pos + 1 < end ==> was[pos..end][1] == was[pos + 1];
  }

  /** Splitting a command that was joined from fields, in place: argv stands for the fields that are
      kept, and for all of them if and only if neither the first nor the last is empty. */
  method ParseJoined(buf: array<char>, argv: array<Option<nat>>, ghost fs: seq<Field>) returns (argc: nat)
    requires argv.Length == MAX_ARGC && |fs| < MAX_ARGC && forall i :: 0 <= i < |fs| ==> Fits(fs[i])
    requires |Join(fs)| < buf.Length && buf[..|Join(fs)|] == Join(fs) && buf[|Join(fs)|] == '\0'
    modifies buf, argv
    ensures argc == |Kept(fs)| + 1 && Set(buf[..], argv[..], Kept(fs), |Kept(fs)|, buf.Length)
    ensures Kept(fs) == ArgsOf(fs) <==> fs == [] || (!fs[0].Empty? && !fs[|fs| - 1].Empty?)
    ensures forall k :: 0 <= k < MAX_ARGC && !(1 <= k < argc) ==> argv[k] == old(argv[k])
    ensures buf[|Join(fs)|..] == old(buf[|Join(fs)|..])
  {
    hide Outer, Inner, Join, Kept, Fits, Set, ArgsOf;
    RoundTrip(fs);
    KeptAll(fs);
    JoinNulFree(fs);
    argc := Parse(buf, argv, |Join(fs)|);
  }

  /** Splitting any command in place, with quotes, escapes and runs of commas and brackets: argv stands for
      what the command means. */
  method ParseCommand(buf: array<char>, argv: array<Option<nat>>, ghost cmd: Grammar.Command) returns (argc: nat)
    requires argv.Length == MAX_ARGC && Grammar.Fits(cmd) && Grammar.Meant(cmd.parts, cmd, 1).Some?
    requires |Grammar.Spell(cmd)| < buf.Length && buf[..|Grammar.Spell(cmd)|] == Grammar.Spell(cmd)
    requires buf[|Grammar.Spell(cmd)|] == '\0'
    modifies buf, argv
    ensures var all := Grammar.Meant(cmd.parts, cmd, 1).value;
      argc == |all| + 1 && Set(buf[..], argv[..], all, |all|, buf.Length)
    ensures forall k :: 0 <= k < MAX_ARGC && !(1 <= k < argc) ==> argv[k] == old(argv[k])
    ensures buf[|Grammar.Spell(cmd)|..] == old(buf[|Grammar.Spell(cmd)|..])
  {
    hide Outer, Inner, Set, Grammar.Fits, Grammar.Spell, Grammar.Meant;
    Grammar.SplitCommand(cmd);
    Grammar.CommandNoNul(cmd);
    argc := Parse(buf, argv, |Grammar.Spell(cmd)|);
  }
}
