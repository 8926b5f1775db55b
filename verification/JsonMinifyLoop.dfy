/** cJSON_Minify as it runs: one buffer, a pointer that reads and a pointer that writes behind it. */
module JsonMinifyLoop {
  import opened CText
  import opened JsonText

  /** What is left to read is as it was given. */
  predicate Unread(b: string, was: string, json: nat, end: nat) {
    && json <= end < |b| == |was| && was[end] == '\0' && (forall i :: 0 <= i < end ==> was[i] != '\0')
    && forall i :: json <= i < |b| ==> b[i] == was[i]
  }

  lemma Step(was: string, json: nat, end: nat)
    requires json < end < |was|
    ensures was[json..end] != "" && was[json..end][0] == was[json] && was[json..end][1..] == was[json + 1..end]
    ensures json + 1 < end ==> was[json..end][1] == was[json + 1]
  {}

  /** To the end of the line. */
  method PastLine(buf: array<char>, start: nat, ghost was: string, ghost end: nat) returns (json: nat)
    requires Unread(buf[..], was, start, end)
    ensures start <= json <= end && SkipLine(was[start..end]) == was[json..end]
  {
    json := start;
    while buf[json] != '\0' && buf[json] != '\n'
      invariant start <= json <= end && SkipLine(was[start..end]) == SkipLine(was[json..end])
      decreases end - json
    {
      Step(was, json, end);
      json := json + 1;
    }
    if json < end {
      Step(was, json, end);
    }
  }

  /** To the end of the comment; one that is not closed ends with the text. */
  method PastBlock(buf: array<char>, start: nat, ghost was: string, ghost end: nat) returns (json: nat)
    requires Unread(buf[..], was, start, end)
    ensures start <= json <= end && SkipBlock(was[start..end]) == was[json..end]
    ensures json < end ==> json + 1 < end && was[json] == '*' && was[json + 1] == '/'
  {
    json := start;
    while buf[json] != '\0' && !(buf[json] == '*' && buf[json + 1] == '/')
      invariant start <= json <= end && SkipBlock(was[start..end]) == SkipBlock(was[json..end])
      decreases end - json
    {
      Step(was, json, end);
      json := json + 1;
    }
    if json < end {
      Step(was, json, end);
    }
  }

  lemma LiteralStep(s: string)
    requires s != "" && s[0] != '\"' && LiteralClosed(s)
    ensures s[0] == '\\' ==> |s| > 1 && LiteralClosed(s[2..]) && LiteralLen(s) == 2 + LiteralLen(s[2..])
    ensures s[0] != '\\' ==> LiteralClosed(s[1..]) && LiteralLen(s) == 1 + LiteralLen(s[1..])
  {}

  lemma LiteralEnd(s: string)
    requires LiteralClosed(s) && (s == "" || s[0] == '\"')
    ensures s != "" && LiteralLen(s) == 1
  {}

  /** The characters from `start` on have been copied; what is read next is untouched. */
  ghost predicate Copying(c: string, b: string, was: string, from: nat, start: nat, json: nat) {
    && from <= start <= json <= |b| == |c| == |was|
    && (forall i :: json <= i < |b| ==> b[i] == was[i])
    && (forall i :: from <= i < from + (json - start) ==> c[i] == was[start + (i - from)])
    && (forall i :: 0 <= i < from || json <= i < |b| ==> c[i] == b[i])
  }

  lemma CopyStep(c: string, b: string, was: string, from: nat, start: nat, json: nat)
    requires Copying(c, b, was, from, start, json) && json < |b|
    ensures c[json] == was[json]
    ensures Copying(c[from + (json - start) := c[json]], b, was, from, start, json + 1)
  {}

  /** `*into++ = *json++` */
  method CopyOne(buf: array<char>, into0: nat, json0: nat, ghost b: string, ghost was: string, ghost from: nat,
                 ghost start: nat)
    returns (into: nat, json: nat)
    requires Copying(buf[..], b, was, from, start, json0) && json0 < buf.Length && into0 == from + (json0 - start)
    modifies buf
    ensures Copying(buf[..], b, was, from, start, json) && json == json0 + 1 && into == into0 + 1
  {
    CopyStep(buf[..], b, was, from, start, json0);
    ghost var c := buf[..];
    buf[into0] := buf[json0];
    assert buf[..] == c[into0 := c[json0]];
    into, json := into0 + 1, json0 + 1;
  }

  /** The literal goes on at `json` and ends at `goal`. */
  predicate InLiteral(was: string, json: nat, end: nat, goal: nat) {
    json <= end < |was| && LiteralClosed(was[json..end]) && json + LiteralLen(was[json..end]) == goal
  }

  lemma InStep(was: string, json: nat, end: nat, goal: nat)
    requires InLiteral(was, json, end, goal)
    ensures json < end
    ensures was[json] == '\"' ==> goal == json + 1
    ensures was[json] != '\"' && was[json] != '\\' ==> InLiteral(was, json + 1, end, goal)
    ensures was[json] == '\\' ==> InLiteral(was, json + 2, end, goal)
  {
    var s := was[json..end];
    if s == "" || s[0] == '\"' {
      LiteralEnd(s);
    } else {
      LiteralStep(s);
      assert s[1..] == was[json + 1..end];
      assert |s| > 1 ==> s[2..] == was[json + 2..end];
    }
  }

  /** One character of a literal, or one escape. */
  method CopyUnit(buf: array<char>, into0: nat, json0: nat, ghost b: string, ghost was: string, ghost from: nat,
                  ghost start: nat, ghost end: nat, ghost goal: nat)
    returns (into: nat, json: nat)
    requires Copying(buf[..], b, was, from, start, json0) && into0 == from + (json0 - start) && start <= json0
    requires InLiteral(was, json0, end, goal) && end < buf.Length && json0 < end
    requires buf[json0] == was[json0] && was[json0] != '\"'
    modifies buf
    ensures start <= json0 < json < end && into == from + (json - start) && Copying(buf[..], b, was, from, start, json)
    ensures buf[json] == was[json] && InLiteral(was, json, end, goal)
  {
    hide Copying, InLiteral;
    into, json := into0, json0;
    InStep(was, json, end, goal);
    if buf[json] == '\\' {
      into, json := CopyOne(buf, into, json, b, was, from, start);
    }
    into, json := CopyOne(buf, into, json, b, was, from, start);
    InStep(was, json, end, goal);
    NextIs(buf[..], b, was, from, start, json);
  }

  /** A string literal is copied as it is, its escapes included. */
  method CopyLiteral(buf: array<char>, from: nat, start: nat, ghost was: string, ghost end: nat)
    returns (into: nat, json: nat)
    requires Unread(buf[..], was, start, end) && from <= start < end && was[start] == '\"'
    requires LiteralClosed(was[start + 1..end])
    modifies buf
    ensures json == start + 1 + LiteralLen(was[start + 1..end]) <= end && into == from + (json - start)
    ensures Copying(buf[..], old(buf[..]), was, from, start, json)
  {
    hide LiteralLen, LiteralClosed, Copying, InLiteral;
    ghost var b := buf[..];
    ghost var goal := start + 1 + LiteralLen(was[start + 1..end]);
    assert InLiteral(was, start + 1, end, goal) by { LiteralStarts(was, start + 1, end); }
    assert Copying(buf[..], b, was, from, start, start) by { NoCopyYet(b, was, from, start); }
    into, json := CopyOne(buf, from, start, b, was, from, start);
    InStep(was, json, end, goal);
    NextIs(buf[..], b, was, from, start, json);
    assert forall i :: 0 <= i < end ==> was[i] != '\0';
    hide Unread;
    while buf[json] != '\0' && buf[json] != '\"'
      invariant start < json < end && into == from + (json - start) && Copying(buf[..], b, was, from, start, json)
      invariant buf[json] == was[json] && InLiteral(was, json, end, goal)
      decreases end - json
    {
      into, json := CopyUnit(buf, into, json, b, was, from, start, end, goal);
    }
    InStep(was, json, end, goal);
    into, json := CopyOne(buf, into, json, b, was, from, start);
  }

  lemma LiteralStarts(was: string, json: nat, end: nat)
    requires json <= end < |was| && LiteralClosed(was[json..end])
    ensures InLiteral(was, json, end, json + LiteralLen(was[json..end]))
  {}

  lemma NoCopyYet(b: string, was: string, from: nat, start: nat)
    requires from <= start <= |b| == |was| && forall i :: start <= i < |b| ==> b[i] == was[i]
    ensures Copying(b, b, was, from, start, start)
  {}

  lemma NextIs(c: string, b: string, was: string, from: nat, start: nat, json: nat)
    requires Copying(c, b, was, from, start, json) && json < |b|
    ensures c[json] == was[json]
  {}

  lemma OnBlank(s: string)
    requires s != "" && Closed(s) && IsBlank(s[0])
    ensures Minify(s) == Minify(s[1..]) && Closed(s[1..])
  {}

  lemma OnLine(s: string)
    requires |s| > 1 && Closed(s) && s[0] == '/' && s[1] == '/'
    ensures Minify(s) == Minify(SkipLine(s)) && Closed(SkipLine(s))
  {
    assert SkipLine(s) == SkipLine(s[1..]);
    hide SkipLine;
  }

  lemma OnBlock(s: string)
    requires |s| > 1 && Closed(s) && s[0] == '/' && s[1] == '*'
    ensures var t := SkipBlock(s); t != "" && Minify(s) == Minify(Drop(t, 2)) && Closed(Drop(t, 2))
  {
    assert SkipBlock(s) == SkipBlock(s[1..]);
    hide SkipBlock;
  }

  lemma LiteralOpen(s: string)
    requires s != "" && Closed(s) && s[0] == '\"'
    ensures LiteralClosed(s[1..]) && Closed(s[1 + LiteralLen(s[1..])..])
  {
    hide LiteralLen, LiteralClosed, Minify;
  }

  lemma OnLiteral(s: string)
    requires s != "" && Closed(s) && s[0] == '\"'
    ensures var n := LiteralLen(s[1..]);
      LiteralClosed(s[1..]) && Minify(s) == s[..1 + n] + Minify(s[1 + n..]) && Closed(s[1 + n..])
  {
    LiteralOpen(s);
    hide LiteralLen, LiteralClosed, Closed;
  }

  lemma OnOther(s: string)
    requires s != "" && Closed(s) && !IsBlank(s[0]) && s[0] != '\"'
      && !(s[0] == '/' && (At(s, 1) == '/' || At(s, 1) == '*'))
    ensures Minify(s) == s[..1] + Minify(s[1..]) && Closed(s[1..])
  {}

  /** Where the loop stands: written so far is the minified text of what has been read. */
  ghost predicate Midway(b: string, was: string, into: nat, json: nat, end: nat) {
    && Unread(b, was, json, end) && into <= json
    && Minify(was[..end]) == b[..into] + Minify(was[json..end]) && Closed(was[json..end])
  }

  /** Something is passed over. */
  lemma Passed(b: string, was: string, into: nat, start: nat, json: nat, end: nat)
    requires Midway(b, was, into, start, end) && start <= json <= end
    requires Minify(was[start..end]) == Minify(was[json..end]) && Closed(was[json..end])
    ensures Midway(b, was, into, json, end)
  {}

  lemma CopiedPrefix(b: string, c: string, was: string, from: nat, into: nat, start: nat, json: nat)
    requires Copying(c, b, was, from, start, json) && into == from + (json - start)
    ensures into <= |c| && c[..into] == b[..from] + was[start..json]
  {}

  /** Something is copied. */
  lemma Copied(b: string, c: string, was: string, from: nat, into: nat, start: nat, json: nat, end: nat)
    requires Midway(b, was, from, start, end) && start <= json <= end && into == from + (json - start) && |c| == |b|
    requires Copying(c, b, was, from, start, json)
    requires Minify(was[start..end]) == was[start..json] + Minify(was[json..end]) && Closed(was[json..end])
    ensures Midway(c, was, into, json, end)
  {
    CopiedPrefix(b, c, was, from, into, start, json);
    Regroup(b[..from], was[start..json], Minify(was[json..end]));
  }

  lemma Regroup(a: string, b: string, c: string)
    ensures a + (b + c) == (a + b) + c
  {}

  /** The whole run: the minified text in the same buffer, terminated; nothing behind is touched. */
  method MinifyInPlace(buf: array<char>, ghost end: nat) returns (ghost n: nat)
    requires Unread(buf[..], buf[..], 0, end) && Closed(buf[..end])
    modifies buf
    ensures n == |Minify(old(buf[..end]))| <= end && buf[..n] == Minify(old(buf[..end])) && buf[n] == '\0'
    ensures forall i :: end < i < buf.Length ==> buf[i] == old(buf[i])
  {
    hide Minify, Closed;
    ghost var was := buf[..];
    var into: nat, json: nat := 0, 0;
    assert was[0..end] == was[..end] && buf[..0] == "" && "" + Minify(was[..end]) == Minify(was[..end]);
    while buf[json] != '\0'
      invariant Midway(buf[..], was, into, json, end)
      decreases end - json
    {
      into, json := Turn(buf, into, json, was, end);
    }
    assert was[end..end] == "";
    MinifyNothing();
    assert buf[..into] + "" == buf[..into];
    n := into;
    ghost var b := buf[..];
    buf[into] := '\0';
    assert buf[..n] == b[..n];
  }

  lemma MinifyNothing()
    ensures Minify("") == ""
  {}

  /** One turn of the loop, on one character, comment or literal. */
  method Turn(buf: array<char>, from: nat, start: nat, ghost was: string, ghost end: nat) returns (into: nat, json: nat)
    requires start < buf.Length && Midway(buf[..], was, from, start, end) && buf[start] != '\0'
    modifies buf
    ensures Midway(buf[..], was, into, json, end) && start < json
  {
    hide Minify, Closed, SkipLine, SkipBlock, LiteralLen, LiteralClosed, Midway;
    Standing(buf[..], was, from, start, end);
    into, json := from, start;
    ghost var b, s := buf[..], was[json..end];
    Step(was, json, end);
    assert At(s, 1) == buf[json + 1];
    if buf[json] == ' ' {
      json := json + 1;
      OnBlank(s);
      Passed(b, was, into, start, json, end);
    } else if buf[json] == '\t' {
      json := json + 1;
      OnBlank(s);
      Passed(b, was, into, start, json, end);
    } else if buf[json] == '\r' {
      json := json + 1;
      OnBlank(s);
      Passed(b, was, into, start, json, end);
    } else if buf[json] == '\n' {
      json := json + 1;
      OnBlank(s);
      Passed(b, was, into, start, json, end);
    } else if buf[json] == '/' && buf[json + 1] == '/' {
      json := PastLine(buf, json, was, end);
      OnLine(s);
      LineMoves(s);
      Passed(b, was, into, start, json, end);
    } else if buf[json] == '/' && buf[json + 1] == '*' {
      json := PastBlock(buf, json, was, end);
      OnBlock(s);
      BlockEnds(was, json, end);
      json := json + 2;
      Passed(b, was, into, start, json, end);
    } else if buf[json] == '\"' {
      OnLiteral(s);
      into, json := CopyLiteral(buf, from, start, was, end);
      Slices(was, start, json, end);
      Copied(b, buf[..], was, from, into, start, json, end);
    } else {
      OnOther(s);
      NoCopyYet(b, was, from, start);
      into, json := CopyOne(buf, into, json, b, was, from, start);
      Slices(was, start, json, end);
      Copied(b, buf[..], was, from, into, start, json, end);
    }
  }

  lemma Standing(b: string, was: string, into: nat, json: nat, end: nat)
    requires Midway(b, was, into, json, end) && b[json] != '\0'
    ensures Unread(b, was, json, end) && json < end && into <= json && Closed(was[json..end])
  {}

  lemma LineMoves(s: string)
    requires |s| > 1 && s[0] == '/'
    ensures |SkipLine(s)| < |s|
  {}

  lemma BlockEnds(was: string, json: nat, end: nat)
    requires json <= end < |was| && was[json..end] != "" && (json < end ==> json + 1 < end)
    ensures json + 2 <= end && Drop(was[json..end], 2) == was[json + 2..end]
  {}

  lemma Slices(was: string, start: nat, json: nat, end: nat)
    requires start <= json <= end < |was|
    ensures was[start..end][..json - start] == was[start..json] && was[start..end][json - start..] == was[json..end]
  {}
}
