/** The buffer that parse_string gets for a literal: its size is counted in a first pass, up to the
    first quote that no backslash stands in front of, and a `\u` escape may lead the second pass over
    that quote. */
module JsonStringBuffer {
  import opened CText
  import opened JsonText

  /** The first pass: one for each character or backslash pair. */
  function Count(s: string): nat {
    if s == "" || s[0] == '\"' then 0
    else 1 + Count(Drop(s, if s[0] == '\\' then 2 else 1))
  }

  /** A literal behind its opening quote: the first pass ends at its last character, a quote. */
  predicate Literal(s: string) {
    s != "" && if s[0] == '\"' then |s| == 1 else Literal(Drop(s, if s[0] == '\\' then 2 else 1))
  }

  /** The second pass over the literal alone ends at a quote in it. */
  predicate Stops(s: string) {
    Unescape(s).1 != ""
  }

  lemma {:induction false} LiteralEnds(s: string)
    requires Literal(s)
    ensures s != "" && s[|s| - 1] == '\"'
  {
    if s[0] != '\"' { LiteralEnds(Drop(s, if s[0] == '\\' then 2 else 1)); }
  }

  lemma {:induction false} CountOfLiteral(s: string, u: string)
    requires Literal(s)
    ensures Count(s + u) == Count(s)
  {
    if s[0] != '\"' {
      var k := if s[0] == '\\' then 2 else 1;
      assert Drop(s + u, k) == Drop(s, k) + u by {
        assert Drop(s, k) != "";
      }
      CountOfLiteral(Drop(s, k), u);
    }
  }

  /** The loop of the first pass. */
  method CountLiteral(text: string, start: nat) returns (len: nat)
    requires start <= |text| && NoNul(text)
    ensures len == Count(text[start..])
  {
    var p: nat := start;
    len := 0;
    while At(text, p) != '\"' && At(text, p) != '\0'
      invariant start <= p <= |text| && len + Count(text[p..]) == Count(text[start..])
      decreases |text| - p
    {
      var k := if text[p] == '\\' then 2 else 1;
      assert Drop(text[p..], k) == if p + k <= |text| then text[p + k..] else text[|text|..];
      len := len + 1;
      p := if p + k <= |text| then p + k else |text|;
    }
  }

  // ---------------------------------------------------------------- how far an escape goes

  /** The characters of an escape, the backslash included; `t` is behind it. */
  function Taken(t: string): (m: nat)
    requires t != ""
    ensures 2 <= m <= 12
  {
    if t[0] == 'u' then 2 + UnicodeEscape(t[1..]).1 else 2
  }

  /** An escape writes at most half as many bytes as it takes characters. */
  lemma EscapeSize(t: string)
    requires t != ""
    ensures Taken(t) % 2 == 0 && |UnescapeOne(t).0| <= Taken(t) / 2
    ensures UnescapeOne(t).1 == Drop(t, Taken(t) - 1)
  {
    hide UnicodeEscape;
    if t[0] == 'u' { UnicodeSize(t[1..]); }
  }

  lemma UnicodeSize(t: string)
    ensures UnicodeEscape(t).1 % 2 == 0 && |UnicodeEscape(t).0| <= 1 + UnicodeEscape(t).1 / 2
  {
    hide Hex4;
  }

  /** Reading four digits of a text that ends in a quote does not depend on what follows it. */
  lemma SameHex(t: string, u: string)
    requires t != "" && t[|t| - 1] == '\"'
    ensures Hex4(t + u) == Hex4(t) && (|t| <= 4 ==> Hex4(t) == 0)
  {}

  lemma SameUnicode(t: string, u: string)
    requires t != "" && t[|t| - 1] == '\"'
    ensures UnicodeEscape(t + u) == UnicodeEscape(t)
  {
    hide Hex4, EncodeUtf8;
    SameHex(t, u);
    if |t| > 4 && t[4] == '\\' {
      assert At(t + u, 5) == t[5];
      if t[5] == 'u' {
        assert Drop(t + u, 6) == Drop(t, 6) + u;
        SameHex(Drop(t, 6), u);
      }
    }
  }

  lemma SameEscape(t: string, u: string)
    requires t != "" && t[|t| - 1] == '\"'
    ensures UnescapeOne(t + u).0 == UnescapeOne(t).0 && Taken(t + u) == Taken(t)
  {
    if t[0] == 'u' {
      assert (t + u)[1..] == t[1..] + u;
      SameUnicode(t[1..], u);
    }
  }

  lemma UnescapeStep(s: string)
    requires s != "" && s[0] != '\"'
    ensures s[0] != '\\' ==> Unescape(s) == ([s[0]] + Unescape(s[1..]).0, Unescape(s[1..]).1)
    ensures s[0] == '\\' && |s| > 1 ==>
      Unescape(s) == (UnescapeOne(s[1..]).0 + Unescape(Drop(s, Taken(s[1..]))).0, Unescape(Drop(s, Taken(s[1..]))).1)
  {
    if s[0] == '\\' && |s| > 1 {
      hide UnescapeOne, Taken;
      EscapeSize(s[1..]);
      assert Drop(s[1..], Taken(s[1..]) - 1) == Drop(s, Taken(s[1..]));
    }
  }

  // ---------------------------------------------------------------- the second pass ends inside

  /** What follows a literal does not matter to a second pass that ends inside it. */
  lemma {:induction false} StopsAnyway(s: string, u: string)
    requires s != "" && s[|s| - 1] == '\"' && Stops(s)
    ensures Unescape(s + u) == (Unescape(s).0, Unescape(s).1 + u)
    decreases |s|
  {
    hide Unescape, Taken, UnescapeOne;
    if s[0] == '\"' {
      AtQuote(s);
      AtQuote(s + u);
    } else {
      UnescapeStep(s);
      UnescapeStep(s + u);
      if s[0] != '\\' {
        assert (s + u)[1..] == s[1..] + u;
        StopsAnyway(s[1..], u);
      } else {
        SameEscape(s[1..], u);
        var m := Taken(s[1..]);
        NothingLeft();
        assert (s + u)[1..] == s[1..] + u;
        assert Drop(s + u, m) == Drop(s, m) + u;
        StopsAnyway(Drop(s, m), u);
      }
    }
  }

  lemma AtQuote(s: string)
    requires s != "" && s[0] == '\"'
    ensures Unescape(s) == ("", s)
  {}

  lemma NothingLeft()
    ensures Unescape("") == ("", "")
  {}

  /** The first pass, `m` characters further on: it is at a character, or inside a backslash pair, and
      it has counted at least one for every two characters. */
  predicate Further(s: string, m: nat) {
    m < |s|
    && ((Literal(s[m..]) && Count(s) >= Count(s[m..]) + (m + 1) / 2)
        || (m + 1 < |s| && Literal(s[m + 1..]) && Count(s) >= Count(s[m + 1..]) + 1 + m / 2))
  }

  lemma {:induction false} FirstPass(s: string, m: nat)
    requires Literal(s) && m < |s|
    ensures Further(s, m)
  {
    if m == 0 {
      assert s[0..] == s;
    } else {
      var k := if s[0] == '\\' then 2 else 1;
      LiteralStep(s, k);
      if m == 1 && k == 2 {
        assert s[m + 1..] == s[k..];
      } else {
        FirstPass(s[k..], m - k);
        assert s[k..][m - k..] == s[m..];
        assert m + 1 < |s| ==> s[k..][m - k + 1..] == s[m + 1..];
      }
    }
  }

  lemma LiteralStep(s: string, k: nat)
    requires Literal(s) && |s| > 1 && k == (if s[0] == '\\' then 2 else 1)
    ensures k < |s| && Literal(s[k..]) && Count(s) == 1 + Count(s[k..])
  {}

  lemma PlainStep(s: string, ahead: nat)
    requires ahead <= 1 && ahead < |s| && Literal(s[ahead..]) && s[0] != '\"' && s[0] != '\\'
    ensures |s| > 1 && Literal(s[1..]) && Count(s[ahead..]) + ahead >= 1 + Count(s[1..])
  {
    if ahead == 0 {
      assert s[0..] == s;
      LiteralStep(s, 1);
    }
  }

  lemma AfterEscape(s: string, ahead: nat, m: nat) returns (next: nat)
    requires ahead <= 1 && m % 2 == 0 && 2 <= m < |s| && Further(s[ahead..], m - ahead)
    ensures next <= 1 && next < |s[m..]| && Literal(s[m..][next..])
    ensures Count(s[ahead..]) + ahead >= m / 2 + Count(s[m..][next..]) + next
  {
    hide Literal, Count;
    var t, k := s[ahead..], m - ahead;
    assert t[k..] == s[m..] && (k + 1 < |t| ==> t[k + 1..] == s[m..][1..]);
    assert s[m..][0..] == s[m..];
    next := if Literal(t[k..]) && Count(t) >= Count(t[k..]) + (k + 1) / 2 then 0 else 1;
  }

  /** The second pass writes no more than the first counts, whether the two passes are at the same
      character, or the first is one ahead, at the end of a backslash pair. */
  lemma {:induction false} FitsInside(s: string, ahead: nat)
    requires ahead <= 1 && ahead < |s| && Literal(s[ahead..]) && Stops(s)
    ensures |Unescape(s).0| <= Count(s[ahead..]) + ahead
    decreases |s|
  {
    hide Unescape, Taken, UnescapeOne, Literal, Count, Further;
    assert s[0..] == s;
    if s[0] == '\"' {
      AtQuote(s);
    } else {
      UnescapeStep(s);
      NothingLeft();
      if s[0] != '\\' {
        PlainStep(s, ahead);
        FitsInside(s[1..], 0);
      } else {
        LiteralEnds(s[ahead..]);
        EscapeSize(s[1..]);
        var m := Taken(s[1..]);
        FirstPass(s[ahead..], m - ahead);
        var next := AfterEscape(s, ahead, m);
        FitsInside(Drop(s, m), next);
      }
    }
  }

  // ---------------------------------------------------------------- the second pass runs on

  lemma {:induction false} PlainTail(n: nat)
    ensures Unescape(Repeat('a', n)) == (Repeat('a', n), "")
  {
    if n > 0 {
      assert Repeat('a', n)[1..] == Repeat('a', n - 1);
      PlainTail(n - 1);
    }
  }

  lemma TailOf(n: nat, k: nat)
    requires k <= n
    ensures Repeat('a', n)[k..] == Repeat('a', n - k)
  {}

  /** If the second pass does not end inside, it goes on in what follows, of which it skips at most
      eleven characters. */
  lemma {:induction false} RunsOn(s: string, n: nat)
    requires s != "" && s[|s| - 1] == '\"' && !Stops(s) && n > 11
    ensures |Unescape(s + Repeat('a', n)).0| >= n - 11
    decreases |s|
  {
    hide Unescape, Taken, UnescapeOne, Repeat;
    var u := Repeat('a', n);
    if s[0] == '\"' {
      AtQuote(s);
      assert false;
    } else {
      UnescapeStep(s);
      UnescapeStep(s + u);
      assert (s + u)[1..] == s[1..] + u;
      if s[0] != '\\' {
        RunsOn(s[1..], n);
      } else {
        SameEscape(s[1..], u);
        var m := Taken(s[1..]);
        if m < |s| {
          assert Drop(s + u, m) == Drop(s, m) + u;
          RunsOn(Drop(s, m), n);
        } else {
          assert Drop(s + u, m) == u[m - |s|..];
          TailOf(n, m - |s|);
          PlainTail(n - (m - |s|));
        }
      }
    }
  }

  // ---------------------------------------------------------------- the condition

  /** The bytes written and their terminator fit the counted buffer, whatever follows the literal, if
      and only if no escape leads the second pass over the closing quote. */
  lemma BufferFitsIff(s: string)
    requires Literal(s)
    ensures (forall u: string :: |Unescape(s + u).0| + 1 <= Count(s + u) + 1) <==> Stops(s)
  {
    hide Unescape, Count, Literal;
    LiteralEnds(s);
    if Stops(s) {
      assert s[0..] == s;
      FitsInside(s, 0);
      forall u: string ensures |Unescape(s + u).0| + 1 <= Count(s + u) + 1 {
        StopsAnyway(s, u);
        CountOfLiteral(s, u);
      }
    } else {
      var n := Count(s) + 12;
      var u := Repeat('a', n);
      RunsOn(s, n);
      CountOfLiteral(s, u);
      assert |Unescape(s + u).0| > Count(s + u);
    }
  }

  lemma OverQuote()
    ensures Taken("u\"") == 6 && UnescapeOne("u\"").0 == ""
    ensures Literal("\\u\"") && Count("\\u\"") == 1
  {
    assert Drop("\\u\"", 2) == "\"" && "u\""[1..] == "\"";
  }

  /** `\u` in front of the closing quote: it takes the quote and three more characters, and the second
      pass copies what follows them into a buffer of two bytes. */
  lemma EscapeOverQuote()
    ensures Literal("\\u\"") && !Stops("\\u\"") && Count("\\u\"" + "aaaaaa") == 1
    ensures Unescape("\\u\"" + "aaaaaa").0 == "aaa"
  {
    hide Unescape, Taken, UnescapeOne, Count, Literal;
    OverQuote();
    var s, u := "\\u\"", "aaaaaa";
    assert Drop(s, 2) == "\"" && s[1..] == "u\"" && "u\""[1..] == "\"";
    CountOfLiteral(s, u);
    UnescapeStep(s);
    UnescapeStep(s + u);
    SameEscape(s[1..], u);
    assert (s + u)[1..] == s[1..] + u;
    assert Drop(s + u, 6) == "aaa" && Repeat('a', 3) == "aaa";
    PlainTail(3);
  }
}
