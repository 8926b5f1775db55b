/** The bytes that `\u` escapes become are UTF-8: reading them back by the table of section 4 of RFC
    3629 gives the code point the escape names (section 7 of RFC 8259). */
module JsonUtf8 {
  import opened CText
  import opened JsonText

  predicate Tail(c: char, lo: nat, hi: nat) { lo <= c as int <= hi }

  /** The first character of a UTF-8 text, and how many bytes it takes. */
  function Decode(s: string): Option<(nat, nat)> {
    var a, b, c, d := At(s, 0) as int, At(s, 1), At(s, 2), At(s, 3);
    if s == "" then None
    else if a < 0x80 then Some((a, 1))
    else if 0xC2 <= a <= 0xDF && Tail(b, 0x80, 0xBF) then Some(((a - 0xC0) * 64 + (b as int - 0x80), 2))
    else if 0xE0 <= a <= 0xEF && Tail(b, if a == 0xE0 then 0xA0 else 0x80, if a == 0xED then 0x9F else 0xBF)
      && Tail(c, 0x80, 0xBF) then
      Some(((a - 0xE0) * 4096 + (b as int - 0x80) * 64 + (c as int - 0x80), 3))
    else if 0xF0 <= a <= 0xF4 && Tail(b, if a == 0xF0 then 0x90 else 0x80, if a == 0xF4 then 0x8F else 0xBF)
            && Tail(c, 0x80, 0xBF) && Tail(d, 0x80, 0xBF) then
      Some(((a - 0xF0) * 262144 + (b as int - 0x80) * 4096 + (c as int - 0x80) * 64 + (d as int - 0x80), 4))
    else None
  }

  predicate Surrogate(uc: nat) { 0xD800 <= uc <= 0xDFFF }

  lemma DecodeEncoded(uc: nat, rest: string)
    requires uc < 0x110000 && !Surrogate(uc)
    ensures Decode(EncodeUtf8(uc) + rest) == Some((uc, |EncodeUtf8(uc)|))
  {
    var e := EncodeUtf8(uc);
    var s := e + rest;
    assert forall i :: 0 <= i < |e| ==> At(s, i) == e[i];
    if uc < 0x80 {
    } else if uc < 0x800 {
      assert uc == uc / 64 * 64 + uc % 64;
    } else if uc < 0x10000 {
      Split3(uc);
    } else {
      Split4(uc);
    }
  }

  lemma Split3(uc: nat)
    requires 0x800 <= uc < 0x10000
    ensures uc == uc / 4096 * 4096 + uc / 64 % 64 * 64 + uc % 64
    ensures uc / 4096 == 0 ==> uc / 64 % 64 >= 0x20
    ensures uc / 4096 == 0xD && !Surrogate(uc) ==> uc / 64 % 64 < 0x20
  {
    assert uc / 64 / 64 == uc / 4096;
    assert uc / 64 == uc / 64 / 64 * 64 + uc / 64 % 64;
  }

  lemma Split4(uc: nat)
    requires 0x10000 <= uc < 0x110000
    ensures uc == uc / 262144 * 262144 + uc / 4096 % 64 * 4096 + uc / 64 % 64 * 64 + uc % 64
    ensures uc / 262144 == 0 ==> uc / 4096 % 64 >= 0x10
    ensures uc / 262144 == 4 ==> uc / 4096 % 64 < 0x10
  {
    assert uc / 64 / 64 == uc / 4096 && uc / 4096 / 64 == uc / 262144;
    assert uc / 64 == uc / 64 / 64 * 64 + uc / 64 % 64;
    assert uc / 4096 == uc / 4096 / 64 * 64 + uc / 4096 % 64;
  }

  /** A hexadecimal digit in either case. */
  predicate Nibble(c: char, k: nat) {
    k < 16 && (c == "0123456789abcdef"[k] || c == "0123456789ABCDEF"[k])
  }

  lemma HexDigits(c: char, k: nat)
    requires Nibble(c, k)
    ensures IsHex(c) && HexVal(c) == k
  {}

  /** Nothing else is a digit. */
  lemma IsNibble(c: char) returns (k: nat)
    requires IsHex(c)
    ensures Nibble(c, k)
  {
    k := HexVal(c);
  }

  /** The four digits of a 16-bit number, each in either case. */
  predicate Digits4(e: string, n: nat) {
    n < 0x10000 && |e| == 4
    && Nibble(e[0], n / 4096) && Nibble(e[1], n / 256 % 16) && Nibble(e[2], n / 16 % 16) && Nibble(e[3], n % 16)
  }

  lemma Hex4Is(e: string, n: nat, rest: string)
    requires Digits4(e, n)
    ensures Hex4(e + rest) == n
  {
    hide Nibble, HexVal, IsHex;
    var s := e + rest;
    assert At(s, 0) == e[0] && At(s, 1) == e[1] && At(s, 2) == e[2] && At(s, 3) == e[3];
    HexDigits(e[0], n / 4096);
    HexDigits(e[1], n / 256 % 16);
    HexDigits(e[2], n / 16 % 16);
    HexDigits(e[3], n % 16);
    Positions(n);
  }

  lemma Positions(n: nat)
    ensures ((n / 4096 * 16 + n / 256 % 16) * 16 + n / 16 % 16) * 16 + n % 16 == n
  {
    assert n / 256 == n / 16 / 16 && n / 4096 == n / 256 / 16;
  }

  /** What may stand behind `\u` for a code point: four digits, or a surrogate pair. */
  predicate Escapes(e: string, uc: nat) {
    if uc < 0x10000 then Digits4(e, uc)
    else
      |e| == 10 && Digits4(e[..4], 0xD800 + (uc - 0x10000) / 1024) && e[4..6] == "\\u"
      && Digits4(e[6..], 0xDC00 + (uc - 0x10000) % 1024)
  }

  lemma PairIs(t: string, hi: nat, lo: nat)
    requires Hex4(t) == hi && HighSurrogate(hi) && At(t, 4) == '\\' && At(t, 5) == 'u'
    requires Hex4(Drop(t, 6)) == lo && LowSurrogate(lo)
    ensures UnicodeEscape(t) == (EncodeUtf8(Combine(hi, lo)), 10)
  {
    hide Hex4, EncodeUtf8, Combine;
  }

  lemma PairNumbers(uc: nat)
    requires 0x10000 <= uc < 0x110000
    ensures var hi, lo := 0xD800 + (uc - 0x10000) / 1024, 0xDC00 + (uc - 0x10000) % 1024;
      HighSurrogate(hi) && LowSurrogate(lo) && Combine(hi, lo) == uc
  {
    var hi, lo := 0xD800 + (uc - 0x10000) / 1024, 0xDC00 + (uc - 0x10000) % 1024;
    assert hi % 0x400 == (uc - 0x10000) / 1024 && lo % 0x400 == (uc - 0x10000) % 1024;
  }

  lemma PairText(h: string, l: string, rest: string)
    requires |h| == |l| == 4
    ensures var t := h + "\\u" + l + rest;
      At(t, 4) == '\\' && At(t, 5) == 'u' && Drop(t, 6) == l + rest
      && t == h + ("\\u" + l + rest)
  {}

  lemma PairParts(e: string, rest: string)
    requires |e| == 10 && e[4..6] == "\\u"
    ensures e + rest == e[..4] + "\\u" + e[6..] + rest && e + rest == e[..4] + ("\\u" + e[6..] + rest)
  {
    assert e == e[..4] + e[4..6] + e[6..];
  }

  /** An escape comes back as the UTF-8 of its code point, except that U+0000 yields no byte at all. */
  lemma EscapeIsUtf8(e: string, uc: nat, rest: string)
    requires uc < 0x110000 && !Surrogate(uc) && Escapes(e, uc)
    ensures UnicodeEscape(e + rest) == (if uc == 0 then "" else EncodeUtf8(uc), |e|)
  {
    hide Hex4, EncodeUtf8, Combine, Digits4;
    if uc < 0x10000 {
      Hex4Is(e, uc, rest);
      assert |e| == 4 by { FourDigits(e, uc); }
    } else {
      var hi, lo := 0xD800 + (uc - 0x10000) / 1024, 0xDC00 + (uc - 0x10000) % 1024;
      PairNumbers(uc);
      PairParts(e, rest);
      PairText(e[..4], e[6..], rest);
      Hex4Is(e[..4], hi, "\\u" + e[6..] + rest);
      Hex4Is(e[6..], lo, rest);
      PairIs(e + rest, hi, lo);
    }
  }

  lemma FourDigits(e: string, n: nat)
    requires Digits4(e, n)
    ensures |e| == 4
  {}

  /** Escapes that name no character take their digits and yield nothing: a low surrogate, a high one
      that no `\u` follows, and one that an escape follows that is no low one, which goes too. */
  lemma LoneSurrogates(e: string, n: nat, e': string, n': nat, rest: string)
    requires Digits4(e, n) && Surrogate(n) && Digits4(e', n')
    ensures n >= 0xDC00 ==> UnicodeEscape(e + rest) == ("", 4)
    ensures n < 0xDC00 && !("\\u" <= rest) ==> UnicodeEscape(e + rest) == ("", 4)
    ensures n < 0xDC00 && !(0xDC00 <= n' <= 0xDFFF) ==> UnicodeEscape(e + ("\\u" + e' + rest)) == ("", 10)
  {
    hide Hex4, EncodeUtf8, Combine, Digits4;
    FourDigits(e, n);
    FourDigits(e', n');
    Hex4Is(e, n, rest);
    Hex4Is(e, n, "\\u" + e' + rest);
    Hex4Is(e', n', rest);
    PairText(e, e', rest);
    assert At(e + rest, 4) == At(rest, 0) && At(e + rest, 5) == At(rest, 1);
    assert "\\u" <= rest <==> At(rest, 0) == '\\' && At(rest, 1) == 'u';
  }

  /** So does one with a character that is no digit. */
  lemma NoDigits(t: string, i: nat)
    requires i < 4 && !IsHex(At(t, i))
    ensures UnicodeEscape(t) == ("", 4)
  {}

  lemma BehindU(e: string, bytes: string)
    requires UnicodeEscape(e + "\"") == (bytes, |e|)
    ensures UnescapeOne("u" + (e + "\"")) == (bytes, "\"")
  {
    hide UnicodeEscape;
    var t := "u" + (e + "\"");
    assert t[1..] == e + "\"" && Drop(t, 1 + |e|) == "\"";
  }

  lemma BehindBackslash(t: string, bytes: string)
    requires t != "" && UnescapeOne(t) == (bytes, "\"")
    ensures Unescape("\\" + t) == (bytes, "\"")
  {
    hide UnescapeOne;
    assert ("\\" + t)[1..] == t;
    assert bytes + "" == bytes;
  }

  lemma BackslashFront(e: string, rest: string)
    ensures "\\u" + e + rest == "\\" + ("u" + (e + rest))
  {
    assert "\\u" == "\\" + "u";
  }

  lemma OneEscape(e: string, bytes: string)
    requires UnicodeEscape(e + "\"") == (bytes, |e|)
    ensures Unescape("\\u" + e + "\"") == (bytes, "\"")
  {
    hide UnicodeEscape, UnescapeOne, Unescape;
    BehindU(e, bytes);
    BehindBackslash("u" + (e + "\""), bytes);
    BackslashFront(e, "\"");
  }

  lemma OneString(body: string, bytes: string)
    requires Unescape(body + "\"") == (bytes, "\"")
    ensures ParseValue("\"" + body + "\"") == Ok(Str(bytes), "")
  {
    hide Unescape;
    var s := "\"" + body + "\"";
    assert s[1..] == body + "\"" && s[0] == '\"' && "\""[1..] == "";
    assert ParseString(s) == Ok(bytes, "");
    hide ParseString;
  }

  /** A literal that holds one escape parses to the UTF-8 text of that character, and to nothing for
      U+0000. */
  lemma ParseEscape(e: string, uc: nat)
    requires uc < 0x110000 && !Surrogate(uc) && Escapes(e, uc)
    ensures ParseValue("\"" + ("\\u" + e) + "\"") == Ok(Str(if uc == 0 then "" else EncodeUtf8(uc)), "")
    ensures uc != 0 ==> Decode(EncodeUtf8(uc)) == Some((uc, |EncodeUtf8(uc)|))
  {
    hide Escapes, EncodeUtf8, UnicodeEscape, Unescape, ParseValue, Decode;
    EscapeIsUtf8(e, uc, "\"");
    DecodeEncoded(uc, "");
    assert EncodeUtf8(uc) + "" == EncodeUtf8(uc);
    OneEscape(e, if uc == 0 then "" else EncodeUtf8(uc));
    OneString("\\u" + e, if uc == 0 then "" else EncodeUtf8(uc));
  }
}
