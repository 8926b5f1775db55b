/** Every JSON text of RFC 8259 parses to the value it denotes: with blanks between the tokens,
    numbers with fractions and exponents, and each character of a string spelled in any way. The
    grammar is written down by itself, as trees of what is spelled. */
module JsonGrammar {
  import opened CText
  import opened JsonText
  import opened JsonUtf8

  // ---------------------------------------------------------------- what is spelled

  /** A character of a string: itself, as a short escape, by its code point, or behind a backslash that
      does not change it, which the grammar of RFC 8259 does not have. */
  datatype Ch = Raw(c: char) | Short(k: nat) | Code(e: string, uc: nat) | Odd(c: char)

  const SHORT := "\"\\/bfnrt"
  const MEANT := ['\"', '\\', '/', '\U{8}', '\U{C}', '\n', '\r', '\t']

  /** A number: sign, digits, digits behind the point, and an exponent. */
  datatype Exponent = NoExponent | Exponent(mark: char, sign: string, digits: seq<nat>)
  datatype Number = Number(neg: bool, whole: seq<nat>, fraction: seq<nat>, exponent: Exponent)

  datatype Text =
    | NullText
    | FalseText
    | TrueText
    | NumberText(n: Number)
    | StringText(cs: seq<Ch>)
    | ArrayText(gap: string, slots: seq<Slot>)
    | ObjectText(gap: string, entries: seq<Entry>)

  datatype Slot = Slot(before: string, value: Text, after: string)
  datatype Entry = Entry(before: string, name: seq<Ch>, between: string, slot: Slot)

  /** Characters that are skipped between tokens. */
  predicate Gap(s: string) {
    forall i :: 0 <= i < |s| ==> 0 < s[i] as int <= 32
  }

  predicate ChFits(ch: Ch) {
    match ch
    case Raw(c) => c != '\"' && c != '\\'
    case Short(k) => k < 8
    case Code(e, uc) => uc < 0x110000 && !Surrogate(uc) && Escapes(e, uc)
    case Odd(c) => c !in SHORT && c != 'u'
  }

  predicate AllFit(cs: seq<Ch>) {
    forall i :: 0 <= i < |cs| ==> ChFits(cs[i])
  }

  predicate AreDigits(ds: seq<nat>) {
    forall i :: 0 <= i < |ds| ==> ds[i] < 10
  }

  predicate IsSign(s: string) {
    s == "" || s == "+" || s == "-"
  }

  predicate NumberFits(n: Number) {
    && AreDigits(n.whole) && n.whole != [] && (|n.whole| > 1 ==> n.whole[0] != 0)
    && AreDigits(n.fraction)
    && (n.exponent.Exponent? ==>
         (n.exponent.mark == 'e' || n.exponent.mark == 'E') && IsSign(n.exponent.sign)
         && AreDigits(n.exponent.digits) && n.exponent.digits != [])
  }

  predicate Fits(t: Text) {
    match t
    case NumberText(n) => NumberFits(n)
    case StringText(cs) => AllFit(cs)
    case ArrayText(gap, slots) =>
      Gap(gap) && forall i :: 0 <= i < |slots| ==>
        Gap(slots[i].before) && Fits(slots[i].value) && Gap(slots[i].after)
    case ObjectText(gap, entries) =>
      Gap(gap) && forall i :: 0 <= i < |entries| ==>
        && Gap(entries[i].before) && AllFit(entries[i].name) && Gap(entries[i].between)
        && Gap(entries[i].slot.before) && Fits(entries[i].slot.value) && Gap(entries[i].slot.after)
    case _ => true
  }

  predicate SlotFits(s: Slot) {
    Gap(s.before) && Fits(s.value) && Gap(s.after)
  }

  predicate EntryFits(e: Entry) {
    Gap(e.before) && AllFit(e.name) && Gap(e.between) && SlotFits(e.slot)
  }

  // ---------------------------------------------------------------- how it is spelled

  function SpellCh(ch: Ch): string
  {
    match ch
    case Raw(c) => [c]
    case Short(k) => if k < 8 then ['\\', SHORT[k]] else ""
    case Code(e, _) => "\\u" + e
    case Odd(c) => ['\\', c]
  }

  function SpellChs(cs: seq<Ch>): string
  {
    if cs == [] then "" else SpellCh(cs[0]) + SpellChs(cs[1..])
  }

  function SpellString(cs: seq<Ch>): string
  {
    "\"" + SpellChs(cs) + "\""
  }

  function SpellDigits(ds: seq<nat>): (s: string)
    ensures |s| == |ds|
  {
    if ds == [] then "" else [DigitChar(ds[0])] + SpellDigits(ds[1..])
  }

  function SpellExponent(e: Exponent): string
  {
    match e
    case NoExponent => ""
    case Exponent(mark, sign, digits) => [mark] + (sign + SpellDigits(digits))
  }

  function SpellFraction(ds: seq<nat>): string
  {
    if ds == [] then "" else "." + SpellDigits(ds)
  }

  function SpellNumber(n: Number): string
  {
    (if n.neg then "-" else "") + (SpellDigits(n.whole) + (SpellFraction(n.fraction) + SpellExponent(n.exponent)))
  }

  function Spell(t: Text): string
    decreases t, 1
  {
    match t
    case NullText => "null"
    case FalseText => "false"
    case TrueText => "true"
    case NumberText(n) => SpellNumber(n)
    case StringText(cs) => SpellString(cs)
    case ArrayText(gap, slots) => "[" + (if slots == [] then gap else SpellSlots(slots)) + "]"
    case ObjectText(gap, entries) => "{" + (if entries == [] then gap else SpellEntries(entries)) + "}"
  }

  function SpellSlot(s: Slot): string
    decreases s, 2
  {
    s.before + Spell(s.value) + s.after
  }

  function SpellSlots(slots: seq<Slot>): string
    requires slots != []
    decreases slots, 0
  {
    SpellSlot(slots[0]) + if |slots| == 1 then "" else "," + SpellSlots(slots[1..])
  }

  function SpellEntry(e: Entry): string
    decreases e, 3
  {
    e.before + SpellString(e.name) + e.between + ":" + SpellSlot(e.slot)
  }

  function SpellEntries(entries: seq<Entry>): string
    requires entries != []
    decreases entries, 0
  {
    SpellEntry(entries[0]) + if |entries| == 1 then "" else "," + SpellEntries(entries[1..])
  }

  // ---------------------------------------------------------------- what it means

  /** The bytes of a character; U+0000 is dropped. */
  function BytesOf(ch: Ch): string
  {
    match ch
    case Raw(c) => [c]
    case Short(k) => if k < 8 then [MEANT[k]] else ""
    case Code(_, uc) => if 0 < uc < 0x110000 then EncodeUtf8(uc) else ""
    case Odd(c) => [c]
  }

  function BytesOfAll(cs: seq<Ch>): string
  {
    if cs == [] then "" else BytesOf(cs[0]) + BytesOfAll(cs[1..])
  }

  /** Positional value, the first digit counting most. */
  function ValueOf(ds: seq<nat>): nat {
    if ds == [] then 0 else 10 * ValueOf(ds[..|ds| - 1]) + ds[|ds| - 1]
  }

  /** Ten to the power of `n`. */
  function TenTo(n: nat): (r: real)
    ensures r > 0.0
  {
    if n == 0 then 1.0 else 10.0 * TenTo(n - 1)
  }

  /** Whole part and fraction, scaled by the exponent. */
  function NumberValue(n: Number): real {
    var unscaled := ValueOf(n.whole) as real + ValueOf(n.fraction) as real / TenTo(|n.fraction|);
    var signed := if n.neg then -unscaled else unscaled;
    match n.exponent
    case NoExponent => signed
    case Exponent(_, sign, digits) =>
      if sign == "-" then signed / TenTo(ValueOf(digits)) else signed * TenTo(ValueOf(digits))
  }

  function Denotes(t: Text): Json
  {
    match t
    case NullText => Null
    case FalseText => False
    case TrueText => True
    case NumberText(n) => Num(NumberValue(n))
    case StringText(cs) => Str(BytesOfAll(cs))
    case ArrayText(_, slots) => Arr(ItemsOf(slots))
    case ObjectText(_, entries) => Obj(MembersOf(entries))
  }

  function ItemsOf(slots: seq<Slot>): (vs: seq<Json>)
  {
    if slots == [] then []
    else
      [Denotes(slots[0].value)] + ItemsOf(slots[1..])
  }

  function MemberOf(e: Entry): Member
    decreases e, 1
  {
    Member(BytesOfAll(e.name), Denotes(e.slot.value))
  }

  function MembersOf(entries: seq<Entry>): (ms: seq<Member>)
    decreases entries, 0
  {
    if entries == [] then [] else [MemberOf(entries[0])] + MembersOf(entries[1..])
  }

  // ---------------------------------------------------------------- strings

  lemma {:induction false} SkipGap(g: string, s: string)
    requires Gap(g) && (s == "" || s[0] as int > 32)
    ensures Skip(g + s) == s
  {
    if g == "" {
      assert g + s == s;
    } else {
      assert (g + s)[1..] == g[1..] + s;
      SkipGap(g[1..], s);
    }
  }

  lemma UnescapeRaw(c: char, t: string)
    requires c != '\"' && c != '\\'
    ensures Unescape([c] + t) == ([c] + Unescape(t).0, Unescape(t).1)
  {
    assert ([c] + t)[1..] == t;
  }

  lemma UnescapeSlash(e: string, bytes: string, t: string)
    requires e != "" && UnescapeOne(e + t) == (bytes, t)
    ensures Unescape(("\\" + e) + t) == (bytes + Unescape(t).0, Unescape(t).1)
  {
    hide UnescapeOne;
    assert (("\\" + e) + t)[1..] == e + t;
  }

  lemma ShortOne(k: nat, t: string)
    requires k < 8
    ensures UnescapeOne([SHORT[k]] + t) == ([MEANT[k]], t)
  {
    assert ([SHORT[k]] + t)[1..] == t;
  }

  lemma OddOne(c: char, t: string)
    requires c !in SHORT && c != 'u'
    ensures UnescapeOne([c] + t) == ([c], t)
  {
    assert ([c] + t)[1..] == t;
    assert SHORT[3] == 'b' && SHORT[4] == 'f' && SHORT[5] == 'n' && SHORT[6] == 'r' && SHORT[7] == 't';
  }

  lemma CodeOne(e: string, uc: nat, t: string)
    requires uc < 0x110000 && !Surrogate(uc) && Escapes(e, uc)
    ensures UnescapeOne("u" + e + t) == (if uc == 0 then "" else EncodeUtf8(uc), t)
  {
    hide EncodeUtf8, Escapes, UnicodeEscape;
    EscapeIsUtf8(e, uc, t);
    var u := "u" + e + t;
    assert u[0] == 'u' && u[1..] == e + t && Drop(u, 1 + |e|) == t;
  }

  lemma UnescapeCh(ch: Ch, t: string)
    requires ChFits(ch)
    ensures Unescape(SpellCh(ch) + t) == (BytesOf(ch) + Unescape(t).0, Unescape(t).1)
  {
    hide Unescape, UnescapeOne, EncodeUtf8, Escapes;
    match ch
    case Raw(c) => UnescapeRaw(c, t);
    case Short(k) =>
      ShortOne(k, t);
      UnescapeSlash([SHORT[k]], [MEANT[k]], t);
      assert "\\" + [SHORT[k]] == ['\\', SHORT[k]];
    case Code(e, uc) =>
      CodeOne(e, uc, t);
      UnescapeSlash("u" + e, BytesOf(ch), t);
      assert "\\" + ("u" + e) == "\\u" + e;
    case Odd(c) =>
      OddOne(c, t);
      UnescapeSlash([c], [c], t);
      assert "\\" + [c] == ['\\', c];
  }

  /** Up to `r`, where the string ends. */
  lemma {:induction false} UnescapeAll(cs: seq<Ch>, r: string)
    requires AllFit(cs) && Unescape(r).0 == ""
    ensures Unescape(SpellChs(cs) + r) == (BytesOfAll(cs), Unescape(r).1)
  {
    hide Unescape, ChFits, SpellCh, BytesOf;
    if cs == [] {
      assert "" + r == r;
    } else {
      UnescapeAll(cs[1..], r);
      UnescapeCh(cs[0], SpellChs(cs[1..]) + r);
      assert SpellChs(cs) + r == SpellCh(cs[0]) + (SpellChs(cs[1..]) + r);
    }
  }

  lemma AtQuote(u: string)
    ensures Unescape("\"" + u) == ("", "\"" + u) && Unescape("") == ("", "") && Unescape("\\") == ("", "")
  {}

  /** A string that is not closed ends with the text, and so does one that ends in a lone backslash. */
  lemma UnclosedParses(cs: seq<Ch>, r: string)
    requires AllFit(cs) && (r == "" || r == "\\")
    ensures ParseString("\"" + SpellChs(cs) + r) == Ok(BytesOfAll(cs), "")
  {
    hide Unescape, SpellChs;
    AtQuote("");
    UnescapeAll(cs, r);
    assert ("\"" + SpellChs(cs) + r)[1..] == SpellChs(cs) + r;
  }

  lemma StringParses(cs: seq<Ch>, u: string)
    requires AllFit(cs)
    ensures ParseString(SpellString(cs) + u) == Ok(BytesOfAll(cs), u)
  {
    hide Unescape, SpellChs, BytesOfAll, AllFit;
    AtQuote(u);
    UnescapeAll(cs, "\"" + u);
    QuotedText(SpellChs(cs), u);
  }

  lemma QuotedText(x: string, u: string)
    ensures var s := "\"" + x + "\"" + u; s[0] == '\"' && s[1..] == x + ("\"" + u)
    ensures ("\"" + u)[1..] == u
  {}

  // ---------------------------------------------------------------- numbers

  /** The digit loop, from the front. */
  function Gathered(n: nat, ds: seq<nat>): nat
    decreases |ds|
  {
    if ds == [] then n else Gathered(10 * n + ds[0], ds[1..])
  }

  function DigitChar(d: nat): char {
    if d < 10 then "0123456789"[d] else '0'
  }

  lemma DigitCharIs(d: nat)
    requires d < 10
    ensures IsDigit(DigitChar(d)) && DigitVal(DigitChar(d)) == d && (DigitChar(d) == '0' <==> d == 0)
  {}

  lemma DigitFirst(ds: seq<nat>, t: string)
    requires AreDigits(ds) && ds != []
    ensures var s := SpellDigits(ds) + t;
      s != "" && IsDigit(s[0]) && DigitVal(s[0]) == ds[0] && s[1..] == SpellDigits(ds[1..]) + t
      && (s[0] == '0' <==> ds[0] == 0)
  {
    hide DigitChar, IsDigit, DigitVal;
    DigitCharIs(ds[0]);
    assert SpellDigits(ds) == [DigitChar(ds[0])] + SpellDigits(ds[1..]);
  }

  lemma {:induction false} DigitsGather(ds: seq<nat>, n: nat, t: string)
    requires AreDigits(ds) && !IsDigit(Head(t))
    ensures Digits(SpellDigits(ds) + t, n) == (Gathered(n, ds), t)
  {
    if ds == [] {
      assert "" + t == t;
    } else {
      DigitFirst(ds, t);
      DigitsGather(ds[1..], 10 * n + ds[0], t);
      hide SpellDigits, IsDigit, DigitVal;
    }
  }

  lemma {:induction false} GatheredLast(n: nat, ds: seq<nat>, d: nat)
    ensures Gathered(n, ds + [d]) == 10 * Gathered(n, ds) + d
    decreases |ds|
  {
    if ds == [] {
      assert ds + [d] == [d] && [d][1..] == [];
    } else {
      assert (ds + [d])[1..] == ds[1..] + [d];
      GatheredLast(10 * n + ds[0], ds[1..], d);
    }
  }

  /** Digits read on top of a number `n`. */
  lemma {:induction false} GatheredSum(n: nat, ds: seq<nat>)
    ensures Gathered(n, ds) == n * Tens(|ds|) + ValueOf(ds)
  {
    if ds != [] {
      var k := |ds| - 1;
      LastDigit(ds);
      GatheredLast(n, ds[..k], ds[k]);
      GatheredSum(n, ds[..k]);
      hide Gathered, ValueOf, Tens;
      TenMore(n, Tens(k), ValueOf(ds[..k]), ds[k]);
    }
  }

  function Tens(n: nat): nat {
    if n == 0 then 1 else 10 * Tens(n - 1)
  }

  lemma {:induction false} TensIs(n: nat)
    ensures Tens(n) as real == TenTo(n)
  {
    if n > 0 { TensIs(n - 1); }
  }

  lemma LastDigit(ds: seq<nat>)
    requires ds != []
    ensures var k := |ds| - 1;
      ds == ds[..k] + [ds[k]] && ValueOf(ds) == 10 * ValueOf(ds[..k]) + ds[k] && Tens(|ds|) == 10 * Tens(k)
  {}

  lemma TenMore(n: nat, p: nat, v: nat, d: nat)
    ensures 10 * (n * p + v) + d == n * (10 * p) + (10 * v + d)
  {}

  /** Digits read on top of a number `n`. */
  lemma GatheredIs(n: nat, ds: seq<nat>)
    ensures Gathered(n, ds) as real == n as real * TenTo(|ds|) + ValueOf(ds) as real
  {
    hide Gathered, ValueOf, Tens, TenTo;
    GatheredSum(n, ds);
    TensIs(|ds|);
    RealProduct(n, Tens(|ds|));
  }

  lemma RealProduct(a: nat, b: nat)
    ensures (a * b) as real == a as real * b as real
  {}

  lemma {:induction false} Pow10Is(n: nat)
    ensures Pow10(n) == TenTo(n) && Pow10(-(n as int)) * TenTo(n) == 1.0
  {
    if n > 0 {
      Pow10Is(n - 1);
      Cancel(Pow10(1 - n), TenTo(n - 1));
      assert Pow10(-(n as int)) == Pow10(1 - n) / 10.0;
    }
  }

  lemma Cancel(a: real, b: real)
    requires a * b == 1.0
    ensures a / 10.0 * (10.0 * b) == 1.0
  {
    assert a / 10.0 * (10.0 * b) == a * b;
  }

  lemma {:induction false} Pow10Step(k: int)
    ensures Pow10(k + 1) == 10.0 * Pow10(k)
  {}

  lemma {:induction false} Pow10Sum(a: int, n: nat)
    ensures Pow10(a + n) == Pow10(a) * Pow10(n)
    decreases n
  {
    if n > 0 {
      Pow10Sum(a, n - 1);
      Pow10Step(a + n - 1);
      assert Pow10(n) == 10.0 * Pow10(n - 1);
      assert 10.0 * (Pow10(a) * Pow10(n - 1)) == Pow10(a) * (10.0 * Pow10(n - 1));
    }
  }

  /** What may stand behind a number. */
  predicate Ends(t: string) {
    !IsDigit(Head(t)) && Head(t) != '.' && Head(t) != 'e' && Head(t) != 'E'
  }

  /** The digits in front of the point, as the parser reads them. */
  function Leading(s: string): (nat, string) {
    var s2 := if Head(s) == '0' then s[1..] else s;
    if '1' <= Head(s2) <= '9' then Digits(s2, 0) else (0, s2)
  }

  lemma GatheredFromZero(ds: seq<nat>)
    ensures Gathered(0, ds) == ValueOf(ds)
  {
    hide ValueOf, Gathered, TenTo;
    GatheredIs(0, ds);
  }

  lemma LeadingZero(t: string)
    requires !IsDigit(Head(t))
    ensures Leading("0" + t) == (0, t)
  {
    assert ("0" + t)[1..] == t;
  }

  lemma LeadingDigits(s: string)
    requires s != "" && '1' <= s[0] <= '9'
    ensures Leading(s) == Digits(s, 0)
  {
    hide Digits;
  }

  lemma WholeParses(ds: seq<nat>, t: string)
    requires AreDigits(ds) && ds != [] && (|ds| > 1 ==> ds[0] != 0) && !IsDigit(Head(t))
    ensures Leading(SpellDigits(ds) + t) == (ValueOf(ds), t)
    ensures IsDigit(Head(SpellDigits(ds) + t))
  {
    hide Leading, Digits, Gathered;
    DigitFirst(ds, t);
    if ds[0] == 0 {
      assert ds == [0] && SpellDigits(ds) == "0" && ValueOf(ds) == 0;
      LeadingZero(t);
    } else {
      hide SpellDigits, ValueOf;
      LeadingDigits(SpellDigits(ds) + t);
      DigitsGather(ds, 0, t);
      GatheredFromZero(ds);
    }
  }

  lemma MantissaIs(s: string)
    ensures var (n, s3) := Leading(s);
      Mantissa(s) == if Head(s3) == '.' && IsDigit(At(s3, 1)) then
          (Digits(s3[1..], n).0, Digits(s3[1..], n).1, -(|s3| - 1 - |Digits(s3[1..], n).1|))
        else (n, s3, 0)
  {
    hide Digits;
  }

  lemma PointText(fraction: seq<nat>, t: string)
    requires AreDigits(fraction) && fraction != []
    ensures var s := SpellFraction(fraction) + t;
      Head(s) == '.' && !IsDigit('.') && s[1..] == SpellDigits(fraction) + t && IsDigit(At(s, 1))
      && |s| == 1 + |fraction| + |t|
  {
    DigitFirst(fraction, t);
    hide SpellDigits;
    assert SpellFraction(fraction) + t == "." + (SpellDigits(fraction) + t);
  }

  lemma MantissaParses(whole: seq<nat>, fraction: seq<nat>, t: string)
    requires AreDigits(whole) && whole != [] && (|whole| > 1 ==> whole[0] != 0) && AreDigits(fraction)
    requires !IsDigit(Head(t)) && Head(t) != '.'
    ensures Mantissa(SpellDigits(whole) + (SpellFraction(fraction) + t))
         == (Gathered(ValueOf(whole), fraction), t, -|fraction|)
    ensures IsDigit(Head(SpellDigits(whole) + (SpellFraction(fraction) + t)))
  {
    hide Leading, Digits, ValueOf, Mantissa, SpellDigits, SpellFraction, Gathered, IsDigit;
    var s3 := SpellFraction(fraction) + t;
    if fraction == [] {
      NoPoint(t);
      WholeParses(whole, s3);
      MantissaIs(SpellDigits(whole) + s3);
    } else {
      PointText(fraction, t);
      DigitsGather(fraction, ValueOf(whole), t);
      WholeParses(whole, s3);
      MantissaIs(SpellDigits(whole) + s3);
    }
  }

  lemma NoPoint(t: string)
    ensures SpellFraction([]) + t == t
    ensures forall n: nat :: Gathered(n, []) == n
  {}

  /** The exponent as an integer. */
  function Power(e: Exponent): int {
    match e
    case NoExponent => 0
    case Exponent(_, sign, digits) => if sign == "-" then -(ValueOf(digits) as int) else ValueOf(digits)
  }

  predicate ExponentFits(e: Exponent) {
    e.Exponent? ==>
      (e.mark == 'e' || e.mark == 'E') && IsSign(e.sign) && AreDigits(e.digits) && e.digits != []
  }

  lemma ExponentHead(mark: char, sign: string, u: string)
    requires (mark == 'e' || mark == 'E') && IsSign(sign) && IsDigit(Head(u))
    ensures ParseExponent([mark] + (sign + u))
         == (if sign == "-" then -(Digits(u, 0).0 as int) else Digits(u, 0).0 as int, Digits(u, 0).1)
  {
    hide Digits;
    assert ([mark] + (sign + u))[1..] == sign + u;
    if sign == "" {
      assert sign + u == u;
    } else {
      assert (sign + u)[1..] == u && (sign + u)[0] == sign[0];
    }
  }

  lemma SignedText(mark: char, sign: string, x: string, t: string)
    requires (mark == 'e' || mark == 'E') && IsSign(sign) && IsDigit(Head(x + t))
    ensures var s, u := [mark] + (sign + x) + t, x + t;
      ParseExponent(s) == (if sign == "-" then -(Digits(u, 0).0 as int) else Digits(u, 0).0 as int, Digits(u, 0).1)
      && Head(s) == mark
  {
    hide Digits, ParseExponent, IsDigit, IsSign, Head;
    ExponentHead(mark, sign, x + t);
    Regroup(mark, sign, x, t);
  }

  lemma SignedExponent(mark: char, sign: string, digits: seq<nat>, t: string)
    requires (mark == 'e' || mark == 'E') && IsSign(sign) && AreDigits(digits) && digits != []
    ensures var s, u := [mark] + (sign + SpellDigits(digits)) + t, SpellDigits(digits) + t;
      ParseExponent(s) == (if sign == "-" then -(Digits(u, 0).0 as int) else Digits(u, 0).0 as int, Digits(u, 0).1)
      && Head(s) == mark
  {
    DigitFirst(digits, t);
    hide SpellDigits, Digits, ParseExponent, IsDigit, IsSign, AreDigits, DigitVal;
    SignedText(mark, sign, SpellDigits(digits), t);
  }

  lemma Regroup(c: char, a: string, b: string, t: string)
    ensures [c] + (a + b) + t == [c] + (a + (b + t)) && Head([c] + (a + b) + t) == c
  {}

  lemma ExponentParses(e: Exponent, t: string)
    requires ExponentFits(e) && Ends(t)
    ensures ParseExponent(SpellExponent(e) + t) == (Power(e), t)
    ensures !IsDigit(Head(SpellExponent(e) + t)) && Head(SpellExponent(e) + t) != '.'
  {
    match e
    case NoExponent => assert "" + t == t;
    case Exponent(mark, sign, digits) =>
      hide SpellDigits, Digits, ParseExponent, Gathered, ValueOf;
      SignedExponent(mark, sign, digits, t);
      DigitsGather(digits, 0, t);
      GatheredFromZero(digits);
  }

  lemma ShiftPoint(w: real, f: real, p: real, q: real)
    requires p > 0.0 && q * p == 1.0
    ensures (w * p + f) * q == w + f / p
  {
    assert f * q == f / p by {
      assert f / p * p == f;
      assert f * q == f / p * p * q == f / p * (q * p);
    }
    assert (w * p + f) * q == w * (q * p) + f * q;
  }

  lemma TimesPower(x: real, k: nat)
    ensures x * Pow10(k) == x * TenTo(k) && x * Pow10(-(k as int)) == x / TenTo(k)
  {
    Pow10Is(k);
    var q, p := Pow10(-(k as int)), TenTo(k);
    assert x / p * p == x;
    assert x * q == x / p * p * q == x / p * (q * p);
  }

  lemma Pow10Any(a: int, b: int)
    ensures Pow10(a + b) == Pow10(a) * Pow10(b)
  {
    hide Pow10, TenTo;
    if b >= 0 {
      Pow10Sum(a, b);
    } else {
      Pow10Sum(a + b, -b);
      Pow10Is(-b);
      Unfactor(Pow10(a), Pow10(a + b), TenTo(-b), Pow10(b));
    }
  }

  lemma Unfactor(a: real, c: real, p: real, q: real)
    requires a == c * p && q * p == 1.0
    ensures c == a * q
  {
    assert a * q == c * (q * p);
  }

  lemma Rescaled(g: real, w: real, f: real, p: real, q: real, x: real, r: real)
    requires p > 0.0 && q * p == 1.0 && g == w * p + f && r == q * x
    ensures g * r == (w + f / p) * x
  {
    ShiftPoint(w, f, p, q);
    assert g * (q * x) == g * q * x;
  }

  lemma PowerIs(u: real, e: Exponent)
    ensures u * Pow10(Power(e)) == match e
      case NoExponent => u
      case Exponent(_, sign, digits) =>
        if sign == "-" then u / TenTo(ValueOf(digits)) else u * TenTo(ValueOf(digits))
  {
    hide Pow10, TenTo, ValueOf;
    match e
    case NoExponent => Pow10Zero();
    case Exponent(_, sign, digits) => TimesPower(u, ValueOf(digits));
  }

  /** The number the parser makes of mantissa and exponent is the one that is denoted. */
  lemma MagnitudeIs(n: Number)
    requires NumberFits(n)
    ensures var m := Scaled(Gathered(ValueOf(n.whole), n.fraction), -|n.fraction| + Power(n.exponent));
      NumberValue(n) == if n.neg then -m else m
  {
    hide Pow10, TenTo, ValueOf, Gathered, Power;
    var w, f, k, e := ValueOf(n.whole) as real, ValueOf(n.fraction) as real, |n.fraction|, Power(n.exponent);
    var g := Gathered(ValueOf(n.whole), n.fraction);
    GatheredIs(ValueOf(n.whole), n.fraction);
    Pow10Is(k);
    Pow10Any(-k, e);
    Rescaled(g as real, w, f, TenTo(k), Pow10(-k), Pow10(e), Pow10(-k + e));
    var u := w + f / TenTo(k);
    assert Scaled(g, -k + e) == u * Pow10(e);
    PowerIs(u, n.exponent);
    if n.exponent.Exponent? {
      Negated(u, TenTo(ValueOf(n.exponent.digits)));
    }
  }

  lemma Pow10Zero()
    ensures Pow10(0) == 1.0
  {}

  lemma Negated(u: real, p: real)
    requires p > 0.0
    ensures (-u) * p == -(u * p) && (-u) / p == -(u / p)
  {}

  lemma NumberParses(n: Number, t: string)
    requires NumberFits(n) && Ends(t)
    ensures var s := SpellNumber(n) + t;
      (Head(s) == '-' || IsDigit(Head(s))) && ParseNumber(s) == (NumberValue(n), t)
  {
    hide Mantissa, ParseExponent, Scaled, NumberValue, Gathered, ValueOf, SpellDigits, SpellFraction, SpellExponent;
    hide Power;
    var u := SpellDigits(n.whole) + (SpellFraction(n.fraction) + (SpellExponent(n.exponent) + t));
    ExponentParses(n.exponent, t);
    MantissaParses(n.whole, n.fraction, SpellExponent(n.exponent) + t);
    MagnitudeIs(n);
    var s := SpellNumber(n) + t;
    if n.neg {
      assert s == "-" + u && s[1..] == u;
    } else {
      assert s == u;
    }
  }

  // ---------------------------------------------------------------- values

  /** A value starts with none of the characters that separate or close. */
  predicate Starts(c: char) {
    c as int > 32 && c != ',' && c != ':' && c != ']' && c != '}'
  }

  lemma NumberFirst(n: Number)
    requires NumberFits(n)
    ensures SpellNumber(n) != "" && Starts(SpellNumber(n)[0])
  {
    DigitFirst(n.whole, SpellFraction(n.fraction) + SpellExponent(n.exponent));
  }

  lemma SpellFirst(t: Text)
    requires Fits(t)
    ensures Spell(t) != "" && Starts(Spell(t)[0])
  {
    if t.NumberText? { NumberFirst(t.n); }
  }

  /** What may stand behind a spelled value. */
  predicate Follows(t: Text, u: string) {
    t.NumberText? ==> Ends(u)
  }

  lemma GapEnds(g: string, u: string)
    requires Gap(g) && Ends(u)
    ensures Ends(g + u)
  {
    if g != "" { assert (g + u)[0] == g[0]; } else { assert g + u == u; }
  }

  lemma NumberHead(s: string)
    requires Head(s) == '-' || IsDigit(Head(s))
    ensures ParseValue(s) == Ok(Num(ParseNumber(s).0), ParseNumber(s).1)
  {
    hide ParseNumber;
    assert s[0] != 'n' && s[0] != 'f' && s[0] != 't';
    assert !("null" <= s) && !("false" <= s) && !("true" <= s);
  }

  lemma StringHead(s: string, x: string, u: string)
    requires Head(s) == '\"' && ParseString(s) == Ok(x, u)
    ensures ParseValue(s) == Ok(Str(x), u)
  {
    hide ParseString;
    assert !("null" <= s) && !("false" <= s) && !("true" <= s);
  }

  lemma LiteralHead(u: string)
    ensures ParseValue("null" + u) == Ok(Null, u) && ParseValue("false" + u) == Ok(False, u)
    ensures ParseValue("true" + u) == Ok(True, u)
  {
    assert ("null" + u)[4..] == u && ("false" + u)[5..] == u && ("true" + u)[4..] == u;
    assert ("false" + u)[0] == 'f' && ("true" + u)[0] == 't';
  }

  lemma ArrayHead(s: string)
    requires Head(s) == '['
    ensures var t := Skip(s[1..]);
      ParseValue(s) == if Head(t) == ']' then Ok(Arr([]), t[1..])
        else match ParseItems(t)
          case Ok(vs, r) => Ok(Arr(vs), r)
          case Fail(at) => Fail(at)
  {
    hide Skip;
    assert !("null" <= s) && !("false" <= s) && !("true" <= s);
  }

  lemma ObjectHead(s: string)
    requires Head(s) == '{'
    ensures var t := Skip(s[1..]);
      ParseValue(s) == if Head(t) == '}' then Ok(Obj([]), t[1..])
        else match ParseMembers(t)
          case Ok(ms, r) => Ok(Obj(ms), r)
          case Fail(at) => Fail(at)
  {
    hide Skip;
    assert !("null" <= s) && !("false" <= s) && !("true" <= s);
  }

  /** What the parser makes of a list of items, by what stands behind it. */
  function AfterItems(vs: seq<Json>, u: string): Parsed<seq<Json>> {
    if Head(u) == ']' then Ok(vs, u[1..])
    else if Head(u) == ',' then
      match ParseItems(u[1..])
      case Ok(ws, r) => Ok(vs + ws, r)
      case Fail(at) => Fail(at)
    else Fail(u)
  }

  function AfterMembers(ms: seq<Member>, u: string): Parsed<seq<Member>> {
    if Head(u) == '}' then Ok(ms, u[1..])
    else if Head(u) == ',' then
      match ParseMembers(u[1..])
      case Ok(ns, r) => Ok(ms + ns, r)
      case Fail(at) => Fail(at)
    else Fail(u)
  }

  /** Every value that is spelled parses to what it denotes, and the parse stops exactly behind it. */
  lemma {:induction false} Parses(t: Text, u: string)
    requires Fits(t) && Follows(t, u)
    ensures ParseValue(Spell(t) + u) == Ok(Denotes(t), u)
    decreases t, 1
  {
    hide ParseValue, SpellNumber, SpellString, NumberValue;
    match t
    case NullText => LiteralHead(u);
    case FalseText => LiteralHead(u);
    case TrueText => LiteralHead(u);
    case NumberText(n) =>
      NumberParses(n, u);
      NumberHead(Spell(t) + u);
    case StringText(cs) =>
      StringParses(cs, u);
      assert Head(SpellString(cs) + u) == '\"' by { QuoteFirst(cs, u); }
      StringHead(Spell(t) + u, BytesOfAll(cs), u);
    case ArrayText(gap, slots) => ParsesArray(gap, slots, u);
    case ObjectText(gap, entries) => ParsesObject(gap, entries, u);
  }

  lemma QuoteFirst(cs: seq<Ch>, u: string)
    requires AllFit(cs)
    ensures SpellString(cs) != "" && SpellString(cs)[0] == '\"' && Head(SpellString(cs) + u) == '\"'
  {}

  lemma SkipNothing(u: string)
    requires u == "" || u[0] as int > 32
    ensures Skip(u) == u
  {}

  lemma {:induction false} SkipTwice(u: string)
    ensures Skip(Skip(u)) == Skip(u)
  {
    if u != "" && u[0] != '\0' && u[0] as int <= 32 { SkipTwice(u[1..]); }
  }

  lemma ItemsSkip(u: string)
    ensures ParseItems(Skip(u)) == ParseItems(u)
  {
    SkipTwice(u);
    hide Skip, ParseValue;
  }

  lemma MembersSkip(u: string)
    ensures ParseMembers(Skip(u)) == ParseMembers(u)
  {
    SkipTwice(u);
    hide Skip, ParseValue, ParseString;
    assert ParseMember(Skip(u)) == ParseMember(u);
  }

  lemma ItemsStep(s: string, v: Json, r: string, w: string)
    requires ParseValue(Skip(s)) == Ok(v, r) && Skip(r) == w
    ensures ParseItems(s) == AfterItems([v], w)
  {
    hide Skip, ParseValue;
    assert [v] + [] == [v];
  }

  lemma ItemsChain(v: Json, vs: seq<Json>, w: string, u: string)
    requires Head(w) == ',' && ParseItems(w[1..]) == AfterItems(vs, u)
    ensures AfterItems([v], w) == AfterItems([v] + vs, u)
  {
    hide ParseItems;
    if Head(u) == ',' && ParseItems(u[1..]).Ok? {
      assert [v] + (vs + ParseItems(u[1..]).value) == [v] + vs + ParseItems(u[1..]).value;
    }
  }

  /** What may stand behind a list: nothing that is skipped or goes on a number. */
  predicate Behind(u: string) {
    (u == "" || u[0] as int > 32) && Ends(u)
  }

  lemma SlotText(slot: Slot, w: string)
    requires SlotFits(slot) && Behind(w)
    ensures Skip(SpellSlot(slot) + w) == Spell(slot.value) + (slot.after + w)
    ensures Starts(Head(Skip(SpellSlot(slot) + w))) && Skip(SpellSlot(slot) + w) != ""
    ensures Skip(slot.after + w) == w && Ends(slot.after + w)
  {
    hide Skip, Spell, Gap, Fits;
    var v := Spell(slot.value);
    SpellFirst(slot.value);
    assert SpellSlot(slot) + w == slot.before + (v + (slot.after + w));
    assert (v + (slot.after + w))[0] == v[0];
    SkipGap(slot.before, v + (slot.after + w));
    SkipGap(slot.after, w);
    GapEnds(slot.after, w);
  }

  lemma CommaBehind(x: string)
    ensures Behind("," + x) && Head("," + x) == ',' && ("," + x)[1..] == x
  {}

  lemma SplitSlots(slots: seq<Slot>, u: string) returns (w: string)
    requires slots != [] && (forall i :: 0 <= i < |slots| ==> SlotFits(slots[i])) && Behind(u)
    ensures SpellSlots(slots) + u == SpellSlot(slots[0]) + w && Behind(w)
    ensures |slots| == 1 ==> w == u
    ensures |slots| > 1 ==> Head(w) == ',' && w[1..] == SpellSlots(slots[1..]) + u
  {
    hide SlotFits, SpellSlot, Behind;
    if |slots| == 1 {
      w := u;
      assert SpellSlot(slots[0]) + "" == SpellSlot(slots[0]);
    } else {
      w := "," + (SpellSlots(slots[1..]) + u);
      CommaBehind(SpellSlots(slots[1..]) + u);
      Enclosed(SpellSlot(slots[0]), ",", SpellSlots(slots[1..]), u);
      assert SpellSlot(slots[0]) + ("," + SpellSlots(slots[1..])) == SpellSlot(slots[0]) + "," + SpellSlots(slots[1..]);
    }
  }

  /** A list of items parses up to what stands behind it: a closing bracket ends it, a comma goes on
      with it, and anything else is where the parse fails. */
  lemma {:induction false} ParsesSlots(slots: seq<Slot>, u: string)
    requires slots != [] && (forall i :: 0 <= i < |slots| ==> SlotFits(slots[i])) && Behind(u)
    ensures ParseItems(SpellSlots(slots) + u) == AfterItems(ItemsOf(slots), u)
    decreases slots, 1
  {
    hide ParseItems, ParseValue, Skip, Spell, SpellSlot, AfterItems, Behind, Fits, Gap, Denotes;
    var slot, rest := slots[0], slots[1..];
    assert SlotFits(slot);
    var w := SplitSlots(slots, u);
    SlotText(slot, w);
    Parses(slot.value, slot.after + w);
    ItemsStep(SpellSlots(slots) + u, Denotes(slot.value), slot.after + w, w);
    if |slots| == 1 {
      assert ItemsOf(slots) == [Denotes(slot.value)] + ItemsOf([]) == [Denotes(slot.value)];
    } else {
      ParsesSlots(rest, u);
      ItemsChain(Denotes(slot.value), ItemsOf(rest), w, u);
    }
  }

  lemma SlotsStart(slots: seq<Slot>, u: string)
    requires slots != [] && (forall i :: 0 <= i < |slots| ==> SlotFits(slots[i])) && Behind(u)
    ensures Starts(Head(Skip(SpellSlots(slots) + u)))
  {
    hide Skip, Spell, SpellSlot, SpellSlots, Behind, Fits, Gap, Starts;
    var w := SplitSlots(slots, u);
    assert SlotFits(slots[0]);
    SlotText(slots[0], w);
  }

  lemma BracketBehind(u: string)
    ensures Behind("]" + u) && Head("]" + u) == ']' && ("]" + u)[1..] == u
    ensures Behind("}" + u) && Head("}" + u) == '}' && ("}" + u)[1..] == u
  {}

  lemma {:induction false} ParsesArray(gap: string, slots: seq<Slot>, u: string)
    requires Gap(gap) && forall i :: 0 <= i < |slots| ==> SlotFits(slots[i])
    ensures Fits(ArrayText(gap, slots))
    ensures ParseValue(Spell(ArrayText(gap, slots)) + u) == Ok(Arr(ItemsOf(slots)), u)
    decreases slots, 2
  {
    var inner := if slots == [] then gap else SpellSlots(slots);
    var s := "[" + (inner + ("]" + u));
    ArrayShape(gap, slots, u);
    hide ParseValue, ParseItems, Skip, SpellSlots, Spell, Behind, Gap;
    assert s[1..] == inner + ("]" + u) && Head(s) == '[';
    ArrayHead(s);
    BracketBehind(u);
    if slots == [] {
      SkipGap(gap, "]" + u);
    } else {
      ParsesSlots(slots, "]" + u);
      SlotsStart(slots, "]" + u);
      ItemsSkip(inner + ("]" + u));
    }
  }

  lemma ArrayFits(gap: string, slots: seq<Slot>)
    requires Gap(gap) && forall i :: 0 <= i < |slots| ==> SlotFits(slots[i])
    ensures Fits(ArrayText(gap, slots))
  {
    forall i | 0 <= i < |slots| ensures Gap(slots[i].before) && Fits(slots[i].value) && Gap(slots[i].after) {
      assert SlotFits(slots[i]);
    }
    hide Gap;
  }

  lemma Enclosed(a: string, inner: string, b: string, u: string)
    ensures a + inner + b + u == a + (inner + (b + u))
  {}

  lemma SpellArray(t: Text)
    requires Fits(t) && t.ArrayText? && forall i :: 0 <= i < |t.slots| ==> SlotFits(t.slots[i])
    ensures Spell(t) == "[" + (if t.slots == [] then t.gap else SpellSlots(t.slots)) + "]"
  {
    hide SlotFits, Gap, SpellSlots;
  }

  lemma ArrayShape(gap: string, slots: seq<Slot>, u: string)
    requires Gap(gap) && forall i :: 0 <= i < |slots| ==> SlotFits(slots[i])
    ensures Fits(ArrayText(gap, slots))
    ensures Spell(ArrayText(gap, slots)) + u
         == "[" + ((if slots == [] then gap else SpellSlots(slots)) + ("]" + u))
  {
    hide Spell, Fits, SlotFits, Gap, SpellSlots;
    ArrayFits(gap, slots);
    SpellArray(ArrayText(gap, slots));
    Enclosed("[", if slots == [] then gap else SpellSlots(slots), "]", u);
  }

  lemma MemberStep(s: string, name: string, r: string, t: string, v: Json, q: string)
    requires ParseString(Skip(s)) == Ok(name, r) && Skip(r) == ":" + t && ParseValue(Skip(t)) == Ok(v, q)
    ensures ParseMember(s) == Ok(Member(name, v), Skip(q))
  {
    hide Skip, ParseString, ParseValue;
    assert (":" + t)[1..] == t;
  }

  lemma MembersStep(s: string, m: Member, w: string)
    requires ParseMember(s) == Ok(m, w)
    ensures ParseMembers(s) == AfterMembers([m], w)
  {
    hide ParseMember;
    assert [m] + [] == [m];
  }

  lemma MembersChain(m: Member, ms: seq<Member>, w: string, u: string)
    requires Head(w) == ',' && ParseMembers(w[1..]) == AfterMembers(ms, u)
    ensures AfterMembers([m], w) == AfterMembers([m] + ms, u)
  {
    hide ParseMembers;
    if Head(u) == ',' && ParseMembers(u[1..]).Ok? {
      assert [m] + (ms + ParseMembers(u[1..]).value) == [m] + ms + ParseMembers(u[1..]).value;
    }
  }

  lemma EntryText(e: Entry, w: string)
    requires EntryFits(e)
    ensures Skip(SpellEntry(e) + w) == SpellString(e.name) + (e.between + (":" + (SpellSlot(e.slot) + w)))
    ensures Skip(e.between + (":" + (SpellSlot(e.slot) + w))) == ":" + (SpellSlot(e.slot) + w)
    ensures Head(Skip(SpellEntry(e) + w)) == '\"'
  {
    hide Skip, SpellSlot, Gap, SpellString, AllFit, SlotFits;
    var x := ":" + (SpellSlot(e.slot) + w);
    var y := SpellString(e.name) + (e.between + x);
    QuoteFirst(e.name, e.between + x);
    assert SpellEntry(e) + w == e.before + y;
    SkipGap(e.before, y);
    SkipGap(e.between, x);
  }

  lemma {:induction false} ParsesEntry(e: Entry, w: string)
    requires EntryFits(e) && Behind(w)
    ensures ParseMember(SpellEntry(e) + w) == Ok(MemberOf(e), w)
    decreases e, 4
  {
    hide ParseMember, ParseString, ParseValue, Skip, SpellString, SpellEntry, SpellSlot, Spell, BytesOfAll, Denotes;
    hide Behind, Gap, AllFit, Fits;
    var t := SpellSlot(e.slot) + w;
    EntryText(e, w);
    StringParses(e.name, e.between + (":" + t));
    SlotText(e.slot, w);
    Parses(e.slot.value, e.slot.after + w);
    MemberStep(SpellEntry(e) + w, BytesOfAll(e.name), e.between + (":" + t), t, Denotes(e.slot.value),
      e.slot.after + w);
  }

  /** The same for the members of an object. */
  lemma {:induction false} ParsesEntries(entries: seq<Entry>, u: string)
    requires entries != [] && (forall i :: 0 <= i < |entries| ==> EntryFits(entries[i])) && Behind(u)
    ensures ParseMembers(SpellEntries(entries) + u) == AfterMembers(MembersOf(entries), u)
    decreases entries, 1
  {
    hide ParseMembers, ParseMember, SpellEntry, AfterMembers, Behind, EntryFits, MemberOf;
    var e, rest := entries[0], entries[1..];
    assert EntryFits(e);
    var w := if |entries| == 1 then u else "," + (SpellEntries(rest) + u);
    assert SpellEntries(entries) + u == SpellEntry(e) + w;
    if |entries| > 1 { CommaBehind(SpellEntries(rest) + u); }
    ParsesEntry(e, w);
    MembersStep(SpellEntries(entries) + u, MemberOf(e), w);
    if |entries| == 1 {
      assert MembersOf(entries) == [MemberOf(e)] + MembersOf([]) == [MemberOf(e)];
    } else {
      ParsesEntries(rest, u);
      MembersChain(MemberOf(e), MembersOf(rest), w, u);
    }
  }

  lemma {:induction false} ParsesObject(gap: string, entries: seq<Entry>, u: string)
    requires Gap(gap) && forall i :: 0 <= i < |entries| ==> EntryFits(entries[i])
    ensures Fits(ObjectText(gap, entries))
    ensures ParseValue(Spell(ObjectText(gap, entries)) + u) == Ok(Obj(MembersOf(entries)), u)
    decreases entries, 2
  {
    var inner := if entries == [] then gap else SpellEntries(entries);
    var s := "{" + (inner + ("}" + u));
    ObjectShape(gap, entries, u);
    hide ParseValue, ParseMembers, Skip, SpellEntries, Spell, Behind, Gap;
    assert s[1..] == inner + ("}" + u) && Head(s) == '{';
    ObjectHead(s);
    BracketBehind(u);
    if entries == [] {
      SkipGap(gap, "}" + u);
    } else {
      ParsesEntries(entries, "}" + u);
      EntriesStart(entries, "}" + u);
      MembersSkip(inner + ("}" + u));
    }
  }

  lemma EntriesStart(entries: seq<Entry>, u: string)
    requires entries != [] && forall i :: 0 <= i < |entries| ==> EntryFits(entries[i])
    ensures Head(Skip(SpellEntries(entries) + u)) == '\"'
  {
    hide Skip, SpellEntry, EntryFits;
    var w := if |entries| == 1 then u else "," + (SpellEntries(entries[1..]) + u);
    assert SpellEntries(entries) + u == SpellEntry(entries[0]) + w;
    assert EntryFits(entries[0]);
    EntryText(entries[0], w);
  }

  lemma ObjectFits(gap: string, entries: seq<Entry>)
    requires Gap(gap) && forall i :: 0 <= i < |entries| ==> EntryFits(entries[i])
    ensures Fits(ObjectText(gap, entries))
  {
    forall i | 0 <= i < |entries|
      ensures Gap(entries[i].before) && AllFit(entries[i].name) && Gap(entries[i].between)
      ensures Gap(entries[i].slot.before) && Fits(entries[i].slot.value) && Gap(entries[i].slot.after)
    {
      assert EntryFits(entries[i]);
    }
    hide Gap, AllFit;
  }

  lemma SpellObject(t: Text)
    requires Fits(t) && t.ObjectText? && forall i :: 0 <= i < |t.entries| ==> EntryFits(t.entries[i])
    ensures Spell(t) == "{" + (if t.entries == [] then t.gap else SpellEntries(t.entries)) + "}"
  {
    hide EntryFits, Gap, SpellEntries;
  }

  lemma ObjectShape(gap: string, entries: seq<Entry>, u: string)
    requires Gap(gap) && forall i :: 0 <= i < |entries| ==> EntryFits(entries[i])
    ensures Fits(ObjectText(gap, entries))
    ensures Spell(ObjectText(gap, entries)) + u
         == "{" + ((if entries == [] then gap else SpellEntries(entries)) + ("}" + u))
  {
    hide Spell, Fits, EntryFits, Gap, SpellEntries;
    ObjectFits(gap, entries);
    SpellObject(ObjectText(gap, entries));
    Enclosed("{", if entries == [] then gap else SpellEntries(entries), "}", u);
  }

  // ---------------------------------------------------------------- whole texts

  /** A text of RFC 8259: one value, with what is skipped in front of it and behind it. It parses to the
      value, and if nothing else may follow, up to the end. */
  lemma TextParses(before: string, t: Text, after: string)
    requires Gap(before) && Fits(t) && Gap(after)
    ensures ParseWithOpts(before + (Spell(t) + after), false) == Ok(Denotes(t), after)
    ensures ParseWithOpts(before + (Spell(t) + after), true) == Ok(Denotes(t), "")
  {
    hide ParseValue, Skip, Spell, Fits, Denotes, Gap;
    SpellFirst(t);
    assert (Spell(t) + after)[0] == Spell(t)[0];
    SkipGap(before, Spell(t) + after);
    GapEnds(after, "");
    assert after + "" == after;
    Parses(t, after);
    SkipGap(after, "");
  }

  /** Anything else behind the value is an error there, if nothing else may follow. */
  lemma GarbageFails(before: string, t: Text, after: string, u: string)
    requires Gap(before) && Fits(t) && Gap(after) && u != "" && Behind(u)
    ensures ParseWithOpts(before + (Spell(t) + (after + u)), true) == Fail(u)
  {
    hide ParseValue, Skip, Spell, Fits, Denotes, Gap;
    SpellFirst(t);
    assert (Spell(t) + (after + u))[0] == Spell(t)[0];
    SkipGap(before, Spell(t) + (after + u));
    GapEnds(after, u);
    Parses(t, after + u);
    SkipGap(after, u);
  }

  /** No value starts so: the parse fails where it is. */
  lemma NoValueFails(u: string)
    requires !("null" <= u) && !("false" <= u) && !("true" <= u)
    requires u == "" || (u[0] !in "\"-0123456789[{")
    ensures ParseValue(u) == Fail(u)
  {
    assert IsDigit(Head(u)) ==> Head(u) in "0123456789" by { DigitListed(Head(u)); }
  }

  lemma DigitListed(c: char)
    ensures IsDigit(c) ==> c in "0123456789"
  {
    if IsDigit(c) { assert c == "0123456789"[DigitVal(c)]; }
  }

  /** An array in which something else than a comma or a bracket stands behind an item. */
  lemma BrokenArrayFails(slots: seq<Slot>, u: string)
    requires slots != [] && (forall i :: 0 <= i < |slots| ==> SlotFits(slots[i]))
    requires Behind(u) && Head(u) != ',' && Head(u) != ']'
    ensures ParseValue("[" + (SpellSlots(slots) + u)) == Fail(u)
  {
    hide ParseValue, ParseItems, Skip, SpellSlots, Behind;
    var s := "[" + (SpellSlots(slots) + u);
    assert s[1..] == SpellSlots(slots) + u && Head(s) == '[';
    ArrayHead(s);
    ParsesSlots(slots, u);
    SlotsStart(slots, u);
    ItemsSkip(SpellSlots(slots) + u);
  }

  /** An array in which no value stands behind a comma. */
  lemma MissingItemFails(slots: seq<Slot>, gap: string, u: string)
    requires slots != [] && (forall i :: 0 <= i < |slots| ==> SlotFits(slots[i])) && Gap(gap)
    requires (u == "" || u[0] as int > 32) && ParseValue(u) == Fail(u)
    ensures ParseValue("[" + (SpellSlots(slots) + ("," + (gap + u)))) == Fail(u)
  {
    hide ParseValue, Skip, SpellSlots, Behind, Gap;
    var w := "," + (gap + u);
    var s := "[" + (SpellSlots(slots) + w);
    assert s[1..] == SpellSlots(slots) + w && Head(s) == '[';
    ArrayHead(s);
    CommaBehind(gap + u);
    SkipGap(gap, u);
    assert ParseItems(gap + u) == Fail(u);
    ParsesSlots(slots, w);
    SlotsStart(slots, w);
    ItemsSkip(SpellSlots(slots) + w);
  }

  /** An object in which something else than a comma or a brace stands behind a member. */
  lemma BrokenObjectFails(entries: seq<Entry>, u: string)
    requires entries != [] && (forall i :: 0 <= i < |entries| ==> EntryFits(entries[i]))
    requires Behind(u) && Head(u) != ',' && Head(u) != '}'
    ensures ParseValue("{" + (SpellEntries(entries) + u)) == Fail(u)
  {
    hide ParseValue, ParseMembers, Skip, SpellEntries, Behind;
    var s := "{" + (SpellEntries(entries) + u);
    assert s[1..] == SpellEntries(entries) + u && Head(s) == '{';
    ObjectHead(s);
    ParsesEntries(entries, u);
    EntriesStart(entries, u);
    MembersSkip(SpellEntries(entries) + u);
  }

  /** An object without a name where one is due, or without a colon behind it. */
  lemma BrokenMemberFails(gap: string, u: string, name: seq<Ch>, between: string, w: string)
    requires Gap(gap) && AllFit(name) && Gap(between)
    requires (u == "" || u[0] as int > 32) && Head(u) != '\"' && Head(u) != '}'
    requires (w == "" || w[0] as int > 32) && Head(w) != ':'
    ensures ParseValue("{" + (gap + u)) == Fail(u)
    ensures ParseValue("{" + (gap + (SpellString(name) + (between + w)))) == Fail(w)
  {
    hide ParseValue, Skip, SpellString, Gap, AllFit, BytesOfAll;
    var s := "{" + (gap + u);
    assert s[1..] == gap + u;
    ObjectHead(s);
    SkipGap(gap, u);
    SkipNothing(u);
    assert ParseMembers(u) == Fail(u);
    var x := SpellString(name) + (between + w);
    var s' := "{" + (gap + x);
    assert s'[1..] == gap + x;
    ObjectHead(s');
    QuoteFirst(name, between + w);
    SkipGap(gap, x);
    SkipNothing(x);
    StringParses(name, between + w);
    SkipGap(between, w);
    assert ParseMember(x) == Fail(w);
  }
}
