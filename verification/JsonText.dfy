/** JSON text as cJSON.c reads and writes it (RFC 8259): the printed form of a tree, the
    parser, and the minifier, each as a function on texts. */
module JsonText {
  import opened CText

  datatype Member = Member(name: string, value: Json)

  datatype Json =
    | Null
    | False
    | True
    | Num(d: real)
    | Str(s: string)
    | Arr(items: seq<Json>)
    | Obj(members: seq<Member>)

  const INT_MIN := -0x8000_0000
  const INT_MAX := 0x7fff_ffff

  /** The trees whose print does not go through the floating point formats. */
  predicate Printable(v: Json) {
    match v
    case Num(d) => d == d.Floor as real && INT_MIN <= d.Floor <= INT_MAX
    case Str(s) => NulFree(s)
    case Arr(items) => forall i :: 0 <= i < |items| ==> Printable(items[i])
    case Obj(members) => forall i :: 0 <= i < |members| ==> NulFree(members[i].name) && Printable(members[i].value)
    case _ => true
  }

  // ---------------------------------------------------------------- printing

  function Digit(d: nat): char
    requires d < 10
  {
    ('0' as int + d) as char
  }

  /** `%d` of a non-negative number. */
  function Dec(n: nat): string {
    if n < 10 then [Digit(n)] else Dec(n / 10) + [Digit(n % 10)]
  }

  function PrintInt(n: int): string {
    if n < 0 then "-" + Dec(-n) else Dec(n)
  }

  function HexDigit(d: nat): char
    requires d < 16
  {
    if d < 10 then ('0' as int + d) as char else ('a' as int + (d - 10)) as char
  }

  const BS := '\U{8}'
  const FF := '\U{C}'

  function EscapeChar(c: char): string {
    if c as int > 31 && c != '\"' && c != '\\' then [c]
    else if c == '\\' then "\\\\"
    else if c == '\"' then "\\\""
    else if c == BS then "\\b"
    else if c == FF then "\\f"
    else if c == '\n' then "\\n"
    else if c == '\r' then "\\r"
    else if c == '\t' then "\\t"
    else "\\u00" + [HexDigit(c as int / 16), HexDigit(c as int % 16)]
  }

  function Escape(s: string): string {
    if s == "" then "" else EscapeChar(s[0]) + Escape(s[1..])
  }

  function PrintString(s: string): string {
    "\"" + Escape(s) + "\""
  }

  function NewLine(fmt: bool): string {
    if fmt then "\n" else ""
  }

  function Tabs(fmt: bool, n: int): string {
    if fmt && n > 0 then Repeat('\t', n) else ""
  }

  function Print(v: Json, depth: nat, fmt: bool): string
    requires Printable(v)
    decreases v, 1
  {
    match v
    case Null => "null"
    case False => "false"
    case True => "true"
    case Num(d) => PrintInt(d.Floor)
    case Str(s) => PrintString(s)
    case Arr(items) => "[" + PrintItems(items, depth + 1, fmt) + "]"
    case Obj(members) =>
      if members == [] then "{" + NewLine(fmt) + Tabs(fmt, depth - 1) + "}"
      else "{" + NewLine(fmt) + PrintMembers(members, depth + 1, fmt) + Tabs(fmt, depth) + "}"
  }

  function PrintItems(items: seq<Json>, depth: nat, fmt: bool): string
    requires forall i :: 0 <= i < |items| ==> Printable(items[i])
    decreases items, 0
  {
    if items == [] then ""
    else if |items| == 1 then Print(items[0], depth, fmt)
    else Print(items[0], depth, fmt) + (if fmt then ", " else ",") + PrintItems(items[1..], depth, fmt)
  }

  function PrintMember(m: Member, depth: nat, fmt: bool): string
    requires NulFree(m.name) && Printable(m.value)
    decreases m, 2
  {
    Tabs(fmt, depth) + PrintString(m.name) + (if fmt then ":\t" else ":") + Print(m.value, depth, fmt)
  }

  function PrintMembers(members: seq<Member>, depth: nat, fmt: bool): string
    requires forall i :: 0 <= i < |members| ==> NulFree(members[i].name) && Printable(members[i].value)
    decreases members, 0
  {
    if members == [] then ""
    else
      PrintMember(members[0], depth, fmt) + (if |members| > 1 then "," else "") + NewLine(fmt)
      + PrintMembers(members[1..], depth, fmt)
  }

  // ---------------------------------------------------------------- parsing

  datatype Parsed<+T> = Ok(value: T, rest: string) | Fail(at: string)

  function Skip(s: string): (r: string)
    ensures |r| <= |s|
    ensures r == "" || r[0] as int > 32 || r[0] == '\0'
  {
    if s != "" && s[0] != '\0' && s[0] as int <= 32 then Skip(s[1..]) else s
  }

  predicate IsDigit(c: char) { '0' <= c <= '9' }

  function DigitVal(c: char): nat
    requires IsDigit(c)
  {
    c as int - '0' as int
  }

  /** A digit loop: the accumulated number and the suffix behind the digits. */
  function Digits(s: string, n: nat): (r: (nat, string))
    ensures |r.1| <= |s| && !IsDigit(Head(r.1))
    decreases |s|
  {
    if s != "" && IsDigit(s[0]) then Digits(s[1..], 10 * n + DigitVal(s[0])) else (n, s)
  }

  function Pow10(k: int): real
    decreases if k < 0 then -k else k
  {
    if k == 0 then 1.0 else if k > 0 then 10.0 * Pow10(k - 1) else Pow10(k + 1) / 10.0
  }

  /** The exponent part: its value, and the suffix behind it. */
  function ParseExponent(s: string): (r: (int, string))
    ensures |r.1| <= |s|
  {
    if Head(s) == 'e' || Head(s) == 'E' then
      var t := s[1..];
      var (neg, u) := if Head(t) == '+' then (false, t[1..]) else if Head(t) == '-' then (true, t[1..]) else (false, t);
      var (k, w) := Digits(u, 0);
      var signed: int := if neg then -(k as int) else k;
      (signed, w)
    else (0, s)
  }

  /** The digits of the mantissa as one number, what stands behind it, and minus how many of the
      digits stand behind the point. */
  function Mantissa(s: string): (r: (nat, string, int))
    ensures |r.1| <= |s| && (IsDigit(Head(s)) ==> |r.1| < |s|)
  {
    var s2 := if Head(s) == '0' then s[1..] else s;
    var (n, s3) := if '1' <= Head(s2) <= '9' then Digits(s2, 0) else (0, s2);
    var point := Head(s3) == '.' && IsDigit(At(s3, 1));
    var (m, s4) := if point then Digits(s3[1..], n) else (n, s3);
    (m, s4, if point then -(|s3| - 1 - |s4|) else 0)
  }

  function Scaled(m: nat, exponent: int): real {
    m as real * Pow10(exponent)
  }

  /** parse_number, with the double taken as an exact real. */
  function ParseNumber(s: string): (r: (real, string))
    requires Head(s) == '-' || IsDigit(Head(s))
    ensures |r.1| < |s|
  {
    var neg := Head(s) == '-';
    var (m, s4, scale) := Mantissa(if neg then s[1..] else s);
    var (e, s5) := ParseExponent(s4);
    var magnitude := Scaled(m, scale + e);
    (if neg then -magnitude else magnitude, s5)
  }

  predicate IsHex(c: char) { '0' <= c <= '9' || 'A' <= c <= 'F' || 'a' <= c <= 'f' }

  function HexVal(c: char): (n: nat)
    requires IsHex(c)
    ensures n < 16
  {
    if '0' <= c <= '9' then c as int - '0' as int
    else if 'A' <= c <= 'F' then 10 + (c as int - 'A' as int)
    else 10 + (c as int - 'a' as int)
  }

  /** parse_hex4: zero as soon as one of the four characters is not a hex digit. */
  function Hex4(s: string): (h: nat)
    ensures h < 0x10000
  {
    if IsHex(At(s, 0)) && IsHex(At(s, 1)) && IsHex(At(s, 2)) && IsHex(At(s, 3)) then
      ((HexVal(At(s, 0)) * 16 + HexVal(At(s, 1))) * 16 + HexVal(At(s, 2))) * 16 + HexVal(At(s, 3))
    else 0
  }

  /** One to four bytes: the leading mark and the six-bit continuation groups. */
  function EncodeUtf8(uc: nat): (r: string)
    requires uc < 0x110000
    ensures 1 <= |r| <= 4
  {
    if uc < 0x80 then [uc as char]
    else if uc < 0x800 then [(0xC0 + uc / 64) as char, (0x80 + uc % 64) as char]
    else if uc < 0x10000 then [(0xE0 + uc / 4096) as char, (0x80 + uc / 64 % 64) as char, (0x80 + uc % 64) as char]
    else [(0xF0 + uc / 262144) as char, (0x80 + uc / 4096 % 64) as char, (0x80 + uc / 64 % 64) as char,
      (0x80 + uc % 64) as char]
  }

  predicate LowSurrogate(uc: nat) { 0xDC00 <= uc <= 0xDFFF }
  predicate HighSurrogate(uc: nat) { 0xD800 <= uc <= 0xDBFF }

  function Combine(hi: nat, lo: nat): (r: nat)
    ensures 0x10000 <= r < 0x110000
  {
    0x10000 + hi % 0x400 * 0x400 + lo % 0x400
  }

  /** What follows `\u`: the bytes it stands for, and how many characters it takes. An escape
      that names no code point takes its characters and yields nothing. */
  function UnicodeEscape(t: string): (r: (string, nat))
    ensures 4 <= r.1 <= 10
  {
    var uc := Hex4(t);
    if LowSurrogate(uc) || uc == 0 then ("", 4)
    else if HighSurrogate(uc) then
      if At(t, 4) != '\\' || At(t, 5) != 'u' then ("", 4)
      else
        var lo := Hex4(Drop(t, 6));
        if !LowSurrogate(lo) then ("", 10) else (EncodeUtf8(Combine(uc, lo)), 10)
    else (EncodeUtf8(uc), 4)
  }

  /** The character or bytes an escape stands for and the suffix behind it; `t` is behind the
      backslash. */
  function UnescapeOne(t: string): (r: (string, string))
    requires t != ""
    ensures |r.1| < |t|
  {
    var c := t[0];
    if c == 'b' then ([BS], t[1..])
    else if c == 'f' then ([FF], t[1..])
    else if c == 'n' then ("\n", t[1..])
    else if c == 'r' then ("\r", t[1..])
    else if c == 't' then ("\t", t[1..])
    else if c == 'u' then
      var (bytes, n) := UnicodeEscape(t[1..]);
      (bytes, Drop(t, 1 + n))
    else ([c], t[1..])
  }

  /** The characters of a string literal up to its closing quote or the end of the text. A
      backslash that is the last character of the text has nothing to escape. */
  function Unescape(s: string): (r: (string, string))
    ensures |r.1| <= |s|
    ensures r.1 == "" || r.1[0] == '\"'
    decreases |s|
  {
    if s == "" || s[0] == '\"' then ("", s)
    else if s[0] != '\\' then
      var (x, r) := Unescape(s[1..]);
      ([s[0]] + x, r)
    else if |s| == 1 then ("", "")
    else
      var (c, t) := UnescapeOne(s[1..]);
      var (x, r) := Unescape(t);
      (c + x, r)
  }

  /** parse_string. */
  function ParseString(s: string): (r: Parsed<string>)
    ensures r.Ok? ==> |r.rest| < |s|
    ensures r.Fail? ==> r.at == s
  {
    if Head(s) != '\"' then Fail(s)
    else
      var (x, r) := Unescape(s[1..]);
      Ok(x, if Head(r) == '\"' then r[1..] else r)
  }

  /** parse_value. */
  function ParseValue(s: string): (r: Parsed<Json>)
    ensures r.Ok? ==> |r.rest| < |s|
    decreases |s|, 0
  {
    if "null" <= s then Ok(Null, s[4..])
    else if "false" <= s then Ok(False, s[5..])
    else if "true" <= s then Ok(True, s[4..])
    else if Head(s) == '\"' then
      match ParseString(s)
      case Ok(x, r) => Ok(Str(x), r)
      case Fail(at) => Fail(at)
    else if Head(s) == '-' || IsDigit(Head(s)) then
      var (d, r) := ParseNumber(s);
      Ok(Num(d), r)
    else if Head(s) == '[' then
      var t := Skip(s[1..]);
      if Head(t) == ']' then Ok(Arr([]), t[1..])
      else
        match ParseItems(t)
        case Ok(items, r) => Ok(Arr(items), r)
        case Fail(at) => Fail(at)
    else if Head(s) == '{' then
      var t := Skip(s[1..]);
      if Head(t) == '}' then Ok(Obj([]), t[1..])
      else
        match ParseMembers(t)
        case Ok(members, r) => Ok(Obj(members), r)
        case Fail(at) => Fail(at)
    else Fail(s)
  }

  /** The elements of an array up to and including the closing bracket. */
  function ParseItems(s: string): (r: Parsed<seq<Json>>)
    ensures r.Ok? ==> |r.rest| < |s|
    decreases |s|, 1
  {
    match ParseValue(Skip(s))
    case Fail(at) => Fail(at)
    case Ok(v, r) =>
      var t := Skip(r);
      if Head(t) == ',' then
        match ParseItems(t[1..])
        case Ok(vs, q) => Ok([v] + vs, q)
        case Fail(at) => Fail(at)
      else if Head(t) == ']' then Ok([v], t[1..])
      else Fail(t)
  }

  /** One member: name, colon, value, and the space behind it. */
  function ParseMember(s: string): (r: Parsed<Member>)
    ensures r.Ok? ==> |r.rest| < |s|
    decreases |s|, 1
  {
    match ParseString(Skip(s))
    case Fail(at) => Fail(at)
    case Ok(name, r) =>
      var t := Skip(r);
      if Head(t) != ':' then Fail(t)
      else
        match ParseValue(Skip(t[1..]))
        case Ok(v, q) => Ok(Member(name, v), Skip(q))
        case Fail(at) => Fail(at)
  }

  /** The members of an object up to and including the closing brace. */
  function ParseMembers(s: string): (r: Parsed<seq<Member>>)
    ensures r.Ok? ==> |r.rest| < |s|
    decreases |s|, 2
  {
    match ParseMember(s)
    case Fail(at) => Fail(at)
    case Ok(m, t) =>
      if Head(t) == ',' then
        match ParseMembers(t[1..])
        case Ok(ms, q) => Ok([m] + ms, q)
        case Fail(at) => Fail(at)
      else if Head(t) == '}' then Ok([m], t[1..])
      else Fail(t)
  }

  /** cJSON_ParseWithOpts. */
  function ParseWithOpts(s: string, requireNullTerminated: bool): Parsed<Json> {
    match ParseValue(Skip(s))
    case Fail(at) => Fail(at)
    case Ok(v, r) =>
      if requireNullTerminated then
        if Skip(r) == "" then Ok(v, "") else Fail(Skip(r))
      else Ok(v, r)
  }

  // ---------------------------------------------------------------- minifying

  /** Where a string literal ends; `s` is behind its opening quote. */
  function LiteralLen(s: string): (n: nat)
    ensures n <= |s|
  {
    if s == "" then 0
    else if s[0] == '\"' then 1
    else if s[0] == '\\' then (if |s| == 1 then 1 else 2 + LiteralLen(s[2..]))
    else 1 + LiteralLen(s[1..])
  }

  predicate LiteralClosed(s: string) {
    if s == "" then false
    else if s[0] == '\"' then true
    else if s[0] == '\\' then |s| > 1 && LiteralClosed(s[2..])
    else LiteralClosed(s[1..])
  }

  /** A `//` comment runs to the end of its line. */
  function SkipLine(s: string): (r: string)
    ensures |r| <= |s|
  {
    if s == "" || s[0] == '\n' then s else SkipLine(s[1..])
  }

  /** A block comment runs to its closing pair. */
  function SkipBlock(s: string): (r: string)
    ensures |r| <= |s|
  {
    if s == "" || (s[0] == '*' && At(s, 1) == '/') then s else SkipBlock(s[1..])
  }

  predicate IsBlank(c: char) { c == ' ' || c == '\t' || c == '\r' || c == '\n' }

  /** cJSON_Minify. */
  function Minify(s: string): string
    decreases |s|
  {
    if s == "" then ""
    else if IsBlank(s[0]) then Minify(s[1..])
    else if s[0] == '/' && At(s, 1) == '/' then Minify(SkipLine(s[1..]))
    else if s[0] == '/' && At(s, 1) == '*' then Minify(Drop(SkipBlock(s[1..]), 2))
    else if s[0] == '\"' then
      var n := LiteralLen(s[1..]);
      s[..1 + n] + Minify(s[1 + n..])
    else [s[0]] + Minify(s[1..])
  }

  /** Every string literal and block comment of the text is closed: the minifier stays inside
      its buffer. */
  predicate Closed(s: string)
    decreases |s|
  {
    if s == "" then true
    else if IsBlank(s[0]) then Closed(s[1..])
    else if s[0] == '/' && At(s, 1) == '/' then Closed(SkipLine(s[1..]))
    else if s[0] == '/' && At(s, 1) == '*' then
      var t := SkipBlock(s[1..]);
      t != "" && Closed(Drop(t, 2))
    else if s[0] == '\"' then LiteralClosed(s[1..]) && Closed(s[1 + LiteralLen(s[1..])..])
    else Closed(s[1..])
  }
}
