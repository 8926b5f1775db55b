/** The printers of cJSON.c, writing into buffers of the size they computed before. Dafny's bounds
    checks show that no write leaves its buffer; the contracts say what the buffers hold. */
module JsonPrinter {
  import opened CText
  import opened JsonText
  import opened JsonTree
  import opened JsonList
  import opened JsonSizes

  /** A buffer that holds a C string. */
  ghost predicate Holds(b: string, s: string) {
    |s| < |b| && b[..|s|] == s && b[|s|] == '\0' && NoNul(s)
  }

  // ---------------------------------------------------------------- writing at a pointer

  /** `*ptr++ = c`, behind `text`. */
  method Emit(out: array<char>, p: nat, c: char, ghost text: string) returns (q: nat)
    requires p == |text| < out.Length && out[..p] == text
    modifies out
    ensures q == p + 1 && out[..q] == text + [c]
  {
    out[p] := c;
    q := p + 1;
    assert out[..q] == out[..p] + [c];
  }

  method StrLen(src: array<char>, ghost s: string) returns (n: nat)
    requires Holds(src[..], s)
    ensures n == |s|
  {
    n := 0;
    while src[n] != '\0'
      invariant n <= |s|
      decreases |s| - n
    {
      CharAt(src[..], s, n);
      n := n + 1;
    }
    CharAt(src[..], s, n);
  }

  lemma CharAt(b: string, s: string, i: nat)
    requires Holds(b, s) && i <= |s|
    ensures (b[i] == '\0' <==> i == |s|) && (i < |s| ==> b[i] == s[i])
  {
    if i < |s| {
      assert b[i] == b[..|s|][i];
    }
  }

  /** `strcpy(ptr, src); ptr += strlen(src)`, with strcpy's own terminator. */
  method EmitString(out: array<char>, p: nat, src: array<char>, ghost s: string, ghost text: string) returns (q: nat)
    requires Holds(src[..], s) && out != src && p == |text| && p + |s| < out.Length && out[..p] == text
    modifies out
    ensures q == p + |s| && out[..q] == text + s
  {
    var i := 0;
    while src[i] != '\0'
      invariant i <= |s| && src[..] == old(src[..])
      invariant out[..p + i] == text + s[..i]
      decreases |s| - i
    {
      CharAt(src[..], s, i);
      out[p + i] := src[i];
      assert out[..p + (i + 1)] == out[..p + i] + [s[i]];
      assert s[..i + 1] == s[..i] + [s[i]];
      i := i + 1;
    }
    CharAt(src[..], s, i);
    assert s[..i] == s;
    out[p + i] := '\0';
    assert out[..p + i] == text + s;
    var n := StrLen(src, s);
    q := p + n;
  }

  method EmitTabs(out: array<char>, p: nat, n: int, ghost text: string) returns (q: nat)
    requires p == |text| && p + (if n > 0 then n else 0) <= out.Length && out[..p] == text
    modifies out
    ensures q == p + (if n > 0 then n else 0) && out[..q] == text + Tabs(true, n)
  {
    var j := 0;
    q := p;
    while j < n
      invariant 0 <= j && (j <= n || j == 0) && q == p + j && out[..q] == text + Repeat('\t', j)
    {
      RepeatMore('\t', j);
      Assoc(text, Repeat('\t', j), "\t");
      q := Emit(out, q, '\t', text + Repeat('\t', j));
      j := j + 1;
    }
    assert text + "" == text;
  }

  lemma {:induction false} RepeatMore(c: char, n: nat)
    ensures Repeat(c, n + 1) == Repeat(c, n) + [c]
  {}

  // ---------------------------------------------------------------- strings and numbers

  /** One escaped character; the hex form goes through sprintf, which adds a terminator. */
  method EscapeOne(out: array<char>, p: nat, c: char, ghost text: string) returns (q: nat)
    requires p == |text| && p + |EscapeChar(c)| < out.Length && out[..p] == text && 0 < c as int < 256
    requires !(c as int > 31 && c != '\"' && c != '\\')
    modifies out
    ensures q == p + |EscapeChar(c)| && out[..q] == text + EscapeChar(c)
  {
    q := Emit(out, p, '\\', text);
    ghost var t := text + "\\";
    if c == '\\' {
      q := Emit(out, q, '\\', t);
    } else if c == '\"' {
      q := Emit(out, q, '\"', t);
    } else if c == BS {
      q := Emit(out, q, 'b', t);
    } else if c == FF {
      q := Emit(out, q, 'f', t);
    } else if c == '\n' {
      q := Emit(out, q, 'n', t);
    } else if c == '\r' {
      q := Emit(out, q, 'r', t);
    } else if c == '\t' {
      q := Emit(out, q, 't', t);
    } else {
      q := EscapeHex(out, q, c, t);
    }
    assert out[..q] == text + EscapeChar(c);
  }

  /** `sprintf(ptr2, "u%04x", token)` */
  method EscapeHex(out: array<char>, p: nat, c: char, ghost text: string) returns (q: nat)
    requires p == |text| && p + 5 < out.Length && out[..p] == text && c as int < 256
    modifies out
    ensures q == p + 5 && out[..q] == text + ("u00" + [HexDigit(c as int / 16), HexDigit(c as int % 16)])
  {
    hide HexDigit;
    q := Emit(out, p, 'u', text);
    q := Emit(out, q, '0', text + "u");
    q := Emit(out, q, '0', text + "u0");
    q := Emit(out, q, HexDigit(c as int / 16), text + "u00");
    q := Emit(out, q, HexDigit(c as int % 16), text + "u00" + [HexDigit(c as int / 16)]);
    ghost var b := out[..q];
    out[q] := '\0';
    assert out[..q] == b;
    assert b == text + ("u00" + [HexDigit(c as int / 16), HexDigit(c as int % 16)]);
  }

  lemma StringStep(s: string, i: nat)
    requires i < |s|
    ensures Escape(s[..i + 1]) == Escape(s[..i]) + EscapeChar(s[i])
      && StringLen(s[..i + 1]) == StringLen(s[..i]) + CharLen(s[i])
  {
    EscapeSnoc(s[..i], s[i]);
    assert s[..i] + [s[i]] == s[..i + 1];
    assert s[..i + 1][..i] == s[..i];
  }

  lemma {:induction false} EscapeGrows(s: string, i: nat)
    requires i <= |s|
    ensures |Escape(s[..i])| <= |Escape(s)|
    decreases |s| - i
  {
    if i < |s| {
      StringStep(s, i);
      EscapeGrows(s, i + 1);
    } else {
      assert s[..i] == s;
    }
  }

  /** The first pass: how long the escaped string will be. */
  method CountString(s: string) returns (len: nat)
    requires NulFree(s)
    ensures len == |Escape(s)|
  {
    len := 0;
    var i := 0;
    while i < |s|
      invariant i <= |s| && len == StringLen(s[..i])
    {
      StringStep(s, i);
      len := len + 1;
      if s[i] in "\"\\\U{8}\U{C}\n\r\t" {
        len := len + 1;
      } else if s[i] as int < 32 {
        len := len + 5;
      }
      i := i + 1;
    }
    assert s[..i] == s;
    StringLenIs(s);
  }

  /** The escaped string in a buffer that it fills to the last byte; a null pointer prints as nothing. */
  method PrintStringPtr(str: Option<string>) returns (out: array<char>)
    requires str.Some? ==> NulFree(str.value)
    ensures fresh(out)
    ensures out[..] == (if str.None? then "" else PrintString(str.value)) + "\0"
  {
    if str.None? {
      out := new char[1](_ => '\0');
      return;
    }
    var s := str.value;
    var len := CountString(s);
    out := new char[len + 3];
    var p := Emit(out, 0, '\"', "");
    var i := 0;
    assert s[..0] == "" && "" + "\"" == "\"" + Escape("");
    while i < |s|
      invariant i <= |s| && p == 1 + |Escape(s[..i])| <= out.Length && out[..p] == "\"" + Escape(s[..i])
    {
      StringStep(s, i);
      EscapeGrows(s, i + 1);
      Assoc("\"", Escape(s[..i]), EscapeChar(s[i]));
      if s[i] as int > 31 && s[i] != '\"' && s[i] != '\\' {
        p := Emit(out, p, s[i], "\"" + Escape(s[..i]));
      } else {
        p := EscapeOne(out, p, s[i], "\"" + Escape(s[..i]));
      }
      i := i + 1;
    }
    assert s[..i] == s;
    p := Emit(out, p, '\"', "\"" + Escape(s));
    p := Emit(out, p, '\0', PrintString(s));
    assert out[..] == out[..p];
  }

  /** cJSON_strdup of a constant. */
  method StrDup(s: string) returns (out: array<char>)
    requires NoNul(s)
    ensures fresh(out) && out[..] == s + "\0"
  {
    out := new char[|s| + 1](i requires 0 <= i <= |s| => if i < |s| then s[i] else '\0');
  }

  /** `sprintf(str, "%d", n)` in 21 bytes. */
  method PrintNumber(n: int) returns (out: array<char>)
    requires INT_MIN <= n <= INT_MAX
    ensures fresh(out) && Holds(out[..], PrintInt(n))
  {
    IntFits(n);
    DecNoNul(if n < 0 then -n else n);
    out := new char[21];
    var text := PrintInt(n);
    var p := 0;
    while p < |text|
      invariant p <= |text| && out[..p] == text[..p]
    {
      assert text[..p + 1] == text[..p] + [text[p]];
      p := Emit(out, p, text[p], text[..p]);
    }
    out[p] := '\0';
    assert text[..p] == text;
  }

  // ---------------------------------------------------------------- values

  /** An item that prints without the floating point formats, with the fields its kind needs. */
  ghost predicate Typed(sh: Shape) {
    var d := sh.data;
    if d.kind == CJSON_NULL || d.kind == CJSON_FALSE || d.kind == CJSON_TRUE then true
    else if d.kind == CJSON_NUMBER then d.valuedouble == d.valueint as real && INT_MIN <= d.valueint <= INT_MAX
    else if d.kind == CJSON_STRING then d.valuestring.Some? && NulFree(d.valuestring.value)
    else if d.kind == CJSON_ARRAY then forall i: nat :: i < |sh.kids| ==> Typed(sh.kids[i])
    else d.kind == CJSON_OBJECT && forall i: nat :: i < |sh.kids| ==> Typed(sh.kids[i]) && HasName(sh.kids[i].data)
  }

  predicate HasName(d: Data) {
    d.name.Some? && NulFree(d.name.value)
  }

  /** The JSON value an item stands for. */
  ghost function ValueOf(sh: Shape): (v: Json)
    requires Typed(sh)
    ensures Printable(v)
  {
    var d := sh.data;
    if d.kind == CJSON_NULL then Null
    else if d.kind == CJSON_FALSE then False
    else if d.kind == CJSON_TRUE then True
    else if d.kind == CJSON_NUMBER then Num(d.valuedouble)
    else if d.kind == CJSON_STRING then Str(d.valuestring.value)
    else if d.kind == CJSON_ARRAY then Arr(seq(|sh.kids|, i requires 0 <= i < |sh.kids| => ValueOf(sh.kids[i])))
    else Obj(seq(|sh.kids|, i requires 0 <= i < |sh.kids| => Member(sh.kids[i].data.name.value, ValueOf(sh.kids[i]))))
  }

  /** The entries hold the prints of the items. */
  ghost predicate Entries(entries: seq<array<char>>, items: seq<Json>, depth: nat, fmt: bool)
    reads entries
  {
    && |entries| == |items| && (forall k :: 0 <= k < |items| ==> Printable(items[k]))
    && forall k :: 0 <= k < |items| ==> Holds(entries[k][..], Print(items[k], depth, fmt))
  }

  /** Entry `i` and what comes between it and the next. */
  method EmitEntry(out: array<char>, p: nat, entry: array<char>, i: nat, n: nat, depth: nat, fmt: bool,
                   ghost items: seq<Json>)
    returns (q: nat)
    requires n == |items| && i < n && (forall k :: 0 <= k < n ==> Printable(items[k])) && out != entry
    requires Holds(entry[..], Print(items[i], depth, fmt))
    requires p == 1 + |FrontItems(items, i, depth, fmt)| < out.Length
      && out[..p] == "[" + FrontItems(items, i, depth, fmt)
    requires 1 + |FrontItems(items, i + 1, depth, fmt)| < out.Length
    modifies out
    ensures q == 1 + |FrontItems(items, i + 1, depth, fmt)| && out[..q] == "[" + FrontItems(items, i + 1, depth, fmt)
  {
    hide Print, Printable, FrontItems;
    ghost var text, e := "[" + FrontItems(items, i, depth, fmt), Print(items[i], depth, fmt);
    FrontStep(items, i, depth, fmt, text, e);
    q := EmitString(out, p, entry, e, text);
    if i != n - 1 {
      q := Emit(out, q, ',', text + e);
      if fmt {
        q := Emit(out, q, ' ', text + e + ",");
      }
      out[q] := '\0';
    }
    Separated(out[..q], items, i, depth, fmt, text, e);
  }

  lemma FrontStep(items: seq<Json>, i: nat, depth: nat, fmt: bool, text: string, e: string)
    requires i < |items| && forall k :: 0 <= k < |items| ==> Printable(items[k])
    requires text == "[" + FrontItems(items, i, depth, fmt) && e == Print(items[i], depth, fmt)
    ensures 1 + |FrontItems(items, i + 1, depth, fmt)| == |text| + |e|
      + if i + 1 == |items| then 0 else if fmt then 2 else 1
  {}

  lemma FrontFits(items: seq<Json>, i: nat, depth: nat, fmt: bool)
    requires i <= |items| && forall k :: 0 <= k < |items| ==> Printable(items[k])
    ensures 1 + |FrontItems(items, i, depth, fmt)| < 4 + ItemsLen(items, |items|, depth, fmt)
  {
    FrontItemsFit(items, i, depth, fmt);
    ItemsLenGrows(items, i, depth, fmt);
  }

  /** `[`, the entries with commas between them, `]`, in the buffer of the computed size. */
  method ComposeArray(entries: seq<array<char>>, len: nat, depth: nat, fmt: bool, ghost items: seq<Json>)
    returns (out: array<char>)
    requires items != [] && Entries(entries, items, depth + 1, fmt)
    requires len == 5 + ItemsLen(items, |items|, depth + 1, fmt)
    ensures fresh(out) && Holds(out[..], Print(Arr(items), depth, fmt))
  {
    hide Print, Printable, FrontItems, ItemsLen, Holds;
    out := new char[len];
    FrontFits(items, 0, depth + 1, fmt);
    NoFront(items, depth + 1, fmt);
    var p := Emit(out, 0, '[', "");
    out[p] := '\0';
    for i := 0 to |entries|
      invariant Entries(entries, items, depth + 1, fmt)
      invariant p == 1 + |FrontItems(items, i, depth + 1, fmt)| < len
        && out[..p] == "[" + FrontItems(items, i, depth + 1, fmt)
    {
      FrontFits(items, i + 1, depth + 1, fmt);
      p := EmitEntry(out, p, entries[i], i, |entries|, depth + 1, fmt, items);
    }
    ArrayText(items, depth, fmt, out[..p]);
    p := Emit(out, p, ']', out[..p]);
    PrintNoNul(Arr(items), depth, fmt);
    out[p] := '\0';
    HoldsIf(out[..], Print(Arr(items), depth, fmt));
  }

  lemma NoFront(items: seq<Json>, depth: nat, fmt: bool)
    requires forall k :: 0 <= k < |items| ==> Printable(items[k])
    ensures FrontItems(items, 0, depth, fmt) == "" && "[" + FrontItems(items, 0, depth, fmt) == "["
  {}

  lemma HoldsIf(b: string, s: string)
    requires |s| < |b| && b[..|s|] == s && b[|s|] == '\0' && NoNul(s)
    ensures Holds(b, s)
  {}

  lemma Separated(b: string, items: seq<Json>, i: nat, depth: nat, fmt: bool, text: string, e: string)
    requires i < |items| && forall k :: 0 <= k < |items| ==> Printable(items[k])
    requires text == "[" + FrontItems(items, i, depth, fmt) && e == Print(items[i], depth, fmt)
    requires b == if i == |items| - 1 then text + e else if fmt then text + e + "," + " " else text + e + ","
    ensures b == "[" + FrontItems(items, i + 1, depth, fmt)
  {
    var f, sep := FrontItems(items, i, depth, fmt), if i + 1 != |items| then Sep(fmt) else "";
    assert b == text + e + sep;
    Assoc(text, e, sep);
    Assoc("[", f, e + sep);
  }

  lemma ArrayText(items: seq<Json>, depth: nat, fmt: bool, b: string)
    requires items != [] && forall k :: 0 <= k < |items| ==> Printable(items[k])
    requires b == "[" + FrontItems(items, |items|, depth + 1, fmt)
    ensures Printable(Arr(items)) && Print(Arr(items), depth, fmt) == b + "]"
    ensures |b| < 4 + ItemsLen(items, |items|, depth + 1, fmt)
  {
    FrontItemsAll(items, depth + 1, fmt);
    FrontItemsFit(items, |items|, depth + 1, fmt);
  }

  // ---------------------------------------------------------------- objects

  /** What an object's text starts with. */
  function Opening(fmt: bool): string {
    "{" + NewLine(fmt)
  }

  /** The names and values hold the prints of the members. */
  ghost predicate Lines(names: seq<array<char>>, entries: seq<array<char>>, members: seq<Member>, depth: nat, fmt: bool)
    reads names, entries
  {
    && |names| == |entries| == |members| && Keyed(members)
    && (forall k :: 0 <= k < |members| ==> Holds(names[k][..], PrintString(members[k].name)))
    && forall k :: 0 <= k < |members| ==> Holds(entries[k][..], Print(members[k].value, depth, fmt))
  }

  /** Member `i` on its line. */
  method EmitMember(out: array<char>, p: nat, name: array<char>, entry: array<char>, i: nat, n: nat, depth: nat,
                    fmt: bool,
                    ghost members: seq<Member>)
    returns (q: nat)
    requires n == |members| && i < n && Keyed(members) && out != entry && out != name
    requires Holds(name[..], PrintString(members[i].name)) && Holds(entry[..], Print(members[i].value, depth, fmt))
    requires p == |Opening(fmt) + FrontMembers(members, i, depth, fmt)| < out.Length
    requires out[..p] == Opening(fmt) + FrontMembers(members, i, depth, fmt)
    requires |Opening(fmt) + FrontMembers(members, i + 1, depth, fmt)| < out.Length
    modifies out
    ensures q == |Opening(fmt) + FrontMembers(members, i + 1, depth, fmt)|
    ensures out[..q] == Opening(fmt) + FrontMembers(members, i + 1, depth, fmt)
  {
    hide Print, PrintString, Opening, FrontMembers, Holds, Tabs;
    ghost var text := Opening(fmt) + FrontMembers(members, i, depth, fmt);
    ghost var tabs, s, e := Tabs(fmt, depth), PrintString(members[i].name), Print(members[i].value, depth, fmt);
    FrontMemberStep(members, i, depth, fmt, text, tabs, s, e);
    q := p;
    if fmt {
      q := EmitTabs(out, q, depth, text);
    }
    assert out[..q] == text + tabs by { NoTabs(depth, text); }
    q := EmitString(out, q, name, s, text + tabs);
    q := Emit(out, q, ':', text + tabs + s);
    if fmt {
      q := Emit(out, q, '\t', text + tabs + s + ":");
    }
    ghost var colon := if fmt then ":\t" else ":";
    assert out[..q] == text + tabs + s + colon;
    q := EmitString(out, q, entry, e, text + tabs + s + colon);
    if i != n - 1 {
      q := Emit(out, q, ',', text + tabs + s + colon + e);
    }
    ghost var comma := if i != n - 1 then "," else "";
    assert out[..q] == text + tabs + s + colon + e + comma;
    if fmt {
      q := Emit(out, q, '\n', text + tabs + s + colon + e + comma);
    }
    assert out[..q] == text + tabs + s + colon + e + comma + NewLine(fmt);
    out[q] := '\0';
    Lined(members, i, depth, fmt, text, tabs, s, colon, e, comma);
  }

  lemma NoTabs(depth: nat, text: string)
    ensures text + Tabs(false, depth) == text
  {}

  lemma FrontMemberStep(members: seq<Member>, i: nat, depth: nat, fmt: bool, text: string, tabs: string, s: string,
                        e: string)
    requires i < |members| && Keyed(members) && text == Opening(fmt) + FrontMembers(members, i, depth, fmt)
    requires tabs == Tabs(fmt, depth) && s == PrintString(members[i].name) && e == Print(members[i].value, depth, fmt)
    ensures |Opening(fmt) + FrontMembers(members, i + 1, depth, fmt)|
      == |text| + |tabs| + |s| + |e| + (if fmt then 3 else 1) + if i + 1 == |members| then 0 else 1
    ensures |tabs| == if fmt then depth else 0
  {}

  lemma Lined(members: seq<Member>, i: nat, depth: nat, fmt: bool, text: string, tabs: string, s: string,
              colon: string, e: string, comma: string)
    requires i < |members| && Keyed(members) && text == Opening(fmt) + FrontMembers(members, i, depth, fmt)
    requires tabs == Tabs(fmt, depth) && s == PrintString(members[i].name) && e == Print(members[i].value, depth, fmt)
    requires colon == (if fmt then ":\t" else ":") && comma == if i + 1 != |members| then "," else ""
    ensures text + tabs + s + colon + e + comma + NewLine(fmt)
      == Opening(fmt) + FrontMembers(members, i + 1, depth, fmt)
  {
    var front := FrontMembers(members, i, depth, fmt);
    var line := PrintMember(members[i], depth, fmt) + LineEnd(i + 1 == |members|, fmt);
    assert line == tabs + s + colon + e + (comma + NewLine(fmt));
    assert FrontMembers(members, i + 1, depth, fmt) == front + line;
    RegroupLine(Opening(fmt), front, tabs, s, colon, e, comma, NewLine(fmt));
  }

  lemma RegroupLine(o: string, f: string, tabs: string, s: string, colon: string, e: string, comma: string, nl: string)
    ensures (o + f) + tabs + s + colon + e + comma + nl == o + (f + (tabs + s + colon + e + (comma + nl)))
  {}

  lemma MembersFit(members: seq<Member>, i: nat, depth: nat, fmt: bool)
    requires i <= |members| && Keyed(members)
    ensures |Opening(fmt) + FrontMembers(members, i, depth, fmt)| <= 2 + MembersLen(members, |members|, depth, fmt)
  {
    FrontMembersFit(members, i, depth, fmt);
    MembersLenGrows(members, i, depth, fmt);
  }

  lemma ObjectText(members: seq<Member>, depth: nat, fmt: bool, b: string)
    requires members != [] && Keyed(members)
    requires b == Opening(fmt) + FrontMembers(members, |members|, depth + 1, fmt)
    ensures Printable(Obj(members)) && Print(Obj(members), depth, fmt) == b + Tabs(fmt, depth) + "}"
    ensures |Tabs(fmt, depth)| == if fmt then depth else 0
  {
    FrontMembersAll(members, depth + 1, fmt);
    RegroupLines("{", NewLine(fmt), PrintMembers(members, depth + 1, fmt), Tabs(fmt, depth));
  }

  lemma RegroupLines(a: string, nl: string, m: string, t: string)
    ensures (a + nl) + m + t + "}" == a + nl + m + t + "}"
  {}

  /** The lines between braces, in the buffer of the computed size. */
  method ComposeObject(names: seq<array<char>>, entries: seq<array<char>>, len: nat, depth: nat, fmt: bool,
                       ghost members: seq<Member>)
    returns (out: array<char>)
    requires members != [] && Lines(names, entries, members, depth + 1, fmt)
    requires len == 7 + (if fmt then depth + 1 else 0) + MembersLen(members, |members|, depth + 1, fmt)
    ensures fresh(out) && Holds(out[..], Print(Obj(members), depth, fmt))
  {
    hide Print, PrintString, FrontMembers, MembersLen, Holds, Tabs, Keyed;
    out := new char[len];
    var p := Emit(out, 0, '{', "");
    if fmt {
      p := Emit(out, p, '\n', "{");
    }
    assert out[..p] == Opening(fmt);
    out[p] := '\0';
    NoFrontMembers(members, depth + 1, fmt);
    for i := 0 to |entries|
      invariant Lines(names, entries, members, depth + 1, fmt)
      invariant p == |Opening(fmt) + FrontMembers(members, i, depth + 1, fmt)| < len
      invariant out[..p] == Opening(fmt) + FrontMembers(members, i, depth + 1, fmt)
    {
      MembersFit(members, i + 1, depth + 1, fmt);
      p := EmitMember(out, p, names[i], entries[i], i, |entries|, depth + 1, fmt, members);
    }
    MembersFit(members, |members|, depth + 1, fmt);
    ghost var text := out[..p];
    ObjectText(members, depth, fmt, text);
    if fmt {
      p := EmitTabs(out, p, depth, text);
    }
    assert out[..p] == text + Tabs(fmt, depth) by { NoTabs(depth, text); }
    p := Emit(out, p, '}', text + Tabs(fmt, depth));
    PrintNoNul(Obj(members), depth, fmt);
    out[p] := '\0';
    HoldsIf(out[..], Print(Obj(members), depth, fmt));
  }

  lemma NoFrontMembers(members: seq<Member>, depth: nat, fmt: bool)
    requires Keyed(members)
    ensures Opening(fmt) + FrontMembers(members, 0, depth, fmt) == Opening(fmt)
  {}

  /** `{}`, which the formatted print breaks and indents one tab less than its own depth. */
  method EmptyObject(depth: nat, fmt: bool) returns (out: array<char>)
    ensures fresh(out) && Holds(out[..], Print(Obj([]), depth, fmt))
  {
    out := new char[if fmt then depth + 4 else 3];
    var p := Emit(out, 0, '{', "");
    if fmt {
      p := Emit(out, p, '\n', "{");
      p := EmitTabs(out, p, depth - 1, "{\n");
    }
    ghost var text := "{" + NewLine(fmt) + Tabs(fmt, depth - 1);
    assert out[..p] == text;
    p := Emit(out, p, '}', text);
    out[p] := '\0';
    PrintNoNul(Obj([]), depth, fmt);
    assert Print(Obj([]), depth, fmt) == text + "}";
  }

  // ---------------------------------------------------------------- the tree

  ghost function Items(sh: Shape): (r: seq<Json>)
    requires Typed(sh) && sh.data.kind == CJSON_ARRAY
    ensures |r| == |sh.kids| && forall i :: 0 <= i < |r| ==> Printable(r[i])
  {
    ValueOf(sh).items
  }

  ghost function Members(sh: Shape): (r: seq<Member>)
    requires Typed(sh) && sh.data.kind == CJSON_OBJECT
    ensures |r| == |sh.kids| && Keyed(r)
  {
    ValueOf(sh).members
  }

  lemma ItemIs(sh: Shape, i: nat)
    requires Typed(sh) && sh.data.kind == CJSON_ARRAY && i < |sh.kids|
    ensures Typed(sh.kids[i]) && Items(sh)[i] == ValueOf(sh.kids[i])
  {}

  lemma MemberIs(sh: Shape, i: nat)
    requires Typed(sh) && sh.data.kind == CJSON_OBJECT && i < |sh.kids|
    ensures Typed(sh.kids[i]) && HasName(sh.kids[i].data)
      && Members(sh)[i] == Member(sh.kids[i].data.name.value, ValueOf(sh.kids[i]))
  {}

  method PrintValue(item: Item, depth: nat, fmt: bool, ghost sh: Shape) returns (out: array<char>)
    requires Laid(sh) && sh.node == item && Typed(sh)
    ensures Laid(sh) && fresh(out) && Holds(out[..], Print(ValueOf(sh), depth, fmt))
    decreases sh, 1
  {
    hide Inside, Nodes;
    Start(sh);
    AllAllocated(sh);
    if item.kind == CJSON_NULL {
      out := StrDup("null");
    } else if item.kind == CJSON_FALSE {
      out := StrDup("false");
    } else if item.kind == CJSON_TRUE {
      out := StrDup("true");
    } else if item.kind == CJSON_NUMBER {
      out := PrintNumber(item.valueint);
    } else if item.kind == CJSON_STRING {
      out := PrintStringPtr(item.valuestring);
      PrintNoNul(ValueOf(sh), depth, fmt);
    } else if item.kind == CJSON_ARRAY {
      out := PrintArray(item, depth, fmt, sh);
    } else {
      out := PrintObject(item, depth, fmt, sh);
    }
  }

  method PrintArray(item: Item, depth: nat, fmt: bool, ghost sh: Shape) returns (out: array<char>)
    requires Laid(sh) && sh.node == item && Typed(sh) && item.kind == CJSON_ARRAY
    ensures Laid(sh) && fresh(out) && Holds(out[..], Print(ValueOf(sh), depth, fmt))
    decreases sh, 0
  {
    hide Inside, Nodes, Typed, ValueOf, Print, ItemsLen;
    Start(sh);
    AllAllocated(sh);
    ghost var items := Items(sh);
    var n := GetArraySize(item, sh);
    ArrayIs(sh, depth, fmt);
    if n == 0 {
      out := StrDup("[]");
      return;
    }
    var entries: seq<array<char>>, len, child := [], 5, item.child;
    ghost var i: nat := 0;
    NoItems(items, depth + 1, fmt);
    while child != null
      invariant i <= n && child == NodeAt(sh.kids, i) && Laid(sh)
      invariant Entries(entries, items[..i], depth + 1, fmt) && len == 5 + ItemsLen(items, i, depth + 1, fmt)
      decreases n - i
    {
      child, entries, len := NextEntry(child, depth, fmt, entries, len, sh, i, sh.kids[i]);
      i := i + 1;
    }
    assert items[..n] == items;
    out := ComposeArray(entries, len, depth, fmt, items);
  }

  /** One turn of the collecting loop of print_array. */
  method NextEntry(child: Item, depth: nat, fmt: bool, entries: seq<array<char>>, len: nat, ghost sh: Shape,
                   ghost i: nat, ghost kid: Shape)
    returns (next: Item?, entries': seq<array<char>>, len': nat)
    requires Laid(sh) && Typed(sh) && sh.data.kind == CJSON_ARRAY && i < |sh.kids| && kid == sh.kids[i]
      && child == kid.node
    requires Entries(entries, Items(sh)[..i], depth + 1, fmt) && len == 5 + ItemsLen(Items(sh), i, depth + 1, fmt)
    ensures Laid(sh) && next == NodeAt(sh.kids, i + 1)
    ensures Entries(entries', Items(sh)[..i + 1], depth + 1, fmt)
      && len' == 5 + ItemsLen(Items(sh), i + 1, depth + 1, fmt)
    decreases kid, 2
  {
    hide Inside, Nodes, Typed, ValueOf, Print, Holds;
    AllAllocated(sh);
    Walk(sh, i);
    KidLaid(sh, i);
    ItemIs(sh, i);
    var ret := PrintValue(child, depth + 1, fmt, kid);
    entries' := entries + [ret];
    var n := StrLen(ret, Print(ValueOf(kid), depth + 1, fmt));
    len' := len + n + 2 + if fmt then 1 else 0;
    assert Items(sh)[..i + 1] == Items(sh)[..i] + [ValueOf(kid)];
    next := child.next;
  }

  lemma NoItems(items: seq<Json>, depth: nat, fmt: bool)
    requires forall k :: 0 <= k < |items| ==> Printable(items[k])
    ensures ItemsLen(items, 0, depth, fmt) == 0
  {}

  lemma ArrayIs(sh: Shape, depth: nat, fmt: bool)
    requires Typed(sh) && sh.data.kind == CJSON_ARRAY
    ensures ValueOf(sh) == Arr(Items(sh))
    ensures sh.kids == [] ==> Print(ValueOf(sh), depth, fmt) == "[]"
  {}

  method PrintObject(item: Item, depth: nat, fmt: bool, ghost sh: Shape) returns (out: array<char>)
    requires Laid(sh) && sh.node == item && Typed(sh) && item.kind == CJSON_OBJECT
    ensures Laid(sh) && fresh(out) && Holds(out[..], Print(ValueOf(sh), depth, fmt))
    decreases sh, 0
  {
    hide Inside, Nodes, Typed, ValueOf, Print, MembersLen;
    Start(sh);
    AllAllocated(sh);
    ghost var members := Members(sh);
    var n := GetArraySize(item, sh);
    ObjectIs(sh);
    if n == 0 {
      out := EmptyObject(depth, fmt);
      return;
    }
    var names: seq<array<char>>, entries: seq<array<char>>, len, child := [], [], 7, item.child;
    if fmt {
      len := len + (depth + 1);
    }
    ghost var i: nat := 0;
    NoMembers(members, depth + 1, fmt);
    while child != null
      invariant i <= n && child == NodeAt(sh.kids, i) && Laid(sh)
      invariant Lines(names, entries, members[..i], depth + 1, fmt)
      invariant len == 7 + (if fmt then depth + 1 else 0) + MembersLen(members, i, depth + 1, fmt)
      decreases n - i
    {
      child, names, entries, len := NextMember(child, depth, fmt, names, entries, len, sh, i, sh.kids[i]);
      i := i + 1;
    }
    assert members[..n] == members;
    out := ComposeObject(names, entries, len, depth, fmt, members);
  }

  /** One turn of the collecting loop of print_object. */
  method NextMember(child: Item, depth: nat, fmt: bool, names: seq<array<char>>, entries: seq<array<char>>, len: nat,
                    ghost sh: Shape, ghost i: nat, ghost kid: Shape)
    returns (next: Item?, names': seq<array<char>>, entries': seq<array<char>>, len': nat)
    requires Laid(sh) && Typed(sh) && sh.data.kind == CJSON_OBJECT && i < |sh.kids| && kid == sh.kids[i]
      && child == kid.node
    requires Lines(names, entries, Members(sh)[..i], depth + 1, fmt)
    requires len == 7 + (if fmt then depth + 1 else 0) + MembersLen(Members(sh), i, depth + 1, fmt)
    ensures Laid(sh) && next == NodeAt(sh.kids, i + 1)
    ensures Lines(names', entries', Members(sh)[..i + 1], depth + 1, fmt)
    ensures len' == 7 + (if fmt then depth + 1 else 0) + MembersLen(Members(sh), i + 1, depth + 1, fmt)
    decreases kid, 2
  {
    hide Inside, Nodes, Typed, ValueOf, Print, PrintString, Holds;
    AllAllocated(sh);
    Walk(sh, i);
    MemberIs(sh, i);
    ghost var m := Members(sh)[i];
    var str := PrintStringPtr(child.name);
    StringHolds(str[..], m.name);
    KidLaid(sh, i);
    var ret := PrintValue(child, depth + 1, fmt, kid);
    names', entries' := names + [str], entries + [ret];
    var n := StrLen(ret, Print(m.value, depth + 1, fmt));
    var k := StrLen(str, PrintString(m.name));
    len' := len + n + k + 2 + if fmt then 2 + (depth + 1) else 0;
    assert Members(sh)[..i + 1] == Members(sh)[..i] + [m];
    next := child.next;
  }

  lemma StringHolds(b: string, s: string)
    requires NulFree(s) && b == PrintString(s) + "\0"
    ensures Holds(b, PrintString(s))
  {
    EscapeNoNul(s);
    assert b[..|PrintString(s)|] == PrintString(s);
  }

  lemma NoMembers(members: seq<Member>, depth: nat, fmt: bool)
    requires Keyed(members)
    ensures MembersLen(members, 0, depth, fmt) == 0
  {}

  lemma ObjectIs(sh: Shape)
    requires Typed(sh) && sh.data.kind == CJSON_OBJECT
    ensures ValueOf(sh) == Obj(Members(sh))
  {}
}
