/** XML text as xml.c writes and reads it: the dump of a tree and the recursive parser, each as a
    function on texts, over the C string searches they are made of. */
module XmlText {
  import opened CText

  datatype Xml =
    | Elem(prefix: Option<string>, name: string, uri: Option<string>, attr: Option<string>, kids: seq<Xml>)
    | Text(text: string)

  // ---------------------------------------------------------------- C string searches

  /** strchr: where `c` first stands. */
  function StrChr(s: string, c: char): (r: Option<nat>)
    ensures r.Some? ==> r.value < |s| && s[r.value] == c && c !in s[..r.value]
    ensures r.None? ==> c !in s
  {
    if s == "" then None
    else if s[0] == c then Some(0)
    else
      match StrChr(s[1..], c)
      case None => None
      case Some(i) => Some(i + 1)
  }

  lemma {:induction false} StrChrIn(a: string, c: char, b: string)
    requires c !in a
    ensures StrChr(a + [c] + b, c) == Some(|a|)
  {
    var s := a + [c] + b;
    if a != "" {
      assert s[1..] == a[1..] + [c] + b;
      StrChrIn(a[1..], c, b);
    }
  }

  /** xml_strstr: where `p` first stands. */
  function StrStr(s: string, p: string): (r: Option<nat>)
    ensures r.Some? ==> r.value + |p| <= |s|
  {
    if p <= s then Some(0)
    else if s == "" then None
    else
      match StrStr(s[1..], p)
      case None => None
      case Some(i) => Some(i + 1)
  }

  function TrimFront(s: string): (r: string)
    ensures |r| <= |s| && (r != "" ==> r[0] != ' ')
  {
    if s != "" && s[0] == ' ' then TrimFront(s[1..]) else s
  }

  function TrimRear(s: string): (r: string)
    ensures |r| <= |s| && (r != "" ==> r[|r| - 1] != ' ')
  {
    if s != "" && s[|s| - 1] == ' ' then TrimRear(s[..|s| - 1]) else s
  }

  /** str_strip: without the spaces at both ends; a null pointer when nothing is left. */
  function StrStrip(s: string): Option<string> {
    var t := TrimRear(TrimFront(s));
    if t == "" then None else Some(t)
  }

  // ---------------------------------------------------------------- dumping

  function QName(prefix: Option<string>, name: string): string {
    match prefix
    case Some(p) => p + ":" + name
    case None => name
  }

  function AttrPart(attr: Option<string>): string {
    match attr
    case Some(a) => " " + a
    case None => ""
  }

  function TagBody(prefix: Option<string>, name: string, attr: Option<string>): string {
    QName(prefix, name) + AttrPart(attr)
  }

  function EndTag(q: string): string {
    "</" + q + ">"
  }

  /** The line break and spaces in front of an element at a level; level zero dumps flat. */
  function Indent(level: nat, n: nat, space: nat): string {
    if level == 0 then "" else "\n" + Repeat(' ', n * space)
  }

  function NextLevel(level: nat): nat {
    if level == 0 then 0 else level + 1
  }

  /** What follows the last child: the closing tag goes on a line of its own behind an element. */
  function Closing(kids: seq<Xml>, level: nat, space: nat): string {
    if level > 0 && kids != [] && kids[|kids| - 1].Elem? then Indent(level, level - 1, space) else ""
  }

  /** _xml_dump_tree. */
  function Dump(t: Xml, level: nat, space: nat): string
    decreases t, 1
  {
    match t
    case Text(text) => text
    case Elem(prefix, name, _, attr, kids) =>
      "<" + TagBody(prefix, name, attr) + ">"
      + DumpKids(kids, level, space) + Closing(kids, level, space)
      + EndTag(QName(prefix, name))
  }

  function DumpKid(t: Xml, level: nat, space: nat): string
    decreases t, 2
  {
    (if t.Elem? then Indent(level, level, space) else "") + Dump(t, NextLevel(level), space)
  }

  function DumpKids(kids: seq<Xml>, level: nat, space: nat): string
    decreases kids, 0
  {
    if kids == [] then "" else DumpKid(kids[0], level, space) + DumpKids(kids[1..], level, space)
  }

  // ---------------------------------------------------------------- parsing

  /** A result, or a step the C program leaves undefined: following a null pointer. */
  datatype Outcome<+T> = Done(value: T) | Undefined

  datatype Tag = Tag(prefix: Option<string>, name: string, uri: Option<string>, attr: Option<string>)

  /** The quoted value behind the first `=` of `s`. */
  function QuotedValue(s: string): Outcome<string> {
    match StrChr(s, '=')
    case None => Undefined
    case Some(e) =>
      var sep := if At(s, e + 1) == '\'' then '\'' else '\"';
      match StrChr(s, sep)
      case None => Undefined
      case Some(f) =>
        match StrChr(s[f + 1..], sep)
        case None => Undefined
        case Some(r) => Done(s[f + 1..][..r])
  }

  /** The name up to the first space of `s`, and the attributes behind it. */
  function NameAndAttr(s: string): (Option<string>, Option<string>) {
    match StrChr(s, ' ')
    case Some(sep) => (StrStrip(s[..sep]), StrStrip(s[sep..]))
    case None => (StrStrip(s), None)
  }

  /** The prefix separator of a tag, if a colon stands before its first space. */
  function PrefixEnd(tag: string): (r: Option<nat>)
    ensures r.Some? ==> r.value < |tag|
  {
    match StrChr(tag, ':')
    case None => None
    case Some(c) =>
      match StrChr(tag, ' ')
      case None => Some(c)
      case Some(sep) => if c < sep then Some(c) else None
  }

  /** The uri of the namespace declaration `ns`, if the tag carries one. */
  function TagUri(tag: string, ns: string): Outcome<Option<string>> {
    match StrStr(tag, ns)
    case None => Done(None)
    case Some(at) =>
      match QuotedValue(tag[at..])
      case Done(uri) => Done(Some(uri))
      case Undefined => Undefined
  }

  /** _parse_tag. */
  function ParseTag(tag: string): Outcome<Tag> {
    match PrefixEnd(tag)
    case Some(c) => (
      match StrStrip(tag[..c])
      case None => Undefined
      case Some(prefix) =>
        match TagUri(tag, " xmlns:" + prefix)
        case Undefined => Undefined
        case Done(uri) =>
          var (name, attr) := NameAndAttr(tag[c + 1..]);
          if name.None? then Undefined else Done(Tag(Some(prefix), name.value, uri, attr)))
    case None =>
      match TagUri(tag, " xmlns")
      case Undefined => Undefined
      case Done(uri) =>
        var (name, attr) := NameAndAttr(tag);
        if name.None? then Undefined else Done(Tag(None, name.value, uri, attr))
  }

  /** The next tag of a text: what it says, whether it closes itself, and the text behind it. */
  datatype Front = Front(tag: Tag, empty: bool, rest: string)

  /** The first `<...>` of a text; None when there is none. */
  function NextTag(s: string): (r: Outcome<Option<Front>>)
    ensures r.Done? && r.value.Some? ==> |r.value.value.rest| < |s|
  {
    match StrChr(s, '<')
    case None => Done(None)
    case Some(f) =>
      var t := s[f + 1..];
      match StrChr(t, '>')
      case None => Done(None)
      case Some(r) =>
        var empty := r > 0 && t[r - 1] == '/';
        match ParseTag(if empty then t[..r - 1] else t[..r])
        case Undefined => Undefined
        case Done(tag) => Done(Some(Front(tag, empty, t[r + 1..])))
  }

  /** Where the content of an element ends: at its end tag, or else at its end tag followed by a
      space. */
  function FindEnd(doc: string, q: string): (r: Option<nat>)
    ensures r.Some? ==> r.value < |doc|
  {
    match StrStr(doc, EndTag(q))
    case Some(e) => Some(e)
    case None => StrStr(doc, "</" + q + " ")
  }

  /** _xml_parse_doc below an element: the children the text adds to it. `some` says that the
      element already has a child. */
  function ParseKids(s: string, some: bool): Outcome<seq<Xml>>
    decreases |s|
  {
    if s == "" then Done([])
    else
      match NextTag(s)
      case Undefined => Undefined
      case Done(None) => Done(if some then [] else [Text(s)])
      case Done(Some(Front(tag, empty, rest))) =>
        if empty then Prepend(Elem(tag.prefix, tag.name, tag.uri, tag.attr, []), ParseKids(rest, true))
        else
          match FindEnd(rest, QName(tag.prefix, tag.name))
          case None => ParseKids(rest, some)
          case Some(e) =>
            match (ParseKids(rest[..e], false), StrChr(rest[e..], '>'))
            case (Done(kids), Some(r)) =>
              Prepend(Elem(tag.prefix, tag.name, tag.uri, tag.attr, kids), ParseKids(rest[e..][r + 1..], true))
            case _ => Undefined
  }

  function Prepend(t: Xml, more: Outcome<seq<Xml>>): Outcome<seq<Xml>> {
    match more
    case Done(ts) => Done([t] + ts)
    case Undefined => Undefined
  }

  /** _xml_parse_doc without a root: the first element of the text, or none. */
  function ParseRoot(s: string): Outcome<Option<Xml>>
    decreases |s|
  {
    match NextTag(s)
    case Undefined => Undefined
    case Done(None) => Done(None)
    case Done(Some(Front(tag, empty, rest))) =>
      if empty then Done(Some(Elem(tag.prefix, tag.name, tag.uri, tag.attr, [])))
      else
        match FindEnd(rest, QName(tag.prefix, tag.name))
        case None => ParseRoot(rest)
        case Some(e) =>
          match ParseKids(rest[..e], false)
          case Done(kids) => Done(Some(Elem(tag.prefix, tag.name, tag.uri, tag.attr, kids)))
          case Undefined => Undefined
  }

  /** The text behind the last `pat...>` of a text, or that last one itself when nothing is
      behind it. */
  function BehindLast(s: string, pat: string): (r: Outcome<string>)
    requires s != ""
    ensures r.Done? ==> |r.value| <= |s|
    decreases |s|
  {
    match StrStr(s, pat)
    case None => Done(s)
    case Some(i) =>
      match StrChr(s[i..], '>')
      case None => Undefined
      case Some(r) =>
        var rest := s[i..][r + 1..];
        if rest == "" then Done(s[i..]) else BehindLast(rest, pat)
  }

  /** xml_parse: the element behind the processing instructions and declarations. */
  function ParseXml(s: string): Outcome<Option<Xml>> {
    if s == "" then Undefined
    else
      match (BehindLast(s, "<?"), BehindLast(s, "<!"))
      case (Done(a), Done(b)) => ParseRoot(if |a| < |b| then a else b)
      case _ => Undefined
  }

  /** xml_new_element: the attribute text it gives to a node. */
  function NamespaceAttr(prefix: Option<string>, uri: Option<string>): Option<string> {
    match uri
    case None => None
    case Some(u) =>
      match prefix
      case Some(p) => Some("xmlns:" + p + "=\"" + u + "\"")
      case None => Some("xmlns=\"" + u + "\"")
  }
}
