/** xml_set_attribute and xml_get_attribute on a node: its attribute text is kept that of a list of
    attributes, and its uri the value of its namespace declaration. */
module XmlNodeAttributes {
  import opened CText
  import opened XmlText
  import opened XmlRoundTrip
  import opened XmlAttributes
  import opened XmlTree

  /** The node bears the attributes of the list. */
  ghost predicate Bears(node: Node, l: seq<Attr>)
    reads node
  {
    && ListFits(l) && node.attr == (if l == [] then None else Some(Render(l)))
    && node.uri == Lookup(l, Declaration(node.prefix))
  }

  lemma PrefixFound(s: string, p: string)
    ensures StrStr(s, p) == Some(0) <==> p <= s
  {}

  /** Where an attribute in one kind of quotes is found: the end of the text in front of it and the
      start of its value. */
  method Find(s: string, k: string, q: char) returns (found: bool, front: nat, start: nat)
    ensures found <==> FindQuoted(s, k, q).Some?
    ensures found ==> FindQuoted(s, k, q) == Some((front, start))
  {
    found, front, start := false, 0, 0;
    var pattern := " " + k + "=" + [q];
    assert pattern[1..] == k + "=" + [q];
    var pos := StrStr(s, pattern);
    PrefixFound(s, pattern[1..]);
    if pos.Some? || StrStr(s, pattern[1..]) == Some(0) {
      found := true;
      if pos.Some? {
        front, start := pos.value, pos.value + |pattern|;
      } else {
        front, start := 0, |pattern| - 1;
      }
    }
  }

  /** Both kinds of quotes in turn. */
  method LocateIn(s: string, k: string) returns (found: bool, front: nat, start: nat, end: nat)
    requires Locate(s, k).Done?
    ensures found <==> Locate(s, k).value.Some?
    ensures found ==> Locate(s, k) == Done(Some((front, start, end)))
  {
    var q;
    end := 0;
    q := '\'';
    found, front, start := Find(s, k, q);
    if !found {
      q := '\"';
      found, front, start := Find(s, k, q);
    }
    if found {
      var rear := StrChr(s[start..], q);
      end := start + rear.value;
    }
  }

  method GetAttributeOf(node: Node, k: string, ghost l: seq<Attr>) returns (value: Option<string>)
    requires Bears(node, l) && KeyFits(k)
    ensures value == Lookup(l, k)
  {
    GetIsLookup(l, k);
    value := None;
    if node.attr.Some? {
      var s := node.attr.value;
      var found, front, start, end := LocateIn(s, k);
      if found {
        value := Some(s[start..end]);
      }
    }
  }

  /** The attribute text with one attribute set. */
  method SetText(attr: Option<string>, k: string, v: string) returns (all: string)
    requires SetAttrText(attr, k, v).Done?
    ensures SetAttrText(attr, k, v) == Done(all)
  {
    hide Locate, StrStrip;
    var newAttr := if '\"' in v then k + "=\'" + v + "\'" else k + "=\"" + v + "\"";
    if attr.Some? {
      var s := attr.value;
      var found, front, start, end := LocateIn(s, k);
      var p1: Option<string>, p2: Option<string> := None, None;
      if found {
        p1, p2 := StrStrip(s[..front]), StrStrip(s[end + 1..]);
      }
      if p1.Some? && p2.Some? {
        all := p1.value + " " + newAttr + " " + p2.value;
      } else if p1.Some? {
        all := p1.value + " " + newAttr;
      } else if p2.Some? {
        all := newAttr + " " + p2.value;
      } else if found {
        all := newAttr;
      } else {
        all := s + " " + newAttr;
      }
    } else {
      all := newAttr;
    }
  }

  method SetAttributeOf(node: Node, k: string, v: string, ghost l: seq<Attr>)
    requires Bears(node, l) && KeyFits(k) && ValueFits(v)
    modifies node`attr, node`uri
    ensures Bears(node, Update(l, k, v))
  {
    hide SetAttrText, ListFits, Render, Lookup, Update;
    SetIsUpdate(l, k, v);
    UriFollows(node.prefix, node.uri, l, k, v);
    if node.prefix.Some? {
      if "xmlns:" + node.prefix.value == k {
        node.uri := Some(v);
      }
    } else if "xmlns" == k {
      node.uri := Some(v);
    }
    var all := SetText(node.attr, k, v);
    node.attr := Some(all);
  }
}
