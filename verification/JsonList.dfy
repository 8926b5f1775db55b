/** The list operations of cJSON.c: each walks the chain under the parent and relinks it, and does
    to the sequence of children what its name says. */
module JsonList {
  import opened CText
  import opened JsonTree

  /** The child chain of a laid out tree, from its fields. */
  lemma Walk(sh: Shape, i: int)
    requires Laid(sh) && 0 <= i < |sh.kids|
    ensures sh.kids[i].node in Nodes(sh)
    ensures sh.kids[i].node.next == NodeAt(sh.kids, i + 1) && sh.kids[i].node.prev == NodeAt(sh.kids, i - 1)
    ensures DataOf(sh.kids[i].node) == sh.kids[i].data
  {
    KidIn(Memory(Nodes(sh)), sh, i);
    RootIn(Memory(Nodes(sh)), sh.kids[i]);
  }

  lemma Start(sh: Shape)
    requires Laid(sh)
    ensures sh.node.child == NodeAt(sh.kids, 0) && DataOf(sh.node) == sh.data
  {
    RootIn(Memory(Nodes(sh)), sh);
  }

  /** A picture that covers the tree will do. */
  lemma LaidIf(s: set<Item>, sh: Shape)
    requires Inside(Memory(s), sh) && Apart(sh) && Nodes(sh) <= s
    ensures Laid(sh)
  {
    Steady(Memory(s), Memory(Nodes(sh)), sh);
  }

  lemma InsideIf(s: set<Item>, sh: Shape)
    requires Laid(sh) && Nodes(sh) <= s
    ensures Inside(Memory(s), sh)
  {
    Steady(Memory(Nodes(sh)), Memory(s), sh);
  }

  lemma KidLaid(sh: Shape, i: nat)
    requires Laid(sh) && i < |sh.kids|
    ensures Laid(sh.kids[i])
  {
    KidNodes(sh, i);
    KidIn(Memory(Nodes(sh)), sh, i);
    Steady(Memory(Nodes(sh)), Memory(Nodes(sh.kids[i])), sh.kids[i]);
  }

  lemma AllAllocated(sh: Shape)
    ensures allocated(Nodes(sh))
  {}

  method GetArraySize(list: Item, ghost sh: Shape) returns (n: nat)
    requires Laid(sh) && sh.node == list
    ensures n == |sh.kids| && Laid(sh)
  {
    hide Inside;
    Start(sh);
    var c := list.child;
    n := 0;
    while c != null
      invariant Laid(sh) && n <= |sh.kids| && c == NodeAt(sh.kids, n)
      decreases |sh.kids| - n
    {
      Walk(sh, n);
      n := n + 1;
      c := c.next;
    }
  }

  method GetArrayItem(list: Item, item: int, ghost sh: Shape) returns (c: Item?)
    requires Laid(sh) && sh.node == list
    ensures c == NodeAt(sh.kids, if item < 0 then 0 else item)
  {
    hide Inside;
    Start(sh);
    c := list.child;
    var left := item;
    ghost var i: nat := 0;
    while c != null && left > 0
      invariant Laid(sh) && i <= |sh.kids| && c == NodeAt(sh.kids, i) && (item < 0 ==> left == item && i == 0)
        && (item >= 0 ==> 0 <= left == item - i)
      decreases |sh.kids| - i
    {
      Walk(sh, i);
      left := left - 1;
      i := i + 1;
      c := c.next;
    }
  }

  function Lower(c: char): char {
    if 'A' <= c <= 'Z' then (c as int + 32) as char else c
  }

  function LowerAll(s: string): string {
    seq(|s|, i requires 0 <= i < |s| => Lower(s[i]))
  }

  /** The same character, or one letter in either case. */
  predicate Alike(a: char, b: char) {
    a == b || exists k :: 0 <= k < 26 && IsLetter(a, k) && IsLetter(b, k)
  }

  predicate IsLetter(c: char, k: nat)
    requires k < 26
  {
    c == "abcdefghijklmnopqrstuvwxyz"[k] || c == "ABCDEFGHIJKLMNOPQRSTUVWXYZ"[k]
  }

  lemma LetterLower(c: char, k: nat)
    requires k < 26 && IsLetter(c, k)
    ensures Lower(c) == "abcdefghijklmnopqrstuvwxyz"[k]
  {}

  lemma LetterOf(c: char) returns (k: nat)
    requires 'A' <= c <= 'Z' || 'a' <= c <= 'z'
    ensures k < 26 && IsLetter(c, k)
  {
    k := if c <= 'Z' then (c - 'A') as nat else (c - 'a') as nat;
  }

  lemma LowerIsAlike(a: char, b: char)
    ensures Lower(a) == Lower(b) <==> Alike(a, b)
  {
    hide IsLetter;
    if Alike(a, b) && a != b {
      var k :| 0 <= k < 26 && IsLetter(a, k) && IsLetter(b, k);
      LetterLower(a, k);
      LetterLower(b, k);
    }
    if a != b && Lower(a) == Lower(b) {
      var k := LetterOf(a);
      var j := LetterOf(b);
      LetterLower(a, k);
      LetterLower(b, j);
      Letters(k, j);
    }
  }

  lemma Letters(k: nat, j: nat)
    requires k < 26 && j < 26 && "abcdefghijklmnopqrstuvwxyz"[k] == "abcdefghijklmnopqrstuvwxyz"[j]
    ensures k == j
  {
    LetterAt(k);
    LetterAt(j);
  }

  lemma LetterAt(k: nat)
    requires k < 26
    ensures "abcdefghijklmnopqrstuvwxyz"[k] == 'a' + k as char
  {}

  /** Names are the same when each pair of their characters is alike. */
  lemma EqualButCase(s: string, t: string)
    ensures LowerAll(s) == LowerAll(t) <==> |s| == |t| && forall i :: 0 <= i < |s| ==> Alike(s[i], t[i])
  {
    hide Alike;
    forall i | 0 <= i < |s| && i < |t| ensures LowerAll(s)[i] == LowerAll(t)[i] <==> Alike(s[i], t[i]) {
      LowerIsAlike(s[i], t[i]);
    }
    if LowerAll(s) == LowerAll(t) {
      assert |s| == |LowerAll(s)| == |t|;
    }
  }

  lemma LowerMore(s: string, c: char)
    ensures LowerAll(s + [c]) == LowerAll(s) + [Lower(c)]
  {}

  /** Equal but for case; a missing name matches nothing. */
  method StrCaseCmp(s1: Option<string>, s2: string) returns (same: bool)
    requires (s1.Some? ==> NulFree(s1.value)) && NulFree(s2)
    ensures same <==> s1.Some? && LowerAll(s1.value) == LowerAll(s2)
    ensures same <==> s1.Some? && |s1.value| == |s2| && forall i :: 0 <= i < |s2| ==> Alike(s1.value[i], s2[i])
  {
    hide Alike;
    if s1.None? {
      return false;
    }
    var s := s1.value;
    EqualButCase(s, s2);
    var i: nat := 0;
    while Lower(At(s, i)) == Lower(At(s2, i))
      invariant i <= |s| && i <= |s2| && LowerAll(s[..i]) == LowerAll(s2[..i])
      decreases |s| - i
    {
      if At(s, i) == '\0' {
        assert i == |s| == |s2|;
        assert s[..i] == s && s2[..i] == s2;
        return true;
      }
      assert i < |s| && i < |s2|;
      assert s[..i + 1] == s[..i] + [s[i]] && s2[..i + 1] == s2[..i] + [s2[i]];
      LowerMore(s[..i], s[i]);
      LowerMore(s2[..i], s2[i]);
      i := i + 1;
    }
    assert !(LowerAll(s) == LowerAll(s2)) by {
      if i < |s| && i < |s2| {
        assert LowerAll(s)[i] != LowerAll(s2)[i];
      }
    }
    return false;
  }

  /** The first child of that name. */
  method GetObjectItem(object_: Item, name: string, ghost sh: Shape) returns (c: Item?, ghost i: nat)
    requires Laid(sh) && sh.node == object_ && NulFree(name)
    requires forall k :: 0 <= k < |sh.kids| && sh.kids[k].data.name.Some? ==> NulFree(sh.kids[k].data.name.value)
    ensures c == NodeAt(sh.kids, i) && i <= |sh.kids|
    ensures i < |sh.kids| ==> Named(sh.kids[i], name)
    ensures forall k :: 0 <= k < i ==> !Named(sh.kids[k], name)
    ensures c == null <==> forall k :: 0 <= k < |sh.kids| ==> !Named(sh.kids[k], name)
  {
    hide Inside;
    Start(sh);
    c := object_.child;
    i := 0;
    while c != null
      invariant Laid(sh) && i <= |sh.kids| && c == NodeAt(sh.kids, i)
      invariant forall k :: 0 <= k < i ==> !Named(sh.kids[k], name)
      decreases |sh.kids| - i
    {
      Walk(sh, i);
      assert DataOf(c).name == sh.kids[i].data.name;
      AllAllocated(sh);
      var same := StrCaseCmp(c.name, name);
      if same {
        return;
      }
      c := c.next;
      i := i + 1;
    }
  }

  predicate Named(k: Shape, name: string) {
    k.data.name.Some? && LowerAll(k.data.name.value) == LowerAll(name)
  }

  method SuffixObject(prev: Item, item: Item, ghost s: set<Item>)
    requires prev in s && item in s && prev != item
    modifies prev`next, item`prev
    ensures Memory(s) == Prev(Next(old(Memory(s)), prev, item), item, prev)
  {
    prev.next := item;
    item.prev := prev;
    IsNow(s, Prev(Next(old(Memory(s)), prev, item), item, prev));
  }

  /** Appends a detached item. */
  method AddItemToArray(list: Item, item: Item?, ghost sh: Shape, ghost it: Shape)
    requires Laid(sh) && Apart(sh) && sh.node == list
    requires item != null ==>
      Laid(it) && Apart(it) && it.node == item && Nodes(sh) !! Nodes(it) && item.next == null && item.prev == null
    modifies list`child, Heads(sh.kids)`next, if item == null then {} else {item}
    ensures item == null ==> Laid(sh)
    ensures item != null ==> Laid(WithKids(sh, sh.kids + [it])) && Apart(WithKids(sh, sh.kids + [it]))
  {
    hide Inside, Apart, Nodes, Heads, Appended;
    Start(sh);
    var c := list.child;
    if item == null {
      return;
    }
    ghost var s := Nodes(sh) + Nodes(it);
    ghost var v := Memory(s);
    InsideIf(s, sh);
    InsideIf(s, it);
    RootIn(v, sh);
    RootIn(v, it);
    Append(v, sh, it);
    GrownNodes(sh, it);
    if sh.kids != [] {
      RootsDiffer(sh, it, |sh.kids| - 1);
    }
    OwnNode(sh);
    OwnNode(it);
    if c == null {
      list.child := item;
      IsNow(s, Child(v, list, item));
    } else {
      ghost var i: nat := 0;
      while c != null && c.next != null
        modifies {}
        invariant Laid(sh) && i < |sh.kids| && c == sh.kids[i].node
        decreases |sh.kids| - i
      {
        Walk(sh, i);
        c := c.next;
        i := i + 1;
      }
      Walk(sh, i);
      HeadsDiffer(sh, i, i);
      SuffixObject(c, item, s);
    }
    AppendedIs(v, sh, item);
    LaidIf(s, WithKids(sh, sh.kids + [it]));
  }

  lemma IsNow(s: set<Item>, w: View)
    requires w.Keys == s && forall x :: x in s ==> w[x] == CellOf(x)
    ensures Memory(s) == w
  {}

  method AddItemToObject(list: Item, name: string, item: Item?, ghost sh: Shape, ghost it: Shape)
    requires Laid(sh) && Apart(sh) && sh.node == list
    requires item != null ==>
      Laid(it) && Apart(it) && it.node == item && Nodes(sh) !! Nodes(it) && item.next == null && item.prev == null
    modifies list`child, Heads(sh.kids)`next, if item == null then {} else {item}
    ensures item == null ==> Laid(sh)
    ensures item != null ==> var kid := it.(data := it.data.(name := Some(name)));
      Laid(WithKids(sh, sh.kids + [kid])) && Apart(WithKids(sh, sh.kids + [kid]))
  {
    hide Inside, Apart, Heads;
    if item == null {
      return;
    }
    ghost var kid := it.(data := it.data.(name := Some(name)));
    ghost var v := Memory(Nodes(it));
    Start(it);
    OwnNode(it);
    OwnNode(sh);
    item.name := Some(name);
    Renamed(v, Memory(Nodes(it)), it, kid);
    AddItemToArray(list, item, sh, kid);
  }

  lemma Renamed(v: View, w: View, it: Shape, kid: Shape)
    requires Inside(v, it) && Apart(it) && kid == it.(data := kid.data) && v.Keys == w.Keys
    requires w[it.node].data == kid.data && w[it.node].child == v[it.node].child
    requires forall x :: x in v && x != it.node ==> w[x] == v[x]
    ensures Inside(w, kid) && Apart(kid) && Nodes(kid) == Nodes(it)
  {
    var some := {it.node};
    forall i: nat | i < |it.kids| ensures Chained(w, it.kids, i) && Inside(w, it.kids[i]) {
      KidIn(v, it, i);
      KidNodes(it, i);
      Steady(v, w, it.kids[i]);
    }
  }

  lemma GrownNodes(sh: Shape, it: Shape)
    ensures Nodes(WithKids(sh, sh.kids + [it])) <= Nodes(sh) + Nodes(it)
  {
    forall x | x in NodesOf(sh.kids + [it]) ensures x in Nodes(sh) + Nodes(it) {
      var i: nat :| i < |sh.kids + [it]| && x in Nodes((sh.kids + [it])[i]);
      if i < |sh.kids| {
        KidNodes(sh, i);
      }
    }
  }

  lemma RootsDiffer(sh: Shape, it: Shape, i: nat)
    requires Nodes(sh) !! Nodes(it) && i < |sh.kids|
    ensures it.node != sh.kids[i].node
  {
    KidNodes(sh, i);
  }

  lemma OwnNode(sh: Shape)
    ensures sh.node in Nodes(sh)
  {}

  lemma KeptNodes(sh: Shape, k: nat)
    requires k < |sh.kids|
    ensures Nodes(WithKids(sh, Removed(sh.kids, k))) <= Nodes(sh)
  {
    forall x | x in NodesOf(Removed(sh.kids, k)) ensures x in Nodes(sh) {
      var i: nat :| i < |Removed(sh.kids, k)| && x in Nodes(Removed(sh.kids, k)[i]);
      RemovedAt(sh.kids, k, i);
      KidNodes(sh, Before(k, i));
    }
  }

  /** Counts down along the chain. */
  method Nth(list: Item, which: int, ghost sh: Shape) returns (c: Item?, ghost k: nat)
    requires Laid(sh) && sh.node == list
    ensures k == (if which < 0 then 0 else which) || (k == |sh.kids| && k <= which)
    ensures c == NodeAt(sh.kids, k) && k <= |sh.kids| && Laid(sh)
    ensures c != null ==> c in Nodes(sh) && c.next == NodeAt(sh.kids, k + 1) && c.prev == NodeAt(sh.kids, k - 1)
  {
    hide Inside;
    Start(sh);
    c := list.child;
    var left := which;
    k := 0;
    while c != null && left > 0
      invariant Laid(sh) && k <= |sh.kids| && c == NodeAt(sh.kids, k)
      invariant (which < 0 ==> left == which && k == 0) && (which >= 0 ==> 0 <= left == which - k)
      decreases |sh.kids| - k
    {
      Walk(sh, k);
      c := c.next;
      left := left - 1;
      k := k + 1;
    }
    if c != null {
      Walk(sh, k);
    }
  }

  /** Takes out the item at the given place, if there is one. */
  method DetachItemFromArray(list: Item, which: int, ghost sh: Shape) returns (c: Item?, ghost k: nat)
    requires Laid(sh) && Apart(sh) && sh.node == list
    modifies list`child, Heads(sh.kids)`next, Heads(sh.kids)`prev
    ensures k == (if which < 0 then 0 else which) || (k == |sh.kids| && k <= which)
    ensures c == null <==> k >= |sh.kids|
    ensures c == null ==> Laid(sh)
    ensures c != null ==>
      c == sh.kids[k].node && c.next == null && c.prev == null && Laid(sh.kids[k]) && Apart(sh.kids[k])
    ensures c != null ==> Laid(WithKids(sh, Removed(sh.kids, k))) && Apart(WithKids(sh, Removed(sh.kids, k)))
    ensures c != null ==> Nodes(WithKids(sh, Removed(sh.kids, k))) !! Nodes(sh.kids[k])
  {
    hide Inside, Apart, Nodes, Heads, Unchained;
    c, k := Nth(list, which, sh);
    if c == null {
      return;
    }
    ghost var s := Nodes(sh);
    ghost var v := Memory(s);
    Remove(v, sh, k);
    AreReady(v, sh, k);
    RemovedApart(sh, k);
    KeptNodes(sh, k);
    KidNodes(sh, k);
    ghost var p, n := NodeAt(sh.kids, k - 1), NodeAt(sh.kids, k + 1);
    HeadsDiffer(sh, k, k);
    if k > 0 { HeadsDiffer(sh, k - 1, k); }
    if k + 1 < |sh.kids| { HeadsDiffer(sh, k + 1, k); }
    HeadsDiffer(sh, 0, k);
    Start(sh);
    Relink(list, c, p, n, s);
    LaidIf(s, WithKids(sh, Removed(sh.kids, k)));
    LaidIf(s, sh.kids[k]);
  }

  /** Takes `c` out from between its neighbours. */
  method Relink(list: Item, c: Item, ghost p: Item?, ghost n: Item?, ghost s: set<Item>)
    requires c.prev == p && c.next == n && (list.child == c <==> p == null) && Around(list, c, p, n)
    requires list in s && c in s && (p != null ==> p in s) && (n != null ==> n in s)
    modifies list`child, c`next, c`prev, if p == null then {} else {p}`next, if n == null then {} else {n}`prev
    ensures Memory(s) == Unchained(old(Memory(s)), list, c, p, n)
  {
    hide Unchained;
    UnchainedIs(Memory(s), list, c, p, n);
    if c.prev != null {
      c.prev.next := c.next;
    }
    if c.next != null {
      c.next.prev := c.prev;
    }
    if c == list.child {
      list.child := c.next;
    }
    c.prev, c.next := null, null;
    IsNow(s, Unchained(old(Memory(s)), list, c, p, n));
  }

  lemma ReplacedNodes(sh: Shape, k: nat, it: Shape)
    requires k < |sh.kids|
    ensures Nodes(WithKids(sh, sh.kids[k := it])) <= Nodes(sh) + Nodes(it)
  {
    forall x | x in NodesOf(sh.kids[k := it]) ensures x in Nodes(sh) + Nodes(it) {
      var i: nat :| i < |sh.kids| && x in Nodes(sh.kids[k := it][i]);
      KidNodes(sh, i);
    }
  }

  /** Puts a new item in the given place, if there is one; the old one is left without neighbours. */
  method ReplaceItemInArray(list: Item, which: int, newitem: Item, ghost sh: Shape, ghost it: Shape)
    returns (ghost k: nat)
    requires Laid(sh) && Apart(sh) && sh.node == list
    requires Laid(it) && Apart(it) && it.node == newitem && Nodes(sh) !! Nodes(it)
    modifies list`child, Heads(sh.kids)`next, Heads(sh.kids)`prev, newitem`next, newitem`prev
    ensures k == (if which < 0 then 0 else which) || (k == |sh.kids| && k <= which)
    ensures k == |sh.kids| ==> Laid(sh) && Laid(it)
    ensures k < |sh.kids| ==> Laid(WithKids(sh, sh.kids[k := it])) && Apart(WithKids(sh, sh.kids[k := it]))
    ensures k < |sh.kids| ==> Laid(sh.kids[k]) && sh.kids[k].node.next == null && sh.kids[k].node.prev == null
  {
    hide Inside, Apart, Nodes, Heads, Swapped;
    AllAllocated(it);
    var c;
    c, k := Nth(list, which, sh);
    if c == null {
      return;
    }
    ghost var s := Nodes(sh) + Nodes(it);
    ghost var v := Memory(s);
    InsideIf(s, sh);
    InsideIf(s, it);
    Replace(v, sh, k, it);
    AreReady(v, sh, k);
    ReplacedApart(sh, k, it);
    ReplacedNodes(sh, k, it);
    KidNodes(sh, k);
    OwnNode(it);
    Strange(sh, it, k);
    ghost var p, n := NodeAt(sh.kids, k - 1), NodeAt(sh.kids, k + 1);
    HeadsDiffer(sh, k, k);
    if k > 0 { HeadsDiffer(sh, k - 1, k); }
    if k + 1 < |sh.kids| { HeadsDiffer(sh, k + 1, k); }
    HeadsDiffer(sh, 0, k);
    Start(sh);
    SwapIn(list, c, newitem, p, n, s);
    LaidIf(s, WithKids(sh, sh.kids[k := it]));
    LaidIf(s, sh.kids[k]);
  }

  /** Puts `it` where `c` stands. */
  method SwapIn(list: Item, c: Item, it: Item, ghost p: Item?, ghost n: Item?, ghost s: set<Item>)
    requires c.prev == p && c.next == n && (list.child == c <==> p == null) && Around(list, c, p, n)
    requires it != c && it != list && it != p && it != n
    requires list in s && c in s && it in s && (p != null ==> p in s) && (n != null ==> n in s)
    modifies list`child, c`next, c`prev, it`next, it`prev
    modifies if p == null then {} else {p}`next, if n == null then {} else {n}`prev
    ensures Memory(s) == Swapped(old(Memory(s)), list, c, it, p, n)
  {
    hide Swapped;
    SwappedIs(Memory(s), list, c, it, p, n);
    it.next := c.next;
    it.prev := c.prev;
    if it.next != null {
      it.next.prev := it;
    }
    if c == list.child {
      list.child := it;
    } else {
      it.prev.next := it;
    }
    c.next, c.prev := null, null;
    IsNow(s, Swapped(old(Memory(s)), list, c, it, p, n));
  }
}
