/** Path queries: xml_find_path counts the matching elements in one pass over the tree and collects
    them in a second, in a set of exactly that size. */
module XmlPath {
  import opened CText
  import opened XmlText
  import opened XmlTree

  // ---------------------------------------------------------------- what a path asks for

  /** One part of a path, and equally the qualified name of an element. */
  datatype Step = Step(prefix: Option<string>, name: string)

  /** A part of a path, split at its first colon. */
  function StepOf(s: string): Step {
    match StrChr(s, ':')
    case None => Step(None, s)
    case Some(c) => Step(Some(s[..c]), s[c + 1..])
  }

  /** The parts of a path: what stands before the first slash does not count. */
  function Steps(path: string): seq<Step>
    decreases |path|
  {
    match StrChr(path, '/')
    case None => []
    case Some(f) =>
      var front := path[f + 1..];
      match StrChr(front, '/')
      case None => [StepOf(front)]
      case Some(r) => [StepOf(front[..r])] + Steps(front[r..])
  }

  function NameOf(d: Data): Step
    requires IsElement(d)
  {
    Step(d.prefix, d.name.value)
  }

  /** An element, and the names on the way to it from the root. */
  datatype Entry = Entry(node: Node, chain: seq<Step>)

  function Under(q: Step, es: seq<Entry>): seq<Entry> {
    if es == [] then [] else [Entry(es[0].node, [q] + es[0].chain)] + Under(q, es[1..])
  }

  /** All elements of a tree in document order. */
  function Entries(sh: Shape): seq<Entry>
    decreases sh, 1
  {
    if !IsElement(sh.data) then []
    else [Entry(sh.node, [NameOf(sh.data)])] + Under(NameOf(sh.data), EntriesOf(sh.kids))
  }

  function EntriesOf(kids: seq<Shape>): seq<Entry>
    decreases kids, 0
  {
    if kids == [] then [] else Entries(kids[0]) + EntriesOf(kids[1..])
  }

  /** The elements whose chain is `steps`. */
  function Select(es: seq<Entry>, steps: seq<Step>): seq<Node> {
    if es == [] then []
    else (if es[0].chain == steps then [es[0].node] else []) + Select(es[1..], steps)
  }

  // ---------------------------------------------------------------- how the passes go about it

  /** The elements both passes visit as matches, in the order they do. */
  function Hits(sh: Shape, steps: seq<Step>): seq<Node>
    decreases sh, 1
  {
    if !IsElement(sh.data) || steps == [] || NameOf(sh.data) != steps[0] then []
    else if |steps| == 1 then [sh.node]
    else HitsOf(sh.kids, steps[1..])
  }

  function HitsOf(kids: seq<Shape>, steps: seq<Step>): seq<Node>
    decreases kids, 0
  {
    if kids == [] then [] else Hits(kids[0], steps) + HitsOf(kids[1..], steps)
  }

  lemma {:induction false} SelectConcat(a: seq<Entry>, b: seq<Entry>, steps: seq<Step>)
    ensures Select(a + b, steps) == Select(a, steps) + Select(b, steps)
  {
    if a == [] {
      assert a + b == b;
    } else {
      assert (a + b)[1..] == a[1..] + b;
      SelectConcat(a[1..], b, steps);
    }
  }

  lemma {:induction false} SelectUnder(q: Step, es: seq<Entry>, steps: seq<Step>)
    requires forall i :: 0 <= i < |es| ==> es[i].chain != []
    ensures Select(Under(q, es), steps) == if |steps| > 1 && steps[0] == q then Select(es, steps[1..]) else []
  {
    if es != [] {
      var e, us := es[0], Under(q, es);
      assert us[1..] == Under(q, es[1..]);
      SelectUnder(q, es[1..], steps);
      assert ([q] + e.chain)[1..] == e.chain;
      assert us[0].chain == steps <==> |steps| > 1 && steps[0] == q && e.chain == steps[1..] by {
        if |steps| > 0 && steps[0] == q && e.chain == steps[1..] {
          assert steps == [q] + e.chain;
        }
      }
    }
  }

  lemma {:induction false} UnderChains(q: Step, es: seq<Entry>)
    ensures |Under(q, es)| == |es| && forall i :: 0 <= i < |es| ==> Under(q, es)[i].chain != []
  {
    if es != [] {
      UnderChains(q, es[1..]);
    }
  }

  lemma {:induction false} ChainsNonEmpty(sh: Shape)
    ensures forall i :: 0 <= i < |Entries(sh)| ==> Entries(sh)[i].chain != []
    decreases sh, 1
  {
    if IsElement(sh.data) {
      UnderChains(NameOf(sh.data), EntriesOf(sh.kids));
    }
  }

  lemma {:induction false} ChainsOfNonEmpty(kids: seq<Shape>)
    ensures forall i :: 0 <= i < |EntriesOf(kids)| ==> EntriesOf(kids)[i].chain != []
    decreases kids, 0
  {
    if kids != [] {
      ChainsNonEmpty(kids[0]);
      ChainsOfNonEmpty(kids[1..]);
    }
  }

  /** The passes find exactly the elements whose chain from the root is the path, in document order. */
  lemma {:induction false} HitsAreSelected(sh: Shape, steps: seq<Step>)
    ensures Hits(sh, steps) == Select(Entries(sh), steps)
    decreases sh, 1
  {
    if IsElement(sh.data) {
      var q, below := NameOf(sh.data), EntriesOf(sh.kids);
      ChainsOfNonEmpty(sh.kids);
      SelectUnder(q, below, steps);
      if |steps| > 0 {
        HitsOfAreSelected(sh.kids, steps[1..]);
      }
      SelectFirst(Entry(sh.node, [q]), Under(q, below), steps);
      assert |steps| == 1 && steps[0] == q <==> [q] == steps;
    }
  }

  lemma SelectFirst(e: Entry, es: seq<Entry>, steps: seq<Step>)
    ensures Select([e] + es, steps) == (if e.chain == steps then [e.node] else []) + Select(es, steps)
  {
    assert ([e] + es)[1..] == es;
  }

  lemma {:induction false} HitsOfAreSelected(kids: seq<Shape>, steps: seq<Step>)
    ensures HitsOf(kids, steps) == Select(EntriesOf(kids), steps)
    decreases kids, 0
  {
    if kids != [] {
      HitsAreSelected(kids[0], steps);
      HitsOfAreSelected(kids[1..], steps);
      SelectConcat(Entries(kids[0]), EntriesOf(kids[1..]), steps);
    }
  }

  // ---------------------------------------------------------------- paths that are written out

  function StepText(s: Step): string {
    match s.prefix
    case None => s.name
    case Some(p) => p + ":" + s.name
  }

  function PathText(steps: seq<Step>): string {
    if steps == [] then "" else "/" + StepText(steps[0]) + PathText(steps[1..])
  }

  /** A step that can be written in a path. */
  predicate Writable(s: Step) {
    && '/' !in s.name && (s.prefix.None? ==> ':' !in s.name)
    && (s.prefix.Some? ==> '/' !in s.prefix.value && ':' !in s.prefix.value)
  }

  lemma {:induction false} StrChrNone(a: string, c: char)
    requires c !in a
    ensures StrChr(a, c) == None
  {}

  lemma StepBack(s: Step)
    requires Writable(s)
    ensures StepOf(StepText(s)) == s && '/' !in StepText(s)
  {
    match s.prefix
    case None => StrChrNone(s.name, ':');
    case Some(p) =>
      StrChrIn(p, ':', s.name);
      assert StepText(s)[..|p|] == p && StepText(s)[|p| + 1..] == s.name;
  }

  lemma PartEnds(t: string, rest: string)
    requires '/' !in t && (rest == "" || rest[0] == '/')
    ensures StrChr(t + rest, '/') == if rest == "" then None else Some(|t|)
  {
    if rest == "" {
      assert t + rest == t;
      StrChrNone(t, '/');
    } else {
      assert t + rest == t + ['/'] + rest[1..];
      StrChrIn(t, '/', rest[1..]);
    }
  }

  lemma StepsCons(before: string, t: string, rest: string)
    requires '/' !in before && '/' !in t && (rest == "" || rest[0] == '/')
    ensures Steps(before + "/" + t + rest) == [StepOf(t)] + Steps(rest)
  {
    hide StrChr, StepOf;
    var path := before + "/" + t + rest;
    assert path == before + ['/'] + (t + rest);
    StrChrIn(before, '/', t + rest);
    assert path[|before| + 1..] == t + rest;
    PartEnds(t, rest);
    if rest == "" {
      assert t + rest == t;
      StrChrNone("", '/');
    } else {
      assert (t + rest)[..|t|] == t && (t + rest)[|t|..] == rest;
    }
  }

  lemma NoSlash(path: string)
    requires StrChr(path, '/') == None
    ensures Steps(path) == []
  {}

  lemma PathStart(before: string, steps: seq<Step>)
    ensures steps == [] ==> PathText(steps) == "" && before + PathText(steps) == before
    ensures steps != [] ==> PathText(steps) != "" && PathText(steps)[0] == '/'
    ensures steps != [] ==> before + PathText(steps) == before + "/" + StepText(steps[0]) + PathText(steps[1..])
  {
    hide StepText;
  }

  /** A path written out from its steps asks for those steps, whatever is written before it. */
  lemma {:induction false} StepsBack(before: string, steps: seq<Step>)
    requires '/' !in before && forall i :: 0 <= i < |steps| ==> Writable(steps[i])
    ensures Steps(before + PathText(steps)) == steps
    decreases |steps|
  {
    hide Steps, StepOf, PathText, StepText, Writable;
    PathStart(before, steps);
    if steps == [] {
      StrChrNone(before, '/');
      NoSlash(before);
    } else {
      var t, rest := StepText(steps[0]), PathText(steps[1..]);
      StepBack(steps[0]);
      PathStart("", steps[1..]);
      StepsCons(before, t, rest);
      StepsBack("", steps[1..]);
      assert "" + rest == rest;
    }
  }

  // ---------------------------------------------------------------- the two passes

  class NodeSet {
    var count: nat
    var node: array?<Node?>

    constructor ()
      ensures count == 0 && node == null
    {
      count, node := 0, null;
    }
  }

  /** Where the colon splits the part that ends at `r`, looked for in the whole rest of the path. */
  lemma {:induction false} ColonIn(front: string, r: nat)
    requires r <= |front|
    ensures StrChr(front[..r], ':') == match StrChr(front, ':')
      case None => None
      case Some(c) => if c < r then Some(c) else None
  {
    if r > 0 && front[0] != ':' {
      assert front[..r][1..] == front[1..][..r - 1];
      ColonIn(front[1..], r - 1);
    }
  }

  lemma StepOfPart(front: string, r: nat)
    requires r <= |front|
    ensures StepOf(front[..r]) == match StrChr(front, ':')
      case None => Step(None, front[..r])
      case Some(c) => if c < r then Step(Some(front[..c]), front[c + 1..r]) else Step(None, front[..r])
  {
    hide StrChr;
    ColonIn(front, r);
    var p := StrChr(front, ':');
    if p.Some? && p.value < r {
      assert front[..r][..p.value] == front[..p.value] && front[..r][p.value + 1..] == front[p.value + 1..r];
    }
  }

  lemma StepsFrom(path: string, f: nat, front: string)
    requires StrChr(path, '/') == Some(f) && front == path[f + 1..]
    ensures StrChr(front, '/').None? ==> Steps(path) == [StepOf(front)]
    ensures StrChr(front, '/').Some? ==>
      var rear := front[StrChr(front, '/').value..];
      Steps(path) == [StepOf(front[..StrChr(front, '/').value])] + Steps(rear) && rear != "" && rear[0] == '/'
  {
    hide StrChr, StepOf;
  }

  /** The first part of a path, and the path behind it if more follows. */
  method FirstStep(path: string) returns (found: bool, step: Step, rear: Option<string>)
    ensures found <==> Steps(path) != []
    ensures found ==> Steps(path)[0] == step && (rear.None? <==> |Steps(path)| == 1)
    ensures found && rear.Some? ==> Steps(path)[1..] == Steps(rear.value) && Steps(rear.value) != []
  {
    hide Steps, StepOf, StrChr;
    found, step, rear := false, Step(None, ""), None;
    var slash := StrChr(path, '/');
    if slash.Some? {
      found := true;
      var front := path[slash.value + 1..];
      StepsFrom(path, slash.value, front);
      var prefixChar := StrChr(front, ':');
      var r := StrChr(front, '/');
      if r.Some? {
        StepOfPart(front, r.value);
        if prefixChar.Some? && prefixChar.value < r.value {
          step := Step(Some(front[..prefixChar.value]), front[prefixChar.value + 1..r.value]);
        } else {
          step := Step(None, front[..r.value]);
        }
        rear := Some(front[r.value..]);
        StartsThere(front[r.value..]);
      } else {
        StepOfPart(front, |front|);
        assert front[..|front|] == front;
        if prefixChar.Some? {
          step := Step(Some(front[..prefixChar.value]), front[prefixChar.value + 1..]);
        } else {
          step := Step(None, front);
        }
      }
    } else {
      NoSlash(path);
    }
  }

  lemma StartsThere(path: string)
    requires path != "" && path[0] == '/'
    ensures Steps(path) != []
  {}

  /** Whether an element bears the name a step asks for. */
  method Matches(root: Node, step: Step) returns (matched: bool)
    requires IsElement(DataOf(root))
    ensures matched <==> NameOf(DataOf(root)) == step
  {
    var prefixMatched := (step.prefix.None? && root.prefix.None?)
                         || (step.prefix.Some? && root.prefix.Some? && root.prefix.value == step.prefix.value);
    var nameMatched := root.name.value == step.name;
    matched := prefixMatched && nameMatched;
  }

  method PathCount(root: Node, path: string, count: nat, ghost sh: Shape) returns (count': nat)
    requires Laid(sh) && sh.node == root
    ensures Laid(sh) && count' == count + |Hits(sh, Steps(path))|
    decreases sh
  {
    hide Inside, Nodes, Steps, HitsOf;
    count' := count;
    Start(sh);
    AllAllocated(sh);
    if IsElement(DataOf(root)) {
      var found, step, rear := FirstStep(path);
      if found {
        var matched := Matches(root, step);
        if rear.Some? {
          if matched {
            var child := root.child;
            ghost var i: nat := 0;
            NoHits(sh.kids, Steps(rear.value));
            while child != null
              invariant i <= |sh.kids| && child == NodeAt(sh.kids, i) && Laid(sh)
              invariant count' == count + |HitsOf(sh.kids[..i], Steps(rear.value))|
              decreases |sh.kids| - i
            {
              KidLaid(sh, i);
              HitsMore(sh.kids, i, Steps(rear.value));
              count' := PathCount(child, rear.value, count', sh.kids[i]);
              child, i := child.next, i + 1;
            }
            assert sh.kids[..i] == sh.kids;
          }
        } else if matched {
          count' := count' + 1;
        }
      }
    }
  }

  lemma NoHits(kids: seq<Shape>, steps: seq<Step>)
    ensures HitsOf(kids[..0], steps) == []
  {}

  lemma {:induction false} HitsMore(kids: seq<Shape>, i: nat, steps: seq<Step>)
    requires i < |kids|
    ensures HitsOf(kids[..i + 1], steps) == HitsOf(kids[..i], steps) + Hits(kids[i], steps)
  {
    if i == 0 {
      assert kids[..1] == [kids[0]] && HitsOf([], steps) == [];
      assert HitsOf([kids[0]], steps) == Hits(kids[0], steps) + HitsOf([kids[0]][1..], steps);
    } else {
      assert kids[..i + 1][1..] == kids[1..][..i] && kids[..i][1..] == kids[1..][..i - 1];
      HitsMore(kids[1..], i - 1, steps);
    }
  }

  function Slots(node: array?<Node?>): seq<Node?>
    reads if node == null then {} else {node}
  {
    if node == null then [] else node[..]
  }

  /** The slots once `hits` are written from `at` on. */
  function Filled(slots: seq<Node?>, at: nat, hits: seq<Node>): seq<Node?>
    requires at + |hits| <= |slots|
  {
    slots[..at] + hits + slots[at + |hits|..]
  }

  lemma FilledMore(slots: seq<Node?>, at: nat, a: seq<Node>, b: seq<Node>)
    requires at + |a| + |b| <= |slots|
    ensures Filled(Filled(slots, at, a), at + |a|, b) == Filled(slots, at, a + b)
  {}

  lemma FilledNone(slots: seq<Node?>, at: nat)
    requires at <= |slots|
    ensures Filled(slots, at, []) == slots
  {}

  lemma {:induction false} HitsGrow(kids: seq<Shape>, i: nat, steps: seq<Step>)
    requires i <= |kids|
    ensures |HitsOf(kids[..i], steps)| <= |HitsOf(kids, steps)|
    decreases |kids| - i
  {
    if i < |kids| {
      HitsMore(kids, i, steps);
      HitsGrow(kids, i + 1, steps);
    } else {
      assert kids[..i] == kids;
    }
  }

  method FillPath(root: Node, path: string, nodeSet: NodeSet, ghost sh: Shape)
    requires Laid(sh) && sh.node == root
    requires nodeSet.count + |Hits(sh, Steps(path))| <= |Slots(nodeSet.node)|
    modifies nodeSet`count, if nodeSet.node == null then {} else {nodeSet.node}
    ensures Laid(sh) && nodeSet.count == old(nodeSet.count) + |Hits(sh, Steps(path))|
    ensures Slots(nodeSet.node) == Filled(old(Slots(nodeSet.node)), old(nodeSet.count), Hits(sh, Steps(path)))
    decreases sh
  {
    hide Inside, Nodes, Steps, HitsOf, Filled;
    Start(sh);
    AllAllocated(sh);
    ghost var slots, at := Slots(nodeSet.node), nodeSet.count;
    FilledNone(slots, at);
    if IsElement(DataOf(root)) {
      var found, step, rear := FirstStep(path);
      if found {
        var matched := Matches(root, step);
        if rear.Some? {
          if matched {
            FillKids(root, rear.value, nodeSet, sh);
          }
        } else if matched {
          nodeSet.node[nodeSet.count] := root;
          nodeSet.count := nodeSet.count + 1;
          FilledOne(slots, at, root);
          assert Slots(nodeSet.node) == slots[at := root];
        }
      }
    }
  }

  lemma FilledOne(slots: seq<Node?>, at: nat, x: Node)
    requires at < |slots|
    ensures Filled(slots, at, [x]) == slots[at := x]
  {}

  /** The loop over the children of a match. */
  method FillKids(root: Node, rear: string, nodeSet: NodeSet, ghost sh: Shape)
    requires Laid(sh) && sh.node == root
    requires nodeSet.count + |HitsOf(sh.kids, Steps(rear))| <= |Slots(nodeSet.node)|
    modifies nodeSet`count, if nodeSet.node == null then {} else {nodeSet.node}
    ensures Laid(sh) && nodeSet.count == old(nodeSet.count) + |HitsOf(sh.kids, Steps(rear))|
    ensures Slots(nodeSet.node) == Filled(old(Slots(nodeSet.node)), old(nodeSet.count), HitsOf(sh.kids, Steps(rear)))
    decreases sh, 0
  {
    hide Inside, Nodes, Steps, HitsOf, Hits, Filled;
    Start(sh);
    AllAllocated(sh);
    ghost var slots, at, steps := Slots(nodeSet.node), nodeSet.count, Steps(rear);
    FilledNone(slots, at);
    NoHits(sh.kids, steps);
    var child := root.child;
    ghost var i: nat := 0;
    while child != null
      invariant i <= |sh.kids| && child == NodeAt(sh.kids, i) && Laid(sh)
      invariant nodeSet.count == at + |HitsOf(sh.kids[..i], steps)|
      invariant |HitsOf(sh.kids[..i], steps)| <= |HitsOf(sh.kids, steps)|
      invariant Slots(nodeSet.node) == Filled(slots, at, HitsOf(sh.kids[..i], steps))
      decreases |sh.kids| - i
    {
      KidLaid(sh, i);
      HitsMore(sh.kids, i, steps);
      HitsGrow(sh.kids, i + 1, steps);
      FilledLength(slots, at, HitsOf(sh.kids[..i], steps));
      FilledMore(slots, at, HitsOf(sh.kids[..i], steps), Hits(sh.kids[i], steps));
      FillPath(child, rear, nodeSet, sh.kids[i]);
      child, i := child.next, i + 1;
    }
    assert sh.kids[..i] == sh.kids;
  }

  lemma FilledLength(slots: seq<Node?>, at: nat, hits: seq<Node>)
    requires at + |hits| <= |slots|
    ensures |Filled(slots, at, hits)| == |slots|
  {}

  /** The elements the path selects, in document order, in a set with just as many slots. */
  method FindPath(root: Node, path: string, ghost sh: Shape) returns (nodeSet: NodeSet)
    requires Laid(sh) && sh.node == root
    ensures fresh(nodeSet) && Laid(sh) && nodeSet.count == |Slots(nodeSet.node)|
    ensures Slots(nodeSet.node) == Select(Entries(sh), Steps(path))
  {
    hide Inside, Nodes, Hits, Steps, Entries, Select, Filled;
    AllAllocated(sh);
    nodeSet := new NodeSet();
    var nodeCount := PathCount(root, path, 0, sh);
    if nodeCount != 0 {
      nodeSet.node := new Node?[nodeCount](_ => null);
    } else {
      nodeSet.node := null;
    }
    ghost var slots := Slots(nodeSet.node);
    FillPath(root, path, nodeSet, sh);
    HitsAreSelected(sh, Steps(path));
    AllFilled(slots, Hits(sh, Steps(path)));
  }

  lemma AllFilled(slots: seq<Node?>, hits: seq<Node>)
    requires |slots| == |hits|
    ensures Filled(slots, 0, hits) == hits
  {}
}
