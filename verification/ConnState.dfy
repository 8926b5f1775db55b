/** What the connection table keeps true, over a picture of its memory: for each node of the pool its
    fields and its two links. */
module ConnState {
  import opened ConnRows

  /** All of a node that is not a link. */
  datatype Info = Info(con_id: int, sockfd: int, role: int, protocol: int, addr: nat, port: nat, handletask: nat)

  type Infos = map<Node, Info>

  datatype View = View(infos: Infos, nexts: Links, seeds: Links)

  /** The socket a node has to close: none when it is free, and none for a UDP seed, which uses the
      socket of its server. */
  function Fd(i: Info): int {
    if i.con_id == INVALID || (i.protocol == UDP && i.role == SEED) then INVALID else i.sockfd
  }

  /** The sockets of the nodes of `s`, in order. */
  function Sockets(s: seq<Node>, infos: Infos): seq<int> {
    if s == [] then [] else
      Sockets(s[..|s| - 1], infos)
      + if s[|s| - 1] !in infos || Fd(infos[s[|s| - 1]]) == INVALID then [] else [Fd(infos[s[|s| - 1]])]
  }

  predicate Seedable(i: Info) {
    i.role == SEED && (i.protocol == TCP || i.protocol == UDP)
  }

  ghost predicate DistinctPool(pool: seq<Node>) {
    forall i: nat, j: nat :: i < |pool| && j < |pool| && pool[i] == pool[j] ==> i == j
  }

  /** A node in use carries its own index. */
  ghost predicate PoolOk(pool: seq<Node>, infos: Infos) {
    && DistinctPool(pool)
    && (forall i: nat ::
      i < |pool| ==> pool[i] in infos && (infos[pool[i]].con_id == INVALID || infos[pool[i]].con_id == i))
  }

  /** Hung nodes are in use; only servers have seeds. */
  ghost predicate RowsOk(rows: Rows, v: View) {
    && Distinct(rows) && Linked(rows, v.nexts, v.seeds)
    && (forall i: nat, j: nat, x: Node :: At(rows, i, j, x) ==> Hung(rows, v.infos, i, j, x))
  }

  predicate Hung(rows: Rows, infos: Infos, i: nat, j: nat, x: Node)
    requires At(rows, i, j, x)
  {
    && x in infos && infos[x].con_id != INVALID && rows[i][0] in infos
    && if j > 0 then Seedable(infos[x]) && infos[rows[i][0]].role == SERVER else infos[x].role != SEED
  }

  predicate Unlinked(v: View, x: Node) {
    x in v.nexts && v.nexts[x] == null && x in v.seeds && v.seeds[x] == null
  }

  /** A node in use that hangs nowhere has no links yet. */
  ghost predicate LooseOk(rows: Rows, v: View, but: seq<Node>) {
    forall x :: x in v.infos && v.infos[x].con_id != INVALID && !In(rows, x) && x !in but ==> Unlinked(v, x)
  }

  /** A socket has one owner, and is open. */
  ghost predicate SocketsOk(infos: Infos, open: set<int>) {
    && (forall x :: x in infos && Fd(infos[x]) != INVALID ==> Fd(infos[x]) in open)
    && (forall x, y :: x in infos && y in infos && x != y && Fd(infos[x]) != INVALID ==> Fd(infos[x]) != Fd(infos[y]))
  }

  ghost predicate Core(pool: seq<Node>, rows: Rows, v: View, open: set<int>, but: seq<Node>) {
    PoolOk(pool, v.infos) && RowsOk(rows, v) && LooseOk(rows, v, but) && SocketsOk(v.infos, open)
  }

  // ---------------------------------------------------------------- one node changes

  /** A node outside the rows may change its fields, if it keeps its index and brings no foreign socket. */
  lemma Change(pool: seq<Node>, rows: Rows, v: View, open: set<int>, but: seq<Node>, n: Node, info: Info,
               open': set<int>)
    requires Core(pool, rows, v, open, but) && n in v.infos && !In(rows, n)
    requires info.con_id == INVALID || (exists i: nat :: i < |pool| && pool[i] == n && info.con_id == i)
    requires open <= open' + {Fd(v.infos[n])} && (Fd(info) != INVALID ==> Fd(info) in open')
    requires Fd(info) == INVALID || Fd(info) == Fd(v.infos[n]) || Fd(info) !in open
    requires info.con_id != INVALID ==> Unlinked(v, n) || n in but
    ensures Core(pool, rows, v.(infos := v.infos[n := info]), open', but)
  {
    var w := v.(infos := v.infos[n := info]);
    forall i: nat, j: nat, x: Node | At(rows, i, j, x) ensures Hung(rows, w.infos, i, j, x) {
      assert Hung(rows, v.infos, i, j, x) && At(rows, i, 0, rows[i][0]);
    }
  }

  lemma Relink(pool: seq<Node>, rows: Rows, v: View, open: set<int>, but: seq<Node>, n: Node, a: Node?, b: Node?)
    requires Core(pool, rows, v, open, but) && n in v.infos && !In(rows, n)
    requires v.infos[n].con_id == INVALID || n in but || (a == null && b == null)
    ensures Core(pool, rows, v.(nexts := v.nexts[n := a], seeds := v.seeds[n := b]), open, but)
  {
    LinkedFrame(rows, v.nexts, v.seeds, v.nexts[n := a], v.seeds[n := b]);
  }

  // ---------------------------------------------------------------- hanging and deleting

  lemma HangMain(pool: seq<Node>, rows: Rows, v: View, open: set<int>, n: Node)
    requires Core(pool, rows, v, open, []) && rows != [] && n in v.infos && !In(rows, n)
    requires v.infos[n].con_id != INVALID && v.infos[n].role != SEED
    ensures rows[|rows| - 1] != []
    ensures Core(pool, rows + [[n]], v.(nexts := v.nexts[rows[|rows| - 1][0] := n]), open, [])
  {
    hide Linked, Distinct, In;
    assert RowsAreFull(rows) by { FullRows(rows); }
    HangRow(rows, v.nexts, v.seeds, n);
    var r, last := rows + [[n]], rows[|rows| - 1][0];
    assert In(rows, last) by { Inside(rows, |rows| - 1, 0); }
    forall i: nat, j: nat, x: Node | At(r, i, j, x) ensures Hung(r, v.infos, i, j, x) {
      if i < |rows| {
        assert At(rows, i, j, x) && Hung(rows, v.infos, i, j, x);
      }
    }
  }

  ghost predicate RowsAreFull(rows: Rows) {
    forall i: nat :: i < |rows| ==> rows[i] != []
  }

  lemma FullRows(rows: Rows)
    requires Distinct(rows)
    ensures RowsAreFull(rows)
  {}

  lemma Inside(rows: Rows, i: nat, j: nat)
    requires i < |rows| && j < |rows[i]|
    ensures In(rows, rows[i][j])
  {
    assert At(rows, i, j, rows[i][j]);
  }

  lemma HangUnder(pool: seq<Node>, rows: Rows, v: View, open: set<int>, p: nat, n: Node)
    requires Core(pool, rows, v, open, []) && p < |rows| && n in v.infos && !In(rows, n)
    requires v.infos[n].con_id != INVALID && Seedable(v.infos[n])
    requires rows[p] != [] && rows[p][0] in v.infos && v.infos[rows[p][0]].role == SERVER
    ensures Core(pool, rows[p := rows[p] + [n]], v.(seeds := v.seeds[rows[p][|rows[p]| - 1] := n]), open, [])
  {
    hide Linked, Distinct, In;
    HangSeed(rows, v.nexts, v.seeds, p, n);
    var r, last := rows[p := rows[p] + [n]], rows[p][|rows[p]| - 1];
    assert In(rows, last) by { Inside(rows, p, |rows[p]| - 1); }
    forall i: nat, j: nat, x: Node | At(r, i, j, x) ensures Hung(r, v.infos, i, j, x) {
      if i != p || j != |rows[p]| {
        assert At(rows, i, j, x) && Hung(rows, v.infos, i, j, x);
      }
    }
  }

  function CutView(rows: Rows, v: View, p: nat, q: nat): View
    requires p < |rows| && q < |rows[p]| && (q == 0 ==> p > 0 && rows[p - 1] != [])
    requires rows[p][q] in v.nexts && rows[p][q] in v.seeds
  {
    if q == 0 then v.(nexts := v.nexts[rows[p - 1][0] := v.nexts[rows[p][0]]])
    else v.(seeds := v.seeds[rows[p][q - 1] := v.seeds[rows[p][q]]])
  }

  lemma CutCore(pool: seq<Node>, rows: Rows, v: View, open: set<int>, p: nat, q: nat)
    requires Core(pool, rows, v, open, []) && p < |rows| && q < |rows[p]| && (q == 0 ==> p > 0 && rows[p - 1] != [])
    requires rows[p][q] in v.nexts && rows[p][q] in v.seeds
    ensures Core(pool, Cut(rows, p, q), CutView(rows, v, p, q), open, if q == 0 then rows[p] else [rows[p][q]])
  {
    hide Linked, Distinct, In;
    var r, w, family := Cut(rows, p, q), CutView(rows, v, p, q), if q == 0 then rows[p] else [rows[p][q]];
    CutDistinct(rows, p, q);
    if q == 0 {
      CutMainLinked(rows, v.nexts, v.seeds, p);
      Inside(rows, p - 1, 0);
    } else {
      CutSeedLinked(rows, v.nexts, v.seeds, p, q);
      Inside(rows, p, q - 1);
    }
    forall i: nat, j: nat, x: Node | At(r, i, j, x) ensures Hung(r, v.infos, i, j, x) {
      var k, l := CutFrom(rows, p, q, i, j);
      assert Hung(rows, v.infos, k, l, x);
    }
    forall x | x in v.infos && v.infos[x].con_id != INVALID && !In(r, x) && x !in family ensures Unlinked(w, x) {
      CutTakes(rows, p, q, x);
    }
  }

  // ---------------------------------------------------------------- walking

  lemma AtHead(pool: seq<Node>, rows: Rows, v: View, open: set<int>, but: seq<Node>, i: nat)
    requires Core(pool, rows, v, open, but) && i < |rows|
    ensures rows[i] != [] && rows[i][0] in v.infos && rows[i][0] in v.nexts && v.nexts[rows[i][0]] == Below(rows, i)
    ensures i + 1 < |rows| ==> rows[i + 1] != []
  {
    assert At(rows, i, 0, rows[i][0]) && Hung(rows, v.infos, i, 0, rows[i][0]);
  }

  lemma AtSeed(pool: seq<Node>, rows: Rows, v: View, open: set<int>, but: seq<Node>, i: nat, j: nat)
    requires Core(pool, rows, v, open, but) && i < |rows| && j < |rows[i]|
    ensures var x := rows[i][j]; x in v.infos && x in v.seeds && v.seeds[x] == Beside(rows[i], j)
    ensures In(rows, rows[i][j]) && v.infos[rows[i][j]].con_id != INVALID
    ensures j > 0 ==> Seedable(v.infos[rows[i][j]]) && rows[i][0] in v.infos && v.infos[rows[i][0]].role == SERVER
    ensures j == 0 ==> v.infos[rows[i][j]].role != SEED
  {
    assert At(rows, i, j, rows[i][j]) && Hung(rows, v.infos, i, j, rows[i][j]);
  }

  lemma OnePlace(rows: Rows, i: nat, j: nat, k: nat, l: nat)
    requires Distinct(rows) && i < |rows| && j < |rows[i]| && k < |rows| && l < |rows[k]|
    ensures rows[i][j] == rows[k][l] <==> i == k && j == l
  {
    assert At(rows, i, j, rows[i][j]) && At(rows, k, l, rows[k][l]);
  }

  lemma KeepsHead(rows: Rows, p: nat, n: Node)
    requires rows != [] && |rows[0]| == 1 && p < |rows| && p > 0
    ensures rows[p := rows[p] + [n]][0] == rows[0]
  {}

  // ---------------------------------------------------------------- deleting, step by step

  /** Where `n` stands, if it hangs at all; it is not the sentinel. */
  ghost predicate Cuttable(rows: Rows, v: View, n: Node, hung: bool, p: nat, q: nat) {
    && (hung <==> In(rows, n))
    && (hung ==> At(rows, p, q, n) && n in v.nexts && n in v.seeds && (q == 0 ==> p > 0 && rows[p - 1] != []))
  }

  /** The links while the pass over the lists is on: once it is past `n`, `n` is unlinked. */
  ghost function Passed(rows: Rows, v: View, n: Node, hung: bool, p: nat, q: nat, done: bool): View
    requires Cuttable(rows, v, n, hung, p, q)
  {
    if hung && done then CutView(rows, v, p, q) else v
  }

  lemma WalkSeed(pool: seq<Node>, rows: Rows, v: View, open: set<int>, n: Node, hung: bool, p: nat, q: nat, i: nat,
                 j: nat, done: bool)
    requires Core(pool, rows, v, open, []) && Cuttable(rows, v, n, hung, p, q) && i < |rows| && j < |rows[i]|
    requires hung && done ==> i > p || (i == p && j >= q)
    ensures var w, x := Passed(rows, v, n, hung, p, q, done), rows[i][j];
      w.infos == v.infos && x in w.infos && x in w.seeds && w.seeds[x] == Beside(rows[i], j)
  {
    AtSeed(pool, rows, v, open, [], i, j);
    if hung && q > 0 {
      OnePlace(rows, i, j, p, q - 1);
    }
  }

  lemma WalkMain(pool: seq<Node>, rows: Rows, v: View, open: set<int>, n: Node, hung: bool, p: nat, q: nat, i: nat,
                 done: bool)
    requires Core(pool, rows, v, open, []) && Cuttable(rows, v, n, hung, p, q) && i < |rows|
    requires hung && done ==> i >= p
    ensures rows[i] != []
    ensures var w, x := Passed(rows, v, n, hung, p, q, done), rows[i][0];
      w.infos == v.infos && x in w.infos && x in w.nexts && w.nexts[x] == Below(rows, i)
  {
    AtHead(pool, rows, v, open, [], i);
    if hung && q == 0 {
      OnePlace(rows, i, 0, p - 1, 0);
    }
  }

  lemma Meets(pool: seq<Node>, rows: Rows, v: View, open: set<int>, n: Node, hung: bool, p: nat, q: nat, i: nat, j: nat)
    requires Core(pool, rows, v, open, []) && Cuttable(rows, v, n, hung, p, q) && i < |rows| && j < |rows[i]|
    ensures rows[i][j] == n <==> hung && (i, j) == (p, q)
    ensures rows[i][j] in v.infos && rows[i][0] in v.infos && (j > 0 ==> v.infos[rows[i][0]].role == SERVER)
  {
    AtSeed(pool, rows, v, open, [], i, j);
    AtSeed(pool, rows, v, open, [], i, 0);
    if hung {
      OnePlace(rows, i, j, p, q);
    }
  }

  /** Just before and just after the pass meets `n`. */
  lemma NotYet(rows: Rows, v: View, n: Node, hung: bool, p: nat, q: nat)
    requires Cuttable(rows, v, n, hung, p, q)
    ensures Passed(rows, v, n, hung, p, q, false) == v && (!hung ==> Passed(rows, v, n, hung, p, q, true) == v)
    ensures hung && q == 0 ==>
      Passed(rows, v, n, hung, p, q, true) == v.(nexts := v.nexts[rows[p - 1][0] := v.nexts[n]])
    ensures hung && q > 0 ==> Passed(rows, v, n, hung, p, q, true) == v.(seeds := v.seeds[rows[p][q - 1] := v.seeds[n]])
  {}

  lemma PassedInfos(rows: Rows, v: View, n: Node, hung: bool, p: nat, q: nat, done: bool)
    requires Cuttable(rows, v, n, hung, p, q)
    ensures Passed(rows, v, n, hung, p, q, done).infos == v.infos
  {}

  lemma Place(pool: seq<Node>, rows: Rows, v: View, open: set<int>, n: Node, head: Node)
    returns (hung: bool, p: nat, q: nat)
    requires Core(pool, rows, v, open, []) && rows != [] && rows[0] == [head] && n != head && n in v.nexts
      && n in v.seeds
    ensures Cuttable(rows, v, n, hung, p, q)
  {
    hung, p, q := In(rows, n), 0, 0;
    if hung {
      p, q := Position(rows, n);
      AtSeed(pool, rows, v, open, [], p, q);
      if q == 0 {
        AtHead(pool, rows, v, open, [], p);
        AtHead(pool, rows, v, open, [], p - 1);
      }
    }
  }

  ghost predicate NoRepeats(s: seq<Node>) {
    forall i: nat, j: nat :: i < |s| && j < |s| && s[i] == s[j] ==> i == j
  }

  /** The family of a node once it is unlinked: in use, out of the rows, still chained to its seeds. */
  ghost predicate Family?(rows: Rows, v: View, family: seq<Node>) {
    && NoRepeats(family)
    && (forall j: nat ::
      j < |family| ==> family[j] in v.infos && !In(rows, family[j]) && v.infos[family[j]].con_id != INVALID)
    && (forall j: nat :: 0 < j < |family| ==> Seedable(v.infos[family[j]]))
  }

  ghost predicate Chained(v: View, family: seq<Node>, k: nat) {
    forall j: nat :: k <= j < |family| ==> family[j] in v.seeds && v.seeds[family[j]] == Beside(family, j)
  }

  lemma FamilyIs(pool: seq<Node>, rows: Rows, v: View, open: set<int>, n: Node, hung: bool, p: nat, q: nat)
    requires Core(pool, rows, v, open, []) && Cuttable(rows, v, n, hung, p, q) && n in v.infos
      && v.infos[n].con_id != INVALID
    ensures Family(rows, n) != [] && Family(rows, n)[0] == n
    ensures Family?(Without(rows, n), Passed(rows, v, n, hung, p, q, true), Family(rows, n))
    ensures v.infos[n].role == SERVER ==> Chained(Passed(rows, v, n, hung, p, q, true), Family(rows, n), 0)
    ensures v.infos[n].role != SERVER ==> Family(rows, n) == [n]
  {
    if hung {
      FamilyOfHung(pool, rows, v, open, n, p, q);
    } else {
      Loose(pool, rows, v, open, n);
      assert !exists k: nat :: At(rows, k, 0, n);
    }
  }

  lemma FamilyOfHung(pool: seq<Node>, rows: Rows, v: View, open: set<int>, n: Node, p: nat, q: nat)
    requires Core(pool, rows, v, open, []) && Distinct(rows) && Cuttable(rows, v, n, true, p, q) && n in v.infos
    ensures Family(rows, n) != [] && Family(rows, n)[0] == n
    ensures Family?(Without(rows, n), CutView(rows, v, p, q), Family(rows, n))
    ensures v.infos[n].role == SERVER ==> Chained(CutView(rows, v, p, q), Family(rows, n), 0)
    ensures v.infos[n].role != SERVER ==> Family(rows, n) == [n]
  {
    hide Core, In, Family, Without, Cut;
    WithoutIsCut(rows, n, p, q);
    var family := Family(rows, n);
    AtSeed(pool, rows, v, open, [], p, q);
    forall j: nat | j < |family|
      ensures family[j] in v.infos && !In(Without(rows, n), family[j]) && v.infos[family[j]].con_id != INVALID
      ensures 0 < j ==> Seedable(v.infos[family[j]]) && v.infos[n].role == SERVER
      ensures q == 0 ==> family[j] in v.seeds && v.seeds[family[j]] == Beside(family, j)
    {
      AtSeed(pool, rows, v, open, [], p, if q == 0 then j else q);
      CutTakes(rows, p, q, family[j]);
    }
    assert NoRepeats(family) by {
      forall i: nat, j: nat | i < |family| && j < |family| && family[i] == family[j] ensures i == j {
        if q == 0 {
          OnePlace(rows, p, i, p, j);
        }
      }
    }
  }

  lemma Loose(pool: seq<Node>, rows: Rows, v: View, open: set<int>, n: Node)
    requires Core(pool, rows, v, open, []) && n in v.infos && v.infos[n].con_id != INVALID && !In(rows, n)
    ensures Unlinked(v, n)
  {}

  lemma UnlinkKeeps(pool: seq<Node>, rows: Rows, v: View, open: set<int>, n: Node, hung: bool, p: nat, q: nat)
    requires Core(pool, rows, v, open, []) && Cuttable(rows, v, n, hung, p, q)
    ensures Core(pool, Without(rows, n), Passed(rows, v, n, hung, p, q, true), open, Family(rows, n))
  {
    if hung {
      WithoutIsCut(rows, n, p, q);
      hide Core;
      CutCore(pool, rows, v, open, p, q);
    }
  }

  /** The nodes of `s` are free, the rest are as before. */
  ghost predicate FreedOnly(s: seq<Node>, a: Infos, b: Infos) {
    a.Keys == b.Keys && forall x :: x in a ==> if x in s then b[x].con_id == INVALID else b[x] == a[x]
  }

  lemma Untouched(s: seq<Node>, a: Infos, b: Infos, x: Node)
    requires FreedOnly(s, a, b) && x in a && x !in s
    ensures x in b && b[x] == a[x]
  {}

  lemma FreedMore(family: seq<Node>, k: nat, a: Infos, b: Infos, info: Info)
    requires NoRepeats(family) && 1 <= k < |family| && FreedOnly(family[1..k], a, b) && family[k] in a
      && info.con_id == INVALID
    ensures FreedOnly(family[1..k + 1], a, b[family[k] := info]) && b[family[k]] == a[family[k]]
    ensures Sockets(family[1..k + 1], a)
      == Sockets(family[1..k], a) + if Fd(a[family[k]]) == INVALID then [] else [Fd(a[family[k]])]
  {
    assert family[1..k + 1] == family[1..k] + [family[k]];
    assert family[k] !in family[1..k];
  }

  /** A free node: its socket is closed if it was its own. */
  function Closed(i: Info): Info {
    i.(con_id := INVALID, sockfd := if Fd(i) != INVALID then INVALID else i.sockfd)
  }

  ghost function Elements(s: seq<int>): set<int> {
    set f | f in s
  }

  lemma OneSocket(x: Node, infos: Infos)
    requires x in infos
    ensures Sockets([x], infos) == if Fd(infos[x]) == INVALID then [] else [Fd(infos[x])]
  {
    assert Sockets([x][..0], infos) == [];
  }

  lemma OwnedIsOpen(pool: seq<Node>, rows: Rows, v: View, open: set<int>, but: seq<Node>, x: Node)
    requires Core(pool, rows, v, open, but) && x in v.infos
    ensures Fd(v.infos[x]) != INVALID ==> Fd(v.infos[x]) in open
  {}

  lemma RelinkSeed(pool: seq<Node>, rows: Rows, v: View, open: set<int>, but: seq<Node>, n: Node, b: Node?)
    requires Core(pool, rows, v, open, but) && n in v.infos && !In(rows, n) && n in but
    ensures Core(pool, rows, v.(seeds := v.seeds[n := b]), open, but)
  {
    LinkedFrame(rows, v.nexts, v.seeds, v.nexts, v.seeds[n := b]);
  }

  lemma NothingGone(family: seq<Node>, infos: Infos, open: set<int>)
    requires family != []
    ensures FreedOnly(family[1..1], infos, infos) && Sockets(family[1..1], infos) == [] && open - Elements([]) == open
  {
    assert family[1..1] == [];
  }

  lemma GoneTogether(open: set<int>, closed: seq<int>, a: seq<int>, b: seq<int>)
    ensures (open - Elements(a)) - Elements(b) == open - Elements(a + b)
    ensures (closed + a) + b == closed + (a + b)
  {}

  lemma HeadChained(v: View, family: seq<Node>, k: nat)
    requires Chained(v, family, k) && k < |family|
    ensures family[k] in v.seeds && v.seeds[family[k]] == Beside(family, k) && Chained(v, family, k + 1)
  {}

  lemma StillChained(v: View, w: View, family: seq<Node>, k: nat, next: Node?)
    requires NoRepeats(family) && 0 < k < |family| && Chained(v, family, k) && w.seeds == v.seeds[family[0] := next]
    ensures Chained(w, family, k + 1)
  {}

  /** The sockets that are closed when `n` is deleted: those of its seeds, then its own. */
  ghost function Released(rows: Rows, n: Node, infos: Infos): seq<int>
    requires Family(rows, n) != []
  {
    Sockets(Family(rows, n)[1..] + [n], infos)
  }

  lemma HeadStays(family: seq<Node>, a: Infos, b: Infos)
    requires NoRepeats(family) && family != [] && family[0] in a && FreedOnly(family[1..], a, b)
    ensures family[0] in b && b[family[0]] == a[family[0]]
  {
    assert family[0] !in family[1..];
  }

  /** Two steps of closing are one. */
  lemma ClosedTogether(open: set<int>, closed: seq<int>, rows: Rows, n: Node, infos: Infos, freed: Infos,
                       gone: seq<int>, own: seq<int>)
    requires Family(rows, n) != [] && gone == Sockets(Family(rows, n)[1..], infos) && own == Sockets([n], freed)
    requires n in infos && n in freed && infos[n] == freed[n]
    ensures (open - Elements(gone)) - Elements(own) == open - Elements(Released(rows, n, infos))
    ensures (closed + gone) + own == closed + Released(rows, n, infos)
  {
    var seeds := Family(rows, n)[1..];
    assert (seeds + [n])[..|seeds + [n]| - 1] == seeds;
    OneSocket(n, infos);
    OneSocket(n, freed);
    GoneTogether(open, closed, gone, own);
  }

  lemma NoneFreed(n: Node, infos: Infos)
    ensures FreedOnly([n][1..], infos, infos) && Sockets([n][1..], infos) == [] && Elements([]) == {}
  {}

  lemma FreedAll(family: seq<Node>, a: Infos, b: Infos, info: Info)
    requires family != [] && FreedOnly(family[1..], a, b) && family[0] in a && info.con_id == INVALID
    ensures FreedOnly(family, a, b[family[0] := info])
  {
    assert family == [family[0]] + family[1..];
  }

  /** All that was freed has left the rows, so what remains loose has no links. */
  lemma AllLoose(pool: seq<Node>, rows: Rows, v: View, open: set<int>, family: seq<Node>, was: Infos)
    requires Core(pool, rows, v, open, family) && FreedOnly(family, was, v.infos)
    ensures Core(pool, rows, v, open, [])
  {}

  lemma HeadSurvives(pool: seq<Node>, rows: Rows, v: View, open: set<int>, n: Node, hung: bool, p: nat, q: nat,
                     head: Node)
    requires Core(pool, rows, v, open, []) && Cuttable(rows, v, n, hung, p, q) && rows != [] && rows[0] == [head]
      && n != head
    ensures Without(rows, n) != [] && Without(rows, n)[0] == [head] && head !in Family(rows, n)
  {
    if hung {
      WithoutIsCut(rows, n, p, q);
      assert At(rows, 0, 0, head);
      assert q == 0 ==> (head in rows[p] <==> p == 0) by { RowIs(rows, p, 0, 0, head); }
    } else {
      assert !exists k: nat :: At(rows, k, 0, n);
    }
  }

  /** What deleting a node closes: the sockets its family owns, each once, each open until then. */
  lemma DeleteClosesOnce(pool: seq<Node>, rows: Rows, v: View, open: set<int>, n: Node)
    requires Core(pool, rows, v, open, []) && n in v.infos && Family(rows, n) != []
    ensures var gone := Released(rows, n, v.infos);
      && Once(gone) && (forall f :: f in gone <==> Owned(Family(rows, n), v.infos, f))
      && (forall f :: f in gone ==> f in open)
  {
    FamilyHead(rows, n);
    var family := Family(rows, n);
    var s := family[1..] + [n];
    assert NoRepeats(s) && forall x :: x in s <==> x in family by {
      FamilyOnce(pool, rows, v, open, n);
      assert family == [n] + family[1..];
    }
    hide Core, SocketsOk, Linked;
    SocketsOnce(v.infos, open, s);
    forall f ensures Owned(s, v.infos, f) <==> Owned(family, v.infos, f) {}
  }

  lemma FamilyHead(rows: Rows, n: Node)
    requires Family(rows, n) != []
    ensures Family(rows, n)[0] == n
  {}

  lemma FamilyOnce(pool: seq<Node>, rows: Rows, v: View, open: set<int>, n: Node)
    requires Core(pool, rows, v, open, [])
    ensures NoRepeats(Family(rows, n))
  {
    if exists p: nat :: At(rows, p, 0, n) {
      var p: nat :| At(rows, p, 0, n) && Family(rows, n) == rows[p];
      forall i: nat, j: nat | i < |rows[p]| && j < |rows[p]| && rows[p][i] == rows[p][j] ensures i == j {
        OnePlace(rows, p, i, p, j);
      }
    }
  }

  ghost predicate Once(s: seq<int>) {
    forall i, j :: 0 <= i < j < |s| ==> s[i] != s[j]
  }

  ghost predicate Owned(s: seq<Node>, infos: Infos, f: int) {
    f != INVALID && exists x :: x in s && x in infos && Fd(infos[x]) == f
  }

  lemma {:induction false} SocketsOnce(infos: Infos, open: set<int>, s: seq<Node>)
    requires SocketsOk(infos, open) && NoRepeats(s)
    ensures var gone := Sockets(s, infos);
      Once(gone) && (forall f :: f in gone <==> Owned(s, infos, f)) && (forall f :: f in gone ==> f in open)
  {
    if s != [] {
      var t, x := s[..|s| - 1], s[|s| - 1];
      SocketsOnce(infos, open, t);
      forall f ensures Owned(s, infos, f) <==> Owned(t, infos, f) || (f != INVALID && x in infos && Fd(infos[x]) == f) {
        assert forall y :: y in s <==> y in t || y == x;
      }
      if x in infos && Fd(infos[x]) != INVALID {
        assert !Owned(t, infos, Fd(infos[x])) by {
          assert forall y :: y in t ==> y != x;
        }
      }
    }
  }

  /** Deleting a node takes its family out of the lists and nothing else. */
  lemma DeleteTakes(rows: Rows, n: Node, x: Node)
    requires Distinct(rows) && In(rows, n)
    ensures In(Without(rows, n), x) <==> In(rows, x) && x !in Family(rows, n)
  {
    var p, q := Position(rows, n);
    WithoutIsCut(rows, n, p, q);
    CutTakes(rows, p, q, x);
  }

  // ---------------------------------------------------------------- closing everything

  /** The sockets of all rows from `k` on, in the order in which they are closed. */
  ghost function AllReleased(rows: Rows, k: nat, infos: Infos): seq<int>
    requires k <= |rows| && RowsAreFull(rows)
    decreases |rows| - k
  {
    if k == |rows| then []
    else Sockets(rows[k][1..] + rows[k][..1], infos) + AllReleased(rows, k + 1, infos)
  }

  /** The nodes that hang in the rows from `k` on, each row in the order in which it is freed. */
  ghost function AllHung(rows: Rows, k: nat): seq<Node>
    requires k <= |rows| && RowsAreFull(rows)
    decreases |rows| - k
  {
    if k == |rows| then [] else (rows[k][1..] + rows[k][..1]) + AllHung(rows, k + 1)
  }

  ghost predicate Behind(rows: Rows, k: nat, older x: Node) {
    exists i: nat, j: nat :: k <= i && At(rows, i, j, x)
  }

  lemma {:induction false} SocketsConcat(a: seq<Node>, b: seq<Node>, infos: Infos)
    ensures Sockets(a + b, infos) == Sockets(a, infos) + Sockets(b, infos)
  {
    if b == [] {
      assert a + b == a;
    } else {
      assert (a + b)[..|a + b| - 1] == a + b[..|b| - 1];
      SocketsConcat(a, b[..|b| - 1], infos);
    }
  }

  lemma {:induction false} AllReleasedIs(rows: Rows, k: nat, infos: Infos)
    requires k <= |rows| && RowsAreFull(rows)
    ensures AllReleased(rows, k, infos) == Sockets(AllHung(rows, k), infos)
    decreases |rows| - k
  {
    if k < |rows| {
      AllReleasedIs(rows, k + 1, infos);
      SocketsConcat(rows[k][1..] + rows[k][..1], AllHung(rows, k + 1), infos);
    }
  }

  /** A row with its head moved to the end holds the same nodes, each once. */
  lemma Turned(rows: Rows, k: nat)
    requires Distinct(rows) && k < |rows|
    ensures rows[k] != [] && NoRepeats(rows[k][1..] + rows[k][..1])
    ensures forall x :: x in rows[k][1..] + rows[k][..1] <==> x in rows[k]
  {
    var row := rows[k];
    var s := row[1..] + row[..1];
    forall i: nat, j: nat | i < |s| && j < |s| && s[i] == s[j] ensures i == j {
      var i', j' := if i < |row| - 1 then i + 1 else 0, if j < |row| - 1 then j + 1 else 0;
      assert At(rows, k, i', s[i]) && At(rows, k, j', s[j]);
    }
    assert row == row[..1] + row[1..];
  }

  lemma BehindStep(rows: Rows, k: nat, x: Node)
    requires Distinct(rows) && k < |rows|
    ensures Behind(rows, k, x) <==> x in rows[k] || Behind(rows, k + 1, x)
    ensures !(x in rows[k] && Behind(rows, k + 1, x))
  {
    if x in rows[k] {
      var l: nat :| l < |rows[k]| && rows[k][l] == x;
      assert At(rows, k, l, x);
    }
  }

  lemma NoRepeatsConcat(a: seq<Node>, b: seq<Node>)
    requires NoRepeats(a) && NoRepeats(b) && forall x :: !(x in a && x in b)
    ensures NoRepeats(a + b)
  {
    forall i: nat, j: nat | i < |a| && j < |b| ensures a[i] != b[j] {
      assert a[i] in a;
    }
    forall i: nat, j: nat | i < |a + b| && j < |a + b| && (a + b)[i] == (a + b)[j] ensures i == j {}
  }

  /** All these nodes are different. */
  lemma {:induction false} AllHungOnce(rows: Rows, k: nat)
    requires k <= |rows| && Distinct(rows) && RowsAreFull(rows)
    ensures NoRepeats(AllHung(rows, k)) && forall x :: x in AllHung(rows, k) <==> Behind(rows, k, x)
    decreases |rows| - k
  {
    if k < |rows| {
      hide Distinct, Behind, NoRepeats;
      AllHungOnce(rows, k + 1);
      Turned(rows, k);
      forall x ensures Behind(rows, k, x) <==> x in rows[k] || Behind(rows, k + 1, x)
        ensures !(x in rows[k] && Behind(rows, k + 1, x))
      {
        BehindStep(rows, k, x);
      }
      NoRepeatsConcat(rows[k][1..] + rows[k][..1], AllHung(rows, k + 1));
    }
  }

  /** What closing everything closes: the sockets of all hung nodes but the sentinel, each once, each
      open until then. */
  lemma AllClosedOnce(pool: seq<Node>, rows: Rows, v: View, open: set<int>)
    requires Core(pool, rows, v, open, []) && rows != [] && RowsAreFull(rows)
    ensures var gone := AllReleased(rows, 1, v.infos);
      && Once(gone) && (forall f :: f in gone <==> Owned(AllHung(rows, 1), v.infos, f))
      && (forall f :: f in gone ==> f in open)
    ensures forall x :: x in AllHung(rows, 1) <==> Behind(rows, 1, x)
  {
    hide Distinct, Behind, Linked, SocketsOk;
    AllHungOnce(rows, 1);
    AllReleasedIs(rows, 1, v.infos);
    SocketsOnce(v.infos, open, AllHung(rows, 1));
  }

  /** The node holds the socket `f` for itself: it is no seed over UDP, which uses that of its server. */
  predicate HoldsSocket(i: Info, f: int) {
    i.sockfd == f && f != INVALID && (i.protocol == UDP ==> i.role != SEED)
  }

  /** By the fields of the nodes: the sockets that closing everything closes are those that a node behind
      the sentinel holds for itself. */
  lemma ClosedAreHeld(pool: seq<Node>, rows: Rows, v: View, open: set<int>, f: int)
    requires Core(pool, rows, v, open, []) && rows != [] && RowsAreFull(rows)
    ensures f in AllReleased(rows, 1, v.infos) <==>
      exists i: nat, j: nat, x: Node :: 1 <= i && At(rows, i, j, x) && x in v.infos && HoldsSocket(v.infos[x], f)
  {
    hide Distinct, Linked, SocketsOk;
    AllClosedOnce(pool, rows, v, open);
    if f in AllReleased(rows, 1, v.infos) {
      var x :| x in AllHung(rows, 1) && x in v.infos && Fd(v.infos[x]) == f;
      var i: nat, j: nat :| 1 <= i && At(rows, i, j, x);
      assert HoldsSocket(v.infos[x], f);
    }
    if i: nat, j: nat, x: Node :| 1 <= i && At(rows, i, j, x) && x in v.infos && HoldsSocket(v.infos[x], f) {
      assert Hung(rows, v.infos, i, j, x) && Behind(rows, 1, x);
      assert Fd(v.infos[x]) == f;
    }
  }

  lemma {:induction false} SocketsFrame(s: seq<Node>, a: Infos, b: Infos)
    requires forall x :: x in s ==> x in a && x in b && Fd(a[x]) == Fd(b[x])
    ensures Sockets(s, a) == Sockets(s, b)
  {
    if s != [] {
      assert s[|s| - 1] in s;
      SocketsFrame(s[..|s| - 1], a, b);
    }
  }

  /** The rows that the loop over the whole table has left. */
  function Left(rows: Rows, k: nat): Rows
    requires 0 < k <= |rows|
  {
    rows[..1] + rows[k..]
  }

  ghost predicate Within(rows: Rows, k: nat, older x: Node) {
    exists i: nat, j: nat :: 0 < i < k && At(rows, i, j, x)
  }

  /** The nodes of the rows before `k` are free, all others are as they were; the sentinel is apart. */
  ghost predicate FreedRows(rows: Rows, k: nat, a: Infos, b: Infos) {
    a.Keys == b.Keys && forall x :: x in a ==> if Within(rows, k, x) then b[x].con_id == INVALID else b[x] == a[x]
  }

  lemma RowsStand(rows: Rows, k: nat, a: Infos, b: Infos)
    requires Distinct(rows) && FreedRows(rows, k, a, b) && 0 < k < |rows| && forall x :: x in rows[k] ==> x in a
    ensures forall x :: x in rows[k] ==> x in b && b[x] == a[x]
  {
    forall x | x in rows[k] ensures !Within(rows, k, x) {
      var l: nat :| l < |rows[k]| && rows[k][l] == x;
      assert At(rows, k, l, x);
    }
  }

  lemma FreedRow(rows: Rows, k: nat, a: Infos, b: Infos, c: Infos)
    requires FreedRows(rows, k, a, b) && 0 < k < |rows| && FreedOnly(rows[k], b, c)
    ensures FreedRows(rows, k + 1, a, c)
  {
    forall x | x in a ensures Within(rows, k + 1, x) <==> Within(rows, k, x) || x in rows[k] {
      if x in rows[k] {
        var l: nat :| l < |rows[k]| && rows[k][l] == x;
        assert At(rows, k, l, x);
      }
    }
  }

  /** The next turn deletes the second row of those left, and it closes what that row held from the start. */
  lemma NextRow(rows: Rows, k: nat, a: Infos, b: Infos)
    requires Distinct(rows) && 0 < k < |rows|
    requires FreedRows(rows, k, a, b) && forall x :: x in rows[k] ==> x in a
    ensures rows[k] != [] && Distinct(Left(rows, k))
    ensures Without(Left(rows, k), rows[k][0]) == Left(rows, k + 1) && Family(Left(rows, k), rows[k][0]) == rows[k]
    ensures Released(Left(rows, k), rows[k][0], b) == Sockets(rows[k][1..] + rows[k][..1], a)
  {
    var r, n := Left(rows, k), rows[k][0];
    LeftDistinct(rows, k);
    assert r[1] == rows[k];
    assert At(r, 1, 0, n);
    WithoutIsCut(r, n, 1, 0);
    assert Cut(r, 1, 0) == Left(rows, k + 1);
    assert rows[k][..1] == [n];
    RowsStand(rows, k, a, b);
    SocketsFrame(rows[k][1..] + [n], a, b);
  }

  lemma LeftDistinct(rows: Rows, k: nat)
    requires Distinct(rows) && 0 < k <= |rows|
    ensures Distinct(Left(rows, k))
  {
    var r := Left(rows, k);
    forall i: nat, j: nat, x: Node | At(r, i, j, x) ensures At(rows, if i == 0 then 0 else i + k - 1, j, x) {}
  }

  lemma RowFacts(pool: seq<Node>, rows: Rows, v: View, open: set<int>)
    requires Core(pool, rows, v, open, [])
    ensures Distinct(rows) && RowsAreFull(rows)
    ensures forall k: nat :: k < |rows| ==> forall x :: x in rows[k] ==> x in v.infos
  {
    forall k: nat, j: nat | k < |rows| && j < |rows[k]| ensures rows[k][j] in v.infos {
      AtSeed(pool, rows, v, open, [], k, j);
    }
  }

  lemma NoneYet(rows: Rows, a: Infos)
    ensures FreedRows(rows, 1, a, a)
  {}

  lemma AllReleasedStep(rows: Rows, k: nat, infos: Infos, done: seq<int>)
    requires k < |rows| && RowsAreFull(rows)
    ensures done + AllReleased(rows, k, infos)
      == (done + Sockets(rows[k][1..] + rows[k][..1], infos)) + AllReleased(rows, k + 1, infos)
  {}

  lemma NothingClosed(open: set<int>, closed: seq<int>)
    ensures open - Elements([]) == open && closed + [] == closed
  {}

  lemma NoneLeft(rows: Rows, infos: Infos)
    requires RowsAreFull(rows)
    ensures AllReleased(rows, |rows|, infos) == []
  {}
}
