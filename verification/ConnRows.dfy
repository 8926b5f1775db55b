/** The two-level lists of the AT connection table, seen from outside: a row for each hung connection,
    the connection first and its seeds behind it; row 0 holds the sentinel alone. */
module ConnRows {

  const INVALID := -1
  const TCP := 0
  const UDP := 1
  const SERVER := 0
  const SEED := 2

  class Node {
    var con_id: int
    var sockfd: int
    var role: int
    var protocol: int
    var addr: nat
    var port: nat
    var handletask: nat  // 0 when there is no task
    var next: Node?
    var nextseed: Node?

    constructor ()
      ensures con_id == 0 && sockfd == 0 && role == 0 && protocol == 0 && addr == 0 && port == 0 && handletask == 0
      ensures next == null && nextseed == null
    {
      con_id, sockfd, role, protocol, addr, port, handletask := 0, 0, 0, 0, 0, 0, 0;
      next, nextseed := null, null;
    }
  }

  type Rows = seq<seq<Node>>

  type Links = map<Node, Node?>

  predicate At(rows: Rows, p: nat, q: nat, older x: Node) {
    p < |rows| && q < |rows[p]| && rows[p][q] == x
  }

  ghost predicate In(rows: Rows, older x: Node) {
    exists p: nat, q: nat :: At(rows, p, q, x)
  }

  /** Each node stands in one place only: the lists share nothing and have no cycle. */
  ghost predicate Distinct(rows: Rows) {
    && (forall i :: 0 <= i < |rows| ==> rows[i] != [])
    && (forall i: nat, j: nat, k: nat, l: nat, x: Node :: At(rows, i, j, x) && At(rows, k, l, x) ==> i == k && j == l)
  }

  function Below(rows: Rows, i: nat): Node? {
    if i + 1 < |rows| && rows[i + 1] != [] then rows[i + 1][0] else null
  }

  function Beside(row: seq<Node>, j: nat): Node? {
    if j + 1 < |row| then row[j + 1] else null
  }

  ghost predicate Linked(rows: Rows, nexts: Links, seeds: Links) {
    && (forall i: nat, x: Node :: At(rows, i, 0, x) ==> x in nexts && nexts[x] == Below(rows, i))
    && (forall i: nat, j: nat, x: Node :: At(rows, i, j, x) ==> x in seeds && seeds[x] == Beside(rows[i], j))
  }

  lemma Position(rows: Rows, x: Node) returns (p: nat, q: nat)
    requires In(rows, x)
    ensures At(rows, p, q, x)
  {
    p, q :| At(rows, p, q, x);
  }

  // ---------------------------------------------------------------- hanging

  lemma HangRow(rows: Rows, nexts: Links, seeds: Links, n: Node)
    requires Distinct(rows) && Linked(rows, nexts, seeds) && rows != [] && !In(rows, n)
    requires n in nexts && nexts[n] == null && n in seeds && seeds[n] == null
    ensures Distinct(rows + [[n]])
    ensures Linked(rows + [[n]], nexts[rows[|rows| - 1][0] := n], seeds)
    ensures forall x :: In(rows + [[n]], x) <==> In(rows, x) || x == n
  {
    var r, links := rows + [[n]], nexts[rows[|rows| - 1][0] := n];
    assert At(r, |rows|, 0, n) && At(rows, |rows| - 1, 0, rows[|rows| - 1][0]);
    forall i: nat, j: nat, x: Node | At(r, i, j, x)
      ensures if i < |rows| then At(rows, i, j, x) else j == 0 && x == n {}
    forall i: nat, j: nat, x: Node | At(rows, i, j, x) ensures At(r, i, j, x) {}
    forall i: nat, x: Node | At(r, i, 0, x) ensures x in links && links[x] == Below(r, i) {
      if i < |rows| {
        assert At(rows, i, 0, x);
      }
    }
  }

  lemma HangSeed(rows: Rows, nexts: Links, seeds: Links, p: nat, n: Node)
    requires Distinct(rows) && Linked(rows, nexts, seeds) && p < |rows| && !In(rows, n)
    requires n in seeds && seeds[n] == null
    ensures Distinct(rows[p := rows[p] + [n]])
    ensures Linked(rows[p := rows[p] + [n]], nexts, seeds[rows[p][|rows[p]| - 1] := n])
    ensures forall x :: In(rows[p := rows[p] + [n]], x) <==> In(rows, x) || x == n
  {
    var r, links := rows[p := rows[p] + [n]], seeds[rows[p][|rows[p]| - 1] := n];
    assert At(r, p, |rows[p]|, n) && At(rows, p, |rows[p]| - 1, rows[p][|rows[p]| - 1]);
    forall i: nat, j: nat, x: Node | At(r, i, j, x)
      ensures if i == p && j == |rows[p]| then x == n else At(rows, i, j, x)
    {}
    forall i: nat, j: nat, x: Node | At(rows, i, j, x) ensures At(r, i, j, x) {}
    forall i: nat, j: nat, x: Node | At(r, i, j, x) ensures x in links && links[x] == Beside(r[i], j) {
      if i != p || j != |rows[p]| {
        assert At(rows, i, j, x);
      }
    }
  }

  // ---------------------------------------------------------------- taking out

  function Cut(rows: Rows, p: nat, q: nat): Rows
    requires p < |rows| && q < |rows[p]|
  {
    if q == 0 then rows[..p] + rows[p + 1..] else rows[p := rows[p][..q] + rows[p][q + 1..]]
  }

  /** The rows once `n` is deleted: its row goes with it when it heads one. */
  ghost function Without(rows: Rows, n: Node): Rows {
    if In(rows, n) then
      var p: nat, q: nat :| At(rows, p, q, n);
      Cut(rows, p, q)
    else rows
  }

  /** What goes when `n` is deleted: the node, and its seeds when it heads a row. */
  ghost function Family(rows: Rows, n: Node): seq<Node> {
    if exists p: nat :: At(rows, p, 0, n) then
      var p: nat :| At(rows, p, 0, n);
      rows[p]
    else [n]
  }

  lemma WithoutIsCut(rows: Rows, n: Node, p: nat, q: nat)
    requires Distinct(rows) && At(rows, p, q, n)
    ensures In(rows, n) && Without(rows, n) == Cut(rows, p, q)
    ensures Family(rows, n) == if q == 0 then rows[p] else [n]
  {
    if q == 0 {
      assert At(rows, p, 0, n);
    }
  }

  /** Deleting takes out the family and nothing else. */
  lemma CutTakes(rows: Rows, p: nat, q: nat, x: Node)
    requires Distinct(rows) && p < |rows| && q < |rows[p]|
    ensures In(Cut(rows, p, q), x) <==> In(rows, x) && x !in (if q == 0 then rows[p] else [rows[p][q]])
  {
    var r := Cut(rows, p, q);
    if In(rows, x) {
      var i, j := Position(rows, x);
      if q == 0 {
        assert i != p ==> At(r, if i < p then i else i - 1, j, x);
        assert x in rows[p] ==> i == p by { RowIs(rows, p, i, j, x); }
      } else {
        assert (i, j) != (p, q) ==> At(r, i, if i == p && j > q then j - 1 else j, x);
        assert At(rows, p, q, rows[p][q]);
      }
    }
    if In(r, x) {
      var i, j := Position(r, x);
      var k, l := CutFrom(rows, p, q, i, j);
      assert At(rows, k, l, x);
      if q == 0 {
        RowIs(rows, p, k, l, x);
      } else {
        assert At(rows, p, q, rows[p][q]);
      }
    }
  }

  lemma RowIs(rows: Rows, p: nat, i: nat, j: nat, x: Node)
    requires Distinct(rows) && p < |rows| && At(rows, i, j, x)
    ensures x in rows[p] <==> i == p
  {
    if x in rows[p] {
      var l: nat :| l < |rows[p]| && rows[p][l] == x;
      assert At(rows, p, l, x);
    }
  }

  /** Where a node that stays was before. */
  lemma CutFrom(rows: Rows, p: nat, q: nat, i: nat, j: nat) returns (k: nat, l: nat)
    requires p < |rows| && q < |rows[p]| && i < |Cut(rows, p, q)| && j < |Cut(rows, p, q)[i]|
    ensures k == (if q == 0 && i >= p then i + 1 else i) && l == (if q > 0 && i == p && j >= q then j + 1 else j)
    ensures At(rows, k, l, Cut(rows, p, q)[i][j])
    ensures if q == 0 then k != p else (k, l) != (p, q)
  {
    k := if q == 0 && i >= p then i + 1 else i;
    l := if q > 0 && i == p && j >= q then j + 1 else j;
  }

  lemma CutDistinct(rows: Rows, p: nat, q: nat)
    requires Distinct(rows) && p < |rows| && q < |rows[p]|
    ensures Distinct(Cut(rows, p, q))
  {
    var r := Cut(rows, p, q);
    forall i: nat, j: nat, k: nat, l: nat, x: Node | At(r, i, j, x) && At(r, k, l, x) ensures i == k && j == l {
      var i', j' := CutFrom(rows, p, q, i, j);
      var k', l' := CutFrom(rows, p, q, k, l);
      assert At(rows, i', j', x) && At(rows, k', l', x);
    }
  }

  lemma CutMainLinked(rows: Rows, nexts: Links, seeds: Links, p: nat)
    requires Distinct(rows) && Linked(rows, nexts, seeds) && 0 < p < |rows|
    requires rows[p][0] in nexts
    ensures Linked(Cut(rows, p, 0), nexts[rows[p - 1][0] := nexts[rows[p][0]]], seeds)
  {
    hide Linked;
    var r, links := Cut(rows, p, 0), nexts[rows[p - 1][0] := nexts[rows[p][0]]];
    assert At(rows, p - 1, 0, rows[p - 1][0]) && At(rows, p, 0, rows[p][0]);
    forall i: nat, x: Node | At(r, i, 0, x) ensures x in links && links[x] == Below(r, i) {
      var k, l := CutFrom(rows, p, 0, i, 0);
      NextIs(rows, nexts, seeds, k, x);
      NextIs(rows, nexts, seeds, p, rows[p][0]);
    }
    forall i: nat, j: nat, x: Node | At(r, i, j, x) ensures x in seeds && seeds[x] == Beside(r[i], j) {
      var k, l := CutFrom(rows, p, 0, i, j);
      SeedIs(rows, nexts, seeds, k, l, x);
    }
    LinkedIf(r, links, seeds);
  }

  lemma NextIs(rows: Rows, nexts: Links, seeds: Links, i: nat, x: Node)
    requires Linked(rows, nexts, seeds) && At(rows, i, 0, x)
    ensures x in nexts && nexts[x] == Below(rows, i)
  {}

  lemma SeedIs(rows: Rows, nexts: Links, seeds: Links, i: nat, j: nat, x: Node)
    requires Linked(rows, nexts, seeds) && At(rows, i, j, x)
    ensures x in seeds && seeds[x] == Beside(rows[i], j)
  {}

  lemma LinkedIf(rows: Rows, nexts: Links, seeds: Links)
    requires forall i: nat, x: Node :: At(rows, i, 0, x) ==> x in nexts && nexts[x] == Below(rows, i)
    requires forall i: nat, j: nat, x: Node :: At(rows, i, j, x) ==> x in seeds && seeds[x] == Beside(rows[i], j)
    ensures Linked(rows, nexts, seeds)
  {}

  lemma CutSeedLinked(rows: Rows, nexts: Links, seeds: Links, p: nat, q: nat)
    requires Distinct(rows) && Linked(rows, nexts, seeds) && p < |rows| && 0 < q < |rows[p]|
    requires rows[p][q] in seeds
    ensures Linked(Cut(rows, p, q), nexts, seeds[rows[p][q - 1] := seeds[rows[p][q]]])
  {
    hide Linked;
    var r, links := Cut(rows, p, q), seeds[rows[p][q - 1] := seeds[rows[p][q]]];
    assert At(rows, p, q - 1, rows[p][q - 1]);
    forall i: nat, x: Node | At(r, i, 0, x) ensures x in nexts && nexts[x] == Below(r, i) {
      var k, l := CutFrom(rows, p, q, i, 0);
      NextIs(rows, nexts, seeds, k, x);
    }
    forall i: nat, j: nat, x: Node | At(r, i, j, x) ensures x in links && links[x] == Beside(r[i], j) {
      var k, l := CutFrom(rows, p, q, i, j);
      SeedIs(rows, nexts, seeds, k, l, x);
      SeedIs(rows, nexts, seeds, p, q, rows[p][q]);
    }
    LinkedIf(r, nexts, links);
  }

  lemma LinkedFrame(rows: Rows, nexts: Links, seeds: Links, nexts': Links, seeds': Links)
    requires Linked(rows, nexts, seeds)
    requires forall x :: In(rows, x) && x in nexts ==> x in nexts' && nexts'[x] == nexts[x]
    requires forall x :: In(rows, x) && x in seeds ==> x in seeds' && seeds'[x] == seeds[x]
    ensures Linked(rows, nexts', seeds')
  {}
}
