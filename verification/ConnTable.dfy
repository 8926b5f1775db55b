/** The AT connection table: a fixed pool of nodes, threaded into a list of connections with a list
    of seeds under each server, each node owning a socket. */
module ConnTable {
  import opened ConnRows
  import opened ConnState

  function InfoOf(x: Node): Info
    reads x
  {
    Info(x.con_id, x.sockfd, x.role, x.protocol, x.addr, x.port, x.handletask)
  }

  class Table {
    const pool: seq<Node>
    var mainlist: Node?
    ghost var rows: Rows
    ghost var open: set<int>
    ghost var closed: seq<int>
    ghost var killed: seq<nat>

    ghost function Memory(): View
      reads pool
    {
      View(map x | x in pool :: InfoOf(x), map x | x in pool :: x.next, map x | x in pool :: x.nextseed)
    }

    /** Only `n` has changed. */
    twostate lemma OneChanged(n: Node)
      requires n in pool && forall x :: x in pool && x != n ==> unchanged(x)
      ensures Memory() == View(old(Memory()).infos[n := InfoOf(n)], old(Memory()).nexts[n := n.next],
        old(Memory()).seeds[n := n.nextseed])
    {
      InfosChanged(n);
      NextsChanged(n);
      SeedsChanged(n);
    }

    twostate lemma InfosChanged(n: Node)
      requires n in pool && forall x :: x in pool && x != n ==> unchanged(x)
      ensures Memory().infos == old(Memory()).infos[n := InfoOf(n)]
    {
      forall x | x in pool && x != n ensures InfoOf(x) == old(InfoOf(x)) {}
    }

    twostate lemma NextsChanged(n: Node)
      requires n in pool && forall x :: x in pool && x != n ==> unchanged(x)
      ensures Memory().nexts == old(Memory()).nexts[n := n.next]
    {
      forall x | x in pool && x != n ensures x.next == old(x.next) {}
    }

    twostate lemma SeedsChanged(n: Node)
      requires n in pool && forall x :: x in pool && x != n ==> unchanged(x)
      ensures Memory().seeds == old(Memory()).seeds[n := n.nextseed]
    {
      forall x | x in pool && x != n ensures x.nextseed == old(x.nextseed) {}
    }

    twostate lemma OnlyNext(n: Node)
      requires n in pool && forall x :: x in pool && x != n ==> unchanged(x)
      requires InfoOf(n) == old(InfoOf(n)) && n.nextseed == old(n.nextseed)
      ensures Memory() == old(Memory()).(nexts := old(Memory()).nexts[n := n.next])
    {
      hide InfoOf;
      OneChanged(n);
    }

    twostate lemma OnlySeed(n: Node)
      requires n in pool && forall x :: x in pool && x != n ==> unchanged(x)
      requires InfoOf(n) == old(InfoOf(n)) && n.next == old(n.next)
      ensures Memory() == old(Memory()).(seeds := old(Memory()).seeds[n := n.nextseed])
    {
      hide InfoOf;
      OneChanged(n);
    }

    twostate lemma OnlyInfo(n: Node)
      requires n in pool && forall x :: x in pool && x != n ==> unchanged(x)
      requires n.next == old(n.next) && n.nextseed == old(n.nextseed)
      ensures Memory() == old(Memory()).(infos := old(Memory()).infos[n := InfoOf(n)])
    {
      hide InfoOf;
      OneChanged(n);
    }

    lemma Shown(n: Node)
      requires n in pool
      ensures n in Memory().infos && n in Memory().nexts && n in Memory().seeds
      ensures Memory().infos[n] == InfoOf(n) && Memory().nexts[n] == n.next && Memory().seeds[n] == n.nextseed
    {}

    ghost predicate Headed()
      reads this, pool
    {
      && rows != [] && mainlist != null && mainlist in pool && rows[0] == [mainlist]
      && mainlist.role == INVALID
    }

    ghost predicate Valid()
      reads this, pool
    {
      Core(pool, rows, Memory(), open, []) && Headed()
    }

    constructor (size: nat)
      requires size > 0
      ensures DistinctPool(pool) && |pool| == size && fresh(pool)
      ensures rows == [] && open == {} && closed == [] && killed == []
    {
      var p: seq<Node> := [];
      while |p| < size
        invariant |p| <= size && fresh(p)
        invariant DistinctPool(p)
      {
        var x := new Node();
        p := p + [x];
      }
      pool := p;
      mainlist := null;
      rows, open, closed, killed := [], {}, [], [];
    }

    /** What the start of the AT commands does to the table. */
    method Init()
      requires DistinctPool(pool) && pool != [] && rows == [] && open == {}
      modifies this, pool
      ensures Valid() && rows == [[pool[0]]] && open == {} && closed == old(closed) && killed == old(killed)
    {
      hide Core, Memory, In, DistinctPool;
      InitNodePool();
      assert pool[0] in pool;
      var head := CreateNode(INVALID, INVALID);
      Shown(pool[0]);
      Alone(pool, Memory(), open);
      mainlist := head;
      rows := [[pool[0]]];
    }

    method InitNodePool()
      requires rows == [] && open == {} && DistinctPool(pool)
      modifies pool
      ensures Core(pool, rows, Memory(), open, []) && forall x :: x in pool ==> x.con_id == INVALID
    {
      for i := 0 to |pool|
        invariant forall k :: 0 <= k < i ==> pool[k].con_id == INVALID
      {
        pool[i].sockfd, pool[i].role, pool[i].protocol, pool[i].addr, pool[i].port, pool[i].handletask := 0, 0, 0, 0,
          0, 0;
        pool[i].next, pool[i].nextseed := null, null;
        pool[i].con_id := INVALID;
      }
      AllFree(pool, Memory());
    }

    method CreateNode(mode: int, role: int) returns (r: Node?)
      requires Core(pool, rows, Memory(), open, [])
      modifies pool
      ensures Core(pool, rows, Memory(), open, []) && (old(Headed()) ==> Headed())
      ensures r == null <==> forall i :: 0 <= i < |pool| ==> old(pool[i].con_id) != INVALID
      ensures r == null ==> Memory() == old(Memory())
      ensures r != null ==> r in pool && old(r.con_id) == INVALID && !In(rows, r)
      ensures r != null ==>
        0 <= r.con_id < |pool| && r == pool[r.con_id]
        && forall i :: 0 <= i < r.con_id ==> old(pool[i].con_id) != INVALID
      ensures r != null ==> Memory() == Created(old(Memory()), r, Info(r.con_id, INVALID, role, mode, 0, 0xffff, 0))
    {
      hide Core, Memory, In;
      for i := 0 to |pool|
        invariant forall k :: 0 <= k < i ==> pool[k].con_id != INVALID
        invariant Memory() == old(Memory())
      {
        if pool[i].con_id == INVALID {
          var n := pool[i];
          Shown(n);
          FreeIsOut(pool, rows, Memory(), open, n);
          if Headed() {
            HeadIsIn(rows, mainlist);
          }
          label before:
          pool[i].con_id := i;
          pool[i].sockfd := INVALID;
          pool[i].protocol := mode;
          pool[i].role := role;
          pool[i].addr := 0;
          pool[i].port := 0xffff;
          pool[i].handletask := 0;
          pool[i].next := null;
          pool[i].nextseed := null;
          OneChanged@before(n);
          CreateKeeps(pool, rows, old(Memory()), open, i, InfoOf(n));
          return n;
        }
      }
      return null;
    }

    // -------------------------------------------------------------- what the callers set on a new node

    /** A socket just made becomes the node's own. */
    method TakeSocket(n: Node, fd: int)
      requires Valid() && n in pool && n.con_id != INVALID && !In(rows, n)
      requires n.sockfd == INVALID && !(n.protocol == UDP && n.role == SEED) && fd != INVALID && fd !in open
      modifies this`open, pool
      ensures Valid() && open == old(open) + {fd} && Fd(InfoOf(n)) == fd
      ensures Memory() == old(Memory()).(infos := old(Memory()).infos[n := old(InfoOf(n)).(sockfd := fd)])
    {
      hide Core, Memory, In;
      Set(n, InfoOf(n).(sockfd := fd), open + {fd});
      n.sockfd := fd;
      open := open + {fd};
      OnlyInfo(n);
    }

    /** A UDP seed uses the socket of its server. */
    method BorrowSocket(n: Node, fd: int)
      requires Valid() && n in pool && n.con_id != INVALID && !In(rows, n) && n.protocol == UDP && n.role == SEED
      modifies pool
      ensures Valid() && Memory() == old(Memory()).(infos := old(Memory()).infos[n := old(InfoOf(n)).(sockfd := fd)])
    {
      hide Core, Memory, In;
      Set(n, InfoOf(n).(sockfd := fd), open);
      n.sockfd := fd;
      OnlyInfo(n);
    }

    method Describe(n: Node, addr: nat, port: nat, task: nat)
      requires Valid() && n in pool && n.con_id != INVALID && !In(rows, n)
      modifies pool
      ensures Valid()
      ensures Memory() == old(Memory()).(infos := old(Memory()).infos[n := old(InfoOf(n)).(addr := addr, port := port,
        handletask := task)])
    {
      hide Core, Memory, In;
      Set(n, InfoOf(n).(addr := addr, port := port, handletask := task), open);
      n.addr, n.port, n.handletask := addr, port, task;
      OnlyInfo(n);
    }

    lemma Set(n: Node, info: Info, open': set<int>)
      requires Valid() && n in pool && n.con_id != INVALID && !In(rows, n) && info.con_id == n.con_id
      requires open <= open' && (Fd(info) == Fd(InfoOf(n)) || (Fd(info) !in open && Fd(info) in open'))
      ensures Core(pool, rows, Memory().(infos := Memory().infos[n := info]), open', []) && n != mainlist
    {
      hide Core, Linked, In;
      Shown(n);
      Index(n);
      HeadIsIn(rows, mainlist);
      Loose(pool, rows, Memory(), open, n);
      OwnedIsOpen(pool, rows, Memory(), open, [], n);
      Change(pool, rows, Memory(), open, [], n, info, open');
    }

    lemma Index(n: Node)
      requires Valid() && n in pool && n.con_id != INVALID
      ensures 0 <= n.con_id < |pool| && pool[n.con_id] == n
    {
      var k: nat :| k < |pool| && pool[k] == n;
    }

    // -------------------------------------------------------------- hanging

    method HangNode(n: Node) returns (r: int)
      requires Valid() && n in pool && n.con_id != INVALID && !In(rows, n) && n.role != SEED
      modifies this`rows, pool
      ensures Valid()
      ensures r == 0 || r == -1
      ensures r == -1 <==> n.role == SERVER && exists k :: 1 <= k < |old(rows)| && old(SameServer(rows[k], n))
      ensures r == -1 ==> rows == old(rows) && Memory() == old(Memory())
      ensures r == 0 ==> rows == old(rows) + [[n]] && Memory().infos == old(Memory().infos)
    {
      hide Core, Memory, In, SameServer;
      ghost var v := Memory();
      var m: Node, i: nat := mainlist, 0;
      AtHead(pool, rows, v, open, [], 0);
      Shown(n);
      Shown(m);
      while m.next != null
        modifies {}
        invariant i < |rows| && rows[i] != [] && m == rows[i][0] && m in pool && m.next == Below(rows, i)
        invariant n.role == SERVER ==> forall k :: 1 <= k <= i ==> !SameServer(rows[k], n)
        decreases |rows| - i
      {
        m, i := m.next, i + 1;
        AtHead(pool, rows, v, open, [], i);
        InPool(m);
        Shown(m);
        if n.role == SERVER {
          if m.port == n.port && (m.addr == n.addr && m.role == n.role && m.protocol == n.protocol) {
            assert SameServer(rows[i], n) by { SameServerIs(rows[i], n); }
            return -1;
          }
          assert !SameServer(rows[i], n) by { SameServerIs(rows[i], n); }
        }
      }
      AtHead(pool, rows, v, open, [], i);
      assert i + 1 == |rows|;
      HangMain(pool, rows, v, open, n);
      label before:
      m.next := n;
      OnlyNext@before(m);
      rows := rows + [[n]];
      return 0;
    }

    /** A seed hangs under a server that is itself hung. */
    method HangSeedNode(server: Node, n: Node, ghost p: nat) returns (r: int)
      requires Valid() && At(rows, p, 0, server) && server.role == SERVER
      requires n in pool && n.con_id != INVALID && !In(rows, n) && Seedable(InfoOf(n))
      modifies this`rows, pool
      ensures Valid()
      ensures r == 0 || r == -1
      ensures r == -1 <==> exists k :: 1 <= k < |old(rows)[p]| && old(SamePeer(rows[p][k], n))
      ensures r == -1 ==> rows == old(rows) && Memory() == old(Memory())
      ensures r == 0 ==> rows == old(rows)[p := old(rows)[p] + [n]] && Memory().infos == old(Memory().infos)
    {
      hide Core, Memory, In, SamePeer;
      ghost var v := Memory();
      var m: Node, j: nat := server, 0;
      AtSeed(pool, rows, v, open, [], p, 0);
      InPool(m);
      Shown(n);
      Shown(m);
      while m.nextseed != null
        modifies {}
        invariant j < |rows[p]| && m == rows[p][j] && m in pool && m.nextseed == Beside(rows[p], j)
        invariant forall k :: 1 <= k <= j ==> !SamePeer(rows[p][k], n)
        decreases |rows[p]| - j
      {
        m, j := m.nextseed, j + 1;
        AtSeed(pool, rows, v, open, [], p, j);
        InPool(m);
        Shown(m);
        SamePeerIs(m, n);
        if m.port == n.port && m.addr == n.addr {
          return -1;
        }
      }
      HangUnder(pool, rows, v, open, p, n);
      KeepsHead(rows, p, n);
      label before:
      m.nextseed := n;
      OnlySeed@before(m);
      rows := rows[p := rows[p] + [n]];
      return 0;
    }

    /** Looks through the list, each connection before its seeds; the sentinel is passed over. */
    method SeekNode(con_id: int) returns (r: Node?)
      requires Valid()
      ensures r != null ==> In(rows, r) && r != mainlist && r.con_id == con_id
      ensures r != null ==> 0 <= con_id < |pool| && r == pool[con_id]
      ensures r == null <==> !(exists i: nat, j: nat :: 1 <= i < |rows| && j < |rows[i]| && rows[i][j].con_id == con_id)
    {
      hide Core, Memory, In;
      ghost var v := Memory();
      var n: Node, i: nat := mainlist, 0;
      AtHead(pool, rows, v, open, [], 0);
      Shown(n);
      while n.next != null
        invariant i < |rows| && rows[i] != [] && n == rows[i][0] && n.next == Below(rows, i)
        invariant forall k: nat, l: nat :: 1 <= k <= i && l < |rows[k]| ==> rows[k][l].con_id != con_id
        decreases |rows| - i
      {
        n, i := n.next, i + 1;
        AtHead(pool, rows, v, open, [], i);
        AtSeed(pool, rows, v, open, [], i, 0);
        InPool(n);
        Shown(n);
        if n.con_id == con_id {
          Found(i, 0);
          return n;
        }
        if n.nextseed != null {
          var seed: Node, j: nat := n, 0;
          while seed.nextseed != null
            invariant j < |rows[i]| && seed == rows[i][j] && seed.nextseed == Beside(rows[i], j)
            invariant forall l: nat :: l <= j ==> rows[i][l].con_id != con_id
            decreases |rows[i]| - j
          {
            seed, j := seed.nextseed, j + 1;
            AtSeed(pool, rows, v, open, [], i, j);
            InPool(seed);
            Shown(seed);
            if seed.con_id == con_id {
              Found(i, j);
              return seed;
            }
          }
        }
      }
      AtHead(pool, rows, v, open, [], i);
      return null;
    }

    lemma Found(i: nat, j: nat)
      requires Valid() && 1 <= i < |rows| && j < |rows[i]|
      ensures In(rows, rows[i][j]) && rows[i][j] != mainlist
      ensures 0 <= rows[i][j].con_id < |pool| && rows[i][j] == pool[rows[i][j].con_id]
    {
      var x := rows[i][j];
      AtSeed(pool, rows, Memory(), open, [], i, j);
      OnePlace(rows, i, j, 0, 0);
      InPool(x);
      var k: nat :| k < |pool| && pool[k] == x;
    }

    // -------------------------------------------------------------- deleting

    /** The pass over one server's seeds: when `n` is among them it is unlinked. */
    method UnlinkSeed(curr: Node, n: Node, ghost i: nat, ghost v: View, ghost hung: bool, ghost p: nat, ghost q: nat)
      requires Core(pool, rows, v, open, []) && Cuttable(rows, v, n, hung, p, q) && n in pool
      requires At(rows, i, 0, curr)
      requires Memory() == Passed(rows, v, n, hung, p, q, i > p || (i == p && q == 0))
      modifies pool
      ensures Memory() == Passed(rows, v, n, hung, p, q, i >= p)
    {
      hide Core, Memory, In, Passed;
      NotYet(rows, v, n, hung, p, q);
      WalkSeed(pool, rows, v, open, n, hung, p, q, i, 0, i > p || (i == p && q == 0));
      InPool(curr);
      Shown(curr);
      var prec, seed := curr, curr.nextseed;
      ghost var j: nat := 0;
      while seed != null
        invariant j < |rows[i]| && prec == rows[i][j] && prec in pool && seed == Beside(rows[i], j)
        invariant Memory() == Passed(rows, v, n, hung, p, q, i > p || (i == p && j >= q))
        decreases |rows[i]| - j
      {
        Meets(pool, rows, v, open, n, hung, p, q, i, j + 1);
        Shown(n);
        label before:
        if seed == n {
          prec.nextseed := n.nextseed;
          OnlySeed@before(prec);
        }
        prec, j := seed, j + 1;
        WalkSeed(pool, rows, v, open, n, hung, p, q, i, j, i > p || (i == p && j >= q));
        InPool(prec);
        Shown(prec);
        seed := prec.nextseed;
      }
    }

    /** The pass over the whole list that takes `n` out of it. */
    method Unlink(n: Node) returns (ghost hung: bool, ghost p: nat, ghost q: nat)
      requires Valid() && n in pool && n != mainlist && n.con_id != INVALID
      modifies this`rows, pool
      ensures rows == Without(old(rows), n)
      ensures Cuttable(old(rows), old(Memory()), n, hung, p, q)
      ensures Memory() == Passed(old(rows), old(Memory()), n, hung, p, q, true) && Memory().infos == old(Memory().infos)
    {
      hide Core, Memory, In, Passed, Without;
      ghost var v := Memory();
      Shown(mainlist);
      Shown(n);
      hung, p, q := Place(pool, rows, v, open, n, mainlist);
      var curr: Node?, prev: Node? := mainlist, null;
      ghost var i: nat := 0;
      NotYet(rows, v, n, hung, p, q);
      while curr != null
        modifies pool
        invariant i <= |rows| && (if curr == null then i == |rows| else At(rows, i, 0, curr) && curr in pool)
        invariant i == 0 ==> curr == mainlist
        invariant i > 0 ==> prev != null && At(rows, i - 1, 0, prev) && prev in pool
        invariant Memory() == Passed(rows, v, n, hung, p, q, i > p)
        decreases |rows| - i
      {
        Meets(pool, rows, v, open, n, hung, p, q, i, 0);
        WalkMain(pool, rows, v, open, n, hung, p, q, i, i > p);
        Shown(curr);
        Shown(n);
        label before:
        if curr == n {
          prev.next := curr.next;
          OnlyNext@before(prev);
        }
        WalkMain(pool, rows, v, open, n, hung, p, q, i, i > p || (i == p && q == 0));
        Shown(curr);
        if curr.role == SERVER {
          UnlinkSeed(curr, n, i, v, hung, p, q);
        } else if |rows[i]| > 1 {
          Meets(pool, rows, v, open, n, hung, p, q, i, 1);
        }
        WalkMain(pool, rows, v, open, n, hung, p, q, i, i >= p);
        Shown(curr);
        prev, i := curr, i + 1;
        curr := curr.next;
        if i < |rows| {
          AtHead(pool, rows, v, open, [], i);
          InPool(curr);
        }
      }
      PassedInfos(rows, v, n, hung, p, q, true);
      rows := Without(rows, n);
    }

    method Close(fd: int)
      requires fd in open
      modifies this`open, this`closed
      ensures open == old(open) - {fd} && closed == old(closed) + [fd]
    {
      open, closed := open - {fd}, closed + [fd];
    }

    /** The first seed of a server that goes: its socket is closed if it is its own. */
    method FreeSeed(n: Node, seed: Node, ghost family: seq<Node>)
      requires Core(pool, rows, Memory(), open, family) && n in pool && seed in pool && n != seed
      requires n in family && seed in family && !In(rows, n) && !In(rows, seed)
      requires seed.con_id != INVALID && Seedable(InfoOf(seed)) && n.nextseed == seed
      modifies pool, this`open, this`closed
      ensures Core(pool, rows, Memory(), open, family)
      ensures Memory() == old(Memory()).(infos := old(Memory()).infos[seed := Closed(old(InfoOf(seed)))],
                                         seeds := old(Memory()).seeds[n := old(seed.nextseed)])
      ensures var gone := Sockets([seed], old(Memory()).infos);
        open == old(open) - Elements(gone) && closed == old(closed) + gone
    {
      hide Core, Memory, In, Sockets, Linked;
      Shown(seed);
      Shown(n);
      OneSocket(seed, Memory().infos);
      OwnedIsOpen(pool, rows, Memory(), open, family, seed);
      ghost var info := InfoOf(seed);
      ghost var v, was := Memory(), open;
      label before:
      if seed.protocol == TCP && seed.sockfd != INVALID {
        Close(seed.sockfd);
        seed.sockfd := INVALID;
      }
      OnlyInfo@before(seed);
      Shown(n);
      Shown(seed);
      label closed_:
      n.nextseed := seed.nextseed;
      OnlySeed@closed_(n);
      label unlinked:
      seed.con_id := INVALID;
      OnlyInfo@unlinked(seed);
      assert InfoOf(seed) == Closed(info);
      Change(pool, rows, v, was, family, seed, Closed(info), open);
      ghost var w := v.(infos := v.infos[seed := Closed(info)]);
      RelinkSeed(pool, rows, w, open, family, n, seed.nextseed);
      assert Memory() == w.(seeds := w.seeds[n := seed.nextseed]);
    }

    /** The seeds of `n` go one after the other. */
    method FreeSeeds(n: Node, ghost family: seq<Node>)
      requires Core(pool, rows, Memory(), open, family) && family != [] && family[0] == n
      requires Family?(rows, Memory(), family) && Chained(Memory(), family, 0)
      modifies pool, this`open, this`closed
      ensures Core(pool, rows, Memory(), open, family)
      ensures FreedOnly(family[1..], old(Memory()).infos, Memory().infos)
      ensures var gone := Sockets(family[1..], old(Memory()).infos);
        open == old(open) - Elements(gone) && closed == old(closed) + gone
    {
      hide Core, Memory, In, Sockets, Elements, FreedOnly, Chained, Linked;
      ghost var infos := Memory().infos;
      ghost var k: nat := 0;
      NothingGone(family, infos, open);
      HeadChained(Memory(), family, 0);
      InPool(n);
      Shown(n);
      while n.nextseed != null
        modifies pool, this`open, this`closed
        invariant k < |family| && n.nextseed == Beside(family, k)
        invariant Core(pool, rows, Memory(), open, family) && Chained(Memory(), family, k + 1)
        invariant FreedOnly(family[1..k + 1], infos, Memory().infos)
        invariant var gone := Sockets(family[1..k + 1], infos);
          open == old(open) - Elements(gone) && closed == old(closed) + gone
        decreases |family| - k
      {
        var seed := n.nextseed;
        ghost var v := Memory();
        HeadChained(v, family, k + 1);
        InPool(seed);
        Shown(seed);
        Shown(n);
        ghost var info, next := InfoOf(seed), seed.nextseed;
        FreedMore(family, k + 1, infos, v.infos, Closed(info));
        OneSocket(seed, v.infos);
        ghost var gone := Sockets(family[1..k + 1], infos);
        FreeSeed(n, seed, family);
        StillChained(v, Memory(), family, k + 1, next);
        GoneTogether(old(open), old(closed), gone, Sockets([seed], v.infos));
        Shown(n);
        k := k + 1;
      }
      assert family[1..] == family[1..k + 1];
    }

    /** What `n` itself holds goes. */
    method FreeSelf(n: Node, ghost family: seq<Node>)
      requires Core(pool, rows, Memory(), open, family) && n in pool && !In(rows, n) && n.con_id != INVALID
      modifies pool, this`open, this`closed, this`killed
      ensures Core(pool, rows, Memory(), open, family)
      ensures Memory() == old(Memory()).(infos := old(Memory()).infos[n := Closed(old(InfoOf(n))).(handletask := 0)])
      ensures var gone := Sockets([n], old(Memory()).infos);
        open == old(open) - Elements(gone) && closed == old(closed) + gone
      ensures killed == old(killed) + if old(n.handletask) == 0 then [] else [old(n.handletask)]
    {
      hide Core, Memory, In;
      Shown(n);
      OneSocket(n, Memory().infos);
      OwnedIsOpen(pool, rows, Memory(), open, family, n);
      ghost var info, v, was := InfoOf(n), Memory(), open;
      label before:
      if !(n.protocol == UDP && n.role == SEED) {
        if n.sockfd != INVALID {
          Close(n.sockfd);
          n.sockfd := INVALID;
        }
      }
      if n.handletask != 0 {
        killed := killed + [n.handletask];
        n.handletask := 0;
      }
      n.con_id := INVALID;
      OnlyInfo@before(n);
      assert InfoOf(n) == Closed(info).(handletask := 0);
      Change(pool, rows, v, was, family, n, InfoOf(n), open);
    }

    method DeleteNode(n: Node?)
      requires Valid() && (n != null ==> n in pool && n != mainlist && n.con_id != INVALID)
      modifies this`rows, this`open, this`closed, this`killed, pool
      ensures Valid()
      ensures n == null ==>
        rows == old(rows) && Memory() == old(Memory()) && closed == old(closed) && killed == old(killed)
      ensures n != null ==> rows == Without(old(rows), n)
      ensures n != null ==> FreedOnly(Family(old(rows), n), old(Memory().infos), Memory().infos)
      ensures n != null ==> var gone := Released(old(rows), n, old(Memory().infos));
        open == old(open) - Elements(gone) && closed == old(closed) + gone
      ensures n != null ==> killed == old(killed) + if old(n.handletask) == 0 then [] else [old(n.handletask)]
    {
      hide Core, Memory, In, Family, Without, Sockets, Elements, Released, Passed, Linked, FreedOnly, Family?, Chained,
        Cuttable;
      if n == null {
        return;
      }
      Shown(n);
      Shown(mainlist);
      ghost var v, r, was := Memory(), rows, open;
      ghost var hung, p, q := Unlink(n);
      ghost var family := Family(r, n);
      FamilyIs(pool, r, v, open, n, hung, p, q);
      UnlinkKeeps(pool, r, v, open, n, hung, p, q);
      Shown(n);
      ghost var infos := Memory().infos;
      if n.role == SERVER {
        FreeSeeds(n, family);
        Shown(n);
        HeadStays(family, infos, Memory().infos);
      } else {
        NoneFreed(n, infos);
        assert family == [n];
        assert open == was - Elements(Sockets(family[1..], infos));
      }
      ghost var freed := Memory().infos;
      ghost var gone, own := Sockets(family[1..], infos), Sockets([n], freed);
      FreeSelf(n, family);
      ClosedTogether(was, old(closed), r, n, infos, freed, gone, own);
      FreedAll(family, infos, freed, Memory().infos[n]);
      AllLoose(pool, rows, Memory(), open, family, infos);
      HeadSurvives(pool, r, v, was, n, hung, p, q, mainlist);
      Untouched(family, infos, Memory().infos, mainlist);
      Shown(mainlist);
    }

    /** Deletes the first connection until there is none. */
    method SocketCloseAll()
      requires Valid()
      modifies this`rows, this`open, this`closed, this`killed, pool
      ensures Valid() && rows == old(rows)[..1]
      ensures FreedRows(old(rows), |old(rows)|, old(Memory().infos), Memory().infos)
      ensures old(rows) != [] && RowsAreFull(old(rows))
      ensures var gone := AllReleased(old(rows), 1, old(Memory().infos));
        && closed == old(closed) + gone && open == old(open) - Elements(gone)
        && Once(gone) && (forall f :: f in gone ==> f in old(open))
        && (forall f :: f in gone <==> Owned(AllHung(old(rows), 1), old(Memory().infos), f))
      ensures forall f :: f in AllReleased(old(rows), 1, old(Memory().infos)) <==> exists i: nat, j: nat, x: Node ::
        1 <= i && At(old(rows), i, j, x) && x in old(Memory().infos) && HoldsSocket(old(Memory().infos)[x], f)
    {
      hide Core, Memory, Distinct, FreedRows, FreedOnly, Without, Family, Released, RowsAreFull, AllReleased, Sockets,
        Elements, In, Linked, Once, Owned, AllHung, HoldsSocket, At;
      ghost var r, infos, was, wasOpen := rows, Memory().infos, closed, open;
      ghost var k: nat := 1;
      RowFacts(pool, r, Memory(), open);
      AllClosedOnce(pool, r, Memory(), open);
      forall f ensures f in AllReleased(r, 1, infos) <==>
        exists i: nat, j: nat, x: Node :: 1 <= i && At(r, i, j, x) && x in infos && HoldsSocket(infos[x], f)
      {
        ClosedAreHeld(pool, r, Memory(), open, f);
      }
      NoneYet(r, infos);
      ghost var done: seq<int> := [];
      NothingClosed(open, closed);
      assert done + AllReleased(r, 1, infos) == AllReleased(r, 1, infos);
      AtHead(pool, rows, Memory(), open, [], 0);
      Shown(mainlist);
      assert Left(r, 1) == r;
      var curr := mainlist.next;
      while curr != null
        invariant 0 < k <= |r| && rows == Left(r, k) && Valid() && curr == Below(rows, 0)
        invariant FreedRows(r, k, infos, Memory().infos)
        invariant done + AllReleased(r, k, infos) == AllReleased(r, 1, infos)
        invariant closed == was + done && open == wasOpen - Elements(done)
        decreases |r| - k
      {
        NextRow(r, k, infos, Memory().infos);
        assert rows[1] == r[k];
        AtSeed(pool, rows, Memory(), open, [], 1, 0);
        InPool(curr);
        Shown(curr);
        OnePlace(rows, 1, 0, 0, 0);
        ghost var before := Memory().infos;
        AllReleasedStep(r, k, infos, done);
        ghost var more := Sockets(r[k][1..] + r[k][..1], infos);
        GoneTogether(wasOpen, was, done, more);
        DeleteNode(curr);
        done := done + more;
        FreedRow(r, k, infos, before, Memory().infos);
        k := k + 1;
        AtHead(pool, rows, Memory(), open, [], 0);
        Shown(mainlist);
        curr := mainlist.next;
      }
      assert Left(r, |r|) == r[..1];
      NoneLeft(r, infos);
      assert done == AllReleased(r, 1, infos);
    }

    lemma InPool(x: Node)
      requires x in Memory().infos || x in Memory().seeds
      ensures x in pool
    {}
  }

  predicate SamePeer(x: Node, n: Node)
    reads x, n
  {
    x.port == n.port && x.addr == n.addr
  }

  lemma SamePeerIs(x: Node, n: Node)
    ensures SamePeer(x, n) <==> x.port == n.port && x.addr == n.addr
  {}

  predicate SameServer(row: seq<Node>, n: Node)
    reads row, n
  {
    row != [] && row[0].port == n.port && row[0].addr == n.addr && row[0].role == n.role
      && row[0].protocol == n.protocol
  }

  lemma SameServerIs(row: seq<Node>, n: Node)
    requires row != []
    ensures SameServer(row, n) <==>
      (row[0].port == n.port && row[0].addr == n.addr && row[0].role == n.role && row[0].protocol == n.protocol)
  {}

  function Created(v: View, n: Node, info: Info): View {
    View(v.infos[n := info], v.nexts[n := null], v.seeds[n := null])
  }

  lemma HeadIsIn(rows: Rows, head: Node)
    requires rows != [] && rows[0] == [head]
    ensures In(rows, head)
  {
    assert At(rows, 0, 0, head);
  }

  lemma Alone(pool: seq<Node>, v: View, open: set<int>)
    requires pool != [] && Core(pool, [], v, open, []) && Unlinked(v, pool[0])
    requires v.infos[pool[0]].con_id != INVALID && v.infos[pool[0]].role == INVALID
    ensures Core(pool, [[pool[0]]], v, open, [])
  {}

  lemma AllFree(pool: seq<Node>, v: View)
    requires DistinctPool(pool)
    requires forall i: nat :: i < |pool| ==> pool[i] in v.infos
    requires forall x :: x in v.infos ==> v.infos[x].con_id == INVALID
    ensures Core(pool, [], v, {}, [])
  {}

  lemma CreateKeeps(pool: seq<Node>, rows: Rows, v: View, open: set<int>, i: nat, info: Info)
    requires Core(pool, rows, v, open, []) && i < |pool|
    requires pool[i] in v.infos && v.infos[pool[i]].con_id == INVALID && info.con_id == i && info.sockfd == INVALID
    ensures !In(rows, pool[i])
    ensures Core(pool, rows, Created(v, pool[i], info), open, [])
  {
    FreeIsOut(pool, rows, v, open, pool[i]);
    Relink(pool, rows, v, open, [], pool[i], null, null);
    Change(pool, rows, v.(nexts := v.nexts[pool[i] := null], seeds := v.seeds[pool[i] := null]), open, [], pool[i],
      info, open);
  }

  lemma FreeIsOut(pool: seq<Node>, rows: Rows, v: View, open: set<int>, x: Node)
    requires Core(pool, rows, v, open, []) && x in v.infos && v.infos[x].con_id == INVALID
    ensures !In(rows, x)
  {
    if In(rows, x) {
      InIsUsed(pool, rows, v, open, [], x);
    }
  }

  lemma InIsUsed(pool: seq<Node>, rows: Rows, v: View, open: set<int>, but: seq<Node>, x: Node)
    requires Core(pool, rows, v, open, but) && In(rows, x)
    ensures x in v.infos && v.infos[x].con_id != INVALID
  {
    var p, q := Position(rows, x);
    assert Hung(rows, v.infos, p, q, x);
  }
}
