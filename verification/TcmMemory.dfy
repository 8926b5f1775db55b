/** The free list as words of memory: each free chunk starts with the address of the next one and
    its own size. Memory maps the address of a word to its contents. */
module TcmMemory {
  import opened CText
  import opened FreeList

  const NULL := 0

  function Word(mem: map<int, int>, a: int): int {
    if a in mem then mem[a] else 0
  }

  function Addr(free: seq<Chunk>, i: nat): int {
    if i < |free| then free[i].addr else NULL
  }

  predicate Header(mem: map<int, int>, free: seq<Chunk>, i: nat)
    requires i < |free|
  {
    Word(mem, free[i].addr) == Addr(free, i + 1) && Word(mem, free[i].addr + 4) == free[i].size
  }

  predicate Linked(head: int, mem: map<int, int>, free: seq<Chunk>) {
    head == Addr(free, 0) && forall i :: 0 <= i < |free| ==> Header(mem, free, i)
  }

  /** The words that may differ belong to the given list. */
  ghost predicate Elsewhere(mem: map<int, int>, mem': map<int, int>, free: seq<Chunk>) {
    forall a :: !Covers(free, a) ==> Word(mem, a) == Word(mem', a)
  }

  lemma HeaderCovered(free: seq<Chunk>, lo: int, hi: int, i: nat)
    requires Ordered(free, lo, hi) && i < |free|
    ensures Covers(free, free[i].addr) && Covers(free, free[i].addr + 4)
  {
    OrderedAt(free, lo, hi);
    CoversAt(free, i, free[i].addr);
    CoversAt(free, i, free[i].addr + 4);
  }

  // ---------------------------------------------------------------- allocation

  lemma {:induction false} AllocCuts(free: seq<Chunk>, n: int, i: nat)
    requires i < |free| && free[i].size == n && forall k :: 0 <= k < i ==> free[k].size < n
    ensures Alloc(free, n) == (Some(free[i].addr), Without(free, i))
  {
    if i == 0 {
      assert Without(free, 0) == free[1..];
    } else {
      AllocCuts(free[1..], n, i - 1);
      assert [free[0]] + Without(free[1..], i - 1) == Without(free, i);
    }
  }

  lemma {:induction false} AllocShrinks(free: seq<Chunk>, n: int, i: nat)
    requires i < |free| && free[i].size > n && forall k :: 0 <= k < i ==> free[k].size < n
    ensures Alloc(free, n) == (Some(free[i].End() - n), free[i := Chunk(free[i].addr, free[i].size - n)])
  {
    var c := Chunk(free[i].addr, free[i].size - n);
    if i == 0 {
      assert free[0 := c] == [c] + free[1..];
    } else {
      AllocShrinks(free[1..], n, i - 1);
      assert [free[0]] + free[1..][i - 1 := c] == free[i := c];
    }
  }

  lemma AllocNothing(free: seq<Chunk>, n: int)
    requires forall k :: 0 <= k < |free| ==> free[k].size < n
    ensures Alloc(free, n) == (None, free)
  {
    if free != [] {
      AllocNothing(free[1..], n);
      assert [free[0]] + free[1..] == free;
    }
  }

  /** Distinct chunks keep their headers apart. */
  predicate Spaced(free: seq<Chunk>) {
    forall i, j :: 0 <= i < j < |free| ==> free[i].addr + UNIT <= free[j].addr
  }

  lemma OrderedSpaced(free: seq<Chunk>, lo: int, hi: int)
    requires Ordered(free, lo, hi)
    ensures Spaced(free)
  {
    OrderedAt(free, lo, hi);
  }

  lemma CutHead(head: int, mem: map<int, int>, free: seq<Chunk>)
    requires Linked(head, mem, free) && free != []
    ensures Linked(Word(mem, free[0].addr), mem, Without(free, 0))
  {
    var s := Without(free, 0);
    assert s == free[1..];
    assert Header(mem, free, 0);
    forall k | 0 <= k < |s| ensures Header(mem, s, k) { assert Header(mem, free, k + 1); }
  }

  lemma CutShape(free: seq<Chunk>, i: nat)
    requires i < |free|
    ensures var s := Without(free, i);
      && |s| == |free| - 1
      && (forall k :: 0 <= k < i ==> s[k] == free[k])
      && (forall k :: i <= k < |s| ==> s[k] == free[k + 1])
  {}

  lemma CutLinked(head: int, mem: map<int, int>, free: seq<Chunk>, i: nat)
    requires Linked(head, mem, free) && Spaced(free) && 0 < i < |free|
    ensures Linked(head, mem[free[i - 1].addr := Addr(free, i + 1)], Without(free, i))
  {
    var mem', s := mem[free[i - 1].addr := Addr(free, i + 1)], Without(free, i);
    CutShape(free, i);
    forall k | 0 <= k < |s| ensures Header(mem', s, k) {
      if k < i {
        assert Header(mem, free, k);
      } else {
        assert Header(mem, free, k + 1);
        assert free[i - 1].addr + UNIT <= free[k + 1].addr;
      }
    }
  }

  lemma ResizeLinked(head: int, mem: map<int, int>, free: seq<Chunk>, i: nat, n: int)
    requires Linked(head, mem, free) && Spaced(free) && i < |free|
    ensures Linked(head, mem[free[i].addr + 4 := Word(mem, free[i].addr + 4) + n],
      free[i := Chunk(free[i].addr, free[i].size + n)])
  {
    var mem' := mem[free[i].addr + 4 := Word(mem, free[i].addr + 4) + n];
    var s := free[i := Chunk(free[i].addr, free[i].size + n)];
    forall k | 0 <= k < |s| ensures Header(mem', s, k) { assert Header(mem, free, k); }
  }

  // ---------------------------------------------------------------- release

  /** The block `c` put in front of chunk `i`. */
  function Insert(free: seq<Chunk>, i: nat, c: Chunk): seq<Chunk>
    requires i <= |free|
  {
    free[..i] + [c] + free[i..]
  }

  /** Chunk `i` merged with the one behind it, if they touch. */
  function MergeAt(free: seq<Chunk>, i: nat): seq<Chunk>
    requires i < |free|
  {
    free[..i] + MergeNext(free[i], free[i + 1..])
  }

  /** The list after the block went in behind chunk `i - 1`, before the merge with what follows:
      and the index of the chunk that holds the block. */
  function Placed(free: seq<Chunk>, i: nat, c: Chunk): (r: (seq<Chunk>, nat))
    requires i <= |free|
    ensures r.1 < |r.0|
  {
    if i > 0 && free[i - 1].End() == c.addr
    then (free[i - 1 := Chunk(free[i - 1].addr, free[i - 1].size + c.size)], i - 1)
    else (Insert(free, i, c), i)
  }

  lemma {:induction false} ReleasePlaces(free: seq<Chunk>, i: nat, c: Chunk)
    requires i <= |free| && (i == 0 <==> free == [] || c.addr < free[0].addr)
    requires (forall k :: 0 < k < i ==> free[k].addr < c.addr) && (0 < i < |free| ==> c.addr <= free[i].addr)
    ensures Release(free, c) == MergeAt(Placed(free, i, c).0, Placed(free, i, c).1)
  {
    if i == 0 {
      assert Insert(free, 0, c)[1..] == free;
      assert Release(free, c) == [] + MergeNext(c, free);
    } else {
      ReleaseAfterPlaces(free, i, c);
    }
  }

  lemma PlacedTail(free: seq<Chunk>, i: nat, c: Chunk)
    requires 1 < i <= |free|
    ensures var (s, j), (s', j') := Placed(free, i, c), Placed(free[1..], i - 1, c);
      j == j' + 1 && s == [free[0]] + s'
  {}

  lemma MergeAtTail(s: seq<Chunk>, j: nat)
    requires 0 < j < |s|
    ensures MergeAt(s, j) == [s[0]] + MergeAt(s[1..], j - 1)
  {
    assert s[1..][j..] == s[j + 1..];
  }

  lemma ReleaseAtFirst(free: seq<Chunk>, c: Chunk)
    requires free != [] && (1 < |free| ==> c.addr <= free[1].addr)
    ensures ReleaseAfter(free, c) == MergeAt(Placed(free, 1, c).0, Placed(free, 1, c).1)
  {
    var (s, j) := Placed(free, 1, c);
    if free[0].End() == c.addr {
      assert s[1..] == free[1..];
    } else {
      assert s == [free[0], c] + free[1..];
      assert s[2..] == free[1..];
    }
  }

  lemma {:induction false} ReleaseAfterPlaces(free: seq<Chunk>, i: nat, c: Chunk)
    requires 0 < i <= |free| && (forall k :: 0 < k < i ==> free[k].addr < c.addr)
    requires i < |free| ==> c.addr <= free[i].addr
    ensures ReleaseAfter(free, c) == MergeAt(Placed(free, i, c).0, Placed(free, i, c).1)
  {
    if i > 1 {
      hide Placed, MergeAt;
      var (s, j) := Placed(free, i, c);
      ReleaseAfterPlaces(free[1..], i - 1, c);
      PlacedTail(free, i, c);
      MergeAtTail(s, j);
    } else {
      ReleaseAtFirst(free, c);
    }
  }

  lemma InsertShape(free: seq<Chunk>, i: nat, c: Chunk)
    requires i <= |free|
    ensures var s := Insert(free, i, c);
      && |s| == |free| + 1 && s[i] == c
      && (forall k :: 0 <= k < i ==> s[k] == free[k])
      && (forall k :: i < k < |s| ==> s[k] == free[k - 1])
  {}

  /** Writing the header of a new first chunk. */
  lemma InsertHead(head: int, mem: map<int, int>, free: seq<Chunk>, c: Chunk)
    requires Linked(head, mem, free) && Spaced(Insert(free, 0, c))
    ensures Linked(c.addr, mem[c.addr := head][c.addr + 4 := c.size], Insert(free, 0, c))
  {
    var mem', s := mem[c.addr := head][c.addr + 4 := c.size], Insert(free, 0, c);
    InsertShape(free, 0, c);
    forall k | 0 <= k < |s| ensures Header(mem', s, k) {
      if k > 0 {
        assert Header(mem, free, k - 1);
        assert s[0].addr + UNIT <= s[k].addr;
      }
    }
  }

  /** Writing the header of a new chunk, and the link to it. */
  lemma InsertLinked(head: int, mem: map<int, int>, free: seq<Chunk>, i: nat, c: Chunk)
    requires Linked(head, mem, free) && 0 < i <= |free| && Spaced(Insert(free, i, c))
    ensures var p := free[i - 1].addr;
      Linked(head, mem[c.addr := Addr(free, i)][c.addr + 4 := c.size][p := c.addr], Insert(free, i, c))
  {
    var p, s := free[i - 1].addr, Insert(free, i, c);
    var mem' := mem[c.addr := Addr(free, i)][c.addr + 4 := c.size][p := c.addr];
    InsertShape(free, i, c);
    assert s[i - 1].addr + UNIT <= s[i].addr;
    forall k | 0 <= k < |s| ensures Header(mem', s, k) {
      if k < i {
        assert Header(mem, free, k);
      } else if k > i {
        assert Header(mem, free, k - 1);
        assert s[i].addr + UNIT <= s[k].addr;
      }
    }
  }

  lemma MergeShape(free: seq<Chunk>, i: nat)
    requires i + 1 < |free| && free[i].End() == free[i + 1].addr
    ensures var s := MergeAt(free, i);
      && |s| == |free| - 1
      && s[i] == Chunk(free[i].addr, free[i].size + free[i + 1].size)
      && (forall k :: 0 <= k < i ==> s[k] == free[k])
      && (forall k :: i < k < |s| ==> s[k] == free[k + 1])
  {
    assert free[i + 1..][0] == free[i + 1];
  }

  lemma MergeLinked(head: int, mem: map<int, int>, free: seq<Chunk>, i: nat)
    requires Linked(head, mem, free) && Spaced(free) && i + 1 < |free| && free[i].End() == free[i + 1].addr
    ensures var p := free[i].addr;
      Linked(head, mem[p + 4 := free[i].size + free[i + 1].size][p := Addr(free, i + 2)], MergeAt(free, i))
  {
    var p, s := free[i].addr, MergeAt(free, i);
    var mem' := mem[p + 4 := free[i].size + free[i + 1].size][p := Addr(free, i + 2)];
    MergeShape(free, i);
    forall k | 0 <= k < |s| ensures Header(mem', s, k) {
      assert Header(mem, free, if k <= i then k else k + 1);
    }
  }

  lemma MergeAtApart(free: seq<Chunk>, i: nat)
    requires i < |free| && (i + 1 < |free| ==> free[i].End() != free[i + 1].addr)
    ensures MergeAt(free, i) == free
  {
    assert free == free[..i] + [free[i]] + free[i + 1..];
  }
}
