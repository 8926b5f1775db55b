/** The free list of tcm_heap.c as a sequence of chunks in address order, with the first fit and
    the coalescing release as functions on it. */
module FreeList {
  import opened CText

  datatype Chunk = Chunk(addr: int, size: int) {
    function End(): int { addr + size }

    predicate Holds(b: int) { addr <= b < End() }
  }

  /** The chunks without the one at `i`. */
  function Without(cs: seq<Chunk>, i: nat): seq<Chunk>
    requires i < |cs|
  {
    cs[..i] + cs[i + 1..]
  }

  /** sizeof(MemChunk): a pointer and an int of four bytes each. */
  const UNIT := 8

  /** The size a request takes: rounded up to the unit, and never nothing. */
  function Granule(size: nat): (n: nat)
    ensures n >= size && n > 0 && n % UNIT == 0
    ensures n < size + UNIT || n == UNIT
  {
    var r := (size + (UNIT - 1)) / UNIT * UNIT;
    if r == 0 then UNIT else r
  }

  // ---------------------------------------------------------------- the operations

  /** The first chunk that is big enough gives its end, or all of it. */
  function Alloc(free: seq<Chunk>, n: int): (Option<int>, seq<Chunk>) {
    if free == [] then (None, [])
    else if free[0].size == n then (Some(free[0].addr), free[1..])
    else if free[0].size > n then (Some(free[0].End() - n), [Chunk(free[0].addr, free[0].size - n)] + free[1..])
    else
      var (p, rest) := Alloc(free[1..], n);
      (p, [free[0]] + rest)
  }

  function MergeNext(c: Chunk, rest: seq<Chunk>): seq<Chunk> {
    if rest != [] && c.End() == rest[0].addr then [Chunk(c.addr, c.size + rest[0].size)] + rest[1..] else [c] + rest
  }

  /** The list with the block `c` back in its place, merged with the chunks it touches. */
  function Release(free: seq<Chunk>, c: Chunk): seq<Chunk> {
    if free == [] || c.addr < free[0].addr then MergeNext(c, free) else ReleaseAfter(free, c)
  }

  function ReleaseAfter(free: seq<Chunk>, c: Chunk): seq<Chunk>
    requires free != []
  {
    if |free| > 1 && free[1].addr < c.addr then [free[0]] + ReleaseAfter(free[1..], c)
    else if free[0].End() == c.addr then MergeNext(Chunk(free[0].addr, free[0].size + c.size), free[1..])
    else [free[0]] + MergeNext(c, free[1..])
  }

  // ---------------------------------------------------------------- the shape of the list

  predicate Aligned(c: Chunk) {
    c.addr % UNIT == 0 && c.size % UNIT == 0 && c.size > 0
  }

  /** Chunks in strict address order, with a gap between any two, inside `lo..hi`. */
  predicate Ordered(free: seq<Chunk>, lo: int, hi: int) {
    free != [] ==>
      && Aligned(free[0]) && lo <= free[0].addr && free[0].End() <= hi
      && Ordered(free[1..], free[0].End() + 1, hi)
  }

  predicate Covers(cs: seq<Chunk>, b: int) {
    cs != [] && (cs[0].Holds(b) || Covers(cs[1..], b))
  }

  function Total(cs: seq<Chunk>): int {
    if cs == [] then 0 else cs[0].size + Total(cs[1..])
  }

  lemma {:induction false} OrderedAt(free: seq<Chunk>, lo: int, hi: int)
    requires Ordered(free, lo, hi)
    ensures forall i :: 0 <= i < |free| ==> Aligned(free[i]) && lo <= free[i].addr && free[i].End() <= hi
    ensures forall i, j :: 0 <= i < j < |free| ==> free[i].End() < free[j].addr
  {
    if free != [] {
      OrderedAt(free[1..], free[0].End() + 1, hi);
      forall i | 0 <= i < |free| ensures Aligned(free[i]) && lo <= free[i].addr && free[i].End() <= hi {
        if i > 0 { assert free[i] == free[1..][i - 1]; }
      }
      forall i, j | 0 <= i < j < |free| ensures free[i].End() < free[j].addr {
        assert free[j] == free[1..][j - 1];
        if i > 0 { assert free[i] == free[1..][i - 1]; }
      }
    }
  }

  lemma OrderedLower(free: seq<Chunk>, lo: int, lo': int, hi: int)
    requires Ordered(free, lo, hi) && (free != [] ==> lo' <= free[0].addr)
    ensures Ordered(free, lo', hi)
  {}

  lemma {:induction false} CoveredRange(free: seq<Chunk>, lo: int, hi: int, b: int)
    requires Ordered(free, lo, hi) && Covers(free, b)
    ensures lo <= b < hi
  {
    if !free[0].Holds(b) { CoveredRange(free[1..], free[0].End() + 1, hi, b); }
  }

  // ---------------------------------------------------------------- allocation

  /** An allocation left the list in order, and took exactly the bytes of one block out of it. */
  ghost predicate Took(free: seq<Chunk>, n: int, p: Option<int>, s: seq<Chunk>, lo: int, hi: int) {
    && Ordered(s, lo, hi)
    && (p.None? ==> s == free)
    && (p.Some? ==>
        && Total(s) == Total(free) - n
        && Aligned(Chunk(p.value, n)) && lo <= p.value && p.value + n <= hi
        && (forall b {:trigger Covers(s, b)} {:trigger Covers(free, b)} ::
              (Covers(free, b) <==> Covers(s, b) || Chunk(p.value, n).Holds(b))
              && !(Covers(s, b) && Chunk(p.value, n).Holds(b))))
  }

  lemma TookFirst(free: seq<Chunk>, n: int, lo: int, hi: int)
    requires Ordered(free, lo, hi) && n > 0 && n % UNIT == 0 && free != [] && free[0].size >= n
    ensures var (p, s) := Alloc(free, n);
      Took(free, n, p, s, lo, hi)
  {
    var (p, s) := Alloc(free, n);
    forall b ensures Covers(free[1..], b) ==> b > free[0].End() {
      if Covers(free[1..], b) { CoveredRange(free[1..], free[0].End() + 1, hi, b); }
    }
    if free[0].size == n {
      OrderedLower(s, free[0].End() + 1, lo, hi);
    } else {
      assert s[1..] == free[1..];
      OrderedLower(s[1..], free[0].End() + 1, s[0].End() + 1, hi);
    }
  }

  lemma TookLater(free: seq<Chunk>, n: int, p: Option<int>, s: seq<Chunk>, lo: int, hi: int)
    requires Ordered(free, lo, hi) && free != [] && Took(free[1..], n, p, s, free[0].End() + 1, hi)
    ensures Took(free, n, p, [free[0]] + s, lo, hi)
  {
    var s' := [free[0]] + s;
    assert s'[1..] == s && [free[0]] + free[1..] == free;
  }

  /** Giving a block away keeps the order, takes exactly the bytes of the block out of the list,
      and makes the list smaller by the size of the block. */
  lemma {:induction false} AllocTakes(free: seq<Chunk>, n: int, lo: int, hi: int)
    requires Ordered(free, lo, hi) && n > 0 && n % UNIT == 0
    ensures var (p, s) := Alloc(free, n);
      Took(free, n, p, s, lo, hi)
  {
    if free != [] {
      if free[0].size >= n {
        TookFirst(free, n, lo, hi);
      } else {
        hide Took;
        AllocTakes(free[1..], n, free[0].End() + 1, hi);
        TookLater(free, n, Alloc(free[1..], n).0, Alloc(free[1..], n).1, lo, hi);
      }
    }
  }

  ghost predicate RunFree(free: seq<Chunk>, a: int, n: int) {
    forall b :: a <= b < a + n ==> Covers(free, b)
  }

  /** A run of free bytes lies inside one chunk. */
  lemma {:induction false} RunInOneChunk(free: seq<Chunk>, lo: int, hi: int, a: int, n: int)
    requires Ordered(free, lo, hi) && n > 0 && RunFree(free, a, n)
    ensures exists i :: 0 <= i < |free| && free[i].size >= n
  {
    assert Covers(free, a);
    if free[0].Holds(a) {
      var e := free[0].End();
      if e < a + n {
        assert Covers(free, e);
        CoveredRange(free[1..], e + 1, hi, e);
      }
    } else {
      CoveredRange(free[1..], free[0].End() + 1, hi, a);
      forall b | a <= b < a + n ensures Covers(free[1..], b) { assert Covers(free, b); }
      RunInOneChunk(free[1..], free[0].End() + 1, hi, a, n);
      var i :| 0 <= i < |free[1..]| && free[1..][i].size >= n;
      assert free[i + 1].size >= n;
    }
  }

  lemma {:induction false} AllocSome(free: seq<Chunk>, n: int)
    ensures Alloc(free, n).0.Some? <==> exists i :: 0 <= i < |free| && free[i].size >= n
  {
    if free != [] {
      AllocSome(free[1..], n);
      if i :| 0 <= i < |free[1..]| && free[1..][i].size >= n { assert free[i + 1].size >= n; }
      if i :| 0 < i < |free| && free[i].size >= n { assert free[1..][i - 1].size >= n; }
    }
  }

  lemma {:induction false} CoversAt(free: seq<Chunk>, i: nat, b: int)
    requires i < |free| && free[i].Holds(b)
    ensures Covers(free, b)
  {
    if i > 0 { CoversAt(free[1..], i - 1, b); }
  }

  /** A request fails exactly when no contiguous run of free bytes is long enough for it. */
  lemma AllocFailsIff(free: seq<Chunk>, lo: int, hi: int, n: int)
    requires Ordered(free, lo, hi) && n > 0
    ensures Alloc(free, n).0.None? <==> !exists a :: RunFree(free, a, n)
  {
    AllocSome(free, n);
    if i :| 0 <= i < |free| && free[i].size >= n {
      assert RunFree(free, free[i].addr, n) by {
        forall b | free[i].addr <= b < free[i].addr + n ensures Covers(free, b) { CoversAt(free, i, b); }
      }
    }
    forall a | RunFree(free, a, n) ensures Alloc(free, n).0.Some? { RunInOneChunk(free, lo, hi, a, n); }
  }

  /** The list with the end of chunk `i` given away. */
  function Shortened(free: seq<Chunk>, n: int, i: nat): seq<Chunk>
    requires i < |free|
  {
    var c := free[i];
    if c.size == n then Without(free, i) else free[i := Chunk(c.addr, c.size - n)]
  }

  /** Which block is given away: the end of the first chunk that is long enough. The other chunks stay as
      they are, and that one keeps its front, if there is any. */
  lemma {:induction false} FirstFit(free: seq<Chunk>, n: int, i: nat)
    requires i < |free| && free[i].size >= n && forall k :: 0 <= k < i ==> free[k].size < n
    ensures Alloc(free, n) == (Some(free[i].End() - n), Shortened(free, n, i))
  {
    hide Shortened;
    if i == 0 {
      FitsInFirst(free, n);
    } else {
      hide Alloc;
      FirstFit(free[1..], n, i - 1);
      ShortenedLater(free, n, i);
      PassedOver(free, n);
    }
  }

  lemma PassedOver(free: seq<Chunk>, n: int)
    requires free != [] && free[0].size < n
    ensures Alloc(free, n) == (Alloc(free[1..], n).0, [free[0]] + Alloc(free[1..], n).1)
  {}

  lemma FitsInFirst(free: seq<Chunk>, n: int)
    requires free != [] && free[0].size >= n
    ensures Alloc(free, n) == (Some(free[0].End() - n), Shortened(free, n, 0))
  {
    var c := Chunk(free[0].addr, free[0].size - n);
    assert free[..0] + free[1..] == free[1..] && free[0 := c] == [c] + free[1..];
  }

  lemma ShortenedLater(free: seq<Chunk>, n: int, i: nat)
    requires 0 < i < |free|
    ensures Shortened(free, n, i) == [free[0]] + Shortened(free[1..], n, i - 1)
  {
    var c, rest := free[i], free[1..];
    assert rest[i - 1] == c && free == [free[0]] + rest;
    if c.size == n {
      assert free[..i] == [free[0]] + rest[..i - 1] && free[i + 1..] == rest[i..];
    } else {
      assert free[i := Chunk(c.addr, c.size - n)] == [free[0]] + rest[i - 1 := Chunk(c.addr, c.size - n)];
    }
  }

  // ---------------------------------------------------------------- release

  lemma MergeKeeps(c: Chunk, rest: seq<Chunk>, lo: int, hi: int)
    requires Aligned(c) && lo <= c.addr && c.End() <= hi && Ordered(rest, c.End(), hi)
    ensures var s := MergeNext(c, rest);
      && Ordered(s, lo, hi) && s[0].addr == c.addr
      && Total(s) == c.size + Total(rest)
      && (forall b {:trigger Covers(s, b)} :: Covers(s, b) <==> c.Holds(b) || Covers(rest, b))
  {
    var s := MergeNext(c, rest);
    if rest != [] && c.End() == rest[0].addr {
      assert s[1..] == rest[1..];
    } else {
      assert s[1..] == rest;
    }
  }

  /** No chunk of the list shares a byte with `c`. */
  ghost predicate Apart(free: seq<Chunk>, c: Chunk) {
    forall b :: c.Holds(b) ==> !Covers(free, b)
  }

  lemma ApartBehind(free: seq<Chunk>, c: Chunk, lo: int, hi: int)
    requires free != [] && Ordered(free, lo, hi) && c.size > 0 && Apart(free, c)
    ensures c.addr < free[0].addr ==> c.End() <= free[0].addr
    ensures c.addr >= free[0].addr ==> c.addr >= free[0].End()
    ensures Apart(free[1..], c)
  {
    assert free[0].Holds(free[0].addr) && Covers(free, free[0].addr);
    assert c.Holds(c.addr);
    forall b | c.Holds(b) ensures !Covers(free[1..], b) { assert !Covers(free, b); }
  }

  lemma {:induction false} ReleaseAfterGives(free: seq<Chunk>, c: Chunk, lo: int, hi: int)
    requires Ordered(free, lo, hi) && Aligned(c) && c.End() <= hi && Apart(free, c)
    requires free != [] && free[0].addr <= c.addr
    ensures var s := ReleaseAfter(free, c);
      && Ordered(s, lo, hi) && s != [] && s[0].addr == free[0].addr
      && Total(s) == Total(free) + c.size
      && (forall b {:trigger Covers(s, b)} :: Covers(s, b) <==> c.Holds(b) || Covers(free, b))
  {
    var s, f, rest := ReleaseAfter(free, c), free[0], free[1..];
    ApartBehind(free, c, lo, hi);
    if rest != [] { ApartBehind(rest, c, f.End() + 1, hi); }
    if rest != [] && rest[0].addr < c.addr {
      ReleaseAfterGives(rest, c, f.End() + 1, hi);
      assert s[1..] == ReleaseAfter(rest, c);
    } else {
      OrderedLower(rest, f.End() + 1, c.End(), hi);
      if f.End() == c.addr {
        MergeKeeps(Chunk(f.addr, f.size + c.size), rest, lo, hi);
      } else {
        MergeKeeps(c, rest, f.End() + 1, hi);
        assert s[1..] == MergeNext(c, rest);
      }
    }
  }

  /** Giving a block back keeps the order and the gaps, adds exactly the bytes of the block, and
      makes the list larger by its size. */
  lemma ReleaseGives(free: seq<Chunk>, c: Chunk, lo: int, hi: int)
    requires Ordered(free, lo, hi) && Aligned(c) && lo <= c.addr && c.End() <= hi && Apart(free, c)
    ensures var s := Release(free, c);
      && Ordered(s, lo, hi)
      && Total(s) == Total(free) + c.size
      && (forall b {:trigger Covers(s, b)} :: Covers(s, b) <==> c.Holds(b) || Covers(free, b))
  {
    if free == [] || c.addr < free[0].addr {
      if free != [] { ApartBehind(free, c, lo, hi); }
      OrderedLower(free, lo, c.End(), hi);
      MergeKeeps(c, free, lo, hi);
    } else {
      ReleaseAfterGives(free, c, lo, hi);
    }
  }

  /** A list that covers everything is one chunk. */
  lemma WholeIsOneChunk(free: seq<Chunk>, lo: int, hi: int)
    requires Ordered(free, lo, hi) && lo < hi && RunFree(free, lo, hi - lo)
    ensures free == [Chunk(lo, hi - lo)]
  {
    assert Covers(free, lo);
    if !free[0].Holds(lo) { CoveredRange(free[1..], free[0].End() + 1, hi, lo); }
    var e := free[0].End();
    if e < hi {
      assert Covers(free, e);
      CoveredRange(free[1..], e + 1, hi, e);
    }
    assert free[1..] == [];
  }
}
