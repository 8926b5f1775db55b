/** Every run of allocations and matching releases on a heap that starts as one chunk. */
module HeapRuns {
  import opened FreeList

  /** The free list, and the blocks handed out and not yet returned. */
  datatype Heap = Heap(free: seq<Chunk>, live: seq<Chunk>)

  ghost predicate Disjoint(a: Chunk, b: Chunk) {
    forall x :: !(a.Holds(x) && b.Holds(x))
  }

  /** The free chunks and the live blocks tile the heap: each byte belongs to exactly one of them. */
  ghost predicate Tiled(h: Heap, lo: int, hi: int) {
    && Ordered(h.free, lo, hi)
    && (forall i :: 0 <= i < |h.live| ==> Aligned(h.live[i]))
    && (forall i, j :: 0 <= i < j < |h.live| ==> Disjoint(h.live[i], h.live[j]))
    && (forall b {:trigger Covers(h.free, b)} {:trigger Covers(h.live, b)} ::
          (lo <= b < hi <==> Covers(h.free, b) || Covers(h.live, b)) && !(Covers(h.free, b) && Covers(h.live, b)))
    && Total(h.free) + Total(h.live) == hi - lo
  }

  function Start(lo: int, hi: int): Heap {
    Heap([Chunk(lo, hi - lo)], [])
  }

  lemma StartTiled(lo: int, hi: int)
    requires lo < hi && lo % UNIT == 0 && hi % UNIT == 0
    ensures Tiled(Start(lo, hi), lo, hi)
  {
    var free := Start(lo, hi).free;
    assert free[1..] == [];
    forall b ensures Covers(free, b) <==> lo <= b < hi { assert Covers(free, b) <==> free[0].Holds(b); }
  }

  // ---------------------------------------------------------------- one step

  function Take(h: Heap, n: int): Heap {
    var (p, free) := Alloc(h.free, n);
    Heap(free, if p.Some? then h.live + [Chunk(p.value, n)] else h.live)
  }

  function Return(h: Heap, i: nat): Heap
    requires i < |h.live|
  {
    Heap(Release(h.free, h.live[i]), Without(h.live, i))
  }

  lemma {:induction false} CoversConcat(a: seq<Chunk>, b: seq<Chunk>, x: int)
    ensures Covers(a + b, x) <==> Covers(a, x) || Covers(b, x)
  {
    if a == [] {
      assert a + b == b;
    } else {
      assert (a + b)[1..] == a[1..] + b;
      CoversConcat(a[1..], b, x);
    }
  }

  lemma CoversOne(c: Chunk, x: int)
    ensures Covers([c], x) <==> c.Holds(x)
  {
    assert [c][1..] == [];
  }

  lemma {:induction false} TotalConcat(a: seq<Chunk>, b: seq<Chunk>)
    ensures Total(a + b) == Total(a) + Total(b)
  {
    if a == [] {
      assert a + b == b;
    } else {
      assert (a + b)[1..] == a[1..] + b;
      TotalConcat(a[1..], b);
    }
  }

  lemma TotalOne(c: Chunk)
    ensures Total([c]) == c.size
  {
    assert [c][1..] == [];
  }

  lemma TakeKeepsTiled(h: Heap, lo: int, hi: int, n: int)
    requires Tiled(h, lo, hi) && n > 0 && n % UNIT == 0
    ensures Tiled(Take(h, n), lo, hi)
  {
    AllocTakes(h.free, n, lo, hi);
    var (p, free) := Alloc(h.free, n);
    if p.Some? {
      var c := Chunk(p.value, n);
      TotalConcat(h.live, [c]);
      TotalOne(c);
      forall b ensures Covers(h.live + [c], b) <==> Covers(h.live, b) || c.Holds(b) {
        CoversConcat(h.live, [c], b);
        CoversOne(c, b);
      }
      forall i | 0 <= i < |h.live| ensures Disjoint(h.live[i], c) {
        forall x ensures !(h.live[i].Holds(x) && c.Holds(x)) {
          if h.live[i].Holds(x) {
            CoversAt(h.live, i, x);
            assert !Covers(h.free, x);
          }
        }
      }
    }
  }

  /** Taking a block out of a list takes exactly its bytes, because no other block shares them. */
  lemma WithoutGives(live: seq<Chunk>, i: nat)
    requires i < |live| && forall j, k :: 0 <= j < k < |live| ==> Disjoint(live[j], live[k])
    ensures Total(Without(live, i)) == Total(live) - live[i].size
    ensures forall b {:trigger Covers(live, b)} {:trigger Covers(Without(live, i), b)} ::
      (Covers(live, b) <==> Covers(Without(live, i), b) || live[i].Holds(b))
      && !(Covers(Without(live, i), b) && live[i].Holds(b))
  {
    var pre, c, post := live[..i], live[i], live[i + 1..];
    assert live == pre + [c] + post;
    TotalConcat(pre + [c], post);
    TotalConcat(pre, [c]);
    TotalConcat(pre, post);
    TotalOne(c);
    forall b
      ensures (Covers(live, b) <==> Covers(Without(live, i), b) || c.Holds(b))
        && !(Covers(Without(live, i), b) && c.Holds(b))
    {
      CoversConcat(pre + [c], post, b);
      CoversConcat(pre, [c], b);
      CoversConcat(pre, post, b);
      CoversOne(c, b);
      if Covers(pre, b) { var j := CoveredBy(pre, b); assert Disjoint(live[j], live[i]); }
      if Covers(post, b) {
        var j := CoveredBy(post, b);
        assert live[j + i + 1] == post[j] && Disjoint(live[i], live[j + i + 1]);
      }
    }
  }

  lemma {:induction false} CoveredBy(cs: seq<Chunk>, b: int) returns (i: nat)
    requires Covers(cs, b)
    ensures i < |cs| && cs[i].Holds(b)
  {
    if cs[0].Holds(b) {
      i := 0;
    } else {
      i := CoveredBy(cs[1..], b);
      i := i + 1;
    }
  }

  lemma LiveInRange(h: Heap, lo: int, hi: int, i: nat)
    requires Tiled(h, lo, hi) && i < |h.live|
    ensures lo <= h.live[i].addr && h.live[i].End() <= hi && Apart(h.free, h.live[i])
  {
    var c := h.live[i];
    CoversAt(h.live, i, c.addr);
    CoversAt(h.live, i, c.End() - 1);
    forall b | c.Holds(b) ensures !Covers(h.free, b) { CoversAt(h.live, i, b); }
  }

  lemma ReturnKeepsTiled(h: Heap, lo: int, hi: int, i: nat)
    requires Tiled(h, lo, hi) && i < |h.live|
    ensures Tiled(Return(h, i), lo, hi)
  {
    var c, live := h.live[i], Without(h.live, i);
    LiveInRange(h, lo, hi, i);
    ReleaseGives(h.free, c, lo, hi);
    WithoutGives(h.live, i);
    forall j, k | 0 <= j < k < |live| ensures Disjoint(live[j], live[k]) {
      var j', k' := if j < i then j else j + 1, if k < i then k else k + 1;
      assert live[j] == h.live[j'] && live[k] == h.live[k'];
    }
  }

  // ---------------------------------------------------------------- runs

  /** A request for some bytes, or the return of one of the live blocks. */
  datatype Op = Request(size: nat) | GiveBack(i: nat)

  function Step(h: Heap, op: Op): Heap {
    match op
    case Request(size) => Take(h, Granule(size))
    case GiveBack(i) => if i < |h.live| then Return(h, i) else h
  }

  function Run(h: Heap, ops: seq<Op>): Heap
    decreases |ops|
  {
    if ops == [] then h else Run(Step(h, ops[0]), ops[1..])
  }

  lemma {:induction false} RunKeepsTiled(h: Heap, ops: seq<Op>, lo: int, hi: int)
    requires Tiled(h, lo, hi)
    ensures Tiled(Run(h, ops), lo, hi)
    decreases |ops|
  {
    if ops != [] {
      match ops[0] {
        case Request(size) => TakeKeepsTiled(h, lo, hi, Granule(size));
        case GiveBack(i) => if i < |h.live| { ReturnKeepsTiled(h, lo, hi, i); }
      }
      RunKeepsTiled(Step(h, ops[0]), ops[1..], lo, hi);
    }
  }

  /** After any run on a fresh heap the free chunks and live blocks tile the heap; and once every
      block is back, in whatever order, the heap is the one chunk it started as. */
  lemma AnyRun(ops: seq<Op>, lo: int, hi: int)
    requires lo < hi && lo % UNIT == 0 && hi % UNIT == 0
    ensures var h := Run(Start(lo, hi), ops);
      Tiled(h, lo, hi) && (h.live == [] ==> h == Start(lo, hi))
  {
    StartTiled(lo, hi);
    RunKeepsTiled(Start(lo, hi), ops, lo, hi);
    var h := Run(Start(lo, hi), ops);
    if h.live == [] { AllReturned(h, lo, hi); }
  }

  lemma AllReturned(h: Heap, lo: int, hi: int)
    requires Tiled(h, lo, hi) && h.live == [] && lo < hi
    ensures h == Start(lo, hi)
  {
    forall b | lo <= b < hi ensures Covers(h.free, b) { assert !Covers(h.live, b); }
    WholeIsOneChunk(h.free, lo, hi);
  }
}
