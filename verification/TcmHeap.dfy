/** tcm_heap.c: the heap, its free list threaded through memory, and the size that malloc keeps in
    the first word of each block. */
module TcmHeap {
  import opened CText
  import opened FreeList
  import opened HeapRuns
  import opened TcmMemory

  const INT_MAX := 0x7fff_ffff

  /** The list head, seen as a chunk whose first word is the FreeList pointer. */
  const HEAD := -1

  /** What the size word of a live block says, for the blocks that malloc handed out. */
  ghost predicate Stored(mem: map<int, int>, stored: map<int, int>, c: Chunk) {
    c.addr in stored ==>
      Word(mem, c.addr) == stored[c.addr] && 0 <= stored[c.addr] <= INT_MAX - UNIT && Granule(stored[c.addr]) == c.size
  }

  ghost predicate AllStored(mem: map<int, int>, stored: map<int, int>, live: seq<Chunk>) {
    && (forall i :: 0 <= i < |live| ==> Stored(mem, stored, live[i]))
    && (forall a :: a in stored ==> Covers(live, a))
  }

  /** The parts of the representation agree with the abstract heap. */
  ghost predicate Holds(head: int, mem: map<int, int>, stored: map<int, int>, heap: Heap, lo: int, hi: int) {
    Tiled(heap, lo, hi) && Linked(head, mem, heap.free) && AllStored(mem, stored, heap.live)
  }

  /** Words that stay as they are outside the free list keep the sizes of the live blocks. */
  lemma StoredKept(mem: map<int, int>, mem': map<int, int>, stored: map<int, int>, heap: Heap, n: int, lo: int, hi: int)
    requires Tiled(heap, lo, hi) && n > 0 && n % UNIT == 0
    requires AllStored(mem, stored, heap.live) && Elsewhere(mem, mem', heap.free)
    ensures AllStored(mem', stored, Take(heap, n).live)
  {
    var live := Take(heap, n).live;
    AllocTakes(heap.free, n, lo, hi);
    forall i | 0 <= i < |live| ensures Stored(mem', stored, live[i]) {
      if i < |heap.live| {
        assert Stored(mem, stored, heap.live[i]);
        CoversAt(heap.live, i, heap.live[i].addr);
        assert !Covers(heap.free, heap.live[i].addr);
      } else {
        assert live[i].Holds(live[i].addr);
        assert Covers(heap.free, live[i].addr);
      }
    }
    forall a | a in stored ensures Covers(live, a) {
      if live != heap.live { CoversConcat(heap.live, live[|heap.live|..], a); }
    }
  }

  lemma CutBlock(head: int, mem: map<int, int>, stored: map<int, int>, heap: Heap, lo: int, hi: int, n: int, i: nat)
    requires 0 < lo && Holds(head, mem, stored, heap, lo, hi) && n > 0 && n % UNIT == 0
    requires i < |heap.free| && heap.free[i].size == n && forall k :: 0 <= k < i ==> heap.free[k].size < n
    ensures Alloc(heap.free, n).0 == Some(heap.free[i].addr)
    ensures var head' := if i == 0 then Addr(heap.free, 1) else head;
      var mem' := if i == 0 then mem else mem[heap.free[i - 1].addr := Addr(heap.free, i + 1)];
      Holds(head', mem', stored, Take(heap, n), lo, hi) && Elsewhere(mem, mem', heap.free)
  {
    var mem' := if i == 0 then mem else mem[heap.free[i - 1].addr := Addr(heap.free, i + 1)];
    OrderedSpaced(heap.free, lo, hi);
    TakeKeepsTiled(heap, lo, hi, n);
    AllocCuts(heap.free, n, i);
    if i == 0 {
      assert Header(mem, heap.free, 0);
      CutHead(head, mem, heap.free);
    } else {
      HeaderCovered(heap.free, lo, hi, i - 1);
      CutLinked(head, mem, heap.free, i);
    }
    StoredKept(mem, mem', stored, heap, n, lo, hi);
  }

  lemma ShrinkBlock(head: int, mem: map<int, int>, stored: map<int, int>, heap: Heap, lo: int, hi: int, n: int, i: nat)
    requires 0 < lo && Holds(head, mem, stored, heap, lo, hi) && n > 0 && n % UNIT == 0
    requires i < |heap.free| && heap.free[i].size > n && forall k :: 0 <= k < i ==> heap.free[k].size < n
    ensures Alloc(heap.free, n).0 == Some(heap.free[i].End() - n)
    ensures var mem' := mem[heap.free[i].addr + 4 := heap.free[i].size - n];
      Holds(head, mem', stored, Take(heap, n), lo, hi) && Elsewhere(mem, mem', heap.free)
  {
    OrderedSpaced(heap.free, lo, hi);
    TakeKeepsTiled(heap, lo, hi, n);
    AllocShrinks(heap.free, n, i);
    assert Header(mem, heap.free, i);
    HeaderCovered(heap.free, lo, hi, i);
    ResizeLinked(head, mem, heap.free, i, -n);
    StoredKept(mem, mem[heap.free[i].addr + 4 := heap.free[i].size - n], stored, heap, n, lo, hi);
  }

  lemma NoBlock(heap: Heap, n: int)
    requires forall k :: 0 <= k < |heap.free| ==> heap.free[k].size < n
    ensures Alloc(heap.free, n).0 == None && Take(heap, n) == heap
  {
    AllocNothing(heap.free, n);
  }

  lemma FreeAddresses(head: int, mem: map<int, int>, stored: map<int, int>, heap: Heap, lo: int, hi: int)
    requires Holds(head, mem, stored, heap, lo, hi)
    ensures forall i :: 0 <= i < |heap.free| ==> lo <= heap.free[i].addr
  {
    OrderedAt(heap.free, lo, hi);
  }

  // ---------------------------------------------------------------- release

  /** Words outside the free list and the block `c` are the same. */
  ghost predicate ElsewhereBut(mem: map<int, int>, mem': map<int, int>, free: seq<Chunk>, c: Chunk) {
    forall a :: !Covers(free, a) && !c.Holds(a) ==> Word(mem, a) == Word(mem', a)
  }

  /** Where the walk along the free list stops for the block `c`. */
  predicate StopsAt(free: seq<Chunk>, i: nat, c: Chunk) {
    && i <= |free| && (i == 0 <==> free == [] || c.addr < free[0].addr)
    && (forall k :: 0 < k < i ==> free[k].addr < c.addr) && (0 < i < |free| ==> c.addr <= free[i].addr)
  }

  lemma PlacedSpaced(free: seq<Chunk>, i: nat, c: Chunk, lo: int, hi: int)
    requires Ordered(free, lo, hi) && Aligned(c) && Apart(free, c) && StopsAt(free, i, c)
    ensures Spaced(free) && Spaced(Placed(free, i, c).0)
    ensures i > 0 ==> free[i - 1].End() <= c.addr
  {
    OrderedSpaced(free, lo, hi);
    InsertSpaced(free, i, c, lo, hi);
  }

  lemma AlignedAt(free: seq<Chunk>, lo: int, hi: int, i: nat)
    requires Ordered(free, lo, hi) && i < |free|
    ensures Aligned(free[i])
  {
    OrderedAt(free, lo, hi);
  }

  lemma BlockBehind(free: seq<Chunk>, i: nat, c: Chunk, lo: int, hi: int)
    requires Ordered(free, lo, hi) && Aligned(c) && Apart(free, c) && i < |free| && free[i].addr <= c.addr
    ensures free[i].End() <= c.addr && free[i].addr + UNIT <= c.addr
  {
    AlignedAt(free, lo, hi, i);
    hide Ordered, Covers;
    assert c.Holds(c.addr);
    NotInside(free, i, c.addr);
  }

  lemma BlockBefore(free: seq<Chunk>, i: nat, c: Chunk, lo: int, hi: int)
    requires Ordered(free, lo, hi) && Aligned(c) && Apart(free, c) && i < |free| && c.addr <= free[i].addr
    ensures c.addr + UNIT <= free[i].addr
  {
    AlignedAt(free, lo, hi, i);
    hide Ordered, Covers;
    CoversAt(free, i, free[i].addr);
    assert !c.Holds(free[i].addr);
  }

  lemma InsertSpaced(free: seq<Chunk>, i: nat, c: Chunk, lo: int, hi: int)
    requires Ordered(free, lo, hi) && Aligned(c) && Apart(free, c) && StopsAt(free, i, c)
    ensures Spaced(Insert(free, i, c))
    ensures i > 0 ==> free[i - 1].End() <= c.addr
  {
    hide Ordered, Apart, Spaced;
    OrderedSpaced(free, lo, hi);
    if i > 1 { assert free[i - 1].addr < c.addr; }
    if i > 0 { BlockBehind(free, i - 1, c, lo, hi); }
    if i < |free| { BlockBefore(free, i, c, lo, hi); }
    InsertBetween(free, i, c);
  }

  lemma InsertBetween(free: seq<Chunk>, i: nat, c: Chunk)
    requires Spaced(free) && i <= |free|
    requires (i > 0 ==> free[i - 1].addr + UNIT <= c.addr) && (i < |free| ==> c.addr + UNIT <= free[i].addr)
    ensures Spaced(Insert(free, i, c))
  {
    var s := Insert(free, i, c);
    InsertShape(free, i, c);
    forall j, k | 0 <= j < k < |s| ensures s[j].addr + UNIT <= s[k].addr {
      if k == i {
        assert j < i - 1 ==> free[j].addr + UNIT <= free[i - 1].addr;
      } else if j == i {
        assert k - 1 > i ==> free[i].addr + UNIT <= free[k - 1].addr;
      } else {
        var j', k' := if j < i then j else j - 1, if k < i then k else k - 1;
        assert free[j'].addr + UNIT <= free[k'].addr;
      }
    }
  }

  lemma NotInside(free: seq<Chunk>, i: nat, b: int)
    requires i < |free| && !Covers(free, b) && free[i].addr <= b
    ensures free[i].End() <= b
  {
    if free[i].Holds(b) { CoversAt(free, i, b); }
  }

  /** The first half of a release: the block is linked in, or its neighbour in front has grown. */
  lemma PlaceLinked(head: int, mem: map<int, int>, free: seq<Chunk>, i: nat, c: Chunk, lo: int, hi: int)
    requires Ordered(free, lo, hi) && Linked(head, mem, free) && Aligned(c) && Apart(free, c) && StopsAt(free, i, c)
    ensures var s := Placed(free, i, c).0;
      Spaced(s) &&
      if i == 0 then
        Linked(c.addr, mem[c.addr := head][c.addr + 4 := c.size], s)
      else if free[i - 1].End() == c.addr then
        Linked(head, mem[free[i - 1].addr + 4 := free[i - 1].size + c.size], s)
      else
        Linked(head, mem[c.addr := Addr(free, i)][c.addr + 4 := c.size][free[i - 1].addr := c.addr], s)
  {
    PlacedSpaced(free, i, c, lo, hi);
    if i == 0 {
      InsertHead(head, mem, free, c);
    } else if free[i - 1].End() == c.addr {
      assert Header(mem, free, i - 1);
      ResizeLinked(head, mem, free, i - 1, c.size);
    } else {
      InsertLinked(head, mem, free, i, c);
    }
  }

  /** The second half: the merge with the chunk behind. */
  lemma JoinLinked(head: int, mem: map<int, int>, s: seq<Chunk>, j: nat)
    requires Linked(head, mem, s) && Spaced(s) && j < |s|
    requires forall k :: 0 <= k < |s| ==> 0 < s[k].addr && 0 < s[k].size
    ensures Header(mem, s, j)
    ensures s[j].End() == Addr(s, j + 1) <==> j + 1 < |s| && s[j].End() == s[j + 1].addr
    ensures if j + 1 < |s| && s[j].End() == s[j + 1].addr then
        Header(mem, s, j + 1) && s[j].addr + UNIT <= s[j + 1].addr
        && Linked(head, mem[s[j].addr + 4 := s[j].size + s[j + 1].size][s[j].addr := Addr(s, j + 2)], MergeAt(s, j))
      else
        MergeAt(s, j) == s
  {
    if j + 1 < |s| && s[j].End() == s[j + 1].addr { MergeLinked(head, mem, s, j); } else { MergeAtApart(s, j); }
  }

  lemma ReturnStored(mem: map<int, int>, mem': map<int, int>, stored: map<int, int>, heap: Heap, k: nat, lo: int,
                     hi: int)
    requires Tiled(heap, lo, hi) && AllStored(mem, stored, heap.live) && k < |heap.live|
    requires ElsewhereBut(mem, mem', heap.free, heap.live[k])
    ensures AllStored(mem', stored - (set a | a in stored && heap.live[k].Holds(a)), Return(heap, k).live)
  {
    var c, live := heap.live[k], Without(heap.live, k);
    var stored' := stored - (set a | a in stored && c.Holds(a));
    WithoutGives(heap.live, k);
    forall i | 0 <= i < |live| ensures Stored(mem', stored', live[i]) {
      var i' := if i < k then i else i + 1;
      assert live[i] == heap.live[i'] && Stored(mem, stored, heap.live[i']);
      CoversAt(heap.live, i', live[i].addr);
      assert !Covers(heap.free, live[i].addr);
      CoversAt(live, i, live[i].addr);
      assert !c.Holds(live[i].addr);
    }
  }

  lemma LiveBlock(head: int, mem: map<int, int>, stored: map<int, int>, heap: Heap, k: nat, lo: int, hi: int)
    requires Holds(head, mem, stored, heap, lo, hi) && k < |heap.live|
    ensures Aligned(heap.live[k]) && lo <= heap.live[k].addr && Apart(heap.free, heap.live[k])
      && Ordered(heap.free, lo, hi)
    ensures forall i :: 0 <= i < |heap.free| ==> lo <= heap.free[i].addr
  {
    LiveInRange(heap, lo, hi, k);
    OrderedAt(heap.free, lo, hi);
  }

  lemma FreeWords(free: seq<Chunk>, lo: int, hi: int)
    requires Ordered(free, lo, hi)
    ensures forall i :: 0 <= i < |free| ==>
      lo <= free[i].addr && free[i].size > 0 && Covers(free, free[i].addr) && Covers(free, free[i].addr + 4)
  {
    OrderedAt(free, lo, hi);
    forall i | 0 <= i < |free| ensures Covers(free, free[i].addr) && Covers(free, free[i].addr + 4) {
      HeaderCovered(free, lo, hi, i);
    }
  }

  /** The word belongs to the free list or to the block. */
  predicate Inside(free: seq<Chunk>, c: Chunk, a: int) {
    Covers(free, a) || c.Holds(a)
  }

  lemma PlacedPositive(free: seq<Chunk>, i: nat, c: Chunk, lo: int, hi: int)
    requires Ordered(free, lo, hi) && 0 < lo <= c.addr && c.size >= UNIT && i <= |free|
    ensures var (s, j) := Placed(free, i, c);
      && (forall k :: 0 <= k < |s| ==> 0 < s[k].addr && 0 < s[k].size)
      && Inside(free, c, s[j].addr) && Inside(free, c, s[j].addr + 4)
  {
    FreeWords(free, lo, hi);
    InsertShape(free, i, c);
  }

  // ---------------------------------------------------------------- sizes

  lemma BlockNotNull(heap: Heap, n: int, lo: int, hi: int)
    requires Tiled(heap, lo, hi) && 0 < lo && n > 0 && n % UNIT == 0
    ensures Alloc(heap.free, n).0.Some? ==> lo <= Alloc(heap.free, n).0.value
    ensures Alloc(heap.free, n).0.Some? ==> Take(heap, n).live == heap.live + [Chunk(Alloc(heap.free, n).0.value, n)]
  {
    AllocTakes(heap.free, n, lo, hi);
  }

  /** Storing a word of a live block leaves the free list alone. */
  lemma LiveWordLinked(head: int, mem: map<int, int>, heap: Heap, lo: int, hi: int, k: nat, a: int, v: int)
    requires Tiled(heap, lo, hi) && Linked(head, mem, heap.free) && k < |heap.live| && heap.live[k].Holds(a)
    ensures Linked(head, mem[a := v], heap.free)
  {
    CoversAt(heap.live, k, a);
    assert !Covers(heap.free, a);
    FreeWords(heap.free, lo, hi);
    var mem' := mem[a := v];
    forall i | 0 <= i < |heap.free| ensures Header(mem', heap.free, i) { assert Header(mem, heap.free, i); }
  }

  lemma OtherBlock(heap: Heap, lo: int, hi: int, k: nat, i: nat, a: int)
    requires Tiled(heap, lo, hi) && k < |heap.live| && i < |heap.live| && i != k && heap.live[k].Holds(a)
    ensures heap.live[i].addr != a
  {
    assert heap.live[i].Holds(heap.live[i].addr);
    if i < k { assert Disjoint(heap.live[i], heap.live[k]); } else { assert Disjoint(heap.live[k], heap.live[i]); }
  }

  lemma StoreKeeps(head: int, mem: map<int, int>, stored: map<int, int>, heap: Heap, lo: int, hi: int, k: nat, a: int,
                   v: int)
    requires Holds(head, mem, stored, heap, lo, hi) && k < |heap.live| && heap.live[k].addr < a < heap.live[k].End()
    ensures Holds(head, mem[a := v], stored, heap, lo, hi)
  {
    LiveWordLinked(head, mem, heap, lo, hi, k, a, v);
    forall i | 0 <= i < |heap.live| ensures Stored(mem[a := v], stored, heap.live[i]) {
      assert Stored(mem, stored, heap.live[i]);
      if i != k { OtherBlock(heap, lo, hi, k, i, a); }
    }
  }

  /** Writing the size word of the newest block. */
  lemma SizeKept(head: int, mem: map<int, int>, stored: map<int, int>, heap: Heap, lo: int, hi: int, n: int)
    requires Holds(head, mem, stored, heap, lo, hi) && heap.live != []
    requires 0 <= n <= INT_MAX - UNIT && heap.live[|heap.live| - 1].size == Granule(n)
    ensures var a := heap.live[|heap.live| - 1].addr;
      Holds(head, mem[a := n], stored[a := n], heap, lo, hi)
  {
    var k := |heap.live| - 1;
    var a := heap.live[k].addr;
    var mem', stored' := mem[a := n], stored[a := n];
    LiveWordLinked(head, mem, heap, lo, hi, k, a, n);
    forall i | 0 <= i < |heap.live| ensures Stored(mem', stored', heap.live[i]) {
      assert Stored(mem, stored, heap.live[i]);
      if i != k { OtherBlock(heap, lo, hi, k, i, a); }
    }
    CoversAt(heap.live, k, a);
  }

  class Tcm {
    const lo: int
    const hi: int

    var freeList: int
    var mem: map<int, int>

    /** The abstract state: the free chunks in list order, the live blocks in allocation order,
        and the sizes that malloc stored. */
    ghost var heap: Heap
    ghost var stored: map<int, int>

    ghost predicate Valid()
      reads this
    {
      && 0 < lo < hi <= INT_MAX && lo % UNIT == 0 && hi % UNIT == 0
      && Holds(freeList, mem, stored, heap, lo, hi)
    }

    /** tcm_heap_init. */
    constructor (lo: int, hi: int)
      requires 0 < lo < hi <= INT_MAX && lo % UNIT == 0 && hi % UNIT == 0
      ensures Valid() && this.lo == lo && this.hi == hi
      ensures heap == Start(lo, hi)
    {
      this.lo, this.hi := lo, hi;
      freeList := lo;
      mem := map[lo := NULL, lo + 4 := hi - lo];
      heap, stored := Start(lo, hi), map[];
      StartTiled(lo, hi);
    }

    /** tcm_heap_allocmem: a null pointer, or the start of a block cut from the first chunk that
        is big enough. */
    method AllocMem(size: int) returns (p: int)
      requires Valid() && 0 <= size <= INT_MAX - UNIT
      modifies this
      ensures Valid() && stored == old(stored)
      ensures heap == Take(old(heap), Granule(size))
      ensures p == match Alloc(old(heap.free), Granule(size)).0 case Some(a) => a case None => NULL
      ensures Elsewhere(old(mem), mem, old(heap.free))
    {
      hide Tiled, AllStored;
      var n := (size + (UNIT - 1)) / UNIT * UNIT;
      if n == 0 {
        n := UNIT;
      }
      var prev, chunk := HEAD, freeList;
      ghost var i, free := 0, heap.free;
      FreeAddresses(freeList, mem, stored, heap, lo, hi);
      while chunk != NULL && Word(mem, chunk + 4) < n
        invariant i <= |free| && chunk == Addr(free, i)
        invariant prev == if i == 0 then HEAD else free[i - 1].addr
        invariant forall k :: 0 <= k < i ==> free[k].size < n
        decreases |free| - i
      {
        assert Header(mem, free, i);
        prev, chunk, i := chunk, Word(mem, chunk), i + 1;
      }
      if chunk == NULL {
        NoBlock(heap, n);
        return NULL;
      }
      assert Header(mem, free, i);
      if Word(mem, chunk + 4) == n {
        CutBlock(freeList, mem, stored, heap, lo, hi, n, i);
        if prev == HEAD {
          freeList := Word(mem, chunk);
        } else {
          mem := mem[prev := Word(mem, chunk)];
        }
        p := chunk;
      } else {
        ShrinkBlock(freeList, mem, stored, heap, lo, hi, n, i);
        mem := mem[chunk + 4 := Word(mem, chunk + 4) - n];
        p := chunk + Word(mem, chunk + 4);
      }
      heap := Take(heap, n);
    }

    /** The first half of tcm_heap_freemem: the block is linked into the list, or the chunk in
        front of it grows. */
    method Place(p: int, n: int) returns (prev: int, ghost i: nat)
      requires Linked(freeList, mem, heap.free) && Ordered(heap.free, lo, hi) && 0 < lo
      requires Aligned(Chunk(p, n)) && Apart(heap.free, Chunk(p, n))
      modifies this`freeList, this`mem
      ensures StopsAt(heap.free, i, Chunk(p, n))
      ensures var (s, j) := Placed(heap.free, i, Chunk(p, n));
        Linked(freeList, mem, s) && Spaced(s) && prev == s[j].addr
      ensures ElsewhereBut(old(mem), mem, heap.free, Chunk(p, n))
    {
      hide Ordered, Apart;
      ghost var c, free := Chunk(p, n), heap.free;
      FreeWords(free, lo, hi);
      i := 0;
      if p < freeList || freeList == NULL {
        PlaceLinked(freeList, mem, free, i, c, lo, hi);
        mem := mem[p := freeList][p + 4 := n];
        freeList := p;
        prev := p;
      } else {
        prev, i := freeList, 1;
        assert Header(mem, free, 0);
        while Word(mem, prev) < p && Word(mem, prev) != NULL
          invariant 0 < i <= |free| && prev == free[i - 1].addr && Header(mem, free, i - 1)
          invariant forall k :: 0 < k < i ==> free[k].addr < p
          decreases |free| - i
        {
          assert Header(mem, free, i);
          prev, i := Word(mem, prev), i + 1;
        }
        PlaceLinked(freeList, mem, free, i, c, lo, hi);
        if prev + Word(mem, prev + 4) == p {
          mem := mem[prev + 4 := Word(mem, prev + 4) + n];
        } else {
          mem := mem[p := Word(mem, prev)][p + 4 := n][prev := p];
          prev := p;
        }
      }
    }

    /** The second half: the chunk at `prev` takes in the one behind it if they touch. */
    method Join(prev: int, ghost s: seq<Chunk>, ghost j: nat)
      requires Linked(freeList, mem, s) && Spaced(s) && j < |s| && prev == s[j].addr
      requires forall k :: 0 <= k < |s| ==> 0 < s[k].addr && 0 < s[k].size
      modifies this`mem
      ensures Linked(freeList, mem, MergeAt(s, j))
      ensures forall a :: a != prev && a != prev + 4 ==> Word(mem, a) == Word(old(mem), a)
    {
      hide MergeAt, Spaced, Linked;
      JoinLinked(freeList, mem, s, j);
      if prev + Word(mem, prev + 4) == Word(mem, prev) {
        var next := Word(mem, prev);
        mem := mem[prev + 4 := Word(mem, prev + 4) + Word(mem, next + 4)];
        mem := mem[prev := Word(mem, next)];
      }
    }

    /** tcm_heap_freemem: the block goes back into the list, merged with the chunks it touches. */
    method FreeMem(p: int, size: int, ghost k: nat)
      requires Valid() && 0 <= size <= INT_MAX - UNIT
      requires k < |heap.live| && heap.live[k] == Chunk(p, Granule(size))
      modifies this
      ensures Valid() && heap == Return(old(heap), k)
      ensures stored == old(stored) - (set a | a in old(stored) && old(heap).live[k].Holds(a))
      ensures ElsewhereBut(old(mem), mem, old(heap.free), old(heap).live[k])
    {
      hide Tiled, AllStored, Release, Covers, Placed, MergeAt;
      var n := (size + (UNIT - 1)) / UNIT * UNIT;
      if n == 0 {
        n := UNIT;
      }
      ghost var c, free := heap.live[k], heap.free;
      LiveBlock(freeList, mem, stored, heap, k, lo, hi);
      ghost var i: nat;
      var prev: int;
      prev, i := Place(p, n);
      ghost var (s, j) := Placed(free, i, c);
      PlacedPositive(free, i, c, lo, hi);
      Join(prev, s, j);
      ReleasePlaces(free, i, c);
      ReturnKeepsTiled(heap, lo, hi, k);
      ReturnStored(old(mem), mem, stored, heap, k, lo, hi);
      heap, stored := Return(heap, k), stored - (set a | a in stored && c.Holds(a));
    }

    /** tcm_heap_freeSpace: the free bytes, which are the heap less the live blocks. */
    method FreeSpace() returns (space: int)
      requires Valid()
      ensures space == Total(heap.free) == (hi - lo) - Total(heap.live)
    {
      hide Ordered;
      space := 0;
      var chunk := freeList;
      ghost var i := 0;
      FreeAddresses(freeList, mem, stored, heap, lo, hi);
      assert heap.free[0..] == heap.free;
      while chunk != NULL
        invariant i <= |heap.free| && chunk == Addr(heap.free, i)
        invariant space + Total(heap.free[i..]) == Total(heap.free)
        decreases |heap.free| - i
      {
        assert Header(mem, heap.free, i);
        assert heap.free[i..][1..] == heap.free[i + 1..];
        space := space + Word(mem, chunk + 4);
        chunk, i := Word(mem, chunk), i + 1;
      }
      assert heap.free[i..] == [];
    }

    /** tcm_heap_malloc: a block with room for the size word in front, or a null pointer. */
    method Malloc(size: int) returns (p: int)
      requires Valid() && 0 <= size <= INT_MAX - UNIT - 4
      modifies this
      ensures Valid() && heap == Take(old(heap), Granule(size + 4))
      ensures var a := Alloc(old(heap.free), Granule(size + 4)).0;
        if a.None? then p == NULL && stored == old(stored)
        else p == a.value + 4 && stored == old(stored)[a.value := size + 4]
    {
      var n := size + 4;
      var block := AllocMem(n);
      hide Tiled;
      if block == NULL {
        BlockNotNull(old(heap), Granule(n), lo, hi);
        return NULL;
      }
      BlockNotNull(old(heap), Granule(n), lo, hi);
      SizeKept(freeList, mem, stored, heap, lo, hi, n);
      mem, stored := mem[block := n], stored[block := n];
      p := block + 4;
    }

    /** tcm_heap_free: nothing for a null pointer; otherwise the block whose size malloc kept in
        front of `p` goes back whole. */
    method Free(p: int, ghost k: nat)
      requires Valid()
      requires p != NULL ==> k < |heap.live| && heap.live[k].addr == p - 4 && p - 4 in stored
      modifies this
      ensures Valid() && heap == if p == NULL then old(heap) else Return(old(heap), k)
    {
      if p != NULL {
        var block := p - 4;
        assert Stored(mem, stored, heap.live[k]);
        FreeMem(block, Word(mem, block), k);
      }
    }

    /** A caller writes a word of its own block, behind the size word. */
    method Store(a: int, v: int, ghost k: nat)
      requires Valid() && k < |heap.live| && heap.live[k].addr < a < heap.live[k].End()
      modifies this`mem
      ensures Valid() && Word(mem, a) == v
    {
      hide Tiled;
      StoreKeeps(freeList, mem, stored, heap, lo, hi, k, a, v);
      mem := mem[a := v];
    }
  }
}
