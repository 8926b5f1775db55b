/** The receive ring of uart_socket.c: the interrupt handler stores a byte, the task reads; each of
    the two is one step. */
module UartRing {

  const LEN := 1024

  // ---------------------------------------------------------------- runs

  /** What has come in, how much of its end is unread, the slot that is written next, and the
      positions in the input of the bytes handed to the reader, in the order of the reads. */
  datatype Ring = Ring(received: seq<bv8>, unread: nat, slot: nat, log: seq<nat>)

  datatype Event = Arrives(b: bv8) | Reads(size: nat)

  function Min(a: nat, b: nat): nat { if a < b then a else b }

  /** A byte that finds room is added. A byte that finds the ring full pushes out the oldest one,
      except in the last slot, where it pushes out all of them. */
  function Arrive(r: Ring, b: bv8): Ring {
    var unread := if r.unread < LEN then r.unread + 1 else if r.slot == LEN - 1 then 1 else LEN;
    Ring(r.received + [b], unread, (r.slot + 1) % LEN, r.log)
  }

  function Indices(from: nat, n: nat): (s: seq<nat>)
    ensures |s| == n && forall i :: 0 <= i < n ==> s[i] == from + i
  {
    seq(n, i requires i >= 0 => from + i)
  }

  function Take(r: Ring, size: nat): Ring
    requires r.unread <= |r.received|
  {
    var n := Min(size, r.unread);
    r.(unread := r.unread - n, log := r.log + Indices(|r.received| - r.unread, n))
  }

  predicate Bounded(r: Ring) {
    r.unread <= LEN && r.unread <= |r.received| && r.slot < LEN
  }

  function Step(r: Ring, e: Event): (r': Ring)
    requires Bounded(r)
    ensures Bounded(r')
  {
    match e
    case Arrives(b) => Arrive(r, b)
    case Reads(size) => Take(r, size)
  }

  function Run(r: Ring, es: seq<Event>): (r': Ring)
    requires Bounded(r)
    ensures Bounded(r')
    decreases |es|
  {
    if es == [] then r else Run(Step(r, es[0]), es[1..])
  }

  const EMPTY := Ring([], 0, 0, [])

  /** Bytes are handed out in the order they came, none twice, and none that is still unread. */
  predicate InOrder(r: Ring)
    requires Bounded(r)
  {
    && (forall i, j :: 0 <= i < j < |r.log| ==> r.log[i] < r.log[j])
    && (forall i :: 0 <= i < |r.log| ==> r.log[i] < |r.received| - r.unread)
  }

  lemma {:induction false} RunsInOrder(r: Ring, es: seq<Event>)
    requires Bounded(r) && InOrder(r)
    ensures InOrder(Run(r, es))
    decreases |es|
  {
    if es != [] { RunsInOrder(Step(r, es[0]), es[1..]); }
  }

  /** No byte of the run arrives at a full ring. */
  predicate NeverFull(r: Ring, es: seq<Event>)
    requires Bounded(r)
    decreases |es|
  {
    es != [] ==> (es[0].Arrives? ==> r.unread < LEN) && NeverFull(Step(r, es[0]), es[1..])
  }

  /** Nothing has been dropped: the bytes handed out are all those before the unread ones. */
  predicate Complete(r: Ring)
    requires Bounded(r)
  {
    r.log == Indices(0, |r.received| - r.unread)
  }

  /** A run drops a byte only if one arrives at a full ring. */
  lemma {:induction false} DropsOnlyWhenFull(r: Ring, es: seq<Event>)
    requires Bounded(r) && Complete(r) && NeverFull(r, es)
    ensures Complete(Run(r, es))
    decreases |es|
  {
    if es != [] {
      var r' := Step(r, es[0]);
      assert Complete(r');
      DropsOnlyWhenFull(r', es[1..]);
    }
  }

  /** The unread end of the input. */
  function Pending(r: Ring): (u: seq<bv8>)
    requires Bounded(r)
    ensures |u| == r.unread
  {
    r.received[|r.received| - r.unread..]
  }

  /** The bytes that are neither unread nor handed out. */
  function Missing(r: Ring): int {
    |r.received| - r.unread - |r.log|
  }

  /** What an event costs: nothing, or one byte when one arrives at a full ring, or the whole ring when
      it arrives in the last slot. */
  function Lost(r: Ring, e: Event): nat {
    if e.Reads? || r.unread < LEN then 0 else if r.slot == LEN - 1 then LEN else 1
  }

  function LostOver(r: Ring, es: seq<Event>): nat
    requires Bounded(r)
    decreases |es|
  {
    if es == [] then 0 else Lost(r, es[0]) + LostOver(Step(r, es[0]), es[1..])
  }

  /** A byte at a full ring costs the oldest unread byte, or all 1024 of them in the last slot; the
      others stay unread, in order, with the new one behind them. */
  lemma FullDrops(r: Ring, b: bv8)
    requires Bounded(r) && r.unread == LEN
    ensures var lost := if r.slot == LEN - 1 then LEN else 1;
      Pending(Arrive(r, b)) == Pending(r)[lost..] + [b] && Missing(Arrive(r, b)) == Missing(r) + lost
  {
    var n := |r.received|;
    var lost := if r.slot == LEN - 1 then LEN else 1;
    assert (r.received + [b])[n - LEN + lost..] == r.received[n - LEN + lost..] + [b];
    assert Pending(r)[lost..] == r.received[n - LEN + lost..];
  }

  /** Nothing else is lost. */
  lemma {:induction false} MissingIsLost(r: Ring, es: seq<Event>)
    requires Bounded(r)
    ensures Missing(Run(r, es)) == Missing(r) + LostOver(r, es)
    decreases |es|
  {
    if es != [] { MissingIsLost(Step(r, es[0]), es[1..]); }
  }

  lemma {:induction false} LossIffFull(r: Ring, es: seq<Event>)
    requires Bounded(r)
    ensures LostOver(r, es) == 0 <==> NeverFull(r, es)
    decreases |es|
  {
    if es != [] { LossIffFull(Step(r, es[0]), es[1..]); }
  }

  /** The bytes that arrive in a run. */
  function Arrived(es: seq<Event>): seq<bv8> {
    if es == [] then [] else (match es[0] case Arrives(b) => [b] case Reads(_) => []) + Arrived(es[1..])
  }

  lemma {:induction false} ReceivesArrived(r: Ring, es: seq<Event>)
    requires Bounded(r)
    ensures Run(r, es).received == r.received + Arrived(es)
    decreases |es|
  {
    if es != [] { ReceivesArrived(Step(r, es[0]), es[1..]); }
  }

  lemma StartInOrder()
    ensures InOrder(EMPTY)
  {}

  /** Any interleaving from an empty ring: what is unread is the end of what has arrived, what is read
      comes in order and once, what is missing is exactly what arrivals at a full ring cost, and nothing
      is missing if and only if no byte arrived at a full ring. */
  lemma AnyInterleaving(es: seq<Event>)
    ensures var r := Run(EMPTY, es);
      && InOrder(r)
      && r.received == Arrived(es) && Pending(r) == Arrived(es)[|Arrived(es)| - r.unread..]
      && Missing(r) == LostOver(EMPTY, es)
      && (Complete(r) <==> NeverFull(EMPTY, es))
  {
    hide Run, Arrived, LostOver, NeverFull, InOrder;
    assert InOrder(EMPTY) by { StartInOrder(); }
    RunsInOrder(EMPTY, es);
    ReceivesArrived(EMPTY, es);
    assert [] + Arrived(es) == Arrived(es);
    MissingIsLost(EMPTY, es);
    LossIffFull(EMPTY, es);
    if NeverFull(EMPTY, es) { DropsOnlyWhenFull(EMPTY, es); }
  }

  // ---------------------------------------------------------------- positions

  predicate Positions(buf: seq<bv8>, r: nat, w: nat, overlap: bool) {
    |buf| == LEN && r < LEN && w < LEN && if overlap then w <= r else r <= w
  }

  /** The bytes between the read and the write position, around the end if the writer has
      wrapped. */
  function Between(buf: seq<bv8>, r: nat, w: nat, overlap: bool): (u: seq<bv8>)
    requires Positions(buf, r, w, overlap)
    ensures |u| == if overlap then LEN - r + w else w - r
  {
    if overlap then buf[r..] + buf[..w] else buf[r..w]
  }

  /** The positions after a byte: wrap, and keep the read position from being overtaken. */
  function AfterByte(r: nat, w: nat, overlap: bool): (nat, nat, bool) {
    var (w', overlap') := if w + 1 > LEN - 1 then (0, true) else (w + 1, overlap);
    (if overlap' && w' + 1 > r then w' else r, w', overlap')
  }

  lemma ByteStored(buf: seq<bv8>, r: nat, w: nat, overlap: bool, b: bv8)
    requires Positions(buf, r, w, overlap)
    ensures var (r', w', overlap') := AfterByte(r, w, overlap);
      var u := Between(buf, r, w, overlap);
      && Positions(buf[w := b], r', w', overlap')
      && Between(buf[w := b], r', w', overlap')
         == if |u| < LEN then u + [b] else if w == LEN - 1 then [b] else u[1..] + [b]
  {}

  function AfterRead(r: nat, n: nat, overlap: bool): (nat, bool) {
    if r + n >= LEN then (r + n - LEN, false) else (r + n, overlap)
  }

  lemma BytesTaken(buf: seq<bv8>, r: nat, w: nat, overlap: bool, n: nat)
    requires Positions(buf, r, w, overlap) && n <= |Between(buf, r, w, overlap)|
    ensures var (r', overlap') := AfterRead(r, n, overlap);
      && Positions(buf, r', w, overlap')
      && Between(buf, r', w, overlap') == Between(buf, r, w, overlap)[n..]
  {}

  lemma FrontOf(buf: seq<bv8>, r: nat, w: nat, overlap: bool, n: nat)
    requires Positions(buf, r, w, overlap) && n <= |Between(buf, r, w, overlap)|
    ensures Between(buf, r, w, overlap)[..n]
         == if overlap && r + n > LEN then buf[r..LEN] + buf[0..n - (LEN - r)] else buf[r..r + n]
  {}

  lemma PendingArrives(r: Ring, b: bv8)
    requires Bounded(r)
    ensures var u := Pending(r);
      Pending(Arrive(r, b)) == if |u| < LEN then u + [b] else if r.slot == LEN - 1 then [b] else u[1..] + [b]
  {
    var r' := Arrive(r, b);
    var n := |r.received|;
    assert r'.received == r.received + [b];
    if r.unread < LEN {
      assert Pending(r') == r.received[n - r.unread..] + [b];
    } else if r.slot == LEN - 1 {
      assert Pending(r') == [b];
    } else {
      assert Pending(r') == r.received[n - LEN + 1..] + [b];
    }
  }

  lemma PendingTaken(r: Ring, size: nat)
    requires Bounded(r)
    ensures Bounded(Take(r, size)) && Take(r, size).slot == r.slot && Take(r, size).received == r.received
    ensures var n, from := Min(size, r.unread), |r.received| - r.unread;
      Pending(Take(r, size)) == Pending(r)[n..] && Pending(r)[..n] == r.received[from..from + n]
  {}

  // ---------------------------------------------------------------- the code

  class UartSocket {
    var prxread: nat
    var prxwrite: nat
    var rxoverlap: bool
    const recvBuf: array<bv8>
    ghost var ring: Ring

    ghost predicate Valid()
      reads this, recvBuf
    {
      && Positions(recvBuf[..], prxread, prxwrite, rxoverlap)
      && Bounded(ring) && ring.slot == prxwrite
      && Between(recvBuf[..], prxread, prxwrite, rxoverlap) == Pending(ring)
    }

    constructor ()
      ensures Valid() && ring == EMPTY && fresh(recvBuf)
    {
      prxread, prxwrite, rxoverlap := 0, 0, false;
      recvBuf := new bv8[LEN];
      ring := EMPTY;
    }

    /** The receive branch of uart_irq. */
    method ReceiveByte(b: bv8)
      requires Valid()
      modifies this, recvBuf
      ensures Valid() && ring == Arrive(old(ring), b)
    {
      hide Between, Pending;
      ByteStored(recvBuf[..], prxread, prxwrite, rxoverlap, b);
      PendingArrives(ring, b);
      recvBuf[prxwrite] := b;
      assert recvBuf[..] == old(recvBuf[..])[prxwrite := b];
      prxwrite := prxwrite + 1;
      if prxwrite > LEN - 1 {
        prxwrite := 0;
        rxoverlap := true;
      }
      if rxoverlap && prxwrite + 1 > prxread {
        prxread := prxwrite;
      }
      ring := Arrive(ring, b);
    }

    /** uart_read: as many of the oldest unread bytes as fit, or an error for an empty request. */
    method Read(buf: array<bv8>, size: nat) returns (n: int)
      requires Valid() && buf != recvBuf && size <= buf.Length
      modifies this, buf
      ensures Valid()
      ensures size == 0 ==> n == -1 && ring == old(ring)
      ensures size != 0 ==> n == Min(size, old(ring).unread) && ring == Take(old(ring), size)
      ensures size != 0 ==> n == if size < |Pending(old(ring))| then size else |Pending(old(ring))|
      ensures size != 0 ==> buf[..n] == Pending(old(ring))[..n] && Pending(ring) == Pending(old(ring))[n..]
    {
      hide Between, Pending, Take;
      if size == 0 {
        return -1;
      }
      var pread, pwrite := prxread, prxwrite;
      n := if !rxoverlap then pwrite - pread else (LEN - pread) + pwrite;
      if size < n {
        n := size;
      }
      ghost var rb := recvBuf[..];
      assert n == Min(size, ring.unread);
      FrontOf(rb, prxread, prxwrite, rxoverlap, n);
      BytesTaken(rb, prxread, prxwrite, rxoverlap, n);
      PendingTaken(ring, size);
      CopyOut(buf, pread, n);
      if pread + n >= LEN {
        prxread := (pread + n) - LEN;
        rxoverlap := false;
      } else {
        prxread := pread + n;
      }
      assert recvBuf[..] == rb;
      ring := Take(ring, size);
    }

    /** The copy of uart_read: in two pieces when the bytes go around the end of the ring. */
    method CopyOut(buf: array<bv8>, pread: nat, n: nat)
      requires recvBuf.Length == LEN && buf != recvBuf && n <= buf.Length && pread < LEN
      requires if rxoverlap then n <= LEN - pread + LEN else pread + n <= LEN
      modifies buf
      ensures buf[..n] ==
        if rxoverlap && pread + n > LEN then recvBuf[..][pread..LEN] + recvBuf[..][0..n - (LEN - pread)]
        else recvBuf[..][pread..pread + n]
    {
      if !rxoverlap {
        Copy(buf, 0, recvBuf, pread, n);
        assert buf[..n] == buf[0..n];
      } else if pread + n > LEN {
        Copy(buf, 0, recvBuf, pread, LEN - pread);
        ghost var front := buf[..LEN - pread];
        assert front == buf[0..LEN - pread];
        Copy(buf, LEN - pread, recvBuf, 0, n - (LEN - pread));
        assert buf[..n] == buf[..LEN - pread] + buf[LEN - pread..n];
      } else {
        Copy(buf, 0, recvBuf, pread, n);
        assert buf[..n] == buf[0..n];
      }
    }
  }

  /** memcpy. */
  method Copy(dst: array<bv8>, at: nat, src: array<bv8>, from: nat, n: nat)
    requires dst != src && at + n <= dst.Length && from + n <= src.Length
    modifies dst
    ensures dst[at..at + n] == src[..][from..from + n]
    ensures dst[..at] == old(dst[..at])
  {
    for i := 0 to n
      invariant dst[at..at + i] == src[..][from..from + i]
      invariant dst[..at] == old(dst[..at])
    {
      dst[at + i] := src[from + i];
      assert dst[at..at + i + 1] == dst[at..at + i] + [dst[at + i]];
      assert src[..][from..from + i + 1] == src[..][from..from + i] + [src[from + i]];
    }
  }
}
