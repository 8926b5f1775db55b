/** Writing an update image to NOR flash while it comes in over a socket, in reads of any length:
    the half-word carry of the STM32 task, and the checksum at the end of the 8195A image. */
module OtaStream {

  const ERASED: bv8 := 0xff

  function Flat(parts: seq<seq<bv8>>): seq<bv8> {
    if parts == [] then [] else Flat(parts[..|parts| - 1]) + parts[|parts| - 1]
  }

  /** The sum of the bytes, as the 32-bit counters keep it. */
  function Sum(s: seq<bv8>): nat {
    if s == [] then 0 else Sum(s[..|s| - 1]) + s[|s| - 1] as nat
  }

  const M := 0x1_0000_0000

  lemma {:induction false} SumConcat(a: seq<bv8>, b: seq<bv8>)
    ensures Sum(a + b) == Sum(a) + Sum(b)
  {
    if b == [] {
      assert a + b == a;
    } else {
      assert (a + b)[..|a + b| - 1] == a + b[..|b| - 1];
      SumConcat(a, b[..|b| - 1]);
    }
  }

  lemma SumOne(x: bv8)
    ensures Sum([x]) == x as nat
  {
    assert [x][..0] == [];
  }

  lemma FlatMore(parts: seq<seq<bv8>>, k: nat)
    requires k < |parts|
    ensures Flat(parts[..k + 1]) == Flat(parts[..k]) + parts[k]
  {
    assert parts[..k + 1][..k] == parts[..k];
  }

  lemma {:induction false} FlatGrows(parts: seq<seq<bv8>>, k: nat)
    requires k <= |parts|
    ensures |Flat(parts[..k])| <= |Flat(parts)|
    decreases |parts| - k
  {
    if k < |parts| {
      FlatMore(parts, k);
      FlatGrows(parts, k + 1);
    } else {
      assert parts[..k] == parts;
    }
  }

  // ---------------------------------------------------------------- the flash

  lemma WriteToErased(v: bv8)
    ensures ERASED & v == v
  {}

  /** The cells after `data` was written over them: a write can only clear bits. */
  function Written(cells: seq<bv8>, at: nat, data: seq<bv8>): (c: seq<bv8>)
    requires at + |data| <= |cells|
    ensures |c| == |cells|
    ensures forall i :: 0 <= i < |c| ==> c[i] == if at <= i < at + |data| then cells[i] & data[i - at] else cells[i]
  {
    seq(|cells|, i requires 0 <= i < |cells| => if at <= i < at + |data| then cells[i] & data[i - at] else cells[i])
  }

  /** The flash by bytes, with a ghost record of the offset and length of each write. */
  class Flash {
    var cells: seq<bv8>
    ghost var writes: seq<(nat, nat)>

    constructor (size: nat)
      ensures |cells| == size && (forall i :: 0 <= i < size ==> cells[i] == ERASED) && writes == []
    {
      cells := seq(size, _ => ERASED);
      writes := [];
    }

    method Write(at: nat, data: seq<bv8>)
      requires at + |data| <= |cells|
      modifies this
      ensures cells == Written(old(cells), at, data)
      ensures writes == old(writes) + [(at, |data|)]
    {
      cells := Written(cells, at, data);
      writes := writes + [(at, |data|)];
    }
  }

  predicate ErasedFrom(cells: seq<bv8>, from: nat, to: nat) {
    to <= |cells| && forall i :: from <= i < to ==> cells[i] == ERASED
  }

  /** The image has been written up to `base + |image|`; behind it the region is still erased, and
      elsewhere nothing has changed. */
  predicate Holds(cells: seq<bv8>, was: seq<bv8>, base: nat, end: nat, image: seq<bv8>) {
    && |cells| == |was| && base + |image| <= end <= |cells|
    && cells[base..base + |image|] == image
    && ErasedFrom(cells, base + |image|, end)
    && (forall i :: 0 <= i < |cells| && !(base <= i < end) ==> cells[i] == was[i])
  }

  lemma HoldsMore(cells: seq<bv8>, was: seq<bv8>, base: nat, end: nat, image: seq<bv8>, data: seq<bv8>)
    requires Holds(cells, was, base, end, image) && base + |image| + |data| <= end
    ensures end <= |cells|
    ensures Holds(Written(cells, base + |image|, data), was, base, end, image + data)
  {
    var c := Written(cells, base + |image|, data);
    forall i | 0 <= i < |data| ensures c[base + |image| + i] == data[i] { WriteToErased(data[i]); }
    assert c[base..base + |image| + |data|] == image + data;
  }

  // ---------------------------------------------------------------- the half-word carry

  predicate EvenWrites(writes: seq<(nat, nat)>, base: nat) {
    forall i :: 0 <= i < |writes| ==> writes[i].0 >= base && (writes[i].0 - base) % 2 == 0 && writes[i].1 % 2 == 0
  }

  /** The half-word as the processor stores it, low byte first. */
  function HalfWord(a: bv16): seq<bv8> {
    [(a & 0xff) as bv8, (a >> 8) as bv8]
  }

  lemma HalfWordOf(carry: bv8, next: bv8)
    ensures HalfWord(((next as bv16) << 8) | (carry as bv16)) == [carry, next]
    ensures HalfWord(carry as bv16) == [carry, 0]
  {}

  /** Between two reads: the flash holds an even number of bytes of the stream, and an odd one
      waits in the half-word. */
  ghost predicate Carrying(cells: seq<bv8>, was: seq<bv8>, base: nat, end: nat, stream: seq<bv8>, size: nat, a: bv16,
                           flag: bool) {
    && size % 2 == 0 && |stream| == (if flag then size + 1 else size)
    && Holds(cells, was, base, end, stream[..size])
    && (flag ==> a == stream[size] as bv16)
  }

  lemma EvenMore(writes: seq<(nat, nat)>, base: nat, size: nat, n: nat)
    requires EvenWrites(writes, base) && size % 2 == 0 && n % 2 == 0
    ensures EvenWrites(writes + [(base + size, n)], base)
  {}

  /** A read, or what is left of it, with no byte waiting. */
  method FreshRead(flash: Flash, base: nat, size: nat, buf: seq<bv8>, ghost was: seq<bv8>, ghost end: nat,
                   ghost stream: seq<bv8>)
    returns (size': nat, a: bv16, flag: bool)
    requires base + |stream| + |buf| <= end
    requires Carrying(flash.cells, was, base, end, stream, size, 0, false) && EvenWrites(flash.writes, base)
    modifies flash
    ensures Carrying(flash.cells, was, base, end, stream + buf, size', a, flag) && EvenWrites(flash.writes, base)
    ensures !flag ==> a == 0
  {
    hide Holds, EvenWrites;
    var n := |buf|;
    var m := if n % 2 != 0 then n - 1 else n;
    EvenMore(flash.writes, base, size, m);
    assert stream[..size] == stream && (stream + buf)[..size + m] == stream + buf[..m];
    HoldsMore(flash.cells, was, base, end, stream, buf[..m]);
    a, flag := 0, false;
    if n % 2 != 0 {
      a, flag := buf[n - 1] as bv16, true;
    }
    flash.Write(base + size, buf[..m]);
    size' := size + m;
  }

  lemma CarrySlices(stream: seq<bv8>, buf: seq<bv8>, size: nat)
    requires |stream| == size + 1 && buf != []
    ensures stream[..size] + [stream[size], buf[0]] == stream + [buf[0]]
    ensures (stream + [buf[0]])[..size + 2] == stream + [buf[0]]
    ensures (stream + [buf[0]]) + buf[1..] == stream + buf
  {}

  /** A read while a byte waits: it goes out with the first byte of the read. */
  method CarriedRead(flash: Flash, base: nat, size: nat, buf: seq<bv8>, carried: bv16, ghost was: seq<bv8>,
                     ghost end: nat, ghost stream: seq<bv8>)
    returns (size': nat, a: bv16, flag: bool)
    requires buf != [] && base + |stream| + |buf| <= end
    requires Carrying(flash.cells, was, base, end, stream, size, carried, true) && EvenWrites(flash.writes, base)
    modifies flash
    ensures Carrying(flash.cells, was, base, end, stream + buf, size', a, flag) && EvenWrites(flash.writes, base)
    ensures !flag ==> a == 0
  {
    hide Holds, HalfWord, EvenWrites;
    EvenMore(flash.writes, base, size, 2);
    HalfWordOf(stream[size], buf[0]);
    HoldsMore(flash.cells, was, base, end, stream[..size], [stream[size], buf[0]]);
    CarrySlices(stream, buf, size);
    a := ((buf[0] as bv16) << 8) | carried;
    flash.Write(base + size, HalfWord(a));
    size' := size + 2;
    size', a, flag := FreshRead(flash, base, size', buf[1..], was, end, stream + [buf[0]]);
  }

  /** The receive loop of the STM32 task: flash takes half-words only, so an odd byte waits for the
      next read; at the end it goes out with a zero behind it. */
  method ReceiveHalfWords(flash: Flash, base: nat, end: nat, parts: seq<seq<bv8>>) returns (size: nat, checksum: nat)
    requires forall k :: 0 <= k < |parts| ==> parts[k] != []
    requires ErasedFrom(flash.cells, base, end) && base + |Flat(parts)| + 1 <= end
    requires flash.writes == []
    modifies flash
    ensures var s := Flat(parts);
      && size == |s| && checksum == Sum(s) % M
      && Holds(flash.cells, old(flash.cells), base, end, Padded(s))
    ensures EvenWrites(flash.writes, base)
  {
    hide Holds, Written, Sum, Flat, Padded;
    EmptyFlat(parts);
    SumOfNothing();
    ghost var was := flash.cells;
    var a: bv16, flag := 0, false;
    size, checksum := 0, 0;
    HoldsNothing(was, base, end);
    for k := 0 to |parts|
      invariant Carrying(flash.cells, was, base, end, Flat(parts[..k]), size, a, flag) && EvenWrites(flash.writes, base)
      invariant !flag ==> a == 0
      invariant checksum == Sum(Flat(parts[..k])) % M
    {
      hide Carrying, EvenWrites;
      FlatMore(parts, k);
      FlatGrows(parts, k + 1);
      if !flag {
        size, a, flag := FreshRead(flash, base, size, parts[k], was, end, Flat(parts[..k]));
      } else {
        size, a, flag := CarriedRead(flash, base, size, parts[k], a, was, end, Flat(parts[..k]));
      }
      checksum := AddBytes(checksum, parts[k]);
      SumConcat(Flat(parts[..k]), parts[k]);
      AddMod(Sum(Flat(parts[..k])), Sum(parts[k]));
    }
    assert parts[..|parts|] == parts;
    size := Flush(flash, base, size, a, flag, was, end, Flat(parts));
  }

  function Padded(s: seq<bv8>): seq<bv8> {
    s + if |s| % 2 == 1 then [0] else []
  }

  /** The end of the stream: a waiting byte goes out with a zero behind it. */
  method Flush(flash: Flash, base: nat, size: nat, a: bv16, flag: bool, ghost was: seq<bv8>, ghost end: nat,
               ghost stream: seq<bv8>)
    returns (size': nat)
    requires Carrying(flash.cells, was, base, end, stream, size, a, flag) && EvenWrites(flash.writes, base)
    requires base + |stream| + 1 <= end
    modifies flash
    ensures size' == |stream| && Holds(flash.cells, was, base, end, Padded(stream)) && EvenWrites(flash.writes, base)
  {
    hide Holds, HalfWord;
    size' := size;
    if flag {
      HalfWordOf(stream[size], 0);
      HoldsMore(flash.cells, was, base, end, stream[..size], [stream[size], 0]);
      flash.Write(base + size, HalfWord(a));
      assert stream[..size] + [stream[size], 0] == Padded(stream);
      size' := size + 1;
    } else {
      assert stream[..size] == Padded(stream);
    }
  }

  lemma HoldsNothing(cells: seq<bv8>, base: nat, end: nat)
    requires ErasedFrom(cells, base, end) && base <= end
    ensures Holds(cells, cells, base, end, [])
  {}

  /** A summing loop, in 32 bits. */
  method AddBytes(start: nat, buf: seq<bv8>) returns (sum: nat)
    requires start < M
    ensures sum == (start + Sum(buf)) % M
  {
    sum := start;
    for i := 0 to |buf|
      invariant sum == (start + Sum(buf[..i])) % M
    {
      assert buf[..i + 1][..i] == buf[..i];
      AddMod(start + Sum(buf[..i]), buf[i] as nat);
      sum := (sum + buf[i] as nat) % M;
    }
    assert buf[..|buf|] == buf;
  }

  lemma AddMod(a: nat, b: nat)
    ensures (a % M + b) % M == (a + b) % M
  {}

  // ---------------------------------------------------------------- the trailing checksum

  /** What the counters hold after some of the stream: the sum of all but its last four bytes, and
      those four. */
  predicate Counted(s: seq<bv8>, checksum: nat, last: seq<bv8>) {
    |last| == 4 &&
    if s == [] then checksum == 0 && last == [0, 0, 0, 0]
    else |s| >= 4 && checksum == Sum(s[..|s| - 4]) % M && last == s[|s| - 4..]
  }

  lemma CountMore(s: seq<bv8>, checksum: nat, last: seq<bv8>, buf: seq<bv8>)
    requires Counted(s, checksum, last) && |buf| >= 4
    ensures Counted(s + buf, (checksum + Sum(last) + Sum(buf[..|buf| - 4])) % M, buf[|buf| - 4..])
  {
    var n := |buf| - 4;
    assert (s + buf)[|s + buf| - 4..] == buf[n..];
    assert (s + buf)[..|s + buf| - 4] == s + buf[..n];
    SumConcat(s, buf[..n]);
    if s == [] {
      SumOfFour(last);
      assert Sum(last) == 0 && Sum(s) == 0;
    } else {
      assert s == s[..|s| - 4] + last;
      SumConcat(s[..|s| - 4], last);
      AddMod(Sum(s[..|s| - 4]), Sum(last) + Sum(buf[..n]));
    }
  }

  lemma SumOfFour(s: seq<bv8>)
    requires |s| == 4
    ensures Sum(s) == s[0] as nat + s[1] as nat + s[2] as nat + s[3] as nat
  {
    assert s[..3][..2] == s[..2] && s[..2][..1] == s[..1] && s[..1][..0] == [];
    assert Sum(s[..1]) == s[0] as nat;
    assert Sum(s[..2]) == Sum(s[..1]) + s[1] as nat;
    assert Sum(s[..3]) == Sum(s[..2]) + s[2] as nat;
  }

  /** How many reads the loop takes: up to the one that makes the image complete. */
  predicate Consumed(parts: seq<seq<bv8>>, imgLen: nat, k: nat) {
    && k <= |parts|
    && (forall j :: 0 < j < k ==> |Flat(parts[..j])| != imgLen)
    && (k == |parts| || (k > 0 && |Flat(parts[..k])| == imgLen))
  }

  /** The receive loop and read-back of the 8195A task. */
  method ReceiveImage(flash: Flash, base: nat, end: nat, parts: seq<seq<bv8>>, imgLen: nat, bufSize: nat)
    returns (k: nat, size: nat, checksum: nat, last: seq<bv8>, flashChecksum: nat)
    requires forall j :: 0 <= j < |parts| ==> |parts[j]| >= 4
    requires ErasedFrom(flash.cells, base, end) && base + |Flat(parts)| <= end && bufSize > 0
    modifies flash
    ensures Consumed(parts, imgLen, k) && size == |Flat(parts[..k])|
    ensures Holds(flash.cells, old(flash.cells), base, end, Flat(parts[..k]))
    ensures Counted(Flat(parts[..k]), checksum, last) && flashChecksum == checksum
  {
    hide Holds, Written, Counted, Sum, Flat;
    EmptyFlat(parts);
    ghost var was := flash.cells;
    k, size, checksum, last := 0, 0, 0, [0, 0, 0, 0];
    HoldsNothing(was, base, end);
    CountNothing();
    while k < |parts| && !(k > 0 && size == imgLen)
      invariant k <= |parts| && size == |Flat(parts[..k])|
      invariant forall j :: 0 < j < k ==> |Flat(parts[..j])| != imgLen
      invariant Holds(flash.cells, was, base, end, Flat(parts[..k]))
      invariant Counted(Flat(parts[..k]), checksum, last) && |last| == 4 && checksum < M
    {
      var buf := parts[k];
      var n := |buf|;
      FlatMore(parts, k);
      FlatGrows(parts, k + 1);
      HoldsMore(flash.cells, was, base, end, Flat(parts[..k]), buf);
      CountMore(Flat(parts[..k]), checksum, last, buf);
      flash.Write(base + size, buf);
      size := size + n;
      checksum := AddBytes(checksum, last);
      ghost var counted := checksum;
      checksum := AddBytes(checksum, buf[..n - 4]);
      last := buf[n - 4..];
      k := k + 1;
    }
    flashChecksum := ReadBack(flash, base, size, bufSize, was, end, Flat(parts[..k]));
    CountIs(Flat(parts[..k]), checksum, last);
  }

  lemma EmptyFlat(parts: seq<seq<bv8>>)
    ensures Flat(parts[..0]) == []
  {}

  lemma CountNothing()
    ensures Counted([], 0, [0, 0, 0, 0])
  {}

  lemma CountIs(s: seq<bv8>, checksum: nat, last: seq<bv8>)
    requires Counted(s, checksum, last)
    ensures checksum == Sum(if |s| < 4 then [] else s[..|s| - 4]) % M
  {}

  lemma SumOfNothing()
    ensures Sum([]) == 0
  {}

  lemma SliceOfSlice(cells: seq<bv8>, base: nat, n: nat, i: nat, len: nat)
    requires base + n <= |cells| && i + len <= n
    ensures cells[base + i..base + i + len] == cells[base..base + n][i..i + len]
  {
    var a, b := cells[base + i..base + i + len], cells[base..base + n][i..i + len];
    assert forall j :: 0 <= j < len ==> a[j] == b[j];
    assert a == b;
  }

  lemma HeldSlice(cells: seq<bv8>, was: seq<bv8>, base: nat, end: nat, image: seq<bv8>, i: nat, len: nat)
    requires Holds(cells, was, base, end, image) && i + len <= |image|
    ensures base + i + len <= |cells| && cells[base + i..base + i + len] == image[i..i + len]
  {
    SliceOfSlice(cells, base, |image|, i, len);
  }

  /** The image read back from flash a buffer at a time, all but its last four bytes. */
  method ReadBack(flash: Flash, base: nat, size: nat, bufSize: nat, ghost was: seq<bv8>, ghost end: nat,
                  ghost image: seq<bv8>)
    returns (sum: nat)
    requires Holds(flash.cells, was, base, end, image) && size == |image| && bufSize > 0
    ensures sum == Sum(if size < 4 then [] else image[..size - 4]) % M
  {
    hide Holds, Sum;
    sum := 0;
    var i := 0;
    SumOfNothing();
    assert image[..0] == [];
    while i < size - 4
      invariant i <= size && (i <= size - 4 || i == 0) && sum == Sum(image[..i]) % M
    {
      var len := if size - 4 - i > bufSize then bufSize else size - 4 - i;
      HeldSlice(flash.cells, was, base, end, image, i, len);
      var buf := flash.cells[base + i..base + i + len];
      assert image[..i + len] == image[..i] + image[i..i + len];
      SumConcat(image[..i], buf);
      sum := AddBytes(sum, buf);
      AddMod(Sum(image[..i]), Sum(buf));
      i := i + len;
    }
  }
}
