/** The XMODEM/YMODEM block check (section 8 of Forsberg's protocol reference): polynomials over
    GF(2) as lists of coefficients, highest power first, and the 16-bit shift register that
    divides by x^16 + x^12 + x^5 + 1. */
module Crc {

  // ---------------------------------------------------------------- polynomials

  function Zeros(n: nat): (z: seq<bool>)
    ensures |z| == n && forall i :: 0 <= i < n ==> !z[i]
  {
    seq(n, _ => false)
  }

  function Xor(a: seq<bool>, b: seq<bool>): (c: seq<bool>)
    requires |a| == |b|
    ensures |c| == |a| && forall i :: 0 <= i < |a| ==> c[i] == (a[i] != b[i])
  {
    seq(|a|, i requires 0 <= i < |a| => a[i] != b[i])
  }

  /** x^12 + x^5 + 1: the divisor without its leading term, 0x1021. */
  const POLY: seq<bool> := [false, false, false, true, false, false, false, false,
                            false, false, true, false, false, false, false, true]

  /** The divisor times a coefficient, behind `n` zeros. */
  function Addend(n: nat, b: bool): (p: seq<bool>)
    ensures |p| == n + 17 && (forall i :: 0 <= i < n ==> !p[i]) && p[n] == b
  {
    Zeros(n) + (if b then [true] + POLY else Zeros(17))
  }

  /** The product of `q` and the divisor: multiply by x for each further coefficient of `q`, and
      add the divisor where it is set. */
  function Times(q: seq<bool>): (p: seq<bool>)
    ensures |p| == |q| + 16
  {
    if q == [] then Zeros(16)
    else
      var n := |q| - 1;
      Xor(Times(q[..n]) + [false], Addend(n, q[n]))
  }

  /** `r` is the remainder of the message times x^16: their sum is a multiple of the divisor. */
  ghost predicate IsRemainder(m: seq<bool>, r: seq<bool>) {
    |r| == 16 && exists q: seq<bool> :: |q| == |m| && Times(q) == m + r
  }

  // ---------------------------------------------------------------- the register

  /** One step of the register: multiply by x and reduce. */
  function Shift(r: seq<bool>): (s: seq<bool>)
    requires |r| == 16
    ensures |s| == 16
  {
    Feed(r, false)
  }

  /** One step with a message bit added at the top. */
  function Feed(r: seq<bool>, b: bool): (s: seq<bool>)
    requires |r| == 16
    ensures |s| == 16
  {
    if r[0] != b then Xor(r[1..] + [false], POLY) else r[1..] + [false]
  }

  function Run(r: seq<bool>, bits: seq<bool>): (s: seq<bool>)
    requires |r| == 16
    ensures |s| == 16
    decreases |bits|
  {
    if bits == [] then r else Run(Feed(r, bits[0]), bits[1..])
  }

  function ShiftN(r: seq<bool>, n: nat): (s: seq<bool>)
    requires |r| == 16
    ensures |s| == 16
    decreases n
  {
    if n == 0 then r else ShiftN(Shift(r), n - 1)
  }

  lemma {:induction false} RunConcat(r: seq<bool>, a: seq<bool>, b: seq<bool>)
    requires |r| == 16
    ensures Run(r, a + b) == Run(Run(r, a), b)
    decreases |a|
  {
    if a == [] {
      assert a + b == b;
    } else {
      assert (a + b)[1..] == a[1..] + b;
      RunConcat(Feed(r, a[0]), a[1..], b);
    }
  }

  /** A word added to the register can be fed bit by bit. */
  lemma Peel(r: seq<bool>, t: seq<bool>)
    requires |r| == |t| == 16
    ensures Shift(Xor(r, t)) == Xor(Feed(r, t[0]), t[1..] + [false])
  {}

  lemma {:induction false} PeelRun(r: seq<bool>, t: seq<bool>, n: nat)
    requires |r| == |t| == 16 && n <= 16
    ensures ShiftN(Xor(r, t), n) == Xor(Run(r, t[..n]), t[n..] + Zeros(n))
    decreases n
  {
    if n == 0 {
      assert t[0..] + Zeros(0) == t;
    } else {
      var u := t[1..] + [false];
      Peel(r, t);
      PeelRun(Feed(r, t[0]), u, n - 1);
      assert t[..n][1..] == u[..n - 1];
      assert u[n - 1..] + Zeros(n - 1) == t[n..] + Zeros(n);
    }
  }

  lemma XorNothing(a: seq<bool>)
    ensures Xor(a, Zeros(|a|)) == a && Xor(Zeros(|a|), a) == a
  {}

  // ---------------------------------------------------------------- the register divides

  /** One more bit of the message is one more bit of the quotient. */
  lemma RemainderStep(m: seq<bool>, b: bool, q: seq<bool>) returns (q': seq<bool>)
    requires |q| == |m| && Times(q) == m + Run(Zeros(16), m)
    ensures |q'| == |m + [b]| && Times(q') == (m + [b]) + Run(Zeros(16), m + [b])
  {
    hide Run, Feed, Addend, Times, Xor, Zeros;
    var r := Run(Zeros(16), m);
    RunConcat(Zeros(16), m, [b]);
    RunOne(r, b);
    q' := q + [r[0] != b];
    assert q'[..|m|] == q && q'[|m|] == (r[0] != b);
    TimesStep(q');
    DivisionStep(m, r, b);
  }

  /** Running a message through the register from zero leaves its remainder. */
  lemma {:induction false} RunIsRemainder(m: seq<bool>) returns (q: seq<bool>)
    ensures |q| == |m| && Times(q) == m + Run(Zeros(16), m)
  {
    if m == [] {
      q := [];
    } else {
      var n := |m| - 1;
      q := RunIsRemainder(m[..n]);
      q := RemainderStep(m[..n], m[n], q);
      assert m == m[..n] + [m[n]];
    }
  }

  lemma RunOne(r: seq<bool>, b: bool)
    requires |r| == 16
    ensures Run(r, [b]) == Feed(r, b)
  {}

  lemma TimesStep(q: seq<bool>)
    requires q != []
    ensures var n := |q| - 1; Times(q) == Xor(Times(q[..n]) + [false], Addend(n, q[n]))
  {}

  /** Long division, one bit: subtract the divisor where the leading coefficient is set. */
  lemma DivisionStep(m: seq<bool>, r: seq<bool>, b: bool)
    requires |r| == 16
    ensures var n := |m|;
      Xor((m + r) + [false], Addend(n, r[0] != b)) == (m + [b]) + Feed(r, b)
  {}

  lemma XorAt(p: seq<bool>, a: seq<bool>, i: nat)
    requires |a| == |p| + 1 && i < |p|
    ensures Xor(p + [false], a)[i] == (p[i] != a[i])
  {}

  lemma TimesAt(q: seq<bool>, i: nat)
    requires q != [] && i < |q|
    ensures var n := |q| - 1;
      Times(q)[i] == if i < n then Times(q[..n])[i] else (Times(q[..n])[n] != q[n])
  {
    hide Addend;
    var n := |q| - 1;
    XorAt(Times(q[..n]), Addend(n, q[n]), i);
  }

  /** The leading coefficients of a multiple of the divisor determine the quotient. */
  lemma {:induction false} QuotientUnique(q: seq<bool>, q': seq<bool>)
    requires |q| == |q'| && forall i :: 0 <= i < |q| ==> Times(q)[i] == Times(q')[i]
    ensures q == q'
  {
    hide Times;
    if q != [] {
      var n := |q| - 1;
      forall i | 0 <= i < n ensures Times(q[..n])[i] == Times(q'[..n])[i] {
        TimesAt(q, i);
        TimesAt(q', i);
      }
      QuotientUnique(q[..n], q'[..n]);
      TimesAt(q, n);
      TimesAt(q', n);
      assert q == q[..n] + [q[n]] && q' == q'[..n] + [q'[n]];
    }
  }

  /** The register computes the remainder, and there is only one. */
  lemma RunIsTheRemainder(m: seq<bool>, r: seq<bool>)
    ensures IsRemainder(m, r) <==> r == Run(Zeros(16), m)
  {
    var q := RunIsRemainder(m);
    if IsRemainder(m, r) {
      var q' :| |q'| == |m| && Times(q') == m + r;
      forall i | 0 <= i < |q| ensures Times(q)[i] == Times(q')[i] {
        assert (m + r)[i] == m[i] == (m + Run(Zeros(16), m))[i];
      }
      QuotientUnique(q, q');
      assert r == (m + r)[|m|..] == (m + Run(Zeros(16), m))[|m|..];
    }
  }

  // ---------------------------------------------------------------- the appended check

  lemma ShiftZero(r: seq<bool>)
    requires |r| == 16
    ensures Shift(r) == Zeros(16) <==> r == Zeros(16)
  {
    if Shift(r) == Zeros(16) {
      assert Shift(r)[15] == r[0];
      assert r[1..] == Shift(r)[..15];
      assert r == [r[0]] + r[1..];
    }
  }

  lemma {:induction false} ShiftNZero(r: seq<bool>, n: nat)
    requires |r| == 16
    ensures ShiftN(r, n) == Zeros(16) <==> r == Zeros(16)
    decreases n
  {
    if n > 0 {
      ShiftZero(r);
      ShiftNZero(Shift(r), n - 1);
    }
  }

  lemma XorZero(a: seq<bool>, b: seq<bool>)
    requires |a| == |b|
    ensures Xor(a, b) == Zeros(|a|) <==> a == b
  {
    if Xor(a, b) == Zeros(|a|) {
      forall i | 0 <= i < |a| ensures a[i] == b[i] { assert !Xor(a, b)[i]; }
    }
  }

  /** A check of 16 bits is right exactly when the message followed by it leaves nothing. */
  lemma ResidueIff(m: seq<bool>, c: seq<bool>)
    requires |c| == 16
    ensures Run(Zeros(16), m + c) == Zeros(16) <==> c == Run(Zeros(16), m)
  {
    var r := Run(Zeros(16), m);
    RunConcat(Zeros(16), m, c);
    PeelRun(r, c, 16);
    assert c[..16] == c && c[16..] + Zeros(16) == Zeros(16);
    XorNothing(Run(r, c));
    ShiftNZero(Xor(r, c), 16);
    XorZero(r, c);
  }

  // ---------------------------------------------------------------- bursts

  lemma FeedLinear(r: seq<bool>, s: seq<bool>, a: bool, b: bool)
    requires |r| == |s| == 16
    ensures Feed(Xor(r, s), a != b) == Xor(Feed(r, a), Feed(s, b))
  {}

  lemma {:induction false} RunLinear(r: seq<bool>, s: seq<bool>, a: seq<bool>, b: seq<bool>)
    requires |r| == |s| == 16 && |a| == |b|
    ensures Run(Xor(r, s), Xor(a, b)) == Xor(Run(r, a), Run(s, b))
    decreases |a|
  {
    if a != [] {
      FeedLinear(r, s, a[0], b[0]);
      RunLinear(Feed(r, a[0]), Feed(s, b[0]), a[1..], b[1..]);
      assert Xor(a, b)[1..] == Xor(a[1..], b[1..]);
    }
  }

  lemma {:induction false} RunZeros(r: seq<bool>, n: nat)
    requires |r| == 16
    ensures Run(r, Zeros(n)) == ShiftN(r, n)
    decreases n
  {
    if n > 0 {
      assert Zeros(n)[1..] == Zeros(n - 1);
      RunZeros(Shift(r), n - 1);
    }
  }

  /** A register that a few bits bring to zero was zero below them. */
  lemma {:induction false} ZeroBelow(r: seq<bool>, w: seq<bool>)
    requires |r| == 16 && |w| <= 16 && Run(r, w) == Zeros(16)
    ensures forall i :: |w| <= i < 16 ==> !r[i]
    decreases |w|
  {
    if w != [] {
      var s := Feed(r, w[0]);
      ZeroBelow(s, w[1..]);
      assert s[15] == (r[0] != w[0]);
      forall i | |w| <= i < 16 ensures !r[i] { assert s[i - 1] == r[i]; }
    }
  }

  predicate AgreeOutside(a: seq<bool>, b: seq<bool>, k: nat, n: nat)
    requires |a| == |b|
  {
    forall i :: 0 <= i < |a| && !(k <= i < k + n) ==> a[i] == b[i]
  }

  /** Two messages that differ, but only inside 16 consecutive bits, never leave the same
      remainder. */
  lemma BurstDetected(a: seq<bool>, b: seq<bool>, k: nat)
    requires |a| == |b| && AgreeOutside(a, b, k, 16) && a != b
    ensures Run(Zeros(16), a) != Run(Zeros(16), b)
  {
    var f, w, n := SplitBurst(a, b, k);
    var u := [true] + (w + Zeros(n));
    RunZeros(Zeros(16), f);
    ShiftNZero(Zeros(16), f);
    RunConcat(Zeros(16), Zeros(f), u);
    BurstLeavesSomething(w, n);
    RunLinear(Zeros(16), Zeros(16), a, b);
    XorNothing(Zeros(16));
    XorZero(Run(Zeros(16), a), Run(Zeros(16), b));
  }

  /** The difference of the two messages: zeros, the first differing bit, at most 15 more bits,
      zeros. */
  lemma SplitBurst(a: seq<bool>, b: seq<bool>, k: nat) returns (f: nat, w: seq<bool>, n: nat)
    requires |a| == |b| && AgreeOutside(a, b, k, 16) && a != b
    ensures |w| <= 15 && Xor(a, b) == Zeros(f) + ([true] + (w + Zeros(n)))
  {
    var e := Xor(a, b);
    f := FirstDifference(a, b);
    assert k <= f < k + 16;
    var end := if k + 16 < |a| then k + 16 else |a|;
    w, n := e[f + 1..end], |a| - end;
    assert e[..f] == Zeros(f);
    assert e[f] && e[end..] == Zeros(n);
    FourParts(e, f, end);
  }

  lemma FourParts(e: seq<bool>, f: nat, end: nat)
    requires f < end <= |e|
    ensures e == e[..f] + ([e[f]] + (e[f + 1..end] + e[end..]))
  {}

  lemma BurstLeavesSomething(w: seq<bool>, n: nat)
    requires |w| <= 15
    ensures Run(Zeros(16), [true] + (w + Zeros(n))) != Zeros(16)
  {
    var u := w + Zeros(n);
    assert ([true] + u)[1..] == u;
    assert Feed(Zeros(16), true) == POLY;
    RunConcat(POLY, w, Zeros(n));
    RunZeros(Run(POLY, w), n);
    ShiftNZero(Run(POLY, w), n);
    assert POLY[15];
    if Run(POLY, w) == Zeros(16) { ZeroBelow(POLY, w); }
  }

  lemma {:induction false} FirstDifference(a: seq<bool>, b: seq<bool>) returns (f: nat)
    requires |a| == |b| && a != b
    ensures f < |a| && a[f] != b[f] && forall i :: 0 <= i < f ==> a[i] == b[i]
  {
    if a[0] != b[0] {
      f := 0;
    } else {
      assert a == [a[0]] + a[1..] && b == [b[0]] + b[1..];
      f := FirstDifference(a[1..], b[1..]);
      f := f + 1;
      forall i | 0 <= i < f ensures a[i] == b[i] { if i > 0 { assert a[1..][i - 1] == b[1..][i - 1]; } }
    }
  }

  // ---------------------------------------------------------------- bytes and machine words

  function ByteBits(b: bv8): (bits: seq<bool>)
    ensures |bits| == 8
  {
    [b & 0x80 != 0, b & 0x40 != 0, b & 0x20 != 0, b & 0x10 != 0, b & 8 != 0, b & 4 != 0, b & 2 != 0, b & 1 != 0]
  }

  function BitsOf(s: seq<bv8>): (bits: seq<bool>)
    ensures |bits| == 8 * |s|
  {
    if s == [] then [] else ByteBits(s[0]) + BitsOf(s[1..])
  }

  const MASKS: seq<bv32> :=
    [0x8000, 0x4000, 0x2000, 0x1000, 0x800, 0x400, 0x200, 0x100, 0x80, 0x40, 0x20, 0x10, 8, 4, 2, 1]

  predicate Test(c: bv32, m: bv32) { c & m != 0 }

  predicate Bit(c: bv32, i: nat)
    requires i < 16
  {
    Test(c, MASKS[i])
  }

  /** The low 16 bits of the machine register. */
  function Low(c: bv32): (bits: seq<bool>)
    ensures |bits| == 16
  {
    seq(16, i requires 0 <= i < 16 => Bit(c, i))
  }

  /** The CRC of a payload, as the 16 coefficients of the remainder. */
  function Crc16(s: seq<bv8>): (r: seq<bool>)
    ensures |r| == 16
  {
    Run(Zeros(16), BitsOf(s))
  }

  lemma MaskPowers(i: nat)
    requires i < 16
    ensures MASKS[i] & (MASKS[i] - 1) == 0
    ensures i < 15 ==> MASKS[i] == MASKS[i + 1] << 1
  {}

  lemma MaskXor(c: bv32, w: bv32, m: bv32)
    requires m & (m - 1) == 0
    ensures ((c ^ w) & m != 0) == ((c & m != 0) != (w & m != 0))
  {}

  lemma MaskUp(c: bv32, m: bv32, n: bv32)
    requires m < 0x8000 && n == m << 1
    ensures Test(c << 1, n) == Test(c, m)
  {}

  lemma XorLow(c: bv32, w: bv32)
    ensures Low(c ^ w) == Xor(Low(c), Low(w))
  {
    forall i | 0 <= i < 16 ensures Low(c ^ w)[i] == (Low(c)[i] != Low(w)[i]) {
      MaskPowers(i);
      MaskXor(c, w, MASKS[i]);
    }
  }

  lemma LowestOut(c: bv32)
    ensures !Bit(c << 1, 15)
  {
    assert (c << 1) & 1 == 0;
  }

  lemma BitUp(c: bv32, i: nat)
    requires i < 15
    ensures Bit(c << 1, i) == Bit(c, i + 1)
  {
    hide Test;
    NextMask(i);
    BelowTop(i + 1);
    MaskUp(c, MASKS[i + 1], MASKS[i]);
  }

  lemma NextMask(i: nat)
    requires i < 15
    ensures MASKS[i] == MASKS[i + 1] << 1
  {
    MaskPowers(i);
  }

  lemma BelowTop(i: nat)
    requires 0 < i < 16
    ensures MASKS[i] < 0x8000
  {}

  lemma LowUp(c: bv32)
    ensures Low(c << 1) == Low(c)[1..] + [false]
  {
    hide Bit;
    forall i | 0 <= i < 16 ensures Low(c << 1)[i] == (Low(c)[1..] + [false])[i] {
      if i < 15 { BitUp(c, i); } else { LowestOut(c); }
    }
  }

  lemma PolyLow()
    ensures Low(0x1021) == POLY
  {
    forall i | 0 <= i < 16 ensures Low(0x1021)[i] == POLY[i] {}
  }

  /** The bits of the wider register above bit 15 never come down. */
  lemma LowShift(c: bv32)
    ensures Low(if c & 0x8000 != 0 then (c << 1) ^ 0x1021 else c << 1) == Shift(Low(c))
  {
    assert Low(c)[0] == (c & 0x8000 != 0);
    hide Low;
    LowUp(c);
    PolyLow();
    XorLow(c << 1, 0x1021);
  }

  lemma WideHigh(b: bv8, i: nat)
    requires i < 8
    ensures Bit((b as bv32) << 8, i) == ByteBits(b)[i]
  {}

  lemma WideLow(b: bv8, i: nat)
    requires 8 <= i < 16
    ensures !Bit((b as bv32) << 8, i)
  {}

  lemma WideBits(b: bv8)
    ensures Low((b as bv32) << 8) == ByteBits(b) + Zeros(8)
  {
    hide ByteBits, Bit;
    var w := (b as bv32) << 8;
    forall i | 0 <= i < 16 ensures Low(w)[i] == (ByteBits(b) + Zeros(8))[i] {
      if i < 8 { WideHigh(b, i); } else { WideLow(b, i); }
    }
  }

  lemma LowXor(c: bv32, b: bv8)
    ensures Low(c ^ ((b as bv32) << 8)) == Xor(Low(c), ByteBits(b) + Zeros(8))
  {
    hide Low, ByteBits;
    WideBits(b);
    XorLow(c, (b as bv32) << 8);
  }

  lemma {:induction false} BitsConcat(a: seq<bv8>, b: seq<bv8>)
    ensures BitsOf(a + b) == BitsOf(a) + BitsOf(b)
  {
    hide ByteBits;
    if a == [] {
      assert a + b == b;
    } else {
      assert (a + b)[1..] == a[1..] + b;
      BitsConcat(a[1..], b);
    }
  }

  lemma OneByte(b: bv8)
    ensures BitsOf([b]) == ByteBits(b)
  {
    hide ByteBits;
    assert [b][1..] == [];
    assert BitsOf([b]) == ByteBits(b) + [];
  }

  /** Adding a byte at the top and shifting eight times is running over its bits. */
  lemma ByteStep(s: seq<bv8>, b: bv8)
    ensures ShiftN(Xor(Crc16(s), ByteBits(b) + Zeros(8)), 8) == Crc16(s + [b])
  {
    hide ByteBits;
    var r, t := Crc16(s), ByteBits(b) + Zeros(8);
    PeelRun(r, t, 8);
    assert t[..8] == ByteBits(b) && t[8..] + Zeros(8) == Zeros(16);
    XorNothing(Run(r, ByteBits(b)));
    BitsConcat(s, [b]);
    OneByte(b);
    RunConcat(Zeros(16), BitsOf(s), ByteBits(b));
  }

  // ---------------------------------------------------------------- the code

  /** The nested loops of crc_check, in an unmasked 32-bit register. */
  method CrcLoop(buf: array<bv8>, len: nat) returns (cksum: bv32)
    requires len <= buf.Length
    ensures Low(cksum) == Crc16(buf[..len])
  {
    hide Low, Shift, Feed, ByteBits, Crc16;
    cksum := 0;
    EmptyCrc();
    var p := 0;
    while p < len
      invariant p <= len && Low(cksum) == Crc16(buf[..p])
    {
      LowXor(cksum, buf[p]);
      ByteStep(buf[..p], buf[p]);
      assert buf[..p + 1] == buf[..p] + [buf[p]];
      cksum := cksum ^ ((buf[p] as bv32) << 8);
      p := p + 1;
      var i: nat := 8;
      while i != 0
        invariant i <= 8 && ShiftN(Low(cksum), i) == Crc16(buf[..p])
      {
        LowShift(cksum);
        if cksum & 0x8000 != 0 {
          cksum := (cksum << 1) ^ 0x1021;
        } else {
          cksum := cksum << 1;
        }
        i := i - 1;
      }
    }
  }

  lemma EmptyCrc()
    ensures Low(0) == Zeros(16) == Crc16([])
  {
    assert Low(0) == Zeros(16);
  }

  /** `crch << 8 | crcl`. */
  function Joined(hi: bv8, lo: bv8): bv32 {
    ((hi as bv32) << 8) | (lo as bv32)
  }

  lemma NarrowLow(b: bv8, i: nat)
    requires 8 <= i < 16
    ensures Bit(b as bv32, i) == ByteBits(b)[i - 8]
  {}

  lemma NarrowHigh(b: bv8, i: nat)
    requires i < 8
    ensures !Bit(b as bv32, i)
  {}

  lemma JoinedIsXor(hi: bv8, lo: bv8)
    ensures Joined(hi, lo) == ((hi as bv32) << 8) ^ (lo as bv32)
    ensures Joined(hi, lo) < 0x10000
  {}

  lemma NarrowBits(b: bv8)
    ensures Low(b as bv32) == Zeros(8) + ByteBits(b)
  {
    hide ByteBits, Bit;
    var w := b as bv32;
    forall i | 0 <= i < 16 ensures Low(w)[i] == (Zeros(8) + ByteBits(b))[i] {
      if i < 8 { NarrowHigh(b, i); } else { NarrowLow(b, i); }
    }
  }

  lemma XorHalves(a: seq<bool>, b: seq<bool>)
    requires |a| == |b| == 8
    ensures Xor(a + Zeros(8), Zeros(8) + b) == a + b
  {}

  lemma JoinedBits(hi: bv8, lo: bv8)
    ensures Low(Joined(hi, lo)) == ByteBits(hi) + ByteBits(lo) && Joined(hi, lo) < 0x10000
  {
    hide ByteBits, Low, Joined;
    NarrowBits(lo);
    WideBits(hi);
    XorLow((hi as bv32) << 8, lo as bv32);
    JoinedIsXor(hi, lo);
    XorHalves(ByteBits(hi), ByteBits(lo));
  }

  lemma NoBits(x: bv32)
    requires x < 0x10000 && Low(x) == Zeros(16)
    ensures x == 0
  {
    forall i | 0 <= i < 16 ensures x & MASKS[i] == 0 { assert !Low(x)[i]; }
    AllMasks(x);
  }

  lemma AllMasks(x: bv32)
    requires x < 0x10000 && forall i :: 0 <= i < 16 ==> x & MASKS[i] == 0
    ensures x == 0
  {
    assert x & MASKS[0] == 0 && x & MASKS[1] == 0 && x & MASKS[2] == 0 && x & MASKS[3] == 0;
    assert x & MASKS[4] == 0 && x & MASKS[5] == 0 && x & MASKS[6] == 0 && x & MASKS[7] == 0;
    assert x & MASKS[8] == 0 && x & MASKS[9] == 0 && x & MASKS[10] == 0 && x & MASKS[11] == 0;
    assert x & MASKS[12] == 0 && x & MASKS[13] == 0 && x & MASKS[14] == 0 && x & MASKS[15] == 0;
  }

  lemma XorSmall(c: bv32, d: bv32)
    requires c < 0x10000 && d < 0x10000
    ensures c ^ d < 0x10000 && (c ^ d == 0 ==> c == d)
  {}

  /** Two 16-bit values are equal when their bits are. */
  lemma LowEqual(c: bv32, d: bv32)
    requires c < 0x10000 && d < 0x10000
    ensures c == d <==> Low(c) == Low(d)
  {
    XorSmall(c, d);
    XorLow(c, d);
    XorZero(Low(c), Low(d));
    if Low(c) == Low(d) { NoBits(c ^ d); }
  }

  lemma Masked(c: bv32)
    ensures c & 0xffff < 0x10000 && Low(c & 0xffff) == Low(c)
  {
    hide Bit;
    forall i: nat | i < 16 ensures Bit(c & 0xffff, i) == Bit(c, i) { MaskInside(c, i); }
    BelowMask(c);
  }

  lemma BelowMask(c: bv32)
    ensures c & 0xffff < 0x10000
  {}

  lemma MaskInside(c: bv32, i: nat)
    requires i < 16
    ensures Bit(c & 0xffff, i) == Bit(c, i)
  {}

  // ---------------------------------------------------------------- the known check value

  /** One turn of the inner loop. */
  function Turned(c: bv32): bv32 {
    if c & 0x8000 != 0 then (c << 1) ^ 0x1021 else c << 1
  }

  /** One turn of the outer loop: a byte is added and shifted in. */
  function Fed(c: bv32, b: bv8): bv32 {
    Turned(Turned(Turned(Turned(Turned(Turned(Turned(Turned(c ^ ((b as bv32) << 8)))))))))
  }

  lemma OneTurn(c: bv32)
    ensures Low(Turned(c)) == Shift(Low(c))
  {
    LowShift(c);
  }

  lemma EightTurns(c: bv32)
    ensures Low(Turned(Turned(Turned(Turned(Turned(Turned(Turned(Turned(c)))))))))
         == Shift(Shift(Shift(Shift(Shift(Shift(Shift(Shift(Low(c)))))))))
  {
    hide Low, Shift, Turned;
    var c2 := Turned(Turned(c));
    var c4 := Turned(Turned(c2));
    var c6 := Turned(Turned(c4));
    OneTurn(c);
    OneTurn(Turned(c));
    OneTurn(c2);
    OneTurn(Turned(c2));
    OneTurn(c4);
    OneTurn(Turned(c4));
    OneTurn(c6);
    OneTurn(Turned(c6));
  }

  lemma EightShifts(r: seq<bool>)
    requires |r| == 16
    ensures ShiftN(r, 8) == Shift(Shift(Shift(Shift(Shift(Shift(Shift(Shift(r))))))))
  {
    hide Shift;
    var r2 := Shift(Shift(r));
    var r4 := Shift(Shift(r2));
    var r6 := Shift(Shift(r4));
    assert ShiftN(r, 8) == ShiftN(Shift(r), 7) == ShiftN(r2, 6);
    assert ShiftN(r2, 6) == ShiftN(Shift(r2), 5) == ShiftN(r4, 4);
    assert ShiftN(r4, 4) == ShiftN(Shift(r4), 3) == ShiftN(r6, 2);
    assert ShiftN(r6, 2) == ShiftN(Shift(r6), 1) == ShiftN(Shift(Shift(r6)), 0);
  }

  lemma FedIs(c: bv32, s: seq<bv8>, b: bv8)
    requires Low(c) == Crc16(s)
    ensures Low(Fed(c, b)) == Crc16(s + [b])
  {
    hide Low, Shift, ByteBits, Crc16, Turned, ShiftN;
    LowXor(c, b);
    ByteStep(s, b);
    var d := c ^ ((b as bv32) << 8);
    EightTurns(d);
    EightShifts(Low(d));
  }

  lemma FedDigits()
    ensures Fed(0x0, 0x31) == 0x322672
    ensures Fed(0x322672, 0x32) == 0x321520b5
    ensures Fed(0x321520b5, 0x33) == 0x15129752
    ensures Fed(0x15129752, 0x34) == 0x12a9d789
    ensures Fed(0x12a9d789, 0x35) == 0xa9ec546c
    ensures Fed(0xa9ec546c, 0x36) == 0xec6420e4
    ensures Fed(0xec6420e4, 0x37) == 0x641686d6
    ensures Fed(0x641686d6, 0x38) == 0x16b59015
    ensures Fed(0x16b59015, 0x39) == 0xb5a331c3
  {}

  /** The CRC of the nine digits, as it is published for this polynomial and register: 0x31C3. */
  lemma CheckValue()
    ensures Crc16([0x31, 0x32, 0x33, 0x34, 0x35, 0x36, 0x37, 0x38, 0x39]) == ByteBits(0x31) + ByteBits(0xC3)
  {
    hide Low, Crc16, ByteBits, Joined, Fed;
    EmptyCrc();
    FedDigits();
    var s: seq<bv8> := [0x31, 0x32, 0x33, 0x34, 0x35, 0x36, 0x37, 0x38, 0x39];
    FedIs(0x0, s[..0], 0x31);
    assert s[..0] + [0x31] == s[..1];
    FedIs(0x322672, s[..1], 0x32);
    assert s[..1] + [0x32] == s[..2];
    FedIs(0x321520b5, s[..2], 0x33);
    assert s[..2] + [0x33] == s[..3];
    FedIs(0x15129752, s[..3], 0x34);
    assert s[..3] + [0x34] == s[..4];
    FedIs(0x12a9d789, s[..4], 0x35);
    assert s[..4] + [0x35] == s[..5];
    FedIs(0xa9ec546c, s[..5], 0x36);
    assert s[..5] + [0x36] == s[..6];
    FedIs(0xec6420e4, s[..6], 0x37);
    assert s[..6] + [0x37] == s[..7];
    FedIs(0x641686d6, s[..7], 0x38);
    assert s[..7] + [0x38] == s[..8];
    FedIs(0x16b59015, s[..8], 0x39);
    assert s[..8] + [0x39] == s[..9];
    assert s[..9] == s && s[..0] == [];
    Masked(0xb5a331c3);
    JoinedBits(0x31, 0xC3);
    assert Joined(0x31, 0xC3) == 0xb5a331c3 & 0xffff by { JoinedCheck(); }
  }

  lemma JoinedCheck()
    ensures Joined(0x31, 0xC3) == 0xb5a331c3 & 0xffff
  {}

  // ---------------------------------------------------------------- the check

  function Sum(s: seq<bv8>): nat {
    if s == [] then 0 else Sum(s[..|s| - 1]) + s[|s| - 1] as nat
  }

  lemma {:induction false} SumPlus(a: seq<bv8>, b: seq<bv8>)
    ensures Sum(a + b) == Sum(a) + Sum(b)
  {
    if b == [] {
      assert a + b == a;
    } else {
      var n := |b| - 1;
      assert (a + b)[..|a + b| - 1] == a + b[..n];
      SumPlus(a, b[..n]);
    }
  }

  lemma SumOne(x: bv8)
    ensures Sum([x]) == x as nat
  {
    assert [x][..0] == [];
  }

  /** Only a block of zeros sums to zero. */
  lemma {:induction false} SumZero(s: seq<bv8>)
    ensures Sum(s) == 0 <==> forall i :: 0 <= i < |s| ==> s[i] == 0
  {
    if s != [] {
      var n := |s| - 1;
      SumZero(s[..n]);
      assert s[n] as nat == 0 <==> s[n] == 0;
      assert forall i :: 0 <= i < n ==> s[..n][i] == s[i];
    }
  }

  /** The block passes the CRC. */
  predicate CrcMatches(s: seq<bv8>, hi: bv8, lo: bv8) {
    Crc16(s) == ByteBits(hi) + ByteBits(lo)
  }

  const RCV_BUF_SIZE := 1029

  /** The check bytes fit the block: its CRC, or twice its sum, since the total of the first loop is
      still in the register when the summing loop of checksum mode adds to it. */
  predicate Passes(s: seq<bv8>, crcMode: bool, crch: bv8, crcl: bv8) {
    if crcMode then CrcMatches(s, crch, crcl) else 2 * Sum(s) % 256 == crch as nat
  }

  /** The return code: 2 for a block of zeros, whatever its check bytes are; else 0 for a block that
      passes in time, and 1 for any other. */
  function Verdict(s: seq<bv8>, crcMode: bool, crch: bv8, crcl: bv8, timedOut: bool): int {
    if Sum(s) == 0 then 2 else if timedOut || !Passes(s, crcMode, crch, crcl) then 1 else 0
  }

  /** crc_check after the check bytes have come in: the return code, and whether the block is
      marked as damaged. */
  method CrcCheck(buf: array<bv8>, len: nat, crcMode: bool, crch: bv8, crcl: bv8, timedOut: bool, recErr: bool)
    returns (ret: int, recErr': bool)
    requires len <= buf.Length == RCV_BUF_SIZE
    ensures ret == Verdict(buf[..len], crcMode, crch, crcl, timedOut)
    ensures recErr' == (recErr || (Sum(buf[..len]) != 0 && !Passes(buf[..len], crcMode, crch, crcl)))
    ensures Sum(buf[..len]) == 0 ==> ret == 2 && recErr' == recErr
    ensures Sum(buf[..len]) != 0 && timedOut ==> ret == 1
    ensures Sum(buf[..len]) != 0 && crcMode ==>
      var right := Crc16(buf[..len] + [crch, crcl]) == Zeros(16);
      (!timedOut ==> ret == if right then 0 else 1) && recErr' == (recErr || !right)
    ensures Sum(buf[..len]) != 0 && !crcMode ==>
      var right := 2 * Sum(buf[..len]) % 256 == crch as nat;
      (!timedOut ==> ret == if right then 0 else 1) && recErr' == (recErr || !right)
    ensures !crcMode && !timedOut && crch as nat == Sum(buf[..len]) % 256 ==>
      (ret == 0 <==> Sum(buf[..len]) != 0 && crch == 0)
  {
    hide ByteBits, Crc16, Low, Joined, Sum;
    MatchIffResidue(buf[..len], crch, crcl);
    if crch as nat == Sum(buf[..len]) % 256 {
      ChecksumModeDoubles(buf[..len], crch, crcl);
    }
    ret, recErr' := if timedOut then 1 else 0, recErr;
    var total := SumLoop(buf, len, 0);
    if total == 0 {
      return 2, recErr;
    }
    if crcMode {
      var cksum := CrcLoop(buf, len);
      Masked(cksum);
      JoinedBits(crch, crcl);
      LowEqual(cksum & 0xffff, Joined(crch, crcl));
      if cksum & 0xffff != Joined(crch, crcl) {
        recErr', ret := true, 1;
      }
    } else {
      total := SumLoop(buf, len, total);
      if total % 256 != crch as nat {
        recErr', ret := true, 1;
      }
    }
  }

  /** The summing loop of crc_check, which adds to whatever the total already holds. */
  method SumLoop(buf: array<bv8>, len: nat, start: nat) returns (total: nat)
    requires len <= buf.Length == RCV_BUF_SIZE && start <= 256 * RCV_BUF_SIZE
    ensures total == start + Sum(buf[..len]) < 0x1_0000_0000
    ensures start == 0 ==> total <= 256 * RCV_BUF_SIZE
  {
    total := start;
    for i := 0 to len
      invariant total == start + Sum(buf[..i]) && Sum(buf[..i]) <= 255 * i
    {
      assert buf[..i + 1][..i] == buf[..i];
      total := total + buf[i] as nat;
    }
  }

  lemma Doubled(n: nat)
    ensures 2 * n % 256 == n % 256 <==> n % 256 == 0
  {
    assert n == 256 * (n / 256) + n % 256;
    assert 2 * n == 256 * (2 * (n / 256)) + 2 * (n % 256);
  }

  /** Checksum mode doubles the sum: a block with its right checksum is accepted exactly when that
      checksum is 0 and the block is not all zeros. */
  lemma ChecksumModeDoubles(s: seq<bv8>, check: bv8, other: bv8)
    requires check as nat == Sum(s) % 256
    ensures Verdict(s, false, check, other, false) == 0 <==> Sum(s) != 0 && check == 0
  {
    hide Sum;
    Doubled(Sum(s));
    assert check == 0 <==> check as nat == 0;
  }

  /** The block of one byte 1 is rejected with its right checksum 1, and accepted with the wrong 2; a
      block of one byte 0 is answered by 2. */
  lemma RightChecksumRejected(other: bv8)
    ensures Sum([1]) % 256 == 1 && Verdict([1], false, 1, other, false) == 1
    ensures Verdict([1], false, 2, other, false) == 0
    ensures Sum([0]) % 256 == 0 && Verdict([0], false, 0, other, false) == 2
  {
    assert [1 as bv8][..0] == [] && [0 as bv8][..0] == [];
  }

  /** A block passes exactly when the CRC of the block followed by its check is zero. */
  lemma MatchIffResidue(s: seq<bv8>, hi: bv8, lo: bv8)
    ensures CrcMatches(s, hi, lo) <==> Crc16(s + [hi, lo]) == Zeros(16)
  {
    hide ByteBits;
    BitsConcat(s, [hi, lo]);
    assert [hi, lo] == [hi] + [lo];
    BitsConcat([hi], [lo]);
    OneByte(hi);
    OneByte(lo);
    ResidueIff(BitsOf(s), ByteBits(hi) + ByteBits(lo));
  }

  lemma ByteBitsDiffer(a: bv8, b: bv8)
    ensures ByteBits(a) == ByteBits(b) <==> a == b
  {
    if ByteBits(a) == ByteBits(b) {
      assert ByteBits(a)[0] == ByteBits(b)[0] && ByteBits(a)[1] == ByteBits(b)[1] && ByteBits(a)[2] == ByteBits(b)[2];
      assert ByteBits(a)[3] == ByteBits(b)[3] && ByteBits(a)[4] == ByteBits(b)[4] && ByteBits(a)[5] == ByteBits(b)[5];
      assert ByteBits(a)[6] == ByteBits(b)[6] && ByteBits(a)[7] == ByteBits(b)[7];
    }
  }

  lemma {:induction false} BitsDiffer(a: seq<bv8>, b: seq<bv8>)
    requires |a| == |b|
    ensures BitsOf(a) == BitsOf(b) <==> a == b
  {
    hide ByteBits;
    if a != [] && BitsOf(a) == BitsOf(b) {
      assert ByteBits(a[0]) == BitsOf(a)[..8] && ByteBits(b[0]) == BitsOf(b)[..8];
      assert BitsOf(a[1..]) == BitsOf(a)[8..] && BitsOf(b[1..]) == BitsOf(b)[8..];
      ByteBitsDiffer(a[0], b[0]);
      BitsDiffer(a[1..], b[1..]);
      assert a == [a[0]] + a[1..] && b == [b[0]] + b[1..];
    }
  }

  /** Damage confined to 16 consecutive bits of a block changes its CRC. */
  lemma BurstChangesCrc(a: seq<bv8>, b: seq<bv8>, k: nat)
    requires |a| == |b| && a != b && AgreeOutside(BitsOf(a), BitsOf(b), k, 16)
    ensures Crc16(a) != Crc16(b)
  {
    BitsDiffer(a, b);
    BurstDetected(BitsOf(a), BitsOf(b), k);
  }
}
