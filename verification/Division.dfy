/** The shift-and-subtract division of freertos_service.c in its machine words: every addition,
    subtraction and product below is checked to stay inside its type. */
module Division {

  const WORD := 0x1_0000_0000

  newtype u32 = x: int | 0 <= x < 0x1_0000_0000
  newtype u64 = x: int | 0 <= x < 0x1_0000_0000_0000_0000

  ghost function Pow2(k: nat): nat {
    if k == 0 then 1 else 2 * Pow2(k - 1)
  }

  /** A quotient and remainder are determined by their defining equation. */
  lemma DivModUnique(n: nat, base: nat, q: nat, r: nat)
    requires base > 0 && n == q * base + r && r < base
    ensures q == n / base && r == n % base
  {
    var q', r' := n / base, n % base;
    assert (q - q') * base == r' - r;
    OnlyZero(q - q', base);
  }

  lemma OnlyZero(k: int, base: int)
    requires -base < k * base < base
    ensures k == 0
  {
    if k != 0 { Far(k, base); }
  }

  lemma Far(k: int, base: int)
    requires k != 0 && base >= 0
    ensures k * base >= base || k * base <= -base
  {
    if k > 0 { Scales(k, base); } else { Scales(-k, base); }
  }

  lemma Scales(k: nat, base: nat)
    requires k >= 1
    ensures k * base >= base
  {}

  lemma Monotone(a: nat, b: nat, c: nat)
    requires a <= b
    ensures a * c <= b * c
  {}

  lemma {:induction false} Pow2Bound(k: nat)
    requires k < 32
    ensures Pow2(k) <= 0x8000_0000
  {
    Pow2Grows(k, 31);
    assert Pow2(8) == 0x100;
    assert Pow2(16) == 0x10000;
    assert Pow2(24) == 0x100_0000;
    assert Pow2(31) == 0x8000_0000;
  }

  lemma {:induction false} Pow2Grows(k: nat, m: nat)
    requires k <= m
    ensures Pow2(k) <= Pow2(m)
  {
    if k < m { Pow2Grows(k, m - 1); }
  }

  lemma Times(p: nat, q: nat, base: nat)
    ensures p == q ==> p * base == base * q
  {}

  lemma Twice(p: nat, base: nat)
    ensures 2 * p * base == 2 * (p * base)
  {}

  /** Doubling stays in range: below the reduced remainder the divisor has been doubled fewer than
      32 times. */
  lemma DoublingFits(k: nat, p: nat, base: nat, rem: nat)
    requires k <= 32 && p == Pow2(k) && p * base < rem < base * WORD && base < WORD
    ensures k < 32 && 2 * p <= WORD && 2 * p * base == 2 * (p * base) <= base * WORD < WORD * WORD
  {
    Pow2Of32();
    Times(p, WORD, base);
    Pow2Bound(k);
    Monotone(2 * p, WORD, base);
    Twice(p, base);
  }

  lemma Pow2Of32()
    ensures Pow2(32) == WORD
  {
    assert Pow2(8) == 0x100;
    assert Pow2(16) == 0x10000;
    assert Pow2(24) == 0x100_0000;
  }

  /** The first reduction: the quotient of the high word comes off whole. */
  lemma Reduced(n: nat, high: nat, low: nat, base: nat)
    requires n == high * WORD + low && low < WORD && 0 < base
    ensures var q := high / base;
      && q * base <= high
      && n == q * WORD * base + (n - q * base * WORD)
      && n - q * base * WORD == (high % base) * WORD + low
      && (high % base) * WORD + low < base * WORD
  {
    var q := high / base;
    assert high == q * base + high % base;
    assert high * WORD == q * base * WORD + (high % base) * WORD;
    assert q * WORD * base == q * base * WORD;
    assert (high % base + 1) * WORD <= base * WORD by { Monotone(high % base + 1, base, WORD); }
  }

  /** One subtraction moves `d` multiples of the base from the remainder to the quotient. */
  lemma Moved(n: nat, res: nat, rem: nat, d: nat, base: nat)
    requires n == res * base + rem && d * base <= rem && base > 0
    ensures n == (res + d) * base + (rem - d * base)
    ensures res + d <= n
  {
    assert (res + d) * base == res * base + d * base;
    Scales2(res + d, base);
  }

  lemma Scales2(k: nat, base: nat)
    requires base > 0
    ensures k <= k * base
  {}

  /** The loop that doubles the divisor until it reaches the remainder. */
  method Align(rem: u64, base: u32) returns (b: u64, d: u64, ghost k: nat)
    requires base != 0 && rem as int < base as int * WORD
    ensures d as int == Pow2(k) && b as int == d as int * base as int && b >= rem && b > 0
  {
    b, d, k := base as u64, 1, 0;
    while b > 0 && b < rem
      invariant k <= 32 && d as int == Pow2(k) && b as int == d as int * base as int && b > 0
      decreases 32 - k
    {
      DoublingFits(k, d as int, base as int, rem as int);
      b := b + b;
      d := d + d;
      k := k + 1;
    }
  }

  /** __div64_32: the quotient goes back through the pointer, the remainder is returned. */
  method Div64(n: u64, base: u32) returns (q: u64, r: u32)
    requires base != 0
    ensures n as int == q as int * base as int + r as int && r < base
    ensures q as int == n as int / base as int && r as int == n as int % base as int
  {
    var rem: u64, res: u64 := n, 0;
    var high: u32 := (rem as int / WORD) as u32;
    Reduced(n as int, high as int, n as int % WORD, base as int);
    if high >= base {
      high := high / base;
      res := (high as int * WORD) as u64;
      var product: u32 := high * base;
      rem := rem - (product as int * WORD) as u64;
    }
    var b, d, k := Align(rem, base);
    while true
      invariant n as int == res as int * base as int + rem as int
      invariant d as int == Pow2(k) && b as int == d as int * base as int
      invariant rem as int < 2 * b as int
      decreases d
    {
      if rem >= b {
        Moved(n as int, res as int, rem as int, d as int, base as int);
        rem := rem - b;
        res := res + d;
      }
      assert rem < b;
      Halved(k, d as int, base as int);
      b := b / 2;
      d := d / 2;
      if d == 0 {
        break;
      }
      k := k - 1;
    }
    q, r := res, rem as u32;
    DivModUnique(n as int, base as int, q as int, r as int);
  }

  /** Halving a power of two keeps the divisor in step with it. */
  lemma Halved(k: nat, d: nat, base: nat)
    requires d == Pow2(k)
    ensures k == 0 ==> d / 2 == 0 && d * base == base
    ensures k > 0 ==>
      d / 2 == Pow2(k - 1) && d / 2 > 0 && (d * base) / 2 == d / 2 * base && d * base == 2 * (d / 2 * base)
  {
    if k > 0 {
      PowPositive(k - 1);
      Twice(Pow2(k - 1), base);
    }
  }

  lemma {:induction false} PowPositive(k: nat)
    ensures Pow2(k) > 0
  {
    if k > 0 { PowPositive(k - 1); }
  }

  /** _freertos_modular64: the base is cut to 32 bits; a dividend of one word is divided directly. */
  method Modular64(n: u64, base: u64) returns (r: u64)
    requires base as int % WORD != 0
    ensures r as int == n as int % (base as int % WORD)
  {
    var low: u32 := (base as int % WORD) as u32;
    var rem: u32;
    if n as int / WORD == 0 {
      rem := (n as int % low as int) as u32;
    } else {
      var q;
      q, rem := Div64(n, low);
    }
    r := rem as u64;
  }

  /** Cutting the base to 32 bits is harmless for every dividend exactly when the base fits. */
  lemma TruncationHarmless(base: nat)
    requires base % WORD != 0
    ensures (forall n: nat :: n % (base % WORD) == n % base) <==> base < WORD
  {
    if base >= WORD {
      var n := base % WORD;
      assert n % n == 0 && n % base == n;
    }
  }
}
