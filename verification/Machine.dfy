/** The fixed-width integers of the assembler, as ranges of natural numbers. */
module Machine {

  const TWO32: nat := 0x1_0000_0000

  type u8 = n: nat | n < 0x100
  type u16 = n: nat | n < 0x1_0000
  type u32 = n: nat | n < 0x1_0000_0000
  type i32 = n: int | -0x8000_0000 <= n < 0x8000_0000

  /** A byte string: the contents of a `std::string`. */
  type Bytes = seq<u8>

  /** Conversion to `uint32_t`: reduction modulo 2^32. */
  function Wrap(n: int): (w: u32)
    ensures 0 <= n < TWO32 ==> w == n
  {
    n % TWO32
  }

  /** The two's complement reading of a number below `2 * half`. */
  function Signed(n: nat, half: nat): int {
    if n >= half then n - 2 * half else n
  }

  function Pow2(k: nat): (p: nat)
    ensures p > 0
  {
    if k == 0 then 1 else 2 * Pow2(k - 1)
  }

  /** The inclusive or of the low `k` bits of `a` and `b`, one bit at a time. */
  function OrBits(a: nat, b: nat, k: nat): nat {
    if k == 0 then 0 else 2 * OrBits(a / 2, b / 2, k - 1) + if a % 2 == 1 || b % 2 == 1 then 1 else 0
  }

  /** Quotient and remainder are determined by the division identity. */
  lemma DivMod(n: int, m: int, q: int, r: int)
    requires 0 <= r < m && n == m * q + r
    ensures n / m == q && n % m == r
  {
    var d := n / m - q;
    assert m * d == r - n % m;
    assert d >= 1 ==> m * d >= m;
    assert d <= -1 ==> m * d <= -m;
  }

  lemma MulFacts(a: int, b: int, x: int, y: int)
    ensures a * (x + y) == a * x + a * y
    ensures a * (b * x) == (a * b) * x
    ensures a >= 0 && x <= y ==> a * x <= a * y
  {}

  lemma Nest(v: int, a: int, b: int, h: int, lo: int, hq: int, hr: int)
    requires v == a * h + lo && h == b * hq + hr && 0 <= lo < a && 0 <= hr < b
    ensures v == (a * b) * hq + (a * hr + lo) && 0 <= a * hr + lo < a * b
  {
    MulFacts(a, b, b * hq, hr);
    MulFacts(a, b, hq, 0);
    MulFacts(a, b, hr, b - 1);
    MulFacts(a, b, b, -1);
    MulFacts(a, b, 0, hr);
  }

  lemma {:induction false} OrZero(a: nat, k: nat)
    requires a < Pow2(k)
    ensures OrBits(a, 0, k) == a
  {
    if k > 0 {
      OrZero(a / 2, k - 1);
    }
  }

  lemma Doubled(hi: nat, p: nat)
    requires p > 0
    ensures hi * Pow2(p) == 2 * (hi * Pow2(p - 1))
  {
    MulFacts(hi, 2, Pow2(p - 1), 0);
  }

  lemma Halved(n: nat, p: nat)
    requires p > 0 && n < Pow2(p)
    ensures n / 2 < Pow2(p - 1)
  {}

  lemma OrEven(half: nat, lo: nat, k: nat)
    requires k > 0
    ensures OrBits(2 * half, lo, k) == 2 * OrBits(half, lo / 2, k - 1) + lo % 2
  {
    var even := 2 * half;
    DivMod(even, 2, half, 0);
    assert OrBits(even, lo, k) == 2 * OrBits(even / 2, lo / 2, k - 1) + if even % 2 == 1 || lo % 2 == 1 then 1 else 0;
    hide OrBits;
  }

  /** Or-ing with a number below bit `p` something that has no bits below `p` is addition. */
  lemma {:induction false} OrOfDisjoint(hi: nat, lo: nat, p: nat, k: nat)
    requires p <= k && lo < Pow2(p) && hi < Pow2(k - p)
    ensures OrBits(hi * Pow2(p), lo, k) == hi * Pow2(p) + lo
    decreases p, 1
  {
    if p == 0 {
      OrZero(hi, k);
    } else {
      OrOfDisjointStep(hi, lo, p, k);
    }
  }

  lemma {:induction false} OrOfDisjointStep(hi: nat, lo: nat, p: nat, k: nat)
    requires 0 < p <= k && lo < Pow2(p) && hi < Pow2(k - p)
    ensures OrBits(hi * Pow2(p), lo, k) == hi * Pow2(p) + lo
    decreases p, 0
  {
    hide OrBits, Pow2;
    Doubled(hi, p);
    Halved(lo, p);
    OrEven(hi * Pow2(p - 1), lo, k);
    OrOfDisjoint(hi, lo / 2, p - 1, k - 1);
  }

  lemma Pow2Values()
    ensures Pow2(1) == 2 && Pow2(7) == 0x80 && Pow2(8) == 0x100 && Pow2(11) == 0x800 && Pow2(12) == 0x1000
    ensures Pow2(15) == 0x8000 && Pow2(17) == 0x2_0000 && Pow2(20) == 0x10_0000 && Pow2(21) == 0x20_0000
    ensures Pow2(24) == 0x100_0000 && Pow2(25) == 0x200_0000 && Pow2(31) == 0x8000_0000 && Pow2(32) == TWO32
  {
    assert Pow2(4) == 16;
    assert Pow2(10) == 0x400;
    assert Pow2(17) == 0x2_0000;
    assert Pow2(23) == 0x80_0000;
    assert Pow2(28) == 0x1000_0000;
  }

  /** Dividing by `a` leaves, above the remainder by `b`, what dividing by `c = a * b` leaves. */
  lemma Peel(v: nat, a: nat, b: nat, c: nat)
    requires a > 0 && b > 0 && c == a * b
    ensures v / a == (v / c) * b + (v / a) % b
  {
    var h, lo := v / a, v % a;
    var hq, hr := h / b, h % b;
    Nest(v, a, b, h, lo, hq, hr);
    DivMod(v, c, hq, a * hr + lo);
  }
}
