/** The 32-bit FNV-1a hash that keys label addresses. */
module Hash {
  import opened Machine

  const OFFSET_BASIS: u32 := 2166136261

  /** The exclusive or of the low `k` bits of `a` and `b`, one bit at a time. */
  function XorBits(a: nat, b: nat, k: nat): (x: nat)
    ensures x < Pow2(k)
  {
    if k == 0 then 0 else 2 * XorBits(a / 2, b / 2, k - 1) + (a + b) % 2
  }

  /** One round of the hash: exclusive or with the byte, then a `uint32_t` multiplication by the FNV prime. */
  function HashStep(hash: u32, c: u8): u32 {
    Wrap(XorBits(hash, c, 32) * 16777619)
  }

  function HashFrom(hash: u32, s: Bytes): u32
    decreases |s|
  {
    if s == [] then hash else HashFrom(HashStep(hash, s[0]), s[1..])
  }

  function HashOf(s: Bytes): u32 {
    HashFrom(OFFSET_BASIS, s)
  }

  method Hasher(input: Bytes) returns (hash: u32)
    ensures hash == HashOf(input)
  {
    hash := OFFSET_BASIS;
    for i := 0 to |input|
      invariant HashFrom(hash, input[i..]) == HashOf(input)
    {
      assert input[i..][0] == input[i] && input[i..][1..] == input[i + 1..];
      hash := HashStep(hash, input[i]);
    }
    assert input[|input|..] == [];
  }

  // ---------- Every round is a bijection, in the state and in the byte ----------

  lemma UndoBit(a: nat, b: nat, half: nat)
    ensures var x := 2 * half + (a + b) % 2; x / 2 == half && (x + b) % 2 == a % 2
  {}

  lemma {:induction false} XorUndone(a: nat, b: nat, k: nat)
    requires a < Pow2(k)
    ensures XorBits(XorBits(a, b, k), b, k) == a
  {
    if k > 0 {
      XorUndone(a / 2, b / 2, k - 1);
      var half := XorBits(a / 2, b / 2, k - 1);
      UndoBit(a, b, half);
    }
  }

  lemma {:induction false} XorCommutes(a: nat, b: nat, k: nat)
    ensures XorBits(a, b, k) == XorBits(b, a, k)
  {
    if k > 0 {
      XorCommutes(a / 2, b / 2, k - 1);
    }
  }

  /** 0x359C449B is the inverse of the FNV prime modulo 2^32. */
  lemma MultiplyUndone(x: u32)
    ensures Wrap(Wrap(x * 16777619) * 0x359C449B) == x
  {
    var q := (x * 16777619) / TWO32;
    assert 16777619 * 0x359C449B == 3513497 * TWO32 + 1;
    DivMod(Wrap(x * 16777619) * 0x359C449B, TWO32, x * 3513497 - q * 0x359C449B, x);
  }

  lemma StepInjective(h: u32, h': u32, c: u8)
    requires HashStep(h, c) == HashStep(h', c)
    ensures h == h'
  {
    Pow2Values();
    MultiplyUndone(XorBits(h, c, 32));
    MultiplyUndone(XorBits(h', c, 32));
    XorUndone(h, c, 32);
    XorUndone(h', c, 32);
  }

  lemma StepInjectiveInByte(h: u32, c: u8, d: u8)
    requires HashStep(h, c) == HashStep(h, d)
    ensures c == d
  {
    Pow2Values();
    MultiplyUndone(XorBits(h, c, 32));
    MultiplyUndone(XorBits(h, d, 32));
    XorCommutes(h, c, 32);
    XorCommutes(h, d, 32);
    XorUndone(c, h, 32);
    XorUndone(d, h, 32);
  }

  lemma {:induction false} HashFromInjective(h: u32, h': u32, s: Bytes)
    requires HashFrom(h, s) == HashFrom(h', s)
    ensures h == h'
    decreases |s|
  {
    if s != [] {
      HashFromInjective(HashStep(h, s[0]), HashStep(h', s[0]), s[1..]);
      StepInjective(h, h', s[0]);
    }
  }

  lemma {:induction false} HashFromConcat(h: u32, u: Bytes, s: Bytes)
    ensures HashFrom(h, u + s) == HashFrom(HashFrom(h, u), s)
    decreases |u|
  {
    if u == [] {
      assert u + s == s;
    } else {
      assert (u + s)[0] == u[0] && (u + s)[1..] == u[1..] + s;
      HashFromConcat(HashStep(h, u[0]), u[1..], s);
    }
  }

  /** A common suffix neither creates nor removes a collision. */
  lemma SuffixCancels(u: Bytes, v: Bytes, s: Bytes)
    ensures HashOf(u + s) == HashOf(v + s) <==> HashOf(u) == HashOf(v)
  {
    HashFromConcat(OFFSET_BASIS, u, s);
    HashFromConcat(OFFSET_BASIS, v, s);
    if HashOf(u + s) == HashOf(v + s) {
      HashFromInjective(HashOf(u), HashOf(v), s);
    }
  }

  lemma HashOfSnoc(p: Bytes, c: u8)
    ensures HashOf(p + [c]) == HashStep(HashOf(p), c)
  {
    HashFromConcat(OFFSET_BASIS, p, [c]);
    assert [c][1..] == [];
  }

  /** Two labels of equal length that differ in exactly one character never collide. */
  lemma OneCharacterApart(u: Bytes, v: Bytes, i: nat)
    requires |u| == |v| && i < |u| && u[i] != v[i]
    requires forall j :: 0 <= j < |u| && j != i ==> u[j] == v[j]
    ensures HashOf(u) != HashOf(v)
  {
    if HashOf(u) == HashOf(v) {
      var p, s := u[..i], u[i + 1..];
      assert p == v[..i] && s == v[i + 1..];
      assert u == (p + [u[i]]) + s && v == (p + [v[i]]) + s;
      SuffixCancels(p + [u[i]], p + [v[i]], s);
      HashOfSnoc(p, u[i]);
      HashOfSnoc(p, v[i]);
      StepInjectiveInByte(HashOf(p), u[i], v[i]);
      assert false;
    }
  }

  // ---------- Two labels that do collide ----------

  lemma {:induction false} XorZero(a: nat, k: nat)
    requires a < Pow2(k)
    ensures XorBits(a, 0, k) == a
  {
    if k > 0 {
      XorZero(a / 2, k - 1);
    }
  }

  /** An exclusive or with a number below bit `p` leaves the bits from `p` on. */
  lemma {:induction false} XorHigh(hi: nat, lo: nat, c: nat, p: nat, k: nat)
    requires p <= k && lo < Pow2(p) && c < Pow2(p) && hi < Pow2(k - p)
    ensures XorBits(hi * Pow2(p) + lo, c, k) == hi * Pow2(p) + XorBits(lo, c, p)
    decreases p, 1
  {
    if p == 0 {
      XorZero(hi, k);
    } else {
      XorHighStep(hi, lo, c, p, k);
    }
  }

  lemma {:induction false} XorHighStep(hi: nat, lo: nat, c: nat, p: nat, k: nat)
    requires 0 < p <= k && lo < Pow2(p) && c < Pow2(p) && hi < Pow2(k - p)
    ensures XorBits(hi * Pow2(p) + lo, c, k) == hi * Pow2(p) + XorBits(lo, c, p)
    decreases p, 0
  {
    hide XorBits, Pow2;
    Doubled(hi, p);
    Halved(lo, p);
    Halved(c, p);
    XorEven(hi * Pow2(p - 1), lo, c, k);
    XorEven(0, lo, c, p);
    XorHigh(hi, lo / 2, c / 2, p - 1, k - 1);
  }

  lemma XorEven(half: nat, lo: nat, c: nat, k: nat)
    requires k > 0
    ensures XorBits(2 * half + lo, c, k) == 2 * XorBits(half + lo / 2, c / 2, k - 1) + (lo + c) % 2
  {
    assert (2 * half + lo) / 2 == half + lo / 2;
    assert (2 * half + lo + c) % 2 == (lo + c) % 2;
  }

  function Shift(a: nat, d: nat): nat
    requires d > 0
  {
    a / d
  }

  predicate Even(a: nat, b: nat, r: nat) {
    (a + b + r) % 2 == 0
  }

  /** In the bit that `d` selects, three numbers add up to an even number. */
  predicate EvenBit(a: nat, b: nat, r: nat, d: nat)
    requires d > 0
  {
    (a / d + b / d + r / d) % 2 == 0
  }

  /** `r` is the exclusive or of two bytes. */
  predicate IsXor(a: u8, b: u8, r: u8) {
    && EvenBit(a, b, r, 1) && EvenBit(a, b, r, 2) && EvenBit(a, b, r, 4) && EvenBit(a, b, r, 8)
    && EvenBit(a, b, r, 16) && EvenBit(a, b, r, 32) && EvenBit(a, b, r, 64) && EvenBit(a, b, r, 128)
  }

  lemma EvenAt(a: nat, b: nat, r: nat, d: nat)
    requires d > 0 && EvenBit(a, b, r, d)
    ensures Even(Shift(a, d), Shift(b, d), Shift(r, d))
  {}

  lemma Shifts(a: u8)
    ensures Shift(a, 1) == a && Shift(Shift(a, 2), 2) == Shift(a, 4) && Shift(Shift(a, 4), 2) == Shift(a, 8)
    ensures Shift(Shift(a, 8), 2) == Shift(a, 16) && Shift(Shift(a, 16), 2) == Shift(a, 32)
    ensures Shift(Shift(a, 32), 2) == Shift(a, 64) && Shift(Shift(a, 64), 2) == Shift(a, 128)
    ensures Shift(Shift(a, 128), 2) == 0
  {}

  lemma SameParity(x: nat, r: nat)
    requires (x + r) % 2 == 0
    ensures r == 2 * (r / 2) + x % 2
  {}

  lemma XorDigit(a: nat, b: nat, r: nat, k: nat)
    requires Even(a, b, r) && XorBits(Shift(a, 2), Shift(b, 2), k) == Shift(r, 2)
    ensures XorBits(a, b, k + 1) == r
  {
    SameParity(a + b, r);
  }

  lemma XorOfBytes(a: u8, b: u8, r: u8)
    requires IsXor(a, b, r)
    ensures XorBits(a, b, 8) == r
  {
    hide XorBits, Shift, Even, EvenBit;
    Shifts(a);
    Shifts(b);
    Shifts(r);
    XorZero(0, 0);
    EvenAt(a, b, r, 128);
    XorDigit(Shift(a, 128), Shift(b, 128), Shift(r, 128), 0);
    EvenAt(a, b, r, 64);
    XorDigit(Shift(a, 64), Shift(b, 64), Shift(r, 64), 1);
    EvenAt(a, b, r, 32);
    XorDigit(Shift(a, 32), Shift(b, 32), Shift(r, 32), 2);
    EvenAt(a, b, r, 16);
    XorDigit(Shift(a, 16), Shift(b, 16), Shift(r, 16), 3);
    EvenAt(a, b, r, 8);
    XorDigit(Shift(a, 8), Shift(b, 8), Shift(r, 8), 4);
    EvenAt(a, b, r, 4);
    XorDigit(Shift(a, 4), Shift(b, 4), Shift(r, 4), 5);
    EvenAt(a, b, r, 2);
    XorDigit(Shift(a, 2), Shift(b, 2), Shift(r, 2), 6);
    EvenAt(a, b, r, 1);
    XorDigit(a, b, r, 7);
  }

  /** One round, from known state to known state. */
  lemma Round(s: Bytes, i: nat, c: u8, hi: nat, lo: u8, low: u8, q: nat, hash': u32)
    requires i < |s| && s[i] == c && hi < 0x100_0000 && IsXor(lo, c, low)
    requires (hi * 0x100 + low) * 16777619 == q * TWO32 + hash'
    ensures HashFrom(hi * 0x100 + lo, s[i..]) == HashFrom(hash', s[i + 1..])
  {
    hide XorBits, IsXor, Pow2;
    Pow2Values();
    XorHigh(hi, lo, c, 8, 32);
    XorOfBytes(lo, c, low);
    DivMod(q * TWO32 + hash', TWO32, q, hash');
    assert s[i..][1..] == s[i + 1..];
  }

  /** "zink" and "altarag". */
  const ZINK: Bytes := [0x7A, 0x69, 0x6E, 0x6B]
  const ALTARAG: Bytes := [0x61, 0x6C, 0x74, 0x61, 0x72, 0x61, 0x67]

  lemma HashOfZink(s: Bytes)
    requires s == ZINK
    ensures HashOf(s) == 0xBD1B_8E57
  {
    hide HashFrom;
    assert s[0..] == s;
    Round(s, 0, 0x7A, 0x81_1C9D, 0xC5, 0xBF, 0x81_1D68, 0xFF0C_53AD);
    Round(s, 1, 0x69, 0xFF_0C53, 0xAD, 0xC4, 0xFF_0DE5, 0x4467_DD8C);
    Round(s, 2, 0x6E, 0x44_67DD, 0x8C, 0xE2, 0x44_6849, 0x9182_4AC6);
    Round(s, 3, 0x6B, 0x91_824A, 0xC6, 0xAD, 0x91_832F, 0xBD1B_8E57);
    HashDone(0xBD1B_8E57, s[4..]);
  }

  lemma HashOfAltarag(s: Bytes)
    requires s == ALTARAG
    ensures HashOf(s) == 0xBD1B_8E57
  {
    hide HashFrom;
    assert s[0..] == s;
    Round(s, 0, 0x61, 0x81_1C9D, 0xC5, 0xA4, 0x81_1D68, 0xE40C_292C);
    Round(s, 1, 0x6C, 0xE4_0C29, 0x2C, 0x40, 0xE4_0D90, 0x3F24_EFC0);
    Round(s, 2, 0x74, 0x3F_24EF, 0xC0, 0xB4, 0x3F_2553, 0x1B25_585C);
    Round(s, 3, 0x61, 0x1B_2558, 0x5C, 0x3D, 0x1B_2582, 0xF8C9_E807);
    Round(s, 4, 0x72, 0xF8_C9E8, 0x7, 0x75, 0xF8_CB70, 0x1AD8_F02F);
    Round(s, 5, 0x61, 0x1A_D8F0, 0x2F, 0x4E, 0x1A_D91A, 0x9182_4ACA);
    Round(s, 6, 0x67, 0x91_824A, 0xCA, 0xAD, 0x91_832F, 0xBD1B_8E57);
    HashDone(0xBD1B_8E57, s[7..]);
  }

  lemma HashDone(hash: u32, s: Bytes)
    requires s == []
    ensures HashFrom(hash, s) == hash
  {}

  /** Two different labels with one hash, and, as a common ending keeps a collision, as many more as wanted. */
  lemma CollisionExists(ending: Bytes)
    ensures ZINK + ending != ALTARAG + ending && HashOf(ZINK + ending) == HashOf(ALTARAG + ending)
  {
    hide HashOf;
    HashOfZink(ZINK);
    HashOfAltarag(ALTARAG);
    SuffixCancels(ZINK, ALTARAG, ending);
    assert |ZINK + ending| != |ALTARAG + ending|;
  }
}
