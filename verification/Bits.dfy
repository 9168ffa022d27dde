/** Machine arithmetic used by the models: powers of two, the bitwise operators
    C applies to unsigned words, and 32-bit two's complement wrap-around. */
module Bits {

  function Pow2(k: nat): (p: nat)
    ensures p >= 1
  {
    if k == 0 then 1 else 2 * Pow2(k - 1)
  }

  /** Bitwise `&` of two unsigned words. */
  function And(x: nat, y: nat): nat {
    if x == 0 || y == 0 then 0 else 2 * And(x / 2, y / 2) + (x % 2) * (y % 2)
  }

  /** Bitwise `^` of two unsigned words. */
  function Xor(x: nat, y: nat): nat
    decreases x + y
  {
    if x == 0 then y else if y == 0 then x else 2 * Xor(x / 2, y / 2) + (x + y) % 2
  }

  /** Bit j of an unsigned word, counted from the least significant end. */
  predicate Bit(x: nat, j: nat) {
    if j == 0 then x % 2 == 1 else Bit(x / 2, j - 1)
  }

  lemma DivModUnique(x: int, n: int, q: int, r: int)
    requires n > 0 && x == n * q + r && 0 <= r < n
    ensures x / n == q && x % n == r
  {
    var a := x / n;
    MulGap(n, a, q);
    MulGap(n, q, a);
  }

  lemma MulGap(n: int, a: int, b: int)
    requires n > 0
    ensures a > b ==> n * a >= n * b + n
  {
    if a > b {
      assert n * a == n * b + n * (a - b);
      assert n * (a - b) == n + n * (a - b - 1);
      MulNonNegative(n, a - b - 1);
    }
  }

  lemma MulNonNegative(a: int, b: int)
    requires a >= 0 && b >= 0
    ensures a * b >= 0
  {
  }

  lemma ModShift(x: int, n: int, k: int)
    requires n > 0
    ensures (x + n * k) % n == x % n
  {
    DivModUnique(x + n * k, n, x / n + k, x % n);
  }

  /** Adding congruent numbers keeps them congruent. */
  lemma ModAdd(x: int, y: int, n: int)
    requires n > 0
    ensures (x % n + y) % n == (x + y) % n
  {
    ModShift(x % n + y, n, x / n);
  }

  lemma {:induction false} Pow2Add(j: nat, k: nat)
    ensures Pow2(j + k) == Pow2(j) * Pow2(k)
  {
    if j != 0 {
      Pow2Add(j - 1, k);
      Pow2Step(j);
      Pow2Step(j + k);
      hide Pow2;
      assert j + k - 1 == (j - 1) + k;
      MulShuffle(2, Pow2(j - 1), Pow2(k));
    }
  }

  lemma Pow2Step(k: nat)
    requires k > 0
    ensures Pow2(k) == 2 * Pow2(k - 1)
  {
  }

  lemma Pow2Grows(j: nat, k: nat)
    requires j <= k
    ensures Pow2(j) <= Pow2(k)
  {
    Pow2Add(j, k - j);
    MulNonNegative(Pow2(j), Pow2(k - j) - 1);
  }

  lemma Pow2At32()
    ensures Pow2(32) == 0x1_0000_0000
  {
    assert Pow2(8) == 256;
    Pow2Add(8, 8);
    Pow2Add(16, 16);
  }

  /** Reducing first modulo a power of two and then modulo a smaller one. */
  lemma ModPow2Nested(x: int, j: nat, k: nat)
    requires j <= k
    ensures (x % Pow2(k)) % Pow2(j) == x % Pow2(j)
  {
    Pow2Add(j, k - j);
    ModNested(x, Pow2(j), Pow2(k - j));
  }

  lemma ModNested(x: int, n: int, m: int)
    requires n > 0 && m > 0 && n * m > 0
    ensures (x % (n * m)) % n == x % n
  {
    var q := x / (n * m);
    assert x == (n * m) * q + x % (n * m);
    MulShuffle(n, m, q);
    ModShift(x % (n * m), n, m * q);
  }

  lemma MulShuffle(n: int, m: int, q: int)
    ensures (n * m) * q == n * (m * q)
  {
  }

  /** Masking with 2^k - 1 is reduction modulo 2^k. */
  lemma {:induction false} AndMask(x: nat, k: nat)
    ensures And(x, Pow2(k) - 1) == x % Pow2(k)
  {
    hide And, Pow2;
    if k == 0 {
      MaskNone(x);
    } else {
      Pow2Step(k);
      AndMask(x / 2, k - 1);
      MaskStep(x, Pow2(k - 1));
    }
  }

  lemma MaskNone(x: nat)
    ensures And(x, Pow2(0) - 1) == x % Pow2(0)
  {
  }

  lemma MaskStep(x: nat, m: nat)
    requires m > 0 && And(x / 2, m - 1) == (x / 2) % m
    ensures And(x, 2 * m - 1) == x % (2 * m)
  {
    hide And;
    ModDouble(x, m);
    AndOdd(x, m - 1);
    assert 2 * (m - 1) + 1 == 2 * m - 1;
  }

  lemma AndOdd(x: nat, y: nat)
    ensures And(x, 2 * y + 1) == 2 * And(x / 2, y) + x % 2
  {
    assert (2 * y + 1) / 2 == y && (2 * y + 1) % 2 == 1;
  }

  lemma ModDouble(x: nat, m: nat)
    requires m > 0
    ensures x % (2 * m) == 2 * ((x / 2) % m) + x % 2
  {
    var h := x / 2;
    var q, r := h / m, h % m;
    assert h == m * q + r;
    assert (2 * m) * q == 2 * (m * q);
    DivModUnique(x, 2 * m, q, 2 * r + x % 2);
  }

  /** Testing one bit with a one-bit mask. */
  lemma {:induction false} AndOneBit(x: nat, j: nat)
    ensures And(x, Pow2(j)) != 0 <==> Bit(x, j)
  {
    if x == 0 {
      ZeroHasNoBits(j);
    } else if j != 0 {
      assert Pow2(j) / 2 == Pow2(j - 1) && Pow2(j) % 2 == 0;
      AndOneBit(x / 2, j - 1);
    }
  }

  lemma {:induction false} ZeroHasNoBits(j: nat)
    ensures !Bit(0, j)
  {
    if j != 0 { ZeroHasNoBits(j - 1); }
  }

  lemma {:induction false} AndBit(x: nat, y: nat, j: nat)
    ensures Bit(And(x, y), j) <==> Bit(x, j) && Bit(y, j)
  {
    if x == 0 || y == 0 {
      ZeroHasNoBits(j);
    } else {
      AndHalves(x, y);
      hide And;
      if j != 0 { AndBit(x / 2, y / 2, j - 1); }
    }
  }

  lemma AndHalves(x: nat, y: nat)
    ensures And(x, y) / 2 == And(x / 2, y / 2)
    ensures And(x, y) % 2 == 1 <==> x % 2 == 1 && y % 2 == 1
  {
  }

  /** Bit j is the remainder of the j-th halving. */
  lemma {:induction false} BitMeans(x: nat, j: nat)
    ensures Bit(x, j) <==> x / Pow2(j) % 2 == 1
  {
    if j != 0 {
      BitMeans(x / 2, j - 1);
      HalfFirst(x, Pow2(j - 1));
    }
  }

  lemma HalfFirst(x: nat, m: nat)
    requires m > 0
    ensures x / 2 / m == x / (2 * m)
  {
    var h := x / 2;
    var q, r := h / m, h % m;
    assert h == m * q + r;
    assert (2 * m) * q == 2 * (m * q);
    DivModUnique(x, 2 * m, q, 2 * r + x % 2);
  }

  lemma {:induction false} XorHalves(x: nat, y: nat)
    ensures Xor(x, y) / 2 == Xor(x / 2, y / 2) && Xor(x, y) % 2 == (x + y) % 2
  {
  }

  lemma {:induction false} XorBit(x: nat, y: nat, j: nat)
    ensures Bit(Xor(x, y), j) <==> Bit(x, j) != Bit(y, j)
  {
    XorHalves(x, y);
    if j == 0 { ParitySum(x, y); } else { XorBit(x / 2, y / 2, j - 1); }
  }

  lemma ParitySum(x: nat, y: nat)
    ensures (x + y) % 2 == (x % 2 + y % 2) % 2
  {
  }

  lemma {:induction false} XorCommutes(x: nat, y: nat)
    ensures Xor(x, y) == Xor(y, x)
    decreases x + y
  {
    if x != 0 && y != 0 { XorCommutes(x / 2, y / 2); }
  }

  lemma {:induction false} XorAssociates(x: nat, y: nat, z: nat)
    ensures Xor(Xor(x, y), z) == Xor(x, Xor(y, z))
    decreases x + y + z
  {
    if x != 0 && y != 0 && z != 0 {
      XorAssociates(x / 2, y / 2, z / 2);
      XorTwice(x, y, z);
      XorCommutes(x, Xor(y, z));
      XorCommutes(x / 2, Xor(y / 2, z / 2));
      XorTwice(y, z, x);
      assert x + y + z == y + z + x;
      SameWord(Xor(Xor(x, y), z), Xor(Xor(y, z), x));
    }
  }

  lemma XorTwice(x: nat, y: nat, z: nat)
    ensures Xor(Xor(x, y), z) / 2 == Xor(Xor(x / 2, y / 2), z / 2)
    ensures Xor(Xor(x, y), z) % 2 == (x + y + z) % 2
  {
    hide Xor;
    var w := Xor(x, y);
    XorHalves(x, y);
    XorWithHalves(w, z, Xor(x / 2, y / 2), x + y);
  }

  lemma XorWithHalves(w: nat, z: nat, h: nat, p: nat)
    requires w / 2 == h && w % 2 == p % 2
    ensures Xor(w, z) / 2 == Xor(h, z / 2) && Xor(w, z) % 2 == (p + z) % 2
  {
    XorHalves(w, z);
    ParityCongruent(w, p, z);
  }

  lemma ParityCongruent(a: nat, b: nat, z: nat)
    requires a % 2 == b % 2
    ensures (a + z) % 2 == (b + z) % 2
  {
  }

  lemma SameWord(a: nat, b: nat)
    requires a / 2 == b / 2 && a % 2 == b % 2
    ensures a == b
  {
  }

  lemma {:induction false} XorSelf(x: nat)
    ensures Xor(x, x) == 0
  {
    if x != 0 { XorSelf(x / 2); }
  }

  /** Four words may be combined in either pairing. */
  lemma XorPairs(a: nat, b: nat, c: nat, d: nat)
    ensures Xor(Xor(a, b), Xor(c, d)) == Xor(Xor(a, c), Xor(b, d))
  {
    XorAssociates(a, b, Xor(c, d));
    XorAssociates(b, c, d);
    XorCommutes(b, c);
    XorAssociates(c, b, d);
    XorAssociates(a, c, Xor(b, d));
  }

  lemma {:induction false} XorBelow(x: nat, y: nat, k: nat)
    requires x < Pow2(k) && y < Pow2(k)
    ensures Xor(x, y) < Pow2(k)
  {
    if x != 0 && y != 0 { XorBelow(x / 2, y / 2, k - 1); }
  }

  const TWO31 := 0x8000_0000
  const TWO32 := 0x1_0000_0000

  /** The C `int` that holds x after two's complement wrap-around. */
  function Wrap32(x: int): (w: int)
    ensures -TWO31 <= w < TWO31
  {
    (x + TWO31) % TWO32 - TWO31
  }

  /** A C `int` converted to `unsigned int`. */
  function AsUnsigned(w: int): nat {
    w % TWO32
  }

  lemma WrapAdd(x: int, y: int)
    ensures Wrap32(Wrap32(x) + y) == Wrap32(x + y)
  {
    ModAdd(x + TWO31, y, TWO32);
  }

  /** The equality test on wrapped clocks is exact within one lap. */
  lemma WrapInjective(a: int, b: int)
    requires -TWO32 < a - b < TWO32
    ensures Wrap32(a) == Wrap32(b) <==> a == b
  {
  }

  /** The signed-difference test `(int)(a - b) < 0` on wrapped clocks: for a clock a
      that is less than one lap behind b it answers a < b exactly while the lag is
      at most 2^31. */
  lemma SignedLagTest(a: int, b: int)
    requires 0 <= b - a < TWO32
    ensures Wrap32(Wrap32(a) - Wrap32(b)) < 0 <==> a < b && b - a <= TWO31
  {
  }

  /** The masked bucket index does not see the wrap-around. */
  lemma MaskedWrap(x: int, k: nat)
    requires k <= 32
    ensures And(AsUnsigned(Wrap32(x)), Pow2(k) - 1) == x % Pow2(k)
  {
    Pow2At32();
    var w := Wrap32(x);
    var q := (x + TWO31) / TWO32;
    assert w == x - TWO32 * q;
    ModShift(x, TWO32, -q);
    AndMask(AsUnsigned(w), k);
    ModPow2Nested(x, k, 32);
  }
}
