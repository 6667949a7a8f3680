/** Powers of two, 64-bit truncation, and the little division arithmetic the coders need. */
module Words {
  const TWO_31: nat := 0x8000_0000
  const TWO_32: nat := 0x1_0000_0000
  const TWO_63: nat := 0x8000_0000_0000_0000
  const TWO_64: nat := 0x1_0000_0000_0000_0000

  /** What a 64-bit unsigned register keeps of x. */
  function U64(x: nat): (r: nat)
    ensures r < TWO_64
  {
    x % TWO_64
  }

  /** Subtraction in a 64-bit register. */
  function Sub64(a: nat, b: nat): (r: nat)
    requires a < TWO_64 && b < TWO_64
    ensures r < TWO_64
  {
    if b <= a then a - b else a + TWO_64 - b
  }

  lemma U64Exact(x: nat)
    requires x < TWO_64
    ensures U64(x) == x
  {
  }

  function Pow2(k: nat): (p: nat)
    ensures p >= 1
  {
    if k == 0 then 1 else 2 * Pow2(k - 1)
  }

  /** x >> k */
  function Shr(x: nat, k: nat): nat { Quotient(x, Pow2(k)) }

  function Quotient(x: nat, d: nat): nat
    requires d > 0
  {
    x / d
  }

  lemma {:induction false} Pow2Add(j: nat, k: nat)
    ensures Pow2(j + k) == Pow2(j) * Pow2(k)
  {
    if j == 0 {
    } else {
      Pow2Add(j - 1, k);
      assert Pow2(j + k) == 2 * Pow2(j - 1 + k);
      TwiceProduct(Pow2(j - 1), Pow2(k));
    }
  }

  lemma TwiceProduct(a: nat, b: nat)
    ensures 2 * (a * b) == (2 * a) * b
  {
  }

  lemma Pow2Values()
    ensures Pow2(8) == 0x100 && Pow2(16) == 0x1_0000 && Pow2(24) == 0x100_0000
    ensures Pow2(31) == TWO_31 && Pow2(32) == TWO_32 && Pow2(63) == TWO_63 && Pow2(64) == TWO_64
  {
    assert Pow2(4) == 16;
    Pow2Add(4, 4);
    Pow2Add(8, 8);
    Pow2Add(16, 8);
    Pow2Add(16, 16);
    Pow2Add(32, 32);
    assert Pow2(32) == 2 * Pow2(31);
    assert Pow2(64) == 2 * Pow2(63);
  }

  lemma MulMonotone(a: nat, b: nat, c: nat)
    requires a <= b
    ensures a * c <= b * c && c * a <= c * b
  {
  }

  lemma MulSign(d: int, k: int)
    requires d >= 0
    ensures k >= 1 ==> d * k >= d
    ensures k <= -1 ==> d * k <= -d
  {
    if k >= 1 { assert d * k == d + d * (k - 1); }
    if k <= -1 { assert d * k == -d + d * (k + 1); }
  }

  /** q * d + r with r < d divides back into q and r. */
  lemma DivModUnique(q: nat, d: nat, r: nat)
    requires r < d
    ensures (q * d + r) / d == q && (q * d + r) % d == r
  {
    var x := q * d + r;
    var k := x / d - q;
    assert x == d * (x / d) + x % d;
    assert d * (x / d) == d * q + d * k && d * q == q * d;
    assert d * k == r - x % d;
    MulSign(d, k);
  }

  /** a <= x / d exactly when a * d <= x. */
  lemma DivLower(a: nat, x: nat, d: nat)
    requires d > 0
    ensures a <= x / d <==> a * d <= x
  {
    assert x == d * (x / d) + x % d;
    if a <= x / d { MulMonotone(a, x / d, d); } else { MulMonotone(x / d + 1, a, d); }
  }

  lemma U64Split(x: nat, m: nat)
    ensures x == U64(x) + x / TWO_64 * TWO_64
    ensures x * m == U64(x) * m + x / TWO_64 * m * TWO_64
  {
    Distribute(U64(x), x / TWO_64, m);
  }

  lemma Distribute(a: nat, k: nat, m: nat)
    ensures (a + k * TWO_64) * m == a * m + k * m * TWO_64
  {
    assert k * TWO_64 * m == k * m * TWO_64;
  }

  lemma SameRegister(a: nat, b: nat, q: nat, k: nat)
    requires a + q * TWO_64 == b + k * TWO_64
    ensures U64(a) == U64(b)
  {
    DivModUnique(a / TWO_64 + q, TWO_64, a % TWO_64);
    DivModUnique(b / TWO_64 + k, TWO_64, b % TWO_64);
  }

  lemma U64Add(a: nat, b: nat)
    ensures U64(U64(a) + b) == U64(a + b) == U64(U64(a) + U64(b))
  {
    U64Split(a, 1);
    U64Split(b, 1);
    SameRegister(U64(a) + b, a + b, a / TWO_64, 0);
    SameRegister(U64(a) + U64(b), a + b, a / TWO_64 + b / TWO_64, 0);
  }

  /** Taking n off both sides changes no difference in registers. */
  lemma Sub64Shift(p: nat, f: nat, n: nat)
    requires n <= p < TWO_64 && n <= f
    ensures Sub64(p - n, U64(f - n)) == Sub64(p, U64(f))
  {
    U64Split(f - n, 1);
    var r := U64(f - n);
    if r + n < TWO_64 {
      SameRegister(f, r + n, 0, (f - n) / TWO_64);
    } else {
      SameRegister(f, r + n - TWO_64, 0, (f - n) / TWO_64 + 1);
    }
  }

  lemma DivModOf(x: nat, d: nat)
    requires d > 0
    ensures x == d * (x / d) + x % d && x % d < d
  {
  }

  /** Dividing twice is dividing by the product. */
  lemma DivDiv(x: nat, a: nat, b: nat, p: nat)
    requires a > 0 && b > 0 && p > 0 && p == a * b
    ensures x / a / b == x / p
  {
    var y := x / a;
    DivModOf(x, a);
    DivModOf(y, b);
    Compose(x, a, b, y / b, y % b, x % a);
    DivModUnique(y / b, p, a * (y % b) + x % a);
  }

  lemma Compose(x: nat, a: nat, b: nat, q: nat, r: nat, s: nat)
    requires x == a * (b * q + r) + s && r < b && s < a
    ensures x == q * (a * b) + (a * r + s) && a * r + s < a * b
  {
    assert a * (b * q + r) == a * (b * q) + a * r;
    assert a * (b * q) == q * (a * b);
    MulMonotone(r + 1, b, a);
    assert a * (r + 1) == a * r + a;
  }

  /** Rounded-up division, as the code writes it. */
  function Chunks(total: nat, size: nat): nat
    requires size > 0
  {
    total / size + if total % size != 0 then 1 else 0
  }

  /** Which neighbours a pixel at index i of a raster has. */
  lemma Coordinates(width: nat, i: nat)
    requires width > 0
    ensures i % width > 0 ==> i >= 1
    ensures i / width > 0 ==> i >= width
    ensures i % width > 0 && i / width > 0 ==> i >= width + 1
  {
    assert i == width * (i / width) + i % width;
    if i / width > 0 { MulMonotone(1, i / width, width); }
  }
}
