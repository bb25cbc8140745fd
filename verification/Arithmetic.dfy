/** Machine words, and the facts about multiplication and division the other modules share. */
module Arithmetic {

  const U32: nat := 0x1_0000_0000
  const U64: nat := 0x1_0000_0000_0000_0000

  type Byte = bv8

  function Pow2(n: nat): (p: nat)
    ensures p > 0
  {
    if n == 0 then 1 else 2 * Pow2(n - 1)
  }

  function Min(a: nat, b: nat): nat {
    if a <= b then a else b
  }

  /** The C truncations to uint32_t and uint64_t. */
  function Low32(x: int): (r: nat)
    ensures r < U32
    ensures 0 <= x < U32 ==> r == x
  {
    x % U32
  }

  function Low64(x: int): (r: nat)
    ensures r < U64
    ensures 0 <= x < U64 ==> r == x
  {
    x % U64
  }

  lemma MulMono(a: nat, b: nat, d: nat)
    requires a <= b
    ensures a * d <= b * d
  {
    assert b * d - a * d == (b - a) * d;
  }

  lemma MulIsZero(a: int, d: nat)
    requires d > 0 && -(d as int) < a * d < d
    ensures a == 0
  {
    assert a >= 1 ==> a * d >= d;
    assert a <= -1 ==> a * d <= -(d as int);
  }

  lemma DivUnique(x: nat, d: nat, q: nat, r: nat)
    requires d > 0 && x == q * d + r && r < d
    ensures x / d == q && x % d == r
  {
    var k := q - x / d;
    assert k * d == x % d - r by { assert k * d == q * d - x / d * d; }
    MulIsZero(k, d);
  }

  lemma DivMono(a: nat, b: nat, d: nat)
    requires a <= b && d > 0
    ensures a / d <= b / d
  {
    var k := b / d - a / d;
    assert k * d == (b - b % d) - (a - a % d) by { assert k * d == b / d * d - a / d * d; }
    assert k <= -1 ==> k * d <= -(d as int);
  }

  lemma ModOfMultiple(q: nat, d: nat)
    requires d > 0
    ensures (q * d) % d == 0
  {
    DivUnique(q * d, d, q, 0);
  }

  /** Reducing modulo U32 first does not matter when the modulus divides U32. */
  lemma ModMod(x: int, n: nat, k: nat)
    requires n > 0 && U32 == n * k
    ensures (x % U32) % n == x % n
  {
    var q, r := x / U32, x % U32;
    assert x == q * U32 + r;
    var q1, r1 := r / n, r % n;
    assert q * U32 == (q * k) * n by { assert q * (n * k) == (q * k) * n; }
    var a := q * k + q1;
    assert x == a * n + r1 by { assert (q * k + q1) * n == (q * k) * n + q1 * n; }
    var q2, r2 := x / n, x % n;
    assert (a - q2) * n == r2 - r1 by { assert (a - q2) * n == a * n - q2 * n; }
    MulIsZero(a - q2, n);
  }

  /** Subtracting counter readings recovers the distance between the true tick counts they stand
      for, up to whole wraps. */
  lemma ModDiff(a: nat, b: nat, n: nat)
    requires n > 0 && a <= b
    ensures (b % n - a % n) % n == (b - a) % n
  {
    var x, y := b % n - a % n, b - a;
    var k := b / n - a / n;
    assert y == x + k * n by { assert k * n == b / n * n - a / n * n; }
    var m := y / n - x / n - k;
    assert m * n == x % n - y % n by {
      assert m * n == y / n * n - x / n * n - k * n;
    }
    MulIsZero(m, n);
  }

  lemma ModAdd(a: nat, d: nat, n: nat)
    requires n > 0
    ensures (a % n + d) % n == (a + d) % n
  {
    var x, y := a % n + d, a + d;
    var k := a / n;
    assert y == x + k * n;
    var m := y / n - x / n - k;
    assert m * n == x % n - y % n by {
      assert m * n == y / n * n - x / n * n - k * n;
    }
    MulIsZero(m, n);
  }

  lemma ModMultiple(last: nat, now: nat, n: nat)
    requires n > 0 && last <= now
    ensures (now - last) % n <= now - last && (last + (now - last) % n) % n == now % n
  {
    var q := (now - last) / n;
    assert now - last == q * n + (now - last) % n;
    assert q * n >= 0;
    var a := last + (now - last) % n;
    assert a == a / n * n + a % n;
    assert (a / n + q) * n == a / n * n + q * n;
    DivUnique(now, n, a / n + q, a % n);
  }

  lemma Twice(x: nat, y: nat)
    ensures x * (2 * y) == 2 * (x * y)
  {
  }

  lemma Pow2Add(a: nat, b: nat)
    ensures Pow2(a + b) == Pow2(a) * Pow2(b)
    decreases b
  {
    if b > 0 {
      Pow2Add(a, b - 1);
      Twice(Pow2(a), Pow2(b - 1));
      assert Pow2(a + b) == 2 * Pow2(a + (b - 1));
    }
  }

  lemma Pow2Values()
    ensures Pow2(4) == 16 && Pow2(32) == U32
  {
    assert Pow2(8) == 256;
    Pow2Add(8, 8);
    Pow2Add(16, 16);
  }

  lemma Pow2Split(bits: nat)
    requires 4 <= bits <= 32
    ensures Pow2(bits) == 16 * Pow2(bits - 4)
    ensures U32 == Pow2(bits) * Pow2(32 - bits) && Pow2(bits) <= U32
  {
    hide Pow2;
    Pow2Values();
    Pow2Add(bits - 4, 4);
    Pow2Add(bits, 32 - bits);
    MulMono(1, Pow2(32 - bits), Pow2(bits));
  }
}
