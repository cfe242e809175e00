/** Java's fixed-width integer semantics, written out over Dafny's unbounded
    `int`: the 32-bit `int` and 64-bit `long` ranges, the wrap-around of
    `+`, `-` and `*`, the truncating `/`, the shifts used by the source and
    the narrowing `(int)` cast. */
module JavaInt {

  const INT_MIN: int := -0x8000_0000
  const INT_MAX: int := 0x7fff_ffff
  const TWO32: int := 0x1_0000_0000

  const LONG_MIN: int := -0x8000_0000_0000_0000
  const LONG_MAX: int := 0x7fff_ffff_ffff_ffff
  const TWO64: int := 0x1_0000_0000_0000_0000

  predicate IsInt(x: int) { INT_MIN <= x <= INT_MAX }

  /** A Java `int` value. */
  type Int32 = x: int | INT_MIN <= x <= INT_MAX

  predicate IsLong(x: int) { LONG_MIN <= x <= LONG_MAX }

  /** A Java `long` value. */
  type Int64 = x: int | LONG_MIN <= x <= LONG_MAX

  /** The Java `int` holding `x` modulo 2^32 (also the `(int)` cast of a long). */
  function Wrap32(x: int): (r: int)
    ensures IsInt(r)
    ensures (r - x) % TWO32 == 0
    ensures IsInt(x) ==> r == x
  {
    (x - INT_MIN) % TWO32 + INT_MIN
  }

  /** The Java `long` holding `x` modulo 2^64. */
  function Wrap64(x: int): (r: int)
    ensures IsLong(r)
    ensures (r - x) % TWO64 == 0
    ensures IsLong(x) ==> r == x
  {
    (x - LONG_MIN) % TWO64 + LONG_MIN
  }

  /** Values that differ by a multiple of 2^32 wrap to the same `int`. */
  lemma Wrap32Congruent(x: int, y: int, k: int)
    requires x == y + k * TWO32
    ensures Wrap32(x) == Wrap32(y)
  {
    var a := x - INT_MIN;
    var b := y - INT_MIN;
    assert a == b + k * TWO32;
    var qa, qb := a / TWO32, b / TWO32;
    var ra, rb := a % TWO32, b % TWO32;
    assert a == qa * TWO32 + ra && 0 <= ra < TWO32;
    assert b == qb * TWO32 + rb && 0 <= rb < TWO32;
    assert ra - rb == (qb + k - qa) * TWO32;
  }

  /** Wrapping an intermediate sum does not change the wrapped total. */
  lemma Wrap32Add(a: int, b: int)
    ensures Wrap32(Wrap32(a) + b) == Wrap32(a + b)
  {
    var k := (Wrap32(a) - a) / TWO32;
    assert Wrap32(a) - a == k * TWO32;
    Wrap32Congruent(Wrap32(a) + b, a + b, k);
  }

  /** Wrapping a subtrahend does not change the wrapped difference. */
  lemma Wrap32Sub(a: int, b: int)
    ensures Wrap32(a - Wrap32(b)) == Wrap32(a - b)
  {
    var k := (Wrap32(b) - b) / TWO32;
    assert Wrap32(b) - b == k * TWO32;
    Wrap32Congruent(a - b, a - Wrap32(b), k);
  }

  /** Wrapping a factor does not change the wrapped product. */
  lemma Wrap32Mul(a: int, b: int)
    ensures Wrap32(Wrap32(a) * b) == Wrap32(a * b)
  {
    var k := (Wrap32(a) - a) / TWO32;
    assert Wrap32(a) == a + k * TWO32;
    calc {
      Wrap32(a) * b;
      (a + k * TWO32) * b;
      a * b + (k * b) * TWO32;
    }
    Wrap32Congruent(Wrap32(a) * b, a * b, k * b);
  }

  /** Values that differ by a multiple of 2^64 wrap to the same `long`. */
  lemma Wrap64Congruent(x: int, y: int, k: int)
    requires x == y + k * TWO64
    ensures Wrap64(x) == Wrap64(y)
  {
    var a := x - LONG_MIN;
    var b := y - LONG_MIN;
    assert a == b + k * TWO64;
    var qa, qb := a / TWO64, b / TWO64;
    var ra, rb := a % TWO64, b % TWO64;
    assert a == qa * TWO64 + ra && 0 <= ra < TWO64;
    assert b == qb * TWO64 + rb && 0 <= rb < TWO64;
    assert ra - rb == (qb + k - qa) * TWO64;
  }

  /** Wrapping an intermediate sum does not change the wrapped total. */
  lemma Wrap64Add(a: int, b: int)
    ensures Wrap64(Wrap64(a) + b) == Wrap64(a + b)
  {
    var k := (Wrap64(a) - a) / TWO64;
    assert Wrap64(a) - a == k * TWO64;
    Wrap64Congruent(Wrap64(a) + b, a + b, k);
  }

  /** `Math.max` and `Math.min`. */
  function Max(a: int, b: int): int { if a < b then b else a }

  function Min(a: int, b: int): int { if a < b then a else b }

  function Abs(x: int): nat { if x < 0 then -x else x }

  /** Java's `/` on integers: the quotient truncated toward zero. */
  function Div(a: int, b: int): (q: int)
    requires b != 0
    ensures 0 <= a && 0 < b ==> q == a / b
    ensures a < 0 && 0 < b ==> q == -((-a) / b)
    ensures 0 <= a && b < 0 ==> q == -(a / (-b))
    ensures a < 0 && b < 0 ==> q == (-a) / (-b)
  {
    var m := Abs(a) / Abs(b);
    if (a < 0) != (b < 0) then -m else m
  }

  function Pow2(n: nat): (r: nat)
    ensures r >= 1
  {
    if n == 0 then 1 else 2 * Pow2(n - 1)
  }

  /** Java `1 << i` on an `int`: the shift distance is taken modulo 32 and
      the bit shifted into position 31 makes the result negative. */
  function Shl1(i: int): (r: int)
    ensures IsInt(r)
    ensures 0 <= i < 31 ==> r == Pow2(i)
    ensures i % 32 == 31 ==> r == INT_MIN
  {
    Pow2Below31(i % 32);
    Pow2Of31();
    Wrap32(Pow2(i % 32))
  }

  lemma Pow2Of31()
    ensures Pow2(31) == -INT_MIN
  {
    assert Pow2(1) == 2;
    Pow2Below31(30);
    Pow2Add(5, 5);
    Pow2Add(5, 10);
    Pow2Add(15, 15);
    Pow2Add(1, 30);
  }

  lemma Pow2Below31(n: nat)
    ensures n < 31 ==> Pow2(n) <= INT_MAX
  {
    if 0 < n < 31 {
      assert Pow2(5) == 32;
      Pow2Add(5, 5);
      assert Pow2(10) == 1024;
      Pow2Add(5, 10);
      assert Pow2(15) == 32768;
      Pow2Add(15, 15);
      assert Pow2(30) == 1073741824;
      Pow2Mono(n, 30);
    }
  }

  lemma {:induction false} Pow2Add(a: nat, b: nat)
    ensures Pow2(a + b) == Pow2(a) * Pow2(b)
  {
    if a > 0 {
      Pow2Add(a - 1, b);
    }
  }

  lemma {:induction false} Pow2Mono(m: nat, n: nat)
    requires m <= n
    ensures Pow2(m) <= Pow2(n)
  {
    if m < n {
      Pow2Mono(m, n - 1);
    }
  }

  /** Java `x >> 1` on a `long`: an arithmetic shift, which rounds toward
      negative infinity (Dafny's `/` by a positive divisor does the same). */
  function Shr1(x: int): (r: int)
    ensures x >= 0 ==> 0 <= r <= x
    ensures x > 0 ==> r < x
    ensures x < 0 ==> x <= r < 0
  {
    x / 2
  }
}
