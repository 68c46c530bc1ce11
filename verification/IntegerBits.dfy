/** Bitwise operations on integers, read as two's complement numbers of unbounded width. */
module IntegerBits {

  function Pow2(n: nat): (p: int)
    ensures 0 < p
  {
    if n == 0 then 1 else 2 * Pow2(n - 1)
  }

  /** A measure that halving brings down to 0, from both sides. */
  function Mag(x: int): nat { if x < 0 then -x - 1 else x }

  /** Bit i of x. */
  function Bit(x: int, i: nat): bool
    decreases i
  {
    if i == 0 then x % 2 == 1 else Bit(x / 2, i - 1)
  }

  function Not(x: int): int { -x - 1 }

  function And(x: int, y: int): int
    decreases Mag(x) + Mag(y)
  {
    if x == 0 || y == 0 then 0
    else if x == -1 then y
    else if y == -1 then x
    else 2 * And(x / 2, y / 2) + if x % 2 == 1 && y % 2 == 1 then 1 else 0
  }

  function Or(x: int, y: int): int { Not(And(Not(x), Not(y))) }

  function Xor(x: int, y: int): int { Or(x, y) - And(x, y) }

  // ------------------------------------------------------ rounding by a mask

  lemma SmallMultiple(k: int, d: int)
    requires -d < k * d < d
    ensures k == 0
  {
    assert k >= 1 ==> k * d >= d;
    assert k <= -1 ==> k * d <= -d;
  }

  lemma DivUnique(x: int, d: int, q: int, r: int)
    requires 0 < d && 0 <= r < d && x == q * d + r
    ensures x / d == q && x % d == r
  {
    var q', r' := x / d, x % d;
    assert x == q' * d + r';
    assert (q - q') * d == r' - r;
    SmallMultiple(q - q', d);
  }

  lemma DivDiv(x: int, p: int)
    requires 0 < p
    ensures x / (2 * p) == (x / 2) / p
  {
    var h, q := x / 2, (x / 2) / p;
    assert h == q * p + h % p;
    assert x == q * (2 * p) + (2 * (h % p) + x % 2);
    DivUnique(x, 2 * p, q, 2 * (h % p) + x % 2);
  }

  lemma AndUnits(x: int, y: int)
    ensures x == 0 ==> And(x, y) == 0
    ensures x == -1 ==> And(x, y) == y
    ensures y == -1 ==> And(x, y) == x
  {
  }

  /** Masking with minus a power of two rounds down to a multiple of it. */
  lemma {:induction false} AndNegPow2(x: int, k: nat)
    ensures And(x, -Pow2(k)) == x / Pow2(k) * Pow2(k)
    decreases k
  {
    hide And;
    AndUnits(x, -Pow2(k));
    if k == 0 {
    } else if x == 0 || x == -1 {
      DivUnique(x, Pow2(k), x, if x == 0 then 0 else Pow2(k) - 1);
    } else {
      AndNegPow2(x / 2, k - 1);
      AndNegHalves(x, Pow2(k - 1));
    }
  }

  lemma AndNegHalves(x: int, h: int)
    requires x != 0 && x != -1 && 0 < h && And(x / 2, -h) == x / 2 / h * h
    ensures And(x, -(2 * h)) == x / (2 * h) * (2 * h)
  {
    hide And;
    AndNegStep(x, h);
    DivDiv(x, h);
    var q := x / 2 / h;
    assert q * (2 * h) == 2 * (q * h);
  }

  lemma AndNegStep(x: int, h: int)
    requires x != 0 && x != -1 && 0 < h
    ensures And(x, -(2 * h)) == 2 * And(x / 2, -h)
  {
    assert -(2 * h) / 2 == -h && -(2 * h) % 2 == 0;
  }

  ghost predicate IsPow2(a: int) { exists k: nat :: a == Pow2(k) }

  /** The usual `(x + a - 1) & -a`. */
  function RoundUp(x: int, a: int): int { And(x + a - 1, -a) }

  lemma RoundUpIsLeastMultiple(x: int, a: int)
    requires IsPow2(a)
    ensures 0 < a && RoundUp(x, a) % a == 0 && x <= RoundUp(x, a) < x + a
    ensures RoundUp(x, a) == (x + a - 1) / a * a
  {
    var k: nat :| a == Pow2(k);
    AndNegPow2(x + a - 1, k);
    var y := x + a - 1;
    assert y == y / a * a + y % a;
    DivUnique(y / a * a, a, y / a, 0);
  }
}
