/** How each integer operation acts on single bits, and that the bits determine the integer. */
module BitLemmas {
  import opened IntegerBits

  lemma {:induction false} BitAnd(x: int, y: int, i: nat)
    ensures Bit(And(x, y), i) == (Bit(x, i) && Bit(y, i))
    decreases i
  {
    if x == 0 || y == 0 {
      BitConstant(i);
    } else if x == -1 || y == -1 {
      BitConstant(i);
    } else if i == 0 {
    } else {
      BitAnd(x / 2, y / 2, i - 1);
      assert And(x, y) / 2 == And(x / 2, y / 2);
    }
  }

  lemma {:induction false} BitConstant(i: nat)
    ensures !Bit(0, i) && Bit(-1, i)
    decreases i
  {
    if i > 0 { BitConstant(i - 1); }
  }

  lemma {:induction false} BitNot(x: int, i: nat)
    ensures Bit(Not(x), i) == !Bit(x, i)
    decreases i
  {
    if i > 0 {
      BitNot(x / 2, i - 1);
      assert Not(x) / 2 == Not(x / 2);
    }
  }

  lemma BitOr(x: int, y: int, i: nat)
    ensures Bit(Or(x, y), i) == (Bit(x, i) || Bit(y, i))
  {
    BitNot(And(Not(x), Not(y)), i);
    BitAnd(Not(x), Not(y), i);
    BitNot(x, i);
    BitNot(y, i);
  }

  /** A carry-free difference: what is in both is in either. */
  lemma {:induction false} BitMinus(x: int, y: int, i: nat)
    requires forall k: nat :: Bit(y, k) ==> Bit(x, k)
    ensures Bit(x - y, i) == (Bit(x, i) && !Bit(y, i))
    decreases i
  {
    assert Bit(y, 0) ==> Bit(x, 0);
    if i > 0 {
      forall k: nat ensures Bit(y / 2, k) ==> Bit(x / 2, k) { assert Bit(y, k + 1) ==> Bit(x, k + 1); }
      BitMinus(x / 2, y / 2, i - 1);
      assert (x - y) / 2 == x / 2 - y / 2;
    }
  }

  lemma BitXor(x: int, y: int, i: nat)
    ensures Bit(Xor(x, y), i) == (Bit(x, i) != Bit(y, i))
  {
    hide Bit, And, Or;
    forall k: nat ensures Bit(And(x, y), k) ==> Bit(Or(x, y), k) {
      BitAnd(x, y, k);
      BitOr(x, y, k);
    }
    BitMinus(Or(x, y), And(x, y), i);
    BitAnd(x, y, i);
    BitOr(x, y, i);
  }

  lemma {:induction false} BitShl(x: int, k: nat, i: nat)
    ensures Bit(x * Pow2(k), i) == (k <= i && Bit(x, i - k))
    decreases k
  {
    if k > 0 {
      var y := x * Pow2(k - 1);
      assert x * Pow2(k) == 2 * y;
      if i > 0 {
        BitShl(x, k - 1, i - 1);
        assert (2 * y) / 2 == y;
      }
    }
  }

  lemma {:induction false} BitShr(x: int, k: nat, i: nat)
    ensures Bit(x / Pow2(k), i) == Bit(x, i + k)
    decreases k
  {
    if k > 0 {
      DivDiv(x, Pow2(k - 1));
      BitShr(x / 2, k - 1, i);
    }
  }

  /** x mod 2p in terms of the halves of x. */
  lemma ModHalf(x: int, p: int)
    requires 0 < p
    ensures x % (2 * p) == 2 * (x / 2 % p) + x % 2
  {
    var q, r := x / 2 / p, x / 2 % p;
    assert x / 2 == q * p + r;
    assert x == q * (2 * p) + (2 * r + x % 2);
    DivUnique(x, 2 * p, q, 2 * r + x % 2);
  }

  lemma {:induction false} BitMod(x: int, n: nat, i: nat)
    ensures Bit(x % Pow2(n), i) == (i < n && Bit(x, i))
    decreases n
  {
    if n == 0 {
      BitConstant(i);
    } else {
      var p := Pow2(n - 1);
      ModHalf(x, p);
      if i > 0 {
        BitMod(x / 2, n - 1, i - 1);
        assert (x % (2 * p)) / 2 == x / 2 % p;
      } else {
        assert (x % (2 * p)) % 2 == x % 2;
      }
    }
  }

  lemma BitOnes(n: nat, i: nat)
    ensures Bit(Pow2(n) - 1, i) == (i < n)
  {
    var p := Pow2(n);
    DivUnique(-1, p, -1, p - 1);
    BitMod(-1, n, i);
    BitConstant(i);
  }

  /** Integers with the same bits are equal. */
  lemma {:induction false} BitsDetermine(x: int, y: int)
    requires forall i: nat :: Bit(x, i) == Bit(y, i)
    ensures x == y
    decreases Mag(x) + Mag(y)
  {
    assert Bit(x, 0) == Bit(y, 0);
    if !(x in {0, -1} && y in {0, -1}) {
      forall i: nat ensures Bit(x / 2, i) == Bit(y / 2, i) {
        assert Bit(x, i + 1) == Bit(y, i + 1);
      }
      BitsDetermine(x / 2, y / 2);
    }
  }

  /** The signed reading of an n-bit pattern. */
  function Signed(u: int, n: nat): int
    requires 0 < n
  {
    if u >= Pow2(n - 1) then u - Pow2(n) else u
  }

  lemma BitSigned(u: int, n: nat, i: nat)
    requires 0 < n && 0 <= u < Pow2(n)
    ensures Bit(Signed(u, n), i) == Bit(u, if i < n then i else n - 1)
  {
    var s := Signed(u, n);
    var p := Pow2(n);
    TopBit(u, n);
    if i < n {
      DivUnique(s, p, if s < 0 then -1 else 0, u);
      BitMod(s, n, i);
    } else {
      BitShr(s, n - 1, i - (n - 1));
      BitConstant(i - (n - 1));
      DivUnique(s, Pow2(n - 1), if s < 0 then -1 else 0, if s < 0 then s + Pow2(n - 1) else s);
    }
  }

  /** The top bit of an n-bit pattern. */
  lemma TopBit(u: int, n: nat)
    requires 0 < n && 0 <= u < Pow2(n)
    ensures Bit(u, n - 1) == (u >= Pow2(n - 1))
  {
    var h := Pow2(n - 1);
    BitShr(u, n - 1, 0);
    DivUnique(u, h, if u >= h then 1 else 0, if u >= h then u - h else u);
  }

  lemma {:induction false} Pow2Sum(a: nat, b: nat)
    ensures Pow2(a + b) == Pow2(a) * Pow2(b)
    decreases a
  {
    if a > 0 {
      Pow2Sum(a - 1, b);
      assert Pow2(a) * Pow2(b) == 2 * (Pow2(a - 1) * Pow2(b));
    }
  }

  /** The bits of a number put together from a low part of n bits and a high part. */
  lemma BitConcat(lo: int, hi: int, n: nat, i: nat)
    requires 0 <= lo < Pow2(n)
    ensures Bit(lo + Pow2(n) * hi, i) == if i < n then Bit(lo, i) else Bit(hi, i - n)
  {
    hide Bit;
    var v := lo + Pow2(n) * hi;
    DivUnique(v, Pow2(n), hi, lo);
    if i < n { BitMod(v, n, i); } else { BitShr(v, n, i - n); }
  }

  /** Masking with n ones keeps the remainder. */
  lemma AndOnes(x: int, n: nat)
    ensures And(x, Pow2(n) - 1) == x % Pow2(n)
  {
    hide Bit, And;
    forall i: nat ensures Bit(And(x, Pow2(n) - 1), i) == Bit(x % Pow2(n), i) {
      BitAnd(x, Pow2(n) - 1, i);
      BitOnes(n, i);
      BitMod(x, n, i);
    }
    BitsDetermine(And(x, Pow2(n) - 1), x % Pow2(n));
  }
}
