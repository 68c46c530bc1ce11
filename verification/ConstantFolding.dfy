/** Constant folding and strength reduction of integer operations. */
module ConstantFolding {
  import opened IntegerBits
  import opened BitLemmas

  const TWO32: int := 0x1_0000_0000
  const TWO63: int := 0x8000_0000_0000_0000
  const TWO64: int := 0x1_0000_0000_0000_0000

  /** int, unsigned int, long long and unsigned long long; a pointer counts as the last. */
  datatype Type = Type(wide: bool, unsigned: bool)

  datatype Op =
    | Add | Sub | BitAnd_ | BitOr_ | BitXor_ | Mul
    | Div | Mod | UDiv | UMod | PDiv
    | Shl | Shr | Sar
    | Eq | Ne | Lt | Ge | Le | Gt | ULt | UGe | ULe | UGt
    | LAnd | LOr

  // ------------------------------------------------------------------ values

  function Width(t: Type): nat { if t.wide then 64 else 32 }

  function Modulus(t: Type): int { if t.wide then TWO64 else TWO32 }

  /** The value of a type congruent to n: wrap-around. */
  function Wrapped(t: Type, n: int): int
  {
    var u := n % Modulus(t);
    if !t.unsigned && u >= Modulus(t) / 2 then u - Modulus(t) else u
  }

  predicate InType(t: Type, x: int) { Wrapped(t, x) == x }

  /** The folder keeps every constant in 64 bits, sign- or zero-extended as its type says. */
  function Canonical(t: Type, l: int): int
  {
    if t.wide then l % TWO64
    else
      var u := l % TWO32;
      if !t.unsigned && u >= 0x8000_0000 then u + (TWO64 - TWO32) else u
  }

  predicate IsCanonical(t: Type, l: int) { Canonical(t, l) == l }

  /** The value that a 64-bit pattern stands for in a type. */
  function ValueOf(t: Type, l: int): int { Wrapped(t, l) }

  /** In each type the value is the one number of the type's range that is congruent to the pattern. */
  lemma ValueInRange(t: Type, l: int)
    ensures if t.wide then (ValueOf(t, l) - l) % 0x1_0000_0000_0000_0000 == 0
            else (ValueOf(t, l) - l) % 0x1_0000_0000 == 0
    ensures t == Type(false, false) ==> -0x8000_0000 <= ValueOf(t, l) < 0x8000_0000
    ensures t == Type(false, true) ==> 0 <= ValueOf(t, l) < 0x1_0000_0000
    ensures t == Type(true, false) ==> -0x8000_0000_0000_0000 <= ValueOf(t, l) < 0x8000_0000_0000_0000
    ensures t == Type(true, true) ==> 0 <= ValueOf(t, l) < 0x1_0000_0000_0000_0000
  {
    var (m, u) := (Modulus(t), l % Modulus(t));
    assert l == l / m * m + u;
    DivUnique(u - l, m, -(l / m), 0);
    DivUnique(u - m - l, m, -(l / m) - 1, 0);
  }

  /** A canonical pattern is its value modulo 2^64. */
  lemma CanonicalIsValue(t: Type, l: int)
    requires IsCanonical(t, l)
    ensures 0 <= l < TWO64 && l == ValueOf(t, l) % TWO64 && InType(t, ValueOf(t, l))
    ensures l == (if ValueOf(t, l) < 0 then ValueOf(t, l) + TWO64 else ValueOf(t, l))
    ensures -TWO63 <= ValueOf(t, l) < TWO64 && (t.unsigned ==> 0 <= ValueOf(t, l))
    ensures (!t.unsigned ==> ValueOf(t, l) < TWO63)
  {
  }

  lemma ModMod(a: int)
    ensures a % TWO64 % TWO32 == a % TWO32
  {
    DivUnique(a, TWO32, a / TWO64 * TWO32 + a % TWO64 / TWO32, a % TWO64 % TWO32);
  }

  lemma WrapCongruent(t: Type, a: int, b: int)
    requires a % TWO64 == b % TWO64
    ensures Wrapped(t, a) == Wrapped(t, b)
  {
    ModMod(a);
    ModMod(b);
  }

  /** Making a pattern canonical does not change what it stands for. */
  lemma CanonicalKeeps(t: Type, l: int)
    ensures IsCanonical(t, Canonical(t, l)) && ValueOf(t, Canonical(t, l)) == ValueOf(t, l)
  {
    if t.wide {
    } else {
      var u := l % TWO32;
      DivUnique(u, TWO32, 0, u);
      DivUnique(u + (TWO64 - TWO32), TWO32, TWO32 - 1, u);
    }
  }

  // --------------------------------------------------- what an operation means

  /** Division of integers that truncates towards zero. */
  function Truncated(x: int, y: int): int
    requires y != 0
  {
    if x >= 0 then (if y > 0 then x / y else -(x / -y))
    else (if y > 0 then -(-x / y) else -x / -y)
  }

  predicate IsTest(op: Op) { op in {Eq, Ne, Lt, Ge, Le, Gt, ULt, UGe, ULe, UGt, LAnd, LOr} }

  predicate IsShift(op: Op) { op in {Shl, Shr, Sar} }

  predicate IsDivision(op: Op) { op in {Div, Mod, UDiv, UMod, PDiv} }

  /** The operator that stands for a source operator in an unsigned type. */
  function OperatorFor(op: Op, t: Type): Op
  {
    if !t.unsigned then op
    else match op
      case Sar => Shr case Div => UDiv case Mod => UMod
      case Lt => ULt case Gt => UGt case Le => ULe case Ge => UGe
      case _ => op
  }

  /** The operators that can arise for a type. */
  predicate Chosen(op: Op, t: Type)
  {
    if t.unsigned then op !in {Sar, Div, Mod, PDiv, Lt, Ge, Le, Gt}
    else op !in {Shr, UDiv, UMod, ULt, UGe, ULe, UGt}
  }

  /** What the parser asks for; a difference of pointers is divided as a signed number. */
  predicate Asked(op: Op, t: Type)
  {
    op !in {Shr, UDiv, UMod, ULt, UGe, ULe, UGt} && (op == PDiv ==> !t.unsigned)
  }

  /** These operators are the ones that the operator selection makes of what the parser asks for. */
  lemma ChosenArise(op: Op, t: Type)
    ensures Chosen(op, t) <==> exists o: Op :: Asked(o, t) && OperatorFor(o, t) == op
  {
    if Chosen(op, t) {
      var o := if !t.unsigned then op
               else if op == Shr then Sar else if op == UDiv then Div else if op == UMod then Mod
               else if op == ULt then Lt else if op == UGt then Gt else if op == ULe then Le
               else if op == UGe then Ge else op;
      assert Asked(o, t) && OperatorFor(o, t) == op;
    }
  }

  /** Operands on which the operation is defined: no division by zero, pointer differences
      divisible by the element size, shift counts below the width. */
  predicate Defined(op: Op, t: Type, x: int, y: int)
  {
    && (IsDivision(op) ==> y != 0)
    && (op == PDiv ==> y > 0 && x % y == 0)
    && (IsShift(op) ==> 0 <= y < Width(t))
  }

  function Bool(b: bool): int { if b then 1 else 0 }

  /** The type of the right operand: shift counts are ints. */
  function RightType(op: Op, t: Type): Type { if IsShift(op) then Type(false, false) else t }

  function ResultType(op: Op, t: Type): Type { if IsTest(op) then Type(false, false) else t }

  /** The value of an operation, computed with wrap-around in its type. */
  function Meaning(op: Op, t: Type, x: int, y: int): int
    requires Defined(op, t, x, y)
  {
    match op
    case Add => Wrapped(t, x + y)
    case Sub => Wrapped(t, x - y)
    case Mul => Wrapped(t, x * y)
    case BitAnd_ => Wrapped(t, And(x, y))
    case BitOr_ => Wrapped(t, Or(x, y))
    case BitXor_ => Wrapped(t, Xor(x, y))
    case Div => Wrapped(t, Truncated(x, y))
    case Mod => Wrapped(t, x - y * Truncated(x, y))
    case UDiv => Wrapped(t, x / y)
    case UMod => Wrapped(t, x % y)
    case PDiv => Wrapped(t, x / y)
    case Shl => Wrapped(t, x * Pow2(y))
    case Shr => Wrapped(t, x / Pow2(y))
    case Sar => Wrapped(t, x / Pow2(y))
    case Eq => Bool(x == y)
    case Ne => Bool(x != y)
    case Lt => Bool(x < y)
    case Ge => Bool(x >= y)
    case Le => Bool(x <= y)
    case Gt => Bool(x > y)
    case ULt => Bool(x < y)
    case UGe => Bool(x >= y)
    case ULe => Bool(x <= y)
    case UGt => Bool(x > y)
    case LAnd => Bool(x != 0 && y != 0)
    case LOr => Bool(x != 0 || y != 0)
  }

  // -------------------------------------------------------- 64-bit arithmetic

  function Negated(a: int): (r: int)
    ensures 0 < a < TWO64 ==> r == TWO64 - a
  {
    -a % TWO64
  }

  /** Signed division built from unsigned division and the signs. */
  function SDiv(a: int, b: int): int
    requires 0 <= a < TWO64 && 0 < b < TWO64
  {
    var p := if a >= TWO63 then Negated(a) else a;
    var q := if b >= TWO63 then Negated(b) else b;
    var x := p / q;
    if (a >= TWO63) != (b >= TWO63) then Negated(x) else x
  }

  /** Signed comparison by flipping the sign bits. */
  predicate SLess(a: int, b: int) { Xor(a, TWO63) < Xor(b, TWO63) }

  /** The folder's own computation on 64-bit patterns; `count` masks shift counts. */
  function Fold64(op: Op, l1: int, l2: int, count: nat): int
    requires 0 <= l1 < TWO64 && 0 <= l2 < TWO64 && (IsDivision(op) ==> l2 != 0)
  {
    match op
    case Add => (l1 + l2) % TWO64
    case Sub => (l1 - l2) % TWO64
    case Mul => l1 * l2 % TWO64
    case BitAnd_ => And(l1, l2)
    case BitOr_ => Or(l1, l2)
    case BitXor_ => Xor(l1, l2)
    case Div => SDiv(l1, l2)
    case PDiv => SDiv(l1, l2)
    case Mod => (l1 - l2 * SDiv(l1, l2)) % TWO64
    case UDiv => l1 / l2
    case UMod => l1 % l2
    case Shl => l1 * Pow2(count) % TWO64
    case Shr => l1 / Pow2(count)
    case Sar => if l1 >= TWO63 then TWO64 - 1 - (TWO64 - 1 - l1) / Pow2(count) else l1 / Pow2(count)
    case Eq => Bool(l1 == l2)
    case Ne => Bool(l1 != l2)
    case ULt => Bool(l1 < l2)
    case UGe => Bool(l1 >= l2)
    case ULe => Bool(l1 <= l2)
    case UGt => Bool(l1 > l2)
    case Lt => Bool(SLess(l1, l2))
    case Ge => Bool(!SLess(l1, l2))
    case Le => Bool(!SLess(l2, l1))
    case Gt => Bool(SLess(l2, l1))
    case LAnd => Bool(l1 != 0 && l2 != 0)
    case LOr => Bool(l1 != 0 || l2 != 0)
  }

  /** The shift count: the low five or six bits of the right operand. */
  function Count(t: Type, l2: int): nat
    requires 0 <= l2
  {
    AndNonNegative(l2, Width(t) - 1);
    And(l2, Width(t) - 1)
  }

  lemma {:induction false} AndNonNegative(x: int, y: int)
    ensures 0 <= x && 0 <= y ==> 0 <= And(x, y)
    decreases Mag(x)
  {
    if 0 < x && 0 < y { AndNonNegative(x / 2, y / 2); }
  }

  lemma CountIs(t: Type, y: int)
    requires 0 <= y < Width(t)
    ensures Count(t, y) == y
  {
    hide And;
    assert Pow2(5) - 1 == 31 && Pow2(6) - 1 == 63;
    AndOnes(y, if t.wide then 6 else 5);
  }

  // ------------------------------------------------------ folding is correct

  lemma ProductCongruent(a: int, b: int, x: int, y: int)
    requires a == x || a == x + TWO64
    requires b == y || b == y + TWO64
    ensures a * b % TWO64 == x * y % TWO64
  {
    var i, j := if a == x then 0 else 1, if b == y then 0 else 1;
    var k := i * y + j * x + i * j * TWO64;
    assert a * b == x * y + k * TWO64;
    DivUnique(a * b, TWO64, x * y / TWO64 + k, x * y % TWO64);
  }

  lemma SumCongruent(a: int, b: int, x: int, y: int)
    requires a == x || a == x + TWO64
    requires b == y || b == y + TWO64
    ensures (a + b) % TWO64 == (x + y) % TWO64 && (a - b) % TWO64 == (x - y) % TWO64
  {
  }

  /** Bits of a pattern are bits of the value. */
  lemma BitPattern(x: int, i: nat)
    ensures Bit(x % TWO64, i) == (i < 64 && Bit(x, i))
  {
    TwoTo64();
    BitMod(x, 64, i);
  }

  lemma TwoTo64()
    ensures Pow2(64) == TWO64 && Pow2(63) == TWO63 && Pow2(32) == TWO32
  {
    assert Pow2(8) == 256;
    Pow2Sum(8, 8);
    Pow2Sum(16, 16);
    Pow2Sum(32, 32);
    assert Pow2(64) == 2 * Pow2(63);
  }

  lemma BitwiseCongruent(x: int, y: int)
    ensures And(x % TWO64, y % TWO64) % TWO64 == And(x, y) % TWO64
    ensures Or(x % TWO64, y % TWO64) % TWO64 == Or(x, y) % TWO64
    ensures Xor(x % TWO64, y % TWO64) % TWO64 == Xor(x, y) % TWO64
  {
    hide Bit, And, Or, Xor;
    var a, b := x % TWO64, y % TWO64;
    forall i: nat
      ensures Bit(And(a, b) % TWO64, i) == Bit(And(x, y) % TWO64, i)
      ensures Bit(Or(a, b) % TWO64, i) == Bit(Or(x, y) % TWO64, i)
      ensures Bit(Xor(a, b) % TWO64, i) == Bit(Xor(x, y) % TWO64, i)
    {
      BitPattern(And(a, b), i); BitPattern(And(x, y), i); BitAnd(a, b, i); BitAnd(x, y, i);
      BitPattern(Or(a, b), i); BitPattern(Or(x, y), i); BitOr(a, b, i); BitOr(x, y, i);
      BitPattern(Xor(a, b), i); BitPattern(Xor(x, y), i); BitXor(a, b, i); BitXor(x, y, i);
      BitPattern(x, i); BitPattern(y, i);
    }
    BitsDetermine(And(a, b) % TWO64, And(x, y) % TWO64);
    BitsDetermine(Or(a, b) % TWO64, Or(x, y) % TWO64);
    BitsDetermine(Xor(a, b) % TWO64, Xor(x, y) % TWO64);
  }

  /** Flipping the sign bit adds 2^63. */
  lemma FlipSign(a: int)
    requires 0 <= a < TWO64
    ensures Xor(a, TWO63) == if a < TWO63 then a + TWO63 else a - TWO63
  {
    hide Bit, Xor;
    TwoTo64();
    var (lo, hi) := (a % TWO63, a / TWO63);
    forall i: nat ensures Bit(Xor(a, TWO63), i) == Bit(lo + TWO63 * (1 - hi), i) {
      BitXor(a, TWO63, i);
      BitConcat(lo, hi, 63, i);
      BitConcat(0, 1, 63, i);
      BitConcat(lo, 1 - hi, 63, i);
      BitConstant(i);
      if i >= 63 { LowBit(hi, i - 63); }
    }
    BitsDetermine(Xor(a, TWO63), lo + TWO63 * (1 - hi));
  }

  lemma LowBit(h: int, i: nat)
    requires h in {0, 1}
    ensures Bit(1 - h, i) == (Bit(h, i) != Bit(1, i))
  {
    if i > 0 { BitConstant(i - 1); }
  }

  /** The comparison of patterns is the comparison of signed values. */
  lemma SLessIs(a: int, b: int, x: int, y: int)
    requires 0 <= a < TWO64 && 0 <= b < TWO64
    requires x == (if a >= TWO63 then a - TWO64 else a) && y == (if b >= TWO63 then b - TWO64 else b)
    ensures SLess(a, b) <==> x < y
  {
    hide Xor;
    FlipSign(a);
    FlipSign(b);
  }

  lemma SDivIs(a: int, b: int, x: int, y: int)
    requires 0 <= a < TWO64 && 0 < b < TWO64
    requires x == (if a >= TWO63 then a - TWO64 else a) && y == (if b >= TWO63 then b - TWO64 else b)
    ensures y != 0 && SDiv(a, b) % TWO64 == Truncated(x, y) % TWO64
  {
    var p := if a >= TWO63 then Negated(a) else a;
    var q := if b >= TWO63 then Negated(b) else b;
    assert p == (if x < 0 then -x else x) && q == (if y < 0 then -y else y);
    NegatedCongruent(p / q);
  }

  lemma NegatedCongruent(x: int)
    ensures Negated(x) % TWO64 == -x % TWO64
  {
  }

  /** An arithmetic right shift of a pattern is a flooring division of the value. */
  lemma SarIs(a: int, x: int, n: nat)
    requires 0 <= a < TWO64 && x == (if a >= TWO63 then a - TWO64 else a)
    ensures Fold64(Sar, a, 0, n) % TWO64 == x / Pow2(n) % TWO64
  {
    if a >= TWO63 {
      var p := Pow2(n);
      var q, r := (TWO64 - 1 - a) / p, (TWO64 - 1 - a) % p;
      assert TWO64 - 1 - a == q * p + r;
      assert (-1 - q) * p == -p - q * p;
      DivUnique(x, p, -1 - q, p - 1 - r);
    }
  }

  lemma ShlIs(a: int, x: int, n: nat)
    requires a == x || a == x + TWO64
    ensures a * Pow2(n) % TWO64 == x * Pow2(n) % TWO64
  {
    ProductCongruent(a, Pow2(n), x, Pow2(n));
  }

  /** The numbers two canonical patterns stand for. */
  predicate Stand(t: Type, l: int, x: int)
  {
    IsCanonical(t, l) && x == ValueOf(t, l)
  }

  lemma StandFacts(t: Type, l: int, x: int)
    requires Stand(t, l, x)
    ensures 0 <= l < TWO64 && (l == x || l == x + TWO64) && l % TWO64 == l
    ensures t.unsigned ==> l == x
    ensures !t.unsigned ==> x == if l >= TWO63 then l - TWO64 else l
  {
    CanonicalIsValue(t, l);
  }

  lemma FoldArithmetic(op: Op, t: Type, l1: int, l2: int, x: int, y: int)
    requires op in {Add, Sub, Mul, BitAnd_, BitOr_, BitXor_} && Stand(t, l1, x) && Stand(t, l2, y)
    requires 0 <= l1 < TWO64 && 0 <= l2 < TWO64
    ensures ValueOf(t, Fold64(op, l1, l2, 0)) == Meaning(op, t, x, y)
  {
    hide And, Or, Xor, Wrapped, Stand, SDiv, SLess, Truncated, Pow2;
    StandFacts(t, l1, x);
    StandFacts(t, l2, y);
    if op == Mul {
      FoldProduct(t, l1, l2, x, y);
    } else if op in {Add, Sub} {
      FoldSum(t, l1, l2, x, y);
    } else {
      FoldBitwise(t, l1, l2, x, y);
    }
  }

  lemma FoldProduct(t: Type, l1: int, l2: int, x: int, y: int)
    requires (l1 == x || l1 == x + TWO64) && (l2 == y || l2 == y + TWO64)
    ensures Wrapped(t, l1 * l2 % TWO64) == Wrapped(t, x * y)
  {
    hide Wrapped;
    ProductCongruent(l1, l2, x, y);
    var z, w := l1 * l2 % TWO64, x * y;
    WrapCongruent(t, z, w);
  }

  lemma FoldSum(t: Type, l1: int, l2: int, x: int, y: int)
    requires (l1 == x || l1 == x + TWO64) && (l2 == y || l2 == y + TWO64)
    ensures Wrapped(t, (l1 + l2) % TWO64) == Wrapped(t, x + y) && Wrapped(t, (l1 - l2) % TWO64) == Wrapped(t, x - y)
  {
    hide Wrapped;
    SumCongruent(l1, l2, x, y);
    WrapCongruent(t, (l1 + l2) % TWO64, x + y);
    WrapCongruent(t, (l1 - l2) % TWO64, x - y);
  }

  lemma FoldBitwise(t: Type, l1: int, l2: int, x: int, y: int)
    requires Stand(t, l1, x) && Stand(t, l2, y)
    ensures Wrapped(t, And(l1, l2)) == Wrapped(t, And(x, y))
    ensures Wrapped(t, Or(l1, l2)) == Wrapped(t, Or(x, y))
    ensures Wrapped(t, Xor(l1, l2)) == Wrapped(t, Xor(x, y))
  {
    hide And, Or, Xor, Wrapped, Stand;
    StandFacts(t, l1, x);
    StandFacts(t, l2, y);
    assert x % TWO64 == l1 && y % TWO64 == l2;
    BitwiseCongruent(x, y);
    WrapCongruent(t, And(l1, l2), And(x, y));
    WrapCongruent(t, Or(l1, l2), Or(x, y));
    WrapCongruent(t, Xor(l1, l2), Xor(x, y));
  }

  lemma FoldDivision(op: Op, t: Type, l1: int, l2: int, x: int, y: int)
    requires IsDivision(op) && Chosen(op, t) && Stand(t, l1, x) && Stand(t, l2, y) && Defined(op, t, x, y)
    requires 0 <= l1 < TWO64 && 0 <= l2 < TWO64
    ensures l2 != 0 && ValueOf(t, Fold64(op, l1, l2, 0)) == Meaning(op, t, x, y)
  {
    hide Wrapped, Stand, SDiv;
    StandFacts(t, l1, x);
    StandFacts(t, l2, y);
    if op == Div || op == Mod || op == PDiv {
      SDivIs(l1, l2, x, y);
      WrapCongruent(t, SDiv(l1, l2), Truncated(x, y));
      if op == Mod {
        RemainderCongruent(l1, l2, SDiv(l1, l2), x, y, Truncated(x, y));
        WrapCongruent(t, (l1 - l2 * SDiv(l1, l2)) % TWO64, x - y * Truncated(x, y));
      }
      if op == PDiv { ExactQuotient(x, y); }
    }
  }

  lemma ExactQuotient(x: int, y: int)
    requires y > 0 && x % y == 0
    ensures Truncated(x, y) == x / y
  {
    if x < 0 {
      var q := x / y;
      assert x == q * y;
      assert -x == (-q) * y;
      DivUnique(-x, y, -q, 0);
    }
  }

  lemma RemainderCongruent(a: int, b: int, q: int, x: int, y: int, z: int)
    requires (a == x || a == x + TWO64) && (b == y || b == y + TWO64) && q % TWO64 == z % TWO64
    ensures (a - b * q) % TWO64 == (x - y * z) % TWO64
  {
    var i, j, k := if a == x then 0 else 1, if b == y then 0 else 1, q / TWO64 - z / TWO64;
    assert q == z + k * TWO64;
    var n := i - j * z - y * k - j * k * TWO64;
    assert b * q == y * z + (j * z + y * k + j * k * TWO64) * TWO64 by {
      assert (y + j * TWO64) * (z + k * TWO64) == y * z + y * (k * TWO64) + j * TWO64 * z + j * TWO64 * (k * TWO64);
    }
    DivUnique(a - b * q, TWO64, (x - y * z) / TWO64 + n, (x - y * z) % TWO64);
  }

  lemma FoldShift(op: Op, t: Type, l1: int, x: int, y: nat)
    requires IsShift(op) && Chosen(op, t) && Stand(t, l1, x) && y < Width(t) && 0 <= l1 < TWO64
    ensures ValueOf(t, Fold64(op, l1, 0, y)) == Meaning(op, t, x, y)
  {
    hide Wrapped, Stand, Pow2;
    StandFacts(t, l1, x);
    if op == Shl {
      ShlIs(l1, x, y);
      WrapCongruent(t, l1 * Pow2(y) % TWO64, x * Pow2(y));
    } else if op == Sar {
      SarIs(l1, x, y);
      WrapCongruent(t, Fold64(Sar, l1, 0, y), x / Pow2(y));
    }
  }

  lemma FoldTest(op: Op, t: Type, l1: int, l2: int, x: int, y: int)
    requires IsTest(op) && Chosen(op, t) && Stand(t, l1, x) && Stand(t, l2, y)
    requires 0 <= l1 < TWO64 && 0 <= l2 < TWO64
    ensures Fold64(op, l1, l2, 0) == Meaning(op, t, x, y)
  {
    hide Wrapped, Stand, SLess;
    StandFacts(t, l1, x);
    StandFacts(t, l2, y);
    if !t.unsigned {
      SLessIs(l1, l2, x, y);
      SLessIs(l2, l1, y, x);
    }
  }

  lemma BoolFits(t: Type, b: int)
    requires b in {0, 1}
    ensures Canonical(t, b) == b && ValueOf(Type(false, false), b) == b && IsCanonical(Type(false, false), b)
  {
  }

  /** Main result: folding two constants gives the canonical form of the value that wrap-around
      arithmetic in their type gives. */
  lemma FoldCorrect(op: Op, t: Type, l1: int, l2: int)
    requires IsCanonical(t, l1) && IsCanonical(RightType(op, t), l2) && Chosen(op, t)
    requires Defined(op, t, ValueOf(t, l1), ValueOf(RightType(op, t), l2))
    ensures 0 <= l1 < TWO64 && 0 <= l2 < TWO64 && (IsDivision(op) ==> l2 != 0)
    ensures var r := Canonical(t, Fold64(op, l1, l2, Count(t, l2)));
            && IsCanonical(ResultType(op, t), r)
            && ValueOf(ResultType(op, t), r) == Meaning(op, t, ValueOf(t, l1), ValueOf(RightType(op, t), l2))
  {
    hide Canonical, Wrapped, And, Or, Xor, SDiv, SLess, Truncated, Count;
    var x, y := ValueOf(t, l1), ValueOf(RightType(op, t), l2);
    StandFacts(t, l1, x);
    StandFacts(RightType(op, t), l2, y);
    var f := Fold64(op, l1, l2, Count(t, l2));
    CanonicalKeeps(t, f);
    if IsTest(op) {
      FoldTest(op, t, l1, l2, x, y);
      BoolFits(t, Meaning(op, t, x, y));
    } else if IsShift(op) {
      assert l2 == y;
      CountIs(t, y);
      FoldShift(op, t, l1, x, y);
    } else if IsDivision(op) {
      FoldDivision(op, t, l1, l2, x, y);
    } else {
      FoldArithmetic(op, t, l1, l2, x, y);
    }
  }

  // ------------------------------------------------------------- the value stack

  /** A value-stack entry: a constant, a value known at run time only, an address with a
      constant added, or an operation left to the code generator. */
  datatype SV =
    | Const(t: Type, c: int)
    | Runtime(t: Type, id: int)
    | Address(t: Type, base: int, addend: int)
    | Apply(t: Type, op: Op, a: SV, b: SV)

  /** The value an entry has at run time; an undefined operation may give anything, here 0. */
  function Eval(v: SV, env: int -> int): int
  {
    match v
    case Const(t, c) => ValueOf(t, c)
    case Runtime(t, id) => Wrapped(t, env(id))
    case Address(t, base, addend) => Wrapped(t, env(base) + addend)
    case Apply(t, op, a, b) =>
      if Defined(op, t, Eval(a, env), Eval(b, env)) then Meaning(op, t, Eval(a, env), Eval(b, env)) else 0
  }

  /** r may stand for `x op y`. */
  ghost predicate StandsFor(r: SV, op: Op, t: Type, x: SV, y: SV)
  {
    forall env :: Defined(op, t, Eval(x, env), Eval(y, env)) ==>
      Eval(r, env) == Meaning(op, t, Eval(x, env), Eval(y, env))
  }

  predicate Commutes(op: Op) { op in {Add, BitAnd_, BitXor_, BitOr_, Mul} }

  lemma CommutesMeaning(op: Op, t: Type, x: int, y: int)
    requires Commutes(op)
    ensures Meaning(op, t, x, y) == Meaning(op, t, y, x)
  {
    hide Bit, And, Or, Xor, Wrapped;
    forall i: nat
      ensures Bit(And(x, y), i) == Bit(And(y, x), i) && Bit(Or(x, y), i) == Bit(Or(y, x), i)
      ensures Bit(Xor(x, y), i) == Bit(Xor(y, x), i)
    {
      BitAnd(x, y, i); BitAnd(y, x, i); BitOr(x, y, i); BitOr(y, x, i); BitXor(x, y, i); BitXor(y, x, i);
    }
    BitsDetermine(And(x, y), And(y, x));
    BitsDetermine(Or(x, y), Or(y, x));
    BitsDetermine(Xor(x, y), Xor(y, x));
  }

  /** All ones, as the folder recognizes it: a narrow unsigned -1 has only 32 of them. */
  predicate AllOnes(t: Type, l: int) { l == TWO64 - 1 || (l == TWO32 - 1 && !t.wide) }

  /** The left operand is a constant that a shift does not change. */
  predicate FixedByShift(op: Op, l1: int) { (l1 == 0 && IsShift(op)) || (l1 == TWO64 - 1 && op == Sar) }

  /** The right operand decides the result alone. */
  predicate Absorbs(op: Op, t: Type, l2: int)
  {
    (l2 == 0 && op in {BitAnd_, Mul}) || (op == BitOr_ && AllOnes(t, l2)) || (l2 == 1 && op in {Mod, UMod})
  }

  /** The right operand changes nothing. */
  predicate Neutral(op: Op, t: Type, l2: int)
  {
    || (op in {Mul, Div, UDiv, PDiv} && l2 == 1)
    || (op in {Add, Sub, BitOr_, BitXor_, Shl, Shr, Sar} && l2 == 0)
    || (op == BitAnd_ && AllOnes(t, l2))
  }

  lemma FixedMeaning(op: Op, t: Type, l1: int, y: int)
    requires FixedByShift(op, l1) && Chosen(op, t) && IsCanonical(t, l1) && Defined(op, t, ValueOf(t, l1), y)
    ensures Meaning(op, t, ValueOf(t, l1), y) == ValueOf(t, l1)
  {
    var x := ValueOf(t, l1);
    CanonicalIsValue(t, l1);
    DivUnique(x, Pow2(y), x, if x == 0 then 0 else Pow2(y) - 1);
  }

  lemma BitwiseUnits(x: int)
    ensures And(x, 0) == 0 && And(x, -1) == x && Or(x, 0) == x && Or(x, -1) == -1 && Xor(x, 0) == x
  {
    assert Or(x, 0) == Not(And(Not(x), -1));
    assert And(Not(x), 0) == 0;
  }

  lemma AllOnesValue(t: Type, l: int)
    requires AllOnes(t, l) && IsCanonical(t, l)
    ensures if t.unsigned then ValueOf(t, l) == Modulus(t) - 1 else ValueOf(t, l) == -1
  {
  }

  /** In an unsigned type the value -1 is all ones of its width. */
  lemma UnsignedOnes(t: Type, x: int)
    requires t.unsigned && InType(t, x)
    ensures And(x, Modulus(t) - 1) == x && Wrapped(t, Or(x, Modulus(t) - 1)) == Modulus(t) - 1
  {
    hide Bit, And, Or;
    TwoTo64();
    var n := Width(t);
    AndOnes(x, n);
    var ones := Pow2(n) - 1;
    forall i: nat ensures Bit(Or(x, ones), i) == Bit(ones, i) {
      BitOr(x, ones, i);
      BitOnes(n, i);
      BitMod(x, n, i);
    }
    BitsDetermine(Or(x, ones), ones);
  }

  lemma AbsorbsMeaning(op: Op, t: Type, x: int, l2: int)
    requires Absorbs(op, t, l2) && Chosen(op, t) && IsCanonical(t, l2) && InType(t, x)
    ensures Defined(op, t, x, ValueOf(t, l2))
    ensures Meaning(op, t, x, ValueOf(t, l2)) == if l2 == 1 then 0 else ValueOf(t, l2)
  {
    hide And, Or, Xor;
    BitwiseUnits(x);
    if op == BitOr_ {
      AllOnesValue(t, l2);
      if t.unsigned { UnsignedOnes(t, x); }
    }
  }

  lemma NeutralMeaning(op: Op, t: Type, x: int, l2: int)
    requires Neutral(op, t, l2) && Chosen(op, t) && IsCanonical(RightType(op, t), l2) && InType(t, x)
    ensures Defined(op, t, x, ValueOf(RightType(op, t), l2))
    ensures Meaning(op, t, x, ValueOf(RightType(op, t), l2)) == x
  {
    hide And, Or, Xor, Wrapped, Canonical;
    SmallValue(RightType(op, t), l2);
    BitwiseUnits(x);
    if op == BitAnd_ {
      AllOnesValue(t, l2);
      if t.unsigned { UnsignedOnes(t, x); }
    } else if op in {Div, Mod} {
      assert Truncated(x, 1) == x;
    }
  }

  lemma SmallValue(t: Type, l: int)
    ensures l in {0, 1} ==> ValueOf(t, l) == l
  {
  }

  // ---------------------------------------------------------- powers of two

  /** The usual test: clearing the lowest set bit leaves nothing. */
  predicate OneBit(l: int) { l > 0 && And(l, l - 1) == 0 }

  lemma {:induction false} OneBitIsPow2(l: int) returns (n: nat)
    requires OneBit(l)
    ensures l == Pow2(n)
    decreases l
  {
    if l == 1 {
      n := 0;
    } else if l % 2 == 1 {
      assert (l - 1) / 2 == l / 2;
      AndSelf(l / 2);
      assert false;
    } else {
      assert l == 2 || And(l, l - 1) == 2 * And(l / 2, l / 2 - 1);
      n := OneBitIsPow2(l / 2);
      n := n + 1;
    }
  }

  lemma AndSelf(x: int)
    ensures And(x, x) == x
  {
    hide Bit, And;
    forall i: nat ensures Bit(And(x, x), i) == Bit(x, i) { BitAnd(x, x, i); }
    BitsDetermine(And(x, x), x);
  }

  /** Counts the shifts that bring a power of two to zero. */
  method Log(l: int) returns (n: nat)
    requires OneBit(l)
    ensures l == Pow2(n)
  {
    hide And;
    ghost var k := OneBitIsPow2(l);
    var l2, m: int := l, -1;
    while l2 != 0
      invariant -1 <= m <= k && l2 == if m < k then Pow2(k - m - 1) else 0
      decreases k - m
    {
      if m < k - 1 { assert Pow2(k - m - 1) == 2 * Pow2(k - m - 2); }
      l2, m := l2 / 2, m + 1;
    }
    n := m;
  }

  /** The shift that replaces a multiplication or division. */
  function Reduced(op: Op): Op
    requires op in {Mul, PDiv, UDiv}
  {
    if op == Mul then Shl else if op == PDiv then Sar else Shr
  }

  lemma {:induction false} Pow2Grows(a: nat, b: nat)
    requires a <= b
    ensures Pow2(a) <= Pow2(b)
  {
    if a < b { Pow2Grows(a, b - 1); }
  }

  /** The constant is a power of two within the width, and its value is too, unless it is the
      least number of its type. */
  lemma PowerValue(t: Type, l2: int, n: nat)
    requires IsCanonical(t, l2) && l2 == Pow2(n)
    ensures n < Width(t)
    ensures ValueOf(t, l2) == l2 || (ValueOf(t, l2) == l2 - TWO64 && ValueOf(t, l2) < 0)
    ensures ValueOf(t, n) == n
  {
    TwoTo64();
    CanonicalIsValue(t, l2);
    if n <= 63 { Pow2Grows(n, 63); } else { Pow2Grows(64, n); }
    if n >= 32 { Pow2Grows(32, n); }
    NarrowValue(t, n);
  }

  lemma NarrowValue(t: Type, n: int)
    ensures 0 <= n < 64 ==> ValueOf(t, n) == n
  {
  }

  lemma ReducedMeaning(op: Op, t: Type, x: int, l2: int, n: nat)
    requires op in {Mul, PDiv, UDiv} && Chosen(op, t) && IsCanonical(t, l2) && l2 == Pow2(n) && InType(t, x)
    requires Defined(op, t, x, ValueOf(t, l2))
    ensures n < Width(t) && ValueOf(t, n) == n
    ensures Meaning(Reduced(op), t, x, n) == Meaning(op, t, x, ValueOf(t, l2))
  {
    hide Wrapped, Canonical, And, Or, Xor, Truncated;
    PowerValue(t, l2, n);
    CanonicalIsValue(t, l2);
    if op == Mul {
      ProductCongruent(x, l2, x, ValueOf(t, l2));
      WrapCongruent(t, x * Pow2(n), x * ValueOf(t, l2));
    }
  }

  // ------------------------------------------------------ symbol plus constant

  /** The addend is one that the code generators can deal with. */
  predicate FitsInt(l: int) { Canonical(Type(false, false), l) == l }

  lemma AddressMeaning(op: Op, t: Type, base: int, addend: int, l2: int)
    requires op in {Add, Sub} && IsCanonical(t, l2)
    ensures var a := ((if op == Sub then -l2 else l2) + addend) % TWO64;
            Meaning(op, t, Wrapped(t, base + addend), ValueOf(t, l2)) == Wrapped(t, base + a)
  {
    hide Canonical, Wrapped;
    CanonicalIsValue(t, l2);
    var y := ValueOf(t, l2);
    var a := ((if op == Sub then -l2 else l2) + addend) % TWO64;
    var s := base + addend + (if op == Sub then -y else y);
    WrapOnce(t, base + addend, if op == Sub then -y else y);
    AddressCongruent(base, addend, l2, y);
    WrapCongruent(t, base + a, s);
  }

  lemma AddressCongruent(base: int, addend: int, l2: int, y: int)
    requires l2 == y || l2 == y + TWO64
    ensures (base + (l2 + addend) % TWO64) % TWO64 == (base + addend + y) % TWO64
    ensures (base + (-l2 + addend) % TWO64) % TWO64 == (base + addend - y) % TWO64
  {
  }

  /** Wrapping an operand first makes no difference. */
  lemma WrapOnce(t: Type, a: int, b: int)
    ensures Wrapped(t, Wrapped(t, a) + b) == Wrapped(t, a + b)
  {
    var m := Modulus(t);
    var k := if Wrapped(t, a) == a % m then a / m else a / m + 1;
    assert Wrapped(t, a) == a - k * m;
    DivUnique(a + b - k * m, m, (a + b) / m - k, (a + b) % m);
  }

  // --------------------------------------------------------------- the folder

  function TypeOf(v: SV): Type { match v case Apply(t, op, _, _) => ResultType(op, t) case _ => v.t }

  lemma WrapTwice(t: Type, n: int)
    ensures InType(t, Wrapped(t, n))
  {
    WrapOnce(t, n, 0);
  }

  lemma EvalInType(v: SV, env: int -> int)
    ensures InType(TypeOf(v), Eval(v, env))
  {
    hide Wrapped, And, Or, Xor, Truncated;
    match v
    case Const(t, c) => WrapTwice(t, c);
    case Runtime(t, id) => WrapTwice(t, env(id));
    case Address(t, base, addend) => WrapTwice(t, env(base) + addend);
    case Apply(t, op, a, b) =>
      SmallInType(ResultType(op, t));
      var (x, y) := (Eval(a, env), Eval(b, env));
      if Defined(op, t, x, y) { MeaningInType(op, t, x, y); }
  }

  lemma SmallInType(t: Type)
    ensures InType(t, 0) && InType(t, 1)
  {
  }

  lemma MeaningInType(op: Op, t: Type, x: int, y: int)
    requires Defined(op, t, x, y)
    ensures InType(ResultType(op, t), Meaning(op, t, x, y))
  {
    hide Wrapped, And, Or, Xor, Truncated;
    SmallInType(ResultType(op, t));
    forall n ensures InType(t, Wrapped(t, n)) { WrapTwice(t, n); }
  }

  /** A constant operand stands for the value of its canonical pattern. */
  lemma EvalConst(v: SV, env: int -> int)
    requires v.Const?
    ensures Eval(v, env) == ValueOf(v.t, Canonical(v.t, v.c)) && IsCanonical(v.t, Canonical(v.t, v.c))
  {
    CanonicalKeeps(v.t, v.c);
  }

  lemma BothConstant(op: Op, t: Type, v1: SV, v2: SV)
    requires v1.Const? && v2.Const? && v1.t == t && v2.t == RightType(op, t) && Chosen(op, t)
    requires var l2 := Canonical(v2.t, v2.c); IsDivision(op) ==> l2 != 0
    ensures var (l1, l2) := (Canonical(v1.t, v1.c), Canonical(v2.t, v2.c));
            && 0 <= l1 < TWO64 && 0 <= l2 < TWO64
            && StandsFor(Const(ResultType(op, t), Canonical(t, Fold64(op, l1, l2, Count(t, l2)))), op, t, v1, v2)
  {
    hide Canonical, Wrapped, Fold64, Meaning, Count, Defined;
    var (l1, l2) := (Canonical(v1.t, v1.c), Canonical(v2.t, v2.c));
    CanonicalKeeps(v1.t, v1.c);
    CanonicalKeeps(v2.t, v2.c);
    CanonicalIsValue(v1.t, l1);
    CanonicalIsValue(v2.t, l2);
    var r := Const(ResultType(op, t), Canonical(t, Fold64(op, l1, l2, Count(t, l2))));
    forall env | Defined(op, t, Eval(v1, env), Eval(v2, env))
      ensures Eval(r, env) == Meaning(op, t, Eval(v1, env), Eval(v2, env))
    {
      EvalConst(v1, env);
      EvalConst(v2, env);
      FoldCorrect(op, t, l1, l2);
    }
  }

  lemma LeftFixed(op: Op, t: Type, v1: SV, v2: SV)
    requires v1.Const? && v1.t == t && Chosen(op, t) && FixedByShift(op, Canonical(t, v1.c))
    ensures StandsFor(v1, op, t, v1, v2)
  {
    hide Canonical, Wrapped, Meaning, Defined;
    forall env | Defined(op, t, Eval(v1, env), Eval(v2, env))
      ensures Eval(v1, env) == Meaning(op, t, Eval(v1, env), Eval(v2, env))
    {
      EvalConst(v1, env);
      FixedMeaning(op, t, Canonical(t, v1.c), Eval(v2, env));
    }
  }

  lemma RightAbsorbs(op: Op, t: Type, v1: SV, v2: SV)
    requires v2.Const? && v2.t == t && TypeOf(v1) == t && Chosen(op, t) && Absorbs(op, t, Canonical(t, v2.c))
    ensures StandsFor(if Canonical(t, v2.c) == 1 then Const(t, 0) else v2, op, t, v1, v2)
  {
    hide Canonical, Wrapped, Meaning, Defined;
    var r := if Canonical(t, v2.c) == 1 then Const(t, 0) else v2;
    forall env | Defined(op, t, Eval(v1, env), Eval(v2, env))
      ensures Eval(r, env) == Meaning(op, t, Eval(v1, env), Eval(v2, env))
    {
      EvalConst(v2, env);
      EvalInType(v1, env);
      AbsorbsMeaning(op, t, Eval(v1, env), Canonical(t, v2.c));
      SmallValue(t, 0);
    }
  }

  lemma RightNeutral(op: Op, t: Type, v1: SV, v2: SV)
    requires v2.Const? && v2.t == RightType(op, t) && TypeOf(v1) == t && Chosen(op, t)
    requires Neutral(op, t, Canonical(v2.t, v2.c))
    ensures StandsFor(v1, op, t, v1, v2)
  {
    hide Canonical, Wrapped, Meaning, Defined;
    forall env | Defined(op, t, Eval(v1, env), Eval(v2, env))
      ensures Eval(v1, env) == Meaning(op, t, Eval(v1, env), Eval(v2, env))
    {
      EvalConst(v2, env);
      EvalInType(v1, env);
      NeutralMeaning(op, t, Eval(v1, env), Canonical(v2.t, v2.c));
    }
  }

  lemma RightPower(op: Op, t: Type, v1: SV, v2: SV, n: nat)
    requires op in {Mul, PDiv, UDiv} && v2.Const? && v2.t == t && TypeOf(v1) == t && Chosen(op, t)
    requires Canonical(t, v2.c) == Pow2(n)
    ensures StandsFor(Apply(t, Reduced(op), v1, Const(t, n)), op, t, v1, v2)
  {
    hide Canonical, Wrapped, Meaning;
    var r := Apply(t, Reduced(op), v1, Const(t, n));
    forall env | Defined(op, t, Eval(v1, env), Eval(v2, env))
      ensures Eval(r, env) == Meaning(op, t, Eval(v1, env), Eval(v2, env))
    {
      EvalConst(v2, env);
      EvalInType(v1, env);
      ReducedMeaning(op, t, Eval(v1, env), Canonical(t, v2.c), n);
    }
  }

  lemma AddressPlus(op: Op, t: Type, v1: SV, v2: SV)
    requires op in {Add, Sub} && v1.Address? && v1.t == t && v2.Const? && v2.t == t
    ensures var l2 := Canonical(t, v2.c);
            StandsFor(v1.(addend := ((if op == Sub then -l2 else l2) + v1.addend) % TWO64), op, t, v1, v2)
  {
    hide Canonical, Wrapped, Meaning;
    var l2 := Canonical(t, v2.c);
    var r := v1.(addend := ((if op == Sub then -l2 else l2) + v1.addend) % TWO64);
    forall env | Defined(op, t, Eval(v1, env), Eval(v2, env))
      ensures Eval(r, env) == Meaning(op, t, Eval(v1, env), Eval(v2, env))
    {
      EvalConst(v2, env);
      AddressMeaning(op, t, env(v1.base), v1.addend, l2);
    }
  }

  lemma Swapped(r: SV, op: Op, t: Type, v1: SV, v2: SV)
    requires Commutes(op) && StandsFor(r, op, t, v2, v1)
    ensures StandsFor(r, op, t, v1, v2)
  {
    hide Meaning;
    forall env | Defined(op, t, Eval(v1, env), Eval(v2, env))
      ensures Eval(r, env) == Meaning(op, t, Eval(v1, env), Eval(v2, env))
    {
      CommutesMeaning(op, t, Eval(v1, env), Eval(v2, env));
    }
  }

  lemma LeftToGenerator(op: Op, t: Type, v1: SV, v2: SV)
    ensures StandsFor(Apply(t, op, v1, v2), op, t, v1, v2)
  {
  }

  // ----------------------------------------- what is given up, by the constants

  /** Two constants leave a constant of the type of the result, extended to 64 bits as that type
      says. Its value is that of the operation; shift counts count modulo the width and a
      difference of pointers that the size does not divide is cut off. */
  predicate Folds(r: SV, op: Op, t: Type, x: int, y: int)
  {
    && r.Const?
    && r.t == (if op in {Add, Sub, BitAnd_, BitOr_, BitXor_, Mul, Div, Mod, UDiv, UMod, PDiv, Shl, Shr, Sar} then t
               else Type(false, false))
    && r.c == ValueOf(r.t, r.c) % 0x1_0000_0000_0000_0000
    && (Defined(op, t, x, y) ==> ValueOf(r.t, r.c) == Meaning(op, t, x, y))
    && (op in {Shl, Shr, Sar} ==>
          ValueOf(r.t, r.c) == Meaning(op, t, x, y % if t.wide then 64 else 32))
    && (op == PDiv && y != 0 ==> ValueOf(r.t, r.c) == ValueOf(t, Truncated(x, y)))
  }

  /** All ones of a type. */
  function Ones(t: Type): int
  {
    if !t.unsigned then -1 else if t.wide then 0xffff_ffff_ffff_ffff else 0xffff_ffff
  }

  /** A left operand that no shift changes. */
  predicate Stays(op: Op, x: int) { (x == 0 && op in {Shl, Shr, Sar}) || (x == -1 && op == Sar) }

  /** A right operand that alone decides the result. */
  predicate Decides(op: Op, t: Type, k: int)
  {
    (k == 0 && op in {BitAnd_, Mul}) || (k == Ones(t) && op == BitOr_) || (k == 1 && op in {Mod, UMod})
  }

  /** A right operand that changes nothing. */
  predicate Idle(op: Op, t: Type, k: int)
  {
    || (k == 1 && op in {Mul, Div, UDiv, PDiv})
    || (k == 0 && op in {Add, Sub, BitOr_, BitXor_, Shl, Shr, Sar})
    || (k == Ones(t) && op == BitAnd_)
  }

  /** A product with a power of two, or a quotient that is known to be exact or unsigned, is a shift. */
  ghost predicate Shifts(r: SV, op: Op, t: Type, x: SV, c: SV, k: int)
  {
    var p := k % 0x1_0000_0000_0000_0000;
    && (forall n: nat :: Pow2(n) == p ==>
          r == Apply(t, if op == Mul then Shl else if op == PDiv then Sar else Shr, x, Const(t, n)))
    && ((forall n: nat :: Pow2(n) != p) ==> r == Apply(t, op, x, c))
  }

  /** The signed 64-bit number congruent to n. */
  function Signed64(n: int): int { (n + 0x8000_0000_0000_0000) % 0x1_0000_0000_0000_0000 - 0x8000_0000_0000_0000 }

  /** What x op c becomes, where c is a constant of value k. */
  ghost predicate ReducesBy(r: SV, op: Op, t: Type, x: SV, c: SV, k: int, constWanted: bool)
  {
    if !constWanted && Decides(op, t, k) then
      r.Const? && r.t == t && ValueOf(t, r.c) == if op in {Mod, UMod} then 0 else k
    else if Idle(op, t, k) then r == x
    else if op in {Mul, PDiv, UDiv} then Shifts(r, op, t, x, c, k)
    else if op in {Add, Sub} && x.Address? then
      var s := Signed64(x.addend + if op == Sub then -k else k);
      r == if -0x8000_0000 <= s < 0x8000_0000 then x.(addend := s % 0x1_0000_0000_0000_0000) else Apply(t, op, x, c)
    else r == Apply(t, op, x, c)
  }

  /** What x op c becomes, where x and c are not both constants. */
  ghost predicate Reduces(r: SV, op: Op, t: Type, x: SV, c: SV, constWanted: bool)
  {
    if !constWanted && x.Const? && Stays(op, ValueOf(x.t, x.c)) then r == x
    else if c.Const? then ReducesBy(r, op, t, x, c, ValueOf(c.t, c.c), constWanted)
    else r == Apply(t, op, x, c)
  }

  /** What replaces the two topmost entries: no constant is left to the generator, other than a
      division by zero, and a constant operand of an operator that commutes goes to the right. */
  ghost predicate Replaces(r: SV, op: Op, t: Type, v1: SV, v2: SV, constWanted: bool)
  {
    if v1.Const? && v2.Const? then
      if op in {Div, Mod, UDiv, UMod, PDiv} && ValueOf(v2.t, v2.c) == 0 then r == Apply(t, op, v1, v2)
      else Folds(r, op, t, ValueOf(v1.t, v1.c), ValueOf(v2.t, v2.c))
    else if v1.Const? && op in {Add, BitAnd_, BitXor_, BitOr_, Mul} then Reduces(r, op, t, v2, v1, constWanted)
    else Reduces(r, op, t, v1, v2, constWanted)
  }

  /** The value of a constant, read off the pattern that the folder looks at. */
  lemma PatternValue(t: Type, c: int)
    ensures var (k, l) := (ValueOf(t, c), Canonical(t, c));
            && k == ValueOf(t, l) && l == k % TWO64 && IsCanonical(t, l)
            && (l == 0 <==> k == 0) && (l == 1 <==> k == 1)
            && (AllOnes(t, l) <==> k == Ones(t)) && (!t.unsigned ==> (l == TWO64 - 1 <==> k == -1))
  {
    CanonicalKeeps(t, c);
    CanonicalIsValue(t, Canonical(t, c));
  }

  /** The folder's tests on patterns are tests on values. */
  lemma TestsByValue(op: Op, t: Type, c: int)
    requires Chosen(op, t)
    ensures FixedByShift(op, Canonical(t, c)) <==> Stays(op, ValueOf(t, c))
    ensures var (u, k) := (RightType(op, t), ValueOf(RightType(op, t), c));
            && (Absorbs(op, t, Canonical(u, c)) <==> Decides(op, t, k))
            && (Neutral(op, t, Canonical(u, c)) <==> Idle(op, t, k))
            && (Canonical(u, c) == 0 <==> k == 0)
  {
    hide Canonical, Wrapped, AllOnes, Ones;
    PatternValue(t, c);
    PatternValue(RightType(op, t), c);
  }

  lemma ShiftCount(t: Type, k: int)
    ensures Count(t, k % TWO64) == k % Width(t)
  {
    hide And;
    assert Pow2(5) == 32 && Pow2(6) == 64;
    var l2 := k % TWO64;
    AndOnes(l2, if t.wide then 6 else 5);
    assert l2 == k - k / TWO64 * TWO64;
    DivUnique(l2, Width(t), k / Width(t) - k / TWO64 * (TWO64 / Width(t)), k % Width(t));
  }

  /** A constant that decides the result stays, or gives way to 0 in a remainder. */
  lemma DecidesTo(op: Op, t: Type, c: int)
    requires Decides(op, t, ValueOf(t, c)) && Chosen(op, t)
    ensures ValueOf(t, if Canonical(t, c) == 1 then 0 else c) == if op in {Mod, UMod} then 0 else ValueOf(t, c)
  {
    hide Canonical, Wrapped;
    PatternValue(t, c);
    SmallValue(t, 0);
  }

  lemma ShiftsAnyCount(op: Op, t: Type, l1: int, l2: int, x: int, y: int)
    requires IsShift(op) && Chosen(op, t) && Stand(t, l1, x) && 0 <= l1 < TWO64 && l2 == y % TWO64
    ensures ValueOf(t, Canonical(t, Fold64(op, l1, l2, Count(t, l2)))) ==
            Meaning(op, t, x, y % if t.wide then 64 else 32)
  {
    hide Canonical, Wrapped, Meaning, Stand, Count, Pow2;
    ShiftCount(t, y);
    FoldShift(op, t, l1, x, y % Width(t));
    CanonicalKeeps(t, Fold64(op, l1, l2, Count(t, l2)));
  }

  lemma DividesPointers(t: Type, l1: int, l2: int, x: int, y: int)
    requires !t.unsigned && Stand(t, l1, x) && Stand(t, l2, y) && 0 <= l1 < TWO64 && 0 < l2 < TWO64
    ensures y != 0
    ensures ValueOf(t, Canonical(t, Fold64(PDiv, l1, l2, Count(t, l2)))) == ValueOf(t, Truncated(x, y))
  {
    hide Canonical, Wrapped, SDiv, Truncated, Stand, Count;
    StandFacts(t, l1, x);
    StandFacts(t, l2, y);
    SDivIs(l1, l2, x, y);
    WrapCongruent(t, SDiv(l1, l2), Truncated(x, y));
    CanonicalKeeps(t, SDiv(l1, l2));
  }

  /** What the folder computes of two constants is canonical in the type of the result. */
  lemma FoldedFits(op: Op, t: Type, l1: int, l2: int, count: nat)
    requires 0 <= l1 < TWO64 && 0 <= l2 < TWO64 && (IsDivision(op) ==> l2 != 0)
    ensures var (u, c) := (ResultType(op, t), Canonical(t, Fold64(op, l1, l2, count)));
            c == ValueOf(u, c) % TWO64
  {
    hide Canonical, Wrapped, SDiv, SLess, And, Or, Xor;
    var f := Fold64(op, l1, l2, count);
    CanonicalKeeps(t, f);
    if IsTest(op) { BoolFits(t, f); }
    CanonicalIsValue(ResultType(op, t), Canonical(t, f));
  }

  lemma FoldsBoth(op: Op, t: Type, v1: SV, v2: SV)
    requires v1.Const? && v2.Const? && v1.t == t && v2.t == RightType(op, t) && Chosen(op, t)
    requires var l2 := Canonical(v2.t, v2.c); IsDivision(op) ==> l2 != 0
    ensures var (l1, l2) := (Canonical(v1.t, v1.c), Canonical(v2.t, v2.c));
            && 0 <= l1 < TWO64 && 0 <= l2 < TWO64
            && Folds(Const(ResultType(op, t), Canonical(t, Fold64(op, l1, l2, Count(t, l2)))), op, t,
                     ValueOf(v1.t, v1.c), ValueOf(v2.t, v2.c))
  {
    hide Canonical, Wrapped, Fold64, Meaning, Count, Defined, Truncated;
    var (l1, l2) := (Canonical(v1.t, v1.c), Canonical(v2.t, v2.c));
    var (x, y) := (ValueOf(v1.t, v1.c), ValueOf(v2.t, v2.c));
    PatternValue(v1.t, v1.c);
    PatternValue(v2.t, v2.c);
    FoldedFits(op, t, l1, l2, Count(t, l2));
    if Defined(op, t, x, y) { FoldCorrect(op, t, l1, l2); }
    if IsShift(op) { ShiftsAnyCount(op, t, l1, l2, x, y); }
    if op == PDiv { DividesPointers(t, l1, l2, x, y); }
  }

  /** A power of two has one bit, and no other power is equal to it. */
  lemma {:induction false} Pow2OneBit(n: nat)
    ensures OneBit(Pow2(n))
    decreases n
  {
    if n > 0 {
      Pow2OneBit(n - 1);
      var h := Pow2(n - 1);
      assert h == 1 || And(2 * h, 2 * h - 1) == 2 * And(h, h - 1);
    }
  }

  lemma {:induction false} Pow2Injective(m: nat, n: nat)
    requires Pow2(m) == Pow2(n)
    ensures m == n
  {
    if m < n { Pow2Grows(m + 1, n); } else if n < m { Pow2Grows(n + 1, m); }
  }

  lemma ShiftsIfPower(op: Op, t: Type, x: SV, c: SV, k: int, n: nat)
    requires k % TWO64 == Pow2(n) && op in {Mul, PDiv, UDiv}
    ensures Shifts(Apply(t, Reduced(op), x, Const(t, n)), op, t, x, c, k)
  {
    forall m: nat | Pow2(m) == Pow2(n) ensures m == n { Pow2Injective(m, n); }
  }

  lemma NoShiftIfNone(op: Op, t: Type, x: SV, c: SV, k: int)
    requires !OneBit(k % TWO64)
    ensures Shifts(Apply(t, op, x, c), op, t, x, c, k)
  {
    hide OneBit;
    forall n: nat ensures Pow2(n) != k % TWO64 { Pow2OneBit(n); }
  }

  /** The addend that the folder looks at. */
  lemma AddendByValue(op: Op, addend: int, k: int)
    ensures var (l2, s) := (k % TWO64, Signed64(addend + if op == Sub then -k else k));
            var l := ((if op == Sub then -l2 else l2) + addend) % TWO64;
            (FitsInt(l) <==> -0x8000_0000 <= s < 0x8000_0000) && s % TWO64 == l
  {
    var l2 := k % TWO64;
    var s := Signed64(addend + if op == Sub then -k else k);
    var l := ((if op == Sub then -l2 else l2) + addend) % TWO64;
    SignedPattern(addend + if op == Sub then -k else k);
    AddCongruent(op, addend, k);
    assert s == if l < TWO63 then l else l - TWO64;
    FitsIntIs(l);
  }

  lemma SignedPattern(n: int)
    ensures Signed64(n) == if n % TWO64 < TWO63 then n % TWO64 else n % TWO64 - TWO64
  {
    var (q, u) := (n / TWO64, n % TWO64);
    if u < TWO63 { DivUnique(n + TWO63, TWO64, q, u + TWO63); } else { DivUnique(n + TWO63, TWO64, q + 1, u - TWO63); }
  }

  lemma AddCongruent(op: Op, addend: int, k: int)
    ensures ((if op == Sub then -(k % TWO64) else k % TWO64) + addend) % TWO64 ==
            (addend + if op == Sub then -k else k) % TWO64
  {
    var (q, u) := (k / TWO64, k % TWO64);
    var n := addend + if op == Sub then -k else k;
    DivUnique((if op == Sub then -u else u) + addend, TWO64, n / TWO64 + (if op == Sub then q else -q), n % TWO64);
  }

  lemma FitsIntIs(l: int)
    requires 0 <= l < TWO64
    ensures FitsInt(l) <==> l < 0x8000_0000 || l >= TWO64 - 0x8000_0000
  {
    var u := l % TWO32;
    assert l == l / TWO32 * TWO32 + u;
  }

  class ValueStack {
    var st: seq<SV>   // top first
    const constWanted: bool

    constructor (st: seq<SV>, constWanted: bool)
      ensures this.st == st && this.constWanted == constWanted
    {
      this.st, this.constWanted := st, constWanted;
    }

    /** Main result: whatever the two topmost entries are, the entry that replaces them has the
        value of the operation whenever that is defined, and it is what the values of the constant
        operands make of the operation; dividing constants by zero is an error where a constant
        is wanted. */
    method GenOpic(op: Op, t: Type) returns (failed: bool)
      requires 2 <= |st| && TypeOf(st[1]) == t && TypeOf(st[0]) == RightType(op, t) && Chosen(op, t)
      modifies `st
      ensures failed <==> constWanted && op in {Div, Mod, UDiv, UMod, PDiv}
                          && old(st)[1].Const? && old(st)[0].Const? && ValueOf(t, old(st)[0].c) == 0
      ensures !failed ==> |st| == |old(st)| - 1 && st[1..] == old(st)[2..]
                          && StandsFor(st[0], op, t, old(st)[1], old(st)[0])
                          && Replaces(st[0], op, t, old(st)[1], old(st)[0], constWanted)
    {
      hide StandsFor, Canonical, Wrapped, Fold64, Count, Absorbs, Neutral, FixedByShift, FitsInt, Folds, Reduces;
      var v1, v2, rest := st[1], st[0], st[2..];
      if v1.Const? && v2.Const? {
        var l1, l2 := Canonical(v1.t, v1.c), Canonical(v2.t, v2.c);
        TestsByValue(op, t, v2.c);
        if IsDivision(op) && l2 == 0 {
          if constWanted { return true; }
          LeftToGenerator(op, t, v1, v2);
          st := [Apply(t, op, v1, v2)] + rest;
        } else {
          BothConstant(op, t, v1, v2);
          FoldsBoth(op, t, v1, v2);
          st := [Const(ResultType(op, t), Canonical(t, Fold64(op, l1, l2, Count(t, l2))))] + rest;
        }
        return false;
      }
      failed := false;
      var r;
      if v1.Const? && Commutes(op) {
        r := Reduce(op, t, v2, v1);
        Swapped(r, op, t, v1, v2);
      } else {
        r := Reduce(op, t, v1, v2);
      }
      st := [r] + rest;
    }

    /** One operand at most is constant, and if the operator commutes it is the right one. */
    method Reduce(op: Op, t: Type, v1: SV, v2: SV) returns (r: SV)
      requires TypeOf(v1) == t && TypeOf(v2) == RightType(op, t) && Chosen(op, t)
      requires !(v1.Const? && v2.Const?)
      ensures StandsFor(r, op, t, v1, v2)
      ensures Reduces(r, op, t, v1, v2, constWanted)
    {
      hide StandsFor, Canonical, Wrapped, Absorbs, Neutral, FixedByShift, FitsInt, OneBit, Stays, Decides, Idle, Shifts;
      hide Reduced, Signed64;
      ghost var k := if v2.Const? then ValueOf(v2.t, v2.c) else 0;
      if v1.Const? { TestsByValue(op, t, v1.c); }
      if v2.Const? { TestsByValue(op, t, v2.c); PatternValue(v2.t, v2.c); }
      var l2 := if v2.Const? then Canonical(v2.t, v2.c) else 0;
      LeftToGenerator(op, t, v1, v2);
      r := Apply(t, op, v1, v2);
      if !constWanted && v1.Const? && FixedByShift(op, Canonical(t, v1.c)) {
        LeftFixed(op, t, v1, v2);
        r := v1;
      } else if !constWanted && v2.Const? && Absorbs(op, t, l2) {
        AbsorbsNoShift(op, t, l2);
        RightAbsorbs(op, t, v1, v2);
        DecidesTo(op, t, v2.c);
        r := if l2 == 1 then Const(t, 0) else v2;
      } else if v2.Const? && Neutral(op, t, l2) {
        RightNeutral(op, t, v1, v2);
        r := v1;
      } else if v2.Const? && op in {Mul, PDiv, UDiv} {
        if OneBit(l2) {
          var n := Log(l2);
          RightPower(op, t, v1, v2, n);
          ShiftsIfPower(op, t, v1, v2, k, n);
          r := Apply(t, Reduced(op), v1, Const(t, n));
        } else {
          NoShiftIfNone(op, t, v1, v2, k);
        }
      } else if v2.Const? && op in {Add, Sub} && v1.Address? {
        AddendByValue(op, v1.addend, k);
        l2 := ((if op == Sub then -l2 else l2) + v1.addend) % TWO64;
        if FitsInt(l2) {
          AddressPlus(op, t, v1, v2);
          r := v1.(addend := l2);
        }
      }
    }
  }

  lemma AbsorbsNoShift(op: Op, t: Type, l2: int)
    requires Absorbs(op, t, l2)
    ensures RightType(op, t) == t
  {
  }

  // ------------------------------------------------------------------ a corner

  /** Main result, and a limit of the folder: a logical right shift of a signed int constant,
      which the byte-wise bit-field code asks for, gives the value of the 32-bit instruction
      exactly when the constant is not negative or is not shifted. */
  lemma LogicalShiftOfInt(l1: int, n: nat)
    requires IsCanonical(Type(false, false), l1) && n < 32
    ensures 0 <= l1 < TWO64
    ensures Canonical(Type(false, false), Fold64(Shr, l1, 0, n)) % TWO32 == l1 % TWO32 / Pow2(n)
       <==> ValueOf(Type(false, false), l1) >= 0 || n == 0
  {
    hide Pow2;
    var u := l1 % TWO32;
    LowHalfKept(Fold64(Shr, l1, 0, n));
    QuotientRange(u, n);
    if l1 == u {
      DivUnique(u / Pow2(n), TWO32, 0, u / Pow2(n));
    } else if n == 0 {
      PowZero();
    } else {
      NegativePattern(u, n);
    }
  }

  /** -1 shifted by 1 is folded to -1, where the instruction gives 0x7fffffff. */
  lemma LogicalShiftCounterexample()
    ensures var int32 := Type(false, false);
            var l1 := TWO64 - 1;
            && IsCanonical(int32, l1) && ValueOf(int32, l1) == -1
            && ValueOf(int32, Canonical(int32, Fold64(Shr, l1, 0, 1))) == -1
            && l1 % TWO32 / Pow2(1) == 0x7fff_ffff
  {
    assert Pow2(1) == 2 * Pow2(0);
  }

  lemma PowZero()
    ensures Pow2(0) == 1
  {
  }

  lemma LowHalfKept(f: int)
    ensures Canonical(Type(false, false), f) % TWO32 == f % TWO32
  {
  }

  lemma PowGap(n: nat)
    requires n <= 32
    ensures Pow2(n) >= 1 && Pow2(32 - n) >= 1 && Pow2(32 - n) * Pow2(n) == TWO32
  {
    Pow2Sum(32 - n, n);
    TwoTo64();
  }

  lemma MulUp(a: nat, b: nat, c: nat)
    requires b <= c
    ensures a * b <= a * c
  {
  }

  lemma QuotientBound(u: int, p: int, h: int)
    requires 0 <= u < TWO32 && 1 <= p && 1 <= h && h * p == TWO32
    ensures 0 <= u / p < h <= TWO32
    ensures 2 <= p ==> h < TWO32
  {
    var q := u / p;
    assert u == p * q + u % p;
    if q >= h { MulUp(p, h, q); }
    MulUp(h, 1, p);
    if 2 <= p { MulUp(h, 2, p); }
  }

  lemma QuotientRange(u: int, n: nat)
    requires 0 <= u < TWO32 && n <= 32
    ensures 0 <= u / Pow2(n) < Pow2(32 - n) <= TWO32
    ensures 0 < n ==> Pow2(32 - n) < TWO32
  {
    PowGap(n);
    if 0 < n { assert Pow2(n) == 2 * Pow2(n - 1); }
    hide Pow2;
    QuotientBound(u, Pow2(n), Pow2(32 - n));
  }

  lemma QuotientAbove(u: int, p: int, h: int)
    requires 0 <= u && 1 <= p && h * p == TWO32
    ensures (u + (TWO64 - TWO32)) / p == u / p + (TWO32 - 1) * h
  {
    var (q, k) := (u / p, (TWO32 - 1) * h);
    assert u == p * q + u % p;
    assert k * p == (TWO32 - 1) * (h * p);
    assert (q + k) * p == q * p + k * p;
    DivUnique(u + (TWO64 - TWO32), p, q + k, u % p);
  }

  /** Shifting the sign-extended pattern of a negative int right brings ones into the word. */
  lemma NegativePattern(u: int, n: nat)
    requires 0 <= u < TWO32 && 0 < n < 32
    ensures (u + (TWO64 - TWO32)) / Pow2(n) % TWO32 != u / Pow2(n)
  {
    hide Pow2;
    PowGap(n);
    QuotientRange(u, n);
    QuotientAbove(u, Pow2(n), Pow2(32 - n));
    OnesAbove(u / Pow2(n), Pow2(32 - n));
  }

  lemma OnesAbove(q: int, h: int)
    requires 0 <= q < h < TWO32
    ensures (q + (TWO32 - 1) * h) % TWO32 == q + TWO32 - h
  {
    DivUnique(q + (TWO32 - 1) * h, TWO32, h - 1, q + TWO32 - h);
  }
}
