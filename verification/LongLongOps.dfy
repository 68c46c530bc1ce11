/** 64-bit integer operations on a 32-bit target: the value-stack programs that compute them
    from the two halves of each operand. */
module LongLongOps {
  import opened IntegerBits
  import opened BitLemmas
  import JC = JumpCode

  const P: int := 0x1_0000_0000
  const PP: int := 0x1_0000_0000_0000_0000

  /** A value-stack entry: a 32-bit word, or a 64-bit value held in two. */
  datatype Entry = Word(w: int) | Long(lo: int, hi: int)

  function Join(lo: int, hi: int): int { lo + P * hi }

  predicate EntryOk(e: Entry)
  {
    match e case Word(w) => 0 <= w < P case Long(lo, hi) => 0 <= lo < P && 0 <= hi < P
  }

  /** The 32-bit operations of the target.  ADDC1/SUBC1 leave a carry that ADDC2/SUBC2 take up;
      UMULL is the full product. */
  datatype Op = AND | OR | XOR | MUL | ADD | ADDC1 | ADDC2 | SUBC1 | SUBC2 | UMULL | SHL | SHR | SAR

  function Bitwise(op: Op, x: int, y: int): int
    requires op in {AND, OR, XOR}
  {
    match op case AND => And(x, y) case OR => Or(x, y) case XOR => Xor(x, y)
  }

  function Compute(op: Op, x: int, y: nat, carry: int): (Entry, int)
  {
    match op
    case AND => (Word(And(x, y)), carry)
    case OR => (Word(Or(x, y)), carry)
    case XOR => (Word(Xor(x, y)), carry)
    case MUL => (Word(x * y % P), carry)
    case ADD => (Word((x + y) % P), carry)
    case ADDC1 => (Word((x + y) % P), (x + y) / P)
    case ADDC2 => (Word((x + y + carry) % P), (x + y + carry) / P)
    case SUBC1 => (Word((x - y) % P), if x < y then 1 else 0)
    case SUBC2 => (Word((x - y - carry) % P), if x - y - carry < 0 then 1 else 0)
    case UMULL => (Long(x * y % P, x * y / P), carry)
    case SHL => (Word(x * Pow2(y) % P), carry)
    case SHR => (Word(x / Pow2(y)), carry)
    case SAR => (Word(JC.SignedValue(x, false) / Pow2(y) % P), carry)
  }

  /** The value stack, top first, with the carry of the target.  Each method has the effect of
      the instructions it emits. */
  class ValueStack {
    var st: seq<Entry>
    var carry: int

    method VSwap()
      requires 2 <= |st|
      modifies `st
      ensures st == [old(st)[1], old(st)[0]] + old(st)[2..]
    {
      st := [st[1], st[0]] + st[2..];
    }

    /** Brings the n-th entry to the top. */
    method VRotB(n: nat)
      requires 1 <= n <= |st|
      modifies `st
      ensures st == [old(st)[n - 1]] + old(st)[..n - 1] + old(st)[n..]
    {
      st := [st[n - 1]] + st[..n - 1] + st[n..];
    }

    /** vrotb(3) twice: the top entry goes under the two below it. */
    method Under(ghost r: Entry, ghost b: Entry, ghost a: Entry, ghost rest: seq<Entry>)
      requires st == [r, b, a] + rest
      modifies `st
      ensures st == [b, a, r] + rest
    {
      VRotB(3);
      assert st == [a, r, b] + rest;
      VRotB(3);
    }

    method VPop()
      requires 1 <= |st|
      modifies `st
      ensures st == old(st)[1..]
    {
      st := st[1..];
    }

    method VPush(e: Entry)
      modifies `st
      ensures st == [e] + old(st)
    {
      st := [e] + st;
    }

    /** Splits the 64-bit value on top into its low half and, above it, its high half. */
    method LExpand()
      requires 1 <= |st| && st[0].Long?
      modifies `st
      ensures st == [Word(old(st)[0].hi), Word(old(st)[0].lo)] + old(st)[1..]
    {
      st := [Word(st[0].hi), Word(st[0].lo)] + st[1..];
    }

    method LBuild()
      requires 2 <= |st| && st[0].Word? && st[1].Word?
      modifies `st
      ensures st == [Long(old(st)[1].w, old(st)[0].w)] + old(st)[2..]
    {
      st := [Long(st[1].w, st[0].w)] + st[2..];
    }

    method GenOp(op: Op)
      requires 2 <= |st| && st[0].Word? && st[1].Word? && 0 <= st[0].w
      modifies `st, `carry
      ensures st == [Compute(op, old(st)[1].w, old(st)[0].w, old(carry)).0] + old(st)[2..]
      ensures carry == Compute(op, old(st)[1].w, old(st)[0].w, old(carry)).1
    {
      var (r, c) := Compute(op, st[1].w, st[0].w, carry);
      st, carry := [r] + st[2..], c;
    }

    /** Two 64-bit operands become their four halves. */
    method ExpandBoth(ghost rest: seq<Entry>, ghost x: Entry, ghost y: Entry)
      requires x.Long? && y.Long? && st == [y, x] + rest
      modifies `st
      ensures st == [Word(y.hi), Word(y.lo), Word(x.hi), Word(x.lo)] + rest
    {
      VSwap();
      LExpand();
      VRotB(3);
      LExpand();
    }

    /** The halves are sorted: high halves below, low halves on top. */
    method Spread(ghost rest: seq<Entry>, ghost x: Entry, ghost y: Entry)
      requires x.Long? && y.Long? && st == [y, x] + rest
      modifies `st
      ensures st == [Word(y.lo), Word(x.lo), Word(y.hi), Word(x.hi)] + rest
    {
      ExpandBoth(rest, x, y);
      st := [st[3], st[1], st[2], st[0]] + st[4..];
      st := [st[0], st[1], st[3], st[2]] + st[4..];
      assert st == [Word(x.lo), Word(y.lo), Word(y.hi), Word(x.hi)] + rest;
      VSwap();
    }

    /** 64-bit and, or, exclusive or: half by half. */
    method GenBitwise(op: Op, ghost rest: seq<Entry>, ghost x: Entry, ghost y: Entry) returns (ghost r: Entry)
      requires op in {AND, OR, XOR} && x.Long? && y.Long? && EntryOk(x) && EntryOk(y) && st == [y, x] + rest
      modifies this
      ensures st == [r] + rest && r.Long? && EntryOk(r)
      ensures Join(r.lo, r.hi) == Bitwise(op, Join(x.lo, x.hi), Join(y.lo, y.hi))
    {
      hide Compute, Bitwise, EntryOk, Join;
      BitwiseProgram(op, x, y, carry);
      Spread(rest, x, y);
      GenOp(op);
      Under(Word(Bitwise(op, x.lo, y.lo)), Word(y.hi), Word(x.hi), rest);
      assert st == [Word(y.hi), Word(x.hi), Word(Bitwise(op, x.lo, y.lo))] + rest;
      GenOp(op);
      assert st == [Word(Bitwise(op, x.hi, y.hi)), Word(Bitwise(op, x.lo, y.lo))] + rest;
      LBuild();
      r := st[0];
    }

    /** 64-bit addition and subtraction with a carry between the halves. */
    method GenAddSub(subtract: bool, ghost rest: seq<Entry>, ghost x: Entry, ghost y: Entry) returns (ghost r: Entry)
      requires x.Long? && y.Long? && EntryOk(x) && EntryOk(y) && st == [y, x] + rest
      modifies this
      ensures st == [r] + rest && r.Long? && EntryOk(r)
      ensures var (a, b) := (Join(x.lo, x.hi), Join(y.lo, y.hi));
              Join(r.lo, r.hi) == (if subtract then a - b else a + b) % PP
    {
      hide Compute, EntryOk;
      Spread(rest, x, y);
      AddSubHalves(subtract, x, y, carry);
      GenOp(if subtract then SUBC1 else ADDC1);
      ghost var low := st[0];
      Under(low, Word(y.hi), Word(x.hi), rest);
      GenOp(if subtract then SUBC2 else ADDC2);
      LBuild();
      r := st[0];
    }

    /** 64-bit multiplication: the full product of the low halves and the two cross products. */
    method GenMul(ghost rest: seq<Entry>, ghost x: Entry, ghost y: Entry) returns (ghost r: Entry)
      requires x.Long? && y.Long? && EntryOk(x) && EntryOk(y) && st == [y, x] + rest
      modifies this
      ensures st == [r] + rest && r.Long? && EntryOk(r)
      ensures Join(r.lo, r.hi) == Join(x.lo, x.hi) * Join(y.lo, y.hi) % PP
    {
      hide Compute, EntryOk, Join, Low, High, LowSum;
      MulProgram(x, y, carry);
      Spread(rest, x, y);
      FullProduct(x, y, rest);
      ghost var dh, dl := Word(High(x.lo, y.lo)), Word(Low(x.lo, y.lo));
      ghost var m1, m2 := Low(x.lo, y.hi), Low(x.hi, y.lo);
      CrossProducts(x, y, [dh, dl] + rest);
      assert st == [Word(m2), Word(m1), dh, dl] + rest;
      GenOp(ADD);
      assert st == [Word(LowSum(m1, m2)), dh, dl] + rest;
      GenOp(ADD);
      LBuild();
      r := st[0];
    }

    /** The product of the low halves goes below the four halves. */
    method FullProduct(ghost x: Entry, ghost y: Entry, ghost rest: seq<Entry>)
      requires x.Long? && y.Long? && 0 <= y.lo && st == [Word(y.lo), Word(x.lo), Word(y.hi), Word(x.hi)] + rest
      requires Compute(UMULL, x.lo, y.lo, carry) == (Long(Low(x.lo, y.lo), High(x.lo, y.lo)), carry)
      modifies this
      ensures st == [Word(y.lo), Word(x.lo), Word(y.hi), Word(x.hi),
                     Word(High(x.lo, y.lo)), Word(Low(x.lo, y.lo))] + rest
      ensures carry == old(carry)
    {
      hide Compute, Low, High;
      VPush(st[1]);
      VPush(st[1]);
      GenOp(UMULL);
      LExpand();
      ghost var dh, dl := Word(High(x.lo, y.lo)), Word(Low(x.lo, y.lo));
      assert st == [dh, dl, Word(y.lo), Word(x.lo), Word(y.hi), Word(x.hi)] + rest;
      RotateFour([dh, dl, Word(y.lo), Word(x.lo), Word(y.hi), Word(x.hi)], rest);
    }

    /** The two cross products replace the four halves. */
    method CrossProducts(ghost x: Entry, ghost y: Entry, ghost rest: seq<Entry>)
      requires x.Long? && y.Long? && 0 <= y.lo && 0 <= y.hi
      requires st == [Word(y.lo), Word(x.lo), Word(y.hi), Word(x.hi)] + rest
      requires Compute(MUL, x.lo, y.hi, carry) == (Word(Low(x.lo, y.hi)), carry)
      requires Compute(MUL, x.hi, y.lo, carry) == (Word(Low(x.hi, y.lo)), carry)
      modifies this
      ensures st == [Word(Low(x.hi, y.lo)), Word(Low(x.lo, y.hi))] + rest && carry == old(carry)
    {
      hide Compute, Low;
      st := st[0 := st[2]][2 := st[0]];
      assert st == [Word(y.hi), Word(x.lo), Word(y.lo), Word(x.hi)] + rest;
      GenOp(MUL);
      Under(Word(Low(x.lo, y.hi)), Word(y.lo), Word(x.hi), rest);
      GenOp(MUL);
    }

    /** Four rotations of six entries. */
    method RotateFour(ghost s: seq<Entry>, ghost rest: seq<Entry>)
      requires |s| == 6 && st == s + rest
      modifies `st
      ensures st == [s[2], s[3], s[4], s[5], s[0], s[1]] + rest
    {
      var i := 0;
      while i < 4
        invariant 0 <= i <= 4
        invariant st == s[6 - i..] + s[..6 - i] + rest
      {
        VRotB(6);
        i := i + 1;
      }
    }

    /** 64-bit shifts by a constant on top of the stack. */
    method GenShift(op: Op, c: nat, ghost rest: seq<Entry>, ghost x: Entry) returns (ghost r: Entry)
      requires op in {SHL, SHR, SAR} && 1 <= c <= 63 && x.Long? && EntryOk(x) && st == [Word(c), x] + rest
      modifies this
      ensures st == [r] + rest && r.Long? && EntryOk(r)
      ensures Join(r.lo, r.hi) == Shifted(op, Join(x.lo, x.hi), c)
    {
      hide Join, EntryOk, Shifted, Shl, Shr, Sar, Or;
      ShiftHalves(op, c, x);
      VSwap();
      assert st == [x, Word(c)] + rest;
      LExpand();
      VRotB(3);
      assert st == [Word(c), Word(x.hi), Word(x.lo)] + rest;
      VPop();
      assert st == [Word(x.hi), Word(x.lo)] + rest;
      if op != SHL { VSwap(); }
      ghost var t, b := if op == SHL then x.hi else x.lo, if op == SHL then x.lo else x.hi;
      assert st == [Word(t), Word(b)] + rest;
      if c >= 32 { FarShift(op, c, t, b, rest); } else { NearShift(op, c, t, b, rest); }
      if op != SHL { VSwap(); }
      LBuild();
      r := st[0];
    }

    /** Pushes a count and shifts the word below it. */
    method ShiftTop(op: Op, n: nat, ghost x: int, ghost rest: seq<Entry>)
      requires op in {SHL, SHR, SAR} && st == [Word(x)] + rest
      modifies this
      ensures st == [Word(ShiftWord(op, x, n))] + rest && carry == old(carry)
    {
      hide Compute, ShiftWord;
      VPush(Word(n));
      ComputeShift(op, x, n, carry);
      assert st == [Word(n), Word(x)] + rest;
      GenOp(op);
    }

    /** Shifts by 32 and more move one half into the other. */
    method FarShift(op: Op, c: nat, ghost t: int, ghost b: int, ghost rest: seq<Entry>)
      requires op in {SHL, SHR, SAR} && 32 <= c <= 63 && st == [Word(t), Word(b)] + rest
      modifies this
      ensures st == [Word(FarHalf(op, b, c)), Word(FarFill(op, b, c))] + rest
    {
      hide ShiftWord, Compute;
      VPop();
      assert st == [Word(b)] + rest;
      if c > 32 { ShiftTop(op, c - 32, b, rest); }
      ghost var b' := FarHalf(op, b, c);
      assert st == [Word(b')] + rest;
      if op != SAR {
        VPush(Word(0));
      } else {
        VPush(st[0]);
        ShiftTop(SAR, 31, b', [Word(b')] + rest);
      }
      assert st == [Word(FarFill(op, b, c)), Word(b')] + rest;
      VSwap();
    }

    /** Shifts by less than 32 combine bits of both halves. */
    method NearShift(op: Op, c: nat, ghost t: int, ghost b: int, ghost rest: seq<Entry>)
      requires op in {SHL, SHR, SAR} && 1 <= c < 32 && st == [Word(t), Word(b)] + rest
      requires 0 <= Toward(op, t, c)
      modifies this
      ensures st == [Word(Or(Back(op, b, c), Toward(op, t, c))), Word(ShiftWord(op, b, c))] + rest
    {
      hide ShiftWord, Or, Toward, Back, Compute;
      SplitOff(op, c, t, b, rest);
      ghost var low, back := Word(ShiftWord(op, b, c)), Word(Back(op, b, c));
      VRotB(3);
      assert st == [Word(t)] + ([back, low] + rest);
      TowardIs(op, t, c);
      if op == SHL { ShiftTop(SHL, c, t, [back, low] + rest); } else { ShiftTop(SHR, c, t, [back, low] + rest); }
      assert st == [Word(Toward(op, t, c)), back, low] + rest;
      ComputeOr(Back(op, b, c), Toward(op, t, c), carry);
      GenOp(OR);
      assert st == [Word(Or(Back(op, b, c), Toward(op, t, c))), low] + rest;
    }

    /** The half that gives bits away is shifted both ways. */
    method SplitOff(op: Op, c: nat, ghost t: int, ghost b: int, ghost rest: seq<Entry>)
      requires op in {SHL, SHR, SAR} && 1 <= c < 32 && st == [Word(t), Word(b)] + rest
      modifies this
      ensures st == [Word(Back(op, b, c)), Word(ShiftWord(op, b, c)), Word(t)] + rest
    {
      hide ShiftWord, Back, Compute;
      VSwap();
      VPush(st[0]);
      assert st == [Word(b)] + ([Word(b), Word(t)] + rest);
      ShiftTop(op, c, b, [Word(b), Word(t)] + rest);
      VSwap();
      ghost var below := [Word(ShiftWord(op, b, c)), Word(t)] + rest;
      assert st == [Word(b)] + below;
      BackIs(op, b, c);
      if op == SHL { ShiftTop(SHR, 32 - c, b, below); } else { ShiftTop(SHL, 32 - c, b, below); }
    }
  }

  // -------------------------------------------------------------- arithmetic

  function Shl(x: int, n: nat): int { x * Pow2(n) % P }

  function Shr(x: int, n: nat): int { x / Pow2(n) }

  function Sar(x: int, n: nat): int { JC.SignedValue(x, false) / Pow2(n) % P }

  function ShiftWord(op: Op, x: int, n: nat): int
  {
    if op == SHL then Shl(x, n) else if op == SHR then Shr(x, n) else Sar(x, n)
  }

  /** The half that takes bits from the other one is shifted without regard to its sign. */
  function Toward(op: Op, x: int, n: nat): int { if op == SHL then Shl(x, n) else Shr(x, n) }

  function FarHalf(op: Op, b: int, c: nat): int { if c > 32 then ShiftWord(op, b, c - 32) else b }

  /** What fills the half left empty. */
  function FarFill(op: Op, b: int, c: nat): int { if op == SAR then ShiftWord(SAR, FarHalf(op, b, c), 31) else 0 }

  /** The bits that cross from one half into the other. */
  function Back(op: Op, b: int, c: nat): int
    requires c <= 32
  {
    if op == SHL then Shr(b, 32 - c) else Shl(b, 32 - c)
  }

  lemma BackIs(op: Op, b: int, c: nat)
    requires c <= 32
    ensures Back(op, b, c) == ShiftWord(if op == SHL then SHR else SHL, b, 32 - c)
  {
  }

  lemma TowardIs(op: Op, t: int, c: nat)
    ensures Toward(op, t, c) == ShiftWord(if op == SHL then SHL else SHR, t, c)
  {
  }

  lemma ComputeOr(x: int, y: nat, carry: int)
    ensures Compute(OR, x, y, carry) == (Word(Or(x, y)), carry)
  {
  }

  lemma ComputeShift(op: Op, x: int, n: nat, carry: int)
    requires op in {SHL, SHR, SAR}
    ensures Compute(op, x, n, carry) == (Word(ShiftWord(op, x, n)), carry)
  {
  }

  /** A 64-bit shift. */
  function Shifted(op: Op, a: int, c: nat): int
  {
    if op == SHL then a * Pow2(c) % PP
    else if op == SHR then a / Pow2(c)
    else JC.SignedValue(a, true) / Pow2(c) % PP
  }

  lemma PPIsPow2()
    ensures PP == Pow2(64)
  {
    PIsPow2();
    Pow2Sum(32, 32);
  }

  lemma BitShl32(x: int, n: nat, i: nat)
    ensures Bit(Shl(x, n), i) == (n <= i < 32 && Bit(x, i - n))
    ensures 0 <= Shl(x, n) < P
  {
    hide Bit;
    PIsPow2();
    BitMod(x * Pow2(n), 32, i);
    BitShl(x, n, i);
  }

  lemma BitShr32(x: int, n: nat, i: nat)
    requires 0 <= x < P
    ensures Bit(Shr(x, n), i) == (i + n < 32 && Bit(x, i + n))
  {
    hide Bit;
    PIsPow2();
    BitShr(x, n, i);
    BitMod(x, 32, i + n);
  }

  lemma BitSar32(x: int, n: nat, i: nat)
    requires 0 <= x < P
    ensures Bit(Sar(x, n), i) == (i < 32 && Bit(x, if i + n < 32 then i + n else 31))
    ensures 0 <= Sar(x, n) < P
  {
    hide Bit;
    PIsPow2();
    assert Pow2(31) == 0x8000_0000;
    BitMod(Signed(x, 32) / Pow2(n), 32, i);
    BitShr(Signed(x, 32), n, i);
    BitSigned(x, 32, i + n);
  }

  lemma BitShifted(op: Op, a: int, c: nat, i: nat)
    requires op in {SHL, SHR, SAR} && 0 <= a < PP
    ensures Bit(Shifted(op, a, c), i) == (i < 64 &&
              if op == SHL then c <= i && Bit(a, i - c)
              else if i + c < 64 then Bit(a, i + c) else op == SAR && Bit(a, 63))
  {
    hide Bit;
    PPIsPow2();
    if op == SHL {
      BitMod(a * Pow2(c), 64, i);
      BitShl(a, c, i);
    } else if op == SHR {
      BitShr(a, c, i);
      BitMod(a, 64, i + c);
    } else {
      BitSar64(a, c, i);
    }
  }

  lemma BitSar64(a: int, c: nat, i: nat)
    requires 0 <= a < PP
    ensures Bit(JC.SignedValue(a, true) / Pow2(c) % PP, i) == (i < 64 && Bit(a, if i + c < 64 then i + c else 63))
  {
    hide Bit, Pow2;
    PPIsPow2();
    Pow2Half();
    BitMod(Signed(a, 64) / Pow2(c), 64, i);
    BitShr(Signed(a, 64), c, i);
    BitSigned(a, 64, i + c);
  }

  lemma Pow2Half()
    ensures Pow2(63) == 0x8000_0000_0000_0000
  {
    PPIsPow2();
    assert Pow2(64) == 2 * Pow2(63);
  }

  /** The halves the shift programs build. */
  function ShiftedHalves(op: Op, c: nat, xl: int, xh: int): (int, int)
    requires 1 <= c <= 63
  {
    var (t, b) := if op == SHL then (xh, xl) else (xl, xh);
    var (b1, t1) :=
      if c >= 32 then (FarFill(op, b, c), FarHalf(op, b, c))
      else (ShiftWord(op, b, c), Or(Back(op, b, c), Toward(op, t, c)));
    if op == SHL then (b1, t1) else (t1, b1)
  }

  /** Bit i of the low or high half. */
  lemma BitHalf(op: Op, c: nat, xl: int, xh: int, high: bool, i: nat)
    requires op in {SHL, SHR, SAR} && 1 <= c <= 63 && 0 <= xl < P && 0 <= xh < P
    ensures var (l, h) := ShiftedHalves(op, c, xl, xh);
            Bit(if high then h else l, i) == (i < 32 && Bit(Shifted(op, Join(xl, xh), c), if high then i + 32 else i))
  {
    hide Bit, Shl, Shr, Sar, Or, Join, Shifted;
    var j := if high then i + 32 else i;
    JoinRange(xl, xh);
    if i < 32 { BitShifted(op, Join(xl, xh), c, j); }
    if op == SHL {
      if c <= j { BitJoin(xl, xh, j - c); }
      BitConstant(i);
      if c > 32 { BitShl32(xl, c - 32, i); }
      if c < 32 {
        BitShl32(xl, c, i);
        BitShl32(xh, c, i);
        BitShr32(xl, 32 - c, i);
        BitOr(Shr(xl, 32 - c), Shl(xh, c), i);
      }
      BitRange(xl, i);
    } else {
      BitJoin(xl, xh, j + c);
      BitJoin(xl, xh, 63);
      BitConstant(i);
      BitRange(xh, i);
      BitRange(xh, j + c - 32);
      RightHalf(op, c, xl, xh, i);
    }
  }

  /** What the bitwise program computes, step by step and in all. */
  lemma BitwiseProgram(op: Op, x: Entry, y: Entry, carry: int)
    requires op in {AND, OR, XOR} && x.Long? && y.Long? && EntryOk(x) && EntryOk(y)
    ensures 0 <= y.lo && 0 <= y.hi
    ensures Compute(op, x.lo, y.lo, carry) == (Word(Bitwise(op, x.lo, y.lo)), carry)
    ensures Compute(op, x.hi, y.hi, carry) == (Word(Bitwise(op, x.hi, y.hi)), carry)
    ensures EntryOk(Long(Bitwise(op, x.lo, y.lo), Bitwise(op, x.hi, y.hi)))
    ensures Join(Bitwise(op, x.lo, y.lo), Bitwise(op, x.hi, y.hi)) == Bitwise(op, Join(x.lo, x.hi), Join(y.lo, y.hi))
  {
    hide And, Or, Xor, Join;
    BitwiseHalves(op, x.lo, x.hi, y.lo, y.hi);
  }

  function Low(x: int, y: int): int { x * y % P }

  function High(x: int, y: int): int { x * y / P }

  function LowSum(x: int, y: int): int { (x + y) % P }

  /** What the multiplication program computes, step by step and in all. */
  lemma MulProgram(x: Entry, y: Entry, carry: int)
    requires x.Long? && y.Long? && EntryOk(x) && EntryOk(y)
    ensures Compute(UMULL, x.lo, y.lo, carry) == (Long(Low(x.lo, y.lo), High(x.lo, y.lo)), carry)
    ensures Compute(MUL, x.lo, y.hi, carry) == (Word(Low(x.lo, y.hi)), carry)
    ensures Compute(MUL, x.hi, y.lo, carry) == (Word(Low(x.hi, y.lo)), carry)
    ensures var (m1, m2, dh) := (Low(x.lo, y.hi), Low(x.hi, y.lo), High(x.lo, y.lo));
            && 0 <= m1 && 0 <= m2 && 0 <= dh && 0 <= LowSum(m1, m2) && 0 <= y.lo && 0 <= y.hi
            && Compute(ADD, m1, m2, carry) == (Word(LowSum(m1, m2)), carry)
            && Compute(ADD, dh, LowSum(m1, m2), carry) == (Word(LowSum(dh, LowSum(m1, m2))), carry)
            && Join(Low(x.lo, y.lo), LowSum(dh, LowSum(m1, m2))) == Join(x.lo, x.hi) * Join(y.lo, y.hi) % PP
            && EntryOk(Long(Low(x.lo, y.lo), LowSum(dh, LowSum(m1, m2))))
  {
    hide Join;
    NonNegative(x.lo, y.lo);
    MulHalves(x.lo, x.hi, y.lo, y.hi);
  }

  lemma NonNegative(x: int, y: int)
    requires 0 <= x && 0 <= y
    ensures 0 <= x * y / P
  {
  }

  lemma AddSubHalves(subtract: bool, x: Entry, y: Entry, carry: int)
    requires x.Long? && y.Long? && EntryOk(x) && EntryOk(y)
    ensures 0 <= y.lo && 0 <= y.hi
    ensures var (l, c) := Compute(if subtract then SUBC1 else ADDC1, x.lo, y.lo, carry);
            var h := Compute(if subtract then SUBC2 else ADDC2, x.hi, y.hi, c).0;
            var (a, b) := (Join(x.lo, x.hi), Join(y.lo, y.hi));
            && l.Word? && h.Word? && EntryOk(Long(l.w, h.w))
            && Join(l.w, h.w) == (if subtract then a - b else a + b) % PP
  {
    hide Compute;
    if subtract {
      var l, c := (x.lo - y.lo) % P, if x.lo < y.lo then 1 else 0;
      var h := (x.hi - y.hi - c) % P;
      SubHalves(x.lo, x.hi, y.lo, y.hi, c, l, h);
      ComputeSub(x.lo, x.hi, y.lo, y.hi, carry);
    } else {
      AddHalves(x.lo, x.hi, y.lo, y.hi);
      ComputeAdd(x.lo, x.hi, y.lo, y.hi, carry);
    }
  }

  lemma ComputeAdd(xl: int, xh: int, yl: nat, yh: nat, carry: int)
    ensures Compute(ADDC1, xl, yl, carry) == (Word((xl + yl) % P), (xl + yl) / P)
    ensures Compute(ADDC2, xh, yh, (xl + yl) / P).0 == Word((xh + yh + (xl + yl) / P) % P)
  {
  }

  lemma ComputeSub(xl: int, xh: int, yl: nat, yh: nat, carry: int)
    ensures var c := if xl < yl then 1 else 0;
            && Compute(SUBC1, xl, yl, carry) == (Word((xl - yl) % P), c)
            && Compute(SUBC2, xh, yh, c).0 == Word((xh - yh - c) % P)
  {
  }

  lemma AddHalves(xl: int, xh: int, yl: int, yh: int)
    ensures var c := (xl + yl) / P;
            Join((xl + yl) % P, (xh + yh + c) % P) == (Join(xl, xh) + Join(yl, yh)) % PP
  {
    var c := (xl + yl) / P;
    var s := xh + yh + c;
    DivUnique(Join(xl, xh) + Join(yl, yh), PP, s / P, (xl + yl) % P + P * (s % P));
  }

  lemma SubHalves(xl: int, xh: int, yl: int, yh: int, c: int, l: int, h: int)
    requires 0 <= xl < P && 0 <= yl < P && c == (if xl < yl then 1 else 0)
    requires l == (xl - yl) % P && h == (xh - yh - c) % P
    ensures Join(l, h) == (Join(xl, xh) - Join(yl, yh)) % PP
  {
    assert xl - yl == l - P * c by { DivUnique(xl - yl, P, -c, xl - yl + P * c); }
    var s := xh - yh - c;
    DivUnique(Join(xl, xh) - Join(yl, yh), PP, s / P, l + P * (s % P));
  }

  lemma MulHalves(xl: int, xh: int, yl: int, yh: int)
    ensures Join(Low(xl, yl), LowSum(High(xl, yl), LowSum(Low(xl, yh), Low(xh, yl)))) ==
              Join(xl, xh) * Join(yl, yh) % PP
  {
    Expand(xl, xh, yl, yh);
    MulParts(xl * yl, xl * yh, xh * yl, xh * yh);
  }

  lemma MulParts(d: int, a: int, b: int, c: int)
    ensures Join(d % P, (d / P + (a % P + b % P) % P) % P) == (d + P * (a + b) + PP * c) % PP
  {
    var s := d / P + a + b;
    assert (d / P + (a % P + b % P) % P) % P == s % P;
    DivUnique(d + P * (a + b) + PP * c, PP, s / P + c, d % P + P * (s % P));
  }

  lemma PIsPow2()
    ensures P == Pow2(32)
  {
    assert Pow2(8) == 256;
    Pow2Sum(8, 8);
    Pow2Sum(16, 16);
  }

  /** The bits of a number are those of its halves. */
  lemma BitJoin(lo: int, hi: int, i: nat)
    requires 0 <= lo < P
    ensures Bit(Join(lo, hi), i) == if i < 32 then Bit(lo, i) else Bit(hi, i - 32)
  {
    hide Bit;
    PIsPow2();
    BitConcat(lo, hi, 32, i);
  }

  lemma BitBitwise(op: Op, x: int, y: int, i: nat)
    requires op in {AND, OR, XOR}
    ensures Bit(Bitwise(op, x, y), i) ==
              match op
              case AND => Bit(x, i) && Bit(y, i)
              case OR => Bit(x, i) || Bit(y, i)
              case XOR => Bit(x, i) != Bit(y, i)
  {
    hide Bit, And, Or;
    BitAnd(x, y, i);
    BitOr(x, y, i);
    BitXor(x, y, i);
  }

  lemma BitwiseInRange(op: Op, x: int, y: int)
    requires op in {AND, OR, XOR} && 0 <= x < P && 0 <= y < P
    ensures 0 <= Bitwise(op, x, y) < P
  {
    hide Bit, Bitwise;
    PIsPow2();
    forall i: nat ensures Bit(Bitwise(op, x, y), i) == Bit(Bitwise(op, x, y) % P, i) {
      BitMod(Bitwise(op, x, y), 32, i);
      BitBitwise(op, x, y, i);
      BitMod(x, 32, i);
      BitMod(y, 32, i);
    }
    BitsDetermine(Bitwise(op, x, y), Bitwise(op, x, y) % P);
  }

  lemma BitwiseHalves(op: Op, xl: int, xh: int, yl: int, yh: int)
    requires op in {AND, OR, XOR} && 0 <= xl < P && 0 <= xh < P && 0 <= yl < P && 0 <= yh < P
    ensures Join(Bitwise(op, xl, yl), Bitwise(op, xh, yh)) == Bitwise(op, Join(xl, xh), Join(yl, yh))
    ensures 0 <= Bitwise(op, xl, yl) < P && 0 <= Bitwise(op, xh, yh) < P
  {
    hide Bit, Bitwise, Join;
    BitwiseInRange(op, xl, yl);
    BitwiseInRange(op, xh, yh);
    var l, h := Bitwise(op, xl, yl), Bitwise(op, xh, yh);
    forall i: nat ensures Bit(Join(l, h), i) == Bit(Bitwise(op, Join(xl, xh), Join(yl, yh)), i) {
      BitJoin(l, h, i);
      BitJoin(xl, xh, i);
      BitJoin(yl, yh, i);
      BitBitwise(op, Join(xl, xh), Join(yl, yh), i);
      if i < 32 { BitBitwise(op, xl, yl, i); } else { BitBitwise(op, xh, yh, i - 32); }
    }
    BitsDetermine(Join(l, h), Bitwise(op, Join(xl, xh), Join(yl, yh)));
  }

  lemma Expand(xl: int, xh: int, yl: int, yh: int)
    ensures Join(xl, xh) * Join(yl, yh) == xl * yl + P * (xl * yh + xh * yl) + PP * (xh * yh)
  {
    var u, v := P * xh, P * yh;
    assert (xl + u) * (yl + v) == xl * yl + xl * v + u * yl + u * v;
    assert xl * v == P * (xl * yh) && u * yl == P * (xh * yl) && u * v == PP * (xh * yh);
  }

  lemma JoinRange(lo: int, hi: int)
    requires 0 <= lo < P && 0 <= hi < P
    ensures 0 <= Join(lo, hi) < PP
  {
  }

  lemma BitRange(x: int, i: int)
    requires 0 <= x < P
    ensures 32 <= i ==> !Bit(x, i)
  {
    hide Bit;
    PIsPow2();
    if 32 <= i { BitMod(x, 32, i); }
  }

  /** Bits of the halves a right shift builds. */
  lemma RightHalf(op: Op, c: nat, xl: int, xh: int, i: nat)
    requires op in {SHR, SAR} && 1 <= c <= 63 && 0 <= xl < P && 0 <= xh < P
    ensures var (l, h) := ShiftedHalves(op, c, xl, xh);
            && Bit(h, i) == (i < 32 && if i + c < 32 then Bit(xh, i + c) else op == SAR && Bit(xh, 31))
            && Bit(l, i) == (i < 32 && if i + c < 32 then Bit(xl, i + c)
                                       else if i + c < 64 then Bit(xh, i + c - 32) else op == SAR && Bit(xh, 31))
  {
    hide Bit, Shl, Shr, Sar, Or;
    BitConstant(i);
    if c < 32 {
      BitShr32(xh, c, i);
      BitSar32(xh, c, i);
      BitShr32(xl, c, i);
      BitShl32(xh, 32 - c, i);
      BitOr(Shl(xh, 32 - c), Shr(xl, c), i);
    } else {
      BitShr32(xh, c - 32, i);
      BitSar32(xh, c - 32, i);
      BitSar32(xh, c - 32, 31);
      if i < 32 { BitSar32(FarHalf(SAR, xh, c), 31, i); }
      BitSar32(FarHalf(SAR, xh, c), 31, i);
      BitRange(xh, i);
    }
  }

  lemma ShiftHalves(op: Op, c: nat, x: Entry)
    requires op in {SHL, SHR, SAR} && 1 <= c <= 63 && x.Long? && EntryOk(x)
    ensures var (l, h) := ShiftedHalves(op, c, x.lo, x.hi);
            EntryOk(Long(l, h)) && Join(l, h) == Shifted(op, Join(x.lo, x.hi), c)
    ensures 0 <= Toward(op, if op == SHL then x.hi else x.lo, c)
  {
    hide Bit, Shl, Sar, ShiftedHalves, Shifted, Join;
    HalvesInRange(op, c, x.lo, x.hi);
    var (l, h) := ShiftedHalves(op, c, x.lo, x.hi);
    forall i: nat ensures Bit(Join(l, h), i) == Bit(Shifted(op, Join(x.lo, x.hi), c), i) {
      BitOfHalves(op, c, x.lo, x.hi, i);
    }
    BitsDetermine(Join(l, h), Shifted(op, Join(x.lo, x.hi), c));
    BitShl32(x.hi, c, 0);
  }

  lemma BitOfHalves(op: Op, c: nat, xl: int, xh: int, i: nat)
    requires op in {SHL, SHR, SAR} && 1 <= c <= 63 && 0 <= xl < P && 0 <= xh < P
    ensures var (l, h) := ShiftedHalves(op, c, xl, xh); Bit(Join(l, h), i) == Bit(Shifted(op, Join(xl, xh), c), i)
  {
    hide Bit, ShiftedHalves, Shifted, Join;
    HalvesInRange(op, c, xl, xh);
    JoinRange(xl, xh);
    var (l, h) := ShiftedHalves(op, c, xl, xh);
    BitJoin(l, h, i);
    if i < 32 {
      BitHalf(op, c, xl, xh, false, i);
    } else {
      BitHalf(op, c, xl, xh, true, i - 32);
      if 64 <= i { BitShifted(op, Join(xl, xh), c, i); }
    }
  }

  lemma HalvesInRange(op: Op, c: nat, xl: int, xh: int)
    requires op in {SHL, SHR, SAR} && 1 <= c <= 63 && 0 <= xl < P && 0 <= xh < P
    ensures var (l, h) := ShiftedHalves(op, c, xl, xh); 0 <= l < P && 0 <= h < P
  {
    hide Bit, ShiftedHalves, Shifted, Join;
    var (l, h) := ShiftedHalves(op, c, xl, xh);
    forall i: nat | 32 <= i ensures !Bit(l, i) && !Bit(h, i) {
      BitHalf(op, c, xl, xh, false, i);
      BitHalf(op, c, xl, xh, true, i);
    }
    IsWord(l);
    IsWord(h);
  }

  lemma IsWord(x: int)
    requires forall i: nat :: 32 <= i ==> !Bit(x, i)
    ensures 0 <= x < P
  {
    hide Bit;
    PIsPow2();
    forall i: nat ensures Bit(x, i) == Bit(x % P, i) { BitMod(x, 32, i); }
    BitsDetermine(x, x % P);
  }

  // ------------------------------------------------------------- comparisons

  /** The test on the high halves that lets the low halves decide when they are equal. */
  function HighTest(op: JC.Test): JC.Test
  {
    match op case LT => JC.LE case GT => JC.GE case ULT => JC.ULE case UGT => JC.UGE case _ => op
  }

  /** The low halves always compare as unsigned numbers. */
  function LowTest(op: JC.Test): JC.Test
  {
    match op case LT => JC.ULT case LE => JC.ULE case GT => JC.UGT case GE => JC.UGE case _ => op
  }

  /** The code of a comparison that begins at position n; the operands' halves are registers 0
      to 3, x first, low halves first.  Jumps still on a chain mean `false`. */
  function CompareCode(op: JC.Test, n: nat): seq<JC.Instr>
  {
    var high, low := JC.Compare(JC.Reg(1), JC.Reg(3), false), JC.Compare(JC.Reg(0), JC.Reg(2), false);
    if op == JC.EQ then
      [high, JC.JumpIf(JC.NE, JC.Chained(0)), low, JC.JumpIf(JC.NE, JC.Chained(n + 2))]
    else if op == JC.NE then
      [high, JC.JumpIf(JC.NE, JC.At(n + 4)), low, JC.JumpIf(JC.EQ, JC.Chained(0))]
    else
      [high, JC.JumpIf(JC.Negate(HighTest(op)), JC.Chained(0)), JC.JumpIf(JC.NE, JC.At(n + 5)),
       low, JC.JumpIf(JC.Negate(LowTest(op)), JC.Chained(n + 2))]
  }

  /** The same code while the jump over the low comparison is still on its chain. */
  function Unpatched(op: JC.Test, n: nat): seq<JC.Instr>
  {
    var code := CompareCode(op, n);
    if op == JC.EQ then code
    else if op == JC.NE then code[1 := JC.JumpIf(JC.NE, JC.Chained(0))]
    else code[2 := JC.JumpIf(JC.NE, JC.Chained(0))]
  }

  /** Emits the comparisons of both halves; b is the chain of the jump that is to skip the
      second one. */
  method EmitHalves(e: JC.Emitter, op: JC.Test) returns (a: nat, b: nat)
    modifies e
    ensures e.code == old(e.code) + Unpatched(op, |old(e.code)|) && a == |e.code|
    ensures b == |old(e.code)| + (if op == JC.NE then 2 else 3) || (op == JC.EQ && b == 0)
    ensures op == JC.EQ ==> b == 0
  {
    a := 0;
    b := 0;
    e.Compares(JC.Reg(1), JC.Reg(3), false);
    if op == JC.NE {
      b := e.GTst(HighTest(op), false, 0);
    } else {
      a := e.GTst(HighTest(op), true, 0);
      if op != JC.EQ { b := e.GTst(JC.NE, false, 0); }
    }
    e.Compares(JC.Reg(0), JC.Reg(2), false);
    a := e.GTst(LowTest(op), true, a);
  }

  /** Emits a comparison; the result is the chain of jumps taken when it fails. */
  method GenCompare(e: JC.Emitter, op: JC.Test) returns (a: nat)
    modifies e
    ensures e.code == old(e.code) + CompareCode(op, |old(e.code)|)
    ensures JC.ChainOk(e.code, a)
    ensures JC.OnChain(e.code, a) == set k | |old(e.code)| <= k < |e.code| && JC.IsChained(e.code[k])
  {
    var b;
    a, b := EmitHalves(e, op);
    ShortChain(e.code, b);
    e.GSym(b);
    assert e.code == old(e.code) + CompareCode(op, |old(e.code)|);
    ChainOfCompare(old(e.code), op, a);
  }

  lemma ShortChain(code: seq<JC.Instr>, b: nat)
    requires b == 0 || (b <= |code| && JC.IsChained(code[b - 1]) && code[b - 1].target.link == 0)
    ensures JC.ChainOk(code, b) && JC.OnChain(code, b) == if b == 0 then {} else {b - 1}
  {
    assert JC.OnChain(code, 0) == {};
  }

  lemma ChainOfCompare(pre: seq<JC.Instr>, op: JC.Test, a: nat)
    requires a == |pre| + |CompareCode(op, |pre|)|
    ensures var code := pre + CompareCode(op, |pre|);
            && JC.ChainOk(code, a)
            && JC.OnChain(code, a) == set k | |pre| <= k < |code| && JC.IsChained(code[k])
  {
    var n := |pre|;
    var code := pre + CompareCode(op, n);
    if op == JC.EQ {
      assert JC.OnChain(code, n + 2) == {n + 1};
      assert JC.OnChain(code, a) == {n + 3, n + 1};
    } else if op == JC.NE {
      assert JC.OnChain(code, a) == {n + 3};
    } else {
      assert JC.OnChain(code, n + 2) == {n + 1};
      assert JC.OnChain(code, a) == {n + 4, n + 1};
    }
  }

  /** Comparisons of 64-bit numbers given as patterns. */
  predicate Compares(op: JC.Test, a: int, b: int)
  {
    var (x, y) := (if a < 0x8000_0000_0000_0000 then a else a - 0x1_0000_0000_0000_0000,
                   if b < 0x8000_0000_0000_0000 then b else b - 0x1_0000_0000_0000_0000);
    match op
    case EQ => a == b case NE => a != b
    case LT => x < y case LE => x <= y case GT => y < x case GE => y <= x
    case ULT => a < b case ULE => a <= b case UGT => b < a case UGE => b <= a
  }

  /** Main result: the code falls through exactly when the 64-bit comparison holds, and
      otherwise takes a jump of the chain. */
  lemma CompareCorrect(pre: seq<JC.Instr>, op: JC.Test, f: JC.Flags, xl: int, xh: int, yl: int, yh: int)
    requires 0 <= xl < P && 0 <= xh < P && 0 <= yl < P && 0 <= yh < P
    ensures var o := JC.Run(pre + CompareCode(op, |pre|), |pre|, f, [xl, xh, yl, yh]).end;
            if Compares(op, xl + 0x1_0000_0000 * xh, yl + 0x1_0000_0000 * yh) then o.Fell? else o.Pending?
  {
    assert Compares(op, Join(xl, xh), Join(yl, yh)) == JC.Holds(op, JC.Flags(Join(xl, xh), Join(yl, yh), true));
    hide JC.Run, JC.Holds, Compares;
    var n, env := |pre|, [xl, xh, yl, yh];
    var code := pre + CompareCode(op, n);
    var high, low := JC.Flags(xh, yh, false), JC.Flags(xl, yl, false);
    JC.RunStep(code, n, f, env);
    JC.RunStep(code, n + 1, high, env);
    JC.RunStep(code, n + 2, high, env);
    JC.RunStep(code, n + 3, if op == JC.EQ || op == JC.NE then low else high, env);
    JC.RunStep(code, n + 4, low, env);
    JC.RunStep(code, n + 5, low, env);
    JC.RunStep(code, |code|, high, env);
    HalvesDecide(op, xl, xh, yl, yh);
  }

  /** A comparison of two 64-bit numbers in terms of their halves. */
  lemma HalvesDecide(op: JC.Test, xl: int, xh: int, yl: int, yh: int)
    requires 0 <= xl < P && 0 <= xh < P && 0 <= yl < P && 0 <= yh < P
    ensures var (high, low) := (JC.Flags(xh, yh, false), JC.Flags(xl, yl, false));
            var whole := JC.Holds(op, JC.Flags(Join(xl, xh), Join(yl, yh), true));
            && (JC.Holds(JC.NE, high) <==> !JC.Holds(JC.EQ, high)) && (JC.Holds(JC.NE, low) <==> !JC.Holds(JC.EQ, low))
            && (op == JC.EQ ==> (whole <==> JC.Holds(JC.EQ, high) && JC.Holds(JC.EQ, low)))
            && (op == JC.NE ==> (whole <==> JC.Holds(JC.NE, high) || JC.Holds(JC.NE, low)))
            && (op != JC.EQ && op != JC.NE ==>
                 && (JC.Holds(JC.Negate(HighTest(op)), high) ==> !whole)
                 && (!JC.Holds(JC.Negate(HighTest(op)), high) && JC.Holds(JC.NE, high) ==> whole)
                 && (!JC.Holds(JC.NE, high) ==> !JC.Holds(JC.Negate(HighTest(op)), high))
                 && (!JC.Holds(JC.NE, high) ==> (whole <==> !JC.Holds(JC.Negate(LowTest(op)), low))))
  {
    SignedJoin(xl, xh);
    SignedJoin(yl, yh);
  }

  lemma SignedJoin(lo: int, hi: int)
    requires 0 <= lo < P && 0 <= hi < P
    ensures JC.SignedValue(Join(lo, hi), true) == lo + P * JC.SignedValue(hi, false)
  {
  }
}
