/** Spilling registers of the value stack to the frame, and finding a free register, on x86-64. */
module RegisterSpill {
  import opened Basics
  import opened IntegerBits

  // ------------------------------------------------------------ stack entries

  datatype BType = BYTE | BOOL | SHORT | INT | LLONG | PTR | FUNC | FLOAT | DOUBLE | LDOUBLE

  datatype Flag = LVAL | SYM | MUSTCAST | MUSTBOUND | BOUNDED | LVAL_BYTE | LVAL_SHORT | LVAL_UNSIGNED

  /** The field `r` of an entry: a register or one of the places below, and flags. */
  datatype Place = Place(val: nat, flags: set<Flag>)

  datatype SValue = SValue(t: BType, unsigned: bool, r: Place, r2: nat, c: int)

  const NB_REGS := 25
  const TREG_ST0 := 24
  const VT_CONST := 0x30
  const VT_LLOCAL := 0x31
  const VT_LOCAL := 0x32

  predicate IsFloat(t: BType) { t in {FLOAT, DOUBLE, LDOUBLE} }

  /** The bytes that a load or store of the type moves. */
  function Width(t: BType): nat
  {
    match t
    case BYTE | BOOL => 1
    case SHORT => 2
    case INT | FLOAT => 4
    case LLONG | PTR | FUNC | DOUBLE => 8
    case LDOUBLE => 10
  }

  /** Size and alignment are the same for the types that a register is stored as. */
  function SlotSize(t: BType): nat { if t == LDOUBLE then 16 else Width(t) }

  function LvalueType(t: BType, unsigned: bool): set<Flag>
  {
    if t in {BYTE, BOOL, SHORT} then
      {LVAL, if t == SHORT then LVAL_SHORT else LVAL_BYTE} + if unsigned then {LVAL_UNSIGNED} else {}
    else {LVAL}
  }

  predicate IsLval(e: SValue) { LVAL in e.r.flags }

  // ------------------------------------------------------------- what is meant

  /** The registers, and the frame by offset from the frame pointer. */
  datatype Machine = Machine(regs: nat -> seq<Byte>, frame: int -> Byte)

  ghost predicate IsMachine(m: Machine) { forall r: nat :: |m.regs(r)| == 16 }

  function FrameBytes(m: Machine, at: int, n: nat): seq<Byte> { seq<Byte>(n, i requires 0 <= i < n => m.frame(at + i)) }

  datatype Where = Frame(offset: int) | Pointer(bytes: seq<Byte>) | Static(c: int, symbolic: bool)

  /** What an entry stands for: a value, given by bytes to be extended, an address, a constant or
      the processor flags, or an lvalue with the width of its accesses. */
  datatype Denotation =
    | Value(bytes: seq<Byte>, unsigned: bool)
    | Lvalue(at: Where, width: nat, unsigned: bool)
    | AddressOf(at: Where)
    | Flags(kind: nat, c: int)

  /** Scalar accesses follow the flags, because of wrong casts. */
  function AccessWidth(e: SValue): nat
  {
    if IsFloat(e.t) then Width(e.t)
    else if LVAL_BYTE in e.r.flags then 1
    else if LVAL_SHORT in e.r.flags then 2
    else Width(e.t)
  }

  predicate AccessUnsigned(e: SValue) { e.unsigned || (!IsFloat(e.t) && LVAL_UNSIGNED in e.r.flags) }

  ghost function Denotes(e: SValue, m: Machine): Denotation
    requires IsMachine(m)
  {
    if e.r.val < VT_CONST then
      if IsLval(e) then Lvalue(Pointer(m.regs(e.r.val)[..8]), AccessWidth(e), AccessUnsigned(e))
      else Value(m.regs(e.r.val)[..Width(e.t)], e.unsigned)
    else if e.r.val == VT_LLOCAL then
      Lvalue(Pointer(FrameBytes(m, e.c, 8)), AccessWidth(e), AccessUnsigned(e))
    else if e.r.val == VT_LOCAL then
      if IsLval(e) then Lvalue(Frame(e.c), AccessWidth(e), AccessUnsigned(e)) else AddressOf(Frame(e.c))
    else if e.r.val == VT_CONST then
      var at := Static(e.c, SYM in e.r.flags);
      if IsLval(e) then Lvalue(at, AccessWidth(e), AccessUnsigned(e)) else AddressOf(at)
    else Flags(e.r.val, e.c)
  }

  /** A value, or what the frame holds at an lvalue there. */
  function Content(d: Denotation, m: Machine): Denotation
  {
    if d.Lvalue? && d.at.Frame? then Value(FrameBytes(m, d.at.offset, d.width), d.unsigned) else d
  }

  /** A value may have become an lvalue in the frame, but what is read is the same; anything
      else stands for the same thing as before. */
  ghost predicate Same(e: SValue, m: Machine, e': SValue, m': Machine)
    requires IsMachine(m) && IsMachine(m')
  {
    var d, d' := Denotes(e, m), Denotes(e', m');
    && Content(d', m') == Content(d, m)
    && (d' == d || (d.Value? && d'.Lvalue? && d'.at.Frame?))
  }

  ghost predicate AllSame(st: seq<SValue>, m: Machine, st': seq<SValue>, m': Machine)
    requires IsMachine(m) && IsMachine(m')
  {
    |st| == |st'| && forall i :: 0 <= i < |st| ==> Same(st[i], m, st'[i], m')
  }

  lemma SameTrans(a: SValue, m: Machine, b: SValue, m': Machine, c: SValue, m'': Machine)
    requires IsMachine(m) && IsMachine(m') && IsMachine(m'')
    requires Same(a, m, b, m') && Same(b, m', c, m'')
    ensures Same(a, m, c, m'')
  {
  }

  lemma AllSameTrans(a: seq<SValue>, m: Machine, b: seq<SValue>, m': Machine, c: seq<SValue>, m'': Machine)
    requires IsMachine(m) && IsMachine(m') && IsMachine(m'')
    requires AllSame(a, m, b, m') && AllSame(b, m', c, m'')
    ensures AllSame(a, m, c, m'')
  {
    hide Same;
    forall i | 0 <= i < |a| ensures Same(a[i], m, c[i], m'') { SameTrans(a[i], m, b[i], m', c[i], m''); }
  }

  // ------------------------------------------------------------------ the code

  datatype Instr = Store(r: nat, t: BType, at: int) | PopST0

  function ByteAt(m: Machine, at: int, bytes: seq<Byte>, k: int): Byte
  {
    if at <= k < at + |bytes| then bytes[k - at] else m.frame(k)
  }

  function Put(m: Machine, at: int, bytes: seq<Byte>): Machine { m.(frame := k => ByteAt(m, at, bytes, k)) }

  ghost function Step(i: Instr, m: Machine): (m': Machine)
    requires IsMachine(m)
    ensures IsMachine(m')
  {
    match i
    case Store(r, t, at) => Put(m, at, m.regs(r)[..Width(t)])
    case PopST0 => m.(regs := r => if r == TREG_ST0 then seq(16, _ => 0) else m.regs(r))
  }

  ghost function Exec(code: seq<Instr>, m: Machine): (m': Machine)
    requires IsMachine(m)
    ensures IsMachine(m')
  {
    if code == [] then m else Exec(code[1..], Step(code[0], m))
  }

  lemma {:induction false} ExecAppend(a: seq<Instr>, b: seq<Instr>, m: Machine)
    requires IsMachine(m)
    ensures Exec(a + b, m) == Exec(b, Exec(a, m))
    decreases |a|
  {
    if a == [] {
      assert a + b == b;
    } else {
      assert (a + b)[1..] == a[1..] + b;
      ExecAppend(a[1..], b, Step(a[0], m));
    }
  }

  // ------------------------------------------------------------ one spilled entry

  predicate Uses(e: SValue, r: nat) { e.r.val == r || (e.t == LLONG && e.r2 == r) }

  /** One register at most, and offsets in the frame not below `loc`. */
  predicate Settled(e: SValue, loc: int)
  {
    && e.r2 == VT_CONST && e.r.val < 64
    && (e.r.val == VT_LLOCAL || (e.r.val == VT_LOCAL && IsLval(e)) ==> loc <= e.c)
  }

  predicate AllSettled(st: seq<SValue>, loc: int) { forall i :: 0 <= i < |st| ==> Settled(st[i], loc) }

  /** The type that the register of an entry is stored as: all of it, if it is an integer one. */
  function StoredAs(e: SValue): BType
  {
    if IsLval(e) || (!IsFloat(e.t) && e.t != LLONG) then PTR else e.t
  }

  /** The bytes of its register that an entry depends on. */
  function Needs(e: SValue): nat { if IsLval(e) then 8 else Width(e.t) }

  function SpillEntry(e: SValue, l: int): SValue
  {
    e.(r := if IsLval(e) then Place(VT_LLOCAL, e.r.flags - {BOUNDED}) else Place(VT_LOCAL, LvalueType(e.t, e.unsigned)),
       r2 := VT_CONST, c := l)
  }

  /** The frame is extended by an aligned slot. */
  function SlotFor(loc: int, t: BType): int { And(loc - SlotSize(t), 0 - SlotSize(t)) }

  lemma SlotRounds(x: int, a: nat, k: nat)
    requires (a, k) in {(4, 2), (8, 3), (16, 4)}
    ensures And(x, 0 - a) <= x && And(x, 0 - a) % a == 0
  {
    hide And;
    assert Pow2(k) == a by { assert Pow2(0) == 1 && Pow2(1) == 2 && Pow2(2) == 4 && Pow2(3) == 8; }
    hide Pow2;
    AndNegPow2(x, k);
    Floor(x, a);
  }

  lemma Floor(x: int, a: nat)
    requires a in {4, 8, 16}
    ensures x / a * a <= x && x / a * a % a == 0
  {
  }

  lemma SlotIsFresh(loc: int, t: BType)
    requires t in {PTR, LLONG, FLOAT, DOUBLE, LDOUBLE}
    ensures SlotFor(loc, t) + Width(t) <= SlotFor(loc, t) + SlotSize(t) <= loc
    ensures SlotFor(loc, t) % SlotSize(t) == 0
    ensures SlotSize(t) == if t == FLOAT then 4 else if t == LDOUBLE then 16 else 8
    ensures Width(t) == if t == FLOAT then 4 else if t == LDOUBLE then 10 else 8
  {
    hide And;
    SlotRounds(loc - SlotSize(t), SlotSize(t), if t == FLOAT then 2 else if t == LDOUBLE then 4 else 3);
  }

  ghost predicate FrameAgrees(m: Machine, m': Machine, loc: int)
  {
    forall k: int :: loc <= k ==> m'.frame(k) == m.frame(k)
  }

  lemma FrameBytesAgree(m: Machine, m': Machine, loc: int, at: int, n: nat)
    requires FrameAgrees(m, m', loc) && loc <= at
    ensures FrameBytes(m', at, n) == FrameBytes(m, at, n)
  {
  }

  /** Entries that do not use the register are not affected. */
  lemma OthersSame(e: SValue, m: Machine, m': Machine, loc: int)
    requires IsMachine(m) && IsMachine(m') && Settled(e, loc) && FrameAgrees(m, m', loc)
    requires m'.regs(e.r.val) == m.regs(e.r.val)
    ensures Same(e, m, e, m')
  {
    if e.r.val == VT_LLOCAL {
      FrameBytesAgree(m, m', loc, e.c, 8);
    } else if e.r.val == VT_LOCAL && IsLval(e) {
      FrameBytesAgree(m, m', loc, e.c, AccessWidth(e));
    }
  }

  /** An entry reads back from the slot what it had in the register, provided that enough of the
      register was stored. */
  lemma SpilledSame(e: SValue, m: Machine, m': Machine, n: nat, l: int)
    requires IsMachine(m) && IsMachine(m') && e.r.val < VT_CONST
    requires n <= 16 && FrameBytes(m', l, n) == m.regs(e.r.val)[..n]
    requires Needs(e) <= n
    ensures Same(e, m, SpillEntry(e, l), m')
    ensures if IsLval(e) then SpillEntry(e, l).r.flags == e.r.flags - {BOUNDED}
            else forall f :: f in SpillEntry(e, l).r.flags ==> f in {LVAL, LVAL_BYTE, LVAL_SHORT, LVAL_UNSIGNED}
    ensures !IsLval(e) ==> (LVAL_UNSIGNED in SpillEntry(e, l).r.flags <==> e.unsigned && e.t in {BYTE, BOOL, SHORT})
  {
    var k, v := Needs(e), m.regs(e.r.val);
    assert FrameBytes(m', l, k) == FrameBytes(m', l, n)[..k];
    assert v[..k] == v[..n][..k];
  }

  lemma UsesOne(e: SValue, r: nat, loc: int)
    requires Settled(e, loc) && r < VT_CONST && Uses(e, r)
    ensures e.r.val == r
  {
  }

  // -------------------------------------------------------- the whole stack

  /** The lowest of the first `hi` entries that uses r, or hi. */
  function FirstUse(st: seq<SValue>, r: nat, hi: nat): (f: nat)
    requires hi <= |st|
    ensures f <= hi
    ensures f < hi ==> Uses(st[f], r)
    ensures forall i :: 0 <= i < f ==> !Uses(st[i], r)
  {
    if hi == 0 then 0
    else
      var f := FirstUse(st, r, hi - 1);
      if f < hi - 1 then f else if Uses(st[hi - 1], r) then hi - 1 else hi
  }

  function Spilled(st: seq<SValue>, r: nat, hi: nat, l: int): (st': seq<SValue>)
    requires hi <= |st|
    ensures |st'| == |st|
  {
    seq(|st|, i requires 0 <= i < |st| => if i < hi && Uses(st[i], r) then SpillEntry(st[i], l) else st[i])
  }

  lemma SpillStep(st: seq<SValue>, r: nat, p: nat, l: int)
    requires p < |st|
    ensures Spilled(st, r, p, l)[p] == st[p]
    ensures Spilled(st, r, p + 1, l) ==
              if Uses(st[p], r) then Spilled(st, r, p, l)[p := SpillEntry(st[p], l)] else Spilled(st, r, p, l)
    ensures FirstUse(st, r, p) == p ==> Spilled(st, r, p, l) == st
    ensures FirstUse(st, r, p + 1) ==
              if FirstUse(st, r, p) < p then FirstUse(st, r, p) else if Uses(st[p], r) then p else p + 1
  {
  }

  function StoreCode(r: nat, t: BType, l: int): seq<Instr>
  {
    [Store(r, t, l)] + if r == TREG_ST0 then [PopST0] else []
  }

  /** What a spill does to the machine: the slot holds the register, the rest of the frame and
      the other registers are as before. */
  lemma StoreCodeMeaning(r: nat, t: BType, l: int, m: Machine)
    requires IsMachine(m)
    ensures var m' := Exec(StoreCode(r, t, l), m);
            && FrameBytes(m', l, Width(t)) == m.regs(r)[..Width(t)]
            && (forall k: int :: k < l || l + Width(t) <= k ==> m'.frame(k) == m.frame(k))
            && (forall q: nat :: q != r || r != TREG_ST0 ==> m'.regs(q) == m.regs(q))
  {
    var v := m.regs(r)[..Width(t)];
    var m1 := Step(Store(r, t, l), m);
    assert forall k :: m1.frame(k) == ByteAt(m, l, v, k);
    var code := StoreCode(r, t, l);
    if r == TREG_ST0 {
      assert code[1..] == [PopST0];
      assert Exec(code, m) == Exec([PopST0], m1) == Exec([], Step(PopST0, m1));
    } else {
      assert code[1..] == [];
    }
    assert Exec(code, m).frame == m1.frame;
    assert FrameBytes(m1, l, |v|) == v;
  }

  /** The registers below that use r need no more than what the lowest of them makes stored. */
  predicate Covered(st: seq<SValue>, r: nat, hi: nat)
    requires hi <= |st|
  {
    var f := FirstUse(st, r, hi);
    forall i :: f <= i < hi && st[i].r.val == r ==> Needs(st[i]) <= Width(StoredAs(st[f]))
  }

  ghost predicate KeptAt(st: seq<SValue>, added: seq<Instr>, st': seq<SValue>, m: Machine)
  {
    IsMachine(m) ==> AllSame(st, m, st', Exec(added, m))
  }

  /** Whatever the machine, after running the code the stack stands for what it did. */
  ghost predicate KeptBy(st: seq<SValue>, added: seq<Instr>, st': seq<SValue>)
  {
    forall m: Machine :: KeptAt(st, added, st', m)
  }

  /** Main result: after a spill of r the whole stack stands for what it did, in every state of
      the machine, exactly if no entry needs more of r than the lowest entry that uses it. */
  lemma SpillKeepsIff(st: seq<SValue>, r: nat, loc: int)
    requires r < VT_CONST && AllSettled(st, loc) && FirstUse(st, r, |st|) < |st|
    ensures var t := StoredAs(st[FirstUse(st, r, |st|)]);
            var l := SlotFor(loc, t);
            KeptBy(st, StoreCode(r, t, l), Spilled(st, r, |st|, l)) <==> Covered(st, r, |st|)
  {
    var f := FirstUse(st, r, |st|);
    var t := StoredAs(st[f]);
    var l := SlotFor(loc, t);
    if Covered(st, r, |st|) {
      hide AllSame, Exec, SlotFor, StoreCode, Spilled, AllSettled, Covered;
      forall m: Machine ensures KeptAt(st, StoreCode(r, t, l), Spilled(st, r, |st|, l), m) {
        if IsMachine(m) { SpillKeeps(st, r, |st|, loc, m); }
      }
    } else {
      var i :| f <= i < |st| && st[i].r.val == r && Needs(st[i]) > Width(t);
      var m := Marked(Width(t));
      TooNarrow(st[i], r, t, l);
      assert !KeptAt(st, StoreCode(r, t, l), Spilled(st, r, |st|, l), m) by {
        assert Spilled(st, r, |st|, l)[i] == SpillEntry(st[i], l);
      }
    }
  }

  /** Integer registers are stored whole, whatever the types of the entries. */
  lemma IntegersCovered(st: seq<SValue>, r: nat, hi: nat)
    requires hi <= |st| && r < VT_CONST
    requires forall i :: 0 <= i < hi && Uses(st[i], r) ==> IsLval(st[i]) || !IsFloat(st[i].t)
    ensures Covered(st, r, hi)
  {
  }

  lemma SpillKeeps(st: seq<SValue>, r: nat, hi: nat, loc: int, m: Machine)
    requires r < VT_CONST && AllSettled(st, loc) && hi <= |st| && FirstUse(st, r, hi) < hi && Covered(st, r, hi)
    requires IsMachine(m)
    requires r == TREG_ST0 ==> forall i :: hi <= i < |st| ==> st[i].r.val != r
    ensures var t := StoredAs(st[FirstUse(st, r, hi)]);
            var l := SlotFor(loc, t);
            AllSame(st, m, Spilled(st, r, hi, l), Exec(StoreCode(r, t, l), m))
  {
    hide Same, SlotFor, And, Exec, StoreCode;
    var t := StoredAs(st[FirstUse(st, r, hi)]);
    var l := SlotFor(loc, t);
    var m' := Exec(StoreCode(r, t, l), m);
    SlotIsFresh(loc, t);
    StoreCodeMeaning(r, t, l, m);
    var st' := Spilled(st, r, hi, l);
    forall i | 0 <= i < |st| ensures Same(st[i], m, st'[i], m') {
      if i < hi && st[i].r.val == r {
        SpilledSame(st[i], m, m', Width(t), l);
      } else {
        OthersSame(st[i], m, m', loc);
      }
    }
  }

  /** A machine whose registers have ones from byte n on, and whose frame is clear. */
  ghost function Marked(n: nat): Machine
  {
    Machine(_ => seq<Byte>(16, k requires 0 <= k < 16 => if k < n then 0 else 1), _ => 0)
  }

  lemma TooNarrow(e: SValue, r: nat, t: BType, l: int)
    requires e.r.val == r < VT_CONST && Width(t) < Needs(e)
    ensures var m := Marked(Width(t));
            IsMachine(m) && !Same(e, m, SpillEntry(e, l), Exec(StoreCode(r, t, l), m))
  {
    var n := Width(t);
    var m := Marked(n);
    var m' := Exec(StoreCode(r, t, l), m);
    StoreCodeMeaning(r, t, l, m);
    var was := m.regs(r)[..Needs(e)];
    var now := FrameBytes(m', l, Needs(e));
    assert was[n] == 1;
    assert now[n] == m'.frame(l + n) == m.frame(l + n);
  }

  // ------------------------------------------------------- what a spill keeps

  predicate AllCovered(st: seq<SValue>) { forall r: nat :: r < VT_CONST ==> Covered(st, r, |st|) }

  lemma SpillInvariants(st: seq<SValue>, r: nat, hi: nat, loc: int)
    requires r < VT_CONST && AllSettled(st, loc) && hi <= |st| && FirstUse(st, r, hi) < hi
    ensures var l := SlotFor(loc, StoredAs(st[FirstUse(st, r, hi)]));
            && l < loc
            && AllSettled(Spilled(st, r, hi, l), l)
            && (hi == |st| && AllCovered(st) ==> AllCovered(Spilled(st, r, hi, l)))
  {
    hide SlotFor, And;
    SlotIsFresh(loc, StoredAs(st[FirstUse(st, r, hi)]));
    var l := SlotFor(loc, StoredAs(st[FirstUse(st, r, hi)]));
    var st' := Spilled(st, r, hi, l);
    if hi == |st| && AllCovered(st) {
      forall q: nat | q < VT_CONST ensures Covered(st', q, |st|) {
        assert Covered(st, q, |st|);
        if q != r { SameFirstUse(st, st', r, q, l); }
      }
    }
  }

  lemma UsesKept(st: seq<SValue>, r: nat, q: nat, l: int, i: nat)
    requires i < |st| && st[i].r2 == VT_CONST && q < VT_CONST && q != r && r < VT_CONST
    ensures var e := Spilled(st, r, |st|, l)[i];
            Uses(e, q) == Uses(st[i], q) && (st[i].r.val == q ==> e == st[i])
  {
  }

  lemma SameFirstUse(st: seq<SValue>, st': seq<SValue>, r: nat, q: nat, l: int)
    requires st' == Spilled(st, r, |st|, l) && |st'| == |st| && q < VT_CONST && q != r && r < VT_CONST
    requires forall i :: 0 <= i < |st| ==> st[i].r2 == VT_CONST
    ensures FirstUse(st', q, |st|) == FirstUse(st, q, |st|)
    ensures forall i :: 0 <= i < |st| && st[i].r.val == q ==> st'[i] == st[i]
  {
    hide FirstUse, Spilled, Uses;
    var (f, f') := (FirstUse(st, q, |st|), FirstUse(st', q, |st|));
    forall i | 0 <= i < |st| && st[i].r.val == q ensures st'[i] == st[i] { UsesKept(st, r, q, l, i); }
    if f < f' {
      UsesKept(st, r, q, l, f);
    } else if f' < f {
      UsesKept(st, r, q, l, f');
    }
  }

  ghost predicate Keeps(st: seq<SValue>, code: seq<Instr>, st': seq<SValue>, code': seq<Instr>)
  {
    code <= code' && KeptBy(st, code'[|code|..], st')
  }

  lemma SameRefl(st: seq<SValue>, m: Machine)
    requires IsMachine(m)
    ensures AllSame(st, m, st, m)
  {
  }

  lemma KeepsRefl(st: seq<SValue>, code: seq<Instr>)
    ensures Keeps(st, code, st, code)
  {
    hide AllSame;
    assert code[|code|..] == [];
    forall m: Machine ensures KeptAt(st, [], st, m) {
      if IsMachine(m) { SameRefl(st, m); }
    }
  }

  lemma KeptByBoth(st: seq<SValue>, a: seq<Instr>, st1: seq<SValue>, b: seq<Instr>, st2: seq<SValue>)
    requires KeptBy(st, a, st1) && KeptBy(st1, b, st2)
    ensures KeptBy(st, a + b, st2)
  {
    hide AllSame, Exec, IsMachine;
    forall m: Machine ensures KeptAt(st, a + b, st2, m) {
      if IsMachine(m) {
        ExecAppend(a, b, m);
        assert KeptAt(st, a, st1, m) && KeptAt(st1, b, st2, Exec(a, m));
        AllSameTrans(st, m, st1, Exec(a, m), st2, Exec(b, Exec(a, m)));
      }
    }
  }

  lemma KeepsTrans(st: seq<SValue>, code: seq<Instr>, st1: seq<SValue>, code1: seq<Instr>, st2: seq<SValue>,
        code2: seq<Instr>)
    requires Keeps(st, code, st1, code1) && Keeps(st1, code1, st2, code2)
    ensures Keeps(st, code, st2, code2)
  {
    hide KeptBy;
    var (a, b) := (code1[|code|..], code2[|code1|..]);
    assert code2[|code|..] == a + b;
    KeptByBoth(st, a, st1, b, st2);
  }

  lemma SpillIsKept(st: seq<SValue>, r: nat, loc: int, code: seq<Instr>)
    requires r < VT_CONST && AllSettled(st, loc) && FirstUse(st, r, |st|) < |st| && Covered(st, r, |st|)
    ensures var t := StoredAs(st[FirstUse(st, r, |st|)]);
            var l := SlotFor(loc, t);
            Keeps(st, code, Spilled(st, r, |st|, l), code + StoreCode(r, t, l))
  {
    hide KeptBy, Exec, SlotFor, StoreCode, Spilled, AllSettled, Covered;
    var t := StoredAs(st[FirstUse(st, r, |st|)]);
    var added := StoreCode(r, t, SlotFor(loc, t));
    assert (code + added)[|code|..] == added;
    SpillKeepsIff(st, r, loc);
  }

  predicate Unused(st: seq<SValue>, r: nat) { forall i :: 0 <= i < |st| ==> st[i].r.val != r && st[i].r2 != r }

  predicate InRegister(e: SValue) { e.r.val < VT_CONST }

  lemma SpillFrees(st: seq<SValue>, r: nat, l: int, loc: int)
    requires r < VT_CONST && AllSettled(st, loc)
    ensures Unused(Spilled(st, r, |st|, l), r)
    ensures forall i :: 0 <= i < |st| && (!InRegister(st[i]) || st[i].r.val == r) ==>
              !InRegister(Spilled(st, r, |st|, l)[i])
  {
  }

  // --------------------------------------------------------- register classes

  datatype RC = RC_INT | RC_FLOAT | RC_RAX | RC_RCX | RC_RDX | RC_ST0 | RC_R(n: nat) | RC_XMM(n: nat)

  function RegClasses(r: nat): set<RC>
    requires r < NB_REGS
  {
    if r == 0 then {RC_INT, RC_RAX}
    else if r == 1 then {RC_INT, RC_RCX}
    else if r == 2 then {RC_INT, RC_RDX}
    else if 8 <= r < 12 then {RC_R(r)}
    else if 16 <= r < 22 then {RC_FLOAT, RC_XMM(r - 16)}
    else if 22 <= r < 24 then {RC_XMM(r - 16)}
    else if r == TREG_ST0 then {RC_ST0}
    else {}
  }

  /** The allocatable registers: rax, rcx and rdx, xmm0 to xmm5 and st0; others are in a class of
      their own only. */
  lemma ClassMembers(r: nat, n: nat)
    ensures InClass(r, {RC_INT}) <==> r in {0, 1, 2}
    ensures InClass(r, {RC_FLOAT}) <==> 16 <= r <= 21
    ensures (InClass(r, {RC_RAX}) <==> r == 0) && (InClass(r, {RC_RCX}) <==> r == 1)
    ensures (InClass(r, {RC_RDX}) <==> r == 2) && (InClass(r, {RC_ST0}) <==> r == 24)
    ensures InClass(r, {RC_R(n)}) <==> r == n && 8 <= n <= 11
    ensures InClass(r, {RC_XMM(n)}) <==> r == 16 + n && n <= 7
  {
    forall rc: RC ensures InClass(r, {rc}) <==> r < NB_REGS && rc in RegClasses(r) {
      assert r < NB_REGS && rc in RegClasses(r) ==> rc in RegClasses(r) * {rc};
    }
  }

  predicate InClass(r: nat, rc: set<RC>) { r < NB_REGS && RegClasses(r) * rc != {} }

  class CodeGen {
    var st: seq<SValue>    // bottom first
    var loc: int
    var code: seq<Instr>
    const nocodeWanted: bool

    constructor (nocodeWanted: bool)
      ensures st == [] && loc == 0 && code == [] && this.nocodeWanted == nocodeWanted
    {
      st, loc, code, this.nocodeWanted := [], 0, [], nocodeWanted;
    }

    /** All entries up to the n-th from the top that use r move to one fresh slot. */
    method SaveRegUpstack(r0: nat, n: nat)
      requires n <= |st| && AllSettled(st, loc)
      modifies `st, `loc, `code
      ensures var (r, hi) := (r0 % 64, |old(st)| - n);
              var f := FirstUse(old(st), r, hi);
              if r < VT_CONST && !nocodeWanted && f < hi then
                var t := StoredAs(old(st)[f]);
                && loc == SlotFor(old(loc), t)
                && st == Spilled(old(st), r, hi, loc)
                && code == old(code) + StoreCode(r, t, loc)
              else st == old(st) && loc == old(loc) && code == old(code)
      ensures AllSettled(st, loc)
    {
      hide Spilled, FirstUse, SlotFor, And, Uses, SpillEntry, Settled;
      var r: nat, l, saved := r0 % 64, 0, false;
      if r >= VT_CONST || nocodeWanted { return; }
      var p: nat, hi: nat := 0, |st| - n;
      while p < hi
        invariant p <= hi <= |st| == |old(st)| && r == r0 % 64
        invariant saved == (FirstUse(old(st), r, p) < p)
        invariant saved ==> l == loc && loc == SlotFor(old(loc), StoredAs(old(st)[FirstUse(old(st), r, p)]))
        invariant saved ==> st == Spilled(old(st), r, p, loc)
                            && code == old(code) + StoreCode(r, StoredAs(old(st)[FirstUse(old(st), r, p)]), loc)
        invariant !saved ==> st == old(st) && loc == old(loc) && code == old(code)
      {
        SpillStep(old(st), r, p, l);
        if Uses(st[p], r) {
          if !saved {
            UsesOne(st[p], r, loc);
            r := st[p].r.val;    // r may have been the second register of the entry
            var t := StoredAs(st[p]);
            loc := SlotFor(loc, t);
            SpillStep(old(st), r, p, loc);
            code := code + [Store(r, t, loc)];
            if r == TREG_ST0 { code := code + [PopST0]; }
            assert code == old(code) + StoreCode(r, t, loc);
            l, saved := loc, true;
          }
          st := st[p := SpillEntry(st[p], l)];
        }
        p := p + 1;
      }
      if saved { SpillInvariants(old(st), r, hi, old(loc)); }
    }

    /** The stack keeps its meaning, and r is free. */
    method SaveReg(r0: nat)
      requires AllSettled(st, loc)
      modifies `st, `loc, `code
      ensures AllSettled(st, loc) && |st| == |old(st)|
      ensures AllCovered(old(st)) ==> AllCovered(st) && Keeps(old(st), old(code), st, code)
      ensures !nocodeWanted && r0 % 64 < VT_CONST ==> Unused(st, r0 % 64)
      ensures forall i :: 0 <= i < |st| && InRegister(st[i]) ==>
                InRegister(old(st)[i]) && (nocodeWanted || old(st)[i].r.val != r0 % 64)
    {
      hide Keeps, Spilled, SlotFor, StoreCode, And, Covered;
      SaveRegUpstack(r0, 0);
      var r: nat := r0 % 64;
      ghost var was := old(st);
      KeepsRefl(was, old(code));
      if r < VT_CONST && !nocodeWanted && FirstUse(was, r, |was|) < |was| {
        SpillInvariants(was, r, |was|, old(loc));
        SpillFrees(was, r, loc, old(loc));
        if AllCovered(was) { SpillIsKept(was, r, old(loc), old(code)); }
      }
    }

    /** All registers are free below the n topmost entries. */
    method SaveRegs(n: nat)
      requires n <= |st| && AllSettled(st, loc)
      modifies `st, `loc, `code
      ensures AllSettled(st, loc) && |st| == |old(st)|
      ensures AllCovered(old(st)) ==> AllCovered(st) && Keeps(old(st), old(code), st, code)
      ensures !nocodeWanted ==> forall i :: 0 <= i < |st| - n ==> !InRegister(st[i])
    {
      hide Keeps, AllCovered, AllSettled;
      KeepsRefl(st, code);
      var p: nat, hi: nat := 0, |st| - n;
      while p < hi
        invariant p <= hi <= |st| == |old(st)| && AllSettled(st, loc)
        invariant AllCovered(old(st)) ==> AllCovered(st) && Keeps(old(st), old(code), st, code)
        invariant !nocodeWanted ==> forall i :: 0 <= i < p ==> !InRegister(st[i])
      {
        ghost var was, code0 := st, code;
        SaveReg(st[p].r.val);
        if AllCovered(old(st)) { KeepsTrans(old(st), old(code), was, code0, st, code); }
        p := p + 1;
      }
    }

    /** Main result: a register of the class that no entry uses, if there is one in the class at
        all; the stack keeps its meaning. */
    method GetReg(rc: set<RC>) returns (r: int)
      requires AllSettled(st, loc)
      modifies `st, `loc, `code
      ensures AllSettled(st, loc) && |st| == |old(st)|
      ensures AllCovered(old(st)) ==> AllCovered(st) && Keeps(old(st), old(code), st, code)
      ensures r == -1 <==> forall q: nat :: !InClass(q, rc)
      ensures r != -1 ==> 0 <= r && InClass(r, rc) && (!nocodeWanted ==> Unused(st, r))
    {
      hide Keeps, AllCovered;
      KeepsRefl(st, code);
      var q: nat := 0;
      while q < NB_REGS
        invariant q <= NB_REGS && st == old(st) && loc == old(loc) && code == old(code)
        invariant forall k: nat :: k < q && InClass(k, rc) ==> !nocodeWanted && !Unused(st, k)
      {
        if RegClasses(q) * rc != {} {
          assert InClass(q, rc);
          if nocodeWanted { return q; }
          var p, free := 0, true;
          while p < |st| && free
            invariant 0 <= p <= |st|
            invariant free ==> forall i :: 0 <= i < p ==> st[i].r.val != q && st[i].r2 != q
            invariant !free ==> !Unused(st, q)
          {
            if st[p].r.val == q || st[p].r2 == q { free := false; }
            p := p + 1;
          }
          if free { return q; }
        }
        q := q + 1;
      }
      assert forall k: nat :: InClass(k, rc) ==> !Unused(st, k);
      var p := 0;
      while p < |st|
        invariant 0 <= p <= |st|
        invariant st == old(st) && loc == old(loc) && code == old(code)
        invariant forall i :: 0 <= i < p ==> !InClass(st[i].r.val, rc) && !InClass(st[i].r2, rc)
      {
        if st[p].r2 < VT_CONST { assert false; }    // no pairs of registers
        var k := st[p].r.val;
        if k < NB_REGS && RegClasses(k) * rc != {} {
          assert InClass(k, rc);
          SaveReg(k);
          return k;
        }
        p := p + 1;
      }
      return -1;
    }
  }
}
