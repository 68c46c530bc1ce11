/** Encoding the operands of an x86-64 instruction: the REX prefix, the ModRM and SIB bytes and
    the displacement; and the decoding that the architecture defines. */
module OperandEncoding {
  import opened Basics

  datatype OpType = REG8 | REG8_LOW | REG16 | REG32 | REG64 | MMX | SSE | CR | TR | DB | SEG | ST | EA

  /** A register, or an address: `reg` is its base and `reg2` its index (-1 none, -2 rip), `shift`
      its scale and `v` its displacement. */
  datatype Operand = Operand(types: set<OpType>, reg: int, reg2: int, shift: nat, v: int)

  const NONE := -1
  const RIP := -2
  const RSP := 4

  predicate IsGeneral(op: Operand) { op.types * {REG8, REG16, REG32, REG64} != {} }

  /** What the ModRM byte shows directly. */
  predicate IsDirect(op: Operand) { IsGeneral(op) || op.types * {MMX, SSE} != {} }

  // --------------------------------------------------------- what is meant

  datatype Meaning =
    | HighByte(n: nat)                  // ah, ch, dh, bh
    | Register(n: nat, byte: bool)
    | Memory(base: int, index: int, scale: nat, disp: int)

  predicate IsHighByte(op: Operand) { REG8 in op.types && REG8_LOW !in op.types && 4 <= op.reg < 8 }

  function RegisterMeant(op: Operand): Meaning
    requires 0 <= op.reg
  {
    if IsHighByte(op) then HighByte(op.reg - 4) else Register(op.reg, REG8 in op.types)
  }

  function MemoryMeant(op: Operand): Meaning { Memory(op.reg, op.reg2, if op.reg2 == NONE then 0 else op.shift, op.v) }

  predicate ValidRegister(op: Operand)
  {
    && 0 <= op.reg < 16 && EA !in op.types
    && (REG8_LOW in op.types ==> REG8 in op.types && 4 <= op.reg < 8)
  }

  predicate ValidMemory(op: Operand)
  {
    && op.types == {EA} && RIP <= op.reg < 16 && RIP <= op.reg2 < 16 && op.shift < 4
    && -0x8000_0000_0000_0000 <= op.v < 0x8000_0000_0000_0000
  }

  // ------------------------------------------------------------ the prefix

  /** Of an operand in the ModRM byte or in the opcode: bit 3 of its register. */
  predicate Extended(reg: int) { reg >= 8 }

  function Reduced(reg: int): int { if reg >= 8 then reg - 8 else reg }

  /** Registers that cannot be told from the high bytes without a prefix. */
  predicate NeedsPlainRex(op: Operand) { !Extended(op.reg) && REG8_LOW in op.types }

  /** The bits of the prefix, from W down to B; present if any operand needs it. */
  datatype Rex = Rex(w: bool, r: bool, x: bool, b: bool, plain: bool)

  predicate IsPresent(rex: Rex) { rex.w || rex.r || rex.x || rex.b || rex.plain }

  function RexByte(rex: Rex): Byte
  {
    0x40 + (if rex.w then 8 else 0) + (if rex.r then 4 else 0) + (if rex.x then 2 else 0) + (if rex.b then 1 else 0)
  }

  function RexCode(rex: Rex): seq<Byte> { if IsPresent(rex) then [RexByte(rex)] else [] }

  /** The prefix for a register (if any) in the reg field and an operand in the r/m field. */
  function RexFor(width64: bool, reg: Option<Operand>, rm: Operand): Rex
  {
    Rex(width64,
        reg.Some? && Extended(reg.value.reg),
        EA in rm.types && Extended(rm.reg2),
        Extended(rm.reg),
        (reg.Some? && NeedsPlainRex(reg.value)) || NeedsPlainRex(rm))
  }

  // ---------------------------------------------------- ModRM, SIB, displacement

  function Low8(v: int): Byte { v % 256 }

  function Le32(v: int): seq<Byte>
  {
    var u := v % 0x1_0000_0000;
    [u % 256, u / 256 % 256, u / 0x1_0000 % 256, u / 0x100_0000]
  }

  predicate IsInt8(v: int) { -128 <= v < 128 }

  predicate IsInt32(v: int) { -0x8000_0000 <= v < 0x8000_0000 }

  /** Scale, index and base in a byte; the low one, if rip (-2) is the index. */
  function SibByte(shift: nat, index: int, base: nat): Byte
  {
    Low8(shift * 64 + (if index == NONE then 4 else index) * 8 + base)
  }

  /** The bytes after the opcode, for an operand whose registers are reduced. */
  function ModrmCode(reg: nat, op: Operand): seq<Byte>
    requires reg < 8 && op.reg < 8
    requires if IsDirect(op) then 0 <= op.reg else RIP <= op.reg && RIP <= op.reg2 < 8 && op.shift < 4
  {
    if IsDirect(op) then [0xc0 + reg * 8 + op.reg]
    else if op.reg == NONE && op.reg2 == NONE then [0x04 + reg * 8, 0x25] + Le32(op.v)
    else if op.reg == RIP then [0x05 + reg * 8] + Le32(op.v - 4)
    else
      var mod := if op.reg == NONE then 0x00
                 else if op.v == 0 && op.reg != 5 then 0x00
                 else if IsInt8(op.v) then 0x40 else 0x80;
      var reg1 := if op.reg2 != NONE then 4 else op.reg;
      [mod + reg * 8 + reg1]
      + (if reg1 == 4 then [SibByte(op.shift, op.reg2, if op.reg == NONE then 5 else op.reg)] else [])
      + (if mod == 0x40 then [Low8(op.v)] else if mod == 0x80 || op.reg == NONE then Le32(op.v) else [])
  }

  function Narrow(op: Operand): Operand
  {
    op.(reg := Reduced(op.reg), reg2 := if EA in op.types then Reduced(op.reg2) else op.reg2)
  }

  // ------------------------------------------ decoding, as the architecture has it

  function SignExtend8(b: Byte): int { if b < 128 then b else b - 256 }

  function Signed32(b: seq<Byte>): int
    requires |b| >= 4
  {
    var (b0: int, b1: int, b2: int, b3: int) := (b[0], b[1], b[2], b[3]);
    var u := b0 + 256 * b1 + 0x1_0000 * b2 + 0x100_0000 * b3;
    if u < 0x8000_0000 then u else u - 0x1_0000_0000
  }

  function Wrap32(v: int): int
  {
    var u := v % 0x1_0000_0000;
    if u < 0x8000_0000 then u else u - 0x1_0000_0000
  }

  /** A register named by a 4-bit number: the prefix, whatever is in it, changes the meaning of
      four of the byte registers. */
  function DecodeRegister(n: nat, byte: bool, prefixed: bool): Meaning
  {
    if byte && 4 <= n < 8 && !prefixed then HighByte(n - 4) else Register(n, byte)
  }

  function Bit3(b: bool): nat { if b then 8 else 0 }

  /** The displacement that `mod` selects, and how many bytes it has. */
  function DecodeDisp(mod: nat, rest: seq<Byte>): Option<(int, nat)>
  {
    if mod == 0 then Some((0, 0))
    else if mod == 1 then (if |rest| >= 1 then Some((SignExtend8(rest[0]), 1)) else None)
    else if |rest| >= 4 then Some((Signed32(rest), 4)) else None
  }

  /** The operand in the r/m field, and how many bytes it takes. */
  function DecodeRm(rex: Rex, byte: bool, code: seq<Byte>): Option<(Meaning, nat)>
    requires |code| >= 1
  {
    var mod, rm := code[0] / 64, code[0] % 8;
    if mod == 3 then Some((DecodeRegister(rm + Bit3(rex.b), byte, IsPresent(rex)), 1))
    else if rm == 4 then
      if |code| < 2 then None else
        var scale, index, base := code[1] / 64, code[1] / 8 % 8 + Bit3(rex.x), code[1] % 8;
        var d := DecodeDisp(if mod == 0 && base == 5 then 2 else mod, code[2..]);
        if d.None? then None else
          Some((Memory(if mod == 0 && base == 5 then NONE else base + Bit3(rex.b),
                       if index == 4 then NONE else index, if index == 4 then 0 else scale, d.value.0), 2 + d.value.1))
    else
      var d := DecodeDisp(if mod == 0 && rm == 5 then 2 else mod, code[1..]);
      if d.None? then None else
        Some((Memory(if mod == 0 && rm == 5 then RIP else rm + Bit3(rex.b), NONE, 0, d.value.0), 1 + d.value.1))
  }

  /** The number in the reg field. */
  function DecodeReg(rex: Rex, code: seq<Byte>): nat
    requires |code| >= 1
  {
    code[0] / 8 % 8 + Bit3(rex.r)
  }

  /** The bits of a prefix byte. */
  function DecodeRex(code: seq<Byte>): Rex
  {
    if code != [] && code[0] / 16 == 4 then
      Rex(code[0] / 8 % 2 == 1, code[0] / 4 % 2 == 1, code[0] / 2 % 2 == 1, code[0] % 2 == 1, true)
    else Rex(false, false, false, false, false)
  }

  // ------------------------------------------------------------------ theorems

  lemma RexRoundTrip(rex: Rex)
    ensures var d := DecodeRex(RexCode(rex));
            d.w == rex.w && d.r == rex.r && d.x == rex.x && d.b == rex.b && IsPresent(d) == IsPresent(rex)
  {
    var b := RexByte(rex);
    assert b / 16 == 4;
  }

  lemma FourBytes(u: int)
    requires 0 <= u < 0x1_0000_0000
    ensures u == u % 256 + 256 * (u / 256 % 256) + 0x1_0000 * (u / 0x1_0000 % 256) + 0x100_0000 * (u / 0x100_0000)
  {
    var (a, b) := (u / 256, u / 0x1_0000);
    assert u == 256 * a + u % 256;
    assert a == 256 * b + a % 256;
    assert b == 256 * (u / 0x100_0000) + b % 256;
  }

  lemma Le32Decodes(v: int, rest: seq<Byte>)
    ensures |Le32(v)| == 4 && Signed32(Le32(v) + rest) == Wrap32(v) == Signed32(Le32(v))
  {
    FourBytes(v % 0x1_0000_0000);
  }

  lemma Wrap32Keeps(v: int)
    ensures IsInt32(v) <==> Wrap32(v) == v
  {
  }

  /** The operand that the bytes for a memory operand decode to. */
  function MemorySeen(rm: Operand): Meaning
  {
    if rm.reg == RIP then Memory(RIP, NONE, 0, Wrap32(rm.v - 4))
    else if rm.reg2 in {NONE, RSP} then Memory(rm.reg, NONE, 0, Wrap32(rm.v))
    else Memory(rm.reg, SeenIndex(rm.reg2), SeenScale(rm.shift, rm.reg2), Wrap32(rm.v))
  }

  /** The index rip is seen as rsi, with another scale. */
  function SeenIndex(index: int): int { if index == NONE then 4 else if index == RIP then 6 else index }

  function SeenScale(shift: nat, index: int): nat { if index == RIP then (shift + 3) % 4 else shift }

  lemma SibFields(shift: nat, index: int, base: nat)
    requires shift < 4 && RIP <= index < 8 && base < 8
    ensures var b := SibByte(shift, index, base);
            b / 64 == SeenScale(shift, index) && b / 8 % 8 == SeenIndex(index) && b % 8 == base
  {
    hide Low8;
    Fields(SeenScale(shift, index), SeenIndex(index), base);
    var u := SeenScale(shift, index) * 64 + SeenIndex(index) * 8 + base;
    LowByte(shift * 64 + (if index == NONE then 4 else index) * 8 + base, u);
  }

  lemma LowByte(v: int, u: int)
    requires 0 <= u < 256 && (v == u || v + 256 == u || v == u + 256)
    ensures Low8(v) == u
  {
  }

  lemma ReducedBits(r: int)
    requires 0 <= r < 16
    ensures 0 <= Reduced(r) < 8 && Reduced(r) + Bit3(Extended(r)) == r
  {
  }

  lemma DispDecodes(v: int, mod: nat, rest: seq<Byte>)
    ensures mod == 0 && v == 0 ==> DecodeDisp(mod, rest) == Some((v, 0)) && v == Wrap32(v)
    ensures mod == 1 && IsInt8(v) ==> DecodeDisp(mod, [Low8(v)] + rest) == Some((Wrap32(v), 1))
    ensures mod == 2 ==> DecodeDisp(mod, Le32(v) + rest) == Some((Wrap32(v), 4))
  {
    hide Le32, Signed32;
    Le32Decodes(v, rest);
    if IsInt8(v) { assert SignExtend8(Low8(v)) == v; }
  }

  lemma MemoryDecodes(reg: nat, rm: Operand, rex: Rex, rest: seq<Byte>)
    requires ValidMemory(rm) && reg < 8
    requires rex.b == Extended(rm.reg) && rex.x == Extended(rm.reg2)
    ensures var code := ModrmCode(reg, Narrow(rm));
            && |code| >= 1 && DecodeRm(rex, false, code + rest) == Some((MemorySeen(rm), |code|))
            && DecodeReg(rex, code + rest) == reg + Bit3(rex.r)
  {
    hide Le32, Signed32, Low8, SignExtend8;
    var op := Narrow(rm);
    var code := ModrmCode(reg, op);
    if op.reg == NONE && op.reg2 == NONE {
      PlainDecodes(reg, rm, rex, rest);
    } else if op.reg == RIP {
      RipDecodes(reg, rm, rex, rest);
    } else if op.reg == NONE {
      IndexDecodes(reg, rm, rex, rest);
    } else {
      BaseDecodes(reg, rm, rex, rest);
    }
  }

  /** The shortest displacement is taken, and a SIB byte only where one is needed. */
  lemma CodeLength(reg: nat, rm: Operand)
    requires reg < 8 && (ValidMemory(rm) || (ValidRegister(rm) && IsDirect(rm)))
    ensures |ModrmCode(reg, Narrow(rm))| ==
              if EA !in rm.types then 1
              else if rm.reg == NONE && rm.reg2 == NONE then 6
              else if rm.reg == RIP then 5
              else 1 + (if rm.reg in {NONE, 4, 12} || rm.reg2 != NONE then 1 else 0) +
                   (if rm.reg == NONE then 4
                    else if rm.v == 0 && rm.reg !in {5, 13} then 0 else if -128 <= rm.v <= 127 then 1 else 4)
  {
    hide Low8;
    Le32Length(rm.v);
    Le32Length(rm.v - 4);
    hide Le32;
  }

  lemma Le32Length(v: int)
    ensures |Le32(v)| == 4
  {
  }

  lemma Fields(a: nat, b: nat, c: nat)
    requires a < 4 && b < 8 && c < 8
    ensures var x := a * 64 + b * 8 + c; x / 64 == a && x / 8 % 8 == b && x % 8 == c
  {
  }

  lemma PlainDecodes(reg: nat, rm: Operand, rex: Rex, rest: seq<Byte>)
    requires ValidMemory(rm) && reg < 8 && rm.reg == NONE && rm.reg2 == NONE
    requires rex.b == Extended(rm.reg) && rex.x == Extended(rm.reg2)
    ensures var code := ModrmCode(reg, Narrow(rm));
            && |code| >= 1 && DecodeRm(rex, false, code + rest) == Some((MemorySeen(rm), |code|))
            && DecodeReg(rex, code + rest) == reg + Bit3(rex.r)
  {
    hide Le32, Signed32, DecodeDisp;
    Le32Length(rm.v);
    DispDecodes(rm.v, 2, rest);
    var all := ModrmCode(reg, Narrow(rm)) + rest;
    assert all[2..] == Le32(rm.v) + rest && all[0] == 0x04 + reg * 8 && all[1] == 0x25;
  }

  lemma RipDecodes(reg: nat, rm: Operand, rex: Rex, rest: seq<Byte>)
    requires ValidMemory(rm) && reg < 8 && rm.reg == RIP
    requires rex.b == Extended(rm.reg) && rex.x == Extended(rm.reg2)
    ensures var code := ModrmCode(reg, Narrow(rm));
            && |code| >= 1 && DecodeRm(rex, false, code + rest) == Some((MemorySeen(rm), |code|))
            && DecodeReg(rex, code + rest) == reg + Bit3(rex.r)
  {
    hide Le32, Signed32, DecodeDisp;
    Le32Length(rm.v - 4);
    DispDecodes(rm.v - 4, 2, rest);
    var all := ModrmCode(reg, Narrow(rm)) + rest;
    assert all[1..] == Le32(rm.v - 4) + rest && all[0] == 0x05 + reg * 8;
  }

  lemma IndexDecodes(reg: nat, rm: Operand, rex: Rex, rest: seq<Byte>)
    requires ValidMemory(rm) && reg < 8 && rm.reg == NONE && rm.reg2 != NONE
    requires rex.b == Extended(rm.reg) && rex.x == Extended(rm.reg2)
    ensures var code := ModrmCode(reg, Narrow(rm));
            && |code| >= 1 && DecodeRm(rex, false, code + rest) == Some((MemorySeen(rm), |code|))
            && DecodeReg(rex, code + rest) == reg + Bit3(rex.r)
  {
    hide Le32, Signed32, DecodeDisp;
    Le32Length(rm.v);
    if rm.reg2 >= 0 { ReducedBits(rm.reg2); }
    DispDecodes(rm.v, 2, rest);
    Fields(0, reg, 4);
    SibFields(rm.shift, Reduced(rm.reg2), 5);
    hide SibByte;
    var all := ModrmCode(reg, Narrow(rm)) + rest;
    assert all[2..] == Le32(rm.v) + rest && all[0] == 0x04 + reg * 8
             && all[1] == SibByte(rm.shift, Reduced(rm.reg2), 5);
    assert |ModrmCode(reg, Narrow(rm))| == 6;
    hide ModrmCode, Narrow, Wrap32, Reduced;
  }

  /** The mod field for an operand with a base, and the bytes of its displacement. */
  function ModOf(op: Operand): nat { if op.v == 0 && op.reg != 5 then 0 else if IsInt8(op.v) then 1 else 2 }

  function DispOf(op: Operand): seq<Byte>
  {
    if ModOf(op) == 0 then [] else if ModOf(op) == 1 then [Low8(op.v)] else Le32(op.v)
  }

  function SibOf(op: Operand): seq<Byte>
    requires 0 <= op.reg < 8 && RIP <= op.reg2 < 8 && op.shift < 4
  {
    if op.reg2 == NONE && op.reg != 4 then [] else [SibByte(op.shift, op.reg2, op.reg)]
  }

  lemma BaseCode(reg: nat, op: Operand)
    requires reg < 8 && 0 <= op.reg < 8 && RIP <= op.reg2 < 8 && op.shift < 4 && !IsDirect(op)
    ensures ModrmCode(reg, op) ==
              [ModOf(op) * 64 + reg * 8 + if op.reg2 == NONE then op.reg else 4] + SibOf(op) + DispOf(op)
  {
    hide Le32, Low8;
  }

  lemma BaseDecodes(reg: nat, rm: Operand, rex: Rex, rest: seq<Byte>)
    requires ValidMemory(rm) && reg < 8 && rm.reg >= 0
    requires rex.b == Extended(rm.reg) && rex.x == Extended(rm.reg2)
    ensures var code := ModrmCode(reg, Narrow(rm));
            && |code| >= 1 && DecodeRm(rex, false, code + rest) == Some((MemorySeen(rm), |code|))
            && DecodeReg(rex, code + rest) == reg + Bit3(rex.r)
  {
    var op := Narrow(rm);
    ReducedBits(rm.reg);
    if rm.reg2 >= 0 { ReducedBits(rm.reg2); }
    BaseCode(reg, op);
    DispLength(op);
    DispDecodes(rm.v, ModOf(op), rest);
    var all := ModrmCode(reg, op) + rest;
    if rm.reg2 == NONE && op.reg != 4 {
      ShortDecodes(reg, rm, rex, rest, all);
    } else {
      SibDecodes(reg, rm, rex, rest, all);
    }
  }

  lemma DispLength(op: Operand)
    ensures |DispOf(op)| == if ModOf(op) == 0 then 0 else if ModOf(op) == 1 then 1 else 4
  {
  }

  lemma ShortDecodes(reg: nat, rm: Operand, rex: Rex, rest: seq<Byte>, all: seq<Byte>)
    requires ValidMemory(rm) && reg < 8 && rm.reg >= 0 && rm.reg2 == NONE && Reduced(rm.reg) != 4
    requires rex.b == Extended(rm.reg) && rex.x == Extended(rm.reg2)
    requires var op := Narrow(rm);
             all == [ModOf(op) * 64 + reg * 8 + op.reg] + DispOf(op) + rest
             && DecodeDisp(ModOf(op), DispOf(op) + rest) == Some((Wrap32(rm.v), |DispOf(op)|))
    ensures DecodeRm(rex, false, all) == Some((MemorySeen(rm), 1 + |DispOf(Narrow(rm))|))
    ensures DecodeReg(rex, all) == reg + Bit3(rex.r)
  {
    hide DecodeDisp, Le32, Signed32, DispOf, Low8, Wrap32, ModrmCode;
    var op := Narrow(rm);
    ReducedBits(rm.reg);
    Fields(ModOf(op), reg, op.reg);
    assert all[1..] == DispOf(op) + rest;
    assert all[0] == ModOf(op) * 64 + reg * 8 + op.reg;
    assert ModOf(op) < 3 && (ModOf(op) == 0 ==> op.reg != 5);
    hide ModOf, Reduced, Narrow;
  }

  lemma SibDecodes(reg: nat, rm: Operand, rex: Rex, rest: seq<Byte>, all: seq<Byte>)
    requires ValidMemory(rm) && reg < 8 && rm.reg >= 0 && (rm.reg2 != NONE || Reduced(rm.reg) == 4)
    requires rex.b == Extended(rm.reg) && rex.x == Extended(rm.reg2)
    requires var op := Narrow(rm);
             && RIP <= op.reg2 < 8 && 0 <= op.reg < 8
             && all == [ModOf(op) * 64 + reg * 8 + 4] + SibOf(op) + DispOf(op) + rest
             && DecodeDisp(ModOf(op), DispOf(op) + rest) == Some((Wrap32(rm.v), |DispOf(op)|))
    ensures DecodeRm(rex, false, all) == Some((MemorySeen(rm), 2 + |DispOf(Narrow(rm))|))
    ensures DecodeReg(rex, all) == reg + Bit3(rex.r)
  {
    var op := Narrow(rm);
    ReducedBits(rm.reg);
    if rm.reg2 >= 0 { ReducedBits(rm.reg2); }
    Fields(ModOf(op), reg, 4);
    SibFields(op.shift, op.reg2, op.reg);
    hide SibByte;
    assert |SibOf(op)| == 1 && all[1] == SibOf(op)[0];
    assert all[2..] == DispOf(op) + rest;
    assert ModOf(op) == 0 ==> op.reg != 5;
    hide DecodeDisp, Le32, Signed32, DispOf, ModOf;
  }

  lemma RegisterDecodes(reg: nat, rm: Operand, rex: Rex, rest: seq<Byte>)
    requires ValidRegister(rm) && IsDirect(rm) && reg < 8 && rex.b == Extended(rm.reg)
    ensures var code := ModrmCode(reg, Narrow(rm));
            && |code| == 1 && DecodeReg(rex, code + rest) == reg + Bit3(rex.r)
            && DecodeRm(rex, REG8 in rm.types, code + rest) ==
                 Some((DecodeRegister(rm.reg, REG8 in rm.types, IsPresent(rex)), 1))
  {
    ReducedBits(rm.reg);
    Fields(3, reg, Reduced(rm.reg));
    var all := ModrmCode(reg, Narrow(rm)) + rest;
    assert all[0] == 3 * 64 + reg * 8 + Reduced(rm.reg);
  }

  /** A register operand names the same register with or without a prefix, unless it is a byte
      register that a prefix changes. */
  lemma NamesSame(op: Operand, prefixed: bool)
    requires ValidRegister(op) && (NeedsPlainRex(op) ==> prefixed)
    ensures DecodeRegister(op.reg, REG8 in op.types, prefixed) == RegisterMeant(op) <==> !(prefixed && IsHighByte(op))
  {
  }

  lemma DirectTypes(op: Operand)
    ensures IsDirect(op) <==> op.types * {REG8, REG16, REG32, REG64, MMX, SSE} != {}
  {
    var all := {REG8, REG16, REG32, REG64, MMX, SSE};
    if op.types * all != {} {
      var t :| t in op.types * all;
      assert t in op.types * {REG8, REG16, REG32, REG64} || t in op.types * {MMX, SSE};
    }
    if op.types * {REG8, REG16, REG32, REG64} != {} {
      var t :| t in op.types * {REG8, REG16, REG32, REG64};
      assert t in op.types * all;
    }
    if op.types * {MMX, SSE} != {} {
      var t :| t in op.types * {MMX, SSE};
      assert t in op.types * all;
    }
  }

  /** The memory operands that can be encoded. */
  predicate Encodable(rm: Operand)
  {
    rm.reg != RIP && rm.reg2 != RSP && rm.reg2 != RIP && IsInt32(rm.v)
  }

  /** What asm_rex objects to. */
  predicate Clashes(width64: bool, reg: Option<Operand>, rm: Operand)
  {
    IsPresent(RexFor(width64, reg, rm)) && ((reg.Some? && IsHighByte(reg.value)) || IsHighByte(rm))
  }

  predicate ValidPair(reg: Operand, rm: Operand)
  {
    && ValidRegister(reg)
    && ((ValidRegister(rm) && rm.types * {REG8, REG16, REG32, REG64, MMX, SSE} != {}) || ValidMemory(rm))
  }

  /** Main result: the prefix has the operand size wanted, and the bytes for a register and a register
      or memory operand decode to the same operands, in full, exactly if no high byte register meets a
      prefix (which is refused), the base is not rip, the index is not rsp or rip and the displacement fits. */
  lemma RoundTripIff(width64: bool, reg: Operand, rm: Operand, rest: seq<Byte>)
    requires ValidPair(reg, rm)
    ensures var code := ModrmCode(Reduced(reg.reg), Narrow(rm));
            var rex := DecodeRex(RexCode(RexFor(width64, Some(reg), rm)));
            && rex.w == width64
            && |code| >= 1
            && DecodeRm(rex, REG8 in rm.types, code + rest).Some?
            && DecodeRm(rex, REG8 in rm.types, code + rest).value.1 == |code|
            && ((DecodeRm(rex, REG8 in rm.types, code + rest).value.0 ==
                 (if EA in rm.types then MemoryMeant(rm) else RegisterMeant(rm))
                 && DecodeRegister(DecodeReg(rex, code + rest), REG8 in reg.types, IsPresent(rex)) ==
                      RegisterMeant(reg))
                <==> !Clashes(width64, Some(reg), rm) && (EA in rm.types ==> Encodable(rm)))
  {
    assert EA !in rm.types ==> IsDirect(rm) by { DirectTypes(rm); }
    hide ModrmCode, DecodeRm, DecodeReg, DecodeRex, RexCode, Wrap32, DecodeRegister, IsDirect;
    var wanted := RexFor(width64, Some(reg), rm);
    var rex := DecodeRex(RexCode(wanted));
    RexRoundTrip(wanted);
    ReducedBits(reg.reg);
    NamesSame(reg, IsPresent(rex));
    if EA in rm.types {
      MemoryDecodes(Reduced(reg.reg), rm, rex, rest);
      SeenIsMeant(rm);
    } else {
      RegisterDecodes(Reduced(reg.reg), rm, rex, rest);
      NamesSame(rm, IsPresent(rex));
    }
  }

  lemma SeenIsMeant(rm: Operand)
    requires ValidMemory(rm)
    ensures MemorySeen(rm) == MemoryMeant(rm) <==> Encodable(rm)
  {
    Wrap32Keeps(rm.v);
  }

  // ------------------------------------------------ the prefix, bit by bit

  /** One byte with the bits W down to B, or none if nothing asks for it. */
  predicate IsPrefix(code: seq<Byte>, w: bool, r: bool, x: bool, b: bool, other: bool)
  {
    if w || r || x || b || other then
      && |code| == 1 && code[0] / 16 == 4
      && (code[0] / 8 % 2 == 1 <==> w) && (code[0] / 4 % 2 == 1 <==> r)
      && (code[0] / 2 % 2 == 1 <==> x) && (code[0] % 2 == 1 <==> b)
    else code == []
  }

  /** What is added for an operand in the reg field, one in the r/m field or in the opcode and an
      index: W is the operand size, the other bits are those of the registers from r8 on, spl to
      dil ask for the byte, and ah to bh cannot stand it. */
  predicate Prefixed(width64: bool, reg: Option<Operand>, rm: Option<Operand>, index: int,
                     added: seq<Byte>, failed: bool)
  {
    var (r, x, b) := (reg.Some? && reg.value.reg >= 8, index >= 8, rm.Some? && rm.value.reg >= 8);
    var low := (reg.Some? && reg.value.reg < 8 && REG8_LOW in reg.value.types)
               || (rm.Some? && rm.value.reg < 8 && REG8_LOW in rm.value.types);
    var high :=
      (reg.Some? && REG8 in reg.value.types && REG8_LOW !in reg.value.types && reg.value.reg in {4, 5, 6, 7})
      || (rm.Some? && REG8 in rm.value.types && REG8_LOW !in rm.value.types && rm.value.reg in {4, 5, 6, 7});
    && (failed <==> high && (width64 || r || x || b || low))
    && (if failed then added == [] else IsPrefix(added, width64, r, x, b, low))
  }

  lemma PrefixBits(rex: Rex)
    ensures IsPrefix(RexCode(rex), rex.w, rex.r, rex.x, rex.b, rex.plain)
  {
    RexRoundTrip(rex);
  }

  /** The operands of a ModRM byte get the prefix that they need. */
  lemma PrefixOfPair(width64: bool, reg: Option<Operand>, rm: Operand)
    ensures var failed := Clashes(width64, reg, rm);
            Prefixed(width64, reg, Some(rm), if EA in rm.types then rm.reg2 else NONE,
                     if failed then [] else RexCode(RexFor(width64, reg, rm)), failed)
  {
    hide RexCode, IsPrefix;
    PrefixBits(RexFor(width64, reg, rm));
  }

  // ---------------------------------------------------- operands that fail

  /** The operand that the encoder's bytes are decoded to. */
  function Seen(rm: Operand): Option<Meaning>
    requires ValidMemory(rm)
  {
    var code := ModrmCode(0, Narrow(rm));
    var rex := RexFor(false, None, rm);
    if code == [] then None else
      var d := DecodeRm(rex, false, code);
      if d.None? then None else Some(d.value.0)
  }

  lemma SeenIs(rm: Operand)
    requires ValidMemory(rm)
    ensures Seen(rm) == Some(MemorySeen(rm))
  {
    hide ModrmCode, DecodeRm, DecodeReg, Wrap32;
    MemoryDecodes(0, rm, RexFor(false, None, rm), []);
    assert ModrmCode(0, Narrow(rm)) + [] == ModrmCode(0, Narrow(rm));
  }

  /** 8(%rip) is read as 4(%rip). */
  lemma RipBaseCounterexample()
    ensures Seen(Operand({EA}, RIP, NONE, 0, 8)) == Some(Memory(RIP, NONE, 0, 4))
  {
    SeenIs(Operand({EA}, RIP, NONE, 0, 8));
  }

  /** (%rax,%rsp,2) is read as (%rax). */
  lemma RspIndexCounterexample()
    ensures Seen(Operand({EA}, 0, RSP, 1, 0)) == Some(Memory(0, NONE, 0, 0))
  {
    SeenIs(Operand({EA}, 0, RSP, 1, 0));
  }

  /** (%rax,%rip,2) is read as (%rax,%rsi), and (%rax,%rip) as (%rax,%rsi,8). */
  lemma RipIndexCounterexample()
    ensures Seen(Operand({EA}, 0, RIP, 1, 0)) == Some(Memory(0, 6, 0, 0))
    ensures Seen(Operand({EA}, 0, RIP, 0, 0)) == Some(Memory(0, 6, 3, 0))
  {
    SeenIs(Operand({EA}, 0, RIP, 1, 0));
    SeenIs(Operand({EA}, 0, RIP, 0, 0));
  }

  /** A displacement of 2^31 is read as -2^31. */
  lemma WideDisplacementCounterexample()
    ensures Seen(Operand({EA}, 0, NONE, 0, 0x8000_0000)) == Some(Memory(0, NONE, 0, -0x8000_0000))
  {
    SeenIs(Operand({EA}, 0, NONE, 0, 0x8000_0000));
  }

  // ------------------------------------------------------------- the generator

  class Assembler {
    var ops: seq<Operand>
    var code: seq<Byte>

    constructor (ops: seq<Operand>)
      ensures this.ops == ops && code == []
    {
      this.ops, code := ops, [];
    }

    /** Takes bit 3 out of the registers of the operands, in place, and emits the prefix. */
    method AsmRex(width64: bool, opTypes: seq<set<OpType>>, regi: int, rmi: int) returns (failed: bool)
      requires |opTypes| == |ops| && -1 <= regi < |ops| && -1 <= rmi < |ops| && (regi != -1 ==> regi != rmi)
      requires regi != -1 && rmi != -1 ==> ValidRegister(ops[regi])
      requires rmi != -1 ==> (ValidRegister(ops[rmi]) && IsDirect(ops[rmi])) || ValidMemory(ops[rmi])
      modifies `ops, `code
      ensures rmi != -1 ==>
                var (was, reg) := (old(ops), if regi == -1 then None else Some(old(ops)[regi]));
                && failed == Clashes(width64, reg, was[rmi])
                && ops == (if regi == -1 then was
                     else was[regi := was[regi].(reg := Reduced(was[regi].reg))])[rmi := Narrow(was[rmi])]
                && code == old(code) + (if failed then [] else RexCode(RexFor(width64, reg, was[rmi])))
                && Prefixed(width64, reg, Some(was[rmi]), if EA in was[rmi].types then was[rmi].reg2 else NONE,
                            code[|old(code)|..], failed)
      ensures rmi == -1 ==>
                var (was, i) := (old(ops), FirstRegister(opTypes));
                && failed == (i < |was| && IsHighByte(was[i]) && IsPresent(OpcodeRex(width64, was, i)))
                && ops == (if i < |was| then was[i := was[i].(reg := Reduced(was[i].reg))] else was)
                && code == old(code) + (if failed then [] else RexCode(OpcodeRex(width64, was, i)))
                && Prefixed(width64, None, if i < |was| then Some(was[i]) else None, NONE,
                            code[|old(code)|..], failed)
    {
      hide RexByte, IsDirect, IsHighByte, NeedsPlainRex, Prefixed;
      ghost var was := ops;
      if rmi == -1 {
        PrefixOfOpcode(width64, was, FirstRegister(opTypes));
      } else {
        PrefixOfPair(width64, if regi == -1 then None else Some(was[regi]), was[rmi]);
      }
      var rex, high := Rex(width64, false, false, false, false), false;
      if rmi == -1 {
        var i := FirstRegister(opTypes);
        if i < |ops| {
          var b, plain;
          b, plain, high := TakeBit3(i);
          rex := rex.(b := b, plain := plain);
        }
      } else {
        if regi != -1 {
          var r, plain;
          r, plain, high := TakeBit3(regi);
          rex := rex.(r := r, plain := plain);
        }
        var b, plain, highRm := TakeBit3(rmi);    // it is direct or a memory operand
        rex, high := rex.(b := b, plain := rex.plain || plain), high || highRm;
        if EA in ops[rmi].types && ops[rmi].reg2 >= 8 {
          rex := rex.(x := true);
          ops := ops[rmi := ops[rmi].(reg2 := ops[rmi].reg2 - 8)];
        }
      }
      if IsPresent(rex) {
        if high { return true; }
        code := code + [RexByte(rex)];
      }
      failed := false;
    }

    /** Of one operand: bit 3 of its register, whether it needs a prefix all the same, and
        whether it cannot stand one. */
    method TakeBit3(i: nat) returns (extended: bool, plain: bool, high: bool)
      requires i < |ops|
      modifies `ops
      ensures ops == old(ops)[i := old(ops)[i].(reg := Reduced(old(ops)[i].reg))]
      ensures extended == Extended(old(ops)[i].reg) && plain == NeedsPlainRex(old(ops)[i])
      ensures high == IsHighByte(old(ops)[i])
    {
      extended, plain, high := false, false, false;
      if ops[i].reg >= 8 {
        extended := true;
        ops := ops[i := ops[i].(reg := ops[i].reg - 8)];
      } else if REG8_LOW in ops[i].types {
        plain := true;
      } else if REG8 in ops[i].types && ops[i].reg >= 4 {
        high := true;
      }
    }

    /** The ModRM byte and what follows it. */
    method AsmModrm(reg: nat, op: Operand)
      requires reg < 8 && op.reg < 8
      requires if IsDirect(op) then 0 <= op.reg else RIP <= op.reg && RIP <= op.reg2 < 8 && op.shift < 4
      modifies `code
      ensures code == old(code) + ModrmCode(reg, op)
    {
      hide Le32, Low8;
      if IsDirect(op) {
        code := code + [0xc0 + reg * 8 + op.reg];
      } else if op.reg == NONE && op.reg2 == NONE {
        code := code + ([0x04 + reg * 8, 0x25] + Le32(op.v));
      } else if op.reg == RIP {
        code := code + ([0x05 + reg * 8] + Le32(op.v - 4));
      } else {
        var base, mod := op.reg, 0x80;
        if base == NONE {
          base, mod := 5, 0x00;
        } else if op.v == 0 && op.reg != 5 {
          mod := 0x00;
        } else if IsInt8(op.v) {
          mod := 0x40;
        }
        var reg1 := op.reg;
        if op.reg2 != NONE { reg1 := 4; }
        var sib, disp: seq<Byte> := [], [];
        if reg1 == 4 {
          var reg2 := op.reg2;
          if reg2 == NONE { reg2 := 4; }
          sib := [Low8(op.shift * 64 + reg2 * 8 + base)];
        }
        if mod == 0x40 {
          disp := [Low8(op.v)];
        } else if mod == 0x80 || op.reg == NONE {
          disp := Le32(op.v);
        }
        code := code + ([mod + reg * 8 + reg1] + sib + disp);
      }
    }
  }

  /** The operand whose register goes into the opcode, if there is no ModRM byte. */
  function FirstRegister(opTypes: seq<set<OpType>>): (i: nat)
    ensures i <= |opTypes|
    ensures i < |opTypes| ==> opTypes[i] * {REG8, REG16, REG32, REG64, ST} != {}
    ensures forall j :: 0 <= j < i ==> opTypes[j] * {REG8, REG16, REG32, REG64, ST} == {}
  {
    if opTypes == [] || opTypes[0] * {REG8, REG16, REG32, REG64, ST} != {} then 0 else 1 + FirstRegister(opTypes[1..])
  }

  function OpcodeRex(width64: bool, ops: seq<Operand>, i: nat): Rex
  {
    Rex(width64, false, false, i < |ops| && Extended(ops[i].reg), i < |ops| && NeedsPlainRex(ops[i]))
  }

  /** A register in the opcode gets the prefix that it needs. */
  lemma PrefixOfOpcode(width64: bool, ops: seq<Operand>, i: nat)
    ensures var failed := i < |ops| && IsHighByte(ops[i]) && IsPresent(OpcodeRex(width64, ops, i));
            Prefixed(width64, None, if i < |ops| then Some(ops[i]) else None, NONE,
                     if failed then [] else RexCode(OpcodeRex(width64, ops, i)), failed)
  {
    hide RexCode, IsPrefix;
    PrefixBits(OpcodeRex(width64, ops, i));
  }

  /** The low bits of the register in the opcode and the prefix name the register again. */
  lemma OpcodeRegisterIff(width64: bool, op: Operand)
    requires ValidRegister(op) && IsGeneral(op)
    ensures var rex := DecodeRex(RexCode(OpcodeRex(width64, [op], 0)));
            && rex.w == width64 && 0 <= Reduced(op.reg) < 8
            && (DecodeRegister(Reduced(op.reg) + Bit3(rex.b), REG8 in op.types, IsPresent(rex)) == RegisterMeant(op)
                <==> !(IsHighByte(op) && IsPresent(OpcodeRex(width64, [op], 0))))
  {
    hide DecodeRex, RexCode;
    RexRoundTrip(OpcodeRex(width64, [op], 0));
    ReducedBits(op.reg);
    NamesSame(op, IsPresent(OpcodeRex(width64, [op], 0)));
  }
}
