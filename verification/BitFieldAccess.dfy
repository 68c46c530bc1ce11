/** Reading and writing bit-fields in memory: byte by byte, by a word with mask and shift, and
    by the writer for static initializers. */
module BitFieldAccess {
  import opened Basics
  import opened IntegerBits
  import opened BitLemmas

  // ------------------------------------------------------ memory, bit by bit

  /** Bit k of the memory, counting from the low bit of byte 0. */
  predicate MemBit(m: seq<Byte>, k: int)
  {
    0 <= k < 8 * |m| && Bit(m[k / 8], k % 8)
  }

  /** The memory `now` is `was` with bits [at, at + size) replaced by the low bits of x. */
  ghost predicate Writes(was: seq<Byte>, now: seq<Byte>, at: nat, size: nat, x: int)
  {
    && |now| == |was|
    && forall k: nat :: k < 8 * |was| ==>
         MemBit(now, k) == if at <= k < at + size then Bit(x, k - at) else MemBit(was, k)
  }

  /** Bit i of the value of the field at [at, at + size): its own bits, then its sign. */
  predicate FieldBit(m: seq<Byte>, at: nat, size: nat, signed: bool, i: nat)
  {
    if i < size then MemBit(m, at + i) else signed && 0 < size && MemBit(m, at + size - 1)
  }

  /** v is the value of the field, sign- or zero-extended. */
  ghost predicate Reads(m: seq<Byte>, at: nat, size: nat, signed: bool, v: int)
  {
    forall i: nat :: Bit(v, i) == FieldBit(m, at, size, signed, i)
  }

  /** What a field of `size` bits makes of a value. */
  function Reduced(x: int, size: nat, signed: bool): int
  {
    var u := x % Pow2(size);
    if signed && 0 < size then Signed(u, size) else u
  }

  // ------------------------------------------- there is one right answer

  lemma BytesDetermine(x: Byte, y: Byte)
    requires forall i: nat :: i < 8 ==> Bit(x, i) == Bit(y, i)
    ensures x == y
  {
    assert Pow2(8) == 256;
    forall i: nat ensures Bit(x, i) == Bit(y, i) {
      BitMod(x, 8, i);
      BitMod(y, 8, i);
    }
    BitsDetermine(x, y);
  }

  /** Main result: any two writers that do what `Writes` says leave the same memory, if the
      values they write agree in the low bits. */
  lemma WritesDetermine(was: seq<Byte>, now1: seq<Byte>, now2: seq<Byte>, at: nat, size: nat, x: int, y: int)
    requires Writes(was, now1, at, size, x) && Writes(was, now2, at, size, y)
    requires x % Pow2(size) == y % Pow2(size)
    ensures now1 == now2
  {
    hide Bit, MemBit;
    forall j | 0 <= j < |was| ensures now1[j] == now2[j] {
      forall i: nat | i < 8 ensures Bit(now1[j], i) == Bit(now2[j], i) {
        var k := j * 8 + i;
        BitInByte(now1, j, i);
        BitInByte(now2, j, i);
        if at <= k < at + size {
          BitMod(x, size, k - at);
          BitMod(y, size, k - at);
        }
      }
      BytesDetermine(now1[j], now2[j]);
    }
  }

  /** Main result: any two readers that do what `Reads` says give the same value. */
  lemma ReadsDetermine(m: seq<Byte>, at: nat, size: nat, signed: bool, v1: int, v2: int)
    requires Reads(m, at, size, signed, v1) && Reads(m, at, size, signed, v2)
    ensures v1 == v2
  {
    forall i: nat ensures Bit(v1, i) == Bit(v2, i) {
      assert Bit(v1, i) == FieldBit(m, at, size, signed, i);
    }
    BitsDetermine(v1, v2);
  }

  /** Main result: what is read after a write is the written value reduced to the width of the
      field. */
  lemma ReadAfterWrite(was: seq<Byte>, now: seq<Byte>, at: nat, size: nat, x: int, signed: bool, v: int)
    requires Writes(was, now, at, size, x) && at + size <= 8 * |was|
    requires Reads(now, at, size, signed, v)
    ensures v == Reduced(x, size, signed)
  {
    var u := x % Pow2(size);
    forall i: nat ensures Bit(v, i) == Bit(Reduced(x, size, signed), i) {
      BitMod(x, size, i);
      if signed && 0 < size {
        BitSigned(u, size, i);
        BitMod(x, size, size - 1);
      }
      assert Bit(v, i) == FieldBit(now, at, size, signed, i);
      if i < size {
        assert MemBit(now, at + i) == Bit(x, i);
      } else if 0 < size {
        assert MemBit(now, at + size - 1) == Bit(x, size - 1);
      }
    }
    BitsDetermine(v, Reduced(x, size, signed));
  }

  /** A write does not show in any field that does not overlap it. */
  lemma OtherFieldsKept(was: seq<Byte>, now: seq<Byte>, at: nat, size: nat, x: int,
                        at2: nat, size2: nat, signed: bool, v: int)
    requires Writes(was, now, at, size, x) && at2 + size2 <= 8 * |was|
    requires at2 + size2 <= at || at + size <= at2
    requires Reads(was, at2, size2, signed, v)
    ensures Reads(now, at2, size2, signed, v)
  {
    forall i: nat ensures Bit(v, i) == FieldBit(now, at2, size2, signed, i) {
      assert Bit(v, i) == FieldBit(was, at2, size2, signed, i);
      if i < size2 {
        assert MemBit(now, at2 + i) == MemBit(was, at2 + i);
      } else if 0 < size2 {
        assert MemBit(now, at2 + size2 - 1) == MemBit(was, at2 + size2 - 1);
      }
    }
  }

  // ----------------------------------------------------------- machine words

  /** Arithmetic on words of w bits, kept as unsigned patterns. */
  function Wrap(x: int, w: nat): (u: int)
    ensures 0 <= u < Pow2(w)
  {
    x % Pow2(w)
  }

  function Shl(u: int, n: nat, w: nat): (r: int)
    ensures 0 <= r < Pow2(w)
  {
    Wrap(u * Pow2(n), w)
  }

  function Shr(u: int, n: nat): int { u / Pow2(n) }

  function Sar(u: int, n: nat, w: nat): int
    requires 0 < w
  {
    Wrap(Signed(u, w) / Pow2(n), w)
  }

  lemma BitWordShl(u: int, n: nat, w: nat, i: nat)
    ensures Bit(Shl(u, n, w), i) == (n <= i < w && Bit(u, i - n))
  {
    BitMod(u * Pow2(n), w, i);
    BitShl(u, n, i);
  }

  lemma BitWordShr(u: int, n: nat, i: nat)
    ensures Bit(Shr(u, n), i) == Bit(u, i + n)
  {
    BitShr(u, n, i);
  }

  lemma BitWordSar(u: int, n: nat, w: nat, i: nat)
    requires 0 < w && 0 <= u < Pow2(w)
    ensures Bit(Sar(u, n, w), i) == (i < w && Bit(u, if i + n < w then i + n else w - 1))
  {
    BitMod(Signed(u, w) / Pow2(n), w, i);
    BitShr(Signed(u, w), n, i);
    BitSigned(u, w, i + n);
  }

  /** The mask of n ones shifted up by k. */
  function Mask(n: nat, k: nat): int { (Pow2(n) - 1) * Pow2(k) }

  lemma BitMask(n: nat, k: nat, i: nat)
    ensures Bit(Mask(n, k), i) == (k <= i < k + n)
  {
    BitShl(Pow2(n) - 1, k, i);
    if k <= i { BitOnes(n, i - k); }
  }

  // --------------------------------------------- one byte of a byte-wise write

  /** The byte-wise writer's new byte: n bits of v, which are in place already, over the byte. */
  ghost predicate BytePatched(b: Byte, b': int, n: nat, bitPos: nat, x: int, bits: nat)
  {
    0 <= b' < 256 && forall i: nat :: i < 8 ==>
      Bit(b', i) == if bitPos <= i < bitPos + n then Bit(x, i - bitPos + bits) else Bit(b, i)
  }

  /** Patching the byte that holds bits [at + bits, at + bits + n) extends a write by n bits. */
  lemma ByteStep(was: seq<Byte>, now: seq<Byte>, at: nat, bits: nat, n: nat, x: int, j: nat, bitPos: nat, b': Byte)
    requires Writes(was, now, at, bits, x) && j < |was| && at + bits == 8 * j + bitPos && bitPos + n <= 8
    requires BytePatched(now[j], b', n, bitPos, x, bits)
    ensures Writes(was, now[j := b'], at, bits + n, x)
  {
    var next := now[j := b'];
    forall k: nat | k < 8 * |was|
      ensures MemBit(next, k) == if at <= k < at + bits + n then Bit(x, k - at) else MemBit(was, k)
    {
      assert MemBit(now, k) == if at <= k < at + bits then Bit(x, k - at) else MemBit(was, k);
      if k / 8 == j {
        assert Bit(b', k % 8) == if bitPos <= k % 8 < bitPos + n then Bit(x, k % 8 - bitPos + bits)
                 else Bit(now[j], k % 8);
      }
    }
  }

  /** The static-initializer writer: (*p & ~m) | (v & m) on bytes, v being the 64-bit constant
      shifted right and left and cut to a byte. */
  lemma InitByte(b: Byte, c: int, bits: nat, bitPos: nat, n: nat)
    requires 0 <= c < Pow2(64) && bitPos + n <= 8
    ensures var v := Shl(Shr(c, bits), bitPos, 64) % 256;
            BytePatched(b, Or(And(b, Not(Mask(n, bitPos))), And(v, Mask(n, bitPos))), n, bitPos, c, bits)
  {
    hide Bit, And, Or, Not, Mask, Shl, Shr;
    var m, v := Mask(n, bitPos), Shl(Shr(c, bits), bitPos, 64) % 256;
    var r := Or(And(b, Not(m)), And(v, m));
    forall i: nat
      ensures Bit(r, i) == (i < 8 && if bitPos <= i < bitPos + n then Bit(c, i - bitPos + bits) else Bit(b, i))
    {
      BitOr(And(b, Not(m)), And(v, m), i);
      BitAnd(b, Not(m), i);
      BitNot(m, i);
      BitAnd(v, m, i);
      BitMask(n, bitPos, i);
      assert Pow2(8) == 256;
      BitMod(Shl(Shr(c, bits), bitPos, 64), 8, i);
      BitWordShl(Shr(c, bits), bitPos, 64, i);
      if bitPos <= i { BitWordShr(c, bits, i - bitPos); }
      BitMod(b, 8, i);
    }
    IsByte(r);
  }

  /** An integer without bits from the eighth on is a byte. */
  lemma IsByte(r: int)
    requires forall i: nat :: 8 <= i ==> !Bit(r, i)
    ensures 0 <= r < 256
  {
    assert Pow2(8) == 256;
    forall i: nat ensures Bit(r, i) == Bit(r % 256, i) {
      BitMod(r, 8, i);
    }
    BitsDetermine(r, r % 256);
  }

  method InitWrite(m: array<Byte>, ptr: nat, bitPos: nat, bitSize: nat, c: int)
    requires 0 <= c < Pow2(64) && ptr * 8 + bitPos + bitSize <= 8 * m.Length
    modifies m
    ensures Writes(old(m[..]), m[..], ptr * 8 + bitPos, bitSize, c)
  {
    hide Bit, And, Or, Shl, Shr, Mask;
    ghost var at := ptr * 8 + bitPos;
    var p: nat, pos: nat, bits: nat, left: nat := ptr + bitPos / 8, bitPos % 8, 0, bitSize;
    assert m[..] == old(m[..]);
    while left != 0
      invariant bits + left == bitSize && pos < 8
      invariant left != 0 ==> at + bits == 8 * p + pos
      invariant Writes(old(m[..]), m[..], at, bits, c)
    {
      var n := if 8 - pos > left then left else 8 - pos;
      var v := Shl(Shr(c, bits), pos, 64) % 256;
      var mask := Mask(n, pos);
      InitByte(m[p], c, bits, pos, n);
      ByteStep(old(m[..]), m[..], at, bits, n, c, p, pos, Or(And(m[p], Not(mask)), And(v, mask)));
      ghost var before := m[..];
      m[p] := Or(And(m[p], Not(mask)), And(v, mask));
      assert m[..] == before[p := m[p]];
      bits, left, pos, p := bits + n, left - n, 0, p + 1;
    }
  }

  // ---------------------------------------------------------- byte-wise write

  /** What the generated right shift makes of a value.  Applied to a constant by the folder it
      copies the sign of a 32-bit value downward; as an instruction it fills with zeros. */
  function ShiftDown(u: int, bits: nat, w: nat, folded: bool): int
    requires 0 < w
  {
    if folded && w == 32 then Sar(u, bits, w) else Shr(u, bits)
  }

  lemma BitShiftDown(u: int, bits: nat, w: nat, folded: bool, i: nat)
    requires 0 < w && 0 <= u < Pow2(w) && i + bits < w
    ensures Bit(ShiftDown(u, bits, w, folded), i) == Bit(u, i + bits)
  {
    BitWordSar(u, bits, w, i);
    BitWordShr(u, bits, i);
  }

  /** The mask that clears the field's bits of a byte: a mask that reaches bit 7 is inverted
      within seven bits. */
  function KeepMask(m: int): int { if Bit(m, 7) then And(Not(m), 0x7f) else Not(m) }

  lemma BitKeepMask(n: nat, k: nat, i: nat)
    requires k + n <= 8 && i < 8
    ensures Bit(KeepMask(Mask(n, k)), i) == !(k <= i < k + n)
  {
    hide Bit, And, Not, Mask;
    BitMask(n, k, 7);
    BitMask(n, k, i);
    BitNot(Mask(n, k), i);
    BitAnd(Not(Mask(n, k)), 0x7f, i);
    assert Pow2(7) - 1 == 0x7f;
    BitOnes(7, i);
  }

  /** The byte the generated code stores. */
  function PackedByte(b: Byte, u: int, bits: nat, bitPos: nat, n: nat, w: nat, folded: bool): int
    requires 0 < w
  {
    var v := Shl(ShiftDown(u, bits, w, folded), bitPos, w);
    (if n < 8 then Or(And(v, Mask(n, bitPos)), And(b, KeepMask(Mask(n, bitPos)))) else v) % 256
  }

  lemma PackedByteOk(b: Byte, u: int, bits: nat, bitPos: nat, n: nat, w: nat, folded: bool)
    requires 8 <= w && 0 <= u < Pow2(w) && bitPos + n <= 8 && bits + n <= w
    ensures BytePatched(b, PackedByte(b, u, bits, bitPos, n, w, folded), n, bitPos, u, bits)
  {
    hide Bit, And, Or, Mask, KeepMask, Shl, ShiftDown;
    var v := Shl(ShiftDown(u, bits, w, folded), bitPos, w);
    var r := if n < 8 then Or(And(v, Mask(n, bitPos)), And(b, KeepMask(Mask(n, bitPos)))) else v;
    forall i: nat | i < 8
      ensures Bit(r % 256, i) == if bitPos <= i < bitPos + n then Bit(u, i - bitPos + bits) else Bit(b, i)
    {
      BitLow(r, i);
      BitOr(And(v, Mask(n, bitPos)), And(b, KeepMask(Mask(n, bitPos))), i);
      BitAnd(v, Mask(n, bitPos), i);
      BitAnd(b, KeepMask(Mask(n, bitPos)), i);
      BitMask(n, bitPos, i);
      BitKeepMask(n, bitPos, i);
      BitWordShl(ShiftDown(u, bits, w, folded), bitPos, w, i);
      if bitPos <= i < bitPos + n { BitShiftDown(u, bits, w, folded, i - bitPos); }
    }
  }

  lemma BitLow(r: int, i: nat)
    ensures Bit(r % 256, i) == (i < 8 && Bit(r, i))
  {
    assert Pow2(8) == 256;
    BitMod(r, 8, i);
  }

  /** Single-byte stores for a field that no aligned word holds: u is the value as a w-bit
      pattern (w is 64 for a `long long` field, else 32); `folded` says it is a constant. */
  method StorePacked(m: array<Byte>, base: nat, bitPos: nat, bitSize: nat, u: int, w: nat, folded: bool)
    requires (w == 32 || w == 64) && 0 <= u < Pow2(w) && 0 < bitSize <= w && base * 8 + bitPos + bitSize <= 8 * m.Length
    modifies m
    ensures Writes(old(m[..]), m[..], base * 8 + bitPos, bitSize, u)
  {
    hide Bit, PackedByte, BytePatched;
    ghost var at := base * 8 + bitPos;
    var b: nat, o: nat, pos: nat, bits: nat, left: nat := base, bitPos / 8, bitPos % 8, 0, bitSize;
    while left != 0
      invariant bits + left == bitSize && pos < 8
      invariant left != 0 ==> at + bits == 8 * (b + o) + pos
      invariant Writes(old(m[..]), m[..], at, bits, u)
    {
      b := b + o;
      var n := if 8 - pos > left then left else 8 - pos;
      PackedByteOk(m[b], u, bits, pos, n, w, folded);
      assert 0 <= PackedByte(m[b], u, bits, pos, n, w, folded) < 256 by {
        PackedIsByte(m[b], u, bits, pos, n, w, folded);
      }
      ByteStep(old(m[..]), m[..], at, bits, n, u, b, pos, PackedByte(m[b], u, bits, pos, n, w, folded));
      ghost var before := m[..];
      m[b] := PackedByte(m[b], u, bits, pos, n, w, folded);
      assert m[..] == before[b := m[b]];
      bits, left, pos, o := bits + n, left - n, 0, 1;
    }
  }

  lemma PackedIsByte(b: Byte, u: int, bits: nat, bitPos: nat, n: nat, w: nat, folded: bool)
    requires 0 < w
    ensures 0 <= PackedByte(b, u, bits, bitPos, n, w, folded) < 256
  {
  }

  // --------------------------------------------------------------- word access

  /** s bytes read as a little-endian number. */
  function LoadLE(m: seq<Byte>, base: nat, s: nat): int
    requires base + s <= |m|
    decreases s
  {
    if s == 0 then 0 else m[base] + 256 * LoadLE(m, base + 1, s - 1)
  }

  lemma {:induction false} BitLoad(m: seq<Byte>, base: nat, s: nat, i: nat)
    requires base + s <= |m|
    ensures Bit(LoadLE(m, base, s), i) == (i < 8 * s && MemBit(m, base * 8 + i))
    decreases s
  {
    hide Bit, MemBit;
    if s == 0 {
      BitConstant(i);
    } else {
      BitByteAndRest(m[base], LoadLE(m, base + 1, s - 1), i);
      BitLow(m[base], i);
      if i < 8 {
        BitInByte(m, base, i);
      } else {
        BitLoad(m, base + 1, s - 1, i - 8);
      }
    }
  }

  lemma BitByteAndRest(b: Byte, rest: int, i: nat)
    ensures Bit(b + 256 * rest, i) == if i < 8 then Bit(b, i) else Bit(rest, i - 8)
  {
    hide Bit;
    var v := b + 256 * rest;
    assert Pow2(8) == 256;
    if i < 8 {
      BitLow(v, i);
      assert v % 256 == b;
    } else {
      BitShr(v, 8, i - 8);
      assert v / 256 == rest;
    }
  }

  lemma BitInByte(m: seq<Byte>, j: nat, i: nat)
    requires j < |m| && i < 8
    ensures MemBit(m, j * 8 + i) == Bit(m[j], i)
  {
  }

  /** The store instruction for s bytes. */
  method StoreLE(m: array<Byte>, base: nat, s: nat, v: int)
    requires base + s <= m.Length
    modifies m
    ensures Writes(old(m[..]), m[..], base * 8, 8 * s, v)
  {
    hide Bit;
    var j, rest := 0, v;
    while j < s
      invariant j <= s
      invariant forall i: nat :: Bit(rest, i) == Bit(v, i + 8 * j)
      invariant Writes(old(m[..]), m[..], base * 8, 8 * j, v)
    {
      var byte := rest % 256;
      forall i: nat | i < 8 ensures Bit(byte, i) == Bit(v, i + 8 * j) { BitLow(rest, i); }
      ByteStep(old(m[..]), m[..], base * 8, 8 * j, 8, v, base + j, 0, byte);
      ghost var before := m[..];
      m[base + j] := byte;
      assert m[..] == before[base + j := byte];
      forall i: nat ensures Bit(rest / 256, i) == Bit(v, i + 8 * (j + 1)) {
        assert Pow2(8) == 256;
        BitShr(rest, 8, i);
        assert Bit(rest, i + 8) == Bit(v, i + 8 + 8 * j);
      }
      rest := rest / 256;
      j := j + 1;
    }
  }

  /** A field store by a word of s bytes: mask and shift the source, clear the field in the
      word, or the two together.  A `_Bool` source is 0 or 1 and is not masked. */
  method StoreWord(m: array<Byte>, base: nat, s: nat, bitPos: nat, bitSize: nat, u: int, w: nat, isBool: bool)
    requires (w == 32 || w == 64) && 8 * s <= w && 0 <= u < Pow2(w) && base + s <= m.Length
    requires 0 < bitSize && bitPos + bitSize <= 8 * s
    requires isBool ==> u in {0, 1}
    modifies m
    ensures Writes(old(m[..]), m[..], base * 8 + bitPos, bitSize, u)
  {
    hide Bit, Mask, And, Or, Not, LoadLE, Shl;
    var source := if isBool then u else And(u, Mask(bitSize, 0));
    source := Shl(source, bitPos, w);
    var dest := LoadLE(m[..], base, s);
    var v := Or(And(dest, Not(Mask(bitSize, bitPos))), source);
    WordPatched(m[..], base, s, bitPos, bitSize, u, w, isBool);
    ghost var was := m[..];
    StoreLE(m, base, s, v);
    forall k: nat | k < 8 * |was|
      ensures MemBit(m[..], k) == if base * 8 + bitPos <= k < base * 8 + bitPos + bitSize
                then Bit(u, k - (base * 8 + bitPos)) else MemBit(was, k)
    {
      if base * 8 <= k < base * 8 + 8 * s {
        assert Bit(v, k - base * 8) == WordBit(was, base, bitPos, bitSize, u, k - base * 8);
      }
    }
  }

  /** Bit i of the word that a field store puts back. */
  predicate WordBit(m: seq<Byte>, base: nat, bitPos: nat, bitSize: nat, u: int, i: nat)
  {
    if bitPos <= i < bitPos + bitSize then Bit(u, i - bitPos) else MemBit(m, base * 8 + i)
  }

  lemma WordPatched(m: seq<Byte>, base: nat, s: nat, bitPos: nat, bitSize: nat, u: int, w: nat, isBool: bool)
    requires (w == 32 || w == 64) && 8 * s <= w && base + s <= |m| && 0 < bitSize && bitPos + bitSize <= 8 * s
    requires isBool ==> u in {0, 1}
    ensures var source := Shl(if isBool then u else And(u, Mask(bitSize, 0)), bitPos, w);
            var v := Or(And(LoadLE(m, base, s), Not(Mask(bitSize, bitPos))), source);
            forall i: nat :: i < 8 * s ==> Bit(v, i) == WordBit(m, base, bitPos, bitSize, u, i)
  {
    hide Bit, Mask, And, Or, Not, LoadLE, Shl;
    var masked := if isBool then u else And(u, Mask(bitSize, 0));
    var source := Shl(masked, bitPos, w);
    var dest := LoadLE(m, base, s);
    var v := Or(And(dest, Not(Mask(bitSize, bitPos))), source);
    forall i: nat | i < 8 * s ensures Bit(v, i) == WordBit(m, base, bitPos, bitSize, u, i) {
      BitOr(And(dest, Not(Mask(bitSize, bitPos))), source, i);
      BitAnd(dest, Not(Mask(bitSize, bitPos)), i);
      BitNot(Mask(bitSize, bitPos), i);
      BitMask(bitSize, bitPos, i);
      BitLoad(m, base, s, i);
      BitWordShl(masked, bitPos, w, i);
      if bitPos <= i { MaskedBit(u, bitSize, isBool, i - bitPos); }
    }
  }

  lemma MaskedBit(u: int, bitSize: nat, isBool: bool, i: nat)
    requires 0 < bitSize && (isBool ==> u in {0, 1})
    ensures Bit(if isBool then u else And(u, Mask(bitSize, 0)), i) == (i < bitSize && Bit(u, i))
  {
    if isBool {
      if i > 0 { BitConstant(i - 1); }
    } else {
      BitAnd(u, Mask(bitSize, 0), i);
      BitMask(bitSize, 0, i);
    }
  }

  // --------------------------------------------------------------------- loads

  /** The value an expression of w bits stands for. */
  function ValueOf(u: int, w: nat, signed: bool): int
    requires 0 < w
  {
    if signed then Signed(u, w) else u
  }

  /** Shifting the low `size` bits to the top and back down extends them. */
  lemma ShiftBack(u: int, size: nat, w: nat, signed: bool, low: nat, v: int)
    requires 0 < size && low + size <= w && 0 <= u < Pow2(w)
    requires v == (var t := Shl(u, w - (low + size), w); if signed then Sar(t, w - size, w) else Shr(t, w - size))
    ensures 0 <= v < Pow2(w)
    ensures forall i: nat :: Bit(ValueOf(v, w, signed), i) ==
              if i < size then Bit(u, low + i) else signed && Bit(u, low + size - 1)
  {
    hide Bit, Shl, Sar;
    var k := w - (low + size);
    var t := Shl(u, k, w);
    forall i: nat
      ensures Bit(v, i) == (i < w && if i < size then Bit(u, low + i) else signed && Bit(u, low + size - 1))
    {
      if signed {
        BitWordSar(t, w - size, w, i);
        BitWordShl(u, k, w, if i + (w - size) < w then i + (w - size) else w - 1);
      } else {
        BitWordShr(t, w - size, i);
        BitWordShl(u, k, w, i + (w - size));
      }
    }
    NoHighBits(v, w);
    forall i: nat ensures Bit(ValueOf(v, w, signed), i) ==
              if i < size then Bit(u, low + i) else signed && Bit(u, low + size - 1) {
      if signed { BitSigned(v, w, i); }
    }
  }

  /** An integer without bits from the w-th on is a w-bit pattern. */
  lemma NoHighBits(v: int, w: nat)
    requires forall i: nat :: w <= i ==> !Bit(v, i)
    ensures 0 <= v < Pow2(w)
  {
    hide Bit;
    forall i: nat ensures Bit(v, i) == Bit(v % Pow2(w), i) { BitMod(v, w, i); }
    BitsDetermine(v, v % Pow2(w));
  }

  /** The n bits of a byte from `pos` on. */
  function Piece(b: Byte, pos: nat, n: nat): int
  {
    var y := Shr(b, pos);
    if n < 8 then And(y, Mask(n, 0)) else y
  }

  /** One more byte of a byte-wise load. */
  lemma GatherStep(m: seq<Byte>, at: nat, x: int, bits: nat, n: nat, j: nat, pos: nat, w: nat)
    requires j < |m| && pos + n <= 8 && at + bits == 8 * j + pos && bits + n <= w && (n == 8 ==> pos == 0)
    requires forall i: nat :: Bit(x, i) == (i < bits && MemBit(m, at + i))
    ensures forall i: nat :: Bit(Or(Shl(Piece(m[j], pos, n), bits, w), x), i) == (i < bits + n && MemBit(m, at + i))
  {
    hide Bit, And, Or, Mask, Shl, Shr, MemBit;
    var y := Shr(m[j], pos);
    var y' := Piece(m[j], pos, n);
    forall i: nat ensures Bit(Or(Shl(y', bits, w), x), i) == (i < bits + n && MemBit(m, at + i)) {
      BitOr(Shl(y', bits, w), x, i);
      BitWordShl(y', bits, w, i);
      if bits <= i {
        var k := i - bits;
        BitAnd(y, Mask(n, 0), k);
        BitMask(n, 0, k);
        BitWordShr(m[j], pos, k);
        BitLow(m[j], k + pos);
        if k + pos < 8 { BitInByte(m, j, k + pos); }
      }
    }
  }

  /** Single-byte loads for a field that no aligned word holds. */
  method LoadPacked(m: array<Byte>, base: nat, bitPos: nat, bitSize: nat, w: nat, signed: bool) returns (x: int)
    requires (w == 32 || w == 64) && 0 < bitSize <= w && base * 8 + bitPos + bitSize <= 8 * m.Length
    ensures 0 <= x < Pow2(w) && Reads(m[..], base * 8 + bitPos, bitSize, signed, ValueOf(x, w, signed))
  {
    hide Bit, And, Or, Mask, Shl, Shr, Sar, MemBit, Piece;
    ghost var at := base * 8 + bitPos;
    var b: nat, o: nat, pos: nat, bits: nat, left: nat := base, bitPos / 8, bitPos % 8, 0, bitSize;
    x := 0;
    forall i: nat ensures !Bit(0, i) { BitConstant(i); }
    while left != 0
      invariant bits + left == bitSize && pos < 8
      invariant left != 0 ==> at + bits == 8 * (b + o) + pos
      invariant forall i: nat :: Bit(x, i) == (i < bits && MemBit(m[..], at + i))
    {
      b := b + o;
      var n := if 8 - pos > left then left else 8 - pos;
      GatherStep(m[..], at, x, bits, n, b, pos, w);
      assert m[..][b] == m[b];
      x := Or(Shl(Piece(m[b], pos, n), bits, w), x);
      bits, left, pos, o := bits + n, left - n, 0, 1;
    }
    NoHighBits(x, w);
    if signed {
      var n := w - bits;
      ShiftBack(x, bitSize, w, signed, 0, Sar(Shl(x, n, w), n, w));
      x := Sar(Shl(x, n, w), n, w);
    }
  }

  /** A field load by a word of s bytes, which the load instruction may sign-extend: shift the
      field to the top, then back down. */
  method LoadWord(m: array<Byte>, base: nat, s: nat, bitPos: nat, bitSize: nat, w: nat, signExtends: bool, signed: bool)
    returns (x: int)
    requires (w == 32 || w == 64) && 0 < s && 8 * s <= w && base + s <= m.Length && 0 < bitSize
    requires bitPos + bitSize <= 8 * s
    ensures 0 <= x < Pow2(w) && Reads(m[..], base * 8 + bitPos, bitSize, signed, ValueOf(x, w, signed))
  {
    hide Bit, Shl, Shr, Sar, MemBit, LoadLE, Wrap;
    var word := LoadLE(m[..], base, s);
    x := Wrap(if signExtends then Signed(word, 8 * s) else word, w);
    ghost var u := x;
    x := Shl(x, w - (bitPos + bitSize), w);
    x := if signed then Sar(x, w - bitSize, w) else Shr(x, w - bitSize);
    ShiftBack(u, bitSize, w, signed, bitPos, x);
    forall i: nat | i < 8 * s ensures Bit(u, i) == MemBit(m[..], base * 8 + i) {
      WidenedBit(m[..], base, s, w, signExtends, i);
    }
  }

  lemma WidenedBit(m: seq<Byte>, base: nat, s: nat, w: nat, signExtends: bool, i: nat)
    requires base + s <= |m| && 0 < s && 8 * s <= w && i < 8 * s
    ensures var word := LoadLE(m, base, s);
            Bit(Wrap(if signExtends then Signed(word, 8 * s) else word, w), i) == MemBit(m, base * 8 + i)
  {
    hide Bit, LoadLE, MemBit;
    var word := LoadLE(m, base, s);
    forall k: nat | 8 * s <= k ensures !Bit(word, k) { BitLoad(m, base, s, k); }
    NoHighBits(word, 8 * s);
    BitLoad(m, base, s, i);
    BitSigned(word, 8 * s, i);
    BitMod(if signExtends then Signed(word, 8 * s) else word, w, i);
  }
}
