/** Layout of structs and unions in the default (PCC) mode: where each field goes, and how a
    bit-field that does not fit its own type is accessed. */
module StructLayout {
  import opened IntegerBits

  /** The types a bit-field may have. */
  datatype Base = Bool | Byte | Short | Int | LongLong

  /** How a bit-field is accessed: by its own type, by another one, or byte by byte. */
  datatype Access = Own | As(base: Base) | ByteWise

  datatype Kind = Ordinary(size: int, align: int) | BitField(base: Base, width: nat)

  /** A field: what the declaration says, then what the layout finds out.  `aligned` is 0, or
      one more than the logarithm of the alignment asked for. */
  datatype Field = Field(kind: Kind, aligned: nat, packed: bool, anonymous: bool,
                         offset: int, bitPos: int, access: Access)

  /** The record's own attributes and the `#pragma pack` in force (0 if none).  `llAlign` is
      the alignment the target gives `long long`: 4 or 8. */
  datatype Record = Record(isUnion: bool, packed: bool, aligned: nat, pragmaPack: nat, llAlign: int)

  function TypeSize(b: Base): (s: int)
    ensures s == 1 || s == 2 || s == 4 || s == 8
  {
    match b case Bool => 1 case Byte => 1 case Short => 2 case Int => 4 case LongLong => 8
  }

  function TypeAlign(b: Base, llAlign: int): (a: int)
    requires llAlign == 4 || llAlign == 8
    ensures a == 1 || a == 2 || a == 4 || a == 8
  {
    if b == LongLong then llAlign else TypeSize(b)
  }

  ghost predicate FieldOk(f: Field)
  {
    match f.kind
    case Ordinary(_, a) => IsPow2(a)
    case BitField(b, w) => w <= 8 * TypeSize(b) && w < 64
  }

  ghost predicate RecordOk(r: Record)
  {
    (r.llAlign == 4 || r.llAlign == 8) && (r.pragmaPack == 0 || IsPow2(r.pragmaPack))
  }

  function Asked(aligned: nat): int { if aligned == 0 then 0 else Pow2(aligned - 1) }

  /** The alignment in force for a field, and whether it is packed: an attribute of its own
      overrides packing, which overrides the type. */
  function Effective(f: Field, r: Record): (res: (int, bool))
    requires r.llAlign == 4 || r.llAlign == 8
  {
    var natural := match f.kind case Ordinary(_, a) => a case BitField(b, _) => TypeAlign(b, r.llAlign);
    var asked := Asked(f.aligned);
    if f.kind.BitField? && f.kind.width == 0 then (if asked != 0 then asked else natural, false)
    else
      var squeezed := f.packed || r.packed;
      var align := if squeezed then 1 else natural;
      if r.pragmaPack != 0 then
        var align' := if r.pragmaPack < align then r.pragmaPack else align;
        var asked' := if r.pragmaPack < asked then 0 else asked;
        (if asked' != 0 then asked' else align', true)
      else
        (if asked != 0 then asked else align, squeezed)
  }

  // --------------------------------------------------------- bits and bytes

  /** The bits a field occupies, counted from the start of the record. */
  function Start(f: Field): int { f.offset * 8 + if f.kind.BitField? then f.bitPos else 0 }

  function End(f: Field): int
  {
    Start(f) + match f.kind case BitField(_, w) => w case Ordinary(s, _) => if s > 0 then 8 * s else 0
  }

  /** Declared properties are the same; only the results of the layout may differ.  A long
      long bit-field of at most 32 bits becomes an int one. */
  ghost predicate SameDeclaration(f: Field, g: Field)
  {
    && f.aligned == g.aligned && f.packed == g.packed && f.anonymous == g.anonymous
    && (f.kind == g.kind ||
        (f.kind.BitField? && f.kind.base == LongLong && f.kind.width <= 32 && g.kind == BitField(Int, f.kind.width)))
  }

  /** An ordinary field is aligned; a bit-field that is not packed lies within one unit of its
      declared type that starts at a multiple of its alignment. */
  ghost predicate Fits(decl: Field, f: Field, r: Record)
    requires r.llAlign == 4 || r.llAlign == 8
  {
    var (align, packed) := Effective(decl, r);
    && 0 < align
    && match decl.kind
       case Ordinary(_, _) => f.offset % align == 0
       case BitField(b, w) =>
         && 0 <= f.bitPos < 64
         && (w == 0 || decl.aligned != 0 ==> f.bitPos == 0 && f.offset % align == 0)
         && (!packed ==> Start(f) % (8 * align) + w <= 8 * TypeSize(b))
  }

  /** Whether a field begins a new unit when bits up to `from` are taken: ordinary fields do,
      and bit-fields of width zero or with an alignment of their own, and those that would
      otherwise reach beyond the unit of their type and are not packed. */
  predicate BeginsUnit(decl: Field, from: int, r: Record)
    requires (r.llAlign == 4 || r.llAlign == 8) && 0 < Effective(decl, r).0
  {
    var (align, packed) := Effective(decl, r);
    match decl.kind
    case Ordinary(_, _) => true
    case BitField(b, w) => w == 0 || decl.aligned != 0 || (!packed && from % (8 * align) + w > 8 * TypeSize(b))
  }

  /** Exactly where a struct field goes when bits up to `from` are taken: right there, or at the
      next multiple of its alignment if it begins a unit. */
  ghost predicate PlacedAfter(decl: Field, f: Field, from: int, r: Record)
    requires r.llAlign == 4 || r.llAlign == 8
  {
    var align := Effective(decl, r).0;
    && 0 < align
    && (if BeginsUnit(decl, from, r) then Start(f) % (8 * align) == 0 && from <= Start(f) < from + 8 * align
        else Start(f) == from)
    && f.kind == (if decl.kind.BitField? && decl.kind.base == LongLong && decl.kind.width <= 32
                  then BitField(Int, decl.kind.width) else decl.kind)
  }

  lemma EffectiveOk(f: Field, r: Record)
    requires FieldOk(f) && RecordOk(r)
    ensures IsPow2(Effective(f, r).0) && 0 < Effective(f, r).0
    ensures f.kind.BitField? && f.aligned == 0 && !Effective(f, r).1 ==>
              Effective(f, r).0 == TypeAlign(f.kind.base, r.llAlign)
    ensures f.kind.BitField? && f.aligned == 0 ==> Effective(f, r).0 <= 8
  {
    assert Pow2(0) == 1 && Pow2(1) == 2 && Pow2(2) == 4 && Pow2(3) == 8;
  }

  // -------------------------------------------------------------- first pass

  /** The container test: the units needed exceed those the type has exactly when the field
      would reach beyond the type's bytes. */
  lemma UnitTest(p: int, w: int, align: int, size: int)
    requires 0 < align && 0 <= size && size % align == 0
    ensures (p % (8 * align) + w + 8 * align - 1) / (8 * align) > size / align <==> p % (8 * align) + w > 8 * size
  {
    var u, x := 8 * align, p % (8 * align) + w;
    var q, n := (x + u - 1) / u, size / align;
    assert size == n * align + size % align;
    assert x + u - 1 == q * u + (x + u - 1) % u;
    assert n * u == 8 * (n * align);
    if q > n {
      assert q * u >= (n + 1) * u;
    } else {
      assert q * u <= n * u;
    }
  }

  /** A bit position in an aligned byte is a multiple of the alignment in bits. */
  lemma AlignedBits(c: int, align: int)
    requires 0 < align && c % align == 0
    ensures (c * 8) % (8 * align) == 0
  {
    assert c == c / align * align;
    assert c * 8 == (c / align) * (8 * align);
    DivUnique(c * 8, 8 * align, c / align, 0);
  }

  /** Carries whole units of the bit position over to the byte offset. */
  method CarryUnits(c: int, bitPos: int, align: int) returns (c': int, bitPos': int)
    requires 0 < align && 0 <= bitPos
    ensures c' * 8 + bitPos' == c * 8 + bitPos && 0 <= bitPos' < 8 * align && c <= c'
    ensures bitPos == 0 ==> c' == c && bitPos' == 0
  {
    c', bitPos' := c, bitPos;
    while bitPos' >= align * 8
      invariant c' * 8 + bitPos' == c * 8 + bitPos && 0 <= bitPos' && c <= c'
      invariant bitPos == 0 ==> c' == c
    {
      c', bitPos' := c' + align, bitPos' - align * 8;
    }
  }

  /** A byte offset rounded up, in bits. */
  lemma RoundedBits(c: int, bitPos: int, align: int)
    requires IsPow2(align) && 0 <= bitPos
    ensures var o := RoundUp(c + (bitPos + 7) / 8, align);
            && 0 < align && o % align == 0 && (o * 8) % (8 * align) == 0 && c <= o
            && c * 8 + bitPos <= o * 8 < c * 8 + bitPos + 8 * align
  {
    hide RoundUp;
    RoundUpIsLeastMultiple(c + (bitPos + 7) / 8, align);
    AlignedBits(RoundUp(c + (bitPos + 7) / 8, align), align);
  }

  /** Whether a bit-field begins a new unit, computed from counts of units. */
  method TestUnit(f: Field, r: Record, align: int, packed: bool, p: int) returns (newField: bool)
    requires FieldOk(f) && RecordOk(r) && f.kind.BitField? && (align, packed) == Effective(f, r) && 0 < align
    ensures newField == BeginsUnit(f, p, r)
  {
    hide Effective;
    EffectiveOk(f, r);
    newField := f.kind.width == 0 || f.aligned != 0;
    if !newField && !packed {
      var a8, size := align * 8, TypeSize(f.kind.base);
      var ofs := (p % a8 + f.kind.width + a8 - 1) / a8;
      newField := ofs > size / align;
      assert size % align == 0;
      UnitTest(p, f.kind.width, align, size);
    }
  }

  /** Places one field of a struct after what has been placed so far: c bytes and bitPos bits. */
  method PlaceField(f: Field, r: Record, c: int, bitPos: int) returns (g: Field, c': int, bitPos': int)
    requires FieldOk(f) && RecordOk(r) && 0 <= c && 0 <= bitPos
    ensures SameDeclaration(f, g) && g.access == f.access && Fits(f, g, r) && c <= g.offset
    ensures PlacedAfter(f, g, 8 * c + bitPos, r) && End(g) == 8 * c' + bitPos' && 0 <= c' && 0 <= bitPos'
    ensures forall a :: InForce(f, r, a) ==> 0 < a && PlacedBy(f, g, 8 * c + bitPos, r, a)
  {
    hide Effective, RoundUp, Pow2, InForce, PlacedBy;
    EffectiveOk(f, r);
    EffectiveInForce(f, r);
    var (align, packed) := Effective(f, r);
    match f.kind {
      case Ordinary(size, _) =>
        RoundedBits(c, bitPos, align);
        c' := RoundUp(c + (bitPos + 7) / 8, align);
        g := f.(offset := c');
        if size > 0 { c' := c' + size; }
        bitPos' := 0;
      case BitField(base, width) =>
        var newField := TestUnit(f, r, align, packed, 8 * c + bitPos);
        c', bitPos' := c, bitPos;
        if newField {
          RoundedBits(c, bitPos, align);
          c', bitPos' := RoundUp(c + (bitPos + 7) / 8, align), 0;
        }
        ghost var start := 8 * c' + bitPos';
        var kind := if TypeSize(base) == 8 && width <= 32 then BitField(Int, width) else f.kind;
        c', bitPos' := CarryUnits(c', bitPos', align);
        g := f.(kind := kind, offset := c', bitPos := bitPos');
        bitPos' := bitPos' + width;
        BitFieldPlaced(f, g, r, 8 * c + bitPos, start);
    }
    PlacedByRules(f, g, 8 * c + bitPos, r, align);
  }

  lemma BitFieldPlaced(f: Field, g: Field, r: Record, from: int, start: int)
    requires FieldOk(f) && RecordOk(r) && f.kind.BitField? && 0 < Effective(f, r).0
    requires Start(g) == start && g == f.(kind := g.kind, offset := g.offset, bitPos := g.bitPos)
    requires g.kind == if f.kind.base == LongLong && f.kind.width <= 32 then BitField(Int, f.kind.width) else f.kind
    requires var align := Effective(f, r).0;
             && 0 <= g.bitPos < 8 * align
             && if BeginsUnit(f, from, r) then start % (8 * align) == 0 && from <= start < from + 8 * align
                                               && g.bitPos == 0 && g.offset % align == 0
                else start == from
    ensures SameDeclaration(f, g) && Fits(f, g, r) && PlacedAfter(f, g, from, r)
  {
    hide Effective;
    EffectiveOk(f, r);
  }

  /** Every field of a struct begins after the one before it ends; every field of a union
      begins at the start. */
  ghost predicate Disjoint(fs: seq<Field>, isUnion: bool)
  {
    && (forall i :: 0 <= i < |fs| ==> 0 <= fs[i].offset && 0 <= Start(fs[i]))
    && (forall i, j :: 0 <= i < j < |fs| && !isUnion ==> End(fs[i]) <= Start(fs[j]))
    && (forall i :: 0 <= i < |fs| && isUnion ==> Start(fs[i]) == 0)
  }

  /** The bits taken before field i of a struct. */
  function From(fs: seq<Field>, i: nat): int
    requires i <= |fs|
  {
    if i == 0 then 0 else End(fs[i - 1])
  }

  /** A field that counts towards the alignment of the record: unnamed bit-fields do in a union,
      but not in a struct. */
  predicate Counts(f: Field, isUnion: bool) { isUnion || !(f.anonymous && f.kind.BitField?) }

  /** What the first pass promises of fields `decls` laid out as `fs` in `size` bytes: each
      field where it belongs, and the least size and alignment that do. */
  ghost predicate LaidOut(decls: seq<Field>, fs: seq<Field>, r: Record, size: int, align: int)
    requires r.llAlign == 4 || r.llAlign == 8
  {
    && |fs| == |decls| && Disjoint(fs, r.isUnion)
    && (forall i :: 0 <= i < |fs| ==> SameDeclaration(decls[i], fs[i]) && Fits(decls[i], fs[i], r))
    && (forall i :: 0 <= i < |fs| && !r.isUnion ==> PlacedAfter(decls[i], fs[i], From(fs, i), r))
    && (forall i :: 0 <= i < |fs| ==> End(fs[i]) <= 8 * size)
    && (size < align || exists i :: 0 <= i < |fs| && 8 * (size - align) < End(fs[i]))
    && IsPow2(align) && size % align == 0 && Asked(r.aligned) <= align
    && (forall i :: 0 <= i < |fs| && Counts(fs[i], r.isUnion) ==> Effective(decls[i], r).0 <= align)
    && (align == 1 || align == Asked(r.aligned) ||
        exists i :: 0 <= i < |fs| && Counts(fs[i], r.isUnion) && Effective(decls[i], r).0 == align)
  }

  // ------------------------------------------------- the rules, one by one

  /** a is the alignment in force for a field.  What was asked for holds, unless `#pragma pack`
      is less; then, or if nothing was asked for, a packed field has 1 and any other the one of
      its type, at most that of `#pragma pack`.  Neither packing nor `#pragma pack` touches a
      bit-field of width zero. */
  predicate InForce(f: Field, r: Record, a: int)
  {
    var natural := match f.kind
      case Ordinary(_, n) => n
      case BitField(b, _) =>
        match b case Bool => 1 case Byte => 1 case Short => 2 case Int => 4 case LongLong => r.llAlign;
    var free := f.kind.BitField? && f.kind.width == 0;
    var limit := if free then 0 else r.pragmaPack;
    var holds := f.aligned != 0 && (limit == 0 || Pow2(f.aligned - 1) <= limit);
    && (holds ==> a == Pow2(f.aligned - 1))
    && (!holds && !free && (f.packed || r.packed) ==> a == 1)
    && (!holds && (free || !(f.packed || r.packed)) ==> a == if limit == 0 || natural <= limit then natural else limit)
  }

  /** A bit-field that may straddle the units of its type: one of some width, under an attribute
      of its own or of the record or under any `#pragma pack`. */
  predicate Straddles(f: Field, r: Record)
  {
    f.kind.BitField? && f.kind.width != 0 && (f.packed || r.packed || r.pragmaPack != 0)
  }

  function UnitBits(b: Base): int
  {
    match b case Bool => 8 case Byte => 8 case Short => 16 case Int => 32 case LongLong => 64
  }

  /** Where a field of a struct is, if its alignment is a and bits up to `from` are taken: at the
      next multiple of a, or right there for a bit-field that still goes into the unit. */
  predicate PlacedBy(decl: Field, f: Field, from: int, r: Record, a: int)
    requires 0 < a
  {
    match decl.kind
    case Ordinary(_, _) => f.offset % a == 0 && from <= 8 * f.offset < from + 8 * a
    case BitField(b, w) =>
      var bit := 8 * f.offset + f.bitPos;
      if w == 0 || decl.aligned != 0 || (!Straddles(decl, r) && from % (8 * a) + w > UnitBits(b)) then
        bit % (8 * a) == 0 && from <= bit < from + 8 * a
      else bit == from
  }

  /** Every field of a struct is where its alignment puts it, and the alignment of the record is the
      greatest of them, of the one asked for and of 1. */
  ghost predicate ByTheRules(decls: seq<Field>, fs: seq<Field>, r: Record, align: int)
    requires |fs| == |decls|
  {
    && (forall i, a :: 0 <= i < |fs| && InForce(decls[i], r, a) ==>
          0 < a && (!r.isUnion ==> PlacedBy(decls[i], fs[i], From(fs, i), r, a))
          && (Counts(fs[i], r.isUnion) ==> a <= align))
    && 1 <= align && (r.aligned != 0 ==> Pow2(r.aligned - 1) <= align)
    && (align == 1 || (r.aligned != 0 && align == Pow2(r.aligned - 1))
        || exists i :: 0 <= i < |fs| && Counts(fs[i], r.isUnion) && InForce(decls[i], r, align))
  }

  /** What is computed for a field is the alignment in force, and nothing else is. */
  lemma EffectiveInForce(f: Field, r: Record)
    requires FieldOk(f) && RecordOk(r)
    ensures InForce(f, r, Effective(f, r).0) && forall a :: InForce(f, r, a) ==> a == Effective(f, r).0
    ensures f.kind.BitField? ==> Effective(f, r).1 == Straddles(f, r)
  {
    hide Pow2;
    PragmaPositive(r);
  }

  lemma PragmaPositive(r: Record)
    requires RecordOk(r)
    ensures r.pragmaPack == 0 || 1 <= r.pragmaPack
  {
  }

  lemma PlacedByRules(decl: Field, f: Field, from: int, r: Record, a: int)
    requires FieldOk(decl) && RecordOk(r) && InForce(decl, r, a)
    requires Fits(decl, f, r) && PlacedAfter(decl, f, from, r)
    ensures 0 < a && PlacedBy(decl, f, from, r, a)
  {
    hide Effective, InForce, Straddles, IsPow2;
    EffectiveInForce(decl, r);
    assert f.kind.BitField? == decl.kind.BitField?;
    EightTimes(f.offset, a);
  }

  lemma EightTimes(n: int, a: int)
    requires 0 < a
    ensures n % a == 0 ==> 8 * n % (8 * a) == 0
  {
    if n % a == 0 { AlignedBits(n, a); }
  }

  /** Main result: the first pass puts every field where the rules put it. */
  lemma LaidOutByRules(decls: seq<Field>, fs: seq<Field>, r: Record, size: int, align: int)
    requires Declared(decls) && RecordOk(r) && LaidOut(decls, fs, r, size, align)
    ensures ByTheRules(decls, fs, r, align)
  {
    hide Effective, InForce, Straddles, IsPow2, Fits, PlacedAfter, PlacedBy, From, Counts, Pow2, FieldOk;
    hide SameDeclaration, Disjoint;
    forall i, a | 0 <= i < |fs| && InForce(decls[i], r, a)
      ensures 0 < a && (!r.isUnion ==> PlacedBy(decls[i], fs[i], From(fs, i), r, a))
      ensures Counts(fs[i], r.isUnion) ==> a <= align
    {
      EffectiveInForce(decls[i], r);
      EffectiveOk(decls[i], r);
      if !r.isUnion { PlacedByRules(decls[i], fs[i], From(fs, i), r, a); }
    }
    PowerPositive(align);
    if align != 1 && align != Asked(r.aligned) {
      var i :| 0 <= i < |fs| && Counts(fs[i], r.isUnion) && Effective(decls[i], r).0 == align;
      EffectiveInForce(decls[i], r);
    }
  }

  lemma PowerPositive(a: int)
    requires IsPow2(a)
    ensures 1 <= a
  {
  }

  /** Fields that only change how they are accessed stay where the rules put them. */
  lemma SamePlacesByRules(decls: seq<Field>, first: seq<Field>, fs: seq<Field>, r: Record, align: int)
    requires |decls| == |first| == |fs| && ByTheRules(decls, first, r, align)
    requires forall i :: 0 <= i < |fs| ==> SameDeclaration(decls[i], first[i])
    requires forall i :: 0 <= i < |fs| ==>
               && Start(fs[i]) == Start(first[i]) && End(fs[i]) == End(first[i])
               && fs[i].kind == first[i].kind && fs[i].anonymous == first[i].anonymous
               && (fs[i].kind.Ordinary? ==> fs[i] == first[i])
    ensures ByTheRules(decls, fs, r, align)
  {
    hide InForce, Pow2, End, Straddles;
    forall i, a | 0 <= i < |fs| && InForce(decls[i], r, a) && !r.isUnion
      ensures PlacedBy(decls[i], fs[i], From(fs, i), r, a)
    {
      assert From(fs, i) == From(first, i);
      assert PlacedBy(decls[i], first[i], From(first, i), r, a);
    }
  }

  /** struct { char c; int i; } under `#pragma pack(2)`, with the attribute, and plain. */
  lemma PackedExample(fs: seq<Field>, r: Record, size: int, align: int)
    requires !r.isUnion && r.aligned == 0 && r.llAlign == 8
    requires LaidOut([Field(Ordinary(1, 1), 0, false, false, 0, 0, Own),
                      Field(Ordinary(4, 4), 0, false, false, 0, 0, Own)], fs, r, size, align)
    ensures !r.packed && r.pragmaPack == 2 ==> fs[1].offset == 2 && size == 6 && align == 2
    ensures r.packed && r.pragmaPack == 0 ==> fs[1].offset == 1 && size == 5 && align == 1
    ensures !r.packed && r.pragmaPack == 0 ==> fs[1].offset == 4 && size == 8 && align == 4
  {
    assert fs[0].kind == Ordinary(1, 1) && fs[1].kind == Ordinary(4, 4);
    assert From(fs, 0) == 0 && From(fs, 1) == End(fs[0]);
  }

  /** Nothing has been laid out yet. */
  ghost predicate Declared(fs: seq<Field>)
  {
    forall i :: 0 <= i < |fs| ==> FieldOk(fs[i]) && fs[i].bitPos == 0 && fs[i].access == Own
  }

  /** Every field placed so far is where it belongs, within a number of bits. */
  ghost predicate FieldsPlaced(decls: seq<Field>, fs: seq<Field>, r: Record, bits: int)
    requires r.llAlign == 4 || r.llAlign == 8
  {
    && |fs| <= |decls| && Disjoint(fs, r.isUnion)
    && (forall k :: 0 <= k < |fs| ==>
          SameDeclaration(decls[k], fs[k]) && Fits(decls[k], fs[k], r) && fs[k].access == Own && End(fs[k]) <= bits)
    && (forall k :: 0 <= k < |fs| && !r.isUnion ==> PlacedAfter(decls[k], fs[k], From(fs, k), r))
  }

  /** The bits taken are no more than the fields need. */
  ghost predicate BitsNeeded(fs: seq<Field>, isUnion: bool, bits: int)
  {
    && (!isUnion ==> bits == From(fs, |fs|))
    && (bits == 0 || exists k :: 0 <= k < |fs| && bits < End(fs[k]) + 8)
  }

  /** The alignment is the greatest asked for. */
  ghost predicate AlignNeeded(decls: seq<Field>, fs: seq<Field>, r: Record, maxAlign: int)
    requires (r.llAlign == 4 || r.llAlign == 8) && |fs| <= |decls|
  {
    && (forall k :: 0 <= k < |fs| && Counts(fs[k], r.isUnion) ==> Effective(decls[k], r).0 <= maxAlign)
    && (maxAlign == 1 || exists k :: 0 <= k < |fs| && Counts(fs[k], r.isUnion) && Effective(decls[k], r).0 == maxAlign)
  }

  ghost predicate SoFar(decls: seq<Field>, fs: seq<Field>, r: Record, bits: int, maxAlign: int)
    requires r.llAlign == 4 || r.llAlign == 8
  {
    FieldsPlaced(decls, fs, r, bits) && BitsNeeded(fs, r.isUnion, bits) && AlignNeeded(decls, fs, r, maxAlign)
  }

  /** What one more field must satisfy. */
  ghost predicate Follows(d: Field, g: Field, r: Record, bits: int, bits': int)
    requires r.llAlign == 4 || r.llAlign == 8
  {
    && SameDeclaration(d, g) && Fits(d, g, r) && g.access == Own && End(g) <= bits' && bits <= bits'
    && 0 <= g.offset && 0 <= Start(g)
    && if r.isUnion then Start(g) == 0 && (bits' == bits || bits' < End(g) + 8)
       else PlacedAfter(d, g, bits, r) && bits <= Start(g) && bits' == End(g)
  }

  lemma OneMorePlaced(decls: seq<Field>, fs: seq<Field>, r: Record, bits: int, g: Field, bits': int)
    requires RecordOk(r) && FieldsPlaced(decls, fs, r, bits) && |fs| < |decls|
    requires Follows(decls[|fs|], g, r, bits, bits')
    requires !r.isUnion ==> bits == From(fs, |fs|)
    ensures FieldsPlaced(decls, fs + [g], r, bits')
  {
    hide Effective, Fits, SameDeclaration, Start, End, PlacedAfter;
    var gs, n := fs + [g], |fs|;
    assert forall k :: 0 <= k <= n ==> From(gs, k) == From(fs, k);
    assert forall k :: 0 <= k < n ==> gs[k] == fs[k];
  }

  lemma OneMoreNeeded(decls: seq<Field>, fs: seq<Field>, r: Record, bits: int, g: Field, bits': int)
    requires RecordOk(r) && BitsNeeded(fs, r.isUnion, bits) && |fs| < |decls| && Follows(decls[|fs|], g, r, bits, bits')
    ensures BitsNeeded(fs + [g], r.isUnion, bits')
  {
    hide Effective, Fits, SameDeclaration, Start, End, PlacedAfter;
    var gs, n := fs + [g], |fs|;
    assert gs[n] == g;
    if bits' == bits && bits != 0 {
      var k :| 0 <= k < n && bits < End(fs[k]) + 8;
      assert gs[k] == fs[k];
    }
  }

  lemma OneMoreAligned(decls: seq<Field>, fs: seq<Field>, r: Record, maxAlign: int, g: Field, maxAlign': int)
    requires RecordOk(r) && |fs| < |decls| && AlignNeeded(decls, fs, r, maxAlign)
    requires var e := Effective(decls[|fs|], r).0;
             maxAlign' == if Counts(g, r.isUnion) && e > maxAlign then e else maxAlign
    ensures AlignNeeded(decls, fs + [g], r, maxAlign')
  {
    hide Effective, Counts;
    var gs, n := fs + [g], |fs|;
    assert gs[n] == g;
    if maxAlign' == maxAlign && maxAlign != 1 {
      var k :| 0 <= k < n && Counts(fs[k], r.isUnion) && Effective(decls[k], r).0 == maxAlign;
      assert gs[k] == fs[k];
    }
  }

  lemma OneMore(decls: seq<Field>, fs: seq<Field>, r: Record, bits: int, maxAlign: int, g: Field, bits': int,
        maxAlign': int)
    requires RecordOk(r) && SoFar(decls, fs, r, bits, maxAlign) && |fs| < |decls|
    requires Follows(decls[|fs|], g, r, bits, bits')
    requires var e := Effective(decls[|fs|], r).0;
             maxAlign' == if Counts(g, r.isUnion) && e > maxAlign then e else maxAlign
    ensures SoFar(decls, fs + [g], r, bits', maxAlign')
  {
    hide Follows, FieldsPlaced, AlignNeeded, Effective, From;
    OneMorePlaced(decls, fs, r, bits, g, bits');
    OneMoreNeeded(decls, fs, r, bits, g, bits');
    OneMoreAligned(decls, fs, r, maxAlign, g, maxAlign');
  }

  method FirstPass(a: array<Field>, r: Record) returns (size: int, align: int)
    requires Declared(a[..]) && RecordOk(r)
    modifies a
    ensures LaidOut(old(a[..]), a[..], r, size, align)
    ensures ByTheRules(old(a[..]), a[..], r, align)
    ensures forall i :: 0 <= i < a.Length ==> a[i].access == Own
  {
    hide Effective, RoundUp, Pow2, Fits, FieldOk, SameDeclaration, Start, End, Disjoint, From, PlacedAfter, SoFar;
    hide ByTheRules;
    var c, bitPos, maxAlign, i := 0, 0, 1, 0;
    ghost var decls := a[..];
    OneIsPow2();
    NothingPlaced(decls, r);
    assert a[..i] == [];
    while i < a.Length
      invariant 0 <= i <= a.Length && 0 <= c && 0 <= bitPos && IsPow2(maxAlign) && 1 <= maxAlign
      invariant r.isUnion ==> bitPos == 0
      invariant a[i..] == decls[i..]
      invariant SoFar(decls, a[..i], r, 8 * c + bitPos, maxAlign)
    {
      var f := a[i];
      assert f == a[i..][0] == decls[i];
      EffectiveOk(f, r);
      var fieldAlign := Effective(f, r).0;
      if !r.isUnion && f.anonymous && f.kind.BitField? { fieldAlign := 1; }
      ghost var bits, m, before := 8 * c + bitPos, maxAlign, a[..i];
      if r.isUnion {
        UnionMember(f, r);
        var size := match f.kind case Ordinary(s, _) => s case BitField(_, w) => (w + 7) / 8;
        f := f.(offset := 0);
        if size > c { c := size; }
      } else {
        PlacedLater(f, bits, r);
        f, c, bitPos := PlaceField(f, r, c, bitPos);
      }
      if fieldAlign > maxAlign { maxAlign := fieldAlign; }
      SameAnonymity(decls[i], f);
      EndsAfter(f);
      OneMore(decls, before, r, bits, m, f, 8 * c + bitPos, maxAlign);
      a[i] := f;
      i := i + 1;
      assert a[..i] == before + [f];
      assert a[i..] == decls[i..];
    }
    ghost var bits := 8 * c + bitPos;
    c := c + (bitPos + 7) / 8;
    align := if r.aligned != 0 then Asked(r.aligned) else 1;
    AskedIsPow2(r.aligned);
    if align < maxAlign { align := maxAlign; }
    RoundUpIsLeastMultiple(c, align);
    size := RoundUp(c, align);
    assert a[..i] == a[..];
    Done(decls, a[..], r, bits, maxAlign, size, align);
    LaidOutByRules(decls, a[..], r, size, align);
  }

  lemma PlacedLater(f: Field, from: int, r: Record)
    requires RecordOk(r)
    ensures forall g :: PlacedAfter(f, g, from, r) ==> from <= Start(g)
  {
    hide Effective, Start;
  }

  lemma Done(decls: seq<Field>, fs: seq<Field>, r: Record, bits: int, maxAlign: int, size: int, align: int)
    requires RecordOk(r) && SoFar(decls, fs, r, bits, maxAlign) && |fs| == |decls|
    requires bits <= 8 * size
    requires 8 * (size - align) < bits || (bits == 0 && size < align)
    requires r.isUnion ==> 8 * (size - align) <= bits - 8
    requires IsPow2(align) && size % align == 0
    requires 1 <= maxAlign && align == var asked := if r.aligned != 0 then Asked(r.aligned) else 1;
                                       if asked < maxAlign then maxAlign else asked
    ensures LaidOut(decls, fs, r, size, align)
    ensures forall i :: 0 <= i < |fs| ==> fs[i].access == Own
  {
    hide Effective, Fits, SameDeclaration, Start, End, Disjoint, PlacedAfter, Counts;
    if size >= align {
      if r.isUnion {
        var k :| 0 <= k < |fs| && bits < End(fs[k]) + 8;
        assert 8 * (size - align) < End(fs[k]);
      } else {
        assert 8 * (size - align) < End(fs[|fs| - 1]);
      }
    }
  }

  lemma NothingPlaced(decls: seq<Field>, r: Record)
    requires RecordOk(r)
    ensures SoFar(decls, [], r, 0, 1)
  {
  }

  lemma SameAnonymity(f: Field, g: Field)
    ensures SameDeclaration(f, g) ==> f.anonymous == g.anonymous && f.kind.BitField? == g.kind.BitField?
  {
  }

  lemma EndsAfter(f: Field)
    ensures Start(f) <= End(f)
  {
  }

  lemma OneIsPow2()
    ensures IsPow2(1)
  {
    assert Pow2(0) == 1;
  }

  lemma AskedIsPow2(aligned: nat)
    ensures aligned == 0 ==> Asked(aligned) == 0
    ensures aligned != 0 ==> IsPow2(Asked(aligned)) && 0 < Asked(aligned)
  {
  }

  lemma UnionMember(f: Field, r: Record)
    requires FieldOk(f) && RecordOk(r) && f.bitPos == 0
    ensures var g := f.(offset := 0);
            var s := match f.kind case Ordinary(s, _) => s case BitField(_, w) => (w + 7) / 8;
            Fits(f, g, r) && SameDeclaration(f, g) && Start(g) == 0
            && (if s > 0 then End(g) <= 8 * s < End(g) + 8 else End(g) == 0)
  {
    hide Effective;
    EffectiveOk(f, r);
    assert 0 % Effective(f, r).0 == 0 && 0 % (8 * Effective(f, r).0) == 0;
  }

  /** An unnamed bit-field of type int aligns a union, and does not align a struct. */
  lemma UnnamedBitFieldAligns(fs: seq<Field>, r: Record, size: int, align: int)
    requires r.aligned == 0 && !r.packed && r.pragmaPack == 0 && r.llAlign == 8
    requires LaidOut([Field(Ordinary(1, 1), 0, false, false, 0, 0, Own),
                      Field(BitField(Int, 5), 0, false, true, 0, 0, Own)],
                     fs, r, size, align)
    ensures align == if r.isUnion then 4 else 1
  {
    assert fs[0].kind == Ordinary(1, 1) && fs[1].kind == BitField(Int, 5) && fs[1].anonymous;
  }

  // ------------------------------------------------------------- second pass

  /** The bytes an access to a bit-field reads and writes. */
  function Touched(f: Field): (int, int)
    requires f.kind.BitField?
  {
    match f.access
    case Own => (f.offset, f.offset + TypeSize(f.kind.base))
    case As(b) => (f.offset, f.offset + TypeSize(b))
    case ByteWise => (f.offset + f.bitPos / 8, f.offset + (f.bitPos + f.kind.width + 7) / 8)
  }

  /** The word in which the field's bits are taken to lie is wide enough for them. */
  ghost predicate InWord(f: Field)
    requires f.kind.BitField?
  {
    match f.access
    case Own => f.bitPos + f.kind.width <= 8 * TypeSize(f.kind.base)
    case As(b) => f.bitPos + f.kind.width <= 8 * TypeSize(b)
    case ByteWise => true
  }

  /** The field can be accessed without leaving the record. */
  ghost predicate Accessible(f: Field, size: int)
  {
    f.kind.BitField? && 0 < f.kind.width ==>
      && 0 <= f.bitPos < 64 && InWord(f)
      && 0 <= Touched(f).0 <= Touched(f).1 <= size
      && Touched(f).0 * 8 <= Start(f) && End(f) <= Touched(f).1 * 8
  }

  /** The narrowest type of at least n bytes, 8 if none. */
  function TypeFor(n: int): Base { if n > 4 then LongLong else if n > 2 then Int else if n > 1 then Short else Byte }

  /** The byte address of bit p rounded down to a word of the given alignment. */
  function WordAt(p: int, align: int): int
    requires align in {1, 2, 4, 8}
  {
    if align == 8 then p / 8 / 8 * 8
    else if align == 4 then p / 8 / 4 * 4
    else if align == 2 then p / 8 / 2 * 2
    else p / 8
  }

  lemma WordBounds(p: int, a: int)
    requires 0 <= p && a in {1, 2, 4, 8}
    ensures 0 <= WordAt(p, a) && WordAt(p, a) * 8 <= p < WordAt(p, a) * 8 + 8 * a && WordAt(p, a) % a == 0
  {
  }

  lemma Quotients(q: int)
    ensures q / 8 * 8 <= q / 4 * 4 <= q / 2 * 2 <= q
    ensures (q / 8 * 8) % 4 == 0 && (q / 8 * 8) % 2 == 0 && (q / 4 * 4) % 2 == 0
  {
    var (a, b, c) := (q / 2, q / 2 / 2, q / 2 / 2 / 2);
    DivUnique(q, 4, b, 2 * (a % 2) + q % 2);
    DivUnique(q, 8, c, 4 * (b % 2) + 2 * (a % 2) + q % 2);
    DivUnique(8 * c, 4, 2 * c, 0);
    DivUnique(8 * c, 2, 4 * c, 0);
    DivUnique(4 * b, 2, 2 * b, 0);
  }

  /** Larger alignments divide more. */
  lemma WordFacts(p: int, a: int, b: int)
    requires 0 <= p && a in {1, 2, 4, 8} && b in {1, 2, 4, 8} && a <= b
    ensures 0 <= WordAt(p, b) <= WordAt(p, a) && WordAt(p, b) * 8 <= p < WordAt(p, b) * 8 + 8 * b
    ensures WordAt(p, a) % a == 0 && WordAt(p, b) % b == 0 && WordAt(p, b) % a == 0
  {
    WordBounds(p, a);
    WordBounds(p, b);
    Quotients(p / 8);
    if a == b {
    } else if a == 1 {
    } else if b == 8 {
    }
  }

  lemma WordIsMasked(p: int, a: int)
    requires a in {1, 2, 4, 8}
    ensures And(p / 8, -a) == WordAt(p, a)
  {
    hide And;
    SmallPow2(a);
    RoundedDown(p / 8, a);
  }

  /** The type for the bits from the start of the word at alignment a. */
  function TypeAt(p: int, width: int, a: int): Base
    requires a in {1, 2, 4, 8}
  {
    TypeFor((p - WordAt(p, a) * 8 + width + 7) / 8)
  }

  lemma WiderWord(p: int, width: int, llAlign: int, a: int, b: int)
    requires 0 <= p && (llAlign == 4 || llAlign == 8) && a in {1, 2, 4, 8} && b in {1, 2, 4, 8} && a <= b
    ensures TypeAlign(TypeAt(p, width, a), llAlign) <= TypeAlign(TypeAt(p, width, b), llAlign)
  {
    hide WordAt;
    WordFacts(p, a, b);
  }

  /** The aligned word of a type around bit p holds `width` bits from there and lies within
      `size` bytes. */
  predicate WordFits(p: int, width: int, b: Base, llAlign: int, size: int)
    requires llAlign == 4 || llAlign == 8
  {
    var w := WordAt(p, TypeAlign(b, llAlign));
    p - 8 * w + width <= 8 * TypeSize(b) && w + TypeSize(b) <= size
  }

  /** While the alignment tried is no more than that of a word that fits, neither is the next. */
  lemma NotPast(p: int, width: int, llAlign: int, size: int, a: int, b: Base)
    requires 0 <= p && 0 < width && (llAlign == 4 || llAlign == 8) && a in {1, 2, 4, 8}
    requires WordFits(p, width, b, llAlign, size) && a <= TypeAlign(b, llAlign)
    ensures TypeAlign(TypeAt(p, width, a), llAlign) <= TypeAlign(b, llAlign)
    ensures TypeSize(TypeAt(p, width, a)) <= TypeSize(b)
  {
    hide WordAt;
    WordFacts(p, a, TypeAlign(b, llAlign));
  }

  /** The word found fits whenever a wider one does. */
  lemma NarrowerFits(p: int, width: int, llAlign: int, size: int, t: Base, b: Base)
    requires 0 <= p && 0 < width && (llAlign == 4 || llAlign == 8) && WordFits(p, width, b, llAlign, size)
    requires TypeAlign(t, llAlign) <= TypeAlign(b, llAlign) && TypeSize(t) <= TypeSize(b)
    requires t == TypeAt(p, width, TypeAlign(t, llAlign))
    ensures WordFits(p, width, t, llAlign, size)
  {
    hide WordAt, TypeFor;
    var a, c := TypeAlign(t, llAlign), TypeAlign(b, llAlign);
    WordFacts(p, a, c);
    WordFacts(p, a, a);
    TypeForFits((p - WordAt(p, a) * 8 + width + 7) / 8);
    if TypeSize(t) != TypeSize(b) {
      AlignsSize(t, b, llAlign);
      SumAligned(WordAt(p, c), TypeSize(b), a);
      NoFurther(WordAt(p, a), WordAt(p, c) + TypeSize(b), a);
    }
  }

  lemma AlignsSize(t: Base, b: Base, llAlign: int)
    requires (llAlign == 4 || llAlign == 8) && TypeAlign(t, llAlign) <= TypeAlign(b, llAlign)
    ensures TypeSize(b) % TypeAlign(t, llAlign) == 0
  {
  }

  lemma SumAligned(x: int, y: int, a: int)
    requires a in {1, 2, 4, 8} && x % a == 0 && y % a == 0
    ensures (x + y) % a == 0
  {
    assert x == x / a * a && y == y / a * a;
    DivUnique(x + y, a, x / a + y / a, 0);
  }

  lemma TypeForFits(n: int)
    requires n <= 8
    ensures n <= TypeSize(TypeFor(n))
  {
  }

  /** A word that begins before an aligned end also ends by then. */
  lemma NoFurther(w: int, end: int, a: int)
    requires a in {1, 2, 4, 8} && w % a == 0 && end % a == 0 && w < end
    ensures w + a <= end
  {
  }

  /** Looks for an aligned word that holds bits [p, p + width): the alignment only grows and
      the word only moves down, until the type chosen for it asks for no more. */
  method FindWord(p: int, width: int, llAlign: int, ghost size: int) returns (cx: int, px: int, t: Base)
    requires 0 <= p && 0 < width < 64 && (llAlign == 4 || llAlign == 8)
    ensures 0 <= cx && cx * 8 + px == p && 0 <= px < 64
    ensures cx == WordAt(p, TypeAlign(t, llAlign)) && cx % TypeAlign(t, llAlign) == 0
    ensures forall b :: WordFits(p, width, b, llAlign, size) ==> WordFits(p, width, t, llAlign, size)
  {
    hide And, WordAt, TypeFor, WordFits, TypeSize, TypeAlign;
    var c0, align := -1, 1;
    ghost var prev := 0;
    t := Byte;
    while true
      invariant align in {1, 2, 4, 8} && prev in {0, 1, 2, 4, 8} && prev <= align
      invariant if prev == 0 then c0 == -1 && align == 1
                else c0 == WordAt(p, prev) && t == TypeAt(p, width, prev) && align == TypeAlign(t, llAlign)
      invariant forall b :: WordFits(p, width, b, llAlign, size) ==> align <= TypeAlign(b, llAlign)
      invariant prev != 0 ==> forall b :: WordFits(p, width, b, llAlign, size) ==> TypeSize(t) <= TypeSize(b)
      decreases 9 - prev
    {
      px := p;
      WordIsMasked(p, align);
      WordFacts(p, align, align);
      cx := And(px / 8, -align);
      px := px - cx * 8;
      if c0 == cx {
        forall b | WordFits(p, width, b, llAlign, size) ensures WordFits(p, width, t, llAlign, size) {
          NarrowerFits(p, width, llAlign, size, t, b);
        }
        break;
      }
      var s := (px + width + 7) / 8;
      if prev != 0 { WiderWord(p, width, llAlign, prev, align); }
      StartsLow(p, width, llAlign);
      forall b | WordFits(p, width, b, llAlign, size)
        ensures TypeAlign(TypeAt(p, width, align), llAlign) <= TypeAlign(b, llAlign)
        ensures TypeSize(TypeAt(p, width, align)) <= TypeSize(b)
      {
        NotPast(p, width, llAlign, size, align, b);
      }
      t := TypeFor(s);
      prev := align;
      align := TypeAlign(t, llAlign);
      c0 := cx;
    }
  }

  lemma StartsLow(p: int, width: int, llAlign: int)
    requires 0 <= p && 0 < width && (llAlign == 4 || llAlign == 8)
    ensures 1 <= TypeAlign(TypeAt(p, width, 1), llAlign)
  {
  }

  lemma SmallPow2(a: int)
    requires a in {1, 2, 4, 8}
    ensures IsPow2(a)
  {
    assert Pow2(0) == 1 && Pow2(1) == 2 && Pow2(2) == 4 && Pow2(3) == 8;
  }

  lemma RoundedDown(x: int, a: int)
    requires IsPow2(a)
    ensures And(x, -a) == x / a * a
  {
    var k: nat :| a == Pow2(k);
    AndNegPow2(x, k);
  }

  /** Chooses the access of every bit-field; none of them moves. */
  method SecondPass(a: array<Field>, r: Record, size: int)
    requires RecordOk(r)
    requires forall i :: 0 <= i < a.Length ==>
      FieldOk(a[i]) && a[i].access == Own && 0 <= Start(a[i]) && End(a[i]) <= 8 * size
      && (a[i].kind.BitField? ==> 0 <= a[i].offset && 0 <= a[i].bitPos < 64)
    modifies a
    ensures forall i :: 0 <= i < a.Length ==>
      && Accessible(a[i], size) && Start(a[i]) == Start(old(a[i])) && End(a[i]) == End(old(a[i]))
      && a[i] == old(a[i]).(offset := a[i].offset, bitPos := a[i].bitPos, access := a[i].access)
      && (a[i].kind.Ordinary? ==> a[i] == old(a[i])) && (0 <= old(a[i].offset) ==> 0 <= a[i].offset)
      && BestAccess(old(a[i]), a[i], size, r.llAlign)
  {
    var i := 0;
    while i < a.Length
      invariant 0 <= i <= a.Length
      invariant forall k :: i <= k < a.Length ==> a[k] == old(a[k])
      invariant forall k :: 0 <= k < i ==>
        && Accessible(a[k], size) && Start(a[k]) == Start(old(a[k])) && End(a[k]) == End(old(a[k]))
        && a[k] == old(a[k]).(offset := a[k].offset, bitPos := a[k].bitPos, access := a[k].access)
        && (a[k].kind.Ordinary? ==> a[k] == old(a[k])) && (0 <= old(a[k].offset) ==> 0 <= a[k].offset)
        && BestAccess(old(a[k]), a[k], size, r.llAlign)
    {
      a[i] := ChooseAccess(a[i], r, size);
      i := i + 1;
    }
  }

  /** The declared type is kept where it will do, another aligned word is used where there is
      one, and only when there is none the field is accessed byte by byte. */
  ghost predicate BestAccess(f: Field, g: Field, size: int, llAlign: int)
    requires llAlign == 4 || llAlign == 8
  {
    f.kind.BitField? && f.kind.width != 0 ==>
      var s := TypeSize(f.kind.base);
      if f.bitPos + f.kind.width <= s * 8 && f.offset + s <= size then g == f
      else g.access == ByteWise <==> forall b :: !WordFits(Start(f), f.kind.width, b, llAlign, size)
  }

  /** An access by a whole word is in order when the word holds the field and lies inside. */
  lemma WordInside(f: Field, size: int, s: int)
    requires f.kind.BitField? && f.access != ByteWise && 0 <= f.offset && 0 <= f.bitPos < 64
    requires s == match f.access case Own => TypeSize(f.kind.base) case As(b) => TypeSize(b)
    requires f.bitPos + f.kind.width <= 8 * s && f.offset + s <= size
    ensures Accessible(f, size)
  {
  }

  /** The bytes that hold a field lie inside whenever its bits do. */
  lemma BytesInside(f: Field, size: int)
    requires f.kind.BitField? && f.access == ByteWise && 0 <= f.offset && 0 <= f.bitPos < 64 && End(f) <= 8 * size
    ensures Accessible(f, size)
  {
  }

  method ChooseAccess(f: Field, r: Record, size: int) returns (g: Field)
    requires RecordOk(r) && FieldOk(f) && f.access == Own && 0 <= Start(f) && End(f) <= 8 * size
    requires f.kind.BitField? ==> 0 <= f.offset && 0 <= f.bitPos < 64
    ensures Accessible(g, size) && Start(g) == Start(f)
    ensures g == f.(offset := g.offset, bitPos := g.bitPos, access := g.access)
    ensures f.kind.Ordinary? ==> g == f
    ensures 0 <= f.offset ==> 0 <= g.offset
    ensures BestAccess(f, g, size, r.llAlign)
  {
    g := f;
    if f.kind.Ordinary? || f.kind.width == 0 { return; }
    hide Accessible, TypeSize, TypeAlign, WordAt;
    var typeSize := TypeSize(f.kind.base);
    if f.bitPos + f.kind.width <= typeSize * 8 && f.offset + typeSize <= size {
      WordInside(g, size, typeSize);
      return;
    }
    var cx, px, t := FindWord(f.offset * 8 + f.bitPos, f.kind.width, r.llAlign, size);
    var s := TypeSize(t);
    assert WordFits(Start(f), f.kind.width, t, r.llAlign, size) <==> px + f.kind.width <= s * 8 && cx + s <= size;
    if px + f.kind.width <= s * 8 && cx + s <= size {
      g := f.(offset := cx, bitPos := px);
      if s != typeSize { g := g.(access := As(t)); }
      WordInside(g, size, s);
    } else {
      g := f.(access := ByteWise);
      BytesInside(g, size);
    }
  }

  ghost predicate SamePlaces(fs: seq<Field>, gs: seq<Field>)
  {
    |fs| == |gs| && forall i :: 0 <= i < |fs| ==>
      Start(gs[i]) == Start(fs[i]) && gs[i].kind == fs[i].kind && (gs[i].kind.Ordinary? ==> gs[i] == fs[i])
  }

  lemma FirstPassBits(decl: Field, f: Field, r: Record)
    requires FieldOk(decl) && RecordOk(r) && SameDeclaration(decl, f) && Fits(decl, f, r)
    ensures FieldOk(f) && (f.kind.BitField? ==> 0 <= f.bitPos < 64)
  {
    hide Effective;
  }

  lemma Together(decls: seq<Field>, first: seq<Field>, fs: seq<Field>, r: Record, size: int, align: int)
    requires RecordOk(r) && LaidOut(decls, first, r, size, align) && SamePlaces(first, fs)
    requires forall i :: 0 <= i < |fs| ==>
               && End(fs[i]) == End(first[i])
               && fs[i] == first[i].(offset := fs[i].offset, bitPos := fs[i].bitPos, access := fs[i].access)
    requires forall i :: 0 <= i < |fs| ==> 0 <= fs[i].offset
    ensures Disjoint(fs, r.isUnion)
    ensures forall i :: 0 <= i < |fs| ==> SameDeclaration(decls[i], fs[i]) && End(fs[i]) <= 8 * size
  {
    hide Effective, Start, End, Fits;
  }

  /** The whole layout: the places the first pass found, each bit-field with an access that
      stays inside the record. */
  method Layout(a: array<Field>, r: Record) returns (size: int, align: int)
    requires Declared(a[..]) && RecordOk(r)
    modifies a
    ensures IsPow2(align) && size % align == 0 && Disjoint(a[..], r.isUnion)
    ensures ByTheRules(old(a[..]), a[..], r, align)
    ensures forall i :: 0 <= i < a.Length ==>
      SameDeclaration(old(a[i]), a[i]) && End(a[i]) <= 8 * size && Accessible(a[i], size)
    ensures exists first :: LaidOut(old(a[..]), first, r, size, align) && SamePlaces(first, a[..])
  {
    hide Effective, Start, End, Fits, FieldOk, Accessible, ByTheRules;
    ghost var decls := a[..];
    size, align := FirstPass(a, r);
    ghost var first := a[..];
    forall i | 0 <= i < a.Length
      ensures FieldOk(a[i]) && (a[i].kind.BitField? ==> 0 <= a[i].offset && 0 <= a[i].bitPos < 64)
    {
      FirstPassBits(decls[i], first[i], r);
    }
    SecondPass(a, r, size);
    Together(decls, first, a[..], r, size, align);
    SamePlacesByRules(decls, first, a[..], r, align);
  }
}
