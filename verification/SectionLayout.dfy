/** Laying out the sections of an ELF file: their order, their addresses, their places in the
    file, and the two segments they are loaded by. */
module SectionLayout {
  import opened Basics
  import opened IntegerBits
  import opened BitLemmas

  datatype ShType = DYNSYM | STRTAB | HASH | RELX | NOBITS | OTHER

  /** `alloc` and `write` are the flags of these names. */
  datatype Section = Section(alloc: bool, write: bool, shType: ShType, shSize: nat, shAddralign: nat, shAddr: int,
        shOffset: int)

  datatype Phdr = Phdr(offset: int, vaddr: int, filesz: int, memsz: int)

  /** Whether there are program headers, which section is the interpreter (-1: none), the page
      alignment, and the size of the headers in the file. */
  datatype Env = Env(loads: bool, interp: int, sAlign: nat, headers: nat)

  predicate Loaded(env: Env, s: Section) { env.loads && s.alloc }

  /** Read-only before writable; of each, the interpreter, symbol tables, relocations, contents
      and what has no contents; then everything that is not loaded. */
  function Stage(env: Env, secs: seq<Section>, i: nat): nat
    requires i < |secs|
  {
    var s := secs[i];
    if !Loaded(env, s) then 10
    else (if s.write then 5 else 0) +
         (if i == env.interp then 0
          else if s.shType in {DYNSYM, STRTAB, HASH} then 1
          else if s.shType == RELX then 2
          else if s.shType == NOBITS then 4
          else 3)
  }

  // ------------------------------------------------------- placing one section

  datatype St = St(ps: seq<Section>, addr: int, off: int, ph: Phdr, seg: nat)

  function FileSize(s: Section): nat { if s.shType == NOBITS then 0 else s.shSize }

  function PlacedAt(s: Section, addr: int, off: int): Section
  {
    var a := RoundUp(addr, s.shAddralign);
    s.(shAddr := a, shOffset := off + (a - addr))
  }

  /** A loaded section is appended, and opens its segment if that has none yet. */
  function Next(st: St, s: Section): St
  {
    var p := PlacedAt(s, st.addr, st.off);
    St(st.ps + [p], p.shAddr + s.shSize, p.shOffset + FileSize(s),
       if st.ph.offset == 0 then st.ph.(offset := p.shOffset, vaddr := p.shAddr) else st.ph, st.seg)
  }

  /** A section that is not loaded follows in the file. */
  function NextRest(st: St, s: Section): St
  {
    var p := s.(shOffset := RoundUp(st.off, s.shAddralign));
    st.(ps := st.ps + [p], off := p.shOffset + FileSize(s))
  }

  // --------------------------------------------------------------- the geometry

  predicate EndsBy(env: Env, s: Section, addr: int, off: int)
  {
    (Loaded(env, s) ==> s.shAddr + s.shSize <= addr) && s.shOffset + FileSize(s) <= off
  }

  /** The memory of s ends at an address and its bytes at an offset. */
  predicate EndsAt(s: Section, addr: int, off: int)
  {
    s.shAddr + s.shSize == addr && s.shOffset + FileSize(s) == off
  }

  /** x lies before y, in memory if both are loaded, and in the file. */
  predicate Clear(env: Env, x: Section, y: Section)
  {
    (Loaded(env, x) && Loaded(env, y) ==> x.shAddr + x.shSize <= y.shAddr) && x.shOffset + FileSize(x) <= y.shOffset
  }

  predicate Aligned(env: Env, s: Section)
  {
    0 < s.shAddralign && if Loaded(env, s) then s.shAddr % s.shAddralign == 0 else s.shOffset % s.shAddralign == 0
  }

  /** Sections in order, each aligned, after the headers and clear of the ones before. */
  ghost predicate InOrder(env: Env, st: St)
  {
    && 0 < env.headers <= st.off
    && (forall a :: 0 <= a < |st.ps| ==>
         Aligned(env, st.ps[a]) && env.headers <= st.ps[a].shOffset && EndsBy(env, st.ps[a], st.addr, st.off))
    && (forall a, b :: 0 <= a < b < |st.ps| ==> Clear(env, st.ps[a], st.ps[b]))
  }

  /** The segment being filled starts with its first section and ends with its last one. */
  ghost predicate Opened(env: Env, st: St)
  {
    && st.seg <= |st.ps|
    && (if st.seg == |st.ps| then st.ph == Phdr(0, 0, 0, 0)
        else
          && st.ph.offset == st.ps[st.seg].shOffset > 0 && st.ph.offset <= st.off
          && st.ph.vaddr == st.ps[st.seg].shAddr <= st.addr
          && EndsAt(st.ps[|st.ps| - 1], st.addr, st.off))
    && (forall a :: st.seg <= a < |st.ps| ==> st.ph.offset <= st.ps[a].shOffset && st.ph.vaddr <= st.ps[a].shAddr)
  }

  /** What placing more sections does: the segment starts no earlier if it had not started. */
  ghost predicate Grown(from: St, to: St)
  {
    && from.ps <= to.ps && from.seg == to.seg && from.addr <= to.addr && from.off <= to.off
    && (to.ph == from.ph || (from.addr <= to.ph.vaddr && from.off <= to.ph.offset))
  }

  lemma GrownStart(st: St)
    ensures Grown(st, st)
  {
  }

  lemma GrownOn(a: St, b: St, c: St)
    requires Grown(a, b) && Grown(b, c)
    ensures Grown(a, c)
  {
  }

  lemma NextInOrder(env: Env, st: St, s: Section)
    requires InOrder(env, st) && Opened(env, st) && IsPow2(s.shAddralign) && Loaded(env, s)
    ensures InOrder(env, Next(st, s)) && Opened(env, Next(st, s))
    ensures st.addr <= PlacedAt(s, st.addr, st.off).shAddr <= Next(st, s).addr && Grown(st, Next(st, s))
  {
    hide RoundUp;
    RoundUpIsLeastMultiple(st.addr, s.shAddralign);
  }

  lemma NextRestInOrder(env: Env, st: St, s: Section)
    requires InOrder(env, st) && IsPow2(s.shAddralign) && !Loaded(env, s)
    ensures InOrder(env, NextRest(st, s)) && st.off <= NextRest(st, s).off
  {
    hide RoundUp;
    RoundUpIsLeastMultiple(st.off, s.shAddralign);
  }

  // -------------------------------------------------- offsets follow addresses

  predicate Congruent(m: nat, a: int, b: int) { 0 < m && (a - b) % m == 0 }

  /** Address and offset differ by whole pages, and by what was skipped before. */
  predicate Matches(env: Env, s: Section, skipped: nat)
  {
    Loaded(env, s) && s.shType != NOBITS ==>
      Congruent(env.sAlign, s.shAddr, s.shOffset + if s.write then skipped else 0)
  }

  ghost predicate AllMatch(env: Env, ps: seq<Section>, skipped: nat)
  {
    forall a :: 0 <= a < |ps| ==> Matches(env, ps[a], skipped)
  }

  lemma NextMatches(env: Env, st: St, s: Section, skipped: nat, k: nat)
    requires AllMatch(env, st.ps, skipped) && Congruent(env.sAlign, st.addr, st.off + k)
    requires s.shType == NOBITS || k == if s.write then skipped else 0
    ensures AllMatch(env, Next(st, s).ps, skipped)
    ensures Congruent(env.sAlign, Next(st, s).addr, Next(st, s).off + k + if s.shType == NOBITS then s.shSize else 0)
  {
    hide RoundUp;
    var p := PlacedAt(s, st.addr, st.off);
    assert p.shAddr - (p.shOffset + k) == st.addr - (st.off + k);
  }

  // ----------------------------------------------------------- no room is wasted

  /** A page, unless the address begins one. */
  function PageFrom(env: Env, addr: int): nat
  {
    if env.sAlign == 0 || addr % env.sAlign == 0 then 0 else env.sAlign
  }

  /** y follows x at the next place that its alignment allows, in the file, and in memory if both are
      loaded; where the second segment begins within a page, that is mapped again. */
  predicate Adjoins(env: Env, x: Section, y: Section)
  {
    && y.shOffset < x.shOffset + FileSize(x) + y.shAddralign
    && (Loaded(env, x) && Loaded(env, y) ==>
          y.shAddr < x.shAddr + x.shSize + y.shAddralign +
                     if x.write == y.write then 0 else PageFrom(env, x.shAddr + x.shSize))
  }

  predicate BeginsFile(env: Env, s: Section) { s.shOffset < env.headers + env.sAlign + s.shAddralign }

  /** Each section adjoins the one before it, and what comes next adjoins the last one. */
  ghost predicate Adjoining(env: Env, st: St)
  {
    && (forall a :: 0 < a < |st.ps| ==> Adjoins(env, st.ps[a - 1], st.ps[a]))
    && (if st.ps == [] then st.off < env.headers + env.sAlign
        else
          && BeginsFile(env, st.ps[0])
          && var last := st.ps[|st.ps| - 1];
             && st.off == last.shOffset + FileSize(last)
             && (Loaded(env, last) ==>
                   var end := last.shAddr + last.shSize;
                   if st.seg == |st.ps| && !last.write then st.addr <= end + PageFrom(env, end) else st.addr == end))
  }

  lemma NextAdjoining(env: Env, st: St, s: Section)
    requires Adjoining(env, st) && IsPow2(s.shAddralign) && st.seg <= |st.ps|
    requires st.ps != [] && st.seg == |st.ps| ==> s.write
    ensures Adjoining(env, Next(st, s))
  {
    hide RoundUp, PageFrom;
    RoundUpIsLeastMultiple(st.addr, s.shAddralign);
    var st' := Next(st, s);
    var p := st'.ps[|st.ps|];
    assert st'.ps == st.ps + [p];
    if st.ps != [] { assert Adjoins(env, st.ps[|st.ps| - 1], p); }
  }

  lemma NextRestAdjoining(env: Env, st: St, s: Section)
    requires Adjoining(env, st) && IsPow2(s.shAddralign) && !Loaded(env, s)
    ensures Adjoining(env, NextRest(st, s))
  {
    hide RoundUp, PageFrom;
    RoundUpIsLeastMultiple(st.off, s.shAddralign);
    var st' := NextRest(st, s);
    var p := st'.ps[|st.ps|];
    assert st'.ps == st.ps + [p];
    if st.ps != [] { assert Adjoins(env, st.ps[|st.ps| - 1], p); }
  }

  lemma JumpAdjoining(env: Env, st: St, addr: int)
    requires Adjoining(env, st) && st.seg == 0 && addr <= st.addr + PageFrom(env, st.addr)
    requires forall a :: 0 <= a < |st.ps| ==> !st.ps[a].write
    ensures Adjoining(env, St(st.ps, addr, st.off, Phdr(0, 0, 0, 0), |st.ps|))
  {
    hide FileSize, PageFrom;
  }

  // -------------------------------------------------------- which, and in what order

  /** The same sections, wherever they are placed. */
  ghost predicate SameKinds(a: seq<Section>, b: seq<Section>)
  {
    |a| == |b| && forall i :: 0 <= i < |a| ==> a[i] == b[i].(shAddr := a[i].shAddr, shOffset := a[i].shOffset)
  }

  /** What has been placed before the i-th section is looked at in stage t. */
  predicate IsBefore(env: Env, secs: seq<Section>, x: nat, t: nat, i: nat)
  {
    x < |secs| && (Stage(env, secs, x) < t || (Stage(env, secs, x) == t && x < i))
  }

  ghost predicate OrderedTo(env: Env, secs: seq<Section>, order: seq<nat>, t: nat, i: nat)
  {
    && 1 <= |order| && order[0] == 0
    && (forall a :: 1 <= a < |order| ==> 1 <= order[a] && IsBefore(env, secs, order[a], t, i))
    && (forall a, b :: 1 <= a < b < |order| ==> IsBefore(env, secs, order[a], Stage(env, secs, order[b]), order[b]))
    && (forall x: nat :: 1 <= x && IsBefore(env, secs, x, t, i) ==> x in order)
  }

  lemma OrderSkip(env: Env, secs: seq<Section>, order: seq<nat>, t: nat, i: nat)
    requires OrderedTo(env, secs, order, t, i) && 1 <= i < |secs| && Stage(env, secs, i) != t
    ensures OrderedTo(env, secs, order, t, i + 1)
  {
    assert forall x: nat :: IsBefore(env, secs, x, t, i + 1) <==> IsBefore(env, secs, x, t, i);
  }

  lemma OrderTake(env: Env, secs: seq<Section>, order: seq<nat>, t: nat, i: nat)
    requires OrderedTo(env, secs, order, t, i) && 1 <= i < |secs| && Stage(env, secs, i) == t
    ensures OrderedTo(env, secs, order + [i], t, i + 1) && i !in order[1..]
  {
    forall x: nat ensures IsBefore(env, secs, x, t, i + 1) <==> IsBefore(env, secs, x, t, i) || x == i {
      if x == i { assert Stage(env, secs, x) == t; }
    }
    var order' := order + [i];
    forall a, b | 1 <= a < b < |order'| ensures IsBefore(env, secs, order'[a], Stage(env, secs, order'[b]), order'[b]) {
      if b == |order| { assert IsBefore(env, secs, order[a], t, i); }
    }
    forall a | 1 <= a < |order| ensures order[a] != i {
      assert IsBefore(env, secs, order[a], t, i);
    }
  }

  lemma OrderNext(env: Env, secs: seq<Section>, order: seq<nat>, t: nat)
    requires OrderedTo(env, secs, order, t, |secs|)
    ensures OrderedTo(env, secs, order, t + 1, 1)
  {
    assert forall x: nat :: x >= 1 ==> (IsBefore(env, secs, x, t + 1, 1) <==> IsBefore(env, secs, x, t, |secs|));
    forall a | 1 <= a < |order| ensures IsBefore(env, secs, order[a], t + 1, 1) {
      assert IsBefore(env, secs, order[a], t, |secs|);
    }
  }

  predicate IsTable(s: Section) { s.shType == DYNSYM || s.shType == STRTAB || s.shType == HASH }

  /** x may come before y: what is loaded before what is not, and of that the read-only before the
      writable; of each of these the interpreter before all, then symbol, string and hash tables,
      relocations, contents, and last what has no contents; in the old order otherwise. */
  predicate ComesBefore(env: Env, secs: seq<Section>, x: nat, y: nat)
    requires x < |secs| && y < |secs|
  {
    var (s, t) := (secs[x], secs[y]);
    && (env.loads && t.alloc ==> s.alloc && (s.write ==> t.write))
    && (env.loads && s.alloc && t.alloc && s.write == t.write ==>
          && y != env.interp
          && (IsTable(t) ==> x == env.interp || IsTable(s))
          && (t.shType == RELX ==> x == env.interp || IsTable(s) || s.shType == RELX)
          && (t.shType == OTHER ==> x == env.interp || s.shType != NOBITS)
          && (x != env.interp && ((IsTable(s) && IsTable(t)) || s.shType == t.shType) ==> x < y))
    && (!env.loads || (!s.alloc && !t.alloc) ==> x < y)
  }

  /** The order puts every section behind those that come before it, in memory and in the file. */
  ghost predicate InKindOrder(env: Env, secs: seq<Section>, now: seq<Section>, order: seq<nat>)
  {
    forall a, b :: 1 <= a < b < |order| ==>
      && order[a] < |secs| == |now| && order[b] < |secs|
      && ComesBefore(env, secs, order[a], order[b])
      && Clear(env, now[order[a]], now[order[b]])
  }

  /** And right behind the one before it. */
  ghost predicate Compact(env: Env, now: seq<Section>, order: seq<nat>)
  {
    && (forall a :: 0 < a < |order| ==> order[a] < |now|)
    && (forall a :: 1 < a < |order| ==> Adjoins(env, now[order[a - 1]], now[order[a]]))
    && (|order| > 1 ==> BeginsFile(env, now[order[1]]))
  }

  lemma CompactAfter(env: Env, now: seq<Section>, order: seq<nat>, st: St)
    requires Linked(now, order, st.ps) && Adjoining(env, st)
    ensures Compact(env, now, order)
  {
    hide Adjoins, BeginsFile;
    forall a | 1 < a < |order| ensures Adjoins(env, now[order[a - 1]], now[order[a]]) {
      assert Adjoins(env, st.ps[a - 2], st.ps[a - 1]);
    }
  }

  lemma StagesAreKinds(env: Env, secs: seq<Section>, x: nat, y: nat)
    requires x < |secs| && y < |secs| && IsBefore(env, secs, x, Stage(env, secs, y), y)
    ensures ComesBefore(env, secs, x, y)
  {
  }

  lemma OrderedByKind(env: Env, secs: seq<Section>, now: seq<Section>, order: seq<nat>, st: St)
    requires |now| == |secs| && OrderedTo(env, secs, order, 11, 1) && Linked(now, order, st.ps) && InOrder(env, st)
    ensures InKindOrder(env, secs, now, order)
  {
    hide Stage, Clear, ComesBefore, Aligned, EndsBy;
    forall a, b | 1 <= a < b < |order|
      ensures order[a] < |secs| == |now| && order[b] < |secs|
      ensures ComesBefore(env, secs, order[a], order[b]) && Clear(env, now[order[a]], now[order[b]])
    {
      assert IsBefore(env, secs, order[a], Stage(env, secs, order[b]), order[b]);
      assert IsBefore(env, secs, order[b], 11, 1);
      StagesAreKinds(env, secs, order[a], order[b]);
      assert Clear(env, st.ps[a - 1], st.ps[b - 1]);
    }
  }

  /** The records placed are those in the section table. */
  ghost predicate Linked(secs: seq<Section>, order: seq<nat>, ps: seq<Section>)
  {
    |ps| + 1 == |order| && forall a :: 1 <= a < |order| ==> order[a] < |secs| && ps[a - 1] == secs[order[a]]
  }

  lemma LinkedTake(secs: seq<Section>, order: seq<nat>, ps: seq<Section>, i: nat, s: Section)
    requires Linked(secs, order, ps) && i < |secs| && i !in order[1..]
    ensures Linked(secs[i := s], order + [i], ps + [s])
  {
    forall a | 1 <= a < |order| ensures order[a] != i {
      assert order[a] in order[1..] by { assert order[1..][a - 1] == order[a]; }
    }
  }

  // --------------------------------------------------------------- permutations

  function Below(n: nat): (r: set<nat>)
    ensures |r| == n && forall x: nat :: x in r <==> x < n
  {
    if n == 0 then {} else Below(n - 1) + {n - 1}
  }

  function Elements(s: seq<nat>): (r: set<nat>)
    ensures forall x :: x in r <==> x in s
  {
    if s == [] then {}
    else
      assert s == s[..|s| - 1] + [s[|s| - 1]];
      Elements(s[..|s| - 1]) + {s[|s| - 1]}
  }

  lemma LastIsNew(s: seq<nat>)
    requires s != [] && forall i, j :: 0 <= i < j < |s| ==> s[i] != s[j]
    ensures s[|s| - 1] !in Elements(s[..|s| - 1])
    ensures var r := s[..|s| - 1]; forall i, j :: 0 <= i < j < |r| ==> r[i] != r[j]
  {
  }

  lemma {:induction false} SizeOf(s: seq<nat>)
    requires forall i, j :: 0 <= i < j < |s| ==> s[i] != s[j]
    ensures |Elements(s)| == |s|
  {
    if s != [] {
      var last := |s| - 1;
      LastIsNew(s);
      SizeOf(s[..last]);
    }
  }

  lemma AllBelow(order: seq<nat>, n: nat)
    requires forall i, j :: 0 <= i < j < |order| ==> order[i] != order[j]
    requires forall x: nat :: x in order <==> x < n
    ensures IsPermutation(order, n)
  {
    hide Elements, Below;
    SizeOf(order);
    forall x: nat ensures x in Elements(order) <==> x < n { assert x in Elements(order) <==> x in order; }
    SameElements(Elements(order), Below(n), n);
    assert |order| == n;
    forall i | 0 <= i < n ensures order[i] < n { assert order[i] in order; }
  }

  lemma SameElements(a: set<nat>, b: set<nat>, n: nat)
    requires forall x: nat :: x in a <==> x < n
    requires forall x: nat :: x in b <==> x < n
    ensures |a| == |b|
  {
    assert a == b;
  }

  lemma OrderDistinct(env: Env, secs: seq<Section>, order: seq<nat>)
    requires OrderedTo(env, secs, order, 11, 1)
    ensures forall a, b :: 0 <= a < b < |order| ==> order[a] != order[b]
  {
    forall a, b | 0 <= a < b < |order| ensures order[a] != order[b] {
      if a >= 1 { assert IsBefore(env, secs, order[a], Stage(env, secs, order[b]), order[b]); }
    }
  }

  /** Main result: the order is a permutation of all sections, the null section first. */
  lemma OrderIsPermutation(env: Env, secs: seq<Section>, order: seq<nat>)
    requires OrderedTo(env, secs, order, 11, 1) && |secs| >= 1
    ensures IsPermutation(order, |secs|)
  {
    OrderDistinct(env, secs, order);
    OrderCovers(env, secs, order);
    hide *;
    AllBelow(order, |secs|);
  }

  lemma OrderCovers(env: Env, secs: seq<Section>, order: seq<nat>)
    requires OrderedTo(env, secs, order, 11, 1) && |secs| >= 1
    ensures forall x: nat :: x in order <==> x < |secs|
  {
    forall x: nat ensures x in order <==> x < |secs| {
      if x in order {
        var a :| 0 <= a < |order| && order[a] == x;
        if a >= 1 { assert IsBefore(env, secs, order[a], 11, 1); }
      }
      if 1 <= x < |secs| { assert IsBefore(env, secs, x, 11, 1); }
    }
  }

  // ------------------------------------------------------------- the segments

  function RoundDown(x: int, a: int): int { And(x, 0 - a) }

  lemma RoundDownIsMultiple(x: int, a: int)
    requires IsPow2(a)
    ensures 0 < a && RoundDown(x, a) == x / a * a && x - a < RoundDown(x, a) <= x && RoundDown(x, a) % a == 0
  {
    var k: nat :| a == Pow2(k);
    AndNegPow2(x, k);
    assert x == x / a * a + x % a;
    DivUnique(x / a * a, a, x / a, 0);
  }

  /** The low bits, by a mask. */
  function LowBits(x: int, a: int): int { And(x, a - 1) }

  lemma LowBitsIsRemainder(x: int, a: int)
    requires IsPow2(a)
    ensures 0 < a && LowBits(x, a) == x % a
  {
    var k: nat :| a == Pow2(k);
    AndOnes(x, k);
  }

  /** A segment loads a section: its memory, and its bytes in the file. */
  predicate Covers(env: Env, ph: Phdr, s: Section)
  {
    Loaded(env, s) ==>
      && ph.vaddr <= s.shAddr && s.shAddr + s.shSize <= ph.vaddr + ph.memsz
      && ph.offset <= s.shOffset && s.shOffset + FileSize(s) <= ph.offset + ph.filesz
  }

  /** The program header as it is left: the first one takes in the headers of the file. */
  function Closed(env: Env, j: nat, ph: Phdr, addr: int, off: int): Phdr
  {
    var p := if j == 0
             then ph.(offset := RoundDown(ph.offset, env.sAlign), vaddr := RoundDown(ph.vaddr, env.sAlign))
             else ph;
    p.(filesz := off - p.offset, memsz := addr - p.vaddr)
  }

  lemma ClosedCovers(env: Env, st: St, j: nat)
    requires IsPow2(env.sAlign) && InOrder(env, st) && Opened(env, st)
    ensures forall a :: st.seg <= a < |st.ps| ==> Covers(env, Closed(env, j, st.ph, st.addr, st.off), st.ps[a])
  {
    hide RoundDown;
    RoundDownIsMultiple(st.ph.offset, env.sAlign);
    RoundDownIsMultiple(st.ph.vaddr, env.sAlign);
  }

  /** Read-only sections end, and writable ones begin, at a page boundary. */
  ghost predicate Parted(env: Env, ps: seq<Section>, boundary: int)
  {
    forall a :: 0 <= a < |ps| && Loaded(env, ps[a]) ==>
      if ps[a].write then boundary <= ps[a].shAddr else ps[a].shAddr + ps[a].shSize <= boundary
  }

  /** The address for the second segment: the page that the first one ends in is mapped twice. */
  function Jump(env: Env, addr: int): int { if LowBits(addr, env.sAlign) != 0 then addr + env.sAlign else addr }

  lemma JumpIs(env: Env, addr: int)
    requires IsPow2(env.sAlign)
    ensures 0 < env.sAlign && Jump(env, addr) == if addr % env.sAlign == 0 then addr else addr + env.sAlign
  {
    LowBitsIsRemainder(addr, env.sAlign);
  }

  lemma JumpParts(env: Env, st: St)
    requires IsPow2(env.sAlign) && InOrder(env, st) && forall a :: 0 <= a < |st.ps| ==> !st.ps[a].write
    ensures var b := RoundDown(Jump(env, st.addr), env.sAlign);
            && 0 < env.sAlign && b % env.sAlign == 0 && st.addr <= b <= Jump(env, st.addr)
            && Parted(env, st.ps, b) && (Jump(env, st.addr) - st.addr) % env.sAlign == 0
  {
    hide LowBits, RoundDown;
    LowBitsIsRemainder(st.addr, env.sAlign);
    RoundDownIsMultiple(st.addr, env.sAlign);
    RoundDownIsMultiple(Jump(env, st.addr), env.sAlign);
    if st.addr % env.sAlign != 0 { NextPage(st.addr, env.sAlign); }
  }

  lemma NextPage(x: int, a: int)
    requires 0 < a
    ensures (x + a) / a * a == x / a * a + a && a % a == 0
  {
    DivUnique(x + a, a, x / a + 1, x % a);
    DivUnique(a, a, 1, 0);
    assert (x / a + 1) * a == x / a * a + a;
  }

  /** So a writable section with contents is where the loader expects it, its offset congruent to
      its address modulo the page size, exactly if the read-only sections without contents make
      up whole pages. */
  lemma WritableCongruentIff(env: Env, s: Section, skipped: nat)
    requires Matches(env, s, skipped) && Loaded(env, s) && s.shType != NOBITS && s.write
    ensures Congruent(env.sAlign, s.shAddr, s.shOffset) <==> skipped % env.sAlign == 0
  {
    SkippedCongruentIff(env.sAlign, s.shAddr, s.shOffset, skipped);
  }

  lemma SkippedCongruentIff(m: nat, a: int, b: int, skipped: nat)
    requires Congruent(m, a, b + skipped)
    ensures Congruent(m, a, b) <==> skipped % m == 0
  {
    var d := a - b - skipped;
    var (q, r) := (d / m, skipped / m);
    assert d == q * m + 0 && skipped == r * m + skipped % m;
    assert d + skipped == (q + r) * m + skipped % m;
    DivUnique(d + skipped, m, q + r, skipped % m);
  }

  // ------------------------------------------------------ the state of the pass

  /** The memory taken by read-only sections that have no contents, among the first i. */
  function ReadOnlyNobits(env: Env, secs: seq<Section>, i: nat): nat
    requires i <= |secs|
  {
    if i <= 1 then 0
    else ReadOnlyNobits(env, secs, i - 1) + if Stage(env, secs, i - 1) == 4 then secs[i - 1].shSize else 0
  }

  /** How far addresses have run ahead of offsets, up to whole pages. */
  function Skipped(env: Env, secs: seq<Section>, t: nat, i: nat): nat
    requires i <= |secs|
  {
    if t < 4 then 0 else if t == 4 then ReadOnlyNobits(env, secs, i) else ReadOnlyNobits(env, secs, |secs|)
  }

  /** What the layout relies on. */
  ghost predicate Usable(env: Env, secs: seq<Section>)
  {
    && IsPow2(env.sAlign) && 0 < env.headers && 1 <= |secs|
    && (forall i :: 1 <= i < |secs| ==> IsPow2(secs[i].shAddralign))
    && (forall i: nat :: i < |secs| && i == env.interp ==> secs[i].shType != NOBITS)
  }

  /** The segment being filled starts at an address congruent to its offset and what was skipped. */
  predicate Started(env: Env, st: St, skipped: nat)
  {
    st.seg < |st.ps| ==> Congruent(env.sAlign, st.ph.vaddr, st.ph.offset + skipped)
  }

  ghost predicate AllLoaded(env: Env, ps: seq<Section>)
  {
    forall a :: 0 <= a < |ps| ==> Loaded(env, ps[a])
  }

  /** Before the i-th section is looked at in stage t; `secs` are the sections as given. */
  ghost predicate Progress(env: Env, secs: seq<Section>, now: seq<Section>, order: seq<nat>, st: St, t: nat, i: nat,
        boundary: int)
    requires i <= |secs|
  {
    && SameKinds(now, secs) && OrderedTo(env, secs, order, t, i) && Linked(now, order, st.ps) && InOrder(env, st)
    && AllMatch(env, st.ps, ReadOnlyNobits(env, secs, |secs|))
    && (t < 9 || (t == 9 && st.seg == |st.ps|) ==>
          Congruent(env.sAlign, st.addr, st.off + Skipped(env, secs, t, i)))
    && (t < 10 ==> Started(env, st, if t < 5 then 0 else ReadOnlyNobits(env, secs, |secs|)) && AllLoaded(env, st.ps))
    && (t < 5 ==> st.seg == 0)
    && (if t < 5 then forall a :: 0 <= a < |st.ps| ==> !st.ps[a].write
        else && Parted(env, st.ps, boundary) && boundary <= st.addr
             && forall a :: 0 <= a < st.seg && a < |st.ps| ==> !st.ps[a].write)
    && (t < 10 ==> Opened(env, st)) && st.seg <= |st.ps|
    && (5 <= t < 10 ==> forall a :: st.seg <= a < |st.ps| ==> st.ps[a].write)
    && Adjoining(env, st)
  }

  lemma StageSame(env: Env, secs: seq<Section>, now: seq<Section>, i: nat)
    requires SameKinds(now, secs) && i < |secs|
    ensures Stage(env, now, i) == Stage(env, secs, i)
  {
  }

  lemma StageFacts(env: Env, secs: seq<Section>, i: nat, t: nat)
    requires i < |secs| && Stage(env, secs, i) == t && (i == env.interp ==> secs[i].shType != NOBITS)
    ensures t < 10 ==>
              Loaded(env, secs[i]) && (secs[i].write <==> t >= 5) && (secs[i].shType == NOBITS <==> t == 4 || t == 9)
    ensures t == 10 ==> !Loaded(env, secs[i])
    ensures t <= 10
  {
  }

  lemma SkippedStep(env: Env, secs: seq<Section>, t: nat, i: nat)
    requires 1 <= i < |secs| && (i == env.interp ==> secs[i].shType != NOBITS)
    ensures Skipped(env, secs, t, i + 1) ==
              Skipped(env, secs, t, i) + if t == 4 && Stage(env, secs, i) == t then secs[i].shSize else 0
  {
  }

  lemma SkipSection(env: Env, secs: seq<Section>, now: seq<Section>, order: seq<nat>, st: St, t: nat, i: nat,
        boundary: int)
    requires 1 <= i < |secs| && Usable(env, secs) && Progress(env, secs, now, order, st, t, i, boundary)
    requires Stage(env, secs, i) != t
    ensures Progress(env, secs, now, order, st, t, i + 1, boundary)
  {
    hide SameKinds, OrderedTo, Linked, InOrder, AllMatch, Parted, Opened, Stage, Skipped, Congruent, Adjoining;
    OrderSkip(env, secs, order, t, i);
    SkippedStep(env, secs, t, i);
  }

  lemma TakeSection(env: Env, secs: seq<Section>, now: seq<Section>, order: seq<nat>, st: St, t: nat, i: nat,
        boundary: int)
    requires 1 <= i < |secs| && t < 10 && Usable(env, secs) && Progress(env, secs, now, order, st, t, i, boundary)
    requires Stage(env, secs, i) == t && |now| == |secs|
    ensures var p := PlacedAt(now[i], st.addr, st.off);
            Progress(env, secs, now[i := p], order + [i], Next(st, now[i]), t, i + 1, boundary)
    ensures Grown(st, Next(st, now[i]))
  {
    var s := now[i];
    StageFacts(env, secs, i, t);
    SkippedStep(env, secs, t, i);
    OrderTake(env, secs, order, t, i);
    LinkedTake(now, order, st.ps, i, PlacedAt(s, st.addr, st.off));
    NextInOrder(env, st, s);
    NextAdjoining(env, st, s);
    hide Adjoining;
    var ro := ReadOnlyNobits(env, secs, |secs|);
    if t == 4 && st.ps == [] { NothingSkipped(env, secs, order, i); }
    StartedStep(env, st, s, t, Skipped(env, secs, t, i), if t < 5 then 0 else ro);
    hide OrderedTo, Linked, InOrder, Opened, Stage, IsPow2;
    MatchStep(env, st, s, ro, t, Skipped(env, secs, t, i));
    PartedStep(env, st, s, t, boundary);
    hide Parted, AllMatch, Congruent, Skipped, Started;
  }

  lemma StartedStep(env: Env, st: St, s: Section, t: nat, k: nat, skipped: nat)
    requires t < 10 && Opened(env, st) && Loaded(env, s) && Started(env, st, skipped) && AllLoaded(env, st.ps)
    requires st.seg == |st.ps| ==> Congruent(env.sAlign, st.addr, st.off + k) && k == skipped
    ensures Started(env, Next(st, s), skipped) && AllLoaded(env, Next(st, s).ps)
  {
    hide RoundUp;
    var p := PlacedAt(s, st.addr, st.off);
    assert p.shAddr - (p.shOffset + k) == st.addr - (st.off + k);
  }

  /** As long as nothing is placed, nothing is skipped. */
  lemma NothingSkipped(env: Env, secs: seq<Section>, order: seq<nat>, i: nat)
    requires |order| == 1 && i <= |secs| && OrderedTo(env, secs, order, 4, i)
    ensures ReadOnlyNobits(env, secs, i) == 0
  {
    forall x: nat | 1 <= x < i ensures Stage(env, secs, x) != 4 {
      assert !IsBefore(env, secs, x, 4, i);
    }
    hide Stage, OrderedTo;
    NoneSkipped(env, secs, i);
  }

  lemma {:induction false} NoneSkipped(env: Env, secs: seq<Section>, i: nat)
    requires i <= |secs| && forall x: nat :: 1 <= x < i ==> Stage(env, secs, x) != 4
    ensures ReadOnlyNobits(env, secs, i) == 0
  {
    if i > 1 { NoneSkipped(env, secs, i - 1); }
  }

  lemma MatchStep(env: Env, st: St, s: Section, ro: nat, t: nat, k: nat)
    requires t < 10 && AllMatch(env, st.ps, ro) && (t < 9 ==> Congruent(env.sAlign, st.addr, st.off + k))
    requires (s.write <==> t >= 5) && (s.shType == NOBITS <==> t == 4 || t == 9)
    requires (t < 4 ==> k == 0) && (t >= 5 ==> k == ro)
    ensures AllMatch(env, Next(st, s).ps, ro)
    ensures t < 9 ==> Congruent(env.sAlign, Next(st, s).addr, Next(st, s).off + k + if t == 4 then s.shSize else 0)
  {
    hide RoundUp;
    if t < 9 {
      NextMatches(env, st, s, ro, k);
    }
  }

  lemma PartedStep(env: Env, st: St, s: Section, t: nat, boundary: int)
    requires t < 10 && (s.write <==> t >= 5) && st.addr <= PlacedAt(s, st.addr, st.off).shAddr <= Next(st, s).addr
    requires if t < 5 then forall a :: 0 <= a < |st.ps| ==> !st.ps[a].write
             else Parted(env, st.ps, boundary) && boundary <= st.addr
    ensures if t < 5 then forall a :: 0 <= a < |st.ps| + 1 ==> !Next(st, s).ps[a].write
            else Parted(env, Next(st, s).ps, boundary) && boundary <= Next(st, s).addr
    ensures t >= 5 && (forall a :: st.seg <= a < |st.ps| ==> st.ps[a].write) ==>
              forall a :: st.seg <= a < |st.ps| + 1 ==> Next(st, s).ps[a].write
  {
    hide RoundUp;
  }

  lemma NextStage(env: Env, secs: seq<Section>, now: seq<Section>, order: seq<nat>, st: St, t: nat, boundary: int)
    requires t != 4 && t < 10 && Usable(env, secs) && Progress(env, secs, now, order, st, t, |secs|, boundary)
    ensures Progress(env, secs, now, order, st, t + 1, 1, boundary)
  {
    hide SameKinds, Linked, InOrder, AllMatch, Parted, Opened, Stage, Congruent, Adjoining;
    OrderNext(env, secs, order, t);
    assert ReadOnlyNobits(env, secs, 1) == 0;
  }

  /** Between the segments: the boundary is fixed, and the second segment is empty yet. */
  lemma NextSegment(env: Env, secs: seq<Section>, now: seq<Section>, order: seq<nat>, st: St, boundary: int)
    requires Usable(env, secs) && Progress(env, secs, now, order, st, 4, |secs|, boundary)
    ensures var st' := St(st.ps, Jump(env, st.addr), st.off, Phdr(0, 0, 0, 0), |st.ps|);
            Progress(env, secs, now, order, st', 5, 1, RoundDown(Jump(env, st.addr), env.sAlign))
    ensures RoundDown(Jump(env, st.addr), env.sAlign) % env.sAlign == 0
    ensures st.addr <= RoundDown(Jump(env, st.addr), env.sAlign) <= Jump(env, st.addr)
  {
    hide SameKinds, Linked, AllMatch, Stage, Jump, RoundDown, IsPow2;
    OrderNext(env, secs, order, 4);
    hide OrderedTo;
    JumpParts(env, st);
    JumpIs(env, st.addr);
    JumpAdjoining(env, st, Jump(env, st.addr));
    hide Parted, Adjoining;
    var k := ReadOnlyNobits(env, secs, |secs|);
    CongruentShift(env.sAlign, st.addr, Jump(env, st.addr), st.off + k);
    LaterInOrder(env, st, Jump(env, st.addr));
    hide InOrder, Congruent;
  }

  lemma CongruentShift(m: nat, a: int, a': int, b: int)
    requires Congruent(m, a, b) && (a' - a) % m == 0
    ensures Congruent(m, a', b)
  {
    var (q, r) := ((a - b) / m, (a' - a) / m);
    assert a - b == q * m && a' - a == r * m;
    assert a' - b == (q + r) * m + 0;
    DivUnique(a' - b, m, q + r, 0);
  }

  lemma LaterInOrder(env: Env, st: St, addr: int)
    requires InOrder(env, st) && st.addr <= addr
    ensures InOrder(env, St(st.ps, addr, st.off, Phdr(0, 0, 0, 0), |st.ps|))
  {
  }

  lemma TakeRest(env: Env, secs: seq<Section>, now: seq<Section>, order: seq<nat>, st: St, i: nat, boundary: int)
    requires 1 <= i < |secs| && Usable(env, secs) && Progress(env, secs, now, order, st, 10, i, boundary)
    requires Stage(env, secs, i) == 10 && |now| == |secs|
    ensures var p := now[i].(shOffset := RoundUp(st.off, now[i].shAddralign));
            Progress(env, secs, now[i := p], order + [i], NextRest(st, now[i]), 10, i + 1, boundary)
  {
    var s := now[i];
    StageFacts(env, secs, i, 10);
    OrderTake(env, secs, order, 10, i);
    LinkedTake(now, order, st.ps, i, s.(shOffset := RoundUp(st.off, s.shAddralign)));
    NextRestInOrder(env, st, s);
    NextRestAdjoining(env, st, s);
    hide Adjoining;
    hide OrderedTo, Linked, InOrder, Opened, Stage, IsPow2, RoundUp;
    RestMatches(env, st, s, ReadOnlyNobits(env, secs, |secs|), boundary);
    hide Parted, AllMatch, Congruent, Skipped;
  }

  lemma RestMatches(env: Env, st: St, s: Section, ro: nat, boundary: int)
    requires !Loaded(env, s) && AllMatch(env, st.ps, ro) && Parted(env, st.ps, boundary)
    ensures AllMatch(env, NextRest(st, s).ps, ro) && Parted(env, NextRest(st, s).ps, boundary)
    ensures NextRest(st, s).ps[..|st.ps|] == st.ps
  {
    hide RoundUp;
  }

  // -------------------------------------------------------- where segments lie

  /** The first segment is for what is only read, the second for what is written. */
  predicate Part(env: Env, s: Section, j: nat) { Loaded(env, s) && (s.write <==> j == 1) }

  ghost predicate Occupied(env: Env, ss: seq<Section>, j: nat)
  {
    exists s :: s in ss && Part(env, s, j)
  }

  /** A segment goes from the start of one section, or of its page for the first segment, to the
      end of another. */
  predicate Spans(env: Env, j: nat, ph: Phdr, first: Section, last: Section)
  {
    && ph.vaddr == (if j == 0 then RoundDown(first.shAddr, env.sAlign) else first.shAddr)
    && ph.offset == (if j == 0 then RoundDown(first.shOffset, env.sAlign) else first.shOffset)
    && EndsAt(last, ph.vaddr + ph.memsz, ph.offset + ph.filesz)
  }

  ghost predicate FirstToLast(env: Env, j: nat, ph: Phdr, ss: seq<Section>)
  {
    exists first, last ::
      first in ss && last in ss && Part(env, first, j) && Part(env, last, j) && Spans(env, j, ph, first, last)
  }

  /** From its first section to its last one; without any, from address and offset 0. */
  ghost predicate SegmentOf(env: Env, j: nat, ph: Phdr, ss: seq<Section>)
  {
    if Occupied(env, ss, j) then FirstToLast(env, j, ph, ss) else ph.vaddr == ph.offset == 0
  }

  /** The first segment ends before the boundary. The second starts behind it, and in the file
      after the first; but if nothing is written it takes in all of the first. */
  ghost predicate Segments(env: Env, ss: seq<Section>, rx: Phdr, rw: Phdr, boundary: int, skipped: nat)
  {
    && SegmentOf(env, 0, rx, ss) && SegmentOf(env, 1, rw, ss)
    && Congruent(env.sAlign, rx.vaddr, rx.offset)
    && rx.vaddr + rx.memsz <= boundary && 0 < env.headers <= rx.offset + rx.filesz
    && if Occupied(env, ss, 1) then
         && boundary <= rw.vaddr && rx.offset + rx.filesz <= rw.offset
         && Congruent(env.sAlign, rw.vaddr, rw.offset + skipped)
       else
         boundary <= rw.memsz && rx.offset + rx.filesz <= rw.filesz
  }

  lemma SegmentsSame(env: Env, ss: seq<Section>, ss': seq<Section>, rx: Phdr, rw: Phdr, boundary: int, skipped: nat)
    requires Segments(env, ss, rx, rw, boundary, skipped)
    requires forall s :: Loaded(env, s) ==> (s in ss <==> s in ss')
    ensures Segments(env, ss', rx, rw, boundary, skipped)
  {
    hide RoundDown, Spans, Congruent;
    assert forall j :: Occupied(env, ss, j) <==> Occupied(env, ss', j);
    assert FirstToLast(env, 0, rx, ss) ==> FirstToLast(env, 0, rx, ss');
    assert FirstToLast(env, 1, rw, ss) ==> FirstToLast(env, 1, rw, ss');
  }

  /** The first segment when it is closed. */
  ghost predicate FirstClosed(env: Env, ps: seq<Section>, rx: Phdr, addr: int, off: int)
  {
    && SegmentOf(env, 0, rx, ps) && !Occupied(env, ps, 1) && Congruent(env.sAlign, rx.vaddr, rx.offset)
    && rx.vaddr + rx.memsz == addr && rx.offset + rx.filesz == off && 0 < env.headers <= off
  }

  lemma CloseFirst(env: Env, secs: seq<Section>, now: seq<Section>, order: seq<nat>, st: St, boundary: int)
    requires Usable(env, secs) && Progress(env, secs, now, order, st, 4, |secs|, boundary)
    ensures FirstClosed(env, st.ps, Closed(env, 0, st.ph, st.addr, st.off), st.addr, st.off)
  {
    hide OrderedTo, Linked, Parted, AllMatch, RoundDown, SameKinds, IsPow2, Congruent, Skipped, Adjoining;
    hide ReadOnlyNobits, Started;
    RoundDownIsMultiple(st.ph.offset, env.sAlign);
    RoundDownIsMultiple(st.ph.vaddr, env.sAlign);
    var ph := Closed(env, 0, st.ph, st.addr, st.off);
    RoundedCongruent(env.sAlign, ph.vaddr, ph.offset);
    RoundDownZero(env.sAlign);
    CloseSpan(env, st);
  }

  lemma CloseSpan(env: Env, st: St)
    requires 0 < env.sAlign && RoundDown(0, env.sAlign) == 0
    requires Opened(env, st) && st.seg == 0 && AllLoaded(env, st.ps)
    requires forall a :: 0 <= a < |st.ps| ==> !st.ps[a].write
    ensures SegmentOf(env, 0, Closed(env, 0, st.ph, st.addr, st.off), st.ps)
    ensures !Occupied(env, st.ps, 1)
  {
    hide RoundDown;
    if st.ps != [] {
      var ph := Closed(env, 0, st.ph, st.addr, st.off);
      assert Part(env, st.ps[0], 0) && Part(env, st.ps[|st.ps| - 1], 0);
      assert Spans(env, 0, ph, st.ps[0], st.ps[|st.ps| - 1]);
      assert FirstToLast(env, 0, ph, st.ps);
    }
  }

  lemma RoundDownZero(m: nat)
    requires IsPow2(m)
    ensures RoundDown(0, m) == 0
  {
    RoundDownIsMultiple(0, m);
    DivUnique(0, m, 0, 0);
  }

  lemma RoundedCongruent(m: nat, a: int, b: int)
    requires 0 < m && a % m == 0 && b % m == 0
    ensures Congruent(m, a, b)
  {
    assert a == a / m * m && b == b / m * m;
    assert a - b == (a / m - b / m) * m + 0;
    DivUnique(a - b, m, a / m - b / m, 0);
  }

  lemma CloseSecond(env: Env, secs: seq<Section>, now: seq<Section>, order: seq<nat>, st: St, boundary: int,
      first: St, rx: Phdr, addr: int)
    requires Usable(env, secs) && Progress(env, secs, now, order, st, 9, |secs|, boundary)
    requires FirstClosed(env, first.ps, rx, addr, first.off) && |first.ps| == first.seg && first.ph == Phdr(0, 0, 0, 0)
    requires Grown(first, st) && addr <= boundary <= first.addr
    ensures Segments(env, st.ps, rx, Closed(env, 1, st.ph, st.addr, st.off), boundary,
              ReadOnlyNobits(env, secs, |secs|))
  {
    hide OrderedTo, Linked, AllMatch, RoundDown, SameKinds, IsPow2, InOrder, Parted, Congruent, Adjoining;
    var rw := Closed(env, 1, st.ph, st.addr, st.off);
    forall s | s in st.ps && Part(env, s, 0) ensures s in first.ps {
      var a :| 0 <= a < |st.ps| && st.ps[a] == s;
    }
    assert Occupied(env, st.ps, 0) <==> Occupied(env, first.ps, 0);
    assert FirstToLast(env, 0, rx, first.ps) ==> FirstToLast(env, 0, rx, st.ps);
    if st.seg == |st.ps| {
      assert st.ps == first.ps;
    } else {
      assert Part(env, st.ps[st.seg], 1);
      assert Spans(env, 1, rw, st.ps[st.seg], st.ps[|st.ps| - 1]);
    }
  }

  // ------------------------------------------------------------------ the result

  ghost predicate AllCovered(env: Env, ps: seq<Section>, rx: Phdr, rw: Phdr)
  {
    forall a :: 0 <= a < |ps| ==> Covers(env, if ps[a].write then rw else rx, ps[a])
  }

  /** A page boundary parts the sections and the segments. */
  ghost predicate PartedAt(env: Env, secs: seq<Section>, ss: seq<Section>, rx: Phdr, rw: Phdr, boundary: int)
  {
    && Parted(env, ss, boundary) && env.sAlign > 0 && boundary % env.sAlign == 0
    && (env.loads ==> Segments(env, ss, rx, rw, boundary, ReadOnlyNobits(env, secs, |secs|)))
  }

  /** Main result, of the sections given and the sections as laid out: the order is a permutation
      by stage; the sections are aligned, after the headers, and clear of each other in memory and
      in the file; the address of a loaded section with contents differs from its offset by whole
      pages, for writable ones up to the memory of read-only sections without contents; there is a
      page boundary between read-only and writable sections, and the segments lie on both sides of
      it if anything is written; and the segments cover their sections, from the first to the last. */
  ghost predicate LaidOut(env: Env, secs: seq<Section>, now: seq<Section>, order: seq<nat>, rx: Phdr, rw: Phdr)
  {
    && SameKinds(now, secs) && IsPermutation(order, |secs|) && OrderedTo(env, secs, order, 11, 1)
    && (forall x :: 1 <= x < |secs| ==> Aligned(env, now[x]) && env.headers <= now[x].shOffset)
    && (forall x, y :: 1 <= x < y < |secs| ==> Clear(env, now[x], now[y]) || Clear(env, now[y], now[x]))
    && (forall x :: 1 <= x < |secs| ==> Matches(env, now[x], ReadOnlyNobits(env, secs, |secs|)))
    && (exists boundary :: PartedAt(env, secs, now[1..], rx, rw, boundary))
    && (env.loads ==> forall x :: 1 <= x < |secs| ==> Covers(env, if now[x].write then rw else rx, now[x]))
  }

  lemma ResultFrom(env: Env, secs: seq<Section>, now: seq<Section>, order: seq<nat>, st: St, boundary: int, rx: Phdr,
        rw: Phdr)
    requires Usable(env, secs) && Progress(env, secs, now, order, st, 10, |secs|, boundary)
    requires env.sAlign > 0 && boundary % env.sAlign == 0
    requires env.loads ==> AllCovered(env, st.ps, rx, rw)
    requires env.loads ==> Segments(env, st.ps, rx, rw, boundary, ReadOnlyNobits(env, secs, |secs|))
    ensures LaidOut(env, secs, now, order, rx, rw) && InKindOrder(env, secs, now, order) && Compact(env, now, order)
  {
    hide InKindOrder, Stage, IsPow2, Segments, Started, AllLoaded, Opened, Congruent, Parted, Skipped, Matches, Covers,
           Aligned, Clear, Compact, Adjoining;
    OrderNext(env, secs, order, 10);
    OrderIsPermutation(env, secs, order);
    OrderedByKind(env, secs, now, order, st);
    CompactAfter(env, now, order, st);
    hide Linked, IsPermutation;
    EachAfter(env, secs, now, order, st, rx, rw);
    PairsAfter(env, secs, now, order, st);
    PartedAfter(env, secs, now, order, st.ps, boundary, rx, rw);
    hide OrderedTo, SameKinds, AllMatch, AllCovered, InOrder, PartedAt;
    assert PartedAt(env, secs, now[1..], rx, rw, boundary);
  }

  lemma EachAfter(env: Env, secs: seq<Section>, now: seq<Section>, order: seq<nat>, st: St, rx: Phdr, rw: Phdr)
    requires |now| == |secs| && IsPermutation(order, |secs|) && Linked(now, order, st.ps) && order[..1] == [0]
    requires InOrder(env, st) && AllMatch(env, st.ps, ReadOnlyNobits(env, secs, |secs|))
    requires env.loads ==> AllCovered(env, st.ps, rx, rw)
    ensures forall x :: 1 <= x < |secs| ==> Aligned(env, now[x]) && env.headers <= now[x].shOffset
    ensures forall x :: 1 <= x < |secs| ==> Matches(env, now[x], ReadOnlyNobits(env, secs, |secs|))
    ensures env.loads ==> forall x :: 1 <= x < |secs| ==> Covers(env, if now[x].write then rw else rx, now[x])
  {
    hide Aligned, Clear, Matches, Covers, FileSize;
    forall x: nat | 1 <= x < |secs|
      ensures Aligned(env, now[x]) && env.headers <= now[x].shOffset
      ensures Matches(env, now[x], ReadOnlyNobits(env, secs, |secs|))
      ensures env.loads ==> Covers(env, if now[x].write then rw else rx, now[x])
    {
      var a := PlaceOf(secs, now, order, st.ps, x);
    }
  }

  lemma PairsAfter(env: Env, secs: seq<Section>, now: seq<Section>, order: seq<nat>, st: St)
    requires |now| == |secs| && IsPermutation(order, |secs|) && Linked(now, order, st.ps) && order[..1] == [0]
    requires InOrder(env, st)
    ensures forall x, y :: 1 <= x < y < |secs| ==> Clear(env, now[x], now[y]) || Clear(env, now[y], now[x])
  {
    hide Aligned, Clear, EndsBy;
    forall x: nat, y: nat | 1 <= x < y < |secs| ensures Clear(env, now[x], now[y]) || Clear(env, now[y], now[x]) {
      var a := PlaceOf(secs, now, order, st.ps, x);
      var b := PlaceOf(secs, now, order, st.ps, y);
      if a < b { assert Clear(env, st.ps[a], st.ps[b]); } else if b < a { assert Clear(env, st.ps[b], st.ps[a]); }
    }
  }

  lemma PartedAfter(env: Env, secs: seq<Section>, now: seq<Section>, order: seq<nat>, ps: seq<Section>,
      boundary: int, rx: Phdr, rw: Phdr)
    requires |now| == |secs| && IsPermutation(order, |secs|) && Linked(now, order, ps) && 1 <= |secs|
    requires order[..1] == [0]
    requires PartedAt(env, secs, ps, rx, rw, boundary)
    ensures PartedAt(env, secs, now[1..], rx, rw, boundary)
  {
    PlacedSame(secs, now, order, ps);
    forall s | s in now[1..] && Loaded(env, s)
      ensures if s.write then boundary <= s.shAddr else s.shAddr + s.shSize <= boundary
    {
      var a :| 0 <= a < |ps| && ps[a] == s;
    }
    hide IsPermutation, Linked, Segments, ReadOnlyNobits;
    if env.loads {
      SegmentsSame(env, ps, now[1..], rx, rw, boundary, ReadOnlyNobits(env, secs, |secs|));
    }
  }

  lemma PlacedSame(secs: seq<Section>, now: seq<Section>, order: seq<nat>, ps: seq<Section>)
    requires |now| == |secs| && IsPermutation(order, |secs|) && Linked(now, order, ps) && 1 <= |secs|
    requires order[..1] == [0]
    ensures forall s :: s in ps <==> s in now[1..]
  {
    forall s | s in now[1..] ensures s in ps {
      var x :| 1 <= x < |now| && now[x] == s;
      var a := PlaceOf(secs, now, order, ps, x);
    }
    forall s | s in ps ensures s in now[1..] {
      var a :| 0 <= a < |ps| && ps[a] == s;
      assert order[0] == order[..1][0];
      assert order[a + 1] in order && order[a + 1] >= 1;
      assert now[1..][order[a + 1] - 1] == s;
    }
  }

  predicate PageBetween(env: Env, rx: Phdr, rw: Phdr, b: int)
  {
    0 < env.sAlign && b % env.sAlign == 0 && rx.vaddr + rx.memsz <= b <= rw.vaddr
  }

  /** Some page boundary lies between the segments, so that they share no page. */
  ghost predicate PagesApart(env: Env, rx: Phdr, rw: Phdr) { exists b :: PageBetween(env, rx, rw, b) }

  /** Main result: the segments have separate bytes in the file exactly if some loaded section is
      writable, and separate pages in memory if so; if not, the second one takes in the first. The
      loader finds the first one where it expects it, and the second one exactly if there is
      nothing in it or the memory skipped is whole pages. */
  lemma SegmentsApartIff(env: Env, secs: seq<Section>, now: seq<Section>, order: seq<nat>, rx: Phdr, rw: Phdr)
    requires LaidOut(env, secs, now, order, rx, rw) && env.loads
    ensures var written := Occupied(env, secs[1..], 1);
            && (rx.offset + rx.filesz <= rw.offset <==> written)
            && (PagesApart(env, rx, rw) <==> written || rx.vaddr + rx.memsz <= 0)
            && (!written ==> rw.vaddr == 0 && rx.vaddr + rx.memsz <= rw.memsz)
            && Congruent(env.sAlign, rx.vaddr, rx.offset)
            && (Congruent(env.sAlign, rw.vaddr, rw.offset) <==>
                  !written || ReadOnlyNobits(env, secs, |secs|) % env.sAlign == 0)
  {
    assert 1 <= |secs|;
    hide IsPermutation, OrderedTo, SameKinds, Clear, Aligned, Matches, Covers, Stage, PartedAt, Occupied, PagesApart,
           Congruent;
    var boundary :| PartedAt(env, secs, now[1..], rx, rw, boundary);
    KindsOccupy(env, secs, now, 1);
    SegmentsApart(env, secs, now[1..], rx, rw, boundary);
  }

  const TEXT_ONLY := [Section(false, false, OTHER, 0, 1, 0, 0), Section(true, false, OTHER, 16, 16, 0, 0)]

  /** Text alone, from the usual address on: the second segment spans the pages of the first. */
  lemma TextAloneCounterexample(env: Env, now: seq<Section>, order: seq<nat>, rx: Phdr, rw: Phdr)
    requires env.loads && LaidOut(env, TEXT_ONLY, now, order, rx, rw) && 0x400000 <= rx.vaddr + rx.memsz
    ensures !PagesApart(env, rx, rw) && rw.offset < rx.offset + rx.filesz
    ensures rw.vaddr <= now[1].shAddr && now[1].shAddr + 16 <= rw.vaddr + rw.memsz
  {
    SegmentsApartIff(env, TEXT_ONLY, now, order, rx, rw);
    assert forall s :: s in TEXT_ONLY[1..] ==> s == TEXT_ONLY[1];
  }

  lemma SegmentsApart(env: Env, secs: seq<Section>, ss: seq<Section>, rx: Phdr, rw: Phdr, boundary: int)
    requires PartedAt(env, secs, ss, rx, rw, boundary) && env.loads
    ensures rx.offset + rx.filesz <= rw.offset <==> Occupied(env, ss, 1)
    ensures PagesApart(env, rx, rw) <==> Occupied(env, ss, 1) || rx.vaddr + rx.memsz <= 0
    ensures !Occupied(env, ss, 1) ==> rw.vaddr == 0 && rx.vaddr + rx.memsz <= rw.memsz
    ensures Congruent(env.sAlign, rx.vaddr, rx.offset)
    ensures Congruent(env.sAlign, rw.vaddr, rw.offset) <==>
              !Occupied(env, ss, 1) || ReadOnlyNobits(env, secs, |secs|) % env.sAlign == 0
  {
    var skipped := ReadOnlyNobits(env, secs, |secs|);
    hide Parted, FirstToLast, Occupied, ReadOnlyNobits;
    if Occupied(env, ss, 1) {
      assert PageBetween(env, rx, rw, boundary);
      SkippedCongruentIff(env.sAlign, rw.vaddr, rw.offset, skipped);
    } else {
      DivUnique(0, env.sAlign, 0, 0);
      if rx.vaddr + rx.memsz <= 0 { assert PageBetween(env, rx, rw, 0); }
    }
  }

  lemma KindsOccupy(env: Env, secs: seq<Section>, now: seq<Section>, j: nat)
    requires SameKinds(now, secs) && 1 <= |secs|
    ensures Occupied(env, secs[1..], j) <==> Occupied(env, now[1..], j)
  {
    if Occupied(env, secs[1..], j) {
      var x :| 0 <= x < |secs| - 1 && Part(env, secs[1..][x], j);
      assert Part(env, now[1..][x], j);
    }
    if Occupied(env, now[1..], j) {
      var x :| 0 <= x < |now| - 1 && Part(env, now[1..][x], j);
      assert Part(env, secs[1..][x], j);
    }
  }

  lemma PlaceOf(secs: seq<Section>, now: seq<Section>, order: seq<nat>, ps: seq<Section>, x: nat) returns (a: nat)
    requires |now| == |secs| && IsPermutation(order, |secs|) && Linked(now, order, ps) && 1 <= x < |secs|
    requires order[..1] == [0]
    ensures a < |ps| && ps[a] == now[x] && order[a + 1] == x
  {
    assert x in order;
    var p :| 0 <= p < |order| && order[p] == x;
    assert order[0] == order[..1][0];
    a := p - 1;
  }

  // -------------------------------------------------------------------- the pass

  class Layout {
    const env: Env
    const hasTextAddr: bool    // the first address is given
    const textAddr: int        // that, or the one to start from
    var sections: seq<Section>
    var secOrder: seq<nat>
    var addr: int
    var fileOffset: int
    var ph: Phdr
    ghost var placed: seq<Section>
    ghost var seg: nat
    ghost var boundary: int

    constructor (env: Env, hasTextAddr: bool, textAddr: int, sections: seq<Section>)
      ensures this.env == env && this.hasTextAddr == hasTextAddr && this.textAddr == textAddr
      ensures this.sections == sections
    {
      this.env, this.hasTextAddr, this.textAddr, this.sections := env, hasTextAddr, textAddr, sections;
      secOrder, addr, fileOffset, ph := [0], 0, 0, Phdr(0, 0, 0, 0);
      placed, seg, boundary := [], 0, 0;
    }

    ghost function State(): St
      reads this
    {
      St(placed, addr, fileOffset, ph, seg)
    }

    ghost predicate At(secs: seq<Section>, t: nat, i: nat)
      requires i <= |secs|
      reads this
    {
      Progress(env, secs, sections, secOrder, State(), t, i, boundary)
    }

    /** The whole of it, and where the file ends. */
    method LayoutSections() returns (rx: Phdr, rw: Phdr)
      requires Usable(env, sections)
      requires hasTextAddr || (env.sAlign > 0 && textAddr % env.sAlign == 0)
      modifies this
      ensures LaidOut(env, old(sections), sections, secOrder, rx, rw)
      ensures InKindOrder(env, old(sections), sections, secOrder) && Compact(env, sections, secOrder)
      ensures forall i :: 1 <= i < |sections| ==> sections[i].shOffset + FileSize(sections[i]) <= fileOffset
      ensures env.loads ==>
                textAddr + (if hasTextAddr then 0 else env.headers % env.sAlign) <= rx.vaddr + rx.memsz
    {
      ghost var secs := sections;
      Pages(env, secs);
      hide Progress, LaidOut, InKindOrder, Compact, RoundUp, AllCovered, FileSize, Usable, Segments;
      rx, rw := Phdr(0, 0, 0, 0), Phdr(0, 0, 0, 0);
      secOrder, placed, seg, ph := [0], [], 0, Phdr(0, 0, 0, 0);
      fileOffset := env.headers;
      if env.loads {
        StartAddress(secs);
        StartProgress(env, secs, State(), boundary);
        rx, rw := PlaceLoaded(secs);
      } else {
        addr, boundary := 0, 0;
        NothingLoaded(env, secs, State());
      }
      ghost var loaded := placed;
      PlaceRest(secs);
      if env.loads { RestCovered(env, secs, loaded, placed, rx, rw, boundary); }
      ResultFrom(env, secs, sections, secOrder, State(), boundary, rx, rw);
      AllEndBy(env, secs, sections, secOrder, State(), boundary);
    }

    /** The first address, after the headers and a whole number of pages from the offset. */
    method StartAddress(ghost secs: seq<Section>)
      requires Usable(env, secs) && fileOffset == env.headers
      requires hasTextAddr || (env.sAlign > 0 && textAddr % env.sAlign == 0)
      modifies `addr, `fileOffset
      ensures Congruent(env.sAlign, addr, fileOffset) && env.headers <= fileOffset < env.headers + env.sAlign
      ensures addr == textAddr + if hasTextAddr then 0 else env.headers % env.sAlign
    {
      hide LowBits, Congruent;
      LowBitsIsRemainder(fileOffset, env.sAlign);
      if hasTextAddr {
        addr := textAddr;
        LowBitsIsRemainder(addr, env.sAlign);
        var aOffset, pOffset := LowBits(addr, env.sAlign), LowBits(fileOffset, env.sAlign);
        if aOffset < pOffset { aOffset := aOffset + env.sAlign; }
        fileOffset := fileOffset + (aOffset - pOffset);
        GivenStart(env.sAlign, textAddr, env.headers);
      } else {
        addr := textAddr + LowBits(fileOffset, env.sAlign);
        DefaultStart(env.sAlign, textAddr, env.headers);
      }
    }

    /** The two segments. */
    method PlaceLoaded(ghost secs: seq<Section>) returns (rx: Phdr, rw: Phdr)
      requires Usable(env, secs) && 1 <= |secs| == |sections| && At(secs, 0, 1) && placed == [] && seg == 0
      requires env.sAlign > 0 && ph == Phdr(0, 0, 0, 0)
      modifies `sections, `secOrder, `addr, `fileOffset, `ph, `placed, `seg, `boundary
      ensures At(secs, 10, 1) && |sections| == |secs|
      ensures AllCovered(env, placed, rx, rw) && boundary % env.sAlign == 0
      ensures Segments(env, placed, rx, rw, boundary, ReadOnlyNobits(env, secs, |secs|))
      ensures old(addr) <= rx.vaddr + rx.memsz
    {
      hide Progress, RoundDown, AllCovered, Jump, Closed, Covers, Usable, Segments, SegmentOf;
      PlaceSegment(0, secs);
      rx := Closed(env, 0, ph, addr, fileOffset);
      FirstCovered(env, secs, sections, secOrder, State(), boundary);
      CloseFirst(env, secs, sections, secOrder, State(), boundary);
      ghost var end := addr;
      NextSegment(env, secs, sections, secOrder, State(), boundary);
      addr := Jump(env, addr);
      boundary := RoundDown(addr, env.sAlign);
      ph, seg := Phdr(0, 0, 0, 0), |placed|;
      ghost var first := State();
      PlaceSegment(1, secs);
      rw := Closed(env, 1, ph, addr, fileOffset);
      SecondCovered(env, secs, sections, secOrder, State(), boundary, rx);
      CloseSecond(env, secs, sections, secOrder, State(), boundary, first, rx, end);
      NextStage(env, secs, sections, secOrder, State(), 9, boundary);
    }

    /** The five stages of one segment. */
    method PlaceSegment(j: nat, ghost secs: seq<Section>)
      requires j < 2 && Usable(env, secs) && At(secs, 5 * j, 1) && |sections| == |secs| && seg <= |placed|
      modifies `sections, `secOrder, `addr, `fileOffset, `ph, `placed
      ensures At(secs, 5 * j + 4, |secs|) && |sections| == |secs|
      ensures Grown(old(State()), State())
    {
      Pages(env, secs);
      hide Progress, Usable, Grown;
      GrownStart(State());
      var k: nat := 0;
      while k < 5
        invariant k <= 5 && |sections| == |secs| && Grown(old(State()), State())
        invariant if k < 5 then At(secs, 5 * j + k, 1) else At(secs, 5 * j + 4, |secs|)
      {
        ghost var before := State();
        PlaceStage(5 * j + k, secs);
        GrownOn(old(State()), before, State());
        if k < 4 { NextStage(env, secs, sections, secOrder, State(), 5 * j + k, boundary); }
        k := k + 1;
      }
    }

    /** The sections of one stage, in the order of their numbers. */
    method PlaceStage(t: nat, ghost secs: seq<Section>)
      requires t < 10 && Usable(env, secs) && At(secs, t, 1) && |sections| == |secs|
      modifies `sections, `secOrder, `addr, `fileOffset, `ph, `placed
      ensures At(secs, t, |secs|) && |sections| == |secs|
      ensures Grown(old(State()), State())
    {
      hide Progress, Usable, IsPow2, RoundUp, Stage, Grown;
      GrownStart(State());
      var i: nat := 1;
      AtLeastOne(env, secs);
      while i < |sections|
        invariant 1 <= i <= |secs| == |sections| && At(secs, t, i) && Grown(old(State()), State())
      {
        KindsSame(env, secs, sections, secOrder, State(), t, i, boundary);
        if Stage(env, sections, i) == t {
          TakeSection(env, secs, sections, secOrder, State(), t, i, boundary);
          ghost var st' := Next(State(), sections[i]);
          GrownOn(old(State()), State(), st');
          var s := sections[i];
          secOrder := secOrder + [i];
          var tmp := addr;
          addr := RoundUp(addr, s.shAddralign);
          fileOffset := fileOffset + (addr - tmp);
          s := s.(shAddr := addr, shOffset := fileOffset);
          if ph.offset == 0 { ph := ph.(offset := fileOffset, vaddr := addr); }
          addr := addr + s.shSize;
          if s.shType != NOBITS { fileOffset := fileOffset + s.shSize; }
          sections := sections[i := s];
          placed := placed + [s];
          assert State() == st';
        } else {
          SkipSection(env, secs, sections, secOrder, State(), t, i, boundary);
        }
        i := i + 1;
      }
    }

    /** The sections that are not loaded. */
    method PlaceRest(ghost secs: seq<Section>)
      requires Usable(env, secs) && At(secs, 10, 1) && |sections| == |secs|
      modifies `sections, `secOrder, `fileOffset, `placed
      ensures At(secs, 10, |secs|) && |sections| == |secs|
      ensures old(placed) <= placed
      ensures forall a :: |old(placed)| <= a < |placed| ==> !Loaded(env, placed[a])
    {
      hide Progress, Usable, IsPow2, RoundUp, Stage;
      var i: nat := 1;
      AtLeastOne(env, secs);
      while i < |sections|
        invariant 1 <= i <= |secs| == |sections| && At(secs, 10, i)
        invariant old(placed) <= placed
        invariant forall a :: |old(placed)| <= a < |placed| ==> !Loaded(env, placed[a])
      {
        KindsSame(env, secs, sections, secOrder, State(), 10, i, boundary);
        if !Loaded(env, sections[i]) {
          TakeRest(env, secs, sections, secOrder, State(), i, boundary);
          ghost var st' := NextRest(State(), sections[i]);
          var s := sections[i];
          secOrder := secOrder + [i];
          fileOffset := RoundUp(fileOffset, s.shAddralign);
          s := s.(shOffset := fileOffset);
          if s.shType != NOBITS { fileOffset := fileOffset + s.shSize; }
          sections := sections[i := s];
          placed := placed + [s];
          assert State() == st';
        } else {
          SkipSection(env, secs, sections, secOrder, State(), 10, i, boundary);
        }
        i := i + 1;
      }
    }
  }

  lemma AtLeastOne(env: Env, secs: seq<Section>)
    requires Usable(env, secs)
    ensures 1 <= |secs|
  {
  }

  lemma KindsSame(env: Env, secs: seq<Section>, now: seq<Section>, order: seq<nat>, st: St, t: nat, i: nat,
        boundary: int)
    requires 1 <= i < |secs| && Usable(env, secs) && Progress(env, secs, now, order, st, t, i, boundary)
    ensures |now| == |secs| && Stage(env, now, i) == Stage(env, secs, i) && 0 < now[i].shAddralign
    ensures Loaded(env, now[i]) <==> Stage(env, secs, i) != 10
  {
    StageSame(env, secs, now, i);
    StageFacts(env, secs, i, Stage(env, secs, i));
    RoundUpIsLeastMultiple(0, now[i].shAddralign);
  }

  lemma Pages(env: Env, secs: seq<Section>)
    requires Usable(env, secs)
    ensures |secs| >= 1 && env.sAlign > 0
  {
    RoundDownIsMultiple(0, env.sAlign);
  }

  lemma DefaultStart(m: nat, base: int, off: nat)
    requires 0 < m && base % m == 0
    ensures Congruent(m, base + off % m, off)
  {
    var (q, r) := (base / m, off / m);
    assert base == q * m && off == r * m + off % m;
    assert base + off % m - off == (q - r) * m + 0;
    DivUnique(base + off % m - off, m, q - r, 0);
  }

  lemma GivenStart(m: nat, a: int, off: nat)
    requires 0 < m
    ensures var d := if a % m < off % m then a % m + m - off % m else a % m - off % m;
            0 <= d < m && Congruent(m, a, off + d)
  {
    var (q, r) := (a / m, off / m);
    var c := if a % m < off % m then 1 else 0;
    var d := a % m + c * m - off % m;
    assert a == q * m + a % m && off == r * m + off % m;
    assert a - (off + d) == (q - r - c) * m + 0;
    DivUnique(a - (off + d), m, q - r - c, 0);
  }

  lemma StartProgress(env: Env, secs: seq<Section>, st: St, boundary: int)
    requires Usable(env, secs) && st == St([], st.addr, st.off, Phdr(0, 0, 0, 0), 0)
    requires env.headers <= st.off < env.headers + env.sAlign
    requires Congruent(env.sAlign, st.addr, st.off)
    ensures Progress(env, secs, secs, [0], st, 0, 1, boundary)
  {
    hide Stage, IsPow2;
  }

  lemma NothingLoaded(env: Env, secs: seq<Section>, st: St)
    requires Usable(env, secs) && !env.loads && st == St([], 0, env.headers, Phdr(0, 0, 0, 0), 0)
    ensures Progress(env, secs, secs, [0], st, 10, 1, 0)
  {
    forall x: nat | 1 <= x < |secs| ensures !IsBefore(env, secs, x, 10, 1) { }
  }

  lemma FirstCovered(env: Env, secs: seq<Section>, now: seq<Section>, order: seq<nat>, st: St, boundary: int)
    requires Usable(env, secs) && Progress(env, secs, now, order, st, 4, |secs|, boundary) && st.seg == 0
    ensures forall a :: 0 <= a < |st.ps| ==>
              !st.ps[a].write && Covers(env, Closed(env, 0, st.ph, st.addr, st.off), st.ps[a])
  {
    hide OrderedTo, Linked, Parted, AllMatch, Covers, Closed;
    ClosedCovers(env, st, 0);
  }

  lemma SecondCovered(env: Env, secs: seq<Section>, now: seq<Section>, order: seq<nat>, st: St, boundary: int, rx: Phdr)
    requires Usable(env, secs) && Progress(env, secs, now, order, st, 9, |secs|, boundary)
    requires forall a :: 0 <= a < st.seg && a < |st.ps| ==> !st.ps[a].write && Covers(env, rx, st.ps[a])
    ensures AllCovered(env, st.ps, rx, Closed(env, 1, st.ph, st.addr, st.off))
  {
    hide OrderedTo, Linked, Parted, AllMatch, Covers, Closed;
    ClosedCovers(env, st, 1);
  }

  lemma RestCovered(env: Env, secs: seq<Section>, ps: seq<Section>, ps': seq<Section>, rx: Phdr, rw: Phdr,
        boundary: int)
    requires AllCovered(env, ps, rx, rw) && ps <= ps' && forall a :: |ps| <= a < |ps'| ==> !Loaded(env, ps'[a])
    requires Segments(env, ps, rx, rw, boundary, ReadOnlyNobits(env, secs, |secs|))
    ensures AllCovered(env, ps', rx, rw)
    ensures Segments(env, ps', rx, rw, boundary, ReadOnlyNobits(env, secs, |secs|))
  {
    SegmentsSame(env, ps, ps', rx, rw, boundary, ReadOnlyNobits(env, secs, |secs|)) by {
      hide Segments, ReadOnlyNobits;
    }
    hide Segments, ReadOnlyNobits;
    forall a | 0 <= a < |ps'| ensures Covers(env, if ps'[a].write then rw else rx, ps'[a]) {
      if a < |ps| { assert ps'[a] == ps[a]; }
    }
  }

  lemma AllEndBy(env: Env, secs: seq<Section>, now: seq<Section>, order: seq<nat>, st: St, boundary: int)
    requires Usable(env, secs) && Progress(env, secs, now, order, st, 10, |secs|, boundary)
    ensures forall i :: 1 <= i < |now| ==> now[i].shOffset + FileSize(now[i]) <= st.off
  {
    hide Aligned, Clear, Stage, IsPow2, FileSize;
    OrderNext(env, secs, order, 10);
    OrderIsPermutation(env, secs, order);
    forall i: nat | 1 <= i < |now| ensures now[i].shOffset + FileSize(now[i]) <= st.off {
      var a := PlaceOf(secs, now, order, st.ps, i);
      assert EndsBy(env, st.ps[a], st.addr, st.off);
    }
  }
}
