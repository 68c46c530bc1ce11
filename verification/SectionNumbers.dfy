/** Giving the sections that are written out the numbers of their order in the file, and
    rewriting the symbols and relocation sections that refer to sections by number. */
module SectionNumbers {
  import opened Basics
  import opened ElfSymbols
  import T = SymbolTable

  /** A section header; `id` says which section it is. */
  datatype Section = Section(id: nat, shName: nat, isRelx: bool, shInfo: nat, shNum: nat)

  // ------------------------------------------------------------- the renumbering

  /** The i-th section in order is written out: it has a name, or is the first. */
  predicate Kept(sections: seq<Section>, order: seq<nat>, i: nat)
  {
    i < |order| && order[i] < |sections| && (i == 0 || sections[order[i]].shName != 0)
  }

  /** How many of the first i in order are written out. */
  function Rank(sections: seq<Section>, order: seq<nat>, i: nat): (r: nat)
    ensures r <= i
  {
    if i == 0 then 0 else Rank(sections, order, i - 1) + if Kept(sections, order, i - 1) then 1 else 0
  }

  lemma {:induction false} RankGrows(sections: seq<Section>, order: seq<nat>, i: nat, j: nat)
    requires i < j
    ensures Rank(sections, order, i) + (if Kept(sections, order, i) then 1 else 0) <= Rank(sections, order, j)
    decreases j
  {
    if i < j - 1 { RankGrows(sections, order, i, j - 1); }
  }

  function PlaceOf(order: seq<nat>, j: nat): (i: nat)
    ensures i <= |order| && (i < |order| ==> order[i] == j)
    ensures i == |order| ==> j !in order
  {
    if order == [] || order[0] == j then 0 else 1 + PlaceOf(order[1..], j)
  }

  /** The new number of section j: 0, which means undefined, if it is dropped. */
  function NewNumber(sections: seq<Section>, order: seq<nat>, j: nat): nat
  {
    var i := PlaceOf(order, j);
    if Kept(sections, order, i) then Rank(sections, order, i) else 0
  }

  predicate IsDropped(sections: seq<Section>, order: seq<nat>, j: nat) { !Kept(sections, order, PlaceOf(order, j)) }

  /** The section table afterwards. */
  ghost predicate Renumbered(was: seq<Section>, order: seq<nat>, now: seq<Section>)
  {
    && |now| == Rank(was, order, |order|)
    && forall i: nat :: Kept(was, order, i) ==>
         var k := Rank(was, order, i);
         && k < |now|
         && now[k] == was[order[i]].(shNum := k,
                                     shInfo := if was[order[i]].isRelx then NewNumber(was, order, was[order[i]].shInfo)
                                               else was[order[i]].shInfo)
  }

  lemma PlaceUnique(order: seq<nat>, n: nat, i: nat)
    requires IsPermutation(order, n) && i < n
    ensures PlaceOf(order, order[i]) == i
  {
    var p := PlaceOf(order, order[i]);
    assert p < n;
  }

  /** Main result: by its new number a section that is kept is still found, every number in the
      new table is taken, and the order in the file is the order of the numbers. */
  lemma NumbersName(was: seq<Section>, order: seq<nat>, now: seq<Section>, j: nat)
    requires IsPermutation(order, |was|) && Renumbered(was, order, now) && j < |was| && !IsDropped(was, order, j)
    ensures NewNumber(was, order, j) < |now| && now[NewNumber(was, order, j)].id == was[j].id
    ensures now[NewNumber(was, order, j)].shNum == NewNumber(was, order, j)
    ensures NewNumber(was, order, j) == 0 <==> j == order[0]
    ensures var (i, t) := (NewNumber(was, order, j), was[j].shInfo);
            was[j].isRelx && t < |was| && !IsDropped(was, order, t) ==>
              now[i].shInfo < |now| && now[now[i].shInfo].id == was[t].id
  {
    var i := PlaceOf(order, j);
    assert Kept(was, order, i) && order[i] == j;
    PlaceUnique(order, |was|, 0);
    if i > 0 {
      assert Kept(was, order, 0);
      RankGrows(was, order, 0, i);
    }
    var t := was[j].shInfo;
    if was[j].isRelx && t < |was| && !IsDropped(was, order, t) {
      assert Kept(was, order, PlaceOf(order, t));
    }
  }

  lemma OrderKept(was: seq<Section>, order: seq<nat>, i: nat, j: nat)
    requires IsPermutation(order, |was|) && i < j && Kept(was, order, i) && Kept(was, order, j)
    ensures NewNumber(was, order, order[i]) < NewNumber(was, order, order[j])
  {
    PlaceUnique(order, |was|, i);
    PlaceUnique(order, |was|, j);
    RankGrows(was, order, i, j);
  }

  // ----------------------------------------------------------------- symbols

  predicate RefersToSection(shndx: nat) { shndx != SHN_UNDEF && shndx < SHN_LORESERVE }

  /** The symbol afterwards. */
  function Moved(was: seq<Section>, order: seq<nat>, s: T.ElfSym): T.ElfSym
  {
    if RefersToSection(s.a.shndx) then s.(a := s.a.(shndx := NewNumber(was, order, s.a.shndx))) else s
  }

  ghost predicate AllMoved(was: seq<Section>, order: seq<nat>, syms: seq<T.ElfSym>, syms': seq<T.ElfSym>)
  {
    |syms'| == |syms| && forall k :: 0 <= k < |syms| ==>
      syms'[k] == if k >= 1 then Moved(was, order, syms[k]) else syms[k]
  }

  /** Main result: a symbol that is defined in a section is afterwards defined in the same section
      if that is kept, and undefined exactly if it is dropped or the null section. */
  lemma SymbolsKeepSections(was: seq<Section>, order: seq<nat>, now: seq<Section>, s: T.ElfSym)
    requires 0 < s.a.shndx < 0xff00 && s.a.shndx < |was| == |order|
    requires IsPermutation(order, |was|) && order[0] == 0 && Renumbered(was, order, now)
    ensures var m := Moved(was, order, s).a.shndx;
            && (m == SHN_UNDEF <==> IsDropped(was, order, s.a.shndx))
            && (m == 0 <==> was[s.a.shndx].shName == 0)
            && (m != SHN_UNDEF ==> m < |now| && now[m].id == was[s.a.shndx].id)
  {
    if !IsDropped(was, order, s.a.shndx) { NumbersName(was, order, now, s.a.shndx); }
  }

  /** One that is undefined or has a number with a meaning of its own, as absolute and common
      symbols have, stays as it is, and of any other only the section changes. */
  lemma OtherSymbolsStay(was: seq<Section>, order: seq<nat>, s: T.ElfSym)
    ensures s.a.shndx == 0 || s.a.shndx >= 0xff00 ==> Moved(was, order, s) == s
    ensures Moved(was, order, s) == s.(a := s.a.(shndx := Moved(was, order, s).a.shndx))
  {
  }

  // ------------------------------------------------------------------ the pass

  class Headers {
    var sections: seq<Section>
    var secOrder: seq<nat>
    var symtab: seq<T.ElfSym>
    var dynsym: seq<T.ElfSym>
    const staticLink: bool

    constructor (sections: seq<Section>, secOrder: seq<nat>, symtab: seq<T.ElfSym>, dynsym: seq<T.ElfSym>,
          staticLink: bool)
      ensures this.sections == sections && this.secOrder == secOrder && this.symtab == symtab && this.dynsym == dynsym
      ensures this.staticLink == staticLink
    {
      this.sections, this.secOrder, this.symtab, this.dynsym, this.staticLink := sections, secOrder, symtab, dynsym,
        staticLink;
    }

    predicate InRange(syms: seq<T.ElfSym>)
      reads `sections
    {
      forall k :: 1 <= k < |syms| && RefersToSection(syms[k].a.shndx) ==> syms[k].a.shndx < |sections|
    }

    method TidySectionHeaders()
      requires IsPermutation(secOrder, |sections|)
      requires forall i: nat :: Kept(sections, secOrder, i) && sections[secOrder[i]].isRelx ==>
                 sections[secOrder[i]].shInfo < |sections|
      requires InRange(symtab) && (!staticLink ==> InRange(dynsym))
      modifies this
      ensures Renumbered(old(sections), old(secOrder), sections)
      ensures AllMoved(old(sections), old(secOrder), old(symtab), symtab)
      ensures if staticLink then dynsym == old(dynsym) else AllMoved(old(sections), old(secOrder), old(dynsym), dynsym)
      ensures secOrder == seq(|old(secOrder)|, i => i)
    {
      hide NewNumber, Rank, Kept, IsPermutation, AllMoved, Renumbered;
      ghost var was, order := sections, secOrder;
      var backmap, snew, nnew := Collect();
      symtab := MoveSymbols(symtab, backmap);
      if !staticLink { dynsym := MoveSymbols(dynsym, backmap); }
      ghost var snew0 := snew;
      snew := Number(snew, nnew, backmap);
      RenumberedIs(was, order, snew0, snew, nnew, backmap);
      secOrder := seq(|secOrder|, i => i);
      sections := snew[..nnew];
    }

    /** The sections that are kept, in order, from the front; the others from the back. */
    method Collect() returns (backmap: seq<nat>, snew: seq<Section>, nnew: nat)
      requires IsPermutation(secOrder, |sections|)
      requires forall i: nat :: Kept(sections, secOrder, i) && sections[secOrder[i]].isRelx ==>
                 sections[secOrder[i]].shInfo < |sections|
      ensures |backmap| == |snew| == |sections| && nnew <= |snew|
      ensures forall k :: 0 <= k < nnew && snew[k].isRelx ==> snew[k].shInfo < |sections|
      ensures nnew == Rank(sections, secOrder, |sections|)
      ensures forall j: nat :: j < |sections| ==> backmap[j] == NewNumber(sections, secOrder, j)
      ensures forall i: nat :: Kept(sections, secOrder, i) ==>
                Rank(sections, secOrder, i) < nnew && snew[Rank(sections, secOrder, i)] == sections[secOrder[i]]
    {
      hide IsPermutation, Kept, Rank, PlaceOf;
      var n := |sections|;
      OrderFacts(secOrder, n);
      backmap, snew := seq(n, _ => 0), sections;
      nnew := 0;
      var i: nat, l: nat := 0, n;
      while i < n
        invariant i <= n && |backmap| == |snew| == n && nnew == Rank(sections, secOrder, i) && l == n - (i - nnew)
        invariant forall k :: 0 <= k < nnew && snew[k].isRelx ==> snew[k].shInfo < n
        invariant forall k: nat :: k < i ==>
                    backmap[secOrder[k]] == if Kept(sections, secOrder, k) then Rank(sections, secOrder, k) else 0
        invariant forall k: nat :: k < i && Kept(sections, secOrder, k) ==>
                    Rank(sections, secOrder, k) < nnew && snew[Rank(sections, secOrder, k)] == sections[secOrder[k]]
      {
        RankStep(sections, secOrder, i);
        var s := sections[secOrder[i]];
        if i == 0 || s.shName != 0 {
          backmap := backmap[secOrder[i] := nnew];
          snew := snew[nnew := s];
          nnew := nnew + 1;
        } else {
          backmap := backmap[secOrder[i] := 0];
          l := l - 1;
          snew := snew[l := s];
        }
        i := i + 1;
      }
      forall j: nat | j < n ensures backmap[j] == NewNumber(sections, secOrder, j) {
        PlaceExists(secOrder, n, j);
      }
      forall k: nat ensures Kept(sections, secOrder, k) ==> k < n { KeptInRange(sections, secOrder, k); }
    }

    /** The headers that are kept get their numbers and refer by them. */
    method Number(snew0: seq<Section>, nnew: nat, backmap: seq<nat>) returns (snew: seq<Section>)
      requires nnew <= |snew0| && |backmap| == |sections|
      requires forall k :: 0 <= k < nnew && snew0[k].isRelx ==> snew0[k].shInfo < |backmap|
      ensures |snew| == |snew0|
      ensures forall k :: 0 <= k < nnew ==>
                snew[k] ==
                  snew0[k].(shNum := k, shInfo := if snew0[k].isRelx then backmap[snew0[k].shInfo] else snew0[k].shInfo)
    {
      snew := snew0;
      var i := 0;
      while i < nnew
        invariant 0 <= i <= nnew && |snew| == |snew0|
        invariant forall k :: i <= k < |snew0| ==> snew[k] == snew0[k]
        invariant forall k :: 0 <= k < i ==>
                    snew[k] ==
                      snew0[k].(shNum := k,
                                shInfo := if snew0[k].isRelx then backmap[snew0[k].shInfo] else snew0[k].shInfo)
      {
        snew := snew[i := snew[i].(shNum := i)];
        if snew[i].isRelx { snew := snew[i := snew[i].(shInfo := backmap[snew[i].shInfo])]; }
        i := i + 1;
      }
    }

    method MoveSymbols(syms: seq<T.ElfSym>, backmap: seq<nat>) returns (syms': seq<T.ElfSym>)
      requires |backmap| == |sections| && InRange(syms)
      requires forall j: nat :: j < |sections| ==> backmap[j] == NewNumber(sections, secOrder, j)
      ensures AllMoved(sections, secOrder, syms, syms')
    {
      hide NewNumber;
      syms' := syms;
      var k := 1;
      while k < |syms|
        invariant 1 <= k && |syms'| == |syms|
        invariant forall j :: 0 <= j < |syms| ==>
                    syms'[j] == if 1 <= j < k then Moved(sections, secOrder, syms[j]) else syms[j]
      {
        var a := syms'[k].a;
        if a.shndx != SHN_UNDEF && a.shndx < SHN_LORESERVE {
          syms' := syms'[k := syms'[k].(a := a.(shndx := backmap[a.shndx]))];
        }
        k := k + 1;
      }
    }
  }

  lemma RenumberedIs(was: seq<Section>, order: seq<nat>, snew0: seq<Section>, snew: seq<Section>, nnew: nat,
        backmap: seq<nat>)
    requires IsPermutation(order, |was|) && |backmap| == |snew0| == |snew| == |was| && nnew == Rank(was, order, |was|)
    requires nnew <= |was|
    requires forall j: nat :: j < |was| ==> backmap[j] == NewNumber(was, order, j)
    requires forall i: nat :: Kept(was, order, i) ==>
               Rank(was, order, i) < nnew && snew0[Rank(was, order, i)] == was[order[i]]
    requires forall k :: 0 <= k < nnew && snew0[k].isRelx ==> snew0[k].shInfo < |backmap|
    requires forall k :: 0 <= k < nnew ==>
               snew[k] ==
                 snew0[k].(shNum := k, shInfo := if snew0[k].isRelx then backmap[snew0[k].shInfo] else snew0[k].shInfo)
    ensures Renumbered(was, order, snew[..nnew])
  {
    hide NewNumber, Rank;
  }

  lemma OrderFacts(order: seq<nat>, n: nat)
    requires IsPermutation(order, n)
    ensures |order| == n && (forall i :: 0 <= i < n ==> order[i] < n)
    ensures (forall i, j :: 0 <= i < j < n ==> order[i] != order[j])
  {
  }

  lemma RankStep(sections: seq<Section>, order: seq<nat>, i: nat)
    requires i < |order| && order[i] < |sections|
    ensures Kept(sections, order, i) <==> i == 0 || sections[order[i]].shName != 0
    ensures Rank(sections, order, 0) == 0
    ensures Rank(sections, order, i + 1) == Rank(sections, order, i) + if Kept(sections, order, i) then 1 else 0
    ensures Rank(sections, order, i) <= i
  {
  }

  lemma PlaceExists(order: seq<nat>, n: nat, j: nat)
    requires IsPermutation(order, n) && j < n
    ensures PlaceOf(order, j) < n && order[PlaceOf(order, j)] == j
  {
    assert j in order;
  }

  lemma KeptInRange(sections: seq<Section>, order: seq<nat>, k: nat)
    ensures Kept(sections, order, k) ==> k < |order| && order[k] < |sections|
  {
  }
}
