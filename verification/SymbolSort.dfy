/** Reordering the symbol table so that the local symbols come first, while the relocations that
    refer to symbols by index are rewritten. */
module SymbolSort {
  import opened ElfSymbols
  import T = SymbolTable

  // -------------------------------------------------------- locals first

  /** The symbols among the first n that are local, or that are not, in order. */
  function Picked(syms: seq<T.ElfSym>, local: bool, n: nat): (p: seq<T.ElfSym>)
    requires n <= |syms|
  {
    if n == 0 then []
    else Picked(syms, local, n - 1) + if IsLocal(syms[n - 1].a) == local then [syms[n - 1]] else []
  }

  function Sorted(syms: seq<T.ElfSym>): seq<T.ElfSym> { Picked(syms, true, |syms|) + Picked(syms, false, |syms|) }

  /** Where the i-th symbol goes. */
  function Position(syms: seq<T.ElfSym>, i: nat): nat
    requires i < |syms|
  {
    if IsLocal(syms[i].a) then |Picked(syms, true, i)| else |Picked(syms, true, |syms|)| + |Picked(syms, false, i)|
  }

  lemma {:induction false} PickedGrows(syms: seq<T.ElfSym>, local: bool, i: nat, n: nat)
    requires i < n <= |syms|
    ensures |Picked(syms, local, i)| <= |Picked(syms, local, n)|
    ensures Picked(syms, local, i) <= Picked(syms, local, n)
    ensures IsLocal(syms[i].a) == local ==> |Picked(syms, local, i)| < |Picked(syms, local, n)|
    ensures IsLocal(syms[i].a) == local ==> Picked(syms, local, n)[|Picked(syms, local, i)|] == syms[i]
    decreases n
  {
    if i < n - 1 { PickedGrows(syms, local, i, n - 1); }
  }

  lemma PickedStep(syms: seq<T.ElfSym>, local: bool, n: nat)
    requires n <= |syms|
    ensures n == 0 ==> Picked(syms, local, n) == []
    ensures n > 0 ==>
              Picked(syms, local, n) ==
                Picked(syms, local, n - 1) + if IsLocal(syms[n - 1].a) == local then [syms[n - 1]] else []
  {
  }

  lemma {:induction false} PickedAll(syms: seq<T.ElfSym>, n: nat)
    requires n <= |syms|
    ensures |Picked(syms, true, n)| + |Picked(syms, false, n)| == n
    ensures multiset(Picked(syms, true, n)) + multiset(Picked(syms, false, n)) == multiset(syms[..n])
  {
    hide IsLocal, Picked;
    PickedStep(syms, true, n);
    PickedStep(syms, false, n);
    if n > 0 {
      PickedAll(syms, n - 1);
      assert syms[..n] == syms[..n - 1] + [syms[n - 1]];
    }
  }

  lemma {:induction false} PickedKind(syms: seq<T.ElfSym>, local: bool, n: nat, k: nat)
    requires n <= |syms| && k < |Picked(syms, local, n)|
    ensures IsLocal(Picked(syms, local, n)[k].a) == local
  {
    if k < |Picked(syms, local, n - 1)| { PickedKind(syms, local, n - 1, k); }
  }

  /** Main result: the sort keeps every symbol, puts all local ones before all others, and the
      mapping it uses for relocations leads from each index to the record that was there. */
  lemma SortedIsStablePartition(syms: seq<T.ElfSym>)
    ensures multiset(Sorted(syms)) == multiset(syms) && |Sorted(syms)| == |syms|
    ensures forall k :: 0 <= k < |syms| ==> (IsLocal(Sorted(syms)[k].a) <==> k < |Picked(syms, true, |syms|)|)
    ensures forall i: nat :: i < |syms| ==> Position(syms, i) < |syms| && Sorted(syms)[Position(syms, i)] == syms[i]
    ensures forall i: nat, j: nat :: i < j < |syms| ==>
              (Position(syms, i) < Position(syms, j) <==> IsLocal(syms[i].a) || !IsLocal(syms[j].a))
              && Position(syms, i) != Position(syms, j)
  {
    PickedAll(syms, |syms|);
    assert syms[..|syms|] == syms;
    forall k: nat | k < |syms| ensures IsLocal(Sorted(syms)[k].a) <==> k < |Picked(syms, true, |syms|)| {
      if k < |Picked(syms, true, |syms|)| {
        PickedKind(syms, true, |syms|, k);
      } else {
        PickedKind(syms, false, |syms|, k - |Picked(syms, true, |syms|)|);
      }
    }
    forall i: nat | i < |syms| ensures Position(syms, i) < |syms| && Sorted(syms)[Position(syms, i)] == syms[i] {
      PositionNames(syms, i);
    }
    forall i: nat, j: nat | i < j < |syms|
      ensures Position(syms, i) < Position(syms, j) <==> IsLocal(syms[i].a) || !IsLocal(syms[j].a)
      ensures Position(syms, i) != Position(syms, j)
    {
      PickedGrows(syms, true, i, |syms|);
      PickedGrows(syms, true, j, |syms|);
      PickedGrows(syms, IsLocal(syms[i].a), i, j);
    }
  }

  lemma PositionNames(syms: seq<T.ElfSym>, i: nat)
    requires i < |syms|
    ensures Position(syms, i) < |Sorted(syms)| == |syms| && Sorted(syms)[Position(syms, i)] == syms[i]
  {
    PickedAll(syms, |syms|);
    PickedGrows(syms, IsLocal(syms[i].a), i, |syms|);
  }

  // ------------------------------------------------------------- relocations

  predicate InRange(s: T.RelocSection, n: nat) { forall k :: 0 <= k < |s.rels| ==> 0 <= s.rels[k].sym < n }

  function Renamed(r: T.Reloc, syms: seq<T.ElfSym>): T.Reloc
    requires 0 <= r.sym < |syms|
  {
    r.(sym := Position(syms, r.sym))
  }

  /** The relocations refer to the same records as before, and nothing else in them changes. */
  ghost predicate SameTargets(was: T.RelocSection, syms: seq<T.ElfSym>, now: T.RelocSection, syms': seq<T.ElfSym>)
  {
    && now == was.(rels := now.rels) && |now.rels| == |was.rels|
    && forall k :: 0 <= k < |was.rels| && 0 <= was.rels[k].sym < |syms| ==>
         && now.rels[k] == was.rels[k].(sym := now.rels[k].sym)
         && 0 <= now.rels[k].sym < |syms'| && syms'[now.rels[k].sym] == syms[was.rels[k].sym]
  }

  class SymbolSorter {
    var syms: seq<T.ElfSym>
    var shInfo: nat
    const shSize: nat
    var sections: seq<T.RelocSection>

    constructor (syms: seq<T.ElfSym>, shInfo: nat, shSize: nat, sections: seq<T.RelocSection>)
      ensures this.syms == syms && this.shInfo == shInfo && this.shSize == shSize && this.sections == sections
    {
      this.syms, this.shInfo, this.shSize, this.sections := syms, shInfo, shSize, sections;
    }

    /** One pass over the symbols, of one kind. */
    method Pass(local: bool, oldToNew: seq<nat>, newSyms: seq<T.ElfSym>)
      returns (map': seq<nat>, newSyms': seq<T.ElfSym>)
      requires |oldToNew| == |syms|
      ensures newSyms' == newSyms + Picked(syms, local, |syms|)
      ensures |map'| == |syms| && forall i: nat :: i < |syms| ==>
                map'[i] == if IsLocal(syms[i].a) == local then |newSyms| + |Picked(syms, local, i)| else oldToNew[i]
    {
      hide IsLocal, Picked;
      map', newSyms' := oldToNew, newSyms;
      var i: nat := 0;
      PickedStep(syms, local, 0);
      while i < |syms|
        invariant i <= |syms| == |map'| && newSyms' == newSyms + Picked(syms, local, i)
        invariant forall k: nat :: k < |syms| ==>
                    map'[k] == if k < i && IsLocal(syms[k].a) == local then |newSyms| + |Picked(syms, local, k)|
                               else oldToNew[k]
      {
        PickedStep(syms, local, i + 1);
        if IsLocal(syms[i].a) == local {
          map' := map'[i := |newSyms'|];
          newSyms' := newSyms' + [syms[i]];
        }
        i := i + 1;
      }
    }

    method SortSyms()
      requires forall i :: 1 <= i < |sections| && sections[i].isReloc && sections[i].forSymtab ==>
                 InRange(sections[i], |syms|)
      modifies `syms, `shInfo, `sections
      ensures syms == Sorted(old(syms))
      ensures shInfo == if shSize != 0 then |Picked(old(syms), true, |old(syms)|)| else old(shInfo)
      ensures |sections| == |old(sections)|
      ensures forall i :: 0 <= i < |sections| ==>
                if i >= 1 && old(sections)[i].isReloc && old(sections)[i].forSymtab
                then SameTargets(old(sections)[i], old(syms), sections[i], syms)
                else sections[i] == old(sections)[i]
    {
      hide Picked, IsLocal, SameTargets;
      var oldToNew: seq<nat> := seq(|syms|, _ => 0);
      var newSyms: seq<T.ElfSym> := [];
      oldToNew, newSyms := Pass(true, oldToNew, newSyms);
      if shSize != 0 { shInfo := |newSyms|; }
      oldToNew, newSyms := Pass(false, oldToNew, newSyms);
      ghost var was := syms;
      assert forall i: nat :: i < |was| ==> oldToNew[i] == Position(was, i);
      hide Position;
      syms := newSyms;
      assert syms == Sorted(was);
      var i := 1;
      while i < |sections|
        modifies `sections
        invariant 1 <= i && |sections| == |old(sections)|
        invariant forall k :: 0 <= k < |sections| ==>
                    if 1 <= k < i && old(sections)[k].isReloc && old(sections)[k].forSymtab
                    then SameTargets(old(sections)[k], was, sections[k], syms)
                    else sections[k] == old(sections)[k]
      {
        if sections[i].isReloc && sections[i].forSymtab {
          var rels := RenameAll(sections[i].rels, oldToNew, was);
          RenamedSame(sections[i], rels, was);
          sections := sections[i := sections[i].(rels := rels)];
        }
        i := i + 1;
      }
    }
  }

  method RenameAll(rels: seq<T.Reloc>, oldToNew: seq<nat>, ghost syms: seq<T.ElfSym>) returns (rels': seq<T.Reloc>)
    requires |oldToNew| == |syms| && forall k :: 0 <= k < |rels| ==> 0 <= rels[k].sym < |syms|
    requires forall i: nat :: i < |syms| ==> oldToNew[i] == Position(syms, i)
    ensures |rels'| == |rels| && forall k :: 0 <= k < |rels| ==> rels'[k] == Renamed(rels[k], syms)
  {
    rels' := rels;
    var k := 0;
    while k < |rels|
      invariant 0 <= k <= |rels| == |rels'|
      invariant forall j :: 0 <= j < |rels| ==> rels'[j] == if j < k then Renamed(rels[j], syms) else rels[j]
    {
      var symIndex := oldToNew[rels'[k].sym];
      rels' := rels'[k := rels'[k].(sym := symIndex)];
      k := k + 1;
    }
  }

  lemma RenamedSame(s: T.RelocSection, rels: seq<T.Reloc>, syms: seq<T.ElfSym>)
    requires InRange(s, |syms|) && |rels| == |s.rels|
    requires forall k :: 0 <= k < |rels| ==> rels[k] == Renamed(s.rels[k], syms)
    ensures SameTargets(s, syms, s.(rels := rels), Sorted(syms))
  {
    hide Sorted, Position;
    forall k | 0 <= k < |rels|
      ensures 0 <= rels[k].sym < |Sorted(syms)| && Sorted(syms)[rels[k].sym] == syms[s.rels[k].sym]
    {
      PositionNames(syms, s.rels[k].sym);
    }
  }
}
