/** The abstract symbol table of the linker: the list of symbols in index order, each with
    its name spelled out.  `Find` is the linear scan that the hash index stands for, and
    `SetSymbol` says what adding one symbol does to the list. */
module ElfSymbols {
  import opened Basics

  type Name = seq<Byte>

  const STB_LOCAL: int := 0
  const STB_GLOBAL: int := 1
  const STB_WEAK: int := 2
  const SHN_UNDEF: nat := 0
  const SHN_LORESERVE: nat := 0xff00
  const SHN_COMMON: nat := 0xfff2
  const STV_DEFAULT: int := 0
  const STV_INTERNAL: int := 1
  const STV_HIDDEN: int := 2

  /** Everything a symbol record holds apart from its name. */
  datatype Attrs = Attrs(value: int, size: int, info: Byte, other: Byte, shndx: nat)

  /** A symbol with its name spelled out. */
  datatype Symbol = Symbol(name: Name, a: Attrs)

  /** The table together with the two global flags that resolution touches. */
  datatype Table = Table(syms: seq<Symbol>, errors: nat, newUndef: bool)

  /** What resolution reads from its surroundings: the number of the bss section and
      whether the table is a dynamic one. */
  datatype Env = Env(bss: nat, dynamicTable: bool)

  function Bind(info: Byte): int { info / 16 }

  function Type(info: Byte): int { info % 16 }

  function Visibility(other: Byte): (v: int)
    ensures 0 <= v < 4
  {
    other % 4
  }

  function WithVisibility(other: Byte, vis: int): Byte
    requires 0 <= vis < 4
  {
    other / 4 * 4 + vis
  }

  predicate AsmSet(other: Byte) { other / 4 % 2 == 1 }

  predicate IsLocal(a: Attrs) { Bind(a.info) == STB_LOCAL }

  // ------------------------------------------------------------------ lookup

  /** The largest index in [1, lim) holding a non-local symbol of this name, else 0. */
  function FindBelow(syms: seq<Symbol>, name: Name, lim: nat): (r: nat)
    requires lim <= |syms|
    ensures r == 0 || (r < lim && !IsLocal(syms[r].a) && syms[r].name == name)
  {
    if lim <= 1 then 0
    else if !IsLocal(syms[lim - 1].a) && syms[lim - 1].name == name then lim - 1
    else FindBelow(syms, name, lim - 1)
  }

  lemma {:induction false} FindBelowIsLast(syms: seq<Symbol>, name: Name, lim: nat)
    requires lim <= |syms|
    ensures forall i :: FindBelow(syms, name, lim) < i < lim ==> IsLocal(syms[i].a) || syms[i].name != name
  {
    if lim > 1 { FindBelowIsLast(syms, name, lim - 1); }
  }

  function Find(syms: seq<Symbol>, name: Name): nat { FindBelow(syms, name, |syms|) }

  // -------------------------------------------------------------- resolution

  /** What happens to an entry that is already in the table. */
  datatype Outcome = Outcome(a: Attrs, clash: bool, patched: bool)

  /** The more constraining of two visibilities. */
  function MergedVisibility(had: int, next: int): int
  {
    if had == STV_DEFAULT then next
    else if next == STV_DEFAULT then had
    else if had < next then had else next
  }

  predicate IsCommonOrBss(shndx: nat, env: Env) { shndx == SHN_COMMON || shndx == env.bss }

  /** The entry `had` meets another symbol `e` of the same name. */
  function Resolve(had: Attrs, e: Attrs, env: Env): Outcome
  {
    if had == e then Outcome(had, false, false)
    else if had.shndx == SHN_UNDEF then Outcome(e, false, true)
    else
      var vis := MergedVisibility(Visibility(had.other), Visibility(e.other));
      var other := WithVisibility(had.other, vis);
      var keep := Outcome(had.(other := other), false, false);
      var patch := Outcome(e.(other := other), false, true);
      if e.shndx == SHN_UNDEF then keep
      else if Bind(e.info) == STB_GLOBAL && Bind(had.info) == STB_WEAK then patch
      else if Bind(e.info) == STB_WEAK && Bind(had.info) == STB_GLOBAL then keep
      else if Bind(e.info) == STB_WEAK && Bind(had.info) == STB_WEAK then keep
      else if Visibility(e.other) == STV_HIDDEN || Visibility(e.other) == STV_INTERNAL then keep
      else if IsCommonOrBss(had.shndx, env) && e.shndx < SHN_LORESERVE && e.shndx != env.bss then patch
      else if IsCommonOrBss(e.shndx, env) then keep
      else if env.dynamicTable then keep
      else if AsmSet(other) then patch
      else keep.(clash := true)
  }

  /** Two symbols that are visible to the linker never merge into a local one. */
  lemma ResolveStaysNonLocal(had: Attrs, e: Attrs, env: Env)
    ensures !IsLocal(had) && !IsLocal(e) ==> !IsLocal(Resolve(had, e, env).a)
  {
  }

  /** Adds one symbol; the result names the index that now stands for it. */
  function SetSymbol(t: Table, e: Symbol, env: Env): (Table, nat)
  {
    var i := if IsLocal(e.a) then 0 else Find(t.syms, e.name);
    if i == 0 then (t.(syms := t.syms + [e]), |t.syms|)
    else
      var o := Resolve(t.syms[i].a, e.a, env);
      (Table(t.syms[i := Symbol(e.name, o.a)],
             if o.clash then t.errors + 1 else t.errors,
             t.newUndef || o.patched), i)
  }

  /** An undefined symbol leaves a compilation as a global one. */
  function Globalize(a: Attrs): Attrs
  {
    if a.shndx == SHN_UNDEF && IsLocal(a) then a.(info := STB_GLOBAL * 16 + Type(a.info)) else a
  }

  /** Adds a whole list, in order; the second component maps each position of the list to
      the index that stands for it. */
  function Merge(t: Table, tail: seq<Symbol>, env: Env): (r: (Table, seq<nat>))
    ensures |r.1| == |tail|
  {
    if tail == [] then (t, [])
    else
      var last := |tail| - 1;
      var (t1, tr) := Merge(t, tail[..last], env);
      var (t2, i) := SetSymbol(t1, Symbol(tail[last].name, Globalize(tail[last].a)), env);
      (t2, tr + [i])
  }

  lemma MergeStart(t: Table, tail: seq<Symbol>, env: Env)
    ensures Merge(t, tail[..0], env) == (t, [])
  {
  }

  lemma MergeStep(t: Table, tail: seq<Symbol>, i: nat, env: Env)
    requires i < |tail|
    ensures var (t1, tr) := Merge(t, tail[..i], env);
            var (t2, j) := SetSymbol(t1, Symbol(tail[i].name, Globalize(tail[i].a)), env);
            Merge(t, tail[..i + 1], env) == (t2, tr + [j])
  {
    hide SetSymbol, Globalize;
    assert tail[..i + 1][..i] == tail[..i];
  }

  // ----------------------------------------------------- what enters, and as what

  /** As a symbol leaves a compile: an undefined one that was local (0 in the upper half of the
      info byte) is global then (1 there) and has its type; any other is as it was. */
  predicate LeavesAs(a: Attrs, b: Attrs)
  {
    b == if a.shndx == 0 && a.info / 16 == 0 then a.(info := 16 + a.info % 16) else a
  }

  /** A visible entry of this name. */
  ghost predicate Named(s: seq<Symbol>, name: Name)
  {
    exists i :: 0 <= i < |s| && s[i].a.info / 16 != 0 && s[i].name == name
  }

  /** No other symbol of the list has the name of the k-th. */
  ghost predicate Alone(tail: seq<Symbol>, k: nat)
  {
    k < |tail| && forall i :: 0 <= i < |tail| && i != k ==> tail[i].name != tail[k].name
  }

  lemma FindNone(s: seq<Symbol>, name: Name)
    requires !Named(s, name)
    ensures Find(s, name) == 0
  {
  }

  lemma FindSome(s: seq<Symbol>, name: Name)
    requires Named(s, name) && 1 <= |s| && s[0].a.info / 16 == 0
    ensures 0 < Find(s, name) < |s|
  {
    FindBelowIsLast(s, name, |s|);
  }

  lemma SetSymbolNames(t: Table, e: Symbol, env: Env, name: Name)
    requires !Named(t.syms, name) && e.name != name
    ensures !Named(SetSymbol(t, e, env).0.syms, name)
  {
    hide Find, Resolve;
    FindIs(t.syms, e.name);
  }

  lemma FindIs(s: seq<Symbol>, name: Name)
    ensures Find(s, name) == 0 || (Find(s, name) < |s| && s[Find(s, name)].name == name)
  {
  }

  /** A symbol of another name changes no entry of this one, and adds none. */
  lemma SetSymbolOther(t: Table, e: Symbol, env: Env, i: nat)
    requires i < |t.syms| && t.syms[i].name != e.name
    ensures var u := SetSymbol(t, e, env).0.syms; i < |u| && u[i] == t.syms[i]
  {
    hide Find, Resolve;
    FindIs(t.syms, e.name);
  }

  lemma {:induction false} MergeNames(t: Table, tail: seq<Symbol>, env: Env, name: Name)
    requires !Named(t.syms, name) && forall i :: 0 <= i < |tail| ==> tail[i].name != name
    ensures !Named(Merge(t, tail, env).0.syms, name)
    decreases |tail|
  {
    if tail != [] {
      var last := |tail| - 1;
      MergeNames(t, tail[..last], env, name);
      hide Merge, SetSymbol, Named, Globalize;
      MergeStep(t, tail, last, env);
      assert tail[..last + 1] == tail;
      SetSymbolNames(Merge(t, tail[..last], env).0, Symbol(tail[last].name, Globalize(tail[last].a)), env, name);
    }
  }

  lemma GlobalizeLeaves(a: Attrs)
    ensures LeavesAs(a, Globalize(a))
  {
  }

  /** Main result: a symbol whose name nothing else has enters the table as it leaves the
      compile; an undefined local one becomes an undefined global one, of its type. */
  lemma {:induction false} MergeEnters(t: Table, tail: seq<Symbol>, env: Env, k: nat)
    requires Alone(tail, k) && !Named(t.syms, tail[k].name)
    ensures var (u, tr) := Merge(t, tail, env);
            && tr[k] < |u.syms| && u.syms[tr[k]].name == tail[k].name
            && LeavesAs(tail[k].a, u.syms[tr[k]].a)
    decreases |tail|
  {
    var last := |tail| - 1;
    var t1 := Merge(t, tail[..last], env).0;
    var e := Symbol(tail[last].name, Globalize(tail[last].a));
    MergeStep(t, tail, last, env);
    assert tail[..last + 1] == tail;
    GlobalizeLeaves(tail[last].a);
    if k == last {
      MergeNames(t, tail[..last], env, tail[k].name);
      FindNone(t1.syms, tail[k].name);
      hide Merge, Globalize, Find, Named, LeavesAs;
    } else {
      hide SetSymbol, Globalize, LeavesAs, Named, Merge;
      assert tail[..last][k] == tail[k] && Alone(tail[..last], k);
      MergeEnters(t, tail[..last], env, k);
      SetSymbolOther(t1, e, env, Merge(t, tail[..last], env).1[k]);
    }
  }

  lemma SetSymbolLocal(t: Table, e: Symbol, env: Env, i: nat)
    requires i < |t.syms| && t.syms[i].a.info / 16 == 0
    ensures var u := SetSymbol(t, e, env).0.syms; i < |u| && u[i] == t.syms[i]
  {
    hide FindBelow, Resolve;
  }

  /** A symbol that is local and defined enters as it is, whatever else has its name. */
  lemma {:induction false} MergeLocal(t: Table, tail: seq<Symbol>, env: Env, k: nat)
    requires k < |tail| && tail[k].a.info / 16 == 0 && tail[k].a.shndx != 0
    ensures var (u, tr) := Merge(t, tail, env); |t.syms| <= tr[k] < |u.syms| && u.syms[tr[k]] == tail[k]
    decreases |tail|
  {
    var last := |tail| - 1;
    var t1 := Merge(t, tail[..last], env).0;
    var e := Symbol(tail[last].name, Globalize(tail[last].a));
    MergeStep(t, tail, last, env);
    assert tail[..last + 1] == tail;
    if k == last {
      GlobalizeLeaves(tail[last].a);
      assert e == tail[k];
      if |t.syms| > 0 { NameKept(t, tail[..last], env, 0); }
      hide Merge, Globalize, Find;
    } else {
      hide SetSymbol, Globalize, Merge;
      assert tail[..last][k] == tail[k];
      MergeLocal(t, tail[..last], env, k);
      SetSymbolLocal(t1, e, env, Merge(t, tail[..last], env).1[k]);
    }
  }

  // ------------------------------------------- a reference to what is defined

  lemma FindOn(t: Table, e: Symbol, env: Env, name: Name)
    requires Find(t.syms, name) != 0
    ensures Find(SetSymbol(t, e, env).0.syms, name) == Find(t.syms, name)
  {
    var i := Find(t.syms, name);
    var u := SetSymbol(t, e, env).0.syms;
    FindBelowIsLast(t.syms, name, |t.syms|);
    FindBelowIsLast(u, name, |u|);
    FindIs(t.syms, e.name);
    if !IsLocal(e.a) && Find(t.syms, e.name) != 0 {
      ResolveStaysNonLocal(t.syms[Find(t.syms, e.name)].a, e.a, env);
    }
    hide Resolve, Bind;
    assert |t.syms| <= |u| <= |t.syms| + 1;
    assert i < |u| && u[i].name == name && !IsLocal(u[i].a);
    assert Find(u, name) >= i;
  }

  /** The entry is defined, and an undefined symbol changes its visibility only. */
  predicate KeptBy(had: Attrs, a: Attrs) { a == had.(other := a.other) }

  lemma UndefinedKeeps(had: Attrs, e: Attrs, env: Env)
    requires had.shndx != 0 && e.shndx == 0
    ensures KeptBy(had, Resolve(had, e, env).a)
  {
  }

  /** Main result: an undefined symbol whose name is defined in the table already is represented
      by that entry, which keeps its value, size, binding, type and section. */
  lemma {:induction false} MergeRefers(t: Table, tail: seq<Symbol>, env: Env, k: nat)
    requires Alone(tail, k) && tail[k].a.shndx == 0
    requires 1 <= |t.syms| && t.syms[0].a.info / 16 == 0 && Named(t.syms, tail[k].name)
    ensures var (u, tr) := Merge(t, tail, env);
            var i := Find(t.syms, tail[k].name);
            && tr[k] == i < |t.syms| <= |u.syms|
            && (t.syms[i].a.shndx != 0 ==> KeptBy(t.syms[i].a, u.syms[i].a))
    decreases |tail|
  {
    var name := tail[k].name;
    var i := Find(t.syms, name);
    FindSome(t.syms, name);
    var last := |tail| - 1;
    var (t1, tr1) := Merge(t, tail[..last], env);
    var e := Symbol(tail[last].name, Globalize(tail[last].a));
    MergeStep(t, tail, last, env);
    assert tail[..last + 1] == tail;
    GlobalizeLeaves(tail[last].a);
    if k == last {
      MergeSame(t, tail[..last], env, name);
      hide Merge, Globalize, Find, Named, Resolve;
      if t.syms[i].a.shndx != 0 { UndefinedKeeps(t.syms[i].a, e.a, env); }
    } else {
      hide SetSymbol, Globalize, LeavesAs, Named, Merge, KeptBy;
      assert tail[..last][k] == tail[k] && Alone(tail[..last], k);
      MergeRefers(t, tail[..last], env, k);
      FindIs(t.syms, name);
      NameKept(t, tail[..last], env, i);
      SetSymbolOther(t1, e, env, i);
      SetSymbolGrows(t1, e, env);
    }
  }

  lemma SetSymbolGrows(t: Table, e: Symbol, env: Env)
    ensures |t.syms| <= |SetSymbol(t, e, env).0.syms|
    ensures forall i :: 0 <= i < |t.syms| ==> SetSymbol(t, e, env).0.syms[i].name == t.syms[i].name
  {
    hide Find, Resolve;
    FindIs(t.syms, e.name);
  }

  lemma {:induction false} NameKept(t: Table, tail: seq<Symbol>, env: Env, i: nat)
    requires i < |t.syms|
    ensures var u := Merge(t, tail, env).0.syms; |t.syms| <= |u| && u[i].name == t.syms[i].name
    decreases |tail|
  {
    if tail != [] {
      var last := |tail| - 1;
      NameKept(t, tail[..last], env, i);
      MergeStep(t, tail, last, env);
      assert tail[..last + 1] == tail;
      hide Merge, SetSymbol, Globalize;
      SetSymbolGrows(Merge(t, tail[..last], env).0, Symbol(tail[last].name, Globalize(tail[last].a)), env);
    }
  }

  /** Symbols of other names leave the entry of this one alone. */
  lemma {:induction false} MergeSame(t: Table, tail: seq<Symbol>, env: Env, name: Name)
    requires Find(t.syms, name) != 0 && forall i :: 0 <= i < |tail| ==> tail[i].name != name
    ensures var (u, i) := (Merge(t, tail, env).0.syms, Find(t.syms, name));
            Find(u, name) == i < |t.syms| <= |u| && u[i] == t.syms[i]
    decreases |tail|
  {
    FindIs(t.syms, name);
    if tail != [] {
      var last := |tail| - 1;
      MergeSame(t, tail[..last], env, name);
      MergeStep(t, tail, last, env);
      assert tail[..last + 1] == tail;
      hide Merge, SetSymbol, Globalize, Find;
      var (t1, e) := (Merge(t, tail[..last], env).0, Symbol(tail[last].name, Globalize(tail[last].a)));
      FindOn(t1, e, env, name);
      SetSymbolOther(t1, e, env, Find(t.syms, name));
      SetSymbolGrows(t1, e, env);
    }
  }

  /** The entry j stands for a symbol as it leaves the compile. */
  predicate EntersAt(after: seq<Symbol>, e: Symbol, j: nat)
  {
    j < |after| && after[j].name == e.name && LeavesAs(e.a, after[j].a)
  }

  /** Of a table before and after the end of a compile whose symbols are those from `first` on: each
      local one that is defined enters as it is; each whose name nothing else has enters as it leaves
      the compile, and an undefined one whose name is defined before leaves that entry as it was, but
      for its visibility. */
  ghost predicate Ended(before: seq<Symbol>, first: nat, after: seq<Symbol>)
    requires first <= |before|
  {
    && first <= |after|
    && (forall k :: first <= k < |before| && before[k].a.info / 16 == 0 && before[k].a.shndx != 0 ==>
          before[k] in after[first..])
    && (forall k :: 0 <= k < |before| - first && Alone(before[first..], k) ==>
          !Named(before[..first], before[first..][k].name) ==>
            exists j: nat :: EntersAt(after, before[first..][k], j))
    && (forall k :: 0 <= k < |before| - first && Alone(before[first..], k) ==>
          before[first..][k].a.shndx == 0 && Named(before[..first], before[first..][k].name) ==>
            var i := Find(before[..first], before[first..][k].name);
            i < first && i < |after| && (before[i].a.shndx != 0 ==> KeptBy(before[i].a, after[i].a)))
  }

  lemma MergeEnds(before: seq<Symbol>, first: nat, errors: nat, newUndef: bool, env: Env)
    requires 1 <= first <= |before| && before[0].a.info / 16 == 0
    ensures Ended(before, first, Merge(Table(before[..first], errors, newUndef), before[first..], env).0.syms)
  {
    hide Merge, Alone, Named, Find, LeavesAs, KeptBy;
    var (t, tail) := (Table(before[..first], errors, newUndef), before[first..]);
    var (u, tr) := Merge(t, tail, env);
    NameKept(t, tail, env, 0);
    forall k: nat | first <= k < |before| && before[k].a.info / 16 == 0 && before[k].a.shndx != 0
      ensures before[k] in u.syms[first..]
    {
      MergeLocal(t, tail, env, k - first);
      assert u.syms[first..][tr[k - first] - first] == before[k];
    }
    forall k | 0 <= k < |tail| && Alone(tail, k) && !Named(t.syms, tail[k].name)
      ensures exists j: nat :: EntersAt(u.syms, tail[k], j)
    {
      MergeEnters(t, tail, env, k);
      assert EntersAt(u.syms, tail[k], tr[k]);
    }
    forall k | 0 <= k < |tail| && Alone(tail, k) && tail[k].a.shndx == 0 && Named(t.syms, tail[k].name)
      ensures var i := Find(t.syms, tail[k].name);
              i < first && i < |u.syms| && (before[i].a.shndx != 0 ==> KeptBy(before[i].a, u.syms[i].a))
    {
      MergeRefers(t, tail, env, k);
    }
  }
}
