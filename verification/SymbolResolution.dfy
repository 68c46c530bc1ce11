/** What merging a list of symbols amounts to, name by name, whatever their order. */
module SymbolResolution {
  import opened Basics
  import opened ElfSymbols
  import ST = SymbolTable

  // ------------------------------------------------ the table keeps its shape

  /** At most one visible symbol of each name; index 0 is the null symbol. */
  ghost predicate OnePerName(s: seq<Symbol>)
  {
    && 1 <= |s| && IsLocal(s[0].a)
    && forall i, j :: 0 <= i < j < |s| && !IsLocal(s[i].a) && !IsLocal(s[j].a) ==> s[i].name != s[j].name
  }

  /** t extends s: no symbol goes away, changes its name or crosses between local and
      visible, locals are untouched, and what was defined stays defined. */
  ghost predicate Extends(s: seq<Symbol>, t: seq<Symbol>)
  {
    && |s| <= |t|
    && forall i :: 0 <= i < |s| ==>
         && t[i].name == s[i].name && IsLocal(t[i].a) == IsLocal(s[i].a)
         && (IsLocal(s[i].a) ==> t[i] == s[i])
         && (s[i].a.shndx != SHN_UNDEF ==> t[i].a.shndx != SHN_UNDEF)
  }

  lemma FindUnique(s: seq<Symbol>, i: nat)
    requires OnePerName(s) && i < |s| && !IsLocal(s[i].a)
    ensures Find(s, s[i].name) == i
  {
    FindBelowIsLast(s, s[i].name, |s|);
  }

  lemma SetSymbolKeeps(t: Table, e: Symbol, env: Env)
    ensures var (u, i) := SetSymbol(t, e, env);
            && Extends(t.syms, u.syms) && i < |u.syms|
            && u.syms[i].name == e.name && IsLocal(u.syms[i].a) == IsLocal(e.a)
            && (IsLocal(e.a) ==> u.syms[i] == e)
            && (OnePerName(t.syms) ==> OnePerName(u.syms))
  {
    hide FindBelow, Resolve, Bind;
    FindBelowIsLast(t.syms, e.name, |t.syms|);
    var i := Find(t.syms, e.name);
    if !IsLocal(e.a) && i != 0 {
      ResolveStaysNonLocal(t.syms[i].a, e.a, env);
      ResolveStaysDefined(t.syms[i].a, e.a, env);
    }
  }

  lemma ResolveStaysDefined(had: Attrs, e: Attrs, env: Env)
    ensures had.shndx != SHN_UNDEF ==> Resolve(had, e, env).a.shndx != SHN_UNDEF
  {
  }

  lemma GlobalizeLocal(a: Attrs)
    ensures IsLocal(Globalize(a)) ==> Globalize(a) == a
  {
  }

  /** After a merge every symbol of the list is represented, under its own name, by the index
      the renumbering gives it; a local one is represented unchanged. */
  lemma {:induction false} MergeKeeps(t: Table, tail: seq<Symbol>, env: Env)
    ensures var (u, tr) := Merge(t, tail, env);
            && Extends(t.syms, u.syms) && (OnePerName(t.syms) ==> OnePerName(u.syms))
            && forall k :: 0 <= k < |tail| ==>
                 && tr[k] < |u.syms| && u.syms[tr[k]].name == tail[k].name
                 && IsLocal(u.syms[tr[k]].a) == IsLocal(Globalize(tail[k].a))
                 && (IsLocal(Globalize(tail[k].a)) ==> u.syms[tr[k]] == tail[k])
  {
    hide SetSymbol, Bind;
    if tail != [] {
      var last := |tail| - 1;
      MergeKeeps(t, tail[..last], env);
      var (t1, tr1) := Merge(t, tail[..last], env);
      var e := Symbol(tail[last].name, Globalize(tail[last].a));
      SetSymbolKeeps(t1, e, env);
      var (u, i) := SetSymbol(t1, e, env);
      ExtendsTransitive(t.syms, t1.syms, u.syms);
      GlobalizeLocal(tail[last].a);
      assert Merge(t, tail, env) == (u, tr1 + [i]);
      forall k | 0 <= k < last
        ensures (tr1 + [i])[k] < |u.syms| && u.syms[tr1[k]].name == tail[k].name
        ensures IsLocal(u.syms[tr1[k]].a) == IsLocal(Globalize(tail[k].a))
        ensures IsLocal(Globalize(tail[k].a)) ==> u.syms[tr1[k]] == tail[k]
      {
        assert tail[..last][k] == tail[k];
      }
    }
  }

  /** What a linker does to its table: it adds one symbol, or a whole compile. */
  datatype Step = Add(e: Symbol) | Compile(tail: seq<Symbol>)

  function Linked(steps: seq<Step>, env: Env): Table
  {
    if steps == [] then Table([Symbol([], Attrs(0, 0, 0, 0, 0))], 0, false)
    else
      var t := Linked(steps[..|steps| - 1], env);
      match steps[|steps| - 1]
      case Add(e) => SetSymbol(t, e, env).0
      case Compile(tail) => Merge(t, tail, env).0
  }

  /** Main result: in every table that linking can reach there is one visible symbol to a name,
      and lookup finds it. */
  lemma {:induction false} LinkedOnePerName(steps: seq<Step>, env: Env)
    ensures OnePerName(Linked(steps, env).syms)
    ensures var s := Linked(steps, env).syms;
            forall i :: 0 <= i < |s| && !IsLocal(s[i].a) ==> Find(s, s[i].name) == i
  {
    hide SetSymbol, Merge, Find;
    if steps != [] {
      var before := steps[..|steps| - 1];
      LinkedOnePerName(before, env);
      match steps[|steps| - 1] {
        case Add(e) => SetSymbolKeeps(Linked(before, env), e, env);
        case Compile(tail) => MergeKeeps(Linked(before, env), tail, env);
      }
    }
    var s := Linked(steps, env).syms;
    forall i | 0 <= i < |s| && !IsLocal(s[i].a) ensures Find(s, s[i].name) == i { FindUnique(s, i); }
  }

  lemma ExtendsTransitive(s: seq<Symbol>, t: seq<Symbol>, u: seq<Symbol>)
    requires Extends(s, t) && Extends(t, u)
    ensures Extends(s, u)
  {
  }

  // ------------------------------------------------------- one name at a time

  /** The visible entry of a name. */
  function Entry(s: seq<Symbol>, name: Name): Option<Attrs>
  {
    var i := Find(s, name);
    if i == 0 || i >= |s| then None else Some(s[i].a)
  }

  /** The visible symbols of one name among those added, in order. */
  function Selected(tail: seq<Symbol>, name: Name): seq<Attrs>
  {
    if tail == [] then []
    else
      var last := |tail| - 1;
      var a := Globalize(tail[last].a);
      var pre := Selected(tail[..last], name);
      if !IsLocal(a) && tail[last].name == name then pre + [a] else pre
  }

  /** One entry after meeting each of the list in turn. */
  function Meet(start: Option<Attrs>, list: seq<Attrs>, env: Env): (r: Option<Attrs>)
  {
    if list == [] then start
    else
      var last := |list| - 1;
      match Meet(start, list[..last], env)
      case None => Some(list[last])
      case Some(a) => Some(Resolve(a, list[last], env).a)
  }

  /** How many of the list are rejected as second definitions. */
  function Clashes(start: Option<Attrs>, list: seq<Attrs>, env: Env): nat
  {
    if list == [] then 0
    else
      var last := |list| - 1;
      Clashes(start, list[..last], env) +
      match Meet(start, list[..last], env)
      case None => 0
      case Some(a) => if Resolve(a, list[last], env).clash then 1 else 0
  }

  lemma SetSymbolEntry(t: Table, e: Symbol, env: Env, name: Name)
    requires OnePerName(t.syms)
    ensures var u := SetSymbol(t, e, env).0;
            && (if !IsLocal(e.a) && e.name == name
                then && Entry(u.syms, name) == Meet(Entry(t.syms, name), [e.a], env)
                     && u.errors == t.errors + Clashes(Entry(t.syms, name), [e.a], env)
                else Entry(u.syms, name) == Entry(t.syms, name))
            && (IsLocal(e.a) ==> u.errors == t.errors)
  {
    hide Resolve, Bind, FindBelow, Globalize;
    var (u, i) := SetSymbol(t, e, env);
    assert [e.a][..0] == [];
    SetSymbolKeeps(t, e, env);
    FindBelowIsLast(t.syms, name, |t.syms|);
    FindBelowIsLast(u.syms, name, |u.syms|);
    var j := Find(t.syms, name);
    if j != 0 { FindUnique(u.syms, j); }
    if !IsLocal(e.a) { FindUnique(u.syms, i); }
  }

  /** Merging a list is, for each name by itself, one entry meeting that name's symbols. */
  lemma {:induction false} MergeByName(t: Table, tail: seq<Symbol>, env: Env, name: Name)
    requires OnePerName(t.syms)
    ensures Entry(Merge(t, tail, env).0.syms, name) == Meet(Entry(t.syms, name), Selected(tail, name), env)
  {
    hide SetSymbol, Bind, Resolve, Globalize, Find;
    if tail != [] {
      var last := |tail| - 1;
      MergeByName(t, tail[..last], env, name);
      MergeKeeps(t, tail[..last], env);
      var t1 := Merge(t, tail[..last], env).0;
      var e := Symbol(tail[last].name, Globalize(tail[last].a));
      SetSymbolEntry(t1, e, env, name);
      MeetOne(Entry(t.syms, name), Selected(tail[..last], name), e.a, env);
    }
  }

  lemma MeetOne(start: Option<Attrs>, list: seq<Attrs>, a: Attrs, env: Env)
    ensures Meet(Meet(start, list, env), [a], env) == Meet(start, list + [a], env)
    ensures Clashes(start, list + [a], env) == Clashes(start, list, env) + Clashes(Meet(start, list, env), [a], env)
  {
    hide Resolve;
    assert (list + [a])[..|list|] == list;
    assert [a][..0] == [];
  }

  /** The merge reports an error exactly when some name has a clash of its own. */
  lemma {:induction false} MergeErrors(t: Table, tail: seq<Symbol>, env: Env)
    requires OnePerName(t.syms)
    ensures var u := Merge(t, tail, env).0;
            && t.errors <= u.errors
            && (t.errors < u.errors <==>
                 exists name :: 0 < Clashes(Entry(t.syms, name), Selected(tail, name), env))
  {
    hide SetSymbol, Bind, Resolve, Globalize, Find;
    if tail == [] { return; }
    var last := |tail| - 1;
    var pre := tail[..last];
    MergeErrors(t, pre, env);
    MergeKeeps(t, pre, env);
    var t1 := Merge(t, pre, env).0;
    var e := Symbol(tail[last].name, Globalize(tail[last].a));
    forall name ensures
      Clashes(Entry(t.syms, name), Selected(tail, name), env) ==
      Clashes(Entry(t.syms, name), Selected(pre, name), env) +
      if !IsLocal(e.a) && e.name == name then Clashes(Entry(t1.syms, name), [e.a], env) else 0
    {
      MergeByName(t, pre, env, name);
      MeetOne(Entry(t.syms, name), Selected(pre, name), e.a, env);
    }
    SetSymbolEntry(t1, e, env, e.name);
    var u := Merge(t, tail, env).0;
    assert u == SetSymbol(t1, e, env).0;
    if t.errors < u.errors {
      if t.errors < t1.errors {
        var name :| 0 < Clashes(Entry(t.syms, name), Selected(pre, name), env);
        assert 0 < Clashes(Entry(t.syms, name), Selected(tail, name), env);
      } else {
        assert 0 < Clashes(Entry(t.syms, e.name), Selected(tail, e.name), env);
      }
    }
  }

  // ------------------------------------------------------------- precedence

  /** A symbol of an ordinary program: default visibility, not from `.set`, in a regular
      section, bss, common storage, or undefined. */
  predicate Plain(a: Attrs)
  {
    && a.other == STV_DEFAULT && (Bind(a.info) == STB_GLOBAL || Bind(a.info) == STB_WEAK)
    && (a.shndx == SHN_COMMON || a.shndx < SHN_LORESERVE)
  }

  function Rank(a: Attrs, env: Env): (r: nat)
    ensures r <= 3
  {
    if a.shndx == SHN_UNDEF then 0
    else if Bind(a.info) == STB_WEAK then 1
    else if IsCommonOrBss(a.shndx, env) then 2
    else 3
  }

  function MaxRank(list: seq<Attrs>, env: Env): (r: nat)
    ensures r <= 3
    ensures forall k :: 0 <= k < |list| ==> Rank(list[k], env) <= r
    ensures list != [] ==> exists k :: 0 <= k < |list| && Rank(list[k], env) == r
  {
    if list == [] then 0
    else
      var last := |list| - 1;
      var r := MaxRank(list[..last], env);
      assert forall k :: 0 <= k < last ==> list[..last][k] == list[k];
      if Rank(list[last], env) >= r then Rank(list[last], env) else r
  }

  lemma PlainOther()
    ensures Visibility(STV_DEFAULT) == STV_DEFAULT && !AsmSet(STV_DEFAULT)
    ensures WithVisibility(STV_DEFAULT, STV_DEFAULT) == STV_DEFAULT
  {
  }

  /** Two plain symbols of one name: the later one wins when it has the greater rank or
      nothing is defined yet, and clashes when both are regular definitions and differ. */
  lemma PlainResolve(had: Attrs, e: Attrs, env: Env)
    requires Plain(had) && Plain(e) && !env.dynamicTable
    ensures var o := Resolve(had, e, env);
            && o.a == (if Rank(had, env) < Rank(e, env) || Rank(had, env) == 0 then e else had)
            && (o.clash <==> Rank(had, env) == 3 && Rank(e, env) == 3 && had != e)
  {
    hide Visibility, AsmSet, WithVisibility, Bind;
    PlainOther();
  }

  /** The survivor of a list of plain symbols: the first of greatest rank, or the last one
      when none of them is defined. */
  ghost predicate Survives(a: Attrs, list: seq<Attrs>, env: Env)
  {
    && Rank(a, env) == MaxRank(list, env)
    && exists k :: 0 <= k < |list| && list[k] == a
         && if Rank(a, env) == 0 then k == |list| - 1 else forall i :: 0 <= i < k ==> Rank(list[i], env) < Rank(a, env)
  }

  lemma {:induction false} MeetPlain(list: seq<Attrs>, env: Env)
    requires list != [] && (forall k :: 0 <= k < |list| ==> Plain(list[k])) && !env.dynamicTable
    ensures var r := Meet(None, list, env); r.Some? && Plain(r.value) && Survives(r.value, list, env)
    ensures Clashes(None, list, env) == 0 <==>
            forall i, j :: 0 <= i < |list| && 0 <= j < |list| && Rank(list[i], env) == 3 && Rank(list[j], env) == 3
              ==> list[i] == list[j]
  {
    hide Plain, Resolve, Rank;
    var last := |list| - 1;
    var pre := list[..last];
    assert list == pre + [list[last]];
    if last == 0 {
      assert pre == [];
      assert list[0] == list[last];
    } else {
      MeetPlain(pre, env);
      PlainResolve(Meet(None, pre, env).value, list[last], env);
    }
  }

  // ------------------------------------------------ any two symbols, in numbers

  /** In common storage or in bss. */
  predicate Tentative(a: Attrs, env: Env) { a.shndx == 0xfff2 || a.shndx == env.bss }

  /** Two different symbols of one name, global (1) or weak (2): whether the later one replaces the
      entry, and whether they clash.  The survivor differs from the one or the other only in its
      visibility. */
  lemma WhoSurvives(had: Attrs, e: Attrs, env: Env)
    requires had != e && had.info / 16 in {1, 2} && e.info / 16 in {1, 2}
    ensures var o := Resolve(had, e, env);
            var contest := had.shndx != 0 && e.shndx != 0 && had.info / 16 == 1 && e.info / 16 == 1
                           && e.other % 4 !in {1, 2} && !Tentative(e, env);
            var givesWay := Tentative(had, env) && e.shndx < 0xff00;
            var fromSet := !env.dynamicTable && had.other / 4 % 2 == 1;
            && (o.clash <==> contest && !givesWay && !env.dynamicTable && !fromSet)
            && (o.patched <==> had.shndx == 0 || (contest && (givesWay || fromSet))
                               || (e.shndx != 0 && e.info / 16 == 1 && had.info / 16 == 2))
            && o.a == (if o.patched then e else had).(other := o.a.other)
  {
  }

  /** How constraining a visibility is: DEFAULT (0), PROTECTED (3), HIDDEN (2), INTERNAL (1). */
  function Strictness(other: Byte): nat
  {
    match other % 4 case 0 => 0 case 3 => 1 case 2 => 2 case 1 => 3
  }

  function Stricter(a: nat, b: nat): nat { if a < b then b else a }

  /** Main result on visibility: the more constraining one of two symbols is in force exactly if the
      entry was defined or not the more constraining one; an undefined entry loses its own.  The other
      bits of the byte stay those of a defined entry. */
  lemma VisibilityIff(had: Attrs, e: Attrs, env: Env)
    ensures var a := Resolve(had, e, env).a;
            && (Strictness(a.other) == Stricter(Strictness(had.other), Strictness(e.other))
                <==> had.shndx != 0 || Strictness(had.other) <= Strictness(e.other))
            && (had.shndx != 0 ==> a.other / 4 == had.other / 4)
            && (had.shndx == 0 ==> a == e)
  {
    hide IsCommonOrBss, Bind, AsmSet;
    VisibilityMeets(had.other, e.other);
  }

  lemma VisibilityMeets(had: Byte, next: Byte)
    ensures var other := WithVisibility(had, MergedVisibility(Visibility(had), Visibility(next)));
            Strictness(other) == Stricter(Strictness(had), Strictness(next)) && other / 4 == had / 4
  {
  }

  /** A reference to a hidden symbol that comes first is forgotten: the definition has the default
      visibility, and HIDDEN if the two come the other way round. */
  lemma HiddenReferenceCounterexample(env: Env)
    requires env.bss != 1
    ensures var (reference, definition) := (Attrs(0, 0, 16, 2, 0), Attrs(0, 4, 17, 0, 1));
            && Meet(None, [reference, definition], env) == Some(definition)
            && Meet(None, [definition, reference], env) == Some(definition.(other := 2))
  {
    var (reference, definition) := (Attrs(0, 0, 16, 2, 0), Attrs(0, 4, 17, 0, 1));
    MeetOne(None, [reference], definition, env);
    MeetOne(None, [definition], reference, env);
    assert [reference] + [definition] == [reference, definition];
    assert [definition] + [reference] == [definition, reference];
  }

  /** The greatest strictness in a list. */
  function Strictest(list: seq<Attrs>): (r: nat)
    ensures forall k :: 0 <= k < |list| ==> Strictness(list[k].other) <= r
    ensures r == 0 || exists k :: 0 <= k < |list| && Strictness(list[k].other) == r
  {
    if list == [] then 0
    else
      var last := |list| - 1;
      var r := Strictest(list[..last]);
      assert forall k :: 0 <= k < last ==> list[..last][k] == list[k];
      Stricter(r, Strictness(list[last].other))
  }

  ghost predicate Undefined(list: seq<Attrs>) { forall k :: 0 <= k < |list| ==> list[k].shndx == 0 }

  lemma {:induction false} UndefinedMeet(list: seq<Attrs>, env: Env)
    requires Undefined(list)
    ensures match Meet(None, list, env) case None => true case Some(a) => a.shndx == 0
  {
    if list != [] {
      var last := |list| - 1;
      UndefinedMeet(list[..last], env);
      if Meet(None, list[..last], env).Some? { VisibilityIff(Meet(None, list[..last], env).value, list[last], env); }
    }
  }

  /** Main result: of the symbols of one name, the references before the first definition do not
      count towards its visibility, and of all others the most constraining one is in force. */
  lemma {:induction false} MeetVisibility(before: seq<Attrs>, after: seq<Attrs>, env: Env)
    requires Undefined(before) && after != [] && after[0].shndx != 0
    ensures var r := Meet(None, before + after, env);
            && r.Some? && r.value.shndx != 0
            && Strictness(r.value.other) == Strictest(after)
            && r.value.other / 4 == after[0].other / 4
    decreases |after|
  {
    hide Strictness, Resolve, Undefined;
    var last := |after| - 1;
    var (pre, e) := (after[..last], after[last]);
    assert before + after == (before + pre) + [e] && after == pre + [e];
    MeetOne(None, before + pre, e, env);
    if last == 0 {
      assert before + pre == before;
      UndefinedMeet(before, env);
      if Meet(None, before, env).Some? { VisibilityIff(Meet(None, before, env).value, e, env); }
    } else {
      MeetVisibility(before, pre, env);
      VisibilityIff(Meet(None, before + pre, env).value, e, env);
      ResolveStaysDefined(Meet(None, before + pre, env).value, e, env);
    }
  }

  /** Their order does not matter. */
  lemma StrictestOrder(l1: seq<Attrs>, l2: seq<Attrs>)
    requires multiset(l1) == multiset(l2)
    ensures Strictest(l1) == Strictest(l2)
  {
    hide Strictness;
    SameElements(l1, l2);
    SameElements(l2, l1);
  }

  // ------------------------------------------------------ order independence

  ghost predicate AllPlain(list: seq<Attrs>) { forall k :: 0 <= k < |list| ==> Plain(list[k]) }

  ghost predicate Regular(list: seq<Attrs>, a: Attrs, env: Env) { a in list && Rank(a, env) == 3 }

  /** Rearranging the symbols of one name changes neither the rank of the survivor nor whether
      there is an error; without an error a regular definition survives in every order. */
  lemma MeetOrder(l1: seq<Attrs>, l2: seq<Attrs>, env: Env)
    requires multiset(l1) == multiset(l2) && l1 != [] && AllPlain(l1) && !env.dynamicTable
    ensures AllPlain(l2) && l2 != []
    ensures var r1, r2 := Meet(None, l1, env), Meet(None, l2, env);
            && r1.Some? && r2.Some? && Rank(r1.value, env) == Rank(r2.value, env)
            && (Clashes(None, l1, env) == 0 <==> Clashes(None, l2, env) == 0)
            && (Clashes(None, l1, env) == 0 ==> forall a :: Regular(l1, a, env) ==> r1.value == a == r2.value)
  {
    hide Plain, Resolve, Rank, Meet, Clashes;
    SameElements(l1, l2);
    SameElements(l2, l1);
    MeetPlain(l1, env);
    MeetPlain(l2, env);
    assert MaxRank(l1, env) == MaxRank(l2, env) by {
      MaxRankReached(l1, l2, env);
      MaxRankReached(l2, l1, env);
    }
    var r1, r2 := Meet(None, l1, env).value, Meet(None, l2, env).value;
    assert r1 in l1 && r2 in l2;
    if Clashes(None, l1, env) == 0 {
      forall i, j | 0 <= i < |l2| && 0 <= j < |l2| && Rank(l2[i], env) == 3 && Rank(l2[j], env) == 3
        ensures l2[i] == l2[j]
      {
        var i1 :| 0 <= i1 < |l1| && l1[i1] == l2[i];
        var j1 :| 0 <= j1 < |l1| && l1[j1] == l2[j];
      }
    }
    if Clashes(None, l2, env) == 0 {
      forall i, j | 0 <= i < |l1| && 0 <= j < |l1| && Rank(l1[i], env) == 3 && Rank(l1[j], env) == 3
        ensures l1[i] == l1[j]
      {
        var i1 :| 0 <= i1 < |l2| && l2[i1] == l1[i];
        var j1 :| 0 <= j1 < |l2| && l2[j1] == l1[j];
      }
    }
  }

  lemma SameElements(l1: seq<Attrs>, l2: seq<Attrs>)
    requires multiset(l1) == multiset(l2)
    ensures |l1| == |l2| && forall k :: 0 <= k < |l2| ==> l2[k] in l1
  {
    assert |multiset(l1)| == |l1| && |multiset(l2)| == |l2|;
    forall k | 0 <= k < |l2| ensures l2[k] in l1 {
      assert l2[k] in multiset(l2);
      assert l2[k] in multiset(l1);
    }
  }

  lemma MaxRankReached(l1: seq<Attrs>, l2: seq<Attrs>, env: Env)
    requires l1 != [] && forall k :: 0 <= k < |l1| ==> l1[k] in l2
    ensures MaxRank(l1, env) <= MaxRank(l2, env)
  {
    hide Rank;
    var k :| 0 <= k < |l1| && Rank(l1[k], env) == MaxRank(l1, env);
    var j :| 0 <= j < |l2| && l2[j] == l1[k];
  }

  lemma {:induction false} SelectedCount(tail: seq<Symbol>, name: Name, a: Attrs)
    requires forall k :: 0 <= k < |tail| ==> !IsLocal(tail[k].a)
    ensures multiset(Selected(tail, name))[a] == multiset(tail)[Symbol(name, a)]
  {
    hide Bind;
    if tail != [] {
      var last := |tail| - 1;
      assert tail == tail[..last] + [tail[last]];
      assert forall k :: 0 <= k < last ==> tail[..last][k] == tail[k];
      SelectedCount(tail[..last], name, a);
    }
  }

  lemma {:induction false} SelectedFrom(tail: seq<Symbol>, name: Name)
    requires forall k :: 0 <= k < |tail| ==> Plain(tail[k].a)
    ensures AllPlain(Selected(tail, name))
  {
    hide Plain;
    if tail != [] {
      var last := |tail| - 1;
      assert forall k :: 0 <= k < last ==> tail[..last][k] == tail[k];
      SelectedFrom(tail[..last], name);
      PlainVisible(tail[last].a);
    }
  }

  lemma PlainVisible(a: Attrs)
    requires Plain(a)
    ensures !IsLocal(a) && Globalize(a) == a
  {
  }

  lemma {:induction false} MeetFrom(a: Attrs, list: seq<Attrs>, env: Env)
    ensures Meet(Some(a), list, env) == Meet(None, [a] + list, env)
    ensures Clashes(Some(a), list, env) == Clashes(None, [a] + list, env)
  {
    hide Resolve;
    if list == [] {
      assert [a] + list == [a];
      assert [a][..0] == [];
    } else {
      var last := |list| - 1;
      MeetFrom(a, list[..last], env);
      assert ([a] + list)[..last + 1] == [a] + list[..last];
    }
  }

  /** All symbols of a name: the entry already in the table, then those that are added. */
  function AllOf(t: Table, tail: seq<Symbol>, name: Name): seq<Attrs>
  {
    (match Entry(t.syms, name) case None => [] case Some(a) => [a]) + Selected(tail, name)
  }

  lemma MeetAll(t: Table, tail: seq<Symbol>, env: Env, name: Name)
    ensures Meet(Entry(t.syms, name), Selected(tail, name), env) == Meet(None, AllOf(t, tail, name), env)
    ensures Clashes(Entry(t.syms, name), Selected(tail, name), env) == Clashes(None, AllOf(t, tail, name), env)
  {
    hide Meet, Clashes, Selected, Find;
    match Entry(t.syms, name)
    case None => assert [] + Selected(tail, name) == Selected(tail, name);
    case Some(a) => MeetFrom(a, Selected(tail, name), env);
  }

  ghost predicate PlainTable(t: Table)
  {
    OnePerName(t.syms) && forall i :: 0 <= i < |t.syms| && !IsLocal(t.syms[i].a) ==> Plain(t.syms[i].a)
  }

  lemma AllOfOrder(t: Table, tail1: seq<Symbol>, tail2: seq<Symbol>, name: Name)
    requires PlainTable(t) && multiset(tail1) == multiset(tail2)
    requires forall k :: 0 <= k < |tail1| ==> Plain(tail1[k].a)
    ensures multiset(AllOf(t, tail1, name)) == multiset(AllOf(t, tail2, name))
    ensures AllPlain(AllOf(t, tail1, name))
  {
    hide Plain, Bind, Selected, FindBelow, Globalize;
    forall k | 0 <= k < |tail2| ensures Plain(tail2[k].a) && !IsLocal(tail2[k].a) {
      assert tail2[k] in multiset(tail2);
      assert tail2[k] in multiset(tail1);
      PlainVisible(tail2[k].a);
    }
    forall k | 0 <= k < |tail1| ensures !IsLocal(tail1[k].a) { PlainVisible(tail1[k].a); }
    var s1, s2 := Selected(tail1, name), Selected(tail2, name);
    forall a ensures multiset(s1)[a] == multiset(s2)[a] {
      SelectedCount(tail1, name, a);
      SelectedCount(tail2, name, a);
    }
    assert multiset(s1) == multiset(s2);
    SelectedFrom(tail1, name);
  }

  /** Two outcomes for one name agree: neither has an entry, or both have one of the greatest
      rank there is, and a regular definition that met no clash is the same in both. */
  ghost predicate SameSurvivor(r1: Option<Attrs>, r2: Option<Attrs>, all: seq<Attrs>, clean: bool, env: Env)
  {
    && (r1.None? <==> all == []) && (r2.None? <==> all == [])
    && (r1.Some? && r2.Some? ==>
          && Rank(r1.value, env) == Rank(r2.value, env) == MaxRank(all, env)
          && (clean && Rank(r1.value, env) == 3 ==> r1 == r2))
  }

  /** Main result: adding the same plain symbols in another order reports an error in the one
      case exactly when it does in the other, leaves every name with an entry of the same
      rank, and, when there is no error, with the same regular definition if it has one. */
  lemma MergeOrder(t: Table, tail1: seq<Symbol>, tail2: seq<Symbol>, env: Env, name: Name)
    requires PlainTable(t) && multiset(tail1) == multiset(tail2) && !env.dynamicTable
    requires forall k :: 0 <= k < |tail1| ==> Plain(tail1[k].a)
    ensures var u1, u2 := Merge(t, tail1, env).0, Merge(t, tail2, env).0;
            && (t.errors < u1.errors <==> t.errors < u2.errors)
            && SameSurvivor(Entry(u1.syms, name), Entry(u2.syms, name), AllOf(t, tail1, name),
                            t.errors == u1.errors, env)
  {
    hide Plain, Bind, Selected, Find, Globalize, Rank, Merge, Meet, Clashes, AllOf, Entry;
    var u1, u2 := Merge(t, tail1, env).0, Merge(t, tail2, env).0;
    MergeErrors(t, tail1, env);
    MergeErrors(t, tail2, env);
    forall n ensures Clashes(Entry(t.syms, n), Selected(tail1, n), env) == 0
                <==> Clashes(Entry(t.syms, n), Selected(tail2, n), env) == 0 {
      NameOrder(t, tail1, tail2, env, n);
    }
    MergeByName(t, tail1, env, name);
    MergeByName(t, tail2, env, name);
    NameOrder(t, tail1, tail2, env, name);
  }

  lemma NameOrder(t: Table, tail1: seq<Symbol>, tail2: seq<Symbol>, env: Env, name: Name)
    requires PlainTable(t) && multiset(tail1) == multiset(tail2) && !env.dynamicTable
    requires forall k :: 0 <= k < |tail1| ==> Plain(tail1[k].a)
    ensures Clashes(Entry(t.syms, name), Selected(tail1, name), env) == 0
       <==> Clashes(Entry(t.syms, name), Selected(tail2, name), env) == 0
    ensures SameSurvivor(Meet(Entry(t.syms, name), Selected(tail1, name), env),
                         Meet(Entry(t.syms, name), Selected(tail2, name), env), AllOf(t, tail1, name),
                         Clashes(Entry(t.syms, name), Selected(tail1, name), env) == 0, env)
  {
    hide Plain, Bind, Selected, Find, Globalize, Rank, Merge, AllOf, Entry, Resolve, Meet, Clashes, SameSurvivor;
    AllOfOrder(t, tail1, tail2, name);
    MeetAll(t, tail1, env, name);
    MeetAll(t, tail2, env, name);
    ListOrder(AllOf(t, tail1, name), AllOf(t, tail2, name), env);
  }

  lemma ListOrder(l1: seq<Attrs>, l2: seq<Attrs>, env: Env)
    requires multiset(l1) == multiset(l2) && AllPlain(l1) && !env.dynamicTable
    ensures Clashes(None, l1, env) == 0 <==> Clashes(None, l2, env) == 0
    ensures SameSurvivor(Meet(None, l1, env), Meet(None, l2, env), l1, Clashes(None, l1, env) == 0, env)
  {
    hide Plain, Rank, Resolve, Meet, Clashes, MaxRank;
    SameElements(l1, l2);
    if l1 == [] {
      NothingMet(env);
    } else {
      MeetOrder(l1, l2, env);
      SurvivorIsGreatest(l1, env);
      assert Rank(Meet(None, l1, env).value, env) == 3 ==> Regular(l1, Meet(None, l1, env).value, env);
    }
  }

  lemma NothingMet(env: Env)
    ensures Meet(None, [], env) == None && Clashes(None, [], env) == 0
  {
  }

  lemma SurvivorIsGreatest(list: seq<Attrs>, env: Env)
    requires list != [] && AllPlain(list) && !env.dynamicTable
    ensures var r := Meet(None, list, env); r.Some? && r.value in list && Rank(r.value, env) == MaxRank(list, env)
  {
    hide Plain, Rank, Resolve, Meet;
    MeetPlain(list, env);
  }

  // ------------------------------------------------------------- relocations

  /** Main result: after the merge at the end of a compilation every relocation made in it is
      unchanged but for the symbol index, which names a symbol of the same name, and for a
      symbol that was local the very same symbol; earlier relocations are untouched and their
      symbols keep their names. */
  lemma RelocsStillName(before: seq<Symbol>, first: nat, errors: nat, newUndef: bool, env: Env,
                        rels: seq<ST.Reloc>, mark: nat)
    requires first <= |before|
    requires forall k :: mark <= k < |rels| ==> first <= rels[k].sym < |before|
    ensures var (u, tr) := Merge(Table(before[..first], errors, newUndef), before[first..], env);
            var rels' := ST.Retarget(rels, mark, first, tr);
            && |rels'| == |rels|
            && (forall k :: mark <= k < |rels| ==>
                 && rels'[k] == rels[k].(sym := rels'[k].sym)
                 && 0 <= rels'[k].sym < |u.syms|
                 && u.syms[rels'[k].sym].name == before[rels[k].sym].name
                 && (IsLocal(Globalize(before[rels[k].sym].a)) ==> u.syms[rels'[k].sym] == before[rels[k].sym]))
            && (forall k :: 0 <= k < mark && k < |rels| ==> rels'[k] == rels[k])
            && (forall k :: 0 <= k < first ==> k < |u.syms| && u.syms[k].name == before[k].name)
  {
    hide Merge, Globalize, Bind;
    var t, tail := Table(before[..first], errors, newUndef), before[first..];
    MergeKeeps(t, tail, env);
    forall k | mark <= k < |rels| ensures tail[rels[k].sym - first] == before[rels[k].sym] {
    }
  }
}
