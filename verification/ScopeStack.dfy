/** The symbol stacks and the table of identifiers: the chain of records hanging from each token,
    declaring in the current scope or behind all scopes, and leaving a scope. */
module ScopeStack {
  import opened Basics
  import opened ScopeRuns

  type Link = Option<nat>

  datatype Sym = Sym(v: Tok, scope: nat, prev: Link, prevTok: Link)

  // ------------------------------------------------------------ linked records

  function At(ids: seq<nat>, i: nat): Link { if i < |ids| then Some(ids[i]) else None }

  /** The records `ids`, linked by `prev` from the top of a stack. */
  ghost predicate Stacked(syms: seq<Sym>, top: Link, ids: seq<nat>)
  {
    && top == At(ids, 0)
    && forall i: nat :: i < |ids| ==> ids[i] < |syms| && syms[ids[i]].prev == At(ids, i + 1)
  }

  /** The records `ids`, linked by `prevTok` from the entry of a token. */
  ghost predicate Chained(syms: seq<Sym>, head: Link, ids: seq<nat>)
  {
    && head == At(ids, 0)
    && forall i: nat :: i < |ids| ==> ids[i] < |syms| && syms[ids[i]].prevTok == At(ids, i + 1)
  }

  function Head(heads: map<Tok, nat>, v: Tok): Link { if v in heads then Some(heads[v]) else None }

  function SetHead(heads: map<Tok, nat>, v: Tok, link: Link): (h: map<Tok, nat>)
    ensures forall u :: Head(h, u) == if u == v then link else Head(heads, u)
  {
    match link
    case Some(id) => heads[v := id]
    case None => heads - {v}
  }

  /** The records of v among those. */
  ghost function Picked(syms: seq<Sym>, ids: seq<nat>, v: Tok): (p: seq<nat>)
  {
    if ids == [] then []
    else (if ids[0] < |syms| && syms[ids[0]].v == v then [ids[0]] else []) + Picked(syms, ids[1..], v)
  }

  ghost predicate Distinct(ids: seq<nat>) { forall i, j :: 0 <= i < j < |ids| ==> ids[i] != ids[j] }

  lemma {:induction false} PickedAre(syms: seq<Sym>, ids: seq<nat>, v: Tok)
    ensures forall x :: x in Picked(syms, ids, v) <==> x in ids && x < |syms| && syms[x].v == v
    ensures var p := Picked(syms, ids, v); p != [] ==> p[|p| - 1] in ids && p[|p| - 1] < |syms|
  {
    if ids != [] {
      PickedAre(syms, ids[1..], v);
      assert ids == [ids[0]] + ids[1..];
      assert Picked(syms, ids, v) ==
               (if ids[0] < |syms| && syms[ids[0]].v == v then [ids[0]] else []) + Picked(syms, ids[1..], v);
    }
  }

  lemma {:induction false} PickedDistinct(syms: seq<Sym>, ids: seq<nat>, v: Tok)
    requires Distinct(ids)
    ensures Distinct(Picked(syms, ids, v))
  {
    if ids != [] {
      var rest := ids[1..];
      assert ids[0] !in rest;
      PickedDistinct(syms, rest, v);
      PickedAre(syms, rest, v);
    }
  }

  lemma {:induction false} PickedFrame(syms: seq<Sym>, syms': seq<Sym>, ids: seq<nat>, v: Tok)
    requires forall x :: x in ids ==> x < |syms| && x < |syms'| && syms'[x].v == syms[x].v
    ensures Picked(syms', ids, v) == Picked(syms, ids, v)
  {
    if ids != [] { PickedFrame(syms, syms', ids[1..], v); }
  }

  ghost function Chain(syms: seq<Sym>, locals: seq<nat>, globals: seq<nat>, v: Tok): seq<nat>
  {
    Picked(syms, locals, v) + Picked(syms, globals, v)
  }

  /** Main invariant: from each token hang its local declarations, newest first, and then its
      global ones, newest first. */
  ghost predicate Ok(syms: seq<Sym>, top: Link, gtop: Link, heads: map<Tok, nat>, locals: seq<nat>, globals: seq<nat>)
  {
    && Stacked(syms, top, locals) && Stacked(syms, gtop, globals) && Distinct(locals + globals)
    && (forall v :: Recorded(v) ==> Chained(syms, Head(heads, v), Chain(syms, locals, globals, v)))
    && (forall x :: x in globals ==> syms[x].scope == 0)
  }

  lemma MembersAllocated(syms: seq<Sym>, top: Link, ids: seq<nat>)
    requires Stacked(syms, top, ids)
    ensures forall x :: x in ids ==> x < |syms|
  {
  }

  // -------------------------------------------------------------- a new record

  /** The record that sym_push makes, on the local or the global stack. */
  function Fresh(v: Tok, scope: nat, prev: Link, heads: map<Tok, nat>): Sym
  {
    if Recorded(v) then Sym(v, scope, prev, Head(heads, v)) else Sym(v, 0, prev, None)
  }

  function Entered(heads: map<Tok, nat>, v: Tok, id: nat): map<Tok, nat>
  {
    if Recorded(v) then SetHead(heads, v, Some(id)) else heads
  }

  lemma StackedPush(syms: seq<Sym>, top: Link, ids: seq<nat>, s: Sym)
    requires Stacked(syms, top, ids) && s.prev == top
    ensures Stacked(syms + [s], Some(|syms|), [|syms|] + ids)
  {
    var ids' := [|syms|] + ids;
    forall i: nat | i < |ids'| ensures ids'[i] < |syms| + 1 && (syms + [s])[ids'[i]].prev == At(ids', i + 1) {
      if i > 0 {
        assert ids'[i] == ids[i - 1];
        assert At(ids', i + 1) == At(ids, i);
      }
    }
  }

  lemma StackedFrame(syms: seq<Sym>, syms': seq<Sym>, top: Link, ids: seq<nat>)
    requires Stacked(syms, top, ids)
    requires |syms| <= |syms'| && forall x :: 0 <= x < |syms| ==> syms'[x].prev == syms[x].prev
    ensures Stacked(syms', top, ids)
  {
  }

  lemma ChainedPush(syms: seq<Sym>, head: Link, ids: seq<nat>, s: Sym)
    requires Chained(syms, head, ids) && s.prevTok == head
    ensures Chained(syms + [s], Some(|syms|), [|syms|] + ids)
  {
    var ids' := [|syms|] + ids;
    forall i: nat | i < |ids'| ensures ids'[i] < |syms| + 1 && (syms + [s])[ids'[i]].prevTok == At(ids', i + 1) {
      if i > 0 {
        assert ids'[i] == ids[i - 1];
        assert At(ids', i + 1) == At(ids, i);
      }
    }
  }

  lemma ChainedFrame(syms: seq<Sym>, syms': seq<Sym>, head: Link, ids: seq<nat>)
    requires Chained(syms, head, ids)
    requires |syms| <= |syms'| && forall x :: x in ids && x < |syms| ==> syms'[x].prevTok == syms[x].prevTok
    ensures Chained(syms', head, ids)
  {
  }

  lemma DistinctPush(a: seq<nat>, b: seq<nat>, x: nat)
    requires Distinct(a + b) && x !in a && x !in b
    ensures Distinct(([x] + a) + b) && Distinct(a + ([x] + b))
  {
    forall i, j | 0 <= i < j < |a| + 1 + |b| ensures (([x] + a) + b)[i] != (([x] + a) + b)[j] {
      assert ([x] + a) + b == [x] + (a + b);
    }
    var c := a + ([x] + b);
    forall i, j | 0 <= i < j < |c| ensures c[i] != c[j] {
      assert c[i] == if i < |a| then (a + b)[i] else if i == |a| then x else (a + b)[i - 1];
      assert c[j] == if j < |a| then (a + b)[j] else if j == |a| then x else (a + b)[j - 1];
    }
  }

  /** One more record at the front of the picked ones, or none. */
  lemma PickedPush(syms: seq<Sym>, ids: seq<nat>, s: Sym, v: Tok)
    requires forall x :: x in ids ==> x < |syms|
    ensures Picked(syms + [s], [|syms|] + ids, v) == (if s.v == v then [|syms|] else []) + Picked(syms, ids, v)
    ensures Picked(syms + [s], ids, v) == Picked(syms, ids, v)
  {
    PickedFrame(syms, syms + [s], ids, v);
    assert ([|syms|] + ids)[1..] == ids;
  }

  lemma PushOk(syms: seq<Sym>, top: Link, gtop: Link, heads: map<Tok, nat>, locals: seq<nat>, globals: seq<nat>,
        v: Tok, scope: nat)
    requires Ok(syms, top, gtop, heads, locals, globals)
    ensures Ok(syms + [Fresh(v, scope, top, heads)], Some(|syms|), gtop, Entered(heads, v, |syms|),
              [|syms|] + locals, globals)
  {
    hide Stacked, Chained, Picked, Distinct;
    MembersAllocated(syms, top, locals);
    MembersAllocated(syms, gtop, globals);
    DistinctPush(locals, globals, |syms|);
    var s := Fresh(v, scope, top, heads);
    StackedPush(syms, top, locals, s);
    StackedFrame(syms, syms + [s], gtop, globals);
    forall u | Recorded(u)
      ensures Chained(syms + [s], Head(Entered(heads, v, |syms|), u),
                Chain(syms + [s], [|syms|] + locals, globals, u))
    {
      PushChain(syms, heads, locals, globals, s, u);
    }
  }

  lemma PushGlobalOk(syms: seq<Sym>, top: Link, gtop: Link, heads: map<Tok, nat>, globals: seq<nat>, v: Tok)
    requires Ok(syms, top, gtop, heads, [], globals)
    ensures Ok(syms + [Fresh(v, 0, gtop, heads)], top, Some(|syms|), Entered(heads, v, |syms|), [], [|syms|] + globals)
  {
    hide Stacked, Chained, Picked, Distinct;
    MembersAllocated(syms, gtop, globals);
    DistinctPush([], globals, |syms|);
    var s := Fresh(v, 0, gtop, heads);
    StackedPush(syms, gtop, globals, s);
    StackedFrame(syms, syms + [s], top, []);
    forall u | Recorded(u)
      ensures Chained(syms + [s], Head(Entered(heads, v, |syms|), u), Chain(syms + [s], [], [|syms|] + globals, u))
    {
      PushChain(syms, heads, [], globals, s, u);
    }
  }

  lemma PushChain(syms: seq<Sym>, heads: map<Tok, nat>, locals: seq<nat>, globals: seq<nat>, s: Sym, u: Tok)
    requires forall x :: x in locals || x in globals ==> x < |syms|
    requires Recorded(u) && Chained(syms, Head(heads, u), Chain(syms, locals, globals, u))
    requires Recorded(s.v) ==> s.prevTok == Head(heads, s.v)
    ensures var heads' := Entered(heads, s.v, |syms|);
            && Chained(syms + [s], Head(heads', u), Chain(syms + [s], [|syms|] + locals, globals, u))
            && (locals == [] ==>
                 Chained(syms + [s], Head(heads', u), Chain(syms + [s], locals, [|syms|] + globals, u)))
  {
    hide Chained, Picked;
    PickedPush(syms, locals, s, u);
    PickedPush(syms, globals, s, u);
    var was := Chain(syms, locals, globals, u);
    if s.v == u {
      ChainedPush(syms, Head(heads, u), was, s);
      assert ([|syms|] + Picked(syms, locals, u)) + Picked(syms, globals, u) == [|syms|] + was;
      if locals == [] {
        assert Picked(syms, locals, u) == [] by { PickedNothing(syms, u); }
        assert Picked(syms, locals, u) + ([|syms|] + Picked(syms, globals, u)) == [|syms|] + was;
      }
    } else {
      ChainedFrame(syms, syms + [s], Head(heads, u), was);
      assert [] + Picked(syms, locals, u) == Picked(syms, locals, u);
      assert [] + Picked(syms, globals, u) == Picked(syms, globals, u);
    }
  }

  lemma PickedNothing(syms: seq<Sym>, u: Tok)
    ensures Picked(syms, [], u) == []
  {
  }

  // ------------------------------------------- a global behind all the locals

  lemma ChainedInsert(syms: seq<Sym>, head: Link, a: seq<nat>, b: seq<nat>, s: Sym)
    requires Chained(syms, head, a + b) && Distinct(a + b) && a != []
    requires s.prevTok == At(a + b, |a|) && a[|a| - 1] < |syms|
    ensures var last := a[|a| - 1];
            Chained((syms + [s])[last := syms[last].(prevTok := Some(|syms|))], head, a + ([|syms|] + b))
  {
    var last := a[|a| - 1];
    var syms' := (syms + [s])[last := syms[last].(prevTok := Some(|syms|))];
    var c := a + ([|syms|] + b);
    forall i: nat | i < |c| ensures c[i] < |syms'| && syms'[c[i]].prevTok == At(c, i + 1) {
      if i < |a| {
        assert c[i] == (a + b)[i];
        if i + 1 < |a| { assert At(a + b, i + 1) == At(c, i + 1) && (a + b)[i] != (a + b)[|a| - 1]; }
      } else if i == |a| {
        assert At(c, i + 1) == At(a + b, |a|);
      } else {
        assert c[i] == (a + b)[i - 1] && At(c, i + 1) == At(a + b, i);
        assert (a + b)[i - 1] != (a + b)[|a| - 1];
      }
    }
  }

  /** The table after linking the new record s behind the records a. */
  function Linked(syms: seq<Sym>, a: seq<nat>, s: Sym): (syms': seq<Sym>)
    ensures |syms'| == |syms| + 1
  {
    if a == [] || !Recorded(s.v) || a[|a| - 1] >= |syms| then syms + [s]
    else (syms + [s])[a[|a| - 1] := syms[a[|a| - 1]].(prevTok := Some(|syms|))]
  }

  function LinkedHead(heads: map<Tok, nat>, a: seq<nat>, v: Tok, id: nat): map<Tok, nat>
  {
    if a == [] && Recorded(v) then SetHead(heads, v, Some(id)) else heads
  }

  /** The first record without a scope in a chain: a global identifier is linked in before it. */
  ghost function Gap(syms: seq<Sym>, c: seq<nat>): (k: nat)
    ensures k <= |c| && forall i :: 0 <= i < k ==> c[i] < |syms| && syms[c[i]].scope != 0
    ensures k < |c| && c[k] < |syms| ==> syms[c[k]].scope == 0
  {
    if c == [] || c[0] >= |syms| || syms[c[0]].scope == 0 then 0 else 1 + Gap(syms, c[1..])
  }

  /** The record that a global identifier gets. */
  ghost function GlobalSym(syms: seq<Sym>, gtop: Link, locals: seq<nat>, globals: seq<nat>, v: Tok): Sym
  {
    var c := Chain(syms, locals, globals, v);
    Sym(v, 0, gtop, if Recorded(v) then At(c, Gap(syms, c)) else None)
  }

  lemma BeforeIs(syms: seq<Sym>, locals: seq<nat>, globals: seq<nat>, v: Tok)
    ensures var c := Chain(syms, locals, globals, v); Before(syms, locals, globals, v) == c[..Gap(syms, c)]
  {
  }

  lemma RecordIs(syms: seq<Sym>, gtop: Link, locals: seq<nat>, globals: seq<nat>, v: Tok)
    ensures var (s, c, a) := (GlobalSym(syms, gtop, locals, globals, v), Chain(syms, locals, globals, v),
                              Before(syms, locals, globals, v));
            s == Sym(v, 0, gtop, if Recorded(v) then At(c, |a|) else None)
  {
  }

  /** The records of v that it is linked in behind. */
  ghost function Before(syms: seq<Sym>, locals: seq<nat>, globals: seq<nat>, v: Tok): (b: seq<nat>)
    ensures b <= Chain(syms, locals, globals, v) && (b != [] ==> b[|b| - 1] < |syms|)
  {
    var c := Chain(syms, locals, globals, v);
    c[..Gap(syms, c)]
  }

  /** The chain c with a new record behind those in a. */
  function Spliced(c: seq<nat>, a: seq<nat>, id: nat): seq<nat>
  {
    if |a| <= |c| then a + ([id] + c[|a|..]) else a
  }

  /** The records with the new one. */
  ghost function WithGlobal(syms: seq<Sym>, gtop: Link, locals: seq<nat>, globals: seq<nat>, v: Tok): seq<Sym>
  {
    var s := GlobalSym(syms, gtop, locals, globals, v);
    if Recorded(v) then Linked(syms, Before(syms, locals, globals, v), s) else syms + [s]
  }

  ghost function WithGlobalHead(syms: seq<Sym>, heads: map<Tok, nat>, locals: seq<nat>, globals: seq<nat>, v: Tok)
    : map<Tok, nat>
  {
    if Recorded(v) then LinkedHead(heads, Before(syms, locals, globals, v), v, |syms|) else heads
  }

  /** It is linked in behind all the locals exactly if each of them has a scope. */
  lemma GapIff(syms: seq<Sym>, top: Link, gtop: Link, heads: map<Tok, nat>, locals: seq<nat>, globals: seq<nat>, v: Tok)
    requires Ok(syms, top, gtop, heads, locals, globals)
    ensures var (a, k) := (Picked(syms, locals, v), Gap(syms, Chain(syms, locals, globals, v)));
            k <= |a| && (k == |a| <==> forall x :: x in a ==> x < |syms| && syms[x].scope != 0)
  {
    hide Picked, Stacked, Distinct, Chained;
    MembersAllocated(syms, top, locals);
    MembersAllocated(syms, gtop, globals);
    PickedAre(syms, locals, v);
    PickedAre(syms, globals, v);
    var (a, b) := (Picked(syms, locals, v), Picked(syms, globals, v));
    var (c, k) := (a + b, Gap(syms, a + b));
    assert b != [] ==> c[|a|] == b[0] && b[0] in b;
    if k < |a| { assert c[k] == a[k] && a[k] in a; }
    if k == |a| {
      forall x | x in a ensures x < |syms| && syms[x].scope != 0 {
        var i :| 0 <= i < |a| && a[i] == x;
        assert c[i] == x;
      }
    }
  }

  /** The chain of its token after the new record is linked in, behind the records a. */
  lemma InsertChain(syms: seq<Sym>, head: Link, c: seq<nat>, s: Sym, a: seq<nat>, heads: map<Tok, nat>)
    requires Distinct(c) && Chained(syms, head, c) && head == Head(heads, s.v)
    requires Recorded(s.v) && a <= c && s.prevTok == At(c, |a|)
    ensures a != [] ==> a[|a| - 1] < |syms|
    ensures Chained(Linked(syms, a, s), Head(LinkedHead(heads, a, s.v, |syms|), s.v), Spliced(c, a, |syms|))
  {
    if a != [] { assert a[|a| - 1] == c[|a| - 1]; }
    hide Chained, Distinct, At;
    assert a + c[|a|..] == c;
    if a == [] {
      assert c[0..] == c && [] + ([|syms|] + c) == [|syms|] + c;
      HeadLink(syms, head, c);
      ChainedPush(syms, head, c, s);
    } else {
      ChainedInsert(syms, head, a, c[|a|..], s);
    }
  }

  /** The chains of other tokens are unaffected. */
  lemma OtherChain(syms: seq<Sym>, head: Link, c: seq<nat>, s: Sym, a: seq<nat>, heads: map<Tok, nat>, u: Tok)
    requires Chained(syms, head, c) && head == Head(heads, u) && u != s.v
    requires a != [] ==> a[|a| - 1] < |syms| && a[|a| - 1] !in c
    ensures Chained(Linked(syms, a, s), Head(LinkedHead(heads, a, s.v, |syms|), u), c)
  {
    LinkedFields(syms, a, s);
    hide Linked;
    ChainedFrame(syms, Linked(syms, a, s), head, c);
  }

  lemma InsertOk(syms: seq<Sym>, top: Link, gtop: Link, heads: map<Tok, nat>, locals: seq<nat>, globals: seq<nat>,
        s: Sym)
    requires Ok(syms, top, gtop, heads, locals, globals) && s.scope == 0 && s.prev == gtop
    requires Recorded(s.v) ==> s.prevTok == At(Chain(syms, locals, globals, s.v), |Picked(syms, locals, s.v)|)
    ensures var a := Picked(syms, locals, s.v);
            && (a != [] ==> a[|a| - 1] < |syms|)
            && Ok(Linked(syms, a, s), top, Some(|syms|), LinkedHead(heads, a, s.v, |syms|), locals, [|syms|] + globals)
  {
    hide Stacked, Chained, Picked, Distinct, Linked;
    var a := Picked(syms, locals, s.v);
    MembersAllocated(syms, top, locals);
    MembersAllocated(syms, gtop, globals);
    PickedAre(syms, locals, s.v);
    LinkedFields(syms, a, s);
    var syms' := Linked(syms, a, s);
    DistinctPush(locals, globals, |syms|);
    StackedPush(syms, gtop, globals, s);
    StackedFrame(syms, syms', top, locals);
    StackedFrame(syms + [s], syms', Some(|syms|), [|syms|] + globals);
    forall u | Recorded(u)
      ensures Chained(syms', Head(LinkedHead(heads, a, s.v, |syms|), u), Chain(syms', locals, [|syms|] + globals, u))
    {
      PickedLinked(syms, syms', locals, s, u);
      PickedLinked(syms, syms', globals, s, u);
      InsertedChain(syms, heads, locals, globals, s, u);
    }
  }

  lemma InsertedChain(syms: seq<Sym>, heads: map<Tok, nat>, locals: seq<nat>, globals: seq<nat>, s: Sym, u: Tok)
    requires forall x :: x in locals || x in globals ==> x < |syms|
    requires Distinct(locals + globals) && Recorded(u)
    requires Chained(syms, Head(heads, u), Chain(syms, locals, globals, u))
    requires Recorded(s.v) ==> s.prevTok == At(Chain(syms, locals, globals, s.v), |Picked(syms, locals, s.v)|)
    requires var a := Picked(syms, locals, s.v); a != [] ==> a[|a| - 1] < |syms|
    ensures Chained(Linked(syms, Picked(syms, locals, s.v), s),
              Head(LinkedHead(heads, Picked(syms, locals, s.v), s.v, |syms|), u),
              Picked(syms, locals, u) + ((if s.v == u then [|syms|] else []) + Picked(syms, globals, u)))
  {
    hide Chained, Picked, Distinct, Linked, LinkedHead, At;
    var (a, b) := (Picked(syms, locals, s.v), Picked(syms, globals, s.v));
    assert [] + Picked(syms, globals, u) == Picked(syms, globals, u);
    if u == s.v {
      assert (a + b)[|a|..] == b && a <= a + b;
      ChainDistinct(syms, locals, globals, u);
      InsertChain(syms, Head(heads, u), a + b, s, a, heads);
    } else {
      PickedAre(syms, locals, s.v);
      PickedAre(syms, locals, u);
      PickedAre(syms, globals, u);
      OtherChain(syms, Head(heads, u), Chain(syms, locals, globals, u), s, a, heads, u);
    }
  }

  lemma LinkedFields(syms: seq<Sym>, a: seq<nat>, s: Sym)
    requires a != [] ==> a[|a| - 1] < |syms|
    ensures var syms' := Linked(syms, a, s);
            forall x: nat :: x <= |syms| ==>
              && syms'[x].prev == (syms + [s])[x].prev && syms'[x].v == (syms + [s])[x].v
              && syms'[x].scope == (syms + [s])[x].scope
              && (a == [] || x != a[|a| - 1] ==> syms'[x].prevTok == (syms + [s])[x].prevTok)
  {
  }

  lemma PickedLinked(syms: seq<Sym>, syms': seq<Sym>, ids: seq<nat>, s: Sym, u: Tok)
    requires |syms'| == |syms| + 1 && forall x :: 0 <= x <= |syms| ==> syms'[x].v == (syms + [s])[x].v
    requires forall x :: x in ids ==> x < |syms|
    ensures Picked(syms', [|syms|] + ids, u) == (if s.v == u then [|syms|] else []) + Picked(syms, ids, u)
    ensures Picked(syms', ids, u) == Picked(syms, ids, u)
  {
    hide Picked;
    PickedPush(syms, ids, s, u);
    PickedFrame(syms + [s], syms', ids, u);
    PickedFrame(syms + [s], syms', [|syms|] + ids, u);
  }

  lemma HeadLink(syms: seq<Sym>, head: Link, ids: seq<nat>)
    requires Chained(syms, head, ids)
    ensures head == At(ids, 0)
  {
  }

  lemma {:induction false} PickedAppend(syms: seq<Sym>, a: seq<nat>, b: seq<nat>, v: Tok)
    ensures Picked(syms, a + b, v) == Picked(syms, a, v) + Picked(syms, b, v)
  {
    if a == [] {
      assert a + b == b;
    } else {
      assert (a + b)[1..] == a[1..] + b;
      PickedAppend(syms, a[1..], b, v);
    }
  }

  lemma ChainDistinct(syms: seq<Sym>, locals: seq<nat>, globals: seq<nat>, v: Tok)
    requires Distinct(locals + globals)
    ensures Distinct(Chain(syms, locals, globals, v))
  {
    PickedAppend(syms, locals, globals, v);
    PickedDistinct(syms, locals + globals, v);
  }

  // -------------------------------------------------------------------- leaving

  function Left(heads: map<Tok, nat>, s: Sym): map<Tok, nat>
  {
    if Recorded(s.v) then SetHead(heads, s.v, s.prevTok) else heads
  }

  /** The table of identifiers after these records are unlinked, from the first on. */
  ghost function Popped(syms: seq<Sym>, heads: map<Tok, nat>, ids: seq<nat>): map<Tok, nat>
    decreases |ids|
  {
    if ids == [] then heads else Popped(syms, if ids[0] < |syms| then Left(heads, syms[ids[0]]) else heads, ids[1..])
  }

  lemma {:induction false} PoppedOn(syms: seq<Sym>, heads: map<Tok, nat>, ids: seq<nat>, id: nat)
    requires id < |syms|
    ensures Popped(syms, heads, ids + [id]) == Left(Popped(syms, heads, ids), syms[id])
    decreases |ids|
  {
    if ids == [] {
      assert ([] + [id])[1..] == [];
    } else {
      assert (ids + [id])[1..] == ids[1..] + [id];
      PoppedOn(syms, if ids[0] < |syms| then Left(heads, syms[ids[0]]) else heads, ids[1..], id);
    }
  }

  /** What a token is left with is behind the last of its records that go. */
  lemma {:induction false} PoppedHead(syms: seq<Sym>, heads: map<Tok, nat>, ids: seq<nat>, v: Tok)
    requires Recorded(v) && forall x :: x in ids ==> x < |syms|
    ensures var p := Picked(syms, ids, v);
            && (p != [] ==> p[|p| - 1] < |syms|)
            && Head(Popped(syms, heads, ids), v) == if p == [] then Head(heads, v) else syms[p[|p| - 1]].prevTok
    decreases |ids|
  {
    PickedAre(syms, ids, v);
    if ids != [] {
      assert ids == [ids[0]] + ids[1..] && ids[0] in ids && forall x :: x in ids[1..] ==> x in ids;
      PoppedHead(syms, Left(heads, syms[ids[0]]), ids[1..], v);
    }
  }

  /** Main result: a global identifier that is pushed from inside a function is what is seen of its
      token when the locals are gone, exactly if no local of the token has lost its scope. The
      walk of the compiler stops at such a local, and the new record goes when the local does. */
  lemma LandsBehindIff(syms: seq<Sym>, top: Link, gtop: Link, heads: map<Tok, nat>, locals: seq<nat>, globals: seq<nat>,
        v: Tok)
    requires Ok(syms, top, gtop, heads, locals, globals) && Recorded(v)
    ensures var heads' := WithGlobalHead(syms, heads, locals, globals, v);
            Head(Popped(WithGlobal(syms, gtop, locals, globals, v), heads', locals), v) == Some(|syms|) <==>
              forall x :: x in locals && x < |syms| && syms[x].v == v ==> syms[x].scope != 0
  {
    hide Popped, Picked, Chained, Chain, Gap, Before, Ok, WithGlobal, WithGlobalHead;
    var a := Before(syms, locals, globals, v);
    var syms' := WithGlobal(syms, gtop, locals, globals, v);
    var heads' := WithGlobalHead(syms, heads, locals, globals, v);
    LandsAt(syms, top, gtop, heads, locals, globals, v);
    PoppedHead(syms', heads', locals, v);
    AfterGap(syms, syms', Head(heads', v), locals, globals, v, a);
    PickedAre(syms, locals, v);
  }

  lemma ChainOf(syms: seq<Sym>, top: Link, gtop: Link, heads: map<Tok, nat>, locals: seq<nat>, globals: seq<nat>,
        v: Tok)
    requires Ok(syms, top, gtop, heads, locals, globals) && Recorded(v)
    ensures Chained(syms, Head(heads, v), Chain(syms, locals, globals, v)) && Distinct(Chain(syms, locals, globals, v))
  {
    hide Chained, Stacked;
    ChainDistinct(syms, locals, globals, v);
  }

  /** The chain with the new record. */
  lemma LandsAt(syms: seq<Sym>, top: Link, gtop: Link, heads: map<Tok, nat>, locals: seq<nat>, globals: seq<nat>,
        v: Tok)
    requires Ok(syms, top, gtop, heads, locals, globals) && Recorded(v)
    ensures forall x :: x in locals || x in globals ==> x < |syms|
    ensures var (a, c, syms') := (Before(syms, locals, globals, v), Chain(syms, locals, globals, v),
                                  WithGlobal(syms, gtop, locals, globals, v));
            && |syms'| == |syms| + 1 && |a| <= |Picked(syms, locals, v)|
            && Chained(syms', Head(WithGlobalHead(syms, heads, locals, globals, v), v), Spliced(c, a, |syms|))
            && Picked(syms', locals, v) == Picked(syms, locals, v)
            && (|a| == |Picked(syms, locals, v)| <==>
                  forall x :: x in Picked(syms, locals, v) ==> x < |syms| && syms[x].scope != 0)
  {
    MembersAllocated(syms, top, locals);
    MembersAllocated(syms, gtop, globals);
    RecordIs(syms, gtop, locals, globals, v);
    ChainOf(syms, top, gtop, heads, locals, globals, v);
    GapIff(syms, top, gtop, heads, locals, globals, v);
    hide Ok, Picked, Chained, Distinct, Linked, LinkedHead, At, Gap, GlobalSym, Chain;
    var (s, a) := (GlobalSym(syms, gtop, locals, globals, v), Before(syms, locals, globals, v));
    InsertChain(syms, Head(heads, v), Chain(syms, locals, globals, v), s, a, heads);
    LinkedFields(syms, a, s);
    PickedLinked(syms, Linked(syms, a, s), locals, s, v);
  }

  lemma AfterGap(syms: seq<Sym>, syms': seq<Sym>, head: Link, locals: seq<nat>, globals: seq<nat>, v: Tok,
        before: seq<nat>)
    requires forall x :: x in locals || x in globals ==> x < |syms|
    requires |syms'| == |syms| + 1 && |before| <= |Picked(syms, locals, v)|
    requires var c := Chain(syms, locals, globals, v);
             before <= c && Chained(syms', head, Spliced(c, before, |syms|))
    ensures var a := Picked(syms, locals, v);
            && (a != [] ==> a[|a| - 1] < |syms'|)
            && ((if a == [] then head else syms'[a[|a| - 1]].prevTok) == Some(|syms|) <==> |before| == |a|)
  {
    hide Picked;
    PickedAre(syms, locals, v);
    PickedAre(syms, globals, v);
    var (a, b) := (Picked(syms, locals, v), Picked(syms, globals, v));
    var (c, n, k) := (a + b, |a|, |before|);
    var c' := Spliced(c, before, |syms|);
    if n > 0 {
      assert c[n - 1] == a[n - 1] && a[n - 1] in a;
      if k == n {
        assert c'[n - 1] == a[n - 1] && c'[n] == |syms|;
      } else {
        assert c'[n] == a[n - 1];
        if n + 1 < |c'| { assert c'[n + 1] == b[0] && b[0] in b; }
      }
    }
  }

  /** One record that is a static local, and the dummy under it. */
  const STATIC_LOCAL := [Sym(DUMMY.v, 0, None, None), Sym(A, 0, Some(0), None)]

  /** After `static int A;` a global identifier A would be lost at the end of the function. */
  lemma StaticGapCounterexample()
    ensures Ok(STATIC_LOCAL, Some(1), None, map[A := 1], [1, 0], [])
    ensures var (locals, heads) := ([1, 0], map[A := 1]);
            Head(Popped(WithGlobal(STATIC_LOCAL, None, locals, [], A),
              WithGlobalHead(STATIC_LOCAL, heads, locals, [], A), locals), A) == None
  {
    StaticLocalOk();
    StaticLocalChain(A);
    var c := Chain(STATIC_LOCAL, [1, 0], [], A);
    assert c == [1] && Gap(STATIC_LOCAL, c) == 0;
    var syms' := WithGlobal(STATIC_LOCAL, None, [1, 0], [], A);
    assert syms' == STATIC_LOCAL + [GlobalSym(STATIC_LOCAL, None, [1, 0], [], A)];
    PickedFrame(STATIC_LOCAL, syms', [1, 0], A);
    assert Picked(STATIC_LOCAL, [1, 0], A) == [1] by { assert Picked(STATIC_LOCAL, [1, 0], A) + [] == c; }
    PoppedHead(syms', WithGlobalHead(STATIC_LOCAL, map[A := 1], [1, 0], [], A), [1, 0], A);
  }

  lemma StaticLocalOk()
    ensures Ok(STATIC_LOCAL, Some(1), None, map[A := 1], [1, 0], [])
  {
    forall v | Recorded(v)
      ensures Chained(STATIC_LOCAL, Head(map[A := 1], v), Chain(STATIC_LOCAL, [1, 0], [], v))
    {
      StaticLocalChain(v);
      hide Picked;
    }
    hide Chained, Picked, Chain;
  }

  lemma StaticLocalChain(v: Tok)
    requires Recorded(v)
    ensures Chain(STATIC_LOCAL, [1, 0], [], v) == if v == A then [1] else []
  {
    assert [1, 0][1..] == [0] && [0][1..] == [];
    assert Picked(STATIC_LOCAL, [0], v) == [];
  }

  lemma StackedPop(syms: seq<Sym>, top: Link, ids: seq<nat>)
    requires Stacked(syms, top, ids) && ids != []
    ensures ids[0] < |syms| && Stacked(syms, syms[ids[0]].prev, ids[1..])
  {
    forall i: nat | i < |ids| - 1 ensures syms[ids[1..][i]].prev == At(ids[1..], i + 1) {
      assert At(ids[1..], i + 1) == At(ids, i + 2) && syms[ids[i + 1]].prev == At(ids, i + 2);
    }
  }

  lemma ChainedPop(syms: seq<Sym>, head: Link, ids: seq<nat>, rest: seq<nat>)
    requires Chained(syms, head, ids) && ids != [] && rest == ids[1..]
    ensures ids[0] < |syms| && Chained(syms, syms[ids[0]].prevTok, rest)
  {
    assert At(ids, 1) == At(rest, 0);
    forall i: nat | i < |rest| ensures rest[i] < |syms| && syms[rest[i]].prevTok == At(rest, i + 1) {
      assert At(rest, i + 1) == At(ids, i + 2) && rest[i] == ids[i + 1];
    }
  }

  lemma PopOk(syms: seq<Sym>, top: Link, gtop: Link, heads: map<Tok, nat>, locals: seq<nat>, globals: seq<nat>)
    requires Ok(syms, top, gtop, heads, locals, globals)
    ensures locals != [] ==>
              top == Some(locals[0]) && locals[0] < |syms|
              && Ok(syms, syms[locals[0]].prev, gtop, Left(heads, syms[locals[0]]), locals[1..], globals)
    ensures locals == [] && globals != [] ==>
              gtop == Some(globals[0]) && globals[0] < |syms|
              && Ok(syms, top, syms[globals[0]].prev, Left(heads, syms[globals[0]]), locals, globals[1..])
  {
    hide Stacked, Chained, Picked, Distinct;
    if locals != [] || globals != [] {
      var id := if locals != [] then locals[0] else globals[0];
      TopLink(syms, top, locals);
      TopLink(syms, gtop, globals);
      if locals != [] {
        StackedPop(syms, top, locals);
        DistinctTail(locals + globals, locals[1..] + globals);
      } else {
        StackedPop(syms, gtop, globals);
        DistinctTail(locals + globals, locals + globals[1..]);
      }
      forall u | Recorded(u)
        ensures locals != [] ==> Chained(syms, Head(Left(heads, syms[id]), u), Chain(syms, locals[1..], globals, u))
        ensures locals == [] ==> Chained(syms, Head(Left(heads, syms[id]), u), Chain(syms, locals, globals[1..], u))
      {
        PopChain(syms, heads, locals, globals, u);
      }
    }
  }

  /** Unlinking the n newest locals leaves every chain in order. */
  lemma {:induction false} DropOk(syms: seq<Sym>, top: Link, gtop: Link, heads: map<Tok, nat>, locals: seq<nat>,
        globals: seq<nat>, n: nat)
    requires Ok(syms, top, gtop, heads, locals, globals) && n <= |locals|
    ensures Ok(syms, At(locals, n), gtop, Popped(syms, heads, locals[..n]), locals[n..], globals)
    decreases n
  {
    PopOk(syms, top, gtop, heads, locals, globals);
    hide Ok;
    if n == 0 {
      assert locals[0..] == locals;
      TopsAre(syms, top, gtop, heads, locals, globals);
    } else {
      DropOk(syms, syms[locals[0]].prev, gtop, Left(heads, syms[locals[0]]), locals[1..], globals, n - 1);
      assert locals[..n][1..] == locals[1..][..n - 1] && locals[1..][n - 1..] == locals[n..];
    }
  }

  lemma {:induction false} DropGlobalsOk(syms: seq<Sym>, top: Link, gtop: Link, heads: map<Tok, nat>,
        globals: seq<nat>, n: nat)
    requires Ok(syms, top, gtop, heads, [], globals) && n <= |globals|
    ensures Ok(syms, top, At(globals, n), Popped(syms, heads, globals[..n]), [], globals[n..])
    decreases n
  {
    PopOk(syms, top, gtop, heads, [], globals);
    hide Ok;
    if n == 0 {
      assert globals[0..] == globals;
      TopsAre(syms, top, gtop, heads, [], globals);
    } else {
      DropGlobalsOk(syms, top, syms[globals[0]].prev, Left(heads, syms[globals[0]]), globals[1..], n - 1);
      assert globals[..n][1..] == globals[1..][..n - 1] && globals[1..][n - 1..] == globals[n..];
    }
  }

  lemma TopLink(syms: seq<Sym>, top: Link, ids: seq<nat>)
    requires Stacked(syms, top, ids)
    ensures top == At(ids, 0) && (ids != [] ==> ids[0] < |syms|)
  {
  }

  lemma DistinctTail(a: seq<nat>, b: seq<nat>)
    requires Distinct(a) && a != [] && b == a[1..]
    ensures Distinct(b)
  {
  }

  lemma PickedHead(syms: seq<Sym>, ids: seq<nat>, u: Tok)
    requires ids != [] && ids[0] < |syms|
    ensures Picked(syms, ids, u) == (if syms[ids[0]].v == u then [ids[0]] else []) + Picked(syms, ids[1..], u)
  {
  }

  lemma PopChain(syms: seq<Sym>, heads: map<Tok, nat>, locals: seq<nat>, globals: seq<nat>, u: Tok)
    requires Recorded(u) && Chained(syms, Head(heads, u), Chain(syms, locals, globals, u))
    requires locals + globals != [] && (locals + globals)[0] < |syms|
    ensures var heads' := Left(heads, syms[(locals + globals)[0]]);
            && (locals != [] ==> Chained(syms, Head(heads', u), Chain(syms, locals[1..], globals, u)))
            && (locals == [] ==> Chained(syms, Head(heads', u), Chain(syms, locals, globals[1..], u)))
  {
    hide Chained, Picked;
    if locals != [] { PickedHead(syms, locals, u); } else { PickedHead(syms, globals, u); PickedNothing(syms, u); }
    var id := (locals + globals)[0];
    var was := Chain(syms, locals, globals, u);
    var now := if locals != [] then Chain(syms, locals[1..], globals, u) else Chain(syms, locals, globals[1..], u);
    if syms[id].v == u {
      assert was == [id] + now;
      ChainedPop(syms, Head(heads, u), was, now);
    } else {
      assert was == now;
    }
  }

  // --------------------------------------------------------------- declarations

  function DeclOf(syms: seq<Sym>, id: nat): Decl { if id < |syms| then Decl(syms[id].v, syms[id].scope) else DUMMY }

  ghost function Decls(syms: seq<Sym>, ids: seq<nat>): seq<Decl>
  {
    seq(|ids|, i requires 0 <= i < |ids| => DeclOf(syms, ids[i]))
  }

  /** The first picked record is the declaration found. */
  lemma {:induction false} PickedLookup(syms: seq<Sym>, ids: seq<nat>, v: Tok)
    requires forall i :: 0 <= i < |ids| ==> ids[i] < |syms|
    ensures var p := Picked(syms, ids, v);
            Lookup(Decls(syms, ids), v) == if p == [] then None else Some(DeclOf(syms, p[0]))
  {
    if ids != [] {
      PickedLookup(syms, ids[1..], v);
      assert Decls(syms, ids)[1..] == Decls(syms, ids[1..]);
    }
  }

  lemma DeclsPush(syms: seq<Sym>, ids: seq<nat>, s: Sym)
    requires forall i :: 0 <= i < |ids| ==> ids[i] < |syms|
    ensures Decls(syms + [s], [|syms|] + ids) == [Decl(s.v, s.scope)] + Decls(syms, ids)
    ensures Decls(syms + [s], ids) == Decls(syms, ids)
  {
  }

  lemma DeclsFrame(syms: seq<Sym>, syms': seq<Sym>, ids: seq<nat>)
    requires |syms| == |syms'|
    requires forall x :: 0 <= x < |syms| ==> syms'[x].v == syms[x].v && syms'[x].scope == syms[x].scope
    ensures Decls(syms', ids) == Decls(syms, ids)
  {
    forall i | 0 <= i < |ids| ensures DeclOf(syms', ids[i]) == DeclOf(syms, ids[i]) { }
  }

  lemma ChainVisible(syms: seq<Sym>, top: Link, gtop: Link, heads: map<Tok, nat>, locals: seq<nat>, globals: seq<nat>,
        v: Tok)
    requires Ok(syms, top, gtop, heads, locals, globals) && Recorded(v)
    ensures var h := Head(heads, v);
            && (h.Some? ==> h.value < |syms|)
            && Lookup(Decls(syms, locals) + Decls(syms, globals), v) ==
                 if h.Some? then Some(DeclOf(syms, h.value)) else None
  {
    hide Picked, Lookup, Distinct, DeclOf, Decls;
    LookupAppend(Decls(syms, locals), Decls(syms, globals), v);
    PickedLookup(syms, locals, v);
    PickedLookup(syms, globals, v);
    HeadLink(syms, Head(heads, v), Chain(syms, locals, globals, v));
  }

  /** The chain of a token, as it can be walked. */
  lemma ChainShape(syms: seq<Sym>, top: Link, gtop: Link, heads: map<Tok, nat>, locals: seq<nat>, globals: seq<nat>,
        v: Tok)
    requires Recorded(v) && Ok(syms, top, gtop, heads, locals, globals)
    ensures var c := Chain(syms, locals, globals, v);
            && Head(heads, v) == At(c, 0)
            && (forall k: nat :: k < |c| ==> c[k] < |syms| && syms[c[k]].prevTok == At(c, k + 1))
  {
    hide Picked, Stacked, Distinct;
  }

  // ---------------------------------------------------------------- the stacks

  /** The linked records stand for the state s. */
  ghost predicate StandsFor(syms: seq<Sym>, top: Link, gtop: Link, heads: map<Tok, nat>, locals: seq<nat>,
        globals: seq<nat>, s: State)
  {
    && Ok(syms, top, gtop, heads, locals, globals)
    && s.locals == Decls(syms, locals) && s.globals == Decls(syms, globals)
    && Inv(s)
  }

  lemma Tops(syms: seq<Sym>, top: Link, gtop: Link, heads: map<Tok, nat>, locals: seq<nat>, globals: seq<nat>, s: State)
    requires StandsFor(syms, top, gtop, heads, locals, globals, s)
    ensures top == At(locals, 0) && gtop == At(globals, 0) && (top.Some? <==> s.locals != [])
    ensures |s.locals| == |locals|
    ensures forall i :: 0 <= i < |locals| ==> locals[i] < |syms|
    ensures forall i :: 0 <= i < |globals| ==> globals[i] < |syms|
  {
  }

  lemma DoDeclare(s: State, v: Tok)
    requires Legal(s, Declare(v)) && Inv(s)
    ensures Do(s, Declare(v)) == if s.locals != []
                                 then s.(locals := [NewDecl(v, s.scope)] + s.locals, depths := [s.scope] + s.depths)
                                 else s.(globals := [NewDecl(v, s.scope)] + s.globals)
    ensures s.locals == [] <==> s.scope == 0
  {
  }

  lemma FreshIs(v: Tok, scope: nat, prev: Link, heads: map<Tok, nat>)
    ensures var r := Fresh(v, scope, prev, heads);
            Decl(r.v, r.scope) == NewDecl(v, scope)
  {
  }

  lemma LocalStandsFor(syms: seq<Sym>, top: Link, gtop: Link, heads: map<Tok, nat>, locals: seq<nat>,
        globals: seq<nat>, s: State, v: Tok)
    requires StandsFor(syms, top, gtop, heads, locals, globals, s) && Legal(s, Declare(v)) && top.Some?
    ensures StandsFor(syms + [Fresh(v, s.scope, top, heads)], Some(|syms|), gtop,
                      Entered(heads, v, |syms|), [|syms|] + locals, globals, Do(s, Declare(v)))
  {
    Tops(syms, top, gtop, heads, locals, globals, s);
    DoDeclare(s, v);
    InvKept(s, Declare(v));
    hide Ok, Inv, Decls, Do, Legal, Fresh, NewDecl, Entered, At;
    PushOk(syms, top, gtop, heads, locals, globals, v, s.scope);
    var r := Fresh(v, s.scope, top, heads);
    FreshIs(v, s.scope, top, heads);
    DeclsPush(syms, locals, r);
    DeclsPush(syms, globals, r);
  }

  lemma GlobalStandsFor(syms: seq<Sym>, top: Link, gtop: Link, heads: map<Tok, nat>, locals: seq<nat>,
        globals: seq<nat>, s: State, v: Tok)
    requires StandsFor(syms, top, gtop, heads, locals, globals, s) && Legal(s, Declare(v)) && top.None?
    ensures StandsFor(syms + [Fresh(v, s.scope, gtop, heads)], top, Some(|syms|),
                      Entered(heads, v, |syms|), locals, [|syms|] + globals, Do(s, Declare(v)))
  {
    Tops(syms, top, gtop, heads, locals, globals, s);
    DoDeclare(s, v);
    InvKept(s, Declare(v));
    hide Ok, Inv, Decls, Do, Legal, Fresh, NewDecl, Entered, At;
    PushGlobalOk(syms, top, gtop, heads, globals, v);
    var r := Fresh(v, s.scope, gtop, heads);
    FreshIs(v, s.scope, gtop, heads);
    DeclsPush(syms, locals, r);
    DeclsPush(syms, globals, r);
  }

  lemma PushRedeclares(syms: seq<Sym>, top: Link, gtop: Link, heads: map<Tok, nat>, locals: seq<nat>,
        globals: seq<nat>, s: State, v: Tok)
    requires StandsFor(syms, top, gtop, heads, locals, globals, s) && Recorded(v)
    ensures var h := Head(heads, v);
            (h.Some? ==> h.value < |syms|) && Redeclares(s, v) == (h.Some? && syms[h.value].scope == s.scope)
  {
    hide Ok, Inv, Lookup, Decls, Recorded;
    ChainVisible(syms, top, gtop, heads, locals, globals, v);
  }

  lemma DoDeclareGlobal(s: State, v: Tok)
    requires Legal(s, DeclareGlobal(v))
    ensures Do(s, DeclareGlobal(v)) == s.(globals := [Decl(v, 0)] + s.globals)
  {
  }

  lemma InsertStandsFor(syms: seq<Sym>, top: Link, gtop: Link, heads: map<Tok, nat>, locals: seq<nat>,
        globals: seq<nat>, s': State, v: Tok, r: Sym)
    requires Ok(syms, top, gtop, heads, locals, globals) && Inv(s')
    requires s'.locals == Decls(syms, locals) && s'.globals == [Decl(v, 0)] + Decls(syms, globals)
    requires r.v == v && r.scope == 0 && r.prev == gtop
    requires Recorded(v) ==> r.prevTok == At(Chain(syms, locals, globals, v), |Picked(syms, locals, v)|)
    ensures StandsFor(Linked(syms, Picked(syms, locals, v), r), top, Some(|syms|),
              LinkedHead(heads, Picked(syms, locals, v), v, |syms|), locals, [|syms|] + globals, s')
  {
    MembersAllocated(syms, top, locals);
    MembersAllocated(syms, gtop, globals);
    hide Ok, Inv, Decls, Picked, At, Linked, LinkedHead, Recorded, Chain;
    InsertOk(syms, top, gtop, heads, locals, globals, r);
    InsertDecls(syms, Picked(syms, locals, v), locals, globals, r);
  }

  lemma InsertDecls(syms: seq<Sym>, a: seq<nat>, locals: seq<nat>, globals: seq<nat>, r: Sym)
    requires a != [] ==> a[|a| - 1] < |syms|
    requires forall i :: 0 <= i < |locals| ==> locals[i] < |syms|
    requires forall i :: 0 <= i < |globals| ==> globals[i] < |syms|
    ensures Decls(Linked(syms, a, r), locals) == Decls(syms, locals)
    ensures Decls(Linked(syms, a, r), [|syms|] + globals) == [Decl(r.v, r.scope)] + Decls(syms, globals)
  {
    hide Linked, Decls;
    LinkedFields(syms, a, r);
    DeclsPush(syms, locals, r);
    DeclsPush(syms, globals, r);
    DeclsFrame(syms + [r], Linked(syms, a, r), locals);
    DeclsFrame(syms + [r], Linked(syms, a, r), [|syms|] + globals);
  }

  lemma DistinctParts(a: seq<nat>, b: seq<nat>)
    requires Distinct(a + b)
    ensures Distinct(a) && Distinct(b)
  {
    assert forall k :: 0 <= k < |a| ==> (a + b)[k] == a[k];
    assert forall k :: 0 <= k < |b| ==> (a + b)[|a| + k] == b[k];
  }

  lemma AtUnique(ids: seq<nat>, i: nat, j: nat)
    requires Distinct(ids)
    ensures i <= |ids| && j <= |ids| && At(ids, i) == At(ids, j) ==> i == j
  {
  }

  lemma TopsAre(syms: seq<Sym>, top: Link, gtop: Link, heads: map<Tok, nat>, locals: seq<nat>, globals: seq<nat>)
    requires Ok(syms, top, gtop, heads, locals, globals)
    ensures top == At(locals, 0) && gtop == At(globals, 0)
  {
  }

  lemma DeclsDrop(syms: seq<Sym>, ids: seq<nat>, n: nat)
    requires n <= |ids|
    ensures Decls(syms, ids[n..]) == Decls(syms, ids)[n..]
  {
  }

  class Scopes {
    var syms: seq<Sym>            // records, by address
    var localStack: Link
    var globalStack: Link
    var heads: map<Tok, nat>      // sym_identifier and sym_struct of the tokens
    var localScope: nat
    ghost var locals: seq<nat>
    ghost var globals: seq<nat>
    ghost var frames: seq<Frame>
    ghost var depths: seq<nat>

    ghost predicate Valid()
      reads this
    {
      StandsFor(syms, localStack, globalStack, heads, locals, globals, Abs())
    }

    ghost function Abs(): State
      reads this
    {
      State(Decls(syms, locals), Decls(syms, globals), localScope, frames, depths)
    }

    constructor ()
      ensures Valid() && Abs() == START
    {
      syms, localStack, globalStack, heads, localScope := [], None, None, map[], 0;
      locals, globals, frames, depths := [], [], [], [];
    }

    /** What a token means is at the head of its chain. */
    method SymFind(v: Tok) returns (s: Link)
      requires Valid() && !v.field && v.id < 0x1000_0000
      ensures Visible(Abs(), v) == if s.Some? then Some(DeclOf(syms, s.value)) else None
    {
      s := Head(heads, v);
      ChainVisible(syms, localStack, globalStack, heads, locals, globals, v);
    }

    method SymPush(v: Tok) returns (id: nat, redeclared: bool)
      requires Valid() && Legal(Abs(), Declare(v))
      modifies `syms, `localStack, `globalStack, `heads, `locals, `globals, `depths
      ensures Valid() && Abs() == Do(old(Abs()), Declare(v))
      ensures id == |old(syms)| && (!v.field && v.id < 0x1000_0000 ==> Head(heads, v) == Some(id))
      ensures redeclared == Redeclares(old(Abs()), v)
    {
      hide StandsFor, Inv, Legal, Do, Decls, Visible, DeclOf;
      ghost var was := Abs();
      if Recorded(v) { PushRedeclares(syms, localStack, globalStack, heads, locals, globals, was, v); }
      Tops(syms, localStack, globalStack, heads, locals, globals, was);
      id, redeclared := |syms|, false;
      if localStack.Some? {
        LocalStandsFor(syms, localStack, globalStack, heads, locals, globals, was, v);
        syms := syms + [Sym(v, 0, localStack, None)];
        localStack := Some(id);
        locals, depths := [id] + locals, [localScope] + depths;
      } else {
        GlobalStandsFor(syms, localStack, globalStack, heads, locals, globals, was, v);
        syms := syms + [Sym(v, 0, globalStack, None)];
        globalStack := Some(id);
        globals := [id] + globals;
      }
      if Recorded(v) {
        var prevTok := Head(heads, v);
        heads := SetHead(heads, v, Some(id));
        syms := syms[id := syms[id].(prevTok := prevTok, scope := localScope)];
        redeclared := prevTok.Some? && syms[prevTok.value].scope == localScope;
      }
      assert syms == old(syms) +
               [Fresh(v, localScope, if old(localStack).Some? then old(localStack) else old(globalStack), old(heads))];
      StandsForParts(syms, localStack, globalStack, heads, locals, globals, Do(was, Declare(v)));
      KeepsScope(was, Declare(v));
    }

    /** The symbol that a token means loses its scope. */
    method Unscope(v: Tok)
      requires Valid() && Legal(Abs(), ScopeRuns.Unscope(v))
      modifies `syms
      ensures Valid() && Abs() == Do(old(Abs()), ScopeRuns.Unscope(v))
    {
      ghost var was := Abs();
      ChainVisible(syms, localStack, globalStack, heads, locals, globals, v);
      UnscopeStandsFor(syms, localStack, globalStack, heads, locals, globals, was, v);
      hide StandsFor, Inv, Legal, Do, Decls, Visible, DeclOf;
      var sym := heads[v];
      syms := syms[sym := syms[sym].(scope := 0)];
      StandsForParts(syms, localStack, globalStack, heads, locals, globals, Do(was, ScopeRuns.Unscope(v)));
      KeepsScope(was, ScopeRuns.Unscope(v));
    }

    /** A static local variable, or one declared extern. */
    method DeclareStatic(v: Tok) returns (redeclared: bool)
      requires Valid() && Recorded(v) && Legal(Abs(), Declare(v))
      modifies `syms, `localStack, `globalStack, `heads, `locals, `globals, `depths
      ensures redeclared == Redeclares(old(Abs()), v)
      ensures var s := Do(old(Abs()), Declare(v));
              Legal(s, ScopeRuns.Unscope(v)) && Valid() && Abs() == Do(s, ScopeRuns.Unscope(v))
    {
      ghost var was := Abs();
      DeclaredIsVisible(was, v);
      var id;
      id, redeclared := SymPush(v);
      Unscope(v);
    }

    method BeginFunction()
      requires Valid() && Legal(Abs(), Begin)
      modifies `syms, `localStack, `localScope, `locals, `depths
      ensures Valid() && Abs() == Do(old(Abs()), Begin)
    {
      hide StandsFor, Inv, Decls;
      BeginStandsFor(syms, localStack, globalStack, heads, locals, globals, Abs());
      ghost var s' := Do(Abs(), Begin);
      var id := |syms|;
      syms := syms + [Sym(DUMMY.v, 0, localStack, None)];
      localStack, localScope := Some(id), 1;
      locals, depths := [id] + locals, [0];
      StandsForParts(syms, localStack, globalStack, heads, locals, globals, s');
    }

    method EndParameters()
      requires Valid() && Legal(Abs(), EndParams)
      modifies `localScope
      ensures Valid() && Abs() == Do(old(Abs()), EndParams)
    {
      hide Ok, Inv, Decls;
      InvKept(Abs(), EndParams);
      localScope := 0;
    }

    /** The caller keeps the top of the local stack. */
    method EnterBlock() returns (s: Link)
      requires Valid() && Legal(Abs(), Open)
      modifies `localScope, `frames
      ensures Valid() && Abs() == Do(old(Abs()), Open)
      ensures s == localStack
    {
      assert |Abs().locals| == |locals|;
      hide Ok, Inv, Decls;
      InvKept(Abs(), Open);
      s := localStack;
      localScope := localScope + 1;
      frames := [Frame(|locals|, false)] + frames;
    }

    /** The body of a `while`: nothing is kept. */
    method EnterLoop()
      requires Valid() && Legal(Abs(), Loop)
      modifies `localScope, `frames
      ensures Valid() && Abs() == Do(old(Abs()), Loop)
    {
      assert |Abs().locals| == |locals|;
      hide Ok, Inv, Decls;
      InvKept(Abs(), Loop);
      localScope := localScope + 1;
      frames := [Frame(|locals|, true)] + frames;
    }

    method LeaveLoop()
      requires Valid() && Legal(Abs(), EndLoop)
      modifies `localScope, `frames
      ensures Valid() && Abs() == Do(old(Abs()), EndLoop)
    {
      InvKept(Abs(), EndLoop);
      OutsideIs(Abs());
      hide Ok, Inv, Decls;
      localScope := localScope - 1;
      frames := frames[1..];
    }

    method LeaveBlock(s: Link)
      requires Valid() && Legal(Abs(), Close)
      requires frames[0].start <= |locals| && s == At(locals, |locals| - frames[0].start)
      modifies `localStack, `globalStack, `localScope, `heads, `locals, `globals, `frames, `depths
      ensures Valid() && Abs() == Do(old(Abs()), Close)
    {
      hide Ok, Inv, Decls, Do, Stacked, Distinct, Popped, Suffix, At;
      ghost var was, n := Abs(), |locals| - frames[0].start;
      ghost var s' := Do(was, Close);
      OkStacked(syms, localStack, globalStack, heads, locals, globals);
      CloseIs(was);
      CloseStandsFor(syms, localStack, globalStack, heads, locals, globals, was);
      hide StandsFor, Legal;
      localScope := localScope - 1;
      SymPop(true, s, n);
      frames, depths := s'.frames, s'.depths;
      StandsForParts(syms, localStack, globalStack, heads, locals, globals, s');
    }

    method EndFunction()
      requires Valid() && Legal(Abs(), End)
      modifies `localStack, `globalStack, `localScope, `heads, `locals, `globals, `depths
      ensures Valid() && Abs() == Do(old(Abs()), End)
    {
      ghost var was := Abs();
      EndStandsFor(syms, localStack, globalStack, heads, locals, globals, was);
      OkStacked(syms, localStack, globalStack, heads, locals, globals);
      hide StandsFor, Inv, Decls, Stacked, Distinct, Popped;
      localScope := 0;
      SymPop(true, None, |locals|);
      depths := [];
      StandsForParts(syms, localStack, globalStack, heads, locals, globals, Do(was, End));
    }

    /** At the end of a compile nothing is left declared. */
    method EndFile()
      requires Valid() && Abs().locals == []
      modifies `localStack, `globalStack, `heads, `locals, `globals
      ensures Valid() && Abs() == START
      ensures forall v :: Recorded(v) ==> v !in heads
    {
      Tops(syms, localStack, globalStack, heads, locals, globals, Abs());
      NoFrames(Abs());
      OkStacked(syms, localStack, globalStack, heads, locals, globals);
      SymPop(false, None, |globals|);
      DropGlobalsOk(syms, localStack, old(globalStack), old(heads), old(globals), |old(globals)|);
      SymPop(true, None, |locals|);
      NothingLeft(syms, localStack, globalStack, heads);
      assert locals == [] && globals == [];
    }

    /** In full: where the record is linked in, and that it declares the token behind the locals if
        each of these has its scope. */
    method GlobalIdentifierPush(v: Tok) returns (id: nat)
      requires Valid() && !v.isStruct && !v.field
      modifies `syms, `globalStack, `heads, `globals
      ensures id == |old(syms)| && globalStack == Some(id) && globals == [id] + old(globals)
      ensures syms == old(WithGlobal(syms, globalStack, locals, globals, v))
      ensures heads == old(WithGlobalHead(syms, heads, locals, globals, v))
      ensures old(Legal(Abs(), DeclareGlobal(v))) ==> Valid() && Abs() == Do(old(Abs()), DeclareGlobal(v))
    {
      ghost var was, legal := Abs(), Legal(Abs(), DeclareGlobal(v));
      ghost var a := Before(syms, locals, globals, v);
      if legal { PushStandsFor(syms, localStack, globalStack, heads, locals, globals, was, v); }
      RecordIs(syms, globalStack, locals, globals, v);
      hide StandsFor, Inv, Legal, Do, Decls, Picked, At, GlobalSym, Before, Chain, Gap;
      var before, ps: Link := None, None;
      if Recorded(v) { before, ps := FindGap(v); }
      id := LinkGlobal(v, before, ps, a);
      if legal {
        StandsForParts(syms, localStack, globalStack, heads, locals, globals, Do(was, DeclareGlobal(v)));
        KeepsScope(was, DeclareGlobal(v));
      }
    }

    /** The new record, on the global stack, and behind `before` in the chain. */
    method LinkGlobal(v: Tok, before: Link, ps: Link, ghost a: seq<nat>) returns (id: nat)
      requires before == (if a == [] || !Recorded(v) then None else Some(a[|a| - 1]))
      requires (a != [] ==> a[|a| - 1] < |syms|) && (!Recorded(v) ==> ps == None)
      modifies `syms, `globalStack, `heads, `globals
      ensures id == |old(syms)| && globalStack == Some(id) && globals == [id] + old(globals)
      ensures var s := Sym(v, 0, old(globalStack), ps);
              if Recorded(v) then syms == Linked(old(syms), a, s) && heads == LinkedHead(old(heads), a, v, id)
              else syms == old(syms) + [s] && heads == old(heads)
    {
      hide SetHead;
      id := |syms|;
      syms := syms + [Sym(v, 0, globalStack, None)];
      globalStack := Some(id);
      if Recorded(v) {
        syms := syms[id := syms[id].(prevTok := ps)];
        if before.Some? {
          syms := syms[before.value := syms[before.value].(prevTok := Some(id))];
        } else {
          heads := SetHead(heads, v, Some(id));
        }
      }
      globals := [id] + globals;
    }

    /** The first link to a record without a scope, and the record it is in. */
    method FindGap(v: Tok) returns (before: Link, ps: Link)
      requires Valid() && Recorded(v)
      ensures var (c, a) := (Chain(syms, locals, globals, v), Before(syms, locals, globals, v));
              ps == At(c, |a|) && before == if a == [] then None else Some(a[|a| - 1])
      ensures before.Some? ==> before.value < |syms|
    {
      ghost var c := Chain(syms, locals, globals, v);
      ChainShape(syms, localStack, globalStack, heads, locals, globals, v);
      BeforeIs(syms, locals, globals, v);
      hide StandsFor, Chain, Before, Gap;
      ghost var k: nat := 0;
      before, ps := None, Head(heads, v);
      while ps.Some? && syms[ps.value].scope != 0
        invariant k <= |c| && ps == At(c, k) && (ps.Some? ==> ps.value < |syms|)
        invariant before == if k == 0 then None else Some(c[k - 1])
        invariant before.Some? ==> before.value < |syms|
        invariant forall i :: 0 <= i < k ==> syms[c[i]].scope != 0
        decreases |c| - k
      {
        before := ps;
        ps := syms[ps.value].prevTok;
        k := k + 1;
      }
      GapAt(syms, c, k);
    }

    /** The symbol of an assembler name: one without a scope, static locals included. */
    method AsmLabelFind(v: Tok) returns (sym: Link)
      requires Valid() && Recorded(v)
      ensures var c := Chain(syms, locals, globals, v); sym == At(c, Gap(syms, c))
    {
      var before;
      before, sym := FindGap(v);
    }

    /** The callers push a global identifier only if they find none, so that it lands behind the
        locals in every state. */
    method GetAsmSym(v: Tok) returns (sym: nat)
      requires Valid() && Recorded(v) && !v.isStruct
      modifies `syms, `globalStack, `heads, `globals
      ensures Valid()
      ensures old(AllScoped(syms, locals, globals, v)) ==>
                Legal(old(Abs()), DeclareGlobal(v)) && Abs() == Do(old(Abs()), DeclareGlobal(v))
      ensures !old(AllScoped(syms, locals, globals, v)) ==>
                Abs() == old(Abs()) && sym in Chain(syms, locals, globals, v) && sym < |syms| && syms[sym].scope == 0
    {
      AllScopedIs(syms, localStack, globalStack, heads, locals, globals, Abs(), v);
      ChainShape(syms, localStack, globalStack, heads, locals, globals, v);
      var found := AsmLabelFind(v);
      if found.Some? {
        sym := found.value;
      } else {
        sym := GlobalIdentifierPush(v);
      }
    }

    /** An implicit reference to a global symbol. */
    method ExternalGlobalSym(v: Tok)
      requires Valid() && Recorded(v) && !v.isStruct
      modifies `syms, `globalStack, `heads, `globals
      ensures Valid() && Visible(Abs(), v).Some?
      ensures if Visible(old(Abs()), v).Some? then Abs() == old(Abs())
              else Legal(old(Abs()), DeclareGlobal(v)) && Abs() == Do(old(Abs()), DeclareGlobal(v))
    {
      ghost var was := Abs();
      NotSeen(was, v);
      var s := SymFind(v);
      if s.None? {
        var id := GlobalIdentifierPush(v);
      }
    }

    /** Unlinks the records above b, from the top of a stack. */
    method SymPop(fromLocal: bool, b: Link, ghost n: nat)
      requires Stacked(syms, localStack, locals) && Stacked(syms, globalStack, globals)
      requires Distinct(locals) && Distinct(globals)
      requires if fromLocal then n <= |locals| && b == At(locals, n) else n <= |globals| && b == At(globals, n)
      modifies `localStack, `globalStack, `heads, `locals, `globals
      ensures heads == Popped(syms, old(heads), if fromLocal then old(locals)[..n] else old(globals)[..n])
      ensures if fromLocal then localStack == b && locals == old(locals)[n..]
              else localStack == old(localStack) && locals == old(locals)
      ensures if fromLocal then globalStack == old(globalStack) && globals == old(globals)
              else globalStack == b && globals == old(globals)[n..]
    {
      hide At, Distinct, Popped;
      ghost var ids := if fromLocal then locals else globals;
      var s := if fromLocal then localStack else globalStack;
      ghost var k: nat := 0;
      PopStart(syms, heads, ids, s);
      while s != b
        modifies `heads
        invariant k <= n <= |ids| && s == At(ids, k) && heads == Popped(syms, old(heads), ids[..k])
        decreases n - k
      {
        AtBefore(ids, k, n);
        PopStep(syms, old(heads), ids, s, k);
        var ss := syms[s.value].prev;
        if Recorded(syms[s.value].v) { heads := SetHead(heads, syms[s.value].v, syms[s.value].prevTok); }
        s := ss;
        k := k + 1;
      }
      AtUnique(ids, k, n);
      if fromLocal { localStack, locals := b, locals[n..]; } else { globalStack, globals := b, globals[n..]; }
    }
  }

  lemma PopStart(syms: seq<Sym>, heads: map<Tok, nat>, ids: seq<nat>, top: Link)
    requires top == At(ids, 0)
    ensures heads == Popped(syms, heads, ids[..0])
  {
  }

  lemma AtBefore(ids: seq<nat>, k: nat, n: nat)
    requires k <= n <= |ids| && At(ids, k) != At(ids, n)
    ensures k < n && At(ids, k) == Some(ids[k])
  {
  }

  /** One record more. */
  lemma PopStep(syms: seq<Sym>, heads: map<Tok, nat>, ids: seq<nat>, top: Link, k: nat)
    requires k < |ids| && exists first :: Stacked(syms, first, ids)
    ensures ids[k] < |syms| && syms[ids[k]].prev == At(ids, k + 1)
    ensures Popped(syms, heads, ids[..k + 1]) == Left(Popped(syms, heads, ids[..k]), syms[ids[k]])
  {
    PoppedOn(syms, heads, ids[..k], ids[k]);
    assert ids[..k + 1] == ids[..k] + [ids[k]];
  }

  lemma OkStacked(syms: seq<Sym>, top: Link, gtop: Link, heads: map<Tok, nat>, locals: seq<nat>, globals: seq<nat>)
    requires Ok(syms, top, gtop, heads, locals, globals)
    ensures Stacked(syms, top, locals) && Stacked(syms, gtop, globals) && Distinct(locals) && Distinct(globals)
  {
    DistinctParts(locals, globals);
  }

  lemma GapAt(syms: seq<Sym>, c: seq<nat>, k: nat)
    requires k <= |c| && forall i :: 0 <= i < |c| ==> c[i] < |syms|
    requires forall i :: 0 <= i < k ==> syms[c[i]].scope != 0
    requires k < |c| ==> syms[c[k]].scope == 0
    ensures Gap(syms, c) == k
  {
    var g := Gap(syms, c);
  }

  /** No record of v lacks a scope. */
  ghost predicate AllScoped(syms: seq<Sym>, locals: seq<nat>, globals: seq<nat>, v: Tok)
  {
    forall x :: x in Chain(syms, locals, globals, v) ==> x < |syms| && syms[x].scope != 0
  }

  lemma AllScopedIs(syms: seq<Sym>, top: Link, gtop: Link, heads: map<Tok, nat>, locals: seq<nat>, globals: seq<nat>,
        s: State, v: Tok)
    requires StandsFor(syms, top, gtop, heads, locals, globals, s) && Recorded(v)
    ensures var c := Chain(syms, locals, globals, v); AllScoped(syms, locals, globals, v) <==> Gap(syms, c) == |c|
    ensures AllScoped(syms, locals, globals, v) && !v.isStruct ==> Legal(s, DeclareGlobal(v))
  {
    hide Inv, Ok, Stacked, Distinct, Picked, Gap, Decls, Chain, AllScoped, NoneUnscoped;
    ChainShape(syms, top, gtop, heads, locals, globals, v);
    OkStacked(syms, top, gtop, heads, locals, globals);
    AllScopedGap(syms, locals, globals, v);
    AllScopedLocals(syms, top, locals, globals, v);
  }

  lemma AllScopedGap(syms: seq<Sym>, locals: seq<nat>, globals: seq<nat>, v: Tok)
    requires forall k: nat :: k < |Chain(syms, locals, globals, v)| ==> Chain(syms, locals, globals, v)[k] < |syms|
    ensures var c := Chain(syms, locals, globals, v); AllScoped(syms, locals, globals, v) <==> Gap(syms, c) == |c|
  {
    hide Chain, Gap;
    GapAll(syms, Chain(syms, locals, globals, v));
  }

  lemma AllScopedLocals(syms: seq<Sym>, top: Link, locals: seq<nat>, globals: seq<nat>, v: Tok)
    requires Stacked(syms, top, locals)
    ensures AllScoped(syms, locals, globals, v) ==> NoneUnscoped(Decls(syms, locals), v)
  {
    MembersAllocated(syms, top, locals);
    hide Picked, Decls, Stacked;
    ScopedDecls(syms, locals, v);
    assert forall x :: x in Picked(syms, locals, v) ==> x in Chain(syms, locals, globals, v);
  }

  lemma GapAll(syms: seq<Sym>, c: seq<nat>)
    requires forall k: nat :: k < |c| ==> c[k] < |syms|
    ensures Gap(syms, c) == |c| <==> forall x :: x in c ==> x < |syms| && syms[x].scope != 0
  {
    var k := Gap(syms, c);
    if k < |c| {
      assert c[k] in c;
    } else {
      forall x | x in c ensures x < |syms| && syms[x].scope != 0 {
        var i :| 0 <= i < |c| && c[i] == x;
      }
    }
  }

  lemma ScopedDecls(syms: seq<Sym>, ids: seq<nat>, v: Tok)
    requires forall x :: x in ids ==> x < |syms|
    ensures NoneUnscoped(Decls(syms, ids), v) <==>
              forall x :: x in Picked(syms, ids, v) ==> x < |syms| && syms[x].scope != 0
  {
    hide Picked;
    PickedAre(syms, ids, v);
    if NoneUnscoped(Decls(syms, ids), v) {
      forall x | x in Picked(syms, ids, v) ensures x < |syms| && syms[x].scope != 0 {
        var i :| 0 <= i < |ids| && ids[i] == x;
        assert Decls(syms, ids)[i] in Decls(syms, ids);
      }
    }
  }

  lemma NotSeen(s: State, v: Tok)
    requires Recorded(v) && !v.isStruct
    ensures Visible(s, v).None? ==> Legal(s, DeclareGlobal(v)) && Visible(Do(s, DeclareGlobal(v)), v).Some?
  {
    LookupFinds(s.locals + s.globals, v);
    if Visible(s, v).None? {
      assert forall d :: d in s.locals ==> d in s.locals + s.globals;
      DeclareGlobalVisible(s, v, v);
      LookupAppend(s.locals, s.globals, v);
    }
  }

  lemma DeclaredIsVisible(s: State, v: Tok)
    requires Inv(s) && Recorded(v) && Legal(s, Declare(v))
    ensures Legal(Do(s, Declare(v)), ScopeRuns.Unscope(v))
  {
    DeclareVisible(s, v, v);
  }

  /** The head of the chain is the record of the newest declaration. */
  lemma {:induction false} FadeDecls(syms: seq<Sym>, ids: seq<nat>, v: Tok, syms': seq<Sym>)
    requires Distinct(ids) && forall x :: x in ids ==> x < |syms|
    requires |syms'| == |syms|
    requires var p := Picked(syms, ids, v);
             forall x :: 0 <= x < |syms| && x in ids ==>
               syms'[x] == if p != [] && x == p[0] then syms[x].(scope := 0) else syms[x]
    ensures Decls(syms', ids) == Fade(Decls(syms, ids), v)
    decreases |ids|
  {
    if ids != [] {
      var rest := ids[1..];
      assert ids == [ids[0]] + rest && ids[0] in ids;
      assert forall x :: x in rest ==> x in ids;
      assert ids[0] !in rest;
      assert Picked(syms, ids, v) == (if syms[ids[0]].v == v then [ids[0]] else []) + Picked(syms, rest, v);
      assert Decls(syms, ids)[1..] == Decls(syms, rest);
      assert Decls(syms', ids) == [DeclOf(syms', ids[0])] + Decls(syms', rest);
      if syms[ids[0]].v == v {
        assert Decls(syms', rest) == Decls(syms, rest);
      } else {
        assert Picked(syms, ids, v) == Picked(syms, rest, v);
        PickedAre(syms, rest, v);
        FadeDecls(syms, rest, v, syms');
      }
    }
  }

  lemma UnscopeStandsFor(syms: seq<Sym>, top: Link, gtop: Link, heads: map<Tok, nat>, locals: seq<nat>,
        globals: seq<nat>, s: State, v: Tok)
    requires StandsFor(syms, top, gtop, heads, locals, globals, s) && Legal(s, ScopeRuns.Unscope(v))
    requires v in heads && heads[v] < |syms|
    ensures StandsFor(syms[heads[v] := syms[heads[v]].(scope := 0)], top, gtop, heads, locals, globals,
              Do(s, ScopeRuns.Unscope(v)))
  {
    var (id, syms') := (heads[v], syms[heads[v] := syms[heads[v]].(scope := 0)]);
    InvKept(s, ScopeRuns.Unscope(v));
    hide Inv, Decls, Fade, Chain, Visible;
    HeadIs(syms, top, gtop, heads, locals, globals, v);
    UnscopeOk(syms, syms', top, gtop, heads, locals, globals);
    UnscopeDecls(syms, locals, globals, v, id);
  }

  /** The head of a token's chain. */
  lemma HeadIs(syms: seq<Sym>, top: Link, gtop: Link, heads: map<Tok, nat>, locals: seq<nat>, globals: seq<nat>, v: Tok)
    requires Ok(syms, top, gtop, heads, locals, globals) && Recorded(v)
    ensures Head(heads, v) == At(Chain(syms, locals, globals, v), 0)
    ensures forall x :: x in locals || x in globals ==> x < |syms|
    ensures Distinct(locals + globals) && forall x :: x in globals ==> x < |syms| && syms[x].scope == 0
  {
    hide Chained, Picked, Distinct;
    MembersAllocated(syms, top, locals);
    MembersAllocated(syms, gtop, globals);
    HeadLink(syms, Head(heads, v), Chain(syms, locals, globals, v));
  }

  lemma UnscopeDecls(syms: seq<Sym>, locals: seq<nat>, globals: seq<nat>, v: Tok, id: nat)
    requires forall x :: x in locals || x in globals ==> x < |syms|
    requires Distinct(locals + globals) && forall x :: x in globals ==> x < |syms| && syms[x].scope == 0
    requires id < |syms| && At(Chain(syms, locals, globals, v), 0) == Some(id)
    ensures var syms' := syms[id := syms[id].(scope := 0)];
            Decls(syms', locals) == Fade(Decls(syms, locals), v) && Decls(syms', globals) == Decls(syms, globals)
  {
    var syms' := syms[id := syms[id].(scope := 0)];
    DistinctParts(locals, globals);
    OnlyLocal(locals, globals, id);
    hide Picked, Distinct, Decls;
    PickedAre(syms, locals, v);
    PickedAre(syms, globals, v);
    var (a, b) := (Picked(syms, locals, v), Picked(syms, globals, v));
    if a != [] {
      assert (a + b)[0] == a[0] == id && a[0] in a;
    } else {
      assert (a + b)[0] == b[0] == id && b[0] in b;
    }
    FadeDecls(syms, locals, v, syms');
    DeclsSame(syms, syms', globals, id);
  }

  lemma OnlyLocal(locals: seq<nat>, globals: seq<nat>, id: nat)
    requires Distinct(locals + globals)
    ensures !(id in locals && id in globals)
  {
    forall i, j | 0 <= i < |locals| && 0 <= j < |globals| ensures locals[i] != globals[j] {
      assert (locals + globals)[i] == locals[i] && (locals + globals)[|locals| + j] == globals[j];
    }
  }

  lemma DeclsSame(syms: seq<Sym>, syms': seq<Sym>, ids: seq<nat>, id: nat)
    requires |syms'| == |syms| && forall x :: 0 <= x < |syms| && x != id ==> syms'[x] == syms[x]
    requires id in ids ==> id < |syms| && DeclOf(syms', id) == DeclOf(syms, id)
    ensures Decls(syms', ids) == Decls(syms, ids)
  {
    forall i | 0 <= i < |ids| ensures DeclOf(syms', ids[i]) == DeclOf(syms, ids[i]) { }
  }

  /** Only a scope changes, and only to none. */
  lemma UnscopeOk(syms: seq<Sym>, syms': seq<Sym>, top: Link, gtop: Link, heads: map<Tok, nat>, locals: seq<nat>,
        globals: seq<nat>)
    requires Ok(syms, top, gtop, heads, locals, globals) && |syms'| == |syms|
    requires forall x :: 0 <= x < |syms| ==> syms'[x] in {syms[x], syms[x].(scope := 0)}
    ensures Ok(syms', top, gtop, heads, locals, globals)
  {
    MembersAllocated(syms, top, locals);
    MembersAllocated(syms, gtop, globals);
    StackedFrame(syms, syms', top, locals);
    StackedFrame(syms, syms', gtop, globals);
    hide Stacked, Chained, Picked, Distinct;
    forall v | Recorded(v) ensures Chained(syms', Head(heads, v), Chain(syms', locals, globals, v)) {
      PickedFrame(syms, syms', locals, v);
      PickedFrame(syms, syms', globals, v);
      ChainedFrame(syms, syms', Head(heads, v), Chain(syms, locals, globals, v));
    }
  }

  /** A global identifier, if each local of the token has its scope. */
  lemma PushStandsFor(syms: seq<Sym>, top: Link, gtop: Link, heads: map<Tok, nat>, locals: seq<nat>,
        globals: seq<nat>, s: State, v: Tok)
    requires StandsFor(syms, top, gtop, heads, locals, globals, s) && Legal(s, DeclareGlobal(v))
    ensures StandsFor(WithGlobal(syms, gtop, locals, globals, v), top, Some(|syms|),
              WithGlobalHead(syms, heads, locals, globals, v), locals, [|syms|] + globals, Do(s, DeclareGlobal(v)))
  {
    Tops(syms, top, gtop, heads, locals, globals, s);
    GapIff(syms, top, gtop, heads, locals, globals, v);
    ScopedDecls(syms, locals, v);
    var r := GlobalSym(syms, gtop, locals, globals, v);
    DoDeclareGlobal(s, v);
    InvKept(s, DeclareGlobal(v));
    hide Ok, Inv, Decls, Picked, Do;
    InsertStandsFor(syms, top, gtop, heads, locals, globals, Do(s, DeclareGlobal(v)), v, r);
    if Recorded(v) {
      var (a, b) := (Picked(syms, locals, v), Picked(syms, globals, v));
      assert (a + b)[..|a|] == a;
    }
  }

  lemma NoFrames(s: State)
    requires Inv(s) && s.locals == []
    ensures s.frames == [] && s.depths == [] && s.scope == 0
  {
  }

  lemma OutsideIs(s: State)
    requires Inv(s) && s.frames != []
    ensures s.scope > 0
  {
  }

  /** Dropping records drops declarations. */
  lemma DropStandsFor(syms: seq<Sym>, top: Link, gtop: Link, heads: map<Tok, nat>, locals: seq<nat>,
        globals: seq<nat>, s: State, ids: seq<nat>)
    requires Ok(syms, top, gtop, heads, locals, globals) && Inv(s) && s.globals == Decls(syms, globals)
    requires s.locals == Suffix(Decls(syms, ids), |locals|) && |locals| <= |ids| && locals == ids[|ids| - |locals|..]
    ensures StandsFor(syms, top, gtop, heads, locals, globals, s)
  {
    hide Inv, Ok;
    DeclsDrop(syms, ids, |ids| - |locals|);
  }

  /** The dummy that makes the local stack non-empty is not recorded. */
  lemma BeginStandsFor(syms: seq<Sym>, top: Link, gtop: Link, heads: map<Tok, nat>, locals: seq<nat>,
        globals: seq<nat>, s: State)
    requires StandsFor(syms, top, gtop, heads, locals, globals, s) && Legal(s, Begin)
    ensures StandsFor(syms + [Sym(DUMMY.v, 0, top, None)], Some(|syms|), gtop, heads, [|syms|] + locals, globals,
              Do(s, Begin))
  {
    Tops(syms, top, gtop, heads, locals, globals, s);
    InvKept(s, Begin);
    var r := Sym(DUMMY.v, 0, top, None);
    assert r == Fresh(DUMMY.v, 1, top, heads) && Entered(heads, DUMMY.v, |syms|) == heads;
    hide Ok, Inv, Decls, Fresh, Entered;
    PushOk(syms, top, gtop, heads, locals, globals, DUMMY.v, 1);
    DeclsPush(syms, locals, r);
    DeclsPush(syms, globals, r);
  }

  lemma CloseStandsFor(syms: seq<Sym>, top: Link, gtop: Link, heads: map<Tok, nat>, locals: seq<nat>,
        globals: seq<nat>, s: State)
    requires StandsFor(syms, top, gtop, heads, locals, globals, s) && Legal(s, Close)
    ensures s.frames[0].start <= |locals| == |s.depths|
    ensures var n := |locals| - s.frames[0].start;
            StandsFor(syms, At(locals, n), gtop, Popped(syms, heads, locals[..n]), locals[n..], globals, Do(s, Close))
  {
    InvKept(s, Close);
    CloseIs(s);
    hide Ok, Inv, Do, Decls, Popped;
    var n := |locals| - s.frames[0].start;
    DropOk(syms, top, gtop, heads, locals, globals, n);
    var (top', heads') := (At(locals, n), Popped(syms, heads, locals[..n]));
    DropStandsFor(syms, top', gtop, heads', locals[n..], globals, Do(s, Close), locals);
  }

  lemma EndStandsFor(syms: seq<Sym>, top: Link, gtop: Link, heads: map<Tok, nat>, locals: seq<nat>,
        globals: seq<nat>, s: State)
    requires StandsFor(syms, top, gtop, heads, locals, globals, s) && Legal(s, End)
    ensures var n := |locals|;
            StandsFor(syms, At(locals, n), gtop, Popped(syms, heads, locals[..n]), locals[n..], globals, Do(s, End))
  {
    InvKept(s, End);
    hide Ok, Inv, Decls, Popped;
    var n := |locals|;
    DropOk(syms, top, gtop, heads, locals, globals, n);
    var (top', heads') := (At(locals, n), Popped(syms, heads, locals[..n]));
    DropStandsFor(syms, top', gtop, heads', locals[n..], globals, Do(s, End), locals);
  }

  lemma CloseIs(s: State)
    requires Legal(s, Close) && Inv(s)
    ensures s.scope > 0 && 0 < s.frames[0].start <= |s.locals| == |s.depths|
    ensures var s' := Do(s, Close);
            s'.locals == Suffix(s.locals, s.frames[0].start) && s'.globals == s.globals && s'.scope == s.scope - 1
  {
  }

  lemma NothingLeft(syms: seq<Sym>, top: Link, gtop: Link, heads: map<Tok, nat>)
    requires Ok(syms, top, gtop, heads, [], [])
    ensures forall v :: Recorded(v) ==> v !in heads
  {
    forall v | Recorded(v) ensures v !in heads {
      PickedNothing(syms, v);
      HeadLink(syms, Head(heads, v), Chain(syms, [], [], v));
    }
  }

  lemma StandsForParts(syms: seq<Sym>, top: Link, gtop: Link, heads: map<Tok, nat>, locals: seq<nat>,
        globals: seq<nat>, s: State)
    requires StandsFor(syms, top, gtop, heads, locals, globals, s)
    ensures s == State(Decls(syms, locals), Decls(syms, globals), s.scope, s.frames, s.depths)
  {
  }

  lemma KeepsScope(s: State, op: Op)
    requires (op.Declare? || op.Unscope? || op.DeclareGlobal?) && Legal(s, op)
    ensures Do(s, op).scope == s.scope && Do(s, op).frames == s.frames
    ensures Do(s, op).depths == if op.Declare? && s.locals != [] then [s.scope] + s.depths else s.depths
  {
  }
}
