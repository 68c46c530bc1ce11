/** Scopes as the compiler's callers see them: lists of declarations, and what a run of
    declaring, entering and leaving scopes does to lookup. */
module ScopeRuns {
  import opened Basics

  /** A token with the flag bits of its name space; from `FIRST_ANOM` on it is anonymous. */
  datatype Tok = Tok(id: nat, isStruct: bool, field: bool)

  const FIRST_ANOM := 0x10000000

  predicate Recorded(v: Tok) { !v.field && v.id < FIRST_ANOM }

  /** `scope` is the scope that is on record; it may have been cleared to 0 since. */
  datatype Decl = Decl(v: Tok, scope: nat)

  /** The first declaration of v in the list. */
  function Lookup(ds: seq<Decl>, v: Tok): Option<Decl>
  {
    if ds == [] then None else if ds[0].v == v then Some(ds[0]) else Lookup(ds[1..], v)
  }

  /** A scope that is open: how many locals there were when it was entered, and whether it is the
      body of a `while`, which drops none of its locals at the end. */
  datatype Frame = Frame(start: nat, loop: bool)

  /** Declarations newest first, open scopes innermost first, and for each local the depth it was
      declared at. */
  datatype State = State(locals: seq<Decl>, globals: seq<Decl>, scope: nat, frames: seq<Frame>, depths: seq<nat>)

  function Visible(s: State, v: Tok): Option<Decl> { Lookup(s.locals + s.globals, v) }

  /** The steps of a compile:
      - `Begin`, `EndParams`, `End`: a function definition before, between and after its parameters
        and its body;
      - `Open`, `Close`: the braces of a block, and the beginning and end of a `for` statement;
      - `Loop`, `EndLoop`: before and after the body of a `while`;
      - `Declare`: any declaration, tag or enumerator, by sym_push;
      - `Unscope`: the visible symbol loses its scope, right after the declaration of a static
        or extern variable or function, or later by an alias attribute;
      - `DeclareGlobal`: a global identifier is made, wherever the compiler is. */
  datatype Op = Begin | EndParams | Open | Close | Loop | EndLoop | End
              | Declare(v: Tok) | Unscope(v: Tok) | DeclareGlobal(v: Tok)

  /** A global identifier is made for a token only if the token has no local without a scope: the
      callers use that one instead. */
  ghost predicate NoneUnscoped(ds: seq<Decl>, v: Tok) { forall d :: d in ds && d.v == v ==> d.scope != 0 }

  ghost predicate Legal(s: State, op: Op)
  {
    match op
    case Begin => s.locals == []
    case EndParams => s.locals != [] && s.frames == []
    case Open => s.locals != [] && (s.frames != [] || s.scope == 0)
    case Close => s.frames != [] && !s.frames[0].loop
    case Loop => s.frames != []
    case EndLoop => s.frames != [] && s.frames[0].loop
    case End => s.locals != [] && s.frames == []
    case Declare(v) => s.locals != [] ==> s.scope != 0
    case Unscope(v) => Recorded(v) && Visible(s, v).Some?
    case DeclareGlobal(v) => !v.isStruct && !v.field && (Recorded(v) ==> NoneUnscoped(s.locals, v))
  }

  /** The symbol that makes the local stack non-empty at the start of a function. */
  const DUMMY := Decl(Tok(0, false, true), 0)

  function Suffix<T>(ds: seq<T>, n: nat): seq<T> { if n <= |ds| then ds[|ds| - n..] else ds }

  function NewDecl(v: Tok, scope: nat): Decl { Decl(v, if Recorded(v) then scope else 0) }

  /** The first declaration of v has its scope cleared. */
  function Fade(ds: seq<Decl>, v: Tok): (r: seq<Decl>)
    ensures |r| == |ds|
  {
    if ds == [] then []
    else if ds[0].v == v then [ds[0].(scope := 0)] + ds[1..]
    else [ds[0]] + Fade(ds[1..], v)
  }

  function Entered(s: State, loop: bool): State
  {
    s.(scope := s.scope + 1, frames := [Frame(|s.locals|, loop)] + s.frames)
  }

  function Outside(s: State): State
    requires s.frames != []
  {
    s.(scope := if s.scope > 0 then s.scope - 1 else 0, frames := s.frames[1..])
  }

  ghost function Do(s: State, op: Op): State
    requires Legal(s, op)
  {
    match op
    case Begin => s.(locals := [DUMMY], depths := [0], scope := 1)
    case EndParams => s.(scope := 0)
    case Open => Entered(s, false)
    case Close =>
      var n := s.frames[0].start;
      Outside(s).(locals := Suffix(s.locals, n), depths := Suffix(s.depths, n))
    case Loop => Entered(s, true)
    case EndLoop => Outside(s)
    case End => s.(locals := [], depths := [], scope := 0)
    case Declare(v) =>
      if s.locals != [] then s.(locals := [NewDecl(v, s.scope)] + s.locals, depths := [s.scope] + s.depths)
      else s.(globals := [NewDecl(v, s.scope)] + s.globals)
    case Unscope(v) => s.(locals := Fade(s.locals, v))    // a global one has no scope
    case DeclareGlobal(v) => s.(globals := [Decl(v, 0)] + s.globals)
  }

  /** What sym_push objects to. */
  predicate Redeclares(s: State, v: Tok)
  {
    Recorded(v) && Visible(s, v).Some? && Visible(s, v).value.scope == s.scope
  }

  // -------------------------------------------------------- reachable states

  /** The p-th element, in the order in which they were made. */
  function AtPlace<T>(ds: seq<T>, p: nat): T
    requires p < |ds|
  {
    ds[|ds| - 1 - p]
  }

  ghost predicate GlobalScope(ds: seq<Decl>) { forall d :: d in ds ==> d.scope == 0 }

  /** Scopes nest, inside a function. */
  ghost predicate Nested(frames: seq<Frame>, n: nat)
  {
    && (forall k :: 0 <= k < |frames| ==> 0 < frames[k].start <= n)
    && (forall j, k :: 0 <= j < k < |frames| ==> frames[k].start <= frames[j].start)
  }

  /** What was declared since a scope was entered was declared at its depth or deeper. */
  ghost predicate Deep(depths: seq<nat>, frames: seq<Frame>)
  {
    forall k: nat, p: nat :: k < |frames| && frames[k].start <= p < |depths| ==> |frames| - k <= AtPlace(depths, p)
  }

  /** Each local has the scope that it was declared in, or none. */
  ghost predicate Placed(locals: seq<Decl>, depths: seq<nat>)
  {
    && |depths| == |locals|
    && forall p: nat :: p < |locals| ==>
         && AtPlace(locals, p).scope in {0, AtPlace(depths, p)}
         && (Recorded(AtPlace(locals, p).v) ==> AtPlace(depths, p) != 0)
  }

  ghost predicate Inv(s: State)
  {
    && (s.locals == [] ==> s.scope == 0)
    && (if s.frames == [] then s.scope <= 1 else s.scope == |s.frames|)
    && Nested(s.frames, |s.locals|) && Deep(s.depths, s.frames)
    && Placed(s.locals, s.depths) && GlobalScope(s.globals)
  }

  const START := State([], [], 0, [], [])

  lemma InvStart()
    ensures Inv(START)
  {
  }

  lemma PlaceAfterPush<T>(d: T, ds: seq<T>, p: nat)
    requires p <= |ds|
    ensures AtPlace([d] + ds, p) == if p == |ds| then d else AtPlace(ds, p)
  {
  }

  lemma PlaceAfterDrop<T>(ds: seq<T>, n: nat, p: nat)
    requires p < n <= |ds|
    ensures |Suffix(ds, n)| == n && AtPlace(Suffix(ds, n), p) == AtPlace(ds, p)
  {
  }

  lemma {:induction false} FadePlace(ds: seq<Decl>, v: Tok, p: nat)
    requires p < |ds|
    ensures var (d, r) := (AtPlace(ds, p), AtPlace(Fade(ds, v), p)); r == d || (d.v == v && r == d.(scope := 0))
  {
    if ds[0].v != v {
      PlaceAfterPush(ds[0], Fade(ds[1..], v), p);
      assert ds == [ds[0]] + ds[1..];
      PlaceAfterPush(ds[0], ds[1..], p);
      if p < |ds| - 1 { FadePlace(ds[1..], v, p); }
    }
  }

  lemma EnterKept(s: State, loop: bool)
    requires Inv(s) && s.locals != [] && (s.frames != [] || s.scope == 0)
    ensures Inv(Entered(s, loop))
  {
    hide Placed, AtPlace;
    var frames' := [Frame(|s.locals|, loop)] + s.frames;
    forall k: nat, p: nat | k < |frames'| && frames'[k].start <= p < |s.depths|
      ensures |frames'| - k <= AtPlace(s.depths, p)
    {
      assert |s.depths| == |s.locals| by { assert Placed(s.locals, s.depths); PlacedLength(s.locals, s.depths); }
      assert frames'[k] == s.frames[k - 1];
    }
  }

  lemma PlacedLength(locals: seq<Decl>, depths: seq<nat>)
    requires Placed(locals, depths)
    ensures |depths| == |locals|
  {
  }

  lemma CloseKept(s: State)
    requires Inv(s) && Legal(s, Close)
    ensures Inv(Do(s, Close))
  {
    var n := s.frames[0].start;
    var (locals', depths') := (Suffix(s.locals, n), Suffix(s.depths, n));
    forall p: nat | p < n
      ensures AtPlace(locals', p) == AtPlace(s.locals, p) && AtPlace(depths', p) == AtPlace(s.depths, p)
    {
      PlaceAfterDrop(s.locals, n, p);
      PlaceAfterDrop(s.depths, n, p);
    }
    hide AtPlace, Suffix;
    assert |locals'| == |depths'| == n by { PlaceAfterDrop(s.locals, n, 0); PlaceAfterDrop(s.depths, n, 0); }
    OutsideDeep(depths', s.depths, s.frames);
  }

  lemma OutsideDeep(depths': seq<nat>, depths: seq<nat>, frames: seq<Frame>)
    requires Deep(depths, frames) && frames != [] && |depths'| <= |depths|
    requires forall p: nat :: p < |depths'| ==> AtPlace(depths', p) == AtPlace(depths, p)
    ensures Deep(depths', frames[1..])
  {
    hide AtPlace;
    forall k: nat, p: nat | k < |frames| - 1 && frames[1..][k].start <= p < |depths'|
      ensures |frames| - 1 - k <= AtPlace(depths', p)
    {
      assert frames[1..][k] == frames[k + 1];
    }
  }

  lemma DeclareKept(s: State, v: Tok)
    requires Inv(s) && Legal(s, Declare(v))
    ensures Inv(Do(s, Declare(v)))
  {
    if s.locals != [] {
      var (d, locals', depths') := (NewDecl(v, s.scope), [NewDecl(v, s.scope)] + s.locals, [s.scope] + s.depths);
      forall p: nat | p < |locals'|
        ensures AtPlace(locals', p) == if p == |s.locals| then d else AtPlace(s.locals, p)
        ensures AtPlace(depths', p) == if p == |s.locals| then s.scope else AtPlace(s.depths, p)
      {
        PlaceAfterPush(d, s.locals, p);
        PlaceAfterPush(s.scope, s.depths, p);
      }
      hide AtPlace;
    }
  }

  lemma UnscopeKept(s: State, v: Tok)
    requires Inv(s) && Legal(s, Unscope(v))
    ensures Inv(Do(s, Unscope(v)))
  {
    forall p: nat | p < |s.locals|
      ensures AtPlace(Fade(s.locals, v), p).v == AtPlace(s.locals, p).v
      ensures AtPlace(Fade(s.locals, v), p).scope in {0, AtPlace(s.locals, p).scope}
    {
      FadePlace(s.locals, v, p);
    }
    hide AtPlace, Fade;
  }

  /** The invariant of every run. */
  lemma InvKept(s: State, op: Op)
    requires Inv(s) && Legal(s, op)
    ensures Inv(Do(s, op))
  {
    match op
    case Begin =>
    case EndParams =>
    case Open => EnterKept(s, false);
    case Close => CloseKept(s);
    case Loop => EnterKept(s, true);
    case EndLoop => OutsideDeep(s.depths, s.depths, s.frames);
    case End =>
    case Declare(v) => DeclareKept(s, v);
    case Unscope(v) => UnscopeKept(s, v);
    case DeclareGlobal(v) =>
  }

  // ---------------------------------------------------------- redeclarations

  lemma {:induction false} LookupFinds(ds: seq<Decl>, v: Tok)
    ensures Lookup(ds, v).None? <==> forall d :: d in ds ==> d.v != v
    ensures Lookup(ds, v).Some? ==> Lookup(ds, v).value in ds && Lookup(ds, v).value.v == v
  {
    if ds != [] {
      LookupFinds(ds[1..], v);
      assert ds == [ds[0]] + ds[1..];
    }
  }

  lemma {:induction false} LookupAppend(a: seq<Decl>, b: seq<Decl>, v: Tok)
    ensures Lookup(a + b, v) == if Lookup(a, v).Some? then Lookup(a, v) else Lookup(b, v)
  {
    if a == [] {
      assert a + b == b;
    } else {
      assert (a + b)[1..] == a[1..] + b;
      LookupAppend(a[1..], b, v);
    }
  }

  /** The place of the newest declaration of v, or -1. */
  function Newest(ds: seq<Decl>, v: Tok): (p: int)
    ensures -1 <= p < |ds|
  {
    if ds == [] then -1 else if ds[0].v == v then |ds| - 1 else Newest(ds[1..], v)
  }

  lemma {:induction false} NewestIs(ds: seq<Decl>, v: Tok)
    ensures var p := Newest(ds, v);
            && Lookup(ds, v) == (if p == -1 then None else Some(AtPlace(ds, p)))
            && (p >= 0 ==> AtPlace(ds, p).v == v)
            && forall q: nat :: p < q < |ds| ==> AtPlace(ds, q).v != v
  {
    if ds != [] && ds[0].v != v {
      NewestIs(ds[1..], v);
      forall q: nat | q < |ds| ensures AtPlace(ds, q) == if q == |ds| - 1 then ds[0] else AtPlace(ds[1..], q) {
        assert ds == [ds[0]] + ds[1..];
        PlaceAfterPush(ds[0], ds[1..], q);
      }
    }
  }

  /** Where the locals of the current scope begin; parameters are in the scope of the body. */
  function ScopeStart(s: State): nat { if |s.frames| <= 1 then 0 else s.frames[0].start }

  /** The local at this place was declared in the scope that is now the innermost: since that
      was entered, and at its depth, not in a `while` inside it. */
  predicate IsHere(s: State, p: nat)
  {
    p < |s.depths| && ScopeStart(s) <= p && AtPlace(s.depths, p) == s.scope
  }

  predicate HereAs(s: State, p: nat, v: Tok) { IsHere(s, p) && p < |s.locals| && AtPlace(s.locals, p).v == v }

  /** What C means by a redeclaration: the token is declared in the current scope. */
  ghost predicate DeclaredHere(s: State, v: Tok)
  {
    if s.locals == [] then exists d :: d in s.globals && d.v == v else exists p: nat :: HereAs(s, p, v)
  }

  /** In a scope just entered nothing is declared, and what is declared in it is. */
  lemma HereFromStart(s: State, loop: bool, v: Tok)
    requires Inv(s) && s.frames != []
    ensures forall p: nat :: !IsHere(Entered(s, loop), p)
    ensures Legal(s, Declare(v)) && DeclaredHere(Do(s, Declare(v)), v)
    ensures forall p: nat :: p < |s.depths| ==> (IsHere(Do(s, Declare(v)), p) <==> IsHere(s, p))
  {
    var s' := Do(s, Declare(v));
    forall p: nat | p <= |s.locals|
      ensures AtPlace(s'.locals, p) == if p == |s.locals| then NewDecl(v, s.scope) else AtPlace(s.locals, p)
      ensures AtPlace(s'.depths, p) == if p == |s.locals| then s.scope else AtPlace(s.depths, p)
    {
      PlaceAfterPush(NewDecl(v, s.scope), s.locals, p);
      PlaceAfterPush(s.scope, s.depths, p);
    }
    assert HereAs(s', |s.locals|, v);
  }

  /** The newest symbol of v is declared here, but has lost its scope. */
  predicate Unmarked(s: State, v: Tok)
  {
    var p := Newest(s.locals, v);
    p >= 0 && IsHere(s, p) && AtPlace(s.locals, p).scope == 0
  }

  /** It is declared elsewhere, in a `while` that has ended, at the depth of the current scope. */
  predicate LeftBeside(s: State, v: Tok)
  {
    var p := Newest(s.locals, v);
    p >= 0 && !IsHere(s, p) && AtPlace(s.locals, p).scope == s.scope
  }

  /** It is declared elsewhere, at another depth, and hides one that is declared here. */
  ghost predicate LeftInside(s: State, v: Tok)
  {
    var p := Newest(s.locals, v);
    && p >= 0 && !IsHere(s, p) && AtPlace(s.locals, p).scope != s.scope
    && exists q: nat :: q < p && HereAs(s, q, v)
  }

  /** Main result, and a limit of looking at the newest symbol only: in every reachable state a
      declaration is refused exactly if the token is declared in the current scope, exactly
      unless the newest symbol of the token has lost its scope, or was left by a `while` that has
      ended, beside the current scope or inside it in front of one that is declared here. */
  lemma RedeclaresIff(s: State, v: Tok)
    requires Inv(s) && Legal(s, Declare(v)) && !v.field && v.id < 0x1000_0000
    ensures (Redeclares(s, v) <==> DeclaredHere(s, v)) <==> !Unmarked(s, v) && !LeftBeside(s, v) && !LeftInside(s, v)
    ensures Unmarked(s, v) || LeftInside(s, v) ==> DeclaredHere(s, v) && !Redeclares(s, v)
    ensures LeftBeside(s, v) ==> !DeclaredHere(s, v) && Redeclares(s, v) && Newest(s.locals, v) < ScopeStart(s)
    ensures LeftInside(s, v) ==> ScopeStart(s) <= Newest(s.locals, v) < |s.depths|
    ensures LeftInside(s, v) ==> s.scope < AtPlace(s.depths, Newest(s.locals, v))
  {
    LookupAppend(s.locals, s.globals, v);
    NewestIs(s.locals, v);
    var p := Newest(s.locals, v);
    if p == -1 {
      LookupFinds(s.globals, v);
    } else {
      assert Redeclares(s, v) <==> AtPlace(s.locals, p).scope == s.scope;
      NewestHere(s, v, p);
    }
  }

  lemma NewestHere(s: State, v: Tok, p: nat)
    requires Inv(s) && s.scope != 0 && p < |s.locals| && AtPlace(s.locals, p).v == v && Recorded(v)
    requires forall q: nat :: p < q < |s.locals| ==> AtPlace(s.locals, q).v != v
    ensures IsHere(s, p) ==> DeclaredHere(s, v) && AtPlace(s.locals, p).scope in {0, s.scope}
    ensures !IsHere(s, p) ==> (DeclaredHere(s, v) <==> exists q: nat :: q < p && HereAs(s, q, v))
    ensures !IsHere(s, p) && AtPlace(s.locals, p).scope == s.scope ==>
              p < ScopeStart(s) && forall q: nat :: !HereAs(s, q, v)
    ensures forall q: nat :: q < p && HereAs(s, q, v) && !IsHere(s, p) ==>
              ScopeStart(s) <= p && s.scope < AtPlace(s.depths, p)
  {
    hide AtPlace;
    if IsHere(s, p) { assert HereAs(s, p, v); }
    forall q: nat | HereAs(s, q, v) ensures q <= p { }
  }

  // -------------------------------------------------------------------- runs

  /** A run that stays within the `base` outermost scopes. */
  ghost predicate Runs(s: State, ops: seq<Op>, base: nat)
    decreases |ops|
  {
    base <= |s.frames| && (ops != [] ==> Legal(s, ops[0]) && Runs(Do(s, ops[0]), ops[1..], base))
  }

  ghost function After(s: State, ops: seq<Op>, base: nat): (s': State)
    requires Runs(s, ops, base)
    ensures base <= |s'.frames|
    decreases |ops|
  {
    if ops == [] then s else After(Do(s, ops[0]), ops[1..], base)
  }

  /** The global identifiers that a run pushes, newest first. */
  function Pushed(ops: seq<Op>): seq<Decl>
  {
    if ops == [] then []
    else Pushed(ops[1..]) + if ops[0].DeclareGlobal? then [Decl(ops[0].v, 0)] else []
  }

  lemma {:induction false} InvAfter(s: State, ops: seq<Op>, base: nat)
    requires Inv(s) && Runs(s, ops, base)
    ensures Inv(After(s, ops, base))
    decreases |ops|
  {
    hide Inv, Legal, Do;
    if ops != [] {
      InvKept(s, ops[0]);
      InvAfter(Do(s, ops[0]), ops[1..], base);
    }
  }

  ghost predicate Reached(s: State) { exists ops :: Runs(START, ops, 0) && After(START, ops, 0) == s }

  /** Main result: scopes nest and depths are right in every state that a run reaches. */
  lemma InvReached(s: State)
    requires Reached(s)
    ensures Inv(s)
  {
    var ops :| Runs(START, ops, 0) && After(START, ops, 0) == s;
    InvStart();
    InvAfter(START, ops, 0);
  }

  lemma {:induction false} RunOn(s: State, ops: seq<Op>, op: Op)
    requires Runs(s, ops, 0) && Legal(After(s, ops, 0), op)
    ensures Runs(s, ops + [op], 0) && After(s, ops + [op], 0) == Do(After(s, ops, 0), op)
    decreases |ops|
  {
    hide Legal, Do;
    if ops == [] {
      assert [] + [op] == [op] && [op][1..] == [];
    } else {
      assert (ops + [op])[1..] == ops[1..] + [op];
      RunOn(Do(s, ops[0]), ops[1..], op);
    }
  }

  lemma ReachedStart()
    ensures Reached(START)
  {
    assert Runs(START, [], 0) && After(START, [], 0) == START;
  }

  lemma ReachedNext(s: State, op: Op)
    requires Reached(s) && Legal(s, op)
    ensures Reached(Do(s, op))
  {
    hide Legal, Do;
    var ops :| Runs(START, ops, 0) && After(START, ops, 0) == s;
    RunOn(START, ops, op);
  }

  // ------------------------------------------------- inputs for each of the three

  const A := Tok(1, false, false)
  const TAG := Tok(FIRST_ANOM, true, false)

  /** The beginning of the body of a function. */
  const BODY := State([DUMMY], [], 1, [Frame(1, false)], [0])

  lemma BodyReached()
    ensures Reached(BODY)
  {
    ReachedStart();
    ReachedNext(START, Begin);
    var s1 := State([DUMMY], [], 1, [], [0]);
    assert Do(START, Begin) == s1;
    ReachedNext(s1, EndParams);
    var s2 := s1.(scope := 0);
    ReachedNext(s2, Open);
    assert Do(s2, Open) == BODY;
  }

  /** `while (0) (void)sizeof(enum { A });` leaves a tag without a name, and A. */
  ghost function AfterLoop(s: State): State
  {
    s.(locals := [Decl(A, s.scope + 1), Decl(TAG, 0)] + s.locals, depths := [s.scope + 1, s.scope + 1] + s.depths)
  }

  lemma LoopReached(s: State)
    requires Reached(s) && s.frames != []
    ensures Reached(AfterLoop(s))
  {
    InvReached(s);
    var s1 := Entered(s, true);
    ReachedNext(s, Loop);
    var s2 := s1.(locals := [Decl(TAG, 0)] + s.locals, depths := [s.scope + 1] + s.depths);
    ReachedNext(s1, Declare(TAG));
    assert Do(s1, Declare(TAG)) == s2;
    ReachedNext(s2, Declare(A));
    var s3 := Do(s2, Declare(A));
    assert [Decl(A, s.scope + 1)] + s2.locals == AfterLoop(s).locals;
    assert [s.scope + 1] + s2.depths == AfterLoop(s).depths;
    ReachedNext(s3, EndLoop);
    assert Do(s3, EndLoop) == AfterLoop(s);
  }

  /** `{ static int A; int A; }` is accepted. */
  lemma StaticCounterexample()
    ensures var s := BODY.(locals := [Decl(A, 0), DUMMY], depths := [1, 0]);
            Reached(s) && Legal(s, Declare(A)) && Unmarked(s, A) && DeclaredHere(s, A) && !Redeclares(s, A)
  {
    BodyReached();
    ReachedNext(BODY, Declare(A));
    var s1 := BODY.(locals := [Decl(A, 1), DUMMY], depths := [1, 0]);
    assert Do(BODY, Declare(A)) == s1;
    ReachedNext(s1, Unscope(A));
    var s := BODY.(locals := [Decl(A, 0), DUMMY], depths := [1, 0]);
    assert Do(s1, Unscope(A)) == s;
    InvReached(s);
    RedeclaresIff(s, A);
  }

  /** `{ int A; while (0) (void)sizeof(enum { A }); int A; }` is accepted. */
  lemma EnumInLoopCounterexample()
    ensures var s := AfterLoop(BODY.(locals := [Decl(A, 1), DUMMY], depths := [1, 0]));
            Reached(s) && Legal(s, Declare(A)) && LeftInside(s, A) && DeclaredHere(s, A) && !Redeclares(s, A)
  {
    BodyReached();
    ReachedNext(BODY, Declare(A));
    var s1 := BODY.(locals := [Decl(A, 1), DUMMY], depths := [1, 0]);
    assert Do(BODY, Declare(A)) == s1;
    LoopReached(s1);
    var s := AfterLoop(s1);
    assert s.locals == [Decl(A, 2), Decl(TAG, 0), Decl(A, 1), DUMMY] && s.depths == [2, 2, 1, 0];
    assert HereAs(s, 1, A);
    InvReached(s);
    RedeclaresIff(s, A);
  }

  /** `{ while (0) (void)sizeof(enum { A }); { int A; } }` is refused. */
  lemma EnumBesideCounterexample()
    ensures var s := Entered(AfterLoop(BODY), false);
            Reached(s) && Legal(s, Declare(A)) && LeftBeside(s, A) && !DeclaredHere(s, A) && Redeclares(s, A)
  {
    BodyReached();
    LoopReached(BODY);
    var s1 := AfterLoop(BODY);
    assert s1.locals == [Decl(A, 2), Decl(TAG, 0), DUMMY] && s1.depths == [2, 2, 0];
    ReachedNext(s1, Open);
    InvReached(Entered(s1, false));
    RedeclaresIff(Entered(s1, false), A);
  }

  // -------------------------------------------------------------------- scopes

  /** The same declarations, but that some have lost their scope in a run. */
  ghost predicate Faded(from: seq<Decl>, to: seq<Decl>, ops: seq<Op>)
  {
    && |to| == |from|
    && forall i :: 0 <= i < |from| ==>
         to[i] == from[i] || (to[i] == from[i].(scope := 0) && Unscope(from[i].v) in ops)
  }

  lemma {:induction false} FadeIs(ds: seq<Decl>, v: Tok)
    ensures Faded(ds, Fade(ds, v), [Unscope(v)])
  {
    if ds != [] && ds[0].v != v {
      FadeIs(ds[1..], v);
      forall i | 0 < i < |ds| ensures ds[i] == ds[1..][i - 1] && Fade(ds, v)[i] == Fade(ds[1..], v)[i - 1] { }
    }
  }

  lemma FadedSuffix(from: seq<Decl>, to: seq<Decl>, ops: seq<Op>, n: nat)
    requires Faded(from, to, ops) && n <= |from|
    ensures Faded(Suffix(from, n), Suffix(to, n), ops)
  {
  }

  lemma FadedOn(a: seq<Decl>, b: seq<Decl>, c: seq<Decl>, ops: seq<Op>)
    requires ops != [] && Faded(a, b, [ops[0]]) && Faded(b, c, ops[1..])
    ensures Faded(a, c, ops)
  {
    assert ops == [ops[0]] + ops[1..];
    forall i | 0 <= i < |a| ensures c[i] == a[i] || (c[i] == a[i].(scope := 0) && Unscope(a[i].v) in ops) {
      assert b[i].v == a[i].v;
    }
  }

  lemma {:induction false} FadedLookup(from: seq<Decl>, to: seq<Decl>, ops: seq<Op>, v: Tok)
    requires Faded(from, to, ops)
    ensures Lookup(to, v).Some? <==> Lookup(from, v).Some?
    ensures Unscope(v) !in ops ==> Lookup(to, v) == Lookup(from, v)
    decreases |from|
  {
    if from != [] {
      forall i | 0 <= i < |from| - 1 ensures from[1..][i] == from[i + 1] && to[1..][i] == to[i + 1] { }
      FadedLookup(from[1..], to[1..], ops, v);
    }
  }

  /** The k outermost scopes. */
  function Outer(frames: seq<Frame>, k: nat): seq<Frame>
    requires k <= |frames|
  {
    frames[|frames| - k..]
  }

  /** What was there before the k-th scope was entered. */
  ghost predicate Keeps(s: State, s': State, k: nat, ops: seq<Op>)
    requires 0 < k <= |s.frames| && k <= |s'.frames|
  {
    var n := Outer(s.frames, k)[0].start;
    && Outer(s'.frames, k) == Outer(s.frames, k)
    && n <= |s.locals| && n <= |s'.locals| && |s.depths| == |s.locals| && |s'.depths| == |s'.locals|
    && Suffix(s'.depths, n) == Suffix(s.depths, n)
    && Faded(Suffix(s.locals, n), Suffix(s'.locals, n), ops)
  }

  lemma SuffixPush<T>(d: T, ds: seq<T>, n: nat)
    requires n <= |ds|
    ensures Suffix([d] + ds, n) == Suffix(ds, n)
  {
  }

  lemma SuffixSuffix<T>(ds: seq<T>, n: nat, m: nat)
    requires m <= n <= |ds|
    ensures |Suffix(ds, n)| == n && Suffix(Suffix(ds, n), m) == Suffix(ds, m)
  {
  }

  lemma FadedSame(ds: seq<Decl>, ops: seq<Op>)
    ensures Faded(ds, ds, ops)
  {
  }

  lemma StepKeeps(s: State, op: Op, k: nat)
    requires Inv(s) && Legal(s, op) && 0 < k <= |s.frames| && k <= |Do(s, op).frames|
    ensures Keeps(s, Do(s, op), k, [op])
    ensures Do(s, op).globals == Pushed([op]) + s.globals
  {
    var (n, s') := (Outer(s.frames, k)[0].start, Do(s, op));
    assert s.locals != [] && n <= |s.locals| && |s.depths| == |s.locals|;
    assert [] + s.globals == s.globals;
    FadedSame(Suffix(s.locals, n), [op]);
    if op.Close? {
      assert Outer(s.frames[1..], k) == Outer(s.frames, k);
      assert n <= s.frames[0].start <= |s.locals|;
      hide Inv;
      SuffixSuffix(s.locals, s.frames[0].start, n);
      SuffixSuffix(s.depths, s.frames[0].start, n);
    } else if op.EndLoop? {
      hide Inv;
      assert Outer(s.frames[1..], k) == Outer(s.frames, k);
    } else if op.Declare? {
      hide Inv;
      SuffixPush(NewDecl(op.v, s.scope), s.locals, n);
      SuffixPush(s.scope, s.depths, n);
    } else if op.Unscope? {
      hide Inv;
      FadeIs(s.locals, op.v);
      FadedSuffix(s.locals, s'.locals, [op], n);
    } else if op.Open? || op.Loop? {
      hide Inv;
      assert Outer(s'.frames, k) == Outer(s.frames, k);
    }
  }

  lemma {:induction false} RunKeeps(s: State, ops: seq<Op>, k: nat)
    requires Inv(s) && 0 < k && Runs(s, ops, k)
    ensures Keeps(s, After(s, ops, k), k, ops)
    ensures After(s, ops, k).globals == Pushed(ops) + s.globals
    decreases |ops|
  {
    hide Inv, Do, Legal, Keeps;
    if ops == [] {
      KeepsItself(s, k);
    } else {
      InvKept(s, ops[0]);
      StepKeeps(s, ops[0], k);
      var s1 := Do(s, ops[0]);
      RunKeeps(s1, ops[1..], k);
      KeepsOn(s, s1, After(s1, ops[1..], k), k, ops);
      assert Pushed(ops) + s.globals == Pushed(ops[1..]) + (Pushed([ops[0]]) + s.globals);
    }
  }

  lemma KeepsItself(s: State, k: nat)
    requires Inv(s) && 0 < k <= |s.frames|
    ensures Keeps(s, s, k, []) && Pushed([]) + s.globals == s.globals
  {
    FadedSame(Suffix(s.locals, Outer(s.frames, k)[0].start), []);
  }

  lemma KeepsOn(s: State, s1: State, s2: State, k: nat, ops: seq<Op>)
    requires 0 < k <= |s.frames| && k <= |s1.frames| && k <= |s2.frames| && ops != []
    requires Keeps(s, s1, k, [ops[0]]) && Keeps(s1, s2, k, ops[1..])
    ensures Keeps(s, s2, k, ops)
  {
    hide Faded, Suffix;
    var n := Outer(s.frames, k)[0].start;
    FadedOn(Suffix(s.locals, n), Suffix(s1.locals, n), Suffix(s2.locals, n), ops);
  }

  /** A run inside a scope that was just entered, and back in it. */
  ghost predicate Inside(s: State, loop: bool, ops: seq<Op>)
  {
    && Runs(Entered(s, loop), ops, |s.frames| + 1)
    && |After(Entered(s, loop), ops, |s.frames| + 1).frames| == |s.frames| + 1
  }

  /** At the end of such a run the scopes are those at its start, and what was there still is. */
  lemma InsideKeeps(s: State, loop: bool, ops: seq<Op>)
    requires Inv(s) && Legal(s, if loop then Loop else Open) && Inside(s, loop, ops)
    ensures var s' := After(Entered(s, loop), ops, |s.frames| + 1);
            && Inv(s') && s'.frames == [Frame(|s.locals|, loop)] + s.frames
            && s'.globals == Pushed(ops) + s.globals
            && |s'.locals| == |s'.depths| >= |s.locals| == |s.depths|
            && Suffix(s'.depths, |s.locals|) == s.depths
            && Faded(s.locals, Suffix(s'.locals, |s.locals|), ops)
  {
    var k := |s.frames| + 1;
    var s1 := Entered(s, loop);
    InvKept(s, if loop then Loop else Open);
    RunKeeps(s1, ops, k);
    InvAfter(s1, ops, k);
    var s2 := After(s1, ops, k);
    assert Outer(s1.frames, k) == s1.frames && Outer(s2.frames, k) == s2.frames;
    assert Suffix(s.locals, |s.locals|) == s.locals && Suffix(s.depths, |s.depths|) == s.depths;
  }

  /** Main result: entering a block, any run that stays in it, and leaving it restore the locals,
      the scope and the view of every token, except that global identifiers pushed meanwhile are
      there and are what is seen of the tokens that have no local declaration, and that a local
      may have lost its scope. */
  lemma BlockRestores(s: State, ops: seq<Op>, v: Tok)
    requires Inv(s) && Legal(s, Open) && Inside(s, false, ops)
    ensures var s2 := After(Entered(s, false), ops, |s.frames| + 1);
            && Legal(s2, Close)
            && var s' := Do(s2, Close);
               && s' == s.(locals := s'.locals, globals := Pushed(ops) + s.globals)
               && Faded(s.locals, s'.locals, ops)
               && (Unscope(v) !in ops ==>
                     Visible(s', v) ==
                       if Lookup(s.locals, v).Some? || Lookup(Pushed(ops), v).None? then Visible(s, v)
                       else Lookup(Pushed(ops), v))
  {
    InsideKeeps(s, false, ops);
    var s2 := After(Entered(s, false), ops, |s.frames| + 1);
    var s' := Do(s2, Close);
    assert s'.frames == s.frames;
    hide Faded;
    FadedLookup(s.locals, s'.locals, ops, v);
    SeenBehind(s'.locals, s.locals, Pushed(ops), s.globals, v);
  }

  lemma SeenBehind(locals': seq<Decl>, locals: seq<Decl>, pushed: seq<Decl>, globals: seq<Decl>, v: Tok)
    ensures Lookup(locals', v) == Lookup(locals, v) ==>
              Lookup(locals' + (pushed + globals), v) ==
                if Lookup(locals, v).Some? || Lookup(pushed, v).None? then Lookup(locals + globals, v)
                else Lookup(pushed, v)
  {
    LookupAppend(locals', pushed + globals, v);
    LookupAppend(locals, globals, v);
    LookupAppend(pushed, globals, v);
  }

  /** Main result: the body of a `while` leaves its own declarations behind, all of them deeper
      than the scope around it; the view of a token is as after a block exactly if the body has
      left no declaration of it, and else the newest of those is seen. */
  lemma LoopLeaves(s: State, ops: seq<Op>, v: Tok)
    requires Inv(s) && Legal(s, Loop) && Inside(s, true, ops)
    ensures var s2 := After(Entered(s, true), ops, |s.frames| + 1);
            && Legal(s2, EndLoop) && |s.locals| <= |s2.locals| == |s2.depths|
            && var (s', left) := (Do(s2, EndLoop), |s2.locals| - |s.locals|);
               && s'.frames == s.frames && s'.scope == s.scope && s'.globals == Pushed(ops) + s.globals
               && s'.depths[left..] == s.depths && Faded(s.locals, s'.locals[left..], ops)
               && (forall i :: 0 <= i < left ==> s.scope < s'.depths[i])
               && (Lookup(s'.locals[..left], v).Some? ==> Visible(s', v) == Lookup(s'.locals[..left], v))
               && (Lookup(s'.locals[..left], v).None? && Unscope(v) !in ops ==>
                     Visible(s', v) ==
                       if Lookup(s.locals, v).Some? || Lookup(Pushed(ops), v).None? then Visible(s, v)
                       else Lookup(Pushed(ops), v))
  {
    InsideKeeps(s, true, ops);
    var s2 := After(Entered(s, true), ops, |s.frames| + 1);
    var (s', left) := (Do(s2, EndLoop), |s2.locals| - |s.locals|);
    assert s'.frames == s.frames;
    forall i | 0 <= i < left ensures s.scope < s2.depths[i] { LeftDeep(s2, |s2.depths| - 1 - i); }
    hide Faded, Inv;
    assert s'.locals == s'.locals[..left] + s'.locals[left..];
    LookupAppend(s'.locals[..left], s'.locals[left..], v);
    LookupAppend(s'.locals, s'.globals, v);
    LookupAppend(s'.locals[left..], s'.globals, v);
    FadedLookup(s.locals, s'.locals[left..], ops, v);
    SeenBehind(s'.locals[left..], s.locals, Pushed(ops), s.globals, v);
  }

  lemma LeftDeep(s: State, p: nat)
    requires Inv(s) && s.frames != [] && s.frames[0].start <= p < |s.depths|
    ensures s.scope <= s.depths[|s.depths| - 1 - p]
  {
    assert AtPlace(s.depths, p) == s.depths[|s.depths| - 1 - p];
  }

  // -------------------------------------------------------------- one step's view

  /** A declaration is what its token then means, and means nothing to the others. */
  lemma DeclareVisible(s: State, v: Tok, u: Tok)
    requires Inv(s) && Legal(s, Declare(v))
    ensures Visible(Do(s, Declare(v)), u) == if u == v then Some(NewDecl(v, s.scope)) else Visible(s, u)
  {
    LookupAppend(s.locals, s.globals, u);
    LookupAppend(Do(s, Declare(v)).locals, Do(s, Declare(v)).globals, u);
    var n := NewDecl(v, s.scope);
    assert ([n] + s.locals)[1..] == s.locals && ([n] + s.globals)[1..] == s.globals;
  }

  /** A symbol that loses its scope is still the one that is seen. */
  lemma UnscopeVisible(s: State, v: Tok, u: Tok)
    requires Inv(s) && Legal(s, Unscope(v))
    ensures Visible(Do(s, Unscope(v)), u) == if u == v then Some(Decl(v, 0)) else Visible(s, u)
  {
    FadeIs(s.locals, v);
    LookupAppend(s.locals, s.globals, u);
    LookupAppend(Fade(s.locals, v), s.globals, u);
    LookupFinds(s.globals, v);
    FadeLookup(s.locals, v, u);
  }

  lemma {:induction false} FadeLookup(ds: seq<Decl>, v: Tok, u: Tok)
    ensures Lookup(Fade(ds, v), u) == if u == v && Lookup(ds, v).Some? then Some(Decl(v, 0)) else Lookup(ds, u)
  {
    if ds != [] {
      FadeLookup(ds[1..], v, u);
      assert ([ds[0]] + Fade(ds[1..], v))[1..] == Fade(ds[1..], v);
      assert ([ds[0].(scope := 0)] + ds[1..])[1..] == ds[1..];
    }
  }

  /** A global identifier does not hide the locals. */
  lemma DeclareGlobalVisible(s: State, v: Tok, u: Tok)
    requires Legal(s, DeclareGlobal(v))
    ensures Visible(Do(s, DeclareGlobal(v)), u) ==
              if u == v && Lookup(s.locals, u).None? then Some(Decl(v, 0)) else Visible(s, u)
  {
    LookupAppend(s.locals, s.globals, u);
    LookupAppend(s.locals, [Decl(v, 0)] + s.globals, u);
    assert ([Decl(v, 0)] + s.globals)[1..] == s.globals;
  }
}
