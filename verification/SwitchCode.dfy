/** The code generator for a switch: what it emits runs as the decision tree says. */
module SwitchCode {
  import opened Basics
  import opened JumpCode
  import opened SwitchLowering

  /** The switch value is in register 0. */
  function Against(k: Kind, v: int): Instr { Compare(Reg(0), Imm(Pattern(k, v)), Wide(k)) }

  lemma TestMeaning(k: Kind, u: int, v: int)
    requires InKind(k, u)
    ensures var f := Flags(u, Pattern(k, v), Wide(k));
            && (Holds(LessEq(k), f) <==> Number(k, u) <= Constant(k, v))
            && (Holds(GreaterEq(k), f) <==> Number(k, u) >= Constant(k, v))
            && (Holds(EQ, f) <==> Number(k, u) == Constant(k, v))
            && (Holds(Negate(LessEq(k)), f) <==> !Holds(LessEq(k), f))
  {
  }

  /** A run that found range r ends at its address; one that found none ends at the default, or
      on the chain of jumps out of the switch, or falls through to where those are emitted. */
  predicate Agrees(o: End, cs: seq<Case>, r: int, def: Option<int>)
    requires -1 <= r < |cs|
  {
    if r >= 0 then o == Exit(cs[r].addr) else o.Fell? || Defaults(o, def)
  }

  predicate Defaults(o: End, def: Option<int>)
  {
    match def case Some(d) => o == Exit(d) case None => o.Pending?
  }

  /** From `start` on the code decides as the tree for cs does. */
  ghost predicate Decides(code: seq<Instr>, start: nat, k: Kind, cs: seq<Case>, def: Option<int>)
  {
    forall u, f :: InKind(k, u) ==>
      var o := Run(code, start, f, [u]);
      Agrees(o.end, cs, Search(k, cs, Number(k, u)), def) && o.tests <= MaxTests(|cs|)
  }

  // --------------------------------------------- the values, written out

  /** A run for the value x goes to the code of every range that holds x, and does `otherwise` if
      no range does. */
  predicate Chooses(o: End, cs: seq<Case>, x: int, otherwise: bool)
  {
    && (forall r :: 0 <= r < |cs| && cs[r].v1 <= x <= cs[r].v2 ==> o == Exit(cs[r].addr))
    && ((forall r :: 0 <= r < |cs| ==> !(cs[r].v1 <= x <= cs[r].v2)) ==> otherwise)
  }

  /** Of the `size` patterns the upper ones, from `half` on, stand for negative numbers. */
  function Signed(u: int, half: int, size: int): int { if u < half then u else u - size }

  /** Sorted, non-empty ranges of constants of such a type. */
  ghost predicate Fitting(cs: seq<Case>, half: int, size: int)
  {
    && (forall i :: 0 <= i < |cs| ==> half - size <= cs[i].v1 <= cs[i].v2 < half)
    && (forall i, j :: 0 <= i < j < |cs| ==> cs[i].v2 < cs[j].v1)
  }

  /** A lookup without the jump to the default: each pattern goes to the range that holds its
      value, and without one to the default or on. */
  ghost predicate LooksUp(code: seq<Instr>, start: nat, cs: seq<Case>, def: Option<int>, half: int, size: int)
  {
    forall u, f :: 0 <= u < size ==>
      var o := Run(code, start, f, [u]).end;
      Chooses(o, cs, Signed(u, half, size), o.Fell? || Defaults(o, def))
  }

  /** A whole switch: each pattern goes to the range that holds its value, and without one to the
      default or past the switch. */
  ghost predicate Selects(code: seq<Instr>, start: nat, cs: seq<Case>, def: Option<int>, half: int, size: int)
  {
    forall u, f :: 0 <= u < size ==>
      var o := Run(code, start, f, [u]).end;
      Chooses(o, cs, Signed(u, half, size), match def case Some(d) => o == Exit(d) case None => o.Fell?)
  }

  /** The patterns and numbers of the three types. */
  predicate TypeIs(k: Kind, half: int, size: int)
  {
    match k
    case Int64 => half == 0x8000_0000_0000_0000 && size == 0x1_0000_0000_0000_0000
    case Int32 => half == 0x8000_0000 && size == 0x1_0000_0000
    case UInt32 => half == 0x1_0000_0000 && size == 0x1_0000_0000
  }

  lemma ValuesWritten(k: Kind, half: int, size: int, n: int)
    requires TypeIs(k, half, size)
    ensures InKind(k, n) <==> 0 <= n < size
    ensures 0 <= n < size ==> Number(k, n) == Signed(n, half, size)
    ensures half - size <= n < half ==> Constant(k, n) == n
  {
  }

  /** For constants that fit, the range found is the one that holds the value. */
  lemma FoundHolds(k: Kind, half: int, size: int, cs: seq<Case>, u: int)
    requires TypeIs(k, half, size) && Fitting(cs, half, size) && 0 <= u < size
    ensures var (r, x) := (Search(k, cs, Number(k, u)), Signed(u, half, size));
            forall i :: 0 <= i < |cs| ==> (cs[i].v1 <= x <= cs[i].v2 <==> i == r)
  {
    hide Search, Linear, Number, Constant, Signed;
    var x := Signed(u, half, size);
    ValuesWritten(k, half, size, u);
    forall i | 0 <= i < |cs| ensures Constant(k, cs[i].v1) == cs[i].v1 && Constant(k, cs[i].v2) == cs[i].v2 {
      ValuesWritten(k, half, size, cs[i].v1);
      ValuesWritten(k, half, size, cs[i].v2);
    }
    RepresentableFinds(k, cs, x);
    RepresentableSeparate(k, cs);
    LinearIsFirst(k, cs, x);
    forall i: nat | i < |cs| && cs[i].v1 <= x <= cs[i].v2 ensures i == Linear(k, cs, x) {
      HitIsLinear(k, cs, x, i);
    }
  }

  lemma LooksUpValues(code: seq<Instr>, start: nat, k: Kind, cs: seq<Case>, def: Option<int>, half: int, size: int)
    requires Decides(code, start, k, cs, def) && TypeIs(k, half, size) && Fitting(cs, half, size)
    ensures LooksUp(code, start, cs, def, half, size)
  {
    hide Run, Search, Number, Signed, Fitting, MaxTests;
    forall u, f | 0 <= u < size
      ensures var o := Run(code, start, f, [u]).end;
              Chooses(o, cs, Signed(u, half, size), o.Fell? || Defaults(o, def))
    {
      ValuesWritten(k, half, size, u);
      FoundHolds(k, half, size, cs, u);
    }
  }

  /** New jumps that are still on a chain are all on the chain of jumps out of the switch. */
  ghost predicate OnlyBreaks(was: seq<Instr>, code: seq<Instr>, b: nat, b': nat)
  {
    && |was| <= |code| && code[..|was|] == was
    && ChainOk(was, b) && ChainOk(code, b')
    && OnChain(code, b') == OnChain(was, b) + set i | |was| <= i < |code| && IsChained(code[i])
  }

  lemma OnlyBreaksStart(code: seq<Instr>, b: nat)
    requires ChainOk(code, b)
    ensures OnlyBreaks(code, code, b, b)
  {
  }

  lemma OnlyBreaksTransitive(c0: seq<Instr>, c1: seq<Instr>, c2: seq<Instr>, b0: nat, b1: nat, b2: nat)
    requires OnlyBreaks(c0, c1, b0, b1) && OnlyBreaks(c1, c2, b1, b2)
    ensures OnlyBreaks(c0, c2, b0, b2)
  {
    assert c2[..|c0|] == c1[..|c0|];
    forall i | |c0| <= i < |c1| ensures c2[i] == c1[i] { assert c2[..|c1|][i] == c1[i]; }
    assert OnChain(c2, b2) == OnChain(c0, b0) + set i | |c0| <= i < |c2| && IsChained(c2[i]);
  }

  /** Instructions that are on no chain leave the chains alone. */
  lemma AppendedUnchained(was: seq<Instr>, more: seq<Instr>, b: nat)
    requires ChainOk(was, b) && forall i :: 0 <= i < |more| ==> !IsChained(more[i])
    ensures OnlyBreaks(was, was + more, b, b)
  {
    ChainFrame(was, was + more, b);
  }

  lemma AppendedBreak(was: seq<Instr>, b: nat)
    requires ChainOk(was, b) && b <= |was|
    ensures OnlyBreaks(was, was + [Jump(Chained(b))], b, |was| + 1)
  {
    var code := was + [Jump(Chained(b))];
    ChainFrame(was, code, b);
    assert OnChain(code, |code|) == {|was|} + OnChain(code, b);
  }

  // -------------------------------------------------------------- linear scan

  /** The code for one range: one test if it is a single value, else two. */
  function ScanCode(k: Kind, c: Case, n: nat): seq<Instr>
  {
    if c.v1 == c.v2 then [Against(k, c.v2), JumpIf(EQ, Label(c.addr))]
    else [Against(k, c.v2), JumpIf(Negate(LessEq(k)), At(n + 4)), Against(k, c.v1), JumpIf(GreaterEq(k), Label(c.addr))]
  }

  lemma ScanMeaning(code: seq<Instr>, k: Kind, c: Case, u: int, f: Flags)
    requires InKind(k, u)
    ensures var o := Run(code + ScanCode(k, c, |code|), |code|, f, [u]);
            && o.tests <= 2
            && if Hit(k, c, Number(k, u)) then o.end == Exit(c.addr) else o.end.Fell?
  {
    hide Run, Holds, Constant, Number, Pattern;
    var n, all, env := |code|, code + ScanCode(k, c, |code|), [u];
    TestMeaning(k, u, c.v1);
    TestMeaning(k, u, c.v2);
    var (f1, f2) := (Flags(u, Pattern(k, c.v2), Wide(k)), Flags(u, Pattern(k, c.v1), Wide(k)));
    RunStep(all, n, f, env);
    RunStep(all, n + 1, f1, env);
    RunStep(all, n + 2, f1, env);
    RunStep(all, n + 3, f2, env);
    RunStep(all, n + 4, f2, env);
    RunStep(all, n + 4, f1, env);
  }

  method Scan(e: Emitter, k: Kind, c: Case)
    modifies e
    ensures e.code == old(e.code) + ScanCode(k, c, |old(e.code)|)
  {
    e.Compares(Reg(0), Imm(Pattern(k, c.v2)), Wide(k));
    if c.v1 == c.v2 {
      e.GTstAddr(EQ, c.addr);
    } else {
      var chain := e.GTst(LessEq(k), true, 0);
      e.Compares(Reg(0), Imm(Pattern(k, c.v1)), Wide(k));
      e.GTstAddr(GreaterEq(k), c.addr);
      assert OnChain(e.code, 0) == {} && OnChain(e.code, chain) == {chain - 1};
      e.GSym(chain);
      assert e.code == old(e.code) + ScanCode(k, c, |old(e.code)|);
    }
  }

  lemma {:induction false} LinearAppend(k: Kind, cs: seq<Case>, c: Case, x: int)
    ensures Linear(k, cs + [c], x) ==
              if Linear(k, cs, x) >= 0 then Linear(k, cs, x) else if Hit(k, c, x) then |cs| else -1
  {
    hide Hit;
    if cs == [] {
      assert cs + [c] == [c] && [c][1..] == [];
    } else {
      assert (cs + [c])[1..] == cs[1..] + [c];
      LinearAppend(k, cs[1..], c, x);
    }
  }

  /** The code decides a list by a linear scan that falls through when nothing is hit. */
  ghost predicate Scans(code: seq<Instr>, start: nat, k: Kind, cs: seq<Case>)
  {
    forall u, f :: InKind(k, u) ==>
      var (o, r) := (Run(code, start, f, [u]), Linear(k, cs, Number(k, u)));
      o.tests <= 2 * |cs| && if r >= 0 then o.end == Exit(cs[r].addr) else o.end.Fell?
  }

  lemma ScansMore(code: seq<Instr>, start: nat, k: Kind, cs: seq<Case>, c: Case)
    requires Scans(code, start, k, cs) && start <= |code|
    ensures Scans(code + ScanCode(k, c, |code|), start, k, cs + [c])
  {
    hide Run, Hit, Number, Linear, ScanCode;
    var more := ScanCode(k, c, |code|);
    forall u, f | InKind(k, u)
      ensures var (o, r) := (Run(code + more, start, f, [u]), Linear(k, cs + [c], Number(k, u)));
              o.tests <= 2 * |cs + [c]| && if r >= 0 then o.end == Exit((cs + [c])[r].addr) else o.end.Fell?
    {
      var o := Run(code, start, f, [u]);
      RunAppend(code, more, start, f, [u]);
      LinearAppend(k, cs, c, Number(k, u));
      if o.end.Fell? { ScanMeaning(code, k, c, u, o.end.flags); }
    }
  }

  lemma ScanUnchained(k: Kind, c: Case, n: nat)
    ensures forall i :: 0 <= i < |ScanCode(k, c, n)| ==> !IsChained(ScanCode(k, c, n)[i])
  {
  }

  method ScanAll(e: Emitter, k: Kind, cs: seq<Case>, ghost b: nat)
    requires ChainOk(e.code, b)
    modifies e
    ensures OnlyBreaks(old(e.code), e.code, b, b) && Scans(e.code, |old(e.code)|, k, cs)
  {
    hide Scans, OnlyBreaks, ScanCode;
    ghost var start := |e.code|;
    OnlyBreaksStart(e.code, b);
    ScansNothing(e.code, k);
    BreaksFacts(e.code, e.code, b, b);
    var i := 0;
    while i < |cs|
      invariant 0 <= i <= |cs| && start <= |e.code|
      invariant OnlyBreaks(old(e.code), e.code, b, b) && Scans(e.code, start, k, cs[..i])
    {
      ghost var was := e.code;
      BreaksFacts(old(e.code), was, b, b);
      Scan(e, k, cs[i]);
      ScanUnchained(k, cs[i], |was|);
      AppendedUnchained(was, ScanCode(k, cs[i], |was|), b);
      OnlyBreaksTransitive(old(e.code), was, e.code, b, b, b);
      ScansMore(was, start, k, cs[..i], cs[i]);
      assert cs[..i + 1] == cs[..i] + [cs[i]];
      i := i + 1;
    }
    assert cs[..i] == cs;
  }

  lemma BreaksFacts(was: seq<Instr>, code: seq<Instr>, b: nat, b': nat)
    requires OnlyBreaks(was, code, b, b')
    ensures |was| <= |code| && code[..|was|] == was && ChainOk(code, b') && b' <= |code| && ChainOk(was, b)
    ensures b <= |was|
  {
  }

  lemma ScansNothing(code: seq<Instr>, k: Kind)
    ensures Scans(code, |code|, k, [])
  {
  }

  // -------------------------------------------------------------- binary step

  /** The code decides for values up to the end of the middle range and falls through, after
      one test, for greater ones. */
  ghost predicate DecidesLow(code: seq<Instr>, start: nat, k: Kind, cs: seq<Case>, def: Option<int>)
    requires |cs| > 4
  {
    forall u, f :: InKind(k, u) ==>
      var (o, x, mid) := (Run(code, start, f, [u]), Number(k, u), |cs| / 2);
      if x > Constant(k, cs[mid].v2) then o.end.Fell? && o.tests == 1
      else !o.end.Fell? && Agrees(o.end, cs, Search(k, cs, x), def) && o.tests <= 2 + MaxTests(mid)
  }

  /** The head of a binary step: the middle range, with the jump past the left half patched. */
  function StepHead(k: Kind, c: Case, past: nat): seq<Instr>
  {
    [Against(k, c.v2), JumpIf(Negate(LessEq(k)), At(past)), Against(k, c.v1), JumpIf(GreaterEq(k), Label(c.addr))]
  }

  function DefaultJump(def: Option<int>, b: nat): Instr
  {
    Jump(match def case Some(d) => Label(d) case None => Chained(b))
  }

  /** A head, the code of the left half (which decides it) and the default jump make a step. */
  lemma StepMeaning(c5: seq<Instr>, c7: seq<Instr>, n: nat, k: Kind, cs: seq<Case>, def: Option<int>, b: nat)
    requires |cs| > 4 && n + 4 <= |c5| && Decides(c5, n + 4, k, cs[..|cs| / 2], def)
    requires |c7| == |c5| + 1 && c7[n..n + 4] == StepHead(k, cs[|cs| / 2], |c7|)
    requires c7[n + 4..] == c5[n + 4..] + [DefaultJump(def, b)]
    ensures DecidesLow(c7, n, k, cs, def)
  {
    hide Run, Holds, Constant, Number, Pattern, MaxTests, Search, Decides;
    var mid := |cs| / 2;
    forall u, f | InKind(k, u)
      ensures var (o, x) := (Run(c7, n, f, [u]), Number(k, u));
              if x > Constant(k, cs[mid].v2) then o.end.Fell? && o.tests == 1
              else !o.end.Fell? && Agrees(o.end, cs, Search(k, cs, x), def) && o.tests <= 2 + MaxTests(mid)
    {
      HeadRun(c7, n, k, cs[mid], u, f);
      SearchUnfolds(k, cs, Number(k, u));
      var g := Flags(u, Pattern(k, cs[mid].v1), Wide(k));
      LeftRun(c5, c7, n, k, cs[..mid], def, b, u, g);
    }
  }

  lemma HeadRun(code: seq<Instr>, n: nat, k: Kind, c: Case, u: int, f: Flags)
    requires InKind(k, u) && n + 4 <= |code| && code[n..n + 4] == StepHead(k, c, |code|)
    ensures var (o, x) := (Run(code, n, f, [u]), Number(k, u));
            if x > Constant(k, c.v2) then o.end.Fell? && o.tests == 1
            else if x >= Constant(k, c.v1) then o == Outcome(Exit(c.addr), 2)
            else o == More(Run(code, n + 4, Flags(u, Pattern(k, c.v1), Wide(k)), [u]), 2)
  {
    hide Run, Holds, Constant, Number, Pattern;
    var env := [u];
    var head := StepHead(k, c, |code|);
    var part := code[n..n + 4];
    assert part[0] == code[n] && part[1] == code[n + 1] && part[2] == code[n + 2] && part[3] == code[n + 3];
    TestMeaning(k, u, c.v1);
    TestMeaning(k, u, c.v2);
    var (f1, f2) := (Flags(u, Pattern(k, c.v2), Wide(k)), Flags(u, Pattern(k, c.v1), Wide(k)));
    RunStep(code, n, f, env);
    RunStep(code, n + 1, f1, env);
    RunStep(code, n + 2, f1, env);
    RunStep(code, n + 3, f2, env);
    RunStep(code, |code|, f1, env);
  }

  lemma LeftRun(c5: seq<Instr>, c7: seq<Instr>, n: nat, k: Kind, left: seq<Case>, def: Option<int>, b: nat, u: int,
        g: Flags)
    requires n + 4 <= |c5| && Decides(c5, n + 4, k, left, def) && InKind(k, u)
    requires |c7| == |c5| + 1 && c7[n + 4..] == c5[n + 4..] + [DefaultJump(def, b)]
    ensures var (o, r) := (Run(c7, n + 4, g, [u]), Search(k, left, Number(k, u)));
            && !o.end.Fell? && o.tests <= MaxTests(|left|)
            && if r >= 0 then o.end == Exit(left[r].addr) else Defaults(o.end, def)
  {
    hide Run, Number, Search, MaxTests;
    var c6 := c5 + [DefaultJump(def, b)];
    assert c6[n + 4..] == c7[n + 4..];
    RunSuffix(c7, c6, n + 4, g, [u]);
    var o := Run(c5, n + 4, g, [u]);
    RunAppend(c5, [DefaultJump(def, b)], n + 4, g, [u]);
    if o.end.Fell? { RunStep(c6, |c5|, o.end.flags, [u]); }
  }

  method DefaultOut(e: Emitter, def: Option<int>, b: nat) returns (b': nat)
    requires ChainOk(e.code, b) && b <= |e.code|
    modifies e
    ensures e.code == old(e.code) + [DefaultJump(def, b)]
    ensures OnlyBreaks(old(e.code), e.code, b, b')
  {
    match def {
      case Some(d) =>
        e.GJmpAddr(d);
        b' := b;
        AppendedUnchained(old(e.code), [DefaultJump(def, b)], b);
      case None =>
        b' := e.GJmp(b);
        AppendedBreak(old(e.code), b);
    }
  }

  /** One binary step: tests against the middle range, the left half, the default. */
  method Pivot(e: Emitter, k: Kind, cs: seq<Case>, def: Option<int>, b: nat) returns (b': nat)
    requires |cs| > 4 && ChainOk(e.code, b) && b <= |e.code|
    modifies e
    ensures OnlyBreaks(old(e.code), e.code, b, b') && DecidesLow(e.code, |old(e.code)|, k, cs, def)
    decreases |cs|, 0
  {
    hide Decides, DecidesLow, OnlyBreaks, ChainOk, OnChain, MaxTests, Search;
    var c := cs[|cs| / 2];
    ghost var n := |e.code|;
    e.Compares(Reg(0), Imm(Pattern(k, c.v2)), Wide(k));
    var past := e.GTst(LessEq(k), true, 0);
    e.Compares(Reg(0), Imm(Pattern(k, c.v1)), Wide(k));
    e.GTstAddr(GreaterEq(k), c.addr);
    ghost var c4 := e.code;
    assert c4 == old(e.code) + OpenHead(k, c);
    HeadChain(old(e.code), k, c, b);
    b' := GCase(e, k, cs[..|cs| / 2], def, b);
    ghost var c5, b5 := e.code, b';
    BreaksFacts(c4, c5, b, b5);
    b' := DefaultOut(e, def, b');
    ghost var c6 := e.code;
    BreaksFacts(c5, c6, b5, b');
    PastChain(c4, c6, n, k, c, past);
    e.GSym(past);
    OnlyBreaksTransitive(c4, c5, c6, b, b5, b');
    Patched(old(e.code), c4, c6, e.code, n, k, c, b, b');
    assert e.code[n + 4..] == c5[n + 4..] + [DefaultJump(def, b5)];
    StepMeaning(c5, e.code, n, k, cs, def, b5);
  }

  /** The head while its jump past the left half is still on its own chain. */
  function OpenHead(k: Kind, c: Case): seq<Instr> { StepHead(k, c, 0)[1 := JumpIf(Negate(LessEq(k)), Chained(0))] }

  lemma HeadChain(was: seq<Instr>, k: Kind, c: Case, b: nat)
    requires ChainOk(was, b) && b <= |was|
    ensures ChainOk(was + OpenHead(k, c), b) && OnChain(was + OpenHead(k, c), b) == OnChain(was, b)
  {
    ChainFrame(was, was + OpenHead(k, c), b);
  }

  lemma PastChain(c4: seq<Instr>, c6: seq<Instr>, n: nat, k: Kind, c: Case, past: nat)
    requires n + 4 == |c4| <= |c6| && c6[..|c4|] == c4 && c4[n..] == OpenHead(k, c) && past == n + 2
    ensures ChainOk(c6, past) && OnChain(c6, past) == {n + 1}
  {
    assert c6[n + 1] == c4[n + 1] == c4[n..][1];
    assert OnChain(c6, 0) == {};
  }

  /** Patching the jump past the left half completes the head and leaves the chain of jumps out
      of the switch alone. */
  lemma Patched(c0: seq<Instr>, c4: seq<Instr>, c6: seq<Instr>, c7: seq<Instr>, n: nat, k: Kind, c: Case, b: nat,
        b': nat)
    requires |c0| == n && c4 == c0 + OpenHead(k, c) && ChainOk(c0, b) && b <= n
    requires OnlyBreaks(c4, c6, b, b') && |c7| == |c6|
    requires forall i :: 0 <= i < |c6| ==> c7[i] == if i == n + 1 then Retargeted(c6[i], |c6|) else c6[i]
    ensures OnlyBreaks(c0, c7, b, b') && c7[n..n + 4] == StepHead(k, c, |c7|)
    ensures c7[n + 4..] == c6[n + 4..]
  {
    hide ChainOk, OnChain;
    BreaksFacts(c4, c6, b, b');
    HeadChain(c0, k, c, b);
    assert forall i :: 0 <= i < n + 4 ==> c6[i] == c6[..|c4|][i] == c4[i];
    ChainFrame(c6, c7, b');
    assert c7[..n] == c0;
    assert OnChain(c7, b') == OnChain(c0, b) + set i | n <= i < |c7| && IsChained(c7[i]);
  }

  // ------------------------------------------------------------- the whole tree

  /** After some steps: either the run has ended as it should, or it has fallen through and the
      rest of the list decides. */
  ghost predicate Partly(code: seq<Instr>, start: nat, k: Kind, cs: seq<Case>, off: nat, def: Option<int>)
    requires off <= |cs|
  {
    forall u, f :: InKind(k, u) ==>
      var (o, x) := (Run(code, start, f, [u]), Number(k, u));
      if o.end.Fell? then
        Search(k, cs, x) == Shifted(Search(k, cs[off..], x), off) && o.tests + MaxTests(|cs| - off) <= MaxTests(|cs|)
      else Agrees(o.end, cs, Search(k, cs, x), def) && o.tests <= MaxTests(|cs|)
  }

  lemma PartlyStep(c0: seq<Instr>, c1: seq<Instr>, start: nat, k: Kind, cs: seq<Case>, off: nat, def: Option<int>)
    requires off <= |cs| && |cs| - off > 4 && start <= |c0| <= |c1| && c1[..|c0|] == c0
    requires Partly(c0, start, k, cs, off, def) && DecidesLow(c1, |c0|, k, cs[off..], def)
    ensures Partly(c1, start, k, cs, off + (|cs| - off) / 2 + 1, def)
  {
    hide Run, Search, Number, Constant, MaxTests;
    var rem, mid := cs[off..], (|cs| - off) / 2;
    var off' := off + mid + 1;
    forall u, f | InKind(k, u)
      ensures var (o, x) := (Run(c1, start, f, [u]), Number(k, u));
              if o.end.Fell? then
                Search(k, cs, x) == Shifted(Search(k, cs[off'..], x), off')
                  && o.tests + MaxTests(|cs| - off') <= MaxTests(|cs|)
              else Agrees(o.end, cs, Search(k, cs, x), def) && o.tests <= MaxTests(|cs|)
    {
      var o := Run(c0, start, f, [u]);
      assert c1 == c0 + c1[|c0|..];
      RunAppend(c0, c1[|c0|..], start, f, [u]);
      SearchUnfolds(k, rem, Number(k, u));
      assert rem[mid + 1..] == cs[off'..];
      TestsUnfold(|rem|);
      if o.end.Fell? {
        var o2 := Run(c1, |c0|, o.end.flags, [u]);
        assert Search(k, rem, Number(k, u)) >= 0 ==>
                 rem[Search(k, rem, Number(k, u))] == cs[off + Search(k, rem, Number(k, u))];
      }
    }
  }

  lemma TestsUnfold(n: nat)
    requires n > 4
    ensures 2 + MaxTests(n / 2) <= MaxTests(n) && 1 + MaxTests(n - n / 2 - 1) <= MaxTests(n)
  {
  }

  lemma PartlyScan(c0: seq<Instr>, c1: seq<Instr>, start: nat, k: Kind, cs: seq<Case>, off: nat, def: Option<int>)
    requires off <= |cs| && |cs| - off <= 4 && start <= |c0| <= |c1| && c1[..|c0|] == c0
    requires Partly(c0, start, k, cs, off, def) && Scans(c1, |c0|, k, cs[off..])
    ensures Decides(c1, start, k, cs, def)
  {
    hide Run, Number, Constant, Linear;
    var rem := cs[off..];
    forall u, f | InKind(k, u)
      ensures var o := Run(c1, start, f, [u]);
              Agrees(o.end, cs, Search(k, cs, Number(k, u)), def) && o.tests <= MaxTests(|cs|)
    {
      var o := Run(c0, start, f, [u]);
      assert c1 == c0 + c1[|c0|..];
      RunAppend(c0, c1[|c0|..], start, f, [u]);
      SmallSearch(k, rem, Number(k, u));
      assert Linear(k, rem, Number(k, u)) >= 0 ==>
               rem[Linear(k, rem, Number(k, u))] == cs[off + Linear(k, rem, Number(k, u))];
    }
  }

  lemma SmallSearch(k: Kind, cs: seq<Case>, x: int)
    requires |cs| <= 4
    ensures Search(k, cs, x) == Linear(k, cs, x) && MaxTests(|cs|) == 2 * |cs|
  {
  }

  lemma NothingYet(code: seq<Instr>, k: Kind, cs: seq<Case>, def: Option<int>)
    ensures Partly(code, |code|, k, cs, 0, def)
  {
    assert cs[0..] == cs;
  }

  /** Emits the decision tree for a sorted list of case ranges. */
  method GCase(e: Emitter, k: Kind, cs: seq<Case>, def: Option<int>, b: nat) returns (b': nat)
    requires ChainOk(e.code, b) && b <= |e.code|
    modifies e
    ensures OnlyBreaks(old(e.code), e.code, b, b') && Decides(e.code, |old(e.code)|, k, cs, def)
    ensures forall half, size :: TypeIs(k, half, size) && Fitting(cs, half, size) ==>
              LooksUp(e.code, |old(e.code)|, cs, def, half, size)
    decreases |cs|, 1
  {
    hide Decides, LooksUp, Fitting, DecidesLow, OnlyBreaks, ChainOk, OnChain, MaxTests, Search, Partly, Scans;
    ghost var start := |e.code|;
    var rem, off := cs, 0;
    b' := b;
    OnlyBreaksStart(e.code, b);
    NothingYet(e.code, k, cs, def);
    BreaksFacts(e.code, e.code, b, b);
    while |rem| > 4
      invariant off <= |cs| && rem == cs[off..] && start <= |e.code|
      invariant OnlyBreaks(old(e.code), e.code, b, b')
      invariant Partly(e.code, start, k, cs, off, def)
      decreases |rem|
    {
      ghost var c0, b0 := e.code, b';
      BreaksFacts(old(e.code), c0, b, b0);
      b' := Pivot(e, k, rem, def, b');
      BreaksFacts(c0, e.code, b0, b');
      OnlyBreaksTransitive(old(e.code), c0, e.code, b, b0, b');
      PartlyStep(c0, e.code, start, k, cs, off, def);
      var step := |rem| / 2 + 1;
      rem, off := rem[step..], off + step;
    }
    ghost var c0 := e.code;
    BreaksFacts(old(e.code), c0, b, b');
    ScanAll(e, k, rem, b');
    BreaksFacts(c0, e.code, b', b');
    OnlyBreaksTransitive(old(e.code), c0, e.code, b, b', b');
    PartlyScan(c0, e.code, start, k, cs, off, def);
    forall half, size | TypeIs(k, half, size) && Fitting(cs, half, size)
      ensures LooksUp(e.code, start, cs, def, half, size)
    {
      LooksUpValues(e.code, start, k, cs, def, half, size);
    }
  }

  // ------------------------------------------------------------ the statement

  /** Letting the jumps out of the switch go to the end turns them into falling through. */
  lemma {:induction false} RunPatched(c1: seq<Instr>, c2: seq<Instr>, pc: nat, f: Flags, env: seq<int>)
    requires |c1| == |c2| && pc <= |c1|
    requires forall i :: pc <= i < |c1| ==> c2[i] == if IsChained(c1[i]) then Retargeted(c1[i], |c1|) else c1[i]
    ensures var (o1, o2) := (Run(c1, pc, f, env), Run(c2, pc, f, env));
            o2.tests == o1.tests && if o1.end.Pending? then o2.end.Fell? else o2.end == o1.end
    decreases |c1| - pc
  {
    if pc < |c1| {
      match c1[pc]
      case Compare(a, b, wide) => RunPatched(c1, c2, pc + 1, Flags(Value(a, env), Value(b, env), wide), env);
      case JumpIf(t, target) =>
        if Holds(t, f) { GoPatched(c1, c2, pc, target, f, env); } else { RunPatched(c1, c2, pc + 1, f, env); }
      case Jump(target) => GoPatched(c1, c2, pc, target, f, env);
    }
  }

  lemma {:induction false} GoPatched(c1: seq<Instr>, c2: seq<Instr>, pc: nat, target: Target, f: Flags, env: seq<int>)
    requires |c1| == |c2| && pc < |c1|
    requires forall i :: pc <= i < |c1| ==> c2[i] == if IsChained(c1[i]) then Retargeted(c1[i], |c1|) else c1[i]
    ensures var (o1, o2) := (Go(c1, pc, target, f, env),
                             Go(c2, pc, if target.Chained? then At(|c1|) else target, f, env));
            o2.tests == o1.tests && if o1.end.Pending? then o2.end.Fell? else o2.end == o1.end
    decreases |c1| - pc, 0
  {
    if target.At? && pc < target.pos <= |c1| { RunPatched(c1, c2, target.pos, f, env); }
  }

  /** Where a switch goes: to the code of range r, or the default, or past the switch. */
  predicate Reaches(o: End, cs: seq<Case>, r: int, def: Option<int>)
    requires -1 <= r < |cs|
  {
    if r >= 0 then o == Exit(cs[r].addr) else match def case Some(d) => o == Exit(d) case None => o.Fell?
  }

  /** From `start` on the code is a switch over cs, deciding as `find` does within the bound. */
  ghost predicate IsSwitch(code: seq<Instr>, start: nat, k: Kind, cs: seq<Case>, def: Option<int>)
  {
    forall u, f :: InKind(k, u) ==>
      var o := Run(code, start, f, [u]);
      Reaches(o.end, cs, Search(k, cs, Number(k, u)), def) && o.tests <= MaxTests(|cs|)
  }

  lemma CloseSwitch(c1: seq<Instr>, c3: seq<Instr>, start: nat, k: Kind, cs: seq<Case>, def: Option<int>)
    requires start <= |c1| && Decides(c1, start, k, cs, def)
    requires var c2 := c1 + match def case Some(d) => [Jump(Label(d))] case None => [];
             |c3| == |c2| &&
             forall i :: start <= i < |c2| ==> c3[i] == if IsChained(c2[i]) then Retargeted(c2[i], |c2|) else c2[i]
    ensures IsSwitch(c3, start, k, cs, def)
  {
    hide Run, Search, Number, MaxTests;
    var more := match def case Some(d) => [Jump(Label(d))] case None => [];
    forall u, f | InKind(k, u)
      ensures var o := Run(c3, start, f, [u]);
              Reaches(o.end, cs, Search(k, cs, Number(k, u)), def) && o.tests <= MaxTests(|cs|)
    {
      var o := Run(c1, start, f, [u]);
      RunAppend(c1, more, start, f, [u]);
      RunPatched(c1 + more, c3, start, f, [u]);
      if o.end.Fell? { RunStep(c1 + more, |c1|, o.end.flags, [u]); }
    }
  }

  /** Main result, in plain numbers: for constants that fit the type of the switch, a pattern goes
      to a range exactly if the number it stands for lies between the ends of the range. */
  lemma SelectsValues(code: seq<Instr>, start: nat, k: Kind, cs: seq<Case>, def: Option<int>, half: int, size: int)
    requires IsSwitch(code, start, k, cs, def) && TypeIs(k, half, size) && Fitting(cs, half, size)
    ensures Selects(code, start, cs, def, half, size)
  {
    hide Run, Search, Number, Signed, Fitting, MaxTests;
    forall u, f | 0 <= u < size
      ensures var o := Run(code, start, f, [u]).end;
              Chooses(o, cs, Signed(u, half, size), match def case Some(d) => o == Exit(d) case None => o.Fell?)
    {
      ValuesWritten(k, half, size, u);
      FoundHolds(k, half, size, cs, u);
    }
  }

  /** Adjacent ranges in order, and none empty, make a sorted list. */
  lemma {:induction false} AdjacentSorted(cs: seq<Case>, i: nat, j: nat)
    requires i < j < |cs|
    requires forall n :: 0 <= n < |cs| ==> cs[n].v1 <= cs[n].v2
    requires forall n :: 1 <= n < |cs| ==> cs[n - 1].v2 < cs[n].v1
    ensures cs[i].v2 < cs[j].v1
    decreases j
  {
    assert cs[j - 1].v2 < cs[j].v1;
    if i < j - 1 { AdjacentSorted(cs, i, j - 1); }
  }

  /** The end of a switch statement, given its case ranges in order of v1 and the chain of the
      breaks in its body: a duplicate case value is an error; else the lookup is emitted and the
      breaks are closed. */
  method Switch(e: Emitter, k: Kind, cs: seq<Case>, def: Option<int>, breaks: nat) returns (ok: bool)
    requires ChainOk(e.code, breaks) && breaks <= |e.code|
    modifies e
    ensures ok <==> forall i :: 1 <= i < |cs| ==> cs[i - 1].v2 < cs[i].v1
    ensures !ok ==> e.code == old(e.code)
    ensures ok ==> IsSwitch(e.code, |old(e.code)|, k, cs, def)
    ensures ok && Representable(k, cs) ==> forall x :: Search(k, cs, x) == Linear(k, cs, x)
    ensures ok && k == Int64 && Fitting(cs, 0x8000_0000_0000_0000, 0x1_0000_0000_0000_0000) ==>
              Selects(e.code, |old(e.code)|, cs, def, 0x8000_0000_0000_0000, 0x1_0000_0000_0000_0000)
    ensures ok && k == Int32 && Fitting(cs, 0x8000_0000, 0x1_0000_0000) ==>
              Selects(e.code, |old(e.code)|, cs, def, 0x8000_0000, 0x1_0000_0000)
    ensures ok && k == UInt32 && Fitting(cs, 0x1_0000_0000, 0x1_0000_0000) ==>
              Selects(e.code, |old(e.code)|, cs, def, 0x1_0000_0000, 0x1_0000_0000)
  {
    hide Selects, LooksUp, Fitting, Decides, OnlyBreaks, ChainOk, OnChain, Search, Linear, IsSwitch, Constant;
    var i := 1;
    while i < |cs|
      invariant 1 <= i
      invariant forall n :: 1 <= n < |cs| && n < i ==> cs[n - 1].v2 < cs[n].v1
    {
      if cs[i - 1].v2 >= cs[i].v1 { return false; }
      i := i + 1;
    }
    var a := GCase(e, k, cs, def, breaks);
    ghost var c0, c1 := old(e.code), e.code;
    BreaksFacts(c0, c1, breaks, a);
    if def.Some? {
      e.GJmpAddr(def.value);
      AppendedUnchained(c1, [Jump(Label(def.value))], a);
    } else {
      OnlyBreaksStart(c1, a);
    }
    ghost var c2 := e.code;
    OnlyBreaksTransitive(c0, c1, c2, breaks, a, a);
    BreaksFacts(c0, c2, breaks, a);
    e.GSym(a);
    ClosedChain(c0, c2, breaks, a);
    CloseSwitch(c1, e.code, |c0|, k, cs, def);
    if Representable(k, cs) {
      forall n, m | 0 <= n < m < |cs| ensures cs[n].v2 < cs[m].v1 { AdjacentSorted(cs, n, m); }
      forall x ensures Search(k, cs, x) == Linear(k, cs, x) { RepresentableFinds(k, cs, x); }
    }
    ghost var size := if k == Int64 then 0x1_0000_0000_0000_0000 else 0x1_0000_0000;
    ghost var half := if k == UInt32 then size else size / 2;
    if Fitting(cs, half, size) { SelectsValues(e.code, |c0|, k, cs, def, half, size); }
    ok := true;
  }

  lemma ClosedChain(was: seq<Instr>, code: seq<Instr>, b: nat, b': nat)
    requires OnlyBreaks(was, code, b, b')
    ensures forall i :: |was| <= i < |code| ==> (i in OnChain(code, b') <==> IsChained(code[i]))
  {
  }
}
