/** Serving the operands of an inline asm statement in order of priority: which registers each
    of them takes, as an input, as an output or as both. */
module AsmAllocation {
  import opened Basics
  import opened AsmConstraints

  /** The registers as far as they are taken, for inputs and for outputs. */
  type Taken = s: seq<set<Use>> | |s| == NB_ASM_REGS witness seq(NB_ASM_REGS, _ => {})

  predicate Free(taken: Taken, r: nat, uses: set<Use>) { r < NB_ASM_REGS && taken[r] * uses == {} }

  function Take(taken: Taken, held: set<nat>, uses: set<Use>): (t: Taken)
    ensures forall r :: 0 <= r < NB_ASM_REGS ==> t[r] == if r in held then taken[r] + uses else taken[r]
  {
    seq(NB_ASM_REGS, r requires 0 <= r < NB_ASM_REGS => if r in held then taken[r] + uses else taken[r])
  }

  // --------------------------------------------------------- who holds what

  datatype Claim = Claim(held: set<nat>, uses: set<Use>)

  const NOTHING := Claim({}, {})

  predicate Holds(claims: seq<Claim>, j: nat, r: nat) { j < |claims| && r in claims[j].held }

  function UsesOf(claims: seq<Claim>, j: nat): set<Use> { if j < |claims| then claims[j].uses else {} }

  function UsesIn(taken: Taken, r: nat): set<Use> { if r < NB_ASM_REGS then taken[r] else {} }

  predicate HoldsFor(claims: seq<Claim>, j: nat, r: nat, u: Use) { Holds(claims, j, r) && u in UsesOf(claims, j) }

  /** Nothing is taken but from the start on or by a claim. */
  ghost predicate Accounted(taken: Taken, base: Taken, claims: seq<Claim>)
  {
    forall r: nat, u: Use :: u in UsesIn(taken, r) && u !in UsesIn(base, r) ==>
      exists j: nat :: HoldsFor(claims, j, r, u)
  }

  /** Claims are for registers that nobody else holds for the same use, and every use shows. */
  ghost predicate Booked(taken: Taken, base: Taken, claims: seq<Claim>)
  {
    && Accounted(taken, base, claims)
    && (forall r: nat :: UsesIn(base, r) <= UsesIn(taken, r))
    && (forall j: nat, r: nat :: Holds(claims, j, r) ==>
          r < NB_ASM_REGS && UsesOf(claims, j) != {}
          && UsesOf(claims, j) <= UsesIn(taken, r) && UsesOf(claims, j) * UsesIn(base, r) == {})
    && (forall j: nat, k: nat, r: nat :: j < k && Holds(claims, j, r) && Holds(claims, k, r) ==>
          UsesOf(claims, j) * UsesOf(claims, k) == {})
  }

  lemma Apart(a: set<Use>, b: set<Use>, c: set<Use>)
    requires a <= b && b * c == {}
    ensures a * c == {} && c * a == {}
  {
  }

  lemma AccountKept(taken: Taken, base: Taken, claims: seq<Claim>, j: nat, c: Claim)
    requires Accounted(taken, base, claims) && j < |claims| && claims[j] == NOTHING
    ensures Accounted(Take(taken, c.held, c.uses), base, claims[j := c])
  {
    var (taken', claims') := (Take(taken, c.held, c.uses), claims[j := c]);
    forall r: nat, u: Use | u in UsesIn(taken', r) && u !in UsesIn(base, r)
      ensures exists k: nat :: HoldsFor(claims', k, r, u)
    {
      if u in UsesIn(taken, r) {
        var k: nat :| HoldsFor(claims, k, r, u);
        assert HoldsFor(claims', k, r, u);
      } else {
        assert HoldsFor(claims', j, r, u);
      }
    }
  }

  lemma BookKept(taken: Taken, base: Taken, claims: seq<Claim>, j: nat, c: Claim)
    requires Booked(taken, base, claims) && j < |claims| && claims[j] == NOTHING
    requires c.uses != {} && forall r :: r in c.held ==> Free(taken, r, c.uses)
    ensures Booked(Take(taken, c.held, c.uses), base, claims[j := c])
  {
    AccountKept(taken, base, claims, j, c);
    ClaimsApart(taken, base, claims, j, c, claims[j := c]);
    hide Take, Accounted;
    var (taken', claims') := (Take(taken, c.held, c.uses), claims[j := c]);
    forall a: nat, r: nat | a != j
      ensures Holds(claims', a, r) == Holds(claims, a, r) && UsesOf(claims', a) == UsesOf(claims, a)
    {
      if a < |claims| { assert claims'[a] == claims[a]; }
    }
    assert forall r: nat :: UsesIn(taken, r) <= UsesIn(taken', r);
    forall a: nat, r: nat | Holds(claims', a, r)
      ensures r < NB_ASM_REGS && UsesOf(claims', a) != {}
      ensures UsesOf(claims', a) <= UsesIn(taken', r) && UsesOf(claims', a) * UsesIn(base, r) == {}
    {
      if a == j {
        assert Free(taken, r, c.uses);
        Apart(UsesIn(base, r), taken[r], c.uses);
      } else {
        assert Holds(claims, a, r);
      }
    }
  }

  lemma ClaimsApart(taken: Taken, base: Taken, claims: seq<Claim>, j: nat, c: Claim, claims': seq<Claim>)
    requires Booked(taken, base, claims) && j < |claims| && claims[j] == NOTHING && claims' == claims[j := c]
    requires forall r :: r in c.held ==> Free(taken, r, c.uses)
    ensures forall a: nat, b: nat, r: nat :: a < b && Holds(claims', a, r) && Holds(claims', b, r) ==>
              UsesOf(claims', a) * UsesOf(claims', b) == {}
  {
    hide Accounted;
    forall a: nat, b: nat, r: nat | a < b && Holds(claims', a, r) && Holds(claims', b, r)
      ensures UsesOf(claims', a) * UsesOf(claims', b) == {}
    {
      if a == j {
        assert Holds(claims, b, r) && Free(taken, r, c.uses);
        Apart(UsesOf(claims, b), taken[r], c.uses);
      } else if b == j {
        assert Holds(claims, a, r) && Free(taken, r, c.uses);
        Apart(UsesOf(claims, a), taken[r], c.uses);
      } else {
        assert Holds(claims, a, r) && Holds(claims, b, r);
      }
    }
  }

  // ------------------------------------------------------- one letter at a time

  predicate MaySit(c: char, r: nat)
  {
    if c == 'a' then r == XAX
    else if c == 'b' then r == 3
    else if c == 'c' then r == XCX
    else if c == 'd' then r == XDX
    else if c == 'S' then r == 6
    else if c == 'D' then r == 7
    else if c == 'q' then r < 4
    else if c in {'r', 'R', 'p'} then r < 8
    else false
  }

  predicate IsRegisterLetter(c: char) { c in {'a', 'b', 'c', 'd', 'S', 'D', 'q', 'r', 'R', 'p'} }

  predicate IsPlainConst(v: CValue) { v.val == VT_CONST && !v.lval }

  /** The operand is behind a pointer that is itself in memory, and must be reached. */
  predicate NeedsPointer(c: char, v: CValue, isOutput: bool) { (isOutput || c == 'm') && v.val == VT_LLOCAL }

  /** What a letter gives: registers held and for what, the one named in the operand, and whether
      that only points to the operand. */
  datatype Grant = Grant(held: set<nat>, uses: set<Use>, reg: int, isMemory: bool)

  ghost predicate Grants(c: char, taken: Taken, uses: set<Use>, v: CValue, isOutput: bool, g: Grant)
  {
    if c == 'A' then Free(taken, XAX, uses) && Free(taken, XDX, uses) && g == Grant({XAX, XDX}, uses, XAX, false)
    else if IsRegisterLetter(c) then
      && 0 <= g.reg && MaySit(c, g.reg) && Free(taken, g.reg, uses)
      && (forall r: nat :: r < g.reg && MaySit(c, r) ==> !Free(taken, r, uses))
      && g == Grant({g.reg}, uses, g.reg, false)
    else if c in {'e', 'i'} then IsPlainConst(v) && g == Grant({}, uses, -1, false)
    else if c in {'I', 'N', 'M'} then IsPlainConst(v) && !v.sym && g == Grant({}, uses, -1, false)
    else if c in {'m', 'g'} then
      if NeedsPointer(c, v, isOutput) then
        && 0 <= g.reg < 8 && Free(taken, g.reg, {In})
        && (forall r: nat :: r < g.reg ==> !Free(taken, r, {In}))
        && g == Grant({g.reg}, {In}, g.reg, true)
      else g == Grant({}, uses, -1, false)
    else false
  }

  ghost predicate Refuses(c: char, taken: Taken, uses: set<Use>, v: CValue, isOutput: bool)
  {
    if c == 'A' then !(Free(taken, XAX, uses) && Free(taken, XDX, uses))
    else if IsRegisterLetter(c) then forall r: nat :: MaySit(c, r) ==> !Free(taken, r, uses)
    else if c in {'e', 'i'} then !IsPlainConst(v)
    else if c in {'I', 'N', 'M'} then !(IsPlainConst(v) && !v.sym)
    else if c in {'m', 'g'} then NeedsPointer(c, v, isOutput) && forall r: nat :: r < 8 ==> !Free(taken, r, {In})
    else false
  }

  predicate IsModified(s: string, p: nat) { p <= |s| && ('+' in s[..p] || '&' in s[..p]) }

  /** The use is both from an early clobber or a read-write modifier on. */
  function UsesAt(s: string, p: nat, uses: set<Use>): set<Use>
  {
    if IsModified(s, p) then BOTH else uses
  }

  /** The first p characters are modifiers that may stand here and letters that fail. */
  ghost predicate Reaches(s: string, p: nat, taken: Taken, uses: set<Use>, v: CValue, isOutput: bool)
  {
    p <= |s| && forall i: nat :: i < p ==>
      s[i] == '=' || (s[i] in {'+', '&'} && isOutput) || Refuses(s[i], taken, UsesAt(s, i, uses), v, isOutput)
  }

  ghost predicate ChosenAt(s: string, p: nat, taken: Taken, uses: set<Use>, v: CValue, isOutput: bool, g: Grant)
  {
    p < |s| && Reaches(s, p, taken, uses, v, isOutput) && Grants(s[p], taken, UsesAt(s, p, uses), v, isOutput, g)
  }

  /** Nothing more can be tried after p characters. */
  ghost predicate StuckAt(s: string, p: nat, taken: Taken, uses: set<Use>, v: CValue, isOutput: bool, error: Error)
  {
    && Reaches(s, p, taken, uses, v, isOutput)
    && match error
       case BadModifier => p < |s| && s[p] in {'+', '&'} && !isOutput
       case Unsatisfied => p == |s| || (s[p] !in {'=', '+', '&'} && LetterPriority(s[p]).None?)
       case _ => false
  }

  lemma UsesStep(s: string, p: nat, uses: set<Use>)
    requires p < |s|
    ensures UsesAt(s, p + 1, uses) == if s[p] in {'+', '&'} then BOTH else UsesAt(s, p, uses)
    ensures '+' in s[..p + 1] <==> s[p] == '+' || '+' in s[..p]
  {
    assert s[..p + 1] == s[..p] + [s[p]];
  }

  /** The lowest register below n that is free, or n. */
  method LowestFree(taken: Taken, n: nat, uses: set<Use>) returns (r: nat)
    requires n <= NB_ASM_REGS
    ensures r <= n && (r < n ==> Free(taken, r, uses))
    ensures forall q: nat :: q < r ==> !Free(taken, q, uses)
  {
    r := 0;
    while r < n && taken[r] * uses != {}
      invariant r <= n && forall q: nat :: q < r ==> !Free(taken, q, uses)
    {
      r := r + 1;
    }
  }

  /** What one letter gives, if anything; None if it is not a letter. */
  method TryLetter(c: char, taken: Taken, uses: set<Use>, v: CValue, isOutput: bool)
    returns (known: bool, g: Option<Grant>)
    ensures known == LetterPriority(c).Some?
    ensures g.Some? ==> known && Grants(c, taken, uses, v, isOutput, g.value)
    ensures known && g.None? ==> Refuses(c, taken, uses, v, isOutput)
    ensures g.Some? && c in {'a', 'b', 'c', 'd', 'S', 'D', 'q', 'r', 'R', 'p'} ==> g.value.reg in RegistersOf(c)
  {
    known, g := true, None;
    if c == 'A' {
      if taken[XAX] * uses == {} && taken[XDX] * uses == {} { g := Some(Grant({XAX, XDX}, uses, XAX, false)); }
    } else if c in {'a', 'b', 'c', 'd', 'S', 'D'} {
      var reg := if c == 'a' then XAX else if c == 'b' then 3 else if c == 'c' then XCX
                 else if c == 'd' then XDX else if c == 'S' then 6 else 7;
      if taken[reg] * uses == {} { g := Some(Grant({reg}, uses, reg, false)); }
    } else if c == 'q' {
      var reg := LowestFree(taken, 4, uses);
      if reg < 4 { g := Some(Grant({reg}, uses, reg, false)); }
    } else if c in {'r', 'R', 'p'} {
      var reg := LowestFree(taken, 8, uses);
      if reg < 8 { g := Some(Grant({reg}, uses, reg, false)); }
    } else if c in {'e', 'i'} {
      if IsPlainConst(v) { g := Some(Grant({}, uses, -1, false)); }
    } else if c in {'I', 'N', 'M'} {
      if IsPlainConst(v) && !v.sym { g := Some(Grant({}, uses, -1, false)); }
    } else if c in {'m', 'g'} {
      if NeedsPointer(c, v, isOutput) {
        var reg := LowestFree(taken, 8, {In});
        if reg < 8 { g := Some(Grant({reg}, {In}, reg, true)); }
      } else {
        g := Some(Grant({}, uses, -1, false));
      }
    } else {
      known := false;
    }
  }

  /** Main result about one operand: its constraint is served by the first letter that can be,
      with the lowest register; it fails only if there is none before a bad character. */
  method Choose(s: string, uses0: set<Use>, taken: Taken, v: CValue, isOutput: bool)
    returns (error: Option<Error>, g: Grant, isRw: bool)
    ensures error.None? ==>
              exists p :: 0 <= p < |s| && ChosenAt(s, p, taken, uses0, v, isOutput, g) && isRw == ('+' in s[..p])
    ensures error.Some? ==> exists p :: 0 <= p <= |s| && StuckAt(s, p, taken, uses0, v, isOutput, error.value)
  {
    hide Grants, Refuses, UsesAt, LetterPriority;
    var p, uses := 0, uses0;
    isRw, g := false, Grant({}, {}, -1, false);
    UsesStart(s, uses0);
    while p < |s|
      invariant 0 <= p <= |s| && Reaches(s, p, taken, uses0, v, isOutput)
      invariant uses == UsesAt(s, p, uses0) && isRw == ('+' in s[..p])
    {
      UsesStep(s, p, uses0);
      var c := s[p];
      if c == '+' || c == '&' {
        if c == '+' { isRw := true; }
        if !isOutput {
          assert StuckAt(s, p, taken, uses0, v, isOutput, BadModifier);
          return Some(BadModifier), g, isRw;
        }
        uses := BOTH;
      } else if c != '=' {
        var known, given := TryLetter(c, taken, uses, v, isOutput);
        if !known {
          assert StuckAt(s, p, taken, uses0, v, isOutput, Unsatisfied);
          return Some(Unsatisfied), g, isRw;
        }
        if given.Some? {
          assert ChosenAt(s, p, taken, uses0, v, isOutput, given.value);
          return None, given.value, isRw;
        }
      }
      p := p + 1;
    }
    assert StuckAt(s, p, taken, uses0, v, isOutput, Unsatisfied);
    return Some(Unsatisfied), g, isRw;
  }

  lemma UsesStart(s: string, uses: set<Use>)
    ensures UsesAt(s, 0, uses) == uses && '+' !in s[..0]
  {
  }

  // ------------------------------------------------------------ all operands

  datatype Board = Board(ops: seq<ASMOperand>, claims: seq<Claim>, taken: Taken)

  /** What an operand is for, before the modifiers of its constraint. */
  function UsesFor(op: ASMOperand, isOutput: bool): set<Use>
  {
    if op.inputIndex >= 0 then BOTH else if isOutput then {Out} else {In}
  }

  function DefaultUses(op: ASMOperand, j: nat, nbOutputs: nat): set<Use> { UsesFor(op, j < nbOutputs) }

  /** The claim is one that the letter allows. */
  predicate FitsLetter(ch: char, op: ASMOperand, isOutput: bool, c: Claim)
  {
    || (c.held == {XAX, XDX} && ch == 'A')
    || (op.reg >= 0 && c.held == {op.reg} && !op.isMemory && MaySit(ch, op.reg))
    || (op.reg >= 0 && c.held == {op.reg} && op.isMemory && ch in {'m', 'g'} && NeedsPointer(ch, op.vt, isOutput))
    || (c.held == {} && ch in {'e', 'i'} && IsPlainConst(op.vt))
    || (c.held == {} && ch in {'I', 'N', 'M'} && IsPlainConst(op.vt) && !op.vt.sym)
    || (c.held == {} && ch in {'m', 'g'} && !NeedsPointer(ch, op.vt, isOutput))
  }

  /** It is what the letter at this place allows, and what the modifiers before it ask for: after
      an early clobber or read-write modifier a register is for both uses. */
  ghost predicate FitsAt(op: ASMOperand, isOutput: bool, c: Claim, p: nat)
  {
    && p < |op.constraint| && FitsLetter(op.constraint[p], op, isOutput, c)
    && op.isRw == ('+' in op.constraint[..p])
    && (IsModified(op.constraint, p) && !op.isMemory ==> c.uses == BOTH)
  }

  /** A register variable takes its register; its constraint is not looked at. */
  ghost predicate Fits(op: ASMOperand, isOutput: bool, c: Claim)
  {
    if IsRegvar(op.vt) then && !op.isRw && c.uses == UsesFor(op, isOutput)
                            && op.reg == op.vt.symReg.value && c.held == {op.reg} && !op.isMemory
    else exists p: nat :: FitsAt(op, isOutput, c, p)
  }

  ghost predicate Served(b: Board, nbOutputs: nat, j: nat)
    requires j < |b.ops| == |b.claims|
  {
    var op, c := b.ops[j], b.claims[j];
    && Fits(op, j < nbOutputs, c)
    && (if op.reg < 0 then op.reg == -1 && c.held == {} && !op.isMemory
        else if op.isMemory then c == Claim({op.reg}, {In})
        else && DefaultUses(op, j, nbOutputs) <= c.uses
             && c.held == (if op.isLlong then {XAX, XDX} else {op.reg})
             && (op.isLlong ==> op.reg == XAX) && (op.isRw ==> c.uses == BOTH))
  }

  ghost predicate Waiting(b: Board, j: nat)
    requires j < |b.ops| == |b.claims|
  {
    b.claims[j] == NOTHING && !b.ops[j].isMemory && !b.ops[j].isRw && Declared(b.ops[j])
  }

  /** A reference has the register of the operand it refers to, once that is served. */
  ghost predicate Following(b: Board, j: nat, done: set<nat>)
    requires j < |b.ops| == |b.claims|
  {
    var op := b.ops[j];
    && b.claims[j] == NOTHING && !op.isMemory && !op.isRw && 0 <= op.refIndex < |b.ops|
    && var k := b.ops[op.refIndex];
       if k.refIndex == -1 && op.refIndex in done then
         op.reg == k.reg && op.isLlong == k.isLlong
       else op.reg == -1
  }

  ghost predicate StateOf(b: Board, nbOutputs: nat, done: set<nat>, j: nat)
    requires j < |b.ops| == |b.claims|
  {
    if b.ops[j].refIndex != -1 then Following(b, j, done)
    else if j in done then Served(b, nbOutputs, j)
    else Waiting(b, j)
  }

  ghost predicate Inv(b: Board, base: Taken, nbOutputs: nat, done: set<nat>)
  {
    && |b.ops| == |b.claims| && Paired(b.ops, nbOutputs) && Booked(b.taken, base, b.claims)
    && forall j: nat :: j < |b.ops| ==> StateOf(b, nbOutputs, done, j)
  }

  // --------------------------------------------------------- serving one of them

  /** What can be given to an operand that is by default for these uses. */
  ghost predicate GrantOk(g: Grant, taken: Taken, uses: set<Use>, isRw: bool)
  {
    && g.uses != {} && (forall r :: r in g.held ==> Free(taken, r, g.uses))
    && (if g.reg < 0 then g.reg == -1 && g.held == {} && !g.isMemory
        else if g.isMemory then g.held == {g.reg} && g.uses == {In}
        else && uses <= g.uses && (isRw ==> g.uses == BOTH)
             && (g.held == {g.reg} || (g.held == {XAX, XDX} && g.reg == XAX)))
  }

  lemma GrantsOk(c: char, taken: Taken, uses: set<Use>, uses': set<Use>, v: CValue, isOutput: bool, g: Grant,
        isRw: bool)
    requires uses != {} && uses <= uses' && Grants(c, taken, uses', v, isOutput, g) && (isRw ==> uses' == BOTH)
    ensures GrantOk(g, taken, uses, isRw)
  {
  }

  lemma UsesGrow(s: string, p: nat, uses: set<Use>)
    ensures uses <= UsesAt(s, p, uses)
  {
    forall u: Use | u in uses ensures u in BOTH { assert u == In || u == Out; }
  }

  lemma ModifiedUses(s: string, p: nat, uses: set<Use>)
    ensures IsModified(s, p) ==> UsesAt(s, p, uses) == BOTH
  {
  }

  lemma RwUses(s: string, p: nat, uses: set<Use>)
    ensures p <= |s| && '+' in s[..p] ==> UsesAt(s, p, uses) == BOTH
  {
  }

  function Given(op: ASMOperand, g: Grant, isRw: bool): ASMOperand
  {
    op.(reg := g.reg, isMemory := g.isMemory, isRw := isRw,
        isLlong := if g.held == {} || g.isMemory then op.isLlong else g.held == {XAX, XDX})
  }

  function Serve(b: Board, j: nat, g: Grant, isRw: bool): (b': Board)
    requires j < |b.ops| == |b.claims|
  {
    var op := Given(b.ops[j], g, isRw);
    var ops := b.ops[j := op];
    var i := op.inputIndex;
    Board(if 0 <= i < |ops| then ops[i := ops[i].(reg := op.reg, isLlong := op.isLlong)] else ops,
          b.claims[j := Claim(g.held, g.uses)],
          Take(b.taken, g.held, g.uses))
  }

  lemma ServeSelf(b: Board, nbOutputs: nat, done: set<nat>, j: nat, g: Grant, isRw: bool)
    requires j < |b.ops| == |b.claims| && b.ops[j].refIndex == -1 && b.ops[j].inputIndex != j
    requires GrantOk(g, b.taken, DefaultUses(b.ops[j], j, nbOutputs), isRw)
    requires Fits(Given(b.ops[j], g, isRw), j < nbOutputs, Claim(g.held, g.uses))
    ensures StateOf(Serve(b, j, g, isRw), nbOutputs, done + {j}, j)
  {
    hide Take, Fits, Free;
    assert {XAX, XDX} != {XAX} by { assert XDX in {XAX, XDX}; }
  }

  lemma ServeInput(b: Board, nbOutputs: nat, done: set<nat>, j: nat, i: nat, g: Grant, isRw: bool)
    requires j < i < |b.ops| == |b.claims| && b.ops[j].refIndex == -1 && b.ops[j].inputIndex == i
    requires b.ops[i].refIndex == j
    requires StateOf(b, nbOutputs, done, i)
    ensures StateOf(Serve(b, j, g, isRw), nbOutputs, done + {j}, i)
  {
    hide Take, Fits, Free, GrantOk;
  }

  lemma ServeOther(b: Board, nbOutputs: nat, done: set<nat>, j: nat, i: nat, g: Grant, isRw: bool)
    requires j < |b.ops| == |b.claims| && i < |b.ops| && i != j && b.ops[j].inputIndex != i
    requires b.ops[i].refIndex != j && (0 <= b.ops[j].inputIndex < |b.ops| ==> b.ops[b.ops[j].inputIndex].refIndex == j)
    requires StateOf(b, nbOutputs, done, i)
    ensures StateOf(Serve(b, j, g, isRw), nbOutputs, done + {j}, i)
  {
    hide Take, Fits, Free, GrantOk;
    var b' := Serve(b, j, g, isRw);
    assert b'.ops[i] == b.ops[i] && b'.claims[i] == b.claims[i];
    if b.ops[i].refIndex != -1 {
      assert Following(b, i, done);
      var k := b.ops[i].refIndex;
      assert b'.ops[k].refIndex == b.ops[k].refIndex;
      if b.ops[j].inputIndex != k { assert b'.ops[k] == b.ops[k]; }
    }
  }

  lemma PairIs(ops: seq<ASMOperand>, nbOutputs: nat, j: nat, i: nat)
    requires Paired(ops, nbOutputs) && j < |ops| && i < |ops|
    ensures ops[j].inputIndex == i <==> ops[i].refIndex == j
    ensures ops[j].inputIndex == i ==> j < i && nbOutputs <= i
    ensures ops[j].inputIndex == -1 || j < ops[j].inputIndex < |ops|
  {
  }

  lemma ServePaired(b: Board, nbOutputs: nat, j: nat, g: Grant, isRw: bool)
    requires j < |b.ops| == |b.claims| && Paired(b.ops, nbOutputs)
    ensures Paired(Serve(b, j, g, isRw).ops, nbOutputs)
  {
    hide Paired, Take;
    PairedFrame(b.ops, Serve(b, j, g, isRw).ops, nbOutputs);
  }

  lemma ServeKeeps(b: Board, base: Taken, nbOutputs: nat, done: set<nat>, j: nat, g: Grant, isRw: bool)
    requires Inv(b, base, nbOutputs, done) && j < |b.ops| && j !in done && b.ops[j].refIndex == -1
    requires GrantOk(g, b.taken, DefaultUses(b.ops[j], j, nbOutputs), isRw)
    requires Fits(Given(b.ops[j], g, isRw), j < nbOutputs, Claim(g.held, g.uses))
    ensures Inv(Serve(b, j, g, isRw), base, nbOutputs, done + {j})
  {
    hide Booked, Take, Fits, Paired, Served, Following, Declared, Given;
    var b' := Serve(b, j, g, isRw);
    assert StateOf(b, nbOutputs, done, j);
    BookKept(b.taken, base, b.claims, j, Claim(g.held, g.uses));
    ServePaired(b, nbOutputs, j, g, isRw);
    PairIs(b.ops, nbOutputs, j, j);
    forall i: nat | i < |b.ops| ensures StateOf(b', nbOutputs, done + {j}, i) {
      assert StateOf(b, nbOutputs, done, i);
      PairIs(b.ops, nbOutputs, j, i);
      if i == j {
        ServeSelf(b, nbOutputs, done, j, g, isRw);
      } else if b.ops[j].inputIndex == i {
        ServeInput(b, nbOutputs, done, j, i, g, isRw);
      } else {
        if b.ops[j].inputIndex != -1 { PairIs(b.ops, nbOutputs, j, b.ops[j].inputIndex); }
        ServeOther(b, nbOutputs, done, j, i, g, isRw);
      }
    }
  }

  // ------------------------------------------------------------- the outcome

  /** At first taken: what the asm text clobbers, and the stack and frame pointers. */
  function Base(clobberRegs: seq<bool>): Taken
    requires |clobberRegs| == NB_ASM_REGS
  {
    seq(NB_ASM_REGS, r requires 0 <= r < NB_ASM_REGS => if clobberRegs[r] || r == XSP || r == XBP then BOTH else {})
  }

  /** The uses that an operand has its register for: those of the operand it refers to, if any. */
  ghost function Holding(ops: seq<ASMOperand>, claims: seq<Claim>, j: nat): set<Use>
    requires j < |ops| == |claims|
  {
    if 0 <= ops[j].refIndex < |ops| then claims[ops[j].refIndex].uses else claims[j].uses
  }

  ghost predicate Matched(ops: seq<ASMOperand>, j: nat, k: nat)
    requires j < |ops| && k < |ops|
  {
    ops[j].refIndex == k || ops[k].refIndex == j
  }

  /** The operands that are not references. */
  ghost function Direct(ops: seq<ASMOperand>): set<nat> { set j | 0 <= j < |ops| && ops[j].refIndex == -1 }

  /** Everything is served. */
  ghost predicate Allocated(b: Board, clobberRegs: seq<bool>, nbOutputs: nat)
  {
    |clobberRegs| == NB_ASM_REGS && Inv(b, Base(clobberRegs), nbOutputs, Direct(b.ops))
  }

  /** The registers that a letter stands for. */
  function RegistersOf(letter: char): set<nat>
  {
    match letter
    case 'a' => {0} case 'b' => {3} case 'c' => {1} case 'd' => {2} case 'S' => {6} case 'D' => {7}
    case 'q' => {0, 1, 2, 3}
    case 'r' => {0, 1, 2, 3, 4, 5, 6, 7} case 'R' => {0, 1, 2, 3, 4, 5, 6, 7} case 'p' => {0, 1, 2, 3, 4, 5, 6, 7}
    case _ => {}
  }

  lemma SitsIn(letter: char, r: nat)
    ensures MaySit(letter, r) <==> r in RegistersOf(letter)
  {
  }

  /** Of two register letters the one that leaves less choice is served first, and constants and
      memory come last; all other characters are unknown. */
  lemma NarrowerFirst(a: char, b: char)
    ensures LetterPriority(a).Some? <==> a in "AabcdSDqrRpNMIeimg"
    ensures RegistersOf(a) != {} && RegistersOf(a) < RegistersOf(b) && b != 'A' ==>
              LetterPriority(a).value < LetterPriority(b).value
    ensures RegistersOf(a) != {} && b in "NMIeimg" ==> LetterPriority(a).value < LetterPriority(b).value
    ensures RegistersOf(a) != {} ==> LetterPriority('A').value < LetterPriority(a).value
  {
    assert 0 in {0, 1, 2, 3} && 4 in {0, 1, 2, 3, 4, 5, 6, 7} && 4 !in {0, 1, 2, 3};
    if RegistersOf(a) != {} && RegistersOf(a) < RegistersOf(b) {
      Sizes(a, b);
    }
  }

  lemma Sizes(a: char, b: char)
    requires RegistersOf(a) != {} && RegistersOf(a) < RegistersOf(b)
    ensures b in "qrRp" && (b == 'q' ==> a in "abcd")
    ensures b in "rRp" ==> a in "abcdSDq"
  {
    assert RegistersOf('q') == {0, 1, 2, 3} && RegistersOf('r') == {0, 1, 2, 3, 4, 5, 6, 7};
    assert 6 !in RegistersOf('q') && 7 !in RegistersOf('q') && 4 !in RegistersOf('q') && 4 in RegistersOf('r');
    assert 3 in RegistersOf('q') && 0 in RegistersOf('q');
  }

  /** Main result: an operand whose constraint is one register letter, with whatever modifiers,
      has a register of that letter, alone. */
  lemma LetterRegister(b: Board, clobberRegs: seq<bool>, nbOutputs: nat, j: nat, letter: char)
    requires Allocated(b, clobberRegs, nbOutputs) && j < |b.ops| && b.ops[j].refIndex == -1
    requires !(b.ops[j].vt.val == 0x32 && b.ops[j].vt.symReg.Some? && b.ops[j].vt.symReg.value < 0x30)
    requires letter in {'a', 'b', 'c', 'd', 'S', 'D', 'q', 'r', 'R', 'p'}
    requires forall p :: 0 <= p < |b.ops[j].constraint| ==> b.ops[j].constraint[p] in {'=', '+', '&', letter}
    ensures b.ops[j].reg in RegistersOf(letter) && b.claims[j].held == {b.ops[j].reg}
    ensures !b.ops[j].isMemory && !b.ops[j].isLlong
  {
    hide Booked, RegistersOf, Paired, Base;
    assert StateOf(b, nbOutputs, Direct(b.ops), j);
    assert Served(b, nbOutputs, j);
    var p: nat :| FitsAt(b.ops[j], j < nbOutputs, b.claims[j], p);
    assert b.ops[j].constraint[p] in {'=', '+', '&', letter};
    if b.ops[j].reg >= 0 {
      SitsIn(letter, b.ops[j].reg);
      assert {XAX, XDX} != {b.ops[j].reg} by { assert XAX in {XAX, XDX} && XDX in {XAX, XDX}; }
    }
  }

  /** An operand whose constraint is only memory is in no register, unless it is behind a pointer
      that is itself in memory; that one is in a register then.  Where anything general will do,
      this is so for outputs, and an input is left where it is. */
  lemma LetterMemory(b: Board, clobberRegs: seq<bool>, nbOutputs: nat, j: nat, letter: char)
    requires Allocated(b, clobberRegs, nbOutputs) && j < |b.ops| && b.ops[j].refIndex == -1
    requires !(b.ops[j].vt.val == 0x32 && b.ops[j].vt.symReg.Some? && b.ops[j].vt.symReg.value < 0x30)
    requires letter in {'m', 'g'}
    requires forall p :: 0 <= p < |b.ops[j].constraint| ==> b.ops[j].constraint[p] in {'=', '+', '&', letter}
    ensures b.ops[j].isMemory <==> b.ops[j].vt.val == 0x31 && (letter == 'm' || j < nbOutputs)
    ensures if b.ops[j].isMemory then b.ops[j].reg >= 0 && b.claims[j] == Claim({b.ops[j].reg}, {In})
            else b.ops[j].reg == -1 && b.claims[j].held == {}
  {
    hide Booked, Paired, Base;
    assert StateOf(b, nbOutputs, Direct(b.ops), j);
    assert Served(b, nbOutputs, j);
    var p: nat :| FitsAt(b.ops[j], j < nbOutputs, b.claims[j], p);
    assert b.ops[j].constraint[p] in {'=', '+', '&', letter};
    assert forall r: nat :: r in {r};
  }

  /** An operand whose constraint is only a constant is one, and in no register. */
  lemma LetterConstant(b: Board, clobberRegs: seq<bool>, nbOutputs: nat, j: nat, letter: char)
    requires Allocated(b, clobberRegs, nbOutputs) && j < |b.ops| && b.ops[j].refIndex == -1
    requires !(b.ops[j].vt.val == 0x32 && b.ops[j].vt.symReg.Some? && b.ops[j].vt.symReg.value < 0x30)
    requires letter in {'e', 'i', 'I', 'N', 'M'}
    requires forall p :: 0 <= p < |b.ops[j].constraint| ==> b.ops[j].constraint[p] in {'=', '+', '&', letter}
    ensures b.ops[j].vt.val == 0x30 && !b.ops[j].vt.lval && (letter in {'I', 'N', 'M'} ==> !b.ops[j].vt.sym)
    ensures b.ops[j].reg == -1 && b.claims[j].held == {}
  {
    hide Booked, Paired, Base;
    assert StateOf(b, nbOutputs, Direct(b.ops), j);
    assert Served(b, nbOutputs, j);
    var p: nat :| FitsAt(b.ops[j], j < nbOutputs, b.claims[j], p);
    assert b.ops[j].constraint[p] in {'=', '+', '&', letter};
    assert forall r: nat :: r in {r};
  }

  /** A variable that was declared to live in a register has that register. */
  lemma RegvarKept(b: Board, clobberRegs: seq<bool>, nbOutputs: nat, j: nat)
    requires Allocated(b, clobberRegs, nbOutputs) && j < |b.ops| && b.ops[j].refIndex == -1
    requires b.ops[j].vt.val == 0x32 && b.ops[j].vt.symReg.Some? && b.ops[j].vt.symReg.value < 0x30
    ensures b.ops[j].reg == b.ops[j].vt.symReg.value && b.claims[j].held == {b.ops[j].reg} && !b.ops[j].isMemory
  {
    hide Booked, Paired, Base;
    assert StateOf(b, nbOutputs, Direct(b.ops), j);
    assert Served(b, nbOutputs, j);
  }

  lemma AssignedIsHeld(b: Board, clobberRegs: seq<bool>, nbOutputs: nat, j: nat)
    requires Allocated(b, clobberRegs, nbOutputs) && j < |b.ops| && b.ops[j].reg >= 0
    ensures var k := if b.ops[j].refIndex == -1 then j else b.ops[j].refIndex;
            && 0 <= k < |b.ops| && b.ops[k].refIndex == -1
            && Holds(b.claims, k, b.ops[j].reg) && UsesOf(b.claims, k) == Holding(b.ops, b.claims, j)
            && (b.ops[j].refIndex != -1 ==> b.ops[k].inputIndex == j)
  {
    hide Booked, Fits;
    assert StateOf(b, nbOutputs, Direct(b.ops), j);
    var k := b.ops[j].refIndex;
    if k != -1 {
      assert StateOf(b, nbOutputs, Direct(b.ops), k);
    }
  }

  lemma UsesSplit(a: set<Use>, b: set<Use>)
    requires a != {} && b != {} && a * b == {}
    ensures (a == {In} && b == {Out}) || (a == {Out} && b == {In})
  {
    var x, y :| x in a && y in b;
    assert (x in a * b <==> x in b) && (y in a * b <==> y in a);
    forall u: Use ensures (u in a <==> u == x) && (u in b <==> u == y) {
      assert (u == In || u == Out) && (x == In || x == Out) && (y == In || y == Out);
      assert u in a * b <==> u in a && u in b;
    }
    assert a == {x} && b == {y};
  }

  lemma NotBoth(a: set<Use>, b: set<Use>)
    requires a != {} && a * b == {}
    ensures b != BOTH
  {
    var u :| u in a;
    assert u == In || u == Out;
    assert u in a * b <==> u in b;
  }

  /** Main result: an assigned register is not clobbered and is not the stack or frame pointer;
      two operands have the same one only as a matched pair, or one only as an output and the
      other only as an input. */
  lemma SharedRegisters(b: Board, clobberRegs: seq<bool>, nbOutputs: nat, j: nat, k: nat)
    requires Allocated(b, clobberRegs, nbOutputs) && j < |b.ops| && k < |b.ops| && b.ops[j].reg >= 0
    ensures b.ops[j].reg < 16 && !clobberRegs[b.ops[j].reg] && b.ops[j].reg !in {4, 5}
    ensures j != k && b.ops[k].reg == b.ops[j].reg ==>
              || Matched(b.ops, j, k)
              || (Holding(b.ops, b.claims, j) == {In} && Holding(b.ops, b.claims, k) == {Out})
              || (Holding(b.ops, b.claims, j) == {Out} && Holding(b.ops, b.claims, k) == {In})
  {
    hide StateOf, Paired;
    var r: nat := b.ops[j].reg;
    AssignedIsHeld(b, clobberRegs, nbOutputs, j);
    var j' := if b.ops[j].refIndex == -1 then j else b.ops[j].refIndex;
    assert Holds(b.claims, j', r);
    NotBoth(UsesOf(b.claims, j'), UsesIn(Base(clobberRegs), r));
    if j != k && b.ops[k].reg == r {
      AssignedIsHeld(b, clobberRegs, nbOutputs, k);
      var k' := if b.ops[k].refIndex == -1 then k else b.ops[k].refIndex;
      if j' != k' {
        assert Holds(b.claims, k', r);
        assert UsesOf(b.claims, j') * UsesOf(b.claims, k') == {} by {
          if j' > k' { assert UsesOf(b.claims, k') * UsesOf(b.claims, j') == {}; }
        }
        UsesSplit(UsesOf(b.claims, j'), UsesOf(b.claims, k'));
      }
    }
  }

  /** An output has its register as one to be written, an input as one to be read, and both ends of
      a matched pair have it as both. */
  lemma UsesByRole(b: Board, clobberRegs: seq<bool>, nbOutputs: nat, j: nat)
    requires Allocated(b, clobberRegs, nbOutputs) && j < |b.ops| && b.ops[j].reg >= 0 && !b.ops[j].isMemory
    ensures (if j < nbOutputs then Out else In) in Holding(b.ops, b.claims, j)
    ensures b.ops[j].refIndex == -1 && (b.ops[j].inputIndex >= 0 || b.ops[j].isRw) ==>
              Holding(b.ops, b.claims, j) == BOTH
    ensures 0 <= b.ops[j].refIndex < |b.ops| && !b.ops[b.ops[j].refIndex].isMemory ==>
              Holding(b.ops, b.claims, j) == BOTH
  {
    hide Booked, Fits;
    assert StateOf(b, nbOutputs, Direct(b.ops), j);
    var k := b.ops[j].refIndex;
    if k == -1 {
      assert Served(b, nbOutputs, j);
      WholeUses(b.claims[j].uses);
    } else {
      assert StateOf(b, nbOutputs, Direct(b.ops), k) && Served(b, nbOutputs, k);
      WholeUses(b.claims[k].uses);
    }
  }

  lemma WholeUses(uses: set<Use>)
    ensures BOTH <= uses ==> uses == BOTH
  {
    forall u: Use ensures u in BOTH { assert u == In || u == Out; }
  }

  /** Main result: values of two operands are in the same register only for a matched pair or for
      an output and an input, and then neither of them is matched with a third or is both. */
  lemma SharedRoles(b: Board, clobberRegs: seq<bool>, nbOutputs: nat, j: nat, k: nat)
    requires Allocated(b, clobberRegs, nbOutputs) && j < k < |b.ops| && b.ops[j].reg == b.ops[k].reg >= 0
    requires !b.ops[j].isMemory && !b.ops[k].isMemory && !Matched(b.ops, j, k)
    ensures j < nbOutputs <= k && b.ops[j].inputIndex < 0 && !b.ops[j].isRw
    ensures b.ops[k].refIndex == -1 ==> b.ops[k].inputIndex < 0
  {
    if j < nbOutputs { PairedInputs(b.ops, nbOutputs, j); }
    hide Allocated, Matched;
    SharedRegisters(b, clobberRegs, nbOutputs, j, k);
    UsesByRole(b, clobberRegs, nbOutputs, j);
    UsesByRole(b, clobberRegs, nbOutputs, k);
    hide Holding;
    assert In in BOTH && Out in BOTH && In !in {Out} && Out !in {In};
  }

  /** The scratch register that outputs are stored through is no output's register. */
  lemma ScratchCarriesNoOutput(b: Board, clobberRegs: seq<bool>, nbOutputs: nat, r: nat, j: nat)
    requires Allocated(b, clobberRegs, nbOutputs) && r < NB_ASM_REGS && Out !in b.taken[r]
    requires j < nbOutputs && j < |b.ops| && b.ops[j].reg >= 0 && !b.ops[j].isMemory
    ensures r != b.ops[j].reg && (b.ops[j].isLlong ==> r != XDX)
    ensures !clobberRegs[r] && r !in {4, 5}
  {
    hide Fits;
    PairedInputs(b.ops, nbOutputs, j);
    assert StateOf(b, nbOutputs, Direct(b.ops), j);
    assert Served(b, nbOutputs, j);
    assert Holds(b.claims, j, b.ops[j].reg) && (b.ops[j].isLlong ==> Holds(b.claims, j, XDX));
    assert Out in UsesOf(b.claims, j);
    assert UsesIn(Base(clobberRegs), r) <= UsesIn(b.taken, r);
  }

  /** An operand in two registers keeps both: nobody else holds either for the same use. */
  lemma PairIsReserved(b: Board, clobberRegs: seq<bool>, nbOutputs: nat, j: nat, k: nat)
    requires Allocated(b, clobberRegs, nbOutputs) && j < |b.ops| && k < |b.ops| && j != k
    requires b.ops[j].refIndex == -1 && b.ops[j].reg >= 0 && !b.ops[j].isMemory && b.ops[j].isLlong
    ensures b.ops[j].reg == XAX && !clobberRegs[XAX] && !clobberRegs[XDX]
    ensures b.ops[k].reg in {XAX, XDX} && !Matched(b.ops, j, k) ==>
              Holding(b.ops, b.claims, j) * Holding(b.ops, b.claims, k) == {}
  {
    hide Fits;
    assert StateOf(b, nbOutputs, Direct(b.ops), j);
    assert Served(b, nbOutputs, j);
    assert Holds(b.claims, j, XAX) && Holds(b.claims, j, XDX);
    NotBoth(UsesOf(b.claims, j), UsesIn(Base(clobberRegs), XAX));
    NotBoth(UsesOf(b.claims, j), UsesIn(Base(clobberRegs), XDX));
    if b.ops[k].reg in {XAX, XDX} && !Matched(b.ops, j, k) {
      AssignedIsHeld(b, clobberRegs, nbOutputs, k);
      var k' := if b.ops[k].refIndex == -1 then k else b.ops[k].refIndex;
      assert Holds(b.claims, k', b.ops[k].reg) && Holds(b.claims, j, b.ops[k].reg);
      if k' < j { assert UsesOf(b.claims, k') * UsesOf(b.claims, j) == {}; }
    }
  }

  /** The modifiers in front of a constraint ask for an early clobber, or for reading and writing. */
  ghost predicate IsEarly(s: string)
  {
    exists m :: 0 <= m < |s| && s[m] in {'+', '&'} && forall i :: 0 <= i < m ==> s[i] in {'=', '+', '&'}
  }

  lemma EarlyUses(op: ASMOperand, isOutput: bool, c: Claim, p: nat)
    requires FitsAt(op, isOutput, c, p) && IsEarly(op.constraint)
    ensures IsModified(op.constraint, p)
  {
    var s := op.constraint;
    var m :| 0 <= m < |s| && s[m] in {'+', '&'} && forall i :: 0 <= i < m ==> s[i] in {'=', '+', '&'};
    assert m < p;
    assert s[..p][m] == s[m];
  }

  /** Main result: the register of an output with an early clobber, or that is read and written, is
      for both uses, exactly unless it is a register variable without a matched input. */
  lemma EarlyClobberIff(b: Board, clobberRegs: seq<bool>, nbOutputs: nat, j: nat)
    requires Allocated(b, clobberRegs, nbOutputs) && j < nbOutputs && j < |b.ops|
    requires IsEarly(b.ops[j].constraint) && b.ops[j].reg >= 0 && !b.ops[j].isMemory
    ensures Holding(b.ops, b.claims, j) == BOTH <==> !IsRegvar(b.ops[j].vt) || b.ops[j].inputIndex >= 0
  {
    PairedInputs(b.ops, nbOutputs, j);
    assert StateOf(b, nbOutputs, Direct(b.ops), j) && Served(b, nbOutputs, j);
    var (op, c) := (b.ops[j], b.claims[j]);
    assert In in BOTH && Out in BOTH && In !in {Out};
    if !IsRegvar(op.vt) {
      var p: nat :| FitsAt(op, j < nbOutputs, c, p);
      EarlyUses(op, j < nbOutputs, c, p);
    }
  }

  /** An operand whose register is for both uses shares it with none but the one matched to it. */
  lemma BothAlone(b: Board, clobberRegs: seq<bool>, nbOutputs: nat, j: nat, k: nat)
    requires Allocated(b, clobberRegs, nbOutputs) && j < |b.ops| && k < |b.ops| && j != k
    requires b.ops[j].reg >= 0 && Holding(b.ops, b.claims, j) == BOTH
    ensures b.ops[k].reg == b.ops[j].reg ==> Matched(b.ops, j, k)
  {
    assert |b.ops| == |b.claims|;
    hide Allocated;
    assert In in BOTH && Out in BOTH;
    SharedRegisters(b, clobberRegs, nbOutputs, j, k);
  }

  lemma PairedInputs(ops: seq<ASMOperand>, nbOutputs: nat, j: nat)
    requires Paired(ops, nbOutputs) && j < nbOutputs && j < |ops|
    ensures ops[j].refIndex == -1
  {
  }

  // ------------------------------------------------------------ bookkeeping

  ghost function Done(s: seq<nat>, i: nat): set<nat>
    requires i <= |s|
  {
    set k | 0 <= k < i :: s[k]
  }

  lemma DoneStep(s: seq<nat>, n: nat, i: nat)
    requires IsPermutation(s, n) && i < n
    ensures s[i] in s && s[i] < n && s[i] !in Done(s, i) && Done(s, i + 1) == Done(s, i) + {s[i]}
  {
  }

  lemma SkipReference(b: Board, base: Taken, nbOutputs: nat, done: set<nat>, j: nat)
    requires Inv(b, base, nbOutputs, done) && j < |b.ops| && b.ops[j].refIndex != -1
    ensures Inv(b, base, nbOutputs, done + {j})
  {
    hide Booked, Paired, Served, Waiting;
    forall i: nat | i < |b.ops| ensures StateOf(b, nbOutputs, done + {j}, i) {
      assert StateOf(b, nbOutputs, done, i);
    }
  }

  lemma AllDone(b: Board, clobberRegs: seq<bool>, nbOutputs: nat, s: seq<nat>)
    requires |clobberRegs| == NB_ASM_REGS && IsPermutation(s, |b.ops|)
    requires Inv(b, Base(clobberRegs), nbOutputs, Done(s, |s|))
    ensures Allocated(b, clobberRegs, nbOutputs)
  {
    hide Booked, Paired, Served, Waiting;
    forall i: nat | i < |b.ops| ensures StateOf(b, nbOutputs, Direct(b.ops), i) {
      assert StateOf(b, nbOutputs, Done(s, |s|), i);
      forall x: nat | x < |b.ops| ensures x in Done(s, |s|) { assert x in s; }
    }
  }

  lemma NoneServed(ops: seq<ASMOperand>, from: seq<ASMOperand>, clobberRegs: seq<bool>, nbOutputs: nat)
    requires |clobberRegs| == NB_ASM_REGS && Paired(ops, nbOutputs) && PreparedTo(ops, |ops|, from)
    ensures Inv(Board(ops, seq(|ops|, _ => NOTHING), Base(clobberRegs)), Base(clobberRegs), nbOutputs, {})
  {
    hide Ranked;
    var b := Board(ops, seq(|ops|, _ => NOTHING), Base(clobberRegs));
    forall i: nat | i < |ops| ensures StateOf(b, nbOutputs, {}, i) {
      assert Prepared(ops[i], from);
    }
    assert forall j: nat, r: nat :: !Holds(b.claims, j, r);
  }

  /** Registers of register variables exist. */
  ghost predicate RegvarsExist(ops: seq<ASMOperand>)
  {
    forall i :: 0 <= i < |ops| && IsRegvar(ops[i].vt) ==> ops[i].vt.symReg.value < NB_ASM_REGS
  }

  /** The output has to be stored through a pointer that must be loaded first. */
  predicate Indirect(op: ASMOperand) { op.reg >= 0 && op.vt.val == VT_LLOCAL && !op.isMemory }

  /** The lowest register, of the first eight, that no output has. */
  predicate IsScratch(taken: Taken, r: int)
  {
    0 <= r < 8 && Out !in taken[r] && forall q :: 0 <= q < r ==> Out in taken[q]
  }

  /** References are resolved as the constraints say. */
  ghost predicate Resolved(ops: seq<ASMOperand>)
  {
    forall i :: 0 <= i < |ops| ==>
      ops[i].refIndex == if IsReference(SkipModifiers(ops[i].constraint))
                         then FindConstraint(ops, SkipModifiers(ops[i].constraint)) else -1
  }

  lemma {:induction false} Skipped(mods: string, s: string)
    requires forall i :: 0 <= i < |mods| ==> mods[i] in {'=', '&', '+', '%'}
    requires s == [] || s[0] !in {'=', '&', '+', '%'}
    ensures SkipModifiers(mods + s) == s
  {
    if mods == [] {
      assert mods + s == s;
    } else {
      assert (mods + s)[1..] == mods[1..] + s;
      Skipped(mods[1..], s);
    }
  }

  /** A constraint that is a number refers to the operand of that number, in decimal. */
  lemma ReferenceByNumber(ops: seq<ASMOperand>, i: nat, mods: string, s: string, d: char)
    requires Resolved(ops) && i < |ops| && ops[i].constraint == mods + (s + [d])
    requires forall k :: 0 <= k < |mods| ==> mods[k] in {'=', '&', '+', '%'}
    requires '0' <= d <= '9' && forall k :: 0 <= k < |s| ==> '0' <= s[k] <= '9'
    ensures Number([], 0) == 0
    ensures var k := 10 * Number(s, 0) + (d as int - '0' as int); ops[i].refIndex == if k < |ops| then k else -1
  {
    var all := s + [d];
    assert all[0] == if s == [] then d else s[0];
    Skipped(mods, all);
    RefersByNumber(ops, s, d, []);
    assert all + [] == all;
    hide FindConstraint, SkipModifiers;
  }

  /** One that is a name in brackets, to the first operand of that name. */
  lemma ReferenceByName(ops: seq<ASMOperand>, i: nat, mods: string, name: string, rest: string)
    requires Resolved(ops) && i < |ops| && ops[i].constraint == mods + (['['] + (name + [']'] + rest))
    requires ']' !in name && forall k :: 0 <= k < |mods| ==> mods[k] in {'=', '&', '+', '%'}
    ensures var k := ops[i].refIndex;
            && -1 <= k < |ops| && (k >= 0 ==> ops[k].id == Some(name))
            && forall n :: 0 <= n < |ops| && (k == -1 || n < k) ==> ops[n].id != Some(name)
  {
    var all := ['['] + (name + [']'] + rest);
    assert all[0] == '[';
    Skipped(mods, all);
    RefersByName(ops, name, rest);
    hide FindConstraint, SkipModifiers;
  }

  /** Any other refers to none. */
  lemma NoReference(ops: seq<ASMOperand>, i: nat, mods: string, s: string)
    requires Resolved(ops) && i < |ops| && ops[i].constraint == mods + s
    requires forall k :: 0 <= k < |mods| ==> mods[k] in {'=', '&', '+', '%'}
    requires s == [] || (s[0] !in {'=', '&', '+', '%', '['} && !('0' <= s[0] <= '9'))
    ensures ops[i].refIndex == -1
  {
    Skipped(mods, s);
  }

  lemma PreparedResolved(ops: seq<ASMOperand>, from: seq<ASMOperand>)
    requires PreparedTo(ops, |ops|, from) && SameSources(ops, from)
    ensures Resolved(ops)
  {
    hide FindConstraint, SkipModifiers, IsReference, Ranked, Declared;
    forall i | 0 <= i < |ops|
      ensures ops[i].refIndex == if IsReference(SkipModifiers(ops[i].constraint))
                                 then FindConstraint(ops, SkipModifiers(ops[i].constraint)) else -1
    {
      assert Prepared(ops[i], from);
      SameNames(ops, from, SkipModifiers(ops[i].constraint));
    }
  }

  lemma ServedResolved(a: seq<ASMOperand>, b: seq<ASMOperand>)
    requires SameServed(a, b) && Resolved(b)
    ensures Resolved(a)
  {
    hide FindConstraint, SkipModifiers, IsReference;
    forall i | 0 <= i < |a|
      ensures a[i].refIndex == if IsReference(SkipModifiers(a[i].constraint))
                               then FindConstraint(a, SkipModifiers(a[i].constraint)) else -1
    {
      SameNames(a, b, SkipModifiers(a[i].constraint));
    }
  }

  class Allocator {
    var operands: seq<ASMOperand>
    const nbOutputs: nat
    const clobberRegs: seq<bool>
    var sortedOp: seq<nat>
    var regsAllocated: Taken
    ghost var claims: seq<Claim>

    constructor (operands: seq<ASMOperand>, nbOutputs: nat, clobberRegs: seq<bool>)
      ensures this.operands == operands && this.nbOutputs == nbOutputs && this.clobberRegs == clobberRegs
    {
      this.operands, this.nbOutputs, this.clobberRegs := operands, nbOutputs, clobberRegs;
      sortedOp, regsAllocated, claims := [], seq(NB_ASM_REGS, _ => {}), [];
    }

    ghost function Result(): Board
      reads this
    {
      Board(operands, claims, regsAllocated)
    }

    method ClearOperands()
      modifies `operands
      ensures |operands| == |old(operands)|
      ensures forall k :: 0 <= k < |operands| ==> operands[k] == Reset(old(operands)[k])
    {
      var n, i := |operands|, 0;
      while i < n
        invariant 0 <= i <= n == |operands| == |old(operands)|
        invariant forall k :: 0 <= k < n ==> operands[k] == if k < i then Reset(old(operands)[k]) else old(operands)[k]
      {
        operands := operands[i := Reset(operands[i])];
        i := i + 1;
      }
    }

    /** Clears the fields, resolves references and computes priorities. */
    method Prepare() returns (error: Option<Error>)
      modifies `operands
      ensures SameSources(operands, old(operands))
      ensures error.None? ==> Paired(operands, nbOutputs) && PreparedTo(operands, |operands|, old(operands))
    {
      hide Paired, PreparedTo, Untouched, SameSources, Prepared, FindConstraint, SkipModifiers, LetterPriority,
             IsReference;
      ClearOperands();
      ghost var was := old(operands);
      ResetReady(was, operands, nbOutputs);
      var n, i := |operands|, 0;
      while i < n
        invariant 0 <= i <= n == |operands| && Ready(operands, i, was, nbOutputs)
      {
        var op, ops := operands[i], operands;
        NotYet(ops, i, was, nbOutputs);
        var str := SkipModifiers(op.constraint);
        if IsReference(str) {
          var k := FindConstraint(operands, str);
          if k < 0 || k >= i || i < nbOutputs { return Some(InvalidReference); }
          if operands[k].inputIndex >= 0 { return Some(ReferencedTwice); }
          operands := operands[i := op.(refIndex := k, priority := 5)];
          operands := operands[k := operands[k].(inputIndex := i)];
          ReadyRef(ops, was, nbOutputs, i, k);
        } else if IsRegvar(op.vt) {
          operands := operands[i := op.(priority := 1, reg := op.vt.symReg.value)];
          ReadyOther(ops, was, nbOutputs, i, operands[i]);
        } else {
          var p := ConstraintPriority(str);
          if p.None? { return Some(UnknownConstraint); }
          operands := operands[i := op.(priority := p.value)];
          ReadyOther(ops, was, nbOutputs, i, operands[i]);
        }
        i := i + 1;
      }
      return None;
    }

    /** The operands by priority. */
    method SortOperands()
      modifies `sortedOp
      ensures IsPermutation(sortedOp, |operands|)
      ensures SortedTo(operands, sortedOp, |operands|)
    {
      hide IsPermutation, SortedTo, LeastTo, Rank, Swap;
      var n := |operands|;
      sortedOp := seq(n, i => i);
      var i: nat := 0;
      InOrder(operands, n);
      while i < n - 1
        invariant i <= n && IsPermutation(sortedOp, n) && SortedTo(operands, sortedOp, i)
        invariant n > 0 ==> i < n
        invariant |sortedOp| == n
      {
        var j: nat := i + 1;
        LeastNone(operands, sortedOp, i);
        while j < n
          invariant i < j <= n && IsPermutation(sortedOp, n) && SortedTo(operands, sortedOp, i)
          invariant LeastTo(operands, sortedOp, i, j)
          invariant |sortedOp| == n
        {
          SwapRanks(operands, sortedOp, i, j);
          SwapPermutes(sortedOp, n, i, j);
          var p1, p2 := Rank(operands, sortedOp, i), Rank(operands, sortedOp, j);
          if p2 < p1 { sortedOp := Swap(sortedOp, i, j); }
          j := j + 1;
        }
        SortedStep(operands, sortedOp, i);
        i := i + 1;
      }
      SortedLast(operands, sortedOp, i);
    }

    method AllocateOne(j: nat) returns (error: Option<Error>, ghost g: Grant, ghost isRw: bool)
      requires j < |operands| == |claims| && operands[j].refIndex == -1
      requires Declared(operands[j]) && !operands[j].isRw && (operands[j].reg >= 0 ==> operands[j].reg < NB_ASM_REGS)
      modifies `operands, `regsAllocated, `claims
      ensures error.None? ==> GrantOk(g, old(regsAllocated), DefaultUses(old(operands)[j], j, nbOutputs), isRw)
      ensures error.None? ==> Fits(Given(old(operands)[j], g, isRw), j < nbOutputs, Claim(g.held, g.uses))
      ensures error.None? ==> Result() == Serve(old(Result()), j, g, isRw)
      ensures error.Some? ==> Result() == old(Result())
    {
      hide GrantOk, Fits, Grants, Take, Refuses;
      var op := operands[j];
      var uses := if op.inputIndex >= 0 then BOTH else if j < nbOutputs then {Out} else {In};
      var given: Grant;
      var rw := op.isRw;
      if op.reg >= 0 {
        given := Grant({op.reg}, uses, op.reg, false);
        if regsAllocated[op.reg] * uses != {} { return Some(RegvarTaken), given, rw; }
        RegvarGrant(op, regsAllocated, uses, j < nbOutputs, rw);
      } else {
        var failed;
        failed, given, rw := Choose(op.constraint, uses, regsAllocated, op.vt, j < nbOutputs);
        if failed.Some? { return failed, given, rw; }
        ChosenGrant(op, regsAllocated, uses, j < nbOutputs, given, rw);
      }
      g, isRw := given, rw;
      op := Given(op, given, rw);
      operands := operands[j := op];
      regsAllocated := Take(regsAllocated, given.held, given.uses);
      claims := claims[j := Claim(given.held, given.uses)];
      if 0 <= op.inputIndex < |operands| {
        operands := operands[op.inputIndex := operands[op.inputIndex].(reg := op.reg, isLlong := op.isLlong)];
      }
      error := None;
    }

    method AllocateAll(ghost from: seq<ASMOperand>) returns (error: Option<Error>)
      requires |clobberRegs| == NB_ASM_REGS && RegvarsExist(operands)
      requires Paired(operands, nbOutputs) && PreparedTo(operands, |operands|, from)
      requires IsPermutation(sortedOp, |operands|)
      modifies `operands, `regsAllocated, `claims
      ensures error.None? ==> Allocated(Result(), clobberRegs, nbOutputs) && SameServed(operands, old(operands))
    {
      hide Inv, Progress, Serve, GrantOk, Fits, Given, DefaultUses, Base, Declared, Allocated, SameServed,
             RegvarsExist, IsPermutation, PreparedTo, Paired;
      regsAllocated := Base(clobberRegs);
      claims := seq(|operands|, _ => NOTHING);
      var n, i := |operands|, 0;
      ghost var was := operands;
      ProgressStart(operands, from, clobberRegs, nbOutputs, sortedOp);
      while i < n
        invariant 0 <= i <= n == |operands| == |sortedOp|
        invariant Progress(Result(), clobberRegs, nbOutputs, sortedOp, i, was)
      {
        var j := sortedOp[i];
        ghost var b := Result();
        NextIs(b, clobberRegs, nbOutputs, sortedOp, i, was);
        if operands[j].refIndex >= 0 {
          SkipNext(b, clobberRegs, nbOutputs, sortedOp, i, was);
        } else {
          ghost var g, isRw;
          error, g, isRw := AllocateOne(j);
          if error.Some? { return; }
          ServeNext(b, clobberRegs, nbOutputs, sortedOp, i, was, g, isRw);
        }
        i := i + 1;
      }
      ProgressEnd(Result(), clobberRegs, nbOutputs, sortedOp, was);
      return None;
    }

    /** A register for loading pointers to outputs, if one has to be. */
    method ComputeOutReg() returns (error: Option<Error>, outReg: int)
      ensures error.None? && outReg == -1 <==> forall i :: 0 <= i < |operands| ==> !Indirect(operands[i])
      ensures error.None? && outReg != -1 ==> IsScratch(regsAllocated, outReg)
      ensures error.Some? ==> error.value == NoOutputRegister && forall r :: 0 <= r < 8 ==> Out in regsAllocated[r]
    {
      var i := 0;
      while i < |operands|
        invariant 0 <= i <= |operands| && forall k :: 0 <= k < i ==> !Indirect(operands[k])
      {
        if Indirect(operands[i]) {
          var reg := 0;
          while reg < 8 && Out in regsAllocated[reg]
            invariant 0 <= reg <= 8 && forall r :: 0 <= r < reg ==> Out in regsAllocated[r]
          {
            reg := reg + 1;
          }
          if reg == 8 { return Some(NoOutputRegister), -1; }
          return None, reg;
        }
        i := i + 1;
      }
      return None, -1;
    }

    /** All of it: on success the results above hold of the operands, and the scratch register
        is not taken for an output. */
    method ComputeConstraints() returns (error: Option<Error>, outReg: int)
      requires |clobberRegs| == NB_ASM_REGS && RegvarsExist(operands)
      modifies `operands, `sortedOp, `regsAllocated, `claims
      ensures error.None? ==>
                && SameSources(operands, old(operands))
                && Allocated(Result(), clobberRegs, nbOutputs)
                && IsPermutation(sortedOp, |operands|) && SortedTo(operands, sortedOp, |operands|)
                && (outReg == -1 <==> forall i :: 0 <= i < |operands| ==> !Indirect(operands[i]))
                && (outReg != -1 ==> IsScratch(regsAllocated, outReg))
                && Resolved(operands)
    {
      hide StateOf, Paired, Booked, Allocated, PreparedTo, IsPermutation, SortedTo, SameServed, Resolved, IsScratch;
      outReg := -1;
      ghost var from := operands;
      error := Prepare();
      if error.Some? { return; }
      SortOperands();
      ghost var prepared := operands;
      error := AllocateAll(from);
      if error.Some? { return; }
      SameOrder(operands, prepared, from, sortedOp);
      PreparedResolved(prepared, from);
      ServedResolved(operands, prepared);
      error, outReg := ComputeOutReg();
    }
  }

  /** The state after the first i operands in order of service. */
  ghost predicate Progress(b: Board, clobberRegs: seq<bool>, nbOutputs: nat, s: seq<nat>, i: nat, was: seq<ASMOperand>)
  {
    && |clobberRegs| == NB_ASM_REGS && IsPermutation(s, |b.ops|) && i <= |s| && RegvarsExist(b.ops)
    && SameServed(b.ops, was) && Inv(b, Base(clobberRegs), nbOutputs, Done(s, i))
  }

  lemma ProgressStart(ops: seq<ASMOperand>, from: seq<ASMOperand>, clobberRegs: seq<bool>, nbOutputs: nat, s: seq<nat>)
    requires |clobberRegs| == NB_ASM_REGS && Paired(ops, nbOutputs) && PreparedTo(ops, |ops|, from)
    requires IsPermutation(s, |ops|) && RegvarsExist(ops)
    ensures Progress(Board(ops, seq(|ops|, _ => NOTHING), Base(clobberRegs)), clobberRegs, nbOutputs, s, 0, ops)
    ensures |s| == |ops|
  {
    hide Inv, RegvarsExist, Paired, PreparedTo;
    NoneServed(ops, from, clobberRegs, nbOutputs);
    assert Done(s, 0) == {};
  }

  lemma NextIs(b: Board, clobberRegs: seq<bool>, nbOutputs: nat, s: seq<nat>, i: nat, was: seq<ASMOperand>)
    requires Progress(b, clobberRegs, nbOutputs, s, i, was) && i < |s|
    ensures s[i] < |b.ops| == |b.claims|
    ensures b.ops[s[i]].refIndex < 0 ==>
              && b.ops[s[i]].refIndex == -1 && Declared(b.ops[s[i]]) && !b.ops[s[i]].isRw
              && (b.ops[s[i]].reg >= 0 ==> b.ops[s[i]].reg < NB_ASM_REGS)
  {
    hide Booked, Paired, Served, SameServed;
    DoneStep(s, |b.ops|, i);
    hide IsPermutation, Done;
    assert StateOf(b, nbOutputs, Done(s, i), s[i]);
  }

  lemma SkipNext(b: Board, clobberRegs: seq<bool>, nbOutputs: nat, s: seq<nat>, i: nat, was: seq<ASMOperand>)
    requires Progress(b, clobberRegs, nbOutputs, s, i, was) && i < |s| && s[i] < |b.ops| && b.ops[s[i]].refIndex >= 0
    ensures Progress(b, clobberRegs, nbOutputs, s, i + 1, was)
  {
    hide Inv, SameServed, RegvarsExist;
    DoneStep(s, |b.ops|, i);
    SkipReference(b, Base(clobberRegs), nbOutputs, Done(s, i), s[i]);
  }

  lemma ServeNext(b: Board, clobberRegs: seq<bool>, nbOutputs: nat, s: seq<nat>, i: nat, was: seq<ASMOperand>,
        g: Grant, isRw: bool)
    requires Progress(b, clobberRegs, nbOutputs, s, i, was) && i < |s| && s[i] < |b.ops| == |b.claims|
    requires b.ops[s[i]].refIndex == -1
    requires GrantOk(g, b.taken, DefaultUses(b.ops[s[i]], s[i], nbOutputs), isRw)
    requires Fits(Given(b.ops[s[i]], g, isRw), s[i] < nbOutputs, Claim(g.held, g.uses))
    ensures Progress(Serve(b, s[i], g, isRw), clobberRegs, nbOutputs, s, i + 1, was)
    ensures |Serve(b, s[i], g, isRw).ops| == |b.ops|
  {
    hide Inv, SameServed, RegvarsExist, Serve, GrantOk, Fits, Given, DefaultUses;
    DoneStep(s, |b.ops|, i);
    ServeKeeps(b, Base(clobberRegs), nbOutputs, Done(s, i), s[i], g, isRw);
    ServeSources(b, s[i], g, isRw, was);
  }

  lemma ProgressEnd(b: Board, clobberRegs: seq<bool>, nbOutputs: nat, s: seq<nat>, was: seq<ASMOperand>)
    requires Progress(b, clobberRegs, nbOutputs, s, |b.ops|, was)
    ensures Allocated(b, clobberRegs, nbOutputs) && SameServed(b.ops, was)
  {
    hide Inv, SameServed, RegvarsExist;
    AllDone(b, clobberRegs, nbOutputs, s);
  }

  lemma ServeSources(b: Board, j: nat, g: Grant, isRw: bool, from: seq<ASMOperand>)
    requires j < |b.ops| == |b.claims| && RegvarsExist(b.ops) && SameServed(b.ops, from)
    ensures |Serve(b, j, g, isRw).ops| == |b.ops| == |Serve(b, j, g, isRw).claims|
    ensures RegvarsExist(Serve(b, j, g, isRw).ops)
    ensures SameServed(Serve(b, j, g, isRw).ops, from)
  {
    hide Take;
  }

  /** The same operands, in the same order of service and with the same references. */
  ghost predicate SameServed(a: seq<ASMOperand>, b: seq<ASMOperand>)
  {
    SameSources(a, b) && forall i :: 0 <= i < |a| ==> a[i].priority == b[i].priority && a[i].refIndex == b[i].refIndex
  }

  lemma SameOrder(a: seq<ASMOperand>, b: seq<ASMOperand>, from: seq<ASMOperand>, s: seq<nat>)
    requires SameServed(a, b) && SameSources(b, from) && SortedTo(b, s, |b|)
    ensures SortedTo(a, s, |a|) && SameSources(a, from)
  {
    forall p: nat, q: nat | p < |a| && p < q < |s| ensures Rank(a, s, p) <= Rank(a, s, q) {
      assert Rank(a, s, p) == Rank(b, s, p) && Rank(a, s, q) == Rank(b, s, q);
    }
  }

  lemma RegvarGrant(op: ASMOperand, taken: Taken, uses: set<Use>, isOutput: bool, isRw: bool)
    requires Declared(op) && 0 <= op.reg < NB_ASM_REGS && taken[op.reg] * uses == {} && uses != {} && !isRw
    requires uses == UsesFor(op, isOutput)
    ensures var g := Grant({op.reg}, uses, op.reg, false);
            GrantOk(g, taken, uses, isRw) && Fits(Given(op, g, isRw), isOutput, Claim(g.held, g.uses))
  {
  }

  lemma ChosenGrant(op: ASMOperand, taken: Taken, uses: set<Use>, isOutput: bool, g: Grant, isRw: bool)
    requires uses != {} && !IsRegvar(op.vt)
    requires exists p :: 0 <= p < |op.constraint| && ChosenAt(op.constraint, p, taken, uses, op.vt, isOutput, g) &&
                         isRw == ('+' in op.constraint[..p])
    ensures GrantOk(g, taken, uses, isRw) && Fits(Given(op, g, isRw), isOutput, Claim(g.held, g.uses))
  {
    hide Reaches, UsesAt, Fits;
    var p :| 0 <= p < |op.constraint| && ChosenAt(op.constraint, p, taken, uses, op.vt, isOutput, g) &&
             isRw == ('+' in op.constraint[..p]);
    RwUses(op.constraint, p, uses);
    var uses' := UsesAt(op.constraint, p, uses);
    UsesGrow(op.constraint, p, uses);
    GrantsOk(op.constraint[p], taken, uses, uses', op.vt, isOutput, g, isRw);
    GrantsFit(op.constraint[p], taken, uses', op.vt, isOutput, g, Given(op, g, isRw));
    ModifiedUses(op.constraint, p, uses);
    FitsBy(Given(op, g, isRw), isOutput, Claim(g.held, g.uses), p);
  }

  lemma GrantsFit(c: char, taken: Taken, uses: set<Use>, v: CValue, isOutput: bool, g: Grant, op: ASMOperand)
    requires Grants(c, taken, uses, v, isOutput, g) && op.reg == g.reg && op.isMemory == g.isMemory && op.vt == v
    ensures FitsLetter(c, op, isOutput, Claim(g.held, g.uses)) && (!op.isMemory ==> g.uses == uses)
  {
  }

  lemma FitsBy(op: ASMOperand, isOutput: bool, c: Claim, p: nat)
    requires !IsRegvar(op.vt) && FitsAt(op, isOutput, c, p)
    ensures Fits(op, isOutput, c)
  {
  }
}
