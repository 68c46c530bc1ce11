/** The code around an inline asm statement: saving registers, loading the operands, storing the
    outputs and restoring the registers, on x86-64. */
module AsmCode {
  import opened Basics
  import opened AsmConstraints
  import opened AsmAllocation

  /** The registers that the calling convention makes the callee preserve, as far as the operand
      constraints can name them. */
  const REG_SAVED: seq<nat> := [3, 12, 13, 14, 15]

  // ------------------------------------------------------------ what code does

  /** The value of an operand, its upper half, and the pointer through which it is reached. */
  datatype Source = Whole(i: nat) | High(i: nat) | Pointer(i: nat)

  datatype Instr = Push(r: nat) | Pop(r: nat) | Load(r: nat, from: Source)
                 | Store(r: nat, to: Source) | StoreThrough(r: nat, scratch: nat, i: nat)

  /** What a store writes: a value to an operand, or to where a pointer points. */
  datatype Stored = To(dest: Source, value: int) | Through(address: int, i: nat, value: int)

  datatype Machine = Machine(regs: nat -> int, stack: seq<int>, log: seq<Stored>)

  function Set(m: Machine, r: nat, v: int): Machine { m.(regs := (q: nat) => if q == r then v else m.regs(q)) }

  /** `env` has the values of the operands in memory. */
  function Step(i: Instr, m: Machine, env: Source -> int): Machine
  {
    match i
    case Push(r) => m.(stack := m.stack + [m.regs(r)])
    case Pop(r) => if m.stack == [] then m else Set(m, r, m.stack[|m.stack| - 1]).(stack := m.stack[..|m.stack| - 1])
    case Load(r, from) => Set(m, r, env(from))
    case Store(r, to) => m.(log := m.log + [To(to, m.regs(r))])
    case StoreThrough(r, scratch, i) => m.(log := m.log + [Through(m.regs(scratch), i, m.regs(r))])
  }

  function Exec(code: seq<Instr>, m: Machine, env: Source -> int): Machine
  {
    if code == [] then m else Exec(code[1..], Step(code[0], m, env), env)
  }

  lemma {:induction false} ExecAppend(a: seq<Instr>, b: seq<Instr>, m: Machine, env: Source -> int)
    ensures Exec(a + b, m, env) == Exec(b, Exec(a, m, env), env)
    decreases |a|
  {
    if a == [] {
      assert a + b == b;
    } else {
      assert (a + b)[1..] == a[1..] + b;
      ExecAppend(a[1..], b, Step(a[0], m, env), env);
    }
  }

  lemma ExecOne(i: Instr, m: Machine, env: Source -> int)
    ensures Exec([i], m, env) == Step(i, m, env)
  {
    assert Exec([i], m, env) == Exec([], Step(i, m, env), env);
  }

  // -------------------------------------------------------- what is generated

  function Pushes(used: seq<bool>, k: nat): seq<Instr>
    requires |used| == NB_ASM_REGS && k <= |REG_SAVED|
  {
    if k == 0 then [] else Pushes(used, k - 1) + if used[REG_SAVED[k - 1]] then [Push(REG_SAVED[k - 1])] else []
  }

  /** Back from the k-th. */
  function Pops(used: seq<bool>, k: nat): seq<Instr>
    requires |used| == NB_ASM_REGS && k <= |REG_SAVED|
  {
    if k == 0 then [] else (if used[REG_SAVED[k - 1]] then [Pop(REG_SAVED[k - 1])] else []) + Pops(used, k - 1)
  }

  /** The operand, or the pointer to it, is to be in its register before the asm text. */
  predicate IsLoaded(op: ASMOperand, i: nat, nbOutputs: nat)
  {
    op.reg >= 0 && ((op.vt.val == VT_LLOCAL && op.isMemory) || i >= nbOutputs || op.isRw)
  }

  function LoadsOf(op: ASMOperand, i: nat, nbOutputs: nat): seq<Instr>
  {
    if !IsLoaded(op, i, nbOutputs) then []
    else if op.vt.val == VT_LLOCAL && op.isMemory then [Load(op.reg, Pointer(i))]
    else [Load(op.reg, Whole(i))] + if op.isLlong then [Load(XDX, High(i))] else []
  }

  function Loads(ops: seq<ASMOperand>, nbOutputs: nat, n: nat): seq<Instr>
    requires n <= |ops|
  {
    if n == 0 then [] else Loads(ops, nbOutputs, n - 1) + LoadsOf(ops[n - 1], n - 1, nbOutputs)
  }

  predicate IsIndirect(op: ASMOperand) { op.vt.val == VT_LLOCAL }

  function StoresOf(op: ASMOperand, i: nat, outReg: int): seq<Instr>
  {
    if op.reg < 0 then []
    else if IsIndirect(op) then
      if op.isMemory || outReg < 0 then [] else [Load(outReg, Pointer(i)), StoreThrough(op.reg, outReg, i)]
    else [Store(op.reg, Whole(i))] + if op.isLlong then [Store(XDX, High(i))] else []
  }

  function Stores(ops: seq<ASMOperand>, n: nat, outReg: int): seq<Instr>
    requires n <= |ops|
  {
    if n == 0 then [] else Stores(ops, n - 1, outReg) + StoresOf(ops[n - 1], n - 1, outReg)
  }

  /** The registers that the asm text may change, as far as is known. */
  function Used(ops: seq<ASMOperand>, clobberRegs: seq<bool>): (used: seq<bool>)
    requires |clobberRegs| == NB_ASM_REGS
    ensures |used| == NB_ASM_REGS
  {
    seq(NB_ASM_REGS, r requires 0 <= r < NB_ASM_REGS => clobberRegs[r] || exists i :: 0 <= i < |ops| && ops[i].reg == r)
  }

  /** The scratch register is there when it is needed. */
  predicate ScratchGiven(ops: seq<ASMOperand>, outReg: int)
  {
    forall i :: 0 <= i < |ops| && ops[i].reg >= 0 && IsIndirect(ops[i]) && !ops[i].isMemory ==>
      0 <= outReg < NB_ASM_REGS
  }

  method MarkUsed(ops: seq<ASMOperand>, clobberRegs: seq<bool>) returns (used: seq<bool>)
    requires |clobberRegs| == NB_ASM_REGS && forall i :: 0 <= i < |ops| ==> ops[i].reg < NB_ASM_REGS
    ensures used == Used(ops, clobberRegs)
  {
    used := clobberRegs;
    var i: nat := 0;
    while i < |ops|
      invariant i <= |ops| && |used| == NB_ASM_REGS
      invariant forall r :: 0 <= r < NB_ASM_REGS ==>
                  used[r] == (clobberRegs[r] || exists k :: 0 <= k < i && ops[k].reg == r)
    {
      if ops[i].reg >= 0 { used := used[ops[i].reg := true]; }
      i := i + 1;
    }
  }

  method GenProlog(ops: seq<ASMOperand>, nbOutputs: nat, used: seq<bool>) returns (code: seq<Instr>)
    requires |used| == NB_ASM_REGS
    ensures code == Pushes(used, |REG_SAVED|) + Loads(ops, nbOutputs, |ops|)
  {
    code := [];
    var i: nat := 0;
    while i < |REG_SAVED|
      invariant i <= |REG_SAVED| && code == Pushes(used, i)
    {
      var reg := REG_SAVED[i];
      if used[reg] { code := code + [Push(reg)]; }
      i := i + 1;
    }
    ghost var pushes := code;
    i := 0;
    while i < |ops|
      invariant i <= |ops| && code == pushes + Loads(ops, nbOutputs, i)
    {
      var op := ops[i];
      ghost var before := code;
      if op.reg >= 0 {
        if op.vt.val == VT_LLOCAL && op.isMemory {
          code := code + [Load(op.reg, Pointer(i))];
        } else if i >= nbOutputs || op.isRw {
          code := code + [Load(op.reg, Whole(i))];
          if op.isLlong { code := code + [Load(XDX, High(i))]; }
        }
      }
      assert code == before + LoadsOf(op, i, nbOutputs);
      i := i + 1;
    }
  }

  method GenEpilog(ops: seq<ASMOperand>, nbOutputs: nat, used: seq<bool>, outReg: int) returns (code: seq<Instr>)
    requires |used| == NB_ASM_REGS && nbOutputs <= |ops| && ScratchGiven(ops, outReg)
    ensures code == Stores(ops, nbOutputs, outReg) + Pops(used, |REG_SAVED|)
  {
    code := [];
    var i: nat := 0;
    while i < nbOutputs
      invariant i <= nbOutputs && code == Stores(ops, i, outReg)
    {
      var op := ops[i];
      ghost var before := code;
      if op.reg >= 0 {
        if op.vt.val == VT_LLOCAL {
          if !op.isMemory { code := code + [Load(outReg, Pointer(i)), StoreThrough(op.reg, outReg, i)]; }
        } else {
          code := code + [Store(op.reg, Whole(i))];
          if op.isLlong { code := code + [Store(XDX, High(i))]; }
        }
      }
      assert code == before + StoresOf(op, i, outReg);
      i := i + 1;
    }
    var pops := GenPops(used);
    code := code + pops;
  }

  lemma PopsStep(used: seq<bool>, k: nat)
    requires |used| == NB_ASM_REGS && k < |REG_SAVED|
    ensures REG_SAVED[k] < NB_ASM_REGS && Pops(used, 0) == []
    ensures Pops(used, k + 1) == (if used[REG_SAVED[k]] then [Pop(REG_SAVED[k])] else []) + Pops(used, k)
  {
  }

  method GenPops(used: seq<bool>) returns (code: seq<Instr>)
    requires |used| == NB_ASM_REGS
    ensures code == Pops(used, |REG_SAVED|)
  {
    hide Pops;
    code := [];
    PopsStep(used, 0);
    var i: nat := |REG_SAVED|;
    while i > 0
      invariant i <= |REG_SAVED| && code + Pops(used, i) == Pops(used, |REG_SAVED|)
    {
      i := i - 1;
      var reg := REG_SAVED[i];
      ghost var before := code;
      PopsStep(used, i);
      if used[reg] { code := code + [Pop(reg)]; }
      assert code + Pops(used, i) == before + Pops(used, i + 1);
    }
    assert code + Pops(used, 0) == code;
  }

  method AsmGenCode(ops: seq<ASMOperand>, nbOutputs: nat, isOutput: bool, clobberRegs: seq<bool>, outReg: int)
    returns (code: seq<Instr>)
    requires |clobberRegs| == NB_ASM_REGS && nbOutputs <= |ops| && ScratchGiven(ops, outReg)
    requires forall i :: 0 <= i < |ops| ==> ops[i].reg < NB_ASM_REGS
    ensures var used := Used(ops, clobberRegs);
            code == if isOutput then Stores(ops, nbOutputs, outReg) + Pops(used, |REG_SAVED|)
                    else Pushes(used, |REG_SAVED|) + Loads(ops, nbOutputs, |ops|)
  {
    var used := MarkUsed(ops, clobberRegs);
    if !isOutput {
      code := GenProlog(ops, nbOutputs, used);
    } else {
      code := GenEpilog(ops, nbOutputs, used, outReg);
    }
  }

  // ------------------------------------------------------- saving and restoring

  function SavedValues(used: seq<bool>, regs: nat -> int, k: nat): seq<int>
    requires |used| == NB_ASM_REGS && k <= |REG_SAVED|
  {
    if k == 0 then []
    else SavedValues(used, regs, k - 1) + if used[REG_SAVED[k - 1]] then [regs(REG_SAVED[k - 1])] else []
  }

  lemma {:induction false} ExecPushes(used: seq<bool>, k: nat, m: Machine, env: Source -> int)
    requires |used| == NB_ASM_REGS && k <= |REG_SAVED|
    ensures Exec(Pushes(used, k), m, env) == m.(stack := m.stack + SavedValues(used, m.regs, k))
  {
    if k == 0 {
      assert m.stack + [] == m.stack;
    } else {
      ExecPushes(used, k - 1, m, env);
      var r := REG_SAVED[k - 1];
      var m1 := m.(stack := m.stack + SavedValues(used, m.regs, k - 1));
      ExecAppend(Pushes(used, k - 1), if used[r] then [Push(r)] else [], m, env);
      if used[r] { ExecOne(Push(r), m1, env); }
      assert m.stack + SavedValues(used, m.regs, k) == m1.stack + if used[r] then [m.regs(r)] else [];
    }
  }

  function PopOf(used: seq<bool>, k: nat): seq<Instr>
    requires |used| == NB_ASM_REGS && k < |REG_SAVED|
  {
    if used[REG_SAVED[k]] then [Pop(REG_SAVED[k])] else []
  }

  lemma ExecPop(used: seq<bool>, k: nat, m: Machine, env: Source -> int, base: seq<int>, regs: nat -> int)
    requires |used| == NB_ASM_REGS && k < |REG_SAVED| && m.stack == base + SavedValues(used, regs, k + 1)
    ensures var m1 := Exec(PopOf(used, k), m, env);
            && m1.stack == base + SavedValues(used, regs, k) && m1.log == m.log
            && forall q: nat :: m1.regs(q) == if used[REG_SAVED[k]] && q == REG_SAVED[k] then regs(q) else m.regs(q)
  {
    var (r, rest) := (REG_SAVED[k], SavedValues(used, regs, k));
    if used[r] {
      assert m.stack == (base + rest) + [regs(r)];
      ExecOne(Pop(r), m, env);
    } else {
      assert m.stack == base + rest;
    }
  }

  /** Popping in the reverse order brings every saved register back. */
  lemma {:induction false} ExecPops(used: seq<bool>, k: nat, m: Machine, env: Source -> int, base: seq<int>,
        regs: nat -> int)
    requires |used| == NB_ASM_REGS && k <= |REG_SAVED| && m.stack == base + SavedValues(used, regs, k)
    ensures var m' := Exec(Pops(used, k), m, env);
            && m'.stack == base && m'.log == m.log
            && forall q: nat ::
                 m'.regs(q) == if q < NB_ASM_REGS && used[q] && q in REG_SAVED[..k] then regs(q) else m.regs(q)
    decreases k
  {
    if k == 0 {
      assert base + [] == base;
    } else {
      hide Exec, SavedValues;
      assert Pops(used, k) == PopOf(used, k - 1) + Pops(used, k - 1);
      hide Pops, PopOf;
      ExecPop(used, k - 1, m, env, base, regs);
      ExecAppend(PopOf(used, k - 1), Pops(used, k - 1), m, env);
      ExecPops(used, k - 1, Exec(PopOf(used, k - 1), m, env), env, base, regs);
      assert REG_SAVED[..k] == REG_SAVED[..k - 1] + [REG_SAVED[k - 1]];
    }
  }

  // ---------------------------------------------------------------------- loads

  function Writes(op: ASMOperand, i: nat, nbOutputs: nat): set<nat>
  {
    if !IsLoaded(op, i, nbOutputs) then {}
    else if op.isLlong && !(op.vt.val == VT_LLOCAL && op.isMemory) then {op.reg, XDX}
    else {op.reg}
  }

  /** What the register r of an operand is loaded with. */
  function SourceOf(op: ASMOperand, i: nat, r: nat): Source
  {
    if op.vt.val == VT_LLOCAL && op.isMemory then Pointer(i)
    else if op.isLlong && r == XDX then High(i)
    else Whole(i)
  }

  lemma ExecLoadsOf(op: ASMOperand, i: nat, nbOutputs: nat, m: Machine, env: Source -> int)
    ensures var m' := Exec(LoadsOf(op, i, nbOutputs), m, env);
            && m'.stack == m.stack && m'.log == m.log
            && forall q: nat ::
                 m'.regs(q) == if q in Writes(op, i, nbOutputs) then env(SourceOf(op, i, q)) else m.regs(q)
  {
    if IsLoaded(op, i, nbOutputs) {
      var first := if op.vt.val == VT_LLOCAL && op.isMemory then Load(op.reg, Pointer(i)) else Load(op.reg, Whole(i));
      ExecOne(first, m, env);
      if op.isLlong && first == Load(op.reg, Whole(i)) {
        ExecAppend([first], [Load(XDX, High(i))], m, env);
        ExecOne(Load(XDX, High(i)), Step(first, m, env), env);
      }
    }
  }

  /** The last operand, before the n-th, that loads register q; n if there is none. */
  function LastLoad(ops: seq<ASMOperand>, nbOutputs: nat, n: nat, q: nat): (k: nat)
    requires n <= |ops|
    ensures k <= n
    ensures k < n ==> q in Writes(ops[k], k, nbOutputs)
    ensures forall j :: (if k == n then 0 else k + 1) <= j < n ==> q !in Writes(ops[j], j, nbOutputs)
  {
    if n == 0 then 0
    else if q in Writes(ops[n - 1], n - 1, nbOutputs) then n - 1
    else
      var k := LastLoad(ops, nbOutputs, n - 1, q);
      if k == n - 1 then n else k
  }

  lemma {:induction false} ExecLoads(ops: seq<ASMOperand>, nbOutputs: nat, n: nat, m: Machine, env: Source -> int)
    requires n <= |ops|
    ensures var m' := Exec(Loads(ops, nbOutputs, n), m, env);
            && m'.stack == m.stack && m'.log == m.log
            && forall q: nat :: m'.regs(q) ==
                 var k := LastLoad(ops, nbOutputs, n, q);
                 if k < n then env(SourceOf(ops[k], k, q)) else m.regs(q)
  {
    hide LoadsOf, Writes, SourceOf;
    if n > 0 {
      ExecLoads(ops, nbOutputs, n - 1, m, env);
      var m1 := Exec(Loads(ops, nbOutputs, n - 1), m, env);
      ExecAppend(Loads(ops, nbOutputs, n - 1), LoadsOf(ops[n - 1], n - 1, nbOutputs), m, env);
      ExecLoadsOf(ops[n - 1], n - 1, nbOutputs, m1, env);
    }
  }

  // --------------------------------------------------------------------- stores

  function ExpectedOf(op: ASMOperand, i: nat, regs: nat -> int, env: Source -> int): seq<Stored>
  {
    if op.reg < 0 then []
    else if Indirect(op) then [Through(env(Pointer(i)), i, regs(op.reg))]
    else if IsIndirect(op) then []
    else [To(Whole(i), regs(op.reg))] + if op.isLlong then [To(High(i), regs(XDX))] else []
  }

  /** What the outputs should be given, from the registers as the asm text leaves them. */
  function Expected(ops: seq<ASMOperand>, n: nat, regs: nat -> int, env: Source -> int): seq<Stored>
    requires n <= |ops|
  {
    if n == 0 then [] else Expected(ops, n - 1, regs, env) + ExpectedOf(ops[n - 1], n - 1, regs, env)
  }

  predicate Disturbs(op: ASMOperand, outReg: int)
  {
    op.reg >= 0 && !(IsIndirect(op) && op.isMemory) && (op.reg == outReg || (op.isLlong && XDX == outReg))
  }

  function LastThrough(ops: seq<ASMOperand>, n: nat): (k: nat)
    requires n <= |ops|
    ensures k <= n && (k < n ==> Indirect(ops[k]))
    ensures k == n ==> forall i :: 0 <= i < n ==> !Indirect(ops[i])
  {
    if n == 0 then 0 else if Indirect(ops[n - 1]) then n - 1
    else
      var k := LastThrough(ops, n - 1);
      if k == n - 1 then n else k
  }

  /** The stores see the registers as the asm text left them, and change the scratch register only. */
  ghost predicate AfterStores(ops: seq<ASMOperand>, n: nat, outReg: int, m: Machine, m': Machine, env: Source -> int)
    requires n <= |ops|
  {
    && m'.stack == m.stack && m'.log == m.log + Expected(ops, n, m.regs, env)
    && forall q: nat ::
         m'.regs(q) == if q == outReg && LastThrough(ops, n) < n then env(Pointer(LastThrough(ops, n))) else m.regs(q)
  }

  ghost predicate AfterStoresOf(op: ASMOperand, i: nat, outReg: int, m: Machine, m': Machine, env: Source -> int)
  {
    && m'.stack == m.stack && m'.log == m.log + ExpectedOf(op, i, m.regs, env)
    && forall q: nat :: m'.regs(q) == if q == outReg && Indirect(op) then env(Pointer(i)) else m.regs(q)
  }

  lemma StoresStep(ops: seq<ASMOperand>, n: nat, outReg: int, m: Machine, m1: Machine, m': Machine, env: Source -> int)
    requires 0 < n <= |ops| && !Disturbs(ops[n - 1], outReg)
    requires AfterStores(ops, n - 1, outReg, m, m1, env) && AfterStoresOf(ops[n - 1], n - 1, outReg, m1, m', env)
    ensures AfterStores(ops, n, outReg, m, m', env)
  {
    hide ExpectedOf, Disturbs, Indirect, LastThrough;
    LastThroughStep(ops, n);
    ExpectedFrame(ops[n - 1], n - 1, outReg, m1.regs, m.regs, env);
  }

  lemma NoStores(ops: seq<ASMOperand>, outReg: int, m: Machine, env: Source -> int)
    ensures AfterStores(ops, 0, outReg, m, Exec(Stores(ops, 0, outReg), m, env), env)
  {
    assert m.log + [] == m.log;
  }

  lemma {:induction false} ExecStores(ops: seq<ASMOperand>, n: nat, outReg: int, m: Machine, env: Source -> int)
    requires n <= |ops| && ScratchGiven(ops, outReg)
    requires forall i :: 0 <= i < n ==> !Disturbs(ops[i], outReg)
    ensures AfterStores(ops, n, outReg, m, Exec(Stores(ops, n, outReg), m, env), env)
  {
    hide StoresOf, Disturbs, Exec, AfterStores, AfterStoresOf, ScratchGiven;
    if n == 0 {
      NoStores(ops, outReg, m, env);
    } else {
      ExecStores(ops, n - 1, outReg, m, env);
      var m1 := Exec(Stores(ops, n - 1, outReg), m, env);
      ExecAppend(Stores(ops, n - 1, outReg), StoresOf(ops[n - 1], n - 1, outReg), m, env);
      assert !Disturbs(ops[n - 1], outReg);
      NeedsScratch(ops, n - 1, outReg);
      ExecStoresOf(ops[n - 1], n - 1, outReg, m1, env);
      StoresStep(ops, n, outReg, m, m1, Exec(Stores(ops, n, outReg), m, env), env);
    }
  }

  lemma LastThroughStep(ops: seq<ASMOperand>, n: nat)
    requires n <= |ops|
    ensures n == 0 ==> LastThrough(ops, n) == 0
    ensures n > 0 ==>
              LastThrough(ops, n) == if Indirect(ops[n - 1]) then n - 1
                                     else if LastThrough(ops, n - 1) == n - 1 then n
                                     else LastThrough(ops, n - 1)
  {
  }

  lemma NeedsScratch(ops: seq<ASMOperand>, i: nat, outReg: int)
    requires ScratchGiven(ops, outReg) && i < |ops|
    ensures Indirect(ops[i]) ==> outReg >= 0
  {
  }

  lemma ExpectedFrame(op: ASMOperand, i: nat, outReg: int, regs: nat -> int, regs': nat -> int, env: Source -> int)
    requires !Disturbs(op, outReg) && forall q: nat :: q != outReg ==> regs(q) == regs'(q)
    ensures ExpectedOf(op, i, regs, env) == ExpectedOf(op, i, regs', env)
  {
    if op.reg >= 0 && !(IsIndirect(op) && op.isMemory) {
      assert regs(op.reg) == regs'(op.reg) && (op.isLlong ==> regs(XDX) == regs'(XDX));
    }
  }

  lemma ExecStoresOf(op: ASMOperand, i: nat, outReg: int, m: Machine, env: Source -> int)
    requires !Disturbs(op, outReg) && (Indirect(op) ==> outReg >= 0)
    ensures AfterStoresOf(op, i, outReg, m, Exec(StoresOf(op, i, outReg), m, env), env)
  {
    if op.reg < 0 {
    } else if Indirect(op) {
      var m1 := Step(Load(outReg, Pointer(i)), m, env);
      ExecAppend([Load(outReg, Pointer(i))], [StoreThrough(op.reg, outReg, i)], m, env);
      ExecOne(Load(outReg, Pointer(i)), m, env);
      ExecOne(StoreThrough(op.reg, outReg, i), m1, env);
    } else if !IsIndirect(op) {
      ExecOne(Store(op.reg, Whole(i)), m, env);
      if op.isLlong {
        ExecAppend([Store(op.reg, Whole(i))], [Store(XDX, High(i))], m, env);
        ExecOne(Store(XDX, High(i)), Step(Store(op.reg, Whole(i)), m, env), env);
      }
    }
  }

  // ------------------------------------------------------------------- theorems

  /** rbx and r12 to r15, which the calling convention makes the callee preserve. */
  predicate CalleeSaved(r: nat): (b: bool)
    ensures b ==> r < NB_ASM_REGS
  {
    r in {3, 12, 13, 14, 15}
  }

  /** A register that is neither declared to be clobbered nor given to an operand. */
  predicate Untold(ops: seq<ASMOperand>, clobberRegs: seq<bool>, r: nat)
    requires |clobberRegs| == NB_ASM_REGS && r < NB_ASM_REGS
  {
    !clobberRegs[r] && forall i :: 0 <= i < |ops| ==> ops[i].reg != r
  }

  lemma UsedIsTold(ops: seq<ASMOperand>, clobberRegs: seq<bool>, r: nat)
    requires |clobberRegs| == NB_ASM_REGS && r < NB_ASM_REGS
    ensures Used(ops, clobberRegs)[r] <==> !Untold(ops, clobberRegs, r)
  {
  }

  /** What the asm text is relied on for: it leaves the stack as it found it, and of the registers
      to be preserved it changes only those that it declares or is given. */
  ghost predicate BodyKeeps(m: Machine, m': Machine, ops: seq<ASMOperand>, clobberRegs: seq<bool>)
    requires |clobberRegs| == NB_ASM_REGS
  {
    && m'.stack == m.stack
    && forall r: nat :: CalleeSaved(r) && Untold(ops, clobberRegs, r) ==> m'.regs(r) == m.regs(r)
  }

  ghost predicate Preserves(m: Machine, m': Machine)
  {
    m'.stack == m.stack && forall r: nat :: CalleeSaved(r) ==> m'.regs(r) == m.regs(r)
  }

  function Prolog(ops: seq<ASMOperand>, nbOutputs: nat, used: seq<bool>): seq<Instr>
    requires |used| == NB_ASM_REGS
  {
    Pushes(used, |REG_SAVED|) + Loads(ops, nbOutputs, |ops|)
  }

  function Epilog(ops: seq<ASMOperand>, nbOutputs: nat, used: seq<bool>, outReg: int): seq<Instr>
    requires |used| == NB_ASM_REGS && nbOutputs <= |ops|
  {
    Stores(ops, nbOutputs, outReg) + Pops(used, |REG_SAVED|)
  }

  /** The statement leaves the stack and the registers to be preserved as they were. */
  ghost predicate StatementPreserves(ops: seq<ASMOperand>, nbOutputs: nat, clobberRegs: seq<bool>, outReg: int,
        m: Machine, body: Machine, env: Source -> int)
    requires |clobberRegs| == NB_ASM_REGS && nbOutputs <= |ops|
  {
    var used := Used(ops, clobberRegs);
    BodyKeeps(Exec(Prolog(ops, nbOutputs, used), m, env), body, ops, clobberRegs) ==>
      Preserves(m, Exec(Epilog(ops, nbOutputs, used, outReg), body, env))
  }

  /** The scratch register is one to be preserved, and is loaded without having been saved. */
  predicate ScratchSpoils(ops: seq<ASMOperand>, nbOutputs: nat, clobberRegs: seq<bool>, outReg: int)
    requires |clobberRegs| == NB_ASM_REGS && nbOutputs <= |ops|
  {
    && 0 <= outReg < NB_ASM_REGS && CalleeSaved(outReg) && Untold(ops, clobberRegs, outReg)
    && exists i :: 0 <= i < nbOutputs && Indirect(ops[i])
  }

  /** The registers that the loads change are marked as used, XDX apart. */
  lemma LoadsAreUsed(ops: seq<ASMOperand>, nbOutputs: nat, clobberRegs: seq<bool>, k: nat, q: nat)
    requires |clobberRegs| == NB_ASM_REGS && k < |ops| && q in Writes(ops[k], k, nbOutputs) && CalleeSaved(q)
    requires ops[k].reg < NB_ASM_REGS
    ensures q < NB_ASM_REGS && Used(ops, clobberRegs)[q]
  {
  }

  lemma AfterProlog(ops: seq<ASMOperand>, nbOutputs: nat, clobberRegs: seq<bool>, m: Machine, env: Source -> int)
    requires |clobberRegs| == NB_ASM_REGS && forall i :: 0 <= i < |ops| ==> ops[i].reg < NB_ASM_REGS
    ensures var used := Used(ops, clobberRegs);
            var m1 := Exec(Prolog(ops, nbOutputs, used), m, env);
            && m1.stack == m.stack + SavedValues(used, m.regs, |REG_SAVED|)
            && forall r: nat :: CalleeSaved(r) && !used[r] ==> m1.regs(r) == m.regs(r)
  {
    hide Pushes, SavedValues, Loads, Writes, Exec, Used, LastLoad;
    var used := Used(ops, clobberRegs);
    var m0 := Exec(Pushes(used, |REG_SAVED|), m, env);
    ExecPushes(used, |REG_SAVED|, m, env);
    ExecAppend(Pushes(used, |REG_SAVED|), Loads(ops, nbOutputs, |ops|), m, env);
    ExecLoads(ops, nbOutputs, |ops|, m0, env);
    var m1 := Exec(Prolog(ops, nbOutputs, used), m, env);
    forall r: nat | CalleeSaved(r) && !used[r] ensures m1.regs(r) == m.regs(r) {
      var k := LastLoad(ops, nbOutputs, |ops|, r);
      if k < |ops| { LoadsAreUsed(ops, nbOutputs, clobberRegs, k, r); }
    }
  }

  lemma SavedInRange(r: nat)
    ensures (r in REG_SAVED <==> CalleeSaved(r)) && (r in REG_SAVED ==> r < NB_ASM_REGS)
  {
  }

  lemma AfterEpilog(ops: seq<ASMOperand>, nbOutputs: nat, used: seq<bool>, outReg: int, m: Machine,
        env: Source -> int, base: seq<int>, regs: nat -> int)
    requires |used| == NB_ASM_REGS && nbOutputs <= |ops| && ScratchGiven(ops, outReg)
    requires forall i :: 0 <= i < nbOutputs ==> !Disturbs(ops[i], outReg)
    requires m.stack == base + SavedValues(used, regs, |REG_SAVED|)
    ensures var m' := Exec(Epilog(ops, nbOutputs, used, outReg), m, env);
            && m'.stack == base && m'.log == m.log + Expected(ops, nbOutputs, m.regs, env)
            && forall q: nat :: m'.regs(q) ==
                 if q in REG_SAVED && q < NB_ASM_REGS && used[q] then regs(q)
                 else if q == outReg && LastThrough(ops, nbOutputs) < nbOutputs
                 then env(Pointer(LastThrough(ops, nbOutputs)))
                 else m.regs(q)
  {
    hide Pops, SavedValues, Stores, Exec, Expected, Disturbs, ScratchGiven;
    var m1 := Exec(Stores(ops, nbOutputs, outReg), m, env);
    ExecAppend(Stores(ops, nbOutputs, outReg), Pops(used, |REG_SAVED|), m, env);
    ExecStores(ops, nbOutputs, outReg, m, env);
    ExecPops(used, |REG_SAVED|, m1, env, base, regs);
    assert REG_SAVED[..|REG_SAVED|] == REG_SAVED;
  }

  /** Main result, and a limit of the code generated: pushes and pops balance and every statement
      leaves the registers to be preserved as they were, exactly unless an output is stored
      through a scratch register that is one of them and was not saved, because it is neither
      clobbered nor given to an operand. */
  lemma PreservesIff(ops: seq<ASMOperand>, nbOutputs: nat, clobberRegs: seq<bool>, outReg: int)
    requires |clobberRegs| == NB_ASM_REGS && nbOutputs <= |ops| && ScratchGiven(ops, outReg) && outReg < NB_ASM_REGS
    requires forall i :: 0 <= i < |ops| ==> ops[i].reg < NB_ASM_REGS
    requires forall i :: 0 <= i < nbOutputs ==> !Disturbs(ops[i], outReg)
    ensures (forall m, body, env :: StatementPreserves(ops, nbOutputs, clobberRegs, outReg, m, body, env))
            <==> !ScratchSpoils(ops, nbOutputs, clobberRegs, outReg)
  {
    var used := Used(ops, clobberRegs);
    forall r: nat | r < NB_ASM_REGS ensures used[r] <==> !Untold(ops, clobberRegs, r) {
      UsedIsTold(ops, clobberRegs, r);
    }
    hide Prolog, Epilog, Exec, SavedValues, Used, Disturbs, ScratchGiven, Indirect, Untold;
    var k := LastThrough(ops, nbOutputs);
    if ScratchSpoils(ops, nbOutputs, clobberRegs, outReg) {
      var m := Machine((_: nat) => 0, [], []);
      var env := (s: Source) => 1;
      var body := Exec(Prolog(ops, nbOutputs, used), m, env);
      AfterProlog(ops, nbOutputs, clobberRegs, m, env);
      AfterEpilog(ops, nbOutputs, used, outReg, body, env, [], m.regs);
      assert !StatementPreserves(ops, nbOutputs, clobberRegs, outReg, m, body, env);
    } else {
      forall m, body, env ensures StatementPreserves(ops, nbOutputs, clobberRegs, outReg, m, body, env) {
        if BodyKeeps(Exec(Prolog(ops, nbOutputs, used), m, env), body, ops, clobberRegs) {
          AfterProlog(ops, nbOutputs, clobberRegs, m, env);
          AfterEpilog(ops, nbOutputs, used, outReg, body, env, m.stack, m.regs);
          forall r: nat | CalleeSaved(r)
            ensures Exec(Epilog(ops, nbOutputs, used, outReg), body, env).regs(r) == m.regs(r)
          {
            SavedInRange(r);
          }
        }
      }
    }
  }

  // ---------------------------------------------- with the registers allocated

  lemma RegistersExist(b: Board, clobberRegs: seq<bool>, nbOutputs: nat)
    requires Allocated(b, clobberRegs, nbOutputs)
    ensures forall i :: 0 <= i < |b.ops| ==> b.ops[i].reg < NB_ASM_REGS
  {
    forall i | 0 <= i < |b.ops| ensures b.ops[i].reg < NB_ASM_REGS {
      if b.ops[i].reg >= 0 { SharedRegisters(b, clobberRegs, nbOutputs, i, i); }
    }
  }

  lemma MemoryIsIndirect(b: Board, clobberRegs: seq<bool>, nbOutputs: nat, j: nat)
    requires Allocated(b, clobberRegs, nbOutputs) && j < |b.ops| && b.ops[j].isMemory
    ensures IsIndirect(b.ops[j])
  {
    hide Booked, Paired;
    assert StateOf(b, nbOutputs, Direct(b.ops), j);
    assert Served(b, nbOutputs, j);
    assert {XAX, XDX} != {b.ops[j].reg} by { assert XAX in {XAX, XDX} && XDX in {XAX, XDX}; }
  }

  lemma ScratchDisturbsNothing(b: Board, clobberRegs: seq<bool>, nbOutputs: nat, outReg: int, i: nat)
    requires Allocated(b, clobberRegs, nbOutputs) && i < nbOutputs <= |b.ops|
    requires outReg == -1 || (0 <= outReg < NB_ASM_REGS && Out !in b.taken[outReg])
    ensures !Disturbs(b.ops[i], outReg)
  {
    hide Allocated;
    if b.ops[i].isMemory {
      MemoryIsIndirect(b, clobberRegs, nbOutputs, i);
    } else if b.ops[i].reg >= 0 && outReg >= 0 {
      ScratchCarriesNoOutput(b, clobberRegs, nbOutputs, outReg, i);
    }
  }

  /** Main result: with the registers as allocated, every output is given what the asm text left
      in its register, although the scratch register is loaded in between. */
  lemma OutputsStored(b: Board, clobberRegs: seq<bool>, nbOutputs: nat, outReg: int, m: Machine, env: Source -> int,
        base: seq<int>, regs: nat -> int)
    requires Allocated(b, clobberRegs, nbOutputs) && nbOutputs <= |b.ops|
    requires outReg == -1 <==> forall i :: 0 <= i < |b.ops| ==> !Indirect(b.ops[i])
    requires outReg == -1 || (0 <= outReg < NB_ASM_REGS && Out !in b.taken[outReg])
    requires var used := Used(b.ops, clobberRegs); m.stack == base + SavedValues(used, regs, |REG_SAVED|)
    ensures var m' := Exec(Epilog(b.ops, nbOutputs, Used(b.ops, clobberRegs), outReg), m, env);
            m'.log == m.log + Expected(b.ops, nbOutputs, m.regs, env) && m'.stack == base
  {
    assert |clobberRegs| == NB_ASM_REGS;
    hide Epilog, Exec, SavedValues, Used, Disturbs, Expected, Allocated;
    forall i | 0 <= i < nbOutputs ensures !Disturbs(b.ops[i], outReg) {
      ScratchDisturbsNothing(b, clobberRegs, nbOutputs, outReg, i);
    }
    assert ScratchGiven(b.ops, outReg) by {
      if outReg == -1 { assert forall i :: 0 <= i < |b.ops| ==> !Indirect(b.ops[i]); }
    }
    AfterEpilog(b.ops, nbOutputs, Used(b.ops, clobberRegs), outReg, m, env, base, regs);
  }

  /** With the registers as allocated, the scratch register is the only thing that can spoil the
      registers to be preserved. */
  lemma AllocatedPreservesIff(b: Board, clobberRegs: seq<bool>, nbOutputs: nat, outReg: int)
    requires Allocated(b, clobberRegs, nbOutputs) && nbOutputs <= |b.ops| && |clobberRegs| == NB_ASM_REGS
    requires outReg == -1 <==> forall i :: 0 <= i < |b.ops| ==> !Indirect(b.ops[i])
    requires outReg == -1 || (0 <= outReg < NB_ASM_REGS && Out !in b.taken[outReg])
    ensures (forall m, body, env :: StatementPreserves(b.ops, nbOutputs, clobberRegs, outReg, m, body, env))
            <==> !ScratchSpoils(b.ops, nbOutputs, clobberRegs, outReg)
  {
    hide Disturbs, Allocated, StatementPreserves, ScratchSpoils, Used;
    forall i | 0 <= i < nbOutputs ensures !Disturbs(b.ops[i], outReg) {
      ScratchDisturbsNothing(b, clobberRegs, nbOutputs, outReg, i);
    }
    RegistersExist(b, clobberRegs, nbOutputs);
    assert ScratchGiven(b.ops, outReg) by {
      if outReg == -1 { assert forall i :: 0 <= i < |b.ops| ==> !Indirect(b.ops[i]); }
    }
    PreservesIff(b.ops, nbOutputs, clobberRegs, outReg);
  }

  // ------------------------------------------------- inputs after the prolog

  /** A reference to an operand that is reached through a pointer shares the register of that
      pointer, and may be left marked as one of two registers. */
  predicate Stale(ops: seq<ASMOperand>, k: nat)
    requires k < |ops|
  {
    ops[k].isLlong && ops[k].reg >= 0 && 0 <= ops[k].refIndex < |ops| && ops[ops[k].refIndex].isMemory
  }

  /** The registers that an operand was given, or shares with the one it refers to. */
  function Assigned(ops: seq<ASMOperand>, i: nat): set<nat>
    requires i < |ops|
  {
    if ops[i].reg < 0 then {}
    else if ops[i].isLlong && !ops[i].isMemory && !Stale(ops, i) then {ops[i].reg, XDX}
    else {ops[i].reg}
  }

  /** What an operand should be found as in its register r. */
  function Wanted(ops: seq<ASMOperand>, i: nat, r: nat): Source
    requires i < |ops|
  {
    if ops[i].isMemory then Pointer(i) else if ops[i].isLlong && !Stale(ops, i) && r == XDX then High(i) else Whole(i)
  }

  /** The operand that refers to this one is in a register, or a stale mark makes a load of XDX. */
  ghost predicate LoadedOver(ops: seq<ASMOperand>, i: nat, r: nat)
    requires i < |ops|
  {
    || (0 <= ops[i].inputIndex < |ops| && ops[ops[i].inputIndex].reg >= 0)
    || (r == XDX && exists k :: i <= k < |ops| && Stale(ops, k))
  }

  ghost predicate InPlace(ops: seq<ASMOperand>, nbOutputs: nat, used: seq<bool>, r: nat, source: Source,
      m: Machine, env: Source -> int)
    requires |used| == NB_ASM_REGS
  {
    Exec(Prolog(ops, nbOutputs, used), m, env).regs(r) == env(source)
  }

  /** The operand and, for a reference, the one that it refers to. */
  function Owner(ops: seq<ASMOperand>, i: nat): int
    requires i < |ops|
  {
    if ops[i].refIndex == -1 then i else ops[i].refIndex
  }

  /** What an operand that is loaded was given, it holds as an input. */
  lemma AssignedIsInput(b: Board, clobberRegs: seq<bool>, nbOutputs: nat, i: nat, r: nat)
    requires Allocated(b, clobberRegs, nbOutputs)
    requires i < |b.ops| && IsLoaded(b.ops[i], i, nbOutputs) && r in Assigned(b.ops, i)
    ensures var k := Owner(b.ops, i);
            && 0 <= k < |b.ops| && b.ops[k].refIndex == -1 && (k != i ==> b.ops[k].inputIndex == i && k < i)
            && Holds(b.claims, k, r) && In in UsesOf(b.claims, k)
  {
    hide Booked, Fits;
    AssignedIsHeld(b, clobberRegs, nbOutputs, i);
    if b.ops[i].isMemory { MemoryIsIndirect(b, clobberRegs, nbOutputs, i); }
    var k := Owner(b.ops, i);
    assert StateOf(b, nbOutputs, Direct(b.ops), i) && StateOf(b, nbOutputs, Direct(b.ops), k);
    assert Served(b, nbOutputs, k);
    if k != i { assert Following(b, i, Direct(b.ops)); }
  }

  /** What the load of an operand writes it was given, unless it is stale. */
  lemma WritesAssigned(b: Board, clobberRegs: seq<bool>, nbOutputs: nat, i: nat, r: nat)
    requires Allocated(b, clobberRegs, nbOutputs) && i < |b.ops|
    ensures r in Writes(b.ops[i], i, nbOutputs) <==>
              IsLoaded(b.ops[i], i, nbOutputs) && (r in Assigned(b.ops, i) || (Stale(b.ops, i) && r == XDX))
    ensures r in Assigned(b.ops, i) && !(r == XDX && Stale(b.ops, i)) ==>
              SourceOf(b.ops[i], i, r) == Wanted(b.ops, i, r)
    ensures Stale(b.ops, i) ==> SourceOf(b.ops[i], i, XDX) == High(i) && Wanted(b.ops, i, XDX) == Whole(i)
  {
    hide Booked, Fits;
    if b.ops[i].isMemory { MemoryIsIndirect(b, clobberRegs, nbOutputs, i); }
    assert StateOf(b, nbOutputs, Direct(b.ops), i);
    if b.ops[i].refIndex != -1 { assert Following(b, i, Direct(b.ops)); }
    DirectIndirect(b, clobberRegs, nbOutputs, i);
  }

  /** Only a pointer is loaded for an operand in memory; the value of any other. */
  lemma DirectIndirect(b: Board, clobberRegs: seq<bool>, nbOutputs: nat, i: nat)
    requires Allocated(b, clobberRegs, nbOutputs) && i < |b.ops|
    ensures b.ops[i].isMemory ==> b.ops[i].refIndex == -1
  {
    hide Booked, Fits;
    assert StateOf(b, nbOutputs, Direct(b.ops), i);
  }

  /** Two operands that are loaded share what they were given only as a matched pair. */
  lemma LoadsApart(b: Board, clobberRegs: seq<bool>, nbOutputs: nat, i: nat, k: nat, r: nat)
    requires Allocated(b, clobberRegs, nbOutputs) && i < k < |b.ops|
    requires IsLoaded(b.ops[i], i, nbOutputs) && r in Assigned(b.ops, i)
    requires IsLoaded(b.ops[k], k, nbOutputs) && r in Assigned(b.ops, k)
    ensures b.ops[i].inputIndex == k
  {
    hide Allocated, Assigned, IsLoaded;
    AssignedIsInput(b, clobberRegs, nbOutputs, i, r);
    AssignedIsInput(b, clobberRegs, nbOutputs, k, r);
    var (i', k') := (Owner(b.ops, i), Owner(b.ops, k));
    if i' != k' { HeldApart(b, clobberRegs, nbOutputs, i', k', r); }
  }

  lemma HeldApart(b: Board, clobberRegs: seq<bool>, nbOutputs: nat, i: nat, k: nat, r: nat)
    requires Allocated(b, clobberRegs, nbOutputs) && Holds(b.claims, i, r) && Holds(b.claims, k, r)
    requires In in UsesOf(b.claims, i) && In in UsesOf(b.claims, k)
    ensures i == k
  {
    hide StateOf, Paired;
    assert In in UsesOf(b.claims, i) * UsesOf(b.claims, k);
    assert In in UsesOf(b.claims, k) * UsesOf(b.claims, i);
  }

  /** A reference that is in a register is loaded over the operand it refers to. */
  lemma MatchedLoadsOver(b: Board, clobberRegs: seq<bool>, nbOutputs: nat, i: nat, r: nat)
    requires Allocated(b, clobberRegs, nbOutputs) && i < |b.ops|
    requires IsLoaded(b.ops[i], i, nbOutputs) && r in Assigned(b.ops, i)
    requires 0 <= b.ops[i].inputIndex < |b.ops| && b.ops[b.ops[i].inputIndex].reg >= 0
    ensures i < b.ops[i].inputIndex && r in Writes(b.ops[b.ops[i].inputIndex], b.ops[i].inputIndex, nbOutputs)
  {
    hide Booked, Fits;
    var k := b.ops[i].inputIndex;
    AssignedIsHeld(b, clobberRegs, nbOutputs, k);
    assert StateOf(b, nbOutputs, Direct(b.ops), k);
    assert Following(b, k, Direct(b.ops));
    PairIs(b.ops, nbOutputs, i, k);
  }

  /** What the prolog leaves in a register: what the last load of it brought. */
  lemma LastLoadIs(ops: seq<ASMOperand>, nbOutputs: nat, used: seq<bool>, i: nat, r: nat, m: Machine,
        env: Source -> int)
    returns (k: nat)
    requires |used| == NB_ASM_REGS && i < |ops| && r in Writes(ops[i], i, nbOutputs)
    ensures k == LastLoad(ops, nbOutputs, |ops|, r)
    ensures i <= k < |ops| && r in Writes(ops[k], k, nbOutputs)
    ensures forall j :: i <= j < |ops| && r in Writes(ops[j], j, nbOutputs) ==> j <= k
    ensures Exec(Prolog(ops, nbOutputs, used), m, env).regs(r) == env(SourceOf(ops[k], k, r))
  {
    hide Pushes, Loads, Exec, SourceOf, SavedValues, Writes;
    var m0 := Exec(Pushes(used, |REG_SAVED|), m, env);
    ExecPushes(used, |REG_SAVED|, m, env);
    ExecAppend(Pushes(used, |REG_SAVED|), Loads(ops, nbOutputs, |ops|), m, env);
    ExecLoads(ops, nbOutputs, |ops|, m0, env);
    k := LastLoad(ops, nbOutputs, |ops|, r);
  }

  /** The last load of a register of operand i is another's exactly if it is loaded over. */
  lemma LastIsOther(b: Board, clobberRegs: seq<bool>, nbOutputs: nat, i: nat, r: nat, k: nat)
    requires Allocated(b, clobberRegs, nbOutputs) && i <= k < |b.ops|
    requires IsLoaded(b.ops[i], i, nbOutputs) && r in Assigned(b.ops, i) && r in Writes(b.ops[k], k, nbOutputs)
    requires forall j :: i <= j < |b.ops| && r in Writes(b.ops[j], j, nbOutputs) ==> j <= k
    ensures SourceOf(b.ops[k], k, r) == Wanted(b.ops, i, r) <==> !LoadedOver(b.ops, i, r)
  {
    hide Allocated, Assigned, IsLoaded, Writes, Wanted, SourceOf, Stale;
    WritesAssigned(b, clobberRegs, nbOutputs, k, r);
    WritesAssigned(b, clobberRegs, nbOutputs, i, r);
    if 0 <= b.ops[i].inputIndex < |b.ops| && b.ops[b.ops[i].inputIndex].reg >= 0 {
      MatchedLoadsOver(b, clobberRegs, nbOutputs, i, r);
    }
    if r == XDX {
      forall j | i <= j < |b.ops| && Stale(b.ops, j) ensures j <= k {
        WritesAssigned(b, clobberRegs, nbOutputs, j, r);
        StaleIsLoaded(b, clobberRegs, nbOutputs, j);
      }
    }
    SourcesDiffer(b.ops, i, k, r);
    if k != i && r in Assigned(b.ops, k) {
      LoadsApart(b, clobberRegs, nbOutputs, i, k, r);
      RegisterOf(b.ops[k], k, nbOutputs, r);
    }
  }

  lemma SourcesDiffer(ops: seq<ASMOperand>, i: nat, k: nat, r: nat)
    requires i < |ops| && k < |ops|
    ensures i != k ==> SourceOf(ops[k], k, r) != Wanted(ops, i, r)
  {
  }

  lemma RegisterOf(op: ASMOperand, k: nat, nbOutputs: nat, r: nat)
    requires r in Writes(op, k, nbOutputs)
    ensures op.reg >= 0
  {
  }

  lemma StaleIsLoaded(b: Board, clobberRegs: seq<bool>, nbOutputs: nat, k: nat)
    requires Allocated(b, clobberRegs, nbOutputs) && k < |b.ops| && Stale(b.ops, k)
    ensures IsLoaded(b.ops[k], k, nbOutputs)
  {
    hide Booked, StateOf;
  }

  /** Main result, and a limit of the code generated: with the registers as allocated, an operand
      that is loaded is in its registers after the prolog, for all values and from every state,
      exactly unless the operand that refers to it is in a register, so that it is loaded over, or
      XDX is loaded for an operand that is wrongly marked as one of two registers. */
  lemma InputsLoadedIff(b: Board, clobberRegs: seq<bool>, nbOutputs: nat, i: nat, r: nat)
    requires Allocated(b, clobberRegs, nbOutputs) && |clobberRegs| == NB_ASM_REGS
    requires i < |b.ops| && (i >= nbOutputs || b.ops[i].isRw || b.ops[i].isMemory) && r in Assigned(b.ops, i)
    ensures (forall m, env :: InPlace(b.ops, nbOutputs, Used(b.ops, clobberRegs), r, Wanted(b.ops, i, r), m, env))
            <==> !LoadedOver(b.ops, i, r)
  {
    if b.ops[i].isMemory { MemoryIsIndirect(b, clobberRegs, nbOutputs, i); }
    assert IsLoaded(b.ops[i], i, nbOutputs);
    hide Allocated, Prolog, Exec, SourceOf, Wanted, LoadedOver, Assigned, Writes, IsLoaded, LastLoad, Stale;
    var used := Used(b.ops, clobberRegs);
    hide Used;
    WritesAssigned(b, clobberRegs, nbOutputs, i, r);
    var source := Wanted(b.ops, i, r);
    var (m0, env0) := (Machine((_: nat) => 0, [], []), (s: Source) => if s == source then 0 else 1);
    var last := LastLoadIs(b.ops, nbOutputs, used, i, r, m0, env0);
    LastIsOther(b, clobberRegs, nbOutputs, i, r, last);
    if !LoadedOver(b.ops, i, r) {
      forall m, env ensures InPlace(b.ops, nbOutputs, used, r, source, m, env) {
        var k := LastLoadIs(b.ops, nbOutputs, used, i, r, m, env);
      }
    } else {
      assert !InPlace(b.ops, nbOutputs, used, r, source, m0, env0);
    }
  }

  // ----------------------------------------------------- two inputs that fail

  /** `"=m"(*p)` with the pointer in memory, and `"0"(x)`. */
  function PointerAndValue(): seq<ASMOperand>
  {
    var local := CValue(VT_LOCAL, true, false, None);
    [ASMOperand(None, "=m", local.(val := VT_LLOCAL), -1, -1, 0, -1, false, false, false),
     ASMOperand(None, "0", local, -1, -1, 0, -1, false, false, false)]
  }

  lemma MatchedIsFirst(ops: seq<ASMOperand>)
    requires SameSources(ops, PointerAndValue()) && Resolved(ops)
    ensures ops[0].refIndex == -1 && ops[1].refIndex == 0
  {
    assert ops[0].constraint == "=m" && ops[1].constraint == "0";
    assert SkipModifiers("=m") == "m" by { assert "=m"[1..] == "m"; }
    assert SkipModifiers("0") == "0" && IsReference("0");
    assert Number("0", 0) == 0 by { assert Number("0"[1..], 0) == 0; }
  }

  /** However they are allocated, the value of x is where the asm text expects the pointer. */
  lemma MatchedMemoryCounterexample(b: Board, clobberRegs: seq<bool>)
    requires |clobberRegs| == NB_ASM_REGS && Allocated(b, clobberRegs, 1)
    requires SameSources(b.ops, PointerAndValue()) && Resolved(b.ops)
    ensures b.ops[0].isMemory && b.ops[0].reg >= 0 && b.ops[1].reg == b.ops[0].reg
    ensures exists m, env :: !InPlace(b.ops, 1, Used(b.ops, clobberRegs), b.ops[0].reg, Pointer(0), m, env)
  {
    hide Used, Exec, Booked, FindConstraint, Resolved, InPlace;
    MatchedIsFirst(b.ops);
    assert StateOf(b, 1, Direct(b.ops), 0) && StateOf(b, 1, Direct(b.ops), 1);
    assert Served(b, 1, 0) && Following(b, 1, Direct(b.ops));
    assert b.ops[0].constraint == "=m" && "=m"[0] == '=' && "=m"[1] == 'm';
    assert b.ops[0].vt == PointerAndValue()[0].vt;
    InputsLoadedIff(b, clobberRegs, 1, 0, b.ops[0].reg);
  }

  /** No register is clobbered. */
  function NoClobbers(): seq<bool> { seq(NB_ASM_REGS, _ => false) }

  /** They can be allocated, in eax. */
  lemma PointerAndValueAllocated() returns (b: Board)
    ensures Allocated(b, NoClobbers(), 1) && SameSources(b.ops, PointerAndValue()) && Resolved(b.ops)
  {
    var ops := PointerAndValue();
    b := Board([ops[0].(inputIndex := 1, reg := XAX, isMemory := true), ops[1].(refIndex := 0, reg := XAX)],
               [Claim({XAX}, {In}), NOTHING], Take(Base(NoClobbers()), {XAX}, {In}));
    assert b.ops[0].constraint == "=m" && "=m"[1] == 'm';
    assert FitsAt(b.ops[0], true, b.claims[0], 1);
    assert Served(b, 1, 0) && Following(b, 1, Direct(b.ops));
    assert StateOf(b, 1, Direct(b.ops), 0) && StateOf(b, 1, Direct(b.ops), 1);
    assert Holds(b.claims, 0, XAX) && HoldsFor(b.claims, 0, XAX, In);
    SkippedModifiers();
    hide SkipModifiers, Allocated;
    assert Number("0", 0) == 0 by { assert Number("0"[1..], 0) == 0; }
  }

  lemma SkippedModifiers()
    ensures SkipModifiers("=m") == "m" && SkipModifiers("0") == "0"
  {
    assert "=m"[1..] == "m";
  }

  /** `"=m"(*p)` with the pointer in memory, `"d"(y)` and `"0"(x)`. */
  function MarkedPair(): seq<ASMOperand>
  {
    var ops := PointerAndValue();
    [ops[0].(isLlong := true), ops[1].(constraint := "d"), ops[1]]
  }

  /** If the first one was left marked as a pair, y is lost in edx. */
  lemma StaleMarkCounterexample(b: Board, clobberRegs: seq<bool>)
    requires |clobberRegs| == NB_ASM_REGS && Allocated(b, clobberRegs, 1)
    requires SameSources(b.ops, MarkedPair()) && Resolved(b.ops) && b.ops[0].isLlong
    ensures b.ops[1].reg == XDX
    ensures exists m, env :: !InPlace(b.ops, 1, Used(b.ops, clobberRegs), XDX, Whole(1), m, env)
  {
    hide Used, Exec, Booked, FindConstraint, InPlace, Paired, SkipModifiers;
    MarkedShape(b.ops);
    hide Resolved, SameSources;
    assert StateOf(b, 1, Direct(b.ops), 0) && StateOf(b, 1, Direct(b.ops), 1) && StateOf(b, 1, Direct(b.ops), 2);
    assert 0 in Direct(b.ops) && 1 in Direct(b.ops);
    assert Served(b, 1, 0) && Served(b, 1, 1) && Following(b, 2, Direct(b.ops));
    hide Allocated;
    assert {XAX, XDX} != {XDX} by { assert XAX in {XAX, XDX}; }
    assert Stale(b.ops, 2) && LoadedOver(b.ops, 1, XDX);
    assert XDX in Assigned(b.ops, 1);
    InputsLoadedIff(b, clobberRegs, 1, 1, XDX);
  }

  lemma MarkedShape(ops: seq<ASMOperand>)
    requires SameSources(ops, MarkedPair()) && Resolved(ops)
    ensures |ops| == 3 && ops[0].refIndex == -1 && ops[1].refIndex == -1 && ops[2].refIndex == 0
    ensures ops[0].constraint == "=m" && ops[1].constraint == "d"
    ensures ops[0].vt == MarkedPair()[0].vt && ops[1].vt == MarkedPair()[1].vt
  {
    assert ops[0].constraint == "=m" && ops[1].constraint == "d" && ops[2].constraint == "0";
    SkippedModifiers();
    assert SkipModifiers("d") == "d" && !IsReference("d") && IsReference("0");
    assert Number("0", 0) == 0 by { assert Number("0"[1..], 0) == 0; }
  }

  /** They can be allocated so. */
  lemma MarkedPairAllocated() returns (b: Board)
    ensures Allocated(b, NoClobbers(), 1) && SameSources(b.ops, MarkedPair()) && Resolved(b.ops) && b.ops[0].isLlong
  {
    var (ops, base) := (MarkedPair(), Base(NoClobbers()));
    b := Board([ops[0].(inputIndex := 2, reg := XAX, isMemory := true), ops[1].(reg := XDX),
                ops[2].(refIndex := 0, reg := XAX, isLlong := true)],
               [Claim({XAX}, {In}), Claim({XDX}, {In}), NOTHING],
               Take(Take(base, {XAX}, {In}), {XDX}, {In}));
    assert Booked(b.taken, base, b.claims) by { TwoClaims(b.claims); }
    MarkedResolved(b.ops);
    hide Booked, Resolved, SkipModifiers, Base, Take;
    assert FitsAt(b.ops[0], true, b.claims[0], 1) && FitsAt(b.ops[1], false, b.claims[1], 0);
    assert b.ops[0].constraint == "=m" && b.ops[1].constraint == "d";
    assert Served(b, 1, 0) && Served(b, 1, 1) && Following(b, 2, Direct(b.ops));
    assert StateOf(b, 1, Direct(b.ops), 0) && StateOf(b, 1, Direct(b.ops), 1) && StateOf(b, 1, Direct(b.ops), 2);
  }

  lemma TwoClaims(claims: seq<Claim>)
    requires claims == [Claim({XAX}, {In}), Claim({XDX}, {In}), NOTHING]
    ensures var base := Base(NoClobbers());
            Booked(Take(Take(base, {XAX}, {In}), {XDX}, {In}), base, claims)
  {
    var base := Base(NoClobbers());
    var taken1 := Take(base, {XAX}, {In});
    var claims0 := [NOTHING, NOTHING, NOTHING];
    var claims1 := claims0[0 := claims[0]];
    assert Booked(base, base, claims0);
    assert base[XAX] == {} && taken1[XDX] == {};
    hide Booked, Base, Take;
    BookKept(base, base, claims0, 0, claims[0]);
    BookKept(taken1, base, claims1, 1, claims[1]);
    assert claims1[1 := claims[1]] == claims;
  }

  lemma MarkedResolved(ops: seq<ASMOperand>)
    requires SameSources(ops, MarkedPair()) && ops[0].refIndex == -1 && ops[1].refIndex == -1 && ops[2].refIndex == 0
    ensures Resolved(ops)
  {
    assert ops[0].constraint == "=m" && ops[1].constraint == "d" && ops[2].constraint == "0";
    SkippedModifiers();
    assert SkipModifiers("d") == "d" && !IsReference("d") && IsReference("0");
    assert Number("0", 0) == 0 by { assert Number("0"[1..], 0) == 0; }
  }

  /** `"=&r"(x)` for a register variable in ebx, and `"b"(y)`. */
  function ClobberedVariable(): seq<ASMOperand>
  {
    var local := CValue(VT_LOCAL, true, true, None);
    [ASMOperand(None, "=&r", local.(symReg := Some(3)), -1, -1, 1, 3, false, false, false),
     ASMOperand(None, "b", local, -1, -1, 1, 3, false, false, false)]
  }

  /** The modifiers of a register variable are not read: the early clobber is lost. */
  lemma RegvarClobberCounterexample() returns (b: Board)
    ensures Allocated(b, NoClobbers(), 1) && Resolved(b.ops) && b.ops == ClobberedVariable()
    ensures IsEarly(b.ops[0].constraint) && b.ops[0].reg == b.ops[1].reg == 3 && !Matched(b.ops, 0, 1)
  {
    var ops := ClobberedVariable();
    b := Board(ops, [Claim({3}, {Out}), Claim({3}, {In})],
               Take(Take(Base(NoClobbers()), {3}, {Out}), {3}, {In}));
    assert Booked(b.taken, Base(NoClobbers()), b.claims) by { VariableClaims(b.claims); }
    assert ops[0].constraint == "=&r" && ops[1].constraint == "b";
    assert ops[0].constraint[0] == '=' && ops[0].constraint[1] == '&';
    assert "=&r"[1..] == "&r" && "&r"[1..] == "r" && SkipModifiers("&r") == "r";
    assert SkipModifiers("=&r") == "r" && SkipModifiers("b") == "b";
    hide Booked, SkipModifiers, Base, Take;
    assert FitsAt(ops[1], false, b.claims[1], 0);
    assert Served(b, 1, 0) && Served(b, 1, 1);
    assert StateOf(b, 1, Direct(b.ops), 0) && StateOf(b, 1, Direct(b.ops), 1);
  }

  lemma VariableClaims(claims: seq<Claim>)
    requires claims == [Claim({3}, {Out}), Claim({3}, {In})]
    ensures var base := Base(NoClobbers());
            Booked(Take(Take(base, {3}, {Out}), {3}, {In}), base, claims)
  {
    var base := Base(NoClobbers());
    var taken1 := Take(base, {3}, {Out});
    var claims0 := [NOTHING, NOTHING];
    var claims1 := claims0[0 := claims[0]];
    assert Booked(base, base, claims0);
    assert base[3] == {} && taken1[3] == {Out} && {Out} * {In} == {};
    hide Booked, Base, Take;
    BookKept(base, base, claims0, 0, claims[0]);
    BookKept(taken1, base, claims1, 1, claims[1]);
    assert claims1[1 := claims[1]] == claims;
  }

  /** Three outputs in eax, ecx and edx, the first of them behind a pointer. */
  function ThreeOutputs(): seq<ASMOperand>
  {
    var local := CValue(VT_LOCAL, true, false, None);
    [ASMOperand(None, "=a", local.(val := VT_LLOCAL), -1, -1, 0, -1, false, false, false),
     ASMOperand(None, "=c", local, -1, -1, 0, -1, false, false, false),
     ASMOperand(None, "=d", local, -1, -1, 0, -1, false, false, false)]
  }

  /** A single letter for a register gives that register. */
  lemma OneLetter(b: Board, j: nat, letter: char, r: nat)
    requires Allocated(b, NoClobbers(), 3) && |b.ops| == 3 && j < 3 && Resolved(b.ops)
    requires b.ops[j].constraint == ['=', letter] && !IsRegvar(b.ops[j].vt)
    requires IsRegisterLetter(letter) && forall q :: MaySit(letter, q) ==> q == r
    ensures b.claims[j].held == {r} && b.ops[j].reg == r && !b.ops[j].isMemory && !b.ops[j].isLlong
    ensures Out in b.claims[j].uses
  {
    hide Booked;
    PairedInputs(b.ops, 3, j);
    assert StateOf(b, 3, Direct(b.ops), j);
    assert Served(b, 3, j);
    assert {XAX, XDX} != {r} by { assert XAX in {XAX, XDX} && XDX in {XAX, XDX}; }
    assert b.ops[j].constraint[0] == '=' && b.ops[j].constraint[1] == letter;
  }

  lemma ThreeRegisters(b: Board)
    requires Allocated(b, NoClobbers(), 3) && SameSources(b.ops, ThreeOutputs()) && Resolved(b.ops)
    ensures |b.ops| == |b.claims| == 3
    ensures forall j :: 0 <= j < 3 ==>
              b.ops[j].reg == j && b.claims[j].held == {j} && Out in b.claims[j].uses && !b.ops[j].isMemory
  {
    assert |b.ops| == |b.claims| == 3;
    assert b.ops[0].constraint == ['=', 'a'] && b.ops[1].constraint == ['=', 'c'] && b.ops[2].constraint == ['=', 'd'];
    hide Allocated, Resolved;
    OneLetter(b, 0, 'a', XAX);
    OneLetter(b, 1, 'c', XCX);
    OneLetter(b, 2, 'd', XDX);
  }

  /** The scratch register is the first one that none of the three has: ebx. */
  lemma ThreeOutputsScratch(b: Board, outReg: int)
    requires Allocated(b, NoClobbers(), 3) && SameSources(b.ops, ThreeOutputs()) && Resolved(b.ops)
    requires IsScratch(b.taken, outReg)
    ensures outReg == 3
  {
    ThreeRegisters(b);
    hide SameSources, Resolved, Base, Inv;
    assert Booked(b.taken, Base(NoClobbers()), b.claims) by { ThreeBooked(b); }
    hide Allocated;
    forall r: nat | r < 3 ensures Out in b.taken[r] {
      assert Holds(b.claims, r, r);
    }
    FreeScratch(b);
  }

  lemma ThreeBooked(b: Board)
    requires Allocated(b, NoClobbers(), 3)
    ensures Booked(b.taken, Base(NoClobbers()), b.claims)
  {
    hide Booked, StateOf, Paired;
  }

  lemma FreeScratch(b: Board)
    requires Booked(b.taken, Base(NoClobbers()), b.claims)
    requires |b.claims| == 3 && forall j :: 0 <= j < 3 ==> b.claims[j].held == {j}
    ensures Out !in b.taken[3]
  {
    forall j: nat ensures !HoldsFor(b.claims, j, 3, Out) { }
    assert UsesIn(b.taken, 3) == b.taken[3] && UsesIn(Base(NoClobbers()), 3) == {};
  }

  /** However they are allocated, the scratch register is ebx, and it is lost. */
  lemma ScratchCounterexample(b: Board, outReg: int)
    requires Allocated(b, NoClobbers(), 3) && SameSources(b.ops, ThreeOutputs()) && Resolved(b.ops)
    requires outReg == -1 <==> forall i :: 0 <= i < |b.ops| ==> !Indirect(b.ops[i])
    requires outReg != -1 ==> IsScratch(b.taken, outReg)
    ensures outReg == 3
    ensures exists m, body, env :: !StatementPreserves(b.ops, 3, NoClobbers(), 3, m, body, env)
  {
    ThreeRegisters(b);
    assert b.ops[0].vt == ThreeOutputs()[0].vt;
    assert Indirect(b.ops[0]);
    ThreeOutputsScratch(b, outReg);
    assert Untold(b.ops, NoClobbers(), 3);
    hide StatementPreserves, Allocated, Resolved, IsScratch;
    AllocatedPreservesIff(b, NoClobbers(), 3, 3);
  }

  /** They can be allocated. */
  lemma ThreeOutputsAllocated() returns (b: Board)
    ensures Allocated(b, NoClobbers(), 3) && SameSources(b.ops, ThreeOutputs()) && Resolved(b.ops)
    ensures IsScratch(b.taken, 3)
  {
    var ops := ThreeOutputs();
    b := Board([ops[0].(reg := XAX), ops[1].(reg := XCX), ops[2].(reg := XDX)],
               [Claim({XAX}, {Out}), Claim({XCX}, {Out}), Claim({XDX}, {Out})], ThreeTaken());
    assert Booked(b.taken, Base(NoClobbers()), b.claims) by { ThreeClaims(b.claims); }
    assert ops[0].constraint == "=a" && ops[1].constraint == "=c" && ops[2].constraint == "=d";
    assert |b.ops| == 3 && forall i :: 0 <= i < 3 ==> b.ops[i].refIndex == b.ops[i].inputIndex == -1;
    assert "=a"[1..] == "a" && "=c"[1..] == "c" && "=d"[1..] == "d";
    assert SkipModifiers("=a") == "a" && SkipModifiers("=c") == "c" && SkipModifiers("=d") == "d";
    hide Booked, ThreeTaken, SkipModifiers;
    ThreeStates(b);
    hide StateOf;
    assert IsScratch(b.taken, 3);
  }

  function ThreeTaken(): (t: Taken)
    ensures IsScratch(t, 3)
  {
    Take(Take(Take(Base(NoClobbers()), {XAX}, {Out}), {XCX}, {Out}), {XDX}, {Out})
  }

  lemma ThreeClaims(claims: seq<Claim>)
    requires claims == [Claim({XAX}, {Out}), Claim({XCX}, {Out}), Claim({XDX}, {Out})]
    ensures Booked(ThreeTaken(), Base(NoClobbers()), claims)
  {
    var base := Base(NoClobbers());
    var taken1 := Take(base, {XAX}, {Out});
    var taken2 := Take(taken1, {XCX}, {Out});
    var claims0 := [NOTHING, NOTHING, NOTHING];
    var claims1 := claims0[0 := claims[0]];
    var claims2 := claims1[1 := claims[1]];
    assert Booked(base, base, claims0);
    assert forall r :: 0 <= r < 3 ==> base[r] == {};
    assert taken1[XCX] == {} && taken1[XDX] == {} && taken2[XDX] == {};
    hide Booked, Base, Take;
    BookKept(base, base, claims0, 0, claims[0]);
    BookKept(taken1, base, claims1, 1, claims[1]);
    BookKept(taken2, base, claims2, 2, claims[2]);
    assert claims2[2 := claims[2]] == claims;
  }

  lemma ThreeStates(b: Board)
    requires |b.ops| == |b.claims| == 3
    requires forall j: nat :: j < 3 ==> b.claims[j] == Claim({j}, {Out})
    requires forall j :: 0 <= j < 3 ==> b.ops[j] == ThreeOutputs()[j].(reg := j)
    ensures forall j :: 0 <= j < 3 ==> StateOf(b, 3, Direct(b.ops), j)
  {
    forall j | 0 <= j < 3 ensures StateOf(b, 3, Direct(b.ops), j) {
      assert FitsAt(b.ops[j], true, b.claims[j], 1);
      assert Served(b, 3, j);
    }
  }
}
