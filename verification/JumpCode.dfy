/** Straight-line code with forward jumps, as the code generator emits it: a jump whose place
    is not known yet is threaded on a chain through its own target field and patched later. */
module JumpCode {

  datatype Test = EQ | NE | LT | GE | LE | GT | ULT | UGE | ULE | UGT

  /** An operand of a comparison: a value known at run time, or a constant. */
  datatype Operand = Reg(r: nat) | Imm(v: int)

  /** Where a jump goes: a position of this code, a label elsewhere, or, as long as it is on a
      chain, the previous jump of that chain (one more than its position; 0 ends the chain). */
  datatype Target = At(pos: nat) | Label(id: int) | Chained(link: nat)

  datatype Instr =
    | Compare(a: Operand, b: Operand, wide: bool)
    | JumpIf(test: Test, target: Target)
    | Jump(target: Target)

  /** The operands last compared, as 32-bit or (wide) 64-bit patterns. */
  datatype Flags = Flags(u: int, v: int, wide: bool)

  /** How a run ends: at a label elsewhere, in a jump that is still on a chain, at the end of
      the code, or in a malformed jump. */
  datatype End = Exit(id: int) | Pending(link: nat) | Fell(flags: Flags) | Bad

  /** The end of a run and the number of comparisons made. */
  datatype Outcome = Outcome(end: End, tests: nat)

  function SignedValue(u: int, wide: bool): int
  {
    if wide then (if u < 0x8000_0000_0000_0000 then u else u - 0x1_0000_0000_0000_0000)
    else (if u < 0x8000_0000 then u else u - 0x1_0000_0000)
  }

  /** Whether a test succeeds: patterns compare as signed or as unsigned numbers. */
  predicate Holds(t: Test, f: Flags)
  {
    var (x, y) := (SignedValue(f.u, f.wide), SignedValue(f.v, f.wide));
    match t
    case EQ => f.u == f.v
    case NE => f.u != f.v
    case LT => x < y
    case GE => x >= y
    case LE => x <= y
    case GT => x > y
    case ULT => f.u < f.v
    case UGE => f.u >= f.v
    case ULE => f.u <= f.v
    case UGT => f.u > f.v
  }

  function Negate(t: Test): Test
  {
    match t
    case EQ => NE case NE => EQ
    case LT => GE case GE => LT
    case LE => GT case GT => LE
    case ULT => UGE case UGE => ULT
    case ULE => UGT case UGT => ULE
  }

  function Value(o: Operand, env: seq<int>): int
  {
    match o case Imm(v) => v case Reg(r) => if r < |env| then env[r] else 0
  }

  function Run(code: seq<Instr>, pc: nat, f: Flags, env: seq<int>): Outcome
    decreases |code| - pc
  {
    if pc >= |code| then Outcome(if pc == |code| then Fell(f) else Bad, 0)
    else
      match code[pc]
      case Compare(a, b, wide) =>
        var o := Run(code, pc + 1, Flags(Value(a, env), Value(b, env), wide), env);
        o.(tests := o.tests + 1)
      case JumpIf(t, target) => if Holds(t, f) then Go(code, pc, target, f, env) else Run(code, pc + 1, f, env)
      case Jump(target) => Go(code, pc, target, f, env)
  }

  function Go(code: seq<Instr>, pc: nat, target: Target, f: Flags, env: seq<int>): Outcome
    requires pc < |code|
    decreases |code| - pc, 0
  {
    match target
    case At(p) => if pc < p then Run(code, p, f, env) else Outcome(Bad, 0)
    case Label(id) => Outcome(Exit(id), 0)
    case Chained(link) => Outcome(Pending(link), 0)
  }

  // ------------------------------------------------------------------- runs

  function More(o: Outcome, tests: nat): Outcome { o.(tests := o.tests + tests) }

  /** One step of a run. */
  lemma RunStep(code: seq<Instr>, pc: nat, f: Flags, env: seq<int>)
    ensures pc < |code| && code[pc].Compare? ==>
              Run(code, pc, f, env) ==
              More(Run(code, pc + 1, Flags(Value(code[pc].a, env), Value(code[pc].b, env), code[pc].wide), env), 1)
    ensures pc < |code| && code[pc].JumpIf? && !Holds(code[pc].test, f) ==>
              Run(code, pc, f, env) == Run(code, pc + 1, f, env)
    ensures pc < |code| && code[pc].JumpIf? && Holds(code[pc].test, f) ==>
              Run(code, pc, f, env) == Go(code, pc, code[pc].target, f, env)
    ensures pc < |code| && code[pc].Jump? ==> Run(code, pc, f, env) == Go(code, pc, code[pc].target, f, env)
    ensures pc == |code| ==> Run(code, pc, f, env) == Outcome(Fell(f), 0)
  {
  }

  /** Code that is appended is not noticed until the old code falls off its end. */
  lemma {:induction false} RunAppend(code: seq<Instr>, more: seq<Instr>, pc: nat, f: Flags, env: seq<int>)
    requires pc <= |code| && Run(code, pc, f, env).end != Bad
    ensures var o := Run(code, pc, f, env);
            Run(code + more, pc, f, env) ==
              if o.end.Fell? then More(Run(code + more, |code|, o.end.flags, env), o.tests) else o
    decreases |code| - pc
  {
    if pc < |code| {
      match code[pc]
      case Compare(a, b, wide) => RunAppend(code, more, pc + 1, Flags(Value(a, env), Value(b, env), wide), env);
      case JumpIf(t, target) =>
        if Holds(t, f) { GoAppend(code, more, pc, target, f, env); } else { RunAppend(code, more, pc + 1, f, env); }
      case Jump(target) => GoAppend(code, more, pc, target, f, env);
    }
  }

  lemma {:induction false} GoAppend(code: seq<Instr>, more: seq<Instr>, pc: nat, target: Target, f: Flags,
        env: seq<int>)
    requires pc < |code| && Go(code, pc, target, f, env).end != Bad
    ensures var o := Go(code, pc, target, f, env);
            Go(code + more, pc, target, f, env) ==
              if o.end.Fell? then More(Run(code + more, |code|, o.end.flags, env), o.tests) else o
    decreases |code| - pc, 0
  {
    if target.At? { RunAppend(code, more, target.pos, f, env); }
  }

  /** A run does not depend on the code before the place where it starts. */
  lemma {:induction false} RunSuffix(c1: seq<Instr>, c2: seq<Instr>, pc: nat, f: Flags, env: seq<int>)
    requires |c1| == |c2| && pc <= |c1| && c1[pc..] == c2[pc..]
    ensures Run(c1, pc, f, env) == Run(c2, pc, f, env)
    decreases |c1| - pc
  {
    if pc < |c1| {
      assert c1[pc] == c1[pc..][0] == c2[pc];
      SuffixOn(c1, c2, pc, pc + 1);
      match c1[pc]
      case Compare(a, b, wide) => RunSuffix(c1, c2, pc + 1, Flags(Value(a, env), Value(b, env), wide), env);
      case JumpIf(t, target) =>
        if Holds(t, f) { GoSuffix(c1, c2, pc, target, f, env); } else { RunSuffix(c1, c2, pc + 1, f, env); }
      case Jump(target) => GoSuffix(c1, c2, pc, target, f, env);
    }
  }

  lemma SuffixOn(c1: seq<Instr>, c2: seq<Instr>, p: nat, q: nat)
    requires |c1| == |c2| && p <= q <= |c1| && c1[p..] == c2[p..]
    ensures c1[q..] == c2[q..]
  {
    assert c1[q..] == c1[p..][q - p..] && c2[q..] == c2[p..][q - p..];
  }

  lemma {:induction false} GoSuffix(c1: seq<Instr>, c2: seq<Instr>, pc: nat, target: Target, f: Flags, env: seq<int>)
    requires |c1| == |c2| && pc < |c1| && c1[pc..] == c2[pc..]
    ensures Go(c1, pc, target, f, env) == Go(c2, pc, target, f, env)
    decreases |c1| - pc, 0
  {
    if target.At? && pc < target.pos <= |c1| {
      SuffixOn(c1, c2, pc, target.pos);
      RunSuffix(c1, c2, target.pos, f, env);
    }
  }

  // ------------------------------------------------------------------ chains

  predicate IsChained(i: Instr) { !i.Compare? && i.target.Chained? }

  function Retargeted(i: Instr, at: nat): Instr { if i.Compare? then i else i.(target := At(at)) }

  /** t is a chain: each jump on it names the one before. */
  ghost predicate ChainOk(code: seq<Instr>, t: nat)
    decreases t
  {
    t == 0 || (&& t <= |code| && IsChained(code[t - 1]) && code[t - 1].target.link < t
               && ChainOk(code, code[t - 1].target.link))
  }

  /** The positions of the jumps on a chain. */
  ghost function OnChain(code: seq<Instr>, t: nat): (s: set<nat>)
    requires ChainOk(code, t)
    ensures forall k :: k in s ==> k < t && k < |code| && IsChained(code[k])
    decreases t
  {
    if t == 0 then {} else {t - 1} + OnChain(code, code[t - 1].target.link)
  }

  /** A chain is unaffected by changes elsewhere. */
  lemma {:induction false} ChainFrame(c1: seq<Instr>, c2: seq<Instr>, t: nat)
    requires ChainOk(c1, t) && t <= |c2|
    requires forall k :: k in OnChain(c1, t) ==> c2[k] == c1[k]
    ensures ChainOk(c2, t) && OnChain(c2, t) == OnChain(c1, t)
    decreases t
  {
    if t != 0 {
      assert t - 1 in OnChain(c1, t);
      ChainFrame(c1, c2, c1[t - 1].target.link);
    }
  }

  /** A jump that is emitted with a chain in its target field joins exactly that chain. */
  lemma ChainGrows(code: seq<Instr>, i: Instr, t: nat)
    requires ChainOk(code, t) && IsChained(i) && i.target.link == t
    ensures ChainOk(code + [i], |code| + 1)
    ensures OnChain(code + [i], |code| + 1) == OnChain(code, t) + {|code|}
  {
    ChainFrame(code, code + [i], t);
  }

  /** The first jump of a chain, in order of the code; it ends the chain. */
  ghost function FirstOn(code: seq<Instr>, v: nat): (k: nat)
    requires ChainOk(code, v) && v != 0
    ensures k in OnChain(code, v) && code[k].target.link == 0
    decreases v
  {
    if code[v - 1].target.link == 0 then v - 1 else FirstOn(code, code[v - 1].target.link)
  }

  /** A chain that lies behind another is put in front of it by its first jump alone. */
  lemma {:induction false} ChainJoins(code: seq<Instr>, v: nat, t: nat)
    requires ChainOk(code, v) && ChainOk(code, t) && v != 0 && forall k :: k in OnChain(code, v) ==> t <= k
    ensures var k := FirstOn(code, v);
            var code' := code[k := code[k].(target := Chained(t))];
            ChainOk(code', v) && OnChain(code', v) == OnChain(code, v) + OnChain(code, t)
    decreases v
  {
    var k := FirstOn(code, v);
    var code' := code[k := code[k].(target := Chained(t))];
    var next := code[v - 1].target.link;
    if next == 0 {
      ChainFrame(code, code', t);
    } else {
      assert forall j :: j in OnChain(code, next) ==> j in OnChain(code, v);
      ChainJoins(code, next, t);
    }
  }

  class Emitter {
    var code: seq<Instr>

    constructor ()
      ensures code == []
    {
      code := [];
    }

    method Compares(a: Operand, b: Operand, wide: bool)
      modifies this
      ensures code == old(code) + [Compare(a, b, wide)]
    {
      code := code + [Compare(a, b, wide)];
    }

    /** Jumps on a test (or its opposite) to a place to be known later. */
    method GTst(test: Test, inv: bool, t: nat) returns (t': nat)
      modifies this
      ensures code == old(code) + [JumpIf(if inv then Negate(test) else test, Chained(t))] && t' == |code|
    {
      code := code + [JumpIf(if inv then Negate(test) else test, Chained(t))];
      t' := |code|;
    }

    /** A condition that is a chain already: its chain is put in front of the other. */
    method JoinChains(v: nat, t: nat) returns (t': nat)
      requires ChainOk(code, v) && ChainOk(code, t) && forall k :: k in OnChain(code, v) ==> t <= k
      modifies this
      ensures ChainOk(code, t') && OnChain(code, t') == OnChain(old(code), v) + OnChain(old(code), t)
      ensures |code| == |old(code)|
      ensures forall k :: 0 <= k < |code| && k !in OnChain(old(code), v) ==> code[k] == old(code)[k]
      ensures forall k :: 0 <= k < |code| && IsChained(old(code)[k]) ==>
                code[k] == old(code)[k].(target := code[k].target) && IsChained(code[k])
    {
      if v == 0 { return t; }
      var n := v;
      while code[n - 1].target.link != 0
        invariant code == old(code) && n != 0 && ChainOk(code, n) && FirstOn(code, n) == FirstOn(code, v)
        decreases n
      {
        n := code[n - 1].target.link;
      }
      ChainJoins(code, v, t);
      code := code[n - 1 := code[n - 1].(target := Chained(t))];
      return v;
    }

    method GTstAddr(test: Test, id: int)
      modifies this
      ensures code == old(code) + [JumpIf(test, Label(id))]
    {
      code := code + [JumpIf(test, Label(id))];
    }

    method GJmp(t: nat) returns (t': nat)
      modifies this
      ensures code == old(code) + [Jump(Chained(t))] && t' == |code|
    {
      code := code + [Jump(Chained(t))];
      t' := |code|;
    }

    method GJmpAddr(id: int)
      modifies this
      ensures code == old(code) + [Jump(Label(id))]
    {
      code := code + [Jump(Label(id))];
    }

    /** Lets every jump of a chain go to the current place. */
    method GSym(t: nat)
      requires ChainOk(code, t)
      modifies this
      ensures |code| == |old(code)|
      ensures forall k :: 0 <= k < |code| ==>
        code[k] == if k in OnChain(old(code), t) then Retargeted(old(code)[k], |code|) else old(code)[k]
    {
      var i: nat, here := t, |code|;
      ghost var done: set<nat> := {};
      while i != 0
        invariant |code| == here == |old(code)| && ChainOk(code, i)
        invariant OnChain(old(code), t) == OnChain(code, i) + done
        invariant forall k :: k in done ==> i <= k < here
        invariant forall k :: 0 <= k < here ==>
          code[k] == if k in done then Retargeted(old(code)[k], here) else old(code)[k]
        decreases i
      {
        var n := code[i - 1].target.link;
        ghost var was := code;
        code := code[i - 1 := Retargeted(code[i - 1], here)];
        ChainFrame(was, code, n);
        done := done + {i - 1};
        i := n;
      }
    }
  }
}
