/** Assigning registers to the operands of an inline asm statement. */
module AsmConstraints {
  import opened Basics

  datatype Use = In | Out

  const BOTH: set<Use> := {In, Out}
  const NB_ASM_REGS := 16
  const XAX := 0
  const XCX := 1
  const XDX := 2
  const XSP := 4
  const XBP := 5
  const VT_CONST := 0x30
  const VT_LLOCAL := 0x31
  const VT_LOCAL := 0x32

  /** The C value of an operand; `symReg` is the register field of its symbol, if it has one. */
  datatype CValue = CValue(val: nat, lval: bool, sym: bool, symReg: Option<nat>)

  datatype ASMOperand = ASMOperand(
    id: Option<string>, constraint: string, vt: CValue,
    refIndex: int, inputIndex: int, priority: nat, reg: int, isLlong: bool, isMemory: bool, isRw: bool)

  datatype Error = InvalidReference | ReferencedTwice | UnknownConstraint
                 | RegvarTaken | BadModifier | Unsatisfied | NoOutputRegister

  /** A variable declared to live in a register. */
  predicate IsRegvar(v: CValue) { v.val == VT_LOCAL && v.symReg.Some? && v.symReg.value < VT_CONST }

  // ---------------------------------------------------------------- references

  predicate IsNum(c: char) { '0' <= c <= '9' }

  function Number(s: string, n: nat): nat
  {
    if s == [] || !IsNum(s[0]) then n else Number(s[1..], n * 10 + (s[0] as int - '0' as int))
  }

  function NameEnd(s: string): (k: nat)
    ensures k <= |s| && (k < |s| ==> s[k] == ']')
  {
    if s == [] || s[0] == ']' then 0 else 1 + NameEnd(s[1..])
  }

  function FirstNamed(ops: seq<ASMOperand>, name: string, from: nat): (k: int)
    requires from <= |ops|
    ensures k == -1 || from <= k < |ops|
    decreases |ops| - from
  {
    if from == |ops| then -1 else if ops[from].id == Some(name) then from else FirstNamed(ops, name, from + 1)
  }

  function FindConstraint(ops: seq<ASMOperand>, s: string): (k: int)
    ensures -1 <= k < |ops|
  {
    if s == [] then -1
    else if IsNum(s[0]) then (if Number(s, 0) >= |ops| then -1 else Number(s, 0))
    else if s[0] == '[' then
      var e := NameEnd(s[1..]);
      if e < |s[1..]| then FirstNamed(ops, s[1..][..e], 0) else -1
    else -1
  }

  lemma {:induction false} NumberDigits(s: string, d: char, rest: string, n: nat)
    requires forall i :: 0 <= i < |s| ==> '0' <= s[i] <= '9'
    requires '0' <= d <= '9' && (rest == [] || !('0' <= rest[0] <= '9'))
    ensures Number(s + [d] + rest, n) == 10 * Number(s, n) + (d as int - '0' as int)
  {
    if s == [] {
      assert s + [d] + rest == [d] + rest && ([d] + rest)[1..] == rest;
    } else {
      assert (s + [d] + rest)[1..] == s[1..] + [d] + rest;
      NumberDigits(s[1..], d, rest, n * 10 + (s[0] as int - '0' as int));
    }
  }

  /** Digits refer to an operand by its number, in decimal. */
  lemma RefersByNumber(ops: seq<ASMOperand>, s: string, d: char, rest: string)
    requires forall i :: 0 <= i < |s| ==> '0' <= s[i] <= '9'
    requires '0' <= d <= '9' && (rest == [] || !('0' <= rest[0] <= '9'))
    ensures Number([], 0) == 0
    ensures var k := 10 * Number(s, 0) + (d as int - '0' as int);
            FindConstraint(ops, s + [d] + rest) == if k < |ops| then k else -1
  {
    NumberDigits(s, d, rest, 0);
    var all := s + [d] + rest;
    assert all[0] == if s == [] then d else s[0];
  }

  lemma {:induction false} NameEnds(name: string, rest: string)
    requires ']' !in name
    ensures NameEnd(name + [']'] + rest) == |name|
  {
    if name != [] {
      assert (name + [']'] + rest)[1..] == name[1..] + [']'] + rest;
      NameEnds(name[1..], rest);
    }
  }

  lemma {:induction false} FirstNamedIs(ops: seq<ASMOperand>, name: string, from: nat)
    requires from <= |ops|
    ensures var k := FirstNamed(ops, name, from);
            && (k >= 0 ==> ops[k].id == Some(name))
            && forall i :: from <= i < |ops| && (k == -1 || i < k) ==> ops[i].id != Some(name)
    decreases |ops| - from
  {
    if from < |ops| && ops[from].id != Some(name) { FirstNamedIs(ops, name, from + 1); }
  }

  /** A name in brackets refers to the first operand of that name. */
  lemma RefersByName(ops: seq<ASMOperand>, name: string, rest: string)
    requires ']' !in name
    ensures var k := FindConstraint(ops, ['['] + (name + [']'] + rest));
            && (k >= 0 ==> ops[k].id == Some(name))
            && forall i :: 0 <= i < |ops| && (k == -1 || i < k) ==> ops[i].id != Some(name)
  {
    var s := name + [']'] + rest;
    assert (['['] + s)[1..] == s && s[..|name|] == name;
    NameEnds(name, rest);
    FirstNamedIs(ops, name, 0);
  }

  predicate IsModifier(c: char) { c in {'=', '&', '+', '%'} }

  function SkipModifiers(s: string): string { if s != [] && IsModifier(s[0]) then SkipModifiers(s[1..]) else s }

  predicate IsReference(s: string) { s != [] && (IsNum(s[0]) || s[0] == '[') }

  // ------------------------------------------------------------------ priority

  function LetterPriority(c: char): Option<nat>
  {
    if c == 'A' then Some(0)
    else if c in {'a', 'b', 'c', 'd', 'S', 'D'} then Some(1)
    else if c == 'q' then Some(2)
    else if c in {'r', 'R', 'p'} then Some(3)
    else if c in {'N', 'M', 'I', 'e', 'i', 'm', 'g'} then Some(4)
    else None
  }

  /** The weakest of the letters has this priority. */
  ghost predicate Letters(s: string, p: nat)
  {
    && (forall i :: 0 <= i < |s| ==> LetterPriority(s[i]).Some? && LetterPriority(s[i]).value <= p)
    && (if s == [] then p == 0 else exists i :: 0 <= i < |s| && LetterPriority(s[i]) == Some(p))
  }

  /** The weakest of the alternatives decides; None if a letter is unknown. */
  method ConstraintPriority(s: string) returns (p: Option<nat>)
    ensures p.None? <==> exists i :: 0 <= i < |s| && LetterPriority(s[i]).None?
    ensures p.Some? ==> Letters(s, p.value)
  {
    var priority, k := 0, 0;
    while k < |s|
      invariant 0 <= k <= |s| && 0 <= priority <= 4
      invariant forall i :: 0 <= i < k ==> LetterPriority(s[i]).Some? && LetterPriority(s[i]).value <= priority
      invariant k > 0 ==> exists i :: 0 <= i < k && LetterPriority(s[i]) == Some(priority)
      invariant k == 0 ==> priority == 0
    {
      var pr := LetterPriority(s[k]);
      if pr.None? { return None; }
      if pr.value > priority { priority := pr.value; }
      k := k + 1;
    }
    return Some(priority);
  }

  // ------------------------------------------------------------- preparation

  function Reset(op: ASMOperand): ASMOperand
  {
    op.(refIndex := -1, inputIndex := -1, reg := -1, isMemory := false, isRw := false)
  }

  predicate SameSource(a: ASMOperand, b: ASMOperand)
  {
    a.id == b.id && a.constraint == b.constraint && a.vt == b.vt
  }

  /** References point backwards, from an input, and are known at the other end, which is
      referenced only once. */
  ghost predicate Paired(ops: seq<ASMOperand>, nbOutputs: nat)
  {
    && (forall j :: 0 <= j < |ops| ==>
          ops[j].refIndex == -1
          || (0 <= ops[j].refIndex < j && nbOutputs <= j && ops[ops[j].refIndex].inputIndex == j))
    && (forall k :: 0 <= k < |ops| ==>
          ops[k].inputIndex == -1 || (k < ops[k].inputIndex < |ops| && ops[ops[k].inputIndex].refIndex == k))
  }

  /** The register that an operand has from its declaration. */
  predicate Declared(op: ASMOperand)
  {
    op.reg == if op.refIndex == -1 && IsRegvar(op.vt) then op.vt.symReg.value else -1
  }

  /** The order in which operands are served. */
  ghost predicate Ranked(op: ASMOperand)
  {
    if op.refIndex != -1 then op.priority == 5
    else if IsRegvar(op.vt) then op.priority == 1
    else
      Letters(SkipModifiers(op.constraint), op.priority)
  }

  function Swap(s: seq<nat>, i: nat, j: nat): seq<nat>
    requires i < |s| && j < |s|
    ensures |Swap(s, i, j)| == |s|
  {
    s[i := s[j]][j := s[i]]
  }

  lemma SwapPermutes(s: seq<nat>, n: nat, i: nat, j: nat)
    requires IsPermutation(s, n) && i < j < n
    ensures IsPermutation(Swap(s, i, j), n)
  {
    var s' := Swap(s, i, j);
    forall x: nat ensures x in s' <==> x in s {
      if x in s {
        var p :| 0 <= p < n && s[p] == x;
        assert s'[if p == i then j else if p == j then i else p] == x;
      }
      if x in s' {
        var p :| 0 <= p < n && s'[p] == x;
        assert s[if p == i then j else if p == j then i else p] == x;
      }
    }
  }

  function Rank(ops: seq<ASMOperand>, s: seq<nat>, i: nat): nat
  {
    if i < |s| && s[i] < |ops| then ops[s[i]].priority else 0
  }

  /** The first i are in order and not behind the others. */
  ghost predicate SortedTo(ops: seq<ASMOperand>, s: seq<nat>, i: nat)
  {
    forall a: nat, b: nat :: a < i && a < b < |s| ==> Rank(ops, s, a) <= Rank(ops, s, b)
  }

  ghost predicate LeastTo(ops: seq<ASMOperand>, s: seq<nat>, i: nat, j: nat)
  {
    forall b: nat :: i < b < j ==> Rank(ops, s, i) <= Rank(ops, s, b)
  }

  lemma SwapRanks(ops: seq<ASMOperand>, s: seq<nat>, i: nat, j: nat)
    requires i < j < |s| && SortedTo(ops, s, i) && LeastTo(ops, s, i, j)
    ensures var s' := if Rank(ops, s, j) < Rank(ops, s, i) then Swap(s, i, j) else s;
            SortedTo(ops, s', i) && LeastTo(ops, s', i, j + 1)
  {
    var s' := if Rank(ops, s, j) < Rank(ops, s, i) then Swap(s, i, j) else s;
    forall a: nat, b: nat | a < i && a < b < |s| ensures Rank(ops, s', a) <= Rank(ops, s', b) {
      assert Rank(ops, s', a) == Rank(ops, s, a);
      var b' := if s' == s then b else if b == i then j else if b == j then i else b;
      assert Rank(ops, s', b) == Rank(ops, s, b');
    }
    forall b: nat | i < b < j + 1 ensures Rank(ops, s', i) <= Rank(ops, s', b) {
      if b < j {
        assert Rank(ops, s', b) == Rank(ops, s, b) && Rank(ops, s, i) <= Rank(ops, s, b);
      }
    }
  }

  // ------------------------------------------------ resolving one reference

  lemma PairedFrame(a: seq<ASMOperand>, b: seq<ASMOperand>, nbOutputs: nat)
    requires Paired(a, nbOutputs) && |a| == |b|
    requires forall k :: 0 <= k < |a| ==> a[k].refIndex == b[k].refIndex && a[k].inputIndex == b[k].inputIndex
    ensures Paired(b, nbOutputs)
  {
  }

  lemma PairStep(ops: seq<ASMOperand>, nbOutputs: nat, i: nat, k: nat, i': ASMOperand)
    requires Paired(ops, nbOutputs) && k < i < |ops| && nbOutputs <= i
    requires ops[i].refIndex == -1 && ops[i].inputIndex == -1 && ops[k].inputIndex == -1
    requires i' == ops[i].(refIndex := k, priority := 5)
    ensures Paired(ops[i := i'][k := ops[k].(inputIndex := i)], nbOutputs)
  {
  }

  ghost predicate SameSources(a: seq<ASMOperand>, b: seq<ASMOperand>)
  {
    |a| == |b| && forall i :: 0 <= i < |a| ==> SameSource(a[i], b[i])
  }

  /** From the i-th operand on, nothing is known yet; no later operand has referred to any. */
  ghost predicate Untouched(ops: seq<ASMOperand>, i: nat)
  {
    && (forall k :: i <= k < |ops| ==>
         ops[k].refIndex == -1 && ops[k].inputIndex == -1 && ops[k].reg == -1 && !ops[k].isMemory && !ops[k].isRw)
    && (forall k :: 0 <= k < |ops| ==> ops[k].inputIndex < i)
  }

  ghost predicate Prepared(op: ASMOperand, ops: seq<ASMOperand>)
  {
    && Declared(op) && Ranked(op) && !op.isMemory && !op.isRw
    && op.refIndex ==
         if IsReference(SkipModifiers(op.constraint)) then FindConstraint(ops, SkipModifiers(op.constraint)) else -1
  }

  ghost predicate PreparedTo(ops: seq<ASMOperand>, i: nat, from: seq<ASMOperand>)
  {
    forall k :: 0 <= k < i && k < |ops| ==> Prepared(ops[k], from)
  }

  /** The state of preparation before the i-th operand. */
  ghost predicate Ready(ops: seq<ASMOperand>, i: nat, from: seq<ASMOperand>, nbOutputs: nat)
  {
    SameSources(ops, from) && Untouched(ops, i) && Paired(ops, nbOutputs) && PreparedTo(ops, i, from)
  }

  lemma ResetReady(was: seq<ASMOperand>, ops: seq<ASMOperand>, nbOutputs: nat)
    requires |ops| == |was| && forall k :: 0 <= k < |ops| ==> ops[k] == Reset(was[k])
    ensures Ready(ops, 0, was, nbOutputs)
  {
  }

  lemma NotYet(ops: seq<ASMOperand>, i: nat, from: seq<ASMOperand>, nbOutputs: nat)
    requires Ready(ops, i, from, nbOutputs) && i < |ops|
    ensures ops[i].refIndex == -1 && ops[i].reg == -1
  {
  }

  lemma PreparedRef(ops: seq<ASMOperand>, from: seq<ASMOperand>, i: nat, k: nat, i': ASMOperand)
    requires k < i < |ops| && PreparedTo(ops, i, from) && ops[i].reg == -1 && !ops[i].isMemory && !ops[i].isRw
    requires i' == ops[i].(refIndex := k, priority := 5)
    requires IsReference(SkipModifiers(ops[i].constraint))
    requires k == FindConstraint(from, SkipModifiers(ops[i].constraint))
    ensures PreparedTo(ops[i := i'][k := ops[k].(inputIndex := i)], i + 1, from)
  {
    hide FindConstraint, SkipModifiers, LetterPriority, IsReference, IsRegvar;
    assert Prepared(i', from);
    assert Prepared(ops[k], from);
    assert Prepared(ops[k].(inputIndex := i), from);
  }

  lemma ReadyRef(ops: seq<ASMOperand>, from: seq<ASMOperand>, nbOutputs: nat, i: nat, k: nat)
    requires k < i < |ops| && nbOutputs <= i && Ready(ops, i, from, nbOutputs)
    requires IsReference(SkipModifiers(ops[i].constraint)) && k == FindConstraint(ops, SkipModifiers(ops[i].constraint))
    requires ops[k].inputIndex < 0
    ensures Ready(ops[i := ops[i].(refIndex := k, priority := 5)][k := ops[k].(inputIndex := i)], i + 1, from,
              nbOutputs)
  {
    hide FindConstraint, SkipModifiers, LetterPriority, IsReference, IsRegvar, Prepared, Declared, Ranked;
    SameNames(ops, from, SkipModifiers(ops[i].constraint));
    PairStep(ops, nbOutputs, i, k, ops[i].(refIndex := k, priority := 5));
    PreparedRef(ops, from, i, k, ops[i].(refIndex := k, priority := 5));
  }

  lemma ReadyOther(ops: seq<ASMOperand>, from: seq<ASMOperand>, nbOutputs: nat, i: nat, op: ASMOperand)
    requires i < |ops| && Ready(ops, i, from, nbOutputs)
    requires op == ops[i].(priority := op.priority, reg := op.reg)
    requires !IsReference(SkipModifiers(op.constraint))
    requires if IsRegvar(op.vt) then op.priority == 1 && op.reg == op.vt.symReg.value
             else op.reg == -1 && Letters(SkipModifiers(op.constraint), op.priority)
    ensures Ready(ops[i := op], i + 1, from, nbOutputs)
  {
    assert Prepared(op, from);
    hide FindConstraint, SkipModifiers, IsReference, IsRegvar, Prepared, Letters;
    assert PreparedTo(ops[i := op], i + 1, from);
  }

  lemma InOrder(ops: seq<ASMOperand>, n: nat)
    ensures IsPermutation(seq(n, i => i), n) && SortedTo(ops, seq(n, i => i), 0)
  {
    var s: seq<nat> := seq(n, i => i);
    forall x: nat ensures x in s <==> x < n {
      if x < n { assert s[x] == x; }
    }
  }

  lemma LeastNone(ops: seq<ASMOperand>, s: seq<nat>, i: nat)
    ensures LeastTo(ops, s, i, i + 1)
  {
  }

  lemma SortedStep(ops: seq<ASMOperand>, s: seq<nat>, i: nat)
    requires SortedTo(ops, s, i) && LeastTo(ops, s, i, |s|)
    ensures SortedTo(ops, s, i + 1)
  {
  }

  lemma SortedLast(ops: seq<ASMOperand>, s: seq<nat>, i: nat)
    requires SortedTo(ops, s, i) && |s| <= i + 1
    ensures SortedTo(ops, s, |s|)
  {
  }

  /** References are resolved by name and number alone. */
  lemma SameNames(a: seq<ASMOperand>, b: seq<ASMOperand>, s: string)
    requires |a| == |b| && forall i :: 0 <= i < |a| ==> SameSource(a[i], b[i])
    ensures FindConstraint(a, s) == FindConstraint(b, s)
  {
    if s != [] && s[0] == '[' { SameFirst(a, b, s[1..][..NameEnd(s[1..])], 0); }
  }

  lemma {:induction false} SameFirst(a: seq<ASMOperand>, b: seq<ASMOperand>, name: string, from: nat)
    requires |a| == |b| && from <= |a| && forall i :: 0 <= i < |a| ==> SameSource(a[i], b[i])
    ensures FirstNamed(a, name, from) == FirstNamed(b, name, from)
    decreases |a| - from
  {
    if from < |a| { SameFirst(a, b, name, from + 1); }
  }
}
