/** Lowering of a `switch` to a binary search over its sorted case ranges, followed by linear
    scans of at most four. */
module SwitchLowering {
  import opened JumpCode

  /** A case range and the address of its code. */
  datatype Case = Case(v1: int, v2: int, addr: int)

  /** The type the switch value is compared in; 64-bit values are always compared as signed. */
  datatype Kind = Int32 | UInt32 | Int64

  const TWO32: int := 0x1_0000_0000
  const TWO64: int := 0x1_0000_0000_0000_0000

  function Wide(k: Kind): bool { k == Int64 }

  /** The pattern a case constant becomes when it is pushed for a comparison. */
  function Pattern(k: Kind, v: int): int { if Wide(k) then v % TWO64 else v % TWO32 }

  /** The number a pattern stands for. */
  function Number(k: Kind, u: int): int { if k == UInt32 then u else SignedValue(u, Wide(k)) }

  function Constant(k: Kind, v: int): int { Number(k, Pattern(k, v)) }

  predicate InKind(k: Kind, u: int) { 0 <= u < if Wide(k) then TWO64 else TWO32 }

  function LessEq(k: Kind): Test { if k == UInt32 then ULE else LE }

  function GreaterEq(k: Kind): Test { if k == UInt32 then UGE else GE }

  predicate Hit(k: Kind, c: Case, x: int) { Constant(k, c.v1) <= x <= Constant(k, c.v2) }

  // ------------------------------------------------------------- the searches

  /** The first range that contains x, or -1: what `switch` means. */
  function Linear(k: Kind, cs: seq<Case>, x: int): (r: int)
    ensures -1 <= r < |cs| && (r >= 0 ==> Hit(k, cs[r], x))
  {
    if cs == [] then -1
    else if Hit(k, cs[0], x) then 0
    else
      var r := Linear(k, cs[1..], x);
      if r == -1 then -1 else r + 1
  }

  lemma {:induction false} LinearIsFirst(k: Kind, cs: seq<Case>, x: int)
    ensures var r := Linear(k, cs, x);
            forall i :: 0 <= i < |cs| && (r == -1 || i < r) ==> !Hit(k, cs[i], x)
  {
    if cs != [] && !Hit(k, cs[0], x) {
      LinearIsFirst(k, cs[1..], x);
      forall i | 0 <= i < |cs| && (Linear(k, cs, x) == -1 || i < Linear(k, cs, x)) ensures !Hit(k, cs[i], x) {
        if i > 0 { assert cs[i] == cs[1..][i - 1]; }
      }
    }
  }

  function Shifted(r: int, d: nat): int { if r == -1 then -1 else r + d }

  /** The range the emitted decision tree arrives at, or -1. */
  function Search(k: Kind, cs: seq<Case>, x: int): (r: int)
    ensures -1 <= r < |cs| && (r >= 0 ==> Hit(k, cs[r], x))
  {
    if |cs| <= 4 then Linear(k, cs, x)
    else
      var mid := |cs| / 2;
      if x <= Constant(k, cs[mid].v2) then
        if x >= Constant(k, cs[mid].v1) then mid else Search(k, cs[..mid], x)
      else Shifted(Search(k, cs[mid + 1..], x), mid + 1)
  }

  /** The most tests on any path through the tree for n ranges. */
  function MaxTests(n: nat): nat
  {
    if n <= 4 then 2 * n
    else
      var (l, r) := (MaxTests(n / 2), MaxTests(n - n / 2 - 1));
      2 + if l > r then l else r
  }

  function FourTimesPow2(k: nat): nat { if k == 0 then 4 else 2 * FourTimesPow2(k - 1) }

  /** Main result: the tree is logarithmically deep. */
  lemma {:induction false} TestsLogarithmic(n: nat, k: nat)
    requires n <= FourTimesPow2(k)
    ensures MaxTests(n) <= 2 * k + 8
    decreases k
  {
    if n > 4 {
      assert k > 0;
      TestsLogarithmic(n / 2, k - 1);
      TestsLogarithmic(n - n / 2 - 1, k - 1);
    }
  }

  // --------------------------------------------------- when the tree is right

  /** The converted ranges are not empty and do not overlap. */
  ghost predicate Separate(k: Kind, cs: seq<Case>)
  {
    && (forall i :: 0 <= i < |cs| ==> Constant(k, cs[i].v1) <= Constant(k, cs[i].v2))
    && (forall i, j, x :: 0 <= i < j < |cs| && Hit(k, cs[i], x) ==> !Hit(k, cs[j], x))
  }

  /** At each middle range the ones on its left lie below it and the ones on its right above. */
  ghost predicate Navigable(k: Kind, cs: seq<Case>)
  {
    |cs| <= 4 ||
    var mid := |cs| / 2;
    && (forall i :: 0 <= i < mid ==> Constant(k, cs[i].v2) < Constant(k, cs[mid].v1))
    && (forall i :: mid < i < |cs| ==> Constant(k, cs[mid].v2) < Constant(k, cs[i].v1))
    && Navigable(k, cs[..mid]) && Navigable(k, cs[mid + 1..])
  }

  /** The tree finds what a linear search finds, for every number. */
  ghost predicate FindsAll(k: Kind, cs: seq<Case>)
  {
    forall x :: Search(k, cs, x) == Linear(k, cs, x)
  }

  lemma SeparateParts(k: Kind, cs: seq<Case>, mid: nat)
    requires Separate(k, cs) && mid < |cs|
    ensures Separate(k, cs[..mid]) && Separate(k, cs[mid + 1..])
  {
    hide Hit, Constant;
  }

  /** In separate ranges there is one right answer. */
  lemma HitIsLinear(k: Kind, cs: seq<Case>, x: int, i: nat)
    requires Separate(k, cs) && i < |cs| && Hit(k, cs[i], x)
    ensures Linear(k, cs, x) == i
  {
    hide Hit, Constant;
    LinearIsFirst(k, cs, x);
    var r := Linear(k, cs, x);
    assert r != -1;
    assert !(r < i) && !(i < r);
  }

  lemma NoHitIsLinear(k: Kind, cs: seq<Case>, x: int)
    requires forall i :: 0 <= i < |cs| ==> !Hit(k, cs[i], x)
    ensures Linear(k, cs, x) == -1
  {
  }

  /** Linear search in a half, when the range sought is there or nowhere. */
  lemma LinearLeft(k: Kind, cs: seq<Case>, mid: nat, x: int)
    requires Separate(k, cs) && mid < |cs| && forall i :: mid <= i < |cs| ==> !Hit(k, cs[i], x)
    ensures Linear(k, cs[..mid], x) == Linear(k, cs, x)
  {
    hide Hit, Constant;
    SeparateParts(k, cs, mid);
    LinearIsFirst(k, cs, x);
    var r := Linear(k, cs, x);
    if r == -1 {
      NoHitIsLinear(k, cs[..mid], x);
    } else {
      assert cs[..mid][r] == cs[r];
      HitIsLinear(k, cs[..mid], x, r);
    }
  }

  lemma LinearRight(k: Kind, cs: seq<Case>, mid: nat, x: int)
    requires Separate(k, cs) && mid < |cs| && forall i :: 0 <= i <= mid ==> !Hit(k, cs[i], x)
    ensures Shifted(Linear(k, cs[mid + 1..], x), mid + 1) == Linear(k, cs, x)
  {
    hide Hit, Constant;
    SeparateParts(k, cs, mid);
    LinearIsFirst(k, cs, x);
    var r := Linear(k, cs, x);
    if r == -1 {
      var right := cs[mid + 1..];
      forall i: nat | i < |right| ensures !Hit(k, right[i], x) { assert right[i] == cs[i + mid + 1]; }
      NoHitIsLinear(k, right, x);
    } else {
      assert cs[mid + 1..][r - mid - 1] == cs[r];
      HitIsLinear(k, cs[mid + 1..], x, r - mid - 1);
    }
  }

  lemma SearchUnfolds(k: Kind, cs: seq<Case>, x: int)
    requires |cs| > 4
    ensures var mid := |cs| / 2;
            Search(k, cs, x) ==
              if x > Constant(k, cs[mid].v2) then Shifted(Search(k, cs[mid + 1..], x), mid + 1)
              else if x < Constant(k, cs[mid].v1) then Search(k, cs[..mid], x)
              else mid
  {
  }

  /** One step down the tree, with the right answer in the halves. */
  lemma StepDown(k: Kind, cs: seq<Case>, x: int)
    requires Separate(k, cs) && |cs| > 4
    requires var mid := |cs| / 2;
             && (forall i :: 0 <= i < mid ==> Constant(k, cs[i].v2) < Constant(k, cs[mid].v1))
             && (forall i :: mid < i < |cs| ==> Constant(k, cs[mid].v2) < Constant(k, cs[i].v1))
             && Search(k, cs[..mid], x) == Linear(k, cs[..mid], x)
             && Search(k, cs[mid + 1..], x) == Linear(k, cs[mid + 1..], x)
    ensures Search(k, cs, x) == Linear(k, cs, x)
  {
    hide Constant, Search;
    SearchUnfolds(k, cs, x);
    var mid := |cs| / 2;
    assert Constant(k, cs[mid].v1) <= Constant(k, cs[mid].v2);
    if x > Constant(k, cs[mid].v2) {
      forall i: nat | i <= mid ensures !Hit(k, cs[i], x) {}
      LinearRight(k, cs, mid, x);
    } else if x < Constant(k, cs[mid].v1) {
      LinearLeft(k, cs, mid, x);
    } else {
      HitIsLinear(k, cs, x, mid);
    }
  }

  /** In a navigable list the tree finds what a linear search finds. */
  lemma {:induction false} NavigableFinds(k: Kind, cs: seq<Case>, x: int)
    requires Separate(k, cs) && Navigable(k, cs)
    ensures Search(k, cs, x) == Linear(k, cs, x)
    decreases |cs|
  {
    if |cs| > 4 {
      hide Constant, Separate, Linear;
      SeparateParts(k, cs, |cs| / 2);
      NavigableFinds(k, cs[..|cs| / 2], x);
      NavigableFinds(k, cs[|cs| / 2 + 1..], x);
      StepDown(k, cs, x);
    }
  }

  /** A range on the wrong side of a middle one is not found. */
  lemma FoundMeansOrdered(k: Kind, cs: seq<Case>, i: nat)
    requires |cs| > 4 && Separate(k, cs) && i < |cs| && FindsAll(k, cs)
    ensures var mid := |cs| / 2;
            && (i < mid ==> Constant(k, cs[i].v2) < Constant(k, cs[mid].v1))
            && (mid < i ==> Constant(k, cs[mid].v2) < Constant(k, cs[i].v1))
  {
    hide Constant;
    var mid := |cs| / 2;
    var (lo, hi) := (Constant(k, cs[i].v1), Constant(k, cs[i].v2));
    HitIsLinear(k, cs, lo, i);
    HitIsLinear(k, cs, hi, i);
    assert Search(k, cs, lo) == i && Search(k, cs, hi) == i;
    if i < mid {
      assert hi <= Constant(k, cs[mid].v2);
      assert !(hi >= Constant(k, cs[mid].v1));
    } else if mid < i {
      assert !(lo <= Constant(k, cs[mid].v2));
    }
  }

  lemma AllOrdered(k: Kind, cs: seq<Case>)
    requires |cs| > 4 && Separate(k, cs) && FindsAll(k, cs)
    ensures var mid := |cs| / 2;
            && (forall i :: 0 <= i < mid ==> Constant(k, cs[i].v2) < Constant(k, cs[mid].v1))
            && (forall i :: mid < i < |cs| ==> Constant(k, cs[mid].v2) < Constant(k, cs[i].v1))
  {
    hide Constant, Search, Linear, Separate, FindsAll;
    forall i: nat | i < |cs|
      ensures i < |cs| / 2 ==> Constant(k, cs[i].v2) < Constant(k, cs[|cs| / 2].v1)
      ensures |cs| / 2 < i ==> Constant(k, cs[|cs| / 2].v2) < Constant(k, cs[i].v1)
    {
      FoundMeansOrdered(k, cs, i);
    }
  }

  lemma HalvesFind(k: Kind, cs: seq<Case>)
    requires |cs| > 4 && Separate(k, cs) && FindsAll(k, cs)
    ensures FindsAll(k, cs[..|cs| / 2]) && FindsAll(k, cs[|cs| / 2 + 1..])
  {
    hide Constant, Search, Linear, Separate;
    var (left, right) := (cs[..|cs| / 2], cs[|cs| / 2 + 1..]);
    forall x ensures Search(k, left, x) == Linear(k, left, x) { LeftFinds(k, cs, x); }
    forall x ensures Search(k, right, x) == Linear(k, right, x) { RightFinds(k, cs, x); }
  }

  lemma {:induction false} FindsNavigable(k: Kind, cs: seq<Case>)
    requires Separate(k, cs) && FindsAll(k, cs)
    ensures Navigable(k, cs)
    decreases |cs|
  {
    if |cs| > 4 {
      hide Constant, Separate, FindsAll;
      AllOrdered(k, cs);
      HalvesFind(k, cs);
      SeparateParts(k, cs, |cs| / 2);
      FindsNavigable(k, cs[..|cs| / 2]);
      FindsNavigable(k, cs[|cs| / 2 + 1..]);
    }
  }

  lemma LeftFinds(k: Kind, cs: seq<Case>, x: int)
    requires |cs| > 4 && Separate(k, cs) && FindsAll(k, cs)
    ensures Search(k, cs[..|cs| / 2], x) == Linear(k, cs[..|cs| / 2], x)
  {
    var mid := |cs| / 2;
    var left := cs[..mid];
    if x < Constant(k, cs[mid].v1) {
      assert Constant(k, cs[mid].v1) <= Constant(k, cs[mid].v2);
      assert Search(k, cs, x) == Search(k, left, x) < mid;
      AtMostOneHit(k, cs, x, mid);
      LinearLeft(k, cs, mid, x);
    } else {
      forall i: nat | i < mid ensures !Hit(k, left[i], x) { FoundMeansOrdered(k, cs, i); }
      NoHitIsLinear(k, left, x);
    }
  }

  lemma RightFinds(k: Kind, cs: seq<Case>, x: int)
    requires |cs| > 4 && Separate(k, cs) && FindsAll(k, cs)
    ensures Search(k, cs[|cs| / 2 + 1..], x) == Linear(k, cs[|cs| / 2 + 1..], x)
  {
    var mid := |cs| / 2;
    var right := cs[mid + 1..];
    if x > Constant(k, cs[mid].v2) {
      assert Search(k, cs, x) == Shifted(Search(k, right, x), mid + 1);
      LinearIsFirst(k, cs, x);
      LinearRight(k, cs, mid, x);
    } else {
      forall i: nat | i < |right| ensures !Hit(k, right[i], x) {
        FoundMeansOrdered(k, cs, i + mid + 1);
        assert right[i] == cs[i + mid + 1];
      }
      NoHitIsLinear(k, right, x);
    }
  }

  /** When the linear answer lies below mid nothing from mid on is hit. */
  lemma AtMostOneHit(k: Kind, cs: seq<Case>, x: int, mid: nat)
    requires Separate(k, cs) && Linear(k, cs, x) < mid
    ensures forall i :: mid <= i < |cs| ==> !Hit(k, cs[i], x)
  {
    hide Hit, Constant;
    LinearIsFirst(k, cs, x);
  }

  /** Main result: the tree agrees with a linear search for every value exactly when the sorted
      ranges are also in order after conversion to the compared type. */
  lemma SearchCorrectIff(k: Kind, cs: seq<Case>)
    requires Separate(k, cs)
    ensures FindsAll(k, cs) <==> Navigable(k, cs)
  {
    hide Navigable, Search, Linear, Separate;
    if Navigable(k, cs) {
      forall x ensures Search(k, cs, x) == Linear(k, cs, x) { NavigableFinds(k, cs, x); }
    }
    if FindsAll(k, cs) { FindsNavigable(k, cs); }
  }

  // ---------------------------------------------- any list, for a single value

  predicate AnyHit(k: Kind, cs: seq<Case>, x: int) { Linear(k, cs, x) != -1 }

  /** At a middle range from v1 to v2 the part not taken has no range that comes first: going
      right or staying, none on the left has x; going left, one on the right has x only if one on
      the left has it too. And so on in the part taken. */
  predicate SteeredBy(v1: int, v2: int, x: int, leftHit: bool, rightHit: bool, leftOk: bool, rightOk: bool)
  {
    if x > v2 then !leftHit && rightOk else if x >= v1 then !leftHit else (rightHit ==> leftHit) && leftOk
  }

  /** That, at each middle range that the value x passes. */
  ghost predicate Steered(k: Kind, cs: seq<Case>, x: int)
  {
    |cs| <= 4 ||
    var (left, mid, right) := (cs[..|cs| / 2], cs[|cs| / 2], cs[|cs| / 2 + 1..]);
    SteeredBy(Constant(k, mid.v1), Constant(k, mid.v2), x,
      AnyHit(k, left, x), AnyHit(k, right, x), Steered(k, left, x), Steered(k, right, x))
  }

  lemma {:induction false} LinearSplit(k: Kind, cs: seq<Case>, n: nat, x: int)
    requires n <= |cs|
    ensures Linear(k, cs, x) ==
              if AnyHit(k, cs[..n], x) then Linear(k, cs[..n], x) else Shifted(Linear(k, cs[n..], x), n)
  {
    if n == 0 {
      assert cs[0..] == cs;
    } else {
      LinearSplit(k, cs[1..], n - 1, x);
      assert cs[1..][..n - 1] == cs[..n][1..] && cs[1..][n - 1..] == cs[n..];
    }
  }

  lemma LinearAround(k: Kind, cs: seq<Case>, mid: nat, x: int)
    requires mid < |cs|
    ensures Linear(k, cs, x) ==
              if Linear(k, cs[..mid], x) != -1 then Linear(k, cs[..mid], x)
              else if Constant(k, cs[mid].v1) <= x <= Constant(k, cs[mid].v2) then mid
              else Shifted(Linear(k, cs[mid + 1..], x), mid + 1)
  {
    LinearSplit(k, cs, mid, x);
    assert cs[mid..][1..] == cs[mid + 1..];
  }

  /** What is found in a list is found by a linear search too, there or before. */
  lemma SearchIsHit(k: Kind, cs: seq<Case>, x: int)
    ensures Search(k, cs, x) >= 0 ==> Linear(k, cs, x) != -1
  {
    LinearIsFirst(k, cs, x);
  }

  /** Main result, for any list of ranges, also one where converted constants collide or turn
      empty: for each value the tree arrives where a linear search does exactly if it is steered
      past no range that comes first. */
  lemma {:induction false} SearchAgreesIff(k: Kind, cs: seq<Case>, x: int)
    ensures Search(k, cs, x) == Linear(k, cs, x) <==> Steered(k, cs, x)
    decreases |cs|
  {
    if |cs| > 4 {
      SearchAgreesIff(k, cs[..|cs| / 2], x);
      SearchAgreesIff(k, cs[|cs| / 2 + 1..], x);
      hide Linear, Search, Steered;
      SteeredStep(k, cs, cs[..|cs| / 2], cs[|cs| / 2 + 1..], x);
    }
  }

  /** One step: the answers in the parts on the left and right are given, -1 for none. */
  lemma StepAgrees(v1: int, v2: int, x: int, mid: nat, inLeft: int, left: int, inRight: int, right: int)
    requires -1 <= inLeft < mid && -1 <= left < mid && -1 <= inRight && -1 <= right
    requires inLeft >= 0 ==> left != -1
    ensures (if x > v2 then Shifted(inRight, mid + 1) else if x < v1 then inLeft else mid) ==
            (if left != -1 then left else if v1 <= x <= v2 then mid else Shifted(right, mid + 1))
            <==> SteeredBy(v1, v2, x, left != -1, right != -1, inLeft == left, inRight == right)
  {
  }

  lemma SteeredStep(k: Kind, cs: seq<Case>, left: seq<Case>, right: seq<Case>, x: int)
    requires |cs| > 4 && left == cs[..|cs| / 2] && right == cs[|cs| / 2 + 1..]
    requires Search(k, left, x) == Linear(k, left, x) <==> Steered(k, left, x)
    requires Search(k, right, x) == Linear(k, right, x) <==> Steered(k, right, x)
    ensures Search(k, cs, x) == Linear(k, cs, x) <==> Steered(k, cs, x)
  {
    hide Constant, Linear, Search, Steered, SteeredBy, AnyHit, Hit, Shifted;
    var c := cs[|cs| / 2];
    var (v1, v2) := (Constant(k, c.v1), Constant(k, c.v2));
    SteeredUnfolds(k, cs, left, right, x);
    LinearAround(k, cs, |cs| / 2, x);
    SearchUnfolds(k, cs, x);
    SearchIsHit(k, left, x);
    StepAgrees(v1, v2, x, |cs| / 2, Search(k, left, x), Linear(k, left, x), Search(k, right, x), Linear(k, right, x));
  }

  lemma SteeredUnfolds(k: Kind, cs: seq<Case>, left: seq<Case>, right: seq<Case>, x: int)
    requires |cs| > 4 && left == cs[..|cs| / 2] && right == cs[|cs| / 2 + 1..]
    ensures Steered(k, cs, x) <==>
              SteeredBy(Constant(k, cs[|cs| / 2].v1), Constant(k, cs[|cs| / 2].v2), x,
                Linear(k, left, x) != -1, Linear(k, right, x) != -1, Steered(k, left, x), Steered(k, right, x))
  {
    hide Constant;
  }

  /** 0 and 0x100000000 are the same int: in this list the tree arrives at the second of them. */
  lemma CollisionCounterexample()
    ensures var cs := [Case(0, 0, 10), Case(3, 3, 11), Case(TWO32, TWO32, 12), Case(TWO32 + 5, TWO32 + 5, 13),
                       Case(TWO32 + 6, TWO32 + 6, 14)];
            Sorted(cs) && Linear(Int32, cs, 0) == 0 && Search(Int32, cs, 0) == 2
  {
  }

  /** What sorting and the test for duplicates establish about the constants themselves. */
  ghost predicate Sorted(cs: seq<Case>)
  {
    forall i, j :: 0 <= i < j < |cs| ==> cs[i].v2 < cs[j].v1
  }

  ghost predicate Representable(k: Kind, cs: seq<Case>)
  {
    forall i :: 0 <= i < |cs| ==>
      Constant(k, cs[i].v1) == cs[i].v1 && Constant(k, cs[i].v2) == cs[i].v2 && cs[i].v1 <= cs[i].v2
  }

  /** Main result: constants that fit the compared type are always found. */
  lemma RepresentableFinds(k: Kind, cs: seq<Case>, x: int)
    requires Sorted(cs) && Representable(k, cs)
    ensures Search(k, cs, x) == Linear(k, cs, x)
  {
    RepresentableNavigable(k, cs);
    NavigableFinds(k, cs, x);
  }

  lemma RepresentableSeparate(k: Kind, cs: seq<Case>)
    requires Sorted(cs) && Representable(k, cs)
    ensures Separate(k, cs)
  {
    hide Constant;
  }

  lemma {:induction false} RepresentableNavigable(k: Kind, cs: seq<Case>)
    requires Sorted(cs) && Representable(k, cs)
    ensures Separate(k, cs) && Navigable(k, cs)
    decreases |cs|
  {
    hide Constant, Separate;
    RepresentableSeparate(k, cs);
    if |cs| > 4 {
      RepresentableNavigable(k, cs[..|cs| / 2]);
      RepresentableNavigable(k, cs[|cs| / 2 + 1..]);
    }
  }

  /** The five cases -1, 0, 1, 2, 3 of a switch over an unsigned int: the constants are sorted
      before they are converted, and the one that becomes the greatest is not found. */
  lemma UnsignedCounterexample()
    ensures var cs := [Case(-1, -1, 10), Case(0, 0, 11), Case(1, 1, 12), Case(2, 2, 13), Case(3, 3, 14)];
            && Sorted(cs) && Linear(UInt32, cs, 0xffff_ffff) == 0 && Search(UInt32, cs, 0xffff_ffff) == -1
  {
    var cs := [Case(-1, -1, 10), Case(0, 0, 11), Case(1, 1, 12), Case(2, 2, 13), Case(3, 3, 14)];
    assert Constant(UInt32, -1) == 0xffff_ffff;
    assert cs[3..] == [Case(2, 2, 13), Case(3, 3, 14)];
    NoHitIsLinear(UInt32, cs[3..], 0xffff_ffff);
  }
}
