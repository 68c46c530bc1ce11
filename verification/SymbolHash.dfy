/** The hash section of a symbol table: the words
      [buckets, symbols, head(0) .. head(buckets-1), next(0) .. next(symbols-1)].
    The invariant `HashOk` gives every word as a function of the symbol list. */
module SymbolHash {
  import opened Basics
  import opened ElfSymbols
  import opened IntegerBits
  import opened BitLemmas

  /** The ELF name hash on a machine whose `unsigned long` has 64 bits. */
  function ElfHashFrom(h: int, name: Name): (r: int)
    requires 0 <= h < 0x1_0000_0000_0000_0000
    ensures 0 <= r < 0x1_0000_0000_0000_0000
    decreases |name|
  {
    if name == [] then h else ElfHashFrom(ElfHashStep(h, name[0]), name[1..])
  }

  function ElfHashStep(h: int, c: Byte): (r: int)
    requires 0 <= h < 0x1_0000_0000_0000_0000
    ensures 0 <= r < 0x1_0000_0000_0000_0000
  {
    var h1 := (h * 16 + c) % 0x1_0000_0000_0000_0000;
    var g := And(h1, 0xf000_0000);
    var h2 := if g != 0 then Xor(h1, g / 0x100_0000) else h1;
    And(h2, Not(g)) % 0x1_0000_0000_0000_0000
  }

  function ElfHash(name: Name): nat { ElfHashFrom(0, name) }

  lemma FourBits(hi: int, i: nat)
    requires 0 <= hi < 16
    ensures Bit(hi, i) ==> i < 4 && Bit(15, i)
  {
    assert Pow2(4) == 16;
    BitOnes(4, i);
    BitMod(hi, 4, i);
  }

  lemma HighBits(lo: int, hi: int, i: nat)
    requires 0 <= lo < Pow2(28) && 0 <= hi < 16
    ensures Bit(lo + Pow2(28) * hi, i) == if i < 28 then Bit(lo, i) else Bit(hi, i - 28)
    ensures Bit(Pow2(28) * hi, i) == (i >= 28 && Bit(hi, i - 28))
    ensures Bit(Pow2(28) * 15, i) == (i >= 28 && Bit(15, i - 28))
    ensures Bit(16 * hi, i) ==> i < 8
    ensures i >= 28 ==> !Bit(lo, i) && (Bit(hi, i - 28) ==> Bit(15, i - 28))
  {
    hide Bit, Pow2;
    BitConcat(lo, hi, 28, i);
    BitConcat(0, hi, 28, i);
    BitConcat(0, 15, 28, i);
    BitConstant(i);
    BitMod(lo, 28, i);
    DivUnique(lo, Pow2(28), 0, lo);
    if i >= 28 { FourBits(hi, i - 28); }
    assert Pow2(4) == 16 by { Sixteen(); }
    BitConcat(0, hi, 4, i);
    if i >= 4 { FourBits(hi, i - 4); }
  }

  lemma Sixteen()
    ensures Pow2(4) == 16
  {
  }

  lemma PowerOf28()
    ensures Pow2(28) == 0x1000_0000
  {
    assert Pow2(7) == 128;
    Pow2Sum(7, 7);
    Pow2Sum(14, 14);
  }

  /** The mask takes the upper four of 32 bits. */
  lemma TopFour(lo: int, hi: int)
    requires 0 <= lo < Pow2(28) && 0 <= hi < 16
    ensures And(lo + Pow2(28) * hi, Pow2(28) * 15) == Pow2(28) * hi
  {
    hide Bit, And, Pow2;
    var x := lo + Pow2(28) * hi;
    forall i: nat ensures Bit(And(x, Pow2(28) * 15), i) == Bit(Pow2(28) * hi, i) {
      HighBits(lo, hi, i);
      BitAnd(x, Pow2(28) * 15, i);
    }
    BitsDetermine(And(x, Pow2(28) * 15), Pow2(28) * hi);
  }

  /** They are folded in four bits from the bottom, and cleared. */
  lemma FoldTop(lo: int, hi: int)
    requires 0 <= lo < Pow2(28) && 0 <= hi < 16
    ensures And(Xor(lo + Pow2(28) * hi, 16 * hi), Not(Pow2(28) * hi)) == Xor(lo, 16 * hi)
  {
    hide Bit, And, Xor, Not, Pow2;
    var x := lo + Pow2(28) * hi;
    forall i: nat
      ensures Bit(And(Xor(x, 16 * hi), Not(Pow2(28) * hi)), i) == Bit(Xor(lo, 16 * hi), i)
    {
      HighBits(lo, hi, i);
      BitAnd(Xor(x, 16 * hi), Not(Pow2(28) * hi), i);
      BitXor(x, 16 * hi, i);
      BitXor(lo, 16 * hi, i);
      BitNot(Pow2(28) * hi, i);
    }
    BitsDetermine(And(Xor(x, 16 * hi), Not(Pow2(28) * hi)), Xor(lo, 16 * hi));
  }

  lemma XorBound(lo: int, hi: int)
    requires 0 <= lo < Pow2(28) && 0 <= hi < 16
    ensures 0 <= Xor(lo, 16 * hi) < Pow2(28)
  {
    hide Bit, Xor, Pow2;
    var x := Xor(lo, 16 * hi);
    forall i: nat ensures Bit(x, i) == Bit(x % Pow2(28), i) {
      HighBits(lo, hi, i);
      BitXor(lo, 16 * hi, i);
      BitMod(x, 28, i);
    }
    BitsDetermine(x, x % Pow2(28));
  }

  lemma XorZero(x: int)
    ensures Xor(x, 0) == x && And(x, -1) == x
  {
    assert Or(x, 0) == Not(And(Not(x), -1));
    assert And(Not(x), -1) == Not(x) && And(x, 0) == 0;
  }

  /** Main result on the hash: one step shifts a character in and exclusive-ors the upper four of 32
      bits into bits 4 to 7; the result again has 28 bits. */
  lemma HashStepFolds(h: int, c: Byte)
    requires 0 <= h && h * 16 + c < 0x1_0000_0000
    ensures var x := h * 16 + c;
            && ElfHashStep(h, c) == Xor(x % 0x1000_0000, 16 * (x / 0x1000_0000))
            && 0 <= ElfHashStep(h, c) < 0x1000_0000
  {
    PowerOf28();
    hide And, Xor, Pow2;
    var x := h * 16 + c;
    var (lo, hi) := (x % Pow2(28), x / Pow2(28));
    assert x == lo + Pow2(28) * hi && 0 <= hi < 16;
    TopFour(lo, hi);
    FoldTop(lo, hi);
    XorBound(lo, hi);
    XorZero(lo);
    XorZero(x);
    assert Not(0) == -1;
  }

  function Bucket(name: Name, nb: nat): (b: nat)
    requires 0 < nb
    ensures b < nb
  {
    ElfHash(name) % nb
  }

  /** The largest index in [1, lim) of a non-local symbol that hashes to bucket b, else 0. */
  ghost function LastIn(syms: seq<Symbol>, nb: nat, b: nat, lim: nat): (r: nat)
    requires 0 < nb && lim <= |syms|
    ensures r == 0 || r < lim
  {
    if lim <= 1 then 0
    else if !IsLocal(syms[lim - 1].a) && Bucket(syms[lim - 1].name, nb) == b then lim - 1
    else LastIn(syms, nb, b, lim - 1)
  }

  lemma {:induction false} LastInMeaning(syms: seq<Symbol>, nb: nat, b: nat, lim: nat)
    requires 0 < nb && lim <= |syms|
    ensures var r := LastIn(syms, nb, b, lim);
            && (r == 0 || (!IsLocal(syms[r].a) && Bucket(syms[r].name, nb) == b))
            && forall i :: r < i < lim && 0 < i ==> IsLocal(syms[i].a) || Bucket(syms[i].name, nb) != b
  {
    hide Bucket;
    if lim > 1 { LastInMeaning(syms, nb, b, lim - 1); }
  }

  ghost function NextOf(syms: seq<Symbol>, nb: nat, i: nat): (r: nat)
    requires 0 < nb && i < |syms|
    ensures r == 0 || r < i
  {
    if IsLocal(syms[i].a) then 0 else LastIn(syms, nb, Bucket(syms[i].name, nb), i)
  }

  /** How many symbols with index in [1, lim) are in the index. */
  ghost function Hashed(syms: seq<Symbol>, lim: nat): (n: nat)
    requires lim <= |syms|
  {
    if lim <= 1 then 0
    else Hashed(syms, lim - 1) + if IsLocal(syms[lim - 1].a) then 0 else 1
  }

  function Head(h: seq<int>, b: nat): int
    requires 2 + b < |h|
  {
    h[2 + b]
  }

  function Next(h: seq<int>, nb: nat, i: nat): int
    requires 2 + nb + i < |h|
  {
    h[2 + nb + i]
  }

  /** The buckets and the chain words describe exactly the first n symbols. */
  ghost predicate WordsOk(h: seq<int>, nb: nat, syms: seq<Symbol>, n: nat)
  {
    && 0 < nb && 1 <= n <= |syms| && 2 + nb + n <= |h|
    && (forall b: nat :: b < nb ==> Head(h, b) == LastIn(syms, nb, b, n))
    && (forall i: nat :: 1 <= i < n ==> Next(h, nb, i) == NextOf(syms, nb, i))
  }

  ghost predicate HashOk(h: seq<int>, off: nat, nbHashed: nat, syms: seq<Symbol>)
  {
    && 2 <= |h| && 0 < h[0] && 1 <= |syms|
    && h[1] == |syms|
    && off == 2 + h[0] + |syms| <= |h|
    && WordsOk(h, h[0], syms, |syms|)
    && nbHashed == Hashed(syms, |syms|) <= 2 * h[0]
  }

  /** The index reads only names and bindings. */
  ghost predicate SameKeys(s: seq<Symbol>, t: seq<Symbol>)
  {
    |s| == |t| && forall i :: 0 <= i < |s| ==> s[i].name == t[i].name && IsLocal(s[i].a) == IsLocal(t[i].a)
  }

  lemma {:induction false} LastInPrefix(s: seq<Symbol>, t: seq<Symbol>, nb: nat, b: nat, lim: nat)
    requires 0 < nb && lim <= |s| <= |t| && SameKeys(s, t[..|s|])
    ensures LastIn(s, nb, b, lim) == LastIn(t, nb, b, lim)
  {
    if lim > 1 {
      assert s[lim - 1].name == t[..|s|][lim - 1].name;
      LastInPrefix(s, t, nb, b, lim - 1);
    }
  }

  lemma {:induction false} HashedPrefix(s: seq<Symbol>, t: seq<Symbol>, lim: nat)
    requires lim <= |s| <= |t| && SameKeys(s, t[..|s|])
    ensures Hashed(s, lim) == Hashed(t, lim)
  {
    if lim > 1 {
      assert IsLocal(s[lim - 1].a) == IsLocal(t[..|s|][lim - 1].a);
      HashedPrefix(s, t, lim - 1);
    }
  }

  lemma NextOfPrefix(s: seq<Symbol>, t: seq<Symbol>, nb: nat, i: nat)
    requires 0 < nb && i < |s| <= |t| && SameKeys(s, t[..|s|])
    ensures NextOf(s, nb, i) == NextOf(t, nb, i)
  {
    assert s[i].name == t[..|s|][i].name;
    LastInPrefix(s, t, nb, Bucket(s[i].name, nb), i);
  }

  /** Words that describe s also describe the first |s| symbols of any list with the same
      keys there. */
  lemma WordsPrefix(h: seq<int>, nb: nat, s: seq<Symbol>, t: seq<Symbol>)
    requires WordsOk(h, nb, s, |s|) && |s| <= |t| && SameKeys(s, t[..|s|])
    ensures WordsOk(h, nb, t, |s|)
  {
    forall b: nat | b < nb ensures Head(h, b) == LastIn(t, nb, b, |s|) {
      LastInPrefix(s, t, nb, b, |s|);
    }
    forall i: nat | 1 <= i < |s| ensures Next(h, nb, i) == NextOf(t, nb, i) {
      NextOfPrefix(s, t, nb, i);
    }
  }

  /** Changing values, sections or the global/weak distinction leaves the index valid. */
  lemma HashSameKeys(h: seq<int>, off: nat, nbHashed: nat, s: seq<Symbol>, t: seq<Symbol>)
    requires HashOk(h, off, nbHashed, s) && SameKeys(s, t)
    ensures HashOk(h, off, nbHashed, t)
  {
    assert t[..|s|] == t;
    WordsPrefix(h, h[0], s, t);
    HashedPrefix(s, t, |s|);
  }

  /** One more symbol enters the index: its word takes over the bucket head, and the head
      becomes the symbol. */
  lemma WordsStep(h: seq<int>, nb: nat, syms: seq<Symbol>, k: nat, h': seq<int>)
    requires WordsOk(h, nb, syms, k) && k < |syms| && 2 + nb + k < |h|
    requires var b := Bucket(syms[k].name, nb);
             h' == if IsLocal(syms[k].a) then h[2 + nb + k := 0]
                   else h[2 + nb + k := Head(h, b)][2 + b := k]
    ensures WordsOk(h', nb, syms, k + 1)
  {
    hide Bucket;
    forall b: nat | b < nb ensures Head(h', b) == LastIn(syms, nb, b, k + 1) {
      assert Head(h, b) == LastIn(syms, nb, b, k);
    }
    forall i: nat | 1 <= i < k + 1 ensures Next(h', nb, i) == NextOf(syms, nb, i) {
      if i < k {
        assert Next(h, nb, i) == NextOf(syms, nb, i);
      } else {
        var b := Bucket(syms[k].name, nb);
        assert Head(h, b) == LastIn(syms, nb, b, k);
      }
    }
  }

  /** No bucket has a symbol yet when only the null symbol is there. */
  lemma WordsStart(h: seq<int>, nb: nat, syms: seq<Symbol>)
    requires 0 < nb && 1 <= |syms| && 3 + nb <= |h|
    requires forall w :: 2 <= w < 2 + nb ==> h[w] == 0
    ensures WordsOk(h, nb, syms, 1)
  {
  }

  /** What adding a symbol writes: the grown section h1 gets the new symbol's word at its old
      end, the head of its bucket, and the symbol count. */
  function Linked(h1: seq<int>, off: nat, s: seq<Symbol>): (h2: seq<int>)
    requires 2 <= |h1| && 0 < h1[0] && off < |h1| && 1 <= |s| && 2 + h1[0] <= |h1|
  {
    var last := |s| - 1;
    var b := Bucket(s[last].name, h1[0]);
    (if IsLocal(s[last].a) then h1[off := 0] else h1[off := Head(h1, b)][2 + b := last])[1 := h1[1] + 1]
  }

  lemma WordsGrow(h: seq<int>, nb: nat, s: seq<Symbol>, n: nat, h1: seq<int>)
    requires WordsOk(h, nb, s, n) && |h| <= |h1| && h[2..] == h1[2..|h|]
    ensures WordsOk(h1, nb, s, n)
  {
    hide Bucket;
    forall b: nat | b < nb ensures Head(h1, b) == Head(h, b) {
      assert h[2..][b] == h1[2..|h|][b];
    }
    forall i: nat | 1 <= i < n ensures Next(h1, nb, i) == Next(h, nb, i) {
      assert h[2..][nb + i] == h1[2..|h|][nb + i];
    }
  }

  /** The old index covers all of the longer list but its last symbol. */
  lemma IndexOfPrefix(h: seq<int>, off: nat, nbHashed: nat, s: seq<Symbol>, h1: seq<int>)
    requires 2 <= |s| && HashOk(h, off, nbHashed, s[..|s| - 1]) && h <= h1
    ensures WordsOk(h1, h[0], s, |s| - 1)
    ensures Hashed(s, |s|) == nbHashed + if IsLocal(s[|s| - 1].a) then 0 else 1
  {
    hide Bucket;
    var n := |s| - 1;
    assert s[..n][..n] == s[..n];
    WordsPrefix(h, h[0], s[..n], s);
    HashedPrefix(s[..n], s, n);
    assert h[2..] == h1[2..|h|];
    WordsGrow(h, h[0], s, n, h1);
  }

  lemma LinkedOk(h1: seq<int>, off: nat, nb: nat, s: seq<Symbol>)
    requires 2 <= |s| && off < |h1| && 2 <= |h1| && h1[0] == nb && h1[1] == |s| - 1
    requires WordsOk(h1, nb, s, |s| - 1) && off == 2 + nb + |s| - 1
    ensures var h2 := Linked(h1, off, s);
            WordsOk(h2, nb, s, |s|) && h2[0] == nb && h2[1] == |s|
  {
    hide Bucket;
    var n := |s| - 1;
    var b := Bucket(s[n].name, nb);
    var h2 := if IsLocal(s[n].a) then h1[off := 0] else h1[off := Head(h1, b)][2 + b := n];
    WordsStep(h1, nb, s, n, h2);
    var h3 := Linked(h1, off, s);
    assert h3[2..] == h2[2..|h3|];
    WordsGrow(h2, nb, s, n + 1, h3);
  }

  /** Walking a chain skips nothing that could match. */
  lemma {:induction false} ChainSkips(s: seq<Symbol>, name: Name, nb: nat, lim: nat)
    requires 0 < nb && lim <= |s|
    ensures var r := LastIn(s, nb, Bucket(name, nb), lim);
            FindBelow(s, name, lim) == if r == 0 then 0 else if s[r].name == name then r else FindBelow(s, name, r)
  {
    hide Bucket;
    if lim > 1 { ChainSkips(s, name, nb, lim - 1); }
  }

  // -------------------------------------------------- as a loader reads the words

  /** From symbol `from` the chain leads to symbol i: the word of each symbol, behind two words and
      the buckets, names an earlier one. */
  ghost predicate Leads(h: seq<int>, nb: nat, from: nat, i: nat)
    decreases from
  {
    || from == i
    || (i < from && 2 + nb + from < |h| && 0 <= h[2 + nb + from] < from && Leads(h, nb, h[2 + nb + from], i))
  }

  lemma {:induction false} LeadsFrom(h: seq<int>, nb: nat, syms: seq<Symbol>, i: nat, lim: nat)
    requires WordsOk(h, nb, syms, |syms|) && 1 <= i < lim <= |syms| && !IsLocal(syms[i].a)
    ensures var r := LastIn(syms, nb, Bucket(syms[i].name, nb), lim); i <= r && Leads(h, nb, r, i)
    decreases lim
  {
    hide Bucket;
    var b := Bucket(syms[i].name, nb);
    LastInMeaning(syms, nb, b, lim);
    var r := LastIn(syms, nb, b, lim);
    assert i <= r;
    if i < r {
      LeadsFrom(h, nb, syms, i, r);
      assert Next(h, nb, r) == NextOf(syms, nb, r) == LastIn(syms, nb, b, r);
    }
  }

  /** Main result: whoever takes the remainder of the hash of a name by the first word, and follows
      the words from there, comes to every visible symbol of that name. */
  lemma EachReached(h: seq<int>, off: nat, nbHashed: nat, syms: seq<Symbol>, i: nat)
    requires HashOk(h, off, nbHashed, syms) && 1 <= i < |syms| && syms[i].a.info / 16 != 0
    ensures 0 < h[0] && h[1] == |syms|
    ensures var b := 2 + ElfHash(syms[i].name) % h[0];
            b < |h| && 0 <= h[b] < |syms| && Leads(h, h[0], h[b], i)
  {
    var b: nat := ElfHash(syms[i].name) % h[0];
    assert Bucket(syms[i].name, h[0]) == b;
    assert Head(h, b) == LastIn(syms, h[0], b, |syms|);
    LeadsFrom(h, h[0], syms, i, |syms|);
    hide ElfHash, Bucket;
  }
}
