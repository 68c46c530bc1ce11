/** The symbol section, its string section and its hash section, as the linker keeps them:
    three growing buffers that are overwritten in place, plus the relocation sections that
    name symbols by index. */
module SymbolTable {
  import opened Basics
  import opened ElfSymbols
  import opened SymbolHash

  /** A symbol record as stored: the name is an offset into the string section. */
  datatype ElfSym = ElfSym(stName: nat, a: Attrs)

  const ZERO_SYM := ElfSym(0, Attrs(0, 0, 0, 0, 0))

  datatype Reloc = Reloc(offset: int, typ: int, sym: int)

  /** A section of the output file, as far as relocations go: `count` entries are in use and
      `mark` of them were there when the current compilation began. */
  datatype RelocSection = RelocSection(isReloc: bool, forSymtab: bool, rels: seq<Reloc>, mark: nat)

  /** Entries from `from` on that name symbol first+k now name tr[k]. */
  function Retarget(rels: seq<Reloc>, from: nat, first: nat, tr: seq<nat>): (r: seq<Reloc>)
    requires forall k :: from <= k < |rels| ==> first <= rels[k].sym < first + |tr|
  {
    seq(|rels|, k requires 0 <= k < |rels| =>
      if k < from then rels[k] else rels[k].(sym := tr[rels[k].sym - first]))
  }

  /** Each relocation made in this compilation names one of its symbols. */
  ghost predicate RelocsInRange(rs: seq<RelocSection>, first: nat, n: nat)
  {
    forall i, k :: 0 <= i < |rs| && rs[i].isReloc && rs[i].forSymtab && rs[i].mark <= k < |rs[i].rels| ==>
      first <= rs[i].rels[k].sym < first + n
  }

  /** A `const char *`: bytes of the caller's, or a place inside the string section. */
  datatype NamePtr = Bytes(bytes: Name) | Inside(off: nat)

  /** A zero-terminated string sits at `off`, wholly below `lim`. */
  ghost predicate NameAt(str: seq<Byte>, lim: nat, off: nat, name: Name)
  {
    && off + |name| < lim <= |str|
    && str[off..off + |name|] == name
    && str[off + |name|] == 0
    && 0 !in name
  }

  lemma NameAtBytes(str: seq<Byte>, lim: nat, off: nat, name: Name)
    requires NameAt(str, lim, off, name)
    ensures forall k :: off <= k < off + |name| ==> str[k] == name[k - off] && str[k] != 0
  {
    assert forall k :: off <= k < off + |name| ==> str[k] == str[off..off + |name|][k - off];
    assert forall k :: 0 <= k < |name| ==> name[k] in name;
  }

  /** A string is unaffected by what happens outside its bytes. */
  lemma NameAtFrame(s: seq<Byte>, t: seq<Byte>, lim: nat, lim': nat, off: nat, name: Name)
    requires NameAt(s, lim, off, name) && off + |name| < lim' <= |t|
    requires forall k :: off <= k <= off + |name| ==> k < |t| && s[k] == t[k]
    ensures NameAt(t, lim', off, name)
  {
    assert t[off..off + |name|] == s[off..off + |name|];
  }

  lemma Spliced(pre: seq<Byte>, name: Name, post: seq<Byte>)
    requires 0 !in name
    ensures NameAt(pre + (name + [0]) + post, |pre| + |name| + 1, |pre|, name)
  {
    var s := pre + (name + [0]) + post;
    assert s[|pre|..|pre| + |name|] == name;
  }

  /** The records and the names together, as a symbol list. */
  ghost function View(recs: seq<ElfSym>, names: seq<Name>): (s: seq<Symbol>)
    requires |names| <= |recs|
    ensures |s| == |names|
    ensures forall i :: 0 <= i < |s| ==> s[i] == Symbol(names[i], recs[i].a)
  {
    seq(|names|, i requires 0 <= i < |names| => Symbol(names[i], recs[i].a))
  }

  ghost predicate NamesOk(str: seq<Byte>, lim: nat, recs: seq<ElfSym>, names: seq<Name>)
  {
    |names| <= |recs| && forall i :: 0 <= i < |names| ==> NameAt(str, lim, recs[i].stName, names[i])
  }

  /** Strings below a limit survive whatever is written above it. */
  lemma NamesFrame(str: seq<Byte>, lim: nat, str': seq<Byte>, lim': nat, recs: seq<ElfSym>, names: seq<Name>)
    requires NamesOk(str, lim, recs, names) && lim <= lim' <= |str'| && lim <= |str|
    requires forall k :: 0 <= k < lim ==> str'[k] == str[k]
    ensures NamesOk(str', lim', recs, names)
  {
    forall i | 0 <= i < |names| ensures NameAt(str', lim', recs[i].stName, names[i]) {
      NameAtFrame(str, str', lim, lim', recs[i].stName, names[i]);
    }
  }

  /** The names added since the marks lie above the string mark, one after the other. */
  ghost predicate TailOk(recs: seq<ElfSym>, names: seq<Name>, symMark: nat, strMark: nat)
    requires |names| <= |recs|
  {
    && (forall i :: 0 <= i < symMark && i < |names| ==> recs[i].stName + |names[i]| < strMark)
    && (forall i :: symMark <= i < |names| && recs[i].stName != 0 ==> strMark <= recs[i].stName)
    && (forall i, j :: symMark <= i < j < |names| && recs[i].stName != 0 && recs[j].stName != 0 ==>
          recs[i].stName + |names[i]| < recs[j].stName)
  }

  /** Appending a record whose name, if any, is the newest string keeps the tail in order. */
  lemma TailExtends(recs: seq<ElfSym>, names: seq<Name>, recs': seq<ElfSym>, name: Name,
                    symMark: nat, strMark: nat, str: seq<Byte>, lim: nat)
    requires NamesOk(str, lim, recs, names) && TailOk(recs, names, symMark, strMark)
    requires symMark <= |names| < |recs'| && strMark <= lim
    requires forall i :: 0 <= i < |names| ==> recs'[i] == recs[i]
    requires recs'[|names|].stName == 0 || recs'[|names|].stName == lim
    ensures TailOk(recs', names + [name], symMark, strMark)
  {
    forall i | 0 <= i < |names| ensures recs[i].stName + |names[i]| < lim {
      assert NameAt(str, lim, recs[i].stName, names[i]);
    }
  }

  /** Overwriting the attributes of one visible symbol touches neither names nor index. */
  lemma AttrsPatched(recs: seq<ElfSym>, names: seq<Name>, idx: nat, a: Attrs, str: seq<Byte>, lim: nat,
                     hash: seq<int>, off: nat, nbHashed: nat)
    requires 0 < idx < |names| && NamesOk(str, lim, recs, names)
    requires HashOk(hash, off, nbHashed, View(recs, names))
    requires !IsLocal(a) && !IsLocal(recs[idx].a)
    ensures var recs' := recs[idx := recs[idx].(a := a)];
            && NamesOk(str, lim, recs', names)
            && View(recs', names) == View(recs, names)[idx := Symbol(names[idx], a)]
            && HashOk(hash, off, nbHashed, View(recs', names))
  {
    hide HashOk, NameAt;
    var recs' := recs[idx := recs[idx].(a := a)];
    assert View(recs', names) == View(recs, names)[idx := Symbol(names[idx], a)];
    HashSameKeys(hash, off, nbHashed, View(recs, names), View(recs', names));
  }

  /** The records from `from` on are still as `recs` has them, and so are their names. */
  ghost predicate Unread(cur: seq<ElfSym>, str: seq<Byte>, recs: seq<ElfSym>, names: seq<Name>, from: nat)
  {
    && |names| <= |recs| && |cur| == |recs|
    && forall k :: from <= k < |names| ==> cur[k] == recs[k] && NameAt(str, |str|, recs[k].stName, names[k])
  }

  /** No unread name lies below the write position. */
  ghost predicate WriteBehindRead(recs: seq<ElfSym>, names: seq<Name>, from: nat, strOff: nat)
    requires |names| <= |recs|
  {
    forall k :: from <= k < |names| && recs[k].stName != 0 ==> strOff <= recs[k].stName
  }

  /** Cutting back to the marks leaves a table whose names are all below the string mark, and
      a tail that can still be read. */
  lemma CutBack(recs: seq<ElfSym>, names: seq<Name>, symMark: nat, strMark: nat, str: seq<Byte>, lim: nat)
    requires NamesOk(str, lim, recs, names) && TailOk(recs, names, symMark, strMark)
    requires symMark <= |names| && strMark <= lim <= |str|
    ensures NamesOk(str, strMark, recs, names[..symMark])
    ensures Unread(recs, str, recs, names, symMark) && WriteBehindRead(recs, names, symMark, strMark)
    ensures View(recs, names[..symMark]) == View(recs, names)[..symMark]
  {
    forall i | 0 <= i < symMark ensures NameAt(str, strMark, recs[i].stName, names[i]) {
      NameAtFrame(str, str, lim, strMark, recs[i].stName, names[i]);
    }
    forall i | symMark <= i < |names| ensures NameAt(str, |str|, recs[i].stName, names[i]) {
      NameAtFrame(str, str, lim, |str|, recs[i].stName, names[i]);
    }
  }

  /** A record above the table is not part of it. */
  lemma StaleWrite(recs: seq<ElfSym>, names: seq<Name>, k: nat, r: ElfSym, str: seq<Byte>, lim: nat)
    requires NamesOk(str, lim, recs, names) && |names| <= k < |recs|
    ensures NamesOk(str, lim, recs[k := r], names) && View(recs[k := r], names) == View(recs, names)
  {
  }

  /** A name that is being moved down needs no more room than it has. */
  lemma RoomForName(str: seq<Byte>, off: nat, name: Name, strOff: nat)
    requires NameAt(str, |str|, off, name) && 0 < |str| && str[0] == 0
    requires off != 0 ==> strOff <= off
    ensures off == 0 ==> name == []
    ensures name != [] ==> strOff + |name| < |str|
  {
    NameAtBytes(str, |str|, off, name);
  }

  /** Adding one symbol writes at most the bytes of that symbol's own old name, so what is
      still to be read stays as it was. */
  lemma ReadOn(cur: seq<ElfSym>, str: seq<Byte>, cur': seq<ElfSym>, str': seq<Byte>, strOff: nat, strOff': nat,
               recs: seq<ElfSym>, names: seq<Name>, i: nat, symMark: nat, strMark: nat)
    requires Unread(cur, str, recs, names, i) && symMark <= i < |names| && TailOk(recs, names, symMark, strMark)
    requires WriteBehindRead(recs, names, i, strOff) && 1 <= strOff <= |str| && str[0] == 0
    requires |cur'| == |cur| && |str'| == |str|
    requires forall k :: i < k < |cur| ==> cur'[k] == cur[k]
    requires forall k :: 0 <= k < |str| && !(strOff <= k < strOff') ==> str'[k] == str[k]
    requires strOff' == strOff || (strOff' == strOff + |names[i]| + 1 && recs[i].stName != 0)
    ensures Unread(cur', str', recs, names, i + 1) && WriteBehindRead(recs, names, i + 1, strOff')
  {
    forall k | i + 1 <= k < |names| ensures NameAt(str', |str'|, recs[k].stName, names[k]) {
      RoomForName(str, recs[k].stName, names[k], strOff);
      NameAtFrame(str, str', |str|, |str'|, recs[k].stName, names[k]);
    }
  }

  method Strlen(str: seq<Byte>, off: nat, ghost lim: nat, ghost name: Name) returns (n: nat)
    requires NameAt(str, lim, off, name)
    ensures n == |name| && str[off..off + n] == name
  {
    NameAtBytes(str, lim, off, name);
    n := 0;
    while str[off + n] != 0
      invariant n <= |name|
      decreases |name| - n
    {
      n := n + 1;
    }
  }

  method HashName(name: Name) returns (h: nat)
    ensures h == ElfHash(name)
  {
    h := 0;
    var i := 0;
    while i < |name|
      invariant i <= |name| && h < 0x1_0000_0000_0000_0000
      invariant ElfHashFrom(h, name[i..]) == ElfHash(name)
    {
      assert name[i..][1..] == name[i + 1..];
      h := ElfHashStep(h, name[i]);
      i := i + 1;
    }
  }

  method Slot(h: nat, nb: nat, ghost name: Name) returns (b: nat)
    requires 0 < nb && h == ElfHash(name)
    ensures b == Bucket(name, nb) < nb
  {
    b := h % nb;
  }

  class SymbolTable {
    const env: Env

    var syms: seq<ElfSym>     // symbol section buffer
    var symCount: nat         // entries in use
    var symMark: nat          // entries in use when the compilation began
    var str: seq<Byte>        // string section buffer
    var strOff: nat
    var strMark: nat
    var hash: seq<int>        // hash section buffer, in words
    var hashOff: nat
    var hashing: bool         // false while a compilation has parked the hash section
    var nbHashed: nat
    var relocs: seq<RelocSection>
    var relocOf: map<nat, nat>    // for a section by number: its relocation section, if it has one
    var errors: nat
    var newUndef: bool

    ghost var names: seq<Name>

    /** The symbols in index order, with their names. */
    ghost function Syms(): seq<Symbol>
      reads `syms, `names
      requires |names| <= |syms|
    {
      View(syms, names)
    }

    ghost function Tab(): Table
      reads `syms, `names, `errors, `newUndef
      requires |names| <= |syms|
    {
      Table(Syms(), errors, newUndef)
    }

    ghost predicate BuffersOk()
      reads this
    {
      && 1 <= symCount <= |syms| && |names| == symCount
      && 1 <= strOff <= |str| && str[0] == 0
      && NamesOk(str, strOff, syms, names)
      && IsLocal(syms[0].a)
    }

    /** Outside a compilation: the hash index covers the whole table. */
    ghost predicate Valid()
      reads this
    {
      BuffersOk() && hashing && HashOk(hash, hashOff, nbHashed, Syms())
    }

    /** Each relocation section belongs to one section at most. */
    ghost predicate RelocsOk()
      reads this
    {
      && (forall s :: s in relocOf ==> relocOf[s] < |relocs|)
      && (forall s, t :: s in relocOf && t in relocOf && s != t ==> relocOf[s] != relocOf[t])
    }

    /** The relocations of a section. */
    ghost function RelocsOf(s: nat): seq<Reloc>
      reads this
      requires RelocsOk()
    {
      if s in relocOf then relocs[relocOf[s]].rels else []
    }

    /** During a compilation: the index is parked and covers the symbols below the mark, and
        the names added since lie above the string mark, in symbol order. */
    ghost predicate Compiling()
      reads this
    {
      && BuffersOk() && !hashing
      && 1 <= symMark <= symCount && 1 <= strMark <= strOff
      && HashOk(hash, hashOff, nbHashed, Syms()[..symMark])
      && TailOk(syms, names, symMark, strMark)
    }

    /** A fresh table: the null symbol, the empty string, one empty bucket. */
    constructor (env: Env, sections: seq<RelocSection>)
      ensures Valid() && this.env == env && relocs == sections
      ensures Syms() == [Symbol([], Attrs(0, 0, 0, 0, 0))] && errors == 0 && !newUndef
    {
      this.env := env;
      syms, symCount, symMark := [ZERO_SYM], 1, 0;
      str, strOff, strMark := [0], 1, 0;
      hash, hashOff, hashing, nbHashed := [1, 1, 0, 0], 4, true, 0;
      relocs, relocOf, errors, newUndef, names := sections, map[], 0, false, [[]];
    }

    /** During a compilation the code generator fills in what it learns about one of its own
        symbols: everything but the name may change. */
    method PatchSym(idx: nat, a: Attrs)
      requires Compiling() && symMark <= idx < symCount
      modifies `syms
      ensures Compiling() && Syms() == old(Syms())[idx := Symbol(names[idx], a)]
    {
      hide HashOk, NameAt;
      syms := syms[idx := syms[idx].(a := a)];
      assert Syms() == old(Syms())[idx := Symbol(names[idx], a)];
      assert Syms()[..symMark] == old(Syms())[..symMark];
    }

    /** Makes room for one more entry; what was in the buffer stays there. */
    method ReserveSym()
      requires symCount <= |syms|
      modifies `syms
      ensures symCount < |syms| && old(syms) <= syms
      ensures old(symCount < |syms|) ==> syms == old(syms)
    {
      if symCount < |syms| { return; }
      var size := if |syms| == 0 then 1 else |syms|;
      while size < symCount + 1
        invariant |syms| <= size && 0 < size
      {
        size := size * 2;
      }
      syms := syms + seq(size - |syms|, _ => ZERO_SYM);
    }

    method ReserveStr(len: nat)
      requires strOff <= |str|
      modifies `str
      ensures strOff + len <= |str| && old(str) <= str
      ensures old(strOff + len <= |str|) ==> str == old(str)
    {
      if strOff + len <= |str| { return; }
      var size := if |str| == 0 then 1 else |str|;
      while size < strOff + len
        invariant |str| <= size && 0 < size
      {
        size := size * 2;
      }
      str := str + seq(size - |str|, _ => 0);
    }

    method ReserveHash(words: nat)
      requires hashOff <= |hash|
      modifies `hash
      ensures hashOff + words <= |hash| && old(hash) <= hash
    {
      if hashOff + words <= |hash| { return; }
      var size := if |hash| == 0 then 1 else |hash|;
      while size < hashOff + words
        invariant |hash| <= size && 0 < size
      {
        size := size * 2;
      }
      hash := hash + seq(size - |hash|, _ => 0);
    }

    /** The string a name pointer denotes. */
    ghost predicate Denotes(p: NamePtr, name: Name)
      reads `str
    {
      match p
      case Bytes(b) => b == name && 0 !in name
      case Inside(off) => NameAt(str, |str|, off, name)
    }

    /** Copies a string to the end of the string section.  A string that already lies inside
        the buffer must fit without growing it, or the growth would leave the pointer dangling. */
    method PutElfStr(p: NamePtr, ghost name: Name) returns (offset: nat)
      requires 1 <= strOff <= |str| && Denotes(p, name)
      requires p.Inside? ==> strOff + |name| < |str|
      modifies `str, `strOff
      ensures offset == old(strOff) && strOff == old(strOff) + |name| + 1 <= |str|
      ensures NameAt(str, strOff, offset, name)
      ensures p.Inside? ==> |str| == old(|str|)
      ensures old(|str|) <= |str|
      ensures forall k :: 0 <= k < old(|str|) && !(offset <= k < strOff) ==> str[k] == old(str[k])
    {
      offset := strOff;
      var piece: seq<Byte>;
      match p {
        case Bytes(b) =>
          ReserveStr(|b| + 1);
          piece := b + [0];
        case Inside(off) =>
          var n := Strlen(str, off, |str|, name);
          ReserveStr(n + 1);
          piece := str[off..off + n + 1];
      }
      assert piece == name + [0];
      str := str[..offset] + piece + str[offset + |piece|..];
      strOff := offset + |piece|;
      Spliced(str[..offset], name, str[strOff..]);
    }

    /** Reads the name of a stored symbol. */
    method ReadName(off: nat, ghost lim: nat, ghost name: Name) returns (r: Name)
      requires NameAt(str, lim, off, name)
      ensures r == name
    {
      var n := Strlen(str, off, lim, name);
      r := str[off..off + n];
    }

    method RebuildHash(buckets: nat)
      requires BuffersOk() && 2 <= |hash| && 0 < hash[0]
      modifies `hash, `hashOff
      ensures var nb := if buckets == 0 then old(hash[0]) else buckets;
              && WordsOk(hash, nb, Syms(), symCount)
              && hash[0] == nb && hash[1] == symCount && hashOff == 2 + nb + symCount <= |hash|
    {
      hide Bucket, ElfHash, LastIn, NextOf, WordsOk, Head, Next, Hashed, IsLocal;
      var nb := if buckets == 0 then hash[0] else buckets;
      hashOff := 0;
      ReserveHash(2 + nb + symCount);
      hashOff := 2 + nb + symCount;
      hash := [nb, symCount] + seq(nb + 1, _ => 0) + hash[3 + nb..];
      WordsStart(hash, nb, Syms());
      var i := 1;
      while i < symCount
        invariant 1 <= i <= symCount && 2 + nb + symCount <= |hash|
        invariant WordsOk(hash, nb, Syms(), i)
        invariant hash[0] == nb && hash[1] == symCount && hashOff == 2 + nb + symCount
      {
        ghost var before := hash;
        if !IsLocal(syms[i].a) {
          var name := ReadName(syms[i].stName, strOff, names[i]);
          var h := HashName(name);
          h := Slot(h, nb, name);
          hash := hash[2 + nb + i := Head(hash, h)];
          hash := hash[2 + h := i];
        } else {
          hash := hash[2 + nb + i := 0];
        }
        WordsStep(before, nb, Syms(), i, hash);
        i := i + 1;
      }
    }

    /** The hashing half of adding a symbol: the last one is not yet in the index. */
    method HashLastSym()
      requires BuffersOk() && 2 <= symCount
      requires HashOk(hash, hashOff, nbHashed, Syms()[..symCount - 1])
      modifies `hash, `hashOff, `nbHashed
      ensures HashOk(hash, hashOff, nbHashed, Syms())
    {
      hide Bucket, ElfHash, LastIn, NextOf, WordsOk, Next, Hashed, IsLocal;
      var nb, ptr, last := hash[0], hashOff, symCount - 1;
      ReserveHash(1);
      IndexOfPrefix(old(hash), ptr, nbHashed, Syms(), hash);
      LinkedOk(hash, ptr, nb, Syms());
      hashOff := hashOff + 1;
      ghost var want := Linked(hash, ptr, Syms());
      if !IsLocal(syms[last].a) {
        var name := ReadName(syms[last].stName, strOff, names[last]);
        var h := HashName(name);
        h := Slot(h, nb, name);
        hash := hash[ptr := Head(hash, h)];
        hash := hash[2 + h := last];
        hash := hash[1 := hash[1] + 1];
        assert hash == want;
        nbHashed := nbHashed + 1;
        if nbHashed > 2 * nb {
          RebuildHash(2 * nb);
        }
      } else {
        hash := hash[ptr := 0];
        hash := hash[1 := hash[1] + 1];
        assert hash == want;
      }
    }
  
    /** The part of adding a symbol that does not concern the index. */
    method AppendRecord(a: Attrs, p: NamePtr, ghost name: Name)
      requires BuffersOk() && Denotes(p, name)
      requires p.Inside? && name != [] ==> strOff + |name| < |str|
      modifies `syms, `symCount, `str, `strOff, `names
      ensures BuffersOk() && symCount == old(symCount) + 1 && names == old(names) + [name]
      ensures syms[old(symCount)].a == a
      ensures syms[old(symCount)].stName == if name == [] then 0 else old(strOff)
      ensures strOff == old(strOff) + if name == [] then 0 else |name| + 1
      ensures old(|syms|) <= |syms| && (old(symCount < |syms|) ==> |syms| == old(|syms|))
      ensures p.Inside? ==> |str| == old(|str|)
      ensures forall k :: 0 <= k < old(|syms|) && k != old(symCount) ==> syms[k] == old(syms[k])
      ensures forall k :: 0 <= k < old(|str|) && k < |str| && !(old(strOff) <= k < strOff) ==> str[k] == old(str[k])
    {
      var idx := symCount;
      ReserveSym();
      symCount := symCount + 1;
      var named := match p case Bytes(b) => b != [] case Inside(off) => str[off] != 0;
      assert named == (name != []) by {
        if p.Inside? { NameAtBytes(str, |str|, p.off, name); }
      }
      var nameOffset := 0;
      if named {
        nameOffset := PutElfStr(p, name);
      }
      NamesFrame(old(str), old(strOff), str, strOff, old(syms), old(names));
      syms := syms[idx := ElfSym(nameOffset, a)];
      names := names + [name];
      forall i | 0 <= i < |names| ensures NameAt(str, strOff, syms[i].stName, names[i]) {
        if i < idx { assert NameAt(str, strOff, old(syms)[i].stName, old(names)[i]); }
      }
    }

    /** Appends a symbol and its name, and enters it in the index if there is one. */
    method PutElfSym(a: Attrs, p: NamePtr, ghost name: Name) returns (idx: nat)
      requires (Valid() || Compiling()) && Denotes(p, name)
      requires p.Inside? && name != [] ==> strOff + |name| < |str|
      modifies `syms, `symCount, `str, `strOff, `hash, `hashOff, `nbHashed, `names
      ensures old(Valid()) ==> Valid()
      ensures old(Compiling()) ==> Compiling()
      ensures idx == old(symCount) && Syms() == old(Syms()) + [Symbol(name, a)]
      ensures strOff == old(strOff) + if name == [] then 0 else |name| + 1
      ensures old(symCount < |syms|) ==> |syms| == old(|syms|)
      ensures p.Inside? ==> |str| == old(|str|)
      ensures forall k :: old(symCount) < k < old(|syms|) && k < |syms| ==> syms[k] == old(syms[k])
      ensures forall k :: 0 <= k < old(|str|) && k < |str| && !(old(strOff) <= k < strOff) ==> str[k] == old(str[k])
    {
      hide HashOk, NameAt, NamesOk;
      idx := symCount;
      AppendRecord(a, p, name);
      assert Syms() == old(Syms()) + [Symbol(name, a)];
      assert Syms()[..symCount - 1] == old(Syms());
      if hashing {
        HashLastSym();
      } else {
        assert Syms()[..symMark] == old(Syms())[..symMark];
        TailExtends(old(syms), old(names), syms, name, symMark, strMark, old(str), old(strOff));
      }
    }

    /** Looks a name up through the index: the last non-local symbol of that name, or 0. */
    method FindElfSym(p: NamePtr, ghost name: Name) returns (idx: nat)
      requires (Valid() || Compiling()) && Denotes(p, name)
      ensures idx == if hashing then Find(Syms(), name) else 0
      ensures hashing ==> idx < symCount && (idx != 0 ==> !IsLocal(syms[idx].a) && names[idx] == name)
      ensures hashing ==> forall i :: idx < i < symCount ==> IsLocal(syms[i].a) || names[i] != name
    {
      hide Bucket, ElfHash, LastIn, FindBelow;
      if !hashing { return 0; }
      var wanted: Name;
      match p {
        case Bytes(b) => wanted := b;
        case Inside(off) => wanted := ReadName(off, |str|, name);
      }
      var nb := hash[0];
      var h := HashName(wanted);
      h := Slot(h, nb, name);
      var i := Head(hash, h);
      ghost var lim: nat := symCount;
      while i != 0
        invariant 0 <= i < symCount && lim <= symCount && (i != 0 ==> i < lim)
        invariant i == LastIn(Syms(), nb, h, lim)
        invariant Find(Syms(), name) == FindBelow(Syms(), name, lim)
        decreases i
      {
        ChainSkips(Syms(), name, nb, lim);
        LastInMeaning(Syms(), nb, h, lim);
        var name1 := ReadName(syms[i].stName, strOff, names[i]);
        if wanted == name1 {
          FindBelowIsLast(Syms(), name, symCount);
          return i;
        }
        lim := i;
        assert Next(hash, nb, i) == NextOf(Syms(), nb, i);
        i := Next(hash, nb, i);
      }
      ChainSkips(Syms(), name, nb, lim);
      FindBelowIsLast(Syms(), name, symCount);
      idx := 0;
    }
  
    /** Adds a symbol, or merges it with the non-local symbol of that name already there. */
    method SetElfSym(a: Attrs, p: NamePtr, ghost name: Name) returns (idx: nat)
      requires (Valid() || Compiling()) && Denotes(p, name)
      requires p.Inside? && name != [] ==> strOff + |name| < |str|
      modifies `syms, `symCount, `str, `strOff, `hash, `hashOff, `nbHashed, `names, `errors, `newUndef
      ensures old(Valid()) ==> Valid() && (Tab(), idx) == SetSymbol(old(Tab()), Symbol(name, a), env)
      ensures old(Compiling()) ==> Compiling() && Syms() == old(Syms()) + [Symbol(name, a)]
                                   && idx == old(symCount) && errors == old(errors)
      ensures strOff == old(strOff) || strOff == old(strOff) + |name| + 1
      ensures symCount <= old(symCount) + 1
      ensures old(symCount < |syms|) ==> |syms| == old(|syms|)
      ensures p.Inside? ==> |str| == old(|str|)
      ensures name == [] ==> strOff == old(strOff)
      ensures forall k :: old(symCount) < k < old(|syms|) && k < |syms| ==> syms[k] == old(syms[k])
      ensures forall k :: 0 <= k < old(|str|) && k < |str| && !(old(strOff) <= k < strOff) ==> str[k] == old(str[k])
    {
      hide HashOk, NameAt, NamesOk, Find, LastIn, Bucket;
      if Bind(a.info) != STB_LOCAL {
        idx := FindElfSym(p, name);
        if idx != 0 {
          MeetSymbol(idx, a);
          return;
        }
      }
      idx := PutElfSym(a, p, name);
    }

    /** The symbol at idx meets another definition or reference of the same name. */
    method MeetSymbol(idx: nat, a: Attrs)
      requires Valid() && 0 < idx < symCount && !IsLocal(syms[idx].a) && !IsLocal(a)
      modifies `syms, `errors, `newUndef
      ensures Valid() && |syms| == old(|syms|)
      ensures forall k :: 0 <= k < |syms| && k != idx ==> syms[k] == old(syms[k])
      ensures var o := Resolve(old(syms[idx].a), a, env);
              && Syms() == old(Syms())[idx := Symbol(names[idx], o.a)]
              && errors == old(errors) + (if o.clash then 1 else 0)
              && newUndef == (old(newUndef) || o.patched)
    {
      hide HashOk, NameAt, NamesOk, View, Resolve;
      ghost var o := Resolve(syms[idx].a, a, env);
      MeetEntry(idx, a);
      ResolveStaysNonLocal(old(syms[idx].a), a, env);
      AttrsPatched(old(syms), names, idx, o.a, str, strOff, hash, hashOff, nbHashed);
    }

    /** Patches one record, in place, when it meets another symbol of its name. */
    method MeetEntry(idx: nat, a: Attrs)
      requires idx < |syms|
      modifies `syms, `errors, `newUndef
      ensures var o := Resolve(old(syms[idx].a), a, env);
              && syms == old(syms)[idx := old(syms[idx]).(a := o.a)]
              && errors == old(errors) + (if o.clash then 1 else 0)
              && newUndef == (old(newUndef) || o.patched)
    {
      hide IsLocal, Bind, Visibility, WithVisibility, AsmSet;
      var e := syms[idx].a;
      if e == a {
        return;
      }
      var other := a.other;
      var patch := e.shndx == SHN_UNDEF;
      if e.shndx != SHN_UNDEF {
        var symBind, esymBind := Bind(a.info), Bind(e.info);
        var symVis, esymVis := Visibility(a.other), Visibility(e.other);
        var newVis;
        if esymVis == STV_DEFAULT {
          newVis := symVis;
        } else if symVis == STV_DEFAULT {
          newVis := esymVis;
        } else {
          newVis := if esymVis < symVis then esymVis else symVis;
        }
        other := WithVisibility(e.other, newVis);
        e := e.(other := other);
        syms := syms[idx := syms[idx].(a := e)];
        if a.shndx == SHN_UNDEF {
        } else if symBind == STB_GLOBAL && esymBind == STB_WEAK {
          patch := true;
        } else if symBind == STB_WEAK && esymBind == STB_GLOBAL {
        } else if symBind == STB_WEAK && esymBind == STB_WEAK {
        } else if symVis == STV_HIDDEN || symVis == STV_INTERNAL {
        } else if (e.shndx == SHN_COMMON || e.shndx == env.bss) && a.shndx < SHN_LORESERVE && a.shndx != env.bss {
          patch := true;
        } else if a.shndx == SHN_COMMON || a.shndx == env.bss {
        } else if env.dynamicTable {
        } else if AsmSet(e.other) {
          patch := true;
        } else {
          errors := errors + 1;
        }
      }
      if patch {
        syms := syms[idx := syms[idx].(a := a.(other := other))];
        newUndef := true;
      }
    }

    /** Parks the index and remembers how far each section is filled. */
    method BeginFile()
      requires Valid()
      modifies `relocs, `symMark, `strMark, `hashing
      ensures Compiling() && symMark == symCount && strMark == strOff
      ensures |relocs| == |old(relocs)|
      ensures forall i :: 0 <= i < |relocs| ==> relocs[i] == old(relocs)[i].(mark := |old(relocs)[i].rels|)
    {
      hide HashOk;
      var i := 0;
      while i < |relocs|
        invariant 0 <= i <= |relocs| == |old(relocs)|
        invariant forall k :: 0 <= k < i ==> relocs[k] == old(relocs)[k].(mark := |old(relocs)[k].rels|)
        invariant forall k :: i <= k < |relocs| ==> relocs[k] == old(relocs)[k]
      {
        relocs := relocs[i := relocs[i].(mark := |relocs[i].rels|)];
        i := i + 1;
      }
      symMark, strMark := symCount, strOff;
      hashing := false;
      assert Syms()[..symMark] == Syms();
      forall k | 0 <= k < |names| ensures syms[k].stName + |names[k]| < strMark {
        assert NameAt(str, strOff, syms[k].stName, names[k]);
      }
    }

    /** The relocation section of a section, made if there is none yet. */
    method RelocSectionOf(s: nat, forSymtab: bool) returns (sr: nat)
      requires RelocsOk()
      modifies `relocs, `relocOf
      ensures RelocsOk() && relocOf == old(relocOf)[s := sr] && sr < |relocs|
      ensures if old(s in relocOf) then relocs == old(relocs) && relocOf == old(relocOf)
              else relocs == old(relocs) + [RelocSection(true, forSymtab, [], 0)] && sr == |old(relocs)|
    {
      if s !in relocOf {
        relocOf := relocOf[s := |relocs|];
        relocs := relocs + [RelocSection(true, forSymtab, [], 0)];
      }
      sr := relocOf[s];
    }

    /** Records a relocation of a section, which is given a relocation section if it has none;
        what is made while compiling is past the marks, and so still names its own symbols. */
    method PutReloc(s: nat, forSymtab: bool, r: Reloc)
      requires Compiling() && RelocsOk()
      modifies `relocs, `relocOf
      ensures Compiling() && RelocsOk()
      ensures RelocsOf(s) == old(RelocsOf(s)) + [r] && forall t :: t != s ==> RelocsOf(t) == old(RelocsOf(t))
      ensures old(s !in relocOf) ==> relocs == old(relocs) + [RelocSection(true, forSymtab, [r], 0)]
      ensures old(s in relocOf) ==>
                && relocOf == old(relocOf) && |relocs| == |old(relocs)|
                && (forall i :: 0 <= i < |relocs| ==>
                      relocs[i] ==
                        old(relocs)[i].(rels := if i == relocOf[s] then RelocsOf(s) else old(relocs)[i].rels))
      ensures old(RelocsInRange(relocs, symMark, symCount - symMark)) && symMark <= r.sym < symCount ==>
                RelocsInRange(relocs, symMark, symCount - symMark)
    {
      hide HashOk, NamesOk, TailOk;
      var sr := RelocSectionOf(s, forSymtab);
      assert old(s !in relocOf) ==> relocs[sr].rels + [r] == [r];
      relocs := relocs[sr := relocs[sr].(rels := relocs[sr].rels + [r])];
    }

    /** Cuts both sections back to their marks and adds the tail again, symbol by symbol, from
        the very bytes that are being overwritten; then points the relocations made since at
        the merged symbols. */
    method EndFile()
      requires Compiling() && RelocsInRange(relocs, symMark, symCount - symMark)
      modifies this
      ensures Valid()
      ensures |relocs| == |old(relocs)| && relocOf == old(relocOf)
      ensures var m := Merge(Table(old(Syms())[..old(symMark)], old(errors), old(newUndef)),
                             old(Syms())[old(symMark)..], env);
              && Tab() == m.0
              && forall i :: 0 <= i < |relocs| ==>
                   relocs[i] == if old(relocs)[i].isReloc && old(relocs)[i].forSymtab
                                then old(relocs)[i].(rels :=
                                       Retarget(old(relocs)[i].rels, old(relocs)[i].mark, old(symMark), m.1))
                                else old(relocs)[i]
      ensures Ended(old(Syms()), old(symMark), Syms())
    {
      hide HashOk, NameAt, NamesOk, TailOk, Merge, Ended;
      MergeEnds(Syms(), symMark, errors, newUndef, env);
      var first := symMark;
      var tr := MergeTail();
      RetargetRelocs(first, tr);
    }

    /** The second half: relocations. */
    method RetargetRelocs(first: nat, tr: seq<nat>)
      requires RelocsInRange(relocs, first, |tr|)
      modifies `relocs
      ensures |relocs| == |old(relocs)|
      ensures forall i :: 0 <= i < |relocs| ==>
        relocs[i] == if old(relocs)[i].isReloc && old(relocs)[i].forSymtab
                     then old(relocs)[i].(rels := Retarget(old(relocs)[i].rels, old(relocs)[i].mark, first, tr))
                     else old(relocs)[i]
    {
      var i := 0;
      while i < |relocs|
        invariant 0 <= i <= |relocs| == |old(relocs)|
        invariant forall k :: i <= k < |relocs| ==> relocs[k] == old(relocs)[k]
        invariant forall k :: 0 <= k < i ==>
          relocs[k] == if old(relocs)[k].isReloc && old(relocs)[k].forSymtab
                       then old(relocs)[k].(rels := Retarget(old(relocs)[k].rels, old(relocs)[k].mark, first, tr))
                       else old(relocs)[k]
      {
        var sr := relocs[i];
        if sr.isReloc && sr.forSymtab {
          var rels, j := sr.rels, sr.mark;
          while j < |rels|
            invariant sr.mark <= j && |rels| == |sr.rels|
            invariant forall k :: 0 <= k < |rels| && (k < sr.mark || j <= k) ==> rels[k] == sr.rels[k]
            invariant forall k :: sr.mark <= k < |rels| && k < j ==>
              rels[k] == sr.rels[k].(sym := tr[sr.rels[k].sym - first])
          {
            rels := rels[j := rels[j].(sym := tr[rels[j].sym - first])];
            j := j + 1;
          }
          assert rels == Retarget(sr.rels, sr.mark, first, tr);
          relocs := relocs[i := sr.(rels := rels)];
        }
        i := i + 1;
      }
    }

    /** Re-adds the symbol at one read position. */
    method MergeOne(pos: nat, ghost recs: seq<ElfSym>, ghost oldNames: seq<Name>) returns (j: nat)
      requires Valid() && symCount <= pos && symMark <= pos < |oldNames|
      requires Unread(syms, str, recs, oldNames, pos) && TailOk(recs, oldNames, symMark, strMark)
      requires WriteBehindRead(recs, oldNames, pos, strOff)
      modifies `syms, `symCount, `str, `strOff, `hash, `hashOff, `nbHashed, `names, `errors, `newUndef
      ensures Valid() && symCount <= pos + 1
      ensures (Tab(), j) == SetSymbol(old(Tab()), Symbol(oldNames[pos], Globalize(recs[pos].a)), env)
      ensures Unread(syms, str, recs, oldNames, pos + 1) && WriteBehindRead(recs, oldNames, pos + 1, strOff)
    {
      hide HashOk, NameAt, SetSymbol, TailOk, View;
      ghost var cur, was, wasOff, name := syms, str, strOff, oldNames[pos];
      var sym := syms[pos];
      if sym.a.shndx == SHN_UNDEF && Bind(sym.a.info) == STB_LOCAL {
        sym := sym.(a := sym.a.(info := STB_GLOBAL * 16 + Type(sym.a.info)));
        StaleWrite(syms, names, pos, sym, str, strOff);
        syms := syms[pos := sym];
      }
      RoomForName(was, recs[pos].stName, name, strOff);
      j := SetElfSym(sym.a, Inside(sym.stName), name);
      ReadOn(cur, was, syms, str, wasOff, strOff, recs, oldNames, pos, symMark, strMark);
    }

    /** The first half: symbols and strings. */
    method MergeTail() returns (tr: seq<nat>)
      requires Compiling()
      modifies `syms, `symCount, `str, `strOff, `hash, `hashOff, `nbHashed, `names, `errors, `newUndef, `hashing
      ensures Valid()
      ensures (Tab(), tr) ==
                Merge(Table(old(Syms())[..symMark], old(errors), old(newUndef)), old(Syms())[symMark..], env)
    {
      hide HashOk, NameAt, SetSymbol, Globalize, TailOk, NamesOk, WriteBehindRead, Unread, View, Merge;
      ghost var recs, oldNames, oldStr := syms, names, str;
      ghost var t0, tail := Table(Syms()[..symMark], errors, newUndef), Syms()[symMark..];
      var first, nbSyms := symMark, symCount - symMark;
      symCount := symMark;
      strOff := strMark;
      hashing := true;
      names := names[..symMark];
      tr := [];
      CutBack(recs, oldNames, symMark, strMark, str, old(strOff));
      assert Syms() == t0.syms;
      MergeStart(t0, tail, env);
      var i := 0;
      while i < nbSyms
        invariant 0 <= i <= nbSyms && Valid()
        invariant (Tab(), tr) == Merge(t0, tail[..i], env)
        invariant symCount <= first + i
        invariant Unread(syms, str, recs, oldNames, first + i)
        invariant WriteBehindRead(recs, oldNames, first + i, strOff)
      {
        var j := MergeOne(first + i, recs, oldNames);
        tr := tr + [j];
        MergeStep(t0, tail, i, env);
        assert tail[i] == Symbol(oldNames[first + i], recs[first + i].a);
        i := i + 1;
      }
      assert tail[..nbSyms] == tail;
    }
  }
}
