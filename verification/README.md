# Verified model of the tcc linker and code generator

The multi-threaded TinyCC in `libtcc-mt` is modelled here part by part, in Dafny, and the hard
properties of each part are proved for every input, every run or every machine state.

* **Linker** (`tccelf.c`): the symbol table with its string section, its chained hash index and
  the merge that rewrites all of them in place at the end of a compile (`SymbolTable`, over the
  abstract list of `ElfSymbols` and the words of `SymbolHash`); what resolution means for whole
  programs, whatever the order of their symbols (`SymbolResolution`); the reordering of symbols
  and the renumbering of sections under the relocations that refer to them (`SymbolSort`,
  `SectionNumbers`); the addresses and file offsets of sections (`SectionLayout`).
* **Code generator** (`tccgen.c`): jump chains and a small machine that runs them (`JumpCode`);
  64-bit operations made of 32-bit ones (`LongLongOps`); constant folding and strength reduction
  (`ConstantFolding`); `switch` as a binary search (`SwitchLowering`, `SwitchCode`); the layout of
  structs and bit-fields (`StructLayout`) and the ways to access a bit-field (`BitFieldAccess`);
  spilling registers of the value stack (`RegisterSpill`); the scope stacks (`ScopeStack`, which
  refines the runs of `ScopeRuns`).
* **Inline assembler** (`i386-asm.c`): constraints and their order (`AsmConstraints`), the
  assignment of registers (`AsmAllocation`), the code around the statement with a machine that
  runs it (`AsmCode`), and the operand encoder against the decoder that the architecture defines
  (`OperandEncoding`).
* **Library** (`libtcc.c`): the hash map with a list threaded through its buckets (`OrderedMap`,
  over the list of entries of `OrderedMapSpec`).

State that the source changes in place is a class or an array here, and each method is proved
against a function of the old state; the theorems are lemmas about those functions. `IntegerBits`
and `BitLemmas` define the bitwise operators on unbounded two's complement integers; words are
integers with an explicit modulus. `Basics` holds what several modules share.

Ten properties that one would expect turn out not to hold for every input; each is stated as an
equivalence with a condition that can be read off the input, and with an input that fails:

* The decision tree of a `switch`, whose constants are sorted as 64-bit numbers, is a linear search
  up to four ranges and may differ from one above. For ranges that are separate after conversion
  to the compared type it agrees with it on all values exactly if, at the middle range and again
  in both halves while they have more than four ranges, those before the middle lie below it and
  those behind it above (`SwitchLowering.SearchCorrectIff`; five cases over `unsigned int` fail in
  `UnsignedCounterexample`). For any ranges and a single value, it agrees exactly if at each middle
  range that is passed no range in the half not taken comes first (`SearchAgreesIff`; `case 0` and
  `case 0x100000000` over `int` in `CollisionCounterexample`).
* Of two symbols of one name the more constraining visibility is in force exactly if the entry met
  was defined or not the more constraining one; a reference that comes before the first definition
  loses its visibility (`SymbolResolution.VisibilityIff`; a reference to a hidden symbol and then a
  definition in `HiddenReferenceCounterexample`). From the first definition on the most
  constraining one is in force, in any order (`MeetVisibility`, `StrictestOrder`).
* The two segments of a program have no bytes of the file in common exactly if some loaded section
  is writable; if so they share no page either. If not, the header of the second is left at address
  and offset 0 and takes in the first (`SectionLayout.SegmentsApartIff`, text alone in
  `TextAloneCounterexample`).
* An operand of an asm statement that is loaded is in its registers before the asm text exactly
  unless an operand that refers to it is in a register, so that it is loaded over, or the second
  register of a pair is loaded for an operand that is wrongly marked as a pair
  (`AsmCode.InputsLoadedIff`; `"=m"(*p)` with `"0"(x)` in `MatchedMemoryCounterexample`, and
  `"d"(y)` between them in `StaleMarkCounterexample`). The mark is not cleared before the
  allocation and is handed on from operands in memory.
* A declaration is refused exactly if its token is declared in the current scope, exactly unless
  the newest symbol of the token has lost its scope (a static or extern local), or was left by the
  body of a `while` that has ended: such a body raises the depth but drops nothing at its end
  (`ScopeRuns.RedeclaresIff`; `{ static int A; int A; }`, `{ int A; while (0) (void)sizeof(enum
  { A }); int A; }` and `{ while (0) (void)sizeof(enum { A }); { int A; } }` in the lemmas that end
  in `Counterexample`). What such a body leaves is in `LoopLeaves`.
* A global identifier pushed from inside a function is what is seen of its token when the locals
  are gone exactly if no local of the token has lost its scope (`ScopeStack.LandsBehindIff`, with
  `StaticGapCounterexample`); its callers look for such a local first, so that it always is
  (`GetAsmSym`, `ExternalGlobalSym`).
* An output of an asm statement with an early clobber has its register for both uses, so that no
  unmatched operand shares it (`AsmAllocation.BothAlone`), exactly unless it is a register variable
  without a matched input, whose modifiers are not read (`AsmAllocation.EarlyClobberIff`; `"=&r"`
  for a variable in `ebx` and `"b"(y)` in `AsmCode.RegvarClobberCounterexample`).
* The code around an asm statement restores the callee-saved registers exactly unless an output is
  stored through a scratch register that is one of them and was not saved
  (`AsmCode.PreservesIff`; three outputs where `ebx` is lost, however they are allocated, are in
  `AsmCode.ScratchCounterexample`).
* An operand is decoded to itself exactly if no high byte register meets a prefix (which is an
  error), its base is not `rip` without a symbol (4 is taken off the displacement), its index is
  neither `rsp` nor `rip`, and its displacement fits (`OperandEncoding.RoundTripIff`, with an input
  for each in the lemmas that end in `Counterexample`).
* A logical right shift of a folded `int` constant gives the value of the 32-bit instruction
  exactly if the constant is not negative or not shifted (`ConstantFolding.LogicalShiftOfInt`; -1
  shifted by 1 in `LogicalShiftCounterexample`).

Two more conditions are exact: a spill keeps the meaning of the stack if and only if no entry
needs more of the register than the lowest one makes stored (`RegisterSpill.SpillKeepsIff`), and
a loaded writable section has its offset congruent to its address if and only if the read-only
sections without contents make up whole pages (`SectionLayout.WritableCongruentIff`).

## Model

| member | source | states |
|---|---|---|
| SymbolTable.SymbolTable.PutElfStr | libtcc-mt/tccelf.c:301-311 | the name is added at the end of the string section, terminated, and reads back from the offset returned; in a merge it may come from the very buffer it is written to |
| SymbolTable.SymbolTable.RebuildHash | libtcc-mt/tccelf.c:330-363 | the hash section holds, for each bucket, the visible symbol of greatest index, and each chain continues with the next smaller one |
| SymbolTable.SymbolTable.HashLastSym | libtcc-mt/tccelf.c:387-409 | the index stays right when one symbol is linked in, with the table rebuilt before there are more than two symbols per bucket |
| SymbolTable.SymbolTable.PutElfSym | libtcc-mt/tccelf.c:366-411 | exactly one symbol with this name and these attributes is appended; names and index stay valid |
| SymbolTable.SymbolTable.PatchSym | libtcc-mt/tccgen.c:349-354 | what is learnt about a symbol of the compile is filled in where it is; names, index and the order of the tail stay valid |
| SymbolTable.SymbolTable.FindElfSym | libtcc-mt/tccelf.c:413-434 | the walk along the chain ends and returns what a linear scan for the last visible symbol of the name returns, or 0 |
| SymbolTable.SymbolTable.SetElfSym | libtcc-mt/tccelf.c:468-552 | table, error count and flag change as resolution on the abstract list says |
| SymbolTable.SymbolTable.MeetEntry | libtcc-mt/tccelf.c:484-544 | the branches over binding, visibility, common storage and `.set` patch, keep or reject as the resolution function does |
| SymbolTable.SymbolTable.BeginFile | libtcc-mt/tccelf.c:118-130 | the fill of every relocation section, of the symbol table and of the string section is remembered and hashing stops |
| SymbolTable.SymbolTable.PutReloc | libtcc-mt/tccelf.c:555-583 | one relocation is added to those of its section, which gets a relocation section if it has none, and no other section is affected; relocations past the marks keep naming symbols of the compile |
| SymbolTable.SymbolTable.EndFile | libtcc-mt/tccelf.c:134-168 | the tables, cut back and refilled in the same buffers, are the merge of the tail of the symbol list into its head, and exactly the relocations of this compile are renamed; the tables before and after are related as `ElfSymbols.MergeEnds` says |
| SymbolTable.SymbolTable.MergeTail | libtcc-mt/tccelf.c:146-153 | every symbol and name of the tail is read before it is overwritten: the write position never passes the read position |
| SymbolTable.SymbolTable.RetargetRelocs | libtcc-mt/tccelf.c:155-166 | relocations made since the start of the compile get the index their symbol was merged to, the others stay |
| SymbolHash.ChainSkips | libtcc-mt/tccelf.c:413-434 | symbols that a chain passes over do not have the name looked for, so the first hit is the last symbol of that name |
| SymbolHash.LastInMeaning | libtcc-mt/tccelf.c:343-362 | the head of a bucket is the greatest index of a visible symbol that hashes there, if there is one |
| SymbolHash.EachReached | libtcc-mt/tccelf.c:343-409 | whoever takes the hash of a name modulo the first word and follows the words of the section comes to every visible symbol of that name |
| SymbolHash.HashStepFolds | libtcc-mt/tccelf.c:314-326 | a step of the hash shifts a character in and folds the upper four of 32 bits into bits 4 to 7, leaving 28 bits |
| ElfSymbols.FindBelowIsLast | libtcc-mt/tccelf.c:413-434 | the abstract lookup finds the last visible symbol of a name |
| ElfSymbols.ResolveStaysNonLocal | libtcc-mt/tccelf.c:468-552 | two visible symbols never resolve to a local one |
| ElfSymbols.MergeEnters | libtcc-mt/tccelf.c:146-153 | a symbol of the compile whose name nothing else has enters with its own attributes, except that an undefined local one becomes an undefined global one of its type |
| ElfSymbols.MergeLocal | libtcc-mt/tccelf.c:146-153 | a local symbol that is defined enters as it is, whatever else has its name |
| ElfSymbols.MergeRefers | libtcc-mt/tccelf.c:484-500 | an undefined symbol whose name is defined before the compile is represented by that entry, which keeps all but its visibility |
| ElfSymbols.MergeEnds | libtcc-mt/tccelf.c:134-153 | all of that, of the symbol lists before and after a compile |
| SymbolResolution.SetSymbolKeeps | libtcc-mt/tccelf.c:468-552 | one entry per visible name is kept if there was, and every entry keeps its name and, if local, everything |
| SymbolResolution.MergeKeeps | libtcc-mt/tccelf.c:141-153 | a whole merge keeps one entry per name, never undefines a defined symbol, and maps each local symbol to a copy of itself |
| SymbolResolution.LinkedOnePerName | libtcc-mt/tccelf.c:134-168 | in every table that additions and compiles lead to there is one visible entry to a name, and lookup finds it |
| SymbolResolution.MergeByName | libtcc-mt/tccelf.c:468-552 | a merge acts on each name as if the symbols of that name alone met one after the other |
| SymbolResolution.MergeErrors | libtcc-mt/tccelf.c:525-535 | there is a redefinition error exactly if the symbols of some name clash |
| SymbolResolution.PlainResolve | libtcc-mt/tccelf.c:484-544 | of two ordinary symbols the one of greater rank wins (undefined, weak, common or bss, regular), and two different regular ones clash |
| SymbolResolution.WhoSurvives | libtcc-mt/tccelf.c:475-544 | of any two different visible symbols, by their numbers: whether the later one replaces the entry, and whether they clash |
| SymbolResolution.VisibilityIff | libtcc-mt/tccelf.c:486-500 | DEFAULT, PROTECTED, HIDDEN, INTERNAL: the more constraining one is in force exactly if the entry was defined or not the more constraining one; the other bits stay those of a defined entry |
| SymbolResolution.HiddenReferenceCounterexample | libtcc-mt/tccelf.c:484-544 | a hidden reference and then a definition give default visibility, the other way round hidden |
| SymbolResolution.MeetVisibility | libtcc-mt/tccelf.c:486-500 | of all symbols of a name from the first definition on the most constraining visibility is in force, references before it do not count |
| SymbolResolution.StrictestOrder | libtcc-mt/tccelf.c:486-500 | their order does not matter for that |
| SymbolResolution.MeetPlain | libtcc-mt/tccelf.c:484-544 | the survivor of any list of ordinary symbols is the first of greatest rank; there is no clash exactly if all regular definitions are the same |
| SymbolResolution.MeetOrder | libtcc-mt/tccelf.c:468-552 | rearranging the symbols of a name changes neither the rank of the survivor nor whether there is an error; a regular definition survives in every order |
| SymbolResolution.MergeOrder | libtcc-mt/tccelf.c:468-552 | the same for whole merges: any order of the tail gives each name the same survivor up to equal rank, and an error in all orders or in none |
| SymbolResolution.RelocsStillName | libtcc-mt/tccelf.c:134-168 | after the merge every relocation of the compile names a symbol of the same name, and for a local one of the same value and section |
| SymbolSort.SortedIsStablePartition | libtcc-mt/tccelf.c:697-735 | the sorted table has the same symbols, all local ones first, in the old order among themselves; the index map leads to the record that was there and never joins two |
| SymbolSort.SymbolSorter.SortSyms | libtcc-mt/tccelf.c:697-753 | the table is sorted, the number of locals recorded, and every relocation for this table names the same record as before |
| SymbolSort.SymbolSorter.Pass | libtcc-mt/tccelf.c:709-731 | one pass copies the symbols of its kind in order and notes where each went |
| SectionNumbers.NumbersName | libtcc-mt/tccelf.c:1997-2015 | by its new number each kept section is found again, numbered so, and a kept relocation section still refers to the same kept section |
| SectionNumbers.OrderKept | libtcc-mt/tccelf.c:1997-2007 | kept sections are numbered in the order given |
| SectionNumbers.SymbolsKeepSections | libtcc-mt/tccelf.c:2017-2024 | a symbol is defined in the same section as before if that is kept, and becomes undefined exactly if it is dropped, which is if it has no name |
| SectionNumbers.OtherSymbolsStay | libtcc-mt/tccelf.c:2017-2024 | undefined, absolute and common symbols stay as they are, and of any other only the section changes |
| SectionNumbers.Headers.TidySectionHeaders | libtcc-mt/tccelf.c:1989-2031 | section table, symbols, dynamic symbols and order after the renumbering |
| SectionNumbers.Headers.Collect | libtcc-mt/tccelf.c:1997-2007 | kept sections fill the new table from the front, dropped ones from the back, without meeting |
| SectionLayout.Layout.LayoutSections | libtcc-mt/tccelf.c:1538-1714 | the sections and segments are laid out in the sense below, in order of kind and without wasted room, the first segment ends after the first address, and the file after all sections |
| SectionLayout.ResultFrom | libtcc-mt/tccelf.c:1538-1714 | the final state means: order a permutation, sections aligned, after the headers, pairwise clear in memory and file, offsets matching addresses, a page boundary between read-only and writable sections and between the segments, both covering their sections and going from the first to the last of them; and what the next two rows say |
| SectionLayout.OrderedByKind | libtcc-mt/tccelf.c:1598-1636 | loaded sections come before others, read-only ones before writable ones, and of each the interpreter first, then symbol, string and hash tables, relocations, contents and what has no contents, by old number otherwise; each lies behind those before it, in memory and in the file |
| SectionLayout.CompactAfter | libtcc-mt/tccelf.c:1637-1703 | each section lies at the next place behind the one before it that its alignment allows, in the file and in memory; only where the second segment begins within a page, that page is skipped |
| SectionLayout.SegmentsApartIff | libtcc-mt/tccelf.c:1673-1696 | of every outcome: the segments have separate file ranges exactly if some loaded section is writable, and separate pages then; otherwise the second takes in the first; the first is congruent to its offset always, the second exactly if it is empty or whole pages were skipped |
| SectionLayout.TextAloneCounterexample | libtcc-mt/tccelf.c:1682-1684 | a program of text alone, whose second segment spans its pages |
| SectionLayout.OrderIsPermutation | libtcc-mt/tccelf.c:1604-1703 | every section is placed exactly once, so the order array is never overrun |
| SectionLayout.NextInOrder | libtcc-mt/tccelf.c:1637-1670 | placing a loaded section keeps alignment, disjointness and the start of its segment |
| SectionLayout.NextMatches | libtcc-mt/tccelf.c:1637-1670 | offsets keep following addresses modulo the page size, up to the memory of sections without contents |
| SectionLayout.CloseFirst | libtcc-mt/tccelf.c:1673-1684 | the first segment goes from the page of its first section to the end of its last one, with its offset congruent to its address |
| SectionLayout.CloseSecond | libtcc-mt/tccelf.c:1682-1695 | after the jump between the segments the second one starts behind a page boundary that the first one ends before, and behind its bytes in the file; or it is empty |
| SectionLayout.ClosedCovers | libtcc-mt/tccelf.c:1646-1684 | each segment covers the memory and the file bytes of its sections, also after its start is rounded down |
| SectionLayout.WritableCongruentIff | libtcc-mt/tccelf.c:1637-1670 | a writable section is congruent exactly if the read-only sections without contents fill whole pages |
| SectionLayout.Layout.StartAddress | libtcc-mt/tccelf.c:1552-1576 | the first address is congruent to the first offset, both for a given address and the default, and the offset is less than a page behind the headers |
| SectionLayout.Layout.PlaceStage | libtcc-mt/tccelf.c:1604-1671 | one round over the sections places exactly those of its stage, in order of number |
| OrderedMap.HashMap.Insert | libtcc-mt/libtcc.c:497-534 | the map changes as the list of entries does: overwritten in place with the old value destroyed, or appended, growing if needed |
| OrderedMap.HashMap.Lookup | libtcc-mt/libtcc.c:536-549 | the probe ends and gives the value of the key in the list, or none |
| OrderedMap.HashMap.Free | libtcc-mt/libtcc.c:477-495 | every value still stored is handed to its destructor in list order |
| OrderedMap.Rehash | libtcc-mt/libtcc.c:428-461 | the new table has the same entries in the same order, correctly threaded and probed |
| OrderedMap.Link | libtcc-mt/libtcc.c:446-456 | a free bucket on the probe path takes the entry and joins the end of the list |
| OrderedMap.FreeBucket | libtcc-mt/libtcc.c:418-426 | with one bucket free, probing ends at a free bucket reached from the home position |
| OrderedMap.ProbeGoesOn | libtcc-mt/libtcc.c:418-426 | a probe does not come back to its start while a bucket is free |
| OrderedMap.ProbeMiss | libtcc-mt/libtcc.c:536-549 | a probe that meets a free bucket has passed every place the key could be in |
| OrderedMap.DjbAppend | libtcc-mt/libtcc.c:411-416 | the hash is 5381 for no bytes, and each byte adds itself, signed, to 33 times the hash before it, modulo 2^32 |
| OrderedMapSpec.PutGet | libtcc-mt/libtcc.c:497-549 | an insertion changes the answer for its own key only |
| OrderedMapSpec.OwnedParts | libtcc-mt/libtcc.c:477-495 | what is destroyed at the end is, in order, the values that came with a destructor and no others |
| OrderedMapSpec.RunMeaning | libtcc-mt/libtcc.c:497-549 | after any run of insertions lookup gives the last value of a key, and the list has each key once in order of first insertion |
| OrderedMapSpec.EachDestroyedOnce | libtcc-mt/libtcc.c:477-534 | destroyed and stored values together are the inserted ones; after freeing, each has been destroyed exactly once |
| StructLayout.PlaceField | libtcc-mt/tccgen.c:3410-3526 | a field lands after what is placed, aligned as packing and attributes ask, a bit-field in a unit it fits, padded only as the rules require; also in terms of the alignment in force and of when a bit-field may straddle, rule by rule |
| StructLayout.CarryUnits | libtcc-mt/tccgen.c:3486-3488 | moving whole units from bit position to byte offset keeps the absolute bit |
| StructLayout.TestUnit | libtcc-mt/tccgen.c:3469-3480 | counting units decides exactly whether the field would straddle one |
| StructLayout.FirstPass | libtcc-mt/tccgen.c:3393-3596 | fields of a struct are in increasing disjoint bit ranges, each as its declaration asks; the size is the least multiple of the alignment that covers them; places and alignment are those of the rules below |
| StructLayout.LaidOutByRules | libtcc-mt/tccgen.c:3410-3596 | every field of a struct is at the next multiple of the alignment in force (the one asked for unless `#pragma pack` is less, else 1 if packed, else the natural one up to `#pragma pack`; zero-width bit-fields ignore packing and pragma), a bit-field right behind the one before unless it is zero-width, has an alignment of its own or would straddle a unit without packing; the alignment of the record is the greatest of these, of its own and of 1 |
| StructLayout.EffectiveInForce | libtcc-mt/tccgen.c:3410-3446 | the alignment computed is the one in force and no other, and a bit-field is packed exactly if it has some width and field or record are packed or a `#pragma pack` is in force |
| StructLayout.PackedExample | libtcc-mt/tccgen.c:3428-3437 | struct { char c; int i; } has i at 2 under `#pragma pack(2)`, at 1 when packed, at 4 otherwise, with sizes 6, 5 and 8 |
| StructLayout.UnnamedBitFieldAligns | libtcc-mt/tccgen.c:3441-3495 | an unnamed bit-field counts for the alignment of a union but not of a struct |
| StructLayout.FindWord | libtcc-mt/tccgen.c:3619-3639 | the search ends; its word is aligned, keeps the absolute bit, and fits the struct whenever any aligned word does |
| StructLayout.ChooseAccess | libtcc-mt/tccgen.c:3602-3663 | own type, another type or single bytes: whichever is chosen, the field does not move and no byte outside the struct is touched; bytes are used only if no word will do |
| StructLayout.SecondPass | libtcc-mt/tccgen.c:3602-3663 | that, for every field, with nothing else changed |
| StructLayout.Layout | libtcc-mt/tccgen.c:3393-3663 | both passes together: the places of the first pass, which are those of the rules, with the accesses of the second |
| BitFieldAccess.WritesDetermine | libtcc-mt/tccgen.c:1137-1170 | there is one memory that a field write can leave: byte-wise store, word store and initializer agree bit for bit |
| BitFieldAccess.ReadsDetermine | libtcc-mt/tccgen.c:1104-1134 | there is one value that a field read can give |
| BitFieldAccess.ReadAfterWrite | libtcc-mt/tccgen.c:1188-1226 | reading back gives the written value reduced to the width of the field, sign- or zero-extended |
| BitFieldAccess.OtherFieldsKept | libtcc-mt/tccgen.c:3048-3072 | fields that do not overlap keep their values |
| BitFieldAccess.StorePacked | libtcc-mt/tccgen.c:1137-1170 | single-byte stores change exactly the bits of the field |
| BitFieldAccess.StoreWord | libtcc-mt/tccgen.c:3048-3072 | the masked word store changes exactly the bits of the field |
| BitFieldAccess.InitWrite | libtcc-mt/tccgen.c:6432-6447 | the static initializer changes exactly the bits of the field |
| BitFieldAccess.LoadPacked | libtcc-mt/tccgen.c:1104-1134 | gathering single bytes reads the field, extended |
| BitFieldAccess.LoadWord | libtcc-mt/tccgen.c:1216-1224 | shifting up and down reads the field, extended, whether or not the load extends |
| LongLongOps.ValueStack.Spread | libtcc-mt/tccgen.c:1602-1614 | two 64-bit operands, expanded and moved about on the stack, become their four halves, high ones below and low ones on top |
| LongLongOps.ValueStack.GenBitwise | libtcc-mt/tccgen.c:1594-1658 | and, or and exclusive or of 64-bit values from 32-bit operations on the stack |
| LongLongOps.ValueStack.GenAddSub | libtcc-mt/tccgen.c:1636-1658 | 64-bit sum and difference modulo 2^64, by way of the carry |
| LongLongOps.ValueStack.GenMul | libtcc-mt/tccgen.c:1610-1636 | 64-bit product modulo 2^64 from one full and two half products |
| LongLongOps.ValueStack.GenShift | libtcc-mt/tccgen.c:1659-1714 | 64-bit shifts by every constant from 1 to 63, near and far |
| LongLongOps.GenCompare | libtcc-mt/tccgen.c:1729-1782 | the code emitted for a comparison, and the chain of jumps it leaves open |
| LongLongOps.CompareCorrect | libtcc-mt/tccgen.c:1729-1782 | for all ten comparisons the code falls through exactly if the comparison of the 64-bit numbers holds |
| LongLongOps.HalvesDecide | libtcc-mt/tccgen.c:1741-1781 | how the tests of high and low halves decide the whole |
| JumpCode.ChainGrows | libtcc-mt/x86_64-gen.c:1559-1562 | a jump emitted with a chain in its target field is on a chain with exactly the jumps of that one and itself |
| JumpCode.Emitter.JoinChains | libtcc-mt/x86_64-gen.c:1633-1642 | a condition that is a chain of jumps is put in front of another chain: together they are one, and only a link changes |
| JumpCode.Emitter.GSym | libtcc-mt/x86_64-gen.c:120-133 | exactly the jumps of a chain now go to the current place |
| JumpCode.RunAppend | libtcc-mt/x86_64-gen.c:1559-1562 | code emitted later is not noticed until the earlier code falls off its end |
| JumpCode.RunSuffix | libtcc-mt/x86_64-gen.c:120-133 | a run depends only on the code from where it starts, if jumps go forward |
| SwitchLowering.SearchCorrectIff | libtcc-mt/tccgen.c:5720-5778 | for ranges that are separate after conversion, tree and linear search agree on all values exactly if every middle range separates its sides |
| SwitchLowering.SearchAgreesIff | libtcc-mt/tccgen.c:5720-5778 | for any ranges, also colliding or empty ones, and each value: tree and linear search agree exactly if the half not taken at a middle range never has a range that comes first |
| SwitchLowering.CollisionCounterexample | libtcc-mt/tccgen.c:6020-6029 | constants that differ in 64 bits only, where the tree arrives at the second of two equal cases |
| SwitchLowering.RepresentableFinds | libtcc-mt/tccgen.c:5720-5778 | constants that fit the compared type are always found as by a linear search |
| SwitchLowering.UnsignedCounterexample | libtcc-mt/tccgen.c:6020-6029 | a switch over unsigned int that misses one of its cases |
| SwitchLowering.TestsLogarithmic | libtcc-mt/tccgen.c:5720-5778 | with at most 4*2^k ranges no path makes more than 2k+8 tests |
| SwitchLowering.LinearIsFirst | libtcc-mt/tccgen.c:5754-5777 | the reference search finds the first range that contains the value |
| SwitchCode.Scan | libtcc-mt/tccgen.c:5755-5777 | one range costs one test or two and jumps to its code on a hit |
| SwitchCode.Pivot | libtcc-mt/tccgen.c:5726-5753 | one binary step: values below go left, the range is hit, the rest is still to do |
| SwitchCode.GCase | libtcc-mt/tccgen.c:5720-5778 | run from its start, the code emitted arrives where the search says, or at the default or a break, within the bound on tests; for constants that fit, at the range that holds the value of the pattern |
| SwitchCode.Switch | libtcc-mt/tccgen.c:6016-6036 | overlapping ranges are an error and emit nothing; otherwise the emitted code is the switch, with all breaks closed; for constants that fit `long long`, `int` or `unsigned int`, what `SelectsValues` says |
| SwitchCode.SelectsValues | libtcc-mt/tccgen.c:5720-5778 | for every 64-bit or 32-bit pattern the code of a range is reached if the two's complement or unsigned number it stands for lies between the ends of the range, and the default, or the end, if it lies in none |
| SwitchCode.FoundHolds | libtcc-mt/tccgen.c:5726-5777 | for such constants the range found is the one that holds the number, and there is no other |
| ConstantFolding.ChosenArise | libtcc-mt/tccgen.c:2216-2234 | the operators assumed for a type are exactly those that selection by signedness yields |
| ConstantFolding.FoldCorrect | libtcc-mt/tccgen.c:1811-1871 | folding gives the canonical pattern of the value that wrap-around arithmetic of the type gives, for every operator the caller may choose |
| ConstantFolding.FoldsBoth | libtcc-mt/tccgen.c:1819-1871 | two constants leave a canonical constant of the type of the result with the value of the operation, with shift counts modulo the width and pointer differences cut off |
| ConstantFolding.ValueInRange | libtcc-mt/tccgen.c:1811-1816 | in each of the four types the value of a pattern is the number of its range congruent to it |
| ConstantFolding.SDivIs | libtcc-mt/tccgen.c:1786-1790 | division of patterns by sign and magnitude truncates toward zero |
| ConstantFolding.SLessIs | libtcc-mt/tccgen.c:1792-1795 | comparing patterns with the sign flipped compares signed values |
| ConstantFolding.CanonicalKeeps | libtcc-mt/tccgen.c:1811-1816 | extending a pattern from its type is idempotent and keeps its value |
| ConstantFolding.FixedMeaning | libtcc-mt/tccgen.c:1880-1885 | shifting 0, or -1 arithmetically, by anything gives it back |
| ConstantFolding.AbsorbsMeaning | libtcc-mt/tccgen.c:1886-1895 | each absorbing constant decides the result for every other operand |
| ConstantFolding.NeutralMeaning | libtcc-mt/tccgen.c:1896-1905 | each neutral constant leaves every other operand as it is |
| ConstantFolding.TestsByValue | libtcc-mt/tccgen.c:1880-1905 | the tests for constants that fix, decide or leave the result, made on patterns, are tests of their values |
| ConstantFolding.AddendByValue | libtcc-mt/tccgen.c:1923-1935 | an addend is moved exactly if, as a signed number, it fits 32 bits |
| ConstantFolding.ReducedMeaning | libtcc-mt/tccgen.c:1906-1922 | the shift that replaces a product or quotient by a power of two has its value for every operand |
| ConstantFolding.AddressMeaning | libtcc-mt/tccgen.c:1923-1935 | a constant moved into the addend of a symbol is added modulo the width |
| ConstantFolding.Log | libtcc-mt/tccgen.c:1909-1914 | the loop counts the power of two |
| ConstantFolding.ValueStack.GenOpic | libtcc-mt/tccgen.c:1799-1946 | whatever the two topmost entries, the entry replacing them has the value of the operation in every environment, and is the one that the values of the constant operands call for: a constant for two constants, else what `Reduce` says with a constant put to the right of an operator that commutes; a constant division by zero is left to the generator, and an error exactly where a constant is wanted |
| ConstantFolding.ValueStack.Reduce | libtcc-mt/tccgen.c:1873-1945 | for at most one constant operand the same, and by its value: what is decided by it becomes a constant unless one is wanted, what it does not change stays, products and quotients by a power of two become shifts, a fitting addend goes into an address, and all else is left to the generator |
| ConstantFolding.LogicalShiftOfInt | libtcc-mt/tccgen.c:1845-1849 | a logical shift of a folded int matches the 32-bit instruction exactly if the constant is not negative or not shifted |
| ConstantFolding.LogicalShiftCounterexample | libtcc-mt/tccgen.c:1845-1849 | -1 shifted by 1 is folded to -1 |
| RegisterSpill.SpillKeepsIff | libtcc-mt/tccgen.c:906-971 | in every machine state the stack stands for the same values and lvalues after a spill, exactly if no entry needs more of the register than was stored |
| RegisterSpill.IntegersCovered | libtcc-mt/tccgen.c:925-935 | integer registers are always stored whole |
| RegisterSpill.SlotIsFresh | libtcc-mt/tccgen.c:936-940 | the slot is aligned, of the size of its type, and below everything in use |
| RegisterSpill.StoreCodeMeaning | libtcc-mt/tccgen.c:936-946 | the emitted store fills the slot and touches nothing else |
| RegisterSpill.SpilledSame | libtcc-mt/tccgen.c:957-968 | a spilled value reads back from the slot, a spilled address becomes an lvalue through the slot; which flags are kept |
| RegisterSpill.CodeGen.SaveRegUpstack | libtcc-mt/tccgen.c:906-971 | all entries that use the register, up to the given one, move to one slot with one store |
| RegisterSpill.CodeGen.SaveReg | libtcc-mt/tccgen.c:899-902 | the register is free and the stack keeps its meaning |
| RegisterSpill.CodeGen.SaveRegs | libtcc-mt/tccgen.c:891-896 | no entry below the given ones is left in a register, and the stack keeps its meaning over the whole run of spills |
| RegisterSpill.CodeGen.GetReg | libtcc-mt/tccgen.c:999-1036 | a register of the class that no entry uses, with the meaning of the stack kept; -1 exactly if the class is empty |
| RegisterSpill.ClassMembers | libtcc-mt/x86_64-gen.c:27-53 | which registers each class has |
| ScopeRuns.InvKept | libtcc-mt/tccgen.c:5835-5977 | after every step of a compile, loops and cleared scopes included: open scopes nest and their number is the depth, every local has the scope it was declared in or none, and what was declared since a scope was entered is at its depth or deeper |
| ScopeRuns.InvReached | libtcc-mt/tccgen.c:5835-5977 | that, in every state that a run from the start reaches |
| ScopeRuns.RedeclaresIff | libtcc-mt/tccgen.c:508-512 | in every such state, refusing a declaration means that its token is declared in the current scope, exactly unless the head of its chain has lost its scope or was left by a loop that ended beside the scope, or inside it in front of one that is declared there; and which of the two errs in each case |
| ScopeRuns.HereFromStart | libtcc-mt/tccgen.c:508-512 | what declared in the current scope means: nothing when it is entered, then each declaration made at its depth, and no more |
| ScopeRuns.StaticCounterexample | libtcc-mt/tccgen.c:6878-6884 | a second declaration after a static local is accepted |
| ScopeRuns.EnumInLoopCounterexample | libtcc-mt/tccgen.c:5836-5840 | a second declaration is accepted after a loop that left an enumerator of this name |
| ScopeRuns.EnumBesideCounterexample | libtcc-mt/tccgen.c:5836-5840 | a first declaration in a block is refused after such a loop |
| ScopeRuns.BlockRestores | libtcc-mt/tccgen.c:5849-5892 | any run inside a block, with loops and cleared scopes, then leaving it, restores the view of every token, except that globals pushed meanwhile remain and show where nothing local hides them, and that a local may have lost its scope |
| ScopeRuns.LoopLeaves | libtcc-mt/tccgen.c:5836-5840 | any run inside the body of a `while` leaves what it declared, all of it deeper than the scope around it, in front of what was there; each token means the newest of those, if there is one, and else what it would after a block |
| ScopeRuns.DeclareVisible | libtcc-mt/tccgen.c:486-515 | a declaration hides the others of its token only |
| ScopeRuns.UnscopeVisible | libtcc-mt/tccgen.c:6882-6884 | a symbol that loses its scope is still the one that is seen, and no other changes |
| ScopeRuns.DeclareGlobalVisible | libtcc-mt/tccgen.c:518-533 | a global identifier pushed from inside does not hide locals |
| ScopeStack.PushOk | libtcc-mt/tccgen.c:486-515 | from each token still hang its locals, newest first, then its globals, newest first |
| ScopeStack.PushGlobalOk | libtcc-mt/tccgen.c:486-515 | the same for a declaration outside of functions |
| ScopeStack.InsertOk | libtcc-mt/tccgen.c:518-533 | the same after linking a new global in behind the last local of a chain |
| ScopeStack.GapIff | libtcc-mt/tccgen.c:525-530 | the walk along a chain stops behind the last local exactly if each of them has its scope |
| ScopeStack.LandsBehindIff | libtcc-mt/tccgen.c:518-563 | after a global identifier is pushed and then all locals are popped, its token means it exactly if no local of the token had lost its scope |
| ScopeStack.StaticGapCounterexample | libtcc-mt/tccgen.c:525-530 | pushed in front of a static local it is lost when that is popped |
| ScopeStack.PopOk | libtcc-mt/tccgen.c:537-563 | the same after unlinking the top of a stack |
| ScopeStack.DropOk | libtcc-mt/tccgen.c:537-563 | the same after unlinking any number of locals |
| ScopeStack.Scopes.SymFind | libtcc-mt/tccgen.c:477-483 | the head of the chain is the innermost declaration |
| ScopeStack.Scopes.SymPush | libtcc-mt/tccgen.c:486-515 | the records stand for the declared state, and an error is reported exactly on redeclaration |
| ScopeStack.Scopes.Unscope | libtcc-mt/tccgen.c:6882-6884 | the symbol that a token means loses its scope, and the records stand for the state in which it has none |
| ScopeStack.Scopes.DeclareStatic | libtcc-mt/tccgen.c:6878-6884 | a static or extern local is declared, with the error of any declaration, and then loses its scope |
| ScopeStack.Scopes.GlobalIdentifierPush | libtcc-mt/tccgen.c:518-533 | in every state, the new record is linked in before the first one without a scope; if that is behind the locals, the records stand for the state with one more global |
| ScopeStack.Scopes.GetAsmSym | libtcc-mt/tccasm.c:38-75 | an assembler name means the first symbol without a scope; if there is none, a global is declared, and the chains stay in order in every state |
| ScopeStack.Scopes.ExternalGlobalSym | libtcc-mt/tccgen.c:766-776 | an implicit reference declares a global exactly if nothing is seen of the token |
| ScopeStack.Scopes.FindGap | libtcc-mt/tccgen.c:525-530 | the walk stops at the first record of the token without a scope |
| ScopeStack.Scopes.SymPop | libtcc-mt/tccgen.c:537-563 | exactly the records above the mark are gone from the stack, and each in turn gives its token back to the record behind it |
| ScopeStack.Scopes.BeginFunction | libtcc-mt/tccgen.c:6971-6973 | a function starts with a dummy on the local stack |
| ScopeStack.Scopes.EndParameters | libtcc-mt/tccgen.c:6975-6975 | after the parameters the scope is 0 again, to be 1 in the body, so that the body shares it with them |
| ScopeStack.Scopes.EnterBlock | libtcc-mt/tccgen.c:5849-5852 | a block remembers the top of the local stack |
| ScopeStack.Scopes.EnterLoop | libtcc-mt/tccgen.c:5836-5836 | the body of a `while` deepens the scope and remembers nothing |
| ScopeStack.Scopes.LeaveLoop | libtcc-mt/tccgen.c:5840-5840 | at its end all records stay |
| ScopeStack.Scopes.LeaveBlock | libtcc-mt/tccgen.c:5884-5892 | leaving a block drops what was declared since |
| ScopeStack.Scopes.EndFunction | libtcc-mt/tccgen.c:6983-6985 | at the end of a function no local is left |
| ScopeStack.Scopes.EndFile | libtcc-mt/libtcc.c:791-792 | at the end of a compile no token has a declaration |
| AsmConstraints.ConstraintPriority | libtcc-mt/i386-asm.c:1101-1149 | the priority is that of the weakest letter, and an unknown letter is an error |
| AsmConstraints.SwapRanks | libtcc-mt/i386-asm.c:1233-1246 | an exchange keeps the sorted front and the least element |
| AsmConstraints.RefersByNumber | libtcc-mt/tccasm.c:1012-1019 | digits refer to the operand of that decimal number, if there is one |
| AsmConstraints.RefersByName | libtcc-mt/tccasm.c:1020-1034 | a name in brackets refers to the first operand of that name, if there is one |
| AsmAllocation.Allocator.Prepare | libtcc-mt/i386-asm.c:1197-1231 | references resolve backwards from inputs, pair off one to one, and register variables and priorities are set |
| AsmAllocation.Allocator.SortOperands | libtcc-mt/i386-asm.c:1233-1246 | the order of service is a permutation sorted by priority |
| AsmAllocation.NarrowerFirst | libtcc-mt/i386-asm.c:1101-1149 | of two register letters the one that leaves less choice has the lower priority, the pair before all and constants and memory behind; which letters are known |
| AsmAllocation.TryLetter | libtcc-mt/i386-asm.c:1294-1387 | what one letter of a constraint gives, with the lowest register, of those the letter stands for, or that it cannot be had |
| AsmAllocation.Choose | libtcc-mt/i386-asm.c:1281-1388 | the first letter that can be served is, after modifiers are obeyed; failure means none could be before the end or a bad character |
| AsmAllocation.BookKept | libtcc-mt/i386-asm.c:1294-1345 | claims stay disjoint in every register and use |
| AsmAllocation.ServeKeeps | libtcc-mt/i386-asm.c:1259-1394 | serving one operand keeps all others as they were and hands its register to its reference |
| AsmAllocation.SharedRegisters | libtcc-mt/i386-asm.c:1248-1394 | an assigned register is not clobbered, esp or ebp; two operands share one only as a matched pair or as output only and input only |
| AsmAllocation.UsesByRole | libtcc-mt/i386-asm.c:1262-1293 | an output holds its register for writing, an input for reading, and matched or read-write operands for both |
| AsmAllocation.SharedRoles | libtcc-mt/i386-asm.c:1248-1394 | unmatched values share a register only as an output and an input, neither of them matched with a third or read and written |
| AsmAllocation.LetterRegister | libtcc-mt/i386-asm.c:1304-1345 | of every outcome: an operand whose constraint is one register letter, with any modifiers, is in a register of that letter: a 0, b 3, c 1, d 2, S 6, D 7, q one of 0 to 3, r, R and p one of 0 to 7 |
| AsmAllocation.LetterMemory | libtcc-mt/i386-asm.c:1357-1383 | one whose constraint is memory, or anything general, has a register exactly if it is behind a pointer in memory, and is an output for the latter; that holds the pointer |
| AsmAllocation.LetterConstant | libtcc-mt/i386-asm.c:1346-1356 | one whose constraint is a constant is one, without a symbol where the letter says so |
| AsmAllocation.RegvarKept | libtcc-mt/i386-asm.c:1275-1280 | a register variable has its register |
| AsmAllocation.ReferenceByNumber | libtcc-mt/i386-asm.c:1206-1219 | a constraint that is a number, after modifiers, refers to the operand of that number |
| AsmAllocation.ReferenceByName | libtcc-mt/i386-asm.c:1206-1219 | one that is a name in brackets, to the first operand of that name |
| AsmAllocation.NoReference | libtcc-mt/i386-asm.c:1206-1219 | any other to none |
| AsmAllocation.EarlyClobberIff | libtcc-mt/i386-asm.c:1267-1292 | the register of an output with an early clobber or read-write modifier is for both uses, exactly unless it is a register variable without a matched input |
| AsmAllocation.BothAlone | libtcc-mt/i386-asm.c:1248-1394 | a register that is for both uses is no unmatched operand's |
| AsmAllocation.PairIsReserved | libtcc-mt/i386-asm.c:1294-1303 | an operand in eax and edx has both to itself for its uses |
| AsmAllocation.ScratchCarriesNoOutput | libtcc-mt/i386-asm.c:1396-1413 | the scratch register is no output's, not clobbered, and not esp or ebp |
| AsmAllocation.Allocator.AllocateOne | libtcc-mt/i386-asm.c:1262-1393 | one operand takes what its declaration or constraint grants, or fails without effect |
| AsmAllocation.Allocator.ComputeOutReg | libtcc-mt/i386-asm.c:1396-1413 | the lowest register that no output has, exactly if an output needs one, and an error exactly if all are taken |
| AsmAllocation.Allocator.ComputeConstraints | libtcc-mt/i386-asm.c:1185-1413 | on success everything is allocated in that sense, with the uses that modifiers ask for, in order of priority, with references resolved as written and the lowest scratch register |
| AsmCode.AsmGenCode | libtcc-mt/i386-asm.c:1552-1655 | the code before and after the asm text |
| AsmCode.ExecPops | libtcc-mt/i386-asm.c:1645-1653 | popping in reverse brings every saved register back and empties what was pushed |
| AsmCode.PreservesIff | libtcc-mt/i386-asm.c:1574-1653 | every statement leaves stack and rbx, r12 to r15 as they were, if the asm text changes none of them that it does not declare or is not given, exactly unless its scratch register is one of them and unsaved |
| AsmCode.AllocatedPreservesIff | libtcc-mt/i386-asm.c:1574-1653 | the same for every outcome of the allocation: nothing else in it can spoil a register to be preserved |
| AsmCode.ScratchCounterexample | libtcc-mt/i386-asm.c:1396-1413 | three outputs for which ebx is chosen and lost in every outcome of the allocation |
| AsmCode.ThreeOutputsAllocated | libtcc-mt/i386-asm.c:1259-1413 | the allocation of those outputs can succeed |
| AsmCode.RegvarClobberCounterexample | libtcc-mt/i386-asm.c:1275-1280 | an early clobber on a register variable is not read: an input shares the register |
| AsmCode.InputsLoadedIff | libtcc-mt/i386-asm.c:1592-1616 | for every outcome of the allocation, a loaded operand is in its registers after the prolog, in all machine states, exactly unless the one that refers to it is in a register or a wrongly marked one loads edx |
| AsmCode.MatchedMemoryCounterexample | libtcc-mt/i386-asm.c:1592-1616 | a reference to an operand in memory, for which the pointer is lost in every outcome of the allocation |
| AsmCode.StaleMarkCounterexample | libtcc-mt/i386-asm.c:1609-1614 | an input in edx that is lost when the pair is left marked as two registers |
| AsmCode.MarkedPairAllocated | libtcc-mt/i386-asm.c:1359-1393 | the allocation can succeed with the mark left and handed on |
| AsmCode.PointerAndValueAllocated | libtcc-mt/i386-asm.c:1259-1394 | the allocation of that pair can succeed |
| AsmCode.OutputsStored | libtcc-mt/i386-asm.c:1618-1644 | with registers as allocated, every output gets what the asm text left, although the scratch register is loaded in between |
| OperandEncoding.RoundTripIff | libtcc-mt/i386-asm.c:520-637 | the prefix has the operand size, and decoding prefix, ModRM, SIB and displacement gives both operands back, exactly if no high byte register meets a prefix, the base is not rip, the index neither rsp nor rip and the displacement fits |
| OperandEncoding.RipBaseCounterexample | libtcc-mt/i386-asm.c:536-540 | 8(%rip) is encoded as 4(%rip) |
| OperandEncoding.RspIndexCounterexample | libtcc-mt/i386-asm.c:560-566 | an index rsp is lost |
| OperandEncoding.RipIndexCounterexample | libtcc-mt/i386-asm.c:334-336 | an index rip becomes rsi, with another scale |
| OperandEncoding.WideDisplacementCounterexample | libtcc-mt/i386-asm.c:567-572 | a displacement of 2^31 becomes -2^31 |
| OperandEncoding.MemoryDecodes | libtcc-mt/i386-asm.c:520-575 | what every memory operand decodes to, with the special cases of rsp, r12, rbp, r13, rip, no base and no index |
| OperandEncoding.RegisterDecodes | libtcc-mt/i386-asm.c:524-526 | what every register operand decodes to |
| OperandEncoding.CodeLength | libtcc-mt/i386-asm.c:520-575 | the shortest displacement is taken, and a SIB byte only where one is needed |
| OperandEncoding.RexRoundTrip | libtcc-mt/i386-asm.c:577-637 | the prefix byte shows its four bits |
| OperandEncoding.PrefixOfPair | libtcc-mt/i386-asm.c:604-637 | bit by bit: W is the operand size, R, B and X are set for registers from r8 on, the byte is there if any bit is or for spl to dil, and is an error exactly with ah to bh |
| OperandEncoding.PrefixOfOpcode | libtcc-mt/i386-asm.c:589-603 | the same for a register in the opcode |
| OperandEncoding.NamesSame | libtcc-mt/i386-asm.c:594-620 | a prefix changes the meaning of the high byte registers only |
| OperandEncoding.OpcodeRegisterIff | libtcc-mt/i386-asm.c:589-603 | the same round trip for a register in the opcode, with the operand size |
| OperandEncoding.Assembler.AsmRex | libtcc-mt/i386-asm.c:583-637 | the registers lose bit 3 in place, the prefix added shows the operand size and those bits one by one, and a high byte register with a prefix is an error |
| OperandEncoding.Assembler.AsmModrm | libtcc-mt/i386-asm.c:520-575 | the bytes emitted for an operand |

## Left out

- Archives, objects and DLLs, writing the ELF file, `dlsym`, signals, backtraces, options and the messages of errors: input and output. An error that aborts is a result, one that does not is a counter.
- The back ends: `load`, `store`, jumps and 32-bit operations are abstract instructions with stated meanings. PE, ARM and i386 variants are not modelled; x86-64 is assumed where it matters.
- SymbolTable.SymbolTable.PutElfSym: capacity of the symbol and hash sections is kept in entries and words, not bytes, and allocation does not fail.
- SymbolTable.SymbolTable.EndFile: assumes that relocations of the compile name symbols made in it, as the compiler does; `squeeze_multi_relocs` is not part of the model.
- SymbolResolution.MergeOrder: default visibility, no `.set` symbols, a table that is not dynamic and sections that are regular, bss, common or undefined; with other visibilities the first symbol can win.
- SymbolTable.SymbolTable.PutReloc: a relocation has no addend in the model, and a new relocation section no name and flags.
- SymbolHash.HashStepFolds: for steps that stay below 2^32; `unsigned long` has 64 bits in the model, which keep a carry beyond that.
- SectionLayout.Layout.LayoutSections: ELF output with power-of-two alignments, an interpreter section that has contents, and a default address that is a multiple of the page size; the `int` casts of paddings, the binary output format, the fields for `.dynamic` and FreeBSD are not modelled.
- SectionNumbers.Headers.TidySectionHeaders: pointers between sections (`link`) are not modelled, as the pass does not touch them.
- OrderedMap.HashMap.Insert: an entry that is overwritten must have come with a destructor, which the source calls without a test.
- Microsoft bit-field mode of `struct_layout`, and the hoisting of members of anonymous structs into their parent.
- Floating point, variable-length arrays, initializer and attribute parsing, the opcode tables and operand matching of the assembler.
- BitFieldAccess.StorePacked: byte-wise accesses are stated on bytes and words, not on the value stack they are pushed on.
- LongLongOps.CompareCorrect: both operands are in registers; comparisons of constants are folded before.
- ConstantFolding.FoldCorrect: operators are those that `gen_op` chooses for the type; operations that C leaves undefined have no meaning to keep.
- SwitchCode.Switch: `qsort` is taken as given, so the list comes ordered by `v1`; empty ranges, which the source only warns of, are not hit; 64-bit unsigned values are compared as signed ones.
- RegisterSpill.CodeGen.SaveRegUpstack: entries of two registers (128-bit values) are excluded; on those `get_reg` does not free the second register.
- ScopeStack.Scopes.SymPop: `keep`, with which a statement expression leaves its records on the stack but out of the chains, is not modelled; records are not recycled.
- ScopeRuns.RedeclaresIff: what struct_decl and typedefs do instead of declaring again in the same scope is not modelled; each pushes a symbol only after its own test of the newest one.
- AsmAllocation.Allocator.Prepare: digits of a reference are not limited to the width of an `int`, and register variables name existing registers.
- OperandEncoding.RoundTripIff: symbols and their relocations, and immediates after the operand, which change a rip-relative displacement, are not modelled.
