# A model of parts of the GNU C front end, register-save pass and bytecode back end

The sources under `m3cc/gcc` are those of GCC 2.6. This project models the parts of them that decide
something hard, and proves what they are for. Each part has modules of its own.

| part | source | modules |
|---|---|---|
| caller-save insertion | caller-save.c | SaveAreas, CallerSave, CallerSaveRun, CallerSaveProof, CallerSaveTheorem, CallerSaveExact, CallerSaveOrder, CallerSaveLimits, CallerSavePass |
| comparison narrowing | c-common.c, tree.c | IntTypes, ShortenCompare, ShortenOrder, ShortenValues, ShortenTheorem, ShortenExamples, ShortenPass |
| truth values | c-common.c | TruthValue, TruthTheorem, TruthExact, TruthBoolean |
| scopes and BLOCK trees | c-decl.c | Scopes, ScopeRuns, ScopeDecls, ScopeChain |
| the parser for bytecode definition files | bi-parser.c, bi-parser.y | BiTables, BiGrammar, BiRun, BiParser, BiMeaning |
| segments, symbols and relocations | bc-emit.c | BcItems, BcSegments, BcFunctions, BcText |
| declarators printed and read | c-aux-info.c, c-decl.c, c-parse.y | Declarators, DeclTheorem, DeclRoundTrip, DeclPrinter |
| conversion recipes | bc-optab.c | Conversions, ConversionSearch, ConversionOrder, ConversionSteps |
| numbers, escapes and strings | c-lex.c, defaults.h | LexNumber, LexType, LexConstant, LexEscape, AsciiRoundTrip |
| iterator expansions | c-iterate.c | Iterators, CollectIterators |
| emulated alloca | alloca.c | Alloca |

A part that updates things in place has a class or a method with the loops of the source, proved equal to
functions on values; the theorems are about those functions. Helpers holds what several parts use.
`dafny verify dfyconfig.toml` checks the whole project.

## What the code does not do

The proofs turned up inputs for which the code does not do what it is meant to. Each has a lemma with the
input, and the theorem beside it says exactly when the code is right.

- A group of registers is saved around a call without regard to the registers that the call sets
  (caller-save.c:684-688). A register in such a group that the call sets is restored to its old value:
  `CallerSaveLimits.GroupSaveLosesResult`. The block is right all the same if nothing uses the register
  before it is stored again, dies or turns out unused: exact condition
  `CallerSaveExact.PreservedExactly`.
- `get_narrower` strips a cast that only changes the sign, and `shorten_compare` then forgets that the
  result was to be widened: `(unsigned) i == -1L` becomes `i == -1`
  (`ShortenExamples.CastToUnsignedLosesWidth`), and `(unsigned) i == (long) j` becomes `i == j`
  (`CastAgainstVariable`). The exact condition, on precisions, signs and the value of a constant, is
  `ShortenTheorem.SafeIsExact`, for all operands.
- `truthvalue_conversion` evaluates a complex operand twice, which is wrong if it makes a call
  (`TruthExact.CallIsExact`, exact condition for any expression `PreservedExactly`, from the tree alone
  `StraightExactly`).
- `truthvalue_conversion` returns an "and" with one as it is, and for a signed bit-field of one bit that is
  -1 (`TruthBoolean.SignedBitIsKept`, exact condition `TruthIsBoolean`).
- With IEEE arithmetic `x - x` need not be zero, and a difference of a real type is kept for that reason
  (c-common.c:1923-1927). The test is for REAL_TYPE, so that a complex difference is replaced by a
  comparison all the same (`TruthExact.OddDifference`, exact condition for a difference
  `DifferenceExactly`).
- After a rejected redeclaration in a block, `poplevel` leaves the first declaration as the local value of
  the name (`Scopes.StaleLocalValue`, exact condition `PopRestoresExactly`).
- `gen_type` prints the qualifiers of an array node in front of everything. `c_build_type_variant` gives
  an array the qualifiers of its elements, so that `int *const x[3]` is printed as
  `const int *const x[3]` (`DeclRoundTrip.ArrayOfConstPointers`, exact condition `RoundTrip`).
- Where `long` has as many bits as two host words, a constant without suffix that reaches the top bit
  looks negative to `int_fits_type_p` and gets a signed type (`LexType.LargestIsInt`, exact condition
  `ChoosesFirstFitting`).
- A function without pointer constants leaves a symbol at the end of the text; `bc_seg_write` aborts
  unless something follows (`BcFunctions.NoPointersEndWithLabel`, exact condition in
  `BcItems.WriteRecovers`).
- The range test of a hex escape shifts an `int` of the host; where the target's `int` has more than 35
  bits it reports values that fit (`LexEscape.WronglyReported`, exact condition `ReportedExactly`).
- The search for conversions can miss the cheapest chain (`ConversionSearch.CheaperChainLost`), since
  the loop that takes out successful chains skips the one behind each. The exact condition is that a
  cheapest chain stands at an odd place of its run of successful ones, in the order that the table gives
  (`ConversionOrder.CheapestByOrder`). Whatever the order, the loop finds one within a cost if and only
  if more than half of the successful ones are (`EveryOrderExactly`); if chains of equal length cost the
  same, it always does (`ConversionSearch.UniformIsCheapest`).

## Model

| member | source | states |
|---|---|---|
| SaveAreas.SetupFromOk | m3cc/gcc/caller-save.c:260-330 | after `setup_save_areas` every used call-clobbered register with a save mode has exactly one word slot, slots of different registers are disjoint, and a slot of several registers is exactly their consecutive word slots |
| SaveAreas.UsedGetsSlot | m3cc/gcc/caller-save.c:266-330 | a register that is used, clobbered by calls and has a save mode always gets a slot, whatever group it falls into |
| SaveAreas.WidestGroupFirst | m3cc/gcc/caller-save.c:266-312 | from each start the widest group whose members all need saving and have no slot yet is taken |
| SaveAreas.SaveAreaAllocator.Setup | m3cc/gcc/caller-save.c:260-330 | the loops over registers and widths leave exactly the slots of the specification |
| CallerSaveRun.AllocatedTargetOk | m3cc/gcc/caller-save.c:260-330 | the slots that `setup_save_areas` hands out satisfy what the simulation needs of a target |
| CallerSaveTheorem.BlockPreserved | m3cc/gcc/caller-save.c:348-499 | for all insn meanings, call results and start states: the block with saves and restores, run with calls that clobber, reads the same values at every insn as the original block run with calls that preserve, and ends with the same values in every live register, if no insn uses a stale register (one that a call set while it had a save, and that was not stored, dead or unused since) and none is left at the end |
| CallerSaveExact.PreservedExactly | m3cc/gcc/caller-save.c:348-499 | with distinct insn numbers, a block is preserved for all meanings and start states if and only if it has no such stale register |
| CallerSaveOrder.TakenExactly | m3cc/gcc/caller-save.c:480-497 | the same if the final jump of a basic block is taken, so that nothing behind it is run |
| CallerSaveOrder.InsnsInOrder | m3cc/gcc/caller-save.c:348-499 | the emitted block has the insns of the original one, all of them and in their order |
| CallerSaveOrder.OnlyClobberedSaved | m3cc/gcc/caller-save.c:452-458 | a register is saved only if a call may change it |
| CallerSaveOrder.LastInsn | m3cc/gcc/caller-save.c:480-497 | a final jump stands behind everything, the restores included; behind any other last insn there are only restores |
| CallerSaveOrder.LeavesAtEnd | m3cc/gcc/caller-save.c:480-497 | in a basic block nothing is emitted behind a jump |
| CallerSaveTheorem.BlockKeeps | m3cc/gcc/caller-save.c:348-499 | what the emitted block does in every case: the values read and left are those of the original insns on a machine whose calls do not set the registers that have saves |
| CallerSaveTheorem.KeepingAgrees | m3cc/gcc/caller-save.c:374-478 | without stale reads that machine differs from the original one at most in the stale registers |
| CallerSaveExact.StaleDiffers | m3cc/gcc/caller-save.c:684-688 | when every insn stores its own number, every stale register holds another value than in the original block |
| CallerSaveExact.ReadsShow | m3cc/gcc/caller-save.c:564-621 | and a stale register that is read is seen in the values read |
| CallerSaveTheorem.ScanBlockSim | m3cc/gcc/caller-save.c:374-478 | the simulation relation (needed registers are saved, slots of saved registers and live registers outside the needed ones hold the values of the machine that keeps saved registers, no more needed than counted) holds after every prefix of every block that does not abort |
| CallerSaveProof.RestoreSim | m3cc/gcc/caller-save.c:637-762 | one inserted restore keeps the relation for every group it may choose |
| CallerSaveProof.SaveSim | m3cc/gcc/caller-save.c:637-762 | one inserted save keeps the relation for every group it may choose |
| CallerSaveProof.CallSim | m3cc/gcc/caller-save.c:440-478 | a call with its saves keeps the relation to a call that leaves alone the registers it sets if they have saves: what it clobbers needs restoring, what it sets is live |
| CallerSaveProof.PlainSim | m3cc/gcc/caller-save.c:387-439 | any other insn keeps the relation once the registers it refers to are restored |
| CallerSaveProof.ScanInsnSim | m3cc/gcc/caller-save.c:387-478 | one turn of the scan, with its death notes and stores, keeps the relation |
| CallerSaveTheorem.RestoreCommutes | m3cc/gcc/caller-save.c:480-497 | a restore of a register that an insn neither reads nor writes may stand before or after the insn |
| CallerSaveTheorem.PlacementHarmless | m3cc/gcc/caller-save.c:480-497 | the restores at the end of the block have the same effect in front of a final jump as behind it |
| CallerSaveTheorem.EndPlacement | m3cc/gcc/caller-save.c:480-497 | the restores act as if they came last, wherever they are placed |
| CallerSaveLimits.NoOverlapIsSafe | m3cc/gcc/caller-save.c:684-688 | with word slots only, or groups that avoid the registers set by calls, no register of any block is ever stale |
| CallerSaveLimits.GroupSaveLosesResult | m3cc/gcc/caller-save.c:684-688 | a block of one call in which the register set by the call ends with its old value, since the group test does not look at the registers that the call sets |
| CallerSaveLimits.AbortsExactly | m3cc/gcc/caller-save.c:440-470 | the pass aborts exactly when some register live across a call, clobbered and not set by it, has no slot |
| CallerSavePass.Pass.SaveClobbered | m3cc/gcc/caller-save.c:348-499 | the pass over its register sets, counter and insn list, updated in place, ends in the state of the specification |
| CallerSavePass.Pass.ScanInsns | m3cc/gcc/caller-save.c:374-478 | the loop over the insns of a block |
| CallerSavePass.Pass.InsertSave | m3cc/gcc/caller-save.c:637-762 | the save goes in at its place and the sets and the counter change as specified; the widest group that may be saved is chosen |
| CallerSavePass.Pass.InsertRestore | m3cc/gcc/caller-save.c:637-762 | the same for a restore |
| CallerSavePass.Pass.RestoreReferencedRegs | m3cc/gcc/caller-save.c:564-621 | every operand is visited and each register that needs it is restored |
| CallerSavePass.Pass.SetRegLive | m3cc/gcc/caller-save.c:508-538 | a stored register becomes live and is no longer saved nor in need |
| CallerSavePass.Pass.ClearRegLive | m3cc/gcc/caller-save.c:540-562 | a dying register is no longer live, saved or in need |
| CallerSavePass.Pass.SaveLiveRegs | m3cc/gcc/caller-save.c:446-470 | before a call every live clobbered register that the call does not set is saved, group by group |
| CallerSavePass.Pass.ScanCallInsn | m3cc/gcc/caller-save.c:440-478 | what the scan does at a call |
| CallerSavePass.Pass.ScanOne | m3cc/gcc/caller-save.c:387-478 | what the scan does at any insn |
| ShortenTheorem.ShortenPreserves | m3cc/gcc/c-common.c:1478-1792 | for every precision, signedness, operator and value the operands and operator left, or the constant returned, give the truth value of the comparison in the nominal type, if the operands are safe: a condition computed from the precisions and signs of the conversions, and the value of a constant operand |
| ShortenTheorem.SafeIsExact | m3cc/gcc/c-common.c:1478-1792 | for all operands, objects and constants behind any conversions, that condition holds if and only if the result is right for every operator and all values |
| ShortenOrder.OrderIsKept | m3cc/gcc/c-common.c:1724-1737 | in terms of ranges: the order of two narrow values survives what is added to the negative ones, if it is the same as before, or lifts them above the other operand both times |
| ShortenOrder.OrderIsLost | m3cc/gcc/c-common.c:1724-1737 | and otherwise two values of the ranges change their order |
| ShortenOrder.ConstantIsKept | m3cc/gcc/c-common.c:1582-1604 | the position of a narrow value against a constant survives if the constant lies on one side of all negative values both times |
| ShortenOrder.ConstantIsLost | m3cc/gcc/c-common.c:1582-1604 | and otherwise some value of the range changes it |
| ShortenOrder.LinkedIsKept | m3cc/gcc/c-common.c:1724-1737 | the same for two operands over one object, whose values agree in the lower bits |
| ShortenOrder.LinkedIsLost | m3cc/gcc/c-common.c:1724-1737 | and otherwise two such values change their order |
| ShortenValues.ShapeValue | m3cc/gcc/tree.c:3724-3802 | an object behind any conversions has the value of its low bits, sign-extended some way and zero above |
| ShortenValues.Readings | m3cc/gcc/tree.c:3724-3802 | an operand as written, and what its stripped form stands for, are in the nominal type two readings of the same low bits of its object |
| ShortenTheorem.KeepsMeans | m3cc/gcc/tree.c:3724-3802 | stripping keeps the value of an operand for all values of its object if and only if the conversions satisfy a condition on precisions and signs |
| ShortenTheorem.KeepsIsExact | m3cc/gcc/c-common.c:1492-1504 | an operand that does not count as TREE_CONSTANT is narrowed correctly against all constants if and only if stripping keeps its value |
| ShortenExamples.CastToUnsignedLosesWidth | m3cc/gcc/c-common.c:1492-1504 | with a 64-bit nominal type `(unsigned) i == -1` is narrowed to a comparison with another truth value |
| ShortenExamples.CastAgainstVariable | m3cc/gcc/c-common.c:1492-1504 | `(unsigned) i == (long) j` is narrowed to a comparison with another truth value for i = j = -1 |
| ShortenExamples.NarrowerIsSafe | m3cc/gcc/c-common.c:1724-1737 | `(int) u` against `(unsigned long) uc` loses the width of `u` and is right all the same |
| ShortenExamples.NeverNegativeIsSafe | m3cc/gcc/tree.c:3754-3755 | `(unsigned) (short) uc` is stripped to a value that is never negative, and is right against every constant |
| ShortenExamples.CastAgainstItself | m3cc/gcc/c-common.c:1724-1737 | an operand that loses its width is narrowed correctly against itself |
| ShortenTheorem.UnconvertedIsSafe | m3cc/gcc/c-common.c:1478-1792 | operands as wide as the nominal type and operands never converted meet the condition |
| ShortenTheorem.ConstantCase | m3cc/gcc/c-common.c:1550-1709 | the comparison of a stripped operand with a constant: the folded 0 or 1, the extreme-value tests and the mixed signed and unsigned case all have the truth value of comparing what the operand stands for in the nominal type |
| ShortenTheorem.NarrowedTruth | m3cc/gcc/c-common.c:1724-1737 | a narrowed comparison has the truth value of comparing what the stripped operands stand for in the nominal type |
| ShortenCompare.StripBits | m3cc/gcc/tree.c:3724-3802 | `get_narrower` keeps the value modulo the width it returns, and its sign reading where it says so |
| ShortenCompare.BoundsAreExact | m3cc/gcc/c-common.c:1593-1648 | the ends of the range decide exactly the comparisons that come out alike for all its values |
| ShortenCompare.MixedConstant | m3cc/gcc/c-common.c:1582-1676 | the sign-extended but unsigned case with a constant |
| ShortenCompare.BothNarrowTruth | m3cc/gcc/c-common.c:1724-1737 | extending both operands the same way preserves every comparison |
| ShortenPass.NarrowOperand | m3cc/gcc/tree.c:3724-3802 | the loop of `get_narrower` returns the operand and the sign of the specification |
| ShortenPass.ChooseType | m3cc/gcc/c-common.c:1567-1790 | the branches with their reassigned operands, type and value end in the comparison, or the truth value, that the theorems are about |
| ShortenPass.CompareWithConstant | m3cc/gcc/c-common.c:1582-1709 | the ends of the range converted to the nominal type, made signed where the operand is sign-extended, and the value turned into a test of the sign, give the comparison of the specification |
| ShortenPass.Bounds | m3cc/gcc/c-common.c:1593-1648 | the four tests against the ends of the range, signed or unsigned, decide exactly as the order of the values does |
| ShortenPass.ShortenComparison | m3cc/gcc/c-common.c:1478-1792 | the function, with its exchanged operands and operator, yields the result of the specification |
| TruthTheorem.TruthPreserved | m3cc/gcc/c-common.c:1805-1960 | for every expression, oracle of side effects and history: the converted expression is nonzero exactly when the original is and has the same side effects in the same order, whatever rounding to a narrower type does, unless this evaluation reaches a complex operand that is compared part by part and makes a call, or a difference of reals is replaced by a comparison and is zero for other than equal operands |
| TruthExact.PreservedExactly | m3cc/gcc/c-common.c:1805-1960 | the conversion of an expression is right for every oracle and history if and only if no evaluation reaches such a complex operand, where a difference of reals is zero for equal operands alone |
| TruthExact.WhateverExactly | m3cc/gcc/c-common.c:1922-1927 | the same whatever the machine takes for a difference of reals, if no such difference is replaced; with IEEE arithmetic none of a real type is |
| TruthExact.DifferenceExactly | m3cc/gcc/c-common.c:1922-1939 | a difference is converted correctly whatever the arithmetic if and only if its type has no real parts, or is real and arithmetic is IEEE; a complex difference is replaced all the same |
| TruthBoolean.TruthIsOne | m3cc/gcc/c-common.c:1793-1960 | the converted expression is 1 or 0 as the original is nonzero or zero, with the same side effects, if the evaluation repeats no operand, replaces no inexact difference and does not come to a set bit of an "and" with one in a type of one signed bit |
| TruthBoolean.TruthIsBoolean | m3cc/gcc/c-common.c:1793-1960 | for every oracle and history the converted expression is 0, 1 or -1, and it is -1 if and only if the evaluation comes to such a bit |
| TruthBoolean.TruthType | m3cc/gcc/c-common.c:1793-1803 | it has type int, unless it is an "and" with one, which is returned with its own type |
| TruthBoolean.SignedBitIsKept | m3cc/gcc/c-common.c:1941-1943 | `b & 1` for a signed bit-field of one bit is returned as it is and is -1 |
| TruthExact.RepeatShows | m3cc/gcc/c-common.c:1951-1957 | whenever one is reached, there is an oracle for which the converted expression makes more calls than the original |
| TruthExact.StraightExactly | m3cc/gcc/c-common.c:1951-1957 | a look at the tree is enough to say that the conversion is right, and decides it exactly for trees without conditional parts |
| TruthExact.CallIsExact | m3cc/gcc/c-common.c:1951-1957 | for a single call it is right if and only if its type is not complex |
| TruthExact.GuardedCallIsFine | m3cc/gcc/c-common.c:1902-1906 | a complex call in an arm of a conditional that is never taken is converted correctly |
| TruthExact.NoCallLost | m3cc/gcc/c-common.c:1805-1960 | with answers that do not change, the converted expression makes no fewer calls than the original |
| TruthExact.Shifted | m3cc/gcc/c-common.c:1805-1960 | evaluation depends only on the answers between its start and its end |
| TruthTheorem.EvalTyped | m3cc/gcc/c-common.c:1805-1960 | evaluation yields values of the type of the expression |
| TruthTheorem.NoSideEffects | m3cc/gcc/c-common.c:1871-1900 | an expression without side effects leaves the history alone, so that dropping it is sound |
| TruthTheorem.MinusZero | m3cc/gcc/c-common.c:1922-1939 | a difference is zero exactly when the operands, compared in its type, are equal; for reals where subtraction is exact in this sense |
| TruthTheorem.ConvertValueZero | m3cc/gcc/c-common.c:1915-1920 | a widening conversion of a value is zero exactly when the value is |
| TruthTheorem.RotateZero | m3cc/gcc/c-common.c:1892-1900 | a rotation is zero exactly when its operand is |
| TruthTheorem.FfsZero | m3cc/gcc/c-common.c:1885-1890 | `ffs` is zero exactly when its operand is |
| Scopes.LookupIsSearch | m3cc/gcc/c-decl.c:2629-2661 | under the invariant `lookup_name` is the search of the level chain from the innermost level outward |
| Scopes.ZeroSlotMeansUndeclared | m3cc/gcc/c-decl.c:1846-1902 | a zero local slot means that no active level but the global one declares the name |
| Scopes.PushLevelInv | m3cc/gcc/c-decl.c:839-880 | `pushlevel` keeps the invariant and the mapping |
| Scopes.PushDeclInv | m3cc/gcc/c-decl.c:1824-2240 | `pushdecl` keeps the invariant: the slots are what the levels declare and the shadowed lists what they displaced |
| ScopeDecls.DeclaresUnlinked | m3cc/gcc/c-decl.c:1846-1902 | a declaration that is not external leaves everything as it is if it is an accepted redeclaration of a name of the innermost level, and otherwise is put in front of that level and becomes what its name means, and nothing else changes |
| ScopeDecls.DeclaresLinked | m3cc/gcc/c-decl.c:1846-1902 | an external one is left out also if it is an accepted redeclaration of the global declaration and that is a parameter or visible |
| ScopeDecls.DeclaresHidden | m3cc/gcc/c-decl.c:1896-1901 | so an accepted external declaration in a block is declared there exactly if an outer block hides the global one |
| ScopeDecls.DeclaresTop | m3cc/gcc/c-decl.c:2244-2255 | pushdecl_top_level declares at the global level, unless it is an accepted redeclaration there; the other levels stay |
| Scopes.PushDeclTopLevelInv | m3cc/gcc/c-decl.c:2244-2255 | `pushdecl_top_level` keeps it too, and the local mapping |
| Scopes.PopRestoresExactly | m3cc/gcc/c-decl.c:1000-1072 | `poplevel` restores the mapping of the enclosing level if and only if every name declared more than once at the level was shadowing an outer local declaration |
| Scopes.PopLevelInv | m3cc/gcc/c-decl.c:897-1117 | and exactly then it keeps the invariant |
| Scopes.DistinctIsFine | m3cc/gcc/c-decl.c:1846-1902 | names distinct within a level meet the condition |
| Scopes.PoppedBlock | m3cc/gcc/c-decl.c:976-1090 | leaving a level that keeps its block adds the block behind those of the enclosing level, with the names of the level, newest first or in the order of declaration, and the blocks gathered in it; the block of a function body has no names |
| Scopes.StaleLocalValue | m3cc/gcc/c-decl.c:1000-1072 | after a rejected redeclaration in a block the first declaration is still the local value behind the block |
| ScopeRuns.RunInv | m3cc/gcc/c-decl.c:839-2255 | every run of pushlevel, pushdecl, pushdecl_top_level and poplevel, function bodies included, keeps the invariant if each level left declares twice only names that shadow an outer local declaration |
| ScopeDecls.RunDeclares | m3cc/gcc/c-decl.c:839-2255 | in every such run each declaration is made or left out exactly as the levels at that time demand |
| ScopeRuns.MatchingPopRestores | m3cc/gcc/c-decl.c:839-1072 | in such a run, whatever it does in between, poplevel restores the mapping held at the matching pushlevel |
| ScopeRuns.ScopeAdds | m3cc/gcc/c-decl.c:868-1090 | what is asked for with `keep_next_level` goes to the next level only, and the BLOCK forest built for a scope is the scope tree with unkept scopes spliced out, their children promoted in order, and nested functions left out |
| ScopeRuns.FunctionBlock | m3cc/gcc/c-decl.c:980-1072 | the BLOCK of a function body has the forest of the scopes inside it |
| ScopeRuns.SpliceKeepsEdges | m3cc/gcc/c-decl.c:980-1090 | every kept scope has exactly one BLOCK, under that of the nearest kept scope around it and in source order; the other scopes have none |
| ScopeChain.BindingLevels.LookupDecl | m3cc/gcc/c-decl.c:2629-2642 | the two slots give the declaration of the specification, which under the invariant is the one found by the search |
| ScopeChain.BindingLevels.Push | m3cc/gcc/c-decl.c:839-880 | a level is taken from the free list or made, cleared, and linked in front; nothing else changes |
| ScopeChain.BindingLevels.PreviousDecl | m3cc/gcc/c-decl.c:2644-2684 | the earlier declaration that a new one is compared with |
| ScopeChain.BindingLevels.Declare | m3cc/gcc/c-decl.c:1824-2240 | the slots, names and shadowed list after a declaration, with the chain and the free list intact |
| ScopeChain.BindingLevels.DeclareTop | m3cc/gcc/c-decl.c:2244-2255 | the current level is switched to the global one for the call and switched back |
| ScopeChain.BindingLevels.Pop | m3cc/gcc/c-decl.c:897-1117 | names cleared, shadowed meanings restored, the block made or the subblocks handed up, and the level structure put on the free list, which stays a list of its own |
| BiRun.ParsesExactly | m3cc/gcc/bi-parser.c:99-173 | for every token string and tree: the parser returns the tree if and only if it derives the tokens from `top` and fits the stack; when it reports a syntax error no tree derives them |
| BiRun.Unambiguous | m3cc/gcc/bi-parser.c:99-110 | every token string has at most one derivation |
| BiRun.RunSound | m3cc/gcc/bi-parser.c:421-764 | what is accepted is a well-formed tree of the start symbol whose leaves are the tokens |
| BiRun.Drive | m3cc/gcc/bi-parser.c:526-764 | a derivable stretch of tokens in front of a token that may follow is recognised whole, its symbol and state pushed, unless the stack is too small |
| BiRun.StepKeeps | m3cc/gcc/bi-parser.c:440-764 | every turn keeps the stacks in step and uses up tokens or the rank of the state, so that every parse ends |
| BiRun.StepYield | m3cc/gcc/bi-parser.c:440-764 | the tokens shifted so far are always those under the trees on the stack |
| BiGrammar.ReduceFacts | m3cc/gcc/bi-parser.c:632-764 | at each reduction the symbols popped are the right-hand side of the rule and the goto table gives the transition of the state below |
| BiGrammar.ItemOnStack | m3cc/gcc/bi-parser.c:99-139 | a state that has seen part of a rule has that part on top of the stack, and the rule started in the state below |
| BiGrammar.AcceptFacts | m3cc/gcc/bi-parser.c:599-600 | at acceptance the stack is the start symbol and the end of input |
| BiTables.ActIsEdge | m3cc/gcc/bi-parser.c:127-173 | the packed action tables encode exactly the transitions and default reductions of the automaton |
| BiTables.GotoIsEdge | m3cc/gcc/bi-parser.c:756-762 | the packed goto tables encode exactly its transitions on nonterminals |
| BiTables.BackStep | m3cc/gcc/bi-parser.c:99-173 | every transition advances exactly the items of its source state |
| BiParser.Parser.YyParse | m3cc/gcc/bi-parser.c:421-764 | the goto-driven loop over growable arrays succeeds, fails or overflows exactly as the automaton does, and `defs` is the value of the derivation |
| BiParser.Parser.Decide | m3cc/gcc/bi-parser.c:526-629 | the action taken, with the lookahead read only where the state needs it |
| BiParser.Parser.NewState | m3cc/gcc/bi-parser.c:440-512 | a push on a full stack doubles both stacks up to 10000 entries, keeps their contents and equal height, and overflows exactly at that height |
| BiParser.Parser.ReduceBy | m3cc/gcc/bi-parser.c:632-764 | the values of the right-hand side give way to that of the action and the states to the goto state |
| BiParser.Parser.ShiftToken | m3cc/gcc/bi-parser.c:602-622 | the token and its value are pushed; the end of input stays |
| BiParser.EvalReduced | m3cc/gcc/bi-parser.c:632-733 | a reduction leaves the values of the trees on the stack |
| BiMeaning.ReadsEveryFile | m3cc/gcc/bi-parser.y:59-114 | every definition file is read as exactly its definitions and variations, newest first, with the codes counted up in textual order, if and only if the stack is deeper than the file needs, which is told from its lists; otherwise the parser overflows |
| BiMeaning.ReadsWithSourceStack | m3cc/gcc/bi-parser.c:302-310 | with 10000 places every file is read whose lists have at most 4990 items, however many definitions and variations it has |
| BiMeaning.ItemsHeight | m3cc/gcc/bi-parser.y:104-109 | a list of n items takes 2n - 1 places |
| BiMeaning.DefsHeight | m3cc/gcc/bi-parser.y:60-73 | definitions do not add up on the stack; the deepest one decides |
| BiMeaning.EntryMeans | m3cc/gcc/bi-parser.y:70-73 | a definition yields its name, template and variations, each from its place |
| BiMeaning.ShapeMeans | m3cc/gcc/bi-parser.y:80-90 | a variation yields its name, the next code, and up to three lists in order |
| BcItems.WriteRecovers | m3cc/gcc/bc-emit.c:343-389 | from the bytes, symbols and relocations of a segment the writer gives back the items emitted, each once and in order, and aborts if and only if the last of them is a symbol |
| BcItems.SymsShift | m3cc/gcc/bc-emit.c:283-317 | moving a segment adds the place where it lands to every symbol value |
| BcItems.RelocsShift | m3cc/gcc/bc-emit.c:283-317 | and to every relocation offset |
| BcItems.AlignUpIsLeast | m3cc/gcc/bc-emit.c:181-195 | alignment goes to the least boundary that is not before the end |
| BcSegments.Segment.SegWrite | m3cc/gcc/bc-emit.c:321-390 | the writer over the lists it turns round: the output is what was emitted, the abort exactly as above |
| BcSegments.Segment.SegConcat | m3cc/gcc/bc-emit.c:283-317 | the items of the other segment follow the padding; bytes, symbol values and relocations are those of the joined items |
| BcSegments.Segment.SegData | m3cc/gcc/bc-emit.c:200-214 | the bytes are appended, the buffer grown by doubling, what was there unchanged |
| BcSegments.Segment.SegAlign | m3cc/gcc/bc-emit.c:181-195 | zeros up to the next boundary are appended |
| BcSegments.Segment.SegSkip | m3cc/gcc/bc-emit.c:219-232 | zeros are appended |
| BcSegments.Segment.SegDefsym | m3cc/gcc/bc-emit.c:239-257 | a symbol gets the current place, once |
| BcSegments.Segment.SegRefsym | m3cc/gcc/bc-emit.c:263-278 | a relocation and its word are appended |
| BcFunctions.SymbolTable.Lookup | m3cc/gcc/bc-emit.c:89-125 | the one symbol of a name is returned, made if there is none; all others stay |
| BcFunctions.PatchedExactly | m3cc/gcc/bc-emit.c:603-609 | back-patching overwrites the words of references to defined labels with the offsets of the labels and no other byte |
| BcFunctions.PatchedAddress | m3cc/gcc/bc-emit.c:603-609 | the number read from the patched bytes at a reference to a defined label is the offset of the label |
| BcFunctions.WordReadsBack | m3cc/gcc/bc-emit.c:603-609 | an `int` of four bytes in memory reads back as the number, lowest byte first |
| BcFunctions.FunctionCode.Backpatch | m3cc/gcc/bc-emit.c:603-609 | the loop over the references leaves exactly the patched bytes |
| BcFunctions.FunctionCode.EmitLabelRef | m3cc/gcc/bc-emit.c:550-567 | every reference gets a word of its own |
| BcFunctions.FunctionCode.DefineLabel | m3cc/gcc/bc-emit.c:527-544 | a label is defined once, at the current place |
| BcFunctions.FunctionCode.EmitConst | m3cc/gcc/bc-emit.c:499-505 | bytes are appended to the code |
| BcFunctions.Assemble | m3cc/gcc/bc-emit.c:593-626 | at the end of a function its entry segment holds its entry, its patched code, the label of its pointer constants and the constants, each aligned |
| BcText.EndFunction | m3cc/gcc/bc-emit.c:593-634 | and then stands behind the text of the object file, aligned |
| BcText.PiecesLand | m3cc/gcc/bc-emit.c:283-317 | after any run of functions, alignments and directly emitted data, labels and references each stands unchanged at its place, the next boundary behind those before it, and the symbols and relocations of the text are those of all of them, each at the place of its piece plus its own offset |
| BcText.EmittedDirectly | m3cc/gcc/bc-emit.c:638-678 | what is emitted directly comes right behind the text |
| BcFunctions.Lands | m3cc/gcc/bc-emit.c:283-317 | a concatenated segment stands unchanged at an aligned place, its symbols and relocations at that place plus their own offsets, and what was before is unchanged |
| BcFunctions.NoPointersEndWithLabel | m3cc/gcc/bc-emit.c:593-636 | a function without pointer constants leaves a symbol at the very end, so that the writer aborts unless something is emitted behind it |
| Declarators.ParmIsAdjusted | m3cc/gcc/c-decl.c:4670-4697 | no parameter has an array or a function type: it is a pointer to the element or to the function |
| DeclRoundTrip.RoundTrip | m3cc/gcc/c-aux-info.c:355-503 | a type as the compiler builds it is read back from its printed declaration if and only if none of its arrays is of elements with qualifiers that the base type lacks |
| DeclRoundTrip.PrintedMeans | m3cc/gcc/c-aux-info.c:355-503 | what the printed declaration of any type declares: the same pointers, arrays and functions, with the qualifiers of array and function nodes moved to the base type |
| DeclRoundTrip.ArrayOfConstPointers | m3cc/gcc/c-aux-info.c:498-501 | `int *const x[3]` is printed as an array of constant pointers to constant int |
| DeclRoundTrip.GrokUndoes | m3cc/gcc/c-decl.c:4312-4591 | the loop of `grokdeclarator` undoes the layers of a declarator one by one, with the pending qualifiers merged where they belong |
| DeclRoundTrip.ReadIsBuilt | m3cc/gcc/c-decl.c:4312-4697 | whatever text is read, its type is one that the compiler builds: no arrays of functions or of void, no functions that return arrays or functions, and arrays with the qualifiers of their elements |
| DeclRoundTrip.NormalConsistent | m3cc/gcc/c-common.c:2044-2073 | what is read always has array qualifiers equal to those of the elements |
| DeclTheorem.GenTypeWrites | m3cc/gcc/c-aux-info.c:355-503 | `gen_type` writes the declarator whose layers are those of the type, behind the leading qualifiers |
| DeclTheorem.ReadWritten | m3cc/gcc/c-parse.y:1045-1107 | a declarator as written is read back by the grammar, whatever ends it |
| DeclTheorem.ReadWrapped | m3cc/gcc/c-parse.y:1092-1107 | the parentheses around a pointer part make it be taken before what follows |
| DeclTheorem.ReadList | m3cc/gcc/c-parse.y:1841-1910 | a parameter list as written is read back up to its closing parenthesis |
| DeclTheorem.AffixText | m3cc/gcc/c-aux-info.c:116-151 | the data type goes in behind all leading qualifiers |
| DeclPrinter.TypePrinter.PrintType | m3cc/gcc/c-aux-info.c:355-503 | the printer returns the text of the specification and leaves the base type in `data_type`, although parameters overwrite it |
| DeclPrinter.TypePrinter.PrintFormals | m3cc/gcc/c-aux-info.c:160-236 | the loop over the parameters |
| DeclPrinter.TypePrinter.AffixDataType | m3cc/gcc/c-aux-info.c:116-151 | the loop over the qualifiers |
| DeclPrinter.TypePrinter.PrintDeclaration | m3cc/gcc/c-aux-info.c:516-587 | the declaration of a name with its type |
| DeclPrinter.Grok | m3cc/gcc/c-decl.c:4312-4591 | the loop over the layers of a declarator |
| ConversionSearch.FindsExactly | m3cc/gcc/bc-optab.c:545-578 | for every conversion table something is collected if and only if a chain of reasonable steps leads to the target |
| ConversionSteps.FindsSensible | m3cc/gcc/bc-optab.c:545-578 | the same said of the typecodes: something is collected if and only if conversions of the table lead to the target through types of which none comes twice, whose sizes go one way, with no mixture of sign and zero extension or of conversions to and from floating types, and no integer widened behind a change of sign |
| ConversionSteps.StepwiseExactly | m3cc/gcc/bc-optab.c:398-515 | the chains that the search builds are exactly the linked ones through such types |
| ConversionSteps.ReasonableMeans | m3cc/gcc/bc-optab.c:408-515 | `conversion_reasonable_p` accepts exactly the steps with which such a chain stays one |
| ConversionSearch.AbortsExactly | m3cc/gcc/bc-optab.c:580-594 | with costs that cannot add up to 100000 the search aborts exactly when no such chain exists |
| ConversionSearch.RecipeFacts | m3cc/gcc/bc-optab.c:545-607 | the recipe is the opcodes, in order and without implicit steps, of a chain in which no typecode repeats, sizes go one way, sign and zero extension do not mix, integer and floating conversions do not go both ways, and no integer is widened behind a change of sign |
| ConversionSteps.RecipeConverts | m3cc/gcc/bc-optab.c:594-626 | if each conversion of the table makes values of its target type of those of its source type, whatever the bytecodes do, the bytecodes of the recipe performed in order do so from the first type to the last |
| ConversionSearch.NoRepeats | m3cc/gcc/bc-optab.c:427-430 | no typecode appears twice, so a chain is no longer than there are typecodes and the search ends |
| ConversionSearch.CheaperChainLost | m3cc/gcc/bc-optab.c:550-557 | a table for which a cheaper chain exists and is not collected, since the loop skips the chain behind each one it unlinks |
| ConversionSearch.CollectedExactly | m3cc/gcc/bc-optab.c:549-557 | a chain is collected if and only if it is pending when it reaches the target and does not directly follow an unlinked chain in its round |
| ConversionSearch.CheapestExactly | m3cc/gcc/bc-optab.c:549-594 | the recipe is the cheapest of all chains if and only if some cheapest chain is unlinked in its round |
| ConversionSearch.LeadsArePending | m3cc/gcc/bc-optab.c:549-577 | every chain of reasonable steps to the target is pending in the round of its length, so that it is lost if and only if it directly follows an unlinked chain wherever it stands there |
| ConversionSearch.EveryLengthCollected | m3cc/gcc/bc-optab.c:549-577 | of the chains to the target of one length some chain is collected |
| ConversionSearch.CheapestByLength | m3cc/gcc/bc-optab.c:580-594 | the recipe costs no more than the dearest chain to the target of any one length |
| ConversionSearch.UniformIsCheapest | m3cc/gcc/bc-optab.c:580-594 | if chains to the target of equal length cost the same, the recipe is the cheapest of all |
| ConversionSearch.EqualCostsAreCheapest | m3cc/gcc/bc-optab.c:580-594 | so it is if all conversions of the table cost the same |
| ConversionOrder.EveryOrderExactly | m3cc/gcc/bc-optab.c:549-557 | the loop takes a successful chain within a given cost out of the pending ones, whatever their order, if and only if more than half of the successful ones are within it |
| ConversionOrder.CollectedByOrder | m3cc/gcc/bc-optab.c:549-577 | a chain is collected if and only if it stands at an odd place of its run of successful chains, in the order that the table gives |
| ConversionOrder.CheapestByOrder | m3cc/gcc/bc-optab.c:549-594 | the recipe is the cheapest of all chains if and only if some cheapest chain stands at an odd place of its run |
| ConversionOrder.PendingIsInOrder | m3cc/gcc/bc-optab.c:549-577 | the pending chains of a round are the extensions of the remaining ones of the round before, chain by chain and each in the order of the table, last first |
| ConversionOrder.EveryOtherTaken | m3cc/gcc/bc-optab.c:549-557 | of each run of successful chains every other one is unlinked, beginning with the first |
| ConversionOrder.MajorityBound | m3cc/gcc/bc-optab.c:549-594 | the recipe stays within a cost if in some round more than half of the successful chains do |
| ConversionSearch.DeduceConversion | m3cc/gcc/bc-optab.c:520-608 | the recipe is that of the cheapest of the chains collected; none if all cost too much |
| ConversionSearch.TakeGood | m3cc/gcc/bc-optab.c:549-557 | the loop that unlinks successful chains, with its skip |
| ConversionSearch.Expand | m3cc/gcc/bc-optab.c:559-577 | the loop that tries every conversion on every pending chain |
| ConversionSearch.FindBest | m3cc/gcc/bc-optab.c:580-591 | the first of least cost is chosen |
| ConversionSearch.StoreOpcodes | m3cc/gcc/bc-optab.c:596-604 | the opcodes stored backward come out in order |
| ConversionSearch.Recipes.EmitConversion | m3cc/gcc/bc-optab.c:610-626 | a recipe is deduced once and kept; every kept recipe is one that a search would return |
| Conversions.ConversionReasonable | m3cc/gcc/bc-optab.c:408-515 | the loops over the chain decide the five criteria |
| Conversions.SizesInOrder | m3cc/gcc/bc-optab.c:487-514 | the size loops accept exactly the chains whose sizes go in one direction |
| Conversions.ExpandAllMembers | m3cc/gcc/bc-optab.c:559-577 | one round makes every reasonable extension of the pending chains and nothing else |
| Conversions.SiftMembers | m3cc/gcc/bc-optab.c:549-557 | sifting loses no chain that has not reached the target, and takes at least one that has |
| LexNumber.ReadDigits | m3cc/gcc/c-lex.c:1221-1242 | for every digit string the parts below the top hold the value modulo their radix, and `overflow` is set exactly when the value reaches it, although the top part may wrap round |
| LexNumber.AddDigit | m3cc/gcc/c-lex.c:1225-1236 | one digit is multiplied in, carries included |
| LexNumber.DigitAdded | m3cc/gcc/c-lex.c:1238-1241 | the sticky flag stays exact through every digit |
| LexNumber.OutOfRange | m3cc/gcc/c-lex.c:1504-1514 | the warning is given exactly when the value does not fit the bytes of the target type |
| LexNumber.BuildWords | m3cc/gcc/c-lex.c:1519-1527 | the low and the high word hold the value modulo two host words |
| LexType.AnsiType | m3cc/gcc/c-lex.c:1562-1584 | the chain of tests chooses by the value, and for signed types by what its two words look like |
| LexType.ChoosesFirstFitting | m3cc/gcc/c-lex.c:1562-1584 | for a constant that is not out of range the first fitting type of its list is chosen, if and only if it has a `u` or `ll` or does not reach the sign bit of the two host words |
| LexType.LargestIsInt | m3cc/gcc/c-lex.c:1562-1566 | where `long` has two host words, the largest constant without a suffix gets type int |
| LexType.FitsMeans | m3cc/gcc/tree.c:3822-3836 | `int_fits_type_p` compares unsigned types by value and signed types by the signed reading of the two words |
| LexConstant.ReadConstant | m3cc/gcc/c-lex.c:1221-1584 | from the digits of a constant to its words, its type and the warning: the words are those of the value modulo two host words, the warning tells whether it exceeds the bytes of the target type, and the type is chosen for these words |
| LexConstant.ConstantIsRight | m3cc/gcc/c-lex.c:1504-1584 | where types have whole bytes, a constant that is not reported has the words of its value and the first type of its list that holds it, and a type that holds it at all, if and only if it has a `u` or `ll` or does not reach the sign bit of the two words |
| LexEscape.ReadHex | m3cc/gcc/c-lex.c:719-765 | the code is the value of the digits wrapped to 32 bits, and for an int of 4 to 35 bits a hex escape is reported exactly when the value needs more bits than an int has |
| LexEscape.HexDigits | m3cc/gcc/c-lex.c:734-747 | the hex digits are the sixteen in either case, and each is worth its place |
| LexEscape.ReportedExactly | m3cc/gcc/c-lex.c:757-763 | on a host that shifts by the count modulo 32 the test is right for every value if and only if an int has at most 35 bits |
| LexEscape.RangeOfLeading | m3cc/gcc/c-lex.c:757-763 | the first significant digit and the digit count decide the range |
| AsciiRoundTrip.WrittenReadsBack | m3cc/gcc/defaults.h:76-107 | every byte string written as assembler strings and read back piece by piece is the original |
| AsciiRoundTrip.ReadBack | m3cc/gcc/defaults.h:86-106 | the same from every byte on, through the pieces that are split before a digit |
| AsciiRoundTrip.StopsAfter | m3cc/gcc/defaults.h:94-105 | within a piece no decimal digit follows an octal escape, so that it does not matter whether a reader counts its digits |
| AsciiRoundTrip.WrittenIsPlain | m3cc/gcc/defaults.h:86-106 | what is written has printable characters, tabs and new lines only |
| AsciiRoundTrip.PlainIsCopied | m3cc/gcc/defaults.h:88-93 | bytes that need no escape are copied |
| AsciiRoundTrip.TurnBack | m3cc/gcc/c-lex.c:1774-1800 | what is written for one byte is read in one turn of the string loop |
| AsciiRoundTrip.OctalRead | m3cc/gcc/c-lex.c:767-778 | an octal escape is read up to the next character that is not an octal digit |
| AsciiRoundTrip.EscapeMeans | m3cc/gcc/c-lex.c:780-835 | the letters a, b, t, n, v, f, r stand for the codes from 7 on, e for 27, a new line for nothing, and any other character that starts no octal or hex escape for itself |
| AsciiRoundTrip.OutputAscii | m3cc/gcc/defaults.h:86-106 | the index loop writes the text of the specification |
| AsciiRoundTrip.ScanString | m3cc/gcc/c-lex.c:1769-1804 | the string loop reads the bytes of the specification |
| Iterators.IteratorState.PopLevel | m3cc/gcc/c-iterate.c:424-432 | the list of the level goes behind the sublevel list; every list keeps its first and last pointer and no node is in two lists |
| Iterators.IteratorState.SublevelToCurrent | m3cc/gcc/c-iterate.c:390-403 | at the end of a statement the sublevel list goes behind that of the current level, or is dropped at the top |
| Iterators.IteratorState.PushLevel | m3cc/gcc/c-iterate.c:408-418 | an empty list for the new level |
| Iterators.IteratorState.AddIxpansion | m3cc/gcc/c-iterate.c:440-463 | a new expansion in front of the current list, none at the top |
| Iterators.IteratorState.DeleteIxpansion | m3cc/gcc/c-iterate.c:470-511 | exactly the expansions for one iterator leave the sublevel list, the others keep their order |
| Iterators.IsnAppend | m3cc/gcc/c-iterate.c:363-379 | two lists become one, described by first and last pointer |
| Iterators.DeleteFrom | m3cc/gcc/c-iterate.c:470-511 | the loop that unlinks in place, last pointer included, and what it deletes or reports |
| CollectIterators.CollectsAll | m3cc/gcc/c-iterate.c:188-266 | a scan finds every free iterator of an expression exactly once, although each SAVE_EXPR is scanned only once |
| CollectIterators.CollectScans | m3cc/gcc/c-iterate.c:188-266 | the same for any list and any SAVE_EXPRs scanned before |
| Alloca.RunKeeps | m3cc/gcc/alloca.c:161-221 | over every run of calls, returns and requests the list stays ordered by depth and no block of an active call is freed, for both directions of stack growth |
| Alloca.StepKeeps | m3cc/gcc/alloca.c:161-221 | and after each request no block deeper than the caller remains |
| Alloca.SplitAt | m3cc/gcc/alloca.c:186-202 | in an ordered list stopping at the first block that is not deeper finds all that are |
| Alloca.AskedMembers | m3cc/gcc/alloca.c:186-221 | the blocks after a request are those no deeper than the caller, and the new one unless the size is zero |
| Alloca.RunConserves | m3cc/gcc/alloca.c:161-221 | over every run the blocks in the list and those freed are together, each counted as often as it occurs, those there were and those asked for |
| Alloca.CalleeReclaimed | m3cc/gcc/alloca.c:161-207 | what a deeper call has asked for is freed by the next request of its caller after it has returned |
| Alloca.Allocator.Reclaim | m3cc/gcc/alloca.c:186-207 | the loop frees exactly the deeper blocks |
| Alloca.Allocator.Alloca | m3cc/gcc/alloca.c:161-221 | the new block is in front of those that are left; size zero only reclaims |

## Left out

- Caller-save: how a mode is chosen for a group and whether the target recognises a save or restore insn (`init_caller_save`, `recog_memoized`, `constrain_operands`); insns are sets of registers read and written, and groups and modes are parameters of the target. The live set at the start of a block is a parameter; `cc0` users and the computation from pseudo registers are not modelled.
- CallerSaveTheorem.BlockPreserved: takes every register that an insn uses to occur in its pattern. Argument registers named only in CALL_INSN_FUNCTION_USAGE (calls.c:420-455), which the pass does not look at, are not inputs of the model's calls.
- SaveAreas.SaveAreaAllocator.Setup: the `ok` result, which tells whether all slot addresses are valid (`strict_memory_address_p`), is not modelled.
- Comparison narrowing: real operands, narrowing of COMPONENT_REFs, wrapping of side effects in COMPOUND_EXPRs, and the warnings.
- Truth values: folding of the result and conversions inside it that change nothing are the identity; comparisons of reals are exact, the subtraction of reals and the rounding to a narrower type are parameters; minus and xor have operands of equal precision; a rotation evaluates its count first.
- Scopes: labels, tags, the storage of declarations, limbo and inline declarations, and the inside of `duplicate_decls`, of which only the answer is a parameter. `poplevel` for function bodies is modelled, the adjustment of nested functions is not.
- The parser: the `next` links that the actions set are the order of sequences, so that sharing of list nodes is not captured; debugging output, and error recovery, which cannot be reached because `yyerror` exits. The scanner of the definition files is not part of this model.
- Segments: the printing of bytes in lines of eight and of directives, common and global symbols, freeing, and the trampolines. Labels of a function are live objects to the end of the function. The names in relocations stand for the symbols they look up to.
- DeclPrinter.TypePrinter.PrintType: a typedef name is a base type; `gen_type` also prints the name where a pointer, array or function node has one (c-aux-info.c:363-364).
- DeclPrinter.TypePrinter.PrintDeclaration: without the qualifiers and the storage class of the declared object.
- Scopes.PushDeclInv: with -traditional an extern declaration in a block is also made the global value of its name (c-decl.c:2008-2039); that is not modelled.
- Declarators: the spelling of tokens and the blanks between them, anonymous structures and enumerations, K&R styles, function definitions with parameter names, and the qualifiers that `gen_decl` adds for the declared object; sizes of arrays are given, not computed. Array sizes that vary and error recovery are left out.
- Conversions: the mapping from machine modes to typecodes and the operator tables.
- ConversionSearch.DeduceConversion: is the cheapest of the chains collected only, because the cheapest of all can be lost.
- ConversionSearch.UniformIsCheapest: goes one way; the exact condition depends on the order of the table and is `ConversionOrder.CheapestByOrder`.
- Numbers: floating and imaginary constants, traditional types, garbage behind a number, how the radix and the digits are told from the characters, and the growth of the token buffer. Joining parts into words is addition, since the bits joined do not overlap.
- Strings: wide and multibyte strings, and the warnings about character ranges.
- LexEscape.ReadHex: the shift by 32 bits or more, which C leaves undefined, is taken modulo 32. For an `int` of less than four bits it states the exact bound 16, since one digit is never reported; no bound is stated for no bits at all.
- Iterators: the loops generated around an iterator and the deletion of their insns, beyond which ones are deleted; freeing at the top level.
- Alloca: the Cray stack segments, blocking of signals, and how the direction of growth is found out. A call is taken to be not shallower than its caller.
- Integer arithmetic of the host is unbounded except where a width is named: the parts of a number, the code of a hex escape, the host words of constants, and the symbol hash.
