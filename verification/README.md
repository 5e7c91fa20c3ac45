# cton2llvm lowering pass, modelled in Dafny

cton2llvm translates Cretonne IR functions into LLVM IR using the inkwell
bindings. Cretonne IR is in block-parameter SSA form: every extended basic
block (EBB) declares parameters, and each branch passes arguments to them.
LLVM IR is in phi SSA form: a block's incoming values are phi nodes with one
(value, predecessor) pair per incoming edge. This project models the pass in
`src/translator.rs` that does the lowering.

The pass works in four steps:

- **Pass 1** visits every EBB in layout order.
  - It asks the block memo (`entry_bb_for_ebb`) for the EBB's LLVM block, which creates the block on first request.
  - It builds one empty i64 phi per EBB parameter and binds the parameter to its phi in the value environment.
- **Pass 2** visits the EBBs again and translates each instruction in order:
  - `iadd` and `isub` build an add or sub of their operands;
  - `iconst` becomes the 64-bit constant that reinterprets its signed immediate as unsigned;
  - `brz` compares its first argument with zero and branches conditionally to the destination's block or to a new fall-through block, where translation continues;
  - `jump` branches unconditionally;
  - `return` builds `ret void`.

  For `brz` and `jump`, the branch arguments are `zip`ped with the destination's parameters. Each phi gains one incoming pair from the current block.
- **Entry binding** adds a synthetic block that jumps to the function's first block. The i-th formal parameter becomes an incoming pair of the i-th entry-EBB phi, coming from the synthetic block.
- **`create_func`** names the function `ascii[0..length]` and gives it one i64 parameter per signature parameter.

The model is functional state passing:

- `CtonIr` is the source IR: a function's name, signature, EBB parameters and layout.
- `LlvmModel` is an abstract target:
  - blocks are naturals in creation order;
  - a phi is its block plus its list of incoming pairs;
  - every emitted instruction is logged with the block it was built in;
  - values are symbolic (`Const`, `InstResult`, `PhiResult`, `Param`);
  - `Eval` gives values a meaning as 64-bit wrapping integers.
- `Translator` is the pass itself.
  - Each step is a function from a `State` to a new state: memo, environment, function's block range, insertion block, phis and code log.
  - A Rust panic becomes `Err` with an error kind.
  - A skipped instruction (one that is only `println!`ed) becomes `Ok` with the state unchanged.
- `Invariants` gives a well-formedness invariant and proves that every step keeps it. The invariant says that blocks, phis and instruction results are only used once they exist, and that each source block has its own target block. From it follows that a function translated from an empty memo is self-contained.
- `Properties` states the promised behaviour:
  - memo idempotence and block counting;
  - program order of instructions and blocks;
  - phi bindings that stay injective, so distinct parameters get distinct phis;
  - exact edge stitching and entry binding;
  - the meaning of `iadd`/`isub`/`iconst`/`brz`;
  - the immediate reinterpretation round trip.
- `ModuleTranslation` models `Translator::translate` over a whole module, as written and corrected (see Findings).
- `Scenarios` covers whole functions: a straight-line `iadd` function translated end to end, and the unchecked arity of `jump`.

Three behaviours of the code shape the model:

- **Unknown variants and opcodes are skipped.** Unknown instruction variants and unknown branch, jump and multi-ary opcodes are printed and skipped (src/translator.rs:168, 248, 278, 293). The lowered function silently omits them.
- **Arity is never checked.** The branch arguments are `zip`ped with the destination's parameters, so a surplus on either side is silently dropped (src/translator.rs:237, 269). `Scenarios.JumpTruncatesArguments` shows this.
- **Unknown binary and unary-immediate opcodes panic** (src/translator.rs:194, 319). They are modelled as `Err(UnknownOp)`.

## Model

| member | source | states |
|---|---|---|
| Translator.EntryBlockFor | src/translator.rs:343-351 | the returned block is the one memoized for the EBB; a memo hit changes nothing; a miss appends exactly one block (`next` grows by one) and adds exactly that key; earlier entries are kept |
| Properties.EntryBlockForIdempotent | src/translator.rs:343-351 | asking twice for the same EBB returns the same block and the second call leaves the state unchanged |
| Properties.EntryBlockForStable | src/translator.rs:343-351 | once memoized, an EBB's block is returned unchanged by every later state whose memo extends the earlier one |
| Properties.RequestAllCount | src/translator.rs:343-351 | after requesting any sequence of EBBs, the memo's keys are the old keys plus the requested EBBs, and exactly one block was created per requested EBB not already memoized |
| Translator.TV.IntoIntValue | src/translator.rs:370-375 | total over both variants: an `Int` binding yields its value and a `Phi` binding yields the value the phi selects |
| Invariants.IntoIntValueOk | src/translator.rs:370-375 | the integer view of a well-formed binding names an existing instruction result or phi; for a phi binding it is that same phi |
| Translator.TV.IntoPhiValue | src/translator.rs:377-382 | succeeds exactly on `Phi` bindings, and then agrees with `into_int_value`; on an `Int` binding it fails with `ExpectedPhi` |
| Translator.LookupInt | src/translator.rs:181-182 | indexing the environment succeeds exactly for bound values and yields the binding's integer view (`into_int_value`, total over both variants); an unbound value fails with `UnboundValue` |
| Translator.LookupPhi | src/translator.rs:239 | succeeds exactly for values bound to a phi; fails with `UnboundValue` when unbound and `ExpectedPhi` when bound to an integer |
| Translator.BindParams | src/translator.rs:120-127 | afterwards the environment's keys are the old keys plus the parameters, every parameter is bound to a phi created for one of its own occurrences, and every other binding is unchanged |
| Translator.TranslateEbbParams | src/translator.rs:111-128 | succeeds exactly when the EBB is known; positions at the EBB's memoized block; appends one empty phi in that block per parameter and keeps the old phis; binds every parameter to its own new phi; leaves other bindings, the code and the start of the block range alone, the range growing only by the block `entry_bb_for_ebb` appends on a memo miss |
| Properties.TranslateEbbParamsDistinct | src/translator.rs:119-127 | with distinct parameters, the i-th parameter is bound to the i-th new phi |
| Translator.Pass1 | src/translator.rs:81-85 | succeeds exactly when every EBB in the layout is known; the memo only grows; no code is emitted and the block range starts where it did |
| Translator.Pass1Binds | src/translator.rs:81-85 | after pass 1 every layout EBB has a memoized block and every parameter of every layout EBB is bound to a phi |
| Translator.Pass1KeepsPhis | src/translator.rs:81-85 | pass 1 never unbinds a value that was bound to a phi before it |
| Translator.TranslateBinary | src/translator.rs:172-196 | succeeds exactly for `iadd`/`isub` with bound operands and a result; emits one add/sub of the operands' integer views in the current block and binds the first result to it, nothing else changing; any other opcode is `UnknownOp` |
| Properties.IntArithMeaning | src/translator.rs:180-193 | the bound result denotes the 64-bit wrapping sum (`iadd`) or difference (`isub`) of what the operands denote |
| Translator.TranslateUnaryImm | src/translator.rs:298-321 | succeeds exactly for `iconst` with a result and binds only that result, to a constant; any other opcode is `UnknownOp` |
| Properties.IconstMeaning | src/translator.rs:306-317 | the bound constant denotes the immediate modulo 2^64, and the signed immediate is recovered from it unchanged |
| Translator.ToU64 | src/translator.rs:309-310 | the `as u64` cast is the immediate reduced modulo 2^64 into [0, 2^64) |
| Translator.ToI64 | src/translator.rs:309-310 | the signed reading of a 64-bit pattern is congruent to the pattern modulo 2^64 |
| Properties.U64RoundTrip | src/translator.rs:309-310 | reading the `as u64` pattern back as signed gives the immediate back |
| Properties.I64RoundTrip | src/translator.rs:309-310 | the reinterpretation is a bijection on 64-bit patterns |
| Properties.MinusOneIsAllOnes | src/translator.rs:309-314 | `-1` becomes `0xFFFF_FFFF_FFFF_FFFF` |
| Translator.TranslateBranch | src/translator.rs:198-250 | `brz` succeeds exactly when it has a bound condition, a known destination and stitchable arguments; emits the compare with zero and the conditional branch to the destination's block or a freshly appended block, stitches `args[1..]` from the current block, and moves to the fresh block; any other branch opcode is skipped |
| Properties.BrzMeaning | src/translator.rs:207-246 | the comparison denotes 1 exactly when the condition denotes 0; the conditional branch targets the destination's block and the fall-through block; the fall-through block is new and is where translation continues |
| Properties.BrzStitching | src/translator.rs:234-244 | for each k below the zipped length of `args[1..]` and the parameters, the phi of the k-th parameter gains exactly (value of `args[k+1]`, branching block); every other phi is unchanged |
| Translator.TranslateJump | src/translator.rs:252-280 | `jump` succeeds exactly when the destination is known and its arguments stitch; emits a branch to the destination's block and stitches all arguments from the current block; any other jump opcode is skipped |
| Properties.JumpStitching | src/translator.rs:262-276 | for each k below the zipped length, the phi of the k-th parameter gains exactly (value of argument k, jumping block); every other phi is unchanged |
| Translator.Stitch | src/translator.rs:237-244 | succeeds exactly when every zipped parameter is bound to a phi and every zipped argument is bound; keeps the phis' blocks; each phi's incoming list only gains pairs at its end, all from the branching block |
| Properties.StitchExact | src/translator.rs:237-244 | each zipped parameter's phi gains exactly one pair (argument value, branching block); phis of no zipped parameter are untouched; surplus arguments or parameters are ignored |
| Properties.StitchGains | src/translator.rs:237-244 | each zipped parameter's phi gains exactly its one pair |
| Properties.StitchUntouched | src/translator.rs:237-244 | phis of no zipped parameter are left as they were |
| Scenarios.JumpTruncatesArguments | src/translator.rs:266-276 | one argument passed to a two-parameter block still succeeds: the first phi gains the argument and the second gets nothing from this edge |
| Translator.TranslateMultiAry | src/translator.rs:282-295 | `return` appends exactly `ret void` in the current block; any other multi-ary opcode changes nothing |
| Translator.TranslateInstruction | src/translator.rs:146-170 | any single instruction only grows the memo, blocks, code and phi incoming lists, and loses no binding; the first entry it emits is built in the current block, and an instruction that emits nothing leaves the builder where it was |
| Translator.TranslateInsts | src/translator.rs:138-143 | translating a block's instructions grows the state in the same sense; the first entry emitted is built in the block the builder starts in, and if nothing is emitted the builder stays there |
| Properties.UnknownVariantSkipped | src/translator.rs:146-169 | an instruction of an unknown format is only printed: removing it from a block leaves the block's translation, success or failure, exactly as it was |
| Properties.TranslateInstsAppend | src/translator.rs:138-143 | instructions are translated in program order: `a + b` is `a`, then `b` from where `a` stopped, a failure in `a` ends the block, and one instruction is translated by `TranslateInstruction` |
| Translator.TranslateEbb | src/translator.rs:130-144 | grows the state; the EBB has a memoized block afterwards, unchanged if it had one before; the first entry emitted for the EBB is built in that block, and if nothing is emitted the builder is left there |
| Translator.Pass2 | src/translator.rs:91-95 | the second pass only grows the state in the same sense |
| Properties.Pass2Append | src/translator.rs:91-95 | blocks are translated in layout order: `a + b` is `a`, then `b` from where `a` stopped, a failure ends the pass, and one block is translated by `TranslateEbb` |
| Translator.BindArgs | src/translator.rs:103-108 | succeeds exactly when every entry parameter is bound to a phi and the function has at least as many formal parameters as the entry EBB; keeps the number of phis |
| Properties.BindFreshPhiIds | src/translator.rs:119-127 | binding parameters to fresh phis, each to a phi made for one of its own occurrences, keeps every phi binding naming an existing phi and no phi bound to two values |
| Properties.TranslateEbbParamsPhiIds | src/translator.rs:111-128 | pass 1's step keeps phi bindings injective and within the phis created |
| Properties.Pass1PhiIds | src/translator.rs:81-85 | pass 1 keeps phi bindings injective and within the phis created |
| Properties.TranslateInstructionPhiIds | src/translator.rs:146-170 | an instruction creates no phi binding, keeps phi bindings injective, and leaves every binding of a value that is not one of its results unchanged |
| Properties.TranslateInstsPhiIds | src/translator.rs:138-143 | a block's instructions create no phi binding, keep phi bindings injective, and leave bindings of values they do not define unchanged |
| Properties.Pass2PhiIds | src/translator.rs:91-95 | pass 2 creates no phi binding, keeps phi bindings injective, and leaves bindings of values no instruction defines unchanged |
| Properties.PhiIdsGiveDistinctPhis | src/translator.rs:103-108 | with injective phi bindings, a parameter list without repeats whose members have phis has distinct existing phis, for entry binding and for every edge |
| Properties.Pass1DistinctPhis | src/translator.rs:81-85 | after pass 1 from an empty memo, every layout EBB that lists no parameter twice has distinct, existing phis for its parameters |
| Properties.Pass2DistinctPhis | src/translator.rs:81-95 | when no instruction defines an EBB parameter, the same holds after pass 2 |
| Properties.EntryPhisReceiveParams | src/translator.rs:71-108 | from an empty memo with distinct entry parameters, the phi of the i-th entry parameter gains exactly (i-th formal parameter, entry block) and no other phi gains a pair from entry binding |
| Properties.BindArgsExact | src/translator.rs:103-108 | the phi of the i-th entry parameter gains exactly (i-th formal parameter, synthetic block); other phis are unchanged |
| Translator.BindEntry | src/translator.rs:97-108 | fails when the function has no block; otherwise appends exactly one block, whose only instruction is a branch to the function's first block, and succeeds exactly when every entry parameter has a phi and a formal parameter |
| Properties.BindEntryExact | src/translator.rs:97-108 | the synthetic block ends in a branch to the first block, and the i-th entry phi gains exactly (i-th formal parameter, synthetic block) |
| Properties.EntryJumpsToEntryEbb | src/translator.rs:88-101 | from an empty memo, the function's first block is the block of the layout's entry EBB, and the synthetic block jumps to it |
| Translator.CreateFunc | src/translator.rs:323-339 | succeeds exactly for a `TestCase` name whose length fits its bytes; the name is the first `length` bytes; the arity is the number of signature parameters; a user name is `UnknownExternalName` |
| Translator.TranslateFunctionFrom | src/translator.rs:71-109 | a translated function has a non-empty layout, owns the consecutive block range starting at the given counter, and is entered at its last-created (synthetic) block; the memo it leaves keeps every entry it was given and has a block for every layout EBB |
| Invariants.TranslateEbbParamsInv | src/translator.rs:111-128 | pass 1's step keeps the well-formedness invariant and leaves the builder in a block of the function |
| Invariants.Pass1Inv | src/translator.rs:81-85 | pass 1 keeps the invariant |
| Invariants.TranslateBinaryInv | src/translator.rs:172-196 | `iadd`/`isub` keep the invariant |
| Invariants.TranslateUnaryImmInv | src/translator.rs:298-321 | `iconst` keeps the invariant |
| Invariants.TranslateBranchInv | src/translator.rs:198-250 | `brz` keeps the invariant |
| Invariants.TranslateJumpInv | src/translator.rs:252-280 | `jump` keeps the invariant |
| Invariants.TranslateMultiAryInv | src/translator.rs:282-295 | `return` keeps the invariant |
| Invariants.TranslateInstructionInv | src/translator.rs:146-170 | every instruction keeps the invariant |
| Invariants.Pass2Inv | src/translator.rs:91-95 | pass 2 keeps the invariant |
| Invariants.BindEntryInv | src/translator.rs:97-108 | entry binding keeps the invariant |
| Invariants.FreshTranslationSelfContained | src/translator.rs:71-109 | translated from an empty memo, a function only places code in, branches to and takes phi predecessors from its own blocks; every instruction uses only earlier results; each source EBB has its own block |
| Scenarios.StraightLineAdd | src/translator.rs:71-109 | `ebb0(v0, v1): v2 = iadd v0, v1; return` lowers to one block holding the add of the two phis and `ret void`, plus a synthetic block jumping to it; each phi receives exactly its formal parameter from the synthetic block |
| Scenarios.StraightLineAddComputesSum | src/translator.rs:71-109 | each entry phi's only incoming pair comes from the synthetic block and evaluates to the matching formal parameter; with the phis holding those values, the add denotes the 64-bit wrapping sum of the two parameters |
| ModuleTranslation.TranslateModuleAsWritten | src/translator.rs:63-69 | a successful module has one target function per source function; the memo the translator holds afterwards still has every entry it started with and a block for every EBB number any function uses; the first function is translated from the given memo, and the second from the memo the first left |
| ModuleTranslation.SharedMemoBreaksSecondFunction | src/translator.rs:29-31 | with the memo left over from a first `ebb0: return`, a second copy gets no block of its own: its `ret void` lands in the first function's block, and translating the two-function module fails with `NoEntryBlock` |
| ModuleTranslation.TranslateModule | src/translator.rs:63-69 | with a fresh memo per function, every translated function is self-contained and the functions own consecutive, disjoint, non-empty block ranges |
| ModuleTranslation.TranslateTwo | src/translator.rs:63-69 | with a fresh memo per function, a two-function module yields the two functions' translations, the second numbering its blocks from where the first stopped |
| ModuleTranslation.ReturnOnlyFrom | src/translator.rs:71-109 | `function %f() { ebb0: return }` from an empty memo lowers to a block with `ret void` and a synthetic block jumping to it, with no phis |
| ModuleTranslation.FreshMemoTranslatesBoth | src/translator.rs:63-69 | with a fresh memo per function, the same two-function module translates into two functions with blocks `n..n+1` and `n+2..n+3` |

## Left out

- **inkwell and LLVM internals.** `Context`, `Module`, `Builder`, type objects, `add_function` and `prepend_basic_block` are foreign calls, replaced by the abstract block/phi/log model.
  - Prepending only changes the layout order of the block list. The model records the synthetic block as the function's `entry` instead.
  - `get_entry_basic_block` (src/translator.rs:98) is assumed to return the first block appended to the current function, and `None` when the function has no block. `Translator.BindEntry` models the `None` case as `Err(NoEntryBlock)`, standing for the `unwrap` panic.
- **All types are i64.** Parameter types are carried in `Function.signature` but never read; only the signature's length is used. The source also lowers every parameter and phi to i64 (src/translator.rs:119, 331-334), and the return type is always void.
- **Value names.** The empty `""` names given to LLVM values are not modelled.
- **UTF-8 decoding and the final `expect`.** The UTF-8 decoding of the name (src/translator.rs:328) and the `expect` in `translate` (src/translator.rs:18) are library wrappers. The model keeps the name as bytes.
- **Printed text.** The `println!` text of skipped instructions is not modelled; only the skipping is.
- **Cursor mechanics.** The Cretonne cursor (`FuncCursor`, `next_ebb`, `next_inst`) is replaced by walking the layout sequence in order.
- **Parser, command line and tests.** `src/main.rs`, `src/parser.rs`, `src/lib.rs` and `tests/test.rs` are not part of this model. They are command-line parsing, file I/O, a foreign front end and module declarations.
- **Per-parameter formal lookup.** `get_nth_param(i).unwrap()` (src/translator.rs:106) is modelled as "fails when i is at least the arity". The phi lookup (line 104) happens first, so its error wins when both would fail; `Translator.BindArgs` keeps that order.
- Translator.TranslateFunctionFrom: its own contract is deliberately weak: it states the block range, the entry block and that the returned memo extends the given one and maps every layout EBB. The whole-function properties are stated by `Invariants.FreshTranslationSelfContained`, `Properties.EntryJumpsToEntryEbb` and the step lemmas.
- ModuleTranslation.TranslateModuleAsWritten: its contract ties the second function to the memo the first one left. Later functions are threaded the same way by the recursion on the rest of the module, which the contract does not spell out index by index. `ModuleTranslation.SharedMemoBreaksSecondFunction` shows the consequence on a concrete module.
- Translator.TranslateInstruction: its contract states growth and where the first emitted entry sits. Each arm's translation function states the behaviour of its arm, and `Properties.UnknownVariantSkipped` states the skipping of unknown formats.
- Translator.TranslateInsts: its contract states growth and where the first emitted entry sits. Program order is stated by `Properties.TranslateInstsAppend`.
- Translator.Pass2: its contract states growth only. Layout order is stated by `Properties.Pass2Append`, and the placement of each block's code by `Translator.TranslateEbb`.
- Properties.EntryBlockForIdempotent: it is stated for two consecutive calls. `Properties.EntryBlockForStable` covers calls separated by arbitrary translation in between.
- **Phi completeness.** It is stated edge by edge: each edge adds exactly one pair to each zipped phi. The model does not count in-degrees over a whole control-flow graph.

## Findings

| source | as written | input that shows it | evidently intended | confidence | as-written member | corrected member |
|---|---|---|---|---|---|---|
| src/translator.rs:29-31, 59, 343-351 | the `Ebb -> BasicBlock` memo lives on the translator and is never cleared, so every function after the first finds blocks of earlier functions under its own EBB numbers | a module holding two copies of `function %f() { ebb0: return }` | one memo per function, so each function gets its own blocks | medium, not executed | ModuleTranslation.SharedMemoBreaksSecondFunction | ModuleTranslation.TranslateModule |

In the input above, the second function's `ebb0` hits the memo, so no block is appended to the second function. Its `ret void` is built in the first function's block. Under the assumption about `get_entry_basic_block` named in Left out, translation of the second function then fails at or after src/translator.rs:98.
