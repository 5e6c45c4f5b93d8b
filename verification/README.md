# m-bpf verification

m-bpf compiles a boolean expression over the fields of a C structure to a small bytecode and runs
that bytecode on a register machine. This project models that pipeline in Dafny, from the expression
tree to the result of an execution, and proves it correct. `dafny verify dfyconfig.toml` checks it.

## What is modelled

- **Machine words** (`Words`): `int64_t`, `uint64_t`, `uint32_t` and bytes with every cast and
  wrap-around written out, little-endian words, sign extension, and `&` and `|` on two's complement.
- **Registry** (`Registry`): the table of field names with its three registration errors, as a class
  around a map that remembers, for the proofs, every registration offered to it. The compiler looks
  names up through it.
- **Compiler** (`CompilerState`): the one-pass code generator as a class with its own state: the growing
  slot buffer, jumps emitted with the placeholder -1 and patched later, the stack of released
  registers with `next_reg_` and the bitset, and the first failure, which is never forgotten. `CodeGen`
  gives the same code as a value, without patching, bitset or sticky flag; each method of the class is
  proved to leave exactly that value, from any state and for every tree.
- **Bytecode, verifier and virtual machine** (`Bytecode`, `Verifier`, `Vm`): 64-bit slots, the two-slot
  LoadImm whose second slot is raw data, the linear sweep with its table of starts, and the execution
  loop over a register array.
- **C API** (`Serialization`, `Api`, `Races`): the byte codec, the two loaders, program objects with the
  remembered `verified_` flag, and interleaved executions of one program by several threads.

`Semantics` is the reference meaning: a short-circuit evaluator of trees on 64-bit values that also lists
the field reads made. It knows nothing of registers or slots. `TypedSemantics` is a second meaning with
true booleans and addresses as bytes.

## Main results

1. *Semantic preservation.* A compiled program, run in any context, reaches its Ret within as many steps
   as it has slots, returns whether the evaluator's value is not 0, and makes exactly the evaluator's
   field reads in the same order (`CompiledComputes`). It rests on fragment correctness: the code of an
   expression, anywhere in any program and with any register contents, reaches its end with the value in
   its register and every live register unchanged (`FragmentCorrect`, by induction in `GenRuns`).
2. *Exact success and exact cost.* Compilation succeeds if and only if the tree is a well-typed truth value,
   its field offsets and jump targets fit 32 signed bits and its register need is at most 256. The need
   and the number of slots are functions of the tree, and a program uses exactly that many registers
   (`CompilesExactlyWhen`, `ShortProgramsCompileExactlyWhen`, `ChainNeed`). A failing
   compilation reports exactly the first fault of its tree in the order of emission, which is a function of
   types, sizes and the number of live registers (`ReportsFirstFault`). It is a limit, a fault of an
   ill-typed tree, or a broken internal invariant; the last exactly when the first fault is a jump whose
   index does not survive a cast, which takes code of 2^31 slots (`CompileFailure`,
   `InternalErrorExactlyWhen`).
   The status tells the caller why: among trees within the limits and with clean leaves the ill-typed ones are
   the type mismatches (`TypesDecideWithinLimits`), and a tree that only lacks registrations is reported as
   such (`MissingRegistrationsAreReported`).
3. *Verifier exactness and soundness.* The verifier decides a declarative property, both ways
   (`VerifyProgram`, and in terms of opcode numbers `AcceptsExactly`). An accepted program lives in its declared
   registers: no run reads or writes another one (`UndeclaredRegistersDoNotMatter`,
   `UndeclaredRegistersStay`). In every state of every run of an accepted program no check fails and the program
   counter is never on data (`VerifiedRunsSafely`). Every compiled program is accepted and only jumps
   forward (`CompiledIsVerified`).
4. *Serialization is a bijection* between programs and well-formed blobs (`LoadOfSerialized`,
   `SerializedOfLoad`) whose every byte is given by its position (`SerializedExactly`,
   `ParsedExactly`), and both loaders accept the same blobs and build the same program.
5. *The remembered verification is invisible*: every execution, also under any interleaving of threads,
   ends as one that always verifies (`MbpfProgram.Execute`, `AlwaysVerifiedIsExpected`,
   `InterleavingsAgree`). An execution of a compiled program finishes within a number of its own steps that only the program's length determines, whatever
   other threads do, and it gives the truth of the expression (`InterleavedCompiledExecutions`).
6. *Stability*: what compiles keeps its identical program after any further registrations
   (`CompilesTheSameLater`).
7. *Fields*: over all contexts a registered field gives exactly the numbers of its C type, an unsigned
   64-bit one those of the signed range (`FieldHoldsExactly`).
8. *Where the code departs from what one would expect*, exactly:
   - With unsigned 64-bit fields meaning the numbers they hold, every compiled program has its typed meaning
     in a context if and only if the boolean fields that can be loaded hold 0 or 1 and the unsigned 64-bit
     ones hold less than 2^63; with those fields reduced to the signed range, the booleans alone decide
     (`MeaningExactlyInNormalContexts`).
   - A comparison of two integer fields or literals is that of the numbers they stand for if and only if a
     condition on the two numbers and the operator holds (`ComparisonExactlyWhen`). An unsigned field
     holding 2^64 - 1 equals -1 (`AllOnesEqualMinusOne`).
   - The compiler keeps the index of a jump as `int`. For every tree it reports a broken internal invariant
     if and only if the first fault is a jump that this loses (`InternalErrorExactlyWhen`); for well-typed trees
     whose offsets and registers fit, sizes alone decide (`WellTypedLosesJumpExactlyWhen`).
     `HugeTreeReportsInternalError` and `HugeDisjunctionReportsInternalError` are such trees. All of this is
     about a compiler whose `int` wraps around: computing an index overflows, which C++ leaves undefined, in
     every compilation that reaches 2^31 slots (see "Left out").

## Where code and documentation differ

The model follows the code in each case.

- `README.md` and `include/mbpf.h` offer compile options for constant folding, short-circuit optimisation
  and dead-code elimination. `mbpf_compile_expression` ignores its options (src/c_api/mbpf_c_api.cpp:236);
  logical operators are always short-circuited and nothing is folded or removed.
- `README.md` lists no address types. The code has both, with `==` and `!=` only.
- The message for an IPv6 value in a wrong place says that only `==` is supported
  (src/codegen/compiler.cpp:84); `!=` is supported too (src/codegen/compiler.cpp:318-321).

## Model

| member | source | states |
|---|---|---|
| `CompilerTheorems.CompiledComputes` | src/vm/vm.cpp:151-327 | For every tree that compiles and every context, the run from zeroed registers has returned after as many steps as there are slots, with the evaluator's truth and exactly the evaluator's field reads in order. |
| `CompilerTheorems.FragmentCorrect` | src/codegen/compiler.cpp:67-112 | Code of any expression placed after any prefix and before any suffix, run with arbitrary registers, reaches exactly its end slot in at most its length of steps, with the value in its register and all live registers unchanged. |
| `CompilerTheorems.CompilesExactlyWhen` | src/codegen/compiler.cpp:43-59 | Success if and only if the tree is a well-typed truth value, offsets and jump targets fit, and at most 256 registers are needed; the program then uses exactly the registers needed and has exactly the computed number of slots. |
| `CompilerTheorems.ShortProgramsCompileExactlyWhen` | src/codegen/compiler.cpp:525-546 | For programs below 2^31 slots jump targets are no condition of success. |
| `FirstFault.ReportsFirstFault` | src/codegen/compiler.cpp:43-59 | For every tree, compilation reports exactly the first fault of the tree, the coercion of the root included, and succeeds exactly if there is none; so every kind of failure has its exact condition in types, sizes and live registers. |
| `FirstFault.GenFault` | src/codegen/compiler.cpp:67-112 | The same for the emission of any expression at any position from any valid allocator. |
| `FirstFault.ComparisonFault` | src/codegen/compiler.cpp:324-366 | The step for a comparison: types, then the rules for addresses, then the operands, then the registers. |
| `FirstFault.AddressesFault` | src/codegen/compiler.cpp:229-322 | The step for an IPv6 comparison: the left operand's fault, the right one's with two more registers live, then five registers. |
| `FirstFault.LostIsAFault` | src/codegen/compiler.cpp:534-539 | A lost jump is exactly a first fault of patching. |
| `LostJumps.CompileFailure` | src/codegen/compiler.cpp:534-568 | A failure is a limit or a fault of an ill-typed tree, or the patch error exactly for a lost jump and then with code of 2^31 slots or more; a well-typed tree fails only with the code-generation status. |
| `LostJumps.InternalErrorExactlyWhen` | src/codegen/compiler.cpp:495-552 | For every tree, compilation reports one of the three internal errors if and only if the tree's first fault is a jump whose target does not fit and whose own index is negative as `int`, a condition on types, sizes and register needs; the error is then that of patching. |
| `LostJumps.WellTypedLosesJumpExactlyWhen` | src/codegen/compiler.cpp:403-455 | For well-typed trees whose offsets fit and that need at most 256 registers, the patch error is reported if and only if some jump target does not fit and the first such jump's index is negative as `int`; sizes alone decide. |
| `LostJumps.GenLost` | src/codegen/compiler.cpp:67-112 | The same for the emission of any expression at any position from any valid allocator. |
| `LostJumps.ConjunctionLosesItsJumpExactlyWhen` | src/codegen/compiler.cpp:403-428 | The step for one conjunction: with operands that compile and registers enough, it fails if and only if its end is beyond 32 signed bits, with the patch error if and only if also its jump's index is negative after the cast. |
| `LostJumps.OrLost` | src/codegen/compiler.cpp:430-455 | The step for one disjunction, whose first jump is patched before its right operand is emitted. |
| `LostJumps.HugeTreeReportsInternalError` | src/codegen/compiler.cpp:534-539 | A concrete well-typed conjunction of at most 256 registers whose compilation reports the patch error. |
| `LostJumps.HugeDisjunctionReportsInternalError` | src/codegen/compiler.cpp:438-445 | A concrete well-typed disjunction that does so too. |
| `CompilerTheorems.CompiledIsVerified` | src/codegen/compiler.cpp:403-455 | Every compiled program is accepted by the verifier, each of its jumps goes strictly forward, and each load is of a registered field or half of an IPv6 field. |
| `CompilerTheorems.CompiledReadsConfined` | src/vm/vm.cpp:190-197 | Every field read of a run of a compiled program is a registered field's exact range, or one half of an IPv6 field, and ends within 32-bit addresses. |
| `CompilerTheorems.TypeAgreement` | src/codegen/compiler.cpp:133-175 | Whenever an expression is emitted, its emitted type is the one resolved before emission, and it is never IPv6. |
| `CompilerTheorems.ChainNeed` | src/frontend/expression_parser.y:61-64 | A left-deep conjunction of any length needs the larger of its first operand's registers and one more than the largest need among the others. |
| `CompilerTheorems.ChainNeedAtMost` | src/codegen/compiler.cpp:476-510 | The need of a conjunction is bounded by its operands' needs, whatever the length. |
| `CompilerTheorems.GenErrors` | src/codegen/compiler.cpp:67-112 | From any position and valid allocator, a failing expression reports a limit, a fault and then it is ill-typed, or the patch error and then its code would end beyond 32 signed bits. |
| `Conditions.GenShape` | src/codegen/compiler.cpp:67-112 | From any valid allocator state, an expression succeeds exactly under its conditions and the register limit, adds exactly one live register, raises the high-water mark to exactly its need, and has the computed type and length. |
| `Conditions.GenBoolShape` | src/codegen/compiler.cpp:457-474 | The same for an expression coerced to a truth value; the coercion of an integer needs three registers. |
| `Conditions.AndShape` | src/codegen/compiler.cpp:403-428 | Exact success, need and length of a conjunction from those of its operands. |
| `Conditions.OrShape` | src/codegen/compiler.cpp:430-455 | Exact success, need and length of a disjunction from those of its operands. |
| `Conditions.NotShape` | src/codegen/compiler.cpp:390-401 | Exact success, need and length of a negation. |
| `Conditions.BitsShape` | src/codegen/compiler.cpp:368-388 | Bitwise operators succeed exactly on two integer operands within the register limit. |
| `Conditions.CompareShape` | src/codegen/compiler.cpp:324-366 | A comparison succeeds exactly on operands of compatible types, addresses only under equality operators, with four registers when one operand is coerced. |
| `Conditions.Ipv6CompareShape` | src/codegen/compiler.cpp:291-322 | An IPv6 comparison succeeds exactly on direct fields or literals whose offsets fit, and needs five registers. |
| `Allocator.TakeAddsOne` | src/codegen/compiler.cpp:476-493 | A register can be taken exactly when fewer than 256 are live; the new one was not live, nothing else changes, and the high-water mark rises exactly to the live count. |
| `Allocator.GiveRemovesOne` | src/codegen/compiler.cpp:495-510 | Releasing a live register keeps the released stack duplicate-free and removes exactly that register. |
| `Allocator.FreeBound` | src/codegen/compiler.cpp:476-510 | Released registers are distinct, so no more than were handed out. |
| `CompilerState.Compiler.constructor` | src/codegen/compiler.cpp:593-600 | A new compiler holds no register, no slot and no failure. |
| `CompilerState.Compiler.Fail` | src/codegen/compiler.cpp:559-568 | Only the first failure is kept. |
| `CompilerState.Compiler.AllocReg` | src/codegen/compiler.cpp:476-493 | Takes the register released last off the stack, or else the next fresh one, or fails at 256; the bitset and the stack stay in agreement. |
| `CompilerState.Compiler.ReleaseReg` | src/codegen/compiler.cpp:495-510 | Releasing a live register succeeds and keeps the invariant; releasing any other reports the matching internal error. |
| `CompilerState.Compiler.Emit` | src/codegen/compiler.cpp:512-532 | Appends one slot, or two for LoadImm, and answers the first one's index, cast to `int`; does nothing after a failure and fails on payloads beyond 32 bits. |
| `CompilerState.Compiler.PatchJump` | src/codegen/compiler.cpp:534-552 | Changes only the target of one earlier slot; fails on a bad index or target. |
| `CompilerState.Compiler.ResolveExprType` | src/codegen/compiler.cpp:133-175 | Resolves the type before emission, or fails for a null node or an unknown name. |
| `CompilerState.Compiler.EmitLoadFieldReg` | src/codegen/compiler.cpp:177-186 | Leaves the allocator and slots of one load, or its failure. |
| `CompilerState.Compiler.EmitIdentifier` | src/codegen/compiler.cpp:188-205 | A load of the registered offset, size and signedness, or the failure for an unknown or IPv6 field. |
| `CompilerState.Compiler.EmitImmediate` | src/codegen/compiler.cpp:207-216 | A two-slot immediate in a new register. |
| `CompilerState.Compiler.EmitIpv4` | src/codegen/compiler.cpp:218-227 | The four bytes as an immediate, or a parse error. |
| `CompilerState.Compiler.EmitIpv6Literal` | src/codegen/compiler.cpp:229-245 | The two halves of a literal in two registers, high half first. |
| `CompilerState.Compiler.EmitIpv6Identifier` | src/codegen/compiler.cpp:247-262 | The loads at the offset and at the offset plus 8, which wraps at 2^32. |
| `CompilerState.Compiler.EmitIpv6Operand` | src/codegen/compiler.cpp:264-280 | Only fields and literals are IPv6 operands. |
| `CompilerState.Compiler.EmitBinary` | src/codegen/compiler.cpp:282-289 | One instruction into a new register; the left operand is released after it and then the right one. |
| `CompilerState.Compiler.EmitNegation` | src/codegen/compiler.cpp:397-400 | One negation into a new register; the operand is released after it. |
| `CompilerState.Compiler.EmitEnsureBool` | src/codegen/compiler.cpp:457-474 | A boolean is left alone, an integer is compared with 0, anything else fails. |
| `CompilerState.Compiler.EmitIpv6Compare` | src/codegen/compiler.cpp:291-322 | Two comparisons of halves, their conjunction, and for `!=` its negation. |
| `CompilerState.Compiler.EmitExpr` | src/codegen/compiler.cpp:67-112 | From any state, the stateful emission of a whole tree leaves exactly the slots, register, type and allocator of the compositional definition, or exactly its first failure. |
| `CompilerState.Compiler.EmitNot` | src/codegen/compiler.cpp:390-401 | The operand as a truth value, negated. |
| `CompilerState.Compiler.EmitBitwise` | src/codegen/compiler.cpp:368-388 | Both operands are emitted before their types are checked. |
| `CompilerState.Compiler.EmitCompare` | src/codegen/compiler.cpp:324-366 | Types are resolved and address rules checked before anything is emitted; a boolean against an integer coerces the integer side. |
| `CompilerState.Compiler.EmitCompareTail` | src/codegen/compiler.cpp:350-366 | The coercion and the comparison from the operands' emitted types. |
| `CompilerState.Compiler.EmitLogicalAnd` | src/codegen/compiler.cpp:403-428 | Both patched jumps get the targets that the lengths of the parts determine. |
| `CompilerState.Compiler.EmitLogicalOr` | src/codegen/compiler.cpp:430-455 | The first jump is patched before the right operand is emitted, the second after it, with the targets that the lengths determine. |
| `CompilerState.PatchAnd` | src/codegen/compiler.cpp:421-425 | Patching two placeholders around the appended load gives the slots emitted with final targets. |
| `CompilerState.Compiler.Compile` | src/codegen/compiler.cpp:43-59 | The whole program with Ret and its register count, or the first failure. |
| `CompilerState.CompileAstToProgram` | src/codegen/compiler.cpp:582-603 | Refuses a null root. Otherwise it answers the program, or the status by the kind of the tree's first fault: qualifier not found exactly for an unknown name, parse error exactly for a literal that is no address, type mismatch exactly for the listed typing faults, code-generation error exactly for null nodes, limits and lost jumps. |
| `FirstFault.StatusAnswersFault` | src/codegen/compiler.cpp:554-568 | The same of the status as a function of the tree. |
| `FirstFault.FirstFaultMeans` | src/codegen/compiler.cpp:67-112 | The first fault names something the tree has: an unknown name, a bad literal or a null node among its leaves; a typing fault means an ill-typed tree. |
| `Diagnosis.TypesDecideWithinLimits` | src/codegen/compiler.cpp:324-493 | A tree within the limits, with known names, good literals and no null node, compiles if it is a well-typed truth value and is a type mismatch otherwise. |
| `Diagnosis.StatusMeans` | src/codegen/compiler.cpp:67-112 | Qualifier not found and parse error are answered only for trees that have such a leaf, type mismatch only for ill-typed trees. |
| `Diagnosis.CodegenErrorMeans` | src/codegen/compiler.cpp:483-548 | The code-generation status means a null node or a limit that is exceeded. |
| `Diagnosis.RepairableTreesBlameALeaf` | src/codegen/compiler.cpp:133-280 | A tree that fails but compiles once its names are registered, its literals corrected and its null nodes filled reports one of these, and has it among its leaves. |
| `Diagnosis.MissingRegistrationsAreReported` | src/codegen/compiler.cpp:141-147 | A tree that compiles after further registrations but not before fails with qualifier not found. |
| `Correctness.GenRuns` | src/codegen/compiler.cpp:67-112 | Fragment correctness by induction on the tree, for every kind of expression. |
| `Correctness.AndRuns` | src/codegen/compiler.cpp:403-428 | `&&` gives 0 without touching its right operand when the left one is 0, and else the right one's truth value. |
| `Correctness.OrRuns` | src/codegen/compiler.cpp:430-455 | `\|\|` gives 1 without touching its right operand when the left one is not 0, and else the right one's truth value. |
| `Correctness.NotRuns` | src/codegen/compiler.cpp:390-401 | `!` gives 1 for a zero truth value and 0 otherwise. |
| `Correctness.BitsRuns` | src/codegen/compiler.cpp:368-388 | The bitwise operators compute `&` and `\|` of the operands' values. |
| `Correctness.EnsureBoolRuns` | src/codegen/compiler.cpp:457-474 | The coercion computes whether an integer is not 0 and leaves booleans as they are. |
| `Correctness.PlainCompareRuns` | src/codegen/compiler.cpp:350-366 | A comparison computes the signed 64-bit comparison of its operands after coercion of the integer side. |
| `Correctness.Ipv6CompareRuns` | src/codegen/compiler.cpp:291-322 | An IPv6 comparison decides equality of the two 16-byte values, for fields and literals in any combination. |
| `Correctness.HalvesDecideEquality` | src/codegen/compiler.cpp:237-240 | Two 16-byte values are equal exactly when both 8-byte words are. |
| `Correctness.Ipv6IdentParts` | src/codegen/compiler.cpp:260-261 | The second half's offset never wraps for a registered field. |
| `Semantics.LoadsFieldValue` | src/vm/vm.cpp:190-197 | A load gives the field's two's-complement or unsigned number; only an unsigned 64-bit number is reduced modulo 2^64 to the signed range. |
| `Semantics.SignExtendsBytes` | src/vm/vm.cpp:20-34 | Sign extension gives the two's-complement number of the bytes for every size. |
| `Semantics.Ipv4CompareDecidesEquality` | src/codegen/compiler.cpp:218-227 | IPv4 `==` and `!=` decide equality of the four bytes, for fields and literals. |
| `Semantics.EvalReadsConfined` | src/codegen/compiler.cpp:177-205 | Evaluation reads only registered fields, each exactly or an IPv6 half. |
| `TypedSemantics.NormalContextAgrees` | src/codegen/compiler.cpp:457-474 | In a normal context every boolean subexpression is 0 or 1 and the 64-bit evaluation is the typed one. With unsigned 64-bit fields read as reduced, normal asks only that boolean fields hold 0 or 1; with them read as the numbers they hold, also that those are below 2^63. |
| `TypedSemantics.MeaningExactlyInNormalContexts` | src/codegen/compiler.cpp:356-365 | For either reading of unsigned 64-bit fields, all compiled programs have their typed meaning in a context if and only if the context is normal. |
| `TypedSemantics.OddBooleanDiffers` | src/codegen/compiler.cpp:282-289 | A boolean field holding another byte is true but not equal to `true`. |
| `TypedSemantics.LargeUnsignedDiffers` | src/vm/vm.cpp:195 | An unsigned 64-bit field of 2^63 or more fails the test of being at least 0. |
| `TypedSemantics.ComparisonExactlyWhen` | src/vm/vm.cpp:229-252 | A compiled comparison of any integer fields or literals returns the comparison of the numbers they stand for if and only if both are on the same side of 2^63, or the operator and their distance from each other, against 2^64, make the wrapped comparison agree. |
| `TypedSemantics.UnsignedComparisonExactlyWhen` | src/vm/vm.cpp:229-252 | For two unsigned 64-bit fields the condition is that the operator is an equality or the numbers are on the same side of 2^63. |
| `TypedSemantics.LargestUnsignedEqualsMinusOne` | src/vm/vm.cpp:195 | An unsigned 64-bit field holding 2^64 - 1 compares equal to -1, under any registry and in any context. |
| `TypedSemantics.AllOnesEqualMinusOne` | src/vm/vm.cpp:195 | A concrete registry and context where this happens. |
| `TypedSemantics.RegisterBits` | src/vm/vm.cpp:269-288 | On numbers that fit a register `&` and `\|` are those of unbounded integers. |
| `Stability.CompilesTheSameLater` | src/codegen/compiler.cpp:188-205 | A tree that compiles gives the identical program after any sequence of further registrations. |
| `Verifier.VerifyProgram` | src/vm/vm.cpp:47-149 | Accepts exactly the non-empty programs of at most 256 registers whose walk from slot 0 lands on the end with every instruction valid and every jump on the walk or at the end; `Confinement.AcceptsExactly` says what valid means. |
| `Confinement.AcceptsExactly` | src/vm/vm.cpp:47-149 | The accepted programs by opcode numbers: every operand register below the register count, load sizes 1, 2, 4 or 8, sign flag 0 or 1, and jumps to a start or the end. |
| `Confinement.WalkExactly` | src/vm/vm.cpp:62-139 | The walk: an instruction with opcode 1 takes two slots, every other one. |
| `Confinement.StepByNumber` | src/vm/vm.cpp:181-323 | One step of the machine for each opcode number from 0 to 14; an instruction that breaks an operand rule faults. |
| `Confinement.RunsBeginAtZero` | src/vm/vm.cpp:176-177 | A run begins at slot 0 with every register 0. |
| `Confinement.UndeclaredRegistersDoNotMatter` | src/vm/vm.cpp:175-323 | Two runs of an accepted program from register files that agree on the declared registers stay at the same slot with the same reads, end with the same result and agree there throughout. |
| `Confinement.UndeclaredRegistersStay` | src/vm/vm.cpp:175-323 | A run of an accepted program never changes a register at or above the register count. |
| `Verifier.Sweep` | src/vm/vm.cpp:58-139 | The table holds exactly the instruction starts and the list exactly the jump targets; refusal implies the program is not acceptable. |
| `Verifier.VerifyInstruction` | src/vm/vm.cpp:67-138 | The verifier's own checks, opcode by opcode, pass exactly the instructions that pass the machine's run-time checks, with the right length and jump target. |
| `Verifier.DataIsNoStart` | src/vm/vm.cpp:78-84 | The data slot of a LoadImm is never the start of an instruction, whatever it holds. |
| `Verifier.VerifiedRunsSafely` | src/vm/vm.cpp:181-323 | After any number of steps of an accepted program, no run-time check has failed and the program counter is at an instruction start or the end. |
| `Verifier.VerifiedOutcome` | src/vm/vm.cpp:325-326 | A run of an accepted program can fail only by leaving the program without Ret. |
| `Verifier.ExecuteProgram` | src/vm/vm.cpp:346-363 | Verifies first; refused programs do not run. |
| `Vm.ExecuteValue` | src/vm/vm.cpp:209-288 | The in-place effect of the register instructions is the machine's step. |
| `Vm.ExecuteOther` | src/vm/vm.cpp:184-208 | The in-place effect of loads, jumps and Ret is the machine's step, and the read is recorded. |
| `Vm.Execute` | src/vm/vm.cpp:151-327 | The loop over the register array computes the state after the given number of steps and its status. |
| `Vm.HaltedStays` | src/vm/vm.cpp:181-326 | The outcome of a halted run does not depend on how long it is observed. |
| `Words.BitsOfAndOr` | src/vm/vm.cpp:269-288 | Every bit, and the sign, of `&` and `\|` is the conjunction and the disjunction of the operands' bits. |
| `Words.BitHasWeight` | src/vm/vm.cpp:269-288 | Bit k is the parity of the number divided by 2^k, rounded down. |
| `Words.FitsExactlyIfKept` | src/codegen/bytecode.hpp:118-122 | A number fits 32 signed bits exactly if the cast to 32 bits and back keeps it. |
| `Words.SignedLEValue` | src/vm/vm.cpp:20-34 | The signed reading of a word differs from the unsigned one exactly by the weight of the sign bit. |
| `Bytecode.FromBitsOfBits` | src/codegen/bytecode.hpp:55-83 | The accessors give back the fields an instruction was packed from, and the word holds them at the documented positions: opcode lowest, then a, b and c, then the payload. |
| `Bytecode.BitsOfFromBits` | src/codegen/bytecode.hpp:103-108 | Packing the fields of any 64-bit word gives back the word; the fields are its digits in that order. |
| `Bytecode.AuxRoundTrip` | src/codegen/bytecode.hpp:50-53 | A payload of 32 signed bits survives the cast to unsigned and back. |
| `Bytecode.WideDataRoundTrip` | src/codegen/bytecode.hpp:85-100 | The data slot gives back every 64-bit immediate. |
| `Registry.QualifierRegistry.RegisterQualifier` | src/registry/qualifier_registry.cpp:9-37 | Succeeds exactly for a new non-empty name with the bytes its type takes, ending within 32-bit addresses; answers duplicate exactly for a name already there and invalid otherwise, changing nothing. |
| `FieldRanges.FieldHoldsExactly` | src/registry/qualifier_registry.cpp:60-82 | Over all contexts, the numbers a valid field gives are exactly those of its C type, with literal bounds; an unsigned 64-bit number is kept in the signed range. |
| `FieldRanges.AsManyNumbersAsBytes` | src/registry/qualifier_registry.cpp:60-82 | A type has exactly one number for each value of its bytes. |
| `FieldRanges.NumberDeterminesBytes` | src/vm/vm.cpp:20-34 | Different bytes of a field are different numbers. |
| `Registry.QualifierRegistry.Find` | src/registry/qualifier_registry.cpp:39-47 | Answers the first valid one among all registrations of the name ever offered to the registry, however many followed, and nothing if there was none. |
| `Registry.LookupAfterRegistrations` | src/registry/qualifier_registry.cpp:16-22 | After any registrations a lookup gives the earlier entry, or else the first valid registration of the name. |
| `Registry.RegistrationsKeepWellFormed` | src/registry/qualifier_registry.cpp:24-32 | Every reachable registry has only valid entries. |
| `Registry.RegistrationsExtend` | src/registry/qualifier_registry.cpp:34-36 | No registration changes or removes an entry. |
| `Serialization.SerializedExactly` | src/c_api/mbpf_c_api.cpp:360-371 | A blob is the serialization of a program if and only if its bytes are, by position, "MBPF", version 1, the register count, the slot count, and for each slot the opcode, a, b, c and the payload, low bytes first. |
| `Serialization.ParsedExactly` | src/c_api/mbpf_c_api.cpp:91-173 | A blob loads as a program if and only if it is laid out for it in this way. |
| `Serialization.SlotBytesLaidOut` | src/codegen/bytecode.hpp:103-108 | The eight bytes of a slot. |
| `Serialization.LoadOfSerialized` | src/c_api/mbpf_c_api.cpp:360-371 | Loading a serialized program gives the same registers and slots, and is accepted exactly when the verifier accepts the program. |
| `Serialization.SerializedOfLoad` | src/c_api/mbpf_c_api.cpp:91-149 | Serializing a loaded blob gives the blob back byte for byte. |
| `Serialization.WriteU32Le` | src/c_api/mbpf_c_api.cpp:36-42 | Appends the four bytes of a word, least significant first. |
| `Serialization.WriteU64Le` | src/c_api/mbpf_c_api.cpp:44-49 | Appends the eight bytes of a word, least significant first. |
| `Serialization.ReadU32Le` | src/c_api/mbpf_c_api.cpp:51-67 | Succeeds exactly when four bytes are left, with their word and the moved offset. |
| `Serialization.ReadU64Le` | src/c_api/mbpf_c_api.cpp:69-89 | Succeeds exactly when eight bytes are left, with their word and the moved offset. |
| `Serialization.ParseSerializedProgramHeader` | src/c_api/mbpf_c_api.cpp:91-149 | Accepts exactly the right magic, version, register range and total size. |
| `Serialization.LoadSerializedInstructions` | src/c_api/mbpf_c_api.cpp:151-173 | Fills the array with the words after the header. |
| `Serialization.SerializeProgram` | src/c_api/mbpf_c_api.cpp:360-371 | Writes the header and every slot in order, each byte at its position. |
| `Api.MbpfProgram.Execute` | src/c_api/mbpf_c_api.cpp:288-324 | Whatever the flag: invalid argument for a negative register count, the verification error for a program the verifier refuses, and otherwise the run's outcome; the flag is set only for accepted programs and never cleared. |
| `Api.AlwaysVerifiedIsExpected` | src/c_api/mbpf_c_api.cpp:301-316 | That outcome is the one of the execution that verifies first, and once ended one that the specification of concurrent executions allows. |
| `Api.MbpfProgram.Serialize` | src/c_api/mbpf_c_api.cpp:326-380 | Answers the required size, and the blob, laid out byte by byte, exactly when the buffer is large enough. |
| `Api.MbpfProgram.Free` | src/c_api/mbpf_c_api.cpp:519-542 | A program in caller memory becomes empty and unverified. |
| `Api.MbpfProgram.Load` | src/c_api/mbpf_c_api.cpp:415-425 | Stores the parsed program and remembers acceptance exactly when the verifier accepts it. |
| `Api.ProgramDeserialize` | src/c_api/mbpf_c_api.cpp:382-436 | Gives a verified program exactly for acceptable blobs. |
| `Api.ProgramDeserializeToMemory` | src/c_api/mbpf_c_api.cpp:438-517 | Given enough memory, accepts exactly the blobs the other loader accepts and builds the same program; too little memory is left untouched, and whatever enough memory held before is overwritten. |
| `Api.CompileExpression` | src/c_api/mbpf_c_api.cpp:248-278 | A fresh, self-owning, not yet verified program object holding the compiled program, or the status by the kind of the tree's first fault. |
| `Api.CompiledExecution` | src/c_api/mbpf_c_api.cpp:312-316 | Executing a compiled program always succeeds with the truth of the expression. |
| `Api.CompiledSurvivesSerialization` | src/c_api/mbpf_c_api.cpp:382-436 | Every compiled program is accepted again after serialization, unchanged. |
| `Races.InvAlways` | src/c_api/mbpf_c_api.cpp:301-316 | In every state of every interleaving of any number of threads, the flag and each thread's phase satisfy the invariant. |
| `Races.InterleavingsAgree` | src/c_api/mbpf_c_api.cpp:301-316 | In every interleaving a set flag means an accepted program, and every finished execution ended as one that always verifies. |
| `Races.InterleavingsNeverFault` | src/c_api/mbpf_c_api.cpp:312-316 | In no interleaving does skipping the verifier let a run-time check fail. |
| `Races.TurnsAreProgress` | src/c_api/mbpf_c_api.cpp:288-324 | Each turn of a thread brings its execution one step further; other threads can neither delay it nor set it back. |
| `Races.InterleavedCompiledExecutions` | src/c_api/mbpf_c_api.cpp:288-324 | In any interleaving, each thread in its own context: an execution of a compiled program has finished after five turns more than the program has slots, and a finished one succeeded with the truth of the expression in its context. |

## Left out

- The lexer, the parser and `inet_pton`: trees are given, and an address literal holds its bytes or the fact that its text is no address.
- Error texts and `set_last_error`: failures are kept as kinds and status codes.
- Null-pointer arguments other than a null root and null children.
- `Vm.Execute`: takes a bound on the number of instructions, because a loop that may run forever cannot be a Dafny method here; the answer `StillRunning` is not one of the program's. The theorems about `Steps` cover runs of every length, and compiled programs need no more steps than they have slots.
- `Verifier.ExecuteProgram`: takes the same bound.
- `Api.MbpfProgram.Execute`: takes the same bound.
- `CompilerState.Compiler.Emit`: the index is computed by a subtraction after the cast to `int` (src/codegen/compiler.cpp:522, 531). It overflows at 2^31 slots, and after a LoadImm also at 2^31 + 1. Slots are added one or two at a time, so every compilation that reaches 2^31 slots passes through this overflow, which C++ leaves undefined; here `int` wraps around, and everything in `LostJumps` about such code is said of a compiler that wraps.
- `CompilerState.CompileAstToProgram`: does not say what a failed compilation leaves in the output program.
- The compiler's flag, status and message are one field, the first failure.
- The bounds of the caller's context: the machine is given no length, so a context has a byte at every address.
- Big-endian hosts and a 32-bit `size_t`.
- `Api.MbpfProgram.Free`: does not model the deletion of a program that owns itself, nor ownership of the instruction array.
- `Races.InterleavingsAgree`: interleaves the atomic operations in one order; weaker memory orders, and freeing or reloading a program while it runs, are not part of this model.
- The Boost tree behind the registry, which is a map here.
- Type codes outside the enumeration: a code with size 0 would pass registration and its loads would fail verification.
- The bitwise combination of bytes in the readers is written as a sum, which is the same for disjoint bits.
