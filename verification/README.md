# Verification model of the Titan X6 toolchain

Titan X6 is a GPU project: a compiler for small Python kernels, a functional model of the
device, its driver and runtime, and bit-exact reference models for the arithmetic and ray
tracing units. This directory models the logic of those parts in Dafny 4.11 and proves what
they promise each other. `dafny verify dfyconfig.toml` checks everything.

## Parts

- **Compiler and machine.** `Kernel` gives the kernel language its meaning: 32-bit wrapping
  integers, `//` and `%` truncating as C does, and Python's `range`. `Codegen` says what the
  scalar backend emits and `ScalarBackend` is that backend as a class with its free list,
  labels and fixups. `Preservation` proves that compiled kernels compute what they mean on the
  machine of `Machine`, which `Simulator` runs in place. `GpuThread` is the same machine as
  the C model has it, `Agreement` proves that the two interpreters agree, and `IsaLaws` says
  what the integer instructions mean.
  `TensorProof`, `MatmulMeaning` and `TensorEquivalence` do the same for the tensor backend,
  with `TensorThread` for its thread on the device; `CodeIntact` is about programs that keep
  their own code. `ScopeLimits`, `ScopeCases`, `RegisterReuse` and `TensorLimits` hold the
  inputs for which a backend is wrong. `Acceptance`, `CodeSize`, `TensorForms` and
  `MatmulCompiles` say which kernels compile, `Meanings` what the constructs of the language
  mean, and `LaunchThreads` what the threads of a dispatch find in their registers.
- **Exact arithmetic.** `Float` is the IEEE-754 reference model for any binary format.
  `FloatRounding` proves correct rounding against real numbers, `FloatArithmetic` the three
  operations and the fused identities, `HalfMultiply` the agreement of the second FP16
  multiplier, `FloatSpecials` the NaN, infinity and invalid-flag cases, `FloatWords` the
  result words, `FloatUnderflow` the exact meaning of the underflow flag, `FloatQuotient` the
  division of `simulate`, and `Reciprocal` the error of the fixed-point Newton-Raphson
  reciprocal.
- **Ray tracing.** `RayTriangle` is the fixed-point arithmetic, `RayGeometry` what it is
  for, `RayError` how far truncation takes it from that, and `TriangleHits` when a hit is
  reported. `BvhTree`, `BvhShape`, `BvhBuilder`, `BvhTraversal` and `BvhOrder`: the tree,
  the builder that stores it and the bounded-stack walk, against a search of all triangles;
  `BvhExact` gives one condition that suffices for the walk to find
  the closest hit and one that is necessary, which coincide when boxes are entered in time.
- **Crossbar.** `CrossbarModel` is one clock edge of `titan_x5_crossbar` with one slave;
  `CrossbarWires` says what its wires carry and `CrossbarSafety` holds the properties of its
  runs.
- **Driver stack.** `VramTable` and `DriverDevice` (allocator, buffer objects, submission),
  `CommandRing` and `GpuDevice` (packets and command processor), `FenceOrder`, `Runtime`
  with `RuntimeCopies`, and `FullStack` and `TensorLaunch`, which run the programs of the two
  backends through all of them.

## Conditions and findings

- *Scalar preservation* holds for kernels that pass `Kernel.WellScoped` and whose run stays
  in the subset (indices non-negative and in bounds, no counter past 2^31 - 1). Kernels
  outside it may be compiled without complaint, and be wrong; every clause has its input.
  `ScopeLimits`: a loop variable read after its loop holds the bound, not the last value of
  the range. `ScopeCases`: an assignment to the variable of an enclosing loop changes the
  number of turns, a stop bound that mentions its own loop variable is read too late, and a
  counter passing 2^31 - 1 wraps and never stops. `RegisterReuse`: a name first assigned
  inside a loop shares its register with temporaries that come earlier in the text, and
  loses its value when a later turn of an enclosing loop skips the assignment, although
  Python finds it bound at every read.
- *A for/else* is refused by the scalar backend, but `_match_range1`
  (compiler/titan_compiler.py:485-493) does not look at the else clause, so the tensor
  backend compiles a matmul with one and drops it. `TensorLimits.ElseClauseDropped` is the
  input, and `MatmulMeaning.MatmulExactly` the exact condition.
- *On the device* a compiled kernel computes what it means provided its stores stay off its
  own code, which is a condition on the meaning of the kernel; the tensor program stores into
  C only, so there the condition is that C lies in a buffer. The number of instructions of
  the tensor program is known, and so is when the watchdog stops it.
- *The underflow flag* (tb/uvm/fp_ref.py:12-13 calls it after-rounding tininess) looks at the
  delivered magnitude, which the smallest normal number can be although rounding with an
  unbounded exponent range stays below it. `FloatUnderflow` says exactly when this differs
  from section 7.5 of IEEE 754-2008, with two factors for which it does.
- The comment `b > 0 in kernel code` on the remainder (compiler/titan_compiler.py:322) is not
  needed: the lowering is exact for every divisor, 0 included, when `//` by 0 means -1.
- *Round-robin* (bin/rewrite_crossbar.py:60-75): the pointer also moves in cycles in which the
  FIFO has no space, so bounded waiting holds only when advances are made with space;
  `CrossbarSafety.StarvationReachable` is the counterexample run without that proviso.
- *Responses* that nobody waits for (bin/rewrite_crossbar.py:128-160): the FIFO count is
  decreased without a look at it. `CrossbarWires.ConservesExactly` says that requests are
  conserved exactly when this does not happen; from reset one such response blocks the slave.
- *Triangle test* (tb/uvm/rt_ref.py:94-99): the sign is turned modulo 2^32, so a numerator of
  -2^31 stays negative and the hit is lost (`TriangleHits.ExtremeMissed`).
- *Box test* (tb/uvm/rt_ref.py:131-143): slab products wrap, so a node can be rejected although
  a triangle in it is hit. `BvhTraversal.Conservative` is a condition under which pruning
  is harmless; `BvhExact` narrows it to the boxes above one nearest triangle, and shows that
  their accepting the ray is necessary as well. `BvhLimits` has a concrete miss.
- *Fences* read as done for exactly 2^31 - 1 later submissions.
- *Device-to-device copies* are not checked against the allocation map
  (driver/titan_runtime.cpp:190-204). `RuntimeCopies` has a copy over the end of a buffer
  that reports success and changes the next buffer, and proves that a copy is confined to
  the buffer it is aimed at exactly when its destination range meets no other.

## Model

| member | source | states |
|---|---|---|
| `Isa.EncodeIsSum` | driver/titan_x6_isa.h:138-150 | for in-range fields the shifted-and-or-ed encodings are sums of disjoint fields |
| `Isa.DecodeEncode` | compiler/titan_compiler.py:82-103 | the field extractors recover exactly the instruction that was encoded, in both forms |
| `Isa.PatchBranch` | compiler/titan_compiler.py:194-202 | or-ing a 12-bit target into a branch emitted with immediate 0 encodes the branch to that target |
| `Assembler.Assembler.Emit` | compiler/titan_compiler.py:159-163 | appends one word, the encoding of the instruction |
| `Assembler.Assembler.Branch` | compiler/titan_compiler.py:165-167 | appends a branch to a label and records it for linking |
| `Assembler.Assembler.Bind` | compiler/titan_compiler.py:156-157 | binds a label to the current instruction index and no other |
| `Assembler.Assembler.Here` | compiler/titan_compiler.py:148-151 | a new label bound to the current instruction index |
| `Assembler.Assembler.Finalize` | compiler/titan_compiler.py:194-202 | succeeds exactly when every branch target is bound and fits 12 bits; then every word encodes its instruction with the targets resolved |
| `Allocation.ExprAllocation` | compiler/titan_compiler.py:253-347 | lowering an expression keeps the free list duplicate-free, inside r2..r57 and disjoint from homes and from the register holding the result |
| `Allocation.StmtAllocation` | compiler/titan_compiler.py:350-454 | the same at the end of every statement, loops included; homes never move |
| `Allocation.BoundHeldDuringBody` | compiler/titan_compiler.py:436-454 | while the body of a loop is compiled, the register holding its bound stays out of the free list and is the home of nothing |
| `ExprPreservation.LoadConstCorrect` | compiler/titan_compiler.py:172-185 | the emitted sequence leaves the constant modulo 2^32 in its register in all three forms and touches nothing else |
| `ExprPreservation.ExprCorrect` | compiler/titan_compiler.py:268-332 | running the code of an expression leaves its value in the result register and keeps all homes and live temporaries |
| `ExprPreservation.OffsetCorrect` | compiler/titan_compiler.py:334-347 | the code of a subscript leaves the byte offset of the element |
| `Preservation.StmtCorrect` | compiler/titan_compiler.py:350-405 | running the code of a well-scoped statement from a state that holds the environment ends in one that holds the resulting environment and memory, or exits on return |
| `Preservation.ForCorrect` | compiler/titan_compiler.py:407-454 | the lowering of `for` (assign start, evaluate stop, count while below) has the meaning of a loop over `range` under the scope discipline |
| `Preservation.CompilationPreservesMeaning` | compiler/titan_compiler.py:237-464 | every well-scoped kernel whose run stays in the subset: the compiled code, started with the parameter block, exits with the memory the kernel computes |
| `Preservation.CompilationPreservesRegion` | compiler/titan_compiler.py:237-464 | the same, and a region of memory that no store of the kernel touches is held at every step on the way |
| `Meanings.ArithmeticDefined` | compiler/titan_compiler.py:27-32 | an expression without array reads has a value exactly when it is supported and its names are bound |
| `Meanings.ElementDefined` | compiler/titan_compiler.py:334-347 | an array element has a value exactly when its index is in bounds, and then it is the word there |
| `Meanings.AssignmentMeanings` | compiler/titan_compiler.py:359-378 | an assignment binds the name or stores the word, and changes nothing else |
| `Meanings.AugmentedAssignments` | compiler/titan_compiler.py:380-393 | an augmented assignment means and compiles to the assignment of the operation to its target, for names and for elements |
| `Meanings.LegalRanges` | compiler/titan_compiler.py:415-429 | the legal calls of range, their defaults, and no others |
| `Meanings.CountingLoop` | compiler/titan_compiler.py:407-454 | an empty loop leaves its variable at the last value of the range, and alone when the range is empty |
| `Meanings.LoopFreeScope` | compiler/titan_compiler.py:277-281 | code without loops passes the scope check exactly when every name is bound before it is read |
| `ScopeLimits.LoopVariableAfterLoopDiffers` | compiler/titan_compiler.py:429-454 | the discipline is needed: for every positive bound, a kernel reading its loop variable after the loop is compiled to code that leaves another memory than Python |
| `ScopeCases.OwnBoundDiffers` | compiler/titan_compiler.py:426-440 | a stop bound that mentions its own variable: for every positive value Python runs the body and the compiled code does not |
| `ScopeCases.AssignedDiffers` | compiler/titan_compiler.py:407-454 | an assignment to the variable of an enclosing loop: Python stores twice, the compiled code leaves the loop after the first turn |
| `ScopeCases.CounterNeverStops` | compiler/titan_compiler.py:442-454 | a counter passing 2^31 - 1: the range of Python ends, the compiled program runs for ever |
| `RegisterReuse.ValueOverwritten` | compiler/titan_compiler.py:253-265 | a name first assigned inside a loop: in a kernel whose second outer turn skips the assignment, a temporary overwrites the register of the variable, and the compiled code leaves 1 where Python leaves 7 |
| `ScalarBackend.ScalarCodegen.Take` | compiler/titan_compiler.py:253-256 | pops the front of the free list; fails exactly when it is empty |
| `ScalarBackend.ScalarCodegen.Release` | compiler/titan_compiler.py:258-260 | returns a pool register to the front unless it is the home of a name |
| `ScalarBackend.ScalarCodegen.VarReg` | compiler/titan_compiler.py:262-265 | the home of a name, allocated at its first mention |
| `ScalarBackend.ScalarCodegen.GenExpr` | compiler/titan_compiler.py:268-300 | emits exactly the specified code for an expression, delivers the specified register, fails exactly when that code does not exist, which Acceptance.ExprAccepted decides from the tree |
| `ScalarBackend.ScalarCodegen.GenBinop` | compiler/titan_compiler.py:302-332 | the same for binary operators: immediate form, register form and the expansion of the remainder |
| `ScalarBackend.ScalarCodegen.GenStmt` | compiler/titan_compiler.py:350-405 | the same for statements, with the allocator state they leave |
| `ScalarBackend.ScalarCodegen.GenFor` | compiler/titan_compiler.py:407-454 | the same for loops; branches go to labels made for this loop only |
| `ScalarBackend.ScalarCodegen.Compile` | compiler/titan_compiler.py:456-464 | the words are the encoding of the code that the preservation theorem is about; failure exactly when there is none, which CodeSize.CompilesExactly decides from the text |
| `Acceptance.ExprAccepted` | compiler/titan_compiler.py:268-347 | an expression compiles exactly when its nodes are supported, its names have homes and the free registers cover a need computed on the tree; it takes one register, or none for a name |
| `Acceptance.BlockAccepted` | compiler/titan_compiler.py:350-454 | statements compile exactly when every expression fits the registers left by the names mentioned before it and the bounds of the loops around it, ranges are legal with a step of 12 bits and no loop has an else clause |
| `CodeSize.BlockLengthOf` | compiler/titan_compiler.py:172-454 | the length of the code of a block, from the tree alone |
| `CodeSize.BlockProgram` | compiler/titan_compiler.py:194-202 | its instructions are encodable exactly when the end of every loop is an index of 12 bits |
| `CodeSize.CompilesExactly` | compiler/titan_compiler.py:456-464 | the scalar backend compiles a kernel if and only if its text is within the subset and the limits on registers, parameter offsets and branch targets |
| `Simulator.WmmaInPlace` | compiler/titan_compiler.py:817-838 | in INT8 mode the nested loops perform the tile product in place; an exception exactly when an index is out of range |
| `Simulator.ExecuteInPlace` | compiler/titan_compiler.py:760-843 | one interpreter turn on registers, predicates and memory is one step of the machine (FP8 WMMA apart) |
| `Simulator.Simulate` | compiler/titan_compiler.py:741-845 | reports the step count and memory of a run to EXIT, the watchdog, or an exception |
| `Toolchain.CompiledKernelRuns` | compiler/titan_compiler.py:741-845 | encoder, decoder and interpreter together: with any sufficient step budget simulating the words of a compiled kernel finishes with the memory the kernel computes |
| `Toolchain.CompileAndSimulate` | compiler/titan_compiler.py:456-464 | the imperative compile-then-simulate path meets the two specifications |
| `FloatQuotient.TruncatedFloatQuotient` | compiler/titan_compiler.py:785-787 | for all 32-bit operands with nonzero divisor, truncating the nearest binary64 quotient is C integer division |
| `Agreement.WmmaAgrees` | driver/titan_x6_gpu_model.c:159-198 | an INT8 tile product that stays in bounds is the same in both interpreters |
| `Agreement.StepAgrees` | driver/titan_x6_gpu_model.c:203-370 | every step of the Python interpreter that raises no exception is a step of `exec_thread` with the same registers, predicates, pc and memory, for instructions not reading r61 or r62 |
| `Agreement.RunsAgree` | driver/titan_x6_gpu_model.c:203-370 | a run of the Python interpreter to EXIT is a successful run of `exec_thread` with the same final memory, while the code in VRAM is not overwritten |
| `Agreement.WatchdogAgrees` | driver/titan_x6_gpu_model.c:203-223 | a run of the Python interpreter that is still going after n steps is a run of `exec_thread` that a watchdog of n instructions stops with the error bit set |
| `CodeIntact.ThreadOutcome` | driver/titan_x6_gpu_model.c:203-370 | a program whose simulator run exits and holds the bytes of its code: the thread leaves the same memory, or is stopped by the watchdog, exactly by whether the run fits the watchdog |
| `CodeShape.CompiledConfined` | compiler/titan_compiler.py:252-347 | compiled code writes no register outside r2..r57 and reads none of r58..r62 |
| `CodeShape.ReservedKept` | compiler/titan_compiler.py:68-71 | so on every run of compiled code r0, r1 and r58..r62 keep their values; r0 reads 0 without being hardwired |
| `CodeShape.CompiledKernelOnGpu` | driver/titan_x6_gpu_model.c:203-370 | any thread of any launch that runs a compiled kernel from VRAM leaves the memory the kernel computes, when no store of the kernel, by the meaning of the language, touches the code; a run longer than the watchdog allows ends with an error |
| `IsaLaws.HighAndLow` | driver/titan_x6_gpu_model.c:250-253 | MULHI and MUL together are the exact signed 64-bit product |
| `IsaLaws.FmaIsMulThenAdd` | driver/titan_x6_gpu_model.c:271-273 | integer FMA is MUL followed by ADD, modulo 2^32 |
| `IsaLaws.SelectionsAgree` | driver/titan_x6_gpu_model.c:267-270 | MIN and MAX are the two operands in signed order; SLT and SLTU agree with the SETP comparisons, which are pairwise complementary |
| `IsaLaws.ShiftsCancel` | driver/titan_x6_gpu_model.c:264-266 | left shift undoes the logical right shift but for the lost bits; the arithmetic shift is the floor of the signed quotient |
| `IsaLaws.ShiftsScale` | driver/titan_x6_gpu_model.c:264-266 | the logical right shift is the floor of the unsigned quotient by a power of two, the left shift the product modulo 2^32 |
| `IsaLaws.ComparisonsByArithmetic` | driver/titan_x6_gpu_model.c:299-313 | the unsigned comparison is the borrow of the subtraction, the signed one is the unsigned one with both operands moved by 2^31 |
| `IsaLaws.BitwiseByArithmetic` | driver/titan_x6_gpu_model.c:258-263 | AND, OR and XOR by their sums and by what a word gives with itself and with 0, which fixes their truth tables |
| `LaunchThreads.StartRegisters` | driver/titan_x6_gpu_model.c:203-215 | thread t of n starts at instruction 0 with t in r62, n in r61, the parameter address in r1 and 0 elsewhere |
| `LaunchThreads.DispatchNumbers` | driver/titan_x6_gpu_model.c:397-413 | for every n: after a dispatch of n threads of a program that stores r61 + r62 in its own element, element t holds n + t for every t below n and no other byte has changed |
| `LaunchThreads.FailureLatched` | driver/titan_x6_gpu_model.c:203-370 | a thread leaves the error bit set exactly when it does not come to EXIT |
| `LaunchThreads.StopsAtFailure` | driver/titan_x6_gpu_model.c:397-413 | a dispatch stops at the first thread that fails |
| `IsaLaws.AtomicsExchange` | driver/titan_x6_gpu_model.c:348-359 | ATOM_ADD and ATOM_CAS return the old word, store the new one and touch nothing else |
| `TensorEmitter.EmitKLoop` | compiler/titan_compiler.py:655-672 | the innermost loop is emitted with its labels resolved |
| `TensorEmitter.CompileTensorWords` | compiler/titan_compiler.py:600-683 | the words encode the tensor program; failure exactly when the kernel is no matmul, a symbol is no parameter or registers run out |
| `TensorTiles.WmmaProgress` | compiler/titan_compiler.py:817-838 | each WMMA adds to each element of its tile exactly sixteen further products and changes no other byte |
| `TensorProof.TensorMultiplies` | compiler/titan_compiler.py:600-683 | for every accepted kernel and all dimensions that are multiples of 16, the INT8 program adds sum over k < K of A[i*K+k]*B[k*N+j] modulo 2^32 to each C[i*N+j] and changes no other byte |
| `TensorProof.TensorKeeps` | compiler/titan_compiler.py:600-683 | the same with the exact number of instructions, p + 7 + M/16 * (7 + N/16 * (11 + 11 * K/16)), and with every region apart from C held at every step |
| `TensorThread.TensorOnGpu` | driver/titan_x6_gpu_model.c:203-370 | a thread running the tensor program from VRAM, code apart from C, multiplies the matrices if and only if that number is within the watchdog; otherwise it ends with an error |
| `MatmulMeaning.BodyParts` | compiler/titan_compiler.py:528-597 | what match_matmul has checked when it accepts, else clauses of its loops or not: the shapes, strides and bounds fit together |
| `MatmulMeaning.MatmulKernelMeaning` | compiler/titan_compiler.py:528-597 | an accepted kernel with distinct names and C apart from A and B: its run stays in the language exactly when it reaches no else clause, and then it stores exactly those sums |
| `MatmulMeaning.MatmulExactly` | compiler/titan_compiler.py:528-597 | for nonempty C, an accepted kernel means the matrix product if and only if its loops have no else clause |
| `TensorLimits.ElseClauseDropped` | compiler/titan_compiler.py:485-493 | the condition is needed: an else clause on the outer loop passes match_matmul and the tensor program drops it, while the scalar backend refuses it |
| `TensorLimits.CompiledElseFree` | compiler/titan_compiler.py:449-450 | whatever the scalar backend compiles has no else clause |
| `TensorLimits.MatmulWellScoped` | compiler/titan_compiler.py:528-597 | an accepted kernel with distinct names whose symbols are parameters passes the scope check |
| `TensorForms.MatchesExactly` | compiler/titan_compiler.py:496-597 | match_matmul accepts a kernel if and only if it is three nested loops around the cell in one of its written forms: factors and terms in either order, three ways to accumulate, docstrings anywhere outside |
| `TensorForms.TensorCompilesExactly` | compiler/titan_compiler.py:600-640 | the tensor backend compiles exactly the recognised kernels whose symbols are among at most 48 parameters |
| `TensorForms.ModesDiffer` | compiler/titan_compiler.py:613-668 | the FP8 program is the INT8 program with one bit of the WMMA instruction set |
| `MatmulCompiles.MatmulCompilesExactly` | compiler/titan_compiler.py:456-464 | a recognised kernel of up to 46 parameters compiles on the scalar backend if and only if it has no else clause, to its parameters plus 39 instructions |
| `MatmulCompiles.RepositoryMatmulCompiles` | compiler/kernels/matmul.py:9-16 | the repository kernel is recognised and compiled by both backends |
| `TensorEquivalence.BackendsAgree` | compiler/titan_compiler.py:600-683 | every kernel that both backends compile, with distinct names: the scalar program over int32 arrays and the tensor program over int8 arrays with the same values and a zeroed C leave the same words in C |
| `TensorEquivalence.MatmulsAgree` | compiler/titan_compiler.py:600-683 | the same for every recognised kernel of up to 46 parameters without an else clause, with nothing assumed about compilation |
| `FloatEncoding.DecodeJoin` | tb/uvm/fp_ref.py:55-70 | a word joined from sign, exponent and fraction fields decodes to the number they stand for |
| `FloatEncoding.SpecialsDecode` | tb/uvm/fp_ref.py:29-48 | the canonical NaN, infinities, zeros and largest finite numbers decode as such |
| `FloatRounding.RoundedCorrect` | tb/uvm/fp_ref.py:78-106 | cut, round bit, sticky bit and increment yield the magnitude that the rounding mode requires; inexact exactly when it differs from the exact value |
| `FloatRounding.RoundPackCorrect` | tb/uvm/fp_ref.py:78-133 | for every positive mantissa, scale, sign, mode and format: the delivered word and flags are those of sections 4.3 and 7.4 of IEEE 754-2008; underflow means that the delivered magnitude is inexact and below the normal numbers |
| `FloatUnderflow.UnderflowExactly` | tb/uvm/fp_ref.py:108-133 | the flag differs from the after-rounding tininess of section 7.5 if and only if the delivered magnitude is the smallest normal and the rounding with unbounded exponent range is below it |
| `FloatUnderflow.UnderflowWindow` | tb/uvm/fp_ref.py:108-133 | the same in terms of the exact value: it lies in a window just below the smallest normal number |
| `FloatUnderflow.UnderflowMissed` | tb/uvm/fp_ref.py:165-179 | the situation arises: one product of two FP32 numbers is inexact and tiny after rounding and raises no underflow |
| `FloatRounding.RoundsToUnique` | tb/uvm/fp_ref.py:78-133 | the required magnitude is unique, so the previous row pins the result down |
| `FloatRounding.RoundPackOfValue` | tb/uvm/fp_ref.py:78-133 | the result depends on mantissa and scale only through mant * 2^scale |
| `FloatArithmetic.AddCorrect` | tb/uvm/fp_ref.py:136-162 | addition of finite numbers is the correct rounding of the exact sum; exact zeros get the sign of section 6.3 |
| `FloatArithmetic.MulCorrect` | tb/uvm/fp_ref.py:165-179 | multiplication of finite numbers is the correct rounding of the exact product |
| `FloatArithmetic.FmaCorrect` | tb/uvm/fp_ref.py:182-223 | fused multiply-add rounds the exact a * b + c once |
| `FloatArithmetic.FmaOneIsAdd` | tb/uvm/fp_ref.py:182-223 | fma(a, 1, c) equals a + c, bits and flags, on all operands in all modes |
| `FloatArithmetic.FmaZeroIsMul` | tb/uvm/fp_ref.py:182-223 | fma(a, b, zero of the product sign) equals a * b, bits and flags, on all operands in all modes |
| `FloatArithmetic.Commutes` | tb/uvm/fp_ref.py:136-179 | addition and multiplication are commutative, bits and flags |
| `FloatSpecials.AddSpecials` | tb/uvm/fp_ref.py:136-152 | exactly when a sum is NaN, when it is invalid, and what infinite operands give, for all operands and modes; a NaN result is the canonical one with no flag but invalid |
| `FloatSpecials.MulSpecials` | tb/uvm/fp_ref.py:165-177 | the same for products, zero times infinity included |
| `FloatSpecials.FmaSpecials` | tb/uvm/fp_ref.py:182-215 | the same for the fused operation; zero times infinity is invalid even with a quiet NaN addend |
| `FloatWords.ResultsAreWords` | tb/uvm/fp_ref.py:136-223 | every result fits the width of the format |
| `FloatWords.WordDetermined` | tb/uvm/fp_ref.py:55-70 | a word that is no NaN is determined by the number it stands for, so the rows above fix the result words |
| `FloatWords.SpecialWords` | tb/uvm/fp_ref.py:29-48 | the canonical NaN, infinities and negative zero of FP32 and FP16 as words |
| `HalfMultiply.ShiftIsIncrement` | tb/uvm/tensor_ref.py:22-31 | the nearest-even shift is the kept mantissa plus the increment of the reference model |
| `HalfMultiply.MultipliersAgree` | tb/uvm/tensor_ref.py:34-79 | on all operands the independent FP16 multiplier delivers the bits of the reference model in nearest-even mode |
| `RayTriangle.CountLeadingZeros` | tb/uvm/rt_ref.py:58-66 | the downward scan finds the number of leading zeros |
| `Reciprocal.NewtonRaphsonBound` | tb/uvm/rt_ref.py:109-118 | for every normalised m no mask changes a value, and m * r is within [2^61 - m - 2^30, 2^61 + 2^31 + 4]: r is within about 1.5 of 2^61 / m |
| `Reciprocal.RecipBound` | tb/uvm/rt_ref.py:109-121 | n times the emitted reciprocal is within [2^32 - n - 10, 2^32 + 4] for every nonzero word n, saturation included |
| `Reciprocal.HitBounds` | tb/uvm/rt_ref.py:99-128 | on every hit t, u and v are within the matching distance of their quotients by the determinant, and u + v <= 1.0 |
| `TriangleHits.HitByProducts` | tb/uvm/rt_ref.py:69-106 | where nothing is lost or wraps: a hit is reported exactly when, with the sign of the determinant turned, u >= 0, v >= 0, u + v <= |det| and t > 0 for the exact products of Cramer rule, one extreme apart |
| `TriangleHits.HitExactly` | tb/uvm/rt_ref.py:69-106 | there a hit is reported if and only if the ray meets the triangle at a positive parameter and is not parallel to it, for either winding, one extreme apart |
| `TriangleHits.ExtremeMissed` | tb/uvm/rt_ref.py:94-99 | the extreme occurs: a ray through a unit triangle from 32768 below it is reported as a miss, because a numerator is the word that has no negation |
| `TriangleHits.MirrorExchanges` | tb/uvm/rt_ref.py:69-128 | exchanging two vertices exchanges u and v and keeps the hit and its t |
| `TriangleHits.HitUpToError` | tb/uvm/rt_ref.py:69-106 | where nothing wraps, a ray that meets the triangle by more than the truncation error is a hit, the extreme apart, and one that misses it by more is a miss |
| `RayGeometry.QuotientsSolve` | tb/uvm/rt_ref.py:69-92 | where no fixed-point operation discards bits or wraps, the determinant and the numerators satisfy the intersection equation s + t*d = u*e1 + v*e2 in all three components |
| `RayGeometry.NormalisedSolve` | tb/uvm/rt_ref.py:94-99 | the sign normalisation keeps that equation and makes the determinant non-negative, except for the value whose negation wraps |
| `RayGeometry.BoxAccepts` | tb/uvm/rt_ref.py:131-143 | where its products are exact, the slab test accepts every box that the ray meets by t_max |
| `RayGeometry.BoxIntervals` | tb/uvm/rt_ref.py:131-143 | for all inputs: the slab test asks for a parameter from 0 to t_max that is between the two slab products of every axis |
| `RayGeometry.BoxExactly` | tb/uvm/rt_ref.py:131-143 | where its products are exact, the slab test accepts a box if and only if the ray is inside it at some time from 0 to t_max |
| `RayError.QuotientsNearlySolve` | tb/uvm/rt_ref.py:69-92 | where nothing wraps, truncation leaves the intersection equation true within a bound that is explicit in the operands, in all three components |
| `RayError.SlabNear` | tb/uvm/rt_ref.py:46-55 | where nothing wraps, a slab product is within |a| / 2^16 + 1 of a * 2^16 / d, for every component beyond two units |
| `RayError.BoxKept` | tb/uvm/rt_ref.py:131-143 | a box that the ray meets by t_max with that slack to spare is never rejected, rays along an axis included |
| `BvhTree.SortedIsSorted` | tb/uvm/rt_ref.py:193-195 | the sort orders by centroid, keeps the triangles, and keeps the order of equal keys |
| `BvhTree.LeavesAreItems` | tb/uvm/rt_ref.py:178-198 | every triangle is in exactly one leaf |
| `BvhTree.BoxesEnclose` | tb/uvm/rt_ref.py:172-191 | every internal box encloses all vertices below it |
| `BvhTree.HeightBound` | tb/uvm/rt_ref.py:195-198 | the height is at most k whenever there are at most 2^k triangles |
| `BvhShape.BuiltAsDescribed` | tb/uvm/rt_ref.py:178-198 | every node has bounds that are attained, and its list is split at the middle of the stable order of centroids along the first of the widest axes |
| `BvhShape.ShapeUnique` | tb/uvm/rt_ref.py:178-198 | one tree only is described so |
| `BvhShape.BuiltAtMedian` | tb/uvm/rt_ref.py:178-198 | over the leaves: the left half has the smaller half of the leaves, none with a greater centroid along that axis than any on the right, and all six sides touch a vertex |
| `BvhBuilder.Builder.Rec` | tb/uvm/rt_ref.py:178-199 | stores the tree of BvhShape.BuiltAsDescribed in preorder at fresh consecutive addresses and leaves all other nodes alone |
| `BvhBuilder.Builder.Build` | tb/uvm/rt_ref.py:161-202 | fails exactly on the empty list; otherwise the tree is stored from address 1 and the 2n - 1 addresses are exactly 1 .. 2n - 1 |
| `BvhTraversal.Traverse` | tb/uvm/rt_ref.py:229-262 | terminates on every stored tree with a real hit or nothing; up to height 32 no push is dropped and it computes the recursive walk |
| `BvhTraversal.VisitIsSearch` | tb/uvm/rt_ref.py:239-260 | when no box test rejects a node holding a nearer hit, the pruned walk equals the search of all triangles in walk order |
| `BvhTraversal.VisitFindsClosest` | tb/uvm/rt_ref.py:229-262 | then the result is the least t below 0x7FFFFFFF over all triangles, with id, u and v of one attaining it, or a miss when there is none |
| `BvhOrder.OrderOfWalk` | tb/uvm/rt_ref.py:239-256 | the walk reaches the leaves from left to right when the ray moves towards larger x, and from right to left otherwise |
| `BvhOrder.WalkFindsFirst` | tb/uvm/rt_ref.py:229-262 | of several nearest triangles it reports the first in that order, with its id, t, u and v |
| `BvhTraversal.TraceClosest` | tb/uvm/rt_ref.py:161-262 | build and trace up to 2^32 triangles: the closest hit under the same hypothesis |
| `BvhExact.ClosestIf` | tb/uvm/rt_ref.py:229-262 | it suffices that the boxes above one nearest triangle accept the ray just beyond its t |
| `BvhExact.ClosestOnlyIf` | tb/uvm/rt_ref.py:229-262 | it is necessary that the boxes above some nearest triangle accept the ray with the initial ct |
| `BvhExact.ClosestExactly` | tb/uvm/rt_ref.py:229-262 | unless a box is entered later than a hit below it, the walk finds the closest hit if and only if the boxes above some nearest triangle accept the ray |
| `BvhExact.NothingToFind` | tb/uvm/rt_ref.py:229-262 | when no triangle is hit, the walk reports a miss |
| `BvhLimits.HitOverlooked` | tb/uvm/rt_ref.py:131-143 | the hypothesis is needed: a concrete ray along an axis hits both triangles and the walk reports a miss, because the saturated slab products wrap |
| `CrossbarModel.Crossbar.Arbitrate` | bin/rewrite_crossbar.py:91-105 | the arbitration loop grants the first requesting master from the pointer on |
| `CrossbarModel.Crossbar.Clock` | bin/rewrite_crossbar.py:60-189 | one clock edge: all outputs, with the meaning that the rows of CrossbarWires give them, and the whole new register state, including pointer wrap and the 4- and 5-bit counters |
| `CrossbarSafety.StepOutstanding` | bin/rewrite_crossbar.py:128-160 | every step keeps the invariant, removes the answered request at the front of the FIFO window and appends the accepted one, also for both at once at count 16 |
| `CrossbarSafety.ResponseRouting` | bin/rewrite_crossbar.py:177-189 | a response reaches exactly one master, the issuer of the oldest outstanding request, with the data of the slave |
| `CrossbarSafety.HandshakesAgree` | bin/rewrite_crossbar.py:118-175 | a master sees ready exactly when it is the one accepted, and the slave takes a request exactly then, with that payload |
| `CrossbarWires.GrantIsFirst` | bin/rewrite_crossbar.py:91-105 | the grant goes to the requesting master nearest to the pointer, and to nobody only when none requests |
| `CrossbarWires.RequestLine` | bin/rewrite_crossbar.py:164-168 | whatever the ready line of the slave: the request line is up exactly when some master requests and the FIFO has space or frees an entry, with the payload of the first requesting master |
| `CrossbarWires.ReadyLines` | bin/rewrite_crossbar.py:171-176 | a master is ready exactly when it is the first requesting one, the slave is ready and the FIFO has space |
| `CrossbarWires.ResponseLines` | bin/rewrite_crossbar.py:178-192 | nobody is answered while nothing is outstanding, and masters that are not answered read zeros |
| `CrossbarWires.PointerMoves` | bin/rewrite_crossbar.py:60-75 | the pointer moves to the next master exactly when some master requests and the slave is ready |
| `CrossbarWires.ConservesExactly` | bin/rewrite_crossbar.py:128-160 | a cycle neither loses nor invents a request if and only if the slave does not answer while nothing is outstanding |
| `CrossbarWires.BlockedWhileQuiet` | bin/rewrite_crossbar.py:118-160 | after such an answer the count is 31, and nothing is accepted for as long as the slave stays quiet |
| `CrossbarWires.UnsolicitedFromReset` | bin/rewrite_crossbar.py:128-160 | one response out of nowhere brings the reset state there and answers nobody |
| `CrossbarSafety.ResponsesInOrder` | bin/rewrite_crossbar.py:128-189 | on every run from reset the masters answered are those accepted, in the same order, but for the at most 16 still in the FIFO window |
| `CrossbarSafety.BoundedWaiting` | bin/rewrite_crossbar.py:60-105 | a master that requests continuously is accepted within any n pointer advances that are made while the FIFO has space |
| `CrossbarSafety.SaturatedExactly` | bin/rewrite_crossbar.py:60-123 | when all masters request all the time, a master is accepted if and only if the pointer passes it in a cycle with space |
| `CrossbarSafety.StarvationReachable` | bin/rewrite_crossbar.py:60-123 | the proviso is needed: from a reachable state there are runs of any length in which the pointer advances every cycle, one master is served over and over and the other, always requesting, never |
| `VramTable.JumpSkipsNothing` | driver/titan_x6_drv.c:165-176 | an address that the scan jumps over is not a fit |
| `VramTable.NeededIsLeast` | driver/titan_x6_drv.c:122-143 | the size looked for is the least positive number of whole pages that holds the request |
| `DriverDevice.Driver.RangeIsFree` | driver/titan_x6_drv.c:128-139 | true exactly when the range meets no live object |
| `DriverDevice.Driver.SkipPast` | driver/titan_x6_drv.c:165-176 | moves on, stays page-aligned and passes no address at which the request fits |
| `DriverDevice.Driver.Alloc` | driver/titan_x6_drv.c:141-180 | the lowest page address at which the rounded size fits, in the first free slot; fails exactly when there is no slot or no such address; live objects stay aligned, in the heap and disjoint |
| `DriverDevice.Driver.GemFree` | driver/titan_x6_drv.c:289-299 | frees exactly the object of a live handle |
| `DriverDevice.Driver.GemWrite` | driver/titan_x6_drv.c:301-330 | writes exactly the range when it lies inside the object, and refuses otherwise |
| `DriverDevice.Driver.GemRead` | driver/titan_x6_drv.c:301-330 | the bytes of the range when it lies inside the object |
| `DriverDevice.Driver.Validate` | driver/titan_x6_drv.c:204-223 | accepts exactly the word sequences that divide into known packets |
| `DriverDevice.Driver.Submit` | driver/titan_x6_drv.c:196-246 | an accepted batch, at any wrap position: the device has executed exactly its packets and then retired the new fence, and the ring is drained; otherwise nothing changes |
| `DriverDevice.BatchPackets` | driver/titan_x6_drv.c:204-233 | the appended fence is read as a packet of its own and never as an operand |
| `DriverDevice.Driver.Wait` | driver/titan_x6_drv.c:357-374 | succeeds exactly when the fence is done, and only then acknowledges the interrupt |
| `FenceOrder.FenceLifetime` | driver/titan_x6_drv.c:248-252 | over every sequence of accepted submissions, a retired fence reads as done exactly while the number of later ones, modulo 2^32, is below 2^31 |
| `CommandRing.PendingWrite` | driver/titan_x6_drv.c:225-233 | writing at the write pointer appends one word to the pending ones, also across the end of the ring |
| `CommandRing.PendingRead` | driver/titan_x6_gpu_model.c:377-382 | popping removes the first pending word |
| `CommandRing.ParseAppend` | driver/titan_x6_gpu_model.c:391-435 | packet boundaries of a concatenation are those of its parts |
| `CommandRing.ParseOfWords` | driver/titan_x6_gpu_model.c:391-435 | packets of all kinds survive being written as words and read again |
| `CommandRing.UnknownRefused` | driver/titan_x6_drv.c:204-223 | an unknown opcode after whole packets is refused |
| `GpuDevice.Gpu.ExecWmmaInPlace` | driver/titan_x6_gpu_model.c:159-198 | the nested loops in VRAM, with early return on a fault, meet the specification of the tile product |
| `GpuDevice.Gpu.ExecThread` | driver/titan_x6_gpu_model.c:203-370 | the interpreter loop in place runs a thread as specified, to EXIT, a fault or the watchdog |
| `GpuDevice.Gpu.ProcessPacket` | driver/titan_x6_gpu_model.c:391-435 | pops exactly the words of one packet and performs it |
| `GpuDevice.Gpu.ProcessRing` | driver/titan_x6_gpu_model.c:384-438 | executes the packets of the pending words in order and drains the ring; does nothing when disabled |
| `Runtime.OnlyFloor` | driver/titan_runtime.cpp:64-78 | a range that lies in some live buffer lies in the one that starts last at or before it |
| `Runtime.Runtime.Resolve` | driver/titan_runtime.cpp:64-78 | succeeds exactly when the range lies in one live buffer, with its handle and offset |
| `Runtime.WriteRefines` | driver/titan_runtime.cpp:171-180 | a write inside one buffer changes that buffer as intended and no other |
| `Runtime.Runtime.Malloc` | driver/titan_runtime.cpp:131-145 | a new buffer that overlaps none, all others unchanged; failure exactly when the driver has no slot or no room |
| `Runtime.Runtime.Free` | driver/titan_runtime.cpp:147-158 | removes exactly the buffer at that address |
| `Runtime.Runtime.CopyToDevice` | driver/titan_runtime.cpp:160-180 | succeeds exactly when the range lies in one buffer, the bounds check of the driver then passes, and no other buffer changes |
| `Runtime.Runtime.CopyToHost` | driver/titan_runtime.cpp:181-189 | the bytes of that buffer |
| `Runtime.Runtime.Memset` | driver/titan_runtime.cpp:209-216 | on success every byte of the range is the low byte of the value, and every other byte of device memory is as before |
| `Runtime.SetAndReadBack` | driver/titan_runtime.cpp:160-216 | setting a range and reading it back gives that many copies of the low byte |
| `Runtime.Runtime.CopyOnDevice` | driver/titan_runtime.cpp:190-204 | for any addresses: success always; memory is moved as by memmove when both ranges are in VRAM, and otherwise the error bit is set and memory is as before; between live buffers only the one aimed at changes |
| `RuntimeCopies.ConfinedExactly` | driver/titan_runtime.cpp:190-204 | a device copy changes no buffer but the one it is aimed at, for every content of memory, if and only if the destination range meets no other live buffer (or the copy is onto itself) |
| `RuntimeCopies.NeighbourChanged` | driver/titan_runtime.cpp:190-204 | two bytes across the border of adjacent buffers: no host copy resolves them, a device copy changes the second buffer |
| `RuntimeCopies.CrossingCopy` | driver/titan_runtime.cpp:190-204 | the same on the runtime itself: the copy reports success and the neighbour has changed |
| `Runtime.Runtime.Synchronize` | driver/titan_runtime.cpp:329-338 | succeeds exactly when the last fence is done or there is none |
| `Runtime.Runtime.ModuleLoad` | driver/titan_runtime.cpp:227-274 | the words of a module in a new buffer |
| `Runtime.Runtime.LaunchKernel` | driver/titan_runtime.cpp:285-327 | device memory becomes what the threads make of it with the parameter block in place, apart from all buffers, and the block is released |
| `FullStack.LoadAndLaunch` | driver/titan_runtime.cpp:227-327 | load, launch one thread, unload: the thread found code and parameters in memory, apart from each other and from all buffers, and the buffers as they were |
| `FullStack.LaunchMeaning` | driver/titan_x6_gpu_model.c:397-411 | a one-thread dispatch of a compiled kernel that does not store into its code computes the kernel, or reports that it ran too long |
| `FullStack.CompileAndLaunch` | driver/titan_runtime.cpp:285-327 | compiler, loader, runtime, driver, ring and GPU model together leave in VRAM what the kernel means |
| `TensorLaunch.TensorLaunchMeaning` | driver/titan_x6_gpu_model.c:397-411 | a one-thread dispatch of a tensor program over matrices in live buffers adds the product to C and leaves every other byte of every buffer alone, exactly when its length is within the watchdog |
| `TensorLaunch.CompileAndMultiply` | driver/titan_runtime.cpp:285-327 | the whole path for the tensor backend, with conditions on the parameters and the live buffers only |

## Left out

- Front end: Python's parser and `ast` are not modelled; a construct the compiler rejects is `OtherExpr`, `OtherTarget`, `OtherOp` or `OtherStmt`. Chained assignment targets and non-name loop targets count as `OtherStmt`, and error messages are dropped.
- `simulate`: FP8 WMMA is a fault in the model of the simulator, because it rests on the host's float conversion; so are the opcodes for which `simulate` raises an exception.
- Host floating point: SIN, COS, FADD, FMUL, FMIN, FMAX, CVT, FFMA and the FP8 products of the C model are a function parameter (`GpuThread.HostMath`); nothing is proved about them.
- Simulator.WmmaInPlace: the INT8 mode only; the FP8 mode of the same loops is not modelled.
- Simulator.ExecuteInPlace: an FP8 WMMA raises an exception in the model, where the source computes.
- Performance counters, log output, TBIN file reading, MMIO through raw pointers, the kernel-module scaffolding, PCI probe and initialisation state (`titanInit`, `titanShutdown`, null pointers) are not modelled.
- Allocation sizes for which a 32-bit sum of the allocator wraps are excluded by `VramTable.Moderate`, and DMA operands above 32 bits by `CommandRing.Fits`.
- Preservation.CompilationPreservesMeaning: demands the static scope check, so kernels outside it for which the compiled code happens to be right are not covered; runs that leave the subset (an index out of bounds, a counter past 2^31 - 1) are not either.
- MatmulMeaning.MatmulKernelMeaning: assumes that the names in the kernel are distinct, which match_matmul does not check, and that C lies apart from A and B; so do MatmulMeaning.MatmulExactly and TensorEquivalence.BackendsAgree.
- Runtime.Runtime.LaunchKernel: the effect of several threads is stated as their sequential execution, which is what the model of the device does; on real hardware they run concurrently.
- FullStack.CompileAndLaunch: speaks about one thread, and about kernels that do not store into their own code; how many instructions a scalar kernel takes is not derived from its source.
- TensorLaunch.CompileAndMultiply: speaks about one thread; each further thread would add the product once more.
- TensorProof.TensorMultiplies: the FP8 mode is not covered, because its accumulation is host floating point; dimensions are below 2^31.
- BvhTraversal.VisitFindsClosest: assumes `Conservative` (see above); it is not derived from the inputs, because `box_isect` truncates and wraps.
- RayGeometry.QuotientsSolve: speaks about runs without loss; `RayError` bounds what truncation adds, for runs in which nothing wraps.
- CrossbarSafety.ResponsesInOrder: assumes that the slave answers only when a request is outstanding, which CrossbarWires.ConservesExactly shows to be needed; with several slaves the responses of one cycle are or-ed together, and only NUM_SLAVES = 1, as the chip instantiates it, is modelled.
- The remaining tensor-core scalar models (`fp16_to_fp32`, `fp8_mul_to_fp32`, `fp32_add`, `pe_product`, `wmma_golden`) and `node_to_bits`: straight-line field arithmetic.
- `compiler/titan_cc.cpp`: an independent compiler for single-operator assignments; its target ISA has no machine in the repository, so only easy members would remain.
- The RTL other than the crossbar, the testbench drivers and the reporting scripts.
