# AarchGate in Dafny

AarchGate evaluates an expression over many rows of 64-bit fields. Sixty-four rows are transposed into
64 bit-planes, the expression graph is compiled to straight-line ARM64 code over planes and masks, and
the answers of all blocks are added up. This project models that pipeline and proves that every fast
form computes what evaluating the expression row by row computes.

The pieces, bottom up:

- `words.dfy`, `circuits.dfy`: 64-lane words, the ripple adder, the top-down comparator and the
  multiplexer, with the number each lane denotes.
- `transpose.dfy`: the six butterfly stages, in place on an array, and slicing.
- `ir.dfy`, `semantics.dfy`: the expression graph and its unsigned, modulo 2^64 meaning on one row.
- `machine.dfy`, `emission.dfy`, `effects.dfy`, `correctness.dfy`: the instructions a kernel uses, the
  code of every node, and the proof that a whole kernel delivers the meaning of its root.
- `analysis.dfy`, `allocation.dfy`, `emitter.dfy`, `compiler.dfy`: the imperative compiler, whose
  output is a kernel of the kind `correctness.dfy` is about.
- `scalar.dfy`, `run_graph.dfy`, `backends.dfy`, `negations.dfy`: the row-loop backend, the graph it runs
  in place of an expression with negations, and its agreement with the bit-sliced one.
- `bounds.dfy`, `operators.dfy`, `loads.dfy`, `overwrite.dfy`: small expressions always compile; what each operator
  answers, in the operators of arithmetic; which fields the code reads; what the final copy overwrites.
- `independence.dfy`: rows and earlier memory contents do not influence one another.
- `sums.dfy`, `engine.dfy`: population counts, the three aggregators, installation of an expression.
- `gather.dfy`, `drivers.dfy`, `native.dfy`, `vector.dfy`, `scalar_driver.dfy`: the ways of running an installed expression.
- `partition.dfy`, `pool.dfy`: division of work and the thread pool as a step system.
- `kogge_stone.dfy`: the prefix adder of the generated shader.
- `threshold.dfy`: the specialised comparison kernel.
- `process_tree.dfy`, `policy.dfy`, `collector.dfy`, `closing.dfy`: the sandbox policy built on the engine.

Numbers in registers and accumulators are residues modulo 2^64; signed 64-bit sums of the program are
read as two's complement, so they wrap. `Same(x, y)` says that x and y are equal modulo 2^64. A graph is
a sequence of nodes that refer to one another by index; sharing is allowed and cycles are not. Word
offsets replace byte offsets, and addresses are values of their own kind, so a stray access is a fault.

## Where the code and its description differ

- A subtraction is documented as two's complement, but its carry word is seeded with the number 1, which
  sets lane 0 only: rows 1 to 63 of a block get a - b - 1. The reference value of a row (`RowValue`) has
  this borrow; `Circuits.SubtractionExact` says where the subtraction is exact and `Engine.RowValuePlain`
  that the borrow is immaterial without subtractions.
- The shader's subtraction seeds plane 0 of every row; `KoggeStone.SubtractionsAgree` gives the exact
  condition under which it matches the compiled kernel.
- The scalar backend emits nothing for NOT, which therefore repeats the previous node's result
  (`Scalar.NotIsIgnored`). `Backends.ScalarLoopCorrect` says what is computed instead of the expression,
  wherever its negations are, so that a bit is right exactly when the two graphs agree on its row;
  `Negations.GuardedWrong` works this out for not (a > b) and c > d.
- A kernel whose root is a number copies it to words 0 to 63, over any node that was placed there
  (`Correctness.OverwrittenHolds`, `Overwrite.ComparisonLost`). The root itself is always right.
- Only the first six adders get a carry register; a kernel with an emitted seventh is undefined, and so
  is one whose root is a leaf. `Compiler.CompileExpression` states exactly when either happens.
- A parallel run of an expression that loads no field reports 0, while a serial run reports the sum
  (`Drivers.ParallelRun`, `Drivers.FieldlessRuns`).
- Closing the batch collector sets its stop flag and notifies without the lock that the worker waits
  under, so the notification can be lost (`Closing.ClosingEnds`, `Closing.WakeUpLost`).
- `evaluate_batch` is described as returning a mask of violations and returns their number
  (`Policy.PolicyEngine.EvaluateBatch`).

## Model

| member | source | states |
|---|---|---|
| `Circuits.RippleAdds` | src/jit/compiler.cpp:506-571 | in every lane and for every carry word the sum planes denote (a + b + carry-in) mod 2^n |
| `Circuits.RippleExact` | src/jit/compiler.cpp:563-568 | sum planes and carry-out together are the exact sum, lane by lane |
| `Circuits.RippleSubtracts` | src/jit/compiler.cpp:506-571 | adding complemented planes gives a - b, less one in every lane whose carry-in is clear |
| `Circuits.SubtractionExact` | src/jit/compiler.cpp:508-509 | a subtraction is a - b mod 2^n in a lane if and only if that lane of the seed word is set |
| `Circuits.ScanCompares` | src/jit/compiler.cpp:604-642 | the top-down plane scan decides greater and equal of the two unsigned numbers of every lane still undecided |
| `Circuits.MuxSelects` | src/jit/compiler.cpp:667-685 | the per-plane multiplexer picks, lane by lane, one number or the other |
| `Transpose.Stage` | src/compute/bit_slicer.cpp:25-122 | an in-place stage exchanges one bit of the row index with the same bit of the column index, for every matrix |
| `Transpose.SwapMasks` | src/compute/bit_slicer.cpp:25-122 | each stage's hexadecimal constant selects exactly the columns whose bit of that weight is clear |
| `Transpose.Transpose64x64` | src/compute/bit_slicer.cpp:124-131 | the six stages leave the exact transpose: bit j of word i becomes bit i of word j |
| `Transpose.TransposeInvolution` | src/compute/bit_slicer.cpp:124-131 | transposing twice is the identity |
| `Transpose.SliceN` | src/compute/bit_slicer_fast.cpp:7-16 | slicing, also in place, gives the transpose with the planes from n up cleared |
| `Transpose.SlicedLane` | src/compute/bit_slicer_fast.cpp:7-16 | lane r of the sliced planes denotes value r modulo 2^n |
| `Ir.EvalRange` | include/apex/jit/ir.hpp:16-41 | a mask node is 0 or 1 on a row, any other node is below the modulus |
| `Semantics.EvalAgrees` | src/jit/compiler.cpp:503-688 | a node's value depends on the fields its list loads and, if there is a subtraction, on the borrow, and on nothing else |
| `Effects.StoreSlotEffect` | src/jit/compiler.cpp:436-456 | a cached store writes memory and keeps every cached register equal to its slot, slot and register maps inverse |
| `Effects.LoadSlotEffect` | src/jit/compiler.cpp:458-476 | a cached load yields the slot's word, hit or miss, changes no memory and keeps the cache coherent |
| `Effects.AdderEffect` | src/jit/compiler.cpp:506-571 | the emitted adder stores the ripple sum of its operands' planes and disturbs nothing else |
| `Effects.CompareEffect` | src/jit/compiler.cpp:572-655 | the emitted comparator stores the mask of its relation, from any cache contents |
| `Effects.ComparatorDecides` | src/jit/compiler.cpp:604-655 | from primed masks, lane by lane, the stored mask says whether the two numbers stand in >, <, >=, <= or ==, written with the operators |
| `Effects.LogicEffect` | src/jit/compiler.cpp:656-666 | the emitted AND or OR stores the combined mask |
| `Effects.NotEffect` | src/jit/compiler.cpp:656-666 | the emitted NOT stores the complement |
| `Effects.SelectEffect` | src/jit/compiler.cpp:667-685 | the emitted selection stores the multiplexed planes |
| `Effects.PlanesCoherent` | src/jit/compiler.cpp:569-570 | direct plane stores keep the register cache coherent because no plane word is cached |
| `Correctness.NodeCorrect` | src/jit/compiler.cpp:503-688 | emitting one node extends the invariant: its result is in place, earlier results and cache coherence are kept |
| `Correctness.BodyCorrect` | src/jit/compiler.cpp:503-688 | after the code of all nodes every emitted node's result is in place, for every graph, sharing and placement |
| `Correctness.InitCorrect` | src/jit/compiler.cpp:405-420 | the entry code establishes the invariant from any registers and any scratchpad |
| `Correctness.CopyOutEffect` | src/jit/compiler.cpp:693-700 | the final copy moves the root's planes intact to words 0 to 63 and changes no other word |
| `Correctness.KernelCorrect` | src/jit/compiler.cpp:405-707 | compiler correctness: the returned word or copied planes hold the root's row-by-row meaning in all 64 lanes, every emitted node that the final copy spares keeps its own, and the copied block starts at word 0 or lies wholly above word 63 |
| `Correctness.OverwrittenHolds` | src/jit/compiler.cpp:693-700 | a node placed below the copied root still reads as its own value if and only if, in every row, the root's planes spell it |
| `Operators.RelationRoot` | src/jit/compiler.cpp:572-655 | bit r of a compiled comparison is set if and only if the values of its operands on row r stand in >, <, >=, <= or ==, written with the operators |
| `Operators.LogicRoot` | src/jit/compiler.cpp:656-666 | likewise for AND, OR and NOT of masks |
| `Operators.NumberRoot` | src/jit/compiler.cpp:506-685 | likewise for sums, differences, one short in every row but the first of a block, and selections, modulo 2^n |
| `Operators.LeafValues` | src/jit/compiler.cpp:511-530 | fields and constants that fit stand for themselves |
| `Operators.CompileCompared` | src/jit/compiler.cpp:307-722 | every relation between two fields compiles, by both backends |
| `Operators.FieldsCompared` | src/jit/compiler.cpp:814-818 | bit r of either kernel's answer, from any registers and scratchpad, says how fields a and b of row r compare |
| `Overwrite.CompileLarger` | src/jit/compiler.cpp:307-722 | the larger of two fields compiles, its comparison in word 0 |
| `Overwrite.ComparisonLost` | src/jit/compiler.cpp:693-700 | after any run of that kernel the comparison's word stands if and only if in every row a > b exactly when the larger is odd |
| `Overwrite.TwoBeatsOne` | src/jit/compiler.cpp:693-700 | one row with a = 2 and b = 1 is enough to lose the comparison |
| `Analysis.ExpressionAnalyzer.Analyze` | src/jit/compiler.cpp:234-304 | the traversal ends, lists exactly the reachable nodes, each once, operands first, in the order of the depth-first walk over left, right, condition and operands |
| `Analysis.VisitOrder` | src/jit/compiler.cpp:241-244 | the walk, node by node: left, right, then the condition, and the operands of a SUM as they come |
| `Analysis.ReachListed` | src/jit/compiler.cpp:234-304 | a list closed under operands contains everything its members depend on |
| `Allocation.NumberFields` | src/jit/compiler.cpp:322-333 | equal names and only equal names share a field index, indices are dense from 0, and failure means more than 128 names |
| `Allocation.ScratchpadManager.AllocSlot` | src/jit/compiler.cpp:194-202 | the lowest free slot is taken and was free; failure exactly when no chunk is left for it |
| `Allocation.ScratchpadManager.AllocBlock` | src/jit/compiler.cpp:204-217 | a free 64-aligned run of 64 words is taken; failure exactly when every chunk is in use |
| `Allocation.PlaceNodes` | src/jit/compiler.cpp:344-372 | every node gets its own words inside the scratchpad, blocks aligned to 64; a mask placed first is in word 0; failure exactly when they cannot fit |
| `Emitting.Emitter.StoreSlot` | src/jit/compiler.cpp:436-456 | the emit-time cache update lays down the store's code and keeps both cache maps inverse |
| `Emitting.Emitter.LoadSlot` | src/jit/compiler.cpp:458-476 | likewise for loads, hits and misses |
| `Emitting.Emitter.EmitBody` | src/jit/compiler.cpp:503-688 | the emission loop appends exactly the body code that the correctness proof is about |
| `Emitting.Emitter.EmitFinal` | src/jit/compiler.cpp:690-707 | the closing code by kind of root: nothing, copy of planes, or load of the mask |
| `Compiler.CompiledKernelRuns` | src/jit/compiler.cpp:307-722 | any compiled kernel, on planes that match the rows, from any registers and scratchpad, delivers its expression |
| `Compiler.CompileExpression` | src/jit/compiler.cpp:307-722 | compilation yields such a kernel, and exactly when it yields none or an undefined one |
| `Bounds.SixAdders` | src/jit/compiler.cpp:367-371 | with every node emitted, all adders have a carry register if and only if there are at most six |
| `Loads.KernelReads` | src/jit/compiler.cpp:511-530 | the code of a kernel reads exactly the fields that are operands of the nodes it computes |
| `Independence.LaneIndependence` | src/api/engine.cpp:259-278 | lane r of a kernel's answer and of every emitted node's words, skipped roots included, depends only on lane r of the planes, not on other rows, registers or the scratchpad |
| `Scalar.RowRuns` | src/jit/compiler.cpp:792-833 | the code of one row computes the exact fold over its nodes, stale result register included |
| `Scalar.DirectIsExact` | src/jit/compiler.cpp:811-828 | as long as no NOT or SUM has been met that fold is the arithmetic meaning of every node |
| `Scalar.NotIsIgnored` | src/jit/compiler.cpp:811-832 | run from any state, a NOT leaves in its slot the word of the last node before it that has an instruction, operand or not |
| `Scalar.NotHasPredecessor` | src/jit/compiler.cpp:811-832 | such a node exists before every NOT |
| `Scalar.EmitRow` | src/jit/compiler.cpp:792-833 | the emission loop lays down the row code node by node |
| `RunGraph.RanValid` | src/jit/compiler.cpp:811-832 | replacing every NOT and SUM by a repetition of the node computed before it gives a valid graph with the same list |
| `RunGraph.SameFold` | src/jit/compiler.cpp:792-833 | row by row the expression and that graph leave the same words in the same slots |
| `RunGraph.RowResult` | src/jit/compiler.cpp:792-837 | a row ends with the arithmetic value of the root in that graph, whatever the result register held |
| `Backends.ScalarLoopExact` | src/jit/compiler.cpp:785-844 | for every expression, from any state: bit b of the mask is set if and only if some row r <= b ends with a word whose bit b - r is set |
| `Backends.ScalarLoopCorrect` | src/jit/compiler.cpp:785-844 | for a mask whose NOTs follow the computation of a mask and whose SUMs that of a number, bit r of the mask is the value of the root on row r in the graph as run; without NOT and SUM that graph is the expression |
| `Backends.NegatedRoot` | src/jit/compiler.cpp:811-844 | with a NOT root, NOTs anywhere below, bit r of the mask is right if and only if the node computed last, as run, and the negated operand, as written, disagree on row r |
| `Backends.NegationInverts` | src/jit/compiler.cpp:811-844 | with the operand listed right before a NOT root, every bit of the mask is wrong |
| `Negations.CompileNegated` | src/jit/compiler.cpp:724-861 | not (a > b) compiles for the scalar backend |
| `Negations.NegatedWrong` | src/jit/compiler.cpp:811-844 | every scalar kernel for not (a > b) answers a > b, for all columns |
| `Negations.CompileGuarded` | src/jit/compiler.cpp:724-861 | not (a > b) and c > d compiles, its nodes listed in the order written |
| `Negations.GuardedWrong` | src/jit/compiler.cpp:811-844 | it answers a > b and c > d, so a row is answered rightly if and only if c <= d |
| `Backends.BackendsAgree` | src/jit/compiler.cpp:724-861 | without NOT both backends end well and agree on row 0; without SUB as well they return the same word from raw and transposed columns |
| `Backends.CompileScalar` | src/jit/compiler.cpp:724-861 | scalar compilation yields a sound kernel, undefined exactly when a node before the root finds no slot or the root is a leaf |
| `Sums.RowsMaskValue` | src/api/engine.cpp:393 | the row mask is the number 2^n - 1, all ones for a full block |
| `Sums.MaskedPop` | src/api/engine.cpp:392-394 | a masked population count adds up the first n lanes |
| `Sums.PlanesAddUp` | src/api/engine.cpp:405-411 | double counting: weighted masked plane counts add up to the values of the first n rows |
| `Engine.AggregateAddsRows` | src/api/engine.cpp:392-411 | each of the three aggregates is the sum of what its rows contribute, for any scratchpad and partial blocks |
| `Engine.ForestValue` | src/api/engine.cpp:154-185 | a SUM of selections plus an optional constant is the constant plus the chosen leaves |
| `Engine.RowTermMeaning` | src/api/engine.cpp:392-411 | what a row contributes is the value of the root on that row, in all three kinds |
| `Engine.BlockCorrect` | src/api/engine.cpp:383-412 | a block's aggregate is, modulo 2^64, the sum of the reference values of its rows, whatever the stale lanes held |
| `Engine.KernelRan` | src/api/engine.cpp:303-308 | an installed kernel runs without fault on any gathered columns and any scratchpad |
| `Engine.CollectForest` | src/api/engine.cpp:154-185 | base, weights and mask slots describe the sum of selections |
| `Engine.SetExpression` | src/api/engine.cpp:66-204 | what installation leads to, exactly, stated on the nodes: nothing, undefined runs (kernel, or emitted code that loads an unregistered field), raw weights, or logic whose kind is that of the root and which is sound if and only if nothing outside a sum of selections reads a part of it |
| `Engine.SumsFound` | src/api/engine.cpp:94-110 | a SUM, alone or plus a constant, is recognised for any number of operands, and no other root is; emitted code is independent of it if and only if nothing else reads a part of it |
| `Engine.ChoicesInstall` | src/api/engine.cpp:95-185 | a sum of selections between constants of at most 128 nodes, no further adder and no other reader, can always be installed |
| `Loads.KnownExact` | src/api/engine.cpp:134-152 | the fields needed are found registered if and only if every field the kernel's code reads is |
| `Engine.LogicInstalls` | src/api/engine.cpp:66-204 | an expression of at most 128 nodes, all comparisons and logic, can always be installed |
| `Engine.RowValuePlain` | src/jit/compiler.cpp:508-509 | without subtractions the reference value of a row is plain arithmetic |
| `Gather.GatherField` | src/api/engine.cpp:207-238 | four rows at a time, then the rest, then zeros: the column of a field |
| `Gather.GatherFive` | src/api/engine.cpp:259-272 | the five leading fields of n rows; lanes from n up keep what they held |
| `Gather.PadFive` | src/compute/parallel_runner.cpp:273-276 | the worker clears those lanes |
| `Gather.GatherBlock` | src/api/engine.cpp:240-301 | every field of a block is gathered and sliced, and exactly which lanes beyond the rows keep old data |
| `Drivers.WeighMasks` | src/compute/parallel_runner.cpp:318-369 | base and weighted counts are the same however many masks are taken at a time |
| `Drivers.WeighPlanes` | src/api/engine.cpp:405-411 | shifted plane counts give the plane aggregate modulo 2^64 |
| `Drivers.RunBlock` | src/api/engine.cpp:240-309 | one block yields its part of the reference, from any buffers and scratchpad |
| `Drivers.Execute` | src/api/engine.cpp:374-415 | a serial run returns the row-by-row reference modulo 2^64, for every row count |
| `Drivers.Worker` | src/compute/parallel_runner.cpp:134-382 | a worker that reuses its scratchpad returns the reference of its range, or 0 without fields |
| `Drivers.ParallelRun` | src/compute/parallel_runner.cpp:386-428 | tasks run in any order, their slots added up: the reference modulo 2^64 for every row and thread count, or 0 without fields |
| `Drivers.PoolDelivers` | src/compute/parallel_runner.cpp:404-426 | in every interleaving of the pool, once a client that looked after the tasks were enqueued is back, each task ran once, its slot holds its share, and the slots add up to the reference modulo 2^64, or 0 without fields |
| `Drivers.FieldlessCounts` | src/compute/parallel_runner.cpp:171-177 | 1 > 0 counts every row, so a worker's 0 is wrong for every table but the empty one |
| `Drivers.FieldlessRuns` | src/compute/parallel_runner.cpp:171-177 | installed and run on any non-empty table, it counts all rows serially and none in parallel |
| `Native.MapFields` | src/api/engine.cpp:490-502 | every field is found at the planes of its own name |
| `Native.FieldFound` | src/api/engine.cpp:511-516 | in planes laid out block by block, field by field, the kernel's pointer for a field of a block is at that field's sliced column |
| `Native.AggregateFull` | src/api/engine.cpp:518-548 | unmasked aggregation, sixteen weights at a time, is the aggregate of a full block |
| `Native.ExecuteNative` | src/api/engine.cpp:470-553 | on pre-sliced whole blocks the total is the reference modulo 2^64 |
| `Native.ExecuteNativeParallel` | src/api/engine.cpp:555-636 | so is the total over several threads, whichever number is asked for or set; no threads at all give 0 |
| `Vector.ExecuteVector` | src/api/engine.cpp:638-696 | a row of a mask gives 1 where the root holds and 0 elsewhere; for a number, the result times the precision is the signed reading of the root's value |
| `Vector.SignedFixed` | src/api/engine.cpp:672-690 | that reading is the one number between -2^63 and 2^63 - 1 of the value's residue |
| `Vector.ScaledBack` | src/api/engine.cpp:672-691 | multiplying the precision back in recovers the row's value modulo 2^64 |
| `Vector.VectorTotal` | src/api/engine.cpp:665-692 | the signed values of the rows add up, modulo 2^64, to the reference of the summing runs |
| `ScalarDriver.ScalarBlock` | src/api/engine.cpp:240-309 | on raw columns the scalar kernel's masked count of a block is the number of rows on which the root, as run, holds, whatever the stale lanes held |
| `ScalarDriver.ExecuteScalar` | src/api/engine.cpp:374-415 | a serial run of a scalar kernel counts the rows on which the root, as run, holds, subtractions exact, for every row count |
| `ScalarDriver.SameReference` | src/api/engine.cpp:127-131 | without subtractions such a count is the reference of a bit-sliced run of that graph |
| `Partition.TilesOnce` | src/compute/parallel_runner.cpp:404-417 | with consecutive ranges every element below the total lies in exactly one, and no other in any |
| `Partition.SplitRows` | src/compute/parallel_runner.cpp:393-417 | ranges are non-empty, consecutive, start on multiples of 64 and cover all rows, for every total and thread count, each starting an equal share after the one before |
| `Partition.BlocksMost` | src/compute/parallel_runner.cpp:398-399 | that share is the most whole blocks that all threads can have alike, or one block |
| `Partition.SplitEven` | src/api/engine.cpp:588-589 | equal runs of blocks, the most that all threads can have alike (`Partition.EachMost`), with the rest for the last thread cover every block once |
| `Partition.SplitProportional` | src/api/engine.cpp:340-342 | proportional cuts cover every block once, and no two parts differ by more than one block |
| `ThreadPool.InvRun` | src/compute/parallel_runner.cpp:50-106 | every run of the pool keeps its invariant |
| `ThreadPool.TasksConserved` | src/compute/parallel_runner.cpp:50-106 | in every run an enqueued task is queued, held by one worker or finished, exactly one of these, and no other task is any |
| `ThreadPool.BackWhenDone` | src/compute/parallel_runner.cpp:92-95 | the look that lets a client return sees exactly the submitted tasks finished |
| `ThreadPool.WaitReturnsDone` | src/compute/parallel_runner.cpp:92-95 | of any number of clients sharing the pool, if a task is enqueued before the look that lets one return, it has run once from then on and its result is in place |
| `ThreadPool.WokenWhenIdle` | src/compute/parallel_runner.cpp:68-72 | a worker that finishes wakes every sleeping client if it leaves the pool idle, and none otherwise |
| `ThreadPool.WaitingMoves` | src/compute/parallel_runner.cpp:50-75 | while any client waits some step of the pool is possible: no wake-up is missed |
| `ThreadPool.InternalRunsEnd` | src/compute/parallel_runner.cpp:50-75 | left alone the pool comes to rest within a bounded number of steps |
| `ThreadPool.WaitEnds` | src/compute/parallel_runner.cpp:92-95 | a pool that has come to rest has let every waiting client return, after a bounded number of steps |
| `ThreadPool.ShutdownDrains` | src/compute/parallel_runner.cpp:97-106 | once all workers left, every enqueued task has run once, in every run |
| `ThreadPool.ShutdownEnds` | src/compute/parallel_runner.cpp:97-106 | a pool told to stop comes to rest after a bounded number of steps with all workers gone and every submitted task run |
| `KoggeStone.RoundDoubles` | src/api/engine.cpp:761-794 | after a round at distance d every lane summarises a window of 2d planes |
| `KoggeStone.GroupScanSpans` | src/api/engine.cpp:761-795 | after five rounds each lane summarises all planes of its group up to itself |
| `KoggeStone.ShaderAddIsRipple` | src/api/engine.cpp:900-922 | the joined prefix scan adds exactly as the ripple adder does, plane by plane |
| `KoggeStone.ShaderSubValue` | src/api/engine.cpp:923-951 | the exact number the shader's subtraction leaves in every lane |
| `KoggeStone.SubtractionsAgree` | src/api/engine.cpp:923-951 | it agrees with the compiled subtraction exactly in row 0 and where the difference is odd |
| `Threshold.CompileComparison` | src/jit/compiler.cpp:91-183 | the emitted blocks follow the threshold's bits from 63 down |
| `Threshold.BitsScan` | src/jit/compiler.cpp:135-163 | the specialised blocks do what the general comparator does on constant planes |
| `Threshold.ComparisonKernel` | src/jit/compiler.cpp:91-183 | the kernel marks exactly the rows whose field exceeds the threshold |
| `Threshold.BlockCount` | src/api/engine.cpp:431-439 | zero padding never exceeds a threshold, so the unmasked count of a block is exact |
| `Threshold.ExecuteThreshold` | src/api/engine.cpp:418-442 | the legacy count is the number of rows above the threshold, for every row count |
| `ProcessTree.FlagMeansDescent` | src/host/policy_engine.cpp:71-108 | in every history a process is flagged if and only if a chain of execs in force leads from it to an origin of the flag |
| `ProcessTree.FlagMeansAncestry` | src/host/policy_engine.cpp:71-108 | when no process execs twice, if and only if it or a recorded ancestor met the entry rule |
| `ProcessTree.ExecFlags` | src/host/policy_engine.cpp:71-108 | after any history, an exec flags its process if and only if the parent is flagged or one of four interpreters is started by a process other than the first; nothing else changes a flag |
| `Policy.PolicyValue` | src/host/policy_engine.cpp:30-57 | the compiled policy expression equals the hand-written violation check on every record |
| `Policy.PolicyReference` | src/host/policy_engine.cpp:145-153 | its reference over records is the number of violations |
| `Policy.SensitiveMeans` | src/host/policy_engine.cpp:119-130 | a path is sensitive if and only if it is one of twelve patterns with anything before and after it |
| `Policy.PolicyEngine.constructor` | src/host/policy_engine.cpp:12-58 | building the engine always succeeds in installing the policy |
| `Policy.PolicyEngine.ProcessEvent` | src/host/policy_engine.cpp:60-143 | the tree follows the history, the record carries the process's flag and classification, and it is a violation if and only if a flagged process opens a sensitive path or connects |
| `Policy.PolicyEngine.RegisterProcess` | src/host/policy_engine.cpp:161-164 | a registration sets one flag and no other |
| `Policy.PolicyEngine.UnregisterProcess` | src/host/policy_engine.cpp:166-169 | a removal clears one entry and no other flag |
| `Policy.PolicyEngine.EvaluateBatch` | src/host/policy_engine.cpp:145-153 | the compiled run counts exactly the violating records |
| `Collector.AlarmIsLate` | src/host/main.cpp:177-183 | a batch with a violation holds a record accepted while the machine was not running |
| `Collector.SyscallBatchCollector.Classify` | src/host/main.cpp:63-65 | under the tree's lock a reader's event extends the history and becomes a record with its flag and classification |
| `Collector.SyscallBatchCollector.Decide` | src/host/main.cpp:67-124 | a violation seen while the machine runs schedules its stop and is dropped; any other record is cleared, with what was seen |
| `Collector.SyscallBatchCollector.Push` | src/host/main.cpp:144-148 | under the queue's lock a cleared record is appended, whatever other readers, the worker and the stopping thread did in between |
| `Collector.SyscallBatchCollector.AddEvent` | src/host/main.cpp:63-149 | the three steps in a row: the event's record, with its flag and classification, is not queued if it is a violation in a running machine, and otherwise is, in order |
| `Collector.SyscallBatchCollector.FinishStop` | src/host/main.cpp:118-123 | the scheduled stop halts the machine and asks for shutdown, records untouched |
| `Collector.SyscallBatchCollector.TakeBatch` | src/host/main.cpp:161-175 | once awake with 64 records or the stop flag seen, the worker takes exactly the 64 oldest records, or leaves |
| `Collector.SyscallBatchCollector.CheckBatch` | src/host/main.cpp:177-211 | evaluated batches, the batch in flight and pending records stay the accepted records in order; any violation halts the machine |
| `Closing.BatchNoticed` | src/host/main.cpp:144-148 | in every run a worker with 64 records before it neither sleeps nor is about to |
| `Closing.RecordsCounted` | src/host/main.cpp:144-175 | in every run the records queued are those pending, in the batch in hand and in whole batches evaluated |
| `Closing.ViolationEnds` | src/host/main.cpp:161-211 | in every run the worker is gone after a batch with a violation, and otherwise only once told to stop |
| `Closing.ClosingEnds` | src/host/main.cpp:55-61 | closing joins the worker, after a bounded number of steps, if and only if the notification does not fall between the worker's look and its sleep |
| `Closing.WakeUpLost` | src/host/main.cpp:161-170 | a run in which it does, and the worker sleeps on |
| `Closing.StoredApart` | src/host/main.cpp:55-61 | it cannot when the flag is stored while the worker does not hold the queue's lock |

## Left out

- AsmJit, executable memory, instruction encoding, prologues and epilogues: only the meaning of the emitted instructions is modelled.
- Pointers are tagged values and offsets count words, so byte addressing and alignment are not modelled.
- Highway vectorisation, NEON loads and prefetching: each is written as the scalar loop it vectorises.
- Metal dispatch, barriers and the shader's block reduction: only its lockstep adders are modelled.
- `circuit_library.cpp`: it repeats gate formulas that the compiler inlines.
- MUL, LSL, LSR, POPCNT and INFERENCE_COUNT nodes: no code is emitted for them.
- A SUM below the root, a SUM without operands, and what SUM operands that use a raw weight instead of two constants add up to.
- Independence.LaneIndependence: says nothing of a mask that the copy of a root narrower than 64 planes overwrites past its planes, because that word is whatever the scratchpad held.
- Engine.SetExpression: what a node computes that reads a part of a sum of selections from outside, because the engine evaluates that part itself and no code is emitted for it.
- Native.ExecuteNative: more than eight fields overrun the pointer table, so at most eight are required.
- Native.ExecuteNativeParallel: likewise at most eight.
- Drivers.Worker: more than 32 fields are not gathered and their table entries lie outside the table, so at most 32 are required.
- Drivers.ParallelRun: likewise; its tasks run one at a time, and `Drivers.PoolDelivers` covers their overlap.
- Vector.ExecuteVector: numbers are exact, so the rounding of doubles and a precision of zero are not modelled.
- Backends.ScalarLoopCorrect: a NOT listed after the computation of a number, or a SUM after that of a mask or of nothing, has no reading as a graph, because a word of the wrong kind or of the row before takes its place; `Backends.ScalarLoopExact` covers these at the level of words.
- ScalarDriver.ExecuteScalar: likewise; also scalar kernels in the parallel, native and row-by-row runs, and roots that are not masks, whose words the aggregators do not read.
- Native.ExecuteNativeParallel: a negative thread setting ends the program and is not modelled.
- Per-node active-bit counts, which the compiler computes and ignores, and narrowed widths chosen by callers of `set_expression`.
- Skip marks that an earlier installation left on shared nodes: the set of skipped nodes is computed afresh.
- Freed scratchpad slots: nothing calls `free_slot`.
- Several schemas or expressions in one engine: one of each is assumed.
- Failed memory allocation and cycle counters.
- Registry, builder, C interface and language bindings: constructors and thin wrappers.
- Guest agent, tracer, machine control, monitor messages, network addresses and timestamps of events.
