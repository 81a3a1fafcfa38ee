# OpenLustre Studio: a verified model

OpenLustre Studio compiles a clocked synchronous dataflow language to C and to
the input of the Kind 2 model checker. Its promise is that the simulator, the
generated C and the prover's input mean the same. This project models the
transformations that promise rests on and proves what they keep, over unbounded
runs and for every program:

* **Clocks.** `Lustre` gives nodes their held-value meaning, `Clocks`,
  `ClockChains` and `Inference` infer and check clocks, `InferenceLimits` shows where inference
  stops short, and `Absence` gives Lustre's own meaning, in which a sampled
  stream is absent between ticks, and proves that held runs compute it.
* **Scheduling.** `Graphs` and `Order` order equations by their same-cycle
  reads, `PassOrder` gives that order in closed form; `Execution` proves that walking such an order computes the one run of
  the node.
* **Clock elimination.** `Declock` and `Declocker` rewrite a clocked node onto
  the base clock, `Typing` shows that it stays well typed, `DeclockMeaning`, `Causality` and `DeclockCausality` prove
  that values and schedulability are kept.
* **The emitted C.** `COperators` is what C's operators compute, `StepMachine` lowers expressions, `EmittedStep` is the
  emitted state and step and its simulation proof, `EmittedChains` relates its
  tick flags to clock inference, `EmissionOrder` says which
  emission orders are good enough, and `CallRuns` what stateful callees do under
  a clock.
* **Activations.** `Activation` and `Lowering` lower a prioritized activate-if
  to sampled equations, `LastMeaning` says what `last` means and
  `ActivationTyping` that the result is well typed; `ActivationClocks`, `ActivationRuns`, `FilteredRuns`
  and `ActivationMeaning` prove it against a machine that runs only the selected
  branch.
* **Machine integers.** `CIntegers` is C's fixed-width arithmetic (ISO/IEC
  9899:2011), `Intervals` and `RteBounds` the interval analysis, `Rte`,
  `RteSound`, `RteHoist`, `RteMemories` and `RteNode` the runtime-error checks and why they are
  enough, `RteAlarms` why none is too strong, `RteLimits` where they are not, and `Propagate` and `PropagateRuns`
  how checks reach the root.
* **Around the compiler.** `ConstantCycles`, `Includes`, `Routes`, `Loader` and
  `NativeProject` are graph traversals, `Positions` the order of places in a tree, `Contracts` and `Monitor` the contract
  observer and its run-time monitor, `CivilDate` the date of an evidence report,
  `FreshNames` and `Options` what several of them share.

Code that updates state in place is modelled by classes and loops (`Rewriter`,
`LastHolders`, `Lowerer`, `Instance`, `Hoister`, `Instrumenter`, `LoadState`,
`ProjectGraph`, `Monitor`, the schedulers and traversals), each proved against a
specification function; what the code promises is proved of those functions.

An uninitialized `pre` has the value `Undef`, which every operator passes on.
"No undefined value" therefore stands for the rule that every `pre` is under a
`->`, stated by what happens in a run.

## Model

| member | source | states |
|---|---|---|
| Inference.InferClocks | crates/ol_ir/src/clocks.rs:139-216 | the clocks found are those of the repeated passes, only ports and defined variables get one, the chains are the sampled clocks of `pre` and `->`, and no error is listed exactly when every equation passes the check under them |
| ClockChains.ParentsPrecede | crates/ol_ir/src/clocks.rs:109-112 | in the list of chains, sorted by key, every clock comes after those it samples |
| ClockChains.SortChains | crates/ol_ir/src/clocks.rs:204-216 | the chains are listed once each, by key |
| EmittedChains.TickFlagsAreChains | crates/ol_clite_emit/src/lib.rs:727-805 | the tick flags of the emitted state are exactly the chains listed for a well-clocked node |
| Clocks.ViolationFree | crates/ol_ir/src/clocks.rs:277-412 | an expression obeys the clock rules exactly when the top-down check reports nothing and every name in it has a clock |
| Clocks.NaturalIsFirst | crates/ol_ir/src/clocks.rs:222-275 | an expression takes the clock of its first operand, in reading order, that has one |
| Inference.AfterTruncated | crates/ol_ir/src/clocks.rs:145-175 | whatever right assignment of clocks a node has, no pass ever finds anything but an initial piece of the right clock |
| Inference.AnyOrderFound | crates/ol_ir/src/clocks.rs:142-175 | in any order of equations inference finds the right clocks and reports nothing if they settle one after the other: by a leading operand found before, promptly, or, where no wrong clock can come, by any operand found before |
| Inference.NoneWaitsFindable | crates/ol_ir/src/clocks.rs:142-175 | so they do if no sampled equation that is not prompt waits for itself through leading operands |
| InferenceLimits.NoneWrongFoundWhen | crates/ol_ir/src/clocks.rs:142-175 | where no equation can be given a wrong clock, inference finds all clocks exactly when they settle one after the other |
| InferenceLimits.OneLevelNeverWrong | crates/ol_ir/src/clocks.rs:223-245 | variables sampled from the base clock, not by a merge, are never given a wrong clock |
| InferenceLimits.TwinFound | crates/ol_ir/src/clocks.rs:142-175 | two streams on one clock that remember each other and wait for each other, and whose clocks are found |
| InferenceLimits.OwnMemoryIsPrompt | crates/ol_ir/src/clocks.rs:142-175 | a stream sampled from the base clock that remembers its own past is prompt |
| Inference.InOrderFound | crates/ol_ir/src/clocks.rs:142-175 | so it does, without that condition, when sampled variables are defined before they are used |
| InferenceLimits.SelfCorrectingWhen | crates/ol_ir/src/clocks.rs:145-175 | the passes repair every wrong starting point exactly when no sampled equation waits for itself through leading operands and each mentions a variable |
| InferenceLimits.MisledForever | crates/ol_ir/src/clocks.rs:145-175 | equations whose leading operands are each other's variables keep a wrong clock through every pass |
| InferenceLimits.WellClockedNodeReported | crates/ol_ir/src/clocks.rs:139-216 | a four-equation node that obeys the rules on grounded clocks and for which inference still reports an error |
| Clocks.KeyInjective | crates/ol_ir/src/clocks.rs:47-55 | clocks with equal keys are equal, so no two clocks share state |
| Absence.InferredIsWellClocked | crates/ol_ir/src/clocks.rs:139-216 | the clocks inferred make the node well clocked, every clock sampling where its condition lives, exactly when nothing is reported and every variable got a clock |
| Absence.UndeterminedLocalClashes | crates/ol_ir/src/clocks.rs:175-200 | a node with nothing reported in which a counter got no clock and clashes with a sampled operand |
| Absence.HeldIsFaithful | crates/ol_ir/src/clocks.rs:12-16 | every held run of a well-clocked node, seen with absence between ticks, is a run of the absence semantics in which `pre` and `->` count ticks; no operands ever clash |
| Absence.AbsenceIsHeld | crates/ol_ir/src/clocks.rs:12-16 | and every absence run, held between ticks and at the default before the first, is a held run |
| Order.EvaluationOrder | crates/ol_ir/src/order.rs:86-132 | succeeds exactly on acyclic reads, with each equation once after all it reads, sorted by pass number and declaration; among ready equations declaration order wins exactly when none is ready before its own pass |
| Order.Schedule | crates/ol_ir/src/order.rs:109-131 | the ready-list passes themselves, over any dependency graph |
| PassOrder.PassesList | crates/ol_ir/src/order.rs:109-131 | `k` passes list exactly the equations whose pass number is at most `k`, by pass number and then by declaration |
| PassOrder.PassesUnique | crates/ol_ir/src/order.rs:109-131 | a graph has one pass numbering |
| PassOrder.Numbering | crates/ol_ir/src/order.rs:109-131 | and, being acyclic, has one |
| PassOrder.TieBreakWhen | crates/ol_ir/src/order.rs:86-89 | declaration order wins among the ready exactly when each equation of a later pass reads one of its own pass or the last one of the pass before |
| PassOrder.FirstPassBackward | crates/ol_ir/src/order.rs:109-131 | the first pass takes exactly the equations that depend on earlier ones only |
| Order.ReadyYetOvertaken | crates/ol_ir/src/order.rs:86-89 | `x = y`, `y = a`, `z = b` execute in the order `y`, `z`, `x` although `x` is ready before `z` |
| Execution.OrderComputesTheRun | crates/ol_ir/src/order.rs:86-89 | walking an order of reads and gates computes a run on any inputs, and it is the only one |
| Execution.UniqueRun | crates/ol_ir/src/order.rs:86-89 | a causal system has one run for its inputs |
| Execution.PreIsPast | crates/ol_ir/src/order.rs:17-22 | a `pre` depends on the past only and reads nothing in its own cycle |
| Lustre.ArithmeticLaws | crates/ol_sim/src/lib.rs:1457-1516 | sums, differences, products and negation, each by what it undoes or adds up |
| Lustre.OrderLaws | crates/ol_sim/src/lib.rs:1457-1516 | order and equality, each by the others |
| Lustre.LogicLaws | crates/ol_sim/src/lib.rs:1457-1516 | the logical operators by `not` and `or`, and these by the truth values |
| Declocker.DeclockNode | crates/ol_ir/src/declock.rs:74-140 | fails exactly on a clock error, an operand of no evident type or an undeclared clocked variable; else the result is exactly the flags, first-tick flags, holds and images, uniquely defined, with locals of the right types and the callees' output types for the defaults of clocked calls |
| Declocker.Rewriter.Rewrite | crates/ol_ir/src/declock.rs:247-343 | the rewriting of one expression under the grown tables, and exactly when it fails |
| Declocker.Rewriter.ActExpr | crates/ol_ir/src/declock.rs:186-195 | a flag for the clock and, first, for each of its parents |
| Declocker.Rewriter.RewriteEquation | crates/ol_ir/src/declock.rs:208-236 | the equation gated by its clock's flag, holding otherwise |
| Typing.DeclockedWellTyped | crates/ol_ir/src/declock.rs:74-140 | of a well-typed node every equation of the result is well typed: flags, holds and images have the types they are declared with, and every default fits |
| Typing.HoldsWellTyped | crates/ol_ir/src/declock.rs:345-370 | a hold is declared with the type of every value its operand takes in a run whose variables have their declared types |
| Typing.ValueTyped | crates/ol_ir/src/declock.rs:345-370 | in such a run an expression has values of its own type only |
| Typing.DefaultIsZero | crates/ol_clite_emit/src/lib.rs:473-478 | the default of a type is of that type, and is what zeroed memory holds |
| DeclockMeaning.DeclockPreserves | crates/ol_ir/src/declock.rs:74-343 | at every cycle every original variable has its held value, `act` is the clock's activity and `first` says it never ticked before |
| DeclockCausality.DeclockedAccepted | crates/ol_ir/src/declock.rs:74-140 | what the pass makes of a node under inferred clocks meets the premises of the next rows, if all variables got clocks and the node can be ordered |
| DeclockCausality.DeclockEveryRun | crates/ol_ir/src/declock.rs:74-343 | every run of the base-clock program on the node's inputs agrees with the held run, whatever an uninitialized `pre` gives |
| DeclockCausality.DeclockSomeRun | crates/ol_ir/src/declock.rs:74-343 | and there is such a run |
| DeclockCausality.DeclockedAcyclic | crates/ol_ir/src/declock.rs:89-125 | if the clocked node can be ordered, so can the base-clock program with its flags, first-tick flags and holds |
| Causality.GatesCloseNoCycle | crates/ol_ir/src/declock.rs:208-236 | adding an edge from every equation to the conditions of its clock closes no cycle among the original equations |
| CallRuns.HistoryFilters | crates/ol_ir/src/declock.rs:287-309 | the stream a clocked instance runs on lists its arguments at the ticks, each at the place of its tick, and nothing else |
| CallRuns.CondactFilters | crates/ol_ir/src/declock.rs:287-309 | a declocked call has run on that stream, shows its last answer between ticks and the default of its output type before the first |
| CallRuns.GuardedCallFilters | crates/ol_clite_emit/src/lib.rs:543-581 | so has the same call inside its C guard, with the memory of `sub_N` and the variable's held value |
| EmittedStep.Instance.Step | crates/ol_clite_emit/src/lib.rs:457-617 | one emitted step on the instance's fields is the specified next state and outputs |
| EmittedStep.MachineSimulates | crates/ol_clite_emit/src/lib.rs:457-617 | after init and every step `prev_`, `held_`, tick flags, `initialized` and `sub_N` say of the past what the dataflow does |
| EmittedStep.EmittedRefines | crates/ol_clite_emit/src/lib.rs:457-617 | emitted in an order of reads and gates, every variable has its dataflow value in every cycle of every run |
| EmissionOrder.ReadsOrderGatesWhen | crates/ol_ir/src/order.rs:17-60 | ordering by reads alone puts every gate first exactly when each gate is reached by reads from what it gates |
| EmissionOrder.EmissionOrder | crates/ol_clite_emit/src/lib.rs:457-541 | equations are emitted in evaluation order, or in declaration order on a cycle of reads; if gates are reached by reads the listing is one of reads and gates exactly when there is no such cycle |
| EmissionOrder.ScheduledRefines | crates/ol_clite_emit/src/lib.rs:457-617 | emitted in any order the scheduler may give, such a node computes the dataflow |
| EmissionOrder.LateGateTest | crates/ol_clite_emit/src/lib.rs:543-581 | an equation emitted before its gate runs as if the gate were false: never if it wants it true, regardless of it if it wants it false |
| EmissionOrder.LateGateNeverRuns | crates/ol_clite_emit/src/lib.rs:543-581 | wherever it stands, an equation that wants a later gate true shows its default forever |
| EmissionOrder.GateReadTooEarly | crates/ol_ir/src/order.rs:22 | a node of three equations whose emission order makes the C start `x` exactly when the node does not, for both polarities |
| StepMachine.PrintedOperator | crates/ol_clite_emit/src/lib.rs:1085-1113 | the C operator printed for each operator, an or of a negation for `=>` and `^` for `xor`, computes it on numbers and 0/1 Booleans |
| StepMachine.LoweredValue | crates/ol_clite_emit/src/lib.rs:1060-1222 | the lowered C expression has the dataflow value of the expression |
| StepMachine.CallsRun | crates/ol_clite_emit/src/lib.rs:1043-1058 | hoisted calls advance each instance by this cycle's arguments and fill the results read |
| Lowering.Lower | crates/ol_ir/src/activation.rs:125-319 | succeeds exactly on acceptable activations, with the specified locals and equations, and which error otherwise |
| Lowering.Validate | crates/ol_ir/src/activation.rs:130-161 | branches, outputs, distinct names, every scope assigning every output; an error names the first fault |
| Lowering.LastHolders.Rewrite | crates/ol_ir/src/activation.rs:334-364 | every `last` replaced by its holder and asked for in reading order |
| LastMeaning.RelastMeans | crates/ol_ir/src/activation.rs:334-364 | read from its holders an expression has the value it has with `last` in it, whatever holders show for `last` |
| LastMeaning.LastsFound | crates/ol_ir/src/activation.rs:334-364 | exactly the occurrences of `last` are found, by their positions in reading order, with the initial values given there |
| LastMeaning.HolderInit | crates/ol_ir/src/activation.rs:176-216 | a holder starts from the initial value at the first position, conditions before scopes, that gives one for its variable, and from the default exactly if none does |
| Activation.CollectRight | crates/ol_ir/src/activation.rs:329-364 | one holder for each variable asked for, with the first explicit initial value |
| Activation.SpellInjective | crates/ol_ir/src/activation.rs:115-118 | no two generated locals are spelled alike |
| ActivationRuns.LoweredClocking | crates/ol_ir/src/activation.rs:218-316 | the lowered equations, with the owner's, are rightly clocked in the order they are listed |
| ActivationMeaning.InferredRunSolves | crates/ol_ir/src/activation.rs:125-319 | inference reports nothing on them, and runs on the inferred clocks are those of the intended ones |
| ActivationMeaning.OneScope | crates/ol_ir/src/activation.rs:218-262 | a scope's clock is active exactly when its branch is the first whose condition, as it was written, holds; exactly one is in every cycle |
| ActivationMeaning.ActivationRefines | crates/ol_ir/src/activation.rs:125-319 | each output is the selected scope's expression, as it was written, evaluated on the stream of that scope's own activations: `pre` and `->` inside count them, and `last` is the value one cycle ago |
| ActivationMeaning.StreamExists | crates/ol_ir/src/activation.rs:125-319 | that stream exists for every run |
| ActivationMeaning.PriorStreamExists | crates/ol_ir/src/activation.rs:185-216 | and so does that of the values one cycle before each activation |
| ActivationTyping.LoweredWellTyped | crates/ol_ir/src/activation.rs:185-316 | every new local is declared with the type of the expression that defines it |
| ActivationTyping.OutputWellTyped | crates/ol_ir/src/activation.rs:304-316 | the merge that defines an output has the type the activation declares for it |
| ActivationMeaning.LastIsPrevious | crates/ol_ir/src/activation.rs:185-216 | `last(v)` is `v` one cycle ago, and its initial value at first |
| ActivationMeaning.ArglessCallKeepsRunning | crates/ol_ir/src/activation.rs:278-295 | a scope value that is a stateful call without arguments is right in a cycle exactly when its scope ran in every cycle before |
| ActivationMeaning.UnanchoredRefines | crates/ol_ir/src/activation.rs:278-295 | a scope value with nothing to sample shows what it is after all cycles, whatever its callees do; it is right if its scope never paused before |
| ActivationClocks.IntendedExists | crates/ol_ir/src/activation.rs:218-316 | the clocks that the rows above take as intended exist, no two generated locals having one name |
| FilteredRuns.FilteredEval | crates/ol_ir/src/activation.rs:263-302 | an expression over samples on a scope's clock has the value of the plain expression on the stream of that clock's ticks |
| CIntegers.WrapIsConversion | crates/ol_cocospec_emit/src/kind2.rs:611-625 | each wrap helper gives a value in range congruent to its argument (section 6.3.1.3) |
| CIntegers.ConversionUnique | crates/ol_cocospec_emit/src/kind2.rs:611-625 | and there is only one such value |
| CIntegers.OmittedWrap | crates/ol_cocospec_emit/src/kind2.rs:580-588 | the wrap may be left out exactly when the target type covers the source type |
| CIntegers.HelpersTruncate | crates/ol_cocospec_emit/src/kind2.rs:590-604 | the division helpers give the truncating quotient and the dividend-signed remainder (section 6.5.5) |
| CIntegers.TruncatingUnique | crates/ol_cocospec_emit/src/kind2.rs:590-604 | and these are the only quotient and remainder of that kind |
| Intervals.MulSound | crates/ol_cocospec_emit/src/rte.rs:311-325 | products lie within the hull of the corner products |
| Intervals.DivSound | crates/ol_cocospec_emit/src/rte.rs:318-326 | truncating quotients lie within the interval, divisors of one sign or not |
| Intervals.ModSound | crates/ol_cocospec_emit/src/rte.rs:327-331 | so do remainders |
| Intervals.BoundsAttained | crates/ol_cocospec_emit/src/rte.rs:305-326 | the ends of the intervals of sums, differences and products, and of quotients by divisors of one sign, are values that occur |
| RteBounds.AnalysisComputes | crates/ol_cocospec_emit/src/rte.rs:280-338 | over all expressions with 64-bit literals and operations of their own type, the analysis overflows 128 bits nowhere exactly when no product does at its largest corner |
| RteBounds.EquationComputes | crates/ol_cocospec_emit/src/rte.rs:280-338 | the same for all that the checks of one equation ask of the analysis |
| RteBounds.SignedProductFits | crates/ol_cocospec_emit/src/rte.rs:311-317 | which no product does if some factor stays within signed 64 bits |
| RteBounds.VariableProduct | crates/ol_cocospec_emit/src/rte.rs:311-317 | a product of two variables overflows the analysis exactly when both are unsigned 64-bit |
| RteBounds.UnhintedProductOverflows | crates/ol_cocospec_emit/src/rte.rs:280-338 | an expression over one signed 64-bit variable whose analysis overflows, its products having no type of their own |
| Rte.WithinMeans | crates/ol_cocospec_emit/src/rte.rs:139-161 | a range check, literals beyond 64 bits included, is true exactly when the value lies in the range |
| Rte.GuardedMeans | crates/ol_cocospec_emit/src/rte.rs:344-352 | a guarded check asks for its condition exactly where its guards hold |
| RteSound.ChecksSuffice | crates/ol_cocospec_emit/src/rte.rs:437-553 | where all checks of an expression hold, C's promoted evaluation is defined, equals the integers' and lies in the interval; no executed division by zero or index out of bounds, and arguments reach callees unchanged |
| RteSound.StoreSuffices | crates/ol_cocospec_emit/src/rte.rs:417-435 | a checked store keeps its value |
| RteAlarms.NoFalseAlarm | crates/ol_cocospec_emit/src/rte.rs:437-553 | a check fails only if an operation executed, or a store made, in that cycle is at fault in the way of the check's kind, or something is divided by zero |
| RteAlarms.NodeAlarm | crates/ol_cocospec_emit/src/rte.rs:232-255 | the same for all checks of a node, its own stores included |
| RteAlarms.FaultlessCycleQuiet | crates/ol_cocospec_emit/src/rte.rs:232-255 | a cycle without any fault fails no check |
| RteHoist.Hoister.HoistEquations | crates/ol_cocospec_emit/src/rte.rs:232-239 | calls are taken out of a node's equations under fresh distinct locals as specified |
| RteHoist.HoistFlattens | crates/ol_cocospec_emit/src/rte.rs:357-415 | no call of a node is left inside another expression |
| RteHoist.HoistNodeMeans | crates/ol_cocospec_emit/src/rte.rs:357-415 | what solves the hoisted node solves the node, and every memory is written with the same value where its clocks tick |
| RteNode.Instrumenter.Run | crates/ol_cocospec_emit/src/rte.rs:240-255 | one fresh local with its defining equation and its kind for each check, in order |
| RteNode.LocalsSayChecks | crates/ol_cocospec_emit/src/rte.rs:344-352 | the check locals are all true exactly when the checks hold |
| RteNode.CycleExact | crates/ol_cocospec_emit/src/rte.rs:232-553 | in a cycle that starts in range with all checks true, C computes, stores, passes to callees and remembers exactly what the integers do |
| RteNode.RunExact | crates/ol_cocospec_emit/src/rte.rs:232-553 | so it does in every cycle of a run whose checks are always true, calls and array literals included |
| RteMemories.NodeMatch | crates/ol_cocospec_emit/src/rte.rs:357-415 | moving calls out leaves each `pre` one place, written on the same ticks, and adds none |
| RteMemories.MemoriesFollow | crates/ol_cocospec_emit/src/rte.rs:357-415 | so equal memories stay equal through a cycle |
| RteMemories.HoistedRunExact | crates/ol_cocospec_emit/src/rte.rs:232-553 | if the checks of the hoisted node are always true C does what the integers do, and in that run the node's own equations hold, nested calls and memories included |
| RteLimits.NarrowCounterUnchecked | crates/ol_cocospec_emit/src/rte.rs:268-278 | an 8-bit counter that gets no check, and exactly when what C stores is right |
| RteLimits.UntypedProductUnchecked | crates/ol_cocospec_emit/src/rte.rs:268-278 | a product with its literal first that gets no check, and for which literals it is safe |
| RteLimits.HintedComparisonDiffers | crates/ol_cocospec_emit/src/rte.rs:268-278 | an unchecked comparison with a negative constant on which C and the integers differ, and for which value they do not |
| Propagate.PropagateAll | crates/ol_cocospec_emit/src/rte.rs:611-682 | the root's checks are those of the unfolded call tree in its order, under distinct locals, with the further outputs and defaults each call gets |
| Propagate.Visit | crates/ol_cocospec_emit/src/rte.rs:694-719 | every node once, after all it calls |
| Propagate.EachInstanceOnce | crates/ol_cocospec_emit/src/rte.rs:611-682 | each check of each call instance appears exactly once, with its path |
| PropagateRuns.AlwaysAtRoot | crates/ol_cocospec_emit/src/rte.rs:648-655 | held between ticks and true before the first through any number of clocked calls, a check is always true exactly when it is true on every tick of its instance |
| PropagateRuns.RootSaysAll | crates/ol_cocospec_emit/src/rte.rs:611-682 | in every run of the rewritten project a root local is always true exactly when its check is true on every tick of its instance |
| ConstantCycles.CheckConstantCycles | crates/ol_cli/src/studio_server.rs:1266-1292 | terminates with nothing left exactly when the constants are acyclic; else what is left is the largest set of constants each depending on another of the set |
| ConstantCycles.Tell | crates/ol_cli/src/studio_server.rs:1279-1287 | every pending count is again the number of dependencies not dequeued, and the queue holds exactly the constants with none |
| ConstantCycles.Build | crates/ol_cli/src/studio_server.rs:1270-1277 | counts and user lists of the dependency graph |
| ConstantCycles.GraphAt | crates/ol_cli/src/studio_server.rs:1273-1274 | the graph gives every constant exactly what its value mentions |
| Loader.LoadProject | crates/ol_ir/src/loader.rs:55-60 | succeeds exactly when all reachable files can be read and none includes itself; then each is merged exactly once, in the order of the earliest routes of includes that lead to them, and each error is true of the files |
| Routes.RouteOrderUnique | crates/ol_ir/src/loader.rs:140-157 | that order leaves no choice |
| Loader.LoadState.Load | crates/ol_ir/src/loader.rs:71-98 | the active and loaded sets around one file: restored, and grown only by what finished |
| Includes.TrackEntered | crates/ol_ir/src/loader.rs:75-90 | entering a file under way closes a cycle reachable from the root |
| NativeProject.LoadGraph | crates/ol_ir/src/native_project.rs:124-129 | a verified load succeeds exactly when all reachable projects can be read, none depends on itself, every edge's identity and pin match its target and equal identities have equal content; unverified without pins and content |
| NativeProject.ProjectGraph.VisitActive | crates/ol_ir/src/native_project.rs:175-221 | one project after its dependencies, each edge checked, registered with its unit |
| Contracts.Observe | crates/ol_contract_ir/src/lib.rs:101-160 | one signal for each clause at its own position, with its port and the equation that defines it; inputs, ghost locals and ghost equations are the contract's |
| Contracts.PortInjective | crates/ol_contract_ir/src/lib.rs:113-139 | no two clauses share a port |
| Contracts.DefinedOnce | crates/ol_contract_ir/src/lib.rs:101-139 | the observer defines a variable twice exactly when two ghosts have one name or a ghost has the name of a port |
| Contracts.Verdict | crates/ol_contract_ir/src/lib.rs:205-235 | the active modes, and the failing assumptions, guarantees and ensures of active modes, in order; none exactly when the contract holds |
| Contracts.NoViolations | crates/ol_contract_ir/src/lib.rs:205-235 | nothing is violated exactly when assumptions and guarantees hold and each mode's requires imply its ensures |
| Contracts.ViolationsReported | crates/ol_contract_ir/src/lib.rs:205-235 | exactly the failing clauses are listed, each by its label: assumptions, guarantees, then the ensures of active modes |
| Contracts.LabelTellsNumber | crates/ol_contract_ir/src/lib.rs:205-235 | clauses without a name, and ensures, are labelled with their own number |
| Monitor.Append | crates/ol_clite_emit/src/monitor.rs:39-49 | the buffer holds the appended text cut to its size, with the separator unless it comes first |
| Monitor.Monitor.Check | crates/ol_clite_emit/src/monitor.rs:106-168 | both buffers show what the observer's verdict lists, a violation is never forgotten, and the mode is the last active one, or the old one |
| Monitor.TextIsJoined | crates/ol_clite_emit/src/monitor.rs:39-49 | labels appended one by one make the joined list exactly when there is at most one or the first is not empty |
| Monitor.ReportIsJoined | crates/ol_clite_emit/src/monitor.rs:124-168 | with non-empty labels the buffer shows the joined list cut to its size |
| Monitor.TextEmpty | crates/ol_clite_emit/src/monitor.rs:164-165 | violations show as none exactly when all their labels are empty |
| Monitor.NoneShown | crates/ol_clite_emit/src/monitor.rs:164-165 | a buffer says `<none>` exactly when all labels are empty or their text, cut to the buffer, is that word |
| CivilDate.CivilRight | crates/ol_cli/src/evidence.rs:635-647 | for every day count the date is one of the proleptic Gregorian calendar and has that day count |
| CivilDate.CivilInverse | crates/ol_cli/src/evidence.rs:635-647 | and every date is found from its day count |
| CivilDate.CivilNext | crates/ol_cli/src/evidence.rs:635-647 | day 0 is 1970-01-01 and each day is followed by the next date |
| CivilDate.FourDigits | crates/ol_cli/src/evidence.rs:648 | for which day counts the year has four digits (RFC 3339, section 5.6) |
| CivilDate.TimeRight | crates/ol_cli/src/evidence.rs:637-648 | the fields are those of a clock and give the seconds back |
| FreshNames.PickFresh | crates/ol_ir/src/declock.rs:173-183 | the first numbered name that is not taken |

## Findings

Properties the code does not have, each with an input in a lemma and the
condition under which it holds.

* Inference is not complete. `WellClockedNodeReported`: for `y = 0 -> pre x`,
  `x = (0 -> pre y) + (u when c)`, `u = a when d`, `c = b when d` the first pass
  sees `u when c` before the clock of `c` is known, and `x` and `y` hand the
  wrong clock to each other for good (`MisledForever`). It is complete when the
  clocks settle one after the other (`AnyOrderFound`), which is exact where no
  wrong clock can come (`NoneWrongFoundWhen`), as for variables sampled from the
  base clock (`OneLevelNeverWrong`). The passes mend every wrong start exactly
  when no sampled equation waits for itself, its own past included
  (`SelfCorrectingWhen`). That is more than inference needs: an equation with
  its own memory waits for itself and is found (`OwnMemoryIsPrompt`).
* Nothing reported does not mean well clocked. `UndeterminedLocalClashes`: the
  counter `k = 0 -> pre k + 1` gets no clock and is read beside `a when c`. It
  does exactly when every variable got a clock (`InferredIsWellClocked`).
* The documentation of `evaluation_order` (crates/ol_ir/src/order.rs:86-89) says
  that declaration order wins among equations ready at the same time.
  `ReadyYetOvertaken`: for `x = y`, `y = a`, `z = b` it gives `y`, `z`, `x`,
  as an equation that becomes ready during a pass waits for the next one. The
  model follows the code. Declaration order wins exactly when each equation of
  a later pass reads one of its own pass or the last one of the pass before
  (`TieBreakWhen`, which `EvaluationOrder` returns).
* An accepted order may put an equation before its gate. `GateReadTooEarly`:
  `x = 5 -> pre y`, `d = b`, `y = a when d`. All accepted orders are good exactly
  when every gate is reached by reads (`ReadsOrderGatesWhen`).
* A scope's value made of stateful calls without arguments runs while its scope
  does not (`UnanchoredRefines`, for any callee); it is right if the scope has
  never paused, and for a callee that counts only then (`ArglessCallKeepsRunning`).
* Checks are sought with unhinted types. `NarrowCounterUnchecked`: `0 -> pre n + 1`
  over an 8-bit `n` gets none and is right exactly before the counter reaches its
  end. `UntypedProductUnchecked`: `c * x` with the literal first gets none and is
  safe for every `x` exactly for `c <= 1`. `HintedComparisonDiffers`: `x < 1 - 2`
  over an unsigned `x` gets none and agrees with C exactly for one value of `x`.
* The analyser's 128-bit arithmetic can overflow. `VariableProduct`: exactly for
  two unsigned 64-bit variables. `UnhintedProductOverflows`: also for
  `x + 2*x * (2*x)` over a signed 64-bit `x`, whose products have no type of
  their own. With types of their own, exactly when a largest corner does not fit
  (`AnalysisComputes`).
* A violation with an empty label is shown as no violation (`TextEmpty`,
  `NoneShown`), and an empty first label drops a separator (`TextIsJoined`).

## Left out

- Inference.InferClocks: does not return the clocks of single `pre`, `->` and call sites, which the code keys by address; every function here passes the expected clock down instead.
- Inference.AnyOrderFound: is one way where a variable sampled twice or defined by a merge can be given a wrong clock; which wrong clocks the first pass leaves then depends on the declaration order.
- Clocks.KeyInjective: is for identifiers without `/`, as the language has them.
- Declocker.DeclockNode: equations have one left-hand side, so clocked calls with several outputs and their default lists are not modelled; which of two clocks is named first is not fixed; names of module constants are outside, as every name must be a variable of the node.
- EmittedStep.EmittedRefines: premises are that stateful calls sit on their equation's own clock, that call sites are distinct and that `pre` is applied to variables, as the emitter requires; it says nothing of runs with undefined values.
- DeclockCausality.DeclockEveryRun: is for held runs without undefined values.
- ActivationMeaning.ActivationRefines: is for owners whose variables are on the base clock, and for scope values that read a variable, contain a constant or do not depend on time; the rest is `UnanchoredRefines`.
- ActivationMeaning.OneScope: is for trees whose `last`s ask for known variables, as the lowering demands.
- Lowering.Lower: variables are Boolean or integer, so every `last` has a default and the missing-initial-value error does not occur; output types fall back as in the code, enumerations aside.
- RteNode.RunExact: premises are that no operation and no narrow store owes its type to a hint, and that callees answer values of their type; record fields, real conversions, named constants and characters are not modelled.
- RteSound.ChecksSuffice: fixes LP64, with literals `int` or else `long`; floating point is not modelled.
- RteHoist.HoistNodeMeans: is about one cycle, in which memories of hoisted and original operands are equal; `RteMemories.HoistedRunExact` has it for runs that start so.
- RteMemories.HoistedRunExact: conditional activations are as clock elimination makes them, on a variable that holds only where the clocks around it tick, with constant defaults; no two operands become one, or one two, when calls are moved out.
- RteNode.Evolves: memories are keyed by the operand, so two `pre`s over one operand share one, written when either's clock ticks.
- PropagateRuns.RootSaysAll: is for callee names without `#`.
- Loader.LoadProject: file contents, formats and directory listings are parameters; an include is a resolved path, and what merging does to definitions is the order of files.
- NativeProject.LoadGraph: which of several errors is reported, and which of several paths with one identity and content a unit names, follows the order of dependencies and is not stated; digests are opaque strings computed beforehand; external references and construct lowering, which a verified load also rejects, count as unreadable.
- ConstantCycles.CheckConstantCycles: each constant's mentioned names are given, without repetition, and constants have distinct names.
- Contracts.Verdict: takes the truth of each formula in a cycle as given; that the compiled observer computes it is the subject of the emitted step.
- Monitor.Monitor.Check: a buffer that is not NULL has room for a character, which the emitted code reads; labels contain no NUL, and their escaping in C text is not modelled.
- CivilDate.CivilRight: is over unbounded integers; 64-bit seconds stay far inside.
- Iterators, arrays, records, characters, enumerations and floating point in clocked expressions, division, shifts and bit operations there, and casts of reals: one value type with Booleans and integers stands for all, and `xor` of integers is undefined.
- Text of the emitted C and Lustre, spans, probes, traceability and diagnostics wording: presentation.
- The simulator, the type checker, the slicer and state-machine lowering: inputs are taken as they accept them.
- Servers, processes, provers, hashing and the command line: input and output.
