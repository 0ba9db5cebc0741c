# Behaviour trees, loadouts and tile geometry of the bot toolkit

This project models three parts of a game-bot toolkit and proves properties of the models.

- **The behaviour-tree engine.** There are two implementations with different semantics, and each is its own pair of modules.
  - The Java engine is in `JavaBt`, `JavaBtProps`, `JavaTree` and `JavaBuilder`. Its status has four values: SUCCESS, FAILURE, RUNNING, SLEEPING.
  - The Kotlin engine is in `KotlinBt`, `KotlinBtProps`, `KotlinTree` and `KotlinBuilder`. Its status has three values.
  - A node is a value: a datatype with the node's own fields (cursor, counters, stamps, cached subtree, selected child) and its children.
  - `Tick(n, env)` gives the status, the node's new state and a trace of the callbacks it made. `Reset` rearms a node recursively.
  - Every input from outside is a field of the `Env` record, keyed by node id: the clock, callback outcomes, random draws and suppliers. In the Java engine every callback and supplier the nodes call (actions, conditions, the SleepUntil predicate, the Cooldown and SuccessRate suppliers, the subtree suppliers, an external node's tick) has an outcome that is a value or a throw; a throw the node does not catch makes the tick `Raised`.
  - Where the source loops over children, a method runs the loop and is proved equal to `Tick` or `Reset`. This covers Composite.reset, Sequence, Selector, Parallel, the Kotlin RandomSelector and `run`.
  - `BehaviorTree` and both builders are classes. The builders keep their stacks as sequences. Each builder method is specified by a function on the builder's state, and the builder rules are proved about those functions.
- **Loadouts.** `ItemEntries` models item entries: the `contained` quantity rule, `get`, the pattern string the builders assemble, and both builders. `Loadouts` models `getMissing` and `getInvalid`, the Java `InventoryLoadout`, and the Kotlin inventory and equipment builders. Regex matching and quoting are parameters.
- **Tile geometry.** `Tiles` models region packing, the local-scene tests, local/world translation, square areas, the ring, spiral and square enumerations, and `scanFirst`.
  - The enumerations are loops yielding into a list. Each is proved equal to a function, and the counting and coverage facts are proved about that function.
  - `Sight` models the two Bresenham line-of-sight walks: Kotlin `hasLineOfSightTo` and Java `Projection.hasLineOfSight`. Each walk is a loop method proved equal to a closed-form specification `SightSpec`: every point of a king-move line is free of the flags that block its step.

Where the specification and the code disagree, the model follows the code:
- Java Parallel has no SLEEPING outcome. A tick that is not terminal is RUNNING, and SLEEPING children enter no tally.
- Java Inverter turns SLEEPING into RUNNING.
- Java Selector, Repeater and RetryUntilSuccess treat SLEEPING like FAILURE (Selector and Retry) or like SUCCESS (Repeater).
- Java Cooldown compares against a current tick hard-coded to 0, not against a clock. After its first execution, a positive duration gates every tick until reset.
- Kotlin Sequence, Selector and Parallel do not reset their children on a terminal result.

## Model

| member | source | states |
|---|---|---|
| JavaBt.Reset | src/main/java/com/warren/bt/Composite.java:22-28 | Reset keeps every configuration field of every node kind: only cursors, counters, stamps and caches change |
| JavaBt.ResetCalls | src/main/java/com/warren/bt/DynamicSubTree.java:36-39 | the only host calls a reset makes are the reset() of the external nodes that DynamicSubTrees hold |
| JavaBt.ResetCallsFrom | src/main/java/com/warren/bt/Composite.java:22-28 | the calls of the children's resets, in child order, are external resets only |
| JavaBt.Tick | src/main/java/com/warren/bt/Composite.java:6-8 | a tick never changes a node's kind, ids, policies, limits, sources, child presence or number of children |
| JavaBt.ActionTick | src/main/java/com/warren/bt/Action.java:18-25 | an action's tick leaves the node as it is |
| JavaBt.ConditionTick | src/main/java/com/warren/bt/Condition.java:14-22 | a condition's tick leaves the node as it is |
| JavaBt.SleepTick | src/main/java/com/warren/bt/Sleep.java:31-44 | Sleep's tick keeps its id |
| JavaBt.SleepUntilTick | src/main/java/com/warren/bt/SleepUntil.java:44-62 | SleepUntil's tick keeps its id |
| JavaBt.InverterTick | src/main/java/com/warren/bt/Inverter.java:13-28 | Inverter's tick keeps its child |
| JavaBt.RepeaterTick | src/main/java/com/warren/bt/Repeater.java:18-52 | Repeater's tick keeps its child and its limit |
| JavaBt.RetryTick | src/main/java/com/warren/bt/RetryUntilSuccess.java:17-45 | Retry's tick keeps its child and its limit |
| JavaBt.CooldownTick | src/main/java/com/warren/bt/Cooldown.java:21-46 | Cooldown's tick keeps its id, child and duration source |
| JavaBt.SuccessRateTick | src/main/java/com/warren/bt/SuccessRate.java:23-41 | SuccessRate's tick keeps its id, child and rate source |
| JavaBt.WaitForTick | src/main/java/com/warren/bt/SleepUntil.java:124-152 | the waiting decorator's tick keeps its id and child |
| JavaBt.SubTreeTick | src/main/java/com/warren/bt/SubTree.java:18-29 | SubTree's tick keeps its id, its sharing and its supplier |
| JavaBt.DynamicSubTreeTick | src/main/java/com/warren/bt/DynamicSubTree.java:20-34 | DynamicSubTree's tick keeps its id |
| JavaBt.SequenceFrom | src/main/java/com/warren/bt/Sequence.java:11-31 | Sequence's tick keeps it a Sequence with the same number of children |
| JavaBt.SelectorFrom | src/main/java/com/warren/bt/Selector.java:10-27 | Selector's tick keeps it a Selector with the same number of children |
| JavaBt.RandomSelectorTick | src/main/java/com/warren/bt/RandomSelector.java:15-26 | RandomSelector's tick keeps its id and number of children |
| JavaBt.ParallelFrom | src/main/java/com/warren/bt/Parallel.java:28-71 | Parallel's tick keeps its policies and number of children |
| JavaBt.Chosen | src/main/java/com/warren/bt/RandomSelector.java:15-18 | the child a RandomSelector ticks lies in [0, size), and is the held selection whenever one is held |
| JavaBtProps.ResetIdempotent | src/main/java/com/warren/bt/Composite.java:22-28 | resetting twice is the same as resetting once, for every node kind |
| JavaBtProps.CompositeResetShape | src/main/java/com/warren/bt/Composite.java:22-28 | a composite reset sets the cursor to 0 and resets every child in place, in order |
| JavaBtProps.DecoratorResetShape | src/main/java/com/warren/bt/Decorator.java:19-24 | a decorator reset resets the child when one is present; with no child an Inverter or SuccessRate is unchanged |
| JavaBtProps.LeafReset | src/main/java/com/warren/bt/Sleep.java:47-50 | stateless leaves are unchanged by reset; timed leaves lose their start stamp and re-arm their duration |
| JavaBtProps.ActionRules | src/main/java/com/warren/bt/Action.java:19-25 | an Action returns the supplier's status, FAILURE when the supplier throws, the constant for the constant form, and keeps no state |
| JavaBtProps.ConditionRules | src/main/java/com/warren/bt/Condition.java:15-22 | SUCCESS exactly when the predicate returns true (an exception gives FAILURE); never RUNNING or SLEEPING; no state |
| JavaBtProps.SleepRules | src/main/java/com/warren/bt/Sleep.java:31-44 | the first tick stamps the start; SUCCESS (and a reset) exactly when the armed duration has elapsed, SLEEPING otherwise; never RUNNING or FAILURE |
| JavaBtProps.SleepFreshInterval | src/main/java/com/warren/bt/Sleep.java:38-50 | after a reset the next tick measures a fresh interval from the current time |
| JavaBtProps.SleepUntilRules | src/main/java/com/warren/bt/SleepUntil.java:45-62 | the predicate is tested first: a throw escapes with the start stamped, true succeeds and resets; then the timeout fails and resets, otherwise RUNNING; never SLEEPING |
| JavaBtProps.Ticked | src/main/java/com/warren/bt/Sequence.java:11-31 | ticking children i..k in order replaces exactly those children with their ticked states |
| JavaBtProps.FirstNonSuccess | src/main/java/com/warren/bt/Sequence.java:11-31 | the position where a Sequence's drain stops: every child before it succeeds, the one at it does not |
| JavaBtProps.FirstNonFailing | src/main/java/com/warren/bt/Selector.java:10-27 | the position where a Selector's scan stops: every child before it fails or sleeps, the one at it does neither |
| JavaBtProps.Settle | src/main/java/com/warren/bt/Sequence.java:19-31 | a composite's last step returns the status it is given, resets the node exactly when the status is SUCCESS or FAILURE, and appends that reset's calls to the trace |
| JavaBtProps.SequenceSpecStep | src/main/java/com/warren/bt/Sequence.java:24-27 | passing a succeeding child leaves the closed form of the tick unchanged |
| JavaBtProps.SequenceSpecStop | src/main/java/com/warren/bt/Sequence.java:12-23 | where the loop stops, the loop's result is the closed form |
| JavaBtProps.SequenceFromIsSpec | src/main/java/com/warren/bt/Sequence.java:11-31 | the Sequence loop from any cursor equals the closed form: children from the cursor to the first non-SUCCESS one are ticked, no others |
| JavaBtProps.SequenceFromIsSpecStep | src/main/java/com/warren/bt/Sequence.java:11-27 | the inductive step: from a succeeding child the loop still equals the closed form |
| JavaBtProps.SequenceFromStep | src/main/java/com/warren/bt/Sequence.java:11-27 | a succeeding child is ticked, written back and the loop moves on to the next child with its trace appended |
| JavaBtProps.SequenceRules | src/main/java/com/warren/bt/Sequence.java:6-32 | no children gives SUCCESS; otherwise the tick is the closed form from the cursor |
| JavaBtProps.SequencePauses | src/main/java/com/warren/bt/Sequence.java:14-23 | a RUNNING or SLEEPING result leaves the cursor on the child that answered and resets nothing |
| JavaBtProps.SequenceTerminalResets | src/main/java/com/warren/bt/Sequence.java:19-31 | a FAILURE or SUCCESS result leaves the Sequence fully reset, cursor 0 |
| JavaBtProps.SelectorSpecStep | src/main/java/com/warren/bt/Selector.java:22-23 | passing a child that fails or sleeps leaves the closed form unchanged |
| JavaBtProps.SelectorSpecStop | src/main/java/com/warren/bt/Selector.java:11-21 | where the loop stops, the loop's result is the closed form |
| JavaBtProps.SelectorFromIsSpec | src/main/java/com/warren/bt/Selector.java:10-27 | the Selector loop from any cursor equals the closed form |
| JavaBtProps.SelectorFromIsSpecStep | src/main/java/com/warren/bt/Selector.java:10-24 | the inductive step: from a child that fails or sleeps the loop still equals the closed form |
| JavaBtProps.SelectorFromStep | src/main/java/com/warren/bt/Selector.java:10-24 | a child that fails or sleeps is ticked, written back and the loop moves on with its trace appended |
| JavaBtProps.SelectorRules | src/main/java/com/warren/bt/Selector.java:5-28 | no children gives FAILURE; otherwise the closed form from the cursor; never SLEEPING |
| JavaBtProps.RandomSelectorTickShape | src/main/java/com/warren/bt/RandomSelector.java:10-27 | only the chosen child is ticked and its status is returned; a terminal status clears the selection and resets all children, with their reset calls after the child's trace; otherwise the selection is kept |
| JavaBtProps.RandomSelectorHolds | src/main/java/com/warren/bt/RandomSelector.java:15-26 | after RUNNING or SLEEPING the next tick goes to the same child whatever is drawn |
| JavaBtProps.CountFrom | src/main/java/com/warren/bt/Parallel.java:32-46 | a tally over children i.. never exceeds their number |
| JavaBtProps.FirstRaised | src/main/java/com/warren/bt/Parallel.java:32-46 | the first child from i on whose tick raises an exception, or the end |
| JavaBtProps.ParallelSpecStep | src/main/java/com/warren/bt/Parallel.java:32-46 | a child that returns a status is added to its tally without changing the closed form |
| JavaBtProps.ParallelSpecStop | src/main/java/com/warren/bt/Parallel.java:32-46 | where the pass stops, the pass's result is the closed form |
| JavaBtProps.ParallelFromIsSpec | src/main/java/com/warren/bt/Parallel.java:28-71 | the Parallel pass equals the closed form: every child ticked once, then the verdict on the tallies |
| JavaBtProps.ParallelFromIsSpecStep | src/main/java/com/warren/bt/Parallel.java:32-46 | the inductive step: from a child that returns a status the pass still equals the closed form |
| JavaBtProps.ParallelFromStep | src/main/java/com/warren/bt/Parallel.java:32-46 | a child that returns a status is written back, counted as a success or a failure, and the pass moves on |
| JavaBtProps.ParallelRaisedStop | src/main/java/com/warren/bt/Parallel.java:32-33 | a child whose tick raises ends the pass with the exception, its tick and trace included |
| JavaBtProps.ParallelEndStop | src/main/java/com/warren/bt/Parallel.java:48-71 | past the last child the pass ends with the verdict on the tallies |
| JavaBtProps.ParallelRules | src/main/java/com/warren/bt/Parallel.java:23-72 | no children gives SUCCESS; otherwise every child is ticked once and the verdict is taken on the tallies |
| JavaBtProps.VerdictRules | src/main/java/com/warren/bt/Parallel.java:49-71 | failure rules come before success rules; REQUIRE_ONE means some, REQUIRE_ALL means all; SLEEPING never comes out |
| JavaBtProps.ParallelTerminalResets | src/main/java/com/warren/bt/Parallel.java:49-68 | a terminal result leaves every child reset, including children still RUNNING |
| JavaBtProps.InverterRules | src/main/java/com/warren/bt/Inverter.java:13-28 | no child gives FAILURE; SUCCESS and FAILURE swap; RUNNING and SLEEPING give RUNNING |
| JavaBtProps.DoubleInversion | src/main/java/com/warren/bt/Inverter.java:18-27 | two inverters are the identity on SUCCESS, FAILURE and RUNNING, and turn SLEEPING into RUNNING |
| JavaBtProps.RepeaterRules | src/main/java/com/warren/bt/Repeater.java:18-52 | each child status and its effect on the counter: unbounded always RUNNING, RUNNING keeps the count, FAILURE resets and fails, anything else counts up and completes at max; every child reset adds its calls to the trace |
| JavaBtProps.RepeaterBound | src/main/java/com/warren/bt/Repeater.java:42-58 | between ticks of a bounded Repeater 0 <= repeats < max |
| JavaBtProps.RepeatThree | src/main/java/com/warren/bt/Repeater.java:18-52 | an always-succeeding child under repeat(3) gives RUNNING, RUNNING, SUCCESS |
| JavaBtProps.RetryRules | src/main/java/com/warren/bt/RetryUntilSuccess.java:17-45 | each child status and its effect on the attempt counter: SUCCESS resets and succeeds, RUNNING keeps the count, FAILURE or SLEEPING counts an attempt and fails at max; every child reset adds its calls to the trace |
| JavaBtProps.RetryUnboundedNeverFails | src/main/java/com/warren/bt/RetryUntilSuccess.java:37-44 | with max <= 0 a Retry with a child never reports FAILURE |
| JavaBtProps.RetryBound | src/main/java/com/warren/bt/RetryUntilSuccess.java:34-51 | between ticks of a bounded Retry 0 <= attempts < max |
| JavaBtProps.RetryThree | src/main/java/com/warren/bt/RetryUntilSuccess.java:17-45 | an always-failing child under retry(3) gives RUNNING, RUNNING, FAILURE |
| JavaBtProps.CooldownRules | src/main/java/com/warren/bt/Cooldown.java:21-46 | a duration supplier that throws ends the tick; a stamped cooldown within its duration fails without ticking the child; otherwise the child's status passes through and the stamp is set on the first execution or on a non-RUNNING result |
| JavaBtProps.CooldownStampRange | src/main/java/com/warren/bt/Cooldown.java:26-52 | the stamp is only ever -1 (none) or 0, the hard-coded current tick; reset clears it |
| JavaBtProps.CooldownStuck | src/main/java/com/warren/bt/Cooldown.java:26-35 | once stamped, a positive duration gates every later tick until reset |
| JavaBtProps.CooldownZeroNeverGates | src/main/java/com/warren/bt/Cooldown.java:27-45 | a duration of 0 or less never gates: the child's status comes back unchanged |
| JavaBtProps.SuccessRateRules | src/main/java/com/warren/bt/SuccessRate.java:23-41 | a rate supplier that throws ends the tick; the rate is clamped to [0, 100] and divided by 100; a draw above it fails without ticking, otherwise the child's step passes through |
| JavaBtProps.SuccessRateFull | src/main/java/com/warren/bt/SuccessRate.java:29-40 | a rate of at least 100 always ticks the child, because the draw is below 1 |
| JavaBtProps.SuccessRateNone | src/main/java/com/warren/bt/SuccessRate.java:29-37 | a rate of at most 0 ticks the child only on a draw of exactly 0 |
| JavaBtProps.WaitForRules | src/main/java/com/warren/bt/SleepUntil.java:125-159 | a missing child raises; a child that throws escapes; child SUCCESS resets everything; child FAILURE resets the child only; the timeout fails even over RUNNING; every reset adds its calls to the trace |
| JavaBtProps.SubTreeRules | src/main/java/com/warren/bt/SubTree.java:19-29 | the supplier is called only while no tree is held; a throw escapes and a null result fails, both holding nothing; a held tree's step is returned |
| JavaBtProps.SubTreeReset | src/main/java/com/warren/bt/SubTree.java:32-37 | reset resets the held tree, with its calls, and drops it; a shared tree is kept in its reset state for the next supplier call; with nothing held it changes nothing |
| JavaBtProps.SubTreeRebuilds | src/main/java/com/warren/bt/SubTree.java:18-37 | after a tick and a reset the supplier is called again: a building supplier starts from a fresh tree, a shared one hands back the reset tree |
| JavaBtProps.DynamicSubTreeRules | src/main/java/com/warren/bt/DynamicSubTree.java:21-39 | the supplier runs on every tick; a throw escapes and null fails, keeping the current node; a new identity ends and resets the old node and starts the new one before its tick, whose throw escapes; reset calls the current node's reset and changes nothing else |
| JavaBtProps.FailedSequenceResetsExternal | src/main/java/com/warren/bt/Sequence.java:19-31 | a failing Sequence resets a preceding DynamicSubTree, which calls its external node's reset |
| JavaTree.AddChild | src/main/java/com/warren/bt/Composite.java:10-13 | the child is appended at the end; earlier children and every other field are unchanged |
| JavaTree.WithChildren | src/main/java/com/warren/bt/Composite.java:10-20 | replacing the child list keeps the kind, the cursor and every configuration field |
| JavaTree.AddChildren | src/main/java/com/warren/bt/Composite.java:15-20 | the arguments are appended in argument order |
| JavaTree.CompositeReset | src/main/java/com/warren/bt/Composite.java:22-28 | the reset loop gives exactly Reset, and the calls it makes are exactly ResetCalls |
| JavaTree.SequenceTick | src/main/java/com/warren/bt/Sequence.java:6-32 | the while loop over the cursor gives exactly Tick |
| JavaTree.SelectorTick | src/main/java/com/warren/bt/Selector.java:5-28 | the while loop over the cursor gives exactly Tick |
| JavaTree.ParallelTick | src/main/java/com/warren/bt/Parallel.java:23-72 | the tally loop and the verdict give exactly Tick |
| JavaTree.SetChild | src/main/java/com/warren/bt/Decorator.java:14-17 | the child is replaced and every other field is kept |
| JavaTree.SetChildTwice | src/main/java/com/warren/bt/Decorator.java:14-17 | a second setChild overrides the first, and different children give different decorators |
| JavaTree.AfterShift | src/main/java/com/warren/bt/BehaviorTree.java:66-73 | the state after k+1 ticks is the state after k ticks of the once-ticked tree |
| JavaTree.RunStopsAtFirstNonRunning | src/main/java/com/warren/bt/BehaviorTree.java:66-73 | a finished run returns the first result that is not RUNNING (SLEEPING included), after exactly the ticks before it returned RUNNING |
| JavaTree.RunStillRunning | src/main/java/com/warren/bt/BehaviorTree.java:66-73 | a run that has not finished saw RUNNING from every tick |
| JavaTree.RunRunningBefore | src/main/java/com/warren/bt/BehaviorTree.java:66-73 | a finished run used at most the ticks given, and every tick before its last returned RUNNING |
| JavaTree.BehaviorTree.constructor | src/main/java/com/warren/bt/BehaviorTree.java:79-290 | the tree holds the root it was built with |
| JavaTree.BehaviorTree.Tick | src/main/java/com/warren/bt/BehaviorTree.java:62-64 | the root's tick |
| JavaTree.BehaviorTree.Reset | src/main/java/com/warren/bt/BehaviorTree.java:75-77 | the root's reset and the calls it makes |
| JavaTree.BehaviorTree.Run | src/main/java/com/warren/bt/BehaviorTree.java:66-73 | the do-while over tick ends as RunSpec says |
| JavaBuilder.OpenSpec | src/main/java/com/warren/bt/BehaviorTree.java:86-124 | a new composite joins the top open composite, if any, and is pushed as the new top; staged decorators stay |
| JavaBuilder.StageSpec | src/main/java/com/warren/bt/BehaviorTree.java:183-244 | staging pushes the decorator on the node stack and changes nothing else |
| JavaBuilder.AddNodeSpec | src/main/java/com/warren/bt/BehaviorTree.java:278-290 | addNode keeps the open composites and the builder's invariant |
| JavaBuilder.EndSpec | src/main/java/com/warren/bt/BehaviorTree.java:246-257 | with nothing open end() changes nothing; closing the outermost composite pushes it on the node stack; a nested one only pops |
| JavaBuilder.BuildSpec | src/main/java/com/warren/bt/BehaviorTree.java:268-276 | build succeeds exactly when nothing is open and one node is on the stack, which becomes the root; an open composite is the first error |
| JavaBuilder.ChildAtAdd | src/main/java/com/warren/bt/BehaviorTree.java:278-290 | following a path of decorator children in two parts is following it at once |
| JavaBuilder.Absorb | src/main/java/com/warren/bt/BehaviorTree.java:279-283 | the loop pops a suffix of the node stack made only of decorators and stops at a non-decorator or an empty stack |
| JavaBuilder.AbsorbNests | src/main/java/com/warren/bt/BehaviorTree.java:278-283 | the decorators popped are nested in staging order: the j-th one down is the j-th one staged, and the node handed in sits directly below the last |
| JavaBuilder.DecoratedRootReplaced | src/main/java/com/warren/bt/BehaviorTree.java:279-288 | a second root-level node replaces the child of a decorated root |
| JavaBuilder.StagedBeforeComposite | src/main/java/com/warren/bt/BehaviorTree.java:86-120 | a decorator staged before sequence() wraps the first leaf added inside it, not the composite |
| JavaBuilder.StagedLeftOver | src/main/java/com/warren/bt/BehaviorTree.java:268-276 | a decorator staged after the root with no node after it leaves two nodes, so build fails |
| JavaBuilder.NestedComposite | src/main/java/com/warren/bt/BehaviorTree.java:86-93 | a nested composite closed by end() is its parent's child with every child it received while open |
| JavaBuilder.Builder.constructor | src/main/java/com/warren/bt/BehaviorTree.java:79-84 | a new builder has both stacks empty |
| JavaBuilder.Builder.Open | src/main/java/com/warren/bt/BehaviorTree.java:86-124 | opening a composite is OpenSpec |
| JavaBuilder.Builder.OpenSequence | src/main/java/com/warren/bt/BehaviorTree.java:86-93 | opens an empty Sequence |
| JavaBuilder.Builder.OpenSelector | src/main/java/com/warren/bt/BehaviorTree.java:95-102 | opens an empty Selector |
| JavaBuilder.Builder.OpenRandomSelector | src/main/java/com/warren/bt/BehaviorTree.java:104-111 | opens an empty RandomSelector with no selection |
| JavaBuilder.Builder.OpenParallel | src/main/java/com/warren/bt/BehaviorTree.java:113-120 | opens an empty Parallel with the given policies |
| JavaBuilder.Builder.OpenParallelDefault | src/main/java/com/warren/bt/BehaviorTree.java:122-124 | opens a Parallel whose success needs all children and whose failure needs one |
| JavaBuilder.Builder.AddNode | src/main/java/com/warren/bt/BehaviorTree.java:278-290 | the decorator-popping loop gives exactly AddNodeSpec |
| JavaBuilder.Builder.AddAction | src/main/java/com/warren/bt/BehaviorTree.java:126-134 | adds an Action calling its supplier |
| JavaBuilder.Builder.Succeed | src/main/java/com/warren/bt/BehaviorTree.java:136-140 | adds an Action that always succeeds |
| JavaBuilder.Builder.SucceedAfter | src/main/java/com/warren/bt/BehaviorTree.java:142-147 | adds an Action that runs its callback and succeeds |
| JavaBuilder.Builder.FailAfter | src/main/java/com/warren/bt/BehaviorTree.java:149-154 | adds an Action that runs its callback and fails |
| JavaBuilder.Builder.AddCondition | src/main/java/com/warren/bt/BehaviorTree.java:156-164 | adds a Condition |
| JavaBuilder.Builder.AddSleep | src/main/java/com/warren/bt/BehaviorTree.java:166-170 | adds an unstarted Sleep with its armed duration |
| JavaBuilder.Builder.AddSleepUntil | src/main/java/com/warren/bt/BehaviorTree.java:177-181 | adds an unstarted SleepUntil leaf |
| JavaBuilder.Builder.AddSubtree | src/main/java/com/warren/bt/BehaviorTree.java:206-213 | subtree(tree) adds a SubTree that holds nothing and whose supplier hands out the one given tree |
| JavaBuilder.Builder.AddSubtreeFrom | src/main/java/com/warren/bt/BehaviorTree.java:215-224 | subtree(supplier) adds a SubTree that holds nothing and builds a fresh tree on every supplier call |
| JavaBuilder.Builder.AddCustom | src/main/java/com/warren/bt/BehaviorTree.java:263-266 | adds the given node |
| JavaBuilder.Builder.Stage | src/main/java/com/warren/bt/BehaviorTree.java:183-244 | staging a decorator is StageSpec |
| JavaBuilder.Builder.StageSleepUntil | src/main/java/com/warren/bt/BehaviorTree.java:172-175 | stages a SleepUntil decorator with no child |
| JavaBuilder.Builder.Invert | src/main/java/com/warren/bt/BehaviorTree.java:183-186 | stages an Inverter with no child |
| JavaBuilder.Builder.Repeat | src/main/java/com/warren/bt/BehaviorTree.java:188-195 | stages a Repeater with its limit and count 0 |
| JavaBuilder.Builder.Retry | src/main/java/com/warren/bt/BehaviorTree.java:197-204 | stages a RetryUntilSuccess with its limit and no attempts |
| JavaBuilder.Builder.StageCooldown | src/main/java/com/warren/bt/BehaviorTree.java:226-229 | stages an unstamped Cooldown with a fixed duration |
| JavaBuilder.Builder.StageCooldownFrom | src/main/java/com/warren/bt/BehaviorTree.java:231-234 | the duration supplier is read once, when staging, and its value fixed |
| JavaBuilder.Builder.StageSuccessRate | src/main/java/com/warren/bt/BehaviorTree.java:236-239 | stages a SuccessRate with a fixed rate |
| JavaBuilder.Builder.StageSuccessRateFrom | src/main/java/com/warren/bt/BehaviorTree.java:241-244 | the rate supplier is read once, when staging |
| JavaBuilder.Builder.End | src/main/java/com/warren/bt/BehaviorTree.java:246-257 | closing a composite is EndSpec |
| JavaBuilder.Builder.Build | src/main/java/com/warren/bt/BehaviorTree.java:268-276 | the root or the first failed check, as BuildSpec says |
| KotlinBt.Range | src/main/kotlin/com/warren/bt/RandomSelector.kt:8-11 | the child indices 0 .. k-1 in order |
| KotlinBt.Deal | src/main/kotlin/com/warren/bt/RandomSelector.kt:8-11 | the shuffle deals out exactly the values it was given, whatever the draws |
| KotlinBt.ResetChild | src/main/kotlin/com/warren/bt/Decorator.kt:9-12 | a reset child is present exactly when the child was |
| KotlinBt.Reset | src/main/kotlin/com/warren/bt/Composite.kt:10-13 | reset keeps every configuration field of every node kind |
| KotlinBt.ResetCalls | src/main/kotlin/com/warren/bt/SubTree.kt:5-9 | the only user code a reset runs is the supplier of a SubTree not yet resolved |
| KotlinBt.ResetCallsFrom | src/main/kotlin/com/warren/bt/Composite.kt:10-13 | the calls of the children's resets, in child order, are supplier calls only |
| KotlinBt.Tick | src/main/kotlin/com/warren/bt/Composite.kt:3-4 | a tick never changes a node's kind, ids, durations, policies, limits, supplier, child presence or number of children |
| KotlinBt.SleepTick | src/main/kotlin/com/warren/bt/Sleep.kt:7-12 | Sleep's tick keeps its duration |
| KotlinBt.SleepUntilTick | src/main/kotlin/com/warren/bt/SleepUntil.kt:11-21 | SleepUntil's tick keeps its id and duration |
| KotlinBt.SleepUntilIdleTick | src/main/kotlin/com/warren/bt/SleepUntilIdle.kt:17-45 | SleepUntilIdle's tick keeps its id, durations and bypass |
| KotlinBt.SequenceTick | src/main/kotlin/com/warren/bt/Sequence.kt:6-18 | Sequence's tick keeps its number of children |
| KotlinBt.SelectorFrom | src/main/kotlin/com/warren/bt/Selector.kt:6-20 | Selector's tick keeps its number of children |
| KotlinBt.RandomSelectorTick | src/main/kotlin/com/warren/bt/RandomSelector.kt:7-25 | RandomSelector's tick keeps its id and number of children |
| KotlinBt.RandomFrom | src/main/kotlin/com/warren/bt/RandomSelector.kt:12-24 | each turn along the order keeps the id and number of children |
| KotlinBt.ParallelFrom | src/main/kotlin/com/warren/bt/Parallel.kt:13-46 | Parallel's tick keeps its policies and number of children |
| KotlinBt.InverterTick | src/main/kotlin/com/warren/bt/Inverter.kt:4-11 | Inverter's tick keeps its child |
| KotlinBt.RepeaterTick | src/main/kotlin/com/warren/bt/Repeater.kt:6-17 | Repeater's tick keeps its child and limit |
| KotlinBt.RetryTick | src/main/kotlin/com/warren/bt/RetryUntilSuccess.kt:6-22 | Retry's tick keeps its child and limit |
| KotlinBt.CooldownTick | src/main/kotlin/com/warren/bt/Cooldown.kt:11-30 | Cooldown's tick keeps its child and tick count |
| KotlinBt.SuccessRateTick | src/main/kotlin/com/warren/bt/SuccessRate.kt:10-15 | SuccessRate's tick keeps its id, child and chance |
| KotlinBt.SubTreeTick | src/main/kotlin/com/warren/bt/SubTree.kt:5-6 | SubTree's tick keeps its id and supplier |
| KotlinBtProps.RangeCounts | src/main/kotlin/com/warren/bt/RandomSelector.kt:8-11 | every index below k occurs exactly once in the index range, and no other value |
| KotlinBtProps.TwiceCounted | src/main/kotlin/com/warren/bt/RandomSelector.kt:8-11 | a value at two positions is counted at least twice |
| KotlinBtProps.SameAsRange | src/main/kotlin/com/warren/bt/RandomSelector.kt:8-11 | a sequence with the multiset of 0 .. k-1 lists each index once |
| KotlinBtProps.OrderIsPermutation | src/main/kotlin/com/warren/bt/RandomSelector.kt:8-11 | whatever the draws, the shuffled order names every child exactly once |
| KotlinBtProps.RandomSelectorKeepsOrder | src/main/kotlin/com/warren/bt/RandomSelector.kt:7-30 | tick and reset keep a valid order in place; reset clears it |
| KotlinBtProps.RandomFromShape | src/main/kotlin/com/warren/bt/RandomSelector.kt:12-24 | the walk along the order keeps the kind, id, order and child count |
| KotlinBtProps.ResetIdempotent | src/main/kotlin/com/warren/bt/Composite.kt:10-13 | resetting twice is the same as resetting once, for every node kind |
| KotlinBtProps.CompositeResetShape | src/main/kotlin/com/warren/bt/Composite.kt:10-15 | every child is reset, then onReset: Sequence and Selector to cursor 0, RandomSelector clears its order, Parallel keeps its policies |
| KotlinBtProps.DecoratorResetShape | src/main/kotlin/com/warren/bt/Decorator.kt:9-14 | the child is reset when present, then onReset clears the counters and rearms the cooldown |
| KotlinBtProps.SubTreeReset | src/main/kotlin/com/warren/bt/SubTree.kt:5-9 | reset resolves the root if needed, running the supplier, and resets it; it never clears it |
| KotlinBtProps.ActionRules | src/main/kotlin/com/warren/bt/Action.kt:4 | an Action returns the callback's status and keeps no state; reset changes nothing |
| KotlinBtProps.ConditionRules | src/main/kotlin/com/warren/bt/Condition.kt:5 | SUCCESS exactly when the predicate holds; never RUNNING; no state |
| KotlinBtProps.SleepRules | src/main/kotlin/com/warren/bt/Sleep.kt:7-16 | the first tick stamps the start; RUNNING exactly while the duration has not elapsed, then SUCCESS; never FAILURE; a duration of 0 or less succeeds at once |
| KotlinBtProps.SleepStaysDone | src/main/kotlin/com/warren/bt/Sleep.kt:9-11 | with no automatic reset, a Sleep that succeeded succeeds on every later tick |
| KotlinBtProps.SleepUntilRules | src/main/kotlin/com/warren/bt/SleepUntil.kt:11-25 | a true predicate succeeds without touching the timer; otherwise the start is stamped and the result is RUNNING before the timeout and FAILURE after |
| KotlinBtProps.SleepUntilIdleRules | src/main/kotlin/com/warren/bt/SleepUntilIdle.kt:17-50 | bypass first, then the strict total timeout, then the idle timer, which starts when idle and clears when not; reset clears both timers |
| KotlinBtProps.SequenceRules | src/main/kotlin/com/warren/bt/Sequence.kt:6-18 | at most one child is ticked; SUCCESS advances and reports SUCCESS only at the end; RUNNING and FAILURE keep the cursor and reset nothing |
| KotlinBtProps.SequenceStaysDone | src/main/kotlin/com/warren/bt/Sequence.kt:7-11 | after completion later ticks return SUCCESS and tick nothing |
| KotlinBtProps.SelectorFromRules | src/main/kotlin/com/warren/bt/Selector.kt:6-20 | children fail in order up to the first that does not, whose status is returned with the cursor left on it; exhaustion fails with the cursor at the end |
| KotlinBtProps.SelectorExhausted | src/main/kotlin/com/warren/bt/Selector.kt:7-19 | an exhausted selector fails without ticking anything |
| KotlinBtProps.RandomFromRules | src/main/kotlin/com/warren/bt/RandomSelector.kt:12-24 | the children named by the order fail in turn up to the first that does not, whose status is returned with the position kept; FAILURE exactly when all of them fail |
| KotlinBtProps.RandomSelectorRules | src/main/kotlin/com/warren/bt/RandomSelector.kt:7-25 | an empty order is refilled with a permutation of the child indices from position 0, then the walk runs |
| KotlinBtProps.RandomSelectorExhausted | src/main/kotlin/com/warren/bt/RandomSelector.kt:12-24 | an exhausted order fails without ticking and without a reshuffle |
| KotlinBtProps.RandomSelectorEmpty | src/main/kotlin/com/warren/bt/RandomSelector.kt:8-24 | with no children the order stays empty and every tick fails |
| KotlinBtProps.CountFrom | src/main/kotlin/com/warren/bt/Parallel.kt:20-26 | a tally over children i.. never exceeds their number |
| KotlinBtProps.ParallelFromRules | src/main/kotlin/com/warren/bt/Parallel.kt:13-46 | every child is ticked once, the verdict is taken on the tallies, and no child is reset |
| KotlinBtProps.ParallelRules | src/main/kotlin/com/warren/bt/Parallel.kt:13-46 | no children gives SUCCESS; otherwise the verdict on the tallies of one tick of every child |
| KotlinBtProps.VerdictRules | src/main/kotlin/com/warren/bt/Parallel.kt:30-45 | success is decided before failure; REQUIRE_ALL means all, REQUIRE_ONE at least one; otherwise RUNNING |
| KotlinBtProps.InverterRules | src/main/kotlin/com/warren/bt/Inverter.kt:4-11 | no child gives FAILURE; SUCCESS and FAILURE swap; RUNNING passes through |
| KotlinBtProps.DoubleInversion | src/main/kotlin/com/warren/bt/Inverter.kt:6-10 | two inverters report exactly the child's status |
| KotlinBtProps.RepeaterRules | src/main/kotlin/com/warren/bt/Repeater.kt:6-21 | never FAILURE with a child; RUNNING keeps the count; a completion counts up, resets the child (adding its calls) and succeeds once the limit is reached |
| KotlinBtProps.RepeaterKeepsSucceeding | src/main/kotlin/com/warren/bt/Repeater.kt:12-14 | the count is not cleared on SUCCESS, so every later completion succeeds until reset |
| KotlinBtProps.RepeaterUnbounded | src/main/kotlin/com/warren/bt/Repeater.kt:14 | a negative limit never completes |
| KotlinBtProps.RetryRules | src/main/kotlin/com/warren/bt/RetryUntilSuccess.kt:6-26 | SUCCESS and RUNNING pass through; FAILURE counts an attempt and fails at the limit without a child reset, else resets the child, adding its calls, and runs |
| KotlinBtProps.RetryLimits | src/main/kotlin/com/warren/bt/RetryUntilSuccess.kt:14 | a limit of 0 fails on the first failure; a negative limit never fails |
| KotlinBtProps.CooldownRules | src/main/kotlin/com/warren/bt/Cooldown.kt:11-35 | counting down returns RUNNING without ticking; once started the child is ticked until it completes, then reset with its calls, and the count rearms |
| KotlinBtProps.CooldownKeepsBound | src/main/kotlin/com/warren/bt/Cooldown.kt:15-35 | the remaining count never goes negative or above its start, across ticks and resets |
| KotlinBtProps.Run | src/main/kotlin/com/warren/bt/Cooldown.kt:11-30 | a run of ticks reports one step per world |
| KotlinBtProps.CooldownCountsDown | src/main/kotlin/com/warren/bt/Cooldown.kt:14-18 | k ticks of counting down report RUNNING, call nothing and take k off the count |
| KotlinBtProps.FreshCooldown | src/main/kotlin/com/warren/bt/Cooldown.kt:8-22 | from a fresh cooldown of t >= 0 ticks the first t calls do not tick the child, and call t+1 does, followed by the child's reset calls when it completes |
| KotlinBtProps.RunPrefix | src/main/kotlin/com/warren/bt/Cooldown.kt:11-30 | a run over a prefix of the worlds is the prefix of the run |
| KotlinBtProps.RunAt | src/main/kotlin/com/warren/bt/Cooldown.kt:11-30 | tick k of a run starts from the state tick k-1 left |
| KotlinBtProps.SuccessRateRules | src/main/kotlin/com/warren/bt/SuccessRate.kt:10-15 | chance <= 0 fails without ticking; chance >= 1 passes the child's status through (FAILURE with no child); otherwise a draw above the chance fails |
| KotlinBtProps.SubTreeRules | src/main/kotlin/com/warren/bt/SubTree.kt:5-6 | the supplier runs on the first tick only; afterwards the tick is the resolved root's tick |
| KotlinTree.WithChildren | src/main/kotlin/com/warren/bt/Composite.kt:4-8 | replacing the child list keeps the kind and every configuration field |
| KotlinTree.AddChild | src/main/kotlin/com/warren/bt/Composite.kt:6-8 | the child is appended at the end and nothing else changes |
| KotlinTree.AssignChild | src/main/kotlin/com/warren/bt/Decorator.kt:5-7 | the child is replaced and every other field is kept |
| KotlinTree.AssignChildTwice | src/main/kotlin/com/warren/bt/Decorator.kt:5-7 | a second assignChild overrides the first, and different children give different decorators |
| KotlinTree.CompositeReset | src/main/kotlin/com/warren/bt/Composite.kt:10-13 | the forEach over the children, then onReset, gives exactly Reset, and the calls are exactly ResetCalls |
| KotlinTree.SelectorTick | src/main/kotlin/com/warren/bt/Selector.kt:6-20 | the while loop gives exactly Tick |
| KotlinTree.RandomSelectorTick | src/main/kotlin/com/warren/bt/RandomSelector.kt:7-25 | on a valid shuffle order, the loop along the order gives the Kotlin model's closed form: the first child in shuffled order that does not fail answers, and FAILURE when all fail |
| KotlinTree.RandomStep | src/main/kotlin/com/warren/bt/RandomSelector.kt:12-24 | one turn of the loop: a failing child moves to the next position, any other status stops there |
| KotlinTree.Untouched | src/main/kotlin/com/warren/bt/RandomSelector.kt:12-24 | writing back one child leaves the children named later in the order untouched |
| KotlinTree.ParallelTick | src/main/kotlin/com/warren/bt/Parallel.kt:13-46 | the counting loop and the verdict give exactly Tick |
| KotlinTree.AfterShift | src/main/kotlin/com/warren/bt/BehaviorTree.kt:8-14 | the state after k+1 ticks is the state after k ticks of the once-ticked tree |
| KotlinTree.RunStopsAtFirstNonRunning | src/main/kotlin/com/warren/bt/BehaviorTree.kt:8-14 | a finished run returns the first status that is not RUNNING, after exactly the RUNNING ticks before it |
| KotlinTree.RunRunningBefore | src/main/kotlin/com/warren/bt/BehaviorTree.kt:8-14 | a finished run used at most the ticks given, and every tick before its last returned RUNNING |
| KotlinTree.BehaviorTree.constructor | src/main/kotlin/com/warren/bt/BehaviorTree.kt:5 | the tree holds its root |
| KotlinTree.BehaviorTree.Tick | src/main/kotlin/com/warren/bt/BehaviorTree.kt:6 | the root's tick |
| KotlinTree.BehaviorTree.Reset | src/main/kotlin/com/warren/bt/BehaviorTree.kt:16 | the root's reset and the supplier calls it makes |
| KotlinTree.BehaviorTree.Run | src/main/kotlin/com/warren/bt/BehaviorTree.kt:8-14 | the do-while over tick ends as RunSpec says |
| KotlinBuilder.WrapAll | src/main/kotlin/com/warren/bt/BehaviorTree.kt:28-33 | the staged decorators wrapped around a node, the last staged innermost and the first staged outermost |
| KotlinBuilder.WrapFront | src/main/kotlin/com/warren/bt/BehaviorTree.kt:28-33 | the first staged decorator holds the rest of the wrapping |
| KotlinBuilder.GraftWrap | src/main/kotlin/com/warren/bt/BehaviorTree.kt:28-48 | grafting through the wrapping puts the new node where the wrapped one was |
| KotlinBuilder.AttachSpec | src/main/kotlin/com/warren/bt/BehaviorTree.kt:27-40 | attach keeps the builder's invariant |
| KotlinBuilder.OpenSpec | src/main/kotlin/com/warren/bt/BehaviorTree.kt:43-44 | attaching and opening a composite keeps the invariant |
| KotlinBuilder.CloseSpec | src/main/kotlin/com/warren/bt/BehaviorTree.kt:46 | closing the innermost composite keeps the invariant |
| KotlinBuilder.StageSpec | src/main/kotlin/com/warren/bt/BehaviorTree.kt:86-109 | staging a decorator keeps the invariant |
| KotlinBuilder.Exec | src/main/kotlin/com/warren/bt/BehaviorTree.kt:27-109 | after an error nothing more happens; a call that raises nothing leaves as many composites open as it found; the only error raised is "Root already set" |
| KotlinBuilder.ExecAll | src/main/kotlin/com/warren/bt/BehaviorTree.kt:19 | the same three facts for a block of calls |
| KotlinBuilder.BuildSpec | src/main/kotlin/com/warren/bt/BehaviorTree.kt:117-121 | build succeeds exactly when no error was raised, nothing is open and a root is set; otherwise the error, "Unclosed" or "No root" |
| KotlinBuilder.NeverUnclosed | src/main/kotlin/com/warren/bt/BehaviorTree.kt:19-48 | a block run from a fresh builder never leaves a composite open, so building it can only fail on the root |
| KotlinBuilder.ExecFrame | src/main/kotlin/com/warren/bt/BehaviorTree.kt:27-109 | a call leaves the composites below the innermost one and the root alone |
| KotlinBuilder.ExecAllFrame | src/main/kotlin/com/warren/bt/BehaviorTree.kt:27-109 | a block leaves the composites below the innermost one and the root alone |
| KotlinBuilder.WithChildrenTwice | src/main/kotlin/com/warren/bt/Composite.kt:6-8 | a second child-list replacement overrides the first |
| KotlinBuilder.OpenAttachesWhole | src/main/kotlin/com/warren/bt/BehaviorTree.kt:42-48 | composite(node, block) ends as if the finished composite, with the children its block gave it, had been attached in one step |
| KotlinBuilder.CloseGrafts | src/main/kotlin/com/warren/bt/BehaviorTree.kt:42-48 | closing the scope grafts the finished composite where it was attached |
| KotlinBuilder.DecoratedComposite | src/main/kotlin/com/warren/bt/BehaviorTree.kt:42-48 | a decorator staged before a composite wraps the whole composite |
| KotlinBuilder.SecondRoot | src/main/kotlin/com/warren/bt/BehaviorTree.kt:37 | a second top-level node raises "Root already set" |
| KotlinBuilder.NoNodes | src/main/kotlin/com/warren/bt/BehaviorTree.kt:119 | an empty block has no root |
| KotlinBuilder.DanglingDecorator | src/main/kotlin/com/warren/bt/BehaviorTree.kt:86-89 | a decorator whose block attaches nothing stays staged and wraps the next node attached |
| KotlinBuilder.Builder.constructor | src/main/kotlin/com/warren/bt/BehaviorTree.kt:22-25 | a new builder has empty stacks and no root |
| KotlinBuilder.Builder.Attach | src/main/kotlin/com/warren/bt/BehaviorTree.kt:27-40 | the popping loop and the placement give exactly AttachSpec |
| KotlinBuilder.Builder.Composite | src/main/kotlin/com/warren/bt/BehaviorTree.kt:42-48 | attach, open, run the block, close: exactly Exec of the composite call |
| KotlinBuilder.Builder.Decorate | src/main/kotlin/com/warren/bt/BehaviorTree.kt:86-109 | stage, then run the block: exactly Exec of the decorator call |
| KotlinBuilder.Builder.Do | src/main/kotlin/com/warren/bt/BehaviorTree.kt:50-115 | one call of a block is Exec |
| KotlinBuilder.Builder.Run | src/main/kotlin/com/warren/bt/BehaviorTree.kt:19 | the calls of a block in order are ExecAll |
| KotlinBuilder.Builder.Build | src/main/kotlin/com/warren/bt/BehaviorTree.kt:117-121 | the tree or the error, as BuildSpec says |
| KotlinBuilder.Build | src/main/kotlin/com/warren/bt/BehaviorTree.kt:19 | building a block from a fresh builder is BuildTree |
| ItemEntries.Contained | src/main/java/com/warren/loadouts/ItemEntry.java:30-42 | the loop with an unbounded count answers the specification: optional, or never over the maximum after a match and at least the minimum |
| ItemEntries.ExceedsGrows | src/main/java/com/warren/loadouts/ItemEntry.java:38-39 | once exceeded, a longer list of items exceeds too |
| ItemEntries.NoMatchCountsNothing | src/main/java/com/warren/loadouts/ItemEntry.java:35-37 | with no matching item nothing is counted or exceeded |
| ItemEntries.FinalCheck | src/main/java/com/warren/loadouts/ItemEntry.java:38-41 | a list that never exceeds ends at most at the maximum, unless nothing matched |
| ItemEntries.ExceedsMeansOver | src/main/java/com/warren/loadouts/ItemEntry.java:38-39 | with stack sizes that are not negative, exceeding means the total is above the maximum |
| ItemEntries.ContainedInRange | src/main/java/com/warren/loadouts/ItemEntry.java:30-42 | with stack sizes that are not negative, a required entry is contained exactly when min <= total <= max (the maximum is not checked when nothing matched) |
| ItemEntries.MinAboveMaxNeverContained | src/main/java/com/warren/loadouts/ItemEntry.java:30-42 | a required entry whose positive minimum is above its maximum is never contained |
| ItemEntries.IgnoresOthers | src/main/java/com/warren/loadouts/ItemEntry.java:35-37 | an item that does not match changes neither the total nor the answer |
| ItemEntries.Wrap32 | src/main/java/com/warren/loadouts/ItemEntry.java:34-38 | the result is a 32-bit int, and a value already in range is unchanged |
| ItemEntries.ContainedOverflows | src/main/java/com/warren/loadouts/ItemEntry.java:38 | with max Integer.MAX_VALUE, two full stacks and a stack of 3 wrap the 32-bit count to 1, and contained answers true for an over-full inventory |
| ItemEntries.Count32Agrees | src/main/kotlin/com/warren/loadouts/ItemEntry.kt:14-24 | while the true running count stays within an int, the 32-bit count agrees with it |
| ItemEntries.Get | src/main/kotlin/com/warren/loadouts/ItemEntry.kt:26-33 | the first matching item in order, or Nil exactly when none matches |
| ItemEntries.NatToString | src/main/java/com/warren/loadouts/ItemEntry.java:98-99 | a number written out is a non-empty string of digits |
| ItemEntries.NatToStringRoundTrip | src/main/java/com/warren/loadouts/ItemEntry.java:98-99 | reading a written number back gives the number |
| ItemEntries.Split | src/main/java/com/warren/loadouts/ItemEntry.java:100 | splitting always gives at least one piece |
| ItemEntries.SplitPlain | src/main/java/com/warren/loadouts/ItemEntry.java:100 | a prefix free of the separator joins the first piece |
| ItemEntries.SplitJoin | src/main/java/com/warren/loadouts/ItemEntry.java:97-101 | splitting a join of separator-free pieces gives the pieces back |
| ItemEntries.Numbers | src/main/java/com/warren/loadouts/ItemEntry.java:97-101 | the numbers lo..hi written out, one per position, empty when hi < lo |
| ItemEntries.AlternationLists | src/main/kotlin/com/warren/loadouts/ItemEntry.kt:77-79 | the alternation lists exactly the numbers lo..hi, in order, each readable back |
| ItemEntries.Trim | src/main/java/com/warren/loadouts/ItemEntry.java:104 | the result is no longer, starts and ends with a non-blank character, and is empty for an all-blank name |
| ItemEntries.TrimIsSlice | src/main/kotlin/com/warren/loadouts/ItemEntry.kt:82 | trim removes blank characters at both ends and nothing else |
| ItemEntries.Kept | src/main/java/com/warren/loadouts/ItemEntry.java:103-105 | the trimmed names that are not empty, in order |
| ItemEntries.Suffix | src/main/java/com/warren/loadouts/ItemEntry.java:109-121 | a name gets no suffix exactly when there is no charge range |
| ItemEntries.PatternAnchored | src/main/java/com/warren/loadouts/ItemEntry.java:126-127 | the whole alternation is anchored once, by ^(?: and )$ |
| ItemEntries.AllBlankNames | src/main/java/com/warren/loadouts/ItemEntry.java:103-127 | names that are all blank give the pattern that matches only the empty name |
| ItemEntries.KeptAllBlank | src/main/java/com/warren/loadouts/ItemEntry.java:103-105 | names that are all blank are all dropped |
| ItemEntries.SingleName | src/main/kotlin/com/warren/loadouts/ItemEntry.kt:81-100 | one name and no range give the quoted, trimmed name, anchored |
| ItemEntries.SuffixOptionalAtZero | src/main/java/com/warren/loadouts/ItemEntry.java:114-121 | with a range, the suffix is optional exactly when the range starts at 0 |
| ItemEntries.BuildEntry | src/main/java/com/warren/loadouts/ItemEntry.java:89-129 | build fails exactly without names; otherwise the entry carries the pattern its names make and the quantities as set |
| ItemEntries.LaterSettingWins | src/main/kotlin/com/warren/loadouts/ItemEntry.kt:45-69 | a setter touches only its own fields, so the last names call wins |
| ItemEntries.KotlinQuantityAboveOne | src/main/kotlin/com/warren/loadouts/ItemEntry.kt:38-51 | with the Kotlin defaults a required entry built with quantity(q), q > 1, keeps maximum 1 and is never contained |
| ItemEntries.JavaDefaultsOneOrMore | src/main/java/com/warren/loadouts/ItemEntry.java:50-51 | with the Java defaults one matching item is contained and no item is not |
| ItemEntries.JavaEntryBuilder.constructor | src/main/java/com/warren/loadouts/ItemEntry.java:48-55 | the defaults: min 1, max Integer.MAX_VALUE, no charge range, not stackable, not optional, no names |
| ItemEntries.JavaEntryBuilder.SetNames | src/main/java/com/warren/loadouts/ItemEntry.java:57-60 | names are replaced; a null array leaves none |
| ItemEntries.JavaEntryBuilder.SetQuantity | src/main/java/com/warren/loadouts/ItemEntry.java:62-65 | only the minimum changes |
| ItemEntries.JavaEntryBuilder.SetQuantityRange | src/main/java/com/warren/loadouts/ItemEntry.java:67-71 | the minimum and the maximum change |
| ItemEntries.JavaEntryBuilder.SetConsumableQuantity | src/main/java/com/warren/loadouts/ItemEntry.java:73-77 | the charge range changes |
| ItemEntries.JavaEntryBuilder.SetStackable | src/main/java/com/warren/loadouts/ItemEntry.java:79-82 | only the stackable flag changes |
| ItemEntries.JavaEntryBuilder.SetOptional | src/main/java/com/warren/loadouts/ItemEntry.java:84-87 | only the optional flag changes |
| ItemEntries.JavaEntryBuilder.Build | src/main/java/com/warren/loadouts/ItemEntry.java:89-129 | the stream pipeline gives exactly BuildEntry with Java's blank characters |
| ItemEntries.KotlinEntryBuilder.constructor | src/main/kotlin/com/warren/loadouts/ItemEntry.kt:36-43 | the Kotlin defaults: min 1, max 1, no range, no names |
| ItemEntries.KotlinEntryBuilder.Set | src/main/kotlin/com/warren/loadouts/ItemEntry.kt:45-69 | one setter call changes the configuration as Apply says |
| ItemEntries.KotlinEntryBuilder.Run | src/main/kotlin/com/warren/loadouts/ItemEntry.kt:112-113 | apply(block) runs the setters in order |
| ItemEntries.KotlinEntryBuilder.Build | src/main/kotlin/com/warren/loadouts/ItemEntry.kt:71-109 | the sequence pipeline gives exactly BuildEntry with Kotlin's blank characters |
| Loadouts.Missing | src/main/java/com/warren/loadouts/ItemLoadout.java:10-18 | the entries not contained are no more than the entries |
| Loadouts.Invalid | src/main/java/com/warren/loadouts/ItemLoadout.java:20-33 | the items matching no entry are no more than the items |
| Loadouts.GetMissing | src/main/kotlin/com/warren/loadouts/ItemLoadout.kt:16-22 | the loop collects exactly Missing |
| Loadouts.GetInvalid | src/main/kotlin/com/warren/loadouts/ItemLoadout.kt:24-33 | the loop with its labelled continue collects exactly Invalid |
| Loadouts.MissingMembers | src/main/java/com/warren/loadouts/ItemLoadout.java:10-18 | getMissing holds exactly the entries that are not contained |
| Loadouts.MissingAppend | src/main/java/com/warren/loadouts/ItemLoadout.java:10-18 | getMissing keeps loadout order |
| Loadouts.OptionalNeverMissing | src/main/java/com/warren/loadouts/ItemLoadout.java:13 | optional entries never appear in getMissing |
| Loadouts.InvalidMembers | src/main/java/com/warren/loadouts/ItemLoadout.java:20-33 | getInvalid holds exactly the items that match no entry |
| Loadouts.InvalidAppend | src/main/java/com/warren/loadouts/ItemLoadout.java:20-33 | getInvalid keeps item order |
| Loadouts.EmptyLoadout | src/main/java/com/warren/loadouts/ItemLoadout.java:10-33 | an empty loadout misses nothing and finds every item invalid |
| Loadouts.InventoryLoadout.constructor | src/main/java/com/warren/loadouts/InventoryLoadout.java:13-15 | the loadout uses the list it is given |
| Loadouts.InventoryLoadout.Require | src/main/java/com/warren/loadouts/InventoryLoadout.java:17-20 | require appends at the end when the list can grow, and raises without changing anything when it cannot |
| Loadouts.Of | src/main/java/com/warren/loadouts/InventoryLoadout.java:22-24 | of gives the entries in order, or none for null, in a list that cannot grow |
| Loadouts.OfThenRequire | src/main/java/com/warren/loadouts/InventoryLoadout.java:17-24 | require on a loadout made by of always raises |
| Loadouts.OfGrowable | src/main/java/com/warren/loadouts/InventoryLoadout.java:22-24 | the intended of: the entries in order in a list that can grow |
| Loadouts.OfGrowableThenRequire | src/main/java/com/warren/loadouts/InventoryLoadout.java:17-24 | with the intended of, require appends after the given entries in call order |
| Loadouts.ItemKeepsNames | src/main/kotlin/com/warren/loadouts/InventoryLoadout.kt:23-27 | a block that sets no names keeps the names item was given |
| Loadouts.ItemBlockOverrides | src/main/kotlin/com/warren/loadouts/InventoryLoadout.kt:23-27 | a names call in the block overrides them |
| Loadouts.InventoryLoadoutBuilder.constructor | src/main/kotlin/com/warren/loadouts/InventoryLoadout.kt:16-17 | a new builder has no entries |
| Loadouts.InventoryLoadoutBuilder.AddEntry | src/main/kotlin/com/warren/loadouts/InventoryLoadout.kt:19-21 | entry appends the built entry at the end |
| Loadouts.InventoryLoadoutBuilder.AddItem | src/main/kotlin/com/warren/loadouts/InventoryLoadout.kt:23-28 | item appends the entry built from the names and the block |
| Loadouts.InventoryLoadoutBuilder.Build | src/main/kotlin/com/warren/loadouts/InventoryLoadout.kt:30 | the loadout holds a copy of the entries in call order |
| Loadouts.Put | src/main/kotlin/com/warren/loadouts/EquipmentLoadout.kt:56-69 | a write stores the entry under its slot and keeps every other slot |
| Loadouts.Values | src/main/kotlin/com/warren/loadouts/EquipmentLoadout.kt:13 | one value per slot |
| Loadouts.PutNew | src/main/kotlin/com/warren/loadouts/EquipmentLoadout.kt:56-69 | a write to a new slot adds its entry at the end of entries |
| Loadouts.PutExisting | src/main/kotlin/com/warren/loadouts/EquipmentLoadout.kt:56-69 | a write to a slot already set replaces its entry where it was |
| Loadouts.PutTwice | src/main/kotlin/com/warren/loadouts/EquipmentLoadout.kt:56-69 | the later of two writes to a slot wins |
| Loadouts.EquipmentLoadoutBuilder.constructor | src/main/kotlin/com/warren/loadouts/EquipmentLoadout.kt:53-54 | a new builder has no slots |
| Loadouts.EquipmentLoadoutBuilder.Set | src/main/kotlin/com/warren/loadouts/EquipmentLoadout.kt:67-69 | set writes the entry under its slot |
| Loadouts.EquipmentLoadoutBuilder.SetSlot | src/main/kotlin/com/warren/loadouts/EquipmentLoadout.kt:56-58 | slot writes the built entry under its slot |
| Loadouts.EquipmentLoadoutBuilder.SetItem | src/main/kotlin/com/warren/loadouts/EquipmentLoadout.kt:60-65 | item writes the entry built from the names and the block |
| Loadouts.EquipmentLoadoutBuilder.Build | src/main/kotlin/com/warren/loadouts/EquipmentLoadout.kt:71 | the loadout's entries are the slots' values in first-insertion order |
| Tiles.Wrap32 | src/main/kotlin/com/warren/extensions/TileExtensions.kt:12-14 | the result is a Kotlin Int congruent to the value modulo 2^32, and a value in range is unchanged |
| Tiles.OrLowBits | src/main/kotlin/com/warren/extensions/TileExtensions.kt:12-14 | or-ing in a value below 2^k is addition when the low k bits are clear |
| Tiles.RegionOnMap | src/main/kotlin/com/warren/extensions/TileExtensions.kt:12-14 | on the world map the region is (x/64)*256 + y/64, so region/256 is x/64 and region%256 is y/64 |
| Tiles.Region | src/main/kotlin/com/warren/extensions/TileExtensions.kt:12-14 | region is the x/64 shifted left by 8 and wrapped to an Int, or-ed with y/64, with floor division for the shifts |
| Tiles.Local | src/main/kotlin/com/warren/extensions/TileExtensions.kt:20-27 | local keeps the floor, is the identity on local tiles and subtracts the map base otherwise |
| Tiles.ToWorld | src/main/kotlin/com/warren/extensions/TileExtensions.kt:20-35 | toWorld keeps the floor, is the identity on non-local tiles and adds the map base otherwise |
| Tiles.WorldRoundTrip | src/main/kotlin/com/warren/extensions/TileExtensions.kt:24-35 | toWorld(local(t)) is t when t minus the base is local |
| Tiles.LocalRoundTrip | src/main/kotlin/com/warren/extensions/TileExtensions.kt:24-35 | local(toWorld(t)) is t for a local tile whose world position is not local |
| Tiles.IsLocal | src/main/kotlin/com/warren/extensions/TileExtensions.kt:20-22 | a tile is local when both coordinates lie in 0 .. 103 |
| Tiles.Instanced | src/main/kotlin/com/warren/extensions/TileExtensions.kt:16-18 | a tile is instanced when its x exceeds 6400 |
| Tiles.SurroundingArea | src/main/kotlin/com/warren/extensions/TileExtensions.kt:120-134 | a negative radius is rejected; otherwise the corners are (x-r, y-r) and (x+r, y+r) on the same floor |
| Tiles.AreaCentred | src/main/kotlin/com/warren/extensions/TileExtensions.kt:120-134 | the area is centred on the tile and its side spans 2r+1 tiles |
| Tiles.Ring | src/main/kotlin/com/warren/extensions/TileExtensions.kt:136-156 | ring 0 is one tile and ring r > 0 has 8r tiles |
| Tiles.RingExact | src/main/kotlin/com/warren/extensions/TileExtensions.kt:136-156 | a ring holds exactly the tiles of the same floor at Chebyshev distance r |
| Tiles.RingDistinct | src/main/kotlin/com/warren/extensions/TileExtensions.kt:136-156 | no tile of a ring is yielded twice; with the length this gives 8r distinct tiles, or the tile itself for r = 0 |
| Tiles.SpiralExact | src/main/kotlin/com/warren/extensions/TileExtensions.kt:158-164 | the spiral holds exactly the tiles of the same floor within distance R |
| Tiles.Spiral | src/main/kotlin/com/warren/extensions/TileExtensions.kt:158-164 | the spiral of radius R is the tile followed by rings 1 .. R |
| Tiles.SpiralZero | src/main/kotlin/com/warren/extensions/TileExtensions.kt:158-164 | the spiral of radius 0 is the tile itself |
| Tiles.SpiralGrows | src/main/kotlin/com/warren/extensions/TileExtensions.kt:158-164 | spiral R adds to spiral R-1 exactly the tiles at distance R |
| Tiles.SpiralByDistance | src/main/kotlin/com/warren/extensions/TileExtensions.kt:158-164 | the spiral visits its tiles in order of distance, all within R |
| Tiles.AppendDistinct | src/main/kotlin/com/warren/extensions/TileExtensions.kt:158-164 | two duplicate-free lists with no common tile concatenate to a duplicate-free list |
| Tiles.SpiralDistinct | src/main/kotlin/com/warren/extensions/TileExtensions.kt:158-164 | no tile is visited twice, and the spiral has (2R+1)^2 tiles |
| Tiles.SpiralNoRepeat | src/main/kotlin/com/warren/extensions/TileExtensions.kt:158-164 | no tile of the spiral is visited twice |
| Tiles.SpiralLength | src/main/kotlin/com/warren/extensions/TileExtensions.kt:158-164 | the spiral of radius R visits (2R+1)^2 tiles |
| Tiles.SpiralRingDisjoint | src/main/kotlin/com/warren/extensions/TileExtensions.kt:158-164 | the ring of radius R shares no tile with the spiral of radius R-1 |
| Tiles.RingAtOnRing | src/main/kotlin/com/warren/extensions/TileExtensions.kt:136-156 | every tile the ring yields at position k is on the source floor at distance exactly r |
| Tiles.RingAt | src/main/kotlin/com/warren/extensions/TileExtensions.kt:136-156 | the k-th tile of ring r: the top and bottom rows two per column, then the sides two per row |
| Tiles.FirstWhere | src/main/kotlin/com/warren/extensions/TileExtensions.kt:174-175 | firstOrNull: the first position satisfying the predicate, or none exactly when no element does |
| Tiles.ScanFirst | src/main/kotlin/com/warren/extensions/TileExtensions.kt:174-175 | a negative radius is rejected exactly |
| Tiles.SpiralIndex | src/main/kotlin/com/warren/extensions/TileExtensions.kt:158-164 | every tile within distance R has a position in the spiral |
| Tiles.ScanFirstNearest | src/main/kotlin/com/warren/extensions/TileExtensions.kt:174-175 | what scanFirst finds satisfies the predicate, lies within the radius, and no nearer tile satisfies it |
| Tiles.ScanFirstNil | src/main/kotlin/com/warren/extensions/TileExtensions.kt:174-175 | scanFirst returns Nil exactly when no tile within the radius satisfies the predicate |
| Tiles.DivMod | src/main/kotlin/com/warren/extensions/TileExtensions.kt:166-172 | Euclidean division by a positive divisor is unique |
| Tiles.SquareIndex | src/main/kotlin/com/warren/extensions/TileExtensions.kt:166-172 | an index below w*w splits into a row and a column below w |
| Tiles.SquareAtNear | src/main/kotlin/com/warren/extensions/TileExtensions.kt:166-172 | every position of the search square names a tile on the source floor within distance r |
| Tiles.TilesWithin | src/main/kotlin/com/warren/extensions/TileExtensions.kt:166-172 | the square has (2r+1)^2 tiles |
| Tiles.SquarePosition | src/main/kotlin/com/warren/extensions/TileExtensions.kt:166-172 | the tile at offset (dx, dy) is listed at position (dy+r)*w + (dx+r): row-major, dy outer and dx inner |
| Tiles.TilesWithinExact | src/main/kotlin/com/warren/extensions/TileExtensions.kt:166-172 | the square holds exactly the tiles of the same floor within distance r |
| Tiles.SquareHas | src/main/kotlin/com/warren/extensions/TileExtensions.kt:166-172 | every tile within distance r is listed |
| Tiles.SquareOnlyNear | src/main/kotlin/com/warren/extensions/TileExtensions.kt:166-172 | only tiles within distance r are listed |
| Tiles.TilesWithinIsSpiral | src/main/kotlin/com/warren/extensions/TileExtensions.kt:158-172 | the square and the spiral of the same radius hold the same tiles |
| Tiles.TilesWithinDistinct | src/main/kotlin/com/warren/extensions/TileExtensions.kt:166-172 | no tile of the square is listed twice |
| Tiles.RingTiles | src/main/kotlin/com/warren/extensions/TileExtensions.kt:136-156 | the generator loops yield exactly Ring, and a negative radius is rejected |
| Tiles.SpiralTiles | src/main/kotlin/com/warren/extensions/TileExtensions.kt:158-164 | the loop over the rings yields exactly Spiral |
| Tiles.TilesWithinTiles | src/main/kotlin/com/warren/extensions/TileExtensions.kt:166-172 | the nested loops yield exactly TilesWithin |
| Sight.ErrInRange | src/main/java/com/warren/util/Projection.java:102-124 | the error term stays in [0, major) |
| Sight.Rounding | src/main/java/com/warren/util/Projection.java:102-124 | after i major steps the minor coordinate has moved by i·minor/major rounded to the nearest integer, halves toward the source |
| Sight.RoundingRemainder | src/main/java/com/warren/util/Projection.java:102-124 | the error term is exactly what that rounding leaves over |
| Sight.StepAlongX | src/main/java/com/warren/util/Projection.java:102-113 | one x-major iteration moves one tile along x, and one along y exactly when the error term goes negative, on the source floor |
| Sight.StepAlongY | src/main/java/com/warren/util/Projection.java:114-124 | one y-major iteration moves one tile along y, and one along x exactly when the error term goes negative, on the source floor |
| Sight.DiagonalPoints | src/main/java/com/warren/util/Projection.java:126-142 | on a perfect diagonal the i-th tile is i steps along both axes toward the target |
| Sight.ClearUpToPrefix | src/main/java/com/warren/util/Projection.java:102-142 | a line clear up to some step is clear up to every earlier step |
| Sight.ClearUpToAll | src/main/java/com/warren/util/Projection.java:102-142 | checking the tiles one by one up to step i is the same as no tile up to i being blocked |
| Sight.MinorEnds | src/main/java/com/warren/util/Projection.java:101-142 | the walk starts with no minor step and ends with all of them |
| Sight.Diagonal | src/main/java/com/warren/util/Projection.java:126-142 | on a perfect diagonal every step is also a minor step |
| Sight.LineEnds | src/main/java/com/warren/util/Projection.java:101-142 | the line starts at the source and ends at the target after max(abs dx, abs dy) steps |
| Sight.LineKingMoves | src/main/java/com/warren/util/Projection.java:101-142 | each step moves one tile along the major axis and at most one along the other |
| Sight.LinePoint | src/main/java/com/warren/util/Projection.java:101-142 | the i-th tile of the walk: i steps along the major axis, and the rounded share of the minor steps |
| Sight.BlockedDirectional | src/main/java/com/warren/util/Projection.java:63-89 | a tile blocks a step when the full-block flags are honoured and set, or it has the wall on the side the step leaves by, or the corner the step crosses |
| Sight.SightSpec | src/main/java/com/warren/util/Projection.java:29-145 | sight holds on the same floor for the same tile, fails past the cap, and otherwise holds exactly when the line is clear |
| Sight.Walk | src/main/java/com/warren/util/Projection.java:54-144 | the walk answers true exactly when no point of the line is blocked for its step |
| Sight.WalkAlongX | src/main/java/com/warren/util/Projection.java:102-113 | the x-major loop answers true exactly when every tile of the line up to the target is unblocked |
| Sight.WalkAlongY | src/main/java/com/warren/util/Projection.java:114-124 | the y-major loop answers true exactly when every tile of the line up to the target is unblocked |
| Sight.WalkDiagonal | src/main/java/com/warren/util/Projection.java:126-142 | the diagonal loop answers true exactly when every tile of the line up to the target is unblocked |
| Sight.GuardedWalk | src/main/java/com/warren/util/Projection.java:33-44 | different floors give false, the same tile true, a distance above the cap false, and otherwise the walk |
| Sight.HasLineOfSightTo | src/main/kotlin/com/warren/extensions/TileExtensions.kt:37-118 | the Kotlin walk, as written, sees exactly where no directional wall or corner blocks the line |
| Sight.HasLineOfSightToCorrected | src/main/kotlin/com/warren/extensions/TileExtensions.kt:37-118 | with the full-block test honoured, the Kotlin walk answers as Projection does |
| Sight.HasLineOfSight | src/main/java/com/warren/util/Projection.java:29-145 | null tiles give false; otherwise the guards, then true exactly when no visited tile is blocked, full blocks included |
| Sight.ActorsHaveLineOfSight | src/main/java/com/warren/util/Projection.java:15-23 | null actors give false; otherwise sight between their true tiles |
| Sight.ActorsHaveLineOfSightNear | src/main/java/com/warren/util/Projection.java:25-27 | the actor overload with a cap of 64 tiles |
| Sight.FullBlockStops | src/main/java/com/warren/util/Projection.java:59-68 | a SOLID, BLOCKED or CLOSED tile anywhere on the line, the target included, hides the target |
| Sight.ExtensionSeesAtLeast | src/main/kotlin/com/warren/extensions/TileExtensions.kt:37-118 | wherever Projection sees, hasLineOfSightTo sees too |
| Sight.BlockedStart | src/main/java/com/warren/util/Projection.java:54-99 | a wall or corner on the walk's side of the source tile blocks, whatever the target |
| Sight.OpenField | src/main/java/com/warren/util/Projection.java:29-145 | with no flag set anywhere, sight holds exactly on the same floor within the cap, or for the same tile |
| Sight.NegativeCap | src/main/java/com/warren/util/Projection.java:40-44 | a negative cap hides every tile but the source itself |
| Sight.SolidIgnored | src/main/kotlin/com/warren/extensions/TileExtensions.kt:61 | a SOLID tile next to the source stops Projection, and hasLineOfSightTo sees through it |
| Sight.EastNeighbour | src/main/kotlin/com/warren/extensions/TileExtensions.kt:37-118 | toward the east neighbour, the line sees exactly when neither the source nor the target has an eastward wall or corner on its side |
| Sight.SolidAtOne | src/main/kotlin/com/warren/extensions/TileExtensions.kt:61 | a collision map where the column x = 1 is SOLID and has no east wall |

## Left out

- Sleep and SleepUntil jitter: the Gaussian `randomizeDuration` is floating point over a random source. The armed duration is an input, drawn at construction and reset.
- The clock, random draws, shuffles, suppliers and callbacks are inputs. Their side effects appear only as a trace of calls. Ticks record every call they make; resets record theirs with `ResetCalls`: an external node's reset in Java, a lazy supplier in Kotlin.
- nanoTime arithmetic is on unbounded integers. 64-bit wrap-around is not modelled.
- SuccessRate's draw and rate are Dafny reals, not 32-bit floats. Rounding is not modelled.
- Kotlin exceptions thrown by callbacks are not modelled; the Kotlin nodes have no try/catch, so a throw would simply end the tick.
- An external node's onStart, onEnd and reset are recorded as calls but assumed not to throw; only its tick has a throwing outcome.
- Kotlin `cooldown(ms)` passes its argument to `Cooldown(ticks)`, so the model uses it as the tick count.
- Nodes are values, not references. A node shared by two parents, or a list aliased by its caller, is not modelled. The builders emulate the one aliasing they rely on: a nested composite that keeps receiving children after it was added to its parent.
- DynamicSubTree: external trees are opaque and identified by number. Their onStart, onEnd, reset and tick are recorded as effects, and their tick's outcome is an input. The identity the supplier hands out is compared by number, as the source compares references.
- JavaBt.SubTreeTick and JavaBuilder.Builder.AddSubtreeFrom: a supplier that builds a tree is assumed to build the same tree on every call (the node's `source`); a supplier that builds a different tree each time is not modelled. Whether the supplier returns a node, null (a null tree throws, a null root fails) or throws is an input per tick.
- JavaBuilder.Builder.StageCooldownFrom and JavaBuilder.Builder.StageSuccessRateFrom: the builder calls the supplier once, at build time, and fixes its value; a throw there escapes the builder and is not modelled (the supplier is a total function). A duration or rate supplier given directly to the node is read on every tick, and its throw is an outcome of that tick.
- SleepUntilEvent, BehaviorScript and the game-API builder helpers are not part of this model. They are event-bus, host-lifecycle and foreign game calls.
- Regex matching and `Pattern.quote` / `Regex.escape` are parameters. Java `trim` removes the characters up to U+0020; Kotlin `trim` removes the characters `Char.isWhitespace` accepts, listed by code point. There is no Unicode normalisation.
- `Item.Nil` is `None`.
- `getMissing()` without arguments, and `EquipmentLoadout.kt` `equip` / `equipped`, read the game state and are left out.
- `EquipmentLoadout.java` is left out: its `required` field is never initialised, so every member dereferences null.
- Tile geometry uses unbounded integers. The int32 overflow of `dx*dx + dy*dy` and of `Math.abs(Integer.MIN_VALUE)` for far-apart tiles is not modelled. `region` does model 32-bit wrap-around.
- Sight.HasLineOfSightTo and Sight.HasLineOfSight: the distance cap compares squared integers where the source compares a double square root with the cap. The two agree on exact arithmetic; floating-point rounding is not modelled.
- `randomNearbyTile` (a shuffle), `withinAngularFOV` and the floating-point half of `canSee` are left out.
- `collisionFlag`, `CollisionFlags.checkFlag` and the map base are parameters.
- Tiles.SurroundingArea, Tiles.RingTiles, Tiles.SpiralTiles, Tiles.TilesWithinTiles and Tiles.ScanFirst: the source's `require(radius >= 0)` throws (in `scanFirst` lazily, when the spiral is first pulled); the model returns IllegalArgument.
- Loadouts.Missing, Loadouts.GetMissing and Loadouts.MissingMembers: built on the unbounded count of `ContainedSpec`, so they differ from the source, whose `contained` wraps its int total (ItemEntry.java:38), once a total passes Integer.MAX_VALUE; the wrapping count and its consequence are stated separately by ItemEntries.ContainedOverflows.

## Findings

| source | as written | input that shows it | evidently intended | confidence | as-written member | corrected member |
|---|---|---|---|---|---|---|
| src/main/java/com/warren/loadouts/ItemEntry.java:38 | the running quantity is an `int` that wraps past Integer.MAX_VALUE (the same in ItemEntry.kt:20-21) | a stackable entry with min 1 and max Integer.MAX_VALUE; stacks of MAX_VALUE, MAX_VALUE and 3 | an inventory holding more than the maximum is not contained | not executed | ItemEntries.ContainedOverflows | ItemEntries.ContainedInRange |
| src/main/java/com/warren/loadouts/InventoryLoadout.java:17-24 | `of` wraps its arguments with `Arrays.asList`, a fixed-size list, so a later `require` throws UnsupportedOperationException | `of(a).require(b)` | `require` appends, whatever made the loadout | not executed | Loadouts.OfThenRequire | Loadouts.OfGrowableThenRequire |
| src/main/kotlin/com/warren/extensions/TileExtensions.kt:61 | the full-block test is an expression whose value is discarded, so SOLID, BLOCKED and CLOSED tiles never block | from (0,0) to (1,0) on floor 0, with SOLID set on (1,0) and no walls | a fully blocked tile hides what lies behind it, as in Projection.java:59-68 | not executed | Sight.SolidIgnored | Sight.HasLineOfSightToCorrected |
