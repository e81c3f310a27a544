# A verified model of the symbolic checker and the AIGER library

The repository is a symbolic model checker: sets of states are decision diagrams, the behaviour of a system is a
set of homomorphisms on them, and LTL is decided by products of a generalised Büchi automaton with the system,
either fully symbolic or built from aggregates of states. Beside it stand the AIGER library with a compiler from
circuits to guarded actions, the extraction of minimal attacks from a diagram, and a pooled allocator.

The project models these parts and proves what they are for:

* **LTL.** `Graphs`, `Buchi` and `Automata` hold the theory: walks, cycles, lassos in both directions, the
  synchronous product and its runs. `Fsltl` proves that both emptiness algorithms return the same set, exactly the
  states behind an accepting cycle; `Composed` that the composed system is non-empty exactly when the model has an
  accepted run, and when dropping an acceptance mark makes the answer wrong; `SogIts` and `Slap` that the
  aggregating product decides the same question; `Sog`, `SogWords` and `SogRuns` that the observation graph has
  exactly the stutter-reduced finite and infinite words of the model.
* **Witnesses.** `Its` proves the predecessor relation, `Witness` the search, `WitnessBack` the backward pass,
  `WitnessPath` shortest witnesses, `WitnessCycle` shortest cycles, `Witnesses` that the cursor search lists the shortest
  witnesses of all states, each once and in order. `WitnessInputs` holds the inputs on which the three searches mislead.
* **AIGER.** `AigerCycles` is the cycle check, `AigerNumbering`, `AigerCompact` and `AigerReencode` the renumbering
  in place, `AigerCircuit` and `AigerRenumbered` the meaning of a circuit and its preservation, `AigerBytes`,
  `AigerFormat` and `AigerStream` the binary format, `AigerGrammar` and `AigerAccept` which streams spell which circuits
  and that the reader accepts just those, `AigerRoundTrip` the writer and the way back, `AigerBuild` the calls that build
  a circuit, `aiger_check` and runs of both. `Gal` is the compiler to guarded actions.
* **Two smaller parts.** `Projector` is the extraction and printing of minimal attacks, `Pool` the allocator.

Sets of states are finite sets over any state type, transitions are relations, conditions of automata are sets of
valuations of the atomic propositions, and the fixpoint homomorphism is a loop that applies its argument until
nothing changes. `f & g` applies `g` first. Classes are used where the program updates an object's fields, arrays
where it updates a table in place. Loops and recursion are proved to end.

Where the code does something other than its comments say, the model follows the code:

* `findPath` (its/ITSModel.hh:192-196) is documented to return the input sets when it is not precise. The code returns
  the first and last layers of the forward pass.
* The backward pass of `findPath` looks transitions up by name. With trusted inverses a precise answer has exact end sets
  when every transition fired is the first of its name, and an empty first set otherwise (`PassesMean`; `EqualNames` is
  an input). `NamesIff` says of which transitions the names are right for all starts and goals.
* An empty envelope argument stands for all reachable states in the search but is handed to the inverses as it is;
  `NoEnvelope` is an input where the first set is lost. Whatever the argument, `StepExactIff` is the exact condition on
  the inverses under which the backward pass leaves exact sets after every climb, and `AnswersExactIff` the same for the
  answers to all questions, for inverses that invent no step.
* `getPredRel` judges inverses on the envelope alone, and the explanations of CTL/src/mc/ctlCheck.cpp:452, 493 and 576
  ask for goals outside it. The search measures distances inside the envelope exactly under the condition of
  `StaysInsideIff`, which a caller can compute before the call; `GoalOutside` is an input where the witness reported
  leaves the envelope and is shorter than any inside. Where an inverse invents a state out there the backward pass can
  run out of names (`ReadsPastTheEnd`); no start does exactly when the layers can be climbed (`ClimbableIff`).
* The stages of `printPaths` also follow starts outside the envelope (`StartOutside`). Every stage, for all parts of the
  starts and all goals, reports shortest sequences only, exactly when no such start steps into the envelope or to a goal other than itself,
  which can be computed before the call (`StartsIff`).
* `findCycle` answers with one real transition name and the chosen state as last set when that state has predecessors
  in the set but lies on no cycle inside it; this looks like a cycle of one step (`CycleAnswer`, and `LooksLikeACycle`
  for an input). An empty last set without a name means that there are no predecessors, or that the path to one lost its
  start to equal names (`CycleLost`; `EqualNamesInCycle` is an input). Which names matter is determined: those of the
  steps of the lexicographically first shortest path to a predecessor (`PathTaken`, `PathTakenIsOne`).
* `findCycle` cuts the set before the closing step by the predecessors under all transitions, but names one. With all sets
  shown, that set may hold states that cannot make the step named (`SomeCannotClose`); `CycleSteps` says exactly when.
* `buildComposedSystem` keeps no relation for an acceptance mark that occurs on no arc. The answer is right for every
  model exactly when no mark is missing, or the automaton by itself has no reachable cycle with all marks that occur
  (`CheckRightIff`); `CheckWrong` gives a model for every other automaton, `MissingMarkMisleads` a small one.
* `slap_succ_iterator::step_` tests for self-loops without acceptance, but the result is overwritten at once.
  `SlapEmptiness` shows that skipping them, as the testing variant does, and not skipping them both decide emptiness.
* `sog_tgba::get_init_state` starts from the first valuation that holds in some initial state. With initial states that
  differ in valuation the other words are lost; `NoWordLostIff` says exactly when none is.
* The error branch of `findPath` and `printPaths` for equal consecutive layers cannot be taken, because layers are
  disjoint and not empty.
* `aiger_check_for_cycles` never clears its mark bits. `CheckForCycles` is exact for the marks it starts with, and right
  for every net exactly when they are clear (`MarksRightIff`). On runs of additions, successful
  checks and re-encodings stale marks do no harm, because what they mark is finished and the assertions of `aiger_add_*`
  forbid redefining it (`MarksNeverHide`), provided that after a re-encoding no call reaches for variables above the new
  maximum that had been in use: their old types stay in the table.
* The branch of `aiger_reencode_lit` for uncoded inputs and latches cannot be taken.
* `aiger_is_reencoded` does not look at the largest variable, so a circuit with unused variables is written as it is,
  and the reader refuses it. `ReadBackIff` is the exact condition.
* The binary reader checks the variables of all literals but those of justice properties, which may name more variables
  than the header announces (`JusticeUnchecked`). `DecodeSound` and `ReadAgainIff` say exactly when they do, and that the
  circuit then cannot be written and read again.
* `aiger_read_delta` accepts a sixth byte below 8 and then shifts by 35, which is undefined in C; the model reports it
  as an outcome of its own, and `UndefinedShiftIff` says on which bytes.
* An action made by `gen_transitions` is enabled only while the last latch's next value is 0, and all latches start
  at 0 whatever their reset; without latches none ever is. Skipped assignments are right because latches hold 0 or 1;
  `ActionIs` says exactly when.
* `pool.h` chains free items through their own first word. `NeighbourKeptIff` shows why items must hold a pointer; above
  4 MB the second block is smaller than its items (`BlockFitsIff`), and its first allocation breaks the assertion
  `used <= total` (`UsedFitsIff`). The allocator is proved for the sizes between.

## Model

| member | source | states |
|---|---|---|
| Graphs.Closure | LTL/src/fsltl.cpp:101 | iterating a relation with the identity ends, in exactly the states some walk leads to |
| Graphs.GreatestImage | LTL/src/fsltl.cpp:110 | iterating the bare image of a closed set ends, in its largest subset whose states all have a predecessor in it |
| Graphs.SustainedLoop | LTL/src/fsltl.cpp:124 | every state of a set where each state has a predecessor is reachable from a cycle in the set |
| Buchi.RunGivesCycle | LTL/src/fsltl.cpp:99-153 | an infinite accepted run of a finite graph has a reachable cycle with every wanted mark |
| Buchi.CycleGivesRun | LTL/src/fsltl.cpp:99-153 | a reachable cycle with every wanted mark unrolls into an infinite accepted run |
| Buchi.NonEmptyIffRun | LTL/src/fsltl.cpp:99-153 | emptiness over cycles is emptiness over infinite runs |
| Automata.ProductRunIffModelRun | LTL/src/tgbaIts.cpp:51-64 | accepted runs of the product exist exactly when the automaton accepts an infinite run of the model, conditions read at the source state |
| Fsltl.AccPass | LTL/src/fsltl.cpp:130-143 | one pass over the acceptance relations only shrinks the set, loses no state behind an accepting cycle, and if it changes nothing every state is fed through each relation from inside the set |
| Fsltl.FindScc | LTL/src/fsltl.cpp:99-153 | ends, and returns exactly the states reachable from a reachable cycle that uses an edge of every acceptance relation, any cycle if there are none |
| Fsltl.FindSccBoth | LTL/src/fsltl.cpp:179-186 | both variants return the same set, non-empty exactly when an accepting cycle is reachable |
| Fsltl.SuffixesDecideEmptiness | LTL/src/fsltl.cpp:99-153 | that set is non-empty exactly when an accepting cycle is reachable, and exactly when there is an infinite accepted run |
| Composed.TgbaType.constructor | LTL/src/tgbaIts.cpp:69-74 | the map by label describes exactly the arcs of the automaton, and no label has an empty list |
| Composed.TgbaType.ProcessLink | LTL/src/tgbaIts.cpp:51-64 | one more arc is described, all others stay, lists stay non-empty |
| Composed.BuildTransitionSet | LTL/src/tgbaIts.cpp:133-151 | the sum of the arc transitions moves a set of automaton states along exactly the listed arcs, the self-loop form included |
| Composed.SyncIsComposed | LTL/src/fsltl.cpp:60 | on every set, the relation of one label is the model step guarded by the condition followed by the automaton's move |
| Composed.SyncIsProduct | LTL/src/fsltl.cpp:52-60 | the relation built for one label holds the edges of the synchronous product that carry this label, and no others |
| Composed.FsltlModel.BuildComposedSystem | LTL/src/fsltl.cpp:26-83 | fails and changes nothing unless instance, initial state and automaton are set; otherwise the full relation is the sum over all labels and each mark has the sum over the labels that carry it |
| Composed.FsltlModel.AddToMarks | LTL/src/fsltl.cpp:64-73 | each mark of the label gains the relation, other marks keep theirs |
| Composed.FsltlModel.FindScc | LTL/src/fsltl.cpp:158-176 | the emptiness set for the accumulated relations, whichever variant |
| Composed.MergedNonEmpty | LTL/src/fsltl.cpp:62-73 | summing edges of equal ends and different labels neither adds nor loses an accepting cycle |
| Composed.FoundIffModelRun | LTL/src/fsltl.cpp:52-88 | the set found is non-empty exactly when the automaton accepts a run of the model under the marks that occur on arcs |
| Composed.SeenMarksOccur | LTL/src/fsltl.cpp:64-73 | a run that sees a mark infinitely often needs an arc with it |
| Composed.CheckRightIff | LTL/src/fsltl.cpp:52-88 | the marks that occur decide acceptance with n marks on every model exactly when none of the n is missing or the automaton alone has no reachable cycle with all that occur |
| Composed.CheckRight | LTL/src/fsltl.cpp:52-88 | under that condition the check decides acceptance with n marks on any model |
| Composed.CheckWrong | LTL/src/fsltl.cpp:52-88 | without it the check reports a run that is not accepted, on the model that may take any valuation at any time |
| Composed.MissingMarkMisleads | LTL/src/fsltl.cpp:64-73 | a model on which a mark without an arc makes the answer wrong |
| Composed.FsModelCheck | LTL/src/sogtgbautils.cpp:166-195 | from the arcs of the automaton to the verdict: a run is reported exactly when the model has one accepted under the occurring marks |
| SogIts.LeastPostTestFixpoint | LTL/src/sogIts.cpp:95-103 | exactly the states reached from the satisfying states of the set through satisfying states |
| SogIts.LeastPreTestFixpoint | LTL/src/sogIts.cpp:108-117 | exactly the states reached from the set by steps that leave satisfying states |
| SogIts.GetDivergent | LTL/src/sogIts.cpp:126-130 | ends, and returns exactly the states of the set reachable, through satisfying states of it, from a cycle of such states |
| SogIts.DivergesIffCycle | LTL/src/sogIts.cpp:125-130 | it is non-empty exactly when such a cycle exists |
| Slap.SlapSuccIterator.ComputeWeakerSelfloopAp | LTL/src/slap.cpp:123-149 | the union of the conditions of exactly those self-loops of the target whose acceptance the arc subsumes |
| Slap.SlapSuccIterator.Step | LTL/src/slap.cpp:151-180 | the aggregate for the current arc: exactly the states reached from one of the node that satisfies the condition by one step and then steps each read at its source by a self-loop of the target with no acceptance but the arc's; the test for plain self-loops leaves no trace |
| Slap.DestMeans | LTL/src/slap.cpp:123-180 | the aggregate is exactly what the arc and then paths of the weaker self-loops lead to |
| Slap.AbsorbedMeans | LTL/src/slap.cpp:123-149 | saturation adds exactly what such paths lead to |
| Slap.SlapSuccIterator.NextNonFalse | LTL/src/slap.cpp:182-204 | skips to the next arc with a non-empty aggregate and loses no successor |
| Slap.SlapSuccIterator.First | LTL/src/slap.cpp:206-212 | the iterator stands before the whole list of successors of the node |
| Slap.SlapSuccIterator.Next | LTL/src/slap.cpp:214-222 | exactly one successor is passed |
| Slap.SlapSuccIterator.Dst | LTL/src/slap.cpp:231-235 | the node of the first remaining successor |
| Slap.SlapSuccIterator.Acc | LTL/src/slap.cpp:243-246 | the acceptance of the first remaining successor |
| Slap.SuccessorsAreEdges | LTL/src/slap.cpp:182-246 | the iterator's list holds exactly the outgoing edges of the aggregating product |
| Slap.SuccessorsInOrder | LTL/src/slap.cpp:182-222 | in the order of the automaton, one for each arc with a non-empty aggregate |
| Slap.Places | LTL/src/slap.cpp:182-204 | the positions of these arcs, increasing and all of them |
| Slap.GetInitState | LTL/src/slap.cpp:266-285 | without acceptance sets the initial states and no more; otherwise exactly what steps read by self-loops without acceptance lead to from them |
| Slap.SlapCycleIsReal | LTL/src/slap.cpp:151-204 | an accepting cycle of aggregates stands for one of the plain product |
| Slap.RealRunIsCovered | LTL/src/slap.cpp:151-204 | every accepted run of the model is followed by an accepting cycle of aggregates, even when plain self-loops are skipped |
| Slap.SlapEmptiness | LTL/src/slap.cpp:151-204 | with or without the self-loop shortcut the aggregating product is non-empty exactly when the plain product is, and exactly when the model has an accepted run |
| Sog.ApIterator.First | LTL/src/apiterator.hh:47-51 | all valuations are to come, in increasing order, the single one included when there are no propositions |
| Sog.ApIterator.Next | LTL/src/apiterator.hh:53-60 | exactly the current valuation leaves those to come; the end is reached when none is left |
| Sog.MakeSogState | LTL/src/sogstate.cpp:20-31 | saturated states, divergence exactly when they hold a cycle, and the successors that leave the valuation |
| Sog.SogSuccIterator.Step | LTL/src/sogsucciter.cpp:72-81 | moves to the next valuation with a non-empty aggregate and loses no successor |
| Sog.SogSuccIterator.First | LTL/src/sogsucciter.cpp:83-92 | the iterator stands before the divergence successor, if any, and then all aggregates |
| Sog.SogSuccIterator.Next | LTL/src/sogsucciter.cpp:95-105 | exactly one successor is passed |
| Sog.SogSuccIterator.Dst | LTL/src/sogsucciter.cpp:111-121 | the first remaining successor |
| Sog.AggSuccessor | LTL/src/sogsucciter.cpp:72-121 | the aggregate successors are exactly the non-empty aggregates of the successor states, one for each valuation |
| Sog.DivSuccessor | LTL/src/sogsucciter.cpp:83-121 | the divergence successor is offered exactly by divergent aggregates |
| Sog.AggsFromSorted | LTL/src/sogsucciter.cpp:72-105 | aggregates come in the order of their valuations, each valuation once |
| Sog.GetInitState | LTL/src/sogtgba.cpp:68-94 | the aggregate of all initial states under the least valuation that holds in one |
| SogWords.AggregateMeaning | LTL/src/sogstate.cpp:20-31 | the aggregate reached by a word holds exactly the last states of the model paths with that stutter-reduced word |
| SogWords.ObsWordIff | LTL/src/sogsucciter.cpp:72-121 | a finite word labels a path of the graph exactly when it is the stutter-reduced word of a model path that starts with the least initial valuation; it never repeats a valuation twice in a row |
| SogWords.ObsWordIffSingle | LTL/src/sogtgba.cpp:68-94 | with one initial state, exactly when it is the word of a model path |
| SogWords.NoWordLostIff | LTL/src/sogtgba.cpp:72-83 | no word is lost exactly when all initial states have the same valuation |
| SogRuns.DivergenceIff | LTL/src/sogsucciter.cpp:83-86 | the aggregate of a word offers the divergence successor exactly when a model run with that word can stay in it forever |
| SogRuns.ObsOmegaIff | LTL/src/sogsucciter.cpp:72-121 | an infinite word labels the graph exactly when it is the stutter-reduced word of an infinite model run with the right first valuation |
| Its.ItsModel.ComputeReachable | its/ITSModel.cpp:132-163 | the states reachable from the initial ones, computed once and kept |
| Its.Classify | its/ITSModel.cpp:201-218 | transitions that never fire in the envelope are dropped, the others split by whether their inverse leaves it |
| Its.ChosenIsConverse | its/ITSModel.cpp:187-237 | from every state whose inverses are trusted the chosen relation leads to exactly the predecessors in the envelope, in the exact, the split and the protected case |
| Its.ChosenStays | its/ITSModel.cpp:187-237 | from states of the envelope it never leaves the envelope |
| Its.BuildPredRel | its/ITSModel.cpp:187-237 | the chosen relation; from states of the envelope it gives exactly their predecessors inside |
| Its.PredOfSets | its/ITSModel.cpp:173-246 | such a relation maps every subset of the envelope to exactly its predecessors inside |
| Its.ItsModel.GetPredRel | its/ITSModel.cpp:173-246 | exact for the envelope asked for, an empty envelope meaning all reachable states, and the cached relation stays exact for those |
| Witness.BackwardLayers | its/ITSModel.cpp:574-624 | the layers are the sets at each exact distance from the goal under the converse of the relation; it stops at the first that meets the start, or reports that no distance does |
| Witness.StaysInsideIff | its/ITSModel.cpp:588-597 | these are the distances inside the envelope exactly when the predecessors of the goal that are no goals lie in the envelope |
| Witness.RealIsClimbable | its/ITSModel.cpp:633-668 | when all steps of the graph are steps of the model every state of a layer can step into the next |
| Witness.FirstMatch | its/ITSModel.cpp:642-659 | the first transition that leads into the next layer, or none does |
| Witness.ForwardPass | its/ITSModel.cpp:633-668 | each set is all that the first transition leading from the one before into the layer reaches there, and the pass never gets stuck when the states of the layers can step down |
| Witness.ClimbableIff | its/ITSModel.cpp:633-681 | they can exactly when every start of a layer has a first step, so that no start runs past the end of the witness |
| WitnessBack.ByName | its/ITSModel.cpp:688-694 | the first transition with the name |
| WitnessBack.BackwardPass | its/ITSModel.cpp:676-703 | each set is cut, from the last to the first, by the inverse of the first transition with the name, the last set stays |
| WitnessBack.PassesMean | its/ITSModel.cpp:633-703 | with trusted inverses every state kept can fire the rest, every state is still reached and none that qualifies is lost, or, when a name finds another transition than the one fired, the first set is empty |
| WitnessBack.StepExactIff | its/ITSModel.cpp:676-703 | whatever envelope the inverses are given, the sets are so after every climb exactly when each step of the envelope is inverted by what the name of its first transition finds, and that inverse leads to no state of the envelope that makes the step by later transitions only, or not at all |
| WitnessBack.TrustedNeedsNames | its/ITSModel.cpp:688-694 | for trusted inverses this is the condition on the names |
| WitnessPath.NamesIff | its/ITSModel.cpp:633-703 | the names of all answers find their transitions exactly when each step from the envelope is made first by a transition that is the first of its name |
| WitnessPath.AnswersExactIff | its/ITSModel.cpp:556-719 | for inverses that invent no step, the same condition is exact for the answers to all questions |
| WitnessPath.LeastIsOne | its/ITSModel.cpp:642-659 | a question has one answer |
| WitnessPath.ClimbIsLeast | its/ITSModel.cpp:633-668 | of the shortest sequences the forward pass fires the lexicographically first |
| WitnessPath.FindPath | its/ITSModel.cpp:556-719 | a sequence as short as the shortest path of the chosen relation, or no path when there is none; when the search stays inside, the first of the shortest with all states but the last in the envelope, ending in exactly the goal states it leads to; in imprecise answers starting in the nearest starts; in precise ones, and with all sets shown, each set is exactly the states it passes there on its way from a start to the goal, or empty when a later name misleads, so that every state shown is entered and left by the transitions named |
| WitnessPath.ShownSteps | its/ITSModel.cpp:661-714 | each state on such a way is entered from the set before and leaves into the set after, by the transition of the step |
| WitnessPath.ClimbMidway | its/ITSModel.cpp:661-703 | where the inverses keep what can step on and nothing else, the backward pass leaves exactly the states on such ways |
| WitnessCycle.CycleIffPred | its/ITSModel.cpp:527-535 | a cycle of n+1 steps through a state is a path of n steps to its predecessors |
| WitnessCycle.ClosingStep | its/ITSModel.cpp:542-549 | the first transition that closes the loop, or none does |
| WitnessCycle.PathTakenIsOne | its/ITSModel.cpp:535 | the path before the closing step is determined by state and set |
| WitnessCycle.FindCycle | its/ITSModel.cpp:527-554 | with predecessors in the set: a shortest cycle through the chosen state inside the set exactly when there is one, otherwise the step into the state; all sets are determined, the one before the last being exactly the states the path leads to inside the set from which a step leads back, and the first transition that does closes the loop; an open answer without predecessors, and exactly when a name of the path misleads |
| WitnessCycle.CycleSteps | its/ITSModel.cpp:542-551 | with all sets shown every state of the path is entered and left by the transitions named; before the closing step every state has a step back, and by the one named exactly when it takes them all back |
| WitnessCycle.CycleAnswerIsOne | its/ITSModel.cpp:527-554 | a question has one answer |
| WitnessInputs.GoalOutside | its/ITSModel.cpp:574-603 | a goal outside the envelope for which two steps through a state outside are found where the shortest path inside has three |
| WitnessInputs.ReadsPastTheEnd | its/ITSModel.cpp:661-681 | an inverse trusted in the envelope that invents a start the forward pass cannot leave |
| WitnessInputs.EqualNames | its/ITSModel.cpp:688-694 | two transitions of one name of which the second makes the only step: every answer's names mislead |
| WitnessInputs.EqualNamesInCycle | its/ITSModel.cpp:535-549 | a cycle of two steps that is not found because of equal names |
| WitnessInputs.NoEnvelope | its/ITSModel.cpp:688-694 | right names, but the empty envelope argument empties the first set |
| WitnessInputs.LooksLikeACycle | its/ITSModel.cpp:527-554 | a state on no cycle for which the only answer is one real step ending in the state |
| WitnessInputs.SomeCannotClose | its/ITSModel.cpp:542-549 | a cycle shown with a state before its last step that cannot make that step |
| Witnesses.FindFrom | its/ITSModel.cpp:383-409 | the next transition at a cursor that matches, skipping none that does |
| Witnesses.Descend | its/ITSModel.cpp:381-417 | completes the next witness in order, or reports a level that is used up with nothing skipped |
| Witnesses.ResetFrom | its/ITSModel.cpp:473-477 | cursors behind the level restart, the one before it moves on |
| Witnesses.EnumHas | its/ITSModel.cpp:375-481 | the enumeration holds exactly the sequences that cross the layers |
| Witnesses.EnumSorted | its/ITSModel.cpp:375-481 | in lexicographic order, none twice |
| Witnesses.SearchStage | its/ITSModel.cpp:370-481 | for any sequence of sets: ends, and prints the first `limit` of the enumeration, all when there are no more |
| Witnesses.StageHas | its/ITSModel.cpp:375-481 | crossing the layers is being a shortest witness of some start state |
| Witnesses.StartsIff | its/ITSModel.cpp:368-481 | every stage, for any part of the starts and any goal, lists shortest witnesses only, exactly when no start outside the envelope makes a step, other than to itself, into it or to a goal |
| Witnesses.RemainIsFurther | its/ITSModel.cpp:464 | the start states left for the recursion are exactly those farther from the goal |
| Witnesses.PrintPaths | its/ITSModel.cpp:281-483 | ends, and under that condition prints the first `limit` shortest witnesses of all start states, by length and then lexicographically, each once, and all if there are no more |
| Witnesses.FirstReported | its/ITSModel.cpp:281-719 | the first witness printed is the one `findPath` answers with |
| WitnessInputs.StartOutside | its/ITSModel.cpp:368-409 | a stage that lists the step of a start outside the envelope though it is no witness inside |
| AigerCycles.CheckForCycles | its/aiger/aiger.c:809-885 | ends, and reports an error exactly when a cycle runs through gates unmarked at the start; on success no gate is flagged on-stack and all are marked; only gates get marks |
| AigerCycles.SearchFrom | its/aiger/aiger.c:825-882 | the search from one gate finds a cycle or finishes everything below it, operands first |
| AigerCycles.RankExcludesCycle | its/aiger/aiger.c:809-885 | numbers that fall along dependencies exclude cycles |
| AigerCycles.MarksRightIff | its/aiger/aiger.c:824-828 | the check reports every cycle of every net exactly when no variable but 0 is marked at the start |
| AigerBuild.SettledIsExact | its/aiger/aiger.c:824-828 | marks hide no cycle when what is marked lies among gates that read only defined variables and each other and have no cycle |
| AigerBuild.CheckSettles | its/aiger/aiger.c:888-905 | marks are so after every successful check |
| AigerBuild.Check | its/aiger/aiger.c:645-905 | no error exactly when the named literals and the operands are defined and no cycle runs through unmarked gates; what a success marks |
| AigerBuild.CheckIsExact | its/aiger/aiger.c:888-905 | on all runs this is being a checked circuit |
| AigerBuild.GrowSettles | its/aiger/aiger.c:353-536 | and stay so when a variable that had no type gets one |
| AigerBuild.MarksNeverHide | its/aiger/aiger.c:353-536 | so on every run of additions, successful checks and re-encodings the next check sees all cycles |
| AigerBuild.InputAdded | its/aiger/aiger.c:353-379 | one more input at the end of its table and in the types; all other entries and types stay, new variables are unused |
| AigerBuild.LatchAdded | its/aiger/aiger.c:381-413 | one more latch, reset to 0, likewise |
| AigerBuild.AndAdded | its/aiger/aiger.c:502-536 | one more gate, likewise; its operands are in the type table |
| AigerNumbering.NewCode | its/aiger/aiger.c:1351-1360 | the variable gets the next two codes, all others keep theirs |
| AigerNumbering.NumberGate | its/aiger/aiger.c:1383-1453 | ends, and codes everything below the gate and only that, operands first, leaving no gate on-stack |
| AigerNumbering.ReencodeLit | its/aiger/aiger.c:1362-1466 | every literal gets its code, earlier codes stay, only gates below it are added |
| AigerCircuit.AcyclicHasRank | its/aiger/aiger.c:809-885 | an acyclic net has such numbers |
| AigerCircuit.MaxInputOrLatch | its/aiger/aiger.c:1279-1303 | the largest literal among inputs and latches |
| AigerRenumbered.CodedMeans | its/aiger/aiger.c:1351-1360 | the code table translates every coded literal and keeps its sign |
| AigerRenumbered.RenumberedNormal | its/aiger/aiger.c:1576-1666 | inputs, latches and gates end consecutive, operands ordered and below their gate, types match the tables, and the circuit is checked again |
| AigerRenumbered.ConeSurvives | its/aiger/aiger.c:1576-1603 | a gate survives exactly when it is in the cone of some named literal |
| AigerRenumbered.RenumberedMeansSame | its/aiger/aiger.c:1476-1653 | under every valuation of inputs and latches each next, reset, output, bad, constraint, justice and fairness literal keeps its value |
| AigerCompact.SortAnds | its/aiger/aiger.c:1605 | a permutation of the gates sorted by left-hand side |
| AigerCompact.SortedKept | its/aiger/aiger.c:1576-1605 | whichever sorted permutation it is, the kept gates end in the order of their new numbers |
| AigerReencode.ReencodeLits | its/aiger/aiger.c:1536-1572 | every literal of a list is replaced by its code and stays right as more is numbered |
| AigerReencode.Aiger.IsReencoded | its/aiger/aiger.c:1305-1349 | true exactly when inputs, latches and gates are numbered consecutively with ordered operands |
| AigerReencode.Aiger.NumberLeaves | its/aiger/aiger.c:1500-1520 | inputs and latches take the first codes in table order |
| AigerReencode.Aiger.NumberLatches | its/aiger/aiger.c:1525-1534 | next and reset of every latch are translated in place |
| AigerReencode.Aiger.NumberRoots | its/aiger/aiger.c:1525-1572 | every named literal is translated, only gates of the cone are numbered, everything else is as before |
| AigerReencode.Aiger.DropGates | its/aiger/aiger.c:1576-1603 | in place: exactly the coded gates remain, in order, translated and with the larger operand first |
| AigerReencode.Aiger.ResetTypes | its/aiger/aiger.c:1611-1630 | the types in use are those of the gates and nothing else |
| AigerReencode.Aiger.FixInputs | its/aiger/aiger.c:1632-1642 | inputs are renumbered and entered in the types |
| AigerReencode.Aiger.FixLatches | its/aiger/aiger.c:1644-1653 | latches are renumbered and entered in the types |
| AigerReencode.Aiger.Reencode | its/aiger/aiger.c:1476-1668 | a re-encoded circuit is left alone; any other ends renumbered, in normal form, with the same meaning; either way a second call changes nothing |
| AigerBytes.DeltaFits | its/aiger/aiger.c:948-967 | a 32-bit delta takes at most five bytes |
| AigerBytes.UndefinedShiftIff | its/aiger/aiger.c:2286-2329 | the undefined shift happens exactly on five bytes with the high bit set followed by one below 8 |
| AigerFormat.Import | its/aiger/aiger.c:338-351 | the type table reaches the variable, and nothing changes when it did before |
| AigerGrammar.LiteralIff | its/aiger/aiger.c:1907-1976 | a literal is read exactly from a decimal number, any leading zeros, equal to it modulo 2^32, and one white space character of the kind expected |
| AigerGrammar.DeltaIff | its/aiger/aiger.c:2286-2329 | a delta is read exactly from at most five bytes, the high bit set on all but the last, whose low bits add up to it modulo 2^32 |
| AigerGrammar.LiteralBack | its/aiger/aiger.c:1927-1976 | a number below 2^32 is read back from its decimal text, the rest of the stream untouched |
| AigerGrammar.DeltaBack | its/aiger/aiger.c:2286-2329 | and a delta from its bytes |
| AigerGrammar.LitsIff | its/aiger/aiger.c:2157-2197 | a list of literals is read exactly where so many are spelled, one a line, none beyond the largest variable |
| AigerGrammar.LitsRefusedIff | its/aiger/aiger.c:2163-2166 | and refused as invalid exactly where one beyond it is |
| AigerGrammar.CountsIff | its/aiger/aiger.c:2047-2060 | the counts are read exactly where five are spelled and up to four more, the last ones left out being zero |
| AigerGrammar.MaxvarRefusedIff | its/aiger/aiger.c:2067-2077 | the largest variable is refused exactly where the counts do not add up to it |
| AigerGrammar.ZerosMayBeLeftOut | its/aiger/aiger.c:2053-2060 | counts written as zero give the same header as counts left out |
| AigerGrammar.ExtraEndsAtLast | its/aiger/aiger.c:989-1019 | the writer ends the header at the last count that is not zero |
| AigerAccept.CountsFit | its/aiger/aiger.c:2067-2077 | counts that add up only modulo 2^32 are followed by nothing that can be read |
| AigerAccept.ReaderIff | its/aiger/aiger.c:2012-2370 | the reader accepts exactly the streams that spell a circuit whose tables match, numbered without gaps, operands ordered, every next, output, bad, constraint and fairness literal within its variables; and makes that circuit of them |
| AigerAccept.DecodeSound | its/aiger/aiger.c:2012-2370 | what is left is an end of the stream, tables match, literals are within bounds; there are as many variables as inputs, latches and gates exactly when no justice property names a larger one |
| AigerRoundTrip.HeaderBack | its/aiger/aiger.c:2047-2077 | the header, counts left out included, is read back when the counts add up, and refused otherwise |
| AigerRoundTrip.RoundTrip | its/aiger/aiger.c:1680-1713 | every circuit the reader can build without unused variables is read back exactly, every table and type, and nothing after it is touched |
| AigerRoundTrip.EncodeShortest | its/aiger/aiger.c:948-1106 | what is written is a shortest stream that spells the circuit: no leading zeros, zero counts or zero resets, and no longer deltas |
| AigerRoundTrip.ReadAgainIff | its/aiger/aiger.c:2067-2077 | what was read, written and read again, comes back exactly when no justice property names a variable that is no input, latch or gate, and is refused otherwise |
| AigerRoundTrip.JusticeUnchecked | its/aiger/aiger.c:2199-2218 | streams accepted though a justice property names any variable |
| AigerRoundTrip.OutputRefused | its/aiger/aiger.c:2157-2168 | an output that names another variable is refused as invalid |
| AigerRoundTrip.ReadBackIff | its/aiger/aiger.c:2067-2077 | a checked, re-encoded circuit is read back exactly when every variable is an input, a latch or a gate, and refused otherwise |
| AigerRoundTrip.UnusedVariableRefused | its/aiger/aiger.c:1305-1349 | a circuit that counts as re-encoded and is refused |
| AigerRoundTrip.ResetsStay | its/aiger/aiger.c:1531-1533 | resets stay constants or the latch itself |
| AigerStream.Buffer.Put | its/aiger/aiger.c:918-925 | one character, or a full buffer |
| AigerStream.Buffer.WriteDelta | its/aiger/aiger.c:948-967 | writes the whole encoding, or fills the buffer with as much as fits |
| AigerStream.Buffer.WriteExtra | its/aiger/aiger.c:989-1019 | the header ends at the last count that is not zero |
| AigerStream.Buffer.WriteHeader | its/aiger/aiger.c:969-1106 | header, latches, outputs and properties, or as much as fits |
| AigerStream.Buffer.WriteGates | its/aiger/aiger.c:1693-1710 | the deltas of all gates, or as much as fits |
| AigerStream.Buffer.WriteBinary | its/aiger/aiger.c:1680-1713 | re-encodes, writes the whole format or as much as fits; what was written reads back as the re-encoded circuit, unless it kept unused variables |
| AigerStream.Reader.ReadNumber | its/aiger/aiger.c:1907-1919 | the digits modulo 2^32, stopping at the first other character |
| AigerStream.Reader.ReadLiteral | its/aiger/aiger.c:1927-1976 | the literal and the white space after it, or the error of the first rule broken |
| AigerStream.Reader.ReadDelta | its/aiger/aiger.c:2286-2329 | the delta, or end of file, an invalid code or the undefined shift |
| AigerStream.Reader.ReadExtra | its/aiger/aiger.c:2053-2060 | counts that are missing stay zero |
| AigerStream.Reader.ReadHeaderLine | its/aiger/aiger.c:2021-2077 | the counts, or the error of the first rule broken, their sum included |
| AigerStream.Reader.ReadLatches | its/aiger/aiger.c:2115-2155 | each latch with next and optional reset, in order, as the grammar says |
| AigerStream.Reader.ReadGates | its/aiger/aiger.c:2331-2370 | each gate from its two deltas, as the grammar says |
| AigerStream.Reader.Read | its/aiger/aiger.c:2012-2237 | a stream is read exactly when it spells a circuit of that form, into that circuit, with an end of the stream left; otherwise the error of the first rule broken |
| Gal.GetValueIs | its/aiger/aigerModel.cpp:113-161 | the expression of a literal has the literal's value in every state |
| Gal.FixedIs | its/aiger/aigerModel.cpp:222-234 | once every input is asserted the expression has its value under the one-hot input |
| Gal.GenTransitions | its/aiger/aigerModel.cpp:163-254 | one action for each input, in order and named after it, the guard false without latches |
| Gal.MakeAction | its/aiger/aigerModel.cpp:220-246 | the action of that input: the guard and the assignments under the asserted inputs, identity assignments skipped |
| Gal.ActionIs | its/aiger/aigerModel.cpp:190-248 | enabled exactly when there is a latch and the last one's next value is 0 under the one-hot input; one circuit step exactly when the skipped latches hold 0 or 1 |
| Gal.RunIsCircuitRun | its/aiger/aigerModel.cpp:190-248 | every reachable state holds only 0 and 1, and every step of a run is a circuit step |
| Projector.ExtendIs | bin/Projector.hh:54-60 | the upward closure of the set, over the same variables |
| Projector.ExtractIs | bin/Projector.hh:129-158 | exactly the pointwise-minimal vectors are kept |
| Projector.AttacksListed | bin/Projector.hh:81-127 | the order of printing visits every minimal vector exactly once |
| Projector.AttackPrinter.Print | bin/Projector.hh:81-127 | one line for each minimal vector, in order: begun with nothing, the names at its 1s, from left to right, cut by five characters, with a comma and a space between; their number returned, earlier output kept; what is left in the shared prefix is said exactly |
| Projector.Ones | bin/Projector.hh:94-122 | the positions of the 1s, increasing and all of them |
| Projector.TextIs | bin/Projector.hh:111-121 | appending name by name to nothing gives the joined names |
| Projector.LineTells | bin/Projector.hh:111-121 | a line tells its vector when names differ and hold no comma |
| Projector.LinesDiffer | bin/Projector.hh:81-127 | then no line is printed twice |
| Projector.ProjectIs | bin/Projector.hh:19-29 | exactly the restrictions of the vectors to the variables with a kept name |
| Pool.NeighbourKeptIff | its/divine/pool.h:176-184 | returning an item keeps the chain in its free neighbour exactly when items hold a pointer |
| Pool.BlockFitsIff | its/divine/pool.h:81-92 | after a block that holds an item the next one does exactly for items of at most 4 MB |
| Pool.UsedFitsIff | its/divine/pool.h:157-165 | used bytes stay within the total through any number of allocations exactly for items of at most 4 MB; above, allocation 4097 exceeds it |
| Pool.StoreKeepsChains | its/divine/pool.h:176-184 | a store inside a live item leaves every free chain |
| Pool.NewEnd | its/divine/pool.h:81-92 | a new block keeps items and unused ends apart and the counts right |
| Pool.AddGroupOk | its/divine/pool.h:120-142 | so does a new group |
| Pool.TakeSpareOk | its/divine/pool.h:154-156 | so does handing out the first free item |
| Pool.TakeEndOk | its/divine/pool.h:157-163 | so does handing out the next bytes of a block |
| Pool.GiveBackOk | its/divine/pool.h:187-202 | so does taking back a live item, freed or stolen |
| Pool.TakeInOk | its/divine/pool.h:205-221 | so does taking in memory from elsewhere |
| Pool.Pool.CreateGroup | its/divine/pool.h:120-142 | a group with one block at the address given and no item, its chain empty; all other groups, items and chains stay, those added are empty |
| Pool.Pool.NewBlock | its/divine/pool.h:81-92 | room for an item in a block at the address given; the chain and all other groups stay |
| Pool.Pool.Allocate | its/divine/pool.h:144-168 | the head of the free chain, whose rest stays, with block and total as they were; without free items the next bytes of the block when they hold the item, else the start of the block given; always an item that was not live, apart from all that are, and `used <= total` |
| Pool.Pushed | its/divine/pool.h:176-184 | the released item heads the chain of its group, every other chain is as before |
| Pool.Pool.Free | its/divine/pool.h:187-202 | null does nothing; otherwise exactly that item stops being live and stands before the old chain, `used` drops by its size, all other groups stay |
| Pool.Pool.Steal | its/divine/pool.h:205-221 | the item, from here or elsewhere, is not live and stands before the old chain, the total grows by its size, all other groups stay |
| Pool.FreedComesBack | its/divine/pool.h:144-202 | an item freed is the next one allocated of its size, and the two calls together change nothing |
| Pool.StolenComesBack | its/divine/pool.h:144-221 | so is an item stolen, with the chain behind it as before |
| Pool.LastFreedFirst | its/divine/pool.h:144-202 | items freed one after another come back last first, which restores groups, live items and chains |
| Pool.Pool.ClientStore | its/divine/pool.h:144-168 | a client that writes inside its item cannot harm the pool |

## Left out

- Decision diagrams, BDDs, reference counts, caches and garbage collection: sets, relations and sets of valuations stand for them. The cache and the recursion of `getSelector`, and the type argument it drops, are not modelled.
- Label strings of automata arcs: labels are keys themselves, which assumes the printed form is injective.
- Deadlock stuttering: `getDivergent` uses the plain relation, so it is taken to be off.
- The FSA and FST modes of the aggregating product, the testing automata, the dynamic and the BCZ99 graphs, and time elapse.
- Printing of states and paths, and what `printPaths` prints of intermediate states.
- WitnessCycle.FindCycle: the starts are required to be reachable, where the relation the predecessors are taken from is trusted, and not empty.
- WitnessPath.FindPath: inverses are assumed to agree with the true predecessors between states of the envelope; for goals outside it the agreement is a hypothesis of the clauses that need it. What the answer is after the backward pass has run out of names is not said.
- Witnesses.PrintPaths: starts and envelope are required to be reachable, inverses to be trusted from the goals, and the search to stay inside the envelope (`StaysInside`); `GoalOutside` shows what the search finds otherwise. The one caller passes reachable sets only.
- Its.BuildPredRel: each inverse is assumed to agree with the true predecessors inside the envelope, as the homomorphism library promises.
- AigerBuild.MarksNeverHide: after a re-encoding that drops variables, calls that name a variable above the new maximum are not part of the runs, since dropped variables keep their old types in the table; nor are calls that break an assertion.
- AigerStream.Reader.ReadHeaderLine: a header that announces the text format ends in an outcome of its own.
- Deallocation, growth of tables, symbols, names, comments and the text format of AIGER; the binary reader stops with an outcome of its own when the header announces the text format.
- Line and character positions in the reader's messages; errors are kept by kind.
- AigerReencode.Aiger.Reencode: the 32-bit size of the code table is not modelled; the round trip requires numbers to fit a word.
- Simplification of expressions beyond folding constants, and latches or inputs with equal names: two latches with one name would be one variable.
- The terminal `top` of the diagrams in `Projector`.
- Pool.Pool.Allocate: items of at most four bytes or above 4 MB are excluded, since for them the invariant fails; the address operator new returns is a parameter, apart from everything the pool uses.
- Pool.Pool.CreateGroup: the same sizes are excluded, a group for them could not keep the invariant.
- Pool.Pool.Steal: likewise.
- Copying and destroying pools.
