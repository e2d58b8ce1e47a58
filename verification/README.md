# Verification of the propagator runtime

A Dafny model of the self-contained algorithmic cores of the repository, with proofs about
every input, every run or every reachable state. Cores that update state in place are
classes and methods with loops, proved against functions on values; the main results are
lemmas about those functions.

## What is modelled

- **Datalog** (`LogicProgram`, `LeastModel`): the extended resolver (Eq, Neq, Or, And, Pred,
  NegFact) and the naive fixpoint. It halts on every finite program, and for stratified,
  range-restricted programs it returns exactly the least model.
- **Cells and propagators over fact sets** (`FactSets`, `FactNetwork`, `KiroshiBridge`): a
  network of fact-set cells as a state machine. At quiescence every cell holds the composed
  least model, whatever the batches and the firing order; the incremental bridge agrees with
  batch evaluation.
- **Topology** (`Digraph`, `Topology`): breadth-first reachability is exact, and agrees with
  the Datalog reachability programs over well-formed snapshots, from the facts to the built
  graph and its enumerated pairs.
- **Graph rewriting** (`AccessorCollapse`): collapsing accessor chains keeps reachability and,
  with the default test, is idempotent.
- **Relational queries** (`Unification`, `UnifyRuns`, `RelQuery`, `QueryCompiler`):
  unification is most
  general whenever it ends, goals run exactly, and compiled queries answer exactly the
  satisfying assignments. A run is a function with a bound on its depth; a run that exceeds
  every bound is one that does not end.
- **Card synchronisation** (`SlotMap`, `CardStore`, `CardSync`, `CardRegistry`,
  `PushSession`): slot-map diffs drive the card and connector structure; the structure follows
  the slot map over every run, and links stay safe.
- **Sessions** (`SessionQueue`, `PushIterable`): producer and consumer protocols as state
  machines over their atomic steps; no message and no wakeup is lost.
- **Hashing and storage** (`CanonicalJson`, `SimpleHash`, `GunResolve`, `WireCodec`): the
  canonical text reads back by the grammar of JSON and tells values apart, the hash is a
  polynomial modulo 2^32, reference resolution ends on cyclic stores, returns the value of
  the full unfolding and is independent of the order of reads (`GunOrder`) exactly when
  stated, and the wire codec round trips exactly on the values stated.
- **Latest wins** (`LatestWins`): the fold over a value set does not depend on its order, up
  to the clock in the cases stated.

What an operation computes is stated without naming the function that computes it: parsing,
printing, selecting, forwarding and rendering are compared with relations written out in
literals (`ParseExact`, `EdgesExact`, `PrintReads`, `HeadPredicatesExact`, `ResolutionExact`,
`EncodeSpells`).

Several properties one would expect do not hold of the code as written. For each of them
there is a lemma with a concrete input and, where it makes sense, the exact condition under
which the property holds:

- The comparison of fact sets is not set equality: [x, x] and [x, y] compare as equal
  (`EqualWithRepetitions`). A list is compared correctly with every duplicate-free list
  exactly when it is duplicate-free itself (`ComparedRightIff`). The old and the merged
  content of a cell are never confused (`ChangeDetection`).
- A later stage with negation depends on the schedule, since merging never retracts
  (`NegationDependsOnSchedule`). The network is right exactly when every earlier result of a
  stage is inside its last one (`DenotesIff`); that is so when no fact a stage negates arrives
  after its first firing (`UndisturbedDenotes`). For a single stage, `AlwaysRightIff` says when
  every schedule is right.
- Enumerating reachable pairs loses pairs when ids contain the arrow of the printed form
  (`EnumerateReachablePairs`, `KeysCollide`).
- The upstream query of a node returns the nodes downstream of it, because the node variable
  is passed first (`UpstreamQueryIsDownstream`, with a graph in `UpstreamMissesSource` and the
  exact condition in `UpstreamRightIff`).
- Unification has no occurs check (`NoOccursCheck`), so it may return bindings without a
  solution, and on such bindings it may run forever (`CyclesRunForever`, exact condition in
  `RunEndsIff`). Every run that ends
  is exact all the same; bindings have a solution exactly when no variable leads back to
  itself (`SolvableIff`), and a unifier exists exactly when the run ends with such bindings
  (`UnifiableIff`).
- A query may find what does not exist when its projection hides a cyclic variable
  (`CyclicQueryFound`, exact condition in `UnsatisfiableFoundIff`); with the default projection
  it never does (`GraphRelExistsQuery`).
- Collapsing accessors twice may differ from collapsing once for an accessor test that looks
  at edges (`SinksCollapseAgain`, exact condition in `CollapseIdempotentIff`).
- A soul that is referenced several times is resolved once, and the other references become
  null (`CompleteCounts`). The value returned is that of the full unfolding exactly when such
  souls resolve to null anyway and nesting is within the limit (`UnfoldsIff`). Which reference
  is resolved may depend on the order in which reads complete (`OrderMatters`); when it does
  is stated by `OrderIrrelevantIff`.
- An undefined value pushed into the async iterable hides what is queued behind it once it is
  closed (`UndefinedHidesValues`, exact condition in `AllDeliveredIff`).
- Adding a card that is present is safe only if it has no active link (`ReAddSafeIff`), and a
  push of a delta throws exactly under the condition of `SucceedsIff`.
- The vector clock of the strongest value may depend on the order (`ClockDependsOnOrder`): it
  does exactly when some clock exceeds what survives a contradiction (`ClockOrderIff`). Which
  clocks count in one order is stated by `ClockIsJoin`, and which may be left out in some
  order by `DroppedIff`.
- Elements whose value is a list do not survive the wire, nor do bodies of several lists, other
  layers, or entries named like the tag (`RoundTripIff`).
- The depth limit of reference resolution starts again at every reference and at every graph,
  so it bounds nesting inside one record, not the whole unfolding (`Shallow`); an error below
  a reference turns that reference into null.

## Model

| member | source | states |
|---|---|---|
| LogicProgram.UnifyTermsExact | compiler/datalog/LogicProgram.ts:132-135 | Unifying an argument of Eq with another under a binding dictionary is exact: the valuations of the extended dictionary are those of the old one that make both arguments equal; failure means there is none. |
| LogicProgram.UnifyPremiseExact | compiler/datalog/LogicProgram.ts:132-135 | Matching a body atom against a fact succeeds exactly for the valuations that instantiate the atom to that fact. |
| LogicProgram.AddIfNew | compiler/datalog/LogicProgram.ts:137-144 | Searching the list with the elementwise comparison of facts decides membership: the contents afterwards are the union with the fact, nothing is repeated that was not, and the answer says whether it was new. |
| LogicProgram.ResolveExtended | compiler/datalog/LogicProgram.ts:186-261 | The recursive resolver, with its result lists filled in loops and its six kinds of literals, returns exactly the heads that the premises yield. |
| LeastModel.ResolverSound | compiler/datalog/LogicProgram.ts:186-261 | Every emitted head is the instance, under one valuation, of a head whose body holds in the facts: Or, And, Eq, Neq, Pred and NegFact read declaratively. |
| LeastModel.ResolverComplete | compiler/datalog/LogicProgram.ts:186-261 | Every instance of a body that holds is emitted, when the rule alone shows that variables of Pred, Neq, NegFact and the head have values in time; equalities of variables without values link them. |
| LeastModel.OutlineUnify | compiler/datalog/LogicProgram.ts:208-216 | Which variables have a value, and which are linked, is decided by the rule alone: forgetting the values commutes with unification. |
| LeastModel.EqualityLinks | compiler/datalog/LogicProgram.ts:208-216 | q(Y) :- X = Y, p(X) meets that condition: the equality is read before either side has a value. |
| LeastModel.ResolverWithin | compiler/datalog/LogicProgram.ts:127-130 | Emitted facts use only constants of the facts, the rules and the bindings, and have the length of their head. |
| LeastModel.BaseClosed | compiler/datalog/LogicProgram.ts:270-285 | There is a finite set, built from the given facts and the rules alone, that one pass never leaves. |
| LeastModel.Step | compiler/datalog/LogicProgram.ts:273-281 | One pass adds only new derivable facts inside that finite set, reports a change exactly when the fact set grew, and without a change nothing derivable is missing. |
| LeastModel.EvaluateExtendedNaive | compiler/datalog/LogicProgram.ts:270-285 | The fixpoint loop halts on every finite program, unstratified negation included; given stratification and range restriction its result is exactly the least model over the given facts, and a model of its own negated atoms. |
| LeastModel.HoldsIgnoresHeads | compiler/datalog/LogicProgram.ts:60-70 | A body cannot tell apart two fact sets that differ only in instances of heads its negated templates cannot match. |
| LeastModel.HoldsMonotone | compiler/datalog/LogicProgram.ts:186-261 | With negation read against a fixed set, bodies stay true when facts are added. |
| LeastModel.FoundedBelow | compiler/datalog/LogicProgram.ts:270-285 | Whatever the loop adds belongs to every model of the rules over the given facts. |
| LeastModel.SaturatedClosed | compiler/datalog/LogicProgram.ts:283 | When a pass adds nothing, the facts are closed under the declarative rules. |
| LeastModel.LoopResultIsLeastModel | compiler/datalog/LogicProgram.ts:270-285 | Every result the loop can end with, in any rule and fact order, is the least model. |
| LeastModel.LeastModelUnique | compiler/datalog/LogicProgram.ts:270-285 | There is at most one least model, so no evaluation order matters. |
| LeastModel.LeastModelOfSets | compiler/datalog/LogicProgram.ts:270-285 | Order and repetition of rules and of given facts do not change the result. |
| LeastModel.StandardIsPositive | compiler/datalog/LogicProgram.ts:157-168 | A program that is not routed to the extended engine contains no negation at any depth of Or and And. |
| LeastModel.ExtendedExact | compiler/datalog/LogicProgram.ts:156-184 | A program needs the extended evaluator exactly if a built-in test or a negated fact is written in some body, at any depth of disjunctions and conjunctions. |
| LeastModel.PositiveStratified | compiler/datalog/LogicProgram.ts:157-168 | A negation-free program is stratified. |
| LeastModel.EvaluateProgram | compiler/datalog/LogicProgram.ts:297-311 | For every program: the strategy decides the engine, and a program in which a built-in test or a negated fact is written anywhere is kept from the library engines; the extended loop keeps its promises; given range restriction and stratification each of the three returns the least model, the library engines being trusted for safe standard programs only. |
| LeastModel.NegationIrrelevant | compiler/datalog/LogicProgram.ts:157-168 | Negation-free bodies do not depend on the set negation is read against. |
| LeastModel.LeastModelMonotone | compiler/datalog/LogicProgram.ts:297-311 | Least models of negation-free programs grow with the given facts. |
| LeastModel.LeastModelGrows | compiler/datalog/LogicProgram.ts:60-70 | With negation they grow as long as no added fact is an instance of a negated template. |
| FactSets.MergeIsUnion | compiler/datalog/DatalogPropagator.ts:65-69 | Merging keeps the old list as a prefix and yields the union as a set. |
| FactSets.MergeNoDup | compiler/datalog/DatalogPropagator.ts:65-69 | Merging duplicate-free lists gives a duplicate-free list. |
| FactSets.ChangeDetection | compiler/datalog/DatalogPropagator.ts:65-73 | Old and merged content compare as equal exactly when the increment brings no new fact, that is when they are equal as sets, duplicates or not. |
| FactSets.EqualIsSetEquality | compiler/datalog/DatalogPropagator.ts:71-73 | On duplicate-free lists the comparison by length and one-sided containment is set equality. |
| FactSets.ComparedRightIff | compiler/datalog/DatalogPropagator.ts:71-73 | A list is compared correctly with every duplicate-free list if and only if it is duplicate-free itself. |
| FactSets.EqualWithRepetitions | compiler/datalog/DatalogPropagator.ts:71-73 | With repetitions it is not: [x, x] and [x, y] compare as equal. |
| FactNetwork.DenotationUnique | compiler/datalog/DatalogPropagator.ts:182-202 | A network of cells and programs has at most one composed least model over what its sources were given. |
| FactNetwork.FeedInv | compiler/datalog/DatalogPropagator.ts:65-73 | An update of a source cell keeps every derived cell below its least model and schedules every reader whose inputs changed. |
| FactNetwork.FireInv | compiler/datalog/DatalogPropagator.ts:182-202 | A firing propagator brings its cell up to the least model of its current inputs and keeps the invariant elsewhere. |
| FactNetwork.RunInv | compiler/datalog/DatalogPropagator.ts:182-202 | Both hold in every state of every interleaving of updates and firings. |
| FactNetwork.QuiescentDenotes | compiler/datalog/DatalogPropagator.ts:182-202 | Whenever nothing is scheduled, every cell holds the composed least model of everything given so far (negation-free programs). |
| FactNetwork.ScheduleIndependence | compiler/datalog/DatalogPropagator.ts:182-202 | Two runs given the same facts, in any batches and firing orders, end with the same fact sets in all cells. |
| FactNetwork.FiringTerminates | compiler/datalog/DatalogPropagator.ts:182-202 | Between two updates only finitely many propagators fire, whichever is picked. |
| FactNetwork.Network.constructor | compiler/datalog/DatalogPropagator.ts:182-202 | A new network starts with empty cells and every program scheduled. |
| FactNetwork.Network.Update | compiler/datalog/DatalogPropagator.ts:65-73 | A live update of a source cell is a feeding step of the state machine. |
| FactNetwork.Network.AddContent | compiler/datalog/DatalogPropagator.ts:65-73 | Content is merged; readers are scheduled exactly when the merged set differs. |
| FactNetwork.Network.RunProgram | compiler/datalog/DatalogPropagator.ts:182-202 | For every program: gathering the inputs in a loop, evaluating and writing is one write of what the engine returned; for safe stratified programs that is a firing step of the state machine. |
| FactNetwork.WireSequentialPrograms | compiler/datalog/NetworkDatalogPipeline.ts:80-93 | Wiring programs one after the other builds the chain in which each stage reads only the stage before. |
| FactNetwork.ChainComposes | compiler/datalog/NetworkDatalogPipeline.ts:80-93 | At quiescence stage i is exactly the least model of program i over stage i-1, for every run. |
| FactNetwork.FiringBetweenBatches | compiler/datalog/DatalogPropagator.ts:182-202 | A run in which a stage with negation fires between two batches. |
| FactNetwork.OneBatch | compiler/datalog/DatalogPropagator.ts:182-202 | The run in which the same facts arrive in one batch. |
| FactNetwork.NegationDependsOnSchedule | compiler/datalog/DatalogPropagator.ts:65-73 | Because merging never retracts, those two quiescent runs, given the same facts, differ: schedule independence fails with negation. |
| FactNetwork.CellIsUnion | compiler/datalog/DatalogPropagator.ts:65-69 | In every state of every run, with or without negation, a cell is the union of what was sent to it or what its firings returned. |
| FactNetwork.NotPending | compiler/datalog/DatalogPropagator.ts:182-202 | A propagator that is not scheduled has fired, and its inputs have not changed since its last firing. |
| FactNetwork.DenotesIff | compiler/datalog/DatalogPropagator.ts:182-202 | Negation or not: a quiescent network holds the composed least model if and only if no firing returned a fact that the last firing of its cell did not return. |
| FactNetwork.UndisturbedDenotes | compiler/datalog/DatalogPropagator.ts:182-202 | So it does whenever, once a stage has fired, no further fact that matches one of its negated templates is written to its inputs. |
| FactNetwork.UndisturbedIndependence | compiler/datalog/DatalogPropagator.ts:182-202 | Two such runs given the same facts end with the same fact sets in all cells. |
| FactNetwork.AlwaysRightIff | compiler/datalog/DatalogPropagator.ts:182-202 | A single stage is right under every schedule if and only if, for all facts that can have come first, what the program derives from them it derives from all facts as well. |
| KiroshiBridge.FactArrayMerge | compiler/datalog/KiroshiPropagator.ts:84-92 | The store merge keeps the content as a prefix, adds each new fact once and forms the union. |
| KiroshiBridge.Kiroshi.constructor | compiler/datalog/KiroshiPropagator.ts:146-184 | Nothing has been asserted and nothing is in the output. |
| KiroshiBridge.Kiroshi.UpdateCell | compiler/datalog/DatalogPropagator.ts:65-69 | An update extends one input cell by the merge and touches nothing else. |
| KiroshiBridge.Kiroshi.PassNew | compiler/datalog/KiroshiPropagator.ts:186-199 | One cell: exactly the facts after the seen count are asserted, and the count catches up. |
| KiroshiBridge.Kiroshi.AssertAll | compiler/datalog/KiroshiPropagator.ts:195-197 | All given facts are asserted, once each, in order. |
| KiroshiBridge.Kiroshi.AssertedIsAll | compiler/datalog/KiroshiPropagator.ts:186-199 | With all counts caught up, the asserted facts are those of the input cells. |
| KiroshiBridge.Kiroshi.Bridge | compiler/datalog/KiroshiPropagator.ts:183-199 | However updates and runs of the bridge interleave, afterwards every fact of every cell has been asserted exactly once for its cell, and nothing else. |
| KiroshiBridge.Kiroshi.ForwardOne | compiler/datalog/KiroshiPropagator.ts:167-175 | A forwarder that fires on a store that is still growing adds exactly the facts in it, all of which belong to the least model. |
| KiroshiBridge.HeadPredicatesExact | compiler/datalog/KiroshiPropagator.ts:133-134 | The forwarded predicates are the first terms of all non-empty heads, each once. |
| KiroshiBridge.Kiroshi.Forward | compiler/datalog/KiroshiPropagator.ts:161-177 | Once every forwarder has fired on the finished engine, the output holds exactly the engine's facts whose first element is the first term of the head of some rule. |
| KiroshiBridge.RunToQuiescence | compiler/datalog/KiroshiPropagator.ts:146-200 | Incremental agrees with batch: after any history and any early firings of forwarders, the output holds exactly the facts of the least model of all input cells whose first element is the first term of the head of some rule. |
| Digraph.ReachesTransitive | compiler/tracer/graph_relations.ts:287-311 | Reachability by non-empty paths is transitive. |
| Digraph.ReachesReversed | compiler/tracer/graph_relations.ts:326-333 | Reaching in the reversed graph is reaching backwards. |
| Digraph.BfsFrom | compiler/tracer/graph_relations.ts:287-311 | The queue search finds exactly the nodes reachable by a non-empty path, each once. |
| Digraph.EnumerateReachablePairs | compiler/tracer/graph_relations.ts:287-311 | Only reachable pairs are listed, none twice; all of them are listed if and only if no two reachable pairs print alike. |
| Digraph.KeysDistinctWithoutArrows | compiler/tracer/graph_relations.ts:287-311 | Pairs print differently when no id contains the arrow used in the printed form. |
| Digraph.KeysCollide | compiler/tracer/graph_relations.ts:287-311 | A graph with arrows in its ids whose reachable pairs print alike. |
| AccessorCollapse.ReachNonAccessor | compiler/tracer/graph_combinators.ts:178-205 | The search returns exactly the kept nodes reached through accessors only. |
| AccessorCollapse.KeepNodes | compiler/tracer/graph_combinators.ts:218-221 | Exactly the non-accessor nodes are copied, with their attributes. |
| AccessorCollapse.AddEdges | compiler/tracer/graph_combinators.ts:224-232 | Exactly the edges to those targets that are kept nodes are added, none twice. |
| AccessorCollapse.CollapseAccessorPaths | compiler/tracer/graph_combinators.ts:212-235 | The result has an edge u to v exactly when u and v are different kept nodes joined by a path whose inner nodes are all accessors. |
| AccessorCollapse.ReachabilityPreserved | compiler/tracer/graph_combinators.ts:212-235 | Between different kept nodes, reachability is the same before and after. |
| AccessorCollapse.CollapseIdempotentIff | compiler/tracer/graph_combinators.ts:212-235 | Collapsing twice equals collapsing once if and only if no kept node is an accessor in the collapsed graph. |
| AccessorCollapse.DefaultCollapseIdempotent | compiler/tracer/graph_combinators.ts:169-235 | With the default accessor test this is always so. |
| AccessorCollapse.DefaultAccessorExact | compiler/tracer/graph_combinators.ts:169-172 | By default a node is an accessor exactly if its label starts with the accessor prefix. |
| AccessorCollapse.SinksCollapseAgain | compiler/tracer/graph_combinators.ts:209-216 | With a custom test that looks at edges it is not: a chain of three nodes loses one node in each pass. |
| Topology.CollectAttrs | compiler/datalog/NetworkTopologyGraphology.ts:112-150 | The fold in fact order and the recursive definition agree for every kept id; ids no fact speaks of keep the defaults. |
| Topology.AttrsExact | compiler/datalog/NetworkTopologyGraphology.ts:112-150 | Each attribute is decided by the last fact about the node under one of its tags (for the kind, with one of its two texts), whatever other facts come between. |
| Topology.AddLinks | compiler/datalog/NetworkTopologyGraphology.ts:161-178 | Exactly the read and write facts between existing nodes become edges. |
| Topology.GraphFromTopologyFacts | compiler/datalog/NetworkTopologyGraphology.ts:112-181 | The graph has the selected entities as nodes and, between them, exactly the links of the facts; the label, namespace, level, kind and value of a node are what the last fact that bears on each of them says, or the default. |
| Topology.ModelJustified | compiler/datalog/TopologyFacts.ts:151-165 | Everything in the least model of the reachability program corresponds to a flow or a path in the graph. |
| Topology.PathDerived | compiler/datalog/TopologyFacts.ts:151-165 | Every path between cells is derived, by induction on its length. |
| Topology.TwoReachabilitiesAgree | compiler/datalog/TopologyFacts.ts:151-165 | For well-formed snapshots, the Datalog program derives reachable(a,b) if and only if b is reachable from a in the graph. |
| Topology.MutualReachAgrees | compiler/datalog/TopologyOrientationPrograms.ts:24-42 | The mutual-reach program derives the same reachable pairs, and mutual_reach exactly for pairs that reach each other in the graph. |
| Topology.ReachabilityTwice | compiler/datalog/NetworkTopologyGraphology.ts:112-181 | From one snapshot: the pairs listed by the search in the built graph are derived by the program, and all derived pairs are listed when no two reachable pairs print alike, in particular when no id contains the arrow head. |
| Topology.ReachabilityIsStandard | compiler/datalog/TopologyFacts.ts:151-165 | Both reachability programs meet the conditions of the least-model theorem. |
| Topology.OneWayIsStratified | compiler/datalog/TopologyOrientationPrograms.ts:84-108 | The one-way program is stratified and range restricted. |
| Topology.OneWayExact | compiler/datalog/TopologyOrientationPrograms.ts:84-108 | Its least model contains a one-way fact exactly for the listed pairs reachable in one direction only. |
| Topology.OneWayMatchesGraph | compiler/datalog/TopologyOrientationPrograms.ts:84-108 | Run on the mutual-reach model, it reports a pair of ids if and only if both are of the triad and the graph reaches the second from the first and not back. |
| Unification.ResolveVar | compiler/tracer/graph_relations.ts:56-62 | Following a chain of bindings halts and ends at an unbound variable or a non-variable. |
| Unification.UnifyExact | compiler/tracer/graph_relations.ts:86-127 | Every run that ends is exact: the new bindings are solved by exactly the assignments that solve the old ones and equate both terms, so the unifier is most general; null means there are none. |
| Unification.UnifierEnds | compiler/tracer/graph_relations.ts:86-127 | When a unifier exists, the run ends. |
| Unification.UnifiableIff | compiler/tracer/graph_relations.ts:86-127 | Two terms have a unifier if and only if the run ends with bindings in which no variable leads back to itself. |
| Unification.EndsOrCloses | compiler/tracer/graph_relations.ts:86-127 | From bindings without cycles every run ends or makes a binding that leads back to its own variable. |
| Unification.CompatibleEnds | compiler/tracer/graph_relations.ts:86-127 | A run in which variables only meet variables or variable-free terms ends without such a binding. |
| Unification.CyclesRunForever | compiler/tracer/graph_relations.ts:80-84 | On cyclic bindings it may not end: two lists that contain themselves. |
| UnifyRuns.RunEndsIff | compiler/tracer/graph_relations.ts:86-127 | A run ends if and only if it never meets two compound terms below themselves with the same bindings. |
| UnifyRuns.EndingNeverRepeats | compiler/tracer/graph_relations.ts:86-127 | A run that ends never comes back to a meeting it is inside of. |
| Unification.SolvableIff | compiler/tracer/graph_relations.ts:80-84 | Bindings have a solution if and only if no variable is bound to a term that leads back to it. |
| Unification.SameKeysExact | compiler/tracer/graph_relations.ts:110-124 | The key comparison of two objects is equality of their key sets. |
| Unification.FieldsEqual | compiler/tracer/graph_relations.ts:110-124 | Objects denote the same value exactly when keys and the values under them agree. |
| Unification.ReifyValue | compiler/tracer/graph_relations.ts:154-168 | Whenever reading back ends, the result denotes what the term denotes under every solution of the bindings, and contains no bound variable. |
| Unification.ReadBackIff | compiler/tracer/graph_relations.ts:154-168 | All bound variables can be read back if and only if the bindings have a solution. |
| Unification.ReadBackFromIff | compiler/tracer/graph_relations.ts:154-168 | One term can be read back if and only if no cycle can be reached from its variables. |
| Unification.UnifiedTermsReifyEqually | compiler/tracer/graph_relations.ts:86-168 | After unification without a cycle both terms read back, and as equal for all values of the variables that are still free. |
| Unification.NoOccursCheck | compiler/tracer/graph_relations.ts:80-84 | A variable unified with a list that contains it is bound to that list; the bindings returned have no solution. |
| RelQuery.RunExact | compiler/tracer/graph_relations.ts:129-142 | Whenever a goal ends, it leaves exactly the assignments that solved the state before and satisfy the goal; label tests need constant patterns for completeness. |
| RelQuery.RunRowsExact | compiler/tracer/graph_relations.ts:190-237 | A table goal succeeds for exactly the rows that match. |
| RelQuery.LabelledExact | compiler/tracer/graph_relations.ts:257-285 | A prefix or substring goal accepts exactly the ids whose label passes; an unbound pattern yields nothing. |
| RelQuery.RunConjExact | compiler/tracer/graph_relations.ts:138-142 | Running goals one after the other is conjunction. |
| RelQuery.RunDisjExact | compiler/tracer/graph_relations.ts:135-136 | Concatenating the states of alternatives is disjunction. |
| RelQuery.RowsInOrder | compiler/tracer/graph_relations.ts:190-237 | States come in the order of the rows of a table: two tables in a row give the states of the first, then those of the second. |
| RelQuery.LabelsInOrder | compiler/tracer/graph_relations.ts:257-285 | States come in the order of the nodes whose labels pass. |
| RelQuery.EachInOrder | compiler/tracer/graph_relations.ts:138-142 | The states a goal leaves for one state come before those for the next: search is depth first. |
| RelQuery.ConjInOrder | compiler/tracer/graph_relations.ts:138-142 | A conjunction runs from left to right, each goal on all states the earlier ones left. |
| RelQuery.AlternativesInOrder | compiler/tracer/graph_relations.ts:135-136 | The states of one alternative come before those of the next. |
| RelQuery.RunWithin | compiler/tracer/graph_relations.ts:129-142 | States use no variables other than those of the goal and of the state before. |
| RelQuery.FittingGoalEnds | compiler/tracer/graph_relations.ts:129-142 | A goal none of whose equations puts a variable against an open compound term ends, with bindings free of cycles. |
| QueryCompiler.CompileExact | compiler/tracer/graph_relations.ts:486-630 | Every kind of clause compiles to a goal with its declarative meaning over the graph; clauses that are not recognised are dropped. |
| QueryCompiler.CompileNames | compiler/tracer/graph_relations.ts:528-611 | Compiling a clause names exactly the variables written in it, however deep, besides those already named. |
| QueryCompiler.GoalsInOrder | compiler/tracer/graph_relations.ts:635-642 | Goals come in the order of their clauses, and the clauses after a point are compiled with the names of those before it. |
| QueryCompiler.AttrsInOrder | compiler/tracer/graph_relations.ts:212-237 | Attribute rows come in the order of the nodes. |
| QueryCompiler.CompileAllExact | compiler/tracer/graph_relations.ts:639-643 | A list of clauses compiles to goals that mean the conjunction of the recognised ones, sharing named variables. |
| QueryCompiler.CompileAllWellFormed | compiler/tracer/graph_relations.ts:486-630 | Compiled goals are well formed, so the theorems about goals apply to every query. |
| QueryCompiler.StatesExact | compiler/tracer/graph_relations.ts:635-656 | Whenever a query ends, its final states are solved by exactly the satisfying assignments. |
| QueryCompiler.QueryExact | compiler/tracer/graph_relations.ts:635-656 | Whenever a query ends, an assignment of the named variables is an answer if and only if it satisfies every recognised clause and there is one. |
| QueryCompiler.ReorderedQuery | compiler/tracer/graph_relations.ts:635-656 | Reordering or repeating clauses does not change the answers, whenever both forms end. |
| QueryCompiler.FittingQueryEnds | compiler/tracer/graph_relations.ts:635-656 | A query none of whose equations puts a variable against an open compound term ends, without cycles. |
| QueryCompiler.RunGoal | compiler/tracer/graph_relations.ts:170-182 | The answers are the read-back states in order, cut at the limit, which is tested after an answer; it ends exactly when reading back each of these ends. |
| QueryCompiler.GraphRelRunQuery | compiler/tracer/graph_relations.ts:635-656 | One answer per state in order, all of them without a positive limit, otherwise as many as its integer part, at least one. Under every solution of its state, an answer denotes the selected term with the values of the named variables put in; by default, the object that has exactly the variables written in the clauses as keys, less their question mark, with their values. No bound variable is left in it. |
| QueryCompiler.GraphRelExistsQuery | compiler/tracer/graph_relations.ts:658-663 | It says yes exactly when there is a state and the projection is read back from the first one, and no exactly when there is none. A satisfiable query is found; with the default projection the answer, when there is one, says exactly whether some assignment satisfies the query. |
| QueryCompiler.UnsatisfiableFoundIff | compiler/tracer/graph_relations.ts:658-663 | An unsatisfiable query is found if and only if it has a state and no cycle can be reached from the projection in the first one. |
| QueryCompiler.SatisfiableIffStates | compiler/tracer/graph_relations.ts:658-663 | A query that ends is satisfiable if and only if one of its final states is free of cycles. |
| QueryCompiler.QueryStatesVars | compiler/tracer/graph_relations.ts:635-656 | Final states bind named variables only. |
| QueryCompiler.DefaultReadBack | compiler/tracer/graph_relations.ts:645-656 | With the default projection, a state is read back only if it has a solution. |
| QueryCompiler.CyclicQueryFound | compiler/tracer/graph_relations.ts:658-663 | The query that equates ?p with a list holding ?p, projected to a constant, is found and has no satisfying assignment. |
| QueryCompiler.QueryNodeIds | compiler/tracer/graph_relations.ts:351-359 | The ids are the strings that the node variable reads back as, each once. |
| QueryCompiler.NodeIdsExact | compiler/tracer/graph_relations.ts:351-359 | If every assignment that satisfies a goal gives the node variable a string, the ids found are exactly these strings. |
| QueryCompiler.StringsInOrder | compiler/tracer/graph_relations.ts:351-359 | The ids come in the order in which they are first met. |
| QueryCompiler.UpstreamQueryIsDownstream | compiler/tracer/graph_relations.ts:681-701 | The upstream and the downstream query of a node end and return the same ids: the node and what it reaches. |
| QueryCompiler.UpstreamRightIff | compiler/tracer/graph_relations.ts:681-690 | The answer is the node and what reaches it if and only if, for every other node, reaching it and being reached from it are the same. |
| QueryCompiler.UpstreamMissesSource | compiler/tracer/graph_relations.ts:681-690 | In the graph with one edge from a to b, a is upstream of b and is not returned. |
| QueryCompiler.BuildView | compiler/tracer/graph_relations.ts:287-333 | The pairs enumerated for a graph and for its reverse are its whole reachability if and only if no two such pairs print alike. |
| SlotMap.CodeKey | src/grpc/codec/session_encode.ts:103-112 | A key parsed to the code slot is its card id followed by "code". |
| SlotMap.ParseExact | src/grpc/codec/session_encode.ts:103-112 | Parsing a key gives a card and a slot exactly if the key is the card followed by "code", or, failing that, by a slot that starts at the first double colon, or by nothing. |
| SlotMap.RefExact | src/grpc/delta/card_slot_sync.ts:48-72 | The card a reference names: by the tagged pair; else by the first target field of a tagged object; else by the first loose target field; else by its own id. An empty id names none in the last three. |
| SlotMap.EdgesExact | src/grpc/delta/card_slot_sync.ts:37-43 | The edges of a map are exactly those its entries declare, left facing right and above facing below, each in the direction that prints as the smaller text. |
| SlotMap.StringLeExact | src/grpc/delta/card_slot_sync.ts:109-110 | Texts are compared by their UTF-16 code units: a prefix comes first, else the smaller unit at the first difference. |
| SlotMap.UnitsDecode | src/grpc/delta/card_slot_sync.ts:109-110 | The units of a character are those of UTF-16: itself, or a surrogate pair that decodes to it. |
| SlotMap.EdgeKeyInjective | src/grpc/delta/card_slot_sync.ts:106-108 | Printed edges of ids without the separator identify the edge. |
| SlotMap.ReciprocalDeclarations | src/grpc/delta/card_slot_sync.ts:94-111 | An edge declared from either end has the same canonical form. |
| SlotMap.ApplyCardsDelta | src/grpc/delta/cards_delta_apply.ts:13-25 | Removals first, then the new slots; all other keys keep their value. |
| SlotMap.CollectEdges | src/grpc/delta/card_slot_sync.ts:82-115 | The printed form of every edge of the map is a key, and every entry is an edge of the map. |
| SlotMap.EdgesNotIn | src/grpc/delta/card_slot_sync.ts:193-201 | Comparing printed forms gives one edge for every printed form that occurs in the first map and not in the second; with separator-free ids that is exactly the difference of the edge sets, each edge once. |
| SlotMap.Sorted | src/grpc/delta/card_slot_sync.ts:216 | New card ids come in ascending order of their code units, each once. |
| SlotMap.RankIsUnitOrder | src/grpc/delta/card_slot_sync.ts:216 | Characters are ordered as their first different code units are, surrogates included. |
| SlotMap.DiffSlotMaps | src/grpc/delta/card_slot_sync.ts:185-238 | The events are exactly those the two maps call for, said of their entries: one card_remove and one card_add for every card that lost or gained its entries, one card_connect and one card_detach for every edge declared in one map only (edges that print alike counting as one), each connect joining facing slots, and a card_update for every code that is new or changed; in the order detach, remove, add, connect, update, with added cards ascending. |
| CardStore.AddSafe | src/grpc/card/card_metadata.ts:111-180 | Adding an absent card keeps all links safe. |
| CardStore.ReAddSafeIff | src/grpc/card/card_metadata.ts:64-66 | Adding a card that is present keeps links safe if and only if no active link belongs to it. |
| CardStore.RemoveSafe | src/grpc/card/card_metadata.ts:300-314 | Removing a card sends all its links to dummies; what neighbours still register is harmless. |
| CardStore.DisconnectSafe | src/grpc/card/card_metadata.ts:316-334 | Dropping a connection concerns no other pair of cards. |
| CardStore.AttachSafe | src/grpc/card/card_metadata.ts:273-298 | A new connection is registered on both cards and wired, and keeps all others. |
| CardStore.ClearedSafe | src/grpc/card/card_metadata.ts:260-271 | Dropping a previous connection first leaves room for the new one. |
| CardStore.UpdateSafe | src/grpc/card/card_metadata.ts:237-249 | Sending code does not concern links. |
| CardStore.RunsAreSafe | src/grpc/card/card_metadata.ts:251-334 | In every run of add, connect, detach, remove and update, a link that still points at a slot is one of the four links of a connection registered by both of its live cards under the same list; all other links ever created point at a dummy. |
| CardStore.ConnectThrowsIff | src/grpc/card/card_metadata.ts:207-298 | Connecting throws exactly for a missing card or a cell that no card tracks. |
| CardSync.DetachKeeps | src/grpc/delta/card_slot_sync.ts:246-249 | Detaching an edge of the structure succeeds and removes just that edge. |
| CardSync.RemoveKeeps | src/grpc/delta/card_slot_sync.ts:250-253 | Removing an unconnected card succeeds and removes just that card. |
| CardSync.AddKeepsStructure | src/grpc/delta/card_slot_sync.ts:254-257 | Adding an absent card adds just that card. |
| CardSync.ConnectStep | src/grpc/delta/card_slot_sync.ts:258-261 | Connecting two cards not yet connected succeeds and adds just that edge. |
| CardSync.UpdateKeeps | src/grpc/delta/card_slot_sync.ts:262-265 | Updating a card keeps the structure. |
| CardSync.ShrinkPhases | src/grpc/delta/card_slot_sync.ts:193-212 | After the detach and remove phases, what is left are the cards and edges that stay. |
| CardSync.GrowPhases | src/grpc/delta/card_slot_sync.ts:216-234 | After the add and connect phases, the structure is that of the new map. |
| CardSync.CodesFollow | src/grpc/delta/card_slot_sync.ts:161-183 | Afterwards every card has the code of the new map: changed codes were sent, unchanged ones belong to cards that stayed. |
| CardSync.Simulation | src/grpc/delta/card_slot_sync.ts:185-269 | If the structure realises the old slot map and the new one is well formed, the events of the diff never throw and lead to a structure that realises the new map. |
| CardSync.EmptyRealises | src/grpc/card/card_metadata.ts:68-70 | The empty structure realises the empty map. |
| CardSync.RealisesMirrors | src/grpc/delta/card_slot_sync.ts:185-269 | What realising a map comes to: the cards are those with an entry, the pairs connected are those an entry joins, slot to slot, and every code is the one of its entry. |
| CardSync.WellFormedIff | src/grpc/delta/card_slot_sync.ts:185-269 | What is asked of a map, said of its entries: no empty card id, no separator in a joined id, both ends of every edge have entries, at most one edge per pair of cards. |
| CardRegistry.Registry.constructor | src/grpc/card/card_metadata.ts:42 | The registry starts empty. |
| CardRegistry.Registry.AddCard | src/grpc/card/card_metadata.ts:64-66 | In-place adding is the add operation. |
| CardRegistry.Registry.UpdateCard | src/grpc/card/card_metadata.ts:237-249 | In-place updating is the update operation, or throws and changes nothing. |
| CardRegistry.Registry.RedirectLinks | src/grpc/card/card_metadata.ts:266-268 | The loop points exactly the given links at a dummy. |
| CardRegistry.Registry.RemoveCard | src/grpc/card/card_metadata.ts:300-314 | The loop over all registered lists is the remove operation, or throws and changes nothing. |
| CardRegistry.Registry.DetachCards | src/grpc/card/card_metadata.ts:316-334 | In-place detaching is the detach operation, or throws and changes nothing. |
| CardRegistry.Registry.Drop | src/grpc/card/card_metadata.ts:262-271 | Links redirected, both entries deleted. |
| CardRegistry.Registry.LinkCards | src/grpc/card/card_metadata.ts:278-297 | Four links created, activated and registered on both cards. |
| CardRegistry.Registry.ConnectCards | src/grpc/card/card_metadata.ts:251-298 | In-place connecting is the connect operation; a slot that is not tracked throws after the previous connection is gone. |
| CardRegistry.Registry.ApplyEvents | src/grpc/delta/card_slot_sync.ts:240-269 | The loop applies events in order and stops at the first that throws, which it identifies. |
| PushSession.SucceedsIff | src/grpc/delta/card_slot_sync.ts:185-269 | From a structure that realises the old map, the events of a diff go through if and only if every new edge joins cards with keys of their own and every changed code has a card name. |
| PushSession.ApplicableExact | src/grpc/delta/card_slot_sync.ts:185-238 | Said of the entries of the two maps: every edge declared anew joins cards with entries, and every code sent has a card name. |
| PushSession.PhasesRunIff | src/grpc/delta/card_slot_sync.ts:185-269 | Whether or not printed forms identify edges: the phases go through if and only if the edges to be connected join cards with keys of their own and the codes to be sent have card names. |
| PushSession.Session.constructor | src/grpc/connect_server.ts:195-208 | A new session is in step. |
| PushSession.Session.PushDeltas | src/grpc/connect_server.ts:152-229 | One push, whatever the delta: it succeeds exactly when its phases are applicable; for separator-free ids, exactly when every edge declared anew joins cards with entries and every code sent has a card name; given a well-formed next map it succeeds, the cards, connections and codes are those its entries declare, and the session stays in step; a failed push leaves the slot map as it was. |
| PushSession.Session.PushAll | src/grpc/connect_server.ts:137-150 | Every run of pushed deltas whose maps are well formed goes through and ends with structure and slot map in step. |
| SessionQueue.StepInv | src/grpc/session/session_store.ts:55-80 | Every atomic step keeps: yielded card messages followed by the queue are what was pushed; a registered waiter has a timer, a pending promise and an empty queue. |
| SessionQueue.LoopHeadInv | src/grpc/session/session_store.ts:66-80 | Starting to wait loses no wakeup: a waiter is registered, with its timer, exactly when the queue is empty; otherwise the promise is resolved at once; nothing is taken from the queue. |
| SessionQueue.BeatInv | src/grpc/session/session_combinator.ts:91-93 | A heartbeat keeps the invariant and delivers no message. |
| SessionQueue.YieldInv | src/grpc/session/session_combinator.ts:73-77 | Yielding keeps the invariant and delivers exactly the first message of the queue. |
| SessionQueue.NoMessageLost | src/grpc/session/session_combinator.ts:68-96 | In every interleaving of push, timeout, abort, resume and return, yielded messages followed by the queue equal everything pushed, in order. |
| SessionQueue.MoveDelivers | src/grpc/session/session_combinator.ts:80-96 | With a message waiting, the stream can always move, and each move brings the first message one step nearer until it is yielded. |
| SessionQueue.OthersKeepDistance | src/grpc/session/session_store.ts:55-80 | Pushes and timeouts never take it further away. |
| SessionQueue.NextMessageArrives | src/grpc/session/session_combinator.ts:68-96 | However pushes and timeouts interleave, at most three moves of the stream yield the first waiting message. |
| SessionQueue.Session.constructor | src/grpc/session/session_store.ts:21-28 | A new session has an empty queue and no waiter. |
| SessionQueue.Session.PushMessages | src/grpc/session/session_store.ts:55-63 | Messages are appended in order and the waiter, if any, is woken. |
| SessionQueue.Session.TimeOut | src/grpc/session/session_store.ts:71-74 | The timeout removes the waiter and resolves its promise with no message. |
| SessionQueue.Session.WaitOrStop | src/grpc/session/session_combinator.ts:85-86 | At the head of the loop the stream stops when aborted, or starts to wait. |
| SessionQueue.Session.Resume | src/grpc/session/session_combinator.ts:68-96 | From each suspension point the generator runs as the state machine says. |
| PushIterable.StepInv | src/grpc/util/push_to_async_iterable.ts:15-55 | Every step keeps: delivered values followed by the defined values queued are the defined values accepted; who waits has an empty queue that is not closed. |
| PushIterable.WakesForValue | src/grpc/util/push_to_async_iterable.ts:15-26 | A push wakes a waiting consumer, and the value pushed is the next one it gets. |
| PushIterable.WakesForEnd | src/grpc/util/push_to_async_iterable.ts:28-31 | Closing wakes a waiting consumer, and it then learns of the end. |
| PushIterable.DeliversInOrder | src/grpc/util/push_to_async_iterable.ts:11-57 | In every run defined values come out in the order in which they were accepted, and a waiting consumer has nothing to wait for in the queue. |
| PushIterable.AfterClose | src/grpc/util/push_to_async_iterable.ts:40-53 | After closing, exactly the values before the first undefined one in the queue are still delivered. |
| PushIterable.AllDeliveredIff | src/grpc/util/push_to_async_iterable.ts:40-53 | When the end is reported, every accepted defined value has been delivered if and only if none is queued behind an undefined one at the time of closing. |
| PushIterable.UndefinedHidesValues | src/grpc/util/push_to_async_iterable.ts:42-49 | Pushing undefined and 7 and closing: the end is reported and 7 is lost. |
| PushIterable.Bridge.constructor | src/grpc/util/push_to_async_iterable.ts:11-13 | The bridge starts empty and open. |
| PushIterable.Bridge.PushValue | src/grpc/util/push_to_async_iterable.ts:22-26 | A value is accepted unless closed, and wakes the consumer. |
| PushIterable.Bridge.CloseQueue | src/grpc/util/push_to_async_iterable.ts:28-31 | Closing wakes the consumer. |
| PushIterable.Bridge.Next | src/grpc/util/push_to_async_iterable.ts:40-53 | One run of next() up to its return or await. |
| CanonicalJson.EscapedInjective | compiler/closure/hash.ts:18-20 | Printed strings are told apart by their text, whatever follows the closing quote: controls, quotes, backslashes, surrogate pairs and lone surrogates. |
| CanonicalJson.EscapedExact | compiler/closure/hash.ts:18-20 | Printing a string replaces each code unit by its own text: the short escapes, six units for other controls and for surrogates outside a pair, itself else. |
| CanonicalJson.StringReads | compiler/closure/hash.ts:18-20 | A printed string reads back by the grammar of JSON, whatever follows its closing quotation mark. |
| CanonicalJson.NumberLengthExact | compiler/closure/hash.ts:20 | A number is read as the longest stretch of digits, signs, points and exponent letters. |
| CanonicalJson.PrintReads | compiler/closure/hash.ts:15-21 | The text of a value, read by the grammar of JSON, is the value again with the keys of every object ascending by code units, and leaves exactly what followed it. |
| CanonicalJson.SortOrdered | compiler/closure/hash.ts:18 | Sorting distinct keys gives the same entries with, of any two, the earlier key a prefix of the later or smaller at the first code unit where they differ. |
| CanonicalJson.OrderedUnique | compiler/closure/hash.ts:18 | There is only one ascending list of a set of entries, so insertion order of fields does not matter. |
| CanonicalJson.SamePrintsAlike | compiler/closure/hash.ts:15-21 | Values that are equal with objects read as unordered maps have the same text. |
| CanonicalJson.ParsesUniquely | compiler/closure/hash.ts:15-21 | The text of a value followed by anything that may follow a value determines both: an unambiguous parse through nested brackets and strings. |
| CanonicalJson.PrintsAlikeIffSame | compiler/closure/hash.ts:15-21 | Two JSON values have the same canonical text if and only if they are equal with objects read as unordered maps. |
| SimpleHash.ShiftIsTimes32 | compiler/closure/hash.ts:26 | The 32-bit shift is multiplication by 32 modulo 2^32, as a signed word. |
| SimpleHash.AccumulatorIsPolynomial | compiler/closure/hash.ts:23-29 | The partly truncated accumulator equals the polynomial hash (h becomes 33 h + c) modulo 2^32, for every string. |
| SimpleHash.PolynomialExact | compiler/closure/hash.ts:23-27 | In closed form: 5381 times 33 to the length, plus each unit times 33 to the number of units behind it. |
| SimpleHash.AccumulatorBound | compiler/closure/hash.ts:23-29 | Its magnitude is at most 5381 + n (2^31 + 2^16). |
| SimpleHash.HexInjective | compiler/closure/hash.ts:28 | Hexadecimal texts of different numbers differ. |
| SimpleHash.HexReads | compiler/closure/hash.ts:28 | Read in base sixteen the text is the number; it has no leading zero. |
| SimpleHash.Hash | compiler/closure/hash.ts:23-29 | Under any rounding that is exact up to 2^53, the text of up to 4194176 code units (2^22 - 128) hashes to the base-sixteen text of 5381 times 33 to the length plus the weighted sum of the units, modulo 2^32. |
| SimpleHash.CollideIff | compiler/closure/hash.ts:23-29 | Two texts have the same hash if and only if their polynomials are congruent. |
| SimpleHash.TwoLettersCollide | compiler/closure/hash.ts:23-29 | "b!" and "aB" collide. |
| LatestWins.FoldWins | src/grpc/better_runtime/strongest_value.ts:73-108 | The result has the latest walltime; its base is that of the unique newest value, or the contradiction when the latest walltime is shared. |
| LatestWins.OrderIrrelevant | src/grpc/better_runtime/strongest_value.ts:73-108 | Any two orders of the same set give the same walltime and base. |
| LatestWins.ClockIsJoin | src/grpc/better_runtime/strongest_value.ts:32-48 | The clock is the least one above the clocks of the values that count: all except those met after a contradiction that is at least as late. |
| LatestWins.DroppedIff | src/grpc/better_runtime/strongest_value.ts:79-84 | A value is left out of the clock in some order if and only if another value is a contradiction that is at least as late, or two others share a walltime that is at least as late. |
| LatestWins.ClockJoinsIff | src/grpc/better_runtime/strongest_value.ts:73-108 | In every order the clock is the join of all clocks, if and only if for every single contradiction and every pair that shares a walltime, no clock exceeds the clocks of these and of all newer values, entry by entry. |
| LatestWins.ClockOrderIff | src/grpc/better_runtime/strongest_value.ts:73-108 | That is also exactly when the clock does not depend on the order. |
| LatestWins.ClockDependsOnOrder | src/grpc/better_runtime/strongest_value.ts:79-84 | A set whose clock depends on the order: three values, two orders, different clocks. |
| LatestWins.Strongest | src/grpc/better_runtime/strongest_value.ts:70-110 | The reduction loop computes that value, and nothing for the empty set. |
| GunResolve.StartMarks | DB/serialize/gun_resolve.ts:224-290 | Up to the first await, exactly the references of the value within the depth limit are marked, and the tree waits exactly once for each soul not marked before. |
| GunResolve.StepSound | DB/serialize/gun_resolve.ts:156-185 | A completed read keeps: the tree follows the structure of the value, waits exactly once for each soul marked and not yet read, uses each marked soul exactly once, and refers to nothing that is not marked. |
| GunResolve.Conserved | DB/serialize/gun_resolve.ts:224-290 | Conservation: the souls a tree uses and those whose references it has cut off are together what its value and the records read in it refer to, as often as they do. |
| GunResolve.RunsEnd | DB/serialize/gun_resolve.ts:156-290 | On every store, cyclic ones included, no run is longer than the number of souls within reach, and no soul is read twice. |
| GunResolve.UnfoldingUnique | DB/serialize/gun_resolve.ts:224-290 | There is at most one full unfolding of a value, and it does not fail. |
| GunResolve.UnfoldsIff | DB/serialize/gun_resolve.ts:156-290 | For every complete run, whatever its order: the value returned renders the root as a whole (scalars as they are, references as their records, containers by the same kind with the same keys in order but for metadata) if and only if nesting is within the limit and every soul within reach that is referred to more than once resolves to null; it throws if and only if the root itself goes too deep; the tree is the full unfolding if and only if no soul is referred to more than once. |
| GunResolve.ResolutionExact | DB/serialize/gun_resolve.ts:156-290 | Said of JSON alone: resolution throws exactly if the root goes more than a hundred levels deep; else the value keeps the kind of every container and its keys in order, references being rendered by their records or by null; and it is rendered as a whole exactly if the root is unfoldable. |
| GunResolve.WholeIffUnfolded | DB/serialize/gun_resolve.ts:156-290 | The values of full unfoldings are exactly the whole renderings. |
| GunResolve.ShallowExact | DB/serialize/gun_resolve.ts:231-246 | Nothing lies more than a hundred containers deep, where references and the nodes of a graph start again at zero. |
| GunResolve.CompleteCounts | DB/serialize/gun_resolve.ts:156-290 | At the end of every complete run, everything within reach has been read, and a soul that is referred to n times is shown once and cut off n - 1 times. |
| GunResolve.CompletionOrderIrrelevant | DB/serialize/gun_resolve.ts:224-290 | When the value is that of the full unfolding, any two orders in which sibling reads complete give the same value. |
| GunOrder.OrderIrrelevantIff | DB/serialize/gun_resolve.ts:156-290 | All complete runs give the same tree if and only if, for every soul within reach, exactly one record that refers to it is reached from the root without passing through another record that refers to it. |
| GunOrder.ClaimsFirst | DB/serialize/gun_resolve.ts:164-178 | In every run a soul is read for a record that is reached without passing through another one that refers to it. |
| GunOrder.RunThrough | DB/serialize/gun_resolve.ts:156-290 | Every such record can be the one: some complete run reads the soul for it. |
| GunOrder.OneClaim | DB/serialize/gun_resolve.ts:164-168 | In one run a soul is read for one record only. |
| GunOrder.OrderMatters | DB/serialize/gun_resolve.ts:156-185 | An input whose order shows: a root with two references to records that both refer to a third, two complete runs, two values. |
| GunResolve.Resolver.constructor | DB/serialize/gun_resolve.ts:295-297 | Each top-level call starts with no visited soul. |
| GunResolve.Resolver.ResolveObject | DB/serialize/gun_resolve.ts:224-290 | The recursive method with its shared visited set does what the function says. |
| GunResolve.Resolver.ResolveEntries | DB/serialize/gun_resolve.ts:270-288 | So does the loop over entries, which skips metadata in ordinary objects. |
| GunResolve.Resolver.Resolve | DB/serialize/gun_resolve.ts:224-297 | With reads completing in an arbitrary order, resolution ends with everything within reach read. It throws if and only if the root goes too deep; else the value has the kinds and keys of the root, references being rendered by their records or by null; it renders the root as a whole if and only if nesting is within the limit and every soul within reach that is referred to more than once resolves to null. |
| WireCodec.RoundTripIff | DB/serialize/decode.ts:25-149 | Decoding what was encoded gives the value back if and only if it contains no list outside a closure body, no map or set entry named like the tag (or like the prototype key), no layers other than vector clock and support, and no closure body of more than one list. |
| WireCodec.EncodeSpells | DB/serialize/encode.ts:1-60 | The wire of every kind of value, written out: fields, tags and texts; a plain value is wrapped in a value field. |
| WireCodec.TextsDecode | DB/serialize/decode.ts:25-149 | The text of an object decodes to what the object decodes to, other text in braces and lists to nothing, any other text to itself. |
| WireCodec.EntryRoundTripIff | DB/serialize/schemas/references.ts:15-46 | Cells in maps and environments travel as references and come back. |
| WireCodec.AllRoundTripIff | DB/serialize/schemas/closure_schema.ts:43-57 | Lists of inputs, outputs and body elements come back exactly when each element does. |
| WireCodec.MapRoundTrip | DB/serialize/schemas/map.ts:13-29 | A map comes back exactly when no key is lost to the tag and every value comes back. |
| WireCodec.SetRoundTrip | DB/serialize/schemas/set.ts:14-27 | The same for sets, keyed by identity text. |
| WireCodec.LayeredRoundTrip | DB/serialize/schemas/layered_object.ts:20-56 | A layered value, sent as JSON text, comes back exactly when base and layers do and only the two known layers occur. |
| WireCodec.ElementDecodes | DB/serialize/schemas/lain_element.ts:13-24 | An element wire decodes to its kind and decoded value. |
| WireCodec.ClosureRoundTrip | DB/serialize/schemas/closure_schema.ts:18-57 | A closure comes back exactly when its parts do and its body is one list. |
| WireCodec.TagReplaced | DB/serialize/schemas/map.ts:13-23 | An entry named like the tag replaces it, and the record decodes to a scalar. |
| WireCodec.FillRecord | DB/serialize/schemas/map.ts:15-21 | The loop sets one field per entry and drops the prototype key. |
| WireCodec.MapSchema | DB/serialize/schemas/map.ts:13-23 | The map encoder: a tagged record, cells as references, the rest through the given encoder. |
| WireCodec.SetSchema | DB/serialize/schemas/set.ts:14-20 | The set encoder: one field per identity text. |
| WireCodec.LayeredSchema | DB/serialize/schemas/layered_object.ts:20-30 | The layered encoder: base first, then one field per layer. |

## Left out

- Libraries whose code is not in the repository (propagators, layers, generic procedures, the Datalog and trie engines, graph and database libraries): what is called is modelled by its contract. The Datalog engines compute the least model of the standard programs they get; graphs are node lists, edge lists and attributes; merging two vector clocks is their pointwise maximum.
- Facts with nested array arguments: fact equality compares arguments by identity, so facts are flat tuples of scalars.
- UnifyExact: speaks of runs that end; a run that does not end exhausts the call stack in the code, which is not modelled beyond that. Objects have distinct keys.
- CompileExact: query terms are JSON; an object that looks like an internal logic variable is not part of this model.
- QueryExact: label prefixes and needles are constants; with variables, only the half that every state is a satisfying assignment holds, as StatesExact says.
- CollapseIdempotentIff: attributes of edges are not modelled.
- TwoReachabilitiesAgree: asks for snapshot-shaped facts with disjoint cell and propagator ids. The numeric parsing of levels is a parameter of the entity attributes.
- ResolverComplete: needs range restriction; without it the code silently drops instances whose tested variables have no value.
- DiffSlotMaps: the order of events inside one phase is the iteration order of a map and is arbitrary here, except for added cards, which are sorted. Strings are sequences of characters; lone surrogates do not occur.
- CardStore.RunsAreSafe: adding a card that is present is not part of these runs; ReAddSafeIff says when it is safe. Propagators, compilation and cell contents of cards are not modelled, only slots, links and the code last sent.
- CardSync.CodesFollow: a code is known by its signature, as the code compares it; that two values with one signature are the same code is not claimed.
- PushSession.Session.PushDeltas: one session alone uses the card registry; several sessions sharing it, or two streams on one session id, have no guarantee in the code.
- SessionQueue.Session.Resume: one consumer per session; real time is a timeout that may fire whenever its timer runs. After an abort the rest of the queue is not delivered, as in the code.
- PushIterable.Bridge.Next: one consumer that asks for the next value only after the previous answer, and stops at the end.
- CanonicalJson.PrintsAlikeIffSame: numbers are given by their shortest decimal text, so not-a-number, infinities and negative zero, which print like other values, are excluded; undefined and functions are no JSON values.
- SimpleHash.Hash: beyond 4194176 code units nothing is claimed, since additions may be rounded.
- LatestWins.FoldWins: all values are layered values with both clocks, as the handler's predicate demands; a plain contradiction cannot occur in the fold.
- GunResolve.Resolver.Resolve: reads that fail or time out are not modelled apart from missing souls. A field named like the prototype key, which the code loses when it assembles an object, is kept here.
- WireCodec.RoundTripIff: JSON text is represented by the value it parses to. Cells outside maps and environments are sent as cell records, of which decoding uses id and name only; their content on the wire is not modelled. Decoded sets keep their wire keys; the identity text is not recomputed. A closure without any body list makes encoding throw and is not part of this model. Primitives, neighbours and propagator references are not modelled. Entries are unordered.
- Node and edge attributes, `union_graphs`, `intersect_graphs`, `subgraph_by_namespace_connected`, `connected_component` and the filters by kind, namespace and level: they would add easy members only.
- `HashStore` with its weak references, closure unfolding, compilers, environment lookup, parser, tracers, network handlers, peer-to-peer setup, drawing and logging.
