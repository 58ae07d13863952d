# PlantUML statecharts to C++: a Dafny model

This project models the core of PlantUMLStatecharts in Dafny. That repository reads a PlantUML state diagram and turns it into a C++ state machine plus a GoogleTest suite. Three parts are modelled, and each is proved against its own specification.

- **The translator** (`translator/statecharts.py`). Its `Parser` keeps the diagram as a directed graph, with a `State` on each node and a `Transition` on each edge. The model covers:
  - reading a diagram: `add_state`, `add_transition`, `parse_event`, `parse_transition`, `parse_state` and `parse_extra_code`;
  - checking and completing it (`finalize_machine`): `verify_initial_state`, `verify_number_of_events`, `verify_transitions`, `manage_noevents` and `verify_infinite_loops`;
  - the scenarios the generated tests replay: `graph_cycles`, `graph_all_paths_to_sinks`, `reset_mock_counters`, `count_mocked_guards` and the guard-mock policy.
- **The runtime base class** (`include/StateMachine.hpp`). The `StateMachine` keeps:
  - a current state and an initial state;
  - a table of entering and leaving callbacks;
  - the `m_nesting` FIFO queue, which turns a transition requested from inside a callback into one more turn of a do-while loop.

  A callback is a number. What it does comes from an environment: the value a guard returns, and the transitions a callback requests. Every run records the calls it makes in a trace.
- **The earlier translator** (`tool/Parser.py`). It walks an index through the tokens of one line. The model covers:
  - `add_state`, `concat_tokens`, `parse_transition`, `parse_state`, `verify_transition` and `manage_noevents`;
  - the cycle rotation in `generate_unit_tests`.

## Layout

Each file holds one module.

- `outcomes.dfy` (`Outcomes`): `Option` and `Result`. `Err` stands for a raised exception or a `fatal` call.
- `text.dfy` (`Text`): the Python `str` operations used, restricted to ASCII.
- `digraph.dfy` (`DiGraph`): the `networkx.DiGraph` the parsers store the diagram in. Nodes and successors keep insertion order, and there is one edge per ordered pair.
- `chart.dfy` (`Chart`): the translator's records, `state_name`, `parse_event` and the `lookup_events` table.
- `parsing.dfy` (`Parsing`): what reading one transition, one state line or one extra-code line does to the translator, as functions.
- `scenarios.dfy` (`Scenarios`): cycles, simple paths to sinks, and mock counts.
- `checks.dfy` (`Checks`): `manage_noevents`, `verify_transitions` and `verify_infinite_loops`, as functions.
- `translator.dfy` (`Translator`): the `Parser` class. Its methods are proved to leave exactly what the functions above describe.
- `runtime.dfy` (`Runtime`): the `StateMachine` class and its do-while loop.
- `tool_parsing.dfy` (`ToolParsing`) and `tool_checks.dfy` (`ToolChecks`): the earlier translator, as functions.
- `tool.dfy` (`Tool`): the earlier translator's `Parser` class, proved against them.

## Model

| member | source | states |
|---|---|---|
| Text.Upper | translator/statecharts.py:1189-1192 | `str.upper()` keeps the length and leaves no lower-case letter |
| Text.UpperSpec | translator/statecharts.py:1189-1192 | `str.upper()` maps each character on its own: a lower-case letter to the letter 32 code points below, anything else to itself |
| Text.Strip | translator/statecharts.py:1215-1219 | `strip()` leaves no whitespace at either end and never lengthens the text |
| Text.StripSlice | translator/statecharts.py:1215-1219 | what `strip()` keeps is one slice of the input, and everything before and after that slice is whitespace |
| Text.Split | translator/statecharts.py:1165-1168 | `split(sep)` gives at least one part; no part contains the separator; joining the parts with it gives the string back |
| Text.SplitJoin | translator/statecharts.py:1173-1176 | splitting undoes joining when no part contains the separator |
| Text.ParseNat | translator/statecharts.py:1208 | `int(token)` on the count token reads a non-empty run of decimal digits and fails on any other text without sign, space or `_` |
| Text.ParseNatOfNatToString | translator/statecharts.py:1279 | `int(str(n)) == n`: the count `parse_state` writes before the event tokens is read back unchanged |
| Text.LowerCapitalize | translator/statecharts.py:1161-1162 | `capitalize()` changes only the case of letters |
| DiGraph.Graph.AddNode | translator/statecharts.py:265-267 | a node is created only when absent; existing payloads and all edges are kept, and the graph is unchanged when the node exists |
| DiGraph.AddNodeValid | translator/statecharts.py:265-267 | `add_state` keeps the graph well formed and is idempotent |
| DiGraph.Graph.SetEdge | translator/statecharts.py:275-276 | `add_edge` replaces the one edge of the ordered pair and keeps nodes and payloads; a new successor goes last in the origin's neighbour list, an existing one keeps its place, and no other neighbour list changes |
| DiGraph.SetEdgeValid | translator/statecharts.py:275-276 | after `add_transition` there is still exactly one edge per ordered pair; the last payload wins; the origin's neighbour list gains the destination at its end only when it was not there, and no other list changes |
| DiGraph.Empty | translator/statecharts.py:202 | a new `nx.DiGraph()` is a well-formed graph |
| DiGraph.EdgeListMembership | translator/statecharts.py:734 | `list(graph.edges)` lists exactly the edges of the graph |
| Chart.StateName | translator/statecharts.py:448-453 | `[*]` is `CONSTRUCTOR`, `*` is `DESTRUCTOR`, and every other state keeps its name |
| Chart.StateNameCollision | translator/statecharts.py:448-453 | two distinct states get the same C++ name only when one is a pseudo state and the other is literally `CONSTRUCTOR` or `DESTRUCTOR` |
| Chart.CapitalizeAll | translator/statecharts.py:1161-1162 | concatenating capitalised tokens gives the same text up to case |
| Chart.CapitalizeAllPieces | translator/statecharts.py:1161-1162 | the tokens after the first are each capitalised on their own, then concatenated |
| Chart.ParseEventEmpty | translator/statecharts.py:1152-1156 | no token gives the anonymous event: empty name, no parameter |
| Chart.ParseEventPlain | translator/statecharts.py:1158-1162 | without a trailing `)`: no parameter, and the name is the first token lower-cased followed by each later token capitalised, which spells the tokens up to case |
| Chart.ParseEventNoOpeningParenthesis | translator/statecharts.py:1163-1176 | a trailing `)` with no `(` in the last token is an IndexError |
| Chart.ParseEventWithParams | translator/statecharts.py:1163-1176 | for a last token `stem(inner)`: the parameters are the comma-separated pieces of `inner`, none when it is empty; the name is the stem, after the lower-cased first token and the capitalised middle ones |
| Chart.ParseEventAsWrittenEmptyParameters | translator/statecharts.py:1164-1168 | as written, `f()` yields one empty parameter |
| Chart.RecordSpec | translator/statecharts.py:86-90 | `lookup_events` is keyed by event name only: the first key of a name stays, the pair is appended to that name's list, and no other list changes |
| Chart.FlattenClauses | translator/statecharts.py:1273-1281 | flattening an `on` line succeeds exactly when every clause that is not an event has a token |
| Parsing.AddStateValid | translator/statecharts.py:265-267 | `add_state` keeps the parser invariant, every edge and every existing payload |
| Parsing.Endpoints | translator/statecharts.py:1187-1199 | reading the end points fails exactly when there are fewer than three tokens or the arrow is empty |
| Parsing.MarkerOf | translator/statecharts.py:1207-1218 | each of the four clause markers is recognised by its exact spelling |
| Parsing.StoreEdge | translator/statecharts.py:1202-1203 | both end points become nodes, existing payloads are kept, and the edge of the pair is replaced |
| Parsing.ClauseStepSpec | translator/statecharts.py:1206-1227 | one clause keeps the end points, and only an `#event` clause changes the event table |
| Parsing.ScanClausesEnds | translator/statecharts.py:1206-1227 | the clause loop keeps the end points |
| Parsing.ScanClausesTable | translator/statecharts.py:1207-1213 | the clause loop keeps the table well formed and only lets it grow; without `#event` the table is unchanged |
| Parsing.ScanClausesRecords | translator/statecharts.py:1207-1213 | once an `#event` clause is read, the pair is listed under some event name |
| Parsing.ScanClausesReacts | translator/statecharts.py:1221-1227 | an internal transition read from an `on` line never ends with an empty action |
| Parsing.AddStateNames | translator/statecharts.py:265-267 | after `add_state`, every node payload is still named after its node |
| Parsing.AddTransitionNames | translator/statecharts.py:275-276 | after `add_transition`, every edge payload still names its edge |
| Parsing.StoreEdgeValid | translator/statecharts.py:1229-1230 | storing the edge keeps the graph well formed and payloads named |
| Parsing.ParseTransitionResult | translator/statecharts.py:1184-1231 | a successful `parse_transition` is the stored edge, the new pseudo states and emptied tokens |
| Parsing.ParseTransitionOk | translator/statecharts.py:1184-1231 | once the arrow and the clause loop are known, `parse_transition` stores them |
| Parsing.ParseTransitionFails | translator/statecharts.py:1206-1219 | when the clause loop fails, `parse_transition` fails the same way |
| Parsing.ParseTransitionOutcome | translator/statecharts.py:1184-1231 | once the end points are read, `parse_transition` fails exactly when the clause loop does |
| Parsing.ParseTransitionValid | translator/statecharts.py:1184-1231 | `parse_transition` keeps the parser invariant |
| Parsing.ParseTransitionOrientation | translator/statecharts.py:1187-1203 | arrow orientation: a `>` at the end reads left to right; names are upper-cased and made nodes; `[*]` as origin is the initial state; `[*]` as destination becomes `*`, the final state; only the pair's edge is replaced |
| Parsing.ParseTransitionEvents | translator/statecharts.py:1206-1213 | the pair enters `lookup_events` only through an `#event` clause |
| Parsing.Annotate | translator/statecharts.py:1257-1268 | an annotation keeps the state's name and internal code |
| Parsing.ParseStateAnnotation | translator/statecharts.py:1247-1268 | an annotation extends exactly the field it names on the one state (made a node first) and changes nothing else |
| Parsing.AnnotateStateValid | translator/statecharts.py:1256-1268 | an annotation keeps the parser invariant |
| Parsing.SetStateValid | translator/statecharts.py:1256 | writing a state's payload under its own name keeps the invariant |
| Parsing.OnEndpoints | translator/statecharts.py:1273 | an `on` line reads as the self loop of the upper-cased name |
| Parsing.InternalTransitionValid | translator/statecharts.py:1272-1282 | an `on` line keeps the parser invariant |
| Parsing.ParseStateOn | translator/statecharts.py:1272-1282 | an `on` line stores the self loop; with a clause, the loop's action is never empty |
| Parsing.ParseStateValid | translator/statecharts.py:1247-1284 | `parse_state` keeps the parser invariant |
| Parsing.ExtraCodeRouting | translator/statecharts.py:1305-1329 | a line of extra code fails exactly on an unknown slot; otherwise only its slot grows, by the separator and then the code |
| Parsing.ParamsJoin | translator/statecharts.py:1312-1315 | non-empty `[param]` lines end up as one comma-separated list |
| Scenarios.FirstIn | translator/statecharts.py:288-295 | finds the first successor of the initial state, in neighbour order, that the cycle visits |
| Scenarios.RotateSpec | translator/statecharts.py:284-300 | a cycle is dropped exactly when it visits no successor of the initial state; otherwise the result is `cycle[idx:] + cycle[:idx]` closed by its first node, for an index whose node is the first successor, in neighbour order, that the cycle visits |
| Scenarios.RotationAt | translator/statecharts.py:297 | where each node of `cycle[index:] + cycle[:index]` comes from |
| Scenarios.RotateWalk | translator/statecharts.py:296-298 | rotating an elementary cycle and closing it gives a closed walk with no repeated node before the closing one |
| Scenarios.CyclesFrom | translator/statecharts.py:287-299 | every kept cycle is the rotation of one raw cycle |
| Scenarios.RotateStart | translator/statecharts.py:296-298 | a rotation is one node longer than the cycle, starts at a successor of the initial state, and ends where it starts |
| Scenarios.CyclesShape | translator/statecharts.py:284-300 | each returned cycle is a closed walk of length at least 2 that starts at a successor of the initial state and repeats no node |
| Scenarios.ExtendAllMembership | translator/statecharts.py:318 | the depth-first search yields exactly what its branches yield |
| Scenarios.ExtendsThrough | translator/statecharts.py:318 | extending by a fresh successor, then to a path, extends to that path |
| Scenarios.ExtendsFirst | translator/statecharts.py:318 | the first node an extension adds is a fresh successor of the path's end |
| Scenarios.ReachSound | translator/statecharts.py:318 | every path the search yields is a simple extension ending at the target |
| Scenarios.ReachComplete | translator/statecharts.py:318 | every simple extension ending at the target is yielded |
| Scenarios.SimplePathsIff | translator/statecharts.py:318 | the simple paths are exactly the walks of at least one edge from source to target with no repeated node |
| Scenarios.Sinks | translator/statecharts.py:315 | the sinks are exactly the nodes with out-degree 0 |
| Scenarios.Sources | translator/statecharts.py:316 | the sources are exactly the nodes with in-degree 0 |
| Scenarios.PathsIntoMembership | translator/statecharts.py:317-319 | the paths into one sink are the simple paths from some source |
| Scenarios.PathsBetweenMembership | translator/statecharts.py:317-319 | the paths are those into some sink |
| Scenarios.AllPathsToSinksIff | translator/statecharts.py:313-320 | the paths to sinks are exactly the simple paths from an in-degree-0 node to an out-degree-0 node |
| Scenarios.EntersLeavesBalance | translator/statecharts.py:759-765 | along a scenario, entries into a state and exits from it alternate |
| Scenarios.ClosedScenarioBalance | translator/statecharts.py:759-765 | on a closed scenario, each state is entered as often as it is left |
| Scenarios.GuardMockReturnsIffTaken | translator/statecharts.py:776-779 | after counting, a guard mock returns true exactly when the scenario takes its edge |
| Scenarios.CountsStep | translator/statecharts.py:753-765 | one more step adds one use of its edge and counts an exit and an entry only between distinct states |
| Scenarios.CountMocksStepEdges | translator/statecharts.py:754-758 | one more step bumps the guard and action counters of its edge, when that edge has a guard or an action |
| Scenarios.CountMocksStepStates | translator/statecharts.py:759-765 | between distinct states, a step bumps the origin's leaving counter and the destination's entering counter, when that code exists |
| Scenarios.CountStateStep | translator/statecharts.py:759-765 | the counters of one state after one more step |
| Scenarios.CountEdgeBump | translator/statecharts.py:756-758 | counting one more use is one more bump |
| Scenarios.CountStateBump | translator/statecharts.py:762-765 | counting one more entry or exit is one more bump |
| Scenarios.CountMocksShort | translator/statecharts.py:753 | a scenario of fewer than two states counts nothing |
| Scenarios.CountMocksName | translator/statecharts.py:760-765 | counting keeps every state's name |
| Scenarios.CountMocksHasEdge | translator/statecharts.py:752-765 | counting keeps the set of edges |
| Scenarios.CountMocksKeepsShape | translator/statecharts.py:733-765 | counting changes only the counters: the graph's shape, and every guard, action and code text, stay |
| Checks.NoEventStates | translator/statecharts.py:1020-1025 | the rewritten states are exactly those left by an edge without event |
| Checks.WithInternalTransitionsSpec | translator/statecharts.py:1028-1058 | `manage_noevents` only appends to `internal`, and the code grows exactly for states left by an eventless edge |
| Checks.WithInternalTransitionsShape | translator/statecharts.py:1017-1058 | `manage_noevents` keeps nodes, successors and edges, and the graph stays well formed |
| Checks.SkipStatement | translator/statecharts.py:1038-1043 | skipping one statement shortens the code |
| Checks.ExecEdgeBlock | translator/statecharts.py:1036-1057 | running one block: a guarded edge fires if its guard holds and otherwise falls through; an unguarded eventless edge fires |
| Checks.ChainRuns | translator/statecharts.py:1031-1057 | the corrected code fires the first enabled eventless successor, in neighbour order |
| Checks.ChainChoosesFirstEnabled | translator/statecharts.py:1028-1058 | a rewritten state leaves by its first enabled eventless transition |
| Checks.GuardsOwnTransitionAppend | translator/statecharts.py:1036-1057 | "every `if` governs its own edge's block" survives concatenation |
| Checks.ChainFromGuardsOwnTransition | translator/statecharts.py:1036-1057 | in the corrected code, every `if` is followed by its own edge's block |
| Checks.ChainGuardsOwnTransition | translator/statecharts.py:1028-1058 | the corrected code has no `if` that governs another edge's block |
| Checks.FireTargetsAppend | translator/statecharts.py:1044-1057 | the destinations of concatenated code are concatenated |
| Checks.EventlessTargets | translator/statecharts.py:1044 | lists exactly the successors reached by an eventless edge |
| Checks.EdgeBlockTargets | translator/statecharts.py:1044-1057 | an edge's code fires to its destination exactly when the edge has no event |
| Checks.ChainFromTargets | translator/statecharts.py:1031-1057 | the code holds one transition block per eventless edge, in neighbour order |
| Checks.ChainTargets | translator/statecharts.py:1028-1058 | a rewritten state gets non-empty code with one block per eventless edge |
| Checks.EdgeBlockWarning | translator/statecharts.py:1038-1043 | an edge's code carries a warning exactly when the edge is eventless and unguarded after one (missing guard) or more (undeterminist) eventless edges |
| Checks.EventlessCountCons | translator/statecharts.py:1056 | counts the eventless edges of a prefix one edge at a time |
| Checks.WarnedAtCons | translator/statecharts.py:1038-1043 | the warning condition past the first edge is the condition on the rest |
| Checks.WarningWitness | translator/statecharts.py:1038-1043 | a warning in the code sits at a position where its condition holds |
| Checks.WarningPlaced | translator/statecharts.py:1038-1043 | wherever the condition holds, the code carries the warning |
| Checks.ChainFromWarning | translator/statecharts.py:1038-1043 | a warning is in the code exactly when its condition holds at some position |
| Checks.ChainWarnings | translator/statecharts.py:1029-1057 | "missing guard" marks an unguarded eventless edge preceded by exactly one eventless edge; "undeterminist" marks one preceded by two or more |
| Checks.StrayGuardExample | translator/statecharts.py:1036-1037 | a well-formed three-state graph with a guarded edge that has an event |
| Checks.StrayGuardCounterexample | translator/statecharts.py:1036-1037 | as written, the `if` of an edge with an event governs the next edge's block |
| Checks.AlwaysTakenIff | translator/statecharts.py:1109-1113 | the scan of one state reports exactly its edges with neither event nor guard |
| Checks.DeterminismWarningsIff | translator/statecharts.py:1102-1118 | a state is reported with a destination exactly when it has more than one successor and that edge has neither event nor guard |
| Checks.DeterminismWarningsKinds | translator/statecharts.py:1102-1118 | `verify_transitions` reports only non-determinism |
| Checks.FirstEventlessCycle | translator/statecharts.py:1079-1094 | finds the first cycle longer than one node whose every edge has no event, and nothing when there is none |
| Translator.ReadClauses | translator/statecharts.py:1206-1227 | the clause loop computes the clause function and keeps the end points |
| Translator.InfiniteLoopWarnings | translator/statecharts.py:1079-1094 | at most one warning, always an infinite-loop warning |
| Translator.AddedWarnings | translator/statecharts.py:1070-1074 | a missing-event warning is given exactly when no key of the event table has a name |
| Translator.FinalizeKeeps | translator/statecharts.py:1140-1143 | `finalize_machine` fails exactly without an initial state; otherwise it keeps the graph's shape, the event table and the pseudo states |
| Translator.FinalizeInSteps | translator/statecharts.py:1126-1143 | `finalize_machine` is its checks run in the source's order, each appending its warnings |
| Translator.FinalizeValid | translator/statecharts.py:1140-1143 | `finalize_machine` keeps the parser invariant |
| Translator.PathsIntoSink | translator/statecharts.py:317-319 | the loop over sources collects the simple paths into the sink |
| Translator.ResetEdgeCounters | translator/statecharts.py:734-740 | the edge loop zeroes the guard counter of each guarded edge and the action counter of each edge with an action |
| Translator.ResetStateCounters | translator/statecharts.py:741-747 | the node loop zeroes the entering and leaving counters where that code exists |
| Translator.ClearedAll | translator/statecharts.py:741-747 | resetting every node's counters gives the counters of the empty scenario |
| Translator.CountStep | translator/statecharts.py:754-765 | one step of `count_mocked_guards` bumps exactly its edge's counters and the two states' counters |
| Translator.CountSteps | translator/statecharts.py:752-765 | the step loop succeeds exactly on a walk of the graph and leaves the counters of that scenario |
| Translator.CountWalk | translator/statecharts.py:753-765 | the loop itself, from the counters of the first state |
| Translator.CountStepCounts | translator/statecharts.py:753-765 | after k steps, the counters are those of the scenario's first k + 1 states |
| Translator.AlwaysTakenScan | translator/statecharts.py:1109-1113 | the inner loop reports exactly the always-taken edges of the state |
| Translator.DeterminismScan | translator/statecharts.py:1104-1113 | the state loop gives the determinism warnings in node order |
| Translator.DeterminismStep | translator/statecharts.py:1104-1113 | one more state's warnings extend the prefix |
| Translator.EventlessStates | translator/statecharts.py:1020-1025 | the first loop lists each state left by an eventless edge exactly once |
| Translator.InternalChain | translator/statecharts.py:1029-1057 | the second loop computes one state's internal code |
| Translator.AppendInternal | translator/statecharts.py:1028-1058 | appending to each listed state gives the payloads `manage_noevents` leaves |
| Translator.AppendedAll | translator/statecharts.py:1028-1058 | appending to every listed state is the whole rewrite |
| Translator.FindEventlessCycle | translator/statecharts.py:1080-1094 | the cycle loop finds the first eventless cycle |
| Translator.Parser.constructor | translator/statecharts.py:181-214 | a new parser has an empty graph, no event, no pseudo state, no extra code, no tokens and no warnings |
| Translator.Parser.AddState | translator/statecharts.py:265-267 | `add_state` leaves the graph with the node added when it was absent |
| Translator.Parser.AddTransition | translator/statecharts.py:275-276 | `add_transition` replaces the pair's edge |
| Translator.Parser.ParseTransition | translator/statecharts.py:1184-1231 | `parse_transition` succeeds exactly when the function does, and then leaves the state the function gives |
| Translator.Parser.StoreTransition | translator/statecharts.py:1205-1231 | the clause loop and the stored edge, once the end points are nodes |
| Translator.Parser.ParseState | translator/statecharts.py:1247-1284 | `parse_state` follows the function and keeps the invariant |
| Translator.Parser.ParseExtraCode | translator/statecharts.py:1305-1329 | `parse_extra_code` changes only the extra code, as the function says |
| Translator.Parser.GraphCycles | translator/statecharts.py:284-300 | `graph_cycles` returns the rotated cycles, in the raw cycles' order |
| Translator.Parser.GraphAllPathsToSinks | translator/statecharts.py:313-320 | `graph_all_paths_to_sinks` returns the paths, sinks then sources in node order |
| Translator.Parser.ResetMockCounters | translator/statecharts.py:733-747 | `reset_mock_counters` leaves the counters of the empty scenario |
| Translator.Parser.CountMockedGuards | translator/statecharts.py:752-765 | `count_mocked_guards` leaves each counter equal to the number of uses along the scenario |
| Translator.Parser.VerifyInitialState | translator/statecharts.py:1063-1065 | fatal exactly without an initial state |
| Translator.Parser.VerifyNumberOfEvents | translator/statecharts.py:1070-1074 | appends one warning exactly when no event has a name |
| Translator.Parser.VerifyTransitions | translator/statecharts.py:1102-1118 | appends the determinism warnings |
| Translator.Parser.ManageNoEvents | translator/statecharts.py:1017-1058 | the graph becomes the rewritten graph |
| Translator.Parser.VerifyInfiniteLoops | translator/statecharts.py:1079-1094 | appends at most one warning, for the first eventless cycle |
| Translator.Parser.FinalizeMachine | translator/statecharts.py:1140-1143 | `finalize_machine` follows the function and changes nothing when there is no initial state |
| Translator.Parser.RunChecks | translator/statecharts.py:1126-1143 | the checks, in order, each appending its warnings |
| Translator.Parser.RewriteAndLoops | translator/statecharts.py:1141-1143 | `manage_noevents`, then `verify_infinite_loops` on the graph it leaves |
| Runtime.Invoke | include/StateMachine.hpp:275-289 | a callback keeps the current state and only lets the queue grow |
| Runtime.InvokeOpt | include/StateMachine.hpp:350-376 | an optional callback keeps the current state and only lets the queue grow |
| Runtime.Step | include/StateMachine.hpp:293-385 | a turn that goes on lands in a known state, and it ignores the event exactly when the front's destination is `IGNORING_EVENT`, with nothing changed |
| Runtime.QueueIff | include/StateMachine.hpp:278-289 | a callback's requests go to the back of the queue in order; the 16th entry aborts |
| Runtime.QueueSkips | include/StateMachine.hpp:223-236 | a table request with no entry for the current state queues nothing |
| Runtime.QueuePushes | include/StateMachine.hpp:282-287 | a request that names a transition is appended, or aborts at 16 |
| Runtime.InvokeOptSpec | include/StateMachine.hpp:350-376 | an optional callback adds its own call to the trace, queues its requests behind the queue, and keeps the state |
| Runtime.StepRefused | include/StateMachine.hpp:326-340 | a refusing guard keeps the state, and the guard is the only callback run |
| Runtime.StepFires | include/StateMachine.hpp:347-376 | a firing transition sets the state before the action runs; then the old state's leaving callback and the new state's entering callback run |
| Runtime.StepSelfTransition | include/StateMachine.hpp:357-382 | a self-transition runs the guard and the action and neither leaving nor entering |
| Runtime.StepQueue | include/StateMachine.hpp:296-385 | the queue is FIFO: a turn pops the front and keeps the rest ahead of new requests, and stays under the limit |
| Runtime.QueueGrows | include/StateMachine.hpp:282-287 | two queue extensions in a row extend the first |
| Runtime.StepAborts | include/StateMachine.hpp:301-320 | `CANNOT_HAPPEN` or a destination of at least `MAX_STATES` aborts before any callback runs |
| Runtime.RunReturnsWedged | include/StateMachine.hpp:308-313 | the loop returns with a non-empty queue only when the front ignores the event, and that entry is never popped |
| Runtime.FireWhileQueued | include/StateMachine.hpp:278-289 | while the queue is not empty, a transition is only queued: no callback runs, and the 16th entry aborts |
| Runtime.DispatchAbsent | include/StateMachine.hpp:223-236 | the table version ignores an event when the current state has no entry |
| Runtime.StateMachine.constructor | include/StateMachine.hpp:185-190 | a new machine is in its initial state, with an empty queue |
| Runtime.StateMachine.Reset | include/StateMachine.hpp:195-200 | `reset()` goes back to the initial state with an empty queue |
| Runtime.StateMachine.RunCallback | include/StateMachine.hpp:350-376 | running one callback from inside the loop follows `Invoke` |
| Runtime.StateMachine.Transition | include/StateMachine.hpp:266-391 | `transition(Transition const*)` follows `Fire`: it queues, or runs the do-while loop |
| Runtime.StateMachine.TransitionStep | include/StateMachine.hpp:294-386 | one turn of the loop follows `Step` |
| Runtime.StateMachine.TransitionTable | include/StateMachine.hpp:223-236 | `transition(Transitions const&)` follows `Dispatch` |
| ToolParsing.NewState | tool/Parser.py:236 | a new state is named after its node and has no entering code |
| ToolParsing.JoinSnoc | tool/Parser.py:277-282 | joining one more part puts the separator before it |
| ToolParsing.NameFrom | tool/Parser.py:296-306 | the event-name loop only appends to the name |
| ToolParsing.NameFromFails | tool/Parser.py:296-306 | the loop fails exactly on a token it cannot get past |
| ToolParsing.NameFromPlain | tool/Parser.py:303-304 | without parentheses, every further token is capitalised |
| ToolParsing.EventOfFails | tool/Parser.py:289-306 | `parse_event` fails exactly on a breaking token after the first; otherwise there is no parameter and the name starts with the lower-cased first token |
| ToolParsing.EventOfPlain | tool/Parser.py:295-304 | without parentheses, this event name is the one the later translator gives |
| ToolParsing.Ends | tool/Parser.py:319-322 | `->` and `-->` read left to right, any other arrow right to left, with names upper-cased; fewer than three tokens is an IndexError |
| ToolParsing.ScanTo | tool/Parser.py:335-336 | the scan stops at the first stop token, or at the bound |
| ToolParsing.GuardAtSpec | tool/Parser.py:346-353 | the guard is the tokens up to the first `]`, joined by spaces; a missing `]` is an IndexError before the "Unterminated guard close" check is reached |
| ToolParsing.ActionAtSpec | tool/Parser.py:356-360 | the action is the tokens after `/` up to the first `]` or the bound, joined by spaces |
| ToolParsing.ClauseEdge | tool/Parser.py:331-367 | the clauses keep the end points, and only an `on` self-loop moves its action to the state |
| ToolParsing.StoredKeeps | tool/Parser.py:324-325 | storing adds both end points and the edge, and changes no other edge |
| ToolParsing.StoredValid | tool/Parser.py:370 | storing keeps the graph well formed |
| ToolParsing.ClauseEdgeEvents | tool/Parser.py:332-342 | with a `:` clause, the pair is recorded under the event read from tokens 4 to the first `[` or `/` |
| ToolParsing.ParseTransitionUnfold | tool/Parser.py:314-370 | `parse_transition` once the end points and clauses are known |
| ToolParsing.ParseTransitionValid | tool/Parser.py:314-370 | `parse_transition` keeps the invariant |
| ToolParsing.ParseTransitionShape | tool/Parser.py:319-329 | a parsed line adds its end points without touching an existing state; the edge of the pair is replaced; origin `[*]` makes the destination the initial state |
| ToolParsing.ParseTransitionEvents | tool/Parser.py:332-342 | the event table changes only on a line with a `:` clause, and then the pair is recorded |
| ToolParsing.ParseTransitionOnSelfLoop | tool/Parser.py:363-367 | on an `on` self-loop, the edge keeps no action and the state's event name gets the action, or `// Dummy action` when it is empty |
| ToolParsing.OnLine | tool/Parser.py:265 | the rewritten `on` line is one token longer |
| ToolParsing.ScanToAt | tool/Parser.py:335-336 | the scan stops at the first stop, however it is found |
| ToolParsing.ParseStateKeeps | tool/Parser.py:245-271 | an annotation other than `on` touches only the named state, which it creates if needed; `do` and unknown words fail |
| ToolParsing.OnLineClauses | tool/Parser.py:332-360 | the clauses of a rewritten `on` line read up to a count |
| ToolParsing.ParseStateOn | tool/Parser.py:264-267 | an `on` line is read as the transition it is rewritten to |
| ToolParsing.OnLineSplit | tool/Parser.py:265 | the rewritten line is `name -> name :` followed by the event, `/` and the action |
| ToolParsing.OnLineRead | tool/Parser.py:264-367 | a rewritten `on` line read up to the fresh count keeps the whole action; read up to the stale count, it loses the last token |
| ToolParsing.ParseStateOnDropsLastToken | tool/Parser.py:264-266 | as written, `S : on e / a b` names the state's reaction `a`, and `S : on e / a` gives `// Dummy action` |
| ToolParsing.ParseStateOnReadsAction | tool/Parser.py:264-266 | with the count brought up to date, the whole action after `/` names the state's reaction |
| ToolChecks.AlwaysTakenIff | tool/Parser.py:816-822 | the scan of one state reports exactly its edges with neither event nor guard |
| ToolChecks.TransitionWarningsIff | tool/Parser.py:810-822 | a warning is given exactly for a state with more than one successor and an edge with neither event nor guard |
| ToolChecks.FireTargetsAppend | tool/Parser.py:866-891 | the destinations of concatenated code are concatenated |
| ToolChecks.EdgeCodeTargets | tool/Parser.py:868-890 | the code for one edge fires to its destination exactly once |
| ToolChecks.FireChainTargets | tool/Parser.py:866-891 | every successor is fired to once, in neighbour order, whatever its event or guard |
| ToolChecks.FireChainWarning | tool/Parser.py:882-883 | `#warning "Undeterminist State machine"` appears at most once, exactly when the second successor's edge has no guard |
| ToolChecks.WithNoEventCodeSpec | tool/Parser.py:845-892 | only the entering code changes; a state's code grows by its no-event code exactly when it is selected |
| ToolChecks.WithNoEventCodeValid | tool/Parser.py:845-892 | `manage_noevents` keeps the graph well formed |
| ToolChecks.InitialCyclesShape | tool/Parser.py:693-700 | each replayed cycle is a closed walk of length at least 2 that starts and ends at the initial state and repeats no other node |
| ToolChecks.InitialCyclesKept | tool/Parser.py:695-700 | a raw cycle is kept exactly when it visits the initial state |
| Tool.Scan | tool/Parser.py:335-336 | the `while` scan computes `ScanTo` |
| Tool.ConcatTokens | tool/Parser.py:277-282 | `concat_tokens` is `' '.join(toks)` |
| Tool.ReadClauses | tool/Parser.py:332-367 | the clause reading computes `ClauseEdge` |
| Tool.ReadGuard | tool/Parser.py:346-353 | the guard scan computes `GuardAt` |
| Tool.ReadAction | tool/Parser.py:356-360 | the action scan computes `ActionAt` |
| Tool.AlwaysTakenScan | tool/Parser.py:816-822 | the inner loop gives one state's warnings |
| Tool.TransitionScan | tool/Parser.py:812-822 | the state loop gives the warnings in node order |
| Tool.TransitionStep | tool/Parser.py:812-822 | one more state's warnings extend the prefix |
| Tool.SelectStates | tool/Parser.py:848-856 | `[*]` is selected only for an eventless guarded edge, and any other state for any eventless edge |
| Tool.NoEventCodeOf | tool/Parser.py:859-891 | one selected state's code |
| Tool.AppendedAll | tool/Parser.py:860-892 | appending to every selected state is the whole rewrite |
| Tool.Parser.constructor | tool/Parser.py:151-171 | an empty graph, no event, no initial state, no tokens |
| Tool.Parser.Reset | tool/Parser.py:176-182 | back to the empty diagram |
| Tool.Parser.AddState | tool/Parser.py:234-236 | a node is added only when absent, and existing data is never overwritten |
| Tool.Parser.ParseTransition | tool/Parser.py:314-370 | `parse_transition` fails exactly as the function does, and otherwise leaves the state it gives |
| Tool.Parser.ParseState | tool/Parser.py:245-271 | `parse_state`, with the corrected count, follows the function |
| Tool.Parser.ParseAnnotation | tool/Parser.py:253-271 | the branches other than `on`, once the state exists |
| Tool.Parser.ParseOnLine | tool/Parser.py:264-267 | the `on` branch, once the state exists |
| Tool.Parser.VerifyTransition | tool/Parser.py:810-822 | appends the warnings of `verify_transition` |
| Tool.Parser.ManageNoEvents | tool/Parser.py:845-892 | the graph becomes the rewritten graph, whatever order the set gives |
| Tool.Parser.UnitTestCycles | tool/Parser.py:689-700 | the cycles rotated to start at the initial state, closed, in the raw cycles' order |

## Left out

- C++ text generation: every `generate_*` method, the comment and indent helpers, `is_hpp_file`, `Event.header` and `Event.caller`. They write template text. The code `manage_noevents` writes is kept as a sequence of statements (`Chart.Stmt`, `ToolParsing.Code`) that records which edge fires, under which guard, and where a `#warning` sits; the text around them is not kept.
- Warning and error message text. Warnings are values that name the states concerned. `print` and `bcolors` are left out. `fatal` and raised exceptions become `Err` values, not process exits.
- The Lark front end: `load_plantuml_grammar_file`, `parse_plantuml_file`, `visit_ast`, `translate`, `usage` and `main`. `parse_state` takes the parsed line as a value (rule name, state name, clauses), and `parse_transition` takes the flattened token list.
- `networkx.simple_cycles`: the raw cycles are a parameter, required to be elementary cycles of the graph; the order networkx lists them in is not modelled. `all_simple_paths` is modelled by a depth-first search in neighbour order. Its membership is proved, but networkx's own order is not claimed. `graph_dfs` is not part of this model: it is never called.
- The translator's `reset` (translator/statecharts.py:220-231): it sets the same values as the constructor, which `Translator.Parser.constructor` states.
- `state_enum`, `guard_function`, `transition_function` and the other C++ naming helpers, except `state_name`.
- The `'[*]'` prefix added to each cycle before counting mocks (translator/statecharts.py:848) is outside this model: `count_mocked_guards` takes any scenario.
- Strings are ASCII for `lower`, `upper`, `capitalize` and `strip`; Unicode case mapping is not modelled.
- Text.ParseNat: reads only unsigned runs of digits, while Python's `int()` also accepts a sign, surrounding whitespace and `_` separators. The count it reads is always written by `str(len(...))` (translator/statecharts.py:1279), so those forms never reach it.
- StateMachine.hpp:
  - the `THREAD_SAFETY` mutex: concurrency;
  - `LOGD`, `LOGE`, `stringify` and `c_str`: logging;
  - member-function pointers: a callback is a number whose effect an environment gives;
  - `exit()`: an `Aborted` outcome.
- Runtime.Run: the do-while loop runs for at most `fuel` turns; `OutOfFuel` is not an outcome of the C++ loop, which may loop forever.
- Runtime.StateMachine.Transition: after an abort the contract says nothing of the fields, because the process exits there.
- Translator.Parser.ParseTransition: on failure the contract says nothing of the nodes `add_state` made, nor of `initial_state` and `final_state` set, before the exception.
- Translator.Parser.ParseState: on failure the contract says nothing of the node made before the exception.
- Tool.Parser.ParseTransition: on failure the contract says nothing of the nodes and the initial state set before the exception.
- Tool.Parser.ParseState: on failure the contract says nothing of the node made before the exception.
- Composite states, broadcasts and parent/child machines: the translator does not implement them.
- `tool/Parser.py` `parse_event` is modelled only as `parse_transition` uses it (`ToolParsing.EventOf`). In its parameter branch, a token starting with `(` appends the upper-cased token, `const& `, the token and a comma to the name (tool/Parser.py:306); a later token starting with `)` indexes the `Event` object itself (tool/Parser.py:301) and fails. Both are modelled (`ToolParsing.NamePart`, `ToolParsing.NameFromFails`); no parameter is ever recorded. `parseline` reads the file line by line, so the tokens of a line are a field of the model.
- `tool/Parser.py` `warning` only prints. The model appends the warnings to a `warnings` field, so `verify_transition` has something to state.
- The order of `list(set(states))` in the tool's `manage_noevents` is left open: `Tool.Parser.ManageNoEvents` takes the states in any order, and each state's code does not depend on the order.
- `Event.__str__` and `Event.__repr__` call a method that does not exist.
- Of the tool's `generate_unit_tests`, only the cycle rotation is modelled.

## Findings

| source | as written | input that shows it | evidently intended | confidence | as-written member | corrected member |
|---|---|---|---|---|---|---|
| translator/statecharts.py:1164-1168 | `splits[1][:-1].split(',')` on an empty parameter list gives `['']`, one parameter with an empty name | the event token `f()` | `f()` declares no parameter | not executed | Chart.ParseEventAsWrittenEmptyParameters | Chart.ParseEventWithParams |
| translator/statecharts.py:1036-1037 | `manage_noevents` writes `if (guard())` for every guarded edge, but writes a block only for edges without event; the `if` of a guarded edge that has an event then governs the next edge's block | `A -> B : e [g]` listed before `A -> C` | the `if` is written only for eventless edges, so each `if` governs its own edge | not executed | Checks.StrayGuardCounterexample | Checks.ChainGuardsOwnTransition |
| tool/Parser.py:264-266 | `parse_state` rewrites an `on` line to `[name, '->', name, ':'] + tokens[3:]`, one token longer, but `parse_transition` still scans up to the old `nb_tokens`; the last action token is lost | `S : on evt / go` gives the reaction `// Dummy action`, not `go` | the whole action after `/` is read | not executed | ToolParsing.ParseStateOnDropsLastToken | ToolParsing.ParseStateOnReadsAction |

The model uses the corrected definitions:
- `Chart.ParseEvent` is the corrected `parse_event`;
- `Checks.Chain` is the corrected `manage_noevents` code;
- `Tool.Parser.ParseState` brings the count up to date after the rewrite, as `ToolParsing.ParseStateSpec` does.

The as-written definitions are `Chart.ParseEventAsWritten`, `Checks.ChainAsWritten` and `ToolParsing.ParseStateAsWritten`.
