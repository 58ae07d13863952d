/**
 * The translator's Parser object (translator/statecharts.py): the graph of
 * states and transitions, the event lookup table, the pseudo states, the
 * extra code and the warnings, built up by the parse_* methods and then
 * checked and completed by finalize_machine. Each method is proved to leave
 * the fields as the functions of Parsing, Scenarios and Checks say.
 */
module Translator {
  import opened Outcomes
  import opened Text
  import opened Chart
  import opened Parsing
  import DiGraph
  import Scenarios
  import Checks

  /** The clause loop of parse_transition: each token after the arrow is
      examined in turn by ClauseStep, and the transition and the lookup table
      come out as ScanClauses says. */
  method ReadClauses(tokens: seq<string>, tr0: Transition, events0: EventTable, asState: bool)
    returns (r: Result<(Transition, EventTable)>)
    ensures r == ScanClauses(tokens, 3, tr0, events0, asState)
    ensures r.Ok? ==> r.value.0.origin == tr0.origin && r.value.0.destination == tr0.destination
  {
    var tr, events := tr0, events0;
    var i := 3;
    while i < |tokens|
      invariant ScanClauses(tokens, i, tr, events, asState) == ScanClauses(tokens, 3, tr0, events0, asState)
      invariant tr.origin == tr0.origin && tr.destination == tr0.destination
      decreases |tokens| - i
    {
      ScanClausesUnfold(tokens, i, tr, events, asState);
      var step := ClauseStep(tokens, i, tr, events, asState);
      if step.Err? {
        return Err(step.error);
      }
      ClauseStepSpec(tokens, i, tr, events, asState);
      tr, events := step.value.0, step.value.1;
      i := i + 1;
    }
    return Ok((tr, events));
  }

  /** The warning verify_infinite_loops adds for the cycles graph_cycles
      derives from the raw cycles: one for the first cycle that no event is
      needed to go round, if there is one. */
  function InfiniteLoopWarnings(g: Graph, initial: Name, raws: seq<seq<Name>>): (r: seq<Warning>)
    requires g.Valid() && initial in g.succ
    requires forall i | 0 <= i < |raws| :: g.IsElementaryCycle(raws[i])
    ensures |r| <= 1 && forall w | w in r :: w.InfiniteLoop?
  {
    var cycles := Scenarios.Cycles(g.succ[initial], raws);
    assert forall i | 0 <= i < |cycles| :: g.IsWalk(cycles[i]) by {
      forall i | 0 <= i < |cycles| ensures g.IsWalk(cycles[i]) {
        Scenarios.CyclesShape(g, initial, raws, cycles[i]);
      }
    }
    match Checks.FirstEventlessCycle(g, cycles)
    case None => []
    case Some(c) => [InfiniteLoop(c)]
  }

  /** What finalize_machine needs: a well-formed graph whose initial state,
      once known, is a node, and raw cycles that are elementary cycles of it. */
  ghost predicate Finalizable(m: Machine, raws: seq<seq<Name>>) {
    && m.graph.Valid() && (m.initialState == "" || m.initialState in m.graph.succ)
    && forall i | 0 <= i < |raws| :: m.graph.IsElementaryCycle(raws[i])
  }

  /** The warnings finalize_machine adds once there is an initial state:
      verify_number_of_events, verify_transitions, then verify_infinite_loops
      on the graph manage_noevents leaves. Only verify_number_of_events
      reports a missing event, and it does so exactly when no key of the
      event table has a name. */
  function AddedWarnings(m: Machine, raws: seq<seq<Name>>): (r: seq<Warning>)
    requires Finalizable(m, raws) && m.initialState != ""
    ensures NoNamedEvent in r <==> !m.lookupEvents.HasNamedEvent()
  {
    var g := Checks.WithInternalTransitions(m.graph);
    Checks.WithInternalTransitionsShape(m.graph);
    assert forall i | 0 <= i < |raws| :: g.IsElementaryCycle(raws[i]) by {
      forall i | 0 <= i < |raws| ensures g.IsElementaryCycle(raws[i]) {
        assert m.graph.IsElementaryCycle(raws[i]);
      }
    }
    var determinism := Checks.DeterminismWarnings(m.graph, m.graph.nodes);
    var loops := InfiniteLoopWarnings(g, m.initialState, raws);
    Checks.DeterminismWarningsKinds(m.graph, m.graph.nodes);
    assert NoNamedEvent !in determinism + loops;
    (if m.lookupEvents.HasNamedEvent() then [] else [NoNamedEvent]) + determinism + loops
  }

  /** finalize_machine: verify_initial_state (fatal), then the warnings
      above, with manage_noevents writing the internal transitions. */
  function Finalize(m: Machine, raws: seq<seq<Name>>): Result<Machine>
    requires Finalizable(m, raws)
  {
    if m.initialState == "" then Err(MissingInitialState)
    else Ok(m.(graph := Checks.WithInternalTransitions(m.graph), warnings := m.warnings + AddedWarnings(m, raws)))
  }

  /** finalize_machine fails exactly without an initial state; otherwise it
      keeps the graph's shape, the event table and the pseudo states. */
  lemma FinalizeKeeps(m: Machine, raws: seq<seq<Name>>)
    requires Finalizable(m, raws)
    ensures Finalize(m, raws).Err? <==> m.initialState == ""
    ensures Finalize(m, raws).Ok? ==>
      var n := Finalize(m, raws).value;
      && n.graph.nodes == m.graph.nodes && n.graph.succ == m.graph.succ && n.graph.edges == m.graph.edges
      && n.lookupEvents == m.lookupEvents && n.initialState == m.initialState && n.finalState == m.finalState
  {
    if m.initialState != "" {
      Checks.WithInternalTransitionsShape(m.graph);
    }
  }

  /** Finalize as the source's sequence of checks computes it, each one
      appending to the warnings in turn. */
  lemma FinalizeInSteps(m: Machine, raws: seq<seq<Name>>)
    requires Finalizable(m, raws) && m.initialState != ""
    ensures var g := Checks.WithInternalTransitions(m.graph);
      g.Valid() && m.initialState in g.succ && (forall i | 0 <= i < |raws| :: g.IsElementaryCycle(raws[i]))
      && Finalize(m, raws) == Ok(m.(graph := g, warnings :=
        m.warnings + (if m.lookupEvents.HasNamedEvent() then [] else [NoNamedEvent])
        + Checks.DeterminismWarnings(m.graph, m.graph.nodes)
        + InfiniteLoopWarnings(g, m.initialState, raws)))
  {
    var g := Checks.WithInternalTransitions(m.graph);
    Checks.WithInternalTransitionsShape(m.graph);
    forall i | 0 <= i < |raws| ensures g.IsElementaryCycle(raws[i]) {
      assert m.graph.IsElementaryCycle(raws[i]);
    }
    var named := if m.lookupEvents.HasNamedEvent() then [] else [NoNamedEvent];
    var determinism := Checks.DeterminismWarnings(m.graph, m.graph.nodes);
    var loops := InfiniteLoopWarnings(g, m.initialState, raws);
    assert AddedWarnings(m, raws) == named + determinism + loops;
    AppendAssoc(m.warnings, named + determinism, loops);
    AppendAssoc(m.warnings, named, determinism);
  }

  /** finalize_machine keeps the parser's invariant. */
  lemma FinalizeValid(m: Machine, raws: seq<seq<Name>>)
    requires MachineValid(m) && Finalizable(m, raws)
    ensures Finalize(m, raws).Ok? ==> MachineValid(Finalize(m, raws).value)
  {
    if m.initialState != "" {
      var g := Finalize(m, raws).value.graph;
      Checks.WithInternalTransitionsShape(m.graph);
      forall x | x in g.data ensures g.data[x].name == x {
        Checks.WithInternalTransitionsSpec(m.graph, x);
      }
    }
  }

  /** The inner loop of graph_all_paths_to_sinks: the simple paths from each
      source in turn to one sink. */
  method PathsIntoSink(g: Graph, sources: seq<Name>, sink: Name) returns (paths: seq<seq<Name>>)
    requires g.Valid() && forall n | n in sources :: n in g.data
    ensures paths == Scenarios.PathsInto(g, sources, sink)
  {
    paths := [];
    var j := 0;
    while j < |sources|
      invariant 0 <= j <= |sources|
      invariant paths == Scenarios.PathsInto(g, sources[..j], sink)
    {
      assert sources[..j + 1][..j] == sources[..j];
      paths := paths + Scenarios.SimplePaths(g, sources[j], sink);
      j := j + 1;
    }
    assert sources[..j] == sources;
  }

  /** The edge loop of reset_mock_counters, over es = list(graph.edges). */
  method ResetEdgeCounters(g: Graph, es: seq<(Name, Name)>) returns (edges: map<(Name, Name), Transition>)
    requires forall e :: e in g.edges <==> e in es
    ensures edges == Scenarios.CountMocks(g, []).edges
  {
    edges := g.edges;
    ghost var reset: set<(Name, Name)> := {};
    var i := 0;
    while i < |es|
      invariant 0 <= i <= |es|
      invariant edges.Keys == g.edges.Keys
      invariant forall k | 0 <= k < i :: es[k] in reset
      invariant forall e | e in edges :: edges[e] == if e in reset then Scenarios.CountEdge(g.edges[e], 0) else g.edges[e]
    {
      var tr := edges[es[i]];
      if tr.guard != "" {
        tr := tr.(countGuard := 0);
      }
      if tr.action != "" {
        tr := tr.(countAction := 0);
      }
      assert tr == Scenarios.CountEdge(g.edges[es[i]], 0);
      ghost var before := edges;
      edges := edges[es[i] := tr];
      reset := reset + {es[i]};
      forall e | e in edges
        ensures edges[e] == if e in reset then Scenarios.CountEdge(g.edges[e], 0) else g.edges[e]
      {
        if e != es[i] {
          assert edges[e] == before[e];
        }
      }
      i := i + 1;
    }
    ghost var expected := Scenarios.CountMocks(g, []).edges;
    forall e | e in edges ensures edges[e] == expected[e] {
      var k :| 0 <= k < |es| && es[k] == e;
    }
  }

  /** The node loop of reset_mock_counters, over the nodes in order. */
  method ResetStateCounters(g: Graph) returns (data: map<Name, State>)
    requires forall n :: n in g.data <==> n in g.nodes
    ensures data == Scenarios.CountMocks(g, []).data
  {
    var ns := g.nodes;
    data := g.data;
    ghost var cleared: set<Name> := {};
    var i := 0;
    while i < |ns|
      invariant 0 <= i <= |ns|
      invariant forall k | 0 <= k < i :: ns[k] in cleared
      invariant data == ClearedFor(g, cleared)
    {
      var st := data[ns[i]];
      if st.entering != "" {
        st := st.(countEntering := 0);
      }
      if st.leaving != "" {
        st := st.(countLeaving := 0);
      }
      assert st == Scenarios.CountState(g.data[ns[i]], 0, 0);
      ClearedStep(g, cleared, ns[i]);
      data := data[ns[i] := st];
      cleared := cleared + {ns[i]};
      i := i + 1;
    }
    assert g.data.Keys <= cleared by {
      forall n | n in g.data ensures n in cleared {
        var k :| 0 <= k < |ns| && ns[k] == n;
      }
    }
    ClearedAll(g, cleared);
  }

  /** The node payloads with the counters of the states in cleared reset. */
  ghost function ClearedFor(g: Graph, cleared: set<Name>): map<Name, State>
  {
    map n | n in g.data :: if n in cleared then Scenarios.CountState(g.data[n], 0, 0) else g.data[n]
  }

  lemma ClearedStep(g: Graph, cleared: set<Name>, x: Name)
    requires x in g.data
    ensures ClearedFor(g, cleared + {x}) == ClearedFor(g, cleared)[x := Scenarios.CountState(g.data[x], 0, 0)]
  {
    var a := ClearedFor(g, cleared + {x});
    var b := ClearedFor(g, cleared)[x := Scenarios.CountState(g.data[x], 0, 0)];
    assert a.Keys == b.Keys;
    forall n | n in a ensures a[n] == b[n] {
    }
  }

  lemma ClearedAll(g: Graph, cleared: set<Name>)
    requires g.data.Keys <= cleared
    ensures ClearedFor(g, cleared) == Scenarios.CountMocks(g, []).data
  {
    var a := ClearedFor(g, cleared);
    var b := Scenarios.CountMocks(g, []).data;
    assert a.Keys == b.Keys;
    forall n | n in a ensures a[n] == b[n] {
    }
  }

  /** One step a -> b of count_mocked_guards: the edge's guard and action
      counters and, when the step changes state, the exit counter of a and
      the entry counter of b go up where there is code to count. */
  method CountStep(edges: map<(Name, Name), Transition>, data: map<Name, State>, a: Name, b: Name)
    returns (edges': map<(Name, Name), Transition>, data': map<Name, State>)
    requires (a, b) in edges && a in data && b in data
    ensures edges' == edges[(a, b) := Scenarios.BumpEdge(edges[(a, b)])]
    ensures data' == if a == b then data
                     else data[a := Scenarios.BumpLeaving(data[a])][b := Scenarios.BumpEntering(data[b])]
  {
    var tr := edges[(a, b)];
    if tr.guard != "" {
      tr := tr.(countGuard := tr.countGuard + 1);
    }
    if tr.action != "" {
      tr := tr.(countAction := tr.countAction + 1);
    }
    edges' := edges[(a, b) := tr];
    // The source compares the two State payloads' names, which are the
    // node names a and b (add_state names each State after its node).
    data' := data;
    var source := data'[a];
    if source.leaving != "" && a != b {
      data' := data'[a := source.(countLeaving := source.countLeaving + 1)];
    }
    var destination := data'[b];
    if destination.entering != "" && a != b {
      data' := data'[b := destination.(countEntering := destination.countEntering + 1)];
    }
  }

  /** The step loop of count_mocked_guards, on the graph g whose counters
      reset_mock_counters has just cleared in g0: the counters after the
      whole scenario, or ok false at the first step that is not an edge. */
  method CountSteps(ghost g0: Graph, g: Graph, scenario: seq<Name>)
    returns (edges: map<(Name, Name), Transition>, data: map<Name, State>, ok: bool)
    requires forall e | e in g0.edges :: e.0 in g0.data && e.1 in g0.data
    requires g.edges == Scenarios.CountMocks(g0, []).edges && g.data == Scenarios.CountMocks(g0, []).data
    ensures ok <==> g0.IsWalk(scenario)
    ensures ok ==> edges == Scenarios.CountMocks(g0, scenario).edges && data == Scenarios.CountMocks(g0, scenario).data
  {
    if |scenario| < 2 {
      Scenarios.CountMocksShort(g0, scenario);
      return g.edges, g.data, true;
    }
    Scenarios.CountMocksShort(g0, scenario[..1]);
    edges, data, ok := CountWalk(g0, g.edges, g.data, scenario);
  }

  /** The loop itself, from the counters of the scenario's first state. */
  method CountWalk(ghost g0: Graph, edges0: map<(Name, Name), Transition>, data0: map<Name, State>, scenario: seq<Name>)
    returns (edges: map<(Name, Name), Transition>, data: map<Name, State>, ok: bool)
    requires forall e | e in g0.edges :: e.0 in g0.data && e.1 in g0.data
    requires |scenario| >= 1
    requires edges0 == Scenarios.CountMocks(g0, scenario[..1]).edges
    requires data0 == Scenarios.CountMocks(g0, scenario[..1]).data
    ensures ok <==> g0.IsWalk(scenario)
    ensures ok ==> edges == Scenarios.CountMocks(g0, scenario).edges && data == Scenarios.CountMocks(g0, scenario).data
  {
    edges, data := edges0, data0;
    var k := 1;
    while k < |scenario|
      invariant 1 <= k <= |scenario|
      invariant g0.IsWalk(scenario[..k])
      invariant edges == Scenarios.CountMocks(g0, scenario[..k]).edges
      invariant data == Scenarios.CountMocks(g0, scenario[..k]).data
    {
      var (a, b) := (scenario[k - 1], scenario[k]);
      Scenarios.CountMocksHasEdge(g0, scenario[..k], (a, b));
      if (a, b) !in edges {
        return edges, data, false;
      }
      DiGraph.WalkExtend(g0, scenario, k);
      var edges', data' := CountStep(edges, data, a, b);
      CountStepCounts(g0, scenario, k, edges, data, edges', data');
      edges, data := edges', data';
      k := k + 1;
    }
    assert scenario[..k] == scenario;
    return edges, data, true;
  }

  /** One step of the loop of count_mocked_guards yields the counters of the
      scenario one step longer. */
  lemma CountStepCounts(g0: Graph, scenario: seq<Name>, k: nat,
                        edges: map<(Name, Name), Transition>, data: map<Name, State>,
                        edges': map<(Name, Name), Transition>, data': map<Name, State>)
    requires forall e | e in g0.edges :: e.0 in g0.data && e.1 in g0.data
    requires 1 <= k < |scenario| && (scenario[k - 1], scenario[k]) in g0.edges
    requires edges == Scenarios.CountMocks(g0, scenario[..k]).edges
    requires data == Scenarios.CountMocks(g0, scenario[..k]).data
    requires var (a, b) := (scenario[k - 1], scenario[k]);
      && (a, b) in edges && a in data && b in data
      && edges' == edges[(a, b) := Scenarios.BumpEdge(edges[(a, b)])]
      && data' == if a == b then data
                  else data[a := Scenarios.BumpLeaving(data[a])][b := Scenarios.BumpEntering(data[b])]
    ensures edges' == Scenarios.CountMocks(g0, scenario[..k + 1]).edges
    ensures data' == Scenarios.CountMocks(g0, scenario[..k + 1]).data
  {
    var i := k - 1;
    assert i + 1 == k && i + 2 == k + 1;
    Scenarios.CountMocksStepEdges(g0, scenario, i);
    Scenarios.CountMocksStepStates(g0, scenario, i);
  }

  /** The inner loop of verify_transitions for one state s: the edges out
      of s that have neither an event nor a guard, in neighbour order. */
  method AlwaysTakenScan(g: Graph, s: Name) returns (found: seq<Warning>)
    requires g.Valid() && s in g.succ
    ensures found == Checks.AlwaysTaken(g, s, g.succ[s])
  {
    var out := g.succ[s];
    found := [];
    for j := 0 to |out|
      invariant found + Checks.AlwaysTaken(g, s, out[j..]) == Checks.AlwaysTaken(g, s, out)
    {
      var d := out[j];
      var tr := g.edges[(s, d)];
      var here: seq<Warning> := [];
      if tr.event.name == "" && tr.guard == "" {
        here := [NonDeterministic(s, d)];
      }
      assert out[j..][1..] == out[j + 1..];
      assert Checks.AlwaysTaken(g, s, out[j..]) == here + Checks.AlwaysTaken(g, s, out[j + 1..]);
      AppendAssoc(found, here, Checks.AlwaysTaken(g, s, out[j + 1..]));
      found := found + here;
    }
    assert out[|out|..] == [];
  }

  /** verify_transitions: every state with more than one successor is
      reported once per always-taken edge, states in insertion order. */
  method DeterminismScan(g: Graph) returns (ws: seq<Warning>)
    requires g.Valid()
    ensures ws == Checks.DeterminismWarnings(g, g.nodes)
  {
    var ns := g.nodes;
    ws := [];
    for i := 0 to |ns|
      invariant ws + Checks.DeterminismWarnings(g, ns[i..]) == Checks.DeterminismWarnings(g, ns)
    {
      var state := ns[i];
      var found: seq<Warning> := [];
      if |g.succ[state]| > 1 {
        found := AlwaysTakenScan(g, state);
      }
      DeterminismStep(g, i, ws, found);
      ws := ws + found;
    }
    assert ns[|ns|..] == [];
  }

  lemma DeterminismStep(g: Graph, i: nat, ws: seq<Warning>, found: seq<Warning>)
    requires g.Valid() && i < |g.nodes|
    requires found == if |g.succ[g.nodes[i]]| > 1 then Checks.AlwaysTaken(g, g.nodes[i], g.succ[g.nodes[i]]) else []
    requires ws + Checks.DeterminismWarnings(g, g.nodes[i..]) == Checks.DeterminismWarnings(g, g.nodes)
    ensures (ws + found) + Checks.DeterminismWarnings(g, g.nodes[i + 1..]) == Checks.DeterminismWarnings(g, g.nodes)
  {
    var ns := g.nodes;
    assert ns[i..][1..] == ns[i + 1..];
    var rest := Checks.DeterminismWarnings(g, ns[i + 1..]);
    assert Checks.DeterminismWarnings(g, ns[i..]) == found + rest;
    Text.AppendAssoc(ws, found, rest);
  }

  /** The first loop of manage_noevents: the states with an edge out that
      has no event, each once. */
  method EventlessStates(g: Graph) returns (states: seq<Name>)
    requires g.Valid()
    ensures DiGraph.Distinct(states)
    ensures forall n :: n in states <==> n in g.nodes && Checks.HasEventlessEdge(g, n)
  {
    states := [];
    for i := 0 to |g.nodes|
      invariant DiGraph.Distinct(states)
      invariant forall n :: n in states <==> n in g.nodes[..i] && Checks.HasEventlessEdge(g, n)
    {
      var state := g.nodes[i];
      var out := g.succ[state];
      assert state !in g.nodes[..i];
      for j := 0 to |out|
        invariant DiGraph.Distinct(states)
        invariant forall n :: n in states <==>
          (n in g.nodes[..i] && Checks.HasEventlessEdge(g, n))
          || (n == state && exists k | 0 <= k < j :: Checks.EventlessEdge(g, state, out[k]))
      {
        var tr := g.edges[(state, out[j])];
        if tr.event.name == "" && state !in states {
          states := states + [state];
        }
      }
      assert g.nodes[..i + 1] == g.nodes[..i] + [state];
    }
    assert g.nodes[..|g.nodes|] == g.nodes;
  }

  /** The second loop of manage_noevents for one state s: the guard chain
      over the edges out of s, in neighbour order, counting the eventless
      edges seen so far. A guard is emitted only for an edge without an
      event, whose block follows it; the source emits it for every guarded
      edge (see Checks.ChainAsWritten). */
  method InternalChain(g: Graph, s: Name) returns (code: seq<Stmt>)
    requires g.Valid() && s in g.succ
    ensures code == Checks.Chain(g, s)
  {
    var out := g.succ[s];
    code := [];
    var count := 0;
    for j := 0 to |out|
      invariant code + Checks.ChainFrom(g, s, out[j..], count, false) == Checks.Chain(g, s)
    {
      var d := out[j];
      var tr := g.edges[(s, d)];
      assert out[j..][1..] == out[j + 1..];
      // The statements for this edge, appended to code below.
      var block: seq<Stmt> := [];
      if tr.guard != "" {
        if tr.event.name == "" {
          block := [IfGuard(s, d)];
        }
      } else if tr.event.name == "" {
        if count == 1 {
          block := [MissingGuardWarning(s, d)];
        } else if count > 1 {
          block := [UndeterministWarning(s, d)];
        }
      }
      ghost var before := count;
      if tr.event.name == "" {
        block := block + [Fire(s, d, tr.action != "")];
        count := count + 1;
      }
      assert block == Checks.EdgeBlock(tr, s, d, before, false);
      ghost var rest := Checks.ChainFrom(g, s, out[j + 1..], count, false);
      assert Checks.ChainFrom(g, s, out[j..], before, false) == block + rest;
      AppendAssoc(code, block, rest);
      code := code + block;
    }
    assert out[|out|..] == [];
  }

  /** manage_noevents on the node payloads: each of the given states gets its
      guard chain appended to its internal code, every other node is kept. */
  method AppendInternal(g: Graph, states: seq<Name>) returns (data: map<Name, State>)
    requires g.Valid() && DiGraph.Distinct(states)
    requires forall n :: n in states <==> n in g.nodes && Checks.HasEventlessEdge(g, n)
    ensures data == Checks.WithInternalTransitions(g).data
  {
    data := g.data;
    ghost var done: set<Name> := {};
    for k := 0 to |states|
      invariant forall m | 0 <= m < k :: states[m] in done
      invariant forall m | k <= m < |states| :: states[m] !in done
      invariant forall n | n in done :: n in states
      invariant data == AppendedFor(g, done)
    {
      var state := states[k];
      var code := InternalChain(g, state);
      AppendedStep(g, done, state);
      data := data[state := data[state].(internal := data[state].internal + code)];
      done := done + {state};
    }
    forall n | n in g.data ensures n in done <==> Checks.HasEventlessEdge(g, n) {
      if n in states {
        var m :| 0 <= m < |states| && states[m] == n;
      }
    }
    AppendedAll(g, done);
  }

  /** The node payloads with the guard chain appended for the states in done. */
  ghost function AppendedFor(g: Graph, done: set<Name>): map<Name, State>
    requires g.Valid()
  {
    map n | n in g.data :: if n in done then g.data[n].(internal := g.data[n].internal + Checks.Chain(g, n)) else g.data[n]
  }

  lemma AppendedStep(g: Graph, done: set<Name>, x: Name)
    requires g.Valid() && x in g.data && x !in done
    ensures AppendedFor(g, done)[x] == g.data[x]
    ensures AppendedFor(g, done + {x})
            == AppendedFor(g, done)[x := g.data[x].(internal := g.data[x].internal + Checks.Chain(g, x))]
  {
    var a := AppendedFor(g, done + {x});
    var b := AppendedFor(g, done)[x := g.data[x].(internal := g.data[x].internal + Checks.Chain(g, x))];
    assert a.Keys == b.Keys;
    forall n | n in a ensures a[n] == b[n] {
    }
  }

  lemma AppendedAll(g: Graph, done: set<Name>)
    requires g.Valid() && forall n | n in g.data :: n in done <==> Checks.HasEventlessEdge(g, n)
    ensures AppendedFor(g, done) == Checks.WithInternalTransitions(g).data
  {
    var a := AppendedFor(g, done);
    var b := Checks.WithInternalTransitions(g).data;
    assert a.Keys == b.Keys;
    forall n | n in a ensures a[n] == b[n] {
    }
  }

  /** The cycle loop of verify_infinite_loops: the first cycle of length
      other than one whose every step is an edge without an event. */
  method FindEventlessCycle(g: Graph, cycles: seq<seq<Name>>) returns (r: Option<seq<Name>>)
    requires forall i | 0 <= i < |cycles| :: g.IsWalk(cycles[i])
    ensures r == Checks.FirstEventlessCycle(g, cycles)
  {
    var i := 0;
    while i < |cycles|
      invariant 0 <= i <= |cycles|
      invariant forall k | 0 <= k < i && |cycles[k]| != 1 :: !Checks.AllEventless(g, cycles[k])
    {
      var cycle := cycles[i];
      assert g.IsWalk(cycle);
      var find := true;
      if |cycle| == 1 {
        find := false;
      } else {
        var j := 0;
        while j < |cycle| - 1 && find
          invariant 0 <= j && (j == 0 || j < |cycle|)
          invariant find ==> forall k | 0 <= k < j :: g.edges[(cycle[k], cycle[k + 1])].event.name == ""
          invariant !find ==> j < |cycle| - 1 && g.edges[(cycle[j], cycle[j + 1])].event.name != ""
          decreases |cycle| - j, if find then 1 else 0
        {
          if g.edges[(cycle[j], cycle[j + 1])].event.name != "" {
            find := false;
          } else {
            j := j + 1;
          }
        }
      }
      if find {
        assert Checks.AllEventless(g, cycle);
        return Some(cycle);
      }
      i := i + 1;
    }
    return None;
  }

  class Parser {
    var graph: Graph
    var lookupEvents: EventTable
    var initialState: Name
    var finalState: Name
    var extraCode: ExtraCode
    var warnings: seq<Warning>
    var tokens: seq<string>

    /** The fields as one value. */
    function Snapshot(): Machine
      reads this
    {
      Machine(graph, lookupEvents, initialState, finalState, extraCode, warnings, tokens)
    }

    ghost predicate Valid()
      reads this
    {
      MachineValid(Snapshot())
    }

    /** A parser with an empty graph, no event, no pseudo state, no extra
        code and no warning. */
    constructor ()
      ensures Snapshot() == Machine(DiGraph.Empty(), NoEvents, "", "", NoExtraCode, [], [])
      ensures Valid()
    {
      graph := DiGraph.Empty();
      lookupEvents := NoEvents;
      initialState := "";
      finalState := "";
      extraCode := NoExtraCode;
      warnings := [];
      tokens := [];
    }

    /** add_state: a node named name with a fresh State, unless there is one. */
    method AddState(name: Name)
      modifies this`graph
      ensures graph == old(graph).AddNode(name, NewState(name))
    {
      if !graph.HasNode(name) {
        graph := graph.AddNode(name, NewState(name));
      }
    }

    /** add_transition: the edge tr.origin -> tr.destination now carries tr. */
    method AddTransition(tr: Transition)
      modifies this`graph
      ensures graph == old(graph).SetEdge(tr.origin, tr.destination, tr)
    {
      graph := graph.SetEdge(tr.origin, tr.destination, tr);
    }

    /** parse_transition on the pending tokens. */
    method ParseTransition(asState: bool) returns (r: Result<()>)
      modifies this`graph, this`lookupEvents, this`initialState, this`finalState, this`tokens
      ensures r.Ok? <==> ParseTransitionSpec(old(Snapshot()), asState).Ok?
      ensures r.Ok? ==> Snapshot() == ParseTransitionSpec(old(Snapshot()), asState).value
    {
      ghost var m := Snapshot();
      if |tokens| < 3 || tokens[1] == "" {
        return Err(IndexOutOfRange);
      }
      var origin, destination;
      if tokens[1][|tokens[1]| - 1] == '>' {
        origin, destination := Upper(tokens[0]), Upper(tokens[2]);
      } else {
        origin, destination := Upper(tokens[2]), Upper(tokens[0]);
      }
      assert (origin, destination) == Oriented(m.tokens);
      ghost var d0 := destination;
      if origin == InitialMarker {
        initialState := InitialMarker;
      } else if destination == InitialMarker {
        destination := FinalMarker;
        finalState := FinalMarker;
      }
      AddState(origin);
      AddState(destination);
      ghost var g := graph;
      r := StoreTransition(asState, origin, destination);
      ghost var scan := ScanClauses(m.tokens, 3, NewTransition().(origin := origin, destination := destination), m.lookupEvents, asState);
      if r.Err? {
        ParseTransitionFails(m, asState, origin, d0, scan.error);
      } else {
        ParseTransitionOk(m, asState, origin, d0, scan.value.0, scan.value.1);
      }
    }

    /** The second half of parse_transition, once both end points are nodes:
        the clause loop, then the edge stored and the pending tokens cleared. */
    method StoreTransition(asState: bool, origin: Name, destination: Name) returns (r: Result<()>)
      modifies this`graph, this`lookupEvents, this`tokens
      ensures var scan := ScanClauses(old(tokens), 3, NewTransition().(origin := origin, destination := destination), old(lookupEvents), asState);
        && (r.Ok? <==> scan.Ok?)
        && (r.Err? ==> r.error == scan.error)
        && (r.Ok? ==> && scan.value.0.origin == origin && scan.value.0.destination == destination
                      && graph == old(graph).SetEdge(origin, destination, scan.value.0)
                      && lookupEvents == scan.value.1 && tokens == [])
    {
      var tr0 := NewTransition().(origin := origin, destination := destination);
      var scan := ReadClauses(tokens, tr0, lookupEvents, asState);
      if scan.Err? {
        return Err(scan.error);
      }
      var (tr, events) := scan.value;
      lookupEvents := events;
      AddTransition(tr);
      tokens := [];
      return Ok(());
    }

    /** parse_state on one parsed `name : what ...` line. */
    method ParseState(line: StateLine) returns (r: Result<()>)
      modifies this`graph, this`lookupEvents, this`initialState, this`finalState, this`tokens
      ensures r.Ok? <==> ParseStateSpec(old(Snapshot()), line).Ok?
      ensures r.Ok? ==> Snapshot() == ParseStateSpec(old(Snapshot()), line).value
      ensures r.Ok? && old(Valid()) ==> Valid()
    {
      ghost var m := Snapshot();
      if MachineValid(m) {
        ParseStateValid(m, line);
      }
      var what := Drop(line.data, 6);
      var name := Upper(line.name);
      AddState(name);
      ghost var added := Snapshot();
      assert added == m.(graph := m.graph.AddNode(name, NewState(name)));
      if IsAnnotation(what) {
        assert ParseStateSpec(m, line) == AnnotateState(m, line);
        if line.clauses == [] || line.clauses[0].children == [] {
          return Err(IndexOutOfRange);
        }
        var text := Strip(Drop(line.clauses[0].children[0], 1));
        ghost var g := graph;
        graph := graph.SetNodeData(name, Annotate(graph.data[name], what, text));
        assert g == m.graph.AddNode(name, NewState(name));
        assert AnnotateState(m, line) == Ok(m.(graph := graph));
        assert Snapshot() == added.(graph := graph);
        return Ok(());
      } else if what == "on" || what == "event" {
        assert ParseStateSpec(m, line) == InternalTransition(m, line);
        var flat := FlattenClauses(line.clauses);
        if flat.Err? {
          return Err(flat.error);
        }
        tokens := [name, "->", name] + flat.value;
        ghost var pending := m.(graph := m.graph.AddNode(name, NewState(name)), tokens := OnTokens(line, flat.value));
        assert InternalTransition(m, line) == ParseTransitionSpec(pending, true);
        assert Snapshot() == pending;
        r := ParseTransition(true);
      } else {
        return Err(UnknownStateAnnotation);
      }
    }

    /** parse_extra_code on one `'slot code` comment line. */
    method ParseExtraCode(token: string, code: string) returns (r: Result<()>)
      modifies this
      ensures r.Ok? <==> ExtraCodeSpec(old(extraCode), token, code).Ok?
      ensures r.Ok? ==> Snapshot() == old(Snapshot()).(extraCode := ExtraCodeSpec(old(extraCode), token, code).value)
    {
      if token == "[header]" {
        extraCode := extraCode.(header := extraCode.header + code + "\n");
      } else if token == "[footer]" {
        extraCode := extraCode.(footer := extraCode.footer + code + "\n");
      } else if token == "[param]" {
        if extraCode.argvs != "" {
          extraCode := extraCode.(argvs := extraCode.argvs + ", ");
        }
        extraCode := extraCode.(argvs := extraCode.argvs + code);
      } else if token == "[init]" {
        extraCode := extraCode.(init := extraCode.init + "        " + code + "\n");
      } else if token == "[code]" {
        if !IsAccessSpecifier(code) {
          extraCode := extraCode.(functions := extraCode.functions + "    ");
        }
        extraCode := extraCode.(functions := extraCode.functions + code + "\n");
      } else if token == "[test]" {
        extraCode := extraCode.(unitTests := extraCode.unitTests + code + "\n");
      } else {
        return Err(UnknownCodeSlot);
      }
      return Ok(());
    }

    /** graph_cycles, given the elementary cycles networkx.simple_cycles lists
        (raws): each cycle that visits a successor of the initial state is
        rotated to start at the first such successor, in neighbour order, and
        closed. */
    method GraphCycles(raws: seq<seq<Name>>) returns (cycles: seq<seq<Name>>)
      requires initialState in graph.succ
      ensures cycles == Scenarios.Cycles(graph.succ[initialState], raws)
    {
      var ns := graph.succ[initialState];
      cycles := [];
      var k := 0;
      while k < |raws|
        invariant 0 <= k <= |raws|
        invariant cycles + Scenarios.Cycles(ns, raws[k..]) == Scenarios.Cycles(ns, raws)
      {
        var cycle := raws[k];
        var found := false;
        var j := 0;
        while j < |ns| && !found
          invariant 0 <= j <= |ns|
          invariant forall i | 0 <= i < j :: ns[i] !in cycle
          invariant found ==> j < |ns| && ns[j] in cycle
          decreases |ns| - j, if found then 0 else 1
        {
          if ns[j] in cycle {
            found := true;
          } else {
            j := j + 1;
          }
        }
        assert raws[k..][1..] == raws[k + 1..];
        ghost var rest := Scenarios.Cycles(ns, raws[k + 1..]);
        if found {
          assert Scenarios.FirstIn(ns, cycle) == Some(j);
          var index := IndexOf(cycle, ns[j]);
          var rotated := cycle[index..] + cycle[..index];
          assert Scenarios.Rotate(ns, cycle) == Some(rotated + [rotated[0]]);
          assert Scenarios.Cycles(ns, raws[k..]) == [rotated + [rotated[0]]] + rest;
          cycles := cycles + [rotated + [rotated[0]]];
        } else {
          assert Scenarios.FirstIn(ns, cycle) == None;
          assert Scenarios.Cycles(ns, raws[k..]) == rest;
        }
        k := k + 1;
      }
    }

    /** graph_all_paths_to_sinks: for each sink, then each source, in node
        order, the simple paths from the source to the sink. */
    method GraphAllPathsToSinks() returns (paths: seq<seq<Name>>)
      requires graph.Valid()
      ensures paths == Scenarios.AllPathsToSinks(graph)
    {
      var g := graph;
      var sinks := Scenarios.Sinks(g, g.nodes);
      var sources := Scenarios.Sources(g, g.nodes);
      paths := [];
      var i := 0;
      while i < |sinks|
        invariant 0 <= i <= |sinks|
        invariant paths == Scenarios.PathsBetween(g, sources, sinks[..i])
      {
        var into := PathsIntoSink(g, sources, sinks[i]);
        assert sinks[..i + 1][..i] == sinks[..i];
        paths := paths + into;
        i := i + 1;
      }
      assert sinks[..i] == sinks;
    }

    /** reset_mock_counters: every guard and action counter of an edge that
        has one, and every entering and leaving counter of a state that has
        such code, goes back to zero. */
    method ResetMockCounters()
      requires graph.Valid()
      modifies this`graph
      ensures graph == Scenarios.CountMocks(old(graph), [])
    {
      forall e ensures e in graph.edges <==> e in graph.EdgeList() {
        DiGraph.EdgeListMembership(graph, e.0, e.1);
      }
      var edges := ResetEdgeCounters(graph, graph.EdgeList());
      var data := ResetStateCounters(graph);
      graph := graph.(edges := edges, data := data);
    }

    /** count_mocked_guards(scenario): after resetting the counters, each step
        of the scenario counts one use of its edge's guard and action, and a
        step between two different states one exit from the first and one
        entry into the second, for the states that have such code. A step
        that is not an edge stops the count (a KeyError). */
    method CountMockedGuards(scenario: seq<Name>) returns (r: Result<()>)
      requires graph.Valid() && NamesMatch(graph)
      modifies this`graph
      ensures r.Ok? <==> old(graph).IsWalk(scenario)
      ensures r.Ok? ==> graph == Scenarios.CountMocks(old(graph), scenario)
    {
      ghost var g0 := graph;
      assert forall e | e in g0.edges :: e.0 in g0.data && e.1 in g0.data;
      ResetMockCounters();
      var edges, data, ok := CountSteps(g0, graph, scenario);
      if !ok {
        return Err(KeyNotFound);
      }
      graph := graph.(edges := edges, data := data);
      return Ok(());
    }

    /** verify_initial_state: fatal without an initial state. */
    method VerifyInitialState() returns (r: Result<()>)
      ensures r.Ok? <==> initialState != ""
      ensures r.Err? ==> r.error == MissingInitialState
    {
      if initialState == "" {
        return Err(MissingInitialState);
      }
      return Ok(());
    }

    /** verify_number_of_events: one warning when no key of the event table
        has a name. */
    method VerifyNumberOfEvents()
      modifies this`warnings
      ensures warnings == old(warnings) + (if lookupEvents.HasNamedEvent() then [] else [NoNamedEvent])
    {
      var keys := lookupEvents.keys;
      for i := 0 to |keys|
        invariant forall k | 0 <= k < i :: keys[k].name == ""
      {
        if keys[i].name != "" {
          return;
        }
      }
      warnings := warnings + [NoNamedEvent];
    }

    /** verify_transitions: the determinism warnings, appended. */
    method VerifyTransitions()
      requires graph.Valid()
      modifies this`warnings
      ensures warnings == old(warnings) + Checks.DeterminismWarnings(graph, graph.nodes)
    {
      var ws := DeterminismScan(graph);
      warnings := warnings + ws;
    }

    /** manage_noevents: every state with an edge out that has no event gets
        the guard chain of its edges appended to its internal code. */
    method ManageNoEvents()
      requires graph.Valid()
      modifies this`graph
      ensures graph == Checks.WithInternalTransitions(old(graph))
    {
      var g := graph;
      var states := EventlessStates(g);
      var data := AppendInternal(g, states);
      graph := g.(data := data);
    }

    /** verify_infinite_loops: at most one warning, for the first scenario
        cycle whose every step is eventless. */
    method VerifyInfiniteLoops(raws: seq<seq<Name>>)
      requires graph.Valid() && initialState in graph.succ
      requires forall i | 0 <= i < |raws| :: graph.IsElementaryCycle(raws[i])
      modifies this`warnings
      ensures warnings == old(warnings) + InfiniteLoopWarnings(graph, initialState, raws)
    {
      var cycles := GraphCycles(raws);
      var g := graph;
      forall i | 0 <= i < |cycles| ensures g.IsWalk(cycles[i]) {
        Scenarios.CyclesShape(g, initialState, raws, cycles[i]);
      }
      var c := FindEventlessCycle(g, cycles);
      if c.Some? {
        warnings := warnings + [InfiniteLoop(c.value)];
      }
    }

    /** finalize_machine: the checks and manage_noevents in the source's
        order, stopping at a missing initial state. */
    method FinalizeMachine(raws: seq<seq<Name>>) returns (r: Result<()>)
      requires Finalizable(Snapshot(), raws)
      modifies this`graph, this`warnings
      ensures r.Ok? <==> Finalize(old(Snapshot()), raws).Ok?
      ensures r.Ok? ==> graph == Finalize(old(Snapshot()), raws).value.graph
      ensures r.Ok? ==> warnings == Finalize(old(Snapshot()), raws).value.warnings
      ensures r.Err? ==> r.error == MissingInitialState && graph == old(graph) && warnings == old(warnings)
    {
      ghost var m := Snapshot();
      r := VerifyInitialState();
      if r.Err? {
        return;
      }
      FinalizeInSteps(m, raws);
      RunChecks(raws);
    }

    /** The checks of finalize_machine once the initial state is known, each
        appending its warnings in turn. */
    method RunChecks(raws: seq<seq<Name>>)
      requires Finalizable(Snapshot(), raws) && initialState != ""
      modifies this`graph, this`warnings
      ensures graph == Checks.WithInternalTransitions(old(graph))
      ensures warnings == old(warnings)
        + (if lookupEvents.HasNamedEvent() then [] else [NoNamedEvent])
        + Checks.DeterminismWarnings(old(graph), old(graph).nodes)
        + InfiniteLoopWarnings(graph, initialState, raws)
    {
      VerifyNumberOfEvents();
      VerifyTransitions();
      RewriteAndLoops(raws);
    }

    /** manage_noevents, then verify_infinite_loops on the graph it leaves. */
    method RewriteAndLoops(raws: seq<seq<Name>>)
      requires graph.Valid() && initialState in graph.succ
      requires forall i | 0 <= i < |raws| :: graph.IsElementaryCycle(raws[i])
      modifies this`graph, this`warnings
      ensures graph == Checks.WithInternalTransitions(old(graph))
      ensures graph.Valid() && initialState in graph.succ
      ensures forall i | 0 <= i < |raws| :: graph.IsElementaryCycle(raws[i])
      ensures warnings == old(warnings) + InfiniteLoopWarnings(graph, initialState, raws)
    {
      ghost var g := Checks.WithInternalTransitions(graph);
      Checks.WithInternalTransitionsShape(graph);
      forall i | 0 <= i < |raws| ensures g.IsElementaryCycle(raws[i]) {
        assert graph.IsElementaryCycle(raws[i]);
      }
      ManageNoEvents();
      VerifyInfiniteLoops(raws);
    }
  }
}
