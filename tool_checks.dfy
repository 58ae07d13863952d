/**
 * The checks and rewrites the earlier translator (tool/Parser.py) runs once
 * a diagram is read: verify_transition's determinism warnings, the code
 * manage_noevents appends to the states left by a transition without event,
 * and the cycles generate_unit_tests replays from the initial state.
 */
module ToolChecks {
  import opened Outcomes
  import DiGraph
  import Chart
  import Scenarios
  import opened ToolParsing

  // ---------------------------------------------------------------------------
  // verify_transition
  // ---------------------------------------------------------------------------

  /** An edge with neither an event nor a guard: it is always a candidate. */
  predicate AlwaysTakenEdge(g: Graph, s: Name, d: Name)
    requires (s, d) in g.edges
  {
    g.edges[(s, d)].event.name == "" && g.edges[(s, d)].guard == ""
  }

  /** The warnings for the edges from s to ds, in order. */
  function AlwaysTaken(g: Graph, s: Name, ds: seq<Name>): seq<Chart.Warning>
    requires forall d | d in ds :: (s, d) in g.edges
  {
    if ds == [] then []
    else (if AlwaysTakenEdge(g, s, ds[0]) then [Chart.NonDeterministic(s, ds[0])] else [])
         + AlwaysTaken(g, s, ds[1..])
  }

  /** verify_transition over the states ns, in order: a state with at most one
      successor is skipped. */
  function TransitionWarnings(g: Graph, ns: seq<Name>): seq<Chart.Warning>
    requires g.Valid() && forall n | n in ns :: n in g.succ
  {
    if ns == [] then []
    else (if |g.succ[ns[0]]| > 1 then AlwaysTaken(g, ns[0], g.succ[ns[0]]) else [])
         + TransitionWarnings(g, ns[1..])
  }

  /** The scan of one state reports exactly its always-taken edges to ds. */
  lemma {:induction false} AlwaysTakenIff(g: Graph, s: Name, ds: seq<Name>, w: Chart.Warning)
    requires forall d | d in ds :: (s, d) in g.edges
    ensures w in AlwaysTaken(g, s, ds) <==>
      w.NonDeterministic? && w.state == s && w.destination in ds && AlwaysTakenEdge(g, s, w.destination)
  {
    if ds != [] {
      AlwaysTakenIff(g, s, ds[1..], w);
      assert w.NonDeterministic? ==> (w.destination in ds <==> w.destination == ds[0] || w.destination in ds[1..]);
    }
  }

  /** A state is reported with a destination exactly when it has several
      successors and the edge to that destination has neither event nor
      guard; nothing else is ever reported. */
  lemma {:induction false} TransitionWarningsIff(g: Graph, ns: seq<Name>, w: Chart.Warning)
    requires g.Valid() && forall n | n in ns :: n in g.succ
    ensures w in TransitionWarnings(g, ns) <==>
      && w.NonDeterministic? && w.state in ns && |g.succ[w.state]| > 1
      && w.destination in g.succ[w.state] && AlwaysTakenEdge(g, w.state, w.destination)
  {
    if ns != [] {
      TransitionWarningsIff(g, ns[1..], w);
      AlwaysTakenIff(g, ns[0], g.succ[ns[0]], w);
      assert w.NonDeterministic? ==> (w.state in ns <==> w.state == ns[0] || w.state in ns[1..]);
    }
  }

  // ---------------------------------------------------------------------------
  // manage_noevents
  // ---------------------------------------------------------------------------

  /** An edge that selects its origin: it has no event and, out of the pseudo
      state `[*]`, it has a guard. */
  predicate SelectsOrigin(g: Graph, s: Name, d: Name)
    requires (s, d) in g.edges
  {
    g.edges[(s, d)].event.name == "" && (s != InitialMarker || g.edges[(s, d)].guard != "")
  }

  /** The states manage_noevents writes code into. */
  ghost predicate Selected(g: Graph, s: Name)
    requires g.Valid()
  {
    s in g.succ && exists d | d in g.succ[s] :: SelectsOrigin(g, s, d)
  }

  /** The code for the edge from s to d when count edges came before it: a
      guarded edge fires under its guard, any other fires outright, and the
      `#warning "Undeterminist State machine"` precedes an unguarded edge
      that comes second. */
  function EdgeCode(tr: Transition, s: Name, d: Name, count: nat): seq<Code>
  {
    if tr.guard != "" then [GuardedFire(s, d, tr.action != "")]
    else (if count == 1 then [UndeterministWarning] else []) + [Fire(s, d, tr.action != "")]
  }

  /** The code for the edges from s to ds, in order, count edges having come
      before them. */
  function FireChain(g: Graph, s: Name, ds: seq<Name>, count: nat): seq<Code>
    requires forall d | d in ds :: (s, d) in g.edges
  {
    if ds == [] then []
    else EdgeCode(g.edges[(s, ds[0])], s, ds[0], count) + FireChain(g, s, ds[1..], count + 1)
  }

  /** The code appended to a selected state: `onEnteringInitialState()` for
      `[*]`, otherwise the log line and the edges in neighbour order. */
  function NoEventCode(g: Graph, s: Name): seq<Code>
    requires g.Valid() && s in g.succ
  {
    if s == InitialMarker then [EnteringInitialState]
    else [InternalEventLog(s)] + FireChain(g, s, g.succ[s], 0)
  }

  /** The graph manage_noevents leaves. */
  ghost function WithNoEventCode(g: Graph): Graph
    requires g.Valid()
  {
    g.(data := map n | n in g.data :: if Selected(g, n) then g.data[n].(entering := g.data[n].entering + NoEventCode(g, n)) else g.data[n])
  }

  /** The destinations the code fires to, in order. */
  function FireTargets(code: seq<Code>): seq<Name>
  {
    if code == [] then []
    else (match code[0]
          case GuardedFire(_, d, _) => [d]
          case Fire(_, d, _) => [d]
          case _ => [])
         + FireTargets(code[1..])
  }

  lemma {:induction false} FireTargetsAppend(a: seq<Code>, b: seq<Code>)
    ensures FireTargets(a + b) == FireTargets(a) + FireTargets(b)
  {
    if a != [] {
      assert (a + b)[1..] == a[1..] + b;
      FireTargetsAppend(a[1..], b);
      Text.AppendAssoc(FireTargets([a[0]]), FireTargets(a[1..]), FireTargets(b));
    } else {
      assert a + b == b;
    }
  }

  /** The code for one edge fires to its destination, once. */
  lemma EdgeCodeTargets(tr: Transition, s: Name, d: Name, count: nat)
    ensures FireTargets(EdgeCode(tr, s, d, count)) == [d]
  {
    if tr.guard == "" {
      var warning: seq<Code> := if count == 1 then [UndeterministWarning] else [];
      FireTargetsAppend(warning, [Fire(s, d, tr.action != "")]);
      assert FireTargets(warning) == [];
    }
  }

  /** Every edge fires once, in neighbour order, whatever its guard. */
  lemma {:induction false} FireChainTargets(g: Graph, s: Name, ds: seq<Name>, count: nat)
    requires forall d | d in ds :: (s, d) in g.edges
    ensures FireTargets(FireChain(g, s, ds, count)) == ds
  {
    if ds != [] {
      var tr := g.edges[(s, ds[0])];
      FireChainTargets(g, s, ds[1..], count + 1);
      FireTargetsAppend(EdgeCode(tr, s, ds[0], count), FireChain(g, s, ds[1..], count + 1));
      EdgeCodeTargets(tr, s, ds[0], count);
      assert ds == [ds[0]] + ds[1..];
    }
  }

  /** The warning is written at most once, and exactly when the second edge
      (counting from the first edge of the state) has no guard. */
  lemma {:induction false} FireChainWarning(g: Graph, s: Name, ds: seq<Name>, count: nat)
    requires forall d | d in ds :: (s, d) in g.edges
    ensures UndeterministWarning in FireChain(g, s, ds, count) <==>
      count <= 1 && 1 - count < |ds| && g.edges[(s, ds[1 - count])].guard == ""
  {
    if ds != [] {
      FireChainWarning(g, s, ds[1..], count + 1);
      var tr := g.edges[(s, ds[0])];
      assert UndeterministWarning in EdgeCode(tr, s, ds[0], count) <==> count == 1 && tr.guard == "";
      if count == 0 && 1 < |ds| {
        assert ds[1..][0] == ds[1];
      }
    }
  }

  /** manage_noevents changes only the entering code of states: the code of a
      selected state grows by its no-event code, which is never empty, and
      every other state is kept. */
  lemma WithNoEventCodeSpec(g: Graph, n: Name)
    requires g.Valid() && n in g.data
    ensures var h := WithNoEventCode(g);
      && h.nodes == g.nodes && h.succ == g.succ && h.edges == g.edges && h.data.Keys == g.data.Keys
      && h.data[n].(entering := g.data[n].entering) == g.data[n]
      && h.data[n].entering == g.data[n].entering + (if Selected(g, n) then NoEventCode(g, n) else [])
      && (h.data[n].entering != g.data[n].entering <==> Selected(g, n))
  {
    var h := WithNoEventCode(g);
    assert h.data.Keys == g.data.Keys;
    if Selected(g, n) {
      assert |NoEventCode(g, n)| > 0;
      assert |h.data[n].entering| > |g.data[n].entering|;
    } else {
      assert g.data[n].entering + [] == g.data[n].entering;
    }
  }

  /** manage_noevents leaves a well-formed graph. */
  lemma WithNoEventCodeValid(g: Graph)
    requires g.Valid()
    ensures WithNoEventCode(g).Valid()
  {
    var h := WithNoEventCode(g);
    assert forall n :: n in h.data <==> n in g.data;
  }

  // ---------------------------------------------------------------------------
  // generate_unit_tests: the cycles
  // ---------------------------------------------------------------------------

  /** The cycles generate_unit_tests replays: each elementary cycle through
      the initial state, rotated to start there and closed. */
  function InitialCycles(initial: Name, raws: seq<seq<Name>>): seq<seq<Name>>
  {
    Scenarios.Cycles([initial], raws)
  }

  /** A cycle is kept exactly when it visits the initial state; each kept one
      is a closed walk of the graph, one node longer than the raw cycle, that
      starts and ends at the initial state and visits no other node twice. */
  lemma InitialCyclesShape(g: Graph, initial: Name, raws: seq<seq<Name>>, c: seq<Name>)
    requires forall i | 0 <= i < |raws| :: g.IsElementaryCycle(raws[i])
    requires c in InitialCycles(initial, raws)
    ensures |c| >= 2 && c[0] == initial && c[|c| - 1] == initial
    ensures g.IsWalk(c) && DiGraph.Distinct(c[..|c| - 1])
  {
    var i := Scenarios.CyclesFrom([initial], raws, c);
    assert g.IsElementaryCycle(raws[i]);
    Scenarios.RotateStart([initial], raws[i]);
    Scenarios.RotateWalk(g, [initial], raws[i]);
  }

  /** A raw cycle is dropped exactly when it misses the initial state. */
  lemma InitialCyclesKept(initial: Name, cycle: seq<Name>)
    ensures Scenarios.Rotate([initial], cycle).Some? <==> initial in cycle
    ensures InitialCycles(initial, [cycle]) == if initial in cycle then [Scenarios.Rotate([initial], cycle).value] else []
  {
    Scenarios.RotateSpec([initial], cycle);
    assert [cycle][1..] == [];
    assert Scenarios.Cycles([initial], []) == [];
  }
}
