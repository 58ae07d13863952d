/**
 * The checks and the rewriting the translator runs once the diagram is read
 * (translator/statecharts.py, finalize_machine): the internal transitions
 * manage_noevents writes for states left by an edge without event, and the
 * conditions under which verify_transitions and verify_infinite_loops warn.
 */
module Checks {
  import opened Outcomes
  import opened Chart
  import DiGraph

  // ---------------------------------------------------------------------------
  // manage_noevents
  // ---------------------------------------------------------------------------

  /** The edge s -> d carries no event. */
  predicate EventlessEdge(g: Graph, s: Name, d: Name)
    requires (s, d) in g.edges
  {
    g.edges[(s, d)].event.name == ""
  }

  /** s is left by some edge without event. */
  predicate HasEventlessEdge(g: Graph, s: Name)
    requires g.Valid() && s in g.succ
  {
    exists d | d in g.succ[s] :: EventlessEdge(g, s, d)
  }

  /** The states manage_noevents rewrites, in node order. */
  function NoEventStates(g: Graph, ns: seq<Name>): (r: seq<Name>)
    requires g.Valid() && forall n | n in ns :: n in g.succ
    ensures forall n :: n in r <==> n in ns && HasEventlessEdge(g, n)
  {
    if ns == [] then []
    else (if HasEventlessEdge(g, ns[0]) then [ns[0]] else []) + NoEventStates(g, ns[1..])
  }

  /** The code manage_noevents writes for the edge s -> d, count being the
      number of eventless edges of s already handled. A guarded edge opens an
      `if`; with strayGuards it does so even when the edge has an event. An
      eventless edge without guard gets a warning when others came before;
      an eventless edge gets a transition block that returns. */
  function EdgeBlock(tr: Transition, s: Name, d: Name, count: nat, strayGuards: bool): seq<Stmt>
  {
    var eventless := tr.event.name == "";
    var pre :=
      if tr.guard != "" then (if eventless || strayGuards then [IfGuard(s, d)] else [])
      else if eventless then
        (if count == 1 then [MissingGuardWarning(s, d)] else if count > 1 then [UndeterministWarning(s, d)] else [])
      else [];
    pre + (if eventless then [Fire(s, d, tr.action != "")] else [])
  }

  /** The count after the edge: eventless edges are counted. */
  function Counted(tr: Transition, count: nat): nat
  {
    if tr.event.name == "" then count + 1 else count
  }

  /** The internal-transition code for s over the successors ds. */
  function ChainFrom(g: Graph, s: Name, ds: seq<Name>, count: nat, strayGuards: bool): seq<Stmt>
    requires g.Valid() && s in g.succ && forall d | d in ds :: d in g.succ[s]
  {
    if ds == [] then []
    else
      var tr := g.edges[(s, ds[0])];
      EdgeBlock(tr, s, ds[0], count, strayGuards) + ChainFrom(g, s, ds[1..], Counted(tr, count), strayGuards)
  }

  /** manage_noevents as written: a guarded edge with an event opens an `if`
      that then governs the next transition block. */
  function ChainAsWritten(g: Graph, s: Name): seq<Stmt>
    requires g.Valid() && s in g.succ
  {
    ChainFrom(g, s, g.succ[s], 0, true)
  }

  /** manage_noevents with the `if` written for eventless edges only. */
  function Chain(g: Graph, s: Name): seq<Stmt>
    requires g.Valid() && s in g.succ
  {
    ChainFrom(g, s, g.succ[s], 0, false)
  }

  /** The graph manage_noevents (corrected) leaves: each state left by an
      eventless edge gets its body appended to its internal code. */
  function WithInternalTransitions(g: Graph): Graph
    requires g.Valid()
  {
    g.(data := map n | n in g.data :: if HasEventlessEdge(g, n) then g.data[n].(internal := g.data[n].internal + Chain(g, n)) else g.data[n])
  }

  /** manage_noevents changes only the internal code of states: the code grows
      exactly for the states left by an eventless edge, and never by nothing. */
  lemma WithInternalTransitionsSpec(g: Graph, n: Name)
    requires g.Valid() && n in g.data
    ensures var h := WithInternalTransitions(g);
      && h.nodes == g.nodes && h.succ == g.succ && h.edges == g.edges && h.data.Keys == g.data.Keys
      && h.data[n].(internal := g.data[n].internal) == g.data[n]
      && g.data[n].internal <= h.data[n].internal
      && (h.data[n].internal != g.data[n].internal <==> HasEventlessEdge(g, n))
  {
    var h := WithInternalTransitions(g);
    assert h.data.Keys == g.data.Keys;
    if HasEventlessEdge(g, n) {
      ChainTargets(g, n);
      assert |h.data[n].internal| > |g.data[n].internal|;
    }
  }

  /** manage_noevents leaves a well-formed graph with the same nodes and edges. */
  lemma WithInternalTransitionsShape(g: Graph)
    requires g.Valid()
    ensures var h := WithInternalTransitions(g);
      h.Valid() && h.nodes == g.nodes && h.succ == g.succ && h.edges == g.edges && h.data.Keys == g.data.Keys
  {
    var h := WithInternalTransitions(g);
    assert forall n :: n in h.data <==> n in g.data;
  }

  /** What running the internal-transition body does. */
  datatype Outcome = Stay | Goes(destination: Name) | Malformed

  /** The code after the next statement, skipping preprocessor warnings;
      None when no statement follows. */
  function SkipStatement(code: seq<Stmt>): (r: Option<seq<Stmt>>)
    ensures r.Some? ==> |r.value| < |code|
  {
    if code == [] then None
    else match code[0]
      case MissingGuardWarning(_, _) => SkipStatement(code[1..])
      case UndeterministWarning(_, _) => SkipStatement(code[1..])
      case Fire(_, _, _) => Some(code[1..])
      case IfGuard(_, _) => SkipStatement(code[1..])
  }

  /** C++ execution of the body when the guard of o -> d answers guard(o, d):
      an `if` governs the next statement, a transition block returns. */
  function Exec(code: seq<Stmt>, guard: (Name, Name) -> bool): Outcome
    decreases |code|
  {
    if code == [] then Stay
    else match code[0]
      case MissingGuardWarning(_, _) => Exec(code[1..], guard)
      case UndeterministWarning(_, _) => Exec(code[1..], guard)
      case Fire(_, d, _) => Goes(d)
      case IfGuard(o, d) =>
        match SkipStatement(code[1..])
        case None => Malformed
        case Some(rest) => if guard(o, d) then Exec(code[1..], guard) else Exec(rest, guard)
  }

  /** The intended choice: the first successor, in neighbour order, reached
      by an eventless edge whose guard is absent or holds. */
  function FirstEnabled(g: Graph, s: Name, ds: seq<Name>, guard: (Name, Name) -> bool): Outcome
    requires g.Valid() && s in g.succ && forall d | d in ds :: d in g.succ[s]
  {
    if ds == [] then Stay
    else
      var tr := g.edges[(s, ds[0])];
      if tr.event.name == "" && (tr.guard == "" || guard(s, ds[0])) then Goes(ds[0])
      else FirstEnabled(g, s, ds[1..], guard)
  }

  /** Running one corrected edge block, then the rest. */
  lemma ExecEdgeBlock(tr: Transition, s: Name, d: Name, count: nat, rest: seq<Stmt>, guard: (Name, Name) -> bool)
    ensures Exec(EdgeBlock(tr, s, d, count, false) + rest, guard)
            == if tr.event.name == "" && (tr.guard == "" || guard(s, d)) then Goes(d) else Exec(rest, guard)
  {
    var fire := Fire(s, d, tr.action != "");
    if tr.event.name != "" {
      assert EdgeBlock(tr, s, d, count, false) == [];
      assert [] + rest == rest;
    } else if tr.guard != "" {
      var code := [IfGuard(s, d), fire] + rest;
      assert EdgeBlock(tr, s, d, count, false) + rest == code;
      assert code[1..] == [fire] + rest;
      assert SkipStatement(code[1..]) == Some(rest);
    } else if count == 0 {
      assert EdgeBlock(tr, s, d, count, false) + rest == [fire] + rest;
    } else {
      var w := if count == 1 then MissingGuardWarning(s, d) else UndeterministWarning(s, d);
      var code := [w, fire] + rest;
      assert EdgeBlock(tr, s, d, count, false) + rest == code;
      assert code[1..] == [fire] + rest;
    }
  }

  /** The corrected body takes the first enabled eventless transition. */
  lemma {:induction false} ChainRuns(g: Graph, s: Name, ds: seq<Name>, count: nat, guard: (Name, Name) -> bool)
    requires g.Valid() && s in g.succ && forall d | d in ds :: d in g.succ[s]
    ensures Exec(ChainFrom(g, s, ds, count, false), guard) == FirstEnabled(g, s, ds, guard)
  {
    if ds != [] {
      var tr := g.edges[(s, ds[0])];
      ChainRuns(g, s, ds[1..], Counted(tr, count), guard);
      ExecEdgeBlock(tr, s, ds[0], count, ChainFrom(g, s, ds[1..], Counted(tr, count), false), guard);
    }
  }

  /** manage_noevents (corrected) makes a state leave by its first enabled
      eventless edge. */
  lemma ChainChoosesFirstEnabled(g: Graph, s: Name, guard: (Name, Name) -> bool)
    requires g.Valid() && s in g.succ
    ensures Exec(Chain(g, s), guard) == FirstEnabled(g, s, g.succ[s], guard)
  {
    ChainRuns(g, s, g.succ[s], 0, guard);
  }

  /** Every `if` governs the transition block of its own edge. */
  ghost predicate GuardsOwnTransition(code: seq<Stmt>) {
    forall i | 0 <= i < |code| && code[i].IfGuard? ::
      i + 1 < |code| && code[i + 1].Fire?
      && code[i + 1].origin == code[i].origin && code[i + 1].destination == code[i].destination
  }

  lemma GuardsOwnTransitionAppend(a: seq<Stmt>, b: seq<Stmt>)
    requires GuardsOwnTransition(a) && GuardsOwnTransition(b)
    ensures GuardsOwnTransition(a + b)
  {
    forall i | 0 <= i < |a + b| && (a + b)[i].IfGuard?
      ensures i + 1 < |a + b| && (a + b)[i + 1].Fire?
              && (a + b)[i + 1].origin == (a + b)[i].origin && (a + b)[i + 1].destination == (a + b)[i].destination
    {
      if i < |a| {
        assert a[i].IfGuard?;
        assert (a + b)[i + 1] == a[i + 1];
      } else {
        assert (a + b)[i] == b[i - |a|];
        assert (a + b)[i + 1] == b[i - |a| + 1];
      }
    }
  }

  lemma {:induction false} ChainFromGuardsOwnTransition(g: Graph, s: Name, ds: seq<Name>, count: nat)
    requires g.Valid() && s in g.succ && forall d | d in ds :: d in g.succ[s]
    ensures GuardsOwnTransition(ChainFrom(g, s, ds, count, false))
  {
    if ds != [] {
      var tr := g.edges[(s, ds[0])];
      ChainFromGuardsOwnTransition(g, s, ds[1..], Counted(tr, count));
      assert GuardsOwnTransition(EdgeBlock(tr, s, ds[0], count, false));
      GuardsOwnTransitionAppend(EdgeBlock(tr, s, ds[0], count, false), ChainFrom(g, s, ds[1..], Counted(tr, count), false));
    }
  }

  /** In the corrected body every `if` is followed by its own edge's block. */
  lemma ChainGuardsOwnTransition(g: Graph, s: Name)
    requires g.Valid() && s in g.succ
    ensures GuardsOwnTransition(Chain(g, s))
  {
    ChainFromGuardsOwnTransition(g, s, g.succ[s], 0);
  }

  /** Destinations of the transition blocks, in order. */
  function FireTargets(code: seq<Stmt>): seq<Name>
  {
    if code == [] then []
    else (if code[0].Fire? then [code[0].destination] else []) + FireTargets(code[1..])
  }

  lemma FireTargetsAppend(a: seq<Stmt>, b: seq<Stmt>)
    ensures FireTargets(a + b) == FireTargets(a) + FireTargets(b)
  {
    if a == [] {
      assert a + b == b;
    } else {
      assert (a + b)[0] == a[0];
      assert (a + b)[1..] == a[1..] + b;
      FireTargetsAppend(a[1..], b);
    }
  }

  /** Successors in ds reached by an eventless edge, in order. */
  function EventlessTargets(g: Graph, s: Name, ds: seq<Name>): (r: seq<Name>)
    requires g.Valid() && s in g.succ && forall d | d in ds :: d in g.succ[s]
    ensures forall d :: d in r <==> d in ds && EventlessEdge(g, s, d)
  {
    if ds == [] then []
    else (if EventlessEdge(g, s, ds[0]) then [ds[0]] else []) + EventlessTargets(g, s, ds[1..])
  }

  lemma EdgeBlockTargets(tr: Transition, s: Name, d: Name, count: nat, strayGuards: bool)
    ensures FireTargets(EdgeBlock(tr, s, d, count, strayGuards)) == if tr.event.name == "" then [d] else []
  {
    var fire := Fire(s, d, tr.action != "");
    var pre :=
      if tr.guard != "" then (if tr.event.name == "" || strayGuards then [IfGuard(s, d)] else [])
      else if tr.event.name == "" then
        (if count == 1 then [MissingGuardWarning(s, d)] else if count > 1 then [UndeterministWarning(s, d)] else [])
      else [];
    assert FireTargets(pre) == [] by {
      if pre != [] {
        assert pre[1..] == [];
      }
    }
    assert FireTargets([fire]) == [d] by {
      assert [fire][1..] == [];
    }
    if tr.event.name == "" {
      FireTargetsAppend(pre, [fire]);
    } else {
      assert EdgeBlock(tr, s, d, count, strayGuards) == pre;
    }
  }

  /** The body holds one transition block per eventless edge, in neighbour
      order, whether or not stray guards are written. */
  lemma {:induction false} ChainFromTargets(g: Graph, s: Name, ds: seq<Name>, count: nat, strayGuards: bool)
    requires g.Valid() && s in g.succ && forall d | d in ds :: d in g.succ[s]
    ensures FireTargets(ChainFrom(g, s, ds, count, strayGuards)) == EventlessTargets(g, s, ds)
  {
    if ds != [] {
      var tr := g.edges[(s, ds[0])];
      ChainFromTargets(g, s, ds[1..], Counted(tr, count), strayGuards);
      EdgeBlockTargets(tr, s, ds[0], count, strayGuards);
      FireTargetsAppend(EdgeBlock(tr, s, ds[0], count, strayGuards), ChainFrom(g, s, ds[1..], Counted(tr, count), strayGuards));
    }
  }

  /** A rewritten state gets a non-empty body, one block per eventless edge. */
  lemma ChainTargets(g: Graph, s: Name)
    requires g.Valid() && s in g.succ
    ensures FireTargets(Chain(g, s)) == EventlessTargets(g, s, g.succ[s])
    ensures HasEventlessEdge(g, s) ==> Chain(g, s) != []
  {
    ChainFromTargets(g, s, g.succ[s], 0, false);
  }

  /** Number of eventless edges from s to the nodes of ds. */
  function EventlessCount(g: Graph, s: Name, ds: seq<Name>): nat
    requires g.Valid() && s in g.succ && forall d | d in ds :: d in g.succ[s]
  {
    |EventlessTargets(g, s, ds)|
  }

  /** The guard-warning condition at position k of ds. */
  ghost predicate WarnedAt(g: Graph, s: Name, ds: seq<Name>, count: nat, k: int, d: Name, exactlyOne: bool)
    requires g.Valid() && s in g.succ && forall x | x in ds :: x in g.succ[s]
  {
    && 0 <= k < |ds| && ds[k] == d && EventlessEdge(g, s, d) && g.edges[(s, d)].guard == ""
    && (if exactlyOne then count + EventlessCount(g, s, ds[..k]) == 1 else count + EventlessCount(g, s, ds[..k]) >= 2)
  }

  /** The missing-guard warning (one) or the non-determinism warning for s -> d. */
  function WarningFor(s: Name, d: Name, one: bool): Stmt
  {
    if one then MissingGuardWarning(s, d) else UndeterministWarning(s, d)
  }

  lemma EdgeBlockWarning(tr: Transition, s: Name, x: Name, count: nat, strayGuards: bool, d: Name, one: bool)
    ensures WarningFor(s, d, one) in EdgeBlock(tr, s, x, count, strayGuards) <==>
            x == d && tr.event.name == "" && tr.guard == "" && (if one then count == 1 else count >= 2)
  {
  }

  /** Counting the eventless edges of a prefix one edge at a time. */
  lemma EventlessCountCons(g: Graph, s: Name, ds: seq<Name>, k: nat)
    requires g.Valid() && s in g.succ && forall x | x in ds :: x in g.succ[s]
    requires 1 <= k <= |ds|
    ensures EventlessCount(g, s, ds[..k])
            == (if EventlessEdge(g, s, ds[0]) then 1 else 0) + EventlessCount(g, s, ds[1..][..k - 1])
  {
    var p := ds[..k];
    assert p[0] == ds[0];
    assert p[1..] == ds[1..][..k - 1];
  }

  /** The warning condition past the first edge is the condition on the rest,
      with the first edge counted. */
  lemma WarnedAtCons(g: Graph, s: Name, ds: seq<Name>, count: nat, k: int, d: Name, one: bool)
    requires g.Valid() && s in g.succ && forall x | x in ds :: x in g.succ[s]
    requires ds != [] && k >= 1
    ensures WarnedAt(g, s, ds, count, k, d, one)
            <==> WarnedAt(g, s, ds[1..], Counted(g.edges[(s, ds[0])], count), k - 1, d, one)
  {
    if k <= |ds| {
      EventlessCountCons(g, s, ds, k);
    }
  }

  /** A warning in the body sits at a position where the condition holds. */
  lemma {:induction false} WarningWitness(g: Graph, s: Name, ds: seq<Name>, count: nat, strayGuards: bool, d: Name, one: bool)
    returns (k: int)
    requires g.Valid() && s in g.succ && forall x | x in ds :: x in g.succ[s]
    requires WarningFor(s, d, one) in ChainFrom(g, s, ds, count, strayGuards)
    ensures WarnedAt(g, s, ds, count, k, d, one)
  {
    var tr := g.edges[(s, ds[0])];
    var next := Counted(tr, count);
    var block := EdgeBlock(tr, s, ds[0], count, strayGuards);
    assert ChainFrom(g, s, ds, count, strayGuards) == block + ChainFrom(g, s, ds[1..], next, strayGuards);
    EdgeBlockWarning(tr, s, ds[0], count, strayGuards, d, one);
    if WarningFor(s, d, one) in block {
      assert ds[..0] == [];
      k := 0;
    } else {
      var j := WarningWitness(g, s, ds[1..], next, strayGuards, d, one);
      WarnedAtCons(g, s, ds, count, j + 1, d, one);
      k := j + 1;
    }
  }

  /** Where the condition holds, the body carries the warning. */
  lemma {:induction false} WarningPlaced(g: Graph, s: Name, ds: seq<Name>, count: nat, strayGuards: bool, d: Name, one: bool, k: int)
    requires g.Valid() && s in g.succ && forall x | x in ds :: x in g.succ[s]
    requires WarnedAt(g, s, ds, count, k, d, one)
    ensures WarningFor(s, d, one) in ChainFrom(g, s, ds, count, strayGuards)
  {
    var tr := g.edges[(s, ds[0])];
    var next := Counted(tr, count);
    var block := EdgeBlock(tr, s, ds[0], count, strayGuards);
    assert ChainFrom(g, s, ds, count, strayGuards) == block + ChainFrom(g, s, ds[1..], next, strayGuards);
    if k == 0 {
      assert ds[..0] == [];
      EdgeBlockWarning(tr, s, ds[0], count, strayGuards, d, one);
    } else {
      WarnedAtCons(g, s, ds, count, k, d, one);
      WarningPlaced(g, s, ds[1..], next, strayGuards, d, one, k - 1);
    }
  }

  lemma ChainFromWarning(g: Graph, s: Name, ds: seq<Name>, count: nat, strayGuards: bool, d: Name, one: bool)
    requires g.Valid() && s in g.succ && forall x | x in ds :: x in g.succ[s]
    ensures WarningFor(s, d, one) in ChainFrom(g, s, ds, count, strayGuards) <==>
      exists k :: WarnedAt(g, s, ds, count, k, d, one)
  {
    if WarningFor(s, d, one) in ChainFrom(g, s, ds, count, strayGuards) {
      var k := WarningWitness(g, s, ds, count, strayGuards, d, one);
    }
    if exists k :: WarnedAt(g, s, ds, count, k, d, one) {
      var k :| WarnedAt(g, s, ds, count, k, d, one);
      WarningPlaced(g, s, ds, count, strayGuards, d, one, k);
    }
  }

  /** The warnings of the body: an eventless edge without guard is flagged as
      missing its guard when exactly one eventless edge precedes it, and as
      non-deterministic when two or more do. */
  lemma ChainWarnings(g: Graph, s: Name, d: Name)
    requires g.Valid() && s in g.succ
    ensures MissingGuardWarning(s, d) in Chain(g, s) <==> exists k :: WarnedAt(g, s, g.succ[s], 0, k, d, true)
    ensures UndeterministWarning(s, d) in Chain(g, s) <==> exists k :: WarnedAt(g, s, g.succ[s], 0, k, d, false)
  {
    ChainFromWarning(g, s, g.succ[s], 0, false, d, true);
    ChainFromWarning(g, s, g.succ[s], 0, false, d, false);
  }

  /** States A, B, C with A -> B : e [g] and then A -> C. */
  function StrayGuardExample(): (g: Graph)
    ensures g.Valid()
  {
    var g := DiGraph.Graph(
      ["A", "B", "C"],
      map["A" := NewState("A"), "B" := NewState("B"), "C" := NewState("C")],
      map["A" := ["B", "C"], "B" := [], "C" := []],
      map[("A", "B") := Transition("A", "B", Event("e", []), "g", "", 0, 0),
          ("A", "C") := Transition("A", "C", NoEvent, "", "", 0, 0)]);
    assert forall a, b :: (a, b) in g.edges <==> a in g.succ && b in g.succ[a];
    g
  }

  /** A guarded edge that has an event (A -> B : e [g]) listed before an
      eventless edge (A -> C) leaves its `if` in front of the A -> C block, so
      the eventless transition runs only when g holds; corrected, it always runs. */
  lemma StrayGuardCounterexample()
    ensures var g := StrayGuardExample();
      && ChainAsWritten(g, "A") == [IfGuard("A", "B"), Fire("A", "C", false)]
      && Exec(ChainAsWritten(g, "A"), (o, d) => false) == Stay
      && Exec(Chain(g, "A"), (o, d) => false) == Goes("C")
  {
    var g := StrayGuardExample();
    var ab := g.edges[("A", "B")];
    var ac := g.edges[("A", "C")];
    assert g.succ["A"] == ["B", "C"] && ["B", "C"][1..] == ["C"] && ["C"][1..] == [];
    assert EdgeBlock(ab, "A", "B", 0, true) == [IfGuard("A", "B")];
    assert EdgeBlock(ab, "A", "B", 0, false) == [];
    assert EdgeBlock(ac, "A", "C", 0, true) == [Fire("A", "C", false)];
    assert EdgeBlock(ac, "A", "C", 0, false) == [Fire("A", "C", false)];
    assert ChainFrom(g, "A", ["C"], 0, true) == [Fire("A", "C", false)];
    assert ChainFrom(g, "A", ["C"], 0, false) == [Fire("A", "C", false)];
    var code := [IfGuard("A", "B"), Fire("A", "C", false)];
    assert code[1..] == [Fire("A", "C", false)];
    assert SkipStatement(code[1..]) == Some([]);
  }

  // ---------------------------------------------------------------------------
  // verify_transitions
  // ---------------------------------------------------------------------------

  /** The edges from s to ds without event and without guard. */
  function AlwaysTaken(g: Graph, s: Name, ds: seq<Name>): seq<Warning>
    requires g.Valid() && s in g.succ && forall d | d in ds :: d in g.succ[s]
  {
    if ds == [] then []
    else
      var tr := g.edges[(s, ds[0])];
      (if tr.event.name == "" && tr.guard == "" then [NonDeterministic(s, ds[0])] else [])
      + AlwaysTaken(g, s, ds[1..])
  }

  /** The always-taken scan reports exactly the edges from s to ds that have
      neither event nor guard. */
  lemma {:induction false} AlwaysTakenIff(g: Graph, s: Name, ds: seq<Name>, w: Warning)
    requires g.Valid() && s in g.succ && forall d | d in ds :: d in g.succ[s]
    ensures w in AlwaysTaken(g, s, ds) <==>
      w.NonDeterministic? && w.state == s && w.destination in ds
      && EventlessEdge(g, s, w.destination) && g.edges[(s, w.destination)].guard == ""
  {
    if ds != [] {
      AlwaysTakenIff(g, s, ds[1..], w);
      assert w.NonDeterministic? ==> (w.destination in ds <==> w.destination == ds[0] || w.destination in ds[1..]);
    }
  }

  /** verify_transitions: per state with several successors, in node order,
      a warning per edge that has neither event nor guard. */
  function DeterminismWarnings(g: Graph, ns: seq<Name>): seq<Warning>
    requires g.Valid() && forall n | n in ns :: n in g.succ
  {
    if ns == [] then []
    else (if |g.succ[ns[0]]| > 1 then AlwaysTaken(g, ns[0], g.succ[ns[0]]) else [])
         + DeterminismWarnings(g, ns[1..])
  }

  /** A state is reported with a destination exactly when it has several
      successors and the edge to that destination has neither event nor guard. */
  lemma {:induction false} DeterminismWarningsIff(g: Graph, ns: seq<Name>, s: Name, d: Name)
    requires g.Valid() && forall n | n in ns :: n in g.succ
    ensures NonDeterministic(s, d) in DeterminismWarnings(g, ns) <==>
      s in ns && |g.succ[s]| > 1 && d in g.succ[s] && EventlessEdge(g, s, d) && g.edges[(s, d)].guard == ""
  {
    if ns != [] {
      DeterminismWarningsIff(g, ns[1..], s, d);
      AlwaysTakenIff(g, ns[0], g.succ[ns[0]], NonDeterministic(s, d));
      assert s in ns <==> s == ns[0] || s in ns[1..];
    }
  }

  /** verify_transitions only ever reports non-determinism. */
  lemma {:induction false} DeterminismWarningsKinds(g: Graph, ns: seq<Name>)
    requires g.Valid() && forall n | n in ns :: n in g.succ
    ensures forall w | w in DeterminismWarnings(g, ns) :: w.NonDeterministic?
  {
    if ns != [] {
      DeterminismWarningsKinds(g, ns[1..]);
      forall w | w in AlwaysTaken(g, ns[0], g.succ[ns[0]]) ensures w.NonDeterministic? {
        AlwaysTakenIff(g, ns[0], g.succ[ns[0]], w);
      }
    }
  }

  // ---------------------------------------------------------------------------
  // verify_infinite_loops
  // ---------------------------------------------------------------------------

  /** Every step of the walk c follows an edge without event. */
  predicate AllEventless(g: Graph, c: seq<Name>)
    requires g.IsWalk(c)
  {
    forall i | 0 <= i < |c| - 1 :: g.edges[(c[i], c[i + 1])].event.name == ""
  }

  /** verify_infinite_loops: the first cycle, if any, that no event is needed
      to go round (one-node lists are skipped). */
  function FirstEventlessCycle(g: Graph, cycles: seq<seq<Name>>): (r: Option<seq<Name>>)
    requires forall i | 0 <= i < |cycles| :: g.IsWalk(cycles[i])
    ensures r.Some? ==> exists i | 0 <= i < |cycles| :: cycles[i] == r.value && |r.value| != 1 && AllEventless(g, r.value)
    ensures r.Some? ==> forall i | 0 <= i < |cycles| && cycles[i] != r.value && |cycles[i]| != 1 && AllEventless(g, cycles[i])
                          :: exists j | 0 <= j < i :: cycles[j] == r.value
    ensures r.None? <==> forall i | 0 <= i < |cycles| && |cycles[i]| != 1 :: !AllEventless(g, cycles[i])
  {
    if cycles == [] then None
    else if |cycles[0]| != 1 && AllEventless(g, cycles[0]) then Some(cycles[0])
    else
      var r := FirstEventlessCycle(g, cycles[1..]);
      assert forall i | 1 <= i < |cycles| :: cycles[i] == cycles[1..][i - 1];
      r
  }
}
