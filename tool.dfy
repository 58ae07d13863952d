/**
 * The Parser class of the earlier translator (tool/Parser.py): the fields
 * that reading and checking a diagram update, and the methods that walk an
 * index through the tokens of a line. Each method is proved to do what the
 * functions of ToolParsing and ToolChecks say, with parse_state's cached
 * count brought up to date after the `on` rewrite.
 */
module Tool {
  import opened Outcomes
  import opened Text
  import DiGraph
  import Chart
  import Scenarios
  import opened ToolParsing
  import opened ToolChecks

  /** `while i < bound and tokens[i] not in stops: i += 1` */
  method Scan(tokens: seq<string>, bound: nat, from: nat, stops: set<string>) returns (i: nat)
    requires from <= bound <= |tokens|
    ensures i == ScanTo(tokens, bound, from, stops)
  {
    i := from;
    while i < bound && tokens[i] !in stops
      invariant from <= i <= bound
      invariant ScanTo(tokens, bound, i, stops) == ScanTo(tokens, bound, from, stops)
      decreases bound - i
    {
      i := i + 1;
    }
  }

  /** concat_tokens: every token followed by a space, the last space cut. */
  method ConcatTokens(toks: seq<string>) returns (code: string)
    ensures code == Join(toks, " ")
  {
    code := "";
    for i := 0 to |toks|
      invariant code == if i == 0 then "" else Join(toks[..i], " ") + " "
    {
      if i == 0 {
        assert toks[..1] == [toks[0]];
      } else {
        assert toks[..i + 1] == toks[..i] + [toks[i]];
        JoinSnoc(toks[..i], " ", toks[i]);
        AppendAssoc(Join(toks[..i], " "), " ", toks[i]);
      }
      code := code + toks[i];
      code := code + " ";
    }
    if |toks| > 0 {
      assert toks[..|toks|] == toks;
      code := code[..|code| - 1];
    }
  }

  /** The part of parse_transition after `:`: the event up to the first `[`
      or `/`, the optional guard, the optional action, and on a state's `on`
      self-loop the action moved to the state's event name. */
  method ReadClauses(m: Machine, origin: Name, destination: Name, asState: bool)
      returns (r: Result<(Transition, Chart.EventTable, Option<string>)>)
    requires m.nbTokens <= |m.tokens|
    ensures r == ClauseEdge(m, origin, destination, asState)
  {
    var tokens, nb := m.tokens, m.nbTokens;
    if !(nb > 3 && tokens[3] == ":") {
      return Ok((Transition(origin, destination, Chart.NoEvent, "", ""), m.events, None));
    }
    var i := Scan(tokens, nb, 4, {"[", "/"});
    var parsed := EventOf(tokens[4..i]);
    if parsed.Err? {
      return Err(parsed.error);
    }
    var ev := parsed.value;
    var events := m.events.Record(ev, origin, destination);
    var guarded := ReadGuard(tokens, nb, i);
    if guarded.Err? {
      return Err(guarded.error);
    }
    var (guard, j) := guarded.value;
    var action := ReadAction(tokens, nb, j);
    if asState && origin == destination {
      if action == "" {
        action := DummyAction;
      }
      return Ok((Transition(origin, destination, ev, guard, ""), events, Some(action)));
    }
    return Ok((Transition(origin, destination, ev, guard, action), events, None));
  }

  /** The optional `[ guard ]` of parse_transition at index i. */
  method ReadGuard(tokens: seq<string>, nb: nat, i: nat) returns (r: Result<(string, nat)>)
    requires i <= nb <= |tokens|
    ensures r == GuardAt(tokens, nb, i)
  {
    if i < nb && tokens[i] == "[" {
      var j := i + 1;
      var k := Scan(tokens, nb, j, {"]"});
      if k == |tokens| {
        return Err(IndexOutOfRange);
      }
      if tokens[k] != "]" {
        return Err(UnterminatedGuard);
      }
      return Ok((Join(tokens[j..k], " "), k + 1));
    }
    return Ok(("", i));
  }

  /** The optional `/ action` of parse_transition at index i. */
  method ReadAction(tokens: seq<string>, nb: nat, i: nat) returns (action: string)
    requires nb <= |tokens|
    ensures action == ActionAt(tokens, nb, i)
  {
    action := "";
    if i < nb && tokens[i] == "/" {
      var j := i + 1;
      var k := Scan(tokens, nb, j, {"]"});
      action := Join(tokens[j..k], " ");
    }
  }

  /** The always-taken scan of verify_transition for one state. */
  method AlwaysTakenScan(g: Graph, s: Name) returns (found: seq<Chart.Warning>)
    requires g.Valid() && s in g.succ
    ensures found == AlwaysTaken(g, s, g.succ[s])
  {
    var out := g.succ[s];
    found := [];
    for j := 0 to |out|
      invariant found + AlwaysTaken(g, s, out[j..]) == AlwaysTaken(g, s, out)
    {
      var d := out[j];
      var data := g.edges[(s, d)];
      var here: seq<Chart.Warning> := [];
      if data.event.name == "" && data.guard == "" {
        here := [Chart.NonDeterministic(s, d)];
      }
      assert out[j..][1..] == out[j + 1..];
      assert AlwaysTaken(g, s, out[j..]) == here + AlwaysTaken(g, s, out[j + 1..]);
      AppendAssoc(found, here, AlwaysTaken(g, s, out[j + 1..]));
      found := found + here;
    }
    assert out[|out|..] == [];
  }

  /** The state loop of verify_transition. */
  method TransitionScan(g: Graph) returns (ws: seq<Chart.Warning>)
    requires g.Valid()
    ensures ws == TransitionWarnings(g, g.nodes)
  {
    var ns := g.nodes;
    ws := [];
    for i := 0 to |ns|
      invariant ws + TransitionWarnings(g, ns[i..]) == TransitionWarnings(g, ns)
    {
      var state := ns[i];
      var found: seq<Chart.Warning> := [];
      if |g.succ[state]| > 1 {
        found := AlwaysTakenScan(g, state);
      }
      TransitionStep(g, i, ws, found);
      ws := ws + found;
    }
    assert ns[|ns|..] == [];
    assert ws + [] == ws;
  }

  lemma TransitionStep(g: Graph, i: nat, ws: seq<Chart.Warning>, found: seq<Chart.Warning>)
    requires g.Valid() && i < |g.nodes|
    requires found == if |g.succ[g.nodes[i]]| > 1 then AlwaysTaken(g, g.nodes[i], g.succ[g.nodes[i]]) else []
    requires ws + TransitionWarnings(g, g.nodes[i..]) == TransitionWarnings(g, g.nodes)
    ensures (ws + found) + TransitionWarnings(g, g.nodes[i + 1..]) == TransitionWarnings(g, g.nodes)
  {
    var ns := g.nodes;
    assert ns[i..][1..] == ns[i + 1..];
    var rest := TransitionWarnings(g, ns[i + 1..]);
    assert TransitionWarnings(g, ns[i..]) == found + rest;
    AppendAssoc(ws, found, rest);
  }

  /** The first loop of manage_noevents: the states to write code into, as
      the set the source makes of its list. */
  method SelectStates(g: Graph) returns (states: set<Name>)
    requires g.Valid()
    ensures forall n :: n in states <==> Selected(g, n)
  {
    states := {};
    for i := 0 to |g.nodes|
      invariant forall n :: n in states <==> n in g.nodes[..i] && Selected(g, n)
    {
      var s := g.nodes[i];
      var out := g.succ[s];
      assert s !in g.nodes[..i];
      for j := 0 to |out|
        invariant forall n :: n in states <==>
          (n in g.nodes[..i] && Selected(g, n))
          || (n == s && exists k | 0 <= k < j :: SelectsOrigin(g, s, out[k]))
      {
        var tr := g.edges[(s, out[j])];
        if s == InitialMarker && tr.event.name == "" && tr.guard != "" {
          states := states + {s};
        } else if s != InitialMarker && tr.event.name == "" {
          states := states + {s};
        }
      }
      assert g.nodes[..i + 1] == g.nodes[..i] + [s];
    }
    assert g.nodes[..|g.nodes|] == g.nodes;
  }

  /** The second loop of manage_noevents for one state s. */
  method NoEventCodeOf(g: Graph, s: Name) returns (code: seq<Code>)
    requires g.Valid() && s in g.succ
    ensures code == NoEventCode(g, s)
  {
    if s == InitialMarker {
      code := [EnteringInitialState];
      return;
    }
    var out := g.succ[s];
    var count := 0;
    code := [InternalEventLog(s)];
    for j := 0 to |out|
      invariant count == j
      invariant code + FireChain(g, s, out[j..], count) == NoEventCode(g, s)
    {
      var d := out[j];
      var tr := g.edges[(s, d)];
      var block: seq<Code>;
      if tr.guard != "" {
        block := [GuardedFire(s, d, tr.action != "")];
      } else {
        block := [];
        if count == 1 {
          block := [UndeterministWarning];
        }
        block := block + [Fire(s, d, tr.action != "")];
      }
      assert out[j..][1..] == out[j + 1..];
      ghost var rest := FireChain(g, s, out[j + 1..], count + 1);
      assert FireChain(g, s, out[j..], count) == block + rest;
      AppendAssoc(code, block, rest);
      code := code + block;
      count := count + 1;
    }
    assert out[|out|..] == [];
  }

  /** The node payloads with the no-event code appended for the states in done. */
  ghost function AppendedFor(g: Graph, done: set<Name>): map<Name, State>
    requires g.Valid()
  {
    map n | n in g.data :: if n in done then g.data[n].(entering := g.data[n].entering + NoEventCode(g, n)) else g.data[n]
  }

  lemma AppendedStep(g: Graph, done: set<Name>, x: Name)
    requires g.Valid() && x in g.succ && x !in done
    ensures x in g.data && AppendedFor(g, done)[x] == g.data[x]
    ensures AppendedFor(g, done + {x})
            == AppendedFor(g, done)[x := g.data[x].(entering := g.data[x].entering + NoEventCode(g, x))]
  {
    var a := AppendedFor(g, done + {x});
    var b := AppendedFor(g, done)[x := g.data[x].(entering := g.data[x].entering + NoEventCode(g, x))];
    assert a.Keys == b.Keys;
    forall n | n in a ensures a[n] == b[n] {
    }
  }

  lemma AppendedAll(g: Graph, done: set<Name>)
    requires g.Valid() && forall n | n in g.data :: n in done <==> Selected(g, n)
    ensures g.(data := AppendedFor(g, done)) == WithNoEventCode(g)
  {
    var a := AppendedFor(g, done);
    var b := WithNoEventCode(g).data;
    assert a.Keys == b.Keys;
    forall n | n in a ensures a[n] == b[n] {
    }
  }

  /** The parser's fields that reading and checking a diagram use; the file,
      the class and enum names and the line counter only serve the output
      and the error messages. */
  class Parser {
    var graph: Graph
    var events: Chart.EventTable
    var initialState: Name
    var tokens: seq<string>
    var nbTokens: nat
    var warnings: seq<Chart.Warning>

    /** The fields as one value. */
    function Snapshot(): Machine
      reads this
    {
      Machine(graph, events, initialState, tokens, nbTokens, warnings)
    }

    ghost predicate Valid()
      reads this
    {
      MachineValid(Snapshot())
    }

    /** An empty graph, no event, no initial state, no tokens. */
    constructor ()
      ensures Snapshot() == Machine(DiGraph.Empty(), Chart.NoEvents, "", [], 0, [])
      ensures Valid()
    {
      graph := DiGraph.Empty();
      events := Chart.NoEvents;
      initialState := "";
      tokens := [];
      nbTokens := 0;
      warnings := [];
    }

    /** reset: back to the empty diagram; the warnings already given stay
        given. */
    method Reset()
      modifies this`graph, this`events, this`initialState, this`tokens, this`nbTokens
      ensures Snapshot() == Machine(DiGraph.Empty(), Chart.NoEvents, "", [], 0, old(warnings))
      ensures Valid()
    {
      tokens := [];
      nbTokens := 0;
      events := Chart.NoEvents;
      graph := DiGraph.Empty();
      initialState := "";
    }

    /** add_state: a node named name with a fresh State, unless there is one. */
    method AddState(name: Name)
      modifies this`graph
      ensures graph == old(graph).AddNode(name, NewState(name))
    {
      if !graph.HasNode(name) {
        graph := graph.AddNode(name, NewState(name));
      }
    }

    /** parse_transition on the tokens of the line. */
    method ParseTransition(asState: bool) returns (r: Result<()>)
      requires nbTokens <= |tokens|
      modifies this`graph, this`events, this`initialState
      ensures r.Ok? <==> ParseTransitionSpec(old(Snapshot()), asState).Ok?
      ensures r.Err? ==> r.error == ParseTransitionSpec(old(Snapshot()), asState).error
      ensures r.Ok? ==> Snapshot() == ParseTransitionSpec(old(Snapshot()), asState).value
    {
      var m := Snapshot();
      if |tokens| < 3 {
        return Err(IndexOutOfRange);
      }
      var origin, destination;
      if tokens[1] == "->" || tokens[1] == "-->" {
        origin, destination := Upper(tokens[0]), Upper(tokens[2]);
      } else {
        origin, destination := Upper(tokens[2]), Upper(tokens[0]);
      }
      AddState(origin);
      AddState(destination);
      if origin == InitialMarker {
        initialState := destination;
      }
      var clauses := ReadClauses(m, origin, destination, asState);
      if clauses.Err? {
        return Err(clauses.error);
      }
      var (tr, evs, onName) := clauses.value;
      events := evs;
      if onName.Some? {
        var st := graph.data[origin];
        graph := graph.SetNodeData(origin, st.(event := st.event.(name := onName.value)));
      }
      graph := graph.SetEdge(origin, destination, tr);
      r := Ok(());
    }

    /** parse_state, with the cached count of the rewritten `on` line brought
        up to date. */
    method ParseState() returns (r: Result<()>)
      requires nbTokens <= |tokens|
      modifies this`graph, this`events, this`initialState, this`tokens, this`nbTokens
      ensures r.Ok? <==> ParseStateSpec(old(Snapshot())).Ok?
      ensures r.Err? ==> r.error == ParseStateSpec(old(Snapshot())).error
      ensures r.Ok? ==> Snapshot() == ParseStateSpec(old(Snapshot())).value
    {
      ghost var m := Snapshot();
      if |tokens| < 3 {
        return Err(IndexOutOfRange);
      }
      var name := Upper(tokens[0]);
      var what := Lower(tokens[2]);
      AddState(name);
      if what == "on" {
        r := ParseOnLine(m, name);
      } else {
        r := ParseAnnotation(m, name, what);
      }
    }

    /** parse_state on a line other than `on`, once the state exists. */
    method ParseAnnotation(ghost m: Machine, name: Name, what: string) returns (r: Result<()>)
      requires m.nbTokens <= |m.tokens| && |m.tokens| >= 3
      requires name == Upper(m.tokens[0]) && what == Lower(m.tokens[2]) && what != "on"
      requires Snapshot() == m.(graph := m.graph.AddNode(name, NewState(name)))
      modifies this`graph
      ensures r.Ok? <==> ParseStateSpec(m).Ok?
      ensures r.Err? ==> r.error == ParseStateSpec(m).error
      ensures r.Ok? ==> Snapshot() == ParseStateSpec(m).value
    {
      var st := graph.data[name];
      if what == "entry" || what == "entering" {
        if |tokens| < 4 {
          return Err(IndexOutOfRange);
        }
        if tokens[3] == "/" || tokens[3] == ":" {
          graph := graph.SetNodeData(name, st.(entering := [Verbatim(Join(tokens[4..], " "))]));
          return Ok(());
        }
      }
      if what == "exit" || what == "leaving" {
        if |tokens| < 4 {
          return Err(IndexOutOfRange);
        }
        if tokens[3] == "/" || tokens[3] == ":" {
          graph := graph.SetNodeData(name, st.(leaving := Join(tokens[4..], " ")));
          return Ok(());
        }
      }
      if what == "comment" {
        graph := graph.SetNodeData(name, st.(comment := Join(Drop(tokens, 4), " ")));
        return Ok(());
      } else if what == "do" {
        return Err(DoActivityNotImplemented);
      } else {
        return Err(BadStateSyntax);
      }
    }

    /** parse_state on an `on` line, once the state exists: the line is
        rewritten to a self-loop, its count updated, and read as a
        transition. */
    method ParseOnLine(ghost m: Machine, name: Name) returns (r: Result<()>)
      requires m.nbTokens <= |m.tokens| && |m.tokens| >= 3
      requires name == Upper(m.tokens[0]) && Lower(m.tokens[2]) == "on"
      requires Snapshot() == m.(graph := m.graph.AddNode(name, NewState(name)))
      modifies this`graph, this`events, this`initialState, this`tokens, this`nbTokens
      ensures r.Ok? <==> ParseStateSpec(m).Ok?
      ensures r.Err? ==> r.error == ParseStateSpec(m).error
      ensures r.Ok? ==> Snapshot() == ParseStateSpec(m).value
    {
      ParseStateOn(m, |m.tokens| + 1);
      tokens := OnLine(name, tokens);
      nbTokens := |tokens|;
      r := ParseTransition(true);
    }

    /** verify_transition: a warning for each always-taken edge of each state
        with several successors, states in insertion order. */
    method VerifyTransition()
      requires graph.Valid()
      modifies this`warnings
      ensures warnings == old(warnings) + TransitionWarnings(graph, graph.nodes)
    {
      var ws := TransitionScan(graph);
      warnings := warnings + ws;
    }

    /** manage_noevents: each selected state, in whatever order the set gives
        them, gets its no-event code appended to its entering code. */
    method ManageNoEvents()
      requires graph.Valid()
      modifies this`graph
      ensures graph == WithNoEventCode(old(graph))
    {
      var g := graph;
      var states := SelectStates(g);
      var todo := states;
      ghost var done: set<Name> := {};
      while todo != {}
        invariant todo + done == states && todo !! done
        invariant graph == g.(data := AppendedFor(g, done))
        decreases todo
      {
        var s :| s in todo;
        var code := NoEventCodeOf(g, s);
        AppendedStep(g, done, s);
        var st := graph.data[s];
        graph := graph.SetNodeData(s, st.(entering := st.entering + code));
        todo := todo - {s};
        done := done + {s};
      }
      AppendedAll(g, done);
    }

    /** The cycles generate_unit_tests replays, given the elementary cycles
        networkx.simple_cycles lists (raws): each one through the initial
        state, rotated to start there and closed. */
    method UnitTestCycles(raws: seq<seq<Name>>) returns (cycles: seq<seq<Name>>)
      ensures cycles == InitialCycles(initialState, raws)
    {
      var ns := [initialState];
      cycles := [];
      for k := 0 to |raws|
        invariant cycles + Scenarios.Cycles(ns, raws[k..]) == Scenarios.Cycles(ns, raws)
      {
        var cycle := raws[k];
        assert raws[k..][1..] == raws[k + 1..];
        ghost var rest := Scenarios.Cycles(ns, raws[k + 1..]);
        if initialState in cycle {
          assert Scenarios.FirstIn(ns, cycle) == Some(0);
          var index := IndexOf(cycle, initialState);
          var rotated := cycle[index..] + cycle[..index];
          assert Scenarios.Rotate(ns, cycle) == Some(rotated + [rotated[0]]);
          assert Scenarios.Cycles(ns, raws[k..]) == [rotated + [rotated[0]]] + rest;
          AppendAssoc(cycles, [rotated + [rotated[0]]], rest);
          cycles := cycles + [rotated + [rotated[0]]];
        } else {
          assert Scenarios.FirstIn(ns, cycle) == None;
          assert Scenarios.Cycles(ns, raws[k..]) == rest;
        }
      }
      assert raws[|raws|..] == [];
    }
  }
}
