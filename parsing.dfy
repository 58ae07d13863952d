/**
 * What the translator's Parser (translator/statecharts.py) does to its own
 * state when it reads one transition, one state annotation or one line of
 * extra code, written as functions from the old state to the new one. The
 * class in translator.dfy is proved to follow these functions.
 */
module Parsing {
  import opened Outcomes
  import opened Text
  import opened Chart
  import DiGraph

  /** The fields of the Parser that reading and checking a diagram change. */
  datatype Machine = Machine(
    graph: Graph, lookupEvents: EventTable, initialState: Name, finalState: Name,
    extraCode: ExtraCode, warnings: seq<Warning>, tokens: seq<string>)

  /** Every edge payload names the edge it is stored on. */
  ghost predicate EdgesMatch(g: Graph) {
    forall e | e in g.edges :: g.edges[e].origin == e.0 && g.edges[e].destination == e.1
  }

  /** What holds of the Parser between two calls: a well-formed graph whose
      payloads name their node or edge, a lookup table with one key per event
      name, and pseudo states that are nodes once they are known. */
  ghost predicate MachineValid(m: Machine) {
    && m.graph.Valid() && NamesMatch(m.graph) && EdgesMatch(m.graph) && m.lookupEvents.Valid()
    && (m.initialState == "" || (m.initialState == InitialMarker && InitialMarker in m.graph.data))
    && (m.finalState == "" || (m.finalState == FinalMarker && FinalMarker in m.graph.data))
  }

  /** add_state keeps the invariant. */
  lemma AddStateValid(m: Machine, name: Name)
    requires MachineValid(m)
    ensures MachineValid(m.(graph := m.graph.AddNode(name, NewState(name))))
    ensures m.graph.AddNode(name, NewState(name)).edges == m.graph.edges
    ensures forall n | n in m.graph.data :: m.graph.AddNode(name, NewState(name)).data[n] == m.graph.data[n]
  {
    DiGraph.AddNodeValid(m.graph, name, NewState(name));
  }

  // ---------------------------------------------------------------------------
  // parse_transition
  // ---------------------------------------------------------------------------

  /** The origin and destination the arrow names before renaming: an arrow
      ending in `>` reads left to right, any other right to left. */
  function Oriented(tokens: seq<string>): (Name, Name)
    requires |tokens| >= 3 && tokens[1] != ""
  {
    if tokens[1][|tokens[1]| - 1] == '>' then (Upper(tokens[0]), Upper(tokens[2]))
    else (Upper(tokens[2]), Upper(tokens[0]))
  }

  /** The end points of the edge: a destination `[*]` is the final state
      `*`, unless the origin is `[*]` too. Too few tokens, or an empty arrow,
      is an IndexError. */
  function Endpoints(tokens: seq<string>): (r: Result<(Name, Name)>)
    ensures r.Ok? <==> |tokens| >= 3 && tokens[1] != ""
  {
    if |tokens| < 3 || tokens[1] == "" then Err(IndexOutOfRange)
    else
      var (o, d) := Oriented(tokens);
      Ok((o, if o != InitialMarker && d == InitialMarker then FinalMarker else d))
  }

  /** The action given to an internal transition (`on` line) that has none. */
  function DummyAction(event: string, state: Name): string
  {
    "// Dummy action\n" + "#warning \"no reaction to event " + event
    + " for internal transition " + state + " -> " + state + "\"\n"
  }

  /** After each clause, an internal transition without action gets the dummy one. */
  function React(tr: Transition, asState: bool): (r: Transition)
  {
    if asState && tr.origin == tr.destination && tr.action == ""
    then tr.(action := DummyAction(tr.event.name, tr.origin))
    else tr
  }

  /** What a token of the pending list announces: the operand that follows
      it is an event, a guard, a `/ action` or a `\n--\n action`. */
  datatype Marker = EventMarker | GuardMarker | UmlActionMarker | StdActionMarker | NoMarker

  /** The marker a token spells, if any. */
  function MarkerOf(t: string): (k: Marker)
    ensures k == EventMarker <==> t == "#event"
    ensures k == GuardMarker <==> t == "#guard"
    ensures k == UmlActionMarker <==> t == "#uml_action"
    ensures k == StdActionMarker <==> t == "#std_action"
  {
    assert "#event"[1] != "#guard"[1] && "#uml_action"[1] != "#std_action"[1];
    if t == "#event" then EventMarker
    else if t == "#guard" then GuardMarker
    else if t == "#uml_action" then UmlActionMarker
    else if t == "#std_action" then StdActionMarker
    else NoMarker
  }

  /** The event of an `#event N tok...` clause at index i: the N tokens after
      the count, parsed by parse_event; a count that is not an integer is a
      ValueError. */
  function EventClause(tokens: seq<string>, i: nat): Result<Event>
    requires i + 1 < |tokens|
  {
    match ParseNat(tokens[i + 1])
    case None => Err(NotAnInteger)
    case Some(n) => ParseEvent(Slice(tokens, i + 2, i + 2 + n))
  }

  /** What the clause announced by k does with its operand at index i + 1:
      `#event` reads the event and records the end points under it, `#guard`
      keeps the text between the brackets, `#uml_action` drops the `/` and
      `#std_action` the `\n--\n`, each stripped. */
  function ClauseEffect(k: Marker, tokens: seq<string>, i: nat, tr: Transition, events: EventTable)
    : Result<(Transition, EventTable)>
    requires i + 1 < |tokens|
  {
    match k
    case EventMarker =>
      (match EventClause(tokens, i)
       case Err(f) => Err(f)
       case Ok(ev) => Ok((tr.(event := ev), events.Record(ev, tr.origin, tr.destination))))
    case GuardMarker => Ok((tr.(guard := Strip(Inner(tokens[i + 1]))), events))
    case UmlActionMarker => Ok((tr.(action := Strip(Drop(tokens[i + 1], 1))), events))
    case StdActionMarker => Ok((tr.(action := Strip(Drop(tokens[i + 1], 6))), events))
    case NoMarker => Ok((tr, events))
  }

  /** The clause at index i; any token that is not a marker is skipped. A
      marker without operand is an IndexError. After each token the
      dummy action is given if need be. */
  function ClauseStep(tokens: seq<string>, i: nat, tr: Transition, events: EventTable, asState: bool)
    : Result<(Transition, EventTable)>
    requires i < |tokens|
  {
    var k := MarkerOf(tokens[i]);
    if k == NoMarker then Ok((React(tr, asState), events))
    else if i + 1 >= |tokens| then Err(IndexOutOfRange)
    else match ClauseEffect(k, tokens, i, tr, events)
      case Err(f) => Err(f)
      case Ok(p) => Ok((React(p.0, asState), p.1))
  }

  /** The clause loop from index i to the end. */
  function ScanClauses(tokens: seq<string>, i: nat, tr: Transition, events: EventTable, asState: bool)
    : Result<(Transition, EventTable)>
    decreases |tokens| - i
  {
    if i >= |tokens| then Ok((tr, events))
    else match ClauseStep(tokens, i, tr, events, asState)
      case Err(f) => Err(f)
      case Ok(p) => ScanClauses(tokens, i + 1, p.0, p.1, asState)
  }

  /** The clause loop from index i is the clause at i, then the loop from i + 1. */
  lemma ScanClausesUnfold(tokens: seq<string>, i: nat, tr: Transition, events: EventTable, asState: bool)
    requires i < |tokens|
    ensures ClauseStep(tokens, i, tr, events, asState).Err? ==>
      ScanClauses(tokens, i, tr, events, asState) == Err(ClauseStep(tokens, i, tr, events, asState).error)
    ensures ClauseStep(tokens, i, tr, events, asState).Ok? ==>
      var p := ClauseStep(tokens, i, tr, events, asState).value;
      ScanClauses(tokens, i, tr, events, asState) == ScanClauses(tokens, i + 1, p.0, p.1, asState)
  {
  }

  /** The graph parse_transition leaves: both end points made nodes, then the edge stored. */
  function StoreEdge(g: Graph, tr: Transition): (h: Graph)
    ensures h.data.Keys == g.data.Keys + {tr.origin, tr.destination}
    ensures forall n | n in g.data :: h.data[n] == g.data[n]
    ensures h.edges == g.edges[(tr.origin, tr.destination) := tr]
  {
    g.AddNode(tr.origin, NewState(tr.origin)).AddNode(tr.destination, NewState(tr.destination))
     .SetEdge(tr.origin, tr.destination, tr)
  }

  /** parse_transition on m.tokens: both end points become nodes, the edge is
      stored (replacing an edge between the same two states), the pseudo
      states are noted and the tokens are consumed. */
  function ParseTransitionSpec(m: Machine, asState: bool): Result<Machine>
  {
    match Endpoints(m.tokens)
    case Err(f) => Err(f)
    case Ok(ends) =>
      var (o, d) := ends;
      var initial := if o == InitialMarker then InitialMarker else m.initialState;
      var final := if o != InitialMarker && Oriented(m.tokens).1 == InitialMarker then FinalMarker else m.finalState;
      var tr0 := NewTransition().(origin := o, destination := d);
      match ScanClauses(m.tokens, 3, tr0, m.lookupEvents, asState)
      case Err(f) => Err(f)
      case Ok(p) =>
        Ok(m.(graph := StoreEdge(m.graph, p.0), lookupEvents := p.1,
              initialState := initial, finalState := final, tokens := []))
  }

  /** The event table only grows: names stay, and each list keeps its prefix. */
  ghost predicate Grows(a: EventTable, b: EventTable) {
    forall n | n in a.pairs :: n in b.pairs && a.pairs[n] <= b.pairs[n]
  }

  /** One clause keeps the end points; only an `#event` clause changes the
      table, by recording the end points under the event it read. */
  lemma ClauseStepSpec(tokens: seq<string>, i: nat, tr: Transition, events: EventTable, asState: bool)
    requires i < |tokens|
    requires ClauseStep(tokens, i, tr, events, asState).Ok?
    ensures var p := ClauseStep(tokens, i, tr, events, asState).value;
      && p.0.origin == tr.origin && p.0.destination == tr.destination
      && p.1 == (if tokens[i] == "#event" then events.Record(p.0.event, tr.origin, tr.destination) else events)
  {
  }

  /** The clause loop keeps the end points of the transition. */
  lemma {:induction false} ScanClausesEnds(tokens: seq<string>, i: nat, tr: Transition, events: EventTable, asState: bool)
    requires ScanClauses(tokens, i, tr, events, asState).Ok?
    ensures var p := ScanClauses(tokens, i, tr, events, asState).value;
      p.0.origin == tr.origin && p.0.destination == tr.destination
    decreases |tokens| - i
  {
    if i < |tokens| {
      var step := ClauseStep(tokens, i, tr, events, asState).value;
      ClauseStepSpec(tokens, i, tr, events, asState);
      ScanClausesEnds(tokens, i + 1, step.0, step.1, asState);
    }
  }

  /** The clause loop keeps the table well formed and growing, and changes
      it only when an `#event` clause is met. */
  lemma {:induction false} ScanClausesTable(tokens: seq<string>, i: nat, tr: Transition, events: EventTable, asState: bool)
    requires i <= |tokens| && events.Valid()
    requires ScanClauses(tokens, i, tr, events, asState).Ok?
    ensures var p := ScanClauses(tokens, i, tr, events, asState).value;
      && p.1.Valid() && Grows(events, p.1)
      && ("#event" !in tokens[i..] ==> p.1 == events)
    decreases |tokens| - i
  {
    if i < |tokens| {
      ScanClausesUnfold(tokens, i, tr, events, asState);
      var step := ClauseStep(tokens, i, tr, events, asState).value;
      ClauseStepSpec(tokens, i, tr, events, asState);
      if tokens[i] == "#event" {
        RecordSpec(events, step.0.event, tr.origin, tr.destination);
      }
      assert step.1.Valid() && Grows(events, step.1);
      ScanClausesTable(tokens, i + 1, step.0, step.1, asState);
      var p := ScanClauses(tokens, i, tr, events, asState).value;
      assert p == ScanClauses(tokens, i + 1, step.0, step.1, asState).value;
      forall n | n in events.pairs ensures n in p.1.pairs && events.pairs[n] <= p.1.pairs[n] {
        assert step.1.pairs[n] <= p.1.pairs[n];
      }
      if "#event" !in tokens[i..] {
        assert tokens[i] == tokens[i..][0];
        assert tokens[i + 1..] == tokens[i..][1..];
      }
    }
  }

  /** Once an `#event` clause is met, the end points are listed under some
      event name. */
  lemma {:induction false} ScanClausesRecords(tokens: seq<string>, i: nat, tr: Transition, events: EventTable, asState: bool)
    requires i <= |tokens| && events.Valid()
    requires ScanClauses(tokens, i, tr, events, asState).Ok?
    requires "#event" in tokens[i..]
    ensures var p := ScanClauses(tokens, i, tr, events, asState).value;
      exists n | n in p.1.pairs :: (tr.origin, tr.destination) in p.1.pairs[n]
    decreases |tokens| - i
  {
    var step := ClauseStep(tokens, i, tr, events, asState).value;
    ClauseStepSpec(tokens, i, tr, events, asState);
    var p := ScanClauses(tokens, i, tr, events, asState).value;
    assert p == ScanClauses(tokens, i + 1, step.0, step.1, asState).value;
    assert tokens[i..] == [tokens[i]] + tokens[i + 1..];
    if tokens[i] == "#event" {
      RecordSpec(events, step.0.event, tr.origin, tr.destination);
      ScanClausesTable(tokens, i + 1, step.0, step.1, asState);
      var n := step.0.event.name;
      assert (tr.origin, tr.destination) in step.1.pairs[n];
      assert step.1.pairs[n] <= p.1.pairs[n];
      assert (tr.origin, tr.destination) in p.1.pairs[n];
    } else {
      assert step.1 == events;
      ScanClausesRecords(tokens, i + 1, step.0, step.1, asState);
      ScanClausesEnds(tokens, i, tr, events, asState);
    }
  }

  /** On an internal transition (`on` line) at least one clause leaves a
      non-empty action: the dummy one when no action was given. */
  lemma {:induction false} ScanClausesReacts(tokens: seq<string>, i: nat, tr: Transition, events: EventTable)
    requires i < |tokens| && tr.origin == tr.destination
    requires ScanClauses(tokens, i, tr, events, true).Ok?
    ensures ScanClauses(tokens, i, tr, events, true).value.0.action != ""
    decreases |tokens| - i
  {
    var step := ClauseStep(tokens, i, tr, events, true).value;
    assert step.0.origin == tr.origin && step.0.destination == tr.destination;
    if i + 1 < |tokens| {
      ScanClausesReacts(tokens, i + 1, step.0, step.1);
    }
  }

  /** add_state keeps node payloads named after their node. */
  lemma AddStateNames(g: Graph, n: Name)
    requires NamesMatch(g) && EdgesMatch(g)
    ensures NamesMatch(g.AddNode(n, NewState(n))) && EdgesMatch(g.AddNode(n, NewState(n)))
  {
  }

  /** add_transition keeps edge payloads named after their edge. */
  lemma AddTransitionNames(g: Graph, tr: Transition)
    requires NamesMatch(g) && EdgesMatch(g)
    ensures NamesMatch(g.SetEdge(tr.origin, tr.destination, tr))
    ensures EdgesMatch(g.SetEdge(tr.origin, tr.destination, tr))
  {
    var h := g.SetEdge(tr.origin, tr.destination, tr);
    assert h.data == g.data;
    assert h.edges == g.edges[(tr.origin, tr.destination) := tr];
  }

  /** Storing an edge keeps the graph well formed and its payloads named. */
  lemma StoreEdgeValid(g: Graph, tr: Transition)
    requires g.Valid() && NamesMatch(g) && EdgesMatch(g)
    ensures StoreEdge(g, tr).Valid() && NamesMatch(StoreEdge(g, tr)) && EdgesMatch(StoreEdge(g, tr))
  {
    var (o, d) := (tr.origin, tr.destination);
    var g1 := g.AddNode(o, NewState(o));
    var g2 := g1.AddNode(d, NewState(d));
    DiGraph.AddNodeValid(g, o, NewState(o));
    DiGraph.AddNodeValid(g1, d, NewState(d));
    AddStateNames(g, o);
    AddStateNames(g1, d);
    DiGraph.SetEdgeValid(g2, o, d, tr);
    AddTransitionNames(g2, tr);
  }

  /** The result of parse_transition, once the clause loop has succeeded. */
  lemma ParseTransitionResult(m: Machine, asState: bool)
    requires ParseTransitionSpec(m, asState).Ok?
    ensures Endpoints(m.tokens).Ok?
    ensures var (o, d) := Endpoints(m.tokens).value;
      var tr0 := NewTransition().(origin := o, destination := d);
      var p := ScanClauses(m.tokens, 3, tr0, m.lookupEvents, asState);
      && p.Ok?
      && ParseTransitionSpec(m, asState).value == m.(
           graph := StoreEdge(m.graph, p.value.0),
           lookupEvents := p.value.1,
           initialState := if o == InitialMarker then InitialMarker else m.initialState,
           finalState := if o != InitialMarker && Oriented(m.tokens).1 == InitialMarker then FinalMarker else m.finalState,
           tokens := [])
  {
  }

  /** When the arrow reads (o, d0) and the clause loop yields (tr, events),
      parse_transition adds both end points, stores tr on (o, d) and keeps
      the table the loop left. */
  lemma ParseTransitionOk(m: Machine, asState: bool, o: Name, d0: Name, tr: Transition, events: EventTable)
    requires |m.tokens| >= 3 && m.tokens[1] != "" && Oriented(m.tokens) == (o, d0)
    requires var d := if o != InitialMarker && d0 == InitialMarker then FinalMarker else d0;
      && tr.origin == o && tr.destination == d
      && ScanClauses(m.tokens, 3, NewTransition().(origin := o, destination := d), m.lookupEvents, asState) == Ok((tr, events))
    ensures var d := if o != InitialMarker && d0 == InitialMarker then FinalMarker else d0;
      ParseTransitionSpec(m, asState) == Ok(m.(
        graph := m.graph.AddNode(o, NewState(o)).AddNode(d, NewState(d)).SetEdge(o, d, tr),
        lookupEvents := events,
        initialState := if o == InitialMarker then InitialMarker else m.initialState,
        finalState := if o != InitialMarker && d0 == InitialMarker then FinalMarker else m.finalState,
        tokens := []))
  {
  }

  /** When the clause loop fails, parse_transition fails the same way. */
  lemma ParseTransitionFails(m: Machine, asState: bool, o: Name, d0: Name, f: Failure)
    requires |m.tokens| >= 3 && m.tokens[1] != "" && Oriented(m.tokens) == (o, d0)
    requires var d := if o != InitialMarker && d0 == InitialMarker then FinalMarker else d0;
      ScanClauses(m.tokens, 3, NewTransition().(origin := o, destination := d), m.lookupEvents, asState) == Err(f)
    ensures ParseTransitionSpec(m, asState) == Err(f)
  {
  }

  /** Once the end points are read, parse_transition fails exactly when the
      clause loop does. */
  lemma ParseTransitionOutcome(m: Machine, asState: bool)
    requires Endpoints(m.tokens).Ok?
    ensures var (o, d) := Endpoints(m.tokens).value;
      ParseTransitionSpec(m, asState).Ok?
      <==> ScanClauses(m.tokens, 3, NewTransition().(origin := o, destination := d), m.lookupEvents, asState).Ok?
  {
  }

  /** parse_transition keeps the invariant. */
  lemma ParseTransitionValid(m: Machine, asState: bool)
    requires MachineValid(m)
    ensures ParseTransitionSpec(m, asState).Ok? ==> MachineValid(ParseTransitionSpec(m, asState).value)
  {
    if ParseTransitionSpec(m, asState).Ok? {
      ParseTransitionResult(m, asState);
      var (o, d) := Endpoints(m.tokens).value;
      var tr0 := NewTransition().(origin := o, destination := d);
      ScanClausesEnds(m.tokens, 3, tr0, m.lookupEvents, asState);
      ScanClausesTable(m.tokens, 3, tr0, m.lookupEvents, asState);
      var p := ScanClauses(m.tokens, 3, tr0, m.lookupEvents, asState).value;
      StoreEdgeValid(m.graph, p.0);
    }
  }

  /** Orientation: the arrow's direction picks origin and destination, both
      upper-cased and made nodes without touching an existing node's payload;
      the one edge between them is replaced; `[*]` as origin is the initial
      state, `[*]` as destination becomes the final state `*`. */
  lemma ParseTransitionOrientation(m: Machine, asState: bool)
    requires ParseTransitionSpec(m, asState).Ok?
    ensures |m.tokens| >= 3 && m.tokens[1] != ""
    ensures var r := ParseTransitionSpec(m, asState).value;
      var o := Oriented(m.tokens).0;
      var d0 := Oriented(m.tokens).1;
      var d := if o != InitialMarker && d0 == InitialMarker then FinalMarker else d0;
      && r.graph.data.Keys == m.graph.data.Keys + {o, d}
      && (forall n | n in m.graph.data :: r.graph.data[n] == m.graph.data[n])
      && r.graph.edges.Keys == m.graph.edges.Keys + {(o, d)}
      && (forall e | e in m.graph.edges && e != (o, d) :: r.graph.edges[e] == m.graph.edges[e])
      && r.graph.edges[(o, d)].origin == o && r.graph.edges[(o, d)].destination == d
      && r.initialState == (if o == InitialMarker then InitialMarker else m.initialState)
      && r.finalState == (if o != InitialMarker && d0 == InitialMarker then FinalMarker else m.finalState)
      && r.tokens == [] && r.extraCode == m.extraCode && r.warnings == m.warnings
  {
    ParseTransitionResult(m, asState);
    var (o, d) := Endpoints(m.tokens).value;
    var tr0 := NewTransition().(origin := o, destination := d);
    ScanClausesEnds(m.tokens, 3, tr0, m.lookupEvents, asState);
    var p := ScanClauses(m.tokens, 3, tr0, m.lookupEvents, asState).value;
    var r := ParseTransitionSpec(m, asState).value;
    assert r.graph == StoreEdge(m.graph, p.0);
    assert r.graph.edges == m.graph.edges[(o, d) := p.0];
  }

  /** (origin, destination) goes into the lookup table only through an
      `#event` clause: without one the table is unchanged, with one the pair
      is listed under some event name. */
  lemma ParseTransitionEvents(m: Machine, asState: bool)
    requires m.lookupEvents.Valid()
    requires ParseTransitionSpec(m, asState).Ok?
    ensures |m.tokens| >= 3
    ensures var r := ParseTransitionSpec(m, asState).value;
      var (o, d) := Endpoints(m.tokens).value;
      && Grows(m.lookupEvents, r.lookupEvents)
      && ("#event" !in m.tokens[3..] ==> r.lookupEvents == m.lookupEvents)
      && ("#event" in m.tokens[3..] ==> exists n | n in r.lookupEvents.pairs :: (o, d) in r.lookupEvents.pairs[n])
  {
    var (o, d) := Endpoints(m.tokens).value;
    var tr0 := NewTransition().(origin := o, destination := d);
    ScanClausesTable(m.tokens, 3, tr0, m.lookupEvents, asState);
    if "#event" in m.tokens[3..] {
      ScanClausesRecords(m.tokens, 3, tr0, m.lookupEvents, asState);
    }
  }

  // ---------------------------------------------------------------------------
  // parse_state
  // ---------------------------------------------------------------------------

  /** A parsed `name : what ...` line: the grammar rule (`state_entry`,
      `state_on`, ...), the state name and the clauses after it. */
  datatype StateLine = StateLine(data: string, name: string, clauses: seq<Clause>)

  /** The annotations that set a text field of the state. */
  predicate IsAnnotation(what: string) {
    what in ["entry", "entering", "exit", "leaving", "comment", "do", "activity"]
  }

  /** The text of the first clause's token without its leading character
      (the `/` or `:`), stripped; the state a field of which it extends. */
  function Annotate(st: State, what: string, text: string): (r: State)
    requires IsAnnotation(what)
    ensures r.name == st.name && r.internal == st.internal
  {
    if what == "entry" || what == "entering" then st.(entering := st.entering + "        " + text + ";\n")
    else if what == "exit" || what == "leaving" then st.(leaving := st.leaving + "        " + text + ";\n")
    else if what == "comment" then st.(comment := st.comment + text)
    else st.(activity := st.activity + text)
  }

  /** parse_state: the state is made a node, then an annotation extends one
      text field of its payload, an `on` line becomes an internal transition
      (a self loop read by parse_transition), and anything else is fatal. */
  function ParseStateSpec(m: Machine, line: StateLine): Result<Machine>
  {
    var what := Drop(line.data, 6);
    if IsAnnotation(what) then AnnotateState(m, line)
    else if what == "on" || what == "event" then InternalTransition(m, line)
    else Err(UnknownStateAnnotation)
  }

  /** An annotation: the first clause's token without its leading `/` or
      `:`, stripped, extends one field of the state; no such token is an
      IndexError. */
  function AnnotateState(m: Machine, line: StateLine): Result<Machine>
    requires IsAnnotation(Drop(line.data, 6))
  {
    var name := Upper(line.name);
    var g := m.graph.AddNode(name, NewState(name));
    if line.clauses == [] || line.clauses[0].children == [] then Err(IndexOutOfRange)
    else
      var text := Strip(Drop(line.clauses[0].children[0], 1));
      Ok(m.(graph := g.SetNodeData(name, Annotate(g.data[name], Drop(line.data, 6), text))))
  }

  /** An `on` line: the clauses, flattened after `name -> name`, read by
      parse_transition as an internal transition. */
  function InternalTransition(m: Machine, line: StateLine): Result<Machine>
  {
    var name := Upper(line.name);
    match FlattenClauses(line.clauses)
    case Err(f) => Err(f)
    case Ok(ts) => ParseTransitionSpec(m.(graph := m.graph.AddNode(name, NewState(name)), tokens := OnTokens(line, ts)), true)
  }

  /** The transition an `on` line hands to parse_transition. */
  function OnTokens(line: StateLine, ts: seq<string>): seq<string> {
    [Upper(line.name), "->", Upper(line.name)] + ts
  }

  /** An annotation extends exactly the one field it names, on the one state
      it names (made a node if it was not one), and changes nothing else. */
  lemma ParseStateAnnotation(m: Machine, line: StateLine)
    requires IsAnnotation(Drop(line.data, 6))
    requires AnnotateState(m, line).Ok?
    ensures line.clauses != [] && line.clauses[0].children != []
    ensures var r := AnnotateState(m, line).value;
      var name := Upper(line.name);
      var text := Strip(Drop(line.clauses[0].children[0], 1));
      var before := if name in m.graph.data then m.graph.data[name] else NewState(name);
      && r.graph.data.Keys == m.graph.data.Keys + {name}
      && r.graph.data[name] == Annotate(before, Drop(line.data, 6), text)
      && (forall n | n in m.graph.data && n != name :: r.graph.data[n] == m.graph.data[n])
      && r.graph.edges == m.graph.edges
      && r.lookupEvents == m.lookupEvents && r.initialState == m.initialState
      && r.finalState == m.finalState && r.tokens == m.tokens
  {
    var name := Upper(line.name);
    var g := m.graph.AddNode(name, NewState(name));
    var text := Strip(Drop(line.clauses[0].children[0], 1));
    var st := Annotate(g.data[name], Drop(line.data, 6), text);
    assert AnnotateState(m, line).value == m.(graph := g.SetNodeData(name, st));
  }

  /** An annotation keeps the invariant. */
  lemma AnnotateStateValid(m: Machine, line: StateLine)
    requires MachineValid(m)
    requires IsAnnotation(Drop(line.data, 6))
    requires AnnotateState(m, line).Ok?
    ensures MachineValid(AnnotateState(m, line).value)
  {
    var name := Upper(line.name);
    var g := m.graph.AddNode(name, NewState(name));
    AddStateValid(m, name);
    AddStateNames(m.graph, name);
    var text := Strip(Drop(line.clauses[0].children[0], 1));
    var st := Annotate(g.data[name], Drop(line.data, 6), text);
    SetStateValid(m.(graph := g), name, st);
    assert AnnotateState(m, line).value == m.(graph := g.SetNodeData(name, st));
  }

  /** Replacing a node's payload by one with the same name keeps the invariant. */
  lemma SetStateValid(m: Machine, name: Name, st: State)
    requires MachineValid(m) && name in m.graph.data && st.name == name
    ensures MachineValid(m.(graph := m.graph.SetNodeData(name, st)))
  {
    var h := m.graph.SetNodeData(name, st);
    assert h.data.Keys == m.graph.data.Keys;
    assert h.Valid();
  }

  /** The self loop of an upper-cased name: neither end is the initial marker. */
  lemma OnEndpoints(line: StateLine, ts: seq<string>)
    ensures Endpoints(OnTokens(line, ts)) == Ok((Upper(line.name), Upper(line.name)))
  {
    var t := OnTokens(line, ts);
    assert t[0] == Upper(line.name) && t[1] == "->" && t[2] == Upper(line.name);
    UpperIdempotent(line.name);
    assert Oriented(t) == (Upper(line.name), Upper(line.name));
  }

  /** An `on` line keeps the invariant. */
  lemma InternalTransitionValid(m: Machine, line: StateLine)
    requires MachineValid(m)
    requires InternalTransition(m, line).Ok?
    ensures MachineValid(InternalTransition(m, line).value)
  {
    var name := Upper(line.name);
    var ts := FlattenClauses(line.clauses).value;
    var m0 := m.(graph := m.graph.AddNode(name, NewState(name)));
    var m1 := m0.(tokens := OnTokens(line, ts));
    assert InternalTransition(m, line) == ParseTransitionSpec(m1, true);
    AddStateValid(m, name);
    assert MachineValid(m1) by {
      assert m1.graph == m0.graph && m1.lookupEvents == m0.lookupEvents;
      assert m1.initialState == m0.initialState && m1.finalState == m0.finalState;
    }
    ParseTransitionValid(m1, true);
  }

  /** An `on` line stores the self loop name -> name; once it has a clause,
      the loop's action is never empty. */
  lemma ParseStateOn(m: Machine, line: StateLine)
    requires InternalTransition(m, line).Ok?
    ensures var r := InternalTransition(m, line).value;
      var name := Upper(line.name);
      && (name, name) in r.graph.edges
      && (line.clauses != [] ==> r.graph.edges[(name, name)].action != "")
  {
    var name := Upper(line.name);
    var ts := FlattenClauses(line.clauses).value;
    var m1 := m.(graph := m.graph.AddNode(name, NewState(name)), tokens := OnTokens(line, ts));
    assert InternalTransition(m, line) == ParseTransitionSpec(m1, true);
    ParseTransitionResult(m1, true);
    OnEndpoints(line, ts);
    var tr0 := NewTransition().(origin := name, destination := name);
    ScanClausesEnds(m1.tokens, 3, tr0, m1.lookupEvents, true);
    var p := ScanClauses(m1.tokens, 3, tr0, m1.lookupEvents, true).value;
    var r := ParseTransitionSpec(m1, true).value;
    assert r.graph.edges == m1.graph.edges[(name, name) := p.0];
    if line.clauses != [] {
      assert ts != [];
      ScanClausesReacts(m1.tokens, 3, tr0, m1.lookupEvents);
    }
  }

  /** parse_state keeps the invariant. */
  lemma ParseStateValid(m: Machine, line: StateLine)
    requires MachineValid(m)
    ensures ParseStateSpec(m, line).Ok? ==> MachineValid(ParseStateSpec(m, line).value)
  {
    var what := Drop(line.data, 6);
    if IsAnnotation(what) {
      if AnnotateState(m, line).Ok? {
        AnnotateStateValid(m, line);
      }
    } else if what == "on" || what == "event" {
      if InternalTransition(m, line).Ok? {
        InternalTransitionValid(m, line);
      }
    }
  }

  // ---------------------------------------------------------------------------
  // parse_extra_code
  // ---------------------------------------------------------------------------

  /** C++ access specifiers, which are written without indentation. */
  predicate IsAccessSpecifier(code: string) {
    code in ["public:", "protected:", "private:"]
  }

  /** parse_extra_code: the slot named by token gets the code line; an
      unknown slot is fatal. */
  function ExtraCodeSpec(x: ExtraCode, token: string, code: string): (r: Result<ExtraCode>)
  {
    if token == "[header]" then Ok(x.(header := x.header + code + "\n"))
    else if token == "[footer]" then Ok(x.(footer := x.footer + code + "\n"))
    else if token == "[param]" then Ok(x.(argvs := x.argvs + (if x.argvs != "" then ", " else "") + code))
    else if token == "[init]" then Ok(x.(init := x.init + "        " + code + "\n"))
    else if token == "[code]" then
      Ok(x.(functions := x.functions + (if IsAccessSpecifier(code) then "" else "    ") + code + "\n"))
    else if token == "[test]" then Ok(x.(unitTests := x.unitTests + code + "\n"))
    else Err(UnknownCodeSlot)
  }

  /** The slots in the order the generator reads them. */
  function Slots(x: ExtraCode): seq<string> {
    [x.header, x.footer, x.argvs, x.init, x.functions, x.unitTests]
  }

  /** The slot index of a token, if it names one. */
  function SlotOf(token: string): Option<nat> {
    if token == "[header]" then Some(0) else if token == "[footer]" then Some(1)
    else if token == "[param]" then Some(2) else if token == "[init]" then Some(3)
    else if token == "[code]" then Some(4) else if token == "[test]" then Some(5)
    else None
  }

  /** What goes before the code in its slot: a separator between
      parameters, the indentation of constructor and member lines. */
  function Lead(k: nat, x: ExtraCode, code: string): string {
    if k == 2 then (if x.argvs != "" then ", " else "")
    else if k == 3 then "        "
    else if k == 4 && !IsAccessSpecifier(code) then "    "
    else ""
  }

  /** One line of extra code fails exactly on an unknown slot, and otherwise
      appends to the end of the slot it names the code between its lead and
      (except for parameters) a newline, leaving every other slot as it was. */
  lemma ExtraCodeRouting(x: ExtraCode, token: string, code: string)
    ensures ExtraCodeSpec(x, token, code).Ok? <==> SlotOf(token).Some?
    ensures ExtraCodeSpec(x, token, code).Ok? ==>
      var y := Slots(ExtraCodeSpec(x, token, code).value);
      var k := SlotOf(token).value;
      && (forall j | 0 <= j < 6 && j != k :: y[j] == Slots(x)[j])
      && y[k] == Slots(x)[k] + Lead(k, x, code) + code + (if k == 2 then "" else "\n")
  {
  }

  /** The constructor parameters after a series of `[param]` lines. */
  function AddParams(argvs: string, codes: seq<string>): string
    decreases |codes|
  {
    if codes == [] then argvs
    else AddParams(ExtraCodeSpec(NoExtraCode.(argvs := argvs), "[param]", codes[0]).value.argvs, codes[1..])
  }

  /** `[param]` lines that are not empty end up as one comma-separated list. */
  lemma {:induction false} ParamsJoin(prefix: string, codes: seq<string>)
    requires forall i | 0 <= i < |codes| :: codes[i] != ""
    ensures prefix == "" ==> AddParams(prefix, codes) == Join(codes, ", ")
    ensures prefix != "" && codes != [] ==> AddParams(prefix, codes) == prefix + ", " + Join(codes, ", ")
    decreases |codes|
  {
    if codes != [] {
      var next := if prefix != "" then prefix + ", " + codes[0] else codes[0];
      assert ExtraCodeSpec(NoExtraCode.(argvs := prefix), "[param]", codes[0]).value.argvs == next;
      ParamsJoin(next, codes[1..]);
      if |codes| > 1 {
        assert Join(codes, ", ") == codes[0] + ", " + Join(codes[1..], ", ");
      }
    }
  }
}
