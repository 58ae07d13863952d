/**
 * The earlier translator (tool/Parser.py): its Parser reads a PlantUML line
 * as a list of tokens and walks an index through them. This module states,
 * as functions from the old state to the new one, what reading one
 * transition or one state annotation does, which warnings the determinism
 * check gives, and the code added to states left by a transition without
 * event. The class in tool.dfy is proved to follow these functions.
 */
module ToolParsing {
  import opened Outcomes
  import opened Text
  import DiGraph
  import Chart

  type Name = DiGraph.Name

  /** Events are Chart events: equal when their names are. This parser never
      records a parameter. */
  type Event = Chart.Event

  /** The pseudo state a diagram starts from. */
  const InitialMarker: Name := "[*]"

  /** The event name a state's `on` line gets when it has no action. */
  const DummyAction: string := "// Dummy action"

  /** One piece of a state's entering code. The `entry / ...` text is kept
      as written; of the code manage_noevents appends, only the shape is
      modelled, not the C++ text. */
  datatype Code =
    | Verbatim(text: string)                                     // the action of an `entry` line
    | EnteringInitialState                                       // `onEnteringInitialState()`
    | InternalEventLog(state: Name)                              // `LOGD("[STATE s] Transitioning by internal event")`
    | GuardedFire(origin: Name, destination: Name, hasAction: bool) // `if (guard) { ...; transition(&tr); return ; }`
    | UndeterministWarning                                       // `#warning "Undeterminist State machine"`
    | Fire(origin: Name, destination: Name, hasAction: bool)     // `static ... tr = { ... }; transition(&tr)`

  /** `class State`: the name, a comment, the entering code, the leaving
      action and the event of its `on` line. */
  datatype State = State(name: Name, comment: string, entering: seq<Code>, leaving: string, event: Event)

  function NewState(name: Name): (st: State)
    ensures st.name == name && st.entering == []
  {
    State(name, "", [], "", Chart.NoEvent)
  }

  /** `class Transition`. */
  datatype Transition = Transition(origin: Name, destination: Name, event: Event, guard: string, action: string)

  type Graph = DiGraph.Graph<State, Transition>

  /** The fields of the Parser that reading and checking a diagram use:
      nbTokens is the cached `len(tokens)` of the line. */
  datatype Machine = Machine(
    graph: Graph, events: Chart.EventTable, initialState: Name,
    tokens: seq<string>, nbTokens: nat, warnings: seq<Chart.Warning>)

  /** What holds between two calls: a well-formed graph, one event key per
      name, and a cached count that never passes the end of the tokens. */
  ghost predicate MachineValid(m: Machine) {
    m.graph.Valid() && m.events.Valid() && m.nbTokens <= |m.tokens|
  }

  // ---------------------------------------------------------------------------
  // concat_tokens
  // ---------------------------------------------------------------------------

  /** Joining one more part puts the separator before it. */
  lemma {:induction false} JoinSnoc(parts: seq<string>, sep: string, t: string)
    requires parts != []
    ensures Join(parts + [t], sep) == Join(parts, sep) + sep + t
    decreases |parts|
  {
    if |parts| == 1 {
      assert Join(parts + [t], sep) == parts[0] + sep + Join([t], sep);
    } else {
      assert (parts + [t])[1..] == parts[1..] + [t];
      JoinSnoc(parts[1..], sep, t);
      assert Join(parts + [t], sep) == parts[0] + sep + Join(parts[1..] + [t], sep);
    }
  }

  // ---------------------------------------------------------------------------
  // parse_event
  // ---------------------------------------------------------------------------

  /** A token parse_event cannot get past: an empty one has no first
      character (IndexError), one opening with `)` makes it index the Event
      object (TypeError). */
  predicate Breaks(t: string) {
    t == "" || t[0] == ')'
  }

  /** The text a token adds to the name: inside parentheses, upper-cased
      and followed by `const& `, itself and a comma; otherwise capitalised. */
  function NamePart(t: string, inParams: bool): string
  {
    if inParams then Upper(t) + "const& " + t + "," else Capitalize(t)
  }

  /** The loop of parse_event over the tokens after the first, from the name
      so far; a token opening with `(` turns the parameter mode on. */
  function NameFrom(name: string, inParams: bool, rest: seq<string>): (r: Result<string>)
    ensures r.Ok? ==> name <= r.value
    decreases |rest|
  {
    if rest == [] then Ok(name)
    else if rest[0] == "" then Err(IndexOutOfRange)
    else if rest[0][0] == ')' then Err(EventObjectNotSubscriptable)
    else
      var p := inParams || rest[0][0] == '(';
      var r := NameFrom(name + NamePart(rest[0], p), p, rest[1..]);
      assert r.Ok? ==> name <= name + NamePart(rest[0], p) <= r.value;
      r
  }

  /** parse_event: no token is the anonymous event; otherwise the first token
      lower-cased starts the name. */
  function EventOf(toks: seq<string>): Result<Event>
  {
    if toks == [] then Ok(Chart.NoEvent)
    else
      match NameFrom(Lower(toks[0]), false, toks[1..])
      case Ok(name) => Ok(Chart.Event(name, []))
      case Err(f) => Err(f)
  }

  /** The loop fails exactly when one of the tokens breaks it. */
  lemma {:induction false} NameFromFails(name: string, inParams: bool, rest: seq<string>)
    ensures NameFrom(name, inParams, rest).Err? <==> exists i | 0 <= i < |rest| :: Breaks(rest[i])
    decreases |rest|
  {
    if rest != [] && !Breaks(rest[0]) {
      var p := inParams || rest[0][0] == '(';
      NameFromFails(name + NamePart(rest[0], p), p, rest[1..]);
      assert forall i | 1 <= i < |rest| :: rest[i] == rest[1..][i - 1];
      assert forall i | 0 <= i < |rest| - 1 :: rest[1..][i] == rest[i + 1];
    }
  }

  /** Without parentheses, every further token is capitalised. */
  lemma {:induction false} NameFromPlain(name: string, rest: seq<string>)
    requires forall i | 0 <= i < |rest| :: rest[i] != "" && rest[i][0] != '(' && rest[i][0] != ')'
    ensures NameFrom(name, false, rest) == Ok(name + Chart.CapitalizeAll(rest))
    decreases |rest|
  {
    if rest != [] {
      assert rest[0] != "" && rest[0][0] != ')' && rest[0][0] != '(';
      assert NameFrom(name, false, rest) == NameFrom(name + NamePart(rest[0], false), false, rest[1..]);
      assert forall i | 0 <= i < |rest| - 1 :: rest[1..][i] == rest[i + 1];
      NameFromPlain(name + Capitalize(rest[0]), rest[1..]);
      assert Chart.CapitalizeAll(rest) == Capitalize(rest[0]) + Chart.CapitalizeAll(rest[1..]);
      AppendAssoc(name, Capitalize(rest[0]), Chart.CapitalizeAll(rest[1..]));
    } else {
      assert name + "" == name;
    }
  }

  /** parse_event fails exactly on a breaking token after the first; when it
      succeeds the name starts with the first token lower-cased and there is
      no parameter. */
  lemma EventOfFails(toks: seq<string>)
    ensures EventOf(toks).Err? <==> exists i | 1 <= i < |toks| :: Breaks(toks[i])
    ensures EventOf(toks).Ok? ==> EventOf(toks).value.params == []
    ensures EventOf(toks).Ok? && toks != [] ==> Lower(toks[0]) <= EventOf(toks).value.name
  {
    if toks != [] {
      NameFromFails(Lower(toks[0]), false, toks[1..]);
      assert forall i | 1 <= i < |toks| :: toks[i] == toks[1..][i - 1];
    }
  }

  /** Without parentheses, the name is the one the later translator gives
      (Chart.ParseEvent): the first token lower-cased, the others
      capitalised. */
  lemma EventOfPlain(toks: seq<string>)
    requires toks != [] && forall i | 0 <= i < |toks| :: toks[i] != "" && '(' !in toks[i] && ')' !in toks[i]
    ensures EventOf(toks) == Chart.ParseEvent(toks)
    ensures EventOf(toks).Ok? && EventOf(toks).value.name == Lower(toks[0]) + Chart.CapitalizeAll(toks[1..])
  {
    forall i | 0 <= i < |toks| - 1
      ensures toks[1..][i] != "" && toks[1..][i][0] != '(' && toks[1..][i][0] != ')'
    {
      assert toks[1..][i] == toks[i + 1];
      assert toks[i + 1][0] in toks[i + 1];
    }
    NameFromPlain(Lower(toks[0]), toks[1..]);
    var last := toks[|toks| - 1];
    assert last[|last| - 1] in last;
  }

  // ---------------------------------------------------------------------------
  // parse_transition
  // ---------------------------------------------------------------------------

  /** The origin and destination: `->` and `-->` read left to right, any other
      arrow right to left, both upper-cased. Fewer than three tokens is an
      IndexError. */
  function Ends(tokens: seq<string>): (r: Result<(Name, Name)>)
    ensures r.Ok? <==> |tokens| >= 3
    ensures r.Ok? && (tokens[1] == "->" || tokens[1] == "-->") ==> r.value == (Upper(tokens[0]), Upper(tokens[2]))
    ensures r.Ok? && tokens[1] != "->" && tokens[1] != "-->" ==> r.value == (Upper(tokens[2]), Upper(tokens[0]))
  {
    if |tokens| < 3 then Err(IndexOutOfRange)
    else if tokens[1] == "->" || tokens[1] == "-->" then Ok((Upper(tokens[0]), Upper(tokens[2])))
    else Ok((Upper(tokens[2]), Upper(tokens[0])))
  }

  /** `while i < bound and tokens[i] not in stops: i += 1`: the first index
      from i on whose token is a stop, or bound when there is none. */
  function ScanTo(tokens: seq<string>, bound: nat, i: nat, stops: set<string>): (k: nat)
    requires i <= bound <= |tokens|
    ensures i <= k <= bound
    ensures k < bound ==> tokens[k] in stops
    ensures forall j | i <= j < k :: tokens[j] !in stops
    decreases bound - i
  {
    if i == bound || tokens[i] in stops then i else ScanTo(tokens, bound, i + 1, stops)
  }

  /** The optional `[ guard ]` at index i: the tokens up to the next `]`,
      joined by single spaces, and the index after the `]`. Without a `]`
      before the bound, tokens[bound] is read all the same: past the end of
      the list that is an IndexError, and any other token than `]` there is
      the "Unterminated guard close" error. */
  function GuardAt(tokens: seq<string>, bound: nat, i: nat): Result<(string, nat)>
    requires i <= bound <= |tokens|
  {
    if i < bound && tokens[i] == "[" then
      var k := ScanTo(tokens, bound, i + 1, {"]"});
      if k == |tokens| then Err(IndexOutOfRange)
      else if tokens[k] != "]" then Err(UnterminatedGuard)
      else Ok((Join(tokens[i + 1..k], " "), k + 1))
    else Ok(("", i))
  }

  /** The optional `/ action` at index i: the tokens up to the next `]` or
      the bound, joined by single spaces. */
  function ActionAt(tokens: seq<string>, bound: nat, i: nat): string
    requires bound <= |tokens|
  {
    if i < bound && tokens[i] == "/" then
      var k := ScanTo(tokens, bound, i + 1, {"]"});
      Join(tokens[i + 1..k], " ")
    else ""
  }

  /** The guard is read up to the first `]` after the `[`. A missing `]` is
      an error, and when the cached count is the length of the line (as the
      line reader leaves it) the error is the IndexError, never the
      "Unterminated guard close" one. */
  lemma GuardAtSpec(tokens: seq<string>, bound: nat, i: nat)
    requires i <= bound <= |tokens|
    ensures !(i < bound && tokens[i] == "[") ==> GuardAt(tokens, bound, i) == Ok(("", i))
    ensures i < bound && tokens[i] == "[" ==>
      (GuardAt(tokens, bound, i).Ok? <==> exists k | i < k <= bound && k < |tokens| :: tokens[k] == "]")
    ensures GuardAt(tokens, bound, i).Ok? && i < bound && tokens[i] == "[" ==>
      var (guard, next) := GuardAt(tokens, bound, i).value;
      && i + 1 < next <= bound + 1 && tokens[next - 1] == "]"
      && (forall j | i < j < next - 1 :: tokens[j] != "]")
      && guard == Join(tokens[i + 1..next - 1], " ")
    ensures bound == |tokens| ==> GuardAt(tokens, bound, i) != Err(UnterminatedGuard)
  {
    if i < bound && tokens[i] == "[" {
      var k := ScanTo(tokens, bound, i + 1, {"]"});
      if k < |tokens| && tokens[k] != "]" {
        assert k == bound;
        forall j | i < j <= bound && j < |tokens| ensures tokens[j] != "]" {
          if j < k {
            assert tokens[j] !in {"]"};
          }
        }
      }
    }
  }

  /** The action is read up to the first `]` after the `/`, or to the bound. */
  lemma ActionAtSpec(tokens: seq<string>, bound: nat, i: nat)
    requires bound <= |tokens|
    ensures !(i < bound && tokens[i] == "/") ==> ActionAt(tokens, bound, i) == ""
    ensures i < bound && tokens[i] == "/" ==>
      exists k | i < k <= bound ::
        && (k == bound || tokens[k] == "]")
        && (forall j | i < j < k :: tokens[j] != "]")
        && ActionAt(tokens, bound, i) == Join(tokens[i + 1..k], " ")
  {
    if i < bound && tokens[i] == "/" {
      var k := ScanTo(tokens, bound, i + 1, {"]"});
      forall j | i < j < k ensures tokens[j] != "]" {
        assert tokens[j] !in {"]"};
      }
    }
  }

  /** The edge a transition line stores once its end points are known. */
  function ClauseEdge(m: Machine, origin: Name, destination: Name, asState: bool): (r: Result<(Transition, Chart.EventTable, Option<string>)>)
    requires m.nbTokens <= |m.tokens|
    ensures r.Ok? ==> r.value.0.origin == origin && r.value.0.destination == destination
    ensures r.Ok? && r.value.2.Some? ==> asState && origin == destination
  {
    if !(m.nbTokens > 3 && m.tokens[3] == ":") then
      Ok((Transition(origin, destination, Chart.NoEvent, "", ""), m.events, None))
    else
      var i := ScanTo(m.tokens, m.nbTokens, 4, {"[", "/"});
      match EventOf(m.tokens[4..i])
      case Err(f) => Err(f)
      case Ok(ev) =>
        var events := m.events.Record(ev, origin, destination);
        match GuardAt(m.tokens, m.nbTokens, i)
        case Err(f) => Err(f)
        case Ok((guard, j)) =>
          var action := ActionAt(m.tokens, m.nbTokens, j);
          if asState && origin == destination then
            Ok((Transition(origin, destination, ev, guard, ""), events,
                Some(if action == "" then DummyAction else action)))
          else
            Ok((Transition(origin, destination, ev, guard, action), events, None))
  }

  /** The graph after parse_transition: both end points are states (an
      existing one is kept), an `on` line's action names the origin's event,
      and the edge is stored. */
  function Stored(g0: Graph, origin: Name, destination: Name, tr: Transition, onName: Option<string>): Graph
  {
    var g := g0.AddNode(origin, NewState(origin)).AddNode(destination, NewState(destination));
    var g' := if onName.Some? then g.SetNodeData(origin, g.data[origin].(event := g.data[origin].event.(name := onName.value))) else g;
    g'.SetEdge(origin, destination, tr)
  }

  /** Storing adds both end points and the edge, and changes no other edge
      and no other state. */
  lemma StoredKeeps(g0: Graph, origin: Name, destination: Name, tr: Transition, onName: Option<string>)
    ensures var g := Stored(g0, origin, destination, tr, onName);
      && origin in g.data && destination in g.data
      && g.edges == g0.edges[(origin, destination) := tr]
      && (forall n | n in g0.data && !(onName.Some? && n == origin) :: g.data[n] == g0.data[n])
      && (onName.Some? ==> g.data[origin].event.name == onName.value)
  {
    var g := g0.AddNode(origin, NewState(origin)).AddNode(destination, NewState(destination));
    assert origin in g.data && destination in g.data && g.edges == g0.edges;
    assert forall n | n in g0.data :: g.data[n] == g0.data[n];
  }

  /** Storing keeps the graph well formed. */
  lemma StoredValid(g0: Graph, origin: Name, destination: Name, tr: Transition, onName: Option<string>)
    requires g0.Valid()
    ensures Stored(g0, origin, destination, tr, onName).Valid()
  {
    var g1 := g0.AddNode(origin, NewState(origin));
    DiGraph.AddNodeValid(g0, origin, NewState(origin));
    DiGraph.AddNodeValid(g1, destination, NewState(destination));
    var g := g1.AddNode(destination, NewState(destination));
    assert origin in g.data && destination in g.data;
    var g' := g;
    if onName.Some? {
      var st := g.data[origin].(event := g.data[origin].event.(name := onName.value));
      g' := g.SetNodeData(origin, st);
      DiGraph.SetNodeDataValid(g, origin, st);
    }
    assert g'.Valid() && origin in g'.data && destination in g'.data;
    DiGraph.SetEdgeValid(g', origin, destination, tr);
    assert Stored(g0, origin, destination, tr, onName) == g'.SetEdge(origin, destination, tr);
  }

  /** parse_transition: both end points become states, an origin `[*]` makes
      the destination the initial state, the clauses after `:` give the
      event, guard and action, and the edge is stored. On a state's `on`
      line (asState) a self-loop's action becomes the state's event name
      instead. */
  function ParseTransitionSpec(m: Machine, asState: bool): Result<Machine>
    requires m.nbTokens <= |m.tokens|
  {
    match Ends(m.tokens)
    case Err(f) => Err(f)
    case Ok((origin, destination)) =>
      var initial := if origin == InitialMarker then destination else m.initialState;
      match ClauseEdge(m, origin, destination, asState)
      case Err(f) => Err(f)
      case Ok((tr, events, onName)) =>
        Ok(m.(graph := Stored(m.graph, origin, destination, tr, onName), events := events, initialState := initial))
  }

  /** The event table and the edge's event: a line with a `:` clause
      appends the (origin, destination) pair under the event's name, which
      has no parameter; without one the table is kept and the edge has no
      event, guard or action. */
  lemma ClauseEdgeEvents(m: Machine, o: Name, d: Name, asState: bool)
    requires m.events.Valid() && m.nbTokens <= |m.tokens| && ClauseEdge(m, o, d, asState).Ok?
    ensures var (tr, events, _) := ClauseEdge(m, o, d, asState).value;
      && events.Valid()
      && (!(m.nbTokens > 3 && m.tokens[3] == ":") ==> events == m.events && tr == Transition(o, d, Chart.NoEvent, "", ""))
      && (m.nbTokens > 3 && m.tokens[3] == ":" ==>
            && tr.event.params == []
            && events.pairs[tr.event.name] == (if tr.event.name in m.events.pairs then m.events.pairs[tr.event.name] else []) + [(o, d)]
            && (forall n | n != tr.event.name :: (n in events.pairs <==> n in m.events.pairs)))
  {
    if m.nbTokens > 3 && m.tokens[3] == ":" {
      var i := ScanTo(m.tokens, m.nbTokens, 4, {"[", "/"});
      var ev := EventOf(m.tokens[4..i]).value;
      EventOfFails(m.tokens[4..i]);
      Chart.RecordSpec(m.events, ev, o, d);
    }
  }

  /** parse_transition once the end points and the clauses are known. */
  lemma ParseTransitionUnfold(m: Machine, asState: bool)
    requires m.nbTokens <= |m.tokens| && ParseTransitionSpec(m, asState).Ok?
    ensures Ends(m.tokens).Ok? && ClauseEdge(m, Ends(m.tokens).value.0, Ends(m.tokens).value.1, asState).Ok?
    ensures var (o, d) := Ends(m.tokens).value;
      var (tr, events, onName) := ClauseEdge(m, o, d, asState).value;
      ParseTransitionSpec(m, asState).value
        == m.(graph := Stored(m.graph, o, d, tr, onName), events := events,
              initialState := if o == InitialMarker then d else m.initialState)
  {
  }

  /** parse_transition keeps the invariant. */
  lemma ParseTransitionValid(m: Machine, asState: bool)
    requires MachineValid(m) && ParseTransitionSpec(m, asState).Ok?
    ensures MachineValid(ParseTransitionSpec(m, asState).value)
  {
    ParseTransitionUnfold(m, asState);
    var (o, d) := Ends(m.tokens).value;
    var (tr, events, onName) := ClauseEdge(m, o, d, asState).value;
    StoredValid(m.graph, o, d, tr, onName);
    ClauseEdgeEvents(m, o, d, asState);
  }

  /** A transition line that parses adds its end points without touching an
      existing state (other than the event name an `on` line sets), stores
      one edge between them named after them, replacing any earlier one, and
      keeps every other edge; an origin `[*]` sets the initial state. */
  lemma ParseTransitionShape(m: Machine, asState: bool)
    requires m.nbTokens <= |m.tokens| && ParseTransitionSpec(m, asState).Ok?
    ensures var r := ParseTransitionSpec(m, asState).value;
      var (o, d) := Ends(m.tokens).value;
      && o in r.graph.data && d in r.graph.data && (o, d) in r.graph.edges
      && r.graph.edges[(o, d)].origin == o && r.graph.edges[(o, d)].destination == d
      && (forall e | e in m.graph.edges && e != (o, d) :: e in r.graph.edges && r.graph.edges[e] == m.graph.edges[e])
      && (forall n | n in m.graph.data && !(asState && n == o && o == d) :: r.graph.data[n] == m.graph.data[n])
      && r.initialState == (if o == InitialMarker then d else m.initialState)
      && r.tokens == m.tokens && r.nbTokens == m.nbTokens && r.warnings == m.warnings
  {
    ParseTransitionUnfold(m, asState);
    var (o, d) := Ends(m.tokens).value;
    var (tr, events, onName) := ClauseEdge(m, o, d, asState).value;
    StoredKeeps(m.graph, o, d, tr, onName);
  }

  /** The event table changes only on a line with a `:` clause: the
      (origin, destination) pair is then appended under the event's name, and
      the edge carries that event; without one the edge has no event, guard
      or action. */
  lemma ParseTransitionEvents(m: Machine, asState: bool)
    requires MachineValid(m) && ParseTransitionSpec(m, asState).Ok?
    ensures var r := ParseTransitionSpec(m, asState).value;
      var (o, d) := Ends(m.tokens).value;
      var ev := r.graph.edges[(o, d)].event;
      && r.events.Valid()
      && (!(m.nbTokens > 3 && m.tokens[3] == ":") ==>
            r.events == m.events && r.graph.edges[(o, d)] == Transition(o, d, Chart.NoEvent, "", ""))
      && (m.nbTokens > 3 && m.tokens[3] == ":" ==>
            && ev.params == []
            && r.events.pairs[ev.name] == (if ev.name in m.events.pairs then m.events.pairs[ev.name] else []) + [(o, d)]
            && (forall n | n != ev.name :: (n in r.events.pairs <==> n in m.events.pairs)))
  {
    ParseTransitionUnfold(m, asState);
    var (o, d) := Ends(m.tokens).value;
    var (tr, events, onName) := ClauseEdge(m, o, d, asState).value;
    StoredKeeps(m.graph, o, d, tr, onName);
    ClauseEdgeEvents(m, o, d, asState);
  }

  /** On a state's `on` self-loop the edge keeps no action: what was written
      after `/` names the state's event, and a line without action gets the
      dummy one. */
  lemma ParseTransitionOnSelfLoop(m: Machine)
    requires MachineValid(m) && ParseTransitionSpec(m, true).Ok?
    requires var (o, d) := Ends(m.tokens).value; o == d && m.nbTokens > 3 && m.tokens[3] == ":"
    ensures var r := ParseTransitionSpec(m, true).value;
      var (o, _) := Ends(m.tokens).value;
      var i := ScanTo(m.tokens, m.nbTokens, 4, {"[", "/"});
      var action := ActionAt(m.tokens, m.nbTokens, GuardAt(m.tokens, m.nbTokens, i).value.1);
      && r.graph.edges[(o, o)].action == ""
      && r.graph.data[o].event.name == (if action == "" then DummyAction else action)
      && r.graph.data[o].event.name != ""
  {
    ParseTransitionUnfold(m, true);
    var (o, d) := Ends(m.tokens).value;
    var (tr, events, onName) := ClauseEdge(m, o, d, true).value;
    StoredKeeps(m.graph, o, d, tr, onName);
  }

  // ---------------------------------------------------------------------------
  // parse_state
  // ---------------------------------------------------------------------------

  /** The tokens an `on` line is rewritten to: `name -> name :` followed by
      what came after `on`. */
  function OnLine(name: Name, tokens: seq<string>): (r: seq<string>)
    requires |tokens| >= 3
    ensures |r| == |tokens| + 1
  {
    [name, "->", name, ":"] + tokens[3..]
  }

  /** parse_state, with the count of the rewritten `on` line given by
      nbAfterOn: `entry`/`entering` and `exit`/`leaving` followed by `/` or
      `:` set the entering or leaving action to the rest of the line,
      `comment` sets the comment, `on` is read as a self-loop, `do` is not
      implemented and anything else is a syntax error. The state is created
      first, whatever follows. */
  function ParseStateWith(m: Machine, nbAfterOn: nat): Result<Machine>
    requires m.nbTokens <= |m.tokens| && nbAfterOn <= |m.tokens| + 1
  {
    if |m.tokens| < 3 then Err(IndexOutOfRange)
    else
      var name := Upper(m.tokens[0]);
      var what := Lower(m.tokens[2]);
      var g := m.graph.AddNode(name, NewState(name));
      var st := g.data[name];
      if (what == "entry" || what == "entering" || what == "exit" || what == "leaving") && |m.tokens| < 4 then
        Err(IndexOutOfRange)
      else if (what == "entry" || what == "entering") && (m.tokens[3] == "/" || m.tokens[3] == ":") then
        Ok(m.(graph := g.SetNodeData(name, st.(entering := [Verbatim(Join(m.tokens[4..], " "))]))))
      else if (what == "exit" || what == "leaving") && (m.tokens[3] == "/" || m.tokens[3] == ":") then
        Ok(m.(graph := g.SetNodeData(name, st.(leaving := Join(m.tokens[4..], " ")))))
      else if what == "comment" then
        Ok(m.(graph := g.SetNodeData(name, st.(comment := Join(Drop(m.tokens, 4), " ")))))
      else if what == "on" then
        ParseTransitionSpec(m.(graph := g, tokens := OnLine(name, m.tokens), nbTokens := nbAfterOn), true)
      else if what == "do" then Err(DoActivityNotImplemented)
      else Err(BadStateSyntax)
  }

  /** parse_state as written: the `on` line is rewritten to one token more,
      but the cached count is left at the old length. */
  function ParseStateAsWritten(m: Machine): Result<Machine>
    requires m.nbTokens <= |m.tokens|
  {
    ParseStateWith(m, m.nbTokens)
  }

  /** parse_state with the count of the rewritten line brought up to date. */
  function ParseStateSpec(m: Machine): Result<Machine>
    requires m.nbTokens <= |m.tokens|
  {
    ParseStateWith(m, |m.tokens| + 1)
  }

  /** The scan stops at the first stop, whatever way it is found. */
  lemma ScanToAt(tokens: seq<string>, bound: nat, i: nat, stops: set<string>, k: nat)
    requires i <= k <= bound <= |tokens|
    requires k < bound ==> tokens[k] in stops
    requires forall j | i <= j < k :: tokens[j] !in stops
    ensures ScanTo(tokens, bound, i, stops) == k
  {
  }

  /** A state annotation other than `on` touches only the named state, which
      it creates if needed: `entry` and `exit` lines replace the entering code
      or the leaving action, a `comment` line the comment, and nothing else
      of the state changes. */
  lemma ParseStateKeeps(m: Machine)
    requires m.nbTokens <= |m.tokens| && ParseStateSpec(m).Ok?
    requires Lower(m.tokens[2]) != "on"
    ensures var r := ParseStateSpec(m).value;
      var name := Upper(m.tokens[0]);
      var what := Lower(m.tokens[2]);
      var st := if name in m.graph.data then m.graph.data[name] else NewState(name);
      && r.graph.nodes == m.graph.AddNode(name, NewState(name)).nodes
      && r.graph.succ == m.graph.AddNode(name, NewState(name)).succ
      && r.graph.edges == m.graph.edges && r.events == m.events
      && r.initialState == m.initialState && r.tokens == m.tokens
      && name in r.graph.data
      && (forall n | n in m.graph.data && n != name :: n in r.graph.data && r.graph.data[n] == m.graph.data[n])
      && r.graph.data[name].name == st.name && r.graph.data[name].event == st.event
      && (what == "entry" || what == "entering" ==>
            r.graph.data[name] == st.(entering := [Verbatim(Join(m.tokens[4..], " "))]))
      && (what == "exit" || what == "leaving" ==>
            r.graph.data[name] == st.(leaving := Join(m.tokens[4..], " ")))
      && (what == "comment" ==> r.graph.data[name] == st.(comment := Join(Drop(m.tokens, 4), " ")))
  {
  }

  /** The clauses of a rewritten `on` line `name -> name : ev / act`, read
      up to the count nb: the event is ev, there is no guard, and the action
      is made of the action tokens before nb. */
  lemma OnLineClauses(name: Name, ev: seq<string>, act: seq<string>, nb: nat)
    requires |ev| >= 1 && |act| >= 1
    requires forall j | 0 <= j < |ev| :: ev[j] != "[" && ev[j] != "/"
    requires forall j | 0 <= j < |act| :: act[j] != "]"
    requires nb == 4 + |ev| + |act| || nb == 5 + |ev| + |act|
    ensures var tokens := [name, "->", name, ":"] + ev + ["/"] + act;
      var slash := 4 + |ev|;
      && nb <= |tokens| && nb > 3 && tokens[3] == ":"
      && Ends(tokens) == Ok((Upper(name), Upper(name)))
      && ScanTo(tokens, nb, 4, {"[", "/"}) == slash && tokens[4..slash] == ev
      && GuardAt(tokens, nb, slash) == Ok(("", slash))
      && ActionAt(tokens, nb, slash) == Join(if nb == |tokens| then act else act[..|act| - 1], " ")
  {
    var tokens := [name, "->", name, ":"] + ev + ["/"] + act;
    var slash := 4 + |ev|;
    assert tokens[slash] == "/" && slash < nb;
    forall j | 4 <= j < slash ensures tokens[j] !in {"[", "/"} {
      assert tokens[j] == ev[j - 4];
    }
    ScanToAt(tokens, nb, 4, {"[", "/"}, slash);
    assert tokens[4..slash] == ev;
    forall j | slash + 1 <= j < nb ensures tokens[j] !in {"]"} {
      assert tokens[j] == act[j - slash - 1];
    }
    ScanToAt(tokens, nb, slash + 1, {"]"}, nb);
    assert tokens[slash + 1..nb] == if nb == |tokens| then act else act[..|act| - 1];
  }

  /** An `on` line is read as the transition it is rewritten to. */
  lemma ParseStateOn(m: Machine, nb: nat)
    requires m.nbTokens <= |m.tokens| && |m.tokens| >= 3 && Lower(m.tokens[2]) == "on" && nb <= |m.tokens| + 1
    ensures var name := Upper(m.tokens[0]);
      ParseStateWith(m, nb)
        == ParseTransitionSpec(m.(graph := m.graph.AddNode(name, NewState(name)), tokens := OnLine(name, m.tokens), nbTokens := nb), true)
  {
  }

  lemma OnLineSplit(name: Name, tokens: seq<string>, ev: seq<string>, act: seq<string>)
    requires |tokens| >= 3 && tokens[3..] == ev + ["/"] + act
    ensures OnLine(name, tokens) == [name, "->", name, ":"] + ev + ["/"] + act
  {
  }

  /** What reading an `on` line of state name with event tokens ev and action
      text action yields: a self-loop on the state carrying the event and no
      action, and the state's event named after the action (the dummy action
      when there is none). */
  ghost predicate OnLineOutcome(r: Result<Machine>, name: Name, ev: seq<string>, action: string) {
    && EventOf(ev).Ok? && r.Ok?
    && (name, name) in r.value.graph.edges && name in r.value.graph.data
    && r.value.graph.edges[(name, name)] == Transition(name, name, EventOf(ev).value, "", "")
    && r.value.graph.data[name].event.name == (if action == "" then DummyAction else action)
  }

  /** The rewritten `on` line `S -> S : ev / act`, read up to the count nb:
      the state's event is named after the action tokens read, which are
      all of them when nb counts the rewritten line and all but the last when
      it counts the original one. */
  lemma OnLineRead(m: Machine, ev: seq<string>, act: seq<string>, nb: nat)
    requires m.nbTokens <= |m.tokens| && |m.tokens| >= 3 && Lower(m.tokens[2]) == "on"
    requires m.tokens[3..] == ev + ["/"] + act
    requires |ev| >= 1 && |act| >= 1
    requires forall j | 0 <= j < |ev| :: ev[j] != "[" && ev[j] != "/"
    requires forall j | 1 <= j < |ev| :: !Breaks(ev[j])
    requires forall j | 0 <= j < |act| :: act[j] != "]"
    requires nb == |m.tokens| || nb == |m.tokens| + 1
    ensures nb == |m.tokens| + 1 ==> OnLineOutcome(ParseStateSpec(m), Upper(m.tokens[0]), ev, Join(act, " "))
    ensures nb == m.nbTokens == |m.tokens| ==> OnLineOutcome(ParseStateAsWritten(m), Upper(m.tokens[0]), ev, Join(act[..|act| - 1], " "))
  {
    var name := Upper(m.tokens[0]);
    var g := m.graph.AddNode(name, NewState(name));
    var tokens := OnLine(name, m.tokens);
    var m' := m.(graph := g, tokens := tokens, nbTokens := nb);
    ParseStateOn(m, nb);
    OnLineSplit(name, m.tokens, ev, act);
    OnLineClauses(name, ev, act, nb);
    UpperIdempotent(m.tokens[0]);
    EventOfFails(ev);
    var ev' := EventOf(ev).value;
    var action := Join(if nb == |m.tokens| + 1 then act else act[..|act| - 1], " ");
    var onName := Some(if action == "" then DummyAction else action);
    var tr := Transition(name, name, ev', "", "");
    assert ClauseEdge(m', name, name, true) == Ok((tr, m.events.Record(ev', name, name), onName));
    ParseTransitionUnfold(m', true);
    StoredKeeps(g, name, name, tr, onName);
  }

  /** parse_state as written reads the rewritten `on` line only up to the old
      count, one token short: the last token of the action is lost, and a
      one-token action such as `S : on evt / go` leaves the dummy action as
      the state's event name. */
  lemma ParseStateOnDropsLastToken(m: Machine, ev: seq<string>, act: seq<string>)
    requires m.nbTokens == |m.tokens| && |m.tokens| >= 3 && Lower(m.tokens[2]) == "on"
    requires m.tokens[3..] == ev + ["/"] + act
    requires |ev| >= 1 && |act| >= 1
    requires forall j | 0 <= j < |ev| :: ev[j] != "[" && ev[j] != "/"
    requires forall j | 1 <= j < |ev| :: !Breaks(ev[j])
    requires forall j | 0 <= j < |act| :: act[j] != "]"
    ensures OnLineOutcome(ParseStateAsWritten(m), Upper(m.tokens[0]), ev, Join(act[..|act| - 1], " "))
    ensures |act| == 1 ==> OnLineOutcome(ParseStateAsWritten(m), Upper(m.tokens[0]), ev, "")
  {
    OnLineRead(m, ev, act, m.nbTokens);
  }

  /** With the count brought up to date, the whole action after `/` names
      the state's event. */
  lemma ParseStateOnReadsAction(m: Machine, ev: seq<string>, act: seq<string>)
    requires m.nbTokens <= |m.tokens| && |m.tokens| >= 3 && Lower(m.tokens[2]) == "on"
    requires m.tokens[3..] == ev + ["/"] + act
    requires |ev| >= 1 && |act| >= 1
    requires forall j | 0 <= j < |ev| :: ev[j] != "[" && ev[j] != "/"
    requires forall j | 1 <= j < |ev| :: !Breaks(ev[j])
    requires forall j | 0 <= j < |act| :: act[j] != "]"
    ensures OnLineOutcome(ParseStateSpec(m), Upper(m.tokens[0]), ev, Join(act, " "))
  {
    OnLineRead(m, ev, act, |m.tokens| + 1);
  }
}
