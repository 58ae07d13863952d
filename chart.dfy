/**
 * The records the translator builds while reading a PlantUML state diagram
 * (translator/statecharts.py): events, transitions (graph edges), states
 * (graph nodes), extra C++ code slots, the event lookup table, and the pure
 * pieces of the parser that normalise names.
 */
module Chart {
  import opened Outcomes
  import opened Text
  import DiGraph

  type Name = string

  /** The pseudo state a diagram starts from, and the one it ends in. */
  const InitialMarker: Name := "[*]"
  const FinalMarker: Name := "*"

  /** An event: its C++ method name and its parameter names. Two events are the
      same event when their names are equal; the parameters do not take part. */
  datatype Event = Event(name: string, params: seq<string>)

  /** The event of an edge written without one. */
  const NoEvent := Event("", [])

  /** A graph edge: `origin -> destination : event [ guard ] / action`, plus the
      number of times the generated tests expect the guard and action mocks to run. */
  datatype Transition = Transition(
    origin: Name, destination: Name, event: Event, guard: string, action: string,
    countGuard: nat, countAction: nat)

  function NewTransition(): Transition {
    Transition("", "", NoEvent, "", "", 0, 0)
  }

  /** One piece of the internal-transition code that manage_noevents writes
      into a state; the C++ text of each piece is not modelled. */
  datatype Stmt =
    | IfGuard(origin: Name, destination: Name)             // `if (onGuardingTransitionO_D())`
    | MissingGuardWarning(origin: Name, destination: Name) // `#warning` + `/* MISSING GUARD */`
    | UndeterministWarning(origin: Name, destination: Name)// `#warning "Undeterminist ..."`
    | Fire(origin: Name, destination: Name, hasAction: bool) // `{ static const Transition tr = ...; transition(&tr); return ; }`

  /** A graph node. */
  datatype State = State(
    name: Name, comment: string, entering: string, leaving: string, activity: string,
    internal: seq<Stmt>, countEntering: nat, countLeaving: nat)

  function NewState(name: Name): (st: State)
    ensures st.name == name
  {
    State(name, "", "", "", "", [], 0, 0)
  }

  /** C++ code copied verbatim into the generated files. */
  datatype ExtraCode = ExtraCode(
    header: string, footer: string, argvs: string, init: string, functions: string, unitTests: string)

  const NoExtraCode := ExtraCode("", "", "", "", "", "")

  /** What the translator warns about; the message text is not modelled. */
  datatype Warning =
    | NoNamedEvent                                    // verify_number_of_events
    | NonDeterministic(state: Name, destination: Name) // verify_transitions
    | InfiniteLoop(cycle: seq<Name>)                   // verify_infinite_loops

  type Graph = DiGraph.Graph<State, Transition>

  /** Every node payload is named after its node (add_state creates State(name)). */
  ghost predicate NamesMatch(g: Graph) {
    forall n | n in g.data :: g.data[n].name == n
  }

  /** state_name: the C++ enum name of a state. */
  function StateName(state: Name): (r: string)
    ensures state == InitialMarker ==> r == "CONSTRUCTOR"
    ensures state == FinalMarker ==> r == "DESTRUCTOR"
    ensures state != InitialMarker && state != FinalMarker ==> r == state
  {
    if state == InitialMarker then "CONSTRUCTOR"
    else if state == FinalMarker then "DESTRUCTOR"
    else state
  }

  /** Two distinct states share a C++ name only when one of them is a pseudo
      state and the other is literally called after it. */
  lemma StateNameCollision(a: Name, b: Name)
    requires a != b && StateName(a) == StateName(b)
    ensures {a, b} == {InitialMarker, "CONSTRUCTOR"} || {a, b} == {FinalMarker, "DESTRUCTOR"}
  {
  }

  // ---------------------------------------------------------------------------
  // parse_event
  // ---------------------------------------------------------------------------

  /** t.capitalize() for each token, concatenated. */
  function CapitalizeAll(ts: seq<string>): (r: string)
    ensures Lower(r) == Lower(Concat(ts))
  {
    if ts == [] then ""
    else
      LowerAppend(Capitalize(ts[0]), CapitalizeAll(ts[1..]));
      LowerAppend(ts[0], Concat(ts[1..]));
      LowerCapitalize(ts[0]);
      Capitalize(ts[0]) + CapitalizeAll(ts[1..])
  }

  /** CapitalizeAll capitalises each token on its own: every token starts
      upper-cased and goes on lower-cased in the result. */
  lemma {:induction false} CapitalizeAllPieces(ts: seq<string>)
    ensures CapitalizeAll(ts) == Concat(seq(|ts|, i requires 0 <= i < |ts| => Capitalize(ts[i])))
  {
    if ts != [] {
      CapitalizeAllPieces(ts[1..]);
      var cs := seq(|ts|, i requires 0 <= i < |ts| => Capitalize(ts[i]));
      assert cs[1..] == seq(|ts| - 1, i requires 0 <= i < |ts| - 1 => Capitalize(ts[1..][i]));
    }
  }

  /** parse_event as written: an event name from the tokens between the
      arrow's `:` and the guard. A trailing `)` on the last token introduces
      comma-separated parameters; `f()` yields the single parameter "". */
  function ParseEventAsWritten(tokens: seq<string>): Result<Event>
  {
    var n := |tokens|;
    if n == 0 then Ok(NoEvent)
    else if tokens[n - 1] == "" then Err(IndexOutOfRange)
    else if tokens[n - 1][|tokens[n - 1]| - 1] != ')' then
      Ok(Event(Lower(tokens[0]) + CapitalizeAll(tokens[1..]), []))
    else
      var splits := Split(tokens[n - 1], '(');
      if |splits| < 2 then Err(IndexOutOfRange)
      else
        var params := Split(DropLast(splits[1]), ',');
        if n == 1 then Ok(Event(splits[0], params))
        else Ok(Event(Lower(tokens[0]) + CapitalizeAll(tokens[1..n - 1]) + Capitalize(splits[0]), params))
  }

  /** parse_event with an empty parameter list read as no parameter. */
  function ParseEvent(tokens: seq<string>): Result<Event>
  {
    match ParseEventAsWritten(tokens)
    case Ok(ev) => Ok(if ev.params == [""] then ev.(params := []) else ev)
    case Err(f) => Err(f)
  }

  /** No tokens: the anonymous event. */
  lemma ParseEventEmpty()
    ensures ParseEvent([]) == Ok(NoEvent)
  {
  }

  /** Without a trailing `)`: no parameters, the first token lower-cased, the
      others capitalised, so the name spells the tokens up to letter case. */
  lemma ParseEventPlain(tokens: seq<string>)
    requires |tokens| >= 1
    requires tokens[|tokens| - 1] != "" && tokens[|tokens| - 1][|tokens[|tokens| - 1]| - 1] != ')'
    ensures ParseEvent(tokens).Ok?
    ensures ParseEvent(tokens).value.params == []
    ensures Lower(ParseEvent(tokens).value.name) == Lower(Concat(tokens))
    ensures forall i | 0 <= i < |tokens[0]| :: !IsUpper(ParseEvent(tokens).value.name[i])
    ensures ParseEvent(tokens).value.name
            == Lower(tokens[0]) + Concat(seq(|tokens| - 1, i requires 0 <= i < |tokens| - 1 => Capitalize(tokens[i + 1])))
  {
    var name := ParseEvent(tokens).value.name;
    assert name == Lower(tokens[0]) + CapitalizeAll(tokens[1..]);
    CapitalizeAllPieces(tokens[1..]);
    assert seq(|tokens| - 1, i requires 0 <= i < |tokens| - 1 => Capitalize(tokens[i + 1]))
        == seq(|tokens[1..]|, i requires 0 <= i < |tokens[1..]| => Capitalize(tokens[1..][i]));
    LowerAppend(Lower(tokens[0]), CapitalizeAll(tokens[1..]));
    LowerAppend(tokens[0], Concat(tokens[1..]));
    LowerIdempotent(tokens[0]);
  }

  /** A trailing `)` with no `(` anywhere in the last token is an IndexError. */
  lemma ParseEventNoOpeningParenthesis(tokens: seq<string>)
    requires |tokens| >= 1
    requires tokens[|tokens| - 1] != "" && tokens[|tokens| - 1][|tokens[|tokens| - 1]| - 1] == ')'
    requires '(' !in tokens[|tokens| - 1]
    ensures ParseEvent(tokens) == Err(IndexOutOfRange)
  {
  }

  /** With a last token `stem(inner)`: the parameters are the comma-separated
      pieces of inner, none when inner is empty, and the stem ends the name. */
  lemma {:induction false} ParseEventWithParams(tokens: seq<string>, stem: string, inner: string)
    requires |tokens| >= 1 && tokens[|tokens| - 1] == stem + "(" + inner + ")"
    requires '(' !in stem && '(' !in inner
    ensures ParseEvent(tokens).Ok?
    ensures var ev := ParseEvent(tokens).value;
      && (inner == "" <==> ev.params == [])
      && (inner != "" ==> Join(ev.params, ",") == inner)
      && (forall i | 0 <= i < |ev.params| :: ',' !in ev.params[i])
      && (|tokens| == 1 ==> ev.name == stem)
      && (|tokens| > 1 ==> ev.name == Lower(tokens[0]) + CapitalizeAll(tokens[1..|tokens| - 1]) + Capitalize(stem))
  {
    var last := tokens[|tokens| - 1];
    assert last == stem + ['('] + (inner + ")");
    assert ')' !in "(";
    assert '(' !in inner + ")" by {
      forall i | 0 <= i < |inner + ")"| ensures (inner + ")")[i] != '(' {
        if i < |inner| { assert (inner + ")")[i] == inner[i]; }
      }
    }
    SplitJoin([stem, inner + ")"], '(');
    assert Join([stem, inner + ")"], "(") == last;
    assert Split(last, '(') == [stem, inner + ")"];
    assert DropLast(inner + ")") == inner;
    var pieces := Split(inner, ',');
    if inner == "" {
      assert pieces == [""];
    } else {
      assert Join(pieces, ",") == inner;
    }
  }

  /** An empty parameter list as written: `f()` becomes `f` with one unnamed parameter. */
  lemma ParseEventAsWrittenEmptyParameters()
    ensures ParseEventAsWritten(["f()"]) == Ok(Event("f", [""]))
  {
    SplitJoin(["f", ")"], '(');
    assert Join(["f", ")"], "(") == "f()";
    assert Split("", ',') == [""];
  }

  // ---------------------------------------------------------------------------
  // lookup_events
  // ---------------------------------------------------------------------------

  /** `defaultdict(list)` keyed by Event: keys in insertion order, the first
      Event object of a name stays the key, values are (origin, destination) pairs. */
  datatype EventTable = EventTable(keys: seq<Event>, pairs: map<string, seq<(Name, Name)>>)
  {
    ghost predicate Valid() {
      && (forall i, j | 0 <= i < j < |keys| :: keys[i].name != keys[j].name)
      && pairs.Keys == set e | e in keys :: e.name
    }

    /** lookup_events[ev].append((origin, destination)) */
    function Record(ev: Event, origin: Name, destination: Name): EventTable
    {
      if ev.name in pairs then this.(pairs := pairs[ev.name := pairs[ev.name] + [(origin, destination)]])
      else EventTable(keys + [ev], pairs[ev.name := [(origin, destination)]])
    }

    /** Some key has a non-empty name (verify_number_of_events). */
    predicate HasNamedEvent() {
      exists e | e in keys :: e.name != ""
    }
  }

  const NoEvents := EventTable([], map[])

  /** Recording keeps one key per name, keeps the first key of a name, appends
      the pair to that name's list, and touches no other name. */
  lemma RecordSpec(t: EventTable, ev: Event, origin: Name, destination: Name)
    requires t.Valid()
    ensures t.Record(ev, origin, destination).Valid()
    ensures t.Record(ev, origin, destination).pairs[ev.name]
            == (if ev.name in t.pairs then t.pairs[ev.name] else []) + [(origin, destination)]
    ensures forall n | n != ev.name :: (n in t.pairs <==> n in t.Record(ev, origin, destination).pairs)
    ensures forall n | n in t.pairs && n != ev.name :: t.Record(ev, origin, destination).pairs[n] == t.pairs[n]
    ensures ev.name in t.pairs ==> t.Record(ev, origin, destination).keys == t.keys
    ensures ev.name !in t.pairs ==> t.Record(ev, origin, destination).keys == t.keys + [ev]
  {
    var r := t.Record(ev, origin, destination);
    if ev.name !in t.pairs {
      assert r.pairs.Keys == t.pairs.Keys + {ev.name};
      assert (set e | e in r.keys :: e.name) == (set e | e in t.keys :: e.name) + {ev.name};
      forall i, j | 0 <= i < j < |r.keys| ensures r.keys[i].name != r.keys[j].name {
        if j == |r.keys| - 1 {
          assert r.keys[i] in t.keys;
        }
      }
    }
  }

  // ---------------------------------------------------------------------------
  // parse_state and parse_extra_code inputs
  // ---------------------------------------------------------------------------

  /** One child of a parsed `state : ...` line: its rule name and its tokens. */
  datatype Clause = Clause(data: string, children: seq<string>)

  /** The tokens parse_state hands to parse_transition for an `on` line: per
      clause `#rule` and its token, or for an event `#event`, the number of
      event tokens and the tokens. A clause without a token is an IndexError. */
  function FlattenClauses(clauses: seq<Clause>): (r: Result<seq<string>>)
    ensures r.Ok? <==> forall i | 0 <= i < |clauses| :: clauses[i].data == "event" || clauses[i].children != []
  {
    if clauses == [] then Ok([])
    else
      var c := clauses[0];
      var head := if c.data != "event" then (if c.children == [] then [] else ["#" + c.data, c.children[0]])
                  else ["#event", NatToString(|c.children|)] + c.children;
      if c.data != "event" && c.children == [] then Err(IndexOutOfRange)
      else match FlattenClauses(clauses[1..])
        case Ok(rest) => Ok(head + rest)
        case Err(f) => Err(f)
  }
}
