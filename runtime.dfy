/**
 * The runtime base class of the generated state machines
 * (include/StateMachine.hpp): the current state, the initial state, the
 * table of state callbacks and the `m_nesting` queue that turns a
 * transition requested from inside a callback into one more turn of the
 * do-while loop instead of a recursive call.
 *
 * The callbacks are member functions of the derived class. Here a callback
 * is a number, and what it does is decided by an environment: the value a
 * guard returns and the transitions a callback requests while it runs, both
 * as functions of the callback and of the length of the trace when it is
 * called. The trace records every callback run, in order, with the state
 * the machine is in while it runs.
 */
module Runtime {
  import opened Outcomes

  /** A value of the STATES_ID enumeration. */
  type StateId = nat

  /** A member function pointer (`bFuncPtr` or `xFuncPtr`). */
  type Callback = nat

  /** `struct Transition`: a destination, an optional guard and an optional
      action (a null pointer is None). */
  datatype Transition = Transition(destination: StateId, guard: Option<Callback>, action: Option<Callback>)

  /** `struct State`: optional entering and leaving callbacks. */
  datatype StateCallbacks = StateCallbacks(entering: Option<Callback>, leaving: Option<Callback>)

  /** A call of `transition` made by a callback: the table version looks the
      current state up, the pointer version names the transition. */
  datatype Request = Table(transitions: map<StateId, Transition>) | Direct(transition: Transition)

  datatype CallKind = GuardCall | ActionCall | LeavingCall | EnteringCall

  /** One callback run: its kind, which callback, and the current state
      while it ran. */
  datatype Call = Call(kind: CallKind, callback: Callback, at: StateId)

  /** What the callbacks do: the result of a guard, and the transitions a
      callback requests while it runs, given the trace length at the call. */
  datatype Env = Env(guardResult: (Callback, nat) -> bool, requests: (Callback, nat) -> seq<Request>)

  /** Why the process exits (`exit(EXIT_FAILURE)`). */
  datatype Abort =
    | ForbiddenEvent      // destination CANNOT_HAPPEN
    | UnknownState        // destination >= MAX_STATES
    | InfiniteLoop        // the nesting queue reached 16 entries

  datatype Outcome = Returned | Aborted(why: Abort) | OutOfFuel

  /** The mutable part of the machine: m_current_state, m_nesting, and the
      trace of callbacks run so far. */
  datatype Config = Config(current: StateId, nesting: seq<Transition>, trace: seq<Call>)

  /** The queue length at which a nested request aborts. */
  const NestingLimit: nat := 16

  /** The fixed part: MAX_STATES and the table m_states. The enumeration
      ends with IGNORING_EVENT, CANNOT_HAPPEN, MAX_STATES. */
  datatype Layout = Layout(maxStates: nat, states: seq<StateCallbacks>)
  {
    ghost predicate Valid() {
      maxStates >= 2 && |states| == maxStates
    }

    function IgnoringEvent(): StateId
      requires Valid()
    {
      maxStates - 2
    }

    function CannotHappen(): StateId
      requires Valid()
    {
      maxStates - 1
    }
  }

  /** The transition a request names in state current, if any. */
  function Resolve(req: Request, current: StateId): Option<Transition>
  {
    match req
    case Direct(tr) => Some(tr)
    case Table(t) => if current in t then Some(t[current]) else None
  }

  /** The requests of one callback, queued in order while the queue is not
      empty; None when one of them brings the queue to the limit. */
  function Queue(nesting: seq<Transition>, reqs: seq<Request>, current: StateId): Option<seq<Transition>>
    decreases |reqs|
  {
    if reqs == [] then Some(nesting)
    else
      match Resolve(reqs[0], current)
      case None => Queue(nesting, reqs[1..], current)
      case Some(tr) =>
        if |nesting + [tr]| >= NestingLimit then None
        else Queue(nesting + [tr], reqs[1..], current)
  }

  /** Running one callback: it is recorded in the trace, then its requests
      are queued. None when that aborts. */
  function Invoke(env: Env, c: Config, kind: CallKind, cb: Callback): (r: Option<Config>)
    ensures r.Some? ==> r.value.current == c.current && |r.value.nesting| >= |c.nesting|
  {
    var reqs := env.requests(cb, |c.trace|);
    QueueIff(c.nesting, reqs, c.current);
    match Queue(c.nesting, reqs, c.current)
    case None => None
    case Some(q) => Some(Config(c.current, q, c.trace + [Call(kind, cb, c.current)]))
  }

  /** Running an optional callback: nothing happens without one. */
  function InvokeOpt(env: Env, c: Config, kind: CallKind, cb: Option<Callback>): (r: Option<Config>)
    ensures r.Some? ==> r.value.current == c.current && |r.value.nesting| >= |c.nesting|
  {
    if cb.None? then Some(c) else Invoke(env, c, kind, cb.value)
  }

  datatype StepResult = Next(next: Config) | Ignored(stay: Config) | Stopped(why: Abort)

  /** One turn of the do-while loop on the front of the queue. */
  function Step(env: Env, lay: Layout, c: Config): (r: StepResult)
    requires lay.Valid() && c.current < lay.maxStates && c.nesting != []
    ensures r.Next? ==> r.next.current < lay.maxStates
    ensures r.Ignored? <==> c.nesting[0].destination == lay.IgnoringEvent()
    ensures r.Ignored? ==> r.stay == c
  {
    var tr := c.nesting[0];
    if tr.destination == lay.CannotHappen() then Stopped(ForbiddenEvent)
    else if tr.destination == lay.IgnoringEvent() then Ignored(c)
    else if tr.destination >= lay.maxStates then Stopped(UnknownState)
    else
      var cst := lay.states[c.current];
      var nst := lay.states[tr.destination];
      var guarded := InvokeOpt(env, c, GuardCall, tr.guard);
      if guarded.None? then Stopped(InfiniteLoop)
      else if tr.guard.Some? && !env.guardResult(tr.guard.value, |c.trace|) then
        Next(guarded.value.(nesting := guarded.value.nesting[1..]))
      else
        var previous := c.current;
        var moved := guarded.value.(current := tr.destination);
        match InvokeOpt(env, moved, ActionCall, tr.action)
        case None => Stopped(InfiniteLoop)
        case Some(acted) =>
          if previous == tr.destination then Next(acted.(nesting := acted.nesting[1..]))
          else
            match InvokeOpt(env, acted, LeavingCall, cst.leaving)
            case None => Stopped(InfiniteLoop)
            case Some(left) =>
              match InvokeOpt(env, left, EnteringCall, nst.entering)
              case None => Stopped(InfiniteLoop)
              case Some(entered) => Next(entered.(nesting := entered.nesting[1..]))
  }

  /** The do-while loop, for at most fuel turns. */
  function Run(env: Env, lay: Layout, c: Config, fuel: nat): (Outcome, Config)
    requires lay.Valid() && c.current < lay.maxStates
    decreases fuel
  {
    if c.nesting == [] then (Returned, c)
    else if fuel == 0 then (OutOfFuel, c)
    else
      match Step(env, lay, c)
      case Stopped(why) => (Aborted(why), c)
      case Ignored(stay) => (Returned, stay)
      case Next(next) => Run(env, lay, next, fuel - 1)
  }

  /** `transition(Transition const*)`: queued when called from a callback
      (the queue is not empty), otherwise the loop runs from a queue holding
      just this transition. */
  function Fire(env: Env, lay: Layout, c: Config, tr: Transition, fuel: nat): (Outcome, Config)
    requires lay.Valid() && c.current < lay.maxStates
  {
    if c.nesting != [] then
      var queued := c.(nesting := c.nesting + [tr]);
      (if |queued.nesting| >= NestingLimit then Aborted(InfiniteLoop) else Returned, queued)
    else Run(env, lay, c.(nesting := [tr]), fuel)
  }

  /** `transition(Transitions const&)`: the entry for the current state, or
      nothing at all when there is none. */
  function Dispatch(env: Env, lay: Layout, c: Config, transitions: map<StateId, Transition>, fuel: nat): (Outcome, Config)
    requires lay.Valid() && c.current < lay.maxStates
  {
    if c.current in transitions then Fire(env, lay, c, transitions[c.current], fuel)
    else (Returned, c)
  }

  /** The transitions a callback's requests name, in order. */
  function Resolved(reqs: seq<Request>, current: StateId): seq<Transition>
    decreases |reqs|
  {
    if reqs == [] then []
    else
      (match Resolve(reqs[0], current) case None => [] case Some(tr) => [tr])
      + Resolved(reqs[1..], current)
  }

  /** The requests of a callback go to the back of the queue in the order
      they were made, and the process aborts exactly when they bring the
      queue to 16 entries. */
  ghost predicate QueuesAll(nesting: seq<Transition>, reqs: seq<Request>, current: StateId)
  {
    var added := Resolved(reqs, current);
    Queue(nesting, reqs, current) ==
      if added != [] && |nesting| + |added| >= NestingLimit then None else Some(nesting + added)
  }

  lemma {:induction false} QueueIff(nesting: seq<Transition>, reqs: seq<Request>, current: StateId)
    decreases |reqs|
    ensures QueuesAll(nesting, reqs, current)
  {
    if reqs == [] {
      assert nesting + [] == nesting;
    } else {
      match Resolve(reqs[0], current)
      case None =>
        QueueIff(nesting, reqs[1..], current);
        QueueSkips(nesting, reqs, current);
      case Some(tr) =>
        if |nesting + [tr]| < NestingLimit {
          QueueIff(nesting + [tr], reqs[1..], current);
        }
        QueuePushes(nesting, reqs, current, tr);
    }
  }

  /** A request that names no transition leaves the queue as it is. */
  lemma QueueSkips(nesting: seq<Transition>, reqs: seq<Request>, current: StateId)
    requires reqs != [] && Resolve(reqs[0], current).None?
    requires QueuesAll(nesting, reqs[1..], current)
    ensures QueuesAll(nesting, reqs, current)
  {
    assert Resolved(reqs, current) == Resolved(reqs[1..], current);
  }

  /** A request that names a transition appends it, or aborts at the limit. */
  lemma QueuePushes(nesting: seq<Transition>, reqs: seq<Request>, current: StateId, tr: Transition)
    requires reqs != [] && Resolve(reqs[0], current) == Some(tr)
    requires |nesting + [tr]| < NestingLimit ==> QueuesAll(nesting + [tr], reqs[1..], current)
    ensures QueuesAll(nesting, reqs, current)
  {
    var rest := Resolved(reqs[1..], current);
    assert Resolved(reqs, current) == [tr] + rest;
    assert nesting + [tr] + rest == nesting + ([tr] + rest);
  }

  /** The calls an optional callback adds to the trace. */
  function CallOf(kind: CallKind, cb: Option<Callback>, at: StateId): seq<Call>
  {
    if cb.None? then [] else [Call(kind, cb.value, at)]
  }

  /** An optional callback that does not abort adds its call, if any, to the
      trace, queues its requests behind the queue, and keeps the state. */
  lemma InvokeOptSpec(env: Env, c: Config, kind: CallKind, cb: Option<Callback>)
    ensures var r := InvokeOpt(env, c, kind, cb);
      r.Some? ==> r.value.current == c.current && r.value.trace == c.trace + CallOf(kind, cb, c.current)
                  && r.value.nesting[..|c.nesting|] == c.nesting && |r.value.nesting| >= |c.nesting|
                  && (|r.value.nesting| == |c.nesting| || |r.value.nesting| < NestingLimit)
  {
    if cb.Some? {
      QueueIff(c.nesting, env.requests(cb.value, |c.trace|), c.current);
    }
  }

  /** A guard that refuses: the state stays, and the guard is the only
      callback run. */
  lemma StepRefused(env: Env, lay: Layout, c: Config)
    requires lay.Valid() && c.current < lay.maxStates && c.nesting != []
    requires var tr := c.nesting[0];
      tr.guard.Some? && !env.guardResult(tr.guard.value, |c.trace|)
    requires Step(env, lay, c).Next?
    ensures var n := Step(env, lay, c).next;
      n.current == c.current && n.trace == c.trace + [Call(GuardCall, c.nesting[0].guard.value, c.current)]
  {
    InvokeOptSpec(env, c, GuardCall, c.nesting[0].guard);
  }

  /** A transition that fires to another state: the state becomes the
      destination before the action runs, then the previous state's leaving
      callback and the destination's entering callback run, in that order. */
  lemma StepFires(env: Env, lay: Layout, c: Config)
    requires lay.Valid() && c.current < lay.maxStates && c.nesting != []
    requires var tr := c.nesting[0];
      tr.guard.None? || env.guardResult(tr.guard.value, |c.trace|)
    requires c.nesting[0].destination != c.current
    requires Step(env, lay, c).Next?
    ensures var tr := c.nesting[0];
      var n := Step(env, lay, c).next;
      && n.current == tr.destination
      && n.trace == c.trace + CallOf(GuardCall, tr.guard, c.current) + CallOf(ActionCall, tr.action, tr.destination)
                    + CallOf(LeavingCall, lay.states[c.current].leaving, tr.destination)
                    + CallOf(EnteringCall, lay.states[tr.destination].entering, tr.destination)
  {
    var tr := c.nesting[0];
    var guarded := InvokeOpt(env, c, GuardCall, tr.guard);
    InvokeOptSpec(env, c, GuardCall, tr.guard);
    var moved := guarded.value.(current := tr.destination);
    var acted := InvokeOpt(env, moved, ActionCall, tr.action);
    InvokeOptSpec(env, moved, ActionCall, tr.action);
    var left := InvokeOpt(env, acted.value, LeavingCall, lay.states[c.current].leaving);
    InvokeOptSpec(env, acted.value, LeavingCall, lay.states[c.current].leaving);
    InvokeOptSpec(env, left.value, EnteringCall, lay.states[tr.destination].entering);
  }

  /** A self-transition runs its guard and its action and neither the
      leaving nor the entering callback. */
  lemma StepSelfTransition(env: Env, lay: Layout, c: Config)
    requires lay.Valid() && c.current < lay.maxStates && c.nesting != []
    requires var tr := c.nesting[0];
      tr.guard.None? || env.guardResult(tr.guard.value, |c.trace|)
    requires c.nesting[0].destination == c.current
    requires Step(env, lay, c).Next?
    ensures var tr := c.nesting[0];
      var n := Step(env, lay, c).next;
      n.current == c.current
      && n.trace == c.trace + CallOf(GuardCall, tr.guard, c.current) + CallOf(ActionCall, tr.action, c.current)
  {
    var tr := c.nesting[0];
    var guarded := InvokeOpt(env, c, GuardCall, tr.guard);
    InvokeOptSpec(env, c, GuardCall, tr.guard);
    InvokeOptSpec(env, guarded.value.(current := tr.destination), ActionCall, tr.action);
  }

  /** The queue is first in, first out: a turn removes the front and keeps
      the rest of the queue ahead of whatever the callbacks requested; a
      queue that stays under the limit before a turn is under it after. */
  lemma StepQueue(env: Env, lay: Layout, c: Config)
    requires lay.Valid() && c.current < lay.maxStates && c.nesting != []
    requires Step(env, lay, c).Next?
    ensures var n := Step(env, lay, c).next;
      |n.nesting| >= |c.nesting| - 1 && n.nesting[..|c.nesting| - 1] == c.nesting[1..]
      && (|c.nesting| < NestingLimit ==> |n.nesting| < NestingLimit - 1)
  {
    var tr := c.nesting[0];
    var guarded := InvokeOpt(env, c, GuardCall, tr.guard);
    InvokeOptSpec(env, c, GuardCall, tr.guard);
    var last: Config;
    if tr.guard.Some? && !env.guardResult(tr.guard.value, |c.trace|) {
      last := guarded.value;
    } else {
      var moved := guarded.value.(current := tr.destination);
      var acted := InvokeOpt(env, moved, ActionCall, tr.action);
      InvokeOptSpec(env, moved, ActionCall, tr.action);
      QueueGrows(c.nesting, guarded.value.nesting, acted.value.nesting);
      if c.current != tr.destination {
        var left := InvokeOpt(env, acted.value, LeavingCall, lay.states[c.current].leaving);
        InvokeOptSpec(env, acted.value, LeavingCall, lay.states[c.current].leaving);
        QueueGrows(c.nesting, acted.value.nesting, left.value.nesting);
        var entered := InvokeOpt(env, left.value, EnteringCall, lay.states[tr.destination].entering);
        InvokeOptSpec(env, left.value, EnteringCall, lay.states[tr.destination].entering);
        QueueGrows(c.nesting, left.value.nesting, entered.value.nesting);
        last := entered.value;
      } else {
        last := acted.value;
      }
    }
    assert Step(env, lay, c).next.nesting == last.nesting[1..];
    assert last.nesting[1..][..|c.nesting| - 1] == last.nesting[..|c.nesting|][1..];
  }

  /** Two queue extensions in a row extend the first queue. */
  lemma QueueGrows(a: seq<Transition>, b: seq<Transition>, d: seq<Transition>)
    requires |b| >= |a| && b[..|a|] == a && (|b| == |a| || |b| < NestingLimit)
    requires |d| >= |b| && d[..|b|] == b && (|d| == |b| || |d| < NestingLimit)
    ensures |d| >= |a| && d[..|a|] == a && (|d| == |a| || |d| < NestingLimit)
  {
    assert d[..|a|] == d[..|b|][..|a|];
  }

  /** A forbidden or unknown destination aborts before any callback runs. */
  lemma StepAborts(env: Env, lay: Layout, c: Config)
    requires lay.Valid() && c.current < lay.maxStates && c.nesting != []
    ensures c.nesting[0].destination == lay.CannotHappen() ==> Step(env, lay, c) == Stopped(ForbiddenEvent)
    ensures c.nesting[0].destination >= lay.maxStates ==> Step(env, lay, c) == Stopped(UnknownState)
  {
  }

  /** The loop returns with a non-empty queue only when the front of the
      queue ignores the event; that transition is never popped. */
  lemma {:induction false} RunReturnsWedged(env: Env, lay: Layout, c: Config, fuel: nat)
    requires lay.Valid() && c.current < lay.maxStates
    decreases fuel
    ensures var (r, d) := Run(env, lay, c, fuel);
      r == Returned && d.nesting != [] ==> d.nesting[0].destination == lay.IgnoringEvent()
  {
    if c.nesting != [] && fuel > 0 {
      match Step(env, lay, c)
      case Stopped(_) =>
      case Ignored(_) =>
      case Next(next) => RunReturnsWedged(env, lay, next, fuel - 1);
    }
  }

  /** While the queue is not empty, a transition is only queued: no callback
      runs and the state stays; the 16th entry aborts. */
  lemma FireWhileQueued(env: Env, lay: Layout, c: Config, tr: Transition, fuel: nat)
    requires lay.Valid() && c.current < lay.maxStates && c.nesting != []
    ensures var (r, d) := Fire(env, lay, c, tr, fuel);
      d.current == c.current && d.trace == c.trace && d.nesting == c.nesting + [tr]
      && (r == Aborted(InfiniteLoop) <==> |c.nesting| + 1 >= NestingLimit)
      && (r == Returned <==> |c.nesting| + 1 < NestingLimit)
  {
  }

  /** The table version ignores an event the current state has no entry for. */
  lemma DispatchAbsent(env: Env, lay: Layout, c: Config, transitions: map<StateId, Transition>, fuel: nat)
    requires lay.Valid() && c.current < lay.maxStates && c.current !in transitions
    ensures Dispatch(env, lay, c, transitions, fuel) == (Returned, c)
  {
  }

  /** The C++ class: the layout and the initial state are fixed by the
      constructor; reset and transition change the current state, the queue
      and, through the callbacks, the trace. */
  class StateMachine {
    const layout: Layout
    const initial: StateId
    var current: StateId
    var nesting: seq<Transition>
    var trace: seq<Call>

    function Snapshot(): Config
      reads this
    {
      Config(current, nesting, trace)
    }

    ghost predicate Valid()
      reads this
    {
      layout.Valid() && initial < layout.maxStates && current < layout.maxStates
    }

    /** `StateMachine(initial)`, whose assert demands initial < MAX_STATES. */
    constructor (lay: Layout, init: StateId)
      requires lay.Valid() && init < lay.maxStates
      ensures Valid() && layout == lay && initial == init
      ensures Snapshot() == Config(init, [], [])
    {
      layout := lay;
      initial := init;
      current := init;
      nesting := [];
      trace := [];
    }

    /** `reset()`: back to the initial state with an empty queue. */
    method Reset()
      requires Valid()
      modifies this`current, this`nesting
      ensures Valid() && current == initial && nesting == []
    {
      current := initial;
      nesting := [];
    }

    /** One callback run from inside the loop: recorded in the trace, then
        each transition it requests is queued (the queue is not empty, so
        `transition` only pushes), aborting when the queue reaches 16. */
    method RunCallback(env: Env, kind: CallKind, cb: Callback) returns (ok: bool)
      modifies this`nesting, this`trace
      ensures ok <==> Invoke(env, old(Snapshot()), kind, cb).Some?
      ensures ok ==> Snapshot() == Invoke(env, old(Snapshot()), kind, cb).value
    {
      ghost var c := Snapshot();
      var reqs := env.requests(cb, |trace|);
      ghost var start := nesting;
      for k := 0 to |reqs|
        invariant Queue(nesting, reqs[k..], current) == Queue(start, reqs, current)
        invariant trace == c.trace
      {
        assert reqs[k..][1..] == reqs[k + 1..];
        var req := reqs[k];
        match req
        case Direct(tr) =>
          assert Resolve(reqs[k..][0], current) == Some(tr);
          nesting := nesting + [tr];
          if |nesting| >= NestingLimit {
            assert Queue(start, reqs, current) == None;
            return false;
          }
        case Table(t) =>
          assert Resolve(reqs[k..][0], current) == if current in t then Some(t[current]) else None;
          if current in t {
            nesting := nesting + [t[current]];
            if |nesting| >= NestingLimit {
              assert Queue(start, reqs, current) == None;
              return false;
            }
          }
      }
      assert reqs[|reqs|..] == [];
      assert Queue(start, reqs, current) == Some(nesting);
      trace := trace + [Call(kind, cb, current)];
      assert Invoke(env, c, kind, cb) == Some(Snapshot());
      return true;
    }

    /** `transition(Transition const*)`: queued when the queue is not empty;
        otherwise the do-while loop, for at most fuel turns. */
    method Transition(tr: Transition, env: Env, fuel: nat) returns (r: Outcome)
      requires Valid()
      modifies this`current, this`nesting, this`trace
      ensures r == Fire(env, layout, old(Snapshot()), tr, fuel).0
      ensures !r.Aborted? ==> Valid() && Snapshot() == Fire(env, layout, old(Snapshot()), tr, fuel).1
    {
      if nesting != [] {
        nesting := nesting + [tr];
        if |nesting| >= NestingLimit {
          return Aborted(InfiniteLoop);
        }
        return Returned;
      }
      nesting := [tr];
      var steps := fuel;
      while nesting != []
        invariant Valid()
        invariant Run(env, layout, Snapshot(), steps) == Fire(env, layout, old(Snapshot()), tr, fuel)
        decreases steps
      {
        if steps == 0 {
          return OutOfFuel;
        }
        var ok := TransitionStep(env);
        if ok.Some? {
          return ok.value;
        }
        steps := steps - 1;
      }
      return Returned;
    }

    /** The body of the do-while loop on the front of the queue: Some
        outcome when the loop stops there, None when it pops the front and
        goes on. */
    method TransitionStep(env: Env) returns (stop: Option<Outcome>)
      requires Valid() && nesting != []
      modifies this`current, this`nesting, this`trace
      ensures Valid()
      ensures var s := Step(env, layout, old(Snapshot()));
        && (stop == None <==> s.Next?)
        && (s.Next? ==> Snapshot() == s.next)
        && (s.Ignored? ==> stop == Some(Returned) && Snapshot() == s.stay)
        && (s.Stopped? ==> stop == Some(Aborted(s.why)))
    {
      ghost var c := Snapshot();
      var t := nesting[0];
      if t.destination == layout.CannotHappen() {
        return Some(Aborted(ForbiddenEvent));
      } else if t.destination == layout.IgnoringEvent() {
        return Some(Returned);
      } else if t.destination >= layout.maxStates {
        return Some(Aborted(UnknownState));
      }
      var cst := layout.states[current];
      var nst := layout.states[t.destination];
      var guardRes := t.guard.None?;
      if !guardRes {
        guardRes := env.guardResult(t.guard.value, |trace|);
        var ok := RunCallback(env, GuardCall, t.guard.value);
        if !ok {
          return Some(Aborted(InfiniteLoop));
        }
      }
      ghost var guarded := Snapshot();
      assert InvokeOpt(env, c, GuardCall, t.guard) == Some(guarded);
      if guardRes {
        var previous := current;
        current := t.destination;
        ghost var moved := Snapshot();
        if t.action.Some? {
          var ok := RunCallback(env, ActionCall, t.action.value);
          if !ok {
            return Some(Aborted(InfiniteLoop));
          }
        }
        ghost var acted := Snapshot();
        assert InvokeOpt(env, moved, ActionCall, t.action) == Some(acted);
        if previous != t.destination {
          if cst.leaving.Some? {
            var ok := RunCallback(env, LeavingCall, cst.leaving.value);
            if !ok {
              return Some(Aborted(InfiniteLoop));
            }
          }
          ghost var left := Snapshot();
          assert InvokeOpt(env, acted, LeavingCall, cst.leaving) == Some(left);
          if nst.entering.Some? {
            var ok := RunCallback(env, EnteringCall, nst.entering.value);
            if !ok {
              return Some(Aborted(InfiniteLoop));
            }
          }
          assert InvokeOpt(env, left, EnteringCall, nst.entering) == Some(Snapshot());
        }
      }
      nesting := nesting[1..];
      return None;
    }

    /** `transition(Transitions const&)`: the entry for the current state,
        if there is one; otherwise the event is ignored. */
    method TransitionTable(transitions: map<StateId, Transition>, env: Env, fuel: nat) returns (r: Outcome)
      requires Valid()
      modifies this`current, this`nesting, this`trace
      ensures r == Dispatch(env, layout, old(Snapshot()), transitions, fuel).0
      ensures !r.Aborted? ==> Valid() && Snapshot() == Dispatch(env, layout, old(Snapshot()), transitions, fuel).1
    {
      if current in transitions {
        r := Transition(transitions[current], env, fuel);
      } else {
        r := Returned;
      }
    }
  }
}
