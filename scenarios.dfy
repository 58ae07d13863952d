/**
 * The scenarios the generated unit tests replay (translator/statecharts.py):
 * cycles rotated to start next to the initial state, simple paths from
 * source states to sink states, and the number of times each guard, action,
 * entering and leaving mock is expected to run along one scenario.
 */
module Scenarios {
  import opened Outcomes
  import opened Text
  import opened Chart
  import DiGraph

  // ---------------------------------------------------------------------------
  // graph_cycles
  // ---------------------------------------------------------------------------

  /** Index in ns of the first node the cycle visits. */
  function FirstIn(ns: seq<Name>, cycle: seq<Name>): (r: Option<nat>)
    ensures r.Some? ==> r.value < |ns| && ns[r.value] in cycle && forall k | 0 <= k < r.value :: ns[k] !in cycle
    ensures r.None? ==> forall k | 0 <= k < |ns| :: ns[k] !in cycle
  {
    if ns == [] then None
    else if ns[0] in cycle then Some(0)
    else match FirstIn(ns[1..], cycle)
      case None => None
      case Some(k) => Some(k + 1)
  }

  /** What graph_cycles makes of one cycle, given the successors ns of the
      initial state: rotated to start at the first of ns it visits, then closed. */
  function Rotate(ns: seq<Name>, cycle: seq<Name>): Option<seq<Name>>
  {
    match FirstIn(ns, cycle)
    case None => None
    case Some(k) =>
      var idx := IndexOf(cycle, ns[k]);
      var r := cycle[idx..] + cycle[..idx];
      Some(r + [r[0]])
  }

  /** graph_cycles over the raw cycles, in their order. */
  function Cycles(ns: seq<Name>, raws: seq<seq<Name>>): seq<seq<Name>>
  {
    if raws == [] then []
    else (match Rotate(ns, raws[0]) case None => [] case Some(r) => [r]) + Cycles(ns, raws[1..])
  }

  /** A cycle is dropped exactly when it visits no successor of the initial
      state; a kept one is the rotation `cycle[idx:] + cycle[:idx]` closed by
      its first node, and starts at the first successor (in neighbour order)
      that the cycle visits. */
  lemma RotateSpec(ns: seq<Name>, cycle: seq<Name>)
    ensures Rotate(ns, cycle).None? <==> forall k | 0 <= k < |ns| :: ns[k] !in cycle
    ensures Rotate(ns, cycle).Some? ==>
      var r := Rotate(ns, cycle).value;
      && |r| == |cycle| + 1 && r[0] == r[|r| - 1]
      && (exists k | 0 <= k < |ns| :: ns[k] == r[0] && forall j | 0 <= j < k :: ns[j] !in cycle)
      && multiset(r[..|cycle|]) == multiset(cycle)
      && exists idx | 0 <= idx < |cycle| :: r == cycle[idx..] + cycle[..idx] + [cycle[idx]]
  {
    match FirstIn(ns, cycle)
    case None =>
    case Some(k) =>
      var idx := IndexOf(cycle, ns[k]);
      var r := cycle[idx..] + cycle[..idx];
      assert Rotate(ns, cycle).value == r + [r[0]];
      assert r[0] == cycle[idx];
      assert (r + [r[0]])[..|cycle|] == r;
      assert cycle == cycle[..idx] + cycle[idx..];
  }

  /** Where the i-th node of a rotation comes from. */
  lemma RotationAt(cycle: seq<Name>, idx: nat, i: nat)
    requires idx < |cycle| && i < |cycle|
    ensures (cycle[idx..] + cycle[..idx])[i]
            == if i < |cycle| - idx then cycle[idx + i] else cycle[i - (|cycle| - idx)]
  {
  }

  /** Rotating an elementary cycle gives a closed walk whose nodes, the closing
      one aside, are distinct. */
  lemma RotateWalk<N, E>(g: DiGraph.Graph<N, E>, ns: seq<Name>, cycle: seq<Name>)
    requires g.IsElementaryCycle(cycle) && Rotate(ns, cycle).Some?
    ensures g.IsWalk(Rotate(ns, cycle).value)
    ensures DiGraph.Distinct(Rotate(ns, cycle).value[..|cycle|])
  {
    var k := FirstIn(ns, cycle).value;
    var n := |cycle|;
    var idx := IndexOf(cycle, ns[k]);
    var r := cycle[idx..] + cycle[..idx];
    var c := r + [r[0]];
    assert c == Rotate(ns, cycle).value;
    forall i | 0 <= i < n ensures (c[i], c[i + 1]) in g.edges {
      RotationAt(cycle, idx, i);
      RotationAt(cycle, idx, 0);
      if i + 1 < n {
        RotationAt(cycle, idx, i + 1);
        assert c[i + 1] == r[i + 1];
        if i < n - idx - 1 {
          assert (cycle[idx + i], cycle[idx + i + 1]) in g.edges;
        } else if i == n - idx - 1 {
          assert c[i] == cycle[n - 1] && c[i + 1] == cycle[0];
        } else {
          assert (cycle[i - (n - idx)], cycle[i - (n - idx) + 1]) in g.edges;
        }
      } else {
        assert c[i + 1] == cycle[idx];
        if idx == 0 {
          assert c[i] == cycle[n - 1];
        } else {
          assert c[i] == cycle[idx - 1];
          assert (cycle[idx - 1], cycle[idx]) in g.edges;
        }
      }
    }
    assert c[..n] == r;
    forall i, j | 0 <= i < j < n ensures r[i] != r[j] {
      RotationAt(cycle, idx, i);
      RotationAt(cycle, idx, j);
    }
  }

  /** Every kept cycle is a rotation of one of the raw cycles, the i-th. */
  lemma {:induction false} CyclesFrom(ns: seq<Name>, raws: seq<seq<Name>>, c: seq<Name>) returns (i: nat)
    requires c in Cycles(ns, raws)
    ensures i < |raws| && Rotate(ns, raws[i]) == Some(c)
  {
    var head := match Rotate(ns, raws[0]) case None => [] case Some(r) => [r];
    if c in head {
      i := 0;
    } else {
      var j := CyclesFrom(ns, raws[1..], c);
      assert raws[1..][j] == raws[j + 1];
      i := j + 1;
    }
  }

  /** A rotation is closed, one longer than the cycle, and starts at a
      successor of the initial state. */
  lemma RotateStart(ns: seq<Name>, cycle: seq<Name>)
    requires Rotate(ns, cycle).Some?
    ensures var r := Rotate(ns, cycle).value;
      |r| == |cycle| + 1 && r[0] == r[|r| - 1] && r[0] in ns
  {
    var k := FirstIn(ns, cycle).value;
    var idx := IndexOf(cycle, ns[k]);
    assert (cycle[idx..] + cycle[..idx])[0] == ns[k];
  }

  /** Every cycle graph_cycles returns for elementary raw cycles is a closed
      walk of at least two nodes entered by an edge from the initial state, so
      the generated test can replay `[*]` followed by the cycle. */
  lemma CyclesShape(g: Graph, initial: Name, raws: seq<seq<Name>>, c: seq<Name>)
    requires g.Valid() && initial in g.succ
    requires forall i | 0 <= i < |raws| :: g.IsElementaryCycle(raws[i])
    requires c in Cycles(g.succ[initial], raws)
    ensures |c| >= 2 && c[0] == c[|c| - 1]
    ensures c[0] in g.succ[initial] && (initial, c[0]) in g.edges
    ensures g.IsWalk(c) && g.IsWalk([initial] + c)
    ensures DiGraph.Distinct(c[..|c| - 1])
  {
    var ns := g.succ[initial];
    var i := CyclesFrom(ns, raws, c);
    assert g.IsElementaryCycle(raws[i]);
    RotateStart(ns, raws[i]);
    RotateWalk(g, ns, raws[i]);
    DiGraph.WalkCons(g, initial, c);
  }

  // ---------------------------------------------------------------------------
  // graph_all_paths_to_sinks
  // ---------------------------------------------------------------------------

  function Elems(p: seq<Name>): set<Name> {
    set x | x in p
  }

  /** All simple paths to target extending path, depth first, successors in
      neighbour order; a successor already on the path is skipped and target
      is never passed through. */
  function Reach(g: Graph, path: seq<Name>, target: Name): seq<seq<Name>>
    requires g.Valid() && path != [] && forall x | x in path :: x in g.data
    decreases g.data.Keys - Elems(path), 1, 0
  {
    ExtendAll(g, path, g.succ[path[|path| - 1]], target)
  }

  function ExtendAll(g: Graph, path: seq<Name>, cs: seq<Name>, target: Name): seq<seq<Name>>
    requires g.Valid() && path != [] && (forall x | x in path :: x in g.data) && (forall c | c in cs :: c in g.data)
    decreases g.data.Keys - Elems(path), 0, |cs|
  {
    if cs == [] then [] else Step(g, path, cs[0], target) + ExtendAll(g, path, cs[1..], target)
  }

  function Step(g: Graph, path: seq<Name>, c: Name, target: Name): seq<seq<Name>>
    requires g.Valid() && path != [] && (forall x | x in path :: x in g.data) && c in g.data
    decreases g.data.Keys - Elems(path), 0, 0
  {
    if c in path then []
    else if c == target then [path + [c]]
    else
      assert Elems(path + [c]) == Elems(path) + {c};
      Reach(g, path + [c], target)
  }

  /** p continues path with at least one edge to target, each new node fresh. */
  ghost predicate Extends(g: Graph, path: seq<Name>, p: seq<Name>, target: Name)
    requires path != []
  {
    && |p| > |path| && p[..|path|] == path && p[|p| - 1] == target
    && (forall i | |path| - 1 <= i < |p| - 1 :: (p[i], p[i + 1]) in g.edges)
    && (forall i, j | 0 <= i < j < |p| && |path| <= j :: p[i] != p[j])
  }

  lemma {:induction false} ExtendAllMembership(g: Graph, path: seq<Name>, cs: seq<Name>, target: Name, p: seq<Name>)
    requires g.Valid() && path != [] && (forall x | x in path :: x in g.data) && (forall c | c in cs :: c in g.data)
    ensures p in ExtendAll(g, path, cs, target) <==> exists k | 0 <= k < |cs| :: p in Step(g, path, cs[k], target)
  {
    if cs != [] {
      ExtendAllMembership(g, path, cs[1..], target, p);
      if p in ExtendAll(g, path, cs[1..], target) {
        var k :| 0 <= k < |cs[1..]| && p in Step(g, path, cs[1..][k], target);
        assert p in Step(g, path, cs[k + 1], target);
      }
      if exists k | 0 <= k < |cs| :: p in Step(g, path, cs[k], target) {
        var k :| 0 <= k < |cs| && p in Step(g, path, cs[k], target);
        if k > 0 {
          assert p in Step(g, path, cs[1..][k - 1], target);
        }
      }
    }
  }

  /** Extending by a fresh successor c and then to p extends path to p. */
  lemma ExtendsThrough(g: Graph, path: seq<Name>, c: Name, p: seq<Name>, target: Name)
    requires path != [] && (path[|path| - 1], c) in g.edges && c !in path
    requires Extends(g, path + [c], p, target)
    ensures Extends(g, path, p, target)
  {
    assert p[..|path|] == p[..|path| + 1][..|path|];
    forall i, j | 0 <= i < j < |p| && |path| <= j ensures p[i] != p[j] {
      if j == |path| {
        assert p[j] == c && p[i] == path[i];
      }
    }
  }

  /** The first node an extension adds is a fresh successor of the path's end. */
  lemma ExtendsFirst(g: Graph, path: seq<Name>, p: seq<Name>, target: Name)
    requires path != [] && Extends(g, path, p, target)
    ensures (path[|path| - 1], p[|path|]) in g.edges && p[|path|] !in path
    ensures p[..|path| + 1] == path + [p[|path|]]
    ensures p[|path|] == target ==> p == path + [target]
    ensures p[|path|] != target ==> Extends(g, path + [p[|path|]], p, target)
  {
    var c := p[|path|];
    assert p[|path| - 1] == path[|path| - 1];
    forall i | 0 <= i < |path| ensures path[i] != c {
      assert p[i] == path[i];
    }
  }

  /** Whatever the enumeration yields is a simple extension of path. */
  lemma {:induction false} ReachSound(g: Graph, path: seq<Name>, target: Name, p: seq<Name>)
    requires g.Valid() && path != [] && forall x | x in path :: x in g.data
    requires p in Reach(g, path, target)
    ensures Extends(g, path, p, target)
    decreases g.data.Keys - Elems(path)
  {
    var cs := g.succ[path[|path| - 1]];
    ExtendAllMembership(g, path, cs, target, p);
    var k :| 0 <= k < |cs| && p in Step(g, path, cs[k], target);
    var c := cs[k];
    if c != target {
      assert Elems(path + [c]) == Elems(path) + {c};
      ReachSound(g, path + [c], target, p);
      ExtendsThrough(g, path, c, p, target);
    }
  }

  /** Every simple extension of path is yielded. */
  lemma {:induction false} ReachComplete(g: Graph, path: seq<Name>, target: Name, p: seq<Name>)
    requires g.Valid() && path != [] && forall x | x in path :: x in g.data
    requires Extends(g, path, p, target)
    ensures p in Reach(g, path, target)
    decreases g.data.Keys - Elems(path)
  {
    var cs := g.succ[path[|path| - 1]];
    ExtendsFirst(g, path, p, target);
    var c := p[|path|];
    assert c in cs;
    var k :| 0 <= k < |cs| && cs[k] == c;
    if c != target {
      assert Elems(path + [c]) == Elems(path) + {c};
      ReachComplete(g, path + [c], target, p);
    }
    assert p in Step(g, path, cs[k], target);
    ExtendAllMembership(g, path, cs, target, p);
  }

  /** nx.all_simple_paths(graph, source, target); nothing when source is target. */
  function SimplePaths(g: Graph, source: Name, target: Name): seq<seq<Name>>
    requires g.Valid() && source in g.data
  {
    if source == target then [] else Reach(g, [source], target)
  }

  /** The simple paths from source to target are exactly the walks of at least
      one edge from source to target that repeat no node. */
  lemma SimplePathsIff(g: Graph, source: Name, target: Name, p: seq<Name>)
    requires g.Valid() && source in g.data
    ensures p in SimplePaths(g, source, target) <==>
      |p| >= 2 && p[0] == source && p[|p| - 1] == target && g.IsWalk(p) && DiGraph.Distinct(p)
  {
    if source != target {
      if p in Reach(g, [source], target) {
        ReachSound(g, [source], target, p);
      }
      if |p| >= 2 && p[0] == source && p[|p| - 1] == target && g.IsWalk(p) && DiGraph.Distinct(p) {
        assert p[..1] == [source];
        ReachComplete(g, [source], target, p);
      }
    }
  }

  /** Nodes of ns without successors. */
  function Sinks(g: Graph, ns: seq<Name>): (r: seq<Name>)
    requires forall n | n in ns :: n in g.succ
    ensures forall n :: n in r <==> n in ns && |g.succ[n]| == 0
  {
    if ns == [] then []
    else (if |g.succ[ns[0]]| == 0 then [ns[0]] else []) + Sinks(g, ns[1..])
  }

  /** Nodes of ns without predecessors. */
  function Sources(g: Graph, ns: seq<Name>): (r: seq<Name>)
    ensures forall n :: n in r <==> n in ns && g.InDegree(n) == 0
  {
    if ns == [] then []
    else (if g.InDegree(ns[0]) == 0 then [ns[0]] else []) + Sources(g, ns[1..])
  }

  /** The paths from each source to one sink, sources in order. */
  function PathsInto(g: Graph, sources: seq<Name>, sink: Name): seq<seq<Name>>
    requires g.Valid() && forall n | n in sources :: n in g.data
  {
    if sources == [] then []
    else PathsInto(g, sources[..|sources| - 1], sink) + SimplePaths(g, sources[|sources| - 1], sink)
  }

  lemma {:induction false} PathsIntoMembership(g: Graph, sources: seq<Name>, sink: Name, p: seq<Name>)
    requires g.Valid() && forall n | n in sources :: n in g.data
    ensures p in PathsInto(g, sources, sink) <==> exists s | s in sources :: p in SimplePaths(g, s, sink)
  {
    if sources != [] {
      var last := sources[|sources| - 1];
      var init := sources[..|sources| - 1];
      PathsIntoMembership(g, init, sink, p);
      assert forall t :: t in sources <==> t == last || t in init;
    }
  }

  /** The paths into each sink, sinks in order. */
  function PathsBetween(g: Graph, sources: seq<Name>, sinks: seq<Name>): seq<seq<Name>>
    requires g.Valid() && forall n | n in sources :: n in g.data
  {
    if sinks == [] then []
    else PathsBetween(g, sources, sinks[..|sinks| - 1]) + PathsInto(g, sources, sinks[|sinks| - 1])
  }

  lemma {:induction false} PathsBetweenMembership(g: Graph, sources: seq<Name>, sinks: seq<Name>, p: seq<Name>)
    requires g.Valid() && forall n | n in sources :: n in g.data
    ensures p in PathsBetween(g, sources, sinks) <==> exists t | t in sinks :: p in PathsInto(g, sources, t)
  {
    if sinks != [] {
      var init := sinks[..|sinks| - 1];
      var last := sinks[|sinks| - 1];
      PathsBetweenMembership(g, sources, init, p);
      if exists t | t in sinks :: p in PathsInto(g, sources, t) {
        var t :| t in sinks && p in PathsInto(g, sources, t);
        if t != last {
          assert t in init;
        }
      }
    }
  }

  /** graph_all_paths_to_sinks */
  function AllPathsToSinks(g: Graph): seq<seq<Name>>
    requires g.Valid()
  {
    PathsBetween(g, Sources(g, g.nodes), Sinks(g, g.nodes))
  }

  /** The paths to sinks are exactly the simple paths of at least one edge
      from a node without predecessors to a node without successors. */
  lemma AllPathsToSinksIff(g: Graph, p: seq<Name>)
    requires g.Valid()
    ensures p in AllPathsToSinks(g) <==>
      && |p| >= 2 && g.IsWalk(p) && DiGraph.Distinct(p)
      && p[0] in g.data && g.InDegree(p[0]) == 0
      && p[|p| - 1] in g.succ && |g.succ[p[|p| - 1]]| == 0
  {
    var sources := Sources(g, g.nodes);
    var sinks := Sinks(g, g.nodes);
    PathsBetweenMembership(g, sources, sinks, p);
    if p in AllPathsToSinks(g) {
      var t :| t in sinks && p in PathsInto(g, sources, t);
      PathsIntoMembership(g, sources, t, p);
      var s :| s in sources && p in SimplePaths(g, s, t);
      SimplePathsIff(g, s, t, p);
    }
    if |p| >= 2 && g.IsWalk(p) && DiGraph.Distinct(p) && p[0] in g.data && g.InDegree(p[0]) == 0
       && p[|p| - 1] in g.succ && |g.succ[p[|p| - 1]]| == 0 {
      var s, t := p[0], p[|p| - 1];
      SimplePathsIff(g, s, t, p);
      assert s in sources && t in sinks;
      PathsIntoMembership(g, sources, t, p);
      assert p in PathsInto(g, sources, t);
    }
  }

  // ---------------------------------------------------------------------------
  // reset_mock_counters, count_mocked_guards and the guard mock policy
  // ---------------------------------------------------------------------------

  /** Number of consecutive pairs (a, b) of s: how often the edge a -> b is taken. */
  function Uses(s: seq<Name>, a: Name, b: Name): nat
  {
    if |s| < 2 then 0
    else Uses(s[..|s| - 1], a, b) + (if s[|s| - 2] == a && s[|s| - 1] == b then 1 else 0)
  }

  /** How often s leaves v for another state. */
  function Leaves(s: seq<Name>, v: Name): nat
  {
    if |s| < 2 then 0
    else Leaves(s[..|s| - 1], v) + (if s[|s| - 2] == v && s[|s| - 1] != v then 1 else 0)
  }

  /** How often s enters v from another state. */
  function Enters(s: seq<Name>, v: Name): nat
  {
    if |s| < 2 then 0
    else Enters(s[..|s| - 1], v) + (if s[|s| - 1] == v && s[|s| - 2] != v then 1 else 0)
  }

  /** Along any scenario, entries into v and exits from v alternate: they
      differ only by where the scenario starts and ends. */
  lemma {:induction false} EntersLeavesBalance(s: seq<Name>, v: Name)
    requires |s| >= 1
    ensures Enters(s, v) + (if s[0] == v then 1 else 0) == Leaves(s, v) + (if s[|s| - 1] == v then 1 else 0)
  {
    if |s| >= 2 {
      var t := s[..|s| - 1];
      EntersLeavesBalance(t, v);
      assert t[0] == s[0] && t[|t| - 1] == s[|s| - 2];
    }
  }

  /** On a closed scenario every state is entered as often as it is left. */
  lemma ClosedScenarioBalance(s: seq<Name>, v: Name)
    requires |s| >= 1 && s[0] == s[|s| - 1]
    ensures Enters(s, v) == Leaves(s, v)
  {
    EntersLeavesBalance(s, v);
  }

  /** The guard mock answers true when its counter is non-zero. */
  function GuardMockReturns(count: nat): bool
  {
    count != 0
  }

  /** After counting a scenario, a guard mock answers true exactly when the
      scenario takes its edge. */
  lemma {:induction false} GuardMockReturnsIffTaken(s: seq<Name>, a: Name, b: Name)
    ensures GuardMockReturns(Uses(s, a, b)) <==> exists i | 0 <= i < |s| - 1 :: s[i] == a && s[i + 1] == b
  {
    if |s| >= 2 {
      var t := s[..|s| - 1];
      GuardMockReturnsIffTaken(t, a, b);
      if exists i | 0 <= i < |t| - 1 :: t[i] == a && t[i + 1] == b {
        var i :| 0 <= i < |t| - 1 && t[i] == a && t[i + 1] == b;
        assert s[i] == a && s[i + 1] == b;
      }
      if exists i | 0 <= i < |s| - 1 :: s[i] == a && s[i + 1] == b {
        var i :| 0 <= i < |s| - 1 && s[i] == a && s[i + 1] == b;
        if i < |s| - 2 {
          assert t[i] == a && t[i + 1] == b;
        }
      }
    }
  }

  /** The payloads reset_mock_counters then count_mocked_guards(s) leave: a
      guarded edge counts its uses, an edge with an action counts them too,
      a state with entering (leaving) code counts its entries (exits); every
      other counter keeps its previous value. */
  function CountMocks(g: Graph, s: seq<Name>): Graph
  {
    g.(edges := map e | e in g.edges :: CountEdge(g.edges[e], Uses(s, e.0, e.1)),
       data := map n | n in g.data :: CountState(g.data[n], Enters(s, n), Leaves(s, n)))
  }

  function CountEdge(tr: Transition, uses: nat): Transition
  {
    tr.(countGuard := if tr.guard != "" then uses else tr.countGuard,
        countAction := if tr.action != "" then uses else tr.countAction)
  }

  function CountState(st: State, enters: nat, leaves: nat): State
  {
    st.(countEntering := if st.entering != "" then enters else st.countEntering,
        countLeaving := if st.leaving != "" then leaves else st.countLeaving)
  }

  /** The counters of an edge taken once more. */
  function BumpEdge(tr: Transition): Transition
  {
    tr.(countGuard := if tr.guard != "" then tr.countGuard + 1 else tr.countGuard,
        countAction := if tr.action != "" then tr.countAction + 1 else tr.countAction)
  }

  /** The counters of a state left once more. */
  function BumpLeaving(st: State): State
  {
    st.(countLeaving := if st.leaving != "" then st.countLeaving + 1 else st.countLeaving)
  }

  /** The counters of a state entered once more. */
  function BumpEntering(st: State): State
  {
    st.(countEntering := if st.entering != "" then st.countEntering + 1 else st.countEntering)
  }

  /** One more step a -> b of a scenario is one more use of a -> b, one more
      exit from a and one more entry into b when a and b differ. */
  lemma CountsStep(s: seq<Name>, i: nat, x: Name, y: Name, v: Name)
    requires i + 1 < |s|
    ensures Uses(s[..i + 2], x, y) == Uses(s[..i + 1], x, y) + (if s[i] == x && s[i + 1] == y then 1 else 0)
    ensures Enters(s[..i + 2], v) == Enters(s[..i + 1], v) + (if s[i + 1] == v && s[i] != v then 1 else 0)
    ensures Leaves(s[..i + 2], v) == Leaves(s[..i + 1], v) + (if s[i] == v && s[i + 1] != v then 1 else 0)
  {
    var t := s[..i + 2];
    assert t[..|t| - 1] == s[..i + 1];
    assert t[|t| - 2] == s[i] && t[|t| - 1] == s[i + 1];
  }

  /** Counting one more step a -> b of a scenario bumps the edge's counters. */
  lemma CountMocksStepEdges(g: Graph, s: seq<Name>, i: nat)
    requires i + 1 < |s| && (s[i], s[i + 1]) in g.edges
    ensures var before := CountMocks(g, s[..i + 1]);
      CountMocks(g, s[..i + 2]).edges == before.edges[(s[i], s[i + 1]) := BumpEdge(before.edges[(s[i], s[i + 1])])]
  {
    var before := CountMocks(g, s[..i + 1]);
    var after := CountMocks(g, s[..i + 2]);
    var expected := before.edges[(s[i], s[i + 1]) := BumpEdge(before.edges[(s[i], s[i + 1])])];
    forall e | e in g.edges ensures after.edges[e] == expected[e] {
      CountsStep(s, i, e.0, e.1, s[i]);
    }
    assert after.edges.Keys == expected.Keys;
  }

  /** Counting one more step a -> b with a != b bumps a's leaving and b's
      entering counters; a step that stays in one state bumps neither. */
  lemma CountMocksStepStates(g: Graph, s: seq<Name>, i: nat)
    requires i + 1 < |s| && s[i] in g.data && s[i + 1] in g.data
    ensures var before := CountMocks(g, s[..i + 1]);
      var (a, b) := (s[i], s[i + 1]);
      CountMocks(g, s[..i + 2]).data ==
        (if a == b then before.data
         else before.data[a := BumpLeaving(before.data[a])][b := BumpEntering(before.data[b])])
  {
    var (a, b) := (s[i], s[i + 1]);
    var before := CountMocks(g, s[..i + 1]);
    var after := CountMocks(g, s[..i + 2]);
    var expected := if a == b then before.data
                    else before.data[a := BumpLeaving(before.data[a])][b := BumpEntering(before.data[b])];
    forall n | n in g.data ensures after.data[n] == expected[n] {
      CountStateStep(g.data[n], s, i, n);
      assert after.data[n] == CountState(g.data[n], Enters(s[..i + 2], n), Leaves(s[..i + 2], n));
      assert before.data[n] == CountState(g.data[n], Enters(s[..i + 1], n), Leaves(s[..i + 1], n));
    }
    assert after.data.Keys == expected.Keys;
  }

  /** The counters of one state after one more step of the scenario. */
  lemma CountStateStep(st: State, s: seq<Name>, i: nat, n: Name)
    requires i + 1 < |s|
    ensures var (a, b) := (s[i], s[i + 1]);
      var before := CountState(st, Enters(s[..i + 1], n), Leaves(s[..i + 1], n));
      CountState(st, Enters(s[..i + 2], n), Leaves(s[..i + 2], n))
        == if a == b || (n != a && n != b) then before
           else if n == a then BumpLeaving(before) else BumpEntering(before)
  {
    CountsStep(s, i, s[i], s[i + 1], n);
  }

  /** Counting one more use is bumping the counters. */
  lemma CountEdgeBump(tr: Transition, uses: nat)
    ensures CountEdge(tr, uses + 1) == BumpEdge(CountEdge(tr, uses))
  {
  }

  /** Counting one more exit (entry) is bumping the leaving (entering) counter. */
  lemma CountStateBump(st: State, enters: nat, leaves: nat)
    ensures CountState(st, enters, leaves + 1) == BumpLeaving(CountState(st, enters, leaves))
    ensures CountState(st, enters + 1, leaves) == BumpEntering(CountState(st, enters, leaves))
    ensures CountState(st, enters + 1, leaves + 1) == BumpEntering(BumpLeaving(CountState(st, enters, leaves)))
  {
  }

  /** A scenario of fewer than two states takes no step: it counts nothing. */
  lemma CountMocksShort(g: Graph, s: seq<Name>)
    requires |s| < 2
    ensures CountMocks(g, s) == CountMocks(g, [])
  {
    assert CountMocks(g, s).edges == CountMocks(g, []).edges;
    assert CountMocks(g, s).data == CountMocks(g, []).data;
  }

  /** Counting keeps each state's name. */
  lemma CountMocksName(g: Graph, s: seq<Name>, n: Name)
    requires n in g.data
    ensures n in CountMocks(g, s).data && CountMocks(g, s).data[n].name == g.data[n].name
  {
  }

  /** Counting keeps the set of edges. */
  lemma CountMocksHasEdge(g: Graph, s: seq<Name>, e: (Name, Name))
    ensures e in CountMocks(g, s).edges <==> e in g.edges
  {
  }

  /** Counting changes only the counters: the graph's shape and every guard,
      action and code text stay as they were. */
  lemma CountMocksKeepsShape(g: Graph, s: seq<Name>)
    requires g.Valid()
    ensures CountMocks(g, s).Valid()
    ensures CountMocks(g, s).nodes == g.nodes && CountMocks(g, s).succ == g.succ
    ensures CountMocks(g, s).edges.Keys == g.edges.Keys && CountMocks(g, s).data.Keys == g.data.Keys
    ensures forall e | e in g.edges :: CountMocks(g, s).edges[e].(countGuard := 0, countAction := 0)
                                       == g.edges[e].(countGuard := 0, countAction := 0)
  {
    var h := CountMocks(g, s);
    assert forall n :: n in h.data <==> n in g.data;
    assert forall a, b :: (a, b) in h.edges <==> (a, b) in g.edges;
  }
}
