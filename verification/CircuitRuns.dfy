/**
 * CircuitRuns: the whole circuit over a message, and its relation to the scanner and the automaton.
 */
module CircuitRuns {
  import opened Results
  import opened DfaGraphs
  import opened Netlists
  import opened CircuitGenerator
  import opened CircuitSteps

  datatype CompilerError = AcceptNodesError

  // ----- reversing the graph

  function ReverseOf(g: Graph): (rev: seq<Sources>)
    ensures |rev| == |g|
  {
    seq(|g|, k requires 0 <= k < |g| => map i: nat | i < |g| && k in g[i].edges :: g[i].edges[k])
  }

  function AcceptNodes(g: Graph): set<nat> {
    set i: nat | i < |g| && g[i].accept
  }

  /** The edges of the states below i, and those of i to targets below k, have been entered. */
  ghost predicate Entered(g: Graph, rev: seq<Sources>, i: nat, k: nat) {
    && |rev| == |g|
    && (forall l: nat, j: nat :: l < |g| ==> (j in rev[l] <==> IsEntered(g, i, k, j, l)))
    && (forall l: nat, j: nat :: l < |g| && j in rev[l] ==> IsEntered(g, i, k, j, l) && rev[l][j] == g[j].edges[l])
  }

  predicate IsEntered(g: Graph, i: nat, k: nat, j: nat, l: nat) {
    j < |g| && (j < i || (j == i && l < k)) && l in g[j].edges
  }

  /** Edge by edge, the source is entered at the target; fails when no state accepts. */
  method BuildReverseGraph(g: Graph) returns (r: Result<(seq<Sources>, set<nat>), CompilerError>)
    requires Closed(g)
    ensures AcceptNodes(g) == {} ==> r == Err(AcceptNodesError)
    ensures AcceptNodes(g) != {} ==> r == Ok((ReverseOf(g), AcceptNodes(g)))
  {
    hide Entered;
    var rev: seq<Sources> := seq(|g|, _ => map[]);
    var acceptNodes: set<nat> := {};
    NothingEntered(g, rev);
    for i: nat := 0 to |g|
      invariant Entered(g, rev, i, 0)
      invariant forall j: nat :: j in acceptNodes <==> j < i && g[j].accept
    {
      for k: nat := 0 to |g|
        invariant Entered(g, rev, i, k)
      {
        EnterEdge(g, rev, i, k);
        if k in g[i].edges {
          rev := rev[k := rev[k] + Entry(i, g[i].edges[k])];
        }
      }
      NodeEntered(g, rev, i);
      if g[i].accept {
        acceptNodes := acceptNodes + {i};
      }
    }
    AllEntered(g, rev);
    assert acceptNodes == AcceptNodes(g);
    if acceptNodes == {} {
      return Err(AcceptNodesError);
    }
    r := Ok((rev, acceptNodes));
  }

  function Entry(i: nat, bytes: set<Byte>): Sources {
    map[i := bytes]
  }

  lemma NothingEntered(g: Graph, rev: seq<Sources>)
    requires |rev| == |g| && forall k :: 0 <= k < |rev| ==> rev[k] == map[]
    ensures Entered(g, rev, 0, 0)
  {
  }

  lemma EnterEdge(g: Graph, rev: seq<Sources>, i: nat, k: nat)
    requires Entered(g, rev, i, k) && i < |g| && k < |g|
    ensures k < |rev|
    ensures k in g[i].edges ==> Entered(g, rev[k := rev[k] + Entry(i, g[i].edges[k])], i, k + 1)
    ensures k !in g[i].edges ==> Entered(g, rev, i, k + 1)
  {
    if k in g[i].edges {
      var u := rev[k := rev[k] + Entry(i, g[i].edges[k])];
      forall l: nat, j: nat | l < |g|
        ensures j in u[l] <==> IsEntered(g, i, k + 1, j, l)
        ensures j in u[l] ==> u[l][j] == g[j].edges[l]
      {
        assert j in rev[l] <==> IsEntered(g, i, k, j, l);
      }
    }
  }

  lemma NodeEntered(g: Graph, rev: seq<Sources>, i: nat)
    requires Entered(g, rev, i, |g|) && i < |g|
    ensures Entered(g, rev, i + 1, 0)
  {
  }

  lemma AllEntered(g: Graph, rev: seq<Sources>)
    requires Entered(g, rev, |g|, 0)
    ensures rev == ReverseOf(g)
  {
    forall k | 0 <= k < |g|
      ensures rev[k] == ReverseOf(g)[k]
    {
      var m := ReverseOf(g)[k];
      forall j: nat
        ensures j in rev[k] <==> j in m
        ensures j in m ==> rev[k][j] == m[j]
      {
        assert j in rev[k] <==> IsEntered(g, |g|, 0, j, k);
      }
    }
  }

  // ----- acceptance

  /** How a step is judged: by one state, or by the disjunction of several. */
  datatype Judge = OneState(node: nat) | AnyState(nodes: seq<nat>)

  datatype Circuit = Circuit(n: nat, step: seq<Line>, judge: Judge, anchored: bool)

  function Ascending(s: set<nat>, from: nat, end: nat): (r: seq<nat>)
    requires from <= end
    ensures forall i :: i in r <==> i in s && from <= i < end
    decreases end - from
  {
    if from == end then []
    else if from in s then [from] + Ascending(s, from + 1, end)
    else Ascending(s, from + 1, end)
  }

  method GenerateAcceptLogic(acceptNodes: set<nat>, n: nat) returns (r: Result<Judge, CompilerError>)
    requires forall i :: i in acceptNodes ==> i < n
    ensures acceptNodes == {} ==> r == Err(AcceptNodesError)
    ensures acceptNodes != {} ==> r.Ok? && forall bits: seq<bool> ::
      Accepted(r.value, bits) <==> exists i :: i in acceptNodes && i < |bits| && bits[i]
  {
    if acceptNodes == {} {
      return Err(AcceptNodesError);
    }
    var nodes := Ascending(acceptNodes, 0, n);
    if |nodes| == 1 {
      OnlyElement(nodes);
      r := Ok(OneState(nodes[0]));
    } else {
      forall bits: seq<bool>
        ensures Accepted(AnyState(nodes), bits) <==> exists i :: i in acceptNodes && i < |bits| && bits[i]
      {
        if i :| i in acceptNodes && i < |bits| && bits[i] {
          assert i in nodes;
          var k :| 0 <= k < |nodes| && nodes[k] == i;
        }
      }
      r := Ok(AnyState(nodes));
    }
  }

  lemma OnlyElement(nodes: seq<nat>)
    requires |nodes| == 1
    ensures forall i :: i in nodes <==> i == nodes[0]
  {
  }

  predicate Accepted(j: Judge, bits: seq<bool>) {
    match j
    case OneState(node) => node < |bits| && bits[node]
    case AnyState(nodes) => exists k :: 0 <= k < |nodes| && nodes[k] < |bits| && bits[nodes[k]]
  }

  // ----- the circuit over an input

  /** The bits of all states after the input; state 0 is always on. */
  function Bits(c: Circuit, input: seq<Byte>): (bits: seq<bool>)
    ensures |bits| == c.n
  {
    if input == [] then seq(c.n, i => i == 0)
    else
      var w := Eval(c.step, input[|input| - 1], Bits(c, input[..|input| - 1]));
      seq(c.n, i requires 0 <= i < c.n => i == 0 || (i in w.next && w.next[i]))
  }

  /** The number of nonzero bytes. */
  function PaddingStart(input: seq<Byte>): (p: nat)
    ensures p <= |input|
  {
    if input == [] then 0
    else PaddingStart(input[..|input| - 1]) + (if input[|input| - 1] != 0 then 1 else 0)
  }

  /** The running sum of accepted positions that equal the start of the padding. */
  function EndAnchorCheck(c: Circuit, input: seq<Byte>, i: nat): nat
    requires i <= |input|
  {
    if i == 0 then 0
    else
      EndAnchorCheck(c, input, i - 1)
      + (if Accepted(c.judge, Bits(c, input[..i - 1])) && i - 1 == PaddingStart(input) then 1 else 0)
  }

  predicate IsAccepted(c: Circuit, input: seq<Byte>) {
    exists i :: 0 <= i <= |input| && Accepted(c.judge, Bits(c, input[..i]))
  }

  function Out(c: Circuit, input: seq<Byte>): nat {
    var isAccepted := if IsAccepted(c, input) then 1 else 0;
    if c.anchored then isAccepted * EndAnchorCheck(c, input, |input|) else isAccepted
  }

  // ----- the compiler

  /** The graphs whose circuit is well formed. */
  ghost predicate Compilable(g: Graph) {
    && |g| >= 2 && Closed(g) && Deterministic(g)
    && forall s, t :: 0 <= s < |g| && t in g[s].edges && t != 0 ==> g[s].edges[t] - {0} != {}
  }

  /** A circuit whose step follows the reversed graph and whose judge knows the accepting states. */
  ghost predicate Implements(c: Circuit, g: Graph) {
    && c.n == |g|
    && StepCorrect(c.step, ReverseOf(g))
    && forall bits: seq<bool> ::
         Accepted(c.judge, bits) <==> exists i :: i in AcceptNodes(g) && i < |bits| && bits[i]
  }

  method GenCircom(g: Graph, endAnchor: bool) returns (r: Result<Circuit, CompilerError>)
    requires Compilable(g)
    ensures AcceptNodes(g) == {} ==> r == Err(AcceptNodesError)
    ensures AcceptNodes(g) != {} ==> r.Ok? && Implements(r.value, g) && r.value.anchored == endAnchor
  {
    hide StepCorrect, Accepted;
    var reversed := BuildReverseGraph(g);
    if reversed.Err? {
      return Err(reversed.error);
    }
    var (rev, acceptNodes) := reversed.value;
    BytesReversed(g);
    var lines := GenerateStateTransitionLogic(rev);
    var judge := GenerateAcceptLogic(acceptNodes, |g|);
    match judge
    case Ok(j) => r := Ok(Circuit(|g|, lines, j, endAnchor));
    case Err(e) => r := Err(e);
  }

  lemma BytesReversed(g: Graph)
    requires Compilable(g)
    ensures EdgesCarryBytes(ReverseOf(g))
  {
    var rev := ReverseOf(g);
    forall i, p | 1 <= i < |rev| && p in rev[i]
      ensures p < |rev| && rev[i][p] - {0} != {}
    {
      assert i in g[p].edges;
    }
  }

  // ----- simulation

  /** State 0 and at most one other state. */
  function OneHot(n: nat, s: nat): (bits: seq<bool>)
    ensures |bits| == n
  {
    seq(n, i => i == 0 || i == s)
  }

  lemma InEdgeReversed(g: Graph, s: nat, b: Byte, t: nat)
    requires t < |g| && s < |g|
    ensures InEdge(ReverseOf(g)[t], s, b) <==> b != 0 && EdgeOn(g, s, b, t)
  {
  }

  lemma MoveIs(g: Graph, s: nat, b: Byte, t: nat)
    requires Deterministic(g) && s < |g| && t != 0
    ensures Move(g, s, b) == t <==> b != 0 && EdgeOn(g, s, b, t)
  {
    if b != 0 && EdgeOn(g, s, b, t) {
      var u := Move(g, s, b);
      assert u != 0;
      assert DeterministicNode(g[s]);
    }
  }

  /** With one active state, a state is reached exactly when the active one moves to it. */
  lemma ReachedOneHot(g: Graph, s: nat, b: Byte, t: nat)
    requires Deterministic(g) && s < |g| && 1 <= t < |g|
    ensures Reached(ReverseOf(g)[t], |g|, b, OneHot(|g|, s)) <==> s != 0 && Move(g, s, b) == t
  {
    hide Move;
    var rev := ReverseOf(g)[t];
    MoveIs(g, s, b, t);
    InEdgeReversed(g, s, b, t);
    if s != 0 && InEdge(rev, s, b) {
      assert OneHot(|g|, s)[s];
    }
  }

  /** One step from one active state is one step of the scanner. */
  lemma NextOneHot(g: Graph, s: nat, b: Byte, t: nat)
    requires Deterministic(g) && Closed(g) && s < |g| && 1 <= t < |g|
    ensures NextOn(ReverseOf(g), t, b, OneHot(|g|, s)) <==> Next(g, s, b) == t
  {
    hide Reached;
    var rev := ReverseOf(g);
    forall u | 1 <= u < |g|
      ensures Reached(rev[u], |g|, b, OneHot(|g|, s)) <==> s != 0 && Move(g, s, b) == u
    {
      ReachedOneHot(g, s, b, u);
    }
    assert Quiet(rev, b, OneHot(|g|, s)) <==> s == 0 || Move(g, s, b) == 0 by {
      var u := Move(g, s, b);
      if u != 0 {
        assert EdgeOn(g, s, b, u);
        assert Reached(rev[u], |g|, b, OneHot(|g|, s)) <==> s != 0;
      }
    }
    MoveIs(g, 0, b, t);
    InEdgeReversed(g, 0, b, t);
  }

  /** The bits after a step from the scanner's state. */
  lemma StepIsNext(c: Circuit, g: Graph, s: nat, b: Byte)
    requires Compilable(g) && Implements(c, g) && s < |g|
    ensures var w := Eval(c.step, b, OneHot(|g|, s));
      seq(c.n, i requires 0 <= i < c.n => i == 0 || (i in w.next && w.next[i])) == OneHot(|g|, Next(g, s, b))
  {
    hide Next, NextOn, Eval, Ordered;
    var w := Eval(c.step, b, OneHot(|g|, s));
    forall t | 1 <= t < |g|
      ensures (t in w.next && w.next[t]) <==> t == Next(g, s, b)
    {
      NextOneHot(g, s, b, t);
    }
  }

  /** After every input exactly the scanner's state is on, besides state 0. */
  lemma {:induction false} Simulation(c: Circuit, g: Graph, input: seq<Byte>)
    requires Compilable(g) && Implements(c, g)
    ensures Scan(g, input) < |g| && Bits(c, input) == OneHot(|g|, Scan(g, input))
    decreases |input|
  {
    hide Next, StepCorrect;
    ScanInRange(g, input);
    if input == [] {
      assert Bits(c, input) == OneHot(|g|, 0);
    } else {
      var init, b := input[..|input| - 1], input[|input| - 1];
      Simulation(c, g, init);
      StepIsNext(c, g, Scan(g, init), b);
    }
  }

  /** The state-change detector is on exactly when the scanner moves to a state other than 0. */
  lemma DetectorFires(c: Circuit, g: Graph, s: nat, b: Byte)
    requires Compilable(g) && Implements(c, g) && s < |g|
    ensures true in Eval(c.step, b, OneHot(|g|, s)).changed <==> Next(g, s, b) != 0
  {
    hide Next, NextOn, Eval, Ordered;
    var changed := Eval(c.step, b, OneHot(|g|, s)).changed;
    var t := Next(g, s, b);
    forall k | 0 <= k < |changed|
      ensures changed[k] <==> t == k + 1
    {
      NextOneHot(g, s, b, k + 1);
    }
    NextInRange(g, s, b);
    if t != 0 {
      assert changed[t - 1];
    }
  }

  lemma NextInRange(g: Graph, s: nat, b: Byte)
    requires Closed(g) && g != [] && s < |g|
    ensures Next(g, s, b) < |g|
  {
  }

  /** A prefix is judged accepted exactly when the scanner stands on an accepting state, or state 0 accepts. */
  lemma AcceptedScan(c: Circuit, g: Graph, input: seq<Byte>)
    requires Compilable(g) && Implements(c, g)
    ensures Scan(g, input) < |g|
    ensures Accepted(c.judge, Bits(c, input)) <==> g[Scan(g, input)].accept || g[0].accept
  {
    hide Bits, Scan, StepCorrect, Accepted;
    Simulation(c, g, input);
    var s := Scan(g, input);
    if g[s].accept {
      assert s in AcceptNodes(g) && OneHot(|g|, s)[s];
    }
    if g[0].accept {
      assert 0 in AcceptNodes(g) && OneHot(|g|, s)[0];
    }
  }
}
