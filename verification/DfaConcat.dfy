/**
 * DfaConcat: joining the automata of two regex parts by merging the edges of the second start state
 * into the accepting states of the first automaton.
 */
module DfaConcat {
  import opened DfaGraphs
  import opened CircuitRuns

  /** Every state is named by its position. */
  ghost predicate Positional(g: Graph) {
    forall i :: 0 <= i < |g| ==> g[i].id == i
  }

  /** No edge leads back to the start. */
  ghost predicate NoEdgeToStart(g: Graph) {
    forall s :: 0 <= s < |g| ==> 0 !in g[s].edges
  }

  // ----- renaming

  function ShiftKeys(edges: map<nat, set<Byte>>, base: nat): (r: map<nat, set<Byte>>)
    ensures forall k :: k in r <==> base <= k && k - base in edges
    ensures forall k :: k in r ==> r[k] == edges[k - base]
  {
    var targets := set k | k in edges :: k + base;
    map k | k in targets && base <= k && k - base in edges :: edges[k - base]
  }

  /** The names become positions plus the base. */
  function RenameStates(g: Graph, base: nat): (r: Graph)
    ensures |r| == |g|
  {
    seq(|g|, i requires 0 <= i < |g| => Node(g[i].accept, i + base, ShiftKeys(g[i].edges, base)))
  }

  // ----- merging

  /** The bytes on the edges of a state to targets from one to another. */
  ghost function BytesRange(edges: map<nat, set<Byte>>, from: nat, to: nat): set<Byte> {
    set k, b | k in edges && from <= k < to && b in edges[k] :: b
  }

  /** All bytes on the edges of a state. */
  ghost function BytesOf(edges: map<nat, set<Byte>>): set<Byte> {
    set k, b | k in edges && b in edges[k] :: b
  }

  /** Bytes on the edges to targets above k. */
  ghost function BytesAbove(edges: map<nat, set<Byte>>, k: nat): set<Byte> {
    set j, b | j in edges && k < j && b in edges[j] :: b
  }

  ghost predicate DisjointEdges(edges: map<nat, set<Byte>>) {
    forall t, u, b :: t in edges && u in edges && b in edges[t] && b in edges[u] ==> t == u
  }

  /**
   * The edges of the source replace those of the target with the same name, and their bytes are taken
   * away from all other edges; a byte on several edges of the source stays on the last one.
   */
  ghost function Merged(target: map<nat, set<Byte>>, source: map<nat, set<Byte>>): (r: map<nat, set<Byte>>)
    ensures forall k :: k in r <==> k in target || k in source
    ensures DisjointEdges(source) ==> forall k :: k in source ==> r[k] == source[k]
    ensures forall k :: k in target && k !in source ==> r[k] == target[k] - BytesOf(source)
  {
    map k | k in target.Keys + source.Keys ::
      if k in source then source[k] - BytesAbove(source, k) else target[k] - BytesOf(source)
  }

  /** One edge of the source: its bytes leave all other edges, and it takes the place under its name. */
  function Inserted(edges: map<nat, set<Byte>>, k: nat, bytes: set<Byte>): (r: map<nat, set<Byte>>)
    ensures forall j :: j in r <==> j in edges || j == k
    ensures r[k] == bytes && forall j :: j in edges && j != k ==> r[j] == edges[j] - bytes
  {
    (map j | j in edges :: edges[j] - bytes)[k := bytes]
  }

  lemma RemoveTwice(a: set<Byte>, b: set<Byte>, c: set<Byte>)
    ensures a - b - c == a - (b + c)
  {
  }

  /** One pass over the source edges, in the order of their targets. */
  method MergeEdges(target: map<nat, set<Byte>>, source: map<nat, set<Byte>>, limit: nat) returns (r: map<nat, set<Byte>>)
    requires forall k :: k in source ==> k < limit
    ensures r == Merged(target, source)
  {
    hide BytesRange, Inserted, Merged, BytesAbove, BytesOf;
    r := target;
    NothingBelow(source);
    for k: nat := 0 to limit
      invariant forall j :: j in r <==> j in target || (j in source && j < k)
      invariant forall j :: j in source && j < k ==> r[j] == source[j] - BytesRange(source, j + 1, k)
      invariant forall j :: j in target && !(j in source && j < k) ==> r[j] == target[j] - BytesRange(source, 0, k)
    {
      BytesNext(source, k);
      if k in source {
        forall j | j in r
          ensures j in source && j < k ==> r[j] - source[k] == source[j] - BytesRange(source, j + 1, k + 1)
          ensures j in target && !(j in source && j < k) ==> r[j] - source[k] == target[j] - BytesRange(source, 0, k + 1)
        {
          if j in source && j < k {
            RemoveTwice(source[j], BytesRange(source, j + 1, k), source[k]);
          } else {
            RemoveTwice(target[j], BytesRange(source, 0, k), source[k]);
          }
        }
        r := Inserted(r, k, source[k]);
      }
    }
    BytesAll(source, limit);
    MergedIs(target, source, r);
  }

  lemma MergedIs(target: map<nat, set<Byte>>, source: map<nat, set<Byte>>, r: map<nat, set<Byte>>)
    requires forall j :: j in r <==> j in target || j in source
    requires forall j :: j in source ==> r[j] == source[j] - BytesAbove(source, j)
    requires forall j :: j in target && j !in source ==> r[j] == target[j] - BytesOf(source)
    ensures r == Merged(target, source)
  {
    hide BytesAbove, BytesOf;
    assert r.Keys == Merged(target, source).Keys;
  }

  lemma NothingBelow(edges: map<nat, set<Byte>>)
    ensures BytesRange(edges, 0, 0) == {}
  {
  }

  lemma BytesNext(edges: map<nat, set<Byte>>, k: nat)
    ensures forall j: nat :: j <= k ==>
      BytesRange(edges, j, k + 1) == BytesRange(edges, j, k) + (if k in edges then edges[k] else {})
    ensures BytesRange(edges, k + 1, k + 1) == {}
  {
  }

  lemma BytesAll(edges: map<nat, set<Byte>>, limit: nat)
    requires forall k :: k in edges ==> k < limit
    ensures BytesRange(edges, 0, limit) == BytesOf(edges)
    ensures forall k: nat :: BytesRange(edges, k + 1, limit) == BytesAbove(edges, k)
  {
  }

  /** The second start's edges are merged in, and its acceptance replaces that of the state. */
  ghost function Processed(node: Node, start: Node): Node {
    if node.accept then Node(start.accept, node.id, Merged(node.edges, start.edges)) else node
  }

  ghost function AddDfa(net: Graph, graph: Graph): (r: Graph)
    requires graph != []
  {
    if net == [] then graph
    else seq(|net|, i requires 0 <= i < |net| => Processed(net[i], graph[0])) + Others(graph, graph[0].id)
  }

  /** The states other than the start. */
  function Others(graph: Graph, start: nat): Graph {
    if graph == [] then []
    else Others(graph[..|graph| - 1], start)
         + (if graph[|graph| - 1].id != start then [graph[|graph| - 1]] else [])
  }

  method AddDfaInPlace(net: Graph, graph: Graph, limit: nat) returns (newDfa: Graph)
    requires graph != [] && forall k :: k in graph[0].edges ==> k < limit
    ensures newDfa == AddDfa(net, graph) && (net == [] ==> newDfa == graph)
  {
    if net == [] {
      return graph;
    }
    newDfa := net;
    var startState := graph[0];
    for i := 0 to |net|
      invariant |newDfa| == |net|
      invariant forall j :: 0 <= j < i ==> newDfa[j] == Processed(net[j], startState)
      invariant forall j :: i <= j < |net| ==> newDfa[j] == net[j]
    {
      if newDfa[i].accept {
        var edges := MergeEdges(newDfa[i].edges, startState.edges, limit);
        newDfa := newDfa[i := Node(startState.accept, newDfa[i].id, edges)];
      }
    }
    for i := 0 to |graph|
      invariant newDfa
             == seq(|net|, j requires 0 <= j < |net| => Processed(net[j], startState)) + Others(graph[..i], startState.id)
    {
      assert graph[..i + 1][..i] == graph[..i];
      if graph[i].id != startState.id {
        newDfa := newDfa + [graph[i]];
      }
    }
    assert graph[..|graph|] == graph;
  }

  // ----- the joined automaton

  /** The join as the compiler makes it: the base is the last name in use. */
  ghost function Joined(net: Graph, graph: Graph): Graph
    requires net != [] && graph != []
  {
    AddDfa(net, RenameStates(graph, |net| - 1))
  }

  ghost predicate Joinable(net: Graph, graph: Graph) {
    && net != [] && graph != []
    && Positional(net) && Closed(net) && Deterministic(net)
    && Closed(graph) && Deterministic(graph)
  }

  lemma {:induction false} OthersIs(renamed: Graph, base: nat)
    requires renamed != [] && forall i :: 0 <= i < |renamed| ==> renamed[i].id == i + base
    ensures Others(renamed, base) == renamed[1..]
    decreases |renamed|
  {
    if |renamed| > 1 {
      OthersIs(renamed[..|renamed| - 1], base);
      assert renamed[1..] == renamed[..|renamed| - 1][1..] + [renamed[|renamed| - 1]];
    } else {
      assert renamed[..0] == [];
    }
  }

  /** The second start as the merge sees it. */
  function StartOf(net: Graph, graph: Graph): Node
    requires net != [] && graph != []
  {
    Node(graph[0].accept, |net| - 1, ShiftKeys(graph[0].edges, |net| - 1))
  }

  /** State by state: the first automaton, then the second without its start. */
  ghost function JoinedNode(net: Graph, graph: Graph, s: nat): Node
    requires net != [] && graph != [] && s < |net| + |graph| - 1
  {
    if s < |net| then Processed(net[s], StartOf(net, graph))
    else Node(graph[s - |net| + 1].accept, s, ShiftKeys(graph[s - |net| + 1].edges, |net| - 1))
  }

  lemma JoinedNodes(net: Graph, graph: Graph)
    requires net != [] && graph != []
    ensures |Joined(net, graph)| == |net| + |graph| - 1
    ensures forall s :: 0 <= s < |Joined(net, graph)| ==> Joined(net, graph)[s] == JoinedNode(net, graph, s)
  {
    hide ShiftKeys, Processed;
    var n := |net|;
    var renamed := RenameStates(graph, n - 1);
    OthersIs(renamed, n - 1);
    var r := Joined(net, graph);
    forall s | 0 <= s < |r|
      ensures r[s] == JoinedNode(net, graph, s)
    {
      if s >= n {
        assert r[s] == renamed[1..][s - n] == renamed[s - n + 1];
      }
    }
  }

  lemma ShiftedBytes(edges: map<nat, set<Byte>>, base: nat)
    ensures BytesOf(ShiftKeys(edges, base)) == BytesOf(edges)
  {
    var shifted := ShiftKeys(edges, base);
    forall b | b in BytesOf(edges)
      ensures b in BytesOf(shifted)
    {
      var k: nat :| k in edges && b in edges[k];
      assert k + base in shifted && b in shifted[k + base];
    }
  }

  /** An edge of the first automaton that joining keeps. */
  ghost predicate Kept(net: Graph, graph: Graph, s: nat, b: Byte, t: nat)
    requires net != [] && graph != []
  {
    && EdgeOn(net, s, b, t)
    && (net[s].accept ==> b !in BytesOf(graph[0].edges) && !(t == |net| - 1 && 0 in graph[0].edges))
  }

  /** An edge of the second automaton, between the places its states have after joining. */
  ghost predicate Moved(net: Graph, graph: Graph, s: nat, b: Byte, t: nat)
    requires net != []
  {
    |net| - 1 <= t && EdgeOn(graph, s, b, t - |net| + 1)
  }

  /** The edges of an accepting state of the first automaton. */
  lemma AcceptEdges(net: Graph, graph: Graph, s: nat, b: Byte, t: nat)
    requires Joinable(net, graph) && s < |net| && net[s].accept
    ensures var e := JoinedNode(net, graph, s).edges;
      t in e && b in e[t] <==> Kept(net, graph, s, b, t) || Moved(net, graph, 0, b, t)
  {
    hide ShiftKeys, Merged, BytesOf, Deterministic, Positional;
    var base := |net| - 1;
    var shifted := ShiftKeys(graph[0].edges, base);
    ShiftedBytes(graph[0].edges, base);
    ShiftedDisjoint(graph, base);
    assert t in shifted <==> base <= t && t - base in graph[0].edges;
    assert EdgeOn(net, s, b, t) ==> t < |net|;
  }

  lemma ShiftedDisjoint(graph: Graph, base: nat)
    requires graph != [] && Deterministic(graph)
    ensures DisjointEdges(ShiftKeys(graph[0].edges, base))
  {
    assert DeterministicNode(graph[0]);
  }

  /** All edges of the joined automaton. */
  lemma JoinedEdges(net: Graph, graph: Graph, s: nat, b: Byte, t: nat)
    requires Joinable(net, graph)
    ensures EdgeOn(Joined(net, graph), s, b, t) <==>
      if s < |net| then Kept(net, graph, s, b, t) || (net[s].accept && Moved(net, graph, 0, b, t))
      else Moved(net, graph, s - |net| + 1, b, t)
  {
    hide ShiftKeys, Merged, BytesOf, Joined;
    JoinedNodes(net, graph);
    if s < |net| && net[s].accept {
      AcceptEdges(net, graph, s, b, t);
    }
  }

  /** Names stay positions, and the result is again closed and deterministic. */
  lemma JoinedWellFormed(net: Graph, graph: Graph)
    requires Joinable(net, graph)
    ensures var r := Joined(net, graph); Positional(r) && Closed(r) && Deterministic(r)
  {
    hide ShiftKeys, Merged, BytesOf, Joined;
    var r, n := Joined(net, graph), |net|;
    JoinedNodes(net, graph);
    forall s | 0 <= s < |r|
      ensures r[s].id == s
      ensures forall t :: t in r[s].edges ==> t < |r|
    {
    }
    forall s | 0 <= s < |r|
      ensures DeterministicNode(r[s])
    {
      JoinedDeterministic(net, graph, s);
    }
  }

  lemma JoinedDeterministic(net: Graph, graph: Graph, s: nat)
    requires Joinable(net, graph) && s < |net| + |graph| - 1
    ensures DeterministicNode(JoinedNode(net, graph, s))
  {
    hide ShiftKeys, Merged, BytesOf, Joined;
    var r, n, node := Joined(net, graph), |net|, JoinedNode(net, graph, s);
    JoinedNodes(net, graph);
    assert r[s] == node;
    forall t: nat, u: nat, b | t in node.edges && u in node.edges && b in node.edges[t] && b in node.edges[u]
      ensures t == u
    {
      assert EdgeOn(r, s, b, t) && EdgeOn(r, s, b, u);
      JoinedEdges(net, graph, s, b, t);
      JoinedEdges(net, graph, s, b, u);
      assert DeterministicNode(graph[0]);
      if s < n {
        assert DeterministicNode(net[s]);
        if net[s].accept && Moved(net, graph, 0, b, u) {
          InBytes(graph[0].edges, b, u - n + 1);
        }
        if net[s].accept && Moved(net, graph, 0, b, t) {
          InBytes(graph[0].edges, b, t - n + 1);
        }
      } else {
        assert DeterministicNode(graph[s - n + 1]);
      }
    }
  }

  lemma InBytes(edges: map<nat, set<Byte>>, b: Byte, k: nat)
    requires k in edges && b in edges[k]
    ensures b in BytesOf(edges)
  {
  }

  // ----- the language

  ghost predicate InConcat(net: Graph, graph: Graph, word: seq<Byte>) {
    exists i: nat :: i <= |word| && Accepts(net, word[..i]) && Accepts(graph, word[i..])
  }

  /** No step of the word out of an accepting state takes an edge that joining removes. */
  ghost predicate Undisturbed(net: Graph, graph: Graph, word: seq<Byte>)
    requires graph != []
  {
    forall k, s: nat :: 0 <= k < |word| && s < |net| && net[s].accept && Path(net, 0, word[..k], s)
      ==> word[k] !in BytesOf(graph[0].edges) && !(EdgeOn(net, s, word[k], |net| - 1) && 0 in graph[0].edges)
  }

  /**
   * Edges back to the second start lead to the last state of the first automaton. They return to a
   * start when that state accepts and keeps no edge of its own.
   */
  ghost predicate Returns(net: Graph, graph: Graph)
    requires net != [] && graph != []
  {
    || NoEdgeToStart(graph)
    || (net[|net| - 1].accept && forall s: nat, b: Byte, t: nat :: s == |net| - 1 ==> !Kept(net, graph, s, b, t))
  }

  /** The word splits at i into one of the first automaton and one on which the second reaches j. */
  ghost predicate Crossed(net: Graph, graph: Graph, word: seq<Byte>, j: nat, i: nat)
    requires graph != []
  {
    i <= |word| && Accepts(net, word[..i]) && Undisturbed(net, graph, word[..i]) && Path(graph, 0, word[i..], j)
  }

  /** The state stands for one of the second automaton. */
  ghost predicate InSecond(net: Graph, graph: Graph, t: nat) {
    t >= |net| || (t == |net| - 1 && !NoEdgeToStart(graph))
  }

  lemma {:induction false} UndisturbedSnoc(net: Graph, graph: Graph, word: seq<Byte>, s: nat, b: Byte, t: nat)
    requires Joinable(net, graph) && Undisturbed(net, graph, word) && Path(net, 0, word, s) && Kept(net, graph, s, b, t)
    ensures Undisturbed(net, graph, word + [b])
  {
    hide BytesOf, Path;
    var longer := word + [b];
    forall k, u: nat | 0 <= k < |longer| && u < |net| && net[u].accept && Path(net, 0, longer[..k], u)
      ensures longer[k] !in BytesOf(graph[0].edges) && !(EdgeOn(net, u, longer[k], |net| - 1) && 0 in graph[0].edges)
    {
      if k < |word| {
        assert longer[..k] == word[..k] && longer[k] == word[k];
      } else {
        assert longer[..k] == word;
        PathUnique(net, 0, word, s, u);
        assert DeterministicNode(net[s]);
      }
    }
  }

  lemma UndisturbedKept(net: Graph, graph: Graph, word: seq<Byte>, s: nat, t: nat)
    requires Joinable(net, graph) && word != [] && Undisturbed(net, graph, word)
    requires Path(net, 0, word[..|word| - 1], s) && EdgeOn(net, s, word[|word| - 1], t)
    ensures Kept(net, graph, s, word[|word| - 1], t)
  {
    hide BytesOf, Path;
  }

  /** What a path of the joined automaton stands for. */
  lemma {:induction false} JoinedPath(net: Graph, graph: Graph, word: seq<Byte>, t: nat) returns (i: nat)
    requires Joinable(net, graph) && Returns(net, graph) && Path(Joined(net, graph), 0, word, t)
    ensures !InSecond(net, graph, t) ==> Path(net, 0, word, t) && Undisturbed(net, graph, word)
    ensures InSecond(net, graph, t) ==> Crossed(net, graph, word, t - |net| + 1, i)
    decreases |word|
  {
    hide Joined, Accepts, BytesOf, Undisturbed, NoEdgeToStart, Path, Positional, Closed, Deterministic, Kept, Crossed;
    var r := Joined(net, graph);
    if word == [] {
      OnlyEmptyPath(r, 0, t);
      EmptyPath(net, 0);
      i := StayedFirst(net, graph, word, t);
    } else {
      var init, b := word[..|word| - 1], word[|word| - 1];
      var mid := LastEdge(r, 0, word, t);
      var j := JoinedPath(net, graph, init, mid);
      JoinedEdges(net, graph, mid, b, t);
      assert word == init + [b];
      if InSecond(net, graph, mid) {
        i := j;
        StayedSecond(net, graph, init, mid, b, t, j);
      } else if Kept(net, graph, mid, b, t) {
        KeptIsEdge(net, graph, init, mid, b, t);
        i := StayedFirst(net, graph, word, t);
      } else {
        i := |init|;
        LeavesAtAccept(net, graph, init, mid, b, t);
      }
    }
  }

  lemma KeptIsEdge(net: Graph, graph: Graph, init: seq<Byte>, mid: nat, b: Byte, t: nat)
    requires Joinable(net, graph) && Undisturbed(net, graph, init) && Path(net, 0, init, mid) && Kept(net, graph, mid, b, t)
    ensures t < |net| && Path(net, 0, init + [b], t) && Undisturbed(net, graph, init + [b])
  {
    hide BytesOf, Path, Undisturbed;
    PathSnoc(net, 0, init, mid, b, t);
    UndisturbedSnoc(net, graph, init, mid, b, t);
  }

  /** In the first automaton; at its last state the second may count as begun. */
  lemma StayedFirst(net: Graph, graph: Graph, word: seq<Byte>, t: nat) returns (i: nat)
    requires Joinable(net, graph) && Returns(net, graph) && t < |net| && Path(net, 0, word, t)
    requires word == [] || Undisturbed(net, graph, word)
    ensures Undisturbed(net, graph, word)
    ensures InSecond(net, graph, t) ==> Crossed(net, graph, word, t - |net| + 1, i)
  {
    hide BytesOf, Path;
    i := |word|;
    EmptyPath(graph, 0);
    assert word[..i] == word && word[i..] == [];
  }

  lemma LeavesAtAccept(net: Graph, graph: Graph, init: seq<Byte>, mid: nat, b: Byte, t: nat)
    requires Joinable(net, graph) && mid < |net| && net[mid].accept && Path(net, 0, init, mid)
    requires Undisturbed(net, graph, init) && Moved(net, graph, 0, b, t)
    ensures InSecond(net, graph, t) && Crossed(net, graph, init + [b], t - |net| + 1, |init|)
  {
    hide BytesOf, Undisturbed, Path;
    var word := init + [b];
    EmptyPath(graph, 0);
    PathSnoc(graph, 0, [], 0, b, t - |net| + 1);
    assert word[..|init|] == init && word[|init|..] == [] + [b];
  }

  lemma StayedSecond(net: Graph, graph: Graph, init: seq<Byte>, mid: nat, b: Byte, t: nat, j: nat)
    requires Joinable(net, graph) && Returns(net, graph) && InSecond(net, graph, mid)
    requires Crossed(net, graph, init, mid - |net| + 1, j) && EdgeOn(Joined(net, graph), mid, b, t)
    ensures InSecond(net, graph, t) && Crossed(net, graph, init + [b], t - |net| + 1, j)
  {
    hide BytesOf, Undisturbed, Path, Joined, Kept, Positional, Accepts;
    var word := init + [b];
    JoinedEdges(net, graph, mid, b, t);
    PathSnoc(graph, 0, init[j..], mid - |net| + 1, b, t - |net| + 1);
    assert word[..j] == init[..j] && word[j..] == init[j..] + [b];
  }

  /** Every word of the joined automaton is an undisturbed word of the first followed by one of the second. */
  lemma JoinedSound(net: Graph, graph: Graph, word: seq<Byte>) returns (i: nat)
    requires Joinable(net, graph) && Returns(net, graph) && Accepts(Joined(net, graph), word)
    ensures i <= |word| && Accepts(net, word[..i]) && Undisturbed(net, graph, word[..i]) && Accepts(graph, word[i..])
  {
    hide Joined, BytesOf, Path, Undisturbed, Positional, Closed, Deterministic, NoEdgeToStart, Kept;
    var r, n := Joined(net, graph), |net|;
    JoinedNodes(net, graph);
    var t: nat :| t < |r| && r[t].accept && Path(r, 0, word, t);
    JoinedAccepts(net, graph, t);
    i := JoinedPath(net, graph, word, t);
    if !InSecond(net, graph, t) {
      i := |word|;
      EmptyPath(graph, 0);
      assert word[..|word|] == word && word[|word|..] == [];
    }
  }

  lemma EmptyPath(g: Graph, s: nat)
    ensures Path(g, s, [], s)
  {
  }

  lemma {:induction false} FirstPartKept(net: Graph, graph: Graph, word: seq<Byte>, t: nat)
    requires Joinable(net, graph) && Undisturbed(net, graph, word) && Path(net, 0, word, t)
    ensures Path(Joined(net, graph), 0, word, t)
    decreases |word|
  {
    hide Joined, BytesOf, Path, Positional, Closed, Deterministic, Kept;
    var r := Joined(net, graph);
    if word == [] {
      OnlyEmptyPath(net, 0, t);
      EmptyPath(r, 0);
    } else {
      var init, b := word[..|word| - 1], word[|word| - 1];
      var mid := LastEdge(net, 0, word, t);
      UndisturbedInit(net, graph, word);
      FirstPartKept(net, graph, init, mid);
      UndisturbedKept(net, graph, word, mid, t);
      JoinedEdges(net, graph, mid, b, t);
      PathSnoc(r, 0, init, mid, b, t);
      assert init + [b] == word;
    }
  }

  lemma UndisturbedInit(net: Graph, graph: Graph, word: seq<Byte>)
    requires graph != [] && word != [] && Undisturbed(net, graph, word)
    ensures Undisturbed(net, graph, word[..|word| - 1])
  {
    hide BytesOf, Path;
    var init := word[..|word| - 1];
    forall k | 0 <= k < |init|
      ensures init[..k] == word[..k] && init[k] == word[k]
    {
    }
  }

  lemma {:induction false} SecondPartKept(net: Graph, graph: Graph, m: nat, word: seq<Byte>, j: nat)
    requires Joinable(net, graph) && Returns(net, graph) && m < |net| && net[m].accept
    requires word != [] && Path(graph, 0, word, j)
    ensures (j == 0 ==> !NoEdgeToStart(graph)) && Path(Joined(net, graph), m, word, |net| - 1 + j)
    decreases |word|
  {
    hide Joined, Joinable, Path, EdgeOn, Returns, NoEdgeToStart;
    var init, b := word[..|word| - 1], word[|word| - 1];
    var mid := LastEdge(graph, 0, word, j);
    if init == [] {
      OnlyEmptyPath(graph, 0, mid);
      FirstCrossing(net, graph, m, b, j);
      assert word == [b];
    } else {
      SecondPartKept(net, graph, m, init, mid);
      NextCrossing(net, graph, m, init, mid, b, j);
      assert word == init + [b];
    }
  }

  lemma FirstCrossing(net: Graph, graph: Graph, m: nat, b: Byte, j: nat)
    requires Joinable(net, graph) && m < |net| && net[m].accept && EdgeOn(graph, 0, b, j)
    ensures (j == 0 ==> !NoEdgeToStart(graph)) && Path(Joined(net, graph), m, [b], |net| - 1 + j)
  {
    hide Joined, BytesOf, Path, Closed, Deterministic, Positional, Kept;
    var r, t := Joined(net, graph), |net| - 1 + j;
    EmptyPath(r, m);
    JoinedEdges(net, graph, m, b, t);
    PathSnoc(r, m, [], m, b, t);
    assert [] + [b] == [b];
  }

  lemma NextCrossing(net: Graph, graph: Graph, m: nat, init: seq<Byte>, mid: nat, b: Byte, j: nat)
    requires Joinable(net, graph) && Returns(net, graph) && EdgeOn(graph, mid, b, j)
    requires (mid == 0 ==> !NoEdgeToStart(graph)) && Path(Joined(net, graph), m, init, |net| - 1 + mid)
    ensures (j == 0 ==> !NoEdgeToStart(graph)) && Path(Joined(net, graph), m, init + [b], |net| - 1 + j)
  {
    hide Joined, BytesOf, Path, Closed, Deterministic, Positional, Kept;
    var r, n := Joined(net, graph), |net|;
    JoinedEdges(net, graph, n - 1 + mid, b, n - 1 + j);
    PathSnoc(r, m, init, n - 1 + mid, b, n - 1 + j);
  }

  /**
   * The joined automaton accepts exactly the words that split into one of each automaton such that
   * no step of the first part is taken away by the merge.
   */
  lemma JoinedExact(net: Graph, graph: Graph, word: seq<Byte>)
    requires Joinable(net, graph) && Returns(net, graph)
    ensures Accepts(Joined(net, graph), word)
       <==> exists i :: 0 <= i <= |word|
              && Accepts(net, word[..i]) && Undisturbed(net, graph, word[..i]) && Accepts(graph, word[i..])
  {
    hide Joined, BytesOf, Path, Undisturbed, Positional, Closed, Deterministic, Returns;
    if Accepts(Joined(net, graph), word) {
      var i := JoinedSound(net, graph, word);
    }
    if i: nat :| i <= |word| && Accepts(net, word[..i]) && Undisturbed(net, graph, word[..i]) && Accepts(graph, word[i..]) {
      var m: nat :| m < |net| && net[m].accept && Path(net, 0, word[..i], m);
      var j: nat :| j < |graph| && graph[j].accept && Path(graph, 0, word[i..], j);
      JoinedComplete(net, graph, word[..i], m, word[i..], j);
      assert word[..i] + word[i..] == word;
    }
  }

  lemma JoinedComplete(net: Graph, graph: Graph, u: seq<Byte>, m: nat, v: seq<Byte>, j: nat)
    requires Joinable(net, graph) && Returns(net, graph) && Undisturbed(net, graph, u)
    requires m < |net| && net[m].accept && Path(net, 0, u, m)
    requires j < |graph| && graph[j].accept && Path(graph, 0, v, j)
    ensures Accepts(Joined(net, graph), u + v)
  {
    hide Joined, BytesOf, Undisturbed, Path, Kept, NoEdgeToStart;
    var r, n := Joined(net, graph), |net|;
    FirstPartKept(net, graph, u, m);
    if v == [] {
      OnlyEmptyPath(graph, 0, j);
      JoinedAccepts(net, graph, m);
      assert u + v == u;
    } else {
      SecondPartKept(net, graph, m, v, j);
      PathConcat(r, 0, u, m, v, n - 1 + j);
      JoinedAccepts(net, graph, n - 1 + j);
    }
  }

  /** Joining keeps every edge of an accepting state of the first automaton. */
  ghost predicate Unambiguous(net: Graph, graph: Graph)
    requires net != [] && graph != []
  {
    forall s: nat, b: Byte, t: nat :: EdgeOn(net, s, b, t) ==> Kept(net, graph, s, b, t)
  }

  /** Then the joined automaton accepts exactly the concatenation. */
  lemma JoinedConcat(net: Graph, graph: Graph, word: seq<Byte>)
    requires Joinable(net, graph) && Returns(net, graph) && Unambiguous(net, graph)
    ensures Accepts(Joined(net, graph), word) <==> InConcat(net, graph, word)
  {
    hide Joined, BytesOf, Path, Undisturbed, Positional, Closed, Deterministic, Returns, Unambiguous, EdgeOn;
    JoinedExact(net, graph, word);
    forall i | 0 <= i <= |word| && Accepts(net, word[..i])
      ensures Undisturbed(net, graph, word[..i])
    {
      var m: nat :| m < |net| && net[m].accept && Path(net, 0, word[..i], m);
      AlwaysUndisturbed(net, graph, word[..i], m);
    }
  }

  lemma AlwaysUndisturbed(net: Graph, graph: Graph, word: seq<Byte>, t: nat)
    requires Joinable(net, graph) && Unambiguous(net, graph) && Path(net, 0, word, t)
    ensures Undisturbed(net, graph, word)
  {
    hide BytesOf, Path;
    forall k, s: nat | 0 <= k < |word| && s < |net| && net[s].accept && Path(net, 0, word[..k], s)
      ensures word[k] !in BytesOf(graph[0].edges) && !(EdgeOn(net, s, word[k], |net| - 1) && 0 in graph[0].edges)
    {
      var next := StepOfPath(net, word, t, k, s);
      assert Kept(net, graph, s, word[k], next);
      assert DeterministicNode(net[s]);
    }
  }

  /** The edge that a path takes after its first k bytes. */
  lemma StepOfPath(g: Graph, word: seq<Byte>, t: nat, k: nat, s: nat) returns (next: nat)
    requires Deterministic(g) && k < |word| && Path(g, 0, word, t) && Path(g, 0, word[..k], s)
    ensures EdgeOn(g, s, word[k], next)
  {
    hide Path, Deterministic, EdgeOn;
    var u, b, v := word[..k], word[k], word[k + 1..];
    assert word == u + ([b] + v);
    var mid := PathSplit(g, 0, u, [b] + v, t);
    PathUnique(g, 0, u, s, mid);
    next := PathSplit(g, s, [b], v, t);
    var from := LastEdge(g, s, [b], next);
    assert [b][..0] == [];
    OnlyEmptyPath(g, s, from);
  }

  lemma OnlyEmptyPath(g: Graph, s: nat, t: nat)
    requires Path(g, s, [], t)
    ensures s == t
  {
  }

  lemma JoinedAccepts(net: Graph, graph: Graph, s: nat)
    requires Joinable(net, graph) && s < |net| + |graph| - 1
    ensures s < |Joined(net, graph)|
    ensures Joined(net, graph)[s].accept
       <==> if s < |net| then net[s].accept && graph[0].accept else graph[s - |net| + 1].accept
  {
    hide Joined, BytesOf, ShiftKeys, Merged;
    JoinedNodes(net, graph);
  }

  // ----- edges that lose all their bytes

  /** The merge leaves a nonzero byte on every edge of an accepting state that it does not replace. */
  ghost predicate EdgesSurvive(net: Graph, graph: Graph)
    requires graph != []
  {
    forall s, k :: 0 <= s < |net| && net[s].accept && k in net[s].edges && k != 0
      ==> (k == |net| - 1 && 0 in graph[0].edges) || net[s].edges[k] - BytesOf(graph[0].edges) - {0} != {}
  }

  /** So have the edges back to the second start, which now lead to a state other than 0. */
  ghost predicate BackEdgesCarryBytes(net: Graph, graph: Graph) {
    forall s :: 0 <= s < |graph| && 0 in graph[s].edges && (s == 0 ==> exists m :: 0 <= m < |net| && net[m].accept)
      ==> graph[s].edges[0] - {0} != {}
  }

  /** The circuit of the joined automaton is well formed unless an edge is left without bytes. */
  lemma JoinedCompilable(net: Graph, graph: Graph)
    requires Joinable(net, graph) && Compilable(net) && Compilable(graph)
    ensures Compilable(Joined(net, graph)) <==> EdgesSurvive(net, graph) && BackEdgesCarryBytes(net, graph)
  {
    hide Joined, BytesOf, ShiftKeys, Merged, Path, Deterministic, Positional, EdgesSurvive, BackEdgesCarryBytes;
    JoinedNodes(net, graph);
    ShiftedDisjoint(graph, |net| - 1);
    ShiftedBytes(graph[0].edges, |net| - 1);
    JoinedWellFormed(net, graph);
    if Compilable(Joined(net, graph)) {
      CompilableSurvives(net, graph);
    } else {
      SurvivingCompiles(net, graph);
    }
  }

  lemma CompilableSurvives(net: Graph, graph: Graph)
    requires Joinable(net, graph) && Compilable(net) && Compilable(graph) && Compilable(Joined(net, graph))
    ensures EdgesSurvive(net, graph) && BackEdgesCarryBytes(net, graph)
  {
    hide Joined, BytesOf, ShiftKeys, Merged, Path, Deterministic, Positional;
    var r, n := Joined(net, graph), |net|;
    JoinedNodes(net, graph);
    ShiftedDisjoint(graph, n - 1);
    ShiftedBytes(graph[0].edges, n - 1);
    forall s, k | 0 <= s < n && net[s].accept && k in net[s].edges && k != 0 && !(k == n - 1 && 0 in graph[0].edges)
      ensures net[s].edges[k] - BytesOf(graph[0].edges) - {0} != {}
    {
      assert r[s] == JoinedNode(net, graph, s);
      assert k in r[s].edges && r[s].edges[k] - {0} != {};
    }
    forall s | 0 <= s < |graph| && 0 in graph[s].edges && (s == 0 ==> exists m :: 0 <= m < n && net[m].accept)
      ensures graph[s].edges[0] - {0} != {}
    {
      var u: nat := if s > 0 then s + n - 1 else var m :| 0 <= m < n && net[m].accept; m;
      assert r[u] == JoinedNode(net, graph, u);
      assert n - 1 in r[u].edges && r[u].edges[n - 1] - {0} != {};
    }
  }

  lemma SurvivingCompiles(net: Graph, graph: Graph)
    requires Joinable(net, graph) && Compilable(net) && Compilable(graph) && !Compilable(Joined(net, graph))
    ensures !(EdgesSurvive(net, graph) && BackEdgesCarryBytes(net, graph))
  {
    hide Joined, BytesOf, ShiftKeys, Merged, Path, Deterministic, Positional, EdgesSurvive, BackEdgesCarryBytes;
    var r := Joined(net, graph);
    JoinedNodes(net, graph);
    JoinedWellFormed(net, graph);
    var s, t :| 0 <= s < |r| && t in r[s].edges && t != 0 && r[s].edges[t] - {0} == {};
    assert r[s] == JoinedNode(net, graph, s);
    if s < |net| {
      EmptyInFirst(net, graph, s, t);
    } else {
      EmptyInSecond(net, graph, s, t);
    }
  }

  lemma EmptyInFirst(net: Graph, graph: Graph, s: nat, t: nat)
    requires Joinable(net, graph) && Compilable(net) && Compilable(graph) && s < |net| && t != 0
    requires var edges := JoinedNode(net, graph, s).edges; t in edges && edges[t] - {0} == {}
    ensures !(EdgesSurvive(net, graph) && BackEdgesCarryBytes(net, graph))
  {
    hide BytesOf, ShiftKeys, Merged, Deterministic, Positional;
    var base := |net| - 1;
    ShiftedDisjoint(graph, base);
    ShiftedBytes(graph[0].edges, base);
    if net[s].accept && !(t >= base && t - base in graph[0].edges) {
      assert net[s].edges[t] - BytesOf(graph[0].edges) - {0} == {};
    }
  }

  lemma EmptyInSecond(net: Graph, graph: Graph, s: nat, t: nat)
    requires Joinable(net, graph) && Compilable(net) && Compilable(graph) && |net| <= s < |net| + |graph| - 1
    requires var edges := JoinedNode(net, graph, s).edges; t in edges && edges[t] - {0} == {}
    ensures !BackEdgesCarryBytes(net, graph)
  {
    hide ShiftKeys, Deterministic, Positional;
    var u := s - |net| + 1;
    assert t - |net| + 1 in graph[u].edges;
  }

  /** One or more times the byte 97, and the byte 97 once. */
  function Repeated(): (g: Graph) {
    [Node(false, 0, map[1 := {97}]), Node(true, 1, map[1 := {97}])]
  }

  function Once(): (g: Graph) {
    [Node(false, 0, map[1 := {97}]), Node(true, 1, map[])]
  }

  /** Joining them leaves an edge without bytes, so the circuit of the joined automaton is not well formed. */
  lemma ShadowedEdge()
    ensures Joinable(Repeated(), Once()) && Compilable(Repeated()) && Compilable(Once())
    ensures !Compilable(Joined(Repeated(), Once()))
  {
    var net, graph := Repeated(), Once();
    assert 97 in net[0].edges[1] - {0} && 97 in net[1].edges[1] - {0} && 97 in graph[0].edges[1] - {0};
    InBytes(graph[0].edges, 97, 1);
    assert net[1].edges[1] - BytesOf(graph[0].edges) - {0} == {};
    hide Joined;
    JoinedCompilable(net, graph);
    assert net[1].accept && 1 in net[1].edges;
  }

  // ----- edges back to the second start

  /** The words 98 and 99 100; the last state is the one between the two bytes. */
  function Branching(): (g: Graph)
    ensures |g| == 3 && g[0] == Node(false, 0, map[1 := {98}, 2 := {99}])
    ensures g[1] == Node(true, 1, map[]) && g[2] == Node(false, 2, map[1 := {100}])
  {
    [Node(false, 0, map[1 := {98}, 2 := {99}]), Node(true, 1, map[]), Node(false, 2, map[1 := {100}])]
  }

  /** Any number of times the byte 97, in one state. */
  function Loop(): (g: Graph)
    ensures |g| == 1 && g[0] == Node(true, 0, map[0 := {97}])
  {
    [Node(true, 0, map[0 := {97}])]
  }

  /**
   * The loop is renamed to the last state of the first automaton, which does not accept: a word is
   * lost, and another is accepted that is not in the concatenation.
   */
  lemma LoopIsMisdirected()
    ensures Joinable(Branching(), Loop()) && !Returns(Branching(), Loop())
    ensures InConcat(Branching(), Loop(), [98, 97]) && !Accepts(Joined(Branching(), Loop()), [98, 97])
    ensures !InConcat(Branching(), Loop(), [98, 97, 100]) && Accepts(Joined(Branching(), Loop()), [98, 97, 100])
  {
    hide Branching, Loop, Joined;
    LoopWellFormed();
    LoopAccepts();
    LoopLost();
    LoopNotInConcat();
    LoopGained();
  }

  lemma LoopWellFormed()
    ensures Joinable(Branching(), Loop()) && !Returns(Branching(), Loop())
  {
    hide BytesOf;
    assert 0 in Loop()[0].edges;
  }

  lemma LoopLost()
    ensures !Accepts(Joined(Branching(), Loop()), [98, 97])
  {
    hide Branching, Loop, Joined;
    LoopJoined();
    var r := Joined(Branching(), Loop());
    forall t: nat | Path(r, 0, [98, 97], t)
      ensures t == 2
    {
      assert [98, 97][..1] == [98] && [98][..0] == [];
      var m := LastEdge(r, 0, [98, 97], t);
      var o := LastEdge(r, 0, [98], m);
      OnlyEmptyPath(r, 0, o);
    }
  }

  lemma LoopGained()
    ensures Accepts(Joined(Branching(), Loop()), [98, 97, 100])
  {
    hide Branching, Loop, Joined;
    LoopJoined();
    var r := Joined(Branching(), Loop());
    EmptyPath(r, 0);
    PathSnoc(r, 0, [], 0, 98, 1);
    PathSnoc(r, 0, [] + [98], 1, 97, 2);
    PathSnoc(r, 0, [] + [98] + [97], 2, 100, 1);
    assert [] + [98] + [97] + [100] == [98, 97, 100];
  }

  lemma LoopNotInConcat()
    ensures !InConcat(Branching(), Loop(), [98, 97, 100])
  {
    hide Branching, Loop;
    var net, graph, word := Branching(), Loop(), [98, 97, 100];
    forall i: nat | i <= |word| && Accepts(net, word[..i])
      ensures !Accepts(graph, word[i..])
    {
      if j: nat :| j < |graph| && graph[j].accept && Path(graph, 0, word[i..], j) {
        var t: nat :| t < |net| && net[t].accept && Path(net, 0, word[..i], t);
        if i < 3 {
          var m := LastEdge(graph, 0, word[i..], j);
          assert false;
        } else {
          var m := LastEdge(net, 0, word[..i], t);
          assert word[..i][..2] == [98, 97] && m == 2;
          var o := LastEdge(net, 0, word[..i][..2], m);
          assert false;
        }
      }
    }
  }

  lemma LoopAccepts()
    ensures InConcat(Branching(), Loop(), [98, 97])
  {
    hide Branching, Loop;
    var net, graph, word := Branching(), Loop(), [98, 97];
    EmptyPath(net, 0);
    EmptyPath(graph, 0);
    assert EdgeOn(net, 0, 98, 1) && EdgeOn(graph, 0, 97, 0);
    PathSnoc(net, 0, [], 0, 98, 1);
    PathSnoc(graph, 0, [], 0, 97, 0);
    assert word[..1] == [] + [98] && word[1..] == [] + [97];
    assert Accepts(net, word[..1]) && Accepts(graph, word[1..]);
  }

  lemma LoopJoined()
    ensures var r := Joined(Branching(), Loop());
      && |r| == 3 && !r[2].accept && r[1].accept
      && (forall m: nat :: EdgeOn(r, 0, 98, m) <==> m == 1)
      && (forall t: nat :: EdgeOn(r, 1, 97, t) <==> t == 2)
      && EdgeOn(r, 2, 100, 1)
  {
    hide Branching, Loop, Joined, Merged, ShiftKeys, BytesOf;
    var net, graph := Branching(), Loop();
    JoinedNodes(net, graph);
    var r := Joined(net, graph);
    assert r[0] == JoinedNode(net, graph, 0) == net[0];
    assert r[2] == JoinedNode(net, graph, 2) == net[2];
    LoopWellFormed();
    JoinedAccepts(net, graph, 1);
    forall t: nat
      ensures EdgeOn(r, 1, 97, t) <==> t == 2
    {
      JoinedEdges(net, graph, 1, 97, t);
    }
  }
}
