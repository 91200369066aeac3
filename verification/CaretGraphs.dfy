/**
 * CaretGraphs: how a start anchor enters the automaton, and the anchored compiler from end to end.
 */
module CaretGraphs {
  import opened Results
  import opened DfaGraphs
  import opened CircuitRuns
  import opened CircuitTheorems
  import opened DfaConcat

  // ----- a part that is only the anchor

  /** One edge on 255 into an accepting state. */
  function SimpleCaretGraph(): (g: Graph)
    ensures |g| == 2 && g[0] == Node(false, 0, map[1 := {255}]) && g[1] == Node(true, 1, map[])
  {
    [Node(false, 0, map[1 := {255}]), Node(true, 1, map[])]
  }

  lemma CaretEdges(s: nat, b: Byte, t: nat)
    ensures EdgeOn(SimpleCaretGraph(), s, b, t) <==> s == 0 && b == 255 && t == 1
  {
  }

  /** It can be joined with every closed deterministic graph, and edges back to that one's start are harmless. */
  lemma CaretJoinable(g: Graph)
    requires g != [] && Closed(g) && Deterministic(g)
    ensures Joinable(SimpleCaretGraph(), g) && Returns(SimpleCaretGraph(), g)
  {
    hide BytesOf;
    var net := SimpleCaretGraph();
    forall s: nat, b: Byte, t: nat | s == 1
      ensures !Kept(net, g, s, b, t)
    {
      CaretEdges(s, b, t);
    }
  }

  lemma NothingReturns(word: seq<Byte>)
    requires word != []
    ensures !Path(SimpleCaretGraph(), 0, word, 0)
  {
    hide SimpleCaretGraph;
    var b := word[|word| - 1];
    forall s: nat
      ensures !EdgeOn(SimpleCaretGraph(), s, b, 0)
    {
      CaretEdges(s, b, 0);
    }
  }

  /** The anchor accepts 255 and nothing else, and nothing disturbs it. */
  lemma CaretWords(g: Graph, word: seq<Byte>)
    requires g != []
    ensures Accepts(SimpleCaretGraph(), word) <==> word == [255]
    ensures word == [255] ==> Undisturbed(SimpleCaretGraph(), g, word)
  {
    hide SimpleCaretGraph, BytesOf;
    var net := SimpleCaretGraph();
    if Accepts(net, word) {
      var t: nat :| t < |net| && net[t].accept && Path(net, 0, word, t);
      if word != [] {
        var init := word[..|word| - 1];
        var mid := LastEdge(net, 0, word, t);
        CaretEdges(mid, word[|word| - 1], t);
        if init != [] {
          NothingReturns(init);
        }
        assert word == init + [word[|word| - 1]];
      }
    }
    if word == [255] {
      EmptyPath(net, 0);
      CaretEdges(0, 255, 1);
      PathSnoc(net, 0, [], 0, 255, 1);
      assert [] + [255] == word;
      assert word[..0] == [];
      forall s: nat | Path(net, 0, word[..0], s)
        ensures s == 0
      {
        OnlyEmptyPath(net, 0, s);
      }
    }
  }

  /** Joining puts the byte 255 before every word. */
  lemma CaretJoined(g: Graph, word: seq<Byte>)
    requires g != [] && Closed(g) && Deterministic(g)
    ensures Accepts(Joined(SimpleCaretGraph(), g), [255] + word) <==> Accepts(g, word)
  {
    hide SimpleCaretGraph, BytesOf, Joined, Accepts, Undisturbed, Returns, Joinable;
    var net, whole := SimpleCaretGraph(), [255] + word;
    CaretJoinable(g);
    JoinedExact(net, g, whole);
    assert whole[..1] == [255] && whole[1..] == word;
    CaretWords(g, [255]);
    forall i | 0 <= i <= |whole| && Accepts(net, whole[..i])
      ensures i == 1
    {
      CaretWords(g, whole[..i]);
    }
  }

  /** State 0 of the join still leaves on 255 only, and does not accept. */
  lemma JoinedIsCaret(g: Graph)
    requires g != [] && Closed(g) && Deterministic(g)
    ensures var r := Joined(SimpleCaretGraph(), g); |r| == |g| + 1 && CaretGraph(r) && !r[0].accept
  {
    hide SimpleCaretGraph, BytesOf, Joined, Kept, Returns;
    var net := SimpleCaretGraph();
    var r := Joined(net, g);
    CaretJoinable(g);
    JoinedNodes(net, g);
    JoinedAccepts(net, g, 0);
    forall b: Byte, t: nat | EdgeOn(r, 0, b, t)
      ensures b == 255
    {
      JoinedEdges(net, g, 0, b, t);
      KeptFromCaret(g, b, t);
    }
  }

  lemma KeptFromCaret(g: Graph, b: Byte, t: nat)
    requires g != []
    ensures Kept(SimpleCaretGraph(), g, 0, b, t) ==> b == 255
  {
    CaretEdges(0, b, t);
  }

  ghost predicate EveryEdgeCarries(g: Graph) {
    forall s, t :: 0 <= s < |g| && t in g[s].edges ==> g[s].edges[t] - {0} != {}
  }

  /** The circuit of the join is well formed exactly when every edge of the graph has a nonzero byte. */
  lemma CaretCompilable(g: Graph)
    requires g != [] && Closed(g) && Deterministic(g)
    ensures Compilable(Joined(SimpleCaretGraph(), g)) <==> EveryEdgeCarries(g)
  {
    hide Joined, EveryEdgeCarries, Compilable;
    if Compilable(Joined(SimpleCaretGraph(), g)) {
      CompiledCarries(g);
    }
    if EveryEdgeCarries(g) {
      CarryingCompiles(g, Joined(SimpleCaretGraph(), g));
    }
  }

  lemma EdgesOfSecond(g: Graph, s: nat, t: nat)
    requires g != [] && Closed(g) && Deterministic(g) && s < |g|
    ensures var e := JoinedNode(SimpleCaretGraph(), g, s + 1).edges;
      (t in g[s].edges <==> t + 1 in e) && (t in g[s].edges ==> e[t + 1] == g[s].edges[t])
  {
    hide BytesOf, ShiftKeys, Merged;
    ShiftedDisjoint(g, 1);
    assert t + 1 in ShiftKeys(g[s].edges, 1) <==> t in g[s].edges;
  }

  lemma CompiledCarries(g: Graph)
    requires g != [] && Closed(g) && Deterministic(g) && Compilable(Joined(SimpleCaretGraph(), g))
    ensures EveryEdgeCarries(g)
  {
    hide Joined, JoinedNode, Closed, Deterministic;
    var r := Joined(SimpleCaretGraph(), g);
    JoinedNodes(SimpleCaretGraph(), g);
    forall s: nat, t: nat | s < |g| && t in g[s].edges
      ensures g[s].edges[t] - {0} != {}
    {
      EdgesOfSecond(g, s, t);
      assert r[s + 1] == JoinedNode(SimpleCaretGraph(), g, s + 1);
      assert t + 1 in r[s + 1].edges && r[s + 1].edges[t + 1] - {0} != {};
    }
  }

  lemma CarryingCompiles(g: Graph, r: Graph)
    requires g != [] && Closed(g) && Deterministic(g) && EveryEdgeCarries(g) && r == Joined(SimpleCaretGraph(), g)
    ensures Compilable(r)
  {
    hide Joined, BytesOf, ShiftKeys, Merged, Returns;
    CaretJoinable(g);
    JoinedWellFormed(SimpleCaretGraph(), g);
    JoinedNodes(SimpleCaretGraph(), g);
    forall s, t | 0 <= s < |r| && t in r[s].edges && t != 0
      ensures r[s].edges[t] - {0} != {}
    {
      assert r[s] == JoinedNode(SimpleCaretGraph(), g, s);
      if s == 0 {
        assert 255 in r[0].edges[t] - {0};
      } else {
        EdgesOfSecond(g, s - 1, t - 1);
      }
    }
  }

  /**
   * Compiled with the end anchor from the join of the start anchor with any closed deterministic graph,
   * the circuit decides the language of the graph: for a padded word its output is one exactly when the
   * graph accepts the word.
   */
  lemma AnchoredDecides(c: Circuit, g: Graph, word: seq<Byte>, zeros: nat)
    requires g != [] && Closed(g) && Deterministic(g) && EveryEdgeCarries(g)
    requires Implements(c, Joined(SimpleCaretGraph(), g)) && c.anchored && zeros >= 1
    requires forall i :: 0 <= i < |word| ==> 0 < word[i] < 255
    ensures Out(c, Input(word + seq(zeros, _ => 0))) == 1 <==> Accepts(g, word)
  {
    hide SimpleCaretGraph, Joined, Accepts, Implements, Out, EveryEdgeCarries;
    JoinedIsCaret(g);
    CaretCompilable(g);
    CaretExact(c, Joined(SimpleCaretGraph(), g), word, zeros);
    CaretJoined(g, word);
  }

  /** The word, followed by so many zero bytes. */
  function Padded(word: seq<Byte>, zeros: nat): seq<Byte> {
    word + seq(zeros, _ => 0)
  }

  /** A circuit that, on padded words, decides the language of the graph. */
  ghost predicate Decides(c: Circuit, g: Graph) {
    forall word: seq<Byte>, zeros: nat :: zeros >= 1 && (forall i :: 0 <= i < |word| ==> 0 < word[i] < 255)
      ==> (Out(c, Input(Padded(word, zeros))) == 1 <==> Accepts(g, word))
  }

  /** The compiler on the two parts "^" and the regex of the graph, with an end anchor. */
  method CompileAnchored(g: Graph) returns (r: Result<Circuit, CompilerError>)
    requires g != [] && Closed(g) && Deterministic(g) && EveryEdgeCarries(g)
    ensures r.Err? <==> forall i :: 0 <= i < |g| ==> !g[i].accept
    ensures r.Ok? ==> Decides(r.value, g)
  {
    hide SimpleCaretGraph, AddDfa, Implements, EveryEdgeCarries, Decides, Compilable, AcceptNodes;
    var net := SimpleCaretGraph();
    assert |net| - 1 == 1;
    var joined := AddDfaInPlace(net, RenameStates(g, |net| - 1), |g| + 1);
    assert joined == Joined(net, g);
    CaretCompilable(g);
    AcceptsSomewhere(g);
    r := GenCircom(joined, true);
    if r.Ok? {
      CircuitDecides(r.value, g);
    }
  }

  lemma CircuitDecides(c: Circuit, g: Graph)
    requires g != [] && Closed(g) && Deterministic(g) && EveryEdgeCarries(g)
    requires Implements(c, Joined(SimpleCaretGraph(), g)) && c.anchored
    ensures Decides(c, g)
  {
    hide SimpleCaretGraph, Joined, Implements, EveryEdgeCarries, Out, Accepts, Input;
    forall word: seq<Byte>, zeros: nat | zeros >= 1 && (forall i :: 0 <= i < |word| ==> 0 < word[i] < 255)
      ensures Out(c, Input(Padded(word, zeros))) == 1 <==> Accepts(g, word)
    {
      AnchoredDecides(c, g, word, zeros);
    }
  }

  /** The join accepts somewhere exactly when the graph does. */
  lemma AcceptsSomewhere(g: Graph)
    requires g != [] && Closed(g) && Deterministic(g)
    ensures AcceptNodes(Joined(SimpleCaretGraph(), g)) == {} <==> forall i :: 0 <= i < |g| ==> !g[i].accept
  {
    hide Joined, Returns, BytesOf;
    var r := Joined(SimpleCaretGraph(), g);
    CaretJoinable(g);
    JoinedNodes(SimpleCaretGraph(), g);
    forall s: nat | s < |r|
      ensures r[s].accept <==> s > 0 && g[s - 1].accept
    {
      JoinedAccepts(SimpleCaretGraph(), g, s);
    }
    forall i: nat | i < |g| && g[i].accept
      ensures i + 1 in AcceptNodes(r)
    {
      assert r[i + 1].accept;
    }
  }

  // ----- a part that begins with the anchor

  datatype GraphError = StartStateNotFound | AcceptStateNotFound

  /** The start no longer accepts and leads on 255 to the state a. */
  function WithCaret(g: Graph, a: nat): (r: Graph)
    requires g != []
    ensures |r| == |g|
  {
    var edges := g[0].edges[a := (if a in g[0].edges then g[0].edges[a] else {}) + {255}];
    g[0 := Node(false, g[0].id, edges)]
  }

  /** Leads from the start on 255 to the first other accepting state. */
  method ModifyGraphForCaret(g: Graph) returns (r: Result<Graph, GraphError>)
    ensures g == [] ==> r == Err(StartStateNotFound)
    ensures g != [] && (forall i :: 1 <= i < |g| ==> !g[i].accept) ==> r == Err(AcceptStateNotFound)
    ensures forall a: nat :: 1 <= a < |g| && g[a].accept && (forall i :: 1 <= i < a ==> !g[i].accept) ==>
      r == Ok(WithCaret(g, g[a].id))
  {
    hide WithCaret;
    if g == [] {
      return Err(StartStateNotFound);
    }
    for a: nat := 1 to |g|
      invariant forall i :: 1 <= i < a ==> !g[i].accept
    {
      if g[a].accept {
        return Ok(WithCaret(g, g[a].id));
      }
    }
    r := Err(AcceptStateNotFound);
  }

  lemma WithCaretEdges(g: Graph, a: nat, s: nat, b: Byte, t: nat)
    requires g != []
    ensures EdgeOn(WithCaret(g, a), s, b, t) <==> EdgeOn(g, s, b, t) || (s == 0 && b == 255 && t == a)
  {
  }

  /** The byte 255 comes first or not at all, as in the inputs of a circuit. */
  ghost predicate OnlyFirst(word: seq<Byte>) {
    forall i :: 1 <= i < |word| ==> word[i] != 255
  }

  /** A path is one of the graph, or begins with 255 and goes on from a. */
  lemma {:induction false} WithCaretPath(g: Graph, a: nat, word: seq<Byte>, t: nat)
    requires g != [] && word != [] && OnlyFirst(word)
    ensures Path(WithCaret(g, a), 0, word, t) <==> Path(g, 0, word, t) || (word[0] == 255 && Path(g, a, word[1..], t))
    decreases |word|
  {
    hide WithCaret, Path, EdgeOn;
    var r, init, b := WithCaret(g, a), word[..|word| - 1], word[|word| - 1];
    if init == [] {
      assert word == [b] && word[1..] == [];
      OneEdge(r, 0, b, t);
      OneEdge(g, 0, b, t);
      WithCaretEdges(g, a, 0, b, t);
      EmptyPath(g, a);
      if Path(g, a, [], t) {
        OnlyEmptyPath(g, a, t);
      }
    } else {
      assert word[1..] == init[1..] + [b];
      forall mid: nat
        ensures Path(r, 0, init, mid) <==> Path(g, 0, init, mid) || (word[0] == 255 && Path(g, a, init[1..], mid))
        ensures EdgeOn(r, mid, b, t) <==> EdgeOn(g, mid, b, t)
      {
        WithCaretPath(g, a, init, mid);
        WithCaretEdges(g, a, mid, b, t);
      }
      LastStep(r, 0, init, b, t);
      LastStep(g, 0, init, b, t);
      LastStep(g, a, init[1..], b, t);
      assert word == init + [b];
    }
  }

  lemma LastStep(g: Graph, s: nat, init: seq<Byte>, b: Byte, t: nat)
    ensures Path(g, s, init + [b], t) <==> exists mid: nat :: Path(g, s, init, mid) && EdgeOn(g, mid, b, t)
  {
    hide Path, EdgeOn;
    assert (init + [b])[..|init|] == init;
    if Path(g, s, init + [b], t) {
      var mid := LastEdge(g, s, init + [b], t);
    }
    forall mid: nat | Path(g, s, init, mid) && EdgeOn(g, mid, b, t)
      ensures Path(g, s, init + [b], t)
    {
      PathSnoc(g, s, init, mid, b, t);
    }
  }

  lemma OneEdge(g: Graph, s: nat, b: Byte, t: nat)
    ensures Path(g, s, [b], t) <==> EdgeOn(g, s, b, t)
  {
    if Path(g, s, [b], t) {
      var mid := LastEdge(g, s, [b], t);
      assert [b][..0] == [];
      OnlyEmptyPath(g, s, mid);
    }
    if EdgeOn(g, s, b, t) {
      PathSnoc(g, s, [], s, b, t);
      assert [] + [b] == [b];
    }
  }

  /** Accepted from state s at a state other than the start. */
  ghost predicate AcceptsBeyondStart(g: Graph, s: nat, word: seq<Byte>) {
    exists t: nat :: 0 < t < |g| && g[t].accept && Path(g, s, word, t)
  }

  /**
   * Where 255 comes first or not at all: what the graph accepted beyond its start, and 255 followed by
   * what it accepts beyond its start from the accepting state a.
   */
  lemma WithCaretLanguage(g: Graph, a: nat, word: seq<Byte>)
    requires g != [] && OnlyFirst(word)
    ensures Accepts(WithCaret(g, a), word)
       <==> AcceptsBeyondStart(g, 0, word)
            || (word != [] && word[0] == 255 && AcceptsBeyondStart(g, a, word[1..]))
  {
    hide Path, OnlyFirst;
    var r := WithCaret(g, a);
    forall t: nat
      ensures Path(r, 0, word, t) && t != 0
         <==> (Path(g, 0, word, t) && t != 0) || (word != [] && word[0] == 255 && Path(g, a, word[1..], t) && t != 0)
    {
      if word == [] {
        if Path(r, 0, [], t) {
          OnlyEmptyPath(r, 0, t);
        }
        if Path(g, 0, [], t) {
          OnlyEmptyPath(g, 0, t);
        }
      } else {
        WithCaretPath(g, a, word, t);
      }
    }
  }
}
