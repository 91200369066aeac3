/** DfaGraphs: the automata the compiler works on, the words they accept, and the scanner. */
module DfaGraphs {

  type Byte = x: int | 0 <= x < 256

  /** A state: whether it accepts, its name, and the bytes that lead to each target. */
  datatype Node = Node(accept: bool, id: nat, edges: map<nat, set<Byte>>)

  type Graph = seq<Node>

  /** Every edge leads to a state of the graph. */
  ghost predicate Closed(g: Graph) {
    forall s, t :: 0 <= s < |g| && t in g[s].edges ==> t < |g|
  }

  ghost predicate DeterministicNode(node: Node) {
    forall t, u, b :: t in node.edges && u in node.edges && b in node.edges[t] && b in node.edges[u] ==> t == u
  }

  /** No state has two edges for one byte. */
  ghost predicate Deterministic(g: Graph) {
    forall s :: 0 <= s < |g| ==> DeterministicNode(g[s])
  }

  // ----- words

  ghost predicate EdgeOn(g: Graph, s: nat, b: Byte, t: nat) {
    s < |g| && t in g[s].edges && b in g[s].edges[t]
  }

  /** There is a path from s to t that spells the word. */
  ghost predicate Path(g: Graph, s: nat, word: seq<Byte>, t: nat) {
    if word == [] then s == t
    else
      var init, b := word[..|word| - 1], word[|word| - 1];
      exists mid: nat :: Path(g, s, init, mid) && EdgeOn(g, mid, b, t)
  }

  ghost predicate AcceptsFrom(g: Graph, s: nat, word: seq<Byte>) {
    exists t: nat :: t < |g| && g[t].accept && Path(g, s, word, t)
  }

  ghost predicate Accepts(g: Graph, word: seq<Byte>) {
    AcceptsFrom(g, 0, word)
  }

  lemma PathSnoc(g: Graph, s: nat, word: seq<Byte>, mid: nat, b: Byte, t: nat)
    requires Path(g, s, word, mid) && EdgeOn(g, mid, b, t)
    ensures Path(g, s, word + [b], t)
  {
    assert (word + [b])[..|word|] == word;
  }

  lemma LastEdge(g: Graph, s: nat, word: seq<Byte>, t: nat) returns (mid: nat)
    requires word != [] && Path(g, s, word, t)
    ensures Path(g, s, word[..|word| - 1], mid) && EdgeOn(g, mid, word[|word| - 1], t)
  {
    var m: nat :| Path(g, s, word[..|word| - 1], m) && EdgeOn(g, m, word[|word| - 1], t);
    mid := m;
  }

  lemma {:induction false} PathConcat(g: Graph, s: nat, u: seq<Byte>, mid: nat, v: seq<Byte>, t: nat)
    requires Path(g, s, u, mid) && Path(g, mid, v, t)
    ensures Path(g, s, u + v, t)
    decreases |v|
  {
    if v == [] {
      assert u + v == u;
    } else {
      var n := |v| - 1;
      var last: nat :| Path(g, mid, v[..n], last) && EdgeOn(g, last, v[n], t);
      PathConcat(g, s, u, mid, v[..n], last);
      assert u + v == (u + v[..n]) + [v[n]];
      PathSnoc(g, s, u + v[..n], last, v[n], t);
    }
  }

  /** A path through a concatenation passes through some state in the middle. */
  lemma {:induction false} PathSplit(g: Graph, s: nat, u: seq<Byte>, v: seq<Byte>, t: nat) returns (mid: nat)
    requires Path(g, s, u + v, t)
    ensures Path(g, s, u, mid) && Path(g, mid, v, t)
    decreases |v|
  {
    if v == [] {
      assert u + v == u;
      mid := t;
    } else {
      hide EdgeOn;
      var init, b := v[..|v| - 1], v[|v| - 1];
      assert (u + v)[..|u + v| - 1] == u + init;
      var last := LastEdge(g, s, u + v, t);
      mid := PathSplit(g, s, u, init, last);
      hide Path;
      PathSnoc(g, mid, init, last, b, t);
      assert init + [b] == v;
    }
  }

  /** Deterministic graphs have at most one path for a word. */
  lemma {:induction false} PathUnique(g: Graph, s: nat, word: seq<Byte>, t: nat, u: nat)
    requires Deterministic(g) && Path(g, s, word, t) && Path(g, s, word, u)
    ensures t == u
    decreases |word|
  {
    if word != [] {
      var n := |word| - 1;
      var m1: nat :| Path(g, s, word[..n], m1) && EdgeOn(g, m1, word[n], t);
      var m2: nat :| Path(g, s, word[..n], m2) && EdgeOn(g, m2, word[n], u);
      PathUnique(g, s, word[..n], m1, m2);
    }
  }

  // ----- the scanner

  /** The state other than 0 that s moves to on a nonzero byte, or 0. */
  ghost function Move(g: Graph, s: nat, b: Byte): (t: nat)
    ensures t != 0 ==> b != 0 && EdgeOn(g, s, b, t)
    ensures t == 0 ==> forall u: nat :: u != 0 && b != 0 ==> !EdgeOn(g, s, b, u)
  {
    if b != 0 && exists t: nat :: t != 0 && EdgeOn(g, s, b, t) then
      var t: nat :| t != 0 && EdgeOn(g, s, b, t);
      t
    else 0
  }

  /** Follows the active state; restarts from 0 on the same byte only when nothing is active. */
  ghost function Next(g: Graph, s: nat, b: Byte): nat {
    if s != 0 && Move(g, s, b) != 0 then Move(g, s, b) else Move(g, 0, b)
  }

  ghost function Scan(g: Graph, input: seq<Byte>): nat {
    if input == [] then 0 else Next(g, Scan(g, input[..|input| - 1]), input[|input| - 1])
  }

  lemma {:induction false} ScanInRange(g: Graph, input: seq<Byte>)
    requires Closed(g) && g != []
    ensures Scan(g, input) < |g|
    decreases |input|
  {
    if input != [] {
      ScanInRange(g, input[..|input| - 1]);
    }
  }

  /** An active state was reached from 0 by a path over the bytes read last. */
  lemma {:induction false} ScanFindsFactor(g: Graph, input: seq<Byte>) returns (from: nat)
    ensures from <= |input| && Path(g, 0, input[from..], Scan(g, input))
    decreases |input|
  {
    if input == [] {
      from := 0;
    } else {
      var n := |input| - 1;
      var s, b, t := Scan(g, input[..n]), input[n], Scan(g, input);
      if t == 0 {
        from := |input|;
      } else if s != 0 && Move(g, s, b) != 0 {
        from := ScanFindsFactor(g, input[..n]);
        assert input[from..] == input[..n][from..] + [b];
        PathSnoc(g, 0, input[..n][from..], s, b, t);
      } else {
        from := n;
        assert input[n..] == [] + [b];
        PathSnoc(g, 0, [], 0, b, t);
      }
    }
  }
}
