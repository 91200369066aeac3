/**
 * DfaSegments: what the joined automaton accepts when edges lead back to the second start.
 *
 * Such an edge leads to the last state of the first automaton, and the run goes on there as one of the
 * first. A run therefore alternates between stretches in the first automaton and excursions into the
 * second one.
 */
module DfaSegments {
  import opened DfaGraphs
  import opened DfaConcat

  /** A path of edges that joining keeps. */
  ghost predicate Stretch(net: Graph, graph: Graph, s: nat, word: seq<Byte>, t: nat)
    requires net != [] && graph != []
  {
    if word == [] then s == t
    else
      var init, b := word[..|word| - 1], word[|word| - 1];
      exists mid: nat :: Stretch(net, graph, s, init, mid) && Kept(net, graph, mid, b, t)
  }

  /** A path of at least one edge from the start that is not at the start in between. */
  ghost predicate Excursion(graph: Graph, word: seq<Byte>, t: nat) {
    word != []
    && var init, b := word[..|word| - 1], word[|word| - 1];
       if init == [] then EdgeOn(graph, 0, b, t)
       else exists mid: nat :: mid != 0 && Excursion(graph, init, mid) && EdgeOn(graph, mid, b, t)
  }

  /**
   * The word leads to state s of the first automaton: by one stretch, or by such a word to an accepting
   * state, an excursion that ends at the second start, and a stretch from the last state of the first.
   */
  ghost predicate Tour(net: Graph, graph: Graph, word: seq<Byte>, s: nat)
    requires net != [] && graph != []
    decreases |word|, 1
  {
    || Stretch(net, graph, 0, word, s)
    || exists i: nat, j: nat :: i < j <= |word| && Turned(net, graph, word, i, j, s)
  }

  ghost predicate Turned(net: Graph, graph: Graph, word: seq<Byte>, i: nat, j: nat, s: nat)
    requires net != [] && graph != [] && i < j <= |word|
    decreases |word|, 0
  {
    && ToAccepting(net, graph, word[..i])
    && Excursion(graph, word[i..j], 0)
    && Stretch(net, graph, |net| - 1, word[j..], s)
  }

  /** The word leads to an accepting state of the first automaton. */
  ghost predicate ToAccepting(net: Graph, graph: Graph, word: seq<Byte>)
    requires net != [] && graph != []
    decreases |word|, 2
  {
    exists m: nat :: m < |net| && net[m].accept && Tour(net, graph, word, m)
  }

  /** The word ends on an excursion from an accepting state of the first automaton. */
  ghost predicate Away(net: Graph, graph: Graph, word: seq<Byte>, i: nat, t: nat)
    requires net != [] && graph != []
  {
    i < |word| && ToAccepting(net, graph, word[..i]) && Excursion(graph, word[i..], t)
  }

  // ----- from segments to paths

  lemma {:induction false} StretchPath(net: Graph, graph: Graph, s: nat, word: seq<Byte>, t: nat)
    requires Joinable(net, graph) && s < |net| && Stretch(net, graph, s, word, t)
    ensures t < |net| && Path(Joined(net, graph), s, word, t)
    decreases |word|
  {
    hide Joined, Kept, Path, Positional, Deterministic;
    var r := Joined(net, graph);
    if word == [] {
      EmptyPath(r, s);
    } else {
      var init, b := word[..|word| - 1], word[|word| - 1];
      var mid: nat :| Stretch(net, graph, s, init, mid) && Kept(net, graph, mid, b, t);
      StretchPath(net, graph, s, init, mid);
      KeptInside(net, graph, mid, b, t);
      JoinedEdges(net, graph, mid, b, t);
      PathSnoc(r, s, init, mid, b, t);
      assert word == init + [b];
    }
  }

  lemma KeptInside(net: Graph, graph: Graph, s: nat, b: Byte, t: nat)
    requires Joinable(net, graph) && Kept(net, graph, s, b, t)
    ensures s < |net| && t < |net|
  {
  }

  lemma {:induction false} ExcursionPath(net: Graph, graph: Graph, m: nat, word: seq<Byte>, t: nat)
    requires Joinable(net, graph) && m < |net| && net[m].accept && Excursion(graph, word, t)
    ensures Path(Joined(net, graph), m, word, |net| - 1 + t)
    decreases |word|
  {
    hide Joined, Kept, Path, Positional, Deterministic, Closed, BytesOf;
    var r, n := Joined(net, graph), |net|;
    var init, b := word[..|word| - 1], word[|word| - 1];
    assert word == init + [b];
    if init == [] {
      EmptyPath(r, m);
      JoinedEdges(net, graph, m, b, n - 1 + t);
      PathSnoc(r, m, init, m, b, n - 1 + t);
    } else {
      var mid: nat :| mid != 0 && Excursion(graph, init, mid) && EdgeOn(graph, mid, b, t);
      ExcursionPath(net, graph, m, init, mid);
      JoinedEdges(net, graph, n - 1 + mid, b, n - 1 + t);
      PathSnoc(r, m, init, n - 1 + mid, b, n - 1 + t);
    }
  }

  lemma {:induction false} TourPath(net: Graph, graph: Graph, word: seq<Byte>, s: nat)
    requires Joinable(net, graph) && Tour(net, graph, word, s)
    ensures s < |net| && Path(Joined(net, graph), 0, word, s)
    decreases |word|
  {
    hide Joined, Positional, Closed, Deterministic, Path, Stretch, Excursion;
    if Stretch(net, graph, 0, word, s) {
      StretchPath(net, graph, 0, word, s);
    } else {
      var i: nat, j: nat :| i < j <= |word| && Turned(net, graph, word, i, j, s);
      var m := Accepting(net, graph, word[..i]);
      TourPath(net, graph, word[..i], m);
      ExcursionPath(net, graph, m, word[i..j], 0);
      StretchPath(net, graph, |net| - 1, word[j..], s);
      JoinThree(Joined(net, graph), word, i, j, m, |net| - 1, s);
    }
  }

  lemma Accepting(net: Graph, graph: Graph, word: seq<Byte>) returns (m: nat)
    requires net != [] && graph != [] && ToAccepting(net, graph, word)
    ensures m < |net| && net[m].accept && Tour(net, graph, word, m)
  {
    hide Tour;
    m :| m < |net| && net[m].accept && Tour(net, graph, word, m);
  }

  lemma JoinThree(g: Graph, word: seq<Byte>, i: nat, j: nat, m: nat, k: nat, s: nat)
    requires i <= j <= |word| && Path(g, 0, word[..i], m) && Path(g, m, word[i..j], k) && Path(g, k, word[j..], s)
    ensures Path(g, 0, word, s)
  {
    hide Path;
    PathConcat(g, 0, word[..i], m, word[i..j], k);
    PathConcat(g, 0, word[..i] + word[i..j], k, word[j..], s);
    assert word[..i] + word[i..j] + word[j..] == word;
  }

  lemma AwayPath(net: Graph, graph: Graph, word: seq<Byte>, i: nat, t: nat)
    requires Joinable(net, graph) && Away(net, graph, word, i, t)
    ensures Path(Joined(net, graph), 0, word, |net| - 1 + t)
  {
    hide Joined, Positional, Closed, Deterministic, Path, Tour, Excursion;
    var m := Accepting(net, graph, word[..i]);
    TourPath(net, graph, word[..i], m);
    ExcursionPath(net, graph, m, word[i..], t);
    PathConcat(Joined(net, graph), 0, word[..i], m, word[i..], |net| - 1 + t);
    assert word[..i] + word[i..] == word;
  }

  // ----- from paths to segments

  lemma StretchSnoc(net: Graph, graph: Graph, s: nat, word: seq<Byte>, mid: nat, b: Byte, t: nat)
    requires net != [] && graph != [] && Stretch(net, graph, s, word, mid) && Kept(net, graph, mid, b, t)
    ensures Stretch(net, graph, s, word + [b], t)
  {
    hide Kept;
    assert (word + [b])[..|word|] == word;
  }

  /** A kept edge prolongs the last stretch. */
  lemma TourSnoc(net: Graph, graph: Graph, word: seq<Byte>, mid: nat, b: Byte, t: nat)
    requires net != [] && graph != [] && Tour(net, graph, word, mid) && Kept(net, graph, mid, b, t)
    ensures Tour(net, graph, word + [b], t)
  {
    hide Stretch, Kept, Excursion, ToAccepting;
    var longer := word + [b];
    if Stretch(net, graph, 0, word, mid) {
      StretchSnoc(net, graph, 0, word, mid, b, t);
    } else {
      var i: nat, j: nat :| i < j <= |word| && Turned(net, graph, word, i, j, mid);
      StretchSnoc(net, graph, |net| - 1, word[j..], mid, b, t);
      assert longer[..i] == word[..i] && longer[i..j] == word[i..j] && longer[j..] == word[j..] + [b];
      assert Turned(net, graph, longer, i, j, t);
    }
  }

  lemma ExcursionSnoc(graph: Graph, word: seq<Byte>, mid: nat, b: Byte, t: nat)
    requires mid != 0 && Excursion(graph, word, mid) && EdgeOn(graph, mid, b, t)
    ensures Excursion(graph, word + [b], t)
  {
    hide EdgeOn;
    assert (word + [b])[..|word|] == word;
  }

  /** An excursion back to the second start is a tour to the last state. */
  lemma AwayEnds(net: Graph, graph: Graph, word: seq<Byte>, i: nat)
    requires net != [] && graph != [] && Away(net, graph, word, i, 0)
    ensures Tour(net, graph, word, |net| - 1)
  {
    hide Excursion, ToAccepting;
    assert word[i..|word|] == word[i..] && word[|word|..] == [];
    assert Turned(net, graph, word, i, |word|, |net| - 1);
  }

  /** Leaving an accepting state begins an excursion. */
  lemma AwayBegins(net: Graph, graph: Graph, init: seq<Byte>, m: nat, b: Byte, t: nat)
    requires net != [] && graph != [] && m < |net| && net[m].accept && Tour(net, graph, init, m) && EdgeOn(graph, 0, b, t)
    ensures Away(net, graph, init + [b], |init|, t)
  {
    hide Tour, EdgeOn;
    var word := init + [b];
    assert word[..|init|] == init && word[|init|..] == [b];
    assert [b][..0] == [];
  }

  lemma AwayGoesOn(net: Graph, graph: Graph, init: seq<Byte>, i: nat, mid: nat, b: Byte, t: nat)
    requires net != [] && graph != [] && mid != 0 && Away(net, graph, init, i, mid) && EdgeOn(graph, mid, b, t)
    ensures Away(net, graph, init + [b], i, t)
  {
    hide Excursion, ToAccepting, EdgeOn;
    var word := init + [b];
    ExcursionSnoc(graph, init[i..], mid, b, t);
    assert word[..i] == init[..i] && word[i..] == init[i..] + [b];
  }

  /** Every path of the joined automaton is a tour, or a tour followed by an excursion. */
  lemma {:induction false} PathSegments(net: Graph, graph: Graph, word: seq<Byte>, t: nat) returns (i: nat)
    requires Joinable(net, graph) && Path(Joined(net, graph), 0, word, t)
    ensures t < |net| ==> Tour(net, graph, word, t)
    ensures t >= |net| ==> Away(net, graph, word, i, t - |net| + 1)
    decreases |word|
  {
    hide Joined, Positional, Closed, Deterministic, Path, Tour, Away, Kept;
    var r, n := Joined(net, graph), |net|;
    i := 0;
    if word == [] {
      OnlyEmptyPath(r, 0, t);
      NoStep(net, graph);
    } else {
      var init, b := word[..|word| - 1], word[|word| - 1];
      var mid := LastEdge(r, 0, word, t);
      i := PathSegments(net, graph, init, mid);
      JoinedEdges(net, graph, mid, b, t);
      assert word == init + [b];
      if mid >= n {
        AwayGoesOn(net, graph, init, i, mid - n + 1, b, t - n + 1);
      } else if Kept(net, graph, mid, b, t) {
        KeptInside(net, graph, mid, b, t);
        TourSnoc(net, graph, init, mid, b, t);
      } else {
        i := |init|;
        AwayBegins(net, graph, init, mid, b, t - n + 1);
      }
      if t == n - 1 && !Tour(net, graph, word, t) {
        AwayEnds(net, graph, word, i);
      }
    }
  }

  lemma NoStep(net: Graph, graph: Graph)
    requires net != [] && graph != []
    ensures Tour(net, graph, [], 0)
  {
  }

  // ----- the language

  /**
   * The joined automaton accepts exactly the words that tour to an accepting state when the second
   * start accepts, and those that end on an excursion to an accepting state of the second automaton.
   */
  lemma JoinedSegments(net: Graph, graph: Graph, word: seq<Byte>)
    requires Joinable(net, graph)
    ensures Accepts(Joined(net, graph), word)
       <==> || (graph[0].accept && ToAccepting(net, graph, word))
            || exists i: nat, t: nat :: 1 <= t < |graph| && graph[t].accept && Away(net, graph, word, i, t)
  {
    hide Joined, Path, Tour, Away, Positional, Closed, Deterministic;
    var r, n := Joined(net, graph), |net|;
    if Accepts(r, word) {
      var t: nat :| t < |r| && r[t].accept && Path(r, 0, word, t);
      JoinedNodes(net, graph);
      JoinedAccepts(net, graph, t);
      var i := PathSegments(net, graph, word, t);
      if t >= n {
        assert Away(net, graph, word, i, t - n + 1);
      }
    }
    if graph[0].accept && ToAccepting(net, graph, word) {
      var m := Accepting(net, graph, word);
      TourPath(net, graph, word, m);
      JoinedAccepts(net, graph, m);
    }
    if i: nat, t: nat :| 1 <= t < |graph| && graph[t].accept && Away(net, graph, word, i, t) {
      AwayPath(net, graph, word, i, t);
      JoinedAccepts(net, graph, n - 1 + t);
    }
  }
}
