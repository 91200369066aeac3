/**
 * BreadthFirstOrder: what coming in the order of first edges means. It fixes the order of the states
 * altogether, and states come in the order of their distance from the start.
 */
module BreadthFirstOrder {
  import opened DfaRenaming

  /** What a traversal leaves. */
  ghost predicate Traversal(g: InfoGraph, start: nat, sorted: InfoGraph) {
    && Taken(g, start, sorted) && DistinctSources(sorted) && ClosedInfo(sorted)
    && sorted != [] && sorted[0].source == start && BreadthFirst(sorted)
  }

  // ----- the order is unique

  lemma SameStates(g: InfoGraph, start: nat, s: InfoGraph, t: InfoGraph, i: nat) returns (j: nat)
    requires DistinctSources(g) && Traversal(g, start, s) && Traversal(g, start, t) && i < |s|
    ensures j < |t| && t[j].source == s[i].source
  {
    hide BreadthFirst, ClosedInfo, Reachable, NewName;
    RenamingIsBijection(g, start, s);
    RenamingIsBijection(g, start, t);
    assert HasState(s, s[i].source);
    j :| 0 <= j < |t| && t[j].source == s[i].source;
  }

  lemma FirstEdgeBelow(s: InfoGraph, i: nat) returns (e: (nat, nat))
    requires BreadthFirst(s) && 0 < i < |s|
    ensures FirstEdge(s, s[i].source, e) && e.0 < i
  {
    hide FirstEdge;
    assert FromEarlier(s, i);
    e :| FirstEdge(s, s[i].source, e) && e.0 < i;
  }

  /** Orders that agree on n states agree on a first edge out of them. */
  lemma FirstEdgeOfBoth(s: InfoGraph, t: InfoGraph, n: nat, id: nat, e: (nat, nat))
    requires n <= |s| && n <= |t| && s[..n] == t[..n] && FirstEdge(s, id, e) && e.0 < n
    ensures FirstEdge(t, id, e)
  {
    assert forall k :: 0 <= k < n ==> s[k] == s[..n][k] && t[k] == t[..n][k];
    forall f: (nat, nat) | EdgeTo(t, f, id)
      ensures f == e || Before(e, f)
    {
      if f.0 < n {
        assert EdgeTo(s, f, id);
      }
    }
  }

  lemma BeforeOnce(e: (nat, nat), f: (nat, nat))
    ensures !(Before(e, f) && Before(f, e))
  {
  }

  /** A state that is not among the first n, and not at n, comes later. */
  lemma Later(s: InfoGraph, t: InfoGraph, n: nat, m: nat)
    requires DistinctSources(s) && n < |s| && n < |t| && s[..n] == t[..n] && m < |t|
    requires t[m].source == s[n].source && t[n].source != s[n].source
    ensures m > n
  {
    assert forall k :: 0 <= k < n ==> s[..n][k] == s[k] && t[..n][k] == t[k];
  }

  lemma NextSource(g: InfoGraph, start: nat, s: InfoGraph, t: InfoGraph, n: nat)
    requires DistinctSources(g) && Traversal(g, start, s) && Traversal(g, start, t)
    requires 0 < n < |s| && n < |t| && s[..n] == t[..n]
    ensures s[n].source == t[n].source
  {
    hide FirstEdge, Before, Taken, ClosedInfo;
    if s[n].source != t[n].source {
      var e := FirstEdgeBelow(s, n);
      var f := FirstEdgeBelow(t, n);
      FirstEdgeOfBoth(s, t, n, s[n].source, e);
      FirstEdgeOfBoth(t, s, n, t[n].source, f);
      var m := SameStates(g, start, s, t, n);
      var l := SameStates(g, start, t, s, n);
      Later(s, t, n, m);
      Later(t, s, n, l);
      assert Before(f, e) && Before(e, f);
      BeforeOnce(e, f);
    }
  }

  lemma SameState(g: InfoGraph, start: nat, s: InfoGraph, t: InfoGraph, n: nat)
    requires DistinctSources(g) && Taken(g, start, s) && Taken(g, start, t) && n < |s| && n < |t|
    requires s[n].source == t[n].source
    ensures s[n] == t[n]
  {
    hide Reachable;
    var i :| 0 <= i < |g| && g[i] == s[n];
    var j :| 0 <= j < |g| && g[j] == t[n];
  }

  lemma {:induction false} SamePrefix(g: InfoGraph, start: nat, s: InfoGraph, t: InfoGraph, n: nat)
    requires DistinctSources(g) && Traversal(g, start, s) && Traversal(g, start, t) && n <= |s| && n <= |t|
    ensures s[..n] == t[..n]
    decreases n
  {
    hide BreadthFirst, Taken, ClosedInfo, DistinctSources;
    if n > 0 {
      SamePrefix(g, start, s, t, n - 1);
      if n > 1 {
        NextSource(g, start, s, t, n - 1);
      }
      SameState(g, start, s, t, n - 1);
      assert s[..n] == s[..n - 1] + [s[n - 1]] && t[..n] == t[..n - 1] + [t[n - 1]];
    }
  }

  lemma NotShorter(g: InfoGraph, start: nat, s: InfoGraph, t: InfoGraph)
    requires DistinctSources(g) && Traversal(g, start, s) && Traversal(g, start, t)
    ensures |t| <= |s|
  {
    hide Taken, ClosedInfo, BreadthFirst;
    if |s| < |t| {
      SamePrefix(g, start, s, t, |s|);
      assert forall k :: 0 <= k < |s| ==> s[..|s|][k] == s[k] && t[..|s|][k] == t[k];
      var j := SameStates(g, start, t, s, |s|);
    }
  }

  /** There is only one way to traverse a graph from a start in the order of first edges. */
  lemma TraversalIsUnique(g: InfoGraph, start: nat, s: InfoGraph, t: InfoGraph)
    requires DistinctSources(g) && Traversal(g, start, s) && Traversal(g, start, t)
    ensures s == t
  {
    NotShorter(g, start, s, t);
    NotShorter(g, start, t, s);
    SamePrefix(g, start, s, t, |s|);
    assert s[..|s|] == s && t[..|t|] == t;
  }

  // ----- distances

  /** One more than the level of the state that first leads here. */
  ghost function Level(s: InfoGraph, i: nat): nat
    requires BreadthFirst(s) && i < |s|
    decreases i
  {
    if i == 0 then 0
    else
      assert FromEarlier(s, i);
      var e: (nat, nat) :| FirstEdge(s, s[i].source, e) && e.0 < i;
      Level(s, e.0) + 1
  }

  lemma LevelBy(s: InfoGraph, i: nat) returns (e: (nat, nat))
    requires BreadthFirst(s) && 0 < i < |s|
    ensures FirstEdge(s, s[i].source, e) && e.0 < i && Level(s, i) == Level(s, e.0) + 1
  {
    hide FirstEdge;
    e := FirstEdgeBelow(s, i);
    forall f: (nat, nat) | FirstEdge(s, s[i].source, f)
      ensures f == e
    {
      OnlyFirstEdge(s, s[i].source, e, f);
    }
  }

  lemma {:induction false} LevelsAscend(s: InfoGraph, i: nat, j: nat)
    requires BreadthFirst(s) && i <= j < |s|
    ensures Level(s, i) <= Level(s, j)
    decreases j
  {
    hide Level, FirstEdge;
    if 0 < i < j {
      var e := LevelBy(s, i);
      var f := LevelBy(s, j);
      assert Before(e, f);
      LevelsAscend(s, e.0, f.0);
    } else if i == 0 {
      StartLevel(s);
    }
  }

  lemma StartLevel(s: InfoGraph)
    requires BreadthFirst(s) && s != []
    ensures Level(s, 0) == 0
  {
  }

  lemma TakenEdge(g: InfoGraph, start: nat, s: InfoGraph, e: (nat, nat), id: nat)
    requires Taken(g, start, s) && EdgeTo(s, e, id)
    ensures EdgeInfo(g, s[e.0].source, s[e.0].edges[e.1].0, id)
  {
    hide Reachable;
    var i :| 0 <= i < |g| && g[i] == s[e.0];
    assert s[e.0].edges[e.1] in g[i].edges;
  }

  /** Every state is reached by as many labels as its level. */
  lemma {:induction false} LevelReached(g: InfoGraph, start: nat, s: InfoGraph, i: nat) returns (labels: seq<string>)
    requires Traversal(g, start, s) && i < |s|
    ensures |labels| == Level(s, i) && PathInfo(g, start, labels, s[i].source)
    decreases i
  {
    hide Level, Taken, EdgeInfo, ClosedInfo, BreadthFirst;
    if i == 0 {
      StartLevel(s);
      labels := [];
    } else {
      var e := LevelBy(s, i);
      var init := LevelReached(g, start, s, e.0);
      TakenEdge(g, start, s, e, s[i].source);
      labels := init + [s[e.0].edges[e.1].0];
      assert labels[..|labels| - 1] == init;
    }
  }

  lemma StepLevel(g: InfoGraph, start: nat, s: InfoGraph, m: nat, word: string, i: nat)
    requires DistinctSources(g) && Traversal(g, start, s) && m < |s| && i < |s|
    requires EdgeInfo(g, s[m].source, word, s[i].source)
    ensures Level(s, i) <= Level(s, m) + 1
  {
    hide Level, Reachable, ClosedInfo;
    if i == 0 {
      StartLevel(s);
    } else {
      var e := LevelBy(s, i);
      var j :| 0 <= j < |g| && g[j].source == s[m].source && (word, s[i].source) in g[j].edges;
      var l :| 0 <= l < |g| && g[l] == s[m];
      assert j == l;
      var k :| 0 <= k < |s[m].edges| && s[m].edges[k] == (word, s[i].source);
      assert EdgeTo(s, (m, k), s[i].source);
      LevelsAscend(s, e.0, m);
    }
  }

  /** No path is shorter than the level. */
  lemma {:induction false} LevelIsShortest(g: InfoGraph, start: nat, s: InfoGraph, labels: seq<string>, i: nat)
    requires DistinctSources(g) && Traversal(g, start, s) && i < |s| && PathInfo(g, start, labels, s[i].source)
    ensures Level(s, i) <= |labels|
    decreases |labels|
  {
    hide Level, EdgeInfo, Taken, ClosedInfo, BreadthFirst;
    if labels == [] {
      StartLevel(s);
    } else {
      var init, last := labels[..|labels| - 1], labels[|labels| - 1];
      var mid: nat :| PathInfo(g, start, init, mid) && EdgeInfo(g, mid, last, s[i].source);
      PathRenamed(g, start, s, 0, init, mid);
      var m :| 0 <= m < |s| && s[m].source == mid;
      LevelIsShortest(g, start, s, init, m);
      StepLevel(g, start, s, m, last, i);
    }
  }

  /** An earlier state is not farther from the start. */
  lemma DistancesAscend(g: InfoGraph, start: nat, s: InfoGraph, i: nat, j: nat, labels: seq<string>)
    requires DistinctSources(g) && Traversal(g, start, s) && i <= j < |s| && PathInfo(g, start, labels, s[j].source)
    ensures exists other :: |other| <= |labels| && PathInfo(g, start, other, s[i].source)
  {
    hide Level, PathInfo;
    LevelIsShortest(g, start, s, labels, j);
    LevelsAscend(s, i, j);
    var other := LevelReached(g, start, s, i);
  }
}
