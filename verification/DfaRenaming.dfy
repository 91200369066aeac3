/**
 * DfaRenaming: numbering the states of a parsed automaton breadth first from its start.
 *
 * Edges are listed in the order of their labels, as the ordered map keeps them.
 */
module DfaRenaming {

  datatype Info = Info(accept: bool, source: nat, edges: seq<(string, nat)>)

  type InfoGraph = seq<Info>

  ghost predicate DistinctSources(g: InfoGraph) {
    forall i, j :: 0 <= i < j < |g| ==> g[i].source != g[j].source
  }

  predicate HasState(g: InfoGraph, id: nat) {
    exists i :: 0 <= i < |g| && g[i].source == id
  }

  /** Every edge leads to a state of the graph. */
  ghost predicate ClosedInfo(g: InfoGraph) {
    forall i, k :: 0 <= i < |g| && 0 <= k < |g[i].edges| ==> HasState(g, g[i].edges[k].1)
  }

  ghost predicate EdgeInfo(g: InfoGraph, s: nat, word: string, t: nat) {
    exists i :: 0 <= i < |g| && g[i].source == s && (word, t) in g[i].edges
  }

  /** There is a path from s to t with these labels. */
  ghost predicate PathInfo(g: InfoGraph, s: nat, labels: seq<string>, t: nat) {
    if labels == [] then s == t
    else
      var init, last := labels[..|labels| - 1], labels[|labels| - 1];
      exists mid: nat :: PathInfo(g, s, init, mid) && EdgeInfo(g, mid, last, t)
  }

  ghost predicate Reachable(g: InfoGraph, start: nat, id: nat) {
    exists labels :: PathInfo(g, start, labels, id)
  }

  ghost predicate AcceptsInfo(g: InfoGraph, start: nat, labels: seq<string>) {
    exists i :: 0 <= i < |g| && g[i].accept && PathInfo(g, start, labels, g[i].source)
  }

  // ----- the traversal

  function Sources(g: InfoGraph): set<nat> {
    set i | 0 <= i < |g| :: g[i].source
  }

  method Find(g: InfoGraph, id: nat) returns (i: nat)
    ensures i < |g| ==> g[i].source == id
    ensures i >= |g| ==> !HasState(g, id)
  {
    i := 0;
    while i < |g| && g[i].source != id
      invariant i <= |g| && forall j :: 0 <= j < i ==> g[j].source != id
    {
      i := i + 1;
    }
  }

  /** The targets that have not been visited, in the order of the edges. */
  function Fresh(edges: seq<(string, nat)>, visited: set<nat>): (r: seq<nat>)
    ensures forall id :: id in r <==> id !in visited && exists k :: 0 <= k < |edges| && edges[k].1 == id
  {
    if edges == [] then []
    else
      var n := |edges| - 1;
      var r := Fresh(edges[..n], visited) + (if edges[n].1 !in visited then [edges[n].1] else []);
      assert forall k :: 0 <= k < n ==> edges[..n][k] == edges[k];
      r
  }

  // ----- the order of the traversal

  /** Edge number k of the state at position i is written (i, k); edges are compared by position first. */
  ghost predicate Before(e: (nat, nat), f: (nat, nat)) {
    e.0 < f.0 || (e.0 == f.0 && e.1 < f.1)
  }

  ghost predicate EdgeTo(sorted: InfoGraph, e: (nat, nat), id: nat) {
    e.0 < |sorted| && e.1 < |sorted[e.0].edges| && sorted[e.0].edges[e.1].1 == id
  }

  /** The first of all edges that lead to the state. */
  ghost predicate FirstEdge(sorted: InfoGraph, id: nat, e: (nat, nat)) {
    EdgeTo(sorted, e, id) && forall f: (nat, nat) :: EdgeTo(sorted, f, id) ==> f == e || Before(e, f)
  }

  ghost predicate FromEarlier(sorted: InfoGraph, i: nat)
    requires i < |sorted|
  {
    exists e: (nat, nat) :: FirstEdge(sorted, sorted[i].source, e) && e.0 < i
  }

  /** Every state but the first is led to from an earlier one, and states come in the order of their first edges. */
  ghost predicate BreadthFirst(sorted: InfoGraph) {
    && (forall i :: 0 < i < |sorted| ==> FromEarlier(sorted, i))
    && (forall i, j, e: (nat, nat), f: (nat, nat) ::
          (0 < i < j < |sorted| && FirstEdge(sorted, sorted[i].source, e) && FirstEdge(sorted, sorted[j].source, f))
          ==> Before(e, f))
  }

  ghost predicate Increasing(es: seq<(nat, nat)>) {
    forall i, j :: 0 <= i < j < |es| ==> Before(es[i], es[j])
  }

  ghost function FreshEdges(edges: seq<(string, nat)>, visited: set<nat>, i: nat): (r: seq<(nat, nat)>)
    ensures |r| == |Fresh(edges, visited)|
  {
    if edges == [] then []
    else
      var n := |edges| - 1;
      FreshEdges(edges[..n], visited, i) + (if edges[n].1 !in visited then [(i, n)] else [])
  }

  lemma {:induction false} FreshEdgesAt(edges: seq<(string, nat)>, visited: set<nat>, i: nat, x: nat)
    requires x < |FreshEdges(edges, visited, i)|
    ensures var e := FreshEdges(edges, visited, i)[x];
      e.0 == i && e.1 < |edges| && edges[e.1].1 == Fresh(edges, visited)[x]
    decreases |edges|
  {
    var n := |edges| - 1;
    if x < |FreshEdges(edges[..n], visited, i)| {
      FreshEdgesAt(edges[..n], visited, i, x);
    }
  }

  lemma {:induction false} FreshEdgesIncrease(edges: seq<(string, nat)>, visited: set<nat>, i: nat, x: nat, y: nat)
    requires x < y < |FreshEdges(edges, visited, i)|
    ensures Before(FreshEdges(edges, visited, i)[x], FreshEdges(edges, visited, i)[y])
    decreases |edges|
  {
    var n := |edges| - 1;
    var before := FreshEdges(edges[..n], visited, i);
    FreshEdgesAt(edges[..n], visited, i, x);
    if y < |before| {
      FreshEdgesIncrease(edges[..n], visited, i, x, y);
    }
  }

  lemma FreshEdgesLead(edges: seq<(string, nat)>, visited: set<nat>, i: nat)
    ensures var r := FreshEdges(edges, visited, i);
      && Increasing(r)
      && (forall x :: 0 <= x < |r| ==> r[x].0 == i && r[x].1 < |edges| && edges[r[x].1].1 == Fresh(edges, visited)[x])
  {
    hide FreshEdges, Fresh, Before;
    var r := FreshEdges(edges, visited, i);
    forall x: nat | x < |r|
      ensures r[x].0 == i && r[x].1 < |edges| && edges[r[x].1].1 == Fresh(edges, visited)[x]
    {
      FreshEdgesAt(edges, visited, i, x);
    }
    forall x: nat, y: nat | x < y < |r|
      ensures Before(r[x], r[y])
    {
      FreshEdgesIncrease(edges, visited, i, x, y);
    }
  }

  lemma {:induction false} FreshEdgesAll(edges: seq<(string, nat)>, visited: set<nat>, i: nat, k: nat)
    requires k < |edges| && edges[k].1 !in visited
    ensures (i, k) in FreshEdges(edges, visited, i)
    decreases |edges|
  {
    if k < |edges| - 1 {
      FreshEdgesAll(edges[..|edges| - 1], visited, i, k);
    }
  }

  /** The first edges of the states taken so far, followed by the edges that put the queue there. */
  ghost predicate Numbered(sorted: InfoGraph, visited: set<nat>, queue: seq<nat>, firsts: seq<(nat, nat)>,
                           from: seq<(nat, nat)>) {
    && |firsts| == |sorted| - 1 && |from| == |queue| && Increasing(firsts + from)
    && (forall i :: 0 <= i < |firsts| ==> FirstEdge(sorted, sorted[i + 1].source, firsts[i]) && firsts[i].0 <= i)
    && (forall x :: 0 <= x < |from| ==> EdgeTo(sorted, from[x], queue[x]))
    && forall e: (nat, nat), id: nat :: EdgeTo(sorted, e, id) && id !in visited ==> e in from
  }

  lemma NumberedStart(st: Info, visited: set<nat>)
    ensures Numbered([st], visited, Fresh(st.edges, visited), [], FreshEdges(st.edges, visited, 0))
  {
    hide FreshEdges, Fresh;
    FreshEdgesLead(st.edges, visited, 0);
    assert [] + FreshEdges(st.edges, visited, 0) == FreshEdges(st.edges, visited, 0);
    forall e: (nat, nat), id: nat | EdgeTo([st], e, id) && id !in visited
      ensures e in FreshEdges(st.edges, visited, 0)
    {
      FreshEdgesAll(st.edges, visited, 0, e.1);
      assert e == (0, e.1);
    }
  }

  lemma NumberedSkip(sorted: InfoGraph, visited: set<nat>, queue: seq<nat>, firsts: seq<(nat, nat)>, from: seq<(nat, nat)>)
    requires Numbered(sorted, visited, queue, firsts, from) && queue != [] && queue[0] in visited
    ensures Numbered(sorted, visited, queue[1..], firsts, from[1..])
  {
    var all, rest := firsts + from, firsts + from[1..];
    hide FirstEdge;
    assert forall i :: 0 <= i < |rest| ==> rest[i] == all[if i < |firsts| then i else i + 1];
    forall e: (nat, nat), id: nat | EdgeTo(sorted, e, id) && id !in visited
      ensures e in from[1..]
    {
      assert from == [from[0]] + from[1..];
    }
  }

  /** The next state's first edge is the one that put it at the front of the queue. */
  lemma FrontIsFirst(sorted: InfoGraph, visited: set<nat>, queue: seq<nat>, firsts: seq<(nat, nat)>,
                     from: seq<(nat, nat)>, st: Info)
    requires Numbered(sorted, visited, queue, firsts, from) && queue != [] && queue[0] !in visited
    ensures FirstEdge(sorted + [st], queue[0], from[0]) && from[0].0 < |sorted|
  {
    forall f: (nat, nat) | EdgeTo(sorted + [st], f, queue[0])
      ensures f == from[0] || Before(from[0], f)
    {
      if f.0 < |sorted| {
        assert EdgeTo(sorted, f, queue[0]);
        var x :| 0 <= x < |from| && from[x] == f;
        var all := firsts + from;
        assert all[|firsts|] == from[0] && all[|firsts| + x] == f;
      }
    }
  }

  lemma FirstEdgeStays(sorted: InfoGraph, id: nat, e: (nat, nat), st: Info)
    requires FirstEdge(sorted, id, e)
    ensures FirstEdge(sorted + [st], id, e)
  {
    forall f: (nat, nat) | EdgeTo(sorted + [st], f, id)
      ensures f == e || Before(e, f)
    {
      assert f.0 < |sorted| ==> EdgeTo(sorted, f, id);
    }
  }

  lemma NumberedVisit(sorted: InfoGraph, visited: set<nat>, queue: seq<nat>, firsts: seq<(nat, nat)>,
                      from: seq<(nat, nat)>, st: Info)
    requires Numbered(sorted, visited, queue, firsts, from) && queue != [] && queue[0] !in visited
    requires st.source == queue[0] && sorted != [] && from != []
    ensures var now := visited + {st.source};
      Numbered(sorted + [st], now, queue[1..] + Fresh(st.edges, now), firsts + [from[0]],
               from[1..] + FreshEdges(st.edges, now, |sorted|))
  {
    hide FirstEdge, EdgeTo, FreshEdges, Fresh, Before, Increasing, Numbered;
    var now := visited + {st.source};
    var targets, added := Fresh(st.edges, now), FreshEdges(st.edges, now, |sorted|);
    var queue2, firsts2, from2 := queue[1..] + targets, firsts + [from[0]], from[1..] + added;
    OlderEdges(sorted, visited, queue, firsts, from);
    FirstEdgesVisited(sorted, visited, queue, firsts, from, st);
    FreshEdgesLead(st.edges, now, |sorted|);
    assert firsts2 + from2 == (firsts + from) + added;
    IncreasingJoin(firsts + from, added, |sorted|);
    CoveredVisited(sorted, visited, queue, firsts, from, st);
    NewTargets(sorted, queue, from, st, targets, added);
    IsNumbered(sorted + [st], now, queue2, firsts2, from2);
  }

  lemma IsNumbered(sorted: InfoGraph, visited: set<nat>, queue: seq<nat>, firsts: seq<(nat, nat)>, from: seq<(nat, nat)>)
    requires |firsts| == |sorted| - 1 && |from| == |queue| && Increasing(firsts + from)
    requires forall i :: 0 <= i < |firsts| ==> FirstEdge(sorted, sorted[i + 1].source, firsts[i]) && firsts[i].0 <= i
    requires forall x :: 0 <= x < |from| ==> EdgeTo(sorted, from[x], queue[x])
    requires forall e: (nat, nat), id: nat :: EdgeTo(sorted, e, id) && id !in visited ==> e in from
    ensures Numbered(sorted, visited, queue, firsts, from)
  {
    hide FirstEdge, EdgeTo, Increasing;
  }

  lemma FirstEdgesVisited(sorted: InfoGraph, visited: set<nat>, queue: seq<nat>, firsts: seq<(nat, nat)>,
                          from: seq<(nat, nat)>, st: Info)
    requires Numbered(sorted, visited, queue, firsts, from) && queue != [] && queue[0] !in visited
    requires st.source == queue[0] && sorted != []
    ensures var more, all := sorted + [st], firsts + [from[0]];
      forall i :: 0 <= i < |all| ==> FirstEdge(more, more[i + 1].source, all[i]) && all[i].0 <= i
  {
    hide FirstEdge, EdgeTo, Increasing;
    FrontIsFirst(sorted, visited, queue, firsts, from, st);
    forall i | 0 <= i < |firsts|
      ensures FirstEdge(sorted + [st], sorted[i + 1].source, firsts[i])
    {
      FirstEdgeStays(sorted, sorted[i + 1].source, firsts[i], st);
    }
  }

  lemma CoveredVisited(sorted: InfoGraph, visited: set<nat>, queue: seq<nat>, firsts: seq<(nat, nat)>,
                       from: seq<(nat, nat)>, st: Info)
    requires Numbered(sorted, visited, queue, firsts, from) && queue != []
    requires st.source == queue[0] && sorted != []
    ensures var now := visited + {st.source};
      forall e: (nat, nat), id: nat :: EdgeTo(sorted + [st], e, id) && id !in now
        ==> e in from[1..] + FreshEdges(st.edges, now, |sorted|)
  {
    hide FirstEdge, FreshEdges, Increasing;
    var now := visited + {st.source};
    forall e: (nat, nat), id: nat | EdgeTo(sorted + [st], e, id) && id !in now
      ensures e in from[1..] + FreshEdges(st.edges, now, |sorted|)
    {
      if e.0 < |sorted| {
        assert EdgeTo(sorted, e, id);
        assert from == [from[0]] + from[1..];
      } else {
        FreshEdgesAll(st.edges, now, |sorted|, e.1);
        assert e == (|sorted|, e.1);
      }
    }
  }

  /** Taking a new state from the queue; the start is taken when nothing else is there. */
  lemma NumberedNext(sorted: InfoGraph, visited: set<nat>, queue: seq<nat>, firsts: seq<(nat, nat)>,
                     from: seq<(nat, nat)>, st: Info)
    returns (firsts': seq<(nat, nat)>, from': seq<(nat, nat)>)
    requires queue != [] && queue[0] !in visited && st.source == queue[0]
    requires if sorted == [] then queue == [st.source] else Numbered(sorted, visited, queue, firsts, from)
    ensures var now := visited + {st.source};
      Numbered(sorted + [st], now, queue[1..] + Fresh(st.edges, now), firsts', from')
  {
    hide Numbered, Fresh, FreshEdges;
    var now := visited + {st.source};
    if sorted == [] {
      NumberedStart(st, now);
      assert sorted + [st] == [st] && queue[1..] + Fresh(st.edges, now) == Fresh(st.edges, now);
      firsts', from' := [], FreshEdges(st.edges, now, 0);
    } else {
      NumberedLengths(sorted, visited, queue, firsts, from);
      NumberedVisit(sorted, visited, queue, firsts, from, st);
      firsts', from' := firsts + [from[0]], from[1..] + FreshEdges(st.edges, now, |sorted|);
    }
  }

  lemma NumberedLengths(sorted: InfoGraph, visited: set<nat>, queue: seq<nat>, firsts: seq<(nat, nat)>,
                        from: seq<(nat, nat)>)
    requires Numbered(sorted, visited, queue, firsts, from)
    ensures |from| == |queue|
  {
  }

  lemma IncreasingJoin(es: seq<(nat, nat)>, added: seq<(nat, nat)>, n: nat)
    requires Increasing(es) && Increasing(added)
    requires forall i :: 0 <= i < |es| ==> es[i].0 < n
    requires forall i :: 0 <= i < |added| ==> added[i].0 == n
    ensures Increasing(es + added)
  {
  }

  lemma NewTargets(sorted: InfoGraph, queue: seq<nat>, from: seq<(nat, nat)>, st: Info, targets: seq<nat>,
                   added: seq<(nat, nat)>)
    requires |from| == |queue| > 0 && |added| == |targets|
    requires forall x :: 0 <= x < |from| ==> EdgeTo(sorted, from[x], queue[x])
    requires forall x :: 0 <= x < |added| ==>
      added[x].0 == |sorted| && added[x].1 < |st.edges| && st.edges[added[x].1].1 == targets[x]
    ensures forall x :: 0 <= x < |from[1..] + added| ==>
      EdgeTo(sorted + [st], (from[1..] + added)[x], (queue[1..] + targets)[x])
  {
  }

  lemma OlderEdges(sorted: InfoGraph, visited: set<nat>, queue: seq<nat>, firsts: seq<(nat, nat)>, from: seq<(nat, nat)>)
    requires Numbered(sorted, visited, queue, firsts, from) && sorted != []
    ensures |from| == |queue| && |firsts| == |sorted| - 1 && Increasing(firsts + from)
    ensures forall i :: 0 <= i < |firsts + from| ==> (firsts + from)[i].0 < |sorted|
    ensures forall x :: 0 <= x < |from| ==> EdgeTo(sorted, from[x], queue[x])
  {
    hide FirstEdge;
  }

  lemma NumberedDone(sorted: InfoGraph, visited: set<nat>, firsts: seq<(nat, nat)>, from: seq<(nat, nat)>)
    requires Numbered(sorted, visited, [], firsts, from)
    ensures BreadthFirst(sorted)
  {
    forall i | 0 < i < |sorted|
      ensures FirstEdge(sorted, sorted[i].source, firsts[i - 1]) && FromEarlier(sorted, i)
    {
      assert FirstEdge(sorted, sorted[i - 1 + 1].source, firsts[i - 1]);
    }
    forall i, j, e: (nat, nat), f: (nat, nat) | 0 < i < j < |sorted|
        && FirstEdge(sorted, sorted[i].source, e) && FirstEdge(sorted, sorted[j].source, f)
      ensures Before(e, f)
    {
      OnlyFirstEdge(sorted, sorted[i].source, e, firsts[i - 1]);
      OnlyFirstEdge(sorted, sorted[j].source, f, firsts[j - 1]);
      assert (firsts + from)[i - 1] == e && (firsts + from)[j - 1] == f;
    }
  }

  lemma OnlyFirstEdge(sorted: InfoGraph, id: nat, e: (nat, nat), f: (nat, nat))
    requires FirstEdge(sorted, id, e) && FirstEdge(sorted, id, f)
    ensures e == f
  {
  }

  // ----- the loop

  /** Everything that edges of visited states lead to is visited or waiting. */
  ghost predicate Pending(sorted: InfoGraph, visited: set<nat>, queue: seq<nat>) {
    forall i, k :: 0 <= i < |sorted| && 0 <= k < |sorted[i].edges|
      ==> sorted[i].edges[k].1 in visited || sorted[i].edges[k].1 in queue
  }

  /** The sorted states are states of the graph that are reachable from the start. */
  ghost predicate Taken(g: InfoGraph, start: nat, sorted: InfoGraph) {
    forall i :: 0 <= i < |sorted| ==> sorted[i] in g && Reachable(g, start, sorted[i].source)
  }

  ghost predicate AllReachable(g: InfoGraph, start: nat, queue: seq<nat>) {
    forall id :: id in queue ==> HasState(g, id) && Reachable(g, start, id)
  }

  lemma ReachableStep(g: InfoGraph, start: nat, st: Info)
    requires ClosedInfo(g) && st in g && Reachable(g, start, st.source)
    ensures forall k :: 0 <= k < |st.edges| ==> HasState(g, st.edges[k].1) && Reachable(g, start, st.edges[k].1)
  {
    var i :| 0 <= i < |g| && g[i] == st;
    var labels :| PathInfo(g, start, labels, st.source);
    forall k | 0 <= k < |st.edges|
      ensures HasState(g, st.edges[k].1) && Reachable(g, start, st.edges[k].1)
    {
      assert EdgeInfo(g, st.source, st.edges[k].0, st.edges[k].1);
      assert (labels + [st.edges[k].0])[..|labels|] == labels;
      assert PathInfo(g, start, labels + [st.edges[k].0], st.edges[k].1);
    }
  }

  /** Breadth first from the start: only reachable states, each once, closed, the start first. */
  method Traverse(g: InfoGraph, start: nat) returns (sorted: InfoGraph)
    requires DistinctSources(g) && ClosedInfo(g) && HasState(g, start)
    ensures Taken(g, start, sorted) && DistinctSources(sorted) && ClosedInfo(sorted)
    ensures sorted != [] && sorted[0].source == start && BreadthFirst(sorted)
  {
    hide Reachable, HasState, PathInfo, Pending, Taken, AllReachable, DistinctSources, ClosedInfo, Sources;
    hide Numbered, BreadthFirst, Fresh, FreshEdges;
    sorted := [];
    var visited: set<nat> := {};
    var queue := [start];
    ghost var firsts: seq<(nat, nat)>, from: seq<(nat, nat)> := [], [];
    StartReachable(g, start);
    Nothing(g, start, queue);
    while queue != []
      invariant Taken(g, start, sorted) && DistinctSources(sorted) && Sources(sorted) == visited
      invariant AllReachable(g, start, queue) && Pending(sorted, visited, queue)
      invariant if sorted == [] then queue == [start] && visited == {} else sorted[0].source == start
      invariant sorted != [] ==> Numbered(sorted, visited, queue, firsts, from)
      decreases |Sources(g) - visited|, |queue|
    {
      var stateId := queue[0];
      Popped(g, start, sorted, visited, queue);
      ghost var waiting := queue;
      queue := queue[1..];
      if stateId !in visited {
        ghost var before := visited;
        visited := visited + {stateId};
        var i := Find(g, stateId);
        Append(sorted, g[i]);
        Visit(g, start, sorted, before, queue, i);
        SmallerRest(Sources(g), before, stateId);
        firsts, from := NumberedNext(sorted, before, waiting, firsts, from, g[i]);
        sorted := sorted + [g[i]];
        queue := queue + Fresh(g[i].edges, visited);
      } else if sorted != [] {
        NumberedLengths(sorted, visited, waiting, firsts, from);
        NumberedSkip(sorted, visited, waiting, firsts, from);
        from := from[1..];
      }
    }
    SortedClosed(sorted, visited);
    NumberedDone(sorted, visited, firsts, from);
  }

  lemma StartReachable(g: InfoGraph, start: nat)
    ensures Reachable(g, start, start)
  {
    assert PathInfo(g, start, [], start);
  }

  lemma Nothing(g: InfoGraph, start: nat, queue: seq<nat>)
    requires HasState(g, start) && Reachable(g, start, start) && queue == [start]
    ensures Taken(g, start, []) && DistinctSources([]) && Sources([]) == {}
    ensures AllReachable(g, start, queue) && Pending([], {}, queue)
  {
  }

  /** Taking a state from the queue leaves it to be visited now or finds it visited. */
  lemma Popped(g: InfoGraph, start: nat, sorted: InfoGraph, visited: set<nat>, queue: seq<nat>)
    requires queue != [] && AllReachable(g, start, queue) && Pending(sorted, visited, queue)
    ensures HasState(g, queue[0]) && Reachable(g, start, queue[0]) && AllReachable(g, start, queue[1..])
    ensures Pending(sorted, visited + {queue[0]}, queue[1..])
    ensures queue[0] in visited ==> visited + {queue[0]} == visited
  {
    hide HasState, Reachable;
    assert queue == [queue[0]] + queue[1..];
  }

  lemma Visit(g: InfoGraph, start: nat, sorted: InfoGraph, before: set<nat>, queue: seq<nat>, i: nat)
    requires ClosedInfo(g) && i < |g| && Reachable(g, start, g[i].source)
    requires Taken(g, start, sorted) && AllReachable(g, start, queue)
    requires Pending(sorted, before + {g[i].source}, queue)
    ensures var visited := before + {g[i].source};
      var more := queue + Fresh(g[i].edges, visited);
      && g[i].source in Sources(g)
      && Taken(g, start, sorted + [g[i]])
      && AllReachable(g, start, more)
      && Pending(sorted + [g[i]], visited, more)
  {
    hide HasState, Reachable, ClosedInfo;
    ReachableStep(g, start, g[i]);
  }

  lemma Append(sorted: InfoGraph, st: Info)
    requires DistinctSources(sorted) && st.source !in Sources(sorted)
    ensures DistinctSources(sorted + [st]) && Sources(sorted + [st]) == Sources(sorted) + {st.source}
  {
    var more := sorted + [st];
    forall id | id in Sources(sorted) + {st.source}
      ensures id in Sources(more)
    {
      if id in Sources(sorted) {
        var i :| 0 <= i < |sorted| && sorted[i].source == id;
        assert more[i].source == id;
      } else {
        assert more[|sorted|].source == id;
      }
    }
    forall i | 0 <= i < |sorted|
      ensures sorted[i].source != st.source
    {
      assert sorted[i].source in Sources(sorted);
    }
  }

  lemma SmallerRest(all: set<nat>, visited: set<nat>, id: nat)
    requires id in all && id !in visited
    ensures |all - (visited + {id})| < |all - visited|
  {
    assert all - visited == (all - (visited + {id})) + {id};
  }

  lemma SortedClosed(sorted: InfoGraph, visited: set<nat>)
    requires Pending(sorted, visited, []) && Sources(sorted) == visited
    ensures ClosedInfo(sorted)
  {
    forall i, k | 0 <= i < |sorted| && 0 <= k < |sorted[i].edges|
      ensures HasState(sorted, sorted[i].edges[k].1)
    {
      assert sorted[i].edges[k].1 in Sources(sorted);
    }
  }

  // ----- renaming

  /** The new name of a state that was taken; other names stay. */
  function NewName(sorted: InfoGraph, id: nat): (r: nat)
    ensures HasState(sorted, id) ==> r < |sorted| && sorted[r].source == id
    ensures !HasState(sorted, id) ==> r == id
  {
    if sorted == [] then id
    else if sorted[|sorted| - 1].source == id then |sorted| - 1
    else
      var init := sorted[..|sorted| - 1];
      assert HasState(sorted, id) ==> HasState(init, id) by {
        if HasState(sorted, id) {
          var i :| 0 <= i < |sorted| && sorted[i].source == id;
          assert init[i].source == id;
        }
      }
      assert HasState(init, id) ==> HasState(sorted, id);
      NewName(init, id)
  }

  function RenameEdges(sorted: InfoGraph, edges: seq<(string, nat)>): (r: seq<(string, nat)>)
    ensures |r| == |edges|
  {
    seq(|edges|, k requires 0 <= k < |edges| => (edges[k].0, NewName(sorted, edges[k].1)))
  }

  function Renamed(sorted: InfoGraph): (r: InfoGraph)
    ensures |r| == |sorted|
  {
    seq(|sorted|, i requires 0 <= i < |sorted| => Info(sorted[i].accept, i, RenameEdges(sorted, sorted[i].edges)))
  }

  method SortAndRenameStates(g: InfoGraph, start: nat) returns (renamed: InfoGraph, sorted: InfoGraph)
    requires DistinctSources(g) && ClosedInfo(g) && HasState(g, start)
    ensures Taken(g, start, sorted) && DistinctSources(sorted) && ClosedInfo(sorted)
    ensures sorted != [] && sorted[0].source == start && BreadthFirst(sorted)
    ensures renamed == Renamed(sorted)
  {
    hide Taken, HasState, Reachable, BreadthFirst;
    var order := Traverse(g, start);
    sorted := order;
    renamed := [];
    for newId := 0 to |order|
      invariant renamed == Renamed(order)[..newId]
    {
      var edges := order[newId].edges;
      for k := 0 to |edges|
        invariant |edges| == |order[newId].edges|
        invariant forall j :: 0 <= j < k ==> edges[j] == RenameEdges(order, order[newId].edges)[j]
        invariant forall j :: k <= j < |edges| ==> edges[j] == order[newId].edges[j]
      {
        edges := edges[k := (edges[k].0, NewName(order, edges[k].1))];
      }
      assert edges == RenameEdges(order, order[newId].edges);
      renamed := renamed + [Info(order[newId].accept, newId, edges)];
    }
  }

  // ----- meaning

  lemma NewNameOf(sorted: InfoGraph, i: nat)
    requires DistinctSources(sorted) && i < |sorted|
    ensures NewName(sorted, sorted[i].source) == i
  {
    assert HasState(sorted, sorted[i].source);
  }

  /** Edges of a taken state are the same in the graph and, renamed, in the result. */
  lemma EdgeRenamed(g: InfoGraph, start: nat, sorted: InfoGraph, i: nat, word: string, t: nat)
    requires DistinctSources(g) && Taken(g, start, sorted) && DistinctSources(sorted) && ClosedInfo(sorted) && i < |sorted|
    ensures EdgeInfo(g, sorted[i].source, word, t) ==> HasState(sorted, t)
    ensures EdgeInfo(g, sorted[i].source, word, t) ==> EdgeInfo(Renamed(sorted), i, word, NewName(sorted, t))
  {
    hide Reachable, NewName;
    if EdgeInfo(g, sorted[i].source, word, t) {
      var j :| 0 <= j < |g| && g[j].source == sorted[i].source && (word, t) in g[j].edges;
      assert sorted[i] in g;
      var l :| 0 <= l < |g| && g[l] == sorted[i];
      assert j == l;
      var k :| 0 <= k < |sorted[i].edges| && sorted[i].edges[k] == (word, t);
      assert Renamed(sorted)[i].edges[k] == (word, NewName(sorted, t));
    }
  }

  lemma EdgeBack(g: InfoGraph, start: nat, sorted: InfoGraph, i: nat, word: string, j: nat)
    requires Taken(g, start, sorted) && DistinctSources(sorted) && ClosedInfo(sorted) && i < |sorted|
    requires EdgeInfo(Renamed(sorted), i, word, j)
    ensures j < |sorted| && EdgeInfo(g, sorted[i].source, word, sorted[j].source)
  {
    hide Reachable;
    var r := Renamed(sorted);
    var l :| 0 <= l < |r| && r[l].source == i && (word, j) in r[l].edges;
    var k :| 0 <= k < |r[i].edges| && r[i].edges[k] == (word, j);
    assert HasState(sorted, sorted[i].edges[k].1);
    assert sorted[i].edges[k] == (word, sorted[j].source);
    assert sorted[i] in g;
  }

  /** Paths from taken states stay among taken states and are the same after renaming. */
  lemma {:induction false} PathRenamed(g: InfoGraph, start: nat, sorted: InfoGraph, i: nat, labels: seq<string>, t: nat)
    requires DistinctSources(g) && Taken(g, start, sorted) && DistinctSources(sorted) && ClosedInfo(sorted) && i < |sorted|
    requires PathInfo(g, sorted[i].source, labels, t)
    ensures HasState(sorted, t) && PathInfo(Renamed(sorted), i, labels, NewName(sorted, t))
    decreases |labels|
  {
    hide Taken, ClosedInfo, EdgeInfo, NewName;
    if labels == [] {
      NewNameOf(sorted, i);
      assert HasState(sorted, sorted[i].source);
    } else {
      var init, last := labels[..|labels| - 1], labels[|labels| - 1];
      var mid: nat :| PathInfo(g, sorted[i].source, init, mid) && EdgeInfo(g, mid, last, t);
      PathRenamed(g, start, sorted, i, init, mid);
      EdgeRenamed(g, start, sorted, NewName(sorted, mid), last, t);
    }
  }

  lemma {:induction false} PathBack(g: InfoGraph, start: nat, sorted: InfoGraph, i: nat, labels: seq<string>, j: nat)
    requires Taken(g, start, sorted) && DistinctSources(sorted) && ClosedInfo(sorted) && i < |sorted|
    requires PathInfo(Renamed(sorted), i, labels, j)
    ensures j < |sorted| && PathInfo(g, sorted[i].source, labels, sorted[j].source)
    decreases |labels|
  {
    hide Taken, ClosedInfo, EdgeInfo, DistinctSources;
    if labels != [] {
      var init, last := labels[..|labels| - 1], labels[|labels| - 1];
      var mid: nat :| PathInfo(Renamed(sorted), i, init, mid) && EdgeInfo(Renamed(sorted), mid, last, j);
      PathBack(g, start, sorted, i, init, mid);
      EdgeBack(g, start, sorted, mid, last, j);
    }
  }

  /** The renaming is a bijection between the reachable states and the first numbers; the start is 0. */
  lemma RenamingIsBijection(g: InfoGraph, start: nat, sorted: InfoGraph)
    requires DistinctSources(g) && Taken(g, start, sorted) && DistinctSources(sorted) && ClosedInfo(sorted)
    requires sorted != [] && sorted[0].source == start
    ensures NewName(sorted, start) == 0
    ensures forall id :: Reachable(g, start, id) <==> HasState(sorted, id)
    ensures forall i :: 0 <= i < |sorted| ==> NewName(sorted, sorted[i].source) == i
    ensures forall i :: 0 <= i < |sorted| ==> Renamed(sorted)[i].source == i
  {
    hide NewName, PathInfo, EdgeInfo, ClosedInfo;
    forall i | 0 <= i < |sorted|
      ensures NewName(sorted, sorted[i].source) == i
    {
      NewNameOf(sorted, i);
    }
    forall id | Reachable(g, start, id)
      ensures HasState(sorted, id)
    {
      var labels :| PathInfo(g, start, labels, id);
      PathRenamed(g, start, sorted, 0, labels, id);
    }
  }

  /** Renaming keeps every accepted sequence of labels, and adds none. */
  lemma RenamingKeepsLanguage(g: InfoGraph, start: nat, sorted: InfoGraph, labels: seq<string>)
    requires DistinctSources(g) && Taken(g, start, sorted) && DistinctSources(sorted) && ClosedInfo(sorted)
    requires sorted != [] && sorted[0].source == start
    ensures AcceptsInfo(g, start, labels) <==> AcceptsInfo(Renamed(sorted), 0, labels)
  {
    hide NewName, PathInfo, EdgeInfo, ClosedInfo, Reachable;
    if AcceptsInfo(g, start, labels) {
      var i :| 0 <= i < |g| && g[i].accept && PathInfo(g, start, labels, g[i].source);
      PathRenamed(g, start, sorted, 0, labels, g[i].source);
      var j := NewName(sorted, g[i].source);
      assert sorted[j] in g;
      var l :| 0 <= l < |g| && g[l] == sorted[j];
      assert l == i;
      assert Renamed(sorted)[j].accept && Renamed(sorted)[j].source == j;
    }
    if AcceptsInfo(Renamed(sorted), 0, labels) {
      var j :| 0 <= j < |sorted| && Renamed(sorted)[j].accept
               && PathInfo(Renamed(sorted), 0, labels, Renamed(sorted)[j].source);
      PathBack(g, start, sorted, 0, labels, j);
      assert sorted[j] in g;
      var l :| 0 <= l < |g| && g[l] == sorted[j];
    }
  }
}
