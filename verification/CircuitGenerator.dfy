/**
 * CircuitGenerator: the loops that emit a whole step, and what the step computes.
 */
module CircuitGenerator {
  import opened DfaGraphs
  import opened CharRanges
  import opened Netlists
  import opened GateMemos
  import opened CircuitCompiler

  /** The states that lead to a state, with the bytes of each edge. */
  type Sources = map<nat, set<Byte>>

  ghost predicate InEdge(rev: Sources, p: nat, c: Byte) {
    p in rev && c in rev[p] && c != 0
  }

  /** An active state in 1 .. m leads here on the byte. */
  ghost predicate Reached(rev: Sources, m: nat, c: Byte, cur: seq<bool>) {
    exists p: nat :: 1 <= p < m && InEdge(rev, p, c) && p < |cur| && cur[p]
  }

  function SortedBytes(s: set<Byte>, from: nat): (k: seq<Byte>)
    requires from <= 256
    ensures Sorted(k) && forall b: Byte :: b in k <==> b in s && from <= b
    ensures forall i :: 0 <= i < |k| ==> from <= k[i]
    decreases 256 - from
  {
    if from == 256 then []
    else if from in s then [from as Byte] + SortedBytes(s, from + 1)
    else SortedBytes(s, from + 1)
  }

  // ----- the checks of one edge

  lemma EqMeans(t: Tables, code: Byte)
    requires SoundAll(t) && code in t.eqChecks
    ensures SourceMeans(t, EqOut(t.eqChecks[code]), {code})
  {
    hide Eval, Ordered, Any, AllDriven;
    forall c: Byte, cur: seq<bool>
      ensures var w, s := Eval(t.lines, c, cur), EqOut(t.eqChecks[code]);
        Driven(w, s) && (Value(w, cur, s) <==> c in {code})
    {
      assert Sound(t, c, cur);
    }
  }

  lemma EqAppend(t: Tables, u: Tables, outs: seq<Source>, chars: set<Byte>, code: Byte)
    requires OutsMean(t, outs, chars) && t.lines <= u.lines && SoundAll(u) && code in u.eqChecks
    ensures OutsMean(u, outs + [EqOut(u.eqChecks[code])], chars + {code})
  {
    hide OutsMean, SoundAll;
    OutsMeanKept(t, u, outs, chars);
    EqMeans(u, code);
    OutsAppend(u, outs, chars, EqOut(u.eqChecks[code]), {code});
  }

  lemma NoOuts(t: Tables)
    ensures OutsMean(t, [], {})
  {
    hide Eval;
  }

  method AddRanges(g: Compiler, minMaxes: seq<(Byte, Byte)>) returns (outs: seq<Source>, ghost acc: set<Byte>)
    requires g.Valid()
    modifies g`lines, g`rangeChecks, g`ltI, g`andI
    ensures g.Valid() && old(g.lines) <= g.lines && g.andI >= old(g.andI)
    ensures OutsMean(g.View(), outs, acc) && |outs| == |minMaxes|
    ensures forall b: Byte :: b in acc <==> Covered(minMaxes, b)
  {
    hide SoundAll, OutsMean, Covered, Between;
    outs, acc := [], {};
    NoOuts(g.View());
    NothingCovered(minMaxes);
    for j := 0 to |minMaxes|
      invariant g.Valid() && old(g.lines) <= g.lines && g.andI >= old(g.andI)
      invariant OutsMean(g.View(), outs, acc) && |outs| == j
      invariant forall b: Byte :: b in acc <==> Covered(minMaxes[..j], b)
    {
      var (min, max) := minMaxes[j];
      CoveredNext(minMaxes, j);
      outs := g.AddRangeCheck(outs, min, max, acc);
      acc := acc + Between(min, max);
    }
    assert minMaxes[..|minMaxes|] == minMaxes;
  }

  lemma NothingCovered(ranges: seq<(Byte, Byte)>)
    ensures forall b: Byte :: !Covered(ranges[..0], b)
  {
  }

  method AddSingles(g: Compiler, eqOutputs: seq<Source>, individual: set<Byte>, ghost chars: set<Byte>)
    returns (outs: seq<Source>)
    requires g.Valid() && OutsMean(g.View(), eqOutputs, chars)
    modifies g`lines, g`eqChecks, g`eqI
    ensures g.Valid() && old(g.lines) <= g.lines
    ensures OutsMean(g.View(), outs, chars + individual)
    ensures outs == [] ==> eqOutputs == [] && individual == {}
  {
    hide SoundAll, OutsMean;
    outs := eqOutputs;
    ghost var acc: set<Byte> := chars;
    for code: nat := 0 to 256
      invariant g.Valid() && old(g.lines) <= g.lines
      invariant OutsMean(g.View(), outs, acc)
      invariant outs == [] ==> eqOutputs == [] && forall b :: b in individual ==> code <= b
      invariant forall b: Byte :: b in acc <==> b in chars || (b in individual && b < code)
    {
      if code in individual {
        ghost var t := g.View();
        var index := g.AddEqCheck(code);
        EqAppend(t, g.View(), outs, acc, code);
        outs := outs + [EqOut(index)];
        acc := acc + {code as Byte};
      }
    }
    assert acc == chars + individual;
  }

  /** The ranges and single bytes together cover exactly the nonzero bytes. */
  method CheckBytes(g: Compiler, chars: set<Byte>) returns (eqOutputs: seq<Source>)
    requires g.Valid()
    modifies g`lines, g`rangeChecks, g`eqChecks, g`eqI, g`ltI, g`andI
    ensures g.Valid() && old(g.lines) <= g.lines && g.andI >= old(g.andI)
    ensures OutsMean(g.View(), eqOutputs, chars - {0}) && (eqOutputs == [] ==> chars - {0} == {})
  {
    hide SoundAll, OutsMean, LongRun, Covered;
    var k := SortedBytes(chars - {0}, 0);
    var minMaxes, individual := OptimizeCharRanges(k);
    ghost var acc;
    eqOutputs, acc := AddRanges(g, minMaxes);
    CoveredInside(k, minMaxes);
    if minMaxes == [] {
      NothingCovered(minMaxes);
      assert minMaxes[..0] == minMaxes;
      assert acc == {};
    }
    assert acc + individual == chars - {0};
    eqOutputs := AddSingles(g, eqOutputs, individual, acc);
  }

  lemma CoveredNext(ranges: seq<(Byte, Byte)>, j: nat)
    requires j < |ranges|
    ensures forall b: Byte ::
      Covered(ranges[..j + 1], b) <==> Covered(ranges[..j], b) || b in Between(ranges[j].0, ranges[j].1)
  {
    assert ranges[..j + 1] == ranges[..j] + [ranges[j]];
  }

  lemma CoveredInside(k: seq<Byte>, ranges: seq<(Byte, Byte)>)
    requires forall lo: Byte, hi: Byte :: (lo, hi) in ranges <==> LongRun(Elements(k), lo, hi)
    ensures forall b: Byte :: Covered(ranges, b) ==> b in k
  {
    forall b: Byte | Covered(ranges, b)
      ensures b in k
    {
      var r: (Byte, Byte) :| r in ranges && r.0 <= b <= r.1;
      assert (r.0, r.1) == r;
      assert LongRun(Elements(k), r.0, r.1);
      assert b in Elements(k);
    }
  }

  // ----- one state

  /** The gates collected so far are the active states below m that lead here. */
  ghost predicate Collected(t: Tables, outputs: seq<nat>, rev: Sources, m: nat) {
    forall c: Byte, cur: seq<bool> ::
      && AllDriven(Eval(t.lines, c, cur), AndSources(outputs))
      && (Any(Eval(t.lines, c, cur), cur, AndSources(outputs)) <==> Reached(rev, m, c, cur))
  }

  lemma CollectNothing(t: Tables, rev: Sources)
    ensures Collected(t, [], rev, 0) && Collected(t, [], rev, 1)
  {
    hide Eval;
  }

  lemma CollectedKept(t: Tables, u: Tables, outputs: seq<nat>, rev: Sources, m: nat)
    requires Collected(t, outputs, rev, m) && t.lines <= u.lines && SoundAll(u)
    ensures Collected(u, outputs, rev, m)
  {
    hide Eval, Any, AllDriven, Keeps, Ordered, MemoSound, CountersMatch, Reached;
    forall c: Byte, cur: seq<bool>
      ensures AllDriven(Eval(u.lines, c, cur), AndSources(outputs))
      ensures Any(Eval(u.lines, c, cur), cur, AndSources(outputs)) <==> Reached(rev, m, c, cur)
    {
      assert Sound(u, c, cur);
      EvalKeeps(t.lines, u.lines, c, cur);
      AnyKept(Eval(t.lines, c, cur), Eval(u.lines, c, cur), cur, AndSources(outputs));
    }
  }

  lemma CollectSkip(t: Tables, outputs: seq<nat>, rev: Sources, m: nat)
    requires Collected(t, outputs, rev, m) && m !in rev
    ensures Collected(t, outputs, rev, m + 1)
  {
    hide Eval, Any, AllDriven;
    forall c: Byte, cur: seq<bool>
      ensures Reached(rev, m + 1, c, cur) <==> Reached(rev, m, c, cur)
    {
    }
  }

  lemma CollectGate(t: Tables, outputs: seq<nat>, rev: Sources, m: nat, a: nat)
    requires Collected(t, outputs, rev, m) && m in rev && 1 <= m && EdgeGate(t, a, m, rev[m] - {0})
    ensures Collected(t, outputs + [a], rev, m + 1)
  {
    hide Eval;
    forall c: Byte, cur: seq<bool>
      ensures AllDriven(Eval(t.lines, c, cur), AndSources(outputs + [a]))
      ensures Any(Eval(t.lines, c, cur), cur, AndSources(outputs + [a])) <==> Reached(rev, m + 1, c, cur)
    {
      AnyAppend(Eval(t.lines, c, cur), cur, outputs, a);
      ReachedNext(rev, m, c, cur);
    }
  }

  lemma AnyAppend(w: Wires, cur: seq<bool>, outputs: seq<nat>, a: nat)
    ensures AndSources(outputs + [a]) == AndSources(outputs) + [AndOut(a)]
    ensures Any(w, cur, AndSources(outputs + [a])) <==> Any(w, cur, AndSources(outputs)) || Value(w, cur, AndOut(a))
  {
    hide Value;
    var all, some := AndSources(outputs + [a]), AndSources(outputs);
    assert all == some + [AndOut(a)];
    assert all[|some|] == AndOut(a);
    assert forall k :: 0 <= k < |some| ==> all[k] == some[k];
  }

  lemma ReachedNext(rev: Sources, m: nat, c: Byte, cur: seq<bool>)
    requires 1 <= m
    ensures Reached(rev, m + 1, c, cur) <==> Reached(rev, m, c, cur) || (InEdge(rev, m, c) && m < |cur| && cur[m])
  {
  }

  /** The gate of the edge from state 0, if there is one below m. */
  ghost predicate ZeroGate(t: Tables, zs: seq<nat>, rev: Sources, m: nat) {
    if m > 0 && 0 in rev then |zs| == 1 && EdgeGate(t, zs[0], 0, rev[0] - {0}) else zs == []
  }

  lemma ZeroGateKept(t: Tables, u: Tables, zs: seq<nat>, rev: Sources, m: nat)
    requires ZeroGate(t, zs, rev, m) && t.lines <= u.lines && SoundAll(u)
    ensures ZeroGate(u, zs, rev, m)
  {
    hide EdgeGate, SoundAll;
    if m > 0 && 0 in rev {
      EdgeGateKept(t, u, zs[0], 0, rev[0] - {0});
    }
  }

  /** The state, or its temporary copy, is on exactly when an active state leads to it. */
  ghost predicate StateDone(t: Tables, rev: Sources, i: nat, n: nat) {
    forall c: Byte, cur: seq<bool> :: StateValue(Eval(t.lines, c, cur), 0 in rev, i) <==> Reached(rev, n, c, cur)
  }

  lemma StateFinished(t: Tables, tmp: bool, outputs: seq<nat>, rev: Sources, i: nat, n: nat)
    requires UpdateMeans(t, tmp, i, outputs) && Collected(t, outputs, rev, n) && (tmp <==> 0 in rev)
    ensures StateDone(t, rev, i, n)
  {
    hide Eval, Any, Reached, StateValue, AllDriven;
  }

  lemma StateDoneKept(t: Tables, u: Tables, rev: Sources, i: nat, n: nat)
    requires StateDone(t, rev, i, n) && t.lines <= u.lines && SoundAll(t) && SoundAll(u)
    requires if 0 in rev then i in t.tmpStates else i in t.nextStates
    ensures StateDone(u, rev, i, n)
  {
    hide Eval, Ordered, MemoSound, Reached;
    forall c: Byte, cur: seq<bool>
      ensures StateValue(Eval(u.lines, c, cur), 0 in rev, i) <==> Reached(rev, n, c, cur)
    {
      assert Sound(t, c, cur) && Sound(u, c, cur);
      EvalKeeps(t.lines, u.lines, c, cur);
    }
  }

  /** One edge: its checks, its gate, and the note that the gate starts from state 0 or the output. */
  method CompileEdge(g: Compiler, rev: Sources, i: nat, prev: nat, outputs: seq<nat>) returns (outs: seq<nat>)
    requires g.Valid() && prev in rev && rev[prev] - {0} != {} && i in g.zeroStartingAndIdxes
    requires Collected(g.View(), outputs, rev, prev) && (prev <= 1 ==> outputs == [])
    requires ZeroGate(g.View(), g.zeroStartingAndIdxes[i], rev, prev)
    requires forall k :: 0 <= k < |outputs| ==> outputs[k] < g.andI
    modifies g
    ensures g.Valid() && old(g.lines) <= g.lines
    ensures Collected(g.View(), outs, rev, prev + 1) && (prev == 0 ==> outs == [])
    ensures forall k :: 0 <= k < |outs| ==> outs[k] < g.andI
    ensures i in g.zeroStartingAndIdxes && ZeroGate(g.View(), g.zeroStartingAndIdxes[i], rev, prev + 1)
    ensures g.zeroStartingAndIdxes == old(g.zeroStartingAndIdxes)[i := g.zeroStartingAndIdxes[i]]
    ensures g.zeroStartingStates == old(g.zeroStartingStates) + if prev == 0 then [i] else []
    ensures g.tmpStates == old(g.tmpStates) && g.nextStates == old(g.nextStates)
  {
    hide SoundAll, OutsMean, EdgeGate, Collected;
    ghost var t := g.View();
    if prev == 0 {
      g.zeroStartingStates := g.zeroStartingStates + [i];
    }
    var eqOutputs := CheckBytes(g, rev[prev]);
    g.AddStateTransition(i, prev, eqOutputs, rev[prev] - {0});
    CollectedKept(t, g.View(), outputs, rev, prev);
    if prev != 0 {
      outs := outputs + [g.andI - 1];
      CollectGate(g.View(), outputs, rev, prev, g.andI - 1);
      ZeroGateKept(t, g.View(), g.zeroStartingAndIdxes[i], rev, prev);
    } else {
      outs := outputs;
      CollectNothing(g.View(), rev);
    }
  }

  /** All edges into one state, in the order of their sources, and then the update of the state. */
  method CompileState(g: Compiler, rev: Sources, i: nat, n: nat)
    requires g.Valid() && i !in g.tmpStates && i !in g.nextStates && i !in g.zeroStartingStates && n >= 1
    requires forall p :: p in rev ==> p < n && rev[p] - {0} != {}
    modifies g
    ensures g.Valid() && old(g.lines) <= g.lines
    ensures StateDone(g.View(), rev, i, n)
    ensures i in g.zeroStartingAndIdxes && ZeroGate(g.View(), g.zeroStartingAndIdxes[i], rev, n)
    ensures g.zeroStartingAndIdxes == old(g.zeroStartingAndIdxes)[i := g.zeroStartingAndIdxes[i]]
    ensures g.zeroStartingStates == old(g.zeroStartingStates) + if 0 in rev then [i] else []
    ensures g.tmpStates == old(g.tmpStates) + if 0 in rev then {i} else {}
    ensures g.nextStates == old(g.nextStates) + if 0 in rev then {} else {i}
  {
    hide SoundAll, OutsMean, EdgeGate, Collected, StateDone, UpdateMeans;
    var outputs: seq<nat> := [];
    g.zeroStartingAndIdxes := g.zeroStartingAndIdxes[i := []];
    CollectNothing(g.View(), rev);
    for prev := 0 to n
      invariant g.Valid() && old(g.lines) <= g.lines
      invariant Collected(g.View(), outputs, rev, prev) && (prev <= 1 ==> outputs == [])
      invariant forall k :: 0 <= k < |outputs| ==> outputs[k] < g.andI
      invariant i in g.zeroStartingAndIdxes && ZeroGate(g.View(), g.zeroStartingAndIdxes[i], rev, prev)
      invariant g.zeroStartingAndIdxes == old(g.zeroStartingAndIdxes)[i := g.zeroStartingAndIdxes[i]]
      invariant g.zeroStartingStates == old(g.zeroStartingStates) + if prev > 0 && 0 in rev then [i] else []
      invariant g.tmpStates == old(g.tmpStates) && g.nextStates == old(g.nextStates)
    {
      if prev in rev {
        outputs := CompileEdge(g, rev, i, prev, outputs);
      } else {
        CollectSkip(g.View(), outputs, rev, prev);
      }
    }
    ghost var t := g.View();
    g.AddStateUpdate(i, outputs);
    CollectedKept(t, g.View(), outputs, rev, n);
    ZeroGateKept(t, g.View(), g.zeroStartingAndIdxes[i], rev, n);
    StateFinished(g.View(), i in g.zeroStartingStates, outputs, rev, i, n);
  }
}
