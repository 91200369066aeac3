/**
 * CircuitSteps: the complete netlist of one step and its meaning for arbitrary state bits.
 */
module CircuitSteps {
  import opened DfaGraphs
  import opened Netlists
  import opened GateMemos
  import opened CircuitCompiler
  import opened CircuitGenerator

  /** Every edge into a state other than 0 has a nonzero byte. */
  ghost predicate EdgesCarryBytes(rev: seq<Sources>) {
    forall i, p :: 1 <= i < |rev| && p in rev[i] ==> p < |rev| && rev[i][p] - {0} != {}
  }

  /** No active state has a successor on the byte. */
  ghost predicate Quiet(rev: seq<Sources>, c: Byte, cur: seq<bool>) {
    forall i :: 1 <= i < |rev| ==> !Reached(rev[i], |rev|, c, cur)
  }

  /** On when an active state leads here, or when nothing is reached and state 0 leads here. */
  ghost predicate NextOn(rev: seq<Sources>, i: nat, c: Byte, cur: seq<bool>)
    requires i < |rev|
  {
    Reached(rev[i], |rev|, c, cur) || (Quiet(rev, c, cur) && InEdge(rev[i], 0, c) && 0 < |cur| && cur[0])
  }

  /** Every signal is driven once, the next states are those prescribed, and the detector is fed by all but state 0. */
  ghost predicate StepCorrect(lines: seq<Line>, rev: seq<Sources>) {
    forall c: Byte, cur: seq<bool> ::
      && Ordered(lines, c, cur)
      && (forall i :: 1 <= i < |rev| ==>
           i in Eval(lines, c, cur).next && (Eval(lines, c, cur).next[i] <==> NextOn(rev, i, c, cur)))
      && |Eval(lines, c, cur).changed| == |rev| - 1
      && (forall i :: 1 <= i < |rev| ==> (Eval(lines, c, cur).changed[i - 1] <==> NextOn(rev, i, c, cur)))
  }

  // ----- the states and their temporary copies

  ghost predicate Finished(t: Tables, zs: map<nat, seq<nat>>, rev: seq<Sources>, j: nat)
    requires j < |rev|
  {
    && SoundAll(t)
    && StateDone(t, rev[j], j, |rev|)
    && j in zs && ZeroGate(t, zs[j], rev[j], |rev|)
    && (if 0 in rev[j] then j in t.tmpStates && j !in t.nextStates else j in t.nextStates)
  }

  lemma FinishedKept(t: Tables, u: Tables, zs: map<nat, seq<nat>>, ys: map<nat, seq<nat>>, rev: seq<Sources>, j: nat, i: nat)
    requires j < |rev| && i != j && Finished(t, zs, rev, j) && SoundAll(u) && t.lines <= u.lines
    requires t.tmpStates <= u.tmpStates && t.nextStates <= u.nextStates <= t.nextStates + {i}
    requires j in ys && ys[j] == zs[j]
    ensures Finished(u, ys, rev, j)
  {
    hide SoundAll, StateDone, EdgeGate;
    StateDoneKept(t, u, rev[j], j, |rev|);
    ZeroGateKept(t, u, zs[j], rev[j], |rev|);
  }

  method CompileStates(rev: seq<Sources>) returns (g: Compiler)
    requires |rev| >= 2 && EdgesCarryBytes(rev)
    ensures fresh(g) && g.Valid()
    ensures forall j :: 1 <= j < |rev| ==> Finished(g.View(), g.zeroStartingAndIdxes, rev, j)
    ensures forall j :: 1 <= j < |rev| ==> (j in g.zeroStartingStates <==> 0 in rev[j])
  {
    hide SoundAll, Finished, StateDone, ZeroGate;
    g := new Compiler();
    for i := 1 to |rev|
      invariant fresh(g) && g.Valid()
      invariant forall j :: 1 <= j < i ==> Finished(g.View(), g.zeroStartingAndIdxes, rev, j)
      invariant forall j :: j in g.zeroStartingStates <==> 1 <= j < i && 0 in rev[j]
      invariant forall j :: j in g.tmpStates ==> j < i
      invariant forall j :: j in g.nextStates ==> j < i
    {
      ghost var t, zs, before := g.View(), g.zeroStartingAndIdxes, g.zeroStartingStates;
      CompileState(g, rev[i], i, |rev|);
      forall j | 1 <= j < i
        ensures Finished(g.View(), g.zeroStartingAndIdxes, rev, j)
      {
        FinishedInside(t, zs, rev, j);
        FinishedKept(t, g.View(), zs, g.zeroStartingAndIdxes, rev, j, i);
      }
      NowFinished(g.View(), g.zeroStartingAndIdxes, rev, i);
    }
  }

  lemma FinishedInside(t: Tables, zs: map<nat, seq<nat>>, rev: seq<Sources>, j: nat)
    requires j < |rev| && Finished(t, zs, rev, j)
    ensures j in zs
  {
  }

  lemma NowFinished(t: Tables, zs: map<nat, seq<nat>>, rev: seq<Sources>, i: nat)
    requires i < |rev| && SoundAll(t) && StateDone(t, rev[i], i, |rev|) && i in zs && ZeroGate(t, zs[i], rev[i], |rev|)
    requires if 0 in rev[i] then i in t.tmpStates && i !in t.nextStates else i in t.nextStates
    ensures Finished(t, zs, rev, i)
  {
  }

  // ----- starting from state 0

  function StartFlags(zeroStartingStates: seq<nat>, n: nat): (flags: seq<bool>)
    requires n >= 1
    ensures |flags| == n - 1
  {
    seq(n - 1, k requires 0 <= k < n - 1 => k + 1 in zeroStartingStates)
  }

  /** What holds while the zero-starting states below i have been completed. */
  ghost predicate Completing(t: Tables, lines: seq<Line>, rev: seq<Sources>, i: nat, c: Byte, cur: seq<bool>) {
    var v, w := Eval(t.lines, c, cur), Eval(lines, c, cur);
    && Ordered(lines, c, cur)
    && w.and == v.and && w.tmp == v.tmp
    && w.fromZero == [Quiet(rev, c, cur)] && w.changed == []
    && (forall j :: 1 <= j < |rev| && (0 !in rev[j] || j < i) ==> j in w.next && (w.next[j] <==> NextOn(rev, j, c, cur)))
    && (forall j :: i <= j < |rev| && 0 in rev[j] ==> j !in w.next)
  }

  lemma FinishedValue(t: Tables, zs: map<nat, seq<nat>>, rev: seq<Sources>, j: nat, c: Byte, cur: seq<bool>)
    requires j < |rev| && Finished(t, zs, rev, j)
    ensures j in zs
    ensures var w := Eval(t.lines, c, cur);
      && StateDriven(w, 0 in rev[j], j)
      && (StateValue(w, 0 in rev[j], j) <==> Reached(rev[j], |rev|, c, cur))
      && (0 in rev[j] ==> (
            j !in w.next && |zs[j]| == 1 && zs[j][0] < |w.and|
            && (w.and[zs[j][0]] <==> InEdge(rev[j], 0, c) && 0 < |cur| && cur[0])))
      && (0 !in rev[j] ==> zs[j] == [])
      && w.fromZero == [] && w.changed == []
  {
    hide Eval, Ordered, MemoSound, Reached;
    assert Sound(t, c, cur);
  }

  /** The nor over all states is on exactly when nothing is reached. */
  lemma NorAdded(t: Tables, zs: map<nat, seq<nat>>, rev: seq<Sources>, flags: seq<bool>, c: Byte, cur: seq<bool>)
    requires |rev| >= 2 && SoundAll(t) && |flags| == |rev| - 1
    requires forall j :: 1 <= j < |rev| ==> Finished(t, zs, rev, j)
    requires forall j :: 1 <= j < |rev| ==> flags[j - 1] == (0 in rev[j])
    ensures Completing(t, t.lines + [FromZeroEnabled(flags)], rev, 1, c, cur)
  {
    hide Eval, Ordered, MemoSound, Reached, Finished;
    var w, line := Eval(t.lines, c, cur), FromZeroEnabled(flags);
    assert Sound(t, c, cur);
    forall j | 1 <= j < |rev|
      ensures StateDriven(w, flags[j - 1], j) && (StateValue(w, flags[j - 1], j) <==> Reached(rev[j], |rev|, c, cur))
      ensures 0 in rev[j] ==> j !in w.next
    {
      FinishedValue(t, zs, rev, j, c, cur);
    }
    FinishedValue(t, zs, rev, 1, c, cur);
    EvalSnoc(t.lines, line, c, cur);
    forall k | 0 <= k < |flags|
      ensures StateDriven(w, flags[k], k + 1) && (StateValue(w, flags[k], k + 1) <==> Reached(rev[k + 1], |rev|, c, cur))
    {
      assert flags[(k + 1) - 1] == flags[k];
    }
    assert (forall k :: 0 <= k < |flags| ==> !StateValue(w, flags[k], k + 1)) <==> Quiet(rev, c, cur) by {
      QuietFlags(w, rev, flags, c, cur);
    }
    forall j | 1 <= j < |rev| && 0 !in rev[j]
      ensures j in w.next && (w.next[j] <==> NextOn(rev, j, c, cur))
    {
      assert flags[j - 1] == false;
    }
  }

  lemma QuietFlags(w: Wires, rev: seq<Sources>, flags: seq<bool>, c: Byte, cur: seq<bool>)
    requires |flags| + 1 == |rev|
    requires forall k :: 0 <= k < |flags| ==> (StateValue(w, flags[k], k + 1) <==> Reached(rev[k + 1], |rev|, c, cur))
    ensures (forall k :: 0 <= k < |flags| ==> !StateValue(w, flags[k], k + 1)) <==> Quiet(rev, c, cur)
  {
    hide StateValue, Reached;
    if forall k :: 0 <= k < |flags| ==> !StateValue(w, flags[k], k + 1) {
      forall i | 1 <= i < |rev|
        ensures !Reached(rev[i], |rev|, c, cur)
      {
        assert !StateValue(w, flags[i - 1], i - 1 + 1);
      }
    }
  }

  function WithStart(lines: seq<Line>, i: nat, ands: seq<nat>): seq<Line> {
    if ands == [] then lines else lines + [ZeroStart(i, ands)]
  }

  /** Completing one zero-starting state. */
  lemma StartAdded(t: Tables, lines: seq<Line>, zs: map<nat, seq<nat>>, rev: seq<Sources>, i: nat, c: Byte, cur: seq<bool>)
    requires 1 <= i < |rev| && Finished(t, zs, rev, i) && Completing(t, lines, rev, i, c, cur)
    ensures Completing(t, WithStart(lines, i, zs[i]), rev, i + 1, c, cur)
  {
    hide Eval, Ordered, Reached, Finished, Quiet;
    FinishedValue(t, zs, rev, i, c, cur);
    if zs[i] != [] {
      EvalSnoc(lines, ZeroStart(i, zs[i]), c, cur);
      var w := Eval(lines, c, cur);
      assert (w.fromZero == [true]) <==> Quiet(rev, c, cur) by {
        assert w.fromZero[0] == Quiet(rev, c, cur);
      }
      assert Fits(w, ZeroStart(i, zs[i]));
      var v := Eval(lines + [ZeroStart(i, zs[i])], c, cur);
      var outs := AndSources(zs[i]);
      assert outs[0] == AndOut(zs[i][0]);
      assert Any(w, cur, outs) <==> Value(w, cur, outs[0]);
      assert v.next[i] <==> NextOn(rev, i, c, cur);
    }
  }

  /** The netlist of a step. */
  method GenerateStateTransitionLogic(rev: seq<Sources>) returns (lines: seq<Line>)
    requires |rev| >= 2 && EdgesCarryBytes(rev)
    ensures StepCorrect(lines, rev)
  {
    hide Finished, CompletingAll, SoundAll;
    var g := CompileStates(rev);
    ghost var t, zs := g.View(), g.zeroStartingAndIdxes;
    var flags := StartFlags(g.zeroStartingStates, |rev|);
    lines := g.lines + [FromZeroEnabled(flags)];
    FirstCompleting(t, zs, rev, flags);
    var starts := g.zeroStartingAndIdxes;
    for i := 1 to |rev|
      invariant CompletingAll(t, lines, rev, i)
    {
      FinishedInside(t, zs, rev, i);
      MoreCompleting(t, lines, zs, rev, i, i + 1);
      if starts[i] != [] {
        lines := lines + [ZeroStart(i, starts[i])];
      }
    }
    NothingChanged(t, lines, rev);
    for i := 1 to |rev|
      invariant ChangingAll(lines, rev, i)
    {
      MoreChanged(lines, rev, i, i + 1);
      lines := lines + [StateChanged(i)];
    }
    AllChanged(lines, rev);
  }

  // ----- the detector of state changes

  /** All next states are driven, and those below i feed the detector. */
  ghost predicate Changing(lines: seq<Line>, rev: seq<Sources>, i: nat, c: Byte, cur: seq<bool>) {
    var w := Eval(lines, c, cur);
    && Ordered(lines, c, cur) && 1 <= i <= |rev| && |w.changed| == i - 1
    && (forall j :: 1 <= j < |rev| ==> j in w.next && (w.next[j] <==> NextOn(rev, j, c, cur)))
    && (forall j :: 1 <= j < i ==> (w.changed[j - 1] <==> NextOn(rev, j, c, cur)))
  }

  ghost predicate ChangingAll(lines: seq<Line>, rev: seq<Sources>, i: nat) {
    forall c: Byte, cur: seq<bool> :: Changing(lines, rev, i, c, cur)
  }

  lemma NothingChanged(t: Tables, lines: seq<Line>, rev: seq<Sources>)
    requires |rev| >= 2 && CompletingAll(t, lines, rev, |rev|)
    ensures ChangingAll(lines, rev, 1)
  {
    hide Eval, Ordered, NextOn, Quiet;
    forall c: Byte, cur: seq<bool>
      ensures Changing(lines, rev, 1, c, cur)
    {
      assert Completing(t, lines, rev, |rev|, c, cur);
    }
  }

  lemma MoreChanged(lines: seq<Line>, rev: seq<Sources>, i: nat, next: nat)
    requires i < |rev| && ChangingAll(lines, rev, i) && next == i + 1
    ensures ChangingAll(lines + [StateChanged(i)], rev, next)
  {
    hide Eval, Ordered, NextOn;
    forall c: Byte, cur: seq<bool>
      ensures Changing(lines + [StateChanged(i)], rev, next, c, cur)
    {
      assert Changing(lines, rev, i, c, cur);
      EvalSnoc(lines, StateChanged(i), c, cur);
    }
  }

  lemma AllChanged(lines: seq<Line>, rev: seq<Sources>)
    requires ChangingAll(lines, rev, |rev|)
    ensures StepCorrect(lines, rev)
  {
    hide Eval, Ordered, NextOn;
    forall c: Byte, cur: seq<bool>
      ensures Ordered(lines, c, cur) && |Eval(lines, c, cur).changed| == |rev| - 1
      ensures forall i :: 1 <= i < |rev| ==>
        i in Eval(lines, c, cur).next && (Eval(lines, c, cur).next[i] <==> NextOn(rev, i, c, cur))
      ensures forall i :: 1 <= i < |rev| ==> (Eval(lines, c, cur).changed[i - 1] <==> NextOn(rev, i, c, cur))
    {
      assert Changing(lines, rev, |rev|, c, cur);
    }
  }

  // ----- all bytes and all state bits

  ghost predicate CompletingAll(t: Tables, lines: seq<Line>, rev: seq<Sources>, i: nat) {
    forall c: Byte, cur: seq<bool> :: Completing(t, lines, rev, i, c, cur)
  }

  lemma FirstCompleting(t: Tables, zs: map<nat, seq<nat>>, rev: seq<Sources>, flags: seq<bool>)
    requires |rev| >= 2 && SoundAll(t) && |flags| == |rev| - 1
    requires forall j :: 1 <= j < |rev| ==> Finished(t, zs, rev, j)
    requires forall j :: 1 <= j < |rev| ==> flags[j - 1] == (0 in rev[j])
    ensures CompletingAll(t, t.lines + [FromZeroEnabled(flags)], rev, 1)
  {
    hide Completing, SoundAll, Finished;
    forall c: Byte, cur: seq<bool>
      ensures Completing(t, t.lines + [FromZeroEnabled(flags)], rev, 1, c, cur)
    {
      NorAdded(t, zs, rev, flags, c, cur);
    }
  }

  lemma MoreCompleting(t: Tables, lines: seq<Line>, zs: map<nat, seq<nat>>, rev: seq<Sources>, i: nat, next: nat)
    requires 1 <= i < |rev| && Finished(t, zs, rev, i) && CompletingAll(t, lines, rev, i) && next == i + 1
    ensures CompletingAll(t, WithStart(lines, i, zs[i]), rev, next)
  {
    hide Completing, Finished;
    FinishedInside(t, zs, rev, i);
    var more := WithStart(lines, i, zs[i]);
    forall c: Byte, cur: seq<bool>
      ensures Completing(t, more, rev, next, c, cur)
    {
      assert Completing(t, lines, rev, i, c, cur);
      StartAdded(t, lines, zs, rev, i, c, cur);
    }
  }
}
