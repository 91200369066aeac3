/**
 * Constraints: the emitted lines read as constraints on a witness. They have a solution, and every
 * solution gives the signals the values of the gates.
 */
module Constraints {
  import opened DfaGraphs
  import opened Netlists
  import opened GateMemos
  import opened CircuitGenerator
  import opened CircuitSteps
  import opened CircuitRuns

  /** The witness v satisfies the line. */
  ghost predicate Holds(v: Wires, line: Line, c: Byte, cur: seq<bool>) {
    match line
    case LessEqThan(i, a, b) => i < |v.lt| && v.lt[i] == (ByteOf(a, c) <= ByteOf(b, c))
    case IsEqual(i, code) => i < |v.eq| && v.eq[i] == (c == code)
    case AndGate(i, x, y) => i < |v.and| && v.and[i] == (Value(v, cur, x) && Value(v, cur, y))
    case MultiOr(i, inputs) => i < |v.or| && v.or[i] == Any(v, cur, inputs)
    case StateUpdate(tmp, i, d) =>
      StateDriven(v, tmp, i) && StateValue(v, tmp, i) == (d.From? && Value(v, cur, d.s))
    case FromZeroEnabled(tmps) =>
      v.fromZero != [] && v.fromZero[0] == (forall k :: 0 <= k < |tmps| ==> !StateValue(v, tmps[k], k + 1))
    case ZeroStart(i, ands) =>
      i in v.next && v.next[i] == ((i in v.tmp && v.tmp[i]) || (FromZero(v) && Any(v, cur, AndSources(ands))))
    case StateChanged(i) => 1 <= i <= |v.changed| && i in v.next && v.changed[i - 1] == v.next[i]
  }

  predicate FromZero(v: Wires) {
    v.fromZero != [] && v.fromZero[0]
  }

  ghost predicate Satisfies(v: Wires, lines: seq<Line>, c: Byte, cur: seq<bool>) {
    forall k :: 0 <= k < |lines| ==> Holds(v, lines[k], c, cur)
  }

  lemma StatesKept(w: Wires, v: Wires, tmps: seq<bool>)
    requires Keeps(w, v) && forall k :: 0 <= k < |tmps| ==> StateDriven(w, tmps[k], k + 1)
    ensures (forall k :: 0 <= k < |tmps| ==> !StateValue(w, tmps[k], k + 1))
       <==> (forall k :: 0 <= k < |tmps| ==> !StateValue(v, tmps[k], k + 1))
  {
    forall k | 0 <= k < |tmps|
      ensures StateValue(w, tmps[k], k + 1) == StateValue(v, tmps[k], k + 1)
    {
      assert StateDriven(w, tmps[k], k + 1);
    }
  }

  lemma StartKept(w: Wires, v: Wires, i: nat, ands: seq<nat>, cur: seq<bool>)
    requires Keeps(w, v) && i in w.tmp && |w.fromZero| == 1 && forall k :: 0 <= k < |ands| ==> ands[k] < |w.and|
    ensures i in v.tmp && v.tmp[i] == w.tmp[i]
    ensures (w.fromZero == [true] && Any(w, cur, AndSources(ands))) <==> (FromZero(v) && Any(v, cur, AndSources(ands)))
  {
    hide Any;
    AnyKept(w, v, cur, AndSources(ands));
    assert w.fromZero == [w.fromZero[0]] && v.fromZero[0] == w.fromZero[0];
  }

  lemma UpdateDetermines(w: Wires, v: Wires, tmp: bool, i: nat, d: Driver, c: Byte, cur: seq<bool>)
    requires var line := StateUpdate(tmp, i, d); Keeps(w, v) && Fits(w, line) && Holds(v, line, c, cur)
    ensures Keeps(Drive(w, StateUpdate(tmp, i, d), c, cur), v)
  {
    hide Any, FromZero, AndSources, Value, Driven;
    if d.From? {
      ValueKept(w, v, cur, d.s);
    }
  }

  /** A line that fits and holds gives its signal the value of the gate. */
  lemma LineDetermines(w: Wires, v: Wires, line: Line, c: Byte, cur: seq<bool>)
    requires Keeps(w, v) && Fits(w, line) && Holds(v, line, c, cur)
    ensures Keeps(Drive(w, line, c, cur), v)
  {
    hide Any, FromZero, AndSources, Value, Driven;
    match line
    case LessEqThan(i, a, b) =>
    case IsEqual(i, code) =>
    case AndGate(i, x, y) =>
      ValueKept(w, v, cur, x);
      ValueKept(w, v, cur, y);
    case MultiOr(i, inputs) =>
      AnyKept(w, v, cur, inputs);
    case StateUpdate(tmp, i, d) =>
      UpdateDetermines(w, v, tmp, i, d, c, cur);
    case FromZeroEnabled(tmps) =>
      StatesKept(w, v, tmps);
    case ZeroStart(i, ands) =>
      StartKept(w, v, i, ands, cur);
    case StateChanged(i) =>
  }

  /** Every witness of an ordered netlist carries the evaluated values. */
  lemma {:induction false} ConstraintsDetermine(v: Wires, lines: seq<Line>, c: Byte, cur: seq<bool>)
    requires Ordered(lines, c, cur) && Satisfies(v, lines, c, cur)
    ensures Keeps(Eval(lines, c, cur), v)
    decreases |lines|
  {
    hide Holds, Fits, Drive, Keeps;
    if lines == [] {
      NothingKept(v);
    } else {
      var n := |lines| - 1;
      assert forall k :: 0 <= k < n ==> lines[..n][k] == lines[k];
      ConstraintsDetermine(v, lines[..n], c, cur);
      LineDetermines(Eval(lines[..n], c, cur), v, lines[n], c, cur);
    }
  }

  lemma NothingKept(v: Wires)
    ensures Keeps(NO_WIRES, v)
  {
  }

  /** A driven line holds at once, and keeps holding when more signals are driven. */
  lemma LineHolds(w: Wires, v: Wires, line: Line, c: Byte, cur: seq<bool>)
    requires Fits(w, line) && Keeps(Drive(w, line, c, cur), v)
    ensures Holds(v, line, c, cur)
  {
    hide Any, FromZero, AndSources, Value, Driven;
    DriveKeeps(w, line, c, cur);
    KeepsTrans(w, Drive(w, line, c, cur), v);
    match line
    case LessEqThan(i, a, b) =>
    case IsEqual(i, code) =>
    case AndGate(i, x, y) =>
      ValueKept(w, v, cur, x);
      ValueKept(w, v, cur, y);
    case MultiOr(i, inputs) =>
      AnyKept(w, v, cur, inputs);
    case StateUpdate(tmp, i, d) =>
      if d.From? {
        ValueKept(w, v, cur, d.s);
      }
    case FromZeroEnabled(tmps) =>
      StatesKept(w, v, tmps);
    case ZeroStart(i, ands) =>
      StartKept(w, v, i, ands, cur);
    case StateChanged(i) =>
  }

  lemma KeepsTrans(u: Wires, v: Wires, w: Wires)
    requires Keeps(u, v) && Keeps(v, w)
    ensures Keeps(u, w)
  {
  }

  /** The evaluated values satisfy all lines: a witness exists for every byte and every current state. */
  lemma EvalSatisfies(lines: seq<Line>, c: Byte, cur: seq<bool>)
    requires Ordered(lines, c, cur)
    ensures Satisfies(Eval(lines, c, cur), lines, c, cur)
  {
    hide Holds, Fits, Drive, Keeps;
    forall k | 0 <= k < |lines|
      ensures Holds(Eval(lines, c, cur), lines[k], c, cur)
    {
      var upTo := lines[..k + 1];
      EvalKeeps(upTo, lines, c, cur);
      assert upTo[..k] == lines[..k] && upTo[k] == lines[k];
      LineHolds(Eval(lines[..k], c, cur), Eval(lines, c, cur), lines[k], c, cur);
    }
  }

  /**
   * The constraints of one step from one active state are satisfiable, and every witness turns on
   * exactly the state the scanner moves to.
   */
  lemma StepForced(circuit: Circuit, g: Graph, s: nat, c: Byte, v: Wires)
    requires Compilable(g) && Implements(circuit, g) && s < |g|
    ensures Satisfies(Eval(circuit.step, c, OneHot(|g|, s)), circuit.step, c, OneHot(|g|, s))
    ensures Satisfies(v, circuit.step, c, OneHot(|g|, s)) ==>
      forall t :: 1 <= t < |g| ==> t in v.next && (v.next[t] <==> t == Next(g, s, c))
  {
    hide Next, NextOn, Satisfies, Ordered;
    var cur := OneHot(|g|, s);
    assert Ordered(circuit.step, c, cur);
    EvalSatisfies(circuit.step, c, cur);
    if Satisfies(v, circuit.step, c, cur) {
      ConstraintsDetermine(v, circuit.step, c, cur);
      forall t | 1 <= t < |g|
        ensures t in v.next && (v.next[t] <==> t == Next(g, s, c))
      {
        NextOneHot(g, s, c, t);
        assert t in Eval(circuit.step, c, cur).next;
      }
    }
  }
}
