/**
 * Netlists: the gates emitted for one step of the circuit, and their values.
 *
 * A step reads one byte and the bits of the current states, and drives the bits of the next ones.
 * The library templates are given by what they compute: comparison, equality, and, or, nor.
 */
module Netlists {
  import opened DfaGraphs

  datatype Operand = In | Code(b: Byte)

  /** A signal that a gate can read. */
  datatype Source = EqOut(i: nat) | LtOut(i: nat) | AndOut(i: nat) | MultiOrOut(i: nat) | StateIn(i: nat)

  /** The driver of a state: a constant zero or a signal. */
  datatype Driver = Zero | From(s: Source)

  datatype Line =
    | LessEqThan(lt: nat, a: Operand, b: Operand)
    | IsEqual(eq: nat, code: Byte)
    | AndGate(and: nat, x: Source, y: Source)
    | MultiOr(or: nat, inputs: seq<Source>)
    | StateUpdate(tmp: bool, state: nat, driver: Driver)
    | FromZeroEnabled(tmps: seq<bool>)
    | ZeroStart(state: nat, ands: seq<nat>)
    | StateChanged(state: nat)

  /** The values of all signals, components in the order of their indices. */
  datatype Wires = Wires(eq: seq<bool>, lt: seq<bool>, and: seq<bool>, or: seq<bool>,
                         tmp: map<nat, bool>, next: map<nat, bool>, fromZero: seq<bool>, changed: seq<bool>)

  const NO_WIRES: Wires := Wires([], [], [], [], map[], map[], [], [])

  predicate Driven(w: Wires, s: Source) {
    match s
    case EqOut(i) => i < |w.eq|
    case LtOut(i) => i < |w.lt|
    case AndOut(i) => i < |w.and|
    case MultiOrOut(i) => i < |w.or|
    case StateIn(_) => true
  }

  predicate Value(w: Wires, cur: seq<bool>, s: Source) {
    match s
    case EqOut(i) => i < |w.eq| && w.eq[i]
    case LtOut(i) => i < |w.lt| && w.lt[i]
    case AndOut(i) => i < |w.and| && w.and[i]
    case MultiOrOut(i) => i < |w.or| && w.or[i]
    case StateIn(i) => i < |cur| && cur[i]
  }

  function ByteOf(o: Operand, c: Byte): Byte {
    if o == In then c else o.b
  }

  predicate Any(w: Wires, cur: seq<bool>, sources: seq<Source>) {
    exists k :: 0 <= k < |sources| && Value(w, cur, sources[k])
  }

  /** A state that is read from states_tmp or from states, by the flag. */
  predicate StateValue(w: Wires, tmp: bool, i: nat) {
    if tmp then i in w.tmp && w.tmp[i] else i in w.next && w.next[i]
  }

  predicate StateDriven(w: Wires, tmp: bool, i: nat) {
    if tmp then i in w.tmp else i in w.next
  }

  /** The line drives the next component of its kind or a fresh state, and reads only driven signals. */
  predicate Fits(w: Wires, line: Line) {
    match line
    case LessEqThan(i, _, _) => i == |w.lt|
    case IsEqual(i, _) => i == |w.eq|
    case AndGate(i, x, y) => i == |w.and| && Driven(w, x) && Driven(w, y)
    case MultiOr(i, inputs) => i == |w.or| && forall k :: 0 <= k < |inputs| ==> Driven(w, inputs[k])
    case StateUpdate(tmp, i, d) => !StateDriven(w, tmp, i) && (d.From? ==> Driven(w, d.s))
    case FromZeroEnabled(tmps) => w.fromZero == [] && forall k :: 0 <= k < |tmps| ==> StateDriven(w, tmps[k], k + 1)
    case ZeroStart(i, ands) =>
      i !in w.next && i in w.tmp && |w.fromZero| == 1 && forall k :: 0 <= k < |ands| ==> ands[k] < |w.and|
    case StateChanged(i) => i == |w.changed| + 1 && i in w.next
  }

  function AndSources(ands: seq<nat>): (r: seq<Source>)
    ensures |r| == |ands|
  {
    seq(|ands|, k requires 0 <= k < |ands| => AndOut(ands[k]))
  }

  function Drive(w: Wires, line: Line, c: Byte, cur: seq<bool>): Wires {
    match line
    case LessEqThan(_, a, b) => w.(lt := w.lt + [ByteOf(a, c) <= ByteOf(b, c)])
    case IsEqual(_, code) => w.(eq := w.eq + [c == code])
    case AndGate(_, x, y) => w.(and := w.and + [Value(w, cur, x) && Value(w, cur, y)])
    case MultiOr(_, inputs) => w.(or := w.or + [Any(w, cur, inputs)])
    case StateUpdate(true, i, d) => w.(tmp := w.tmp[i := d.From? && Value(w, cur, d.s)])
    case StateUpdate(false, i, d) => w.(next := w.next[i := d.From? && Value(w, cur, d.s)])
    case FromZeroEnabled(tmps) =>
      w.(fromZero := w.fromZero + [forall k :: 0 <= k < |tmps| ==> !StateValue(w, tmps[k], k + 1)])
    case ZeroStart(i, ands) =>
      w.(next := w.next[i := (i in w.tmp && w.tmp[i]) || (w.fromZero == [true] && Any(w, cur, AndSources(ands)))])
    case StateChanged(i) => w.(changed := w.changed + [i in w.next && w.next[i]])
  }

  /** All signals after the given lines. */
  function Eval(lines: seq<Line>, c: Byte, cur: seq<bool>): Wires {
    if lines == [] then NO_WIRES else Drive(Eval(lines[..|lines| - 1], c, cur), lines[|lines| - 1], c, cur)
  }

  /** Every signal is driven exactly once and before it is read. */
  ghost predicate Ordered(lines: seq<Line>, c: Byte, cur: seq<bool>) {
    lines != [] ==>
      var init, last := lines[..|lines| - 1], lines[|lines| - 1];
      Ordered(init, c, cur) && Fits(Eval(init, c, cur), last)
  }

  lemma EvalSnoc(lines: seq<Line>, line: Line, c: Byte, cur: seq<bool>)
    ensures Eval(lines + [line], c, cur) == Drive(Eval(lines, c, cur), line, c, cur)
    ensures Ordered(lines + [line], c, cur) <==> Ordered(lines, c, cur) && Fits(Eval(lines, c, cur), line)
  {
    assert (lines + [line])[..|lines|] == lines;
  }

  /** Signals keep their values when more lines follow. */
  ghost predicate Keeps(w: Wires, v: Wires) {
    && w.eq <= v.eq && w.lt <= v.lt && w.and <= v.and && w.or <= v.or && w.fromZero <= v.fromZero && w.changed <= v.changed
    && (forall i :: i in w.tmp ==> i in v.tmp && v.tmp[i] == w.tmp[i])
    && (forall i :: i in w.next ==> i in v.next && v.next[i] == w.next[i])
  }

  lemma DriveKeeps(w: Wires, line: Line, c: Byte, cur: seq<bool>)
    requires Fits(w, line)
    ensures Keeps(w, Drive(w, line, c, cur))
  {
  }

  lemma {:induction false} EvalKeeps(lines: seq<Line>, more: seq<Line>, c: Byte, cur: seq<bool>)
    requires lines <= more && Ordered(more, c, cur)
    ensures Ordered(lines, c, cur) && Keeps(Eval(lines, c, cur), Eval(more, c, cur))
    decreases |more|
  {
    if lines != more {
      var init := more[..|more| - 1];
      EvalKeeps(lines, init, c, cur);
      DriveKeeps(Eval(init, c, cur), more[|more| - 1], c, cur);
    }
  }

  lemma ValueKept(w: Wires, v: Wires, cur: seq<bool>, s: Source)
    requires Keeps(w, v) && Driven(w, s)
    ensures Driven(v, s) && Value(v, cur, s) == Value(w, cur, s)
  {
  }
}
