/**
 * GateMemos: the tables that let the compiler reuse a gate, and what makes reuse sound.
 */
module GateMemos {
  import opened DfaGraphs
  import opened Netlists

  /** Everything the compiler has emitted and remembered, with the states it has driven. */
  datatype Tables = Tables(lines: seq<Line>, rangeChecks: map<(Byte, Byte), (nat, nat)>, eqChecks: map<Byte, nat>,
                           multiOrChecks1: map<seq<Source>, nat>, multiOrChecks2: map<seq<nat>, nat>,
                           eqI: nat, ltI: nat, andI: nat, multiOrI: nat, tmpStates: set<nat>, nextStates: set<nat>)

  ghost predicate AllDriven(w: Wires, sources: seq<Source>) {
    forall k :: 0 <= k < |sources| ==> Driven(w, sources[k])
  }

  ghost predicate CountersMatch(t: Tables, w: Wires) {
    && |w.eq| == t.eqI && |w.lt| == t.ltI && |w.and| == t.andI && |w.or| == t.multiOrI
    && w.tmp.Keys == t.tmpStates && w.next.Keys == t.nextStates && w.fromZero == [] && w.changed == []
  }

  /** Every remembered gate has the value its key stands for. */
  ghost predicate MemoSound(t: Tables, w: Wires, c: Byte, cur: seq<bool>) {
    && (forall r: (Byte, Byte) :: r in t.rangeChecks ==>
         t.rangeChecks[r].1 < |w.and| && w.and[t.rangeChecks[r].1] == (r.0 <= c <= r.1))
    && (forall code :: code in t.eqChecks ==> t.eqChecks[code] < |w.eq| && w.eq[t.eqChecks[code]] == (c == code))
    && (forall key :: key in t.multiOrChecks1 ==>
         AllDriven(w, key) && t.multiOrChecks1[key] < |w.or| && w.or[t.multiOrChecks1[key]] == Any(w, cur, key))
    && (forall key :: key in t.multiOrChecks2 ==>
         AllDriven(w, AndSources(key)) && t.multiOrChecks2[key] < |w.or|
         && w.or[t.multiOrChecks2[key]] == Any(w, cur, AndSources(key)))
  }

  ghost predicate Sound(t: Tables, c: Byte, cur: seq<bool>) {
    && Ordered(t.lines, c, cur)
    && CountersMatch(t, Eval(t.lines, c, cur))
    && MemoSound(t, Eval(t.lines, c, cur), c, cur)
  }

  lemma AnyKept(w: Wires, v: Wires, cur: seq<bool>, sources: seq<Source>)
    requires Keeps(w, v) && AllDriven(w, sources)
    ensures AllDriven(v, sources) && Any(v, cur, sources) == Any(w, cur, sources)
  {
    hide Value, Driven;
    forall k | 0 <= k < |sources|
      ensures Driven(v, sources[k]) && Value(v, cur, sources[k]) == Value(w, cur, sources[k])
    {
      ValueKept(w, v, cur, sources[k]);
    }
  }

  lemma MemoKept(t: Tables, w: Wires, v: Wires, c: Byte, cur: seq<bool>)
    requires Keeps(w, v) && MemoSound(t, w, c, cur)
    ensures MemoSound(t, v, c, cur)
  {
    hide Any, AllDriven;
    forall key | key in t.multiOrChecks1
      ensures AllDriven(v, key) && Any(v, cur, key) == Any(w, cur, key)
    {
      AnyKept(w, v, cur, key);
    }
    forall key | key in t.multiOrChecks2
      ensures AllDriven(v, AndSources(key)) && Any(v, cur, AndSources(key)) == Any(w, cur, AndSources(key))
    {
      AnyKept(w, v, cur, AndSources(key));
    }
  }

  /** Emitting one fitting line keeps every memo sound. */
  lemma EmitKeeps(t: Tables, line: Line, c: Byte, cur: seq<bool>)
    requires Sound(t, c, cur) && Fits(Eval(t.lines, c, cur), line)
    ensures var v := Eval(t.lines + [line], c, cur);
      && Ordered(t.lines + [line], c, cur)
      && v == Drive(Eval(t.lines, c, cur), line, c, cur)
      && Keeps(Eval(t.lines, c, cur), v)
      && MemoSound(t, v, c, cur)
  {
    hide Eval, Ordered, Fits, Drive, MemoSound, Keeps;
    EvalSnoc(t.lines, line, c, cur);
    DriveKeeps(Eval(t.lines, c, cur), line, c, cur);
    MemoKept(t, Eval(t.lines, c, cur), Eval(t.lines + [line], c, cur), c, cur);
  }

  // ----- one lemma for each kind of component

  function WithEq(t: Tables, code: Byte): Tables {
    t.(lines := t.lines + [IsEqual(t.eqI, code)], eqChecks := t.eqChecks[code := t.eqI], eqI := t.eqI + 1)
  }

  lemma EqAdded(t: Tables, code: Byte, c: Byte, cur: seq<bool>)
    requires Sound(t, c, cur)
    ensures Sound(WithEq(t, code), c, cur)
  {
    hide Eval, Ordered, Any, AllDriven;
    EmitKeeps(t, IsEqual(t.eqI, code), c, cur);
  }

  function WithLt(t: Tables, a: Operand, b: Operand): Tables {
    t.(lines := t.lines + [LessEqThan(t.ltI, a, b)], ltI := t.ltI + 1)
  }

  lemma LtAdded(t: Tables, a: Operand, b: Operand, c: Byte, cur: seq<bool>)
    requires Sound(t, c, cur)
    ensures Sound(WithLt(t, a, b), c, cur)
    ensures Eval(WithLt(t, a, b).lines, c, cur).lt == Eval(t.lines, c, cur).lt + [ByteOf(a, c) <= ByteOf(b, c)]
  {
    hide Eval, Ordered, MemoSound;
    EmitKeeps(t, LessEqThan(t.ltI, a, b), c, cur);
    var u, w := WithLt(t, a, b), Eval(t.lines + [LessEqThan(t.ltI, a, b)], c, cur);
    SameMemos(t, u, w, c, cur);
  }

  lemma SameMemos(t: Tables, u: Tables, w: Wires, c: Byte, cur: seq<bool>)
    requires MemoSound(t, w, c, cur)
    requires t.rangeChecks == u.rangeChecks && t.eqChecks == u.eqChecks
    requires t.multiOrChecks1 == u.multiOrChecks1 && t.multiOrChecks2 == u.multiOrChecks2
    ensures MemoSound(u, w, c, cur)
  {
    hide Any, AllDriven;
  }

  function WithAnd(t: Tables, x: Source, y: Source): Tables {
    t.(lines := t.lines + [AndGate(t.andI, x, y)], andI := t.andI + 1)
  }

  lemma AndAdded(t: Tables, x: Source, y: Source, c: Byte, cur: seq<bool>)
    requires Sound(t, c, cur) && Driven(Eval(t.lines, c, cur), x) && Driven(Eval(t.lines, c, cur), y)
    ensures Sound(WithAnd(t, x, y), c, cur)
    ensures var w := Eval(t.lines, c, cur);
      Eval(WithAnd(t, x, y).lines, c, cur).and == w.and + [Value(w, cur, x) && Value(w, cur, y)]
  {
    hide Eval, Ordered, MemoSound, Driven, Value;
    EmitKeeps(t, AndGate(t.andI, x, y), c, cur);
    var u, w := WithAnd(t, x, y), Eval(t.lines + [AndGate(t.andI, x, y)], c, cur);
    SameMemos(t, u, w, c, cur);
  }

  function WithOr(t: Tables, inputs: seq<Source>): Tables {
    t.(lines := t.lines + [MultiOr(t.multiOrI, inputs)], multiOrI := t.multiOrI + 1)
  }

  lemma OrAdded(t: Tables, inputs: seq<Source>, c: Byte, cur: seq<bool>)
    requires Sound(t, c, cur) && AllDriven(Eval(t.lines, c, cur), inputs)
    ensures Sound(WithOr(t, inputs), c, cur)
    ensures var w, v := Eval(t.lines, c, cur), Eval(WithOr(t, inputs).lines, c, cur);
      v.or == w.or + [Any(w, cur, inputs)] && AllDriven(v, inputs) && Any(v, cur, inputs) == Any(w, cur, inputs)
  {
    hide Eval, Ordered, MemoSound, Driven, Value;
    EmitKeeps(t, MultiOr(t.multiOrI, inputs), c, cur);
    var u, w := WithOr(t, inputs), Eval(t.lines + [MultiOr(t.multiOrI, inputs)], c, cur);
    SameMemos(t, u, w, c, cur);
    AnyKept(Eval(t.lines, c, cur), w, cur, inputs);
  }

  function WithState(t: Tables, tmp: bool, i: nat, d: Driver): Tables {
    t.(lines := t.lines + [StateUpdate(tmp, i, d)],
       tmpStates := t.tmpStates + (if tmp then {i} else {}), nextStates := t.nextStates + (if tmp then {} else {i}))
  }

  lemma StateAdded(t: Tables, tmp: bool, i: nat, d: Driver, c: Byte, cur: seq<bool>)
    requires Sound(t, c, cur) && i !in (if tmp then t.tmpStates else t.nextStates)
    requires d.From? ==> Driven(Eval(t.lines, c, cur), d.s)
    ensures Sound(WithState(t, tmp, i, d), c, cur)
    ensures StateValue(Eval(WithState(t, tmp, i, d).lines, c, cur), tmp, i)
       <==> d.From? && Value(Eval(t.lines, c, cur), cur, d.s)
  {
    hide Eval, Ordered, MemoSound, Driven, Value;
    EmitKeeps(t, StateUpdate(tmp, i, d), c, cur);
    var u, w := WithState(t, tmp, i, d), Eval(t.lines + [StateUpdate(tmp, i, d)], c, cur);
    SameMemos(t, u, w, c, cur);
  }
}
