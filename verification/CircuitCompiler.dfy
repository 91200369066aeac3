/**
 * CircuitCompiler: emits the gates of one step from the reversed graph.
 */
module CircuitCompiler {
  import opened DfaGraphs
  import opened CharRanges
  import opened Netlists
  import opened GateMemos

  // ----- what emitted gates compute, for every byte and every current state

  ghost predicate SoundAll(t: Tables) {
    forall c: Byte, cur: seq<bool> :: Sound(t, c, cur)
  }

  /** One of the sources is on exactly for these bytes. */
  ghost predicate OutsMean(t: Tables, outs: seq<Source>, chars: set<Byte>) {
    forall c: Byte, cur: seq<bool> ::
      AllDriven(Eval(t.lines, c, cur), outs) && (Any(Eval(t.lines, c, cur), cur, outs) <==> c in chars)
  }

  /** The gate is on exactly when the previous state is and the byte is on the edge. */
  ghost predicate EdgeGate(t: Tables, a: nat, prev: nat, chars: set<Byte>) {
    forall c: Byte, cur: seq<bool> ::
      var w := Eval(t.lines, c, cur);
      a < |w.and| && (w.and[a] <==> prev < |cur| && cur[prev] && c in chars)
  }

  lemma OutsMeanKept(t: Tables, u: Tables, outs: seq<Source>, chars: set<Byte>)
    requires t.lines <= u.lines && SoundAll(u) && OutsMean(t, outs, chars)
    ensures OutsMean(u, outs, chars)
  {
    hide Eval, Any, AllDriven, Keeps, Ordered, MemoSound, CountersMatch;
    forall c: Byte, cur: seq<bool>
      ensures AllDriven(Eval(u.lines, c, cur), outs) && (Any(Eval(u.lines, c, cur), cur, outs) <==> c in chars)
    {
      assert Sound(u, c, cur);
      EvalKeeps(t.lines, u.lines, c, cur);
      AnyKept(Eval(t.lines, c, cur), Eval(u.lines, c, cur), cur, outs);
    }
  }

  lemma EdgeGateKept(t: Tables, u: Tables, a: nat, prev: nat, chars: set<Byte>)
    requires t.lines <= u.lines && SoundAll(u) && EdgeGate(t, a, prev, chars)
    ensures EdgeGate(u, a, prev, chars)
  {
    hide Eval, Ordered, MemoSound, CountersMatch;
    forall c: Byte, cur: seq<bool>
      ensures var w := Eval(u.lines, c, cur); a < |w.and| && (w.and[a] <==> prev < |cur| && cur[prev] && c in chars)
    {
      assert Sound(u, c, cur);
      EvalKeeps(t.lines, u.lines, c, cur);
    }
  }

  predicate IsBetween(min: Byte, b: Byte, max: Byte) {
    min <= b <= max
  }

  function Between(min: Byte, max: Byte): set<Byte> {
    set b: Byte | IsBetween(min, b, max)
  }

  /** Appending a source that stands for some bytes adds those bytes. */
  lemma OutsAppend(t: Tables, outs: seq<Source>, chars: set<Byte>, s: Source, more: set<Byte>)
    requires OutsMean(t, outs, chars)
    requires forall c: Byte, cur: seq<bool> ::
      Driven(Eval(t.lines, c, cur), s) && (Value(Eval(t.lines, c, cur), cur, s) <==> c in more)
    ensures OutsMean(t, outs + [s], chars + more)
  {
    hide Eval, Value, Driven;
    forall c: Byte, cur: seq<bool>
      ensures AllDriven(Eval(t.lines, c, cur), outs + [s])
      ensures Any(Eval(t.lines, c, cur), cur, outs + [s]) <==> c in chars + more
    {
      var w := Eval(t.lines, c, cur);
      assert (outs + [s])[|outs|] == s;
      assert forall k :: 0 <= k < |outs| ==> (outs + [s])[k] == outs[k];
    }
  }

  function WithRange(t: Tables, min: Byte, max: Byte): Tables {
    var u := WithAnd(WithLt(WithLt(t, Code(min), In), In, Code(max)), LtOut(t.ltI), LtOut(t.ltI + 1));
    u.(rangeChecks := t.rangeChecks[(min, max) := (t.ltI, t.andI)])
  }

  lemma RangeAdded(t: Tables, min: Byte, max: Byte, c: Byte, cur: seq<bool>)
    requires Sound(t, c, cur)
    ensures Sound(WithRange(t, min, max), c, cur)
    ensures Driven(Eval(WithRange(t, min, max).lines, c, cur), AndOut(t.andI))
    ensures Value(Eval(WithRange(t, min, max).lines, c, cur), cur, AndOut(t.andI)) <==> min <= c <= max
  {
    hide Eval, Ordered, MemoSound;
    var one := WithLt(t, Code(min), In);
    var two := WithLt(one, In, Code(max));
    LtAdded(t, Code(min), In, c, cur);
    LtAdded(one, In, Code(max), c, cur);
    AndAdded(two, LtOut(t.ltI), LtOut(t.ltI + 1), c, cur);
    var three := WithAnd(two, LtOut(t.ltI), LtOut(t.ltI + 1));
    RangeRemembered(three, min, max, t.ltI, t.andI, Eval(three.lines, c, cur), c, cur);
  }

  lemma RangeRemembered(t: Tables, min: Byte, max: Byte, l: nat, a: nat, w: Wires, c: Byte, cur: seq<bool>)
    requires MemoSound(t, w, c, cur) && a < |w.and| && (w.and[a] <==> min <= c <= max)
    ensures MemoSound(t.(rangeChecks := t.rangeChecks[(min, max) := (l, a)]), w, c, cur)
  {
    hide Any, AllDriven;
  }

  lemma RangeReused(t: Tables, outs: seq<Source>, chars: set<Byte>, min: Byte, max: Byte)
    requires SoundAll(t) && OutsMean(t, outs, chars) && (min, max) in t.rangeChecks
    ensures OutsMean(t, outs + [AndOut(t.rangeChecks[(min, max)].1)], chars + Between(min, max))
  {
    hide Eval, Ordered, Any, AllDriven, OutsMean;
    var s := AndOut(t.rangeChecks[(min, max)].1);
    forall c: Byte, cur: seq<bool>
      ensures Driven(Eval(t.lines, c, cur), s) && (Value(Eval(t.lines, c, cur), cur, s) <==> c in Between(min, max))
    {
      assert Sound(t, c, cur);
    }
    OutsAppend(t, outs, chars, s, Between(min, max));
  }

  lemma RangeCreated(t: Tables, outs: seq<Source>, chars: set<Byte>, min: Byte, max: Byte)
    requires SoundAll(t) && OutsMean(t, outs, chars)
    ensures SoundAll(WithRange(t, min, max))
    ensures OutsMean(WithRange(t, min, max), outs + [AndOut(t.andI)], chars + Between(min, max))
  {
    hide Eval, OutsMean, Sound, Driven, Value;
    var u, s := WithRange(t, min, max), AndOut(t.andI);
    forall c: Byte, cur: seq<bool>
      ensures Sound(u, c, cur)
      ensures Driven(Eval(u.lines, c, cur), s) && (Value(Eval(u.lines, c, cur), cur, s) <==> c in Between(min, max))
    {
      assert Sound(t, c, cur);
      RangeAdded(t, min, max, c, cur);
    }
    OutsMeanKept(t, u, outs, chars);
    OutsAppend(u, outs, chars, s, Between(min, max));
  }

  lemma EqCreated(t: Tables, code: Byte)
    requires SoundAll(t)
    ensures SoundAll(WithEq(t, code))
  {
    hide Sound;
    forall c: Byte, cur: seq<bool>
      ensures Sound(WithEq(t, code), c, cur)
    {
      assert Sound(t, c, cur);
      EqAdded(t, code, c, cur);
    }
  }

  // ----- transitions

  /** The source is on exactly for these bytes. */
  ghost predicate SourceMeans(t: Tables, s: Source, chars: set<Byte>) {
    forall c: Byte, cur: seq<bool> ::
      Driven(Eval(t.lines, c, cur), s) && (Value(Eval(t.lines, c, cur), cur, s) <==> c in chars)
  }

  lemma SingleSource(t: Tables, outs: seq<Source>, chars: set<Byte>)
    requires OutsMean(t, outs, chars) && |outs| == 1
    ensures SourceMeans(t, outs[0], chars)
  {
    hide Eval, Driven, Value;
    forall c: Byte, cur: seq<bool>
      ensures Driven(Eval(t.lines, c, cur), outs[0]) && (Value(Eval(t.lines, c, cur), cur, outs[0]) <==> c in chars)
    {
      assert AllDriven(Eval(t.lines, c, cur), outs) && (Any(Eval(t.lines, c, cur), cur, outs) <==> c in chars);
    }
  }

  lemma OrReused(t: Tables, outs: seq<Source>, chars: set<Byte>)
    requires SoundAll(t) && OutsMean(t, outs, chars) && outs in t.multiOrChecks1
    ensures SourceMeans(t, MultiOrOut(t.multiOrChecks1[outs]), chars)
  {
    hide Eval, Ordered, Any, AllDriven;
    var s := MultiOrOut(t.multiOrChecks1[outs]);
    forall c: Byte, cur: seq<bool>
      ensures Driven(Eval(t.lines, c, cur), s) && (Value(Eval(t.lines, c, cur), cur, s) <==> c in chars)
    {
      assert Sound(t, c, cur);
    }
  }

  function WithOr1(t: Tables, outs: seq<Source>): Tables {
    WithOr(t, outs).(multiOrChecks1 := t.multiOrChecks1[outs := t.multiOrI])
  }

  lemma OrRemembered(t: Tables, outs: seq<Source>, idx: nat, w: Wires, c: Byte, cur: seq<bool>)
    requires MemoSound(t, w, c, cur) && AllDriven(w, outs) && idx < |w.or| && w.or[idx] == Any(w, cur, outs)
    ensures MemoSound(t.(multiOrChecks1 := t.multiOrChecks1[outs := idx]), w, c, cur)
  {
    hide Any, AllDriven;
  }

  lemma OutputsRemembered(t: Tables, outputs: seq<nat>, idx: nat, w: Wires, c: Byte, cur: seq<bool>)
    requires MemoSound(t, w, c, cur) && AllDriven(w, AndSources(outputs))
    requires idx < |w.or| && w.or[idx] == Any(w, cur, AndSources(outputs))
    ensures MemoSound(t.(multiOrChecks2 := t.multiOrChecks2[outputs := idx]), w, c, cur)
  {
    hide Any, AllDriven;
  }

  lemma OrCreated(t: Tables, outs: seq<Source>, chars: set<Byte>)
    requires SoundAll(t) && OutsMean(t, outs, chars)
    ensures SoundAll(WithOr1(t, outs)) && SourceMeans(WithOr1(t, outs), MultiOrOut(t.multiOrI), chars)
  {
    hide Eval, Ordered, Any, AllDriven, MemoSound;
    var u, s := WithOr1(t, outs), MultiOrOut(t.multiOrI);
    forall c: Byte, cur: seq<bool>
      ensures Sound(u, c, cur)
      ensures Driven(Eval(u.lines, c, cur), s) && (Value(Eval(u.lines, c, cur), cur, s) <==> c in chars)
    {
      assert Sound(t, c, cur);
      OrAdded(t, outs, c, cur);
      OrRemembered(WithOr(t, outs), outs, t.multiOrI, Eval(u.lines, c, cur), c, cur);
    }
  }

  lemma Or1View(t: Tables, outs: seq<Source>)
    ensures WithOr1(t, outs)
         == t.(lines := t.lines + [MultiOr(t.multiOrI, outs)], multiOrChecks1 := t.multiOrChecks1[outs := t.multiOrI],
               multiOrI := t.multiOrI + 1)
  {
  }

  lemma GateCreated(t: Tables, prev: nat, s: Source, chars: set<Byte>)
    requires SoundAll(t) && SourceMeans(t, s, chars)
    ensures SoundAll(WithAnd(t, StateIn(prev), s)) && EdgeGate(WithAnd(t, StateIn(prev), s), t.andI, prev, chars)
  {
    hide Eval, Ordered, MemoSound;
    var u := WithAnd(t, StateIn(prev), s);
    forall c: Byte, cur: seq<bool>
      ensures Sound(u, c, cur)
      ensures var w := Eval(u.lines, c, cur);
        t.andI < |w.and| && (w.and[t.andI] <==> prev < |cur| && cur[prev] && c in chars)
    {
      assert Sound(t, c, cur);
      AndAdded(t, StateIn(prev), s, c, cur);
    }
  }

  // ----- state updates

  /** The state is driven, and on exactly when one of the gates is. */
  ghost predicate UpdateMeans(t: Tables, tmp: bool, i: nat, outputs: seq<nat>) {
    forall c: Byte, cur: seq<bool> ::
      StateValue(Eval(t.lines, c, cur), tmp, i) <==> Any(Eval(t.lines, c, cur), cur, AndSources(outputs))
  }

  /** The driver equals the disjunction of the gates. */
  ghost predicate DriverMeans(t: Tables, d: Driver, outputs: seq<nat>) {
    forall c: Byte, cur: seq<bool> ::
      var w := Eval(t.lines, c, cur);
      (d.From? ==> Driven(w, d.s)) && ((d.From? && Value(w, cur, d.s)) <==> Any(w, cur, AndSources(outputs)))
  }

  lemma DriverNone(t: Tables)
    ensures DriverMeans(t, Zero, [])
  {
    hide Eval;
  }

  lemma DriverOne(t: Tables, a: nat)
    requires SoundAll(t) && a < t.andI
    ensures DriverMeans(t, From(AndOut(a)), [a])
  {
    hide Eval, Ordered, MemoSound;
    forall c: Byte, cur: seq<bool>
      ensures var w := Eval(t.lines, c, cur);
        a < |w.and| && (Value(w, cur, AndOut(a)) <==> Any(w, cur, AndSources([a])))
    {
      assert Sound(t, c, cur);
      assert AndSources([a])[0] == AndOut(a);
    }
  }

  lemma DriverReused(t: Tables, outputs: seq<nat>)
    requires SoundAll(t) && outputs in t.multiOrChecks2
    ensures DriverMeans(t, From(MultiOrOut(t.multiOrChecks2[outputs])), outputs)
  {
    hide Eval, Ordered, Any, AllDriven;
    forall c: Byte, cur: seq<bool>
      ensures var w, s := Eval(t.lines, c, cur), MultiOrOut(t.multiOrChecks2[outputs]);
        Driven(w, s) && (Value(w, cur, s) <==> Any(w, cur, AndSources(outputs)))
    {
      assert Sound(t, c, cur);
    }
  }

  function WithOr2(t: Tables, outputs: seq<nat>): Tables {
    WithOr(t, AndSources(outputs)).(multiOrChecks2 := t.multiOrChecks2[outputs := t.multiOrI])
  }

  lemma Or2View(t: Tables, outputs: seq<nat>)
    ensures WithOr2(t, outputs)
         == t.(lines := t.lines + [MultiOr(t.multiOrI, AndSources(outputs))],
               multiOrChecks2 := t.multiOrChecks2[outputs := t.multiOrI], multiOrI := t.multiOrI + 1)
  {
  }

  lemma DriverCreated(t: Tables, outputs: seq<nat>)
    requires SoundAll(t) && forall k :: 0 <= k < |outputs| ==> outputs[k] < t.andI
    ensures SoundAll(WithOr2(t, outputs)) && DriverMeans(WithOr2(t, outputs), From(MultiOrOut(t.multiOrI)), outputs)
  {
    hide Eval, Ordered, Any, AllDriven, MemoSound;
    var u := WithOr2(t, outputs);
    forall c: Byte, cur: seq<bool>
      ensures Sound(u, c, cur)
      ensures var w, s := Eval(u.lines, c, cur), MultiOrOut(t.multiOrI);
        Driven(w, s) && (Value(w, cur, s) <==> Any(w, cur, AndSources(outputs)))
    {
      assert Sound(t, c, cur);
      OutputsDriven(t, outputs, Eval(t.lines, c, cur));
      OrAdded(t, AndSources(outputs), c, cur);
      OutputsRemembered(WithOr(t, AndSources(outputs)), outputs, t.multiOrI, Eval(u.lines, c, cur), c, cur);
    }
  }

  lemma OutputsDriven(t: Tables, outputs: seq<nat>, w: Wires)
    requires CountersMatch(t, w) && forall k :: 0 <= k < |outputs| ==> outputs[k] < t.andI
    ensures AllDriven(w, AndSources(outputs))
  {
  }

  lemma StateCreated(t: Tables, tmp: bool, i: nat, d: Driver, outputs: seq<nat>)
    requires SoundAll(t) && DriverMeans(t, d, outputs) && i !in (if tmp then t.tmpStates else t.nextStates)
    requires forall k :: 0 <= k < |outputs| ==> outputs[k] < t.andI
    ensures SoundAll(WithState(t, tmp, i, d)) && UpdateMeans(WithState(t, tmp, i, d), tmp, i, outputs)
  {
    hide Eval, Ordered, Any, AllDriven, MemoSound, Value, Driven, StateValue;
    var u := WithState(t, tmp, i, d);
    forall c: Byte, cur: seq<bool>
      ensures Sound(u, c, cur)
      ensures StateValue(Eval(u.lines, c, cur), tmp, i) <==> Any(Eval(u.lines, c, cur), cur, AndSources(outputs))
    {
      assert Sound(t, c, cur);
      StateAdded(t, tmp, i, d, c, cur);
      OutputsDriven(t, outputs, Eval(t.lines, c, cur));
      EvalKeeps(t.lines, u.lines, c, cur);
      AnyKept(Eval(t.lines, c, cur), Eval(u.lines, c, cur), cur, AndSources(outputs));
    }
  }

  class Compiler {
    var lines: seq<Line>
    var rangeChecks: map<(Byte, Byte), (nat, nat)>
    var eqChecks: map<Byte, nat>
    var multiOrChecks1: map<seq<Source>, nat>
    var multiOrChecks2: map<seq<nat>, nat>
    var zeroStartingStates: seq<nat>
    var zeroStartingAndIdxes: map<nat, seq<nat>>
    var eqI: nat
    var ltI: nat
    var andI: nat
    var multiOrI: nat
    ghost var tmpStates: set<nat>
    ghost var nextStates: set<nat>

    ghost function View(): Tables
      reads this
    {
      Tables(lines, rangeChecks, eqChecks, multiOrChecks1, multiOrChecks2, eqI, ltI, andI, multiOrI, tmpStates, nextStates)
    }

    ghost predicate Valid()
      reads this
    {
      SoundAll(View())
    }

    constructor ()
      ensures Valid() && lines == [] && tmpStates == {} && nextStates == {}
      ensures zeroStartingStates == [] && zeroStartingAndIdxes == map[]
      ensures eqI == ltI == andI == multiOrI == 0
    {
      lines, zeroStartingStates, zeroStartingAndIdxes := [], [], map[];
      rangeChecks, eqChecks, multiOrChecks1, multiOrChecks2 := map[], map[], map[], map[];
      eqI, ltI, andI, multiOrI := 0, 0, 0, 0;
      tmpStates, nextStates := {}, {};
    }

    /** Reuses or creates the gates for min <= byte <= max. */
    method AddRangeCheck(eqOutputs: seq<Source>, min: Byte, max: Byte, ghost chars: set<Byte>) returns (outs: seq<Source>)
      requires Valid() && OutsMean(View(), eqOutputs, chars)
      modifies `lines, `rangeChecks, `ltI, `andI
      ensures Valid() && old(lines) <= lines
      ensures andI >= old(andI)
      ensures |outs| == |eqOutputs| + 1 && OutsMean(View(), outs, chars + Between(min, max))
    {
      hide SoundAll, OutsMean;
      ghost var t := View();
      if (min, max) in rangeChecks {
        var (_, a) := rangeChecks[(min, max)];
        outs := eqOutputs + [AndOut(a)];
        RangeReused(t, eqOutputs, chars, min, max);
      } else {
        lines := lines + [LessEqThan(ltI, Code(min), In)];
        lines := lines + [LessEqThan(ltI + 1, In, Code(max))];
        lines := lines + [AndGate(andI, LtOut(ltI), LtOut(ltI + 1))];
        outs := eqOutputs + [AndOut(andI)];
        rangeChecks := rangeChecks[(min, max) := (ltI, andI)];
        ltI := ltI + 2;
        andI := andI + 1;
        assert View() == WithRange(t, min, max);
        RangeCreated(t, eqOutputs, chars, min, max);
      }
    }

    /** Reuses or creates the gate for one byte. */
    method AddEqCheck(code: Byte) returns (index: nat)
      requires Valid()
      modifies `lines, `eqChecks, `eqI
      ensures Valid() && old(lines) <= lines
      ensures code in eqChecks && eqChecks[code] == index
    {
      if code in eqChecks {
        index := eqChecks[code];
      } else {
        ghost var t := View();
        lines := lines + [IsEqual(eqI, code)];
        eqChecks := eqChecks[code := eqI];
        index := eqI;
        eqI := eqI + 1;
        assert View() == WithEq(t, code);
        EqCreated(t, code);
      }
    }

    /** The disjunction of several checks, reused when the same checks were combined before. */
    method CombineChecks(eqOutputs: seq<Source>, ghost chars: set<Byte>) returns (b: Source)
      requires Valid() && OutsMean(View(), eqOutputs, chars)
      modifies `lines, `multiOrChecks1, `multiOrI
      ensures Valid() && old(lines) <= lines && SourceMeans(View(), b, chars)
    {
      hide SoundAll, OutsMean, SourceMeans, WithOr1;
      ghost var t := View();
      if eqOutputs in multiOrChecks1 {
        b := MultiOrOut(multiOrChecks1[eqOutputs]);
        OrReused(t, eqOutputs, chars);
      } else {
        lines := lines + [MultiOr(multiOrI, eqOutputs)];
        b := MultiOrOut(multiOrI);
        multiOrChecks1 := multiOrChecks1[eqOutputs := multiOrI];
        multiOrI := multiOrI + 1;
        Or1View(t, eqOutputs);
        OrCreated(t, eqOutputs, chars);
      }
    }

    /** The gate of one edge: the previous state and, if there are several checks, their disjunction. */
    method AddStateTransition(i: nat, prev: nat, eqOutputs: seq<Source>, ghost chars: set<Byte>)
      requires Valid() && OutsMean(View(), eqOutputs, chars) && eqOutputs != [] && i in zeroStartingAndIdxes
      modifies `lines, `zeroStartingAndIdxes, `andI, `multiOrChecks1, `multiOrI
      ensures Valid() && old(lines) <= lines
      ensures andI == old(andI) + 1 && EdgeGate(View(), old(andI), prev, chars)
      ensures zeroStartingAndIdxes == if prev == 0
        then old(zeroStartingAndIdxes)[i := old(zeroStartingAndIdxes)[i] + [old(andI)]] else old(zeroStartingAndIdxes)
    {
      hide SoundAll, OutsMean, SourceMeans, EdgeGate;
      var b: Source;
      if |eqOutputs| == 1 {
        b := eqOutputs[0];
        SingleSource(View(), eqOutputs, chars);
      } else {
        b := CombineChecks(eqOutputs, chars);
      }
      if prev == 0 {
        zeroStartingAndIdxes := zeroStartingAndIdxes[i := zeroStartingAndIdxes[i] + [andI]];
      }
      GateCreated(View(), prev, b, chars);
      lines := lines + [AndGate(andI, StateIn(prev), b)];
      andI := andI + 1;
    }

    /** The disjunction of several gates, reused when the same gates were combined before. */
    method AddMultiOrGate(outputs: seq<nat>) returns (d: Driver)
      requires Valid() && forall k :: 0 <= k < |outputs| ==> outputs[k] < andI
      modifies `lines, `multiOrChecks2, `multiOrI
      ensures Valid() && old(lines) <= lines && DriverMeans(View(), d, outputs)
    {
      hide SoundAll, DriverMeans, WithOr2;
      ghost var t := View();
      if outputs in multiOrChecks2 {
        d := From(MultiOrOut(multiOrChecks2[outputs]));
        DriverReused(t, outputs);
      } else {
        lines := lines + [MultiOr(multiOrI, AndSources(outputs))];
        d := From(MultiOrOut(multiOrI));
        multiOrChecks2 := multiOrChecks2[outputs := multiOrI];
        multiOrI := multiOrI + 1;
        Or2View(t, outputs);
        DriverCreated(t, outputs);
      }
    }

    /** Drives the state, or its temporary copy when state 0 also leads to it. */
    method AddStateUpdate(i: nat, outputs: seq<nat>)
      requires Valid() && forall k :: 0 <= k < |outputs| ==> outputs[k] < andI
      requires i !in tmpStates && i !in nextStates
      modifies `lines, `multiOrChecks2, `multiOrI, `tmpStates, `nextStates
      ensures Valid() && old(lines) <= lines
      ensures UpdateMeans(View(), i in zeroStartingStates, i, outputs)
      ensures tmpStates == old(tmpStates) + if i in zeroStartingStates then {i} else {}
      ensures nextStates == old(nextStates) + if i in zeroStartingStates then {} else {i}
    {
      hide SoundAll, DriverMeans, UpdateMeans;
      var tmp := i in zeroStartingStates;
      var d: Driver;
      if |outputs| == 0 {
        d := Zero;
        DriverNone(View());
      } else if |outputs| == 1 {
        d := From(AndOut(outputs[0]));
        DriverOne(View(), outputs[0]);
        assert outputs == [outputs[0]];
      } else {
        d := AddMultiOrGate(outputs);
      }
      StateCreated(View(), tmp, i, d, outputs);
      lines := lines + [StateUpdate(tmp, i, d)];
      tmpStates, nextStates := tmpStates + (if tmp then {i} else {}), nextStates + (if tmp then {} else {i});
    }
  }
}
