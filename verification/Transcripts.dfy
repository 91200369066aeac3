/** Transcripts: the Fiat-Shamir log, and challenges drawn from unknown bytes that depend on it. */
module Transcripts {
  import opened Results
  import opened ScalarField
  import opened Polynomials

  datatype Entry = Append(tag: string, values: Vec) | Draw(tag: string)

  // ----- the redraw loop

  /** The j-th bytes drawn after a log, read as a scalar; not all bytes are one. */
  type RawDraws = (seq<Entry>, nat) -> Option<F>

  datatype Loop = Reading(j: nat) | Returned(scalar: F)

  /** One turn: bytes that are no scalar are drawn again, a zero scalar only starts the next turn. */
  function Turn(draws: RawDraws, log: seq<Entry>, st: Loop): Loop {
    match st
    case Returned(_) => st
    case Reading(j) =>
      match draws(log, j)
      case None => Reading(j + 1)
      case Some(e) => if e != ZERO then Returned(e) else st
  }

  function Turns(draws: RawDraws, log: seq<Entry>, n: nat): Loop {
    if n == 0 then Reading(0) else Turn(draws, log, Turns(draws, log, n - 1))
  }

  ghost predicate FirstScalar(draws: RawDraws, log: seq<Entry>, j: nat) {
    draws(log, j).Some? && forall i: nat :: i < j ==> draws(log, i).None?
  }

  ghost predicate Answering(draws: RawDraws, log: seq<Entry>) {
    exists j: nat :: FirstScalar(draws, log, j) && draws(log, j).value != ZERO
  }

  lemma {:induction false} AfterTurns(draws: RawDraws, log: seq<Entry>, n: nat)
    ensures match Turns(draws, log, n)
            case Reading(j) => forall i: nat :: i < j ==> draws(log, i).None?
            case Returned(e) => e != ZERO && exists j: nat :: FirstScalar(draws, log, j) && draws(log, j) == Some(e)
  {
    if n > 0 {
      AfterTurns(draws, log, n - 1);
      var st := Turns(draws, log, n - 1);
      assert st.Reading? && draws(log, st.j).Some? ==> FirstScalar(draws, log, st.j);
    }
  }

  lemma {:induction false} NoScalarYet(draws: RawDraws, log: seq<Entry>, n: nat)
    requires forall i: nat :: i < n ==> draws(log, i).None?
    ensures Turns(draws, log, n) == Reading(n)
  {
    if n > 0 {
      NoScalarYet(draws, log, n - 1);
    }
  }

  /**
   * The loop ends exactly when the first bytes that are a scalar are not zero: on a zero scalar it
   * keeps reading the same bytes.
   */
  lemma ChallengeEnds(draws: RawDraws, log: seq<Entry>)
    ensures (exists n: nat :: Turns(draws, log, n).Returned?) <==> Answering(draws, log)
    ensures forall n: nat, j: nat :: Turns(draws, log, n).Returned? && FirstScalar(draws, log, j) ==>
      draws(log, j) == Some(Turns(draws, log, n).scalar)
  {
    forall n: nat
      ensures Turns(draws, log, n).Returned? ==> Answering(draws, log)
      ensures Turns(draws, log, n).Returned? ==> forall j: nat :: FirstScalar(draws, log, j) ==>
        draws(log, j) == Some(Turns(draws, log, n).scalar)
    {
      AfterTurns(draws, log, n);
    }
    if Answering(draws, log) {
      var j: nat :| FirstScalar(draws, log, j) && draws(log, j).value != ZERO;
      NoScalarYet(draws, log, j);
      assert Turns(draws, log, j + 1) == Returned(draws(log, j).value);
    }
  }

  // ----- the transcript

  ghost predicate AlwaysAnswering(draws: RawDraws) {
    forall log :: Answering(draws, log)
  }

  function ConstantDraws(): (draws: RawDraws)
    ensures AlwaysAnswering(draws)
  {
    var draws: RawDraws := (_, _) => Some(ONE);
    AnsweringAtOnce(draws);
    draws
  }

  lemma AnsweringAtOnce(draws: RawDraws)
    requires forall log :: draws(log, 0) == Some(ONE)
    ensures AlwaysAnswering(draws)
  {
    OneIsNotZero();
    forall log
      ensures Answering(draws, log)
    {
      assert FirstScalar(draws, log, 0);
    }
  }

  /** Bytes on which every challenge is found. */
  type Draws = draws: RawDraws | AlwaysAnswering(draws) witness ConstantDraws()

  ghost predicate NonZeroOracle(f: seq<Entry> -> F) {
    forall log :: f(log) != ZERO
  }

  function ConstantOracle(): (f: seq<Entry> -> F)
    ensures NonZeroOracle(f)
  {
    OneIsNotZero();
    _ => ONE
  }

  /** Challenges as a function of the log. */
  type Oracle = f: seq<Entry> -> F | NonZeroOracle(f) witness ConstantOracle()

  ghost function ScalarAt(draws: Draws, log: seq<Entry>): (c: F)
    ensures c != ZERO
    ensures forall j: nat :: FirstScalar(draws, log, j) ==> draws(log, j) == Some(c)
  {
    assert Answering(draws, log);
    var j: nat :| FirstScalar(draws, log, j) && draws(log, j).value != ZERO;
    draws(log, j).value
  }

  ghost function OracleOf(draws: Draws): Oracle {
    log => ScalarAt(draws, log)
  }

  class Transcript {
    var log: seq<Entry>
    const draws: Draws
    ghost const oracle: Oracle := OracleOf(draws)

    constructor (draws: Draws, log: seq<Entry>)
      ensures this.draws == draws && this.log == log
    {
      this.draws := draws;
      this.log := log;
    }

    method AppendValues(tag: string, values: Vec)
      modifies this`log
      ensures log == old(log) + [Append(tag, values)]
    {
      log := log + [Append(tag, values)];
    }

    /** How often bytes are drawn again depends on the log alone, so one entry stands for all of them. */
    method ChallengeScalar(tag: string) returns (c: F)
      modifies this`log
      ensures log == old(log) + [Draw(tag)]
      ensures forall j: nat :: FirstScalar(draws, log, j) ==> draws(log, j) == Some(c)
      ensures c == oracle(log) && c != ZERO
    {
      log := log + [Draw(tag)];
      assert Answering(draws, log);
      ghost var last: nat :| FirstScalar(draws, log, last) && draws(log, last).value != ZERO;
      var j := 0;
      while true
        invariant j <= last
        decreases last - j
      {
        match draws(log, j) {
          case Some(e) =>
            assert FirstScalar(draws, log, j);
            if e != ZERO {
              return e;
            }
            assert false;
          case None => j := j + 1;
        }
      }
    }
  }
}
