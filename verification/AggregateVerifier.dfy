/**
 * AggregateVerifier: turns an aggregate proof into pairing checks and merges them.
 */
module AggregateVerifier {
  import opened ScalarField
  import opened Polynomials
  import opened Indices
  import opened InnerProducts
  import opened Transcripts
  import opened Gipa
  import opened GipaVerifier
  import opened ProductForms
  import opened PairingChecks
  import opened StructuredKeys
  import opened KzgOpenings
  import opened Aggregation

  datatype VerifyingKey = VerifyingKey(alpha: F, beta: F, gamma: F, delta: F, ic: Vec)

  datatype Verdict = Accepted | Rejected(error: Error) | Panicked

  /** The order in which concurrently sent checks reach the accumulator. */
  type Schedule = f: seq<Check> -> seq<Check> | KeepsAll(f) witness InSendingOrder()

  ghost predicate KeepsAll(f: seq<Check> -> seq<Check>) {
    forall s :: multiset(f(s)) == multiset(s)
  }

  function InSendingOrder(): (f: seq<Check> -> seq<Check>)
    ensures KeepsAll(f)
  {
    s => s
  }

  /** The random coefficients of the randomised checks. */
  type Coins = s: Vec | |s| == 9 && forall i :: 0 <= i < |s| ==> s[i] != ZERO
    witness NineOnes()

  function NineOnes(): (s: Vec)
    ensures |s| == 9 && forall i :: 0 <= i < |s| ==> s[i] != ZERO
  {
    OneIsNotZero();
    seq(9, _ => ONE)
  }

  // ----- the recursive argument

  /** The four checks of the folded keys. */
  function KeyChecks(srs: VerifierSrs, proof: TippMippProof, t: Vec, tInv: Vec, rInverse: F, z: F, coins: Coins)
    : seq<Check> {
    var fv := ProductForm(tInv, z);
    var fw := Mul(ProductForm(t, Mul(z, rInverse)), Pow(z, srs.n));
    [KzgCheckV(srs.g, srs.h, Neg(srs.g), z, fv, proof.gipa.finalVkey.0, srs.gAlpha, proof.vkeyOpening.a, coins[0]),
     KzgCheckV(srs.g, srs.h, Neg(srs.g), z, fv, proof.gipa.finalVkey.1, srs.gBeta, proof.vkeyOpening.b, coins[1]),
     KzgCheckW(srs.g, srs.h, Neg(srs.h), z, fw, proof.gipa.finalWkey.0, srs.hAlpha, proof.wkeyOpening.a, coins[2]),
     KzgCheckW(srs.g, srs.h, Neg(srs.h), z, fw, proof.gipa.finalWkey.1, srs.hBeta, proof.wkeyOpening.b, coins[3])]
  }

  /** The checks of the final values, and a failing one if the last exponentiation is off. */
  function FinalChecks(gipa: GipaProof, res: Tuz, finalR: F, coins: Coins): seq<Check> {
    [Rand(coins[4], [(gipa.finalC, gipa.finalVkey.0)], res.tc),
     Rand(coins[5], [(gipa.finalC, gipa.finalVkey.1)], res.uc),
     Rand(coins[6], [(gipa.finalA, gipa.finalVkey.0), (gipa.finalWkey.0, gipa.finalB)], res.tab),
     Rand(coins[7], [(gipa.finalA, gipa.finalVkey.1), (gipa.finalWkey.1, gipa.finalB)], res.uab),
     Rand(coins[8], [(gipa.finalA, gipa.finalB)], res.zab)]
    + (if Mul(gipa.finalC, finalR) != res.zc then [INVALID] else [])
  }

  ghost function TippMippChecks(srs: VerifierSrs, agg: AggregateProof, r: F, oracle: Oracle, log: seq<Entry>, coins: Coins)
    : seq<Check>
    requires agg.tmipp.gipa.SameLengths() && agg.tmipp.gipa.zAB != []
  {
    var gipa := agg.tmipp.gipa;
    var first := FirstLog(log, agg.ipAB, agg.aggC);
    var xInvs := Inverses(oracle, first, gipa.Rounds());
    var t, tInv := Reverse(InvAll(xInvs)), Reverse(xInvs);
    var z := oracle(KzgLog(LogAfter(oracle, first, gipa.Rounds()), t[0], gipa.finalVkey, gipa.finalWkey));
    var base := Tuz(agg.comAB.t, agg.comAB.u, agg.ipAB, agg.comC.t, agg.comC.u, agg.aggC);
    KeyChecks(srs, agg.tmipp, t, tInv, Inv(r), z, coins)
    + FinalChecks(gipa, Accumulated(base, gipa.Rounds(), xInvs), ProductForm(tInv, r), coins)
  }

  method VerifyTippMipp(srs: VerifierSrs, agg: AggregateProof, rShift: F, tr: Transcript, coins: Coins)
    returns (checks: seq<Check>)
    requires agg.tmipp.gipa.SameLengths() && agg.tmipp.gipa.zAB != []
    modifies tr`log
    ensures checks == TippMippChecks(srs, agg, rShift, tr.oracle, old(tr.log), coins)
    ensures tr.log == ArgumentLog(tr.oracle, old(tr.log), agg.ipAB, agg.aggC, agg.tmipp.gipa)
  {
    hide LogAfter, Inverses, Accumulated, ProductForm, Zip, FirstLog, Pow, KzgCheckV, KzgCheckW, Rand;
    var gipa := agg.tmipp.gipa;
    var finalRes, finalR, challenges, challengesInv :=
      GipaVerifyTippMipp(tr, gipa, agg.comAB, agg.comC, agg.ipAB, agg.aggC, rShift);
    tr.AppendValues("kzg-challenge", [challenges[0]]);
    tr.AppendValues("vkey0", [gipa.finalVkey.0]);
    tr.AppendValues("vkey1", [gipa.finalVkey.1]);
    tr.AppendValues("wkey0", [gipa.finalWkey.0]);
    tr.AppendValues("wkey1", [gipa.finalWkey.1]);
    var c := tr.ChallengeScalar("z-challenge");
    var keyChecks := VerifyKzg(srs, agg.tmipp, challenges, challengesInv, Inv(rShift), c, coins);
    checks := keyChecks + FinalChecks(gipa, finalRes, finalR, coins);
  }

  /** Checks the openings of both folded keys against the product forms. */
  method VerifyKzg(srs: VerifierSrs, proof: TippMippProof, t: Vec, tInv: Vec, rShift: F, z: F, coins: Coins)
    returns (checks: seq<Check>)
    requires t != [] && |t| == |tInv|
    ensures checks == KeyChecks(srs, proof, t, tInv, rShift, z, coins)
  {
    hide ProductForm, Pow, KzgCheckV, KzgCheckW;
    var vpolyEvalZ := PolynomialEvaluationProductForm(tInv, z, ONE);
    MulOne(z);
    var ng := Neg(srs.g);
    var v1 := KzgCheckV(srs.g, srs.h, ng, z, vpolyEvalZ, proof.gipa.finalVkey.0, srs.gAlpha, proof.vkeyOpening.a, coins[0]);
    var v2 := KzgCheckV(srs.g, srs.h, ng, z, vpolyEvalZ, proof.gipa.finalVkey.1, srs.gBeta, proof.vkeyOpening.b, coins[1]);
    var fz := PolynomialEvaluationProductForm(t, z, rShift);
    var fwz := Mul(fz, Pow(z, srs.n));
    var nh := Neg(srs.h);
    var w1 := KzgCheckW(srs.g, srs.h, nh, z, fwz, proof.gipa.finalWkey.0, srs.hAlpha, proof.wkeyOpening.a, coins[2]);
    var w2 := KzgCheckW(srs.g, srs.h, nh, z, fwz, proof.gipa.finalWkey.1, srs.hBeta, proof.wkeyOpening.b, coins[3]);
    checks := [v1, v2, w1, w2];
  }

  // ----- the Groth16 equation

  /** The first input plus the others scaled by their powers. */
  function Combined(inputs: seq<Vec>, powers: Vec): (r: Vec)
    requires inputs != [] && |inputs| == |powers|
    requires forall j :: 0 <= j < |inputs| ==> |inputs[j]| == |inputs[0]|
    ensures |r| == |inputs[0]|
  {
    if |inputs| == 1 then inputs[0]
    else
      var n := |inputs| - 1;
      VAdd(Combined(inputs[..n], powers[..n]), VScale(powers[n], inputs[n]))
  }

  function GeometricSum(r: F, n: nat): F {
    Mul(Sub(Pow(r, n), ONE), Inv(Sub(r, ONE)))
  }

  function GrothCheck(pvk: VerifyingKey, inputs: seq<Vec>, r: F, agg: AggregateProof): Check
    requires inputs != [] && forall j :: 0 <= j < |inputs| ==> |inputs[j]| + 1 == |pvk.ic|
  {
    var rSum := GeometricSum(r, |inputs|);
    var summed := Combined(inputs, Powers(ONE, r, |inputs|));
    FromProducts([Mul(Mul(pvk.alpha, rSum), pvk.beta),
                  Mul(Add(Mul(pvk.ic[0], rSum), InnerProduct(pvk.ic[1..], summed)), pvk.gamma),
                  Mul(agg.aggC, pvk.delta)],
                 agg.ipAB)
  }

  /** Column by column, the random combination of the public inputs. */
  method CombineInputs(inputs: seq<Vec>, powers: Vec) returns (summed: Vec)
    requires inputs != [] && |inputs| == |powers|
    requires forall j :: 0 <= j < |inputs| ==> |inputs[j]| == |inputs[0]|
    ensures summed == Combined(inputs, powers)
  {
    summed := [];
    for i := 0 to |inputs[0]|
      invariant summed == Combined(inputs, powers)[..i]
    {
      var c := inputs[0][i];
      for j := 1 to |inputs|
        invariant c == Combined(inputs[..j], powers[..j])[i]
      {
        assert inputs[..j + 1][..j] == inputs[..j] && powers[..j + 1][..j] == powers[..j];
        MulComm(powers[j], inputs[j][i]);
        var ai := Mul(inputs[j][i], powers[j]);
        c := Add(c, ai);
      }
      assert inputs[..|inputs|] == inputs && powers[..|inputs|] == powers;
      summed := summed + [c];
    }
  }

  method VerifyGroth(pvk: VerifyingKey, inputs: seq<Vec>, r: F, agg: AggregateProof) returns (check: Check)
    requires inputs != [] && r != ONE && forall j :: 0 <= j < |inputs| ==> |inputs[j]| + 1 == |pvk.ic|
    ensures check == GrothCheck(pvk, inputs, r, agg)
  {
    hide Combined, Powers, InnerProduct, Pow;
    assert |inputs[0]| + 1 == |pvk.ic|;
    var rSum := Pow(r, |inputs|);
    rSum := Sub(rSum, ONE);
    var b := Inv(Sub(r, ONE));
    rSum := Mul(rSum, b);
    var left := Mul(Mul(pvk.alpha, rSum), pvk.beta);
    var right := Mul(agg.aggC, pvk.delta);
    var gIc := Mul(pvk.ic[0], rSum);
    var powers := StructuredScalarPower(|inputs|, r);
    var summed := CombineInputs(inputs, powers);
    var totsi := InnerProduct(pvk.ic[1..], summed);
    gIc := Add(gIc, totsi);
    var middle := Mul(gIc, pvk.gamma);
    check := FromProducts([left, middle, right], agg.ipAB);
  }

  // ----- the whole verification

  /** The length checks made before anything else. */
  predicate ParsingCheck(gipa: GipaProof) {
    && 2 <= gipa.nproofs <= MAX_SRS_SIZE
    && IsPow2(gipa.nproofs)
    && var refLen := Log2(gipa.nproofs);
    && refLen == |gipa.commsAB| && refLen == |gipa.commsC| && refLen == |gipa.zAB| && refLen == |gipa.zC|
  }

  lemma ParsedLengths(gipa: GipaProof)
    requires ParsingCheck(gipa)
    ensures gipa.SameLengths() && gipa.zAB != []
  {
  }

  /** All checks of a verification, one of them not randomised. */
  ghost function AllChecks(srs: VerifierSrs, pvk: VerifyingKey, inputs: seq<Vec>, agg: AggregateProof, coins: Coins,
                           oracle: Oracle, log: seq<Entry>): seq<Check>
    requires ParsingCheck(agg.tmipp.gipa)
    requires inputs != [] && forall j :: 0 <= j < |inputs| ==> |inputs[j]| + 1 == |pvk.ic|
  {
    ParsedLengths(agg.tmipp.gipa);
    var rLog := CommitmentLog(log, agg.comAB, agg.comC);
    TippMippChecks(srs, agg, oracle(rLog), oracle, rLog, coins) + [GrothCheck(pvk, inputs, oracle(rLog), agg)]
  }

  ghost function VerdictOf(srs: VerifierSrs, pvk: VerifyingKey, inputs: seq<Vec>, agg: AggregateProof, coins: Coins,
                           oracle: Oracle, log: seq<Entry>): Verdict {
    if !ParsingCheck(agg.tmipp.gipa) then Rejected(InvalidProof)
    else if exists j :: 0 <= j < |inputs| && |inputs[j]| + 1 != |pvk.ic| then Rejected(MalformedVerifyingKey)
    else if |inputs| != agg.tmipp.gipa.nproofs then Rejected(InvalidProof)
    else if oracle(CommitmentLog(log, agg.comAB, agg.comC)) == ONE then Panicked
    else if Verifies(Total(AllChecks(srs, pvk, inputs, agg, coins, oracle, log))) then Accepted
    else Rejected(InvalidProof)
  }

  /** The verdict does not depend on the schedule. */
  method VerifyAggregateProof(srs: VerifierSrs, pvk: VerifyingKey, inputs: seq<Vec>, agg: AggregateProof, coins: Coins,
                              schedule: Schedule, tr: Transcript) returns (v: Verdict)
    modifies tr`log
    ensures v == VerdictOf(srs, pvk, inputs, agg, coins, tr.oracle, old(tr.log))
    ensures v == Accepted ==> ParsedArgument(agg) && tr.log == AggregateLog(tr.oracle, old(tr.log), agg)
  {
    hide TippMippChecks, GrothCheck, Total, IsPow2, Log2, ArgumentLog;
    if !ParsingCheck(agg.tmipp.gipa) {
      return Rejected(InvalidProof);
    }
    ParsedLengths(agg.tmipp.gipa);
    for j := 0 to |inputs|
      invariant forall k :: 0 <= k < j ==> |inputs[k]| + 1 == |pvk.ic|
    {
      if |inputs[j]| + 1 != |pvk.ic| {
        return Rejected(MalformedVerifyingKey);
      }
    }
    if |inputs| != agg.tmipp.gipa.nproofs {
      return Rejected(InvalidProof);
    }
    ghost var log := tr.log;
    tr.AppendValues("AB-commitment", [agg.comAB.t, agg.comAB.u]);
    tr.AppendValues("C-commitment", [agg.comC.t, agg.comC.u]);
    var r := tr.ChallengeScalar("r-random-fiatshamir");
    assert tr.log == CommitmentLog(log, agg.comAB, agg.comC);
    if r == ONE {
      return Panicked;
    }
    var checks := VerifyTippMipp(srs, agg, r, tr, coins);
    var check := VerifyGroth(pvk, inputs, r, agg);
    checks := checks + [check];
    assert checks == AllChecks(srs, pvk, inputs, agg, coins, tr.oracle, log);
    var valid := MergeAll(schedule(checks));
    TotalAnyOrder(schedule(checks), checks);
    v := if valid then Accepted else Rejected(InvalidProof);
  }
}
