/**
 * AggregateCompleteness: honestly aggregated valid proofs are accepted.
 */
module AggregateCompleteness {
  import opened Results
  import opened ScalarField
  import opened Polynomials
  import opened Indices
  import opened InnerProducts
  import opened PolyDivision
  import opened Transcripts
  import opened Gipa
  import opened GipaVerifier
  import opened ProductForms
  import opened PairingChecks
  import opened StructuredKeys
  import opened KzgOpenings
  import opened Aggregation
  import opened AggregateVerifier
  import opened Groth16Equation

  // ----- rescaling by r leaves the commitment alone

  lemma ScaledInner(w: Vec, b: Vec, r: Vec)
    requires |w| == |b| == |r| && forall i :: 0 <= i < |r| ==> r[i] != ZERO
    ensures InnerProduct(VMul(w, InvAll(r)), VMul(b, r)) == InnerProduct(w, b)
  {
    var s := InvAll(r);
    forall i | 0 <= i < |w|
      ensures VMul(VMul(w, s), VMul(b, r))[i] == VMul(w, b)[i]
    {
      MulSwap(w[i], s[i], b[i], r[i]);
      MulInv(r[i]);
      MulOne(Mul(w[i], b[i]));
    }
    assert VMul(VMul(w, s), VMul(b, r)) == VMul(w, b);
  }

  lemma PowersNonZero(r: F, n: nat)
    requires r != ZERO
    ensures forall i :: 0 <= i < n ==> Powers(ONE, r, n)[i] != ZERO
  {
    forall i | 0 <= i < n
      ensures Powers(ONE, r, n)[i] != ZERO
    {
      PowNonZero(r, i);
      MulOne(Pow(r, i));
    }
  }

  /** The commitment the verifier starts from is also that of the rescaled vectors. */
  lemma CommitmentUnchanged(srs: ProverSrs, proofs: seq<Proof>, r: F)
    requires srs.HasCorrectLength(|proofs|) && r != ZERO
    ensures var st := Start(srs, proofs, r);
      Pair(st.vkey, st.wkey, st.a, st.b) == Pair(srs.vkey, srs.wkey, As(proofs), Bs(proofs))
  {
    hide InnerProduct, Powers;
    var rs := Powers(ONE, r, |proofs|);
    PowersNonZero(r, |proofs|);
    ScaledInner(srs.wkey.a, Bs(proofs), rs);
    ScaledInner(srs.wkey.b, Bs(proofs), rs);
  }

  // ----- the folded keys

  lemma InversePower(r: F, n: nat)
    requires r != ZERO
    ensures Pow(r, n) != ZERO && Inv(Pow(r, n)) == Pow(Inv(r), n)
  {
    PowProduct(r, Inv(r), n);
    MulInv(r);
    PowOne(n);
    InvUnique(Pow(r, n), Pow(Inv(r), n));
  }

  /** Scaling powers of q by inverse powers of r gives powers of q / r. */
  lemma ScaledPowers(p: F, q: F, r: F, n: nat)
    requires r != ZERO
    ensures VMul(Powers(p, q, n), InvAll(Powers(ONE, r, n))) == Powers(p, Mul(q, Inv(r)), n)
  {
    hide Pow, Mul, Inv;
    var v := VMul(Powers(p, q, n), InvAll(Powers(ONE, r, n)));
    forall i | 0 <= i < n
      ensures v[i] == Powers(p, Mul(q, Inv(r)), n)[i]
    {
      MulOne(Pow(r, i));
      InversePower(r, i);
      PowProduct(q, Inv(r), i);
      MulAssoc(p, Pow(q, i), Pow(Inv(r), i));
    }
    assert v == Powers(p, Mul(q, Inv(r)), n);
  }

  /** The values left of keys and powers of r once everything is folded. */
  lemma FoldedKeys(srs: ProverSrs, proofs: seq<Proof>, r: F, xInvs: Vec, g: F, h: F, alpha: F, beta: F)
    requires ProverKeys(srs, |proofs|, g, h, alpha, beta) && |proofs| == Pow2(|xInvs|) && r != ZERO
    ensures srs.HasCorrectLength(|proofs|)
    ensures var f, t, tInv, n := FoldState(Start(srs, proofs, r), xInvs), Reverse(InvAll(xInvs)), Reverse(xInvs), |proofs|;
      && f.vkey.a == [Mul(h, ProductForm(tInv, alpha))]
      && f.vkey.b == [Mul(h, ProductForm(tInv, beta))]
      && f.wkey.a == [Mul(Mul(g, Pow(alpha, n)), ProductForm(t, Mul(alpha, Inv(r))))]
      && f.wkey.b == [Mul(Mul(g, Pow(beta, n)), ProductForm(t, Mul(beta, Inv(r))))]
      && f.r == [ProductForm(tInv, r)]
  {
    hide FoldAll, Powers, ProductForm, Pow;
    var n := |proofs|;
    ScaledPowers(Mul(g, Pow(alpha, n)), alpha, r, n);
    ScaledPowers(Mul(g, Pow(beta, n)), beta, r, n);
    FoldAllPowers(h, alpha, xInvs);
    FoldAllPowers(h, beta, xInvs);
    FoldAllPowers(Mul(g, Pow(alpha, n)), Mul(alpha, Inv(r)), InvAll(xInvs));
    FoldAllPowers(Mul(g, Pow(beta, n)), Mul(beta, Inv(r)), InvAll(xInvs));
    FoldAllPowers(ONE, r, xInvs);
    MulOne(ProductForm(Reverse(xInvs), r));
  }

  /** The opening of the folded v key passes its check. */
  lemma OpeningVHolds(g: F, h: F, alpha: F, t: Vec, z: F, y: F, coeff: F)
    requires coeff != ZERO
    ensures var poly := Coefficients(t, ONE);
      var pi := InnerProduct(Powers(h, alpha, |poly|), Resize(KzgQuotient(poly, y, z), |poly|));
      KzgCheckV(g, h, Neg(g), z, ProductForm(t, z), Mul(h, ProductForm(t, alpha)), Mul(g, alpha), pi, coeff).Satisfied()
  {
    hide Coefficients, ProductForm, Powers, InnerProduct, KzgQuotient, KzgCheckV;
    var poly := Coefficients(t, ONE);
    OpeningValue(h, alpha, poly, y, z);
    CoefficientsEval(t, ONE, z);
    CoefficientsEval(t, ONE, alpha);
    MulOne(z);
    MulOne(alpha);
    OpeningPassesV(g, h, alpha, poly, z,
                   InnerProduct(Powers(h, alpha, |poly|), Resize(KzgQuotient(poly, y, z), |poly|)), coeff);
  }

  /** The opening of the folded w key passes its check, although another value was subtracted. */
  lemma OpeningWHolds(g: F, h: F, alpha: F, t: Vec, rInv: F, z: F, y: F, coeff: F)
    requires coeff != ZERO
    ensures var poly, n := Shifted(t, rInv), Pow2(|t|);
      var pi := InnerProduct(Powers(g, alpha, |poly|), Resize(KzgQuotient(poly, y, z), |poly|));
      KzgCheckW(g, h, Neg(h), z, Mul(ProductForm(t, Mul(z, rInv)), Pow(z, n)),
                Mul(Mul(g, Pow(alpha, n)), ProductForm(t, Mul(alpha, rInv))), Mul(h, alpha), pi, coeff).Satisfied()
  {
    hide Shifted, ProductForm, Powers, InnerProduct, KzgQuotient, KzgCheckW, Pow;
    var poly, n := Shifted(t, rInv), Pow2(|t|);
    OpeningValue(g, alpha, poly, y, z);
    ShiftedEval(t, rInv, z);
    ShiftedEval(t, rInv, alpha);
    MulComm(ProductForm(t, Mul(z, rInv)), Pow(z, n));
    MulAssoc(g, Pow(alpha, n), ProductForm(t, Mul(alpha, rInv)));
    OpeningPassesW(g, h, alpha, poly, z,
                   InnerProduct(Powers(g, alpha, |poly|), Resize(KzgQuotient(poly, y, z), |poly|)), coeff);
  }

  // ----- all checks

  lemma KeyChecksHold(srs: ProverSrs, vsrs: VerifierSrs, n: nat, g: F, h: F, alpha: F, beta: F,
                      proof: TippMippProof, t: Vec, tInv: Vec, r: F, z: F, coins: Coins)
    requires ProverKeys(srs, n, g, h, alpha, beta) && VerifierKeys(vsrs, n, g, h, alpha, beta)
    requires |t| == |tInv| && n == Pow2(|t|)
    requires Ok(proof.vkeyOpening) == CreateKzgOpening(srs.hAlphaTable, srs.hBetaTable, Coefficients(tInv, ONE),
                                                       ProductForm(tInv, z), z)
    requires Ok(proof.wkeyOpening) == CreateKzgOpening(srs.gAlphaTable, srs.gBetaTable, Shifted(t, Inv(r)),
                                                       Mul(ProductForm(t, Mul(z, Inv(r))), Pow(z, 2 * n)), z)
    requires proof.gipa.finalVkey == (Mul(h, ProductForm(tInv, alpha)), Mul(h, ProductForm(tInv, beta)))
    requires proof.gipa.finalWkey == (Mul(Mul(g, Pow(alpha, n)), ProductForm(t, Mul(alpha, Inv(r)))),
                                      Mul(Mul(g, Pow(beta, n)), ProductForm(t, Mul(beta, Inv(r)))))
    ensures AllSatisfied(KeyChecks(vsrs, proof, t, tInv, Inv(r), z, coins))
    ensures forall c :: c in KeyChecks(vsrs, proof, t, tInv, Inv(r), z, coins) ==> c.nonRandomized == 0
  {
    hide Coefficients, Shifted, ProductForm, Powers, InnerProduct, KzgQuotient, Pow, SumOfPairs;
    var fv := ProductForm(tInv, z);
    var fw := Mul(ProductForm(t, Mul(z, Inv(r))), Pow(z, 2 * n));
    OpeningVHolds(g, h, alpha, tInv, z, fv, coins[0]);
    OpeningVHolds(g, h, beta, tInv, z, fv, coins[1]);
    OpeningWHolds(g, h, alpha, t, Inv(r), z, fw, coins[2]);
    OpeningWHolds(g, h, beta, t, Inv(r), z, fw, coins[3]);
  }

  lemma FinalChecksHold(gipa: GipaProof, res: Tuz, finalR: F, coins: Coins)
    requires res.zab == Mul(gipa.finalA, gipa.finalB)
    requires res.tab == Add(Mul(gipa.finalA, gipa.finalVkey.0), Mul(gipa.finalWkey.0, gipa.finalB))
    requires res.uab == Add(Mul(gipa.finalA, gipa.finalVkey.1), Mul(gipa.finalWkey.1, gipa.finalB))
    requires res.tc == Mul(gipa.finalC, gipa.finalVkey.0)
    requires res.uc == Mul(gipa.finalC, gipa.finalVkey.1)
    requires res.zc == Mul(gipa.finalC, finalR)
    ensures AllSatisfied(FinalChecks(gipa, res, finalR, coins))
    ensures forall c :: c in FinalChecks(gipa, res, finalR, coins) ==> c.nonRandomized == 0
  {
    hide SumOfPairs;
    RandOne(coins[4], gipa.finalC, gipa.finalVkey.0, res.tc);
    RandOne(coins[5], gipa.finalC, gipa.finalVkey.1, res.uc);
    RandTwo(coins[6], gipa.finalA, gipa.finalVkey.0, gipa.finalWkey.0, gipa.finalB, res.tab);
    RandTwo(coins[7], gipa.finalA, gipa.finalVkey.1, gipa.finalWkey.1, gipa.finalB, res.uab);
    RandOne(coins[8], gipa.finalA, gipa.finalB, res.zab);
  }

  /** Every check of the recursive argument is satisfied and randomised. */
  lemma TippMippChecksHold(srs: ProverSrs, vsrs: VerifierSrs, g: F, h: F, alpha: F, beta: F, proofs: seq<Proof>,
                           oracle: Oracle, log: seq<Entry>, agg: AggregateProof, coins: Coins)
    requires ProverKeys(srs, |proofs|, g, h, alpha, beta) && VerifierKeys(vsrs, |proofs|, g, h, alpha, beta)
    requires Honest(srs, oracle, log, proofs, agg)
    ensures var rLog := CommitmentLog(log, agg.comAB, agg.comC);
      var checks := TippMippChecks(vsrs, agg, oracle(rLog), oracle, rLog, coins);
      AllSatisfied(checks) && forall c :: c in checks ==> c.nonRandomized == 0
  {
    hide Inverses, LogAfter, Accumulated, ProductForm, FoldState, Committed, Start, Pair, InnerProduct, CreateKzgOpening,
      Coefficients, Shifted, KeyChecks, FinalChecks, Pow, Zip, FirstLog, Powers;
    var rLog := CommitmentLog(log, agg.comAB, agg.comC);
    var r := oracle(rLog);
    var st := Start(srs, proofs, r);
    var gipa := agg.tmipp.gipa;
    var first := FirstLog(rLog, agg.ipAB, agg.aggC);
    var xInvs := Inverses(oracle, first, gipa.Rounds());
    var t, tInv := Reverse(InvAll(xInvs)), Reverse(xInvs);
    var z := oracle(KzgLog(LogAfter(oracle, first, gipa.Rounds()), t[0], gipa.finalVkey, gipa.finalWkey));
    FoldedKeys(srs, proofs, r, xInvs, g, h, alpha, beta);
    CommitmentUnchanged(srs, proofs, r);
    StartUnscaled(srs, proofs, r);
    AccumulatedMatchesFinal(st, xInvs, gipa, agg.comAB, agg.comC, agg.ipAB, agg.aggC);
    KeyChecksHold(srs, vsrs, |proofs|, g, h, alpha, beta, agg.tmipp, t, tInv, r, z, coins);
    var base := Tuz(agg.comAB.t, agg.comAB.u, agg.ipAB, agg.comC.t, agg.comC.u, agg.aggC);
    FinalChecksHold(gipa, Accumulated(base, gipa.Rounds(), xInvs), ProductForm(tInv, r), coins);
  }

  lemma StartUnscaled(srs: ProverSrs, proofs: seq<Proof>, r: F)
    requires srs.HasCorrectLength(|proofs|)
    ensures var st := Start(srs, proofs, r);
      && st.vkey == srs.vkey && st.c == Cs(proofs) && st.r == Powers(ONE, r, |proofs|)
      && st.a == As(proofs) && st.b == VMul(Bs(proofs), Powers(ONE, r, |proofs|))
  {
  }

  lemma {:induction false} NoneRandomized(checks: seq<Check>)
    requires forall c :: c in checks ==> c.nonRandomized == 0
    ensures Total(checks).nonRandomized == 0
    decreases |checks|
  {
    if checks != [] {
      assert checks[|checks| - 1] in checks;
      NoneRandomized(checks[..|checks| - 1]);
    }
  }

  lemma HonestParses(srs: ProverSrs, oracle: Oracle, log: seq<Entry>, proofs: seq<Proof>, agg: AggregateProof)
    requires Honest(srs, oracle, log, proofs, agg) && |proofs| <= MAX_SRS_SIZE
    ensures ParsingCheck(agg.tmipp.gipa) && agg.tmipp.gipa.nproofs == |proofs|
  {
    hide Inverses, LogAfter, Opened, CreateKzgOpening, InnerProduct, Pair, FirstLog, Zip, ParsingCheck, Pow2;
    Parses(agg.tmipp.gipa, |proofs|);
  }

  lemma Parses(gipa: GipaProof, n: nat)
    requires gipa.SameLengths() && gipa.nproofs == n % 0x1_0000_0000 && 2 <= n <= MAX_SRS_SIZE && n == Pow2(|gipa.zAB|)
    ensures ParsingCheck(gipa) && gipa.nproofs == n
  {
    hide Pow2, IsPow2, Log2;
    assert n % 0x1_0000_0000 == n;
    Log2Pow2(|gipa.zAB|);
  }

  /**
   * Aggregating valid proofs under matching keys gives a proof that is accepted: every check is
   * satisfied, exactly one is not randomised, whatever the coins. Only the challenge one, on which
   * the verifier panics, is excepted.
   */
  lemma AggregationComplete(srs: ProverSrs, vsrs: VerifierSrs, g: F, h: F, alpha: F, beta: F, pvk: VerifyingKey,
                            proofs: seq<Proof>, inputs: seq<Vec>, oracle: Oracle, log: seq<Entry>, agg: AggregateProof,
                            coins: Coins)
    requires ProverKeys(srs, |proofs|, g, h, alpha, beta) && VerifierKeys(vsrs, |proofs|, g, h, alpha, beta)
    requires Honest(srs, oracle, log, proofs, agg) && |proofs| <= MAX_SRS_SIZE && AllValid(pvk, proofs, inputs)
    ensures ParsingCheck(agg.tmipp.gipa)
    ensures var r := oracle(CommitmentLog(log, agg.comAB, agg.comC));
      && VerdictOf(vsrs, pvk, inputs, agg, coins, oracle, log) == (if r == ONE then Panicked else Accepted)
      && (r != ONE ==>
        var checks := AllChecks(vsrs, pvk, inputs, agg, coins, oracle, log);
        AllSatisfied(checks) && Total(checks).nonRandomized == 1)
  {
    hide TippMippChecks, GrothCheck, InnerProduct, HonestTippMipp, Start, Powers, ParsingCheck;
    HonestParses(srs, oracle, log, proofs, agg);
    ParsedLengths(agg.tmipp.gipa);
    var rLog := CommitmentLog(log, agg.comAB, agg.comC);
    var r := oracle(rLog);
    if r != ONE {
      TippMippChecksHold(srs, vsrs, g, h, alpha, beta, proofs, oracle, log, agg, coins);
      StartUnscaled(srs, proofs, r);
      GrothCheckHolds(pvk, proofs, inputs, r, agg);
      GrothCheckPlain(pvk, inputs, r, agg);
      var most, last := TippMippChecks(vsrs, agg, r, oracle, rLog, coins), GrothCheck(pvk, inputs, r, agg);
      var checks := AllChecks(vsrs, pvk, inputs, agg, coins, oracle, log);
      assert checks == most + [last] && checks[..|most|] == most;
      NoneRandomized(most);
      TotalSatisfied(checks);
    }
  }

  lemma GrothCheckPlain(pvk: VerifyingKey, inputs: seq<Vec>, r: F, agg: AggregateProof)
    requires inputs != [] && forall j :: 0 <= j < |inputs| ==> |inputs[j]| + 1 == |pvk.ic|
    ensures GrothCheck(pvk, inputs, r, agg).nonRandomized == 1
  {
  }

  /**
   * Set-up, aggregation and verification end to end: for any power of two of at least two valid
   * proofs, any secrets, draws, coins and schedule, only the challenge one is not accepted.
   */
  method AggregateThenVerify(g: F, h: F, alpha: F, beta: F, size: nat, pvk: VerifyingKey, proofs: seq<Proof>,
                             inputs: seq<Vec>, draws: Draws, log: seq<Entry>, coins: Coins, schedule: Schedule)
    returns (agg: AggregateProof, v: Verdict)
    requires 2 <= |proofs| <= size && |proofs| <= MAX_SRS_SIZE && IsPow2(|proofs|)
    requires AllValid(pvk, proofs, inputs)
    ensures v == if OracleOf(draws)(CommitmentLog(log, agg.comAB, agg.comC)) == ONE then Panicked else Accepted
  {
    hide Honest, VerdictOf, IsStructured, ProverKeys, VerifierKeys;
    var srs := SetupFakeSrs(g, h, alpha, beta, size);
    StructuredLengths(srs, g, h, alpha, beta, size);
    var (psrs, vsrs) := Specialize(srs, |proofs|);
    SpecializeStructured(srs, g, h, alpha, beta, size, |proofs|);
    ProverTables(psrs, |proofs|, g, h, alpha, beta);
    var proverTranscript := new Transcript(draws, log);
    var res := AggregateProofs(psrs, proverTranscript, proofs);
    agg := res.value;
    var verifierTranscript := new Transcript(draws, log);
    v := VerifyAggregateProof(vsrs, pvk, inputs, agg, coins, schedule, verifierTranscript);
    AggregationComplete(psrs, vsrs, g, h, alpha, beta, pvk, proofs, inputs, OracleOf(draws), log, agg, coins);
  }

  lemma StructuredLengths(srs: GenericSrs, g: F, h: F, alpha: F, beta: F, size: nat)
    requires IsStructured(srs, g, h, alpha, beta, size)
    ensures |srs.gAlpha| == |srs.hAlpha| == |srs.gBeta| == |srs.hBeta| == 2 * size
  {
  }

  lemma ProverTables(srs: ProverSrs, n: nat, g: F, h: F, alpha: F, beta: F)
    requires ProverKeys(srs, n, g, h, alpha, beta)
    ensures |srs.gAlphaTable| == 2 * n && |srs.hAlphaTable| == n
  {
  }
}
