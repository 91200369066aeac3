/**
 * Aggregation: many Groth16 proofs combined into one argument.
 */
module Aggregation {
  import opened Results
  import opened ScalarField
  import opened Polynomials
  import opened Indices
  import opened InnerProducts
  import opened PolyDivision
  import opened Transcripts
  import opened Gipa
  import opened ProductForms
  import opened StructuredKeys
  import opened KzgOpenings

  datatype Proof = Proof(a: F, b: F, c: F)

  datatype TippMippProof = TippMippProof(gipa: GipaProof, vkeyOpening: Opening, wkeyOpening: Opening)

  datatype AggregateProof = AggregateProof(comAB: Output, comC: Output, ipAB: F, aggC: F, tmipp: TippMippProof)

  // ----- transcripts

  function CommitmentLog(log: seq<Entry>, comAB: Output, comC: Output): seq<Entry> {
    log + [Append("AB-commitment", [comAB.t, comAB.u])] + [Append("C-commitment", [comC.t, comC.u])]
      + [Draw("r-random-fiatshamir")]
  }

  function KzgLog(log: seq<Entry>, challenge: F, vkey: (F, F), wkey: (F, F)): seq<Entry> {
    log + [Append("kzg-challenge", [challenge])] + [Append("vkey0", [vkey.0])] + [Append("vkey1", [vkey.1])]
      + [Append("wkey0", [wkey.0])] + [Append("wkey1", [wkey.1])] + [Draw("z-challenge")]
  }

  /** The log when the argument has drawn its last challenge; the latest challenge of the rounds comes first. */
  function ArgumentLog(oracle: Oracle, log: seq<Entry>, ipAB: F, aggC: F, gipa: GipaProof): seq<Entry>
    requires gipa.SameLengths() && gipa.zAB != []
  {
    var first := FirstLog(log, ipAB, aggC);
    var t := Reverse(InvAll(Inverses(oracle, first, gipa.Rounds())));
    KzgLog(LogAfter(oracle, first, gipa.Rounds()), t[0], gipa.finalVkey, gipa.finalWkey)
  }

  /** The log that an aggregate leaves, on both sides. */
  function AggregateLog(oracle: Oracle, log: seq<Entry>, agg: AggregateProof): seq<Entry>
    requires agg.tmipp.gipa.SameLengths() && agg.tmipp.gipa.zAB != []
  {
    ArgumentLog(oracle, CommitmentLog(log, agg.comAB, agg.comC), agg.ipAB, agg.aggC, agg.tmipp.gipa)
  }

  /** 1, s, s^2, ...; one element even when none is asked for. */
  method StructuredScalarPower(num: nat, s: F) returns (powers: Vec)
    ensures powers == Powers(ONE, s, if num == 0 then 1 else num)
  {
    hide Mul, Pow;
    var n := if num == 0 then 1 else num;
    ghost var all := Powers(ONE, s, n);
    PowFirst(s);
    MulOne(ONE);
    powers := [ONE];
    for i := 1 to n
      invariant powers == all[..i]
    {
      PowAdd(s, i - 1, 1);
      MulAssoc(ONE, Pow(s, i - 1), s);
      assert all[..i + 1] == all[..i] + [all[i]];
      powers := powers + [Mul(powers[i - 1], s)];
    }
  }

  // ----- the statement that is proved

  function As(proofs: seq<Proof>): (v: Vec)
    ensures |v| == |proofs|
  {
    seq(|proofs|, i requires 0 <= i < |proofs| => proofs[i].a)
  }

  function Bs(proofs: seq<Proof>): (v: Vec)
    ensures |v| == |proofs|
  {
    seq(|proofs|, i requires 0 <= i < |proofs| => proofs[i].b)
  }

  function Cs(proofs: seq<Proof>): (v: Vec)
    ensures |v| == |proofs|
  {
    seq(|proofs|, i requires 0 <= i < |proofs| => proofs[i].c)
  }

  /** B and the key w are rescaled by opposite powers of r. */
  function Start(srs: ProverSrs, proofs: seq<Proof>, r: F): (st: State)
    requires srs.HasCorrectLength(|proofs|)
    ensures st.HasLength(|st.a|) && |st.a| == |proofs|
  {
    var rVec := Powers(ONE, r, |proofs|);
    State(As(proofs), VMul(Bs(proofs), rVec), Cs(proofs), rVec, srs.vkey, srs.wkey.Scale(InvAll(rVec)))
  }

  predicate ParsedArgument(agg: AggregateProof) {
    agg.tmipp.gipa.SameLengths() && agg.tmipp.gipa.zAB != []
  }

  /** Everything an honestly computed aggregate proof holds. */
  ghost predicate Honest(srs: ProverSrs, oracle: Oracle, log: seq<Entry>, proofs: seq<Proof>, agg: AggregateProof) {
    && |proofs| >= 2
    && srs.HasCorrectLength(|proofs|)
    && srs.PairedTables()
    && agg.comAB == Pair(srs.vkey, srs.wkey, As(proofs), Bs(proofs))
    && agg.comC == SingleG1(srs.vkey, Cs(proofs))
    && var rLog := CommitmentLog(log, agg.comAB, agg.comC);
    && var st := Start(srs, proofs, oracle(rLog));
    && agg.ipAB == InnerProduct(st.a, st.b)
    && agg.aggC == InnerProduct(st.c, st.r)
    && HonestTippMipp(srs, oracle, rLog, oracle(rLog), st, agg.ipAB, agg.aggC, agg.tmipp)
  }

  ghost predicate HonestTippMipp(srs: ProverSrs, oracle: Oracle, log: seq<Entry>, r: F, st: State, ipAB: F, aggC: F,
                                 proof: TippMippProof)
    requires srs.PairedTables() && st.HasLength(|st.a|)
  {
    var gipa := proof.gipa;
    && gipa.SameLengths() && gipa.zAB != []
    && gipa.nproofs == |st.a| % 0x1_0000_0000
    && |st.a| == Pow2(|gipa.zAB|)
    && var first := FirstLog(log, ipAB, aggC);
    && var xInvs := Inverses(oracle, first, gipa.Rounds());
    && Opened(st, xInvs, gipa)
    && var t, tInv := Reverse(InvAll(xInvs)), Reverse(xInvs);
    && var z := oracle(KzgLog(LogAfter(oracle, first, gipa.Rounds()), t[0], gipa.finalVkey, gipa.finalWkey));
    && Ok(proof.vkeyOpening) == CreateKzgOpening(srs.hAlphaTable, srs.hBetaTable, Coefficients(tInv, ONE),
                                                 ProductForm(tInv, z), z)
    && Ok(proof.wkeyOpening) == CreateKzgOpening(srs.gAlphaTable, srs.gBetaTable, Shifted(t, Inv(r)),
                                                 Mul(ProductForm(t, Mul(z, Inv(r))), Pow(z, |srs.gAlphaTable|)), z)
  }

  // ----- the prover

  lemma CoefficientsNormal(t: Vec, r: F)
    requires r != ZERO && forall i :: 0 <= i < |t| ==> t[i] != ZERO
    ensures Norm(Coefficients(t, r)) == Coefficients(t, r) && Norm(Shifted(t, r)) == Shifted(t, r)
  {
    TopCoefficient(t, r);
    NonZeroTop(Coefficients(t, r));
    NonZeroTop(Shifted(t, r));
  }

  lemma ChallengesNonZero(oracle: Oracle, first: seq<Entry>, rounds: seq<Round>)
    ensures var xInvs := Inverses(oracle, first, rounds);
      && (forall i :: 0 <= i < |xInvs| ==> Reverse(xInvs)[i] != ZERO)
      && (forall i :: 0 <= i < |xInvs| ==> Reverse(InvAll(xInvs))[i] != ZERO)
  {
    var xInvs := Inverses(oracle, first, rounds);
    forall i | 0 <= i < |xInvs|
      ensures Reverse(InvAll(xInvs))[i] != ZERO
    {
      InvNonZero(xInvs[|xInvs| - 1 - i]);
    }
  }

  /** Runs the recursion and opens the folded keys; fails exactly when a table has the wrong length. */
  method ProveTippMipp(srs: ProverSrs, tr: Transcript, st: State, ipAB: F, aggC: F)
    returns (res: Result<TippMippProof, Error>)
    requires srs.PairedTables() && st.HasLength(|st.a|) && |st.a| >= 2 && IsPow2(|st.a|) && st.r[1] != ZERO
    modifies tr`log
    ensures res.Ok? <==> |srs.hAlphaTable| == |st.a| && |srs.gAlphaTable| == 2 * |st.a|
    ensures res.Err? ==> res.error == InvalidSRS
    ensures res.Ok? ==> HonestTippMipp(srs, tr.oracle, old(tr.log), st.r[1], st, ipAB, aggC, res.value)
    ensures res.Ok? ==> res.value.gipa.SameLengths() && res.value.gipa.zAB != []
    ensures res.Ok? ==> tr.log == ArgumentLog(tr.oracle, old(tr.log), ipAB, aggC, res.value.gipa)
  {
    hide LogAfter, Inverses, Opened, Coefficients, ProductForm, Zip, FirstLog, CreateKzgOpening, Norm, Pow;
    var rShift := st.r[1];
    ghost var first := FirstLog(tr.log, ipAB, aggC);
    var gipa, challenges, challengesInv := GipaTippMipp(tr, st, ipAB, aggC);
    ghost var xInvs := challengesInv;
    ChallengesNonZero(tr.oracle, first, gipa.Rounds());
    AtLeastOneRound(|gipa.zAB|);
    challenges, challengesInv := Reverse(challenges), Reverse(challengesInv);
    var rInverse := Inv(rShift);
    InvNonZero(rShift);
    tr.AppendValues("kzg-challenge", [challenges[0]]);
    tr.AppendValues("vkey0", [gipa.finalVkey.0]);
    tr.AppendValues("vkey1", [gipa.finalVkey.1]);
    tr.AppendValues("wkey0", [gipa.finalWkey.0]);
    tr.AppendValues("wkey1", [gipa.finalWkey.1]);
    var z := tr.ChallengeScalar("z-challenge");
    var vkeyOpening, wkeyOpening := OpenKeys(srs, challenges, challengesInv, rInverse, z);
    if vkeyOpening.Err? {
      return Err(vkeyOpening.error);
    }
    if wkeyOpening.Err? {
      return Err(wkeyOpening.error);
    }
    res := Ok(TippMippProof(gipa, vkeyOpening.value, wkeyOpening.value));
  }

  /** Opens both folded keys at z; the stripped polynomials keep their full length. */
  method OpenKeys(srs: ProverSrs, t: Vec, tInv: Vec, rInverse: F, z: F)
    returns (vkeyOpening: Result<Opening, Error>, wkeyOpening: Result<Opening, Error>)
    requires srs.PairedTables() && t != [] && |tInv| == |t| && rInverse != ZERO
    requires forall i :: 0 <= i < |t| ==> t[i] != ZERO
    requires forall i :: 0 <= i < |t| ==> tInv[i] != ZERO
    ensures vkeyOpening == CreateKzgOpening(srs.hAlphaTable, srs.hBetaTable, Coefficients(tInv, ONE),
                                            ProductForm(tInv, z), z)
    ensures wkeyOpening == CreateKzgOpening(srs.gAlphaTable, srs.gBetaTable, Shifted(t, rInverse),
                                            Mul(ProductForm(t, Mul(z, rInverse)), Pow(z, |srs.gAlphaTable|)), z)
    ensures vkeyOpening.Ok? <==> |srs.hAlphaTable| == Pow2(|t|)
    ensures wkeyOpening.Ok? <==> |srs.gAlphaTable| == 2 * Pow2(|t|)
    ensures vkeyOpening.Err? ==> vkeyOpening.error == InvalidSRS
    ensures wkeyOpening.Err? ==> wkeyOpening.error == InvalidSRS
  {
    hide Coefficients, Shifted, ProductForm, CreateKzgOpening, Norm, Pow;
    OneIsNotZero();
    CoefficientsNormal(tInv, ONE);
    CoefficientsNormal(t, rInverse);
    vkeyOpening := ProveCommitmentV(srs.hAlphaTable, srs.hBetaTable, tInv, z);
    wkeyOpening := ProveCommitmentW(srs.gAlphaTable, srs.gBetaTable, t, rInverse, z);
    OpeningSucceeds(srs.hAlphaTable, srs.hBetaTable, Coefficients(tInv, ONE), ProductForm(tInv, z), z);
    OpeningSucceeds(srs.gAlphaTable, srs.gBetaTable, Shifted(t, rInverse),
                    Mul(ProductForm(t, Mul(z, rInverse)), Pow(z, |srs.gAlphaTable|)), z);
  }

  lemma AtLeastOneRound(k: nat)
    requires Pow2(k) >= 2
    ensures k >= 1
  {
  }

  lemma OpeningSucceeds(alphaTable: Vec, betaTable: Vec, poly: Vec, y: F, z: F)
    requires |alphaTable| == |betaTable|
    ensures CreateKzgOpening(alphaTable, betaTable, poly, y, z).Ok? <==> |poly| == |alphaTable|
    ensures CreateKzgOpening(alphaTable, betaTable, poly, y, z).Err?
        ==> CreateKzgOpening(alphaTable, betaTable, poly, y, z).error == InvalidSRS
  {
  }

  method AggregateProofs(srs: ProverSrs, tr: Transcript, proofs: seq<Proof>) returns (res: Result<AggregateProof, Error>)
    requires srs.PairedTables()
    modifies tr`log
    ensures |proofs| < 2 || !IsPow2(|proofs|) ==> res == Err(InvalidProof)
    ensures |proofs| >= 2 && IsPow2(|proofs|) && !srs.HasCorrectLength(|proofs|) ==> res == Err(InvalidSRS)
    ensures |proofs| >= 2 && IsPow2(|proofs|) && srs.HasCorrectLength(|proofs|)
      ==> (res.Ok? <==> |srs.hAlphaTable| == |proofs| && |srs.gAlphaTable| == 2 * |proofs|)
          && (res.Err? ==> res.error == InvalidSRS)
    ensures res.Ok? ==> Honest(srs, tr.oracle, old(tr.log), proofs, res.value)
    ensures res.Ok? ==> ParsedArgument(res.value) && tr.log == AggregateLog(tr.oracle, old(tr.log), res.value)
  {
    hide InnerProduct, HonestTippMipp, Pow, ArgumentLog;
    if |proofs| < 2 {
      return Err(InvalidProof);
    }
    if !IsPow2(|proofs|) {
      return Err(InvalidProof);
    }
    if !srs.HasCorrectLength(|proofs|) {
      return Err(InvalidSRS);
    }
    var a, b, c := As(proofs), Bs(proofs), Cs(proofs);
    var comAB := Pair(srs.vkey, srs.wkey, a, b);
    var comC := SingleG1(srs.vkey, c);
    tr.AppendValues("AB-commitment", [comAB.t, comAB.u]);
    tr.AppendValues("C-commitment", [comC.t, comC.u]);
    var r := tr.ChallengeScalar("r-random-fiatshamir");
    var rVec := StructuredScalarPower(|proofs|, r);
    var rInv := InvAll(rVec);
    var bR := VMul(b, rVec);
    var ipAB := InnerProduct(a, bR);
    var aggC := InnerProduct(c, rVec);
    var wkeyRInv := srs.wkey.Scale(rInv);
    PowFirst(r);
    MulOne(r);
    assert rVec[1] == r;
    ghost var st := Start(srs, proofs, r);
    assert st == State(a, bR, c, rVec, srs.vkey, wkeyRInv);
    var proof := ProveTippMipp(srs, tr, State(a, bR, c, rVec, srs.vkey, wkeyRInv), ipAB, aggC);
    if proof.Err? {
      return Err(proof.error);
    }
    res := Ok(AggregateProof(comAB, comC, ipAB, aggC, proof.value));
  }
}
