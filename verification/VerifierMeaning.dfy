/**
 * VerifierMeaning: which aggregates the verifier accepts, honest or not. The conditions are written in
 * the field, without the checks they are tested by.
 */
module VerifierMeaning {
  import opened ScalarField
  import opened Polynomials
  import opened Indices
  import opened RootsOfUnity
  import opened InnerProducts
  import opened Transcripts
  import opened Gipa
  import opened ProductForms
  import opened PairingChecks
  import opened StructuredKeys
  import opened KzgOpenings
  import opened Aggregation
  import opened AggregateVerifier
  import opened Groth16Equation
  import opened AggregateCompleteness

  // ----- accumulated values in closed form

  /** One vector for each accumulated value, an entry a round. */
  datatype Terms = Terms(tab: Vec, uab: Vec, zab: Vec, tc: Vec, uc: Vec, zc: Vec)

  function Lefts(rounds: seq<Round>): Terms {
    var n := |rounds|;
    Terms(seq(n, i requires 0 <= i < n => rounds[i].tabL.t),
          seq(n, i requires 0 <= i < n => rounds[i].tabL.u),
          seq(n, i requires 0 <= i < n => rounds[i].zabL),
          seq(n, i requires 0 <= i < n => rounds[i].tucL.t),
          seq(n, i requires 0 <= i < n => rounds[i].tucL.u),
          seq(n, i requires 0 <= i < n => rounds[i].zcL))
  }

  function Rights(rounds: seq<Round>): Terms {
    var n := |rounds|;
    Terms(seq(n, i requires 0 <= i < n => rounds[i].tabR.t),
          seq(n, i requires 0 <= i < n => rounds[i].tabR.u),
          seq(n, i requires 0 <= i < n => rounds[i].zabR),
          seq(n, i requires 0 <= i < n => rounds[i].tucR.t),
          seq(n, i requires 0 <= i < n => rounds[i].tucR.u),
          seq(n, i requires 0 <= i < n => rounds[i].zcR))
  }

  /** A claim plus the left terms weighted by the challenges and the right terms by their inverses. */
  function Whole(claim: F, xInvs: Vec, lefts: Vec, rights: Vec): F
    requires |lefts| == |rights| == |xInvs|
  {
    Add(claim, Add(InnerProduct(InvAll(xInvs), lefts), InnerProduct(xInvs, rights)))
  }

  lemma WholeNone(claim: F)
    ensures Whole(claim, [], [], []) == claim
  {
    InnerEmpty(InvAll([]), []);
    InnerEmpty([], []);
    AddZero(ZERO);
    AddZero(claim);
  }

  lemma WholeNext(claim: F, xInvs: Vec, lefts: Vec, rights: Vec, x: F, l: F, r: F)
    requires |lefts| == |rights| == |xInvs|
    ensures Whole(claim, xInvs + [x], lefts + [l], rights + [r])
         == Add(Whole(claim, xInvs, lefts, rights), Mix(l, r, Inv(x), x))
  {
    hide InnerProduct;
    var xs := InvAll(xInvs);
    assert InvAll(xInvs + [x]) == xs + [Inv(x)];
    InnerNext(xs, lefts, Inv(x), l);
    InnerNext(xInvs, rights, x, r);
    var p, q, u, v := InnerProduct(xs, lefts), InnerProduct(xInvs, rights), Mul(Inv(x), l), Mul(x, r);
    AddSwap(p, u, q, v);
    AddAssoc(claim, Add(p, q), Add(u, v));
  }

  lemma InnerNext(a: Vec, b: Vec, x: F, y: F)
    requires |a| == |b|
    ensures InnerProduct(a + [x], b + [y]) == Add(InnerProduct(a, b), Mul(x, y))
  {
    hide InnerProduct;
    InnerLast(a + [x], b + [y]);
    assert (a + [x])[..|a|] == a && (b + [y])[..|b|] == b;
  }

  /** The six values in closed form. */
  ghost predicate InClosedForm(base: Tuz, rounds: seq<Round>, xInvs: Vec, res: Tuz)
    requires |rounds| == |xInvs|
  {
    var l, r := Lefts(rounds), Rights(rounds);
    && res.tab == Whole(base.tab, xInvs, l.tab, r.tab)
    && res.uab == Whole(base.uab, xInvs, l.uab, r.uab)
    && res.zab == Whole(base.zab, xInvs, l.zab, r.zab)
    && res.tc == Whole(base.tc, xInvs, l.tc, r.tc)
    && res.uc == Whole(base.uc, xInvs, l.uc, r.uc)
    && res.zc == Whole(base.zc, xInvs, l.zc, r.zc)
  }

  lemma {:induction false} AccumulatedIs(base: Tuz, rounds: seq<Round>, xInvs: Vec)
    requires |rounds| == |xInvs|
    ensures InClosedForm(base, rounds, xInvs, Accumulated(base, rounds, xInvs))
    decreases |rounds|
  {
    hide Whole, Mix, Lefts, Rights;
    if rounds == [] {
      NoTerms();
      WholeNone(base.tab);
      WholeNone(base.uab);
      WholeNone(base.zab);
      WholeNone(base.tc);
      WholeNone(base.uc);
      WholeNone(base.zc);
    } else {
      var n := |rounds| - 1;
      var init, xs, x := rounds[..n], xInvs[..n], xInvs[n];
      var l, r := Lefts(init), Rights(init);
      AccumulatedIs(base, init, xs);
      NextTerms(init, rounds[n]);
      assert rounds == init + [rounds[n]] && xInvs == xs + [x];
      TermLengths(init);
      WholeNext(base.tab, xs, l.tab, r.tab, x, rounds[n].tabL.t, rounds[n].tabR.t);
      WholeNext(base.uab, xs, l.uab, r.uab, x, rounds[n].tabL.u, rounds[n].tabR.u);
      WholeNext(base.zab, xs, l.zab, r.zab, x, rounds[n].zabL, rounds[n].zabR);
      WholeNext(base.tc, xs, l.tc, r.tc, x, rounds[n].tucL.t, rounds[n].tucR.t);
      WholeNext(base.uc, xs, l.uc, r.uc, x, rounds[n].tucL.u, rounds[n].tucR.u);
      WholeNext(base.zc, xs, l.zc, r.zc, x, rounds[n].zcL, rounds[n].zcR);
    }
  }

  lemma NoTerms()
    ensures Lefts([]) == Rights([]) == Terms([], [], [], [], [], [])
  {
  }

  lemma TermLengths(rounds: seq<Round>)
    ensures var l, r, n := Lefts(rounds), Rights(rounds), |rounds|;
      && n == |l.tab| == |l.uab| == |l.zab| == |l.tc| == |l.uc| == |l.zc|
      && n == |r.tab| == |r.uab| == |r.zab| == |r.tc| == |r.uc| == |r.zc|
  {
  }

  lemma NextTerms(rounds: seq<Round>, rd: Round)
    ensures var l, r := Lefts(rounds), Rights(rounds);
      && Lefts(rounds + [rd]) == Terms(l.tab + [rd.tabL.t], l.uab + [rd.tabL.u], l.zab + [rd.zabL],
                                       l.tc + [rd.tucL.t], l.uc + [rd.tucL.u], l.zc + [rd.zcL])
      && Rights(rounds + [rd]) == Terms(r.tab + [rd.tabR.t], r.uab + [rd.tabR.u], r.zab + [rd.zabR],
                                        r.tc + [rd.tucR.t], r.uc + [rd.tucR.u], r.zc + [rd.zcR])
  {
  }

  // ----- the equations

  /** The four openings: of the folded v key at z, and of the rescaled w key, whose polynomial is shifted by n. */
  ghost predicate KeysOpen(srs: VerifierSrs, proof: TippMippProof, t: Vec, tInv: Vec, rInverse: F, z: F) {
    var (v0, v1), (w0, w1) := proof.gipa.finalVkey, proof.gipa.finalWkey;
    var fv, fw := ProductForm(tInv, z), Mul(ProductForm(t, Mul(z, rInverse)), Pow(z, srs.n));
    && Mul(srs.g, Sub(v0, Mul(srs.h, fv))) == Mul(Sub(srs.gAlpha, Mul(srs.g, z)), proof.vkeyOpening.a)
    && Mul(srs.g, Sub(v1, Mul(srs.h, fv))) == Mul(Sub(srs.gBeta, Mul(srs.g, z)), proof.vkeyOpening.b)
    && Mul(Sub(w0, Mul(srs.g, fw)), srs.h) == Mul(proof.wkeyOpening.a, Sub(srs.hAlpha, Mul(srs.h, z)))
    && Mul(Sub(w1, Mul(srs.g, fw)), srs.h) == Mul(proof.wkeyOpening.b, Sub(srs.hBeta, Mul(srs.h, z)))
  }

  /** The final values open the accumulated commitments and inner products. */
  ghost predicate FinalsOpen(agg: AggregateProof, xInvs: Vec, finalR: F)
    requires ParsedArgument(agg) && |xInvs| == |agg.tmipp.gipa.zAB|
  {
    var gipa := agg.tmipp.gipa;
    var a, b, c, v, w := gipa.finalA, gipa.finalB, gipa.finalC, gipa.finalVkey, gipa.finalWkey;
    var l, r := Lefts(gipa.Rounds()), Rights(gipa.Rounds());
    && Mul(a, b) == Whole(agg.ipAB, xInvs, l.zab, r.zab)
    && Add(Mul(a, v.0), Mul(w.0, b)) == Whole(agg.comAB.t, xInvs, l.tab, r.tab)
    && Add(Mul(a, v.1), Mul(w.1, b)) == Whole(agg.comAB.u, xInvs, l.uab, r.uab)
    && Mul(c, v.0) == Whole(agg.comC.t, xInvs, l.tc, r.tc)
    && Mul(c, v.1) == Whole(agg.comC.u, xInvs, l.uc, r.uc)
    && Mul(c, finalR) == Whole(agg.aggC, xInvs, l.zc, r.zc)
  }

  /** The whole recursive argument, with the challenges that its log gives. */
  ghost predicate ArgumentHolds(srs: VerifierSrs, agg: AggregateProof, r: F, oracle: Oracle, log: seq<Entry>)
    requires ParsedArgument(agg)
  {
    var gipa := agg.tmipp.gipa;
    var xInvs := Inverses(oracle, FirstLog(log, agg.ipAB, agg.aggC), gipa.Rounds());
    var t, tInv := Reverse(InvAll(xInvs)), Reverse(xInvs);
    var z := oracle(ArgumentLog(oracle, log, agg.ipAB, agg.aggC, gipa));
    KeysOpen(srs, agg.tmipp, t, tInv, Inv(r), z) && FinalsOpen(agg, xInvs, ProductForm(tInv, r))
  }

  lemma KeyChecksMeaning(srs: VerifierSrs, proof: TippMippProof, t: Vec, tInv: Vec, rInverse: F, z: F, coins: Coins)
    ensures AllSatisfied(KeyChecks(srs, proof, t, tInv, rInverse, z, coins)) <==> KeysOpen(srs, proof, t, tInv, rInverse, z)
  {
    hide ProductForm, Pow, KzgCheckV, KzgCheckW;
    var fv, fw := ProductForm(tInv, z), Mul(ProductForm(t, Mul(z, rInverse)), Pow(z, srs.n));
    KzgCheckVMeaning(srs.g, srs.h, z, fv, proof.gipa.finalVkey.0, srs.gAlpha, proof.vkeyOpening.a, coins[0]);
    KzgCheckVMeaning(srs.g, srs.h, z, fv, proof.gipa.finalVkey.1, srs.gBeta, proof.vkeyOpening.b, coins[1]);
    KzgCheckWMeaning(srs.g, srs.h, z, fw, proof.gipa.finalWkey.0, srs.hAlpha, proof.wkeyOpening.a, coins[2]);
    KzgCheckWMeaning(srs.g, srs.h, z, fw, proof.gipa.finalWkey.1, srs.hBeta, proof.wkeyOpening.b, coins[3]);
    var cs := KeyChecks(srs, proof, t, tInv, rInverse, z, coins);
    assert cs[0] in cs && cs[1] in cs && cs[2] in cs && cs[3] in cs;
  }

  lemma InvalidFails()
    ensures !INVALID.Satisfied()
  {
    OneIsNotZero();
  }

  lemma FinalChecksMeaning(agg: AggregateProof, xInvs: Vec, finalR: F, coins: Coins)
    requires ParsedArgument(agg) && |xInvs| == |agg.tmipp.gipa.zAB|
    ensures var base := Tuz(agg.comAB.t, agg.comAB.u, agg.ipAB, agg.comC.t, agg.comC.u, agg.aggC);
      var res := Accumulated(base, agg.tmipp.gipa.Rounds(), xInvs);
      AllSatisfied(FinalChecks(agg.tmipp.gipa, res, finalR, coins)) <==> FinalsOpen(agg, xInvs, finalR)
  {
    hide Accumulated, Whole, Rand, Zip, Lefts, Rights;
    var gipa := agg.tmipp.gipa;
    var base := Tuz(agg.comAB.t, agg.comAB.u, agg.ipAB, agg.comC.t, agg.comC.u, agg.aggC);
    var res := Accumulated(base, gipa.Rounds(), xInvs);
    AccumulatedIs(base, gipa.Rounds(), xInvs);
    RandOne(coins[4], gipa.finalC, gipa.finalVkey.0, res.tc);
    RandOne(coins[5], gipa.finalC, gipa.finalVkey.1, res.uc);
    RandTwo(coins[6], gipa.finalA, gipa.finalVkey.0, gipa.finalWkey.0, gipa.finalB, res.tab);
    RandTwo(coins[7], gipa.finalA, gipa.finalVkey.1, gipa.finalWkey.1, gipa.finalB, res.uab);
    RandOne(coins[8], gipa.finalA, gipa.finalB, res.zab);
    InvalidFails();
    SixChecks(gipa, res, finalR, coins);
  }

  lemma SixChecks(gipa: GipaProof, res: Tuz, finalR: F, coins: Coins)
    ensures AllSatisfied(FinalChecks(gipa, res, finalR, coins))
       <==> && Rand(coins[4], [(gipa.finalC, gipa.finalVkey.0)], res.tc).Satisfied()
            && Rand(coins[5], [(gipa.finalC, gipa.finalVkey.1)], res.uc).Satisfied()
            && Rand(coins[6], [(gipa.finalA, gipa.finalVkey.0), (gipa.finalWkey.0, gipa.finalB)], res.tab).Satisfied()
            && Rand(coins[7], [(gipa.finalA, gipa.finalVkey.1), (gipa.finalWkey.1, gipa.finalB)], res.uab).Satisfied()
            && Rand(coins[8], [(gipa.finalA, gipa.finalB)], res.zab).Satisfied()
            && Mul(gipa.finalC, finalR) == res.zc
  {
    hide Rand;
    var cs := FinalChecks(gipa, res, finalR, coins);
    InvalidFails();
    assert cs[0] in cs && cs[1] in cs && cs[2] in cs && cs[3] in cs && cs[4] in cs;
    assert |cs| == 6 ==> cs[5] == INVALID;
  }

  /** All checks of the argument are satisfied exactly when the ten equations hold, whatever the coins. */
  lemma ArgumentChecksMeaning(srs: VerifierSrs, agg: AggregateProof, r: F, oracle: Oracle, log: seq<Entry>, coins: Coins)
    requires ParsedArgument(agg)
    ensures AllSatisfied(TippMippChecks(srs, agg, r, oracle, log, coins)) <==> ArgumentHolds(srs, agg, r, oracle, log)
  {
    hide Inverses, LogAfter, Accumulated, ProductForm, KeyChecks, FinalChecks, KeysOpen, FinalsOpen, Zip, FirstLog;
    var gipa := agg.tmipp.gipa;
    var first := FirstLog(log, agg.ipAB, agg.aggC);
    var xInvs := Inverses(oracle, first, gipa.Rounds());
    var t, tInv := Reverse(InvAll(xInvs)), Reverse(xInvs);
    var z := oracle(ArgumentLog(oracle, log, agg.ipAB, agg.aggC, gipa));
    var base := Tuz(agg.comAB.t, agg.comAB.u, agg.ipAB, agg.comC.t, agg.comC.u, agg.aggC);
    KeyChecksMeaning(srs, agg.tmipp, t, tInv, Inv(r), z, coins);
    FinalChecksMeaning(agg, xInvs, ProductForm(tInv, r), coins);
    var p := KeyChecks(srs, agg.tmipp, t, tInv, Inv(r), z, coins);
    var q := FinalChecks(gipa, Accumulated(base, gipa.Rounds(), xInvs), ProductForm(tInv, r), coins);
    SatisfiedConcat(p, q);
  }

  lemma SatisfiedConcat(p: seq<Check>, q: seq<Check>)
    ensures AllSatisfied(p + q) <==> AllSatisfied(p) && AllSatisfied(q)
  {
    assert forall c :: c in p + q <==> c in p || c in q;
  }

  // ----- all coins

  /** A check is satisfied when both sides do not differ. */
  function Excess(c: Check): F {
    Sub(c.left, c.right)
  }

  lemma {:induction false} PairsScale(coeff: F, pairs: seq<(F, F)>)
    ensures SumOfPairs(coeff, pairs) == Mul(coeff, SumOfPairs(ONE, pairs))
    decreases |pairs|
  {
    if pairs == [] {
      MulZero(coeff);
    } else {
      var (a, b) := pairs[|pairs| - 1];
      PairsScale(coeff, pairs[..|pairs| - 1]);
      PairTerm(coeff, a, b);
      PairTerm(ONE, a, b);
      MulOne(Mul(a, b));
      Distrib(coeff, SumOfPairs(ONE, pairs[..|pairs| - 1]), Mul(a, b));
    }
  }

  /** Its coefficient scales what a randomised check is off by. */
  lemma ExcessScales(coeff: F, pairs: seq<(F, F)>, out: F)
    ensures Excess(Rand(coeff, pairs, out)) == Mul(coeff, Excess(Rand(ONE, pairs, out)))
  {
    PairsScale(coeff, pairs);
    MulZero(coeff);
    MulOne(out);
    DistribSub(coeff, SumOfPairs(ONE, pairs), out);
  }

  function OneCoins(): (c: Coins)
    ensures forall i :: 0 <= i < 9 ==> c[i] == ONE
  {
    OneIsNotZero();
    NineOnes()
  }

  lemma PlusExcess(c: Check, d: Check)
    ensures Excess(Plus(c, d)) == Add(Excess(c), Excess(d))
  {
    SubSwap(c.left, d.left, c.right, d.right);
  }

  lemma SatisfiedExcess(c: Check)
    ensures c.Satisfied() <==> Excess(c) == ZERO
  {
    SubZeroIffEqual(c.left, c.right);
  }

  /** If merging still verifies after one check was scaled by r other than one, that check is satisfied. */
  lemma ScaledCheckSatisfied(checks: seq<Check>, i: nat, d: Check, r: F)
    requires i < |checks| && r != ONE && Excess(d) == Mul(r, Excess(checks[i]))
    requires Total(checks).Satisfied() && Total(checks[i := d]).Satisfied()
    ensures checks[i].Satisfied()
  {
    hide Total, Plus, Excess, Check.Satisfied;
    var other := checks[i := d];
    var rest := Total(checks[..i] + checks[i + 1..]);
    assert other[..i] + other[i + 1..] == checks[..i] + checks[i + 1..];
    TotalWithout(checks, i);
    TotalWithout(other, i);
    PlusExcess(rest, checks[i]);
    PlusExcess(rest, d);
    SatisfiedExcess(Total(checks));
    SatisfiedExcess(Total(other));
    SatisfiedExcess(checks[i]);
    var e := Excess(checks[i]);
    AddComm(Excess(rest), e);
    AddComm(Excess(rest), Mul(r, e));
    AddCancel(e, Mul(r, e), Excess(rest));
    MulOne(e);
    if e != ZERO {
      MulCancel(r, ONE, e);
    }
  }

  lemma RestSatisfied(checks: seq<Check>, last: Check)
    requires AllSatisfied(checks) && Total(checks + [last]).Satisfied()
    ensures last.Satisfied()
  {
    TotalSatisfied(checks);
    var all := checks + [last];
    assert all[..|all| - 1] == checks;
    var t := Total(checks);
    AddComm(t.left, last.left);
    AddComm(t.right, last.right);
    AddCancel(last.left, last.right, t.left);
  }

  /** One check a coin. */
  function Randomised(claims: seq<(seq<(F, F)>, F)>, coins: Coins): (r: seq<Check>)
    requires |claims| == 9
    ensures |r| == 9
  {
    seq(9, i requires 0 <= i < 9 => Rand(coins[i], claims[i].0, claims[i].1))
  }

  /** The checks of the argument are nine claims, the same for all coins, and a failing check. */
  lemma CoinsOnlyScale(srs: VerifierSrs, agg: AggregateProof, r: F, oracle: Oracle, log: seq<Entry>)
    returns (claims: seq<(seq<(F, F)>, F)>, fails: bool)
    requires ParsedArgument(agg)
    ensures |claims| == 9
    ensures forall coins: Coins ::
      TippMippChecks(srs, agg, r, oracle, log, coins) == Randomised(claims, coins) + (if fails then [INVALID] else [])
  {
    hide Inverses, LogAfter, Accumulated, ProductForm, Zip, FirstLog, Rand, Pow;
    var gipa := agg.tmipp.gipa;
    var first := FirstLog(log, agg.ipAB, agg.aggC);
    var xInvs := Inverses(oracle, first, gipa.Rounds());
    var t, tInv := Reverse(InvAll(xInvs)), Reverse(xInvs);
    var z := oracle(KzgLog(LogAfter(oracle, first, gipa.Rounds()), t[0], gipa.finalVkey, gipa.finalWkey));
    var base := Tuz(agg.comAB.t, agg.comAB.u, agg.ipAB, agg.comC.t, agg.comC.u, agg.aggC);
    var res, finalR := Accumulated(base, gipa.Rounds(), xInvs), ProductForm(tInv, r);
    var keys := KeyClaims(srs, agg.tmipp, t, tInv, Inv(r), z);
    var finals := FinalClaims(gipa, res);
    claims, fails := keys + finals, Mul(gipa.finalC, finalR) != res.zc;
    forall coins: Coins
      ensures TippMippChecks(srs, agg, r, oracle, log, coins)
           == Randomised(claims, coins) + (if fails then [INVALID] else [])
    {
      KeyClaimsAre(srs, agg.tmipp, t, tInv, Inv(r), z, coins, finals);
      FinalClaimsAre(gipa, res, finalR, coins, keys);
      var all := Randomised(claims, coins);
      assert all == all[..4] + all[4..];
    }
  }

  function KeyClaims(srs: VerifierSrs, proof: TippMippProof, t: Vec, tInv: Vec, rInverse: F, z: F)
    : (r: seq<(seq<(F, F)>, F)>)
    ensures |r| == 4
  {
    var fv, fw := ProductForm(tInv, z), Mul(ProductForm(t, Mul(z, rInverse)), Pow(z, srs.n));
    var v, w := proof.gipa.finalVkey, proof.gipa.finalWkey;
    [([(Neg(srs.g), Sub(v.0, Mul(srs.h, fv))), (Sub(srs.gAlpha, Mul(srs.g, z)), proof.vkeyOpening.a)], ZERO),
     ([(Neg(srs.g), Sub(v.1, Mul(srs.h, fv))), (Sub(srs.gBeta, Mul(srs.g, z)), proof.vkeyOpening.b)], ZERO),
     ([(Sub(w.0, Mul(srs.g, fw)), Neg(srs.h)), (proof.wkeyOpening.a, Sub(srs.hAlpha, Mul(srs.h, z)))], ZERO),
     ([(Sub(w.1, Mul(srs.g, fw)), Neg(srs.h)), (proof.wkeyOpening.b, Sub(srs.hBeta, Mul(srs.h, z)))], ZERO)]
  }

  lemma KeyClaimsAre(srs: VerifierSrs, proof: TippMippProof, t: Vec, tInv: Vec, rInverse: F, z: F, coins: Coins,
                     more: seq<(seq<(F, F)>, F)>)
    requires |more| == 5
    ensures Randomised(KeyClaims(srs, proof, t, tInv, rInverse, z) + more, coins)[..4]
         == KeyChecks(srs, proof, t, tInv, rInverse, z, coins)
  {
    hide ProductForm, Pow, Rand;
  }

  function FinalClaims(gipa: GipaProof, res: Tuz): (r: seq<(seq<(F, F)>, F)>)
    ensures |r| == 5
  {
    [([(gipa.finalC, gipa.finalVkey.0)], res.tc),
     ([(gipa.finalC, gipa.finalVkey.1)], res.uc),
     ([(gipa.finalA, gipa.finalVkey.0), (gipa.finalWkey.0, gipa.finalB)], res.tab),
     ([(gipa.finalA, gipa.finalVkey.1), (gipa.finalWkey.1, gipa.finalB)], res.uab),
     ([(gipa.finalA, gipa.finalB)], res.zab)]
  }

  lemma FinalClaimsAre(gipa: GipaProof, res: Tuz, finalR: F, coins: Coins, before: seq<(seq<(F, F)>, F)>)
    requires |before| == 4
    ensures Randomised(before + FinalClaims(gipa, res), coins)[4..]
            + (if Mul(gipa.finalC, finalR) != res.zc then [INVALID] else [])
         == FinalChecks(gipa, res, finalR, coins)
  {
    hide Rand;
  }

  /** If the claims verify for all coins, together with one more check, all of them hold. */
  lemma ClaimsHold(claims: seq<(seq<(F, F)>, F)>, last: Check, r: F, i: nat)
    requires |claims| == 9 && r != ZERO && r != ONE && i < 9
    requires forall coins: Coins :: Total(Randomised(claims, coins) + [last]).Satisfied()
    ensures Randomised(claims, OneCoins())[i].Satisfied()
  {
    hide Total, Rand, Excess, Check.Satisfied;
    var coins: Coins := OneCoins()[i := r];
    var checks := Randomised(claims, OneCoins()) + [last];
    var d := Rand(r, claims[i].0, claims[i].1);
    ExcessScales(r, claims[i].0, claims[i].1);
    assert Randomised(claims, coins) + [last] == checks[i := d];
    ScaledCheckSatisfied(checks, i, d, r);
  }

  lemma NineUnrandomised(claims: seq<(seq<(F, F)>, F)>, coins: Coins)
    requires |claims| == 9
    ensures Total(Randomised(claims, coins)).nonRandomized == 0
  {
    NoneRandomized(Randomised(claims, coins));
  }

  lemma TotalEnd(checks: seq<Check>, c: Check)
    ensures Total(checks + [c]) == Plus(Total(checks), c)
  {
    assert (checks + [c])[..|checks|] == checks;
  }

  /**
   * Checks with these claims verify for all coins exactly when no check fails outright, all claims hold
   * for some coins, and the last check, the only one without a coin, is satisfied.
   */
  lemma VerifiesForAllCoins(claims: seq<(seq<(F, F)>, F)>, fails: bool, last: Check, r: F)
    requires |claims| == 9 && r != ZERO && r != ONE && last.nonRandomized == 1
    ensures (forall coins: Coins :: Verifies(Total(Randomised(claims, coins) + (if fails then [INVALID] else []) + [last])))
       <==> !fails && last.Satisfied() && forall coins: Coins :: AllSatisfied(Randomised(claims, coins))
  {
    hide Randomised;
    var ones := OneCoins();
    NineUnrandomised(claims, ones);
    if fails {
      TotalEnd(Randomised(claims, ones), INVALID);
      TotalEnd(Randomised(claims, ones) + [INVALID], last);
      assert Total(Randomised(claims, ones) + [INVALID] + [last]).nonRandomized == 3;
    } else {
      forall coins: Coins
        ensures Randomised(claims, coins) + [] + [last] == Randomised(claims, coins) + [last]
        ensures Total(Randomised(claims, coins) + [last]).nonRandomized == 1
      {
        NineUnrandomised(claims, coins);
        TotalEnd(Randomised(claims, coins), last);
      }
      if forall coins: Coins :: Verifies(Total(Randomised(claims, coins) + [last])) {
        AllClaimsHold(claims, last, r);
      }
      if last.Satisfied() && forall coins: Coins :: AllSatisfied(Randomised(claims, coins)) {
        forall coins: Coins
          ensures Total(Randomised(claims, coins) + [last]).Satisfied()
        {
          TotalSatisfied(Randomised(claims, coins) + [last]);
        }
      }
    }
  }

  lemma AllClaimsHold(claims: seq<(seq<(F, F)>, F)>, last: Check, r: F)
    requires |claims| == 9 && r != ZERO && r != ONE
    requires forall coins: Coins :: Verifies(Total(Randomised(claims, coins) + [last]))
    ensures last.Satisfied() && forall coins: Coins :: AllSatisfied(Randomised(claims, coins))
  {
    hide Total, Rand;
    forall i | 0 <= i < 9
      ensures Randomised(claims, OneCoins())[i].Satisfied()
    {
      ClaimsHold(claims, last, r, i);
    }
    RestSatisfied(Randomised(claims, OneCoins()), last);
    forall coins: Coins, i | 0 <= i < 9
      ensures Randomised(claims, coins)[i].Satisfied()
    {
      ExcessScales(coins[i], claims[i].0, claims[i].1);
      SatisfiedExcess(Randomised(claims, OneCoins())[i]);
      SatisfiedExcess(Randomised(claims, coins)[i]);
      MulZero(coins[i]);
    }
  }

  // ----- acceptance

  /** At least one round, and as many proofs as that number of halvings leaves one of. */
  ghost predicate CountsFit(gipa: GipaProof) {
    gipa.SameLengths() && 1 <= |gipa.zAB| && gipa.nproofs == Pow2(|gipa.zAB|) <= MAX_SRS_SIZE
  }

  /** As many inputs as proofs, each as long as the verifying key demands. */
  ghost predicate WellShaped(pvk: VerifyingKey, inputs: seq<Vec>, gipa: GipaProof) {
    && CountsFit(gipa) && gipa.nproofs == |inputs|
    && forall j :: 0 <= j < |inputs| ==> |inputs[j]| + 1 == |pvk.ic|
  }

  lemma ParsingExact(gipa: GipaProof)
    ensures ParsingCheck(gipa) <==> CountsFit(gipa)
  {
    if gipa.nproofs == Pow2(|gipa.zAB|) {
      Log2Pow2(|gipa.zAB|);
    }
  }

  /**
   * Whatever the coins, an aggregate is accepted exactly when it has the right shape, the first challenge
   * is not one, the argument holds, and its claims meet the combination of the Groth16 equations.
   */
  lemma AcceptedExactly(srs: VerifierSrs, pvk: VerifyingKey, inputs: seq<Vec>, agg: AggregateProof, oracle: Oracle,
                        log: seq<Entry>)
    ensures var rLog := CommitmentLog(log, agg.comAB, agg.comC);
      (forall coins: Coins :: VerdictOf(srs, pvk, inputs, agg, coins, oracle, log) == Accepted)
        <==> && WellShaped(pvk, inputs, agg.tmipp.gipa)
             && oracle(rLog) != ONE
             && ArgumentHolds(srs, agg, oracle(rLog), oracle, rLog)
             && CombinedEquation(pvk, inputs, oracle(rLog), agg.ipAB, agg.aggC)
  {
    hide TippMippChecks, ArgumentHolds, CombinedEquation, GrothCheck, Total, Pow2, ParsingCheck, WellShaped, AllSatisfied;
    var rLog := CommitmentLog(log, agg.comAB, agg.comC);
    var r, gipa := oracle(rLog), agg.tmipp.gipa;
    ShapeExact(pvk, inputs, gipa);
    if WellShaped(pvk, inputs, gipa) && r != ONE {
      ParsedLengths(gipa);
      GrothCheckPlain(pvk, inputs, r, agg);
      GrothCheckMeaning(pvk, inputs, r, agg);
      var last := GrothCheck(pvk, inputs, r, agg);
      ArgumentAndCheck(srs, agg, r, oracle, rLog, last);
      forall coins: Coins
        ensures VerdictOf(srs, pvk, inputs, agg, coins, oracle, log) == Accepted
           <==> Verifies(Total(TippMippChecks(srs, agg, r, oracle, rLog, coins) + [last]))
      {
      }
    } else {
      var coins := OneCoins();
      assert VerdictOf(srs, pvk, inputs, agg, coins, oracle, log) != Accepted;
    }
  }

  lemma ArgumentAndCheck(srs: VerifierSrs, agg: AggregateProof, r: F, oracle: Oracle, log: seq<Entry>, last: Check)
    requires ParsedArgument(agg) && r != ZERO && r != ONE && last.nonRandomized == 1
    ensures (forall coins: Coins :: Verifies(Total(TippMippChecks(srs, agg, r, oracle, log, coins) + [last])))
       <==> last.Satisfied() && ArgumentHolds(srs, agg, r, oracle, log)
  {
    hide TippMippChecks, ArgumentHolds, Total, AllSatisfied, Randomised, Check.Satisfied, Verifies;
    var claims, fails := CoinsOnlyScale(srs, agg, r, oracle, log);
    VerifiesForAllCoins(claims, fails, last, r);
    InvalidUnsatisfied();
    forall coins: Coins
      ensures AllSatisfied(Randomised(claims, coins)) && !fails <==> ArgumentHolds(srs, agg, r, oracle, log)
    {
      ArgumentChecksMeaning(srs, agg, r, oracle, log, coins);
      SatisfiedConcat(Randomised(claims, coins), if fails then [INVALID] else []);
    }
    var some := OneCoins();
    assert AllSatisfied(Randomised(claims, some)) && !fails <==> ArgumentHolds(srs, agg, r, oracle, log);
  }

  lemma InvalidUnsatisfied()
    ensures !AllSatisfied([INVALID]) && AllSatisfied([])
  {
    InvalidFails();
    assert INVALID in [INVALID];
  }

  lemma ShapeExact(pvk: VerifyingKey, inputs: seq<Vec>, gipa: GipaProof)
    ensures WellShaped(pvk, inputs, gipa) <==>
      && ParsingCheck(gipa) && |inputs| == gipa.nproofs
      && !(exists j :: 0 <= j < |inputs| && |inputs[j]| + 1 != |pvk.ic|)
    ensures WellShaped(pvk, inputs, gipa) ==> inputs != []
  {
    ParsingExact(gipa);
  }

  /**
   * An honest aggregate of any proofs, valid or not, is accepted for all coins exactly when the first
   * challenge is not one and the defects of the proofs, weighted by its powers, cancel.
   */
  lemma HonestAcceptedExactly(srs: ProverSrs, vsrs: VerifierSrs, g: F, h: F, alpha: F, beta: F, pvk: VerifyingKey,
                              proofs: seq<Proof>, inputs: seq<Vec>, oracle: Oracle, log: seq<Entry>, agg: AggregateProof)
    requires ProverKeys(srs, |proofs|, g, h, alpha, beta) && VerifierKeys(vsrs, |proofs|, g, h, alpha, beta)
    requires Honest(srs, oracle, log, proofs, agg) && |inputs| == |proofs| <= MAX_SRS_SIZE
    requires forall j :: 0 <= j < |inputs| ==> |inputs[j]| + 1 == |pvk.ic|
    ensures var r := oracle(CommitmentLog(log, agg.comAB, agg.comC));
      (forall coins: Coins :: VerdictOf(vsrs, pvk, inputs, agg, coins, oracle, log) == Accepted)
        <==> r != ONE && InnerProduct(Powers(ONE, r, |proofs|), Defects(pvk, proofs, inputs)) == ZERO
  {
    hide TippMippChecks, ArgumentHolds, CombinedEquation, VerdictOf, InnerProduct, HonestTippMipp, Start, Powers, Defects,
      ParsingCheck, AllSatisfied;
    var rLog := CommitmentLog(log, agg.comAB, agg.comC);
    var r := oracle(rLog);
    HonestParses(srs, oracle, log, proofs, agg);
    ParsedLengths(agg.tmipp.gipa);
    ShapeExact(pvk, inputs, agg.tmipp.gipa);
    TippMippChecksHold(srs, vsrs, g, h, alpha, beta, proofs, oracle, log, agg, OneCoins());
    ArgumentChecksMeaning(vsrs, agg, r, oracle, rLog, OneCoins());
    StartUnscaled(srs, proofs, r);
    DefectsCancel(pvk, proofs, inputs, r, agg.ipAB, agg.aggC);
    AcceptedExactly(vsrs, pvk, inputs, agg, oracle, log);
  }

  /** Which verdict is given for which reason, for any coins. */
  lemma VerdictReasons(srs: VerifierSrs, pvk: VerifyingKey, inputs: seq<Vec>, agg: AggregateProof, coins: Coins,
                       oracle: Oracle, log: seq<Entry>)
    ensures var v, gipa := VerdictOf(srs, pvk, inputs, agg, coins, oracle, log), agg.tmipp.gipa;
      && ((v == Rejected(MalformedVerifyingKey)) <==>
           (CountsFit(gipa) && exists j :: 0 <= j < |inputs| && |inputs[j]| + 1 != |pvk.ic|))
      && ((v == Panicked) <==> (WellShaped(pvk, inputs, gipa) && oracle(CommitmentLog(log, agg.comAB, agg.comC)) == ONE))
      && (v.Rejected? ==> v.error == MalformedVerifyingKey || v.error == InvalidProof)
  {
    hide TippMippChecks, GrothCheck, Total, Pow2, ParsingCheck, WellShaped, CommitmentLog;
    ParsingExact(agg.tmipp.gipa);
    ShapeExact(pvk, inputs, agg.tmipp.gipa);
  }
}
