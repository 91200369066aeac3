/**
 * GipaVerifier: replays the challenges from the cross terms and accumulates the commitments.
 */
module GipaVerifier {
  import opened ScalarField
  import opened Polynomials
  import opened InnerProducts
  import opened RootsOfUnity
  import opened Transcripts
  import opened Gipa
  import opened ProductForms

  // ----- the accumulation, operation by operation

  /** One power of one cross term, to be multiplied into the matching component. */
  datatype Op =
    | TAB(tx: F, c: F) | UAB(ux: F, c: F) | ZAB(zx: F, c: F)
    | TC(tx: F, c: F) | UC(ux: F, c: F) | ZC(zx: F, c: F)

  function Apply(res: Tuz, op: Op): Tuz {
    match op
    case TAB(tx, c) => res.(tab := Add(res.tab, Mul(c, tx)))
    case UAB(ux, c) => res.(uab := Add(res.uab, Mul(c, ux)))
    case ZAB(zx, c) => res.(zab := Add(res.zab, Mul(c, zx)))
    case TC(tx, c) => res.(tc := Add(res.tc, Mul(c, tx)))
    case UC(ux, c) => res.(uc := Add(res.uc, Mul(c, ux)))
    case ZC(zx, c) => res.(zc := Add(res.zc, Mul(c, zx)))
  }

  function FoldOps(acc: Tuz, ops: seq<Op>): Tuz {
    if ops == [] then acc else Apply(FoldOps(acc, ops[..|ops| - 1]), ops[|ops| - 1])
  }

  /** Left terms go with the challenge, right terms with its inverse. */
  function RoundOps(rd: Round, c: F, cInv: F): (r: seq<Op>)
    ensures |r| == 12
  {
    [TAB(rd.tabL.t, c), TAB(rd.tabR.t, cInv), UAB(rd.tabL.u, c), UAB(rd.tabR.u, cInv),
     ZAB(rd.zabL, c), ZAB(rd.zabR, cInv), TC(rd.tucL.t, c), TC(rd.tucR.t, cInv),
     UC(rd.tucL.u, c), UC(rd.tucR.u, cInv), ZC(rd.zcL, c), ZC(rd.zcR, cInv)]
  }

  function AllOps(rounds: seq<Round>, xInvs: Vec): seq<Op>
    requires |rounds| == |xInvs|
  {
    if rounds == [] then []
    else
      var n := |rounds| - 1;
      AllOps(rounds[..n], xInvs[..n]) + RoundOps(rounds[n], Inv(xInvs[n]), xInvs[n])
  }

  lemma MergeAssoc(p: Tuz, q: Tuz, r: Tuz)
    ensures p.Merge(q).Merge(r) == p.Merge(q.Merge(r))
  {
    AddAssoc(p.tab, q.tab, r.tab);
    AddAssoc(p.uab, q.uab, r.uab);
    AddAssoc(p.zab, q.zab, r.zab);
    AddAssoc(p.tc, q.tc, r.tc);
    AddAssoc(p.uc, q.uc, r.uc);
    AddAssoc(p.zc, q.zc, r.zc);
  }

  lemma MergeNeutral(p: Tuz)
    ensures p.Merge(NEUTRAL) == p && NEUTRAL.Merge(p) == p
  {
    AddZero(p.tab);
    AddZero(p.uab);
    AddZero(p.zab);
    AddZero(p.tc);
    AddZero(p.uc);
    AddZero(p.zc);
  }

  /** An operation is a merge with a value that is neutral but for one component. */
  lemma ApplyMerges(acc: Tuz, op: Op)
    ensures Apply(acc, op) == acc.Merge(Apply(NEUTRAL, op))
  {
    MergeNeutral(acc);
    match op
    case TAB(tx, c) => AddZero(Mul(c, tx));
    case UAB(ux, c) => AddZero(Mul(c, ux));
    case ZAB(zx, c) => AddZero(Mul(c, zx));
    case TC(tx, c) => AddZero(Mul(c, tx));
    case UC(ux, c) => AddZero(Mul(c, ux));
    case ZC(zx, c) => AddZero(Mul(c, zx));
  }

  lemma {:induction false} FoldOpsConcat(acc: Tuz, a: seq<Op>, b: seq<Op>)
    ensures FoldOps(acc, a + b) == FoldOps(acc, a).Merge(FoldOps(NEUTRAL, b))
    decreases |b|
  {
    hide Apply;
    if b == [] {
      assert a + b == a;
      MergeNeutral(FoldOps(acc, a));
    } else {
      var n := |b| - 1;
      assert (a + b)[..|a| + n] == a + b[..n];
      FoldOpsConcat(acc, a, b[..n]);
      var mid := FoldOps(NEUTRAL, b[..n]);
      ApplyMerges(FoldOps(acc, a + b[..n]), b[n]);
      ApplyMerges(mid, b[n]);
      MergeAssoc(FoldOps(acc, a), mid, Apply(NEUTRAL, b[n]));
    }
  }

  /** How a parallel fold and reduce may split the operations. */
  datatype Split = Chunk(ops: seq<Op>) | Join(left: Split, right: Split)

  function Operations(s: Split): seq<Op> {
    match s
    case Chunk(ops) => ops
    case Join(l, r) => Operations(l) + Operations(r)
  }

  function Reduce(s: Split): Tuz {
    match s
    case Chunk(ops) => FoldOps(NEUTRAL, ops)
    case Join(l, r) => Reduce(l).Merge(Reduce(r))
  }

  /** Every way of splitting the work gives the sequential result. */
  lemma {:induction false} ReduceAnySplit(s: Split)
    ensures Reduce(s) == FoldOps(NEUTRAL, Operations(s))
  {
    match s
    case Chunk(_) =>
    case Join(l, r) =>
      ReduceAnySplit(l);
      ReduceAnySplit(r);
      FoldOpsConcat(NEUTRAL, Operations(l), Operations(r));
  }

  lemma FoldTwo(x: Op, y: Op)
    ensures FoldOps(NEUTRAL, [x, y]) == Apply(Apply(NEUTRAL, x), y)
  {
    assert [x, y][..1] == [x] && [x][..0] == [];
    assert FoldOps(NEUTRAL, [x]) == Apply(NEUTRAL, x);
  }

  lemma PartsAB(l: F, r: F, c: F, cInv: F)
    ensures FoldOps(NEUTRAL, [TAB(l, c), TAB(r, cInv)]) == Tuz(Mix(l, r, c, cInv), ZERO, ZERO, ZERO, ZERO, ZERO)
    ensures FoldOps(NEUTRAL, [UAB(l, c), UAB(r, cInv)]) == Tuz(ZERO, Mix(l, r, c, cInv), ZERO, ZERO, ZERO, ZERO)
    ensures FoldOps(NEUTRAL, [ZAB(l, c), ZAB(r, cInv)]) == Tuz(ZERO, ZERO, Mix(l, r, c, cInv), ZERO, ZERO, ZERO)
  {
    hide FoldOps;
    FoldTwo(TAB(l, c), TAB(r, cInv));
    FoldTwo(UAB(l, c), UAB(r, cInv));
    FoldTwo(ZAB(l, c), ZAB(r, cInv));
    AddZero(Mul(c, l));
  }

  lemma PartsC(l: F, r: F, c: F, cInv: F)
    ensures FoldOps(NEUTRAL, [TC(l, c), TC(r, cInv)]) == Tuz(ZERO, ZERO, ZERO, Mix(l, r, c, cInv), ZERO, ZERO)
    ensures FoldOps(NEUTRAL, [UC(l, c), UC(r, cInv)]) == Tuz(ZERO, ZERO, ZERO, ZERO, Mix(l, r, c, cInv), ZERO)
    ensures FoldOps(NEUTRAL, [ZC(l, c), ZC(r, cInv)]) == Tuz(ZERO, ZERO, ZERO, ZERO, ZERO, Mix(l, r, c, cInv))
  {
    hide FoldOps;
    FoldTwo(TC(l, c), TC(r, cInv));
    FoldTwo(UC(l, c), UC(r, cInv));
    FoldTwo(ZC(l, c), ZC(r, cInv));
    AddZero(Mul(c, l));
  }

  lemma FoldRound(rd: Round, c: F, cInv: F)
    ensures FoldOps(NEUTRAL, RoundOps(rd, c, cInv)) == RoundTuz(rd, c, cInv)
  {
    hide FoldOps, Mix;
    var tabs := [TAB(rd.tabL.t, c), TAB(rd.tabR.t, cInv)];
    var uabs := [UAB(rd.tabL.u, c), UAB(rd.tabR.u, cInv)];
    var zabs := [ZAB(rd.zabL, c), ZAB(rd.zabR, cInv)];
    var tcs := [TC(rd.tucL.t, c), TC(rd.tucR.t, cInv)];
    var ucs := [UC(rd.tucL.u, c), UC(rd.tucR.u, cInv)];
    var zcs := [ZC(rd.zcL, c), ZC(rd.zcR, cInv)];
    assert RoundOps(rd, c, cInv) == ((((tabs + uabs) + zabs) + tcs) + ucs) + zcs;
    SixParts(tabs, uabs, zabs, tcs, ucs, zcs);
    PartsAB(rd.tabL.t, rd.tabR.t, c, cInv);
    PartsAB(rd.tabL.u, rd.tabR.u, c, cInv);
    PartsAB(rd.zabL, rd.zabR, c, cInv);
    PartsC(rd.tucL.t, rd.tucR.t, c, cInv);
    PartsC(rd.tucL.u, rd.tucR.u, c, cInv);
    PartsC(rd.zcL, rd.zcR, c, cInv);
    SixComponents(RoundTuz(rd, c, cInv));
  }

  lemma SixComponents(t: Tuz)
    ensures Tuz(t.tab, ZERO, ZERO, ZERO, ZERO, ZERO).Merge(Tuz(ZERO, t.uab, ZERO, ZERO, ZERO, ZERO))
            .Merge(Tuz(ZERO, ZERO, t.zab, ZERO, ZERO, ZERO)).Merge(Tuz(ZERO, ZERO, ZERO, t.tc, ZERO, ZERO))
            .Merge(Tuz(ZERO, ZERO, ZERO, ZERO, t.uc, ZERO)).Merge(Tuz(ZERO, ZERO, ZERO, ZERO, ZERO, t.zc)) == t
  {
    AddZero(ZERO);
    AddZero(t.tab);
    AddZero(t.uab);
    AddZero(t.zab);
    AddZero(t.tc);
    AddZero(t.uc);
    AddZero(t.zc);
  }

  lemma SixParts(p: seq<Op>, q: seq<Op>, r: seq<Op>, s: seq<Op>, t: seq<Op>, u: seq<Op>)
    ensures FoldOps(NEUTRAL, ((((p + q) + r) + s) + t) + u)
         == FoldOps(NEUTRAL, p).Merge(FoldOps(NEUTRAL, q)).Merge(FoldOps(NEUTRAL, r))
            .Merge(FoldOps(NEUTRAL, s)).Merge(FoldOps(NEUTRAL, t)).Merge(FoldOps(NEUTRAL, u))
  {
    hide FoldOps;
    FoldOpsConcat(NEUTRAL, p, q);
    FoldOpsConcat(NEUTRAL, p + q, r);
    FoldOpsConcat(NEUTRAL, (p + q) + r, s);
    FoldOpsConcat(NEUTRAL, ((p + q) + r) + s, t);
    FoldOpsConcat(NEUTRAL, (((p + q) + r) + s) + t, u);
  }

  /** Folding all operations from the neutral value and merging into the base accumulates the rounds. */
  lemma {:induction false} AllOpsAccumulate(base: Tuz, rounds: seq<Round>, xInvs: Vec)
    requires |rounds| == |xInvs|
    ensures base.Merge(FoldOps(NEUTRAL, AllOps(rounds, xInvs))) == Accumulated(base, rounds, xInvs)
    decreases |rounds|
  {
    if rounds == [] {
      MergeNeutral(base);
    } else {
      hide RoundOps, RoundTuz;
      var n := |rounds| - 1;
      var before, last := AllOps(rounds[..n], xInvs[..n]), RoundOps(rounds[n], Inv(xInvs[n]), xInvs[n]);
      AllOpsAccumulate(base, rounds[..n], xInvs[..n]);
      FoldOpsConcat(NEUTRAL, before, last);
      FoldRound(rounds[n], Inv(xInvs[n]), xInvs[n]);
      MergeAssoc(base, FoldOps(NEUTRAL, before), FoldOps(NEUTRAL, last));
    }
  }

  // ----- the verifier

  /** Records one round as it stands in the proof and draws the next inverse challenge. */
  method ReplayRound(tr: Transcript, last: F, commAB: (Output, Output), commC: (Output, Output), zAB: (F, F), zC: (F, F))
    returns (cInv: F)
    modifies tr`log
    ensures tr.log == RoundLog(old(tr.log), last, Round(commAB.0, commAB.1, commC.0, commC.1, zAB.0, zAB.1, zC.0, zC.1))
    ensures cInv == tr.oracle(tr.log)
  {
    var (tabL, tabR) := commAB;
    var (tucL, tucR) := commC;
    tr.AppendValues("c_inv", [last]);
    tr.AppendValues("zab_l", [zAB.0]);
    tr.AppendValues("zab_r", [zAB.1]);
    tr.AppendValues("zc_l", [zC.0]);
    tr.AppendValues("zc_r", [zC.1]);
    tr.AppendValues("tab_l", [tabL.t, tabL.u]);
    tr.AppendValues("tab_r", [tabR.t, tabR.u]);
    tr.AppendValues("tuc_l", [tucL.t, tucL.u]);
    tr.AppendValues("tuc_r", [tucR.t, tucR.u]);
    cInv := tr.ChallengeScalar("challenge_i");
  }

  /** Derives the challenges from the cross terms alone. */
  method ReplayChallenges(tr: Transcript, gipa: GipaProof, ipAB: F, aggC: F)
    returns (challenges: Vec, challengesInv: Vec)
    requires gipa.SameLengths()
    modifies tr`log
    ensures tr.log == LogAfter(tr.oracle, FirstLog(old(tr.log), ipAB, aggC), gipa.Rounds())
    ensures challengesInv == Inverses(tr.oracle, FirstLog(old(tr.log), ipAB, aggC), gipa.Rounds())
    ensures challenges == InvAll(challengesInv)
  {
    hide Inverses, LogAfter, RoundLog, InvAll, Zip;
    challenges, challengesInv := [], [];
    tr.AppendValues("inner-product-ab", [ipAB]);
    tr.AppendValues("comm-c", [aggC]);
    var cInv := tr.ChallengeScalar("first-challenge");
    var c := Inv(cInv);
    ghost var first, rounds := tr.log, gipa.Rounds();
    NoChallenges(tr.oracle, first, rounds);
    for i := 0 to |gipa.zAB|
      invariant challenges == InvAll(challengesInv)
      invariant tr.log == LogAfter(tr.oracle, first, rounds[..i])
      invariant challengesInv == Inverses(tr.oracle, first, rounds[..i])
      invariant cInv == tr.oracle(tr.log) && c == Inv(cInv)
    {
      RoundAt(gipa, i);
      NextChallenge(tr.oracle, first, rounds, i, challengesInv, cInv);
      if i != 0 {
        cInv := ReplayRound(tr, cInv, gipa.commsAB[i], gipa.commsC[i], gipa.zAB[i], gipa.zC[i]);
        c := Inv(cInv);
        NextChallenge(tr.oracle, first, rounds, i, challengesInv, cInv);
      }
      challenges, challengesInv := challenges + [c], challengesInv + [cInv];
    }
    assert rounds[..|gipa.zAB|] == rounds;
  }

  lemma NextChallenge(oracle: Oracle, first: seq<Entry>, rounds: seq<Round>, i: nat, xInvs: Vec, xInv: F)
    requires i < |rounds|
    ensures var before, after := LogAfter(oracle, first, rounds[..i]), LogAfter(oracle, first, rounds[..i + 1]);
      && after == (if i == 0 then first else RoundLog(before, oracle(before), rounds[i]))
      && (i == 0 ==> before == first)
      && Inverses(oracle, first, rounds[..i + 1]) == Inverses(oracle, first, rounds[..i]) + [oracle(after)]
    ensures InvAll(xInvs + [xInv]) == InvAll(xInvs) + [Inv(xInv)]
  {
    hide LogAfter, Inverses, RoundLog, InvAll;
    assert rounds[..i + 1] == rounds[..i] + [rounds[i]];
    LogSnoc(oracle, first, rounds[..i], xInvs, rounds[i], xInv);
    NoChallenges(oracle, first, rounds);
  }

  lemma RoundAt(gipa: GipaProof, i: nat)
    requires gipa.SameLengths() && i < |gipa.zAB|
    ensures gipa.Rounds()[i] == Round(gipa.commsAB[i].0, gipa.commsAB[i].1, gipa.commsC[i].0, gipa.commsC[i].1,
                                      gipa.zAB[i].0, gipa.zAB[i].1, gipa.zC[i].0, gipa.zC[i].1)
  {
  }

  lemma NoChallenges(oracle: Oracle, first: seq<Entry>, rounds: seq<Round>)
    ensures LogAfter(oracle, first, rounds[..0]) == first
    ensures Inverses(oracle, first, rounds[..0]) == [] && InvAll([]) == []
  {
  }

  /** Multiplies every scaled cross term into a neutral value, then merges that into the base. */
  method Accumulate(base: Tuz, rounds: seq<Round>, xInvs: Vec) returns (finalRes: Tuz)
    requires |rounds| == |xInvs|
    ensures finalRes == Accumulated(base, rounds, xInvs)
  {
    hide Accumulated, FoldOps, AllOps, Apply;
    finalRes := base;
    var res := NEUTRAL;
    var ops := AllOps(rounds, xInvs);
    FoldNone();
    for i := 0 to |ops|
      invariant res == FoldOps(NEUTRAL, ops[..i])
    {
      FoldOne(ops, i);
      res := Apply(res, ops[i]);
    }
    assert ops[..|ops|] == ops;
    AllOpsAccumulate(base, rounds, xInvs);
    finalRes := finalRes.Merge(res);
  }

  /** The accumulated values, the folded power of r, and the challenges, latest first. */
  method GipaVerifyTippMipp(tr: Transcript, gipa: GipaProof, comAB: Output, comC: Output, ipAB: F, aggC: F, rShift: F)
    returns (finalRes: Tuz, finalR: F, challenges: Vec, challengesInv: Vec)
    requires gipa.SameLengths() && gipa.zAB != []
    modifies tr`log
    ensures tr.log == LogAfter(tr.oracle, FirstLog(old(tr.log), ipAB, aggC), gipa.Rounds())
    ensures var xInvs := Inverses(tr.oracle, FirstLog(old(tr.log), ipAB, aggC), gipa.Rounds());
      && challengesInv == Reverse(xInvs)
      && challenges == Reverse(InvAll(xInvs))
      && finalRes == Accumulated(Tuz(comAB.t, comAB.u, ipAB, comC.t, comC.u, aggC), gipa.Rounds(), xInvs)
      && finalR == ProductForm(Reverse(xInvs), rShift)
  {
    hide Inverses, LogAfter, Accumulated, InvAll, Zip, ProductForm;
    challenges, challengesInv := ReplayChallenges(tr, gipa, ipAB, aggC);
    finalRes := Accumulate(Tuz(comAB.t, comAB.u, ipAB, comC.t, comC.u, aggC), gipa.Rounds(), challengesInv);
    challenges, challengesInv := Reverse(challenges), Reverse(challengesInv);
    MulOne(rShift);
    finalR := PolynomialEvaluationProductForm(challengesInv, rShift, ONE);
  }

  lemma FoldNone()
    ensures FoldOps(NEUTRAL, []) == NEUTRAL
  {
  }

  lemma FoldOne(ops: seq<Op>, i: nat)
    requires i < |ops|
    ensures FoldOps(NEUTRAL, ops[..i + 1]) == Apply(FoldOps(NEUTRAL, ops[..i]), ops[i])
  {
    assert ops[..i + 1][..i] == ops[..i];
  }

  // ----- completeness

  /** The final vectors of one element satisfy the accumulated equations. */
  lemma AccumulatedMatchesFinal(st: State, xInvs: Vec, proof: GipaProof, comAB: Output, comC: Output, ipAB: F, aggC: F)
    requires st.HasLength(|st.a|) && proof.SameLengths() && |proof.zAB| == |xInvs| && Opened(st, xInvs, proof)
    requires comAB == Pair(st.vkey, st.wkey, st.a, st.b) && comC == SingleG1(st.vkey, st.c)
    requires ipAB == InnerProduct(st.a, st.b) && aggC == InnerProduct(st.c, st.r)
    ensures |FoldState(st, xInvs).r| == 1
    ensures var acc := Accumulated(Tuz(comAB.t, comAB.u, ipAB, comC.t, comC.u, aggC), proof.Rounds(), xInvs);
      && acc.zab == Mul(proof.finalA, proof.finalB)
      && acc.tab == Add(Mul(proof.finalA, proof.finalVkey.0), Mul(proof.finalWkey.0, proof.finalB))
      && acc.uab == Add(Mul(proof.finalA, proof.finalVkey.1), Mul(proof.finalWkey.1, proof.finalB))
      && acc.tc == Mul(proof.finalC, proof.finalVkey.0)
      && acc.uc == Mul(proof.finalC, proof.finalVkey.1)
      && acc.zc == Mul(proof.finalC, FoldState(st, xInvs).r[0])
  {
    hide Accumulated, FoldState, InnerProduct;
    var f := FoldState(st, xInvs);
    assert f.HasLength(1);
    InnerOne(f.a, f.b);
    InnerOne(f.a, f.vkey.a);
    InnerOne(f.a, f.vkey.b);
    InnerOne(f.wkey.a, f.b);
    InnerOne(f.wkey.b, f.b);
    InnerOne(f.c, f.vkey.a);
    InnerOne(f.c, f.vkey.b);
    InnerOne(f.c, f.r);
  }

  lemma InnerOne(x: Vec, y: Vec)
    requires |x| == |y| == 1
    ensures InnerProduct(x, y) == Mul(x[0], y[0])
  {
    var v := [Mul(x[0], y[0])];
    assert VMul(x, y) == v && v[..0] == [];
    assert Sum(v) == Add(Sum([]), v[0]);
    AddZero(Mul(x[0], y[0]));
  }
}
