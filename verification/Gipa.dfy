/**
 * Gipa: the folding argument for the pairing product of A and B and the combination of C.
 *
 * Group elements are written by their exponents: a pairing is a product, a product in the target
 * group a sum, and a power a multiple.
 */
module Gipa {
  import opened ScalarField
  import opened Polynomials
  import opened Indices
  import opened RootsOfUnity
  import opened InnerProducts
  import opened Transcripts

  // ----- commitments

  datatype Output = Output(t: F, u: F)

  /** A commitment key: two vectors of powers. */
  datatype Key = Key(a: Vec, b: Vec) {
    predicate HasLength(n: nat) {
      |a| == n && |b| == n
    }

    function Compress(c: F): Key
      requires |a| % 2 == 0 && |b| % 2 == 0
    {
      Key(Fold(a, c), Fold(b, c))
    }

    function Scale(s: Vec): Key
      requires HasLength(|s|)
    {
      Key(VMul(a, s), VMul(b, s))
    }
  }

  function SingleG1(vkey: Key, a: Vec): Output
    requires vkey.HasLength(|a|)
  {
    Output(InnerProduct(a, vkey.a), InnerProduct(a, vkey.b))
  }

  function Pair(vkey: Key, wkey: Key, a: Vec, b: Vec): Output
    requires vkey.HasLength(|a|) && wkey.HasLength(|b|)
  {
    Output(Add(InnerProduct(a, vkey.a), InnerProduct(wkey.a, b)),
           Add(InnerProduct(a, vkey.b), InnerProduct(wkey.b, b)))
  }

  // ----- states and cross terms

  /** The vectors of the recursion. */
  datatype State = State(a: Vec, b: Vec, c: Vec, r: Vec, vkey: Key, wkey: Key) {
    predicate HasLength(n: nat) {
      |a| == n && |b| == n && |c| == n && |r| == n && vkey.HasLength(n) && wkey.HasLength(n)
    }

    function Next(x: F, xInv: F): State
      requires HasLength(|a|) && |a| % 2 == 0
    {
      State(Fold(a, x), Fold(b, xInv), Fold(c, x), Fold(r, xInv), vkey.Compress(xInv), wkey.Compress(x))
    }
  }

  /** The cross terms of one round. */
  datatype Round = Round(tabL: Output, tabR: Output, tucL: Output, tucR: Output, zabL: F, zabR: F, zcL: F, zcR: F)

  function KeyLeft(k: Key, h: nat): Key
    requires h <= |k.a| && h <= |k.b|
  {
    Key(k.a[..h], k.b[..h])
  }

  function KeyRight(k: Key, h: nat): Key
    requires h <= |k.a| && h <= |k.b|
  {
    Key(k.a[h..], k.b[h..])
  }

  function Cross(st: State): Round
    requires st.HasLength(|st.a|) && |st.a| % 2 == 0
  {
    var h := |st.a| / 2;
    var al, ar, bl, br := st.a[..h], st.a[h..], st.b[..h], st.b[h..];
    var cl, cr, rl, rr := st.c[..h], st.c[h..], st.r[..h], st.r[h..];
    var vl, vr, wl, wr := KeyLeft(st.vkey, h), KeyRight(st.vkey, h), KeyLeft(st.wkey, h), KeyRight(st.wkey, h);
    Round(Pair(vl, wr, ar, bl), Pair(vr, wl, al, br), SingleG1(vl, cr), SingleG1(vr, cl),
          InnerProduct(ar, bl), InnerProduct(al, br), InnerProduct(cr, rl), InnerProduct(cl, rr))
  }

  // ----- what the verifier keeps

  datatype Tuz = Tuz(tab: F, uab: F, zab: F, tc: F, uc: F, zc: F) {
    function Merge(o: Tuz): Tuz {
      Tuz(Add(tab, o.tab), Add(uab, o.uab), Add(zab, o.zab), Add(tc, o.tc), Add(uc, o.uc), Add(zc, o.zc))
    }
  }

  const NEUTRAL: Tuz := Tuz(ZERO, ZERO, ZERO, ZERO, ZERO, ZERO)

  function Mix(l: F, r: F, x: F, xInv: F): F {
    Add(Mul(x, l), Mul(xInv, r))
  }

  /** Left terms times the challenge, right terms times its inverse. */
  function RoundTuz(rd: Round, x: F, xInv: F): Tuz {
    Tuz(Mix(rd.tabL.t, rd.tabR.t, x, xInv), Mix(rd.tabL.u, rd.tabR.u, x, xInv), Mix(rd.zabL, rd.zabR, x, xInv),
        Mix(rd.tucL.t, rd.tucR.t, x, xInv), Mix(rd.tucL.u, rd.tucR.u, x, xInv), Mix(rd.zcL, rd.zcR, x, xInv))
  }

  /** The commitments and inner products of a state. */
  function Committed(st: State): Tuz
    requires st.HasLength(|st.a|)
  {
    var ab, c := Pair(st.vkey, st.wkey, st.a, st.b), SingleG1(st.vkey, st.c);
    Tuz(ab.t, ab.u, InnerProduct(st.a, st.b), c.t, c.u, InnerProduct(st.c, st.r))
  }

  /** (p + q) + (p' + q') with the cross terms gathered by challenge. */
  lemma MixSum(p: F, q: F, pl: F, pr: F, ql: F, qr: F, x: F, xInv: F)
    ensures Add(Add(p, Mix(pl, pr, x, xInv)), Add(q, Mix(ql, qr, x, xInv)))
         == Add(Add(p, q), Mix(Add(pl, ql), Add(pr, qr), x, xInv))
  {
    AddSwap(p, Mix(pl, pr, x, xInv), q, Mix(ql, qr, x, xInv));
    AddSwap(Mul(x, pl), Mul(xInv, pr), Mul(x, ql), Mul(xInv, qr));
    Distrib(x, pl, ql);
    Distrib(xInv, pr, qr);
  }

  /** Folding a state adds exactly the mixed cross terms to what is committed. */
  lemma FoldCommitted(st: State, x: F, xInv: F)
    requires st.HasLength(|st.a|) && |st.a| % 2 == 0 && Mul(x, xInv) == ONE
    ensures Committed(st.Next(x, xInv)) == Committed(st).Merge(RoundTuz(Cross(st), x, xInv))
  {
    var h := |st.a| / 2;
    hide InnerProduct, Fold;
    InnerFold(st.a, st.vkey.a, x, xInv);
    InnerFold(st.a, st.vkey.b, x, xInv);
    InnerFold(st.wkey.a, st.b, x, xInv);
    InnerFold(st.wkey.b, st.b, x, xInv);
    InnerFold(st.a, st.b, x, xInv);
    InnerFold(st.c, st.vkey.a, x, xInv);
    InnerFold(st.c, st.vkey.b, x, xInv);
    InnerFold(st.c, st.r, x, xInv);
    MixSum(InnerProduct(st.a, st.vkey.a), InnerProduct(st.wkey.a, st.b),
           InnerProduct(st.a[h..], st.vkey.a[..h]), InnerProduct(st.a[..h], st.vkey.a[h..]),
           InnerProduct(st.wkey.a[h..], st.b[..h]), InnerProduct(st.wkey.a[..h], st.b[h..]), x, xInv);
    MixSum(InnerProduct(st.a, st.vkey.b), InnerProduct(st.wkey.b, st.b),
           InnerProduct(st.a[h..], st.vkey.b[..h]), InnerProduct(st.a[..h], st.vkey.b[h..]),
           InnerProduct(st.wkey.b[h..], st.b[..h]), InnerProduct(st.wkey.b[..h], st.b[h..]), x, xInv);
  }

  // ----- challenges

  /** The log once the first challenge has been drawn. */
  function FirstLog(log: seq<Entry>, ipAB: F, aggC: F): seq<Entry> {
    log + [Append("inner-product-ab", [ipAB])] + [Append("comm-c", [aggC])] + [Draw("first-challenge")]
  }

  function RoundLog(log: seq<Entry>, xInv: F, rd: Round): seq<Entry> {
    log + [Append("c_inv", [xInv])]
      + [Append("zab_l", [rd.zabL])] + [Append("zab_r", [rd.zabR])]
      + [Append("zc_l", [rd.zcL])] + [Append("zc_r", [rd.zcR])]
      + [Append("tab_l", [rd.tabL.t, rd.tabL.u])] + [Append("tab_r", [rd.tabR.t, rd.tabR.u])]
      + [Append("tuc_l", [rd.tucL.t, rd.tucL.u])] + [Append("tuc_r", [rd.tucR.t, rd.tucR.u])]
      + [Draw("challenge_i")]
  }

  /** The log after the challenge of the last round; the first round uses the first challenge. */
  function LogAfter(oracle: Oracle, first: seq<Entry>, rounds: seq<Round>): seq<Entry> {
    if |rounds| <= 1 then first
    else
      var before := LogAfter(oracle, first, rounds[..|rounds| - 1]);
      RoundLog(before, oracle(before), rounds[|rounds| - 1])
  }

  /** The inverse challenges, one a round. */
  function Inverses(oracle: Oracle, first: seq<Entry>, rounds: seq<Round>): (r: Vec)
    ensures |r| == |rounds|
    ensures forall i :: 0 <= i < |r| ==> r[i] != ZERO
  {
    if rounds == [] then []
    else Inverses(oracle, first, rounds[..|rounds| - 1]) + [oracle(LogAfter(oracle, first, rounds))]
  }

  function InvAll(v: Vec): (r: Vec)
    ensures |r| == |v|
  {
    seq(|v|, i requires 0 <= i < |v| => Inv(v[i]))
  }

  /** What the verifier has after replaying the rounds. */
  function Accumulated(base: Tuz, rounds: seq<Round>, xInvs: Vec): Tuz
    requires |rounds| == |xInvs|
  {
    if rounds == [] then base
    else
      var n := |rounds| - 1;
      Accumulated(base, rounds[..n], xInvs[..n]).Merge(RoundTuz(rounds[n], Inv(xInvs[n]), xInvs[n]))
  }

  // ----- folding through many rounds

  /** The length of a vector of length n after up to k halvings. */
  function FoldedLength(n: nat, k: nat): nat {
    if k == 0 || n % 2 == 1 then n else FoldedLength(n / 2, k - 1)
  }

  /** Folds with each scalar in turn, as long as the length is even. */
  function FoldAll(v: Vec, cs: Vec): (r: Vec)
    ensures |r| == FoldedLength(|v|, |cs|)
    decreases |cs|
  {
    if cs == [] || |v| % 2 == 1 then v else FoldAll(Fold(v, cs[0]), cs[1..])
  }

  lemma {:induction false} FoldAllSnoc(v: Vec, cs: Vec, c: F)
    requires |FoldAll(v, cs)| % 2 == 0
    ensures FoldAll(v, cs + [c]) == Fold(FoldAll(v, cs), c)
    decreases |cs|
  {
    if cs == [] {
      assert cs + [c] == [c];
      assert FoldAll(Fold(v, c), [c][1..]) == Fold(v, c);
    } else {
      assert (cs + [c])[1..] == cs[1..] + [c] && (cs + [c])[0] == cs[0];
      FoldAllSnoc(Fold(v, cs[0]), cs[1..], c);
    }
  }

  /** The state reached from st with the given inverse challenges. */
  function FoldState(st: State, xInvs: Vec): (r: State)
    requires st.HasLength(|st.a|)
    ensures r.HasLength(|r.a|) && |r.a| == FoldedLength(|st.a|, |xInvs|)
  {
    var xs := InvAll(xInvs);
    State(FoldAll(st.a, xs), FoldAll(st.b, xInvs), FoldAll(st.c, xs), FoldAll(st.r, xInvs),
          Key(FoldAll(st.vkey.a, xInvs), FoldAll(st.vkey.b, xInvs)), Key(FoldAll(st.wkey.a, xs), FoldAll(st.wkey.b, xs)))
  }

  lemma FoldStateSnoc(st: State, xInvs: Vec, xInv: F)
    requires st.HasLength(|st.a|) && |FoldState(st, xInvs).a| % 2 == 0
    ensures FoldState(st, xInvs + [xInv]) == FoldState(st, xInvs).Next(Inv(xInv), xInv)
  {
    hide FoldAll, Fold;
    var xs := InvAll(xInvs);
    assert InvAll(xInvs + [xInv]) == xs + [Inv(xInv)];
    FoldAllSnoc(st.a, xs, Inv(xInv));
    FoldAllSnoc(st.b, xInvs, xInv);
    FoldAllSnoc(st.c, xs, Inv(xInv));
    FoldAllSnoc(st.r, xInvs, xInv);
    FoldAllSnoc(st.vkey.a, xInvs, xInv);
    FoldAllSnoc(st.vkey.b, xInvs, xInv);
    FoldAllSnoc(st.wkey.a, xs, Inv(xInv));
    FoldAllSnoc(st.wkey.b, xs, Inv(xInv));
  }

  // ----- the prover

  datatype GipaProof = GipaProof(nproofs: nat, commsAB: seq<(Output, Output)>, commsC: seq<(Output, Output)>,
                                 zAB: seq<(F, F)>, zC: seq<(F, F)>, finalA: F, finalB: F, finalC: F,
                                 finalVkey: (F, F), finalWkey: (F, F)) {
    predicate SameLengths() {
      |commsAB| == |commsC| == |zAB| == |zC|
    }

    function Rounds(): (r: seq<Round>)
      requires SameLengths()
      ensures |r| == |zAB|
    {
      Zip(commsAB, commsC, zAB, zC)
    }
  }

  function Zip(commsAB: seq<(Output, Output)>, commsC: seq<(Output, Output)>, zAB: seq<(F, F)>, zC: seq<(F, F)>)
    : (r: seq<Round>)
    requires |commsAB| == |commsC| == |zAB| == |zC|
    ensures |r| == |zAB|
  {
    seq(|zAB|, i requires 0 <= i < |zAB| =>
      Round(commsAB[i].0, commsAB[i].1, commsC[i].0, commsC[i].1, zAB[i].0, zAB[i].1, zC[i].0, zC[i].1))
  }

  /** Rewrites the left half and shrinks the vector to it. */
  method Compress(vec: Vec, split: nat, scaler: F) returns (v: Vec)
    requires |vec| == 2 * split
    ensures v == Fold(vec, scaler)
  {
    v := vec;
    for i := 0 to split
      invariant |v| == |vec|
      invariant forall k :: 0 <= k < i ==> v[k] == Add(vec[k], Mul(scaler, vec[k + split]))
      invariant forall k :: i <= k < |vec| ==> v[k] == vec[k]
    {
      AddComm(vec[i], Mul(scaler, vec[i + split]));
      v := v[i := Add(Mul(scaler, v[i + split]), v[i])];
    }
    v := v[..split];
  }

  /** Scales the right half, adds it to the left half and shrinks the vector to that. */
  method CompressScalars(vec: Vec, split: nat, scaler: F) returns (v: Vec)
    requires |vec| == 2 * split
    ensures v == Fold(vec, scaler)
  {
    v := vec;
    for i := 0 to split
      invariant |v| == |vec|
      invariant forall k :: 0 <= k < i ==> v[k] == Add(vec[k], Mul(scaler, vec[k + split]))
      invariant forall k :: i <= k < split ==> v[k] == vec[k]
      invariant forall k :: split + i <= k < |vec| ==> v[k] == vec[k]
    {
      MulComm(scaler, vec[i + split]);
      v := v[i + split := Mul(v[i + split], scaler)];
      v := v[i := Add(v[i], v[i + split])];
    }
    v := v[..split];
  }

  /** The cross terms of the two halves, in the order the prover computes them. */
  method CrossTerms(mA: Vec, mB: Vec, mC: Vec, mR: Vec, vkey: Key, wkey: Key, split: nat) returns (rd: Round)
    requires State(mA, mB, mC, mR, vkey, wkey).HasLength(2 * split)
    ensures rd == Cross(State(mA, mB, mC, mR, vkey, wkey))
  {
    hide InnerProduct;
    var vkLeft, vkRight := KeyLeft(vkey, split), KeyRight(vkey, split);
    var wkLeft, wkRight := KeyLeft(wkey, split), KeyRight(wkey, split);
    var tabL := Pair(vkLeft, wkRight, mA[split..], mB[..split]);
    var tabR := Pair(vkRight, wkLeft, mA[..split], mB[split..]);
    var zabL := InnerProduct(mA[split..], mB[..split]);
    var zabR := InnerProduct(mA[..split], mB[split..]);
    var zcL := InnerProduct(mC[split..], mR[..split]);
    var zcR := InnerProduct(mC[..split], mR[split..]);
    var tucL := SingleG1(vkLeft, mC[split..]);
    var tucR := SingleG1(vkRight, mC[..split]);
    rd := Round(tabL, tabR, tucL, tucR, zabL, zabR, zcL, zcR);
  }

  /** Records the cross terms after the last inverse challenge and draws the next one. */
  method RoundChallenge(tr: Transcript, last: F, rd: Round) returns (cInv: F)
    modifies tr`log
    ensures tr.log == RoundLog(old(tr.log), last, rd)
    ensures cInv == tr.oracle(tr.log) && cInv != ZERO
  {
    tr.AppendValues("c_inv", [last]);
    tr.AppendValues("zab_l", [rd.zabL]);
    tr.AppendValues("zab_r", [rd.zabR]);
    tr.AppendValues("zc_l", [rd.zcL]);
    tr.AppendValues("zc_r", [rd.zcR]);
    tr.AppendValues("tab_l", [rd.tabL.t, rd.tabL.u]);
    tr.AppendValues("tab_r", [rd.tabR.t, rd.tabR.u]);
    tr.AppendValues("tuc_l", [rd.tucL.t, rd.tucL.u]);
    tr.AppendValues("tuc_r", [rd.tucR.t, rd.tucR.u]);
    cInv := tr.ChallengeScalar("challenge_i");
  }

  /** The recursion: halves every vector with one challenge until one element is left. */
  method GipaTippMipp(tr: Transcript, st: State, ipAB: F, aggC: F)
    returns (proof: GipaProof, challenges: Vec, challengesInv: Vec)
    requires st.HasLength(|st.a|) && IsPow2(|st.a|)
    modifies tr`log
    ensures proof.SameLengths() && proof.nproofs == |st.a| % 0x1_0000_0000 && |st.a| == Pow2(|proof.zAB|)
    ensures tr.log == LogAfter(tr.oracle, FirstLog(old(tr.log), ipAB, aggC), proof.Rounds())
    ensures challengesInv == Inverses(tr.oracle, FirstLog(old(tr.log), ipAB, aggC), proof.Rounds())
    ensures challenges == InvAll(challengesInv)
    ensures Opened(st, challengesInv, proof)
  {
    hide FoldState, Committed, Accumulated, Fold, Zip, InvAll, Inverses, LogAfter, Cross, Pow2, RoundLog;
    NoRounds(tr.oracle, FirstLog(tr.log, ipAB, aggC), st);
    var mA, mB, mC, mR, vkey, wkey := st.a, st.b, st.c, st.r, st.vkey, st.wkey;
    var commsAB, commsC, zAB, zC := [], [], [], [];
    challenges, challengesInv := [], [];
    tr.AppendValues("inner-product-ab", [ipAB]);
    tr.AppendValues("comm-c", [aggC]);
    var cInv := tr.ChallengeScalar("first-challenge");
    var c := Inv(cInv);
    ghost var first := tr.log;
    assert first == FirstLog(old(tr.log), ipAB, aggC);
    while |mA| > 1
      invariant |commsAB| == |commsC| == |zAB| == |zC| == |challengesInv|
      invariant State(mA, mB, mC, mR, vkey, wkey) == FoldState(st, challengesInv)
      invariant IsPow2(|mA|) && |mA| * Pow2(|zAB|) == |st.a|
      invariant challenges == InvAll(challengesInv)
      invariant tr.log == LogAfter(tr.oracle, first, Zip(commsAB, commsC, zAB, zC))
      invariant challengesInv == Inverses(tr.oracle, first, Zip(commsAB, commsC, zAB, zC))
      invariant cInv == tr.oracle(tr.log) && c == Inv(cInv)
      invariant Committed(FoldState(st, challengesInv))
             == Accumulated(Committed(st), Zip(commsAB, commsC, zAB, zC), challengesInv)
      decreases |mA|
    {
      var split := |mA| / 2;
      var rd := CrossTerms(mA, mB, mC, mR, vkey, wkey, split);
      ghost var rounds := Zip(commsAB, commsC, zAB, zC);
      if challengesInv != [] {
        cInv := RoundChallenge(tr, cInv, rd);
        c := Inv(cInv);
      }
      mA := Compress(mA, split, c);
      mB := Compress(mB, split, cInv);
      mC := Compress(mC, split, c);
      mR := CompressScalars(mR, split, cInv);
      vkey := vkey.Compress(cInv);
      wkey := wkey.Compress(c);
      ZipSnoc(commsAB, commsC, zAB, zC, rd);
      HalfOf(|FoldState(st, challengesInv).a|, |zAB|);
      commsAB, commsC := commsAB + [(rd.tabL, rd.tabR)], commsC + [(rd.tucL, rd.tucR)];
      zAB, zC := zAB + [(rd.zabL, rd.zabR)], zC + [(rd.zcL, rd.zcR)];
      LogSnoc(tr.oracle, first, rounds, challengesInv, rd, cInv);
      RoundAdds(st, rounds, challengesInv, rd, cInv);
      challenges, challengesInv := challenges + [c], challengesInv + [cInv];
    }
    proof := GipaProof(|st.a| % 0x1_0000_0000, commsAB, commsC, zAB, zC, mA[0], mB[0], mC[0],
                       (vkey.a[0], vkey.b[0]), (wkey.a[0], wkey.b[0]));
  }

  /** The proof holds the values of the fully folded state, whose commitments the rounds account for. */
  ghost predicate Opened(st: State, xInvs: Vec, proof: GipaProof)
    requires st.HasLength(|st.a|) && proof.SameLengths() && |proof.zAB| == |xInvs|
  {
    && FoldState(st, xInvs)
       == State([proof.finalA], [proof.finalB], [proof.finalC], FoldState(st, xInvs).r,
                Key([proof.finalVkey.0], [proof.finalVkey.1]), Key([proof.finalWkey.0], [proof.finalWkey.1]))
    && Committed(FoldState(st, xInvs)) == Accumulated(Committed(st), proof.Rounds(), xInvs)
  }

  lemma NoRounds(oracle: Oracle, first: seq<Entry>, st: State)
    requires st.HasLength(|st.a|)
    ensures Zip([], [], [], []) == [] && InvAll([]) == [] && FoldState(st, []) == st
    ensures LogAfter(oracle, first, []) == first && Inverses(oracle, first, []) == []
    ensures Accumulated(Committed(st), [], []) == Committed(st)
    ensures |st.a| * Pow2(0) == |st.a|
  {
    hide Committed;
  }

  lemma ZipSnoc(commsAB: seq<(Output, Output)>, commsC: seq<(Output, Output)>, zAB: seq<(F, F)>, zC: seq<(F, F)>,
                rd: Round)
    requires |commsAB| == |commsC| == |zAB| == |zC|
    ensures Zip(commsAB + [(rd.tabL, rd.tabR)], commsC + [(rd.tucL, rd.tucR)],
                zAB + [(rd.zabL, rd.zabR)], zC + [(rd.zcL, rd.zcR)]) == Zip(commsAB, commsC, zAB, zC) + [rd]
  {
  }

  lemma HalfOf(m: nat, k: nat)
    requires m % 2 == 0
    ensures m / 2 * Pow2(k + 1) == m * Pow2(k)
  {
    var h := m / 2;
    assert h * (2 * Pow2(k)) == 2 * h * Pow2(k);
  }

  lemma LogSnoc(oracle: Oracle, first: seq<Entry>, rounds: seq<Round>, xInvs: Vec, rd: Round, xInv: F)
    ensures LogAfter(oracle, first, rounds + [rd])
         == if rounds == [] then first
            else RoundLog(LogAfter(oracle, first, rounds), oracle(LogAfter(oracle, first, rounds)), rd)
    ensures Inverses(oracle, first, rounds + [rd])
         == Inverses(oracle, first, rounds) + [oracle(LogAfter(oracle, first, rounds + [rd]))]
    ensures InvAll(xInvs + [xInv]) == InvAll(xInvs) + [Inv(xInv)]
  {
    assert (rounds + [rd])[..|rounds|] == rounds;
  }

  lemma RoundAdds(st: State, rounds: seq<Round>, xInvs: Vec, rd: Round, xInv: F)
    requires st.HasLength(|st.a|) && |FoldState(st, xInvs).a| % 2 == 0 && |rounds| == |xInvs| && xInv != ZERO
    requires rd == Cross(FoldState(st, xInvs))
    requires Committed(FoldState(st, xInvs)) == Accumulated(Committed(st), rounds, xInvs)
    ensures FoldState(st, xInvs + [xInv]) == FoldState(st, xInvs).Next(Inv(xInv), xInv)
    ensures Committed(FoldState(st, xInvs + [xInv])) == Accumulated(Committed(st), rounds + [rd], xInvs + [xInv])
  {
    hide FoldState, Committed, Cross, RoundTuz, LogAfter, Inverses;
    var n := |rounds|;
    assert (rounds + [rd])[..n] == rounds && (xInvs + [xInv])[..n] == xInvs;
    FoldStateSnoc(st, xInvs, xInv);
    MulInv(xInv);
    FoldCommitted(FoldState(st, xInvs), Inv(xInv), xInv);
  }
}
