/**
 * ExtWitness: the quotient of the QAP, computed on shares, against the single-machine references.
 */
module ExtWitness {
  import opened ScalarField
  import opened Polynomials
  import opened Indices
  import opened Fourier
  import opened BitReversal
  import opened DistributedFft
  import opened RootsOfUnity
  import opened Domains
  import opened InnerProducts
  import opened PackedSharing
  import opened SharedVectors
  import opened Linearity
  import opened DegreeReduction
  import opened MpcFft
  import opened Transforms

  // ----- pointwise operations on shares and on secrets

  function MapSub(a: seq<Vec>, b: seq<Vec>): (r: seq<Vec>)
    requires |a| == |b| && forall i :: 0 <= i < |a| ==> |a[i]| == |b[i]|
    ensures |r| == |a| && forall i :: 0 <= i < |a| ==> |r[i]| == |a[i]|
  {
    seq(|a|, i requires 0 <= i < |a| => VSub(a[i], b[i]))
  }

  lemma MapSubIsAdd(a: seq<Vec>, b: seq<Vec>)
    requires |a| == |b| && forall i :: 0 <= i < |a| ==> |a[i]| == |b[i]|
    ensures MapSub(a, b) == MapAdd(a, MapScale(Neg(ONE), b))
  {
    forall i | 0 <= i < |a|
      ensures VSub(a[i], b[i]) == VAdd(a[i], VScale(Neg(ONE), b[i]))
    {
      forall k | 0 <= k < |b[i]|
        ensures Sub(a[i][k], b[i][k]) == Add(a[i][k], Mul(Neg(ONE), b[i][k]))
      {
        NegMul(ONE, b[i][k]);
        MulOne(b[i][k]);
      }
    }
  }

  lemma SubRepresents(pp: Params, a: seq<Vec>, b: seq<Vec>, ra: seq<Vec>, rb: seq<Vec>, size: nat)
    requires Represents(pp, a, ra, size) && Represents(pp, b, rb, size) && |ra| == |rb|
    ensures |a| == |b| && forall i :: 0 <= i < |a| ==> |a[i]| == |b[i]|
    ensures forall e :: 0 <= e < |ra| ==> |ra[e]| == |rb[e]|
    ensures Represents(pp, MapSub(a, b), MapSub(ra, rb), size)
  {
    hide Represents;
    var c := Neg(ONE);
    RepresentsShape(pp, a, ra, size);
    RepresentsShape(pp, b, rb, size);
    ScaleRepresents(pp, c, b, rb, size);
    AddRepresents(pp, a, MapScale(c, b), ra, MapScale(c, rb), size);
    MapSubIsAdd(a, b);
    MapSubIsAdd(ra, rb);
  }

  /** ab - c, entry by entry: on shares what on secrets is the same, at twice the degree. */
  function Combine(a: seq<Vec>, b: seq<Vec>, c: seq<Vec>): (r: seq<Vec>)
    requires |a| == |b| == |c| && forall i :: 0 <= i < |a| ==> |a[i]| == |b[i]| == |c[i]|
    ensures |r| == |a| && forall i :: 0 <= i < |a| ==> |r[i]| == |a[i]|
  {
    MapSub(MapMul(a, b), c)
  }

  lemma CombineRepresents(pp: Params, a: seq<Vec>, b: seq<Vec>, c: seq<Vec>, ra: seq<Vec>, rb: seq<Vec>, rc: seq<Vec>)
    requires pp.Valid() && |ra| == |rb| == |rc|
    requires Represents(pp, a, ra, pp.l + pp.t) && Represents(pp, b, rb, pp.l + pp.t) && Represents(pp, c, rc, pp.l + pp.t)
    ensures |a| == |b| == |c| && forall i :: 0 <= i < |a| ==> |a[i]| == |b[i]| == |c[i]|
    ensures forall e :: 0 <= e < |ra| ==> |ra[e]| == |rb[e]| == |rc[e]|
    ensures Represents(pp, Combine(a, b, c), Combine(ra, rb, rc), pp.ProductSize())
  {
    hide Represents;
    RepresentsShape(pp, a, ra, pp.l + pp.t);
    RepresentsShape(pp, b, rb, pp.l + pp.t);
    RepresentsShape(pp, c, rc, pp.l + pp.t);
    MulRepresents(pp, a, b, ra, rb, pp.l + pp.t);
    RepresentsWeaken(pp, c, rc, pp.l + pp.t, pp.ProductSize());
    SubRepresents(pp, MapMul(a, b), c, MapMul(ra, rb), rc, pp.ProductSize());
  }

  function CombineVec(a: Vec, b: Vec, c: Vec): (r: Vec)
    requires |a| == |b| == |c|
    ensures |r| == |a|
  {
    VSub(VMul(a, b), c)
  }

  /** Reordering three vectors alike reorders what is computed from them pointwise. */
  lemma CombineReversed(a: Vec, b: Vec, c: Vec)
    requires |a| == |b| == |c| && IsPow2(|a|)
    ensures CombineVec(BitReversed(a), BitReversed(b), BitReversed(c)) == BitReversed(CombineVec(a, b, c))
  {
    var n := Log2(|a|);
    forall i | 0 <= i < |a|
      ensures CombineVec(BitReversed(a), BitReversed(b), BitReversed(c))[i] == BitReversed(CombineVec(a, b, c))[i]
    {
      BitReversedAt(a, n, i);
      BitReversedAt(b, n, i);
      BitReversedAt(c, n, i);
      BitReversedAt(CombineVec(a, b, c), n, i);
    }
  }

  lemma CombineStrided(a: Vec, b: Vec, c: Vec, q: nat, l: nat)
    requires |a| == |b| == |c| == l * q
    ensures Combine(StridedRows(a, q, l), StridedRows(b, q, l), StridedRows(c, q, l))
         == StridedRows(CombineVec(a, b, c), q, l)
  {
    forall e | 0 <= e < q
      ensures CombineVec(StridedRow(a, q, l, e), StridedRow(b, q, l, e), StridedRow(c, q, l, e))
           == StridedRow(CombineVec(a, b, c), q, l, e)
    {
      forall j: nat | j < l
        ensures At(j, q, e) < |a|
      {
        AtBound(j, l, q, e);
      }
    }
  }

  lemma CombineChunks(a: Vec, b: Vec, c: Vec, q: nat, l: nat)
    requires |a| == |b| == |c| == q * l
    ensures Combine(Chunks(a, q, l), Chunks(b, q, l), Chunks(c, q, l)) == Chunks(CombineVec(a, b, c), q, l)
  {
    forall e | 0 <= e < q
      ensures CombineVec(BlockAt(a, q, l, e), BlockAt(b, q, l, e), BlockAt(c, q, l, e))
           == BlockAt(CombineVec(a, b, c), q, l, e)
    {
      BlockFits(q, l, e);
    }
  }

  lemma CombineLayout(a: Vec, b: Vec, c: Vec, q: nat, l: nat, rearrange: bool)
    requires |a| == |b| == |c| == q * l == l * q && IsPow2(|a|)
    ensures Combine(Layout(a, q, l, rearrange), Layout(b, q, l, rearrange), Layout(c, q, l, rearrange))
         == Layout(CombineVec(a, b, c), q, l, rearrange)
  {
    hide IsPow2;
    if rearrange {
      CombineReversed(a, b, c);
      CombineStrided(BitReversed(a), BitReversed(b), BitReversed(c), q, l);
    } else {
      CombineChunks(a, b, c, q, l);
    }
  }

  // ----- the shared part of both protocols

  /** The packed shares of one column of the QAP. */
  function Pss(pp: Params, s: Size, x: Vec, rands: seq<Vec>): (r: seq<Vec>)
    requires pp.Valid() && s.Valid() && |x| == s.q * s.l && |rands| == s.q
    ensures Shaped(pp, r, s.q)
  {
    Deal(pp, StridedRows(BitReversed(x), s.q, s.l), rands)
  }

  lemma PssReady(pp: Params, s: Size, x: Vec, rands: seq<Vec>)
    requires pp.Valid() && s.Valid() && s.l == pp.l && |x| == s.q * s.l && Randomness(pp, rands, s.q)
    ensures Ready(pp, Pss(pp, s, x, rands), s, x, pp.ProductSize())
  {
    var rows := StridedRows(BitReversed(x), s.q, s.l);
    DealRepresents(pp, rows, rands);
    RepresentsWeaken(pp, Pss(pp, s, x, rands), rows, pp.l + pp.t, pp.ProductSize());
  }

  /** One column: to coefficients, shifted by the powers of g, and back to values. */
  function ToCoset(pp: Params, s: Size, x: seq<Vec>, back: Run, forth: Run, g: F, rearrange: bool): (r: seq<Vec>)
    requires pp.Valid() && s.Valid() && s.l == pp.l && Shaped(pp, x, s.q)
    requires back.Valid(pp, s) && forth.Valid(pp, s)
    ensures Shaped(pp, r, s.q)
  {
    Forward(pp, Backward(pp, x, s, back, true, g), s, forth, rearrange)
  }

  ghost predicate RunsValid(pp: Params, s: Size, runs: seq<Run>)
    requires pp.Valid()
  {
    forall i :: 0 <= i < |runs| ==> runs[i].Valid(pp, s)
  }

  /** Three inverse transforms, three transforms, and ab - c on the shares. */
  function CosetQuotient(pp: Params, s: Size, a: seq<Vec>, b: seq<Vec>, c: seq<Vec>, runs: seq<Run>,
                         g: F, rearrange: bool): (r: seq<Vec>)
    requires pp.Valid() && s.Valid() && s.l == pp.l
    requires Shaped(pp, a, s.q) && Shaped(pp, b, s.q) && Shaped(pp, c, s.q)
    requires 6 <= |runs| && RunsValid(pp, s, runs)
    ensures Shaped(pp, r, s.q)
  {
    Combine(ToCoset(pp, s, a, runs[0], runs[3], g, rearrange),
            ToCoset(pp, s, b, runs[1], runs[4], g, rearrange),
            ToCoset(pp, s, c, runs[2], runs[5], g, rearrange))
  }

  /** A(z)B(z) - C(z) at every point z of the coset, A, B and C being the interpolants. */
  function QuotientValues(a: Vec, b: Vec, c: Vec, s: Size, g: F): (r: Vec)
    ensures |r| == s.q * s.l
  {
    CombineVec(CosetValues(a, s, g), CosetValues(b, s, g), CosetValues(c, s, g))
  }

  lemma CosetQuotientRepresents(pp: Params, s: Size, sa: seq<Vec>, sb: seq<Vec>, sc: seq<Vec>, a: Vec, b: Vec, c: Vec,
                                runs: seq<Run>, g: F, rearrange: bool)
    requires pp.Valid() && s.Valid() && s.l == pp.l && |a| == |b| == |c| == s.q * s.l
    requires Ready(pp, sa, s, a, pp.ProductSize()) && Ready(pp, sb, s, b, pp.ProductSize())
    requires Ready(pp, sc, s, c, pp.ProductSize())
    requires 6 <= |runs| && RunsValid(pp, s, runs)
    ensures Shaped(pp, sa, s.q) && Shaped(pp, sb, s.q) && Shaped(pp, sc, s.q)
    ensures Represents(pp, CosetQuotient(pp, s, sa, sb, sc, runs, g, rearrange),
                       Layout(QuotientValues(a, b, c, s, g), s.q, s.l, rearrange), pp.ProductSize())
  {
    hide Represents, Ready, CosetValues, Forward, Backward, Layout, Combine, IsPow2;
    BackwardForward(pp, sa, s, a, runs[0], runs[3], rearrange, g);
    BackwardForward(pp, sb, s, b, runs[1], runs[4], rearrange, g);
    BackwardForward(pp, sc, s, c, runs[2], runs[5], rearrange, g);
    var va, vb, vc := CosetValues(a, s, g), CosetValues(b, s, g), CosetValues(c, s, g);
    CombineRepresents(pp,
      ToCoset(pp, s, sa, runs[0], runs[3], g, rearrange),
      ToCoset(pp, s, sb, runs[1], runs[4], g, rearrange),
      ToCoset(pp, s, sc, runs[2], runs[5], g, rearrange),
      Layout(va, s.q, s.l, rearrange), Layout(vb, s.q, s.l, rearrange), Layout(vc, s.q, s.l, rearrange));
    CombineLayout(va, vb, vc, s.q, s.l, rearrange);
  }

  // ----- circom_h

  /** What a degree reduction leaves to chance. */
  datatype Reduction = Reduction(values: seq<Vec>, inRands: seq<Vec>, outRands: seq<Vec>, parties: seq<nat>,
                                 rands: seq<Vec>) {
    ghost predicate Valid(pp: Params, count: nat)
      requires pp.Valid()
    {
      && |values| == count && IsRows(pp, values)
      && Randomness(pp, inRands, count) && Randomness(pp, outRands, count) && Randomness(pp, rands, count)
      && Heard(pp, parties) && pp.ProductSize() <= |parties|
    }
  }

  function Reduce(pp: Params, sh: seq<Vec>, count: nat, red: Reduction): (r: seq<Vec>)
    requires pp.Valid() && Shaped(pp, sh, count) && red.Valid(pp, count)
    ensures Shaped(pp, r, count)
  {
    DegRed(pp, sh, SampleMasks(pp, red.values, red.inRands, red.outRands), red.parties, count, red.rands)
  }

  /** root is the generator of the domain of twice the size. */
  function CircomH(pp: Params, s: Size, a: seq<Vec>, b: seq<Vec>, c: seq<Vec>, runs: seq<Run>, red: Reduction, root: F)
    : (r: seq<Vec>)
    requires pp.Valid() && s.Valid() && s.l == pp.l
    requires Shaped(pp, a, s.q) && Shaped(pp, b, s.q) && Shaped(pp, c, s.q)
    requires |runs| == 6 && RunsValid(pp, s, runs) && red.Valid(pp, s.q)
    ensures Shaped(pp, r, s.q)
  {
    Reduce(pp, CosetQuotient(pp, s, a, b, c, runs, root, false), s.q, red)
  }

  /** The single-machine reference: interpolate, shift by the powers of the root, evaluate, combine. */
  function CircomRef(a: Vec, b: Vec, c: Vec, d: Domain, root: F): (r: Vec)
    ensures |r| == d.size
  {
    CombineVec(Fft(d, DistributePowers(Ifft(d, a), root)),
               Fft(d, DistributePowers(Ifft(d, b), root)),
               Fft(d, DistributePowers(Ifft(d, c), root)))
  }

  lemma ShiftedFft(x: Vec, s: Size, g: F)
    ensures Fft(Roots(s), DistributePowers(Ifft(Roots(s), x), g)) == CosetValues(x, s, g)
  {
    var p := Ifft(Roots(s), x);
    ResizeSame(DistributePowers(p, g));
    forall k | 0 <= k < s.q * s.l
      ensures Fft(Roots(s), DistributePowers(p, g))[k] == CosetValues(x, s, g)[k]
    {
      MulOne(Pow(s.gen, k));
      EvalDistribute(p, g, Pow(s.gen, k));
    }
  }

  lemma CircomRefValues(a: Vec, b: Vec, c: Vec, s: Size, root: F)
    ensures CircomRef(a, b, c, Roots(s), root) == QuotientValues(a, b, c, s, root)
  {
    ShiftedFft(a, s, root);
    ShiftedFft(b, s, root);
    ShiftedFft(c, s, root);
  }

  /** The odd powers of the root of twice the order. */
  lemma CircomPoints(a: Vec, b: Vec, c: Vec, s: Size, root: F, k: nat)
    requires Mul(root, root) == s.gen && k < s.q * s.l
    ensures var z := Pow(root, 2 * k + 1);
      var A, B, C := Ifft(Roots(s), a), Ifft(Roots(s), b), Ifft(Roots(s), c);
      CircomRef(a, b, c, Roots(s), root)[k] == Sub(Mul(Eval(A, z), Eval(B, z)), Eval(C, z))
  {
    hide Pow, Eval, Ifft, CircomRef;
    CircomRefValues(a, b, c, s, root);
    OddPower(root, k);
  }

  lemma OddPower(root: F, k: nat)
    ensures Pow(root, 2 * k + 1) == Mul(root, Pow(Mul(root, root), k))
  {
    hide Pow;
    PowFirst(root);
    PowMul(root, 2, k);
    PowAdd(root, 1, 2 * k);
  }

  /** circom_h, from freshly packed columns: fresh sharings of the single-machine result, in order. */
  lemma CircomHCorrect(pp: Params, s: Size, a: Vec, b: Vec, c: Vec, ra: seq<Vec>, rb: seq<Vec>, rc: seq<Vec>,
                       runs: seq<Run>, red: Reduction, root: F)
    requires pp.Valid() && s.Valid() && s.l == pp.l && |a| == |b| == |c| == s.q * s.l
    requires Randomness(pp, ra, s.q) && Randomness(pp, rb, s.q) && Randomness(pp, rc, s.q)
    requires |runs| == 6 && RunsValid(pp, s, runs) && red.Valid(pp, s.q)
    ensures Represents(pp, CircomH(pp, s, Pss(pp, s, a, ra), Pss(pp, s, b, rb), Pss(pp, s, c, rc), runs, red, root),
                       Chunks(CircomRef(a, b, c, Roots(s), root), s.q, s.l), pp.l + pp.t)
  {
    hide Represents, Ready, CosetQuotient, QuotientValues, CircomRef, Chunks, Pss, DegRed, IsPow2, Ifft;
    PssReady(pp, s, a, ra);
    PssReady(pp, s, b, rb);
    PssReady(pp, s, c, rc);
    var sa, sb, sc := Pss(pp, s, a, ra), Pss(pp, s, b, rb), Pss(pp, s, c, rc);
    CosetQuotientRepresents(pp, s, sa, sb, sc, a, b, c, runs, root, false);
    CircomRefValues(a, b, c, s, root);
    var rows := Chunks(QuotientValues(a, b, c, s, root), s.q, s.l);
    DegRedCorrect(pp, CosetQuotient(pp, s, sa, sb, sc, runs, root, false), rows,
                  red.values, red.inRands, red.outRands, red.parties, red.rands);
  }

  // ----- what the parties can do with the result

  /** Unpacking every entry and listing the secrets. */
  function UnpackAll(pp: Params, sh: seq<Vec>, count: nat): (r: Vec)
    requires pp.Valid() && Shaped(pp, sh, count)
  {
    Concat(seq(count, e requires 0 <= e < count => Unpack(pp, Column(sh, e))), pp.l)
  }

  lemma UnpackAllChunks(pp: Params, sh: seq<Vec>, v: Vec, q: nat)
    requires pp.Valid() && |v| == q * pp.l && Represents(pp, sh, Chunks(v, q, pp.l), pp.l + pp.t)
    ensures Shaped(pp, sh, q) && UnpackAll(pp, sh, q) == v
  {
    var rows := Chunks(v, q, pp.l);
    RepresentsShape(pp, sh, rows, pp.l + pp.t);
    var ps :| Sharing(pp, sh, ps, pp.l + pp.t) && SecretRows(pp, ps) == rows;
    forall e | 0 <= e < q
      ensures Unpack(pp, Column(sh, e)) == rows[e]
    {
      assert Column(sh, e) == Shares(pp, ps[e]);
      UnpackSecrets(pp, ps[e]);
    }
    assert seq(q, e requires 0 <= e < q => Unpack(pp, Column(sh, e))) == rows;
    ConcatChunks(v, q, pp.l);
  }
}
