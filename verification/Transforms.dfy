/**
 * Transforms: the protocol rounds as the transforms they stand for, and the two in a row.
 */
module Transforms {
  import opened ScalarField
  import opened Polynomials
  import opened Indices
  import opened Fourier
  import opened BitReversal
  import opened DistributedFft
  import opened RootsOfUnity
  import opened Domains
  import opened PackedSharing
  import opened SharedVectors
  import opened Linearity
  import opened DegreeReduction
  import opened MpcFft

  /** Everything outside the protocol's control in one transform: masks, randomness, who answered. */
  datatype Run = Run(values: Vec, inRands: seq<Vec>, outRands: seq<Vec>, parties: seq<nat>, rands: seq<Vec>) {
    ghost predicate Valid(pp: Params, s: Size)
      requires pp.Valid()
    {
      && |values| == s.q * s.l
      && Randomness(pp, inRands, s.q) && Randomness(pp, outRands, s.q) && Randomness(pp, rands, s.q)
      && Heard(pp, parties) && pp.ProductSize() <= |parties|
    }
  }

  function Forward(pp: Params, sh: seq<Vec>, s: Size, run: Run, rearrange: bool): (r: seq<Vec>)
    requires pp.Valid() && s.Valid() && s.l == pp.l && Shaped(pp, sh, s.q) && run.Valid(pp, s)
    ensures Shaped(pp, r, s.q)
  {
    DFft(pp, sh, s, SampleFftMasks(pp, s, rearrange, ONE, run.values, run.inRands, run.outRands),
         rearrange, ONE, run.parties, run.rands)
  }

  function Backward(pp: Params, sh: seq<Vec>, s: Size, run: Run, rearrange: bool, g: F): (r: seq<Vec>)
    requires pp.Valid() && s.Valid() && s.l == pp.l && Shaped(pp, sh, s.q) && run.Valid(pp, s)
    ensures Shaped(pp, r, s.q)
  {
    InverseSize(s);
    DIfft(pp, sh, s, SampleFftMasks(pp, Inverse(s), rearrange, g, run.values, run.inRands, run.outRands),
          rearrange, g, run.parties, run.rands)
  }

  /** The domain of all q * l roots. */
  function Roots(s: Size): Domain {
    Domain(s.q * s.l, s.gen, ONE)
  }

  /** The secrets are x, in the layout a transform expects. */
  ghost predicate Ready(pp: Params, sh: seq<Vec>, s: Size, x: Vec, size: nat)
    requires s.Valid() && |x| == s.q * s.l
  {
    Represents(pp, sh, StridedRows(BitReversed(x), s.q, s.l), size)
  }

  lemma FinishIsDft(x: Vec, s: Size, g: F)
    requires s.Valid() && |x| == s.q * s.l
    ensures Finish(Rows(BitReversed(x), s.q, s.l, s.gen), s, g) == Scaled(g, Dft(x, s.gen))
  {
    DistributedIsDft(x, s.q, s.l, s.gen);
  }

  lemma ForwardRepresents(pp: Params, sh: seq<Vec>, s: Size, x: Vec, run: Run, rearrange: bool)
    requires pp.Valid() && s.Valid() && s.l == pp.l && |x| == s.q * s.l && run.Valid(pp, s)
    requires Ready(pp, sh, s, x, pp.ProductSize())
    ensures Shaped(pp, sh, s.q)
    ensures Represents(pp, Forward(pp, sh, s, run, rearrange), Layout(Dft(x, s.gen), s.q, s.l, rearrange), pp.l + pp.t)
  {
    DFftTransforms(pp, sh, BitReversed(x), s, run.values, run.inRands, run.outRands, rearrange, ONE,
                   run.parties, run.rands);
    FinishIsDft(x, s, ONE);
  }

  lemma InverseDftIsIfft(s: Size, x: Vec)
    requires s.Valid() && |x| == s.q * s.l
    ensures Dft(VScale(Inv(Num(|x|)), x), Inv(s.gen)) == Ifft(Roots(s), x)
  {
    var c := Inv(Num(|x|));
    DftScale(c, x, Inv(s.gen));
    ResizeSame(x);
    MulOne(ONE);
    InvUnique(ONE, ONE);
    DistributeOne(Dft(x, Inv(s.gen)));
  }

  lemma StridedScale(c: F, y: Vec, q: nat, l: nat)
    requires |y| == l * q
    ensures StridedRows(VScale(c, y), q, l) == MapScale(c, StridedRows(y, q, l))
  {
    forall e | 0 <= e < q
      ensures StridedRow(VScale(c, y), q, l, e) == VScale(c, StridedRow(y, q, l, e))
    {
      forall j: nat | j < l
        ensures At(j, q, e) < |y|
      {
        AtBound(j, l, q, e);
      }
    }
  }

  lemma BackwardRepresents(pp: Params, sh: seq<Vec>, s: Size, x: Vec, run: Run, rearrange: bool, g: F)
    requires pp.Valid() && s.Valid() && s.l == pp.l && |x| == s.q * s.l && run.Valid(pp, s)
    requires Ready(pp, sh, s, x, pp.ProductSize())
    ensures Shaped(pp, sh, s.q)
    ensures Represents(pp, Backward(pp, sh, s, run, rearrange, g),
                       Layout(Scaled(g, Ifft(Roots(s), x)), s.q, s.l, rearrange), pp.l + pp.t)
  {
    hide Represents, IsPow2, Ifft, Dft, DFft, BitReversed;
    InverseSize(s);
    var c := Inv(Num(|x|));
    ScaleRepresents(pp, c, sh, StridedRows(BitReversed(x), s.q, s.l), pp.ProductSize());
    BitReversedScale(c, x);
    StridedScale(c, BitReversed(x), s.q, s.l);
    var cx := VScale(c, x);
    DFftTransforms(pp, MapScale(c, sh), BitReversed(cx), Inverse(s), run.values, run.inRands, run.outRands,
                   rearrange, g, run.parties, run.rands);
    FinishIsDft(cx, Inverse(s), g);
    InverseDftIsIfft(s, x);
    RepresentsShape(pp, sh, StridedRows(BitReversed(x), s.q, s.l), pp.ProductSize());
  }

  // ----- backward, then forward

  /** The values, on the coset g * w^k, of the polynomial that takes the values x at w^k. */
  function CosetValues(x: Vec, s: Size, g: F): (r: Vec)
    ensures |r| == s.q * s.l
  {
    seq(s.q * s.l, k requires 0 <= k < s.q * s.l => Eval(Ifft(Roots(s), x), Mul(g, Pow(s.gen, k))))
  }

  lemma ScaledDft(p: Vec, g: F, w: F, k: nat)
    requires k < |p|
    ensures Dft(Scaled(g, p), w)[k] == Eval(p, Mul(g, Pow(w, k)))
  {
    if g == ONE {
      DistributeOne(p);
    }
    EvalDistribute(p, g, Pow(w, k));
  }

  lemma CosetValuesAreDft(x: Vec, s: Size, g: F)
    ensures Dft(Scaled(g, Ifft(Roots(s), x)), s.gen) == CosetValues(x, s, g)
  {
    hide Ifft;
    forall k | 0 <= k < s.q * s.l
      ensures Dft(Scaled(g, Ifft(Roots(s), x)), s.gen)[k] == CosetValues(x, s, g)[k]
    {
      ScaledDft(Ifft(Roots(s), x), g, s.gen, k);
    }
  }

  /** Without a shift the two transforms cancel. */
  lemma CosetValuesOne(x: Vec, s: Size)
    requires s.Valid() && |x| == s.q * s.l && OddCharacteristic()
    ensures CosetValues(x, s, ONE) == x
  {
    var d := Roots(s);
    OneIsNotZero();
    FftIfft(d, x);
    ResizeSame(Ifft(d, x));
    forall k | 0 <= k < |x|
      ensures CosetValues(x, s, ONE)[k] == x[k]
    {
      assert Fft(d, Ifft(d, x))[k] == x[k];
    }
  }

  /**
   * An inverse transform that rearranges, then a transform: the parties hold the values on the
   * coset of g, and exactly what they started from when g is one.
   */
  lemma BackwardForward(pp: Params, sh: seq<Vec>, s: Size, x: Vec, run1: Run, run2: Run, rearrange: bool, g: F)
    requires pp.Valid() && s.Valid() && s.l == pp.l && |x| == s.q * s.l
    requires run1.Valid(pp, s) && run2.Valid(pp, s) && Ready(pp, sh, s, x, pp.ProductSize())
    ensures Shaped(pp, sh, s.q)
    ensures Represents(pp, Forward(pp, Backward(pp, sh, s, run1, true, g), s, run2, rearrange),
                       Layout(CosetValues(x, s, g), s.q, s.l, rearrange), pp.l + pp.t)
    ensures g == ONE ==> CosetValues(x, s, g) == x
  {
    hide Represents, IsPow2, Ifft, Dft, BitReversed, Forward, Backward, CosetValues;
    BackwardRepresents(pp, sh, s, x, run1, true, g);
    var coefficients := Scaled(g, Ifft(Roots(s), x));
    var mid := Backward(pp, sh, s, run1, true, g);
    RepresentsWeaken(pp, mid, StridedRows(BitReversed(coefficients), s.q, s.l), pp.l + pp.t, pp.ProductSize());
    ForwardRepresents(pp, mid, s, coefficients, run2, rearrange);
    CosetValuesAreDft(x, s, g);
    if g == ONE {
      CosetValuesOne(x, s);
    }
  }
}
