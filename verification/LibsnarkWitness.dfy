/**
 * LibsnarkWitness: the variant that returns the coefficients of the quotient (AB - C) / (X^m - 1).
 */
module LibsnarkWitness {
  import opened ScalarField
  import opened Polynomials
  import opened Indices
  import opened Fourier
  import opened BitReversal
  import opened RootsOfUnity
  import opened Domains
  import opened InPlace
  import opened InnerProducts
  import opened PackedSharing
  import opened SharedVectors
  import opened Linearity
  import opened DegreeReduction
  import opened MpcFft
  import opened Transforms
  import opened ExtWitness

  function Vanishing(m: nat, x: F): F {
    Sub(Pow(x, m), ONE)
  }

  /** g is the coset offset; it must not be a root of unity, or the source would divide by zero. */
  function LibsnarkH(pp: Params, s: Size, a: seq<Vec>, b: seq<Vec>, c: seq<Vec>, runs: seq<Run>, g: F): (r: seq<Vec>)
    requires pp.Valid() && s.Valid() && s.l == pp.l
    requires Shaped(pp, a, s.q) && Shaped(pp, b, s.q) && Shaped(pp, c, s.q)
    requires |runs| == 7 && RunsValid(pp, s, runs)
    ensures Shaped(pp, r, s.q)
  {
    var h := MapScale(Inv(Vanishing(s.q * s.l, g)), CosetQuotient(pp, s, a, b, c, runs, g, true));
    Backward(pp, h, s, runs[6], false, Inv(g))
  }

  /** The single-machine reference: evaluate on the coset, combine, divide, interpolate on the coset. */
  function LibsnarkRef(a: Vec, b: Vec, c: Vec, d: Domain, g: F): (r: Vec)
    ensures |r| == d.size
  {
    var coset := d.(offset := g);
    var ab := CombineVec(Fft(coset, Ifft(d, a)), Fft(coset, Ifft(d, b)), Fft(coset, Ifft(d, c)));
    Ifft(coset, VScale(Inv(Vanishing(d.size, g)), ab))
  }

  lemma CosetFft(x: Vec, s: Size, g: F)
    ensures Fft(Roots(s).(offset := g), Ifft(Roots(s), x)) == CosetValues(x, s, g)
  {
    ResizeSame(Ifft(Roots(s), x));
  }

  /** Taking the powers of g off after interpolating on the roots interpolates on the coset. */
  lemma CosetIfft(v: Vec, s: Size, g: F)
    requires |v| == s.q * s.l
    ensures Scaled(Inv(g), Ifft(Roots(s), v)) == Ifft(Roots(s).(offset := g), v)
  {
    var c, t := Inv(Num(|v|)), Dft(v, Inv(s.gen));
    ResizeSame(v);
    MulOne(ONE);
    InvUnique(ONE, ONE);
    DistributeOne(t);
    forall j | 0 <= j < |v|
      ensures DistributePowers(VScale(c, t), Inv(g))[j] == VScale(c, DistributePowers(t, Inv(g)))[j]
    {
      MulAssoc(c, t[j], Pow(Inv(g), j));
    }
    assert DistributePowers(VScale(c, t), Inv(g)) == VScale(c, DistributePowers(t, Inv(g)));
    if Inv(g) == ONE {
      DistributeOne(VScale(c, t));
    }
  }

  lemma LibsnarkRefIsScaled(a: Vec, b: Vec, c: Vec, s: Size, g: F)
    ensures LibsnarkRef(a, b, c, Roots(s), g)
         == Scaled(Inv(g), Ifft(Roots(s), VScale(Inv(Vanishing(s.q * s.l, g)), QuotientValues(a, b, c, s, g))))
  {
    hide Ifft, CosetValues, Scaled;
    CosetFft(a, s, g);
    CosetFft(b, s, g);
    CosetFft(c, s, g);
    CosetIfft(VScale(Inv(Vanishing(s.q * s.l, g)), QuotientValues(a, b, c, s, g)), s, g);
  }

  lemma LibsnarkHCorrect(pp: Params, s: Size, a: Vec, b: Vec, c: Vec, ra: seq<Vec>, rb: seq<Vec>, rc: seq<Vec>,
                         runs: seq<Run>, g: F)
    requires pp.Valid() && s.Valid() && s.l == pp.l && |a| == |b| == |c| == s.q * s.l
    requires Randomness(pp, ra, s.q) && Randomness(pp, rb, s.q) && Randomness(pp, rc, s.q)
    requires |runs| == 7 && RunsValid(pp, s, runs)
    ensures Represents(pp, LibsnarkH(pp, s, Pss(pp, s, a, ra), Pss(pp, s, b, rb), Pss(pp, s, c, rc), runs, g),
                       Chunks(LibsnarkRef(a, b, c, Roots(s), g), s.q, s.l), pp.l + pp.t)
  {
    hide Represents, CosetQuotient, QuotientValues, LibsnarkRef, Chunks, Pss, BitReversed, IsPow2, Ifft;
    PssReady(pp, s, a, ra);
    PssReady(pp, s, b, rb);
    PssReady(pp, s, c, rc);
    var sa, sb, sc := Pss(pp, s, a, ra), Pss(pp, s, b, rb), Pss(pp, s, c, rc);
    CosetQuotientRepresents(pp, s, sa, sb, sc, a, b, c, runs, g, true);
    var h, v := QuotientValues(a, b, c, s, g), Inv(Vanishing(s.q * s.l, g));
    var shares := CosetQuotient(pp, s, sa, sb, sc, runs, g, true);
    ScaleRepresents(pp, v, shares, StridedRows(BitReversed(h), s.q, s.l), pp.ProductSize());
    BitReversedScale(v, h);
    StridedScale(v, BitReversed(h), s.q, s.l);
    BackwardRepresents(pp, MapScale(v, shares), s, VScale(v, h), runs[6], false, Inv(g));
    LibsnarkRefIsScaled(a, b, c, s, g);
  }

  // ----- the result is the quotient exactly when the constraints hold

  /** The polynomial AB - C on 2m coefficients. */
  function Numerator(A: Vec, B: Vec, C: Vec, m: nat): (r: Vec)
    ensures |r| == 2 * m
  {
    VSub(Resize(PMul(A, B), 2 * m), Resize(C, 2 * m))
  }

  lemma NumeratorValue(A: Vec, B: Vec, C: Vec, m: nat, x: F)
    requires |A| == |B| == |C| == m && 0 < m
    ensures Eval(Numerator(A, B, C, m), x) == Sub(Mul(Eval(A, x), Eval(B, x)), Eval(C, x))
  {
    EvalSub(Resize(PMul(A, B), 2 * m), Resize(C, 2 * m), x);
    EvalResize(PMul(A, B), 2 * m, x);
    EvalResize(C, 2 * m, x);
    EvalPMul(A, B, x);
  }

  /** A polynomial that vanishes at all m-th roots of unity is a multiple of X^m - 1. */
  lemma DivisibleByVanishing(p: Vec, w: F, m: nat)
    requires IsRoot(w, m) && OddCharacteristic() && |p| == 2 * m
    requires forall k :: 0 <= k < m ==> Eval(p, Pow(w, k)) == ZERO
    ensures forall x :: Eval(p, x) == Mul(Vanishing(m, x), Eval(SynQuotient(p, m, ONE)[..m], x))
  {
    var q, rem := SynQuotient(p, m, ONE), SynRemainder(p, m, ONE);
    var points := seq(m, k requires 0 <= k < m => Pow(w, k));
    hide SynQuotient, SynRemainder, Eval;
    forall k | 0 <= k < m
      ensures Eval(rem, points[k]) == ZERO
    {
      SynDivCorrect(p, m, ONE, points[k]);
      RootOrder(w, m);
      PowMul(w, k, m);
      PowMul(w, m, k);
      assert k * m == m * k;
      PowOne(k);
      AddNeg(ONE);
      MulZero(Eval(q, points[k]));
      AddZero(Eval(rem, points[k]));
    }
    RootsDistinct(w, m, points);
    RootBound(rem, points);
    forall x
      ensures Eval(p, x) == Mul(Vanishing(m, x), Eval(q[..m], x))
    {
      SynDivCorrect(p, m, ONE, x);
      EvalZero(rem, x);
      QuotientTail(p, m);
      EvalResize(q, m, x);
      AddZero(Mul(Vanishing(m, x), Eval(q, x)));
    }
  }

  lemma QuotientTail(p: Vec, m: nat)
    requires 0 < m && |p| == 2 * m
    ensures forall i :: m <= i < |p| ==> SynQuotient(p, m, ONE)[i] == ZERO
  {
  }

  lemma RootsDistinct(w: F, m: nat, points: seq<F>)
    requires IsRoot(w, m) && OddCharacteristic() && |points| == m
    requires forall k :: 0 <= k < m ==> points[k] == Pow(w, k)
    ensures Distinct(points)
  {
    var d := Domain(m, w, ONE);
    OneIsNotZero();
    forall i, j | 0 <= i < j < m
      ensures points[i] != points[j]
    {
      ElementsDistinct(d, i, j);
      MulOne(points[i]);
      MulOne(points[j]);
    }
  }

  /** The interpolants of the three columns. */
  lemma ColumnValue(x: Vec, s: Size, k: nat)
    requires s.Valid() && OddCharacteristic() && |x| == s.q * s.l && k < |x|
    ensures Eval(Ifft(Roots(s), x), Pow(s.gen, k)) == x[k]
  {
    CosetValuesOne(x, s);
    MulOne(Pow(s.gen, k));
    assert CosetValues(x, s, ONE)[k] == x[k];
  }

  lemma CosetVanishing(s: Size, g: F, k: nat)
    requires s.Valid()
    ensures Vanishing(s.q * s.l, Mul(g, Pow(s.gen, k))) == Vanishing(s.q * s.l, g)
  {
    var m := s.q * s.l;
    var z := Pow(s.gen, k);
    PowProduct(g, z, m);
    RootOrder(s.gen, m);
    PowMul(s.gen, k, m);
    PowMul(s.gen, m, k);
    assert k * m == m * k;
    PowOne(k);
    MulOne(Pow(g, m));
  }

  ghost predicate Satisfied(a: Vec, b: Vec, c: Vec)
    requires |a| == |b| == |c|
  {
    forall k :: 0 <= k < |a| ==> Mul(a[k], b[k]) == c[k]
  }

  /** h is the quotient: A(x)B(x) - C(x) == (x^m - 1)h(x) everywhere. */
  ghost predicate IsQuotient(a: Vec, b: Vec, c: Vec, s: Size, h: Vec) {
    var A, B, C := Ifft(Roots(s), a), Ifft(Roots(s), b), Ifft(Roots(s), c);
    forall x :: Sub(Mul(Eval(A, x), Eval(B, x)), Eval(C, x)) == Mul(Vanishing(s.q * s.l, x), Eval(h, x))
  }

  lemma QuotientFromValues(a: Vec, b: Vec, c: Vec, s: Size, g: F, h: Vec)
    requires s.Valid() && OddCharacteristic() && g != ZERO && Vanishing(s.q * s.l, g) != ZERO
    requires |h| == s.q * s.l && IsQuotient(a, b, c, s, h)
    ensures LibsnarkRef(a, b, c, Roots(s), g) == h
  {
    var m := s.q * s.l;
    var coset := Roots(s).(offset := g);
    var v := Vanishing(m, g);
    CosetFft(a, s, g);
    CosetFft(b, s, g);
    CosetFft(c, s, g);
    var values := VScale(Inv(v), QuotientValues(a, b, c, s, g));
    ResizeSame(h);
    hide Ifft, Eval;
    forall k | 0 <= k < m
      ensures values[k] == Fft(coset, h)[k]
    {
      var z := Mul(g, Pow(s.gen, k));
      CosetVanishing(s, g, k);
      assert QuotientValues(a, b, c, s, g)[k] == Mul(v, Eval(h, z));
      MulAssoc(Inv(v), v, Eval(h, z));
      MulInv(v);
      MulOne(Eval(h, z));
    }
    assert values == Fft(coset, h);
    IfftFft(coset, h);
  }

  /** The constraints hold exactly when the reference, and so the protocol, returns the quotient. */
  lemma LibsnarkQuotient(a: Vec, b: Vec, c: Vec, s: Size, g: F)
    requires s.Valid() && OddCharacteristic() && g != ZERO && Vanishing(s.q * s.l, g) != ZERO
    requires |a| == |b| == |c| == s.q * s.l
    ensures IsQuotient(a, b, c, s, LibsnarkRef(a, b, c, Roots(s), g)) <==> Satisfied(a, b, c)
  {
    if Satisfied(a, b, c) {
      SatisfiedDivides(a, b, c, s, g);
    }
    if IsQuotient(a, b, c, s, LibsnarkRef(a, b, c, Roots(s), g)) {
      QuotientSatisfies(a, b, c, s, LibsnarkRef(a, b, c, Roots(s), g));
    }
  }

  lemma QuotientSatisfies(a: Vec, b: Vec, c: Vec, s: Size, h: Vec)
    requires s.Valid() && OddCharacteristic() && |a| == |b| == |c| == s.q * s.l && IsQuotient(a, b, c, s, h)
    ensures Satisfied(a, b, c)
  {
    var m := s.q * s.l;
    hide Ifft, Eval;
    forall k | 0 <= k < m
      ensures Mul(a[k], b[k]) == c[k]
    {
      var x := Pow(s.gen, k);
      ColumnValue(a, s, k);
      ColumnValue(b, s, k);
      ColumnValue(c, s, k);
      RootVanishes(s, k);
      MulZero(Eval(h, x));
      SubZeroIffEqual(Mul(a[k], b[k]), c[k]);
    }
  }

  lemma RootVanishes(s: Size, k: nat)
    requires s.Valid()
    ensures Vanishing(s.q * s.l, Pow(s.gen, k)) == ZERO
  {
    CosetVanishing(s, ONE, k);
    MulOne(Pow(s.gen, k));
    PowOne(s.q * s.l);
    AddNeg(ONE);
  }

  lemma SatisfiedDivides(a: Vec, b: Vec, c: Vec, s: Size, g: F)
    requires s.Valid() && OddCharacteristic() && g != ZERO && Vanishing(s.q * s.l, g) != ZERO
    requires |a| == |b| == |c| == s.q * s.l && Satisfied(a, b, c)
    ensures IsQuotient(a, b, c, s, LibsnarkRef(a, b, c, Roots(s), g))
  {
    var m := s.q * s.l;
    var A, B, C := Ifft(Roots(s), a), Ifft(Roots(s), b), Ifft(Roots(s), c);
    var p := Numerator(A, B, C, m);
    assert 0 < m;
    hide Ifft, Eval, Numerator, SynQuotient, IsPow2;
    forall k | 0 <= k < m
      ensures Eval(p, Pow(s.gen, k)) == ZERO
    {
      NumeratorValue(A, B, C, m, Pow(s.gen, k));
      ColumnValue(a, s, k);
      ColumnValue(b, s, k);
      ColumnValue(c, s, k);
      SubZeroIffEqual(Mul(a[k], b[k]), c[k]);
    }
    DivisibleByVanishing(p, s.gen, m);
    var h := SynQuotient(p, m, ONE)[..m];
    forall x
      ensures Sub(Mul(Eval(A, x), Eval(B, x)), Eval(C, x)) == Mul(Vanishing(m, x), Eval(h, x))
    {
      NumeratorValue(A, B, C, m, x);
    }
    QuotientFromValues(a, b, c, s, g, h);
  }
}
