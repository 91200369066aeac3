/**
 * EvaluationWeights: the value of an interpolant at a point as an inner product of the interpolated values
 * with weights that depend on the point alone.
 */
module EvaluationWeights {
  import opened ScalarField
  import opened Polynomials
  import opened Indices
  import opened Fourier
  import opened RootsOfUnity
  import opened Domains
  import opened InnerProducts
  import opened Linearity
  import opened MpcFft
  import opened Transforms
  import opened ExtWitness
  import opened ProductForms
  import opened Groth16Shares
  import opened Qap

  // ----- the transform is symmetric

  /** The values of x at the first powers of w. */
  function Values(x: Vec, m: nat, w: F): (r: Vec)
    ensures |r| == m
  {
    seq(m, i requires 0 <= i < m => Eval(x, Pow(w, i)))
  }

  lemma ValuesNext(x: Vec, c: F, m: nat, w: F)
    ensures Values(x + [c], m, w) == VAdd(Values(x, m, w), VScale(c, Powers(ONE, Pow(w, |x|), m)))
  {
    forall i | 0 <= i < m
      ensures Eval(x + [c], Pow(w, i)) == Add(Eval(x, Pow(w, i)), Mul(c, Mul(ONE, Pow(Pow(w, |x|), i))))
    {
      var z := Pow(w, i);
      EvalConcat(x, [c], z);
      EvalConstant(c, z);
      PowSwap(w, i, |x|);
      MulOne(Pow(z, |x|));
      MulComm(c, Pow(z, |x|));
    }
  }

  lemma {:induction false} ValuesSymmetric(x: Vec, y: Vec, w: F)
    ensures InnerProduct(Values(x, |y|, w), y) == InnerProduct(x, Values(y, |x|, w))
    decreases |x|
  {
    hide InnerProduct, Powers, Eval, VAdd, VScale, Pow, Zeros;
    if x == [] {
      ValuesOfNothing(|y|, w);
      InnerZeros(y);
      InnerZeros([]);
      NoZeros();
      assert Values(y, 0, w) == [];
    } else {
      var n := |x| - 1;
      var c, powers := x[n], Powers(ONE, Pow(w, n), |y|);
      ValuesSymmetric(x[..n], y, w);
      ValuesNext(x[..n], c, |y|, w);
      assert x[..n] + [c] == x;
      InnerAdd(Values(x[..n], |y|, w), VScale(c, powers), y);
      InnerScale(c, powers, y);
      InnerPowers(ONE, Pow(w, n), y);
      MulOne(Eval(y, Pow(w, n)));
      LastInner(x, Values(y, |x|, w));
      assert Values(y, |x|, w)[..n] == Values(y, n, w);
    }
  }

  lemma NoZeros()
    ensures Zeros(0) == []
  {
  }

  lemma LastInner(x: Vec, y: Vec)
    requires |x| == |y| > 0
    ensures var n := |x| - 1; InnerProduct(x, y) == Add(InnerProduct(x[..n], y[..n]), Mul(x[n], y[n]))
  {
    var n := |x| - 1;
    assert VMul(x, y)[..n] == VMul(x[..n], y[..n]);
  }

  lemma ValuesOfNothing(m: nat, w: F)
    ensures Values([], m, w) == Zeros(m)
  {
  }

  /** So interpolation can be moved from one factor of an inner product to the other. */
  lemma IfftSymmetric(s: Size, x: Vec, y: Vec)
    requires s.Valid() && |x| == |y| == s.q * s.l
    ensures InnerProduct(Ifft(Roots(s), x), y) == InnerProduct(x, Ifft(Roots(s), y))
  {
    hide InnerProduct, Ifft, Eval, Size.Valid;
    var c, v := Inv(Num(|x|)), Inv(s.gen);
    InverseDftIsIfft(s, x);
    InverseDftIsIfft(s, y);
    DftIsValues(VScale(c, x), v);
    DftIsValues(VScale(c, y), v);
    ValuesSymmetric(VScale(c, x), y, v);
    DftIsValues(y, v);
    DftScale(c, y, v);
    InnerScale(c, x, Dft(y, v));
    InnerComm(x, VScale(c, Dft(y, v)));
    InnerScale(c, Dft(y, v), x);
    InnerComm(x, Dft(y, v));
  }

  lemma DftIsValues(p: Vec, w: F)
    ensures Dft(p, w) == Values(p, |p|, w)
  {
  }

  // ----- weights

  /** The weights of the domain's points for the value at tau. */
  function Weights(s: Size, tau: F): (r: Vec)
    ensures |r| == s.q * s.l
  {
    Ifft(Roots(s), Powers(ONE, tau, s.q * s.l))
  }

  lemma WeightsValue(s: Size, tau: F, v: Vec)
    requires s.Valid() && |v| == s.q * s.l
    ensures InnerProduct(Weights(s, tau), v) == Eval(Ifft(Roots(s), v), tau)
  {
    hide InnerProduct, Ifft, Eval, Powers, Size.Valid;
    IfftSymmetric(s, Powers(ONE, tau, |v|), v);
    InnerPowers(ONE, tau, Ifft(Roots(s), v));
    MulOne(Eval(Ifft(Roots(s), v), tau));
  }

  /** The domain of twice the size. */
  function Double(s: Size, root: F): Size {
    Size(2 * s.q, s.l, root)
  }

  lemma DoubleValid(s: Size, root: F)
    requires s.Valid() && IsRoot(root, 2 * (s.q * s.l))
    ensures Double(s, root).Valid() && Double(s, root).q * Double(s, root).l == 2 * (s.q * s.l)
  {
    var m := s.q * s.l;
    DoubleProduct(s.q, s.l);
    assert IsPow2(2 * s.q) && IsPow2(2 * m);
    assert s.l * (2 * s.q) == 2 * (s.l * s.q);
  }

  /** The weights of the odd powers of the root of twice the order, for polynomials of fewer than 2m coefficients. */
  function OddWeights(s: Size, root: F, tau: F): (r: Vec)
    requires s.Valid() && s.q * s.l * 2 == Double(s, root).q * Double(s, root).l
    ensures |r| == s.q * s.l
  {
    var m := s.q * s.l;
    assert 0 < m;
    Odds(Ifft(Roots(Double(s, root)), Resize(Powers(ONE, tau, 2 * m - 1), 2 * m)))
  }

  lemma {:induction false} OddsInner(x: Vec, v: Vec)
    requires |x| == |v| && |v| % 2 == 0 && IsZero(Evens(v))
    ensures InnerProduct(x, v) == InnerProduct(Odds(x), Odds(v))
    decreases |x|
  {
    hide InnerProduct;
    if x == [] {
      assert Odds(x) == x && Odds(v) == v;
    } else {
      var n := |x| - 2;
      OddsPrefix(x, n);
      OddsPrefix(v, n);
      OddsInner(x[..n], v[..n]);
      LastInner(x, v);
      LastInner(x[..n + 1], v[..n + 1]);
      assert x[..n + 1][..n] == x[..n] && v[..n + 1][..n] == v[..n];
      LastInner(Odds(x), Odds(v));
      assert Evens(v)[n / 2] == v[n];
      MulZero(x[n]);
      AddZero(InnerProduct(x[..n], v[..n]));
    }
  }

  lemma OddsPrefix(v: Vec, n: nat)
    requires |v| == n + 2 && n % 2 == 0
    ensures Odds(v)[..n / 2] == Odds(v[..n]) && Odds(v)[n / 2] == v[n + 1]
    ensures IsZero(Evens(v)) ==> IsZero(Evens(v[..n]))
  {
    assert forall i :: 0 <= i < n / 2 ==> Evens(v[..n])[i] == Evens(v)[i];
  }

  /** A polynomial that vanishes at the even powers is given anywhere by its values at the odd powers. */
  lemma OddWeightsValue(s: Size, root: F, tau: F, p: Vec, odd: Vec)
    requires s.Valid() && OddCharacteristic() && IsRoot(root, 2 * (s.q * s.l))
    requires |p| == 2 * (s.q * s.l) - 1 && |odd| == s.q * s.l
    requires forall k: nat :: k < |odd| ==> AtPair(p, root, odd, k)
    ensures s.q * s.l * 2 == Double(s, root).q * Double(s, root).l
    ensures InnerProduct(OddWeights(s, root, tau), odd) == Eval(p, tau)
  {
    hide InnerProduct, Ifft, Eval, Powers, Size.Valid, OddCharacteristic, AtPair;
    DoubleValid(s, root);
    var m, d := s.q * s.l, Double(s, root);
    var p2, powers := Resize(p, 2 * m), Powers(ONE, tau, 2 * m - 1);
    var v, x := Fft(Roots(d), p2), Ifft(Roots(d), Resize(powers, 2 * m));
    OneIsNotZero();
    IfftFft(Roots(d), p2);
    IfftSymmetric(d, Resize(powers, 2 * m), v);
    ResizedInner(powers, p2);
    assert p2[..2 * m - 1] == p;
    InnerPowers(ONE, tau, p);
    MulOne(Eval(p, tau));
    FftOdds(d, p, p2, v, odd);
    OddsInner(x, v);
  }

  /** Zero at an even power, the given value at the odd power after it. */
  ghost predicate AtPair(p: Vec, root: F, odd: Vec, k: nat)
    requires k < |odd|
  {
    Eval(p, Pow(root, 2 * k)) == ZERO && Eval(p, Pow(root, 2 * k + 1)) == odd[k]
  }

  lemma FftOdds(d: Size, p: Vec, p2: Vec, v: Vec, odd: Vec)
    requires |p2| == d.q * d.l == 2 * |odd| && |p| <= |p2| && p2 == Resize(p, |p2|) && v == Fft(Roots(d), p2)
    requires forall k: nat :: k < |odd| ==> AtPair(p, d.gen, odd, k)
    ensures IsZero(Evens(v)) && Odds(v) == odd
  {
    hide AtPair, Fft, Resize, Evens, Odds;
    forall k: nat | k < |odd|
      ensures Evens(v)[k] == ZERO && Odds(v)[k] == odd[k]
    {
      OddAt(d, p, p2, odd, k);
    }
  }

  lemma OddAt(d: Size, p: Vec, p2: Vec, odd: Vec, k: nat)
    requires |p2| == d.q * d.l == 2 * |odd| && |p| <= |p2| && p2 == Resize(p, |p2|) && k < |odd|
    requires AtPair(p, d.gen, odd, k)
    ensures var v := Fft(Roots(d), p2);
      k < |Evens(v)| == |Odds(v)| && Evens(v)[k] == ZERO && Odds(v)[k] == odd[k]
  {
    hide Eval, Pow, Fft, Resize;
    PairAt(d, p, p2, k, 2 * k, 2 * k + 1);
  }

  lemma PairAt(d: Size, p: Vec, p2: Vec, k: nat, even: nat, odd: nat)
    requires |p| <= |p2| == d.q * d.l && p2 == Resize(p, |p2|) && even == 2 * k && odd == 2 * k + 1 && odd < |p2|
    ensures var v := Fft(Roots(d), p2);
      && k < |Evens(v)| == |Odds(v)|
      && Evens(v)[k] == Eval(p, Pow(d.gen, even)) && Odds(v)[k] == Eval(p, Pow(d.gen, odd))
  {
    hide Eval, Pow, Fft, Resize;
    FftAt(d, p, p2, even);
    FftAt(d, p, p2, odd);
  }

  lemma FftAt(d: Size, p: Vec, p2: Vec, j: nat)
    requires |p| <= |p2| == d.q * d.l && p2 == Resize(p, |p2|) && j < |p2|
    ensures Fft(Roots(d), p2)[j] == Eval(p, Pow(d.gen, j))
  {
    hide Eval, Pow;
    ResizeSame(p2);
    MulOne(Pow(d.gen, j));
    EvalResize(p, |p2|, Pow(d.gen, j));
  }

  // ----- the quotient's share of the equation

  /** AB - C on one coefficient less than twice as many. */
  function Difference(A: Vec, B: Vec, C: Vec, n: nat): (r: Vec)
    ensures |r| == n
  {
    VSub(Resize(PMul(A, B), n), Resize(C, n))
  }

  lemma DifferenceValue(A: Vec, B: Vec, C: Vec, m: nat, x: F)
    requires |A| == |B| == |C| == m && 0 < m
    ensures Eval(Difference(A, B, C, 2 * m - 1), x) == Sub(Mul(Eval(A, x), Eval(B, x)), Eval(C, x))
  {
    var n := 2 * m - 1;
    EvalSub(Resize(PMul(A, B), n), Resize(C, n), x);
    EvalResize(PMul(A, B), n, x);
    EvalResize(C, n, x);
    EvalPMul(A, B, x);
  }

  /** Weighted, what circom_h computes is A B - C at tau, when C interpolates the products. */
  lemma QuotientAtPoint(s: Size, root: F, tau: F, a: Vec, b: Vec)
    requires s.Valid() && OddCharacteristic() && IsRoot(root, 2 * (s.q * s.l)) && Mul(root, root) == s.gen
    requires |a| == |b| == s.q * s.l
    ensures s.q * s.l * 2 == Double(s, root).q * Double(s, root).l
    ensures var c := VMul(a, b);
      var A, B, C := Ifft(Roots(s), a), Ifft(Roots(s), b), Ifft(Roots(s), c);
      InnerProduct(OddWeights(s, root, tau), CircomRef(a, b, c, Roots(s), root))
        == Sub(Mul(Eval(A, tau), Eval(B, tau)), Eval(C, tau))
  {
    hide InnerProduct, Ifft, Eval, Size.Valid, OddCharacteristic, CircomRef, Difference, OddWeights;
    var m, c := s.q * s.l, VMul(a, b);
    PositiveSize(s);
    var A, B, C := Ifft(Roots(s), a), Ifft(Roots(s), b), Ifft(Roots(s), c);
    var p, h := Difference(A, B, C, 2 * m - 1), CircomRef(a, b, c, Roots(s), root);
    forall k: nat | k < m
      ensures AtPair(p, root, h, k)
    {
      EvenPower(root, k);
      InterpolantAt(s, a, k);
      InterpolantAt(s, b, k);
      InterpolantAt(s, c, k);
      DifferenceValue(A, B, C, m, Pow(root, 2 * k));
      AddNeg(Mul(a[k], b[k]));
      CircomPoints(a, b, c, s, root, k);
      DifferenceValue(A, B, C, m, Pow(root, 2 * k + 1));
    }
    OddWeightsValue(s, root, tau, p, h);
    DifferenceValue(A, B, C, m, tau);
  }

  lemma PositiveSize(s: Size)
    requires s.Valid()
    ensures 0 < s.q * s.l
  {
  }

  lemma EvenPower(root: F, k: nat)
    ensures Pow(root, 2 * k) == Pow(Mul(root, root), k)
  {
    PowMul(root, 2, k);
    PowFirst(root);
  }
}
