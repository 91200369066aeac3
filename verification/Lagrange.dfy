/**
 * Lagrange: the polynomial with given roots, synthetic division, and interpolation.
 *
 * The functions say what is computed; the methods compute it in place.
 */
module Lagrange {
  import opened ScalarField
  import opened Polynomials

  // ----- the polynomial with given roots

  /** p times X - a. */
  function MulLinear(p: Vec, a: F): (r: Vec)
    requires p != []
    ensures |r| == |p| + 1
  {
    seq(|p| + 1, k requires 0 <= k <= |p| => MulLinearAt(p, a, k))
  }

  function MulLinearAt(p: Vec, a: F, k: nat): F
    requires p != [] && k <= |p|
  {
    if k == |p| then p[k - 1]
    else if k == 0 then Sub(ZERO, Mul(p[k], a))
    else Sub(p[k - 1], Mul(p[k], a))
  }

  function ZeroPoly(xs: seq<F>): (r: Vec)
    ensures |r| == |xs| + 1
  {
    if xs == [] then [ONE] else MulLinear(ZeroPoly(xs[..|xs| - 1]), xs[|xs| - 1])
  }

  /** The product of x - a over all a in xs. */
  function RootProduct(xs: seq<F>, x: F): F {
    if xs == [] then ONE else Mul(Sub(x, xs[|xs| - 1]), RootProduct(xs[..|xs| - 1], x))
  }

  lemma MulLinearValue(p: Vec, a: F, x: F)
    requires p != []
    ensures Eval(MulLinear(p, a), x) == Mul(Sub(x, a), Eval(p, x))
  {
    var up, down := [ZERO] + p, VScale(a, p) + [ZERO];
    forall k | 0 <= k <= |p|
      ensures MulLinearAt(p, a, k) == VSub(up, down)[k]
    {
      if k == |p| {
        NegZero();
        AddZero(p[k - 1]);
      } else {
        MulComm(p[k], a);
      }
    }
    assert MulLinear(p, a) == VSub(up, down);
    EvalSub(up, down, x);
    var e := Eval(p, x);
    EvalCons(ZERO, p, x);
    AddZero(Mul(e, x));
    EvalConcat(VScale(a, p), [ZERO], x);
    EvalZero([ZERO], x);
    EvalScale(a, p, x);
    MulZero(Pow(x, |p|));
    AddZero(Mul(a, e));
    DistribSub(e, x, a);
    MulComm(x, e);
  }

  lemma {:induction false} ZeroPolyValue(xs: seq<F>, x: F)
    ensures Eval(ZeroPoly(xs), x) == RootProduct(xs, x)
    decreases |xs|
  {
    if xs == [] {
      assert ZeroPoly(xs) == [ONE] + [];
      EvalCons(ONE, [], x);
      MulZero(x);
      AddZero(ONE);
    } else {
      ZeroPolyValue(xs[..|xs| - 1], x);
      MulLinearValue(ZeroPoly(xs[..|xs| - 1]), xs[|xs| - 1], x);
    }
  }

  /** The product vanishes at its roots and nowhere else. */
  lemma {:induction false} RootProductZero(xs: seq<F>, x: F)
    ensures RootProduct(xs, x) == ZERO <==> x in xs
    decreases |xs|
  {
    if xs == [] {
      OneIsNotZero();
    } else {
      var n := |xs| - 1;
      RootProductZero(xs[..n], x);
      SubZeroIffEqual(x, xs[n]);
      NoZeroDivisors(Sub(x, xs[n]), RootProduct(xs[..n], x));
      assert xs == xs[..n] + [xs[n]];
    }
  }

  lemma ZeroPolyMonic(xs: seq<F>)
    ensures ZeroPoly(xs)[|xs|] == ONE
  {
  }

  // ----- the interpolant

  /** The polynomial that vanishes at every point but xs[i]. */
  function Numerator(xs: seq<F>, i: nat): (r: Vec)
    requires i < |xs|
    ensures |r| == |xs|
  {
    Quotient(ZeroPoly(xs), xs[i])
  }

  function InvOrZero(x: F): F {
    if x == ZERO then ZERO else Inv(x)
  }

  function Weight(xs: seq<F>, y: F, i: nat): F
    requires i < |xs|
  {
    Mul(y, InvOrZero(Eval(Numerator(xs, i), xs[i])))
  }

  /** The weighted numerators added up, those below i. */
  function Partial(xs: seq<F>, ys: Vec, i: nat): (r: Vec)
    requires i <= |ys| == |xs|
    ensures |r| == |xs|
  {
    if i == 0 then Zeros(|xs|)
    else VAdd(Partial(xs, ys, i - 1), VScale(Weight(xs, ys[i - 1], i - 1), Numerator(xs, i - 1)))
  }

  function Interpolant(xs: seq<F>, ys: Vec): (r: Vec)
    requires |ys| == |xs|
    ensures |r| == |xs|
  {
    Partial(xs, ys, |xs|)
  }

  lemma NumeratorValue(xs: seq<F>, i: nat, x: F)
    requires i < |xs|
    ensures Mul(Sub(x, xs[i]), Eval(Numerator(xs, i), x)) == RootProduct(xs, x)
  {
    QuotientCorrect(ZeroPoly(xs), xs[i], x);
    ZeroPolyValue(xs, x);
    ZeroPolyValue(xs, xs[i]);
    RootProductZero(xs, xs[i]);
    AddZero(Mul(Sub(x, xs[i]), Eval(Numerator(xs, i), x)));
  }

  lemma NumeratorVanishes(xs: seq<F>, i: nat, j: nat)
    requires Distinct(xs) && i < |xs| && j < |xs| && i != j
    ensures Eval(Numerator(xs, i), xs[j]) == ZERO
  {
    NumeratorValue(xs, i, xs[j]);
    RootProductZero(xs, xs[j]);
    SubZeroIffEqual(xs[j], xs[i]);
    NoZeroDivisors(Sub(xs[j], xs[i]), Eval(Numerator(xs, i), xs[j]));
  }

  lemma NumeratorMonic(xs: seq<F>, i: nat)
    requires i < |xs|
    ensures Numerator(xs, i)[|xs| - 1] == ONE
  {
    ZeroPolyMonic(xs);
    var top := ZeroPoly(xs)[|xs|..];
    assert top == [ONE] + [];
    EvalCons(ONE, [], xs[i]);
    MulZero(xs[i]);
    AddZero(ONE);
  }

  lemma NumeratorNonZero(xs: seq<F>, i: nat)
    requires Distinct(xs) && i < |xs|
    ensures Eval(Numerator(xs, i), xs[i]) != ZERO
  {
    hide Eval, Numerator;
    if Eval(Numerator(xs, i), xs[i]) == ZERO {
      forall j | 0 <= j < |xs|
        ensures Eval(Numerator(xs, i), xs[j]) == ZERO
      {
        if j != i {
          NumeratorVanishes(xs, i, j);
        }
      }
      RootBound(Numerator(xs, i), xs);
      NumeratorMonic(xs, i);
      OneIsNotZero();
    }
  }

  lemma WeightedValue(xs: seq<F>, y: F, i: nat, j: nat)
    requires Distinct(xs) && i < |xs| && j < |xs|
    ensures Eval(VScale(Weight(xs, y, i), Numerator(xs, i)), xs[j]) == if i == j then y else ZERO
  {
    hide Eval, Numerator;
    var num, w := Numerator(xs, i), Weight(xs, y, i);
    EvalScale(w, num, xs[j]);
    if i == j {
      NumeratorNonZero(xs, j);
      var d := Eval(num, xs[j]);
      MulAssoc(y, Inv(d), d);
      MulInv(d);
      MulOne(y);
    } else {
      NumeratorVanishes(xs, i, j);
      MulZero(w);
    }
  }

  lemma {:induction false} PartialValue(xs: seq<F>, ys: Vec, i: nat, j: nat)
    requires Distinct(xs) && i <= |ys| == |xs| && j < |xs|
    ensures Eval(Partial(xs, ys, i), xs[j]) == if j < i then ys[j] else ZERO
    decreases i
  {
    hide Eval, Numerator, Weight;
    if i == 0 {
      EvalZero(Zeros(|xs|), xs[j]);
    } else {
      PartialValue(xs, ys, i - 1, j);
      var term := VScale(Weight(xs, ys[i - 1], i - 1), Numerator(xs, i - 1));
      EvalAdd(Partial(xs, ys, i - 1), term, xs[j]);
      WeightedValue(xs, ys[i - 1], i - 1, j);
      AddZero(Eval(term, xs[j]));
      AddZero(Eval(Partial(xs, ys, i - 1), xs[j]));
    }
  }

  /** The interpolant passes through every point. */
  lemma InterpolantValue(xs: seq<F>, ys: Vec, j: nat)
    requires Distinct(xs) && |ys| == |xs| && j < |xs|
    ensures Eval(Interpolant(xs, ys), xs[j]) == ys[j]
  {
    PartialValue(xs, ys, |xs|, j);
  }

  /** Interpolating enough values of a polynomial gives the polynomial back. */
  lemma InterpolantRecovers(p: Vec, xs: seq<F>, ys: Vec)
    requires Distinct(xs) && |p| <= |xs| == |ys|
    requires forall i :: 0 <= i < |xs| ==> ys[i] == Eval(p, xs[i])
    ensures Interpolant(xs, ys) == Resize(p, |xs|)
  {
    forall j | 0 <= j < |xs|
      ensures Eval(Interpolant(xs, ys), xs[j]) == Eval(Resize(p, |xs|), xs[j])
    {
      InterpolantValue(xs, ys, j);
      EvalResize(p, |xs|, xs[j]);
    }
    Interpolation(Interpolant(xs, ys), Resize(p, |xs|), xs);
  }
}
