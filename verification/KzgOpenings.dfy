/**
 * KzgOpenings: showing that the folded commitment keys are what the challenges prescribe.
 */
module KzgOpenings {
  import opened Results
  import opened ScalarField
  import opened Polynomials
  import opened Indices
  import opened InnerProducts
  import opened RootsOfUnity
  import opened PolyDivision
  import opened Gipa
  import opened ProductForms
  import opened PairingChecks
  import opened StructuredKeys

  datatype Error = InvalidKeyLength | InvalidSRS | InvalidProof | MalformedVerifyingKey

  datatype Opening = Opening(a: F, b: F)

  /** (poly - y) / (X - z), the remainder dropped. */
  function KzgQuotient(poly: Vec, y: F, z: F): (q: Vec)
    ensures |q| <= |poly|
  {
    DivRem(Norm(PSub(poly, Norm([y]))), [Neg(z), ONE]).0
  }

  /** Opens at z over both tables; the polynomial must have as many coefficients as the tables. */
  function CreateKzgOpening(alphaTable: Vec, betaTable: Vec, poly: Vec, evalPoly: F, z: F): Result<Opening, Error>
    requires |alphaTable| == |betaTable|
  {
    if |poly| != |alphaTable| then Err(InvalidSRS)
    else
      var q := Resize(KzgQuotient(poly, evalPoly, z), |alphaTable|);
      Ok(Opening(InnerProduct(alphaTable, q), InnerProduct(betaTable, q)))
  }

  /** The opening of f_v over the powers of h. */
  method ProveCommitmentV(alphaTable: Vec, betaTable: Vec, t: Vec, z: F) returns (r: Result<Opening, Error>)
    requires |alphaTable| == |betaTable| && t != []
    ensures r == CreateKzgOpening(alphaTable, betaTable, Norm(Coefficients(t, ONE)), ProductForm(t, z), z)
  {
    var coefficients := PolynomialCoefficients(t, ONE);
    var polyZ := PolynomialEvaluationProductForm(t, z, ONE);
    MulOne(z);
    r := CreateKzgOpening(alphaTable, betaTable, Norm(coefficients), polyZ, z);
  }

  /**
   * The opening of f_w = X^n f over the powers of g. The value that is subtracted is f(z) times z to
   * the length of the table, which is twice n.
   */
  method ProveCommitmentW(alphaTable: Vec, betaTable: Vec, t: Vec, rShift: F, z: F) returns (r: Result<Opening, Error>)
    requires |alphaTable| == |betaTable| && t != []
    ensures r == CreateKzgOpening(alphaTable, betaTable, Norm(Shifted(t, rShift)),
                                  Mul(ProductForm(t, Mul(z, rShift)), Pow(z, |alphaTable|)), z)
  {
    var fcoeffs := PolynomialCoefficients(t, rShift);
    var fwcoeffs := Zeros(|fcoeffs|) + fcoeffs;
    var fz := PolynomialEvaluationProductForm(t, z, rShift);
    var zn := Pow(z, |alphaTable|);
    r := CreateKzgOpening(alphaTable, betaTable, Norm(fwcoeffs), Mul(fz, zn), z);
  }

  /** The coefficients of X^n f. */
  function Shifted(t: Vec, r: F): (p: Vec)
    ensures |p| == 2 * Pow2(|t|)
  {
    Zeros(Pow2(|t|)) + Coefficients(t, r)
  }

  lemma ShiftedEval(t: Vec, r: F, x: F)
    ensures Eval(Shifted(t, r), x) == Mul(Pow(x, Pow2(|t|)), ProductForm(t, Mul(x, r)))
  {
    var n := Pow2(|t|);
    EvalConcat(Zeros(n), Coefficients(t, r), x);
    EvalZero(Zeros(n), x);
    CoefficientsEval(t, r, x);
    AddZero(Mul(Pow(x, n), ProductForm(t, Mul(x, r))));
  }

  /** The value the prover subtracts is z^n times the value of f_w. */
  lemma SubtractedValue(t: Vec, r: F, z: F)
    ensures Mul(ProductForm(t, Mul(z, r)), Pow(z, |Shifted(t, r)|)) == Mul(Pow(z, Pow2(|t|)), Eval(Shifted(t, r), z))
  {
    var n := Pow2(|t|);
    ShiftedEval(t, r, z);
    PowAdd(z, n, n);
    MulComm(ProductForm(t, Mul(z, r)), Pow(z, 2 * n));
    MulAssoc(Pow(z, n), Pow(z, n), ProductForm(t, Mul(z, r)));
  }

  /** So it is the value of f_w only where z^n is one or f_w vanishes. */
  lemma SubtractedExact(t: Vec, r: F, z: F)
    ensures Mul(ProductForm(t, Mul(z, r)), Pow(z, |Shifted(t, r)|)) == Eval(Shifted(t, r), z)
       <==> Pow(z, Pow2(|t|)) == ONE || Eval(Shifted(t, r), z) == ZERO
  {
    hide Shifted, ProductForm;
    SubtractedValue(t, r, z);
    var zn, v := Pow(z, Pow2(|t|)), Eval(Shifted(t, r), z);
    MulOne(v);
    MulZero(zn);
    if Mul(zn, v) == v && v != ZERO {
      MulCancel(zn, ONE, v);
    }
  }

  lemma EvalLinear(z: F, x: F)
    ensures Eval([Neg(z), ONE], x) == Sub(x, z)
  {
    assert [Neg(z), ONE] == [Neg(z)] + [ONE];
    EvalCons(Neg(z), [ONE], x);
    EvalConstant(ONE, x);
    MulOne(x);
  }

  lemma EvalAtMostConstant(p: Vec, x: F, y: F)
    requires |p| <= 1
    ensures Eval(p, x) == Eval(p, y)
  {
    if |p| == 1 {
      EvalConstant(p[0], x);
      EvalConstant(p[0], y);
    }
  }

  /** The quotient is right whatever value is subtracted: only the remainder depends on it. */
  lemma QuotientIgnoresValue(poly: Vec, y: F, z: F, x: F)
    ensures Mul(Eval(KzgQuotient(poly, y, z), x), Sub(x, z)) == Sub(Eval(poly, x), Eval(poly, z))
  {
    hide DivRem, PSub, Norm;
    OneIsNotZero();
    var d := [Neg(z), ONE];
    var p := Norm(PSub(poly, Norm([y])));
    var (q, r) := DivRem(p, d);
    SubtractedEval(poly, y, z);
    SubtractedEval(poly, y, x);
    DivRemEval(p, d, z);
    DivRemEval(p, d, x);
    EvalLinear(z, z);
    EvalLinear(z, x);
    EvalAtMostConstant(r, x, z);
    RemainderCancels(Eval(q, z), z, Mul(Eval(q, x), Sub(x, z)), Eval(r, z), Eval(poly, z), Eval(poly, x), y);
  }

  lemma SubtractedEval(poly: Vec, y: F, x: F)
    ensures Eval(Norm(PSub(poly, Norm([y]))), x) == Sub(Eval(poly, x), y)
  {
    EvalNorm(PSub(poly, Norm([y])), x);
    EvalPSub(poly, Norm([y]), x);
    EvalNorm([y], x);
    EvalConstant(y, x);
  }

  /** b - y == p + c and a - y == c give p == b - a. */
  lemma RemainderCancels(qz: F, z: F, p: F, c: F, a: F, b: F, y: F)
    requires Sub(a, y) == Add(Mul(qz, Sub(z, z)), c) && Sub(b, y) == Add(p, c)
    ensures p == Sub(b, a)
  {
    AddNeg(z);
    MulZero(qz);
    AddZero(c);
    SubSwap(b, y, a, y);
    SubAdd(a, y);
    SubAdd(b, y);
    SubSwap(p, c, ZERO, c);
    AddZero(c);
    AddNeg(c);
    NegZero();
    AddZero(p);
    AddNeg(y);
    ShiftBoth(b, a, y);
  }

  lemma ShiftBoth(b: F, a: F, y: F)
    ensures Sub(Sub(b, y), Sub(a, y)) == Sub(b, a)
  {
    var u, v := Sub(b, y), Sub(a, y);
    SubAdd(b, y);
    SubAdd(a, y);
    SubSwap(u, y, v, y);
    AddNeg(y);
    AddZero(Sub(u, v));
  }

  /** What an opening over powers of x holds: (x - z) times it is the difference of the two values. */
  lemma OpeningValue(p: F, x: F, poly: Vec, y: F, z: F)
    ensures var q := Resize(KzgQuotient(poly, y, z), |poly|);
      Mul(InnerProduct(Powers(p, x, |poly|), q), Sub(x, z)) == Mul(p, Sub(Eval(poly, x), Eval(poly, z)))
  {
    hide KzgQuotient, InnerProduct, Powers;
    var quotient := KzgQuotient(poly, y, z);
    var q := Resize(quotient, |poly|);
    InnerPowers(p, x, q);
    EvalResize(quotient, |poly|, x);
    QuotientIgnoresValue(poly, y, z, x);
    MulAssoc(p, Eval(q, x), Sub(x, z));
  }

  lemma NonZeroTop(p: Vec)
    requires p != [] && p[|p| - 1] != ZERO
    ensures Norm(p) == p
  {
  }

  // ----- the verifier's side

  /** e(-g, cf - y h) e(vk - x g, pi) == 1 */
  function KzgCheckV(g: F, h: F, ng: F, x: F, y: F, cf: F, vk: F, pi: F, coeff: F): Check {
    Rand(coeff, [(ng, Sub(cf, Mul(h, y))), (Sub(vk, Mul(g, x)), pi)], ZERO)
  }

  /** e(cf - y g, -h) e(pi, wk - x h) == 1 */
  function KzgCheckW(g: F, h: F, nh: F, x: F, y: F, cf: F, wk: F, pi: F, coeff: F): Check {
    Rand(coeff, [(Sub(cf, Mul(g, y)), nh), (pi, Sub(wk, Mul(h, x)))], ZERO)
  }

  /** The check passes exactly when g (cf - y h) == (vk - x g) pi. */
  lemma KzgCheckVMeaning(g: F, h: F, x: F, y: F, cf: F, vk: F, pi: F, coeff: F)
    requires coeff != ZERO
    ensures KzgCheckV(g, h, Neg(g), x, y, cf, vk, pi, coeff).Satisfied()
       <==> Mul(g, Sub(cf, Mul(h, y))) == Mul(Sub(vk, Mul(g, x)), pi)
  {
    var b, c := Sub(cf, Mul(h, y)), Sub(vk, Mul(g, x));
    RandTwo(coeff, Neg(g), b, c, pi, ZERO);
    NegMul(g, b);
    MinusPlus(Mul(g, b), Mul(c, pi));
  }

  lemma KzgCheckWMeaning(g: F, h: F, x: F, y: F, cf: F, wk: F, pi: F, coeff: F)
    requires coeff != ZERO
    ensures KzgCheckW(g, h, Neg(h), x, y, cf, wk, pi, coeff).Satisfied()
       <==> Mul(Sub(cf, Mul(g, y)), h) == Mul(pi, Sub(wk, Mul(h, x)))
  {
    var a, d := Sub(cf, Mul(g, y)), Sub(wk, Mul(h, x));
    RandTwo(coeff, a, Neg(h), pi, d, ZERO);
    NegMul(a, h);
    MinusPlus(Mul(a, h), Mul(pi, d));
  }

  lemma MinusPlus(p: F, q: F)
    ensures Add(Neg(p), q) == ZERO <==> p == q
  {
    AddComm(Neg(p), q);
    SubZeroIffEqual(q, p);
  }

  /** A folded key h f(alpha) and the opening of f at z pass the check for the value f(z). */
  lemma OpeningPassesV(g: F, h: F, alpha: F, poly: Vec, z: F, pi: F, coeff: F)
    requires coeff != ZERO
    requires Mul(pi, Sub(alpha, z)) == Mul(h, Sub(Eval(poly, alpha), Eval(poly, z)))
    ensures KzgCheckV(g, h, Neg(g), z, Eval(poly, z), Mul(h, Eval(poly, alpha)), Mul(g, alpha), pi, coeff).Satisfied()
  {
    KzgCheckVMeaning(g, h, z, Eval(poly, z), Mul(h, Eval(poly, alpha)), Mul(g, alpha), pi, coeff);
    DistribSub(h, Eval(poly, alpha), Eval(poly, z));
    DistribSub(g, alpha, z);
    MulAssoc(g, Sub(alpha, z), pi);
    MulComm(Sub(alpha, z), pi);
  }

  lemma OpeningPassesW(g: F, h: F, alpha: F, poly: Vec, z: F, pi: F, coeff: F)
    requires coeff != ZERO
    requires Mul(pi, Sub(alpha, z)) == Mul(g, Sub(Eval(poly, alpha), Eval(poly, z)))
    ensures KzgCheckW(g, h, Neg(h), z, Eval(poly, z), Mul(g, Eval(poly, alpha)), Mul(h, alpha), pi, coeff).Satisfied()
  {
    KzgCheckWMeaning(g, h, z, Eval(poly, z), Mul(g, Eval(poly, alpha)), Mul(h, alpha), pi, coeff);
    DistribSub(g, Eval(poly, alpha), Eval(poly, z));
    DistribSub(h, alpha, z);
    MulRotate(pi, h, Sub(alpha, z));
    MulComm(h, Mul(pi, Sub(alpha, z)));
  }
}
