/**
 * ProductForms: the polynomial (1 + x[0] Y) (1 + x[1] Y^2) (1 + x[2] Y^4) ... of a list of
 * challenges, its coefficients, and how it arises from folding a vector of powers.
 */
module ProductForms {
  import opened ScalarField
  import opened Polynomials
  import opened Indices
  import opened RootsOfUnity
  import opened InnerProducts
  import opened Gipa

  function Reverse(v: Vec): (r: Vec)
    ensures |r| == |v|
    ensures forall i :: 0 <= i < |v| ==> r[i] == v[|v| - 1 - i]
  {
    seq(|v|, i requires 0 <= i < |v| => v[|v| - 1 - i])
  }

  /** The product of 1 + t[j] * y^(2^j). */
  function ProductForm(t: Vec, y: F): F {
    if t == [] then ONE
    else
      var n := |t| - 1;
      Mul(ProductForm(t[..n], y), Add(ONE, Mul(t[n], Pow(y, Pow2(n)))))
  }

  /** The coefficients of the product form of r * Y, doubled once a challenge. */
  function Coefficients(t: Vec, r: F): (c: Vec)
    ensures |c| == Pow2(|t|)
  {
    if t == [] then [ONE]
    else
      var n := |t| - 1;
      var c := Coefficients(t[..n], r);
      c + VScale(Mul(t[n], Pow(r, Pow2(n))), c)
  }

  lemma PowDoubled(y: F, n: nat)
    ensures Mul(Pow(y, Pow2(n)), Pow(y, Pow2(n))) == Pow(y, Pow2(n + 1))
  {
    PowAdd(y, Pow2(n), Pow2(n));
  }

  /** The value at z of the polynomial shifted by r; squares the running power once a challenge. */
  method PolynomialEvaluationProductForm(t: Vec, z: F, r: F) returns (res: F)
    requires t != []
    ensures res == ProductForm(t, Mul(z, r))
  {
    var powerZr := Mul(z, r);
    ghost var y := powerZr;
    res := Add(ONE, Mul(t[0], powerZr));
    PowFirst(y);
    MulOne(res);
    assert t[..1] == [t[0]];
    assert ProductForm([], y) == ONE && [t[0]][..0] == [];
    for i := 1 to |t|
      invariant powerZr == Pow(y, Pow2(i - 1))
      invariant res == ProductForm(t[..i], y)
    {
      PowDoubled(y, i - 1);
      powerZr := Mul(powerZr, powerZr);
      assert t[..i + 1][..i] == t[..i];
      res := Mul(res, Add(ONE, Mul(t[i], powerZr)));
    }
    assert t[..|t|] == t;
  }

  /** Appends a scaled copy of the coefficients once a challenge. */
  method PolynomialCoefficients(t: Vec, r: F) returns (coefficients: Vec)
    ensures coefficients == Coefficients(t, r)
  {
    hide Coefficients, Mul, Pow, Pow2;
    coefficients := [ONE];
    var power2R := r;
    FirstCoefficients(t, r);
    for i := 0 to |t|
      invariant coefficients == Coefficients(t[..i], r)
      invariant power2R == Pow(r, Pow2(if i == 0 then 0 else i - 1))
    {
      var n := |coefficients|;
      if i > 0 {
        PowDoubled(r, i - 1);
        power2R := Mul(power2R, power2R);
      }
      ghost var c := coefficients;
      ghost var copy := VScale(Mul(t[i], power2R), c);
      for j := 0 to n
        invariant coefficients == c + copy[..j]
      {
        MulComm(c[j], Mul(t[i], power2R));
        assert copy[..j + 1] == copy[..j] + [copy[j]];
        coefficients := coefficients + [Mul(coefficients[j], Mul(t[i], power2R))];
      }
      assert copy[..n] == copy;
      NextCoefficients(t, r, i);
    }
    assert t[..|t|] == t;
  }

  lemma FirstCoefficients(t: Vec, r: F)
    ensures Coefficients(t[..0], r) == [ONE] && Pow(r, Pow2(0)) == r
  {
    PowFirst(r);
  }

  lemma NextCoefficients(t: Vec, r: F, i: nat)
    requires i < |t|
    ensures var c := Coefficients(t[..i], r);
      Coefficients(t[..i + 1], r) == c + VScale(Mul(t[i], Pow(r, Pow2(i))), c)
  {
    assert t[..i + 1][..i] == t[..i];
  }

  /** The doubled coefficients are those of the product form. */
  lemma {:induction false} CoefficientsEval(t: Vec, r: F, z: F)
    ensures Eval(Coefficients(t, r), z) == ProductForm(t, Mul(z, r))
    decreases |t|
  {
    if t == [] {
      EvalConstant(ONE, z);
    } else {
      var n := |t| - 1;
      var c := Coefficients(t[..n], r);
      var s := Mul(t[n], Pow(r, Pow2(n)));
      CoefficientsEval(t[..n], r, z);
      EvalConcat(c, VScale(s, c), z);
      EvalScale(s, c, z);
      PowProduct(z, r, Pow2(n));
      MulRotate(Pow(z, Pow2(n)), t[n], Pow(r, Pow2(n)));
      var e, u := Eval(c, z), Mul(t[n], Pow(Mul(z, r), Pow2(n)));
      MulAssoc(Pow(z, Pow2(n)), s, e);
      MulComm(u, e);
      Distrib(e, ONE, u);
      MulOne(e);
    }
  }

  lemma LastOfDouble(c: Vec, s: F)
    requires c != []
    ensures (c + VScale(s, c))[2 * |c| - 1] == Mul(s, c[|c| - 1])
  {
    assert (c + VScale(s, c))[|c| + (|c| - 1)] == VScale(s, c)[|c| - 1];
  }

  /** No challenge is zero, so the top coefficient is not: stripping zeros changes nothing. */
  lemma {:induction false} TopCoefficient(t: Vec, r: F)
    requires r != ZERO && forall i :: 0 <= i < |t| ==> t[i] != ZERO
    ensures Coefficients(t, r)[|Coefficients(t, r)| - 1] != ZERO
    decreases |t|
  {
    hide Pow2, Pow, Mul, VScale;
    if t == [] {
      OneIsNotZero();
    } else {
      var n := |t| - 1;
      TopCoefficient(t[..n], r);
      PowNonZero(r, Pow2(n));
      var s, c := Mul(t[n], Pow(r, Pow2(n))), Coefficients(t[..n], r);
      NoZeroDivisors(t[n], Pow(r, Pow2(n)));
      NoZeroDivisors(s, c[|c| - 1]);
      LastOfDouble(c, s);
      assert Coefficients(t, r) == c + VScale(s, c);
    }
  }

  // ----- vectors of powers

  /** p, p q, p q^2, ... */
  function Powers(p: F, q: F, n: nat): (r: Vec)
    ensures |r| == n
  {
    seq(n, i requires 0 <= i < n => Mul(p, Pow(q, i)))
  }

  lemma FoldPowers(p: F, q: F, h: nat, c: F)
    ensures Fold(Powers(p, q, 2 * h), c) == Powers(Mul(p, Add(ONE, Mul(c, Pow(q, h)))), q, h)
  {
    hide Pow, Add, Mul;
    var v := Powers(p, q, 2 * h);
    var folded := Powers(Mul(p, Add(ONE, Mul(c, Pow(q, h)))), q, h);
    var left, right := v[..h], v[h..];
    forall i | 0 <= i < h
      ensures Add(left[i], Mul(c, right[i])) == folded[i]
    {
      PowAdd(q, h, i);
      FoldedPower(p, Pow(q, i), Pow(q, h), c);
    }
    assert |v| / 2 == h;
    assert Fold(v, c) == VAdd(left, VScale(c, right));
    assert VAdd(left, VScale(c, right)) == folded;
  }

  /** p e + c (p (u e)) == p (1 + c u) e */
  lemma FoldedPower(p: F, e: F, u: F, c: F)
    ensures Add(Mul(p, e), Mul(c, Mul(p, Mul(u, e)))) == Mul(Mul(p, Add(ONE, Mul(c, u))), e)
  {
    MulRotate(c, p, Mul(u, e));
    MulAssoc(c, u, e);
    Distrib(p, e, Mul(Mul(c, u), e));
    Distrib(e, ONE, Mul(c, u));
    MulOne(e);
    MulAssoc(p, Add(ONE, Mul(c, u)), e);
  }

  /** Folding powers of q all the way leaves the product form at q, latest challenge first. */
  lemma {:induction false} FoldAllPowers(p: F, q: F, cs: Vec)
    ensures FoldAll(Powers(p, q, Pow2(|cs|)), cs) == [Mul(p, ProductForm(Reverse(cs), q))]
    decreases |cs|
  {
    hide Pow, Mul, Add, Powers, ProductForm, Fold;
    if cs == [] {
      NoPowers(p, q, cs);
    } else {
      FoldAllPowersStep(p, q, cs);
      FoldAllPowers(Mul(p, Add(ONE, Mul(cs[0], Pow(q, Pow2(|cs| - 1))))), q, cs[1..]);
    }
  }

  lemma NoPowers(p: F, q: F, cs: Vec)
    requires cs == []
    ensures FoldAll(Powers(p, q, Pow2(|cs|)), cs) == [Mul(p, ProductForm(Reverse(cs), q))]
  {
    PowFirst(q);
    assert Powers(p, q, 1) == [Mul(p, ONE)];
  }

  lemma ReverseTail(cs: Vec)
    requires cs != []
    ensures |Reverse(cs)| == |cs| && Reverse(cs)[|cs| - 1] == cs[0] && Reverse(cs)[..|cs| - 1] == Reverse(cs[1..])
  {
  }

  lemma FoldAllPowersStep(p: F, q: F, cs: Vec)
    requires cs != []
    ensures var u := Add(ONE, Mul(cs[0], Pow(q, Pow2(|cs| - 1))));
      && FoldAll(Powers(p, q, Pow2(|cs|)), cs) == FoldAll(Powers(Mul(p, u), q, Pow2(|cs| - 1)), cs[1..])
      && Mul(Mul(p, u), ProductForm(Reverse(cs[1..]), q)) == Mul(p, ProductForm(Reverse(cs), q))
  {
    hide Fold, Powers, Pow, Add, Mul, Reverse;
    var n := |cs| - 1;
    var u := Add(ONE, Mul(cs[0], Pow(q, Pow2(n))));
    FoldPowers(p, q, Pow2(n), cs[0]);
    ReverseTail(cs);
    var f := ProductForm(Reverse(cs[1..]), q);
    MulAssoc(p, u, f);
    MulComm(u, f);
  }

  /** The multiexponentiation of the powers of x with coefficients v is p times the value at x. */
  lemma InnerPowers(p: F, x: F, v: Vec)
    ensures InnerProduct(Powers(p, x, |v|), v) == Mul(p, Eval(v, x))
  {
    EvalIsSum(v, x);
    SumScale(p, Terms(v, x));
    forall i | 0 <= i < |v|
      ensures VMul(Powers(p, x, |v|), v)[i] == VScale(p, Terms(v, x))[i]
    {
      MulAssoc(p, Pow(x, i), v[i]);
      MulComm(Pow(x, i), v[i]);
    }
    assert VMul(Powers(p, x, |v|), v) == VScale(p, Terms(v, x));
  }

  /** A folded key is the multiexponentiation of the original key with the doubled coefficients. */
  lemma {:induction false} FoldAllIsInner(v: Vec, cs: Vec)
    requires |v| == Pow2(|cs|)
    ensures FoldAll(v, cs) == [InnerProduct(v, Coefficients(Reverse(cs), ONE))]
    decreases |cs|
  {
    hide InnerProduct, Fold;
    if cs == [] {
      InnerWithOne(v);
    } else {
      FoldAllIsInner(Fold(v, cs[0]), cs[1..]);
      InnerDoubled(v, cs);
    }
  }

  lemma InnerWithOne(v: Vec)
    requires |v| == 1
    ensures InnerProduct(v, [ONE]) == v[0]
  {
    assert VMul(v, [ONE]) == [Mul(v[0], ONE)] && [Mul(v[0], ONE)][..0] == [];
    assert Sum([Mul(v[0], ONE)]) == Add(Sum([]), Mul(v[0], ONE));
    MulOne(v[0]);
    AddZero(v[0]);
  }

  lemma InnerDoubled(v: Vec, cs: Vec)
    requires cs != [] && |v| == Pow2(|cs|)
    ensures InnerProduct(v, Coefficients(Reverse(cs), ONE))
         == InnerProduct(Fold(v, cs[0]), Coefficients(Reverse(cs[1..]), ONE))
  {
    hide InnerProduct, Coefficients, Pow2, Mul, Add, Fold, Reverse;
    Doubled(|cs|);
    CoefficientsDouble(cs);
    HalvesInner(v, Coefficients(Reverse(cs[1..]), ONE), cs[0]);
  }

  lemma Doubled(k: nat)
    requires k > 0
    ensures Pow2(k) == 2 * Pow2(k - 1)
  {
  }

  lemma HalvesInner(v: Vec, c: Vec, u: F)
    requires |v| == 2 * |c|
    ensures InnerProduct(v, c + VScale(u, c)) == InnerProduct(Fold(v, u), c)
  {
    hide InnerProduct, VScale, Mul, Add;
    var h := |c|;
    var all := c + VScale(u, c);
    assert all[..h] == c && all[h..] == VScale(u, c);
    InnerSplit(v, all, h);
    InnerComm(v[h..], VScale(u, c));
    InnerScale(u, c, v[h..]);
    InnerComm(c, v[h..]);
    InnerAdd(v[..h], VScale(u, v[h..]), c);
    InnerScale(u, v[h..], c);
    assert |v| / 2 == h;
  }

  lemma CoefficientsDouble(cs: Vec)
    requires cs != []
    ensures var c := Coefficients(Reverse(cs[1..]), ONE);
      Coefficients(Reverse(cs), ONE) == c + VScale(cs[0], c)
  {
    hide Pow2, Mul;
    var n := |cs| - 1;
    assert Reverse(cs)[..n] == Reverse(cs[1..]);
    PowOne(Pow2(n));
    MulOne(cs[0]);
  }
}
