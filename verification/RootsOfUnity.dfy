/**
 * RootsOfUnity: sums over the powers of a root, and the Fourier inversion theorem.
 */
module RootsOfUnity {
  import opened ScalarField
  import opened Polynomials
  import opened Indices
  import opened Fourier

  // ----- sums

  function Sum(v: Vec): F {
    if v == [] then ZERO else Add(Sum(v[..|v| - 1]), v[|v| - 1])
  }

  /** The terms v[k] * x^k. */
  function Terms(v: Vec, x: F): (r: Vec)
    ensures |r| == |v|
  {
    seq(|v|, k requires 0 <= k < |v| => Mul(v[k], Pow(x, k)))
  }

  /** Folding from the top gives the sum of coefficients times powers. */
  lemma {:induction false} EvalIsSum(v: Vec, x: F)
    ensures Eval(v, x) == Sum(Terms(v, x))
    decreases |v|
  {
    if v != [] {
      var n := |v| - 1;
      var c := v[n];
      EvalIsSum(v[..n], x);
      assert Terms(v, x)[..n] == Terms(v[..n], x);
      assert v == v[..n] + [c];
      EvalConcat(v[..n], [c], x);
      EvalConstant(c, x);
      MulComm(Pow(x, n), c);
    }
  }

  lemma EvalConstant(c: F, x: F)
    ensures Eval([c], x) == c
  {
    assert [c] == [c] + [];
    EvalCons(c, [], x);
    MulZero(x);
    AddZero(c);
  }

  lemma {:induction false} SumAdd(a: Vec, b: Vec)
    requires |a| == |b|
    ensures Sum(VAdd(a, b)) == Add(Sum(a), Sum(b))
    decreases |a|
  {
    if a == [] {
      AddZero(ZERO);
    } else {
      var n := |a| - 1;
      SumAdd(a[..n], b[..n]);
      assert VAdd(a, b)[..n] == VAdd(a[..n], b[..n]);
      AddSwap(Sum(a[..n]), Sum(b[..n]), a[n], b[n]);
    }
  }

  lemma {:induction false} SumScale(c: F, a: Vec)
    ensures Sum(VScale(c, a)) == Mul(c, Sum(a))
    decreases |a|
  {
    if a == [] {
      MulZero(c);
    } else {
      var n := |a| - 1;
      SumScale(c, a[..n]);
      assert VScale(c, a)[..n] == VScale(c, a[..n]);
      Distrib(c, Sum(a[..n]), a[n]);
    }
  }

  /** n as an element of the field. */
  function Num(n: nat): F {
    if n == 0 then ZERO else Add(Num(n - 1), ONE)
  }

  lemma NumAdd(m: nat, n: nat)
    ensures Num(m + n) == Add(Num(m), Num(n))
  {
    if n == 0 {
      AddZero(Num(m));
    } else {
      NumAdd(m, n - 1);
      AddAssoc(Num(m), Num(n - 1), ONE);
    }
  }

  lemma NumMul(m: nat, n: nat)
    ensures Num(m * n) == Mul(Num(m), Num(n))
  {
    if n == 0 {
      MulZero(Num(m));
    } else {
      NumMul(m, n - 1);
      NumAdd(m * (n - 1), m);
      assert m * n == m * (n - 1) + m;
      Distrib(Num(m), Num(n - 1), ONE);
      MulOne(Num(m));
    }
  }

  /** The characteristic is not two, so no power of two vanishes. */
  predicate OddCharacteristic() {
    Neg(ONE) != ONE
  }

  lemma SizeNonZero(m: nat)
    requires IsPow2(m) && OddCharacteristic()
    ensures Num(m) != ZERO
  {
    AddZero(ONE);
    assert Num(1) == Add(Num(0), ONE);
    if m == 1 {
      OneIsNotZero();
    } else {
      SizeNonZero(m / 2);
      NumMul(2, m / 2);
      assert Num(2) == Add(Num(1), ONE);
      if Num(2) == ZERO {
        NegUnique(ONE, ONE);
      }
      NoZeroDivisors(Num(2), Num(m / 2));
    }
  }

  // ----- roots of unity

  lemma {:induction false} NegOnePower(k: nat)
    ensures Pow(Neg(ONE), k) == if k % 2 == 0 then ONE else Neg(ONE)
  {
    if k != 0 {
      NegOnePower(k - 1);
      NegMul(ONE, Neg(ONE));
      MulOne(Neg(ONE));
      NegNeg(ONE);
    }
  }

  /** A primitive root has full order. */
  lemma {:induction false} RootPowerNotOne(w: F, m: nat, k: nat)
    requires IsRoot(w, m) && OddCharacteristic() && 0 < k < m
    ensures Pow(w, k) != ONE
    decreases m
  {
    if k % 2 == 0 {
      RootSquare(w, m);
      RootPowerNotOne(Mul(w, w), m / 2, k / 2);
      PowMul(w, 2, k / 2);
      PowFirst(w);
    } else if Pow(w, k) == ONE {
      PowMul(w, k, m / 2);
      PowMul(w, m / 2, k);
      assert k * (m / 2) == m / 2 * k;
      PowOne(m / 2);
      NegOnePower(k);
    }
  }

  lemma RootNonZero(w: F, m: nat)
    requires IsRoot(w, m)
    ensures w != ZERO
  {
    RootOrder(w, m);
    if w == ZERO {
      MulZero(Pow(w, m - 1));
      OneIsNotZero();
    }
  }

  lemma InvPower(w: F, k: nat)
    requires w != ZERO
    ensures Mul(Pow(w, k), Pow(Inv(w), k)) == ONE && Mul(Pow(Inv(w), k), Pow(w, k)) == ONE
  {
    PowProduct(w, Inv(w), k);
    MulInv(w);
    PowOne(k);
    MulComm(Pow(w, k), Pow(Inv(w), k));
  }

  lemma InvRoot(w: F, m: nat)
    requires IsRoot(w, m)
    ensures w != ZERO && IsRoot(Inv(w), m)
  {
    RootNonZero(w, m);
    InvPower(w, m / 2);
    if m == 1 {
      MulOne(ONE);
      InvUnique(ONE, ONE);
    } else {
      InvUnique(Neg(ONE), Pow(Inv(w), m / 2));
      NegMul(ONE, Neg(ONE));
      MulOne(Neg(ONE));
      NegNeg(ONE);
      InvUnique(Neg(ONE), Neg(ONE));
    }
  }

  // ----- Fourier inversion

  function Ones(n: nat): (r: Vec)
    ensures |r| == n
  {
    seq(n, _ => ONE)
  }

  lemma {:induction false} Geometric(z: F, n: nat)
    ensures Mul(Sub(z, ONE), Eval(Ones(n), z)) == Sub(Pow(z, n), ONE)
  {
    if n == 0 {
      MulZero(Sub(z, ONE));
      AddNeg(ONE);
    } else {
      Geometric(z, n - 1);
      assert Ones(n) == Ones(n - 1) + [ONE];
      EvalConcat(Ones(n - 1), [ONE], z);
      EvalConstant(ONE, z);
      var d, p := Sub(z, ONE), Pow(z, n - 1);
      MulOne(p);
      Distrib(d, Eval(Ones(n - 1), z), p);
      MulComm(d, p);
      DistribSub(p, z, ONE);
      // (p - 1) + (pz - p) == pz - 1
      AddComm(Sub(p, ONE), Sub(Mul(p, z), p));
      AddAssoc(Sub(Mul(p, z), p), p, Neg(ONE));
      SubAdd(Mul(p, z), p);
    }
  }

  /** The values of p at all m-th roots of unity. */
  function Values(p: Vec, w: F, m: nat): (r: Vec)
    ensures |r| == m
  {
    seq(m, k requires 0 <= k < m => Eval(p, Pow(w, k)))
  }

  lemma SumOfPowers(w: F, m: nat, i: nat)
    requires IsRoot(w, m) && OddCharacteristic() && 0 < i < m
    ensures Sum(Terms(Ones(m), Pow(w, i))) == ZERO
  {
    var z := Pow(w, i);
    EvalIsSum(Ones(m), z);
    Geometric(z, m);
    RootOrder(w, m);
    PowMul(w, i, m);
    PowMul(w, m, i);
    assert i * m == m * i;
    PowOne(i);
    AddNeg(ONE);
    RootPowerNotOne(w, m, i);
    SubZeroIffEqual(z, ONE);
    NoZeroDivisors(Sub(z, ONE), Eval(Ones(m), z));
  }

  lemma {:induction false} SumOfOnes(m: nat)
    ensures Sum(Ones(m)) == Num(m)
  {
    if m != 0 {
      SumOfOnes(m - 1);
      assert Ones(m)[..m - 1] == Ones(m - 1);
    }
  }

  /** Summed over all roots of unity, only the constant coefficient of a polynomial survives. */
  lemma {:induction false} SumOfValues(p: Vec, w: F, m: nat)
    requires IsRoot(w, m) && OddCharacteristic() && 0 < |p| <= m
    ensures Sum(Values(p, w, m)) == Mul(p[0], Num(m))
    decreases |p|
  {
    var i := |p| - 1;
    var c := p[i];
    if i == 0 {
      SumOfOnes(m);
      SumScale(c, Ones(m));
      forall k | 0 <= k < m
        ensures Values(p, w, m)[k] == VScale(c, Ones(m))[k]
      {
        assert p == [c];
        EvalConstant(c, Pow(w, k));
        MulOne(c);
      }
      assert Values(p, w, m) == VScale(c, Ones(m));
    } else {
      var powers := Terms(Ones(m), Pow(w, i));
      forall k | 0 <= k < m
        ensures Values(p, w, m)[k] == VAdd(Values(p[..i], w, m), VScale(c, powers))[k]
      {
        LastTerm(p, w, k);
      }
      assert Values(p, w, m) == VAdd(Values(p[..i], w, m), VScale(c, powers));
      SumAdd(Values(p[..i], w, m), VScale(c, powers));
      SumScale(c, powers);
      SumOfPowers(w, m, i);
      MulZero(c);
      SumOfValues(p[..i], w, m);
      AddZero(Mul(p[0], Num(m)));
    }
  }

  lemma LastTerm(p: Vec, w: F, k: nat)
    requires 0 < |p|
    ensures var i := |p| - 1;
      Eval(p, Pow(w, k)) == Add(Eval(p[..i], Pow(w, k)), Mul(p[i], Mul(ONE, Pow(Pow(w, i), k))))
  {
    var i := |p| - 1;
    assert p == p[..i] + [p[i]];
    EvalConcat(p[..i], [p[i]], Pow(w, k));
    EvalConstant(p[i], Pow(w, k));
    PowMul(w, k, i);
    PowMul(w, i, k);
    assert i * k == k * i;
    MulOne(Pow(Pow(w, i), k));
    MulComm(p[i], Pow(Pow(w, i), k));
  }

  /** Moving the coefficients down by j, around the end, divides the values at roots by z^j. */
  lemma RotateValue(p: Vec, j: nat, z: F)
    requires j < |p| && Pow(z, |p|) == ONE
    ensures Mul(Eval(p[j..] + p[..j], z), Pow(z, j)) == Eval(p, z)
  {
    hide Eval, Pow;
    var a, b := p[..j], p[j..];
    var u, v := Eval(a, z), Eval(b, z);
    assert p == a + b;
    EvalConcat(a, b, z);
    EvalConcat(b, a, z);
    var zj, zr := Pow(z, j), Pow(z, |p| - j);
    PowAdd(z, |p| - j, j);
    Distrib(zj, v, Mul(zr, u));
    MulComm(v, zj);
    MulComm(zr, u);
    MulAssoc(u, zr, zj);
    MulOne(u);
    AddComm(Mul(zj, v), u);
  }

  /** The transform with the inverse root undoes the transform, up to the size. */
  lemma InverseDft(p: Vec, w: F, j: nat)
    requires IsRoot(w, |p|) && OddCharacteristic() && j < |p|
    ensures Eval(Dft(p, w), Pow(Inv(w), j)) == Mul(p[j], Num(|p|))
  {
    hide Pow, Eval, Inv, Mul, Sum, Num;
    var m := |p|;
    var r := p[j..] + p[..j];
    var y := Pow(Inv(w), j);
    InvRoot(w, m);
    EvalIsSum(Dft(p, w), y);
    forall k | 0 <= k < m
      ensures Terms(Dft(p, w), y)[k] == Values(r, w, m)[k]
    {
      InverseTerm(p, w, j, k);
    }
    assert Terms(Dft(p, w), y) == Values(r, w, m);
    SumOfValues(r, w, m);
  }

  lemma InverseTerm(p: Vec, w: F, j: nat, k: nat)
    requires IsRoot(w, |p|) && w != ZERO && j < |p|
    ensures Mul(Eval(p, Pow(w, k)), Pow(Pow(Inv(w), j), k)) == Eval(p[j..] + p[..j], Pow(w, k))
  {
    hide Pow, Eval, IsRoot, Inv;
    var z := Pow(w, k);
    var e := Eval(p[j..] + p[..j], z);
    RootOrder(w, |p|);
    PowSwap(w, k, |p|);
    PowOne(k);
    RotateValue(p, j, z);
    PowSwap(w, k, j);
    PowMul(w, j, k);
    PowMul(Inv(w), j, k);
    InvPower(w, j * k);
    MulAssoc(e, Pow(z, j), Pow(Pow(Inv(w), j), k));
    MulOne(e);
  }
}
