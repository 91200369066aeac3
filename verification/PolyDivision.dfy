/**
 * PolyDivision: polynomials without leading zeros, and long division.
 */
module PolyDivision {
  import opened ScalarField
  import opened Polynomials

  ghost predicate Normal(p: Vec) {
    p == [] || p[|p| - 1] != ZERO
  }

  /** Drops leading zeros, all of them. */
  function Norm(p: Vec): (r: Vec)
    ensures |r| <= |p| && Normal(r)
    ensures Normal(p) ==> r == p
  {
    if p == [] || p[|p| - 1] != ZERO then p else Norm(p[..|p| - 1])
  }

  /** The degree, zero for the zero polynomial as in the library. */
  function Degree(p: Vec): nat {
    if p == [] then 0 else |p| - 1
  }

  function Coef(p: Vec, i: nat): F {
    if i < |p| then p[i] else ZERO
  }

  ghost predicate Same(p: Vec, q: Vec) {
    forall i: nat :: Coef(p, i) == Coef(q, i)
  }

  lemma {:induction false} NormSame(p: Vec)
    ensures Same(Norm(p), p)
    decreases |p|
  {
    if p != [] && p[|p| - 1] == ZERO {
      NormSame(p[..|p| - 1]);
      forall i: nat
        ensures Coef(p[..|p| - 1], i) == Coef(p, i)
      {
      }
    }
  }

  lemma SameNormal(p: Vec, q: Vec)
    requires Same(p, q) && Normal(p) && Normal(q)
    ensures p == q
  {
    assert q != [] ==> Coef(p, |q| - 1) == Coef(q, |q| - 1);
    assert p != [] ==> Coef(p, |p| - 1) == Coef(q, |p| - 1);
    forall i | 0 <= i < |p|
      ensures p[i] == q[i]
    {
      assert Coef(p, i) == Coef(q, i);
    }
  }

  lemma EvalNorm(p: Vec, x: F)
    ensures Eval(Norm(p), x) == Eval(p, x)
  {
    var n := |Norm(p)|;
    NormSame(p);
    forall i | n <= i < |p|
      ensures p[i] == ZERO
    {
      assert Coef(Norm(p), i) == Coef(p, i);
    }
    EvalResize(p, n, x);
    forall i | 0 <= i < n
      ensures Norm(p)[i] == p[i]
    {
      assert Coef(Norm(p), i) == Coef(p, i);
    }
    assert Resize(p, n) == Norm(p);
  }

  function PSub(p: Vec, q: Vec): (r: Vec)
    ensures |r| == Max(|p|, |q|)
  {
    VSub(Resize(p, Max(|p|, |q|)), Resize(q, Max(|p|, |q|)))
  }

  lemma CoefPSub(p: Vec, q: Vec, i: nat)
    ensures Coef(PSub(p, q), i) == Sub(Coef(p, i), Coef(q, i))
  {
    AddNeg(ZERO);
  }

  lemma CoefPAdd(p: Vec, q: Vec, i: nat)
    ensures Coef(PAdd(p, q), i) == Add(Coef(p, i), Coef(q, i))
  {
    AddZero(ZERO);
  }

  lemma EvalPSub(p: Vec, q: Vec, x: F)
    ensures Eval(PSub(p, q), x) == Sub(Eval(p, x), Eval(q, x))
  {
    var n := Max(|p|, |q|);
    EvalResize(p, n, x);
    EvalResize(q, n, x);
    EvalSub(Resize(p, n), Resize(q, n), x);
  }

  /** p times X^k. */
  function Shift(p: Vec, k: nat): Vec {
    Zeros(k) + p
  }

  /** Multiplying with one more coefficient adds a shifted multiple. */
  lemma {:induction false} PMulAppend(a: Vec, c: F, d: Vec, i: nat)
    ensures Coef(PMul(a + [c], d), i) == Add(Coef(PMul(a, d), i), Coef(Shift(VScale(c, d), |a|), i))
    decreases |a|
  {
    hide PAdd, VScale, Shift, PMul;
    if a == [] {
      PMulOne(c, d);
      CoefPAdd(VScale(c, d), [ZERO], i);
      AddZero(Coef(VScale(c, d), i));
    } else {
      var rest, whole := PMul(a[1..], d), PMul(a[1..] + [c], d);
      assert (a + [c])[1..] == a[1..] + [c] && (a + [c])[0] == a[0];
      PMulCons(a, d);
      PMulCons(a + [c], d);
      CoefPAdd(VScale(a[0], d), [ZERO] + rest, i);
      CoefPAdd(VScale(a[0], d), [ZERO] + whole, i);
      var u := Coef(VScale(a[0], d), i);
      if i == 0 {
        ShiftLow(VScale(c, d), |a|);
        AddZero(Add(u, ZERO));
      } else {
        PMulAppend(a[1..], c, d, i - 1);
        ShiftPred(VScale(c, d), |a|, i);
        assert Coef([ZERO] + rest, i) == Coef(rest, i - 1) && Coef([ZERO] + whole, i) == Coef(whole, i - 1);
        AddAssoc(u, Coef(rest, i - 1), Coef(Shift(VScale(c, d), |a|), i));
      }
    }
  }

  lemma PMulOne(c: F, d: Vec)
    ensures [] + [c] == [c] && PMul([c], d) == PAdd(VScale(c, d), [ZERO])
    ensures Shift(VScale(c, d), 0) == VScale(c, d)
    ensures forall i :: 0 <= i ==> Coef(PMul([], d), i) == ZERO
  {
    assert [c][1..] == [] && [ZERO] + [] == [ZERO];
  }

  lemma PMulCons(a: Vec, d: Vec)
    requires a != []
    ensures PMul(a, d) == PAdd(VScale(a[0], d), [ZERO] + PMul(a[1..], d))
  {
  }

  lemma ShiftLow(p: Vec, k: nat)
    requires 0 < k
    ensures Coef(Shift(p, k), 0) == ZERO
  {
  }

  lemma ShiftPred(p: Vec, k: nat, i: nat)
    requires 0 < k && 0 < i
    ensures Coef(Shift(p, k), i) == Coef(Shift(p, k - 1), i - 1)
  {
  }

  lemma ShiftTop(p: Vec, k: nat)
    requires p != []
    ensures Coef(Shift(p, k), k + |p| - 1) == p[|p| - 1]
  {
  }

  /** Leading coefficients multiply. */
  lemma PMulLead(p: Vec, q: Vec)
    requires p != [] && q != []
    ensures PMul(p, q)[|p| + |q| - 2] == Mul(p[|p| - 1], q[|q| - 1])
  {
    hide PMul, Mul;
    var n, top := |p| - 1, |p| + |q| - 2;
    assert p == p[..n] + [p[n]];
    PMulTop(p[..n], p[n], q, top);
    assert Coef(PMul(p, q), top) == PMul(p, q)[top];
  }

  lemma PMulTop(a: Vec, c: F, q: Vec, top: nat)
    requires q != [] && top == |a| + |q| - 1
    ensures Coef(PMul(a + [c], q), top) == Mul(c, q[|q| - 1])
  {
    hide *;
    var x := Mul(c, q[|q| - 1]);
    PMulAppend(a, c, q, top);
    PMulShort(a, q, top);
    ScaleTop(c, q, |a|, top);
    AddZero(x);
  }

  lemma ScaleTop(c: F, q: Vec, k: nat, top: nat)
    requires q != [] && top == k + |q| - 1
    ensures Coef(Shift(VScale(c, q), k), top) == Mul(c, q[|q| - 1])
  {
    hide Shift, Mul;
    ShiftTop(VScale(c, q), k);
  }

  lemma PMulShort(p: Vec, q: Vec, i: nat)
    requires q != [] && |p| + |q| <= i + 1
    ensures Coef(PMul(p, q), i) == ZERO
  {
  }

  // ----- long division

  /** One step: the multiple of d that cancels the top coefficient of p is taken off. */
  function Cancelled(p: Vec, d: Vec): (r: Vec)
    requires d != [] && |d| <= |p|
    ensures |r| == |p| - 1
  {
    VSub(p, Shift(VScale(Mul(p[|p| - 1], Inv(d[|d| - 1])), d), |p| - |d|))[..|p| - 1]
  }

  function DivRem(p: Vec, d: Vec): (qr: (Vec, Vec))
    requires d != []
    ensures |qr.1| < |d| && Normal(qr.1)
    ensures |qr.0| == if |p| < |d| then 0 else |p| - |d| + 1
    decreases |p|
  {
    if |p| < |d| then ([], Norm(p))
    else
      var (q, r) := DivRem(Cancelled(p, d), d);
      (Resize(q, |p| - |d|) + [Mul(p[|p| - 1], Inv(d[|d| - 1]))], r)
  }

  lemma CancelledCoef(p: Vec, d: Vec, i: nat)
    requires d != [] && |d| <= |p| && d[|d| - 1] != ZERO
    ensures var c := Mul(p[|p| - 1], Inv(d[|d| - 1]));
      Coef(p, i) == Add(Coef(Cancelled(p, d), i), Coef(Shift(VScale(c, d), |p| - |d|), i))
  {
    var e := d[|d| - 1];
    var c := Mul(p[|p| - 1], Inv(e));
    var m := Shift(VScale(c, d), |p| - |d|);
    assert |m| == |p|;
    if i < |p| - 1 {
      SubAdd(p[i], m[i]);
    } else if i == |p| - 1 {
      MulAssoc(p[i], Inv(e), e);
      MulInv(e);
      MulOne(p[i]);
      AddZero(p[i]);
    } else {
      AddZero(ZERO);
    }
  }

  lemma ResizeQuotient(p: Vec, d: Vec)
    requires d != [] && |d| <= |p|
    ensures Resize(DivRem(Cancelled(p, d), d).0, |p| - |d|) == DivRem(Cancelled(p, d), d).0
  {
  }

  /** Quotient times divisor plus remainder is the dividend, coefficient by coefficient. */
  lemma {:induction false} DivRemCoef(p: Vec, d: Vec, i: nat)
    requires d != [] && d[|d| - 1] != ZERO
    ensures var (q, r) := DivRem(p, d); Coef(p, i) == Add(Coef(PMul(q, d), i), Coef(r, i))
    decreases |p|
  {
    if |p| < |d| {
      NormSame(p);
      assert Coef(Norm(p), i) == Coef(p, i);
      AddZero(Coef(p, i));
    } else {
      var p' := Cancelled(p, d);
      var (q, r) := DivRem(p', d);
      var c := Mul(p[|p| - 1], Inv(d[|d| - 1]));
      DivRemCoef(p', d, i);
      CancelledCoef(p, d, i);
      ResizeQuotient(p, d);
      PMulAppend(q, c, d, i);
      var u, v, w := Coef(PMul(q, d), i), Coef(r, i), Coef(Shift(VScale(c, d), |q|), i);
      AddAssoc(u, v, w);
      AddComm(v, w);
      AddAssoc(u, w, v);
    }
  }

  lemma DivRemEval(p: Vec, d: Vec, x: F)
    requires d != [] && d[|d| - 1] != ZERO
    ensures var (q, r) := DivRem(p, d); Eval(p, x) == Add(Mul(Eval(q, x), Eval(d, x)), Eval(r, x))
  {
    var (q, r) := DivRem(p, d);
    var s := PAdd(PMul(q, d), r);
    forall i: nat
      ensures Coef(p, i) == Coef(s, i)
    {
      DivRemCoef(p, d, i);
      CoefPAdd(PMul(q, d), r, i);
    }
    SameEval(p, s, x);
    EvalPAdd(PMul(q, d), r, x);
    EvalPMul(q, d, x);
  }

  lemma SameEval(p: Vec, q: Vec, x: F)
    requires Same(p, q)
    ensures Eval(p, x) == Eval(q, x)
  {
    NormSame(p);
    NormSame(q);
    forall i: nat
      ensures Coef(Norm(p), i) == Coef(Norm(q), i)
    {
      assert Coef(p, i) == Coef(q, i);
      assert Coef(Norm(p), i) == Coef(p, i) && Coef(Norm(q), i) == Coef(q, i);
    }
    SameNormal(Norm(p), Norm(q));
    EvalNorm(p, x);
    EvalNorm(q, x);
  }

  /** Subtracting the product with the quotient leaves the remainder. */
  lemma RemainderBySubtraction(p: Vec, d: Vec)
    requires d != [] && d[|d| - 1] != ZERO
    ensures var (q, r) := DivRem(p, d); Norm(PSub(p, PMul(q, d))) == r
  {
    var (q, r) := DivRem(p, d);
    var s := PSub(p, PMul(q, d));
    NormSame(s);
    forall i: nat
      ensures Coef(Norm(s), i) == Coef(r, i)
    {
      DivRemCoef(p, d, i);
      CoefPSub(p, PMul(q, d), i);
      AddComm(Coef(PMul(q, d), i), Coef(r, i));
      SubAdd(Coef(r, i), Coef(PMul(q, d), i));
      assert Coef(Norm(s), i) == Coef(s, i);
    }
    SameNormal(Norm(s), r);
  }

  lemma QuotientNormal(p: Vec, d: Vec)
    requires Normal(p) && d != [] && d[|d| - 1] != ZERO
    ensures Normal(DivRem(p, d).0)
  {
    if |d| <= |p| {
      InvNonZero(d[|d| - 1]);
      NoZeroDivisors(p[|p| - 1], Inv(d[|d| - 1]));
    }
  }
}
