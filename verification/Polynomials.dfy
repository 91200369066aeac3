/**
 * Polynomials given by their coefficients, lowest degree first, and vectors of field elements.
 */
module Polynomials {
  import opened ScalarField

  type Vec = seq<F>

  /** The value of a polynomial at a point, folded from the highest coefficient down. */
  function Eval(p: Vec, x: F): F {
    if p == [] then ZERO else Add(Mul(Eval(p[1..], x), x), p[0])
  }

  function VAdd(a: Vec, b: Vec): (r: Vec)
    requires |a| == |b|
    ensures |r| == |a|
  {
    seq(|a|, i requires 0 <= i < |a| => Add(a[i], b[i]))
  }

  function VSub(a: Vec, b: Vec): (r: Vec)
    requires |a| == |b|
    ensures |r| == |a|
  {
    seq(|a|, i requires 0 <= i < |a| => Sub(a[i], b[i]))
  }

  function VScale(c: F, a: Vec): (r: Vec)
    ensures |r| == |a|
  {
    seq(|a|, i requires 0 <= i < |a| => Mul(c, a[i]))
  }

  function Zeros(n: nat): (r: Vec)
    ensures |r| == n
  {
    seq(n, _ => ZERO)
  }

  /** The first n coefficients, padded with zeros where there are fewer. */
  function Resize(p: Vec, n: nat): (r: Vec)
    ensures |r| == n
  {
    if n <= |p| then p[..n] else p + Zeros(n - |p|)
  }

  ghost predicate Distinct<T>(s: seq<T>) {
    forall i, j :: 0 <= i < j < |s| ==> s[i] != s[j]
  }

  ghost predicate IsZero(p: Vec) {
    forall i :: 0 <= i < |p| ==> p[i] == ZERO
  }

  // ----- evaluation is linear

  lemma EvalCons(c: F, p: Vec, x: F)
    ensures Eval([c] + p, x) == Add(Mul(Eval(p, x), x), c)
  {
    assert ([c] + p)[1..] == p;
  }

  lemma EvalZero(p: Vec, x: F)
    requires IsZero(p)
    ensures Eval(p, x) == ZERO
  {
    if p != [] {
      EvalZero(p[1..], x);
      MulZero(x);
      AddZero(ZERO);
    }
  }

  lemma EvalAdd(a: Vec, b: Vec, x: F)
    requires |a| == |b|
    ensures Eval(VAdd(a, b), x) == Add(Eval(a, x), Eval(b, x))
  {
    if a == [] {
      AddZero(ZERO);
    } else {
      assert VAdd(a, b)[1..] == VAdd(a[1..], b[1..]);
      EvalAdd(a[1..], b[1..], x);
      var u, v := Eval(a[1..], x), Eval(b[1..], x);
      Distrib(x, u, v);
      AddSwap(Mul(u, x), Mul(v, x), a[0], b[0]);
    }
  }

  lemma EvalScale(c: F, a: Vec, x: F)
    ensures Eval(VScale(c, a), x) == Mul(c, Eval(a, x))
  {
    if a == [] {
      MulZero(c);
    } else {
      assert VScale(c, a)[1..] == VScale(c, a[1..]);
      EvalScale(c, a[1..], x);
      var u := Eval(a[1..], x);
      MulAssoc(c, u, x);
      Distrib(c, Mul(u, x), a[0]);
    }
  }

  lemma EvalSub(a: Vec, b: Vec, x: F)
    requires |a| == |b|
    ensures Eval(VSub(a, b), x) == Sub(Eval(a, x), Eval(b, x))
  {
    if a == [] {
      AddNeg(ZERO);
    } else {
      assert VSub(a, b)[1..] == VSub(a[1..], b[1..]);
      EvalSub(a[1..], b[1..], x);
      var u, v := Eval(a[1..], x), Eval(b[1..], x);
      DistribSub(x, u, v);
      SubSwap(Mul(u, x), a[0], Mul(v, x), b[0]);
    }
  }

  lemma EvalConcat(a: Vec, b: Vec, x: F)
    ensures Eval(a + b, x) == Add(Eval(a, x), Mul(Pow(x, |a|), Eval(b, x)))
  {
    if a == [] {
      assert a + b == b;
      MulOne(Eval(b, x));
      AddZero(Eval(b, x));
    } else {
      assert (a + b)[1..] == a[1..] + b;
      EvalConcat(a[1..], b, x);
      var u, v, w := Eval(a[1..], x), Pow(x, |a| - 1), Eval(b, x);
      Distrib(x, u, Mul(v, w));
      MulComm(v, w);
      MulAssoc(w, v, x);
      MulComm(w, Mul(v, x));
      AddAssoc(Mul(u, x), Mul(Mul(v, w), x), a[0]);
      AddComm(Mul(Mul(v, w), x), a[0]);
      AddAssoc(Mul(u, x), a[0], Mul(Mul(v, w), x));
    }
  }

  /** Padding with zeros, or dropping coefficients that are zero, does not change the value. */
  lemma EvalResize(p: Vec, n: nat, x: F)
    requires forall i :: n <= i < |p| ==> p[i] == ZERO
    ensures Eval(Resize(p, n), x) == Eval(p, x)
  {
    if n <= |p| {
      assert p == p[..n] + p[n..];
      EvalConcat(p[..n], p[n..], x);
      EvalZero(p[n..], x);
    } else {
      EvalConcat(p, Zeros(n - |p|), x);
      EvalZero(Zeros(n - |p|), x);
    }
    var k := if n <= |p| then n else |p|;
    MulZero(Pow(x, k));
    AddZero(Eval(Resize(p, n), x));
    AddZero(Eval(p[..k], x));
    assert p[..|p|] == p;
  }

  // ----- roots

  /** The coefficients of the quotient of p by X - a: the partial Horner values of p at a. */
  function Quotient(p: Vec, a: F): (q: Vec)
    requires p != []
    ensures |q| == |p| - 1
  {
    seq(|p| - 1, i requires 0 <= i < |p| - 1 => Eval(p[i + 1..], a))
  }

  lemma QuotientCorrect(p: Vec, a: F, x: F)
    requires p != []
    ensures Eval(p, x) == Add(Mul(Sub(x, a), Eval(Quotient(p, a), x)), Eval(p, a))
  {
    if |p| == 1 {
      MulZero(Sub(x, a));
      MulZero(x);
      MulZero(a);
      AddZero(p[0]);
      AddZero(Eval(p, a));
    } else {
      var t := p[1..];
      var q := Eval(Quotient(t, a), x);
      QuotientCorrect(t, a, x);
      assert Quotient(p, a)[1..] == Quotient(t, a);
      assert Quotient(p, a)[0] == Eval(t, a);
      QuotientStep(x, a, q, Eval(t, a), p[0]);
    }
  }

  /** ((x - a)q + e)x + c == (x - a)(qx + e) + (ea + c) */
  lemma QuotientStep(x: F, a: F, q: F, e: F, c: F)
    ensures Add(Mul(Add(Mul(Sub(x, a), q), e), x), c)
         == Add(Mul(Sub(x, a), Add(Mul(q, x), e)), Add(Mul(e, a), c))
  {
    var d := Sub(x, a);
    Distrib(x, Mul(d, q), e);
    MulAssoc(d, q, x);
    Distrib(d, Mul(q, x), e);
    SubAdd(x, a);
    Distrib(e, d, a);
    MulComm(e, d);
    MulComm(e, x);
    AddAssoc(Mul(d, Mul(q, x)), Mul(d, e), Mul(e, a));
    AddAssoc(Mul(d, Add(Mul(q, x), e)), Mul(e, a), c);
  }

  lemma ZeroFromQuotient(p: Vec, a: F)
    requires p != [] && IsZero(Quotient(p, a)) && Eval(p, a) == ZERO
    ensures IsZero(p)
  {
    hide Eval, Quotient;
    forall i | 0 <= i < |p|
      ensures p[i] == ZERO
    {
      TailVanishes(p, a, i);
      TailVanishes(p, a, i + 1);
      assert p[i..] == [p[i]] + p[i + 1..];
      EvalCons(p[i], p[i + 1..], a);
      MulZero(a);
      AddZero(p[i]);
    }
  }

  lemma TailVanishes(p: Vec, a: F, i: nat)
    requires p != [] && IsZero(Quotient(p, a)) && Eval(p, a) == ZERO && i <= |p|
    ensures Eval(p[i..], a) == ZERO
  {
    hide Eval;
    if i == 0 {
      assert p[i..] == p;
    } else if i < |p| {
      assert Quotient(p, a)[i - 1] == Eval(p[i..], a);
    } else {
      EvalZero(p[i..], a);
    }
  }

  /** A polynomial with as many distinct roots as it has coefficients is zero. */
  lemma {:induction false} RootBound(p: Vec, roots: seq<F>)
    requires |p| <= |roots| && Distinct(roots)
    requires forall i :: 0 <= i < |roots| ==> Eval(p, roots[i]) == ZERO
    ensures IsZero(p)
    decreases |p|
  {
    if p != [] {
      var a, rest := roots[0], roots[1..];
      var q := Quotient(p, a);
      forall i | 0 <= i < |rest|
        ensures Eval(q, rest[i]) == ZERO
      {
        var x := roots[i + 1];
        QuotientCorrect(p, a, x);
        AddZero(Mul(Sub(x, a), Eval(q, x)));
        SubZeroIffEqual(x, a);
        NoZeroDivisors(Sub(x, a), Eval(q, x));
      }
      RootBound(q, rest);
      ZeroFromQuotient(p, a);
    }
  }

  /** Polynomials with as many coefficients as there are distinct points they agree on are equal. */
  lemma Interpolation(p: Vec, q: Vec, points: seq<F>)
    requires |p| == |q| <= |points| && Distinct(points)
    requires forall i :: 0 <= i < |points| ==> Eval(p, points[i]) == Eval(q, points[i])
    ensures p == q
  {
    var d := VSub(p, q);
    forall i | 0 <= i < |points|
      ensures Eval(d, points[i]) == ZERO
    {
      EvalSub(p, q, points[i]);
      SubZeroIffEqual(Eval(p, points[i]), Eval(q, points[i]));
    }
    RootBound(d, points);
    forall i | 0 <= i < |p|
      ensures p[i] == q[i]
    {
      assert d[i] == ZERO;
      SubZeroIffEqual(p[i], q[i]);
    }
  }

  // ----- sums and products of polynomials of any length

  function Max(m: nat, n: nat): nat {
    if m < n then n else m
  }

  function PAdd(p: Vec, q: Vec): (r: Vec)
    ensures |r| == Max(|p|, |q|)
  {
    VAdd(Resize(p, Max(|p|, |q|)), Resize(q, Max(|p|, |q|)))
  }

  function PMul(p: Vec, q: Vec): (r: Vec)
    ensures p == [] ==> r == []
    ensures p != [] && q != [] ==> |r| == |p| + |q| - 1
    ensures q == [] ==> |r| == |p|
  {
    if p == [] then [] else PAdd(VScale(p[0], q), [ZERO] + PMul(p[1..], q))
  }

  lemma EvalPAdd(p: Vec, q: Vec, x: F)
    ensures Eval(PAdd(p, q), x) == Add(Eval(p, x), Eval(q, x))
  {
    var n := Max(|p|, |q|);
    EvalResize(p, n, x);
    EvalResize(q, n, x);
    EvalAdd(Resize(p, n), Resize(q, n), x);
  }

  lemma {:induction false} EvalPMul(p: Vec, q: Vec, x: F)
    ensures Eval(PMul(p, q), x) == Mul(Eval(p, x), Eval(q, x))
    decreases |p|
  {
    var e := Eval(q, x);
    if p == [] {
      MulZero(e);
    } else {
      var rest := PMul(p[1..], q);
      EvalPMul(p[1..], q, x);
      EvalPAdd(VScale(p[0], q), [ZERO] + rest, x);
      EvalScale(p[0], q, x);
      EvalCons(ZERO, rest, x);
      AddZero(Mul(Eval(rest, x), x));
      var u := Eval(p[1..], x);
      // p0 e + (u e) x == (u x + p0) e
      MulAssoc(u, e, x);
      MulComm(e, x);
      MulAssoc(u, x, e);
      Distrib(e, Mul(u, x), p[0]);
      AddComm(Mul(p[0], e), Mul(Mul(u, x), e));
    }
  }
}
