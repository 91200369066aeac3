/**
 * Gao: decoding a word with errors by a partial extended Euclidean algorithm.
 */
module Gao {
  import opened ScalarField
  import opened Polynomials
  import opened PolyDivision
  import opened Fourier
  import opened RootsOfUnity
  import opened Domains
  import opened PackedSharing

  /** r == s b + t a, as functions. */
  ghost predicate Bezout(r: Vec, s: Vec, t: Vec, a: Vec, b: Vec) {
    forall x :: Eval(r, x) == Add(Mul(Eval(s, x), Eval(b, x)), Mul(Eval(t, x), Eval(a, x)))
  }

  /** The step of the algorithm: the previous element minus q times the current one. */
  function Step(prev: Vec, q: Vec, cur: Vec): (r: Vec)
    ensures Normal(r)
  {
    Norm(PSub(prev, PMul(q, cur)))
  }

  lemma StepEval(prev: Vec, q: Vec, cur: Vec, x: F)
    ensures Eval(Step(prev, q, cur), x) == Sub(Eval(prev, x), Mul(Eval(q, x), Eval(cur, x)))
  {
    EvalNorm(PSub(prev, PMul(q, cur)), x);
    EvalPSub(prev, PMul(q, cur), x);
    EvalPMul(q, cur, x);
  }

  lemma BezoutStep(r0: Vec, s0: Vec, t0: Vec, r: Vec, s: Vec, t: Vec, q: Vec, a: Vec, b: Vec)
    requires Bezout(r0, s0, t0, a, b) && Bezout(r, s, t, a, b)
    ensures Bezout(Step(r0, q, r), Step(s0, q, s), Step(t0, q, t), a, b)
  {
    forall x
      ensures Eval(Step(r0, q, r), x)
           == Add(Mul(Eval(Step(s0, q, s), x), Eval(b, x)), Mul(Eval(Step(t0, q, t), x), Eval(a, x)))
    {
      StepEval(r0, q, r, x);
      StepEval(s0, q, s, x);
      StepEval(t0, q, t, x);
      CombineStep(Eval(s0, x), Eval(s, x), Eval(t0, x), Eval(t, x), Eval(q, x), Eval(a, x), Eval(b, x));
    }
  }

  /** (s0 b + t0 a) - q (s b + t a) == (s0 - q s) b + (t0 - q t) a */
  lemma CombineStep(s0: F, s: F, t0: F, t: F, q: F, a: F, b: F)
    ensures Sub(Add(Mul(s0, b), Mul(t0, a)), Mul(q, Add(Mul(s, b), Mul(t, a))))
         == Add(Mul(Sub(s0, Mul(q, s)), b), Mul(Sub(t0, Mul(q, t)), a))
  {
    Distrib(q, Mul(s, b), Mul(t, a));
    MulAssoc(q, s, b);
    MulAssoc(q, t, a);
    DistribSub(b, s0, Mul(q, s));
    DistribSub(a, t0, Mul(q, t));
    SubSwap(Mul(s0, b), Mul(t0, a), Mul(Mul(q, s), b), Mul(Mul(q, t), a));
  }

  /** The degree of the new cofactor is that of the quotient plus that of the current one. */
  lemma CofactorLength(s0: Vec, q: Vec, s: Vec)
    requires Normal(s0) && Normal(q) && Normal(s) && q != [] && s != []
    requires |s0| < |q| + |s| - 1
    ensures |Step(s0, q, s)| == |q| + |s| - 1
  {
    hide PMul, Mul, Sub;
    PMulLead(q, s);
    NoZeroDivisors(q[|q| - 1], s[|s| - 1]);
    TopDifference(s0, PMul(q, s), |q| + |s| - 2);
  }

  lemma TopDifference(a: Vec, b: Vec, top: nat)
    requires |a| <= top && |b| == top + 1 && b[top] != ZERO
    ensures |Norm(PSub(a, b))| == top + 1
  {
    hide Sub;
    CoefPSub(a, b, top);
    SubZeroIffEqual(ZERO, b[top]);
    NormKeeps(PSub(a, b));
  }

  lemma NormKeeps(p: Vec)
    requires p != [] && p[|p| - 1] != ZERO
    ensures Norm(p) == p
  {
  }

  /** The sizes kept by the loop when a has the larger degree. */
  ghost predicate Sizes(a: Vec, r0: Vec, r: Vec, s0: Vec, s: Vec) {
    && s != [] && |s| + |r0| == |a| + 1
    && |r| < |r0| && (|s0| < |s|)
  }

  /** Runs the Euclidean algorithm until the remainder is small enough. */
  method PartialXgcd(a: Vec, b: Vec, codelength: nat, dimension: nat) returns (r: Vec, s: Vec, ghost t: Vec)
    requires Normal(a) && Normal(b) && 2 <= codelength + dimension
    ensures Normal(r) && Normal(s) && Degree(r) < (dimension + codelength) / 2
    ensures Bezout(r, s, t, a, b)
    ensures |b| < |a| ==> s != [] && (s == [ONE] || |s| + (dimension + codelength) / 2 <= |a|)
  {
    var stop := (dimension + codelength) / 2;
    s := [ONE];
    var prevS: Vec := [];
    r := b;
    var prevR := a;
    t := [];
    ghost var prevT := [ONE];
    BezoutStart(a, b);
    OneIsNotZero();
    while stop <= Degree(r)
      invariant Normal(r) && Normal(prevR) && Normal(s) && Normal(prevS)
      invariant Bezout(r, s, t, a, b) && Bezout(prevR, prevS, prevT, a, b)
      invariant |b| < |a| ==> Sizes(a, prevR, r, prevS, s)
      invariant |b| < |a| ==> s == [ONE] || stop < |prevR|
      decreases |r|
    {
      var q := DivRem(prevR, r).0;
      XgcdStep(a, b, prevR, prevS, prevT, r, s, t, q);
      ghost var nextT := Step(prevT, q, t);
      r, prevR := Step(prevR, q, r), r;
      s, prevS := Step(prevS, q, s), s;
      t, prevT := nextT, t;
    }
  }

  lemma BezoutStart(a: Vec, b: Vec)
    ensures Bezout(b, [ONE], [], a, b) && Bezout(a, [], [ONE], a, b)
  {
    forall x
      ensures Eval(b, x) == Add(Mul(Eval([ONE], x), Eval(b, x)), Mul(Eval([], x), Eval(a, x)))
      ensures Eval(a, x) == Add(Mul(Eval([], x), Eval(b, x)), Mul(Eval([ONE], x), Eval(a, x)))
    {
      EvalConstant(ONE, x);
      MulOne(Eval(a, x));
      MulOne(Eval(b, x));
      MulZero(Eval(a, x));
      MulZero(Eval(b, x));
      AddZero(Eval(a, x));
      AddZero(Eval(b, x));
    }
  }

  lemma XgcdStep(a: Vec, b: Vec, r0: Vec, s0: Vec, t0: Vec, r: Vec, s: Vec, t: Vec, q: Vec)
    requires Normal(r0) && Normal(r) && r != [] && Normal(s) && Normal(s0) && q == DivRem(r0, r).0
    requires Bezout(r0, s0, t0, a, b) && Bezout(r, s, t, a, b)
    ensures |Step(r0, q, r)| < |r|
    ensures Bezout(Step(r0, q, r), Step(s0, q, s), Step(t0, q, t), a, b)
    ensures Sizes(a, r0, r, s0, s) ==> Sizes(a, r, Step(r0, q, r), s, Step(s0, q, s))
  {
    RemainderBySubtraction(r0, r);
    BezoutStep(r0, s0, t0, r, s, t, q, a, b);
    if Sizes(a, r0, r, s0, s) {
      QuotientNormal(r0, r);
      CofactorLength(s0, q, s);
    }
  }

  // ----- words and errors

  /** The positions below i where the word is not the value of f. */
  function Errors(pp: Params, f: Vec, word: Vec, i: nat): (e: nat)
    requires i <= |word|
    ensures e <= i
  {
    if i == 0 then 0
    else Errors(pp, f, word, i - 1) + (if word[i - 1] == Eval(f, pp.share.Element(i - 1)) then 0 else 1)
  }

  /** The share points below i where the word agrees with f, or does not. */
  function PointsWhere(pp: Params, f: Vec, word: Vec, agree: bool, i: nat): (xs: seq<F>)
    requires i <= |word|
  {
    if i == 0 then []
    else
      var x := pp.share.Element(i - 1);
      PointsWhere(pp, f, word, agree, i - 1) + (if (word[i - 1] == Eval(f, x)) == agree then [x] else [])
  }

  /** x is the share point of a position below i where the word agrees with f, or does not. */
  ghost predicate PointOf(pp: Params, f: Vec, word: Vec, agree: bool, i: nat, x: F)
    requires i <= |word|
  {
    exists j: nat :: j < i && x == pp.share.Element(j) && (word[j] == Eval(f, pp.share.Element(j))) == agree
  }

  lemma {:induction false} PointsWhereFacts(pp: Params, f: Vec, word: Vec, agree: bool, i: nat)
    requires pp.Valid() && i <= |word| <= pp.n
    ensures var xs := PointsWhere(pp, f, word, agree, i);
      && |xs| == (if agree then i - Errors(pp, f, word, i) else Errors(pp, f, word, i))
      && Distinct(xs)
      && forall k :: 0 <= k < |xs| ==> PointOf(pp, f, word, agree, i, xs[k])
  {
    hide Eval, Params.Valid, PointOf;
    if i != 0 {
      PointsWhereFacts(pp, f, word, agree, i - 1);
      var before, xs := PointsWhere(pp, f, word, agree, i - 1), PointsWhere(pp, f, word, agree, i);
      var x := pp.share.Element(i - 1);
      assert xs == before + (if (word[i - 1] == Eval(f, x)) == agree then [x] else []);
      forall k | 0 <= k < |before|
        ensures before[k] != x && PointOf(pp, f, word, agree, i, before[k])
      {
        EarlierPoint(pp, f, word, agree, i - 1, before[k]);
      }
      if (word[i - 1] == Eval(f, x)) == agree {
        LatestPoint(pp, f, word, agree, i - 1);
      }
    }
  }

  lemma EarlierPoint(pp: Params, f: Vec, word: Vec, agree: bool, i: nat, x: F)
    requires pp.Valid() && i < |word| <= pp.n && PointOf(pp, f, word, agree, i, x)
    ensures x != pp.share.Element(i) && PointOf(pp, f, word, agree, i + 1, x)
  {
    hide Eval, Params.Valid;
    var j: nat :| j < i && x == pp.share.Element(j) && (word[j] == Eval(f, pp.share.Element(j))) == agree;
    SharePointsDiffer(pp, j, i);
  }

  lemma LatestPoint(pp: Params, f: Vec, word: Vec, agree: bool, i: nat)
    requires i < |word| && (word[i] == Eval(f, pp.share.Element(i))) == agree
    ensures PointOf(pp, f, word, agree, i + 1, pp.share.Element(i))
  {
    hide Eval;
  }

  lemma SharePointsDiffer(pp: Params, i: nat, j: nat)
    requires pp.Valid() && i < j < pp.n
    ensures pp.share.Element(i) != pp.share.Element(j)
  {
    ElementsDistinct(pp.share, i, j);
  }

  /** X^n - 1, which vanishes on the share domain. */
  function VanishingPoly(n: nat): (r: Vec)
    requires 0 < n
    ensures |r| == n + 1 && Normal(r)
  {
    OneIsNotZero();
    [Neg(ONE)] + Zeros(n - 1) + [ONE]
  }

  lemma VanishingValue(n: nat, x: F)
    requires 0 < n
    ensures Eval(VanishingPoly(n), x) == Sub(Pow(x, n), ONE)
  {
    var low := [Neg(ONE)] + Zeros(n - 1);
    EvalConcat(low, [ONE], x);
    EvalConstant(ONE, x);
    EvalCons(Neg(ONE), Zeros(n - 1), x);
    EvalZero(Zeros(n - 1), x);
    MulZero(x);
    AddZero(Neg(ONE));
    MulOne(Pow(x, n));
    AddComm(Neg(ONE), Pow(x, n));
  }

  lemma VanishesOnShares(pp: Params, i: nat)
    requires pp.Valid()
    ensures Eval(VanishingPoly(pp.n), pp.share.Element(i)) == ZERO
  {
    var z := pp.share.Element(i);
    VanishingValue(pp.n, z);
    MulOne(Pow(pp.share.gen, i));
    RootOrder(pp.share.gen, pp.n);
    PowMul(pp.share.gen, i, pp.n);
    PowMul(pp.share.gen, pp.n, i);
    assert i * pp.n == pp.n * i;
    PowOne(i);
    AddNeg(ONE);
  }

  /** The interpolant of the received word. */
  function Received(pp: Params, word: Vec): (b: Vec)
    ensures |b| <= pp.share.size && Normal(b)
  {
    Norm(Ifft(pp.share, word))
  }

  lemma ReceivedValue(pp: Params, word: Vec, i: nat)
    requires pp.Valid() && |word| == pp.n && i < pp.n
    ensures Eval(Received(pp, word), pp.share.Element(i)) == word[i]
  {
    var p := Ifft(pp.share, word);
    FftIfft(pp.share, word);
    ResizeSame(p);
    EvalNorm(p, pp.share.Element(i));
    assert Fft(pp.share, p)[i] == word[i];
  }

  /** On the share points the remainder is the cofactor times the word. */
  lemma KeyEquation(pp: Params, word: Vec, r: Vec, s: Vec, t: Vec, i: nat)
    requires pp.Valid() && |word| == pp.n && i < pp.n
    requires Bezout(r, s, t, VanishingPoly(pp.n), Received(pp, word))
    ensures var x := pp.share.Element(i); Eval(r, x) == Mul(Eval(s, x), word[i])
  {
    var x := pp.share.Element(i);
    VanishesOnShares(pp, i);
    ReceivedValue(pp, word, i);
    MulZero(Eval(t, x));
    AddZero(Mul(Eval(s, x), word[i]));
  }

  // ----- decoding

  /** The product of the cofactor and the message, without padding when the message is zero. */
  function Times(s: Vec, f: Vec): Vec {
    if f == [] then [] else PMul(s, f)
  }

  lemma TimesEval(s: Vec, f: Vec, x: F)
    ensures Eval(Times(s, f), x) == Mul(Eval(s, x), Eval(f, x))
  {
    EvalPMul(s, f, x);
    MulZero(Eval(s, x));
  }

  /** The division algorithm stops at a remainder of smaller degree. */
  function Stop(dimension: nat, codelength: nat): nat {
    (dimension + codelength) / 2
  }

  /** The sizes and the distance with which decoding succeeds. */
  ghost predicate Decodable(pp: Params, f: Vec, word: Vec, k: nat, stop: nat) {
    |f| <= k && |word| == pp.n && Errors(pp, f, word, pp.n) + k <= stop && Errors(pp, f, word, pp.n) + stop <= pp.n
  }

  /** For the length of the code itself, half the redundancy. */
  lemma DecodableRadius(pp: Params, f: Vec, word: Vec, k: nat)
    requires k <= pp.n
    ensures Decodable(pp, f, word, k, Stop(k, pp.n))
       <==> |f| <= k && |word| == pp.n && Errors(pp, f, word, pp.n) <= (pp.n - k) / 2
  {
  }

  ghost predicate Stopped(pp: Params, r: Vec, s: Vec, stop: nat) {
    && Normal(r) && Normal(s) && s != [] && Degree(r) < stop
    && (s == [ONE] || |s| + stop <= pp.n + 1)
  }

  /** The remainder is the cofactor times the message: they agree too often to differ. */
  lemma RemainderIsProduct(pp: Params, f: Vec, word: Vec, k: nat, stop: nat, r: Vec, s: Vec, t: Vec)
    requires pp.Valid() && Decodable(pp, f, word, k, stop) && Stopped(pp, r, s, stop) && 0 < stop
    requires Bezout(r, s, t, VanishingPoly(pp.n), Received(pp, word))
    ensures Same(r, Times(s, f)) && |Times(s, f)| <= pp.n
  {
    var p := PSub(r, Times(s, f));
    var points := PointsWhere(pp, f, word, true, pp.n);
    PointsWhereFacts(pp, f, word, true, pp.n);
    forall i | 0 <= i < |points|
      ensures Eval(p, points[i]) == ZERO
    {
      var j: nat :| j < pp.n && points[i] == pp.share.Element(j) && word[j] == Eval(f, pp.share.Element(j));
      KeyEquation(pp, word, r, s, t, j);
      TimesEval(s, f, points[i]);
      EvalPSub(r, Times(s, f), points[i]);
      AddNeg(Eval(r, points[i]));
    }
    RootBound(p, points);
    forall i: nat
      ensures Coef(r, i) == Coef(Times(s, f), i)
    {
      CoefPSub(r, Times(s, f), i);
      SubZeroIffEqual(Coef(r, i), Coef(Times(s, f), i));
      assert Coef(p, i) == ZERO;
    }
  }

  /** So dividing by the cofactor gives the message and leaves nothing. */
  lemma QuotientIsMessage(pp: Params, f: Vec, r: Vec, s: Vec)
    requires pp.Valid() && Normal(s) && s != [] && |r| <= pp.n && |s| <= pp.n
    requires Same(r, Times(s, f)) && |Times(s, f)| <= pp.n && Normal(r)
    ensures DivRem(r, s) == (Norm(f), [])
  {
    hide Eval, DivRem, PSub, PMul, Norm, Times;
    var (q, rem) := DivRem(r, s);
    var d := Norm(PSub(f, q));
    var g := PSub(PMul(d, s), rem);
    QuotientNormal(r, s);
    forall i | 0 <= i < pp.n
      ensures Eval(g, pp.share.Element(i)) == ZERO
    {
      QuotientDifference(f, r, s, pp.share.Element(i));
    }
    DifferenceSize(f, r, s, pp.n);
    ZeroOnShares(pp, g);
    ZeroDifference(d, s, rem);
    NothingLeft(g, rem);
    EqualQuotients(f, q);
  }

  lemma ZeroDifference(d: Vec, s: Vec, rem: Vec)
    requires Normal(d) && Normal(s) && s != [] && |rem| < |s| && IsZero(PSub(PMul(d, s), rem))
    ensures d == [] && PMul(d, s) == []
  {
    hide PMul, PSub;
    if d != [] {
      var top := |d| + |s| - 2;
      var g := PSub(PMul(d, s), rem);
      assert |PMul(d, s)| == top + 1 && |g| == top + 1;
      PMulLead(d, s);
      NoZeroDivisors(d[|d| - 1], s[|s| - 1]);
      CoefPSub(PMul(d, s), rem, top);
      SubZeroIffEqual(PMul(d, s)[top], ZERO);
      assert false;
    }
  }

  lemma QuotientDifference(f: Vec, r: Vec, s: Vec, x: F)
    requires Normal(s) && s != [] && Same(r, Times(s, f))
    ensures var (q, rem) := DivRem(r, s);
      Eval(PSub(PMul(Norm(PSub(f, q)), s), rem), x) == ZERO
  {
    var (q, rem) := DivRem(r, s);
    var d := Norm(PSub(f, q));
    SameEval(r, Times(s, f), x);
    TimesEval(s, f, x);
    DivRemEval(r, s, x);
    EvalPSub(PMul(d, s), rem, x);
    EvalPMul(d, s, x);
    EvalNorm(PSub(f, q), x);
    EvalPSub(f, q, x);
    var u, v, w, e := Eval(f, x), Eval(q, x), Eval(s, x), Eval(rem, x);
    // (u - v)w - e, where wu == vw + e
    DistribSub(w, u, v);
    MulComm(u, w);
    AddComm(Mul(v, w), e);
    SubAdd(e, Mul(v, w));
    AddNeg(e);
  }

  lemma DifferenceSize(f: Vec, r: Vec, s: Vec, n: nat)
    requires s != [] && Normal(s) && |r| <= n && |s| <= n && |Times(s, f)| <= n
    ensures var (q, rem) := DivRem(r, s);
      |PSub(PMul(Norm(PSub(f, q)), s), rem)| <= n
  {
  }

  lemma ZeroOnShares(pp: Params, g: Vec)
    requires pp.Valid() && |g| <= pp.n
    requires forall i :: 0 <= i < pp.n ==> Eval(g, pp.share.Element(i)) == ZERO
    ensures IsZero(g)
  {
    var xs := Points(pp, Everyone(pp.n));
    PointsDistinct(pp, Everyone(pp.n));
    RootBound(g, xs);
  }

  lemma NothingLeft(g: Vec, rem: Vec)
    requires g == PSub([], rem) && IsZero(g) && Normal(rem)
    ensures rem == []
  {
    if rem != [] {
      var top := |rem| - 1;
      CoefPSub([], rem, top);
      SubZeroIffEqual(ZERO, rem[top]);
      assert false;
    }
  }

  lemma EqualQuotients(f: Vec, q: Vec)
    requires Norm(PSub(f, q)) == [] && Normal(q)
    ensures q == Norm(f)
  {
    NormSame(f);
    NormSame(PSub(f, q));
    forall i: nat
      ensures Coef(Norm(f), i) == Coef(q, i)
    {
      CoefPSub(f, q, i);
      SubZeroIffEqual(Coef(f, i), Coef(q, i));
      assert Coef(Norm(f), i) == Coef(f, i);
      assert Coef(Norm(PSub(f, q)), i) == Coef(PSub(f, q), i);
    }
    SameNormal(Norm(f), q);
  }

  /** A successful division is right wherever the cofactor does not vanish. */
  lemma FewErrors(pp: Params, word: Vec, stop: nat, r: Vec, s: Vec, t: Vec)
    requires pp.Valid() && pp.n == |word| && Stopped(pp, r, s, stop)
    requires Bezout(r, s, t, VanishingPoly(pp.n), Received(pp, word)) && DivRem(r, s).1 == []
    ensures var e := Errors(pp, DivRem(r, s).0, word, pp.n); e == 0 || e + stop <= pp.n
  {
    var h := DivRem(r, s).0;
    var points := PointsWhere(pp, h, word, false, pp.n);
    PointsWhereFacts(pp, h, word, false, pp.n);
    if |s| <= |points| {
      forall i | 0 <= i < |points|
        ensures Eval(s, points[i]) == ZERO
      {
        var j: nat :| j < pp.n && points[i] == pp.share.Element(j) && word[j] != Eval(h, pp.share.Element(j));
        var x := points[i];
        KeyEquation(pp, word, r, s, t, j);
        DivRemEval(r, s, x);
        AddZero(Mul(Eval(h, x), Eval(s, x)));
        MulComm(Eval(h, x), Eval(s, x));
        MulComm(Eval(s, x), word[j]);
        MulComm(Eval(s, x), Eval(h, x));
        if Eval(s, x) != ZERO {
          MulCancel(word[j], Eval(h, x), Eval(s, x));
        }
      }
      RootBound(s, points);
      assert false;
    }
  }

  /**
   * Decoding: the message when there are few enough errors, and only then a short enough polynomial
   * close enough to the word; whenever the division is exact, a polynomial that differs from the word
   * in few positions. The source stops when ok is false.
   */
  method DecodeToMessage(pp: Params, word: Vec, codelength: nat, dimension: nat) returns (ok: bool, h: Vec)
    requires pp.Valid() && |word| == pp.n && 2 <= codelength + dimension
    ensures forall f :: Decodable(pp, f, word, dimension, Stop(dimension, codelength)) ==> ok && h == Norm(f)
    ensures ok && Decodable(pp, h, word, dimension, Stop(dimension, codelength))
       <==> exists f :: Decodable(pp, f, word, dimension, Stop(dimension, codelength))
    ensures ok ==> var e := Errors(pp, h, word, pp.n); e == 0 || e + Stop(dimension, codelength) <= pp.n
  {
    var b := Received(pp, word);
    var z := VanishingPoly(pp.n);
    ghost var stop := Stop(dimension, codelength);
    ghost var t;
    var r, s;
    r, s, t := PartialXgcd(z, b, codelength, dimension);
    var (q, rem) := DivRem(r, s);
    ok, h := rem == [], q;
    forall f | Decodable(pp, f, word, dimension, stop)
      ensures ok && h == Norm(f) && Decodable(pp, h, word, dimension, stop)
    {
      RemainderIsProduct(pp, f, word, dimension, stop, r, s, t);
      QuotientIsMessage(pp, f, r, s);
      NormDecodable(pp, f, word, dimension, stop);
    }
    if ok {
      FewErrors(pp, word, stop, r, s, t);
    }
  }

  lemma NormDecodable(pp: Params, f: Vec, word: Vec, k: nat, stop: nat)
    requires Decodable(pp, f, word, k, stop)
    ensures Decodable(pp, Norm(f), word, k, stop)
  {
    NormErrors(pp, f, word, pp.n);
  }

  lemma {:induction false} NormErrors(pp: Params, f: Vec, word: Vec, n: nat)
    requires n <= |word|
    ensures Errors(pp, Norm(f), word, n) == Errors(pp, f, word, n)
  {
    hide Norm, Eval;
    if n > 0 {
      NormErrors(pp, f, word, n - 1);
      EvalNorm(f, pp.share.Element(n - 1));
    }
  }
}
