/** InPlace: synthetic division, the zero polynomial and interpolation as loops over buffers. */
module InPlace {
  import opened ScalarField
  import opened Polynomials
  import opened Lagrange

  // ----- synthetic division

  /** Entry i of the running dividend once everything above it has been divided by X^a - b. */
  function SynAt(p: Vec, a: nat, b: F, i: nat): F
    requires 0 < a && i < |p|
    decreases |p| - i
  {
    if i + a < |p| then Add(p[i], Mul(SynAt(p, a, b, i + a), b)) else p[i]
  }

  function SynRemainder(p: Vec, a: nat, b: F): (r: Vec)
    requires 0 < a < |p|
    ensures |r| == a
  {
    seq(a, i requires 0 <= i < a => SynAt(p, a, b, i))
  }

  /** The quotient, padded with zeros to the length of the dividend. */
  function SynQuotient(p: Vec, a: nat, b: F): (r: Vec)
    requires 0 < a < |p|
    ensures |r| == |p|
  {
    seq(|p|, i requires 0 <= i < |p| => SynQuotientAt(p, a, b, i))
  }

  function SynQuotientAt(p: Vec, a: nat, b: F, i: nat): F
    requires 0 < a < |p| && i < |p|
  {
    if i < |p| - a then SynAt(p, a, b, i + a) else ZERO
  }

  /** The division is exact up to a remainder of fewer than a coefficients. */
  lemma SynDivCorrect(p: Vec, a: nat, b: F, x: F)
    requires 0 < a < |p|
    ensures Eval(p, x) == Add(Mul(Sub(Pow(x, a), b), Eval(SynQuotient(p, a, b), x)), Eval(SynRemainder(p, a, b), x))
  {
    var q, rem := SynQuotient(p, a, b), SynRemainder(p, a, b);
    var core := q[..|p| - a];
    var full := rem + core;
    forall i | 0 <= i < |p|
      ensures p[i] == VSub(full, VScale(b, q))[i]
    {
      SynEntry(p, a, b, i);
    }
    assert p == VSub(full, VScale(b, q));
    EvalSub(full, VScale(b, q), x);
    EvalScale(b, q, x);
    EvalConcat(rem, core, x);
    EvalResize(q, |p| - a, x);
    var e, r, z := Eval(q, x), Eval(rem, x), Pow(x, a);
    // (r + ze) - be == (z - b)e + r
    DistribSub(e, z, b);
    AddAssoc(r, Mul(z, e), Neg(Mul(b, e)));
    AddComm(r, Sub(Mul(z, e), Mul(b, e)));
  }

  lemma SynEntry(p: Vec, a: nat, b: F, i: nat)
    requires 0 < a < |p| && i < |p|
    ensures var q := SynQuotient(p, a, b);
      p[i] == Sub((SynRemainder(p, a, b) + q[..|p| - a])[i], Mul(b, q[i]))
  {
    var q := SynQuotient(p, a, b);
    assert (SynRemainder(p, a, b) + q[..|p| - a])[i] == SynAt(p, a, b, i);
    if i + a < |p| {
      MulComm(b, q[i]);
      SubAdd(p[i], Mul(q[i], b));
    } else {
      MulZero(b);
      NegZero();
      AddZero(p[i]);
    }
  }

  /** Dividing by X - b leaves the Horner values, so the quotient is the one of Lagrange's formula. */
  lemma {:induction false} SynHorner(p: Vec, b: F, i: nat)
    requires i < |p|
    ensures SynAt(p, 1, b, i) == Eval(p[i..], b)
    decreases |p| - i
  {
    assert p[i..][1..] == p[i + 1..];
    if i + 1 < |p| {
      SynHorner(p, b, i + 1);
      AddComm(p[i], Mul(SynAt(p, 1, b, i + 1), b));
    } else {
      MulZero(b);
      AddZero(p[i]);
    }
  }

  /** The branch for X - b: one variable keeps the remainder, so nothing has to be shifted. */
  method SynDivLinear(p: array<F>, b: F)
    requires 1 < p.Length
    modifies p
    ensures p[..] == SynQuotient(old(p[..]), 1, b)
  {
    ghost var x := p[..];
    var c := ZERO;
    var i := p.Length;
    while 0 < i
      invariant 0 <= i <= p.Length
      invariant forall k :: 0 <= k < i ==> p[k] == x[k]
      invariant forall k :: i <= k < p.Length ==> p[k] == SynQuotientAt(x, 1, b, k)
      invariant c == if i < p.Length then SynAt(x, 1, b, i) else ZERO
    {
      i := i - 1;
      MulComm(b, c);
      MulZero(b);
      AddZero(p[i]);
      p[i] := Add(p[i], Mul(b, c));
      p[i], c := c, p[i];
    }
  }

  lemma SynStep(p: Vec, a: nat, b: F, i: nat)
    requires 0 < a && i + a < |p|
    ensures SynAt(p, a, b, i) == Add(p[i], Mul(SynAt(p, a, b, i + a), b))
  {
  }

  lemma SynTop(p: Vec, a: nat, b: F)
    requires 0 < a < |p|
    ensures forall k :: |p| - a <= k < |p| ==> SynAt(p, a, b, k) == p[k]
  {
  }

  /** The branch for higher powers: the whole remainder is kept, then shifted away. */
  method SynDivPower(p: array<F>, a: nat, b: F)
    requires 0 < a < p.Length
    modifies p
    ensures p[..] == SynQuotient(old(p[..]), a, b)
  {
    hide SynAt, Add, Mul;
    ghost var x := p[..];
    var degreeOffset := p.Length - a;
    var i := degreeOffset;
    SynTop(x, a, b);
    while 0 < i
      invariant 0 <= i <= degreeOffset
      invariant forall k :: 0 <= k < i ==> p[k] == x[k]
      invariant forall k :: i <= k < p.Length ==> p[k] == SynAt(x, a, b, k)
    {
      i := i - 1;
      SynStep(x, a, b, i);
      MulOne(p[i + a]);
      p[i] := if b == ONE then Add(p[i], p[i + a]) else Add(p[i], Mul(p[i + a], b));
    }
    ShiftDown(p, a);
    assert forall k :: 0 <= k < p.Length ==> p[k] == SynQuotientAt(x, a, b, k);
  }

  /** The coefficients move down by a, zeros follow. */
  method ShiftDown(p: array<F>, a: nat)
    requires a < p.Length
    modifies p
    ensures forall k :: 0 <= k < p.Length ==> p[k] == if k < p.Length - a then old(p[k + a]) else ZERO
  {
    var degreeOffset := p.Length - a;
    forall k | 0 <= k < p.Length {
      p[k] := if k < degreeOffset then p[k + a] else ZERO;
    }
  }

  method SynDivInPlace(p: array<F>, a: nat, b: F)
    requires a != 0 && b != ZERO && a < p.Length
    modifies p
    ensures p[..] == SynQuotient(old(p[..]), a, b)
  {
    if a == 1 {
      SynDivLinear(p, b);
    } else {
      SynDivPower(p, a, b);
    }
  }

  method SynDiv(p: Vec, a: nat, b: F) returns (r: Vec)
    requires a != 0 && b != ZERO && a < |p|
    ensures r == SynQuotient(p, a, b)
  {
    var result := new F[|p|](i requires 0 <= i < |p| => p[i]);
    assert result[..] == p;
    SynDivInPlace(result, a, b);
    r := result[..];
  }

  // ----- the polynomial with given roots

  /** One factor more: the coefficients from n on become those of the product with X - x. */
  method TimesLinear(result: array<F>, n: nat, x: F, ghost p: Vec)
    requires n + |p| + 1 == result.Length && p != [] && result[n + 1..] == p
    modifies result
    ensures result[n..] == MulLinear(p, x)
    ensures result[..n] == old(result[..n])
  {
    hide MulLinear;
    ghost var before := result[..n];
    ghost var start := before + ([ZERO] + p);
    ghost var end := before + MulLinear(p, x);
    result[n] := ZERO;
    var j := n;
    while j < result.Length - 1
      invariant n <= j < result.Length
      invariant forall k :: 0 <= k < j ==> result[k] == end[k]
      invariant forall k :: j <= k < result.Length ==> result[k] == start[k]
    {
      MulLinearEntry(p, x, j - n);
      result[j] := Sub(result[j], Mul(result[j + 1], x));
      j := j + 1;
    }
    MulLinearEntry(p, x, |p|);
    assert result[..] == end;
    assert end[..n] == before && end[n..] == MulLinear(p, x);
  }

  lemma MulLinearEntry(p: Vec, x: F, k: nat)
    requires p != [] && k <= |p|
    ensures var start := [ZERO] + p;
      MulLinear(p, x)[k] == if k < |p| then Sub(start[k], Mul(start[k + 1], x)) else start[k]
  {
  }

  method GetZeroRoots(xs: seq<F>) returns (r: Vec)
    ensures r == ZeroPoly(xs)
  {
    var result := new F[|xs| + 1](_ => ZERO);
    var n := |xs|;
    result[n] := ONE;
    for i := 0 to |xs|
      invariant n == |xs| - i
      invariant result[n..] == ZeroPoly(xs[..i])
    {
      n := n - 1;
      TimesLinear(result, n, xs[i], ZeroPoly(xs[..i]));
      assert xs[..i + 1][..i] == xs[..i];
    }
    assert xs[..|xs|] == xs;
    r := result[..];
  }

  // ----- interpolation

  /** Drops the highest coefficients that are zero, unless all of them are. */
  function Trim(p: Vec): (r: Vec)
    ensures |r| <= |p| && r == p[..|r|]
    ensures IsZero(p) ==> r == p
    ensures !IsZero(p) ==> r != [] && r[|r| - 1] != ZERO && IsZero(p[|r|..])
  {
    if exists i :: 0 <= i < |p| && p[i] != ZERO then p[..TrimPosition(p)] else p
  }

  function TrimPosition(p: Vec): (n: nat)
    requires exists i :: 0 <= i < |p| && p[i] != ZERO
    ensures 0 < n <= |p| && p[n - 1] != ZERO && IsZero(p[n..])
  {
    if p[|p| - 1] != ZERO then |p|
    else
      assert forall i :: 0 <= i < |p| && p[i] != ZERO ==> p[..|p| - 1][i] != ZERO;
      TrimPosition(p[..|p| - 1])
  }

  ghost predicate AreNumerators(numerators: seq<Vec>, xs: seq<F>, n: nat) {
    && |numerators| == n <= |xs|
    && forall i :: 0 <= i < n ==> |numerators[i]| == |xs| + 1 && numerators[i] == Numerator(xs, i) + [ZERO]
  }

  lemma SynDivIsQuotient(p: Vec, b: F)
    requires 1 < |p|
    ensures SynQuotient(p, 1, b) == Quotient(p, b) + [ZERO]
  {
    forall i | 0 <= i < |p| - 1
      ensures SynQuotientAt(p, 1, b, i) == Quotient(p, b)[i]
    {
      SynHorner(p, b, i + 1);
    }
  }

  method Numerators(xs: seq<F>) returns (numerators: seq<Vec>)
    requires forall i :: 0 <= i < |xs| ==> xs[i] != ZERO
    ensures AreNumerators(numerators, xs, |xs|)
  {
    hide SynQuotient, Quotient;
    var roots := GetZeroRoots(xs);
    numerators := [];
    for i := 0 to |xs|
      invariant AreNumerators(numerators, xs, i)
    {
      var f := SynDiv(roots, 1, xs[i]);
      SynDivIsQuotient(roots, xs[i]);
      numerators := numerators + [f];
    }
  }

  method TrimTail(v: Vec) returns (r: Vec)
    ensures r == Trim(v)
  {
    var truncatePos := |v|;
    var i := |v|;
    while 0 < i
      invariant 0 <= i <= |v| && truncatePos == |v|
      invariant IsZero(v[i..])
    {
      i := i - 1;
      if v[i] != ZERO {
        truncatePos := i + 1;
        break;
      }
      assert v[i..] == [v[i]] + v[i + 1..];
    }
    r := v[..truncatePos];
    TrimUnique(v, r);
  }

  lemma TrimUnique(v: Vec, r: Vec)
    requires |r| <= |v| && r == v[..|r|]
    requires IsZero(v) ==> r == v
    requires !IsZero(v) ==> r != [] && r[|r| - 1] != ZERO && IsZero(v[|r|..])
    ensures r == Trim(v)
  {
    var t := Trim(v);
    if |t| < |r| {
      assert false;
    } else if |r| < |t| {
      assert false;
    }
  }

  method AddMultiple(result: array<F>, slice: F, numerator: Vec)
    requires |numerator| == result.Length
    modifies result
    ensures result[..] == VAdd(old(result[..]), VScale(slice, numerator))
  {
    for j := 0 to result.Length
      invariant forall k :: 0 <= k < j ==> result[k] == Add(old(result[k]), Mul(slice, numerator[k]))
      invariant forall k :: j <= k < result.Length ==> result[k] == old(result[k])
    {
      result[j] := Add(result[j], Mul(slice, numerator[j]));
    }
  }

  lemma SliceIsWeight(f: Vec, xs: seq<F>, i: nat)
    requires i < |xs| && f == Numerator(xs, i) + [ZERO]
    ensures Eval(f, xs[i]) == Eval(Numerator(xs, i), xs[i]) && f[..|xs|] == Numerator(xs, i)
  {
    hide Numerator;
    EvalResize(f, |xs|, xs[i]);
  }

  /** Interpolation as the library code does it; the result has its leading zeros dropped. */
  method LagrangeInterpolate(xs: seq<F>, ys: Vec) returns (r: Vec)
    requires |xs| == |ys| && forall i :: 0 <= i < |xs| ==> xs[i] != ZERO
    ensures r == Trim(Interpolant(xs, ys))
  {
    hide Eval, Numerator, Trim, VAdd, VScale;
    var numerators := Numerators(xs);
    var result := new F[|xs|](_ => ZERO);
    for i := 0 to |ys|
      invariant result[..] == Partial(xs, ys, i)
    {
      SliceIsWeight(numerators[i], xs, i);
      var slice := Mul(ys[i], InvOrZero(Eval(numerators[i], xs[i])));
      AddMultiple(result, slice, numerators[i][..|xs|]);
    }
    r := TrimTail(result[..]);
  }
}
