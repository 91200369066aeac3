/**
 * Fourier: what a radix-2 transform computes, and one butterfly level of it.
 *
 * Everything is stated for the shifted transform, whose entry k is the value at w^(k+1): this is
 * what the loops compute before their final rotation.
 */
module Fourier {
  import opened ScalarField
  import opened Polynomials
  import opened Indices

  /** w is a primitive m-th root of unity, m a power of two. */
  predicate IsRoot(w: F, m: nat) {
    IsPow2(m) && if m == 1 then w == ONE else Pow(w, m / 2) == Neg(ONE)
  }

  lemma RootOrder(w: F, m: nat)
    requires IsRoot(w, m)
    ensures Pow(w, m) == ONE
  {
    if m == 1 {
      PowFirst(w);
    } else {
      PowAdd(w, m / 2, m / 2);
      NegMul(ONE, Neg(ONE));
      MulOne(Neg(ONE));
      NegNeg(ONE);
    }
  }

  lemma RootSquare(w: F, m: nat)
    requires IsRoot(w, m) && 1 < m
    ensures IsRoot(Mul(w, w), m / 2)
  {
    PowFirst(w);
    if m == 2 {
      RootOrder(w, 2);
    } else {
      assert IsPow2(m / 2);
      PowMul(w, 2, m / 2 / 2);
    }
  }

  lemma QuotientOfHalf(m: nat, p: nat)
    requires m % 2 == 0 && 0 < p && m / 2 % p == 0
    ensures m % (2 * p) == 0 && m / (2 * p) == m / 2 / p
  {
    var q := m / 2 / p;
    assert m / 2 == q * p;
    assert m == q * (2 * p);
    AtInverse(q, 2 * p, 0);
  }

  /** The powers used at a level with 2^i blocks: w^(2^i). */
  lemma RootPower(w: F, m: nat, i: nat)
    requires IsRoot(w, m) && Pow2(i) <= m
    ensures m % Pow2(i) == 0 && IsRoot(Pow(w, Pow2(i)), m / Pow2(i))
    decreases i
  {
    if i == 0 {
      PowFirst(w);
    } else {
      var w2 := Mul(w, w);
      RootSquare(w, m);
      RootPower(w2, m / 2, i - 1);
      PowFirst(w);
      PowMul(w, 2, Pow2(i - 1));
      QuotientOfHalf(m, Pow2(i - 1));
    }
  }

  // ----- reading order

  function Interleave(a: Vec, b: Vec): (r: Vec)
    requires |a| == |b|
    ensures |r| == 2 * |a|
  {
    seq(2 * |a|, i requires 0 <= i < 2 * |a| => if i % 2 == 0 then a[i / 2] else b[i / 2])
  }

  function Evens(p: Vec): (r: Vec)
    ensures |r| == |p| / 2
  {
    seq(|p| / 2, i requires 0 <= i < |p| / 2 => p[2 * i])
  }

  function Odds(p: Vec): (r: Vec)
    ensures |r| == |p| / 2
  {
    seq(|p| / 2, i requires 0 <= i < |p| / 2 => p[2 * i + 1])
  }

  lemma InterleaveHalves(p: Vec)
    requires |p| % 2 == 0
    ensures Interleave(Evens(p), Odds(p)) == p
  {
  }

  /** The polynomial whose coefficients, in bit-reversed order, are y. */
  function Unreversed(y: Vec): (r: Vec)
    requires IsPow2(|y|)
    ensures |r| == |y|
  {
    if |y| == 1 then y
    else Interleave(Unreversed(y[..|y| / 2]), Unreversed(y[|y| / 2..]))
  }

  lemma InterleaveCons(a: Vec, b: Vec)
    requires |a| == |b| && a != []
    ensures Interleave(a, b) == [a[0]] + ([b[0]] + Interleave(a[1..], b[1..]))
  {
  }

  lemma {:induction false} EvalInterleave(a: Vec, b: Vec, x: F)
    requires |a| == |b|
    ensures Eval(Interleave(a, b), x) == Add(Eval(a, Mul(x, x)), Mul(x, Eval(b, Mul(x, x))))
    decreases |a|
  {
    var xx := Mul(x, x);
    if a == [] {
      MulZero(x);
      AddZero(ZERO);
    } else {
      var rest := Interleave(a[1..], b[1..]);
      var u, v := Eval(a[1..], xx), Eval(b[1..], xx);
      EvalInterleave(a[1..], b[1..], x);
      InterleaveCons(a, b);
      EvalCons(b[0], rest, x);
      EvalCons(a[0], [b[0]] + rest, x);
      InterleaveStep(u, v, a[0], b[0], x);
    }
  }

  /** ((u + xv)x + b)x + a == (ux² + a) + x(vx² + b) */
  lemma InterleaveStep(u: F, v: F, a: F, b: F, x: F)
    ensures Add(Mul(Add(Mul(Add(u, Mul(x, v)), x), b), x), a)
         == Add(Add(Mul(u, Mul(x, x)), a), Mul(x, Add(Mul(v, Mul(x, x)), b)))
  {
    var xx := Mul(x, x);
    Distrib(x, u, Mul(x, v));
    Distrib(x, Add(Mul(u, x), Mul(Mul(x, v), x)), b);
    Distrib(x, Mul(u, x), Mul(Mul(x, v), x));
    MulAssoc(u, x, x);
    MulAssoc(x, v, x);
    MulAssoc(x, Mul(v, x), x);
    MulAssoc(v, x, x);
    MulComm(b, x);
    Distrib(x, Mul(v, xx), b);
    // (ux² + x(vx²)) + xb) + a
    AddAssoc(Mul(u, xx), Mul(x, Mul(v, xx)), Mul(x, b));
    AddAssoc(Mul(u, xx), Mul(x, Add(Mul(v, xx), b)), a);
    AddComm(Mul(x, Add(Mul(v, xx), b)), a);
    AddAssoc(Mul(u, xx), a, Mul(x, Add(Mul(v, xx), b)));
  }

  // ----- the transform

  /** Entry k of the transform of p before the final rotation: its value at w^(k+1). */
  function ShiftedAt(p: Vec, w: F, k: nat): F {
    Eval(p, Pow(w, k + 1))
  }

  /** The discrete Fourier transform: entry k is the value of p at w^k. */
  function Dft(p: Vec, w: F): (r: Vec)
    ensures |r| == |p|
  {
    seq(|p|, k requires 0 <= k < |p| => Eval(p, Pow(w, k)))
  }

  /** Block j of y, when y is cut into c blocks of s. */
  function BlockAt(y: Vec, c: nat, s: nat, j: nat): (r: Vec)
    requires |y| == c * s && j < c
    ensures |r| == s
  {
    BlockFits(c, s, j);
    y[At(j, s, 0)..At(j + 1, s, 0)]
  }

  lemma BlockFits(c: nat, s: nat, j: nat)
    requires j < c
    ensures 0 <= At(j, s, 0) <= At(j + 1, s, 0) == At(j, s, 0) + s <= c * s
  {
    assert (j + 1) * s == j * s + s;
    if j + 1 < c {
      AtLeast(c - j - 1, s);
      assert c * s == (j + 1) * s + (c - j - 1) * s;
    }
  }

  lemma BlockHalves(x: Vec, c: nat, s: nat, j: nat)
    requires |x| == c * (2 * s) == 2 * c * s && j < c
    ensures var y := BlockAt(x, c, 2 * s, j);
      && y[..s] == BlockAt(x, 2 * c, s, 2 * j)
      && y[s..] == BlockAt(x, 2 * c, s, 2 * j + 1)
  {
    AtPair(j, s, 0);
    BlockFits(c, 2 * s, j);
    BlockFits(2 * c, s, 2 * j);
    BlockFits(2 * c, s, 2 * j + 1);
  }

  /** What a block of bit-reversed coefficients has become once it has been transformed. */
  function BlockValue(y: Vec, w: F, k: nat): F
    requires IsPow2(|y|)
  {
    ShiftedAt(Unreversed(y), w, k)
  }

  lemma HalfTurn(w: F, h: nat, k: nat)
    requires Pow(w, h) == Neg(ONE)
    ensures Pow(w, k + h) == Neg(Pow(w, k))
  {
    PowAdd(w, k, h);
    NegMul(Pow(w, k), ONE);
    MulOne(Pow(w, k));
  }

  /** One butterfly: two transformed halves give the transform of the whole. */
  lemma Butterfly(y: Vec, w: F, k: nat)
    requires IsPow2(|y|) && 1 < |y| && IsRoot(w, |y|) && k < |y| / 2
    ensures var h := |y| / 2;
      var lo, hi := BlockValue(y[..h], Mul(w, w), k), BlockValue(y[h..], Mul(w, w), k);
      && BlockValue(y, w, k) == Add(lo, Mul(hi, Pow(w, k + 1)))
      && BlockValue(y, w, k + h) == Sub(lo, Mul(hi, Pow(w, k + 1)))
  {
    hide Pow, Mul, Add, Neg, Interleave, Eval;
    var h := |y| / 2;
    ButterflyRoots(Unreversed(y[..h]), Unreversed(y[h..]), w, h, k);
  }

  lemma ButterflyRoots(a: Vec, b: Vec, w: F, h: nat, k: nat)
    requires |a| == |b| && Pow(w, h) == Neg(ONE)
    ensures var lo, hi := ShiftedAt(a, Mul(w, w), k), ShiftedAt(b, Mul(w, w), k);
      && ShiftedAt(Interleave(a, b), w, k) == Add(lo, Mul(hi, Pow(w, k + 1)))
      && ShiftedAt(Interleave(a, b), w, k + h) == Sub(lo, Mul(hi, Pow(w, k + 1)))
  {
    hide Pow;
    PowProduct(w, w, k + 1);
    HalfTurn(w, h, k + 1);
    assert k + 1 + h == k + h + 1;
    ButterflyAt(a, b, Pow(w, k + 1));
  }

  lemma ButterflyAt(a: Vec, b: Vec, x: F)
    requires |a| == |b|
    ensures var lo, hi := Eval(a, Mul(x, x)), Eval(b, Mul(x, x));
      && Eval(Interleave(a, b), x) == Add(lo, Mul(hi, x))
      && Eval(Interleave(a, b), Neg(x)) == Sub(lo, Mul(hi, x))
  {
    EvalInterleave(a, b, x);
    EvalInterleave(a, b, Neg(x));
    NegMul(x, Neg(x));
    NegMul(x, x);
    NegNeg(Mul(x, x));
    var v := Eval(b, Mul(x, x));
    NegMul(x, v);
    MulComm(x, v);
  }
}
