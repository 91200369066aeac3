/** Linearity: every step of the distributed transform commutes with adding and scaling vectors. */
module Linearity {
  import opened ScalarField
  import opened Polynomials
  import opened Indices
  import opened Fourier
  import opened BitReversal
  import opened LocalLevels
  import opened KingLevels
  import opened Domains
  import opened SharedVectors

  function VNeg(a: Vec): (r: Vec)
    ensures |r| == |a|
  {
    seq(|a|, i requires 0 <= i < |a| => Neg(a[i]))
  }

  lemma AddNegCancels(a: Vec, b: Vec)
    requires |a| == |b|
    ensures VAdd(VAdd(a, b), VNeg(b)) == a
  {
    forall i | 0 <= i < |a|
      ensures VAdd(VAdd(a, b), VNeg(b))[i] == a[i]
    {
      SubAdd(a[i], b[i]);
    }
  }

  lemma InterleaveAdd(a: Vec, b: Vec, c: Vec, d: Vec)
    requires |a| == |b| == |c| == |d|
    ensures Interleave(VAdd(a, c), VAdd(b, d)) == VAdd(Interleave(a, b), Interleave(c, d))
  {
  }

  lemma AddHalves(a: Vec, b: Vec, h: nat)
    requires |a| == |b| && h <= |a|
    ensures VAdd(a, b)[..h] == VAdd(a[..h], b[..h]) && VAdd(a, b)[h..] == VAdd(a[h..], b[h..])
  {
  }

  lemma {:induction false} UnreversedAdd(a: Vec, b: Vec)
    requires |a| == |b| && IsPow2(|a|)
    ensures Unreversed(VAdd(a, b)) == VAdd(Unreversed(a), Unreversed(b))
    decreases |a|
  {
    hide Interleave, VAdd;
    if |a| != 1 {
      var h := |a| / 2;
      UnreversedAdd(a[..h], b[..h]);
      UnreversedAdd(a[h..], b[h..]);
      AddHalves(a, b, h);
      InterleaveAdd(Unreversed(a[..h]), Unreversed(a[h..]), Unreversed(b[..h]), Unreversed(b[h..]));
    }
  }

  lemma ScaleHalves(c: F, a: Vec, h: nat)
    requires h <= |a|
    ensures VScale(c, a)[..h] == VScale(c, a[..h]) && VScale(c, a)[h..] == VScale(c, a[h..])
  {
  }

  lemma {:induction false} UnreversedScale(c: F, a: Vec)
    requires IsPow2(|a|)
    ensures Unreversed(VScale(c, a)) == VScale(c, Unreversed(a))
    decreases |a|
  {
    hide Interleave, VScale;
    if |a| != 1 {
      var h := |a| / 2;
      UnreversedScale(c, a[..h]);
      UnreversedScale(c, a[h..]);
      ScaleHalves(c, a, h);
      InterleaveScale(c, Unreversed(a[..h]), Unreversed(a[h..]));
    }
  }

  lemma InterleaveScale(c: F, a: Vec, b: Vec)
    requires |a| == |b|
    ensures Interleave(VScale(c, a), VScale(c, b)) == VScale(c, Interleave(a, b))
  {
  }

  lemma BlockTransformAdd(a: Vec, b: Vec, v: F)
    requires |a| == |b| && IsPow2(|a|)
    ensures BlockTransform(VAdd(a, b), v) == VAdd(BlockTransform(a, v), BlockTransform(b, v))
  {
    hide Unreversed, Eval, Pow, IsPow2, Add;
    UnreversedAdd(a, b);
    forall k | 0 <= k < |a|
      ensures BlockTransform(VAdd(a, b), v)[k] == VAdd(BlockTransform(a, v), BlockTransform(b, v))[k]
    {
      EvalAdd(Unreversed(a), Unreversed(b), Pow(v, k + 1));
    }
  }

  lemma BlockTransformScale(c: F, a: Vec, v: F)
    requires IsPow2(|a|)
    ensures BlockTransform(VScale(c, a), v) == VScale(c, BlockTransform(a, v))
  {
    hide Unreversed, Eval, Pow, Mul, IsPow2;
    UnreversedScale(c, a);
    forall k | 0 <= k < |a|
      ensures BlockTransform(VScale(c, a), v)[k] == VScale(c, BlockTransform(a, v))[k]
    {
      EvalScale(c, Unreversed(a), Pow(v, k + 1));
    }
  }

  lemma BlockAtAdd(a: Vec, b: Vec, c: nat, s: nat, j: nat)
    requires |a| == |b| == c * s && j < c
    ensures BlockAt(VAdd(a, b), c, s, j) == VAdd(BlockAt(a, c, s, j), BlockAt(b, c, s, j))
  {
    BlockFits(c, s, j);
  }

  lemma KingTransformAdd(a: Vec, b: Vec, q: nat, l: nat, w: F)
    requires 0 < q && |a| == |b| == q * l && IsPow2(l)
    ensures KingTransform(VAdd(a, b), q, l, w) == VAdd(KingTransform(a, q, l, w), KingTransform(b, q, l, w))
  {
    forall k | 0 <= k < |a|
      ensures KingEntry(VAdd(a, b), q, l, w, k) == Add(KingEntry(a, q, l, w, k), KingEntry(b, q, l, w, k))
    {
      var r := RowOf(q, |a|, k);
      BlockAtAdd(a, b, q, l, r);
      UnreversedAdd(BlockAt(a, q, l, r), BlockAt(b, q, l, r));
      EvalAdd(Unreversed(BlockAt(a, q, l, r)), Unreversed(BlockAt(b, q, l, r)), Pow(w, k));
    }
  }

  lemma DistributeAdd(a: Vec, b: Vec, g: F)
    requires |a| == |b|
    ensures DistributePowers(VAdd(a, b), g) == VAdd(DistributePowers(a, g), DistributePowers(b, g))
  {
    forall j | 0 <= j < |a|
      ensures DistributePowers(VAdd(a, b), g)[j] == VAdd(DistributePowers(a, g), DistributePowers(b, g))[j]
    {
      Distrib(Pow(g, j), a[j], b[j]);
    }
  }

  lemma DistributeOne(a: Vec)
    ensures DistributePowers(a, ONE) == a
  {
    forall j | 0 <= j < |a|
      ensures DistributePowers(a, ONE)[j] == a[j]
    {
      PowOne(j);
      MulOne(a[j]);
    }
  }

  lemma {:induction false} BitReversedAdd(a: Vec, b: Vec)
    requires |a| == |b| && IsPow2(|a|)
    ensures BitReversed(VAdd(a, b)) == VAdd(BitReversed(a), BitReversed(b))
    decreases |a|
  {
    hide VAdd, Evens, Odds;
    if |a| != 1 {
      BitReversedAdd(Evens(a), Evens(b));
      BitReversedAdd(Odds(a), Odds(b));
      AddAlternate(a, b);
      AddJoined(BitReversed(Evens(a)), BitReversed(Odds(a)), BitReversed(Evens(b)), BitReversed(Odds(b)));
    }
  }

  lemma AddAlternate(a: Vec, b: Vec)
    requires |a| == |b| && |a| % 2 == 0
    ensures Evens(VAdd(a, b)) == VAdd(Evens(a), Evens(b)) && Odds(VAdd(a, b)) == VAdd(Odds(a), Odds(b))
  {
  }

  lemma AddJoined(a: Vec, b: Vec, c: Vec, d: Vec)
    requires |a| == |c| && |b| == |d|
    ensures VAdd(a + b, c + d) == VAdd(a, c) + VAdd(b, d)
  {
  }

  lemma {:induction false} BitReversedScale(c: F, a: Vec)
    requires IsPow2(|a|)
    ensures BitReversed(VScale(c, a)) == VScale(c, BitReversed(a))
    decreases |a|
  {
    hide VScale, Evens, Odds;
    if |a| != 1 {
      BitReversedScale(c, Evens(a));
      BitReversedScale(c, Odds(a));
      ScaleAlternate(c, a);
      ScaleJoined(c, BitReversed(Evens(a)), BitReversed(Odds(a)));
    }
  }

  lemma ScaleAlternate(c: F, a: Vec)
    requires |a| % 2 == 0
    ensures Evens(VScale(c, a)) == VScale(c, Evens(a)) && Odds(VScale(c, a)) == VScale(c, Odds(a))
  {
  }

  lemma ScaleJoined(c: F, a: Vec, b: Vec)
    ensures VScale(c, a + b) == VScale(c, a) + VScale(c, b)
  {
  }

  lemma DftScale(c: F, a: Vec, w: F)
    ensures Dft(VScale(c, a), w) == VScale(c, Dft(a, w))
  {
    forall k | 0 <= k < |a|
      ensures Dft(VScale(c, a), w)[k] == VScale(c, Dft(a, w))[k]
    {
      EvalScale(c, a, Pow(w, k));
    }
  }

  // ----- local levels on shares

  /** The polynomial behind entry k once the parties have transformed their vectors. */
  function LocalPoly(ps: seq<Vec>, size: nat, v: F, k: nat): (r: Vec)
    requires IsPow2(|ps|) && k < |ps| && forall e :: 0 <= e < |ps| ==> |ps[e]| == size
    ensures |r| == size
  {
    seq(size, c requires 0 <= c < size => BlockTransform(Coefficients(ps, size, c), v)[k])
  }

  function Coefficients(ps: seq<Vec>, size: nat, c: nat): (r: Vec)
    requires c < size && forall e :: 0 <= e < |ps| ==> |ps[e]| == size
    ensures |r| == |ps|
  {
    seq(|ps|, e requires 0 <= e < |ps| => ps[e][c])
  }

  function Tails(ps: seq<Vec>, size: nat): (r: seq<Vec>)
    requires 0 < size && forall e :: 0 <= e < |ps| ==> |ps[e]| == size
    ensures |r| == |ps| && forall e :: 0 <= e < |r| ==> |r[e]| == size - 1
  {
    seq(|ps|, e requires 0 <= e < |ps| => ps[e][1..])
  }

  lemma ValuesUnfold(ps: seq<Vec>, size: nat, x: F)
    requires 0 < size && forall e :: 0 <= e < |ps| ==> |ps[e]| == size
    ensures ValuesAt(ps, x) == VAdd(VScale(x, ValuesAt(Tails(ps, size), x)), Coefficients(ps, size, 0))
  {
    forall e | 0 <= e < |ps|
      ensures ValuesAt(ps, x)[e] == Add(Mul(x, Eval(ps[e][1..], x)), ps[e][0])
    {
      MulComm(x, Eval(ps[e][1..], x));
    }
  }

  lemma LocalPolyUnfold(ps: seq<Vec>, size: nat, v: F, k: nat)
    requires 0 < size && IsPow2(|ps|) && k < |ps| && forall e :: 0 <= e < |ps| ==> |ps[e]| == size
    ensures LocalPoly(ps, size, v, k)
         == [BlockTransform(Coefficients(ps, size, 0), v)[k]] + LocalPoly(Tails(ps, size), size - 1, v, k)
  {
    hide BlockTransform, IsPow2, Coefficients, Tails, LocalPoly;
    LocalPolyAt(ps, size, v, k, 0);
    var tails := Tails(ps, size);
    var whole, rest := LocalPoly(ps, size, v, k), LocalPoly(tails, size - 1, v, k);
    forall c | 0 <= c < size - 1
      ensures whole[c + 1] == rest[c]
    {
      LocalPolyAt(ps, size, v, k, c + 1);
      LocalPolyAt(tails, size - 1, v, k, c);
      CoefficientsTail(ps, size, c);
    }
    assert whole == [whole[0]] + rest;
  }

  lemma LocalPolyAt(ps: seq<Vec>, size: nat, v: F, k: nat, c: nat)
    requires IsPow2(|ps|) && k < |ps| && c < size && forall e :: 0 <= e < |ps| ==> |ps[e]| == size
    ensures LocalPoly(ps, size, v, k)[c] == BlockTransform(Coefficients(ps, size, c), v)[k]
  {
    hide BlockTransform, IsPow2, Coefficients;
  }

  lemma CoefficientsTail(ps: seq<Vec>, size: nat, c: nat)
    requires c + 1 < size && forall e :: 0 <= e < |ps| ==> |ps[e]| == size
    ensures Coefficients(ps, size, c + 1) == Coefficients(Tails(ps, size), size - 1, c)
  {
  }

  /** Transforming shares gives shares of the transformed polynomials: evaluation commutes. */
  lemma {:induction false} LocalCommutes(ps: seq<Vec>, size: nat, v: F, x: F, k: nat)
    requires IsPow2(|ps|) && k < |ps| && forall e :: 0 <= e < |ps| ==> |ps[e]| == size
    ensures BlockTransform(ValuesAt(ps, x), v)[k] == Eval(LocalPoly(ps, size, v, k), x)
    decreases size
  {
    hide Unreversed, IsPow2;
    if size == 0 {
      assert ValuesAt(ps, x) == VScale(ZERO, ValuesAt(ps, x)) by {
        MulZero(ZERO);
      }
      BlockTransformScale(ZERO, ValuesAt(ps, x), v);
      MulZero(BlockTransform(ValuesAt(ps, x), v)[k]);
    } else {
      var tails, heads := Tails(ps, size), Coefficients(ps, size, 0);
      var u := ValuesAt(tails, x);
      ValuesUnfold(ps, size, x);
      LocalPolyUnfold(ps, size, v, k);
      LocalCommutes(tails, size - 1, v, x, k);
      BlockTransformAdd(VScale(x, u), heads, v);
      BlockTransformScale(x, u, v);
      EvalCons(BlockTransform(heads, v)[k], LocalPoly(tails, size - 1, v, k), x);
      MulComm(x, BlockTransform(u, v)[k]);
    }
  }
}
