/** InnerProducts: inner products of vectors, and folding a vector onto its left half. */
module InnerProducts {
  import opened ScalarField
  import opened Polynomials
  import opened RootsOfUnity

  function VMul(a: Vec, b: Vec): (r: Vec)
    requires |a| == |b|
    ensures |r| == |a|
  {
    seq(|a|, i requires 0 <= i < |a| => Mul(a[i], b[i]))
  }

  function InnerProduct(a: Vec, b: Vec): F
    requires |a| == |b|
  {
    Sum(VMul(a, b))
  }

  lemma {:induction false} SumConcat(a: Vec, b: Vec)
    ensures Sum(a + b) == Add(Sum(a), Sum(b))
    decreases |b|
  {
    if b == [] {
      assert a + b == a;
      AddZero(Sum(a));
    } else {
      var n := |b| - 1;
      assert (a + b)[..|a| + n] == a + b[..n];
      SumConcat(a, b[..n]);
      AddAssoc(Sum(a), Sum(b[..n]), b[n]);
    }
  }

  lemma {:induction false} SumZeros(n: nat)
    ensures Sum(Zeros(n)) == ZERO
    decreases n
  {
    if n != 0 {
      SumZeros(n - 1);
      assert Zeros(n)[..n - 1] == Zeros(n - 1);
      AddZero(ZERO);
    }
  }

  /** The left half plus c times the right half. */
  function Fold(x: Vec, c: F): (r: Vec)
    requires |x| % 2 == 0
    ensures |r| == |x| / 2
  {
    VAdd(x[..|x| / 2], VScale(c, x[|x| / 2..]))
  }

  lemma InnerComm(a: Vec, b: Vec)
    requires |a| == |b|
    ensures InnerProduct(a, b) == InnerProduct(b, a)
  {
    forall i | 0 <= i < |a|
      ensures VMul(a, b)[i] == VMul(b, a)[i]
    {
      MulComm(a[i], b[i]);
    }
    assert VMul(a, b) == VMul(b, a);
  }

  lemma InnerAdd(a: Vec, b: Vec, y: Vec)
    requires |a| == |b| == |y|
    ensures InnerProduct(VAdd(a, b), y) == Add(InnerProduct(a, y), InnerProduct(b, y))
  {
    forall i | 0 <= i < |a|
      ensures VMul(VAdd(a, b), y)[i] == VAdd(VMul(a, y), VMul(b, y))[i]
    {
      Distrib(y[i], a[i], b[i]);
    }
    assert VMul(VAdd(a, b), y) == VAdd(VMul(a, y), VMul(b, y));
    SumAdd(VMul(a, y), VMul(b, y));
  }

  lemma InnerScale(c: F, a: Vec, y: Vec)
    requires |a| == |y|
    ensures InnerProduct(VScale(c, a), y) == Mul(c, InnerProduct(a, y))
  {
    forall i | 0 <= i < |a|
      ensures VMul(VScale(c, a), y)[i] == VScale(c, VMul(a, y))[i]
    {
      MulAssoc(c, a[i], y[i]);
    }
    assert VMul(VScale(c, a), y) == VScale(c, VMul(a, y));
    SumScale(c, VMul(a, y));
  }

  lemma InnerZeros(b: Vec)
    ensures InnerProduct(Zeros(|b|), b) == ZERO
  {
    forall i | 0 <= i < |b|
      ensures VMul(Zeros(|b|), b)[i] == ZERO
    {
      MulZero(b[i]);
    }
    assert VMul(Zeros(|b|), b) == Zeros(|b|);
    SumZeros(|b|);
  }

  lemma InnerSplit(x: Vec, y: Vec, h: nat)
    requires |x| == |y| && h <= |x|
    ensures InnerProduct(x, y) == Add(InnerProduct(x[..h], y[..h]), InnerProduct(x[h..], y[h..]))
  {
    assert VMul(x, y) == VMul(x[..h], y[..h]) + VMul(x[h..], y[h..]);
    SumConcat(VMul(x[..h], y[..h]), VMul(x[h..], y[h..]));
  }

  /** (xl + c xr, yl + d yr), where cd == 1, is the whole product plus the two cross terms. */
  lemma InnerFold(x: Vec, y: Vec, c: F, d: F)
    requires |x| == |y| && |x| % 2 == 0 && Mul(c, d) == ONE
    ensures var h := |x| / 2;
      InnerProduct(Fold(x, c), Fold(y, d))
        == Add(InnerProduct(x, y),
               Add(Mul(c, InnerProduct(x[h..], y[..h])), Mul(d, InnerProduct(x[..h], y[h..]))))
  {
    var h := |x| / 2;
    var xl, xr, yl, yr := x[..h], x[h..], y[..h], y[h..];
    InnerSplit(x, y, h);
    hide InnerProduct;
    InnerAdd(xl, VScale(c, xr), Fold(y, d));
    InnerScale(c, xr, Fold(y, d));
    InnerRight(xl, yl, yr, d);
    InnerRight(xr, yl, yr, d);
    FoldTerms(InnerProduct(xl, yl), InnerProduct(xl, yr), InnerProduct(xr, yl), InnerProduct(xr, yr), c, d);
  }

  lemma InnerRight(x: Vec, yl: Vec, yr: Vec, d: F)
    requires |x| == |yl| == |yr|
    ensures InnerProduct(x, VAdd(yl, VScale(d, yr))) == Add(InnerProduct(x, yl), Mul(d, InnerProduct(x, yr)))
  {
    hide InnerProduct;
    InnerComm(x, VAdd(yl, VScale(d, yr)));
    InnerAdd(yl, VScale(d, yr), x);
    InnerScale(d, yr, x);
    InnerComm(x, yl);
    InnerComm(x, yr);
  }

  /** (ll + d lr) + c(rl + d rr) == (ll + rr) + (c rl + d lr) */
  lemma FoldTerms(ll: F, lr: F, rl: F, rr: F, c: F, d: F)
    requires Mul(c, d) == ONE
    ensures Add(Add(ll, Mul(d, lr)), Mul(c, Add(rl, Mul(d, rr)))) == Add(Add(ll, rr), Add(Mul(c, rl), Mul(d, lr)))
  {
    Distrib(c, rl, Mul(d, rr));
    MulAssoc(c, d, rr);
    MulOne(rr);
    var u, v := Mul(c, rl), Mul(d, lr);
    AddComm(u, rr);
    AddSwap(ll, v, rr, u);
    AddComm(v, u);
  }
}
