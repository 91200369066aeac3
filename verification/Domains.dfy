/**
 * Domains: cosets of roots of unity, and the library transforms over them.
 *
 * Fft evaluates on a domain; Ifft is the formula with the inverse root and the inverse size. Both
 * first bring their input to the size of the domain, as the library's in-place transforms do.
 */
module Domains {
  import opened ScalarField
  import opened Polynomials
  import opened Indices
  import opened Fourier
  import opened RootsOfUnity

  datatype Domain = Domain(size: nat, gen: F, offset: F) {
    predicate Valid() {
      IsRoot(gen, size) && offset != ZERO && OddCharacteristic()
    }

    function Element(i: nat): F {
      Mul(offset, Pow(gen, i))
    }
  }

  /** Coefficient j multiplied by g^j. */
  function DistributePowers(a: Vec, g: F): (r: Vec)
    ensures |r| == |a|
  {
    seq(|a|, j requires 0 <= j < |a| => Mul(a[j], Pow(g, j)))
  }

  function Fft(d: Domain, p: Vec): (r: Vec)
    ensures |r| == d.size
  {
    seq(d.size, i requires 0 <= i < d.size => Eval(Resize(p, d.size), d.Element(i)))
  }

  function Ifft(d: Domain, v: Vec): (r: Vec)
    ensures |r| == d.size
  {
    VScale(Inv(Num(d.size)), DistributePowers(Dft(Resize(v, d.size), Inv(d.gen)), Inv(d.offset)))
  }

  lemma ResizeSame(p: Vec)
    ensures Resize(p, |p|) == p
  {
  }

  lemma EvalDistribute(a: Vec, g: F, x: F)
    ensures Eval(DistributePowers(a, g), x) == Eval(a, Mul(g, x))
  {
    EvalIsSum(DistributePowers(a, g), x);
    EvalIsSum(a, Mul(g, x));
    forall k | 0 <= k < |a|
      ensures Terms(DistributePowers(a, g), x)[k] == Terms(a, Mul(g, x))[k]
    {
      MulAssoc(a[k], Pow(g, k), Pow(x, k));
      PowProduct(g, x, k);
    }
    assert Terms(DistributePowers(a, g), x) == Terms(a, Mul(g, x));
  }

  /** On a coset the transform is the transform of the scaled coefficients. */
  lemma FftIsDft(d: Domain, p: Vec)
    requires |p| == d.size
    ensures Fft(d, p) == Dft(DistributePowers(p, d.offset), d.gen)
  {
    ResizeSame(p);
    forall i | 0 <= i < d.size
      ensures Fft(d, p)[i] == Eval(DistributePowers(p, d.offset), Pow(d.gen, i))
    {
      EvalDistribute(p, d.offset, Pow(d.gen, i));
    }
  }

  lemma ScaleBack(d: Domain, c: F, j: nat)
    requires d.Valid()
    ensures var n := Num(d.size);
      Mul(Inv(n), Mul(Mul(Mul(c, Pow(d.offset, j)), n), Pow(Inv(d.offset), j))) == c
  {
    var n := Num(d.size);
    var u, v := Pow(d.offset, j), Pow(Inv(d.offset), j);
    SizeNonZero(d.size);
    InvPower(d.offset, j);
    // ((cu)n)v == (cn)(uv) == cn
    MulSwap(Mul(c, u), n, v, ONE);
    MulOne(Mul(Mul(c, u), n));
    MulOne(n);
    MulOne(v);
    MulAssoc(c, u, v);
    MulOne(c);
    // n'(cn) == c(n'n) == c
    MulRotate(Inv(n), c, n);
    MulInv(n);
  }

  /** The inverse transform recovers the coefficients. */
  lemma IfftFft(d: Domain, p: Vec)
    requires d.Valid() && |p| == d.size
    ensures Ifft(d, Fft(d, p)) == p
  {
    var s := DistributePowers(p, d.offset);
    FftIsDft(d, p);
    ResizeSame(Fft(d, p));
    forall j | 0 <= j < |p|
      ensures Ifft(d, Fft(d, p))[j] == p[j]
    {
      InverseDft(s, d.gen, j);
      ScaleBack(d, p[j], j);
    }
  }

  /** The inverse transform interpolates. */
  lemma FftIfft(d: Domain, v: Vec)
    requires d.Valid() && |v| == d.size
    ensures Fft(d, Ifft(d, v)) == v
  {
    var p := Ifft(d, v);
    var t := Dft(v, Inv(d.gen));
    var n := Num(d.size);
    ResizeSame(v);
    ResizeSame(p);
    InvRoot(d.gen, d.size);
    InvNonZero(d.gen);
    SizeNonZero(d.size);
    forall i | 0 <= i < d.size
      ensures Eval(p, d.Element(i)) == v[i]
    {
      var w := Pow(d.gen, i);
      EvalScale(Inv(n), DistributePowers(t, Inv(d.offset)), d.Element(i));
      EvalDistribute(t, Inv(d.offset), d.Element(i));
      MulAssoc(Inv(d.offset), d.offset, w);
      MulInv(d.offset);
      MulOne(w);
      InverseDft(v, Inv(d.gen), i);
      MulRotate(Inv(n), v[i], n);
      MulInv(n);
      MulOne(v[i]);
    }
  }

  lemma ElementNonZero(d: Domain, i: nat)
    requires d.Valid()
    ensures d.Element(i) != ZERO
  {
    RootNonZero(d.gen, d.size);
    PowNonZero(d.gen, i);
    NoZeroDivisors(d.offset, Pow(d.gen, i));
  }

  lemma ElementsDistinct(d: Domain, i: nat, j: nat)
    requires d.Valid() && i < j < d.size
    ensures d.Element(i) != d.Element(j)
  {
    if d.Element(i) == d.Element(j) {
      ElementNonZero(d, i);
      PowAdd(d.gen, i, j - i);
      MulAssoc(d.offset, Pow(d.gen, i), Pow(d.gen, j - i));
      MulOne(d.Element(i));
      MulComm(d.Element(i), ONE);
      MulComm(d.Element(i), Pow(d.gen, j - i));
      MulCancel(ONE, Pow(d.gen, j - i), d.Element(i));
      RootPowerNotOne(d.gen, d.size, j - i);
    }
  }
}
