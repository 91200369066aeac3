/**
 * PackedSharing: l secrets in one share per party.
 *
 * A sharing is a polynomial: the parties hold its values on the share domain, the secrets are its
 * first l values on the secret coset.
 */
module PackedSharing {
  import opened ScalarField
  import opened Polynomials
  import opened Indices
  import opened Fourier
  import opened RootsOfUnity
  import opened Domains
  import opened Lagrange
  import opened InPlace
  import opened InnerProducts

  datatype Params = Params(t: nat, l: nat, n: nat, share: Domain, secret: Domain, secret2: Domain) {
    /** What the constructors establish; secret2 is the coset of twice the size. */
    predicate Valid() {
      && 0 < l + t && 2 * (l + t) <= n
      && share.Valid() && share.size == n && share.offset == ONE
      && secret.Valid() && secret.size == l + t
      && secret2.Valid() && secret2.size == 2 * (l + t)
      && secret2.offset == secret.offset && Mul(secret2.gen, secret2.gen) == secret.gen
    }

    /** The number of coefficients, and so of shares, of a product of two fresh sharings. */
    function ProductSize(): nat
      requires 0 < l + t
    {
      2 * (l + t) - 1
    }
  }

  // ----- packing and unpacking

  function Pack(pp: Params, secrets: Vec, rand: Vec): (r: Vec)
    ensures |r| == pp.share.size
  {
    Fft(pp.share, Ifft(pp.secret, secrets + rand))
  }

  function DetPack(pp: Params, secrets: Vec): (r: Vec)
    ensures |r| == pp.share.size
  {
    Fft(pp.share, Ifft(pp.secret, Resize(secrets, pp.l + pp.t)))
  }

  function Unpack(pp: Params, shares: Vec): (r: Vec)
    requires pp.Valid()
    ensures |r| == pp.l
  {
    Fft(pp.secret, Ifft(pp.share, shares))[..pp.l]
  }

  /** Every other value of the larger coset, the first l of them. */
  function Halved(pp: Params, v: Vec): (r: Vec)
    requires pp.Valid() && |v| == 2 * (pp.l + pp.t)
    ensures |r| == pp.l
  {
    seq(pp.l, j requires 0 <= j < pp.l => v[2 * j])
  }

  function Unpack2(pp: Params, shares: Vec): (r: Vec)
    requires pp.Valid()
    ensures |r| == pp.l
  {
    Halved(pp, Fft(pp.secret2, Ifft(pp.share, shares)))
  }

  function Points(pp: Params, parties: seq<nat>): (r: seq<F>)
    ensures |r| == |parties|
  {
    seq(|parties|, i requires 0 <= i < |parties| => pp.share.Element(parties[i]))
  }

  function LagrangeUnpack(pp: Params, shares: Vec, parties: seq<nat>): (r: Vec)
    requires pp.Valid() && |shares| == |parties|
    ensures |r| == pp.l
  {
    Halved(pp, Fft(pp.secret2, Trim(Interpolant(Points(pp, parties), shares))))
  }

  function UnpackMissingShares(pp: Params, shares: Vec, parties: seq<nat>): (r: Vec)
    requires pp.Valid() && |shares| == |parties|
    ensures |r| == pp.l
  {
    if |shares| == pp.n then Unpack2(pp, shares) else LagrangeUnpack(pp, shares, parties)
  }

  // ----- sharings as polynomials

  /** The shares of p held by the given parties, in their order. */
  function SharesAt(pp: Params, p: Vec, parties: seq<nat>): (r: Vec)
    ensures |r| == |parties|
  {
    seq(|parties|, i requires 0 <= i < |parties| => Eval(p, pp.share.Element(parties[i])))
  }

  function Everyone(n: nat): (r: seq<nat>)
    ensures |r| == n
  {
    seq(n, i requires 0 <= i < n => i)
  }

  function Shares(pp: Params, p: Vec): (r: Vec)
    ensures |r| == pp.n
  {
    SharesAt(pp, p, Everyone(pp.n))
  }

  function Secrets(pp: Params, p: Vec): (r: Vec)
    ensures |r| == pp.l
  {
    seq(pp.l, j requires 0 <= j < pp.l => Eval(p, pp.secret.Element(j)))
  }

  /** Parties the king may have heard from: distinct, and in order when nobody is missing. */
  ghost predicate Heard(pp: Params, parties: seq<nat>) {
    && Distinct(parties)
    && (forall i :: 0 <= i < |parties| ==> parties[i] < pp.n)
    && (|parties| == pp.n ==> parties == Everyone(pp.n))
  }

  /** The polynomial behind a packing. */
  function PackPoly(pp: Params, secrets: Vec, rand: Vec): (r: Vec)
    ensures |r| == pp.secret.size
  {
    Ifft(pp.secret, secrets + rand)
  }

  lemma PackIsSharing(pp: Params, secrets: Vec, rand: Vec)
    requires pp.Valid() && |secrets| == pp.l && |rand| == pp.t
    ensures Pack(pp, secrets, rand) == Shares(pp, PackPoly(pp, secrets, rand))
    ensures Secrets(pp, PackPoly(pp, secrets, rand)) == secrets
  {
    var p := PackPoly(pp, secrets, rand);
    FftIfft(pp.secret, secrets + rand);
    ResizeSame(p);
    forall j | 0 <= j < pp.l
      ensures Secrets(pp, p)[j] == secrets[j]
    {
      assert Fft(pp.secret, p)[j] == (secrets + rand)[j];
    }
    forall i | 0 <= i < pp.n
      ensures Pack(pp, secrets, rand)[i] == Shares(pp, p)[i]
    {
      EvalResize(p, pp.n, pp.share.Element(i));
    }
  }

  lemma DetPackIsPack(pp: Params, secrets: Vec)
    requires |secrets| == pp.l
    ensures DetPack(pp, secrets) == Pack(pp, secrets, Zeros(pp.t))
  {
    hide Fft, Ifft;
    assert secrets + Zeros(pp.t) == Resize(secrets, pp.l + pp.t);
  }

  /** Interpolating all shares gives back the coefficients. */
  lemma AllSharesRecover(pp: Params, p: Vec)
    requires pp.Valid() && |p| <= pp.n
    ensures Ifft(pp.share, Shares(pp, p)) == Resize(p, pp.n)
  {
    var q := Resize(p, pp.n);
    ResizeSame(q);
    forall i | 0 <= i < pp.n
      ensures Fft(pp.share, q)[i] == Shares(pp, p)[i]
    {
      EvalResize(p, pp.n, pp.share.Element(i));
    }
    assert Fft(pp.share, q) == Shares(pp, p);
    IfftFft(pp.share, q);
  }

  lemma UnpackSecrets(pp: Params, p: Vec)
    requires pp.Valid() && |p| <= pp.l + pp.t
    ensures Unpack(pp, Shares(pp, p)) == Secrets(pp, p)
  {
    hide Eval, Ifft, Shares, ScalarField.Pow, IsPow2;
    AllSharesRecover(pp, p);
    var q := Resize(p, pp.n);
    forall j | 0 <= j < pp.l
      ensures Unpack(pp, Shares(pp, p))[j] == Secrets(pp, p)[j]
    {
      EvalResize(q, pp.l + pp.t, pp.secret.Element(j));
      EvalResize(p, pp.n, pp.secret.Element(j));
    }
  }

  /** The even elements of the larger coset are the secret points. */
  lemma EvenElement(pp: Params, j: nat)
    requires pp.Valid()
    ensures pp.secret2.Element(2 * j) == pp.secret.Element(j)
  {
    PowMul(pp.secret2.gen, 2, j);
    PowFirst(pp.secret2.gen);
  }

  lemma HalvedSecrets(pp: Params, p: Vec, q: Vec)
    requires pp.Valid() && |p| <= 2 * (pp.l + pp.t)
    requires Resize(q, 2 * (pp.l + pp.t)) == Resize(p, 2 * (pp.l + pp.t))
    ensures Halved(pp, Fft(pp.secret2, q)) == Secrets(pp, p)
  {
    forall j | 0 <= j < pp.l
      ensures Fft(pp.secret2, q)[2 * j] == Secrets(pp, p)[j]
    {
      EvenElement(pp, j);
      EvalResize(p, 2 * (pp.l + pp.t), pp.secret.Element(j));
    }
  }

  lemma Unpack2Secrets(pp: Params, p: Vec)
    requires pp.Valid() && |p| <= 2 * (pp.l + pp.t)
    ensures Unpack2(pp, Shares(pp, p)) == Secrets(pp, p)
  {
    AllSharesRecover(pp, p);
    HalvedSecrets(pp, p, Resize(p, pp.n));
  }

  lemma PointsDistinct(pp: Params, parties: seq<nat>)
    requires pp.Valid() && Distinct(parties) && forall i :: 0 <= i < |parties| ==> parties[i] < pp.n
    ensures Distinct(Points(pp, parties))
    ensures forall i :: 0 <= i < |parties| ==> Points(pp, parties)[i] != ZERO
  {
    var xs := Points(pp, parties);
    forall i, j | 0 <= i < j < |xs|
      ensures xs[i] != xs[j]
    {
      if parties[i] < parties[j] {
        ElementsDistinct(pp.share, parties[i], parties[j]);
      } else {
        ElementsDistinct(pp.share, parties[j], parties[i]);
      }
    }
    forall i | 0 <= i < |xs|
      ensures xs[i] != ZERO
    {
      ElementNonZero(pp.share, parties[i]);
    }
  }

  /** Any large enough set of parties, in any order, recovers the secrets. */
  lemma LagrangeUnpackSecrets(pp: Params, p: Vec, parties: seq<nat>)
    requires pp.Valid() && Heard(pp, parties) && |p| <= |parties| && |p| <= 2 * (pp.l + pp.t)
    ensures LagrangeUnpack(pp, SharesAt(pp, p, parties), parties) == Secrets(pp, p)
  {
    hide Eval, Interpolant, Trim, Fft, Halved;
    var xs, ys := Points(pp, parties), SharesAt(pp, p, parties);
    PointsDistinct(pp, parties);
    InterpolantRecovers(p, xs, ys);
    var q := Trim(Interpolant(xs, ys));
    var m := 2 * (pp.l + pp.t);
    TrimResize(Resize(p, |xs|), m);
    HalvedSecrets(pp, p, q);
  }

  lemma TrimResize(p: Vec, m: nat)
    ensures Resize(Trim(p), m) == Resize(p, m)
  {
    var q := Trim(p);
    forall i | 0 <= i < m
      ensures Resize(q, m)[i] == Resize(p, m)[i]
    {
      if |q| <= i < |p| {
        assert p[|q|..][i - |q|] == ZERO;
      }
    }
  }

  /** What the king recovers does not depend on who answered. */
  lemma RecoverSecrets(pp: Params, p: Vec, parties: seq<nat>)
    requires pp.Valid() && Heard(pp, parties) && |p| <= pp.ProductSize() <= |parties|
    ensures UnpackMissingShares(pp, SharesAt(pp, p, parties), parties) == Secrets(pp, p)
  {
    if |parties| == pp.n {
      Unpack2Secrets(pp, p);
    } else {
      LagrangeUnpackSecrets(pp, p, parties);
    }
  }

  // ----- what packing promises

  /** Unpacking undoes packing, whatever the randomness. */
  lemma UnpackPack(pp: Params, secrets: Vec, rand: Vec)
    requires pp.Valid() && |secrets| == pp.l && |rand| == pp.t
    ensures Unpack(pp, Pack(pp, secrets, rand)) == secrets
    ensures Unpack2(pp, Pack(pp, secrets, rand)) == secrets
  {
    PackIsSharing(pp, secrets, rand);
    UnpackSecrets(pp, PackPoly(pp, secrets, rand));
    Unpack2Secrets(pp, PackPoly(pp, secrets, rand));
  }

  lemma SecretsAdd(pp: Params, p: Vec, q: Vec)
    ensures Secrets(pp, PAdd(p, q)) == VAdd(Secrets(pp, p), Secrets(pp, q))
  {
    forall j | 0 <= j < pp.l
      ensures Secrets(pp, PAdd(p, q))[j] == VAdd(Secrets(pp, p), Secrets(pp, q))[j]
    {
      EvalPAdd(p, q, pp.secret.Element(j));
    }
  }

  lemma SecretsMul(pp: Params, p: Vec, q: Vec)
    ensures Secrets(pp, PMul(p, q)) == VMul(Secrets(pp, p), Secrets(pp, q))
  {
    forall j | 0 <= j < pp.l
      ensures Secrets(pp, PMul(p, q))[j] == VMul(Secrets(pp, p), Secrets(pp, q))[j]
    {
      EvalPMul(p, q, pp.secret.Element(j));
    }
  }

  lemma SharesAtMul(pp: Params, p: Vec, q: Vec, parties: seq<nat>)
    ensures SharesAt(pp, PMul(p, q), parties) == VMul(SharesAt(pp, p, parties), SharesAt(pp, q, parties))
  {
    forall i | 0 <= i < |parties|
      ensures SharesAt(pp, PMul(p, q), parties)[i] == VMul(SharesAt(pp, p, parties), SharesAt(pp, q, parties))[i]
    {
      EvalPMul(p, q, pp.share.Element(parties[i]));
    }
  }

  /** Multiplying shares multiplies secrets, and any large enough set of parties recovers them. */
  lemma ProductRecovers(pp: Params, a: Vec, ra: Vec, b: Vec, rb: Vec, parties: seq<nat>)
    requires pp.Valid() && |a| == |b| == pp.l && |ra| == |rb| == pp.t
    requires Heard(pp, parties) && pp.ProductSize() <= |parties|
    ensures var p, q := PackPoly(pp, a, ra), PackPoly(pp, b, rb);
      UnpackMissingShares(pp, VMul(SharesAt(pp, p, parties), SharesAt(pp, q, parties)), parties) == VMul(a, b)
  {
    var p, q := PackPoly(pp, a, ra), PackPoly(pp, b, rb);
    PackIsSharing(pp, a, ra);
    PackIsSharing(pp, b, rb);
    SharesAtMul(pp, p, q, parties);
    SecretsMul(pp, p, q);
    RecoverSecrets(pp, PMul(p, q), parties);
  }
}
