/**
 * RecoveryBound: how many answers it takes to recover a product of sharings.
 *
 * With fewer answers than a product has coefficients, a polynomial that vanishes on every share heard
 * still has room for secrets that do not.
 */
module RecoveryBound {
  import opened ScalarField
  import opened Polynomials
  import opened Indices
  import opened Fourier
  import opened RootsOfUnity
  import opened Domains
  import opened Lagrange
  import opened PackedSharing
  import opened Gao

  // ----- shares and secrets live at different points

  /** The offset of the secret coset lies outside the share domain. */
  predicate CosetApart(pp: Params) {
    Pow(pp.secret.offset, pp.n) != ONE
  }

  lemma {:induction false} Pow2Divides(m: nat, n: nat) returns (k: nat)
    requires IsPow2(m) && IsPow2(n) && m <= n
    ensures n == m * k
    decreases n
  {
    if m == 1 {
      k := n;
    } else {
      k := Pow2Divides(m / 2, n / 2);
      assert m == 2 * (m / 2) && n == 2 * (n / 2);
      assert 2 * (m / 2 * k) == 2 * (m / 2) * k;
    }
  }

  /** A power by a multiple of the size is the same for all elements of a domain. */
  lemma ElementPower(d: Domain, j: nat, n: nat, k: nat)
    requires d.Valid() && n == d.size * k
    ensures Pow(d.Element(j), n) == Pow(d.offset, n)
  {
    PowProduct(d.offset, Pow(d.gen, j), n);
    RootOrder(d.gen, d.size);
    PowMul(d.gen, d.size, k);
    PowOne(k);
    PowSwap(d.gen, j, n);
    PowOne(j);
    MulOne(Pow(d.offset, n));
  }

  lemma ShareElementPower(pp: Params, i: nat)
    requires pp.Valid()
    ensures Pow(pp.share.Element(i), pp.n) == ONE
  {
    ElementPower(pp.share, i, pp.n, 1);
    PowOne(pp.n);
  }

  lemma SecretElementPower(pp: Params, j: nat)
    requires pp.Valid()
    ensures Pow(pp.secret.Element(j), pp.n) == Pow(pp.secret.offset, pp.n)
  {
    var k := Pow2Divides(pp.l + pp.t, pp.n);
    ElementPower(pp.secret, j, pp.n, k);
  }

  /** The condition on the offset says exactly that no share point is a secret point. */
  lemma ApartExact(pp: Params)
    requires pp.Valid()
    ensures CosetApart(pp)
       <==> forall i, j :: 0 <= i < pp.n && 0 <= j < pp.l + pp.t ==> pp.share.Element(i) != pp.secret.Element(j)
  {
    if CosetApart(pp) {
      forall i, j | 0 <= i < pp.n && 0 <= j < pp.l + pp.t
        ensures pp.share.Element(i) != pp.secret.Element(j)
      {
        ShareElementPower(pp, i);
        SecretElementPower(pp, j);
      }
    } else {
      var i := OffsetIsShare(pp);
      MulOne(pp.secret.offset);
      assert pp.secret.Element(0) == pp.share.Element(i);
    }
  }

  /** There are no more n-th roots of one than share points. */
  lemma OffsetIsShare(pp: Params) returns (i: nat)
    requires pp.Valid() && !CosetApart(pp)
    ensures i < pp.n && pp.share.Element(i) == pp.secret.offset
  {
    hide Eval, Pow;
    var xs := Points(pp, Everyone(pp.n));
    PointsDistinct(pp, Everyone(pp.n));
    var z := pp.secret.offset;
    if z in xs {
      i :| 0 <= i < |xs| && xs[i] == z;
    } else {
      var p := VanishingPoly(pp.n);
      forall k | 0 <= k < |xs + [z]|
        ensures Eval(p, (xs + [z])[k]) == ZERO
      {
        VanishingValue(pp.n, (xs + [z])[k]);
        if k < pp.n {
          ShareElementPower(pp, k);
        }
        AddNeg(ONE);
      }
      RootBound(p, xs + [z]);
      OneIsNotZero();
      assert false;
    }
  }

  // ----- the bound

  /** Whoever sent the shares, the king recovers the secrets of every product of fresh sharings. */
  ghost predicate Recovers(pp: Params, parties: seq<nat>)
    requires pp.Valid()
  {
    forall p: Vec :: |p| <= pp.ProductSize()
      ==> UnpackMissingShares(pp, SharesAt(pp, p, parties), parties) == Secrets(pp, p)
  }

  /** With too few answers two polynomials with no secret in common look alike. */
  lemma LookAlike(pp: Params, parties: seq<nat>) returns (p: Vec)
    requires pp.Valid() && CosetApart(pp) && Heard(pp, parties) && |parties| < pp.ProductSize()
    ensures |p| <= pp.ProductSize() && SharesAt(pp, p, parties) == SharesAt(pp, [], parties)
    ensures forall j :: 0 <= j < pp.l ==> Secrets(pp, p)[j] != Secrets(pp, [])[j]
  {
    hide Eval, ZeroPoly, RootProduct;
    var xs := Points(pp, parties);
    p := ZeroPoly(xs);
    forall k | 0 <= k < |parties|
      ensures Eval(p, pp.share.Element(parties[k])) == Eval([], pp.share.Element(parties[k]))
    {
      ZeroPolyValue(xs, xs[k]);
      RootProductZero(xs, xs[k]);
      EvalZero([], xs[k]);
    }
    ApartExact(pp);
    forall j | 0 <= j < pp.l
      ensures Secrets(pp, p)[j] != Secrets(pp, [])[j]
    {
      var y := pp.secret.Element(j);
      ZeroPolyValue(xs, y);
      RootProductZero(xs, y);
      EvalZero([], y);
    }
  }

  /** Recovery works from exactly those sets of answers that are as large as a product is. */
  lemma RecoversExact(pp: Params, parties: seq<nat>)
    requires pp.Valid() && 0 < pp.l && CosetApart(pp) && Heard(pp, parties)
    ensures Recovers(pp, parties) <==> pp.ProductSize() <= |parties|
  {
    hide UnpackMissingShares;
    if pp.ProductSize() <= |parties| {
      forall p: Vec | |p| <= pp.ProductSize()
        ensures UnpackMissingShares(pp, SharesAt(pp, p, parties), parties) == Secrets(pp, p)
      {
        RecoverSecrets(pp, p, parties);
      }
    } else {
      var p := LookAlike(pp, parties);
      var none: Vec := [];
      assert |none| <= pp.ProductSize();
      assert Secrets(pp, p)[0] != Secrets(pp, none)[0];
    }
  }

  /** The first k parties. */
  function FirstParties(k: nat): (r: seq<nat>)
    ensures |r| == k
  {
    seq(k, i requires 0 <= i < k => i)
  }

  /** The threshold that the protocols pass to the network always lets too small a set of answers through. */
  lemma ThresholdTooLow(pp: Params, k: nat)
    requires pp.Valid() && 0 < pp.l && CosetApart(pp) && pp.t <= k < pp.ProductSize()
    ensures pp.t < pp.ProductSize() && Heard(pp, FirstParties(k)) && !Recovers(pp, FirstParties(k))
  {
    hide Recovers;
    RecoversExact(pp, FirstParties(k));
  }
}
