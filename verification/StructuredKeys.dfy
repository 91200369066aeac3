/**
 * StructuredKeys: the reference strings of the aggregation scheme.
 *
 * A power of a generator is written by its exponent, so a table of powers is a vector of scalars.
 */
module StructuredKeys {
  import opened ScalarField
  import opened Polynomials
  import opened Indices
  import opened Gipa
  import opened ProductForms

  /** The largest number of proofs: (2 << 19) + 1. */
  const MAX_SRS_SIZE: nat := 1048577

  datatype GenericSrs = GenericSrs(gAlpha: Vec, hAlpha: Vec, gBeta: Vec, hBeta: Vec)

  datatype ProverSrs = ProverSrs(n: nat, gAlphaTable: Vec, hAlphaTable: Vec, gBetaTable: Vec, hBetaTable: Vec,
                                 vkey: Key, wkey: Key) {
    predicate HasCorrectLength(k: nat) {
      vkey.HasLength(k) && wkey.HasLength(k)
    }

    /** The two tables of a group have the same length. */
    predicate PairedTables() {
      |gAlphaTable| == |gBetaTable| && |hAlphaTable| == |hBetaTable|
    }
  }

  datatype VerifierSrs = VerifierSrs(n: nat, g: F, h: F, gAlpha: F, gBeta: F, hAlpha: F, hBeta: F)

  /** g, g s, g s^2, ... with a running power. */
  method StructuredGenerators(num: nat, g: F, s: F) returns (r: Vec)
    requires num > 0
    ensures r == Powers(g, s, num)
  {
    hide Mul, Pow;
    r := [];
    PowFirst(s);
    var powS := ONE;
    for i := 0 to num
      invariant powS == Pow(s, i)
      invariant r == Powers(g, s, num)[..i]
    {
      r := r + [Mul(g, powS)];
      assert Powers(g, s, num)[..i + 1] == Powers(g, s, num)[..i] + [Powers(g, s, num)[i]];
      PowAdd(s, i, 1);
      powS := Mul(powS, s);
    }
    assert Powers(g, s, num)[..num] == Powers(g, s, num);
  }

  /** The string for the two secrets, with powers up to twice the size. */
  ghost predicate IsStructured(srs: GenericSrs, g: F, h: F, alpha: F, beta: F, size: nat) {
    && srs.gAlpha == Powers(g, alpha, 2 * size)
    && srs.hAlpha == Powers(h, alpha, 2 * size)
    && srs.gBeta == Powers(g, beta, 2 * size)
    && srs.hBeta == Powers(h, beta, 2 * size)
  }

  method SetupFakeSrs(g: F, h: F, alpha: F, beta: F, size: nat) returns (srs: GenericSrs)
    requires size > 0
    ensures IsStructured(srs, g, h, alpha, beta, size)
  {
    var ga := StructuredGenerators(2 * size, g, alpha);
    var gb := StructuredGenerators(2 * size, g, beta);
    var ha := StructuredGenerators(2 * size, h, alpha);
    var hb := StructuredGenerators(2 * size, h, beta);
    srs := GenericSrs(ga, ha, gb, hb);
  }

  /** The prover and verifier keys for one number of proofs. */
  function Specialize(srs: GenericSrs, n: nat): (r: (ProverSrs, VerifierSrs))
    requires IsPow2(n)
    requires |srs.gAlpha| >= 2 * n && |srs.hAlpha| >= 2 * n && |srs.gBeta| >= 2 * n && |srs.hBeta| >= 2 * n
    ensures r.0.HasCorrectLength(n) && r.0.PairedTables()
  {
    Pow2Positive(n);
    (ProverSrs(n, srs.gAlpha[..2 * n], srs.hAlpha[..n], srs.gBeta[..2 * n], srs.hBeta[..n],
               Key(srs.hAlpha[..n], srs.hBeta[..n]), Key(srs.gAlpha[n..2 * n], srs.gBeta[n..2 * n])),
     VerifierSrs(n, srs.gAlpha[0], srs.hAlpha[0], srs.gAlpha[1], srs.gBeta[1], srs.hAlpha[1], srs.hBeta[1]))
  }

  lemma Pow2Positive(n: nat)
    requires IsPow2(n)
    ensures 1 <= n
  {
  }

  /** What specialised keys look like when they come from a structured string. */
  ghost predicate ProverKeys(srs: ProverSrs, n: nat, g: F, h: F, alpha: F, beta: F) {
    && srs.gAlphaTable == Powers(g, alpha, 2 * n) && srs.gBetaTable == Powers(g, beta, 2 * n)
    && srs.hAlphaTable == Powers(h, alpha, n) && srs.hBetaTable == Powers(h, beta, n)
    && srs.vkey == Key(Powers(h, alpha, n), Powers(h, beta, n))
    && srs.wkey == Key(Powers(Mul(g, Pow(alpha, n)), alpha, n), Powers(Mul(g, Pow(beta, n)), beta, n))
  }

  ghost predicate VerifierKeys(srs: VerifierSrs, n: nat, g: F, h: F, alpha: F, beta: F) {
    && srs.n == n && srs.g == g && srs.h == h
    && srs.gAlpha == Mul(g, alpha) && srs.gBeta == Mul(g, beta)
    && srs.hAlpha == Mul(h, alpha) && srs.hBeta == Mul(h, beta)
  }

  lemma PowersPrefix(p: F, q: F, n: nat, m: nat)
    requires n <= m
    ensures Powers(p, q, m)[..n] == Powers(p, q, n)
  {
  }

  /** The upper half of the powers is again a row of powers, shifted by q^n. */
  lemma PowersShift(p: F, q: F, n: nat, m: nat)
    requires n <= m
    ensures Powers(p, q, m)[n..] == Powers(Mul(p, Pow(q, n)), q, m - n)
  {
    hide Pow, Mul;
    var high := Powers(p, q, m)[n..];
    forall i | 0 <= i < m - n
      ensures high[i] == Powers(Mul(p, Pow(q, n)), q, m - n)[i]
    {
      PowAdd(q, n, i);
      MulAssoc(p, Pow(q, n), Pow(q, i));
    }
    assert high == Powers(Mul(p, Pow(q, n)), q, m - n);
  }

  lemma FirstPowers(p: F, q: F, n: nat)
    requires 2 <= n
    ensures Powers(p, q, n)[0] == p && Powers(p, q, n)[1] == Mul(p, q)
  {
    PowFirst(q);
    MulOne(p);
  }

  /** Specialising a large enough structured string gives matching keys for the two sides. */
  lemma SpecializeStructured(srs: GenericSrs, g: F, h: F, alpha: F, beta: F, size: nat, n: nat)
    requires IsStructured(srs, g, h, alpha, beta, size) && IsPow2(n) && n <= size
    ensures ProverKeys(Specialize(srs, n).0, n, g, h, alpha, beta)
    ensures VerifierKeys(Specialize(srs, n).1, n, g, h, alpha, beta)
  {
    hide Powers, Pow, Mul;
    Pow2Positive(n);
    var m := 2 * size;
    PowersPrefix(g, alpha, 2 * n, m);
    PowersPrefix(g, beta, 2 * n, m);
    PowersPrefix(h, alpha, n, m);
    PowersPrefix(h, beta, n, m);
    PowersShift(g, alpha, n, 2 * n);
    PowersShift(g, beta, n, 2 * n);
    assert srs.gAlpha[n..2 * n] == srs.gAlpha[..2 * n][n..];
    assert srs.gBeta[n..2 * n] == srs.gBeta[..2 * n][n..];
    FirstPowers(g, alpha, m);
    FirstPowers(g, beta, m);
    FirstPowers(h, alpha, m);
    FirstPowers(h, beta, m);
  }
}
