/**
 * Groth16Shares: the proof elements A, B and C computed share by share.
 *
 * Group elements are written by their exponents. A value that every slot repeats is what the
 * multi-scalar multiplication returns and what r and s are packed as.
 */
module Groth16Shares {
  import opened ScalarField
  import opened Polynomials
  import opened RootsOfUnity
  import opened InnerProducts
  import opened Domains
  import opened PackedSharing
  import opened SharedVectors
  import opened Linearity
  import opened DegreeReduction
  import opened MpcFft
  import opened ExtWitness
  import opened Dmsm

  /** sh shares v in every slot. */
  ghost predicate Holds(pp: Params, sh: seq<Vec>, v: F, size: nat) {
    Represents(pp, sh, [Repeat(v, pp.l)], size)
  }

  lemma HoldsShape(pp: Params, sh: seq<Vec>, v: F, size: nat)
    requires Holds(pp, sh, v, size)
    ensures Shaped(pp, sh, 1)
  {
    RepresentsShape(pp, sh, [Repeat(v, pp.l)], size);
  }

  lemma HoldsAdd(pp: Params, a: seq<Vec>, b: seq<Vec>, u: F, v: F, size: nat)
    requires Holds(pp, a, u, size) && Holds(pp, b, v, size)
    ensures Shaped(pp, a, 1) && Shaped(pp, b, 1)
    ensures Holds(pp, MapAdd(a, b), Add(u, v), size)
  {
    HoldsShape(pp, a, u, size);
    HoldsShape(pp, b, v, size);
    AddRepresents(pp, a, b, [Repeat(u, pp.l)], [Repeat(v, pp.l)], size);
    assert VAdd(Repeat(u, pp.l), Repeat(v, pp.l)) == Repeat(Add(u, v), pp.l);
    assert MapAdd([Repeat(u, pp.l)], [Repeat(v, pp.l)]) == [Repeat(Add(u, v), pp.l)];
  }

  lemma HoldsSub(pp: Params, a: seq<Vec>, b: seq<Vec>, u: F, v: F, size: nat)
    requires Holds(pp, a, u, size) && Holds(pp, b, v, size)
    ensures Shaped(pp, a, 1) && Shaped(pp, b, 1)
    ensures Holds(pp, MapSub(a, b), Sub(u, v), size)
  {
    HoldsShape(pp, a, u, size);
    HoldsShape(pp, b, v, size);
    SubRepresents(pp, a, b, [Repeat(u, pp.l)], [Repeat(v, pp.l)], size);
    assert VSub(Repeat(u, pp.l), Repeat(v, pp.l)) == Repeat(Sub(u, v), pp.l);
    assert MapSub([Repeat(u, pp.l)], [Repeat(v, pp.l)]) == [Repeat(Sub(u, v), pp.l)];
  }

  lemma HoldsMul(pp: Params, a: seq<Vec>, b: seq<Vec>, u: F, v: F)
    requires pp.Valid() && Holds(pp, a, u, pp.l + pp.t) && Holds(pp, b, v, pp.l + pp.t)
    ensures Shaped(pp, a, 1) && Shaped(pp, b, 1)
    ensures Holds(pp, MapMul(a, b), Mul(u, v), pp.ProductSize())
  {
    HoldsShape(pp, a, u, pp.l + pp.t);
    HoldsShape(pp, b, v, pp.l + pp.t);
    MulRepresents(pp, a, b, [Repeat(u, pp.l)], [Repeat(v, pp.l)], pp.l + pp.t);
    assert VMul(Repeat(u, pp.l), Repeat(v, pp.l)) == Repeat(Mul(u, v), pp.l);
    assert MapMul([Repeat(u, pp.l)], [Repeat(v, pp.l)]) == [Repeat(Mul(u, v), pp.l)];
  }

  lemma HoldsScale(pp: Params, c: F, a: seq<Vec>, u: F, size: nat)
    requires Holds(pp, a, u, size)
    ensures Shaped(pp, a, 1)
    ensures Holds(pp, MapScale(c, a), Mul(c, u), size)
  {
    HoldsShape(pp, a, u, size);
    ScaleRepresents(pp, c, a, [Repeat(u, pp.l)], size);
    assert VScale(c, Repeat(u, pp.l)) == Repeat(Mul(c, u), pp.l);
    assert MapScale(c, [Repeat(u, pp.l)]) == [Repeat(Mul(c, u), pp.l)];
  }

  function Constant(pp: Params, v: F): (r: seq<Vec>)
    ensures Shaped(pp, r, 1)
  {
    Single(Repeat(v, pp.n))
  }

  // ----- A and B

  /** A, and B in the second group: base + key * blind + product + offset. */
  function LinearShares(pp: Params, base: F, key: F, offset: F, blind: seq<Vec>, product: seq<Vec>): (r: seq<Vec>)
    requires Shaped(pp, blind, 1) && Shaped(pp, product, 1)
    ensures Shaped(pp, r, 1)
  {
    MapAdd(MapAdd(MapAdd(Constant(pp, base), MapScale(key, blind)), product), Constant(pp, offset))
  }

  function LinearValue(base: F, key: F, offset: F, blind: F, product: F): F {
    Add(Add(Add(base, Mul(key, blind)), product), offset)
  }

  lemma LinearHolds(pp: Params, base: F, key: F, offset: F, blind: seq<Vec>, product: seq<Vec>, b: F, p: F)
    requires pp.Valid() && Holds(pp, blind, b, pp.l + pp.t) && Holds(pp, product, p, pp.l + pp.t)
    ensures Shaped(pp, blind, 1) && Shaped(pp, product, 1)
    ensures Holds(pp, LinearShares(pp, base, key, offset, blind, product), LinearValue(base, key, offset, b, p), pp.l + pp.t)
  {
    hide Holds;
    var size := pp.l + pp.t;
    ConstantHolds(pp, base, size);
    ConstantHolds(pp, offset, size);
    HoldsScale(pp, key, blind, b, size);
    HoldsAdd(pp, Constant(pp, base), MapScale(key, blind), base, Mul(key, b), size);
    var v1 := MapAdd(Constant(pp, base), MapScale(key, blind));
    HoldsAdd(pp, v1, product, Add(base, Mul(key, b)), p, size);
    HoldsAdd(pp, MapAdd(v1, product), Constant(pp, offset), Add(Add(base, Mul(key, b)), p), offset, size);
  }

  lemma ConstantHolds(pp: Params, v: F, size: nat)
    requires 0 < size
    ensures Holds(pp, Constant(pp, v), v, size)
  {
    ConstantRepresents(pp, v, size);
  }

  // ----- C

  /** s A + r B - (r s) M + w + u, computed on shares. */
  function CShares(pp: Params, a: seq<Vec>, b: seq<Vec>, s: seq<Vec>, r: seq<Vec>, m: F, w: seq<Vec>, u: seq<Vec>)
    : (c: seq<Vec>)
    requires Shaped(pp, a, 1) && Shaped(pp, b, 1) && Shaped(pp, s, 1) && Shaped(pp, r, 1)
    requires Shaped(pp, w, 1) && Shaped(pp, u, 1)
    ensures Shaped(pp, c, 1)
  {
    MapAdd(MapAdd(MapSub(MapAdd(MapMul(a, s), MapMul(b, r)), MapScale(m, MapMul(r, s))), w), u)
  }

  function CValue(a: F, b: F, s: F, r: F, m: F, w: F, u: F): F {
    Add(Add(Sub(Add(Mul(a, s), Mul(b, r)), Mul(m, Mul(r, s))), w), u)
  }

  lemma CHolds(pp: Params, a: seq<Vec>, b: seq<Vec>, s: seq<Vec>, r: seq<Vec>, m: F, w: seq<Vec>, u: seq<Vec>,
               av: F, bv: F, sv: F, rv: F, wv: F, uv: F)
    requires pp.Valid()
    requires Holds(pp, a, av, pp.l + pp.t) && Holds(pp, b, bv, pp.l + pp.t)
    requires Holds(pp, s, sv, pp.l + pp.t) && Holds(pp, r, rv, pp.l + pp.t)
    requires Holds(pp, w, wv, pp.l + pp.t) && Holds(pp, u, uv, pp.l + pp.t)
    ensures Shaped(pp, a, 1) && Shaped(pp, b, 1) && Shaped(pp, s, 1) && Shaped(pp, r, 1)
    ensures Shaped(pp, w, 1) && Shaped(pp, u, 1)
    ensures Holds(pp, CShares(pp, a, b, s, r, m, w, u), CValue(av, bv, sv, rv, m, wv, uv), pp.ProductSize())
  {
    hide Holds;
    var size := pp.ProductSize();
    HoldsMul(pp, a, s, av, sv);
    HoldsMul(pp, b, r, bv, rv);
    HoldsMul(pp, r, s, rv, sv);
    HoldsScale(pp, m, MapMul(r, s), Mul(rv, sv), size);
    HoldsWeaken(pp, w, wv, size);
    HoldsWeaken(pp, u, uv, size);
    HoldsAdd(pp, MapMul(a, s), MapMul(b, r), Mul(av, sv), Mul(bv, rv), size);
    var c1, v1 := MapAdd(MapMul(a, s), MapMul(b, r)), Add(Mul(av, sv), Mul(bv, rv));
    HoldsSub(pp, c1, MapScale(m, MapMul(r, s)), v1, Mul(m, Mul(rv, sv)), size);
    var c2, v2 := MapSub(c1, MapScale(m, MapMul(r, s))), Sub(v1, Mul(m, Mul(rv, sv)));
    HoldsAdd(pp, c2, w, v2, wv, size);
    HoldsAdd(pp, MapAdd(c2, w), u, Add(v2, wv), uv, size);
  }

  lemma HoldsWeaken(pp: Params, sh: seq<Vec>, v: F, size: nat)
    requires pp.Valid() && Holds(pp, sh, v, pp.l + pp.t) && pp.l + pp.t <= size
    ensures Holds(pp, sh, v, size)
  {
    RepresentsWeaken(pp, sh, [Repeat(v, pp.l)], pp.l + pp.t, size);
  }

  /** Reconstruction reads slot 0 of the unpacked shares. */
  lemma SlotZero(pp: Params, sh: seq<Vec>, v: F)
    requires pp.Valid() && 0 < pp.l && Holds(pp, sh, v, pp.ProductSize())
    ensures Shaped(pp, sh, 1) && Unpack2(pp, Column(sh, 0))[0] == v
  {
    HoldsShape(pp, sh, v, pp.ProductSize());
    var rows := [Repeat(v, pp.l)];
    var ps :| Sharing(pp, sh, ps, pp.ProductSize()) && SecretRows(pp, ps) == rows;
    assert Column(sh, 0) == Shares(pp, ps[0]);
    Unpack2Secrets(pp, ps[0]);
    assert SecretRows(pp, ps)[0] == Repeat(v, pp.l);
  }

  // ----- the whole proof

  /** Exponents of the proving key that are public to every party. */
  datatype Key = Key(aQuery0: F, bG1Query0: F, bG2Query0: F, delta: F, alpha: F, beta: F)

  /** The proof elements as a single prover computes them. */
  datatype Proof = Proof(a: F, b: F, c: F)

  function SingleProof(k: Key, r: F, s: F, sa: F, ha: F, va: F, wax: F, uh: F): Proof {
    var a := LinearValue(k.aQuery0, k.delta, k.alpha, r, sa);
    var b1 := LinearValue(k.bG1Query0, k.delta, k.beta, s, ha);
    var b2 := LinearValue(k.bG2Query0, k.delta, k.beta, s, va);
    Proof(a, b2, CValue(a, b1, s, r, k.delta, wax, uh))
  }

  /**
   * Slot 0 of the unpacked shares of A, B and C is the single prover's proof, when the shares of the
   * products and of B in the first group are there.
   */
  lemma SharesReconstruct(pp: Params, k: Key, r: seq<Vec>, s: seq<Vec>, sa: seq<Vec>, b1: seq<Vec>, va: seq<Vec>,
                          wax: seq<Vec>, uh: seq<Vec>, rv: F, sv: F, sav: F, b1v: F, hav: F, vav: F, waxv: F, uhv: F)
    requires pp.Valid() && 0 < pp.l && Holds(pp, r, rv, pp.l + pp.t) && Holds(pp, s, sv, pp.l + pp.t)
    requires Holds(pp, sa, sav, pp.l + pp.t) && Holds(pp, b1, b1v, pp.l + pp.t) && Holds(pp, va, vav, pp.l + pp.t)
    requires Holds(pp, wax, waxv, pp.l + pp.t) && Holds(pp, uh, uhv, pp.l + pp.t)
    requires b1v == LinearValue(k.bG1Query0, k.delta, k.beta, sv, hav) || (rv == ZERO && b1v == ZERO)
    ensures Shaped(pp, r, 1) && Shaped(pp, s, 1) && Shaped(pp, sa, 1) && Shaped(pp, b1, 1) && Shaped(pp, va, 1)
    ensures Shaped(pp, wax, 1) && Shaped(pp, uh, 1)
    ensures ProofOf(pp, k, r, s, sa, b1, va, wax, uh) == SingleProof(k, rv, sv, sav, hav, vav, waxv, uhv)
  {
    hide Holds, LinearShares, LinearValue, Unpack2, CShares, Shaped;
    HoldsShape(pp, b1, b1v, pp.l + pp.t);
    HoldsShape(pp, wax, waxv, pp.l + pp.t);
    HoldsShape(pp, uh, uhv, pp.l + pp.t);
    LinearHolds(pp, k.aQuery0, k.delta, k.alpha, r, sa, rv, sav);
    LinearHolds(pp, k.bG2Query0, k.delta, k.beta, s, va, sv, vav);
    var a := LinearShares(pp, k.aQuery0, k.delta, k.alpha, r, sa);
    var b2 := LinearShares(pp, k.bG2Query0, k.delta, k.beta, s, va);
    var av, b2v := LinearValue(k.aQuery0, k.delta, k.alpha, rv, sav), LinearValue(k.bG2Query0, k.delta, k.beta, sv, vav);
    CHolds(pp, a, b1, s, r, k.delta, wax, uh, av, b1v, sv, rv, waxv, uhv);
    HoldsWeaken(pp, a, av, pp.ProductSize());
    HoldsWeaken(pp, b2, b2v, pp.ProductSize());
    SlotZero(pp, a, av);
    SlotZero(pp, b2, b2v);
    SlotZero(pp, CShares(pp, a, b1, s, r, k.delta, wax, uh), CValue(av, b1v, sv, rv, k.delta, waxv, uhv));
    MulZero(b1v);
    MulZero(LinearValue(k.bG1Query0, k.delta, k.beta, sv, hav));
  }

  /** What reconstruction reads from the shares: slot 0 of A, of B in the second group and of C. */
  function ProofOf(pp: Params, k: Key, r: seq<Vec>, s: seq<Vec>, sa: seq<Vec>, b1: seq<Vec>, va: seq<Vec>,
                   wax: seq<Vec>, uh: seq<Vec>): Proof
    requires pp.Valid() && 0 < pp.l && Shaped(pp, r, 1) && Shaped(pp, s, 1) && Shaped(pp, sa, 1) && Shaped(pp, b1, 1)
    requires Shaped(pp, va, 1) && Shaped(pp, wax, 1) && Shaped(pp, uh, 1)
  {
    var a := LinearShares(pp, k.aQuery0, k.delta, k.alpha, r, sa);
    var b2 := LinearShares(pp, k.bG2Query0, k.delta, k.beta, s, va);
    var c := CShares(pp, a, b1, s, r, k.delta, wax, uh);
    Proof(Unpack2(pp, Column(a, 0))[0], Unpack2(pp, Column(b2, 0))[0], Unpack2(pp, Column(c, 0))[0])
  }

  // ----- packing with a last chunk that is not full

  /** The inner product is not changed by padding both vectors with zeros. */
  lemma {:induction false} PaddedInnerProduct(a: Vec, b: Vec, n: nat)
    requires |a| == |b| <= n
    ensures InnerProduct(Resize(a, n), Resize(b, n)) == InnerProduct(a, b)
  {
    var k := n - |a|;
    assert Resize(a, n) == a + Zeros(k) && Resize(b, n) == b + Zeros(k);
    MulZero(ZERO);
    assert VMul(a + Zeros(k), b + Zeros(k)) == VMul(a, b) + Zeros(k);
    SumConcat(VMul(a, b), Zeros(k));
    SumZeros(k);
    AddZero(Sum(VMul(a, b)));
  }

  /** So only the entries that both have count. */
  lemma ResizedInner(a: Vec, b: Vec)
    requires |a| <= |b|
    ensures InnerProduct(Resize(a, |b|), b) == InnerProduct(a, b[..|a|])
  {
    hide InnerProduct;
    var k := |a|;
    InnerSplit(Resize(a, |b|), b, k);
    assert Resize(a, |b|)[..k] == a && Resize(a, |b|)[k..] == Zeros(|b| - k);
    InnerZeros(b[k..]);
    AddZero(InnerProduct(a, b[..k]));
  }

  /** The multi-scalar multiplication of padded, packed vectors shares their inner product. */
  lemma PackedMsm(pp: Params, bases: seq<Vec>, scalars: seq<Vec>, a: Vec, b: Vec, q: nat, values: Vec,
                  inRand: Vec, outRand: Vec, parties: seq<nat>)
    requires pp.Valid() && |a| == |b| <= q * pp.l && |values| == pp.l && |inRand| == |outRand| == pp.t
    requires Represents(pp, bases, Chunks(Resize(a, q * pp.l), q, pp.l), pp.l + pp.t)
    requires Represents(pp, scalars, Chunks(Resize(b, q * pp.l), q, pp.l), pp.l + pp.t)
    requires Heard(pp, parties) && pp.ProductSize() <= |parties|
    ensures Shaped(pp, bases, q) && Shaped(pp, scalars, q)
    ensures Holds(pp, DMsm(pp, bases, scalars, SampleMsmMasks(pp, values, inRand, outRand), parties, q),
                  InnerProduct(a, b), pp.l + pp.t)
  {
    hide Represents, Chunks, DMsm, SampleMsmMasks;
    var ca, cb := Chunks(Resize(a, q * pp.l), q, pp.l), Chunks(Resize(b, q * pp.l), q, pp.l);
    DMsmCorrect(pp, bases, scalars, ca, cb, values, inRand, outRand, parties);
    TotalOfChunks(Resize(a, q * pp.l), Resize(b, q * pp.l), q, pp.l);
    PaddedInnerProduct(a, b, q * pp.l);
  }
}
