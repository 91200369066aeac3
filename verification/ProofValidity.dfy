/**
 * ProofValidity: when the proof that the parties reconstruct satisfies the Groth16 equation.
 */
module ProofValidity {
  import opened Results
  import opened ScalarField
  import opened Polynomials
  import opened InnerProducts
  import opened Domains
  import opened PackedSharing
  import opened SharedVectors
  import opened DegreeReduction
  import opened MpcFft
  import opened Transforms
  import opened ExtWitness
  import opened AggregateVerifier
  import opened Groth16Equation
  import opened Groth16Shares
  import opened PackedInputs
  import opened ProvingRun
  import opened DistributedProof
  import Aggregation

  /** e(A, B) == e(alpha, beta) e(S, gamma) e(C, delta) for the reconstructed elements. */
  ghost predicate Verifies(vk: VerifyingKey, p: Groth16Shares.Proof, inputs: Vec)
    requires |inputs| + 1 == |vk.ic|
  {
    ValidProof(vk, Aggregation.Proof(p.a, p.b, p.c), inputs)
  }

  // ----- the algebra of the equation

  /** Base, blinding, product and offset with the blinding last. */
  lemma BlindLast(base: F, key: F, offset: F, blind: F, product: F)
    ensures LinearValue(base, key, offset, blind, product) == Add(Add(Add(base, product), offset), Mul(key, blind))
  {
    var d := Mul(key, blind);
    AddAssoc(base, d, product);
    AddComm(d, product);
    AddAssoc(base, product, d);
    AddAssoc(Add(base, product), d, offset);
    AddComm(d, offset);
    AddAssoc(Add(base, product), offset, d);
  }

  /** (a + d r) (b + d s) in four terms. */
  lemma BlindedProduct(a: F, b: F, d: F, r: F, s: F)
    ensures var x, y, z := Mul(d, Mul(a, s)), Mul(d, Mul(b, r)), Mul(d, Mul(d, Mul(r, s)));
      Mul(Add(a, Mul(d, r)), Add(b, Mul(d, s))) == Add(Mul(a, b), Add(Add(x, z), y))
  {
    var x, y, z := Mul(d, Mul(a, s)), Mul(d, Mul(b, r)), Mul(d, Mul(d, Mul(r, s)));
    var t := Add(b, Mul(d, s));
    Distrib(t, a, Mul(d, r));
    Distrib(a, b, Mul(d, s));
    Distrib(Mul(d, r), b, Mul(d, s));
    MulRotate(a, d, s);
    MulComm(Mul(d, r), b);
    MulRotate(b, d, r);
    MulAssoc(d, r, Mul(d, s));
    MulRotate(r, d, s);
    AddAssoc(Mul(a, b), x, Add(y, z));
    AddComm(y, z);
    AddAssoc(x, z, y);
  }

  /** d c, where c is made of the blinded elements. */
  lemma BlindedC(a: F, b: F, d: F, r: F, s: F, w: F, u: F)
    ensures var x, y, z := Mul(d, Mul(a, s)), Mul(d, Mul(b, r)), Mul(d, Mul(d, Mul(r, s)));
      Mul(CValue(Add(a, Mul(d, r)), Add(b, Mul(d, s)), s, r, d, w, u), d) == Add(Add(Add(x, z), y), Mul(d, Add(w, u)))
  {
    var x, y, z := Mul(d, Mul(a, s)), Mul(d, Mul(b, r)), Mul(d, Mul(d, Mul(r, s)));
    var sa, rb, m := Mul(Add(a, Mul(d, r)), s), Mul(Add(b, Mul(d, s)), r), Mul(d, Mul(r, s));
    ScaledTerm(a, d, r, s);
    ScaledTerm(b, d, s, r);
    MulComm(r, s);
    assert Mul(d, sa) == Add(x, z) && Mul(d, rb) == Add(y, z);
    var c := CValue(Add(a, Mul(d, r)), Add(b, Mul(d, s)), s, r, d, w, u);
    MulComm(c, d);
    AddAssoc(Sub(Add(sa, rb), m), w, u);
    Distrib(d, Sub(Add(sa, rb), m), Add(w, u));
    DistribSub(d, Add(sa, rb), m);
    Distrib(d, sa, rb);
    AddAssoc(Add(x, z), y, z);
    SubAdd(Add(Add(x, z), y), z);
  }

  lemma ScaledTerm(a: F, d: F, r: F, s: F)
    ensures Mul(d, Mul(Add(a, Mul(d, r)), s)) == Add(Mul(d, Mul(a, s)), Mul(d, Mul(d, Mul(r, s))))
  {
    Distrib(s, a, Mul(d, r));
    MulAssoc(d, r, s);
    Distrib(d, Mul(a, s), Mul(d, Mul(r, s)));
  }

  /** p + s == q + (s + d) without s. */
  lemma CancelMiddle(p: F, s: F, q: F, d: F)
    ensures Add(p, s) == Add(q, Add(s, d)) <==> p == Add(q, d)
  {
    AddComm(s, d);
    AddAssoc(q, d, s);
    if Add(p, s) == Add(q, Add(s, d)) {
      AddCancel(p, Add(q, d), s);
    }
  }

  /** (a + alpha) (b + beta) == (alpha beta + e) + d without alpha beta. */
  lemma CancelOffsets(a: F, b: F, alpha: F, beta: F, e: F, d: F)
    ensures Mul(Add(a, alpha), Add(b, beta)) == Add(Add(Mul(alpha, beta), e), d)
       <==> Add(d, e) == Add(Add(Mul(a, b), Mul(beta, a)), Mul(alpha, b))
  {
    var ab := Mul(alpha, beta);
    Distrib(Add(b, beta), a, alpha);
    Distrib(a, b, beta);
    Distrib(alpha, b, beta);
    MulComm(a, beta);
    var t, v := Add(Mul(a, b), Mul(beta, a)), Mul(alpha, b);
    AddAssoc(t, v, ab);
    AddAssoc(ab, e, d);
    AddComm(e, d);
    AddComm(ab, Add(d, e));
    if Add(Add(t, v), ab) == Add(Add(d, e), ab) {
      AddCancel(Add(t, v), Add(d, e), ab);
    }
  }

  /**
   * For all r and s, the single prover's proof satisfies the Groth16 equation exactly when the products it
   * is made of satisfy the equation of the proving key, in which r and s do not occur.
   */
  lemma SingleProofExact(k: Key, gamma: F, pi: F, r: F, s: F, sa: F, ha: F, va: F, wax: F, uh: F)
    requires k.bG1Query0 == k.bG2Query0 && ha == va
    ensures var p := SingleProof(k, r, s, sa, ha, va, wax, uh);
      var a, b := Add(k.aQuery0, sa), Add(k.bG2Query0, va);
      (Mul(p.a, p.b) == Add(Add(Mul(k.alpha, k.beta), Mul(pi, gamma)), Mul(p.c, k.delta)))
        <==> (Add(Mul(k.delta, Add(wax, uh)), Mul(pi, gamma)) == Add(Add(Mul(a, b), Mul(k.beta, a)), Mul(k.alpha, b)))
  {
    hide CValue, LinearValue;
    var d, a, b := k.delta, Add(k.aQuery0, sa), Add(k.bG2Query0, va);
    var a1, b1 := Add(a, k.alpha), Add(b, k.beta);
    BlindLast(k.aQuery0, d, k.alpha, r, sa);
    BlindLast(k.bG1Query0, d, k.beta, s, ha);
    BlindedProduct(a1, b1, d, r, s);
    BlindedC(a1, b1, d, r, s, wax, uh);
    var blinds := Add(Add(Mul(d, Mul(a1, s)), Mul(d, Mul(d, Mul(r, s)))), Mul(d, Mul(b1, r)));
    CancelMiddle(Mul(a1, b1), blinds, Add(Mul(k.alpha, k.beta), Mul(pi, gamma)), Mul(d, Add(wax, uh)));
    CancelOffsets(a, b, k.alpha, k.beta, Mul(pi, gamma), Mul(d, Add(wax, uh)));
  }

  // ----- carried to the runs

  /** What the parts of the proving key and the witness must satisfy; r and s are not among them. */
  ghost predicate KeyEquation(k: Key, vk: VerifyingKey, inputs: Vec, sa: F, va: F, wax: F, uh: F)
    requires |inputs| + 1 == |vk.ic|
  {
    var a, b := Add(k.aQuery0, sa), Add(k.bG2Query0, va);
    Add(Mul(k.delta, Add(wax, uh)), Mul(PublicInput(vk, inputs), vk.gamma))
      == Add(Add(Mul(a, b), Mul(k.beta, a)), Mul(k.alpha, b))
  }

  /** The proving key and the verifying key are of one set-up. */
  ghost predicate Paired(k: Key, vk: VerifyingKey) {
    k.alpha == vk.alpha && k.beta == vk.beta && k.delta == vk.delta && k.bG1Query0 == k.bG2Query0
  }

  lemma SingleProofVerifies(k: Key, vk: VerifyingKey, inputs: Vec, r: F, s: F, sa: F, va: F, wax: F, uh: F)
    requires Paired(k, vk) && |inputs| + 1 == |vk.ic|
    ensures Verifies(vk, SingleProof(k, r, s, sa, va, va, wax, uh), inputs)
       <==> KeyEquation(k, vk, inputs, sa, va, wax, uh)
  {
    hide SingleProof, PublicInput;
    SingleProofExact(k, vk.gamma, PublicInput(vk, inputs), r, s, sa, va, va, wax, uh);
  }

  /** A run that ends, ends with a proof that verifies exactly when the equation of the key holds. */
  lemma RunVerifies(pp: Params, k: Key, vk: VerifyingKey, inputs: Vec, jobs: Jobs, r: seq<Vec>, s: seq<Vec>,
                    misread: F -> Option<F>, rv: F, sv: F, sav: F, vav: F, waxv: F, uhv: F)
    requires pp.Valid() && 0 < pp.l && jobs.Fit(pp) && Holds(pp, r, rv, pp.l + pp.t) && Holds(pp, s, sv, pp.l + pp.t)
    requires Yields(pp, jobs.a, sav) && Yields(pp, jobs.b1, vav) && Yields(pp, jobs.b2, vav)
    requires Yields(pp, jobs.w, waxv) && Yields(pp, jobs.u, uhv)
    requires Paired(k, vk) && |inputs| + 1 == |vk.ic|
    ensures Shaped(pp, r, 1) && Shaped(pp, s, 1)
    ensures var p := RunProof(pp, k, jobs, r, s, misread);
      && (p.Some? <==> NoneZero(pp, r) || AllZero(pp, r))
      && (p.Some? ==> (Verifies(vk, p.value, inputs) <==> KeyEquation(k, vk, inputs, sav, vav, waxv, uhv)))
  {
    hide Holds, SingleProof, RunProof, Yields, Jobs.Fit, NoneZero, AllZero, KeyEquation, Verifies;
    RunExact(pp, k, jobs, r, s, misread, rv, sv, sav, vav, vav, waxv, uhv);
    SingleProofVerifies(k, vk, inputs, rv, sv, sav, vav, waxv, uhv);
  }

  /** The same from keys, witness and columns. */
  lemma DistributedVerifies(pp: Params, s: Size, k: Key, vk: VerifyingKey, publics: Vec, inputs: Inputs, root: F,
                            r: seq<Vec>, t: seq<Vec>, rv: F, tv: F, misread: F -> Option<F>)
    requires pp.Valid() && s.Valid() && inputs.Valid(pp, s) && inputs.queries.h == inputs.queries.v
    requires Holds(pp, r, rv, pp.l + pp.t) && Holds(pp, t, tv, pp.l + pp.t)
    requires Paired(k, vk) && |publics| + 1 == |vk.ic|
    ensures |inputs.queries.u| <= s.q * s.l && inputs.AllJobs(pp, s, root).Fit(pp)
    ensures Shaped(pp, r, 1) && Shaped(pp, t, 1)
    ensures var q, h := inputs.queries, CircomRef(inputs.colA, inputs.colB, inputs.colC, Roots(s), root);
      var p := RunProof(pp, k, inputs.AllJobs(pp, s, root), r, t, misread);
      && (p.Some? <==> NoneZero(pp, r) || AllZero(pp, r))
      && (p.Some? ==> (Verifies(vk, p.value, publics) <==>
           KeyEquation(k, vk, publics, InnerProduct(q.s, inputs.a), InnerProduct(q.v, inputs.a),
                       InnerProduct(q.w, inputs.ax), InnerProduct(q.u, h[..|q.u|]))))
  {
    hide Holds, Inputs.AllJobs, Jobs.Fit, RunProof, InnerProduct, CircomRef, SingleProof, KeyEquation, Verifies, NoneZero,
      AllZero;
    DistributedIsSingle(pp, s, k, inputs, root, r, t, rv, tv, misread);
    var q, h := inputs.queries, CircomRef(inputs.colA, inputs.colB, inputs.colC, Roots(s), root);
    SingleProofVerifies(k, vk, publics, rv, tv, InnerProduct(q.s, inputs.a), InnerProduct(q.v, inputs.a),
                        InnerProduct(q.w, inputs.ax), InnerProduct(q.u, h[..|q.u|]));
  }
}
