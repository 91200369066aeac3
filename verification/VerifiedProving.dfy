/**
 * VerifiedProving: from constraints, assignment and set-up to a proof that the verifier accepts.
 */
module VerifiedProving {
  import opened Results
  import opened ScalarField
  import opened Polynomials
  import opened InnerProducts
  import opened Domains
  import opened PackedSharing
  import opened SharedVectors
  import opened DegreeReduction
  import opened MpcFft
  import opened Transforms
  import opened ExtWitness
  import opened Groth16Shares
  import opened PackedInputs
  import opened ProvingRun
  import opened DistributedProof
  import opened ProofValidity
  import opened Qap
  import opened TrustedSetup

  /** The inputs of a distributed run are those of the assignment and of the set-up's keys. */
  ghost predicate FromSetUp(inputs: Inputs, m: Matrices, w: Vec, s: Size, root: F, td: Trapdoor)
    requires Prepared(m, w, s, root, td)
  {
    CanSetUp(m, w, s, root, td);
    var r := QapOf(m, w, s.q * s.l);
    && inputs.queries == KeysOf(m, w, s, root, td).queries
    && inputs.a == w[1..] && inputs.ax == w[m.numInputs..]
    && inputs.colA == r.a && inputs.colB == r.b && inputs.colC == r.c
  }

  /** What the run makes is accepted for the public inputs of the assignment. */
  ghost predicate Accepted(m: Matrices, w: Vec, s: Size, root: F, td: Trapdoor, p: Groth16Shares.Proof)
    requires Prepared(m, w, s, root, td)
  {
    KeysMatch(m, w, s, root, td);
    Verifies(KeysOf(m, w, s, root, td).vk, p, w[1..m.numInputs])
  }

  /** Accepted exactly when the two third columns agree at tau, and so for every satisfying assignment. */
  ghost predicate AcceptedWhenAgreeing(m: Matrices, w: Vec, s: Size, root: F, td: Trapdoor, p: Groth16Shares.Proof)
    requires Prepared(m, w, s, root, td)
  {
    CanSetUp(m, w, s, root, td);
    && (Accepted(m, w, s, root, td, p) <==> ColumnsAgree(m, w, s, td.tau))
    && (m.Holds(w) ==> Accepted(m, w, s, root, td, p))
  }

  /** The proof that a run on these inputs reconstructs, if it ends. */
  ghost function RunFromSetUp(pp: Params, m: Matrices, w: Vec, s: Size, root: F, td: Trapdoor, inputs: Inputs,
                              r: seq<Vec>, t: seq<Vec>, misread: F -> Option<F>): Option<Groth16Shares.Proof>
    requires pp.Valid() && s.Valid() && Prepared(m, w, s, root, td) && inputs.Valid(pp, s)
    requires Shaped(pp, r, 1) && Shaped(pp, t, 1)
  {
    JobsYield(pp, s, inputs, root);
    RunProof(pp, KeysOf(m, w, s, root, td).key, inputs.AllJobs(pp, s, root), r, t, misread)
  }

  /**
   * For any constraints, assignment, trapdoor, masks and packings of r and t: a run that ends gives a proof
   * that is accepted exactly when the two third columns agree at tau, and so for every assignment that
   * satisfies the constraints.
   */
  lemma DistributedProofAccepted(pp: Params, m: Matrices, w: Vec, s: Size, root: F, td: Trapdoor, inputs: Inputs,
                                 r: seq<Vec>, t: seq<Vec>, rv: F, tv: F, misread: F -> Option<F>)
    requires pp.Valid() && s.Valid() && Prepared(m, w, s, root, td)
    requires inputs.Valid(pp, s) && FromSetUp(inputs, m, w, s, root, td)
    requires Holds(pp, r, rv, pp.l + pp.t) && Holds(pp, t, tv, pp.l + pp.t)
    ensures Shaped(pp, r, 1) && Shaped(pp, t, 1)
    ensures var p := RunFromSetUp(pp, m, w, s, root, td, inputs, r, t, misread);
      && (p.Some? <==> NoneZero(pp, r) || AllZero(pp, r))
      && (p.Some? ==> AcceptedWhenAgreeing(m, w, s, root, td, p.value))
  {
    hide Holds, Inputs.AllJobs, Inputs.Valid, Jobs.Fit, RunProof, InnerProduct, CircomRef, KeyEquation, Verifies, NoneZero,
      AllZero, ColumnsAgree, KeysOf, QapOf, Matrices.Holds;
    CanSetUp(m, w, s, root, td);
    var keys, k := KeysOf(m, w, s, root, td), m.numInputs;
    KeysMatch(m, w, s, root, td);
    DistributedVerifies(pp, s, keys.key, keys.vk, w[1..k], inputs, root, r, t, rv, tv, misread);
    SetUpEquation(m, w, s, root, td);
    var h := CircomRef(inputs.colA, inputs.colB, inputs.colC, Roots(s), root);
    assert h[..|keys.queries.u|] == h;
    if m.Holds(w) {
      SatisfyingColumn(m, w, s, root, td);
    }
  }

  /** The driver's packings of r and t always end, so a satisfying assignment always gives an accepted proof. */
  lemma DriverProofAccepted(pp: Params, m: Matrices, w: Vec, s: Size, root: F, td: Trapdoor, inputs: Inputs,
                            rv: F, tv: F, randR: Vec, randT: Vec, misread: F -> Option<F>)
    requires pp.Valid() && s.Valid() && Prepared(m, w, s, root, td) && m.Holds(w)
    requires inputs.Valid(pp, s) && FromSetUp(inputs, m, w, s, root, td)
    ensures var r, t := Packed(pp, rv, pp.n, randR), Packed(pp, tv, pp.n, randT);
      var p := RunFromSetUp(pp, m, w, s, root, td, inputs, r, t, misread);
      p.Some? && Accepted(m, w, s, root, td, p.value)
  {
    hide Holds, Inputs.AllJobs, Inputs.Valid, Inputs.Expected, Jobs.Fit, RunProof, Packed, KeysOf, QapOf, FromSetUp,
      Accepted, Matrices.Holds;
    PackedForEveryone(pp, rv, randR);
    PackedForEveryone(pp, tv, randT);
    ConstantHolds(pp, rv, pp.l + pp.t);
    ConstantHolds(pp, tv, pp.l + pp.t);
    DriverNeverFails(pp, s, KeysOf(m, w, s, root, td).key, inputs, root, rv, tv, randR, randT, misread);
    DistributedProofAccepted(pp, m, w, s, root, td, inputs, Constant(pp, rv), Constant(pp, tv), rv, tv, misread);
  }
}
