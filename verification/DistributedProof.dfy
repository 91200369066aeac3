/**
 * DistributedProof: from keys, witness and constraint columns to the reconstructed proof.
 */
module DistributedProof {
  import opened Results
  import opened ScalarField
  import opened Polynomials
  import opened RootsOfUnity
  import opened Domains
  import opened InnerProducts
  import opened PackedSharing
  import opened SharedVectors
  import opened DegreeReduction
  import opened DistributedFft
  import opened MpcFft
  import opened Transforms
  import opened ExtWitness
  import opened Dmsm
  import opened Groth16Shares
  import opened PackedInputs
  import opened RecoveryBound
  import opened ProvingRun

  /** The parts of the proving key that are packed. */
  datatype Queries = Queries(s: Vec, h: Vec, v: Vec, w: Vec, u: Vec)

  /** What the masks of one multiplication leave to chance. */
  datatype Seed = Seed(values: Vec, inRand: Vec, outRand: Vec) {
    predicate Valid(pp: Params) {
      |values| == pp.l && |inRand| == |outRand| == pp.t
    }
  }

  function MsmOf(pp: Params, query: Vec, scalars: seq<Vec>, seed: Seed): Msm
    requires pp.Valid() && 0 < pp.l
  {
    Msm(QueryShares(pp, query), scalars, SampleMsmMasks(pp, seed.values, seed.inRand, seed.outRand), |ChunksOf(query, pp.l)|)
  }

  lemma {:induction false} SameChunkCount(a: Vec, b: Vec, l: nat)
    requires 0 < l && |a| == |b|
    ensures |ChunksOf(a, l)| == |ChunksOf(b, l)|
    decreases |a|
  {
    if |a| > l {
      SameChunkCount(a[l..], b[l..], l);
    }
  }

  /** The multiplication of a packed query and a packed witness yields their inner product. */
  lemma WitnessYields(pp: Params, query: Vec, variables: Vec, rands: seq<Vec>, seed: Seed)
    requires pp.Valid() && 0 < pp.l && seed.Valid(pp) && |query| == |variables|
    requires Randomness(pp, rands, |ChunksOf(variables, pp.l)|)
    ensures var job := MsmOf(pp, query, WitnessShares(pp, variables, rands), seed);
      job.Fits(pp) && Yields(pp, job, InnerProduct(query, variables))
  {
    hide Represents, QueryShares, WitnessShares, Holds, DMsm, InnerProduct;
    var q := |ChunksOf(query, pp.l)|;
    SameChunkCount(query, variables, pp.l);
    QueryRepresents(pp, query);
    WitnessRepresents(pp, variables, rands);
    EveryoneHeard(pp);
    PackedMsm(pp, QueryShares(pp, query), WitnessShares(pp, variables, rands), query, variables, q,
              seed.values, seed.inRand, seed.outRand, Everyone(pp.n));
  }

  /** The multiplication of a packed query and shares of a longer vector uses the entries the query has. */
  lemma SharesYield(pp: Params, query: Vec, scalars: seq<Vec>, x: Vec, seed: Seed)
    requires pp.Valid() && 0 < pp.l && seed.Valid(pp)
    requires var q := |ChunksOf(query, pp.l)|;
      |x| == q * pp.l && Represents(pp, scalars, Chunks(x, q, pp.l), pp.l + pp.t)
    ensures |query| <= |x|
    ensures var job := MsmOf(pp, query, scalars, seed);
      job.Fits(pp) && Yields(pp, job, InnerProduct(query, x[..|query|]))
  {
    hide Represents, QueryShares, Holds, DMsm, InnerProduct, Chunks;
    var q := |ChunksOf(query, pp.l)|;
    QueryRepresents(pp, query);
    EveryoneHeard(pp);
    var padded := Resize(query, q * pp.l);
    ResizeSame(padded);
    ResizeSame(x);
    PackedMsm(pp, QueryShares(pp, query), scalars, padded, x, q, seed.values, seed.inRand, seed.outRand, Everyone(pp.n));
    ResizedInner(query, x);
  }

  /** Everything a proof starts from. */
  datatype Inputs = Inputs(
    queries: Queries, a: Vec, ax: Vec,
    colA: Vec, colB: Vec, colC: Vec,
    randsA: seq<Vec>, randsAx: seq<Vec>,
    randsColA: seq<Vec>, randsColB: seq<Vec>, randsColC: seq<Vec>,
    runs: seq<Run>, red: Reduction, seeds: seq<Seed>)
  {
    ghost predicate Valid(pp: Params, s: Size)
      requires pp.Valid() && s.Valid()
    {
      && s.l == pp.l && 0 < pp.l && |colA| == |colB| == |colC| == s.q * s.l
      && |queries.s| == |queries.h| == |queries.v| == |a| && |queries.w| == |ax|
      && |ChunksOf(queries.u, pp.l)| == s.q
      && Randomness(pp, randsA, |ChunksOf(a, pp.l)|) && Randomness(pp, randsAx, |ChunksOf(ax, pp.l)|)
      && Randomness(pp, randsColA, s.q) && Randomness(pp, randsColB, s.q) && Randomness(pp, randsColC, s.q)
      && |runs| == 6 && RunsValid(pp, s, runs) && red.Valid(pp, s.q)
      && |seeds| == 5 && forall i :: 0 <= i < 5 ==> seeds[i].Valid(pp)
    }

    /** The parties' shares of the quotient evaluations. */
    ghost function HShares(pp: Params, s: Size, root: F): (h: seq<Vec>)
      requires pp.Valid() && s.Valid() && Valid(pp, s)
      ensures Shaped(pp, h, s.q)
    {
      CircomH(pp, s, Pss(pp, s, colA, randsColA), Pss(pp, s, colB, randsColB), Pss(pp, s, colC, randsColC), runs, red, root)
    }

    ghost function AllJobs(pp: Params, s: Size, root: F): Jobs
      requires pp.Valid() && s.Valid() && Valid(pp, s)
    {
      var wa := WitnessShares(pp, a, randsA);
      Jobs(MsmOf(pp, queries.s, wa, seeds[0]), MsmOf(pp, queries.h, wa, seeds[1]), MsmOf(pp, queries.v, wa, seeds[2]),
           MsmOf(pp, queries.w, WitnessShares(pp, ax, randsAx), seeds[3]),
           MsmOf(pp, queries.u, HShares(pp, s, root), seeds[4]))
    }

    /** The proof of a single prover with the same inputs. */
    function Expected(k: Key, d: Domain, root: F, r: F, s: F): Proof
      requires |queries.s| == |queries.h| == |queries.v| == |a| && |queries.w| == |ax| && |queries.u| <= d.size
    {
      var h := CircomRef(colA, colB, colC, d, root);
      SingleProof(k, r, s, InnerProduct(queries.s, a), InnerProduct(queries.h, a), InnerProduct(queries.v, a),
                  InnerProduct(queries.w, ax), InnerProduct(queries.u, h[..|queries.u|]))
    }
  }

  lemma QuotientYields(pp: Params, s: Size, inputs: Inputs, root: F)
    requires pp.Valid() && s.Valid() && inputs.Valid(pp, s)
    ensures |inputs.queries.u| <= s.q * s.l
    ensures var h := CircomRef(inputs.colA, inputs.colB, inputs.colC, Roots(s), root);
      var job := MsmOf(pp, inputs.queries.u, inputs.HShares(pp, s, root), inputs.seeds[4]);
      job.Fits(pp) && Yields(pp, job, InnerProduct(inputs.queries.u, h[..|inputs.queries.u|]))
  {
    hide Represents, CircomH, CircomRef, Chunks, Yields, Msm.Fits, MsmOf, Pss;
    CircomHCorrect(pp, s, inputs.colA, inputs.colB, inputs.colC, inputs.randsColA, inputs.randsColB, inputs.randsColC,
                   inputs.runs, inputs.red, root);
    SharesYield(pp, inputs.queries.u, inputs.HShares(pp, s, root),
                CircomRef(inputs.colA, inputs.colB, inputs.colC, Roots(s), root), inputs.seeds[4]);
  }

  lemma JobsYield(pp: Params, s: Size, inputs: Inputs, root: F)
    requires pp.Valid() && s.Valid() && inputs.Valid(pp, s)
    ensures |inputs.queries.u| <= s.q * s.l && inputs.AllJobs(pp, s, root).Fit(pp)
    ensures var jobs, q := inputs.AllJobs(pp, s, root), inputs.queries;
      var h := CircomRef(inputs.colA, inputs.colB, inputs.colC, Roots(s), root);
      && Yields(pp, jobs.a, InnerProduct(q.s, inputs.a)) && Yields(pp, jobs.b1, InnerProduct(q.h, inputs.a))
      && Yields(pp, jobs.b2, InnerProduct(q.v, inputs.a)) && Yields(pp, jobs.w, InnerProduct(q.w, inputs.ax))
      && Yields(pp, jobs.u, InnerProduct(q.u, h[..|q.u|]))
  {
    hide CircomRef, Yields, Msm.Fits, MsmOf, Inputs.HShares, WitnessShares, InnerProduct;
    var q := inputs.queries;
    WitnessYields(pp, q.s, inputs.a, inputs.randsA, inputs.seeds[0]);
    WitnessYields(pp, q.h, inputs.a, inputs.randsA, inputs.seeds[1]);
    WitnessYields(pp, q.v, inputs.a, inputs.randsA, inputs.seeds[2]);
    WitnessYields(pp, q.w, inputs.ax, inputs.randsAx, inputs.seeds[3]);
    QuotientYields(pp, s, inputs, root);
  }

  /**
   * The distributed prover gives the single prover's proof if and only if all shares of r are zero or
   * none is, whatever the masks and the randomness; otherwise some party stops with an error.
   */
  lemma DistributedIsSingle(pp: Params, s: Size, k: Key, inputs: Inputs, root: F, r: seq<Vec>, t: seq<Vec>, rv: F, tv: F,
                            misread: F -> Option<F>)
    requires pp.Valid() && s.Valid() && inputs.Valid(pp, s)
    requires Holds(pp, r, rv, pp.l + pp.t) && Holds(pp, t, tv, pp.l + pp.t)
    ensures |inputs.queries.u| <= s.q * s.l && inputs.AllJobs(pp, s, root).Fit(pp)
    ensures Shaped(pp, r, 1) && Shaped(pp, t, 1)
    ensures RunProof(pp, k, inputs.AllJobs(pp, s, root), r, t, misread)
         == if NoneZero(pp, r) || AllZero(pp, r) then Some(inputs.Expected(k, Roots(s), root, rv, tv)) else None
  {
    hide Holds, Yields, Inputs.AllJobs, Jobs.Fit, CircomRef, RunProof, NoneZero, AllZero, SingleProof, InnerProduct;
    JobsYield(pp, s, inputs, root);
    var q := inputs.queries;
    var h := CircomRef(inputs.colA, inputs.colB, inputs.colC, Roots(s), root);
    RunExact(pp, k, inputs.AllJobs(pp, s, root), r, t, misread, rv, tv,
             InnerProduct(q.s, inputs.a), InnerProduct(q.h, inputs.a), InnerProduct(q.v, inputs.a),
             InnerProduct(q.w, inputs.ax), InnerProduct(q.u, h[..|q.u|]));
  }

  /** The driver packs r and s for everyone, so its runs always end with the single prover's proof. */
  lemma DriverNeverFails(pp: Params, s: Size, k: Key, inputs: Inputs, root: F, rv: F, tv: F, randR: Vec, randT: Vec,
                         misread: F -> Option<F>)
    requires pp.Valid() && s.Valid() && inputs.Valid(pp, s)
    ensures |inputs.queries.u| <= s.q * s.l && inputs.AllJobs(pp, s, root).Fit(pp)
    ensures RunProof(pp, k, inputs.AllJobs(pp, s, root), Packed(pp, rv, pp.n, randR), Packed(pp, tv, pp.n, randT), misread)
         == Some(inputs.Expected(k, Roots(s), root, rv, tv))
  {
    hide Holds, Inputs.AllJobs, Inputs.Expected, Jobs.Fit, RunProof, Packed, Inputs.Valid;
    PackedForEveryone(pp, rv, randR);
    PackedForEveryone(pp, tv, randT);
    ConstantHolds(pp, rv, pp.l + pp.t);
    ConstantHolds(pp, tv, pp.l + pp.t);
    DistributedIsSingle(pp, s, k, inputs, root, Constant(pp, rv), Constant(pp, tv), rv, tv, misread);
  }

  /** Packed as documented, every nonzero r has randomness with which the run fails, at any chosen party. */
  lemma ZeroShareStops(pp: Params, s: Size, k: Key, inputs: Inputs, root: F, rv: F, tv: F, randT: Vec, i: nat,
                       misread: F -> Option<F>) returns (randR: Vec)
    requires pp.Valid() && s.Valid() && inputs.Valid(pp, s) && CosetApart(pp) && 0 < pp.t
    requires rv != ZERO && |randT| == pp.t && i < pp.n
    ensures inputs.AllJobs(pp, s, root).Fit(pp) && |randR| == pp.t && Packed(pp, rv, pp.l, randR)[i][0] == ZERO
    ensures RunProof(pp, k, inputs.AllJobs(pp, s, root), Packed(pp, rv, pp.l, randR), Packed(pp, tv, pp.l, randT), misread)
         == None
  {
    hide Holds, Inputs.AllJobs, Inputs.Expected, Jobs.Fit, RunProof, Packed;
    randR := ZeroShare(pp, rv, i);
    PackedHolds(pp, rv, randR);
    PackedHolds(pp, tv, randT);
    var r := Packed(pp, rv, pp.l, randR);
    if AllZero(pp, r) {
      AllZeroShares(pp, r, rv);
    }
    DistributedIsSingle(pp, s, k, inputs, root, r, Packed(pp, tv, pp.l, randT), rv, tv, misread);
  }
}
