/**
 * ProvingRun: the parties' way through the multiplications of a proof, on shared streams.
 *
 * A, B in both groups and the first product of C use one stream after the other. A party whose share
 * of r is zero leaves B in the first group at once, before the multiplication: it does not join that
 * round, and its next message is taken for the one the king waits for.
 */
module ProvingRun {
  import opened Results
  import opened ScalarField
  import opened Polynomials
  import opened RootsOfUnity
  import opened InnerProducts
  import opened PackedSharing
  import opened SharedVectors
  import opened DegreeReduction
  import opened MpcFft
  import opened Dmsm
  import opened Groth16Shares
  import opened PackedInputs
  import opened RecoveryBound
  import opened Streams

  // ----- rounds and messages

  datatype Group = First | Second

  datatype Round = RoundA | RoundB1 | RoundB2 | RoundW {
    function In(): Group {
      if this == RoundB2 then Second else First
    }
  }

  /** The rounds a party joins on the first stream. */
  function Script(rShare: F): (rounds: seq<Round>)
    ensures |rounds| >= 3
  {
    if rShare == ZERO then [RoundA, RoundB2, RoundW] else [RoundA, RoundB1, RoundB2, RoundW]
  }

  /** The encoding of a group element; that of the second group is longer. */
  datatype Wire = Wire(of: Group, point: F)

  /**
   * Decoding an encoding of the other group: too short for the second group; for the first group some
   * bytes are left over, and what the others decode to is unknown.
   */
  function Decode(w: Wire, g: Group, misread: F -> Option<F>): Option<F> {
    if w.of == g then Some(w.point) else if g == First then misread(w.point) else None
  }

  /** One multiplication: what the parties hold, and the masks. */
  datatype Msm = Msm(bases: seq<Vec>, scalars: seq<Vec>, masks: Masks, count: nat) {
    ghost predicate Fits(pp: Params) {
      && Shaped(pp, bases, count) && Shaped(pp, scalars, count)
      && Shaped(pp, masks.input, 1) && Shaped(pp, masks.output, 1)
    }

    function Sent(pp: Params): (r: seq<Vec>)
      requires Fits(pp)
      ensures Shaped(pp, r, 1)
    {
      Masked(LocalMsm(bases, scalars), masks)
    }

    /** What the parties hold after the multiplication when everyone joined. */
    function Result(pp: Params): (r: seq<Vec>)
      requires pp.Valid() && Fits(pp)
      ensures Shaped(pp, r, 1)
    {
      EveryoneHeard(pp);
      DMsm(pp, bases, scalars, masks, Everyone(pp.n), count)
    }
  }

  lemma EveryoneHeard(pp: Params)
    requires pp.Valid()
    ensures Heard(pp, Everyone(pp.n)) && pp.ProductSize() <= pp.n
  {
  }

  datatype Jobs = Jobs(a: Msm, b1: Msm, b2: Msm, w: Msm, u: Msm) {
    function Of(round: Round): Msm {
      match round
      case RoundA => a
      case RoundB1 => b1
      case RoundB2 => b2
      case RoundW => w
    }

    ghost predicate Fit(pp: Params) {
      a.Fits(pp) && b1.Fits(pp) && b2.Fits(pp) && w.Fits(pp) && u.Fits(pp)
    }
  }

  function Message(pp: Params, jobs: Jobs, round: Round, i: nat): Wire
    requires jobs.Fit(pp) && i < pp.n
  {
    Wire(round.In(), jobs.Of(round).Sent(pp)[i][0])
  }

  /** What every party puts on the first stream, in this order. */
  function Messages(pp: Params, jobs: Jobs, r: seq<Vec>): (scripts: seq<seq<Wire>>)
    requires jobs.Fit(pp) && Shaped(pp, r, 1)
    ensures |scripts| == pp.n
    ensures forall i :: 0 <= i < pp.n ==> |scripts[i]| == |Script(r[i][0])|
  {
    seq(pp.n, i requires 0 <= i < pp.n =>
      seq(|Script(r[i][0])|, k requires 0 <= k < |Script(r[i][0])| => Message(pp, jobs, Script(r[i][0])[k], i)))
  }

  /** Everyone joins a k-th round. */
  ghost predicate Shared(pp: Params, r: seq<Vec>, k: nat)
    requires Shaped(pp, r, 1)
  {
    forall i :: 0 <= i < pp.n ==> k < |Script(r[i][0])|
  }

  /** The k-th message of every party: what the king gathers in its k-th round. */
  ghost function Gathering(pp: Params, jobs: Jobs, r: seq<Vec>, k: nat): (g: seq<Wire>)
    requires jobs.Fit(pp) && Shaped(pp, r, 1) && Shared(pp, r, k)
    ensures |g| == pp.n
  {
    seq(pp.n, i requires 0 <= i < pp.n => Messages(pp, jobs, r)[i][k])
  }

  lemma GatheringAt(pp: Params, jobs: Jobs, r: seq<Vec>, k: nat, i: nat)
    requires jobs.Fit(pp) && Shaped(pp, r, 1) && Shared(pp, r, k) && i < pp.n
    ensures Gathering(pp, jobs, r, k)[i] == Message(pp, jobs, Script(r[i][0])[k], i)
  {
    hide Script, Message;
    var mine := Messages(pp, jobs, r)[i];
    assert mine[k] == Message(pp, jobs, Script(r[i][0])[k], i);
  }

  // ----- one round

  /** The shares of a full gathering, unless one cannot be decoded. */
  function Opened(g: seq<Wire>, of: Group, misread: F -> Option<F>): (r: Option<Vec>)
    ensures r.Some? ==> |r.value| == |g|
  {
    if forall i :: 0 <= i < |g| ==> Decode(g[i], of, misread).Some? then
      Some(seq(|g|, i requires 0 <= i < |g| && Decode(g[i], of, misread).Some? => Decode(g[i], of, misread).value))
    else None
  }

  function Answer(pp: Params, g: seq<Wire>, of: Group, misread: F -> Option<F>): Option<Wire>
    requires pp.Valid() && |g| == pp.n
  {
    match Opened(g, of, misread)
    case None => None
    case Some(shares) => Some(Wire(of, Sum(UnpackMissingShares(pp, shares, Everyone(pp.n)))))
  }

  /** What the king replies to its k-th gathering: its answer, or nothing because it stopped. */
  function KingReply(pp: Params, r: seq<Vec>, misread: F -> Option<F>): Reply<Wire, Option<Wire>>
    requires pp.Valid() && Shaped(pp, r, 1)
  {
    (k: nat, g: seq<Wire>) =>
      if |g| == pp.n && k < |Script(r[0][0])| then Answer(pp, g, Script(r[0][0])[k].In(), misread) else None
  }

  /** What party i makes of the reply to its k-th message. */
  ghost function Opens(pp: Params, jobs: Jobs, r: seq<Vec>, misread: F -> Option<F>, k: nat, i: nat, reply: Option<Wire>)
    : Option<F>
    requires jobs.Fit(pp) && Shaped(pp, r, 1) && i < pp.n && k < |Script(r[i][0])|
  {
    match reply
    case None => None
    case Some(answer) =>
      var mine := Script(r[i][0])[k];
      match Decode(answer, mine.In(), misread)
      case None => None
      case Some(x) => Some(Add(x, jobs.Of(mine).masks.output[i][0]))
  }

  /** What party i holds after its k-th round, unless the king or the party could not decode. */
  ghost function Product(pp: Params, jobs: Jobs, r: seq<Vec>, misread: F -> Option<F>, k: nat, i: nat): Option<F>
    requires pp.Valid() && jobs.Fit(pp) && Shaped(pp, r, 1) && Shared(pp, r, k) && i < pp.n
  {
    Opens(pp, jobs, r, misread, k, i, Answer(pp, Gathering(pp, jobs, r, k), Script(r[0][0])[k].In(), misread))
  }

  /** Some party stops with an error. */
  ghost predicate Fails(pp: Params, jobs: Jobs, r: seq<Vec>, misread: F -> Option<F>)
    requires pp.Valid() && jobs.Fit(pp) && Shaped(pp, r, 1)
  {
    exists k: nat, i: nat :: Shared(pp, r, k) && i < pp.n && Product(pp, jobs, r, misread, k, i) == None
  }

  // ----- the rounds on the streams

  /** The steps of the network on the parties' messages and the king's replies. */
  ghost predicate IsProvingRun(pp: Params, jobs: Jobs, r: seq<Vec>, misread: F -> Option<F>,
                               run: seq<Net<Wire, Option<Wire>>>)
    requires pp.Valid() && jobs.Fit(pp) && Shaped(pp, r, 1)
  {
    IsRun(Messages(pp, jobs, r), KingReply(pp, r, misread), run)
  }

  lemma GatheringIsDelivered(pp: Params, jobs: Jobs, r: seq<Vec>, misread: F -> Option<F>,
                             run: seq<Net<Wire, Option<Wire>>>, k: nat)
    requires pp.Valid() && jobs.Fit(pp) && Shaped(pp, r, 1) && IsProvingRun(pp, jobs, r, misread, run)
    requires k < |Last(run).log|
    ensures Shared(pp, r, k) && Last(run).log[k] == Gathering(pp, jobs, r, k)
  {
    hide Messages, Script, KingReply;
    var scripts, reply, log := Messages(pp, jobs, r), KingReply(pp, r, misread), Last(run).log;
    GatheringsAligned(scripts, reply, run, k, 0);
    forall i | 0 <= i < pp.n
      ensures k < |scripts[i]| && log[k][i] == scripts[i][k]
    {
      GatheringsAligned(scripts, reply, run, k, i);
    }
  }

  /** Under every interleaving, what a party makes of its k-th answer is its product of round k. */
  lemma ProductIsDelivered(pp: Params, jobs: Jobs, r: seq<Vec>, misread: F -> Option<F>,
                           run: seq<Net<Wire, Option<Wire>>>, k: nat, i: nat)
    requires pp.Valid() && jobs.Fit(pp) && Shaped(pp, r, 1) && IsProvingRun(pp, jobs, r, misread, run)
    requires 1 <= i < pp.n
    ensures |Last(run).clients| == pp.n
    ensures k < |Last(run).clients[i].got| ==>
      && Shared(pp, r, k)
      && Product(pp, jobs, r, misread, k, i) == Opens(pp, jobs, r, misread, k, i, Last(run).clients[i].got[k])
  {
    hide Messages, Script, Answer, Gathering, Opens;
    AnswersPaired(Messages(pp, jobs, r), KingReply(pp, r, misread), run, k, i);
    if k < |Last(run).clients[i].got| {
      GatheringIsDelivered(pp, jobs, r, misread, run, k);
      assert k < |Script(r[0][0])|;
    }
  }

  /** When all shares of r are zero or none is, every run goes on until all parties have read all answers. */
  lemma RunsToTheEnd(pp: Params, jobs: Jobs, r: seq<Vec>, misread: F -> Option<F>, run: seq<Net<Wire, Option<Wire>>>, i: nat)
    requires pp.Valid() && jobs.Fit(pp) && Shaped(pp, r, 1) && IsProvingRun(pp, jobs, r, misread, run)
    requires NoneZero(pp, r) || AllZero(pp, r)
    requires 1 <= i < pp.n && !CanStep(Messages(pp, jobs, r), Last(run))
    ensures |Last(run).clients| == pp.n && |Last(run).clients[i].got| == |Script(r[i][0])|
  {
    hide KingReply, CanStep;
    var scripts, reply, log := Messages(pp, jobs, r), KingReply(pp, r, misread), Last(run).log;
    var rounds := |Script(r[0][0])|;
    assert forall j :: 0 <= j < pp.n ==> |scripts[j]| == rounds;
    if |log| < rounds {
      Progress(scripts, reply, run);
    }
    if |log| > rounds {
      GatheringsAligned(scripts, reply, run, rounds, 0);
    }
    AllRead(scripts, reply, run, i);
  }

  /** A round that is the same for everyone is the multiplication. */
  lemma AlignedRound(pp: Params, jobs: Jobs, r: seq<Vec>, misread: F -> Option<F>, k: nat, round: Round, i: nat)
    requires pp.Valid() && jobs.Fit(pp) && Shaped(pp, r, 1) && Shared(pp, r, k) && i < pp.n
    requires forall j :: 0 <= j < pp.n ==> Script(r[j][0])[k] == round
    ensures Product(pp, jobs, r, misread, k, i) == Some(jobs.Of(round).Result(pp)[i][0])
  {
    hide Script, UnpackMissingShares, Sum, Gathering, LocalMsm;
    var job := jobs.Of(round);
    var sent := job.Sent(pp);
    var g := Gathering(pp, jobs, r, k);
    forall j | 0 <= j < pp.n
      ensures g[j] == Wire(round.In(), sent[j][0])
    {
      GatheringAt(pp, jobs, r, k, j);
    }
    EveryoneHeard(pp);
    assert Opened(g, round.In(), misread).value == Column(Received(sent, Everyone(pp.n)), 0);
  }

  /** With zero and nonzero shares of r together, the second round fails for someone. */
  lemma MixedFails(pp: Params, jobs: Jobs, r: seq<Vec>, misread: F -> Option<F>, z: nat, y: nat)
    requires pp.Valid() && jobs.Fit(pp) && Shaped(pp, r, 1)
    requires z < pp.n && y < pp.n && r[z][0] == ZERO && r[y][0] != ZERO
    ensures Fails(pp, jobs, r, misread)
  {
    hide UnpackMissingShares, Sum, Gathering;
    var g := Gathering(pp, jobs, r, 1);
    if r[0][0] == ZERO {
      GatheringAt(pp, jobs, r, 1, y);
      assert Decode(g[y], Second, misread) == None;
      assert Product(pp, jobs, r, misread, 1, y) == None;
    } else {
      assert Product(pp, jobs, r, misread, 1, z) == None;
    }
  }

  // ----- the whole run

  /** The place of a round in a party's script. */
  function Place(round: Round, rShare: F): nat {
    match round
    case RoundA => 0
    case RoundB1 => 1
    case RoundB2 => if rShare == ZERO then 1 else 2
    case RoundW => if rShare == ZERO then 2 else 3
  }

  /** What party i got from a round, or zero when there was no such round. */
  ghost function Got(pp: Params, jobs: Jobs, r: seq<Vec>, misread: F -> Option<F>, round: Round, i: nat): F
    requires pp.Valid() && jobs.Fit(pp) && Shaped(pp, r, 1) && i < pp.n
  {
    var k := Place(round, r[i][0]);
    if Shared(pp, r, k) && Product(pp, jobs, r, misread, k, i).Some? then Product(pp, jobs, r, misread, k, i).value else ZERO
  }

  ghost function Products(pp: Params, jobs: Jobs, r: seq<Vec>, misread: F -> Option<F>, round: Round): (p: seq<Vec>)
    requires pp.Valid() && jobs.Fit(pp) && Shaped(pp, r, 1)
    ensures Shaped(pp, p, 1)
  {
    Single(seq(pp.n, i requires 0 <= i < pp.n => Got(pp, jobs, r, misread, round, i)))
  }

  /** B in the first group: zero at once for a party whose share of r is zero. */
  function BInG1Shares(pp: Params, k: Key, r: seq<Vec>, s: seq<Vec>, product: seq<Vec>): (b: seq<Vec>)
    requires Shaped(pp, r, 1) && Shaped(pp, s, 1) && Shaped(pp, product, 1)
    ensures Shaped(pp, b, 1)
  {
    var full := LinearShares(pp, k.bG1Query0, k.delta, k.beta, s, product);
    seq(pp.n, i requires 0 <= i < pp.n => if r[i][0] == ZERO then [ZERO] else full[i])
  }

  /** The proof that is reconstructed after the run, unless some party stopped. */
  ghost function RunProof(pp: Params, k: Key, jobs: Jobs, r: seq<Vec>, s: seq<Vec>, misread: F -> Option<F>): Option<Proof>
    requires pp.Valid() && 0 < pp.l && jobs.Fit(pp) && Shaped(pp, r, 1) && Shaped(pp, s, 1)
  {
    if Fails(pp, jobs, r, misread) then None
    else
      var b1 := BInG1Shares(pp, k, r, s, Products(pp, jobs, r, misread, RoundB1));
      Some(ProofOf(pp, k, r, s, Products(pp, jobs, r, misread, RoundA), b1, Products(pp, jobs, r, misread, RoundB2),
                   Products(pp, jobs, r, misread, RoundW), jobs.u.Result(pp)))
  }

  ghost predicate AllZero(pp: Params, r: seq<Vec>)
    requires Shaped(pp, r, 1)
  {
    forall i :: 0 <= i < pp.n ==> r[i][0] == ZERO
  }

  ghost predicate NoneZero(pp: Params, r: seq<Vec>)
    requires Shaped(pp, r, 1)
  {
    forall i :: 0 <= i < pp.n ==> r[i][0] != ZERO
  }

  /** The round is in the scripts of all parties at the same place. */
  lemma RoundDone(pp: Params, jobs: Jobs, r: seq<Vec>, misread: F -> Option<F>, round: Round)
    requires pp.Valid() && jobs.Fit(pp) && Shaped(pp, r, 1)
    requires NoneZero(pp, r) || (AllZero(pp, r) && round != RoundB1)
    ensures Products(pp, jobs, r, misread, round) == jobs.Of(round).Result(pp)
  {
    hide Product, Msm.Result;
    var k := Place(round, r[0][0]);
    var p, q := Products(pp, jobs, r, misread, round), jobs.Of(round).Result(pp);
    forall i | 0 <= i < pp.n
      ensures p[i][0] == q[i][0]
    {
      AlignedRound(pp, jobs, r, misread, k, round, i);
    }
    SameShares(pp, p, q, 1);
  }

  lemma NoFailure(pp: Params, jobs: Jobs, r: seq<Vec>, misread: F -> Option<F>)
    requires pp.Valid() && jobs.Fit(pp) && Shaped(pp, r, 1) && (NoneZero(pp, r) || AllZero(pp, r))
    ensures !Fails(pp, jobs, r, misread)
  {
    hide Product;
    forall k: nat, i: nat | Shared(pp, r, k) && i < pp.n
      ensures Product(pp, jobs, r, misread, k, i).Some?
    {
      AlignedRound(pp, jobs, r, misread, k, Script(r[0][0])[k], i);
    }
  }

  /** The multiplication leaves the parties with shares of the value. */
  ghost predicate Yields(pp: Params, job: Msm, v: F)
    requires pp.Valid() && job.Fits(pp)
  {
    Holds(pp, job.Result(pp), v, pp.l + pp.t)
  }

  /**
   * A run ends with the single prover's proof if and only if all shares of r are zero or none is;
   * in all other cases some party stops with an error.
   */
  lemma RunExact(pp: Params, k: Key, jobs: Jobs, r: seq<Vec>, s: seq<Vec>, misread: F -> Option<F>,
                 rv: F, sv: F, sav: F, hav: F, vav: F, waxv: F, uhv: F)
    requires pp.Valid() && 0 < pp.l && jobs.Fit(pp) && Holds(pp, r, rv, pp.l + pp.t) && Holds(pp, s, sv, pp.l + pp.t)
    requires Yields(pp, jobs.a, sav) && Yields(pp, jobs.b1, hav) && Yields(pp, jobs.b2, vav)
    requires Yields(pp, jobs.w, waxv) && Yields(pp, jobs.u, uhv)
    ensures Shaped(pp, r, 1) && Shaped(pp, s, 1)
    ensures RunProof(pp, k, jobs, r, s, misread)
         == if NoneZero(pp, r) || AllZero(pp, r) then Some(SingleProof(k, rv, sv, sav, hav, vav, waxv, uhv)) else None
  {
    hide Holds, SingleProof, RunProof, Fails, Yields, Msm.Fits;
    HoldsShape(pp, r, rv, pp.l + pp.t);
    HoldsShape(pp, s, sv, pp.l + pp.t);
    if NoneZero(pp, r) || AllZero(pp, r) {
      RunReconstructs(pp, k, jobs, r, s, misread, rv, sv, sav, hav, vav, waxv, uhv);
    } else {
      var z :| 0 <= z < pp.n && r[z][0] == ZERO;
      var y :| 0 <= y < pp.n && r[y][0] != ZERO;
      MixedFails(pp, jobs, r, misread, z, y);
      FailedRun(pp, k, jobs, r, s, misread);
    }
  }

  lemma FailedRun(pp: Params, k: Key, jobs: Jobs, r: seq<Vec>, s: seq<Vec>, misread: F -> Option<F>)
    requires pp.Valid() && 0 < pp.l && jobs.Fit(pp) && Shaped(pp, r, 1) && Shaped(pp, s, 1) && Fails(pp, jobs, r, misread)
    ensures RunProof(pp, k, jobs, r, s, misread) == None
  {
    hide Fails;
  }

  lemma RunReconstructs(pp: Params, k: Key, jobs: Jobs, r: seq<Vec>, s: seq<Vec>, misread: F -> Option<F>,
                        rv: F, sv: F, sav: F, hav: F, vav: F, waxv: F, uhv: F)
    requires pp.Valid() && 0 < pp.l && jobs.Fit(pp) && Holds(pp, r, rv, pp.l + pp.t) && Holds(pp, s, sv, pp.l + pp.t)
    requires Yields(pp, jobs.a, sav) && Yields(pp, jobs.b1, hav) && Yields(pp, jobs.b2, vav)
    requires Yields(pp, jobs.w, waxv) && Yields(pp, jobs.u, uhv)
    requires Shaped(pp, r, 1) && Shaped(pp, s, 1) && (NoneZero(pp, r) || AllZero(pp, r))
    ensures RunProof(pp, k, jobs, r, s, misread) == Some(SingleProof(k, rv, sv, sav, hav, vav, waxv, uhv))
  {
    hide Holds, SingleProof, ProofOf, Fails, Products, BInG1Shares, NoneZero, AllZero, Msm.Result, Shaped;
    NoFailure(pp, jobs, r, misread);
    RoundDone(pp, jobs, r, misread, RoundA);
    RoundDone(pp, jobs, r, misread, RoundB2);
    RoundDone(pp, jobs, r, misread, RoundW);
    var b1v := FirstGroupB(pp, k, jobs, r, s, misread, rv, sv, hav);
    var b1 := BInG1Shares(pp, k, r, s, Products(pp, jobs, r, misread, RoundB1));
    SharesReconstruct(pp, k, r, s, jobs.a.Result(pp), b1, jobs.b2.Result(pp), jobs.w.Result(pp), jobs.u.Result(pp),
                      rv, sv, sav, b1v, hav, vav, waxv, uhv);
  }

  lemma AllComputed(pp: Params, k: Key, r: seq<Vec>, s: seq<Vec>, product: seq<Vec>)
    requires Shaped(pp, r, 1) && Shaped(pp, s, 1) && Shaped(pp, product, 1) && NoneZero(pp, r)
    ensures BInG1Shares(pp, k, r, s, product) == LinearShares(pp, k.bG1Query0, k.delta, k.beta, s, product)
  {
    hide LinearShares;
  }

  lemma FirstGroupB(pp: Params, k: Key, jobs: Jobs, r: seq<Vec>, s: seq<Vec>, misread: F -> Option<F>, rv: F, sv: F, hav: F)
    returns (b1v: F)
    requires pp.Valid() && 0 < pp.l && jobs.Fit(pp) && Holds(pp, r, rv, pp.l + pp.t) && Holds(pp, s, sv, pp.l + pp.t)
    requires Shaped(pp, r, 1) && Shaped(pp, s, 1) && Yields(pp, jobs.b1, hav)
    requires NoneZero(pp, r) || AllZero(pp, r)
    ensures Holds(pp, BInG1Shares(pp, k, r, s, Products(pp, jobs, r, misread, RoundB1)), b1v, pp.l + pp.t)
    ensures b1v == LinearValue(k.bG1Query0, k.delta, k.beta, sv, hav) || (rv == ZERO && b1v == ZERO)
  {
    hide Holds, LinearShares, LinearValue, Msm.Result, Msm.Fits;
    var products := Products(pp, jobs, r, misread, RoundB1);
    var b1 := BInG1Shares(pp, k, r, s, products);
    if NoneZero(pp, r) {
      RoundDone(pp, jobs, r, misread, RoundB1);
      LinearHolds(pp, k.bG1Query0, k.delta, k.beta, s, products, sv, hav);
      AllComputed(pp, k, r, s, products);
      b1v := LinearValue(k.bG1Query0, k.delta, k.beta, sv, hav);
    } else {
      AllZeroShares(pp, r, rv);
      ConstantHolds(pp, ZERO, pp.l + pp.t);
      SameShares(pp, b1, Constant(pp, ZERO), 1);
      b1v := ZERO;
    }
  }
}
