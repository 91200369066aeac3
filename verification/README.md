# Verified models of the proving, sharing, aggregation and compilation code

ZK-PSE lets a group of parties produce a Groth16 proof on secret-shared data, aggregates many such
proofs, and compiles password policies into circuits. This project models the four parts where a
clever implementation has to agree with a simple meaning, and proves that it does.

- **Distributed transform and proving pipeline** (`dist-primitives`, `groth16`). The in-place
  butterfly loops of the parties and of the king compute together the naive discrete Fourier
  transform; masks cancel; degree reduction, the shared multi-scalar multiplication, partial
  products, the quotient evaluations and the shares of A, B and C follow, up to a proof that the verifier
  accepts.
- **Packed secret sharing and decoding** (`secret-sharing`, `mpc-net`). Packing and unpacking,
  products of shares, recovery from any large enough set of parties, the in-place polynomial
  routines, the Euclidean decoder, and the gathering of messages under loss and reordering.
- **Aggregation** (`snarkpack`). The folding prover and the replaying verifier meet: same
  challenges, same accumulated commitments, openings of the folded keys, the aggregated Groth16
  equation, acceptance of every honest aggregate in every merge order, and exactly which aggregates,
  honest or not, are accepted.
- **Regex compiler** (`regex/zk-regex-compiler-v2`). Renaming and joining of automata, the netlist
  generator with its memo tables, and what the output of a compiled circuit says about a message.

## How the model is built

*Field.* `ScalarField.K` is a constant of a type that contains exactly the structures on integers
that satisfy the field laws, and nothing more is said about it; so every theorem holds for every such
field. `Fields` proves the laws for the integers modulo any prime, and uses the field of 17 elements
as the witness that the type is inhabited; `SmallField` gives protocol parameters in it. Transforms also
assume that a half exists (`OddCharacteristic`).

*Groups.* Elements of the groups of a pairing are written by their exponents: an addition of points
is an addition, a multiexponentiation an inner product, a pairing a product, and a product in the
target group a sum. Points at infinity and Miller loops are not modelled; Miller values are identified
with their final exponentiation. Of encodings only this is used: an element decodes to itself, the
encoding of a first-group element is too short for the second group, and what the first bytes of a
second-group element decode to is arbitrary.

*Streams.* Messages between two parties keep their order, and nothing on the wire names the round they
belong to. `Streams` proves for every interleaving what the king gathers and which answer a party reads;
`ProvingRun` runs the multiplications of a proof on it, with nothing lost or late.

*Library code.* The transforms of the polynomial library (`Domains.Fft`, `Domains.Ifft`) are
specified, with the resizing they do, and proved inverse to each other; polynomial division and
constraint evaluation are specified by their defining recursion. The set-up of keys is the library's:
`TrustedSetup` states it for a trapdoor as the library documents it.

*Randomness and time.* Random values, masks, coins, the set of parties that answered, the order of
arrivals, the iteration order of hash maps and the schedule of concurrent checks are parameters, and
the theorems hold for all of them. So are the bytes drawn for challenges, which depend on the transcript
log; of these it is assumed that the loop that draws them ends.

*Form.* Loops over buffers, the folding loops, the transcript, the gate compiler and the automaton
routines are methods over arrays, fields and reassigned sequences, each proved against a specification
function; code that is a composition of maps is a function. Gates are terms instead of lines of text;
an AND gate is emitted after the disjunction it reads, while the program opens it before. The library
templates of the circuit language are given by what they compute on bits.

## What came out

- The KZG opening of the w key subtracts f(z) z^(2n) instead of f_w(z) = f(z) z^n, because it takes
  the exponent from the length of a table that has 2n entries (`snarkpack/src/prover.rs:386-402`).
  The opening is right all the same: the quotient does not depend on the subtracted value
  (`KzgOpenings.QuotientIgnoresValue`). The two values are equal if and only if z^n is one or f_w(z) is
  zero (`KzgOpenings.SubtractedExact`).
- `new_with_params` refuses the parameters that `new` builds: its last assertion makes an inequality
  strict (`SharingParameters.DefaultIsRefused`).
- The verifier of aggregates panics when the first challenge is one, and only then
  (`AggregateCompleteness.AggregationComplete`).
- `d_pp` divides by its blinding factor once more although the factor has cancelled; this is
  harmless for the constant one that it uses, and only for that (`PartialProducts.BlindingExact`).
- The third constraint matrix is not consulted when the columns are built, so the quotient divides for
  every assignment (`Qap.QapAlwaysDivides`, `ViolatedStillDivides`); with it, the quotient would divide
  for the satisfying assignments and no others (`Qap.ThirdMatrixDecides`). The proof is accepted if and only
  if the two third columns have interpolants that agree at the secret point
  (`VerifiedProving.DistributedProofAccepted`).
- A party whose share of r is zero leaves B in G1 before the multiplication and so misses a round of a
  shared stream (`groth16/src/prove.rs:96-98`). A run gives the single prover's proof if and only if all
  shares of r are zero or none is (`ProvingRun.RunExact`). Packed with randomness, every nonzero r can
  have a zero share that stops the run (`DistributedProof.ZeroShareStops`). The driver packs n copies,
  of which l + t fit, so that every share is r itself and the case cannot arise
  (`DistributedProof.DriverNeverFails`); its call does not meet the debug assertion on the length.
- The protocols ask the network for t answers, while recovery works if and only if there are at least
  2(l+t)-1 (`RecoveryBound.RecoversExact`, `ThresholdTooLow`); the difference is checked only by a debug
  assertion (`secret-sharing/src/pss.rs:203-206`).
- The compiler groups bytes into a range from 17 consecutive bytes on, while its comment says 16
  (`regex/zk-regex-compiler-v2/packages/compiler/src/circom.rs:77-98`). The model follows the code.
- The loop that draws a challenge never ends when the first bytes that are a scalar are zero, because it
  does not draw again in this case (`snarkpack/src/transcript.rs:40-44`); otherwise it ends with a nonzero
  challenge (`Transcripts.ChallengeEnds`).
- A scan without an end anchor can miss a match, since it restarts only when nothing is active
  (`CircuitTheorems.ScannerMissesMatch`). Found are exactly the matches that begin where the scanner
  starts afresh (`CircuitTheorems.OutExact`), and so all of them when no byte that leads on from state 0
  leads on from another state (`CircuitTheorems.FindsEveryMatch`). A message without padding is never
  accepted by a circuit with an end anchor (`CircuitTheorems.NoPaddingNoMatch`).
- A part that is only the start anchor puts 255 before every word, and with an end anchor as well the
  circuit decides the language (`CaretGraphs.CompileAnchored`). A part that begins with the anchor also accepts
  its words without the 255 in front, and after a 255 it goes on from an accepting state instead of the
  start (`CaretGraphs.WithCaretLanguage`).
- Joining two automata can leave an edge without bytes, for which the generator emits a gate with an
  open input (`DfaConcat.ShadowedEdge`).
- An edge back to the start of the second automaton is renamed to the last state of the first one, so
  that words can be lost and others gained (`DfaConcat.LoopIsMisdirected`). Without such edges, or when
  that last state accepts and the merge leaves it no edge of its own, the joined automaton accepts
  exactly the pairs of words whose first part the merge does not disturb (`DfaConcat.JoinedExact`). In
  general a run alternates between stretches in the first automaton and excursions into the second one
  (`DfaSegments.JoinedSegments`).

## Model

| member | source | states |
|---|---|---|
| LocalLevels.Fft1InPlace | dist-primitives/src/dfft/mod.rs:178-208 | In place on one party's array, the local butterfly levels with shifted twiddles compute, in every block, the values of the block's polynomial at the shifted powers of the root; equal to a specification by evaluation. |
| LocalLevels.JoinBlocks | dist-primitives/src/dfft/mod.rs:194-206 | One local level: each pair of neighbouring entries is joined by a butterfly with the running factor, every other entry untouched. |
| KingLevels.Fft2InPlace | dist-primitives/src/dfft/mod.rs:210-237 | The remaining levels with swapped buffers and the final rotation give, at index k, the value that the interleaved rows determine for index k and not for k + 1. |
| KingLevels.JoinStrided | dist-primitives/src/dfft/mod.rs:220-232 | One level of the king: the strided butterfly from one buffer into the other. |
| BitReversal.FftInPlaceRearrange | dist-primitives/src/dfft/mod.rs:322-335 | The swap loop with the running target index is the bit-reversal permutation defined by even and odd halves. |
| BitReversal.BitReversedAt | dist-primitives/src/dfft/mod.rs:322-335 | Entry i of the bit-reversed vector is the entry at the index with the digits of i in reverse. |
| BitReversal.RevInvolution | dist-primitives/src/dfft/mod.rs:322-335 | Reversing the digits twice gives the index back, so the swaps undo each other. |
| DistributedFft.EvalBlocks | dist-primitives/src/dfft/mod.rs:178-237 | A bit-reversed polynomial is evaluated by evaluating its l blocks and combining them: the algebra of stopping between the local and the king's levels. |
| DistributedFft.DistributedIsDft | dist-primitives/src/dfft/mod.rs:178-237 | For all powers of two q and l and every primitive root of order ql: bit-reverse, stride into rows, run the local levels on each slot, interleave, run the king's levels; the result is the naive transform at every index. |
| RootsOfUnity.InverseDft | dist-primitives/src/dfft/mod.rs:137-175 | Transforming with the inverse root and dividing by the length inverts the transform. |
| MpcFft.DFftTransforms | dist-primitives/src/dfft/mod.rs:240-319 | For all masks from sample and any large enough set of answering parties, the parties end with fresh sharings of the transform scaled by g^k, in plain or in rearranged layout: the masks cancel. |
| MpcFft.DFftView | dist-primitives/src/dfft/mod.rs:36-60 | What the king unpacks is the rows after the local levels plus, entry by entry, the sampled mask values. |
| Transforms.ForwardRepresents | dist-primitives/src/dfft/mod.rs:99-135 | The distributed transform of shares of x in strided bit-reversed layout shares the naive transform of x. |
| Transforms.BackwardRepresents | dist-primitives/src/dfft/mod.rs:137-175 | The distributed inverse shares the interpolation of x, coefficient k multiplied by g^k. |
| Transforms.BackwardForward | dist-primitives/src/dfft/mod.rs:99-175 | Inverse with rearrangement followed by forward: the values on the coset of g, and exactly the start when g is one. |
| DegreeReduction.DegRedCorrect | dist-primitives/src/utils/deg_red.rs:40-126 | For all masks and any large enough set of answering parties, degree reduction keeps the secrets and restores the degree of a fresh sharing. |
| DegreeReduction.DegRedView | dist-primitives/src/utils/deg_red.rs:36-60 | What the king unpacks is the secrets plus the sampled mask values. |
| DegreeReduction.OneMaskFits | dist-primitives/src/utils/deg_red.rs:36-60 | For all secrets and every view of the king there is exactly one mask that leads from one to the other. |
| Dmsm.DMsmCorrect | dist-primitives/src/dmsm/mod.rs:21-102 | Whatever the masks and whoever answers, every party holds a share of the full inner product repeated l times. |
| Dmsm.DMsmView | dist-primitives/src/dmsm/mod.rs:27-47 | What the king unpacks is the slotwise sums plus the sampled mask values. |
| Dmsm.TotalOfChunks | dist-primitives/src/dmsm/mod.rs:59-102 | Summing products chunk by chunk is the inner product of the whole vectors. |
| PartialProducts.KingProducts | dist-primitives/src/dpp/mod.rs:56-67 | The king's two in-place loops compute the running products of the quotients. |
| PartialProducts.DppScaled | dist-primitives/src/dpp/mod.rs:28-86 | With a blinding factor s the parties end with the running products divided by s. |
| PartialProducts.BlindingExact | dist-primitives/src/dpp/mod.rs:22-86 | Taking off the factor at the end is harmless exactly when s is one or all products are zero. |
| PartialProducts.DppCorrect | dist-primitives/src/dpp/mod.rs:17-87 | The parties end with sharings of all running products of the fractions, from any large enough set of answers. |
| PartialProducts.DppRecurs | dist-primitives/src/dpp/mod.rs:17-87 | The parties end with sharings of the only vector z with z_0 den_0 = num_0 and z_i den_i = z_(i-1) num_i. |
| Qap.BuildQap | groth16/src/qap.rs:43-90 | The loops fill the columns of the specification, or refuse; what those columns hold is QapSize, QapEntries and InputsInterpolated. |
| Qap.QapSize | groth16/src/qap.rs:50-52 | The columns are refused exactly when the smallest power of two that holds all constraints and inputs exceeds the largest domain; otherwise that is their length. |
| Qap.QapEntries | groth16/src/qap.rs:54-86 | Entry by entry: one value a constraint, in the first column the inputs after them, then zeros; the third column multiplies the first two. |
| Qap.InputsInterpolated | groth16/src/qap.rs:68-72 | At the point after the constraints that belongs to an input the interpolant of the first column takes the input as its value, and that of the second vanishes. |
| TrustedSetup.EvaluateIsProduct | groth16/src/qap.rs:57-66 | Evaluating a sparse constraint is the inner product of its dense row with the assignment, repeated variables added up. |
| Qap.PssColumn | groth16/src/qap.rs:93-157 | Packing bit-reversed entries a stride apart and handing them out gives the layout the transforms start from. |
| Qap.QapAlwaysDivides | groth16/src/qap.rs:43-94 | For all matrices and every assignment, satisfying or not, the columns that are built have an exact quotient. |
| Qap.ThirdMatrixDecides | groth16/src/qap.rs:79-86 | With the third column taken from the third matrix, the quotient would be exact if and only if the assignment satisfies every constraint. |
| Qap.ViolatedStillDivides | groth16/src/qap.rs:79-86 | A concrete violated constraint whose columns still have an exact quotient. |
| ExtWitness.CircomHCorrect | groth16/src/ext_wit.rs:104-181 | On packed columns, whatever the masks, circom_h ends with fresh shares of the single-machine result. |
| ExtWitness.CircomPoints | groth16/src/ext_wit.rs:239-285 | Entry k of the reference is A B - C at the odd power 2k+1 of the root of twice the order, A, B, C interpolating the columns. |
| ExtWitness.UnpackAllChunks | groth16/src/ext_wit.rs:168-181 | Unpacking every entry of the shares gives the vector they were cut from. |
| LibsnarkWitness.LibsnarkHCorrect | groth16/src/ext_wit.rs:14-101 | On packed columns, libsnark_h ends with shares of the single-machine coset quotient. |
| LibsnarkWitness.LibsnarkQuotient | groth16/src/ext_wit.rs:204-237 | The reference returns the polynomial quotient by X^m - 1 if and only if every constraint holds. |
| Groth16Shares.CHolds | groth16/src/prove.rs:195-237 | Products of shares of A, B, r, s combine to a double-degree sharing of sA + rB - rs delta + W + U. |
| Groth16Shares.SharesReconstruct | groth16/src/prove.rs:28-237 | Slot 0 of the unpacked shares of A, B (in G2) and C is the single prover's proof, once the products and B in G1 are shared; B in G1 may be zero when r is. |
| ProofValidity.SingleProofExact | groth16/src/prove.rs:229-235 | For all r and s, A B = alpha beta + S gamma + C delta if and only if delta (W + U) + S gamma = A0 B0 + beta A0 + alpha B0, where A0, B0 are A and B without r, s and offsets: r and s cancel. |
| Groth16Shares.PaddedInnerProduct | groth16/examples/regex.rs:941-957 | Padding the last chunk with zeros does not change the inner product. |
| Groth16Shares.PackedMsm | groth16/examples/regex.rs:941-966 | The multi-scalar multiplication of padded packed vectors shares their inner product. |
| PackedInputs.QueryRepresents | groth16/src/proving_key.rs:126-168 | The deterministically packed chunks of a query, the last one short, share the query padded with zeros. |
| PackedInputs.WitnessRepresents | groth16/examples/regex.rs:941-966 | The packed chunks of a witness share the witness padded with zeros, for all randomness. |
| PackedInputs.PackedForEveryone | groth16/examples/regex.rs:1229-1235 | Packing n copies of a value, of which only the first l + t fit, gives every party the value itself. |
| PackedInputs.ZeroShare | secret-sharing/src/pss.rs:108-140 | Packed in l copies with randomness, every value has randomness that gives a chosen party a share of zero. |
| Streams.GatheringsAligned | mpc-net/src/lib.rs:92-139 | Under every interleaving of sending, taking, answering and reading, the king's k-th gathering on a stream holds the k-th message of every party. |
| Streams.Progress | mpc-net/src/lib.rs:92-179 | As long as every party has a next message some step is possible: nobody waits for ever. |
| Streams.AnswersPaired | mpc-net/src/lib.rs:142-179 | Under every interleaving, what a party has read as its k-th answer is the king's reply to the k-th gathering. |
| Streams.AllRead | mpc-net/src/lib.rs:92-179 | A run that can go no further leaves every party with the replies to all gatherings, in order. |
| ProvingRun.ProductIsDelivered | groth16/src/prove.rs:28-237 | Under every interleaving, the k-th answer a party has read opens to its product of round k. |
| ProvingRun.RunsToTheEnd | groth16/src/prove.rs:28-237 | When all shares of r are zero or none is, every run goes on until each party has read an answer for each of its rounds. |
| ProvingRun.AlignedRound | dist-primitives/src/dmsm/mod.rs:61-102 | A round that all parties take for the same multiplication leaves everyone with their share of its result. |
| ProvingRun.MixedFails | groth16/src/prove.rs:96-98 | If some shares of r are zero and some are not, the parties meet in different rounds and one of them cannot decode what it receives, whatever the left-over bytes decode to. |
| ProvingRun.RunExact | groth16/src/prove.rs:28-237 | The run ends with the single prover's proof if and only if all shares of r are zero or none is; otherwise some party stops with an error. |
| DistributedProof.WitnessYields | dist-primitives/src/dmsm/mod.rs:61-102 | Multiplying a packed query with a packed witness shares their inner product, the last chunks padded. |
| DistributedProof.DistributedIsSingle | groth16/examples/regex.rs:806-938 | From key, witness, constraint columns, masks and randomness: the reconstructed proof is the single prover's, with h from circom_h, if and only if all shares of r are zero or none is. |
| DistributedProof.DriverNeverFails | groth16/examples/regex.rs:1229-1457 | As the driver packs r and s, the reconstructed proof is always the single prover's, for every r, zero included. |
| ProofValidity.RunVerifies | groth16/src/prove.rs:28-237 | The proof a run ends with satisfies the Groth16 equation if and only if the products it is made of satisfy the equation of the key, for every sharing of r and s. |
| ProofValidity.DistributedVerifies | groth16/examples/regex.rs:806-938 | The same for every sharing of r and s; there is a proof if and only if all shares of r are zero or none is. |
| EvaluationWeights.QuotientAtPoint | groth16/src/ext_wit.rs:239-285 | With the weights of the odd powers for tau, what circom_h computes sums up to A(tau) B(tau) - C(tau), C interpolating the products. |
| TrustedSetup.SetUpEquation | groth16/examples/regex.rs:1085-1111 | With keys of one set-up, the equation of the key holds if and only if the interpolants of the third matrix's column and of the product column agree at tau. |
| VerifiedProving.DistributedProofAccepted | groth16/examples/regex.rs:1125-1472 | For all constraints, assignments, trapdoors, masks and sharings: a run that ends gives a proof that the verifier accepts if and only if those interpolants agree at tau, and so for every satisfying assignment. |
| VerifiedProving.DriverProofAccepted | groth16/examples/regex.rs:1229-1472 | As the driver packs r and s, every satisfying assignment gives a proof, and the verifier accepts it. |
| DistributedProof.ZeroShareStops | groth16/src/prove.rs:96-98 | Packed in l copies, every nonzero r has randomness, for any chosen party, with which the run stops with an error. |
| SharingParameters.NewIsValid | secret-sharing/src/pss.rs:61-84 | With proper library roots, both constructors establish what the sharing theorems assume. |
| SharingParameters.NewWithParamsExact | secret-sharing/src/pss.rs:50-84 | The explicit constructor returns if and only if its four assertions hold, and then with these n, l, t, valid, and domains of which the small one is every other point of the large one. |
| PackedSharing.UnpackPack | secret-sharing/src/pss.rs:108-184 | Both ways of unpacking undo packing for all secrets and all randomness. |
| PackedSharing.PackIsSharing | secret-sharing/src/pss.rs:108-140 | A packing is the values on the share domain of a polynomial of degree below l+t through the secrets. |
| PackedSharing.DetPackIsPack | secret-sharing/src/pss.rs:87-105 | Deterministic packing is packing with zero randomness. |
| PackedSharing.Unpack2Secrets | secret-sharing/src/pss.rs:159-184 | unpack2 recovers the secrets of any sharing of double degree from all shares. |
| PackedSharing.LagrangeUnpackSecrets | secret-sharing/src/pss.rs:188-223 | Interpolating from any large enough set of distinct parties in any order gives the same secrets. |
| PackedSharing.RecoverSecrets | secret-sharing/src/pss.rs:228-239 | What is recovered does not depend on who answered. |
| PackedSharing.ProductRecovers | secret-sharing/src/pss.rs:159-239 | Pointwise products of packed shares unpack to slotwise products, from any large enough set of parties. |
| SharedVectors.RecoverRows | dist-primitives/src/utils/pack.rs:24-37 | Transposing what arrived and unpacking each entry gives all rows of secrets. |
| SharedVectors.DealRepresents | dist-primitives/src/utils/pack.rs:10-23 | Packing rows and transposing hands every party its share of each row. |
| InPlace.SynDivInPlace | secret-sharing/src/utils.rs:36-76 | Division in place by X^a - b leaves the quotient coefficients, zero in the top a places. |
| InPlace.SynDivCorrect | secret-sharing/src/utils.rs:27-76 | Quotient times divisor plus remainder is the dividend, at every point. |
| InPlace.SynHorner | secret-sharing/src/utils.rs:46-58 | For a linear divisor the running value is the value of the tail at the root. |
| InPlace.GetZeroRoots | secret-sharing/src/utils.rs:120-136 | The in-place loop builds the polynomial specified by repeated multiplication with X - x. |
| Lagrange.ZeroPolyValue | secret-sharing/src/utils.rs:120-136 | That polynomial is the product of X - x over all roots, at every point. |
| InPlace.LagrangeInterpolate | secret-sharing/src/utils.rs:78-118 | Division by each root, inversion and accumulation in place compute the interpolant without trailing zeros. |
| Lagrange.InterpolantValue | secret-sharing/src/utils.rs:78-118 | The interpolant passes through every point, for distinct points. |
| Lagrange.InterpolantRecovers | secret-sharing/src/utils.rs:78-118 | Interpolating enough values of a polynomial gives back its coefficients. |
| Gao.PartialXgcd | secret-sharing/src/gao.rs:11-45 | The Euclid loop ends, keeps r = s b + t a, and stops below the bound with s of the matching size. |
| Gao.RemainderIsProduct | secret-sharing/src/gao.rs:11-45 | If few enough positions are wrong, the remainder is the cofactor times the message. |
| Gao.QuotientIsMessage | secret-sharing/src/gao.rs:70-83 | Then division by the cofactor is exact and gives the message. |
| Gao.FewErrors | secret-sharing/src/gao.rs:70-83 | An exact division always gives a polynomial that differs from the word in few positions, or in none. |
| Gao.DecodeToMessage | secret-sharing/src/gao.rs:47-86 | For every code length: a short polynomial close enough to the word exists if and only if the outcome is one, and then the outcome is it; with the length of the shares the distance is (n-k)/2 (`DecodableRadius`). |
| Gathering.ClientSendOrKingReceive | mpc-net/src/lib.rs:92-139 | For every order of arrivals and losses: the result is full exactly when everyone arrived, lists message i at index i, and a partial one keeps each message under its sender. |
| Gathering.DecodeGathered | mpc-net/src/ser_net.rs:34-95 | A full answer fails if one message does not decode; a partial one drops such messages and fails only below the threshold. |
| Gathering.DecodableAligned | mpc-net/src/ser_net.rs:57-94 | Shares stay next to their distinct party numbers, and nothing decodable is lost. |
| Gathering.GatherShares | mpc-net/src/ser_net.rs:16-99 | What reaches the protocols is exactly the shares of the listed parties; it does exactly when all or as many as the threshold answered, and the secrets of every product are recovered if and only if at least 2(l+t)-1 did. |
| RecoveryBound.ApartExact | secret-sharing/src/pss.rs:61-84 | No share point is a secret point if and only if the n-th power of the coset offset is not one. |
| RecoveryBound.LookAlike | secret-sharing/src/pss.rs:188-239 | For fewer than 2(l+t)-1 answers: two sharings of product size with the same shares heard and no secret in common. |
| RecoveryBound.RecoversExact | secret-sharing/src/pss.rs:188-239 | Every sharing of product size is recovered from a set of answers if and only if it has at least 2(l+t)-1 of them. |
| RecoveryBound.ThresholdTooLow | dist-primitives/src/dmsm/mod.rs:80-91 | The threshold t that the protocols pass lets through sets of answers from which recovery fails, whatever the parameters. |
| Gathering.ClientReceiveOrKingSend | mpc-net/src/lib.rs:142-179 | Everyone is sent their own message, or the first party whose length differs is named and nobody after it is served. |
| Transcripts.ChallengeEnds | snarkpack/src/transcript.rs:37-52 | The redraw loop returns after some number of turns if and only if the first drawn bytes that are a scalar are not zero, and it returns that scalar. |
| Transcripts.Transcript.ChallengeScalar | snarkpack/src/transcript.rs:32-54 | The loop finds the first drawn bytes that are a scalar; a challenge is a nonzero function of everything logged before it. |
| InnerProducts.InnerFold | snarkpack/src/prover.rs:252-269 | Folding two vectors with inverse scalars adds the two scaled cross terms to their inner product. |
| Gipa.FoldCommitted | snarkpack/src/prover.rs:293-315 | One round: the commitments and inner products of the folded vectors are the old ones merged with the scaled cross terms. |
| Gipa.Compress | snarkpack/src/lib.rs:39-52 | The left half becomes left plus scaled right and the vector shrinks to it. |
| Gipa.CompressScalars | snarkpack/src/prover.rs:301-310 | The scalar vector is folded in place in the same way. |
| Gipa.GipaTippMipp | snarkpack/src/prover.rs:192-351 | For every power of two: the challenges are those of the logged cross terms, the final values are the completely folded vectors and keys, and their commitments equal the accumulated ones. |
| GipaVerifier.ReplayChallenges | snarkpack/src/verifier.rs:369-398 | From the cross terms alone the verifier derives the same challenges and the same log. |
| TranscriptLogs.RoundInLog | snarkpack/src/prover.rs:276-285 | The log of one round determines all eight cross terms and the inverse challenge before it. |
| TranscriptLogs.LogDetermines | snarkpack/src/verifier.rs:369-398 | What prover and verifier leave in the log: from starting logs of one length, equal logs mean equal claims, as many rounds, and equal cross terms from the second round on. |
| TranscriptLogs.CommitmentsInLog | snarkpack/src/verifier.rs:61-64 | The log before the first challenge determines both commitments. |
| TranscriptLogs.KeysInLog | snarkpack/src/verifier.rs:225-231 | The log before the opening point determines the latest challenge and the four final keys. |
| TranscriptLogs.AggregateLogExact | snarkpack/src/verifier.rs:61-231 | Two aggregates leave the same log if and only if they agree on commitments, claims, cross terms but the first round's, and final keys. |
| GipaVerifier.GipaVerifyTippMipp | snarkpack/src/verifier.rs:336-542 | Accumulated values, the folded power of r and the reversed challenges as functions of the proof and the log. |
| GipaVerifier.ReduceAnySplit | snarkpack/src/verifier.rs:456-520 | Every way of splitting the parallel fold and reduce gives the sequential result. |
| GipaVerifier.AllOpsAccumulate | snarkpack/src/verifier.rs:427-530 | Folding all scaled cross terms from the neutral value and merging into the base is the round-by-round accumulation. |
| GipaVerifier.AccumulatedMatchesFinal | snarkpack/src/verifier.rs:270-322 | The accumulated T, U and Z for AB and C equal the products of the final a, b, c, keys and r. |
| ProductForms.PolynomialEvaluationProductForm | snarkpack/src/prover.rs:473-492 | The squaring loop computes the product of 1 + x[j] (zr)^(2^j). |
| ProductForms.PolynomialCoefficients | snarkpack/src/prover.rs:507-523 | The doubling loops build the coefficients specified by recursion on the challenges. |
| ProductForms.CoefficientsEval | snarkpack/src/prover.rs:469-523 | Those coefficients evaluate at every point to the product form. |
| ProductForms.TopCoefficient | snarkpack/src/prover.rs:359-362 | Nonzero challenges keep the top coefficient nonzero, so stripping zeros changes nothing. |
| ProductForms.FoldAllPowers | snarkpack/src/prover.rs:312-315 | Folding powers of q completely leaves the product form at q. |
| ProductForms.FoldAllIsInner | snarkpack/src/prover.rs:312-333 | Any completely folded key is the multiexponentiation of the original key with the doubled coefficients. |
| StructuredKeys.StructuredGenerators | snarkpack/src/srs.rs:290-313 | The running power gives g, gs, gs^2, ... |
| StructuredKeys.SpecializeStructured | snarkpack/src/srs.rs:119-175 | Prover and verifier keys cut from one structured string match: tables, shifted w key, first elements. |
| KzgOpenings.ProveCommitmentV | snarkpack/src/prover.rs:353-377 | The opening of f_v, from doubled coefficients and the product form. |
| KzgOpenings.ProveCommitmentW | snarkpack/src/prover.rs:379-411 | The opening of f_w as it is computed, with the length of the table as the exponent of z. |
| KzgOpenings.SubtractedValue | snarkpack/src/prover.rs:386-402 | The value subtracted in the w opening is z^n times f_w(z). |
| KzgOpenings.SubtractedExact | snarkpack/src/prover.rs:386-402 | It is the value of f_w at z if and only if z^n is one or f_w vanishes at z. |
| SmallField.SubtractedDiffers | snarkpack/src/prover.rs:386-402 | A point of the field of 17 elements where it is not. |
| KzgOpenings.QuotientIgnoresValue | snarkpack/src/prover.rs:436-441 | Whatever value is subtracted, the quotient times X - z is the polynomial minus its true value at z. |
| KzgOpenings.OpeningValue | snarkpack/src/prover.rs:413-467 | The opening over powers of x, times x - z, is the difference of the two values. |
| KzgOpenings.KzgCheckVMeaning | snarkpack/src/verifier.rs:602-628 | The randomised check passes if and only if g (C - y h) = (vk - x g) pi. |
| KzgOpenings.KzgCheckWMeaning | snarkpack/src/verifier.rs:685-711 | The same for the other group. |
| PairingChecks.RandTwo | snarkpack/src/pairing_check.rs:99-137 | A randomised check is satisfied if and only if its equation holds, for every nonzero coefficient. |
| PairingChecks.PairingCheck.Merge | snarkpack/src/pairing_check.rs:141-146 | Merging adds both sides and the counters. |
| PairingChecks.MergeAll | snarkpack/src/verifier.rs:75-79 | The accumulating loop verifies if and only if the merged equation holds and at most one check is plain. |
| PairingChecks.TotalAnyOrder | snarkpack/src/verifier.rs:67-80 | The merged check does not depend on the order in which checks arrive. |
| Aggregation.StructuredScalarPower | snarkpack/src/lib.rs:28-34 | The powers 1, s, s^2, ..., one element even for none. |
| Aggregation.ProveTippMipp | snarkpack/src/prover.rs:133-186 | Recursion and openings; fails exactly when a table has the wrong length. |
| Aggregation.AggregateProofs | snarkpack/src/prover.rs:33-125 | The three refusals, and otherwise an honest aggregate as specified. |
| AggregateVerifier.VerifyTippMipp | snarkpack/src/verifier.rs:200-324 | The nine randomised checks and a failing one if the last exponentiation is off, and the log with the final keys; what the checks mean is ArgumentChecksMeaning. |
| VerifierMeaning.AccumulatedIs | snarkpack/src/verifier.rs:427-530 | Each of the six accumulated values is the claim plus the left terms weighted by the challenges plus the right terms weighted by their inverses. |
| VerifierMeaning.ArgumentChecksMeaning | snarkpack/src/verifier.rs:200-324 | For every aggregate, honest or not, and all coins: all checks are satisfied if and only if ten equations in the field hold, four openings of the final keys and six of the final values. |
| VerifierMeaning.AcceptedExactly | snarkpack/src/verifier.rs:38-195 | Accepted for all coins if and only if the lengths fit, the first challenge is not one, the ten equations hold, and the claims meet the combination of the Groth16 equations. |
| VerifierMeaning.VerdictReasons | snarkpack/src/verifier.rs:45-110 | For any coins: a malformed key is reported exactly when the proof parses and some input has the wrong length, and the verifier panics exactly when all lengths fit and the first challenge is one. |
| VerifierMeaning.HonestAcceptedExactly | snarkpack/src/verifier.rs:38-195 | An honest aggregate of any proofs, valid or not, is accepted for all coins if and only if the first challenge is not one and the defects of the proofs weighted by its powers cancel. |
| AggregateVerifier.CombineInputs | snarkpack/src/verifier.rs:161-170 | Column by column, the random combination of the public inputs. |
| AggregateVerifier.VerifyAggregateProof | snarkpack/src/verifier.rs:38-195 | The verdict with all refusals, for every schedule of the concurrent checks. |
| Groth16Equation.CombinedInner | snarkpack/src/verifier.rs:144-174 | Combining the inputs first gives the same as combining their inner products with the verifying key. |
| Groth16Equation.SumOfPowers | snarkpack/src/verifier.rs:103-108 | The closed form of the geometric sum, for r other than one. |
| Groth16Equation.GrothCheckMeaning | snarkpack/src/verifier.rs:98-187 | For any claims, the plain check is satisfied if and only if the claims meet the combination of the Groth16 equations by powers of r. |
| Groth16Equation.DefectsCancel | snarkpack/src/verifier.rs:98-187 | For the claims of any proofs, that is the case if and only if the weighted differences between the two sides of their equations add up to zero. |
| Groth16Equation.GrothCheckHolds | snarkpack/src/verifier.rs:98-187 | Valid Groth16 proofs make the aggregated equation hold, for every r other than one. |
| AggregateCompleteness.CommitmentUnchanged | snarkpack/src/prover.rs:113-116 | Rescaling B by r and w by the inverse leaves the commitment as it was. |
| AggregateCompleteness.FoldedKeys | snarkpack/src/verifier.rs:547-683 | The final keys and power of r in product form. |
| AggregateCompleteness.OpeningWHolds | snarkpack/src/verifier.rs:631-683 | The w opening passes its check although another value was subtracted. |
| AggregateCompleteness.TippMippChecksHold | snarkpack/src/verifier.rs:200-324 | Every check of the recursive argument is satisfied and randomised. |
| AggregateCompleteness.AggregationComplete | snarkpack/src/verifier.rs:38-195 | For all valid proofs, coins and transcripts: accepted, all checks satisfied, exactly one plain; the verifier panics if and only if the first challenge is one. |
| AggregateCompleteness.AggregateThenVerify | snarkpack/src/prover.rs:33-125 | Set-up, aggregation and verification end to end under any schedule. |
| CharRanges.OptimizeCharRanges | regex/zk-regex-compiler-v2/packages/compiler/src/circom.rs:80-116 | The ranges are exactly the maximal runs whose ends are at least 16 apart; the other bytes stay single. |
| CircuitCompiler.Compiler.AddRangeCheck | regex/zk-regex-compiler-v2/packages/compiler/src/circom.rs:132-166 | Reused or new, the added source stands for the bytes of the range. |
| CircuitCompiler.Compiler.AddEqCheck | regex/zk-regex-compiler-v2/packages/compiler/src/circom.rs:183-200 | Reused or new, the index is that of the gate for this byte. |
| CircuitCompiler.Compiler.AddStateTransition | regex/zk-regex-compiler-v2/packages/compiler/src/circom.rs:217-273 | The emitted gate is on exactly when the previous state is and the byte is on the edge; edges from state 0 are noted. |
| CircuitCompiler.Compiler.AddStateUpdate | regex/zk-regex-compiler-v2/packages/compiler/src/circom.rs:276-344 | The state or its temporary copy is driven once, by the disjunction of the gates. |
| CircuitGenerator.CheckBytes | regex/zk-regex-compiler-v2/packages/compiler/src/circom.rs:484-507 | The checks of an edge together are on exactly for its nonzero bytes. |
| CircuitGenerator.CompileState | regex/zk-regex-compiler-v2/packages/compiler/src/circom.rs:476-533 | After all edges of a state it is on exactly when an active state leads to it; state 0's edge has one gate. |
| CircuitSteps.GenerateStateTransitionLogic | regex/zk-regex-compiler-v2/packages/compiler/src/circom.rs:444-542 | Every signal is driven once before it is read, and every next state has the prescribed value for all bytes and all state bits. |
| CircuitRuns.BuildReverseGraph | regex/zk-regex-compiler-v2/packages/compiler/src/circom.rs:31-60 | The reversed graph and the accepting states, or an error when there are none. |
| CircuitRuns.GenerateAcceptLogic | regex/zk-regex-compiler-v2/packages/compiler/src/circom.rs:666-730 | One state or a disjunction: accepted exactly when some accepting state is on. |
| CircuitRuns.GenCircom | regex/zk-regex-compiler-v2/packages/compiler/src/circom.rs:747-778 | Compiling a closed deterministic graph gives a circuit whose step and judge follow it. |
| CircuitRuns.Simulation | regex/zk-regex-compiler-v2/packages/compiler/src/circom.rs:444-542 | After every input, state 0 and exactly the scanner's state are on. |
| CircuitTheorems.AtMostOneActive | regex/zk-regex-compiler-v2/packages/compiler/src/circom.rs:444-542 | At most one state other than 0 is ever on, and it is the scanner's. |
| CircuitRuns.DetectorFires | regex/zk-regex-compiler-v2/packages/compiler/src/circom.rs:406-424 | The state-change detector of a step is on exactly when the scanner moves to a state other than 0. |
| Constraints.ConstraintsDetermine | regex/zk-regex-compiler-v2/packages/compiler/src/circom.rs:444-542 | Every witness that satisfies the emitted lines carries the evaluated values. |
| Constraints.EvalSatisfies | regex/zk-regex-compiler-v2/packages/compiler/src/circom.rs:444-542 | A witness exists for every byte and all state bits. |
| Constraints.StepForced | regex/zk-regex-compiler-v2/packages/compiler/src/circom.rs:444-542 | The constraints of a step turn on exactly the state the scanner moves to. |
| CircuitTheorems.OutPlain | regex/zk-regex-compiler-v2/packages/compiler/src/circom.rs:708-727 | Without an end anchor the output is one exactly when the scanner is at an accepting state at some point. |
| CircuitTheorems.OutExact | regex/zk-regex-compiler-v2/packages/compiler/src/circom.rs:356-404 | The output is one exactly when some match begins where the scanner starts afresh: no active state, or one without a move on the first byte. |
| CircuitTheorems.FindsEveryMatch | regex/zk-regex-compiler-v2/packages/compiler/src/circom.rs:356-404 | If no byte that leads on from state 0 leads on from another state, the output is one exactly when some stretch of the input is accepted. |
| CircuitTheorems.OutFindsMatch | regex/zk-regex-compiler-v2/packages/compiler/src/circom.rs:708-727 | An output of one gives a stretch of the input that is in the language. |
| CircuitTheorems.ScannerMissesMatch | regex/zk-regex-compiler-v2/packages/compiler/src/circom.rs:356-404 | The converse fails: a concrete graph and message with a match that is not found. |
| CircuitTheorems.OutAnchored | regex/zk-regex-compiler-v2/packages/compiler/src/circom.rs:470-474 | With an end anchor: one exactly when a byte is zero and the scanner, or state 0, accepts after as many bytes as there are nonzero ones. |
| CircuitTheorems.NoPaddingNoMatch | regex/zk-regex-compiler-v2/packages/compiler/src/circom.rs:713-724 | A message without a zero byte is never accepted by an anchored circuit. |
| CircuitTheorems.CaretExact | regex/zk-regex-compiler-v2/packages/compiler/src/circom.rs:678-726 | Anchored at both ends and padded with a zero, the circuit decides the language. |
| CircuitTheorems.CaretScan | regex/zk-regex-compiler-v2/packages/compiler/src/regex.rs:595-644 | When state 0 leaves only on 255 the scanner never restarts and is where the automaton is. |
| CaretGraphs.CaretJoined | regex/zk-regex-compiler-v2/packages/compiler/src/regex.rs:595-644 | Joined with the graph of the lone start anchor, any closed deterministic graph accepts 255 followed by a word if and only if it accepted the word. |
| CaretGraphs.CaretCompilable | regex/zk-regex-compiler-v2/packages/compiler/src/regex.rs:613-644 | The join with the start anchor has a well-formed circuit if and only if every edge of the graph has a nonzero byte. |
| CaretGraphs.AnchoredDecides | regex/zk-regex-compiler-v2/packages/compiler/src/regex.rs:913-979 | Every circuit made with the end anchor from that join has output one on a padded word if and only if the graph accepts the word. |
| CaretGraphs.CompileAnchored | regex/zk-regex-compiler-v2/packages/compiler/src/regex.rs:897-979 | Joining and compiling gives such a circuit, or an error exactly when the graph accepts nowhere. |
| CaretGraphs.ModifyGraphForCaret | regex/zk-regex-compiler-v2/packages/compiler/src/regex.rs:545-583 | The start stops accepting and leads on 255 to the first other accepting state, or the error says which of the two states is missing. |
| CaretGraphs.WithCaretLanguage | regex/zk-regex-compiler-v2/packages/compiler/src/regex.rs:545-583 | For words with 255 at the front or nowhere, as circuits read them: accepted are exactly the words the part accepted beyond its start, and 255 followed by what it accepts beyond its start from that accepting state. |
| DfaConcat.MergeEdges | regex/zk-regex-compiler-v2/packages/compiler/src/regex.rs:848-857 | Edge by edge, the source's edges replace and their bytes leave all other edges; a byte on several source edges stays on the last. |
| DfaConcat.AddDfaInPlace | regex/zk-regex-compiler-v2/packages/compiler/src/regex.rs:897-920 | Accepting states take the start's edges and acceptance; the other states follow. |
| DfaConcat.JoinedWellFormed | regex/zk-regex-compiler-v2/packages/compiler/src/regex.rs:662-691 | After renaming and joining, names are positions and the graph is closed and deterministic. |
| DfaConcat.JoinedSound | regex/zk-regex-compiler-v2/packages/compiler/src/regex.rs:897-920 | Every word of the joined graph is a word of the first, none of whose steps the merge removes, followed by one of the second. |
| DfaConcat.JoinedExact | regex/zk-regex-compiler-v2/packages/compiler/src/regex.rs:897-920 | The joined graph accepts a word if and only if it splits into a word of each graph such that no step of the first, out of an accepting state, uses a byte of the second start. |
| DfaSegments.JoinedSegments | regex/zk-regex-compiler-v2/packages/compiler/src/regex.rs:897-920 | For every pair of graphs, with or without edges back to the second start: accepted are exactly the words that alternate between stretches of kept edges in the first graph and excursions into the second, and end in an accepting state of either kind. |
| DfaSegments.PathSegments | regex/zk-regex-compiler-v2/packages/compiler/src/regex.rs:662-691 | Every path of the joined graph from the start is such an alternation, each excursion that reaches the second start going on from the last state of the first graph. |
| DfaConcat.JoinedConcat | regex/zk-regex-compiler-v2/packages/compiler/src/regex.rs:897-920 | If the merge removes no edge, the joined graph accepts exactly the concatenation. |
| DfaConcat.JoinedCompilable | regex/zk-regex-compiler-v2/packages/compiler/src/regex.rs:848-857 | The joined graph still has a well-formed circuit if and only if the merge leaves a nonzero byte on every edge it keeps and every edge back to the second start has one. |
| DfaConcat.ShadowedEdge | regex/zk-regex-compiler-v2/packages/compiler/src/regex.rs:848-857 | Two concrete graphs whose join has an edge without bytes. |
| DfaConcat.LoopIsMisdirected | regex/zk-regex-compiler-v2/packages/compiler/src/regex.rs:662-691 | Two concrete graphs, the second a loop on its start: a word of the concatenation is lost and a word outside it is accepted. |
| DfaRenaming.Traverse | regex/zk-regex-compiler-v2/packages/compiler/src/regex.rs:274-287 | The traversal ends, takes only reachable states, each once, and is closed; every state but the start is led to from an earlier one, and states come in the order of the first edges that lead to them. |
| DfaRenaming.SortAndRenameStates | regex/zk-regex-compiler-v2/packages/compiler/src/regex.rs:274-312 | The result is that traversal with names and targets replaced by positions. |
| BreadthFirstOrder.TraversalIsUnique | regex/zk-regex-compiler-v2/packages/compiler/src/regex.rs:274-287 | Only one order of the states is closed, reachable from the start and in the order of first edges, so the new names are fixed. |
| BreadthFirstOrder.LevelIsShortest | regex/zk-regex-compiler-v2/packages/compiler/src/regex.rs:274-287 | The number of first edges back to the start is the length of the shortest path to a state. |
| BreadthFirstOrder.DistancesAscend | regex/zk-regex-compiler-v2/packages/compiler/src/regex.rs:274-287 | A state with a smaller new name is not farther from the start. |
| DfaRenaming.RenamingIsBijection | regex/zk-regex-compiler-v2/packages/compiler/src/regex.rs:289-294 | New names are a bijection between the reachable states and 0 .. k-1, the start 0. |
| DfaRenaming.RenamingKeepsLanguage | regex/zk-regex-compiler-v2/packages/compiler/src/regex.rs:296-312 | A sequence of labels is accepted before exactly when it is accepted after. |
| DfaGraphs.ScanFindsFactor | regex/zk-regex-compiler-v2/packages/compiler/src/circom.rs:356-404 | An active state was reached from 0 along the bytes read last. |
| Fields.ModularFieldIsField | secret-sharing/src/pss.rs:19-37 | The integers modulo any prime satisfy all laws that the proofs use. |

## Left out

- CircuitRuns.GenCircom: requires a nonzero byte on every edge into a state other than 0, because otherwise the program emits a gate with an unconnected input, whose value is undefined; `DfaConcat.JoinedCompilable` says exactly when joining causes this.
- CircuitSteps.GenerateStateTransitionLogic: the same requirement on edges as `CircuitRuns.GenCircom`.
- PackedSharing.UnpackPack: pack and unpack are modelled on values; that one buffer is resized, transformed twice and cut is not captured.
- DegreeReduction.DegRedCorrect: the king's loop over the entries is modelled as a map.
- DistributedFft.DistributedIsDft: the packing factor is a power of two, as the loops of the program need.
- DfaConcat.JoinedExact: for edges back to the second start it needs the last state of the first automaton to act as that start (`Returns`); without this the language is not a concatenation (`DfaConcat.LoopIsMisdirected`), and `DfaSegments.JoinedSegments` says for all graphs what it is instead.
- CircuitTheorems.FindsEveryMatch: the condition on the graph is sufficient; the exact condition is that of `CircuitTheorems.OutExact` for each message.
- ProvingRun.RunExact: nothing is lost or late on the streams; a message that arrives after the timeout of its round would shift the rounds as a missing party does. Single rounds with missing parties are covered by `Dmsm.DMsmCorrect`.
- Gao.DecodeToMessage: the sum of code length and dimension is at least two, because otherwise the program divides by the zero polynomial.
- Gipa.GipaTippMipp: vectors of a common length that is a power of two, which its only caller establishes.
- Transcripts.Transcript.ChallengeScalar: the bytes are assumed to end the redraw loop (`Transcripts.ChallengeEnds` says when they do); its counter of redraws, which is overwritten by the next bytes, and the overflow of that counter are not modelled.
- TrustedSetup.SetUpEquation: the set-up is code of a library that is not part of this model; its keys are stated, not derived. Generators other than one would only rescale exponents.
- VerifierMeaning.AcceptedExactly: says when an aggregate is accepted for all coins; for single coins the equations of the checks may cancel.
- Privacy and probability: no statement about how likely or how hard anything is.
- Transport, timeouts, multiplexing, byte counters and serialization formats of `mpc-net`.
- Parsing of the automaton text, substring and reveal logic, Halo2 tables, WASM bindings, Solidity export, logging, benchmarks and scripts.
- Curve arithmetic, pairings, Poseidon and witness generation of the circuit language: code of libraries.
- Parallel maps within one machine are maps.
