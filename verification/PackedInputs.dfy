/** PackedInputs: how keys, witnesses and blinding values reach the parties. */
module PackedInputs {
  import opened ScalarField
  import opened Polynomials
  import opened Indices
  import opened Fourier
  import opened RootsOfUnity
  import opened Domains
  import opened Lagrange
  import opened PackedSharing
  import opened SharedVectors
  import opened DegreeReduction
  import opened MpcFft
  import opened Dmsm
  import opened Groth16Shares
  import opened RecoveryBound

  // ----- chunks, the last of which may be short

  function ChunksOf(v: Vec, l: nat): (r: seq<Vec>)
    requires 0 < l
    ensures forall j :: 0 <= j < |r| ==> |r[j]| <= l
  {
    if v == [] then [] else if |v| <= l then [v] else [v[..l]] + ChunksOf(v[l..], l)
  }

  function PadAll(chunks: seq<Vec>, l: nat): (r: seq<Vec>)
    ensures |r| == |chunks| && forall j :: 0 <= j < |r| ==> |r[j]| == l
  {
    seq(|chunks|, j requires 0 <= j < |chunks| => Resize(chunks[j], l))
  }

  lemma ChunksHead(v: Vec, q: nat, l: nat)
    requires 0 < q && |v| == q * l
    ensures 0 <= l <= |v| && |v[l..]| == (q - 1) * l
    ensures Chunks(v, q, l) == [v[..l]] + Chunks(v[l..], q - 1, l)
  {
    assert q * l == (q - 1) * l + l;
    var all, rest := Chunks(v, q, l), Chunks(v[l..], q - 1, l);
    forall e | 0 <= e < q
      ensures all[e] == ([v[..l]] + rest)[e]
    {
      BlockFits(q, l, e);
      if e > 0 {
        BlockFits(q - 1, l, e - 1);
        assert e * l == (e - 1) * l + l;
      }
    }
  }

  /** Padding the chunks is cutting up the padded vector. */
  lemma {:induction false} ChunksOfPadded(v: Vec, l: nat)
    requires 0 < l
    ensures var q := |ChunksOf(v, l)|;
      |v| <= q * l && PadAll(ChunksOf(v, l), l) == Chunks(Resize(v, q * l), q, l)
    decreases |v|
  {
    hide Chunks, PadAll;
    if v == [] {
      NothingToCut(v, l);
    } else {
      var head: Vec, rest: Vec := if |v| <= l then v else v[..l], if |v| <= l then [] else v[l..];
      assert ChunksOf(v, l) == [head] + ChunksOf(rest, l);
      var q := |ChunksOf(rest, l)|;
      ChunksOfPadded(rest, l);
      PadOneMore(v, l, head, rest, q);
      PadHead(head, ChunksOf(rest, l), l);
    }
  }

  lemma NothingToCut(v: Vec, l: nat)
    requires v == []
    ensures PadAll([], l) == Chunks(Resize(v, 0 * l), 0, l)
  {
  }

  lemma PadHead(head: Vec, chunks: seq<Vec>, l: nat)
    ensures PadAll([head] + chunks, l) == [Resize(head, l)] + PadAll(chunks, l)
  {
  }

  lemma PadOneMore(v: Vec, l: nat, head: Vec, rest: Vec, q: nat)
    requires 0 < l && (if |v| <= l then head == v && rest == [] else head == v[..l] && rest == v[l..])
    requires |rest| <= q * l
    ensures |v| <= (q + 1) * l
    ensures Chunks(Resize(v, (q + 1) * l), q + 1, l) == [Resize(head, l)] + Chunks(Resize(rest, q * l), q, l)
  {
    hide Chunks;
    assert (q + 1) * l == q * l + l;
    var w := Resize(v, (q + 1) * l);
    ChunksHead(w, q + 1, l);
    assert w[..l] == Resize(head, l);
    assert w[l..] == Resize(rest, q * l);
  }

  // ----- shares of keys and witnesses

  /** Party by party, the deterministic packing of every chunk. */
  function QueryShares(pp: Params, v: Vec): (r: seq<Vec>)
    requires pp.Valid() && 0 < pp.l
    ensures Shaped(pp, r, |ChunksOf(v, pp.l)|)
  {
    var chunks := ChunksOf(v, pp.l);
    seq(pp.n, i requires 0 <= i < pp.n =>
      seq(|chunks|, j requires 0 <= j < |chunks| => DetPack(pp, chunks[j])[i]))
  }

  /** The same with randomness, after padding the last chunk. */
  function WitnessShares(pp: Params, v: Vec, rands: seq<Vec>): (r: seq<Vec>)
    requires pp.Valid() && 0 < pp.l && |rands| == |ChunksOf(v, pp.l)|
    ensures Shaped(pp, r, |ChunksOf(v, pp.l)|)
  {
    Deal(pp, PadAll(ChunksOf(v, pp.l), pp.l), rands)
  }

  lemma DetPackShort(pp: Params, c: Vec)
    requires |c| <= pp.l
    ensures DetPack(pp, c) == Pack(pp, Resize(c, pp.l), Zeros(pp.t))
  {
    hide Fft, Ifft;
    assert Resize(c, pp.l) + Zeros(pp.t) == Resize(c, pp.l + pp.t);
  }

  lemma SameShares(pp: Params, a: seq<Vec>, b: seq<Vec>, count: nat)
    requires Shaped(pp, a, count) && Shaped(pp, b, count)
    requires forall i, j :: 0 <= i < pp.n && 0 <= j < count ==> a[i][j] == b[i][j]
    ensures a == b
  {
    forall i | 0 <= i < pp.n
      ensures a[i] == b[i]
    {
    }
  }

  lemma QueryRepresents(pp: Params, v: Vec)
    requires pp.Valid() && 0 < pp.l
    ensures var q := |ChunksOf(v, pp.l)|;
      |v| <= q * pp.l && Represents(pp, QueryShares(pp, v), Chunks(Resize(v, q * pp.l), q, pp.l), pp.l + pp.t)
  {
    hide Pack, DetPack, Represents;
    var chunks := ChunksOf(v, pp.l);
    var rands := seq(|chunks|, _ => Zeros(pp.t));
    forall i, j | 0 <= i < pp.n && 0 <= j < |chunks|
      ensures QueryShares(pp, v)[i][j] == Deal(pp, PadAll(chunks, pp.l), rands)[i][j]
    {
      DetPackShort(pp, chunks[j]);
    }
    SameShares(pp, QueryShares(pp, v), Deal(pp, PadAll(chunks, pp.l), rands), |chunks|);
    ChunksOfPadded(v, pp.l);
    DealRepresents(pp, PadAll(chunks, pp.l), rands);
  }

  lemma WitnessRepresents(pp: Params, v: Vec, rands: seq<Vec>)
    requires pp.Valid() && 0 < pp.l && Randomness(pp, rands, |ChunksOf(v, pp.l)|)
    ensures var q := |ChunksOf(v, pp.l)|;
      |v| <= q * pp.l && Represents(pp, WitnessShares(pp, v, rands), Chunks(Resize(v, q * pp.l), q, pp.l), pp.l + pp.t)
  {
    hide Represents, Deal;
    ChunksOfPadded(v, pp.l);
    DealRepresents(pp, PadAll(ChunksOf(v, pp.l), pp.l), rands);
  }

  // ----- shares of the blinding values

  /** The shares of one value packed as so many copies of itself. */
  function Packed(pp: Params, v: F, copies: nat, rand: Vec): (r: seq<Vec>)
    requires pp.Valid()
    ensures Shaped(pp, r, 1)
  {
    Single(Pack(pp, Repeat(v, copies), rand))
  }

  lemma PackedHolds(pp: Params, v: F, rand: Vec)
    requires pp.Valid() && |rand| == pp.t
    ensures Holds(pp, Packed(pp, v, pp.l, rand), v, pp.l + pp.t)
  {
    var rows := [Repeat(v, pp.l)];
    DealRepresents(pp, rows, [rand]);
    SameShares(pp, Deal(pp, rows, [rand]), Packed(pp, v, pp.l, rand), 1);
  }

  /**
   * The driver packs as many copies as there are parties. Only the first l + t of them fit, which
   * leaves no randomness: every share is the value itself.
   */
  lemma PackedForEveryone(pp: Params, v: F, rand: Vec)
    requires pp.Valid()
    ensures Packed(pp, v, pp.n, rand) == Constant(pp, v)
  {
    hide Fft, Ifft;
    var size := pp.l + pp.t;
    var all, copies := Repeat(v, pp.n) + rand, Repeat(v, size);
    assert Resize(all, size) == Resize(copies, size) == copies;
    IfftResizes(pp.secret, all);
    ConstantPacks(pp, v);
  }

  lemma IfftResizes(d: Domain, v: Vec)
    ensures Ifft(d, v) == Ifft(d, Resize(v, d.size))
  {
    ResizeSame(Resize(v, d.size));
  }

  lemma ConstantPacks(pp: Params, v: F)
    requires pp.Valid()
    ensures Fft(pp.share, Ifft(pp.secret, Repeat(v, pp.l + pp.t))) == Repeat(v, pp.n)
  {
    var size := pp.l + pp.t;
    var p := Resize([v], size);
    ResizeSame(p);
    forall j | 0 <= j < size
      ensures Fft(pp.secret, p)[j] == v
    {
      EvalResize([v], size, pp.secret.Element(j));
      EvalConstant(v, pp.secret.Element(j));
    }
    assert Fft(pp.secret, p) == Repeat(v, size);
    IfftFft(pp.secret, p);
    forall i | 0 <= i < pp.n
      ensures Fft(pp.share, p)[i] == v
    {
      EvalResize(p, pp.n, pp.share.Element(i));
      EvalResize([v], size, pp.share.Element(i));
      EvalConstant(v, pp.share.Element(i));
    }
  }

  // ----- a share that is zero

  /** A polynomial through l equal secrets that vanishes at the share point of party i. */
  lemma VanishingSharing(pp: Params, v: F, i: nat) returns (p: Vec)
    requires pp.Valid() && CosetApart(pp) && i < pp.n
    ensures |p| == pp.l + 1 && Eval(p, pp.share.Element(i)) == ZERO
    ensures forall j :: 0 <= j < pp.l ==> Eval(p, pp.secret.Element(j)) == v
  {
    hide Eval, ZeroPoly, RootProduct;
    var x := pp.share.Element(i);
    var ys := seq(pp.l, j requires 0 <= j < pp.l => pp.secret.Element(j));
    var z := ZeroPoly(ys);
    ApartExact(pp);
    ZeroPolyValue(ys, x);
    RootProductZero(ys, x);
    var zx := Eval(z, x);
    var c := Mul(Neg(v), Inv(zx));
    p := PAdd([v], VScale(c, z));
    EvalPAdd([v], VScale(c, z), x);
    EvalScale(c, z, x);
    EvalConstant(v, x);
    MulAssoc(Neg(v), Inv(zx), zx);
    MulInv(zx);
    MulOne(Neg(v));
    AddNeg(v);
    forall j | 0 <= j < pp.l
      ensures Eval(p, pp.secret.Element(j)) == v
    {
      var y := pp.secret.Element(j);
      assert ys[j] == y;
      ZeroPolyValue(ys, y);
      RootProductZero(ys, y);
      EvalPAdd([v], VScale(c, z), y);
      EvalScale(c, z, y);
      EvalConstant(v, y);
      MulZero(c);
      AddZero(v);
    }
  }

  /** Packed with randomness as documented, any value can leave any party with a share of zero. */
  lemma ZeroShare(pp: Params, v: F, i: nat) returns (rand: Vec)
    requires pp.Valid() && CosetApart(pp) && 0 < pp.t && i < pp.n
    ensures |rand| == pp.t && Packed(pp, v, pp.l, rand)[i][0] == ZERO
  {
    hide Eval, Ifft;
    var p := VanishingSharing(pp, v, i);
    var size := pp.l + pp.t;
    var q := Resize(p, size);
    ResizeSame(q);
    var values := Fft(pp.secret, q);
    rand := values[pp.l..];
    forall j | 0 <= j < pp.l
      ensures values[j] == v
    {
      EvalResize(p, size, pp.secret.Element(j));
    }
    assert values == Repeat(v, pp.l) + rand;
    IfftFft(pp.secret, q);
    PackIsSharing(pp, Repeat(v, pp.l), rand);
    EvalResize(p, size, pp.share.Element(i));
  }

  /** Only zero has a sharing whose shares are all zero. */
  lemma AllZeroShares(pp: Params, r: seq<Vec>, v: F)
    requires pp.Valid() && 0 < pp.l && Holds(pp, r, v, pp.l + pp.t)
    requires Shaped(pp, r, 1) && forall i :: 0 <= i < pp.n ==> r[i][0] == ZERO
    ensures v == ZERO
  {
    hide Unpack2;
    HoldsWeaken(pp, r, v, pp.ProductSize());
    SlotZero(pp, r, v);
    forall i | 0 <= i < pp.n
      ensures Column(r, 0)[i] == Shares(pp, [])[i]
    {
      EvalZero([], pp.share.Element(i));
    }
    assert Column(r, 0) == Shares(pp, []);
    Unpack2Secrets(pp, []);
    EvalZero([], pp.secret.Element(0));
  }
}
