/**
 * MpcFft: the distributed transform on packed shares, with masks.
 *
 * The parties' rows of secrets hold a vector y of q * l values with stride q: slot j of entry e is
 * y[j * q + e]. A transform takes y, read as bit-reversed coefficients, to its values.
 */
module MpcFft {
  import opened ScalarField
  import opened Polynomials
  import opened Indices
  import opened Fourier
  import opened BitReversal
  import opened LocalLevels
  import opened KingLevels
  import opened DistributedFft
  import opened RootsOfUnity
  import opened Domains
  import opened PackedSharing
  import opened SharedVectors
  import opened Linearity
  import opened DegreeReduction

  // ----- layouts

  function StridedRow(y: Vec, q: nat, l: nat, e: nat): (r: Vec)
    requires |y| == l * q && e < q
    ensures |r| == l
  {
    seq(l, j requires 0 <= j < l => (AtBound(j, l, q, e); y[At(j, q, e)]))
  }

  function StridedRows(y: Vec, q: nat, l: nat): (r: seq<Vec>)
    requires |y| == l * q
    ensures |r| == q && forall e :: 0 <= e < q ==> |r[e]| == l
  {
    seq(q, e requires 0 <= e < q => StridedRow(y, q, l, e))
  }

  function Chunks(v: Vec, q: nat, l: nat): (r: seq<Vec>)
    requires |v| == q * l
    ensures |r| == q && forall e :: 0 <= e < q ==> |r[e]| == l
  {
    seq(q, e requires 0 <= e < q => BlockAt(v, q, l, e))
  }

  /** How the king packs its answer: in order, or laid out for the next transform. */
  function Layout(v: Vec, q: nat, l: nat, rearrange: bool): (r: seq<Vec>)
    requires |v| == q * l == l * q && IsPow2(|v|)
    ensures |r| == q && forall e :: 0 <= e < q ==> |r[e]| == l
  {
    if rearrange then StridedRows(BitReversed(v), q, l) else Chunks(v, q, l)
  }

  function Scaled(g: F, v: Vec): (r: Vec)
    ensures |r| == |v|
  {
    if g == ONE then v else DistributePowers(v, g)
  }

  // ----- the protocol

  /** Sizes: q entries of l slots, and the root the transform runs on. */
  datatype Size = Size(q: nat, l: nat, gen: F) {
    predicate Valid() {
      IsPow2(q) && IsPow2(l) && q * l == l * q && IsPow2(q * l) && IsRoot(gen, q * l)
    }
  }

  function LocalStep(sh: seq<Vec>, v: F, q: nat): (r: seq<Vec>)
    requires IsPow2(q) && forall i :: 0 <= i < |sh| ==> |sh[i]| == q
    ensures |r| == |sh| && forall i :: 0 <= i < |r| ==> |r[i]| == q
  {
    seq(|sh|, i requires 0 <= i < |sh| => BlockTransform(sh[i], v))
  }

  /** The king's transform of the rows it recovered. */
  function Finish(rows: seq<Vec>, s: Size, g: F): (r: Vec)
    requires s.Valid() && |rows| == s.q && forall e :: 0 <= e < s.q ==> |rows[e]| == s.l
    ensures |r| == s.q * s.l
  {
    Scaled(g, KingTransform(Concat(rows, s.l), s.q, s.l, s.gen))
  }

  /** Masks for one transform: what the king's transform makes of the mask is taken off the answer. */
  function SampleFftMasks(pp: Params, s: Size, rearrange: bool, g: F, values: Vec,
                          inRands: seq<Vec>, outRands: seq<Vec>): (m: Masks)
    requires pp.share.size == pp.n && s.Valid() && |values| == s.q * s.l && |inRands| == |outRands| == s.q
  {
    var negated := VNeg(Scaled(g, KingTransform(values, s.q, s.l, s.gen)));
    Masks(Deal(pp, Chunks(values, s.q, s.l), inRands), Deal(pp, Layout(negated, s.q, s.l, rearrange), outRands))
  }

  function DFft(pp: Params, sh: seq<Vec>, s: Size, masks: Masks, rearrange: bool, g: F,
                parties: seq<nat>, rands: seq<Vec>): (r: seq<Vec>)
    requires pp.Valid() && s.Valid() && s.l == pp.l && Shaped(pp, sh, s.q)
    requires Shaped(pp, masks.input, s.q) && Shaped(pp, masks.output, s.q)
    requires Heard(pp, parties) && |rands| == s.q
    ensures Shaped(pp, r, s.q)
  {
    var sent := Masked(LocalStep(sh, Pow(s.gen, s.l), s.q), masks);
    var rows := Recover(pp, Received(sent, parties), parties, s.q);
    MapAdd(Deal(pp, Layout(Finish(rows, s, g), s.q, s.l, rearrange), rands), masks.output)
  }

  /** The inverse transform: the inverse root, and a division by the size before anything else. */
  function DIfft(pp: Params, sh: seq<Vec>, s: Size, masks: Masks, rearrange: bool, g: F,
                 parties: seq<nat>, rands: seq<Vec>): (r: seq<Vec>)
    requires pp.Valid() && s.Valid() && s.l == pp.l && Shaped(pp, sh, s.q)
    requires Shaped(pp, masks.input, s.q) && Shaped(pp, masks.output, s.q)
    requires Heard(pp, parties) && |rands| == s.q
    ensures Shaped(pp, r, s.q)
  {
    InverseSize(s);
    DFft(pp, MapScale(Inv(Num(s.q * s.l)), sh), Inverse(s), masks, rearrange, g, parties, rands)
  }

  function Inverse(s: Size): Size {
    s.(gen := Inv(s.gen))
  }

  lemma InverseSize(s: Size)
    requires s.Valid()
    ensures Inverse(s).Valid()
  {
    InvRoot(s.gen, s.q * s.l);
  }

  // ----- what the local step does to the secrets

  lemma LocalStepRepresents(pp: Params, sh: seq<Vec>, y: Vec, s: Size, size: nat)
    requires s.Valid() && |y| == s.l * s.q && s.l == pp.l
    requires Represents(pp, sh, StridedRows(y, s.q, s.l), size)
    ensures Shaped(pp, sh, s.q)
    ensures Represents(pp, LocalStep(sh, Pow(s.gen, s.l), s.q), Rows(y, s.q, s.l, s.gen), size)
  {
    var v := Pow(s.gen, s.l);
    var rows := StridedRows(y, s.q, s.l);
    RepresentsShape(pp, sh, rows, size);
    var ps0 :| Sharing(pp, sh, ps0, size) && SecretRows(pp, ps0) == rows;
    var ps := seq(|ps0|, e requires 0 <= e < |ps0| => Resize(ps0[e], size));
    var qs := seq(|ps|, k requires 0 <= k < |ps| => LocalPoly(ps, size, v, k));
    hide BlockTransform, Rows, Row, StridedRow, IsPow2, Pow, LocalPoly;
    forall x
      ensures ValuesAt(ps0, x) == ValuesAt(ps, x) && BlockTransform(ValuesAt(ps, x), v) == ValuesAt(qs, x)
    {
      LocalValues(ps0, ps, qs, size, v, x);
    }
    assert Sharing(pp, LocalStep(sh, v, s.q), qs, size);
    forall k | 0 <= k < s.q
      ensures SecretRows(pp, qs)[k] == Rows(y, s.q, s.l, s.gen)[k]
    {
      forall j | 0 <= j < s.l
        ensures Secrets(pp, qs[k])[j] == Row(y, s.q, s.l, s.gen, k)[j]
      {
        SlotValues(pp, ps0, y, s, j);
        assert ValuesAt(qs, pp.secret.Element(j))[k] == Secrets(pp, qs[k])[j];
        RowAt(y, s, k, j);
      }
      RowsAt(y, s, k);
    }
    assert SecretRows(pp, qs) == Rows(y, s.q, s.l, s.gen);
  }

  lemma RowAt(y: Vec, s: Size, k: nat, j: nat)
    requires s.Valid() && |y| == s.l * s.q && k < s.q && j < s.l
    ensures Row(y, s.q, s.l, s.gen, k)[j] == BlockTransform(BlockAt(y, s.l, s.q, j), Pow(s.gen, s.l))[k]
  {
  }

  lemma RowsAt(y: Vec, s: Size, k: nat)
    requires s.Valid() && |y| == s.l * s.q && k < s.q
    ensures Rows(y, s.q, s.l, s.gen)[k] == Row(y, s.q, s.l, s.gen, k)
  {
  }

  lemma LocalValues(ps0: seq<Vec>, ps: seq<Vec>, qs: seq<Vec>, size: nat, v: F, x: F)
    requires |ps0| == |ps| == |qs| && IsPow2(|ps|)
    requires forall e :: 0 <= e < |ps| ==> |ps0[e]| <= size && ps[e] == Resize(ps0[e], size)
    requires forall e :: 0 <= e < |ps| ==> |ps[e]| == size
    requires forall k :: 0 <= k < |ps| ==> qs[k] == LocalPoly(ps, size, v, k)
    ensures ValuesAt(ps0, x) == ValuesAt(ps, x)
    ensures BlockTransform(ValuesAt(ps, x), v) == ValuesAt(qs, x)
  {
    hide BlockTransform, LocalPoly;
    forall e | 0 <= e < |ps|
      ensures Eval(ps0[e], x) == Eval(ps[e], x)
      ensures BlockTransform(ValuesAt(ps, x), v)[e] == Eval(qs[e], x)
    {
      EvalResize(ps0[e], size, x);
      LocalCommutes(ps, size, v, x, e);
    }
  }

  /** What slot j of the parties' secrets holds: block j of y. */
  lemma SlotValues(pp: Params, ps: seq<Vec>, y: Vec, s: Size, j: nat)
    requires |y| == s.l * s.q && s.l == pp.l && j < s.l && SecretRows(pp, ps) == StridedRows(y, s.q, s.l)
    ensures ValuesAt(ps, pp.secret.Element(j)) == BlockAt(y, s.l, s.q, j)
  {
    BlockFits(s.l, s.q, j);
    forall e | 0 <= e < s.q
      ensures ValuesAt(ps, pp.secret.Element(j))[e] == BlockAt(y, s.l, s.q, j)[e]
    {
      assert SecretRows(pp, ps)[e][j] == StridedRow(y, s.q, s.l, e)[j];
    }
  }

  // ----- what the king does to the secrets

  lemma {:induction false} ConcatAdd(a: seq<Vec>, b: seq<Vec>, l: nat)
    requires |a| == |b| && forall i :: 0 <= i < |a| ==> |a[i]| == |b[i]| == l
    ensures Concat(MapAdd(a, b), l) == VAdd(Concat(a, l), Concat(b, l))
    decreases |a|
  {
    hide VAdd;
    if a != [] {
      var n := |a| - 1;
      ConcatAdd(a[..n], b[..n], l);
      assert MapAdd(a, b)[..n] == MapAdd(a[..n], b[..n]);
      AddAppended(Concat(a[..n], l), Concat(b[..n], l), a[n], b[n]);
    } else {
      AddNothing();
    }
  }

  lemma AddNothing()
    ensures VAdd([], []) == []
  {
  }

  lemma AddAppended(a: Vec, b: Vec, x: Vec, y: Vec)
    requires |a| == |b| && |x| == |y|
    ensures VAdd(a + x, b + y) == VAdd(a, b) + VAdd(x, y)
  {
  }

  lemma {:induction false} ConcatChunks(v: Vec, q: nat, l: nat)
    requires |v| == q * l
    ensures Concat(Chunks(v, q, l), l) == v
    decreases q
  {
    hide Chunks;
    if q != 0 {
      var n := q - 1;
      LastChunk(v, q, l, n, n * l);
      ConcatChunks(v[..n * l], n, l);
      assert v == v[..n * l] + v[n * l..];
    } else {
      assert Chunks(v, q, l) == [];
    }
  }

  lemma LastChunk(v: Vec, q: nat, l: nat, n: nat, m: nat)
    requires |v| == q * l && q == n + 1 && m == n * l
    ensures m <= |v| && Chunks(v, q, l)[..n] == Chunks(v[..m], n, l) && Chunks(v, q, l)[n] == v[m..]
  {
    BlockFits(q, l, n);
    assert At(n, l, 0) == n * l && At(q, l, 0) == q * l;
    hide At;
    forall e: nat | e < n
      ensures Chunks(v, q, l)[e] == Chunks(v[..m], n, l)[e]
    {
      BlockFits(q, l, e);
      BlockFits(n, l, e);
      SliceOfPrefix(v, m, At(e, l, 0), At(e + 1, l, 0));
    }
  }

  lemma SliceOfPrefix(v: Vec, m: nat, from: nat, to: nat)
    requires from <= to <= m <= |v|
    ensures v[..m][from..to] == v[from..to]
  {
  }

  lemma ScaledAdd(g: F, a: Vec, b: Vec)
    requires |a| == |b|
    ensures Scaled(g, VAdd(a, b)) == VAdd(Scaled(g, a), Scaled(g, b))
  {
    DistributeAdd(a, b, g);
  }

  lemma FinishMasked(rows: seq<Vec>, values: Vec, s: Size, g: F)
    requires s.Valid() && |rows| == s.q && (forall e :: 0 <= e < s.q ==> |rows[e]| == s.l) && |values| == s.q * s.l
    ensures Finish(MapAdd(rows, Chunks(values, s.q, s.l)), s, g)
         == VAdd(Finish(rows, s, g), Scaled(g, KingTransform(values, s.q, s.l, s.gen)))
  {
    assert 0 < s.q;
    hide KingTransform, IsPow2, BlockAt;
    ConcatAdd(rows, Chunks(values, s.q, s.l), s.l);
    ConcatChunks(values, s.q, s.l);
    KingTransformAdd(Concat(rows, s.l), values, s.q, s.l, s.gen);
    ScaledAdd(g, KingTransform(Concat(rows, s.l), s.q, s.l, s.gen), KingTransform(values, s.q, s.l, s.gen));
  }

  lemma LayoutAdd(a: Vec, b: Vec, q: nat, l: nat, rearrange: bool)
    requires |a| == |b| == q * l == l * q && IsPow2(|a|)
    ensures Layout(VAdd(a, b), q, l, rearrange) == MapAdd(Layout(a, q, l, rearrange), Layout(b, q, l, rearrange))
  {
    hide IsPow2, At;
    if rearrange {
      BitReversedAdd(a, b);
      StridedAdd(BitReversed(a), BitReversed(b), q, l);
    } else {
      forall e | 0 <= e < q
        ensures BlockAt(VAdd(a, b), q, l, e) == VAdd(BlockAt(a, q, l, e), BlockAt(b, q, l, e))
      {
        BlockAtAdd(a, b, q, l, e);
      }
    }
  }

  lemma StridedAdd(a: Vec, b: Vec, q: nat, l: nat)
    requires |a| == |b| == l * q
    ensures StridedRows(VAdd(a, b), q, l) == MapAdd(StridedRows(a, q, l), StridedRows(b, q, l))
  {
    forall e | 0 <= e < q
      ensures StridedRow(VAdd(a, b), q, l, e) == VAdd(StridedRow(a, q, l, e), StridedRow(b, q, l, e))
    {
      forall j: nat | j < l
        ensures At(j, q, e) < |a|
      {
        AtBound(j, l, q, e);
      }
    }
  }

  // ----- the main results

  /** The king sees the rows of the local transforms plus the values of the mask. */
  lemma DFftView(pp: Params, sh: seq<Vec>, y: Vec, s: Size, values: Vec, inRands: seq<Vec>, outRands: seq<Vec>,
                 rearrange: bool, g: F, parties: seq<nat>)
    requires pp.Valid() && s.Valid() && s.l == pp.l && |y| == s.l * s.q && |values| == s.q * s.l
    requires Represents(pp, sh, StridedRows(y, s.q, s.l), pp.ProductSize())
    requires Randomness(pp, inRands, s.q) && |outRands| == s.q && Heard(pp, parties) && pp.ProductSize() <= |parties|
    ensures Shaped(pp, sh, s.q)
    ensures var rows, chunks := Rows(y, s.q, s.l, s.gen), Chunks(values, s.q, s.l);
      var masks := SampleFftMasks(pp, s, rearrange, g, values, inRands, outRands);
      var sent := Masked(LocalStep(sh, Pow(s.gen, s.l), s.q), masks);
      Recover(pp, Received(sent, parties), parties, s.q) == MapAdd(rows, chunks) && Concat(chunks, s.l) == values
  {
    hide Represents, Deal, Recover, MapAdd, LocalStep, Rows, Chunks, KingTransform, IsPow2, Scaled, VAdd, VSub, Layout,
      Concat, Heard;
    var size := pp.ProductSize();
    var masks := SampleFftMasks(pp, s, rearrange, g, values, inRands, outRands);
    var rows, chunks := Rows(y, s.q, s.l, s.gen), Chunks(values, s.q, s.l);
    LocalStepRepresents(pp, sh, y, s, size);
    var local := LocalStep(sh, Pow(s.gen, s.l), s.q);
    DealRepresents(pp, chunks, inRands);
    RepresentsWeaken(pp, masks.input, chunks, pp.l + pp.t, size);
    AddRepresents(pp, local, masks.input, rows, chunks, size);
    RecoverRows(pp, MapAdd(local, masks.input), MapAdd(rows, chunks), parties);
    ConcatChunks(values, s.q, s.l);
  }

  /**
   * Whatever the masks and whoever answered, the parties end with fresh sharings of the transform
   * of y, scaled by the powers of g and laid out as asked.
   */
  lemma DFftTransforms(pp: Params, sh: seq<Vec>, y: Vec, s: Size, values: Vec, inRands: seq<Vec>,
                       outRands: seq<Vec>, rearrange: bool, g: F, parties: seq<nat>, rands: seq<Vec>)
    requires pp.Valid() && s.Valid() && s.l == pp.l && |y| == s.l * s.q && |values| == s.q * s.l
    requires Represents(pp, sh, StridedRows(y, s.q, s.l), pp.ProductSize())
    requires Randomness(pp, inRands, s.q) && Randomness(pp, outRands, s.q) && Randomness(pp, rands, s.q)
    requires Heard(pp, parties) && pp.ProductSize() <= |parties|
    ensures Shaped(pp, sh, s.q)
    ensures var masks := SampleFftMasks(pp, s, rearrange, g, values, inRands, outRands);
      Represents(pp, DFft(pp, sh, s, masks, rearrange, g, parties, rands),
                 Layout(Finish(Rows(y, s.q, s.l, s.gen), s, g), s.q, s.l, rearrange), pp.l + pp.t)
  {
    hide Represents, Deal, Recover, MapAdd, LocalStep, Rows, Finish, Layout, Chunks, KingTransform, IsPow2, Scaled;
    DFftView(pp, sh, y, s, values, inRands, outRands, rearrange, g, parties);
    var rows, chunks := Rows(y, s.q, s.l, s.gen), Chunks(values, s.q, s.l);
    var answer := Finish(MapAdd(rows, chunks), s, g);
    Unmask(pp, rows, values, s, rearrange, g, rands, outRands);
  }

  /** The answer to masked rows plus the dealt negative of the transformed mask. */
  lemma Unmask(pp: Params, rows: seq<Vec>, values: Vec, s: Size, rearrange: bool, g: F,
               rands: seq<Vec>, outRands: seq<Vec>)
    requires pp.Valid() && s.Valid() && s.l == pp.l && |values| == s.q * s.l
    requires |rows| == s.q && forall e :: 0 <= e < s.q ==> |rows[e]| == s.l
    requires Randomness(pp, outRands, s.q) && Randomness(pp, rands, s.q)
    ensures var answer := Finish(MapAdd(rows, Chunks(values, s.q, s.l)), s, g);
      var negated := VNeg(Scaled(g, KingTransform(values, s.q, s.l, s.gen)));
      Represents(pp, MapAdd(Deal(pp, Layout(answer, s.q, s.l, rearrange), rands),
                            Deal(pp, Layout(negated, s.q, s.l, rearrange), outRands)),
                 Layout(Finish(rows, s, g), s.q, s.l, rearrange), pp.l + pp.t)
  {
    hide Represents, Deal, Layout, KingTransform, IsPow2, Scaled, Finish;
    var answer := Finish(MapAdd(rows, Chunks(values, s.q, s.l)), s, g);
    var mask := Scaled(g, KingTransform(values, s.q, s.l, s.gen));
    var a, b := Layout(answer, s.q, s.l, rearrange), Layout(VNeg(mask), s.q, s.l, rearrange);
    DealRepresents(pp, a, rands);
    DealRepresents(pp, b, outRands);
    AddRepresents(pp, Deal(pp, a, rands), Deal(pp, b, outRands), a, b, pp.l + pp.t);
    FinishMasked(rows, values, s, g);
    LayoutAdd(answer, VNeg(mask), s.q, s.l, rearrange);
    AddNegCancels(Finish(rows, s, g), mask);
  }
}
