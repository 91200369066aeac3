/** DegreeReduction: the king unpacks masked shares of high degree and packs them again. */
module DegreeReduction {
  import opened ScalarField
  import opened Polynomials
  import opened PackedSharing
  import opened SharedVectors
  import opened Linearity

  /** The masks of all parties: what they add before sending and what they add to the answer. */
  datatype Masks = Masks(input: seq<Vec>, output: seq<Vec>)

  function MapNeg(a: seq<Vec>): (r: seq<Vec>)
    ensures |r| == |a| && forall i :: 0 <= i < |a| ==> |r[i]| == |a[i]|
  {
    seq(|a|, i requires 0 <= i < |a| => VNeg(a[i]))
  }

  /** Fresh masks: a sharing of the values and one of their negatives. */
  function SampleMasks(pp: Params, values: seq<Vec>, inRands: seq<Vec>, outRands: seq<Vec>): (m: Masks)
    requires pp.share.size == pp.n && |inRands| == |outRands| == |values|
  {
    Masks(Deal(pp, values, inRands), Deal(pp, MapNeg(values), outRands))
  }

  /** Sharings have one share per party for each of count entries. */
  ghost predicate Shaped(pp: Params, sh: seq<Vec>, count: nat) {
    |sh| == pp.n && Rectangular(sh, count)
  }

  /** What the parties send to the king. */
  function Masked(sh: seq<Vec>, masks: Masks): (r: seq<Vec>)
    requires |sh| == |masks.input| && forall i :: 0 <= i < |sh| ==> |sh[i]| == |masks.input[i]|
    ensures |r| == |sh| && forall i :: 0 <= i < |r| ==> |r[i]| == |sh[i]|
  {
    MapAdd(sh, masks.input)
  }

  /** The whole round: mask, send, unpack and pack at the king, unmask. */
  function DegRed(pp: Params, sh: seq<Vec>, masks: Masks, parties: seq<nat>, count: nat, rands: seq<Vec>): (r: seq<Vec>)
    requires pp.Valid() && Shaped(pp, sh, count) && Shaped(pp, masks.input, count) && Shaped(pp, masks.output, count)
    requires Heard(pp, parties) && |rands| == count
    ensures Shaped(pp, r, count)
  {
    var received := Received(Masked(sh, masks), parties);
    MapAdd(Deal(pp, Recover(pp, received, parties, count), rands), masks.output)
  }

  lemma MaskCancels(rows: seq<Vec>, values: seq<Vec>)
    requires |rows| == |values| && forall e :: 0 <= e < |rows| ==> |rows[e]| == |values[e]|
    ensures MapAdd(MapAdd(rows, values), MapNeg(values)) == rows
  {
    forall e | 0 <= e < |rows|
      ensures VAdd(VAdd(rows[e], values[e]), VNeg(values[e])) == rows[e]
    {
      AddNegCancels(rows[e], values[e]);
    }
  }

  /** With every row there is exactly one mask that makes the king see a given view. */
  lemma OneMaskFits(row: Vec, mask: Vec, view: Vec)
    requires |row| == |mask| == |view|
    ensures VAdd(row, mask) == view <==> mask == VSub(view, row)
  {
    forall k | 0 <= k < |row|
      ensures Add(row[k], mask[k]) == view[k] <==> mask[k] == Sub(view[k], row[k])
    {
      AddComm(row[k], mask[k]);
      SubAdd(mask[k], row[k]);
      SubAdd(view[k], row[k]);
    }
    if VAdd(row, mask) == view {
      assert forall k :: 0 <= k < |row| ==> VAdd(row, mask)[k] == view[k];
    }
    if mask == VSub(view, row) {
      assert forall k :: 0 <= k < |row| ==> mask[k] == VSub(view, row)[k];
    }
  }

  /** The king sees the secrets plus the values of the mask. */
  lemma DegRedView(pp: Params, sh: seq<Vec>, rows: seq<Vec>, values: seq<Vec>, inRands: seq<Vec>,
                   outRands: seq<Vec>, parties: seq<nat>)
    requires pp.Valid() && Represents(pp, sh, rows, pp.ProductSize())
    requires |values| == |rows| && IsRows(pp, values) && Randomness(pp, inRands, |rows|) && |outRands| == |rows|
    requires Heard(pp, parties) && pp.ProductSize() <= |parties|
    ensures Shaped(pp, sh, |rows|) && IsRows(pp, rows)
    ensures var sent := Masked(sh, SampleMasks(pp, values, inRands, outRands));
      Recover(pp, Received(sent, parties), parties, |rows|) == MapAdd(rows, values)
  {
    hide Deal, Recover, Represents, MapAdd, VAdd, VSub;
    var masks := SampleMasks(pp, values, inRands, outRands);
    RepresentsShape(pp, sh, rows, pp.ProductSize());
    RowLengths(pp, sh, rows, pp.ProductSize());
    DealRepresents(pp, values, inRands);
    RepresentsWeaken(pp, masks.input, values, pp.l + pp.t, pp.ProductSize());
    AddRepresents(pp, sh, masks.input, rows, values, pp.ProductSize());
    RecoverRows(pp, MapAdd(sh, masks.input), MapAdd(rows, values), parties);
  }

  lemma RowLengths(pp: Params, sh: seq<Vec>, rows: seq<Vec>, size: nat)
    requires Represents(pp, sh, rows, size)
    ensures IsRows(pp, rows)
  {
  }

  /** The secrets are kept and the degree is that of a fresh sharing, whoever answered. */
  lemma DegRedCorrect(pp: Params, sh: seq<Vec>, rows: seq<Vec>, values: seq<Vec>, inRands: seq<Vec>,
                      outRands: seq<Vec>, parties: seq<nat>, rands: seq<Vec>)
    requires pp.Valid() && Represents(pp, sh, rows, pp.ProductSize())
    requires |values| == |rows| && IsRows(pp, values)
    requires Randomness(pp, inRands, |rows|) && Randomness(pp, outRands, |rows|) && Randomness(pp, rands, |rows|)
    requires Heard(pp, parties) && pp.ProductSize() <= |parties|
    ensures Shaped(pp, sh, |rows|)
    ensures Represents(pp, DegRed(pp, sh, SampleMasks(pp, values, inRands, outRands), parties, |rows|, rands),
                       rows, pp.l + pp.t)
  {
    hide Deal, Recover, Represents, MapAdd;
    var masks := SampleMasks(pp, values, inRands, outRands);
    DegRedView(pp, sh, rows, values, inRands, outRands, parties);
    var masked := MapAdd(rows, values);
    DealRepresents(pp, masked, rands);
    DealRepresents(pp, MapNeg(values), outRands);
    AddRepresents(pp, Deal(pp, masked, rands), masks.output, masked, MapNeg(values), pp.l + pp.t);
    MaskCancels(rows, values);
  }
}
