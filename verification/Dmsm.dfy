/**
 * Dmsm: the multi-scalar multiplication on packed shares.
 *
 * A group of prime order is written by the exponents of its elements, so a scalar times a base is
 * a product in the field and a sum of group elements a sum.
 */
module Dmsm {
  import opened ScalarField
  import opened Polynomials
  import opened Indices
  import opened Fourier
  import opened RootsOfUnity
  import opened InnerProducts
  import opened Domains
  import opened PackedSharing
  import opened SharedVectors
  import opened Linearity
  import opened DegreeReduction
  import opened MpcFft

  /** One share per party, as a vector with a single entry. */
  function Single(shares: Vec): (r: seq<Vec>)
    ensures |r| == |shares| && Rectangular(r, 1)
  {
    seq(|shares|, i requires 0 <= i < |shares| => [shares[i]])
  }

  /** What each party computes locally: the inner product of its shares. */
  function LocalMsm(bases: seq<Vec>, scalars: seq<Vec>): (r: seq<Vec>)
    requires |bases| == |scalars| && forall i :: 0 <= i < |bases| ==> |bases[i]| == |scalars[i]|
    ensures |r| == |bases| && Rectangular(r, 1)
  {
    SumEntries(MapMul(bases, scalars))
  }

  function SumEntries(sh: seq<Vec>): (r: seq<Vec>)
    ensures |r| == |sh| && Rectangular(r, 1)
  {
    seq(|sh|, i requires 0 <= i < |sh| => [Sum(sh[i])])
  }

  /** Slot by slot, the sum over all rows. */
  function SumRows(rows: seq<Vec>, l: nat): (r: Vec)
    requires forall e :: 0 <= e < |rows| ==> |rows[e]| == l
    ensures |r| == l
  {
    if rows == [] then Zeros(l) else VAdd(SumRows(rows[..|rows| - 1], l), rows[|rows| - 1])
  }

  function SumPolys(ps: seq<Vec>): Vec {
    if ps == [] then [] else PAdd(SumPolys(ps[..|ps| - 1]), ps[|ps| - 1])
  }

  lemma {:induction false} SumPolysValue(ps: seq<Vec>, x: F)
    ensures Eval(SumPolys(ps), x) == Sum(ValuesAt(ps, x))
    decreases |ps|
  {
    if ps != [] {
      var n := |ps| - 1;
      SumPolysValue(ps[..n], x);
      EvalPAdd(SumPolys(ps[..n]), ps[n], x);
      assert ValuesAt(ps, x)[..n] == ValuesAt(ps[..n], x);
    }
  }

  lemma {:induction false} SumPolysSize(ps: seq<Vec>, size: nat)
    requires forall e :: 0 <= e < |ps| ==> |ps[e]| <= size
    ensures |SumPolys(ps)| <= size
    decreases |ps|
  {
    if ps != [] {
      SumPolysSize(ps[..|ps| - 1], size);
    }
  }

  lemma {:induction false} SumPolysSecrets(pp: Params, ps: seq<Vec>)
    ensures Secrets(pp, SumPolys(ps)) == SumRows(SecretRows(pp, ps), pp.l)
    decreases |ps|
  {
    hide Eval, Secrets, PAdd;
    if ps == [] {
      NoSecrets(pp);
    } else {
      var n := |ps| - 1;
      SumPolysSecrets(pp, ps[..n]);
      SecretsAdd(pp, SumPolys(ps[..n]), ps[n]);
      assert SecretRows(pp, ps)[..n] == SecretRows(pp, ps[..n]);
    }
  }

  lemma NoSecrets(pp: Params)
    ensures Secrets(pp, []) == Zeros(pp.l)
  {
  }

  lemma SumRepresents(pp: Params, sh: seq<Vec>, rows: seq<Vec>, size: nat)
    requires Represents(pp, sh, rows, size)
    ensures forall e :: 0 <= e < |rows| ==> |rows[e]| == pp.l
    ensures Represents(pp, SumEntries(sh), [SumRows(rows, pp.l)], size)
  {
    RepresentsShape(pp, sh, rows, size);
    var ps :| Sharing(pp, sh, ps, size) && SecretRows(pp, ps) == rows;
    var q := SumPolys(ps);
    SumPolysSize(ps, size);
    SumPolysSecrets(pp, ps);
    forall i | 0 <= i < pp.n
      ensures SumEntries(sh)[i] == ValuesAt([q], pp.share.Element(i))
    {
      SumPolysValue(ps, pp.share.Element(i));
    }
    assert Sharing(pp, SumEntries(sh), [q], size);
    assert SecretRows(pp, [q]) == [SumRows(rows, pp.l)];
  }

  /** The same value in every slot. */
  function Repeat(v: F, l: nat): (r: Vec)
    ensures |r| == l
  {
    seq(l, _ => v)
  }

  lemma ConstantRepresents(pp: Params, v: F, size: nat)
    requires 0 < size
    ensures Represents(pp, Single(Repeat(v, pp.n)), [Repeat(v, pp.l)], size)
  {
    var sh := Single(Repeat(v, pp.n));
    forall i | 0 <= i < pp.n
      ensures sh[i] == ValuesAt([[v]], pp.share.Element(i))
    {
      EvalConstant(v, pp.share.Element(i));
    }
    assert Sharing(pp, sh, [[v]], size);
    forall j | 0 <= j < pp.l
      ensures Secrets(pp, [v])[j] == v
    {
      EvalConstant(v, pp.secret.Element(j));
    }
    assert Secrets(pp, [v]) == Repeat(v, pp.l);
    assert SecretRows(pp, [[v]]) == [Repeat(v, pp.l)];
  }

  /** Masks: a sharing of random values, and one of minus their sum repeated. */
  function SampleMsmMasks(pp: Params, values: Vec, inRand: Vec, outRand: Vec): (m: Masks)
    requires pp.share.size == pp.n
  {
    Masks(Deal(pp, [values], [inRand]), Deal(pp, [Repeat(Neg(Sum(values)), pp.l)], [outRand]))
  }

  function DMsm(pp: Params, bases: seq<Vec>, scalars: seq<Vec>, masks: Masks, parties: seq<nat>, count: nat): (r: seq<Vec>)
    requires pp.Valid() && Shaped(pp, bases, count) && Shaped(pp, scalars, count)
    requires Shaped(pp, masks.input, 1) && Shaped(pp, masks.output, 1) && Heard(pp, parties)
    ensures Shaped(pp, r, 1)
  {
    var sent := Masked(LocalMsm(bases, scalars), masks);
    var output := Sum(Recover(pp, Received(sent, parties), parties, 1)[0]);
    MapAdd(Single(Repeat(output, pp.n)), masks.output)
  }

  /** The full inner product over all rows and slots. */
  function Total(bases: seq<Vec>, scalars: seq<Vec>, l: nat): F
    requires |bases| == |scalars| && forall e :: 0 <= e < |bases| ==> |bases[e]| == |scalars[e]| == l
  {
    Sum(SumRows(MapMul(bases, scalars), l))
  }

  /** The king sees the sums over the rows plus the values of the mask. */
  lemma DMsmView(pp: Params, bases: seq<Vec>, scalars: seq<Vec>, rb: seq<Vec>, rs: seq<Vec>, values: Vec,
                 inRand: Vec, outRand: Vec, parties: seq<nat>)
    requires pp.Valid() && |rb| == |rs| && |values| == pp.l && |inRand| == |outRand| == pp.t
    requires Represents(pp, bases, rb, pp.l + pp.t) && Represents(pp, scalars, rs, pp.l + pp.t)
    requires Heard(pp, parties) && pp.ProductSize() <= |parties|
    ensures Shaped(pp, bases, |rb|) && Shaped(pp, scalars, |rb|)
    ensures forall e :: 0 <= e < |rb| ==> |rb[e]| == |rs[e]| == pp.l
    ensures var row := SumRows(MapMul(rb, rs), pp.l);
      var sent := Masked(LocalMsm(bases, scalars), SampleMsmMasks(pp, values, inRand, outRand));
      Recover(pp, Received(sent, parties), parties, 1) == [VAdd(row, values)]
  {
    hide Represents, Deal, Recover, SumEntries, SumRows, Single, Sum, VAdd, VSub;
    var size := pp.ProductSize();
    RepresentsShape(pp, bases, rb, pp.l + pp.t);
    RepresentsShape(pp, scalars, rs, pp.l + pp.t);
    MulRepresents(pp, bases, scalars, rb, rs, pp.l + pp.t);
    SumRepresents(pp, MapMul(bases, scalars), MapMul(rb, rs), size);
    var row := SumRows(MapMul(rb, rs), pp.l);
    var masks, local := SampleMsmMasks(pp, values, inRand, outRand), LocalMsm(bases, scalars);
    DealRepresents(pp, [values], [inRand]);
    RepresentsWeaken(pp, masks.input, [values], pp.l + pp.t, size);
    AddRepresents(pp, local, masks.input, [row], [values], size);
    assert MapAdd([row], [values]) == [VAdd(row, values)];
    RecoverRows(pp, MapAdd(local, masks.input), [VAdd(row, values)], parties);
  }

  /** All parties end with a sharing of the inner product, repeated in every slot. */
  lemma DMsmCorrect(pp: Params, bases: seq<Vec>, scalars: seq<Vec>, rb: seq<Vec>, rs: seq<Vec>, values: Vec,
                    inRand: Vec, outRand: Vec, parties: seq<nat>)
    requires pp.Valid() && |rb| == |rs| && |values| == pp.l && |inRand| == |outRand| == pp.t
    requires Represents(pp, bases, rb, pp.l + pp.t) && Represents(pp, scalars, rs, pp.l + pp.t)
    requires Heard(pp, parties) && pp.ProductSize() <= |parties|
    ensures Shaped(pp, bases, |rb|) && Shaped(pp, scalars, |rb|)
    ensures forall e :: 0 <= e < |rb| ==> |rb[e]| == |rs[e]| == pp.l
    ensures Represents(pp, DMsm(pp, bases, scalars, SampleMsmMasks(pp, values, inRand, outRand), parties, |rb|),
                       [Repeat(Total(rb, rs, pp.l), pp.l)], pp.l + pp.t)
  {
    hide Represents, Deal, Recover, SumEntries, SumRows, Single, Sum;
    DMsmView(pp, bases, scalars, rb, rs, values, inRand, outRand, parties);
    var row, masks := SumRows(MapMul(rb, rs), pp.l), SampleMsmMasks(pp, values, inRand, outRand);
    SumAdd(row, values);
    var output := Add(Sum(row), Sum(values));
    ConstantRepresents(pp, output, pp.l + pp.t);
    var negated := Repeat(Neg(Sum(values)), pp.l);
    DealRepresents(pp, [negated], [outRand]);
    AddRepresents(pp, Single(Repeat(output, pp.n)), masks.output, [Repeat(output, pp.l)], [negated], pp.l + pp.t);
    SubAdd(Sum(row), Sum(values));
    assert VAdd(Repeat(output, pp.l), negated) == Repeat(Sum(row), pp.l);
    assert MapAdd([Repeat(output, pp.l)], [negated]) == [Repeat(Sum(row), pp.l)];
  }

  // ----- the total as an inner product of whole vectors

  /** Vectors packed chunk by chunk: the total is their inner product. */
  lemma {:induction false} TotalOfChunks(a: Vec, b: Vec, q: nat, l: nat)
    requires |a| == |b| == q * l
    ensures Total(Chunks(a, q, l), Chunks(b, q, l), l) == InnerProduct(a, b)
    decreases q
  {
    hide Chunks, InnerProduct, Total;
    if q == 0 {
      NoChunks(a, b, l);
    } else {
      var k := (q - 1) * l;
      ChunksInit(a, q, l);
      ChunksInit(b, q, l);
      TotalOfChunks(a[..k], b[..k], q - 1, l);
      TotalStep(Chunks(a[..k], q - 1, l), Chunks(b[..k], q - 1, l), a[k..], b[k..], l);
      InnerSplit(a, b, k);
    }
  }

  lemma NoChunks(a: Vec, b: Vec, l: nat)
    requires a == [] && b == []
    ensures Total(Chunks(a, 0, l), Chunks(b, 0, l), l) == InnerProduct(a, b)
  {
    SumZeros(l);
  }

  lemma TotalStep(a: seq<Vec>, b: seq<Vec>, ca: Vec, cb: Vec, l: nat)
    requires |a| == |b| && (forall e :: 0 <= e < |a| ==> |a[e]| == |b[e]| == l) && |ca| == |cb| == l
    ensures Total(a + [ca], b + [cb], l) == Add(Total(a, b, l), InnerProduct(ca, cb))
  {
    var products := MapMul(a + [ca], b + [cb]);
    assert products == MapMul(a, b) + [VMul(ca, cb)];
    assert products[..|a|] == MapMul(a, b);
    SumAdd(SumRows(MapMul(a, b), l), VMul(ca, cb));
  }

  lemma ChunksInit(v: Vec, q: nat, l: nat)
    requires 0 < q && |v| == q * l
    ensures 0 <= (q - 1) * l <= |v|
    ensures Chunks(v, q, l) == Chunks(v[..(q - 1) * l], q - 1, l) + [v[(q - 1) * l..]]
  {
    var n := q - 1;
    BlockFits(q, l, n);
    forall e | 0 <= e < n
      ensures Chunks(v, q, l)[e] == Chunks(v[..n * l], n, l)[e]
    {
      BlockFits(q, l, e);
      BlockFits(n, l, e);
    }
    var all, init, last := Chunks(v, q, l), Chunks(v[..n * l], n, l), v[n * l..];
    assert all[n] == last;
    assert all == init + [last];
  }

}
