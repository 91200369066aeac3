/**
 * DistributedFft: a transform split between parties and king is the transform.
 *
 * Slot j of the parties' vectors holds block j of the bit-reversed coefficients. The parties
 * transform every slot; the king collects row after row and finishes.
 */
module DistributedFft {
  import opened ScalarField
  import opened Polynomials
  import opened Indices
  import opened Fourier
  import opened BitReversal
  import opened LocalLevels
  import opened KingLevels

  /** The rows one after the other, as the king stores what it unpacks. */
  function Concat(rows: seq<Vec>, l: nat): (r: Vec)
    requires forall i :: 0 <= i < |rows| ==> |rows[i]| == l
    ensures |r| == |rows| * l
  {
    if rows == [] then [] else Concat(rows[..|rows| - 1], l) + rows[|rows| - 1]
  }

  lemma ConcatRow(rows: seq<Vec>, l: nat, i: nat)
    requires (forall i :: 0 <= i < |rows| ==> |rows[i]| == l) && i < |rows|
    ensures BlockAt(Concat(rows, l), |rows|, l, i) == rows[i]
  {
    var n := |rows| - 1;
    var init := Concat(rows[..n], l);
    BlockFits(|rows|, l, i);
    assert At(n, l, 0) == |init|;
    if i < n {
      BlockFits(n, l, i);
      ConcatRow(rows[..n], l, i);
    }
  }

  /** The value, at a common point, of the polynomial each block of y stands for. */
  function BlockEvals(y: Vec, l: nat, q: nat, z: F): (r: Vec)
    requires |y| == l * q && IsPow2(q)
    ensures |r| == l
  {
    seq(l, j requires 0 <= j < l => Eval(Unreversed(BlockAt(y, l, q, j)), z))
  }

  lemma BlockOfHalf(lo: Vec, hi: Vec, h: nat, q: nat, j: nat)
    requires |lo| == |hi| == h * q && |lo + hi| == 2 * h * q && j < h
    ensures BlockAt(lo + hi, 2 * h, q, j) == BlockAt(lo, h, q, j)
    ensures BlockAt(lo + hi, 2 * h, q, h + j) == BlockAt(hi, h, q, j)
  {
    BlockFits(h, q, j);
    BlockFits(2 * h, q, j);
    BlockFits(2 * h, q, h + j);
    var from, to := At(j, q, 0), At(j + 1, q, 0);
    assert At(h + j, q, 0) == h * q + from;
    assert At(h + j + 1, q, 0) == h * q + to;
    hide At;
    SliceOfHalf(lo, hi, from, to, h * q + from, h * q + to);
  }

  lemma SliceOfHalf(lo: Vec, hi: Vec, from: nat, to: nat, after: nat, last: nat)
    requires from <= to <= |lo| == |hi| && after == |lo| + from && last == |lo| + to
    ensures (lo + hi)[from..to] == lo[from..to] && (lo + hi)[after..last] == hi[from..to]
  {
  }

  lemma BlockEvalsHalf(lo: Vec, hi: Vec, h: nat, q: nat, z: F, j: nat)
    requires |lo| == |hi| == h * q && IsPow2(q) && |lo + hi| == 2 * h * q && j < h
    ensures BlockEvals(lo + hi, 2 * h, q, z)[j] == BlockEvals(lo, h, q, z)[j]
    ensures BlockEvals(lo + hi, 2 * h, q, z)[h + j] == BlockEvals(hi, h, q, z)[j]
  {
    hide BlockAt, At, Unreversed, Eval, IsPow2;
    BlockOfHalf(lo, hi, h, q, j);
  }

  lemma BlockEvalsHalves(lo: Vec, hi: Vec, h: nat, q: nat, z: F)
    requires |lo| == |hi| == h * q && IsPow2(q)
    ensures |lo + hi| == 2 * h * q
    ensures BlockEvals(lo + hi, 2 * h, q, z) == BlockEvals(lo, h, q, z) + BlockEvals(hi, h, q, z)
  {
    assert |lo + hi| == 2 * h * q;
    hide BlockAt, At, Unreversed, Eval, BlockEvals, IsPow2;
    var all := BlockEvals(lo + hi, 2 * h, q, z);
    forall j: nat | j < h
      ensures all[j] == BlockEvals(lo, h, q, z)[j] && all[h + j] == BlockEvals(hi, h, q, z)[j]
    {
      BlockEvalsHalf(lo, hi, h, q, z, j);
    }
    HalvesEqual(all, BlockEvals(lo, h, q, z), BlockEvals(hi, h, q, z));
  }

  lemma HalvesEqual(a: Vec, lo: Vec, hi: Vec)
    requires |a| == |lo| + |hi|
    requires forall j :: 0 <= j < |lo| ==> a[j] == lo[j]
    requires forall j :: 0 <= j < |hi| ==> a[|lo| + j] == hi[j]
    ensures a == lo + hi
  {
    forall i | 0 <= i < |a|
      ensures a[i] == (lo + hi)[i]
    {
      if |lo| <= i {
        assert a[|lo| + (i - |lo|)] == hi[i - |lo|];
      }
    }
  }

  lemma EvalOneBlock(y: Vec, x: F)
    requires IsPow2(|y|)
    ensures Eval(Unreversed(y), x) == Eval(Unreversed(BlockEvals(y, 1, |y|, Pow(x, 1))), x)
  {
    hide Eval, Unreversed, IsPow2, Pow, BlockAt;
    PowFirst(x);
    WholeBlock(y);
    var e := Eval(Unreversed(y), x);
    assert BlockEvals(y, 1, |y|, x) == [e];
    SingleUnreversed(e);
    assert [e] == [e] + [];
    EvalCons(e, [], x);
    EvalZero([], x);
    MulZero(x);
    AddZero(e);
  }

  lemma WholeBlock(y: Vec)
    ensures BlockAt(y, 1, |y|, 0) == y
  {
    BlockFits(1, |y|, 0);
  }

  lemma SingleUnreversed(e: F)
    ensures Unreversed([e]) == [e]
  {
  }

  lemma PowSquare(x: F, h: nat)
    ensures Pow(x, 2 * h) == Pow(Mul(x, x), h)
  {
    PowMul(x, 2, h);
    PowFirst(x);
  }

  lemma HalfLength(l: nat, q: nat)
    requires l % 2 == 0
    ensures l * q / 2 == l / 2 * q && l * q % 2 == 0
  {
    assert l * q == 2 * (l / 2 * q);
  }

  /** Evaluating block by block at x^l, then across the blocks at x, evaluates the whole at x. */
  lemma {:induction false} EvalBlocks(y: Vec, l: nat, q: nat, x: F)
    requires IsPow2(l) && IsPow2(q) && |y| == l * q && IsPow2(|y|)
    ensures Eval(Unreversed(y), x) == Eval(Unreversed(BlockEvals(y, l, q, Pow(x, l))), x)
    decreases l
  {
    hide Pow, Unreversed, Eval, BlockEvals, BlockAt;
    if l == 1 {
      EvalOneBlock(y, x);
    } else {
      var h := l / 2;
      var z := Pow(x, 2 * h);
      HalfLength(l, q);
      var lo, hi := y[..|y| / 2], y[|y| / 2..];
      assert y == lo + hi;
      EvalBlocksStep(lo, hi, h, q, x);
      EvalBlocks(lo, h, q, Mul(x, x));
      EvalBlocks(hi, h, q, Mul(x, x));
    }
  }

  lemma EvalBlocksStep(lo: Vec, hi: Vec, h: nat, q: nat, x: F)
    requires |lo| == |hi| == h * q && IsPow2(h) && IsPow2(q)
    ensures IsPow2(|lo|) && IsPow2(|lo + hi|) && |lo + hi| == 2 * h * q
    ensures var xx := Mul(x, x);
      && Eval(Unreversed(lo + hi), x) == Add(Eval(Unreversed(lo), xx), Mul(x, Eval(Unreversed(hi), xx)))
      && Eval(Unreversed(BlockEvals(lo + hi, 2 * h, q, Pow(x, 2 * h))), x)
           == Add(Eval(Unreversed(BlockEvals(lo, h, q, Pow(xx, h))), xx),
                  Mul(x, Eval(Unreversed(BlockEvals(hi, h, q, Pow(xx, h))), xx)))
  {
    hide Pow, Unreversed, Eval, BlockEvals;
    Pow2Product(h, q);
    assert |lo + hi| / 2 == |lo|;
    PowSquare(x, h);
    var z := Pow(x, 2 * h);
    EvalHalves(lo + hi, lo, hi, x);
    BlockEvalsHalves(lo, hi, h, q, z);
    assert IsPow2(2 * h);
    EvalHalves(BlockEvals(lo + hi, 2 * h, q, z), BlockEvals(lo, h, q, z), BlockEvals(hi, h, q, z), x);
  }

  lemma EvalHalves(y: Vec, lo: Vec, hi: Vec, x: F)
    requires |lo| == |hi| && y == lo + hi && IsPow2(|lo|) && IsPow2(|y|)
    ensures Eval(Unreversed(y), x)
         == Add(Eval(Unreversed(lo), Mul(x, x)), Mul(x, Eval(Unreversed(hi), Mul(x, x))))
  {
    assert y[..|y| / 2] == lo && y[|y| / 2..] == hi;
    EvalInterleave(Unreversed(lo), Unreversed(hi), x);
  }

  /** Row i of what the parties hold after their levels: entry i of every transformed slot. */
  function Row(y: Vec, q: nat, l: nat, gen: F, i: nat): (r: Vec)
    requires |y| == l * q && IsPow2(q) && i < q
    ensures |r| == l
  {
    seq(l, j requires 0 <= j < l => BlockTransform(BlockAt(y, l, q, j), Pow(gen, l))[i])
  }

  function Rows(y: Vec, q: nat, l: nat, gen: F): (r: seq<Vec>)
    requires |y| == l * q && IsPow2(q)
    ensures |r| == q && forall i :: 0 <= i < q ==> |r[i]| == l
  {
    seq(q, i requires 0 <= i < q => Row(y, q, l, gen, i))
  }

  lemma PowPeriod(v: F, q: nat, r: nat, t: nat)
    requires Pow(v, q) == ONE
    ensures Pow(v, r + q * t) == Pow(v, r)
  {
    PowAdd(v, r, q * t);
    PowMul(v, q, t);
    PowOne(t);
    MulOne(Pow(v, r));
  }

  lemma RootPeriod(gen: F, q: nat, l: nat)
    requires IsRoot(gen, q * l)
    ensures Pow(Pow(gen, l), q) == ONE
  {
    RootOrder(gen, q * l);
    PowMul(gen, l, q);
    assert l * q == q * l;
  }

  /** Rows repeat with period q in the exponent. */
  lemma RowPower(gen: F, q: nat, l: nat, k: nat)
    requires 0 < q && IsRoot(gen, q * l) && k < q * l
    ensures Pow(Pow(gen, l), RowOf(q, q * l, k) + 1) == Pow(Pow(gen, k), l)
  {
    RootPeriod(gen, q, l);
    PowSwap(gen, l, k);
    RowExponent(Pow(gen, l), q, k);
  }

  lemma RowExponent(v: F, q: nat, k: nat)
    requires 0 < q && Pow(v, q) == ONE
    ensures Pow(v, (if k == 0 then q - 1 else (k - 1) % q) + 1) == Pow(v, k)
  {
    if k != 0 {
      PowPeriod(v, q, (k - 1) % q + 1, (k - 1) / q);
    }
  }

  lemma RowValues(y: Vec, q: nat, l: nat, gen: F, r: nat)
    requires |y| == l * q && IsPow2(q) && r < q
    ensures Row(y, q, l, gen, r) == BlockEvals(y, l, q, Pow(Pow(gen, l), r + 1))
  {
    hide Pow, Unreversed, BlockAt, Eval;
  }

  lemma RowInRange(q: nat, m: nat, k: nat)
    requires 0 < q
    ensures RowOf(q, m, k) < q
  {
  }

  lemma KingFinishes(y: Vec, q: nat, l: nat, gen: F, k: nat)
    requires |y| == l * q == q * l && IsPow2(q) && IsPow2(l) && IsPow2(|y|) && IsRoot(gen, q * l) && k < |y|
    ensures KingEntry(Concat(Rows(y, q, l, gen), l), q, l, gen, k) == Eval(Unreversed(y), Pow(gen, k))
  {
    assert 0 < q;
    hide Pow, Unreversed, BlockAt, Eval, BlockEvals, Concat, Row, IsRoot, RowOf, IsPow2;
    var r := RowOf(q, q * l, k);
    RowInRange(q, q * l, k);
    ConcatRow(Rows(y, q, l, gen), l, r);
    RowValues(y, q, l, gen, r);
    RowPower(gen, q, l, k);
    EvalBlocks(y, l, q, Pow(gen, k));
  }

  /** The parties' levels on every slot followed by the king's levels are the Fourier transform. */
  lemma DistributedIsDft(x: Vec, q: nat, l: nat, gen: F)
    requires |x| == l * q == q * l && IsPow2(q) && IsPow2(l) && IsRoot(gen, q * l)
    ensures KingTransform(Concat(Rows(BitReversed(x), q, l, gen), l), q, l, gen) == Dft(x, gen)
  {
    var y := BitReversed(x);
    UnreversedBitReversed(x);
    hide BitReversed, Unreversed, KingEntry;
    forall k | 0 <= k < |x|
      ensures KingEntry(Concat(Rows(y, q, l, gen), l), q, l, gen, k) == Dft(x, gen)[k]
    {
      KingFinishes(y, q, l, gen, k);
    }
  }
}
