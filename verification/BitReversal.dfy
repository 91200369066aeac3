/** BitReversal: the order in which the levels read their input, and the loop that produces it. */
module BitReversal {
  import opened ScalarField
  import opened Polynomials
  import opened Indices
  import opened Fourier

  /** The bit-reversed order: the entries at even positions first, each half in the same order. */
  function BitReversed(x: Vec): (r: Vec)
    requires IsPow2(|x|)
    ensures |r| == |x|
    decreases |x|
  {
    if |x| == 1 then x
    else BitReversed(Evens(x)) + BitReversed(Odds(x))
  }

  lemma UnreversedBitReversed(x: Vec)
    requires IsPow2(|x|)
    ensures Unreversed(BitReversed(x)) == x
    decreases |x|
  {
    if |x| != 1 {
      var h, e, o := |x| / 2, Evens(x), Odds(x);
      UnreversedBitReversed(e);
      UnreversedBitReversed(o);
      hide Unreversed, Interleave, Evens, Odds;
      UnreversedConcat(BitReversed(e), BitReversed(o), h);
      InterleaveHalves(x);
    }
  }

  lemma UnreversedConcat(a: Vec, b: Vec, n: nat)
    requires |a| == |b| == n && IsPow2(n)
    ensures IsPow2(|a + b|) && Unreversed(a + b) == Interleave(Unreversed(a), Unreversed(b))
  {
    hide Interleave;
    assert (a + b)[..n] == a && (a + b)[n..] == b;
  }

  /** Digit d of weight h. */
  function Digit(d: nat, h: nat): nat {
    if d == 0 then 0 else h
  }

  /** The number whose b binary digits are those of n in the opposite order. */
  function Rev(b: nat, n: nat): (r: nat)
    ensures r < Pow2(b)
  {
    if b == 0 then 0 else Digit(n % 2, Pow2(b - 1)) + Rev(b - 1, n / 2)
  }

  lemma RevUnfold(b: nat, n: nat)
    requires 0 < b
    ensures Rev(b, n) == Digit(n % 2, Pow2(b - 1)) + Rev(b - 1, n / 2)
    ensures Pow2(b) == 2 * Pow2(b - 1)
  {
  }

  lemma {:induction false} RevHigh(b: nat, n: nat, d: nat)
    requires 0 < b && n < Pow2(b - 1) && d < 2
    ensures Rev(b, Digit(d, Pow2(b - 1)) + n) == 2 * Rev(b - 1, n) + d
    decreases b
  {
    hide Pow2, Rev;
    var m := Digit(d, Pow2(b - 1)) + n;
    RevUnfold(b, m);
    if 1 < b {
      RevUnfold(b - 1, n);
      assert m % 2 == n % 2 && m / 2 == Digit(d, Pow2(b - 2)) + n / 2;
      RevHigh(b - 1, n / 2, d);
    } else {
      RevEmpty(n);
      RevEmpty(m / 2);
    }
  }

  lemma RevEmpty(n: nat)
    ensures Rev(0, n) == 0 && Pow2(0) == 1
  {
  }

  lemma {:induction false} RevInvolution(b: nat, n: nat)
    requires n < Pow2(b)
    ensures Rev(b, Rev(b, n)) == n
    decreases b
  {
    hide Pow2, Rev;
    if b == 0 {
      RevEmpty(n);
    } else {
      RevUnfold(b, n);
      RevInvolution(b - 1, n / 2);
      RevHigh(b, Rev(b - 1, n / 2), n % 2);
    }
  }

  lemma OneEntry(x: Vec)
    requires |x| == 1 && IsPow2(|x|)
    ensures BitReversed(x) == x
  {
  }

  lemma EntryOfHalf(x: Vec, h: nat, i: nat)
    requires |x| == 2 * h && 0 < h && IsPow2(|x|) && i < |x|
    ensures IsPow2(h) && |Evens(x)| == |Odds(x)| == h
    ensures BitReversed(x)[i] == if i < h then BitReversed(Evens(x))[i] else BitReversed(Odds(x))[i - h]
    ensures forall k :: 0 <= k < h ==> Evens(x)[k] == x[2 * k] && Odds(x)[k] == x[2 * k + 1]
  {
    HalfEntries(x, h);
    hide Evens, Odds;
  }

  lemma HalfEntries(x: Vec, h: nat)
    requires |x| == 2 * h
    ensures |Evens(x)| == |Odds(x)| == h
    ensures forall k :: 0 <= k < h ==> Evens(x)[k] == x[2 * k] && Odds(x)[k] == x[2 * k + 1]
  {
  }

  /** The position of each entry under the recursive order is the reversal of its digits. */
  lemma {:induction false} BitReversedAt(x: Vec, b: nat, i: nat)
    requires |x| == Pow2(b) && IsPow2(|x|) && i < |x|
    ensures BitReversed(x)[i] == x[Rev(b, i)]
    decreases b
  {
    hide Pow2, Rev, IsPow2, BitReversed;
    if b == 0 {
      RevEmpty(i);
      OneEntry(x);
    } else {
      var h := Pow2(b - 1);
      var k := if i < h then i else i - h;
      RevUnfold(b, i);
      Pow2IsPow2(b - 1);
      EntryOfHalf(x, h, i);
      BitReversedAt(Evens(x), b - 1, k);
      BitReversedAt(Odds(x), b - 1, k);
      RevHigh(b, k, if i < h then 0 else 1);
    }
  }

  /** data holds x with the positions below pos, and those they are exchanged with, reversed. */
  ghost predicate Swapped(data: Vec, x: Vec, b: nat, pos: nat) {
    && |data| == |x| == Pow2(b)
    && forall i: nat :: i < |x| ==> data[i] == if i < pos || Rev(b, i) < pos then x[Rev(b, i)] else x[i]
  }

  lemma SwapStep(data: Vec, x: Vec, b: nat, pos: nat)
    requires Swapped(data, x, b, pos) && pos < |x|
    ensures var target := Rev(b, pos);
      Swapped(if pos < target then data[target := data[pos]][pos := data[target]] else data, x, b, pos + 1)
  {
    var target := Rev(b, pos);
    hide Rev;
    RevInvolution(b, pos);
    var data' := if pos < target then data[target := data[pos]][pos := data[target]] else data;
    forall i: nat | i < |x|
      ensures data'[i] == if i < pos + 1 || Rev(b, i) < pos + 1 then x[Rev(b, i)] else x[i]
    {
      RevInvolution(b, i);
    }
  }

  /** Adds one to a counter kept with its digits reversed: carries run from the top bit down. */
  method NextTarget(size: nat, target: nat, ghost b: nat, ghost pos: nat) returns (next: nat)
    requires size == Pow2(b) && target == Rev(b, pos) && pos < size
    ensures next == Rev(b, pos + 1)
  {
    hide Pow2, Rev;
    next := target;
    var mask := size / 2;
    ghost var b', n := b, pos;
    RevEmpty(pos);
    if b != 0 {
      RevUnfold(b, pos);
    }
    while mask != 0 && next / mask % 2 == 1
      invariant b' == 0 ==> mask == 0
      invariant b' != 0 ==> mask == Pow2(b' - 1)
      invariant next == Rev(b', n) && Rev(b, pos + 1) == Rev(b', n + 1)
      decreases mask
    {
      TopDigit(b', n);
      next := next - mask;
      mask := mask / 2;
      b', n := b' - 1, n / 2;
    }
    if b' != 0 {
      TopDigit(b', n);
    } else {
      RevEmpty(n);
      RevEmpty(n + 1);
    }
    next := next + mask;
  }

  lemma TopDigit(b: nat, n: nat)
    requires 0 < b
    ensures Rev(b, n) / Pow2(b - 1) % 2 == n % 2
    ensures Rev(b, n + 1) == if n % 2 == 0 then Rev(b, n) + Pow2(b - 1) else Rev(b - 1, n / 2 + 1)
    ensures n % 2 == 1 ==> Rev(b, n) == Rev(b - 1, n / 2) + Pow2(b - 1)
    ensures if b == 1 then Pow2(b - 1) == 1 else Pow2(b - 1) == 2 * Pow2(b - 2)
  {
    hide Rev;
    RevUnfold(b, n);
    RevUnfold(b, n + 1);
    AtInverse(n % 2, Pow2(b - 1), Rev(b - 1, n / 2));
  }

  /** The in-place rearrangement before a transform: exchanges entries while counting in reverse. */
  method FftInPlaceRearrange(data: array<F>)
    requires IsPow2(data.Length)
    modifies data
    ensures data[..] == BitReversed(old(data[..]))
  {
    ghost var x := data[..];
    ghost var b := Log2(data.Length);
    var target := 0;
    RevZero(b);
    for pos := 0 to data.Length
      invariant target == Rev(b, pos)
      invariant Swapped(data[..], x, b, pos)
    {
      SwapStep(data[..], x, b, pos);
      if pos < target {
        data[target], data[pos] := data[pos], data[target];
      }
      target := NextTarget(data.Length, target, b, pos);
    }
    forall i | 0 <= i < |x|
      ensures data[i] == BitReversed(x)[i]
    {
      BitReversedAt(x, b, i);
    }
  }

  lemma RevZero(b: nat)
    ensures Rev(b, 0) == 0
  {
  }
}
