/**
 * LocalLevels: the butterfly levels a party runs on its own vector of shares.
 *
 * The vector holds blocks one after the other; a level joins blocks of s into blocks of 2s.
 */
module LocalLevels {
  import opened ScalarField
  import opened Polynomials
  import opened Indices
  import opened Fourier

  /** Every block of s holds the transform, with root v, of the same block of x. */
  ghost predicate Transformed(y: Vec, x: Vec, c: nat, s: nat, v: F) {
    && IsPow2(s) && |x| == c * s && |y| == |x|
    && forall j: nat, k: nat :: j < c && k < s ==>
         At(j, s, k) < |y| && y[At(j, s, k)] == BlockValue(BlockAt(x, c, s, j), v, k)
  }

  /** The butterflies of one level took y to z; w is the stride of the twiddle factors. */
  ghost predicate Step(y: Vec, z: Vec, c: nat, s: nat, w: F) {
    && |y| == |z|
    && forall j: nat, k: nat :: j < c && k < s ==> Joined(y, z, s, w, j, k)
  }

  ghost predicate Joined(y: Vec, z: Vec, s: nat, w: F, j: nat, k: nat)
    requires |y| == |z|
  {
    var p, q := At(2 * j, s, k), At(2 * j + 1, s, k);
    && p < |y| && q < |y|
    && z[p] == Add(y[p], Mul(y[q], Pow(w, k + 1)))
    && z[q] == Sub(y[p], Mul(y[q], Pow(w, k + 1)))
  }

  /** A level turns transformed blocks of s into transformed blocks of 2s. */
  lemma StepCorrect(x: Vec, y: Vec, z: Vec, c: nat, s: nat, w: F)
    requires Transformed(y, x, 2 * c, s, Mul(w, w)) && Step(y, z, c, s, w) && IsRoot(w, 2 * s)
    ensures Transformed(z, x, c, 2 * s, w)
  {
    hide At, Step, Pow, BlockValue, BlockAt, IsRoot, Mul;
    assert c * (2 * s) == 2 * c * s && IsPow2(2 * s);
    hide IsPow2;
    SameLength(y, z, c, s, w);
    forall j: nat, k: nat | j < c && k < 2 * s
      ensures At(j, 2 * s, k) < |z| && z[At(j, 2 * s, k)] == BlockValue(BlockAt(x, c, 2 * s, j), w, k)
    {
      StepEntry(x, y, z, c, s, w, j, if k < s then k else k - s);
    }
  }

  lemma SameLength(y: Vec, z: Vec, c: nat, s: nat, w: F)
    requires Step(y, z, c, s, w)
    ensures |y| == |z|
  {
  }

  lemma StepEntry(x: Vec, y: Vec, z: Vec, c: nat, s: nat, w: F, j: nat, k: nat)
    requires Transformed(y, x, 2 * c, s, Mul(w, w)) && Step(y, z, c, s, w) && IsRoot(w, 2 * s)
    requires c * (2 * s) == 2 * c * s && j < c && k < s
    ensures At(j, 2 * s, k) < |z| && z[At(j, 2 * s, k)] == BlockValue(BlockAt(x, c, 2 * s, j), w, k)
    ensures At(j, 2 * s, k + s) < |z| && z[At(j, 2 * s, k + s)] == BlockValue(BlockAt(x, c, 2 * s, j), w, k + s)
  {
    hide At, Pow, BlockAt, BlockValue;
    assert Joined(y, z, s, w, j, k);
    BlockHalves(x, c, s, j);
    Butterfly(BlockAt(x, c, 2 * s, j), w, k);
    AtPair(j, s, k);
  }

  // ----- the loops of one level

  ghost predicate Untouched(y: Vec, z: Vec, s: nat, j: nat, k: nat)
    requires |y| == |z|
  {
    var p, q := At(2 * j, s, k), At(2 * j + 1, s, k);
    p < |y| && q < |y| && z[p] == y[p] && z[q] == y[q]
  }

  /** The butterflies up to (k, j), k counted first, are done and the others are not. */
  ghost predicate Progress(y: Vec, z: Vec, c: nat, s: nat, w: F, k: nat, j: nat) {
    && |y| == |z|
    && forall j': nat, k': nat :: j' < c && k' < s ==>
         if k' < k || (k' == k && j' < j) then Joined(y, z, s, w, j', k')
         else Untouched(y, z, s, j', k')
  }

  lemma ProgressStart(y: Vec, c: nat, s: nat, w: F)
    requires |y| == 2 * c * s
    ensures Progress(y, y, c, s, w, 0, 0)
  {
    forall j: nat, k: nat | j < c && k < s
      ensures Untouched(y, y, s, j, k)
    {
      AtBound(2 * j, 2 * c, s, k);
      AtBound(2 * j + 1, 2 * c, s, k);
    }
  }

  lemma ProgressStep(y: Vec, z: Vec, z': Vec, c: nat, s: nat, w: F, k: nat, j: nat)
    requires Progress(y, z, c, s, w, k, j) && j < c && k < s
    requires var p, q := At(2 * j, s, k), At(2 * j + 1, s, k);
      && p < |y| && q < |y|
      && z' == z[p := Add(z[p], Mul(z[q], Pow(w, k + 1)))][q := Sub(z[p], Mul(z[q], Pow(w, k + 1)))]
    ensures Progress(y, z', c, s, w, k, j + 1)
  {
    hide At, Pow, Add, Sub, Mul;
    assert Untouched(y, z, s, j, k);
    forall j': nat, k': nat | j' < c && k' < s
      ensures if k' < k || (k' == k && j' < j + 1) then Joined(y, z', s, w, j', k') else Untouched(y, z', s, j', k')
    {
      if At(2 * j', s, k') == At(2 * j, s, k) {
        AtInjective(2 * j', k', 2 * j, k, s);
      }
      if At(2 * j', s, k') == At(2 * j + 1, s, k) {
        AtInjective(2 * j', k', 2 * j + 1, k, s);
      }
      if At(2 * j' + 1, s, k') == At(2 * j, s, k) {
        AtInjective(2 * j' + 1, k', 2 * j, k, s);
      }
      if At(2 * j' + 1, s, k') == At(2 * j + 1, s, k) {
        AtInjective(2 * j' + 1, k', 2 * j + 1, k, s);
      }
      assert Joined(y, z, s, w, j', k') || Untouched(y, z, s, j', k');
    }
  }

  /** One level, in place: the butterflies of element k of every block, for every k. */
  method JoinBlocks(px: array<F>, c: nat, s: nat, stride: F)
    requires px.Length == 2 * c * s
    modifies px
    ensures Step(old(px[..]), px[..], c, s, stride)
  {
    ghost var y := px[..];
    ProgressStart(y, c, s, stride);
    var factor := stride;
    PowFirst(stride);
    for k := 0 to s
      invariant factor == Pow(stride, k + 1)
      invariant Progress(y, px[..], c, s, stride, k, 0)
    {
      for j := 0 to c
        invariant Progress(y, px[..], c, s, stride, k, j)
      {
        ghost var z := px[..];
        assert Untouched(y, z, s, j, k);
        JoinIndices(j, s, k);
        var lo := px[2 * j * s + k];
        var hi := Mul(px[(2 * j + 1) * s + k], factor);
        px[j * (2 * s) + k] := Add(lo, hi);
        px[j * (2 * s) + k + s] := Sub(lo, hi);
        ProgressStep(y, z, px[..], c, s, stride, k, j);
      }
      factor := Mul(factor, stride);
    }
  }

  lemma JoinIndices(j: nat, s: nat, k: nat)
    ensures 2 * j * s + k == At(2 * j, s, k) == j * (2 * s) + k
    ensures (2 * j + 1) * s + k == At(2 * j + 1, s, k) == j * (2 * s) + k + s
    ensures At(2 * j, s, k) < At(2 * j + 1, s, k) || s == 0
  {
  }

  // ----- all the levels of a party

  /** What fft1 makes of one slot: the transform of its block of bit-reversed coefficients. */
  function BlockTransform(x: Vec, v: F): (r: Vec)
    requires IsPow2(|x|)
    ensures |r| == |x|
  {
    seq(|x|, k requires 0 <= k < |x| => BlockValue(x, v, k))
  }

  lemma TransformedStart(x: Vec, v: F)
    ensures Transformed(x, x, |x|, 1, v)
  {
    forall j: nat, k: nat | j < |x| && k < 1
      ensures At(j, 1, k) < |x| && x[At(j, 1, k)] == BlockValue(BlockAt(x, |x|, 1, j), v, k)
    {
      var y := BlockAt(x, |x|, 1, j);
      MulZero(Pow(v, k + 1));
      AddZero(y[0]);
      assert Unreversed(y) == y;
      assert Eval(y[1..], Pow(v, k + 1)) == ZERO;
    }
  }

  lemma TransformedEnd(y: Vec, x: Vec, v: F)
    requires Transformed(y, x, 1, |x|, v)
    ensures y == BlockTransform(x, v)
  {
    BlockFits(1, |x|, 0);
    assert BlockAt(x, 1, |x|, 0) == x;
    forall k: nat | k < |x|
      ensures y[k] == BlockValue(x, v, k)
    {
      assert At(0, |x|, k) == k;
    }
  }

  /** The sizes at level i when a party holds 2^a entries of 2^b slots each. */
  lemma LevelSizes(a: nat, b: nat, i: nat)
    requires b < i <= a + b
    ensures Pow2(a + b) / Pow2(i) == Pow2(a + b - i)
    ensures Pow2(i - 1) / Pow2(b) == Pow2(i - 1 - b)
    ensures 2 * Pow2(i - 1 - b) == Pow2(i - b)
    ensures 2 * Pow2(i - 1 - b) * Pow2(a + b - i) == Pow2(a)
    ensures Pow2(a + b - (i - 1)) == 2 * Pow2(a + b - i)
  {
    Pow2Quotient(a + b, i);
    Pow2Quotient(i - 1, b);
    Pow2Add(i - b, a + b - i);
  }

  lemma DomainSize(q: nat, l: nat)
    requires IsPow2(q) && IsPow2(l)
    ensures var a, b := Log2(q), Log2(l);
      && q * l == Pow2(a + b) && IsPow2(q * l) && Log2(q * l) == a + b
      && Pow2(a + b - b) == q && Pow2(a + b - (a + b)) == 1 && Pow2(b - b) == 1
  {
    hide IsPow2, Log2;
    Pow2Add(Log2(q), Log2(l));
    Log2Pow2(Log2(q) + Log2(l));
  }

  lemma LevelRoot(gen: F, n: nat, i: nat)
    requires IsRoot(gen, Pow2(n)) && 0 < i <= n
    ensures var w := Pow(gen, Pow2(i - 1));
      && IsRoot(w, 2 * Pow2(n - i))
      && Mul(w, w) == Pow(gen, Pow2(i))
  {
    Pow2Monotone(n, i - 1);
    RootPower(gen, Pow2(n), i - 1);
    Pow2Quotient(n, i - 1);
    PowMul(gen, Pow2(i - 1), 2);
    PowFirst(Pow(gen, Pow2(i - 1)));
  }

  /** After level i + 1 there are 2^(i-b) blocks of 2^(a+b-i), transformed with root gen^(2^i). */
  ghost predicate LevelDone(y: Vec, x: Vec, gen: F, a: nat, b: nat, i: nat) {
    b <= i <= a + b && Transformed(y, x, Pow2(i - b), Pow2(a + b - i), Pow(gen, Pow2(i)))
  }

  lemma LevelsBegin(x: Vec, l: nat, gen: F)
    requires IsPow2(|x|) && IsPow2(l)
    ensures var a, b := Log2(|x|), Log2(l);
      && |x| * l == Pow2(a + b) && IsPow2(|x| * l) && Log2(|x| * l) == a + b
      && LevelDone(x, x, gen, a, b, a + b)
  {
    hide Transformed;
    DomainSize(|x|, l);
    TransformedStart(x, Pow(gen, |x| * l));
  }

  lemma LevelsEnd(y: Vec, x: Vec, l: nat, gen: F)
    requires IsPow2(|x|) && IsPow2(l) && LevelDone(y, x, gen, Log2(|x|), Log2(l), Log2(l))
    ensures y == BlockTransform(x, Pow(gen, l))
  {
    hide Transformed;
    DomainSize(|x|, l);
    TransformedEnd(y, x, Pow(gen, l));
  }

  method Fft1Level(px: array<F>, l: nat, gen: F, i: nat, ghost x: Vec, ghost a: nat, ghost b: nat)
    requires px.Length == Pow2(a) && l == Pow2(b) && b < i && IsRoot(gen, Pow2(a + b))
    requires LevelDone(px[..], x, gen, a, b, i)
    modifies px
    ensures LevelDone(px[..], x, gen, a, b, i - 1)
  {
    ghost var y := px[..];
    LevelSizes(a, b, i);
    LevelRoot(gen, a + b, i);
    Pow2Add(a, b);
    hide Pow2, Pow, Transformed, IsRoot;
    var polySize := px.Length * l / Pow2(i);
    var factorStride := Pow(gen, Pow2(i - 1));
    JoinBlocks(px, Pow2(i - 1) / l, polySize, factorStride);
    StepCorrect(x, y, px[..], Pow2(i - 1 - b), polySize, factorStride);
  }

  /** The levels from one number down to another. */
  method Fft1Levels(px: array<F>, l: nat, gen: F, from: nat, last: nat, ghost x: Vec, ghost a: nat)
    requires px.Length == Pow2(a) && l == Pow2(last) && from == a + last && IsRoot(gen, Pow2(from))
    requires LevelDone(px[..], x, gen, a, last, from)
    modifies px
    ensures LevelDone(px[..], x, gen, a, last, last)
  {
    hide *;
    var i := from;
    while last < i
      invariant last <= i && LevelDone(px[..], x, gen, a, last, i)
    {
      Fft1Level(px, l, gen, i, x, a, last);
      i := i - 1;
    }
  }

  /**
   * What each party does to its shares: the levels that stay within a slot.
   * l is the packing factor and gen the generator of the whole domain.
   */
  method Fft1InPlace(px: array<F>, l: nat, gen: F)
    requires IsPow2(px.Length) && IsPow2(l) && IsRoot(gen, px.Length * l)
    modifies px
    ensures px[..] == BlockTransform(old(px[..]), Pow(gen, l))
  {
    hide Pow2, IsPow2, Log2, Pow, LevelDone, IsRoot, BlockTransform;
    ghost var x := px[..];
    LevelsBegin(x, l, gen);
    Fft1Levels(px, l, gen, Log2(px.Length * l), Log2(l), x, Log2(px.Length));
    LevelsEnd(px[..], x, l, gen);
  }
}
