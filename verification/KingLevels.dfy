/**
 * KingLevels: the butterfly levels the king runs on the unpacked values.
 *
 * Row r of the king's vector holds entry r of every slot. At a level with c blocks, element k of
 * block j is at position k * c + j; a level joins the blocks in pairs, from one buffer to another.
 */
module KingLevels {
  import opened ScalarField
  import opened Polynomials
  import opened Indices
  import opened Fourier

  /** Element k of block j once the blocks have grown to b coefficients of a row. */
  function KingValue(x: Vec, q: nat, c: nat, b: nat, v: F, j: nat, k: nat): F
    requires 0 < q && |x| == q * (c * b) && j < c && IsPow2(b)
  {
    ShiftedAt(Unreversed(BlockAt(BlockAt(x, q, c * b, k % q), c, b, j)), v, k)
  }

  ghost predicate Strided(y: Vec, x: Vec, q: nat, c: nat, b: nat, v: F) {
    && 0 < q && IsPow2(b) && |x| == q * (c * b) && |y| == |x|
    && forall j: nat, k: nat :: j < c && k < b * q ==>
         At(k, c, j) < |y| && y[At(k, c, j)] == KingValue(x, q, c, b, v, j, k)
  }

  /** The butterflies of one level took y to z. */
  ghost predicate Step(y: Vec, z: Vec, c: nat, s: nat, w: F) {
    && |y| == |z| == 2 * (c * s)
    && forall j: nat, k: nat :: j < c && k < s ==> Joined(y, z, c, s, w, j, k)
  }

  ghost predicate Joined(y: Vec, z: Vec, c: nat, s: nat, w: F, j: nat, k: nat)
    requires |y| == |z| == 2 * (c * s)
  {
    var n := At(k, c, j);
    && n < c * s
    && z[n] == Add(y[2 * n], Mul(y[2 * n + 1], Pow(w, k + 1)))
    && z[n + c * s] == Sub(y[2 * n], Mul(y[2 * n + 1], Pow(w, k + 1)))
  }

  lemma StepIndices(c: nat, s: nat, j: nat, k: nat)
    ensures 2 * At(k, c, j) == At(k, 2 * c, 2 * j) && 2 * At(k, c, j) + 1 == At(k, 2 * c, 2 * j + 1)
    ensures At(k, c, j) + c * s == At(k + s, c, j)
  {
    assert k * (2 * c) == 2 * (k * c);
    assert (k + s) * c == k * c + c * s;
  }

  lemma StepEntry(x: Vec, y: Vec, z: Vec, q: nat, c: nat, b: nat, w: F, j: nat, k: nat)
    requires Strided(y, x, q, 2 * c, b, Mul(w, w)) && Step(y, z, c, b * q, w)
    requires IsRoot(w, 2 * (b * q)) && j < c && k < b * q && 2 * c * b == c * (2 * b)
    ensures At(k, c, j) < |z| && z[At(k, c, j)] == KingValue(x, q, c, 2 * b, w, j, k)
    ensures At(k + b * q, c, j) < |z| && z[At(k + b * q, c, j)] == KingValue(x, q, c, 2 * b, w, j, k + b * q)
  {
    hide At, Pow, BlockAt;
    var s := b * q;
    assert Joined(y, z, c, s, w, j, k);
    StepIndices(c, s, j, k);
    RemainderShift(k, b, q);
    var row := BlockAt(x, q, c * (2 * b), k % q);
    BlockHalves(row, c, b, j);
    ButterflyRoots(Unreversed(BlockAt(row, 2 * c, b, 2 * j)), Unreversed(BlockAt(row, 2 * c, b, 2 * j + 1)), w, s, k);
  }

  /** A level joins the strided blocks in pairs. */
  lemma StepCorrect(x: Vec, y: Vec, z: Vec, q: nat, c: nat, b: nat, w: F)
    requires Strided(y, x, q, 2 * c, b, Mul(w, w)) && Step(y, z, c, b * q, w) && IsRoot(w, 2 * (b * q))
    ensures Strided(z, x, q, c, 2 * b, w)
  {
    hide At, Step, Pow, KingValue, IsRoot;
    assert 2 * c * b == c * (2 * b) && 2 * b * q == 2 * (b * q);
    StepLength(y, z, c, b * q, w);
    StridedPower(y, x, q, c, b, Mul(w, w));
    forall j: nat, k: nat | j < c && k < 2 * b * q
      ensures At(k, c, j) < |z| && z[At(k, c, j)] == KingValue(x, q, c, 2 * b, w, j, k)
    {
      EitherEntry(x, y, z, q, c, b, w, j, k, b * q);
    }
  }

  lemma StepLength(y: Vec, z: Vec, c: nat, s: nat, w: F)
    requires Step(y, z, c, s, w)
    ensures |y| == |z|
  {
  }

  lemma StridedPower(y: Vec, x: Vec, q: nat, c: nat, b: nat, v: F)
    requires Strided(y, x, q, 2 * c, b, v)
    ensures IsPow2(2 * b)
  {
  }

  /** The entry of either half. */
  lemma EitherEntry(x: Vec, y: Vec, z: Vec, q: nat, c: nat, b: nat, w: F, j: nat, k: nat, s: nat)
    requires Strided(y, x, q, 2 * c, b, Mul(w, w)) && Step(y, z, c, b * q, w) && IsRoot(w, 2 * (b * q))
    requires s == b * q && j < c && k < 2 * s && 2 * c * b == c * (2 * b) && IsPow2(2 * b)
    ensures At(k, c, j) < |z| && z[At(k, c, j)] == KingValue(x, q, c, 2 * b, w, j, k)
  {
    hide At, Step, Pow, KingValue, IsRoot, IsPow2, Strided;
    if k < s {
      StepEntry(x, y, z, q, c, b, w, j, k);
    } else {
      StepEntry(x, y, z, q, c, b, w, j, k - s);
    }
  }

  // ----- the loops of one level

  ghost predicate Progress(y: Vec, z: Vec, c: nat, s: nat, w: F, k: nat, j: nat) {
    && |y| == |z| == 2 * (c * s)
    && forall j': nat, k': nat :: j' < c && k' < s && (k' < k || (k' == k && j' < j)) ==>
         Joined(y, z, c, s, w, j', k')
  }

  lemma ProgressStep(y: Vec, z: Vec, z': Vec, c: nat, s: nat, w: F, k: nat, j: nat)
    requires Progress(y, z, c, s, w, k, j) && j < c && k < s
    requires var n := At(k, c, j);
      && n < c * s
      && z' == z[n := Add(y[2 * n], Mul(y[2 * n + 1], Pow(w, k + 1)))]
                [n + c * s := Sub(y[2 * n], Mul(y[2 * n + 1], Pow(w, k + 1)))]
    ensures Progress(y, z', c, s, w, k, j + 1)
  {
    hide At, Pow, Add, Sub, Mul;
    forall j': nat, k': nat | j' < c && k' < s && (k' < k || (k' == k && j' < j + 1))
      ensures Joined(y, z', c, s, w, j', k')
    {
      if At(k', c, j') == At(k, c, j) {
        AtInjective(k', j', k, j, c);
      } else {
        assert Joined(y, z, c, s, w, j', k');
      }
    }
  }

  lemma JoinIndices(c: nat, s: nat, j: nat, k: nat)
    requires j < c && k < s
    ensures k * (2 * c) + 2 * j == 2 * At(k, c, j) && k * c + j == At(k, c, j) < c * s
    ensures (k + s) * c + j == At(k, c, j) + c * s
  {
    StepIndices(c, s, j, k);
    AtBound(k, s, c, j);
    assert s * c == c * s;
  }

  method JoinStrided(s1: array<F>, s2: array<F>, c: nat, s: nat, stride: F)
    requires s1 != s2 && s1.Length == s2.Length == 2 * (c * s)
    modifies s2
    ensures Step(s1[..], s2[..], c, s, stride)
  {
    ghost var y := s1[..];
    var factor := stride;
    PowFirst(stride);
    for k := 0 to s
      invariant s1[..] == y && factor == Pow(stride, k + 1)
      invariant Progress(y, s2[..], c, s, stride, k, 0)
    {
      for j := 0 to c
        invariant s1[..] == y && Progress(y, s2[..], c, s, stride, k, j)
      {
        ghost var z := s2[..];
        JoinIndices(c, s, j, k);
        var lo := s1[k * (2 * c) + 2 * j];
        var hi := Mul(s1[k * (2 * c) + 2 * j + 1], factor);
        s2[k * c + j] := Add(lo, hi);
        s2[(k + s) * c + j] := Sub(lo, hi);
        ProgressStep(y, z, s2[..], c, s, stride, k, j);
      }
      factor := Mul(factor, stride);
    }
  }

  // ----- all the levels of the king

  /** The row whose values enter output k: output k is a value at w^k, stored one row earlier. */
  function RowOf(q: nat, m: nat, k: nat): nat
    requires 0 < q
  {
    if k == 0 then q - 1 else (k - 1) % q
  }

  /** What fft2 makes of the king's vector: row by row, a polynomial is evaluated at every w^k. */
  function KingTransform(x: Vec, q: nat, l: nat, w: F): (r: Vec)
    requires 0 < q && |x| == q * l && IsPow2(l)
    ensures |r| == |x|
  {
    seq(|x|, k requires 0 <= k < |x| => KingEntry(x, q, l, w, k))
  }

  function KingEntry(x: Vec, q: nat, l: nat, w: F, k: nat): F
    requires 0 < q && |x| == q * l && IsPow2(l)
  {
    Eval(Unreversed(BlockAt(x, q, l, RowOf(q, |x|, k))), Pow(w, k))
  }

  ghost predicate LevelDone(y: Vec, x: Vec, gen: F, q: nat, b: nat, i: nat) {
    i <= b && Strided(y, x, q, Pow2(i), Pow2(b - i), Pow(gen, Pow2(i)))
  }

  lemma BeginEntry(x: Vec, q: nat, l: nat, v: F, j: nat, k: nat)
    requires |x| == q * l && j < l && k < q && l * 1 == l
    ensures At(k, l, j) < |x| && x[At(k, l, j)] == KingValue(x, q, l, 1, v, j, k)
  {
    AtInverse(0, q, k);
    var row := BlockAt(x, q, l, k);
    var cell := BlockAt(row, l, 1, j);
    BlockFits(q, l, k);
    BlockFits(l, 1, j);
    assert cell[0] == row[j] == x[At(k, l, j)];
    SingleValue(cell, v, k);
  }

  lemma LevelsBegin(x: Vec, gen: F, q: nat, b: nat)
    requires 0 < q && |x| == q * Pow2(b)
    ensures LevelDone(x, x, gen, q, b, b)
  {
    var l := Pow2(b);
    Pow2Zero();
    hide Pow2, KingValue;
    assert l * 1 == l;
    forall j: nat, k: nat | j < l && k < q
      ensures At(k, l, j) < |x| && x[At(k, l, j)] == KingValue(x, q, l, 1, Pow(gen, l), j, k)
    {
      BeginEntry(x, q, l, Pow(gen, l), j, k);
    }
  }

  lemma Pow2Zero()
    ensures Pow2(0) == 1
  {
  }

  lemma SingleValue(y: Vec, v: F, k: nat)
    requires |y| == 1
    ensures ShiftedAt(Unreversed(y), v, k) == y[0]
  {
    assert y == [y[0]] + [];
    EvalCons(y[0], [], Pow(v, k + 1));
    MulZero(Pow(v, k + 1));
    AddZero(y[0]);
  }

  /** With one block left, what remains is to move every value one place to the right. */
  lemma LevelsEnd(y: Vec, x: Vec, gen: F, q: nat, b: nat, k: nat)
    requires LevelDone(y, x, gen, q, b, 0) && |x| == q * Pow2(b) && k < |x|
    ensures |y| == |x| && IsPow2(Pow2(b))
    ensures y[k] == ShiftedAt(Unreversed(BlockAt(x, q, Pow2(b), k % q)), gen, k)
  {
    hide Pow, Pow2, IsPow2, ShiftedAt, Unreversed, KingValue;
    var l := Pow2(b);
    Pow2IsPow2(b);
    PowFirst(gen);
    Pow2Zero();
    assert At(k, 1, 0) == k && l * q == q * l == |x| && 1 * l == l;
    assert y[At(k, 1, 0)] == KingValue(x, q, 1, l, gen, 0, k);
    OneBlockLeft(x, q, l, gen, k);
  }

  lemma OneBlockLeft(x: Vec, q: nat, l: nat, gen: F, k: nat)
    requires |x| == q * l && IsPow2(l) && k < |x|
    ensures KingValue(x, q, 1, l, gen, 0, k) == ShiftedAt(Unreversed(BlockAt(x, q, l, k % q)), gen, k)
  {
    hide ShiftedAt, Unreversed, IsPow2;
    var row := BlockAt(x, q, l, k % q);
    BlockFits(1, l, 0);
    assert BlockAt(row, 1, l, 0) == row;
  }

  lemma LevelSizes(m: nat, q: nat, b: nat, i: nat)
    requires m == q * Pow2(b) && 0 < i <= b
    ensures m / Pow2(i) == Pow2(b - i) * q
    ensures Pow2(i) == 2 * Pow2(i - 1) && Pow2(b - (i - 1)) == 2 * Pow2(b - i)
    ensures m == 2 * (Pow2(i - 1) * (Pow2(b - i) * q))
  {
    Pow2Add(b - i, i);
    SizeProduct(q, Pow2(b - i), Pow2(i - 1));
    AtInverse(Pow2(b - i) * q, Pow2(i), 0);
  }

  lemma SizeProduct(q: nat, p: nat, r: nat)
    ensures q * (p * (2 * r)) == p * q * (2 * r) == 2 * (r * (p * q)) == 2 * (p * q) * r
  {
  }

  lemma LevelRoot(m: nat, s: nat, i: nat, gen: F)
    requires 0 < i && 0 < m == 2 * (Pow2(i - 1) * s) && IsRoot(gen, m)
    ensures var w := Pow(gen, Pow2(i - 1));
      IsRoot(w, 2 * s) && Mul(w, w) == Pow(gen, Pow2(i))
  {
    var r := Pow2(i - 1);
    assert m == 2 * s * r;
    AtLeast(2 * s, r);
    RootPower(gen, m, i - 1);
    AtInverse(2 * s, r, 0);
    PowMul(gen, r, 2);
    PowFirst(Pow(gen, r));
  }

  method RotateRight(a: array<F>)
    requires 0 < a.Length
    modifies a
    ensures forall k :: 0 <= k < a.Length ==> a[k] == if k == 0 then old(a[a.Length - 1]) else old(a[k - 1])
  {
    forall k | 0 <= k < a.Length {
      a[k] := if k == 0 then a[a.Length - 1] else a[k - 1];
    }
  }

  /** One level; the buffers change places, so the caller's vector is the one returned first. */
  method Fft2Level(s1: array<F>, s2: array<F>, gen: F, i: nat, ghost x: Vec, ghost q: nat, ghost b: nat)
    returns (r1: array<F>, r2: array<F>)
    requires s1 != s2 && s1.Length == s2.Length == q * Pow2(b) && 0 < i <= b && IsRoot(gen, s1.Length)
    requires LevelDone(s1[..], x, gen, q, b, i)
    modifies s2
    ensures r1 == s2 && r2 == s1 && LevelDone(r1[..], x, gen, q, b, i - 1)
  {
    ghost var y := s1[..];
    LevelSizes(s1.Length, q, b, i);
    LevelRoot(s1.Length, Pow2(b - i) * q, i, gen);
    hide Pow2, Pow, Strided, IsRoot;
    var polySize := s1.Length / Pow2(i);
    var factorStride := Pow(gen, Pow2(i - 1));
    JoinStrided(s1, s2, Pow2(i - 1), polySize, factorStride);
    StepCorrect(x, y, s2[..], q, Pow2(i - 1), Pow2(b - i), factorStride);
    r1, r2 := s2, s1;
  }

  lemma LastRow(q: nat, l: nat)
    requires 0 < q && 0 < l
    ensures (q * l - 1) % q == q - 1
  {
    RemainderShift(q - 1, l - 1, q);
    assert q * l - 1 == q - 1 + (l - 1) * q;
    AtInverse(0, q, q - 1);
  }

  lemma RotatedEntry(y: Vec, x: Vec, gen: F, q: nat, b: nat, k: nat)
    requires LevelDone(y, x, gen, q, b, 0) && |x| == q * Pow2(b) && IsRoot(gen, |x|) && k < |x|
    ensures |y| == |x| && IsPow2(Pow2(b))
    ensures (if k == 0 then y[|x| - 1] else y[k - 1]) == KingEntry(x, q, Pow2(b), gen, k)
  {
    RootOrder(gen, |x|);
    LastRow(q, Pow2(b));
    PowFirst(gen);
    hide Pow2, Pow, LevelDone;
    LevelsEnd(y, x, gen, q, b, if k == 0 then |x| - 1 else k - 1);
  }

  lemma RotatedAll(y: Vec, z: Vec, x: Vec, gen: F, q: nat, b: nat)
    requires LevelDone(y, x, gen, q, b, 0) && |x| == q * Pow2(b) && IsRoot(gen, |x|) && |z| == |y| == |x|
    requires forall k :: 0 <= k < |x| ==> z[k] == if k == 0 then y[|x| - 1] else y[k - 1]
    ensures IsPow2(Pow2(b)) && z == KingTransform(x, q, Pow2(b), gen)
  {
    Pow2IsPow2(b);
    hide Pow2, IsRoot, LevelDone, KingEntry;
    forall k | 0 <= k < |x|
      ensures z[k] == KingEntry(x, q, Pow2(b), gen, k)
    {
      RotatedEntry(y, x, gen, q, b, k);
    }
  }

  /** What the king does to the unpacked values: the levels across slots, then the rotation. */
  method Fft2InPlace(s1: array<F>, l: nat, gen: F, ghost q: nat) returns (out: array<F>)
    requires IsPow2(l) && 0 < q && s1.Length == q * l && IsRoot(gen, s1.Length)
    modifies s1
    ensures out == s1 || fresh(out)
    ensures out[..] == KingTransform(old(s1[..]), q, l, gen)
  {
    ghost var x := s1[..];
    ghost var b := Log2(l);
    hide Pow2, Log2, Pow, IsRoot, LevelDone, KingTransform;
    var s2 := new F[s1.Length](_ => ZERO);
    var i := Log2(l);
    LevelsBegin(x, gen, q, b);
    out := s1;
    while 0 < i
      invariant 0 <= i <= b
      invariant out != s2 && (out == s1 || fresh(out)) && (s2 == s1 || fresh(s2))
      invariant out.Length == s2.Length == s1.Length
      invariant LevelDone(out[..], x, gen, q, b, i)
    {
      out, s2 := Fft2Level(out, s2, gen, i, x, q, b);
      i := i - 1;
    }
    ghost var y := out[..];
    RotateRight(out);
    RotatedAll(y, out[..], x, gen, q, b);
  }
}
