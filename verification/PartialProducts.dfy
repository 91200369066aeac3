/** PartialProducts: running products of fractions, computed by the king between two packings. */
module PartialProducts {
  import opened ScalarField
  import opened Polynomials
  import opened Indices
  import opened Fourier
  import opened DistributedFft
  import opened Domains
  import opened PackedSharing
  import opened SharedVectors
  import opened Linearity
  import opened DegreeReduction
  import opened MpcFft
  import opened ExtWitness

  function Product(v: Vec): F {
    if v == [] then ONE else Mul(v[|v| - 1], Product(v[..|v| - 1]))
  }

  function Ratios(num: Vec, den: Vec): (r: Vec)
    requires |num| == |den|
    ensures |r| == |num|
  {
    seq(|num|, i requires 0 <= i < |num| => Mul(num[i], Inv(den[i])))
  }

  /** Entry i is the product of entries 0 to i. */
  function RunningProducts(v: Vec): (r: Vec)
    ensures |r| == |v|
  {
    seq(|v|, i requires 0 <= i < |v| => Product(v[..i + 1]))
  }

  ghost predicate NonZero(v: Vec) {
    forall i :: 0 <= i < |v| ==> v[i] != ZERO
  }

  /** The king's loops, on the numerators followed by the denominators. */
  method KingProducts(num: Vec, den: Vec) returns (r: Vec)
    requires |num| == |den| && NonZero(den)
    ensures r == RunningProducts(Ratios(num, den))
  {
    var all := num + den;
    var h := |all| / 2;
    var numden := new F[|all|](i requires 0 <= i < |all| => all[i]);
    for i := 0 to h
      invariant forall k :: 0 <= k < i ==> numden[k] == Ratios(num, den)[k]
      invariant forall k :: i <= k < |all| ==> numden[k] == all[k]
    {
      var d := Inv(numden[i + h]);
      numden[i] := Mul(numden[i], d);
    }
    assert numden[..h] == Ratios(num, den);
    r := RunInPlace(numden, h);
  }

  /** Truncates to the first n entries and multiplies every entry by the one before. */
  method RunInPlace(a: array<F>, n: nat) returns (r: Vec)
    requires n <= a.Length
    modifies a
    ensures r == RunningProducts(old(a[..n]))
  {
    ghost var v := a[..n];
    var i := 1;
    SingleProduct(v);
    while i < n
      invariant 1 <= i && (n <= i ==> i == 1 || i == n)
      invariant forall k :: 0 <= k < i && k < n ==> a[k] == Product(v[..k + 1])
      invariant forall k :: i <= k < n ==> a[k] == v[k]
    {
      assert v[..i + 1][..i] == v[..i];
      a[i] := Mul(a[i], a[i - 1]);
      i := i + 1;
    }
    r := a[..n];
  }

  lemma SingleProduct(v: Vec)
    ensures v != [] ==> Product(v[..1]) == v[0]
  {
    if v != [] {
      MulOne(v[0]);
      assert v[..1][..0] == [];
      assert Product([]) == ONE;
    }
  }

  // ----- the protocol

  /** The king's answer; s is the blinding factor of both inputs. */
  function Answer(pp: Params, rows: seq<Vec>, q: nat): (r: Vec)
    requires |rows| == 2 * q && forall e :: 0 <= e < |rows| ==> |rows[e]| == pp.l
    ensures |r| == q * pp.l
  {
    RunningProducts(Ratios(Concat(rows[..q], pp.l), Concat(rows[q..], pp.l)))
  }

  function Joined(a: seq<Vec>, b: seq<Vec>): (r: seq<Vec>)
    requires |a| == |b|
    ensures |r| == |a| && forall i :: 0 <= i < |a| ==> |r[i]| == |a[i]| + |b[i]|
  {
    seq(|a|, i requires 0 <= i < |a| => a[i] + b[i])
  }

  function Dpp(pp: Params, num: seq<Vec>, den: seq<Vec>, q: nat, s: F, parties: seq<nat>, rands: seq<Vec>,
               red: Reduction): (r: seq<Vec>)
    requires pp.Valid() && Shaped(pp, num, q) && Shaped(pp, den, q) && |rands| == q && red.Valid(pp, q)
    requires Heard(pp, parties)
    ensures Shaped(pp, r, q)
  {
    var sent := Joined(MapScale(s, num), MapScale(s, den));
    var rows := Recover(pp, Received(sent, parties), parties, 2 * q);
    var packed := Deal(pp, Chunks(Answer(pp, rows, q), q, pp.l), rands);
    Reduce(pp, MapScale(Inv(s), packed), q, red)
  }

  lemma JoinedRepresents(pp: Params, a: seq<Vec>, b: seq<Vec>, ra: seq<Vec>, rb: seq<Vec>, size: nat)
    requires Represents(pp, a, ra, size) && Represents(pp, b, rb, size)
    ensures |a| == |b|
    ensures Represents(pp, Joined(a, b), ra + rb, size)
  {
    hide ValuesAt, SecretRows;
    var ps :| Sharing(pp, a, ps, size) && SecretRows(pp, ps) == ra;
    var qs :| Sharing(pp, b, qs, size) && SecretRows(pp, qs) == rb;
    forall i | 0 <= i < pp.n
      ensures Joined(a, b)[i] == ValuesAt(ps + qs, pp.share.Element(i))
    {
      ValuesConcat(pp, ps, qs, pp.share.Element(i));
    }
    assert Sharing(pp, Joined(a, b), ps + qs, size);
    ValuesConcat(pp, ps, qs, ZERO);
  }

  lemma ValuesConcat(pp: Params, ps: seq<Vec>, qs: seq<Vec>, x: F)
    ensures ValuesAt(ps + qs, x) == ValuesAt(ps, x) + ValuesAt(qs, x)
    ensures SecretRows(pp, ps + qs) == SecretRows(pp, ps) + SecretRows(pp, qs)
  {
  }

  lemma ChunksScale(c: F, v: Vec, q: nat, l: nat)
    requires |v| == q * l
    ensures Chunks(VScale(c, v), q, l) == MapScale(c, Chunks(v, q, l))
  {
    forall e | 0 <= e < q
      ensures BlockAt(VScale(c, v), q, l, e) == VScale(c, BlockAt(v, q, l, e))
    {
      BlockFits(q, l, e);
    }
  }

  /** Every product times its denominator is the product before times the numerator, and nothing else is. */
  ghost predicate Recurs(z: Vec, num: Vec, den: Vec) {
    && |z| == |num| == |den|
    && (z != [] ==> Mul(z[0], den[0]) == num[0])
    && forall i :: 0 < i < |z| ==> Mul(z[i], den[i]) == Mul(z[i - 1], num[i])
  }

  lemma RunningProductsRecur(num: Vec, den: Vec)
    requires |num| == |den| && NonZero(den)
    ensures Recurs(RunningProducts(Ratios(num, den)), num, den)
  {
    var v := Ratios(num, den);
    var z := RunningProducts(v);
    SingleProduct(v);
    forall i | 0 <= i < |v|
      ensures i == 0 ==> Mul(z[i], den[i]) == num[i]
      ensures 0 < i ==> Mul(z[i], den[i]) == Mul(z[i - 1], num[i])
    {
      MulInv(den[i]);
      MulAssoc(num[i], Inv(den[i]), den[i]);
      MulOne(num[i]);
      if i > 0 {
        ProductNext(v, i);
        MulComm(v[i], z[i - 1]);
        MulAssoc(z[i - 1], v[i], den[i]);
      }
    }
  }

  lemma ProductNext(v: Vec, i: nat)
    requires 0 < i < |v|
    ensures RunningProducts(v)[i] == Mul(v[i], RunningProducts(v)[i - 1])
  {
    assert v[..i + 1][..i] == v[..i] && v[..i + 1][i] == v[i];
  }

  lemma RecursPrefix(z: Vec, num: Vec, den: Vec, n: nat)
    requires Recurs(z, num, den) && NonZero(den) && n <= |z|
    ensures Recurs(z[..n], num[..n], den[..n]) && NonZero(den[..n])
  {
    assert forall i :: 0 <= i < n ==> den[..n][i] == den[i];
  }

  lemma {:induction false} RecurrenceIsUnique(z: Vec, y: Vec, num: Vec, den: Vec)
    requires Recurs(z, num, den) && Recurs(y, num, den) && NonZero(den)
    ensures z == y
    decreases |z|
  {
    if z != [] {
      var n := |z| - 1;
      RecursPrefix(z, num, den, n);
      RecursPrefix(y, num, den, n);
      RecurrenceIsUnique(z[..n], y[..n], num[..n], den[..n]);
      if n > 0 {
        assert z[..n][n - 1] == y[..n][n - 1];
      }
      MulCancel(z[n], y[n], den[n]);
      assert z == z[..n] + [z[n]] && y == y[..n] + [y[n]];
    }
  }

  /** The blinding cancels in every fraction. */
  lemma RatiosScale(s: F, num: Vec, den: Vec)
    requires s != ZERO && |num| == |den| && NonZero(den)
    ensures Ratios(VScale(s, num), VScale(s, den)) == Ratios(num, den)
  {
    forall i | 0 <= i < |num|
      ensures Mul(Mul(s, num[i]), Inv(Mul(s, den[i]))) == Mul(num[i], Inv(den[i]))
    {
      var d := den[i];
      MulInv(s);
      MulInv(d);
      MulSwap(s, d, Inv(s), Inv(d));
      MulOne(ONE);
      InvUnique(Mul(s, d), Mul(Inv(s), Inv(d)));
      MulSwap(s, num[i], Inv(s), Inv(d));
      MulOne(Mul(num[i], Inv(d)));
    }
  }

  /**
   * The parties end with fresh sharings of the running products divided by s: the final division
   * takes off a factor that had already cancelled.
   */
  lemma DppScaled(pp: Params, num: seq<Vec>, den: seq<Vec>, x: Vec, y: Vec, q: nat, s: F,
                  parties: seq<nat>, rands: seq<Vec>, red: Reduction)
    requires pp.Valid() && s != ZERO && |x| == |y| == q * pp.l && NonZero(y)
    requires Represents(pp, num, Chunks(x, q, pp.l), pp.ProductSize())
    requires Represents(pp, den, Chunks(y, q, pp.l), pp.ProductSize())
    requires Heard(pp, parties) && pp.ProductSize() <= |parties| && Randomness(pp, rands, q) && red.Valid(pp, q)
    ensures Shaped(pp, num, q) && Shaped(pp, den, q)
    ensures Represents(pp, Dpp(pp, num, den, q, s, parties, rands, red),
                       Chunks(VScale(Inv(s), RunningProducts(Ratios(x, y))), q, pp.l), pp.l + pp.t)
  {
    hide Represents, Chunks, Deal, Recover, RunningProducts, Ratios, DegRed, Concat;
    var size, l := pp.ProductSize(), pp.l;
    RepresentsShape(pp, num, Chunks(x, q, l), size);
    RepresentsShape(pp, den, Chunks(y, q, l), size);
    ScaleRepresents(pp, s, num, Chunks(x, q, l), size);
    ScaleRepresents(pp, s, den, Chunks(y, q, l), size);
    ChunksScale(s, x, q, l);
    ChunksScale(s, y, q, l);
    var cx, cy := Chunks(VScale(s, x), q, l), Chunks(VScale(s, y), q, l);
    JoinedRepresents(pp, MapScale(s, num), MapScale(s, den), cx, cy, size);
    RecoverRows(pp, Joined(MapScale(s, num), MapScale(s, den)), cx + cy, parties);
    assert (cx + cy)[..q] == cx && (cx + cy)[q..] == cy;
    ConcatChunks(VScale(s, x), q, l);
    ConcatChunks(VScale(s, y), q, l);
    RatiosScale(s, x, y);
    var products := RunningProducts(Ratios(x, y));
    DealRepresents(pp, Chunks(products, q, l), rands);
    var packed := Deal(pp, Chunks(products, q, l), rands);
    ScaleRepresents(pp, Inv(s), packed, Chunks(products, q, l), l + pp.t);
    ChunksScale(Inv(s), products, q, l);
    var rows := Chunks(VScale(Inv(s), products), q, l);
    RepresentsWeaken(pp, MapScale(Inv(s), packed), rows, l + pp.t, size);
    DegRedCorrect(pp, MapScale(Inv(s), packed), rows, red.values, red.inRands, red.outRands, red.parties, red.rands);
  }

  /** So any other blinding factor would spoil the outcome, unless every product is zero. */
  lemma BlindingExact(s: F, v: Vec)
    requires s != ZERO
    ensures VScale(Inv(s), v) == v <==> s == ONE || IsZero(v)
  {
    if VScale(Inv(s), v) == v && !IsZero(v) {
      var i :| 0 <= i < |v| && v[i] != ZERO;
      assert VScale(Inv(s), v)[i] == Mul(Inv(s), v[i]);
      MulOne(v[i]);
      MulCancel(Inv(s), ONE, v[i]);
      MulInv(s);
      MulOne(s);
    }
    forall i | 0 <= i < |v|
      ensures (s == ONE || v[i] == ZERO) ==> Mul(Inv(s), v[i]) == v[i]
    {
      MulZero(Inv(s));
      MulOne(ONE);
      InvUnique(ONE, ONE);
      MulOne(v[i]);
    }
  }

  /** With the constant the code uses for s the outcome is the running products themselves. */
  lemma DppCorrect(pp: Params, num: seq<Vec>, den: seq<Vec>, x: Vec, y: Vec, q: nat,
                   parties: seq<nat>, rands: seq<Vec>, red: Reduction)
    requires pp.Valid() && |x| == |y| == q * pp.l && NonZero(y)
    requires Represents(pp, num, Chunks(x, q, pp.l), pp.ProductSize())
    requires Represents(pp, den, Chunks(y, q, pp.l), pp.ProductSize())
    requires Heard(pp, parties) && pp.ProductSize() <= |parties| && Randomness(pp, rands, q) && red.Valid(pp, q)
    ensures Shaped(pp, num, q) && Shaped(pp, den, q)
    ensures Represents(pp, Dpp(pp, num, den, q, ONE, parties, rands, red),
                       Chunks(RunningProducts(Ratios(x, y)), q, pp.l), pp.l + pp.t)
  {
    hide Represents, Chunks, Dpp, Ratios;
    OneIsNotZero();
    DppScaled(pp, num, den, x, y, q, ONE, parties, rands, red);
    MulOne(ONE);
    InvUnique(ONE, ONE);
    var v := RunningProducts(Ratios(x, y));
    forall i | 0 <= i < |v|
      ensures Mul(ONE, v[i]) == v[i]
    {
      MulOne(v[i]);
    }
    assert VScale(ONE, v) == v;
  }

  /** So whatever the parties end with sharings of is the one vector that meets the recurrence. */
  lemma DppRecurs(pp: Params, num: seq<Vec>, den: seq<Vec>, x: Vec, y: Vec, q: nat,
                  parties: seq<nat>, rands: seq<Vec>, red: Reduction) returns (z: Vec)
    requires pp.Valid() && |x| == |y| == q * pp.l && NonZero(y)
    requires Represents(pp, num, Chunks(x, q, pp.l), pp.ProductSize())
    requires Represents(pp, den, Chunks(y, q, pp.l), pp.ProductSize())
    requires Heard(pp, parties) && pp.ProductSize() <= |parties| && Randomness(pp, rands, q) && red.Valid(pp, q)
    ensures Shaped(pp, num, q) && Shaped(pp, den, q)
    ensures Recurs(z, x, y)
    ensures Represents(pp, Dpp(pp, num, den, q, ONE, parties, rands, red), Chunks(z, q, pp.l), pp.l + pp.t)
    ensures forall other :: Recurs(other, x, y) ==> other == z
  {
    hide Represents, Chunks, Dpp, Ratios, RunningProducts, Recurs;
    DppCorrect(pp, num, den, x, y, q, parties, rands, red);
    z := RunningProducts(Ratios(x, y));
    RunningProductsRecur(x, y);
    forall other | Recurs(other, x, y)
      ensures other == z
    {
      RecurrenceIsUnique(other, z, x, y);
    }
  }
}
