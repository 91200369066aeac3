/**
 * Qap: from constraint matrices and an assignment to the three columns, and their packed shares.
 */
module Qap {
  import opened ScalarField
  import opened Polynomials
  import opened Indices
  import opened BitReversal
  import opened DistributedFft
  import opened Domains
  import opened InnerProducts
  import opened PackedSharing
  import opened SharedVectors
  import opened MpcFft
  import opened RootsOfUnity
  import opened Transforms
  import opened DegreeReduction
  import opened ExtWitness
  import opened LibsnarkWitness

  /** One linear combination: coefficients with the variables they multiply. */
  type Row = seq<(F, nat)>

  function EvaluateConstraint(row: Row, w: Vec): F
    requires forall k :: 0 <= k < |row| ==> row[k].1 < |w|
  {
    if row == [] then ZERO
    else Add(EvaluateConstraint(row[..|row| - 1], w), Mul(row[|row| - 1].0, w[row[|row| - 1].1]))
  }

  ghost predicate RowsFit(rows: seq<Row>, w: Vec) {
    forall i, k :: 0 <= i < |rows| && 0 <= k < |rows[i]| ==> rows[i][k].1 < |w|
  }

  datatype Matrices = Matrices(numInputs: nat, a: seq<Row>, b: seq<Row>, c: seq<Row>) {
    ghost predicate Fits(w: Vec) {
      |a| == |b| == |c| && numInputs <= |w| && RowsFit(a, w) && RowsFit(b, w) && RowsFit(c, w)
    }

    /** The assignment satisfies every constraint. */
    ghost predicate Holds(w: Vec)
      requires Fits(w)
    {
      forall i :: 0 <= i < |a| ==>
        Mul(EvaluateConstraint(a[i], w), EvaluateConstraint(b[i], w)) == EvaluateConstraint(c[i], w)
    }
  }

  function NextPow2(n: nat, from: nat): (r: nat)
    requires IsPow2(from)
    ensures IsPow2(r) && r >= n && r >= from
    ensures r == from || r < 2 * n
    decreases n - from
  {
    if n <= from then from else NextPow2(n, 2 * from)
  }

  datatype QapResult = PolynomialDegreeTooLarge | Columns(a: Vec, b: Vec, c: Vec)

  /** One value for every constraint, then the given values, then zeros. */
  ghost function Column(rows: seq<Row>, w: Vec, after: Vec, size: nat): (r: Vec)
    requires RowsFit(rows, w) && |rows| + |after| <= size
    ensures |r| == size
  {
    seq(size, i requires 0 <= i < size =>
      if i < |rows| then EvaluateConstraint(rows[i], w)
      else if i < |rows| + |after| then after[i - |rows|]
      else ZERO)
  }

  ghost function QapOf(m: Matrices, w: Vec, maxDomain: nat): QapResult
    requires m.Fits(w)
  {
    var size := NextPow2(|m.a| + m.numInputs, 1);
    if size > maxDomain then PolynomialDegreeTooLarge
    else
      var a, b := Column(m.a, w, w[..m.numInputs], size), Column(m.b, w, [], size);
      Columns(a, b, VMul(a, b))
  }

  /**
   * Evaluates every constraint of the first two matrices, appends the inputs to the first column and
   * multiplies the two columns into the third. The third matrix is not consulted.
   */
  method BuildQap(m: Matrices, w: Vec, maxDomain: nat) returns (r: QapResult)
    requires m.Fits(w)
    ensures r == QapOf(m, w, maxDomain)
  {
    var size := NextPow2(|m.a| + m.numInputs, 1);
    if size > maxDomain {
      return PolynomialDegreeTooLarge;
    }
    hide EvaluateConstraint, NextPow2, Mul, WithInputs;
    var nc := |m.a|;
    var a, b := Zeros(size), Zeros(size);
    for i := 0 to nc
      invariant |a| == |b| == size
      invariant forall k :: 0 <= k < i ==> a[k] == EvaluateConstraint(m.a[k], w) && b[k] == EvaluateConstraint(m.b[k], w)
      invariant forall k :: i <= k < size ==> a[k] == ZERO && b[k] == ZERO
    {
      a := a[i := EvaluateConstraint(m.a[i], w)];
      b := b[i := EvaluateConstraint(m.b[i], w)];
    }
    a := WithInputs(a, w, nc, m.numInputs);
    assert a == Column(m.a, w, w[..m.numInputs], size);
    assert b == Column(m.b, w, [], size);
    var c := MultiplyColumns(a, b, nc);
    r := Columns(a, b, c);
  }

  function WithInputs(a: Vec, w: Vec, start: nat, count: nat): (r: Vec)
    requires start + count <= |a| && count <= |w|
    ensures |r| == |a|
    ensures forall i :: 0 <= i < count ==> r[start + i] == w[i]
    ensures forall i :: 0 <= i < start || start + count <= i < |a| ==> r[i] == a[i]
  {
    a[..start] + w[..count] + a[start + count..]
  }

  /** The products of the first entries; the rest is zero, as the second column is there. */
  method MultiplyColumns(a: Vec, b: Vec, nc: nat) returns (c: Vec)
    requires |a| == |b| && nc <= |a| && forall k :: nc <= k < |b| ==> b[k] == ZERO
    ensures c == VMul(a, b)
  {
    c := Zeros(|a|);
    for i := 0 to nc
      invariant |c| == |a|
      invariant forall k :: 0 <= k < i ==> c[k] == Mul(a[k], b[k])
      invariant forall k :: i <= k < |a| ==> c[k] == ZERO
    {
      c := c[i := Mul(a[i], b[i])];
    }
    forall k | 0 <= k < |a|
      ensures c[k] == VMul(a, b)[k]
    {
      if k >= nc {
        MulZero(a[k]);
      }
    }
  }

  // ----- the columns entry by entry

  /**
   * The columns are refused exactly when the smallest power of two that holds all constraints and inputs
   * is too large; otherwise that is their length.
   */
  lemma QapSize(m: Matrices, w: Vec, maxDomain: nat)
    requires m.Fits(w)
    ensures var r, n := QapOf(m, w, maxDomain), |m.a| + m.numInputs;
      && (r.PolynomialDegreeTooLarge? <==> forall size :: IsPow2(size) && n <= size ==> maxDomain < size)
      && (r.Columns? ==>
           && IsPow2(|r.a|) && n <= |r.a| == |r.b| == |r.c|
           && forall size :: IsPow2(size) && n <= size ==> |r.a| <= size)
  {
    assert IsPow2(1);
    hide NextPow2, IsPow2, Column;
    SmallestPow2(|m.a| + m.numInputs, 1);
    TooLarge(|m.a| + m.numInputs, maxDomain);
  }

  /**
   * One value for every constraint; then the inputs in the first column; then zeros. The third column is
   * the product of the first two.
   */
  lemma QapEntries(m: Matrices, w: Vec, maxDomain: nat)
    requires m.Fits(w)
    ensures var r, n := QapOf(m, w, maxDomain), |m.a| + m.numInputs;
      r.Columns? ==>
        && n <= |r.a| == |r.b| == |r.c|
        && (forall i :: 0 <= i < |m.a| ==>
              r.a[i] == EvaluateConstraint(m.a[i], w) && r.b[i] == EvaluateConstraint(m.b[i], w))
        && (forall i :: 0 <= i < m.numInputs ==> r.a[|m.a| + i] == w[i])
        && (forall i :: n <= i < |r.a| ==> r.a[i] == ZERO)
        && (forall i :: |m.a| <= i < |r.b| ==> r.b[i] == ZERO)
        && (forall i :: 0 <= i < |r.c| ==> r.c[i] == Mul(r.a[i], r.b[i]))
  {
    hide NextPow2, EvaluateConstraint, Column, RowsFit;
    var size := NextPow2(|m.a| + m.numInputs, 1);
    if size <= maxDomain {
      ColumnEntries(m.a, w, w[..m.numInputs], size);
      ColumnEntries(m.b, w, [], size);
    }
  }

  lemma ColumnEntries(rows: seq<Row>, w: Vec, after: Vec, size: nat)
    requires RowsFit(rows, w) && |rows| + |after| <= size
    ensures var v := Column(rows, w, after, size);
      && (forall i :: 0 <= i < |rows| ==> v[i] == EvaluateConstraint(rows[i], w))
      && (forall i :: 0 <= i < |after| ==> v[|rows| + i] == after[i])
      && (forall i :: |rows| + |after| <= i < size ==> v[i] == ZERO)
  {
    hide EvaluateConstraint;
  }

  lemma TooLarge(n: nat, maxDomain: nat)
    ensures maxDomain < NextPow2(n, 1) <==> forall size :: IsPow2(size) && n <= size ==> maxDomain < size
  {
    SmallestPow2(n, 1);
    Above(NextPow2(n, 1), n, maxDomain);
  }

  lemma Above(least: nat, n: nat, bound: nat)
    requires IsPow2(least) && n <= least && forall size :: IsPow2(size) && n <= size ==> least <= size
    ensures bound < least <==> forall size :: IsPow2(size) && n <= size ==> bound < size
  {
    hide IsPow2;
  }

  lemma SmallestPow2(n: nat, from: nat)
    requires IsPow2(from)
    ensures var r := NextPow2(n, from);
      IsPow2(r) && n <= r && forall size :: IsPow2(size) && n <= size && from <= size ==> r <= size
    ensures forall size :: IsPow2(size) ==> 1 <= size
  {
    hide IsPow2, NextPow2;
    forall size: nat | IsPow2(size)
      ensures 1 <= size && (n <= size && from <= size ==> NextPow2(n, from) <= size)
    {
      PositivePow2(size);
      if n <= size && from <= size {
        NotAbove(n, from, size);
      }
    }
  }

  lemma PositivePow2(n: nat)
    requires IsPow2(n)
    ensures 1 <= n && IsPow2(2 * n)
  {
  }

  lemma {:induction false} NotAbove(n: nat, from: nat, size: nat)
    requires IsPow2(from) && IsPow2(size) && n <= size && from <= size
    ensures NextPow2(n, from) <= size
    decreases n - from
  {
    hide IsPow2;
    if from < n {
      PositivePow2(from);
      Pow2Gap(from, size);
      NotAbove(n, 2 * from, size);
    }
  }

  lemma {:induction false} Pow2Gap(m: nat, n: nat)
    requires IsPow2(m) && IsPow2(n) && m < n
    ensures 2 * m <= n
    decreases n
  {
    if m != 1 {
      Pow2Gap(m / 2, n / 2);
    }
  }

  /** So the first interpolant takes the inputs as values after the constraints, and the second vanishes there. */
  lemma InputsInterpolated(m: Matrices, w: Vec, s: Size, i: nat)
    requires m.Fits(w) && NextPow2(|m.a| + m.numInputs, 1) == s.q * s.l && s.Valid() && OddCharacteristic()
    requires i < m.numInputs
    ensures var r, z := QapOf(m, w, s.q * s.l), Pow(s.gen, |m.a| + i);
      r.Columns? && Eval(Ifft(Roots(s), r.a), z) == w[i] && Eval(Ifft(Roots(s), r.b), z) == ZERO
  {
    hide QapOf, Ifft, Eval, NextPow2;
    QapEntries(m, w, s.q * s.l);
    QapFits(m, w, s.q * s.l);
    var r := QapOf(m, w, s.q * s.l);
    InterpolantAt(s, r.a, |m.a| + i);
    InterpolantAt(s, r.b, |m.a| + i);
  }

  lemma QapFits(m: Matrices, w: Vec, size: nat)
    requires m.Fits(w) && NextPow2(|m.a| + m.numInputs, 1) == size
    ensures var r := QapOf(m, w, size); r.Columns? && |r.a| == |r.b| == |r.c| == size
  {
    hide NextPow2;
  }

  lemma InterpolantAt(s: Size, v: Vec, k: nat)
    requires s.Valid() && OddCharacteristic() && |v| == s.q * s.l && k < |v|
    ensures Eval(Ifft(Roots(s), v), Pow(s.gen, k)) == v[k]
  {
    hide Ifft, Eval;
    var d := Roots(s);
    OneIsNotZero();
    FftIfft(d, v);
    ResizeSame(Ifft(d, v));
    MulOne(Pow(s.gen, k));
    assert Fft(d, Ifft(d, v))[k] == Eval(Resize(Ifft(d, v), d.size), d.Element(k));
  }

  /** Whatever the matrices and the assignment, the columns have an exact quotient. */
  lemma QapAlwaysDivides(m: Matrices, w: Vec, s: Size, g: F)
    requires m.Fits(w) && NextPow2(|m.a| + m.numInputs, 1) == s.q * s.l
    requires s.Valid() && OddCharacteristic() && g != ZERO && Vanishing(s.q * s.l, g) != ZERO
    ensures var r := QapOf(m, w, s.q * s.l);
      r.Columns? && IsQuotient(r.a, r.b, r.c, s, LibsnarkRef(r.a, r.b, r.c, Roots(s), g))
  {
    hide IsQuotient, LibsnarkRef, Column;
    var r := QapOf(m, w, s.q * s.l);
    LibsnarkQuotient(r.a, r.b, r.c, s, g);
  }

  lemma HoldsIsSatisfied(m: Matrices, w: Vec, size: nat)
    requires m.Fits(w) && |m.a| + m.numInputs <= size
    ensures Satisfied(Column(m.a, w, w[..m.numInputs], size), Column(m.b, w, [], size), Column(m.c, w, [], size))
       <==> m.Holds(w)
  {
    hide EvaluateConstraint, Mul;
    var a, b, c := Column(m.a, w, w[..m.numInputs], size), Column(m.b, w, [], size), Column(m.c, w, [], size);
    forall k | |m.a| <= k < size
      ensures Mul(a[k], b[k]) == c[k]
    {
      MulZero(a[k]);
    }
    forall i | 0 <= i < |m.a|
      ensures a[i] == EvaluateConstraint(m.a[i], w) && b[i] == EvaluateConstraint(m.b[i], w)
      ensures c[i] == EvaluateConstraint(m.c[i], w)
    {
    }
  }

  /** With the third column taken from the third matrix there would be one exactly for the satisfying assignments. */
  lemma ThirdMatrixDecides(m: Matrices, w: Vec, s: Size, g: F)
    requires m.Fits(w) && NextPow2(|m.a| + m.numInputs, 1) == s.q * s.l
    requires s.Valid() && OddCharacteristic() && g != ZERO && Vanishing(s.q * s.l, g) != ZERO
    ensures var r, c := QapOf(m, w, s.q * s.l), Column(m.c, w, [], s.q * s.l);
      r.Columns? && (IsQuotient(r.a, r.b, c, s, LibsnarkRef(r.a, r.b, c, Roots(s), g)) <==> m.Holds(w))
  {
    hide IsQuotient, LibsnarkRef, Column, RowsFit, Satisfied;
    var r, c := QapOf(m, w, s.q * s.l), Column(m.c, w, [], s.q * s.l);
    LibsnarkQuotient(r.a, r.b, c, s, g);
    HoldsIsSatisfied(m, w, s.q * s.l);
  }

  /** The constraint 1 * 1 == 0, which no assignment with a leading one satisfies. */
  function Contradiction(): Matrices {
    Matrices(1, [[(ONE, 0)]], [[(ONE, 0)]], [[]])
  }

  /** A violated constraint, and still an exact quotient. */
  lemma ViolatedStillDivides(s: Size, g: F)
    requires s.Valid() && s.q * s.l == 2 && OddCharacteristic() && g != ZERO && Vanishing(2, g) != ZERO
    ensures Contradiction().Fits([ONE]) && !Contradiction().Holds([ONE])
    ensures var r := QapOf(Contradiction(), [ONE], 2);
      r.Columns? && IsQuotient(r.a, r.b, r.c, s, LibsnarkRef(r.a, r.b, r.c, Roots(s), g))
  {
    hide IsQuotient, LibsnarkRef, Column;
    var m, w := Contradiction(), [ONE];
    EvaluateOne(w);
    assert !m.Holds(w) by {
      assert Mul(EvaluateConstraint(m.a[0], w), EvaluateConstraint(m.b[0], w)) == ONE;
    }
    assert NextPow2(2, 1) == 2;
    QapAlwaysDivides(m, w, s, g);
  }

  lemma EvaluateOne(w: Vec)
    requires w == [ONE]
    ensures EvaluateConstraint([(ONE, 0)], w) == ONE && EvaluateConstraint([], w) == ZERO
    ensures Mul(ONE, ONE) == ONE && ONE != ZERO
  {
    OneIsNotZero();
    MulOne(ONE);
    AddZero(ONE);
    assert [(ONE, 0)][..0] == [];
  }

  /** Packs one column: bit-reversed, then every l entries a stride apart, and handed out by party. */
  method PssColumn(pp: Params, s: Size, x: Vec, rands: seq<Vec>) returns (shares: seq<Vec>)
    requires pp.Valid() && s.Valid() && s.l == pp.l && |x| == s.q * s.l && Randomness(pp, rands, s.q)
    ensures shares == Pss(pp, s, x, rands)
  {
    hide BitReversed, IsPow2, Pack;
    var array1 := new F[|x|](i requires 0 <= i < |x| => x[i]);
    assert array1[..] == x;
    FftInPlaceRearrange(array1);
    var y := array1[..];
    var pevals: seq<Vec> := [];
    var rows := StridedRows(y, s.q, s.l);
    for i := 0 to s.q
      invariant |pevals| == i && forall e :: 0 <= e < i ==> pevals[e] == Pack(pp, rows[e], rands[e])
    {
      pevals := pevals + [Pack(pp, rows[i], rands[i])];
    }
    shares := [];
    for i := 0 to pp.n
      invariant |shares| == i
      invariant forall j :: 0 <= j < i ==> shares[j] == Pss(pp, s, x, rands)[j]
    {
      var share := seq(s.q, e requires 0 <= e < s.q => pevals[e][i]);
      shares := shares + [share];
    }
  }
}
