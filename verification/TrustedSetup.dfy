/**
 * TrustedSetup: proving and verifying keys as the set-up of the library makes them from a trapdoor, and
 * what the products of a prover with such keys amount to.
 */
module TrustedSetup {
  import opened ScalarField
  import opened Polynomials
  import opened Indices
  import opened Fourier
  import opened RootsOfUnity
  import opened Domains
  import opened InnerProducts
  import opened MpcFft
  import opened Transforms
  import opened ExtWitness
  import opened LibsnarkWitness
  import opened Qap
  import opened EvaluationWeights
  import opened Groth16Shares
  import opened DistributedProof
  import opened AggregateVerifier
  import opened Groth16Equation
  import opened ProofValidity

  datatype Trapdoor = Trapdoor(alpha: F, beta: F, gamma: F, delta: F, tau: F)

  // ----- rows as vectors

  /** The coefficients of a variable in a row, added up. */
  function Coefficient(row: Row, j: nat): F {
    if row == [] then ZERO
    else
      var (c, k) := row[|row| - 1];
      Add(Coefficient(row[..|row| - 1], j), if k == j then c else ZERO)
  }

  function Dense(row: Row, n: nat): (r: Vec)
    ensures |r| == n
  {
    seq(n, j requires 0 <= j < n => Coefficient(row, j))
  }

  function Unit(n: nat, k: nat): (r: Vec)
    ensures |r| == n
  {
    seq(n, j requires 0 <= j < n => if j == k then ONE else ZERO)
  }

  lemma {:induction false} UnitInner(w: Vec, k: nat)
    ensures InnerProduct(Unit(|w|, k), w) == if k < |w| then w[k] else ZERO
    decreases |w|
  {
    hide InnerProduct;
    if w == [] {
      InnerEmpty(Unit(0, k), w);
    } else {
      var n := |w| - 1;
      UnitInner(w[..n], k);
      assert Unit(|w|, k)[..n] == Unit(n, k);
      InnerLast(Unit(|w|, k), w);
      MulOne(w[n]);
      MulZero(w[n]);
      AddZero(w[n]);
      AddZero(InnerProduct(Unit(n, k), w[..n]));
    }
  }

  lemma DenseNext(row: Row, n: nat)
    requires row != []
    ensures var (c, k) := row[|row| - 1];
      Dense(row, n) == VAdd(Dense(row[..|row| - 1], n), VScale(c, Unit(n, k)))
  {
    var (c, k) := row[|row| - 1];
    MulOne(c);
    MulZero(c);
  }

  ghost predicate RowFits(row: Row, w: Vec) {
    forall k :: 0 <= k < |row| ==> row[k].1 < |w|
  }

  /** Evaluating a constraint is the inner product of its row with the assignment. */
  lemma {:induction false} EvaluateIsProduct(row: Row, w: Vec)
    requires RowFits(row, w)
    ensures EvaluateConstraint(row, w) == InnerProduct(Dense(row, |w|), w)
    decreases |row|
  {
    hide InnerProduct;
    if row == [] {
      assert Dense(row, |w|) == Zeros(|w|);
      InnerZeros(w);
    } else {
      var (c, k) := row[|row| - 1];
      var init := row[..|row| - 1];
      EvaluateIsProduct(init, w);
      DenseNext(row, |w|);
      InnerAdd(Dense(init, |w|), VScale(c, Unit(|w|, k)), w);
      InnerScale(c, Unit(|w|, k), w);
      UnitInner(w, k);
    }
  }

  // ----- one value for every variable

  /** For every variable, the sum of its coefficients weighted by row. */
  function Spread(rows: seq<Row>, weights: Vec, n: nat): (r: Vec)
    requires |rows| == |weights|
    ensures |r| == n
  {
    if rows == [] then Zeros(n)
    else
      var k := |rows| - 1;
      VAdd(Spread(rows[..k], weights[..k], n), VScale(weights[k], Dense(rows[k], n)))
  }

  function Evaluations(rows: seq<Row>, w: Vec): (r: Vec)
    requires RowsFit(rows, w)
    ensures |r| == |rows|
  {
    seq(|rows|, i requires 0 <= i < |rows| => EvaluateConstraint(rows[i], w))
  }

  /** Summing over the variables first or over the rows first agrees. */
  lemma {:induction false} SpreadInner(rows: seq<Row>, weights: Vec, w: Vec)
    requires |rows| == |weights| && RowsFit(rows, w)
    ensures InnerProduct(Spread(rows, weights, |w|), w) == InnerProduct(weights, Evaluations(rows, w))
    decreases |rows|
  {
    hide InnerProduct, EvaluateConstraint, Dense;
    if rows == [] {
      InnerZeros(w);
      InnerEmpty(weights, Evaluations(rows, w));
    } else {
      var k := |rows| - 1;
      SpreadInner(rows[..k], weights[..k], w);
      InnerAdd(Spread(rows[..k], weights[..k], |w|), VScale(weights[k], Dense(rows[k], |w|)), w);
      InnerScale(weights[k], Dense(rows[k], |w|), w);
      EvaluateIsProduct(rows[k], w);
      InnerLast(weights, Evaluations(rows, w));
      assert Evaluations(rows, w)[..k] == Evaluations(rows[..k], w);
    }
  }

  // ----- the keys

  ghost predicate Fitting(m: Matrices, w: Vec, s: Size) {
    && m.Fits(w) && 0 < m.numInputs && s.Valid() && OddCharacteristic()
    && NextPow2(|m.a| + m.numInputs, 1) == s.q * s.l
  }

  lemma FittingSize(m: Matrices, w: Vec, s: Size)
    requires Fitting(m, w, s)
    ensures |m.a| + m.numInputs <= s.q * s.l && m.numInputs <= |w| && |m.a| == |m.b| == |m.c|
  {
  }

  /** The columns of the first matrix at tau, with the inputs' own weights. */
  function AtA(m: Matrices, n: nat, weights: Vec): (r: Vec)
    requires |m.a| + m.numInputs <= |weights| && m.numInputs <= n
    ensures |r| == n
  {
    VAdd(Spread(m.a, weights[..|m.a|], n), Resize(weights[|m.a|..|m.a| + m.numInputs], n))
  }

  function AtB(m: Matrices, n: nat, weights: Vec): (r: Vec)
    requires |m.b| <= |weights|
    ensures |r| == n
  {
    Spread(m.b, weights[..|m.b|], n)
  }

  function AtC(m: Matrices, n: nat, weights: Vec): (r: Vec)
    requires |m.c| <= |weights|
    ensures |r| == n
  {
    Spread(m.c, weights[..|m.c|], n)
  }

  /** beta a + alpha b + c for every variable. */
  function Mixed(td: Trapdoor, a: Vec, b: Vec, c: Vec): (r: Vec)
    requires |a| == |b| == |c|
    ensures |r| == |a|
  {
    VAdd(VAdd(VScale(td.beta, a), VScale(td.alpha, b)), c)
  }

  datatype Keys = Keys(key: Groth16Shares.Key, queries: Queries, vk: VerifyingKey)

  function SetUp(m: Matrices, n: nat, s: Size, root: F, td: Trapdoor): Keys
    requires s.Valid() && s.q * s.l * 2 == Double(s, root).q * Double(s, root).l
    requires |m.a| == |m.b| == |m.c| && |m.a| + m.numInputs <= s.q * s.l && 0 < m.numInputs <= n
  {
    var weights := Weights(s, td.tau);
    var a, b, c := AtA(m, n, weights), AtB(m, n, weights), AtC(m, n, weights);
    var mixed := Mixed(td, a, b, c);
    Keys(
      Groth16Shares.Key(a[0], b[0], b[0], td.delta, td.alpha, td.beta),
      Queries(a[1..], b[1..], b[1..], VScale(Inv(td.delta), mixed[m.numInputs..]),
              VScale(Inv(td.delta), OddWeights(s, root, td.tau))),
      VerifyingKey(td.alpha, td.beta, td.gamma, td.delta, VScale(Inv(td.gamma), mixed[..m.numInputs])))
  }

  // ----- what the products amount to

  lemma FirstOff(v: Vec, w: Vec)
    requires |v| == |w| > 0 && w[0] == ONE
    ensures InnerProduct(v, w) == Add(v[0], InnerProduct(v[1..], w[1..]))
  {
    hide InnerProduct;
    InnerSplit(v, w, 1);
    InnerLast(v[..1], w[..1]);
    InnerEmpty(v[..1][..0], w[..1][..0]);
    MulOne(v[0]);
    AddZero(v[0]);
  }

  /** Weighted, a column made of constraints, more values and zeros. */
  lemma ColumnInner(rows: seq<Row>, w: Vec, after: Vec, size: nat, weights: Vec)
    requires RowsFit(rows, w) && |rows| + |after| <= size == |weights|
    ensures InnerProduct(weights, Column(rows, w, after, size))
         == Add(InnerProduct(weights[..|rows|], Evaluations(rows, w)),
                InnerProduct(weights[|rows|..|rows| + |after|], after))
  {
    hide InnerProduct, EvaluateConstraint, RowsFit;
    var k, e := |rows|, |rows| + |after|;
    var v := Column(rows, w, after, size);
    var rest, tail := weights[k..], weights[e..];
    InnerSplit(weights, v, k);
    assert v[..k] == Evaluations(rows, w);
    InnerSplit(rest, v[k..], |after|);
    assert v[k..][..|after|] == after && rest[..|after|] == weights[k..e];
    assert v[k..][|after|..] == Zeros(|tail|) && rest[|after|..] == tail;
    InnerWithZeros(tail);
    AddZero(InnerProduct(weights[k..e], after));
  }

  lemma InputsInner(inputs: Vec, weights: Vec, w: Vec)
    requires |inputs| == |weights| <= |w| && inputs == w[..|inputs|]
    ensures InnerProduct(Resize(weights, |w|), w) == InnerProduct(weights, inputs)
  {
    ResizedInner(weights, w);
  }

  /** The first matrix at tau, times the assignment, is the interpolant of the first column at tau. */
  lemma ValueA(m: Matrices, w: Vec, s: Size, tau: F)
    requires Fitting(m, w, s)
    ensures |m.a| + m.numInputs <= s.q * s.l && m.numInputs <= |w|
    ensures var a := Column(m.a, w, w[..m.numInputs], s.q * s.l);
      InnerProduct(AtA(m, |w|, Weights(s, tau)), w) == Eval(Ifft(Roots(s), a), tau)
  {
    hide InnerProduct, Ifft, Eval, Weights, Column, Spread, NextPow2, OddCharacteristic, RowsFit;
    FittingSize(m, w, s);
    var k, e, weights, inputs := |m.a|, |m.a| + m.numInputs, Weights(s, tau), w[..m.numInputs];
    WeightsValue(s, tau, Column(m.a, w, inputs, s.q * s.l));
    ColumnInner(m.a, w, inputs, s.q * s.l, weights);
    SpreadInner(m.a, weights[..k], w);
    InputsInner(inputs, weights[k..e], w);
    InnerAdd(Spread(m.a, weights[..k], |w|), Resize(weights[k..e], |w|), w);
  }

  /** The same for a matrix without inputs after its constraints. */
  lemma ValuePlain(rows: seq<Row>, w: Vec, s: Size, tau: F)
    requires s.Valid() && RowsFit(rows, w) && |rows| <= s.q * s.l
    ensures InnerProduct(Spread(rows, Weights(s, tau)[..|rows|], |w|), w)
         == Eval(Ifft(Roots(s), Column(rows, w, [], s.q * s.l)), tau)
  {
    hide InnerProduct, Ifft, Eval, Weights, Column, Spread, Size.Valid, RowsFit;
    var k, weights := |rows|, Weights(s, tau);
    WeightsValue(s, tau, Column(rows, w, [], s.q * s.l));
    ColumnInner(rows, w, [], s.q * s.l, weights);
    InnerEmpty(weights[k..k], []);
    AddZero(InnerProduct(weights[..k], Evaluations(rows, w)));
    SpreadInner(rows, weights[..k], w);
  }

  lemma MixedInner(td: Trapdoor, a: Vec, b: Vec, c: Vec, w: Vec)
    requires |a| == |b| == |c| == |w|
    ensures InnerProduct(Mixed(td, a, b, c), w)
         == Add(Add(Mul(td.beta, InnerProduct(a, w)), Mul(td.alpha, InnerProduct(b, w))), InnerProduct(c, w))
  {
    hide InnerProduct;
    InnerAdd(VAdd(VScale(td.beta, a), VScale(td.alpha, b)), c, w);
    InnerAdd(VScale(td.beta, a), VScale(td.alpha, b), w);
    InnerScale(td.beta, a, w);
    InnerScale(td.alpha, b, w);
  }

  /** Taking a factor off in the key and multiplying by it in the equation. */
  lemma Unscaled(d: F, v: Vec, w: Vec)
    requires d != ZERO && |v| == |w|
    ensures Mul(d, InnerProduct(VScale(Inv(d), v), w)) == InnerProduct(v, w)
  {
    hide InnerProduct;
    InnerScale(Inv(d), v, w);
    MulAssoc(d, Inv(d), InnerProduct(v, w));
    MulInv(d);
    MulOne(InnerProduct(v, w));
  }

  /** ((p + q) + c3) + (ab - c) == ab + p + q exactly when c3 == c. */
  lemma ColumnsCompared(ab: F, p: F, q: F, c3: F, c: F)
    ensures Add(Add(Add(p, q), c3), Sub(ab, c)) == Add(Add(ab, p), q) <==> c3 == c
  {
    var t := Add(p, q);
    AddAssoc(ab, p, q);
    AddAssoc(t, c3, Sub(ab, c));
    AddComm(ab, t);
    AddComm(c3, Sub(ab, c));
    AddComm(t, Add(Sub(ab, c), c3));
    SubAdd(ab, c);
    if Add(t, Add(Sub(ab, c), c3)) == Add(t, ab) {
      AddComm(t, ab);
      AddCancel(Add(Sub(ab, c), c3), ab, t);
      AddComm(Sub(ab, c), c3);
      AddComm(Sub(ab, c), c);
      AddCancel(c3, c, Sub(ab, c));
    }
  }

  /** The left side of the key's equation, for any vectors in the place of the columns. */
  lemma LeftSide(td: Trapdoor, a: Vec, b: Vec, c: Vec, odd: Vec, w: Vec, h: Vec, k: nat)
    requires |a| == |b| == |c| == |w| && 0 < k <= |w| && w[0] == ONE && |odd| == |h|
    requires td.gamma != ZERO && td.delta != ZERO
    ensures var mixed := Mixed(td, a, b, c);
      var ic := VScale(Inv(td.gamma), mixed[..k]);
      var wax := InnerProduct(VScale(Inv(td.delta), mixed[k..]), w[k..]);
      var uh := InnerProduct(VScale(Inv(td.delta), odd), h);
      Add(Mul(td.delta, Add(wax, uh)), Mul(Add(ic[0], InnerProduct(ic[1..], w[1..k])), td.gamma))
        == Add(Add(Add(Mul(td.beta, InnerProduct(a, w)), Mul(td.alpha, InnerProduct(b, w))), InnerProduct(c, w)),
               InnerProduct(odd, h))
  {
    hide InnerProduct, Mixed, VScale;
    var mixed := Mixed(td, a, b, c);
    var ic := VScale(Inv(td.gamma), mixed[..k]);
    var wax := InnerProduct(VScale(Inv(td.delta), mixed[k..]), w[k..]);
    var uh := InnerProduct(VScale(Inv(td.delta), odd), h);
    FirstOff(ic, w[..k]);
    assert w[..k][1..] == w[1..k];
    Unscaled(td.gamma, mixed[..k], w[..k]);
    MulComm(td.gamma, InnerProduct(ic, w[..k]));
    Distrib(td.delta, wax, uh);
    Unscaled(td.delta, mixed[k..], w[k..]);
    Unscaled(td.delta, odd, h);
    InnerSplit(mixed, w, k);
    MixedInner(td, a, b, c, w);
    var head, tail, p := InnerProduct(mixed[..k], w[..k]), InnerProduct(mixed[k..], w[k..]), InnerProduct(odd, h);
    AddComm(Add(tail, p), head);
    AddAssoc(head, tail, p);
  }

  /** The third column as the third matrix would give it. */
  ghost function ThirdColumn(m: Matrices, w: Vec, size: nat): (r: Vec)
    requires m.Fits(w) && |m.a| + m.numInputs <= size
    ensures |r| == size
  {
    Column(m.c, w, [], size)
  }

  ghost predicate Prepared(m: Matrices, w: Vec, s: Size, root: F, td: Trapdoor) {
    && Fitting(m, w, s) && w[0] == ONE && td.gamma != ZERO && td.delta != ZERO
    && IsRoot(root, 2 * (s.q * s.l)) && Mul(root, root) == s.gen
  }

  lemma CanSetUp(m: Matrices, w: Vec, s: Size, root: F, td: Trapdoor)
    requires Prepared(m, w, s, root, td)
    ensures s.q * s.l * 2 == Double(s, root).q * Double(s, root).l
    ensures |m.a| == |m.b| == |m.c| && |m.a| + m.numInputs <= s.q * s.l && 0 < m.numInputs <= |w|
    ensures var r := QapOf(m, w, s.q * s.l); r.Columns? && |r.a| == |r.b| == |r.c| == s.q * s.l && r.c == VMul(r.a, r.b)
    ensures QapOf(m, w, s.q * s.l).a == Column(m.a, w, w[..m.numInputs], s.q * s.l)
    ensures QapOf(m, w, s.q * s.l).b == Column(m.b, w, [], s.q * s.l)
  {
    hide NextPow2, OddCharacteristic, Column;
    DoubleValid(s, root);
    FittingSize(m, w, s);
    QapFits(m, w, s.q * s.l);
  }

  function KeysOf(m: Matrices, w: Vec, s: Size, root: F, td: Trapdoor): Keys
    requires Prepared(m, w, s, root, td)
  {
    CanSetUp(m, w, s, root, td);
    SetUp(m, |w|, s, root, td)
  }

  lemma KeysMatch(m: Matrices, w: Vec, s: Size, root: F, td: Trapdoor)
    requires Prepared(m, w, s, root, td)
    ensures var keys := KeysOf(m, w, s, root, td);
      && Paired(keys.key, keys.vk) && keys.queries.h == keys.queries.v
      && 0 < |keys.vk.ic| == m.numInputs <= |w| && |keys.queries.u| == s.q * s.l
      && |keys.queries.s| == |keys.queries.v| == |w| - 1 && |keys.queries.w| == |w| - m.numInputs
  {
    hide QapOf;
    CanSetUp(m, w, s, root, td);
  }

  /** The column of the third matrix and the column of products have interpolants that agree at tau. */
  ghost predicate ColumnsAgree(m: Matrices, w: Vec, s: Size, tau: F)
    requires m.Fits(w) && |m.a| + m.numInputs <= s.q * s.l && QapOf(m, w, s.q * s.l).Columns?
  {
    Eval(Ifft(Roots(s), ThirdColumn(m, w, s.q * s.l)), tau) == Eval(Ifft(Roots(s), QapOf(m, w, s.q * s.l).c), tau)
  }

  /** The equation of the key for what a prover makes of the assignment. */
  ghost predicate KeyHolds(m: Matrices, w: Vec, s: Size, root: F, td: Trapdoor)
    requires Prepared(m, w, s, root, td)
  {
    CanSetUp(m, w, s, root, td);
    KeysMatch(m, w, s, root, td);
    var keys, r, k := KeysOf(m, w, s, root, td), QapOf(m, w, s.q * s.l), m.numInputs;
    var q, h := keys.queries, CircomRef(r.a, r.b, r.c, Roots(s), root);
    KeyEquation(keys.key, keys.vk, w[1..k], InnerProduct(q.s, w[1..]), InnerProduct(q.v, w[1..]),
                InnerProduct(q.w, w[k..]), InnerProduct(q.u, h))
  }

  /**
   * With keys of one set-up and any assignment that begins with one, the equation of the key holds exactly
   * when the two third columns agree at tau.
   */
  lemma SetUpEquation(m: Matrices, w: Vec, s: Size, root: F, td: Trapdoor)
    requires Prepared(m, w, s, root, td)
    ensures |m.a| + m.numInputs <= s.q * s.l && QapOf(m, w, s.q * s.l).Columns?
    ensures KeyHolds(m, w, s, root, td) <==> ColumnsAgree(m, w, s, td.tau)
  {
    hide InnerProduct, Ifft, Eval, Weights, Column, Spread, Resize, QapOf, NextPow2, OddCharacteristic, OddWeights,
      CircomRef, Mixed, RowsFit, EvaluateConstraint;
    CanSetUp(m, w, s, root, td);
    var r, k, weights := QapOf(m, w, s.q * s.l), m.numInputs, Weights(s, td.tau);
    var a, b, c := AtA(m, |w|, weights), AtB(m, |w|, weights), AtC(m, |w|, weights);
    var odd, h := OddWeights(s, root, td.tau), CircomRef(r.a, r.b, r.c, Roots(s), root);
    ValueA(m, w, s, td.tau);
    ValuePlain(m.b, w, s, td.tau);
    ValuePlain(m.c, w, s, td.tau);
    QuotientAtPoint(s, root, td.tau, r.a, r.b);
    FirstOff(a, w);
    FirstOff(b, w);
    LeftSide(td, a, b, c, odd, w, h, k);
    var A, B := InnerProduct(a, w), InnerProduct(b, w);
    ColumnsCompared(Mul(A, B), Mul(td.beta, A), Mul(td.alpha, B), InnerProduct(c, w), Eval(Ifft(Roots(s), r.c), td.tau));
  }

  /** A satisfying assignment has the same third column either way. */
  lemma SatisfyingColumn(m: Matrices, w: Vec, s: Size, root: F, td: Trapdoor)
    requires Prepared(m, w, s, root, td) && m.Holds(w)
    ensures |m.a| + m.numInputs <= s.q * s.l && QapOf(m, w, s.q * s.l).Columns?
    ensures ThirdColumn(m, w, s.q * s.l) == QapOf(m, w, s.q * s.l).c && ColumnsAgree(m, w, s, td.tau)
  {
    hide Column, NextPow2, OddCharacteristic, QapOf, RowsFit, EvaluateConstraint;
    CanSetUp(m, w, s, root, td);
    HoldsIsSatisfied(m, w, s.q * s.l);
    var r := QapOf(m, w, s.q * s.l);
    assert forall k :: 0 <= k < s.q * s.l ==> r.c[k] == Mul(r.a[k], r.b[k]);
  }
}
