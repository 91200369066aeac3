/**
 * Groth16Equation: a random combination of Groth16 equations is the aggregated equation.
 */
module Groth16Equation {
  import opened ScalarField
  import opened Polynomials
  import opened InnerProducts
  import opened RootsOfUnity
  import opened Gipa
  import opened ProductForms
  import opened PairingChecks
  import opened Aggregation
  import opened AggregateVerifier

  /** The combination of the verifying key with the public inputs of one proof. */
  function PublicInput(pvk: VerifyingKey, inputs: Vec): F
    requires |inputs| + 1 == |pvk.ic|
  {
    Add(pvk.ic[0], InnerProduct(pvk.ic[1..], inputs))
  }

  /** e(A, B) == e(alpha, beta) e(S, gamma) e(C, delta) */
  ghost predicate ValidProof(pvk: VerifyingKey, proof: Proof, inputs: Vec)
    requires |inputs| + 1 == |pvk.ic|
  {
    Mul(proof.a, proof.b)
    == Add(Add(Mul(pvk.alpha, pvk.beta), Mul(PublicInput(pvk, inputs), pvk.gamma)), Mul(proof.c, pvk.delta))
  }

  ghost predicate AllValid(pvk: VerifyingKey, proofs: seq<Proof>, inputs: seq<Vec>) {
    && |proofs| == |inputs|
    && (forall j :: 0 <= j < |inputs| ==> |inputs[j]| + 1 == |pvk.ic|)
    && (forall j :: 0 <= j < |inputs| ==> ValidProof(pvk, proofs[j], inputs[j]))
  }

  /** The inner products of a fixed vector with every input. */
  function Against(v: Vec, inputs: seq<Vec>): (r: Vec)
    requires forall j :: 0 <= j < |inputs| ==> |inputs[j]| == |v|
    ensures |r| == |inputs|
  {
    seq(|inputs|, j requires 0 <= j < |inputs| => InnerProduct(v, inputs[j]))
  }

  /** Combining the inputs first gives the same as combining their inner products. */
  lemma {:induction false} CombinedInner(v: Vec, inputs: seq<Vec>, powers: Vec)
    requires inputs != [] && |inputs| == |powers| && powers[0] == ONE
    requires forall j :: 0 <= j < |inputs| ==> |inputs[j]| == |v|
    ensures InnerProduct(v, Combined(inputs, powers)) == InnerProduct(powers, Against(v, inputs))
    decreases |inputs|
  {
    hide InnerProduct;
    var n := |inputs| - 1;
    var all := Against(v, inputs);
    InnerLast(powers, all);
    assert all[..n] == Against(v, inputs[..n]);
    if n == 0 {
      InnerEmpty(powers[..0], all[..0]);
      MulOne(all[0]);
      AddZero(all[0]);
    } else {
      CombinedInner(v, inputs[..n], powers[..n]);
      InnerRight(v, Combined(inputs[..n], powers[..n]), inputs[n], powers[n]);
    }
  }

  lemma InnerEmpty(x: Vec, y: Vec)
    requires x == [] && y == []
    ensures InnerProduct(x, y) == ZERO
  {
    assert VMul(x, y) == [];
  }

  lemma InnerLast(x: Vec, y: Vec)
    requires |x| == |y| > 0
    ensures var n := |x| - 1; InnerProduct(x, y) == Add(InnerProduct(x[..n], y[..n]), Mul(x[n], y[n]))
  {
    var n := |x| - 1;
    assert VMul(x, y)[..n] == VMul(x[..n], y[..n]);
  }

  /** The running sum of powers in closed form. */
  lemma SumOfPowers(r: F, n: nat)
    requires r != ONE
    ensures InnerProduct(Powers(ONE, r, n), Ones(n)) == GeometricSum(r, n)
  {
    hide InnerProduct, Powers;
    InnerPowers(ONE, r, Ones(n));
    var e, d := Eval(Ones(n), r), Sub(r, ONE);
    MulOne(e);
    Geometric(r, n);
    SubZeroIffEqual(r, ONE);
    MulInv(d);
    MulComm(d, e);
    MulAssoc(e, d, Inv(d));
    MulOne(e);
  }

  /** The combinations of the verifying key with the inputs of every proof. */
  function PublicInputs(pvk: VerifyingKey, inputs: seq<Vec>): (r: Vec)
    requires forall j :: 0 <= j < |inputs| ==> |inputs[j]| + 1 == |pvk.ic|
    ensures |r| == |inputs|
  {
    seq(|inputs|, j requires 0 <= j < |inputs| => PublicInput(pvk, inputs[j]))
  }

  /** The right sides of the Groth16 equations of every proof. */
  function RightSides(pvk: VerifyingKey, proofs: seq<Proof>, inputs: seq<Vec>): (r: Vec)
    requires |proofs| == |inputs| && forall j :: 0 <= j < |inputs| ==> |inputs[j]| + 1 == |pvk.ic|
    ensures |r| == |proofs|
  {
    seq(|proofs|, j requires 0 <= j < |proofs| =>
      Add(Add(Mul(pvk.alpha, pvk.beta), Mul(PublicInput(pvk, inputs[j]), pvk.gamma)), Mul(proofs[j].c, pvk.delta)))
  }

  /** A proof is valid exactly when its left and right side do not differ. */
  function Defects(pvk: VerifyingKey, proofs: seq<Proof>, inputs: seq<Vec>): (r: Vec)
    requires |proofs| == |inputs| && forall j :: 0 <= j < |inputs| ==> |inputs[j]| + 1 == |pvk.ic|
    ensures |r| == |proofs|
  {
    VSub(VMul(As(proofs), Bs(proofs)), RightSides(pvk, proofs, inputs))
  }

  /** The right sides, one vector for each pairing. */
  lemma RightSidesSplit(pvk: VerifyingKey, proofs: seq<Proof>, inputs: seq<Vec>)
    requires |proofs| == |inputs| && forall j :: 0 <= j < |inputs| ==> |inputs[j]| + 1 == |pvk.ic|
    ensures RightSides(pvk, proofs, inputs)
         == VAdd(VAdd(VScale(Mul(pvk.alpha, pvk.beta), Ones(|proofs|)), VScale(pvk.gamma, PublicInputs(pvk, inputs))),
                 VScale(pvk.delta, Cs(proofs)))
  {
    hide InnerProduct;
    forall j | 0 <= j < |proofs|
      ensures Mul(Mul(pvk.alpha, pvk.beta), ONE) == Mul(pvk.alpha, pvk.beta)
      ensures Mul(PublicInput(pvk, inputs[j]), pvk.gamma) == Mul(pvk.gamma, PublicInput(pvk, inputs[j]))
      ensures Mul(proofs[j].c, pvk.delta) == Mul(pvk.delta, proofs[j].c)
    {
      MulOne(Mul(pvk.alpha, pvk.beta));
      MulComm(pvk.gamma, PublicInput(pvk, inputs[j]));
      MulComm(pvk.delta, proofs[j].c);
    }
  }

  /** r . (x + c y + d z) for the three groups of terms. */
  lemma InnerThree(r: Vec, a: F, x: Vec, c: F, y: Vec, d: F, z: Vec)
    requires |r| == |x| == |y| == |z|
    ensures InnerProduct(r, VAdd(VAdd(VScale(a, x), VScale(c, y)), VScale(d, z)))
         == Add(Add(Mul(a, InnerProduct(r, x)), Mul(c, InnerProduct(r, y))), Mul(d, InnerProduct(r, z)))
  {
    hide InnerProduct;
    InnerRight(r, VAdd(VScale(a, x), VScale(c, y)), z, d);
    InnerRight(r, VScale(a, x), y, c);
    InnerComm(r, VScale(a, x));
    InnerScale(a, x, r);
    InnerComm(x, r);
  }

  /** The powers of r can be moved from B onto the products A B. */
  lemma InnerShift(a: Vec, b: Vec, r: Vec)
    requires |a| == |b| == |r|
    ensures InnerProduct(a, VMul(b, r)) == InnerProduct(r, VMul(a, b))
  {
    forall i | 0 <= i < |a|
      ensures VMul(a, VMul(b, r))[i] == VMul(r, VMul(a, b))[i]
    {
      MulAssoc(a[i], b[i], r[i]);
      MulComm(Mul(a[i], b[i]), r[i]);
    }
    assert VMul(a, VMul(b, r)) == VMul(r, VMul(a, b));
  }

  lemma InnerSub(r: Vec, x: Vec, y: Vec)
    requires |r| == |x| == |y|
    ensures InnerProduct(r, VSub(x, y)) == Sub(InnerProduct(r, x), InnerProduct(r, y))
  {
    hide InnerProduct;
    forall i | 0 <= i < |x|
      ensures VAdd(VSub(x, y), y)[i] == x[i]
    {
      SubAdd(x[i], y[i]);
    }
    assert VAdd(VSub(x, y), y) == x;
    InnerAdd(VSub(x, y), y, r);
    InnerComm(r, VSub(x, y));
    InnerComm(r, x);
    InnerComm(r, y);
    SubAdd(InnerProduct(r, VSub(x, y)), InnerProduct(r, y));
  }

  /** What the combination of the inputs contributes. */
  lemma InputTerms(pvk: VerifyingKey, inputs: seq<Vec>, r: F)
    requires inputs != [] && pvk.ic != [] && r != ONE && forall j :: 0 <= j < |inputs| ==> |inputs[j]| + 1 == |pvk.ic|
    ensures var rs := Powers(ONE, r, |inputs|);
      InnerProduct(rs, PublicInputs(pvk, inputs))
        == Add(Mul(pvk.ic[0], GeometricSum(r, |inputs|)), InnerProduct(pvk.ic[1..], Combined(inputs, rs)))
  {
    hide InnerProduct, Combined, GeometricSum, Ones, Pow, Mul;
    var n := |inputs|;
    var rs, one := Powers(ONE, r, n), Ones(n);
    var against := Against(pvk.ic[1..], inputs);
    SplitInputs(pvk, inputs);
    PowFirst(r);
    MulOne(ONE);
    CombinedInner(pvk.ic[1..], inputs, rs);
    InnerRight(rs, VScale(pvk.ic[0], one), against, ONE);
    MulOne(InnerProduct(rs, against));
    InnerComm(rs, VScale(pvk.ic[0], one));
    InnerScale(pvk.ic[0], one, rs);
    InnerComm(one, rs);
    SumOfPowers(r, n);
  }

  lemma SplitInputs(pvk: VerifyingKey, inputs: seq<Vec>)
    requires pvk.ic != [] && forall j :: 0 <= j < |inputs| ==> |inputs[j]| + 1 == |pvk.ic|
    ensures PublicInputs(pvk, inputs)
         == VAdd(VScale(pvk.ic[0], Ones(|inputs|)), VScale(ONE, Against(pvk.ic[1..], inputs)))
  {
    hide InnerProduct;
    var against := Against(pvk.ic[1..], inputs);
    MulOne(pvk.ic[0]);
    forall j | 0 <= j < |inputs|
      ensures Mul(ONE, against[j]) == against[j]
    {
      MulOne(against[j]);
    }
  }

  /** The aggregated equation, for any claims. */
  ghost predicate CombinedEquation(pvk: VerifyingKey, inputs: seq<Vec>, r: F, ipAB: F, aggC: F)
    requires forall j :: 0 <= j < |inputs| ==> |inputs[j]| + 1 == |pvk.ic|
  {
    var rs := Powers(ONE, r, |inputs|);
    ipAB == Add(Add(Mul(Mul(pvk.alpha, pvk.beta), Sum(rs)), Mul(pvk.gamma, InnerProduct(rs, PublicInputs(pvk, inputs)))),
                Mul(pvk.delta, aggC))
  }

  lemma InnerOnes(v: Vec)
    ensures InnerProduct(v, Ones(|v|)) == Sum(v)
  {
    forall i | 0 <= i < |v|
      ensures VMul(v, Ones(|v|))[i] == v[i]
    {
      MulOne(v[i]);
    }
    assert VMul(v, Ones(|v|)) == v;
  }

  /** The check is satisfied exactly when the claims meet the combination of the Groth16 equations. */
  lemma GrothCheckMeaning(pvk: VerifyingKey, inputs: seq<Vec>, r: F, agg: AggregateProof)
    requires inputs != [] && r != ONE && forall j :: 0 <= j < |inputs| ==> |inputs[j]| + 1 == |pvk.ic|
    ensures GrothCheck(pvk, inputs, r, agg).Satisfied() <==> CombinedEquation(pvk, inputs, r, agg.ipAB, agg.aggC)
  {
    hide InnerProduct, Powers, Combined, PublicInputs, GeometricSum, Ones, Sum;
    assert |inputs[0]| + 1 == |pvk.ic|;
    var rs, sum := Powers(ONE, r, |inputs|), GeometricSum(r, |inputs|);
    InputTerms(pvk, inputs, r);
    SumOfPowers(r, |inputs|);
    InnerOnes(rs);
    GrothProducts(pvk, sum, Add(Mul(pvk.ic[0], sum), InnerProduct(pvk.ic[1..], Combined(inputs, rs))), agg.aggC);
  }

  /** For the claims of any proofs, the equation says that their weighted defects cancel. */
  lemma DefectsCancel(pvk: VerifyingKey, proofs: seq<Proof>, inputs: seq<Vec>, r: F, ipAB: F, aggC: F)
    requires |proofs| == |inputs| && forall j :: 0 <= j < |inputs| ==> |inputs[j]| + 1 == |pvk.ic|
    requires ipAB == InnerProduct(As(proofs), VMul(Bs(proofs), Powers(ONE, r, |proofs|)))
    requires aggC == InnerProduct(Cs(proofs), Powers(ONE, r, |proofs|))
    ensures CombinedEquation(pvk, inputs, r, ipAB, aggC)
       <==> InnerProduct(Powers(ONE, r, |proofs|), Defects(pvk, proofs, inputs)) == ZERO
  {
    hide InnerProduct, Powers, PublicInputs, RightSides, Ones, Sum;
    var n := |proofs|;
    var rs, products := Powers(ONE, r, n), VMul(As(proofs), Bs(proofs));
    InnerShift(As(proofs), Bs(proofs), rs);
    RightSidesSplit(pvk, proofs, inputs);
    InnerThree(rs, Mul(pvk.alpha, pvk.beta), Ones(n), pvk.gamma, PublicInputs(pvk, inputs), pvk.delta, Cs(proofs));
    InnerOnes(rs);
    InnerComm(rs, Cs(proofs));
    InnerSub(rs, products, RightSides(pvk, proofs, inputs));
    SubZeroIffEqual(InnerProduct(rs, products), InnerProduct(rs, RightSides(pvk, proofs, inputs)));
  }

  /** Valid proofs make the aggregated check hold for every r other than one. */
  lemma GrothCheckHolds(pvk: VerifyingKey, proofs: seq<Proof>, inputs: seq<Vec>, r: F, agg: AggregateProof)
    requires proofs != [] && AllValid(pvk, proofs, inputs) && r != ONE
    requires agg.ipAB == InnerProduct(As(proofs), VMul(Bs(proofs), Powers(ONE, r, |proofs|)))
    requires agg.aggC == InnerProduct(Cs(proofs), Powers(ONE, r, |proofs|))
    ensures GrothCheck(pvk, inputs, r, agg).Satisfied()
  {
    hide InnerProduct, Powers, GrothCheck, CombinedEquation;
    GrothCheckMeaning(pvk, inputs, r, agg);
    DefectsCancel(pvk, proofs, inputs, r, agg.ipAB, agg.aggC);
    NoDefects(pvk, proofs, inputs);
    InnerWithZeros(Powers(ONE, r, |proofs|));
  }

  lemma NoDefects(pvk: VerifyingKey, proofs: seq<Proof>, inputs: seq<Vec>)
    requires |proofs| == |inputs| && forall j :: 0 <= j < |inputs| ==> |inputs[j]| + 1 == |pvk.ic|
    ensures AllValid(pvk, proofs, inputs) <==> Defects(pvk, proofs, inputs) == Zeros(|proofs|)
  {
    hide InnerProduct;
    var d := Defects(pvk, proofs, inputs);
    forall j | 0 <= j < |proofs|
      ensures d[j] == ZERO <==> ValidProof(pvk, proofs[j], inputs[j])
    {
      SubZeroIffEqual(VMul(As(proofs), Bs(proofs))[j], RightSides(pvk, proofs, inputs)[j]);
    }
    assert d == Zeros(|proofs|) ==> forall j :: 0 <= j < |proofs| ==> d[j] == ZERO;
  }

  lemma InnerWithZeros(v: Vec)
    ensures InnerProduct(v, Zeros(|v|)) == ZERO
  {
    InnerZeros(v);
    InnerComm(v, Zeros(|v|));
  }

  lemma GrothProducts(pvk: VerifyingKey, sum: F, gIc: F, c: F)
    ensures SumOfProducts([Mul(Mul(pvk.alpha, sum), pvk.beta), Mul(gIc, pvk.gamma), Mul(c, pvk.delta)])
         == Add(Add(Mul(Mul(pvk.alpha, pvk.beta), sum), Mul(pvk.gamma, gIc)), Mul(pvk.delta, c))
  {
    var x, y, z := Mul(Mul(pvk.alpha, sum), pvk.beta), Mul(gIc, pvk.gamma), Mul(c, pvk.delta);
    var v := [x, y, z];
    assert v[..2] == [x, y] && [x, y][..1] == [x] && [x][..0] == [];
    assert SumOfProducts([x]) == Add(ZERO, x);
    assert SumOfProducts([x, y]) == Add(SumOfProducts([x]), y);
    AddZero(x);
    MulComm(gIc, pvk.gamma);
    MulComm(c, pvk.delta);
    MulAssoc(pvk.alpha, sum, pvk.beta);
    MulComm(sum, pvk.beta);
    MulAssoc(pvk.alpha, pvk.beta, sum);
  }
}
