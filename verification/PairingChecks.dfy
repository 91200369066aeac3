/**
 * PairingChecks: equations between pairings, randomised and merged into one.
 *
 * Both sides of a check are exponents: multiplying checks adds them, raising to a coefficient scales.
 */
module PairingChecks {
  import opened ScalarField
  import opened Polynomials

  datatype Check = Check(left: F, right: F, nonRandomized: nat) {
    ghost predicate Satisfied() {
      left == right
    }
  }

  const NEW: Check := Check(ZERO, ZERO, 0)

  /** A check that no merge can accept: it counts as two plain ones. */
  const INVALID: Check := Check(ZERO, ONE, 2)

  function SumOfPairs(coeff: F, pairs: seq<(F, F)>): F {
    if pairs == [] then ZERO
    else Add(SumOfPairs(coeff, pairs[..|pairs| - 1]), Mul(Mul(pairs[|pairs| - 1].0, coeff), pairs[|pairs| - 1].1))
  }

  /** The equation between the product of the pairings and out, scaled by the coefficient. */
  function Rand(coeff: F, pairs: seq<(F, F)>, out: F): Check {
    Check(SumOfPairs(coeff, pairs), if out != ZERO then Mul(coeff, out) else out, 0)
  }

  function SumOfProducts(lefts: Vec): F {
    if lefts == [] then ZERO else Add(SumOfProducts(lefts[..|lefts| - 1]), lefts[|lefts| - 1])
  }

  /** The one check that is not randomised. */
  function FromProducts(lefts: Vec, right: F): Check {
    Check(SumOfProducts(lefts), right, 1)
  }

  /** A randomised check is satisfied exactly when the equation holds, whatever the coefficient. */
  lemma RandOne(coeff: F, a: F, b: F, out: F)
    requires coeff != ZERO
    ensures Rand(coeff, [(a, b)], out).Satisfied() <==> Mul(a, b) == out
  {
    PairTerm(coeff, a, b);
    assert [(a, b)][..0] == [];
    assert SumOfPairs(coeff, [(a, b)]) == Add(ZERO, Mul(coeff, Mul(a, b)));
    AddZero(Mul(coeff, Mul(a, b)));
    ScaledEquation(coeff, Mul(a, b), out);
  }

  lemma RandTwo(coeff: F, a: F, b: F, c: F, d: F, out: F)
    requires coeff != ZERO
    ensures Rand(coeff, [(a, b), (c, d)], out).Satisfied() <==> Add(Mul(a, b), Mul(c, d)) == out
  {
    PairTerm(coeff, a, b);
    PairTerm(coeff, c, d);
    var s := [(a, b), (c, d)];
    assert s[..1] == [(a, b)] && [(a, b)][..0] == [];
    AddZero(Mul(coeff, Mul(a, b)));
    assert SumOfPairs(coeff, [(a, b)]) == Mul(coeff, Mul(a, b));
    assert SumOfPairs(coeff, s) == Add(Mul(coeff, Mul(a, b)), Mul(coeff, Mul(c, d)));
    Distrib(coeff, Mul(a, b), Mul(c, d));
    ScaledEquation(coeff, Add(Mul(a, b), Mul(c, d)), out);
  }

  lemma PairTerm(coeff: F, a: F, b: F)
    ensures Mul(Mul(a, coeff), b) == Mul(coeff, Mul(a, b))
  {
    MulComm(a, coeff);
    MulAssoc(coeff, a, b);
  }

  lemma ScaledEquation(coeff: F, x: F, y: F)
    requires coeff != ZERO
    ensures Mul(coeff, x) == (if y != ZERO then Mul(coeff, y) else y) <==> x == y
  {
    MulZero(coeff);
    MulComm(coeff, x);
    MulComm(coeff, y);
    if Mul(coeff, x) == Mul(coeff, y) {
      MulCancel(x, y, coeff);
    }
  }

  // ----- merging

  function Plus(c: Check, d: Check): Check {
    Check(Add(c.left, d.left), Add(c.right, d.right), c.nonRandomized + d.nonRandomized)
  }

  function Total(checks: seq<Check>): Check {
    if checks == [] then NEW else Plus(Total(checks[..|checks| - 1]), checks[|checks| - 1])
  }

  /** At most one plain check, and the merged equation holds. */
  predicate Verifies(c: Check) {
    c.nonRandomized <= 1 && c.left == c.right
  }

  /** The accumulator of the merging loop. */
  class PairingCheck {
    var left: F
    var right: F
    var nonRandomized: nat

    function Value(): Check
      reads this
    {
      Check(left, right, nonRandomized)
    }

    constructor ()
      ensures Value() == NEW
    {
      left, right, nonRandomized := ZERO, ZERO, 0;
    }

    method Merge(p2: Check)
      modifies this
      ensures Value() == Plus(old(Value()), p2)
    {
      left := MulIfNotOne(left, p2.left);
      right := MulIfNotOne(right, p2.right);
      nonRandomized := nonRandomized + p2.nonRandomized;
    }

    predicate Verify()
      reads this
    {
      if nonRandomized > 1 then false else left == right
    }
  }

  /** Skips the multiplication when either factor is one. */
  function MulIfNotOne(left: F, right: F): (r: F)
    ensures r == Add(left, right)
  {
    AddZero(left);
    AddZero(right);
    if left == ZERO then right else if right == ZERO then left else Add(left, right)
  }

  method MergeAll(checks: seq<Check>) returns (valid: bool)
    ensures valid <==> Verifies(Total(checks))
  {
    var acc := new PairingCheck();
    for i := 0 to |checks|
      invariant acc.Value() == Total(checks[..i])
    {
      assert checks[..i + 1][..i] == checks[..i];
      acc.Merge(checks[i]);
    }
    assert checks[..|checks|] == checks;
    valid := acc.Verify();
  }

  lemma PlusSwap(c: Check, d: Check, e: Check)
    ensures Plus(Plus(c, d), e) == Plus(Plus(c, e), d)
  {
    AddAssoc(c.left, d.left, e.left);
    AddAssoc(c.left, e.left, d.left);
    AddComm(d.left, e.left);
    AddAssoc(c.right, d.right, e.right);
    AddAssoc(c.right, e.right, d.right);
    AddComm(d.right, e.right);
  }

  lemma {:induction false} TotalWithout(checks: seq<Check>, i: nat)
    requires i < |checks|
    ensures Total(checks) == Plus(Total(checks[..i] + checks[i + 1..]), checks[i])
    decreases |checks|
  {
    var n := |checks| - 1;
    var rest := checks[..i] + checks[i + 1..];
    if i == n {
      assert rest == checks[..n];
    } else {
      var init := checks[..n];
      TotalWithout(init, i);
      assert rest[..n - 1] == init[..i] + init[i + 1..] && rest[n - 1] == checks[n];
      PlusSwap(Total(rest[..n - 1]), checks[i], checks[n]);
    }
  }

  lemma Removed(s: seq<Check>, i: nat)
    requires i < |s|
    ensures multiset(s) == multiset(s[..i] + s[i + 1..]) + multiset{s[i]}
  {
    assert s == s[..i] + [s[i]] + s[i + 1..];
  }

  /** The merged check does not depend on the order in which the checks arrive. */
  lemma {:induction false} TotalAnyOrder(s: seq<Check>, t: seq<Check>)
    requires multiset(s) == multiset(t)
    ensures Total(s) == Total(t)
    decreases |s|
  {
    hide Total, Plus;
    if s == [] {
      assert |multiset(t)| == 0;
      assert t == [];
    } else {
      var n := |s| - 1;
      assert s[n] in multiset(s);
      assert s[n] in multiset(t);
      TotalWithout(s, n);
      var i :| 0 <= i < |t| && t[i] == s[n];
      var rest := t[..i] + t[i + 1..];
      Removed(t, i);
      Removed(s, n);
      assert s[..n] + s[n + 1..] == s[..n];
      var x := multiset{s[n]};
      assert multiset(rest) == multiset(rest) + x - x;
      assert multiset(s[..n]) == multiset(s[..n]) + x - x;
      TotalAnyOrder(s[..n], rest);
      TotalWithout(t, i);
    }
  }

  ghost predicate AllSatisfied(checks: seq<Check>) {
    forall c :: c in checks ==> c.Satisfied()
  }

  /** Satisfied checks stay satisfied when merged. */
  lemma {:induction false} TotalSatisfied(checks: seq<Check>)
    requires AllSatisfied(checks)
    ensures Total(checks).Satisfied()
    decreases |checks|
  {
    if checks != [] {
      assert checks[|checks| - 1] in checks;
      TotalSatisfied(checks[..|checks| - 1]);
    }
  }
}
