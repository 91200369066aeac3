/**
 * ScalarField: the field all shares, coefficients and exponents live in.
 *
 * K is some field; nothing else is known of it, so what is proved here holds for every field.
 */
module ScalarField {
  import opened Fields

  const K: FieldStructure

  type F = x: int | K.has(x) witness K.zero

  const ZERO: F := K.zero
  const ONE: F := K.one

  function Add(x: F, y: F): F {
    assert Two(x, y);
    K.add(x, y)
  }

  function Neg(x: F): F {
    assert One(x);
    K.neg(x)
  }

  function Sub(x: F, y: F): F {
    Add(x, Neg(y))
  }

  function Mul(x: F, y: F): F {
    assert Two(x, y);
    K.mul(x, y)
  }

  /** The inverse of a nonzero element. The inverse of zero exists, but nothing is known of it. */
  function Inv(x: F): F {
    assert One(x);
    K.inv(x)
  }

  function Pow(x: F, n: nat): F {
    if n == 0 then ONE else Mul(Pow(x, n - 1), x)
  }

  // ----- laws

  lemma OneIsNotZero()
    ensures ONE != ZERO
  {
  }

  lemma AddComm(x: F, y: F)
    ensures Add(x, y) == Add(y, x)
  {
    assert Two(x, y);
  }

  lemma AddAssoc(x: F, y: F, z: F)
    ensures Add(Add(x, y), z) == Add(x, Add(y, z))
  {
    assert Three(x, y, z);
  }

  lemma AddZero(x: F)
    ensures Add(x, ZERO) == x && Add(ZERO, x) == x
  {
    assert One(x);
    AddComm(x, ZERO);
  }

  lemma AddNeg(x: F)
    ensures Add(x, Neg(x)) == ZERO && Add(Neg(x), x) == ZERO && Sub(x, x) == ZERO
  {
    assert One(x);
    AddComm(x, Neg(x));
  }

  lemma MulComm(x: F, y: F)
    ensures Mul(x, y) == Mul(y, x)
  {
    assert Two(x, y);
  }

  lemma MulAssoc(x: F, y: F, z: F)
    ensures Mul(Mul(x, y), z) == Mul(x, Mul(y, z))
  {
    assert Three(x, y, z);
  }

  lemma MulOne(x: F)
    ensures Mul(x, ONE) == x && Mul(ONE, x) == x
  {
    assert One(x);
    MulComm(x, ONE);
  }

  lemma MulInv(x: F)
    requires x != ZERO
    ensures Mul(x, Inv(x)) == ONE && Mul(Inv(x), x) == ONE
  {
    assert One(x);
    MulComm(x, Inv(x));
  }

  lemma Distrib(x: F, y: F, z: F)
    ensures Mul(x, Add(y, z)) == Add(Mul(x, y), Mul(x, z))
    ensures Mul(Add(y, z), x) == Add(Mul(y, x), Mul(z, x))
  {
    assert Three(x, y, z);
    MulComm(x, Add(y, z));
    MulComm(x, y);
    MulComm(x, z);
  }

  // ----- consequences

  lemma AddCancel(x: F, y: F, z: F)
    requires Add(x, z) == Add(y, z)
    ensures x == y
  {
    AddAssoc(x, z, Neg(z));
    AddAssoc(y, z, Neg(z));
    AddNeg(z);
    AddZero(x);
    AddZero(y);
  }

  lemma AddSwap(a: F, b: F, c: F, d: F)
    ensures Add(Add(a, b), Add(c, d)) == Add(Add(a, c), Add(b, d))
  {
    AddAssoc(a, b, Add(c, d));
    AddAssoc(b, c, d);
    AddComm(b, c);
    AddAssoc(c, b, d);
    AddAssoc(a, c, Add(b, d));
  }

  lemma MulSwap(a: F, b: F, c: F, d: F)
    ensures Mul(Mul(a, b), Mul(c, d)) == Mul(Mul(a, c), Mul(b, d))
  {
    MulAssoc(a, b, Mul(c, d));
    MulAssoc(b, c, d);
    MulComm(b, c);
    MulAssoc(c, b, d);
    MulAssoc(a, c, Mul(b, d));
  }

  lemma MulRotate(a: F, b: F, c: F)
    ensures Mul(a, Mul(b, c)) == Mul(b, Mul(a, c))
  {
    MulAssoc(a, b, c);
    MulComm(a, b);
    MulAssoc(b, a, c);
  }

  lemma MulZero(x: F)
    ensures Mul(x, ZERO) == ZERO && Mul(ZERO, x) == ZERO
  {
    AddZero(ZERO);
    Distrib(x, ZERO, ZERO);
    AddZero(Mul(x, ZERO));
    AddCancel(Mul(x, ZERO), ZERO, Mul(x, ZERO));
    MulComm(x, ZERO);
  }

  lemma NegUnique(x: F, y: F)
    requires Add(x, y) == ZERO
    ensures y == Neg(x)
  {
    AddNeg(x);
    AddComm(x, y);
    AddCancel(y, Neg(x), x);
  }

  lemma NegZero()
    ensures Neg(ZERO) == ZERO
  {
    AddZero(ZERO);
    NegUnique(ZERO, ZERO);
  }

  lemma NegNeg(x: F)
    ensures Neg(Neg(x)) == x
  {
    AddNeg(x);
    NegUnique(Neg(x), x);
  }

  lemma NegAdd(x: F, y: F)
    ensures Neg(Add(x, y)) == Add(Neg(x), Neg(y))
  {
    AddSwap(x, y, Neg(x), Neg(y));
    AddNeg(x);
    AddNeg(y);
    AddZero(ZERO);
    NegUnique(Add(x, y), Add(Neg(x), Neg(y)));
  }

  lemma NegMul(x: F, y: F)
    ensures Mul(Neg(x), y) == Neg(Mul(x, y)) && Mul(x, Neg(y)) == Neg(Mul(x, y))
  {
    Distrib(y, x, Neg(x));
    AddNeg(x);
    MulZero(y);
    NegUnique(Mul(x, y), Mul(Neg(x), y));
    Distrib(x, y, Neg(y));
    AddNeg(y);
    MulZero(x);
    NegUnique(Mul(x, y), Mul(x, Neg(y)));
  }

  lemma SubZeroIffEqual(x: F, y: F)
    ensures Sub(x, y) == ZERO <==> x == y
  {
    AddNeg(x);
    if Sub(x, y) == ZERO {
      AddNeg(y);
      AddCancel(x, y, Neg(y));
    }
  }

  lemma SubAdd(x: F, y: F)
    ensures Add(Sub(x, y), y) == x && Sub(Add(x, y), y) == x
  {
    AddAssoc(x, Neg(y), y);
    AddAssoc(x, y, Neg(y));
    AddNeg(y);
    AddZero(x);
  }

  lemma SubSwap(a: F, b: F, c: F, d: F)
    ensures Sub(Add(a, b), Add(c, d)) == Add(Sub(a, c), Sub(b, d))
  {
    NegAdd(c, d);
    AddSwap(a, b, Neg(c), Neg(d));
  }

  lemma DistribSub(x: F, y: F, z: F)
    ensures Mul(x, Sub(y, z)) == Sub(Mul(x, y), Mul(x, z))
    ensures Mul(Sub(y, z), x) == Sub(Mul(y, x), Mul(z, x))
  {
    Distrib(x, y, Neg(z));
    NegMul(x, z);
    NegMul(z, x);
  }

  /** A field has no zero divisors. */
  lemma NoZeroDivisors(x: F, y: F)
    ensures Mul(x, y) == ZERO <==> x == ZERO || y == ZERO
  {
    MulZero(x);
    MulZero(y);
    if Mul(x, y) == ZERO && x != ZERO {
      MulInv(x);
      MulAssoc(Inv(x), x, y);
      MulOne(y);
      MulZero(Inv(x));
    }
  }

  lemma MulCancel(x: F, y: F, z: F)
    requires z != ZERO && Mul(x, z) == Mul(y, z)
    ensures x == y
  {
    MulAssoc(x, z, Inv(z));
    MulAssoc(y, z, Inv(z));
    MulInv(z);
    MulOne(x);
    MulOne(y);
  }

  lemma InvUnique(x: F, y: F)
    requires Mul(x, y) == ONE
    ensures x != ZERO && y != ZERO && Inv(x) == y && Inv(y) == x
  {
    MulZero(x);
    MulZero(y);
    OneIsNotZero();
    MulInv(x);
    MulInv(y);
    MulComm(x, y);
    MulCancel(Inv(x), y, x);
    MulCancel(Inv(y), x, y);
  }

  lemma InvNonZero(x: F)
    requires x != ZERO
    ensures Inv(x) != ZERO && Inv(Inv(x)) == x
  {
    MulInv(x);
    InvUnique(x, Inv(x));
  }

  // ----- powers

  lemma PowAdd(x: F, m: nat, n: nat)
    ensures Pow(x, m + n) == Mul(Pow(x, m), Pow(x, n))
  {
    if n == 0 {
      MulOne(Pow(x, m));
    } else {
      PowAdd(x, m, n - 1);
      MulAssoc(Pow(x, m), Pow(x, n - 1), x);
    }
  }

  lemma PowOne(n: nat)
    ensures Pow(ONE, n) == ONE
  {
    if n != 0 {
      PowOne(n - 1);
      MulOne(ONE);
    }
  }

  lemma PowFirst(x: F)
    ensures Pow(x, 1) == x && Pow(x, 0) == ONE && Pow(x, 2) == Mul(x, x)
  {
    MulOne(x);
    assert Pow(x, 1) == Mul(Pow(x, 0), x);
    assert Pow(x, 2) == Mul(Pow(x, 1), x);
  }

  lemma PowMul(x: F, m: nat, n: nat)
    ensures Pow(x, m * n) == Pow(Pow(x, m), n)
  {
    if n != 0 {
      PowMul(x, m, n - 1);
      PowAdd(x, m * (n - 1), m);
      assert m * n == m * (n - 1) + m;
    }
  }

  lemma PowSwap(x: F, m: nat, n: nat)
    ensures Pow(Pow(x, m), n) == Pow(Pow(x, n), m)
  {
    hide Pow;
    PowMul(x, m, n);
    PowMul(x, n, m);
    assert m * n == n * m;
  }

  lemma PowProduct(x: F, y: F, n: nat)
    ensures Pow(Mul(x, y), n) == Mul(Pow(x, n), Pow(y, n))
  {
    if n == 0 {
      MulOne(ONE);
    } else {
      PowProduct(x, y, n - 1);
      MulSwap(Pow(x, n - 1), Pow(y, n - 1), x, y);
    }
  }

  lemma PowNonZero(x: F, n: nat)
    requires x != ZERO
    ensures Pow(x, n) != ZERO
  {
    if n == 0 {
      OneIsNotZero();
    } else {
      PowNonZero(x, n - 1);
      NoZeroDivisors(Pow(x, n - 1), x);
    }
  }
}
