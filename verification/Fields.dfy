/**
 * Fields: what the protocols need of the scalar field, and why such a field exists.
 *
 * A Structure is a candidate field whose elements are coded by integers. IsField lists the
 * laws. ModularField builds the integers modulo a prime, and ModularFieldIsField proves the laws
 * of it, so no law is an axiom. ScalarField then speaks of one field that satisfies IsField and
 * is otherwise unknown.
 */
module Fields {

  datatype Structure = Structure(
    has: int -> bool,
    zero: int,
    one: int,
    add: (int, int) -> int,
    neg: int -> int,
    mul: (int, int) -> int,
    inv: int -> int)

  // The laws are instantiated by naming the elements with these markers, never by searching.
  predicate One(x: int) { true }
  predicate Two(x: int, y: int) { true }
  predicate Three(x: int, y: int, z: int) { true }

  ghost predicate Closed(s: Structure) {
    && s.has(s.zero) && s.has(s.one) && s.zero != s.one
    && (forall x {:trigger One(x)} :: One(x) && s.has(x) ==> s.has(s.neg(x)) && s.has(s.inv(x)))
    && (forall x, y {:trigger Two(x, y)} ::
          Two(x, y) && s.has(x) && s.has(y) ==> s.has(s.add(x, y)) && s.has(s.mul(x, y)))
  }

  ghost predicate UnaryLaws(s: Structure) {
    forall x {:trigger One(x)} :: One(x) && s.has(x) ==>
      && s.add(x, s.zero) == x
      && s.add(x, s.neg(x)) == s.zero
      && s.mul(x, s.one) == x
      && (x != s.zero ==> s.mul(x, s.inv(x)) == s.one)
  }

  ghost predicate BinaryLaws(s: Structure) {
    forall x, y {:trigger Two(x, y)} :: Two(x, y) && s.has(x) && s.has(y) ==>
      && s.add(x, y) == s.add(y, x)
      && s.mul(x, y) == s.mul(y, x)
  }

  ghost predicate TernaryLaws(s: Structure) {
    forall x, y, z {:trigger Three(x, y, z)} :: Three(x, y, z) && s.has(x) && s.has(y) && s.has(z) ==>
      && s.add(s.add(x, y), z) == s.add(x, s.add(y, z))
      && s.mul(s.mul(x, y), z) == s.mul(x, s.mul(y, z))
      && s.mul(x, s.add(y, z)) == s.add(s.mul(x, y), s.mul(x, z))
  }

  ghost predicate IsField(s: Structure) {
    Closed(s) && UnaryLaws(s) && BinaryLaws(s) && TernaryLaws(s)
  }

  // ----- the integers modulo a prime

  ghost predicate IsPrime(p: int) {
    2 <= p && forall d :: 2 <= d < p ==> p % d != 0
  }

  function Residue(p: int, x: int): (r: int)
    requires 2 <= p
    ensures 0 <= r < p
  {
    x % p
  }

  /** The least residue reachable as a multiple of x is 1, found by the division algorithm. */
  function Inverse(p: int, x: int, y: int): (r: int)
    requires 2 <= p
    ensures 0 <= r < p
    decreases Residue(p, x * y)
  {
    var d := Residue(p, x * y);
    if d <= 1 then Residue(p, y)
    else
      var next := -(p / d) * y;
      if Residue(p, x * next) < d then Inverse(p, x, next) else 0
  }

  function ModularField(p: int): Structure
    requires 2 <= p
  {
    Structure(
      x => 0 <= x < p,
      0,
      1,
      (x, y) => Residue(p, x + y),
      x => Residue(p, -x),
      (x, y) => Residue(p, x * y),
      x => Inverse(p, x, 1))
  }

  lemma ProductNonNegative(a: int, b: int)
    requires 0 <= a && 0 <= b
    ensures 0 <= a * b
  {
  }

  lemma MultipleTooLarge(p: int, k: int)
    requires 2 <= p && k != 0
    ensures k * p <= -p || p <= k * p
  {
    if 0 < k {
      ProductNonNegative(k - 1, p);
    } else {
      ProductNonNegative(-k - 1, p);
    }
  }

  lemma ResidueUnique(p: int, x: int, q: int, r: int)
    requires 2 <= p && 0 <= r < p && x == q * p + r
    ensures x % p == r
  {
    var k := q - x / p;
    assert k * p == x % p - r;
    if k != 0 {
      MultipleTooLarge(p, k);
      assert false;
    }
  }

  lemma ResidueShift(p: int, x: int, k: int)
    requires 2 <= p
    ensures (x + k * p) % p == x % p
  {
    assert x + k * p == (x / p + k) * p + x % p;
    ResidueUnique(p, x + k * p, x / p + k, x % p);
  }

  lemma ResidueAdd(p: int, x: int, y: int)
    requires 2 <= p
    ensures (x % p + y) % p == (x + y) % p
  {
    ResidueShift(p, x + y, -(x / p));
    assert x + y + -(x / p) * p == x % p + y;
  }

  lemma ResidueMul(p: int, x: int, y: int)
    requires 2 <= p
    ensures (x % p * y) % p == (x * y) % p
  {
    var k := -(x / p * y);
    ResidueShift(p, x * y, k);
    assert x % p == x - x / p * p;
    assert x % p * y == x * y + k * p by {
      calc {
        x % p * y;
        (x - x / p * p) * y;
        x * y - x / p * p * y;
        { assert x / p * p * y == x / p * y * p; }
        x * y + k * p;
      }
    }
  }

  lemma NextResidue(p: int, a: int, d: int)
    requires 2 <= p && 0 < d < p && a % p == d
    ensures (a * -(p / d)) % p == p % d
  {
    var k := p / d;
    ResidueMul(p, a, -k);
    assert d * -k == p % d + -1 * p;
    ResidueShift(p, p % d, -1);
    ResidueUnique(p, p % d, 0, p % d);
  }

  lemma {:induction false} InverseCorrect(p: int, x: int, y: int)
    requires IsPrime(p) && 0 < (x * y) % p
    ensures (x * Inverse(p, x, y)) % p == 1
    decreases Residue(p, x * y)
  {
    var d := (x * y) % p;
    if d == 1 {
      ResidueMul(p, y, x);
      assert y % p * x == x * (y % p) && y * x == x * y;
    } else {
      var next := -(p / d) * y;
      NextResidue(p, x * y, d);
      assert x * next == x * y * -(p / d);
      assert p % d != 0;
      InverseCorrect(p, x, next);
    }
  }

  lemma ModularUnary(p: int)
    requires IsPrime(p)
    ensures UnaryLaws(ModularField(p))
  {
    var s := ModularField(p);
    forall x | One(x) && s.has(x)
      ensures s.add(x, 0) == x && s.add(x, s.neg(x)) == 0 && s.mul(x, 1) == x
      ensures x != 0 ==> s.mul(x, s.inv(x)) == 1
    {
      ResidueUnique(p, x, 0, x);
      ResidueAdd(p, -x, x);
      if x != 0 {
        assert x * 1 == x;
        InverseCorrect(p, x, 1);
      }
    }
  }

  lemma ModularBinary(p: int)
    requires IsPrime(p)
    ensures BinaryLaws(ModularField(p))
  {
    var s := ModularField(p);
    forall x, y | Two(x, y) && s.has(x) && s.has(y)
      ensures s.add(x, y) == s.add(y, x) && s.mul(x, y) == s.mul(y, x)
    {
      assert x * y == y * x;
    }
  }

  lemma ResidueMulAssoc(p: int, x: int, y: int, z: int)
    requires 2 <= p
    ensures (x * y) % p * z % p == x * ((y * z) % p) % p
  {
    ResidueMul(p, x * y, z);
    ResidueMul(p, y * z, x);
    assert x * y * z == y * z * x;
    assert (y * z) % p * x == x * ((y * z) % p);
  }

  lemma ResidueDistributes(p: int, x: int, y: int, z: int)
    requires 2 <= p
    ensures x * ((y + z) % p) % p == ((x * y) % p + (x * z) % p) % p
  {
    ResidueMul(p, y + z, x);
    ResidueAdd(p, x * y, (x * z) % p);
    ResidueAdd(p, x * z, x * y);
    assert (y + z) * x == x * y + x * z;
    assert (y + z) % p * x == x * ((y + z) % p);
  }

  lemma ResidueAddAssoc(p: int, x: int, y: int, z: int)
    requires 2 <= p
    ensures ((x + y) % p + z) % p == (x + (y + z) % p) % p
  {
    var u, v := (x + y) % p, (y + z) % p;
    assert (u + z) % p == (x + y + z) % p by {
      ResidueAdd(p, x + y, z);
    }
    assert (v + x) % p == (x + y + z) % p by {
      ResidueAdd(p, y + z, x);
      assert y + z + x == x + y + z;
    }
    assert v + x == x + v;
  }

  lemma ModularTernary(p: int)
    requires IsPrime(p)
    ensures TernaryLaws(ModularField(p))
  {
    var s := ModularField(p);
    forall x, y, z | Three(x, y, z) && s.has(x) && s.has(y) && s.has(z)
      ensures s.add(s.add(x, y), z) == s.add(x, s.add(y, z))
      ensures s.mul(s.mul(x, y), z) == s.mul(x, s.mul(y, z))
      ensures s.mul(x, s.add(y, z)) == s.add(s.mul(x, y), s.mul(x, z))
    {
      ResidueAddAssoc(p, x, y, z);
      ResidueMulAssoc(p, x, y, z);
      ResidueDistributes(p, x, y, z);
    }
  }

  /** Every prime gives a field: the laws are theorems of modular arithmetic. */
  lemma ModularFieldIsField(p: int)
    requires IsPrime(p)
    ensures IsField(ModularField(p))
  {
    hide Closed, UnaryLaws, BinaryLaws, TernaryLaws;
    ModularClosed(p);
    ModularUnary(p);
    ModularBinary(p);
    ModularTernary(p);
  }

  lemma ModularClosed(p: int)
    requires 2 <= p
    ensures Closed(ModularField(p))
  {
  }

  lemma SeventeenIsPrime()
    ensures IsPrime(17)
  {
    forall d | 2 <= d < 17
      ensures 17 % d != 0
    {
      assert d == 2 || d == 3 || d == 4 || d == 5 || d == 6 || d == 7 || d == 8 || d == 9
        || d == 10 || d == 11 || d == 12 || d == 13 || d == 14 || d == 15 || d == 16;
    }
  }

  /** The field of 17 elements, the one the decoder's own examples use. */
  function Seventeen(): (s: Structure)
    ensures IsField(s)
  {
    SeventeenIsPrime();
    ModularFieldIsField(17);
    ModularField(17)
  }

  type FieldStructure = s: Structure | IsField(s) witness Seventeen()
}
