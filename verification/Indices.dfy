/** Powers of two, and the arithmetic of a position inside a row of equal blocks. */
module Indices {

  function Pow2(n: nat): (r: nat)
    ensures 1 <= r
  {
    if n == 0 then 1 else 2 * Pow2(n - 1)
  }

  predicate IsPow2(n: nat) {
    n == 1 || (2 <= n && n % 2 == 0 && IsPow2(n / 2))
  }

  /** The exponent of a power of two. */
  function Log2(n: nat): (r: nat)
    requires IsPow2(n)
    ensures Pow2(r) == n
  {
    if n == 1 then 0 else 1 + Log2(n / 2)
  }

  lemma Pow2IsPow2(n: nat)
    ensures IsPow2(Pow2(n))
  {
    if n != 0 {
      Pow2IsPow2(n - 1);
    }
  }

  lemma Pow2Add(m: nat, n: nat)
    ensures Pow2(m + n) == Pow2(m) * Pow2(n)
  {
    if m != 0 {
      Pow2Add(m - 1, n);
      DoubleProduct(Pow2(m - 1), Pow2(n));
    }
  }

  lemma DoubleProduct(a: nat, b: nat)
    ensures 2 * a * b == 2 * (a * b)
  {
  }

  lemma Pow2Monotone(m: nat, n: nat)
    ensures Pow2(m) < Pow2(n) <==> m < n
  {
    if m != 0 && n != 0 {
      Pow2Monotone(m - 1, n - 1);
    }
  }

  lemma Log2Pow2(n: nat)
    ensures IsPow2(Pow2(n)) && Log2(Pow2(n)) == n
  {
    Pow2IsPow2(n);
    var r := Log2(Pow2(n));
    Pow2Monotone(r, n);
    Pow2Monotone(n, r);
  }

  /** The position of element k of block j when every block has s elements. */
  function At(j: nat, s: nat, k: nat): nat {
    j * s + k
  }

  lemma AtInverse(j: nat, s: nat, k: nat)
    requires k < s
    ensures At(j, s, k) / s == j && At(j, s, k) % s == k
  {
    var n := At(j, s, k);
    var d := n / s - j;
    assert d * s == k - n % s;
    if d >= 1 {
      AtLeast(d, s);
      assert false;
    } else if d <= -1 {
      AtLeast(-d, s);
      assert false;
    }
  }

  lemma AtLeast(d: int, s: int)
    requires 1 <= d && 0 <= s
    ensures s <= d * s
  {
    assert d * s == s + (d - 1) * s;
  }

  lemma AtBound(j: nat, c: nat, s: nat, k: nat)
    requires j < c && k < s
    ensures At(j, s, k) < c * s
  {
    assert c * s == j * s + (c - j) * s;
    AtLeast(c - j, s);
  }

  lemma AtInjective(a: nat, i: nat, b: nat, k: nat, s: nat)
    requires i < s && k < s && At(a, s, i) == At(b, s, k)
    ensures a == b && i == k
  {
    AtInverse(a, s, i);
    AtInverse(b, s, k);
  }

  /** Joining blocks in pairs: a block of 2s is two neighbouring blocks of s. */
  lemma AtPair(j: nat, s: nat, k: nat)
    ensures At(j, 2 * s, k) == At(2 * j, s, k)
    ensures At(j, 2 * s, k + s) == At(2 * j + 1, s, k)
  {
    assert j * (2 * s) == 2 * j * s;
    assert (2 * j + 1) * s == 2 * j * s + s;
  }

  lemma Pow2Quotient(m: nat, n: nat)
    requires n <= m
    ensures Pow2(m) / Pow2(n) == Pow2(m - n)
  {
    Pow2Add(m - n, n);
    AtInverse(Pow2(m - n), Pow2(n), 0);
  }

  lemma RemainderShift(k: nat, b: nat, q: nat)
    requires 0 < q
    ensures (k + b * q) % q == k % q
  {
    assert k + b * q == At(b + k / q, q, k % q);
    AtInverse(b + k / q, q, k % q);
  }

  lemma Pow2Product(m: nat, n: nat)
    requires IsPow2(m) && IsPow2(n)
    ensures IsPow2(m * n)
  {
    Pow2Add(Log2(m), Log2(n));
    Pow2IsPow2(Log2(m) + Log2(n));
  }
}
