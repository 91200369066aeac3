/** SharingParameters: which numbers of parties, secrets and corruptions the constructors accept. */
module SharingParameters {
  import opened ScalarField
  import opened Polynomials
  import opened Indices
  import opened Fourier
  import opened RootsOfUnity
  import opened Domains
  import opened PackedSharing

  /** The four assertions of the explicit constructor. */
  predicate Checked(n: nat, l: nat, t: nat) {
    IsPow2(n) && IsPow2(l + t) && 2 * (l + t) <= n && t < n / 2 - l
  }

  datatype Built = Panic | Ready(pp: Params)

  /** The domains come from a root of order n, whose powers have the other orders, and the offset of the cosets. */
  function NewUnchecked(n: nat, l: nat, t: nat, root: F, root2: F, offset: F): Params {
    Params(t, l, n, Domain(n, root, ONE), Domain(l + t, Mul(root2, root2), offset), Domain(2 * (l + t), root2, offset))
  }

  function NewWithParams(n: nat, l: nat, t: nat, root: F, root2: F, offset: F): Built {
    if Checked(n, l, t) then Ready(NewUnchecked(n, l, t, root, root2, offset)) else Panic
  }

  /** The last assertion makes the third strict. */
  lemma CheckedIsStrict(n: nat, l: nat, t: nat)
    ensures Checked(n, l, t) <==> IsPow2(n) && IsPow2(l + t) && 2 * (l + t) < n
  {
    if IsPow2(n) && n != 1 {
      assert n == 2 * (n / 2);
    }
  }

  /** The explicit constructor refuses the parameters that the short constructor uses. */
  lemma DefaultIsRefused(l: nat, root: F, root2: F, offset: F)
    ensures NewWithParams(4 * l, l, l, root, root2, offset) == Panic
  {
    CheckedIsStrict(4 * l, l, l);
  }

  /** Both constructors give valid parameters when the library's roots and offset are what they should be. */
  lemma NewIsValid(n: nat, l: nat, t: nat, root: F, root2: F, offset: F)
    requires offset != ZERO && OddCharacteristic() && IsPow2(n) && IsPow2(l + t)
    requires IsRoot(root, n) && IsRoot(root2, 2 * (l + t))
    requires (n == 4 * l && t == l) || Checked(n, l, t)
    ensures NewUnchecked(n, l, t, root, root2, offset).Valid()
  {
    hide IsPow2;
    OneIsNotZero();
    assert IsPow2(2 * (l + t)) by {
      DoublePow2(l + t);
    }
    RootSquare(root2, 2 * (l + t));
  }

  /** The explicit constructor returns exactly when its four assertions hold, and then with what was asked for. */
  lemma NewWithParamsExact(n: nat, l: nat, t: nat, root: F, root2: F, offset: F)
    requires offset != ZERO && OddCharacteristic()
    requires IsPow2(n) ==> IsRoot(root, n)
    requires IsPow2(l + t) ==> IsRoot(root2, 2 * (l + t))
    ensures var r := NewWithParams(n, l, t, root, root2, offset);
      && (r.Ready? <==> IsPow2(n) && IsPow2(l + t) && 2 * (l + t) <= n && t < n / 2 - l)
      && (r.Ready? ==>
           && r.pp.n == n && r.pp.l == l && r.pp.t == t && r.pp.Valid()
           && r.pp.share == Domain(n, root, ONE) && r.pp.secret.size == l + t && r.pp.secret2.size == 2 * (l + t)
           && forall i: nat :: r.pp.secret2.Element(2 * i) == r.pp.secret.Element(i))
  {
    hide IsPow2, Params.Valid, OddCharacteristic;
    if Checked(n, l, t) {
      NewIsValid(n, l, t, root, root2, offset);
      forall i: nat
        ensures Pow(root2, 2 * i) == Pow(Mul(root2, root2), i)
      {
        PowMul(root2, 2, i);
        PowFirst(root2);
      }
    }
  }

  lemma DoublePow2(m: nat)
    requires IsPow2(m)
    ensures IsPow2(2 * m)
  {
  }
}
