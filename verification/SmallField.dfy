/**
 * SmallField: the parameters of the protocols in the field of 17 elements with generator 3, the one
 * the decoder's own examples use.
 */
module SmallField {
  import opened Fields
  import opened ScalarField
  import opened Polynomials
  import opened Indices
  import opened Fourier
  import opened RootsOfUnity
  import opened Domains
  import opened DistributedFft
  import opened MpcFft
  import opened PackedSharing
  import opened SharingParameters
  import opened RecoveryBound
  import opened ProductForms
  import opened KzgOpenings

  ghost predicate IsSeventeen() {
    K == ModularField(17)
  }

  lemma Arithmetic(x: F, y: F)
    requires IsSeventeen()
    ensures 0 <= x < 17 && Add(x, y) == (x + y) % 17 && Mul(x, y) == (x * y) % 17
    ensures ZERO == 0 && ONE == 1 && Neg(ONE) == 16
  {
  }

  lemma Squares(x: F, n: nat)
    requires IsSeventeen()
    ensures Pow(x, 2 * n) == (Pow(x, n) * Pow(x, n)) % 17
  {
    hide Pow;
    PowAdd(x, n, n);
    Arithmetic(Pow(x, n), Pow(x, n));
  }

  lemma PowersOf(x: F)
    requires IsSeventeen()
    ensures Pow(x, 2) == x * x % 17
    ensures Pow(x, 4) == Pow(x, 2) * Pow(x, 2) % 17 && Pow(x, 8) == Pow(x, 4) * Pow(x, 4) % 17
  {
    hide Pow;
    PowFirst(x);
    Arithmetic(x, x);
    Squares(x, 1);
    Squares(x, 2);
    Squares(x, 4);
  }

  lemma PowersOfTwo()
    ensures IsPow2(2) && IsPow2(4) && IsPow2(8)
  {
    assert IsPow2(2) && IsPow2(4);
  }

  lemma RootOfEight(w: F)
    requires IsSeventeen() && w == 9
    ensures IsRoot(w, 8)
  {
    hide Pow, IsPow2, Neg;
    Arithmetic(ONE, ONE);
    PowersOf(w);
    hide IsSeventeen;
    PowersOfTwo();
    FourthPower(w);
  }

  lemma FourthPower(w: F)
    requires IsSeventeen() && w == 9
    ensures Pow(w, 4) == Neg(ONE)
  {
    hide Pow, Neg;
    Arithmetic(ONE, ONE);
    PowersOf(w);
    assert Pow(w, 2) == 13;
  }

  lemma OffsetApart(g: F)
    requires IsSeventeen() && g == 3
    ensures g != ZERO && Pow(g, 8) != ONE
  {
    hide Pow;
    PowersOf(g);
    Arithmetic(g, g);
  }

  /** The short constructor with packing factor 2 gives valid parameters, and the secrets lie apart from the shares. */
  lemma SharingInSeventeen()
    requires IsSeventeen()
    ensures K.has(9) && K.has(3) && OddCharacteristic()
    ensures var pp := NewUnchecked(8, 2, 2, 9, 9, 3); pp.Valid() && CosetApart(pp)
  {
    hide Pow, IsPow2, IsRoot, Params.Valid;
    assert K.has(9) && K.has(3);
    var w: F, g: F := 9, 3;
    Arithmetic(w, g);
    RootOfEight(w);
    OffsetApart(g);
    PowersOfTwo();
    NewIsValid(8, 2, 2, w, w, g);
  }

  /** Four values in two chunks of two, for the distributed transform. */
  lemma TransformInSeventeen()
    requires IsSeventeen()
    ensures K.has(13) && Size(2, 2, 13).Valid()
  {
    hide Pow;
    assert K.has(13);
    var w: F := 13;
    Arithmetic(w, w);
    PowersOf(w);
    PowersOfTwo();
  }

  lemma ProductOne(y: F)
    ensures ProductForm([ONE], y) == Add(ONE, y)
  {
    hide Pow;
    assert [ONE][..0] == [];
    PowFirst(y);
    MulOne(y);
    MulOne(Add(ONE, y));
    assert ProductForm([], y) == ONE;
  }

  /** A point where the value subtracted in the w opening is not that of the polynomial. */
  lemma SubtractedDiffers(z: F)
    requires IsSeventeen() && z == 2
    ensures Mul(ProductForm([ONE], Mul(z, ONE)), Pow(z, |Shifted([ONE], ONE)|)) != Eval(Shifted([ONE], ONE), z)
  {
    hide Pow, ProductForm, Shifted, Eval;
    PowersOf(z);
    Arithmetic(ONE, z);
    MulOne(z);
    ProductOne(z);
    SubtractedExact([ONE], ONE, z);
    ShiftedEval([ONE], ONE, z);
    Arithmetic(Pow(z, 2), ProductForm([ONE], z));
    assert Pow2(1) == 2;
  }
}
