/**
 * SharedVectors: vectors of packed sharings, held party by party.
 *
 * sh[i] is what party i holds, one share per entry. Represents relates the shares to the rows of
 * secrets they stand for; every protocol step is stated as what it does to the rows.
 */
module SharedVectors {
  import opened ScalarField
  import opened Polynomials
  import opened Domains
  import opened InnerProducts
  import opened PackedSharing

  /** The values at x of a list of polynomials. */
  function ValuesAt(ps: seq<Vec>, x: F): (r: Vec)
    ensures |r| == |ps|
  {
    seq(|ps|, e requires 0 <= e < |ps| => Eval(ps[e], x))
  }

  /** sh are shares of the polynomials ps, each of at most size coefficients. */
  ghost predicate Sharing(pp: Params, sh: seq<Vec>, ps: seq<Vec>, size: nat) {
    && |sh| == pp.n
    && (forall i :: 0 <= i < pp.n ==> sh[i] == ValuesAt(ps, pp.share.Element(i)))
    && (forall e :: 0 <= e < |ps| ==> |ps[e]| <= size)
  }

  function SecretRows(pp: Params, ps: seq<Vec>): (r: seq<Vec>)
    ensures |r| == |ps|
  {
    seq(|ps|, e requires 0 <= e < |ps| => Secrets(pp, ps[e]))
  }

  /** sh are sharings, of at most size coefficients, of the rows of secrets. */
  ghost predicate Represents(pp: Params, sh: seq<Vec>, rows: seq<Vec>, size: nat) {
    exists ps :: Sharing(pp, sh, ps, size) && SecretRows(pp, ps) == rows
  }

  function Column(sh: seq<Vec>, e: nat): (r: Vec)
    requires forall i :: 0 <= i < |sh| ==> e < |sh[i]|
    ensures |r| == |sh|
  {
    seq(|sh|, i requires 0 <= i < |sh| => sh[i][e])
  }

  /** Every party holds one share for each of count entries. */
  ghost predicate Rectangular(sh: seq<Vec>, count: nat) {
    forall i :: 0 <= i < |sh| ==> |sh[i]| == count
  }

  lemma RepresentsShape(pp: Params, sh: seq<Vec>, rows: seq<Vec>, size: nat)
    requires Represents(pp, sh, rows, size)
    ensures |sh| == pp.n && Rectangular(sh, |rows|)
    ensures forall e :: 0 <= e < |rows| ==> |rows[e]| == pp.l
  {
    var ps :| Sharing(pp, sh, ps, size) && SecretRows(pp, ps) == rows;
  }

  lemma RepresentsWeaken(pp: Params, sh: seq<Vec>, rows: seq<Vec>, size: nat, size': nat)
    requires Represents(pp, sh, rows, size) && size <= size'
    ensures Represents(pp, sh, rows, size')
  {
    var ps :| Sharing(pp, sh, ps, size) && SecretRows(pp, ps) == rows;
    assert Sharing(pp, sh, ps, size');
  }

  // ----- what parties do on their own

  function MapAdd(a: seq<Vec>, b: seq<Vec>): (r: seq<Vec>)
    requires |a| == |b| && forall i :: 0 <= i < |a| ==> |a[i]| == |b[i]|
    ensures |r| == |a| && forall i :: 0 <= i < |a| ==> |r[i]| == |a[i]|
  {
    seq(|a|, i requires 0 <= i < |a| => VAdd(a[i], b[i]))
  }

  function MapMul(a: seq<Vec>, b: seq<Vec>): (r: seq<Vec>)
    requires |a| == |b| && forall i :: 0 <= i < |a| ==> |a[i]| == |b[i]|
    ensures |r| == |a| && forall i :: 0 <= i < |a| ==> |r[i]| == |a[i]|
  {
    seq(|a|, i requires 0 <= i < |a| => VMul(a[i], b[i]))
  }

  function MapScale(c: F, a: seq<Vec>): (r: seq<Vec>)
    ensures |r| == |a| && forall i :: 0 <= i < |a| ==> |r[i]| == |a[i]|
  {
    seq(|a|, i requires 0 <= i < |a| => VScale(c, a[i]))
  }

  lemma AddRepresents(pp: Params, a: seq<Vec>, b: seq<Vec>, ra: seq<Vec>, rb: seq<Vec>, size: nat)
    requires Represents(pp, a, ra, size) && Represents(pp, b, rb, size) && |ra| == |rb|
    ensures |a| == |b| && forall i :: 0 <= i < |a| ==> |a[i]| == |b[i]|
    ensures forall e :: 0 <= e < |ra| ==> |ra[e]| == |rb[e]|
    ensures Represents(pp, MapAdd(a, b), MapAdd(ra, rb), size)
  {
    RepresentsShape(pp, a, ra, size);
    RepresentsShape(pp, b, rb, size);
    var ps :| Sharing(pp, a, ps, size) && SecretRows(pp, ps) == ra;
    var qs :| Sharing(pp, b, qs, size) && SecretRows(pp, qs) == rb;
    var rs := seq(|ps|, e requires 0 <= e < |ps| => PAdd(ps[e], qs[e]));
    forall i | 0 <= i < pp.n
      ensures MapAdd(a, b)[i] == ValuesAt(rs, pp.share.Element(i))
    {
      forall e | 0 <= e < |ps|
        ensures VAdd(a[i], b[i])[e] == Eval(rs[e], pp.share.Element(i))
      {
        EvalPAdd(ps[e], qs[e], pp.share.Element(i));
      }
    }
    assert Sharing(pp, MapAdd(a, b), rs, size);
    forall e | 0 <= e < |ps|
      ensures SecretRows(pp, rs)[e] == MapAdd(ra, rb)[e]
    {
      SecretsAdd(pp, ps[e], qs[e]);
      assert ra[e] == Secrets(pp, ps[e]) && rb[e] == Secrets(pp, qs[e]);
    }
    assert SecretRows(pp, rs) == MapAdd(ra, rb);
  }

  lemma MulRepresents(pp: Params, a: seq<Vec>, b: seq<Vec>, ra: seq<Vec>, rb: seq<Vec>, size: nat)
    requires Represents(pp, a, ra, size) && Represents(pp, b, rb, size) && |ra| == |rb| && 0 < size
    ensures |a| == |b| && forall i :: 0 <= i < |a| ==> |a[i]| == |b[i]|
    ensures forall e :: 0 <= e < |ra| ==> |ra[e]| == |rb[e]|
    ensures Represents(pp, MapMul(a, b), MapMul(ra, rb), 2 * size - 1)
  {
    RepresentsShape(pp, a, ra, size);
    RepresentsShape(pp, b, rb, size);
    var ps :| Sharing(pp, a, ps, size) && SecretRows(pp, ps) == ra;
    var qs :| Sharing(pp, b, qs, size) && SecretRows(pp, qs) == rb;
    var rs := seq(|ps|, e requires 0 <= e < |ps| => PMul(ps[e], qs[e]));
    forall i | 0 <= i < pp.n
      ensures MapMul(a, b)[i] == ValuesAt(rs, pp.share.Element(i))
    {
      forall e | 0 <= e < |ps|
        ensures VMul(a[i], b[i])[e] == Eval(rs[e], pp.share.Element(i))
      {
        EvalPMul(ps[e], qs[e], pp.share.Element(i));
      }
    }
    assert Sharing(pp, MapMul(a, b), rs, 2 * size - 1);
    forall e | 0 <= e < |ps|
      ensures SecretRows(pp, rs)[e] == MapMul(ra, rb)[e]
    {
      SecretsMul(pp, ps[e], qs[e]);
      assert ra[e] == Secrets(pp, ps[e]) && rb[e] == Secrets(pp, qs[e]);
    }
    assert SecretRows(pp, rs) == MapMul(ra, rb);
  }

  lemma ScaleRepresents(pp: Params, c: F, a: seq<Vec>, ra: seq<Vec>, size: nat)
    requires Represents(pp, a, ra, size)
    ensures Represents(pp, MapScale(c, a), MapScale(c, ra), size)
  {
    RepresentsShape(pp, a, ra, size);
    var ps :| Sharing(pp, a, ps, size) && SecretRows(pp, ps) == ra;
    var rs := MapScale(c, ps);
    forall i | 0 <= i < pp.n
      ensures MapScale(c, a)[i] == ValuesAt(rs, pp.share.Element(i))
    {
      forall e | 0 <= e < |ps|
        ensures VScale(c, a[i])[e] == Eval(rs[e], pp.share.Element(i))
      {
        EvalScale(c, ps[e], pp.share.Element(i));
      }
    }
    assert Sharing(pp, MapScale(c, a), rs, size);
    forall e | 0 <= e < |ps|
      ensures SecretRows(pp, rs)[e] == MapScale(c, ra)[e]
    {
      SecretsScale(pp, c, ps[e]);
      assert ra[e] == Secrets(pp, ps[e]);
    }
    assert SecretRows(pp, rs) == MapScale(c, ra);
  }

  lemma SecretsScale(pp: Params, c: F, p: Vec)
    ensures Secrets(pp, VScale(c, p)) == VScale(c, Secrets(pp, p))
  {
    forall j | 0 <= j < pp.l
      ensures Secrets(pp, VScale(c, p))[j] == VScale(c, Secrets(pp, p))[j]
    {
      EvalScale(c, p, pp.secret.Element(j));
    }
  }

  // ----- what the king does

  /** The messages of the parties heard from, in the order they are listed. */
  function Received(sh: seq<Vec>, parties: seq<nat>): (r: seq<Vec>)
    requires forall k :: 0 <= k < |parties| ==> parties[k] < |sh|
    ensures |r| == |parties|
  {
    seq(|parties|, k requires 0 <= k < |parties| => sh[parties[k]])
  }

  /** Entry by entry, the king transposes what it received and unpacks it. */
  function Recover(pp: Params, received: seq<Vec>, parties: seq<nat>, count: nat): (r: seq<Vec>)
    requires pp.Valid() && |received| == |parties| && Rectangular(received, count)
    ensures |r| == count && forall e :: 0 <= e < count ==> |r[e]| == pp.l
  {
    seq(count, e requires 0 <= e < count => UnpackMissingShares(pp, Column(received, e), parties))
  }

  /** The king recovers the rows of secrets from whoever answered, if enough did. */
  lemma RecoverRows(pp: Params, sh: seq<Vec>, rows: seq<Vec>, parties: seq<nat>)
    requires pp.Valid() && Represents(pp, sh, rows, pp.ProductSize())
    requires Heard(pp, parties) && pp.ProductSize() <= |parties|
    ensures |sh| == pp.n && Rectangular(sh, |rows|)
    ensures Recover(pp, Received(sh, parties), parties, |rows|) == rows
  {
    RepresentsShape(pp, sh, rows, pp.ProductSize());
    var ps :| Sharing(pp, sh, ps, pp.ProductSize()) && SecretRows(pp, ps) == rows;
    var received := Received(sh, parties);
    forall e | 0 <= e < |rows|
      ensures UnpackMissingShares(pp, Column(received, e), parties) == rows[e]
    {
      assert Column(received, e) == SharesAt(pp, ps[e], parties);
      RecoverSecrets(pp, ps[e], parties);
    }
  }

  /** Packing rows and handing out the shares, party by party. */
  function Deal(pp: Params, rows: seq<Vec>, rands: seq<Vec>): (r: seq<Vec>)
    requires |rands| == |rows| && pp.share.size == pp.n
    ensures |r| == pp.n && Rectangular(r, |rows|)
  {
    seq(pp.n, i requires 0 <= i < pp.n =>
      seq(|rows|, e requires 0 <= e < |rows| => Pack(pp, rows[e], rands[e])[i]))
  }

  ghost predicate Randomness(pp: Params, rands: seq<Vec>, count: nat) {
    |rands| == count && forall e :: 0 <= e < count ==> |rands[e]| == pp.t
  }

  ghost predicate IsRows(pp: Params, rows: seq<Vec>) {
    forall e :: 0 <= e < |rows| ==> |rows[e]| == pp.l
  }

  lemma DealRepresents(pp: Params, rows: seq<Vec>, rands: seq<Vec>)
    requires pp.Valid() && IsRows(pp, rows) && Randomness(pp, rands, |rows|)
    ensures Represents(pp, Deal(pp, rows, rands), rows, pp.l + pp.t)
  {
    var ps := seq(|rows|, e requires 0 <= e < |rows| => PackPoly(pp, rows[e], rands[e]));
    var sh := Deal(pp, rows, rands);
    forall i, e | 0 <= i < pp.n && 0 <= e < |rows|
      ensures sh[i][e] == Eval(ps[e], pp.share.Element(i))
    {
      PackIsSharing(pp, rows[e], rands[e]);
    }
    forall i | 0 <= i < pp.n
      ensures sh[i] == ValuesAt(ps, pp.share.Element(i))
    {
    }
    assert Sharing(pp, sh, ps, pp.l + pp.t);
    forall e | 0 <= e < |rows|
      ensures SecretRows(pp, ps)[e] == rows[e]
    {
      PackIsSharing(pp, rows[e], rands[e]);
    }
    assert SecretRows(pp, ps) == rows;
  }
}
