/**
 sss_create_keyshares and sss_combine_keyshares: the loops over bitsliced words,
 proved against the byte-wise scheme of Shamir lane by lane.
 */
module KeyShares {
  import opened Bytes
  import opened GF256
  import opened Polynomials
  import opened Bitslice
  import opened Hazmat
  import opened Shamir

  /** The first n rows of poly, as slices: what randombytes put there. */
  function Rows(poly: seq<array<bv32>>, n: nat): (s: seq<Slice>)
    requires n <= |poly| && forall i :: 0 <= i < |poly| ==> poly[i].Length == 8
    reads poly
    ensures |s| == n && forall i :: 0 <= i < n ==> s[i] == Load(poly[i])
  {
    seq(n, i requires 0 <= i < n && i < |poly| && poly[i].Length == 8 reads poly => Load(poly[i]))
  }

  /** Sets every lane of r to 1. */
  method SetOne(r: array<bv32>)
    requires r.Length == 8
    modifies r
    ensures Load(r) == ONE
  {
    for i := 1 to 8
      invariant forall b :: 1 <= b < i ==> r[b] == 0
    {
      r[i] := 0;
    }
    r[0] := 0xffff_ffff;
  }

  /** One step of the share polynomial's evaluation. */
  lemma ShareStep(key: seq<bv8>, coeffs: seq<Slice>, c: nat, x: bv8, y: Slice, xpow: Slice, xs: Slice, l: nat)
    requires |key| == LANES && c < |coeffs| && l < LANES
    requires Lane(xs, l) == x
    requires Lane(xpow, l) == Pow(x, c)
    requires Lane(y, l) == Eval(SharePoly(key, coeffs[..c], l), x)
    ensures Lane(MulW(xpow, xs), l) == Pow(x, c + 1)
    ensures Lane(AddW(y, MulW(MulW(xpow, xs), coeffs[c])), l) == Eval(SharePoly(key, coeffs[..c + 1], l), x)
  {
    hide Lane, Mul, Add, MulW, AddW, Eval;
    LaneMul(xpow, xs, l);
    MulComm(Pow(x, c), x);
    LaneMul(MulW(xpow, xs), coeffs[c], l);
    LaneAdd(y, MulW(MulW(xpow, xs), coeffs[c]), l);
    EvalAppend(SharePoly(key, coeffs[..c], l), Lane(coeffs[c], l), x);
    assert SharePoly(key, coeffs[..c + 1], l) == SharePoly(key, coeffs[..c], l) + [Lane(coeffs[c], l)];
  }

  /** The state of the coefficient loop, in every lane. */
  ghost predicate Evaluated(key: seq<bv8>, coeffs: seq<Slice>, c: nat, x: bv8, y: Slice, xpow: Slice)
    requires |key| == LANES && c <= |coeffs|
  {
    forall l :: 0 <= l < LANES ==>
      Lane(xpow, l) == Pow(x, c) && Lane(y, l) == Eval(SharePoly(key, coeffs[..c], l), x)
  }

  lemma EvaluatedStart(key: seq<bv8>, coeffs: seq<Slice>, x: bv8, poly0: Slice)
    requires |key| == LANES && Lanes(poly0) == key
    ensures Evaluated(key, coeffs, 0, x, AddW(ZERO, poly0), ONE)
  {
    hide Lane, Eval, Add, AddW;
    forall l | 0 <= l < LANES
      ensures Lane(ONE, l) == Pow(x, 0) && Lane(AddW(ZERO, poly0), l) == Eval(SharePoly(key, coeffs[..0], l), x)
    {
      LaneConstants(l);
      LaneAdd(ZERO, poly0, l);
      AddZero(Lane(poly0, l));
      assert Lanes(poly0)[l] == key[l];
      assert SharePoly(key, coeffs[..0], l) == [key[l]];
      EvalConstant(key[l], x);
    }
  }

  lemma EvaluatedNext(key: seq<bv8>, coeffs: seq<Slice>, c: nat, x: bv8, y: Slice, xpow: Slice, xs: Slice)
    requires |key| == LANES && c < |coeffs|
    requires Evaluated(key, coeffs, c, x, y, xpow)
    requires forall l :: 0 <= l < LANES ==> Lane(xs, l) == x
    ensures Evaluated(key, coeffs, c + 1, x, AddW(y, MulW(MulW(xpow, xs), coeffs[c])), MulW(xpow, xs))
  {
    hide Lane, Eval, MulW, AddW;
    forall l | 0 <= l < LANES
      ensures Lane(MulW(xpow, xs), l) == Pow(x, c + 1)
      ensures Lane(AddW(y, MulW(MulW(xpow, xs), coeffs[c])), l) == Eval(SharePoly(key, coeffs[..c + 1], l), x)
    {
      ShareStep(key, coeffs, c, x, y, xpow, xs, l);
    }
  }

  lemma EvaluatedShare(key: seq<bv8>, coeffs: seq<Slice>, x: bv8, y: Slice, xpow: Slice)
    requires |key| == LANES
    requires Evaluated(key, coeffs, |coeffs|, x, y, xpow)
    ensures [x] + Lanes(y) == Keyshare(key, coeffs, x)
  {
    hide Lane, Eval;
    assert coeffs[..|coeffs|] == coeffs;
    forall l | 0 <= l < LANES ensures Lanes(y)[l] == Keyshare(key, coeffs, x)[1 + l] {
    }
  }

  /** The body of the coefficient loop: raises the power of x, and adds its term. */
  method EvaluateTerm(y: array<bv32>, xpow: array<bv32>, x: array<bv32>, coeff: array<bv32>)
    requires y.Length == xpow.Length == x.Length == coeff.Length == 8
    requires y != xpow && y != x && y != coeff && xpow != x && xpow != coeff
    modifies y, xpow
    ensures Load(xpow) == MulW(old(Load(xpow)), Load(x))
    ensures Load(y) == AddW(old(Load(y)), MulW(MulW(old(Load(xpow)), Load(x)), Load(coeff)))
  {
    hide Load, MulW, AddW;
    var tmp := new bv32[8];
    MulInto(xpow, xpow, x);
    MulInto(tmp, xpow, coeff);
    AddInto(y, tmp);
  }

  /** y := the share polynomial at x in every lane, by the coefficient loop. */
  method EvaluateShare(y: array<bv32>, poly0: array<bv32>, poly: seq<array<bv32>>, x: array<bv32>,
                       ghost key: seq<bv8>, ghost xByte: bv8)
    requires y.Length == poly0.Length == x.Length == 8
    requires forall i :: 0 <= i < |poly| ==> poly[i].Length == 8 && poly[i] != y
    requires y != poly0 && y != x
    requires |key| == LANES && Lanes(Load(poly0)) == key
    requires forall l :: 0 <= l < LANES ==> Lane(Load(x), l) == xByte
    modifies y
    ensures [xByte] + Lanes(Load(y)) == Keyshare(key, Rows(poly, |poly|), xByte)
  {
    hide Load, Evaluated, Keyshare, Lane, MulW, AddW;
    ghost var coeffs := Rows(poly, |poly|);
    var xpow := new bv32[8];
    SetZero(y);
    SetOne(xpow);
    AddInto(y, poly0);
    EvaluatedStart(key, coeffs, xByte, Load(poly0));
    for c := 0 to |poly|
      invariant Evaluated(key, coeffs, c, xByte, Load(y), Load(xpow))
      invariant Load(x) == old(Load(x)) && Rows(poly, |poly|) == coeffs
    {
      EvaluatedNext(key, coeffs, c, xByte, Load(y), Load(xpow), Load(x));
      EvaluateTerm(y, xpow, x, poly[c]);
    }
    EvaluatedShare(key, coeffs, xByte, Load(y), Load(xpow));
  }

  method SetZero(r: array<bv32>)
    requires r.Length == 8
    modifies r
    ensures Load(r) == ZERO
  {
    for i := 0 to 8
      invariant forall b :: 0 <= b < i ==> r[b] == 0
    {
      r[i] := 0;
    }
  }

  /** Writes the key share at xByte to one row of the output. */
  method WriteShare(out: array<bv8>, poly0: array<bv32>, poly: seq<array<bv32>>, xByte: bv8, ghost key: seq<bv8>)
    requires out.Length == KEYSHARE_LEN && poly0.Length == 8
    requires forall i :: 0 <= i < |poly| ==> poly[i].Length == 8
    requires |key| == LANES && Lanes(Load(poly0)) == key
    modifies out
    ensures out[..] == Keyshare(key, Rows(poly, |poly|), xByte)
  {
    hide Load, Keyshare, Lane, Lanes, Rows;
    var x, y := new bv32[8], new bv32[8];
    out[0] := xByte;
    SetAll(x, xByte);
    EvaluateShare(y, poly0, poly, x, key, xByte);
    assert out[..1] == [xByte];
    UnbitsliceBytes(out, 1, y);
    assert out[..] == out[..1] + out[1..1 + LANES];
    assert out[..] == [xByte] + Lanes(Load(y));
  }

  /**
   Writes the n key shares at x == 1..n into out.  The rows of poly hold the
   random coefficients; k of the shares suffice to restore the key.
   */
  method CreateKeyshares(out: seq<array<bv8>>, key: seq<bv8>, n: nat, k: nat, poly: seq<array<bv32>>)
    requires 1 <= k <= n <= 255
    requires |out| == n && |key| == LANES && |poly| == k - 1
    requires forall i :: 0 <= i < |poly| ==> poly[i].Length == 8
    requires forall i :: 0 <= i < n ==> out[i].Length == KEYSHARE_LEN
    requires forall i, j :: 0 <= i < j < n ==> out[i] != out[j]
    modifies out
    ensures forall i :: 0 <= i < n ==> out[i][..] == Keyshare(key, Rows(poly, k - 1), ToByte(i + 1))
  {
    hide Load, Keyshare, Lane, Lanes, Rows;
    ghost var coeffs := Rows(poly, |poly|);
    var poly0 := new bv32[8];
    BitsliceBytes(poly0, key);
    for i := 0 to n
      invariant forall j :: 0 <= j < i ==> out[j][..] == Keyshare(key, coeffs, ToByte(j + 1))
      invariant Rows(poly, |poly|) == coeffs && Lanes(Load(poly0)) == key
    {
      WriteShare(out[i], poly0, poly, ToByte(i + 1), key);
    }
  }

  // ----- Combination -----

  /** The rows hold the given share: its x in every lane, and its values. */
  ghost predicate Collected(x: Slice, y: Slice, share: seq<bv8>)
    requires |share| == KEYSHARE_LEN
  {
    (forall l :: 0 <= l < LANES ==> Lane(x, l) == share[0]) && Lanes(y) == share[1..]
  }

  ghost predicate AllCollected(xs: seq<array<bv32>>, ys: seq<array<bv32>>, shares: seq<seq<bv8>>)
    requires forall i :: 0 <= i < |shares| ==> |shares[i]| == KEYSHARE_LEN
    reads xs, ys
  {
    && |xs| == |ys| == |shares|
    && (forall i :: 0 <= i < |xs| ==> xs[i].Length == ys[i].Length == 8)
    && (forall i :: 0 <= i < |xs| ==> Collected(Load(xs[i]), Load(ys[i]), shares[i]))
  }

  /** The state of the inner loop: partial products of the basis polynomial, in every lane. */
  ghost predicate Products(shares: seq<seq<bv8>>, i: nat, n: nat, num: Slice, denom: Slice)
    requires forall j :: 0 <= j < |shares| ==> |shares[j]| == KEYSHARE_LEN
    requires i < |shares| && n <= |shares|
  {
    forall l :: 0 <= l < LANES ==>
      && Lane(num, l) == Product(Xs(shares), i, n, 0)
      && Lane(denom, l) == Product(Xs(shares), i, n, Xs(shares)[i])
  }

  lemma ProductsStart(shares: seq<seq<bv8>>, i: nat)
    requires forall j :: 0 <= j < |shares| ==> |shares[j]| == KEYSHARE_LEN
    requires i < |shares|
    ensures Products(shares, i, 0, ONE, ONE)
  {
    hide Lane;
    forall l | 0 <= l < LANES ensures Lane(ONE, l) == 1 {
      LaneConstants(l);
    }
  }

  lemma ProductsNext(shares: seq<seq<bv8>>, i: nat, n: nat, num: Slice, denom: Slice, xi: Slice, xn: Slice)
    requires forall j :: 0 <= j < |shares| ==> |shares[j]| == KEYSHARE_LEN
    requires i < |shares| && n < |shares| && i != n
    requires Products(shares, i, n, num, denom)
    requires forall l :: 0 <= l < LANES ==> Lane(xi, l) == Xs(shares)[i] && Lane(xn, l) == Xs(shares)[n]
    ensures Products(shares, i, n + 1, MulW(num, xn), MulW(denom, AddW(xi, xn)))
  {
    hide Lane, Add, Mul, AddW, MulW;
    var xs := Xs(shares);
    forall l | 0 <= l < LANES
      ensures Lane(MulW(num, xn), l) == Product(xs, i, n + 1, 0)
      ensures Lane(MulW(denom, AddW(xi, xn)), l) == Product(xs, i, n + 1, xs[i])
    {
      LaneMul(num, xn, l);
      AddZero(xs[n]);
      LaneAdd(xi, xn, l);
      LaneMul(denom, AddW(xi, xn), l);
    }
  }

  /** The state of the outer loop: the partial interpolation at 0, in every lane. */
  ghost predicate Interpolated(shares: seq<seq<bv8>>, n: nat, secret: Slice)
    requires forall j :: 0 <= j < |shares| ==> |shares[j]| == KEYSHARE_LEN
    requires n <= |shares|
  {
    forall l :: 0 <= l < LANES ==> Lane(secret, l) == Interpolate(Xs(shares), Ys(shares, l), n, 0)
  }

  lemma InterpolatedStart(shares: seq<seq<bv8>>)
    requires forall j :: 0 <= j < |shares| ==> |shares[j]| == KEYSHARE_LEN
    ensures Interpolated(shares, 0, ZERO)
  {
    hide Lane;
    forall l | 0 <= l < LANES ensures Lane(ZERO, l) == 0 {
      LaneConstants(l);
    }
  }

  lemma InterpolatedNext(shares: seq<seq<bv8>>, i: nat, secret: Slice, num: Slice, denom: Slice, y: Slice)
    requires forall j :: 0 <= j < |shares| ==> |shares[j]| == KEYSHARE_LEN
    requires i < |shares|
    requires Interpolated(shares, i, secret)
    requires Products(shares, i, |shares|, num, denom)
    requires Lanes(y) == shares[i][1..]
    ensures Interpolated(shares, i + 1, AddW(secret, MulW(MulW(num, InvW(denom)), y)))
  {
    hide Lane, Add, Mul, Inv, AddW, MulW, InvW, Product;
    forall l | 0 <= l < LANES
      ensures Lane(AddW(secret, MulW(MulW(num, InvW(denom)), y)), l) == Interpolate(Xs(shares), Ys(shares, l), i + 1, 0)
    {
      LaneInv(denom, l);
      LaneMul(num, InvW(denom), l);
      LaneMul(MulW(num, InvW(denom)), y, l);
      LaneAdd(secret, MulW(MulW(num, InvW(denom)), y), l);
      assert Lanes(y)[l] == shares[i][1 + l];
    }
  }

  /** The factor of another share: num is multiplied by its x, and denom by the sum of both x. */
  method BasisFactor(num: array<bv32>, denom: array<bv32>, xi: array<bv32>, xj: array<bv32>)
    requires num.Length == denom.Length == xi.Length == xj.Length == 8
    requires num != denom && num != xi && num != xj && denom != xi && denom != xj
    modifies num, denom
    ensures Load(num) == MulW(old(Load(num)), Load(xj))
    ensures Load(denom) == MulW(old(Load(denom)), AddW(Load(xi), Load(xj)))
  {
    hide Load, MulW, AddW;
    var tmp := new bv32[8];
    MulInto(num, num, xj);
    Copy(tmp, xi);
    AddInto(tmp, xj);
    MulInto(denom, denom, tmp);
  }

  /** num and denom of the i-th basis polynomial at 0, by the inner loop. */
  method BasisAtZero(num: array<bv32>, denom: array<bv32>, xs: seq<array<bv32>>, ys: seq<array<bv32>>, i: nat,
                     ghost shares: seq<seq<bv8>>)
    requires num.Length == denom.Length == 8 && num != denom && num !in xs && num !in ys && denom !in xs && denom !in ys
    requires forall j :: 0 <= j < |shares| ==> |shares[j]| == KEYSHARE_LEN
    requires AllCollected(xs, ys, shares) && i < |xs|
    modifies num, denom
    ensures Products(shares, i, |shares|, Load(num), Load(denom))
  {
    hide Load, Lane, Lanes, Products, MulW, AddW;
    SetOne(num);
    SetOne(denom);
    ProductsStart(shares, i);
    for j := 0 to |xs|
      invariant Products(shares, i, j, Load(num), Load(denom))
      invariant AllCollected(xs, ys, shares)
    {
      if i != j {
        ProductsNext(shares, i, j, Load(num), Load(denom), Load(xs[i]), Load(xs[j]));
        BasisFactor(num, denom, xs[i], xs[j]);
      } else {
        SkipSelf(shares, i, Load(num), Load(denom));
      }
    }
  }

  lemma SkipSelf(shares: seq<seq<bv8>>, i: nat, num: Slice, denom: Slice)
    requires forall j :: 0 <= j < |shares| ==> |shares[j]| == KEYSHARE_LEN
    requires i < |shares| && Products(shares, i, i, num, denom)
    ensures Products(shares, i, i + 1, num, denom)
  {
    hide Lane, Add, Mul;
  }

  /** Collects the shares' bytes into bitsliced rows. */
  method Collect(shares: seq<seq<bv8>>) returns (xs: seq<array<bv32>>, ys: seq<array<bv32>>)
    requires forall i :: 0 <= i < |shares| ==> |shares[i]| == KEYSHARE_LEN
    ensures AllCollected(xs, ys, shares)
    ensures forall i :: 0 <= i < |shares| ==> fresh(xs[i]) && fresh(ys[i])
  {
    hide Load, Lane, Lanes;
    xs, ys := [], [];
    for i := 0 to |shares|
      invariant |xs| == |ys| == i
      invariant forall j :: 0 <= j < i ==> fresh(xs[j]) && fresh(ys[j])
      invariant forall j :: 0 <= j < i ==> xs[j].Length == ys[j].Length == 8
      invariant forall j :: 0 <= j < i ==> Collected(Load(xs[j]), Load(ys[j]), shares[j])
    {
      var x, y := new bv32[8], new bv32[8];
      SetAll(x, shares[i][0]);
      BitsliceBytes(y, shares[i][1..]);
      assert Collected(Load(x), Load(y), shares[i]);
      xs, ys := xs + [x], ys + [y];
    }
  }

  /** Divides num by denom, scales it by y and adds it to the secret. */
  method AddScaled(secret: array<bv32>, num: array<bv32>, denom: array<bv32>, y: array<bv32>)
    requires secret.Length == num.Length == denom.Length == y.Length == 8
    requires secret != num && secret != denom && secret != y && num != denom && num != y
    modifies secret, num
    ensures Load(secret) == AddW(old(Load(secret)), MulW(MulW(old(Load(num)), InvW(Load(denom))), Load(y)))
  {
    hide Load, MulW, AddW, InvW;
    var tmp := new bv32[8];
    InvInto(tmp, denom);
    MulInto(num, num, tmp);
    MulInto(num, num, y);
    AddInto(secret, num);
  }

  /** Adds the i-th term of the interpolation to secret. */
  method AddTerm(secret: array<bv32>, xs: seq<array<bv32>>, ys: seq<array<bv32>>, i: nat, ghost shares: seq<seq<bv8>>)
    requires secret.Length == 8 && secret !in xs && secret !in ys
    requires forall j :: 0 <= j < |shares| ==> |shares[j]| == KEYSHARE_LEN
    requires AllCollected(xs, ys, shares) && i < |xs|
    requires Interpolated(shares, i, Load(secret))
    modifies secret
    ensures Interpolated(shares, i + 1, Load(secret))
  {
    hide Load, Lane, Products, Interpolated, MulW, AddW, InvW;
    var num, denom := new bv32[8], new bv32[8];
    BasisAtZero(num, denom, xs, ys, i, shares);
    InterpolatedNext(shares, i, Load(secret), Load(num), Load(denom), Load(ys[i]));
    AddScaled(secret, num, denom, ys[i]);
  }

  /** Writes the interpolation at 0 of all the given shares to key. */
  method CombineKeyshares(key: array<bv8>, shares: seq<seq<bv8>>)
    requires key.Length == LANES
    requires forall i :: 0 <= i < |shares| ==> |shares[i]| == KEYSHARE_LEN
    modifies key
    ensures key[..] == CombinedKey(shares)
  {
    hide Load, Lane, Lanes, Collected, Interpolated, CombinedKey;
    var xs, ys := Collect(shares);
    var secret := new bv32[8];
    SetZero(secret);
    InterpolatedStart(shares);
    for i := 0 to |shares|
      invariant Interpolated(shares, i, Load(secret))
      invariant AllCollected(xs, ys, shares)
    {
      AddTerm(secret, xs, ys, i, shares);
    }
    UnbitsliceBytes(key, 0, secret);
    InterpolatedKey(shares, Load(secret));
    assert key[..] == key[0..0 + LANES];
  }

  lemma InterpolatedKey(shares: seq<seq<bv8>>, secret: Slice)
    requires forall j :: 0 <= j < |shares| ==> |shares[j]| == KEYSHARE_LEN
    requires Interpolated(shares, |shares|, secret)
    ensures Lanes(secret) == CombinedKey(shares)
  {
    hide Lane, Interpolate;
  }
}
