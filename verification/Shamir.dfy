/**
 Shamir secret sharing over GF(2^8), one polynomial per byte of a 32-byte key.
 A key share is the byte x followed by the 32 values at x.
 */
module Shamir {
  import opened Bytes
  import opened Lists
  import opened Polynomials
  import opened RepeatedPoints
  import opened Bitslice
  import opened Transpose

  const KEYSHARE_LEN: nat := 33

  /** The polynomial's coefficients in lane l, from x^1 upward. */
  function LaneCoeffs(coeffs: seq<Slice>, l: nat): (c: seq<bv8>)
    requires l < LANES
    ensures |c| == |coeffs| && forall i :: 0 <= i < |c| ==> c[i] == Lane(coeffs[i], l)
  {
    seq(|coeffs|, i requires 0 <= i < |coeffs| => Lane(coeffs[i], l))
  }

  function SharePoly(key: seq<bv8>, coeffs: seq<Slice>, l: nat): Poly
    requires |key| == LANES && l < LANES
  {
    [key[l]] + LaneCoeffs(coeffs, l)
  }

  /** The share at x: every key byte is the constant term of its own polynomial. */
  function Keyshare(key: seq<bv8>, coeffs: seq<Slice>, x: bv8): (share: seq<bv8>)
    requires |key| == LANES
    ensures |share| == KEYSHARE_LEN && share[0] == x
  {
    [x] + seq(LANES, l requires 0 <= l < LANES => Eval(SharePoly(key, coeffs, l), x))
  }

  function Xs(shares: seq<seq<bv8>>): (xs: seq<bv8>)
    requires forall i :: 0 <= i < |shares| ==> |shares[i]| == KEYSHARE_LEN
    ensures |xs| == |shares| && forall i :: 0 <= i < |xs| ==> xs[i] == shares[i][0]
  {
    seq(|shares|, i requires 0 <= i < |shares| => shares[i][0])
  }

  function Ys(shares: seq<seq<bv8>>, l: nat): (ys: seq<bv8>)
    requires forall i :: 0 <= i < |shares| ==> |shares[i]| == KEYSHARE_LEN
    requires l < LANES
    ensures |ys| == |shares| && forall i :: 0 <= i < |ys| ==> ys[i] == shares[i][1 + l]
  {
    seq(|shares|, i requires 0 <= i < |shares| => shares[i][1 + l])
  }

  /** The value at 0 of the interpolation through the shares, in every lane. */
  function CombinedKey(shares: seq<seq<bv8>>): (key: seq<bv8>)
    requires forall i :: 0 <= i < |shares| ==> |shares[i]| == KEYSHARE_LEN
    ensures |key| == LANES
  {
    seq(LANES, l requires 0 <= l < LANES => Interpolate(Xs(shares), Ys(shares, l), |shares|, 0))
  }

  ghost predicate SharesOf(shares: seq<seq<bv8>>, key: seq<bv8>, coeffs: seq<Slice>)
    requires |key| == LANES
  {
    forall i :: 0 <= i < |shares| ==> |shares[i]| == KEYSHARE_LEN && shares[i] == Keyshare(key, coeffs, shares[i][0])
  }

  /**
   At least as many shares as the threshold |coeffs| + 1, with distinct x in
   any order, give back the key.
   */
  lemma Recovery(shares: seq<seq<bv8>>, key: seq<bv8>, coeffs: seq<Slice>)
    requires |key| == LANES && SharesOf(shares, key, coeffs)
    requires |coeffs| + 1 <= |shares| && Distinct(Xs(shares))
    ensures CombinedKey(shares) == key
  {
    hide Eval, Interpolate, Lane;
    forall l | 0 <= l < LANES ensures CombinedKey(shares)[l] == key[l] {
      var p := SharePoly(key, coeffs, l);
      forall i | 0 <= i < |shares| ensures Eval(p, Xs(shares)[i]) == Ys(shares, l)[i] {
        assert shares[i] == Keyshare(key, coeffs, shares[i][0]);
      }
      InterpolationRecovers(p, Xs(shares), Ys(shares, l), 0);
      EvalAtZero(p);
    }
  }

  // ----- Repeated and damaged shares -----

  /** The shares of a key at the given x. */
  function KeysharesAt(key: seq<bv8>, coeffs: seq<Slice>, xs: seq<bv8>): (shares: seq<seq<bv8>>)
    requires |key| == LANES
    ensures |shares| == |xs| && forall i :: 0 <= i < |xs| ==> shares[i] == Keyshare(key, coeffs, xs[i])
  {
    seq(|xs|, i requires 0 <= i < |xs| => Keyshare(key, coeffs, xs[i]))
  }

  /** Whatever the key and the k - 1 coefficient slices, the shares at xs combine to the key. */
  ghost predicate AlwaysRecovered(xs: seq<bv8>, k: nat) {
    forall key: seq<bv8>, coeffs: seq<Slice> :: |key| == LANES && |coeffs| + 1 == k ==>
      CombinedKey(KeysharesAt(key, coeffs, xs)) == key
  }

  /** Every byte of the key is p[0], and every lane of the coefficients is p[1..]. */
  lemma LanesOfPoly(p: Poly, l: nat) returns (key: seq<bv8>, coeffs: seq<Slice>)
    requires p != [] && l < LANES
    ensures |key| == LANES && |coeffs| + 1 == |p|
    ensures SharePoly(key, coeffs, l) == p && key[l] == p[0]
  {
    hide SliceOf, Lane;
    var rows := seq(|p| - 1, i requires 0 <= i < |p| - 1 => seq(LANES, _ => p[i + 1]));
    key := seq(LANES, _ => p[0]);
    coeffs := seq(|p| - 1, i requires 0 <= i < |p| - 1 => SliceOf(rows[i]));
    forall i | 0 <= i < |coeffs| ensures Lane(coeffs[i], l) == p[i + 1] {
      LanesOfSlice(rows[i]);
      assert Lanes(SliceOf(rows[i]))[l] == rows[i][l];
    }
  }

  /** A polynomial that interpolation misses gives a key that is not recovered. */
  lemma MissedKey(xs: seq<bv8>, p: Poly) returns (key: seq<bv8>, coeffs: seq<Slice>)
    requires p != [] && Interpolate(xs, Values(p, xs), |xs|, 0) != p[0]
    ensures |key| == LANES && |coeffs| + 1 == |p|
    ensures CombinedKey(KeysharesAt(key, coeffs, xs)) != key
  {
    hide Interpolate, Lane, Eval;
    key, coeffs := LanesOfPoly(p, 0);
    var shares := KeysharesAt(key, coeffs, xs);
    assert Xs(shares) == xs;
    assert Ys(shares, 0) == Values(p, xs);
    assert CombinedKey(shares)[0] == Interpolate(xs, Values(p, xs), |xs|, 0);
  }

  /**
   When fewer than k of the x occur only once, the shares of some key combine to another
   one, however many shares there are.
   */
  lemma RepeatedSharesLost(xs: seq<bv8>, k: nat) returns (key: seq<bv8>, coeffs: seq<Slice>)
    requires 0 !in xs && |Unrepeated(xs, |xs|)| < k
    ensures |key| == LANES && |coeffs| + 1 == k
    ensures CombinedKey(KeysharesAt(key, coeffs, xs)) != key
  {
    hide Interpolate, Unrepeated;
    var p := TooFewUnrepeated(xs, k);
    key, coeffs := MissedKey(xs, p);
  }

  /** The same when some x repeat, but no more than k of the shares have such an x. */
  lemma FewRepeatedLost(xs: seq<bv8>, k: nat) returns (key: seq<bv8>, coeffs: seq<Slice>)
    requires 0 !in xs && 1 <= |Repetitions(xs, |xs|)| <= k
    ensures |key| == LANES && |coeffs| + 1 == k
    ensures CombinedKey(KeysharesAt(key, coeffs, xs)) != key
  {
    hide Interpolate, Repetitions;
    var p := FewRepetitions(xs, k);
    key, coeffs := MissedKey(xs, p);
  }

  /** Too few shares, or a repeated one, when there are at most 2 k shares or k different ones. */
  lemma SomeKeyLost(xs: seq<bv8>, k: nat) returns (key: seq<bv8>, coeffs: seq<Slice>)
    requires 1 <= k && 0 !in xs && (|Elements(xs)| <= k || |xs| <= 2 * k)
    requires !Distinct(xs) || |xs| < k
    ensures |key| == LANES && |coeffs| + 1 == k
    ensures CombinedKey(KeysharesAt(key, coeffs, xs)) != key
  {
    hide Unrepeated, Repetitions, CombinedKey;
    UnrepeatedCount(xs);
    if |Unrepeated(xs, |xs|)| < k {
      key, coeffs := RepeatedSharesLost(xs, k);
    } else {
      ElementsBound(xs);
      key, coeffs := FewRepeatedLost(xs, k);
    }
  }

  /**
   With at most 2 k shares, or at most k different ones, of nonzero x, every key is
   recovered exactly when there are k shares and no x repeats: one copy too many is as
   bad as one share too few.
   */
  lemma AlwaysRecoveredIff(xs: seq<bv8>, k: nat)
    requires 1 <= k && 0 !in xs && (|Elements(xs)| <= k || |xs| <= 2 * k)
    ensures AlwaysRecovered(xs, k) <==> Distinct(xs) && k <= |xs|
  {
    hide Interpolate, CombinedKey, Keyshare;
    if Distinct(xs) && k <= |xs| {
      forall key: seq<bv8>, coeffs: seq<Slice> | |key| == LANES && |coeffs| + 1 == k
        ensures CombinedKey(KeysharesAt(key, coeffs, xs)) == key
      {
        var shares := KeysharesAt(key, coeffs, xs);
        assert Xs(shares) == xs;
        Recovery(shares, key, coeffs);
      }
    } else {
      var key, coeffs := SomeKeyLost(xs, k);
    }
  }

  /**
   Whatever the x and however many: every key is recovered exactly when the powers
   1, x, .., x^(k-1) are interpolated correctly at 0.
   */
  lemma AlwaysRecoveredByPowers(xs: seq<bv8>, k: nat)
    requires 1 <= k
    ensures AlwaysRecovered(xs, k) <==> forall n: nat :: n < k ==> Met(xs, Monomial(n), 0)
  {
    hide Met, CombinedKey, KeysharesAt, Eval;
    if forall n: nat :: n < k ==> Met(xs, Monomial(n), 0) {
      forall key: seq<bv8>, coeffs: seq<Slice> | |key| == LANES && |coeffs| + 1 == k
        ensures CombinedKey(KeysharesAt(key, coeffs, xs)) == key
      {
        PowersRecover(xs, key, coeffs);
      }
    } else {
      var n: nat :| n < k && !Met(xs, Monomial(n), 0);
      var key, coeffs := MissedPower(xs, n, k);
    }
  }

  lemma PowersRecover(xs: seq<bv8>, key: seq<bv8>, coeffs: seq<Slice>)
    requires |key| == LANES && forall n: nat :: n < |coeffs| + 1 ==> Met(xs, Monomial(n), 0)
    ensures CombinedKey(KeysharesAt(key, coeffs, xs)) == key
  {
    hide Interpolate, Lane, Eval;
    var shares := KeysharesAt(key, coeffs, xs);
    assert Xs(shares) == xs;
    forall l | 0 <= l < LANES ensures CombinedKey(shares)[l] == key[l] {
      var p := SharePoly(key, coeffs, l);
      assert Ys(shares, l) == Values(p, xs);
      MonomialsSuffice(xs, p, 0);
      EvalAtZero(p);
    }
  }

  lemma MissedPower(xs: seq<bv8>, n: nat, k: nat) returns (key: seq<bv8>, coeffs: seq<Slice>)
    requires n < k && !Met(xs, Monomial(n), 0)
    ensures |key| == LANES && |coeffs| + 1 == k
    ensures CombinedKey(KeysharesAt(key, coeffs, xs)) != key
  {
    hide Interpolate, Eval, CombinedKey, KeysharesAt;
    var p := Monomial(n) + Zeros(k - n - 1);
    forall i | 0 <= i < |xs| ensures Values(p, xs)[i] == Values(Monomial(n), xs)[i] {
      EvalPad(Monomial(n), k - n - 1, xs[i]);
    }
    assert Values(p, xs) == Values(Monomial(n), xs);
    EvalPad(Monomial(n), k - n - 1, 0);
    EvalAtZero(p);
    key, coeffs := MissedKey(xs, p);
  }

  /** So a long list can recover every key in spite of repetitions. */
  lemma RepetitionSurvives()
    ensures !Distinct<bv8>([1, 1, 1, 0xbc]) && AlwaysRecovered([1, 1, 1, 0xbc], 1)
  {
    hide Met, AlwaysRecovered;
    var xs: seq<bv8> := [1, 1, 1, 0xbc];
    LongListMeets();
    AlwaysRecoveredByPowers(xs, 1);
    assert xs[0] == xs[1];
  }

  /**
   One share that may be damaged, among enough others that are not: the key is recovered
   exactly when that share, too, is a share of the key.
   */
  lemma OneDamagedShare(shares: seq<seq<bv8>>, i: nat, key: seq<bv8>, coeffs: seq<Slice>)
    requires |key| == LANES && i < |shares| && |coeffs| + 1 <= |shares|
    requires forall j :: 0 <= j < |shares| ==> |shares[j]| == KEYSHARE_LEN
    requires Distinct(Xs(shares))
    requires forall j :: 0 <= j < |shares| && j != i ==>
               shares[j] == Keyshare(key, coeffs, shares[j][0]) && shares[j][0] != 0
    ensures CombinedKey(shares) == key <==> shares[i] == Keyshare(key, coeffs, shares[i][0])
  {
    hide Interpolate, Eval, Lane, Keyshare;
    var xs := Xs(shares);
    var genuine := KeysharesAt(key, coeffs, xs);
    assert Xs(genuine) == xs;
    Recovery(genuine, key, coeffs);
    forall l | 0 <= l < LANES
      ensures CombinedKey(shares)[l] == key[l] <==> shares[i][1 + l] == genuine[i][1 + l]
    {
      assert CombinedKey(genuine)[l] == key[l];
      InterpolationDiffers(xs, Ys(shares, l), Ys(genuine, l), i, |xs|, 0);
    }
    if CombinedKey(shares) == key {
      forall j | 0 <= j < KEYSHARE_LEN ensures shares[i][j] == genuine[i][j] {
        if j > 0 {
          assert CombinedKey(shares)[j - 1] == key[j - 1];
        }
      }
    }
  }

  // ----- Below the threshold -----

  /** The only coefficients that fit the points (xs, ys) when the secret is s. */
  function FittingCoeffs(xs: seq<bv8>, ys: seq<bv8>, s: bv8): (c: seq<bv8>)
    requires |xs| == |ys|
    ensures |c| == |xs|
  {
    InterpolationPoly([0] + xs, [s] + ys, |xs| + 1)[1..]
  }

  /**
   Shares below the threshold fit every secret byte equally: whatever the
   secret, exactly one choice of coefficients gives these values at these x.
   */
  lemma ThresholdExact(xs: seq<bv8>, ys: seq<bv8>, s: bv8, c: seq<bv8>)
    requires |xs| == |ys| == |c| && Distinct(xs) && 0 !in xs
    ensures Through([s] + c, xs, ys) <==> c == FittingCoeffs(xs, ys, s)
  {
    hide Eval, InterpolationPoly;
    var xs0, ys0 := [0] + xs, [s] + ys;
    assert Distinct(xs0);
    var q := InterpolationPoly(xs0, ys0, |xs0|);
    InterpolationUnique([s] + c, xs0, ys0);
    InterpolationExists(xs0, ys0);
    assert Eval(q, xs0[0]) == ys0[0];
    EvalAtZero(q);
    EvalAtZero([s] + c);
    assert q == [s] + q[1..];
    if Through([s] + c, xs, ys) {
      forall i | 0 <= i < |xs0| ensures Eval([s] + c, xs0[i]) == ys0[i] {
        if i > 0 {
          assert Eval([s] + c, xs[i - 1]) == ys[i - 1];
        }
      }
    }
    if c == FittingCoeffs(xs, ys, s) {
      forall i | 0 <= i < |xs| ensures Eval([s] + c, xs[i]) == ys[i] {
        assert Eval([s] + c, xs0[i + 1]) == ys0[i + 1];
      }
    }
  }

  // ----- The same for all 32 lanes -----

  /** The coefficient words whose lanes are the fitting coefficients of every byte. */
  function FittingSlices(shares: seq<seq<bv8>>, key: seq<bv8>): (coeffs: seq<Slice>)
    requires forall i :: 0 <= i < |shares| ==> |shares[i]| == KEYSHARE_LEN
    requires |key| == LANES
    ensures |coeffs| == |shares|
  {
    seq(|shares|, i requires 0 <= i < |shares| =>
      SliceOf(seq(LANES, l requires 0 <= l < LANES => FittingCoeffs(Xs(shares), Ys(shares, l), key[l])[i])))
  }

  lemma FittingLane(shares: seq<seq<bv8>>, key: seq<bv8>, l: nat)
    requires forall i :: 0 <= i < |shares| ==> |shares[i]| == KEYSHARE_LEN
    requires |key| == LANES && l < LANES
    ensures LaneCoeffs(FittingSlices(shares, key), l) == FittingCoeffs(Xs(shares), Ys(shares, l), key[l])
  {
    hide FittingCoeffs, SliceOf, Lane;
    forall i | 0 <= i < |shares|
      ensures Lane(FittingSlices(shares, key)[i], l) == FittingCoeffs(Xs(shares), Ys(shares, l), key[l])[i]
    {
      var bytes := seq(LANES, m requires 0 <= m < LANES => FittingCoeffs(Xs(shares), Ys(shares, m), key[m])[i]);
      LanesOfSlice(bytes);
      assert Lanes(SliceOf(bytes))[l] == bytes[l];
    }
  }

  lemma SharesOfLanes(shares: seq<seq<bv8>>, key: seq<bv8>, coeffs: seq<Slice>)
    requires |key| == LANES
    requires forall i :: 0 <= i < |shares| ==> |shares[i]| == KEYSHARE_LEN
    ensures SharesOf(shares, key, coeffs)
       <==> forall l :: 0 <= l < LANES ==> Through([key[l]] + LaneCoeffs(coeffs, l), Xs(shares), Ys(shares, l))
  {
    hide Eval, Lane;
    if SharesOf(shares, key, coeffs) {
      forall l, i | 0 <= l < LANES && 0 <= i < |shares|
        ensures Eval([key[l]] + LaneCoeffs(coeffs, l), Xs(shares)[i]) == Ys(shares, l)[i]
      {
        assert shares[i][1 + l] == Keyshare(key, coeffs, shares[i][0])[1 + l];
      }
    }
    if forall l :: 0 <= l < LANES ==> Through([key[l]] + LaneCoeffs(coeffs, l), Xs(shares), Ys(shares, l)) {
      forall i | 0 <= i < |shares| ensures shares[i] == Keyshare(key, coeffs, shares[i][0]) {
        forall j | 0 <= j < KEYSHARE_LEN ensures shares[i][j] == Keyshare(key, coeffs, shares[i][0])[j] {
          if j > 0 {
            assert Through([key[j - 1]] + LaneCoeffs(coeffs, j - 1), Xs(shares), Ys(shares, j - 1));
            assert Eval(SharePoly(key, coeffs, j - 1), Xs(shares)[i]) == Ys(shares, j - 1)[i];
          }
        }
      }
    }
  }

  lemma CoeffsExtensional(c: seq<Slice>, d: seq<Slice>)
    requires |c| == |d|
    requires forall l :: 0 <= l < LANES ==> LaneCoeffs(c, l) == LaneCoeffs(d, l)
    ensures c == d
  {
    hide Lane;
    forall i | 0 <= i < |c| ensures c[i] == d[i] {
      forall l | 0 <= l < LANES ensures Lane(c[i], l) == Lane(d[i], l) {
        assert LaneCoeffs(c, l)[i] == LaneCoeffs(d, l)[i];
      }
      LaneWordExtensional(c[i], d[i]);
    }
  }

  /**
   Any k - 1 key shares with distinct nonzero x are shares of every key, each
   time for exactly one choice of the k - 1 random coefficient slices.
   */
  lemma ThresholdExactKey(shares: seq<seq<bv8>>, key: seq<bv8>, coeffs: seq<Slice>)
    requires forall i :: 0 <= i < |shares| ==> |shares[i]| == KEYSHARE_LEN
    requires |key| == LANES && |coeffs| == |shares|
    requires Distinct(Xs(shares)) && 0 !in Xs(shares)
    ensures SharesOf(shares, key, coeffs) <==> coeffs == FittingSlices(shares, key)
  {
    hide FittingCoeffs, FittingSlices, Through, Lane, Distinct;
    SharesOfLanes(shares, key, coeffs);
    forall l | 0 <= l < LANES
      ensures Through([key[l]] + LaneCoeffs(coeffs, l), Xs(shares), Ys(shares, l))
         <==> LaneCoeffs(coeffs, l) == LaneCoeffs(FittingSlices(shares, key), l)
    {
      ThresholdExact(Xs(shares), Ys(shares, l), key[l], LaneCoeffs(coeffs, l));
      FittingLane(shares, key, l);
    }
    if SharesOf(shares, key, coeffs) {
      CoeffsExtensional(coeffs, FittingSlices(shares, key));
    }
  }
}
