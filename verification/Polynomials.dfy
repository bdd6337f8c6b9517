/**
 Polynomials over GF(2^8), as sequences of coefficients with the constant first,
 and interpolation: the polynomial of fewer than n coefficients through n given
 points exists and is unique.
 */
module Polynomials {
  import opened Bytes
  import opened Lists
  import opened GF256

  type Poly = seq<bv8>

  function Eval(p: Poly, x: bv8): bv8 {
    if p == [] then 0 else Add(p[0], Mul(x, Eval(p[1..], x)))
  }

  function AddPoly(p: Poly, q: Poly): (r: Poly)
    requires |p| == |q|
    ensures |r| == |p| && forall i :: 0 <= i < |r| ==> r[i] == Add(p[i], q[i])
  {
    seq(|p|, i requires 0 <= i < |p| => Add(p[i], q[i]))
  }

  function Scale(p: Poly, c: bv8): (r: Poly)
    ensures |r| == |p| && forall i :: 0 <= i < |r| ==> r[i] == Mul(c, p[i])
  {
    seq(|p|, i requires 0 <= i < |p| => Mul(c, p[i]))
  }

  /** p * (X + r). */
  function MulLinear(p: Poly, r: bv8): (q: Poly)
    ensures |q| == |p| + 1
  {
    AddPoly([0] + p, Scale(p, r) + [0])
  }

  /** The quotient of p by X + r, by synthetic division. */
  function Quotient(p: Poly, r: bv8): (q: Poly)
    requires p != []
    ensures |q| == |p| - 1
  {
    if |p| == 1 then [] else [Eval(p[1..], r)] + Quotient(p[1..], r)
  }

  ghost predicate Through(p: Poly, xs: seq<bv8>, ys: seq<bv8>)
    requires |xs| == |ys|
  {
    forall i :: 0 <= i < |xs| ==> Eval(p, xs[i]) == ys[i]
  }

  // ----- Evaluation -----

  lemma {:induction false} EvalZeros(n: nat, x: bv8)
    ensures Eval(Zeros(n), x) == 0
  {
    hide Add, Mul;
    if n > 0 {
      assert Zeros(n)[1..] == Zeros(n - 1);
      EvalZeros(n - 1, x);
      MulZero(x);
      AddZero(0);
    }
  }

  lemma {:induction false} EvalAdd(p: Poly, q: Poly, x: bv8)
    requires |p| == |q|
    ensures Eval(AddPoly(p, q), x) == Add(Eval(p, x), Eval(q, x))
  {
    hide Add, Mul;
    if p == [] {
      AddZero(0);
    } else {
      assert AddPoly(p, q)[1..] == AddPoly(p[1..], q[1..]);
      EvalAdd(p[1..], q[1..], x);
      MulAddRight(x, Eval(p[1..], x), Eval(q[1..], x));
      AddSwap(p[0], q[0], Mul(x, Eval(p[1..], x)), Mul(x, Eval(q[1..], x)));
    }
  }

  lemma MulSwap(a: bv8, b: bv8, c: bv8)
    ensures Mul(a, Mul(b, c)) == Mul(b, Mul(a, c))
  {
    hide Mul;
    MulAssoc(a, b, c);
    MulComm(a, b);
    MulAssoc(b, a, c);
  }

  lemma {:induction false} EvalScale(p: Poly, c: bv8, x: bv8)
    ensures Eval(Scale(p, c), x) == Mul(c, Eval(p, x))
  {
    hide Add, Mul;
    if p == [] {
      MulZero(c);
    } else {
      assert Scale(p, c)[1..] == Scale(p[1..], c);
      EvalScale(p[1..], c, x);
      MulAddRight(c, p[0], Mul(x, Eval(p[1..], x)));
      MulSwap(c, x, Eval(p[1..], x));
    }
  }

  /** Appending a coefficient adds its term: this is how the share loop builds the sum. */
  lemma {:induction false} EvalAppend(p: Poly, c: bv8, x: bv8)
    ensures Eval(p + [c], x) == Add(Eval(p, x), Mul(Pow(x, |p|), c))
  {
    hide Add, Mul;
    if p == [] {
      assert ([] + [c])[1..] == [];
      MulOne(c);
      MulZero(x);
      AddZero(c);
    } else {
      var q := p[1..];
      assert (p + [c])[1..] == q + [c];
      EvalAppend(q, c, x);
      MulAddRight(x, Eval(q, x), Mul(Pow(x, |q|), c));
      MulAssoc(x, Pow(x, |q|), c);
      AddAssoc(p[0], Mul(x, Eval(q, x)), Mul(Pow(x, |p|), c));
    }
  }

  lemma {:induction false} EvalPad(p: Poly, n: nat, x: bv8)
    ensures Eval(p + Zeros(n), x) == Eval(p, x)
  {
    hide Add, Mul;
    if p == [] {
      assert [] + Zeros(n) == Zeros(n);
      EvalZeros(n, x);
    } else {
      assert (p + Zeros(n))[1..] == p[1..] + Zeros(n);
      EvalPad(p[1..], n, x);
    }
  }

  lemma EvalConstant(c: bv8, x: bv8)
    ensures Eval([c], x) == c
  {
    hide Add, Mul;
    assert [c][1..] == [];
    MulZero(x);
    AddZero(c);
  }

  lemma EvalShift(p: Poly, x: bv8)
    ensures Eval([0] + p, x) == Mul(x, Eval(p, x))
  {
    hide Add, Mul;
    assert ([0] + p)[1..] == p;
    AddZero(Mul(x, Eval(p, x)));
  }

  lemma EvalMulLinear(p: Poly, r: bv8, x: bv8)
    ensures Eval(MulLinear(p, r), x) == Mul(Add(x, r), Eval(p, x))
  {
    hide Add, Mul, Eval;
    EvalAdd([0] + p, Scale(p, r) + [0], x);
    EvalShift(p, x);
    assert Scale(p, r) + [0] == Scale(p, r) + Zeros(1);
    EvalPad(Scale(p, r), 1, x);
    EvalScale(p, r, x);
    MulAddLeft(x, r, Eval(p, x));
  }

  lemma EvalAtZero(p: Poly)
    requires p != []
    ensures Eval(p, 0) == p[0]
  {
    hide Add, Mul;
    MulZero(Eval(p[1..], 0));
    AddZero(p[0]);
  }

  // ----- Roots -----

  lemma {:induction false} QuotientEval(p: Poly, r: bv8, x: bv8)
    requires p != []
    ensures Eval(p, x) == Add(Mul(Add(x, r), Eval(Quotient(p, r), x)), Eval(p, r))
  {
    hide Add, Mul;
    if |p| == 1 {
      assert p[1..] == [];
      MulZero(x);
      MulZero(r);
      MulZero(Add(x, r));
      AddZero(p[0]);
    } else {
      var t := p[1..];
      var q := Quotient(t, r);
      assert Quotient(p, r)[1..] == q;
      QuotientEval(t, r, x);
      var e, f, s := Eval(t, r), Eval(q, x), Add(x, r);
      // x t(x) == x s f + x e, and s (e + x f) + r e == x e + r e + s x f + r e
      MulAddRight(x, Mul(s, f), e);
      MulSwap(x, s, f);
      MulAddRight(s, e, Mul(x, f));
      MulAddLeft(x, r, e);
      CancelTail(p[0], Mul(x, e), Mul(r, e), Mul(s, Mul(x, f)));
    }
  }

  lemma CancelTail(c: bv8, xe: bv8, re: bv8, sf: bv8)
    ensures Add(c, Add(sf, xe)) == Add(Add(Add(xe, re), sf), Add(c, re))
  {
    hide Add;
    AddComm(Add(xe, re), sf);
    AddAssoc(sf, xe, re);
    AddComm(c, re);
    AddAssoc(Add(sf, xe), re, Add(re, c));
    AddAssoc(re, re, c);
    AddSelf(re, re);
    AddZero(c);
    AddComm(c, Add(sf, xe));
  }

  lemma {:induction false} QuotientZero(p: Poly, r: bv8)
    requires p != []
    requires Quotient(p, r) == Zeros(|p| - 1) && Eval(p, r) == 0
    ensures p == Zeros(|p|)
  {
    hide Add, Mul;
    if |p| == 1 {
      MulZero(r);
      AddZero(p[0]);
    } else {
      var t := p[1..];
      assert Quotient(t, r) == Quotient(p, r)[1..] == Zeros(|t| - 1);
      assert Eval(t, r) == Quotient(p, r)[0] == 0;
      QuotientZero(t, r);
      MulZero(r);
      AddZero(p[0]);
      assert p == [p[0]] + t;
    }
  }

  /** A polynomial with at least as many roots as coefficients is zero. */
  lemma {:induction false} RootBound(p: Poly, xs: seq<bv8>)
    requires Distinct(xs) && |p| <= |xs|
    requires forall i :: 0 <= i < |xs| ==> Eval(p, xs[i]) == 0
    ensures p == Zeros(|p|)
    decreases |p|
  {
    hide Add, Mul;
    if p != [] {
      var r := xs[0];
      var q := Quotient(p, r);
      forall i | 0 <= i < |xs[1..]| ensures Eval(q, xs[1..][i]) == 0 {
        var x := xs[i + 1];
        QuotientEval(p, r, x);
        AddZero(Mul(Add(x, r), Eval(q, x)));
        NoZeroDivisors(Add(x, r), Eval(q, x));
        AddSelf(x, r);
      }
      RootBound(q, xs[1..]);
      QuotientZero(p, r);
    }
  }

  /** Two polynomials that agree on as many points as they have coefficients are equal. */
  lemma AgreeEqual(p: Poly, q: Poly, xs: seq<bv8>)
    requires Distinct(xs) && |p| == |q| <= |xs|
    requires forall i :: 0 <= i < |xs| ==> Eval(p, xs[i]) == Eval(q, xs[i])
    ensures p == q
  {
    hide Add, Mul, Eval;
    forall i | 0 <= i < |xs| ensures Eval(AddPoly(p, q), xs[i]) == 0 {
      EvalAdd(p, q, xs[i]);
      AddSelf(Eval(p, xs[i]), Eval(q, xs[i]));
    }
    RootBound(AddPoly(p, q), xs);
    forall i | 0 <= i < |p| ensures p[i] == q[i] {
      AddSelf(p[i], q[i]);
      assert AddPoly(p, q)[i] == Zeros(|p|)[i] == 0;
    }
  }

  // ----- Lagrange interpolation -----

  /** The product of t + xs[j] over all j < n other than i. */
  function Product(xs: seq<bv8>, i: nat, n: nat, t: bv8): bv8
    requires n <= |xs|
  {
    if n == 0 then 1
    else if n - 1 == i then Product(xs, i, n - 1, t)
    else Mul(Product(xs, i, n - 1, t), Add(t, xs[n - 1]))
  }

  /** The i-th Lagrange basis polynomial's value at t, scaled by ys[i]. */
  function Term(xs: seq<bv8>, ys: seq<bv8>, i: nat, t: bv8): bv8
    requires |xs| == |ys| && i < |xs|
  {
    Mul(Mul(Product(xs, i, |xs|, t), Inv(Product(xs, i, |xs|, xs[i]))), ys[i])
  }

  function Interpolate(xs: seq<bv8>, ys: seq<bv8>, n: nat, t: bv8): bv8
    requires |xs| == |ys| && n <= |xs|
  {
    if n == 0 then 0 else Add(Interpolate(xs, ys, n - 1, t), Term(xs, ys, n - 1, t))
  }

  function BasisPoly(xs: seq<bv8>, i: nat, n: nat): (p: Poly)
    requires n <= |xs|
    ensures |p| == if i < n then n else n + 1
  {
    if n == 0 then [1]
    else if n - 1 == i then BasisPoly(xs, i, n - 1)
    else MulLinear(BasisPoly(xs, i, n - 1), xs[n - 1])
  }

  function InterpolationPoly(xs: seq<bv8>, ys: seq<bv8>, n: nat): (p: Poly)
    requires |xs| == |ys| && n <= |xs|
    ensures |p| == |xs|
  {
    if n == 0 then Zeros(|xs|)
    else
      var i := n - 1;
      AddPoly(InterpolationPoly(xs, ys, i),
              Scale(BasisPoly(xs, i, |xs|), Mul(Inv(Product(xs, i, |xs|, xs[i])), ys[i])))
  }

  lemma {:induction false} EvalBasis(xs: seq<bv8>, i: nat, n: nat, t: bv8)
    requires n <= |xs|
    ensures Eval(BasisPoly(xs, i, n), t) == Product(xs, i, n, t)
  {
    hide Add, Mul, Eval, MulLinear;
    if n == 0 {
      EvalConstant(1, t);
    } else {
      EvalBasis(xs, i, n - 1, t);
      if n - 1 != i {
        EvalMulLinear(BasisPoly(xs, i, n - 1), xs[n - 1], t);
        MulComm(Add(t, xs[n - 1]), Product(xs, i, n - 1, t));
      }
    }
  }

  lemma {:induction false} EvalInterpolation(xs: seq<bv8>, ys: seq<bv8>, n: nat, t: bv8)
    requires |xs| == |ys| && n <= |xs|
    ensures Eval(InterpolationPoly(xs, ys, n), t) == Interpolate(xs, ys, n, t)
  {
    hide Add, Mul, Inv, Eval, Product, BasisPoly;
    if n == 0 {
      EvalZeros(|xs|, t);
    } else {
      var i := n - 1;
      var b, d := BasisPoly(xs, i, |xs|), Inv(Product(xs, i, |xs|, xs[i]));
      EvalInterpolation(xs, ys, i, t);
      EvalAdd(InterpolationPoly(xs, ys, i), Scale(b, Mul(d, ys[i])), t);
      EvalScale(b, Mul(d, ys[i]), t);
      EvalBasis(xs, i, |xs|, t);
      MulComm(Mul(d, ys[i]), Product(xs, i, |xs|, t));
      MulAssoc(Product(xs, i, |xs|, t), d, ys[i]);
    }
  }

  lemma {:induction false} ProductZero(xs: seq<bv8>, i: nat, n: nat, t: bv8)
    requires n <= |xs|
    ensures Product(xs, i, n, t) == 0 <==> exists j :: 0 <= j < n && j != i && xs[j] == t
  {
    hide Add, Mul;
    if n > 0 {
      ProductZero(xs, i, n - 1, t);
      if n - 1 != i {
        NoZeroDivisors(Product(xs, i, n - 1, t), Add(t, xs[n - 1]));
        AddSelf(t, xs[n - 1]);
      }
    }
  }

  lemma {:induction false} InterpolateAt(xs: seq<bv8>, ys: seq<bv8>, n: nat, j: nat)
    requires |xs| == |ys| && n <= |xs| && j < |xs| && Distinct(xs)
    ensures Interpolate(xs, ys, n, xs[j]) == if j < n then ys[j] else 0
  {
    hide Add, Mul, Inv, Product;
    if n > 0 {
      var i := n - 1;
      InterpolateAt(xs, ys, i, j);
      var num, den := Product(xs, i, |xs|, xs[j]), Product(xs, i, |xs|, xs[i]);
      ProductZero(xs, i, |xs|, xs[j]);
      ProductZero(xs, i, |xs|, xs[i]);
      if i == j {
        InvCorrect(den);
        MulOne(ys[i]);
        AddZero(ys[i]);
      } else {
        MulZero(Inv(den));
        MulZero(ys[i]);
        AddZero(Interpolate(xs, ys, i, xs[j]));
      }
    }
  }

  /** Interpolation goes through every point ... */
  lemma InterpolationExists(xs: seq<bv8>, ys: seq<bv8>)
    requires |xs| == |ys| && Distinct(xs)
    ensures Through(InterpolationPoly(xs, ys, |xs|), xs, ys)
  {
    hide Eval, Interpolate;
    forall j | 0 <= j < |xs| ensures Eval(InterpolationPoly(xs, ys, |xs|), xs[j]) == ys[j] {
      EvalInterpolation(xs, ys, |xs|, xs[j]);
      InterpolateAt(xs, ys, |xs|, j);
    }
  }

  /** ... and it is the only polynomial of that many coefficients that does. */
  lemma InterpolationUnique(p: Poly, xs: seq<bv8>, ys: seq<bv8>)
    requires |p| == |xs| == |ys| && Distinct(xs)
    ensures Through(p, xs, ys) <==> p == InterpolationPoly(xs, ys, |xs|)
  {
    hide Eval, InterpolationPoly;
    InterpolationExists(xs, ys);
    if Through(p, xs, ys) {
      AgreeEqual(p, InterpolationPoly(xs, ys, |xs|), xs);
    }
  }

  /** Interpolating enough values of p gives back p, at every point. */
  lemma InterpolationRecovers(p: Poly, xs: seq<bv8>, ys: seq<bv8>, t: bv8)
    requires |p| <= |xs| == |ys| && Distinct(xs)
    requires Through(p, xs, ys)
    ensures Interpolate(xs, ys, |xs|, t) == Eval(p, t)
  {
    hide Eval, InterpolationPoly, Interpolate;
    var n := |xs| - |p|;
    forall i | 0 <= i < |xs| ensures Eval(p + Zeros(n), xs[i]) == ys[i] {
      EvalPad(p, n, xs[i]);
    }
    InterpolationUnique(p + Zeros(n), xs, ys);
    EvalInterpolation(xs, ys, |xs|, t);
    EvalPad(p, n, t);
  }
}
