/**
 Interpolation with repeated points: what it computes, and which polynomials it misses.
 */
module RepeatedPoints {
  import opened Bytes
  import opened GF256
  import opened Lists
  import opened Polynomials

  ghost predicate Repeated(xs: seq<bv8>, i: nat)
    requires i < |xs|
  {
    exists j :: 0 <= j < |xs| && j != i && xs[j] == xs[i]
  }

  /** A point whose x occurs twice adds nothing, because the inverse of a zero denominator is zero. */
  lemma RepeatedTerm(xs: seq<bv8>, ys: seq<bv8>, i: nat, t: bv8)
    requires |xs| == |ys| && i < |xs|
    requires Repeated(xs, i)
    ensures Term(xs, ys, i, t) == 0
  {
    hide Mul, Inv, Product;
    var num, den := Product(xs, i, |xs|, t), Product(xs, i, |xs|, xs[i]);
    ProductZero(xs, i, |xs|, xs[i]);
    InvCorrect(den);
    MulZero(num);
    MulZero(ys[i]);
  }

  lemma AddCancel(a: bv8, b: bv8, c: bv8)
    ensures Add(a, c) == Add(b, c) <==> a == b
  {}

  lemma MulCancel(w: bv8, y: bv8, z: bv8)
    requires w != 0
    ensures Mul(w, y) == Mul(w, z) <==> y == z
  {
    hide Mul, Add;
    MulAddRight(w, y, z);
    AddSelf(y, z);
    AddSelf(Mul(w, y), Mul(w, z));
    NoZeroDivisors(w, Add(y, z));
  }

  /** An x that occurs only once, and no other x at t: the point has a nonzero weight. */
  lemma TermDetermines(xs: seq<bv8>, ys: seq<bv8>, zs: seq<bv8>, i: nat, t: bv8)
    requires |xs| == |ys| == |zs| && i < |xs|
    requires !Repeated(xs, i) && forall j :: 0 <= j < |xs| && j != i ==> xs[j] != t
    ensures Term(xs, ys, i, t) == Term(xs, zs, i, t) <==> ys[i] == zs[i]
  {
    hide Mul, Inv, Product;
    var num, den := Product(xs, i, |xs|, t), Product(xs, i, |xs|, xs[i]);
    ProductZero(xs, i, |xs|, t);
    ProductZero(xs, i, |xs|, xs[i]);
    InvCorrect(den);
    MulZero(den);
    NoZeroDivisors(num, Inv(den));
    MulCancel(Mul(num, Inv(den)), ys[i], zs[i]);
  }

  lemma {:induction false} InterpolationDiffers(xs: seq<bv8>, ys: seq<bv8>, zs: seq<bv8>, i: nat, n: nat, t: bv8)
    requires |xs| == |ys| == |zs| && i < |xs| && n <= |xs|
    requires !Repeated(xs, i) && forall j :: 0 <= j < |xs| && j != i ==> xs[j] != t && ys[j] == zs[j]
    ensures Interpolate(xs, ys, n, t) == Interpolate(xs, zs, n, t) <==> n <= i || ys[i] == zs[i]
  {
    hide Term, Repeated, Add;
    if n > 0 {
      InterpolationDiffers(xs, ys, zs, i, n - 1, t);
      if n - 1 == i {
        TermDetermines(xs, ys, zs, i, t);
        var before := Interpolate(xs, ys, i, t);
        AddComm(before, Term(xs, ys, i, t));
        AddComm(before, Term(xs, zs, i, t));
        AddCancel(Term(xs, ys, i, t), Term(xs, zs, i, t), before);
      } else {
        SameTerm(xs, ys, zs, n - 1, t);
        AddCancel(Interpolate(xs, ys, n - 1, t), Interpolate(xs, zs, n - 1, t), Term(xs, ys, n - 1, t));
      }
    }
  }

  lemma SameTerm(xs: seq<bv8>, ys: seq<bv8>, zs: seq<bv8>, i: nat, t: bv8)
    requires |xs| == |ys| == |zs| && i < |xs| && ys[i] == zs[i]
    ensures Term(xs, ys, i, t) == Term(xs, zs, i, t)
  {}

  /** Those of the first n xs that occur only once in all of xs. */
  ghost function Unrepeated(xs: seq<bv8>, n: nat): (rs: seq<bv8>)
    requires n <= |xs|
    ensures forall t :: t in rs <==> exists i :: 0 <= i < n && xs[i] == t && !Repeated(xs, i)
  {
    if n == 0 then [] else Unrepeated(xs, n - 1) + (if Repeated(xs, n - 1) then [] else [xs[n - 1]])
  }

  /** The product of X + r over all r. */
  function RootPoly(rs: seq<bv8>): (p: Poly)
    ensures |p| == |rs| + 1
    decreases |rs|
  {
    if rs == [] then [1] else MulLinear(RootPoly(rs[..|rs| - 1]), rs[|rs| - 1])
  }

  lemma EvalRootPolyStep(rs: seq<bv8>, r: bv8, t: bv8)
    ensures Eval(RootPoly(rs + [r]), t) == Mul(Add(t, r), Eval(RootPoly(rs), t))
  {
    hide Add, Mul, Eval, MulLinear;
    assert (rs + [r])[..|rs|] == rs;
    EvalMulLinear(RootPoly(rs), r, t);
  }

  lemma {:induction false} EvalRootPoly(rs: seq<bv8>, t: bv8)
    ensures Eval(RootPoly(rs), t) == 0 <==> t in rs
    decreases |rs|
  {
    hide Add, Mul, Eval, MulLinear, RootPoly;
    if rs == [] {
      RootPolyOfNone();
      EvalConstant(1, t);
    } else {
      var before, r := rs[..|rs| - 1], rs[|rs| - 1];
      assert rs == before + [r];
      EvalRootPoly(before, t);
      EvalRootPolyStep(before, r, t);
      NoZeroDivisors(Add(t, r), Eval(RootPoly(before), t));
      AddSelf(t, r);
    }
  }

  lemma RootPolyOfNone()
    ensures RootPoly([]) == [1]
  {}

  /** Interpolation gives 0 when every point's value is 0 or its x occurs twice. */
  lemma {:induction false} OnlyRepeated(xs: seq<bv8>, ys: seq<bv8>, n: nat, t: bv8)
    requires |xs| == |ys| && n <= |xs|
    requires forall i :: 0 <= i < |xs| ==> Repeated(xs, i) || ys[i] == 0
    ensures Interpolate(xs, ys, n, t) == 0
  {
    hide Term, Repeated, Add;
    if n > 0 {
      OnlyRepeated(xs, ys, n - 1, t);
      if Repeated(xs, n - 1) {
        RepeatedTerm(xs, ys, n - 1, t);
      } else {
        ZeroTerm(xs, ys, n - 1, t);
      }
      AddZero(0);
    }
  }

  lemma ZeroTerm(xs: seq<bv8>, ys: seq<bv8>, i: nat, t: bv8)
    requires |xs| == |ys| && i < |xs| && ys[i] == 0
    ensures Term(xs, ys, i, t) == 0
  {
    hide Mul, Inv, Product;
    MulZero(Mul(Product(xs, i, |xs|, t), Inv(Product(xs, i, |xs|, xs[i]))));
  }

  function Values(p: Poly, xs: seq<bv8>): (ys: seq<bv8>)
    ensures |ys| == |xs| && forall i :: 0 <= i < |ys| ==> ys[i] == Eval(p, xs[i])
  {
    seq(|xs|, i requires 0 <= i < |xs| => Eval(p, xs[i]))
  }

  /**
   When fewer than k nonzero x occur only once, interpolation misses some polynomial of
   k coefficients: the one whose roots they are has a constant term, and gives 0.
   */
  lemma TooFewUnrepeated(xs: seq<bv8>, k: nat) returns (p: Poly)
    requires 0 !in xs && |Unrepeated(xs, |xs|)| < k
    ensures |p| == k && p[0] != 0 && Interpolate(xs, Values(p, xs), |xs|, 0) == 0
  {
    hide Eval, Interpolate, Repeated, MulLinear;
    var rs := Unrepeated(xs, |xs|);
    var roots := RootPoly(rs);
    p := roots + Zeros(k - |roots|);
    EvalRootPoly(rs, 0);
    EvalAtZero(roots);
    forall i | 0 <= i < |xs| ensures Repeated(xs, i) || Values(p, xs)[i] == 0 {
      if !Repeated(xs, i) {
        EvalRootPoly(rs, xs[i]);
        EvalPad(roots, k - |roots|, xs[i]);
      }
    }
    OnlyRepeated(xs, Values(p, xs), |xs|, 0);
  }

  /** A repetition leaves fewer unrepeated x than there are different ones; none leaves all of them. */
  lemma UnrepeatedCount(xs: seq<bv8>)
    ensures |Unrepeated(xs, |xs|)| <= |Elements(xs)|
    ensures !Distinct(xs) ==> |Unrepeated(xs, |xs|)| < |Elements(xs)|
  {
    var rs := Unrepeated(xs, |xs|);
    UnrepeatedDistinct(xs, |xs|);
    DistinctElements(rs);
    SubsetCount(Elements(rs), Elements(xs));
    if !Distinct(xs) {
      var i, j :| 0 <= i < j < |xs| && xs[i] == xs[j];
      assert Repeated(xs, i);
      forall t | t in rs ensures t != xs[i] {
        var l :| 0 <= l < |xs| && xs[l] == t && !Repeated(xs, l);
        assert l != i && l != j;
      }
      SubsetCount(Elements(rs) + {xs[i]}, Elements(xs));
    }
  }

  lemma {:induction false} UnrepeatedDistinct(xs: seq<bv8>, n: nat)
    requires n <= |xs|
    ensures Distinct(Unrepeated(xs, n))
  {
    if n > 0 {
      UnrepeatedDistinct(xs, n - 1);
      var before := Unrepeated(xs, n - 1);
      if !Repeated(xs, n - 1) {
        forall l | 0 <= l < |before| ensures before[l] != xs[n - 1] {
          assert before[l] in before;
          var i :| 0 <= i < n - 1 && xs[i] == before[l] && !Repeated(xs, i);
        }
      }
    }
  }

  // ----- Repeated points split off -----

  /** The xs among the first n that occur twice in all of xs, with their repetitions. */
  ghost function Repetitions(xs: seq<bv8>, n: nat): (rs: seq<bv8>)
    requires n <= |xs|
    ensures forall t :: t in rs ==> t in xs
    ensures |rs| + |Unrepeated(xs, n)| == n
  {
    if n == 0 then [] else Repetitions(xs, n - 1) + (if Repeated(xs, n - 1) then [xs[n - 1]] else [])
  }

  lemma {:induction false} ProductPrefix(us: seq<bv8>, vs: seq<bv8>, i: nat, n: nat, t: bv8)
    requires n <= |us| && n <= |vs| && us[..n] == vs[..n]
    ensures Product(us, i, n, t) == Product(vs, i, n, t)
    decreases n
  {
    hide Add, Mul;
    if n > 0 {
      assert us[n - 1] == us[..n][n - 1] == vs[..n][n - 1];
      assert us[..n - 1] == us[..n][..n - 1] == vs[..n][..n - 1];
      ProductPrefix(us, vs, i, n - 1, t);
    }
  }

  lemma {:induction false} UnrepeatedPrefix(xs: seq<bv8>, m: nat, n: nat)
    requires m <= n <= |xs|
    ensures Unrepeated(xs, m) <= Unrepeated(xs, n)
  {
    hide Repeated;
    if m < n {
      UnrepeatedPrefix(xs, m, n - 1);
    }
  }

  /** The place of xs[i] among the unrepeated ones. */
  ghost function Place(xs: seq<bv8>, i: nat): nat
    requires i <= |xs|
  {
    |Unrepeated(xs, i)|
  }

  /** One more x is either a repetition or unrepeated. */
  lemma OneMore(xs: seq<bv8>, n: nat)
    requires 0 < n <= |xs|
    ensures Unrepeated(xs, n) == Unrepeated(xs, n - 1) + (if Repeated(xs, n - 1) then [] else [xs[n - 1]])
    ensures Repetitions(xs, n) == Repetitions(xs, n - 1) + (if Repeated(xs, n - 1) then [xs[n - 1]] else [])
  {}

  lemma OneMoreFactor(xs: seq<bv8>, i: nat, n: nat, t: bv8)
    requires n < |xs|
    ensures Product(xs, i, n + 1, t) == if n == i then Product(xs, i, n, t) else Mul(Product(xs, i, n, t), Add(t, xs[n]))
  {}

  lemma NoFactors(xs: seq<bv8>, i: nat, t: bv8)
    ensures Product(xs, i, 0, t) == 1 && Unrepeated(xs, 0) == [] && Repetitions(xs, 0) == []
  {}

  /** The product over all others, for an unrepeated point: repeated ones times unrepeated ones. */
  lemma {:induction false} ProductSplits(xs: seq<bv8>, i: nat, n: nat, t: bv8)
    requires n <= |xs| && i < |xs| && !Repeated(xs, i)
    ensures Place(xs, i) < |Unrepeated(xs, |xs|)| && |Unrepeated(xs, n)| <= |Unrepeated(xs, |xs|)|
    ensures Product(xs, i, n, t)
         == Mul(Eval(RootPoly(Repetitions(xs, n)), t), Product(Unrepeated(xs, |xs|), Place(xs, i), |Unrepeated(xs, n)|, t))
    decreases n
  {
    hide Add, Mul, Eval, RootPoly, Repeated, Unrepeated, Repetitions, Product;
    var us := Unrepeated(xs, |xs|);
    UnrepeatedPrefix(xs, n, |xs|);
    UnrepeatedAt(xs, i);
    if n == 0 {
      NoFactors(xs, i, t);
      NoFactors(us, Place(xs, i), t);
      RootPolyOfNone();
      EvalConstant(1, t);
      MulOne(1);
    } else {
      ProductSplits(xs, i, n - 1, t);
      var x, len := xs[n - 1], |Unrepeated(xs, n - 1)|;
      var r, q := Eval(RootPoly(Repetitions(xs, n - 1)), t), Product(us, Place(xs, i), len, t);
      OneMore(xs, n);
      OneMoreFactor(xs, i, n - 1, t);
      if Repeated(xs, n - 1) {
        EvalRootPolyStep(Repetitions(xs, n - 1), x, t);
        MulShuffle(r, q, Add(t, x));
      } else {
        assert Repetitions(xs, n) == Repetitions(xs, n - 1);
        UnrepeatedAt(xs, n - 1);
        OneMoreFactor(us, Place(xs, i), len, t);
        PlaceIs(xs, i, n - 1);
        MulAssoc(r, q, Add(t, x));
      }
    }
  }

  lemma MulShuffle(r: bv8, q: bv8, a: bv8)
    ensures Mul(Mul(r, q), a) == Mul(Mul(a, r), q)
  {
    hide Mul;
    MulComm(Mul(r, q), a);
    MulAssoc(a, r, q);
  }

  /** Different unrepeated positions have different places. */
  lemma PlaceIs(xs: seq<bv8>, i: nat, j: nat)
    requires i < |xs| && j < |xs| && !Repeated(xs, i) && !Repeated(xs, j)
    ensures Place(xs, i) == Place(xs, j) <==> i == j
  {
    hide Repeated;
    if i < j {
      UnrepeatedPrefix(xs, i + 1, j);
    } else if j < i {
      UnrepeatedPrefix(xs, j + 1, i);
    }
  }

  lemma InvMul(a: bv8, b: bv8)
    requires a != 0 && b != 0
    ensures Inv(Mul(a, b)) == Mul(Inv(a), Inv(b))
  {
    hide Mul, Inv;
    NoZeroDivisors(a, b);
    InvCorrect(a);
    InvCorrect(b);
    InvCorrect(Mul(a, b));
    MulPairs(a, b, Inv(a), Inv(b));
    MulOne(1);
    MulCancel(Mul(a, b), Inv(Mul(a, b)), Mul(Inv(a), Inv(b)));
  }

  /** (a b)(c d) == (a c)(b d) */
  lemma MulPairs(a: bv8, b: bv8, c: bv8, d: bv8)
    ensures Mul(Mul(a, b), Mul(c, d)) == Mul(Mul(a, c), Mul(b, d))
  {
    hide Mul;
    MulAssoc(a, b, Mul(c, d));
    MulSwap(b, c, d);
    MulAssoc(a, c, Mul(b, d));
  }

  /** In a term, the repeated points' factor at the point itself cancels. */
  lemma TermAlgebra(r: bv8, a: bv8, s: bv8, b: bv8, z: bv8)
    requires s != 0 && b != 0
    ensures Mul(Mul(Mul(r, a), Inv(Mul(s, b))), Mul(s, z)) == Mul(r, Mul(Mul(a, Inv(b)), z))
  {
    hide Mul, Inv;
    InvMul(s, b);
    MulPairs(r, a, Inv(s), Inv(b));
    MulPairs(Mul(r, Inv(s)), Mul(a, Inv(b)), s, z);
    MulAssoc(r, Inv(s), s);
    InvCorrect(s);
    MulOne(r);
    MulAssoc(r, Mul(a, Inv(b)), z);
  }

  lemma TermSplits(xs: seq<bv8>, ys: seq<bv8>, zs: seq<bv8>, i: nat, t: bv8)
    requires |xs| == |ys| && i < |xs| && !Repeated(xs, i)
    requires |zs| == |Unrepeated(xs, |xs|)| && Place(xs, i) < |zs|
    requires ys[i] == Mul(Eval(RootPoly(Repetitions(xs, |xs|)), xs[i]), zs[Place(xs, i)])
    ensures Term(xs, ys, i, t)
         == Mul(Eval(RootPoly(Repetitions(xs, |xs|)), t), Term(Unrepeated(xs, |xs|), zs, Place(xs, i), t))
  {
    hide Mul, Inv, Product, Eval, RootPoly;
    var us, rs := Unrepeated(xs, |xs|), Repetitions(xs, |xs|);
    var place := Place(xs, i);
    ProductSplits(xs, i, |xs|, t);
    ProductSplits(xs, i, |xs|, xs[i]);
    UnrepeatedAt(xs, i);
    NotAmongRepetitions(xs, i, |xs|);
    EvalRootPoly(rs, xs[i]);
    UnrepeatedDistinct(xs, |xs|);
    ProductZero(us, place, |us|, xs[i]);
    TermAlgebra(Eval(RootPoly(rs), t), Product(us, place, |us|, t), Eval(RootPoly(rs), xs[i]), Product(us, place, |us|, xs[i]), zs[place]);
  }

  lemma UnrepeatedAt(xs: seq<bv8>, i: nat)
    requires i < |xs| && !Repeated(xs, i)
    ensures Place(xs, i) < |Unrepeated(xs, |xs|)| && Unrepeated(xs, |xs|)[Place(xs, i)] == xs[i]
  {
    UnrepeatedPrefix(xs, i + 1, |xs|);
  }

  lemma {:induction false} NotAmongRepetitions(xs: seq<bv8>, i: nat, n: nat)
    requires i < |xs| && n <= |xs| && !Repeated(xs, i)
    ensures xs[i] !in Repetitions(xs, n)
  {
    if n > 0 {
      NotAmongRepetitions(xs, i, n - 1);
    }
  }

  /** The unrepeated points' values, as those of ys with the repetitions' product taken out. */
  ghost predicate TakenOut(xs: seq<bv8>, ys: seq<bv8>, zs: seq<bv8>)
    requires |xs| == |ys|
  {
    && |zs| == |Unrepeated(xs, |xs|)|
    && forall i :: 0 <= i < |xs| && !Repeated(xs, i) ==>
         Place(xs, i) < |zs| && ys[i] == Mul(Eval(RootPoly(Repetitions(xs, |xs|)), xs[i]), zs[Place(xs, i)])
  }

  /**
   Interpolation with repetitions is interpolation through the unrepeated points, with
   values divided by the repetitions' product there, and multiplied by it at t.
   */
  lemma {:induction false} InterpolationSplits(xs: seq<bv8>, ys: seq<bv8>, zs: seq<bv8>, n: nat, t: bv8)
    requires |xs| == |ys| && n <= |xs| && TakenOut(xs, ys, zs)
    ensures |Unrepeated(xs, n)| <= |zs| == |Unrepeated(xs, |xs|)|
    ensures Interpolate(xs, ys, n, t)
         == Mul(Eval(RootPoly(Repetitions(xs, |xs|)), t), Interpolate(Unrepeated(xs, |xs|), zs, |Unrepeated(xs, n)|, t))
    decreases n
  {
    hide Mul, Term, Add, Eval, RootPoly, Repeated, Repetitions, TakenOut;
    assert |zs| == |Unrepeated(xs, |xs|)| by { TakenOutLength(xs, ys, zs); }
    UnrepeatedPrefix(xs, n, |xs|);
    var r := Eval(RootPoly(Repetitions(xs, |xs|)), t);
    if n == 0 {
      MulZero(r);
    } else {
      InterpolationSplits(xs, ys, zs, n - 1, t);
      if Repeated(xs, n - 1) {
        assert Unrepeated(xs, n) == Unrepeated(xs, n - 1);
        RepeatedTerm(xs, ys, n - 1, t);
        AddZero(Interpolate(xs, ys, n - 1, t));
      } else {
        TakenOutAt(xs, ys, zs, n - 1);
        TermSplits(xs, ys, zs, n - 1, t);
        InterpolationStep(Unrepeated(xs, |xs|), zs, Place(xs, n - 1), r, t);
      }
    }
  }

  lemma TakenOutLength(xs: seq<bv8>, ys: seq<bv8>, zs: seq<bv8>)
    requires |xs| == |ys| && TakenOut(xs, ys, zs)
    ensures |zs| == |Unrepeated(xs, |xs|)|
  {}

  lemma TakenOutAt(xs: seq<bv8>, ys: seq<bv8>, zs: seq<bv8>, i: nat)
    requires |xs| == |ys| && TakenOut(xs, ys, zs) && i < |xs| && !Repeated(xs, i)
    ensures Place(xs, i) < |zs| && ys[i] == Mul(Eval(RootPoly(Repetitions(xs, |xs|)), xs[i]), zs[Place(xs, i)])
  {}

  lemma InterpolationStep(us: seq<bv8>, zs: seq<bv8>, place: nat, r: bv8, t: bv8)
    requires |us| == |zs| && place < |us|
    ensures Mul(r, Interpolate(us, zs, place + 1, t)) == Add(Mul(r, Interpolate(us, zs, place, t)), Mul(r, Term(us, zs, place, t)))
  {
    hide Mul, Add, Term;
    MulAddRight(r, Interpolate(us, zs, place, t), Term(us, zs, place, t));
  }

  // ----- Division by a product of linear factors -----

  function DivQuotient(p: Poly, rs: seq<bv8>): (t: Poly)
    requires |rs| < |p|
    ensures |t| == |p| - |rs|
    decreases |rs|
  {
    if rs == [] then p else DivQuotient(Quotient(p, rs[|rs| - 1]), rs[..|rs| - 1])
  }

  function DivRemainder(p: Poly, rs: seq<bv8>): (f: Poly)
    requires |rs| < |p|
    ensures |f| == |rs|
    decreases |rs|
  {
    if rs == [] then []
    else
      var before, r := rs[..|rs| - 1], rs[|rs| - 1];
      AddPoly([Eval(p, r)] + Zeros(|before|), MulLinear(DivRemainder(Quotient(p, r), before), r))
  }

  lemma {:induction false} DivisionEval(p: Poly, rs: seq<bv8>, x: bv8)
    requires |rs| < |p|
    ensures Eval(p, x) == Add(Mul(Eval(RootPoly(rs), x), Eval(DivQuotient(p, rs), x)), Eval(DivRemainder(p, rs), x))
    decreases |rs|
  {
    hide Add, Mul, Eval, MulLinear, RootPoly, Quotient;
    if rs == [] {
      RootPolyOfNone();
      EvalConstant(1, x);
      MulOne(Eval(p, x));
      EvalZeros(0, x);
      assert DivRemainder(p, rs) == Zeros(0);
      AddZero(Eval(p, x));
    } else {
      var before, r := rs[..|rs| - 1], rs[|rs| - 1];
      var q := Quotient(p, r);
      assert rs == before + [r];
      DivisionEval(q, before, x);
      QuotientEval(p, r, x);
      EvalRootPolyStep(before, r, x);
      var f := DivRemainder(q, before);
      EvalMulLinear(f, r, x);
      EvalAdd([Eval(p, r)] + Zeros(|before|), MulLinear(f, r), x);
      EvalPad([Eval(p, r)], |before|, x);
      EvalConstant(Eval(p, r), x);
      DivisionAlgebra(Add(x, r), Eval(RootPoly(before), x), Eval(DivQuotient(q, before), x), Eval(f, x), Eval(p, r));
    }
  }

  /** a (r t + f) + c == (a r) t + (c + a f) */
  lemma DivisionAlgebra(a: bv8, r: bv8, t: bv8, f: bv8, c: bv8)
    ensures Add(Mul(a, Add(Mul(r, t), f)), c) == Add(Mul(Mul(a, r), t), Add(c, Mul(a, f)))
  {
    hide Add, Mul;
    MulAddRight(a, Mul(r, t), f);
    MulAssoc(a, r, t);
    AddAssoc(Mul(Mul(a, r), t), Mul(a, f), c);
    AddComm(Mul(a, f), c);
  }

  lemma {:induction false} QuotientLast(p: Poly, r: bv8)
    requires 2 <= |p|
    ensures Quotient(p, r)[|p| - 2] == p[|p| - 1]
  {
    hide Eval;
    if |p| == 2 {
      assert p[1..] == [p[1]];
      EvalConstant(p[1], r);
    } else {
      QuotientLast(p[1..], r);
    }
  }

  lemma {:induction false} DivQuotientLast(p: Poly, rs: seq<bv8>)
    requires |rs| < |p|
    ensures DivQuotient(p, rs)[|p| - |rs| - 1] == p[|p| - 1]
    decreases |rs|
  {
    hide Quotient;
    if rs != [] {
      QuotientLast(p, rs[|rs| - 1]);
      DivQuotientLast(Quotient(p, rs[|rs| - 1]), rs[..|rs| - 1]);
    }
  }

  lemma {:induction false} RootPolyMonic(rs: seq<bv8>)
    ensures RootPoly(rs)[|rs|] == 1
    decreases |rs|
  {
    hide Mul, Add;
    if rs != [] {
      RootPolyMonic(rs[..|rs| - 1]);
      AddZero(1);
    }
  }

  lemma {:induction false} EvalShifted(n: nat, p: Poly, x: bv8)
    ensures Eval(Zeros(n) + p, x) == Mul(Pow(x, n), Eval(p, x))
  {
    hide Mul, Add, Eval;
    if n == 0 {
      assert Zeros(0) + p == p;
      MulOne(Eval(p, x));
    } else {
      assert Zeros(n) + p == [0] + (Zeros(n - 1) + p);
      EvalShifted(n - 1, p, x);
      EvalShift(Zeros(n - 1) + p, x);
      MulAssoc(x, Pow(x, n - 1), Eval(p, x));
    }
  }

  // ----- Few repetitions -----

  lemma AddIsZero(a: bv8, b: bv8)
    requires Add(a, b) == 0
    ensures a == b
  {}

  /** At a root of p, the remainder is the product times the quotient. */
  lemma RemainderAtRoot(p: Poly, rs: seq<bv8>, x: bv8)
    requires |rs| < |p| && Eval(p, x) == 0
    ensures Eval(DivRemainder(p, rs), x) == Mul(Eval(RootPoly(rs), x), Eval(DivQuotient(p, rs), x))
  {
    hide Add, Mul, Eval, RootPoly, DivQuotient, DivRemainder;
    DivisionEval(p, rs, x);
    AddIsZero(Mul(Eval(RootPoly(rs), x), Eval(DivQuotient(p, rs), x)), Eval(DivRemainder(p, rs), x));
  }

  /** Interpolating t, which is monic with one coefficient more than there are points, adds their root polynomial. */
  lemma OneTooLong(t: Poly, us: seq<bv8>, x: bv8)
    requires |t| == |us| + 1 && t[|us|] == 1 && Distinct(us)
    ensures Interpolate(us, Values(t, us), |us|, x) == Add(Eval(t, x), Eval(RootPoly(us), x))
  {
    hide Add, Mul, Eval, RootPoly, Interpolate;
    var m := RootPoly(us);
    var sum := AddPoly(t, m);
    RootPolyMonic(us);
    AddSelf(1, 1);
    var g := sum[..|us|];
    assert sum == g + Zeros(1);
    forall i | 0 <= i < |us| ensures Eval(g, us[i]) == Values(t, us)[i] {
      EvalPad(g, 1, us[i]);
      EvalAdd(t, m, us[i]);
      EvalRootPoly(us, us[i]);
      AddZero(Eval(t, us[i]));
    }
    InterpolationRecovers(g, us, Values(t, us), x);
    EvalPad(g, 1, x);
    EvalAdd(t, m, x);
  }

  /** Points with the remainder's values have the quotient's values, with the repetitions taken out. */
  lemma RemainderTakenOut(xs: seq<bv8>, p: Poly, f: Poly)
    requires |Repetitions(xs, |xs|)| < |p|
    requires forall i :: 0 <= i < |xs| && !Repeated(xs, i) ==> Eval(p, xs[i]) == 0
    requires forall i :: 0 <= i < |xs| ==> Eval(f, xs[i]) == Eval(DivRemainder(p, Repetitions(xs, |xs|)), xs[i])
    ensures TakenOut(xs, Values(f, xs), Values(DivQuotient(p, Repetitions(xs, |xs|)), Unrepeated(xs, |xs|)))
  {
    hide Add, Mul, Eval, RootPoly, DivQuotient, DivRemainder, Repeated, Repetitions, Unrepeated;
    forall i | 0 <= i < |xs| && !Repeated(xs, i)
      ensures Place(xs, i) < |Unrepeated(xs, |xs|)| && Unrepeated(xs, |xs|)[Place(xs, i)] == xs[i]
      ensures Eval(f, xs[i])
           == Mul(Eval(RootPoly(Repetitions(xs, |xs|)), xs[i]), Eval(DivQuotient(p, Repetitions(xs, |xs|)), xs[i]))
    {
      UnrepeatedAt(xs, i);
      RemainderAtRoot(p, Repetitions(xs, |xs|), xs[i]);
    }
  }

  /** x^n times the root polynomial of the unrepeated points. */
  ghost function ShiftedRoots(xs: seq<bv8>): (p: Poly)
    ensures |p| == |xs| + 1
  {
    Zeros(|Repetitions(xs, |xs|)|) + RootPoly(Unrepeated(xs, |xs|))
  }

  lemma ShiftedRootsVanish(xs: seq<bv8>, x: bv8)
    requires x in Unrepeated(xs, |xs|) || (x == 0 && Repetitions(xs, |xs|) != [])
    ensures Eval(ShiftedRoots(xs), x) == 0
  {
    hide Mul, Eval, RootPoly, Unrepeated, Repetitions;
    var n, us := |Repetitions(xs, |xs|)|, Unrepeated(xs, |xs|);
    EvalShifted(n, RootPoly(us), x);
    EvalRootPoly(us, x);
    MulZero(Pow(x, n));
    if x == 0 && n > 0 {
      MulZero(Pow(0, n - 1));
      MulZero(Eval(RootPoly(us), 0));
    }
  }

  /**
   When some x repeats, but at most k positions do, interpolation misses a polynomial of k
   coefficients, too: the remainder of the shifted roots modulo the repetitions.
   */
  lemma FewRepetitions(xs: seq<bv8>, k: nat) returns (p: Poly)
    requires 0 !in xs && 1 <= |Repetitions(xs, |xs|)| <= k
    ensures |p| == k && Interpolate(xs, Values(p, xs), |xs|, 0) != p[0]
  {
    hide Add, Mul, Eval, RootPoly, DivQuotient, DivRemainder, Repeated, Repetitions, Unrepeated, Interpolate, ShiftedRoots, TakenOut;
    var rs, us, shifted := Repetitions(xs, |xs|), Unrepeated(xs, |xs|), ShiftedRoots(xs);
    var t, f := DivQuotient(shifted, rs), DivRemainder(shifted, rs);
    p := f + Zeros(k - |f|);
    forall i | 0 <= i < |xs| ensures Eval(p, xs[i]) == Eval(f, xs[i]) {
      EvalPad(f, k - |f|, xs[i]);
    }
    forall i | 0 <= i < |xs| && !Repeated(xs, i) ensures Eval(shifted, xs[i]) == 0 {
      UnrepeatedAt(xs, i);
      ShiftedRootsVanish(xs, xs[i]);
    }
    RemainderTakenOut(xs, shifted, p);
    InterpolationSplits(xs, Values(p, xs), Values(t, us), |xs|, 0);
    UnrepeatedDistinct(xs, |xs|);
    ShiftedLast(xs);
    DivQuotientLast(shifted, rs);
    OneTooLong(t, us, 0);
    EvalAtZero(p);
    EvalPad(f, k - |f|, 0);
    ShiftedRootsVanish(xs, 0);
    RemainderAtRoot(shifted, rs, 0);
    EvalRootPoly(rs, 0);
    EvalRootPoly(us, 0);
    MulCancel(Eval(RootPoly(rs), 0), Add(Eval(t, 0), Eval(RootPoly(us), 0)), Eval(t, 0));
    AddMoves(Eval(t, 0), Eval(RootPoly(us), 0));
  }

  lemma ShiftedLast(xs: seq<bv8>)
    ensures ShiftedRoots(xs)[|xs|] == 1
  {
    RootPolyMonic(Unrepeated(xs, |xs|));
  }

  lemma AddMoves(a: bv8, b: bv8)
    ensures Add(a, b) == a <==> b == 0
  {}

  // ----- Any points, by monomials -----

  /** Interpolating p's values at the points gives p's value at t. */
  predicate Met(xs: seq<bv8>, p: Poly, t: bv8) {
    Interpolate(xs, Values(p, xs), |xs|, t) == Eval(p, t)
  }

  /** X^n */
  function Monomial(n: nat): (p: Poly)
    ensures |p| == n + 1
  {
    Zeros(n) + [1]
  }

  lemma {:induction false} InterpolateAdd(xs: seq<bv8>, ys: seq<bv8>, zs: seq<bv8>, n: nat, t: bv8)
    requires |xs| == |ys| == |zs| && n <= |xs|
    ensures Interpolate(xs, AddPoly(ys, zs), n, t) == Add(Interpolate(xs, ys, n, t), Interpolate(xs, zs, n, t))
  {
    hide Add, Mul, Inv, Product, Term;
    if n == 0 {
      AddZero(0);
    } else {
      InterpolateAdd(xs, ys, zs, n - 1, t);
      TermAdd(xs, ys, zs, n - 1, t);
      AddSwap(Interpolate(xs, ys, n - 1, t), Interpolate(xs, zs, n - 1, t), Term(xs, ys, n - 1, t), Term(xs, zs, n - 1, t));
    }
  }

  lemma TermAdd(xs: seq<bv8>, ys: seq<bv8>, zs: seq<bv8>, i: nat, t: bv8)
    requires |xs| == |ys| == |zs| && i < |xs|
    ensures Term(xs, AddPoly(ys, zs), i, t) == Add(Term(xs, ys, i, t), Term(xs, zs, i, t))
  {
    hide Add, Mul, Inv, Product;
    MulAddRight(Mul(Product(xs, i, |xs|, t), Inv(Product(xs, i, |xs|, xs[i]))), ys[i], zs[i]);
  }

  lemma {:induction false} InterpolateScale(xs: seq<bv8>, ys: seq<bv8>, c: bv8, n: nat, t: bv8)
    requires |xs| == |ys| && n <= |xs|
    ensures Interpolate(xs, Scale(ys, c), n, t) == Mul(c, Interpolate(xs, ys, n, t))
  {
    hide Add, Mul, Inv, Product, Term;
    if n == 0 {
      MulZero(c);
    } else {
      InterpolateScale(xs, ys, c, n - 1, t);
      TermScale(xs, ys, c, n - 1, t);
      MulAddRight(c, Interpolate(xs, ys, n - 1, t), Term(xs, ys, n - 1, t));
    }
  }

  lemma TermScale(xs: seq<bv8>, ys: seq<bv8>, c: bv8, i: nat, t: bv8)
    requires |xs| == |ys| && i < |xs|
    ensures Term(xs, Scale(ys, c), i, t) == Mul(c, Term(xs, ys, i, t))
  {
    hide Mul, Inv, Product;
    MulSwap(Mul(Product(xs, i, |xs|, t), Inv(Product(xs, i, |xs|, xs[i]))), c, ys[i]);
  }

  lemma EvalMonomial(n: nat, x: bv8)
    ensures Eval(Monomial(n), x) == Pow(x, n)
  {
    hide Mul, Eval;
    EvalShifted(n, [1], x);
    EvalConstant(1, x);
    MulOne(Pow(x, n));
  }

  lemma EvalOneMore(p: Poly, c: bv8, x: bv8)
    ensures Eval(p + [c], x) == Add(Eval(p, x), Mul(c, Eval(Monomial(|p|), x)))
  {
    hide Mul, Add, Eval;
    EvalAppend(p, c, x);
    EvalMonomial(|p|, x);
    MulComm(Pow(x, |p|), c);
  }

  /** Interpolation is linear in the values: if it meets the first k powers, it meets all polynomials of k coefficients. */
  lemma {:induction false} MonomialsSuffice(xs: seq<bv8>, p: Poly, t: bv8)
    requires forall n: nat :: n < |p| ==> Met(xs, Monomial(n), t)
    ensures Met(xs, p, t)
    decreases |p|
  {
    hide Add, Mul, Eval, Interpolate;
    if p == [] {
      forall i | 0 <= i < |xs| ensures Values(p, xs)[i] == 0 {
        EvalZeros(0, xs[i]);
      }
      EvalZeros(0, t);
      assert Zeros(0) == p;
      OnlyRepeated(xs, Values(p, xs), |xs|, t);
    } else {
      var q, c := p[..|p| - 1], p[|p| - 1];
      assert p == q + [c];
      var power := Monomial(|q|);
      MonomialsSuffice(xs, q, t);
      forall i | 0 <= i < |xs| ensures Values(p, xs)[i] == AddPoly(Values(q, xs), Scale(Values(power, xs), c))[i] {
        EvalOneMore(q, c, xs[i]);
      }
      assert Values(p, xs) == AddPoly(Values(q, xs), Scale(Values(power, xs), c));
      InterpolateAdd(xs, Values(q, xs), Scale(Values(power, xs), c), |xs|, t);
      InterpolateScale(xs, Values(power, xs), c, |xs|, t);
      EvalOneMore(q, c, t);
      assert Met(xs, power, t);
    }
  }

  /** 1 + 0xbc, which is a cube root of 1. */
  lemma CubeRoot()
    ensures Add(0xbc, 1) == 0xbd && Mul(Mul(0xbd, 0xbd), 0xbd) == 1
  {
    hide Mul, Add;
    // 0xbd squared is 0xbc, which is 0xbd + 1
    SquareIsLinear(0xbd);
    CubeRootBits();
    MulAddLeft(0xbd, 1, 0xbd);
    MulOne(0xbd);
  }

  lemma CubeRootBits()
    ensures SquareBits(0xbd) == 0xbc && Add(0xbd, 1) == 0xbc && Add(0xbc, 1) == 0xbd && Add(0xbc, 0xbd) == 1
  {}

  /** A list with repetitions can meet a polynomial all the same: three times 1, and 0xbc, meet the constant. */
  lemma LongListMeets()
    ensures Met([1, 1, 1, 0xbc], Monomial(0), 0)
  {
    hide Mul, Inv, Add, Term, Eval;
    var xs: seq<bv8> := [1, 1, 1, 0xbc];
    var ys := Values(Monomial(0), xs);
    assert Repeated(xs, 0) by { assert xs[1] == xs[0]; }
    assert Repeated(xs, 1) by { assert xs[0] == xs[1]; }
    assert Repeated(xs, 2) by { assert xs[0] == xs[2]; }
    RepeatedTerm(xs, ys, 0, 0);
    RepeatedTerm(xs, ys, 1, 0);
    RepeatedTerm(xs, ys, 2, 0);
    EvalMonomial(0, 0xbc);
    EvalMonomial(0, 0);
    LastTerm(xs, ys);
    AddZero(0);
    AddZero(1);
    assert Interpolate(xs, ys, 1, 0) == 0;
    assert Interpolate(xs, ys, 2, 0) == 0;
    assert Interpolate(xs, ys, 3, 0) == 0;
    assert Interpolate(xs, ys, 4, 0) == 1;
  }

  lemma LastTerm(xs: seq<bv8>, ys: seq<bv8>)
    requires xs == [1, 1, 1, 0xbc] && |ys| == 4 && ys[3] == 1
    ensures Term(xs, ys, 3, 0) == 1
  {
    hide Mul, Inv, Add;
    CubeRoot();
    AddZero(1);
    MulOne(1);
    MulOne(0xbd);
    InvCorrect(1);
    MulOne(Inv(1));
    assert Product(xs, 3, 4, 0) == Product(xs, 3, 3, 0);
    assert Product(xs, 3, 1, 0) == 1;
    assert Product(xs, 3, 2, 0) == 1;
    assert Product(xs, 3, 3, 0) == 1;
    assert Product(xs, 3, 4, 0xbc) == Product(xs, 3, 3, 0xbc);
    assert Product(xs, 3, 1, 0xbc) == 0xbd;
    assert Product(xs, 3, 2, 0xbc) == Mul(0xbd, 0xbd);
    assert Product(xs, 3, 3, 0xbc) == 1;
  }
}
