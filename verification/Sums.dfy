/**
 Finite sums over lists, and counting with them.
 */
module Sums {
  function SumOver<T>(xs: seq<T>, f: T -> int): int {
    if xs == [] then 0 else f(xs[0]) + SumOver(xs[1..], f)
  }

  function Range(n: nat): (xs: seq<nat>)
    ensures |xs| == n && forall i :: 0 <= i < n ==> xs[i] == i
  {
    seq(n, i requires 0 <= i < n => i)
  }

  /** If(b, 1, 0) */
  function One(b: bool): (r: int)
    ensures r == 0 || r == 1
  {
    if b then 1 else 0
  }

  lemma {:induction false} SumMonotone<T>(xs: seq<T>, f: T -> int, g: T -> int)
    requires forall i :: 0 <= i < |xs| ==> f(xs[i]) <= g(xs[i])
    ensures SumOver(xs, f) <= SumOver(xs, g)
  {
    if xs != [] {
      SumMonotone(xs[1..], f, g);
    }
  }

  lemma {:induction false} SumPlus<T>(xs: seq<T>, f: T -> int, g: T -> int, h: T -> int)
    requires forall i :: 0 <= i < |xs| ==> h(xs[i]) == f(xs[i]) + g(xs[i])
    ensures SumOver(xs, h) == SumOver(xs, f) + SumOver(xs, g)
  {
    if xs != [] {
      SumPlus(xs[1..], f, g, h);
    }
  }

  lemma {:induction false} SumScaled<T>(xs: seq<T>, c: int, f: T -> int, g: T -> int)
    requires forall i :: 0 <= i < |xs| ==> g(xs[i]) == c * f(xs[i])
    ensures SumOver(xs, g) == c * SumOver(xs, f)
  {
    if xs != [] {
      SumScaled(xs[1..], c, f, g);
      assert c * (f(xs[0]) + SumOver(xs[1..], f)) == c * f(xs[0]) + c * SumOver(xs[1..], f);
    }
  }

  lemma {:induction false} SumZero<T>(xs: seq<T>, f: T -> int)
    requires forall i :: 0 <= i < |xs| ==> f(xs[i]) == 0
    ensures SumOver(xs, f) == 0
  {
    if xs != [] {
      SumZero(xs[1..], f);
    }
  }

  function RowSum<S, T>(ys: seq<T>, f: (S, T) -> int): S -> int {
    x => SumOver(ys, y => f(x, y))
  }

  function ColumnSum<S, T>(xs: seq<S>, f: (S, T) -> int): T -> int {
    y => SumOver(xs, x => f(x, y))
  }

  /** Counting by rows or by columns gives the same. */
  lemma {:induction false} DoubleCounting<S, T>(xs: seq<S>, ys: seq<T>, f: (S, T) -> int)
    ensures SumOver(xs, RowSum(ys, f)) == SumOver(ys, ColumnSum(xs, f))
  {
    if xs == [] {
      SumZero(ys, ColumnSum(xs, f));
    } else {
      DoubleCounting(xs[1..], ys, f);
      var first := (y: T) => f(xs[0], y);
      assert RowSum(ys, f)(xs[0]) == SumOver(ys, first) by {
        SumMonotone(ys, first, y => f(xs[0], y));
        SumMonotone(ys, y => f(xs[0], y), first);
      }
      SumPlus(ys, first, ColumnSum(xs[1..], f), ColumnSum(xs, f));
    }
  }

  /** Sum([If(P(x), 1, 0) for x in xs]) */
  function Count<T>(xs: seq<T>, P: T -> bool): int {
    if xs == [] then 0 else One(P(xs[0])) + Count(xs[1..], P)
  }

  lemma {:induction false} CountIsSum<T>(xs: seq<T>, P: T -> bool, f: T -> int)
    requires forall i :: 0 <= i < |xs| ==> f(xs[i]) == One(P(xs[i]))
    ensures SumOver(xs, f) == Count(xs, P)
  {
    if xs != [] {
      CountIsSum(xs[1..], P, f);
    }
  }

  /** A count is positive exactly when there is something to count. */
  lemma {:induction false} CountWitness<T>(xs: seq<T>, P: T -> bool)
    ensures 0 <= Count(xs, P)
    ensures 0 < Count(xs, P) <==> exists i :: 0 <= i < |xs| && P(xs[i])
  {
    if xs != [] {
      CountWitness(xs[1..], P);
      assert forall i :: 0 < i < |xs| ==> xs[i] == xs[1..][i - 1];
      if 0 < Count(xs[1..], P) {
        var i :| 0 <= i < |xs[1..]| && P(xs[1..][i]);
        assert P(xs[i + 1]);
      }
    }
  }

  /** A count is at most one exactly when no two positions are counted. */
  lemma {:induction false} CountUnique<T>(xs: seq<T>, P: T -> bool)
    ensures Count(xs, P) <= 1 <==> forall i, j :: 0 <= i < j < |xs| ==> !(P(xs[i]) && P(xs[j]))
  {
    if xs != [] {
      CountUnique(xs[1..], P);
      CountWitness(xs[1..], P);
      assert forall i :: 0 < i < |xs| ==> xs[i] == xs[1..][i - 1];
      assert forall i :: 0 <= i < |xs| - 1 ==> xs[1..][i] == xs[i + 1];
    }
  }

  lemma {:induction false} CountSame<T>(xs: seq<T>, P: T -> bool, Q: T -> bool)
    requires forall i :: 0 <= i < |xs| ==> P(xs[i]) == Q(xs[i])
    ensures Count(xs, P) == Count(xs, Q)
  {
    if xs != [] {
      CountSame(xs[1..], P, Q);
    }
  }

  lemma CountNone<T>(xs: seq<T>, P: T -> bool)
    requires forall i :: 0 <= i < |xs| ==> !P(xs[i])
    ensures Count(xs, P) == 0
  {
    CountWitness(xs, P);
  }

  lemma {:induction false} SumAppend<T>(xs: seq<T>, ys: seq<T>, f: T -> int)
    ensures SumOver(xs + ys, f) == SumOver(xs, f) + SumOver(ys, f)
  {
    if xs == [] {
      assert xs + ys == ys;
    } else {
      assert (xs + ys)[1..] == xs[1..] + ys;
      SumAppend(xs[1..], ys, f);
    }
  }

  lemma SumOfOne<T>(x: T, f: T -> int)
    ensures SumOver([x], f) == f(x)
  {
    assert [x][1..] == [];
  }

  /** f(0) + f(1) + ... + f(n - 1) */
  function SumTo(n: nat, f: nat -> int): int {
    if n == 0 then 0 else SumTo(n - 1, f) + f(n - 1)
  }

  lemma {:induction false} SumOfRange(n: nat, f: nat -> int)
    ensures SumOver(Range(n), f) == SumTo(n, f)
  {
    if n > 0 {
      var last: nat := n - 1;
      SumOfRange(last, f);
      assert Range(n) == Range(last) + [last];
      SumAppend(Range(last), [last], f);
      SumOfOne(last, f);
    }
  }

  /** Counting over a range counts how many numbers there are. */
  lemma {:induction false} CountIsCard(n: nat, P: nat -> bool)
    ensures Count(Range(n), P) == |set k: nat | k < n && P(k)|
  {
    if n == 0 {
      assert (set k: nat | k < n && P(k)) == {};
    } else {
      var last: nat := n - 1;
      CountIsCard(last, P);
      OneMoreCard(last, P);
      assert Range(n) == Range(last) + [last];
      CountAppend(Range(last), last, P);
    }
  }

  lemma OneMoreCard(n: nat, P: nat -> bool)
    ensures |set k: nat | k < n + 1 && P(k)| == |set k: nat | k < n && P(k)| + One(P(n))
  {
    var before := set k: nat | k < n && P(k);
    assert (set k: nat | k < n + 1 && P(k)) == if P(n) then before + {n} else before;
  }

  lemma {:induction false} CountAppend<T>(xs: seq<T>, x: T, P: T -> bool)
    ensures Count(xs + [x], P) == Count(xs, P) + One(P(x))
  {
    if xs == [] {
      assert ([] + [x])[1..] == [];
    } else {
      assert (xs + [x])[1..] == xs[1..] + [x];
      CountAppend(xs[1..], x, P);
    }
  }

  lemma RowSumApplied<S, T>(ys: seq<T>, f: (S, T) -> int, x: S, row: T -> int)
    requires forall y :: row(y) == f(x, y)
    ensures RowSum(ys, f)(x) == SumOver(ys, row)
  {
    var row' := (y: T) => f(x, y);
    SumMonotone(ys, row, row');
    SumMonotone(ys, row', row);
  }

  lemma RowSumLess<S, T>(ys: seq<T>, f: (S, T) -> int, g: (S, T) -> int, x: S)
    requires forall i :: 0 <= i < |ys| ==> f(x, ys[i]) <= g(x, ys[i])
    ensures RowSum(ys, f)(x) <= RowSum(ys, g)(x)
  {
    var row := (y: T) => f(x, y);
    var row' := (y: T) => g(x, y);
    SumMonotone(ys, row, row');
  }

  /** A column that holds c or 0 adds up to c times the count of the former. */
  lemma ColumnCounts<S, T>(xs: seq<S>, f: (S, T) -> int, y: T, c: int, P: S -> bool)
    requires forall i :: 0 <= i < |xs| ==> f(xs[i], y) == c * One(P(xs[i]))
    ensures ColumnSum(xs, f)(y) == c * Count(xs, P)
  {
    var column := (x: S) => f(x, y);
    var g := (x: S) => One(P(x));
    CountIsSum(xs, P, g);
    SumScaled(xs, c, g, column);
  }

  lemma RangeWitness(n: nat, P: nat -> bool)
    ensures 0 <= Count(Range(n), P)
    ensures 0 < Count(Range(n), P) <==> exists i: nat :: i < n && P(i)
  {
    var xs := Range(n);
    CountWitness(xs, P);
    if i: nat :| i < n && P(i) {
      assert P(xs[i]);
    }
  }

  lemma RangeUnique(n: nat, P: nat -> bool)
    ensures Count(Range(n), P) <= 1 <==> forall i: nat, j: nat :: i < j < n ==> !(P(i) && P(j))
  {
    var xs := Range(n);
    CountUnique(xs, P);
    if i: nat, j: nat :| i < j < n && P(i) && P(j) {
      assert P(xs[i]) && P(xs[j]);
    }
  }

  /** Distinct values, all in a list, are no more than the list is long. */
  lemma {:induction false} Pigeonhole<T>(f: seq<T>, xs: seq<T>)
    requires forall i, j :: 0 <= i < j < |f| ==> f[i] != f[j]
    requires forall i :: 0 <= i < |f| ==> f[i] in xs
    ensures |f| <= |xs|
  {
    if f != [] {
      var at :| 0 <= at < |xs| && xs[at] == f[0];
      var rest := xs[..at] + xs[at + 1..];
      forall i | 0 <= i < |f[1..]| ensures f[1..][i] in rest {
        var l :| 0 <= l < |xs| && xs[l] == f[i + 1];
        assert l != at;
        assert rest[if l < at then l else l - 1] == f[i + 1];
      }
      Pigeonhole(f[1..], rest);
    }
  }
}
