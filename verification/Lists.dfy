/**
 Lists without repetitions, and how many different elements a list has.
 */
module Lists {

  ghost predicate Distinct<T(!new)>(xs: seq<T>) {
    forall i, j :: 0 <= i < j < |xs| ==> xs[i] != xs[j]
  }

  function Elements<T>(xs: seq<T>): set<T> {
    set x | x in xs
  }

  lemma SubsetCount<T>(s: set<T>, t: set<T>)
    requires s <= t
    ensures |s| <= |t|
  {
    assert t == s + (t - s);
  }

  lemma {:induction false} ElementsBound<T>(xs: seq<T>)
    ensures |Elements(xs)| <= |xs|
  {
    if xs == [] {
      assert Elements(xs) == {};
    } else {
      ElementsBound(xs[1..]);
      assert Elements(xs) == Elements(xs[1..]) + {xs[0]};
    }
  }

  lemma {:induction false} DistinctElements<T(!new)>(xs: seq<T>)
    requires Distinct(xs)
    ensures |Elements(xs)| == |xs|
  {
    if xs == [] {
      assert Elements(xs) == {};
    } else {
      DistinctElements(xs[1..]);
      assert Elements(xs) == Elements(xs[1..]) + {xs[0]};
      assert xs[0] !in Elements(xs[1..]);
    }
  }

  /** There are at least n different elements exactly when n positions hold different ones. */
  lemma {:induction false} PickPositions<T>(xs: seq<T>, n: nat) returns (positions: seq<nat>)
    requires n <= |Elements(xs)|
    ensures |positions| == n && forall l :: 0 <= l < n ==> positions[l] < |xs|
    ensures forall l, r :: 0 <= l < r < n ==> xs[positions[l]] != xs[positions[r]]
  {
    positions := [];
    var picked: set<T> := {};
    while |positions| < n
      invariant |positions| <= n && |picked| == |positions|
      invariant forall l :: 0 <= l < |positions| ==> positions[l] < |xs| && xs[positions[l]] in picked
      invariant forall l, r :: 0 <= l < r < |positions| ==> xs[positions[l]] != xs[positions[r]]
    {
      if Elements(xs) <= picked {
        SubsetCount(Elements(xs), picked);
        assert false;
      }
      var x :| x in Elements(xs) && x !in picked;
      var at: nat :| at < |xs| && xs[at] == x;
      positions := positions + [at];
      picked := picked + {x};
    }
  }

  lemma CountPositions<T>(xs: seq<T>, positions: seq<nat>, among: set<T>)
    requires forall l :: 0 <= l < |positions| ==> positions[l] < |xs| && xs[positions[l]] in among
    requires forall l, r :: 0 <= l < r < |positions| ==> xs[positions[l]] != xs[positions[r]]
    ensures |positions| <= |among|
  {
    var chosen: set<T> := {};
    for l := 0 to |positions|
      invariant |chosen| == l && chosen <= among
      invariant forall x :: x in chosen <==> exists r :: 0 <= r < l && xs[positions[r]] == x
    {
      chosen := chosen + {xs[positions[l]]};
    }
    SubsetCount(chosen, among);
  }

  function Below(n: nat): (s: set<nat>)
    ensures |s| == n && forall x :: x in s <==> 0 <= x < n
  {
    if n == 0 then {} else Below(n - 1) + {n - 1}
  }

  lemma DistinctBound(xs: seq<nat>, n: nat)
    requires Distinct(xs) && forall j :: 0 <= j < |xs| ==> xs[j] < n
    ensures |Elements(xs)| == |xs| <= n
  {
    DistinctElements(xs);
    SubsetCount(Elements(xs), Below(n));
  }
}
