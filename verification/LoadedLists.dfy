/**
 The rules that read the list the module was loaded with instead of the problem's own:
 exactly when they say the same for all placings.
 */
module LoadedLists {
  import opened Sums
  import opened Placement
  import opened Formulas

  // ----- The bounds n and m -----

  predicate Within(instance: Instance, h: int) {
    instance.n <= h <= instance.m
  }

  /** The placing in which race node n has the first h shards of instance j of dependency i, and nothing else is anywhere. */
  function FirstShards(n: nat, i: nat, j: nat, h: nat): Placing {
    (v: Var) => v.RaceShard? && v == RaceShard(n, i, j, v.k) && v.k < h
  }

  lemma {:induction false} CountPrefix<T>(xs: seq<T>, h: nat, P: T -> bool)
    requires h <= |xs| && forall l :: 0 <= l < |xs| ==> (P(xs[l]) <==> l < h)
    ensures Count(xs, P) == h
  {
    if xs != [] {
      if h == 0 {
        CountNone(xs, P);
      } else {
        CountPrefix(xs[1..], h - 1, P);
      }
    }
  }

  lemma {:induction false} CountBound<T>(xs: seq<T>, P: T -> bool)
    ensures 0 <= Count(xs, P) <= |xs|
  {
    if xs != [] {
      CountBound(xs[1..], P);
    }
  }

  lemma HeldFirst(p: Problem, n: nat, i: nat, j: nat, h: nat)
    requires IsInstance(p, i, j) && h <= |p.deps[i].instances[j].shards|
    ensures Held(p, FirstShards(n, i, j, h), n, i, j) == h
  {
    var a := FirstShards(n, i, j, h);
    CountPrefix(Range(|p.deps[i].instances[j].shards|), h, (k: nat) => a(RaceShard(n, i, j, k)));
  }

  lemma HeldBound(p: Problem, a: Placing, n: nat, i: nat, j: nat)
    requires IsInstance(p, i, j)
    ensures 0 <= Held(p, a, n, i, j) <= |p.deps[i].instances[j].shards|
  {
    CountBound(Range(|p.deps[i].instances[j].shards|), (k: nat) => a(RaceShard(n, i, j, k)));
  }

  /**
   The rule says the same with the loaded bounds exactly when the loaded and the own
   bounds admit the same numbers of shards, of those that the instance has.
   */
  lemma LoadedBoundsMatter(p: Problem, loaded: seq<Dep>, n: nat, i: nat, j: nat)
    requires Covers(loaded, p.deps) && InRange(p, BetweenNAndM(n, i, j))
    ensures (forall a :: True(a, BetweenNAndMFormula(p, loaded, n, i, j)) <==> Holds(p, a, BetweenNAndM(n, i, j)))
       <==> forall h :: 1 <= h <= |p.deps[i].instances[j].shards| ==>
              (Within(loaded[i].instances[j], h) <==> Within(p.deps[i].instances[j], h))
  {
    hide Held, True, BetweenNAndMFormula, FirstShards;
    var own, other := p.deps[i].instances[j], loaded[i].instances[j];
    if forall h :: 1 <= h <= |own.shards| ==> (Within(other, h) <==> Within(own, h)) {
      forall a ensures True(a, BetweenNAndMFormula(p, loaded, n, i, j)) <==> Holds(p, a, BetweenNAndM(n, i, j)) {
        SayBetweenNAndM(p, loaded, a, n, i, j);
        HeldBound(p, a, n, i, j);
        var held := Held(p, a, n, i, j);
        assert held == 0 || (Within(other, held) <==> Within(own, held));
      }
    } else {
      var h: int :| 1 <= h <= |own.shards| && !(Within(other, h) <==> Within(own, h));
      var a := FirstShards(n, i, j, h);
      HeldFirst(p, n, i, j, h);
      SayBetweenNAndM(p, loaded, a, n, i, j);
    }
  }

  // ----- The types -----

  /** Every dependency can be served: its thresholds are positive, and one of them does not exceed the number of shards. */
  ghost predicate Servable(p: Problem) {
    forall i :: 0 <= i < |p.deps| ==>
      && (forall j: nat :: j < |p.deps[i].instances| ==> Threshold(p, i, j) >= 1)
      && exists j: nat :: j < |p.deps[i].instances| && Threshold(p, i, j) <= |p.deps[i].instances[j].shards|
  }

  /** The placing in which race node n has all shards of dependency i, and nothing else is anywhere. */
  function WholeDependency(n: nat, i: nat): Placing {
    (v: Var) => v.RaceShard? && v.n == n && v.i == i
  }

  lemma HeldWhole(p: Problem, n: nat, i: nat, d: nat, j: nat)
    requires IsInstance(p, d, j)
    ensures Held(p, WholeDependency(n, i), n, d, j) == if d == i then |p.deps[i].instances[j].shards| else 0
  {
    var a := WholeDependency(n, i);
    var xs := Range(|p.deps[d].instances[j].shards|);
    CountPrefix(xs, if d == i then |xs| else 0, (k: nat) => a(RaceShard(n, d, j, k)));
  }

  lemma UsableWhole(p: Problem, n: nat, i: nat, d: nat)
    requires Servable(p) && i < |p.deps| && d < |p.deps|
    ensures Usable(p, WholeDependency(n, i), n, d) > 0 <==> d == i
  {
    hide Held, WholeDependency;
    var a, count := WholeDependency(n, i), |p.deps[d].instances|;
    var P := (j: nat) => Held(p, a, n, d, j) >= Threshold(p, d, j);
    RangeWitness(count, P);
    forall j: nat | j < count ensures P(j) <==> d == i && Threshold(p, d, j) <= |p.deps[d].instances[j].shards| {
      HeldWhole(p, n, i, d, j);
    }
  }

  lemma CountOnly(xs: seq<nat>, x: nat, P: nat -> bool)
    requires forall l, r :: 0 <= l < r < |xs| ==> xs[l] < xs[r]
    requires forall l :: 0 <= l < |xs| ==> (P(xs[l]) <==> xs[l] == x)
    ensures Count(xs, P) == One(x in xs)
  {
    CountUnique(xs, P);
    CountWitness(xs, P);
    if x in xs {
      var l :| 0 <= l < |xs| && xs[l] == x;
      assert P(xs[l]);
    }
  }

  lemma {:induction false} SameIndices(loaded: seq<Dep>, deps: seq<Dep>, deptype: string, d: nat)
    requires d <= |deps| && d <= |loaded|
    requires forall i :: 0 <= i < d ==> (loaded[i].deptype == deptype <==> deps[i].deptype == deptype)
    ensures OfType(loaded, deptype, d) == OfType(deps, deptype, d)
  {
    if d > 0 {
      SameIndices(loaded, deps, deptype, d - 1);
    }
  }

  /**
   The rule for a type that both lists have says the same with the loaded types exactly
   when the type is at the same indices of the two lists, as far as the problem's goes.
   */
  lemma LoadedTypesMatter(p: Problem, loaded: seq<Dep>, n: nat, deptype: string)
    requires Covers(loaded, p.deps) && Servable(p)
    requires Stated(p, loaded, OneOfType(n, deptype)) && InRange(p, OneOfType(n, deptype))
    ensures (forall a :: True(a, OneOfTypeFormula(p, loaded, n, deptype)) <==> Holds(p, a, OneOfType(n, deptype)))
       <==> forall i :: 0 <= i < |p.deps| ==> (loaded[i].deptype == deptype <==> p.deps[i].deptype == deptype)
  {
    hide Usable, True, OneOfTypeFormula, WholeDependency, Servable;
    if forall i :: 0 <= i < |p.deps| ==> (loaded[i].deptype == deptype <==> p.deps[i].deptype == deptype) {
      SameIndices(loaded, p.deps, deptype, |p.deps|);
      forall a ensures True(a, OneOfTypeFormula(p, loaded, n, deptype)) <==> Holds(p, a, OneOfType(n, deptype)) {
        SayOneOfType(p, loaded, a, n, deptype);
      }
    } else {
      var i: nat :| i < |p.deps| && !(loaded[i].deptype == deptype <==> p.deps[i].deptype == deptype);
      var a := WholeDependency(n, i);
      SayOneOfType(p, loaded, a, n, deptype);
      OnlyOneUsable(p, loaded, n, deptype, i);
      OnlyOneUsable(p, p.deps, n, deptype, i);
    }
  }

  lemma OnlyOneUsable(p: Problem, list: seq<Dep>, n: nat, deptype: string, i: nat)
    requires Servable(p) && i < |p.deps| <= |list|
    ensures Count(OfType(list, deptype, |p.deps|), (d: nat) => Usable(p, WholeDependency(n, i), n, d) > 0)
         == One(list[i].deptype == deptype)
  {
    hide Usable, WholeDependency, Servable;
    var ds := OfType(list, deptype, |p.deps|);
    forall l | 0 <= l < |ds| ensures Usable(p, WholeDependency(n, i), n, ds[l]) > 0 <==> ds[l] == i {
      UsableWhole(p, n, i, ds[l]);
    }
    CountOnly(ds, i, (d: nat) => Usable(p, WholeDependency(n, i), n, d) > 0);
  }
}
