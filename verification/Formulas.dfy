/**
 The formulas that the placement rules build from the boolean variables, with nested
 sums, conditionals and disjunctions, and what they say.
 */
module Formulas {
  import opened Sums
  import opened Placement

  datatype Term =
    | IfTerm(cond: Formula, yes: int, no: int)
    | Times(factor: int, term: Term)
    | Sum(terms: seq<Term>)

  datatype Formula =
    | Atom(v: Var)
    | Or(disjuncts: seq<Formula>)
    | And(first: Formula, second: Formula)
    | Implies(premise: Formula, conclusion: Formula)
    | IfFormula(test: Formula, pos: Formula, neg: Formula)
    | Equals(left: Term, right: int)
    | AtMost(left: Term, right: int)
    | AtLeast(left: Term, right: int)
    | MoreThan(left: Term, right: int)
    | SameValue(left: Term, other: Term)

  // ----- Evaluation -----

  function Value(a: Placing, t: Term): int {
    match t
    case IfTerm(cond, yes, no) => if True(a, cond) then yes else no
    case Times(factor, term) => factor * Value(a, term)
    case Sum(terms) => SumValues(a, terms)
  }

  function SumValues(a: Placing, ts: seq<Term>): int {
    if ts == [] then 0 else Value(a, ts[0]) + SumValues(a, ts[1..])
  }

  predicate True(a: Placing, f: Formula) {
    match f
    case Atom(v) => a(v)
    case Or(disjuncts) => exists l :: 0 <= l < |disjuncts| && True(a, disjuncts[l])
    case And(first, second) => True(a, first) && True(a, second)
    case Implies(premise, conclusion) => True(a, premise) ==> True(a, conclusion)
    case IfFormula(test, pos, neg) => if True(a, test) then True(a, pos) else True(a, neg)
    case Equals(left, right) => Value(a, left) == right
    case AtMost(left, right) => Value(a, left) <= right
    case AtLeast(left, right) => Value(a, left) >= right
    case MoreThan(left, right) => Value(a, left) > right
    case SameValue(left, other) => Value(a, left) == Value(a, other)
  }

  lemma {:induction false} SumIs<T>(a: Placing, ts: seq<Term>, xs: seq<T>, f: T -> int)
    requires |ts| == |xs| && forall l :: 0 <= l < |ts| ==> Value(a, ts[l]) == f(xs[l])
    ensures SumValues(a, ts) == SumOver(xs, f)
  {
    hide Value;
    if ts != [] {
      SumIs(a, ts[1..], xs[1..], f);
    }
  }

  lemma {:induction false} CountIs<T>(a: Placing, ts: seq<Term>, xs: seq<T>, P: T -> bool)
    requires |ts| == |xs| && forall l :: 0 <= l < |ts| ==> Value(a, ts[l]) == One(P(xs[l]))
    ensures SumValues(a, ts) == Count(xs, P)
  {
    hide Value;
    if ts != [] {
      CountIs(a, ts[1..], xs[1..], P);
    }
  }

  // ----- The sums that several rules share -----

  /** If(v, 1, 0) */
  function Bit(v: Var): Term {
    IfTerm(Atom(v), 1, 0)
  }

  /** sum_shards */
  function SumShards(p: Problem, n: nat, i: nat, j: nat): Term
    requires IsInstance(p, i, j)
  {
    Sum(seq(|p.deps[i].instances[j].shards|, k requires 0 <= k => Bit(RaceShard(n, i, j, k))))
  }

  /** If(sum_shards > 0, 1, 0) */
  function HasShards(p: Problem, n: nat, i: nat, j: nat): Term
    requires IsInstance(p, i, j)
  {
    IfTerm(MoreThan(SumShards(p, n, i, j), 0), 1, 0)
  }

  /** shard_sizes of a server: the sizes of all shards it has, and then of all blobs. */
  function ShardSizes(p: Problem, n: nat): (ts: seq<Term>) {
    var shards := AllShards(p);
    seq(|shards|, l requires 0 <= l < |shards| =>
      Times(ShardSize(p, shards[l].i, shards[l].j), Bit(ServerShard(n, shards[l].i, shards[l].j, shards[l].k))))
  }

  function BlobSizes(p: Problem, n: nat): (ts: seq<Term>) {
    var ids := AllInstances(p);
    seq(|ids|, l requires 0 <= l < |ids| =>
      IfTerm(Atom(ServerBlob(n, ids[l].i, ids[l].j)), BlobSize(p, ids[l].i, ids[l].j), 0))
  }

  function OnRaceNodesTerm(p: Problem, i: nat, j: nat, k: nat): Term {
    Sum(seq(|p.rnodes|, n requires 0 <= n => Bit(RaceShard(n, i, j, k))))
  }

  function OnServersTerm(p: Problem, i: nat, j: nat, k: nat): Term {
    Sum(seq(|p.snodes|, n requires 0 <= n => Bit(ServerShard(n, i, j, k))))
  }

  /** The sum of a dependency's instances of which a race node has enough shards. */
  function UsableTerm(p: Problem, n: nat, i: nat): Term
    requires i < |p.deps|
  {
    var instances := p.deps[i].instances;
    Sum(seq(|instances|, j requires 0 <= j < |instances| =>
      IfTerm(AtLeast(SumShards(p, n, i, j), instances[j].n), 1, 0)))
  }

  /** all_sum_vars, each as 1 or 0. */
  function UsableTerms(p: Problem, n: nat, ds: seq<nat>): (ts: seq<Term>)
    requires forall l :: 0 <= l < |ds| ==> ds[l] < |p.deps|
  {
    seq(|ds|, l requires 0 <= l < |ds| => IfTerm(MoreThan(UsableTerm(p, n, ds[l]), 0), 1, 0))
  }

  // ----- The formula that each rule adds -----

  function ShardServedFormula(p: Problem, n: nat, i: nat, j: nat, k: nat): Formula {
    var anyServer := Or(seq(|p.snodes|, sn requires 0 <= sn => Atom(ServerShard(sn, i, j, k))));
    Implies(Atom(RaceShard(n, i, j, k)), anyServer)
  }

  function BlobServedFormula(p: Problem, n: nat, i: nat, j: nat): Formula {
    var anyServer := Or(seq(|p.snodes|, sn requires 0 <= sn => Atom(ServerBlob(sn, i, j))));
    Implies(Atom(RaceBlob(n, i, j)), anyServer)
  }

  /** The bounds come from the list that the module was loaded with. */
  function BetweenNAndMFormula(p: Problem, loaded: seq<Dep>, n: nat, i: nat, j: nat): Formula
    requires IsInstance(p, i, j) && i < |loaded| && j < |loaded[i].instances|
  {
    var sum := SumShards(p, n, i, j);
    Or([Equals(sum, 0), And(AtLeast(sum, loaded[i].instances[j].n), AtMost(sum, loaded[i].instances[j].m))])
  }

  function BlobIfShardsFormula(p: Problem, n: nat, i: nat, j: nat): Formula
    requires IsInstance(p, i, j)
  {
    var blobs := seq(|p.snodes|, sn requires 0 <= sn => And(Atom(RaceBlob(n, i, j)), Atom(ServerBlob(sn, i, j))));
    Or([Equals(SumShards(p, n, i, j), 0), Or(blobs)])
  }

  function BlobMatchesFormula(p: Problem, n: nat, i: nat, j: nat): Formula
    requires IsInstance(p, i, j)
  {
    var blob := Bit(RaceBlob(n, i, j));
    IfFormula(MoreThan(SumShards(p, n, i, j), 0), Equals(blob, 1), Equals(blob, 0))
  }

  function CapacityFormula(p: Problem, n: nat): Formula
    requires n < |p.snodes|
  {
    AtMost(Sum(ShardSizes(p, n) + BlobSizes(p, n)), p.snodes[n].capacity)
  }

  function OneInstanceFormula(p: Problem, n: nat, i: nat): Formula
    requires i < |p.deps|
  {
    AtMost(Sum(seq(|p.deps[i].instances|, j requires 0 <= j < |p.deps[i].instances| => HasShards(p, n, i, j))), 1)
  }

  function OneRaceNodeFormula(p: Problem, i: nat, j: nat): Formula
    requires IsInstance(p, i, j)
  {
    AtMost(Sum(seq(|p.rnodes|, n requires 0 <= n => HasShards(p, n, i, j))), 1)
  }

  function ShardOnOneRaceNodeFormula(p: Problem, i: nat, j: nat, k: nat): Formula {
    AtMost(OnRaceNodesTerm(p, i, j, k), 1)
  }

  function ShardOnOneServerFormula(p: Problem, i: nat, j: nat, k: nat): Formula {
    AtMost(OnServersTerm(p, i, j, k), 1)
  }

  function ServersMatchFormula(p: Problem, i: nat, j: nat, k: nat): Formula {
    SameValue(OnServersTerm(p, i, j, k), OnRaceNodesTerm(p, i, j, k))
  }

  /** The types come from the loaded list, and the thresholds from the problem's own. */
  function OneOfTypeFormula(p: Problem, loaded: seq<Dep>, n: nat, deptype: string): Formula
    requires |p.deps| <= |loaded|
  {
    Equals(Sum(UsableTerms(p, n, OfType(loaded, deptype, |p.deps|))), 1)
  }

  // ----- What the formulas say -----

  /** Every index of the problem is one of the loaded list, too. */
  ghost predicate Covers(loaded: seq<Dep>, deps: seq<Dep>) {
    && |deps| <= |loaded|
    && forall i :: 0 <= i < |deps| ==> |deps[i].instances| <= |loaded[i].instances|
  }

  predicate Stated(p: Problem, loaded: seq<Dep>, c: Constraint) {
    match c
    case OneOfType(n, deptype) => n < |p.rnodes| && exists i :: 0 <= i < |loaded| && loaded[i].deptype == deptype
    case _ => InRange(p, c)
  }

  /** Holds, but with the bounds n and m and the types taken from the loaded list. */
  ghost predicate HoldsAsLoaded(p: Problem, loaded: seq<Dep>, a: Placing, c: Constraint)
    requires Covers(loaded, p.deps) && Stated(p, loaded, c)
  {
    match c
    case BetweenNAndM(n, i, j) =>
      var held := Held(p, a, n, i, j);
      held == 0 || loaded[i].instances[j].n <= held <= loaded[i].instances[j].m
    case OneOfType(n, deptype) =>
      Count(OfType(loaded, deptype, |p.deps|), (i: nat) => Usable(p, a, n, i) > 0) == 1
    case _ => Holds(p, a, c)
  }

  lemma SumShardsIs(p: Problem, a: Placing, n: nat, i: nat, j: nat)
    requires IsInstance(p, i, j)
    ensures Value(a, SumShards(p, n, i, j)) == Held(p, a, n, i, j)
  {
    var xs := Range(|p.deps[i].instances[j].shards|);
    CountIs(a, SumShards(p, n, i, j).terms, xs, (k: nat) => a(RaceShard(n, i, j, k)));
  }

  lemma OnRaceNodesIs(p: Problem, a: Placing, i: nat, j: nat, k: nat)
    ensures Value(a, OnRaceNodesTerm(p, i, j, k)) == OnRaceNodes(p, a, i, j, k)
  {
    CountIs(a, OnRaceNodesTerm(p, i, j, k).terms, Range(|p.rnodes|), (n: nat) => a(RaceShard(n, i, j, k)));
  }

  lemma OnServersIs(p: Problem, a: Placing, i: nat, j: nat, k: nat)
    ensures Value(a, OnServersTerm(p, i, j, k)) == OnServers(p, a, i, j, k)
  {
    CountIs(a, OnServersTerm(p, i, j, k).terms, Range(|p.snodes|), (n: nat) => a(ServerShard(n, i, j, k)));
  }

  lemma UsableIs(p: Problem, a: Placing, n: nat, i: nat)
    requires i < |p.deps|
    ensures Value(a, UsableTerm(p, n, i)) == Usable(p, a, n, i)
  {
    var ts := UsableTerm(p, n, i).terms;
    hide Held, SumShards;
    forall l | 0 <= l < |ts| ensures Value(a, ts[l]) == One(Held(p, a, n, i, l) >= Threshold(p, i, l)) {
      SumShardsIs(p, a, n, i, l);
    }
    CountIs(a, ts, Range(|ts|), (j: nat) => Held(p, a, n, i, j) >= Threshold(p, i, j));
  }

  lemma SayShardServed(p: Problem, a: Placing, n: nat, i: nat, j: nat, k: nat)
    requires InRange(p, ShardServed(n, i, j, k))
    ensures True(a, ShardServedFormula(p, n, i, j, k)) <==> Holds(p, a, ShardServed(n, i, j, k))
  {
    var fs := ShardServedFormula(p, n, i, j, k).conclusion.disjuncts;
    assert forall sn: nat :: sn < |fs| ==> True(a, fs[sn]) == a(ServerShard(sn, i, j, k));
  }

  lemma SayBlobServed(p: Problem, a: Placing, n: nat, i: nat, j: nat)
    requires InRange(p, BlobServed(n, i, j))
    ensures True(a, BlobServedFormula(p, n, i, j)) <==> Holds(p, a, BlobServed(n, i, j))
  {
    var fs := BlobServedFormula(p, n, i, j).conclusion.disjuncts;
    assert forall sn: nat :: sn < |fs| ==> True(a, fs[sn]) == a(ServerBlob(sn, i, j));
  }

  lemma EitherOr(a: Placing, f: Formula, g: Formula)
    ensures True(a, Or([f, g])) <==> True(a, f) || True(a, g)
  {
    var fs := [f, g];
    assert Or(fs).disjuncts == fs;
    if True(a, f) {
      assert True(a, fs[0]);
    }
    if True(a, g) {
      assert True(a, fs[1]);
    }
  }

  lemma SayBetweenNAndM(p: Problem, loaded: seq<Dep>, a: Placing, n: nat, i: nat, j: nat)
    requires Covers(loaded, p.deps) && InRange(p, BetweenNAndM(n, i, j))
    ensures True(a, BetweenNAndMFormula(p, loaded, n, i, j)) <==> HoldsAsLoaded(p, loaded, a, BetweenNAndM(n, i, j))
  {
    SumShardsIs(p, a, n, i, j);
    hide SumShards, Held;
    var sum := SumShards(p, n, i, j);
    EitherOr(a, Equals(sum, 0), And(AtLeast(sum, loaded[i].instances[j].n), AtMost(sum, loaded[i].instances[j].m)));
  }

  lemma SayBlobIfShards(p: Problem, a: Placing, n: nat, i: nat, j: nat)
    requires InRange(p, BlobIfShards(n, i, j))
    ensures True(a, BlobIfShardsFormula(p, n, i, j)) <==> Holds(p, a, BlobIfShards(n, i, j))
  {
    SumShardsIs(p, a, n, i, j);
    hide SumShards, Held;
    var blobs := BlobIfShardsFormula(p, n, i, j).disjuncts[1];
    EitherOr(a, Equals(SumShards(p, n, i, j), 0), blobs);
    assert forall sn: nat :: sn < |blobs.disjuncts| ==>
      True(a, blobs.disjuncts[sn]) == (a(RaceBlob(n, i, j)) && a(ServerBlob(sn, i, j)));
  }

  lemma SayBlobMatches(p: Problem, a: Placing, n: nat, i: nat, j: nat)
    requires InRange(p, BlobMatches(n, i, j))
    ensures True(a, BlobMatchesFormula(p, n, i, j)) <==> Holds(p, a, BlobMatches(n, i, j))
  {
    SumShardsIs(p, a, n, i, j);
    BitIs(a, RaceBlob(n, i, j));
    hide SumShards, Held, Bit;
  }

  lemma BitIs(a: Placing, v: Var)
    ensures Value(a, Bit(v)) == One(a(v))
  {}

  lemma {:induction false} SumValuesAppend(a: Placing, ts: seq<Term>, us: seq<Term>)
    ensures SumValues(a, ts + us) == SumValues(a, ts) + SumValues(a, us)
  {
    hide Value;
    if ts == [] {
      assert ts + us == us;
    } else {
      SumValuesAppend(a, ts[1..], us);
      assert (ts + us)[1..] == ts[1..] + us;
    }
  }

  lemma SayCapacity(p: Problem, a: Placing, n: nat)
    requires InRange(p, Capacity(n))
    ensures True(a, CapacityFormula(p, n)) <==> Holds(p, a, Capacity(n))
  {
    hide AllShards, AllInstances, ShardSize, BlobSize;
    var shards, blobs := ShardSizes(p, n), BlobSizes(p, n);
    forall l | 0 <= l < |shards| ensures Value(a, shards[l]) == ServerShardBytes(p, a)(n, AllShards(p)[l]) {
      var s := AllShards(p)[l];
      BitIs(a, ServerShard(n, s.i, s.j, s.k));
    }
    forall l | 0 <= l < |blobs| ensures Value(a, blobs[l]) == ServerBlobBytes(p, a)(n, AllInstances(p)[l]) {
      var id := AllInstances(p)[l];
      assert True(a, Atom(ServerBlob(n, id.i, id.j))) == a(ServerBlob(n, id.i, id.j));
    }
    SumValuesAppend(a, shards, blobs);
    RowSumIs(a, shards, AllShards(p), ServerShardBytes(p, a), n);
    RowSumIs(a, blobs, AllInstances(p), ServerBlobBytes(p, a), n);
  }

  lemma RowSumIs<T>(a: Placing, ts: seq<Term>, xs: seq<T>, f: (nat, T) -> int, n: nat)
    requires |ts| == |xs| && forall l :: 0 <= l < |ts| ==> Value(a, ts[l]) == f(n, xs[l])
    ensures SumValues(a, ts) == RowSum(xs, f)(n)
  {
    var row := (x: T) => f(n, x);
    SumIs(a, ts, xs, row);
    RowSumApplied(xs, f, n, row);
  }

  lemma SayOneInstance(p: Problem, a: Placing, n: nat, i: nat)
    requires InRange(p, OneInstance(n, i))
    ensures True(a, OneInstanceFormula(p, n, i)) <==> Holds(p, a, OneInstance(n, i))
  {
    hide Held, SumShards;
    var ts := OneInstanceFormula(p, n, i).left.terms;
    forall l | 0 <= l < |ts| ensures Value(a, ts[l]) == One(Held(p, a, n, i, l) > 0) {
      SumShardsIs(p, a, n, i, l);
    }
    CountIs(a, ts, Range(|ts|), (j: nat) => Held(p, a, n, i, j) > 0);
  }

  lemma SayOneRaceNode(p: Problem, a: Placing, i: nat, j: nat)
    requires InRange(p, OneRaceNode(i, j))
    ensures True(a, OneRaceNodeFormula(p, i, j)) <==> Holds(p, a, OneRaceNode(i, j))
  {
    hide Held, SumShards;
    var ts := OneRaceNodeFormula(p, i, j).left.terms;
    forall l | 0 <= l < |ts| ensures Value(a, ts[l]) == One(Held(p, a, l, i, j) > 0) {
      SumShardsIs(p, a, l, i, j);
    }
    CountIs(a, ts, Range(|ts|), (n: nat) => Held(p, a, n, i, j) > 0);
  }

  lemma SayShardRules(p: Problem, a: Placing, i: nat, j: nat, k: nat)
    requires IsShard(p, i, j, k)
    ensures True(a, ShardOnOneRaceNodeFormula(p, i, j, k)) <==> Holds(p, a, ShardOnOneRaceNode(i, j, k))
    ensures True(a, ShardOnOneServerFormula(p, i, j, k)) <==> Holds(p, a, ShardOnOneServer(i, j, k))
    ensures True(a, ServersMatchFormula(p, i, j, k)) <==> Holds(p, a, ServersMatch(i, j, k))
  {
    hide OnRaceNodesTerm, OnServersTerm, OnRaceNodes, OnServers;
    OnRaceNodesIs(p, a, i, j, k);
    OnServersIs(p, a, i, j, k);
  }

  lemma UsableTermsIs(p: Problem, a: Placing, n: nat, ds: seq<nat>)
    requires forall l :: 0 <= l < |ds| ==> ds[l] < |p.deps|
    ensures SumValues(a, UsableTerms(p, n, ds)) == Count(ds, (i: nat) => Usable(p, a, n, i) > 0)
  {
    hide Usable, UsableTerm;
    var ts := UsableTerms(p, n, ds);
    forall l | 0 <= l < |ts| ensures Value(a, ts[l]) == One(Usable(p, a, n, ds[l]) > 0) {
      UsableIs(p, a, n, ds[l]);
    }
    CountIs(a, ts, ds, (i: nat) => Usable(p, a, n, i) > 0);
  }

  lemma SayOneOfType(p: Problem, loaded: seq<Dep>, a: Placing, n: nat, deptype: string)
    requires Covers(loaded, p.deps) && Stated(p, loaded, OneOfType(n, deptype))
    ensures True(a, OneOfTypeFormula(p, loaded, n, deptype)) <==> HoldsAsLoaded(p, loaded, a, OneOfType(n, deptype))
  {
    hide Usable, UsableTerms, Covers, Holds;
    assert |p.deps| <= |loaded| by { CoversMore(loaded, p.deps); }
    UsableTermsIs(p, a, n, OfType(loaded, deptype, |p.deps|));
  }

  lemma CoversMore(loaded: seq<Dep>, deps: seq<Dep>)
    requires Covers(loaded, deps)
    ensures |deps| <= |loaded|
  {}

  /** The formula that is added for a constraint. */
  function FormulaOf(p: Problem, loaded: seq<Dep>, c: Constraint): Formula
    requires Covers(loaded, p.deps) && Stated(p, loaded, c)
  {
    match c
    case ShardServed(n, i, j, k) => ShardServedFormula(p, n, i, j, k)
    case BlobServed(n, i, j) => BlobServedFormula(p, n, i, j)
    case BetweenNAndM(n, i, j) => BetweenNAndMFormula(p, loaded, n, i, j)
    case BlobIfShards(n, i, j) => BlobIfShardsFormula(p, n, i, j)
    case BlobMatches(n, i, j) => BlobMatchesFormula(p, n, i, j)
    case Capacity(n) => CapacityFormula(p, n)
    case OneInstance(n, i) => OneInstanceFormula(p, n, i)
    case OneRaceNode(i, j) => OneRaceNodeFormula(p, i, j)
    case ShardOnOneRaceNode(i, j, k) => ShardOnOneRaceNodeFormula(p, i, j, k)
    case ShardOnOneServer(i, j, k) => ShardOnOneServerFormula(p, i, j, k)
    case ServersMatch(i, j, k) => ServersMatchFormula(p, i, j, k)
    case OneOfType(n, deptype) => OneOfTypeFormula(p, loaded, n, deptype)
  }

  /** Every formula evaluates to exactly what its constraint says. */
  lemma FormulaSays(p: Problem, loaded: seq<Dep>, a: Placing, c: Constraint)
    requires Covers(loaded, p.deps) && Stated(p, loaded, c)
    ensures True(a, FormulaOf(p, loaded, c)) <==> HoldsAsLoaded(p, loaded, a, c)
  {
    hide True, Holds, ShardServedFormula, BlobServedFormula, BetweenNAndMFormula, BlobIfShardsFormula, BlobMatchesFormula,
         CapacityFormula, OneInstanceFormula, OneRaceNodeFormula, ShardOnOneRaceNodeFormula, ShardOnOneServerFormula,
         ServersMatchFormula, OneOfTypeFormula;
    match c
    case ShardServed(n, i, j, k) => SayShardServed(p, a, n, i, j, k);
    case BlobServed(n, i, j) => SayBlobServed(p, a, n, i, j);
    case BetweenNAndM(n, i, j) => SayBetweenNAndM(p, loaded, a, n, i, j);
    case BlobIfShards(n, i, j) => SayBlobIfShards(p, a, n, i, j);
    case BlobMatches(n, i, j) => SayBlobMatches(p, a, n, i, j);
    case Capacity(n) => SayCapacity(p, a, n);
    case OneInstance(n, i) => SayOneInstance(p, a, n, i);
    case OneRaceNode(i, j) => SayOneRaceNode(p, a, i, j);
    case ShardOnOneRaceNode(i, j, k) => SayShardRules(p, a, i, j, k);
    case ShardOnOneServer(i, j, k) => SayShardRules(p, a, i, j, k);
    case ServersMatch(i, j, k) => SayShardRules(p, a, i, j, k);
    case OneOfType(n, deptype) => SayOneOfType(p, loaded, a, n, deptype);
  }

  // ----- All formulas together -----

  ghost predicate AllTrue(a: Placing, fs: seq<Formula>) {
    forall l :: 0 <= l < |fs| ==> True(a, fs[l])
  }

  /** The placing satisfies every rule, as it reads with the loaded list. */
  ghost predicate SatisfiesAsLoaded(p: Problem, loaded: seq<Dep>, a: Placing)
    requires Covers(loaded, p.deps)
  {
    forall c :: Stated(p, loaded, c) ==> HoldsAsLoaded(p, loaded, a, c)
  }

  /** The formula is that of one of the constraints. */
  ghost predicate SaidBy(p: Problem, loaded: seq<Dep>, f: Formula, said: set<Constraint>)
    requires Covers(loaded, p.deps)
  {
    exists c :: c in said && Stated(p, loaded, c) && f == FormulaOf(p, loaded, c)
  }

  /** The formulas are those of the constraints, one for each at least. */
  ghost predicate Collected(p: Problem, loaded: seq<Dep>, fs: seq<Formula>, said: set<Constraint>)
    requires Covers(loaded, p.deps)
  {
    && (forall c :: c in said ==> Stated(p, loaded, c) && FormulaOf(p, loaded, c) in fs)
    && (forall l :: 0 <= l < |fs| ==> SaidBy(p, loaded, fs[l], said))
  }

  lemma CollectedOneMore(p: Problem, loaded: seq<Dep>, fs: seq<Formula>, said: set<Constraint>, c: Constraint)
    requires Covers(loaded, p.deps) && Collected(p, loaded, fs, said) && Stated(p, loaded, c)
    ensures Collected(p, loaded, fs + [FormulaOf(p, loaded, c)], said + {c})
  {
    hide FormulaOf, Stated;
    var gs := fs + [FormulaOf(p, loaded, c)];
    assert gs[|fs|] == FormulaOf(p, loaded, c);
    forall d | d in said ensures FormulaOf(p, loaded, d) in gs {
      assert FormulaOf(p, loaded, d) in fs;
    }
    forall l | 0 <= l < |gs| ensures SaidBy(p, loaded, gs[l], said + {c}) {
      if l < |fs| {
        assert SaidBy(p, loaded, fs[l], said);
        var d :| d in said && Stated(p, loaded, d) && fs[l] == FormulaOf(p, loaded, d);
        assert d in said + {c};
      } else {
        assert c in said + {c};
      }
    }
  }

  /** The formulas are true exactly when the constraints that they were collected for hold. */
  lemma CollectedSays(p: Problem, loaded: seq<Dep>, fs: seq<Formula>, said: set<Constraint>, a: Placing)
    requires Covers(loaded, p.deps) && Collected(p, loaded, fs, said)
    requires forall c :: c in said <==> Stated(p, loaded, c)
    ensures AllTrue(a, fs) <==> SatisfiesAsLoaded(p, loaded, a)
    ensures Agrees(loaded, p.deps) ==> (AllTrue(a, fs) <==> Satisfies(p, a))
  {
    hide FormulaOf, Stated, True, HoldsAsLoaded, Holds, InRange, Agrees;
    if AllTrue(a, fs) {
      forall c | Stated(p, loaded, c) ensures HoldsAsLoaded(p, loaded, a, c) {
        FormulaSays(p, loaded, a, c);
        var l :| 0 <= l < |fs| && fs[l] == FormulaOf(p, loaded, c);
      }
    }
    if SatisfiesAsLoaded(p, loaded, a) {
      forall l | 0 <= l < |fs| ensures True(a, fs[l]) {
        assert SaidBy(p, loaded, fs[l], said);
        var c :| c in said && Stated(p, loaded, c) && fs[l] == FormulaOf(p, loaded, c);
        FormulaSays(p, loaded, a, c);
      }
    }
    if Agrees(loaded, p.deps) {
      forall c ensures Stated(p, loaded, c) <==> InRange(p, c)
               ensures Stated(p, loaded, c) ==> (HoldsAsLoaded(p, loaded, a, c) <==> Holds(p, a, c)) {
        AgreeingLists(p, loaded, a, c);
      }
    }
  }

  // ----- When both lists agree -----

  /** The loaded list has the problem's types, and its n and m. */
  ghost predicate Agrees(loaded: seq<Dep>, deps: seq<Dep>) {
    && |loaded| == |deps|
    && forall i :: 0 <= i < |deps| ==>
         && loaded[i].deptype == deps[i].deptype
         && |loaded[i].instances| == |deps[i].instances|
         && forall j :: 0 <= j < |deps[i].instances| ==>
              loaded[i].instances[j].n == deps[i].instances[j].n && loaded[i].instances[j].m == deps[i].instances[j].m
  }

  lemma {:induction false} SameTypes(loaded: seq<Dep>, deps: seq<Dep>, deptype: string, d: nat)
    requires Agrees(loaded, deps) && d <= |deps|
    ensures OfType(loaded, deptype, d) == OfType(deps, deptype, d)
  {
    if d > 0 {
      SameTypes(loaded, deps, deptype, d - 1);
    }
  }

  /** Then the rules are about the problem's own indices, and say what Holds says. */
  lemma AgreeingLists(p: Problem, loaded: seq<Dep>, a: Placing, c: Constraint)
    requires Agrees(loaded, p.deps)
    ensures Covers(loaded, p.deps)
    ensures Stated(p, loaded, c) <==> InRange(p, c)
    ensures Stated(p, loaded, c) ==> (HoldsAsLoaded(p, loaded, a, c) <==> Holds(p, a, c))
  {
    hide Held, Usable, HeldInstances, Holders, OnRaceNodes, OnServers, ServerLoad;
    if c.OneOfType? {
      SameTypes(loaded, p.deps, c.deptype, |p.deps|);
    }
  }
}
