/**
 What thresholds have to do with it: race nodes are sure to get what they need exactly
 when no instance is usable without shards.
 */
module Thresholds {
  import opened Sums
  import opened Placement

  /** The same placing, but with nothing of the dependencies of one type. */
  function Dropped(p: Problem, a: Placing, deptype: string): Placing {
    (v: Var) => a(v) && !(v.i < |p.deps| && p.deps[v.i].deptype == deptype)
  }

  lemma HeldDropped(p: Problem, a: Placing, deptype: string, n: nat, i: nat, j: nat)
    ensures Held(p, Dropped(p, a, deptype), n, i, j)
         == if i < |p.deps| && p.deps[i].deptype == deptype then 0 else Held(p, a, n, i, j)
  {
    if IsInstance(p, i, j) {
      var b := Dropped(p, a, deptype);
      var xs := Range(|p.deps[i].instances[j].shards|);
      if p.deps[i].deptype == deptype {
        HeldCounts(p, b, n, i, j);
      } else {
        CountSame(xs, (k: nat) => b(RaceShard(n, i, j, k)), (k: nat) => a(RaceShard(n, i, j, k)));
      }
    }
  }

  lemma ShardDropped(p: Problem, a: Placing, deptype: string, i: nat, j: nat, k: nat)
    requires i < |p.deps|
    ensures var b := Dropped(p, a, deptype);
            var gone := p.deps[i].deptype == deptype;
            && OnRaceNodes(p, b, i, j, k) == (if gone then 0 else OnRaceNodes(p, a, i, j, k))
            && OnServers(p, b, i, j, k) == (if gone then 0 else OnServers(p, a, i, j, k))
  {
    var b := Dropped(p, a, deptype);
    if p.deps[i].deptype == deptype {
      CountNone(Range(|p.rnodes|), (n: nat) => b(RaceShard(n, i, j, k)));
      CountNone(Range(|p.snodes|), (n: nat) => b(ServerShard(n, i, j, k)));
    } else {
      CountSame(Range(|p.rnodes|), (n: nat) => b(RaceShard(n, i, j, k)), (n: nat) => a(RaceShard(n, i, j, k)));
      CountSame(Range(|p.snodes|), (n: nat) => b(ServerShard(n, i, j, k)), (n: nat) => a(ServerShard(n, i, j, k)));
    }
  }

  lemma InstancesDropped(p: Problem, a: Placing, deptype: string, n: nat, i: nat)
    requires i < |p.deps|
    ensures HeldInstances(p, Dropped(p, a, deptype), n, i)
         == if p.deps[i].deptype == deptype then 0 else HeldInstances(p, a, n, i)
  {
    var b := Dropped(p, a, deptype);
    forall j: nat {
      HeldDropped(p, a, deptype, n, i, j);
    }
    hide Held, Dropped;
    var xs := Range(|p.deps[i].instances|);
    if p.deps[i].deptype == deptype {
      CountNone(xs, (j: nat) => Held(p, b, n, i, j) > 0);
    } else {
      CountSame(xs, (j: nat) => Held(p, b, n, i, j) > 0, (j: nat) => Held(p, a, n, i, j) > 0);
    }
  }

  lemma HoldersDropped(p: Problem, a: Placing, deptype: string, i: nat, j: nat)
    requires i < |p.deps|
    ensures Holders(p, Dropped(p, a, deptype), i, j)
         == if p.deps[i].deptype == deptype then 0 else Holders(p, a, i, j)
  {
    var b := Dropped(p, a, deptype);
    forall n: nat {
      HeldDropped(p, a, deptype, n, i, j);
    }
    hide Held, Dropped;
    var xs := Range(|p.rnodes|);
    if p.deps[i].deptype == deptype {
      CountNone(xs, (n: nat) => Held(p, b, n, i, j) > 0);
    } else {
      CountSame(xs, (n: nat) => Held(p, b, n, i, j) > 0, (n: nat) => Held(p, a, n, i, j) > 0);
    }
  }

  ghost predicate NonnegativeSizes(p: Problem) {
    forall i: nat, j: nat :: ShardSize(p, i, j) >= 0 && BlobSize(p, i, j) >= 0
  }

  lemma ScaledLess(c: int, P: bool, Q: bool)
    requires c >= 0 && (P ==> Q)
    ensures c * One(P) <= c * One(Q)
  {}

  /** Dropping never makes a server fuller. */
  lemma LoadDropped(p: Problem, a: Placing, deptype: string, n: nat)
    requires NonnegativeSizes(p)
    ensures ServerLoad(p, Dropped(p, a, deptype), n) <= ServerLoad(p, a, n)
  {
    hide InstanceIds, ShardIds, ShardSize, BlobSize;
    var b := Dropped(p, a, deptype);
    var shards, ids := AllShards(p), AllInstances(p);
    forall s: ShardId ensures ServerShardBytes(p, b)(n, s) <= ServerShardBytes(p, a)(n, s) {
      ScaledLess(ShardSize(p, s.i, s.j), b(ServerShard(n, s.i, s.j, s.k)), a(ServerShard(n, s.i, s.j, s.k)));
    }
    RowSumLess(shards, ServerShardBytes(p, b), ServerShardBytes(p, a), n);
    RowSumLess(ids, ServerBlobBytes(p, b), ServerBlobBytes(p, a), n);
  }

  /** Which dependencies are usable stays the same for other types; of the dropped one, those with a threshold below 1. */
  lemma UsableDropped(p: Problem, a: Placing, deptype: string, n: nat, i: nat)
    requires i < |p.deps|
    ensures p.deps[i].deptype != deptype ==> Usable(p, Dropped(p, a, deptype), n, i) == Usable(p, a, n, i)
    ensures p.deps[i].deptype == deptype ==>
              (Usable(p, Dropped(p, a, deptype), n, i) > 0 <==> FreeInstance(p, i))
    ensures FreeInstance(p, i) ==> Usable(p, a, n, i) > 0
  {
    var b := Dropped(p, a, deptype);
    forall j: nat {
      HeldDropped(p, a, deptype, n, i, j);
    }
    UsableCounts(p, b, n, i);
    UsableCounts(p, a, n, i);
    if FreeInstance(p, i) {
      var j: nat :| IsInstance(p, i, j) && Threshold(p, i, j) <= 0;
      HeldCounts(p, a, n, i, j);
    }
    hide Held, Dropped, Threshold;
    if p.deps[i].deptype != deptype {
      CountSame(Range(|p.deps[i].instances|), (j: nat) => Held(p, b, n, i, j) >= Threshold(p, i, j),
                (j: nat) => Held(p, a, n, i, j) >= Threshold(p, i, j));
    }
  }

  /** The dependency has an instance that is usable without any shard. */
  predicate FreeInstance(p: Problem, i: nat) {
    exists j: nat :: i < |p.deps| && j < |p.deps[i].instances| && Threshold(p, i, j) <= 0
  }

  lemma TypeDropped(p: Problem, a: Placing, deptype: string, n: nat, other: string, free: nat)
    requires UsableOfType(p, a, n, other) == 1
    requires free < |p.deps| && p.deps[free].deptype == deptype && FreeInstance(p, free)
    ensures UsableOfType(p, Dropped(p, a, deptype), n, other) == 1
  {
    var b := Dropped(p, a, deptype);
    hide FreeInstance, Dropped, Usable, UsableOnce, UsableOfType;
    forall i: nat | i < |p.deps|
      ensures p.deps[i].deptype != deptype ==> Usable(p, b, n, i) == Usable(p, a, n, i)
      ensures p.deps[i].deptype == deptype ==> (Usable(p, b, n, i) > 0 <==> FreeInstance(p, i))
      ensures FreeInstance(p, i) ==> Usable(p, a, n, i) > 0
    {
      UsableDropped(p, a, deptype, n, i);
    }
    UsableOfTypeWitness(p, a, n, other);
    UsableOfTypeUnique(p, a, n, other);
    UsableOfTypeWitness(p, b, n, other);
    UsableOfTypeUnique(p, b, n, other);
    if !UsableOnce(p, b, n, other) {
      var i, i' := UsableTwice(p, b, n, other);
      UsableOnceAt(p, a, n, other, i, i');
    }
  }

  lemma DroppedHolds(p: Problem, a: Placing, deptype: string, free: nat, c: Constraint)
    requires Satisfies(p, a) && NonnegativeSizes(p) && InRange(p, c)
    requires free < |p.deps| && p.deps[free].deptype == deptype && FreeInstance(p, free)
    ensures Holds(p, Dropped(p, a, deptype), c)
  {
    assert Holds(p, a, c);
    hide Held, HeldInstances, Holders, OnRaceNodes, OnServers, ServerLoad, UsableOfType, Satisfies, FreeInstance;
    match c
    case ShardServed(n, i, j, k) =>
    case BlobServed(n, i, j) =>
    case BetweenNAndM(n, i, j) => HeldDropped(p, a, deptype, n, i, j);
    case BlobIfShards(n, i, j) => HeldDropped(p, a, deptype, n, i, j);
    case BlobMatches(n, i, j) => HeldDropped(p, a, deptype, n, i, j);
    case Capacity(n) => LoadDropped(p, a, deptype, n);
    case OneInstance(n, i) => InstancesDropped(p, a, deptype, n, i);
    case OneRaceNode(i, j) => HoldersDropped(p, a, deptype, i, j);
    case ShardOnOneRaceNode(i, j, k) => ShardDropped(p, a, deptype, i, j, k);
    case ShardOnOneServer(i, j, k) => ShardDropped(p, a, deptype, i, j, k);
    case ServersMatch(i, j, k) => ShardDropped(p, a, deptype, i, j, k);
    case OneOfType(n, other) => TypeDropped(p, a, deptype, n, other, free);
  }

  /** Race node n has shards of some instance of the type. */
  ghost predicate Served(p: Problem, a: Placing, n: nat, deptype: string) {
    exists id :: Serves(p, a, n, deptype, id)
  }

  ghost predicate AllServed(p: Problem, a: Placing, deptype: string) {
    forall n: nat :: n < |p.rnodes| ==> Served(p, a, n, deptype)
  }

  /** Every satisfying placing gives every race node shards of the type. */
  ghost predicate AlwaysServed(p: Problem, deptype: string) {
    forall a: Placing :: Satisfies(p, a) ==> AllServed(p, a, deptype)
  }

  /** An instance that is usable without shards lets all race nodes go without the type. */
  lemma ServedByNothing(p: Problem, a: Placing, deptype: string, i: nat, j: nat)
    requires Satisfies(p, a) && NonnegativeSizes(p)
    requires IsInstance(p, i, j) && p.deps[i].deptype == deptype && Threshold(p, i, j) <= 0
    ensures Satisfies(p, Dropped(p, a, deptype))
    ensures forall n, id :: !Serves(p, Dropped(p, a, deptype), n, deptype, id)
  {
    assert FreeInstance(p, i);
    forall c | InRange(p, c) ensures Holds(p, Dropped(p, a, deptype), c) {
      DroppedHolds(p, a, deptype, i, c);
    }
    forall n, id ensures !Serves(p, Dropped(p, a, deptype), n, deptype, id) {
      HeldDropped(p, a, deptype, n, id.i, id.j);
    }
  }

  /**
   Exactly when the rules do give every race node what it needs: provided that they can be
   satisfied at all, every race node has shards of an instance of a type in every
   satisfying placing if and only if no instance of the type has a threshold below 1.
   */
  lemma AlwaysServedIff(p: Problem, a: Placing, deptype: string)
    requires Satisfies(p, a) && NonnegativeSizes(p)
    requires p.rnodes != [] && HasType(p, deptype)
    ensures AlwaysServed(p, deptype) <==> TypeThresholds(p, deptype)
  {
    hide Satisfies, Serves, NonnegativeSizes, Threshold;
    if TypeThresholds(p, deptype) {
      forall b: Placing | Satisfies(p, b) ensures AllServed(p, b, deptype) {
        forall n: nat | n < |p.rnodes| ensures Served(p, b, n, deptype) {
          var id := OneInstanceOfEveryType(p, b, n, deptype);
        }
      }
    } else {
      var i: nat, j: nat :| IsInstance(p, i, j) && p.deps[i].deptype == deptype && Threshold(p, i, j) < 1;
      ServedByNothing(p, a, deptype, i, j);
      assert !Served(p, Dropped(p, a, deptype), 0, deptype);
      assert !AllServed(p, Dropped(p, a, deptype), deptype);
    }
  }

  // ----- A threshold of 0, concretely -----

  /** One kit of two shards with a threshold of 0, two race nodes, and a server that could hold it. */
  function FreeKit(): Problem {
    Problem([Dep("kit", [Instance(0, 2, ["first", "second"], 10, 30)])],
            [RaceNode("a"), RaceNode("b")], [ServerNode("s", 50)])
  }

  /** Race node 0 has both shards and the blob, and so has the server. */
  function KitOnFirst(): Placing {
    (v: Var) =>
      match v
      case RaceShard(n, i, j, k) => n == 0 && i == 0 && j == 0 && k < 2
      case RaceBlob(n, i, j) => n == 0 && i == 0 && j == 0
      case ServerShard(n, i, j, k) => n == 0 && i == 0 && j == 0 && k < 2
      case ServerBlob(n, i, j) => n == 0 && i == 0 && j == 0
  }

  lemma KitShape(i: nat, j: nat)
    ensures IsInstance(FreeKit(), i, j) <==> i == 0 && j == 0
    ensures Threshold(FreeKit(), 0, 0) == 0 && |FreeKit().deps| == 1 && FreeKit().deps[0].deptype == "kit"
    ensures forall k: nat :: IsShard(FreeKit(), i, j, k) <==> i == 0 && j == 0 && k < 2
    ensures |FreeKit().rnodes| == 2 && |FreeKit().snodes| == 1
  {}

  lemma KitHeld(n: nat)
    ensures Held(FreeKit(), KitOnFirst(), n, 0, 0) == if n == 0 then 2 else 0
  {
    var P := (k: nat) => KitOnFirst()(RaceShard(n, 0, 0, k));
    var xs := Range(2);
    assert xs[1..][1..] == [];
    assert Count(xs, P) == One(P(0)) + (One(P(1)) + 0);
    assert |FreeKit().deps[0].instances[0].shards| == 2;
  }

  lemma SumOfTwo<T>(x: T, y: T, f: T -> int)
    ensures SumOver([x, y], f) == f(x) + f(y) && SumOver([x], f) == f(x)
  {
    assert [x, y][1..] == [y] && [x][1..] == [] && [y][1..] == [];
    assert SumOver([x], f) == f(x) + SumOver([], f);
    assert SumOver([y], f) == f(y) + SumOver([], f);
    assert SumOver([x, y], f) == f(x) + SumOver([y], f);
  }

  lemma KitItems()
    ensures AllInstances(FreeKit()) == [InstanceId(0, 0)]
    ensures AllShards(FreeKit()) == [ShardId(0, 0, 0), ShardId(0, 0, 1)]
  {
    var p := FreeKit();
    assert InstanceIds(p, 0) == [];
    assert AllInstances(p) == [InstanceId(0, 0)];
    assert [InstanceId(0, 0)][1..] == [];
    assert ShardRow(0, 0, 2) == [ShardId(0, 0, 0), ShardId(0, 0, 1)];
  }

  lemma KitLoad()
    ensures ServerLoad(FreeKit(), KitOnFirst(), 0) == 50
  {
    var p, a := FreeKit(), KitOnFirst();
    KitItems();
    var f := ServerShardBytes(p, a);
    var g := ServerBlobBytes(p, a);
    assert ShardSize(p, 0, 0) == 10 && BlobSize(p, 0, 0) == 30;
    assert a(ServerShard(0, 0, 0, 0)) && a(ServerShard(0, 0, 0, 1)) && a(ServerBlob(0, 0, 0));
    assert f(0, ShardId(0, 0, 0)) == 10 && f(0, ShardId(0, 0, 1)) == 10 && g(0, InstanceId(0, 0)) == 30;
    hide FreeKit, KitOnFirst, ServerShardBytes, ServerBlobBytes, AllInstances, AllShards;
    RowSumOfTwo(ShardId(0, 0, 0), ShardId(0, 0, 1), f, 0);
    RowSumOfTwo(InstanceId(0, 0), InstanceId(0, 0), g, 0);
  }

  lemma RowSumOfTwo<T>(y: T, z: T, f: (nat, T) -> int, x: nat)
    ensures RowSum([y, z], f)(x) == f(x, y) + f(x, z) && RowSum([y], f)(x) == f(x, y)
  {
    var row := (t: T) => f(x, t);
    SumOfTwo(y, z, row);
  }

  lemma KitShards(k: nat)
    requires k < 2
    ensures var p, a := FreeKit(), KitOnFirst();
            && OneServer(p, a, 0, 0, k) && OnSomeServer(p, a, 0, 0, k) && OnSomeRaceNode(p, a, 0, 0, k)
            && OnServers(p, a, 0, 0, k) == 1 && OnRaceNodes(p, a, 0, 0, k) == 1
  {
    var p, a := FreeKit(), KitOnFirst();
    KitShape(0, 0);
    assert a(ServerShard(0, 0, 0, k)) && a(RaceShard(0, 0, 0, k));
    assert OneHolder(p, a, 0, 0) by {
      forall n: nat, n': nat | n < n' < 2 ensures !(Held(p, a, n, 0, 0) > 0 && Held(p, a, n', 0, 0) > 0) {
        KitHeld(n');
      }
    }
    OnServersCount(p, a, 0, 0, k);
    OnRaceNodesCount(p, a, 0, 0, k);
  }

  lemma KitOfType(n: nat)
    ensures UsableOfType(FreeKit(), KitOnFirst(), n, "kit") == 1
  {
    var p, a := FreeKit(), KitOnFirst();
    KitShape(0, 0);
    KitHeld(n);
    hide FreeKit, KitOnFirst, Held, Usable, UsableOfType, Threshold;
    UsableCounts(p, a, n, 0);
    UsableOfTypeWitness(p, a, n, "kit");
    UsableOfTypeUnique(p, a, n, "kit");
  }

  lemma KitPair(n: nat)
    requires n < 2
    ensures var p, a := FreeKit(), KitOnFirst();
            && IsInstance(p, 0, 0) && n < |p.rnodes|
            && PairFits(p, a, n, 0, 0)
  {
    KitShape(0, 0);
    KitHeld(n);
    assert KitOnFirst()(ServerBlob(0, 0, 0));
    hide Held;
  }

  lemma KitSingles(n: nat)
    ensures |FreeKit().deps| == 1 && HeldInstances(FreeKit(), KitOnFirst(), n, 0) <= 1
    ensures Holders(FreeKit(), KitOnFirst(), 0, 0) <= 1
  {
    var p, a := FreeKit(), KitOnFirst();
    KitShape(0, 0);
    HeldInstancesUnique(p, a, n, 0);
    forall x: nat, y: nat | x < y < |p.rnodes| ensures !(Held(p, a, x, 0, 0) > 0 && Held(p, a, y, 0, 0) > 0) {
      KitHeld(y);
    }
    hide Held;
    HoldersUnique(p, a, 0, 0);
  }

  lemma KitRange(c: Constraint)
    requires InRange(FreeKit(), c)
    ensures match c
            case ShardServed(n, i, j, k) => n < 2 && i == j == 0 && k < 2
            case BlobServed(n, i, j) => n < 2 && i == j == 0
            case BetweenNAndM(n, i, j) => n < 2 && i == j == 0
            case BlobIfShards(n, i, j) => n < 2 && i == j == 0
            case BlobMatches(n, i, j) => n < 2 && i == j == 0
            case Capacity(n) => n == 0
            case OneInstance(n, i) => n < 2 && i == 0
            case OneRaceNode(i, j) => i == j == 0
            case ShardOnOneRaceNode(i, j, k) => i == j == 0 && k < 2
            case ShardOnOneServer(i, j, k) => i == j == 0 && k < 2
            case ServersMatch(i, j, k) => i == j == 0 && k < 2
            case OneOfType(n, deptype) => n < 2 && deptype == "kit"
  {}

  lemma KitHolds(c: Constraint)
    requires InRange(FreeKit(), c)
    ensures Holds(FreeKit(), KitOnFirst(), c)
  {
    KitRange(c);
    assert FreeKit().snodes[0].capacity == 50;
    hide FreeKit, KitOnFirst, Held, HeldInstances, Holders, OnRaceNodes, OnServers, ServerLoad, UsableOfType, OneServer,
         OnSomeRaceNode;
    match c
    case Capacity(n) =>
      KitLoad();
    case OneInstance(n, i) =>
      KitSingles(n);
    case OneRaceNode(i, j) =>
      KitSingles(0);
    case OneOfType(n, deptype) =>
      KitOfType(n);
    case BlobServed(n, i, j) =>
      KitPairHolds(n);
    case BetweenNAndM(n, i, j) =>
      KitPairHolds(n);
    case BlobIfShards(n, i, j) =>
      KitPairHolds(n);
    case BlobMatches(n, i, j) =>
      KitPairHolds(n);
    case ShardServed(n, i, j, k) =>
      KitShards(k);
    case ShardOnOneRaceNode(i, j, k) =>
      KitShards(k);
    case ShardOnOneServer(i, j, k) =>
      KitShards(k);
    case ServersMatch(i, j, k) =>
      KitShards(k);
  }

  lemma KitPairHolds(n: nat)
    requires n < 2
    ensures forall c :: InRange(FreeKit(), c) && (c.BlobServed? || c.BetweenNAndM? || c.BlobIfShards? || c.BlobMatches?) && c.n == n
              ==> Holds(FreeKit(), KitOnFirst(), c)
  {
    KitPair(n);
    PairFitsIff(FreeKit(), KitOnFirst(), n, 0, 0);
    hide Held, Holds, KitOnFirst;
    forall c | InRange(FreeKit(), c) && (c.BlobServed? || c.BetweenNAndM? || c.BlobIfShards? || c.BlobMatches?) && c.n == n
      ensures Holds(FreeKit(), KitOnFirst(), c)
    {
      KitRange(c);
    }
  }

  /**
   A threshold of 0 is met without any shard: the rules hold although the second race
   node has nothing of the one kit there is.
   */
  lemma ZeroThreshold()
    ensures Satisfies(FreeKit(), KitOnFirst())
    ensures Serves(FreeKit(), KitOnFirst(), 0, "kit", InstanceId(0, 0))
    ensures !Served(FreeKit(), KitOnFirst(), 1, "kit")
    ensures |InstancesOfType(FreeKit(), "kit", 1)| < |FreeKit().rnodes|
  {
    forall c | InRange(FreeKit(), c) ensures Holds(FreeKit(), KitOnFirst(), c) {
      KitHolds(c);
    }
    KitHeld(0);
    forall id ensures !Serves(FreeKit(), KitOnFirst(), 1, "kit", id) {
      KitShape(id.i, id.j);
      KitHeld(1);
    }
    assert InstancesOfType(FreeKit(), "kit", 0) == [];
  }
}
