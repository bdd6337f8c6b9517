/**
 The ten placement rules, spelled out over the indices of the problem, and that all
 constraints together say exactly this.
 */
module RulesSpelled {
  import opened Sums
  import opened Placement
  import opened Formulas

  // ----- The rules -----

  /** A shard that a race node has is on some server. */
  ghost predicate ShardsServed(p: Problem, a: Placing) {
    forall n: nat, i: nat, j: nat, k: nat ::
      n < |p.rnodes| && i < |p.deps| && j < |p.deps[i].instances| && k < |p.deps[i].instances[j].shards| ==>
        a(RaceShard(n, i, j, k)) ==> exists sn: nat :: sn < |p.snodes| && a(ServerShard(sn, i, j, k))
  }

  /** A blob that a race node has is on some server. */
  ghost predicate BlobsServed(p: Problem, a: Placing) {
    forall n: nat, i: nat, j: nat :: n < |p.rnodes| && i < |p.deps| && j < |p.deps[i].instances| ==>
      a(RaceBlob(n, i, j)) ==> exists sn: nat :: sn < |p.snodes| && a(ServerBlob(sn, i, j))
  }

  /** A race node has no shard of an instance, or n to m of them, by the loaded list. */
  ghost predicate BoundsMet(p: Problem, loaded: seq<Dep>, a: Placing)
    requires Covers(loaded, p.deps)
  {
    forall n: nat, i: nat, j: nat :: n < |p.rnodes| && i < |p.deps| && j < |p.deps[i].instances| ==>
      || RaceShards(p, a, n, i, j) == {}
      || loaded[i].instances[j].n <= |RaceShards(p, a, n, i, j)| <= loaded[i].instances[j].m
  }

  /** A race node with shards has the blob, and some server has it, too. */
  ghost predicate BlobsBehindShards(p: Problem, a: Placing) {
    forall n: nat, i: nat, j: nat :: n < |p.rnodes| && i < |p.deps| && j < |p.deps[i].instances| ==>
      RaceShards(p, a, n, i, j) != {} ==>
        a(RaceBlob(n, i, j)) && exists sn: nat :: sn < |p.snodes| && a(ServerBlob(sn, i, j))
  }

  /** A race node has the blob exactly when it has shards. */
  ghost predicate BlobsMatch(p: Problem, a: Placing) {
    forall n: nat, i: nat, j: nat :: n < |p.rnodes| && i < |p.deps| && j < |p.deps[i].instances| ==>
      (a(RaceBlob(n, i, j)) <==> RaceShards(p, a, n, i, j) != {})
  }

  /** What a server stores of all instances fits its capacity. */
  ghost predicate ServersFit(p: Problem, a: Placing) {
    forall n: nat :: n < |p.snodes| ==> InstanceTotal(p, StoredBytes(p, a, n), |p.deps|) <= p.snodes[n].capacity
  }

  /** A race node has shards of one instance of a dependency at most. */
  ghost predicate OneInstanceEach(p: Problem, a: Placing) {
    forall n: nat, i: nat, j: nat, j': nat :: n < |p.rnodes| && i < |p.deps| && j < j' < |p.deps[i].instances| ==>
      RaceShards(p, a, n, i, j) == {} || RaceShards(p, a, n, i, j') == {}
  }

  /** One race node at most has shards of an instance. */
  ghost predicate OneRaceNodeEach(p: Problem, a: Placing) {
    forall i: nat, j: nat, n: nat, n': nat :: i < |p.deps| && j < |p.deps[i].instances| && n < n' < |p.rnodes| ==>
      RaceShards(p, a, n, i, j) == {} || RaceShards(p, a, n', i, j) == {}
  }

  function RaceNodesWith(p: Problem, a: Placing, i: nat, j: nat, k: nat): set<nat> {
    set n: nat | n < |p.rnodes| && a(RaceShard(n, i, j, k))
  }

  function ServersWith(p: Problem, a: Placing, i: nat, j: nat, k: nat): set<nat> {
    set n: nat | n < |p.snodes| && a(ServerShard(n, i, j, k))
  }

  /** A shard is on one race node at most, on one server at most, and on the one if on the other. */
  ghost predicate ShardsMatch(p: Problem, a: Placing) {
    forall i: nat, j: nat, k: nat :: i < |p.deps| && j < |p.deps[i].instances| && k < |p.deps[i].instances[j].shards| ==>
      |RaceNodesWith(p, a, i, j, k)| == |ServersWith(p, a, i, j, k)| <= 1
  }

  /** The dependencies at the loaded type's indices of which a race node has an instance's n shards, by the problem's list. */
  ghost function ServedBy(p: Problem, loaded: seq<Dep>, a: Placing, n: nat, deptype: string): set<nat>
    requires |p.deps| <= |loaded|
  {
    set i: nat | i < |p.deps| && loaded[i].deptype == deptype
                 && exists j: nat :: j < |p.deps[i].instances| && |RaceShards(p, a, n, i, j)| >= p.deps[i].instances[j].n
  }

  /** A race node is served by exactly one dependency of every type of the loaded list. */
  ghost predicate TypesServed(p: Problem, loaded: seq<Dep>, a: Placing)
    requires Covers(loaded, p.deps)
  {
    forall n: nat, l: nat :: n < |p.rnodes| && l < |loaded| ==> |ServedBy(p, loaded, a, n, loaded[l].deptype)| == 1
  }

  /** All ten. */
  ghost predicate Spelled(p: Problem, loaded: seq<Dep>, a: Placing)
    requires Covers(loaded, p.deps)
  {
    && ShardsServed(p, a) && BlobsServed(p, a) && BoundsMet(p, loaded, a) && BlobsBehindShards(p, a) && BlobsMatch(p, a)
    && ServersFit(p, a) && OneInstanceEach(p, a) && OneRaceNodeEach(p, a) && ShardsMatch(p, a) && TypesServed(p, loaded, a)
  }

  // ----- Constraint by constraint -----

  lemma HeldShards(p: Problem, a: Placing)
    ensures forall n: nat, i: nat, j: nat :: i < |p.deps| && j < |p.deps[i].instances| ==>
              Held(p, a, n, i, j) == |RaceShards(p, a, n, i, j)| && (RaceShards(p, a, n, i, j) == {} <==> Held(p, a, n, i, j) <= 0)
  {
    hide Held, RaceShards;
    forall n: nat, i: nat, j: nat | i < |p.deps| && j < |p.deps[i].instances|
      ensures Held(p, a, n, i, j) == |RaceShards(p, a, n, i, j)|
    {
      HeldIsCard(p, a, n, i, j);
    }
  }

  lemma SpellServed(p: Problem, a: Placing)
    ensures ShardsServed(p, a) ==> forall n: nat, i: nat, j: nat, k: nat ::
              InRange(p, ShardServed(n, i, j, k)) ==> Holds(p, a, ShardServed(n, i, j, k))
    ensures BlobsServed(p, a) ==> forall n: nat, i: nat, j: nat ::
              InRange(p, BlobServed(n, i, j)) ==> Holds(p, a, BlobServed(n, i, j))
  {}

  lemma SpellBounds(p: Problem, loaded: seq<Dep>, a: Placing)
    requires Covers(loaded, p.deps)
    ensures BoundsMet(p, loaded, a) ==> forall n: nat, i: nat, j: nat ::
              InRange(p, BetweenNAndM(n, i, j)) ==> HoldsAsLoaded(p, loaded, a, BetweenNAndM(n, i, j))
  {
    HeldShards(p, a);
    hide Held, RaceShards;
  }

  lemma SpellBlobs(p: Problem, a: Placing)
    ensures BlobsBehindShards(p, a) ==> forall n: nat, i: nat, j: nat ::
              InRange(p, BlobIfShards(n, i, j)) ==> Holds(p, a, BlobIfShards(n, i, j))
    ensures BlobsMatch(p, a) ==> forall n: nat, i: nat, j: nat ::
              InRange(p, BlobMatches(n, i, j)) ==> Holds(p, a, BlobMatches(n, i, j))
  {
    HeldShards(p, a);
    hide Held, RaceShards;
  }

  lemma SpellCapacity(p: Problem, a: Placing)
    ensures ServersFit(p, a) ==> forall n: nat :: InRange(p, Capacity(n)) ==> Holds(p, a, Capacity(n))
  {
    hide ServerLoad, InstanceTotal;
    forall n: nat ensures ServerLoad(p, a, n) == InstanceTotal(p, StoredBytes(p, a, n), |p.deps|) {
      LoadIs(p, a, n);
    }
  }

  lemma SpellOneInstance(p: Problem, a: Placing)
    ensures OneInstanceEach(p, a) ==> forall n: nat, i: nat :: InRange(p, OneInstance(n, i)) ==> Holds(p, a, OneInstance(n, i))
  {
    HeldShards(p, a);
    hide Held, RaceShards, HeldInstances;
    forall n: nat, i: nat | i < |p.deps|
      ensures HeldInstances(p, a, n, i) <= 1 <==> forall j: nat, j': nat ::
                j < j' < |p.deps[i].instances| ==> RaceShards(p, a, n, i, j) == {} || RaceShards(p, a, n, i, j') == {}
    {
      HeldInstancesUnique(p, a, n, i);
    }
  }

  lemma SpellOneRaceNode(p: Problem, a: Placing)
    ensures OneRaceNodeEach(p, a) ==> forall i: nat, j: nat :: InRange(p, OneRaceNode(i, j)) ==> Holds(p, a, OneRaceNode(i, j))
  {
    HeldShards(p, a);
    hide Held, RaceShards, Holders;
    forall i: nat, j: nat | i < |p.deps| && j < |p.deps[i].instances|
      ensures Holders(p, a, i, j) <= 1 <==> forall n: nat, n': nat ::
                n < n' < |p.rnodes| ==> RaceShards(p, a, n, i, j) == {} || RaceShards(p, a, n', i, j) == {}
    {
      HoldersUnique(p, a, i, j);
    }
  }

  lemma NodeCounts(p: Problem, a: Placing, i: nat, j: nat, k: nat)
    ensures OnRaceNodes(p, a, i, j, k) == |RaceNodesWith(p, a, i, j, k)|
    ensures OnServers(p, a, i, j, k) == |ServersWith(p, a, i, j, k)|
  {
    var R := (n: nat) => a(RaceShard(n, i, j, k));
    var S := (n: nat) => a(ServerShard(n, i, j, k));
    CountIsCard(|p.rnodes|, R);
    CountIsCard(|p.snodes|, S);
    assert RaceNodesWith(p, a, i, j, k) == set n: nat | n < |p.rnodes| && R(n);
    assert ServersWith(p, a, i, j, k) == set n: nat | n < |p.snodes| && S(n);
  }

  lemma SpellShards(p: Problem, a: Placing)
    ensures ShardsMatch(p, a) ==> forall i: nat, j: nat, k: nat :: IsShard(p, i, j, k) ==>
              && Holds(p, a, ShardOnOneRaceNode(i, j, k)) && Holds(p, a, ShardOnOneServer(i, j, k))
              && Holds(p, a, ServersMatch(i, j, k))
  {
    hide OnRaceNodes, OnServers, RaceNodesWith, ServersWith;
    forall i: nat, j: nat, k: nat | IsShard(p, i, j, k)
      ensures OnRaceNodes(p, a, i, j, k) == |RaceNodesWith(p, a, i, j, k)|
      ensures OnServers(p, a, i, j, k) == |ServersWith(p, a, i, j, k)|
    {
      NodeCounts(p, a, i, j, k);
    }
  }

  /** Counting over the indices of a type is counting over all indices. */
  lemma {:induction false} CountOfType(deps: seq<Dep>, deptype: string, d: nat, P: nat -> bool, Q: nat -> bool)
    requires d <= |deps| && forall i: nat :: i < |deps| ==> (Q(i) <==> deps[i].deptype == deptype && P(i))
    ensures Count(OfType(deps, deptype, d), P) == Count(Range(d), Q)
  {
    hide Count, OfType;
    if d == 0 {
      NothingOfType(deps, deptype, P, Q);
    } else {
      var last: nat := d - 1;
      CountOfType(deps, deptype, last, P, Q);
      assert Range(d) == Range(last) + [last];
      CountAppend(Range(last), last, Q);
      OneMoreOfType(deps, deptype, last);
      if deps[last].deptype == deptype {
        CountAppend(OfType(deps, deptype, last), last, P);
      } else {
        assert OfType(deps, deptype, d) == OfType(deps, deptype, last);
      }
    }
  }

  lemma NothingOfType(deps: seq<Dep>, deptype: string, P: nat -> bool, Q: nat -> bool)
    ensures Count(OfType(deps, deptype, 0), P) == 0 == Count(Range(0), Q)
  {}

  lemma OneMoreOfType(deps: seq<Dep>, deptype: string, d: nat)
    requires d < |deps|
    ensures OfType(deps, deptype, d + 1) == OfType(deps, deptype, d) + (if deps[d].deptype == deptype then [d] else [])
  {}

  lemma ServedByIs(p: Problem, loaded: seq<Dep>, a: Placing, n: nat, deptype: string)
    requires |p.deps| <= |loaded|
    ensures Count(OfType(loaded, deptype, |p.deps|), (i: nat) => Usable(p, a, n, i) > 0)
         == |ServedBy(p, loaded, a, n, deptype)|
  {
    hide Usable, RaceShards, OfType, Count;
    var P := (i: nat) => Usable(p, a, n, i) > 0;
    var Q := (i: nat) => i < |loaded| && loaded[i].deptype == deptype && Usable(p, a, n, i) > 0;
    CountOfType(loaded, deptype, |p.deps|, P, Q);
    CountIsCard(|p.deps|, Q);
    forall i: nat | i < |p.deps|
      ensures P(i) <==> exists j: nat :: j < |p.deps[i].instances| && |RaceShards(p, a, n, i, j)| >= p.deps[i].instances[j].n
    {
      UsableIs(p, a, n, i);
    }
    assert (set i: nat | i < |p.deps| && Q(i)) == ServedBy(p, loaded, a, n, deptype);
  }

  lemma UsableIs(p: Problem, a: Placing, n: nat, i: nat)
    requires i < |p.deps|
    ensures Usable(p, a, n, i) > 0 <==>
              exists j: nat :: j < |p.deps[i].instances| && |RaceShards(p, a, n, i, j)| >= p.deps[i].instances[j].n
  {
    UsableCounts(p, a, n, i);
    HeldShards(p, a);
    hide Usable, RaceShards, Held;
    if Usable(p, a, n, i) > 0 {
      var j: nat :| IsInstance(p, i, j) && Held(p, a, n, i, j) >= Threshold(p, i, j);
      assert |RaceShards(p, a, n, i, j)| >= p.deps[i].instances[j].n;
    }
    if j: nat :| j < |p.deps[i].instances| && |RaceShards(p, a, n, i, j)| >= p.deps[i].instances[j].n {
      assert Held(p, a, n, i, j) >= Threshold(p, i, j);
    }
  }

  lemma SpellTypes(p: Problem, loaded: seq<Dep>, a: Placing)
    requires Covers(loaded, p.deps)
    ensures TypesServed(p, loaded, a) ==> forall n: nat, deptype ::
              Stated(p, loaded, OneOfType(n, deptype)) ==> HoldsAsLoaded(p, loaded, a, OneOfType(n, deptype))
  {
    hide Usable, ServedBy;
    forall n: nat, deptype
      ensures Count(OfType(loaded, deptype, |p.deps|), (i: nat) => Usable(p, a, n, i) > 0)
           == |ServedBy(p, loaded, a, n, deptype)|
    {
      ServedByIs(p, loaded, a, n, deptype);
    }
    if TypesServed(p, loaded, a) {
      forall n: nat, deptype | Stated(p, loaded, OneOfType(n, deptype))
        ensures HoldsAsLoaded(p, loaded, a, OneOfType(n, deptype))
      {
        var l: nat :| l < |loaded| && loaded[l].deptype == deptype;
        assert |ServedBy(p, loaded, a, n, loaded[l].deptype)| == 1;
      }
    }
  }

  // ----- And back -----

  lemma FollowServed(p: Problem, loaded: seq<Dep>, a: Placing)
    requires Covers(loaded, p.deps) && SatisfiesAsLoaded(p, loaded, a)
    ensures ShardsServed(p, a) && BlobsServed(p, a)
  {
    forall n: nat, i: nat, j: nat, k: nat | n < |p.rnodes| && IsShard(p, i, j, k) && a(RaceShard(n, i, j, k))
      ensures exists sn: nat :: sn < |p.snodes| && a(ServerShard(sn, i, j, k))
    {
      assert HoldsAsLoaded(p, loaded, a, ShardServed(n, i, j, k));
    }
    forall n: nat, i: nat, j: nat | n < |p.rnodes| && IsInstance(p, i, j) && a(RaceBlob(n, i, j))
      ensures exists sn: nat :: sn < |p.snodes| && a(ServerBlob(sn, i, j))
    {
      assert HoldsAsLoaded(p, loaded, a, BlobServed(n, i, j));
    }
  }

  lemma FollowBounds(p: Problem, loaded: seq<Dep>, a: Placing)
    requires Covers(loaded, p.deps) && SatisfiesAsLoaded(p, loaded, a)
    ensures BoundsMet(p, loaded, a) && BlobsBehindShards(p, a) && BlobsMatch(p, a)
  {
    HeldShards(p, a);
    hide Held, RaceShards;
    forall n: nat, i: nat, j: nat | n < |p.rnodes| && IsInstance(p, i, j)
      ensures RaceShards(p, a, n, i, j) == {}
              || loaded[i].instances[j].n <= |RaceShards(p, a, n, i, j)| <= loaded[i].instances[j].m
      ensures RaceShards(p, a, n, i, j) != {} ==>
                a(RaceBlob(n, i, j)) && exists sn: nat :: sn < |p.snodes| && a(ServerBlob(sn, i, j))
      ensures a(RaceBlob(n, i, j)) <==> RaceShards(p, a, n, i, j) != {}
    {
      assert HoldsAsLoaded(p, loaded, a, BetweenNAndM(n, i, j));
      assert HoldsAsLoaded(p, loaded, a, BlobIfShards(n, i, j));
      assert HoldsAsLoaded(p, loaded, a, BlobMatches(n, i, j));
    }
  }

  lemma FollowCapacity(p: Problem, loaded: seq<Dep>, a: Placing)
    requires Covers(loaded, p.deps) && SatisfiesAsLoaded(p, loaded, a)
    ensures ServersFit(p, a)
  {
    hide ServerLoad, InstanceTotal;
    forall n: nat | n < |p.snodes| ensures InstanceTotal(p, StoredBytes(p, a, n), |p.deps|) <= p.snodes[n].capacity {
      assert HoldsAsLoaded(p, loaded, a, Capacity(n));
      LoadIs(p, a, n);
    }
  }

  lemma FollowUnique(p: Problem, loaded: seq<Dep>, a: Placing)
    requires Covers(loaded, p.deps) && SatisfiesAsLoaded(p, loaded, a)
    ensures OneInstanceEach(p, a) && OneRaceNodeEach(p, a)
  {
    HeldShards(p, a);
    hide Held, RaceShards, HeldInstances, Holders;
    forall n: nat, i: nat, j: nat, j': nat | n < |p.rnodes| && i < |p.deps| && j < j' < |p.deps[i].instances|
      ensures RaceShards(p, a, n, i, j) == {} || RaceShards(p, a, n, i, j') == {}
    {
      assert HoldsAsLoaded(p, loaded, a, OneInstance(n, i));
      HeldInstancesUnique(p, a, n, i);
    }
    forall i: nat, j: nat, n: nat, n': nat | IsInstance(p, i, j) && n < n' < |p.rnodes|
      ensures RaceShards(p, a, n, i, j) == {} || RaceShards(p, a, n', i, j) == {}
    {
      assert HoldsAsLoaded(p, loaded, a, OneRaceNode(i, j));
      HoldersUnique(p, a, i, j);
    }
  }

  lemma FollowShards(p: Problem, loaded: seq<Dep>, a: Placing)
    requires Covers(loaded, p.deps) && SatisfiesAsLoaded(p, loaded, a)
    ensures ShardsMatch(p, a)
  {
    hide OnRaceNodes, OnServers, RaceNodesWith, ServersWith;
    forall i: nat, j: nat, k: nat | IsShard(p, i, j, k)
      ensures |RaceNodesWith(p, a, i, j, k)| == |ServersWith(p, a, i, j, k)| <= 1
    {
      NodeCounts(p, a, i, j, k);
      assert HoldsAsLoaded(p, loaded, a, ShardOnOneServer(i, j, k));
      assert HoldsAsLoaded(p, loaded, a, ServersMatch(i, j, k));
    }
  }

  lemma FollowTypes(p: Problem, loaded: seq<Dep>, a: Placing)
    requires Covers(loaded, p.deps) && SatisfiesAsLoaded(p, loaded, a)
    ensures TypesServed(p, loaded, a)
  {
    hide Usable, ServedBy;
    forall n: nat, l: nat | n < |p.rnodes| && l < |loaded|
      ensures |ServedBy(p, loaded, a, n, loaded[l].deptype)| == 1
    {
      assert Stated(p, loaded, OneOfType(n, loaded[l].deptype));
      assert HoldsAsLoaded(p, loaded, a, OneOfType(n, loaded[l].deptype));
      ServedByIs(p, loaded, a, n, loaded[l].deptype);
    }
  }

  /** All constraints hold exactly when the ten rules do. */
  lemma SatisfiesSpelled(p: Problem, loaded: seq<Dep>, a: Placing)
    requires Covers(loaded, p.deps)
    ensures SatisfiesAsLoaded(p, loaded, a) <==> Spelled(p, loaded, a)
  {
    hide Holds, ShardsServed, BlobsServed, BoundsMet, BlobsBehindShards, BlobsMatch, ServersFit, OneInstanceEach,
         OneRaceNodeEach, ShardsMatch, TypesServed;
    hide HoldsAsLoaded;
    if SatisfiesAsLoaded(p, loaded, a) {
      FollowServed(p, loaded, a);
      FollowBounds(p, loaded, a);
      FollowCapacity(p, loaded, a);
      FollowUnique(p, loaded, a);
      FollowShards(p, loaded, a);
      FollowTypes(p, loaded, a);
    }
    if Spelled(p, loaded, a) {
      forall c | Stated(p, loaded, c) ensures HoldsAsLoaded(p, loaded, a, c) {
        SpelledHolds(p, loaded, a, c);
      }
    }
  }

  lemma SpelledHolds(p: Problem, loaded: seq<Dep>, a: Placing, c: Constraint)
    requires Covers(loaded, p.deps) && Spelled(p, loaded, a) && Stated(p, loaded, c)
    ensures HoldsAsLoaded(p, loaded, a, c)
  {
    hide Holds, ShardsServed, BlobsServed, BoundsMet, BlobsBehindShards, BlobsMatch, ServersFit, OneInstanceEach,
         OneRaceNodeEach, ShardsMatch, TypesServed;
    match c
    case ShardServed(n, i, j, k) => SpellServed(p, a);
    case BlobServed(n, i, j) => SpellServed(p, a);
    case BetweenNAndM(n, i, j) => SpellBounds(p, loaded, a);
    case BlobIfShards(n, i, j) => SpellBlobs(p, a);
    case BlobMatches(n, i, j) => SpellBlobs(p, a);
    case Capacity(n) => SpellCapacity(p, a);
    case OneInstance(n, i) => SpellOneInstance(p, a);
    case OneRaceNode(i, j) => SpellOneRaceNode(p, a);
    case ShardOnOneRaceNode(i, j, k) => SpellShards(p, a);
    case ShardOnOneServer(i, j, k) => SpellShards(p, a);
    case ServersMatch(i, j, k) => SpellShards(p, a);
    case OneOfType(n, deptype) => SpellTypes(p, loaded, a);
  }

  // ----- Formula by formula -----

  /** The constraints that formulas are added for. */
  lemma StatedSpelled(p: Problem, loaded: seq<Dep>, n: nat, i: nat, j: nat, k: nat, deptype: string)
    ensures var instance := i < |p.deps| && j < |p.deps[i].instances|;
            var shard := i < |p.deps| && j < |p.deps[i].instances| && k < |p.deps[i].instances[j].shards|;
            && (Stated(p, loaded, ShardServed(n, i, j, k)) <==> n < |p.rnodes| && shard)
            && (Stated(p, loaded, BlobServed(n, i, j)) <==> n < |p.rnodes| && instance)
            && (Stated(p, loaded, BetweenNAndM(n, i, j)) <==> n < |p.rnodes| && instance)
            && (Stated(p, loaded, BlobIfShards(n, i, j)) <==> n < |p.rnodes| && instance)
            && (Stated(p, loaded, BlobMatches(n, i, j)) <==> n < |p.rnodes| && instance)
            && (Stated(p, loaded, Capacity(n)) <==> n < |p.snodes|)
            && (Stated(p, loaded, OneInstance(n, i)) <==> n < |p.rnodes| && i < |p.deps|)
            && (Stated(p, loaded, OneRaceNode(i, j)) <==> instance)
            && (Stated(p, loaded, ShardOnOneRaceNode(i, j, k)) <==> shard)
            && (Stated(p, loaded, ShardOnOneServer(i, j, k)) <==> shard)
            && (Stated(p, loaded, ServersMatch(i, j, k)) <==> shard)
            && (Stated(p, loaded, OneOfType(n, deptype)) <==>
                  n < |p.rnodes| && exists l: nat :: l < |loaded| && loaded[l].deptype == deptype)
  {}

  /** What each formula says, spelled out. */
  ghost predicate SpelledAt(p: Problem, loaded: seq<Dep>, a: Placing, c: Constraint)
    requires Covers(loaded, p.deps) && Stated(p, loaded, c)
  {
    match c
    case ShardServed(n, i, j, k) =>
      a(RaceShard(n, i, j, k)) ==> exists sn: nat :: sn < |p.snodes| && a(ServerShard(sn, i, j, k))
    case BlobServed(n, i, j) =>
      a(RaceBlob(n, i, j)) ==> exists sn: nat :: sn < |p.snodes| && a(ServerBlob(sn, i, j))
    case BetweenNAndM(n, i, j) =>
      || RaceShards(p, a, n, i, j) == {}
      || loaded[i].instances[j].n <= |RaceShards(p, a, n, i, j)| <= loaded[i].instances[j].m
    case BlobIfShards(n, i, j) =>
      || RaceShards(p, a, n, i, j) == {}
      || exists sn: nat :: sn < |p.snodes| && a(RaceBlob(n, i, j)) && a(ServerBlob(sn, i, j))
    case BlobMatches(n, i, j) => a(RaceBlob(n, i, j)) <==> RaceShards(p, a, n, i, j) != {}
    case Capacity(n) => InstanceTotal(p, StoredBytes(p, a, n), |p.deps|) <= p.snodes[n].capacity
    case OneInstance(n, i) =>
      forall j: nat, j': nat :: j < j' < |p.deps[i].instances| ==>
        RaceShards(p, a, n, i, j) == {} || RaceShards(p, a, n, i, j') == {}
    case OneRaceNode(i, j) =>
      forall n: nat, n': nat :: n < n' < |p.rnodes| ==> RaceShards(p, a, n, i, j) == {} || RaceShards(p, a, n', i, j) == {}
    case ShardOnOneRaceNode(i, j, k) => |RaceNodesWith(p, a, i, j, k)| <= 1
    case ShardOnOneServer(i, j, k) => |ServersWith(p, a, i, j, k)| <= 1
    case ServersMatch(i, j, k) => |ServersWith(p, a, i, j, k)| == |RaceNodesWith(p, a, i, j, k)|
    case OneOfType(n, deptype) => |ServedBy(p, loaded, a, n, deptype)| == 1
  }

  /** The cases that count a race node's shards. */
  lemma HeldSpelled(p: Problem, loaded: seq<Dep>, a: Placing, c: Constraint)
    requires Covers(loaded, p.deps) && Stated(p, loaded, c)
    requires c.BetweenNAndM? || c.BlobIfShards? || c.BlobMatches? || c.OneInstance? || c.OneRaceNode?
    ensures HoldsAsLoaded(p, loaded, a, c) <==> SpelledAt(p, loaded, a, c)
  {
    HeldShards(p, a);
    hide Held, RaceShards, HeldInstances, Holders;
    if c.OneInstance? {
      HeldInstancesUnique(p, a, c.n, c.i);
    } else if c.OneRaceNode? {
      HoldersUnique(p, a, c.i, c.j);
    }
  }

  /** Every formula is true exactly when this holds. */
  lemma FormulaSpelled(p: Problem, loaded: seq<Dep>, a: Placing, c: Constraint)
    requires Covers(loaded, p.deps) && Stated(p, loaded, c)
    ensures True(a, FormulaOf(p, loaded, c)) <==> SpelledAt(p, loaded, a, c)
  {
    FormulaSays(p, loaded, a, c);
    hide True, FormulaOf;
    if c.BetweenNAndM? || c.BlobIfShards? || c.BlobMatches? || c.OneInstance? || c.OneRaceNode? {
      HeldSpelled(p, loaded, a, c);
    } else {
      hide OnRaceNodes, OnServers, RaceNodesWith, ServersWith, ServerLoad, ServedBy, Usable, InstanceTotal;
      match c
      case ShardServed(n, i, j, k) =>
      case BlobServed(n, i, j) =>
      case Capacity(n) => LoadIs(p, a, n);
      case ShardOnOneRaceNode(i, j, k) => NodeCounts(p, a, i, j, k);
      case ShardOnOneServer(i, j, k) => NodeCounts(p, a, i, j, k);
      case ServersMatch(i, j, k) => NodeCounts(p, a, i, j, k);
      case OneOfType(n, deptype) => ServedByIs(p, loaded, a, n, deptype);
    }
  }
}
