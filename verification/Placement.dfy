/**
 The placement of shards and blobs on race nodes and servers: the constraints, as what
 they say about an assignment of the boolean variables, and what every assignment that
 satisfies them guarantees.
 */
module Placement {
  import opened Lists
  import opened Sums

  datatype Instance = Instance(n: int, m: int, shards: seq<string>, shardSize: int, blobSize: int)

  datatype Dep = Dep(deptype: string, instances: seq<Instance>)

  datatype RaceNode = RaceNode(address: string)

  datatype ServerNode = ServerNode(address: string, capacity: int)

  datatype Problem = Problem(deps: seq<Dep>, rnodes: seq<RaceNode>, snodes: seq<ServerNode>)

  /** The boolean variables: whether race node or server n has shard k or the blob of instance j of dependency i. */
  datatype Var =
    | RaceShard(n: nat, i: nat, j: nat, k: nat)
    | ServerShard(n: nat, i: nat, j: nat, k: nat)
    | RaceBlob(n: nat, i: nat, j: nat)
    | ServerBlob(n: nat, i: nat, j: nat)

  type Placing = Var -> bool

  datatype InstanceId = InstanceId(i: nat, j: nat)

  datatype ShardId = ShardId(i: nat, j: nat, k: nat)

  // ----- The indices that the rules run over -----

  predicate IsInstance(p: Problem, i: nat, j: nat) {
    i < |p.deps| && j < |p.deps[i].instances|
  }

  predicate IsShard(p: Problem, i: nat, j: nat, k: nat) {
    IsInstance(p, i, j) && k < |p.deps[i].instances[j].shards|
  }

  function InstanceRow(i: nat, count: nat): (row: seq<InstanceId>)
    ensures |row| == count && forall j :: 0 <= j < count ==> row[j] == InstanceId(i, j)
  {
    seq(count, j requires 0 <= j < count => InstanceId(i, j))
  }

  /** for i ... for j ..., over the first d dependencies. */
  function InstanceIds(p: Problem, d: nat): (ids: seq<InstanceId>)
    requires d <= |p.deps|
    ensures forall l :: 0 <= l < |ids| ==> IsInstance(p, ids[l].i, ids[l].j)
    ensures forall i: nat, j: nat :: i < d && IsInstance(p, i, j) ==> InstanceId(i, j) in ids
  {
    if d == 0 then []
    else
      var row := InstanceRow(d - 1, |p.deps[d - 1].instances|);
      assert forall j :: 0 <= j < |row| ==> row[j] in row;
      InstanceIds(p, d - 1) + row
  }

  function ShardRow(i: nat, j: nat, count: nat): (row: seq<ShardId>)
    ensures |row| == count && forall k :: 0 <= k < count ==> row[k] == ShardId(i, j, k)
  {
    seq(count, k requires 0 <= k < count => ShardId(i, j, k))
  }

  /** for i ... for j ... for k ... */
  function ShardIds(p: Problem, ids: seq<InstanceId>): (shards: seq<ShardId>)
    requires forall l :: 0 <= l < |ids| ==> IsInstance(p, ids[l].i, ids[l].j)
    ensures forall l :: 0 <= l < |shards| ==> IsShard(p, shards[l].i, shards[l].j, shards[l].k)
  {
    if ids == [] then []
    else
      var id := ids[0];
      assert IsInstance(p, id.i, id.j);
      ShardRow(id.i, id.j, |p.deps[id.i].instances[id.j].shards|) + ShardIds(p, ids[1..])
  }

  // ----- The sums in the rules -----

  /** sum_shards: how many shards of instance j of dependency i race node n has. */
  function Held(p: Problem, a: Placing, n: nat, i: nat, j: nat): int {
    if IsInstance(p, i, j)
    then Count(Range(|p.deps[i].instances[j].shards|), (k: nat) => a(RaceShard(n, i, j, k)))
    else 0
  }

  function HeldInstances(p: Problem, a: Placing, n: nat, i: nat): int
    requires i < |p.deps|
  {
    Count(Range(|p.deps[i].instances|), (j: nat) => Held(p, a, n, i, j) > 0)
  }

  function Holders(p: Problem, a: Placing, i: nat, j: nat): int {
    Count(Range(|p.rnodes|), (n: nat) => Held(p, a, n, i, j) > 0)
  }

  function OnRaceNodes(p: Problem, a: Placing, i: nat, j: nat, k: nat): int {
    Count(Range(|p.rnodes|), (n: nat) => a(RaceShard(n, i, j, k)))
  }

  function OnServers(p: Problem, a: Placing, i: nat, j: nat, k: nat): int {
    Count(Range(|p.snodes|), (n: nat) => a(ServerShard(n, i, j, k)))
  }

  function ShardSize(p: Problem, i: nat, j: nat): int {
    if IsInstance(p, i, j) then p.deps[i].instances[j].shardSize else 0
  }

  function BlobSize(p: Problem, i: nat, j: nat): int {
    if IsInstance(p, i, j) then p.deps[i].instances[j].blobSize else 0
  }

  function Threshold(p: Problem, i: nat, j: nat): int {
    if IsInstance(p, i, j) then p.deps[i].instances[j].n else 0
  }

  function ServerShardBytes(p: Problem, a: Placing): (nat, ShardId) -> int {
    (n: nat, s: ShardId) => ShardSize(p, s.i, s.j) * One(a(ServerShard(n, s.i, s.j, s.k)))
  }

  function ServerBlobBytes(p: Problem, a: Placing): (nat, InstanceId) -> int {
    (n: nat, id: InstanceId) => if a(ServerBlob(n, id.i, id.j)) then BlobSize(p, id.i, id.j) else 0
  }

  function AllInstances(p: Problem): seq<InstanceId> {
    InstanceIds(p, |p.deps|)
  }

  function AllShards(p: Problem): seq<ShardId> {
    ShardIds(p, AllInstances(p))
  }

  /** shard_sizes of server n: every shard, then every blob. */
  function ServerLoad(p: Problem, a: Placing, n: nat): int {
    RowSum(AllShards(p), ServerShardBytes(p, a))(n) + RowSum(AllInstances(p), ServerBlobBytes(p, a))(n)
  }

  /** How many instances of dependency i race node n can be served with. */
  function Usable(p: Problem, a: Placing, n: nat, i: nat): int {
    if i < |p.deps|
    then Count(Range(|p.deps[i].instances|), (j: nat) => Held(p, a, n, i, j) >= Threshold(p, i, j))
    else 0
  }

  /** The first d dependencies of a list that are of a type. */
  function OfType(deps: seq<Dep>, deptype: string, d: nat): (ds: seq<nat>)
    requires d <= |deps|
    ensures forall l :: 0 <= l < |ds| ==> ds[l] < d && deps[ds[l]].deptype == deptype
    ensures forall i :: 0 <= i < d && deps[i].deptype == deptype ==> i in ds
    ensures forall l, r :: 0 <= l < r < |ds| ==> ds[l] < ds[r]
  {
    if d == 0 then []
    else OfType(deps, deptype, d - 1) + (if deps[d - 1].deptype == deptype then [d - 1] else [])
  }

  function UsableOfType(p: Problem, a: Placing, n: nat, deptype: string): int {
    Count(OfType(p.deps, deptype, |p.deps|), (i: nat) => Usable(p, a, n, i) > 0)
  }

  // ----- The constraints -----

  datatype Constraint =
    | ShardServed(n: nat, i: nat, j: nat, k: nat)
    | BlobServed(n: nat, i: nat, j: nat)
    | BetweenNAndM(n: nat, i: nat, j: nat)
    | BlobIfShards(n: nat, i: nat, j: nat)
    | BlobMatches(n: nat, i: nat, j: nat)
    | Capacity(n: nat)
    | OneInstance(n: nat, i: nat)
    | OneRaceNode(i: nat, j: nat)
    | ShardOnOneRaceNode(i: nat, j: nat, k: nat)
    | ShardOnOneServer(i: nat, j: nat, k: nat)
    | ServersMatch(i: nat, j: nat, k: nat)
    | OneOfType(n: nat, deptype: string)

  /** The constraints that the rules are about, for a problem. */
  predicate InRange(p: Problem, c: Constraint) {
    match c
    case ShardServed(n, i, j, k) => n < |p.rnodes| && IsShard(p, i, j, k)
    case BlobServed(n, i, j) => n < |p.rnodes| && IsInstance(p, i, j)
    case BetweenNAndM(n, i, j) => n < |p.rnodes| && IsInstance(p, i, j)
    case BlobIfShards(n, i, j) => n < |p.rnodes| && IsInstance(p, i, j)
    case BlobMatches(n, i, j) => n < |p.rnodes| && IsInstance(p, i, j)
    case Capacity(n) => n < |p.snodes|
    case OneInstance(n, i) => n < |p.rnodes| && i < |p.deps|
    case OneRaceNode(i, j) => IsInstance(p, i, j)
    case ShardOnOneRaceNode(i, j, k) => IsShard(p, i, j, k)
    case ShardOnOneServer(i, j, k) => IsShard(p, i, j, k)
    case ServersMatch(i, j, k) => IsShard(p, i, j, k)
    case OneOfType(n, deptype) => n < |p.rnodes| && exists i :: 0 <= i < |p.deps| && p.deps[i].deptype == deptype
  }

  /** What a constraint says. */
  predicate Holds(p: Problem, a: Placing, c: Constraint)
    requires InRange(p, c)
  {
    match c
    case ShardServed(n, i, j, k) =>
      a(RaceShard(n, i, j, k)) ==> exists sn: nat :: sn < |p.snodes| && a(ServerShard(sn, i, j, k))
    case BlobServed(n, i, j) =>
      a(RaceBlob(n, i, j)) ==> exists sn: nat :: sn < |p.snodes| && a(ServerBlob(sn, i, j))
    case BetweenNAndM(n, i, j) =>
      var held := Held(p, a, n, i, j);
      held == 0 || p.deps[i].instances[j].n <= held <= p.deps[i].instances[j].m
    case BlobIfShards(n, i, j) =>
      Held(p, a, n, i, j) == 0 || exists sn: nat :: sn < |p.snodes| && a(RaceBlob(n, i, j)) && a(ServerBlob(sn, i, j))
    case BlobMatches(n, i, j) =>
      if Held(p, a, n, i, j) > 0 then a(RaceBlob(n, i, j)) else !a(RaceBlob(n, i, j))
    case Capacity(n) => ServerLoad(p, a, n) <= p.snodes[n].capacity
    case OneInstance(n, i) => HeldInstances(p, a, n, i) <= 1
    case OneRaceNode(i, j) => Holders(p, a, i, j) <= 1
    case ShardOnOneRaceNode(i, j, k) => OnRaceNodes(p, a, i, j, k) <= 1
    case ShardOnOneServer(i, j, k) => OnServers(p, a, i, j, k) <= 1
    case ServersMatch(i, j, k) => OnServers(p, a, i, j, k) == OnRaceNodes(p, a, i, j, k)
    case OneOfType(n, deptype) => UsableOfType(p, a, n, deptype) == 1
  }

  /** The assignment satisfies every rule. */
  ghost predicate Satisfies(p: Problem, a: Placing) {
    forall c :: InRange(p, c) ==> Holds(p, a, c)
  }

  // ----- What the sums count -----

  lemma HeldCounts(p: Problem, a: Placing, n: nat, i: nat, j: nat)
    requires IsInstance(p, i, j)
    ensures 0 <= Held(p, a, n, i, j)
    ensures 0 < Held(p, a, n, i, j) <==> exists k: nat :: IsShard(p, i, j, k) && a(RaceShard(n, i, j, k))
  {
    var P := (k: nat) => a(RaceShard(n, i, j, k));
    assert forall k: nat :: P(k) == a(RaceShard(n, i, j, k));
    RangeWitness(|p.deps[i].instances[j].shards|, P);
  }

  lemma HoldersUnique(p: Problem, a: Placing, i: nat, j: nat)
    ensures Holders(p, a, i, j) <= 1 <==>
      forall n: nat, n': nat :: n < n' < |p.rnodes| ==> !(Held(p, a, n, i, j) > 0 && Held(p, a, n', i, j) > 0)
  {
    hide Held;
    var P := (n: nat) => Held(p, a, n, i, j) > 0;
    assert forall n: nat :: P(n) == (Held(p, a, n, i, j) > 0);
    RangeUnique(|p.rnodes|, P);
  }

  lemma HeldInstancesUnique(p: Problem, a: Placing, n: nat, i: nat)
    requires i < |p.deps|
    ensures HeldInstances(p, a, n, i) <= 1 <==>
      forall j: nat, j': nat :: j < j' < |p.deps[i].instances| ==> !(Held(p, a, n, i, j) > 0 && Held(p, a, n, i, j') > 0)
  {
    hide Held;
    var P := (j: nat) => Held(p, a, n, i, j) > 0;
    assert forall j: nat :: P(j) == (Held(p, a, n, i, j) > 0);
    RangeUnique(|p.deps[i].instances|, P);
  }

  lemma UsableCounts(p: Problem, a: Placing, n: nat, i: nat)
    requires i < |p.deps|
    ensures Usable(p, a, n, i) > 0 <==>
      exists j: nat :: IsInstance(p, i, j) && Held(p, a, n, i, j) >= Threshold(p, i, j)
  {
    hide Held, Threshold;
    var P := (j: nat) => Held(p, a, n, i, j) >= Threshold(p, i, j);
    assert forall j: nat :: P(j) == (Held(p, a, n, i, j) >= Threshold(p, i, j));
    RangeWitness(|p.deps[i].instances|, P);
  }

  lemma UsableOfTypeWitness(p: Problem, a: Placing, n: nat, deptype: string)
    ensures UsableOfType(p, a, n, deptype) >= 1 <==>
      exists i: nat :: i < |p.deps| && p.deps[i].deptype == deptype && Usable(p, a, n, i) > 0
  {
    hide Usable;
    CountWitness(OfType(p.deps, deptype, |p.deps|), (i: nat) => Usable(p, a, n, i) > 0);
  }

  ghost predicate UsableOnce(p: Problem, a: Placing, n: nat, deptype: string) {
    forall i: nat, i': nat :: i < i' < |p.deps| && p.deps[i].deptype == deptype == p.deps[i'].deptype
                              ==> !(Usable(p, a, n, i) > 0 && Usable(p, a, n, i') > 0)
  }

  lemma UsableOfTypeUnique(p: Problem, a: Placing, n: nat, deptype: string)
    ensures UsableOfType(p, a, n, deptype) <= 1 <==> UsableOnce(p, a, n, deptype)
  {
    hide Usable, Count, UsableOnce;
    var xs := OfType(p.deps, deptype, |p.deps|);
    var P := (i: nat) => Usable(p, a, n, i) > 0;
    CountUnique(xs, P);
    if UsableOnce(p, a, n, deptype) {
      forall l, l' | 0 <= l < l' < |xs| ensures !(P(xs[l]) && P(xs[l'])) {
        UsableOnceAt(p, a, n, deptype, xs[l], xs[l']);
      }
    } else {
      var i, i' := UsableTwice(p, a, n, deptype);
      var l :| 0 <= l < |xs| && xs[l] == i;
      var l' :| 0 <= l' < |xs| && xs[l'] == i';
      assert P(xs[l]) && P(xs[l']);
    }
  }

  lemma UsableOnceAt(p: Problem, a: Placing, n: nat, deptype: string, i: nat, i': nat)
    requires UsableOnce(p, a, n, deptype)
    requires i < i' < |p.deps| && p.deps[i].deptype == deptype == p.deps[i'].deptype
    ensures !(Usable(p, a, n, i) > 0 && Usable(p, a, n, i') > 0)
  {}

  lemma UsableTwice(p: Problem, a: Placing, n: nat, deptype: string) returns (i: nat, i': nat)
    requires !UsableOnce(p, a, n, deptype)
    ensures i < i' < |p.deps| && p.deps[i].deptype == deptype == p.deps[i'].deptype
    ensures Usable(p, a, n, i) > 0 && Usable(p, a, n, i') > 0
  {
    hide Usable;
    i, i' :| i < i' < |p.deps| && p.deps[i].deptype == deptype == p.deps[i'].deptype
             && Usable(p, a, n, i) > 0 && Usable(p, a, n, i') > 0;
  }

  // ----- The sums over lists, as nested sums -----

  /** Every instance is listed, exactly once. */
  lemma {:induction false} InstancesOnce(p: Problem, d: nat)
    requires d <= |p.deps|
    ensures Distinct(InstanceIds(p, d))
    ensures forall i: nat, j: nat :: i < d && IsInstance(p, i, j) <==> InstanceId(i, j) in InstanceIds(p, d)
    ensures forall l :: 0 <= l < |InstanceIds(p, d)| ==> InstanceIds(p, d)[l].i < d
  {
    if d > 0 {
      InstancesOnce(p, d - 1);
    }
  }

  /** The shards of the listed instances are listed, exactly once if these are. */
  lemma {:induction false} ShardIdsOnce(p: Problem, ids: seq<InstanceId>)
    requires forall l :: 0 <= l < |ids| ==> IsInstance(p, ids[l].i, ids[l].j)
    requires Distinct(ids)
    ensures Distinct(ShardIds(p, ids))
    ensures forall i: nat, j: nat, k: nat ::
              IsShard(p, i, j, k) && InstanceId(i, j) in ids <==> ShardId(i, j, k) in ShardIds(p, ids)
  {
    if ids != [] {
      var id, rest := ids[0], ids[1..];
      var row := ShardRow(id.i, id.j, |p.deps[id.i].instances[id.j].shards|);
      ShardIdsOnce(p, rest);
      assert ids == [id] + rest && id !in rest;
      assert forall l :: 0 <= l < |ShardIds(p, rest)| ==>
        var s := ShardIds(p, rest)[l]; s in ShardIds(p, rest) && InstanceId(s.i, s.j) in rest;
      forall i: nat, j: nat, k: nat
        ensures IsShard(p, i, j, k) && InstanceId(i, j) in ids <==> ShardId(i, j, k) in ShardIds(p, ids)
      {
        if InstanceId(i, j) == id && IsShard(p, i, j, k) {
          assert row[k] == ShardId(i, j, k);
        }
      }
    }
  }

  /** Every (i, j) and every (i, j, k) of the problem occurs exactly once in the lists that are summed over. */
  lemma AllOnce(p: Problem)
    ensures Distinct(AllInstances(p)) && Distinct(AllShards(p))
    ensures forall i: nat, j: nat :: i < |p.deps| && j < |p.deps[i].instances| <==> InstanceId(i, j) in AllInstances(p)
    ensures forall i: nat, j: nat, k: nat ::
              i < |p.deps| && j < |p.deps[i].instances| && k < |p.deps[i].instances[j].shards|
              <==> ShardId(i, j, k) in AllShards(p)
  {
    InstancesOnce(p, |p.deps|);
    ShardIdsOnce(p, AllInstances(p));
  }

  function RowOf(g: (nat, nat) -> int, i: nat): nat -> int {
    (j: nat) => g(i, j)
  }

  /** g(i, 0) + g(i, 1) + ... over the instances of the first d dependencies, one after the other. */
  function InstanceTotal(p: Problem, g: (nat, nat) -> int, d: nat): int
    requires d <= |p.deps|
  {
    if d == 0 then 0 else InstanceTotal(p, g, d - 1) + SumTo(|p.deps[d - 1].instances|, RowOf(g, d - 1))
  }

  /** The shards of instance j of dependency i that race node n has. */
  function RaceShards(p: Problem, a: Placing, n: nat, i: nat, j: nat): set<nat>
    requires i < |p.deps| && j < |p.deps[i].instances|
  {
    set k: nat | k < |p.deps[i].instances[j].shards| && a(RaceShard(n, i, j, k))
  }

  /** The shards of instance j of dependency i that server n has. */
  function ServerShards(p: Problem, a: Placing, n: nat, i: nat, j: nat): set<nat>
    requires i < |p.deps| && j < |p.deps[i].instances|
  {
    set k: nat | k < |p.deps[i].instances[j].shards| && a(ServerShard(n, i, j, k))
  }

  /** What server n stores of an instance, in bytes. */
  function StoredBytes(p: Problem, a: Placing, n: nat): (nat, nat) -> int {
    (i: nat, j: nat) =>
      if i < |p.deps| && j < |p.deps[i].instances| then
        p.deps[i].instances[j].shardSize * |ServerShards(p, a, n, i, j)|
        + if a(ServerBlob(n, i, j)) then p.deps[i].instances[j].blobSize else 0
      else 0
  }

  /** What race node n holds of an instance's shards, in bytes. */
  function HeldBytes(p: Problem, a: Placing, n: nat): (nat, nat) -> int {
    (i: nat, j: nat) =>
      if i < |p.deps| && j < |p.deps[i].instances| then
        p.deps[i].instances[j].shardSize * |RaceShards(p, a, n, i, j)|
      else 0
  }

  /** The blob of an instance, if some race node has shards of it. */
  function NeededBlob(p: Problem, a: Placing): (nat, nat) -> int {
    (i: nat, j: nat) =>
      if i < |p.deps| && j < |p.deps[i].instances| && exists n: nat :: n < |p.rnodes| && RaceShards(p, a, n, i, j) != {}
      then p.deps[i].instances[j].blobSize
      else 0
  }

  lemma {:induction false} SumOverRow(i: nat, count: nat, f: InstanceId -> int, g: nat -> int)
    requires forall j: nat :: j < count ==> f(InstanceId(i, j)) == g(j)
    ensures SumOver(InstanceRow(i, count), f) == SumTo(count, g)
  {
    if count > 0 {
      SumOverRow(i, count - 1, f, g);
      assert InstanceRow(i, count) == InstanceRow(i, count - 1) + [InstanceId(i, count - 1)];
      SumAppend(InstanceRow(i, count - 1), [InstanceId(i, count - 1)], f);
      SumOfOne(InstanceId(i, count - 1), f);
    }
  }

  /** Summing over the list of instances is summing by dependencies. */
  lemma {:induction false} InstanceSum(p: Problem, f: InstanceId -> int, g: (nat, nat) -> int, d: nat)
    requires d <= |p.deps|
    requires forall i: nat, j: nat :: IsInstance(p, i, j) ==> f(InstanceId(i, j)) == g(i, j)
    ensures SumOver(InstanceIds(p, d), f) == InstanceTotal(p, g, d)
  {
    hide SumOver, SumTo, RowOf;
    if d > 0 {
      InstanceSum(p, f, g, d - 1);
      var count := |p.deps[d - 1].instances|;
      SumAppend(InstanceIds(p, d - 1), InstanceRow(d - 1, count), f);
      RowSame(p, f, g, d - 1);
    } else {
      SumOfNone(f);
    }
  }

  lemma SumOfNone(f: InstanceId -> int)
    ensures SumOver([], f) == 0
  {}

  lemma RowSame(p: Problem, f: InstanceId -> int, g: (nat, nat) -> int, i: nat)
    requires i < |p.deps|
    requires forall j: nat :: IsInstance(p, i, j) ==> f(InstanceId(i, j)) == g(i, j)
    ensures SumOver(InstanceRow(i, |p.deps[i].instances|), f) == SumTo(|p.deps[i].instances|, RowOf(g, i))
  {
    SumOverRow(i, |p.deps[i].instances|, f, RowOf(g, i));
  }

  /** Summing over the list of shards is summing over the instances what their shards sum up to. */
  lemma {:induction false} ShardSum(p: Problem, ids: seq<InstanceId>, f: ShardId -> int, g: InstanceId -> int)
    requires forall l :: 0 <= l < |ids| ==> IsInstance(p, ids[l].i, ids[l].j)
    requires forall i: nat, j: nat :: IsInstance(p, i, j) ==>
               SumOver(ShardRow(i, j, |p.deps[i].instances[j].shards|), f) == g(InstanceId(i, j))
    ensures SumOver(ShardIds(p, ids), f) == SumOver(ids, g)
  {
    if ids != [] {
      var id := ids[0];
      ShardSum(p, ids[1..], f, g);
      assert id == InstanceId(id.i, id.j) && IsInstance(p, id.i, id.j);
      SumAppend(ShardRow(id.i, id.j, |p.deps[id.i].instances[id.j].shards|), ShardIds(p, ids[1..]), f);
    }
  }

  /** The shards of one instance weigh their size times their number. */
  lemma {:induction false} RowWeight(i: nat, j: nat, count: nat, size: int, f: ShardId -> int, P: nat -> bool)
    requires forall k: nat :: k < count ==> f(ShardId(i, j, k)) == size * One(P(k))
    ensures SumOver(ShardRow(i, j, count), f) == size * |set k: nat | k < count && P(k)|
  {
    if count == 0 {
      assert (set k: nat | k < count && P(k)) == {};
    } else {
      var k: nat := count - 1;
      RowWeight(i, j, k, size, f, P);
      OneMoreCard(k, P);
      assert ShardRow(i, j, count) == ShardRow(i, j, k) + [ShardId(i, j, k)];
      SumAppend(ShardRow(i, j, k), [ShardId(i, j, k)], f);
      SumOfOne(ShardId(i, j, k), f);
      Distribute(size, |set l: nat | l < k && P(l)|, One(P(k)));
    }
  }

  lemma Distribute(c: int, x: int, y: int)
    ensures c * (x + y) == c * x + c * y
  {}

  lemma HeldIsCard(p: Problem, a: Placing, n: nat, i: nat, j: nat)
    requires IsInstance(p, i, j)
    ensures Held(p, a, n, i, j) == |RaceShards(p, a, n, i, j)|
  {
    var P := (k: nat) => a(RaceShard(n, i, j, k));
    CountIsCard(|p.deps[i].instances[j].shards|, P);
    assert RaceShards(p, a, n, i, j) == set k: nat | k < |p.deps[i].instances[j].shards| && P(k);
  }

  lemma ServerRowBytes(p: Problem, a: Placing, n: nat, i: nat, j: nat, f: ShardId -> int)
    requires IsInstance(p, i, j) && forall s: ShardId :: f(s) == ServerShardBytes(p, a)(n, s)
    ensures SumOver(ShardRow(i, j, |p.deps[i].instances[j].shards|), f)
         == p.deps[i].instances[j].shardSize * |ServerShards(p, a, n, i, j)|
  {
    var P := (k: nat) => a(ServerShard(n, i, j, k));
    var count := |p.deps[i].instances[j].shards|;
    RowWeight(i, j, count, ShardSize(p, i, j), f, P);
    assert ServerShards(p, a, n, i, j) == set k: nat | k < count && P(k);
  }

  lemma RaceRowBytes(p: Problem, a: Placing, n: nat, i: nat, j: nat, f: ShardId -> int)
    requires IsInstance(p, i, j) && forall s: ShardId :: f(s) == RaceShardBytes(p, a)(n, s)
    ensures SumOver(ShardRow(i, j, |p.deps[i].instances[j].shards|), f)
         == p.deps[i].instances[j].shardSize * |RaceShards(p, a, n, i, j)|
  {
    var P := (k: nat) => a(RaceShard(n, i, j, k));
    var count := |p.deps[i].instances[j].shards|;
    RowWeight(i, j, count, ShardSize(p, i, j), f, P);
    assert RaceShards(p, a, n, i, j) == set k: nat | k < count && P(k);
  }

  lemma StoredBytesAt(p: Problem, a: Placing, n: nat, i: nat, j: nat)
    requires i < |p.deps| && j < |p.deps[i].instances|
    ensures StoredBytes(p, a, n)(i, j)
         == p.deps[i].instances[j].shardSize * |ServerShards(p, a, n, i, j)|
            + if a(ServerBlob(n, i, j)) then p.deps[i].instances[j].blobSize else 0
  {}

  lemma HeldBytesAt(p: Problem, a: Placing, n: nat, i: nat, j: nat)
    requires i < |p.deps| && j < |p.deps[i].instances|
    ensures HeldBytes(p, a, n)(i, j) == p.deps[i].instances[j].shardSize * |RaceShards(p, a, n, i, j)|
  {}

  /** The load of a server is the sum of what it stores of every instance. */
  lemma LoadIs(p: Problem, a: Placing, n: nat)
    ensures ServerLoad(p, a, n) == InstanceTotal(p, StoredBytes(p, a, n), |p.deps|)
  {
    hide ServerShardBytes, SumOver, InstanceTotal, ShardIds, InstanceIds, RowSum;
    var shardBytes := (s: ShardId) => ServerShardBytes(p, a)(n, s);
    var blobBytes := (id: InstanceId) => ServerBlobBytes(p, a)(n, id);
    var instanceBytes := (id: InstanceId) =>
      if IsInstance(p, id.i, id.j) then p.deps[id.i].instances[id.j].shardSize * |ServerShards(p, a, n, id.i, id.j)| else 0;
    var stored := (id: InstanceId) => StoredBytes(p, a, n)(id.i, id.j);
    RowSumApplied(AllShards(p), ServerShardBytes(p, a), n, shardBytes);
    RowSumApplied(AllInstances(p), ServerBlobBytes(p, a), n, blobBytes);
    forall i: nat, j: nat | IsInstance(p, i, j)
      ensures SumOver(ShardRow(i, j, |p.deps[i].instances[j].shards|), shardBytes) == instanceBytes(InstanceId(i, j))
    {
      ServerRowBytes(p, a, n, i, j, shardBytes);
    }
    ShardSum(p, AllInstances(p), shardBytes, instanceBytes);
    forall l | 0 <= l < |AllInstances(p)|
      ensures stored(AllInstances(p)[l]) == instanceBytes(AllInstances(p)[l]) + blobBytes(AllInstances(p)[l])
    {
      StoredBytesAt(p, a, n, AllInstances(p)[l].i, AllInstances(p)[l].j);
    }
    SumPlus(AllInstances(p), instanceBytes, blobBytes, stored);
    InstanceSum(p, stored, StoredBytes(p, a, n), |p.deps|);
  }

  // ----- One instance of every type per race node -----

  ghost predicate PositiveThresholds(p: Problem) {
    forall i: nat, j: nat :: IsInstance(p, i, j) ==> Threshold(p, i, j) >= 1
  }

  ghost predicate TypeThresholds(p: Problem, deptype: string) {
    forall i: nat, j: nat :: IsInstance(p, i, j) && p.deps[i].deptype == deptype ==> Threshold(p, i, j) >= 1
  }

  /** Race node n has shards of an instance of the type. */
  predicate Serves(p: Problem, a: Placing, n: nat, deptype: string, id: InstanceId) {
    IsInstance(p, id.i, id.j) && p.deps[id.i].deptype == deptype && Held(p, a, n, id.i, id.j) > 0
  }

  predicate HasType(p: Problem, deptype: string) {
    exists i :: 0 <= i < |p.deps| && p.deps[i].deptype == deptype
  }

  /** Every race node has exactly one instance of every type, and enough shards of it. */
  lemma OneInstanceOfEveryType(p: Problem, a: Placing, n: nat, deptype: string) returns (id: InstanceId)
    requires Satisfies(p, a) && TypeThresholds(p, deptype)
    requires n < |p.rnodes| && HasType(p, deptype)
    ensures Serves(p, a, n, deptype, id)
    ensures Held(p, a, n, id.i, id.j) >= Threshold(p, id.i, id.j)
    ensures forall other :: Serves(p, a, n, deptype, other) ==> other == id
  {
    hide Held, Usable, UsableOfType, HeldInstances;
    assert Holds(p, a, OneOfType(n, deptype));
    UsableOfTypeWitness(p, a, n, deptype);
    UsableOfTypeUnique(p, a, n, deptype);
    var i: nat :| i < |p.deps| && p.deps[i].deptype == deptype && Usable(p, a, n, i) > 0;
    UsableCounts(p, a, n, i);
    var j: nat :| IsInstance(p, i, j) && Held(p, a, n, i, j) >= Threshold(p, i, j);
    id := InstanceId(i, j);
    forall other | Serves(p, a, n, deptype, other) ensures other == id {
      assert Holds(p, a, BetweenNAndM(n, other.i, other.j));
      UsableCounts(p, a, n, other.i);
      assert Holds(p, a, OneInstance(n, i));
      HeldInstancesUnique(p, a, n, i);
    }
  }

  /** How many instances there are of a type. */
  function InstancesOfType(p: Problem, deptype: string, d: nat): (ids: seq<InstanceId>)
    requires d <= |p.deps|
    ensures forall i: nat, j: nat :: i < d && IsInstance(p, i, j) && p.deps[i].deptype == deptype ==> InstanceId(i, j) in ids
  {
    if d == 0 then []
    else
      var row := InstanceRow(d - 1, |p.deps[d - 1].instances|);
      assert forall j :: 0 <= j < |row| ==> row[j] in row;
      InstancesOfType(p, deptype, d - 1) + (if p.deps[d - 1].deptype == deptype then row else [])
  }

  /**
   Each race node has an instance of its own: so there are at least as many instances
   of every type as race nodes.
   */
  lemma EnoughInstances(p: Problem, a: Placing, deptype: string) returns (f: seq<InstanceId>)
    requires Satisfies(p, a) && TypeThresholds(p, deptype) && HasType(p, deptype)
    ensures |f| == |p.rnodes| && forall n: nat :: n < |f| ==> Serves(p, a, n, deptype, f[n])
    ensures forall n: nat, n': nat :: n < n' < |f| ==> f[n] != f[n']
    ensures |p.rnodes| <= |InstancesOfType(p, deptype, |p.deps|)|
  {
    hide Held, Holders;
    f := [];
    for n := 0 to |p.rnodes|
      invariant |f| == n && forall l: nat :: l < n ==> Serves(p, a, l, deptype, f[l])
    {
      var id := OneInstanceOfEveryType(p, a, n, deptype);
      f := f + [id];
    }
    forall n: nat, n': nat | n < n' < |f| ensures f[n] != f[n'] {
      assert Serves(p, a, n, deptype, f[n]) && Serves(p, a, n', deptype, f[n']);
      assert Holds(p, a, OneRaceNode(f[n].i, f[n].j));
      HoldersUnique(p, a, f[n].i, f[n].j);
    }
    forall n | 0 <= n < |f| ensures f[n] in InstancesOfType(p, deptype, |p.deps|) {
      assert Serves(p, a, n, deptype, f[n]);
    }
    Pigeonhole(f, InstancesOfType(p, deptype, |p.deps|));
  }

  // ----- Capacity -----

  function RaceShardBytes(p: Problem, a: Placing): (nat, ShardId) -> int {
    (n: nat, s: ShardId) => ShardSize(p, s.i, s.j) * One(a(RaceShard(n, s.i, s.j, s.k)))
  }

  /** The bytes of all shards assigned to race nodes. */
  function BytesOnRaceNodes(p: Problem, a: Placing): int {
    SumOver(Range(|p.rnodes|), RowSum(AllShards(p), RaceShardBytes(p, a)))
  }

  /** Some race node has shards of the instance. */
  predicate Assigned(p: Problem, a: Placing, id: InstanceId) {
    exists n: nat :: n < |p.rnodes| && Held(p, a, n, id.i, id.j) > 0
  }

  function AssignedBlob(p: Problem, a: Placing): InstanceId -> int {
    (id: InstanceId) => if Assigned(p, a, id) then BlobSize(p, id.i, id.j) else 0
  }

  /** The bytes of one blob for every assigned instance. */
  function BytesOfBlobs(p: Problem, a: Placing): int {
    SumOver(AllInstances(p), AssignedBlob(p, a))
  }

  function CapacityOf(p: Problem): nat -> int {
    (n: nat) => if n < |p.snodes| then p.snodes[n].capacity else 0
  }

  function TotalCapacity(p: Problem): int {
    SumOver(Range(|p.snodes|), CapacityOf(p))
  }

  /** A shard weighs the same on all race nodes together as on all servers together. */
  lemma ShardBalanced(p: Problem, a: Placing, s: ShardId)
    requires Satisfies(p, a) && IsShard(p, s.i, s.j, s.k)
    ensures ColumnSum(Range(|p.rnodes|), RaceShardBytes(p, a))(s) == ColumnSum(Range(|p.snodes|), ServerShardBytes(p, a))(s)
  {
    assert OnServers(p, a, s.i, s.j, s.k) == OnRaceNodes(p, a, s.i, s.j, s.k) by {
      assert Holds(p, a, ServersMatch(s.i, s.j, s.k));
    }
    hide Satisfies, ColumnSum, ShardSize, Count;
    var size := ShardSize(p, s.i, s.j);
    var onRace := (n: nat) => a(RaceShard(n, s.i, s.j, s.k));
    var onServer := (n: nat) => a(ServerShard(n, s.i, s.j, s.k));
    ColumnCounts(Range(|p.rnodes|), RaceShardBytes(p, a), s, size, onRace);
    ColumnCounts(Range(|p.snodes|), ServerShardBytes(p, a), s, size, onServer);
  }

  /** An assigned instance has its blob on some server. */
  lemma BlobStored(p: Problem, a: Placing, id: InstanceId)
    requires Satisfies(p, a) && IsInstance(p, id.i, id.j) && BlobSize(p, id.i, id.j) >= 0
    ensures AssignedBlob(p, a)(id) <= ColumnSum(Range(|p.snodes|), ServerBlobBytes(p, a))(id)
  {
    hide ColumnSum, BlobSize, Count, Held;
    var size := BlobSize(p, id.i, id.j);
    var stored := (n: nat) => a(ServerBlob(n, id.i, id.j));
    ColumnCounts(Range(|p.snodes|), ServerBlobBytes(p, a), id, size, stored);
    RangeWitness(|p.snodes|, stored);
    AtLeastOnce(size, Count(Range(|p.snodes|), stored));
    if Assigned(p, a, id) {
      var n: nat :| n < |p.rnodes| && Held(p, a, n, id.i, id.j) > 0;
      assert Holds(p, a, BlobIfShards(n, id.i, id.j));
      var sn: nat :| sn < |p.snodes| && a(ServerBlob(sn, id.i, id.j));
      assert stored(sn);
    }
  }

  lemma AtLeastOnce(size: int, count: int)
    requires size >= 0 && count >= 0
    ensures size * count >= 0 && (count >= 1 ==> size * count >= size)
  {}

  lemma ListedBytesFit(p: Problem, a: Placing)
    requires Satisfies(p, a)
    requires forall i: nat, j: nat :: BlobSize(p, i, j) >= 0
    ensures BytesOnRaceNodes(p, a) + BytesOfBlobs(p, a) <= TotalCapacity(p)
  {
    hide InstanceIds, ShardIds, RowSum, ColumnSum, RaceShardBytes, ServerShardBytes, ServerBlobBytes, AssignedBlob, Holds, SumOver;
    var races, servers := Range(|p.rnodes|), Range(|p.snodes|);
    var shards, ids := AllShards(p), AllInstances(p);
    var r, s, b := RaceShardBytes(p, a), ServerShardBytes(p, a), ServerBlobBytes(p, a);
    DoubleCounting(races, shards, r);
    DoubleCounting(servers, shards, s);
    DoubleCounting(servers, ids, b);
    forall l | 0 <= l < |shards| ensures ColumnSum(races, r)(shards[l]) == ColumnSum(servers, s)(shards[l]) {
      ShardBalanced(p, a, shards[l]);
    }
    SumMonotone(shards, ColumnSum(races, r), ColumnSum(servers, s));
    forall l | 0 <= l < |ids| ensures AssignedBlob(p, a)(ids[l]) <= ColumnSum(servers, b)(ids[l]) {
      BlobStored(p, a, ids[l]);
    }
    SumMonotone(ids, AssignedBlob(p, a), ColumnSum(servers, b));
    var load := (n: nat) => ServerLoad(p, a, n);
    forall n | 0 <= n < |servers|
      ensures load(servers[n]) == RowSum(shards, s)(servers[n]) + RowSum(ids, b)(servers[n])
      ensures load(servers[n]) <= CapacityOf(p)(servers[n])
    {
      LoadFits(p, a, n);
    }
    SumPlus(servers, RowSum(shards, s), RowSum(ids, b), load);
    SumMonotone(servers, load, CapacityOf(p));
  }

  /** The bytes of race node n's shards, summed by dependencies. */
  function HeldTotal(p: Problem, a: Placing): nat -> int {
    (n: nat) => InstanceTotal(p, HeldBytes(p, a, n), |p.deps|)
  }

  lemma RaceBytesAre(p: Problem, a: Placing, n: nat)
    ensures RowSum(AllShards(p), RaceShardBytes(p, a))(n) == HeldTotal(p, a)(n)
  {
    hide RaceShardBytes, SumOver, InstanceTotal, ShardIds, InstanceIds, RowSum;
    var shardBytes := (s: ShardId) => RaceShardBytes(p, a)(n, s);
    var held := (id: InstanceId) => HeldBytes(p, a, n)(id.i, id.j);
    RowSumApplied(AllShards(p), RaceShardBytes(p, a), n, shardBytes);
    forall i: nat, j: nat | IsInstance(p, i, j)
      ensures SumOver(ShardRow(i, j, |p.deps[i].instances[j].shards|), shardBytes) == held(InstanceId(i, j))
    {
      RaceRowBytes(p, a, n, i, j, shardBytes);
      HeldBytesAt(p, a, n, i, j);
      assert held(InstanceId(i, j)) == HeldBytes(p, a, n)(i, j);
    }
    ShardSum(p, AllInstances(p), shardBytes, held);
    InstanceSum(p, held, HeldBytes(p, a, n), |p.deps|);
  }

  lemma BlobsAre(p: Problem, a: Placing)
    ensures BytesOfBlobs(p, a) == InstanceTotal(p, NeededBlob(p, a), |p.deps|)
  {
    hide Held, InstanceIds, InstanceTotal, SumOver;
    forall i: nat, j: nat | IsInstance(p, i, j) ensures AssignedBlob(p, a)(InstanceId(i, j)) == NeededBlob(p, a)(i, j) {
      forall n: nat ensures Held(p, a, n, i, j) > 0 <==> RaceShards(p, a, n, i, j) != {} {
        HeldIsCard(p, a, n, i, j);
      }
    }
    InstanceSum(p, AssignedBlob(p, a), NeededBlob(p, a), |p.deps|);
  }

  /**
   What race nodes have of all instances, and one blob for every instance that some race
   node has shards of, is no more than what the servers have room for in all.
   */
  lemma CapacitySuffices(p: Problem, a: Placing)
    requires Satisfies(p, a)
    requires forall i: nat, j: nat :: i < |p.deps| && j < |p.deps[i].instances| ==> p.deps[i].instances[j].blobSize >= 0
    ensures SumTo(|p.rnodes|, HeldTotal(p, a)) + InstanceTotal(p, NeededBlob(p, a), |p.deps|) <= SumTo(|p.snodes|, CapacityOf(p))
  {
    ListedBytesFit(p, a);
    BlobsAre(p, a);
    hide RowSum, SumOver, SumTo, HeldTotal, AllShards, RaceShardBytes, InstanceTotal;
    SumOfRange(|p.snodes|, CapacityOf(p));
    SumOfRange(|p.rnodes|, HeldTotal(p, a));
    var races := Range(|p.rnodes|);
    forall n: nat ensures RowSum(AllShards(p), RaceShardBytes(p, a))(n) == HeldTotal(p, a)(n) {
      RaceBytesAre(p, a, n);
    }
    SumMonotone(races, HeldTotal(p, a), RowSum(AllShards(p), RaceShardBytes(p, a)));
  }

  lemma LoadFits(p: Problem, a: Placing, n: nat)
    requires Satisfies(p, a) && n < |p.snodes|
    ensures ServerLoad(p, a, n) <= p.snodes[n].capacity
  {
    hide ServerLoad;
    assert Holds(p, a, Capacity(n));
  }

  // ----- What the rules mean together -----

  ghost predicate UniqueInstance(p: Problem, a: Placing, n: nat, deptype: string) {
    exists id :: Serves(p, a, n, deptype, id) && forall other :: Serves(p, a, n, deptype, other) ==> other == id
  }

  ghost predicate OneHolder(p: Problem, a: Placing, i: nat, j: nat) {
    forall n: nat, n': nat :: n < n' < |p.rnodes| ==> !(Held(p, a, n, i, j) > 0 && Held(p, a, n', i, j) > 0)
  }

  ghost predicate OneServer(p: Problem, a: Placing, i: nat, j: nat, k: nat) {
    forall n: nat, n': nat :: n < n' < |p.snodes| ==> !(a(ServerShard(n, i, j, k)) && a(ServerShard(n', i, j, k)))
  }

  predicate OnSomeServer(p: Problem, a: Placing, i: nat, j: nat, k: nat) {
    exists n: nat :: n < |p.snodes| && a(ServerShard(n, i, j, k))
  }

  predicate OnSomeRaceNode(p: Problem, a: Placing, i: nat, j: nat, k: nat) {
    exists n: nat :: n < |p.rnodes| && a(RaceShard(n, i, j, k))
  }

  predicate BlobOnSomeServer(p: Problem, a: Placing, i: nat, j: nat) {
    exists n: nat :: n < |p.snodes| && a(ServerBlob(n, i, j))
  }

  /** What one race node and one instance owe each other. */
  predicate PairFits(p: Problem, a: Placing, n: nat, i: nat, j: nat)
    requires IsInstance(p, i, j)
  {
    var held := Held(p, a, n, i, j);
    && (held == 0 || p.deps[i].instances[j].n <= held <= p.deps[i].instances[j].m)
    && (a(RaceBlob(n, i, j)) <==> held > 0)
    && (a(RaceBlob(n, i, j)) ==> BlobOnSomeServer(p, a, i, j))
  }

  /**
   The twelve kinds of constraints in five conditions: every race node has exactly one
   instance of every type; no two race nodes share an instance; a race node has the blob
   of an instance exactly when it has between n and m of its shards, and some server then
   has the blob; a shard is on at most one server, and on one exactly when some race node
   has it; and no server is overfull.
   */
  ghost predicate Placed(p: Problem, a: Placing) {
    && (forall n: nat, deptype :: n < |p.rnodes| && HasType(p, deptype) ==> UniqueInstance(p, a, n, deptype))
    && (forall i: nat, j: nat :: IsInstance(p, i, j) ==> OneHolder(p, a, i, j))
    && (forall n: nat, i: nat, j: nat :: n < |p.rnodes| && IsInstance(p, i, j) ==> PairFits(p, a, n, i, j))
    && (forall i: nat, j: nat, k: nat :: IsShard(p, i, j, k) ==>
          OneServer(p, a, i, j, k) && (OnSomeServer(p, a, i, j, k) <==> OnSomeRaceNode(p, a, i, j, k)))
    && (forall n: nat :: n < |p.snodes| ==> InstanceTotal(p, StoredBytes(p, a, n), |p.deps|) <= p.snodes[n].capacity)
  }

  lemma OnServersCount(p: Problem, a: Placing, i: nat, j: nat, k: nat)
    ensures OnServers(p, a, i, j, k) >= 0
    ensures OnServers(p, a, i, j, k) > 0 <==> OnSomeServer(p, a, i, j, k)
    ensures OnServers(p, a, i, j, k) <= 1 <==> OneServer(p, a, i, j, k)
  {
    var P := (n: nat) => a(ServerShard(n, i, j, k));
    assert forall n: nat :: P(n) == a(ServerShard(n, i, j, k));
    RangeWitness(|p.snodes|, P);
    RangeUnique(|p.snodes|, P);
  }

  lemma OnRaceNodesCount(p: Problem, a: Placing, i: nat, j: nat, k: nat)
    ensures OnRaceNodes(p, a, i, j, k) >= 0
    ensures OnRaceNodes(p, a, i, j, k) > 0 <==> OnSomeRaceNode(p, a, i, j, k)
    ensures IsShard(p, i, j, k) && OneHolder(p, a, i, j) ==> OnRaceNodes(p, a, i, j, k) <= 1
  {
    var P := (n: nat) => a(RaceShard(n, i, j, k));
    assert forall n: nat :: P(n) == a(RaceShard(n, i, j, k));
    RangeWitness(|p.rnodes|, P);
    RangeUnique(|p.rnodes|, P);
    hide Held;
    if IsShard(p, i, j, k) && OneHolder(p, a, i, j) {
      forall n: nat, n': nat | n < n' < |p.rnodes| ensures !(P(n) && P(n')) {
        HeldCounts(p, a, n, i, j);
        HeldCounts(p, a, n', i, j);
      }
    }
  }

  lemma PairFitsIff(p: Problem, a: Placing, n: nat, i: nat, j: nat)
    requires n < |p.rnodes| && IsInstance(p, i, j)
    ensures PairFits(p, a, n, i, j) <==>
      && Holds(p, a, BlobServed(n, i, j)) && Holds(p, a, BetweenNAndM(n, i, j))
      && Holds(p, a, BlobIfShards(n, i, j)) && Holds(p, a, BlobMatches(n, i, j))
  {
    HeldCounts(p, a, n, i, j);
    hide Held;
  }

  lemma RulesPlace(p: Problem, a: Placing)
    requires Satisfies(p, a) && PositiveThresholds(p)
    ensures Placed(p, a)
  {
    hide PairFits, OneServer, OnSomeServer, OnSomeRaceNode, ServerLoad, Held, OnServers, OnRaceNodes;
    forall n: nat, deptype | n < |p.rnodes| && HasType(p, deptype) ensures UniqueInstance(p, a, n, deptype) {
      var id := OneInstanceOfEveryType(p, a, n, deptype);
    }
    forall i: nat, j: nat | IsInstance(p, i, j) ensures OneHolder(p, a, i, j) {
      assert Holds(p, a, OneRaceNode(i, j));
      HoldersUnique(p, a, i, j);
    }
    forall n: nat, i: nat, j: nat | n < |p.rnodes| && IsInstance(p, i, j) ensures PairFits(p, a, n, i, j) {
      PairFitsIff(p, a, n, i, j);
    }
    forall i: nat, j: nat, k: nat | IsShard(p, i, j, k)
      ensures OneServer(p, a, i, j, k) && (OnSomeServer(p, a, i, j, k) <==> OnSomeRaceNode(p, a, i, j, k))
    {
      assert Holds(p, a, ShardOnOneServer(i, j, k)) && Holds(p, a, ServersMatch(i, j, k));
      OnServersCount(p, a, i, j, k);
      OnRaceNodesCount(p, a, i, j, k);
    }
    forall n: nat | n < |p.snodes| ensures InstanceTotal(p, StoredBytes(p, a, n), |p.deps|) <= p.snodes[n].capacity {
      LoadFits(p, a, n);
      LoadIs(p, a, n);
    }
  }

  lemma ShardRulesHold(p: Problem, a: Placing, i: nat, j: nat, k: nat)
    requires Placed(p, a) && IsShard(p, i, j, k)
    ensures Holds(p, a, ShardOnOneRaceNode(i, j, k)) && Holds(p, a, ShardOnOneServer(i, j, k))
    ensures Holds(p, a, ServersMatch(i, j, k))
    ensures forall n: nat :: n < |p.rnodes| ==> Holds(p, a, ShardServed(n, i, j, k))
  {
    hide OneServer, OneHolder, OnServers, OnRaceNodes, PairFits, ServerLoad, UniqueInstance;
    OnServersCount(p, a, i, j, k);
    OnRaceNodesCount(p, a, i, j, k);
  }

  lemma TypeRulesHold(p: Problem, a: Placing, n: nat, deptype: string)
    requires PositiveThresholds(p) && n < |p.rnodes| && HasType(p, deptype)
    requires UniqueInstance(p, a, n, deptype)
    requires forall i: nat, j: nat :: IsInstance(p, i, j) ==> PairFits(p, a, n, i, j)
    ensures Holds(p, a, OneOfType(n, deptype))
    ensures forall i: nat :: i < |p.deps| && p.deps[i].deptype == deptype ==> Holds(p, a, OneInstance(n, i))
  {
    hide Held, Usable, UsableOfType, HeldInstances, BlobOnSomeServer;
    var id :| Serves(p, a, n, deptype, id) && forall other :: Serves(p, a, n, deptype, other) ==> other == id;
    UsableCounts(p, a, n, id.i);
    UsableOfTypeWitness(p, a, n, deptype);
    forall i: nat | i < |p.deps| && p.deps[i].deptype == deptype
      ensures Usable(p, a, n, i) > 0 ==> i == id.i
      ensures Holds(p, a, OneInstance(n, i))
    {
      UsableCounts(p, a, n, i);
      if Usable(p, a, n, i) > 0 {
        var j: nat :| IsInstance(p, i, j) && Held(p, a, n, i, j) >= Threshold(p, i, j);
        assert Serves(p, a, n, deptype, InstanceId(i, j));
      }
      HeldInstancesUnique(p, a, n, i);
      forall j: nat, j': nat | j < j' < |p.deps[i].instances|
        ensures !(Held(p, a, n, i, j) > 0 && Held(p, a, n, i, j') > 0)
      {
        assert !(Serves(p, a, n, deptype, InstanceId(i, j)) && Serves(p, a, n, deptype, InstanceId(i, j')));
      }
    }
    UsableOfTypeUnique(p, a, n, deptype);
  }

  lemma PlacedHolds(p: Problem, a: Placing, c: Constraint)
    requires Placed(p, a) && PositiveThresholds(p) && InRange(p, c)
    ensures Holds(p, a, c)
  {
    hide Held, Usable, UsableOfType, HeldInstances, Holders, ServerLoad, OnServers, OnRaceNodes, PairFits, UniqueInstance;
    match c
    case ShardServed(n, i, j, k) => ShardRulesHold(p, a, i, j, k);
    case BlobServed(n, i, j) => PairFitsIff(p, a, n, i, j);
    case BetweenNAndM(n, i, j) => PairFitsIff(p, a, n, i, j);
    case BlobIfShards(n, i, j) => PairFitsIff(p, a, n, i, j);
    case BlobMatches(n, i, j) => PairFitsIff(p, a, n, i, j);
    case Capacity(n) => LoadIs(p, a, n);
    case OneInstance(n, i) => TypeRulesHold(p, a, n, p.deps[i].deptype);
    case OneRaceNode(i, j) => HoldersUnique(p, a, i, j);
    case ShardOnOneRaceNode(i, j, k) => ShardRulesHold(p, a, i, j, k);
    case ShardOnOneServer(i, j, k) => ShardRulesHold(p, a, i, j, k);
    case ServersMatch(i, j, k) => ShardRulesHold(p, a, i, j, k);
    case OneOfType(n, deptype) => TypeRulesHold(p, a, n, deptype);
  }

  /** The rules hold exactly when the five conditions do. */
  lemma RulesMean(p: Problem, a: Placing)
    requires PositiveThresholds(p)
    ensures Satisfies(p, a) <==> Placed(p, a)
  {
    if Satisfies(p, a) {
      RulesPlace(p, a);
    }
    if Placed(p, a) {
      hide Placed;
      forall c | InRange(p, c) ensures Holds(p, a, c) {
        PlacedHolds(p, a, c);
      }
    }
  }
}
