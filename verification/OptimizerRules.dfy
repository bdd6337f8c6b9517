/**
 The Optimizer: each rule walks its nodes, dependencies, instances and shards and adds
 one formula per step; together the rules collect exactly the formulas of the problem.
 */
module OptimizerRules {
  import opened Placement
  import opened Formulas
  import opened RulesSpelled

  /** Whether a tuple of indices comes before another one in the order of the nested loops. */
  predicate Before2(a: nat, b: nat, x: nat, y: nat) {
    a < x || (a == x && b < y)
  }

  predicate Before3(a: nat, b: nat, c: nat, x: nat, y: nat, z: nat) {
    a < x || (a == x && Before2(b, c, y, z))
  }

  predicate Before4(a: nat, b: nat, c: nat, d: nat, x: nat, y: nat, z: nat, w: nat) {
    a < x || (a == x && Before3(b, c, d, y, z, w))
  }

  class Optimizer {
    /** The module's own list of dependencies, which some rules read instead of the object's. */
    const loaded: seq<Dep>
    var deps: seq<Dep>
    var rnodes: seq<RaceNode>
    var snodes: seq<ServerNode>
    var opt: seq<Formula>
    ghost var said: set<Constraint>

    constructor (loaded: seq<Dep>, deps: seq<Dep>, rnodes: seq<RaceNode>, snodes: seq<ServerNode>)
      requires Covers(loaded, deps)
      ensures this.loaded == loaded && this.deps == deps && this.rnodes == rnodes && this.snodes == snodes
      ensures Valid() && opt == [] && said == {}
    {
      this.loaded, this.deps, this.rnodes, this.snodes := loaded, deps, rnodes, snodes;
      opt, said := [], {};
    }

    function Given(): Problem
      reads this`deps, this`rnodes, this`snodes
    {
      Problem(deps, rnodes, snodes)
    }

    /** The formulas are those of the constraints that have been said. */
    ghost predicate Valid()
      reads this
    {
      Covers(loaded, deps) && Collected(Given(), loaded, opt, said)
    }

    method Reset()
      requires Covers(loaded, deps)
      modifies `opt, `said
      ensures Valid() && opt == [] && said == {}
    {
      opt, said := [], {};
    }

    method Add(f: Formula, ghost c: Constraint)
      requires Valid() && Stated(Given(), loaded, c) && f == FormulaOf(Given(), loaded, c)
      modifies `opt, `said
      ensures Valid() && opt == old(opt) + [f] && said == old(said) + {c}
    {
      hide FormulaOf, Stated, Collected;
      CollectedOneMore(Given(), loaded, opt, said, c);
      opt := opt + [f];
      said := said + {c};
    }

    /** A shard of a race node is on some server. */
    method RuleOneServerMustHaveShard()
      requires Valid()
      modifies `opt, `said
      ensures Valid()
      ensures forall c :: c in said <==> c in old(said) || (c.ShardServed? && Stated(Given(), loaded, c))
    {
      hide Collected, ShardServedFormula;
      for n := 0 to |rnodes|
        invariant Valid()
        invariant forall c :: c in said <==> c in old(said) || (c.ShardServed? && Stated(Given(), loaded, c) && c.n < n)
      {
        for i := 0 to |deps|
          invariant Valid()
          invariant forall c :: c in said <==>
            c in old(said) || (c.ShardServed? && Stated(Given(), loaded, c) && Before2(c.n, c.i, n, i))
        {
          for j := 0 to |deps[i].instances|
            invariant Valid()
            invariant forall c :: c in said <==>
              c in old(said) || (c.ShardServed? && Stated(Given(), loaded, c) && Before3(c.n, c.i, c.j, n, i, j))
          {
            for k := 0 to |deps[i].instances[j].shards|
              invariant Valid()
              invariant forall c :: c in said <==>
                c in old(said) || (c.ShardServed? && Stated(Given(), loaded, c) && Before4(c.n, c.i, c.j, c.k, n, i, j, k))
            {
              Add(ShardServedFormula(Given(), n, i, j, k), ShardServed(n, i, j, k));
            }
          }
        }
      }
    }

    /** A blob of a race node is on some server. */
    method RuleOneServerMustHaveBlob()
      requires Valid()
      modifies `opt, `said
      ensures Valid()
      ensures forall c :: c in said <==> c in old(said) || (c.BlobServed? && Stated(Given(), loaded, c))
    {
      hide Collected, BlobServedFormula;
      for n := 0 to |rnodes|
        invariant Valid()
        invariant forall c :: c in said <==> c in old(said) || (c.BlobServed? && Stated(Given(), loaded, c) && c.n < n)
      {
        for i := 0 to |deps|
          invariant Valid()
          invariant forall c :: c in said <==>
            c in old(said) || (c.BlobServed? && Stated(Given(), loaded, c) && Before2(c.n, c.i, n, i))
        {
          for j := 0 to |deps[i].instances|
            invariant Valid()
            invariant forall c :: c in said <==>
              c in old(said) || (c.BlobServed? && Stated(Given(), loaded, c) && Before3(c.n, c.i, c.j, n, i, j))
          {
            Add(BlobServedFormula(Given(), n, i, j), BlobServed(n, i, j));
          }
        }
      }
    }

    /** A race node has no shard of an instance, or n to m of them. */
    method RuleSumShardsBetweenNAndM()
      requires Valid()
      modifies `opt, `said
      ensures Valid()
      ensures forall c :: c in said <==> c in old(said) || (c.BetweenNAndM? && Stated(Given(), loaded, c))
    {
      hide Collected, BetweenNAndMFormula;
      for n := 0 to |rnodes|
        invariant Valid()
        invariant forall c :: c in said <==>
          c in old(said) || (c.BetweenNAndM? && Stated(Given(), loaded, c) && c.n < n)
      {
        for i := 0 to |deps|
          invariant Valid()
          invariant forall c :: c in said <==>
            c in old(said) || (c.BetweenNAndM? && Stated(Given(), loaded, c) && Before2(c.n, c.i, n, i))
        {
          for j := 0 to |deps[i].instances|
            invariant Valid()
            invariant forall c :: c in said <==>
              c in old(said) || (c.BetweenNAndM? && Stated(Given(), loaded, c) && Before3(c.n, c.i, c.j, n, i, j))
          {
            Add(BetweenNAndMFormula(Given(), loaded, n, i, j), BetweenNAndM(n, i, j));
          }
        }
      }
    }

    /** A race node with shards has the blob, and a server has it too. */
    method RuleRaceNodeHasBlobIfHasShards()
      requires Valid()
      modifies `opt, `said
      ensures Valid()
      ensures forall c :: c in said <==> c in old(said) || (c.BlobIfShards? && Stated(Given(), loaded, c))
    {
      hide Collected, BlobIfShardsFormula;
      for n := 0 to |rnodes|
        invariant Valid()
        invariant forall c :: c in said <==>
          c in old(said) || (c.BlobIfShards? && Stated(Given(), loaded, c) && c.n < n)
      {
        for i := 0 to |deps|
          invariant Valid()
          invariant forall c :: c in said <==>
            c in old(said) || (c.BlobIfShards? && Stated(Given(), loaded, c) && Before2(c.n, c.i, n, i))
        {
          for j := 0 to |deps[i].instances|
            invariant Valid()
            invariant forall c :: c in said <==>
              c in old(said) || (c.BlobIfShards? && Stated(Given(), loaded, c) && Before3(c.n, c.i, c.j, n, i, j))
          {
            Add(BlobIfShardsFormula(Given(), n, i, j), BlobIfShards(n, i, j));
          }
        }
      }
    }

    /** A race node has the blob exactly when it has shards. */
    method RuleBlobMatchesInstance()
      requires Valid()
      modifies `opt, `said
      ensures Valid()
      ensures forall c :: c in said <==> c in old(said) || (c.BlobMatches? && Stated(Given(), loaded, c))
    {
      hide Collected, BlobMatchesFormula;
      for n := 0 to |rnodes|
        invariant Valid()
        invariant forall c :: c in said <==> c in old(said) || (c.BlobMatches? && Stated(Given(), loaded, c) && c.n < n)
      {
        for i := 0 to |deps|
          invariant Valid()
          invariant forall c :: c in said <==>
            c in old(said) || (c.BlobMatches? && Stated(Given(), loaded, c) && Before2(c.n, c.i, n, i))
        {
          for j := 0 to |deps[i].instances|
            invariant Valid()
            invariant forall c :: c in said <==>
              c in old(said) || (c.BlobMatches? && Stated(Given(), loaded, c) && Before3(c.n, c.i, c.j, n, i, j))
          {
            Add(BlobMatchesFormula(Given(), n, i, j), BlobMatches(n, i, j));
          }
        }
      }
    }

    /** Shards and blobs of a server fit its capacity. */
    method RuleServerCapacity()
      requires Valid()
      modifies `opt, `said
      ensures Valid()
      ensures forall c :: c in said <==> c in old(said) || (c.Capacity? && Stated(Given(), loaded, c))
    {
      hide Collected, CapacityFormula;
      for n := 0 to |snodes|
        invariant Valid()
        invariant forall c :: c in said <==> c in old(said) || (c.Capacity? && Stated(Given(), loaded, c) && c.n < n)
      {
        Add(CapacityFormula(Given(), n), Capacity(n));
      }
    }

    /** A race node has at most one instance of a dependency. */
    method RuleOnlyOneInstancePerRaceNode()
      requires Valid()
      modifies `opt, `said
      ensures Valid()
      ensures forall c :: c in said <==> c in old(said) || (c.OneInstance? && Stated(Given(), loaded, c))
    {
      hide Collected, OneInstanceFormula;
      for n := 0 to |rnodes|
        invariant Valid()
        invariant forall c :: c in said <==> c in old(said) || (c.OneInstance? && Stated(Given(), loaded, c) && c.n < n)
      {
        for i := 0 to |deps|
          invariant Valid()
          invariant forall c :: c in said <==>
            c in old(said) || (c.OneInstance? && Stated(Given(), loaded, c) && Before2(c.n, c.i, n, i))
        {
          Add(OneInstanceFormula(Given(), n, i), OneInstance(n, i));
        }
      }
    }

    /** An instance is on at most one race node. */
    method RuleOneInstancePerRaceNode()
      requires Valid()
      modifies `opt, `said
      ensures Valid()
      ensures forall c :: c in said <==> c in old(said) || (c.OneRaceNode? && Stated(Given(), loaded, c))
    {
      hide Collected, OneRaceNodeFormula;
      for i := 0 to |deps|
        invariant Valid()
        invariant forall c :: c in said <==> c in old(said) || (c.OneRaceNode? && Stated(Given(), loaded, c) && c.i < i)
      {
        for j := 0 to |deps[i].instances|
          invariant Valid()
          invariant forall c :: c in said <==>
            c in old(said) || (c.OneRaceNode? && Stated(Given(), loaded, c) && Before2(c.i, c.j, i, j))
        {
          Add(OneRaceNodeFormula(Given(), i, j), OneRaceNode(i, j));
        }
      }
    }

    /** The three formulas of one shard. */
    method AddShardRules(i: nat, j: nat, k: nat)
      requires Valid() && IsShard(Given(), i, j, k)
      modifies `opt, `said
      ensures Valid()
      ensures said == old(said) + {ShardOnOneRaceNode(i, j, k), ShardOnOneServer(i, j, k), ServersMatch(i, j, k)}
    {
      hide Collected, ShardOnOneRaceNodeFormula, ShardOnOneServerFormula, ServersMatchFormula;
      Add(ShardOnOneRaceNodeFormula(Given(), i, j, k), ShardOnOneRaceNode(i, j, k));
      Add(ShardOnOneServerFormula(Given(), i, j, k), ShardOnOneServer(i, j, k));
      Add(ServersMatchFormula(Given(), i, j, k), ServersMatch(i, j, k));
    }

    /** A shard is on at most one race node, on at most one server, and on the one if on the other. */
    method RuleNoDuplicateShardsNoExtraShards()
      requires Valid()
      modifies `opt, `said
      ensures Valid()
      ensures forall c :: c in said <==> c in old(said) || ((c.ShardOnOneRaceNode? || c.ShardOnOneServer? || c.ServersMatch?) && Stated(Given(), loaded, c))
    {
      hide Collected, ShardOnOneRaceNodeFormula, ShardOnOneServerFormula, ServersMatchFormula;
      for i := 0 to |deps|
        invariant Valid()
        invariant forall c :: c in said <==>
          c in old(said) || ((c.ShardOnOneRaceNode? || c.ShardOnOneServer? || c.ServersMatch?) && Stated(Given(), loaded, c) && c.i < i)
      {
        for j := 0 to |deps[i].instances|
          invariant Valid()
          invariant forall c :: c in said <==>
            c in old(said) || ((c.ShardOnOneRaceNode? || c.ShardOnOneServer? || c.ServersMatch?) && Stated(Given(), loaded, c) && Before2(c.i, c.j, i, j))
        {
          for k := 0 to |deps[i].instances[j].shards|
            invariant Valid()
            invariant forall c :: c in said <==>
              c in old(said) || ((c.ShardOnOneRaceNode? || c.ShardOnOneServer? || c.ServersMatch?) && Stated(Given(), loaded, c) && Before3(c.i, c.j, c.k, i, j, k))
          {
            AddShardRules(i, j, k);
          }
        }
      }
    }

    /** A race node has one dependency of every type, in enough shards. */
    method RuleRaceNodeHasDependencies()
      requires Valid()
      modifies `opt, `said
      ensures Valid()
      ensures forall c :: c in said <==> c in old(said) || (c.OneOfType? && Stated(Given(), loaded, c))
    {
      hide Collected, OneOfTypeFormula;
      var deptypes := set dep | dep in loaded :: dep.deptype;
      TypesAreCovered(loaded, deptypes);
      var todo := deptypes;
      while todo != {}
        invariant Valid() && todo <= deptypes
        invariant forall c :: c in said <==>
          c in old(said) || (c.OneOfType? && c.n < |rnodes| && c.deptype in deptypes - todo)
      {
        var deptype :| deptype in todo;
        for n := 0 to |rnodes|
          invariant Valid()
          invariant forall c :: c in said <==>
            c in old(said) || (c.OneOfType? && c.n < |rnodes| && c.deptype in deptypes - todo)
            || (c.OneOfType? && c.n < n && c.deptype == deptype)
        {
          Add(OneOfTypeFormula(Given(), loaded, n, deptype), OneOfType(n, deptype));
        }
        todo := todo - {deptype};
      }
    }

    /**
     The formulas of all rules; empty arguments stand for arguments that are not given.
     A placing makes all of them true exactly when it satisfies the rules as they read
     with the loaded list; and the rules of the given problem, when both lists agree.
     */
    method CreateOptModel(newDeps: seq<Dep>, newRnodes: seq<RaceNode>, newSnodes: seq<ServerNode>)
      requires Covers(loaded, if newDeps != [] then newDeps else deps)
      modifies this
      ensures deps == (if newDeps != [] then newDeps else old(deps))
      ensures rnodes == (if newRnodes != [] then newRnodes else old(rnodes))
      ensures snodes == (if newSnodes != [] then newSnodes else old(snodes))
      ensures Covers(loaded, deps)
      ensures forall a :: AllTrue(a, opt) <==> Spelled(Given(), loaded, a)
      ensures Agrees(loaded, deps) ==> forall a :: AllTrue(a, opt) <==> Satisfies(Given(), a)
    {
      hide Collected, Stated, AllTrue, Spelled, SatisfiesAsLoaded, Satisfies, Agrees;
      if newDeps != [] {
        deps := newDeps;
      }
      if newRnodes != [] {
        rnodes := newRnodes;
      }
      if newSnodes != [] {
        snodes := newSnodes;
      }
      Reset();
      AddAllRules();
      forall a
        ensures AllTrue(a, opt) <==> Spelled(Given(), loaded, a)
        ensures Agrees(loaded, deps) ==> (AllTrue(a, opt) <==> Satisfies(Given(), a))
      {
        CollectedSays(Given(), loaded, opt, said, a);
        SatisfiesSpelled(Given(), loaded, a);
      }
    }

    method AddAllRules()
      requires Valid() && said == {}
      modifies `opt, `said
      ensures Valid() && forall c :: c in said <==> Stated(Given(), loaded, c)
    {
      hide Collected, Stated, Covers;
      RuleOneServerMustHaveShard();
      RuleOneServerMustHaveBlob();
      RuleSumShardsBetweenNAndM();
      RuleRaceNodeHasBlobIfHasShards();
      RuleBlobMatchesInstance();
      RuleServerCapacity();
      RuleOnlyOneInstancePerRaceNode();
      RuleOneInstancePerRaceNode();
      RuleNoDuplicateShardsNoExtraShards();
      RuleRaceNodeHasDependencies();
    }
  }

  lemma TypesAreCovered(deps: seq<Dep>, deptypes: set<string>)
    requires deptypes == set dep | dep in deps :: dep.deptype
    ensures forall t :: t in deptypes <==> exists i :: 0 <= i < |deps| && deps[i].deptype == t
  {
    forall t | exists i :: 0 <= i < |deps| && deps[i].deptype == t ensures t in deptypes {
      var i :| 0 <= i < |deps| && deps[i].deptype == t;
      assert deps[i] in deps;
    }
  }
}
