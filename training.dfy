/**
 * trainToFitness (EvolutionCore.java): seed the population, then breed generation after
 * generation until the best genome of a generation reaches the target fitness, and report that
 * genome's hidden units and enabled connections.
 */
module Training {
  import opened Wrappers
  import opened Genes
  import opened Genomes
  import opened Populations
  import Core
  import Managers
  import Breeding

  /** The closing report: the winner's fitness, the generation it was found in and its two counts. */
  datatype Solution = Solution(fitness: real, generation: int, hiddenUnits: nat, enabledConnections: nat)

  // ---------------------------------------------------------------------------------------
  // The two counts of the report
  // ---------------------------------------------------------------------------------------

  /** The number of enabled genes of a list. */
  function EnabledCount(gs: seq<Gene>): (n: nat)
    ensures n <= |gs|
    ensures n == |gs| <==> forall i | 0 <= i < |gs| :: gs[i].enabled
  {
    if gs == [] then 0 else EnabledCount(gs[..|gs| - 1]) + (if gs[|gs| - 1].enabled then 1 else 0)
  }

  /** The keys of the enabled genes of a genome. */
  function EnabledKeys(m: GeneMap): set<int> {
    set k | k in m && m[k].enabled
  }

  /** The endpoints of one gene that are neither inputs nor outputs. */
  function HiddenEnds(g: Gene, inputs: seq<int>, outputs: seq<int>): set<int> {
    (if IsHidden(inputs, outputs, g.from) then {g.from} else {})
    + (if IsHidden(inputs, outputs, g.to) then {g.to} else {})
  }

  /** The set of hidden endpoints the report collects from a list of genes. */
  function HiddenIn(gs: seq<Gene>, inputs: seq<int>, outputs: seq<int>): set<int> {
    if gs == [] then {} else HiddenIn(gs[..|gs| - 1], inputs, outputs) + HiddenEnds(gs[|gs| - 1], inputs, outputs)
  }

  /** A node is collected exactly when it is hidden and an endpoint of some gene of the list. */
  lemma {:induction false} HiddenInExactly(gs: seq<Gene>, inputs: seq<int>, outputs: seq<int>, n: int)
    ensures n in HiddenIn(gs, inputs, outputs)
            <==> IsHidden(inputs, outputs, n) && exists i | 0 <= i < |gs| :: gs[i].from == n || gs[i].to == n
  {
    if gs != [] {
      var front := gs[..|gs| - 1];
      HiddenInExactly(front, inputs, outputs, n);
      if IsHidden(inputs, outputs, n) && n !in HiddenEnds(gs[|gs| - 1], inputs, outputs) {
        if exists i | 0 <= i < |gs| :: gs[i].from == n || gs[i].to == n {
          var i :| 0 <= i < |gs| && (gs[i].from == n || gs[i].to == n);
          assert front[i] == gs[i];
        }
      }
    }
  }

  /** A strictly increasing list has as many elements as the set of its elements. */
  lemma {:induction false} IncreasingCard(s: seq<int>)
    requires StrictlyIncreasing(s)
    ensures |set x | x in s| == |s|
  {
    if s != [] {
      var front := s[..|s| - 1];
      IncreasingCard(front);
      assert (set x | x in s) == (set x | x in front) + {s[|s| - 1]};
      assert s[|s| - 1] !in front;
    }
  }

  /**
   * The genes of a genome in key order (what iterating its tree map yields) meet the same hidden
   * nodes as getHiddenNodes lists, so the report's set holds as many nodes as that list.
   */
  lemma HiddenOfGenome(m: GeneMap, inputs: seq<int>, outputs: seq<int>)
    ensures HiddenIn(GenesInOrder(m), inputs, outputs) == set n | n in HiddenNodes(m, inputs, outputs)
    ensures |HiddenIn(GenesInOrder(m), inputs, outputs)| == |HiddenNodes(m, inputs, outputs)|
  {
    var gs := GenesInOrder(m);
    var ks := SortedKeys(m);
    var ns := HiddenNodes(m, inputs, outputs);
    forall n
      ensures n in HiddenIn(gs, inputs, outputs) <==> n in ns
    {
      HiddenInExactly(gs, inputs, outputs, n);
      if IsEndpoint(m, n) {
        var k :| k in m && (m[k].from == n || m[k].to == n);
        var i :| 0 <= i < |ks| && ks[i] == k;
        assert gs[i] == m[k];
      }
      if exists i | 0 <= i < |gs| :: gs[i].from == n || gs[i].to == n {
        var i :| 0 <= i < |gs| && (gs[i].from == n || gs[i].to == n);
        assert ks[i] in m && gs[i] == m[ks[i]];
      }
    }
    IncreasingCard(ns);
  }

  /** The enabled keys among a list of keys of a genome. */
  function EnabledAmong(m: GeneMap, ks: seq<int>): set<int> {
    set k | k in ks && k in m && m[k].enabled
  }

  /** One more key, not listed before, adds itself to the enabled keys when its gene is enabled. */
  lemma EnabledAmongSnoc(m: GeneMap, ks: seq<int>)
    requires ks != [] && ks[|ks| - 1] in m && ks[|ks| - 1] !in ks[..|ks| - 1]
    ensures |EnabledAmong(m, ks)| == |EnabledAmong(m, ks[..|ks| - 1])| + (if m[ks[|ks| - 1]].enabled then 1 else 0)
  {
    var n := |ks| - 1;
    if m[ks[n]].enabled {
      assert EnabledAmong(m, ks) == EnabledAmong(m, ks[..n]) + {ks[n]};
    } else {
      assert EnabledAmong(m, ks) == EnabledAmong(m, ks[..n]);
    }
  }

  /** The genes under all but the last key are all but the last gene. */
  lemma GenesAtFront(m: GeneMap, ks: seq<int>)
    requires ks != [] && forall i | 0 <= i < |ks| :: ks[i] in m
    ensures GenesAt(m, ks)[..|ks| - 1] == GenesAt(m, ks[..|ks| - 1])
    ensures EnabledCount(GenesAt(m, ks)) == EnabledCount(GenesAt(m, ks[..|ks| - 1])) + (if m[ks[|ks| - 1]].enabled then 1 else 0)
  {
    assert GenesAt(m, ks)[..|ks| - 1] == GenesAt(m, ks[..|ks| - 1]);
  }

  /** Counting the enabled genes stored under increasing keys counts the enabled keys among them. */
  lemma {:induction false} EnabledAt(m: GeneMap, ks: seq<int>)
    requires forall i | 0 <= i < |ks| :: ks[i] in m
    requires StrictlyIncreasing(ks)
    ensures EnabledCount(GenesAt(m, ks)) == |EnabledAmong(m, ks)|
  {
    if ks != [] {
      var n := |ks| - 1;
      var front := ks[..n];
      EnabledAt(m, front);
      GenesAtFront(m, ks);
      assert ks[n] !in front;
      EnabledAmongSnoc(m, ks);
    }
  }

  /** The report's enabled count is the number of enabled genes of the genome. */
  lemma EnabledOfGenome(m: GeneMap)
    ensures EnabledCount(GenesInOrder(m)) == |EnabledKeys(m)|
  {
    var ks := SortedKeys(m);
    EnabledAt(m, ks);
    EnabledAmongAll(m, ks);
  }

  /** A list of exactly the keys of a genome finds all its enabled keys. */
  lemma EnabledAmongAll(m: GeneMap, ks: seq<int>)
    requires forall k :: k in ks <==> k in m
    ensures EnabledAmong(m, ks) == EnabledKeys(m)
  {
    forall k
      ensures k in EnabledAmong(m, ks) <==> k in EnabledKeys(m)
    {
    }
  }

  /** Every gene of a genome is enabled exactly when all its keys are enabled keys. */
  lemma AllEnabled(m: GeneMap)
    ensures |EnabledKeys(m)| <= |m|
    ensures |EnabledKeys(m)| == |m| <==> forall k | k in m :: m[k].enabled
  {
    var rest := m.Keys - EnabledKeys(m);
    assert m.Keys == EnabledKeys(m) + rest && EnabledKeys(m) !! rest;
    assert |m.Keys| == |m|;
    if !forall k | k in m :: m[k].enabled {
      var k :| k in m && !m[k].enabled;
      assert k in rest;
    }
  }

  /**
   * The counting loop of trainToFitness over a list of genes: the distinct hidden endpoints
   * and the enabled genes.
   */
  method Count(gs: seq<Gene>, inputs: seq<int>, outputs: seq<int>) returns (hidden: set<int>, enabled: nat)
    ensures hidden == HiddenIn(gs, inputs, outputs) && enabled == EnabledCount(gs)
  {
    hidden := {};
    enabled := 0;
    for i := 0 to |gs|
      invariant hidden == HiddenIn(gs[..i], inputs, outputs)
      invariant enabled == EnabledCount(gs[..i])
    {
      assert gs[..i + 1][..i] == gs[..i];
      var g := gs[i];
      if g.enabled {
        enabled := enabled + 1;
      }
      if IsHidden(inputs, outputs, g.from) && g.from !in hidden {
        hidden := hidden + {g.from};
      }
      if IsHidden(inputs, outputs, g.to) && g.to !in hidden {
        hidden := hidden + {g.to};
      }
    }
    assert gs[..|gs|] == gs;
  }

  /**
   * The report's counts for a genome, its genes visited in key order: the hidden nodes it
   * connects and its enabled genes.
   */
  method Tally(m: GeneMap, inputs: seq<int>, outputs: seq<int>) returns (hidden: set<int>, enabled: nat)
    ensures hidden == set n | n in HiddenNodes(m, inputs, outputs)
    ensures |hidden| == |HiddenNodes(m, inputs, outputs)|
    ensures enabled == |EnabledKeys(m)| <= |m|
    ensures enabled == |m| <==> forall k | k in m :: m[k].enabled
  {
    hidden, enabled := Count(GenesInOrder(m), inputs, outputs);
    HiddenOfGenome(m, inputs, outputs);
    EnabledOfGenome(m);
    AllEnabled(m);
  }

  // ---------------------------------------------------------------------------------------
  // The training loop
  // ---------------------------------------------------------------------------------------

  /** The genomes of the listed species, as the set a modifies clause names. */
  lemma MembersListed(ss: seq<Species>)
    ensures Members(ss) == set i, g | 0 <= i < |ss| && g in ss[i].members :: g
  {
    GroupsAt(ss);
    forall g | g in Members(ss)
      ensures exists i | 0 <= i < |ss| :: g in ss[i].members
    {
      InSomeGroup(Groups(ss), g);
    }
    forall i, g | 0 <= i < |ss| && g in ss[i].members
      ensures g in Members(ss)
    {
      InUnion(Groups(ss), i);
    }
  }

  /** A genome of a healthy population is listed in the species it points at. */
  lemma Seated(ss: seq<Species>, core: Core.EvolutionCore, g: Genome)
    requires Healthy(ss, core) && g in Members(ss)
    ensures exists i | 0 <= i < |ss| :: g in ss[i].members && g.species == ss[i]
  {
    GroupsAt(ss);
    InSomeGroup(Groups(ss), g);
  }

  /**
   * best.getFitness() on the generation's best genome: it sits in a listed species, so the
   * call cannot fail, and the population stays as it was but for fitness caches.
   */
  method Score(pop: Population, best: Genome, ghost core: Core.EvolutionCore) returns (f: real)
    requires Distinct(pop.species) && Healthy(pop.species, core) && best in Members(pop.species)
    modifies best, best.species
    ensures Healthy(pop.species, core)
    ensures forall s | s in pop.species :: s.members == old(s.members) && s.representative == old(s.representative)
    ensures best.genes == old(best.genes) && best.inputNodes == old(best.inputNodes) && best.outputNodes == old(best.outputNodes)
    ensures f == best.fitness == old(best.Fitness())
  {
    MembersOfHealthy(pop.species, core);
    var r := best.GetFitness();
    f := r.value;
    forall i, g | 0 <= i < |pop.species| && g in pop.species[i].members
      ensures g.species == pop.species[i] && g.core == core && g.Valid()
    {
      assert g in old(pop.species[i].members);
      if g == best {
        StillValid(best);
      }
    }
  }

  /** The initialize() that opens trainToFitness, its frame stated over the listed species. */
  method Start(mgr: Managers.PopulationManager, popSize: int, u: nat -> real, reweigh: nat -> nat -> real)
    returns (o: Outcome)
    requires Distinct(mgr.population.species) && Healthy(mgr.population.species, mgr.core)
    modifies mgr, mgr.core, mgr.population, set s | s in mgr.population.species
    ensures mgr.populationSize == popSize && mgr.currentGeneration == old(mgr.currentGeneration)
    ensures Distinct(mgr.population.species) && Healthy(mgr.population.species, mgr.core)
    ensures old(mgr.currentGeneration) != 1 ==> o.Fail?
    ensures forall s | s in mgr.population.species :: s in old(mgr.population.species) || fresh(s)
    ensures forall i, g | 0 <= i < |mgr.population.species| && g in mgr.population.species[i].members ::
              g in old(set i, g | 0 <= i < |mgr.population.species| && g in mgr.population.species[i].members :: g) || fresh(g)
  {
    ghost var frame := Members(mgr.population.species);
    MembersListed(mgr.population.species);
    ghost var added;
    o, added := mgr.Initialize(popSize, u, reweigh);
    MembersListed(mgr.population.species);
  }

  /**
   * One turn of the loop of trainToFitness: a new generation, then the fitness of its best
   * genome; at or above the target, the report of that genome.
   */
  method Turn(mgr: Managers.PopulationManager, draws: seq<Breeding.Refill>, target: real)
    returns (o: Outcome, found: Option<Solution>)
    requires Distinct(mgr.population.species) && Healthy(mgr.population.species, mgr.core)
    modifies mgr, mgr.population, mgr.core, (set s | s in mgr.population.species),
             (set i, g | 0 <= i < |mgr.population.species| && g in mgr.population.species[i].members :: g)
    ensures mgr.currentGeneration == old(mgr.currentGeneration) + 1 && mgr.populationSize == old(mgr.populationSize)
    ensures Distinct(mgr.population.species) && Healthy(mgr.population.species, mgr.core)
    ensures forall s | s in mgr.population.species :: s in old(mgr.population.species) || fresh(s)
    ensures o.Pass? ==> forall i, g | 0 <= i < |mgr.population.species| && g in mgr.population.species[i].members :: fresh(g)
    ensures o.Fail? ==> found.None?
    ensures o.Pass? && found.None? ==> mgr.latestFitness != null && mgr.latestFitness.fitness < target
    ensures found.Some? ==>
      && |Members(mgr.population.species)| == mgr.populationSize
      && mgr.latestFitness != null && mgr.latestFitness in Members(mgr.population.species)
      && found.value.generation == mgr.currentGeneration
      && found.value.fitness == mgr.latestFitness.fitness >= target
      && found.value.hiddenUnits == |HiddenNodes(mgr.latestFitness.genes, mgr.latestFitness.inputNodes, mgr.latestFitness.outputNodes)|
      && found.value.enabledConnections == |EnabledKeys(mgr.latestFitness.genes)|
  {
    found := None;
    ghost var jd;
    o, jd := mgr.NewGeneration(draws);
    if o.Fail? {
      return;
    }
    Seated(mgr.population.species, mgr.core, mgr.latestFitness);
    found := Judge(mgr, target);
  }

  /** The fitness of the latest best genome against the target, and the report when it is reached. */
  method Judge(mgr: Managers.PopulationManager, target: real) returns (found: Option<Solution>)
    requires Distinct(mgr.population.species) && Healthy(mgr.population.species, mgr.core)
    requires mgr.latestFitness != null && mgr.latestFitness in Members(mgr.population.species)
    modifies mgr.latestFitness, mgr.latestFitness.species
    ensures Healthy(mgr.population.species, mgr.core)
    ensures forall s | s in mgr.population.species :: s.members == old(s.members) && s.representative == old(s.representative)
    ensures Members(mgr.population.species) == old(Members(mgr.population.species))
    ensures found.Some? ==>
      && found.value.generation == mgr.currentGeneration
      && found.value.fitness == mgr.latestFitness.fitness >= target
      && found.value.hiddenUnits == |HiddenNodes(mgr.latestFitness.genes, mgr.latestFitness.inputNodes, mgr.latestFitness.outputNodes)|
      && found.value.enabledConnections == |EnabledKeys(mgr.latestFitness.genes)|
    ensures found.None? ==> mgr.latestFitness.fitness < target
  {
    found := None;
    var best := mgr.latestFitness;
    var ss := mgr.population.species;
    GroupsAt(ss);
    ghost var groups := Groups(ss);
    var f := Score(mgr.population, best, mgr.core);
    GroupsAt(ss);
    forall i | 0 <= i < |ss|
      ensures Groups(ss)[i] == groups[i]
    {
      assert ss[i] in ss;
    }
    assert Groups(ss) == groups;
    if f >= target {
      var hidden, enabled := Tally(best.genes, best.inputNodes, best.outputNodes);
      found := Some(Solution(f, mgr.currentGeneration, |hidden|, enabled));
    }
  }

  /**
   * trainToFitness: initialize the population, then one new generation per turn until the
   * latest best genome scores at least the target; the result is its report. The source loops
   * without bound; here the rounds of draws bound the search, and running out of them fails.
   */
  method TrainToFitness(mgr: Managers.PopulationManager, popSize: int, target: real, u: nat -> real,
                        reweigh: nat -> nat -> real, rounds: seq<seq<Breeding.Refill>>)
    returns (r: Result<Solution>, ghost bests: seq<real>)
    requires Distinct(mgr.population.species) && Healthy(mgr.population.species, mgr.core)
    modifies mgr, mgr.population, mgr.core, (set s | s in mgr.population.species),
             (set i, g | 0 <= i < |mgr.population.species| && g in mgr.population.species[i].members :: g)
    ensures Distinct(mgr.population.species) && Healthy(mgr.population.species, mgr.core)
    ensures old(mgr.currentGeneration) != 1 ==> r.Failure?
    ensures r.Success? ==>
      && old(mgr.currentGeneration) == 1 && 1 < mgr.currentGeneration <= 1 + |rounds|
      && r.value.generation == mgr.currentGeneration
      && mgr.populationSize == popSize && |Members(mgr.population.species)| == popSize
      && mgr.latestFitness != null && mgr.latestFitness in Members(mgr.population.species)
      && r.value.fitness == mgr.latestFitness.fitness >= target
      && r.value.hiddenUnits == |HiddenNodes(mgr.latestFitness.genes, mgr.latestFitness.inputNodes, mgr.latestFitness.outputNodes)|
      && r.value.enabledConnections == |EnabledKeys(mgr.latestFitness.genes)|
    ensures |bests| <= |rounds| && forall k | 0 <= k < |bests| - 1 :: bests[k] < target
    ensures r.Success? ==> |bests| == mgr.currentGeneration - 1 && bests[|bests| - 1] == r.value.fitness
    ensures r.Failure? ==> forall k | 0 <= k < |bests| :: bests[k] < target
  {
    bests := [];
    var o := Start(mgr, popSize, u, reweigh);
    if o.Fail? {
      return Failure(o.error), bests;
    }
    var round := 0;
    while round < |rounds|
      invariant 0 <= round <= |rounds|
      invariant old(mgr.currentGeneration) == 1 && mgr.currentGeneration == 1 + round
      invariant mgr.populationSize == popSize
      invariant Distinct(mgr.population.species) && Healthy(mgr.population.species, mgr.core)
      invariant forall s | s in mgr.population.species :: s in old(mgr.population.species) || fresh(s)
      invariant forall i, g | 0 <= i < |mgr.population.species| && g in mgr.population.species[i].members ::
                  g in old(set i, g | 0 <= i < |mgr.population.species| && g in mgr.population.species[i].members :: g) || fresh(g)
      invariant |bests| == round && forall k | 0 <= k < round :: bests[k] < target
      decreases |rounds| - round
    {
      var found;
      o, found := Turn(mgr, rounds[round], target);
      if o.Fail? {
        return Failure(o.error), bests;
      }
      bests := bests + [mgr.latestFitness.fitness];
      if found.Some? {
        return Success(found.value), bests;
      }
      round := round + 1;
    }
    return Failure("out of generations"), bests;
  }
}
