/**
 * The population (Population.java): the list of species, speciation of a new genome by the
 * first species whose representative it is compatible with, and the best genome overall.
 * crossAndAdd (Genome.java), which hands its child to the population, lives here too.
 */
module Populations {
  import opened Wrappers
  import opened Genes
  import opened Genomes
  import Crossover

  /** Species i is the first of the list whose representative `g` is compatible with. */
  ghost predicate FirstCompatible(ss: seq<Species>, g: Genome, i: int)
    reads set s | s in ss, set s | s in ss :: s.representative, set s | s in ss :: s.representative.core
    reads g, g.core
  {
    && 0 <= i < |ss| && ss[i].Compatibility(g) == Success(true)
    && forall j | 0 <= j < i :: ss[j].Compatibility(g) == Success(false)
  }

  /** No species of the list accepts `g`, and no distance along the way fails. */
  ghost predicate NoneCompatible(ss: seq<Species>, g: Genome)
    reads set s | s in ss, set s | s in ss :: s.representative, set s | s in ss :: s.representative.core
    reads g, g.core
  {
    forall j | 0 <= j < |ss| :: ss[j].Compatibility(g) == Success(false)
  }

  /** All lists one after the other: the nested walk over species and their members. */
  function Flatten<T>(xss: seq<seq<T>>): (r: seq<T>)
    ensures forall x | x in r :: exists i | 0 <= i < |xss| :: x in xss[i]
    ensures forall i, x | 0 <= i < |xss| && x in xss[i] :: x in r
  {
    if xss == [] then [] else Flatten(xss[..|xss| - 1]) + xss[|xss| - 1]
  }

  /** The member sets of the listed species, in list order. */
  function Groups(ss: seq<Species>): (r: seq<set<Genome>>)
    reads set s | s in ss
    ensures |r| == |ss|
  {
    if ss == [] then [] else Groups(ss[..|ss| - 1]) + [ss[|ss| - 1].members]
  }

  lemma {:induction false} GroupsAt(ss: seq<Species>)
    ensures forall i | 0 <= i < |ss| :: Groups(ss)[i] == ss[i].members
  {
    if ss != [] {
      GroupsAt(ss[..|ss| - 1]);
    }
  }

  /** Every genome of some set of the list. */
  function Union(gs: seq<set<Genome>>): set<Genome> {
    if gs == [] then {} else Union(gs[..|gs| - 1]) + gs[|gs| - 1]
  }

  /** The sizes of the sets added up: the number of genomes when no genome is in two sets. */
  function Census(gs: seq<set<Genome>>): nat {
    if gs == [] then 0 else Census(gs[..|gs| - 1]) + |gs[|gs| - 1]|
  }

  /** Every member of every listed species. */
  function Members(ss: seq<Species>): set<Genome>
    reads set s | s in ss
  {
    Union(Groups(ss))
  }

  /** Each set is part of the union. */
  lemma {:induction false} InUnion(gs: seq<set<Genome>>, k: nat)
    requires k < |gs|
    ensures gs[k] <= Union(gs)
  {
    if k < |gs| - 1 {
      InUnion(gs[..|gs| - 1], k);
    }
  }

  lemma {:induction false} InSomeGroup(gs: seq<set<Genome>>, g: Genome)
    requires g in Union(gs)
    ensures exists k | 0 <= k < |gs| :: g in gs[k]
  {
    if g !in gs[|gs| - 1] {
      InSomeGroup(gs[..|gs| - 1], g);
    }
  }

  /** Adding up the sizes never counts fewer genomes than the union holds. */
  lemma {:induction false} CensusCovers(gs: seq<set<Genome>>)
    ensures |Union(gs)| <= Census(gs)
  {
    if gs != [] {
      CensusCovers(gs[..|gs| - 1]);
    }
  }

  /** When the sizes add up to exactly the union, no genome is in two of the sets. */
  lemma {:induction false} ExactCensus(gs: seq<set<Genome>>, i: int, k: int)
    requires Census(gs) == |Union(gs)| && 0 <= i < k < |gs|
    ensures gs[i] !! gs[k]
  {
    var n := |gs| - 1;
    var front := gs[..n];
    CensusCovers(front);
    assert Union(gs) == Union(front) + gs[n] && Census(gs) == Census(front) + |gs[n]|;
    assert Union(front) * gs[n] == {};
    if k == n {
      InUnion(front, i);
      assert front[i] == gs[i];
      forall g | g in gs[i]
        ensures g !in gs[k]
      {
        assert g in Union(front) && g !in Union(front) * gs[n];
      }
    } else {
      assert front[i] == gs[i] && front[k] == gs[k];
      ExactCensus(front, i, k);
    }
  }

  // ---------------------------------------------------------------------------------------
  // The population invariant

  /** Sets no two of which share an element: the sizes add up to the union. */
  lemma {:induction false} DisjointCensus(gs: seq<set<Genome>>)
    requires forall i, k | 0 <= i < k < |gs| :: gs[i] !! gs[k]
    ensures Census(gs) == |Union(gs)|
  {
    if gs != [] {
      var n := |gs| - 1;
      var front := gs[..n];
      DisjointCensus(front);
      forall g | g in Union(front)
        ensures g !in gs[n]
      {
        InSomeGroup(front, g);
        var k :| 0 <= k < n && g in front[k];
        assert front[k] == gs[k];
      }
      assert Union(front) * gs[n] == {};
    }
  }

  // ---------------------------------------------------------------------------------------
  // The population invariant

  /**
   * What addGenome keeps true of a population: every member of species i points at species i,
   * shares the core and is a well-formed genome. With the species distinct, no genome is then
   * a member of two species.
   */
  ghost predicate Healthy(ss: seq<Species>, core: Core.EvolutionCore)
    reads (set s | s in ss), (set i, g | 0 <= i < |ss| && g in ss[i].members :: g)
  {
    forall i, g | 0 <= i < |ss| && g in ss[i].members :: g.species == ss[i] && g.core == core && g.Valid()
  }

  /** What Healthy says of one member of one listed species. */
  lemma HealthyAt(ss: seq<Species>, core: Core.EvolutionCore, i: int, g: Genome)
    requires Healthy(ss, core) && 0 <= i < |ss| && g in ss[i].members
    ensures g.species == ss[i] && g.core == core && g.Valid()
  {
  }

  /** In a healthy population two listed species share no member. */
  lemma Apart(ss: seq<Species>, core: Core.EvolutionCore, i: int, j: int)
    requires Distinct(ss) && Healthy(ss, core) && 0 <= i < |ss| && 0 <= j < |ss| && i != j
    ensures ss[i].members !! ss[j].members
  {
    forall g | g in ss[i].members
      ensures g !in ss[j].members
    {
      HealthyAt(ss, core, i, g);
      assert ss[i] != ss[j] by {
        if i < j {
        } else {
        }
      }
    }
  }

  /**
   * Healthy, stated over the union of the member sets: every member sits in the set of the
   * listed species it points at, and no genome is counted twice.
   */
  lemma HealthyByMembers(ss: seq<Species>, core: Core.EvolutionCore)
    requires Census(Groups(ss)) == |Members(ss)|
    requires forall g | g in Members(ss) :: && g.species in ss && g in g.species.members
                                             && g.core == core && g.Valid()
    ensures Healthy(ss, core)
  {
    forall i, g | 0 <= i < |ss| && g in ss[i].members
      ensures g.species == ss[i] && g.core == core && g.Valid()
    {
      GroupsAt(ss);
      InUnion(Groups(ss), i);
      OwnSpecies(Groups(ss), ss, i, g);
    }
  }

  /** A genome counted once sits in the set of one species only: the one it points at. */
  lemma OwnSpecies(gs: seq<set<Genome>>, ss: seq<Species>, i: int, g: Genome)
    requires |gs| == |ss| && Census(gs) == |Union(gs)| && 0 <= i < |ss| && g in gs[i]
    requires forall k | 0 <= k < |ss| :: gs[k] == ss[k].members
    requires g.species in ss && g in g.species.members
    ensures g.species == ss[i]
  {
    var k :| 0 <= k < |ss| && ss[k] == g.species;
    if k < i {
      ExactCensus(gs, k, i);
      assert false;
    } else if i < k {
      ExactCensus(gs, i, k);
      assert false;
    }
  }

  /** The converse of HealthyByMembers, for distinct species. */
  lemma MembersOfHealthy(ss: seq<Species>, core: Core.EvolutionCore)
    requires Distinct(ss) && Healthy(ss, core)
    ensures Census(Groups(ss)) == |Members(ss)|
    ensures forall g | g in Members(ss) :: && g.species in ss && g in g.species.members
                                           && g.core == core && g.Valid()
  {
    GroupsAt(ss);
    forall i, k | 0 <= i < k < |ss|
      ensures Groups(ss)[i] !! Groups(ss)[k]
    {
      Apart(ss, core, i, k);
    }
    DisjointCensus(Groups(ss));
    forall g | g in Members(ss)
      ensures g.species in ss && g in g.species.members && g.core == core && g.Valid()
    {
      InSomeGroup(Groups(ss), g);
    }
  }

  /**
   * `g` joined the member set of `chosen`, which is either one of the listed species or a new
   * one appended to the list; every other listed species kept its members.
   */
  lemma Joined(ss0: seq<Species>, ss: seq<Species>, before: seq<set<Genome>>, chosen: Species, g: Genome)
    requires Distinct(ss0) && |before| == |ss0|
    requires forall j | 0 <= j < |ss0| :: ss0[j].members == if ss0[j] == chosen then before[j] + {g} else before[j]
    requires chosen in ss0 ==> ss == ss0
    requires chosen !in ss0 ==> ss == ss0 + [chosen] && chosen.members == {g}
    ensures Distinct(ss)
    ensures Union(Groups(ss)) == Union(before) + {g}
    ensures g !in Union(before) ==> Census(Groups(ss)) == Census(before) + 1
  {
    GroupsAt(ss);
    if chosen in ss0 {
      var k :| 0 <= k < |ss0| && ss0[k] == chosen;
      assert Groups(ss) == before[k := before[k] + {g}];
      UnionBump(before, k, g);
      if g !in Union(before) {
        InUnion(before, k);
        CensusBump(before, k, g);
      }
    } else {
      assert Groups(ss) == before + [{g}];
      assert (before + [{g}])[..|before|] == before;
    }
  }

  /** One genome more in one set: the union gains it. */
  lemma {:induction false} UnionBump(gs: seq<set<Genome>>, k: nat, g: Genome)
    requires k < |gs|
    ensures Union(gs[k := gs[k] + {g}]) == Union(gs) + {g}
  {
    var n := |gs| - 1;
    if k < n {
      UnionBump(gs[..n], k, g);
      assert gs[k := gs[k] + {g}][..n] == gs[..n][k := gs[k] + {g}];
    } else {
      assert gs[k := gs[k] + {g}][..n] == gs[..n];
    }
  }

  /** A genome that was not in the set: the sizes add up to one more. */
  lemma {:induction false} CensusBump(gs: seq<set<Genome>>, k: nat, g: Genome)
    requires k < |gs| && g !in gs[k]
    ensures Census(gs[k := gs[k] + {g}]) == Census(gs) + 1
  {
    var n := |gs| - 1;
    if k < n {
      CensusBump(gs[..n], k, g);
      assert gs[k := gs[k] + {g}][..n] == gs[..n][k := gs[k] + {g}];
    } else {
      assert gs[k := gs[k] + {g}][..n] == gs[..n];
    }
  }

  class Population {
    const core: Core.EvolutionCore
    var species: seq<Species>

    constructor (core: Core.EvolutionCore)
      ensures this.core == core && species == []
    {
      this.core := core;
      species := [];
    }

    /**
     * classify: the first species in list order whose representative `g` is compatible with
     * becomes g's species; when there is none, a new species with `g` as its representative is
     * appended. A failing distance, or a genome whose fitness is already known (setSpecies and
     * the species constructor both refuse it), makes it fail.
     */
    method Classify(g: Genome) returns (r: Result<Species>)
      modifies this, g
      ensures old(g.fitness) != -1.0 ==> r.Failure?
      ensures r.Failure? ==> species == old(species) && g.species == old(g.species)
      ensures (exists i :: old(FirstCompatible(species, g, i))) && old(g.fitness) == -1.0 ==> r.Success?
      ensures old(NoneCompatible(species, g)) && old(g.fitness) == -1.0 ==> r.Success?
      ensures r.Success? ==> g.species == r.value
      ensures r.Success? && r.value in old(species) ==>
                species == old(species) && exists i :: old(FirstCompatible(species, g, i)) && r.value == old(species)[i]
      ensures r.Success? && r.value !in old(species) ==>
                && old(NoneCompatible(species, g)) && fresh(r.value) && species == old(species) + [r.value]
                && r.value.representative == g && r.value.members == {}
                && r.value.highestFitness == 0.0 && r.value.failedGenerations == 0
      ensures g.genes == old(g.genes) && g.inputNodes == old(g.inputNodes)
      ensures g.outputNodes == old(g.outputNodes) && g.fitness == old(g.fitness)
    {
      var v := FindSpecies(species, g);
      if v.Failure? {
        assert forall k :: old(FirstCompatible(species, g, k)) ==> FirstCompatible(species, g, k);
        return Failure(v.error);
      }
      var found := v.value.Some?;
      var i := if found then v.value.value else 0;
      if found {
        var chosen := species[i];
        var o := g.SetSpecies(chosen);
        if o.Fail? {
          return Failure(o.error);
        }
        return Success(chosen);
      }
      var created := Species.New(g);
      if created.Failure? {
        return created;
      }
      species := species + [created.value];
      return created;
    }

    /** addGenome: `g` joins the member set of the species classify picks, and only that one. */
    method AddGenome(g: Genome) returns (o: Outcome)
      modifies this, g, set s | s in species
      ensures old(g.fitness) != -1.0 ==> o.Fail?
      ensures o.Fail? ==> species == old(species)
      ensures o.Pass? ==> g.species != null && g.species in species
      ensures o.Pass? && g.species in old(species) ==>
                species == old(species) && exists i :: old(FirstCompatible(species, g, i)) && g.species == old(species)[i]
      ensures o.Pass? && g.species !in old(species) ==>
                && old(NoneCompatible(species, g)) && fresh(g.species) && species == old(species) + [g.species]
                && g.species.representative == g && g.species.members == {g}
      ensures forall s | s in old(species) :: s.members == if o.Pass? && s == g.species then old(s.members) + {g} else old(s.members)
      ensures forall s | s in old(species) :: s.representative == old(s.representative)
      ensures old(species) <= species
      ensures g.genes == old(g.genes) && g.inputNodes == old(g.inputNodes)
      ensures g.outputNodes == old(g.outputNodes) && g.fitness == old(g.fitness)
    {
      var r := Classify(g);
      if r.Failure? {
        return Fail(r.error);
      }
      var chosen := r.value;
      chosen.members := chosen.members + {g};
      o := Pass;
    }

    /**
     * getBestPerforming: a running maximum over every member of every species, in list order
     * and each species' iteration order (`orders`), scoring each member. None when there are no
     * members; otherwise a member scoring at least as much as every member, the first such one.
     */
    method GetBestPerforming(orders: seq<seq<Genome>>) returns (r: Result<Option<Genome>>)
      requires |orders| == |species| && forall i | 0 <= i < |orders| :: Enumerates(orders[i], species[i].members)
      modifies (set g | g in Flatten(orders)), Owners(Flatten(orders))
      ensures var all := Flatten(orders);
              r.Failure? <==> exists g | g in all :: old(g.fitness) == -1.0 && old(g.species) == null
      ensures var all := Flatten(orders);
              r.Success? ==> && (r.value.None? <==> all == [])
                             && (forall g | g in all :: g.fitness == old(g.Fitness()))
                             && (r.value.Some? ==> && r.value.value in all
                                                   && (forall g | g in all :: g.fitness <= r.value.value.fitness)
                                                   && exists k | 0 <= k < |all| :: && all[k] == r.value.value
                                                                                    && forall j | 0 <= j < k :: all[j].fitness < all[k].fitness)
      ensures forall g | g in Flatten(orders) :: g.genes == old(g.genes) && g.species == old(g.species)
                                              && g.inputNodes == old(g.inputNodes) && g.outputNodes == old(g.outputNodes)
      ensures forall sp | sp in old(Owners(Flatten(orders))) :: sp.members == old(sp.members) && sp.representative == old(sp.representative)
    {
      var all := Flatten(orders);
      r := RunningMax(all);
    }
  }

  /**
   * addGenome seen from the whole population: the species stay distinct, the genomes of all
   * species gain `g`, and one genome that was in no species makes the member count one higher.
   */
  method Admit(pop: Population, g: Genome) returns (o: Outcome)
    requires Distinct(pop.species)
    modifies pop, g, set s | s in pop.species
    ensures old(g.fitness) != -1.0 ==> o.Fail?
    ensures Distinct(pop.species)
    ensures Members(pop.species) == old(Members(pop.species)) + (if o.Pass? then {g} else {})
    ensures g !in old(Members(pop.species)) ==>
              Census(Groups(pop.species)) == old(Census(Groups(pop.species))) + if o.Pass? then 1 else 0
    ensures o.Pass? ==> g.species != null && g.species in pop.species && g in g.species.members
    ensures forall s | s in pop.species :: s in old(pop.species) || fresh(s)
    ensures old(pop.species) <= pop.species
    ensures forall s | s in old(pop.species) :: old(s.members) <= s.members
    ensures g.genes == old(g.genes) && g.inputNodes == old(g.inputNodes)
    ensures g.outputNodes == old(g.outputNodes) && g.fitness == old(g.fitness)
  {
    ghost var ss0 := pop.species;
    ghost var groups := Groups(pop.species);
    GroupsAt(pop.species);
    o := Added(pop, g);
    if o.Fail? {
      GroupsAt(ss0);
      forall i | 0 <= i < |ss0|
        ensures Groups(ss0)[i] == groups[i]
      {
        assert ss0[i] in ss0;
      }
      assert Groups(ss0) == groups;
    } else {
      Joined(ss0, pop.species, groups, g.species, g);
    }
  }

  /** addGenome, with what Admit needs of its contract: where `g` went and what changed. */
  method Added(pop: Population, g: Genome) returns (o: Outcome)
    modifies pop, g, set s | s in pop.species
    ensures old(g.fitness) != -1.0 ==> o.Fail?
    ensures o.Fail? ==> pop.species == old(pop.species)
    ensures o.Pass? ==> g.species != null && g.species in pop.species
    ensures o.Pass? && g.species in old(pop.species) ==> pop.species == old(pop.species)
    ensures o.Pass? && g.species !in old(pop.species) ==>
              && fresh(g.species) && pop.species == old(pop.species) + [g.species] && g.species.members == {g}
    ensures forall s | s in old(pop.species) ::
              s.members == if o.Pass? && s == g.species then old(s.members) + {g} else old(s.members)
    ensures forall s | s in old(pop.species) :: s.representative == old(s.representative)
    ensures old(pop.species) <= pop.species
    ensures g.genes == old(g.genes) && g.inputNodes == old(g.inputNodes)
    ensures g.outputNodes == old(g.outputNodes) && g.fitness == old(g.fitness)
  {
    o := pop.AddGenome(g);
  }

  /**
   * crossAndAdd up to the child: the parents must share a species; both are scored, the fitter
   * one (the second on a tie) is the dominant parent of crossDominant. `candidates` are the
   * genomes fixDuplicates compares the child with.
   */
  method Offspring(a: Genome, b: Genome, candidates: seq<Genome>, d: Crossover.CrossDraws) returns (r: Result<Genome>)
    requires a.Valid() && b.Valid() && a.core == b.core
    modifies a, b, a.species, a.core
    ensures old(Crossover.SpeciesMatch(a, b)).Fail? ==> r.Failure?
    ensures old(Crossover.SpeciesMatch(a, b)).Pass? ==> a.fitness == old(a.Fitness()) && b.fitness == old(b.Fitness())
    ensures r.Success? ==> && fresh(r.value) && r.value.Valid() && r.value.core == a.core
                           && r.value.species == null && r.value.fitness == -1.0
    ensures r.Success? && old(a.Fitness() > b.Fitness()) ==>
              r.value.inputNodes == old(a.inputNodes) && r.value.outputNodes == old(a.outputNodes)
    ensures r.Success? && old(a.Fitness() <= b.Fitness()) ==>
              r.value.inputNodes == old(b.inputNodes) && r.value.outputNodes == old(b.outputNodes)
    ensures a.genes == old(a.genes) && a.inputNodes == old(a.inputNodes) && a.outputNodes == old(a.outputNodes)
    ensures b.genes == old(b.genes) && b.inputNodes == old(b.inputNodes) && b.outputNodes == old(b.outputNodes)
    ensures a.species == old(a.species) && b.species == old(b.species)
    ensures a.species != null ==> a.species.members == old(a.species.members)
  {
    var same := Crossover.SpeciesMatch(a, b);
    if same.Fail? {
      return Failure(same.error);
    }
    var fa := a.GetFitness();
    var fb := b.GetFitness();
    assert fa.Success? && fb.Success?;
    var dominant, weakest := if fa.value > fb.value then a else b, if fa.value > fb.value then b else a;
    r := Crossover.CrossDominant(dominant, weakest, candidates, d);
  }

  /** Offspring, seen from a population the parents' species may belong to: no member set changes. */
  method Bred(pop: Population, a: Genome, b: Genome, candidates: seq<Genome>, d: Crossover.CrossDraws)
    returns (r: Result<Genome>)
    requires a.Valid() && b.Valid() && a.core == b.core
    modifies a, b, a.species, a.core
    ensures Groups(pop.species) == old(Groups(pop.species))
    ensures forall s | s in pop.species :: s.members == old(s.members)
    ensures old(Crossover.SpeciesMatch(a, b)).Fail? ==> r.Failure?
    ensures r.Success? ==> && fresh(r.value) && r.value.Valid() && r.value.core == a.core
                           && r.value.fitness == -1.0 && r.value !in Members(pop.species)
    ensures a.genes == old(a.genes) && a.inputNodes == old(a.inputNodes) && a.outputNodes == old(a.outputNodes)
    ensures b.genes == old(b.genes) && b.inputNodes == old(b.inputNodes) && b.outputNodes == old(b.outputNodes)
    ensures a.species == old(a.species) && b.species == old(b.species)
  {
    ghost var groups := Groups(pop.species);
    GroupsAt(pop.species);
    r := Offspring(a, b, candidates, d);
    GroupsAt(pop.species);
    assert Groups(pop.species) == groups;
    if r.Success? {
      var child := r.value;
      forall k | 0 <= k < |groups|
        ensures child !in groups[k]
      {
      }
      if child in Union(groups) {
        InSomeGroup(groups, child);
      }
    }
  }

  /**
   * crossAndAdd: the child of two genomes of one species joins the population through
   * addGenome; the population then counts one genome more.
   */
  method CrossAndAdd(pop: Population, a: Genome, b: Genome, candidates: seq<Genome>, d: Crossover.CrossDraws)
    returns (r: Result<Genome>)
    requires a.Valid() && b.Valid() && a.core == b.core && Distinct(pop.species)
    modifies a, b, a.species, a.core, pop, set s | s in pop.species
    ensures Distinct(pop.species)
    ensures Members(pop.species) == old(Members(pop.species)) + (if r.Success? then {r.value} else {})
    ensures Census(Groups(pop.species)) == old(Census(Groups(pop.species))) + if r.Success? then 1 else 0
    ensures old(Crossover.SpeciesMatch(a, b)).Fail? ==> r.Failure?
    ensures r.Success? ==> && fresh(r.value) && r.value.Valid() && r.value.core == a.core
                           && r.value.species != null && r.value.species in pop.species
                           && r.value in r.value.species.members
    ensures forall s | s in pop.species :: s in old(pop.species) || fresh(s)
    ensures old(pop.species) <= pop.species
    ensures forall s | s in old(pop.species) :: old(s.members) <= s.members
    ensures a.genes == old(a.genes) && a.inputNodes == old(a.inputNodes) && a.outputNodes == old(a.outputNodes)
    ensures b.genes == old(b.genes) && b.inputNodes == old(b.inputNodes) && b.outputNodes == old(b.outputNodes)
    ensures a.species == old(a.species) && b.species == old(b.species)
  {
    var made := Bred(pop, a, b, candidates, d);
    if made.Failure? {
      return made;
    }
    var child := made.value;
    var o := Admit(pop, child);
    if o.Fail? {
      return Failure(o.error);
    }
    return Success(child);
  }

  /** A distance that fails at species i, after i refusals, leaves no first compatible species. */
  lemma FailedWalk(ss: seq<Species>, g: Genome, i: nat)
    requires i < |ss| && ss[i].Compatibility(g).Failure?
    requires forall j | 0 <= j < i :: ss[j].Compatibility(g) == Success(false)
    ensures !(exists k :: FirstCompatible(ss, g, k)) && !NoneCompatible(ss, g)
  {
    forall k | i < k < |ss| ensures !FirstCompatible(ss, g, k) {
      assert ss[i].Compatibility(g) != Success(false);
    }
  }

  /**
   * classify's walk over the species list: the index of the first species `g` is compatible
   * with, None when it is compatible with none, and the failure of the first distance that fails.
   */
  method FindSpecies(ss: seq<Species>, g: Genome) returns (r: Result<Option<nat>>)
    ensures r.Success? && r.value.Some? ==> FirstCompatible(ss, g, r.value.value)
    ensures r.Success? && r.value.None? ==> NoneCompatible(ss, g)
    ensures r.Failure? ==> && !(exists k :: FirstCompatible(ss, g, k)) && !NoneCompatible(ss, g)
                           && exists k | 0 <= k < |ss| :: && ss[k].Compatibility(g).Failure?
                                                           && forall j | 0 <= j < k :: ss[j].Compatibility(g) == Success(false)
  {
    var i := 0;
    while i < |ss|
      invariant 0 <= i <= |ss|
      invariant forall j | 0 <= j < i :: ss[j].Compatibility(g) == Success(false)
    {
      var c := ss[i].IsCompatible(g);
      if c.Failure? {
        FailedWalk(ss, g, i);
        return Failure(c.error);
      }
      if c.value {
        return Success(Some(i));
      }
      i := i + 1;
    }
    return Success(None);
  }

  /** The running maximum of getBestPerforming over one list of genomes; ties keep the first. */
  method RunningMax(all: seq<Genome>) returns (r: Result<Option<Genome>>)
    modifies (set g | g in all), Owners(all)
    ensures r.Failure? <==> exists g | g in all :: old(g.fitness) == -1.0 && old(g.species) == null
    ensures r.Success? ==> && (r.value.None? <==> all == [])
                           && (forall g | g in all :: g.fitness == old(g.Fitness()))
                           && (r.value.Some? ==> && r.value.value in all
                                                 && (forall g | g in all :: g.fitness <= r.value.value.fitness)
                                                 && exists k | 0 <= k < |all| :: && all[k] == r.value.value
                                                                                  && forall j | 0 <= j < k :: all[j].fitness < all[k].fitness)
    ensures forall g | g in all :: g.genes == old(g.genes) && g.species == old(g.species)
                                   && g.inputNodes == old(g.inputNodes) && g.outputNodes == old(g.outputNodes)
    ensures forall sp | sp in old(Owners(all)) :: sp.members == old(sp.members) && sp.representative == old(sp.representative)
  {
    ghost var scores := Scores(all);
    var best: Genome? := null;
    var bestFitness := -1.0;
    ghost var k := 0;
    ghost var seen: set<Genome> := {};
    var i := 0;
    while i < |all|
      invariant 0 <= i <= |all|
      invariant forall g | g in all :: g.genes == old(g.genes) && g.species == old(g.species)
                                       && g.inputNodes == old(g.inputNodes) && g.outputNodes == old(g.outputNodes)
      invariant forall sp | sp in old(Owners(all)) :: sp.members == old(sp.members) && sp.representative == old(sp.representative)
      invariant forall g | g in all :: g.fitness == if g in seen then old(g.Fitness()) else old(g.fitness)
      invariant forall j | 0 <= j < i :: all[j] in seen
      invariant forall g | g in seen :: g in all && !(old(g.fitness) == -1.0 && old(g.species) == null)
      invariant best == null <==> i == 0
      invariant best != null ==> && 0 <= k < i && all[k] == best && bestFitness == scores[k]
                                 && (forall j | 0 <= j < i :: scores[j] <= bestFitness)
                                 && (forall j | 0 <= j < k :: scores[j] < bestFitness)
    {
      var g := all[i];
      var f := Visit(g, all, old(Owners(all)));
      if f.Failure? {
        return Failure(f.error);
      }
      assert f.value == scores[i];
      if best == null || f.value > bestFitness {
        best := g;
        bestFitness := f.value;
        k := i;
      }
      seen := seen + {g};
      i := i + 1;
    }
    assert forall j | 0 <= j < |all| :: all[j].fitness == scores[j];
    assert all[..i] == all;
    if best == null {
      return Success(None);
    }
    return Success(Some(best));
  }
}
