/**
 * The second half of newGeneration (PopulationManager.java): the member sets are copied and
 * cleared, refilled with children of the copied members until the population size is reached,
 * and the species left empty are dropped; the rest pick new representatives.
 */
module Breeding {
  import opened Wrappers
  import opened Genes
  import opened Setting
  import opened Genomes
  import opened Populations
  import Generation
  import Core
  import Chance
  import Crossover
  import Mutations

  // ---------------------------------------------------------------------------------------
  // Walking the population

  /** The species' member sets, each in its iteration order: the population's nested walk. */
  method Listings(ss: seq<Species>) returns (ls: seq<seq<Genome>>)
    ensures |ls| == |ss| && forall k | 0 <= k < |ss| :: Enumerates(ls[k], ss[k].members)
  {
    ls := [];
    for i := 0 to |ss|
      invariant |ls| == i && forall k | 0 <= k < i :: Enumerates(ls[k], ss[k].members)
    {
      var l := Generation.Listing(ss[i].members);
      ls := ls + [l];
    }
  }

  // ---------------------------------------------------------------------------------------
  // The snapshot (lines 140-153)

  /** Sets that are all empty add up to nothing. */
  lemma {:induction false} EmptyCensus(gs: seq<set<Genome>>)
    requires forall k | 0 <= k < |gs| :: gs[k] == {}
    ensures Census(gs) == 0 && Union(gs) == {}
  {
    if gs != [] {
      EmptyCensus(gs[..|gs| - 1]);
    }
  }

  /**
   * oldMembers: every species' members are copied (in iteration order) and the member set is
   * cleared. No genome is a VIP, since the line that would record one is commented out, so the
   * population then counts no genome. The copied genomes still point at their species.
   */
  method Snapshot(ss: seq<Species>, ghost core: Core.EvolutionCore) returns (snap: seq<seq<Genome>>)
    requires Distinct(ss) && Healthy(ss, core)
    modifies set s | s in ss
    ensures |snap| == |ss|
    ensures forall k | 0 <= k < |ss| :: && Enumerates(snap[k], old(ss[k].members)) && ss[k].members == {}
                                          && ss[k].representative == old(ss[k].representative)
    ensures forall k, x | 0 <= k < |snap| && x in snap[k] :: x.species == ss[k] && x.core == core && x.Valid()
    ensures Census(Groups(ss)) == 0 && Members(ss) == {} && Healthy(ss, core)
  {
    snap := [];
    for i := 0 to |ss|
      invariant |snap| == i
      invariant forall k | 0 <= k < i :: && Enumerates(snap[k], old(ss[k].members)) && ss[k].members == {}
      invariant forall k | 0 <= k < |ss| :: ss[k].representative == old(ss[k].representative)
      invariant forall k | i <= k < |ss| :: ss[k].members == old(ss[k].members)
      invariant forall k, x | 0 <= k < i && x in snap[k] :: x.species == ss[k] && x.core == core && x.Valid()
    {
      var l := Generation.Listing(ss[i].members);
      forall x | x in l
        ensures x.species == ss[i] && x.core == core && x.Valid()
      {
        assert x in old(ss[i].members);
      }
      snap := snap + [l];
      ss[i].members := {};
    }
    GroupsAt(ss);
    EmptyCensus(Groups(ss));
  }

  // ---------------------------------------------------------------------------------------
  // The refill (lines 155-177)

  /** The copied members still point at the species they were copied from, listed in order. */
  ghost predicate Copied(ss: seq<Species>, snap: seq<seq<Genome>>, core: Core.EvolutionCore)
    reads set k, x | 0 <= k < |snap| && x in snap[k] :: x
  {
    && |snap| <= |ss|
    && forall k, x | 0 <= k < |snap| && x in snap[k] :: x.species == ss[k] && x.core == core && x.Valid()
  }

  lemma CopiedIntro(ss: seq<Species>, snap: seq<seq<Genome>>, core: Core.EvolutionCore)
    requires |snap| <= |ss|
    requires forall k, x | 0 <= k < |snap| && x in snap[k] :: x.species == ss[k] && x.core == core && x.Valid()
    ensures Copied(ss, snap, core)
  {
  }

  /** Species appended to the list leave the copied ones where they were. */
  lemma CopiedPrefix(ss: seq<Species>, ss': seq<Species>, snap: seq<seq<Genome>>, core: Core.EvolutionCore)
    requires Copied(ss, snap, core) && ss <= ss'
    ensures Copied(ss', snap, core)
  {
    forall k, x | 0 <= k < |snap| && x in snap[k]
      ensures x.species == ss'[k]
    {
      assert ss[k] == ss'[k];
    }
  }

  /**
   * The copy branch: a clone of `orig` is mutated and, when the mutation goes through, joins the
   * member set of species k directly (without classify). The population then counts one more.
   */
  method CopyStep(pop: Population, k: int, orig: Genome, m: Mutations.Draws, core: Core.EvolutionCore)
    returns (o: Outcome, child: Genome)
    requires Distinct(pop.species) && Healthy(pop.species, core) && 0 <= k < |pop.species|
    requires orig.species == pop.species[k] && orig.core == core && orig.Valid()
    modifies pop.species[k], core
    ensures Healthy(pop.species, core)
    ensures fresh(child) && child.inputNodes == orig.inputNodes && child.outputNodes == orig.outputNodes
    ensures child.species == orig.species && child.fitness == -1.0
    ensures pop.species[k].members == old(pop.species[k].members) + (if o.Pass? then {child} else {})
    ensures pop.species[k].representative == old(pop.species[k].representative)
    ensures Census(Groups(pop.species)) == old(Census(Groups(pop.species))) + (if o.Pass? then 1 else 0)
    ensures Members(pop.species) == old(Members(pop.species)) + (if o.Pass? then {child} else {})
  {
    ghost var groups := Groups(pop.species);
    o, child := Mutated(orig, m);
    assert Groups(pop.species) == groups;
    if o.Pass? {
      Join(pop.species, k, child, core);
    }
  }

  /** clone() then mutate() on the clone; only the clone and the innovation counter change. */
  method Mutated(orig: Genome, m: Mutations.Draws) returns (o: Outcome, child: Genome)
    requires orig.Valid()
    modifies orig.core
    ensures fresh(child) && child.Valid() && child.core == orig.core
    ensures child.inputNodes == orig.inputNodes && child.outputNodes == orig.outputNodes
    ensures child.species == orig.species && child.fitness == -1.0
  {
    child := orig.Clone();
    var mutation := new Mutations.Mutation(child);
    o := mutation.Mutate(m);
  }

  /** A genome outside the population, pointing at species k, joins its member set. */
  method Join(ss: seq<Species>, k: int, child: Genome, ghost core: Core.EvolutionCore)
    requires Distinct(ss) && Healthy(ss, core) && 0 <= k < |ss|
    requires child.species == ss[k] && child.core == core && child.Valid() && child !in ss[k].members
    modifies ss[k]
    ensures Healthy(ss, core)
    ensures ss[k].members == old(ss[k].members) + {child}
    ensures ss[k].representative == old(ss[k].representative)
    ensures Census(Groups(ss)) == old(Census(Groups(ss))) + 1
    ensures Members(ss) == old(Members(ss)) + {child}
  {
    ghost var groups := Groups(ss);
    GroupsAt(ss);
    var sp := ss[k];
    sp.members := sp.members + {child};
    GroupsAt(ss);
    assert Groups(ss) == groups[k := groups[k] + {child}];
    CensusBump(groups, k, child);
    UnionBump(groups, k, child);
  }

  /**
   * The cross branch: crossAndAdd on two copied members of one species, with every current
   * member as the genomes the child's numbering is checked against. A child that makes it joins
   * the species classify picks; the population then counts one more and stays healthy.
   */
  method CrossStep(pop: Population, father: Genome, mother: Genome, candidates: seq<Genome>,
                   d: Crossover.CrossDraws, core: Core.EvolutionCore)
    returns (r: Result<Genome>)
    requires Distinct(pop.species) && Healthy(pop.species, core)
    requires father.core == core && mother.core == core && father.Valid() && mother.Valid()
    modifies father, mother, father.species, core, pop, set s | s in pop.species
    ensures Distinct(pop.species) && Healthy(pop.species, core)
    ensures Census(Groups(pop.species)) == old(Census(Groups(pop.species))) + if r.Success? then 1 else 0
    ensures old(Crossover.SpeciesMatch(father, mother)).Fail? ==> r.Failure?
    ensures r.Success? ==> fresh(r.value) && r.value in Members(pop.species)
    ensures forall s | s in pop.species :: s in old(pop.species) || fresh(s)
    ensures old(pop.species) <= pop.species
    ensures father.genes == old(father.genes) && father.inputNodes == old(father.inputNodes)
    ensures father.outputNodes == old(father.outputNodes) && father.species == old(father.species)
    ensures mother.genes == old(mother.genes) && mother.inputNodes == old(mother.inputNodes)
    ensures mother.outputNodes == old(mother.outputNodes) && mother.species == old(mother.species)
    ensures forall g | g in Members(pop.species) :: g in old(Members(pop.species)) || fresh(g)
  {
    MembersOfHealthy(pop.species, core);
    r := CrossAndAdd(pop, father, mother, candidates, d);
    forall g | g in Members(pop.species)
      ensures g.species in pop.species && g in g.species.members && g.core == core && g.Valid()
    {
      if !(r.Success? && g == r.value) {
        assert g in old(Members(pop.species));
      }
    }
    HealthyByMembers(pop.species, core);
  }

  /**
   * The draws of one pass of the refill loop: random(species list), success(BREED_CROSS_CHANCE),
   * then random(oldMembers) for father and mother and the crossover's own draws, or
   * random(oldMembers) for the genome to copy and the mutation's draws.
   */
  datatype Refill = Refill(species: nat, cross: real, father: nat, mother: nat, copy: nat,
                           breed: Crossover.CrossDraws, mutation: Mutations.Draws)

  /** The genomes the snapshot holds. */
  function Snapped(snap: seq<seq<Genome>>): set<Genome> {
    set k, x | 0 <= k < |snap| && x in snap[k] :: x
  }

  /**
   * One pass of the refill loop. A species added during the refill has no copied members and
   * the pass counts nothing; otherwise the pass crosses or copies and counts one genome, and the
   * population's member count goes up by exactly that one.
   */
  method Step(pop: Population, snap: seq<seq<Genome>>, d: Refill, core: Core.EvolutionCore)
    returns (o: Outcome, counted: bool)
    requires Distinct(pop.species) && Healthy(pop.species, core) && Copied(pop.species, snap, core)
    modifies pop, core, (set s | s in pop.species), Snapped(snap)
    ensures Distinct(pop.species) && Healthy(pop.species, core) && Copied(pop.species, snap, core)
    ensures forall s | s in pop.species :: s in old(pop.species) || fresh(s)
    ensures old(pop.species) <= pop.species
    ensures Census(Groups(pop.species)) == old(Census(Groups(pop.species))) + if o.Pass? && counted then 1 else 0
    ensures old(pop.species) == [] ==> o == Fail("Given list can not be empty")
    ensures o.Pass? ==> (counted <==> d.species % |old(pop.species)| < |snap|)
    ensures forall g | g in Members(pop.species) :: g in old(Members(pop.species)) || fresh(g)
  {
    var picked := Chance.Pick(pop.species, d.species);
    if picked.Failure? {
      return Fail(picked.error), false;
    }
    var k := d.species % |pop.species|;
    if k >= |snap| {
      return Pass, false;
    }
    if Chance.Succeeds(core.GetSetting(BreedCrossChance), d.cross) {
      o := CrossPass(pop, snap, k, d, core);
    } else {
      o := CopyPass(pop, snap, k, d, core);
    }
    counted := o.Pass?;
  }

  /** The cross branch of a pass on species k, which has copied members. */
  method CrossPass(pop: Population, snap: seq<seq<Genome>>, k: int, d: Refill, core: Core.EvolutionCore)
    returns (o: Outcome)
    requires Distinct(pop.species) && Healthy(pop.species, core) && Copied(pop.species, snap, core)
    requires 0 <= k < |snap|
    modifies pop, core, (set s | s in pop.species), Snapped(snap)
    ensures Distinct(pop.species) && Healthy(pop.species, core) && Copied(pop.species, snap, core)
    ensures forall s | s in pop.species :: s in old(pop.species) || fresh(s)
    ensures old(pop.species) <= pop.species
    ensures Census(Groups(pop.species)) == old(Census(Groups(pop.species))) + if o.Pass? then 1 else 0
    ensures forall g | g in Members(pop.species) :: g in old(Members(pop.species)) || fresh(g)
  {
    var father := Chance.PickMember(snap[k], d.father);
    var mother := Chance.PickMember(snap[k], d.mother);
    if father.Failure? || mother.Failure? {
      return Fail("Given set can not be empty");
    }
    var ls := Listings(pop.species);
    o := CrossKeep(pop, snap, father.value, mother.value, Flatten(ls), d.breed, core);
  }

  /** CrossStep on two copied members, which keeps the copied members as Copied describes them. */
  method CrossKeep(pop: Population, snap: seq<seq<Genome>>, a: Genome, b: Genome, candidates: seq<Genome>,
                   d: Crossover.CrossDraws, core: Core.EvolutionCore)
    returns (o: Outcome)
    requires Distinct(pop.species) && Healthy(pop.species, core) && Copied(pop.species, snap, core)
    requires a in Snapped(snap) && b in Snapped(snap)
    modifies pop, core, (set s | s in pop.species), Snapped(snap)
    ensures Distinct(pop.species) && Healthy(pop.species, core) && Copied(pop.species, snap, core)
    ensures forall s | s in pop.species :: s in old(pop.species) || fresh(s)
    ensures old(pop.species) <= pop.species
    ensures Census(Groups(pop.species)) == old(Census(Groups(pop.species))) + if o.Pass? then 1 else 0
    ensures forall g | g in Members(pop.species) :: g in old(Members(pop.species)) || fresh(g)
  {
    ghost var ss0 := pop.species;
    var r := CrossStep(pop, a, b, candidates, d, core);
    forall j, x | 0 <= j < |snap| && x in snap[j]
      ensures x.species == pop.species[j] && x.core == core && x.Valid()
    {
      assert x in Snapped(snap);
      assert ss0[j] == pop.species[j];
      if x == a || x == b {
        StillValid(x);
      }
    }
    CopiedIntro(pop.species, snap, core);
    o := if r.Success? then Pass else Fail(r.error);
  }

  /** The copy branch of a pass on species k, which has copied members. */
  method CopyPass(pop: Population, snap: seq<seq<Genome>>, k: int, d: Refill, core: Core.EvolutionCore)
    returns (o: Outcome)
    requires Distinct(pop.species) && Healthy(pop.species, core) && Copied(pop.species, snap, core)
    requires 0 <= k < |snap|
    modifies core, pop.species[k]
    ensures Healthy(pop.species, core) && Copied(pop.species, snap, core)
    ensures Census(Groups(pop.species)) == old(Census(Groups(pop.species))) + if o.Pass? then 1 else 0
    ensures forall g | g in Members(pop.species) :: g in old(Members(pop.species)) || fresh(g)
  {
    var orig := Chance.PickMember(snap[k], d.copy);
    if orig.Failure? {
      return Fail(orig.error);
    }
    var child;
    o, child := CopyStep(pop, k, orig.value, d.mutation, core);
  }

  /**
   * The refill loop: passes run until the population counts `target` genomes, pass i with the
   * draws draws[i]. Only a pass on a copied species counts, so running out of draws ends the
   * refill with a failure. The copied members keep their species and the population stays healthy.
   */
  method Fill(pop: Population, snap: seq<seq<Genome>>, target: int, draws: seq<Refill>, core: Core.EvolutionCore)
    returns (o: Outcome, count: nat)
    requires Distinct(pop.species) && Healthy(pop.species, core) && Copied(pop.species, snap, core)
    requires Census(Groups(pop.species)) == 0
    modifies pop, core, (set s | s in pop.species), Snapped(snap)
    ensures Distinct(pop.species) && Healthy(pop.species, core) && Copied(pop.species, snap, core)
    ensures old(pop.species) <= pop.species
    ensures Census(Groups(pop.species)) == count && count <= (if target > 0 then target else 0)
    ensures o.Pass? ==> count == if target > 0 then target else 0
    ensures forall s | s in pop.species :: s in old(pop.species) || fresh(s)
    ensures forall g | g in Members(pop.species) :: fresh(g)
  {
    o, count := Pass, 0;
    CensusCovers(Groups(pop.species));
    var i := 0;
    while count < target
      invariant 0 <= i <= |draws|
      invariant Distinct(pop.species) && Healthy(pop.species, core) && Copied(pop.species, snap, core)
      invariant forall s | s in pop.species :: s in old(pop.species) || fresh(s)
      invariant forall g | g in Members(pop.species) :: fresh(g)
      invariant old(pop.species) <= pop.species
      invariant Census(Groups(pop.species)) == count && count <= (if target > 0 then target else 0)
      decreases |draws| - i
    {
      if i == |draws| {
        return Fail("out of draws"), count;
      }
      var step, counted := Step(pop, snap, draws[i], core);
      if step.Fail? {
        return step, count;
      }
      if counted {
        count := count + 1;
      }
      i := i + 1;
    }
  }

  // ---------------------------------------------------------------------------------------
  // The tidy-up (lines 179-189)

  /** One more set at the end of the list. */
  lemma Snoc(gs: seq<set<Genome>>, x: set<Genome>)
    ensures Census(gs + [x]) == Census(gs) + |x| && Union(gs + [x]) == Union(gs) + x
  {
    assert (gs + [x])[..|gs|] == gs;
  }

  /** One more species at the end of the list. */
  lemma GroupsSnoc(ss: seq<Species>, s: Species)
    ensures Groups(ss + [s]) == Groups(ss) + [s.members]
  {
    assert (ss + [s])[..|ss|] == ss;
  }

  /** Dropping the species that have no members loses no genome and counts none less. */
  lemma {:induction false} DropEmpty(ss: seq<Species>, fates: seq<bool>)
    requires |fates| == |ss| && forall i | 0 <= i < |ss| :: fates[i] == (ss[i].members != {})
    ensures Census(Groups(Generation.Keep(ss, fates))) == Census(Groups(ss))
    ensures Members(Generation.Keep(ss, fates)) == Members(ss)
  {
    if ss != [] {
      var n := |ss| - 1;
      DropEmpty(ss[..n], fates[..n]);
      var kept := Generation.Keep(ss[..n], fates[..n]);
      GroupsSnoc(ss[..n], ss[n]);
      assert ss[..n] + [ss[n]] == ss;
      Snoc(Groups(ss[..n]), ss[n].members);
      if fates[n] {
        assert Generation.Keep(ss, fates) == kept + [ss[n]];
        GroupsSnoc(kept, ss[n]);
        Snoc(Groups(kept), ss[n].members);
      } else {
        assert Generation.Keep(ss, fates) == kept;
      }
    }
  }

  /** What dropping the empty species of a distinct, healthy list leaves. */
  lemma Dropped(ss: seq<Species>, fates: seq<bool>, core: Core.EvolutionCore)
    requires Distinct(ss) && Healthy(ss, core)
    requires |fates| == |ss| && forall i | 0 <= i < |ss| :: fates[i] == (ss[i].members != {})
    ensures var left := Generation.Keep(ss, fates);
            && (forall s | s in ss :: s in left <==> s.members != {})
            && (forall s | s in left :: s.members != {})
            && Distinct(left) && Healthy(left, core)
            && Census(Groups(left)) == Census(Groups(ss)) && Members(left) == Members(ss)
  {
    var left := Generation.Keep(ss, fates);
    Generation.KeepDistinct(ss, fates);
    Generation.HealthyDrawn(ss, left, core);
    DropEmpty(ss, fates);
    forall s | s in ss
      ensures s in left <==> s.members != {}
    {
      var j :| 0 <= j < |ss| && ss[j] == s;
      Generation.KeepExactly(ss, fates, j);
    }
  }

  /**
   * The species left without members are removed from the list; the others stay in their
   * order. No genome is lost and every species left has a member.
   */
  method Tidy(pop: Population, ghost core: Core.EvolutionCore) returns (ghost fates: seq<bool>)
    requires Distinct(pop.species) && Healthy(pop.species, core)
    modifies pop
    ensures |fates| == |old(pop.species)| && pop.species == Generation.Keep(old(pop.species), fates)
    ensures forall s | s in old(pop.species) :: s in pop.species <==> s.members != {}
    ensures forall s | s in pop.species :: s.members != {}
    ensures Distinct(pop.species) && Healthy(pop.species, core)
    ensures Census(Groups(pop.species)) == Census(Groups(old(pop.species)))
    ensures Members(pop.species) == Members(old(pop.species))
  {
    var ss := pop.species;
    var left;
    left, fates := Occupied(ss);
    pop.species := left;
    Dropped(ss, fates, core);
  }

  /** The walk of the tidy-up: the species with members, in list order. */
  method Occupied(ss: seq<Species>) returns (left: seq<Species>, fates: seq<bool>)
    ensures |fates| == |ss| && forall i | 0 <= i < |ss| :: fates[i] == (ss[i].members != {})
    ensures left == Generation.Keep(ss, fates)
  {
    left, fates := [], [];
    for i := 0 to |ss|
      invariant |fates| == i && left == Generation.Keep(ss[..i], fates)
      invariant forall j | 0 <= j < i :: fates[j] == (ss[j].members != {})
    {
      var b := ss[i].members != {};
      Generation.KeepStep(ss, fates, i, b);
      left := left + (if b then [ss[i]] else []);
      fates := fates + [b];
    }
    assert ss[..|ss|] == ss;
  }

  /** update() on every species left: each picks a representative among its own members. */
  method UpdateAll(ss: seq<Species>, ghost core: Core.EvolutionCore)
    requires Healthy(ss, core) && forall s | s in ss :: s.members != {}
    modifies set s | s in ss
    ensures forall s | s in ss :: s.representative in s.members && s.members == old(s.members)
    ensures Healthy(ss, core) && Groups(ss) == old(Groups(ss))
  {
    ghost var groups := Groups(ss);
    GroupsAt(ss);
    for i := 0 to |ss|
      invariant forall s | s in ss :: s.members == old(s.members)
      invariant forall j | 0 <= j < i :: ss[j].representative in ss[j].members
      invariant Healthy(ss, core)
    {
      var u := ss[i].Update();
    }
    GroupsAt(ss);
    assert Groups(ss) == groups;
  }

  /** The nested walk lists exactly the members of the listed species. */
  lemma ListedMembers(ss: seq<Species>, orders: seq<seq<Genome>>)
    requires |orders| == |ss| && forall k | 0 <= k < |ss| :: Enumerates(orders[k], ss[k].members)
    ensures forall g | g in Members(ss) :: g in Flatten(orders)
    ensures forall g | g in Flatten(orders) :: g in Members(ss)
  {
    GroupsAt(ss);
    forall g | g in Members(ss)
      ensures g in Flatten(orders)
    {
      InSomeGroup(Groups(ss), g);
      var k :| 0 <= k < |ss| && g in Groups(ss)[k];
      assert g in orders[k];
    }
    forall g | g in Flatten(orders)
      ensures g in Members(ss)
    {
      var k :| 0 <= k < |orders| && g in orders[k];
      InUnion(Groups(ss), k);
    }
  }

  // ---------------------------------------------------------------------------------------
  // The refill, start to end

  /**
   * Lines 140-189: the snapshot, the refill to `size` genomes, the tidy-up and update(). The
   * members afterwards are all new genomes; when the refill completes, the population counts
   * its size and every species left has a member for its representative.
   */
  method Rebuild(pop: Population, size: int, draws: seq<Refill>, core: Core.EvolutionCore) returns (o: Outcome)
    requires Distinct(pop.species) && Healthy(pop.species, core)
    modifies pop, core, (set s | s in pop.species),
             (set i, g | 0 <= i < |pop.species| && g in pop.species[i].members :: g)
    ensures Distinct(pop.species) && Healthy(pop.species, core)
    ensures forall s | s in pop.species :: s in old(pop.species) || fresh(s)
    ensures forall i, g | 0 <= i < |pop.species| && g in pop.species[i].members :: fresh(g)
    ensures o.Pass? ==> && Census(Groups(pop.species)) == (if size > 0 then size else 0)
                        && forall s | s in pop.species :: s.members != {} && s.representative in s.members
  {
    var ss := pop.species;
    var snap := Snapshot(ss, core);
    CopiedIntro(ss, snap, core);
    forall x | x in Snapped(snap)
      ensures x in old(set i, g | 0 <= i < |pop.species| && g in pop.species[i].members :: g)
    {
      var k :| 0 <= k < |snap| && x in snap[k];
      assert x in old(ss[k].members);
    }
    o := Replenish(pop, snap, size, draws, core);
  }

  /** Lines 158-189 past the snapshot: the refill loop, then the tidy-up and update(). */
  method Replenish(pop: Population, snap: seq<seq<Genome>>, size: int, draws: seq<Refill>, core: Core.EvolutionCore)
    returns (o: Outcome)
    requires Distinct(pop.species) && Healthy(pop.species, core) && Copied(pop.species, snap, core)
    requires Census(Groups(pop.species)) == 0
    modifies pop, core, (set s | s in pop.species), Snapped(snap)
    ensures Distinct(pop.species) && Healthy(pop.species, core)
    ensures forall s | s in pop.species :: s in old(pop.species) || fresh(s)
    ensures forall i, g | 0 <= i < |pop.species| && g in pop.species[i].members :: fresh(g)
    ensures o.Pass? ==> && Census(Groups(pop.species)) == (if size > 0 then size else 0)
                        && forall s | s in pop.species :: s.members != {} && s.representative in s.members
  {
    var count;
    o, count := Fill(pop, snap, size, draws, core);
    ghost var made := Members(pop.species);
    assert forall g | g in made :: fresh(g);
    if o.Pass? {
      Settle(pop, core);
    }
    assert Members(pop.species) == made;
    forall i, g | 0 <= i < |pop.species| && g in pop.species[i].members
      ensures fresh(g)
    {
      GroupsAt(pop.species);
      InUnion(Groups(pop.species), i);
      assert g in made;
    }
  }

  /** Lines 179-189: the tidy-up, then update() on every species left. */
  method Settle(pop: Population, ghost core: Core.EvolutionCore)
    requires Distinct(pop.species) && Healthy(pop.species, core)
    modifies pop, set s | s in pop.species
    ensures Distinct(pop.species) && Healthy(pop.species, core)
    ensures forall s | s in pop.species :: s in old(pop.species)
    ensures Census(Groups(pop.species)) == old(Census(Groups(pop.species)))
    ensures Members(pop.species) == old(Members(pop.species))
    ensures forall s | s in pop.species :: s.members != {} && s.representative in s.members
  {
    var fates := Tidy(pop, core);
    UpdateAll(pop.species, core);
  }

  /** What the nested walk of a healthy population may touch lies within its species and members. */
  lemma ListedFrame(ss: seq<Species>, orders: seq<seq<Genome>>, core: Core.EvolutionCore)
    requires Healthy(ss, core)
    requires |orders| == |ss| && forall k | 0 <= k < |ss| :: Enumerates(orders[k], ss[k].members)
    ensures forall g | g in Flatten(orders) :: exists i | 0 <= i < |ss| :: g in ss[i].members
    ensures Owners(Flatten(orders)) <= (set s | s in ss)
  {
    forall g | g in Flatten(orders)
      ensures (exists i | 0 <= i < |ss| :: g in ss[i].members) && g.species in ss
    {
      var k :| 0 <= k < |orders| && g in orders[k];
      HealthyAt(ss, core, k, g);
    }
  }

  /**
   * getBestPerforming() of the whole population, walking the species and their members in
   * order: none when no genome is left, otherwise a member scoring at least as much as every
   * member. Only fitness caches and the species' records of their highest fitness change.
   */
  method Best(pop: Population, ghost core: Core.EvolutionCore) returns (best: Option<Genome>)
    requires Distinct(pop.species) && Healthy(pop.species, core)
    modifies (set s | s in pop.species), (set i, g | 0 <= i < |pop.species| && g in pop.species[i].members :: g)
    ensures Healthy(pop.species, core)
    ensures forall s | s in pop.species :: s.members == old(s.members) && s.representative == old(s.representative)
    ensures Census(Groups(pop.species)) == old(Census(Groups(pop.species)))
    ensures best.None? <==> Members(pop.species) == {}
    ensures best.Some? ==> && best.value in Members(pop.species)
                           && forall g | g in Members(pop.species) :: g.fitness <= best.value.fitness
  {
    var ss := pop.species;
    var orders := Listings(ss);
    GroupsAt(ss);
    ghost var groups := Groups(ss);
    best := Scored(pop, orders, core);
    GroupsAt(ss);
    forall i | 0 <= i < |ss|
      ensures Groups(ss)[i] == groups[i]
    {
      assert ss[i] in ss;
    }
    assert Groups(ss) == groups;
    ListedMembers(ss, orders);
    if best.Some? {
      forall g | g in Members(pop.species)
        ensures g.fitness <= best.value.fitness
      {
        assert g in Flatten(orders);
      }
    }
  }

  /** getBestPerforming() over a given walk of the population. */
  method Scored(pop: Population, orders: seq<seq<Genome>>, ghost core: Core.EvolutionCore) returns (best: Option<Genome>)
    requires Healthy(pop.species, core)
    requires |orders| == |pop.species| && forall k | 0 <= k < |orders| :: Enumerates(orders[k], pop.species[k].members)
    modifies (set s | s in pop.species), (set i, g | 0 <= i < |pop.species| && g in pop.species[i].members :: g)
    ensures Healthy(pop.species, core)
    ensures forall s | s in pop.species :: s.members == old(s.members) && s.representative == old(s.representative)
    ensures best.None? <==> Flatten(orders) == []
    ensures best.Some? ==> && best.value in Flatten(orders)
                           && forall g | g in Flatten(orders) :: g.fitness <= best.value.fitness
  {
    var ss := pop.species;
    best := Walked(pop, orders, core);
    forall i, g | 0 <= i < |ss| && g in ss[i].members
      ensures g.species == ss[i] && g.core == core && g.Valid()
    {
      assert g in old(ss[i].members);
      assert old(g.species == ss[i] && g.Valid());
      StillValid(g);
    }
  }

  /** The walk itself: it cannot fail, as every genome walked has a species. */
  method Walked(pop: Population, orders: seq<seq<Genome>>, ghost core: Core.EvolutionCore) returns (best: Option<Genome>)
    requires Healthy(pop.species, core)
    requires |orders| == |pop.species| && forall k | 0 <= k < |orders| :: Enumerates(orders[k], pop.species[k].members)
    modifies (set s | s in pop.species), (set i, g | 0 <= i < |pop.species| && g in pop.species[i].members :: g)
    ensures forall s | s in pop.species :: s.members == old(s.members) && s.representative == old(s.representative)
    ensures forall i, g | 0 <= i < |pop.species| && g in pop.species[i].members ::
              && g.genes == old(g.genes) && g.species == old(g.species)
              && g.inputNodes == old(g.inputNodes) && g.outputNodes == old(g.outputNodes)
    ensures best.None? <==> Flatten(orders) == []
    ensures best.Some? ==> && best.value in Flatten(orders)
                           && forall g | g in Flatten(orders) :: g.fitness <= best.value.fitness
  {
    var ss := pop.species;
    ListedFrame(ss, orders, core);
    ghost var owners := Owners(Flatten(orders));
    var r := pop.GetBestPerforming(orders);
    assert r.Success?;
    forall s | s in ss
      ensures s.members == old(s.members) && s.representative == old(s.representative)
    {
      if s in owners {
      }
    }
    forall i, g | 0 <= i < |ss| && g in ss[i].members
      ensures && g.genes == old(g.genes) && g.species == old(g.species)
              && g.inputNodes == old(g.inputNodes) && g.outputNodes == old(g.outputNodes)
    {
      assert g in old(ss[i].members);
      if g in Flatten(orders) {
      }
    }
    best := r.value;
  }
}
