/**
 * The generation loop (PopulationManager.java): the first population, grown from one fully
 * connected genome, and each new generation, which culls every species, drops the stagnant and
 * the starving ones, and refills the population with children and mutated copies.
 */
module Managers {
  import opened Wrappers
  import opened Genes
  import opened Ieee
  import opened Setting
  import opened Genomes
  import opened Populations
  import Core
  import Chance
  import Crossover
  import Mutations
  import Generation
  import Breeding

  // ---------------------------------------------------------------------------------------
  // The first genome

  /** 1, 2, ..., n: the node numbers initial() writes into its arrays, starting at `from`. */
  function Span(from: int, n: nat): (r: seq<int>)
    ensures |r| == n && forall i | 0 <= i < n :: r[i] == from + i
    ensures forall k :: k in r <==> from <= k < from + n
  {
    if n == 0 then [] else Span(from, n - 1) + [from + n - 1]
  }

  /** random(-dist, dist) for one draw; a range that is not positive never reaches a gene. */
  function Weight(dist: real, u: real): real
    requires dist > 0.0
  {
    Chance.Between(-dist, dist, u).value
  }

  /**
   * The inner loop of initial() for input i after its first n outputs, adding to `base`: one
   * enabled gene from i to each output node inputs + o, numbered on from `start`, weighed with
   * draw number k - first.
   */
  function Row(base: GeneMap, first: int, start: int, i: int, inputs: nat, n: nat, dist: real, u: nat -> real): GeneMap
    requires first <= start && (n > 0 ==> dist > 0.0)
  {
    if n == 0 then base
    else
      var k := start + n - 1;
      Row(base, first, start, i, inputs, n - 1, dist, u)[k := Gene(k, i, inputs + n, Weight(dist, u(k - first)), true)]
  }

  /** rows * outputs, the genes of that many full rows, counted row by row. */
  function Cells(rows: nat, outputs: nat): (n: nat)
  {
    if rows == 0 then 0 else Cells(rows - 1, outputs) + outputs
  }

  lemma {:induction false} CellsIsProduct(rows: nat, outputs: nat)
    ensures Cells(rows, outputs) == rows * outputs
  {
    if rows > 0 {
      CellsIsProduct(rows - 1, outputs);
      assert rows * outputs == (rows - 1) * outputs + outputs;
    }
  }

  /** The genes of initial() after the rows of inputs 1..rows, numbered from `first`. */
  function Grid(first: int, inputs: nat, outputs: nat, dist: real, u: nat -> real, rows: nat): GeneMap
    requires rows > 0 && outputs > 0 ==> dist > 0.0
  {
    if rows == 0 then map[]
    else Row(Grid(first, inputs, outputs, dist, u, rows - 1), first, first + Cells(rows - 1, outputs), rows, inputs, outputs, dist, u)
  }

  /** A row as the inner loop leaves it: numbers start.., all from node i, to outputs in order. */
  ghost predicate RowLike(r: GeneMap, start: int, i: int, inputs: nat, outputs: nat) {
    && (forall k :: k in r <==> start <= k < start + outputs)
    && (forall k | k in r :: r[k].innovationNumber == k && r[k].from == i && r[k].to == inputs + (k - start) + 1 && r[k].enabled)
  }

  lemma {:induction false} RowShape(first: int, start: int, i: int, inputs: nat, outputs: nat, dist: real, u: nat -> real)
    requires first <= start && (outputs > 0 ==> dist > 0.0)
    ensures RowLike(Row(map[], first, start, i, inputs, outputs, dist, u), start, i, inputs, outputs)
  {
    if outputs > 0 {
      RowShape(first, start, i, inputs, outputs - 1, dist, u);
    }
  }

  /** m holds the genes of g and of r, r's where both have a number. */
  ghost predicate Joined(g: GeneMap, r: GeneMap, m: GeneMap) {
    && (forall k :: k in m <==> k in g || k in r)
    && (forall k | k in r :: m[k] == r[k])
    && (forall k | k in g && k !in r :: m[k] == g[k])
  }

  /** The grid after a further row: the earlier rows and the new one. */
  lemma {:induction false} GridGrows(first: int, inputs: nat, outputs: nat, dist: real, u: nat -> real, rows: nat)
    requires rows > 0 && (outputs > 0 ==> dist > 0.0)
    ensures Joined(Grid(first, inputs, outputs, dist, u, rows - 1),
                   Row(map[], first, first + Cells(rows - 1, outputs), rows, inputs, outputs, dist, u),
                   Grid(first, inputs, outputs, dist, u, rows))
  {
    RowOnto(Grid(first, inputs, outputs, dist, u, rows - 1), first, first + Cells(rows - 1, outputs), rows, inputs, outputs, dist, u);
  }

  /** The grid of rows inputs is the grid of one row fewer with the last row added on. */
  lemma GridUnfold(first: int, inputs: nat, outputs: nat, dist: real, u: nat -> real, rows: nat)
    requires rows > 0 && (outputs > 0 ==> dist > 0.0)
    ensures Grid(first, inputs, outputs, dist, u, rows)
            == Row(Grid(first, inputs, outputs, dist, u, rows - 1), first, first + Cells(rows - 1, outputs), rows, inputs, outputs, dist, u)
  {
  }

  /** A row added to a base map: the base's genes, and the row's where it has a number. */
  lemma {:induction false} RowOnto(base: GeneMap, first: int, start: int, i: int, inputs: nat, n: nat, dist: real, u: nat -> real)
    requires first <= start && (n > 0 ==> dist > 0.0)
    ensures Joined(base, Row(map[], first, start, i, inputs, n, dist, u), Row(base, first, start, i, inputs, n, dist, u))
  {
    if n > 0 {
      RowOnto(base, first, start, i, inputs, n - 1, dist, u);
    }
  }

  /**
   * The genes after `rows` rows: the numbers first .. first + rows * outputs - 1 (Cells counts
   * rows * outputs), each keyed by its own number, enabled, from one of the inputs 1..rows to one
   * of the outputs.
   */
  ghost predicate Numbered(m: GeneMap, first: int, inputs: nat, outputs: nat, rows: nat) {
    && (forall k :: k in m <==> first <= k < first + Cells(rows, outputs))
    && (forall k | k in m :: && m[k].innovationNumber == k && m[k].enabled
                             && 1 <= m[k].from <= rows && inputs + 1 <= m[k].to <= inputs + outputs)
  }

  /** A further row numbered on from the grid keeps the grid numbered. */
  lemma JoinNumbered(g: GeneMap, r: GeneMap, m: GeneMap, first: int, inputs: nat, outputs: nat, rows: nat)
    requires rows > 0 && Numbered(g, first, inputs, outputs, rows - 1) && Joined(g, r, m)
    requires RowLike(r, first + Cells(rows - 1, outputs), rows, inputs, outputs)
    ensures Numbered(m, first, inputs, outputs, rows)
  {
    forall k | k in m
      ensures && m[k].innovationNumber == k && m[k].enabled
              && 1 <= m[k].from <= rows && inputs + 1 <= m[k].to <= inputs + outputs
    {
      if k in r {
        assert m[k] == r[k];
      } else {
        assert m[k] == g[k];
      }
    }
  }

  lemma {:induction false} GridNumbers(first: int, inputs: nat, outputs: nat, dist: real, u: nat -> real, rows: nat)
    requires rows > 0 && outputs > 0 ==> dist > 0.0
    ensures Numbered(Grid(first, inputs, outputs, dist, u, rows), first, inputs, outputs, rows)
  {
    if rows > 0 {
      var start := first + Cells(rows - 1, outputs);
      GridNumbers(first, inputs, outputs, dist, u, rows - 1);
      GridGrows(first, inputs, outputs, dist, u, rows);
      RowShape(first, start, rows, inputs, outputs, dist, u);
      JoinNumbered(Grid(first, inputs, outputs, dist, u, rows - 1), Row(map[], first, start, rows, inputs, outputs, dist, u),
                   Grid(first, inputs, outputs, dist, u, rows), first, inputs, outputs, rows);
    }
  }

  /** Some gene of m goes from node i to node t. */
  ghost predicate Links(m: GeneMap, i: int, t: int) {
    exists k | k in m :: m[k].from == i && m[k].to == t
  }

  /**
   * A map made of g and a row r with other numbers keeps every link of g.
   */
  lemma JoinCovers(g: GeneMap, r: GeneMap, m: GeneMap, i: int, t: int)
    requires Joined(g, r, m)
    requires forall k | k in r :: k !in g
    requires Links(g, i, t)
    ensures Links(m, i, t)
  {
    var k :| k in g && g[k].from == i && g[k].to == t;
    assert k !in r && m[k] == g[k];
  }

  /** After `rows` rows, each of the inputs 1..rows links to each output. */
  lemma {:induction false} GridCovers(first: int, inputs: nat, outputs: nat, dist: real, u: nat -> real, rows: nat)
    requires rows > 0 && outputs > 0 ==> dist > 0.0
    ensures forall i, t | 1 <= i <= rows && inputs + 1 <= t <= inputs + outputs ::
              Links(Grid(first, inputs, outputs, dist, u, rows), i, t)
  {
    if rows > 0 {
      GridCovers(first, inputs, outputs, dist, u, rows - 1);
      GridNumbers(first, inputs, outputs, dist, u, rows - 1);
      GridGrows(first, inputs, outputs, dist, u, rows);
      var start := first + Cells(rows - 1, outputs);
      RowShape(first, start, rows, inputs, outputs, dist, u);
      var g := Grid(first, inputs, outputs, dist, u, rows - 1);
      var r := Row(map[], first, start, rows, inputs, outputs, dist, u);
      var m := Grid(first, inputs, outputs, dist, u, rows);
      forall i, t | 1 <= i <= rows && inputs + 1 <= t <= inputs + outputs
        ensures Links(m, i, t)
      {
        if i == rows {
          var k := start + t - inputs - 1;
          assert k in r && m[k] == r[k];
        } else {
          JoinCovers(g, r, m, i, t);
        }
      }
    }
  }

  /** No two genes of m join the same pair of nodes. */
  ghost predicate PairsUnique(m: GeneMap) {
    forall k, j | k in m && j in m && m[k].from == m[j].from && m[k].to == m[j].to :: k == j
  }

  /**
   * A map made of g and a row r whose genes all leave node `row`, which no gene of g leaves,
   * and go to distinct nodes, has unique pairs when g has.
   */
  lemma JoinUnique(g: GeneMap, r: GeneMap, m: GeneMap, row: int)
    requires Joined(g, r, m)
    requires forall k | k in r :: k !in g
    requires forall k | k in g :: g[k].from < row
    requires forall k | k in r :: r[k].from == row
    requires forall k, j | k in r && j in r && r[k].to == r[j].to :: k == j
    requires PairsUnique(g)
    ensures PairsUnique(m)
  {
    forall k, j | k in m && j in m && m[k].from == m[j].from && m[k].to == m[j].to
      ensures k == j
    {
      if k in r {
        assert j in r;
      } else {
        assert j !in r;
        assert m[k] == g[k] && m[j] == g[j];
      }
    }
  }

  /** No two genes of the grid join the same pair of nodes. */
  lemma {:induction false} GridUnique(first: int, inputs: nat, outputs: nat, dist: real, u: nat -> real, rows: nat)
    requires rows > 0 && outputs > 0 ==> dist > 0.0
    ensures PairsUnique(Grid(first, inputs, outputs, dist, u, rows))
  {
    if rows > 0 {
      var start := first + Cells(rows - 1, outputs);
      GridUnique(first, inputs, outputs, dist, u, rows - 1);
      GridNumbers(first, inputs, outputs, dist, u, rows - 1);
      GridGrows(first, inputs, outputs, dist, u, rows);
      RowShape(first, start, rows, inputs, outputs, dist, u);
      var g := Grid(first, inputs, outputs, dist, u, rows - 1);
      var r := Row(map[], first, start, rows, inputs, outputs, dist, u);
      var m := Grid(first, inputs, outputs, dist, u, rows);
      JoinUnique(g, r, m, rows);
    }
  }

  /** The array initial() fills with from, from + 1, ..., from + n - 1. */
  method Numbering(from: int, n: nat) returns (r: seq<int>)
    ensures r == Span(from, n)
  {
    r := [];
    for i := 0 to n
      invariant r == Span(from, i)
    {
      r := r + [from + i];
    }
  }

  /**
   * `g` is the first genome with every weight drawn afresh: the same nodes and the same genes
   * but for their weights, the gene with the j-th smallest number weighed with draws(j).
   */
  ghost predicate Variant(g: Genome, core: Core.EvolutionCore, m: GeneMap, inputs: seq<int>, outputs: seq<int>, dist: real, draws: nat -> real)
    reads g
  {
    && g.core == core && g.fitness == -1.0 && g.Valid()
    && g.inputNodes == inputs && g.outputNodes == outputs
    && Redrawn(m, g.genes, dist, draws)
  }

  /** The genomes of a list, as a set. */
  function Elements(gs: seq<Genome>): (r: set<Genome>)
    ensures forall g | g in r :: g in gs
    ensures forall i | 0 <= i < |gs| :: gs[i] in r
  {
    if gs == [] then {} else Elements(gs[..|gs| - 1]) + {gs[|gs| - 1]}
  }

  /** A set that was `base` and the genomes of `gs`, grown by `g`: `base` and the genomes of gs + [g]. */
  lemma ElementsGrow(now: set<Genome>, was: set<Genome>, base: set<Genome>, gs: seq<Genome>, g: Genome)
    requires was == base + Elements(gs) && now == was + {g}
    ensures now == base + Elements(gs + [g])
  {
    assert (gs + [g])[..|gs|] == gs;
  }

  /** `r` is `m` with only the weights changed, the j-th smallest number's weight drawn with draws(j). */
  ghost predicate Redrawn(m: GeneMap, r: GeneMap, dist: real, draws: nat -> real) {
    && Mutations.OnlyWeights(m, r)
    && var ks := SortedKeys(m);
       forall j | 0 <= j < |ks| ::
         ks[j] in m && ks[j] in r && Mutations.NewWeight(m[ks[j]].weight, false, dist, draws(j)) == Success(r[ks[j]].weight)
  }

  /** What a successful weight change promises, restated as Redrawn. */
  lemma RedrawnByChange(m: GeneMap, r: GeneMap, dist: real, draws: nat -> real)
    requires Mutations.OnlyWeights(m, r) && (m != map[] ==> dist > 0.0)
    requires forall i | 0 <= i < |m| ::
               r[SortedKeys(m)[i]].weight == Mutations.NewWeight(m[SortedKeys(m)[i]].weight, false, dist, draws(i)).value
    ensures Redrawn(m, r, dist, draws)
  {
  }

  /**
   * initialize()'s loop: `count` rounds of AddVariant, round i drawing its weights with
   * reweigh(i); the population gains exactly the clones, one genome more per round.
   */
  method AddVariants(pop: Population, init: Genome, count: nat, reweigh: nat -> nat -> real) returns (o: Outcome, ghost added: seq<Genome>)
    requires init.Valid() && Distinct(pop.species) && Healthy(pop.species, init.core)
    modifies pop, set s | s in pop.species
    ensures Distinct(pop.species) && Healthy(pop.species, init.core)
    ensures forall s | s in pop.species :: s in old(pop.species) || fresh(s)
    ensures forall g | g in Members(pop.species) :: g in old(Members(pop.species)) || fresh(g)
    ensures old(Members(pop.species)) <= Members(pop.species)
    ensures o.Pass? ==> && |added| == count
                        && Members(pop.species) == old(Members(pop.species)) + Elements(added)
                        && Census(Groups(pop.species)) == old(Census(Groups(pop.species))) + count
    ensures Variants(added, init.core, init.genes, init.inputNodes, init.outputNodes,
                     init.core.GetSetting(MutationWeightChanceRandomRange), reweigh)
  {
    added := [];
    ghost var members0, census0 := Members(pop.species), Census(Groups(pop.species));
    for i := 0 to count
      invariant Distinct(pop.species) && Healthy(pop.species, init.core)
      invariant forall s | s in pop.species :: s in old(pop.species) || fresh(s)
      invariant forall g | g in Members(pop.species) :: g in members0 || fresh(g)
      invariant |added| == i
      invariant Members(pop.species) == members0 + Elements(added)
      invariant Census(Groups(pop.species)) == census0 + i
      invariant Variants(added, init.core, init.genes, init.inputNodes, init.outputNodes,
                         init.core.GetSetting(MutationWeightChanceRandomRange), reweigh)
    {
      ghost var was := Members(pop.species);
      var child := AddVariant(pop, init, reweigh(i));
      if child.Failure? {
        return Fail(child.error), added;
      }
      ElementsGrow(Members(pop.species), was, members0, added, child.value);
      assert (added + [child.value])[..i] == added;
      added := added + [child.value];
    }
    return Pass, added;
  }

  /**
   * Every listed genome is a variant of `m`, the k-th drawn with draws(k): the clones of
   * initialize()'s loop, in the order they were made.
   */
  ghost predicate Variants(gs: seq<Genome>, core: Core.EvolutionCore, m: GeneMap, inputs: seq<int>, outputs: seq<int>,
                           dist: real, reweigh: nat -> nat -> real)
    reads set g | g in gs
  {
    gs != [] ==> && Variants(gs[..|gs| - 1], core, m, inputs, outputs, dist, reweigh)
                 && Variant(gs[|gs| - 1], core, m, inputs, outputs, dist, reweigh(|gs| - 1))
  }

  /** The k-th of a list of variants was drawn with draws(k). */
  lemma {:induction false} VariantAt(gs: seq<Genome>, core: Core.EvolutionCore, m: GeneMap, inputs: seq<int>,
                                     outputs: seq<int>, dist: real, reweigh: nat -> nat -> real, k: int)
    requires Variants(gs, core, m, inputs, outputs, dist, reweigh) && 0 <= k < |gs|
    ensures Variant(gs[k], core, m, inputs, outputs, dist, reweigh(k))
  {
    if k < |gs| - 1 {
      VariantAt(gs[..|gs| - 1], core, m, inputs, outputs, dist, reweigh, k);
    }
  }

  /**
   * One round of initialize()'s loop: a clone of `init` with its weights drawn afresh with
   * `draws`, handed to the pop.
   */
  method AddVariant(pop: Population, init: Genome, draws: nat -> real) returns (r: Result<Genome>)
    requires init.Valid() && Distinct(pop.species) && Healthy(pop.species, init.core)
    modifies pop, set s | s in pop.species
    ensures Distinct(pop.species) && Healthy(pop.species, init.core)
    ensures Members(pop.species) == old(Members(pop.species)) + if r.Success? then {r.value} else {}
    ensures Census(Groups(pop.species)) == old(Census(Groups(pop.species))) + if r.Success? then 1 else 0
    ensures init.genes != map[] && init.core.GetSetting(MutationWeightChanceRandomRange) <= 0.0 ==> r.Failure?
    ensures forall s | s in pop.species :: s in old(pop.species) || fresh(s)
    ensures r.Success? ==> && fresh(r.value)
                           && Variant(r.value, init.core, init.genes, init.inputNodes, init.outputNodes,
                                      init.core.GetSetting(MutationWeightChanceRandomRange), draws)
  {
    var variant := Reweighed(init, draws);
    if variant.Failure? {
      return variant;
    }
    var clone := variant.value;
    GroupsAt(pop.species);
    if clone in Members(pop.species) {
      InSomeGroup(Groups(pop.species), clone);
      assert false;
    }
    var o := Enrol(pop, clone, init.core);
    if o.Fail? {
      return Failure(o.error);
    }
    return Success(clone);
  }

  /** The first half of a round of initialize()'s loop: a clone of `init` with its weights drawn afresh. */
  method Reweighed(init: Genome, draws: nat -> real) returns (r: Result<Genome>)
    requires init.Valid()
    ensures r.Failure? <==> init.genes != map[] && init.core.GetSetting(MutationWeightChanceRandomRange) <= 0.0
    ensures r.Success? ==> && fresh(r.value)
                           && Variant(r.value, init.core, init.genes, init.inputNodes, init.outputNodes,
                                      init.core.GetSetting(MutationWeightChanceRandomRange), draws)
  {
    var clone := init.Clone();
    var weights := new Mutations.Mutation(clone);
    var changed := weights.ChangeWeights(false, draws);
    if changed.Fail? {
      return Failure(changed.error);
    }
    RedrawnByChange(init.genes, clone.genes, init.core.GetSetting(MutationWeightChanceRandomRange), draws);
    return Success(clone);
  }

  /** addGenome on a well-formed genome new to a healthy population, which stays healthy. */
  method Enrol(pop: Population, g: Genome, ghost core: Core.EvolutionCore) returns (o: Outcome)
    requires Distinct(pop.species) && Healthy(pop.species, core)
    requires g.core == core && g.Valid() && g !in Members(pop.species)
    modifies pop, g, set s | s in pop.species
    ensures Distinct(pop.species) && Healthy(pop.species, core)
    ensures Members(pop.species) == old(Members(pop.species)) + (if o.Pass? then {g} else {})
    ensures Census(Groups(pop.species)) == old(Census(Groups(pop.species))) + if o.Pass? then 1 else 0
    ensures forall s | s in pop.species :: s in old(pop.species) || fresh(s)
    ensures old(g.fitness) != -1.0 ==> o.Fail?
    ensures g.genes == old(g.genes) && g.inputNodes == old(g.inputNodes)
    ensures g.outputNodes == old(g.outputNodes) && g.fitness == old(g.fitness)
  {
    MembersOfHealthy(pop.species, core);
    o := Admit(pop, g);
    StillValid(g);
    forall h | h in Members(pop.species)
      ensures h.species in pop.species && h in h.species.members && h.core == core && h.Valid()
    {
      if h != g {
        assert h in old(Members(pop.species));
      }
    }
    HealthyByMembers(pop.species, core);
  }

  // ---------------------------------------------------------------------------------------
  // The manager

  class PopulationManager {
    const core: Core.EvolutionCore
    const population: Population
    var currentGeneration: int
    var populationSize: int
    var latestFitness: Genome?

    /** A manager at generation 1 with the default size 500 and an empty population. */
    constructor (core: Core.EvolutionCore)
      ensures this.core == core && fresh(population) && population.core == core && population.species == []
      ensures currentGeneration == 1 && populationSize == 500 && latestFitness == null
    {
      this.core := core;
      population := new Population(core);
      currentGeneration := 1;
      populationSize := 500;
      latestFitness := null;
    }

    /**
     * initial(): the genome with inputs 1..I and outputs I+1..I+O and one gene from every input
     * to every output, input by input and output by output, each numbered by the counter and
     * weighed random(-dist, dist) with the draws u(0), u(1), ... A negative size throws when its
     * array is made; a range that is not positive throws at the first gene, after the counter
     * has handed out its number.
     */
    method Initial(u: nat -> real) returns (r: Result<Genome>)
      modifies core
      ensures core.settings == old(core.settings)
      ensures var inputs, outputs := core.inputSize, core.outputSize;
              var dist := core.GetSetting(MutationWeightChanceRandomRange);
              && (r.Failure? <==> inputs < 0 || outputs < 0 || (inputs > 0 && outputs > 0 && dist <= 0.0))
              && (r.Failure? && inputs > 0 && outputs > 0 ==>
                    core.currentInnovationNumber == old(core.currentInnovationNumber) + 1)
              && (r.Success? ==>
                    && fresh(r.value) && r.value.core == core && r.value.species == null
                    && r.value.fitness == -1.0 && r.value.Valid()
                    && r.value.inputNodes == Span(1, inputs) && r.value.outputNodes == Span(inputs + 1, outputs)
                    && r.value.genes == Grid(old(core.currentInnovationNumber), inputs, outputs, dist, u, inputs)
                    && core.currentInnovationNumber == old(core.currentInnovationNumber) + Cells(inputs, outputs))
    {
      var inputSize, outputSize := core.inputSize, core.outputSize;
      if inputSize < 0 || outputSize < 0 {
        return Failure("NegativeArraySizeException");
      }
      var inputs := Numbering(1, inputSize);
      var outputs := Numbering(inputSize + 1, outputSize);
      var dist := core.GetSetting(MutationWeightChanceRandomRange);
      var made := Genome.New(core, null, inputs, outputs);
      var gen := made.value;
      var filled := AddRows(gen, inputSize, outputSize, dist, u);
      if filled.Fail? {
        return Failure(filled.error);
      }
      return Success(gen);
    }

    /** The outer loop of initial(): the rows of inputs 1..inputSize in turn. */
    method AddRows(gen: Genome, inputSize: nat, outputSize: nat, dist: real, u: nat -> real) returns (o: Outcome)
      requires gen.core == core && gen.fitness == -1.0 && gen.Valid() && gen.genes == map[]
      modifies gen, core
      ensures core.settings == old(core.settings)
      ensures gen.inputNodes == old(gen.inputNodes) && gen.outputNodes == old(gen.outputNodes)
      ensures gen.species == old(gen.species) && gen.fitness == -1.0 && gen.Valid()
      ensures o.Fail? <==> inputSize > 0 && outputSize > 0 && dist <= 0.0
      ensures o.Fail? ==> core.currentInnovationNumber == old(core.currentInnovationNumber) + 1
      ensures o.Pass? ==> && gen.genes == Grid(old(core.currentInnovationNumber), inputSize, outputSize, dist, u, inputSize)
                          && core.currentInnovationNumber == old(core.currentInnovationNumber) + Cells(inputSize, outputSize)
    {
      ghost var first := core.currentInnovationNumber;
      var draw := 0;
      for i := 1 to inputSize + 1
        invariant gen.inputNodes == old(gen.inputNodes) && gen.outputNodes == old(gen.outputNodes)
        invariant gen.species == old(gen.species) && gen.fitness == -1.0 && gen.Valid()
        invariant core.settings == old(core.settings)
        invariant i > 1 && outputSize > 0 ==> dist > 0.0
        invariant gen.genes == Grid(first, inputSize, outputSize, dist, u, i - 1)
        invariant core.currentInnovationNumber == first + Cells(i - 1, outputSize) == first + draw
      {
        GridNumbers(first, inputSize, outputSize, dist, u, i - 1);
        var next := AddRow(gen, i, inputSize, outputSize, dist, u, first, draw);
        if next.Failure? {
          return Fail(next.error);
        }
        draw := next.value;
        GridUnfold(first, inputSize, outputSize, dist, u, i);
      }
      return Pass;
    }

    /**
     * initialize(size): records the size, refuses any generation but the first, and hands the
     * population `size` clones of initial()'s genome, clone i with its weights drawn afresh from
     * reweigh(i).
     */
    method Initialize(popSize: int, u: nat -> real, reweigh: nat -> nat -> real) returns (o: Outcome, ghost added: seq<Genome>)
      requires Distinct(population.species) && Healthy(population.species, core)
      modifies this, core, population, set s | s in population.species
      ensures populationSize == popSize && currentGeneration == old(currentGeneration) && latestFitness == old(latestFitness)
      ensures Distinct(population.species) && Healthy(population.species, core)
      ensures forall s | s in population.species :: s in old(population.species) || fresh(s)
      ensures forall g | g in Members(population.species) :: g in old(Members(population.species)) || fresh(g)
      ensures old(currentGeneration) != 1 ==> && o.Fail? && population.species == old(population.species)
                                              && core.currentInnovationNumber == old(core.currentInnovationNumber)
      ensures old(Members(population.species)) <= Members(population.species)
      ensures o.Pass? ==> && old(currentGeneration) == 1 && core.inputSize >= 0 && core.outputSize >= 0
                          && (core.inputSize > 0 && core.outputSize > 0 ==> core.GetSetting(MutationWeightChanceRandomRange) > 0.0)
                          && |added| == (if popSize > 0 then popSize else 0)
                          && Members(population.species) == old(Members(population.species)) + Elements(added)
                          && Census(Groups(population.species)) == old(Census(Groups(population.species))) + |added|
      ensures o.Pass? ==> var inputs, outputs := core.inputSize, core.outputSize;
                          var dist := core.GetSetting(MutationWeightChanceRandomRange);
                          var genes := Grid(old(core.currentInnovationNumber), inputs, outputs, dist, u, inputs);
                          && core.currentInnovationNumber == old(core.currentInnovationNumber) + Cells(inputs, outputs)
                          && Variants(added, core, genes, Span(1, inputs), Span(inputs + 1, outputs), dist, reweigh)
    {
      populationSize := popSize;
      added := [];
      if currentGeneration != 1 {
        return Fail("The initialize() method should only be called for the first generation"), added;
      }
      o, added := Seed(if popSize > 0 then popSize else 0, u, reweigh);
    }

    /** The body of initialize() past its guard: initial()'s genome, then `count` variants of it. */
    method Seed(count: nat, u: nat -> real, reweigh: nat -> nat -> real) returns (o: Outcome, ghost added: seq<Genome>)
      requires Distinct(population.species) && Healthy(population.species, core)
      modifies core, population, set s | s in population.species
      ensures Distinct(population.species) && Healthy(population.species, core)
      ensures forall s | s in population.species :: s in old(population.species) || fresh(s)
      ensures forall g | g in Members(population.species) :: g in old(Members(population.species)) || fresh(g)
      ensures old(Members(population.species)) <= Members(population.species)
      ensures o.Pass? ==> && core.inputSize >= 0 && core.outputSize >= 0
                          && (core.inputSize > 0 && core.outputSize > 0 ==> core.GetSetting(MutationWeightChanceRandomRange) > 0.0)
                          && |added| == count
                          && Members(population.species) == old(Members(population.species)) + Elements(added)
                          && Census(Groups(population.species)) == old(Census(Groups(population.species))) + count
      ensures o.Pass? ==> var inputs, outputs := core.inputSize, core.outputSize;
                          var dist := core.GetSetting(MutationWeightChanceRandomRange);
                          var genes := Grid(old(core.currentInnovationNumber), inputs, outputs, dist, u, inputs);
                          && core.currentInnovationNumber == old(core.currentInnovationNumber) + Cells(inputs, outputs)
                          && Variants(added, core, genes, Span(1, inputs), Span(inputs + 1, outputs), dist, reweigh)
    {
      ghost var groups := Groups(population.species);
      GroupsAt(population.species);
      var made := Initial(u);
      GroupsAt(population.species);
      assert Groups(population.species) == groups;
      if made.Failure? {
        return Fail(made.error), [];
      }
      o, added := AddVariants(population, made.value, count, reweigh);
    }

    /**
     * newGeneration(): the generation counter goes up; every species is ranked, culled and
     * judged, and the stagnant and starving ones are dropped; the survivors' members are copied
     * and cleared, the population is refilled to its size, pass i of the refill drawing
     * draws[i]; the species left empty are dropped, the others pick new representatives, and
     * the best genome of the new population is recorded.
     */
    method NewGeneration(draws: seq<Breeding.Refill>) returns (o: Outcome, ghost jd: Generation.Judgement)
      requires Distinct(population.species) && Healthy(population.species, core)
      modifies this, population, core, (set s | s in population.species),
               (set i, g | 0 <= i < |population.species| && g in population.species[i].members :: g)
      ensures currentGeneration == old(currentGeneration) + 1 && populationSize == old(populationSize)
      ensures var score := jd.score; old(allocated(score)) && old(Generation.Snapped(population.species, score))
      ensures Generation.Judged(old(Generation.MemberSets(population.species)), old(Generation.Counters(population.species)),
                                old(core.GetSetting(GenerationEliminationPercentage)), old(populationSize), jd)
      ensures |jd.fates| < |old(population.species)| ==> o.Fail?
      ensures |jd.fates| == |old(population.species)| && Generation.Keep(old(population.species), jd.fates) == [] ==>
                o == Fail("All species died")
      ensures o.Pass? ==> && |jd.fates| == |old(population.species)|
                          && forall s | s in population.species :: s in Generation.Keep(old(population.species), jd.fates) || fresh(s)
      ensures Distinct(population.species) && Healthy(population.species, core)
      ensures old(population.species) == [] ==> o == Fail("All species died")
      ensures o.Pass? ==> && populationSize > 0 && |Members(population.species)| == populationSize
                          && (forall s | s in population.species :: s.members != {} && s.representative in s.members)
                          && latestFitness != null && latestFitness in Members(population.species)
                          && (forall g | g in Members(population.species) :: g.fitness <= latestFitness.fitness)
      ensures forall s | s in population.species :: s in old(population.species) || fresh(s)
      ensures o.Fail? ==> latestFitness == old(latestFitness) || latestFitness == null
      ensures o.Pass? ==> forall i, g | 0 <= i < |population.species| && g in population.species[i].members :: fresh(g)
    {
      o, jd := Evolve(draws);
      // Nothing in between reads the counter but the progress line, so it goes up last here.
      currentGeneration := currentGeneration + 1;
    }

    /** newGeneration() past the counter: the first half, then the refill and the report. */
    method Evolve(draws: seq<Breeding.Refill>) returns (o: Outcome, ghost jd: Generation.Judgement)
      requires Distinct(population.species) && Healthy(population.species, core)
      modifies this, population, core, (set s | s in population.species),
               (set i, g | 0 <= i < |population.species| && g in population.species[i].members :: g)
      ensures currentGeneration == old(currentGeneration) && populationSize == old(populationSize)
      ensures old(population.species) == [] ==> o == Fail("All species died")
      ensures var score := jd.score; old(allocated(score)) && old(Generation.Snapped(population.species, score))
      ensures Generation.Judged(old(Generation.MemberSets(population.species)), old(Generation.Counters(population.species)),
                                old(core.GetSetting(GenerationEliminationPercentage)), old(populationSize), jd)
      ensures |jd.fates| < |old(population.species)| ==> o.Fail?
      ensures |jd.fates| == |old(population.species)| && Generation.Keep(old(population.species), jd.fates) == [] ==>
                o == Fail("All species died")
      ensures o.Pass? ==> && |jd.fates| == |old(population.species)|
                          && forall s | s in population.species :: s in Generation.Keep(old(population.species), jd.fates) || fresh(s)
      ensures Distinct(population.species) && Healthy(population.species, core)
      ensures o.Pass? ==> && populationSize > 0 && |Members(population.species)| == populationSize
                          && (forall s | s in population.species :: s.members != {} && s.representative in s.members)
                          && latestFitness != null && latestFitness in Members(population.species)
                          && (forall g | g in Members(population.species) :: g.fitness <= latestFitness.fitness)
      ensures forall s | s in population.species :: s in old(population.species) || fresh(s)
      ensures o.Fail? ==> latestFitness == old(latestFitness) || latestFitness == null
      ensures o.Pass? ==> forall i, g | 0 <= i < |population.species| && g in population.species[i].members :: fresh(g)
    {
      o, jd := Generation.Select(population, core.GetSetting(GenerationEliminationPercentage), populationSize, core);
      if o.Fail? {
        return;
      }
      forall i, g | 0 <= i < |population.species| && g in population.species[i].members
        ensures g in old(set i, g | 0 <= i < |population.species| && g in population.species[i].members :: g)
      {
        var s := population.species[i];
        assert s in old(population.species);
        var j :| 0 <= j < |old(population.species)| && old(population.species)[j] == s;
        assert g in old(s.members);
      }
      o := Renew(draws);
    }

    /** The second half of newGeneration(): the refill, then the report of the best genome. */
    method Renew(draws: seq<Breeding.Refill>) returns (o: Outcome)
      requires Distinct(population.species) && Healthy(population.species, core)
      modifies this, population, core, (set s | s in population.species),
               (set i, g | 0 <= i < |population.species| && g in population.species[i].members :: g)
      ensures currentGeneration == old(currentGeneration) && populationSize == old(populationSize)
      ensures Distinct(population.species) && Healthy(population.species, core)
      ensures o.Pass? ==> && populationSize > 0 && |Members(population.species)| == populationSize
                          && (forall s | s in population.species :: s.members != {} && s.representative in s.members)
                          && latestFitness != null && latestFitness in Members(population.species)
                          && (forall g | g in Members(population.species) :: g.fitness <= latestFitness.fitness)
      ensures forall s | s in population.species :: s in old(population.species) || fresh(s)
      ensures o.Fail? ==> latestFitness == old(latestFitness) || latestFitness == null
      ensures forall i, g | 0 <= i < |population.species| && g in population.species[i].members :: fresh(g)
    {
      o := Breeding.Rebuild(population, populationSize, draws, core);
      if o.Fail? {
        return;
      }
      o := Report();
      MembersOfHealthy(population.species, core);
    }

    /**
     * The closing getBestPerforming() of the population, recorded as the latest fitness; with no
     * genome left it is null, and the report that follows throws. Scoring changes fitness
     * caches only.
     */
    method Report() returns (o: Outcome)
      requires Distinct(population.species) && Healthy(population.species, core)
      modifies this, (set s | s in population.species),
               (set i, g | 0 <= i < |population.species| && g in population.species[i].members :: g)
      ensures currentGeneration == old(currentGeneration) && populationSize == old(populationSize)
      ensures Healthy(population.species, core)
      ensures forall s | s in population.species :: s.members == old(s.members) && s.representative == old(s.representative)
      ensures Census(Groups(population.species)) == old(Census(Groups(population.species)))
      ensures o.Pass? <==> Members(population.species) != {}
      ensures o.Fail? ==> o == Fail("NullPointerException") && latestFitness == null
      ensures o.Pass? ==> && latestFitness != null && latestFitness in Members(population.species)
                          && forall g | g in Members(population.species) :: g.fitness <= latestFitness.fitness
    {
      var best := Breeding.Best(population, core);
      if best.None? {
        latestFitness := null;
        return Fail("NullPointerException");
      }
      var ss := population.species;
      GroupsAt(ss);
      ghost var groups := Groups(ss);
      latestFitness := best.value;
      GroupsAt(ss);
      assert Groups(ss) == groups;
      return Pass;
    }

    /**
     * The inner loop of initial() for input i: a gene to each output in turn, each numbered by
     * the counter and weighed with the next draw.
     */
    method AddRow(gen: Genome, i: int, inputSize: nat, outputSize: nat, dist: real, u: nat -> real, ghost first: int, draw: nat)
      returns (r: Result<nat>)
      requires gen.core == core && gen.fitness == -1.0 && gen.Valid()
      requires core.currentInnovationNumber == first + draw
      requires forall k | k in gen.genes :: k < core.currentInnovationNumber
      modifies gen, core
      ensures core.settings == old(core.settings)
      ensures gen.inputNodes == old(gen.inputNodes) && gen.outputNodes == old(gen.outputNodes)
      ensures gen.species == old(gen.species) && gen.fitness == -1.0 && gen.Valid()
      ensures r.Failure? <==> outputSize > 0 && dist <= 0.0
      ensures r.Failure? ==> core.currentInnovationNumber == old(core.currentInnovationNumber) + 1
      ensures r.Success? ==> && r.value == draw + outputSize
                             && core.currentInnovationNumber == old(core.currentInnovationNumber) + outputSize
                             && gen.genes == Row(old(gen.genes), first, first + draw, i, inputSize, outputSize, dist, u)
    {
      ghost var before := gen.genes;
      for o := 1 to outputSize + 1
        invariant gen.inputNodes == old(gen.inputNodes) && gen.outputNodes == old(gen.outputNodes)
        invariant gen.species == old(gen.species) && gen.fitness == -1.0 && gen.Valid()
        invariant core.settings == old(core.settings)
        invariant o > 1 ==> dist > 0.0
        invariant core.currentInnovationNumber == first + draw + o - 1
        invariant gen.genes == Row(before, first, first + draw, i, inputSize, o - 1, dist, u)
        invariant forall k | k in gen.genes :: k < core.currentInnovationNumber
      {
        var n := core.GetNextInnovationNumber();
        var w := Chance.Between(-dist, dist, u(draw + o - 1));
        if w.Failure? {
          return Failure(w.error);
        }
        var added := gen.AddGene(Gene(n, i, inputSize + o, w.value, true), null, null, 0.0);
        assert added.Pass?;
      }
      return Success(draw + outputSize);
    }
  }
}
