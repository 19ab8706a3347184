/**
 * Crossover (Genome.crossDominant): a child built gene by gene from a dominant and another
 * parent of the same species, then renumbered against the population (fixDuplicates) and
 * mutated. The value-level `Crossed` states which genes the child holds before those two steps;
 * `Breed` builds it in place with addGene, as the source does.
 */
module Crossover {
  import opened Wrappers
  import opened Genes
  import opened Setting
  import opened Genomes
  import Mutations

  /** The draws of one crossDominant call. */
  datatype CrossDraws = CrossDraws(
    parent: int -> nat,         // random({dominant's gene, other's gene}) for number i, taken mod 2
    flag: int -> real,          // addGene's success(GENE_DISABLE_CHANCE) for number i
    mutation: Mutations.Draws)  // the child's mutate()

  /** The highest number up to which both parents have every gene: at most 100000 numbers are probed. */
  const MaxProbe := 100000

  /**
   * The genes addGene has stored after numbers 1..n of the dominant's genes: where the other
   * parent has the number too the drawn parent's gene, else the dominant's; each with the flag
   * addGene gives it with both parents present.
   */
  function Crossed(dm: GeneMap, om: GeneMap, parent: int -> nat, flag: int -> real, chance: real, n: int): GeneMap
    decreases n
  {
    if n < 1 then map[]
    else
      var m := Crossed(dm, om, parent, flag, chance, n - 1);
      if n in dm then
        var g := if n in om && parent(n) % 2 == 1 then om[n] else dm[n];
        m[g.innovationNumber := Inherit(g, Some((dm, om)), chance, flag(n))]
      else m
  }

  /** With both parents keyed by number, the child holds exactly the dominant's numbers from 1 to n. */
  lemma {:induction false} CrossedKeys(dm: GeneMap, om: GeneMap, parent: int -> nat, flag: int -> real, chance: real, n: int)
    requires KeyedByInnovation(dm) && KeyedByInnovation(om)
    ensures Crossed(dm, om, parent, flag, chance, n).Keys == set k | k in dm && 1 <= k <= n
    decreases n
  {
    if n >= 1 {
      CrossedKeys(dm, om, parent, flag, chance, n - 1);
    }
  }

  /**
   * Every child gene is its number's gene in the dominant, or in the other parent where both
   * have the number, with at most the enabled flag changed; a number only the dominant has
   * gives exactly the dominant's gene.
   */
  lemma {:induction false} CrossedGenes(dm: GeneMap, om: GeneMap, parent: int -> nat, flag: int -> real, chance: real, n: int)
    requires KeyedByInnovation(dm) && KeyedByInnovation(om)
    ensures var c := Crossed(dm, om, parent, flag, chance, n);
            forall k | k in c :: && k in dm
                                  && (c[k] == dm[k].(enabled := c[k].enabled)
                                      || (k in om && c[k] == om[k].(enabled := c[k].enabled)))
                                  && (k !in om ==> c[k] == dm[k])
    decreases n
  {
    if n >= 1 {
      CrossedGenes(dm, om, parent, flag, chance, n - 1);
    }
  }

  /** The child is keyed by number whenever both parents are. */
  lemma {:induction false} CrossedKeyed(dm: GeneMap, om: GeneMap, parent: int -> nat, flag: int -> real, chance: real, n: int)
    requires KeyedByInnovation(dm) && KeyedByInnovation(om)
    ensures KeyedByInnovation(Crossed(dm, om, parent, flag, chance, n))
    decreases n
  {
    if n >= 1 {
      CrossedKeyed(dm, om, parent, flag, chance, n - 1);
    }
  }

  /**
   * The sharedLength probe: counts up from 1 while both parents have the number. It fails when
   * number 1 is missing from either parent, and when the probe passes 100000.
   */
  method SharedLength(dm: GeneMap, om: GeneMap) returns (r: Result<int>)
    ensures r.Failure? <==> !(1 in dm && 1 in om) || forall j | 1 <= j <= MaxProbe :: j in dm && j in om
    ensures r.Success? ==> && 1 <= r.value < MaxProbe
                           && (forall j | 1 <= j <= r.value :: j in dm && j in om)
                           && !(r.value + 1 in dm && r.value + 1 in om)
  {
    var i := 1;
    while i <= MaxProbe && i in dm && i in om
      invariant 1 <= i <= MaxProbe + 1
      invariant forall j | 1 <= j < i :: j in dm && j in om
      decreases MaxProbe + 1 - i
    {
      i := i + 1;
    }
    if i > MaxProbe {
      return Failure("RuntimeException");
    }
    if i == 1 {
      return Failure("AssertionError");
    }
    return Success(i - 1);
  }

  /** The species guard of crossAndAdd and crossDominant; a missing species is a null dereference. */
  function SpeciesMatch(a: Genome, b: Genome): (r: Outcome)
    reads a, b
    ensures r.Pass? <==> a.species != null && a.species == b.species
  {
    if a.species == null then Fail("NullPointerException")
    else if a.species != b.species then Fail("Species must match when crossing")
    else Pass
  }

  /**
   * crossDominant up to the renumbering: the guards, then a new genome with the dominant's node
   * lists and no species, filled by addGene (both parents given) with the genes of `Crossed`.
   */
  method Breed(dominant: Genome, other: Genome, d: CrossDraws) returns (r: Result<Genome>)
    requires dominant.Valid() && other.Valid()
    ensures r.Failure? <==> || SpeciesMatch(dominant, other).Fail?
                            || dominant.genes == map[] || other.genes == map[]
                            || !(1 in dominant.genes && 1 in other.genes)
                            || forall j | 1 <= j <= MaxProbe :: j in dominant.genes && j in other.genes
    ensures r.Success? ==> && fresh(r.value) && r.value.core == dominant.core && r.value.species == null
                           && r.value.inputNodes == dominant.inputNodes && r.value.outputNodes == dominant.outputNodes
                           && r.value.fitness == -1.0 && r.value.Valid()
                           && r.value.genes == Crossed(dominant.genes, other.genes, d.parent, d.flag,
                                                       dominant.core.GetSetting(GeneDisableChance), LastKey(dominant.genes))
  {
    var same := SpeciesMatch(dominant, other);
    if same.Fail? {
      return Failure(same.error);
    }
    if dominant.genes == map[] || other.genes == map[] {
      return Failure("Genes may not be empty");
    }
    var shared := SharedLength(dominant.genes, other.genes);
    if shared.Failure? {
      return Failure(shared.error);
    }
    var made := Genome.New(dominant.core, null, dominant.inputNodes, dominant.outputNodes);
    var child := made.value;
    var top := HighestInnovationNumber(dominant.genes).value;
    assert top == LastKey(dominant.genes);
    Fill(child, dominant, other, d, top);
    return Success(child);
  }

  /** crossDominant's loop: addGene for every number from 1 to top that the dominant has. */
  method Fill(child: Genome, dominant: Genome, other: Genome, d: CrossDraws, top: int)
    requires child != dominant && child != other && child.core == dominant.core
    requires dominant.Valid() && other.Valid() && child.Valid()
    requires child.genes == map[] && child.fitness == -1.0
    modifies child
    ensures child.genes == Crossed(dominant.genes, other.genes, d.parent, d.flag, dominant.core.GetSetting(GeneDisableChance), top)
    ensures child.Valid() && child.fitness == -1.0 && child.species == old(child.species)
    ensures child.inputNodes == old(child.inputNodes) && child.outputNodes == old(child.outputNodes)
  {
    ghost var dm, om := dominant.genes, other.genes;
    ghost var chance := dominant.core.GetSetting(GeneDisableChance);
    var i := 1;
    while i <= top
      invariant 1 <= i <= if top < 1 then 1 else top + 1
      invariant child.species == old(child.species)
      invariant child.inputNodes == old(child.inputNodes) && child.outputNodes == old(child.outputNodes)
      invariant child.fitness == -1.0 && child.Valid()
      invariant child.genes == Crossed(dm, om, d.parent, d.flag, chance, i - 1)
    {
      if i in dominant.genes {
        var gene := if i in other.genes && d.parent(i) % 2 == 1 then other.genes[i] else dominant.genes[i];
        assert gene.innovationNumber == i;
        CrossedKeys(dm, om, d.parent, d.flag, chance, i - 1);
        assert i !in child.genes;
        var o := child.AddGene(gene, dominant, other, d.flag(i));
      }
      i := i + 1;
    }
  }

  /**
   * crossDominant: `Breed`, then fixDuplicates against `candidates` (every member of every
   * species, in the population's order) and mutate(). The child is a fresh, well-formed genome
   * with the dominant's node lists and no species.
   */
  method CrossDominant(dominant: Genome, other: Genome, candidates: seq<Genome>, d: CrossDraws) returns (r: Result<Genome>)
    requires dominant.Valid() && other.Valid()
    modifies dominant.core
    ensures r.Failure? <== || SpeciesMatch(dominant, other).Fail?
                           || dominant.genes == map[] || other.genes == map[]
    ensures r.Success? ==> && fresh(r.value) && r.value.core == dominant.core && r.value.species == null
                           && r.value.inputNodes == dominant.inputNodes && r.value.outputNodes == dominant.outputNodes
                           && r.value.fitness == -1.0 && r.value.Valid()
    ensures dominant.core.settings == old(dominant.core.settings)
    ensures dominant.core.currentInnovationNumber >= old(dominant.core.currentInnovationNumber)
  {
    r := Breed(dominant, other, d);
    if r.Failure? {
      return r;
    }
    var child := r.value;
    var o := Renumber(child, candidates);
    if o.Fail? {
      return Failure(o.error);
    }
    var mutation := new Mutations.Mutation(child);
    o := mutation.Mutate(d.mutation);
    if o.Fail? {
      return Failure(o.error);
    }
    return Success(child);
  }

  /** The child's fixDuplicates(): on success it is still well formed; nothing but its genes changes. */
  method Renumber(child: Genome, candidates: seq<Genome>) returns (o: Outcome)
    requires child.Valid()
    modifies child
    ensures o.Pass? ==> child.Valid()
    ensures child.inputNodes == old(child.inputNodes) && child.outputNodes == old(child.outputNodes)
    ensures child.species == old(child.species) && child.fitness == old(child.fitness)
  {
    o := child.FixDuplicates(candidates);
  }
}
