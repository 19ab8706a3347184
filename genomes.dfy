/**
 * Genomes and species (Genome.java, Species.java). They point at each other (a genome at its
 * species, a species at its representative and members), so both classes live in this module.
 */
module Genomes {
  import opened Wrappers
  import opened Genes
  import opened Ieee
  import opened Setting
  import Core
  import D = Distance
  import ArrayUtils
  import Renaming
  import Ranking

  /**
   * The enabled flag addGene stores for gene g: re-rolled, with `chance` of coming out disabled
   * (the draw u in [0, 1) succeeds when u <= chance), exactly when both parents carry g's number
   * and exactly one of them has it disabled; otherwise g's own flag. Nothing else of g changes.
   */
  function Inherit(g: Gene, parents: Option<(GeneMap, GeneMap)>, chance: real, u: real): (r: Gene)
    ensures r == g.(enabled := r.enabled)
    ensures r.enabled != g.enabled ==>
              && parents.Some? && g.innovationNumber in parents.value.0 && g.innovationNumber in parents.value.1
              && parents.value.0[g.innovationNumber].enabled != parents.value.1[g.innovationNumber].enabled
    ensures parents.Some? && g.innovationNumber in parents.value.0 && g.innovationNumber in parents.value.1
            && parents.value.0[g.innovationNumber].enabled != parents.value.1[g.innovationNumber].enabled
            ==> (r.enabled <==> chance < u)
  {
    var n := g.innovationNumber;
    if parents.Some? && n in parents.value.0 && n in parents.value.1
       && parents.value.0[n].enabled != parents.value.1[n].enabled
    then g.(enabled := !(u <= chance))
    else g
  }

  /** The innovation numbers carried by a genome's genes, in innovation order. */
  function Numbers(m: GeneMap): (ns: seq<int>)
    ensures |ns| == |m|
    ensures KeyedByInnovation(m) ==> ns == SortedKeys(m)
  {
    NumbersAt(m, SortedKeys(m))
  }

  /** The numbers carried by the genes under the keys ks. */
  function NumbersAt(m: GeneMap, ks: seq<int>): (ns: seq<int>)
    requires forall i | 0 <= i < |ks| :: ks[i] in m
    ensures |ns| == |ks|
    ensures KeyedByInnovation(m) ==> ns == ks
  {
    var ns := seq(|ks|, i requires 0 <= i < |ks| => m[ks[i]].innovationNumber);
    assert KeyedByInnovation(m) ==> forall i | 0 <= i < |ks| :: ns[i] == ks[i];
    ns
  }

  /** The first of the lists `others` equal to `own`. */
  function FirstMatch<T(==)>(own: T, others: seq<T>): (r: Option<nat>)
    ensures r.Some? ==> r.value < |others| && others[r.value] == own
    ensures r.Some? ==> forall j | 0 <= j < r.value :: others[j] != own
    ensures r.None? <==> own !in others
  {
    if others == [] then None
    else if others[0] == own then Some(0)
    else
      var r := FirstMatch(own, others[1..]);
      if r.None? then None else Some(r.value + 1)
  }

  /** The connection list of each gene map of a list. */
  function ConnectionLists(ms: seq<GeneMap>): (r: seq<seq<Connection>>)
    ensures |r| == |ms|
    ensures forall i | 0 <= i < |ms| :: r[i] == AllConnections(ms[i])
  {
    seq(|ms|, i requires 0 <= i < |ms| => AllConnections(ms[i]))
  }

  /**
   * What fixDuplicates does to a genome's genes, given the genes of the genomes it scans: the
   * first one with the same connection list lends its numbers; with none, nothing changes.
   */
  function FixedDuplicates(own: GeneMap, others: seq<GeneMap>): Result<GeneMap> {
    var j := FirstMatch(AllConnections(own), ConnectionLists(others));
    if j.None? then Success(own)
    else Renaming.RenameAsWritten(own, Numbers(others[j.value]))
  }

  /**
   * When the matching genome's numbers do not collide with numbers still to be renamed, this
   * genome ends up with exactly the matching genome's numbers and its own connections, in the
   * same order.
   */
  lemma FixedDuplicatesTakesNumbers(own: GeneMap, others: seq<GeneMap>, j: nat)
    requires j < |others| && FirstMatch(AllConnections(own), ConnectionLists(others)) == Some(j)
    requires KeyedByInnovation(own) && KeyedByInnovation(others[j])
    requires Renaming.NoCollision(own, SortedKeys(others[j]))
    ensures FixedDuplicates(own, others).Success?
    ensures FixedDuplicates(own, others).value.Keys == others[j].Keys
    ensures AllConnections(FixedDuplicates(own, others).value) == AllConnections(own)
  {
    assert FixedDuplicates(own, others) == Renaming.RenameAsWritten(own, Numbers(others[j]));
    TakesNumbers(own, others[j]);
  }

  /** Renaming `own` to the numbers of a genome with as many genes, without collisions. */
  lemma TakesNumbers(own: GeneMap, o: GeneMap)
    requires KeyedByInnovation(own) && KeyedByInnovation(o) && |o| == |own|
    requires Renaming.NoCollision(own, SortedKeys(o))
    ensures Renaming.RenameAsWritten(own, Numbers(o)).Success?
    ensures Renaming.RenameAsWritten(own, Numbers(o)).value.Keys == o.Keys
    ensures AllConnections(Renaming.RenameAsWritten(own, Numbers(o)).value) == AllConnections(own)
  {
    var ts := SortedKeys(o);
    assert Numbers(o) == ts;
    IncreasingIsDistinct(ts);
    Renaming.RenameWithoutCollision(own, ts);
    RenumberedKeepsConnections(own, ts);
  }

  lemma IncreasingIsDistinct(ts: seq<int>)
    requires StrictlyIncreasing(ts)
    ensures Distinct(ts)
  {
    forall i, j | 0 <= i < j < |ts| ensures ts[i] != ts[j] {
      assert ts[i] < ts[j];
    }
  }

  /** Renumbering to increasing targets keeps the order, so it keeps the connection list. */
  lemma RenumberedKeepsConnections(own: GeneMap, ts: seq<int>)
    requires |ts| == |own| && StrictlyIncreasing(ts)
    ensures AllConnections(Renaming.Renumbered(own, ts)) == AllConnections(own)
  {
    RelabelKeepsConnections(GenesInOrder(own), ts);
  }

  lemma RelabelKeepsConnections(gs: seq<Gene>, ts: seq<int>)
    requires |ts| == |gs| && StrictlyIncreasing(ts)
    ensures AllConnections(Renaming.Relabel(gs, ts)) == ConnectionsOf(gs)
  {
    var r := Renaming.Relabel(gs, ts);
    RelabelKeys(gs, ts);
    IncreasingIsDistinct(ts);
    var rs := GenesInOrder(r);
    forall i | 0 <= i < |gs| ensures ConnectionOf(rs[i]) == ConnectionOf(gs[i]) {
      RelabelAt(gs, ts, i);
    }
  }

  lemma RelabelAt(gs: seq<Gene>, ts: seq<int>, i: nat)
    requires |ts| == |gs| && Distinct(ts) && i < |gs|
    ensures ts[i] in Renaming.Relabel(gs, ts)
    ensures Renaming.Relabel(gs, ts)[ts[i]] == gs[i].(innovationNumber := ts[i])
  {
    var p := Renaming.Position(ts, ts[i]);
    assert ts[p] == ts[i];
  }

  lemma RelabelKeys(gs: seq<Gene>, ts: seq<int>)
    requires |ts| == |gs| && StrictlyIncreasing(ts)
    ensures SortedKeys(Renaming.Relabel(gs, ts)) == ts
  {
    var ks := SortedKeys(Renaming.Relabel(gs, ts));
    IncreasingIsDistinct(ts);
    DistinctCount(ts);
    assert Renaming.Relabel(gs, ts).Keys == set k | k in ts;
    IncreasingSameElements(ks, ts);
  }

  lemma {:induction false} DistinctCount(ts: seq<int>)
    requires Distinct(ts)
    ensures |set k | k in ts| == |ts|
  {
    if ts != [] {
      var rest := ts[1..];
      assert Distinct(rest) by {
        forall i, j | 0 <= i < j < |rest| ensures rest[i] != rest[j] {
          assert rest[i] == ts[i + 1] && rest[j] == ts[j + 1];
        }
      }
      DistinctCount(rest);
      assert (set k | k in ts) == (set k | k in rest) + {ts[0]};
      assert ts[0] !in rest by {
        forall i | 0 <= i < |rest| ensures rest[i] != ts[0] {
          assert rest[i] == ts[i + 1];
        }
      }
    }
  }

  /** The head of an increasing sequence is its least element. */
  lemma HeadIsLeast(s: seq<int>, x: int)
    requires StrictlyIncreasing(s) && x in s
    ensures s[0] <= x
  {
    var i :| 0 <= i < |s| && s[i] == x;
    if i > 0 {
      assert s[0] < s[i];
    }
  }

  /** Two increasing sequences with the same elements and the same head agree past the head. */
  lemma TailsAlike(a: seq<int>, b: seq<int>)
    requires StrictlyIncreasing(a) && StrictlyIncreasing(b) && a != [] && b != [] && a[0] == b[0]
    requires forall x :: x in a <==> x in b
    ensures forall x :: x in a[1..] <==> x in b[1..]
  {
    forall x | x in a[1..]
      ensures x in b[1..]
    {
      Past(a, b, x);
    }
    forall x | x in b[1..]
      ensures x in a[1..]
    {
      Past(b, a, x);
    }
  }

  /** An element past the head of one is past the head of the other. */
  lemma Past(a: seq<int>, b: seq<int>, x: int)
    requires StrictlyIncreasing(a) && StrictlyIncreasing(b) && a != [] && b != [] && a[0] == b[0]
    requires forall y :: y in a <==> y in b
    requires x in a[1..]
    ensures x in b[1..]
  {
    var i :| 0 <= i < |a| - 1 && a[1..][i] == x;
    assert a[i + 1] == x && a[0] < x;
    assert x in b;
    var k :| 0 <= k < |b| && b[k] == x;
    assert k != 0;
    assert b[1..][k - 1] == x;
  }

  /** Two increasing sequences with the same elements are equal. */
  lemma {:induction false} IncreasingSameElements(a: seq<int>, b: seq<int>)
    requires StrictlyIncreasing(a) && StrictlyIncreasing(b) && |a| == |b|
    requires forall x :: x in a <==> x in b
    ensures a == b
  {
    if a != [] {
      assert a[0] in a && b[0] in b;
      HeadIsLeast(b, a[0]);
      HeadIsLeast(a, b[0]);
      var a', b' := a[1..], b[1..];
      TailsAlike(a, b);
      IncreasingSameElements(a', b');
      assert a == [a[0]] + a' && b == [b[0]] + b';
    }
  }

  class Genome {
    const core: Core.EvolutionCore
    var genes: GeneMap
    var inputNodes: seq<int>
    var outputNodes: seq<int>
    var species: Species?
    /** -1 until the fitness is computed (and again whenever the calculator itself returns -1). */
    var fitness: real

    /** The node lists hold no repeats and every gene sits under its own number. */
    ghost predicate Valid()
      reads this
    {
      Distinct(inputNodes) && Distinct(outputNodes) && KeyedByInnovation(genes)
    }

    /** What the fitness calculator and the evaluator see of this genome. */
    function Net(): Network
      reads this
    {
      Network(genes, inputNodes, outputNodes)
    }

    /** The state before the constructor's node loops. */
    constructor Empty(core: Core.EvolutionCore, member: Species?)
      ensures this.core == core && species == member
      ensures genes == map[] && inputNodes == [] && outputNodes == [] && fitness == -1.0
      ensures Valid()
    {
      this.core := core;
      species := member;
      genes := map[];
      inputNodes := [];
      outputNodes := [];
      fitness := -1.0;
    }

    /**
     * The constructor: sets core and species, then adds the input nodes and the output nodes one
     * by one, which fails on the first repeated node.
     */
    static method New(core: Core.EvolutionCore, member: Species?, inputs: seq<int>, outputs: seq<int>) returns (r: Result<Genome>)
      ensures r.Success? <==> Distinct(inputs) && Distinct(outputs)
      ensures r.Success? ==> && fresh(r.value) && r.value.core == core && r.value.species == member
                             && r.value.genes == map[] && r.value.inputNodes == inputs
                             && r.value.outputNodes == outputs && r.value.fitness == -1.0
                             && r.value.Valid()
    {
      var g := new Genome.Empty(core, member);
      for i := 0 to |inputs|
        invariant fresh(g) && g.core == core && g.species == member && g.genes == map[]
        invariant g.inputNodes == inputs[..i] && g.outputNodes == [] && g.fitness == -1.0
        invariant Distinct(inputs[..i])
      {
        var o := g.AddInputNode(inputs[i]);
        if o.Fail? {
          assert !Distinct(inputs) by {
            var j :| 0 <= j < i && inputs[..i][j] == inputs[i];
          }
          return Failure(o.error);
        }
        assert inputs[..i + 1] == inputs[..i] + [inputs[i]];
      }
      assert inputs[..|inputs|] == inputs;
      for i := 0 to |outputs|
        invariant fresh(g) && g.core == core && g.species == member && g.genes == map[]
        invariant g.inputNodes == inputs && g.outputNodes == outputs[..i] && g.fitness == -1.0
        invariant Distinct(outputs[..i])
      {
        var o := g.AddOutputNode(outputs[i]);
        if o.Fail? {
          assert !Distinct(outputs) by {
            var j :| 0 <= j < i && outputs[..i][j] == outputs[i];
          }
          return Failure(o.error);
        }
        assert outputs[..i + 1] == outputs[..i] + [outputs[i]];
      }
      assert outputs[..|outputs|] == outputs;
      return Success(g);
    }

    /** Allowed only before the fitness is known. */
    method SetSpecies(sp: Species?) returns (o: Outcome)
      modifies this
      ensures o.Pass? <==> old(fitness) == -1.0
      ensures species == if o.Pass? then sp else old(species)
      ensures genes == old(genes) && inputNodes == old(inputNodes) && outputNodes == old(outputNodes)
      ensures fitness == old(fitness)
    {
      if fitness != -1.0 {
        return Fail("setSpecies() must be called before getFitness()");
      }
      species := sp;
      return Pass;
    }

    /** Appends an input node; fails once the fitness is known or when the node is listed. */
    method AddInputNode(node: int) returns (o: Outcome)
      modifies this
      ensures o.Pass? <==> old(fitness) == -1.0 && node !in old(inputNodes)
      ensures inputNodes == if o.Pass? then old(inputNodes) + [node] else old(inputNodes)
      ensures Distinct(old(inputNodes)) ==> Distinct(inputNodes)
      ensures genes == old(genes) && outputNodes == old(outputNodes)
      ensures species == old(species) && fitness == old(fitness)
    {
      if fitness != -1.0 {
        return Fail("addInputNode() must be called before getFitness()");
      }
      if node in inputNodes {
        return Fail("IllegalArgumentException");
      }
      inputNodes := inputNodes + [node];
      return Pass;
    }

    /** Appends an output node; fails once the fitness is known or when the node is listed. */
    method AddOutputNode(node: int) returns (o: Outcome)
      modifies this
      ensures o.Pass? <==> old(fitness) == -1.0 && node !in old(outputNodes)
      ensures outputNodes == if o.Pass? then old(outputNodes) + [node] else old(outputNodes)
      ensures Distinct(old(outputNodes)) ==> Distinct(outputNodes)
      ensures genes == old(genes) && inputNodes == old(inputNodes)
      ensures species == old(species) && fitness == old(fitness)
    {
      if fitness != -1.0 {
        return Fail("addOutputNode() must be called before getFitness()");
      }
      if node in outputNodes {
        return Fail("IllegalArgumentException");
      }
      outputNodes := outputNodes + [node];
      return Pass;
    }

    /**
     * Stores a copy of `gene` under its number. Fails once the fitness is known or when the
     * number is taken; otherwise exactly that key is added, with the flag Inherit gives it when
     * both parents are present, and every other gene is untouched.
     */
    method AddGene(gene: Gene, parent1: Genome?, parent2: Genome?, u: real) returns (o: Outcome)
      modifies this
      ensures o.Pass? <==> old(fitness) == -1.0 && gene.innovationNumber !in old(genes)
      ensures o.Pass? ==> genes == old(genes)[gene.innovationNumber :=
                Inherit(gene, old(Parents(parent1, parent2)), core.GetSetting(GeneDisableChance), u)]
      ensures o.Pass? && (parent1 == null || parent2 == null) ==> genes == old(genes)[gene.innovationNumber := gene]
      ensures o.Fail? ==> genes == old(genes)
      ensures inputNodes == old(inputNodes) && outputNodes == old(outputNodes)
      ensures species == old(species) && fitness == old(fitness)
      ensures old(Valid()) ==> Valid()
    {
      if fitness != -1.0 {
        return Fail("addGene() must be called before getFitness()");
      }
      if gene.innovationNumber in genes {
        return Fail("Genome already has gene with innovation number");
      }
      var g := gene;
      if parent1 != null && parent2 != null {
        var n := g.innovationNumber;
        if n in parent1.genes && n in parent2.genes {
          var dis1 := !parent1.genes[n].enabled;
          var dis2 := !parent2.genes[n].enabled;
          if (dis1 && !dis2) || (!dis1 && dis2) {
            var disabled := u <= core.GetSetting(GeneDisableChance);
            g := g.(enabled := !disabled);
          }
        }
      }
      genes := genes[g.innovationNumber := g];
      return Pass;
    }

    /** Clones the genes and the node lists; keeps core and species; fitness starts unknown. */
    method Clone() returns (c: Genome)
      requires Valid()
      ensures fresh(c) && c.core == core && c.species == species
      ensures c.genes == genes && c.inputNodes == inputNodes && c.outputNodes == outputNodes
      ensures c.fitness == -1.0 && c.Valid()
    {
      var r := New(core, species, inputNodes, outputNodes);
      c := r.value;
      var copy := CopyGenes(genes);
      c.genes := copy;
    }

    /**
     * Scans `candidates` (every member of every species, in the population's order) for the first
     * genome whose connection list equals this genome's and renumbers this genome's genes to that
     * genome's numbers, position by position, with the source's remove-then-put walk.
     */
    method FixDuplicates(candidates: seq<Genome>) returns (o: Outcome)
      modifies this
      ensures old(fitness) != -1.0 ==> o.Fail? && genes == old(genes)
      ensures old(fitness) == -1.0 ==>
                var r := FixedDuplicates(old(genes), old(GenesOf(candidates)));
                (o.Pass? <==> r.Success?) && (r.Success? ==> genes == r.value)
      ensures inputNodes == old(inputNodes) && outputNodes == old(outputNodes)
      ensures species == old(species) && fitness == old(fitness)
      ensures old(Valid()) && o.Pass? ==> Valid()
    {
      if fitness != -1.0 {
        return Fail("fixDuplicates() must be called before getFitness()");
      }
      var j := FindMatch(AllConnections(genes), ConnectionLists(GenesOf(candidates)));
      if j.None? {
        return Pass;
      }
      o := Rename(Numbers(candidates[j.value].genes));
    }

    /**
     * The remove / renumber / put walk of fixDuplicates over this genome's genes: the genes end
     * up as the walk leaves them.
     */
    method Rename(targets: seq<int>) returns (o: Outcome)
      modifies this
      ensures var r := Renaming.RenameAsWritten(old(genes), targets);
              (o.Pass? <==> r.Success?) && (r.Success? ==> genes == r.value)
      ensures inputNodes == old(inputNodes) && outputNodes == old(outputNodes)
      ensures species == old(species) && fitness == old(fitness)
      ensures old(Valid()) && o.Pass? ==> Valid()
    {
      var a := Renaming.Snapshot(genes);
      var n := if |targets| < |a.slots| then |targets| else |a.slots|;
      var w := Renaming.RunWalk(a, targets, n);
      if w.Failure? {
        return Fail(w.error);
      }
      if |targets| != |a.slots| {
        return Fail("AssertionError");
      }
      if Valid() {
        Renaming.RenameKeepsKeyed(genes, targets);
      }
      genes := Renaming.Contents(w.value);
      return Pass;
    }

    /** The value getFitness() yields: the stored fitness, or else the calculator's value. */
    function Fitness(): real
      reads this
    {
      if fitness != -1.0 then fitness else core.fitnessCalculator(Net())
    }

    /**
     * The fitness, computed by the core's calculator the first time (while the field holds -1)
     * and stored; a computed value above the species' highest raises it. With no species the
     * source dereferences null after storing the value.
     */
    method GetFitness() returns (r: Result<real>)
      modifies this, species
      ensures genes == old(genes) && inputNodes == old(inputNodes) && outputNodes == old(outputNodes)
      ensures species == old(species) && fitness == old(Fitness())
      ensures r.Failure? <==> old(fitness) == -1.0 && species == null
      ensures r.Success? ==> r.value == fitness
      ensures old(fitness) != -1.0 ==> r == Success(fitness) && fitness == old(fitness)
      ensures old(fitness) != -1.0 && species != null ==> Unmoved(species)
      ensures old(fitness) == -1.0 ==> fitness == core.fitnessCalculator(Net())
      ensures old(fitness) == -1.0 && species == null ==> r.Failure?
      ensures old(fitness) == -1.0 && species != null ==> r == Success(fitness) && Raised(species, fitness)
      ensures species != null ==> species.representative == old(species.representative)
                                  && species.members == old(species.members)
    {
      if fitness != -1.0 {
        return Success(fitness);
      }
      fitness := core.fitnessCalculator(Net());
      if species == null {
        return Failure("NullPointerException");
      }
      if fitness > species.highestFitness {
        species.SetHighestFitness(fitness);
      }
      return Success(fitness);
    }

    /** Genome.distance with the first genome's coefficients. */
    static method Distance(a: Genome, b: Genome) returns (r: Result<Double>)
      ensures r == D.DistanceOf(a.genes, b.genes, a.core.GetSetting(DistanceExcessWeight),
                                a.core.GetSetting(DistanceDisjointWeight), a.core.GetSetting(DistanceWeightsWeight))
      ensures r.Failure? <==> a.genes == map[] || b.genes == map[]
    {
      r := D.Distance(a.genes, b.genes, a.core.GetSetting(DistanceExcessWeight),
                      a.core.GetSetting(DistanceDisjointWeight), a.core.GetSetting(DistanceWeightsWeight));
    }
  }

  /**
   * The copy loop of clone: every gene, visited in innovation order, put under its key (its own
   * number, in a genome whose genes sit under their numbers).
   */
  method CopyGenes(m: GeneMap) returns (c: GeneMap)
    ensures c == m
  {
    c := CopyAlong(m, SortedKeys(m));
  }

  method CopyAlong(m: GeneMap, ks: seq<int>) returns (c: GeneMap)
    requires forall i | 0 <= i < |ks| :: ks[i] in m
    requires forall k | k in m :: k in ks
    ensures c == m
  {
    c := map[];
    for i := 0 to |ks|
      invariant forall k :: k in c <==> k in ks[..i]
      invariant forall k | k in c :: c[k] == m[k]
    {
      assert ks[..i + 1] == ks[..i] + [ks[i]];
      c := c[ks[i] := m[ks[i]]];
    }
    assert ks[..|ks|] == ks;
    forall k ensures k in c <==> k in m {
      if k in c {
        var i :| 0 <= i < |ks| && ks[i] == k;
      }
    }
    assert c.Keys == m.Keys;
    assert forall k | k in m :: c[k] == m[k];
  }

  /**
   * The scan of fixDuplicates over the candidates' connection lists: the position of the first
   * list equal, position by position, to `own`.
   */
  method FindMatch(own: seq<Connection>, lists: seq<seq<Connection>>) returns (j: Option<nat>)
    ensures j == FirstMatch(own, lists)
  {
    for i := 0 to |lists|
      invariant forall k | 0 <= k < i :: lists[k] != own
    {
      var same := ArrayUtils.Equals(lists[i], own);
      if same {
        FirstMatchAt(own, lists, i);
        return Some(i);
      }
    }
    FirstMatchMissing(own, lists);
    return None;
  }

  /** Both parents' genes when both are given. */
  function Parents(p1: Genome?, p2: Genome?): Option<(GeneMap, GeneMap)>
    reads p1, p2
  {
    if p1 != null && p2 != null then Some((p1.genes, p2.genes)) else None
  }

  /** The genes of each genome of a list. */
  function GenesOf(gs: seq<Genome>): (r: seq<GeneMap>)
    reads set g | g in gs
    ensures |r| == |gs| && forall i | 0 <= i < |gs| :: r[i] == gs[i].genes
  {
    seq(|gs|, i reads set g | g in gs => if 0 <= i < |gs| then gs[i].genes else map[])
  }

  /** A hit at i after misses before i is the first match. */
  lemma {:induction false} FirstMatchAt<T>(own: T, others: seq<T>, i: nat)
    requires i < |others| && others[i] == own
    requires forall j | 0 <= j < i :: others[j] != own
    ensures FirstMatch(own, others) == Some(i)
  {
    if i > 0 {
      FirstMatchAt(own, others[1..], i - 1);
    }
  }

  lemma {:induction false} FirstMatchMissing<T>(own: T, others: seq<T>)
    requires forall j | 0 <= j < |others| :: others[j] != own
    ensures FirstMatch(own, others) == None
  {
    if others != [] {
      FirstMatchMissing(own, others[1..]);
    }
  }

  /**
   * `order` lists the set `s` once each: the iteration order of a HashSet, which the source does
   * not fix, is a parameter wherever a member set is walked.
   */
  predicate Enumerates<T(==)>(order: seq<T>, s: set<T>) {
    Distinct(order) && (set x | x in order) == s
  }

  /**
   * getAverageFitness' loop: each listed genome scored in turn and the scores added up; the
   * first genome that cannot be scored ends it.
   */
  method Totalled(order: seq<Genome>, ghost owners: set<Species>) returns (r: Result<real>)
    requires Distinct(order)
    modifies (set g | g in order), Owners(order)
    ensures r.Failure? <==> exists g | g in order :: old(g.fitness) == -1.0 && old(g.species) == null
    ensures r.Success? ==> r.value == Sum(old(Scores(order)))
    ensures r.Success? ==> forall i | 0 <= i < |order| :: order[i].fitness == old(order[i].Fitness())
    ensures forall sp | sp in owners :: sp.members == old(sp.members) && sp.representative == old(sp.representative)
    ensures forall sp | sp in owners :: sp.failedGenerations == old(sp.failedGenerations) || sp.failedGenerations == 0
    ensures forall g | g in order :: g.genes == old(g.genes) && g.species == old(g.species)
                                     && g.inputNodes == old(g.inputNodes) && g.outputNodes == old(g.outputNodes)
  {
    ghost var scores := Scores(order);
    var total := 0.0;
    var counter := 0;
    while counter < |order|
      invariant 0 <= counter <= |order|
      invariant total == Sum(scores[..counter])
      invariant forall sp | sp in owners :: sp.members == old(sp.members) && sp.representative == old(sp.representative)
      invariant forall sp | sp in owners :: sp.failedGenerations == old(sp.failedGenerations) || sp.failedGenerations == 0
      invariant forall g | g in order :: g.genes == old(g.genes) && g.species == old(g.species)
                                        && g.inputNodes == old(g.inputNodes) && g.outputNodes == old(g.outputNodes)
      invariant forall j | 0 <= j < counter :: order[j].fitness == scores[j]
      invariant forall j | counter <= j < |order| :: order[j].fitness == old(order[j].fitness)
      invariant forall j | 0 <= j < counter :: !(old(order[j].fitness) == -1.0 && old(order[j].species) == null)
    {
      assert scores[counter] == old(order[counter].Fitness());
      var f := Visit(order[counter], order, owners);
      if f.Failure? {
        return Failure(f.error);
      }
      assert scores[..counter + 1] == scores[..counter] + [scores[counter]];
      total := total + f.value;
      counter := counter + 1;
    }
    assert scores[..counter] == scores;
    return Success(total);
  }

  /** A genome whose genes and node lists are as they were is as well-formed as it was. */
  twostate lemma StillValid(x: Genome)
    requires old(x.Valid())
    requires x.genes == old(x.genes) && x.inputNodes == old(x.inputNodes) && x.outputNodes == old(x.outputNodes)
    ensures x.Valid()
  {
  }

  /**
   * getFitness() on one genome of a list, which changes neither the genes, species and node
   * lists of the list's genomes nor any species' members and representative, and no other
   * genome's fitness.
   */
  method Visit(g: Genome, ghost all: seq<Genome>, ghost owners: set<Species>) returns (f: Result<real>)
    requires g in all
    modifies g, g.species
    ensures f.Failure? <==> old(g.fitness) == -1.0 && old(g.species) == null
    ensures f.Success? ==> f.value == g.fitness == old(g.Fitness())
    ensures forall h | h in all :: h.genes == old(h.genes) && h.species == old(h.species)
                                   && h.inputNodes == old(h.inputNodes) && h.outputNodes == old(h.outputNodes)
    ensures forall h | h in all && h != g :: h.fitness == old(h.fitness)
    ensures forall sp | sp in owners :: sp.members == old(sp.members) && sp.representative == old(sp.representative)
                                        && (sp.failedGenerations == old(sp.failedGenerations) || sp.failedGenerations == 0)
  {
    f := g.GetFitness();
  }

  /** The species the listed genomes point at. */
  function Owners(gs: seq<Genome>): set<Species>
    reads set g | g in gs
  {
    set g | g in gs && g.species != null :: g.species
  }

  /** What getFitness() yields for each listed genome. */
  ghost function Scores(gs: seq<Genome>): (r: seq<real>)
    reads set g | g in gs
    ensures |r| == |gs| && forall i | 0 <= i < |gs| :: r[i] == gs[i].Fitness()
  {
    if gs == [] then [] else Scores(gs[..|gs| - 1]) + [gs[|gs| - 1].Fitness()]
  }

  function Sum(xs: seq<real>): real {
    if xs == [] then 0.0 else Sum(xs[..|xs| - 1]) + xs[|xs| - 1]
  }

  /** total / counter in doubles: the mean of the values, and NaN (0 / 0) for no values. */
  function Mean(xs: seq<real>): (r: Double)
    ensures xs == [] <==> r.NaN?
    ensures xs != [] ==> r == Finite(Sum(xs) / |xs| as real)
  {
    Div(Finite(Sum(xs)), Finite(|xs| as real))
  }

  /**
   * getFitness() on each listed genome in turn: each ends up holding the value getFitness()
   * yields, and the walk fails as soon as it meets a genome still to be scored that has no
   * species to report to.
   */
  method Evaluate(gs: seq<Genome>) returns (o: Outcome)
    requires Distinct(gs)
    modifies (set g | g in gs), Owners(gs)
    ensures o.Fail? <==> exists g | g in gs :: old(g.fitness) == -1.0 && old(g.species) == null
    ensures o.Pass? ==> forall i | 0 <= i < |gs| :: gs[i].fitness == old(gs[i].Fitness())
    ensures forall g | g in gs :: g.genes == old(g.genes) && g.species == old(g.species)
                                  && g.inputNodes == old(g.inputNodes) && g.outputNodes == old(g.outputNodes)
    ensures forall sp | sp in Owners(gs) :: sp.representative == old(sp.representative) && sp.members == old(sp.members)
                                            && (sp.failedGenerations == old(sp.failedGenerations) || sp.failedGenerations == 0)
  {
    o := Pass;
    var i := 0;
    while i < |gs|
      invariant 0 <= i <= |gs|
      invariant o.Pass?
      invariant forall g | g in gs :: g.genes == old(g.genes) && g.species == old(g.species)
                                      && g.inputNodes == old(g.inputNodes) && g.outputNodes == old(g.outputNodes)
      invariant forall sp | sp in old(Owners(gs)) :: sp.representative == old(sp.representative) && sp.members == old(sp.members)
                                                   && (sp.failedGenerations == old(sp.failedGenerations) || sp.failedGenerations == 0)
      invariant forall j | 0 <= j < i :: gs[j].fitness == old(gs[j].Fitness())
      invariant forall j | i <= j < |gs| :: gs[j].fitness == old(gs[j].fitness)
      invariant forall j | 0 <= j < i :: !(old(gs[j].fitness) == -1.0 && old(gs[j].species) == null)
    {
      var r := gs[i].GetFitness();
      if r.Failure? {
        return Fail(r.error);
      }
      i := i + 1;
    }
  }

  /**
   * Collections.sort(list, new GenomeSorter()): the comparator scores the genomes, which happens
   * to every genome once the list holds two or more; then a non-increasing permutation by score.
   */
  method Rank(list: seq<Genome>) returns (r: Result<seq<Genome>>)
    requires Distinct(list)
    modifies (set g | g in list), Owners(list)
    ensures r.Failure? <==> |list| >= 2 && exists g | g in list :: old(g.fitness) == -1.0 && old(g.species) == null
    ensures r.Success? ==> multiset(r.value) == multiset(list)
    ensures r.Success? ==> forall i, j | 0 <= i < j < |r.value| :: r.value[i].fitness >= r.value[j].fitness
    ensures r.Success? && |list| >= 2 ==> forall i | 0 <= i < |list| :: list[i].fitness == old(list[i].Fitness())
    ensures |list| < 2 ==> forall g | g in list :: g.fitness == old(g.fitness)
    ensures forall g | g in list :: g.genes == old(g.genes) && g.species == old(g.species)
                                    && g.inputNodes == old(g.inputNodes) && g.outputNodes == old(g.outputNodes)
    ensures forall sp | sp in Owners(list) :: sp.representative == old(sp.representative) && sp.members == old(sp.members)
                                              && (sp.failedGenerations == old(sp.failedGenerations) || sp.failedGenerations == 0)
  {
    if |list| >= 2 {
      var o := Evaluate(list);
      if o.Fail? {
        return Failure(o.error);
      }
    }
    var key := map g | g in list :: g.fitness;
    var ranked := Ranking.Sort(list, key);
    forall i, j | 0 <= i < j < |ranked| ensures ranked[i].fitness >= ranked[j].fitness {
      assert ranked[i] in multiset(list) && ranked[j] in multiset(list);
    }
    return Success(ranked);
  }

  /** The species' record is as it was. */
  twostate predicate Unmoved(s: Species)
    reads s
  {
    && s.highestFitness == old(s.highestFitness) && s.failedGenerations == old(s.failedGenerations)
    && s.representative == old(s.representative) && s.members == old(s.members)
  }

  /** calculateFitness' update of the species: a value above the highest becomes the highest. */
  twostate predicate Raised(s: Species, f: real)
    reads s
  {
    if f > old(s.highestFitness) then s.highestFitness == f && s.failedGenerations == 0
    else s.highestFitness == old(s.highestFitness) && s.failedGenerations == old(s.failedGenerations)
  }

  class Species {
    var representative: Genome
    var members: set<Genome>
    var highestFitness: real
    var failedGenerations: int

    /** The fields as the constructor leaves them, before the representative is pointed here. */
    constructor Of(rep: Genome)
      ensures representative == rep && members == {} && highestFitness == 0.0 && failedGenerations == 0
    {
      representative := rep;
      members := {};
      highestFitness := 0.0;
      failedGenerations := 0;
    }

    /**
     * The constructor: the representative becomes the representative and points back at the new
     * species, which fails once its fitness is known. It is not added to the members.
     */
    static method New(rep: Genome) returns (r: Result<Species>)
      modifies rep
      ensures r.Success? <==> old(rep.fitness) == -1.0
      ensures r.Success? ==> && fresh(r.value) && r.value.representative == rep && r.value.members == {}
                             && r.value.highestFitness == 0.0 && r.value.failedGenerations == 0
                             && rep.species == r.value
      ensures r.Failure? ==> rep.species == old(rep.species)
      ensures rep.genes == old(rep.genes) && rep.inputNodes == old(rep.inputNodes)
      ensures rep.outputNodes == old(rep.outputNodes) && rep.fitness == old(rep.fitness)
    {
      var s := new Species.Of(rep);
      var o := rep.SetSpecies(s);
      if o.Fail? {
        return Failure(o.error);
      }
      return Success(s);
    }

    /** Records a new highest fitness and resets the stagnation counter. */
    method SetHighestFitness(f: real)
      modifies this
      ensures highestFitness == f && failedGenerations == 0
      ensures representative == old(representative) && members == old(members)
    {
      highestFitness := f;
      failedGenerations := 0;
    }

    /** Sets the stagnation counter; nothing else changes. */
    method SetFailedGenerations(n: int)
      modifies this
      ensures failedGenerations == n && highestFitness == old(highestFitness)
      ensures representative == old(representative) && members == old(members)
    {
      failedGenerations := n;
    }

    /** isCompatible as a function of the heap: the representative's coefficients, g's threshold. */
    function Compatibility(g: Genome): Result<bool>
      reads this, representative, representative.core, g, g.core
    {
      var d := D.DistanceOf(representative.genes, g.genes, representative.core.GetSetting(DistanceExcessWeight),
                            representative.core.GetSetting(DistanceDisjointWeight),
                            representative.core.GetSetting(DistanceWeightsWeight));
      if d.Failure? then Failure(d.error)
      else Success(LessEq(d.value, Finite(g.core.GetSetting(SpeciesCompatibiltyDistance))))
    }

    /**
     * A genome is compatible when its distance from the representative is a number no larger
     * than the compatibility threshold; a NaN distance (no matching genes) is never compatible.
     */
    method IsCompatible(g: Genome) returns (r: Result<bool>)
      ensures r == Compatibility(g)
      ensures r.Failure? <==> representative.genes == map[] || g.genes == map[]
      ensures r.Success? ==>
                var d := D.DistanceOf(representative.genes, g.genes, representative.core.GetSetting(DistanceExcessWeight),
                                      representative.core.GetSetting(DistanceDisjointWeight),
                                      representative.core.GetSetting(DistanceWeightsWeight)).value;
                (r.value <==> d.Finite? && d.v <= g.core.GetSetting(SpeciesCompatibiltyDistance))
    {
      var d := Genome.Distance(representative, g);
      if d.Failure? {
        return Failure(d.error);
      }
      var threshold := g.core.GetSetting(SpeciesCompatibiltyDistance);
      D.NaNExactlyWithoutMatches(representative.genes, g.genes, representative.core.GetSetting(DistanceExcessWeight),
                                 representative.core.GetSetting(DistanceDisjointWeight),
                                 representative.core.GetSetting(DistanceWeightsWeight));
      if d.value.NaN? {
        ComparisonsWithNaNFail(d.value, Finite(threshold));
      } else {
        LessEqOnFinite(d.value.v, threshold);
      }
      return Success(LessEq(d.value, Finite(threshold)));
    }

    /**
     * getAverageFitness: each member scored in turn (in the set's iteration order `order`), the
     * scores added up and divided by the count; 0 / 0, NaN, for a species without members.
     */
    method GetAverageFitness(order: seq<Genome>) returns (r: Result<Double>)
      requires Enumerates(order, members)
      modifies (set g | g in order), Owners(order)
      ensures r.Failure? <==> exists g | g in order :: old(g.fitness) == -1.0 && old(g.species) == null
      ensures r.Success? ==> r.value == Mean(old(Scores(order)))
      ensures r.Success? ==> forall i | 0 <= i < |order| :: order[i].fitness == old(order[i].Fitness())
      ensures members == old(members) && representative == old(representative)
      ensures failedGenerations == old(failedGenerations) || failedGenerations == 0
      ensures forall g | g in order :: g.genes == old(g.genes) && g.species == old(g.species)
                                       && g.inputNodes == old(g.inputNodes) && g.outputNodes == old(g.outputNodes)
    {
      var total := Totalled(order, {this});
      if total.Failure? {
        return Failure(total.error);
      }
      return Success(Div(Finite(total.value), Finite(|order| as real)));
    }

    /**
     * getBestPerforming: the members copied into a list and sorted with GenomeSorter, best first.
     * The sort scores every member once the list holds two or more; a single member is never
     * compared and so never scored.
     */
    method GetBestPerforming(order: seq<Genome>) returns (r: Result<seq<Genome>>)
      requires Enumerates(order, members)
      modifies (set g | g in order), Owners(order)
      ensures r.Failure? <==> |order| >= 2 && exists g | g in order :: old(g.fitness) == -1.0 && old(g.species) == null
      ensures r.Success? ==> multiset(r.value) == multiset(order)
      ensures r.Success? ==> forall i, j | 0 <= i < j < |r.value| :: r.value[i].fitness >= r.value[j].fitness
      ensures r.Success? && |order| >= 2 ==> forall i | 0 <= i < |order| :: order[i].fitness == old(order[i].Fitness())
      ensures |order| < 2 ==> forall g | g in order :: g.fitness == old(g.fitness)
      ensures members == old(members) && representative == old(representative)
      ensures failedGenerations == old(failedGenerations) || failedGenerations == 0
      ensures forall g | g in order :: g.genes == old(g.genes) && g.species == old(g.species)
                                       && g.inputNodes == old(g.inputNodes) && g.outputNodes == old(g.outputNodes)
    {
      var list: seq<Genome> := [];
      for i := 0 to |order|
        invariant list == order[..i]
      {
        list := list + [order[i]];
      }
      assert list == order;
      r := Rank(list);
    }

    /** Drops one genome from the members. */
    method Remove(g: Genome)
      modifies this
      ensures members == old(members) - {g}
      ensures representative == old(representative)
      ensures highestFitness == old(highestFitness) && failedGenerations == old(failedGenerations)
    {
      members := members - {g};
    }

    /** Picks a new representative among the current members; fails with no members. */
    method Update() returns (o: Outcome)
      modifies this
      ensures o.Pass? <==> members != {}
      ensures o.Pass? ==> representative in members
      ensures o.Fail? ==> representative == old(representative)
      ensures members == old(members)
      ensures highestFitness == old(highestFitness) && failedGenerations == old(failedGenerations)
    {
      if members == {} {
        return Fail("Given set can not be empty");
      }
      var g :| g in members;
      representative := g;
      return Pass;
    }
  }
}
