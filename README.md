# Mythan NEAT engine — a Dafny model

Mythan evolves neural networks with NEAT (NeuroEvolution of Augmenting Topologies, Stanley and
Miikkulainen 2002). A *genome* is a map from innovation number to connection *gene*
(from-node, to-node, weight, enabled flag). It also holds the input and output node lists and
a one-shot fitness cache, where -1 means "not computed yet". Genomes are grouped into
*species* by the compatibility distance to each species' representative. A *population
manager* runs generations:

1. rank and score every species;
2. cull each species by rank;
3. count stagnant generations;
4. drop species that earn no breeding slots;
5. refill to the population size with crossed and mutated children;
6. drop empty species and re-choose representatives.

The *evolution core* holds the settings table and the global innovation-number counter, and
`trainToFitness` repeats generations until the best genome reaches a target fitness.

How the model maps the engine:

- **Gene** is a value (`Genes.Gene`). A genome owns its genes as a `map<int, Gene>` keyed by
  innovation number, which is the engine's `TreeMap`. The engine never shares a gene object
  between genomes: `addGene` and `clone` both copy. So a gene setter becomes a map update in
  the owning genome.
- **Genome**, **Species**, **Population**, **PopulationManager**, **EvolutionCore**,
  **Mutation** and **BackTraceTask** are classes. Their fields are updated in place by
  methods with `modifies` frames, as in the source.
  - `Genome` and `Species` refer to each other, so both live in the module `Genomes`.
  - The population invariant `Populations.Healthy` ties them together: every member points
    back at its species, member sets are disjoint, and every member is well formed.
- **Value-level specifications** are functions that the methods are proved against. Distance
  counts, the renaming walk, the cycle search, the mutation outcomes, the crossover child,
  the initial template grid and the network value are each defined this way.
- **Random draws** are parameters: a uniform `u` in [0, 1) for a chance or a range, and a
  `nat` index (taken modulo the size) for a pick from a list. The model is therefore
  deterministic and its contracts hold for every draw. The module `Chance` states what each
  draw means.
- **Fitness** is a `real` with the source's -1 sentinel. The fitness calculator and the
  activation function are pure function values held by the core.
- **Java `double` division** is modelled where the source divides by zero or compares
  against a NaN, because the engine's behaviour depends on it there (`Ieee.Double`, with
  NaN and the infinities):
  - the distance of two genomes without matched genes is 0/0, i.e. NaN, so they are
    incompatible;
  - the average fitness of an empty species is NaN;
  - the breeding quota of a species is a floor of a quotient that may be infinite.

  All other arithmetic is on `real`.
- **Exceptions** thrown by the engine become `Failure`/`Fail` results with the source's
  message where it has one. Callers propagate them as the exception would.

## Model

| member | source | states |
|---|---|---|
| Setting.Values | src/nl/sandergielisse/mythan/Setting.java:23-80 | the enumeration has exactly 13 pairwise distinct keys, from GENE_DISABLE_CHANCE to MUTATION_WEIGHT_CHANCE_RANDOM_RANGE in declaration order |
| Setting.ValuesListsEveryKey | src/nl/sandergielisse/mythan/Setting.java:23-80 | every key occurs in the enumeration, so a table seeded from it covers all keys |
| Setting.DefaultValue | src/nl/sandergielisse/mythan/Setting.java:23-90 | each key's declared default: every one is non-negative, every one but the random-weight range is at most 1, and both weight ranges are positive |
| Setting.DefaultTable | src/nl/sandergielisse/mythan/Setting.java:82-90 | a table that is total over the keys and holds each key's declared default |
| Core.EvolutionCore.constructor | src/nl/sandergielisse/mythan/internal/EvolutionCore.java:45-65 | input and output sizes are stored as given, getSetting of every key returns its default, and the counter starts at 1 |
| Core.EvolutionCore.SetSetting | src/nl/sandergielisse/mythan/internal/EvolutionCore.java:78-85 | getSetting of the key then yields the new value; every other key and the counter are unchanged |
| Core.EvolutionCore.GetNextInnovationNumber | src/nl/sandergielisse/mythan/internal/EvolutionCore.java:87-89 | a post-increment: it returns the current number, and the next call returns exactly one more; settings are unchanged |
| ArrayUtils.Equals | src/nl/sandergielisse/mythan/internal/ArrayUtils.java:24-34 | true iff the lists have the same length and agree at every position, i.e. iff they are equal (two empty lists, and a list with itself, are equal) |
| Genes.SortedKeys | src/nl/sandergielisse/mythan/internal/genes/Genome.java:211-213 | the genome's innovation numbers in strictly increasing order, each exactly once |
| Genes.GenesInOrder | src/nl/sandergielisse/mythan/internal/genes/Genome.java:211-213 | the i-th gene is the gene stored under the i-th smallest innovation number |
| Genes.ConnectionsOf | src/nl/sandergielisse/mythan/internal/genes/Genome.java:242-248 | one connection per gene, in gene order, holding that gene's from and to |
| Genes.AllConnections | src/nl/sandergielisse/mythan/internal/genes/Genome.java:242-248 | one connection per gene of the genome, disabled genes included |
| Genes.HighestInnovationNumber | src/nl/sandergielisse/mythan/internal/genes/Genome.java:215-229 | fails iff the genome has no genes; otherwise it is the number of the last gene in key order, which is the largest key when keys are the genes' numbers |
| Genes.AllNodes | src/nl/sandergielisse/mythan/internal/genes/Genome.java:113-125 | sorted and free of duplicates, and it holds exactly the endpoints of the genes, enabled or not |
| Genes.HighestNode | src/nl/sandergielisse/mythan/internal/genes/Genome.java:108-111 | fails iff there are no genes; otherwise it is an endpoint no smaller than any gene's from or to |
| Genes.Filter | src/nl/sandergielisse/mythan/internal/genes/Genome.java:91-106 | keeps exactly the nodes of the requested kinds (input, hidden, output) and keeps them sorted |
| Genes.Nodes | src/nl/sandergielisse/mythan/internal/genes/Genome.java:91-106 | sorted, and holds exactly the gene endpoints of the requested kinds |
| Genes.HiddenNodes | src/nl/sandergielisse/mythan/internal/genes/Genome.java:159-167 | sorted, and holds exactly the endpoints that are neither input nor output nodes |
| Ieee.Add | src/nl/sandergielisse/mythan/internal/Species.java:83-86 | on finite operands it is the real sum; NaN in, NaN out |
| Ieee.Mul | src/nl/sandergielisse/mythan/internal/genes/Genome.java:450-457 | on finite operands it is the real product; NaN in, NaN out |
| Ieee.Div | src/nl/sandergielisse/mythan/internal/Species.java:89 | the real quotient for a non-zero divisor; a finite value over zero is an infinity of the dividend's sign; NaN in, NaN out |
| Ieee.Floor | src/nl/sandergielisse/mythan/internal/PopulationManager.java:113 | on a finite value it is the real floor; infinities and NaN are unchanged |
| Ieee.ComparisonsWithNaNFail | src/nl/sandergielisse/mythan/internal/Species.java:79 | every ordered comparison with a NaN operand is false |
| Ieee.LessEqOnFinite | src/nl/sandergielisse/mythan/internal/Species.java:79 | on finite values the comparison is the real one |
| Distance.DisjointCountsNumbersInOne | src/nl/sandergielisse/mythan/internal/genes/Genome.java:421-439 | the disjoint count is the number of innovation numbers from 1 up to the shorter genome's highest that occur in exactly one genome |
| Distance.ExcessCountsNumbersInOne | src/nl/sandergielisse/mythan/internal/genes/Genome.java:421-439 | the excess count is the number of innovation numbers above the shorter genome's highest that occur in exactly one genome |
| Distance.CountsAreSymmetric | src/nl/sandergielisse/mythan/internal/genes/Genome.java:421-449 | the counts and the matched weight differences do not depend on which genome is called longest |
| Distance.Arrange | src/nl/sandergielisse/mythan/internal/genes/Genome.java:400-415 | succeeds iff both genomes have genes (getHighestInnovationNumber throws otherwise) |
| Distance.ArrangeBounds | src/nl/sandergielisse/mythan/internal/genes/Genome.java:400-415 | with genes keyed by number, each genome's keys lie at or below its length, and the shorter length is at most the longer |
| Distance.Compare | src/nl/sandergielisse/mythan/internal/genes/Genome.java:398-449 | the comparison succeeds iff both genomes have genes |
| Distance.CompareOfArrangement | src/nl/sandergielisse/mythan/internal/genes/Genome.java:398-449 | the comparison holds the counts and weight differences over 1..longest length, with N the longest genome's gene count |
| Distance.Scan | src/nl/sandergielisse/mythan/internal/genes/Genome.java:421-439 | the counting loop yields exactly the specified disjoint and excess counts and matched weight differences |
| Distance.Total | src/nl/sandergielisse/mythan/internal/genes/Genome.java:441-449 | the summing loop yields the sum and the number of matched weight differences |
| Distance.Distance | src/nl/sandergielisse/mythan/internal/genes/Genome.java:398-458 | equals the specified distance, and fails iff either genome has no genes |
| Distance.CompareArgumentOrder | src/nl/sandergielisse/mythan/internal/genes/Genome.java:398-449 | disjoint and excess counts and weight differences are the same in either argument order; the whole comparison is, when the highest numbers differ |
| Distance.TieMakesDistanceAsymmetric | src/nl/sandergielisse/mythan/internal/genes/Genome.java:400-415 | a concrete pair with tied highest numbers whose distance is 1.0 one way and 0.5 the other, because N then comes from the second argument |
| Distance.OneDisjointGene | src/nl/sandergielisse/mythan/internal/genes/Genome.java:450-457 | one disjoint gene, no excess and one zero weight difference give the distance c2 / N (c2 for N = 1, c2 / 2 for N = 2) |
| Distance.ExcessIsGenesAboveShortest | src/nl/sandergielisse/mythan/internal/genes/Genome.java:421-439 | the excess count is the number of the longer genome's genes numbered above the shorter genome's highest |
| Distance.DistanceToSelf | src/nl/sandergielisse/mythan/internal/genes/Genome.java:398-458 | a genome's distance to itself is 0, or NaN when it has no gene numbered 1 or above |
| Distance.SelfCountsAreZero | src/nl/sandergielisse/mythan/internal/genes/Genome.java:421-439 | a genome compared with itself has no disjoint and no excess genes |
| Distance.SelfGapsAreZero | src/nl/sandergielisse/mythan/internal/genes/Genome.java:441-449 | a genome compared with itself has matched weight differences summing to 0 |
| Distance.FormulaWithoutDifferences | src/nl/sandergielisse/mythan/internal/genes/Genome.java:449-457 | with no excess, disjoint or weight difference the distance is 0, or NaN with no matched genes |
| Distance.NaNExactlyWithoutMatches | src/nl/sandergielisse/mythan/internal/genes/Genome.java:449 | the distance is NaN iff no gene is matched; otherwise it is finite |
| Renaming.Contents | src/nl/sandergielisse/mythan/internal/genes/Genome.java:300-310 | the genome the renaming arena stands for has exactly the arena's keys |
| Renaming.Step | src/nl/sandergielisse/mythan/internal/genes/Genome.java:301-309 | one remove, renumber and put keeps the arena well formed |
| Renaming.Walk | src/nl/sandergielisse/mythan/internal/genes/Genome.java:300-310 | the walk of the first n steps keeps the arena well formed |
| Renaming.WalkFailsAfter | src/nl/sandergielisse/mythan/internal/genes/Genome.java:300-310 | once a step fails (the removed gene is missing), the whole walk fails with it |
| Renaming.RunWalk | src/nl/sandergielisse/mythan/internal/genes/Genome.java:300-310 | the rename loop computes exactly the specified walk |
| Renaming.RenameAsWritten | src/nl/sandergielisse/mythan/internal/genes/Genome.java:297-312 | renaming with a target list of another length fails (the trailing assertion) |
| Renaming.RenameKeepsKeyed | src/nl/sandergielisse/mythan/internal/genes/Genome.java:300-310 | after a successful rename every gene is still stored under its own number |
| Renaming.RenameSucceedsWhenKeyed | src/nl/sandergielisse/mythan/internal/genes/Genome.java:300-310 | on a genome that stores each gene under its own number, with as many targets as genes, the walk never finds a number missing (remove always returns a gene), so the renumbering completes |
| Renaming.Renumbered | src/nl/sandergielisse/mythan/internal/genes/Genome.java:300-310 | the intended renumbering has exactly the target numbers as keys |
| Renaming.Relabel | src/nl/sandergielisse/mythan/internal/genes/Genome.java:300-310 | relabelling genes by a target list has exactly the targets as keys |
| Renaming.RenameWithoutCollision | src/nl/sandergielisse/mythan/internal/genes/Genome.java:300-310 | when the targets are distinct and no target equals a later old number, the in-place loop gives exactly the intended renumbering |
| Renaming.CollisionLosesGene | src/nl/sandergielisse/mythan/internal/genes/Genome.java:300-310 | renaming genes {1, 2} to [2, 5] in place leaves one gene (number 5), where the intended renumbering keeps two |
| Renaming.CollisionRenamed | src/nl/sandergielisse/mythan/internal/genes/Genome.java:300-310 | the in-place loop on that example yields the single gene 5 |
| Renaming.IntendedKeepsTwo | src/nl/sandergielisse/mythan/internal/genes/Genome.java:300-310 | the intended renumbering of that example keeps both genes |
| Ranking.Insert | src/nl/sandergielisse/mythan/internal/genes/Genome.java:491-504 | inserting into a ranking adds exactly the one element (as a multiset) |
| Ranking.InsertRanked | src/nl/sandergielisse/mythan/internal/genes/Genome.java:491-504 | inserting into a list in non-increasing fitness order keeps it in that order |
| Ranking.Sort | src/nl/sandergielisse/mythan/internal/Species.java:101 | the sort is a permutation of its input, in non-increasing fitness order |
| Ranking.SortKeepsRanked | src/nl/sandergielisse/mythan/internal/Species.java:101 | a list already in non-increasing fitness order is returned unchanged |
| Ranking.InsertAtEnd | src/nl/sandergielisse/mythan/internal/Species.java:101 | an element no better than every entry of the list goes after all of them |
| Ranking.InsertStable | src/nl/sandergielisse/mythan/internal/genes/Genome.java:491-504 | inserting into a ranked list puts the new entry after every entry of equal fitness and keeps the order of the entries of each fitness |
| Ranking.SortStable | src/nl/sandergielisse/mythan/internal/Species.java:101 | the sort is stable: for every fitness value, the entries with that fitness come out in the order they went in |
| Genomes.Inherit | src/nl/sandergielisse/mythan/internal/genes/Genome.java:191-206 | only the enabled flag can change; it changes only if both parents carry the number and exactly one has it disabled, and then it is enabled iff the disable draw fails |
| Genomes.Numbers | src/nl/sandergielisse/mythan/internal/genes/Genome.java:297 | the other genome's innovation numbers in key order, one per gene |
| Genomes.FirstMatch | src/nl/sandergielisse/mythan/internal/genes/Genome.java:291-296 | the first candidate whose connection list equals this genome's, or none iff there is no such candidate |
| Genomes.ConnectionLists | src/nl/sandergielisse/mythan/internal/genes/Genome.java:294 | the connection list of each candidate, in candidate order |
| Genomes.FixedDuplicatesTakesNumbers | src/nl/sandergielisse/mythan/internal/genes/Genome.java:286-317 | on a first match without collision, the genome takes exactly the matched genome's numbers and keeps its connection list |
| Genomes.TakesNumbers | src/nl/sandergielisse/mythan/internal/genes/Genome.java:297-310 | renaming against a genome of the same size without collision yields that genome's keys and the same connections |
| Genomes.RenumberedKeepsConnections | src/nl/sandergielisse/mythan/internal/genes/Genome.java:300-310 | renumbering to increasing targets keeps the connection list |
| Genomes.RelabelAt | src/nl/sandergielisse/mythan/internal/genes/Gene.java:38-40 | the i-th gene takes the i-th target number and keeps its endpoints, weight and flag |
| Genomes.Genome.Empty | src/nl/sandergielisse/mythan/internal/genes/Genome.java:58-67 | a genome with no genes, no nodes and fitness -1 for the given core and species |
| Genomes.Genome.New | src/nl/sandergielisse/mythan/internal/genes/Genome.java:58-67 | succeeds iff neither node list repeats a node; the genome has the lists as given, no genes and fitness -1 |
| Genomes.Genome.SetSpecies | src/nl/sandergielisse/mythan/internal/genes/Genome.java:69-74 | succeeds iff fitness is not yet computed, and only then changes the species |
| Genomes.Genome.AddInputNode | src/nl/sandergielisse/mythan/internal/genes/Genome.java:131-139 | succeeds iff fitness is not computed and the node is new; then it appends the node and changes nothing else |
| Genomes.Genome.AddOutputNode | src/nl/sandergielisse/mythan/internal/genes/Genome.java:141-149 | succeeds iff fitness is not computed and the node is new; then it appends the node and changes nothing else |
| Genomes.Genome.AddGene | src/nl/sandergielisse/mythan/internal/genes/Genome.java:181-209 | succeeds iff fitness is not computed and the number is new; then exactly that key is added, holding the inherited copy of the gene, and every other gene is untouched |
| Genomes.Genome.Clone | src/nl/sandergielisse/mythan/internal/genes/Genome.java:267-280 | a fresh genome with the same core, species, genes and node lists, and fitness not computed |
| Genomes.Genome.FixDuplicates | src/nl/sandergielisse/mythan/internal/genes/Genome.java:286-317 | fails without change once fitness is computed; otherwise its genes are the renaming against the first candidate with an equal connection list, and unchanged without one |
| Genomes.Genome.Rename | src/nl/sandergielisse/mythan/internal/genes/Genome.java:297-312 | the genes become the in-place renaming, and the call fails iff that renaming fails |
| Genomes.Genome.GetFitness | src/nl/sandergielisse/mythan/internal/genes/Genome.java:465-485 | the calculator runs only while the cache holds -1, and its result is stored; a higher result raises the species' highest fitness and resets its stagnation count; with no species the first call fails |
| Genomes.Genome.Distance | src/nl/sandergielisse/mythan/internal/genes/Genome.java:398-458 | the specified distance with the core's three weights; fails iff either genome has no genes |
| Genomes.CopyAlong | src/nl/sandergielisse/mythan/internal/genes/Genome.java:272-275 | copying the genes entry by entry yields the same map |
| Genomes.FindMatch | src/nl/sandergielisse/mythan/internal/genes/Genome.java:291-296 | the search loop finds exactly the first matching candidate |
| Genomes.Mean | src/nl/sandergielisse/mythan/internal/Species.java:82-90 | NaN iff there are no members, else the sum divided by the count |
| Genomes.Totalled | src/nl/sandergielisse/mythan/internal/Species.java:83-88 | the summing loop fails iff some member has no fitness and no species; otherwise it is the sum of the members' fitness, each now cached |
| Genomes.Visit | src/nl/sandergielisse/mythan/internal/Species.java:86 | one getFitness inside a loop: fails iff the genome has no fitness and no species, otherwise returns its computed fitness; no other genome's cache and no species' members change |
| Genomes.Evaluate | src/nl/sandergielisse/mythan/internal/genes/Genome.java:494-496 | scoring every genome fails iff one has no fitness and no species; otherwise each holds its computed fitness |
| Genomes.Rank | src/nl/sandergielisse/mythan/internal/Species.java:95-103 | fails iff there are two or more genomes and one has no fitness and no species; otherwise a permutation of the list in non-increasing fitness, every fitness computed when there are two or more |
| Genomes.Species.Of | src/nl/sandergielisse/mythan/internal/Species.java:44-47 | the representative is set, members are empty, highest fitness 0, stagnation count 0 |
| Genomes.Species.New | src/nl/sandergielisse/mythan/internal/Species.java:44-47 | also points the representative's species at the new species, and fails once its fitness is computed (setSpecies); the representative is not a member |
| Genomes.Species.SetHighestFitness | src/nl/sandergielisse/mythan/internal/Species.java:57-60 | stores the fitness and resets the stagnation count to 0 |
| Genomes.Species.SetFailedGenerations | src/nl/sandergielisse/mythan/internal/Species.java:66-68 | stores the count and changes nothing else |
| Genomes.Species.IsCompatible | src/nl/sandergielisse/mythan/internal/Species.java:78-80 | fails iff either genome has no genes; otherwise true iff the distance to the representative is a number no larger than SPECIES_COMPATIBILTY_DISTANCE |
| Genomes.Species.GetAverageFitness | src/nl/sandergielisse/mythan/internal/Species.java:82-90 | the mean of the members' fitness (NaN with no members), each fitness now cached |
| Genomes.Species.GetBestPerforming | src/nl/sandergielisse/mythan/internal/Species.java:95-103 | a permutation of the members in non-increasing fitness |
| Genomes.Species.Remove | src/nl/sandergielisse/mythan/internal/Species.java:105-107 | removes exactly the given genome from the members |
| Genomes.Species.Update | src/nl/sandergielisse/mythan/internal/Species.java:113-115 | fails (the empty-set pick) iff there are no members; otherwise the new representative is a member and the members are unchanged |
| Recurrence.Sources | src/nl/sandergielisse/mythan/internal/genes/Mutation.java:166-174 | exactly the from-nodes of the genes, enabled or not, that end in the node |
| Recurrence.Visit | src/nl/sandergielisse/mythan/internal/genes/Mutation.java:146-164 | the search terminates; its path only grows, stays among the gene endpoints and holds the visited node; started from a non-input node it adds no input node |
| Recurrence.VisitAll | src/nl/sandergielisse/mythan/internal/genes/Mutation.java:156-162 | every non-input source ends up on the path, and no input node is added |
| Recurrence.SourceOnPath | src/nl/sandergielisse/mythan/internal/genes/Mutation.java:147-161 | a non-input source that is already on the path makes the search report true |
| Recurrence.ChainFound | src/nl/sandergielisse/mythan/internal/genes/Mutation.java:146-164 | a backward chain through non-input nodes to a node on the path is reported |
| Recurrence.CycleFound | src/nl/sandergielisse/mythan/internal/genes/Mutation.java:146-164 | a non-input node that reaches itself backward over any genes is reported recurrent |
| Recurrence.ConvergingPathsReported | src/nl/sandergielisse/mythan/internal/genes/Mutation.java:146-164 | two sources of a node sharing a source are reported recurrent too, because the path is never popped |
| Recurrence.FromAny | src/nl/sandergielisse/mythan/internal/genes/Mutation.java:137-143 | true iff the search from some listed hidden node reports true |
| Chance.Succeeds | src/nl/sandergielisse/mythan/internal/Random.java:72-74 | for a draw in [0, 1), a chance of 1 or more always succeeds and a negative one never does |
| Chance.Between | src/nl/sandergielisse/mythan/internal/Random.java:79-83 | fails iff min is not below max; otherwise the draw lies in [min, max) |
| Chance.InRange | src/nl/sandergielisse/mythan/internal/Random.java:79-83 | a scaled draw lies in [min, max) |
| Chance.Pick | src/nl/sandergielisse/mythan/internal/Random.java:60-65 | fails iff the list is empty; otherwise an element of the list |
| Chance.PickReachesAll | src/nl/sandergielisse/mythan/internal/Random.java:60-65 | every element of the list is drawn by some index |
| Chance.PickMember | src/nl/sandergielisse/mythan/internal/Random.java:42-55 | over a listing of the set: fails with "Given set can not be empty" iff it is empty; otherwise a member |
| Mutations.Extended | src/nl/sandergielisse/mythan/internal/genes/Mutation.java:130-135 | without a candidate the genes as they are; otherwise one gene larger, holding the candidate enabled with weight 0 under a number not in use; for a genome keyed by number it fails iff there is a candidate and no gene |
| Mutations.Recurrent | src/nl/sandergielisse/mythan/internal/genes/Mutation.java:129-144 | fails iff the extension fails; otherwise true iff some hidden node of the extended genome is on a cycle |
| Mutations.AnyCycle | src/nl/sandergielisse/mythan/internal/genes/Mutation.java:137-143 | true iff the search from some hidden node reports true |
| Mutations.RecurrentOver | src/nl/sandergielisse/mythan/internal/genes/Mutation.java:129-144 | the test is the per-hidden-node search over the extended genome's genes in key order |
| Mutations.CycleMakesRecurrent | src/nl/sandergielisse/mythan/internal/genes/Mutation.java:129-164 | a candidate that closes a cycle through a hidden node is reported recurrent |
| Mutations.Without | src/nl/sandergielisse/mythan/internal/genes/Mutation.java:90-91 | the list with the first occurrence of the node removed: one shorter if present, unchanged if absent |
| Mutations.Candidate | src/nl/sandergielisse/mythan/internal/genes/Mutation.java:88-98 | fails iff there is no input or hidden endpoint to draw from; a drawn candidate runs from an input or hidden endpoint to a different hidden or output endpoint |
| Mutations.Rejects | src/nl/sandergielisse/mythan/internal/genes/Mutation.java:99 | a candidate is accepted iff its ends differ, it is not an existing connection and it is not recurrent |
| Mutations.Attempt | src/nl/sandergielisse/mythan/internal/genes/Mutation.java:84-99 | an accepted connection meets every link-add condition (endpoints, new, not recurrent); with no possible from-node the attempt fails, and for a genome keyed by number only then |
| Mutations.Search | src/nl/sandergielisse/mythan/internal/genes/Mutation.java:82-99 | a found connection meets every link-add condition; finding none means each of the remaining attempts up to the 41st found none |
| Mutations.SearchUsesFortyOneDraws | src/nl/sandergielisse/mythan/internal/genes/Mutation.java:84-85 | the search reads only the draws of attempts 0 to 40 |
| Mutations.ExistingConnections | src/nl/sandergielisse/mythan/internal/genes/Mutation.java:77 | a pair is an existing connection iff some gene, enabled or not, has those ends |
| Mutations.LinkAddedKeepsInvariants | src/nl/sandergielisse/mythan/internal/genes/Mutation.java:69-106 | the counter never decreases and keys stay numbers below it; on an open genome the step passes iff the search did not throw; any change adds exactly one new gene, under the counter value, carrying the connection found |
| Mutations.LinkWeight | src/nl/sandergielisse/mythan/internal/genes/Mutation.java:102 | the new link's weight lies in [-1, 1) |
| Mutations.NewNode | src/nl/sandergielisse/mythan/internal/genes/Mutation.java:60 | the new node is above every endpoint, so it is not yet in the network |
| Mutations.NewNodeIsHighestPlusOne | src/nl/sandergielisse/mythan/internal/genes/Mutation.java:60 | the new node is getHighestNode() + 1 |
| Mutations.Disabled | src/nl/sandergielisse/mythan/internal/genes/Gene.java:62-64 | only the chosen gene changes, and only its enabled flag, which becomes false |
| Mutations.NodeSplitAddsTwo | src/nl/sandergielisse/mythan/internal/genes/Mutation.java:50-63 | the split adds exactly the two keys k+1 and k+2 (the counter's first value is discarded), and the gene count grows by two |
| Mutations.NodeSplitKeepsOthers | src/nl/sandergielisse/mythan/internal/genes/Mutation.java:50-63 | the drawn gene is disabled and every other gene is untouched |
| Mutations.NodeSplitReroutes | src/nl/sandergielisse/mythan/internal/genes/Mutation.java:55-62 | the new genes are from→new with weight 1 and new→to with the drawn gene's weight, both enabled, and the new node was not in the network |
| Mutations.Drawn | src/nl/sandergielisse/mythan/internal/genes/Mutation.java:51 | the drawn gene is one of the genome's genes, disabled ones included |
| Mutations.NodeAddedKeepsInvariants | src/nl/sandergielisse/mythan/internal/genes/Mutation.java:50-63 | on a genome with genes and fitness not computed, the node-add outcome is the split of the drawn gene; keys stay numbers below the counter |
| Mutations.SplitAtIsNodeSplit | src/nl/sandergielisse/mythan/internal/genes/Mutation.java:52-62 | the step-by-step split equals the specified split and takes three counter values |
| Mutations.NewWeight | src/nl/sandergielisse/mythan/internal/genes/Mutation.java:111-126 | fails iff the range is not positive; a fresh weight lies in [-range, range), a perturbed one within the disturbance of the old weight |
| Mutations.OnlyWeightsKeepsConnections | src/nl/sandergielisse/mythan/internal/genes/Gene.java:54-56 | changing weights keeps the gene count, the connection list and the keys-are-numbers property |
| Mutations.OnlyWeightsKeepsNodes | src/nl/sandergielisse/mythan/internal/genes/Mutation.java:111-126 | changing weights keeps the set of nodes |
| Mutations.Reweigh | src/nl/sandergielisse/mythan/internal/genes/Mutation.java:114-124 | fails iff there is a gene and the range is not positive; otherwise it changes only the listed genes' weights, each to its drawn value |
| Mutations.SearchEach | src/nl/sandergielisse/mythan/internal/genes/Mutation.java:137-143 | the loop over hidden nodes computes the specified recurrence test |
| Mutations.Mutation.constructor | src/nl/sandergielisse/mythan/internal/genes/Mutation.java:40-42 | the mutation works on the given genome |
| Mutations.Mutation.IsRecurrent | src/nl/sandergielisse/mythan/internal/genes/Mutation.java:129-144 | returns the specified test without changing the genome |
| Mutations.Mutation.TryLink | src/nl/sandergielisse/mythan/internal/genes/Mutation.java:84-99 | one attempt of the link-add loop, as specified |
| Mutations.Mutation.FindLink | src/nl/sandergielisse/mythan/internal/genes/Mutation.java:79-99 | the do-while loop with its attempt counter computes the specified search |
| Mutations.Mutation.NodeAdd | src/nl/sandergielisse/mythan/internal/genes/Mutation.java:51-62 | the genes and counter after the step are the specified node-add outcome; node lists, species and fitness are unchanged |
| Mutations.Mutation.SplitGene | src/nl/sandergielisse/mythan/internal/genes/Mutation.java:52-62 | the genes and counter after the step are the specified split of the given gene |
| Mutations.Mutation.AddAround | src/nl/sandergielisse/mythan/internal/genes/Mutation.java:58-62 | the two addGene calls around the new node, as specified |
| Mutations.Mutation.LinkAdd | src/nl/sandergielisse/mythan/internal/genes/Mutation.java:70-105 | the genes and counter after the step are the specified link-add outcome of the search; a failed search leaves the genome as it was |
| Mutations.Mutation.AddFound | src/nl/sandergielisse/mythan/internal/genes/Mutation.java:101-105 | adds the found connection, or catches the failure and leaves the genome unchanged |
| Mutations.Mutation.ChangeWeights | src/nl/sandergielisse/mythan/internal/genes/Mutation.java:112-125 | fails iff there is a gene and the range is not positive; otherwise only weights change, the i-th gene in key order to its drawn value |
| Mutations.Mutation.NodeStep | src/nl/sandergielisse/mythan/internal/genes/Mutation.java:50-63 | without a successful node draw nothing changes; the counter never decreases |
| Mutations.Mutation.LinkStep | src/nl/sandergielisse/mythan/internal/genes/Mutation.java:69-106 | without a successful link draw nothing changes; the genome stays well formed |
| Mutations.Mutation.Mutate | src/nl/sandergielisse/mythan/internal/genes/Mutation.java:44-127 | the three steps keep the genome well formed, its node lists, species and fitness, and keep its keys numbers below the counter |
| BackTrace.Bound | src/nl/sandergielisse/mythan/BackTraceTask.java:43-46 | the input map has exactly the input nodes as keys |
| BackTrace.BoundAt | src/nl/sandergielisse/mythan/BackTraceTask.java:43-46 | the i-th input value is bound to the i-th input node |
| BackTrace.RankedStep | src/nl/sandergielisse/mythan/BackTraceTask.java:73-81 | on an acyclic enabled graph each recursive call goes to a strictly lower rank |
| BackTrace.NoIncomingActivatesZero | src/nl/sandergielisse/mythan/BackTraceTask.java:71-88 | a node with no enabled incoming gene has the value activate(0) |
| BackTrace.NothingIncoming | src/nl/sandergielisse/mythan/BackTraceTask.java:73-83 | the weighted sum over genes that do not target the node is 0 |
| BackTrace.ValueIgnoresRank | src/nl/sandergielisse/mythan/BackTraceTask.java:62-91 | a node's value does not depend on the ranking that witnesses acyclicity |
| BackTrace.IncomingIgnoresRank | src/nl/sandergielisse/mythan/BackTraceTask.java:71-83 | the weighted sum does not depend on that ranking either |
| BackTrace.BackTraceTask.constructor | src/nl/sandergielisse/mythan/BackTraceTask.java:35-47 | binds the i-th input value to the i-th input node |
| BackTrace.Create | src/nl/sandergielisse/mythan/BackTraceTask.java:35-47 | fails iff the input length differs from the number of input nodes; otherwise the task binds the inputs |
| BackTrace.BackTraceTask.CalculateOutput | src/nl/sandergielisse/mythan/BackTraceTask.java:49-60 | one value per output node, in output order, each equal to the plain recursive value of that node |
| BackTrace.BackTraceTask.GetOutput | src/nl/sandergielisse/mythan/BackTraceTask.java:62-91 | the memoised result equals the plain recursion (activate of the weighted sum over enabled incoming genes, raw values for inputs), and the cache stays correct and grows |
| Crossover.CrossedKeys | src/nl/sandergielisse/mythan/internal/genes/Genome.java:368-378 | before renumbering, the child has exactly the dominant's numbers from 1 up to the top number copied |
| Crossover.CrossedGenes | src/nl/sandergielisse/mythan/internal/genes/Genome.java:368-378 | each child gene is the dominant's, or the other parent's where both carry the number, up to its enabled flag; the dominant's exactly where only it carries the number |
| Crossover.CrossedKeyed | src/nl/sandergielisse/mythan/internal/genes/Genome.java:368-378 | every child gene is stored under its own number |
| Crossover.SharedLength | src/nl/sandergielisse/mythan/internal/genes/Genome.java:353-366 | fails iff number 1 is not in both parents or every number up to 100000 is in both; otherwise the n below 100000 such that 1..n are in both and n + 1 is not |
| Crossover.SpeciesMatch | src/nl/sandergielisse/mythan/internal/genes/Genome.java:347-348 | passes iff both genomes have the same, non-null species |
| Crossover.Breed | src/nl/sandergielisse/mythan/internal/genes/Genome.java:346-378 | fails iff the species differ, a parent has no genes, number 1 is not shared or the probe runs out; otherwise a fresh genome with the dominant's node lists and exactly the specified crossed genes |
| Crossover.Fill | src/nl/sandergielisse/mythan/internal/genes/Genome.java:368-378 | the addGene loop builds exactly the specified crossed genes |
| Crossover.CrossDominant | src/nl/sandergielisse/mythan/internal/genes/Genome.java:346-387 | fails when the species differ or a parent has no genes; a child is fresh, well formed, without species and with fitness not computed |
| Crossover.Renumber | src/nl/sandergielisse/mythan/internal/genes/Genome.java:381 | renumbering keeps the child well formed and changes only its genes |
| Populations.Flatten | src/nl/sandergielisse/mythan/internal/Population.java:69-70 | the concatenated member listings hold exactly the listed genomes |
| Populations.GroupsAt | src/nl/sandergielisse/mythan/internal/Population.java:26 | the i-th group is the i-th species' member set |
| Populations.CensusCovers | src/nl/sandergielisse/mythan/internal/Population.java:26 | the sum of the member counts is at least the number of distinct members |
| Populations.ExactCensus | src/nl/sandergielisse/mythan/internal/Population.java:26 | when the sum of member counts equals the number of distinct members, no genome is in two species |
| Populations.DisjointCensus | src/nl/sandergielisse/mythan/internal/Population.java:26 | with pairwise disjoint member sets, the sum of counts is the number of members |
| Populations.HealthyAt | src/nl/sandergielisse/mythan/internal/Population.java:40-43 | in a consistent population every member points back at its species |
| Populations.Apart | src/nl/sandergielisse/mythan/internal/Population.java:40-43 | in a consistent population two species share no member |
| Populations.MembersOfHealthy | src/nl/sandergielisse/mythan/internal/Population.java:40-43 | consistency means each genome is counted once and belongs to the species it points at |
| Populations.Joined | src/nl/sandergielisse/mythan/internal/Population.java:40-59 | adding a new genome to one species, possibly a new one, adds it to the members and raises the count by one |
| Populations.Population.constructor | src/nl/sandergielisse/mythan/internal/Population.java:28-30 | a population of the core with no species |
| Populations.Population.Classify | src/nl/sandergielisse/mythan/internal/Population.java:48-60 | the genome's species becomes the first species whose representative it is compatible with; with none, one new species represented by it is appended; a genome whose fitness is computed fails, and a compatibility test that throws fails the call |
| Populations.Population.AddGenome | src/nl/sandergielisse/mythan/internal/Population.java:40-43 | the genome is added to exactly one species' member set, the one classify chose; every other species is untouched |
| Populations.Population.GetBestPerforming | src/nl/sandergielisse/mythan/internal/Population.java:65-80 | none iff there are no members; otherwise a member whose fitness is at least every member's, the first such in listing order |
| Populations.FailedWalk | src/nl/sandergielisse/mythan/internal/Population.java:49-53 | a compatibility test that fails before any species matched means neither outcome of classify is reached |
| Populations.FindSpecies | src/nl/sandergielisse/mythan/internal/Population.java:49-54 | the index of the first compatible species, none iff no species is compatible, or the failure of the first test that throws |
| Populations.RunningMax | src/nl/sandergielisse/mythan/internal/Population.java:66-78 | the running-maximum loop returns the first genome of greatest fitness, none for an empty listing |
| Populations.Admit | src/nl/sandergielisse/mythan/internal/Population.java:40-43 | adding a new genome keeps the population consistent, adds it to the members and raises the count by one |
| Populations.Added | src/nl/sandergielisse/mythan/internal/Population.java:40-43 | the genome goes to exactly one species, possibly a new one appended; other species keep their members |
| Populations.Offspring | src/nl/sandergielisse/mythan/internal/genes/Genome.java:322-339 | fails when the species differ; otherwise both parents' fitness is computed, and the child has a's node lists if a's fitness is strictly greater, else b's |
| Populations.Bred | src/nl/sandergielisse/mythan/internal/genes/Genome.java:322-339 | breeding leaves every species' members unchanged and yields a fresh genome not yet in the population |
| Populations.CrossAndAdd | src/nl/sandergielisse/mythan/internal/genes/Genome.java:322-341 | the child joins exactly one species, the member count grows by one, and the population stays consistent |
| Generation.Listing | src/nl/sandergielisse/mythan/internal/Species.java:98-100 | the listing holds each member exactly once |
| Generation.RankAll | src/nl/sandergielisse/mythan/internal/PopulationManager.java:66-69 | one ranking per species, each listing exactly the members the species had at entry, best first by the recorded scores, which are what getFitness() yielded at entry and still yields after; members and representatives unchanged; a species' stagnation counter is kept, or reset to 0 when a new fitness raised its best |
| Generation.Rank | src/nl/sandergielisse/mythan/internal/Species.java:95-103 | the ranking lists exactly the old members, best first by their computed fitness; the stagnation counter is kept or reset by a raised best |
| Generation.RankOne | src/nl/sandergielisse/mythan/internal/PopulationManager.java:66-69 | one species' ranking: exactly its members, of genomes that already existed, best first by cached fitness, by what getFitness() yielded at entry and by the recorded scores; the population stays consistent and the record of scores still holds |
| Generation.AddUpNaN | src/nl/sandergielisse/mythan/internal/PopulationManager.java:72-75 | one NaN average makes the total NaN; finite averages give a finite total |
| Generation.Total | src/nl/sandergielisse/mythan/internal/PopulationManager.java:72-75 | the total is the left-to-right double sum of the species averages, each the mean of the recorded scores of its members walked in a listing of the member set; members, representatives and what getFitness() yields stay as recorded |
| Generation.NextAverage | src/nl/sandergielisse/mythan/internal/PopulationManager.java:72-75 | one pass of the summing loop: species i's average, the mean of the recorded scores over a listing of its members, is appended and added to the total; its members and representative stay, and the record of scores still holds |
| Generation.ListingsAt | src/nl/sandergielisse/mythan/internal/Species.java:82-90 | each listing walked by the total enumerates the member set of its species |
| Generation.AveragesAt | src/nl/sandergielisse/mythan/internal/Species.java:82-90 | each species average is the mean of the recorded scores of its listing |
| Generation.AverageOne | src/nl/sandergielisse/mythan/internal/Species.java:82-90 | a species' average is the mean of its members' cached fitness and the mean of their recorded scores; the population stays consistent and the record of scores still holds |
| Generation.Average | src/nl/sandergielisse/mythan/internal/Species.java:82-90 | the average is the mean of the members' fitness, each now cached |
| Generation.Ceil | src/nl/sandergielisse/mythan/internal/PopulationManager.java:89 | the least integer not below its argument |
| Generation.CullStartIs | src/nl/sandergielisse/mythan/internal/PopulationManager.java:89-90 | the first culled rank is size + 1 - ceil(size * percentage) |
| Generation.CullStart | src/nl/sandergielisse/mythan/internal/PopulationManager.java:89-90 | the first culled rank; for a percentage in [0, 1] it is at least 1, so rank 0 survives, and at most one past the last rank |
| Generation.CullKeepsTheBest | src/nl/sandergielisse/mythan/internal/PopulationManager.java:89-95 | for a percentage in [0, 1], ceil(size * percentage) - 1 genomes of a non-empty species are removed, none at 0 |
| Generation.NegativeStartNeedsLargePercentage | src/nl/sandergielisse/mythan/internal/PopulationManager.java:89-93 | a negative start index (an out-of-bounds access) needs a percentage above 1 |
| Generation.StarvedOnFinite | src/nl/sandergielisse/mythan/internal/PopulationManager.java:112-115 | with finite values a species is dropped iff floor(average / total * size) - 1 < 1 |
| Generation.Starved | src/nl/sandergielisse/mythan/internal/PopulationManager.java:112-115 | the quota test in double arithmetic; a NaN average (an empty species) never triggers the drop, because the comparison with NaN is false |
| Generation.ZeroTotalStarvesNobody | src/nl/sandergielisse/mythan/internal/PopulationManager.java:113-115 | with a total of 0 the quota is infinite or NaN, so no species is dropped |
| Generation.Verdict | src/nl/sandergielisse/mythan/internal/PopulationManager.java:100-124 | dropped past 15 failed generations or when starved; otherwise kept, except that an empty ranking fails on best.get(0) |
| Generation.Cached | src/nl/sandergielisse/mythan/internal/Species.java:86 | the fitness values held by the listed genomes |
| Generation.Snapshot | src/nl/sandergielisse/mythan/internal/genes/Genome.java:480-485 | a record of what getFitness() yields for every member of every listed species |
| Generation.Recorded | src/nl/sandergielisse/mythan/internal/genes/Genome.java:480-485 | the recorded scores of the listed genomes, one per genome, in their order |
| Generation.ScoresRecorded | src/nl/sandergielisse/mythan/internal/genes/Genome.java:480-485 | where the record holds what getFitness() yields, the recorded scores are the scores getFitness() yields |
| Generation.StillSnapped | src/nl/sandergielisse/mythan/internal/PopulationManager.java:66-124 | ranking, averaging or culling one species keeps the population consistent and the record of scores true: members only dropped from that species, networks, species and scores unchanged |
| Generation.Judge | src/nl/sandergielisse/mythan/internal/PopulationManager.java:85-124 | culls ranks from the start index on, leaves the stagnation count at its old value plus one, or at 0 where the average after culling set a new highest fitness, and returns the species' verdict; a negative start index fails without change |
| Generation.Cull | src/nl/sandergielisse/mythan/internal/PopulationManager.java:92-95 | removes exactly the ranks from the start index on |
| Generation.Keep | src/nl/sandergielisse/mythan/internal/PopulationManager.java:78-126 | the survivors are drawn from the species, and there are no more of them |
| Generation.KeepExactly | src/nl/sandergielisse/mythan/internal/PopulationManager.java:78-126 | a species survives iff its verdict keeps it |
| Generation.KeepDistinct | src/nl/sandergielisse/mythan/internal/PopulationManager.java:78-126 | the survivors are still distinct species |
| Generation.KeepThenRest | src/nl/sandergielisse/mythan/internal/PopulationManager.java:78-126 | when the walk stops early, the judged survivors followed by the unjudged rest are distinct species of the population |
| Generation.HealthyDrawn | src/nl/sandergielisse/mythan/internal/PopulationManager.java:78-126 | a sub-list of a consistent population is consistent |
| Generation.JudgeOne | src/nl/sandergielisse/mythan/internal/PopulationManager.java:85-124 | judging one species culls it, raises its counter by one or resets it to 0, and returns the Verdict on its old counter plus one and the mean of the recorded scores of the members left; a failure is an out-of-range start index or a failing Verdict |
| Generation.Verdicts | src/nl/sandergielisse/mythan/internal/PopulationManager.java:78-126 | the elimination loop: each judged species lost exactly its culled ranks, had its counter raised by one or reset to 0, and got the Verdict on its old counter plus one and on an average that is the mean of the recorded scores of the members the culling left; the loop stops at the first species whose judging fails, on an out-of-range start index or a failing Verdict |
| Generation.NextVerdict | src/nl/sandergielisse/mythan/internal/PopulationManager.java:78-124 | one pass of the elimination loop: the species is culled and judged as JudgeOne states, its average is appended and its verdict too unless it failed; the species after it are untouched |
| Generation.AveragedSnoc | src/nl/sandergielisse/mythan/internal/PopulationManager.java:110-111 | judging one more species extends the record of verdict averages by that species' mean score over its culled members |
| Generation.AveragedAt | src/nl/sandergielisse/mythan/internal/PopulationManager.java:110-111 | every judged species that was in range and not stagnant was judged on the mean recorded score of the members the culling left |
| Generation.JudgeAll | src/nl/sandergielisse/mythan/internal/PopulationManager.java:78-126 | the surviving species are exactly those the verdicts keep; on an early failure the species not yet judged stay; each verdict's average is the mean of the recorded scores of the culled members; the counters afterwards are recorded in the judgement, each judged one being its old counter plus one or 0 |
| Generation.JudgedMeans | src/nl/sandergielisse/mythan/internal/PopulationManager.java:72-111 | for each species of a judgement: the average before culling is the mean of the recorded scores of its members, each listed once, and is NaN exactly when the species was empty; a species judged in range and not stagnant was judged on the mean recorded score of the members the culling left |
| Generation.MemberSets | src/nl/sandergielisse/mythan/internal/PopulationManager.java:78-126 | each species' member set, in list order |
| Generation.Counters | src/nl/sandergielisse/mythan/internal/PopulationManager.java:97-99 | each species' stagnation counter, in list order |
| Generation.Select | src/nl/sandergielisse/mythan/internal/PopulationManager.java:66-138 | every species judged lost exactly its culled ranks, where each ranking lists its old members best first by what getFitness() yielded at entry; each species' average before culling is the mean of those scores over its members and the total is their sum; each verdict is the stagnation and quota test on its counter plus one, the mean score of the members left and the total; every species' counter afterwards is the one the judgement records, for a judged species that counter plus one or 0; success iff every species was judged and the verdicts keep one, the species then being exactly the kept ones; with none kept or no species at all it fails with "All species died" |
| Generation.Assess | src/nl/sandergielisse/mythan/internal/PopulationManager.java:66-126 | the judgement of the species at entry: rankings, averages and total as ScoreAll states, over scores that are what getFitness() yielded at entry, then the verdicts as Verdicts states; the species left are those the verdicts keep, followed on an early failure by the species not yet judged; each species' counter afterwards is the one the judgement records |
| Generation.ScoreAll | src/nl/sandergielisse/mythan/internal/PopulationManager.java:66-75 | per species a best-first ranking of its members by the recorded scores, which are what getFitness() yields at entry; per species an average that is the mean of those scores over a listing of its members, and the total their sum; counters as they were or reset to 0; members and representatives unchanged |
| Breeding.Listings | src/nl/sandergielisse/mythan/internal/PopulationManager.java:142-144 | one listing of each species' members |
| Breeding.EmptyCensus | src/nl/sandergielisse/mythan/internal/PopulationManager.java:146 | species without members hold no genome |
| Breeding.Snapshot | src/nl/sandergielisse/mythan/internal/PopulationManager.java:142-153 | every species' old members are listed and its member set cleared; representatives stay |
| Breeding.CopiedIntro | src/nl/sandergielisse/mythan/internal/PopulationManager.java:142-153 | the snapshot genomes point at their species and are well formed |
| Breeding.CopiedPrefix | src/nl/sandergielisse/mythan/internal/PopulationManager.java:158-177 | appending species keeps the snapshot's facts |
| Breeding.CopyStep | src/nl/sandergielisse/mythan/internal/PopulationManager.java:170-173 | a mutated clone of an old member joins the drawn species, and the count grows by one |
| Breeding.Mutated | src/nl/sandergielisse/mythan/internal/PopulationManager.java:171-172 | the clone is fresh, with the original's nodes and species and fitness not computed |
| Breeding.Join | src/nl/sandergielisse/mythan/internal/PopulationManager.java:173 | adding a new genome to a species raises the count and the members by exactly it |
| Breeding.CrossStep | src/nl/sandergielisse/mythan/internal/PopulationManager.java:163-168 | crossing two old members adds one child to the population, or none on failure; the parents keep their genes, nodes and species |
| Breeding.Step | src/nl/sandergielisse/mythan/internal/PopulationManager.java:159-176 | one refill round fails on no species; it counts a genome iff the drawn species has a snapshot |
| Breeding.CrossPass | src/nl/sandergielisse/mythan/internal/PopulationManager.java:163-168 | the cross branch adds one genome when it passes |
| Breeding.CrossKeep | src/nl/sandergielisse/mythan/internal/PopulationManager.java:165-168 | crossing two snapshot genomes keeps the snapshot facts and adds one genome when it passes |
| Breeding.CopyPass | src/nl/sandergielisse/mythan/internal/PopulationManager.java:169-174 | the copy branch adds one genome when it passes |
| Breeding.Fill | src/nl/sandergielisse/mythan/internal/PopulationManager.java:158-177 | the refill loop never adds more than the population size, and on success exactly that many (none for a size of 0 or less); every member is new |
| Breeding.Snoc | src/nl/sandergielisse/mythan/internal/PopulationManager.java:179-185 | adding a group adds its count and its members |
| Breeding.GroupsSnoc | src/nl/sandergielisse/mythan/internal/PopulationManager.java:179-185 | the groups of one more species are one more group |
| Breeding.DropEmpty | src/nl/sandergielisse/mythan/internal/PopulationManager.java:179-185 | dropping empty species keeps the count and the members |
| Breeding.Dropped | src/nl/sandergielisse/mythan/internal/PopulationManager.java:179-185 | exactly the empty species are dropped, and the population stays consistent |
| Breeding.Tidy | src/nl/sandergielisse/mythan/internal/PopulationManager.java:179-185 | after the drop no species is empty, and members and count are unchanged |
| Breeding.Occupied | src/nl/sandergielisse/mythan/internal/PopulationManager.java:179-185 | keeps exactly the species with members |
| Breeding.UpdateAll | src/nl/sandergielisse/mythan/internal/PopulationManager.java:187-189 | every representative becomes one of its own species' members |
| Breeding.ListedMembers | src/nl/sandergielisse/mythan/internal/Population.java:69-70 | the listings hold exactly the population's members |
| Breeding.ListedFrame | src/nl/sandergielisse/mythan/internal/Population.java:69-70 | the listed genomes and their species lie in the population |
| Breeding.Rebuild | src/nl/sandergielisse/mythan/internal/PopulationManager.java:140-189 | on success the population holds exactly the population size of new genomes, no species is empty and every representative is a member |
| Breeding.Replenish | src/nl/sandergielisse/mythan/internal/PopulationManager.java:158-189 | the refill, the drop of empty species and the representative update, as Rebuild states |
| Breeding.Settle | src/nl/sandergielisse/mythan/internal/PopulationManager.java:179-189 | no species is left empty, each representative is a member, and the members are unchanged |
| Breeding.Best | src/nl/sandergielisse/mythan/internal/Population.java:65-80 | none iff the population is empty; otherwise a member of greatest fitness |
| Breeding.Scored | src/nl/sandergielisse/mythan/internal/Population.java:65-80 | the best of the listed genomes, none for an empty listing |
| Breeding.Walked | src/nl/sandergielisse/mythan/internal/Population.java:65-80 | the same over the member listings, changing fitness caches only |
| Managers.Span | src/nl/sandergielisse/mythan/internal/PopulationManager.java:221-227 | the node numbers from..from+n-1, in order |
| Managers.CellsIsProduct | src/nl/sandergielisse/mythan/internal/PopulationManager.java:231-235 | the template has inputs × outputs genes |
| Managers.RowShape | src/nl/sandergielisse/mythan/internal/PopulationManager.java:232-234 | row i holds O consecutive numbers from its start, the k-th gene enabled and linking input i to output I + k + 1 |
| Managers.GridGrows | src/nl/sandergielisse/mythan/internal/PopulationManager.java:231-235 | each input adds its row of genes to the template |
| Managers.GridUnfold | src/nl/sandergielisse/mythan/internal/PopulationManager.java:231-235 | the template for n inputs is the one for n - 1 with row n added |
| Managers.RowOnto | src/nl/sandergielisse/mythan/internal/PopulationManager.java:232-234 | adding a row to a genome adds exactly the row's genes |
| Managers.JoinNumbered | src/nl/sandergielisse/mythan/internal/PopulationManager.java:231-235 | adding the next row, numbered on from the template, keeps the template consecutively numbered from inputs to outputs |
| Managers.GridNumbers | src/nl/sandergielisse/mythan/internal/PopulationManager.java:231-235 | the template's numbers are exactly the I·O consecutive values from the counter on; each gene sits under its own number, is enabled and runs from an input to an output |
| Managers.JoinCovers | src/nl/sandergielisse/mythan/internal/PopulationManager.java:231-235 | adding a row keeps the links already present |
| Managers.GridCovers | src/nl/sandergielisse/mythan/internal/PopulationManager.java:231-235 | every input is linked to every output |
| Managers.JoinUnique | src/nl/sandergielisse/mythan/internal/PopulationManager.java:231-235 | adding a row keeps every pair linked at most once |
| Managers.GridUnique | src/nl/sandergielisse/mythan/internal/PopulationManager.java:231-235 | no input-output pair is linked twice |
| Managers.Numbering | src/nl/sandergielisse/mythan/internal/PopulationManager.java:221-227 | the node-numbering loops yield the specified ranges |
| Managers.Elements | src/nl/sandergielisse/mythan/internal/PopulationManager.java:208-217 | the genomes added, as a set |
| Managers.ElementsGrow | src/nl/sandergielisse/mythan/internal/PopulationManager.java:208-217 | adding one more genome adds it to the set |
| Managers.RedrawnByChange | src/nl/sandergielisse/mythan/internal/PopulationManager.java:211-214 | the clone's weight redraw gives each gene its drawn fresh weight |
| Managers.AddVariants | src/nl/sandergielisse/mythan/internal/PopulationManager.java:208-217 | on success exactly the requested number of new genomes joins the population, the k-th a clone of the template whose weights are redrawn with the k-th draw |
| Managers.VariantAt | src/nl/sandergielisse/mythan/internal/PopulationManager.java:210-216 | every one of the added genomes is such a redrawn clone of the template |
| Managers.AddVariant | src/nl/sandergielisse/mythan/internal/PopulationManager.java:210-216 | a clone of the template with redrawn weights joins the population; it fails when there is a gene and the range is not positive |
| Managers.Reweighed | src/nl/sandergielisse/mythan/internal/PopulationManager.java:210-214 | fails iff there is a gene and the range is not positive; otherwise a fresh clone whose weights are redrawn |
| Managers.Enrol | src/nl/sandergielisse/mythan/internal/PopulationManager.java:216 | adding a fresh genome keeps the population consistent and raises the count by one |
| Managers.PopulationManager.constructor | src/nl/sandergielisse/mythan/internal/PopulationManager.java:31-40 | generation 1, population size 500, no latest best, an empty population of the core |
| Managers.PopulationManager.Initial | src/nl/sandergielisse/mythan/internal/PopulationManager.java:220-237 | inputs 1..I and outputs I+1..I+O; the genome holds the template of I·O genes numbered from the counter; it fails iff a size is negative or, with both sizes positive, the weight range is not positive |
| Managers.PopulationManager.AddRows | src/nl/sandergielisse/mythan/internal/PopulationManager.java:231-235 | the nested loop adds the template genes and advances the counter by I·O |
| Managers.PopulationManager.AddRow | src/nl/sandergielisse/mythan/internal/PopulationManager.java:232-234 | the inner loop adds row i and advances the counter by O |
| Managers.PopulationManager.Initialize | src/nl/sandergielisse/mythan/internal/PopulationManager.java:200-218 | stores the size; fails unless at generation 1; otherwise adds exactly populationSize new genomes, each a redrawn clone of the fully connected template, and the counter has advanced by one number per template gene |
| Managers.PopulationManager.Seed | src/nl/sandergielisse/mythan/internal/PopulationManager.java:206-217 | builds the fully connected template and adds the given number of its redrawn clones |
| Managers.PopulationManager.NewGeneration | src/nl/sandergielisse/mythan/internal/PopulationManager.java:62-198 | the generation counter rises by exactly one; the selection is judged as Generation.Select states, so every average and the total are means and sums of what getFitness() yielded at entry (Generation.JudgedMeans); when a verdict fails part-way the call fails, and when the verdicts keep no species it fails with "All species died"; on success every species is one the verdicts kept or a new one, the population has exactly populationSize new members, no empty species, representatives among members, and the latest best is a member of greatest fitness; on failure the latest best is unchanged or null |
| Managers.PopulationManager.Evolve | src/nl/sandergielisse/mythan/internal/PopulationManager.java:65-198 | the generation step past the counter, with the selection judged as NewGeneration states (averages and total from what getFitness() yielded at entry); on failure the latest best is unchanged or null |
| Managers.PopulationManager.Renew | src/nl/sandergielisse/mythan/internal/PopulationManager.java:140-198 | refill, clean-up and report, as NewGeneration states; on failure the latest best is unchanged or null |
| Managers.PopulationManager.Report | src/nl/sandergielisse/mythan/internal/PopulationManager.java:193-196 | the latest best is a member of greatest fitness; an empty population fails as the report's dereference would, with the latest best cleared first |
| Training.EnabledCount | src/nl/sandergielisse/mythan/internal/EvolutionCore.java:118-120 | at most the number of genes, and equal to it iff every gene is enabled |
| Training.HiddenInExactly | src/nl/sandergielisse/mythan/internal/EvolutionCore.java:117-137 | a node is counted iff it is an endpoint of some gene and neither an input nor an output |
| Training.HiddenOfGenome | src/nl/sandergielisse/mythan/internal/EvolutionCore.java:115-139 | the hidden set collected over the genes is exactly the genome's hidden nodes, so its size is their number |
| Training.EnabledOfGenome | src/nl/sandergielisse/mythan/internal/EvolutionCore.java:117-121 | the enabled count over the genes is the number of enabled keys |
| Training.AllEnabled | src/nl/sandergielisse/mythan/internal/EvolutionCore.java:117-121 | at most one enabled connection per gene, all of them iff every gene is enabled |
| Training.Count | src/nl/sandergielisse/mythan/internal/EvolutionCore.java:115-139 | the counting loop yields the specified hidden set and enabled count |
| Training.Tally | src/nl/sandergielisse/mythan/internal/EvolutionCore.java:115-139 | the report counts: the hidden units are exactly the hidden nodes, and the enabled connections are the enabled genes |
| Training.MembersListed | src/nl/sandergielisse/mythan/internal/PopulationManager.java:194 | the population's members are those of its species |
| Training.Seated | src/nl/sandergielisse/mythan/internal/PopulationManager.java:194 | a member of a consistent population sits in its own species |
| Training.Score | src/nl/sandergielisse/mythan/internal/EvolutionCore.java:113 | the best genome's fitness, now cached, without changing any species' members |
| Training.Start | src/nl/sandergielisse/mythan/internal/EvolutionCore.java:107 | the initialize call, failing unless at generation 1 |
| Training.Turn | src/nl/sandergielisse/mythan/internal/EvolutionCore.java:108-113 | one generation; a solution is reported iff the best genome's fitness reaches the target, with its generation and counts |
| Training.Judge | src/nl/sandergielisse/mythan/internal/EvolutionCore.java:113-139 | reports the solution iff the best fitness reaches the target, with the hidden-unit and enabled-connection counts |
| Training.TrainToFitness | src/nl/sandergielisse/mythan/internal/EvolutionCore.java:106-149 | returns a solution only once the best genome's fitness is at least the target, with the generation reached and the report's counts, every earlier generation's best having fallen short; fails unless started at generation 1 |

## Left out

- Random.java is replaced by explicit draws (see above). The `java.util.Random` state is not
  modelled, nor the distribution of the draws.
- HashSet and HashMap iteration order (species members, the snapshot of old members) is not
  modelled. Each such loop takes a listing of the set as a parameter, and the contracts hold
  for every listing.
- Floating-point rounding is not modelled: weights, fitness, averages and the distance are
  `real`. Only NaN and the infinities are kept, where the source's behaviour depends on them.
- `(int)` casts of large doubles (the cull start index) do not saturate in the model. The
  start index is an unbounded integer.
- All console output (`System.out.println`) is left out, including the printed report of
  `trainToFitness`. Its two counts are modelled as returned values.
- `FitnessCalculator.generationFinished` is a callback with no effect on the engine, and it is
  not modelled.
- The static id counters of genomes and species are not modelled. Object identity stands in
  for the ids.
- `Mythan.java`, `CustomizedSigmoidActivation.java` and the programs under `src/examples/` are
  not part of this model. The activation function is an arbitrary `real -> real`.
- The enumeration in Setting.java declares 13 keys, and the model has those 13.
- Genes.AllConnections: states only that there is one connection per gene. The elements, in
  key order, are stated by Genes.ConnectionsOf over Genes.GenesInOrder, which AllConnections is
  defined by.
- Training.TrainToFitness: the engine loops until the target is reached and may never return.
  The model runs a given list of generations and fails with "out of generations" when they run
  out. On either outcome it states that every earlier generation's best fell short of the target.
- Training.Start: states the failure away from generation 1 and the frame, not the genomes
  added (Managers.PopulationManager.Initialize states those).
- Crossover.CrossDominant: states the failure only in the direction "species differ or a parent
  has no genes ⇒ failure". The child's genes after fixDuplicates and mutate are not stated.
  Crossover.Breed states the child before those two steps.
- Crossover.Renumber: states only that the child stays well formed. Genomes.Genome.FixDuplicates
  states the renaming itself.
- Mutations.Mutation.Mutate: states the invariants the three steps keep, not the resulting
  genes. Those are stated per step by NodeAdd, LinkAdd and ChangeWeights.
- Mutations.Mutation.NodeStep: states the outcome when the node draw fails. On success the
  outcome is the one NodeAdd states.
- Mutations.Mutation.LinkStep: states the outcome when the link draw fails. On success the
  outcome is the one LinkAdd states.
- Mutations.Search: when the attempts run out, the failure is characterised only for a genome
  with no possible from-node. Otherwise it states that every counted attempt found nothing.
- Generation.Judge: does not state that the members' cached fitness is kept. Only their genes,
  nodes and species are stated unchanged. When the counter ends at 0, the contract does not tie that reset
  to the fitness that caused it.
- Generation.JudgeOne: does not state that the members' cached fitness is kept, for the same
  reason as Generation.Judge.
- Breeding.Fill: states the number of genomes added and that each is new, not which parent each
  comes from. Breeding.CopyStep states only that a copy keeps its parent's node lists and
  species, and Breeding.CrossStep states nothing about the child's genes. The genes of a
  crossed child are stated by Crossover.Breed, and the changes a mutation makes are bounded by
  the invariants of Mutations.Mutation.Mutate; neither is carried up into the refill loop.
- Breeding.Fill: the refill loop's draws are a finite list, and running out of them fails with
  "out of draws". The source keeps drawing until the population is full
  (PopulationManager.java:158-177).
- Managers.PopulationManager.NewGeneration: the species' stagnation counters are stated after
  the elimination loop (the judgement's recorded counters), not after the refill and the closing
  report. Computing a new child's fitness may reset a counter through setHighestFitness, and the
  refill contracts do not track the counters.
- Managers.PopulationManager.Evolve: the species' counters are stated only after the elimination
  loop, as for Managers.PopulationManager.NewGeneration.
- Breeding.Rebuild: states the number of genomes and that each is new, not their parents, as for
  Breeding.Fill.
- Breeding.Step: the species draw is an index modulo the current species count. With no species
  the round fails, as `Random.random` on an empty list throws.
- Generation.Select: the counter entering a verdict is stated as the old one or 0, since a
  fitness computed during ranking that raises the species' best resets it; which of the two is
  not stated.
- Core.EvolutionCore.GetNextInnovationNumber: `currentInnovationNumber` is a Java 32-bit `int`
  (EvolutionCore.java:56, :88) and the model's is unbounded, so its wrap-around past 2^31 - 1 is
  not modelled.
- Managers.PopulationManager.NewGeneration: `currentGeneration` is a Java 32-bit `int`
  (PopulationManager.java:31, :63) and the model's is unbounded, so its wrap-around is not
  modelled.
- Breeding.Fill: `populationSize` and the refill's count of members (PopulationManager.java:34,
  :140-175) are Java 32-bit `int`s and the model's are unbounded, so their wrap-around is not
  modelled.
- Generation.Judge: a species' `failedGenerations` is a Java 32-bit `int` (Species.java:42) and the
  model's is unbounded, so the wrap-around of its increment is not modelled.
- BackTrace.BackTraceTask.CalculateOutput: requires a ranking of the nodes under which every
  enabled gene from a non-input node climbs, so no enabled cycle avoids the input nodes. The
  source recurses only into the sources of enabled genes that end at the node it evaluates, so it
  overflows the stack only on such a cycle reachable backward from an output node. Graphs whose
  only such cycles are unreachable from every output are computed by the source but are
  excluded by the requirement.
- BackTrace.BackTraceTask.GetOutput: requires the same acyclic ranking as CalculateOutput.
- Genomes.Genome.Rename: the walk would throw a NullPointerException only if a gene's number
  were missing from the map. Renaming.RenameSucceedsWhenKeyed shows this cannot happen on a
  genome that stores every gene under its own number, so the model's failure branch is only
  reachable from maps that are not keyed that way. Colliding targets lose genes instead, as
  Renaming.CollisionLosesGene shows.
- Genomes.Genome.GetFitness: a calculator that returns exactly -1 leaves the cache "not
  computed", as in the source. The model keeps that behaviour and states nothing more about it.
