/**
 * The phases of newGeneration (PopulationManager.java): ranking every species, the total of
 * the species' averages, the verdict on each species (culling, stagnation, breeding quota),
 * the snapshot and clearing of the member sets, the refill, and the final tidy-up.
 */
module Generation {
  import opened Wrappers
  import opened Genes
  import opened Ieee
  import opened Setting
  import opened Genomes
  import opened Populations
  import Core
  import Chance
  import Crossover
  import Mutations

  // ---------------------------------------------------------------------------------------
  // Iterating a set

  /** A HashSet's iteration: every element once, in an order the model leaves open. */
  method Listing(s: set<Genome>) returns (r: seq<Genome>)
    ensures Enumerates(r, s)
  {
    r := [];
    var rest := s;
    while rest != {}
      invariant Distinct(r) && rest <= s
      invariant forall x | x in r :: x in s && x !in rest
      invariant forall x | x in s :: x in rest || x in r
      decreases |rest|
    {
      var g :| g in rest;
      r := r + [g];
      rest := rest - {g};
    }
  }

  // ---------------------------------------------------------------------------------------
  // Ranking (lines 66-69)

  /** A ranking: no genome scores more than one listed before it. */
  ghost predicate BestFirst(r: seq<Genome>)
    reads set g | g in r
  {
    forall a, b | 0 <= a < b < |r| :: r[a].fitness >= r[b].fitness
  }

  /** A ranking by what getFitness() yields: the cached value, or the calculator's on the network. */
  ghost predicate Ranked(r: seq<Genome>)
    reads set g | g in r
  {
    forall a, b | 0 <= a < b < |r| :: r[a].Fitness() >= r[b].Fitness()
  }

  /** A ranking by recorded scores: every genome is recorded, none above one listed before it. */
  predicate RankedBy(score: map<Genome, real>, r: seq<Genome>) {
    && (forall g | g in r :: g in score)
    && forall a, b | 0 <= a < b < |r| :: score[r[a]] >= score[r[b]]
  }

  /**
   * getBestPerforming() for every species in list order: ranking j is a reordering of the
   * members of species j, best first. The members and the representatives are left as they
   * were and the population stays healthy; only fitness caches and the species' records of
   * their highest fitness change.
   */
  method RankAll(ss: seq<Species>, ghost score: map<Genome, real>, ghost core: Core.EvolutionCore) returns (ranks: seq<seq<Genome>>)
    requires Distinct(ss) && Healthy(ss, core) && Snapped(ss, score)
    modifies (set s | s in ss), (set i, g | 0 <= i < |ss| && g in ss[i].members :: g)
    ensures |ranks| == |ss|
    ensures forall s | s in ss :: s.members == old(s.members) && s.representative == old(s.representative)
    ensures Healthy(ss, core)
    ensures forall s | s in ss :: s.failedGenerations == old(s.failedGenerations) || s.failedGenerations == 0
    ensures Snapped(ss, score) && RankedAll(old(MemberSets(ss)), ranks, score)
  {
    ghost var members := MemberSets(ss);
    ranks := [];
    for i := 0 to |ss|
      invariant |ranks| == i
      invariant Healthy(ss, core) && Snapped(ss, score)
      invariant forall j | 0 <= j < |ss| :: ss[j].members == members[j] && ss[j].representative == old(ss[j].representative)
      invariant forall j | 0 <= j < |ss| :: ss[j].failedGenerations == old(ss[j].failedGenerations) || ss[j].failedGenerations == 0
      invariant RankedAll(members[..i], ranks, score)
    {
      label Before:
      var best := RankOne(ss, i, score, core);
      forall j | 0 <= j < |ss| && j != i
        ensures ss[j].members == old@Before(ss[j].members) && ss[j].representative == old@Before(ss[j].representative)
        ensures ss[j].failedGenerations == old@Before(ss[j].failedGenerations)
      {
        assert ss[j] != ss[i];
      }
      ranks := ranks + [best];
    }
    assert members[..|ss|] == members == old(MemberSets(ss));
  }

  /** One species' getBestPerforming(): its members, best first; nothing but fitness records change. */
  method RankOne(ss: seq<Species>, i: int, ghost score: map<Genome, real>, ghost core: Core.EvolutionCore) returns (best: seq<Genome>)
    requires Distinct(ss) && Healthy(ss, core) && Snapped(ss, score) && 0 <= i < |ss|
    modifies ss[i], ss[i].members
    ensures ss[i].members == old(ss[i].members) && ss[i].representative == old(ss[i].representative)
    ensures ss[i].failedGenerations == old(ss[i].failedGenerations) || ss[i].failedGenerations == 0
    ensures Healthy(ss, core) && Snapped(ss, score)
    ensures forall x :: x in best <==> x in ss[i].members
    ensures old(allocated(best)) && BestFirst(best) && old(Ranked(best))
    ensures RankedBy(score, best)
  {
    forall g | g in ss[i].members
      ensures g.species == ss[i]
    {
      HealthyAt(ss, core, i, g);
    }
    best := Rank(ss[i]);
    StillSnapped(ss, core, score, i);
    forall a | 0 <= a < |best|
      ensures best[a] in score && score[best[a]] == old(best[a].Fitness())
    {
      assert best[a] in ss[i].members;
    }
  }

  /** Every genome of `s` yields from getFitness() what it yielded in the earlier state. */
  twostate predicate Rescored(s: set<Genome>)
    reads s
  {
    forall g | g in s :: g.Fitness() == old(g.Fitness())
  }

  /**
   * A genome whose network is as it was and whose cache holds either what getFitness() yielded
   * or what it held yields the same again.
   */
  twostate lemma FitnessKept(g: Genome)
    requires g.genes == old(g.genes) && g.inputNodes == old(g.inputNodes) && g.outputNodes == old(g.outputNodes)
    requires g.fitness == old(g.Fitness()) || g.fitness == old(g.fitness)
    ensures g.Fitness() == old(g.Fitness())
  {
  }

  /** Genomes that each yield the same score yield the same list of scores. */
  twostate lemma ScoresKept(gs: seq<Genome>)
    requires forall g | g in gs :: g.Fitness() == old(g.Fitness())
    ensures Scores(gs) == old(Scores(gs))
  {
    assert forall k | 0 <= k < |gs| :: Scores(gs)[k] == old(Scores(gs))[k];
  }

  /** The genomes of the listed species. */
  ghost function Pool(ss: seq<Species>): set<Genome>
    reads set s | s in ss
  {
    set i, g | 0 <= i < |ss| && g in ss[i].members :: g
  }

  /** `score` records what getFitness() yields for every member of every listed species. */
  ghost predicate Snapped(ss: seq<Species>, score: map<Genome, real>)
    reads (set s | s in ss), (set i, g | 0 <= i < |ss| && g in ss[i].members :: g)
  {
    forall i, g | 0 <= i < |ss| && g in ss[i].members :: g in score && score[g] == g.Fitness()
  }

  /** A record of what getFitness() yields for the members of the listed species. */
  ghost function Snapshot(ss: seq<Species>): (r: map<Genome, real>)
    reads (set s | s in ss), (set i, g | 0 <= i < |ss| && g in ss[i].members :: g)
    ensures Snapped(ss, r)
  {
    map g | g in Pool(ss) :: g.Fitness()
  }

  /**
   * Healthy and Snapped survive a step that left every member set but that of species i as it
   * was, dropped members of species i at most, and kept every genome's network, species and
   * what getFitness() yields.
   */
  twostate lemma StillSnapped(ss: seq<Species>, new core: Core.EvolutionCore, new score: map<Genome, real>, new i: int)
    requires old(allocated(core)) && old(allocated(score))
    requires Distinct(ss) && 0 <= i < |ss| && old(Healthy(ss, core)) && old(Snapped(ss, score))
    requires forall j | 0 <= j < |ss| && j != i :: ss[j].members == old(ss[j].members)
    requires ss[i].members <= old(ss[i].members)
    requires forall g | g in old(ss[i].members) :: Kept(g)
    requires forall j, g | 0 <= j < |ss| && g in ss[j].members && g !in old(ss[i].members) :: Kept(g)
    ensures Healthy(ss, core) && Snapped(ss, score)
  {
    forall j, g | 0 <= j < |ss| && g in ss[j].members
      ensures g.species == ss[j] && g.core == core && g.Valid() && g in score && score[g] == g.Fitness()
    {
      assert g in old(ss[j].members);
      assert Kept(g);
      assert old(g.Valid());
    }
  }

  /** The genome's network, species and what getFitness() yields are as they were. */
  twostate predicate Kept(g: Genome)
    reads g
  {
    && g.genes == old(g.genes) && g.inputNodes == old(g.inputNodes) && g.outputNodes == old(g.outputNodes)
    && g.species == old(g.species) && g.Fitness() == old(g.Fitness())
  }

  /** The recorded scores of the listed genomes, in their order. */
  function Recorded(score: map<Genome, real>, gs: seq<Genome>): (r: seq<real>)
    requires forall g | g in gs :: g in score
    ensures |r| == |gs| && forall k | 0 <= k < |gs| :: r[k] == score[gs[k]]
  {
    if gs == [] then [] else Recorded(score, gs[..|gs| - 1]) + [score[gs[|gs| - 1]]]
  }

  /** Where the record holds what getFitness() yields, the recorded scores are the scores. */
  lemma ScoresRecorded(gs: seq<Genome>, score: map<Genome, real>)
    requires forall g | g in gs :: g in score && score[g] == g.Fitness()
    ensures Recorded(score, gs) == Scores(gs)
  {
  }

  /** getBestPerforming() of a species whose members all point at it. */
  method Rank(sp: Species) returns (best: seq<Genome>)
    requires forall g | g in sp.members :: g.species == sp
    modifies sp, sp.members
    ensures sp.members == old(sp.members) && sp.representative == old(sp.representative)
    ensures forall g | g in sp.members :: && g.genes == old(g.genes) && g.species == old(g.species)
                                          && g.inputNodes == old(g.inputNodes) && g.outputNodes == old(g.outputNodes)
    ensures sp.failedGenerations == old(sp.failedGenerations) || sp.failedGenerations == 0
    ensures forall x :: x in best <==> x in old(sp.members)
    ensures old(allocated(best))
    ensures BestFirst(best) && old(Ranked(best))
    ensures Rescored(sp.members)
  {
    var order := Listing(sp.members);
    forall g | g in order
      ensures g in old(sp.members) && g.species == sp
    {
      assert g in (set x | x in order);
    }
    var r := sp.GetBestPerforming(order);
    if r.Failure? {
      assert false;
    }
    best := r.value;
    assert forall x :: x in best <==> x in multiset(order);
    forall a | 0 <= a < |best|
      ensures best[a] in old(sp.members)
    {
      assert best[a] in multiset(order);
    }
    if |order| >= 2 {
      forall a | 0 <= a < |best|
        ensures best[a].fitness == old(best[a].Fitness())
      {
        assert best[a] in multiset(order);
        var k :| 0 <= k < |order| && order[k] == best[a];
      }
    } else {
      assert |best| < 2 by {
        assert |multiset(best)| == |multiset(order)|;
      }
    }
    forall g | g in sp.members
      ensures g.Fitness() == old(g.Fitness())
    {
      assert g in (set x | x in order);
      var k :| 0 <= k < |order| && order[k] == g;
      FitnessKept(g);
    }
  }

  // ---------------------------------------------------------------------------------------
  // The total of the averages (lines 72-75)

  /** The doubles added up from left to right, starting at 0, as `sum += x` does. */
  function AddUp(xs: seq<Double>): Double {
    if xs == [] then Finite(0.0) else Add(AddUp(xs[..|xs| - 1]), xs[|xs| - 1])
  }

  /** An empty species makes the total NaN; otherwise finite averages give a finite total. */
  lemma {:induction false} AddUpNaN(xs: seq<Double>)
    ensures (exists i | 0 <= i < |xs| :: xs[i].NaN?) ==> AddUp(xs).NaN?
    ensures (forall i | 0 <= i < |xs| :: xs[i].Finite?) ==> AddUp(xs).Finite?
  {
    if xs != [] {
      AddUpNaN(xs[..|xs| - 1]);
      if exists i | 0 <= i < |xs| :: xs[i].NaN? {
        var i :| 0 <= i < |xs| && xs[i].NaN?;
        if i < |xs| - 1 {
          assert xs[..|xs| - 1][i].NaN?;
        }
      }
    }
  }

  /**
   * The sum of getAverageFitness() over the species in list order: each average is the mean of
   * the recorded scores of the species' members, walked in the order `orders` lists them, and
   * the scores getFitness() yields stay as recorded.
   */
  method Total(ss: seq<Species>, ghost score: map<Genome, real>, ghost core: Core.EvolutionCore)
    returns (sum: Double, ghost avgs: seq<Double>, ghost orders: seq<seq<Genome>>)
    requires Distinct(ss) && Healthy(ss, core) && Snapped(ss, score)
    modifies (set s | s in ss), (set i, g | 0 <= i < |ss| && g in ss[i].members :: g)
    ensures forall s | s in ss :: s.members == old(s.members) && s.representative == old(s.representative)
    ensures Healthy(ss, core) && Snapped(ss, score)
    ensures forall s | s in ss :: s.failedGenerations == old(s.failedGenerations) || s.failedGenerations == 0
    ensures |avgs| == |orders| == |ss| && sum == AddUp(avgs)
    ensures Listings(orders, MemberSets(ss)) && Averages(score, orders, avgs)
  {
    ghost var members := MemberSets(ss);
    sum := Finite(0.0);
    avgs, orders := [], [];
    for i := 0 to |ss|
      invariant |avgs| == |orders| == i && sum == AddUp(avgs)
      invariant Healthy(ss, core) && Snapped(ss, score)
      invariant forall j | 0 <= j < |ss| :: ss[j].members == members[j] && ss[j].representative == old(ss[j].representative)
      invariant forall j | 0 <= j < |ss| :: ss[j].failedGenerations == old(ss[j].failedGenerations) || ss[j].failedGenerations == 0
      invariant Listings(orders, members) && Averages(score, orders, avgs)
    {
      label Before:
      sum, avgs, orders := NextAverage(ss, i, members, score, core, sum, avgs, orders);
      forall j | 0 <= j < |ss| && j != i
        ensures ss[j].members == old@Before(ss[j].members) && ss[j].representative == old@Before(ss[j].representative)
        ensures ss[j].failedGenerations == old@Before(ss[j].failedGenerations)
      {
        assert ss[j] != ss[i];
      }
    }
    assert MemberSets(ss) == members;
  }

  /** One pass of the summing loop: species i is listed and averaged, and its average is added. */
  method NextAverage(ss: seq<Species>, i: int, ghost members: seq<set<Genome>>, ghost score: map<Genome, real>,
                     ghost core: Core.EvolutionCore, sum: Double, ghost avgs: seq<Double>, ghost orders: seq<seq<Genome>>)
    returns (sum': Double, ghost avgs': seq<Double>, ghost orders': seq<seq<Genome>>)
    requires Distinct(ss) && Healthy(ss, core) && Snapped(ss, score) && 0 <= i < |ss| == |members|
    requires ss[i].members == members[i]
    requires |avgs| == |orders| == i && sum == AddUp(avgs) && Listings(orders, members) && Averages(score, orders, avgs)
    modifies ss[i], ss[i].members
    ensures Healthy(ss, core) && Snapped(ss, score)
    ensures ss[i].members == old(ss[i].members) && ss[i].representative == old(ss[i].representative)
    ensures ss[i].failedGenerations == old(ss[i].failedGenerations) || ss[i].failedGenerations == 0
    ensures |avgs'| == |orders'| == i + 1 && sum' == AddUp(avgs')
    ensures Listings(orders', members) && Averages(score, orders', avgs')
  {
    var order := Listing(ss[i].members);
    var avg := AverageOne(ss, i, order, score, core);
    assert (avgs + [avg])[..i] == avgs;
    sum' := Add(sum, avg);
    assert (orders + [order])[..i] == orders;
    avgs', orders' := avgs + [avg], orders + [order];
  }

  /** The lists of `orders` enumerate the sets of `sets` at the same positions. */
  ghost predicate Listings(orders: seq<seq<Genome>>, sets: seq<set<Genome>>) {
    && |orders| <= |sets|
    && (orders != [] ==> Listings(orders[..|orders| - 1], sets) && Enumerates(orders[|orders| - 1], sets[|orders| - 1]))
  }

  /** Each list of a Listings enumerates its set. */
  lemma {:induction false} ListingsAt(orders: seq<seq<Genome>>, sets: seq<set<Genome>>, j: int)
    requires Listings(orders, sets) && 0 <= j < |orders|
    ensures Enumerates(orders[j], sets[j])
  {
    if j < |orders| - 1 {
      ListingsAt(orders[..|orders| - 1], sets, j);
    }
  }

  /** Each average is the mean of the recorded scores of the list at the same position. */
  ghost predicate Averages(score: map<Genome, real>, orders: seq<seq<Genome>>, avgs: seq<Double>) {
    && |avgs| == |orders|
    && (avgs != [] ==> var n := |avgs| - 1;
          && Averages(score, orders[..n], avgs[..n])
          && (forall g | g in orders[n] :: g in score) && avgs[n] == Mean(Recorded(score, orders[n])))
  }

  /** What Averages states of one position. */
  lemma {:induction false} AveragesAt(score: map<Genome, real>, orders: seq<seq<Genome>>, avgs: seq<Double>, j: int)
    requires Averages(score, orders, avgs) && 0 <= j < |avgs|
    ensures (forall g | g in orders[j] :: g in score) && avgs[j] == Mean(Recorded(score, orders[j]))
  {
    var n := |avgs| - 1;
    if j < n {
      AveragesAt(score, orders[..n], avgs[..n], j);
    }
  }

  /**
   * getAverageFitness() of species i of a healthy population, over a listing of its members:
   * the mean of their recorded scores, which stay as recorded.
   */
  method AverageOne(ss: seq<Species>, i: int, order: seq<Genome>, ghost score: map<Genome, real>, ghost core: Core.EvolutionCore)
    returns (avg: Double)
    requires Distinct(ss) && Healthy(ss, core) && Snapped(ss, score) && 0 <= i < |ss| && Enumerates(order, ss[i].members)
    modifies ss[i], ss[i].members
    ensures ss[i].members == old(ss[i].members) && ss[i].representative == old(ss[i].representative)
    ensures ss[i].failedGenerations == old(ss[i].failedGenerations) || ss[i].failedGenerations == 0
    ensures Healthy(ss, core) && Snapped(ss, score)
    ensures avg == Mean(Cached(order))
    ensures (forall g | g in order :: g in score) && avg == Mean(Recorded(score, order))
  {
    forall g | g in order
      ensures g in score && score[g] == g.Fitness()
    {
      assert g in (set x | x in order);
    }
    ScoresRecorded(order, score);
    forall g | g in ss[i].members
      ensures g.species == ss[i] && g.Valid()
    {
      HealthyAt(ss, core, i, g);
    }
    avg := Average(ss[i], order);
    StillSnapped(ss, core, score, i);
  }

  /** getAverageFitness() of a species whose members all point at it. */
  method Average(sp: Species, order: seq<Genome>) returns (avg: Double)
    requires forall g | g in sp.members :: g.species == sp
    requires Enumerates(order, sp.members)
    modifies sp, sp.members
    ensures sp.members == old(sp.members) && sp.representative == old(sp.representative)
    ensures forall g | g in sp.members :: && g.genes == old(g.genes) && g.species == old(g.species)
                                          && g.inputNodes == old(g.inputNodes) && g.outputNodes == old(g.outputNodes)
                                          && (old(g.Valid()) ==> g.Valid())
    ensures sp.failedGenerations == old(sp.failedGenerations) || sp.failedGenerations == 0
    ensures avg == Mean(Cached(order)) && avg == Mean(old(Scores(order))) && avg == Mean(Scores(order))
    ensures forall k | 0 <= k < |order| :: order[k].fitness == old(order[k].Fitness())
    ensures Rescored(sp.members)
  {
    forall g | g in order
      ensures g.species == sp
    {
    }
    ghost var scores := Scores(order);
    var r := sp.GetAverageFitness(order);
    if r.Failure? {
      assert false;
    }
    avg := r.value;
    assert Cached(order) == scores;
    forall g | g in sp.members
      ensures old(g.Valid()) ==> g.Valid()
      ensures g.Fitness() == old(g.Fitness())
    {
      if old(g.Valid()) {
        StillValid(g);
      }
      assert g in (set x | x in order);
      var k :| 0 <= k < |order| && order[k] == g;
      FitnessKept(g);
    }
    forall g | g in order
      ensures g.Fitness() == old(g.Fitness())
    {
      assert g in (set x | x in order);
    }
    ScoresKept(order);
  }

  // ---------------------------------------------------------------------------------------
  // Culling and the survival test (lines 89-124), on values

  /** Math.ceil on a finite double. */
  function Ceil(x: real): (r: int)
    ensures r as real - 1.0 < x <= r as real
  {
    -((-x).Floor)
  }

  /**
   * The first rank removed from a species of `size` ranked members: the `Math.ceil(size * pct)`
   * worst are dropped except that one of them is kept, so the index is `floor(size - remove) + 1`.
   */
  function CullStart(size: nat, pct: real): (r: int)
    ensures 0.0 <= pct <= 1.0 ==> 1 <= r <= size + 1
  {
    var x := size as real * pct;
    var c := Ceil(x);
    RealDifference(size, c);
    CeilWithin(size, pct);
    (size as real - c as real).Floor + 1
  }

  /** The number of members removed is between 0 and the size when the percentage is in [0, 1]. */
  lemma CeilWithin(size: nat, pct: real)
    ensures 0.0 <= pct <= 1.0 ==> 0 <= Ceil(size as real * pct) <= size
  {
    if 0.0 <= pct <= 1.0 {
      var x := size as real * pct;
      ScaledWithin(size, pct);
      var c := Ceil(x);
      assert 0.0 <= x <= c as real;
      assert c as real < size as real + 1.0;
    }
  }

  /** The difference of two integers is the same taken as reals. */
  lemma RealDifference(a: int, b: int)
    ensures a as real - b as real == (a - b) as real
    ensures (a as real - b as real).Floor == a - b
  {
  }

  /** A share between 0 and 1 of a size lies between 0 and the size. */
  lemma ScaledWithin(size: nat, pct: real)
    requires 0.0 <= pct <= 1.0
    ensures 0.0 <= size as real * pct <= size as real
  {
    assert size as real * pct <= size as real * 1.0;
  }

  /** The start is one past what the elimination percentage leaves of the ranking. */
  lemma CullStartIs(size: nat, pct: real)
    ensures CullStart(size, pct) == size + 1 - Ceil(size as real * pct)
  {
    var c := Ceil(size as real * pct);
    assert (size as real - c as real) == (size - c) as real;
  }

  /**
   * With a percentage between 0 and 1 the best ranked member always stays and no index is out of
   * range; of a non-empty species one fewer than `ceil(size * pct)` are removed, or none at 0.
   */
  lemma {:induction false} CullKeepsTheBest(size: nat, pct: real)
    requires 0.0 <= pct <= 1.0
    ensures size > 0 && pct > 0.0 ==> size - CullStart(size, pct) == Ceil(size as real * pct) - 1
    ensures pct == 0.0 ==> CullStart(size, pct) == size + 1
  {
    CullStartIs(size, pct);
    var x := size as real * pct;
    assert 0.0 <= x <= size as real by {
      assert x <= size as real * 1.0;
    }
    assert 0 <= Ceil(x) <= size;
  }

  /** A start below zero, which makes best.get(i) fail, takes a percentage above 1. */
  lemma {:induction false} NegativeStartNeedsLargePercentage(size: nat, pct: real)
    requires CullStart(size, pct) < 0
    ensures pct > 1.0 && size > 0
  {
    CullStartIs(size, pct);
    if 0.0 <= pct <= 1.0 {
      CullKeepsTheBest(size, pct);
      assert false;
    }
  }

  /**
   * `Math.floor(avg / sum * totalSize) - 1.0 < 1`: the species earns no breeding spot. Every step
   * is double arithmetic, so a NaN anywhere makes the comparison false.
   */
  predicate Starved(avg: Double, sum: Double, size: int): (r: bool)
    ensures avg.NaN? ==> !r
  {
    var v := Add(Floor(Mul(Div(avg, sum), Finite(size as real))), Finite(-1.0));
    if avg.NaN? then
      assert v.NaN?;
      ComparisonsWithNaNFail(v, Finite(1.0));
      Less(v, Finite(1.0))
    else
      Less(v, Finite(1.0))
  }

  /** On finite values with a non-zero total: starved exactly when its share floors below 2. */
  lemma {:induction false} StarvedOnFinite(avg: real, sum: real, size: int)
    requires sum != 0.0
    ensures Starved(Finite(avg), Finite(sum), size) <==> (avg / sum * size as real).Floor < 2
  {
    var f := (avg / sum * size as real).Floor;
    assert Div(Finite(avg), Finite(sum)) == Finite(avg / sum);
    assert Mul(Finite(avg / sum), Finite(size as real)) == Finite(avg / sum * size as real);
    assert Floor(Finite(avg / sum * size as real)) == Finite(f as real);
    assert Add(Finite(f as real), Finite(-1.0)) == Finite(f as real - 1.0);
  }

  /**
   * With a total of 0, a species with a positive average and a positive population size gets an
   * infinite share and survives; one with average 0 gets NaN and survives as well.
   */
  lemma {:induction false} ZeroTotalStarvesNobody(avg: real, size: int)
    requires avg >= 0.0 && size > 0
    ensures !Starved(Finite(avg), Finite(0.0), size)
  {
    if avg > 0.0 {
      assert Div(Finite(avg), Finite(0.0)) == PosInf;
      assert Mul(PosInf, Finite(size as real)) == PosInf;
    } else {
      assert Div(Finite(avg), Finite(0.0)) == NaN;
    }
  }

  /**
   * Whether a culled species survives the generation: a stagnation count above 15 removes it, so
   * does starvation, and a survivor with an empty ranking fails on best.get(0).
   */
  function Verdict(failed: int, avg: Double, sum: Double, size: int, ranked: nat): (r: Result<bool>)
    ensures r.Failure? <==> failed <= 15 && !Starved(avg, sum, size) && ranked == 0
    ensures r.Failure? ==> r.error == "IndexOutOfBoundsException"
    ensures r == Success(true) <==> failed <= 15 && !Starved(avg, sum, size) && ranked > 0
  {
    if failed > 15 then Success(false)
    else if Starved(avg, sum, size) then Success(false)
    else if ranked == 0 then Failure("IndexOutOfBoundsException")
    else Success(true)
  }

  // ---------------------------------------------------------------------------------------
  // Culling and the survival test (lines 85-126), on species

  /** The cached fitness of the listed genomes. */
  ghost function Cached(gs: seq<Genome>): (r: seq<real>)
    reads set g | g in gs
    ensures |r| == |gs| && forall k | 0 <= k < |gs| :: r[k] == gs[k].fitness
  {
    if gs == [] then [] else Cached(gs[..|gs| - 1]) + [gs[|gs| - 1].fitness]
  }

  /**
   * One pass of the elimination loop on a species ranked `best`: the ranks from CullStart on are
   * removed, the stagnation counter goes up (computing the average may reset it to 0 through a
   * new highest fitness), and the species' fate is the Verdict on its raised counter and the
   * average (cached fitness) of what is left.
   */
  method Judge(sp: Species, best: seq<Genome>, pct: real, sum: Double, size: int)
    returns (r: Result<bool>, avg: Double, ghost order: seq<Genome>)
    requires forall g | g in sp.members :: g.species == sp
    modifies sp, sp.members
    ensures CullStart(|best|, pct) < 0 ==> r == Failure("IndexOutOfBoundsException") && unchanged(sp)
    ensures CullStart(|best|, pct) >= 0 ==>
      && sp.members == old(sp.members) - Culled(best, pct)
      && sp.representative == old(sp.representative)
      && (sp.failedGenerations == old(sp.failedGenerations) + 1 || sp.failedGenerations == 0)
      && (old(sp.failedGenerations) + 1 > 15 ==> r == Success(false) && sp.failedGenerations == old(sp.failedGenerations) + 1)
      && (old(sp.failedGenerations) + 1 <= 15 ==>
            && Enumerates(order, sp.members) && avg == Mean(Cached(order)) && avg == Mean(Scores(order))
            && r == Verdict(old(sp.failedGenerations) + 1, avg, sum, size, |best|))
    ensures forall k | 0 <= k < |order| :: order[k] in old(sp.members)
    ensures forall g | g in old(sp.members) :: && g.genes == old(g.genes) && g.species == old(g.species)
                                                && g.inputNodes == old(g.inputNodes) && g.outputNodes == old(g.outputNodes)
    ensures Rescored(old(sp.members))
  {
    avg, order := NaN, [];
    var start := CullStart(|best|, pct);
    if start < 0 {
      return Failure("IndexOutOfBoundsException"), avg, order;
    }
    Cull(sp, best, start);
    sp.SetFailedGenerations(sp.failedGenerations + 1);
    if sp.failedGenerations > 15 {
      return Success(false), avg, order;
    }
    var failed := sp.failedGenerations;
    var listed := Listing(sp.members);
    forall k | 0 <= k < |listed|
      ensures listed[k] in old(sp.members)
    {
      assert listed[k] in (set x | x in listed);
      assert sp.members <= old(sp.members);
    }
    label Listed:
    avg := Average(sp, listed);
    forall g | g in old(sp.members)
      ensures && g.genes == old(g.genes) && g.species == old(g.species)
              && g.inputNodes == old(g.inputNodes) && g.outputNodes == old(g.outputNodes)
    {
      if g !in old@Listed(sp.members) {
        assert unchanged@Listed(g);
      }
    }
    order := listed;
    r := Verdict(failed, avg, sum, size, |best|);
  }

  /** The loop `for (i = start; i < best.size(); i++) sp.remove(best.get(i))`. */
  method Cull(sp: Species, best: seq<Genome>, start: nat)
    modifies sp
    ensures sp.members == old(sp.members) - (set k | start <= k < |best| :: best[k])
    ensures sp.representative == old(sp.representative) && sp.failedGenerations == old(sp.failedGenerations)
  {
    var i := start;
    while i < |best|
      invariant sp.members == old(sp.members) - (set k | start <= k < i && k < |best| :: best[k])
      invariant sp.representative == old(sp.representative) && sp.failedGenerations == old(sp.failedGenerations)
    {
      sp.Remove(best[i]);
      assert (set k | start <= k < i + 1 && k < |best| :: best[k]) == (set k | start <= k < i && k < |best| :: best[k]) + {best[i]};
      i := i + 1;
    }
  }

  /** The ranked genomes the elimination loop removes. */
  function Culled(best: seq<Genome>, pct: real): set<Genome> {
    set k | 0 <= CullStart(|best|, pct) <= k < |best| :: best[k]
  }

  /** The species whose fate is true, in their order: what the iterator's removals leave. */
  function Keep(ss: seq<Species>, fates: seq<bool>): (r: seq<Species>)
    requires |fates| == |ss|
    ensures |r| <= |ss|
    ensures forall s | s in r :: s in ss
  {
    if ss == [] then []
    else Keep(ss[..|ss| - 1], fates[..|ss| - 1]) + (if fates[|ss| - 1] then [ss[|ss| - 1]] else [])
  }

  /** A species is kept exactly when its fate says so. */
  lemma {:induction false} KeepExactly(ss: seq<Species>, fates: seq<bool>, i: int)
    requires |fates| == |ss| && Distinct(ss) && 0 <= i < |ss|
    ensures ss[i] in Keep(ss, fates) <==> fates[i]
  {
    var n := |ss| - 1;
    if i < n {
      KeepExactly(ss[..n], fates[..n], i);
    } else {
      assert ss[i] !in ss[..n];
    }
  }

  /** Keeping some species of a list without repeats leaves no repeats. */
  lemma {:induction false} KeepDistinct(ss: seq<Species>, fates: seq<bool>)
    requires |fates| == |ss| && Distinct(ss)
    ensures Distinct(Keep(ss, fates))
  {
    if ss != [] {
      var n := |ss| - 1;
      KeepDistinct(ss[..n], fates[..n]);
      assert ss[n] !in Keep(ss[..n], fates[..n]);
    }
  }

  /** One more species judged: Keep grows by it exactly when its fate is true. */
  lemma KeepStep(ss: seq<Species>, fates: seq<bool>, i: int, b: bool)
    requires 0 <= i < |ss| && |fates| == i
    ensures Keep(ss[..i + 1], fates + [b]) == Keep(ss[..i], fates) + (if b then [ss[i]] else [])
  {
    assert ss[..i + 1][..i] == ss[..i];
    assert (fates + [b])[..i] == fates;
  }

  /** What a failure at species i leaves: the kept ones before it, then all from i on. */
  lemma KeepThenRest(ss: seq<Species>, fates: seq<bool>, i: int)
    requires Distinct(ss) && 0 <= i <= |ss| && |fates| == i
    ensures Distinct(Keep(ss[..i], fates) + ss[i..])
    ensures forall s | s in Keep(ss[..i], fates) + ss[i..] :: s in ss
  {
    var kept := Keep(ss[..i], fates);
    KeepDistinct(ss[..i], fates);
    forall j, k | 0 <= j < |kept| && i <= k < |ss|
      ensures kept[j] != ss[k]
    {
      assert kept[j] in ss[..i];
    }
  }

  /** Healthy holds of any list drawn from a healthy one. */
  lemma HealthyDrawn(ss: seq<Species>, kept: seq<Species>, core: Core.EvolutionCore)
    requires Healthy(ss, core) && forall s | s in kept :: s in ss
    ensures Healthy(kept, core)
  {
    forall i, g | 0 <= i < |kept| && g in kept[i].members
      ensures g.species == kept[i] && g.core == core && g.Valid()
    {
      assert kept[i] in ss;
      var j :| 0 <= j < |ss| && ss[j] == kept[i];
      HealthyAt(ss, core, j, g);
    }
  }

  /**
   * Judge on species i of a healthy population, which stays healthy as its members shrink and
   * whose scores stay as recorded; the average is the mean of the recorded scores of what is left.
   */
  method JudgeOne(ss: seq<Species>, i: int, best: seq<Genome>, pct: real, sum: Double, size: int,
                  ghost score: map<Genome, real>, ghost core: Core.EvolutionCore)
    returns (r: Result<bool>, avg: Double, ghost order: seq<Genome>)
    requires Distinct(ss) && Healthy(ss, core) && Snapped(ss, score) && 0 <= i < |ss|
    modifies ss[i], ss[i].members
    ensures Healthy(ss, core) && Snapped(ss, score)
    ensures CullStart(|best|, pct) < 0 ==> r.Failure? && unchanged(ss[i])
    ensures CullStart(|best|, pct) >= 0 ==>
      && ss[i].members == old(ss[i].members) - Culled(best, pct)
      && ss[i].representative == old(ss[i].representative)
      && (ss[i].failedGenerations == old(ss[i].failedGenerations) + 1 || ss[i].failedGenerations == 0)
      && (old(ss[i].failedGenerations) + 1 > 15 ==> ss[i].failedGenerations == old(ss[i].failedGenerations) + 1)
      && r == Verdict(old(ss[i].failedGenerations) + 1, avg, sum, size, |best|)
    ensures r.Success? ==> Settled(ss[i].members, ss[i].failedGenerations, best, pct, sum, size,
                                   old(ss[i].failedGenerations), old(ss[i].members), avg, r.value)
    ensures r.Failure? ==> CullStart(|best|, pct) < 0 || Verdict(old(ss[i].failedGenerations) + 1, avg, sum, size, |best|).Failure?
    ensures Averaged(best, pct, old(ss[i].failedGenerations), old(ss[i].members), order, avg, score)
    ensures forall k | 0 <= k < |order| :: order[k] in old(ss[i].members)
  {
    forall g | g in ss[i].members
      ensures g.species == ss[i]
    {
      HealthyAt(ss, core, i, g);
    }
    r, avg, order := Judge(ss[i], best, pct, sum, size);
    StillSnapped(ss, core, score, i);
    if CullStart(|best|, pct) >= 0 && old(ss[i].failedGenerations) + 1 <= 15 {
      forall g | g in order
        ensures g in score && score[g] == g.Fitness()
      {
        assert g in (set x | x in order);
      }
      ScoresRecorded(order, score);
    }
  }

  /**
   * The elimination loop over all species: each is culled and judged in list order, and those
   * whose verdict is false are removed from the list. The first failure stops the loop, leaving
   * the species judged so far filtered and the rest untouched.
   */
  method JudgeAll(ss: seq<Species>, ranks: seq<seq<Genome>>, pct: real, sum: Double, size: int,
                  ghost orders: seq<seq<Genome>>, ghost means: seq<Double>, ghost counters: seq<int>,
                  ghost score: map<Genome, real>, ghost core: Core.EvolutionCore)
    returns (o: Outcome, left: seq<Species>, fates: seq<bool>, ghost jd: Judgement)
    requires Distinct(ss) && Healthy(ss, core) && Snapped(ss, score) && |ranks| == |ss| && counters == Counters(ss)
    modifies (set s | s in ss), (set i, g | 0 <= i < |ss| && g in ss[i].members :: g)
    ensures Healthy(ss, core) && Healthy(left, core) && Distinct(left)
    ensures forall s | s in left :: s in ss
    ensures jd.ranks == ranks && jd.orders == orders && jd.means == means && jd.sum == sum && jd.counters == counters
    ensures jd.score == score && jd.fates == fates
    ensures Sentenced(|ss|, pct, size, jd)
    ensures AveragedAll(jd.ranks, pct, jd.counters, old(MemberSets(ss)), jd.kept, jd.avgs, score)
    ensures forall j | 0 <= j < |ss| :: ss[j].failedGenerations == jd.after[j]
    ensures forall j | 0 <= j < |jd.fates| :: ss[j].members == old(ss[j].members) - Culled(jd.ranks[j], pct)
    ensures o.Pass? <==> |jd.fates| == |ss|
    ensures o.Pass? ==> left == Keep(ss, jd.fates)
    ensures o.Fail? ==> var i := |jd.fates|;
      && left == Keep(ss[..i], jd.fates) + ss[i..]
      && (CullStart(|jd.ranks[i]|, pct) < 0 || Verdict(jd.counters[i] + 1, jd.avgs[i], jd.sum, size, |jd.ranks[i]|).Failure?)
  {
    var err;
    ghost var avgs, kepts;
    err, fates, avgs, kepts := Verdicts(ss, ranks, pct, sum, size, counters, score, core);
    jd := Judgement(ranks, orders, means, sum, counters, score, kepts, avgs, fates, Counters(ss));
    var i := |fates|;
    if err.None? {
      assert ss[..i] == ss;
      KeepDistinct(ss, fates);
      o, left := Pass, Keep(ss, fates);
    } else {
      KeepThenRest(ss, fates, i);
      o, left := Fail(err.value), Keep(ss[..i], fates) + ss[i..];
    }
    HealthyDrawn(ss, left, core);
  }

  /**
   * The verdicts of the elimination loop, in list order, up to the first that throws: the
   * culling and the verdict of each species judged, the average each verdict used, and the
   * error that stopped the walk.
   */
  method Verdicts(ss: seq<Species>, ranks: seq<seq<Genome>>, pct: real, sum: Double, size: int, ghost counters: seq<int>,
                  ghost score: map<Genome, real>, ghost core: Core.EvolutionCore)
    returns (err: Option<string>, fates: seq<bool>, ghost avgs: seq<Double>, ghost kepts: seq<seq<Genome>>)
    requires Distinct(ss) && Healthy(ss, core) && Snapped(ss, score) && |ranks| == |ss| && counters == Counters(ss)
    modifies (set s | s in ss), (set i, g | 0 <= i < |ss| && g in ss[i].members :: g)
    ensures Healthy(ss, core)
    ensures |fates| <= |ss| && |avgs| == |fates| + (if err.None? then 0 else 1) <= |ss|
    ensures forall j | 0 <= j < |fates| :: Settled(ss[j].members, ss[j].failedGenerations, ranks[j], pct, sum, size, counters[j], old(ss[j].members), avgs[j], fates[j])
    ensures err.None? <==> |fates| == |ss|
    ensures err.Some? ==> var i := |fates|;
      CullStart(|ranks[i]|, pct) < 0 || Verdict(counters[i] + 1, avgs[i], sum, size, |ranks[i]|).Failure?
    ensures AveragedAll(ranks, pct, counters, old(MemberSets(ss)), kepts, avgs, score)
  {
    ghost var members := MemberSets(ss);
    assert old(MemberSets(ss)) == members;
    err, fates, avgs, kepts := None, [], [], [];
    for i := 0 to |ss|
      invariant |fates| == |avgs| == |kepts| == i
      invariant Healthy(ss, core) && Snapped(ss, score)
      invariant forall j | 0 <= j < i ::
        Settled(ss[j].members, ss[j].failedGenerations, ranks[j], pct, sum, size, counters[j], members[j], avgs[j], fates[j])
      invariant forall j | i <= j < |ss| :: ss[j].members == members[j] && ss[j].failedGenerations == counters[j]
      invariant AveragedAll(ranks, pct, counters, members, kepts, avgs, score)
    {
      var r;
      r, fates, avgs, kepts := NextVerdict(ss, i, ranks, pct, sum, size, counters, members, score, core, fates, avgs, kepts);
      if r.Failure? {
        return Some(r.error), fates, avgs, kepts;
      }
    }
  }

  /**
   * One pass of the elimination loop: species i is culled and judged, and the verdicts, the
   * averages and the kept members so far are extended by its own.
   */
  method NextVerdict(ss: seq<Species>, i: int, ranks: seq<seq<Genome>>, pct: real, sum: Double, size: int,
                     ghost counters: seq<int>, ghost members: seq<set<Genome>>, ghost score: map<Genome, real>,
                     ghost core: Core.EvolutionCore, fates: seq<bool>, ghost avgs: seq<Double>, ghost kepts: seq<seq<Genome>>)
    returns (r: Result<bool>, fates': seq<bool>, ghost avgs': seq<Double>, ghost kepts': seq<seq<Genome>>)
    requires Distinct(ss) && Healthy(ss, core) && Snapped(ss, score) && 0 <= i < |ss|
    requires |ranks| == |counters| == |members| == |ss| && |fates| == |avgs| == |kepts| == i
    requires forall j | 0 <= j < i :: Settled(ss[j].members, ss[j].failedGenerations, ranks[j], pct, sum, size, counters[j], members[j], avgs[j], fates[j])
    requires forall j | i <= j < |ss| :: ss[j].members == members[j] && ss[j].failedGenerations == counters[j]
    requires AveragedAll(ranks, pct, counters, members, kepts, avgs, score)
    modifies ss[i], ss[i].members
    ensures Healthy(ss, core) && Snapped(ss, score)
    ensures |avgs'| == |kepts'| == i + 1 && AveragedAll(ranks, pct, counters, members, kepts', avgs', score)
    ensures r.Success? ==> fates' == fates + [r.value]
    ensures r.Failure? ==> && fates' == fates
                           && (CullStart(|ranks[i]|, pct) < 0 || Verdict(counters[i] + 1, avgs'[i], sum, size, |ranks[i]|).Failure?)
    ensures forall j | 0 <= j < |fates'| :: Settled(ss[j].members, ss[j].failedGenerations, ranks[j], pct, sum, size, counters[j], members[j], avgs'[j], fates'[j])
    ensures forall j | i < j < |ss| :: ss[j].members == members[j] && ss[j].failedGenerations == counters[j]
  {
    var avg;
    ghost var order;
    r, avg, order := JudgeOne(ss, i, ranks[i], pct, sum, size, score, core);
    forall j | 0 <= j < |ss| && j != i
      ensures ss[j].members == old(ss[j].members) && ss[j].failedGenerations == old(ss[j].failedGenerations)
    {
      assert ss[j] != ss[i];
    }
    AveragedSnoc(ranks, pct, counters, members, kepts, avgs, score, order, avg);
    avgs', kepts' := avgs + [avg], kepts + [order];
    fates' := if r.Success? then fates + [r.value] else fates;
  }

  /** Each species' member set, in list order. */
  ghost function MemberSets(ss: seq<Species>): (r: seq<set<Genome>>)
    reads set s | s in ss
    ensures |r| == |ss| && forall j | 0 <= j < |ss| :: r[j] == ss[j].members
  {
    if ss == [] then [] else MemberSets(ss[..|ss| - 1]) + [ss[|ss| - 1].members]
  }

  /**
   * A species whose counter was `counter` and whose members were `members` before the
   * elimination loop, and which now holds `now` with counter `after`, was culled to the ranks
   * it keeps, had its counter raised (or reset by a new highest fitness) and was judged to `fate`.
   */
  predicate Settled(now: set<Genome>, after: int, rank: seq<Genome>, pct: real, sum: Double, size: int, counter: int,
                    members: set<Genome>, avg: Double, fate: bool)
  {
    && CullStart(|rank|, pct) >= 0
    && Verdict(counter + 1, avg, sum, size, |rank|) == Success(fate)
    && now == members - Culled(rank, pct)
    && (after == counter + 1 || after == 0)
  }

  // ---------------------------------------------------------------------------------------
  // The first half of newGeneration (lines 63-138)

  /** Each ranking lists exactly the members of its species, best first by recorded score. */
  predicate RankedAll(members: seq<set<Genome>>, ranks: seq<seq<Genome>>, score: map<Genome, real>) {
    && |ranks| == |members|
    && (forall j, a | 0 <= j < |members| && 0 <= a < |ranks[j]| :: ranks[j][a] in members[j])
    && (forall j, x | 0 <= j < |members| && x in members[j] :: x in ranks[j])
    && (forall j | 0 <= j < |members| :: RankedBy(score, ranks[j]))
  }

  /**
   * The scoring of species whose member sets were `members` and whose counters were `before`:
   * every species ranked best first, each average the mean of the recorded scores of the
   * members, walked in the order `orders` lists them, the total the sum of the averages, and
   * each counter as it was or reset to 0 by a new highest fitness.
   */
  ghost predicate Scored(members: seq<set<Genome>>, before: seq<int>, ranks: seq<seq<Genome>>, orders: seq<seq<Genome>>,
                         means: seq<Double>, sum: Double, counters: seq<int>, score: map<Genome, real>)
  {
    && RankedAll(members, ranks, score)
    && |orders| == |means| == |counters| == |before| == |members|
    && Listings(orders, members) && Averages(score, orders, means)
    && sum == AddUp(means)
    && (forall j | 0 <= j < |members| :: counters[j] == before[j] || counters[j] == 0)
  }

  /**
   * The average a verdict used: a species culled in range and not stagnant is averaged over
   * the recorded scores of what the culling left of `members`, walked in the order `kept`.
   */
  predicate Averaged(rank: seq<Genome>, pct: real, counter: int, members: set<Genome>, kept: seq<Genome>, avg: Double,
                     score: map<Genome, real>)
  {
    CullStart(|rank|, pct) >= 0 && counter + 1 <= 15 ==>
      && Enumerates(kept, members - Culled(rank, pct))
      && (forall g | g in kept :: g in score)
      && avg == Mean(Recorded(score, kept))
  }

  /** Averaged for each species judged, in list order, against its earlier member set. */
  predicate AveragedAll(ranks: seq<seq<Genome>>, pct: real, counters: seq<int>, members: seq<set<Genome>>,
                        kept: seq<seq<Genome>>, avgs: seq<Double>, score: map<Genome, real>)
  {
    && |kept| == |avgs| && |avgs| <= |ranks| && |avgs| <= |counters| && |avgs| <= |members|
    && (avgs != [] ==> var n := |avgs| - 1;
          && AveragedAll(ranks, pct, counters, members, kept[..n], avgs[..n], score)
          && Averaged(ranks[n], pct, counters[n], members[n], kept[n], avgs[n], score))
  }

  /** Judging one more species extends AveragedAll by that species' average. */
  lemma AveragedSnoc(ranks: seq<seq<Genome>>, pct: real, counters: seq<int>, members: seq<set<Genome>>,
                     kept: seq<seq<Genome>>, avgs: seq<Double>, score: map<Genome, real>, k: seq<Genome>, avg: Double)
    requires AveragedAll(ranks, pct, counters, members, kept, avgs, score)
    requires |avgs| < |ranks| && |avgs| < |counters| && |avgs| < |members|
    requires Averaged(ranks[|avgs|], pct, counters[|avgs|], members[|avgs|], k, avg, score)
    ensures AveragedAll(ranks, pct, counters, members, kept + [k], avgs + [avg], score)
  {
    assert (kept + [k])[..|avgs|] == kept && (avgs + [avg])[..|avgs|] == avgs;
  }

  /** Each species judged had the average Averaged states. */
  lemma {:induction false} AveragedAt(ranks: seq<seq<Genome>>, pct: real, counters: seq<int>, members: seq<set<Genome>>,
                                      kept: seq<seq<Genome>>, avgs: seq<Double>, score: map<Genome, real>, j: int)
    requires AveragedAll(ranks, pct, counters, members, kept, avgs, score) && 0 <= j < |avgs|
    ensures Averaged(ranks[j], pct, counters[j], members[j], kept[j], avgs[j], score)
  {
    var n := |avgs| - 1;
    if j < n {
      AveragedAt(ranks, pct, counters, members, kept[..n], avgs[..n], score, j);
    }
  }

  /**
   * What the first half of newGeneration computed on the way: each species' ranking, the
   * average of each species before culling and their total, the stagnation counter each
   * verdict started from, the record of the scores, the average after culling, the verdicts
   * up to the first that threw, and the counters the elimination loop left.
   */
  datatype Judgement = Judgement(ranks: seq<seq<Genome>>, orders: seq<seq<Genome>>, means: seq<Double>, sum: Double,
                                 counters: seq<int>, score: map<Genome, real>, kept: seq<seq<Genome>>, avgs: seq<Double>,
                                 fates: seq<bool>, after: seq<int>)

  /**
   * The verdicts of a judgement of `n` species, in list order: each fate is the Verdict on its
   * species' counter plus one, its average after culling, the total and its ranking's length,
   * and the culling start was in range; each judged species' counter afterwards is its old
   * counter plus one, or zero where a new highest fitness reset it; a walk that stopped early
   * has the average of the species it stopped at.
   */
  predicate Sentenced(n: nat, pct: real, size: int, jd: Judgement) {
    && |jd.ranks| == |jd.counters| == |jd.after| == n
    && |jd.fates| <= n
    && |jd.avgs| == (if |jd.fates| < n then |jd.fates| + 1 else n)
    && (forall j | 0 <= j < |jd.fates| ::
          && CullStart(|jd.ranks[j]|, pct) >= 0
          && Verdict(jd.counters[j] + 1, jd.avgs[j], jd.sum, size, |jd.ranks[j]|) == Success(jd.fates[j])
          && (jd.after[j] == jd.counters[j] + 1 || jd.after[j] == 0))
  }

  /**
   * A judgement of species whose member sets were `members` and whose counters were `before`:
   * the scoring, the verdicts, and the average each verdict used.
   */
  ghost predicate Judged(members: seq<set<Genome>>, before: seq<int>, pct: real, size: int, jd: Judgement) {
    && Scored(members, before, jd.ranks, jd.orders, jd.means, jd.sum, jd.counters, jd.score)
    && Sentenced(|members|, pct, size, jd)
    && AveragedAll(jd.ranks, pct, jd.counters, members, jd.kept, jd.avgs, jd.score)
  }

  /**
   * What a judgement states of species j: its average before culling is the mean of the
   * recorded scores of its members, each listed once, and NaN exactly when it had none; a
   * species judged in range and not stagnant was judged on the mean of the recorded scores of
   * the members the culling left.
   */
  lemma JudgedMeans(members: seq<set<Genome>>, before: seq<int>, pct: real, size: int, jd: Judgement, j: int)
    requires Judged(members, before, pct, size, jd) && 0 <= j < |members|
    ensures Enumerates(jd.orders[j], members[j]) && (forall g | g in jd.orders[j] :: g in jd.score)
    ensures jd.means[j] == Mean(Recorded(jd.score, jd.orders[j]))
    ensures jd.means[j].NaN? <==> members[j] == {}
    ensures j < |jd.avgs| && CullStart(|jd.ranks[j]|, pct) >= 0 && jd.counters[j] + 1 <= 15 ==>
      && Enumerates(jd.kept[j], members[j] - Culled(jd.ranks[j], pct))
      && (forall g | g in jd.kept[j] :: g in jd.score)
      && jd.avgs[j] == Mean(Recorded(jd.score, jd.kept[j]))
  {
    ListingsAt(jd.orders, members, j);
    AveragesAt(jd.score, jd.orders, jd.means, j);
    if jd.orders[j] != [] {
      assert jd.orders[j][0] in members[j];
    }
    if j < |jd.avgs| {
      AveragedAt(jd.ranks, pct, jd.counters, members, jd.kept, jd.avgs, jd.score, j);
    }
  }

  /** Each species' stagnation counter, in list order. */
  ghost function Counters(ss: seq<Species>): (r: seq<int>)
    reads set s | s in ss
    ensures |r| == |ss| && forall j | 0 <= j < |ss| :: r[j] == ss[j].failedGenerations
  {
    if ss == [] then [] else Counters(ss[..|ss| - 1]) + [ss[|ss| - 1].failedGenerations]
  }

  /**
   * Lines 66-75: every species ranked and averaged, which scores its members; the member sets
   * and representatives stay, the scores stay as recorded, and the counters left are the ones
   * the verdicts start from.
   */
  method ScoreAll(ss: seq<Species>, ghost score: map<Genome, real>, ghost core: Core.EvolutionCore)
    returns (ranks: seq<seq<Genome>>, sum: Double, ghost orders: seq<seq<Genome>>, ghost means: seq<Double>, ghost counters: seq<int>)
    requires Distinct(ss) && Healthy(ss, core) && Snapped(ss, score)
    modifies (set s | s in ss), (set i, g | 0 <= i < |ss| && g in ss[i].members :: g)
    ensures Healthy(ss, core) && Snapped(ss, score) && |ranks| == |ss|
    ensures forall s | s in ss :: s.members == old(s.members) && s.representative == old(s.representative)
    ensures counters == Counters(ss)
    ensures Scored(old(MemberSets(ss)), old(Counters(ss)), ranks, orders, means, sum, counters, score)
  {
    ranks := RankAll(ss, score, core);
    sum, means, orders := Total(ss, score, core);
    counters := Counters(ss);
    assert MemberSets(ss) == old(MemberSets(ss));
  }

  /**
   * The rankings, the total of the averages and the verdicts on the species list `ss`: what is
   * left is `ss` without the species judged out, up to the first verdict that throws.
   */
  method Assess(ss: seq<Species>, pct: real, size: int, ghost core: Core.EvolutionCore)
    returns (o: Outcome, left: seq<Species>, ghost jd: Judgement)
    requires Distinct(ss) && Healthy(ss, core)
    modifies (set s | s in ss), (set i, g | 0 <= i < |ss| && g in ss[i].members :: g)
    ensures Healthy(ss, core) && Healthy(left, core) && Distinct(left)
    ensures forall s | s in left :: s in ss
    ensures var score := jd.score; old(allocated(score)) && old(Snapped(ss, score))
    ensures Judged(old(MemberSets(ss)), old(Counters(ss)), pct, size, jd)
    ensures forall j | 0 <= j < |jd.fates| :: ss[j].members == old(ss[j].members) - Culled(jd.ranks[j], pct)
    ensures forall j | 0 <= j < |ss| :: ss[j].failedGenerations == jd.after[j]
    ensures o.Pass? <==> |jd.fates| == |ss|
    ensures o.Pass? ==> left == Keep(ss, jd.fates)
    ensures o.Fail? ==> var i := |jd.fates|;
      && left == Keep(ss[..i], jd.fates) + ss[i..]
      && (CullStart(|jd.ranks[i]|, pct) < 0 || Verdict(jd.counters[i] + 1, jd.avgs[i], jd.sum, size, |jd.ranks[i]|).Failure?)
  {
    ghost var score := Snapshot(ss);
    assert allocated(score);
    var ranks, sum;
    ghost var orders, means, counters;
    ranks, sum, orders, means, counters := ScoreAll(ss, score, core);
    assert MemberSets(ss) == old(MemberSets(ss));
    var fates;
    o, left, fates, jd := JudgeAll(ss, ranks, pct, sum, size, orders, means, counters, score, core);
  }

  /**
   * Lines 63-138: the species that the verdicts keep, culled; with none kept, "All species
   * died". A verdict that throws ends the walk, and the species dropped before it stay dropped.
   */
  method Select(pop: Population, pct: real, size: int, ghost core: Core.EvolutionCore) returns (o: Outcome, ghost jd: Judgement)
    requires Distinct(pop.species) && Healthy(pop.species, core)
    modifies pop, (set s | s in pop.species),
             (set i, g | 0 <= i < |pop.species| && g in pop.species[i].members :: g)
    ensures Distinct(pop.species) && Healthy(pop.species, core)
    ensures forall s | s in pop.species :: s in old(pop.species)
    ensures var score := jd.score; old(allocated(score)) && old(Snapped(pop.species, score))
    ensures Judged(old(MemberSets(pop.species)), old(Counters(pop.species)), pct, size, jd)
    ensures forall j | 0 <= j < |jd.fates| :: old(pop.species)[j].members == old(pop.species[j].members) - Culled(jd.ranks[j], pct)
    ensures forall j | 0 <= j < |old(pop.species)| :: old(pop.species)[j].failedGenerations == jd.after[j]
    ensures old(pop.species) == [] ==> o == Fail("All species died")
    ensures o.Pass? <==> |jd.fates| == |old(pop.species)| && Keep(old(pop.species), jd.fates) != []
    ensures |jd.fates| == |old(pop.species)| && Keep(old(pop.species), jd.fates) == [] ==> o == Fail("All species died")
    ensures o.Pass? ==> && pop.species == Keep(old(pop.species), jd.fates)
                        && forall s | s in pop.species :: s.members <= old(s.members)
    ensures |jd.fates| < |old(pop.species)| ==> var i := |jd.fates|;
      && pop.species == Keep(old(pop.species)[..i], jd.fates) + old(pop.species)[i..]
      && (CullStart(|jd.ranks[i]|, pct) < 0 || Verdict(jd.counters[i] + 1, jd.avgs[i], jd.sum, size, |jd.ranks[i]|).Failure?)
  {
    var left;
    o, left, jd := Assess(pop.species, pct, size, core);
    pop.species := left;
    if o.Pass? && left == [] {
      o := Fail("All species died");
    }
  }
}
