/**
 * The tunable constants of the engine (Setting.java): a closed set of keys, each with a
 * default value, and the table of current values that the engine keeps.
 */
module Setting {

  /** The keys in their declaration order. The compatibility key keeps the source's spelling. */
  datatype Key =
    | GeneDisableChance
    | MutationWeightChance
    | MutationWeightRandomChance
    | MutationWeightMaxDisturbance
    | MutationNewConnectionChance
    | MutationNewNodeChance
    | DistanceExcessWeight
    | DistanceDisjointWeight
    | DistanceWeightsWeight
    | SpeciesCompatibiltyDistance
    | GenerationEliminationPercentage
    | BreedCrossChance
    | MutationWeightChanceRandomRange

  /** All keys, in declaration order (the enum's values()). */
  function Values(): (r: seq<Key>)
    ensures |r| == 13
    ensures forall i, j | 0 <= i < j < |r| :: r[i] != r[j]
    ensures r[0] == GeneDisableChance && r[12] == MutationWeightChanceRandomRange
  {
    [GeneDisableChance, MutationWeightChance, MutationWeightRandomChance,
     MutationWeightMaxDisturbance, MutationNewConnectionChance, MutationNewNodeChance,
     DistanceExcessWeight, DistanceDisjointWeight, DistanceWeightsWeight,
     SpeciesCompatibiltyDistance, GenerationEliminationPercentage, BreedCrossChance,
     MutationWeightChanceRandomRange]
  }

  /** The enumeration lists every key: the table seeded from it is total. */
  lemma {:induction false} ValuesListsEveryKey(k: Key)
    ensures k in Values()
  {
    var v := Values();
    match k
    case GeneDisableChance => assert v[0] == k;
    case MutationWeightChance => assert v[1] == k;
    case MutationWeightRandomChance => assert v[2] == k;
    case MutationWeightMaxDisturbance => assert v[3] == k;
    case MutationNewConnectionChance => assert v[4] == k;
    case MutationNewNodeChance => assert v[5] == k;
    case DistanceExcessWeight => assert v[6] == k;
    case DistanceDisjointWeight => assert v[7] == k;
    case DistanceWeightsWeight => assert v[8] == k;
    case SpeciesCompatibiltyDistance => assert v[9] == k;
    case GenerationEliminationPercentage => assert v[10] == k;
    case BreedCrossChance => assert v[11] == k;
    case MutationWeightChanceRandomRange => assert v[12] == k;
  }

  /**
   * The value each key is declared with. Every default chance is a probability, and both
   * weight ranges are positive.
   */
  function DefaultValue(k: Key): (r: real)
    ensures 0.0 <= r
    ensures k != MutationWeightChanceRandomRange ==> r <= 1.0
    ensures k == MutationWeightMaxDisturbance || k == MutationWeightChanceRandomRange ==> r > 0.0
  {
    match k
    case GeneDisableChance => 0.75
    case MutationWeightChance => 0.80
    case MutationWeightRandomChance => 0.10
    case MutationWeightMaxDisturbance => 0.25
    case MutationNewConnectionChance => 0.05
    case MutationNewNodeChance => 0.03
    case DistanceExcessWeight => 1.0
    case DistanceDisjointWeight => 1.0
    case DistanceWeightsWeight => 0.4
    case SpeciesCompatibiltyDistance => 0.8
    case GenerationEliminationPercentage => 0.90
    case BreedCrossChance => 0.75
    case MutationWeightChanceRandomRange => 5.0
  }

  /** A settings table holds a value for every key. */
  ghost predicate Total(m: map<Key, real>) {
    forall k: Key :: k in m
  }

  /** The table the engine starts from: every key at its default. */
  function DefaultTable(): (t: map<Key, real>)
    ensures Total(t)
    ensures forall k: Key :: t[k] == DefaultValue(k)
  {
    var t := map k | k in Values() :: DefaultValue(k);
    assert forall k: Key :: k in t by {
      forall k: Key ensures k in t {
        ValuesListsEveryKey(k);
      }
    }
    t
  }

  type Table = m: map<Key, real> | Total(m) witness DefaultTable()
}
