/**
 * The compatibility distance of Genome.distance (Stanley and Miikkulainen 2002, eq. 1):
 *   d = c1 * E / N + c2 * D / N + c3 * W
 * with E the excess genes, D the disjoint genes, W the mean weight difference of matching genes
 * and N the gene count of the genome with the higher highest innovation number.
 */
module Distance {
  import opened Wrappers
  import opened Genes
  import opened Ieee

  function Abs(x: real): real {
    if x < 0.0 then -x else x
  }

  /** Innovation number i is carried by exactly one of the two genomes. */
  predicate InOne(x: GeneMap, y: GeneMap, i: int) {
    (i in x) != (i in y)
  }

  /** The disjoint and excess counters of the distance loop. */
  datatype Counts = Counts(disjoint: nat, excess: nat)

  /** The counters after the loop has visited innovation numbers 1..n; s is the shorter highest. */
  function CountsUpTo(x: GeneMap, y: GeneMap, s: int, n: int): (c: Counts)
    decreases n
  {
    if n < 1 then Counts(0, 0)
    else
      var c := CountsUpTo(x, y, s, n - 1);
      if !InOne(x, y, n) then c
      else if n <= s then c.(disjoint := c.disjoint + 1)
      else c.(excess := c.excess + 1)
  }

  /** The weight differences of matching genes numbered 1..n, in innovation order. */
  function Gaps(x: GeneMap, y: GeneMap, n: int): (g: seq<real>)
    decreases n
  {
    if n < 1 then []
    else if n in x && n in y then Gaps(x, y, n - 1) + [Abs(x[n].weight - y[n].weight)]
    else Gaps(x, y, n - 1)
  }

  function Sum(s: seq<real>): real {
    if s == [] then 0.0 else Sum(s[..|s| - 1]) + s[|s| - 1]
  }

  /** The innovation numbers in [lo, hi] satisfying keep. */
  ghost function Between(lo: int, hi: int, keep: int -> bool): set<int> {
    set i | lo <= i <= hi && keep(i)
  }

  lemma {:induction false} BetweenGrows(lo: int, hi: int, keep: int -> bool)
    requires lo <= hi + 1
    ensures |Between(lo, hi + 1, keep)| == |Between(lo, hi, keep)| + (if keep(hi + 1) then 1 else 0)
  {
    if keep(hi + 1) {
      assert Between(lo, hi + 1, keep) == Between(lo, hi, keep) + {hi + 1};
    } else {
      assert Between(lo, hi + 1, keep) == Between(lo, hi, keep);
    }
  }

  /** D counts the numbers up to the shorter highest that only one genome carries. */
  lemma {:induction false} DisjointCountsNumbersInOne(x: GeneMap, y: GeneMap, s: int, n: int)
    requires n >= 0
    ensures CountsUpTo(x, y, s, n).disjoint == |Between(1, n, i => i <= s && InOne(x, y, i))|
    decreases n
  {
    var keep := i => i <= s && InOne(x, y, i);
    if n == 0 {
      assert Between(1, 0, keep) == {};
    } else {
      DisjointCountsNumbersInOne(x, y, s, n - 1);
      BetweenGrows(1, n - 1, keep);
    }
  }

  /** E counts the numbers above the shorter highest that only one genome carries. */
  lemma {:induction false} ExcessCountsNumbersInOne(x: GeneMap, y: GeneMap, s: int, n: int)
    requires n >= 0
    ensures CountsUpTo(x, y, s, n).excess == |Between(1, n, i => i > s && InOne(x, y, i))|
    decreases n
  {
    var keep := i => i > s && InOne(x, y, i);
    if n == 0 {
      assert Between(1, 0, keep) == {};
    } else {
      ExcessCountsNumbersInOne(x, y, s, n - 1);
      BetweenGrows(1, n - 1, keep);
    }
  }

  /** Swapping the genomes changes neither counter nor any weight difference. */
  lemma {:induction false} CountsAreSymmetric(x: GeneMap, y: GeneMap, s: int, n: int)
    ensures CountsUpTo(x, y, s, n) == CountsUpTo(y, x, s, n)
    ensures Gaps(x, y, n) == Gaps(y, x, n)
    decreases n
  {
    if n >= 1 {
      CountsAreSymmetric(x, y, s, n - 1);
      if n in x && n in y {
        assert Abs(x[n].weight - y[n].weight) == Abs(y[n].weight - x[n].weight);
      }
    }
  }

  /** What the distance loop gathers, and the N of the formula. */
  datatype Comparison = Comparison(disjoint: nat, excess: nat, gaps: seq<real>, n: nat)

  /** Which genome is the longest, and the highest innovation numbers of both. */
  datatype Arrangement = Arrangement(longest: GeneMap, shortest: GeneMap, shortestLength: int, longestLength: int)

  /**
   * The genome whose highest innovation number is strictly higher is the longest; on a tie it is
   * the second argument.
   */
  function Arrange(a: GeneMap, b: GeneMap): (r: Result<Arrangement>)
    ensures r.Success? <==> a != map[] && b != map[]
  {
    var ha := HighestInnovationNumber(a);
    if ha.Failure? then Failure(ha.error)
    else
      var hb := HighestInnovationNumber(b);
      if hb.Failure? then Failure(hb.error)
      else if ha.value > hb.value then Success(Arrangement(a, b, hb.value, ha.value))
      else Success(Arrangement(b, a, ha.value, hb.value))
  }

  /** The loops of Genome.distance visit innovation numbers 1..longest highest. */
  function Compare(a: GeneMap, b: GeneMap): (r: Result<Comparison>)
    ensures r.Success? <==> a != map[] && b != map[]
  {
    var o := Arrange(a, b);
    if o.Failure? then Failure(o.error)
    else
      var x := o.value;
      var c := CountsUpTo(x.longest, x.shortest, x.shortestLength, x.longestLength);
      Success(Comparison(c.disjoint, c.excess, Gaps(x.longest, x.shortest, x.longestLength), |x.longest|))
  }

  /**
   * d = (c1 * E) / N + (c2 * D) / N + c3 * W with W = total / size, evaluated with double
   * semantics: with no matching gene (size 0) W, and so d, is NaN.
   */
  function Formula(excess: nat, disjoint: nat, total: real, size: nat, n: nat, c1: real, c2: real, c3: real): Double
    requires n > 0
  {
    var w := Div(Finite(total), Finite(size as real));
    Add(Finite(c1 * excess as real / n as real + c2 * disjoint as real / n as real), Mul(Finite(c3), w))
  }

  /** The distance of a gathered comparison. */
  function Evaluate(k: Comparison, c1: real, c2: real, c3: real): Double
    requires k.n > 0
  {
    Formula(k.excess, k.disjoint, Sum(k.gaps), |k.gaps|, k.n, c1, c2, c3)
  }

  lemma CompareOfArrangement(a: GeneMap, b: GeneMap, x: Arrangement)
    requires Arrange(a, b) == Success(x)
    ensures var c := CountsUpTo(x.longest, x.shortest, x.shortestLength, x.longestLength);
            Compare(a, b) == Success(Comparison(c.disjoint, c.excess, Gaps(x.longest, x.shortest, x.longestLength), |x.longest|))
  {
  }

  function DistanceOf(a: GeneMap, b: GeneMap, c1: real, c2: real, c3: real): Result<Double> {
    var k := Compare(a, b);
    if k.Failure? then Failure(k.error)
    else
      assert k.value.n > 0 by { assert |a| > 0 && |b| > 0; }
      Success(Evaluate(k.value, c1, c2, c3))
  }

  /** The first loop of distance: numbers 1..l, counting and collecting weight differences. */
  method Scan(longest: GeneMap, shortest: GeneMap, s: int, l: int) returns (disjoint: nat, excess: nat, weights: seq<real>)
    ensures Counts(disjoint, excess) == CountsUpTo(longest, shortest, s, l)
    ensures weights == Gaps(longest, shortest, l)
  {
    disjoint, excess := 0, 0;
    weights := [];
    var i := 1;
    while i <= l
      invariant l < 1 ==> i == 1
      invariant l >= 1 ==> 1 <= i <= l + 1
      invariant Counts(disjoint, excess) == CountsUpTo(longest, shortest, s, i - 1)
      invariant weights == Gaps(longest, shortest, i - 1)
    {
      var aa := i in longest;
      var bb := i in shortest;
      if (!aa && bb) || (aa && !bb) {
        if i <= s {
          disjoint := disjoint + 1;
        } else if i > s {
          excess := excess + 1;
        }
      }
      if aa && bb {
        weights := weights + [Abs(longest[i].weight - shortest[i].weight)];
      }
      i := i + 1;
    }
  }

  /** The second loop of distance: the sum and the number of the collected differences. */
  method Total(weights: seq<real>) returns (total: real, size: nat)
    ensures total == Sum(weights) && size == |weights|
  {
    total := 0.0;
    size := 0;
    var j := 0;
    while j < |weights|
      invariant 0 <= j <= |weights|
      invariant total == Sum(weights[..j]) && size == j
    {
      assert weights[..j + 1][..j] == weights[..j];
      total := total + weights[j];
      size := size + 1;
      j := j + 1;
    }
    assert weights[..j] == weights;
  }

  /**
   * Genome.distance: fails on an empty genome, otherwise counts disjoint and excess genes and
   * collects the weight differences of matching genes in one loop, sums them in a second.
   */
  method Distance(a: GeneMap, b: GeneMap, c1: real, c2: real, c3: real) returns (r: Result<Double>)
    ensures r == DistanceOf(a, b, c1, c2, c3)
    ensures r.Failure? <==> a == map[] || b == map[]
  {
    var ha := HighestInnovationNumber(a);
    if ha.Failure? {
      return Failure(ha.error);
    }
    var hb := HighestInnovationNumber(b);
    if hb.Failure? {
      return Failure(hb.error);
    }
    var longest, shortest;
    if ha.value > hb.value {
      longest, shortest := a, b;
    } else {
      longest, shortest := b, a;
    }
    var shortestLength := HighestInnovationNumber(shortest).value;
    var longestLength := HighestInnovationNumber(longest).value;
    assert Arrange(a, b) == Success(Arrangement(longest, shortest, shortestLength, longestLength));

    var disjoint, excess, weights := Scan(longest, shortest, shortestLength, longestLength);
    var total, size := Total(weights);
    var d := Formula(excess, disjoint, total, size, |longest|, c1, c2, c3);
    CompareOfArrangement(a, b, Arrangement(longest, shortest, shortestLength, longestLength));
    return Success(d);
  }

  /**
   * E and D do not depend on the argument order, nor do the matching weight differences; N does
   * not either unless both highest numbers tie.
   */
  lemma {:induction false} CompareArgumentOrder(a: GeneMap, b: GeneMap)
    requires a != map[] && b != map[]
    ensures Compare(a, b).value.disjoint == Compare(b, a).value.disjoint
    ensures Compare(a, b).value.excess == Compare(b, a).value.excess
    ensures Compare(a, b).value.gaps == Compare(b, a).value.gaps
    ensures HighestInnovationNumber(a) != HighestInnovationNumber(b) ==> Compare(a, b) == Compare(b, a)
  {
    var ha := HighestInnovationNumber(a).value;
    var hb := HighestInnovationNumber(b).value;
    if ha > hb {
    } else if hb > ha {
    } else {
      CountsAreSymmetric(a, b, ha, ha);
    }
  }

  /** On a tie of highest numbers, N comes from the second argument, so d is not symmetric. */
  lemma TieMakesDistanceAsymmetric()
    ensures var a := map[1 := Gene(1, 1, 3, 0.5, true), 2 := Gene(2, 2, 3, 0.5, true)];
            var b := map[2 := Gene(2, 2, 3, 0.5, true)];
            && DistanceOf(a, b, 1.0, 1.0, 0.4) == Success(Finite(1.0))
            && DistanceOf(b, a, 1.0, 1.0, 0.4) == Success(Finite(0.5))
  {
    var a := map[1 := Gene(1, 1, 3, 0.5, true), 2 := Gene(2, 2, 3, 0.5, true)];
    var b := map[2 := Gene(2, 2, 3, 0.5, true)];
    ExampleHighest(a, b);
    CompareOfArrangement(a, b, Arrangement(b, a, 2, 2));
    CompareOfArrangement(b, a, Arrangement(a, b, 2, 2));
    ExampleCounts(a, b);
    OneDisjointGene(1.0, 1.0, 0.4);
  }

  lemma ExampleHighest(a: GeneMap, b: GeneMap)
    requires a == map[1 := Gene(1, 1, 3, 0.5, true), 2 := Gene(2, 2, 3, 0.5, true)]
    requires b == map[2 := Gene(2, 2, 3, 0.5, true)]
    ensures Arrange(a, b) == Success(Arrangement(b, a, 2, 2))
    ensures Arrange(b, a) == Success(Arrangement(a, b, 2, 2))
  {
    assert 2 in a && 2 in b && a.Keys == {1, 2} && b.Keys == {2};
    assert LastKey(a) == 2 && LastKey(b) == 2;
  }

  lemma ExampleCounts(a: GeneMap, b: GeneMap)
    requires a == map[1 := Gene(1, 1, 3, 0.5, true), 2 := Gene(2, 2, 3, 0.5, true)]
    requires b == map[2 := Gene(2, 2, 3, 0.5, true)]
    ensures CountsUpTo(b, a, 2, 2) == Counts(1, 0) && Gaps(b, a, 2) == [0.0]
    ensures CountsUpTo(a, b, 2, 2) == Counts(1, 0) && Gaps(a, b, 2) == [0.0]
  {
    assert 1 !in b && 2 in b && 1 in a && 2 in a;
    assert CountsUpTo(b, a, 2, 1) == Counts(1, 0) && Gaps(b, a, 1) == [];
    assert CountsUpTo(a, b, 2, 1) == Counts(1, 0) && Gaps(a, b, 1) == [];
  }

  lemma OneDisjointGene(c1: real, c2: real, c3: real)
    ensures Evaluate(Comparison(1, 0, [0.0], 1), c1, c2, c3) == Finite(c2)
    ensures Evaluate(Comparison(1, 0, [0.0], 2), c1, c2, c3) == Finite(c2 / 2.0)
  {
    assert Sum([0.0]) == 0.0 by { assert [0.0][..0] == []; }
  }

  /** The arranged highest numbers bound the keys of both genomes. */
  lemma ArrangeBounds(a: GeneMap, b: GeneMap)
    requires a != map[] && b != map[] && KeyedByInnovation(a) && KeyedByInnovation(b)
    ensures var x := Arrange(a, b).value;
            && (forall k | k in x.shortest :: k <= x.shortestLength)
            && (forall k | k in x.longest :: k <= x.longestLength)
            && x.shortestLength <= x.longestLength
  {
  }

  /**
   * E is the number of genes of the longest genome numbered above the shortest genome's highest
   * (among positive numbers, the only ones the counter hands out).
   */
  lemma {:induction false} ExcessIsGenesAboveShortest(a: GeneMap, b: GeneMap)
    requires a != map[] && b != map[] && KeyedByInnovation(a) && KeyedByInnovation(b)
    ensures var x := Arrange(a, b).value;
            Compare(a, b).value.excess == |set k | k in x.longest && k >= 1 && k > x.shortestLength|
  {
    var x := Arrange(a, b).value;
    CompareOfArrangement(a, b, x);
    ArrangeBounds(a, b);
    ExcessAbove(x.longest, x.shortest, x.shortestLength, x.longestLength);
  }

  lemma {:induction false} ExcessAbove(longest: GeneMap, shortest: GeneMap, s: int, l: int)
    requires forall k | k in shortest :: k <= s
    requires forall k | k in longest :: k <= l
    ensures CountsUpTo(longest, shortest, s, l).excess == |set k | k in longest && k >= 1 && k > s|
  {
    var keep := i => i > s && InOne(longest, shortest, i);
    var above := set k | k in longest && k >= 1 && k > s;
    if l >= 0 {
      ExcessCountsNumbersInOne(longest, shortest, s, l);
      assert Between(1, l, keep) == above by {
        forall i | i in above ensures i in Between(1, l, keep) {
          assert i !in shortest;
        }
      }
    } else {
      assert above == {};
      assert CountsUpTo(longest, shortest, s, l) == Counts(0, 0);
    }
  }

  /** A genome is at distance 0 from itself unless it has no gene numbered 1 or more (then NaN). */
  lemma {:induction false} DistanceToSelf(a: GeneMap, c1: real, c2: real, c3: real)
    requires a != map[] && KeyedByInnovation(a)
    ensures (exists k | k in a :: k >= 1) ==> DistanceOf(a, a, c1, c2, c3) == Success(Finite(0.0))
    ensures (forall k | k in a :: k < 1) ==> DistanceOf(a, a, c1, c2, c3) == Success(NaN)
  {
    var h := HighestInnovationNumber(a).value;
    SelfCountsAreZero(a, h, h);
    SelfGapsAreZero(a, h);
    var k := Comparison(0, 0, Gaps(a, a, h), |a|);
    assert Compare(a, a) == Success(k);
    FormulaWithoutDifferences(k, c1, c2, c3);
    if exists j | j in a :: j >= 1 {
      var j :| j in a && j >= 1;
      SelfGapsCoverKeys(a, j, h);
    } else {
      NoGapsBelowOne(a, h);
    }
  }

  /** With no excess, no disjoint genes and only zero weight differences, d is 0, or NaN if W is. */
  lemma FormulaWithoutDifferences(k: Comparison, c1: real, c2: real, c3: real)
    requires k.n > 0 && k.excess == 0 && k.disjoint == 0 && Sum(k.gaps) == 0.0
    ensures Evaluate(k, c1, c2, c3) == if k.gaps == [] then NaN else Finite(0.0)
  {
  }

  lemma {:induction false} SelfCountsAreZero(a: GeneMap, s: int, n: int)
    ensures CountsUpTo(a, a, s, n) == Counts(0, 0)
    decreases n
  {
    if n >= 1 {
      SelfCountsAreZero(a, s, n - 1);
    }
  }

  lemma {:induction false} SelfGapsAreZero(a: GeneMap, n: int)
    ensures Sum(Gaps(a, a, n)) == 0.0
    decreases n
  {
    if n >= 1 {
      SelfGapsAreZero(a, n - 1);
      if n in a {
        var g := Gaps(a, a, n);
        assert g[..|g| - 1] == Gaps(a, a, n - 1);
      }
    }
  }

  lemma {:induction false} SelfGapsCoverKeys(a: GeneMap, k: int, n: int)
    requires k in a && 1 <= k <= n
    ensures |Gaps(a, a, n)| > 0
    decreases n
  {
    if n > k {
      SelfGapsCoverKeys(a, k, n - 1);
    }
  }

  lemma {:induction false} NoGapsBelowOne(a: GeneMap, n: int)
    requires forall k | k in a :: k < 1
    ensures Gaps(a, a, n) == []
    decreases n
  {
    if n >= 1 {
      NoGapsBelowOne(a, n - 1);
    }
  }

  /** d is NaN exactly when no gene is matched, and a finite number otherwise. */
  lemma {:induction false} NaNExactlyWithoutMatches(a: GeneMap, b: GeneMap, c1: real, c2: real, c3: real)
    requires a != map[] && b != map[]
    ensures DistanceOf(a, b, c1, c2, c3).value.NaN? <==> Compare(a, b).value.gaps == []
    ensures Compare(a, b).value.gaps != [] ==> DistanceOf(a, b, c1, c2, c3).value.Finite?
  {
    var k := Compare(a, b).value;
    if k.gaps == [] {
      assert Sum(k.gaps) == 0.0;
    }
  }
}
