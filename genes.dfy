/**
 * Connection genes (Gene.java) and the read-only views of a genome's gene map that
 * Genome.java computes: genes in innovation order, node lists, connection lists.
 *
 * A gene is a value here. The source never shares a Gene object between two maps (addGene and
 * clone both copy), so changing a gene through its setters is the same as replacing the map
 * entry of its one owner.
 */
module Genes {
  import opened Wrappers

  /** A connection gene: identity (innovation number), fixed endpoints, mutable weight and flag. */
  datatype Gene = Gene(innovationNumber: int, from: int, to: int, weight: real, enabled: bool)

  /** A directed connection between two nodes; equal when both endpoints are equal. */
  datatype Connection = Connection(from: int, to: int)

  function ConnectionOf(g: Gene): Connection {
    Connection(g.from, g.to)
  }

  /** A genome's genes, keyed by innovation number (the source's TreeMap). */
  type GeneMap = map<int, Gene>

  /** What a fitness calculator and the network evaluator see of a genome. */
  datatype Network = Network(genes: GeneMap, inputs: seq<int>, outputs: seq<int>)

  /** No element occurs twice (the guard of addInputNode/addOutputNode keeps node lists so). */
  predicate Distinct<T(==)>(s: seq<T>) {
    forall i, j | 0 <= i < j < |s| :: s[i] != s[j]
  }

  /** Every innovation number in use lies below the next number the counter hands out. */
  ghost predicate KeysBelow(m: GeneMap, next: int) {
    forall k | k in m :: k < next
  }

  /** Every gene sits under its own innovation number. */
  ghost predicate KeyedByInnovation(m: GeneMap) {
    forall k | k in m :: m[k].innovationNumber == k
  }

  predicate StrictlyIncreasing(s: seq<int>) {
    forall i, j | 0 <= i < j < |s| :: s[i] < s[j]
  }

  predicate IsMax(x: int, s: set<int>) {
    x in s && forall y | y in s :: y <= x
  }

  /** Some element of a non-empty set. */
  ghost function Element<T>(s: set<T>): (y: T)
    requires s != {}
    ensures y in s
  {
    var y :| y in s; y
  }

  lemma {:induction false} MaxExists(s: set<int>)
    requires s != {}
    ensures exists x :: IsMax(x, s)
    decreases |s|
  {
    var y := Element(s);
    if s != {y} {
      MaxExists(s - {y});
      var m :| IsMax(m, s - {y});
      if m < y {
        forall z | z in s ensures z <= y {
          if z != y { assert z in s - {y}; }
        }
        assert IsMax(y, s);
      } else {
        forall z | z in s ensures z <= m {
          if z != y { assert z in s - {y}; }
        }
        assert IsMax(m, s);
      }
    } else {
      assert IsMax(y, s);
    }
  }

  /** The elements of a finite set of integers in ascending order. */
  function SortedElements(s: set<int>): (r: seq<int>)
    ensures StrictlyIncreasing(r)
    ensures forall x :: x in r <==> x in s
    ensures |r| == |s|
    decreases |s|
  {
    if s == {} then []
    else
      MaxExists(s);
      var x :| IsMax(x, s);
      SortedElements(s - {x}) + [x]
  }

  /** The innovation numbers of a genome in ascending order (TreeMap iteration order). */
  function SortedKeys(m: GeneMap): (ks: seq<int>)
    ensures StrictlyIncreasing(ks)
    ensures forall k :: k in ks <==> k in m
    ensures |ks| == |m|
  {
    SortedElements(m.Keys)
  }

  /** genes.values(): the genes in ascending innovation order. */
  function GenesInOrder(m: GeneMap): (gs: seq<Gene>)
    ensures |gs| == |m|
    ensures forall i | 0 <= i < |gs| :: SortedKeys(m)[i] in m && gs[i] == m[SortedKeys(m)[i]]
  {
    GenesAt(m, SortedKeys(m))
  }

  /** The genes stored under the keys ks, in the order of ks. */
  function GenesAt(m: GeneMap, ks: seq<int>): (gs: seq<Gene>)
    requires forall i | 0 <= i < |ks| :: ks[i] in m
    ensures |gs| == |ks|
    ensures forall i | 0 <= i < |ks| :: gs[i] == m[ks[i]]
  {
    if ks == [] then [] else [m[ks[0]]] + GenesAt(m, ks[1..])
  }

  /**
   * getAllConnections: one connection per gene, enabled or not, in innovation order, so two
   * genomes have equal lists exactly when their i-th genes have the same endpoints for every i.
   */
  function AllConnections(m: GeneMap): (cs: seq<Connection>)
    ensures |cs| == |m|
  {
    ConnectionsOf(GenesInOrder(m))
  }

  function ConnectionsOf(gs: seq<Gene>): (cs: seq<Connection>)
    ensures |cs| == |gs|
    ensures forall i | 0 <= i < |gs| :: cs[i] == ConnectionOf(gs[i])
  {
    seq(|gs|, i requires 0 <= i < |gs| => ConnectionOf(gs[i]))
  }

  /** The key of the last gene in innovation order: the largest key. */
  function LastKey(m: GeneMap): (k: int)
    requires m != map[]
    ensures k in m && forall j | j in m :: j <= k
  {
    assert SortedKeys(m)[|m| - 1] in m;
    var k :| k in m && forall j | j in m :: j <= k; k
  }

  /**
   * getHighestInnovationNumber: the innovation number carried by the last gene in order; an
   * empty genome is an error. With every gene under its own number this is the largest key.
   */
  function HighestInnovationNumber(m: GeneMap): (r: Result<int>)
    ensures r.Success? <==> m != map[]
    ensures r.Success? ==> r.value == m[LastKey(m)].innovationNumber
    ensures r.Success? && KeyedByInnovation(m) ==> r.value in m && forall k | k in m :: k <= r.value
  {
    if m == map[] then Failure("Genes may not be empty")
    else Success(m[LastKey(m)].innovationNumber)
  }

  /** Every node that some gene, enabled or disabled, starts or ends at. */
  function Endpoints(m: GeneMap): set<int> {
    (set k | k in m :: m[k].from) + (set k | k in m :: m[k].to)
  }

  predicate IsEndpoint(m: GeneMap, n: int) {
    exists k | k in m :: m[k].from == n || m[k].to == n
  }

  lemma EndpointsAreEndpoints(m: GeneMap)
    ensures forall n :: n in Endpoints(m) <==> IsEndpoint(m, n)
  {
  }

  /** getAllNodes: the endpoints of all genes, sorted, each once. */
  function AllNodes(m: GeneMap): (ns: seq<int>)
    ensures StrictlyIncreasing(ns)
    ensures forall n :: n in ns <==> IsEndpoint(m, n)
  {
    EndpointsAreEndpoints(m);
    SortedElements(Endpoints(m))
  }

  /**
   * getHighestNode: the last element of getAllNodes, the largest endpoint. With no genes the
   * list is empty and reading its last element fails.
   */
  function HighestNode(m: GeneMap): (r: Result<int>)
    ensures r.Success? <==> m != map[]
    ensures r.Success? ==> IsEndpoint(m, r.value) && forall k | k in m :: m[k].from <= r.value && m[k].to <= r.value
  {
    var ns := AllNodes(m);
    if |ns| == 0 then
      assert m == map[] by {
        assert forall k | k in m :: m[k].from in ns;
        assert m.Keys == {};
      }
      Failure("Index -1 out of bounds")
    else
      assert m != map[] by {
        assert IsEndpoint(m, ns[0]);
      }
      assert forall k | k in m :: m[k].from <= ns[|ns| - 1] && m[k].to <= ns[|ns| - 1] by {
        forall k | k in m ensures m[k].from <= ns[|ns| - 1] && m[k].to <= ns[|ns| - 1] {
          assert m[k].from in ns && m[k].to in ns;
        }
      }
      Success(ns[|ns| - 1])
  }

  /** isHiddenNode: neither an input nor an output node. */
  predicate IsHidden(inputs: seq<int>, outputs: seq<int>, n: int) {
    n !in inputs && n !in outputs
  }

  /** The filter of getNodes: a node is skipped when one of its categories is excluded. */
  predicate Kept(inputs: seq<int>, outputs: seq<int>, n: int, includeInput: bool, includeHidden: bool, includeOutput: bool) {
    && !(n in inputs && !includeInput)
    && !(IsHidden(inputs, outputs, n) && !includeHidden)
    && !(n in outputs && !includeOutput)
  }

  function Filter(ns: seq<int>, inputs: seq<int>, outputs: seq<int>, includeInput: bool, includeHidden: bool, includeOutput: bool): (r: seq<int>)
    ensures forall n :: n in r <==> n in ns && Kept(inputs, outputs, n, includeInput, includeHidden, includeOutput)
    ensures StrictlyIncreasing(ns) ==> StrictlyIncreasing(r)
  {
    if ns == [] then []
    else
      var rest := Filter(ns[1..], inputs, outputs, includeInput, includeHidden, includeOutput);
      assert StrictlyIncreasing(ns) ==> forall n | n in rest :: ns[0] < n by {
        if StrictlyIncreasing(ns) {
          forall n | n in rest ensures ns[0] < n {
            var j :| 0 <= j < |ns[1..]| && ns[1..][j] == n;
            assert ns[j + 1] == n;
          }
        }
      }
      if Kept(inputs, outputs, ns[0], includeInput, includeHidden, includeOutput) then
        var r := [ns[0]] + rest;
        assert StrictlyIncreasing(ns) ==> StrictlyIncreasing(r) by {
          if StrictlyIncreasing(ns) {
            forall i, j | 0 <= i < j < |r| ensures r[i] < r[j] {
              if i == 0 { assert r[j] in rest; } else { assert r[i] == rest[i - 1] && r[j] == rest[j - 1]; }
            }
          }
        }
        r
      else rest
  }

  /**
   * getNodes(includeInput, includeHidden, includeOutput): the endpoints, ascending, that the
   * three flags do not exclude.
   */
  function Nodes(m: GeneMap, inputs: seq<int>, outputs: seq<int>, includeInput: bool, includeHidden: bool, includeOutput: bool): (ns: seq<int>)
    ensures StrictlyIncreasing(ns)
    ensures forall n :: n in ns <==> IsEndpoint(m, n) && Kept(inputs, outputs, n, includeInput, includeHidden, includeOutput)
  {
    Filter(AllNodes(m), inputs, outputs, includeInput, includeHidden, includeOutput)
  }

  /** getHiddenNodes: the endpoints that are neither inputs nor outputs, ascending. */
  function HiddenNodes(m: GeneMap, inputs: seq<int>, outputs: seq<int>): (ns: seq<int>)
    ensures StrictlyIncreasing(ns)
    ensures forall n :: n in ns <==> IsEndpoint(m, n) && IsHidden(inputs, outputs, n)
  {
    Nodes(m, inputs, outputs, false, true, false)
  }
}
