/**
 * The network evaluator (BackTraceTask.java): input values are bound to the input nodes, and
 * each output node's value is computed backwards, node by node, over the enabled genes, with a
 * cache shared by all outputs of one call. The activation function is an arbitrary
 * `real -> real`.
 *
 * The plain recursion `Value` is the reference definition; the memoised `GetOutput` is proved to
 * agree with it. Both need the enabled genes between non-input nodes to go strictly up some
 * ranking of the nodes (an acyclic network): on a cycle the source recurses without end.
 */
module BackTrace {
  import opened Wrappers
  import opened Genes
  import opened Genomes

  // ---------------------------------------------------------------------------------------
  // Input binding

  /** The constructor's loop: the c-th value is put under the c-th input node, in list order. */
  function Bound(nodes: seq<int>, values: seq<real>): (b: map<int, real>)
    requires |nodes| == |values|
    ensures b.Keys == set n | n in nodes
  {
    if nodes == [] then map[]
    else Bound(nodes[..|nodes| - 1], values[..|values| - 1])[nodes[|nodes| - 1] := values[|values| - 1]]
  }

  /** With no repeated input node, the i-th node gets exactly the i-th value. */
  lemma {:induction false} BoundAt(nodes: seq<int>, values: seq<real>, i: nat)
    requires |nodes| == |values| && Distinct(nodes) && i < |nodes|
    ensures Bound(nodes, values)[nodes[i]] == values[i]
    decreases |nodes|
  {
    var n := |nodes| - 1;
    if i < n {
      assert nodes[i] != nodes[n];
      assert Distinct(nodes[..n]) by {
        forall p, q | 0 <= p < q < n ensures nodes[..n][p] != nodes[..n][q] {
          assert nodes[..n][p] == nodes[p] && nodes[..n][q] == nodes[q];
        }
      }
      BoundAt(nodes[..n], values[..n], i);
      assert nodes[..n][i] == nodes[i] && values[..n][i] == values[i];
    }
  }

  // ---------------------------------------------------------------------------------------
  // The plain recursion

  /** Every enabled gene out of a non-input node goes up the ranking: the enabled network is acyclic. */
  ghost predicate Ranked(m: GeneMap, inputs: seq<int>, rank: int -> nat) {
    forall k | k in m && m[k].enabled && m[k].from !in inputs :: rank(m[k].from) < rank(m[k].to)
  }

  lemma RankedStep(m: GeneMap, inputs: seq<int>, rank: int -> nat, k: int)
    requires Ranked(m, inputs, rank) && k in m && m[k].enabled && m[k].from !in inputs
    ensures rank(m[k].from) < rank(m[k].to)
  {
  }

  /** Every input node has a value. */
  predicate Fed(inputs: seq<int>, values: map<int, real>) {
    forall n | n in inputs :: n in values
  }

  /** All keys of a list are numbers in use. */
  predicate InUse(m: GeneMap, ks: seq<int>) {
    forall i | 0 <= i < |ks| :: ks[i] in m
  }

  /**
   * getOutput without the cache: activate applied to the sum over the genes, in innovation order,
   * that are enabled and end at `node`, of the source's value times the weight. An input source
   * contributes its raw value, any other source its own computed value.
   */
  function Value(m: GeneMap, ks: seq<int>, inputs: seq<int>, values: map<int, real>, act: real -> real, ghost rank: int -> nat, node: int): real
    requires Ranked(m, inputs, rank) && Fed(inputs, values) && InUse(m, ks)
    decreases rank(node), 1
  {
    act(Incoming(m, ks, inputs, values, act, rank, node, |ks|))
  }

  /** The summed input of `node` over the genes under the first n keys of ks, added up from the first. */
  function Incoming(m: GeneMap, ks: seq<int>, inputs: seq<int>, values: map<int, real>, act: real -> real, ghost rank: int -> nat, node: int, n: nat): real
    requires Ranked(m, inputs, rank) && Fed(inputs, values) && InUse(m, ks) && n <= |ks|
    decreases rank(node), 0, n
  {
    if n == 0 then 0.0
    else
      var g := m[ks[n - 1]];
      var rest := Incoming(m, ks, inputs, values, act, rank, node, n - 1);
      if g.to == node && g.enabled then
        var source := if g.from in inputs then values[g.from]
                      else assert rank(g.from) < rank(node) by { RankedStep(m, inputs, rank, ks[n - 1]); }
                           Value(m, ks, inputs, values, act, rank, g.from);
        rest + source * g.weight
      else rest
  }

  /** A node that no enabled gene ends at gets activate(0): disabled genes contribute nothing. */
  lemma NoIncomingActivatesZero(m: GeneMap, ks: seq<int>, inputs: seq<int>, values: map<int, real>, act: real -> real, rank: int -> nat, node: int)
    requires Ranked(m, inputs, rank) && Fed(inputs, values) && InUse(m, ks)
    requires forall k | k in m :: !(m[k].enabled && m[k].to == node)
    ensures Value(m, ks, inputs, values, act, rank, node) == act(0.0)
  {
    NothingIncoming(m, ks, inputs, values, act, rank, node, |ks|);
  }

  lemma {:induction false} NothingIncoming(m: GeneMap, ks: seq<int>, inputs: seq<int>, values: map<int, real>, act: real -> real, rank: int -> nat, node: int, n: nat)
    requires Ranked(m, inputs, rank) && Fed(inputs, values) && InUse(m, ks) && n <= |ks|
    requires forall k | k in m :: !(m[k].enabled && m[k].to == node)
    ensures Incoming(m, ks, inputs, values, act, rank, node, n) == 0.0
  {
    if n > 0 {
      NothingIncoming(m, ks, inputs, values, act, rank, node, n - 1);
    }
  }

  /** The ranking only serves termination: any two rankings give every node the same value. */
  lemma {:induction false} ValueIgnoresRank(m: GeneMap, ks: seq<int>, inputs: seq<int>, values: map<int, real>, act: real -> real, r1: int -> nat, r2: int -> nat, node: int)
    requires Ranked(m, inputs, r1) && Ranked(m, inputs, r2) && Fed(inputs, values) && InUse(m, ks)
    ensures Value(m, ks, inputs, values, act, r1, node) == Value(m, ks, inputs, values, act, r2, node)
    decreases r1(node), 1
  {
    IncomingIgnoresRank(m, ks, inputs, values, act, r1, r2, node, |ks|);
  }

  lemma {:induction false} IncomingIgnoresRank(m: GeneMap, ks: seq<int>, inputs: seq<int>, values: map<int, real>, act: real -> real, r1: int -> nat, r2: int -> nat, node: int, n: nat)
    requires Ranked(m, inputs, r1) && Ranked(m, inputs, r2) && Fed(inputs, values) && InUse(m, ks) && n <= |ks|
    ensures Incoming(m, ks, inputs, values, act, r1, node, n) == Incoming(m, ks, inputs, values, act, r2, node, n)
    decreases r1(node), 0, n
  {
    if n > 0 {
      var g := m[ks[n - 1]];
      IncomingIgnoresRank(m, ks, inputs, values, act, r1, r2, node, n - 1);
      if g.to == node && g.enabled && g.from !in inputs {
        RankedStep(m, inputs, r1, ks[n - 1]);
        ValueIgnoresRank(m, ks, inputs, values, act, r1, r2, g.from);
      }
    }
  }

  // ---------------------------------------------------------------------------------------
  // The task

  class BackTraceTask {
    const genome: Genome
    const activation: real -> real
    var nodeInputValues: map<int, real>

    /** Every input node of the genome has its value. */
    ghost predicate Valid()
      reads this, genome
    {
      Fed(genome.inputNodes, nodeInputValues)
    }

    /** Binds the c-th input value to the c-th input node; the caller has checked the length. */
    constructor (genome: Genome, activation: real -> real, input: seq<real>)
      requires |input| == |genome.inputNodes|
      ensures this.genome == genome && this.activation == activation
      ensures nodeInputValues == Bound(genome.inputNodes, input)
      ensures Valid()
    {
      this.genome := genome;
      this.activation := activation;
      nodeInputValues := map[];
      new;
      var nodes := genome.inputNodes;
      for c := 0 to |input|
        invariant nodeInputValues == Bound(nodes[..c], input[..c])
      {
        assert nodes[..c + 1][..c] == nodes[..c] && input[..c + 1][..c] == input[..c];
        nodeInputValues := nodeInputValues[nodes[c] := input[c]];
      }
      assert nodes[..|input|] == nodes && input[..|input|] == input;
    }

    /** A cache whose every entry is the node's value. */
    ghost predicate Sound(cache: map<int, real>, ks: seq<int>, rank: int -> nat)
      reads this, genome
      requires Valid() && Ranked(genome.genes, genome.inputNodes, rank) && InUse(genome.genes, ks)
    {
      forall n | n in cache :: cache[n] == Value(genome.genes, ks, genome.inputNodes, nodeInputValues, activation, rank, n)
    }

    /**
     * calculateOutput: a fresh cache, then one value per output node, in output-node order, each
     * the node's value.
     */
    method CalculateOutput(ghost rank: int -> nat) returns (out: array<real>)
      requires Valid() && Ranked(genome.genes, genome.inputNodes, rank)
      ensures fresh(out) && out.Length == |genome.outputNodes|
      ensures forall i | 0 <= i < out.Length ::
                out[i] == Value(genome.genes, SortedKeys(genome.genes), genome.inputNodes, nodeInputValues, activation, rank, genome.outputNodes[i])
    {
      var ks := SortedKeys(genome.genes);
      var outputs := genome.outputNodes;
      ghost var m, ins, vals := genome.genes, genome.inputNodes, nodeInputValues;
      ghost var got: seq<real> := [];
      var cache: map<int, real> := map[];
      out := new real[|outputs|];
      var c := 0;
      while c < out.Length
        invariant 0 <= c <= out.Length
        invariant Sound(cache, ks, rank)
        invariant Ranked(m, ins, rank) && Fed(ins, vals) && InUse(m, ks)
        invariant out[..c] == got && |got| == c
        invariant forall i | 0 <= i < c :: got[i] == Value(m, ks, ins, vals, activation, rank, outputs[i])
      {
        var d;
        d, cache := GetOutput(outputs[c], ks, cache, rank);
        out[c] := d;
        got := got + [d];
        c := c + 1;
        assert out[..c] == out[..c - 1] + [d];
      }
    }

    /**
     * getOutput with the cache: a cached node returns its entry; otherwise the incoming genes are
     * summed in innovation order, recursing into non-input sources, and the activated sum is
     * cached. The result is the node's value, and the cache only gains correct entries.
     */
    method GetOutput(node: int, ks: seq<int>, cache: map<int, real>, ghost rank: int -> nat) returns (d: real, cache': map<int, real>)
      requires Valid() && Ranked(genome.genes, genome.inputNodes, rank) && InUse(genome.genes, ks) && Sound(cache, ks, rank)
      ensures d == Value(genome.genes, ks, genome.inputNodes, nodeInputValues, activation, rank, node)
      ensures Sound(cache', ks, rank) && cache.Keys <= cache'.Keys && node in cache'
      decreases rank(node)
    {
      if node in cache {
        return cache[node], cache;
      }
      cache' := cache;
      var m := genome.genes;
      var sum := 0.0;
      for i := 0 to |ks|
        invariant sum == Incoming(m, ks, genome.inputNodes, nodeInputValues, activation, rank, node, i)
        invariant Sound(cache', ks, rank) && cache.Keys <= cache'.Keys
      {
        var gene := m[ks[i]];
        if gene.to == node && gene.enabled {
          if gene.from in genome.inputNodes {
            sum := sum + nodeInputValues[gene.from] * gene.weight;
          } else {
            RankedStep(m, genome.inputNodes, rank, ks[i]);
            var v;
            v, cache' := GetOutput(gene.from, ks, cache', rank);
            sum := sum + v * gene.weight;
          }
        }
      }
      d := activation(sum);
      cache' := cache'[node := d];
    }
  }

  /** The constructor's guard: the input length must equal the number of input nodes. */
  method Create(genome: Genome, activation: real -> real, input: seq<real>) returns (r: Result<BackTraceTask>)
    ensures r.Failure? <==> |input| != |genome.inputNodes|
    ensures r.Success? ==> && fresh(r.value) && r.value.genome == genome && r.value.activation == activation
                           && r.value.nodeInputValues == Bound(genome.inputNodes, input) && r.value.Valid()
  {
    if |genome.inputNodes| != |input| {
      return Failure("Input size was not equal to the specified length");
    }
    var t := new BackTraceTask(genome, activation, input);
    return Success(t);
  }
}
