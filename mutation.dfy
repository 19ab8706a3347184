/**
 * Mutation.java: the three mutations a genome undergoes after crossover (split a connection
 * with a new node, add a link between two unconnected nodes, change the weights) and the
 * recurrence test the link mutation applies to each candidate.
 *
 * Each operation has a value-level specification over the gene map (`NodeSplit`, `Search`,
 * `NewWeight`, `Recurrent`) and a method of class `Mutation` that works on the genome in place as
 * the source does and is proved to end in the state the specification describes.
 */
module Mutations {
  import opened Wrappers
  import opened Genes
  import opened Setting
  import Chance
  import Recurrence
  import Core
  import opened Genomes

  /** The random draws of one mutate() call, in the order the source makes them. */
  datatype Draws = Draws(
    newNode: real,            // success(MUTATION_NEW_NODE_CHANCE)
    splitGene: nat,           // random(list of genes): the gene to split
    newConnection: real,      // success(MUTATION_NEW_CONNECTION_CHANCE)
    ends: nat -> (nat, nat),  // per link attempt: random(from-list), random(to-list)
    linkWeight: real,         // random(-1, 1) for the new link
    weight: real,             // success(MUTATION_WEIGHT_CHANCE)
    weightRandom: real,       // success(MUTATION_WEIGHT_RANDOM_CHANCE)
    perGene: nat -> real)     // random(-bound, bound) for the i-th gene in order

  // ---------------------------------------------------------------------------------------
  // isRecurrent

  /** Every endpoint of a gene is a node of the genes in innovation order. */
  lemma EndpointsInUniverse(m: GeneMap)
    ensures forall n | IsEndpoint(m, n) :: n in Recurrence.Universe(GenesInOrder(m))
  {
    var ks := SortedKeys(m);
    var gs := GenesInOrder(m);
    forall n | IsEndpoint(m, n) ensures n in Recurrence.Universe(gs) {
      var k :| k in m && (m[k].from == n || m[k].to == n);
      var i :| 0 <= i < |ks| && ks[i] == k;
      assert gs[i] == m[k];
    }
  }

  /**
   * The genes of isRecurrent's clone: with a candidate, a copy of the genes plus an enabled gene
   * for it with weight 0, numbered one above the highest number. An empty genome has no highest
   * number, and the number being taken makes addGene throw.
   */
  function Extended(m: GeneMap, with: Option<Connection>): (r: Result<GeneMap>)
    ensures with.None? ==> r == Success(m)
    ensures KeyedByInnovation(m) ==> (r.Failure? <==> with.Some? && m == map[])
    ensures r.Success? && with.Some? ==>
              |r.value| == |m| + 1 && exists n | n !in m :: r.value == m[n := Gene(n, with.value.from, with.value.to, 0.0, true)]
  {
    if with.None? then Success(m)
    else
      var h := HighestInnovationNumber(m);
      if h.Failure? then Failure(h.error)
      else if h.value + 1 in m then Failure("Genome already has gene with innovation number")
      else Success(m[h.value + 1 := Gene(h.value + 1, with.value.from, with.value.to, 0.0, true)])
  }

  /**
   * isRecurrent(with) on values: the search over the clone's genes, or the clone's failure.
   */
  function Recurrent(m: GeneMap, inputs: seq<int>, outputs: seq<int>, with: Option<Connection>): (r: Result<bool>)
    ensures r.Failure? <==> Extended(m, with).Failure?
    ensures r.Success? ==> r.value == AnyCycle(Extended(m, with).value, inputs, outputs)
  {
    var e := Extended(m, with);
    if e.Failure? then Failure(e.error) else Success(AnyCycle(e.value, inputs, outputs))
  }

  /**
   * The loop of isRecurrent over the hidden nodes: a fresh backward search from each (the path
   * starts empty each time); true when any search reports a repeated node.
   */
  function AnyCycle(m: GeneMap, inputs: seq<int>, outputs: seq<int>): (r: bool)
    ensures r <==> exists h | h in HiddenNodes(m, inputs, outputs) :: Recurrence.Visit(GenesInOrder(m), inputs, [], h).0
  {
    EndpointsInUniverse(m);
    var hs := HiddenNodes(m, inputs, outputs);
    var gs := GenesInOrder(m);
    SomeSearchHits(gs, inputs, hs);
    Recurrence.FromAny(gs, inputs, hs)
  }

  /** Recurrent, once the clone's genes e are known. */
  lemma RecurrentOver(m: GeneMap, inputs: seq<int>, outputs: seq<int>, with: Option<Connection>, e: GeneMap)
    requires Extended(m, with) == Success(e)
    ensures forall h | h in HiddenNodes(e, inputs, outputs) :: h in Recurrence.Universe(GenesInOrder(e))
    ensures Recurrent(m, inputs, outputs, with) == Success(Recurrence.FromAny(GenesInOrder(e), inputs, HiddenNodes(e, inputs, outputs)))
  {
    EndpointsInUniverse(e);
  }

  /** The outer loop's answer, stated over the members of hs. */
  lemma SomeSearchHits(gs: seq<Gene>, inputs: seq<int>, hs: seq<int>)
    requires forall h | h in hs :: h in Recurrence.Universe(gs)
    ensures Recurrence.FromAny(gs, inputs, hs) <==> exists h | h in hs :: Recurrence.Visit(gs, inputs, [], h).0
  {
    if Recurrence.FromAny(gs, inputs, hs) {
      var k :| 0 <= k < |hs| && Recurrence.Visit(gs, inputs, [], hs[k]).0;
      assert hs[k] in hs;
    }
    if exists h | h in hs :: Recurrence.Visit(gs, inputs, [], h).0 {
      var h :| h in hs && Recurrence.Visit(gs, inputs, [], h).0;
      var k :| 0 <= k < |hs| && hs[k] == h;
    }
  }

  /**
   * A hidden node of the extended genes that reaches itself backwards over genes, through nodes
   * that are not inputs, makes isRecurrent answer true.
   */
  lemma CycleMakesRecurrent(m: GeneMap, inputs: seq<int>, outputs: seq<int>, with: Option<Connection>, c: seq<int>)
    requires Extended(m, with).Success?
    requires |c| > 1 && c[0] == c[|c| - 1]
    requires IsEndpoint(Extended(m, with).value, c[0]) && IsHidden(inputs, outputs, c[0])
    requires forall i | 0 <= i < |c| - 1 :: Recurrence.Link(GenesInOrder(Extended(m, with).value), inputs, c[i], c[i + 1])
    ensures Recurrent(m, inputs, outputs, with) == Success(true)
  {
    var e := Extended(m, with).value;
    EndpointsInUniverse(e);
    Recurrence.CycleFound(GenesInOrder(e), inputs, c[0], c);
    assert c[0] in HiddenNodes(e, inputs, outputs);
  }

  // ---------------------------------------------------------------------------------------
  // The link mutation

  /** List.remove(Object): the list without the first occurrence of x. */
  function Without(s: seq<int>, x: int): (r: seq<int>)
    ensures forall y | y in r :: y in s
    ensures forall y | y in s && y != x :: y in r
    ensures StrictlyIncreasing(s) ==> x !in r
    ensures x in s ==> |r| == |s| - 1
    ensures x !in s ==> r == s
  {
    if s == [] then []
    else if s[0] == x then s[1..]
    else [s[0]] + Without(s[1..], x)
  }

  /** from is an input or hidden endpoint, to a hidden or output endpoint other than from. */
  predicate Ends(m: GeneMap, inputs: seq<int>, outputs: seq<int>, c: Connection) {
    && IsEndpoint(m, c.from) && Kept(inputs, outputs, c.from, true, true, false)
    && IsEndpoint(m, c.to) && Kept(inputs, outputs, c.to, false, true, true)
    && c.from != c.to
  }

  /**
   * The candidate one attempt draws: `from` from the input and hidden nodes, `to` from the
   * hidden and output nodes other than from; none when no such `to` is left. An empty from-list
   * makes the draw throw.
   */
  function Candidate(m: GeneMap, inputs: seq<int>, outputs: seq<int>, pick: (nat, nat)): (r: Result<Option<Connection>>)
    ensures r.Failure? <==> Nodes(m, inputs, outputs, true, true, false) == []
    ensures r.Success? && r.value.Some? ==> Ends(m, inputs, outputs, r.value.value)
  {
    var from := Chance.Pick(Nodes(m, inputs, outputs, true, true, false), pick.0);
    if from.Failure? then Failure(from.error)
    else
      var leftOver := Without(Nodes(m, inputs, outputs, false, true, true), from.value);
      if leftOver == [] then Success(None)
      else
        var to := Chance.Pick(leftOver, pick.1);
        Success(Some(Connection(from.value, to.value)))
  }

  /** The loop condition of the link search, false meaning "accept": new, not a self-loop, not recurrent. */
  function Rejects(m: GeneMap, inputs: seq<int>, outputs: seq<int>, c: Connection): (r: Result<bool>)
    ensures r.Success? && !r.value <==>
              c.from != c.to && c !in AllConnections(m) && Recurrent(m, inputs, outputs, Some(c)) == Success(false)
  {
    if c.from == c.to || c in AllConnections(m) then Success(true)
    else
      var rec := Recurrent(m, inputs, outputs, Some(c));
      if rec.Failure? then Failure(rec.error) else Success(rec.value)
  }

  /** One pass of the do-while loop: the accepted connection, or none to try again. */
  function Attempt(m: GeneMap, inputs: seq<int>, outputs: seq<int>, pick: (nat, nat)): (r: Result<Option<Connection>>)
    ensures r.Success? && r.value.Some? ==> Allowed(m, inputs, outputs, r.value.value)
    ensures Nodes(m, inputs, outputs, true, true, false) == [] ==> r.Failure?
    ensures r.Failure? && KeyedByInnovation(m) ==> Nodes(m, inputs, outputs, true, true, false) == []
  {
    var cand := Candidate(m, inputs, outputs, pick);
    if cand.Failure? then cand
    else if cand.value.None? then Success(None)
    else
      var rejects := Rejects(m, inputs, outputs, cand.value.value);
      if rejects.Failure? then Failure(rejects.error)
      else if rejects.value then Success(None)
      else cand
  }

  /** Everything the link search demands of the connection it adds. */
  predicate Allowed(m: GeneMap, inputs: seq<int>, outputs: seq<int>, c: Connection) {
    && Ends(m, inputs, outputs, c)
    && c !in AllConnections(m)
    && Recurrent(m, inputs, outputs, Some(c)) == Success(false)
  }

  /**
   * The link search from attempt i on: attempts 0 to 40 are made, the 42nd check throws
   * MutationFailedException, which mutate catches (no connection). The result is the first
   * accepted connection, and it satisfies every condition of the loop.
   */
  function Search(m: GeneMap, inputs: seq<int>, outputs: seq<int>, ends: nat -> (nat, nat), i: nat): (r: Result<Option<Connection>>)
    ensures r.Success? && r.value.Some? ==> Allowed(m, inputs, outputs, r.value.value)
    ensures r == Success(None) ==> forall j | i <= j <= 40 :: Attempt(m, inputs, outputs, ends(j)) == Success(None)
    ensures i <= 40 && Nodes(m, inputs, outputs, true, true, false) == [] ==> r.Failure?
    ensures r.Failure? && KeyedByInnovation(m) ==> Nodes(m, inputs, outputs, true, true, false) == []
    decreases 41 - i
  {
    if i > 40 then Success(None)
    else
      var a := Attempt(m, inputs, outputs, ends(i));
      if a.Failure? || a.value.Some? then a
      else
        var rest := Search(m, inputs, outputs, ends, i + 1);
        assert rest == Success(None) ==> forall j | i <= j <= 40 :: Attempt(m, inputs, outputs, ends(j)) == Success(None) by {
          if rest == Success(None) {
            forall j | i <= j <= 40 ensures Attempt(m, inputs, outputs, ends(j)) == Success(None) {
              if j == i {
                assert Attempt(m, inputs, outputs, ends(j)) == a;
              }
            }
          }
        }
        rest
  }

  /**
   * Link-add on values, from genes m, the search's outcome `found`, the weight w drawn for the
   * new gene and counter c, `frozen` when the fitness is already known: whether it completes,
   * and the genes and counter it leaves. A failed search changes nothing; with a connection
   * found, a number is drawn and addGene adds it unless frozen or taken.
   */
  function LinkAdded(m: GeneMap, found: Result<Option<Connection>>, w: real, c: int, frozen: bool): (bool, GeneMap, int) {
    if found.Failure? then (false, m, c)
    else if found.value.None? then (true, m, c)
    else if frozen || c in m then (false, m, c + 1)
    else (true, m[c := Gene(c, found.value.value.from, found.value.value.to, w, true)], c + 1)
  }

  /**
   * With the counter above every number in use, link-add on an open genome fails only when the
   * search throws, and a gene it adds carries the connection found. The counter only grows,
   * every number stays below it and genes stay keyed.
   */
  lemma LinkAddedKeepsInvariants(m: GeneMap, found: Result<Option<Connection>>, w: real, c: int, frozen: bool)
    ensures var r := LinkAdded(m, found, w, c, frozen);
            && r.2 >= c
            && (KeysBelow(m, c) ==> KeysBelow(r.1, r.2))
            && (KeyedByInnovation(m) ==> KeyedByInnovation(r.1))
            && (KeysBelow(m, c) && !frozen ==> (r.0 <==> found.Success?))
            && (r.1 != m ==> c !in m && c in r.1 && r.1 == m[c := r.1[c]] && ConnectionOf(r.1[c]) == found.value.value)
  {
    if found.Success? && found.value.Some? && !frozen && c !in m {
      var g := Gene(c, found.value.value.from, found.value.value.to, w, true);
      Put(m, g, c + 1);
      assert m[c := g][c] == g;
    }
  }

  /** Putting a gene under its own number keeps genes keyed, and below any bound above that number. */
  lemma Put(m: GeneMap, g: Gene, bound: int)
    ensures KeyedByInnovation(m) ==> KeyedByInnovation(m[g.innovationNumber := g])
    ensures KeysBelow(m, bound) && g.innovationNumber < bound ==> KeysBelow(m[g.innovationNumber := g], bound)
  {
  }

  /** Only the draws of attempts 0 to 40 matter: the search makes at most 41 attempts. */
  lemma {:induction false} SearchUsesFortyOneDraws(m: GeneMap, inputs: seq<int>, outputs: seq<int>, e1: nat -> (nat, nat), e2: nat -> (nat, nat), i: nat)
    requires forall j | i <= j <= 40 :: e1(j) == e2(j)
    ensures Search(m, inputs, outputs, e1, i) == Search(m, inputs, outputs, e2, i)
    decreases 41 - i
  {
    if i <= 40 {
      SearchUsesFortyOneDraws(m, inputs, outputs, e1, e2, i + 1);
    }
  }

  /** A connection is in getAllConnections exactly when some gene, enabled or not, has its endpoints. */
  lemma ExistingConnections(m: GeneMap, c: Connection)
    ensures c in AllConnections(m) <==> exists k | k in m :: ConnectionOf(m[k]) == c
  {
    var ks := SortedKeys(m);
    var gs := GenesInOrder(m);
    var cs := AllConnections(m);
    if c in cs {
      var i :| 0 <= i < |cs| && cs[i] == c;
      assert cs[i] == ConnectionOf(gs[i]) && gs[i] == m[ks[i]];
    }
    if exists k | k in m :: ConnectionOf(m[k]) == c {
      var k :| k in m && ConnectionOf(m[k]) == c;
      var i :| 0 <= i < |ks| && ks[i] == k;
      assert cs[i] == ConnectionOf(gs[i]);
    }
  }

  /** random(-1, 1): the weight of the new link. */
  function LinkWeight(u: real): (w: real)
    ensures 0.0 <= u < 1.0 ==> -1.0 <= w < 1.0
  {
    Chance.Between(-1.0, 1.0, u).value
  }

  // ---------------------------------------------------------------------------------------
  // The node mutation

  /**
   * getHighestNode() + 1: a node above every endpoint, so no gene touches it yet. It is computed
   * here as one more than the largest endpoint of the genes in order, which
   * NewNodeIsHighestPlusOne shows to be getHighestNode() + 1.
   */
  function NewNode(m: GeneMap): (n: int)
    requires m != map[]
    ensures !IsEndpoint(m, n)
    ensures forall k | k in m :: m[k].from < n && m[k].to < n
  {
    AboveEveryEnd(m);
    MaxEnd(GenesInOrder(m)) + 1
  }

  lemma AboveEveryEnd(m: GeneMap)
    requires m != map[]
    ensures forall k | k in m :: m[k].from <= MaxEnd(GenesInOrder(m)) && m[k].to <= MaxEnd(GenesInOrder(m))
  {
    var gs := GenesInOrder(m);
    var ks := SortedKeys(m);
    forall k | k in m ensures m[k].from <= MaxEnd(gs) && m[k].to <= MaxEnd(gs) {
      var i :| 0 <= i < |ks| && ks[i] == k;
      assert gs[i] == m[k];
    }
  }

  /** The largest endpoint of a non-empty list of genes. */
  function MaxEnd(gs: seq<Gene>): (r: int)
    requires gs != []
    ensures forall i | 0 <= i < |gs| :: gs[i].from <= r && gs[i].to <= r
    ensures exists i | 0 <= i < |gs| :: gs[i].from == r || gs[i].to == r
  {
    var g := gs[|gs| - 1];
    var top := if g.from < g.to then g.to else g.from;
    if |gs| == 1 then top
    else
      var rest := MaxEnd(gs[..|gs| - 1]);
      assert forall i | 0 <= i < |gs| - 1 :: gs[i] == gs[..|gs| - 1][i];
      if rest < top then top else rest
  }

  /** The new node is exactly one above getHighestNode(). */
  lemma NewNodeIsHighestPlusOne(m: GeneMap)
    requires m != map[]
    ensures HighestNode(m).Success? && NewNode(m) == HighestNode(m).value + 1
  {
    HighestBelowNewNode(m);
    MaxEndIsEndpoint(m);
  }

  lemma HighestBelowNewNode(m: GeneMap)
    requires m != map[]
    ensures HighestNode(m).Success? && HighestNode(m).value < NewNode(m)
  {
    var h := HighestNode(m).value;
    var k :| k in m && (m[k].from == h || m[k].to == h);
  }

  lemma MaxEndIsEndpoint(m: GeneMap)
    requires m != map[]
    ensures IsEndpoint(m, NewNode(m) - 1)
  {
    var gs := GenesInOrder(m);
    var ks := SortedKeys(m);
    var i :| 0 <= i < |gs| && (gs[i].from == MaxEnd(gs) || gs[i].to == MaxEnd(gs));
    assert ks[i] in m && gs[i] == m[ks[i]];
  }

  /** The genes once the drawn gene k is disabled (setEnabled on the gene inside the map). */
  function Disabled(m: GeneMap, k: int): (d: GeneMap)
    requires k in m
    ensures d.Keys == m.Keys && !d[k].enabled
    ensures forall j | j in m :: d[j] == m[j].(enabled := d[j].enabled)
    ensures forall j | j in m && j != k :: d[j] == m[j]
  {
    m[k := m[k].(enabled := false)]
  }

  /**
   * The node mutation when both addGene calls succeed: gene k disabled, and its connection
   * from -> to replaced by from -> n (number c + 1, weight 1) and n -> to (number c + 2, the
   * weight of k), n a new node. Number c itself is drawn and discarded.
   */
  function NodeSplit(m: GeneMap, k: int, c: int): GeneMap
    requires k in m
  {
    var d := Disabled(m, k);
    var n := NewNode(d);
    d[c + 1 := Gene(c + 1, m[k].from, n, 1.0, true)][c + 2 := Gene(c + 2, n, m[k].to, m[k].weight, true)]
  }

  /**
   * When the counter is above every number in use, the split adds exactly two genes and keeps
   * every number below the counter (now advanced by three).
   */
  lemma NodeSplitAddsTwo(m: GeneMap, k: int, c: int)
    requires k in m && KeysBelow(m, c + 1)
    ensures var r := NodeSplit(m, k, c);
            && r.Keys == m.Keys + {c + 1, c + 2}
            && |r| == |m| + 2
            && KeysBelow(r, c + 3)
  {
    var d := Disabled(m, k);
    var n := NewNode(d);
    TwoMore(d, c, Gene(c + 1, m[k].from, n, 1.0, true), Gene(c + 2, n, m[k].to, m[k].weight, true));
  }

  lemma TwoMore(d: GeneMap, c: int, g1: Gene, g2: Gene)
    requires KeysBelow(d, c + 1)
    ensures var r := d[c + 1 := g1][c + 2 := g2];
            r.Keys == d.Keys + {c + 1, c + 2} && |r| == |d| + 2 && KeysBelow(r, c + 3)
  {
    assert c + 1 !in d;
    var r1 := d[c + 1 := g1];
    assert |r1| == |d| + 1;
    assert c + 2 !in r1;
    assert |r1[c + 2 := g2]| == |r1| + 1;
  }

  /** The split disables k, leaves every other old gene alone and keeps every gene under its number. */
  lemma NodeSplitKeepsOthers(m: GeneMap, k: int, c: int)
    requires k in m && KeysBelow(m, c + 1)
    ensures var r := NodeSplit(m, k, c);
            && r[k] == m[k].(enabled := false)
            && (forall j | j in m && j != k :: r[j] == m[j])
            && (KeyedByInnovation(m) ==> KeyedByInnovation(r))
  {
    assert c + 1 !in m && c + 2 !in m;
  }

  /**
   * The two new genes route k's connection through one node that no gene touched before:
   * from -> n enabled with weight 1, n -> to enabled with k's weight.
   */
  lemma NodeSplitReroutes(m: GeneMap, k: int, c: int)
    requires k in m
    ensures var r := NodeSplit(m, k, c);
            var n := r[c + 2].from;
            && !IsEndpoint(m, n)
            && r[c + 1] == Gene(c + 1, m[k].from, n, 1.0, true)
            && r[c + 2] == Gene(c + 2, n, m[k].to, m[k].weight, true)
  {
  }

  /** The gene node-add draws: the pick-th gene in innovation order. */
  function Drawn(m: GeneMap, pick: nat): (k: int)
    requires m != map[]
    ensures k in m
  {
    SortedKeys(m)[pick % |m|]
  }

  /**
   * Node-add on values, from genes m and counter c, `frozen` when the fitness is already known:
   * whether it completes, and the genes and counter it leaves. An empty genome has no gene to
   * draw; the first addGene throws when frozen or when c + 1 is taken (two numbers drawn), the
   * second when c + 2 is taken.
   */
  function NodeAdded(m: GeneMap, c: int, pick: nat, frozen: bool): (bool, GeneMap, int) {
    if m == map[] then (false, m, c) else SplitAt(m, Drawn(m, pick), c, frozen)
  }

  /** Node-add once gene k is drawn: k is disabled, number c is drawn and discarded, then the two genes go around the new node. */
  function SplitAt(m: GeneMap, k: int, c: int, frozen: bool): (bool, GeneMap, int)
    requires k in m
  {
    var d := Disabled(m, k);
    Around(d, m[k], c + 1, NewNode(d), frozen)
  }

  /**
   * The two addGene calls of node-add, from genes d and counter c, around node n for the split
   * gene g: from -> n numbered c, then n -> to numbered c + 1, each throwing when frozen or when
   * its number is taken.
   */
  function Around(d: GeneMap, g: Gene, c: int, n: int, frozen: bool): (bool, GeneMap, int) {
    var g1 := Gene(c, g.from, n, 1.0, true);
    var g2 := Gene(c + 1, n, g.to, g.weight, true);
    if frozen || c in d then (false, d, c + 1)
    else if c + 1 in d then (false, d[c := g1], c + 2)
    else (true, d[c := g1][c + 1 := g2], c + 2)
  }
  /**
   * With the counter above every number in use, node-add on a non-empty genome that is still
   * open always completes, with the split: addGene's duplicate check cannot fire. Whatever
   * happens, the counter only grows, every number stays below it and genes stay keyed.
   */
  lemma NodeAddedKeepsInvariants(m: GeneMap, c: int, pick: nat, frozen: bool)
    ensures var r := NodeAdded(m, c, pick, frozen);
            && r.2 >= c
            && (KeysBelow(m, c) ==> KeysBelow(r.1, r.2))
            && (KeyedByInnovation(m) ==> KeyedByInnovation(r.1))
            && (KeysBelow(m, c) && !frozen && m != map[] ==> r.0 && r.1 == NodeSplit(m, Drawn(m, pick), c))
  {
    if m != map[] {
      var k := Drawn(m, pick);
      var d := Disabled(m, k);
      DisabledKeepsInvariants(m, k, c);
      AroundKeepsInvariants(d, m[k], c + 1, NewNode(d), frozen);
      if KeysBelow(m, c) && !frozen {
        SplitAtIsNodeSplit(m, k, c);
      }
    }
  }

  /** With the counter above every number in use, an open genome's split completes. */
  lemma SplitAtIsNodeSplit(m: GeneMap, k: int, c: int)
    requires k in m && KeysBelow(m, c)
    ensures SplitAt(m, k, c, false) == (true, NodeSplit(m, k, c), c + 3)
  {
    DisabledKeepsInvariants(m, k, c);
  }

  /** Disabling a gene keeps the numbers in use and their keys. */
  lemma DisabledKeepsInvariants(m: GeneMap, k: int, c: int)
    requires k in m
    ensures KeysBelow(m, c) ==> KeysBelow(Disabled(m, k), c + 1)
    ensures KeyedByInnovation(m) ==> KeyedByInnovation(Disabled(m, k))
  {
    Put(m, Disabled(m, k)[k], c);
  }

  /** The two addGene calls of node-add keep the counter above every number, and genes keyed. */
  lemma AroundKeepsInvariants(d: GeneMap, g: Gene, c: int, n: int, frozen: bool)
    ensures var r := Around(d, g, c, n, frozen);
            && r.2 > c
            && (KeysBelow(d, c) ==> KeysBelow(r.1, r.2))
            && (KeyedByInnovation(d) ==> KeyedByInnovation(r.1))
            && (KeysBelow(d, c) && !frozen ==> r.0)
  {
    var g1 := Gene(c, g.from, n, 1.0, true);
    var g2 := Gene(c + 1, n, g.to, g.weight, true);
    Put(d, g1, c + 2);
    Put(d[c := g1], g2, c + 2);
  }

  // ---------------------------------------------------------------------------------------
  // The weight mutation

  /**
   * The new weight of one gene: random(-bound, bound) replacing the weight, or added to it
   * when perturbing. A bound that is not positive makes the draw throw.
   */
  function NewWeight(w: real, perturb: bool, bound: real, u: real): (r: Result<real>)
    ensures r.Success? <==> bound > 0.0
    ensures r.Success? && 0.0 <= u < 1.0 && !perturb ==> -bound <= r.value < bound
    ensures r.Success? && 0.0 <= u < 1.0 && perturb ==> w - bound <= r.value < w + bound
  {
    var step := Chance.Between(-bound, bound, u);
    if step.Failure? then Failure(step.error)
    else Success(if perturb then w + step.value else step.value)
  }

  /** Only weights differ: the same numbers, endpoints and flags. */
  ghost predicate OnlyWeights(m: GeneMap, r: GeneMap) {
    r.Keys == m.Keys && forall k | k in m :: r[k] == m[k].(weight := r[k].weight)
  }

  /** A weight change keeps the gene count, the connection list and the keying. */
  lemma OnlyWeightsKeepsConnections(m: GeneMap, r: GeneMap)
    requires OnlyWeights(m, r)
    ensures |r| == |m|
    ensures AllConnections(r) == AllConnections(m)
    ensures KeyedByInnovation(m) ==> KeyedByInnovation(r)
  {
    assert r.Keys == m.Keys;
    var ks := SortedKeys(m);
    SameKeysSameOrder(m, r);
    var a := AllConnections(r);
    var b := AllConnections(m);
    forall i | 0 <= i < |a| ensures a[i] == b[i] {
      assert GenesInOrder(r)[i] == r[ks[i]] && GenesInOrder(m)[i] == m[ks[i]];
    }
  }

  lemma SameKeysSameOrder(m: GeneMap, r: GeneMap)
    requires m.Keys == r.Keys
    ensures SortedKeys(r) == SortedKeys(m)
  {
    Genomes.IncreasingSameElements(SortedKeys(r), SortedKeys(m));
  }

  /** A weight change keeps the set of nodes. */
  lemma OnlyWeightsKeepsNodes(m: GeneMap, r: GeneMap)
    requires OnlyWeights(m, r)
    ensures forall n :: IsEndpoint(r, n) <==> IsEndpoint(m, n)
  {
    forall n ensures IsEndpoint(r, n) <==> IsEndpoint(m, n) {
      if IsEndpoint(r, n) {
        var k :| k in r && (r[k].from == n || r[k].to == n);
        assert m[k].from == r[k].from && m[k].to == r[k].to;
      }
      if IsEndpoint(m, n) {
        var k :| k in m && (m[k].from == n || m[k].to == n);
        assert m[k].from == r[k].from && m[k].to == r[k].to;
      }
    }
  }

  /**
   * The weight loop over the genes in order: the i-th gene gets NewWeight with the i-th draw.
   * The first draw throws when the bound is not positive, before any gene changes.
   */
  method Reweigh(m: GeneMap, ks: seq<int>, perturb: bool, bound: real, draws: nat -> real) returns (r: Result<GeneMap>)
    requires forall i | 0 <= i < |ks| :: ks[i] in m
    requires Distinct(ks)
    ensures r.Failure? <==> ks != [] && bound <= 0.0
    ensures r.Success? ==> OnlyWeights(m, r.value)
    ensures r.Success? ==> forall i | 0 <= i < |ks| ::
              r.value[ks[i]].weight == NewWeight(m[ks[i]].weight, perturb, bound, draws(i)).value
    ensures r.Success? ==> forall k | k in m && k !in ks :: r.value[k] == m[k]
  {
    var c := m;
    for i := 0 to |ks|
      invariant i > 0 ==> bound > 0.0
      invariant OnlyWeights(m, c)
      invariant forall j | 0 <= j < i :: c[ks[j]].weight == NewWeight(m[ks[j]].weight, perturb, bound, draws(j)).value
      invariant forall j | i <= j < |ks| :: c[ks[j]] == m[ks[j]]
      invariant forall k | k in m && k !in ks :: c[k] == m[k]
    {
      var w := NewWeight(c[ks[i]].weight, perturb, bound, draws(i));
      if w.Failure? {
        return Failure(w.error);
      }
      c := c[ks[i] := c[ks[i]].(weight := w.value)];
    }
    return Success(c);
  }

  /** The for-loop of isRecurrent(with): a fresh search from each hidden node, or-ed. */
  method SearchEach(gs: seq<Gene>, inputs: seq<int>, hs: seq<int>) returns (recc: bool)
    requires forall h | h in hs :: h in Recurrence.Universe(gs)
    ensures recc == Recurrence.FromAny(gs, inputs, hs)
  {
    recc := false;
    for i := 0 to |hs|
      invariant recc <==> exists j | 0 <= j < i :: Recurrence.Visit(gs, inputs, [], hs[j]).0
    {
      if Recurrence.Visit(gs, inputs, [], hs[i]).0 {
        recc := true;
      }
    }
  }

  // ---------------------------------------------------------------------------------------
  // The mutation object

  class Mutation {
    const genome: Genome

    constructor (genome: Genome)
      ensures this.genome == genome
    {
      this.genome := genome;
    }

    /** Every innovation number in use is below the counter. */
    ghost predicate Numbered()
      reads genome, genome.core
    {
      KeysBelow(genome.genes, genome.core.currentInnovationNumber)
    }

    /**
     * isRecurrent(with): works on a clone, so the genome is not touched (no modifies clause),
     * and answers as Recurrent says.
     */
    method IsRecurrent(with: Option<Connection>) returns (r: Result<bool>)
      requires genome.Valid()
      ensures r == Recurrent(genome.genes, genome.inputNodes, genome.outputNodes, with)
    {
      var tmp := genome.Clone();
      if with.Some? {
        var h := HighestInnovationNumber(tmp.genes);
        if h.Failure? {
          return Failure(h.error);
        }
        var added := tmp.AddGene(Gene(h.value + 1, with.value.from, with.value.to, 0.0, true), null, null, 0.0);
        if added.Fail? {
          // the clone is keyed by number and h is its highest number, so h + 1 is free
          assert false;
        }
      }
      assert Extended(genome.genes, with) == Success(tmp.genes);
      RecurrentOver(genome.genes, genome.inputNodes, genome.outputNodes, with, tmp.genes);
      EndpointsInUniverse(tmp.genes);
      var recc := SearchEach(GenesInOrder(tmp.genes), tmp.inputNodes, HiddenNodes(tmp.genes, tmp.inputNodes, tmp.outputNodes));
      return Success(recc);
    }

    /** One pass of the link search's do-while body and condition. */
    method TryLink(pick: (nat, nat)) returns (r: Result<Option<Connection>>)
      requires genome.Valid()
      ensures r == Attempt(genome.genes, genome.inputNodes, genome.outputNodes, pick)
    {
      var from := Chance.Pick(Nodes(genome.genes, genome.inputNodes, genome.outputNodes, true, true, false), pick.0);
      if from.Failure? {
        return Failure(from.error);
      }
      var leftOver := Without(Nodes(genome.genes, genome.inputNodes, genome.outputNodes, false, true, true), from.value);
      if leftOver == [] {
        return Success(None);
      }
      var to := Chance.Pick(leftOver, pick.1);
      var c := Connection(from.value, to.value);
      if c.from == c.to || c in AllConnections(genome.genes) {
        return Success(None);
      }
      var rec := IsRecurrent(Some(c));
      if rec.Failure? {
        // the genome has a gene (from is one of its endpoints) and is keyed, so the clone extends
        assert false;
      }
      if rec.value {
        return Success(None);
      }
      return Success(Some(c));
    }

    /**
     * The node mutation with `pick` drawing the gene to split. The drawn gene is disabled first
     * (its setter has no guard), then three numbers are drawn and the first discarded; either
     * addGene call can throw, leaving in place what was done before it.
     */
    method NodeAdd(pick: nat) returns (o: Outcome)
      modifies genome, genome.core
      ensures genome.inputNodes == old(genome.inputNodes) && genome.outputNodes == old(genome.outputNodes)
      ensures genome.species == old(genome.species) && genome.fitness == old(genome.fitness)
      ensures genome.core.settings == old(genome.core.settings)
      ensures (o.Pass?, genome.genes, genome.core.currentInnovationNumber)
           == NodeAdded(old(genome.genes), old(genome.core.currentInnovationNumber), pick, old(genome.fitness) != -1.0)
      ensures genome.core.currentInnovationNumber >= old(genome.core.currentInnovationNumber)
      ensures old(Numbered()) ==> Numbered()
      ensures old(genome.Valid()) ==> genome.Valid()
    {
      ghost var m, c, frozen := genome.genes, genome.core.currentInnovationNumber, genome.fitness != -1.0;
      var chosen := Chance.Pick(SortedKeys(genome.genes), pick);
      if chosen.Failure? {
        return Fail(chosen.error);
      }
      o := SplitGene(chosen.value);
      NodeAddedKeepsInvariants(m, c, pick, frozen);
    }

    /** Node-add once gene k is drawn: disable it, then add the two genes around a new node. */
    method SplitGene(k: int) returns (o: Outcome)
      requires k in genome.genes
      modifies genome, genome.core
      ensures genome.inputNodes == old(genome.inputNodes) && genome.outputNodes == old(genome.outputNodes)
      ensures genome.species == old(genome.species) && genome.fitness == old(genome.fitness)
      ensures genome.core.settings == old(genome.core.settings)
      ensures (o.Pass?, genome.genes, genome.core.currentInnovationNumber)
           == SplitAt(old(genome.genes), k, old(genome.core.currentInnovationNumber), old(genome.fitness) != -1.0)
    {
      var gene := genome.genes[k];
      genome.genes := Disabled(genome.genes, k);
      var discarded := genome.core.GetNextInnovationNumber();
      var n := NewNode(genome.genes);
      o := AddAround(gene, n);
    }

    /** The two addGene calls of node-add around node n, for the split gene g. */
    method AddAround(g: Gene, n: int) returns (o: Outcome)
      modifies genome, genome.core
      ensures genome.inputNodes == old(genome.inputNodes) && genome.outputNodes == old(genome.outputNodes)
      ensures genome.species == old(genome.species) && genome.fitness == old(genome.fitness)
      ensures genome.core.settings == old(genome.core.settings)
      ensures (o.Pass?, genome.genes, genome.core.currentInnovationNumber)
           == Around(old(genome.genes), g, old(genome.core.currentInnovationNumber), n, old(genome.fitness) != -1.0)
    {
      var first := genome.core.GetNextInnovationNumber();
      o := genome.AddGene(Gene(first, g.from, n, 1.0, true), null, null, 0.0);
      if o.Fail? {
        return;
      }
      var second := genome.core.GetNextInnovationNumber();
      o := genome.AddGene(Gene(second, n, g.to, g.weight, true), null, null, 0.0);
    }

    /**
     * The link mutation: up to 41 attempts with the draws `ends`, then the accepted connection
     * is added as an enabled gene numbered from the counter with weight random(-1, 1). When no
     * attempt succeeds the MutationFailedException is caught and nothing changes.
     */
    method LinkAdd(ends: nat -> (nat, nat), u: real) returns (o: Outcome)
      requires genome.Valid()
      modifies genome, genome.core
      ensures genome.inputNodes == old(genome.inputNodes) && genome.outputNodes == old(genome.outputNodes)
      ensures genome.species == old(genome.species) && genome.fitness == old(genome.fitness)
      ensures genome.core.settings == old(genome.core.settings)
      ensures (o.Pass?, genome.genes, genome.core.currentInnovationNumber)
           == LinkAdded(old(genome.genes), Search(old(genome.genes), genome.inputNodes, genome.outputNodes, ends, 0),
                        LinkWeight(u), old(genome.core.currentInnovationNumber), old(genome.fitness) != -1.0)
      ensures genome.core.currentInnovationNumber >= old(genome.core.currentInnovationNumber)
      ensures old(Numbered()) ==> Numbered()
      ensures genome.Valid()
    {
      ghost var m, c, frozen := genome.genes, genome.core.currentInnovationNumber, genome.fitness != -1.0;
      var s := FindLink(ends);
      o := AddFound(s, LinkWeight(u));
      LinkAddedKeepsInvariants(m, s, LinkWeight(u), c, frozen);
    }

    /** The second half of the link mutation: the search's outcome `found` becomes a gene of weight w. */
    method AddFound(found: Result<Option<Connection>>, w: real) returns (o: Outcome)
      modifies genome, genome.core
      ensures genome.inputNodes == old(genome.inputNodes) && genome.outputNodes == old(genome.outputNodes)
      ensures genome.species == old(genome.species) && genome.fitness == old(genome.fitness)
      ensures genome.core.settings == old(genome.core.settings)
      ensures (o.Pass?, genome.genes, genome.core.currentInnovationNumber)
           == LinkAdded(old(genome.genes), found, w, old(genome.core.currentInnovationNumber), old(genome.fitness) != -1.0)
    {
      ghost var m := genome.genes;
      if found.Failure? {
        return Fail(found.error);
      }
      if found.value.None? {
        return Pass;
      }
      var c := found.value.value;
      var n := genome.core.GetNextInnovationNumber();
      var g := Gene(n, c.from, c.to, w, true);
      o := genome.AddGene(g, null, null, 0.0);
      assert o.Pass? ==> genome.genes == m[n := g];
    }

    /** The attempt loop of the link mutation: attempt `attempts` uses the draws `ends(attempts)`. */
    method FindLink(ends: nat -> (nat, nat)) returns (s: Result<Option<Connection>>)
      requires genome.Valid()
      ensures s == Search(genome.genes, genome.inputNodes, genome.outputNodes, ends, 0)
    {
      var attempts := 0;
      while attempts <= 40
        invariant attempts <= 41
        invariant Search(genome.genes, genome.inputNodes, genome.outputNodes, ends, 0)
               == Search(genome.genes, genome.inputNodes, genome.outputNodes, ends, attempts)
        decreases 41 - attempts
      {
        var a := TryLink(ends(attempts));
        if a.Failure? || a.value.Some? {
          return a;
        }
        attempts := attempts + 1;
      }
      return Success(None);
    }

    /**
     * The weight mutation: each gene in order gets NewWeight with its own draw, the bound being
     * MUTATION_WEIGHT_MAX_DISTURBANCE when perturbing and MUTATION_WEIGHT_CHANCE_RANDOM_RANGE
     * otherwise. A bound that is not positive throws at the first gene.
     */
    method ChangeWeights(perturb: bool, draws: nat -> real) returns (o: Outcome)
      modifies genome
      ensures genome.inputNodes == old(genome.inputNodes) && genome.outputNodes == old(genome.outputNodes)
      ensures genome.species == old(genome.species) && genome.fitness == old(genome.fitness)
      ensures var m := old(genome.genes);
              var bound := genome.core.GetSetting(if perturb then MutationWeightMaxDisturbance else MutationWeightChanceRandomRange);
              && (o.Fail? <==> m != map[] && bound <= 0.0)
              && (o.Fail? ==> genome.genes == m)
              && (o.Pass? ==> OnlyWeights(m, genome.genes))
              && (o.Pass? ==> forall i | 0 <= i < |m| ::
                    genome.genes[SortedKeys(m)[i]].weight == NewWeight(m[SortedKeys(m)[i]].weight, perturb, bound, draws(i)).value)
      ensures genome.genes.Keys == old(genome.genes).Keys
      ensures old(genome.Valid()) ==> genome.Valid()
    {
      var bound := genome.core.GetSetting(if perturb then MutationWeightMaxDisturbance else MutationWeightChanceRandomRange);
      var ks := SortedKeys(genome.genes);
      Genomes.IncreasingIsDistinct(ks);
      var r := Reweigh(genome.genes, ks, perturb, bound, draws);
      if r.Failure? {
        return Fail(r.error);
      }
      OnlyWeightsKeepsConnections(genome.genes, r.value);
      genome.genes := r.value;
      return Pass;
    }

    /**
     * The node mutation as mutate() runs it: only when MUTATION_NEW_NODE_CHANCE succeeds for the
     * draw u. It keeps the genome valid and every number below the counter.
     */
    method NodeStep(u: real, pick: nat) returns (o: Outcome)
      modifies genome, genome.core
      ensures genome.inputNodes == old(genome.inputNodes) && genome.outputNodes == old(genome.outputNodes)
      ensures genome.species == old(genome.species) && genome.fitness == old(genome.fitness)
      ensures genome.core.settings == old(genome.core.settings)
      ensures !Chance.Succeeds(old(genome.core.GetSetting(MutationNewNodeChance)), u) ==>
                o.Pass? && genome.genes == old(genome.genes)
                && genome.core.currentInnovationNumber == old(genome.core.currentInnovationNumber)
      ensures genome.core.currentInnovationNumber >= old(genome.core.currentInnovationNumber)
      ensures old(Numbered()) ==> Numbered()
      ensures old(genome.Valid()) ==> genome.Valid()
    {
      o := Pass;
      if Chance.Succeeds(genome.core.GetSetting(MutationNewNodeChance), u) {
        o := NodeAdd(pick);
      }
    }

    /**
     * The link mutation as mutate() runs it: only when MUTATION_NEW_CONNECTION_CHANCE succeeds
     * for the draw u. It keeps every number below the counter.
     */
    method LinkStep(u: real, ends: nat -> (nat, nat), w: real) returns (o: Outcome)
      requires genome.Valid()
      modifies genome, genome.core
      ensures genome.inputNodes == old(genome.inputNodes) && genome.outputNodes == old(genome.outputNodes)
      ensures genome.species == old(genome.species) && genome.fitness == old(genome.fitness)
      ensures genome.core.settings == old(genome.core.settings)
      ensures !Chance.Succeeds(old(genome.core.GetSetting(MutationNewConnectionChance)), u) ==>
                o.Pass? && genome.genes == old(genome.genes)
                && genome.core.currentInnovationNumber == old(genome.core.currentInnovationNumber)
      ensures genome.core.currentInnovationNumber >= old(genome.core.currentInnovationNumber)
      ensures old(Numbered()) ==> Numbered()
      ensures genome.Valid()
    {
      o := Pass;
      if Chance.Succeeds(genome.core.GetSetting(MutationNewConnectionChance), u) {
        o := LinkAdd(ends, w);
      }
    }

    /**
     * mutate(): each of the three mutations runs when its chance succeeds; an exception from
     * one of them ends the call. The genome stays keyed, every number stays below the counter
     * when it was before, and only the genes and the counter change.
     */
    method Mutate(d: Draws) returns (o: Outcome)
      requires genome.Valid()
      modifies genome, genome.core
      ensures genome.Valid()
      ensures genome.inputNodes == old(genome.inputNodes) && genome.outputNodes == old(genome.outputNodes)
      ensures genome.species == old(genome.species) && genome.fitness == old(genome.fitness)
      ensures genome.core.settings == old(genome.core.settings)
      ensures genome.core.currentInnovationNumber >= old(genome.core.currentInnovationNumber)
      ensures old(Numbered()) ==> Numbered()
    {
      o := NodeStep(d.newNode, d.splitGene);
      if o.Pass? {
        o := LinkStep(d.newConnection, d.ends, d.linkWeight);
      }
      if o.Pass? && Chance.Succeeds(genome.core.GetSetting(MutationWeightChance), d.weight) {
        var perturb := !Chance.Succeeds(genome.core.GetSetting(MutationWeightRandomChance), d.weightRandom);
        o := ChangeWeights(perturb, d.perGene);
      }
    }
  }
}
