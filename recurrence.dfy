/**
 * The backward search of Mutation.isRecurrent(path, genome, node). The path list is shared by
 * every call of one search and never shortened, so each call returns, besides its answer, the
 * path as it leaves it, and the next call starts from there. The genes are taken in innovation
 * order, as getInputs visits them.
 */
module Recurrence {
  import opened Genes

  /** Every node some gene of gs starts or ends at. */
  function Universe(gs: seq<Gene>): set<int> {
    (set i | 0 <= i < |gs| :: gs[i].from) + (set i | 0 <= i < |gs| :: gs[i].to)
  }

  function Elems(path: seq<int>): set<int> {
    set p | p in path
  }

  predicate Within(path: seq<int>, u: set<int>) {
    forall p | p in path :: p in u
  }

  /** getInputs: the source of each gene of gs, enabled or not, that ends at node, in order. */
  function Sources(gs: seq<Gene>, node: int): (fs: seq<int>)
    ensures forall f | f in fs :: exists i | 0 <= i < |gs| :: gs[i].to == node && gs[i].from == f
    ensures forall i | 0 <= i < |gs| && gs[i].to == node :: gs[i].from in fs
  {
    if gs == [] then []
    else
      var rest := Sources(gs[1..], node);
      assert forall f | f in rest :: exists i | 0 <= i < |gs| :: gs[i].to == node && gs[i].from == f by {
        forall f | f in rest ensures exists i | 0 <= i < |gs| :: gs[i].to == node && gs[i].from == f {
          var j :| 0 <= j < |gs[1..]| && gs[1..][j].to == node && gs[1..][j].from == f;
          assert gs[j + 1] == gs[1..][j];
        }
      }
      assert forall i | 1 <= i < |gs| && gs[i].to == node :: gs[i].from in rest by {
        forall i | 1 <= i < |gs| && gs[i].to == node ensures gs[i].from in rest {
          assert gs[1..][i - 1] == gs[i];
        }
      }
      (if gs[0].to == node then [gs[0].from] else []) + rest
  }

  lemma SourcesInUniverse(gs: seq<Gene>, node: int)
    ensures forall f | f in Sources(gs, node) :: f in Universe(gs)
  {
    forall f | f in Sources(gs, node) ensures f in Universe(gs) {
      var i :| 0 <= i < |gs| && gs[i].to == node && gs[i].from == f;
      assert gs[i].from in (set i | 0 <= i < |gs| :: gs[i].from);
    }
  }

  /** A subset has at most as many elements. */
  lemma {:induction false} SubsetCard<T>(a: set<T>, b: set<T>)
    requires a <= b
    ensures |a| <= |b|
    decreases |b|
  {
    if a != {} {
      var x := Element(a);
      SubsetCard(a - {x}, b - {x});
    }
  }

  /** A path that grows leaves no more nodes unvisited. */
  lemma Unvisited(u: set<int>, path: seq<int>, longer: seq<int>)
    requires path <= longer
    ensures |u - Elems(longer)| <= |u - Elems(path)|
  {
    assert Elems(path) <= Elems(longer) by {
      forall p | p in path ensures p in longer {
        var i :| 0 <= i < |path| && path[i] == p;
        assert longer[i] == p;
      }
    }
    SubsetCard(u - Elems(longer), u - Elems(path));
  }

  /**
   * One call of the search at `node`: a node already on the path is reported as a cycle;
   * otherwise the node is appended and every source of it that is not an input is searched,
   * all of them, with the path they leave behind. The path only grows, every node it gains is
   * a node of the genome, and the search ends because each call either stops or appends a node
   * not yet on the path.
   */
  function Visit(gs: seq<Gene>, inputs: seq<int>, path: seq<int>, node: int): (r: (bool, seq<int>))
    requires node in Universe(gs) && Within(path, Universe(gs))
    ensures path <= r.1 && Within(r.1, Universe(gs)) && node in r.1
    ensures node !in inputs ==> forall p | p in r.1 && p !in path :: p !in inputs
    decreases |Universe(gs) - Elems(path)|, 0, 0
  {
    if node in path then (true, path)
    else
      var next := path + [node];
      assert Universe(gs) - Elems(next) == (Universe(gs) - Elems(path)) - {node};
      SourcesInUniverse(gs, node);
      var r := VisitAll(gs, inputs, next, Sources(gs, node));
      assert node == r.1[|path|];
      r
  }

  /** The loop over a node's sources; input sources are skipped, the answers are or-ed. */
  function VisitAll(gs: seq<Gene>, inputs: seq<int>, path: seq<int>, froms: seq<int>): (r: (bool, seq<int>))
    requires Within(path, Universe(gs)) && forall f | f in froms :: f in Universe(gs)
    ensures path <= r.1 && Within(r.1, Universe(gs))
    ensures forall f | f in froms && f !in inputs :: f in r.1
    ensures forall p | p in r.1 && p !in path :: p !in inputs
    decreases |Universe(gs) - Elems(path)|, 1, |froms|
  {
    if froms == [] then (false, path)
    else
      var first := if froms[0] in inputs then (false, path) else Visit(gs, inputs, path, froms[0]);
      Unvisited(Universe(gs), path, first.1);
      var rest := VisitAll(gs, inputs, first.1, froms[1..]);
      assert forall p | p in first.1 :: p in rest.1 by {
        forall p | p in first.1 ensures p in rest.1 {
          var i :| 0 <= i < |first.1| && first.1[i] == p;
          assert rest.1[i] == p;
        }
      }
      assert forall p | p in path :: p in first.1 by {
        forall p | p in path ensures p in first.1 {
          var i :| 0 <= i < |path| && path[i] == p;
          assert first.1[i] == p;
        }
      }
      (first.0 || rest.0, rest.1)
  }

  /** A source that is already on the path makes the loop report a cycle. */
  lemma {:induction false} SourceOnPath(gs: seq<Gene>, inputs: seq<int>, path: seq<int>, froms: seq<int>, f: int)
    requires Within(path, Universe(gs)) && forall g | g in froms :: g in Universe(gs)
    requires f in froms && f !in inputs && f in path
    ensures VisitAll(gs, inputs, path, froms).0
    decreases |froms|
  {
    if froms[0] != f {
      var first := if froms[0] in inputs then (false, path) else Visit(gs, inputs, path, froms[0]);
      assert f in first.1 by {
        var i :| 0 <= i < |path| && path[i] == f;
        assert first.1[i] == f;
      }
      SourceOnPath(gs, inputs, first.1, froms[1..], f);
    }
  }

  /** `from` is a source of `to` through some gene and is not an input. */
  predicate Link(gs: seq<Gene>, inputs: seq<int>, to: int, from: int) {
    from in Sources(gs, to) && from !in inputs
  }

  /**
   * A chain c[0] <- c[1] <- ... <- c[n] backwards over genes, through nodes that are not inputs,
   * ending at a node on the path, makes the search from c[0] report a cycle.
   */
  lemma {:induction false} ChainFound(gs: seq<Gene>, inputs: seq<int>, path: seq<int>, c: seq<int>)
    requires |c| > 0 && c[0] in Universe(gs) && Within(path, Universe(gs))
    requires c[|c| - 1] in path
    requires forall i | 0 <= i < |c| - 1 :: Link(gs, inputs, c[i], c[i + 1])
    ensures Visit(gs, inputs, path, c[0]).0
    decreases |c|, 0, 0
  {
    if c[0] !in path {
      var next := path + [c[0]];
      SourcesInUniverse(gs, c[0]);
      ChainInSources(gs, inputs, next, Sources(gs, c[0]), c[1..]);
    }
  }

  lemma {:induction false} ChainInSources(gs: seq<Gene>, inputs: seq<int>, path: seq<int>, froms: seq<int>, c: seq<int>)
    requires |c| > 0 && c[0] in froms && c[0] !in inputs
    requires Within(path, Universe(gs)) && forall f | f in froms :: f in Universe(gs)
    requires c[|c| - 1] in path
    requires forall i | 0 <= i < |c| - 1 :: Link(gs, inputs, c[i], c[i + 1])
    ensures VisitAll(gs, inputs, path, froms).0
    decreases |c|, 1, |froms|
  {
    if froms[0] == c[0] {
      ChainFound(gs, inputs, path, c);
    } else {
      var first := if froms[0] in inputs then (false, path) else Visit(gs, inputs, path, froms[0]);
      assert c[|c| - 1] in first.1 by {
        var i :| 0 <= i < |path| && path[i] == c[|c| - 1];
        assert first.1[i] == c[|c| - 1];
      }
      ChainInSources(gs, inputs, first.1, froms[1..], c);
    }
  }

  /**
   * A node that is not an input and reaches itself backwards (c[0] == c[n] == node, each c[i+1]
   * a source of c[i], none of them an input) is reported recurrent.
   */
  lemma CycleFound(gs: seq<Gene>, inputs: seq<int>, node: int, c: seq<int>)
    requires node in Universe(gs) && node !in inputs
    requires |c| > 1 && c[0] == node && c[|c| - 1] == node
    requires forall i | 0 <= i < |c| - 1 :: Link(gs, inputs, c[i], c[i + 1])
    ensures Visit(gs, inputs, [], node).0
  {
    SourcesInUniverse(gs, node);
    assert [] + [node] == [node];
    assert Link(gs, inputs, c[0], c[1]);
    ChainInSources(gs, inputs, [node], Sources(gs, node), c[1..]);
  }

  /**
   * Converging paths are reported too: when node has two sources a (earlier) and b (later),
   * neither an input, that share a source x that is not an input, the search from node answers
   * true, whether or not the genes form a cycle. The first branch leaves x on the path and the
   * second finds it there.
   */
  lemma ConvergingPathsReported(gs: seq<Gene>, inputs: seq<int>, node: int, i: nat, j: nat, x: int)
    requires node in Universe(gs)
    requires i < j < |Sources(gs, node)|
    requires Sources(gs, node)[i] !in inputs && Sources(gs, node)[j] !in inputs && x !in inputs
    requires x in Sources(gs, Sources(gs, node)[i]) && x in Sources(gs, Sources(gs, node)[j])
    ensures Visit(gs, inputs, [], node).0
  {
    SourcesInUniverse(gs, node);
    assert [] + [node] == [node];
    SecondBranchFinds(gs, inputs, [node], Sources(gs, node), i, j, x);
  }

  lemma {:induction false} SecondBranchFinds(gs: seq<Gene>, inputs: seq<int>, path: seq<int>, froms: seq<int>, i: nat, j: nat, x: int)
    requires Within(path, Universe(gs)) && forall f | f in froms :: f in Universe(gs)
    requires i < j < |froms| && froms[i] !in inputs && froms[j] !in inputs && x !in inputs
    requires x in Sources(gs, froms[i]) && x in Sources(gs, froms[j])
    ensures VisitAll(gs, inputs, path, froms).0
    decreases i
  {
    var first := if froms[0] in inputs then (false, path) else Visit(gs, inputs, path, froms[0]);
    if i == 0 {
      if !first.0 {
        assert froms[0] !in path;
        SourcesInUniverse(gs, froms[0]);
        assert x in first.1;
        ReachIndex(gs, inputs, first.1, froms[1..], j - 1, x);
      }
    } else {
      SecondBranchFinds(gs, inputs, first.1, froms[1..], i - 1, j - 1, x);
    }
  }

  /** The loop reaches the j-th source with a path that still holds x; its search then hits x. */
  lemma {:induction false} ReachIndex(gs: seq<Gene>, inputs: seq<int>, path: seq<int>, froms: seq<int>, j: nat, x: int)
    requires Within(path, Universe(gs)) && forall f | f in froms :: f in Universe(gs)
    requires j < |froms| && froms[j] !in inputs && x !in inputs && x in path
    requires x in Sources(gs, froms[j])
    ensures VisitAll(gs, inputs, path, froms).0
    decreases j
  {
    if j == 0 {
      var b := froms[0];
      if b !in path {
        SourcesInUniverse(gs, b);
        SourceOnPath(gs, inputs, path + [b], Sources(gs, b), x);
      }
    } else {
      var first := if froms[0] in inputs then (false, path) else Visit(gs, inputs, path, froms[0]);
      assert x in first.1 by {
        var k :| 0 <= k < |path| && path[k] == x;
        assert first.1[k] == x;
      }
      ReachIndex(gs, inputs, first.1, froms[1..], j - 1, x);
    }
  }

  /** The outer loop of isRecurrent: a fresh search from each node of hs; any hit answers true. */
  function FromAny(gs: seq<Gene>, inputs: seq<int>, hs: seq<int>): (r: bool)
    requires forall h | h in hs :: h in Universe(gs)
    ensures r <==> exists k | 0 <= k < |hs| :: Visit(gs, inputs, [], hs[k]).0
  {
    if hs == [] then false
    else
      var rest := FromAny(gs, inputs, hs[1..]);
      assert rest <==> exists k | 1 <= k < |hs| :: Visit(gs, inputs, [], hs[k]).0 by {
        if rest {
          var k :| 0 <= k < |hs[1..]| && Visit(gs, inputs, [], hs[1..][k]).0;
          assert hs[k + 1] == hs[1..][k];
        }
        if exists k | 1 <= k < |hs| :: Visit(gs, inputs, [], hs[k]).0 {
          var k :| 1 <= k < |hs| && Visit(gs, inputs, [], hs[k]).0;
          assert hs[1..][k - 1] == hs[k];
        }
      }
      Visit(gs, inputs, [], hs[0]).0 || rest
  }
}
