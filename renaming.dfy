/**
 * The renumbering step of Genome.fixDuplicates, as written: a snapshot list of the genome's gene
 * objects is walked in order, and for the i-th object the gene currently stored under that
 * object's number is removed, given the i-th target number, and stored under it again.
 *
 * Because the snapshot and the map share gene objects, an `Arena` keeps them apart: `slots` are
 * the objects of the snapshot, `at` maps each key of the genome to the slot stored under it.
 */
module Renaming {
  import opened Wrappers
  import opened Genes

  datatype Arena = Arena(slots: seq<Gene>, at: map<int, nat>)

  /** Every key points at an existing slot. */
  predicate Sound(a: Arena) {
    forall k | k in a.at :: a.at[k] < |a.slots|
  }

  /** The genes the map holds. */
  function Contents(a: Arena): (m: GeneMap)
    requires Sound(a)
    ensures m.Keys == a.at.Keys
  {
    map k | k in a.at :: a.slots[a.at[k]]
  }

  /** The first position of k in ks. */
  function Position(ks: seq<int>, k: int): (i: nat)
    requires k in ks
    ensures i < |ks| && ks[i] == k
    ensures forall j | 0 <= j < i :: ks[j] != k
  {
    if ks[0] == k then 0 else 1 + Position(ks[1..], k)
  }

  /** The snapshot taken before the walk: slot i holds the i-th gene in innovation order. */
  function Snapshot(m: GeneMap): (a: Arena)
    ensures a == Indexed(GenesInOrder(m), SortedKeys(m))
  {
    Indexed(GenesInOrder(m), SortedKeys(m))
  }

  /** Genes gs as slots, key ks[i] pointing at slot i. */
  function Indexed(gs: seq<Gene>, ks: seq<int>): (a: Arena)
    requires |gs| == |ks|
    ensures Sound(a)
  {
    Arena(gs, map k | k in ks :: Position(ks, k))
  }

  /**
   * One pass of the loop body for slot i: remove the gene stored under slot i's current number
   * (an absent key makes the source dereference null), renumber it, store it under the target.
   */
  function Step(a: Arena, i: nat, target: int): (r: Result<Arena>)
    requires Sound(a) && i < |a.slots|
    ensures r.Success? ==> Sound(r.value) && |r.value.slots| == |a.slots|
  {
    var oldNumber := a.slots[i].innovationNumber;
    if oldNumber !in a.at then Failure("NullPointerException")
    else
      var j := a.at[oldNumber];
      Success(Arena(a.slots[j := a.slots[j].(innovationNumber := target)], (a.at - {oldNumber})[target := j]))
  }

  /** The first n passes of the walk. */
  function Walk(a: Arena, targets: seq<int>, n: nat): (r: Result<Arena>)
    requires Sound(a) && n <= |a.slots| && n <= |targets|
    ensures r.Success? ==> Sound(r.value) && |r.value.slots| == |a.slots|
  {
    if n == 0 then Success(a)
    else
      var p := Walk(a, targets, n - 1);
      if p.Failure? then p else Step(p.value, n - 1, targets[n - 1])
  }

  /** Once a pass fails, every longer walk fails. */
  lemma {:induction false} WalkFailsAfter(a: Arena, targets: seq<int>, i: nat, n: nat)
    requires Sound(a) && i < n <= |a.slots| && n <= |targets|
    requires Walk(a, targets, i + 1).Failure?
    ensures Walk(a, targets, n) == Walk(a, targets, i + 1)
  {
    if n > i + 1 {
      WalkFailsAfter(a, targets, i, n - 1);
    }
  }

  /** The loop of fixDuplicates over the snapshot: n passes, stopping at the first failing one. */
  method RunWalk(a: Arena, targets: seq<int>, n: nat) returns (r: Result<Arena>)
    requires Sound(a) && n <= |a.slots| && n <= |targets|
    ensures r == Walk(a, targets, n)
  {
    var b := a;
    var i := 0;
    while i < n
      invariant 0 <= i <= n
      invariant Walk(a, targets, i) == Success(b)
    {
      var next := Step(b, i, targets[i]);
      if next.Failure? {
        WalkFailsAfter(a, targets, i, n);
        return next;
      }
      b := next.value;
      i := i + 1;
    }
    return Success(b);
  }

  /**
   * fixDuplicates' renumbering of `m` to `targets` as written: a walk over the shorter of the
   * two lists, then an assertion error when one list is longer.
   */
  function RenameAsWritten(m: GeneMap, targets: seq<int>): (r: Result<GeneMap>)
    ensures |targets| != |m| ==> r.Failure?
  {
    var a := Snapshot(m);
    var n := if |targets| < |m| then |targets| else |m|;
    var w := Walk(a, targets, n);
    if w.Failure? then Failure(w.error)
    else if |targets| != |m| then Failure("AssertionError")
    else Success(Contents(w.value))
  }

  /** Every key points at a slot that carries that key as its number. */
  ghost predicate KeyedArena(a: Arena) {
    Sound(a) && forall k | k in a.at :: a.slots[a.at[k]].innovationNumber == k
  }

  /**
   * A pass keeps the arena keyed: the slot it renumbers is the one slot under the old number,
   * and it ends up under the target, which is its new number.
   */
  lemma StepKeepsKeyed(a: Arena, i: nat, target: int)
    requires KeyedArena(a) && i < |a.slots|
    requires Step(a, i, target).Success?
    ensures KeyedArena(Step(a, i, target).value)
  {
    var oldNumber := a.slots[i].innovationNumber;
    var j := a.at[oldNumber];
    var b := Step(a, i, target).value;
    forall k | k in b.at ensures b.slots[b.at[k]].innovationNumber == k {
      if k != target {
        assert k in a.at && k != oldNumber && b.at[k] == a.at[k];
        assert a.at[k] != j;
      }
    }
  }

  lemma {:induction false} WalkKeepsKeyed(a: Arena, targets: seq<int>, n: nat)
    requires KeyedArena(a) && n <= |a.slots| && n <= |targets|
    requires Walk(a, targets, n).Success?
    ensures KeyedArena(Walk(a, targets, n).value)
  {
    if n > 0 {
      WalkKeepsKeyed(a, targets, n - 1);
      StepKeepsKeyed(Walk(a, targets, n - 1).value, n - 1, targets[n - 1]);
    }
  }

  lemma SnapshotKeyed(m: GeneMap)
    requires KeyedByInnovation(m)
    ensures KeyedArena(Snapshot(m))
  {
    var ks := SortedKeys(m);
    var gs := GenesInOrder(m);
    var a := Snapshot(m);
    forall k | k in a.at ensures a.slots[a.at[k]].innovationNumber == k {
      var i := Position(ks, k);
      assert a.at[k] == i && gs[i] == m[ks[i]];
    }
  }

  /**
   * However the targets collide, a renumbering that completes leaves every gene under its own
   * number (colliding passes lose genes, never mislabel them).
   */
  lemma RenameKeepsKeyed(m: GeneMap, targets: seq<int>)
    requires KeyedByInnovation(m)
    requires RenameAsWritten(m, targets).Success?
    ensures KeyedByInnovation(RenameAsWritten(m, targets).value)
  {
    var a := Snapshot(m);
    var n := if |targets| < |m| then |targets| else |m|;
    SnapshotKeyed(m);
    WalkKeepsKeyed(a, targets, n);
  }

  /**
   * After n passes over genes gs of distinct numbers, the slots not yet visited still hold
   * their genes and their numbers are still keys.
   */
  ghost predicate Untouched(a: Arena, gs: seq<Gene>, n: nat) {
    && KeyedArena(a)
    && |a.slots| == |gs|
    && n <= |gs|
    && forall i | n <= i < |gs| :: a.slots[i] == gs[i] && gs[i].innovationNumber in a.at
  }

  /**
   * A pass over a slot not yet visited finds its number stored, and it renumbers a slot already
   * visited or itself: the slot under that number carries it, and no later slot does.
   */
  lemma StepKeepsUntouched(a: Arena, gs: seq<Gene>, n: nat, target: int)
    requires Untouched(a, gs, n) && n < |gs|
    requires forall i, j | 0 <= i < j < |gs| :: gs[i].innovationNumber != gs[j].innovationNumber
    ensures Step(a, n, target).Success? && Untouched(Step(a, n, target).value, gs, n + 1)
  {
    var oldNumber := a.slots[n].innovationNumber;
    var j := a.at[oldNumber];
    assert forall i | n < i < |gs| :: a.slots[i].innovationNumber != oldNumber;
    assert a.slots[j].innovationNumber == oldNumber;
    StepKeepsKeyed(a, n, target);
    var b := Step(a, n, target).value;
    forall i | n + 1 <= i < |gs| ensures b.slots[i] == gs[i] && gs[i].innovationNumber in b.at {
      assert gs[i].innovationNumber != gs[n].innovationNumber;
    }
  }

  /** The snapshot of a keyed genome: no slot visited yet, and the slots' numbers distinct. */
  lemma SnapshotUntouched(m: GeneMap)
    requires KeyedByInnovation(m)
    ensures Untouched(Snapshot(m), GenesInOrder(m), 0)
    ensures forall i, j | 0 <= i < j < |m| ::
      GenesInOrder(m)[i].innovationNumber != GenesInOrder(m)[j].innovationNumber
  {
    var gs := GenesInOrder(m);
    var ks := SortedKeys(m);
    SnapshotKeyed(m);
    assert forall i | 0 <= i < |gs| :: gs[i].innovationNumber == ks[i];
  }

  lemma {:induction false} WalkKeepsUntouched(a: Arena, gs: seq<Gene>, targets: seq<int>, n: nat)
    requires Untouched(a, gs, 0) && n <= |gs| && n <= |targets|
    requires forall i, j | 0 <= i < j < |gs| :: gs[i].innovationNumber != gs[j].innovationNumber
    ensures Walk(a, targets, n).Success? && Untouched(Walk(a, targets, n).value, gs, n)
  {
    if n > 0 {
      WalkKeepsUntouched(a, gs, targets, n - 1);
      StepKeepsUntouched(Walk(a, targets, n - 1).value, gs, n - 1, targets[n - 1]);
    }
  }

  /**
   * On a genome that stores every gene under its own number, the in-place walk never finds a
   * slot's number missing: with as many targets as genes the renumbering completes, whatever
   * the targets (colliding ones lose genes rather than fail).
   */
  lemma RenameSucceedsWhenKeyed(m: GeneMap, targets: seq<int>)
    requires KeyedByInnovation(m) && |targets| == |m|
    ensures RenameAsWritten(m, targets).Success?
  {
    SnapshotUntouched(m);
    WalkKeepsUntouched(Snapshot(m), GenesInOrder(m), targets, |m|);
  }

  /** The renumbering the loop is meant to do: the i-th gene in order takes the i-th target. */
  function Renumbered(m: GeneMap, targets: seq<int>): (r: GeneMap)
    requires |targets| == |m|
    ensures forall k :: k in r <==> k in targets
  {
    Relabel(GenesInOrder(m), targets)
  }

  /** Genes gs stored under targets, gene i under target i with that number. */
  function Relabel(gs: seq<Gene>, targets: seq<int>): (r: GeneMap)
    requires |targets| == |gs|
    ensures forall k :: k in r <==> k in targets
  {
    map k | k in targets :: gs[Position(targets, k)].(innovationNumber := k)
  }

  /** No target number equals the number of a gene that is renumbered later. */
  predicate NoCollision(m: GeneMap, targets: seq<int>)
    requires |targets| == |m|
  {
    var ks := SortedKeys(m);
    forall i, j | 0 <= i < j < |targets| :: targets[i] != ks[j]
  }

  /** The key slot i sits under after n passes of a walk without collisions. */
  function KeyAfter(ks: seq<int>, targets: seq<int>, n: nat, i: nat): int
    requires |targets| == |ks| && i < |ks|
  {
    if i < n then targets[i] else ks[i]
  }

  /** The arena after the first n passes of a walk without collisions over genes gs with keys ks. */
  ghost predicate Midway(gs: seq<Gene>, ks: seq<int>, targets: seq<int>, n: nat, a: Arena)
    requires |targets| == |ks| == |gs| && n <= |ks|
  {
    && |a.slots| == |gs|
    && (forall i | 0 <= i < |gs| :: a.slots[i] == if i < n then gs[i].(innovationNumber := targets[i]) else gs[i])
    && (forall i | 0 <= i < |gs| :: KeyAfter(ks, targets, n, i) in a.at && a.at[KeyAfter(ks, targets, n, i)] == i)
    && (forall k | k in a.at :: a.at[k] < |gs| && KeyAfter(ks, targets, n, a.at[k]) == k)
  }

  /** What a walk without collisions needs of the genes, their keys and the targets. */
  ghost predicate Clear(gs: seq<Gene>, ks: seq<int>, targets: seq<int>) {
    && |targets| == |ks| == |gs|
    && StrictlyIncreasing(ks)
    && (forall i | 0 <= i < |gs| :: gs[i].innovationNumber == ks[i])
    && Distinct(targets)
    && (forall i, j | 0 <= i < j < |targets| :: targets[i] != ks[j])
  }

  lemma KeysAfterDistinct(gs: seq<Gene>, ks: seq<int>, targets: seq<int>, n: nat)
    requires Clear(gs, ks, targets) && n <= |ks|
    ensures forall i, j | 0 <= i < j < |ks| :: KeyAfter(ks, targets, n, i) != KeyAfter(ks, targets, n, j)
  {
    forall i, j | 0 <= i < j < |ks|
      ensures KeyAfter(ks, targets, n, i) != KeyAfter(ks, targets, n, j)
    {
      assert ks[i] < ks[j];
    }
  }

  /** The snapshot is the arena before any pass. */
  lemma IndexedIsMidway(gs: seq<Gene>, ks: seq<int>, targets: seq<int>)
    requires Clear(gs, ks, targets)
    ensures Midway(gs, ks, targets, 0, Indexed(gs, ks))
  {
    var a := Indexed(gs, ks);
    forall i | 0 <= i < |ks| ensures ks[i] in a.at && a.at[ks[i]] == i {
      var j := Position(ks, ks[i]);
      assert j <= i;
    }
  }

  /** Pass n - 1 takes the arena after n - 1 passes to the arena after n. */
  lemma StepIsMidway(gs: seq<Gene>, ks: seq<int>, targets: seq<int>, n: nat, p: Arena)
    requires Clear(gs, ks, targets) && 0 < n <= |ks|
    requires Midway(gs, ks, targets, n - 1, p)
    ensures Sound(p) && Step(p, n - 1, targets[n - 1]).Success?
    ensures Midway(gs, ks, targets, n, Step(p, n - 1, targets[n - 1]).value)
  {
    var i := n - 1;
    assert KeyAfter(ks, targets, n - 1, i) == ks[i];
    KeysAfterDistinct(gs, ks, targets, n - 1);
    KeysAfterDistinct(gs, ks, targets, n);
    var q := Step(p, i, targets[i]).value;
    assert q.at == (p.at - {ks[i]})[targets[i] := i];
    forall j | 0 <= j < |gs|
      ensures KeyAfter(ks, targets, n, j) in q.at && q.at[KeyAfter(ks, targets, n, j)] == j
    {
      if j != i {
        assert KeyAfter(ks, targets, n, j) == KeyAfter(ks, targets, n - 1, j);
        assert KeyAfter(ks, targets, n, j) != targets[i];
      }
    }
    forall k | k in q.at ensures q.at[k] < |gs| && KeyAfter(ks, targets, n, q.at[k]) == k {
      if k != targets[i] {
        var j := p.at[k];
        assert KeyAfter(ks, targets, n - 1, j) == k;
        assert j != i;
      }
    }
  }

  lemma {:induction false} WalkIsMidway(gs: seq<Gene>, ks: seq<int>, targets: seq<int>, n: nat, a: Arena)
    requires Clear(gs, ks, targets) && n <= |ks|
    requires Midway(gs, ks, targets, 0, a)
    ensures Sound(a) && Walk(a, targets, n).Success?
    ensures Midway(gs, ks, targets, n, Walk(a, targets, n).value)
  {
    if n > 0 {
      WalkIsMidway(gs, ks, targets, n - 1, a);
      StepIsMidway(gs, ks, targets, n, Walk(a, targets, n - 1).value);
    }
  }

  /** After every pass, the arena holds exactly the relabelled genes. */
  lemma FinishedWalk(gs: seq<Gene>, ks: seq<int>, targets: seq<int>, a: Arena)
    requires Clear(gs, ks, targets)
    requires Midway(gs, ks, targets, |gs|, a)
    ensures Sound(a) && Contents(a) == Relabel(gs, targets)
  {
    var c := Contents(a);
    var r := Relabel(gs, targets);
    FinishedKeys(gs, ks, targets, a);
    forall k | k in c ensures c[k] == r[k] {
      var i := a.at[k];
      assert KeyAfter(ks, targets, |gs|, i) == k;
      assert Position(targets, targets[i]) == i;
    }
  }

  lemma FinishedKeys(gs: seq<Gene>, ks: seq<int>, targets: seq<int>, a: Arena)
    requires Clear(gs, ks, targets)
    requires Midway(gs, ks, targets, |gs|, a)
    ensures a.at.Keys == Relabel(gs, targets).Keys
  {
    forall k | k in targets ensures k in a.at {
      var i := Position(targets, k);
      assert KeyAfter(ks, targets, |gs|, i) == k;
    }
    forall k | k in a.at ensures k in targets {
      assert KeyAfter(ks, targets, |gs|, a.at[k]) == k;
    }
  }

  /** A genome keyed by innovation number with distinct, non-colliding targets is Clear. */
  lemma ClearWhenKeyed(m: GeneMap, targets: seq<int>)
    requires |targets| == |m|
    requires KeyedByInnovation(m) && Distinct(targets) && NoCollision(m, targets)
    ensures Clear(GenesInOrder(m), SortedKeys(m), targets)
  {
    var ks := SortedKeys(m);
    var gs := GenesInOrder(m);
    forall i | 0 <= i < |gs| ensures gs[i].innovationNumber == ks[i] {
      assert ks[i] in m && gs[i] == m[ks[i]];
    }
  }

  /**
   * When no target equals the number of a gene renumbered later, the walk does what it is meant
   * to: the genome ends up with exactly the renumbered genes.
   */
  lemma RenameWithoutCollision(m: GeneMap, targets: seq<int>)
    requires |targets| == |m|
    requires KeyedByInnovation(m) && Distinct(targets) && NoCollision(m, targets)
    ensures RenameAsWritten(m, targets) == Success(Renumbered(m, targets))
  {
    var gs, ks := GenesInOrder(m), SortedKeys(m);
    ClearWhenKeyed(m, targets);
    IndexedIsMidway(gs, ks, targets);
    WalkIsMidway(gs, ks, targets, |m|, Snapshot(m));
    FinishedWalk(gs, ks, targets, Walk(Snapshot(m), targets, |m|).value);
  }

  /**
   * A collision loses a gene: renumbering genes 1 and 2 to 2 and 5 first stores the first gene
   * under 2, over the second; the second pass then takes that same gene out again and stores it
   * under 5. One gene is left where two are meant.
   */
  lemma CollisionLosesGene()
    ensures var m := map[1 := Gene(1, 1, 3, 0.5, true), 2 := Gene(2, 2, 3, 0.5, true)];
            && RenameAsWritten(m, [2, 5]) == Success(map[5 := Gene(5, 1, 3, 0.5, true)])
            && |Renumbered(m, [2, 5])| == 2
  {
    var m := map[1 := Gene(1, 1, 3, 0.5, true), 2 := Gene(2, 2, 3, 0.5, true)];
    CollisionRenamed(m);
    IntendedKeepsTwo(m);
  }

  lemma CollisionRenamed(m: GeneMap)
    requires m == map[1 := Gene(1, 1, 3, 0.5, true), 2 := Gene(2, 2, 3, 0.5, true)]
    ensures RenameAsWritten(m, [2, 5]) == Success(map[5 := Gene(5, 1, 3, 0.5, true)])
  {
    var a := Arena([Gene(1, 1, 3, 0.5, true), Gene(2, 2, 3, 0.5, true)], map[1 := 0, 2 := 1]);
    var c := Arena([Gene(5, 1, 3, 0.5, true), Gene(2, 2, 3, 0.5, true)], map[5 := 0]);
    SnapshotOfTwo(m);
    WalkOfTwo(a, c);
  }

  lemma IntendedKeepsTwo(m: GeneMap)
    requires m == map[1 := Gene(1, 1, 3, 0.5, true), 2 := Gene(2, 2, 3, 0.5, true)]
    ensures |Renumbered(m, [2, 5])| == 2
  {
    assert Renumbered(m, [2, 5]).Keys == {2, 5};
  }

  lemma SnapshotOfTwo(m: GeneMap)
    requires m == map[1 := Gene(1, 1, 3, 0.5, true), 2 := Gene(2, 2, 3, 0.5, true)]
    ensures Snapshot(m) == Arena([Gene(1, 1, 3, 0.5, true), Gene(2, 2, 3, 0.5, true)], map[1 := 0, 2 := 1])
  {
    TwoGenesInOrder(m);
    assert Position([1, 2], 2) == 1;
  }

  lemma WalkOfTwo(a: Arena, c: Arena)
    requires a == Arena([Gene(1, 1, 3, 0.5, true), Gene(2, 2, 3, 0.5, true)], map[1 := 0, 2 := 1])
    requires c == Arena([Gene(5, 1, 3, 0.5, true), Gene(2, 2, 3, 0.5, true)], map[5 := 0])
    ensures Sound(a) && Walk(a, [2, 5], 2) == Success(c)
    ensures Contents(c) == map[5 := Gene(5, 1, 3, 0.5, true)]
  {
    var b := Arena([Gene(2, 1, 3, 0.5, true), Gene(2, 2, 3, 0.5, true)], map[2 := 0]);
    FirstPass(a, b);
    SecondPass(b, c);
    assert Walk(a, [2, 5], 1) == Success(b);
  }

  lemma FirstPass(a: Arena, b: Arena)
    requires a == Arena([Gene(1, 1, 3, 0.5, true), Gene(2, 2, 3, 0.5, true)], map[1 := 0, 2 := 1])
    requires b == Arena([Gene(2, 1, 3, 0.5, true), Gene(2, 2, 3, 0.5, true)], map[2 := 0])
    ensures Sound(a) && Step(a, 0, 2) == Success(b)
  {
    assert a.slots[0].innovationNumber == 1 && a.at[1] == 0;
    assert a.slots[0 := a.slots[0].(innovationNumber := 2)] == b.slots;
    assert (a.at - {1})[2 := 0] == b.at;
  }

  lemma SecondPass(b: Arena, c: Arena)
    requires b == Arena([Gene(2, 1, 3, 0.5, true), Gene(2, 2, 3, 0.5, true)], map[2 := 0])
    requires c == Arena([Gene(5, 1, 3, 0.5, true), Gene(2, 2, 3, 0.5, true)], map[5 := 0])
    ensures Sound(b) && Step(b, 1, 5) == Success(c)
  {
    assert b.slots[1].innovationNumber == 2 && b.at[2] == 0;
    assert b.slots[0 := b.slots[0].(innovationNumber := 5)] == c.slots;
    assert (b.at - {2})[5 := 0] == c.at;
  }

  lemma TwoGenesInOrder(m: GeneMap)
    requires m == map[1 := Gene(1, 1, 3, 0.5, true), 2 := Gene(2, 2, 3, 0.5, true)]
    ensures SortedKeys(m) == [1, 2] && GenesInOrder(m) == [m[1], m[2]]
  {
    KeysOfTwo(m);
    var gs := GenesInOrder(m);
    assert gs[0] == m[1] && gs[1] == m[2];
  }

  lemma KeysOfTwo(m: GeneMap)
    requires m.Keys == {1, 2}
    ensures SortedKeys(m) == [1, 2]
  {
    var ks := SortedKeys(m);
    assert ks[0] in m.Keys && ks[1] in m.Keys && ks[0] < ks[1];
  }
}
