/**
 * The order GenomeSorter imposes (Genome.java) when Collections.sort ranks a species: highest
 * key first. Insertion sort places each entry after every entry with an equal key, so entries
 * with equal keys keep the list's order, as the stable library sort does (SortStable).
 */
module Ranking {

  /** Every key is at least every later key. */
  predicate NonIncreasing<T(==)>(s: seq<T>, key: map<T, real>)
    requires forall x | x in s :: x in key
  {
    forall i, j | 0 <= i < j < |s| :: key[s[i]] >= key[s[j]]
  }

  /** Puts x in front of the first entry whose key is below x's. */
  function Insert<T(==)>(x: T, s: seq<T>, key: map<T, real>): (r: seq<T>)
    requires x in key && forall y | y in s :: y in key
    ensures multiset(r) == multiset(s) + multiset{x}
    ensures forall y | y in r :: y in key
  {
    if s == [] || key[s[0]] < key[x] then
      [x] + s
    else
      assert s == [s[0]] + s[1..];
      [s[0]] + Insert(x, s[1..], key)
  }

  /** Inserting into a non-increasing list keeps it non-increasing. */
  lemma {:induction false} InsertRanked<T>(x: T, s: seq<T>, key: map<T, real>)
    requires x in key && forall y | y in s :: y in key
    requires NonIncreasing(s, key)
    ensures NonIncreasing(Insert(x, s, key), key)
  {
    if s != [] && key[s[0]] >= key[x] {
      var rest := Insert(x, s[1..], key);
      RankedTail(s, key);
      InsertRanked(x, s[1..], key);
      forall y | y in rest ensures key[s[0]] >= key[y] {
        assert y in multiset(rest);
        if y != x {
          assert y in multiset(s[1..]);
          var j :| 0 <= j < |s[1..]| && s[1..][j] == y;
          assert s[j + 1] == y;
        }
      }
      var r := [s[0]] + rest;
      forall i, j | 0 <= i < j < |r| ensures key[r[i]] >= key[r[j]] {
        if i > 0 {
          assert r[i] == rest[i - 1] && r[j] == rest[j - 1];
        } else {
          assert r[j] in rest;
        }
      }
    }
  }

  /** The tail of a non-increasing list is non-increasing. */
  lemma RankedTail<T>(s: seq<T>, key: map<T, real>)
    requires s != [] && forall y | y in s :: y in key
    requires NonIncreasing(s, key)
    ensures NonIncreasing(s[1..], key)
  {
    forall i, j | 0 <= i < j < |s[1..]| ensures key[s[1..][i]] >= key[s[1..][j]] {
      assert s[1..][i] == s[i + 1] && s[1..][j] == s[j + 1];
    }
  }

  /** Collections.sort with GenomeSorter: a non-increasing permutation of the list. */
  function Sort<T(==)>(s: seq<T>, key: map<T, real>): (r: seq<T>)
    requires forall y | y in s :: y in key
    ensures multiset(r) == multiset(s)
    ensures forall y | y in r :: y in key
    ensures NonIncreasing(r, key)
  {
    if s == [] then []
    else
      var n := |s| - 1;
      assert s == s[..n] + [s[n]];
      InsertRanked(s[n], Sort(s[..n], key), key);
      Insert(s[n], Sort(s[..n], key), key)
  }

  /** A list already in non-increasing key order is left as it is. */
  lemma {:induction false} SortKeepsRanked<T>(s: seq<T>, key: map<T, real>)
    requires forall y | y in s :: y in key
    requires NonIncreasing(s, key)
    ensures Sort(s, key) == s
  {
    if s != [] {
      var n := |s| - 1;
      assert NonIncreasing(s[..n], key) by {
        forall i, j | 0 <= i < j < n ensures key[s[..n][i]] >= key[s[..n][j]] {
          assert s[..n][i] == s[i] && s[..n][j] == s[j];
        }
      }
      SortKeepsRanked(s[..n], key);
      InsertAtEnd(s[n], s[..n], key);
      assert s[..n] + [s[n]] == s;
    }
  }

  /** An entry whose key is at most every key of a list goes at its end. */
  lemma {:induction false} InsertAtEnd<T>(x: T, s: seq<T>, key: map<T, real>)
    requires x in key && forall y | y in s :: y in key
    requires forall y | y in s :: key[y] >= key[x]
    ensures Insert(x, s, key) == s + [x]
  {
    if s != [] {
      assert forall y | y in s[1..] :: y in s;
      InsertAtEnd(x, s[1..], key);
      assert s == [s[0]] + s[1..];
    }
  }

  /** The entries of s whose key is v, in list order. */
  function WithKey<T>(s: seq<T>, key: map<T, real>, v: real): (r: seq<T>)
    ensures forall y | y in r :: y in s && y in key && key[y] == v
  {
    if s == [] then []
    else (if s[0] in key && key[s[0]] == v then [s[0]] else []) + WithKey(s[1..], key, v)
  }

  /** Picking from a list with an entry in front. */
  lemma WithKeyCons<T>(x: T, s: seq<T>, key: map<T, real>, v: real)
    ensures WithKey([x] + s, key, v) == (if x in key && key[x] == v then [x] else []) + WithKey(s, key, v)
  {
    assert ([x] + s)[1..] == s;
  }

  /** A list with no entry of key v has none to pick. */
  lemma {:induction false} WithKeyNone<T>(s: seq<T>, key: map<T, real>, v: real)
    requires forall y | y in s :: y !in key || key[y] != v
    ensures WithKey(s, key, v) == []
  {
    if s != [] {
      assert forall y | y in s[1..] :: y in s;
      WithKeyNone(s[1..], key, v);
    }
  }

  /** Picking the entries of one key distributes over concatenation. */
  lemma {:induction false} WithKeyAppend<T>(a: seq<T>, b: seq<T>, key: map<T, real>, v: real)
    ensures WithKey(a + b, key, v) == WithKey(a, key, v) + WithKey(b, key, v)
  {
    if a == [] {
      assert a + b == b;
    } else {
      assert (a + b)[1..] == a[1..] + b;
      WithKeyAppend(a[1..], b, key, v);
    }
  }

  /**
   * Inserting x into a non-increasing list puts it after every entry with the same key and
   * leaves the order of the other entries of each key alone.
   */
  lemma {:induction false} InsertStable<T>(x: T, s: seq<T>, key: map<T, real>, v: real)
    requires x in key && forall y | y in s :: y in key
    requires NonIncreasing(s, key)
    ensures WithKey(Insert(x, s, key), key, v) == WithKey(s, key, v) + (if key[x] == v then [x] else [])
  {
    if s == [] || key[s[0]] < key[x] {
      assert Insert(x, s, key) == [x] + s;
      WithKeyCons(x, s, key, v);
      if s != [] && key[x] == v {
        BelowHead(s, key, v);
      }
    } else {
      var rest := Insert(x, s[1..], key);
      assert Insert(x, s, key) == [s[0]] + rest;
      RankedTail(s, key);
      InsertStable(x, s[1..], key, v);
      WithKeyCons(s[0], rest, key, v);
      WithKeyCons(s[0], s[1..], key, v);
      assert [s[0]] + s[1..] == s;
    }
  }

  /** A non-increasing list whose head is below v has no entry of key v. */
  lemma BelowHead<T>(s: seq<T>, key: map<T, real>, v: real)
    requires s != [] && forall y | y in s :: y in key
    requires NonIncreasing(s, key) && key[s[0]] < v
    ensures WithKey(s, key, v) == []
  {
    forall y | y in s ensures key[y] != v {
      var j :| 0 <= j < |s| && s[j] == y;
      assert key[s[0]] >= key[s[j]];
    }
    WithKeyNone(s, key, v);
  }

  /** The sort is stable: the entries of each key come out in the order they went in. */
  lemma {:induction false} SortStable<T>(s: seq<T>, key: map<T, real>, v: real)
    requires forall y | y in s :: y in key
    ensures WithKey(Sort(s, key), key, v) == WithKey(s, key, v)
  {
    if s != [] {
      var n := |s| - 1;
      var x, t := s[n], Sort(s[..n], key);
      SortLast(s, key);
      InsertStable(x, t, key, v);
      SortStable(s[..n], key, v);
      WithKeyAppend(s[..n], [x], key, v);
      assert WithKey([x], key, v) == (if key[x] == v then [x] else []) by {
        assert [x][1..] == [];
      }
    }
  }

  /** Sorting a list inserts its last entry into the sorted rest. */
  lemma SortLast<T>(s: seq<T>, key: map<T, real>)
    requires s != [] && forall y | y in s :: y in key
    ensures s == s[..|s| - 1] + [s[|s| - 1]]
    ensures Sort(s, key) == Insert(s[|s| - 1], Sort(s[..|s| - 1], key), key)
  {
    assert s == s[..|s| - 1] + [s[|s| - 1]];
  }
}
