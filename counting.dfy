/**
 * Python's `collections.Counter` over a list: how often each element occurs,
 * with the keys in the order of their first occurrence.
 */
module Counting {

  /** The number of positions of `s` that hold `x`. */
  function Occurrences(s: seq<string>, x: string): (n: nat)
    ensures n <= |s|
    ensures n > 0 <==> x in s
  {
    if s == [] then 0
    else
      assert s == s[..|s| - 1] + [s[|s| - 1]];
      Occurrences(s[..|s| - 1], x) + (if s[|s| - 1] == x then 1 else 0)
  }

  /** Counting over a concatenation adds the counts of the two halves. */
  lemma {:induction false} OccurrencesAppend(a: seq<string>, b: seq<string>, x: string)
    ensures Occurrences(a + b, x) == Occurrences(a, x) + Occurrences(b, x)
  {
    if b == [] {
      assert a + b == a;
    } else {
      OccurrencesAppend(a, b[..|b| - 1], x);
      assert (a + b)[..|a + b| - 1] == a + b[..|b| - 1];
    }
  }

  predicate NoDuplicates(s: seq<string>)
  {
    forall i, j :: 0 <= i < j < |s| ==> s[i] != s[j]
  }

  /**
   * The distinct elements of `s`, each at the place of its first occurrence:
   * the key order of `Counter(s)`.
   */
  function Distinct(s: seq<string>): (d: seq<string>)
    ensures NoDuplicates(d)
    ensures forall x :: x in d <==> x in s
  {
    if s == [] then []
    else
      var d := Distinct(s[..|s| - 1]);
      assert s == s[..|s| - 1] + [s[|s| - 1]];
      if s[|s| - 1] in d then d else d + [s[|s| - 1]]
  }

  /** A duplicate-free list is its own list of distinct elements. */
  lemma {:induction false} DistinctOfDistinct(s: seq<string>)
    requires NoDuplicates(s)
    ensures Distinct(s) == s
  {
    if s != [] {
      var n := |s| - 1;
      assert NoDuplicates(s[..n]);
      DistinctOfDistinct(s[..n]);
      assert s[n] !in s[..n];
      assert s == s[..n] + [s[n]];
    }
  }

  /** The position of the first occurrence of `x` in `s`. */
  function IndexOf(s: seq<string>, x: string): (k: nat)
    requires x in s
    ensures k < |s| && s[k] == x
  {
    if s[0] == x then 0 else 1 + IndexOf(s[1..], x)
  }

  /** In a duplicate-free sequence, the element at `i` is found at `i`. */
  lemma {:induction false} IndexOfDistinct(s: seq<string>, i: nat)
    requires NoDuplicates(s) && i < |s|
    ensures IndexOf(s, s[i]) == i
  {
    var k := IndexOf(s, s[i]);
    assert s[k] == s[i];
  }

  /** Appending to `s` does not move the first occurrence of an element already in it. */
  lemma {:induction false} IndexOfPrefix(s: seq<string>, n: nat, x: string)
    requires n <= |s| && x in s[..n]
    ensures IndexOf(s, x) == IndexOf(s[..n], x)
  {
    if s[0] != x {
      assert s[..n][1..] == s[1..][..n - 1];
      IndexOfPrefix(s[1..], n - 1, x);
    }
  }

  /**
   * `Distinct(s)` lists the elements in the order of their first occurrence
   * in `s`, which is the key order of `Counter(s)`.
   */
  lemma {:induction false} DistinctInOrder(s: seq<string>)
    ensures forall i, j :: 0 <= i < j < |Distinct(s)| ==> IndexOf(s, Distinct(s)[i]) < IndexOf(s, Distinct(s)[j])
  {
    if s != [] {
      var n := |s| - 1;
      var p := s[..n];
      var d, d' := Distinct(s), Distinct(p);
      DistinctInOrder(p);
      forall i, j | 0 <= i < j < |d| ensures IndexOf(s, d[i]) < IndexOf(s, d[j]) {
        assert d[i] == d'[i];
        IndexOfPrefix(s, n, d[i]);
        if j < |d'| {
          IndexOfPrefix(s, n, d[j]);
        } else {
          assert d[j] == s[n] && s[n] !in p;
          var k := IndexOf(s, d[j]);
          assert k == n;
        }
      }
    }
  }

  /**
   * Comparing positions in `Distinct(s)` is comparing first occurrences in `s`.
   */
  lemma DistinctOrderMatches(s: seq<string>, x: string, y: string)
    requires x in s && y in s
    ensures IndexOf(Distinct(s), x) < IndexOf(Distinct(s), y) <==> IndexOf(s, x) < IndexOf(s, y)
  {
    var d := Distinct(s);
    var a, b := IndexOf(d, x), IndexOf(d, y);
    DistinctInOrder(s);
    if a > b {
      assert IndexOf(s, d[b]) < IndexOf(s, d[a]);
    } else if a < b {
      assert IndexOf(s, d[a]) < IndexOf(s, d[b]);
    }
  }

  /** A counter's entry for `k`, zero when `k` was never counted (as Python's `Counter` answers). */
  function Count(tf: map<string, nat>, k: string): nat
  {
    if k in tf then tf[k] else 0
  }

  /** `Counter(s)` as a dictionary from element to number of occurrences. */
  function Counter(s: seq<string>): (tf: map<string, nat>)
    ensures forall x :: x in tf <==> x in s
    ensures forall x :: x in tf ==> 1 <= tf[x] <= |s|
  {
    map x | x in s :: Occurrences(s, x)
  }
}
