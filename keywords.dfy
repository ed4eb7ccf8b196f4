/**
 * The tail of `extract_keywords`: count the candidate keywords, sort the
 * distinct ones by ascending count (a stable sort), keep the last
 * `keyword_length` of them and reverse, so the most frequent come first.
 *
 * The candidates themselves come from a language model and are an input here.
 */
module Keywords {
  import opened Counting

  /** `keys` is in non-decreasing order of candidate count. */
  predicate AscendingByCount(keys: seq<string>, tf: map<string, nat>)
  {
    forall i, j :: 0 <= i < j < |keys| ==> Count(tf, keys[i]) <= Count(tf, keys[j])
  }

  /** `keys` is in non-increasing order of candidate count. */
  predicate DescendingByCount(keys: seq<string>, tf: map<string, nat>)
  {
    forall i, j :: 0 <= i < j < |keys| ==> Count(tf, keys[i]) >= Count(tf, keys[j])
  }

  /**
   * What a top-N answer promises: distinct candidates, most frequent first,
   * and none left out that is more frequent than one kept.
   */
  predicate IsRanking(top: seq<string>, tf: map<string, nat>)
  {
    && NoDuplicates(top)
    && (forall k :: k in top ==> k in tf)
    && DescendingByCount(top, tf)
    && (forall k, o :: k in top && o in tf && o !in top ==>
          Count(tf, o) <= Count(tf, k))
  }

  /**
   * One step of a stable insertion sort: `x` goes after every element whose
   * count does not exceed its own.
   */
  function InsertByCount(x: string, sorted: seq<string>, tf: map<string, nat>): (r: seq<string>)
    ensures |r| == |sorted| + 1
    ensures multiset(r) == multiset(sorted) + multiset{x}
  {
    if sorted == [] then [x]
    else
      var init, last := sorted[..|sorted| - 1], sorted[|sorted| - 1];
      assert sorted == init + [last];
      if Count(tf, last) <= Count(tf, x) then sorted + [x]
      else InsertByCount(x, init, tf) + [last]
  }

  lemma {:induction false} InsertMembers(x: string, sorted: seq<string>, tf: map<string, nat>)
    ensures forall y :: y in InsertByCount(x, sorted, tf) <==> y in sorted || y == x
  {
    var r := InsertByCount(x, sorted, tf);
    forall y ensures y in r <==> y in sorted || y == x {
      assert y in r <==> y in multiset(r);
      assert y in sorted <==> y in multiset(sorted);
    }
  }

  /** An ascending list stays ascending when a key counted at least as often as each of its keys is appended. */
  lemma AscendingSnoc(front: seq<string>, last: string, tf: map<string, nat>)
    requires AscendingByCount(front, tf)
    requires forall y :: y in front ==> Count(tf, y) <= Count(tf, last)
    ensures AscendingByCount(front + [last], tf)
  {
    var r := front + [last];
    forall i, j | 0 <= i < j < |r| ensures Count(tf, r[i]) <= Count(tf, r[j]) {
      if j == |front| {
        assert r[i] in front;
      } else {
        assert r[i] == front[i] && r[j] == front[j];
      }
    }
  }

  lemma {:induction false} InsertKeepsAscending(x: string, sorted: seq<string>, tf: map<string, nat>)
    requires AscendingByCount(sorted, tf)
    ensures AscendingByCount(InsertByCount(x, sorted, tf), tf)
  {
    if sorted != [] {
      var init, last := sorted[..|sorted| - 1], sorted[|sorted| - 1];
      if Count(tf, last) > Count(tf, x) {
        InsertKeepsAscending(x, init, tf);
        InsertMembers(x, init, tf);
        var front := InsertByCount(x, init, tf);
        forall y | y in front ensures Count(tf, y) <= Count(tf, last) {
          if y != x {
            var i :| 0 <= i < |init| && init[i] == y;
            assert sorted[i] == y;
          }
        }
        AscendingSnoc(front, last, tf);
        assert InsertByCount(x, sorted, tf) == front + [last];
      } else {
        forall y | y in sorted ensures Count(tf, y) <= Count(tf, x) {
          var i :| 0 <= i < |sorted| && sorted[i] == y;
          assert i == |sorted| - 1 || Count(tf, sorted[i]) <= Count(tf, last);
        }
        AscendingSnoc(sorted, x, tf);
      }
    }
  }

  lemma {:induction false} InsertKeepsDistinct(x: string, sorted: seq<string>, tf: map<string, nat>)
    requires NoDuplicates(sorted) && x !in sorted
    ensures NoDuplicates(InsertByCount(x, sorted, tf))
  {
    if sorted != [] {
      var init, last := sorted[..|sorted| - 1], sorted[|sorted| - 1];
      assert sorted == init + [last];
      if Count(tf, last) > Count(tf, x) {
        InsertKeepsDistinct(x, init, tf);
        InsertMembers(x, init, tf);
        var front := InsertByCount(x, init, tf);
        assert last !in front;
        assert InsertByCount(x, sorted, tf) == front + [last];
      }
    }
  }

  /**
   * `sorted(keys, key=count)`: the keys in ascending order of count, a
   * permutation of the keys.
   */
  function SortByCount(keys: seq<string>, tf: map<string, nat>): (r: seq<string>)
    ensures |r| == |keys|
    ensures multiset(r) == multiset(keys)
  {
    if keys == [] then []
    else
      var init := keys[..|keys| - 1];
      assert keys == init + [keys[|keys| - 1]];
      InsertByCount(keys[|keys| - 1], SortByCount(init, tf), tf)
  }

  /** Sorting keeps exactly the keys. */
  lemma SortByCountMembers(keys: seq<string>, tf: map<string, nat>)
    ensures forall y :: y in SortByCount(keys, tf) <==> y in keys
  {
    var r := SortByCount(keys, tf);
    forall y ensures y in r <==> y in keys {
      assert y in r <==> y in multiset(r);
      assert y in keys <==> y in multiset(keys);
    }
  }

  /** The sorted keys are in ascending order of count. */
  lemma {:induction false} SortByCountAscending(keys: seq<string>, tf: map<string, nat>)
    ensures AscendingByCount(SortByCount(keys, tf), tf)
  {
    if keys != [] {
      var init := keys[..|keys| - 1];
      SortByCountAscending(init, tf);
      InsertKeepsAscending(keys[|keys| - 1], SortByCount(init, tf), tf);
    }
  }

  /** Sorting distinct keys leaves them distinct. */
  lemma {:induction false} SortByCountDistinct(keys: seq<string>, tf: map<string, nat>)
    requires NoDuplicates(keys)
    ensures NoDuplicates(SortByCount(keys, tf))
  {
    if keys != [] {
      var init, x := keys[..|keys| - 1], keys[|keys| - 1];
      assert keys == init + [x];
      assert x !in init;
      SortByCountDistinct(init, tf);
      SortByCountMembers(init, tf);
      InsertKeepsDistinct(x, SortByCount(init, tf), tf);
    }
  }

  /** `list(reversed(s))`. */
  function Reverse(s: seq<string>): (r: seq<string>)
    ensures |r| == |s|
    ensures forall i :: 0 <= i < |s| ==> r[i] == s[|s| - 1 - i]
  {
    if s == [] then [] else Reverse(s[1..]) + [s[0]]
  }

  /** Any suffix of the keys sorted by count, reversed, is a ranking of the counter. */
  lemma RankedSuffix(tf: map<string, nat>, keys: seq<string>, start: nat)
    requires NoDuplicates(keys) && forall k :: k in keys <==> k in tf
    requires start <= |keys|
    ensures IsRanking(Reverse(SortByCount(keys, tf)[start..]), tf)
  {
    SortByCountMembers(keys, tf);
    SortByCountAscending(keys, tf);
    SortByCountDistinct(keys, tf);
    SuffixIsRanking(SortByCount(keys, tf), tf, start);
  }

  /** Reversing the suffix of an ascending, duplicate-free listing of the counter gives a ranking. */
  lemma SuffixIsRanking(sorted: seq<string>, tf: map<string, nat>, start: nat)
    requires NoDuplicates(sorted) && AscendingByCount(sorted, tf)
    requires forall k :: k in sorted <==> k in tf
    requires start <= |sorted|
    ensures IsRanking(Reverse(sorted[start..]), tf)
  {
    ReversedSuffixMembers(sorted, start);
    ReversedSuffixOrder(sorted, tf, start);
    var top := Reverse(sorted[start..]);
    forall k, o | k in top && o in tf && o !in top
      ensures Count(tf, o) <= Count(tf, k)
    {
      var j :| start <= j < |sorted| && sorted[j] == k;
      var i :| 0 <= i < |sorted| && sorted[i] == o;
      assert i < start;
    }
  }

  /** The reversed suffix holds exactly the elements from position `start` on. */
  lemma ReversedSuffixMembers(sorted: seq<string>, start: nat)
    requires start <= |sorted|
    ensures forall k :: k in Reverse(sorted[start..]) <==> exists i :: start <= i < |sorted| && sorted[i] == k
  {
    var tail := sorted[start..];
    var top := Reverse(tail);
    var m := |tail|;
    forall k ensures k in top <==> exists i :: start <= i < |sorted| && sorted[i] == k {
      if k in top {
        var j :| 0 <= j < m && top[j] == k;
        assert sorted[start + m - 1 - j] == k;
      }
      if exists i :: start <= i < |sorted| && sorted[i] == k {
        var i :| start <= i < |sorted| && sorted[i] == k;
        assert top[m - 1 - (i - start)] == k;
      }
    }
  }

  /** The reversed suffix is duplicate-free and in descending order of count. */
  lemma ReversedSuffixOrder(sorted: seq<string>, tf: map<string, nat>, start: nat)
    requires NoDuplicates(sorted) && AscendingByCount(sorted, tf)
    requires start <= |sorted|
    ensures NoDuplicates(Reverse(sorted[start..]))
    ensures DescendingByCount(Reverse(sorted[start..]), tf)
  {
    var top := Reverse(sorted[start..]);
    var m := |sorted| - start;
    forall i, j | 0 <= i < j < m ensures top[i] != top[j] && Count(tf, top[i]) >= Count(tf, top[j]) {
      assert top[i] == sorted[start + m - 1 - i];
      assert top[j] == sorted[start + m - 1 - j];
    }
  }

  /** Elements of equal count keep, in `sorted`, the order they have in `keys`. */
  predicate StableBy(sorted: seq<string>, keys: seq<string>, tf: map<string, nat>)
  {
    && (forall x :: x in sorted ==> x in keys)
    && (forall i, j :: 0 <= i < j < |sorted| && Count(tf, sorted[i]) == Count(tf, sorted[j]) ==>
          IndexOf(keys, sorted[i]) < IndexOf(keys, sorted[j]))
  }

  /** Dropping the last element keeps a sequence stable. */
  lemma StableInit(sorted: seq<string>, keys: seq<string>, tf: map<string, nat>)
    requires StableBy(sorted, keys, tf) && sorted != []
    ensures StableBy(sorted[..|sorted| - 1], keys, tf)
  {
    var init := sorted[..|sorted| - 1];
    forall x | x in init ensures x in sorted {
      var k :| 0 <= k < |init| && init[k] == x;
      assert sorted[k] == x;
    }
    forall i, j | 0 <= i < j < |init| ensures init[i] == sorted[i] && init[j] == sorted[j] { }
  }

  /** Appending `z` keeps a sequence stable when every element of equal count precedes `z` in `keys`. */
  lemma StableSnoc(s: seq<string>, z: string, keys: seq<string>, tf: map<string, nat>)
    requires StableBy(s, keys, tf) && z in keys
    requires forall y :: y in s && Count(tf, y) == Count(tf, z) ==> IndexOf(keys, y) < IndexOf(keys, z)
    ensures StableBy(s + [z], keys, tf)
  {
    var r := s + [z];
    forall i, j | 0 <= i < j < |r| && Count(tf, r[i]) == Count(tf, r[j])
      ensures IndexOf(keys, r[i]) < IndexOf(keys, r[j])
    {
      assert r[i] == s[i];
      if j < |s| {
        assert r[j] == s[j];
      } else {
        assert s[i] in s;
      }
    }
  }

  /** Inserting an element that comes after all others in `keys` keeps the sort stable. */
  lemma {:induction false} InsertKeepsStable(x: string, sorted: seq<string>, keys: seq<string>, tf: map<string, nat>)
    requires StableBy(sorted, keys, tf) && x in keys
    requires forall y :: y in sorted ==> IndexOf(keys, y) < IndexOf(keys, x)
    ensures StableBy(InsertByCount(x, sorted, tf), keys, tf)
  {
    if sorted == [] {
      StableSnoc(sorted, x, keys, tf);
      assert sorted + [x] == [x];
    } else {
      var n := |sorted| - 1;
      var init, last := sorted[..n], sorted[n];
      if Count(tf, last) <= Count(tf, x) {
        StableSnoc(sorted, x, keys, tf);
      } else {
        var front := InsertByCount(x, init, tf);
        assert StableBy(front, keys, tf) by {
          StableInit(sorted, keys, tf);
          InsertKeepsStable(x, init, keys, tf);
        }
        assert forall y :: y in front && Count(tf, y) == Count(tf, last) ==> IndexOf(keys, y) < IndexOf(keys, last) by {
          InsertMembers(x, init, tf);
          forall y | y in front && Count(tf, y) == Count(tf, last)
            ensures IndexOf(keys, y) < IndexOf(keys, last)
          {
            var k :| 0 <= k < |init| && init[k] == y;
            assert sorted[k] == y;
          }
        }
        StableSnoc(front, last, keys, tf);
      }
    }
  }

  /** In a duplicate-free sequence, everything in the first `m` positions is found before `m`. */
  lemma PrefixRanks(keys: seq<string>, m: nat)
    requires NoDuplicates(keys) && m <= |keys|
    ensures forall y :: y in keys[..m] ==> IndexOf(keys, y) < m
  {
    forall y | y in keys[..m] ensures IndexOf(keys, y) < m {
      var t :| 0 <= t < m && keys[..m][t] == y;
      IndexOfDistinct(keys, t);
    }
  }

  /** Sorting the first `m` keys inserts key `m - 1` into the sorted first `m - 1`. */
  lemma SortByCountStep(keys: seq<string>, tf: map<string, nat>, m: nat)
    requires 0 < m <= |keys|
    ensures SortByCount(keys[..m], tf) == InsertByCount(keys[m - 1], SortByCount(keys[..m - 1], tf), tf)
  {
    assert keys[..m][..m - 1] == keys[..m - 1];
  }

  /** Every key sorted among the first `m - 1` comes before key `m - 1`. */
  lemma SortedBeforeNext(keys: seq<string>, tf: map<string, nat>, m: nat)
    requires NoDuplicates(keys) && 0 < m <= |keys|
    ensures forall y :: y in SortByCount(keys[..m - 1], tf) ==>
      y in keys && IndexOf(keys, y) < IndexOf(keys, keys[m - 1])
  {
    IndexOfDistinct(keys, m - 1);
    SortByCountMembers(keys[..m - 1], tf);
    PrefixRanks(keys, m - 1);
  }

  /** The sort is stable: keys of equal count stay in the order of `keys`. */
  lemma {:induction false} SortByCountStable(keys: seq<string>, tf: map<string, nat>, m: nat)
    requires NoDuplicates(keys) && m <= |keys|
    ensures StableBy(SortByCount(keys[..m], tf), keys, tf)
  {
    if m == 0 {
      assert keys[..m] == [];
    } else {
      var before := SortByCount(keys[..m - 1], tf);
      assert StableBy(InsertByCount(keys[m - 1], before, tf), keys, tf) by {
        SortByCountStable(keys, tf, m - 1);
        SortedBeforeNext(keys, tf, m);
        InsertKeepsStable(keys[m - 1], before, keys, tf);
      }
      SortByCountStep(keys, tf, m);
    }
  }

  /** A reversed suffix holds only elements of the sequence it was cut from. */
  lemma ReversedSuffixWithin(sorted: seq<string>, keys: seq<string>, start: nat, top: seq<string>)
    requires (forall x :: x in sorted ==> x in keys) && start <= |sorted| && top == Reverse(sorted[start..])
    ensures forall k :: k in top ==> k in keys
  {
    forall k | k in top ensures k in keys {
      var i :| 0 <= i < |top| && top[i] == k;
      assert sorted[start + |top| - 1 - i] == k;
    }
  }

  /** Reversing a suffix of a stable sort puts equal-count keys in reverse `keys` order. */
  lemma ReversedSuffixTies(sorted: seq<string>, keys: seq<string>, tf: map<string, nat>, start: nat, top: seq<string>)
    requires StableBy(sorted, keys, tf) && start <= |sorted| && top == Reverse(sorted[start..])
    requires forall k :: k in top ==> k in keys
    ensures forall i, j :: (0 <= i < j < |top| && Count(tf, top[i]) == Count(tf, top[j])) ==>
      IndexOf(keys, top[j]) < IndexOf(keys, top[i])
  {
    var m := |top|;
    forall i, j | 0 <= i < j < m && Count(tf, top[i]) == Count(tf, top[j])
      ensures IndexOf(keys, top[j]) < IndexOf(keys, top[i])
    {
      var p, q := start + m - 1 - j, start + m - 1 - i;
      assert top[i] == sorted[q] && top[j] == sorted[p];
    }
  }

  /** A key left out of the reversed suffix of a stable sort precedes, in `keys`, every kept key of equal count. */
  lemma ReversedSuffixCut(sorted: seq<string>, keys: seq<string>, tf: map<string, nat>, start: nat, top: seq<string>)
    requires StableBy(sorted, keys, tf) && start <= |sorted| && top == Reverse(sorted[start..])
    requires forall x :: x in keys ==> x in sorted
    ensures forall k, o :: k in top && o in keys && o !in top && Count(tf, o) == Count(tf, k) ==>
      IndexOf(keys, o) < IndexOf(keys, k)
  {
    ReversedSuffixMembers(sorted, start);
    forall k, o | k in top && o in keys && o !in top && Count(tf, o) == Count(tf, k)
      ensures IndexOf(keys, o) < IndexOf(keys, k)
    {
      var q :| start <= q < |sorted| && sorted[q] == k;
      var p :| 0 <= p < |sorted| && sorted[p] == o;
      assert p < start;
    }
  }

  /** Python's start position for the slice `s[start:]` of a list of length `len`. */
  function PySliceStart(start: int, len: nat): (k: nat)
    ensures k <= len
    ensures 0 <= start <= len ==> k == start
  {
    if start < 0 then (if start + len < 0 then 0 else start + len)
    else if start > len then len
    else start
  }

  /** The sorted keys of the candidates' counter from position `start` on, reversed. */
  function Selection(candidates: seq<string>, start: nat): seq<string>
    requires start <= |Distinct(candidates)|
  {
    Reverse(SortByCount(Distinct(candidates), Counter(candidates))[start..])
  }

  /**
   * `extract_keywords`' selection as written: count the candidates, sort the
   * counter's keys by count, take `keys[len(keys) - keyword_length:]` and
   * reverse. A negative start counts from the end, so asking for more keywords
   * than there are, but fewer than twice as many, returns too few.
   */
  function TopKeywordsAsWritten(candidates: seq<string>, keywordLength: int): (top: seq<string>)
    ensures var n := |Distinct(candidates)|;
      |top| == if keywordLength <= 0 then 0
               else if keywordLength <= n then keywordLength
               else if keywordLength < 2 * n then keywordLength - n
               else n
    ensures IsRanking(top, Counter(candidates))
  {
    var tf, keys := Counter(candidates), Distinct(candidates);
    var sorted := SortByCount(keys, tf);
    var start := PySliceStart(|sorted| - keywordLength, |sorted|);
    RankedSuffix(tf, keys, start);
    Selection(candidates, start)
  }

  /** Where the last `keywordLength` of `n` keys start, clamped to the list: nothing for a non-positive length, everything for a length beyond `n`. */
  function ClampedStart(keywordLength: int, n: nat): (k: nat)
    ensures k <= n
    ensures keywordLength <= 0 ==> k == n
    ensures 0 < keywordLength ==> n - k == if keywordLength <= n then keywordLength else n
  {
    if keywordLength <= 0 then n
    else if keywordLength >= n then 0
    else n - keywordLength
  }

  /**
   * The intended selection: the `keyword_length` most frequent distinct
   * candidates (all of them if there are fewer), most frequent first.
   */
  function TopKeywords(candidates: seq<string>, keywordLength: int): (top: seq<string>)
    ensures |top| == if keywordLength <= 0 then 0
                     else if keywordLength <= |Distinct(candidates)| then keywordLength
                     else |Distinct(candidates)|
    ensures IsRanking(top, Counter(candidates))
  {
    var tf, keys := Counter(candidates), Distinct(candidates);
    var sorted := SortByCount(keys, tf);
    var start := ClampedStart(keywordLength, |sorted|);
    RankedSuffix(tf, keys, start);
    Selection(candidates, start)
  }

  /**
   * Every keyword is a candidate; of two keywords with equal counts the one
   * whose first occurrence among the candidates is later comes first; and a
   * candidate left out has its first occurrence before that of every kept
   * keyword with the same count, so the cut keeps the latest-seen ties.
   */
  predicate TiesLatestFirst(top: seq<string>, candidates: seq<string>)
  {
    && (forall k :: k in top ==> k in candidates)
    && (forall i, j :: 0 <= i < j < |top| && Count(Counter(candidates), top[i]) == Count(Counter(candidates), top[j]) ==>
          IndexOf(candidates, top[j]) < IndexOf(candidates, top[i]))
    && (forall k, o :: k in top && o in candidates && o !in top && Count(Counter(candidates), o) == Count(Counter(candidates), k) ==>
          IndexOf(candidates, o) < IndexOf(candidates, k))
  }

  /** A reversed suffix of the stable sort of the counter's keys breaks ties latest-first. */
  lemma SuffixTieBreak(candidates: seq<string>, start: nat)
    requires start <= |Distinct(candidates)|
    ensures TiesLatestFirst(Selection(candidates, start), candidates)
  {
    var tf, keys := Counter(candidates), Distinct(candidates);
    var sorted := SortByCount(keys, tf);
    var top := Selection(candidates, start);
    SortByCountMembers(keys, tf);
    assert keys[..|keys|] == keys;
    SortByCountStable(keys, tf, |keys|);
    ReversedSuffixWithin(sorted, keys, start, top);
    ReversedSuffixTies(sorted, keys, tf, start, top);
    forall i, j | 0 <= i < j < |top| && Count(tf, top[i]) == Count(tf, top[j])
      ensures IndexOf(candidates, top[j]) < IndexOf(candidates, top[i])
    {
      DistinctOrderMatches(candidates, top[j], top[i]);
    }
    ReversedSuffixCut(sorted, keys, tf, start, top);
    forall k, o | k in top && o in candidates && o !in top && Count(tf, o) == Count(tf, k)
      ensures IndexOf(candidates, o) < IndexOf(candidates, k)
    {
      DistinctOrderMatches(candidates, o, k);
    }
  }

  /**
   * Ties are broken deterministically: of two keywords with equal counts, the
   * one whose first occurrence among the candidates comes later is listed
   * first. This is the selection as written, which the sample script stores.
   */
  lemma TopKeywordsTieBreak(candidates: seq<string>, keywordLength: int)
    ensures TiesLatestFirst(TopKeywordsAsWritten(candidates, keywordLength), candidates)
  {
    var n := |Distinct(candidates)|;
    var start := PySliceStart(n - keywordLength, n);
    assert TopKeywordsAsWritten(candidates, keywordLength) == Selection(candidates, start);
    SuffixTieBreak(candidates, start);
  }

  /** The corrected selection breaks ties the same way. */
  lemma TopKeywordsTieBreakCorrected(candidates: seq<string>, keywordLength: int)
    ensures TiesLatestFirst(TopKeywords(candidates, keywordLength), candidates)
  {
    var n := |Distinct(candidates)|;
    var start := ClampedStart(keywordLength, n);
    assert TopKeywords(candidates, keywordLength) == Selection(candidates, start);
    SuffixTieBreak(candidates, start);
  }

  /**
   * Four distinct candidates asked for six keywords (the call in the sample
   * script): the selection as written returns two, the intended one all four.
   */
  lemma TopKeywordsShortfall(candidates: seq<string>)
    requires NoDuplicates(candidates) && |candidates| == 4
    ensures |TopKeywordsAsWritten(candidates, 6)| == 2
    ensures |TopKeywords(candidates, 6)| == 4
  {
    DistinctOfDistinct(candidates);
  }
}
