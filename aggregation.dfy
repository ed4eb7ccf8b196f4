/**
 * The per-link loop of the sample script: for each collected link, keep its
 * keywords, lower-case and count its location mentions, append one
 * (url, frequency) mention under each location, and gather all mentions into
 * one list that is counted at the end.
 *
 * Fetching a page and running the language model on it are outside the
 * model: `candidatesOf(link)` is the keyword candidates found in the page
 * text and `mentionsOf(link)` the surface strings of its location entities.
 */
module Aggregation {
  import opened Text
  import opened Counting
  import Keywords

  /** One entry of `location_urls[location]`: `{"url": link, "frequency": n}`. */
  datatype Mention = Mention(url: string, frequency: nat)

  /** At most this many collected links are processed. */
  const MaxLinks: nat := 15

  /** The number of keywords asked for per link. */
  const KeywordLength: nat := 6

  /** The first links of the collected list, `links[:15]`. */
  function Processed(collected: seq<string>): (links: seq<string>)
    ensures |links| <= MaxLinks
  {
    if |collected| <= MaxLinks then collected else collected[..MaxLinks]
  }

  /** `[loc.lower() for loc in locations]`. */
  function LowerAll(locations: seq<string>): (lowered: seq<string>)
    ensures |lowered| == |locations|
    ensures forall i :: 0 <= i < |lowered| ==> lowered[i] == Lower(locations[i])
  {
    if locations == [] then [] else [Lower(locations[0])] + LowerAll(locations[1..])
  }

  /** The mentions listed under `location`, none if it has no entry yet. */
  function Lookup(index: map<string, seq<Mention>>, location: string): seq<Mention>
  {
    if location in index then index[location] else []
  }

  /** Appends a mention under a location; the first sighting creates the list. */
  function Append(index: map<string, seq<Mention>>, location: string, m: Mention): map<string, seq<Mention>>
  {
    if location in index then index[location := index[location] + [m]]
    else index[location := [m]]
  }

  /**
   * The inner loop over `Counter(lc_loc).items()` after the items `keys`: one
   * mention of `link` per item, with the item's count in `lowered`.
   */
  function AddCounted(index: map<string, seq<Mention>>, link: string, lowered: seq<string>, keys: seq<string>): map<string, seq<Mention>>
  {
    if keys == [] then index
    else
      var n := |keys| - 1;
      Append(AddCounted(index, link, lowered, keys[..n]), keys[n], Mention(link, Occurrences(lowered, keys[n])))
  }

  /** What one link with the lower-cased mentions `lowered` adds to `location_urls`. */
  function AddLink(index: map<string, seq<Mention>>, link: string, lowered: seq<string>): map<string, seq<Mention>>
  {
    AddCounted(index, link, lowered, Distinct(lowered))
  }

  /** `location_urls` after the links, in order. */
  function LocationUrls(links: seq<string>, mentionsOf: string -> seq<string>): map<string, seq<Mention>>
  {
    if links == [] then map[]
    else
      var n := |links| - 1;
      AddLink(LocationUrls(links[..n], mentionsOf), links[n], LowerAll(mentionsOf(links[n])))
  }

  /** `total_locs` after the links: every lower-cased mention, link after link. */
  function TotalLocs(links: seq<string>, mentionsOf: string -> seq<string>): seq<string>
  {
    if links == [] then []
    else
      var n := |links| - 1;
      TotalLocs(links[..n], mentionsOf) + LowerAll(mentionsOf(links[n]))
  }

  /** `url_keywords` after the links. */
  function UrlKeywords(links: seq<string>, candidatesOf: string -> seq<string>): map<string, seq<string>>
  {
    if links == [] then map[]
    else
      var n := |links| - 1;
      UrlKeywords(links[..n], candidatesOf)[links[n] := Keywords.TopKeywordsAsWritten(candidatesOf(links[n]), KeywordLength)]
  }

  /**
   * The reference view of one location: every link that mentions it, in the
   * order the links are processed, with how often that link mentions it.
   */
  function MentionsOf(links: seq<string>, mentionsOf: string -> seq<string>, location: string): seq<Mention>
  {
    if links == [] then []
    else
      var n := |links| - 1;
      var count := Occurrences(LowerAll(mentionsOf(links[n])), location);
      MentionsOf(links[..n], mentionsOf, location) + (if count > 0 then [Mention(links[n], count)] else [])
  }

  /** The sum of the frequencies in a list of mentions. */
  function SumFrequencies(ms: seq<Mention>): nat
  {
    if ms == [] then 0 else SumFrequencies(ms[..|ms| - 1]) + ms[|ms| - 1].frequency
  }

  /** The inner loop appends one mention under each distinct item, and touches nothing else. */
  lemma {:induction false} AddCountedEffect(index: map<string, seq<Mention>>, link: string, lowered: seq<string>, keys: seq<string>)
    requires NoDuplicates(keys)
    ensures forall loc :: loc in AddCounted(index, link, lowered, keys) <==> loc in index || loc in keys
    ensures forall loc ::
              Lookup(AddCounted(index, link, lowered, keys), loc) ==
              Lookup(index, loc) + (if loc in keys then [Mention(link, Occurrences(lowered, loc))] else [])
  {
    if keys != [] {
      var n := |keys| - 1;
      assert keys == keys[..n] + [keys[n]];
      assert NoDuplicates(keys[..n]);
      AddCountedEffect(index, link, lowered, keys[..n]);
    }
  }

  /** One link adds, under each location it mentions, one mention with its count. */
  lemma AddLinkEffect(index: map<string, seq<Mention>>, link: string, lowered: seq<string>)
    ensures forall loc :: loc in AddLink(index, link, lowered) <==> loc in index || loc in lowered
    ensures forall loc ::
              Lookup(AddLink(index, link, lowered), loc) ==
              Lookup(index, loc) + (if Occurrences(lowered, loc) > 0 then [Mention(link, Occurrences(lowered, loc))] else [])
  {
    AddCountedEffect(index, link, lowered, Distinct(lowered));
  }

  /**
   * The fold over links builds, for every location, exactly its reference
   * list of mentions; a location has an entry exactly when some processed
   * link mentions it.
   */
  lemma {:induction false} LocationUrlsByLocation(links: seq<string>, mentionsOf: string -> seq<string>)
    ensures forall loc :: loc in LocationUrls(links, mentionsOf) <==> loc in TotalLocs(links, mentionsOf)
    ensures forall loc :: Lookup(LocationUrls(links, mentionsOf), loc) == MentionsOf(links, mentionsOf, loc)
  {
    if links != [] {
      var n := |links| - 1;
      LocationUrlsByLocation(links[..n], mentionsOf);
      AddLinkEffect(LocationUrls(links[..n], mentionsOf), links[n], LowerAll(mentionsOf(links[n])));
    }
  }

  /** A location's total count is the sum of the frequencies listed under it. */
  lemma {:induction false} TotalIsSumOfMentions(links: seq<string>, mentionsOf: string -> seq<string>, location: string)
    ensures Occurrences(TotalLocs(links, mentionsOf), location) == SumFrequencies(MentionsOf(links, mentionsOf, location))
  {
    if links != [] {
      var n := |links| - 1;
      TotalIsSumOfMentions(links[..n], mentionsOf, location);
      OccurrencesAppend(TotalLocs(links[..n], mentionsOf), LowerAll(mentionsOf(links[n])), location);
      var before := MentionsOf(links[..n], mentionsOf, location);
      var count := Occurrences(LowerAll(mentionsOf(links[n])), location);
      if count > 0 {
        assert (before + [Mention(links[n], count)])[..|before|] == before;
      } else {
        assert before + [] == before;
      }
    }
  }

  /** Every mention names a processed link and a frequency of at least one. */
  lemma {:induction false} MentionsArePositive(links: seq<string>, mentionsOf: string -> seq<string>, location: string)
    ensures forall m :: m in MentionsOf(links, mentionsOf, location) ==> m.frequency >= 1 && m.url in links
  {
    if links != [] {
      var n := |links| - 1;
      MentionsArePositive(links[..n], mentionsOf, location);
      assert links == links[..n] + [links[n]];
    }
  }

  /** With distinct links, no link is listed twice under one location. */
  lemma {:induction false} MentionsOnePerLink(links: seq<string>, mentionsOf: string -> seq<string>, location: string)
    requires NoDuplicates(links)
    ensures forall i, j :: 0 <= i < j < |MentionsOf(links, mentionsOf, location)| ==>
      MentionsOf(links, mentionsOf, location)[i].url != MentionsOf(links, mentionsOf, location)[j].url
  {
    if links != [] {
      var n := |links| - 1;
      assert links == links[..n] + [links[n]];
      assert NoDuplicates(links[..n]);
      MentionsOnePerLink(links[..n], mentionsOf, location);
      MentionsArePositive(links[..n], mentionsOf, location);
      var before := MentionsOf(links[..n], mentionsOf, location);
      forall i | 0 <= i < |before| ensures before[i].url != links[n] {
        assert before[i] in before;
      }
    }
  }

  /** Every key of `location_urls` (and of the final counter) is lower case. */
  lemma {:induction false} LocationsAreLowerCase(links: seq<string>, mentionsOf: string -> seq<string>)
    ensures forall loc :: loc in TotalLocs(links, mentionsOf) ==> IsLower(loc)
  {
    if links != [] {
      var n := |links| - 1;
      LocationsAreLowerCase(links[..n], mentionsOf);
    }
  }

  /**
   * After the loop, `location_urls` and `unique_locs` have the same keys, all
   * lower case; each location's count equals the sum of the frequencies listed
   * under it, and each listed frequency is at least one.
   */
  lemma IndexMatchesCounter(links: seq<string>, mentionsOf: string -> seq<string>)
    ensures LocationUrls(links, mentionsOf).Keys == Counter(TotalLocs(links, mentionsOf)).Keys
    ensures forall loc :: loc in LocationUrls(links, mentionsOf) ==>
      && IsLower(loc)
      && Counter(TotalLocs(links, mentionsOf))[loc] == SumFrequencies(LocationUrls(links, mentionsOf)[loc])
      && (forall m :: m in LocationUrls(links, mentionsOf)[loc] ==> m.frequency >= 1 && m.url in links)
  {
    LocationUrlsByLocation(links, mentionsOf);
    LocationsAreLowerCase(links, mentionsOf);
    forall loc | loc in LocationUrls(links, mentionsOf)
      ensures Counter(TotalLocs(links, mentionsOf))[loc] == SumFrequencies(LocationUrls(links, mentionsOf)[loc])
      ensures forall m :: m in LocationUrls(links, mentionsOf)[loc] ==> m.frequency >= 1 && m.url in links
    {
      assert Lookup(LocationUrls(links, mentionsOf), loc) == LocationUrls(links, mentionsOf)[loc];
      TotalIsSumOfMentions(links, mentionsOf, loc);
      MentionsArePositive(links, mentionsOf, loc);
    }
  }

  /** A link whose text yields no location mention leaves `location_urls` and `total_locs` as they were. */
  lemma SilentLinkAddsNothing(links: seq<string>, mentionsOf: string -> seq<string>, link: string)
    requires mentionsOf(link) == []
    ensures LocationUrls(links + [link], mentionsOf) == LocationUrls(links, mentionsOf)
    ensures TotalLocs(links + [link], mentionsOf) == TotalLocs(links, mentionsOf)
  {
    assert (links + [link])[..|links|] == links;
    assert Distinct(LowerAll([])) == [];
  }

  /**
   * The results depend only on what the extractors said about the processed
   * links: running the loop again over the same links, with the same
   * extractor outputs for them, yields the same `location_urls` and
   * `unique_locs`.
   */
  lemma {:induction false} SameOutputsSameResult(links: seq<string>, mentionsOf: string -> seq<string>, mentionsOf': string -> seq<string>)
    requires forall l :: l in links ==> mentionsOf(l) == mentionsOf'(l)
    ensures LocationUrls(links, mentionsOf) == LocationUrls(links, mentionsOf')
    ensures TotalLocs(links, mentionsOf) == TotalLocs(links, mentionsOf')
    ensures Counter(TotalLocs(links, mentionsOf)) == Counter(TotalLocs(links, mentionsOf'))
  {
    if links != [] {
      var n := |links| - 1;
      assert links[n] in links;
      forall l | l in links[..n] ensures mentionsOf(l) == mentionsOf'(l) {
        assert l in links;
      }
      SameOutputsSameResult(links[..n], mentionsOf, mentionsOf');
    }
  }

  /** One more link extends `total_locs` by its lower-cased mentions. */
  lemma TotalLocsSnoc(links: seq<string>, link: string, mentionsOf: string -> seq<string>)
    ensures TotalLocs(links + [link], mentionsOf) == TotalLocs(links, mentionsOf) + LowerAll(mentionsOf(link))
  {
    assert (links + [link])[..|links|] == links;
  }

  /** A location's count in `total_locs` over two runs of links is the sum of its counts over each. */
  lemma {:induction false} TotalCountAppend(a: seq<string>, b: seq<string>, mentionsOf: string -> seq<string>, location: string)
    ensures Occurrences(TotalLocs(a + b, mentionsOf), location) ==
            Occurrences(TotalLocs(a, mentionsOf), location) + Occurrences(TotalLocs(b, mentionsOf), location)
  {
    if b == [] {
      assert a + b == a;
    } else {
      var n := |b| - 1;
      var init, x := b[..n], b[n];
      assert b == init + [x];
      assert a + b == (a + init) + [x];
      TotalCountAppend(a, init, mentionsOf, location);
      TotalLocsSnoc(a + init, x, mentionsOf);
      TotalLocsSnoc(init, x, mentionsOf);
      OccurrencesAppend(TotalLocs(a + init, mentionsOf), LowerAll(mentionsOf(x)), location);
      OccurrencesAppend(TotalLocs(init, mentionsOf), LowerAll(mentionsOf(x)), location);
    }
  }

  /** Taking link `k` out of a run of links takes its mentions out of the location's count. */
  lemma TotalCountRemove(b: seq<string>, k: nat, mentionsOf: string -> seq<string>, location: string)
    requires k < |b|
    ensures Occurrences(TotalLocs(b, mentionsOf), location) ==
            Occurrences(TotalLocs(b[..k] + b[k + 1..], mentionsOf), location) +
            Occurrences(LowerAll(mentionsOf(b[k])), location)
  {
    var b1, x, b2 := b[..k], b[k], b[k + 1..];
    assert b == (b1 + [x]) + b2;
    TotalCountAppend(b1 + [x], b2, mentionsOf, location);
    TotalCountAppend(b1, b2, mentionsOf, location);
    TotalLocsSnoc(b1, x, mentionsOf);
    OccurrencesAppend(TotalLocs(b1, mentionsOf), LowerAll(mentionsOf(x)), location);
  }

  /** Two runs holding the same links: the last link of one occurs in the other, and the rests match. */
  lemma PermutationSplit(a: seq<string>, b: seq<string>) returns (k: nat)
    requires multiset(a) == multiset(b) && a != []
    ensures k < |b| && b[k] == a[|a| - 1]
    ensures multiset(a[..|a| - 1]) == multiset(b[..k] + b[k + 1..])
  {
    var n := |a| - 1;
    var x := a[n];
    assert x in multiset(b) by {
      assert a == a[..n] + [x];
    }
    k :| 0 <= k < |b| && b[k] == x;
    var rest := b[..k] + b[k + 1..];
    assert multiset(a[..n]) == multiset(a) - multiset{x} by {
      assert a == a[..n] + [x];
    }
    assert multiset(rest) == multiset(b) - multiset{x} by {
      assert b == b[..k] + [x] + b[k + 1..];
    }
  }

  /**
   * One step of the order argument: if the last link of `a` sits at `k` in `b`
   * and the rests agree on the count, so do `a` and `b`.
   */
  lemma TotalCountMatchLast(a: seq<string>, b: seq<string>, k: nat, mentionsOf: string -> seq<string>, location: string)
    requires a != [] && k < |b| && b[k] == a[|a| - 1]
    requires Occurrences(TotalLocs(a[..|a| - 1], mentionsOf), location) ==
             Occurrences(TotalLocs(b[..k] + b[k + 1..], mentionsOf), location)
    ensures Occurrences(TotalLocs(a, mentionsOf), location) == Occurrences(TotalLocs(b, mentionsOf), location)
  {
    var n := |a| - 1;
    TotalCountRemove(b, k, mentionsOf, location);
    TotalLocsSnoc(a[..n], a[n], mentionsOf);
    assert a == a[..n] + [a[n]];
    OccurrencesAppend(TotalLocs(a[..n], mentionsOf), LowerAll(mentionsOf(a[n])), location);
  }

  /** How often a location is mentioned in all does not depend on the order the links are processed in. */
  lemma {:induction false} TotalCountOrderFree(a: seq<string>, b: seq<string>, mentionsOf: string -> seq<string>, location: string)
    requires multiset(a) == multiset(b)
    ensures Occurrences(TotalLocs(a, mentionsOf), location) == Occurrences(TotalLocs(b, mentionsOf), location)
  {
    if a == [] {
      assert |b| == |multiset(b)| == 0;
    } else {
      var k := PermutationSplit(a, b);
      TotalCountOrderFree(a[..|a| - 1], b[..k] + b[k + 1..], mentionsOf, location);
      TotalCountMatchLast(a, b, k, mentionsOf, location);
    }
  }

  /**
   * `links` is listed from a set, in no defined order. When at most fifteen
   * links were collected, all of them are processed and `unique_locs` is the
   * same whatever the listing order.
   */
  lemma UniqueLocsOrderFree(collected: seq<string>, collected': seq<string>, mentionsOf: string -> seq<string>)
    requires |collected| <= MaxLinks && multiset(collected) == multiset(collected')
    ensures Counter(TotalLocs(Processed(collected), mentionsOf)) == Counter(TotalLocs(Processed(collected'), mentionsOf))
  {
    assert |collected'| == |multiset(collected')| == |multiset(collected)| == |collected|;
    var t, t' := TotalLocs(collected, mentionsOf), TotalLocs(collected', mentionsOf);
    forall loc ensures Occurrences(t, loc) == Occurrences(t', loc) {
      TotalCountOrderFree(collected, collected', mentionsOf, loc);
    }
    forall loc ensures loc in t <==> loc in t' {
      assert Occurrences(t, loc) == Occurrences(t', loc);
    }
  }

  /** `url_keywords` maps each processed link, and nothing else, to the keywords chosen for it. */
  lemma {:induction false} UrlKeywordsEntries(links: seq<string>, candidatesOf: string -> seq<string>)
    ensures forall l :: l in UrlKeywords(links, candidatesOf) <==> l in links
    ensures forall l :: l in UrlKeywords(links, candidatesOf) ==>
      UrlKeywords(links, candidatesOf)[l] == Keywords.TopKeywordsAsWritten(candidatesOf(l), KeywordLength)
  {
    if links != [] {
      var n := |links| - 1;
      UrlKeywordsEntries(links[..n], candidatesOf);
      assert links == links[..n] + [links[n]];
    }
  }

  /**
   * `url_keywords` has one entry per processed link; each entry ranks that
   * page's candidates and holds at most six keywords (fewer than the page's
   * distinct candidates when it has four or five of them, since the slice
   * start of `extract_keywords` then goes negative).
   */
  lemma UrlKeywordsPerLink(links: seq<string>, candidatesOf: string -> seq<string>)
    ensures UrlKeywords(links, candidatesOf).Keys == set l | l in links
    ensures forall l :: l in UrlKeywords(links, candidatesOf) ==>
      UrlKeywords(links, candidatesOf)[l] == Keywords.TopKeywordsAsWritten(candidatesOf(l), KeywordLength) &&
      |UrlKeywords(links, candidatesOf)[l]| <= KeywordLength &&
      Keywords.IsRanking(UrlKeywords(links, candidatesOf)[l], Counter(candidatesOf(l)))
  {
    UrlKeywordsEntries(links, candidatesOf);
    forall l | l in UrlKeywords(links, candidatesOf)
      ensures |Keywords.TopKeywordsAsWritten(candidatesOf(l), KeywordLength)| <= KeywordLength
    {
      var top := Keywords.TopKeywordsAsWritten(candidatesOf(l), KeywordLength);
      assert |top| <= KeywordLength;
    }
  }

  /**
   * The inner loop over `Counter(lc_loc).items()`: append one mention of
   * `link`, with its count, under each distinct location, first sightings
   * creating their list.
   */
  method RecordMentions(index: map<string, seq<Mention>>, link: string, lowered: seq<string>)
    returns (updated: map<string, seq<Mention>>)
    ensures updated == AddLink(index, link, lowered)
    ensures updated.Keys == index.Keys + (set loc | loc in lowered)
  {
    var unqLocs := Distinct(lowered);
    updated := index;
    var j := 0;
    while j < |unqLocs|
      invariant 0 <= j <= |unqLocs|
      invariant updated == AddCounted(index, link, lowered, unqLocs[..j])
    {
      assert unqLocs[..j + 1][..j] == unqLocs[..j];
      var location := unqLocs[j];
      var frequency := Occurrences(lowered, location);
      if location in updated {
        updated := updated[location := updated[location] + [Mention(link, frequency)]];
      } else {
        updated := updated[location := [Mention(link, frequency)]];
      }
      j := j + 1;
    }
    assert unqLocs[..j] == unqLocs;
    AddLinkEffect(index, link, lowered);
  }

  /** Processing link `i` after the links before it extends each of the three accumulators by that link. */
  lemma ProcessNext(links: seq<string>, i: nat, candidatesOf: string -> seq<string>, mentionsOf: string -> seq<string>)
    requires i < |links|
    ensures LocationUrls(links[..i + 1], mentionsOf) ==
            AddLink(LocationUrls(links[..i], mentionsOf), links[i], LowerAll(mentionsOf(links[i])))
    ensures UrlKeywords(links[..i + 1], candidatesOf) ==
            UrlKeywords(links[..i], candidatesOf)[links[i] := Keywords.TopKeywordsAsWritten(candidatesOf(links[i]), KeywordLength)]
    ensures TotalLocs(links[..i + 1], mentionsOf) == TotalLocs(links[..i], mentionsOf) + LowerAll(mentionsOf(links[i]))
  {
    assert links[..i + 1][..i] == links[..i];
  }

  /**
   * The loop of the sample script over the first fifteen collected links,
   * followed by the final `Counter(total_locs)`.
   */
  method Aggregate(collected: seq<string>, candidatesOf: string -> seq<string>, mentionsOf: string -> seq<string>)
    returns (links: seq<string>, locationUrls: map<string, seq<Mention>>, urlKeywords: map<string, seq<string>>,
             totalLocs: seq<string>, uniqueLocs: map<string, nat>)
    ensures links == Processed(collected)
    ensures locationUrls == LocationUrls(links, mentionsOf)
    ensures urlKeywords == UrlKeywords(links, candidatesOf)
    ensures totalLocs == TotalLocs(links, mentionsOf)
    ensures uniqueLocs == Counter(totalLocs)
    ensures |links| <= MaxLinks && urlKeywords.Keys == set l | l in links
    ensures locationUrls.Keys == uniqueLocs.Keys
  {
    links := Processed(collected);
    locationUrls, urlKeywords, totalLocs := map[], map[], [];
    var i := 0;
    while i < |links|
      invariant 0 <= i <= |links|
      invariant locationUrls == LocationUrls(links[..i], mentionsOf)
      invariant urlKeywords == UrlKeywords(links[..i], candidatesOf)
      invariant totalLocs == TotalLocs(links[..i], mentionsOf)
    {
      ProcessNext(links, i, candidatesOf, mentionsOf);
      var link := links[i];
      var kw := Keywords.TopKeywordsAsWritten(candidatesOf(link), KeywordLength);
      urlKeywords := urlKeywords[link := kw];

      var lcLoc := LowerAll(mentionsOf(link));
      locationUrls := RecordMentions(locationUrls, link, lcLoc);
      totalLocs := totalLocs + lcLoc;
      i := i + 1;
    }
    assert links[..i] == links;
    uniqueLocs := Counter(totalLocs);
    UrlKeywordsPerLink(links, candidatesOf);
    IndexMatchesCounter(links, mentionsOf);
  }
}
