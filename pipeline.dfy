/**
 * The stages of the sample script put together: the aggregated locations are
 * geocoded (the keys of `unique_locs`, in first-sighting order), and the map
 * then looks every plotted row up in the tables the earlier stages built.
 */
module Pipeline {
  import opened Counting
  import opened Buckets
  import opened Geocoder
  import opened Aggregation
  import opened Links

  /** The queries the geocoder receives: `unique_locs.keys()`. */
  function Queries(links: seq<string>, mentionsOf: string -> seq<string>): seq<string>
  {
    Distinct(TotalLocs(links, mentionsOf))
  }

  /**
   * For every plotted row, each lookup the map makes succeeds: the bucket's
   * colour, the row's original query, that query's mention count (so the
   * marker is at least the single-mention size), its list of mentioning
   * links, and each such link's keywords.
   */
  lemma MapLookupsSucceed<C>(
    links: seq<string>, candidatesOf: string -> seq<string>, mentionsOf: string -> seq<string>,
    answers: seq<Answer<C>>, p: Placemark<C>)
    requires |answers| == |Queries(links, mentionsOf)|
    requires p in Run(Queries(links, mentionsOf), answers).latLon
    ensures p.bucket in ColorChart
    ensures p.displayName in Run(Queries(links, mentionsOf), answers).locConv
    ensures var query := Run(Queries(links, mentionsOf), answers).locConv[p.displayName];
      && query in Counter(TotalLocs(links, mentionsOf))
      && MarkerSize(Counter(TotalLocs(links, mentionsOf))[query]) >= 5
      && query in LocationUrls(links, mentionsOf)
      && forall m :: m in LocationUrls(links, mentionsOf)[query] ==> m.url in UrlKeywords(links, candidatesOf)
  {
    var queries := Queries(links, mentionsOf);
    var report := Run(queries, answers);
    RunRows(queries, answers);
    RunLocConv(queries, answers);
    QueriesOfConv(queries, answers);
    var j :| 0 <= j < |report.latLon| && report.latLon[j] == p;
    var i :| 0 <= i < |answers| && answers[i] == Found(p.displayName, p.coords);
    assert ResolvesTo(answers, i, p.displayName);
    var query := report.locConv[p.displayName];
    assert query in report.locConv.Values;
    IndexMatchesCounter(links, mentionsOf);
    UrlKeywordsPerLink(links, candidatesOf);
  }

  /**
   * The sample script lists the collected set and processes its first links.
   * Whatever the listing order, every processed link is a non-empty valid URL
   * taken from an anchor of the seed page, and since a set lists each URL
   * once, no location lists the same link twice.
   */
  lemma ProcessedLinksFromSeedPage(
    parse: string -> UrlParts, join: (string, string) -> string, seed: string, anchors: seq<Option<string>>,
    collected: seq<string>, mentionsOf: string -> seq<string>, location: string)
    requires NoDuplicates(collected)
    requires forall url :: url in collected <==> url in Collected(parse, join, seed, anchors)
    ensures forall l :: l in Processed(collected) ==>
      l != "" && IsValid(parse, l) &&
      exists i :: 0 <= i < |anchors| && Kept(parse, join, seed, anchors[i]) && Normalize(parse, join, seed, anchors[i].value) == l
    ensures forall i, j :: 0 <= i < j < |MentionsOf(Processed(collected), mentionsOf, location)| ==>
      MentionsOf(Processed(collected), mentionsOf, location)[i].url !=
      MentionsOf(Processed(collected), mentionsOf, location)[j].url
  {
    var links := Processed(collected);
    CollectedExactly(parse, join, seed, anchors);
    forall l | l in links ensures l in collected {
      var k :| 0 <= k < |links| && links[k] == l;
      assert collected[k] == l;
    }
    assert NoDuplicates(links) by {
      forall i, j | 0 <= i < j < |links| ensures links[i] != links[j] {
        assert links[i] == collected[i] && links[j] == collected[j];
      }
    }
    MentionsOnePerLink(links, mentionsOf, location);
  }
}
