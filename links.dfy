/**
 * `website_links` and `is_valid`: collect the absolute URLs the anchors of a
 * seed page point to, split into internal and external ones.
 *
 * Fetching and parsing the page is outside the model: the page is given as
 * the `href` attribute of each anchor, in document order (`None` when the
 * anchor has none). Reference resolution (`urljoin`) and URL parsing
 * (`urlparse`) are given as the functions `join` and `parse`.
 */
module Links {
  import opened Text

  datatype Option<T> = None | Some(value: T)

  /** The components of a parsed URL that the collector looks at. */
  datatype UrlParts = UrlParts(scheme: string, netloc: string, path: string)

  /** `is_valid`: the URL parses with both a scheme and a network location, each non-empty. */
  predicate IsValid(parse: string -> UrlParts, url: string): (valid: bool)
    ensures valid <==> |parse(url).scheme| > 0 && |parse(url).netloc| > 0
  {
    parse(url).netloc != "" && parse(url).scheme != ""
  }

  /** The absolute form of `href` with query and fragment dropped: `scheme://netloc` + path. */
  function Normalize(parse: string -> UrlParts, join: (string, string) -> string, seed: string, href: string): string
  {
    var parts := parse(join(seed, href));
    parts.scheme + "://" + parts.netloc + parts.path
  }

  /** An anchor the collector keeps: a non-empty `href` whose normal form is valid. */
  predicate Kept(parse: string -> UrlParts, join: (string, string) -> string, seed: string, anchor: Option<string>)
  {
    anchor.Some? && anchor.value != "" && IsValid(parse, Normalize(parse, join, seed, anchor.value))
  }

  /** The URLs collected from the anchors, in document order. */
  function Collected(parse: string -> UrlParts, join: (string, string) -> string, seed: string, anchors: seq<Option<string>>): set<string>
  {
    if anchors == [] then {}
    else
      var n := |anchors| - 1;
      var before := Collected(parse, join, seed, anchors[..n]);
      if Kept(parse, join, seed, anchors[n]) then before + {Normalize(parse, join, seed, anchors[n].value)}
      else before
  }

  /**
   * A URL is collected exactly when some anchor has a non-empty `href` whose
   * normal form it is and that form is valid; so no collected URL is empty or
   * lacks a scheme or a network location.
   */
  lemma {:induction false} CollectedExactly(
    parse: string -> UrlParts, join: (string, string) -> string, seed: string, anchors: seq<Option<string>>)
    ensures forall url :: url in Collected(parse, join, seed, anchors) <==>
      exists i :: 0 <= i < |anchors| && Kept(parse, join, seed, anchors[i]) &&
        Normalize(parse, join, seed, anchors[i].value) == url
    ensures forall url :: url in Collected(parse, join, seed, anchors) ==>
      url != "" && IsValid(parse, url)
  {
    if anchors != [] {
      var n := |anchors| - 1;
      CollectedExactly(parse, join, seed, anchors[..n]);
      var before := Collected(parse, join, seed, anchors[..n]);
      var c := Collected(parse, join, seed, anchors);
      forall url ensures url in c <==>
        exists i :: 0 <= i < |anchors| && Kept(parse, join, seed, anchors[i]) &&
          Normalize(parse, join, seed, anchors[i].value) == url
      {
        if url in c && url !in before {
          assert Kept(parse, join, seed, anchors[n]) && Normalize(parse, join, seed, anchors[n].value) == url;
        } else if url in c {
          var i :| 0 <= i < n && Kept(parse, join, seed, anchors[..n][i]) &&
            Normalize(parse, join, seed, anchors[..n][i].value) == url;
          assert anchors[..n][i] == anchors[i];
        }
        if exists i :: 0 <= i < |anchors| && Kept(parse, join, seed, anchors[i]) &&
             Normalize(parse, join, seed, anchors[i].value) == url {
          var i :| 0 <= i < |anchors| && Kept(parse, join, seed, anchors[i]) &&
            Normalize(parse, join, seed, anchors[i].value) == url;
          if i < n {
            assert anchors[..n][i] == anchors[i];
            assert url in before;
          }
        }
      }
      forall url | url in c ensures url != "" {
        var i :| 0 <= i < |anchors| && Kept(parse, join, seed, anchors[i]) &&
          Normalize(parse, join, seed, anchors[i].value) == url;
        assert |url| >= 3;
      }
    }
  }

  /**
   * The loop of `website_links`. It returns the collected URLs together with
   * their split into those that contain the seed's network location
   * (internal) and those that do not (external).
   */
  method WebsiteLinks(parse: string -> UrlParts, join: (string, string) -> string, seed: string, anchors: seq<Option<string>>)
    returns (urls: set<string>, internal: set<string>, external: set<string>)
    ensures urls == Collected(parse, join, seed, anchors)
    ensures internal == set url | url in urls && Contains(url, parse(seed).netloc)
    ensures external == set url | url in urls && !Contains(url, parse(seed).netloc)
  {
    urls, internal, external := {}, {}, {};
    var domainName := parse(seed).netloc;
    var i := 0;
    while i < |anchors|
      invariant 0 <= i <= |anchors|
      invariant urls == Collected(parse, join, seed, anchors[..i])
      invariant internal == set url | url in urls && Contains(url, domainName)
      invariant external == set url | url in urls && !Contains(url, domainName)
    {
      assert anchors[..i + 1][..i] == anchors[..i];
      var anchor := anchors[i];
      i := i + 1;
      if anchor == None || anchor.value == "" {
        continue;
      }
      var href := join(seed, anchor.value);
      var parsedHref := parse(href);
      href := parsedHref.scheme + "://" + parsedHref.netloc + parsedHref.path;
      if !IsValid(parse, href) {
        continue;
      }
      if href in internal {
        continue;
      }
      if !Contains(href, domainName) {
        if href !in external {
          urls := urls + {href};
          external := external + {href};
        }
        continue;
      }
      urls := urls + {href};
      internal := internal + {href};
    }
    assert anchors[..i] == anchors;
  }
}
