# Website geoparser — a verified model of its core

The website geoparser runs the following pipeline:

1. It collects the links of a news front page.
2. For each link it extracts the page's keywords and the place names mentioned in it.
3. It counts how often each place is mentioned, and by which pages.
4. It geocodes every distinct place with Nominatim.
5. It sorts each geocoding result into one of ten administrative buckets.
6. It draws a map whose markers are coloured by bucket and sized by mention count.

This project models the repository's own logic in Dafny. The network, HTML, language-model and plotting libraries the program calls are abstracted away (see "Left out").

Modules, one per file:

- `Text` (`text.dfy`): the string operations the code relies on. These are `str.split` with its join inverse, `str.lower`, the digit test and substring containment.
- `Counting` (`counting.dfy`): `collections.Counter` over a list of strings. It gives occurrence counts, and the keys in first-occurrence order.
- `Buckets` (`buckets.dfy`): three pieces of `get_coords` and `map_coords`.
  - The result classifier from `get_coords`.
  - The colour chart and legend from `map_coords`.
  - The marker-size formula from `map_coords`.
- `Geocoder` (`geocoder.dfy`): the `get_coords` loop. The method `GetCoords` is proved against the fold `Run`, and the lemmas about `Run` state the accounting of successes, failures and timeouts and the `loc_conv` table.
- `Keywords` (`keywords.dfy`): the selection at the end of `extract_keywords`. It counts, stable-sorts by count, slices and reverses. The selection is modelled both as written and corrected (see "Findings").
- `Links` (`links.dfy`): `is_valid` and the `website_links` loop. The method `WebsiteLinks` is proved against the set `Collected`.
- `Visibility` (`visibility.dfy`): `tag_visible` and the visibility filter in `html2text`.
- `Aggregation` (`aggregation.dfy`): the per-link loop of `sample_use.py`. It builds `location_urls`, `url_keywords`, `total_locs` and `unique_locs`. The method `Aggregate`, with its inner loop `RecordMentions`, is proved against the folds `LocationUrls`, `UrlKeywords` and `TotalLocs`. Their properties are proved against a per-location reference view, `MentionsOf`.
- `Pipeline` (`pipeline.dfy`): the stages connected as `sample_use.py` connects them. Every dictionary lookup the map makes (colour, original query, mention count, mentioning pages, their keywords) is shown to succeed.

Behaviour of the code that the model follows, worth stating because it is easy to assume otherwise:

- **Bucket index.** In the up-to-six-parts branch of the classifier, the lookup `sizes[len(parts) - 1]` is always in range. A split yields at least one part (`Text.Split`), and the branch is only taken for at most six. A four-part street address such as "Hauptstraße 5, 10117, Berlin, Deutschland" is therefore a "Bezirk" (`Buckets.ClassifyFourParts`).
- **`success` and `failed`.** In `get_coords`, `success` holds the display names of matches, because `loc` is reassigned at website-geoparser/website_geoparser.py:121. `failed` holds the original queries.
- **Timeouts.** A timed-out query leaves no trace in the results.
- **`href="#"`.** The link collector does not discard `href="#"`. Only empty or missing `href`s are skipped. `#` resolves to the seed page itself, and after the fragment is dropped that page is collected like any other valid URL. In the model this follows from `Links.CollectedExactly`.
- **Keyword ties.** Ties are broken deterministically, because Python's `sorted` is stable. Among keywords of equal count, the one first seen later is listed first, and when the cut falls among equal counts the ones first seen later are kept (`Keywords.TopKeywordsTieBreak`).

## Model

| member | source | states |
|---|---|---|
| Text.Split | website-geoparser/website_geoparser.py:124 | `str.split(",")` yields at least one field. No field contains the separator, and joining the fields with it gives back the input. |
| Text.SplitOfJoin | website-geoparser/website_geoparser.py:124 | Splitting the separator-joined form of separator-free fields gives back exactly those fields (split inverts join). |
| Text.Lower | website-geoparser/website_geoparser.py:135 | `str.lower()` replaces each character, position by position, with its own lower case. The result is lower case, and lower-case input is left unchanged, so the operation is idempotent. |
| Counting.Occurrences | sample_use.py:26 | A count never exceeds the list's length, and it is positive exactly when the element occurs. |
| Counting.OccurrencesAppend | sample_use.py:35-37 | Counting over a concatenation (`total_locs.extend`) adds the counts of the two parts. |
| Counting.Distinct | sample_use.py:26-29 | The keys of a `Counter` are duplicate-free and are exactly the elements of the list. |
| Counting.DistinctInOrder | sample_use.py:26-29 | The keys come in the order of their first occurrence in the list, which is the `Counter`'s iteration order. It fixes the order of the geocoding queries at sample_use.py:40. |
| Counting.DistinctOrderMatches | sample_use.py:37-40 | Of two elements, the one earlier among the keys is exactly the one that first occurs earlier in the list. |
| Counting.Counter | sample_use.py:26 | `Counter(s)` has a key for exactly the elements of `s`. Each value lies between 1 and `|s|`, since it is the element's number of occurrences. |
| Buckets.Classify | website-geoparser/website_geoparser.py:123-138 | Every bucket the classifier can produce is a key of the colour chart, so `colorchart[...]` at line 232 cannot fail. |
| Buckets.BucketOfParts | website-geoparser/website_geoparser.py:125-138 | For any non-empty list of parts the classification is a colour-chart key. The six-entry `sizes` lookup stays in range. |
| Buckets.ClassifyThreeParts | website-geoparser/website_geoparser.py:126-130 | A three-part display name is "Postleitzahl" exactly when its middle part holds a digit, and "Ort" otherwise. |
| Buckets.ClassifyByPartCount | website-geoparser/website_geoparser.py:123-132 | A name of 1, 2, 4, 5 or 6 parts gets `sizes[k-1]`, whatever its parts contain. |
| Buckets.ClassifyFourParts | website-geoparser/website_geoparser.py:131-132 | Every four-part display name is a "Bezirk", a street address included. |
| Buckets.ClassifyManyParts | website-geoparser/website_geoparser.py:133-138 | With more than six parts, the checks run in order: a digit in the first part gives "Addresse"; otherwise a first part containing "straße" after lower-casing gives "Straße"; otherwise "Standort". |
| Buckets.ClassifyExampleState | website-geoparser/website_geoparser.py:123-132 | "Berlin, Deutschland" is classified "Bundesland". |
| Buckets.ClassifyExampleTown | website-geoparser/website_geoparser.py:126-130 | "10117, Berlin, Deutschland" is classified "Ort". |
| Buckets.ClassifyExamplePostcode | website-geoparser/website_geoparser.py:126-128 | "Mitte, 10117, Deutschland" is classified "Postleitzahl". |
| Buckets.LegendMatchesColorChart | website-geoparser/website_geoparser.py:207-209 | The legend's labels and colours pair up exactly as in the colour chart (line 230), and the legend lists every bucket. |
| Buckets.MarkerSize | website-geoparser/website_geoparser.py:237 | The marker size is five per mention, so a location mentioned at least once gets a marker of size at least 5. |
| Buckets.LegendSizes | website-geoparser/website_geoparser.py:210-219 | The size legend draws each frequency 1, 2, 4, 8, 16 at the marker size a location mentioned that many times gets (line 237), so its sizes grow with the frequencies. |
| Buckets.MarkerSizeStrictlyIncreasing | website-geoparser/website_geoparser.py:237 | More mentions always give a strictly larger marker. |
| Geocoder.RunAccounting | website-geoparser/website_geoparser.py:110-147 | Every query lands in exactly one outcome. `|lat_lon|` and `|success|` both equal the number of matches, `|failed|` equals the number of no-matches, and matches, no-matches and timeouts add up to the number of queries. |
| Geocoder.RunRowsInOrder | website-geoparser/website_geoparser.py:110-139 | `lat_lon` is exactly the list of the service's matches in query order (`FoundRows`, a filter over the answers that ignores the queries), each row classified by its own display name. |
| Geocoder.RunRows | website-geoparser/website_geoparser.py:117-139 | Every row carries the bucket of its own display name and comes from a match. `success[j]` is row j's display name, and every match has a row. |
| Geocoder.RunFailed | website-geoparser/website_geoparser.py:142-143 | A query is in `failed` exactly when the service found no match for it. |
| Geocoder.RunLocConvKeys | website-geoparser/website_geoparser.py:120 | `loc_conv` has an entry for exactly the display names that some query resolved to. |
| Geocoder.RunLocConvLatest | website-geoparser/website_geoparser.py:120 | `loc_conv[name]` is the most recent query that resolved to `name`, so later queries overwrite earlier ones. |
| Geocoder.RunLocConv | website-geoparser/website_geoparser.py:120 | The two facts above together. |
| Geocoder.QueriesOfConv | website-geoparser/website_geoparser.py:120 | Every value in `loc_conv` is one of the queries. |
| Geocoder.TimeoutLeavesNoTrace | website-geoparser/website_geoparser.py:146-147 | With distinct queries, as the keys of `unique_locs` are, a timed-out query appears neither in `failed` nor among the values of `loc_conv`. |
| Geocoder.RowsHaveLookups | website-geoparser/website_geoparser.py:232-234 | Every row's bucket has a colour, and every row's display name has a `loc_conv` entry. |
| Geocoder.RecordAnswer | website-geoparser/website_geoparser.py:111-147 | One pass of the loop body changes the four accumulators as `Record` describes. A match overwrites `loc_conv` at its display name and appends a classified row and its display name to `success`. A no-match appends the query to `failed`. A timeout changes nothing. |
| Geocoder.GetCoords | website-geoparser/website_geoparser.py:101-156 | The loop builds exactly the report `Run` describes. `|lat_lon| = |success|`, `|lat_lon| + |failed|` is at most the number of locations, and every row has a colour and a `loc_conv` entry. |
| Keywords.InsertByCount | website-geoparser/website_geoparser.py:84 | One step of the stable sort adds exactly the new key, as a multiset. |
| Keywords.SortByCount | website-geoparser/website_geoparser.py:84 | `sorted(tf.items(), key=count)` is a permutation of the keys. |
| Keywords.SortByCountAscending | website-geoparser/website_geoparser.py:84 | The sorted keys are in non-decreasing order of count. |
| Keywords.SortByCountDistinct | website-geoparser/website_geoparser.py:84 | Sorting distinct keys leaves them distinct. |
| Keywords.SortByCountStable | website-geoparser/website_geoparser.py:84 | The sort is stable: keys of equal count keep their `Counter` order. |
| Keywords.Reverse | website-geoparser/website_geoparser.py:86 | `reversed` puts element `|s|-1-i` at position i. |
| Keywords.SuffixIsRanking | website-geoparser/website_geoparser.py:85-86 | Any suffix of an ascending, duplicate-free listing of the counter, reversed, is a ranking. A ranking has no duplicates, is in non-increasing count order, and no omitted candidate is more frequent than a kept one. |
| Keywords.RankedSuffix | website-geoparser/website_geoparser.py:83-86 | The sorted keys of the counter, cut at any point and reversed, form a ranking. |
| Keywords.PySliceStart | website-geoparser/website_geoparser.py:85 | Python's slice start always lies within the list, and it equals the given start when that is in range. |
| Keywords.TopKeywordsAsWritten | website-geoparser/website_geoparser.py:83-89 | The selection as written returns 0 keywords for `keyword_length` ≤ 0, `keyword_length` when that is at most the number of distinct candidates (N), `keyword_length − N` when N < `keyword_length` < 2N, and N otherwise. The result is always a ranking. |
| Keywords.TopKeywords | website-geoparser/website_geoparser.py:83-89 | The corrected selection returns min(`keyword_length`, N) keywords (0 for `keyword_length` ≤ 0), and the result is a ranking. |
| Keywords.SuffixTieBreak | website-geoparser/website_geoparser.py:84-86 | Any reversed suffix of the stable sort lists, of two equal-count keywords, first the one whose first occurrence among the candidates is later, and every candidate it leaves out was first seen before each kept keyword of the same count. |
| Keywords.TopKeywordsTieBreak | website-geoparser/website_geoparser.py:83-86 | `TiesLatestFirst` holds for the selection as written, which the program returns: every keyword is a candidate. Of two keywords with equal counts, the one whose first occurrence among the candidates is later is listed first. A candidate left out was first seen before every kept keyword of the same count, so the cut keeps the latest-seen ties. |
| Keywords.TopKeywordsTieBreakCorrected | website-geoparser/website_geoparser.py:83-86 | The corrected selection breaks ties and makes the cut the same way. |
| Keywords.TopKeywordsShortfall | website-geoparser/website_geoparser.py:85 | For any four distinct candidates and `keyword_length` 6 (the call at sample_use.py:20), the code as written returns 2 keywords and the corrected selection returns 4. |
| Links.IsValid | website-geoparser/website_geoparser.py:257-260 | A URL is valid exactly when its parsed scheme and network location are both non-empty (Python's truth value of a string). `Links.CollectedExactly` shows every collected URL is valid. |
| Links.CollectedExactly | website-geoparser/website_geoparser.py:271-291 | A URL is collected exactly when some anchor has a non-empty `href` whose `scheme://netloc+path` form it is, and that form has a scheme and a netloc. Hence no collected URL is empty or malformed. |
| Links.WebsiteLinks | website-geoparser/website_geoparser.py:262-295 | The loop returns exactly the collected set. It splits the set into internal URLs (those containing the seed's netloc) and external ones (the rest), which together make up the whole set and share no URL. |
| Visibility.TagVisible | website-geoparser/website_geoparser.py:25-30 | A node is visible exactly when it is not a comment and its parent is none of style, script, head, title, meta and the document root. `Visibility.VisibleNodesKept` and `Visibility.HiddenNodesDropped` connect it to the filter. |
| Visibility.VisibleTexts | website-geoparser/website_geoparser.py:35 | The filter keeps at most as many texts as there are nodes, and every kept text comes from a visible node. |
| Visibility.VisibleNodesKept | website-geoparser/website_geoparser.py:25-30 | Every text node that `tag_visible` accepts contributes its text. |
| Visibility.VisibleTextsAppend | website-geoparser/website_geoparser.py:35 | Filtering works node by node: filtering two pieces of a document and concatenating gives the filtered whole. |
| Visibility.HiddenNodesDropped | website-geoparser/website_geoparser.py:25-30 | Comments, and text directly under style, script, head, title, meta or the document root, contribute nothing. |
| Aggregation.Processed | sample_use.py:10 | At most 15 links are processed. |
| Aggregation.LowerAll | sample_use.py:25 | Lower-casing the mentions keeps their number and lower-cases each one in place. |
| Aggregation.AddCountedEffect | sample_use.py:29-33 | The inner loop appends, under each distinct location, one `(url, frequency)` entry with that location's count. A first sighting creates the list, and nothing else changes. |
| Aggregation.AddLinkEffect | sample_use.py:24-33 | One link adds exactly one entry, carrying its count, under each location it mentions. |
| Aggregation.LocationUrlsByLocation | sample_use.py:16-35 | `location_urls` has an entry exactly for the locations in `total_locs`. Each location's list is its reference list: the links that mention it, in processing order, with their counts. |
| Aggregation.TotalIsSumOfMentions | sample_use.py:24-37 | A location's total count equals the sum of the frequencies listed under it. |
| Aggregation.MentionsArePositive | sample_use.py:26-33 | Every listed frequency is at least 1, and every listed URL is a processed link. |
| Aggregation.MentionsOnePerLink | sample_use.py:10-33 | With distinct links, no link is listed twice under one location. |
| Aggregation.LocationsAreLowerCase | sample_use.py:25-35 | Every location recorded is lower case. |
| Aggregation.IndexMatchesCounter | sample_use.py:25-37 | `location_urls` and `unique_locs` have the same keys, all lower case. Each count is the sum of its listed frequencies, each at least 1. |
| Aggregation.SilentLinkAddsNothing | sample_use.py:24-35 | A link whose text yields no location mention leaves `location_urls` and `total_locs` unchanged. |
| Aggregation.SameOutputsSameResult | sample_use.py:16-37 | With the same extractor outputs for the same links, a second run gives the same `location_urls`, `total_locs` and `unique_locs`. |
| Aggregation.TotalCountAppend | sample_use.py:35 | A location's count over two runs of links is the sum of its counts over each run. |
| Aggregation.TotalCountOrderFree | sample_use.py:16-37 | A location's total count does not depend on the order in which the links are processed. |
| Aggregation.UniqueLocsOrderFree | sample_use.py:10-37 | With at most 15 collected links, `unique_locs` is the same whatever order the set is listed in. |
| Aggregation.UrlKeywordsEntries | sample_use.py:16-21 | `url_keywords` has an entry for exactly the processed links. Each entry is the selection as written (`Keywords.TopKeywordsAsWritten`) of six keywords for that page, so a page with four or five distinct candidates gets fewer than it has. |
| Aggregation.UrlKeywordsPerLink | sample_use.py:16-21 | Additionally, every entry holds at most 6 keywords, and it ranks that page's candidates: no duplicates, most frequent first, none left out more frequent than one kept. |
| Aggregation.RecordMentions | sample_use.py:29-33 | The inner loop produces exactly the one-link update `AddLink`. Its keys are the old keys plus the link's locations. |
| Aggregation.Aggregate | sample_use.py:10-37 | The whole loop produces exactly the specified `location_urls`, `url_keywords` (filled with the selection as written, as `extract_keywords` returns it), `total_locs` and `unique_locs = Counter(total_locs)`. At most 15 links are processed, `url_keywords` has one key per link, and `location_urls` and `unique_locs` have the same keys. |
| Pipeline.MapLookupsSucceed | website-geoparser/website_geoparser.py:230-237 | Every row geocoded from the keys of `unique_locs` passes all the map's lookups. Its bucket has a colour, and its display name has an original query. That query has a count of at least one, giving a marker of at least size 5, and a list of mentioning pages, each with keywords. These are the same lookups the click handler makes at lines 174-179. |
| Pipeline.ProcessedLinksFromSeedPage | sample_use.py:10 | Whatever order the collected set is listed in, every processed link is a non-empty, valid URL taken from an anchor of the seed page. No location lists the same link twice. |

## Left out

- Fetching pages (`urllib`, `requests`) and the catch-all in `url2text` are I/O. They are not modelled. The model starts from what the extractors report for each link.
- HTML parsing (BeautifulSoup) is not modelled. A page is given as its text nodes, with their parent element's name, for the visibility filter. The seed page is given as the `href`s of its anchors, for the link collector. The stripping and joining of visible texts in `html2text` and the nltk re-tokenisation are left out.
- Candidate generation in `extract_keywords` (spaCy part-of-speech tags, noun chunks, special tags) is foreign code. So is `parse_location_entities` (spaCy NER). Their outputs are inputs to the model: `candidatesOf(link)` and `mentionsOf(link)`. The entity positions returned by `parse_location_entities` are not used by the core and are left out.
- `urljoin` and `urlparse` implement reference resolution as in section 5.2 of RFC 3986 and are library code. They are function parameters `join` and `parse` of the link collector.
- The Nominatim call, its rate limit and its two-second timeout are a network service. The model takes the service's answer to each query as an input sequence: a match with display name and coordinates, no match, or a timeout. Coordinates are an opaque type. Other geocoding errors, such as an unavailable service, a rate-limit refusal or a service error, are not caught at website-geoparser/website_geoparser.py:146. They abort `get_coords`, and the three-outcome answer cannot express them.
- `map_coords` plotting, the shapefile, the legend drawing, saving and the click handler's nearest-point search (floating-point squared distances) are UI. Only the colour chart, the legend tables, the marker-size formula and the dictionary lookups are modelled.
- Verbose printing and `tqdm` progress bars are left out.
- Text.Lower: models `str.lower()` only for ASCII letters and Ä, Ö, Ü, ẞ. Other characters are left unchanged, unlike Python's full Unicode case mapping.
- Text.IsDigit: models `str.isdigit()` for ASCII digits only. Python also accepts other Unicode digits, such as superscripts.
- Aggregation.Processed: the order in which `list(set)` lists the collected links is not defined by Python. The model takes the listing as an input, and for at most 15 links `Aggregation.UniqueLocsOrderFree` shows the count is independent of it. With more than 15, which links are processed depends on that order, and the model does not predict it.
- Geocoder.GetCoords: requires one answer per query. This is how the abstracted service is supplied, not a demand the code makes.

## Findings

| source | as written | input that shows it | evidently intended | confidence | as-written member | corrected member |
|---|---|---|---|---|---|---|
| website-geoparser/website_geoparser.py:85 | The slice start `len(keys) - keyword_length` goes negative when more keywords are asked for than there are distinct candidates. Python then counts from the end, so for N < `keyword_length` < 2N only `keyword_length − N` keywords are returned. | Four distinct candidates with `keyword_length` 6, as sample_use.py:20 asks, return 2 keywords instead of 4. | Return all N candidates when fewer than `keyword_length` exist (the start clamped at 0). | high, not executed | Keywords.TopKeywordsAsWritten | Keywords.TopKeywords |

The aggregation of the sample script (`Aggregation.UrlKeywords`, `Aggregation.Aggregate`) stores what the program actually computes, which is the selection as written. The corrected selection `Keywords.TopKeywords` carries the intended length and ranking properties. `Keywords.TopKeywordsShortfall` shows where the two differ.
