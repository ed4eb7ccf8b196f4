/**
 * `get_coords`: one geocoding query per location string, sorting each query
 * into a classified success, a failure, or a dropped timeout.
 *
 * The geocoding service is abstracted as the answers it gave, one per query,
 * in query order; coordinates are an opaque type `C`.
 */
module Geocoder {
  import opened Buckets
  import opened Counting

  /** The service's answer to one query: its best match, no match, or a timeout. */
  datatype Answer<C> = Found(displayName: string, coords: C) | NoMatch | Timeout

  /** One `lat_lon` row: the match's display name, its coordinates and its bucket. */
  datatype Placemark<C> = Placemark(displayName: string, coords: C, bucket: string)

  /**
   * Everything the loop accumulates: `lat_lon`, `loc_conv` (display name to
   * query), and the `success` (display names) and `failed` (queries) lists it
   * reports.
   */
  datatype Report<C> = Report(
    latLon: seq<Placemark<C>>,
    locConv: map<string, string>,
    success: seq<string>,
    failed: seq<string>)

  /** What one query with its answer adds to the report. */
  function Record<C>(r: Report<C>, query: string, answer: Answer<C>): Report<C>
  {
    match answer
    case Found(name, coords) =>
      Report(r.latLon + [Placemark(name, coords, Classify(name))], r.locConv[name := query],
             r.success + [name], r.failed)
    case NoMatch => r.(failed := r.failed + [query])
    case Timeout => r
  }

  /** The report after the queries have been answered, in order. */
  function Run<C>(queries: seq<string>, answers: seq<Answer<C>>): Report<C>
    requires |queries| == |answers|
  {
    if queries == [] then Report([], map[], [], [])
    else
      var n := |queries| - 1;
      Record(Run(queries[..n], answers[..n]), queries[n], answers[n])
  }

  function NumFound<C>(answers: seq<Answer<C>>): nat
  {
    if answers == [] then 0
    else NumFound(answers[..|answers| - 1]) + (if answers[|answers| - 1].Found? then 1 else 0)
  }

  function NumNoMatch<C>(answers: seq<Answer<C>>): nat
  {
    if answers == [] then 0
    else NumNoMatch(answers[..|answers| - 1]) + (if answers[|answers| - 1].NoMatch? then 1 else 0)
  }

  function NumTimeout<C>(answers: seq<Answer<C>>): nat
  {
    if answers == [] then 0
    else NumTimeout(answers[..|answers| - 1]) + (if answers[|answers| - 1].Timeout? then 1 else 0)
  }

  /**
   * Every query lands in exactly one outcome: one row and one success per
   * match, one failure per no-match, nothing for a timeout.
   */
  lemma {:induction false} RunAccounting<C>(queries: seq<string>, answers: seq<Answer<C>>)
    requires |queries| == |answers|
    ensures |Run(queries, answers).latLon| == |Run(queries, answers).success| == NumFound(answers)
    ensures |Run(queries, answers).failed| == NumNoMatch(answers)
    ensures NumFound(answers) + NumNoMatch(answers) + NumTimeout(answers) == |queries|
  {
    if queries != [] {
      var n := |queries| - 1;
      RunAccounting(queries[..n], answers[..n]);
    }
  }

  /** The row an answer contributes: one classified row for a match, none otherwise. */
  function RowOf<C>(a: Answer<C>): seq<Placemark<C>>
  {
    if a.Found? then [Placemark(a.displayName, a.coords, Classify(a.displayName))] else []
  }

  /** The matches among the answers, in order, each as a classified row. */
  function FoundRows<C>(answers: seq<Answer<C>>): seq<Placemark<C>>
  {
    if answers == [] then []
    else FoundRows(answers[..|answers| - 1]) + RowOf(answers[|answers| - 1])
  }

  /** `lat_lon` lists the matches in query order. */
  lemma {:induction false} RunRowsInOrder<C>(queries: seq<string>, answers: seq<Answer<C>>)
    requires |queries| == |answers|
    ensures Run(queries, answers).latLon == FoundRows(answers)
  {
    if queries != [] {
      RunRowsInOrder(queries[..|queries| - 1], answers[..|answers| - 1]);
    }
  }

  /**
   * Each row is a match classified by its own display name and pairs with
   * the success entry at the same position; every match has a row.
   */
  lemma {:induction false} RunRows<C>(queries: seq<string>, answers: seq<Answer<C>>)
    requires |queries| == |answers|
    ensures var r := Run(queries, answers);
      && |r.success| == |r.latLon|
      && (forall j :: 0 <= j < |r.latLon| ==>
            && r.success[j] == r.latLon[j].displayName
            && r.latLon[j].bucket == Classify(r.latLon[j].displayName)
            && Found(r.latLon[j].displayName, r.latLon[j].coords) in answers)
      && (forall i :: 0 <= i < |answers| && answers[i].Found? ==>
            Placemark(answers[i].displayName, answers[i].coords, Classify(answers[i].displayName)) in r.latLon)
  {
    if queries != [] {
      var n := |queries| - 1;
      RunRows(queries[..n], answers[..n]);
      assert answers == answers[..n] + [answers[n]];
    }
  }

  /** A query is listed as failed exactly when the service found no match for it. */
  lemma {:induction false} RunFailed<C>(queries: seq<string>, answers: seq<Answer<C>>)
    requires |queries| == |answers|
    ensures forall q :: q in Run(queries, answers).failed <==>
      exists i :: 0 <= i < |queries| && queries[i] == q && answers[i].NoMatch?
  {
    if queries != [] {
      var n := |queries| - 1;
      RunFailed(queries[..n], answers[..n]);
      var r := Run(queries, answers);
      forall q | q in r.failed
        ensures exists i :: 0 <= i < |queries| && queries[i] == q && answers[i].NoMatch?
      {
        if q !in Run(queries[..n], answers[..n]).failed {
          assert queries[n] == q && answers[n].NoMatch?;
        } else {
          var i :| 0 <= i < n && queries[..n][i] == q && answers[..n][i].NoMatch?;
          assert queries[i] == q && answers[i].NoMatch?;
        }
      }
      forall q | exists i :: 0 <= i < |queries| && queries[i] == q && answers[i].NoMatch?
        ensures q in r.failed
      {
        var i :| 0 <= i < |queries| && queries[i] == q && answers[i].NoMatch?;
        if i < n {
          assert queries[..n][i] == q && answers[..n][i].NoMatch?;
        }
      }
    }
  }

  /** Whether answer `i` resolved to display name `name`. */
  predicate ResolvesTo<C>(answers: seq<Answer<C>>, i: int, name: string)
    requires 0 <= i < |answers|
  {
    answers[i].Found? && answers[i].displayName == name
  }

  /** Answer `i` is the last one resolving to `name`. */
  predicate LastResolvesTo<C>(answers: seq<Answer<C>>, i: int, name: string)
    requires 0 <= i < |answers|
  {
    ResolvesTo(answers, i, name) && forall j :: i < j < |answers| ==> !ResolvesTo(answers, j, name)
  }

  /** `loc_conv` knows exactly the display names some query resolved to. */
  lemma {:induction false} RunLocConvKeys<C>(queries: seq<string>, answers: seq<Answer<C>>)
    requires |queries| == |answers|
    ensures forall name :: name in Run(queries, answers).locConv <==>
      exists i :: 0 <= i < |answers| && ResolvesTo(answers, i, name)
  {
    if queries != [] {
      var n := |queries| - 1;
      RunLocConvKeys(queries[..n], answers[..n]);
      var conv0 := Run(queries[..n], answers[..n]).locConv;
      var conv := Run(queries, answers).locConv;
      forall name | name in conv
        ensures exists i :: 0 <= i < |answers| && ResolvesTo(answers, i, name)
      {
        if !ResolvesTo(answers, n, name) {
          assert name in conv0;
          var i :| 0 <= i < |answers[..n]| && ResolvesTo(answers[..n], i, name);
          assert ResolvesTo(answers, i, name);
        }
      }
      forall name | exists i :: 0 <= i < |answers| && ResolvesTo(answers, i, name)
        ensures name in conv
      {
        var i :| 0 <= i < |answers| && ResolvesTo(answers, i, name);
        if i < n {
          assert 0 <= i < |answers[..n]| && ResolvesTo(answers[..n], i, name);
          assert name in conv0;
        }
      }
    }
  }

  /** `loc_conv` maps a display name to the most recent query that resolved to it. */
  lemma {:induction false} RunLocConvLatest<C>(queries: seq<string>, answers: seq<Answer<C>>)
    requires |queries| == |answers|
    ensures forall i, name :: 0 <= i < |answers| && LastResolvesTo(answers, i, name) ==>
      name in Run(queries, answers).locConv && Run(queries, answers).locConv[name] == queries[i]
  {
    if queries != [] {
      var n := |queries| - 1;
      RunLocConvLatest(queries[..n], answers[..n]);
      var conv := Run(queries, answers).locConv;
      forall i, name | 0 <= i < |answers| && LastResolvesTo(answers, i, name)
        ensures name in conv && conv[name] == queries[i]
      {
        if i < n {
          assert !ResolvesTo(answers, n, name);
          forall j | i < j < n ensures !ResolvesTo(answers[..n], j, name) {
            assert !ResolvesTo(answers, j, name);
          }
          assert LastResolvesTo(answers[..n], i, name);
        }
      }
    }
  }

  /**
   * `loc_conv` knows exactly the display names some query resolved to, and
   * maps each to the most recent such query: a later query overwrites an
   * earlier one.
   */
  lemma RunLocConv<C>(queries: seq<string>, answers: seq<Answer<C>>)
    requires |queries| == |answers|
    ensures forall name :: name in Run(queries, answers).locConv <==>
      exists i :: 0 <= i < |answers| && ResolvesTo(answers, i, name)
    ensures forall i, name :: 0 <= i < |answers| && LastResolvesTo(answers, i, name) ==>
      name in Run(queries, answers).locConv && Run(queries, answers).locConv[name] == queries[i]
  {
    RunLocConvKeys(queries, answers);
    RunLocConvLatest(queries, answers);
  }

  /**
   * With distinct queries (the keys of a counter), a query that timed out is
   * neither among the failures nor the query of any display name.
   */
  lemma {:induction false} TimeoutLeavesNoTrace<C>(queries: seq<string>, answers: seq<Answer<C>>, k: nat)
    requires |queries| == |answers|
    requires NoDuplicates(queries)
    requires k < |queries| && answers[k].Timeout?
    ensures queries[k] !in Run(queries, answers).failed
    ensures queries[k] !in Run(queries, answers).locConv.Values
  {
    var n := |queries| - 1;
    if k < n {
      assert NoDuplicates(queries[..n]);
      TimeoutLeavesNoTrace(queries[..n], answers[..n], k);
      var r0 := Run(queries[..n], answers[..n]);
      assert queries[..n][k] == queries[k];
      if answers[n].Found? {
        var conv := Run(queries, answers).locConv;
        forall name | name in conv ensures conv[name] != queries[k] {
          if name != answers[n].displayName {
            assert conv[name] == r0.locConv[name] && r0.locConv[name] in r0.locConv.Values;
          }
        }
      }
    } else {
      TimeoutOnlyPrefix(queries, answers);
    }
  }

  /** The last query, when it times out, is not yet known to the report of the queries before it. */
  lemma TimeoutOnlyPrefix<C>(queries: seq<string>, answers: seq<Answer<C>>)
    requires |queries| == |answers| && queries != []
    requires NoDuplicates(queries)
    ensures var n := |queries| - 1;
      && queries[n] !in Run(queries[..n], answers[..n]).failed
      && queries[n] !in Run(queries[..n], answers[..n]).locConv.Values
  {
    var n := |queries| - 1;
    var r0 := Run(queries[..n], answers[..n]);
    RunFailed(queries[..n], answers[..n]);
    QueriesOfConv(queries[..n], answers[..n]);
    assert queries[n] !in queries[..n];
  }

  /** Every query in `loc_conv` is one of the queries asked. */
  lemma {:induction false} QueriesOfConv<C>(queries: seq<string>, answers: seq<Answer<C>>)
    requires |queries| == |answers|
    ensures forall q :: q in Run(queries, answers).locConv.Values ==> q in queries
  {
    if queries != [] {
      var n := |queries| - 1;
      QueriesOfConv(queries[..n], answers[..n]);
      var r0 := Run(queries[..n], answers[..n]);
      var conv := Run(queries, answers).locConv;
      forall q | q in conv.Values ensures q in queries {
        var name :| name in conv && conv[name] == q;
        if !(answers[n].Found? && name == answers[n].displayName) {
          assert r0.locConv[name] in r0.locConv.Values;
          assert q in queries[..n];
        }
      }
    }
  }

  /** Answering query `i` after the ones before it records that query's answer. */
  lemma RunNext<C>(queries: seq<string>, answers: seq<Answer<C>>, i: nat)
    requires |queries| == |answers| && i < |queries|
    ensures Run(queries[..i + 1], answers[..i + 1]) == Record(Run(queries[..i], answers[..i]), queries[i], answers[i])
  {
    assert queries[..i + 1][..i] == queries[..i];
    assert answers[..i + 1][..i] == answers[..i];
  }

  /**
   * Every row the map later draws can be looked up: its bucket has a colour
   * and its display name has an entry in `loc_conv`.
   */
  lemma RowsHaveLookups<C>(queries: seq<string>, answers: seq<Answer<C>>)
    requires |queries| == |answers|
    ensures forall p :: p in Run(queries, answers).latLon ==>
      p.bucket in ColorChart && p.displayName in Run(queries, answers).locConv
  {
    RunRows(queries, answers);
    RunLocConv(queries, answers);
    forall p | p in Run(queries, answers).latLon ensures p.displayName in Run(queries, answers).locConv {
      var i :| 0 <= i < |answers| && answers[i] == Found(p.displayName, p.coords);
      assert ResolvesTo(answers, i, p.displayName);
    }
  }

  /** One pass of the loop body of `get_coords`: record one query and its answer. */
  method RecordAnswer<C>(latLon: seq<Placemark<C>>, locConv: map<string, string>, success: seq<string>, failed: seq<string>,
                         query: string, answer: Answer<C>)
    returns (latLon': seq<Placemark<C>>, locConv': map<string, string>, success': seq<string>, failed': seq<string>)
    ensures Report(latLon', locConv', success', failed') == Record(Report(latLon, locConv, success, failed), query, answer)
  {
    latLon', locConv', success', failed' := latLon, locConv, success, failed;
    var loc := query;
    match answer {
      case Found(name, coords) =>
        locConv' := locConv'[name := loc];
        loc := name;
        latLon' := latLon' + [Placemark(name, coords, Classify(name))];
        success' := success' + [loc];
      case NoMatch =>
        failed' := failed' + [loc];
      case Timeout =>
    }
  }

  /**
   * The loop of `get_coords`. Alongside the classified rows and the display
   * name to query map it returns the success and failure lists it reports.
   */
  method GetCoords<C>(locations: seq<string>, answers: seq<Answer<C>>)
    returns (latLon: seq<Placemark<C>>, locConv: map<string, string>, success: seq<string>, failed: seq<string>)
    requires |answers| == |locations|
    ensures Report(latLon, locConv, success, failed) == Run(locations, answers)
    ensures |latLon| == |success| && |latLon| + |failed| <= |locations|
    ensures forall p :: p in latLon ==> p.bucket in ColorChart && p.displayName in locConv
  {
    latLon, locConv, success, failed := [], map[], [], [];
    var i := 0;
    while i < |locations|
      invariant 0 <= i <= |locations|
      invariant Report(latLon, locConv, success, failed) == Run(locations[..i], answers[..i])
    {
      latLon, locConv, success, failed := RecordAnswer(latLon, locConv, success, failed, locations[i], answers[i]);
      RunNext(locations, answers, i);
      i := i + 1;
    }
    assert locations[..i] == locations && answers[..i] == answers;
    assert |latLon| == |success| && |latLon| + |failed| <= |locations| by {
      RunAccounting(locations, answers);
    }
    assert forall p :: p in latLon ==> p.bucket in ColorChart && p.displayName in locConv by {
      RowsHaveLookups(locations, answers);
    }
  }
}
