/**
 * The administrative-level classification of a Nominatim display name
 * (`get_coords`), the bucket colour chart and legend, and the marker size
 * (`map_coords`).
 */
module Buckets {
  import opened Text

  /** The bucket for a display name with 1..6 comma parts, indexed by part count - 1. */
  const Sizes: seq<string> := ["Land", "Bundesland", "Ort", "Bezirk", "Stadtteil", "Bezirksteil"]

  /** A first part containing this, after lower-casing, names a street. */
  const StreetMarker: string := "straße"

  /** The colour of each bucket on the map. */
  const ColorChart: map<string, string> := map[
    "Land" := "#ff0000", "Bundesland" := "#00ff00", "Ort" := "#0000ff", "Bezirk" := "#ff00ff",
    "Stadtteil" := "#ffff00", "Bezirksteil" := "#00ffff", "Postleitzahl" := "#999900",
    "Addresse" := "#000000", "Straße" := "#990099", "Standort" := "#ff9900"]

  /** The legend's labels and colours, listed side by side. */
  const LegendLabels: seq<string> := Sizes + ["Postleitzahl", "Addresse", "Straße", "Standort"]
  const LegendColors: seq<string> := [
    "#ff0000", "#00ff00", "#0000ff", "#ff00ff", "#ffff00", "#00ffff", "#999900", "#000000", "#990099", "#ff9900"]

  /** The frequencies the size legend shows. */
  const LegendFrequencies: seq<int> := [1, 2, 4, 8, 16]

  /**
   * The bucket of a geocoding result, from the comma parts of its display
   * name: up to six parts pick by count (three parts look for a postcode in the
   * second part), more parts look at the first part for a house number or a
   * street. Every bucket has a colour, so the colour lookup cannot fail.
   */
  function Classify(displayName: string): (bucket: string)
    ensures bucket in ColorChart
  {
    BucketOfParts(Split(displayName, ','))
  }

  /** The classification on the parts of a display name (a split yields at least one part). */
  function BucketOfParts(parts: seq<string>): (bucket: string)
    requires |parts| >= 1
    ensures bucket in ColorChart
  {
    if |parts| <= 6 then
      if |parts| == 3 then
        if HasDigit(parts[1]) then "Postleitzahl" else "Ort"
      else
        Sizes[|parts| - 1]
    else if HasDigit(parts[0]) then "Addresse"
    else if Contains(Lower(parts[0]), StreetMarker) then "Straße"
    else "Standort"
  }

  /** A display name of three parts is a postcode area exactly when its middle part holds a digit. */
  lemma ClassifyThreeParts(a: string, b: string, c: string)
    requires ',' !in a && ',' !in b && ',' !in c
    ensures Classify(a + "," + b + "," + c) == (if HasDigit(b) then "Postleitzahl" else "Ort")
  {
    var parts := [a, b, c];
    assert parts[1..] == [b, c] && parts[1..][1..] == [c];
    assert Join([b, c], ',') == b + [','] + c;
    assert Join(parts, ',') == a + [','] + (b + [','] + c);
    assert a + [','] + (b + [','] + c) == a + "," + b + "," + c;
    SplitOfJoin(parts, ',');
  }

  /** One, two, four, five or six parts choose the bucket by their count alone. */
  lemma ClassifyByPartCount(parts: seq<string>)
    requires 1 <= |parts| <= 6 && |parts| != 3
    requires FieldFree(parts, ',')
    ensures Classify(Join(parts, ',')) == Sizes[|parts| - 1]
  {
    SplitOfJoin(parts, ',');
  }

  /**
   * More than six parts: a digit in the first part means an address, else a
   * first part containing "straße" after lower-casing means a street, else a
   * generic place.
   */
  lemma ClassifyManyParts(parts: seq<string>)
    requires |parts| > 6
    requires FieldFree(parts, ',')
    ensures Classify(Join(parts, ',')) ==
      if HasDigit(parts[0]) then "Addresse"
      else if Contains(Lower(parts[0]), StreetMarker) then "Straße"
      else "Standort"
  {
    SplitOfJoin(parts, ',');
    assert Classify(Join(parts, ',')) == BucketOfParts(parts);
  }

  /** Worked example: two parts name a federal state. */
  lemma ClassifyExampleState()
    ensures Classify("Berlin, Deutschland") == "Bundesland"
  {
    var a, b := "Berlin", " Deutschland";
    var parts := [a, b];
    assert parts[1..] == [b];
    assert Join(parts, ',') == a + [','] + b;
    assert a + [','] + b == "Berlin, Deutschland";
    ClassifyByPartCount(parts);
  }

  /** Worked example: three parts without a digit in the middle name a town. */
  lemma ClassifyExampleTown()
    ensures Classify("10117, Berlin, Deutschland") == "Ort"
  {
    var middle := " Berlin";
    assert !HasDigit(middle) by {
      forall i | 0 <= i < |middle| ensures !IsDigit(middle[i]) {
        assert middle[i] in {' ', 'B', 'e', 'r', 'l', 'i', 'n'};
      }
    }
    assert "10117" + "," + middle + "," + " Deutschland" == "10117, Berlin, Deutschland";
    ClassifyThreeParts("10117", middle, " Deutschland");
  }

  /** Worked example: three parts with a digit in the middle name a postcode area. */
  lemma ClassifyExamplePostcode()
    ensures Classify("Mitte, 10117, Deutschland") == "Postleitzahl"
  {
    var middle := " 10117";
    assert HasDigit(middle) by {
      assert IsDigit(middle[1]);
    }
    assert "Mitte" + "," + middle + "," + " Deutschland" == "Mitte, 10117, Deutschland";
    ClassifyThreeParts("Mitte", middle, " Deutschland");
  }

  /**
   * Four parts name a district whatever the parts hold, so a street address
   * such as "Hauptstraße 5, 10117, Berlin, Deutschland" is a district too.
   */
  lemma ClassifyFourParts(a: string, b: string, c: string, d: string)
    requires ',' !in a && ',' !in b && ',' !in c && ',' !in d
    ensures Classify(a + "," + b + "," + c + "," + d) == "Bezirk"
  {
    var parts := [a, b, c, d];
    assert parts[1..] == [b, c, d] && parts[1..][1..] == [c, d] && parts[1..][1..][1..] == [d];
    assert Join([c, d], ',') == c + [','] + d;
    assert Join([b, c, d], ',') == b + [','] + (c + [','] + d);
    assert Join(parts, ',') == a + [','] + (b + [','] + (c + [','] + d));
    assert a + [','] + (b + [','] + (c + [','] + d)) == a + "," + b + "," + c + "," + d;
    ClassifyByPartCount(parts);
  }

  /** The legend pairs every bucket with the colour the chart gives it, and lists every bucket. */
  lemma LegendMatchesColorChart()
    ensures |LegendLabels| == |LegendColors|
    ensures forall i :: 0 <= i < |LegendLabels| ==>
      LegendLabels[i] in ColorChart && ColorChart[LegendLabels[i]] == LegendColors[i]
    ensures forall b :: b in ColorChart ==> b in LegendLabels
  {
    assert LegendLabels[0] == "Land" && ColorChart["Land"] == LegendColors[0];
    assert LegendLabels[1] == "Bundesland" && ColorChart["Bundesland"] == LegendColors[1];
    assert LegendLabels[2] == "Ort" && ColorChart["Ort"] == LegendColors[2];
    assert LegendLabels[3] == "Bezirk" && ColorChart["Bezirk"] == LegendColors[3];
    assert LegendLabels[4] == "Stadtteil" && ColorChart["Stadtteil"] == LegendColors[4];
    assert LegendLabels[5] == "Bezirksteil" && ColorChart["Bezirksteil"] == LegendColors[5];
    assert LegendLabels[6] == "Postleitzahl" && ColorChart["Postleitzahl"] == LegendColors[6];
    assert LegendLabels[7] == "Addresse" && ColorChart["Addresse"] == LegendColors[7];
    assert LegendLabels[8] == "Straße" && ColorChart["Straße"] == LegendColors[8];
    assert LegendLabels[9] == "Standort" && ColorChart["Standort"] == LegendColors[9];
  }

  /**
   * The marker area of a location mentioned `mentions` times: five for a single
   * mention and five more per further mention.
   */
  function MarkerSize(mentions: int): (size: int)
    ensures size == 5 * mentions
    ensures mentions >= 1 ==> size >= 5
  {
    5 + (mentions - 1) * 5
  }

  /**
   * The marker sizes of the size legend, one per legend frequency. Each is the
   * size a location mentioned that many times gets on the map, so the legend
   * grows from left to right as the frequencies do.
   */
  function LegendSizes(): (sizes: seq<int>)
    ensures |sizes| == |LegendFrequencies|
    ensures forall i :: 0 <= i < |sizes| ==> sizes[i] == MarkerSize(LegendFrequencies[i])
    ensures forall i, j :: 0 <= i < j < |sizes| ==> sizes[i] < sizes[j]
  {
    seq(|LegendFrequencies|, i requires 0 <= i < |LegendFrequencies| => 5 + (LegendFrequencies[i] - 1) * 5)
  }

  /** More mentions give a strictly larger marker. */
  lemma MarkerSizeStrictlyIncreasing(m: int, n: int)
    requires m < n
    ensures MarkerSize(m) < MarkerSize(n)
  {
  }
}
