/**
 * Styling of one region of the choropleth map: the colour ladder
 * `getColor` and the popup text bound to each region.
 */
module Choropleth {
  import opened Wrappers

  /** The eight fill colours, from the lowest bucket to the highest. */
  const Palette: seq<string> :=
    ["#FFEDA0", "#FED976", "#FEB24C", "#FD8D3C", "#FC4E2A", "#E31A1C", "#BD0026", "#800026"]

  /** The seven lower bounds of the ladder, ascending; each is exclusive. */
  const Thresholds: seq<real> := [10.0, 20.0, 50.0, 100.0, 200.0, 500.0, 1000.0]

  /** `getColor(value)`: the first test `value > t` that succeeds, from the
      top of the ladder down. A missing value or `NaN` fails every
      comparison and falls through to the last colour. */
  function Color(value: Option<real>): string {
    if value.None? then "#FFEDA0"
    else
      var v := value.value;
      if v > 1000.0 then "#800026"
      else if v > 500.0 then "#BD0026"
      else if v > 200.0 then "#E31A1C"
      else if v > 100.0 then "#FC4E2A"
      else if v > 50.0 then "#FD8D3C"
      else if v > 20.0 then "#FEB24C"
      else if v > 10.0 then "#FED976"
      else "#FFEDA0"
  }

  /** How many of the thresholds `ts` the value strictly exceeds. */
  function Exceeded(v: real, ts: seq<real>): (n: nat)
    ensures n <= |ts|
  {
    if ts == [] then 0 else (if v > ts[0] then 1 else 0) + Exceeded(v, ts[1..])
  }

  /** The bucket of a value: the number of thresholds it exceeds, so a
      missing value is in bucket 0. */
  function Rank(value: Option<real>): (b: nat)
    ensures b < |Palette|
  {
    if value.None? then 0 else Exceeded(value.value, Thresholds)
  }

  /** The ladder is exactly "take the colour of the bucket": the nested
      conditional agrees with the count of thresholds exceeded. */
  lemma ColorIsBucketColor(value: Option<real>)
    ensures Color(value) == Palette[Rank(value)]
  {
    if value.Some? {
      var v := value.value;
      var t7: seq<real> := [1000.0];
      var t6 := [500.0] + t7;
      var t5 := [200.0] + t6;
      var t4 := [100.0] + t5;
      var t3 := [50.0] + t4;
      var t2 := [20.0] + t3;
      var t1 := [10.0] + t2;
      assert t1 == Thresholds;
      assert Exceeded(v, t7) == (if v > 1000.0 then 1 else 0) by { assert t7[1..] == []; }
      assert Exceeded(v, t6) == (if v > 500.0 then 1 else 0) + Exceeded(v, t7) by { assert t6[1..] == t7; }
      assert Exceeded(v, t5) == (if v > 200.0 then 1 else 0) + Exceeded(v, t6) by { assert t5[1..] == t6; }
      assert Exceeded(v, t4) == (if v > 100.0 then 1 else 0) + Exceeded(v, t5) by { assert t4[1..] == t5; }
      assert Exceeded(v, t3) == (if v > 50.0 then 1 else 0) + Exceeded(v, t4) by { assert t3[1..] == t4; }
      assert Exceeded(v, t2) == (if v > 20.0 then 1 else 0) + Exceeded(v, t3) by { assert t2[1..] == t3; }
      assert Exceeded(v, t1) == (if v > 10.0 then 1 else 0) + Exceeded(v, t2) by { assert t1[1..] == t2; }
    }
  }

  /** "Exactly one of eight": the colour is a palette entry, and the
      palette entries are pairwise distinct, so the bucket is determined by
      the colour. */
  lemma ColorInPalette(value: Option<real>)
    ensures Color(value) in Palette
    ensures forall i, j :: 0 <= i < j < |Palette| ==> Palette[i] != Palette[j]
  {
    ColorIsBucketColor(value);
  }

  /** Exceeding thresholds is monotone in the value. */
  lemma {:induction false} ExceededMonotone(a: real, b: real, ts: seq<real>)
    requires a <= b
    ensures Exceeded(a, ts) <= Exceeded(b, ts)
    decreases |ts|
  {
    if ts != [] {
      ExceededMonotone(a, b, ts[1..]);
    }
  }

  /** `getColor` is monotone: a larger value never gets a lower bucket, and
      a missing value gets the lowest. */
  lemma ColorMonotone(a: Option<real>, b: Option<real>)
    requires a.None? || (b.Some? && a.value <= b.value)
    ensures Rank(a) <= Rank(b)
    ensures Color(a) == Palette[Rank(a)] && Color(b) == Palette[Rank(b)]
  {
    ColorIsBucketColor(a);
    ColorIsBucketColor(b);
    if a.Some? {
      ExceededMonotone(a.value, b.value, Thresholds);
    }
  }

  /** The boundaries are exclusive: 1000 is not above 1000, and everything
      up to 10, negatives included, shares the lowest colour with a missing
      value. */
  lemma ColorBoundaries(v: real)
    ensures v > 1000.0 <==> Color(Some(v)) == "#800026"
    ensures Color(Some(1000.0)) == "#BD0026"
    ensures v <= 10.0 <==> Color(Some(v)) == "#FFEDA0"
    ensures Color(None) == "#FFEDA0"
  {
  }

  /** The metric table a region's value is looked up in: region name to
      the parsed value, where `None` is a stored `NaN`. */
  type MetricTable = map<string, Option<real>>

  /** `metricData[feature.properties.name]`: `undefined` for an absent
      region, otherwise the stored value. */
  function Lookup(table: MetricTable, region: string): Option<real> {
    if region in table then table[region] else None
  }

  /** The style object returned for a region's feature. */
  datatype Style = Style(fillColor: string, weight: int, opacity: real,
                         color: string, dashArray: string, fillOpacity: real)

  /** The style callback: only the fill colour depends on the data. */
  function RegionStyle(table: MetricTable, region: string): Style {
    Style(Color(Lookup(table, region)), 2, 1.0, "white", "3", 0.7)
  }

  /** A region without an entry is styled exactly like one whose value is
      at most 10: there is no separate "no data" style. */
  lemma AbsentRegionLooksLow(table: MetricTable, region: string, other: string, low: real)
    requires region !in table && other in table && table[other] == Some(low) && low <= 10.0
    ensures RegionStyle(table, region) == RegionStyle(table, other)
    ensures RegionStyle(table, region).fillColor == Palette[0]
  {
  }

  /** Two regions get the same style exactly when their values fall in the
      same bucket. */
  lemma SameStyleSameBucket(table: MetricTable, a: string, b: string)
    ensures RegionStyle(table, a) == RegionStyle(table, b) <==>
            Rank(Lookup(table, a)) == Rank(Lookup(table, b))
  {
    ColorInPalette(Lookup(table, a));
    ColorIsBucketColor(Lookup(table, a));
    ColorIsBucketColor(Lookup(table, b));
  }

  /** JavaScript truthiness of a number or `undefined`: `0` and `NaN`
      (and `undefined`) are falsy. */
  predicate Truthy(value: Option<real>) {
    value.Some? && value.value != 0.0
  }

  /** The text after `Value: ` in the popup: `value || "No Data"`, where
      `show` is JavaScript's number-to-string conversion. */
  function ValueLabel(value: Option<real>, show: real -> string): string {
    if Truthy(value) then show(value.value) else "No Data"
  }

  /** The popup bound to a region: its name in bold, then the value label. */
  function Popup(region: string, value: Option<real>, show: real -> string): string {
    "<b>" + region + "</b><br>Value: " + ValueLabel(value, show)
  }

  /** The popup text for a region of the table. */
  function RegionPopup(table: MetricTable, region: string, show: real -> string): string {
    Popup(region, Lookup(table, region), show)
  }

  /** "No Data" is shown exactly for a missing value, `NaN` and zero (given
      that no number prints as "No Data"); any other value is shown as
      itself. The popup is the same as for an absent value exactly then. */
  lemma NoDataExactly(region: string, value: Option<real>, show: real -> string)
    requires forall x :: show(x) != "No Data"
    ensures ValueLabel(value, show) == "No Data" <==> !Truthy(value)
    ensures Truthy(value) ==> ValueLabel(value, show) == show(value.value)
    ensures Popup(region, value, show) == Popup(region, None, show) <==> !Truthy(value)
  {
    var head := "<b>" + region + "</b><br>Value: ";
    var shown := ValueLabel(value, show);
    if Popup(region, value, show) == Popup(region, None, show) {
      assert (head + shown)[|head|..] == shown;
      assert (head + "No Data")[|head|..] == "No Data";
    }
  }

  /** A stored zero, a stored `NaN` and an absent region give the same
      popup. */
  lemma ZeroNaNAndAbsentAlike(table: MetricTable, region: string, show: real -> string)
    requires region !in table
    ensures RegionPopup(table[region := Some(0.0)], region, show)
         == RegionPopup(table[region := None], region, show)
         == RegionPopup(table, region, show)
  {
  }

  /** Whenever the popup says "No Data", the region is painted with the
      lowest colour; the converse fails for low non-zero values. */
  lemma NoDataPaintedLowest(table: MetricTable, region: string, show: real -> string)
    requires !Truthy(Lookup(table, region))
    ensures RegionStyle(table, region).fillColor == Palette[0]
  {
  }
}
