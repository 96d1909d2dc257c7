/** Trip and activity extraction (src/Extractor.py): the episode table is
    split by its MODES label, and relax_trip scans the trip rows for points
    closer than 5 to the last retained one. */
module Extractor {
  import opened Common
  import opened ModeDetection
  import opened StageDetection

  /** A row of a filtered frame together with its pandas index label; a
      boolean filter keeps the labels of the frame it filters. */
  datatype Labelled = Labelled(index: nat, row: EpisodeRow)

  /** The episode table indexed 0..n-1, as the GeoDataFrame built by mode
      detection is. */
  function LabelRows(rows: seq<EpisodeRow>): (r: seq<Labelled>)
    ensures |r| == |rows|
    ensures forall i | 0 <= i < |r| :: r[i] == Labelled(i, rows[i])
  {
    seq(|rows|, i requires 0 <= i < |rows| => Labelled(i, rows[i]))
  }

  /** Minimum spacing, in the units of the distance function, between
      retained trip points. */
  const MinDist: real := 5.0

  predicate IsTripRow(l: Labelled) {
    l.row.modes == "Walk" || l.row.modes == "Drive"
  }

  predicate IsActivityRow(l: Labelled) {
    l.row.modes == "Stop"
  }

  /** extract_trip_segments: the rows labelled 'Walk' or 'Drive'. */
  function ExtractTripSegments(data: seq<Labelled>): (r: seq<Labelled>)
    ensures forall i | 0 <= i < |r| :: r[i] in data && (r[i].row.modes == "Walk" || r[i].row.modes == "Drive")
    ensures forall i | 0 <= i < |data| && (data[i].row.modes == "Walk" || data[i].row.modes == "Drive") ::
              data[i] in r
  {
    Filter(data, IsTripRow)
  }

  /** extract_activity_locations: the rows labelled 'Stop'. */
  function ExtractActivityLocations(data: seq<Labelled>): (r: seq<Labelled>)
    ensures forall i | 0 <= i < |r| :: r[i] in data && r[i].row.modes == "Stop"
    ensures forall i | 0 <= i < |data| && data[i].row.modes == "Stop" :: data[i] in r
  {
    Filter(data, IsActivityRow)
  }

  /** Both extractions keep input order: they distribute over
      concatenation. */
  lemma ExtractionsKeepOrder(a: seq<Labelled>, b: seq<Labelled>)
    ensures ExtractTripSegments(a + b) == ExtractTripSegments(a) + ExtractTripSegments(b)
    ensures ExtractActivityLocations(a + b) == ExtractActivityLocations(a) + ExtractActivityLocations(b)
  {
    FilterAppend(a, b, IsTripRow);
    FilterAppend(a, b, IsActivityRow);
  }

  /** Each extraction keeps or drops a single row by its mode label alone. */
  lemma ExtractionsOfOneRow(x: Labelled)
    ensures ExtractTripSegments([x]) == if x.row.modes in {"Walk", "Drive"} then [x] else []
    ensures ExtractActivityLocations([x]) == if x.row.modes == "Stop" then [x] else []
  {
    FilterSingleton(x, IsTripRow);
    FilterSingleton(x, IsActivityRow);
  }

  /** No row is both a trip row and an activity row. */
  lemma TripAndActivityDisjoint(data: seq<Labelled>)
    ensures forall i, j | 0 <= i < |ExtractTripSegments(data)| && 0 <= j < |ExtractActivityLocations(data)| ::
              ExtractTripSegments(data)[i] != ExtractActivityLocations(data)[j]
  {
  }

  /** The labels written by mode detection are lower case, so neither
      extraction ever selects any of its rows. */
  lemma {:induction false} LowerCaseLabelsSelectNothing(data: seq<Labelled>)
    requires forall i | 0 <= i < |data| :: data[i].row.modes in {"car", "walk", "stop"}
    ensures ExtractTripSegments(data) == [] && ExtractActivityLocations(data) == []
  {
    if data != [] {
      var init := data[..|data| - 1];
      LowerCaseLabelsSelectNothing(init);
      assert data == init + [data[|data| - 1]];
      ExtractionsKeepOrder(init, [data[|data| - 1]]);
      ExtractionsOfOneRow(data[|data| - 1]);
    }
  }

  /** Fed the episodes that detect_modes produces, both extractions are
      empty. */
  lemma DetectedEpisodesSelectNothing(data: seq<Fix>, dist: (Coord, Coord) -> real)
    requires Detect(data, dist).Success?
    ensures var table := LabelRows(Detect(data, dist).value);
      ExtractTripSegments(table) == [] && ExtractActivityLocations(table) == []
  {
    DetectRows(data, dist);
    LowerCaseLabelsSelectNothing(LabelRows(Detect(data, dist).value));
  }

  /** relax_trip as a recursive scan: the row labelled 1 becomes the anchor;
      the scan stops at the row whose label is the row count; any other row
      is dropped when it lies closer than MinDist to the anchor and becomes
      the anchor otherwise. Before label 1 is seen the anchor is the integer
      0, whose missing .distance aborts the scan. Returns the dropped labels
      and the retained points in order. */
  function RelaxFrom(trip: seq<Labelled>, i: nat, anchor: Option<Coord>,
                     dropped: seq<nat>, kept: seq<Coord>,
                     dist: (Coord, Coord) -> real): Result<(seq<nat>, seq<Coord>)>
    requires i <= |trip|
    decreases |trip| - i
  {
    if i == |trip| then Success((dropped, kept))
    else
      var l := trip[i];
      var p := l.row.geometry;
      if l.index == 1 then RelaxFrom(trip, i + 1, Some(p), dropped, kept + [p], dist)
      else if l.index == |trip| then Success((dropped, kept))
      else if anchor.None? then Failure(AnchorNotPoint)
      else if dist(anchor.value, p) < MinDist then RelaxFrom(trip, i + 1, anchor, dropped + [l.index], kept, dist)
      else RelaxFrom(trip, i + 1, Some(p), dropped, kept + [p], dist)
  }

  function Relax(trip: seq<Labelled>, dist: (Coord, Coord) -> real): Result<(seq<nat>, seq<Coord>)> {
    RelaxFrom(trip, 0, None, [], [], dist)
  }

  /** Labels of a filtered frame increase strictly. */
  predicate StrictlyIncreasingLabels(trip: seq<Labelled>) {
    forall i, j | 0 <= i < j < |trip| :: trip[i].index < trip[j].index
  }

  function Labels(trip: seq<Labelled>): set<nat> {
    set l | l in trip :: l.index
  }

  /** What a successful scan guarantees: consecutive retained points are at
      least MinDist apart, and the dropped labels are labels of the frame,
      never 1, in increasing order. */
  predicate RelaxGuarantee(trip: seq<Labelled>, dropped: seq<nat>, kept: seq<Coord>,
                           dist: (Coord, Coord) -> real)
  {
    && (forall k | 0 < k < |kept| :: dist(kept[k - 1], kept[k]) >= MinDist)
    && (forall k | 0 <= k < |dropped| :: dropped[k] != 1 && dropped[k] in Labels(trip))
    && (forall k, m | 0 <= k < m < |dropped| :: dropped[k] < dropped[m])
  }

  /** Scan invariant at row i: the guarantee so far, the anchor is the last
      retained point, once it exists no later row carries label 1, and every
      dropped label is below the labels still to come. */
  predicate RelaxState(trip: seq<Labelled>, i: nat, anchor: Option<Coord>,
                       dropped: seq<nat>, kept: seq<Coord>, dist: (Coord, Coord) -> real)
    requires i <= |trip|
  {
    && RelaxGuarantee(trip, dropped, kept, dist)
    && (anchor.None? <==> kept == [])
    && (anchor.Some? ==> anchor.value == kept[|kept| - 1])
    && (anchor.Some? ==> forall j | i <= j < |trip| :: trip[j].index > 1)
    && (forall k, j | 0 <= k < |dropped| && i <= j < |trip| :: dropped[k] < trip[j].index)
  }

  /** The first position at or after i where the scan breaks: a row not
      labelled 1 whose label is the row count. */
  function BreakAt(trip: seq<Labelled>, i: nat): (b: nat)
    requires i <= |trip|
    ensures i <= b <= |trip|
    ensures forall j | i <= j < b :: !(trip[j].index != 1 && trip[j].index == |trip|)
    ensures b < |trip| ==> trip[b].index != 1 && trip[b].index == |trip|
    decreases |trip| - i
  {
    if i == |trip| then i
    else if trip[i].index != 1 && trip[i].index == |trip| then i
    else BreakAt(trip, i + 1)
  }

  /** The geometries, in order, of the rows at positions lo..hi-1 that a
      scan with drop list `dropped` retains: the row labelled 1, and every
      row whose label was not dropped. */
  function KeptRows(trip: seq<Labelled>, lo: nat, hi: nat, dropped: seq<nat>): seq<Coord>
    requires lo <= hi <= |trip|
    decreases hi - lo
  {
    if lo == hi then []
    else (if trip[lo].index == 1 || trip[lo].index !in dropped then [trip[lo].row.geometry] else [])
         + KeptRows(trip, lo + 1, hi, dropped)
  }

  lemma {:induction false} RelaxFromGuarantee(trip: seq<Labelled>, i: nat, anchor: Option<Coord>,
                                              dropped: seq<nat>, kept: seq<Coord>,
                                              dist: (Coord, Coord) -> real)
    requires i <= |trip| && StrictlyIncreasingLabels(trip)
    requires RelaxState(trip, i, anchor, dropped, kept, dist)
    requires RelaxFrom(trip, i, anchor, dropped, kept, dist).Success?
    ensures var r := RelaxFrom(trip, i, anchor, dropped, kept, dist).value;
      RelaxGuarantee(trip, r.0, r.1, dist)
    ensures var r := RelaxFrom(trip, i, anchor, dropped, kept, dist).value;
      r.1 == kept + KeptRows(trip, i, BreakAt(trip, i), r.0)
    decreases |trip| - i
  {
    RelaxFromKept(trip, i, anchor, dropped, kept, dist);
    if i < |trip| {
      var l := trip[i];
      var p := l.row.geometry;
      assert l in trip;
      if l.index == 1 {
        RelaxFromGuarantee(trip, i + 1, Some(p), dropped, kept + [p], dist);
      } else if l.index == |trip| {
      } else if anchor.Some? && dist(anchor.value, p) < MinDist {
        RelaxFromGuarantee(trip, i + 1, anchor, dropped + [l.index], kept, dist);
      } else if anchor.Some? {
        RelaxFromGuarantee(trip, i + 1, Some(p), dropped, kept + [p], dist);
      }
    }
  }

  /** A successful scan from row i only appends to the drop list, and only
      labels of rows from i on. */
  lemma {:induction false} RelaxFromDrops(trip: seq<Labelled>, i: nat, anchor: Option<Coord>,
                                          dropped: seq<nat>, kept: seq<Coord>,
                                          dist: (Coord, Coord) -> real)
    requires i <= |trip| && StrictlyIncreasingLabels(trip)
    requires RelaxFrom(trip, i, anchor, dropped, kept, dist).Success?
    ensures var r := RelaxFrom(trip, i, anchor, dropped, kept, dist).value;
      && |dropped| <= |r.0| && r.0[..|dropped|] == dropped
      && (forall k | |dropped| <= k < |r.0| :: i < |trip| && trip[i].index <= r.0[k])
    decreases |trip| - i
  {
    if i < |trip| {
      var l := trip[i];
      var p := l.row.geometry;
      if l.index == 1 {
        RelaxFromDrops(trip, i + 1, Some(p), dropped, kept + [p], dist);
      } else if l.index == |trip| {
      } else if dist(anchor.value, p) < MinDist {
        RelaxFromDrops(trip, i + 1, anchor, dropped + [l.index], kept, dist);
      } else {
        RelaxFromDrops(trip, i + 1, Some(p), dropped, kept + [p], dist);
      }
    }
  }

  /** The points a successful scan retains from row i on are exactly the
      rows before the break that it did not drop. */
  lemma {:induction false} RelaxFromKept(trip: seq<Labelled>, i: nat, anchor: Option<Coord>,
                                         dropped: seq<nat>, kept: seq<Coord>,
                                         dist: (Coord, Coord) -> real)
    requires i <= |trip| && StrictlyIncreasingLabels(trip)
    requires forall k, j | 0 <= k < |dropped| && i <= j < |trip| :: dropped[k] < trip[j].index
    requires RelaxFrom(trip, i, anchor, dropped, kept, dist).Success?
    ensures var r := RelaxFrom(trip, i, anchor, dropped, kept, dist).value;
      r.1 == kept + KeptRows(trip, i, BreakAt(trip, i), r.0)
    decreases |trip| - i
  {
    if i < |trip| {
      var l := trip[i];
      var p := l.row.geometry;
      if l.index == 1 {
        RelaxFromKept(trip, i + 1, Some(p), dropped, kept + [p], dist);
        var r := RelaxFrom(trip, i + 1, Some(p), dropped, kept + [p], dist).value;
        KeptRowGlue(trip, i, r.0, kept, r.1);
      } else if l.index == |trip| {
      } else if dist(anchor.value, p) < MinDist {
        RelaxFromKept(trip, i + 1, anchor, dropped + [l.index], kept, dist);
        RelaxFromDrops(trip, i + 1, anchor, dropped + [l.index], kept, dist);
        var r := RelaxFrom(trip, i + 1, anchor, dropped + [l.index], kept, dist).value;
        assert r.0[|dropped|] == l.index;
        DroppedRowGlue(trip, i, r.0, kept, r.1);
      } else {
        RelaxFromKept(trip, i + 1, Some(p), dropped, kept + [p], dist);
        RelaxFromDrops(trip, i + 1, Some(p), dropped, kept + [p], dist);
        var r := RelaxFrom(trip, i + 1, Some(p), dropped, kept + [p], dist).value;
        assert l.index !in r.0 by {
          forall k | 0 <= k < |r.0| ensures r.0[k] != l.index {
            if k < |dropped| {
              assert r.0[k] == dropped[k];
            } else {
              assert trip[i + 1].index <= r.0[k];
            }
          }
        }
        KeptRowGlue(trip, i, r.0, kept, r.1);
      }
    }
  }

  /** A retained row before the break extends the retained points by one. */
  lemma KeptRowGlue(trip: seq<Labelled>, i: nat, dropped: seq<nat>, kept: seq<Coord>, out: seq<Coord>)
    requires i < |trip| && !(trip[i].index != 1 && trip[i].index == |trip|)
    requires trip[i].index == 1 || trip[i].index !in dropped
    requires out == kept + [trip[i].row.geometry] + KeptRows(trip, i + 1, BreakAt(trip, i + 1), dropped)
    ensures out == kept + KeptRows(trip, i, BreakAt(trip, i), dropped)
  {
    KeptRowsStep(trip, i, BreakAt(trip, i), dropped);
  }

  /** A dropped row before the break leaves the retained points as they are. */
  lemma DroppedRowGlue(trip: seq<Labelled>, i: nat, dropped: seq<nat>, kept: seq<Coord>, out: seq<Coord>)
    requires i < |trip| && trip[i].index != 1 && trip[i].index != |trip|
    requires trip[i].index in dropped
    requires out == kept + KeptRows(trip, i + 1, BreakAt(trip, i + 1), dropped)
    ensures out == kept + KeptRows(trip, i, BreakAt(trip, i), dropped)
  {
    KeptRowsStep(trip, i, BreakAt(trip, i), dropped);
  }

  /** One row off the front of KeptRows. */
  lemma KeptRowsStep(trip: seq<Labelled>, lo: nat, hi: nat, dropped: seq<nat>)
    requires lo < hi <= |trip|
    ensures KeptRows(trip, lo, hi, dropped) ==
      (if trip[lo].index == 1 || trip[lo].index !in dropped then [trip[lo].row.geometry] else [])
      + KeptRows(trip, lo + 1, hi, dropped)
  {
  }

  /** Once an anchor point exists the scan cannot fail. */
  lemma {:induction false} AnchoredNeverFails(trip: seq<Labelled>, i: nat, a: Coord,
                                              dropped: seq<nat>, kept: seq<Coord>,
                                              dist: (Coord, Coord) -> real)
    requires i <= |trip|
    ensures RelaxFrom(trip, i, Some(a), dropped, kept, dist).Success?
    decreases |trip| - i
  {
    if i < |trip| {
      var l := trip[i];
      var p := l.row.geometry;
      if l.index == 1 {
        AnchoredNeverFails(trip, i + 1, p, dropped, kept + [p], dist);
      } else if l.index == |trip| {
      } else if dist(a, p) < MinDist {
        AnchoredNeverFails(trip, i + 1, a, dropped + [l.index], kept, dist);
      } else {
        AnchoredNeverFails(trip, i + 1, p, dropped, kept + [p], dist);
      }
    }
  }

  /** relax_trip aborts exactly when the first trip row is neither the row
      labelled 1 nor the row whose label is the row count: the anchor is then
      still the integer 0. */
  lemma RelaxFailsIff(trip: seq<Labelled>, dist: (Coord, Coord) -> real)
    ensures Relax(trip, dist).Failure? <==> |trip| > 0 && trip[0].index != 1 && trip[0].index != |trip|
    ensures Relax(trip, dist).Failure? ==> Relax(trip, dist).error == AnchorNotPoint
  {
    if |trip| > 0 && trip[0].index == 1 {
      var p := trip[0].row.geometry;
      var none: seq<Coord> := [];
      AnchoredNeverFails(trip, 1, p, [], none + [p], dist);
    }
  }

  /** relax_trip's promise: the retained points, which are the rows before
      the break row that were not dropped, are at least MinDist apart, and
      the row labelled 1 is never dropped. */
  lemma RelaxSpacing(trip: seq<Labelled>, dist: (Coord, Coord) -> real)
    requires StrictlyIncreasingLabels(trip)
    requires Relax(trip, dist).Success?
    ensures var r := Relax(trip, dist).value;
      && (forall k | 0 < k < |r.1| :: dist(r.1[k - 1], r.1[k]) >= MinDist)
      && 1 !in r.0
      && (forall k | 0 <= k < |r.0| :: r.0[k] in Labels(trip))
      && r.1 == KeptRows(trip, 0, BreakAt(trip, 0), r.0)
  {
    RelaxFromGuarantee(trip, 0, None, [], [], dist);
    RelaxFromKept(trip, 0, None, [], [], dist);
  }

  /** A filter keeps strictly increasing labels strictly increasing. */
  lemma {:induction false} FilterKeepsLabelOrder(data: seq<Labelled>, p: Labelled -> bool)
    requires StrictlyIncreasingLabels(data)
    ensures StrictlyIncreasingLabels(Filter(data, p))
  {
    if data != [] {
      var init := data[..|data| - 1];
      FilterKeepsLabelOrder(init, p);
      forall i | 0 <= i < |Filter(init, p)|
        ensures Filter(init, p)[i].index < data[|data| - 1].index
      {
        var k :| 0 <= k < |init| && init[k] == Filter(init, p)[i];
        assert data[k] == init[k];
      }
    }
  }

  /** The extractor object: both filtered frames are computed once, when it
      is built from the episode table. */
  class Extractor {
    var tripSegments: seq<Labelled>
    var activityLocations: seq<Labelled>

    predicate Valid()
      reads this
    {
      StrictlyIncreasingLabels(tripSegments) && StrictlyIncreasingLabels(activityLocations)
    }

    constructor (episodeData: seq<EpisodeRow>)
      ensures Valid()
      ensures tripSegments == ExtractTripSegments(LabelRows(episodeData))
      ensures activityLocations == ExtractActivityLocations(LabelRows(episodeData))
    {
      FilterKeepsLabelOrder(LabelRows(episodeData), IsTripRow);
      FilterKeepsLabelOrder(LabelRows(episodeData), IsActivityRow);
      tripSegments := ExtractTripSegments(LabelRows(episodeData));
      activityLocations := ExtractActivityLocations(LabelRows(episodeData));
    }

    /** relax_trip. The pandas drop whose result the source discards leaves
        the object unchanged, so this method modifies nothing; it returns the
        labels the loop marks as dropped, or the failure of the scan. */
    method RelaxTrip(dist: (Coord, Coord) -> real) returns (r: Result<seq<nat>>)
      requires Valid()
      ensures r.Success? <==> Relax(tripSegments, dist).Success?
      ensures r.Failure? ==> r.error == AnchorNotPoint
      ensures r.Success? ==> r.value == Relax(tripSegments, dist).value.0
      ensures r.Success? ==> 1 !in r.value && forall k | 0 <= k < |r.value| :: r.value[k] in Labels(tripSegments)
    {
      var start: Option<Coord> := None;
      var dropped: seq<nat> := [];
      ghost var kept: seq<Coord> := [];
      var i := 0;
      while i < |tripSegments|
        invariant 0 <= i <= |tripSegments|
        invariant Relax(tripSegments, dist) == RelaxFrom(tripSegments, i, start, dropped, kept, dist)
      {
        var row := tripSegments[i];
        var point := row.row.geometry;
        if row.index == 1 {
          start := Some(point);
          kept := kept + [point];
          i := i + 1;
          continue;
        }
        if row.index == |tripSegments| {
          r := Success(dropped);
          RelaxSpacing(tripSegments, dist);
          return;
        }
        if start.None? {
          r := Failure(AnchorNotPoint);
          return;
        }
        if dist(start.value, point) < MinDist {
          dropped := dropped + [row.index];
        } else {
          start := Some(point);
          kept := kept + [point];
        }
        i := i + 1;
      }
      r := Success(dropped);
      RelaxSpacing(tripSegments, dist);
    }
  }
}
