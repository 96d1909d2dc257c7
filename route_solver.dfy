/** Map matching, gap filling and route assembly (src/route_solver.py).
    The points of a trip are matched to their nearest network edge, the edge
    ids are smoothed by street name, gaps between consecutive matched points
    are filled with shortest paths, and the points and fills are spliced
    into one coordinate list. The osmnx and shapely queries are the fields
    of a `Network` value. */
module RouteSolver {
  import opened Common

  /** A street name. The code only compares names with each other, so a
      number stands for each distinct name. */
  type StreetName = int

  /** A trip point: SerialID, RecordID and geometry. */
  datatype TripPoint = TripPoint(serialId: int, recordId: int, geometry: Coord)

  /** A row of map_point_to_network's output: SerialID, RecordID,
      nearEdgeID, nearEdgeName, nearLeg (a segment of the edge) and the
      matched geometry. */
  datatype MatchedPoint = MatchedPoint(serialId: int, recordId: int, edgeId: int,
                                       edgeName: StreetName, leg: (Coord, Coord), geometry: Coord)

  /** A row of the filled-gaps frame: SerialID and OrigPointRecordID of the
      gap's origin point, EdgesGapPassed (kept as a set: every use of it
      takes set() of it), and the fill line. */
  datatype Gap = Gap(serialId: int, origRecordId: int, edges: set<int>, line: seq<Coord>)

  /** A row of route_choice_gen's output. */
  datatype Route = Route(serialId: int, edges: set<int>, line: seq<Coord>)

  /** The queries the code makes of osmnx and shapely. */
  datatype Network = Network(
    nearestEdge: Coord -> int,                        // ox.distance.nearest_edges
    edgeName: int -> StreetName,                      // network_pe.loc[e]['name']
    edgeCoords: int -> seq<Coord>,                    // list(network_pe.loc[e]['geometry'].coords)
    edgeDistance: (int, int) -> real,                 // distance between two edge geometries
    nearestNode: Coord -> int,                        // ox.distance.nearest_nodes
    shortestPath: (int, int) -> Option<seq<int>>,     // ox.distance.shortest_path (None: unreachable)
    nodeCoord: int -> Coord,                          // network_pn.loc[n]['geometry']
    pointDistance: (Coord, Coord) -> real,            // Point.distance(Point)
    segmentDistance: (Coord, Coord, Coord) -> real,   // LineString([a, b]).distance(p)
    projectOnSegment: (Coord, Coord, Coord) -> Coord, // l.interpolate(l.project(p)), l = [a, b]
    lineDistance: (seq<Coord>, Coord) -> real)        // LineString(cs).distance(p)

  /** What the code relies on from the network: every edge geometry is a
      LineString (two coordinates or more) and a path that exists visits at
      least its start node. */
  ghost predicate WellFormed(net: Network) {
    && (forall e :: |net.edgeCoords(e)| >= 2)
    && (forall a, b :: net.shortestPath(a, b).Some? ==> |net.shortestPath(a, b).value| >= 1)
  }

  // ---------------------------------------------------------------------
  // Frame labels
  // ---------------------------------------------------------------------

  /** The index of a frame built from lists: 0, 1, ..., n-1. */
  function Range(n: nat): (r: seq<int>)
    ensures |r| == n && forall k | 0 <= k < n :: r[k] == k
  {
    seq(n, k => k)
  }

  lemma RangeLabelPos(n: nat, k: int)
    ensures LabelPos(Range(n), k) == if 0 <= k < n then Some(k) else None
  {
    if 0 <= k < n {
      assert Range(n)[k] == k;
    }
  }

  /** The geometry `points['geometry'][k]` of the row labelled k. */
  function AtLabel(points: seq<TripPoint>, labels: seq<int>, k: int): Coord
    requires |labels| == |points| && LabelPos(labels, k).Some?
  {
    points[LabelPos(labels, k).value].geometry
  }

  // ---------------------------------------------------------------------
  // map_point_to_network: the edge rewrite
  // ---------------------------------------------------------------------

  /** Position i lies between two points of one street that is not its own
      street as seen from the next point: it takes the previous edge. */
  predicate InteriorRule(net: Network, r: seq<int>, i: int)
    requires 0 <= i < |r|
  {
    1 <= i < |r| - 1 && net.edgeName(r[i - 1]) == net.edgeName(r[i + 1])
    && net.edgeName(r[i]) != net.edgeName(r[i + 1])
  }

  /** The last position is on another street than the one before, but the
      two edges are within 10 of each other: it takes the previous edge.
      (For a single point the source compares the edge with itself, which
      never fires; hence i >= 1.) */
  predicate TerminalRule(net: Network, r: seq<int>, i: int)
    requires 0 <= i < |r|
  {
    i == |r| - 1 && i >= 1 && net.edgeName(r[i]) != net.edgeName(r[i - 1])
    && net.edgeDistance(r[i], r[i - 1]) <= 10.0
  }

  /** The edge that step i of the second loop leaves at position i, given
      the list as steps 0..i-1 left it. `terminal` says whether the
      last-point rule is in force (it is in route_solver.py, not in
      RouteSolver.py). */
  function EdgeAt(net: Network, r: seq<int>, i: int, terminal: bool): int
    requires 0 <= i < |r|
  {
    if InteriorRule(net, r, i) then r[i - 1]
    else if terminal && TerminalRule(net, r, i) then r[i - 1]
    else r[i]
  }

  /** The edge list after steps 0..k-1 rewrote it in place, left to right. */
  function Reassigned(net: Network, e: seq<int>, k: int, terminal: bool): (r: seq<int>)
    requires 0 <= k <= |e|
    ensures |r| == |e|
    ensures forall j | k <= j < |e| :: r[j] == e[j]
  {
    if k == 0 then e
    else
      var p := Reassigned(net, e, k - 1, terminal);
      p[k - 1 := EdgeAt(net, p, k - 1, terminal)]
  }

  /** Once step j has run, position j keeps its value. */
  lemma {:induction false} ReassignedStable(net: Network, e: seq<int>, j: int, k: int, terminal: bool)
    requires 0 <= j < k <= |e|
    ensures Reassigned(net, e, k, terminal)[j] == Reassigned(net, e, j + 1, terminal)[j]
    decreases k
  {
    if k > j + 1 {
      ReassignedStable(net, e, j, k - 1, terminal);
    }
  }

  /** The final edge list in terms of the nearest edges e: the first stays;
      an interior edge is replaced by its (already final) predecessor when
      that predecessor's street is the next point's street and its own is
      not; the last one is replaced under the 10-unit rule when it is in
      force. */
  lemma FinalEdges(net: Network, e: seq<int>, terminal: bool)
    requires |e| > 0
    ensures var r := Reassigned(net, e, |e|, terminal); var n := |e|;
      && r[0] == e[0]
      && (forall i | 1 <= i < n - 1 ::
            r[i] == if net.edgeName(r[i - 1]) == net.edgeName(e[i + 1])
                       && net.edgeName(e[i]) != net.edgeName(e[i + 1]) then r[i - 1] else e[i])
      && (n >= 2 ==> r[n - 1] == if terminal && net.edgeName(e[n - 1]) != net.edgeName(r[n - 2])
                                    && net.edgeDistance(e[n - 1], r[n - 2]) <= 10.0
                                 then r[n - 2] else e[n - 1])
  {
    var n := |e|;
    var r := Reassigned(net, e, n, terminal);
    forall i | 0 <= i < n
      ensures r[i] == EdgeAt(net, Reassigned(net, e, i, terminal), i, terminal)
      ensures i >= 1 ==> r[i - 1] == Reassigned(net, e, i, terminal)[i - 1]
    {
      ReassignedStable(net, e, i, n, terminal);
      if i >= 1 {
        ReassignedStable(net, e, i - 1, n, terminal);
        ReassignedStable(net, e, i - 1, i, terminal);
      }
    }
  }

  /** After the rewrite no interior point is left on a street of its own
      between two points that share one. */
  lemma NoIsolatedStreet(net: Network, e: seq<int>, terminal: bool, i: int)
    requires 1 <= i < |e| - 1
    ensures var r := Reassigned(net, e, |e|, terminal);
      net.edgeName(r[i - 1]) == net.edgeName(r[i + 1]) ==> net.edgeName(r[i]) == net.edgeName(r[i - 1])
  {
    FinalEdges(net, e, terminal);
  }

  // ---------------------------------------------------------------------
  // map_point_to_network: the leg scan
  // ---------------------------------------------------------------------

  /** Every label the leg scan of a point at position i on an edge with
      these coordinates looks up: i itself, then (the inner loop rebinding
      i) every leg index 1..|coords|-2. */
  predicate ScanLabelsPresent(labels: seq<int>, i: int, coords: seq<Coord>) {
    LabelPos(labels, i).Some? && forall k | 1 <= k < |coords| - 1 :: LabelPos(labels, k).Some?
  }

  /** Whether leg k is nearer to the geometry labelled k than the first leg
      was to the point being matched. */
  predicate Closer(net: Network, coords: seq<Coord>, points: seq<TripPoint>, labels: seq<int>,
                   d0: real, k: int)
    requires 0 <= k < |coords| - 1 && |labels| == |points| && LabelPos(labels, k).Some?
  {
    net.segmentDistance(coords[k], coords[k + 1], AtLabel(points, labels, k)) < d0
  }

  /** The leg the scan over legs 1..upto-1 ends with. near_leg_dist is
      never updated, so this is the last leg that is Closer, or leg 0 when
      none is. */
  function ChosenLeg(net: Network, coords: seq<Coord>, points: seq<TripPoint>, labels: seq<int>,
                     d0: real, upto: int): (c: int)
    requires 1 <= upto <= |coords| - 1 && |labels| == |points|
    requires forall k | 1 <= k < upto :: LabelPos(labels, k).Some?
    ensures c == 0 || (1 <= c < upto && Closer(net, coords, points, labels, d0, c))
    ensures forall k | c < k < upto && k >= 1 :: !Closer(net, coords, points, labels, d0, k)
    decreases upto
  {
    if upto == 1 then 0
    else if Closer(net, coords, points, labels, d0, upto - 1) then upto - 1
    else ChosenLeg(net, coords, points, labels, d0, upto - 1)
  }

  /** The leg map_point_to_network keeps for the point at position i on an
      edge with these coordinates: the scan over legs 1.. measured against
      the distance from leg 0 to the point labelled i. */
  function LegFor(net: Network, coords: seq<Coord>, points: seq<TripPoint>, labels: seq<int>, i: int): (c: int)
    requires |coords| >= 2 && |labels| == |points| && ScanLabelsPresent(labels, i, coords)
    ensures 0 <= c < |coords| - 1
  {
    ChosenLeg(net, coords, points, labels,
              net.segmentDistance(coords[0], coords[1], AtLabel(points, labels, i)), |coords| - 1)
  }

  /** The position of the point that gets projected: the inner loop leaves
      i at the last leg index when it runs at all. */
  function ProjectedPos(coords: seq<Coord>, i: int): int {
    if |coords| >= 3 then |coords| - 2 else i
  }

  /** The output row for the point at position i on final edge `edge`, or
      MissingLabel when a lookup fails: a label of ScanLabelsPresent, or
      the positional list(points['geometry'])[i] where i is, for an edge of
      three or more coordinates, the last leg index |coords| - 2. */
  function MatchRow(net: Network, points: seq<TripPoint>, labels: seq<int>, i: int, edge: int)
    : (r: Result<MatchedPoint>)
    requires WellFormed(net) && |labels| == |points| && 0 <= i < |points|
    ensures r.Failure? ==> r.error == MissingLabel
    ensures r.Success? <==> ScanLabelsPresent(labels, i, net.edgeCoords(edge))
                            && |net.edgeCoords(edge)| - 2 < |points|
    ensures r.Success? ==>
      var m := r.value; var coords := net.edgeCoords(edge);
      && m.serialId == points[i].serialId && m.recordId == points[i].recordId
      && m.edgeId == edge && m.edgeName == net.edgeName(edge)
      && m.leg == (coords[LegFor(net, coords, points, labels, i)], coords[LegFor(net, coords, points, labels, i) + 1])
      && ProjectedPos(coords, i) < |points|
      && m.geometry == net.projectOnSegment(m.leg.0, m.leg.1, points[ProjectedPos(coords, i)].geometry)
  {
    var coords := net.edgeCoords(edge);
    if !ScanLabelsPresent(labels, i, coords) then Failure(MissingLabel)
    else
      var c := LegFor(net, coords, points, labels, i);
      var projected := ProjectedPos(coords, i);
      if projected >= |points| then Failure(MissingLabel)
      else
        Success(MatchedPoint(points[i].serialId, points[i].recordId, edge, net.edgeName(edge),
                             (coords[c], coords[c + 1]),
                             net.projectOnSegment(coords[c], coords[c + 1], points[projected].geometry)))
  }

  /** Row m, for the point at position i, lies on the leg the scan keeps on
      its edge, at the projection of the point at ProjectedPos. */
  predicate RowOnScannedLeg(net: Network, points: seq<TripPoint>, labels: seq<int>, i: int, m: MatchedPoint)
    requires WellFormed(net) && |labels| == |points|
  {
    var coords := net.edgeCoords(m.edgeId);
    && ScanLabelsPresent(labels, i, coords)
    && m.leg == (coords[LegFor(net, coords, points, labels, i)], coords[LegFor(net, coords, points, labels, i) + 1])
    && 0 <= ProjectedPos(coords, i) < |points|
    && m.geometry == net.projectOnSegment(m.leg.0, m.leg.1, points[ProjectedPos(coords, i)].geometry)
  }

  function NearestEdges(net: Network, points: seq<TripPoint>): (e: seq<int>)
    ensures |e| == |points|
    ensures forall i | 0 <= i < |points| :: e[i] == net.nearestEdge(points[i].geometry)
  {
    seq(|points|, i requires 0 <= i < |points| => net.nearestEdge(points[i].geometry))
  }

  /** The edge ids map_point_to_network reports: the nearest edges after
      the street-name rewrite. */
  function FinalEdgeIds(net: Network, points: seq<TripPoint>): (r: seq<int>)
    ensures |r| == |points|
  {
    Reassigned(net, NearestEdges(net, points), |points|, true)
  }

  /** Whether every row of map_point_to_network succeeds on the final edges. */
  predicate RowsSucceed(net: Network, points: seq<TripPoint>, labels: seq<int>, r: seq<int>)
    requires WellFormed(net) && |labels| == |points| && |r| == |points|
  {
    forall i | 0 <= i < |points| :: MatchRow(net, points, labels, i, r[i]).Success?
  }

  /** What map_point_to_network returns for a frame with index `labels`. */
  function MapPoints(net: Network, points: seq<TripPoint>, labels: seq<int>): (r: Result<seq<MatchedPoint>>)
    requires WellFormed(net) && |labels| == |points|
    ensures r.Failure? ==> r.error == MissingLabel
    ensures r.Success? ==> |r.value| == |points|
  {
    var r := FinalEdgeIds(net, points);
    if !RowsSucceed(net, points, labels, r) then Failure(MissingLabel)
    else Success(seq(|points|, i requires 0 <= i < |points| => MatchRow(net, points, labels, i, r[i]).value))
  }

  /** The matched rows: each point keeps its ids, is matched to its final
      edge (the nearest edge after the street rules of FinalEdges) with that
      edge's name, and lies on the leg the scan keeps, at the projection of
      the point at ProjectedPos. */
  lemma MapPointsRows(net: Network, points: seq<TripPoint>, labels: seq<int>)
    requires WellFormed(net) && |labels| == |points|
    requires MapPoints(net, points, labels).Success?
    ensures var m := MapPoints(net, points, labels).value;
      && |m| == |points|
      && (forall i | 0 <= i < |m| ::
            && m[i].serialId == points[i].serialId && m[i].recordId == points[i].recordId
            && m[i].edgeId == FinalEdgeIds(net, points)[i]
            && m[i].edgeName == net.edgeName(m[i].edgeId)
            && RowOnScannedLeg(net, points, labels, i, m[i]))
      && (forall i | 1 <= i < |m| - 1 :: m[i - 1].edgeName == m[i + 1].edgeName
                                         ==> m[i].edgeName == m[i - 1].edgeName)
  {
    var e := NearestEdges(net, points);
    var r := Reassigned(net, e, |points|, true);
    var m := MapPoints(net, points, labels).value;
    forall i | 0 <= i < |m|
      ensures m[i].edgeId == r[i]
      ensures m[i].serialId == points[i].serialId && m[i].recordId == points[i].recordId
      ensures m[i].edgeName == net.edgeName(m[i].edgeId)
      ensures RowOnScannedLeg(net, points, labels, i, m[i])
    {
      var row := MatchRow(net, points, labels, i, r[i]);
      assert row.Success?;
      assert m[i] == row.value;
    }
    forall i | 1 <= i < |m| - 1
      ensures m[i - 1].edgeName == m[i + 1].edgeName ==> m[i].edgeName == m[i - 1].edgeName
    {
      NoIsolatedStreet(net, e, true, i);
      assert m[i - 1].edgeName == net.edgeName(r[i - 1]);
      assert m[i].edgeName == net.edgeName(r[i]);
      assert m[i + 1].edgeName == net.edgeName(r[i + 1]);
    }
  }

  /** With the index 0..n-1 of a freshly built frame, the only failure is
      an edge with more legs than there are points. */
  lemma MapPointsOnRangeIndex(net: Network, points: seq<TripPoint>)
    requires WellFormed(net)
    ensures MapPoints(net, points, Range(|points|)).Success?
            <==> forall i | 0 <= i < |points| :: |net.edgeCoords(FinalEdgeIds(net, points)[i])| - 1 <= |points|
  {
    var n := |points|;
    var r := FinalEdgeIds(net, points);
    forall i | 0 <= i < n
      ensures MatchRow(net, points, Range(n), i, r[i]).Success? <==> |net.edgeCoords(r[i])| - 1 <= n
    {
      var coords := net.edgeCoords(r[i]);
      RangeLabelPos(n, i);
      if |coords| - 1 <= n {
        forall k | 1 <= k < |coords| - 1 ensures LabelPos(Range(n), k).Some? {
          RangeLabelPos(n, k);
        }
        assert ScanLabelsPresent(Range(n), i, coords);
      }
    }
  }

  /** The rebinding of i in the leg scan: a single point whose nearest edge
      has three coordinates looks up label 1, which a one-row frame lacks. */
  lemma ShadowedIndexLooksUpLegLabel(net: Network, p: TripPoint)
    requires WellFormed(net) && |net.edgeCoords(net.nearestEdge(p.geometry))| == 3
    ensures MapPoints(net, [p], [0]) == Failure(MissingLabel)
  {
    var r := Reassigned(net, NearestEdges(net, [p]), 1, true);
    assert r[0] == net.nearestEdge(p.geometry);
    assert LabelPos([0], 1).None?;
    assert !ScanLabelsPresent([0], 0, net.edgeCoords(r[0]));
  }

  lemma RowFailureFails(net: Network, points: seq<TripPoint>, labels: seq<int>, i: int)
    requires WellFormed(net) && |labels| == |points| && 0 <= i < |points|
    requires var e := NearestEdges(net, points);
      MatchRow(net, points, labels, i, Reassigned(net, e, i + 1, true)[i]).Failure?
    ensures MapPoints(net, points, labels) == Failure(MissingLabel)
  {
    ReassignedStable(net, NearestEdges(net, points), i, |points|, true);
  }

  /** map_point_to_network: the nearest edge of every point, then one pass
      that rewrites the edge list in place and matches each point to a leg
      of its edge. */
  method MapPointToNetwork(net: Network, points: seq<TripPoint>, labels: seq<int>)
    returns (r: Result<seq<MatchedPoint>>)
    requires WellFormed(net) && |labels| == |points|
    ensures r == MapPoints(net, points, labels)
  {
    var nearEdgesId := NearestEdgeList(net, points);
    ghost var e := nearEdgesId;
    var n := |nearEdgesId|;
    var rows: seq<MatchedPoint> := [];
    for i := 0 to n
      invariant nearEdgesId == Reassigned(net, e, i, true)
      invariant RowsMatch(net, points, labels, nearEdgesId, rows, i)
    {
      var ok;
      nearEdgesId, rows, ok := MatchAdvance(net, points, labels, e, nearEdgesId, rows, i);
      if !ok {
        return Failure(MissingLabel);
      }
    }
    assert nearEdgesId == FinalEdgeIds(net, points);
    RowsAssemble(net, points, labels, rows);
    return Success(rows);
  }

  /** One pass of the second loop, with what it means for the result so far:
      either the rows up to i match, or the whole mapping fails. */
  method MatchAdvance(net: Network, points: seq<TripPoint>, labels: seq<int>, ghost e: seq<int>,
                      ids: seq<int>, rows: seq<MatchedPoint>, i: int)
    returns (ids': seq<int>, rows': seq<MatchedPoint>, ok: bool)
    requires WellFormed(net) && |labels| == |points| && 0 <= i < |points|
    requires e == NearestEdges(net, points) && ids == Reassigned(net, e, i, true)
    requires RowsMatch(net, points, labels, ids, rows, i)
    ensures ok ==> ids' == Reassigned(net, e, i + 1, true)
    ensures ok ==> RowsMatch(net, points, labels, ids', rows', i + 1)
    ensures !ok ==> MapPoints(net, points, labels) == Failure(MissingLabel)
  {
    var row;
    ids', row := MatchStep(net, points, labels, e, ids, i);
    if row.Failure? {
      RowFailureFails(net, points, labels, i);
      return ids', rows, false;
    }
    RowsMatchExtend(net, points, labels, ids, ids', rows, i, row.value);
    rows' := rows + [row.value];
    ok := true;
  }

  /** The first loop of map_point_to_network: the nearest edge of each point. */
  method NearestEdgeList(net: Network, points: seq<TripPoint>) returns (e: seq<int>)
    ensures e == NearestEdges(net, points)
  {
    e := [];
    for k := 0 to |points|
      invariant e == NearestEdges(net, points)[..k]
    {
      e := e + [net.nearestEdge(points[k].geometry)];
    }
  }

  /** One pass of the second loop: the rewrite at position i, then the row
      for point i. */
  method MatchStep(net: Network, points: seq<TripPoint>, labels: seq<int>, ghost e: seq<int>,
                   ids: seq<int>, i: int)
    returns (ids': seq<int>, row: Result<MatchedPoint>)
    requires WellFormed(net) && |labels| == |points| && 0 <= i < |points| == |e|
    requires ids == Reassigned(net, e, i, true)
    ensures ids' == Reassigned(net, e, i + 1, true)
    ensures forall j | 0 <= j < i :: ids'[j] == ids[j]
    ensures row == MatchRow(net, points, labels, i, ids'[i])
  {
    var n := |ids|;
    ids' := ids;
    if 1 <= i < n - 1 {
      if net.edgeName(ids[i - 1]) == net.edgeName(ids[i + 1])
         && net.edgeName(ids[i]) != net.edgeName(ids[i + 1]) {
        ids' := ids[i := ids[i - 1]];
      }
    }
    if i == n - 1 && i >= 1 {
      if net.edgeName(ids'[i]) != net.edgeName(ids'[i - 1])
         && net.edgeDistance(ids'[i], ids'[i - 1]) <= 10.0 {
        ids' := ids'[i := ids'[i - 1]];
      }
    }
    row := MatchOne(net, points, labels, i, ids'[i]);
  }

  /** The rows matched so far: row j is the match of point j on edge ids[j]. */
  ghost predicate RowsMatch(net: Network, points: seq<TripPoint>, labels: seq<int>, ids: seq<int>,
                            rows: seq<MatchedPoint>, i: int)
    requires WellFormed(net) && |labels| == |points| && |ids| == |points|
  {
    && 0 <= i <= |points| && |rows| == i
    && forall j | 0 <= j < i :: MatchRow(net, points, labels, j, ids[j]) == Success(rows[j])
  }

  lemma RowsMatchExtend(net: Network, points: seq<TripPoint>, labels: seq<int>, ids: seq<int>, ids': seq<int>,
                        rows: seq<MatchedPoint>, i: int, row: MatchedPoint)
    requires WellFormed(net) && |labels| == |points| && |ids| == |points| == |ids'|
    requires RowsMatch(net, points, labels, ids, rows, i) && i < |points|
    requires forall j | 0 <= j < i :: ids'[j] == ids[j]
    requires MatchRow(net, points, labels, i, ids'[i]) == Success(row)
    ensures RowsMatch(net, points, labels, ids', rows + [row], i + 1)
  {
  }

  /** Rows that each succeed on the final edges are what MapPoints returns. */
  lemma RowsAssemble(net: Network, points: seq<TripPoint>, labels: seq<int>, rows: seq<MatchedPoint>)
    requires WellFormed(net) && |labels| == |points|
    requires RowsMatch(net, points, labels, FinalEdgeIds(net, points), rows, |points|)
    ensures MapPoints(net, points, labels) == Success(rows)
  {
    var r := FinalEdgeIds(net, points);
    assert RowsSucceed(net, points, labels, r);
    assert forall j | 0 <= j < |points| :: rows[j] == MapPoints(net, points, labels).value[j];
    assert rows == MapPoints(net, points, labels).value;
  }

  /** One pass of the second loop after the edge rewrite: the leg scan and
      the projection for the point at position i on `edge`. */
  method MatchOne(net: Network, points: seq<TripPoint>, labels: seq<int>, i: int, edge: int)
    returns (r: Result<MatchedPoint>)
    requires WellFormed(net) && |labels| == |points| && 0 <= i < |points|
    ensures r == MatchRow(net, points, labels, i, edge)
  {
    var coords := net.edgeCoords(edge);
    var p0 := LabelPos(labels, i);
    if p0.None? {
      return Failure(MissingLabel);
    }
    var nearLegDist := net.segmentDistance(coords[0], coords[1], points[p0.value].geometry);
    var nearLeg := ScanLegs(net, coords, points, labels, nearLegDist);
    if nearLeg.None? {
      return Failure(MissingLabel);
    }
    var c := nearLeg.value;
    assert ScanLabelsPresent(labels, i, coords) && c == LegFor(net, coords, points, labels, i);
    var projected := if |coords| >= 3 then |coords| - 2 else i;
    if projected >= |points| {
      return Failure(MissingLabel);
    }
    return Success(MatchedPoint(points[i].serialId, points[i].recordId, edge, net.edgeName(edge),
                                (coords[c], coords[c + 1]),
                                net.projectOnSegment(coords[c], coords[c + 1], points[projected].geometry)));
  }

  /** The inner loop over legs 1..|coords|-2, each looked up by its own
      index as a label: the leg it ends with, or None when a label is
      missing. On exit the loop variable is |coords| - 2 when the loop ran. */
  method ScanLegs(net: Network, coords: seq<Coord>, points: seq<TripPoint>, labels: seq<int>, d0: real)
    returns (c: Option<int>)
    requires |coords| >= 2 && |labels| == |points|
    ensures c.Some? <==> forall k | 1 <= k < |coords| - 1 :: LabelPos(labels, k).Some?
    ensures c.Some? ==> c.value == ChosenLeg(net, coords, points, labels, d0, |coords| - 1)
  {
    var nearLeg := 0;
    var k := 1;
    while k < |coords| - 1
      invariant 1 <= k <= |coords| - 1
      invariant forall q | 1 <= q < k :: LabelPos(labels, q).Some?
      invariant nearLeg == ChosenLeg(net, coords, points, labels, d0, k)
    {
      var pk := LabelPos(labels, k);
      if pk.None? {
        return None;
      }
      var currDist := net.segmentDistance(coords[k], coords[k + 1], points[pk.value].geometry);
      if currDist < d0 {
        nearLeg := k;
      }
      k := k + 1;
    }
    return Some(nearLeg);
  }

  // ---------------------------------------------------------------------
  // detect_and_fill_gap and filled_gap_edges
  // ---------------------------------------------------------------------

  /** Two neighbouring matched points leave a gap when they are on
      different edges more than 50 apart, or on differently named
      streets. */
  predicate IsGap(net: Network, a: MatchedPoint, b: MatchedPoint) {
    (a.edgeId != b.edgeId && net.pointDistance(a.geometry, b.geometry) > 50.0)
    || a.edgeName != b.edgeName
  }

  /** The node coordinates of a shortest path. */
  function PathCoords(net: Network, path: seq<int>): (cs: seq<Coord>)
    ensures |cs| == |path| && forall k | 0 <= k < |path| :: cs[k] == net.nodeCoord(path[k])
  {
    seq(|path|, k requires 0 <= k < |path| => net.nodeCoord(path[k]))
  }

  /** The coordinates of the fill between a and b: the shortest path
      between their nearest nodes, padded with a and b when that path is a
      single node; NoPath when the nodes are not connected. */
  function FillLine(net: Network, a: Coord, b: Coord): (r: Result<seq<Coord>>)
    requires WellFormed(net)
    ensures r.Failure? <==> net.shortestPath(net.nearestNode(a), net.nearestNode(b)).None?
    ensures r.Failure? ==> r.error == NoPath
    ensures r.Success? ==> |r.value| >= 2
    ensures r.Success? ==>
      var path := net.shortestPath(net.nearestNode(a), net.nearestNode(b)).value;
      if |path| == 1 then r.value == [a, net.nodeCoord(path[0]), b]
      else r.value == PathCoords(net, path)
  {
    var s, t := net.nearestNode(a), net.nearestNode(b);
    assert net.shortestPath(s, t).Some? ==> |net.shortestPath(s, t).value| >= 1;
    match net.shortestPath(s, t)
    case None => Failure(NoPath)
    case Some(path) =>
      var cs := PathCoords(net, path);
      if |cs| == 1 then Success([a] + cs + [b]) else Success(cs)
  }

  /** The gap points handed to map_point_to_network by filled_gap_edges:
      one row per coordinate, all carrying the origin's ids. */
  function GapPoints(serialId: int, recordId: int, line: seq<Coord>): (ps: seq<TripPoint>)
    ensures |ps| == |line|
    ensures forall k | 0 <= k < |line| :: ps[k] == TripPoint(serialId, recordId, line[k])
  {
    seq(|line|, k requires 0 <= k < |line| => TripPoint(serialId, recordId, line[k]))
  }

  /** What filled_gap_edges returns: the ids of the edges the coordinates
      of the fill are matched to. */
  function GapEdgeIds(net: Network, serialId: int, recordId: int, line: seq<Coord>)
    : (r: Result<set<int>>)
    requires WellFormed(net)
    ensures r.Failure? <==> MapPoints(net, GapPoints(serialId, recordId, line), Range(|line|)).Failure?
    ensures r.Success? ==>
      var m := MapPoints(net, GapPoints(serialId, recordId, line), Range(|line|)).value;
      forall e :: e in r.value <==> exists k | 0 <= k < |m| :: m[k].edgeId == e
  {
    match MapPoints(net, GapPoints(serialId, recordId, line), Range(|line|))
    case Failure(err) => Failure(err)
    case Success(m) => Success(set k | 0 <= k < |m| :: m[k].edgeId)
  }

  /** The threshold under which a later point counts as lying on a fill. */
  const OnLine: real := 0.00000001

  /** The first position at or after j that does not lie on the fill. */
  function SnapEnd(net: Network, pts: seq<MatchedPoint>, j: nat, line: seq<Coord>): (e: nat)
    ensures j <= |pts| ==> j <= e <= |pts|
    ensures forall k | j <= k < e && k < |pts| :: net.lineDistance(line, pts[k].geometry) < OnLine
    ensures e < |pts| ==> !(net.lineDistance(line, pts[e].geometry) < OnLine)
    decreases |pts| - j
  {
    if j >= |pts| then j
    else if net.lineDistance(line, pts[j].geometry) < OnLine then SnapEnd(net, pts, j + 1, line)
    else j
  }

  /** The points with positions j..e-1 moved to `end`. */
  function Snapped(pts: seq<MatchedPoint>, j: nat, e: nat, end: Coord): (r: seq<MatchedPoint>)
    ensures |r| == |pts|
    ensures forall k | 0 <= k < |pts| ::
      r[k] == if j <= k < e then pts[k].(geometry := end) else pts[k]
  {
    seq(|pts|, k requires 0 <= k < |pts| => if j <= k < e then pts[k].(geometry := end) else pts[k])
  }

  /** The frame state (points, filled gaps) after the pass at position i:
      when i and i-1 leave a gap, the fill is recorded under the origin's
      ids and the run of points from i on that lie on the fill is moved to
      its end. */
  function GapStep(net: Network, pts: seq<MatchedPoint>, gaps: seq<Gap>, i: int)
    : (r: Result<(seq<MatchedPoint>, seq<Gap>)>)
    requires WellFormed(net) && 1 <= i < |pts|
    ensures r.Success? && !IsGap(net, pts[i - 1], pts[i]) ==> r.value == (pts, gaps)
    ensures r.Success? && IsGap(net, pts[i - 1], pts[i]) ==>
      FillLine(net, pts[i - 1].geometry, pts[i].geometry).Success? && |r.value.1| == |gaps| + 1
    ensures r.Success? && IsGap(net, pts[i - 1], pts[i]) ==>
      var line := FillLine(net, pts[i - 1].geometry, pts[i].geometry).value;
      var g := r.value.1[|gaps|];
      && r.value.1[..|gaps|] == gaps
      && g.serialId == pts[i - 1].serialId && g.origRecordId == pts[i - 1].recordId
      && g.line == line
      && GapEdgeIds(net, g.serialId, g.origRecordId, line).Success?
      && g.edges == GapEdgeIds(net, g.serialId, g.origRecordId, line).value
      && r.value.0 == Snapped(pts, i, SnapEnd(net, pts, i, line), line[|line| - 1])
    ensures r.Failure? ==> IsGap(net, pts[i - 1], pts[i])
    ensures r.Failure? ==>
      var fill := FillLine(net, pts[i - 1].geometry, pts[i].geometry);
      if fill.Failure? then r.error == fill.error
      else GapEdgeIds(net, pts[i - 1].serialId, pts[i - 1].recordId, fill.value).Failure?
           && r.error == GapEdgeIds(net, pts[i - 1].serialId, pts[i - 1].recordId, fill.value).error
  {
    if !IsGap(net, pts[i - 1], pts[i]) then Success((pts, gaps))
    else
      var a, b := pts[i - 1], pts[i];
      match FillLine(net, a.geometry, b.geometry)
      case Failure(err) => Failure(err)
      case Success(line) =>
        match GapEdgeIds(net, a.serialId, a.recordId, line)
        case Failure(err) => Failure(err)
        case Success(edges) =>
          var snapped := Snapped(pts, i, SnapEnd(net, pts, i, line), line[|line| - 1]);
          Success((snapped, gaps + [Gap(a.serialId, a.recordId, edges, line)]))
  }

  /** The passes at positions i..|pts|-1. */
  function FillFrom(net: Network, pts: seq<MatchedPoint>, gaps: seq<Gap>, i: nat)
    : (r: Result<(seq<MatchedPoint>, seq<Gap>)>)
    requires WellFormed(net) && i >= 1
    decreases |pts| - i
  {
    if i >= |pts| then Success((pts, gaps))
    else
      match GapStep(net, pts, gaps, i)
      case Failure(err) => Failure(err)
      case Success(next) => FillFrom(net, next.0, next.1, i + 1)
  }

  /** detect_and_fill_gap: the points (with moved geometries) and the
      filled gaps. */
  function FillGaps(net: Network, pts: seq<MatchedPoint>): Result<(seq<MatchedPoint>, seq<Gap>)>
    requires WellFormed(net)
  {
    FillFrom(net, pts, [], 1)
  }

  /** Two rows that differ at most in their geometry. */
  predicate SameButGeometry(a: MatchedPoint, b: MatchedPoint) {
    a.(geometry := b.geometry) == b
  }

  /** What every pass keeps: the points' ids and edges, the points before
      the pass, the gaps already found; and every new gap has a fill of two
      or more coordinates and the ids of a point at or after i-1. */
  predicate Kept(pts: seq<MatchedPoint>, gaps: seq<Gap>, i: int,
                 pts': seq<MatchedPoint>, gaps': seq<Gap>)
  {
    && |pts'| == |pts|
    && (forall k | 0 <= k < |pts| :: SameButGeometry(pts[k], pts'[k]))
    && (forall k | 0 <= k < i && k < |pts| :: pts'[k] == pts[k])
    && |gaps| <= |gaps'| && gaps'[..|gaps|] == gaps
    && (forall g | |gaps| <= g < |gaps'| :: |gaps'[g].line| >= 2
          && exists k | i - 1 <= k < |pts| - 1 && k >= 0 ::
               gaps'[g].serialId == pts[k].serialId && gaps'[g].origRecordId == pts[k].recordId)
  }

  lemma KeptTrans(pts: seq<MatchedPoint>, gaps: seq<Gap>, i: int, p1: seq<MatchedPoint>, g1: seq<Gap>,
                  p2: seq<MatchedPoint>, g2: seq<Gap>)
    requires i >= 1 && Kept(pts, gaps, i, p1, g1) && Kept(p1, g1, i + 1, p2, g2)
    requires forall g | |gaps| <= g < |g1| :: exists k | i - 1 <= k < i && k < |pts| - 1 ::
               g1[g].serialId == pts[k].serialId && g1[g].origRecordId == pts[k].recordId
    ensures Kept(pts, gaps, i, p2, g2)
  {
    assert g2[..|g1|][..|gaps|] == g2[..|gaps|];
    forall g | |gaps| <= g < |g2|
      ensures exists k | i - 1 <= k < |pts| - 1 && k >= 0 ::
                g2[g].serialId == pts[k].serialId && g2[g].origRecordId == pts[k].recordId
    {
      if g < |g1| {
        assert g2[g] == g1[g];
      } else {
        var k :| i <= k < |p1| - 1 && k >= 0 && g2[g].serialId == p1[k].serialId
                 && g2[g].origRecordId == p1[k].recordId;
        assert SameButGeometry(pts[k], p1[k]);
      }
    }
  }

  /** One pass keeps what Kept says, and a new gap has the ids of point i-1. */
  lemma GapStepKept(net: Network, pts: seq<MatchedPoint>, gaps: seq<Gap>, i: int)
    requires WellFormed(net) && 1 <= i < |pts| && GapStep(net, pts, gaps, i).Success?
    ensures var r := GapStep(net, pts, gaps, i).value;
      && Kept(pts, gaps, i, r.0, r.1)
      && forall g | |gaps| <= g < |r.1| ::
           r.1[g].serialId == pts[i - 1].serialId && r.1[g].origRecordId == pts[i - 1].recordId
  {
    var r := GapStep(net, pts, gaps, i).value;
    if IsGap(net, pts[i - 1], pts[i]) {
      var line := FillLine(net, pts[i - 1].geometry, pts[i].geometry).value;
      forall k | 0 <= k < |pts| ensures SameButGeometry(pts[k], r.0[k]) {
      }
      forall g | |gaps| <= g < |r.1|
        ensures |r.1[g].line| >= 2
        ensures exists k | i - 1 <= k < |pts| - 1 && k >= 0 ::
                  r.1[g].serialId == pts[k].serialId && r.1[g].origRecordId == pts[k].recordId
      {
        assert g == |gaps|;
        assert pts[i - 1].serialId == r.1[g].serialId;
      }
    }
  }

  /** The whole run of passes from i keeps what Kept says. */
  lemma {:induction false} FillFromKept(net: Network, pts: seq<MatchedPoint>, gaps: seq<Gap>, i: nat)
    requires WellFormed(net) && i >= 1 && FillFrom(net, pts, gaps, i).Success?
    ensures var r := FillFrom(net, pts, gaps, i).value; Kept(pts, gaps, i, r.0, r.1)
    decreases |pts| - i
  {
    if i >= |pts| {
      assert gaps[..|gaps|] == gaps;
    } else {
      var next := GapStep(net, pts, gaps, i).value;
      GapStepKept(net, pts, gaps, i);
      FillFromKept(net, next.0, next.1, i + 1);
      var r := FillFrom(net, pts, gaps, i).value;
      KeptTrans(pts, gaps, i, next.0, next.1, r.0, r.1);
    }
  }

  /** detect_and_fill_gap changes nothing of the points but geometries,
      never more gaps than neighbouring pairs, every gap's fill has two or
      more coordinates and every gap row carries the ids of a point that
      has a successor. */
  lemma FillGapsShape(net: Network, pts: seq<MatchedPoint>)
    requires WellFormed(net) && FillGaps(net, pts).Success?
    ensures var r := FillGaps(net, pts).value;
      && |r.0| == |pts|
      && (forall k | 0 <= k < |pts| :: SameButGeometry(pts[k], r.0[k]))
      && (|pts| > 0 ==> r.0[0] == pts[0])
      && (forall g | 0 <= g < |r.1| :: |r.1[g].line| >= 2
            && exists k | 0 <= k < |pts| - 1 ::
                 r.1[g].serialId == pts[k].serialId && r.1[g].origRecordId == pts[k].recordId)
  {
    FillFromKept(net, pts, [], 1);
  }

  /** Without a gap anywhere the passes change nothing. */
  lemma {:induction false} FillFromNoGap(net: Network, pts: seq<MatchedPoint>, gaps: seq<Gap>, i: nat)
    requires WellFormed(net) && i >= 1
    requires forall j | i <= j < |pts| :: !IsGap(net, pts[j - 1], pts[j])
    ensures FillFrom(net, pts, gaps, i) == Success((pts, gaps))
    decreases |pts| - i
  {
    if i < |pts| {
      FillFromNoGap(net, pts, gaps, i + 1);
    }
  }

  /** A gap between two input neighbours at or after i is always filled. */
  lemma {:induction false} FillFromFindsGap(net: Network, pts: seq<MatchedPoint>, gaps: seq<Gap>, i: nat)
    requires WellFormed(net) && i >= 1 && FillFrom(net, pts, gaps, i).Success?
    requires exists j | i <= j < |pts| :: IsGap(net, pts[j - 1], pts[j])
    ensures |FillFrom(net, pts, gaps, i).value.1| > |gaps|
    decreases |pts| - i
  {
    var next := GapStep(net, pts, gaps, i).value;
    if IsGap(net, pts[i - 1], pts[i]) {
      FillFromKept(net, next.0, next.1, i + 1);
    } else {
      FillFromFindsGap(net, pts, gaps, i + 1);
    }
  }

  /** detect_and_fill_gap finds no gap exactly when no two neighbouring
      input points leave one; then the points come back unchanged. */
  lemma FillGapsNoneIff(net: Network, pts: seq<MatchedPoint>)
    requires WellFormed(net) && FillGaps(net, pts).Success?
    ensures FillGaps(net, pts).value.1 == []
            <==> forall j | 1 <= j < |pts| :: !IsGap(net, pts[j - 1], pts[j])
    ensures (forall j | 1 <= j < |pts| :: !IsGap(net, pts[j - 1], pts[j]))
            ==> FillGaps(net, pts).value.0 == pts
  {
    if forall j | 1 <= j < |pts| :: !IsGap(net, pts[j - 1], pts[j]) {
      FillFromNoGap(net, pts, [], 1);
    } else {
      FillFromFindsGap(net, pts, [], 1);
    }
  }

  /** filled_gap_edges: the fill's coordinates become a frame of gap points
      that map_point_to_network matches; the matched edge ids are
      collected. */
  method FilledGapEdges(net: Network, serialId: int, recordId: int, line: seq<Coord>)
    returns (r: Result<set<int>>)
    requires WellFormed(net)
    ensures r == GapEdgeIds(net, serialId, recordId, line)
  {
    var gapPoints: seq<TripPoint> := [];
    for k := 0 to |line|
      invariant gapPoints == GapPoints(serialId, recordId, line)[..k]
    {
      gapPoints := gapPoints + [TripPoint(serialId, recordId, line[k])];
    }
    assert gapPoints == GapPoints(serialId, recordId, line);
    var onNet := MapPointToNetwork(net, gapPoints, Range(|line|));
    if onNet.Failure? {
      return Failure(onNet.error);
    }
    var m := onNet.value;
    return Success(set k | 0 <= k < |m| :: m[k].edgeId);
  }

  /** The body of detect_and_fill_gap's loop for position i. */
  method FillOne(net: Network, points: seq<MatchedPoint>, gaps: seq<Gap>, i: int)
    returns (r: Result<(seq<MatchedPoint>, seq<Gap>)>)
    requires WellFormed(net) && 1 <= i < |points|
    ensures r == GapStep(net, points, gaps, i)
  {
    if !IsGap(net, points[i - 1], points[i]) {
      return Success((points, gaps));
    }
    var a, b := points[i - 1], points[i];
    var startNode := net.nearestNode(a.geometry);
    var endNode := net.nearestNode(b.geometry);
    var shortestRoute := net.shortestPath(startNode, endNode);
    if shortestRoute.None? {
      assert GapStep(net, points, gaps, i) == Failure(NoPath);
      return Failure(NoPath);
    }
    var routeGeo := PathCoords(net, shortestRoute.value);
    if |routeGeo| == 1 {
      routeGeo := [a.geometry] + routeGeo + [b.geometry];
    }
    assert FillLine(net, a.geometry, b.geometry) == Success(routeGeo);
    var edges := FilledGapEdges(net, a.serialId, a.recordId, routeGeo);
    if edges.Failure? {
      assert GapStep(net, points, gaps, i) == Failure(edges.error);
      return Failure(edges.error);
    }
    var pts := SnapToFill(net, points, i, routeGeo);
    var gap := Gap(a.serialId, a.recordId, edges.value, routeGeo);
    assert GapStep(net, points, gaps, i) == Success((pts, gaps + [gap]));
    return Success((pts, gaps + [gap]));
  }

  /** The inner loop of detect_and_fill_gap: from position i on, every
      point that lies on the fill is moved to the fill's end, up to the
      first one that does not. */
  method SnapToFill(net: Network, points: seq<MatchedPoint>, i: nat, line: seq<Coord>)
    returns (pts: seq<MatchedPoint>)
    requires i <= |points| && |line| > 0
    ensures pts == Snapped(points, i, SnapEnd(net, points, i, line), line[|line| - 1])
  {
    var end := line[|line| - 1];
    pts := points;
    var j := i;
    while j < |pts|
      invariant i <= j <= |points| && |pts| == |points|
      invariant pts == Snapped(points, i, j, end)
      invariant SnapEnd(net, points, i, line) == SnapEnd(net, points, j, line)
    {
      if net.lineDistance(line, pts[j].geometry) < OnLine {
        pts := pts[j := pts[j].(geometry := end)];
        j := j + 1;
      } else {
        break;
      }
    }
  }

  /** detect_and_fill_gap: every neighbouring pair, left to right, on the
      points as earlier passes left them. */
  method DetectAndFillGap(net: Network, points: seq<MatchedPoint>)
    returns (r: Result<(seq<MatchedPoint>, seq<Gap>)>)
    requires WellFormed(net)
    ensures r == FillGaps(net, points)
  {
    var pts := points;
    var gaps: seq<Gap> := [];
    var i := 1;
    while i < |pts|
      invariant i >= 1
      invariant FillFrom(net, pts, gaps, i) == FillGaps(net, points)
      decreases |pts| - i
    {
      var next := FillOne(net, pts, gaps, i);
      if next.Failure? {
        return Failure(next.error);
      }
      pts, gaps := next.value.0, next.value.1;
      i := i + 1;
    }
    return Success((pts, gaps));
  }

  // ---------------------------------------------------------------------
  // connect_points_and_filled_gaps
  // ---------------------------------------------------------------------

  /** Whether gap row g was filled from point p (same SerialID and
      RecordID). */
  predicate Origin(g: Gap, p: MatchedPoint) {
    g.serialId == p.serialId && g.origRecordId == p.recordId
  }

  /** The first gap row at or after q filled from p. */
  function FirstGapFrom(gaps: seq<Gap>, p: MatchedPoint, q: nat): (r: Option<nat>)
    ensures r.Some? ==> q <= r.value < |gaps| && Origin(gaps[r.value], p)
                        && forall g | q <= g < r.value :: !Origin(gaps[g], p)
    ensures r.None? <==> forall g | q <= g < |gaps| :: !Origin(gaps[g], p)
    decreases |gaps| - q
  {
    if q >= |gaps| then None
    else if Origin(gaps[q], p) then Some(q)
    else FirstGapFrom(gaps, p, q + 1)
  }

  /** The gap row whose line the source splices in for point p. */
  function FirstGap(gaps: seq<Gap>, p: MatchedPoint): Option<nat> {
    FirstGapFrom(gaps, p, 0)
  }

  /** Appending c unless it repeats the last coordinate. */
  function AppendNew(route: seq<Coord>, c: Coord): (r: seq<Coord>)
    ensures |r| > 0 && r[|r| - 1] == c
    ensures |route| <= |r| <= |route| + 1 && r[..|route|] == route
    ensures NoConsecutiveDuplicates(route) ==> NoConsecutiveDuplicates(r)
  {
    if |route| > 0 && c == route[|route| - 1] then route else route + [c]
  }

  /** The coordinates of a fill appended one by one with AppendNew. */
  function AppendLine(route: seq<Coord>, cs: seq<Coord>): (r: seq<Coord>)
    ensures |route| <= |r| && r[..|route|] == route
    ensures NoConsecutiveDuplicates(route) ==> NoConsecutiveDuplicates(r)
    ensures |cs| > 0 ==> |r| > 0 && r[|r| - 1] == cs[|cs| - 1]
    ensures route == [] && |cs| > 0 ==> r[0] == cs[0]
    ensures forall k | |route| <= k < |r| :: r[k] in cs
  {
    if cs == [] then route
    else
      var prev := AppendLine(route, cs[..|cs| - 1]);
      assert forall k | |route| <= k < |prev| :: prev[k] in cs by {
        assert forall c | c in cs[..|cs| - 1] :: c in cs;
      }
      AppendNew(prev, cs[|cs| - 1])
  }

  /** The body of the loop for one point: a gap origin contributes its
      fill; any other point its own coordinate, unless the route is still
      empty or already ends there. */
  function ConnectStep(route: seq<Coord>, p: MatchedPoint, gaps: seq<Gap>): seq<Coord> {
    match FirstGap(gaps, p)
    case Some(g) => AppendLine(route, gaps[g].line)
    case None => if |route| > 0 && p.geometry != route[|route| - 1] then route + [p.geometry] else route
  }

  /** The route points after the loop has seen all of pts. */
  function Connect(pts: seq<MatchedPoint>, gaps: seq<Gap>): seq<Coord> {
    if pts == [] then []
    else ConnectStep(Connect(pts[..|pts| - 1], gaps), pts[|pts| - 1], gaps)
  }

  /** connect_points_and_filled_gaps: the route, or DegenerateLine when it
      has the single coordinate a LineString refuses. */
  function ConnectRoute(pts: seq<MatchedPoint>, gaps: seq<Gap>): (r: Result<seq<Coord>>)
    ensures r.Failure? <==> |Connect(pts, gaps)| == 1
    ensures r.Failure? ==> r.error == DegenerateLine
    ensures r.Success? ==> r.value == Connect(pts, gaps)
  {
    var route := Connect(pts, gaps);
    if |route| == 1 then Failure(DegenerateLine) else Success(route)
  }

  /** The route never repeats a coordinate twice in a row, every coordinate
      of it is a point's or belongs to a fill, and it only grows as points
      are added. */
  lemma {:induction false} ConnectShape(pts: seq<MatchedPoint>, gaps: seq<Gap>)
    ensures var route := Connect(pts, gaps);
      && NoConsecutiveDuplicates(route)
      && forall k | 0 <= k < |route| ::
           (exists j | 0 <= j < |pts| :: pts[j].geometry == route[k])
           || (exists g | 0 <= g < |gaps| :: route[k] in gaps[g].line)
  {
    if pts != [] {
      var init := pts[..|pts| - 1];
      var p := pts[|pts| - 1];
      var prev := Connect(init, gaps);
      ConnectShape(init, gaps);
      ConnectStepShape(prev, p, gaps);
      var route := Connect(pts, gaps);
      forall k | 0 <= k < |route|
        ensures (exists j | 0 <= j < |pts| :: pts[j].geometry == route[k])
                || (exists g | 0 <= g < |gaps| :: route[k] in gaps[g].line)
      {
        if k < |prev| {
          assert route[k] == prev[k];
          if exists j | 0 <= j < |init| :: init[j].geometry == prev[k] {
            var j :| 0 <= j < |init| && init[j].geometry == prev[k];
            assert pts[j] == init[j];
          }
        } else if route[k] == p.geometry {
          assert pts[|pts| - 1].geometry == route[k];
        }
      }
    }
  }

  /** One loop step extends the route, keeps it free of consecutive
      duplicates, and adds only the point itself or coordinates of a fill. */
  lemma ConnectStepShape(route: seq<Coord>, p: MatchedPoint, gaps: seq<Gap>)
    ensures var r := ConnectStep(route, p, gaps);
      && |route| <= |r| && r[..|route|] == route
      && (NoConsecutiveDuplicates(route) ==> NoConsecutiveDuplicates(r))
      && forall k | |route| <= k < |r| ::
           r[k] == p.geometry || exists g | 0 <= g < |gaps| :: r[k] in gaps[g].line
  {
    match FirstGap(gaps, p)
    case Some(g) =>
    case None =>
      if |route| > 0 && p.geometry != route[|route| - 1] {
        assert ConnectStep(route, p, gaps) == AppendNew(route, p.geometry);
      }
  }

  /** Connecting more points only extends the route. */
  lemma {:induction false} ConnectPrefix(pts: seq<MatchedPoint>, gaps: seq<Gap>, k: nat)
    requires k <= |pts|
    ensures var a, b := Connect(pts[..k], gaps), Connect(pts, gaps);
      |a| <= |b| && b[..|a|] == a
    decreases |pts| - k
  {
    if k < |pts| {
      var init := pts[..|pts| - 1];
      assert init[..k] == pts[..k];
      ConnectPrefix(init, gaps, k);
      assert pts[..|pts|] == pts;
    } else {
      assert pts[..k] == pts;
    }
  }

  /** Until the first gap origin the route stays empty: with no gap rows at
      all the result is the empty line. */
  lemma {:induction false} ConnectEmptyBeforeOrigin(pts: seq<MatchedPoint>, gaps: seq<Gap>)
    requires forall j | 0 <= j < |pts| :: FirstGap(gaps, pts[j]).None?
    ensures Connect(pts, gaps) == []
  {
    if pts != [] {
      ConnectEmptyBeforeOrigin(pts[..|pts| - 1], gaps);
    }
  }

  /** The route begins where the fill of the first gap origin begins; the
      points before that origin are dropped. */
  lemma ConnectStartsAtFirstFill(pts: seq<MatchedPoint>, gaps: seq<Gap>, k: nat)
    requires k < |pts| && FirstGap(gaps, pts[k]).Some?
    requires forall j | 0 <= j < k :: FirstGap(gaps, pts[j]).None?
    requires |gaps[FirstGap(gaps, pts[k]).value].line| > 0
    ensures var route := Connect(pts, gaps);
      |route| > 0 && route[0] == gaps[FirstGap(gaps, pts[k]).value].line[0]
  {
    var a := pts[..k];
    assert forall j | 0 <= j < |a| :: a[j] == pts[j];
    ConnectEmptyBeforeOrigin(a, gaps);
    assert pts[..k + 1][..k] == a;
    ConnectPrefix(pts, gaps, k + 1);
  }

  /** connect_points_and_filled_gaps, loop by loop. */
  method ConnectPointsAndFilledGaps(points: seq<MatchedPoint>, gaps: seq<Gap>)
    returns (r: Result<seq<Coord>>)
    ensures r == ConnectRoute(points, gaps)
  {
    var routePoints: seq<Coord> := [];
    for i := 0 to |points|
      invariant routePoints == Connect(points[..i], gaps)
    {
      assert points[..i + 1][..i] == points[..i];
      routePoints := ConnectOne(routePoints, points[i], gaps);
    }
    assert points[..|points|] == points;
    if |routePoints| == 1 {
      return Failure(DegenerateLine);
    }
    return Success(routePoints);
  }

  /** The loop body for one point. */
  method ConnectOne(route: seq<Coord>, p: MatchedPoint, gaps: seq<Gap>) returns (r: seq<Coord>)
    ensures r == ConnectStep(route, p, gaps)
  {
    r := route;
    var gapRow := FirstGap(gaps, p);
    if gapRow.Some? {
      r := AppendFill(route, gaps[gapRow.value].line);
    } else if |r| > 0 && p.geometry != r[|r| - 1] {
      r := r + [p.geometry];
    }
  }

  /** The inner loop: the coordinates of a fill, each skipped when it
      repeats the last one. */
  method AppendFill(route: seq<Coord>, line: seq<Coord>) returns (r: seq<Coord>)
    ensures r == AppendLine(route, line)
  {
    r := route;
    for c := 0 to |line|
      invariant r == AppendLine(route, line[..c])
    {
      assert line[..c + 1][..c] == line[..c];
      if |r| > 0 && line[c] == r[|r| - 1] {
        continue;
      }
      r := r + [line[c]];
    }
    assert line[..|line|] == line;
  }

  // ---------------------------------------------------------------------
  // route_choice_gen
  // ---------------------------------------------------------------------

  /** The union of the edge sets of the gap rows. */
  function GapEdgeUnion(gaps: seq<Gap>): set<int> {
    if gaps == [] then {} else GapEdgeUnion(gaps[..|gaps| - 1]) + gaps[|gaps| - 1].edges
  }

  /** The edges a route passed: those its points are on and those its
      fills passed. */
  function RouteEdges(pts: seq<MatchedPoint>, gaps: seq<Gap>): set<int> {
    (set k | 0 <= k < |pts| :: pts[k].edgeId) + GapEdgeUnion(gaps)
  }

  lemma {:induction false} GapEdgeUnionMembers(gaps: seq<Gap>, e: int)
    ensures e in GapEdgeUnion(gaps) <==> exists g | 0 <= g < |gaps| :: e in gaps[g].edges
  {
    if gaps != [] {
      var init := gaps[..|gaps| - 1];
      GapEdgeUnionMembers(init, e);
      if exists g | 0 <= g < |gaps| :: e in gaps[g].edges {
        var g :| 0 <= g < |gaps| && e in gaps[g].edges;
        if g < |init| {
          assert init[g] == gaps[g];
        }
      }
      if exists g | 0 <= g < |init| :: e in init[g].edges {
        var g :| 0 <= g < |init| && e in init[g].edges;
        assert gaps[g] == init[g];
      }
    }
  }

  /** An edge is reported for a route exactly when one of its matched
      points is on it or one of its fills passed it. */
  lemma RouteEdgesMembers(pts: seq<MatchedPoint>, gaps: seq<Gap>, e: int)
    ensures e in RouteEdges(pts, gaps)
            <==> (exists k | 0 <= k < |pts| :: pts[k].edgeId == e)
                 || (exists g | 0 <= g < |gaps| :: e in gaps[g].edges)
  {
    GapEdgeUnionMembers(gaps, e);
  }

  /** The set of the points' edge ids, then the union with every gap's
      edge set. */
  method UnionEdges(pts: seq<MatchedPoint>, gaps: seq<Gap>) returns (edges: set<int>)
    ensures edges == RouteEdges(pts, gaps)
  {
    edges := set k | 0 <= k < |pts| :: pts[k].edgeId;
    for i := 0 to |gaps|
      invariant edges == (set k | 0 <= k < |pts| :: pts[k].edgeId) + GapEdgeUnion(gaps[..i])
    {
      assert gaps[..i + 1][..i] == gaps[..i];
      edges := edges + gaps[i].edges;
    }
    assert gaps[..|gaps|] == gaps;
  }

  /** The positions below n of the rows of serial s, in trip order. */
  function SerialPositions(trip: seq<TripPoint>, s: int, n: nat): (pos: seq<nat>)
    requires n <= |trip|
    ensures forall k | 0 <= k < |pos| :: pos[k] < n && trip[pos[k]].serialId == s
    ensures forall a, b | 0 <= a < b < |pos| :: pos[a] < pos[b]
    ensures forall q | 0 <= q < n && trip[q].serialId == s :: q in pos
  {
    if n == 0 then []
    else
      var p := SerialPositions(trip, s, n - 1);
      if trip[n - 1].serialId == s then p + [n - 1] else p
  }

  /** trip[trip['SerialID'] == s]: the rows of one serial, in trip order,
      with their index labels. */
  function SerialRows(trip: seq<TripPoint>, labels: seq<int>, s: int): (r: (seq<TripPoint>, seq<int>))
    requires |labels| == |trip|
  {
    var pos := SerialPositions(trip, s, |trip|);
    (seq(|pos|, k requires 0 <= k < |pos| => trip[pos[k]]),
     seq(|pos|, k requires 0 <= k < |pos| => labels[pos[k]]))
  }

  /** One row of route_choice_gen's output: the serial's rows are
      matched, their gaps filled, and the route and its edges built. */
  function RouteFor(net: Network, trip: seq<TripPoint>, labels: seq<int>, s: int): (r: Result<Route>)
    requires WellFormed(net) && |labels| == |trip|
    ensures r.Success? ==> r.value.serialId == s
    ensures r.Success? <==>
      var rows := SerialRows(trip, labels, s);
      && MapPoints(net, rows.0, rows.1).Success?
      && FillGaps(net, MapPoints(net, rows.0, rows.1).value).Success?
      && var f := FillGaps(net, MapPoints(net, rows.0, rows.1).value).value;
         ConnectRoute(f.0, f.1).Success?
    ensures r.Success? ==>
      var rows := SerialRows(trip, labels, s);
      var f := FillGaps(net, MapPoints(net, rows.0, rows.1).value).value;
      r.value.edges == RouteEdges(f.0, f.1) && r.value.line == ConnectRoute(f.0, f.1).value
  {
    var rows := SerialRows(trip, labels, s);
    match MapPoints(net, rows.0, rows.1)
    case Failure(err) => Failure(err)
    case Success(onNet) =>
      match FillGaps(net, onNet)
      case Failure(err) => Failure(err)
      case Success(filled) =>
        match ConnectRoute(filled.0, filled.1)
        case Failure(err) => Failure(err)
        case Success(line) => Success(Route(s, RouteEdges(filled.0, filled.1), line))
  }

  /** The results of a loop that stops at the first failure. */
  function Collect<T>(rs: seq<Result<T>>): (r: Result<seq<T>>)
    ensures r.Success? <==> forall k | 0 <= k < |rs| :: rs[k].Success?
    ensures r.Success? ==> |r.value| == |rs| && forall k | 0 <= k < |rs| :: r.value[k] == rs[k].value
    ensures r.Failure? ==> exists k | 0 <= k < |rs| :: rs[k].Failure? && r.error == rs[k].error
                                                      && forall j | 0 <= j < k :: rs[j].Success?
  {
    if rs == [] then Success([])
    else
      var init := rs[..|rs| - 1];
      var last := rs[|rs| - 1];
      assert forall k | 0 <= k < |init| :: init[k] == rs[k];
      var c := Collect(init);
      if c.Failure? then Failure(c.error)
      else if last.Failure? then
        assert rs[|rs| - 1].Failure? && forall j | 0 <= j < |rs| - 1 :: rs[j].Success?;
        Failure(last.error)
      else Success(c.value + [last.value])
  }

  /** Each serial's own outcome. */
  function RouteResults(net: Network, trip: seq<TripPoint>, labels: seq<int>, serials: seq<int>)
    : (rs: seq<Result<Route>>)
    requires WellFormed(net) && |labels| == |trip|
    ensures |rs| == |serials| && forall k | 0 <= k < |serials| :: rs[k] == RouteFor(net, trip, labels, serials[k])
  {
    seq(|serials|, k requires 0 <= k < |serials| => RouteFor(net, trip, labels, serials[k]))
  }

  /** route_choice_gen over the serials in the order value_counts lists
      them; the first failing serial aborts the whole call. */
  function Routes(net: Network, trip: seq<TripPoint>, labels: seq<int>, serials: seq<int>)
    : Result<seq<Route>>
    requires WellFormed(net) && |labels| == |trip|
  {
    Collect(RouteResults(net, trip, labels, serials))
  }

  /** One row per serial, in order, each exactly that serial's own route;
      the call fails exactly when one serial's route fails, and then with
      the first such failure. */
  lemma RoutesRows(net: Network, trip: seq<TripPoint>, labels: seq<int>, serials: seq<int>)
    requires WellFormed(net) && |labels| == |trip|
    ensures var r := Routes(net, trip, labels, serials);
      && (r.Success? <==> forall k | 0 <= k < |serials| :: RouteFor(net, trip, labels, serials[k]).Success?)
      && (r.Success? ==> |r.value| == |serials| && forall k | 0 <= k < |serials| ::
            r.value[k] == RouteFor(net, trip, labels, serials[k]).value && r.value[k].serialId == serials[k])
      && (r.Failure? ==> exists k | 0 <= k < |serials| ::
            && RouteFor(net, trip, labels, serials[k]).Failure?
            && r.error == RouteFor(net, trip, labels, serials[k]).error
            && forall j | 0 <= j < k :: RouteFor(net, trip, labels, serials[j]).Success?)
  {
    var rs := RouteResults(net, trip, labels, serials);
  }

  /** Whether `serials` is what value_counts().index gives: each serial of
      the trip exactly once (in an order of the library's choosing). */
  predicate SerialsOf(trip: seq<TripPoint>, serials: seq<int>) {
    && (forall a, b | 0 <= a < b < |serials| :: serials[a] != serials[b])
    && (forall k | 0 <= k < |serials| :: exists q | 0 <= q < |trip| :: trip[q].serialId == serials[k])
    && (forall q | 0 <= q < |trip| :: trip[q].serialId in serials)
  }

  /** route_choice_gen. */
  method RouteChoiceGen(net: Network, trip: seq<TripPoint>, labels: seq<int>, serials: seq<int>)
    returns (r: Result<seq<Route>>)
    requires WellFormed(net) && |labels| == |trip|
    ensures r == Routes(net, trip, labels, serials)
  {
    ghost var rs := RouteResults(net, trip, labels, serials);
    var routes: seq<Route> := [];
    for k := 0 to |serials|
      invariant Collect(rs[..k]) == Success(routes)
    {
      var route := SerialRoute(net, trip, labels, serials[k]);
      CollectStep(rs, k, routes, route);
      if route.Failure? {
        return Failure(route.error);
      }
      routes := routes + [route.value];
    }
    assert rs[..|serials|] == rs;
    return Success(routes);
  }

  /** The body of route_choice_gen's loop for one serial. */
  method SerialRoute(net: Network, trip: seq<TripPoint>, labels: seq<int>, serialId: int)
    returns (r: Result<Route>)
    requires WellFormed(net) && |labels| == |trip|
    ensures r == RouteFor(net, trip, labels, serialId)
  {
    var rows := SerialRows(trip, labels, serialId);
    var onNet := MapPointToNetwork(net, rows.0, rows.1);
    if onNet.Failure? {
      return Failure(onNet.error);
    }
    var filled := DetectAndFillGap(net, onNet.value);
    if filled.Failure? {
      return Failure(filled.error);
    }
    var line := ConnectPointsAndFilledGaps(filled.value.0, filled.value.1);
    if line.Failure? {
      return Failure(line.error);
    }
    var edges := UnionEdges(filled.value.0, filled.value.1);
    return Success(Route(serialId, edges, line.value));
  }

  /** When the results before k succeed and result k fails, the loop
      fails with result k's error. */
  lemma FailsAt<T>(rs: seq<Result<T>>, k: nat)
    requires k < |rs| && rs[k].Failure? && forall j | 0 <= j < k :: rs[j].Success?
    ensures Collect(rs) == Failure(rs[k].error)
  {
    var r := Collect(rs);
    if r.Failure? {
      var k' :| 0 <= k' < |rs| && rs[k'].Failure? && r.error == rs[k'].error
                && forall j | 0 <= j < k' :: rs[j].Success?;
      assert k' == k;
    }
  }

  /** One step of a loop that collects results and stops at the first
      failure: a failure at k is the failure of the whole sequence, a success
      extends the results collected so far. */
  lemma CollectStep<T>(rs: seq<Result<T>>, k: nat, done: seq<T>, r: Result<T>)
    requires k < |rs| && Collect(rs[..k]) == Success(done) && rs[k] == r
    ensures r.Failure? ==> Collect(rs) == Failure(r.error)
    ensures r.Success? ==> Collect(rs[..k + 1]) == Success(done + [r.value])
  {
    if r.Failure? {
      assert forall j | 0 <= j < k :: rs[..k][j] == rs[j];
      FailsAt(rs, k);
    } else {
      assert rs[..k + 1][..k] == rs[..k];
    }
  }

  /** The row labelled 0 has one serial, so with two serials in the trip
      the other serial's rows lack label 0, and matching them fails on the
      first point's lookup `points['geometry'][0]`: route_choice_gen fails
      on every trip with more than one serial (unless an earlier serial
      already failed otherwise). */
  lemma TwoSerialsMissLabelZero(net: Network, trip: seq<TripPoint>, labels: seq<int>, serials: seq<int>)
    requires WellFormed(net) && |labels| == |trip| && SerialsOf(trip, serials) && |serials| >= 2
    requires forall a, b | 0 <= a < b < |labels| :: labels[a] != labels[b]
    ensures Routes(net, trip, labels, serials).Failure?
  {
    assert serials[0] != serials[1];
    assert exists q | 0 <= q < |trip| :: trip[q].serialId == serials[0];
    assert exists q | 0 <= q < |trip| :: trip[q].serialId == serials[1];
    FirstTwoSerialsFail(net, trip, labels, serials);
  }

  /** Two different serials of the trip, both present, under distinct
      labels: one of them lacks label 0, so the generation fails. */
  lemma FirstTwoSerialsFail(net: Network, trip: seq<TripPoint>, labels: seq<int>, serials: seq<int>)
    requires WellFormed(net) && |labels| == |trip| && |serials| >= 2 && serials[0] != serials[1]
    requires forall a, b | 0 <= a < b < |labels| :: labels[a] != labels[b]
    requires exists q | 0 <= q < |trip| :: trip[q].serialId == serials[0]
    requires exists q | 0 <= q < |trip| :: trip[q].serialId == serials[1]
    ensures Routes(net, trip, labels, serials).Failure?
  {
    var s1, s2 := serials[0], serials[1];
    LabelZeroInOneSerial(trip, labels, s1, s2);
    var pos1 := SerialPositions(trip, s1, |trip|);
    if forall j | 0 <= j < |pos1| :: labels[pos1[j]] != 0 {
      SerialWithoutLabelZero(net, trip, labels, s1);
      OneRouteFails(net, trip, labels, serials, 0);
    } else {
      SerialWithoutLabelZero(net, trip, labels, s2);
      OneRouteFails(net, trip, labels, serials, 1);
    }
  }

  /** One serial whose route fails makes the whole generation fail. */
  lemma OneRouteFails(net: Network, trip: seq<TripPoint>, labels: seq<int>, serials: seq<int>, k: int)
    requires WellFormed(net) && |labels| == |trip| && 0 <= k < |serials|
    requires RouteFor(net, trip, labels, serials[k]).Failure?
    ensures Routes(net, trip, labels, serials).Failure?
  {
    RoutesRows(net, trip, labels, serials);
  }

  /** With distinct labels, the one row labelled 0 belongs to at most one of
      two different serials. */
  lemma LabelZeroInOneSerial(trip: seq<TripPoint>, labels: seq<int>, s1: int, s2: int)
    requires |labels| == |trip| && s1 != s2
    requires forall a, b | 0 <= a < b < |labels| :: labels[a] != labels[b]
    ensures var pos1, pos2 := SerialPositions(trip, s1, |trip|), SerialPositions(trip, s2, |trip|);
      (forall k | 0 <= k < |pos1| :: labels[pos1[k]] != 0) || (forall k | 0 <= k < |pos2| :: labels[pos2[k]] != 0)
  {
    var pos1, pos2 := SerialPositions(trip, s1, |trip|), SerialPositions(trip, s2, |trip|);
    if k1 :| 0 <= k1 < |pos1| && labels[pos1[k1]] == 0 {
      forall k2 | 0 <= k2 < |pos2| ensures labels[pos2[k2]] != 0 {
        assert trip[pos1[k1]].serialId != trip[pos2[k2]].serialId;
      }
    }
  }

  /** A serial of the trip none of whose rows is labelled 0 cannot be
      matched: the first point's lookup fails. */
  lemma SerialWithoutLabelZero(net: Network, trip: seq<TripPoint>, labels: seq<int>, s: int)
    requires WellFormed(net) && |labels| == |trip|
    requires exists q | 0 <= q < |trip| :: trip[q].serialId == s
    requires var pos := SerialPositions(trip, s, |trip|);
      forall k | 0 <= k < |pos| :: labels[pos[k]] != 0
    ensures RouteFor(net, trip, labels, s) == Failure(MissingLabel)
  {
    var rows := SerialRows(trip, labels, s);
    SerialLacksLabelZero(trip, labels, s);
    NoLabelZeroFails(net, rows.0, rows.1);
  }

  /** The rows of a present serial none of whose rows is labelled 0: there
      is at least one, and label 0 is not among their labels. */
  lemma SerialLacksLabelZero(trip: seq<TripPoint>, labels: seq<int>, s: int)
    requires |labels| == |trip|
    requires exists q | 0 <= q < |trip| :: trip[q].serialId == s
    requires var pos := SerialPositions(trip, s, |trip|);
      forall k | 0 <= k < |pos| :: labels[pos[k]] != 0
    ensures |SerialRows(trip, labels, s).0| > 0
    ensures LabelPos(SerialRows(trip, labels, s).1, 0).None?
  {
    var rows := SerialRows(trip, labels, s);
    var q :| 0 <= q < |trip| && trip[q].serialId == s;
    assert |rows.0| > 0;
    forall k | 0 <= k < |rows.1| ensures rows.1[k] != 0 {
      assert rows.1[k] == labels[SerialPositions(trip, s, |trip|)[k]];
    }
  }

  /** A non-empty frame without the label 0 cannot be mapped: the first
      point's lookup of label 0 fails. */
  lemma NoLabelZeroFails(net: Network, points: seq<TripPoint>, labels: seq<int>)
    requires WellFormed(net) && |labels| == |points| && |points| > 0
    requires LabelPos(labels, 0).None?
    ensures MapPoints(net, points, labels) == Failure(MissingLabel)
  {
    var r := FinalEdgeIds(net, points);
    assert !MatchRow(net, points, labels, 0, r[0]).Success?;
  }
}
