/** The earlier version of the route solver (src/RouteSolver.py). It shares
    the network queries, the street-name rewrite, the snapping of points
    onto a fill and the splicing of the route with src/route_solver.py,
    and differs in four places: route generation first checks the trip's
    columns; matching has no rule for the last point and projects the last
    point of the frame for every row; a gap needs different edge ids AND a
    distance over 50; and a fill is the bare node path, whose edges are
    matched before the LineString of it is built. */
module RouteSolverLegacy {
  import opened Common
  import RS = RouteSolver

  // ---------------------------------------------------------------------
  // mapPointToNetwork
  // ---------------------------------------------------------------------

  /** The output row for the point at position i on final edge `edge`. The
      leg scan is that of route_solver.py; the projection is of `point`,
      the variable the first loop left at the last point of the frame. */
  function MatchRow(net: RS.Network, points: seq<RS.TripPoint>, labels: seq<int>, i: int, edge: int)
    : (r: Result<RS.MatchedPoint>)
    requires RS.WellFormed(net) && |labels| == |points| && 0 <= i < |points|
    ensures r.Failure? ==> r.error == MissingLabel
    ensures r.Success? <==> RS.ScanLabelsPresent(labels, i, net.edgeCoords(edge))
    ensures r.Success? ==>
      var m := r.value; var coords := net.edgeCoords(edge);
      && m.serialId == points[i].serialId && m.recordId == points[i].recordId
      && m.edgeId == edge && m.edgeName == net.edgeName(edge)
      && m.leg == (coords[RS.LegFor(net, coords, points, labels, i)],
                   coords[RS.LegFor(net, coords, points, labels, i) + 1])
      && m.geometry == net.projectOnSegment(m.leg.0, m.leg.1, points[|points| - 1].geometry)
  {
    var coords := net.edgeCoords(edge);
    if !RS.ScanLabelsPresent(labels, i, coords) then Failure(MissingLabel)
    else
      var c := RS.LegFor(net, coords, points, labels, i);
      Success(RS.MatchedPoint(points[i].serialId, points[i].recordId, edge, net.edgeName(edge),
                              (coords[c], coords[c + 1]),
                              net.projectOnSegment(coords[c], coords[c + 1], points[|points| - 1].geometry)))
  }

  /** Row m, for the point at position i, lies on the leg the scan keeps on
      its edge. */
  predicate OnScannedLeg(net: RS.Network, points: seq<RS.TripPoint>, labels: seq<int>, i: int, m: RS.MatchedPoint)
    requires RS.WellFormed(net) && |labels| == |points|
  {
    var coords := net.edgeCoords(m.edgeId);
    && RS.ScanLabelsPresent(labels, i, coords)
    && m.leg == (coords[RS.LegFor(net, coords, points, labels, i)], coords[RS.LegFor(net, coords, points, labels, i) + 1])
  }

  /** The edge ids mapPointToNetwork reports: the nearest edges after the
      interior street-name rewrite only. */
  function FinalEdgeIds(net: RS.Network, points: seq<RS.TripPoint>): (r: seq<int>)
    ensures |r| == |points|
  {
    RS.Reassigned(net, RS.NearestEdges(net, points), |points|, false)
  }

  predicate RowsSucceed(net: RS.Network, points: seq<RS.TripPoint>, labels: seq<int>, r: seq<int>)
    requires RS.WellFormed(net) && |labels| == |points| && |r| == |points|
  {
    forall i | 0 <= i < |points| :: MatchRow(net, points, labels, i, r[i]).Success?
  }

  /** What mapPointToNetwork returns for a frame with index `labels`. */
  function MapPoints(net: RS.Network, points: seq<RS.TripPoint>, labels: seq<int>)
    : (r: Result<seq<RS.MatchedPoint>>)
    requires RS.WellFormed(net) && |labels| == |points|
    ensures r.Failure? ==> r.error == MissingLabel
    ensures r.Success? ==> |r.value| == |points|
  {
    var r := FinalEdgeIds(net, points);
    if !RowsSucceed(net, points, labels, r) then Failure(MissingLabel)
    else Success(seq(|points|, i requires 0 <= i < |points| => MatchRow(net, points, labels, i, r[i]).value))
  }

  /** The matched rows: ids kept, each on a leg of its final edge and at
      the projection of the frame's last point onto that leg, and no
      interior point left on a street of its own. */
  lemma MapPointsRows(net: RS.Network, points: seq<RS.TripPoint>, labels: seq<int>)
    requires RS.WellFormed(net) && |labels| == |points|
    requires MapPoints(net, points, labels).Success?
    ensures var m := MapPoints(net, points, labels).value;
      && |m| == |points|
      && (forall i | 0 <= i < |m| ::
            && m[i].serialId == points[i].serialId && m[i].recordId == points[i].recordId
            && m[i].edgeId == FinalEdgeIds(net, points)[i]
            && m[i].edgeName == net.edgeName(m[i].edgeId)
            && m[i].geometry == net.projectOnSegment(m[i].leg.0, m[i].leg.1, points[|points| - 1].geometry)
            && OnScannedLeg(net, points, labels, i, m[i]))
      && (forall i | 1 <= i < |m| - 1 :: m[i - 1].edgeName == m[i + 1].edgeName
                                         ==> m[i].edgeName == m[i - 1].edgeName)
  {
    var e := RS.NearestEdges(net, points);
    var r := FinalEdgeIds(net, points);
    var m := MapPoints(net, points, labels).value;
    forall i | 0 <= i < |m|
      ensures m[i].edgeId == r[i]
      ensures m[i].serialId == points[i].serialId && m[i].recordId == points[i].recordId
      ensures m[i].edgeName == net.edgeName(m[i].edgeId)
      ensures m[i].geometry == net.projectOnSegment(m[i].leg.0, m[i].leg.1, points[|points| - 1].geometry)
      ensures OnScannedLeg(net, points, labels, i, m[i])
    {
      var row := MatchRow(net, points, labels, i, r[i]);
      assert row.Success?;
      assert m[i] == row.value;
    }
    forall i | 1 <= i < |m| - 1
      ensures m[i - 1].edgeName == m[i + 1].edgeName ==> m[i].edgeName == m[i - 1].edgeName
    {
      RS.NoIsolatedStreet(net, e, false, i);
      assert m[i - 1].edgeName == net.edgeName(r[i - 1]);
      assert m[i].edgeName == net.edgeName(r[i]);
      assert m[i + 1].edgeName == net.edgeName(r[i + 1]);
    }
  }

  /** Since every row projects the same point, two rows matched to the
      same leg get the same geometry, wherever their own points are. */
  lemma SameLegSameGeometry(net: RS.Network, points: seq<RS.TripPoint>, labels: seq<int>, i: int, j: int)
    requires RS.WellFormed(net) && |labels| == |points|
    requires MapPoints(net, points, labels).Success?
    requires 0 <= i < |points| && 0 <= j < |points|
    requires MapPoints(net, points, labels).value[i].leg == MapPoints(net, points, labels).value[j].leg
    ensures MapPoints(net, points, labels).value[i].geometry == MapPoints(net, points, labels).value[j].geometry
  {
    MapPointsRows(net, points, labels);
  }

  /** Without the last-point rule, the last point keeps its nearest edge. */
  lemma LastPointKeepsNearestEdge(net: RS.Network, points: seq<RS.TripPoint>)
    requires |points| > 0
    ensures FinalEdgeIds(net, points)[|points| - 1] == net.nearestEdge(points[|points| - 1].geometry)
  {
    RS.FinalEdges(net, RS.NearestEdges(net, points), false);
  }

  /** With the index 0..n-1 of a freshly built frame, matching fails
      exactly when some final edge has more legs than there are points. */
  lemma MapPointsOnRangeIndex(net: RS.Network, points: seq<RS.TripPoint>)
    requires RS.WellFormed(net)
    ensures MapPoints(net, points, RS.Range(|points|)).Success?
            <==> forall i | 0 <= i < |points| :: |net.edgeCoords(FinalEdgeIds(net, points)[i])| - 1 <= |points|
  {
    var n := |points|;
    var r := FinalEdgeIds(net, points);
    forall i | 0 <= i < n
      ensures MatchRow(net, points, RS.Range(n), i, r[i]).Success? <==> |net.edgeCoords(r[i])| - 1 <= n
    {
      var coords := net.edgeCoords(r[i]);
      RS.RangeLabelPos(n, i);
      if |coords| - 1 <= n {
        forall k | 1 <= k < |coords| - 1 ensures LabelPos(RS.Range(n), k).Some? {
          RS.RangeLabelPos(n, k);
        }
      } else {
        RS.RangeLabelPos(n, |coords| - 2);
      }
    }
  }

  lemma RowFailureFails(net: RS.Network, points: seq<RS.TripPoint>, labels: seq<int>, i: int)
    requires RS.WellFormed(net) && |labels| == |points| && 0 <= i < |points|
    requires var e := RS.NearestEdges(net, points);
      MatchRow(net, points, labels, i, RS.Reassigned(net, e, i + 1, false)[i]).Failure?
    ensures MapPoints(net, points, labels) == Failure(MissingLabel)
  {
    RS.ReassignedStable(net, RS.NearestEdges(net, points), i, |points|, false);
  }

  /** mapPointToNetwork: the nearest edge of every point, then one pass
      that rewrites the edge list in place and matches each point. */
  method MapPointToNetwork(net: RS.Network, points: seq<RS.TripPoint>, labels: seq<int>)
    returns (r: Result<seq<RS.MatchedPoint>>)
    requires RS.WellFormed(net) && |labels| == |points|
    ensures r == MapPoints(net, points, labels)
  {
    var nearEdgesId := NearestEdgeList(net, points);
    ghost var e := nearEdgesId;
    var n := |nearEdgesId|;
    var rows: seq<RS.MatchedPoint> := [];
    for i := 0 to n
      invariant nearEdgesId == RS.Reassigned(net, e, i, false)
      invariant RowsMatch(net, points, labels, nearEdgesId, rows, i)
    {
      var ok;
      nearEdgesId, rows, ok := MatchAdvance(net, points, labels, e, nearEdgesId, rows, i);
      if !ok {
        return Failure(MissingLabel);
      }
    }
    assert nearEdgesId == FinalEdgeIds(net, points);
    RowsAssemble(net, points, labels, rows);
    return Success(rows);
  }

  /** One pass of the second loop, with what it means for the result so far:
      either the rows up to i match, or the whole mapping fails. */
  method MatchAdvance(net: RS.Network, points: seq<RS.TripPoint>, labels: seq<int>, ghost e: seq<int>,
                      ids: seq<int>, rows: seq<RS.MatchedPoint>, i: int)
    returns (ids': seq<int>, rows': seq<RS.MatchedPoint>, ok: bool)
    requires RS.WellFormed(net) && |labels| == |points| && 0 <= i < |points|
    requires e == RS.NearestEdges(net, points) && ids == RS.Reassigned(net, e, i, false)
    requires RowsMatch(net, points, labels, ids, rows, i)
    ensures ok ==> ids' == RS.Reassigned(net, e, i + 1, false)
    ensures ok ==> RowsMatch(net, points, labels, ids', rows', i + 1)
    ensures !ok ==> MapPoints(net, points, labels) == Failure(MissingLabel)
  {
    var row;
    ids', row := MatchStep(net, points, labels, e, ids, i);
    if row.Failure? {
      RowFailureFails(net, points, labels, i);
      return ids', rows, false;
    }
    RowsMatchExtend(net, points, labels, ids, ids', rows, i, row.value);
    rows' := rows + [row.value];
    ok := true;
  }

  /** The rows for the first i points match on the edge list `ids`. */
  ghost predicate RowsMatch(net: RS.Network, points: seq<RS.TripPoint>, labels: seq<int>, ids: seq<int>,
                            rows: seq<RS.MatchedPoint>, i: int)
    requires RS.WellFormed(net) && |labels| == |points| && |ids| == |points|
  {
    && 0 <= i <= |points| && |rows| == i
    && forall j | 0 <= j < i :: MatchRow(net, points, labels, j, ids[j]) == Success(rows[j])
  }

  lemma RowsMatchExtend(net: RS.Network, points: seq<RS.TripPoint>, labels: seq<int>, ids: seq<int>, ids': seq<int>,
                        rows: seq<RS.MatchedPoint>, i: int, row: RS.MatchedPoint)
    requires RS.WellFormed(net) && |labels| == |points| && |ids| == |points| == |ids'|
    requires RowsMatch(net, points, labels, ids, rows, i) && i < |points|
    requires forall j | 0 <= j < i :: ids'[j] == ids[j]
    requires MatchRow(net, points, labels, i, ids'[i]) == Success(row)
    ensures RowsMatch(net, points, labels, ids', rows + [row], i + 1)
  {
  }

  /** One pass of the second loop: the interior rewrite at i, then the
      row for point i. */
  method MatchStep(net: RS.Network, points: seq<RS.TripPoint>, labels: seq<int>, ghost e: seq<int>,
                   ids: seq<int>, i: int)
    returns (ids': seq<int>, row: Result<RS.MatchedPoint>)
    requires RS.WellFormed(net) && |labels| == |points| && 0 <= i < |points| == |e|
    requires ids == RS.Reassigned(net, e, i, false)
    ensures ids' == RS.Reassigned(net, e, i + 1, false)
    ensures forall j | 0 <= j < i :: ids'[j] == ids[j]
    ensures row == MatchRow(net, points, labels, i, ids'[i])
  {
    var n := |ids|;
    ids' := ids;
    if 1 <= i < n - 1 {
      if net.edgeName(ids[i - 1]) == net.edgeName(ids[i + 1])
         && net.edgeName(ids[i]) != net.edgeName(ids[i + 1]) {
        ids' := ids[i := ids[i - 1]];
      }
    }
    row := MatchOne(net, points, labels, i, ids'[i]);
  }

  /** Rows that each succeed on the final edges are what MapPoints returns. */
  lemma RowsAssemble(net: RS.Network, points: seq<RS.TripPoint>, labels: seq<int>, rows: seq<RS.MatchedPoint>)
    requires RS.WellFormed(net) && |labels| == |points|
    requires RowsMatch(net, points, labels, FinalEdgeIds(net, points), rows, |points|)
    ensures MapPoints(net, points, labels) == Success(rows)
  {
    var r := FinalEdgeIds(net, points);
    assert RowsSucceed(net, points, labels, r);
    assert forall j | 0 <= j < |points| :: rows[j] == MapPoints(net, points, labels).value[j];
    assert rows == MapPoints(net, points, labels).value;
  }

  /** The first loop of mapPointToNetwork: the nearest edge of each point. */
  method NearestEdgeList(net: RS.Network, points: seq<RS.TripPoint>) returns (e: seq<int>)
    ensures e == RS.NearestEdges(net, points)
  {
    e := [];
    for k := 0 to |points|
      invariant e == RS.NearestEdges(net, points)[..k]
    {
      e := e + [net.nearestEdge(points[k].geometry)];
    }
    assert e == RS.NearestEdges(net, points);
  }

  /** The leg scan and projection for the point at position i. */
  method MatchOne(net: RS.Network, points: seq<RS.TripPoint>, labels: seq<int>, i: int, edge: int)
    returns (r: Result<RS.MatchedPoint>)
    requires RS.WellFormed(net) && |labels| == |points| && 0 <= i < |points|
    ensures r == MatchRow(net, points, labels, i, edge)
  {
    var point := points[|points| - 1];
    var coords := net.edgeCoords(edge);
    var p0 := LabelPos(labels, i);
    if p0.None? {
      return Failure(MissingLabel);
    }
    var nearLeg := 0;
    var nearLegDist := net.segmentDistance(coords[0], coords[1], points[p0.value].geometry);
    var k := 1;
    while k < |coords| - 1
      invariant 1 <= k <= |coords| - 1
      invariant forall q | 1 <= q < k :: LabelPos(labels, q).Some?
      invariant nearLeg == RS.ChosenLeg(net, coords, points, labels, nearLegDist, k)
    {
      var pk := LabelPos(labels, k);
      if pk.None? {
        return Failure(MissingLabel);
      }
      var currDist := net.segmentDistance(coords[k], coords[k + 1], points[pk.value].geometry);
      if currDist < nearLegDist {
        nearLeg := k;
      }
      k := k + 1;
    }
    assert RS.ScanLabelsPresent(labels, i, coords) && nearLeg == RS.LegFor(net, coords, points, labels, i);
    return Success(RS.MatchedPoint(points[i].serialId, points[i].recordId, edge, net.edgeName(edge),
                                   (coords[nearLeg], coords[nearLeg + 1]),
                                   net.projectOnSegment(coords[nearLeg], coords[nearLeg + 1], point.geometry)));
  }

  // ---------------------------------------------------------------------
  // detectAndFillGap
  // ---------------------------------------------------------------------

  /** A gap: different edges and more than 50 apart (street names play no
      part here). */
  predicate IsGap(net: RS.Network, a: RS.MatchedPoint, b: RS.MatchedPoint) {
    a.edgeId != b.edgeId && net.pointDistance(a.geometry, b.geometry) > 50.0
  }

  /** Every legacy gap is also a gap for route_solver.py, which adds the
      street-name clause. */
  lemma GapImpliesNewGap(net: RS.Network, a: RS.MatchedPoint, b: RS.MatchedPoint)
    ensures IsGap(net, a, b) ==> RS.IsGap(net, a, b)
  {
  }

  /** The edges of a fill: its node coordinates matched as a frame with
      index 0..n-1, and the matched edge ids collected. */
  function GapEdgeIds(net: RS.Network, serialId: int, recordId: int, line: seq<Coord>)
    : (r: Result<set<int>>)
    requires RS.WellFormed(net)
    ensures r.Failure? <==> MapPoints(net, RS.GapPoints(serialId, recordId, line), RS.Range(|line|)).Failure?
    ensures r.Success? ==>
      var m := MapPoints(net, RS.GapPoints(serialId, recordId, line), RS.Range(|line|)).value;
      forall e :: e in r.value <==> exists k | 0 <= k < |m| :: m[k].edgeId == e
  {
    match MapPoints(net, RS.GapPoints(serialId, recordId, line), RS.Range(|line|))
    case Failure(err) => Failure(err)
    case Success(m) => Success(set k | 0 <= k < |m| :: m[k].edgeId)
  }

  /** The frame state after the pass at position i. For a gap the fill is
      the node path itself: NoPath when the nodes are unconnected, the
      failure of matching its nodes, DegenerateLine when the path is one
      node (no LineString of one coordinate); otherwise the fill is
      recorded and the points from i on that lie on it move to its end. */
  function GapStep(net: RS.Network, pts: seq<RS.MatchedPoint>, gaps: seq<RS.Gap>, i: int)
    : (r: Result<(seq<RS.MatchedPoint>, seq<RS.Gap>)>)
    requires RS.WellFormed(net) && 1 <= i < |pts|
    ensures r.Success? && !IsGap(net, pts[i - 1], pts[i]) ==> r.value == (pts, gaps)
    ensures r.Failure? ==> IsGap(net, pts[i - 1], pts[i])
    ensures IsGap(net, pts[i - 1], pts[i])
            && net.shortestPath(net.nearestNode(pts[i - 1].geometry), net.nearestNode(pts[i].geometry)).None?
            ==> r == Failure(NoPath)
    ensures r.Success? && IsGap(net, pts[i - 1], pts[i]) ==>
      var path := net.shortestPath(net.nearestNode(pts[i - 1].geometry), net.nearestNode(pts[i].geometry));
      && path.Some? && |path.value| >= 2 && |r.value.1| == |gaps| + 1
    ensures r.Success? && IsGap(net, pts[i - 1], pts[i]) ==>
      var line := RS.PathCoords(net, net.shortestPath(net.nearestNode(pts[i - 1].geometry),
                                                      net.nearestNode(pts[i].geometry)).value);
      var g := r.value.1[|gaps|];
      && r.value.1[..|gaps|] == gaps
      && g.serialId == pts[i - 1].serialId && g.origRecordId == pts[i - 1].recordId
      && g.line == line
      && GapEdgeIds(net, g.serialId, g.origRecordId, line).Success?
      && g.edges == GapEdgeIds(net, g.serialId, g.origRecordId, line).value
      && r.value.0 == RS.Snapped(pts, i, RS.SnapEnd(net, pts, i, line), line[|line| - 1])
    ensures r.Failure? && r.error != NoPath ==>
      var line := RS.PathCoords(net, net.shortestPath(net.nearestNode(pts[i - 1].geometry),
                                                      net.nearestNode(pts[i].geometry)).value);
      if GapEdgeIds(net, pts[i - 1].serialId, pts[i - 1].recordId, line).Failure?
      then r.error == GapEdgeIds(net, pts[i - 1].serialId, pts[i - 1].recordId, line).error
      else r.error == DegenerateLine && |line| < 2
  {
    if !IsGap(net, pts[i - 1], pts[i]) then Success((pts, gaps))
    else
      var a, b := pts[i - 1], pts[i];
      match net.shortestPath(net.nearestNode(a.geometry), net.nearestNode(b.geometry))
      case None => Failure(NoPath)
      case Some(path) =>
        var line := RS.PathCoords(net, path);
        match GapEdgeIds(net, a.serialId, a.recordId, line)
        case Failure(err) => Failure(err)
        case Success(edges) =>
          if |line| < 2 then Failure(DegenerateLine)
          else
            var snapped := RS.Snapped(pts, i, RS.SnapEnd(net, pts, i, line), line[|line| - 1]);
            Success((snapped, gaps + [RS.Gap(a.serialId, a.recordId, edges, line)]))
  }

  /** A gap whose two ends have the same nearest node is filled by a
      one-node path, always fatal here (route_solver.py pads it instead). */
  lemma SameNearestNodeFails(net: RS.Network, pts: seq<RS.MatchedPoint>, gaps: seq<RS.Gap>, i: int)
    requires RS.WellFormed(net) && 1 <= i < |pts| && IsGap(net, pts[i - 1], pts[i])
    requires var s := net.nearestNode(pts[i - 1].geometry);
      s == net.nearestNode(pts[i].geometry) && net.shortestPath(s, s) == Some([s])
    ensures GapStep(net, pts, gaps, i).Failure?
  {
  }

  /** The passes at positions i..|pts|-1. */
  function FillFrom(net: RS.Network, pts: seq<RS.MatchedPoint>, gaps: seq<RS.Gap>, i: nat)
    : (r: Result<(seq<RS.MatchedPoint>, seq<RS.Gap>)>)
    requires RS.WellFormed(net) && i >= 1
    decreases |pts| - i
  {
    if i >= |pts| then Success((pts, gaps))
    else
      match GapStep(net, pts, gaps, i)
      case Failure(err) => Failure(err)
      case Success(next) => FillFrom(net, next.0, next.1, i + 1)
  }

  /** detectAndFillGap: the points (with moved geometries) and the filled
      gaps. */
  function FillGaps(net: RS.Network, pts: seq<RS.MatchedPoint>): Result<(seq<RS.MatchedPoint>, seq<RS.Gap>)>
    requires RS.WellFormed(net)
  {
    FillFrom(net, pts, [], 1)
  }

  lemma GapStepKept(net: RS.Network, pts: seq<RS.MatchedPoint>, gaps: seq<RS.Gap>, i: int)
    requires RS.WellFormed(net) && 1 <= i < |pts| && GapStep(net, pts, gaps, i).Success?
    ensures var r := GapStep(net, pts, gaps, i).value;
      && RS.Kept(pts, gaps, i, r.0, r.1)
      && forall g | |gaps| <= g < |r.1| ::
           r.1[g].serialId == pts[i - 1].serialId && r.1[g].origRecordId == pts[i - 1].recordId
  {
    var r := GapStep(net, pts, gaps, i).value;
    if IsGap(net, pts[i - 1], pts[i]) {
      forall k | 0 <= k < |pts| ensures RS.SameButGeometry(pts[k], r.0[k]) {
      }
      forall g | |gaps| <= g < |r.1|
        ensures |r.1[g].line| >= 2
        ensures exists k | i - 1 <= k < |pts| - 1 && k >= 0 ::
                  r.1[g].serialId == pts[k].serialId && r.1[g].origRecordId == pts[k].recordId
      {
        assert g == |gaps|;
        assert pts[i - 1].serialId == r.1[g].serialId;
      }
    }
  }

  lemma {:induction false} FillFromKept(net: RS.Network, pts: seq<RS.MatchedPoint>, gaps: seq<RS.Gap>, i: nat)
    requires RS.WellFormed(net) && i >= 1 && FillFrom(net, pts, gaps, i).Success?
    ensures var r := FillFrom(net, pts, gaps, i).value; RS.Kept(pts, gaps, i, r.0, r.1)
    decreases |pts| - i
  {
    if i >= |pts| {
      assert gaps[..|gaps|] == gaps;
    } else {
      var next := GapStep(net, pts, gaps, i).value;
      GapStepKept(net, pts, gaps, i);
      FillFromKept(net, next.0, next.1, i + 1);
      var r := FillFrom(net, pts, gaps, i).value;
      RS.KeptTrans(pts, gaps, i, next.0, next.1, r.0, r.1);
    }
  }

  /** detectAndFillGap changes nothing of the points but geometries, keeps
      the first point, every fill has two or more coordinates and every gap
      row carries the ids of a point that has a successor. */
  lemma FillGapsShape(net: RS.Network, pts: seq<RS.MatchedPoint>)
    requires RS.WellFormed(net) && FillGaps(net, pts).Success?
    ensures var r := FillGaps(net, pts).value;
      && |r.0| == |pts|
      && (forall k | 0 <= k < |pts| :: RS.SameButGeometry(pts[k], r.0[k]))
      && (|pts| > 0 ==> r.0[0] == pts[0])
      && (forall g | 0 <= g < |r.1| :: |r.1[g].line| >= 2
            && exists k | 0 <= k < |pts| - 1 ::
                 r.1[g].serialId == pts[k].serialId && r.1[g].origRecordId == pts[k].recordId)
  {
    FillFromKept(net, pts, [], 1);
  }

  lemma {:induction false} FillFromNoGap(net: RS.Network, pts: seq<RS.MatchedPoint>, gaps: seq<RS.Gap>, i: nat)
    requires RS.WellFormed(net) && i >= 1
    requires forall j | i <= j < |pts| :: !IsGap(net, pts[j - 1], pts[j])
    ensures FillFrom(net, pts, gaps, i) == Success((pts, gaps))
    decreases |pts| - i
  {
    if i < |pts| {
      FillFromNoGap(net, pts, gaps, i + 1);
    }
  }

  lemma {:induction false} FillFromFindsGap(net: RS.Network, pts: seq<RS.MatchedPoint>, gaps: seq<RS.Gap>, i: nat)
    requires RS.WellFormed(net) && i >= 1 && FillFrom(net, pts, gaps, i).Success?
    requires exists j | i <= j < |pts| :: IsGap(net, pts[j - 1], pts[j])
    ensures |FillFrom(net, pts, gaps, i).value.1| > |gaps|
    decreases |pts| - i
  {
    var next := GapStep(net, pts, gaps, i).value;
    if IsGap(net, pts[i - 1], pts[i]) {
      FillFromKept(net, next.0, next.1, i + 1);
    } else {
      FillFromFindsGap(net, pts, gaps, i + 1);
    }
  }

  /** No gap is found exactly when no two neighbouring input points leave
      one; then the points come back unchanged. */
  lemma FillGapsNoneIff(net: RS.Network, pts: seq<RS.MatchedPoint>)
    requires RS.WellFormed(net) && FillGaps(net, pts).Success?
    ensures FillGaps(net, pts).value.1 == []
            <==> forall j | 1 <= j < |pts| :: !IsGap(net, pts[j - 1], pts[j])
    ensures (forall j | 1 <= j < |pts| :: !IsGap(net, pts[j - 1], pts[j]))
            ==> FillGaps(net, pts).value.0 == pts
  {
    if forall j | 1 <= j < |pts| :: !IsGap(net, pts[j - 1], pts[j]) {
      FillFromNoGap(net, pts, [], 1);
    } else {
      FillFromFindsGap(net, pts, [], 1);
    }
  }

  /** The edge ids of a fill, by matching its nodes. */
  method GapEdges(net: RS.Network, serialId: int, recordId: int, line: seq<Coord>)
    returns (r: Result<set<int>>)
    requires RS.WellFormed(net)
    ensures r == GapEdgeIds(net, serialId, recordId, line)
  {
    var gapPoints: seq<RS.TripPoint> := [];
    for k := 0 to |line|
      invariant gapPoints == RS.GapPoints(serialId, recordId, line)[..k]
    {
      gapPoints := gapPoints + [RS.TripPoint(serialId, recordId, line[k])];
    }
    assert gapPoints == RS.GapPoints(serialId, recordId, line);
    var onNet := MapPointToNetwork(net, gapPoints, RS.Range(|line|));
    if onNet.Failure? {
      return Failure(onNet.error);
    }
    var m := onNet.value;
    return Success(set k | 0 <= k < |m| :: m[k].edgeId);
  }

  /** The body of detectAndFillGap's loop for position i. */
  method FillOne(net: RS.Network, points: seq<RS.MatchedPoint>, gaps: seq<RS.Gap>, i: int)
    returns (r: Result<(seq<RS.MatchedPoint>, seq<RS.Gap>)>)
    requires RS.WellFormed(net) && 1 <= i < |points|
    ensures r == GapStep(net, points, gaps, i)
  {
    if !IsGap(net, points[i - 1], points[i]) {
      return Success((points, gaps));
    }
    var a, b := points[i - 1], points[i];
    var startNode := net.nearestNode(a.geometry);
    var endNode := net.nearestNode(b.geometry);
    var shortestRoute := net.shortestPath(startNode, endNode);
    if shortestRoute.None? {
      assert GapStep(net, points, gaps, i) == Failure(NoPath);
      return Failure(NoPath);
    }
    var routeGeo := RS.PathCoords(net, shortestRoute.value);
    var edges := GapEdges(net, a.serialId, a.recordId, routeGeo);
    if edges.Failure? {
      assert GapStep(net, points, gaps, i) == Failure(edges.error);
      return Failure(edges.error);
    }
    if |routeGeo| < 2 {
      assert GapStep(net, points, gaps, i) == Failure(DegenerateLine);
      return Failure(DegenerateLine);
    }
    var pts := RS.SnapToFill(net, points, i, routeGeo);
    var gap := RS.Gap(a.serialId, a.recordId, edges.value, routeGeo);
    assert GapStep(net, points, gaps, i) == Success((pts, gaps + [gap]));
    return Success((pts, gaps + [gap]));
  }

  /** detectAndFillGap: every neighbouring pair, left to right, on the
      points as earlier passes left them. */
  method DetectAndFillGap(net: RS.Network, points: seq<RS.MatchedPoint>)
    returns (r: Result<(seq<RS.MatchedPoint>, seq<RS.Gap>)>)
    requires RS.WellFormed(net)
    ensures r == FillGaps(net, points)
  {
    var pts := points;
    var gaps: seq<RS.Gap> := [];
    var i := 1;
    while i < |pts|
      invariant i >= 1
      invariant FillFrom(net, pts, gaps, i) == FillGaps(net, points)
      decreases |pts| - i
    {
      var next := FillOne(net, pts, gaps, i);
      if next.Failure? {
        return Failure(next.error);
      }
      pts, gaps := next.value.0, next.value.1;
      i := i + 1;
    }
    return Success((pts, gaps));
  }

  // ---------------------------------------------------------------------
  // RouteChoiceGen
  // ---------------------------------------------------------------------

  /** The columns of the trip frame that RouteChoiceGen looks for. */
  datatype Column = RecordIdColumn | SerialIdColumn | GeometryColumn | OtherColumn(name: int)

  const RequiredColumns: seq<Column> := [RecordIdColumn, SerialIdColumn, GeometryColumn]

  /** The check before any matching: MissingColumn when RecordID, SerialID
      or geometry is absent, else WrongGeometryType when the geometry
      column's dtype is not 'geometry'. */
  function ColumnCheck(columns: seq<Column>, geometryTyped: bool): (r: Option<Error>)
    ensures r.None? <==> (forall c | c in RequiredColumns :: c in columns) && geometryTyped
    ensures r == Some(MissingColumn) <==> exists c | c in RequiredColumns :: c !in columns
    ensures r == Some(WrongGeometryType)
            <==> (forall c | c in RequiredColumns :: c in columns) && !geometryTyped
  {
    if exists c | c in RequiredColumns :: c !in columns then Some(MissingColumn)
    else if !geometryTyped then Some(WrongGeometryType)
    else None
  }

  /** The column check, column by column. */
  method CheckColumns(columns: seq<Column>, geometryTyped: bool) returns (r: Option<Error>)
    ensures r == ColumnCheck(columns, geometryTyped)
  {
    for k := 0 to |RequiredColumns|
      invariant forall j | 0 <= j < k :: RequiredColumns[j] in columns
    {
      if RequiredColumns[k] !in columns {
        return Some(MissingColumn);
      }
    }
    if !geometryTyped {
      return Some(WrongGeometryType);
    }
    return None;
  }

  /** One row of the output: match, fill, connect, and collect edges. */
  function RouteFor(net: RS.Network, trip: seq<RS.TripPoint>, labels: seq<int>, s: int): (r: Result<RS.Route>)
    requires RS.WellFormed(net) && |labels| == |trip|
    ensures r.Success? ==> r.value.serialId == s
    ensures r.Success? <==>
      var rows := RS.SerialRows(trip, labels, s);
      && MapPoints(net, rows.0, rows.1).Success?
      && FillGaps(net, MapPoints(net, rows.0, rows.1).value).Success?
      && var f := FillGaps(net, MapPoints(net, rows.0, rows.1).value).value;
         RS.ConnectRoute(f.0, f.1).Success?
    ensures r.Success? ==>
      var rows := RS.SerialRows(trip, labels, s);
      var f := FillGaps(net, MapPoints(net, rows.0, rows.1).value).value;
      r.value.edges == RS.RouteEdges(f.0, f.1) && r.value.line == RS.ConnectRoute(f.0, f.1).value
  {
    var rows := RS.SerialRows(trip, labels, s);
    match MapPoints(net, rows.0, rows.1)
    case Failure(err) => Failure(err)
    case Success(onNet) =>
      match FillGaps(net, onNet)
      case Failure(err) => Failure(err)
      case Success(filled) =>
        match RS.ConnectRoute(filled.0, filled.1)
        case Failure(err) => Failure(err)
        case Success(line) => Success(RS.Route(s, RS.RouteEdges(filled.0, filled.1), line))
  }

  function RouteResults(net: RS.Network, trip: seq<RS.TripPoint>, labels: seq<int>, serials: seq<int>)
    : (rs: seq<Result<RS.Route>>)
    requires RS.WellFormed(net) && |labels| == |trip|
    ensures |rs| == |serials| && forall k | 0 <= k < |serials| :: rs[k] == RouteFor(net, trip, labels, serials[k])
  {
    seq(|serials|, k requires 0 <= k < |serials| => RouteFor(net, trip, labels, serials[k]))
  }

  /** RouteChoiceGen: the column check, then the serials in the order
      value_counts lists them, the first failure aborting the call. */
  function Routes(net: RS.Network, columns: seq<Column>, geometryTyped: bool,
                  trip: seq<RS.TripPoint>, labels: seq<int>, serials: seq<int>)
    : Result<seq<RS.Route>>
    requires RS.WellFormed(net) && |labels| == |trip|
  {
    match ColumnCheck(columns, geometryTyped)
    case Some(err) => Failure(err)
    case None => RS.Collect(RouteResults(net, trip, labels, serials))
  }

  /** A frame that fails the column check fails with that error whatever
      its rows; one that passes it has one route per serial, each that
      serial's own, or the first serial's failure. */
  lemma RoutesRows(net: RS.Network, columns: seq<Column>, geometryTyped: bool,
                   trip: seq<RS.TripPoint>, labels: seq<int>, serials: seq<int>)
    requires RS.WellFormed(net) && |labels| == |trip|
    ensures var r := Routes(net, columns, geometryTyped, trip, labels, serials);
      && (ColumnCheck(columns, geometryTyped).Some? ==> r == Failure(ColumnCheck(columns, geometryTyped).value))
      && (ColumnCheck(columns, geometryTyped).None? ==>
            && (r.Success? <==> forall k | 0 <= k < |serials| :: RouteFor(net, trip, labels, serials[k]).Success?)
            && (r.Success? ==> |r.value| == |serials| && forall k | 0 <= k < |serials| ::
                  r.value[k] == RouteFor(net, trip, labels, serials[k]).value && r.value[k].serialId == serials[k])
            && (r.Failure? ==> exists k | 0 <= k < |serials| ::
                  && RouteFor(net, trip, labels, serials[k]).Failure?
                  && r.error == RouteFor(net, trip, labels, serials[k]).error
                  && forall j | 0 <= j < k :: RouteFor(net, trip, labels, serials[j]).Success?))
  {
    var rs := RouteResults(net, trip, labels, serials);
  }

  /** A serial none of whose rows is labelled 0 cannot be matched: the
      first point's lookup of label 0 fails, here as in route_solver.py. */
  lemma SerialWithoutLabelZero(net: RS.Network, trip: seq<RS.TripPoint>, labels: seq<int>, s: int)
    requires RS.WellFormed(net) && |labels| == |trip|
    requires exists q | 0 <= q < |trip| :: trip[q].serialId == s
    requires var pos := RS.SerialPositions(trip, s, |trip|);
      forall k | 0 <= k < |pos| :: labels[pos[k]] != 0
    ensures RouteFor(net, trip, labels, s) == Failure(MissingLabel)
  {
    var rows := RS.SerialRows(trip, labels, s);
    RS.SerialLacksLabelZero(trip, labels, s);
    NoLabelZeroFails(net, rows.0, rows.1);
  }

  /** A non-empty frame without the label 0 cannot be mapped: the first
      point's lookup of label 0 fails. */
  lemma NoLabelZeroFails(net: RS.Network, points: seq<RS.TripPoint>, labels: seq<int>)
    requires RS.WellFormed(net) && |labels| == |points| && |points| > 0
    requires LabelPos(labels, 0).None?
    ensures MapPoints(net, points, labels) == Failure(MissingLabel)
  {
    var r := FinalEdgeIds(net, points);
    assert !MatchRow(net, points, labels, 0, r[0]).Success?;
  }

  /** RouteChoiceGen. */
  method RouteChoiceGen(net: RS.Network, columns: seq<Column>, geometryTyped: bool,
                        trip: seq<RS.TripPoint>, labels: seq<int>, serials: seq<int>)
    returns (r: Result<seq<RS.Route>>)
    requires RS.WellFormed(net) && |labels| == |trip|
    ensures r == Routes(net, columns, geometryTyped, trip, labels, serials)
  {
    var err := CheckColumns(columns, geometryTyped);
    if err.Some? {
      return Failure(err.value);
    }
    ghost var rs := RouteResults(net, trip, labels, serials);
    var routes: seq<RS.Route> := [];
    for k := 0 to |serials|
      invariant RS.Collect(rs[..k]) == Success(routes)
    {
      var route := SerialRoute(net, trip, labels, serials[k]);
      RS.CollectStep(rs, k, routes, route);
      if route.Failure? {
        return Failure(route.error);
      }
      routes := routes + [route.value];
    }
    assert rs[..|serials|] == rs;
    return Success(routes);
  }

  /** The body of RouteChoiceGen's loop for one serial. */
  method SerialRoute(net: RS.Network, trip: seq<RS.TripPoint>, labels: seq<int>, serialId: int)
    returns (r: Result<RS.Route>)
    requires RS.WellFormed(net) && |labels| == |trip|
    ensures r == RouteFor(net, trip, labels, serialId)
  {
    var rows := RS.SerialRows(trip, labels, serialId);
    var onNet := MapPointToNetwork(net, rows.0, rows.1);
    if onNet.Failure? {
      return Failure(onNet.error);
    }
    var filled := DetectAndFillGap(net, onNet.value);
    if filled.Failure? {
      return Failure(filled.error);
    }
    var line := RS.ConnectPointsAndFilledGaps(filled.value.0, filled.value.1);
    if line.Failure? {
      return Failure(line.error);
    }
    var edges := RS.UnionEdges(filled.value.0, filled.value.1);
    return Success(RS.Route(serialId, edges, line.value));
  }
}
