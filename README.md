# PyERT-BLACK in Dafny

A model of the core of PyERT-BLACK, a pipeline that turns a raw GPS log into
trips and activity locations. The pipeline runs in these stages:

- **GPS pre-processing** drops rows that repeat a position, and rows faster
  than 180 km/h.
- **Mode detection** reconstructs the seconds of each fix. A hysteresis
  machine then cuts the fixes into car, walk and stop episodes, and each
  episode gets one representative row.
- **Extraction** splits the episode table into trip segments and activity
  locations. It also marks trip points closer than 5 to their anchor.
- **Route solving**, in two versions (`route_solver.py` and the earlier
  `RouteSolver.py`):
  - matches trip points to network edges;
  - smooths the edge ids by street name;
  - fills gaps with shortest paths;
  - splices points and fills into one route;
  - collects the route's edges.
- **Route-choice variables**: the nearest street of a point, left and right
  turns, and the longest leg.
- **Network-data utilities**: the padded bounding box of a set of points, the
  network mode of a trip, and the mode guards in front of the network
  extraction. The utilities appear twice, once in `network_data_utils.py` and
  once in `main-ap.py`.
- **Activity-location identification**: the nearest land use and building of
  each activity location, and the join of the two.

Each source file is one module:

| source | module |
|---|---|
| `ModeDetection.py` | `ModeDetection` (`calc_time_acc`), `StageDetection` (`detect_modes`) |
| `Extractor.py` | `Extractor` |
| `GPSPreprocess.py` | `GPSPreprocess` |
| `route_solver.py` | `RouteSolver` |
| `RouteSolver.py` | `RouteSolverLegacy` |
| `variable_generator.py` | `VariableGenerator` |
| `network_data_utils.py` | `NetworkData` |
| `main-ap.py` | `MainAp` |
| `activity_locations_identification.py` | `ActivityLocations` |
| (shared) | `Common`: coordinates, `Option`, `Result` and the `Error` of a raised exception |

How the model is built:

- The library queries become parameters. That covers:
  - distances;
  - osmnx nearest edge, nearest node and shortest path;
  - shapely projection and line distance;
  - the turn angle.
- A loop that updates state becomes a method. Each method is proved equal to
  a function of its inputs, and the lemmas state what the source promises
  about that function.
- Some calls raise an exception in the source, such as a missing label, an
  empty marker list or a degenerate LineString. These return a `Failure`
  that names the error. A numpy division by 0.0 does not raise: it yields
  inf or nan, which the model keeps as values.

Some code is reused rather than written twice:

- `connectPointsAndFilledGaps` in `RouteSolver.py` is the same code as
  `connect_points_and_filled_gaps`. The earlier version's route is
  therefore built by `RouteSolver.ConnectPointsAndFilledGaps`.
- `get_points_boundary` and `get_trip_mode` in `main-ap.py`, lines 21-38
  and 136-146, are copies of the ones in `network_data_utils.py`. So is
  main-ap's `extract_networkdata_bbox` guard, lines 77-84. They are modelled
  by the `NetworkData` members, and some rows below cite the `main-ap.py`
  copy.

## Model

| member | source | states |
|---|---|---|
| `ModeDetection.MarkersBelow` | src/ModeDetection.py:45-59 | the `marker` list: exactly the indices where the minute field changes, in increasing order |
| `ModeDetection.SegStart` | src/ModeDetection.py:39-58 | where the minute of fix k starts: the last minute change at or before k, or 0, with no change in between |
| `ModeDetection.NextMarkerFrom` | src/ModeDetection.py:45-58 | the first minute change at or after j, or none when no later fix changes minute |
| `ModeDetection.ZerosIn` | src/ModeDetection.py:58-65 | the `zeros` list holds only fixes at rest within the minute |
| `ModeDetection.ZeroListed` | src/ModeDetection.py:62-65 | every fix at rest within the minute is in the `zeros` list |
| `ModeDetection.MarkerListed` | src/ModeDetection.py:45-59 | every minute change is in the `marker` list |
| `ModeDetection.AvgStopTime` | src/ModeDetection.py:47-48 | the share of each fix at rest is non-negative. The moving time plus one share per fix at rest equals max(59.99, moving time) |
| `ModeDetection.CloseSegment` | src/ModeDetection.py:45-55 | a fix at rest in a minute that a later change closes receives that minute's share |
| `ModeDetection.LastSegmentOpen` | src/ModeDetection.py:45-66 | fixes at rest in the last minute never receive a share, since no minute change follows them |
| `ModeDetection.TravelTimeZero` | src/ModeDetection.py:67-77 | an interior moving fix never stops the scan. Its travel time is 0 exactly when it travels no distance; then its seconds are 0 and its acceleration is not finite: nan when the next fix has the same speed, inf otherwise |
| `ModeDetection.Quotient` | src/ModeDetection.py:77 | numpy division of a non-negative numerator: finite exactly for a non-zero divisor, and then the real quotient (float64 overflow to inf is not modelled); nan exactly for 0/0 |
| `ModeDetection.TimeAccFailsIff` | src/ModeDetection.py:32-90 | calc_time_acc raises exactly for a moving last fix (DistanceToEmptySlice) or a log whose minute never changes (EmptyMarkerList); zero distances never make it raise |
| `ModeDetection.BadOnlyAtEnd` | src/ModeDetection.py:67-77 | the only fix the loop cannot pass is a moving last fix |
| `ModeDetection.FillStops` | src/ModeDetection.py:49-54 | every listed fix at rest gets the share. Its acceleration becomes the next speed over the share only when the share is non-zero. Every other entry is unchanged |
| `ModeDetection.CloseMinute` | src/ModeDetection.py:46-58 | after the `if (zeros)` block, the closed minute's entries are final and nothing is pending |
| `ModeDetection.ScanFixes` | src/ModeDetection.py:39-77 | fails exactly when some fix cannot be passed, which is only a moving last fix, with DistanceToEmptySlice. Otherwise it returns the raw seconds, the accelerations (inf or nan at a zero travel time) and the minute changes |
| `ModeDetection.RunningSums` | src/ModeDetection.py:80-88 | each second becomes the sum of the raw seconds from the start of its minute up to itself |
| `ModeDetection.CalcTimeAcc` | src/ModeDetection.py:32-90 | equals the closed form `TimeAcc`: DistanceToEmptySlice for a moving last fix, the EmptyMarkerList failure of `marker.pop(0)` when the minute never changes, otherwise the running seconds and the accelerations |
| `ModeDetection.FinalSecondsRestart` | src/ModeDetection.py:82-88 | the final seconds restart at each minute change and otherwise accumulate |
| `ModeDetection.StopsFillTheMinute` | src/ModeDetection.py:46-54 | in a closed minute with a fix at rest, the final seconds of its last fix are max(59.99, moving time) |
| `StageDetection.Classify` | src/ModeDetection.py:107-113 | a fix is car exactly when its speed exceeds 10.008 km/h. 10.008 itself is walk/stop |
| `StageDetection.ValidAfter` | src/ModeDetection.py:108-111 | valid_stop survives a fix exactly when the fix is not at walking speed (0.36 < s <= 10.008) |
| `StageDetection.ReconstructTime` | src/ModeDetection.py:118-126 | datetime accepts the time exactly when 0 <= s < 60. The second is then in 0..59, the microsecond in 0..999999, and together they lie within one microsecond below s |
| `StageDetection.StepInvariant` | src/ModeDetection.py:106-221 | one loop step keeps the machine invariant: episodes start and end at fixes already seen, start_index is in range, and the key-0 entry is 'invalid' and starts at fix 0 |
| `StageDetection.RunInvariant` | src/ModeDetection.py:106-221 | the invariant holds after any number of fixes |
| `StageDetection.ValidStopAfterCar` | src/ModeDetection.py:100-216 | valid_stop is set only after a car fix with no walking-speed fix since |
| `StageDetection.StepStable` | src/ModeDetection.py:134-216 | one step never removes or relabels an episode. Only the last episode's end can move, and an 'invalid' first stage stays |
| `StageDetection.RunPrevTime` | src/ModeDetection.py:127-131 | after k fixes, prev_time is the time of fix k-1 |
| `StageDetection.RunStable` | src/ModeDetection.py:134-216 | later fixes never remove or relabel an episode. Only the last episode's end can move |
| `StageDetection.AllCar` | src/ModeDetection.py:134-155 | an all-car stream without a gap gives one car episode over all fixes if it lasts over 120 s, else none |
| `StageDetection.AllSlow` | src/ModeDetection.py:149-167 | an all-walk/stop stream without a gap gives one walk episode if it lasts over 60 s, else none |
| `StageDetection.Rows` | src/ModeDetection.py:228-243 | one output row per numbered episode |
| `StageDetection.DetectRows` | src/ModeDetection.py:228-251 | every output mode is stop, walk or car. Once an 'invalid' first stage exists, every row is taken from fix 0, because `target` is never updated again |
| `StageDetection.PickRepresentatives` | src/ModeDetection.py:228-243 | the loop equals `Rows`: one row per numbered episode, from the representative fix |
| `StageDetection.RunMachine` | src/ModeDetection.py:106-221 | fails with InvalidTimestamp exactly when a seconds value is outside [0, 60). Otherwise it ends in the state `Run` gives |
| `StageDetection.StepFix` | src/ModeDetection.py:107-221 | the loop body on local variables equals the step function |
| `StageDetection.DetectModes` | src/ModeDetection.py:92-251 | equals the closed form `Detect`: it fails only where calc_time_acc or datetime raises, and never reads the accelerations, so an inf or nan there changes nothing |
| `Extractor.LabelRows` | src/ModeDetection.py:245-251 | the episode frame is labelled 0..n-1 in row order |
| `Extractor.ExtractTripSegments` | src/Extractor.py:10-12 | keeps exactly the rows whose MODES is Walk or Drive |
| `Extractor.ExtractActivityLocations` | src/Extractor.py:37-38 | keeps exactly the rows whose MODES is Stop |
| `Extractor.ExtractionsKeepOrder` | src/Extractor.py:12 | both filters distribute over concatenation, so the row order is preserved |
| `Extractor.ExtractionsOfOneRow` | src/Extractor.py:10-38 | a single row is kept or dropped by its mode label alone: "Walk"/"Drive" for trip segments, "Stop" for activity locations |
| `Extractor.TripAndActivityDisjoint` | src/Extractor.py:10-38 | no row is both a trip segment and an activity location |
| `Extractor.LowerCaseLabelsSelectNothing` | src/Extractor.py:11-12 | rows labelled car, walk or stop are selected by neither filter |
| `Extractor.DetectedEpisodesSelectNothing` | src/Extractor.py:11-38 | the episode table from mode detection selects nothing, because its labels are lower-case |
| `Extractor.FilterKeepsLabelOrder` | src/Extractor.py:12 | a filtered frame keeps labels that increase strictly |
| `Extractor.RelaxFromGuarantee` | src/Extractor.py:19-30 | from any scan state that satisfies the invariant, a successful scan leaves kept points at least 5 apart, the dropped labels are increasing frame labels other than 1, and the kept points are the earlier ones followed by `KeptRows` of the drops |
| `Extractor.RelaxSpacing` | src/Extractor.py:15-30 | after a successful scan, the kept points are exactly the rows before the break row (the first row labelled with the frame length) whose label is 1 or was not dropped; consecutive kept points are at least 5 apart, label 1 is never dropped, and every dropped label is a frame label |
| `Extractor.BreakAt` | src/Extractor.py:25-26 | the first row from i on where the scan stops: its label is the frame length and not 1; no earlier row from i on is one |
| `Extractor.RelaxFromDrops` | src/Extractor.py:19-30 | a scan from row i only appends to the drop list, and only labels of rows from i on |
| `Extractor.RelaxFromKept` | src/Extractor.py:19-30 | with drops so far below every later label, the points kept from row i on are the rows up to the break whose label is 1 or is not among the final drops |
| `Extractor.Extractor.constructor` | src/Extractor.py:5-7 | both frames are the filters of the labelled episode table |
| `Extractor.AnchoredNeverFails` | src/Extractor.py:19-30 | once an anchor point exists, the scan cannot fail |
| `Extractor.RelaxFailsIff` | src/Extractor.py:16-27 | the scan aborts with AnchorNotPoint exactly when the first trip row is labelled neither 1 nor the row count, because `start` is then still the integer 0 |
| `Extractor.Extractor.RelaxTrip` | src/Extractor.py:15-31 | returns the dropped labels exactly when the scan succeeds, and otherwise AnchorNotPoint. Label 1 is never dropped, and every dropped label is a frame label. The object is unchanged, because the result of `drop` is discarded |
| `GPSPreprocess.FirstAt` | src/GPSPreprocess.py:35 | the first row with a given latitude and longitude |
| `GPSPreprocess.DropDuplicatesPositions` | src/GPSPreprocess.py:35 | dropping duplicates keeps the same set of positions |
| `GPSPreprocess.DropDuplicatesDistinct` | src/GPSPreprocess.py:35 | no two kept rows share a position |
| `GPSPreprocess.DropDuplicatesKeepsFirst` | src/GPSPreprocess.py:35 | each kept row is the first row with its position, and kept rows are in original order |
| `GPSPreprocess.DropDuplicatesAppendDuplicate` | src/GPSPreprocess.py:35 | a row that repeats a position already seen is dropped |
| `GPSPreprocess.DropDuplicatesLength` | src/GPSPreprocess.py:35 | never more rows than the input |
| `GPSPreprocess.FilterData` | src/GPSPreprocess.py:30-44 | None stays None. Otherwise there is one output row per kept row, in order, carrying every column of that row (RecordID, SerialID, LocalTime, latitude, longitude, Speed_kmh) and the point (longitude, latitude) as geometry |
| `GPSPreprocess.SmoothData` | src/GPSPreprocess.py:47-56 | None stays None. Otherwise every output row is an input row, no output row is over 180 km/h, and every row at or below 180 km/h is kept |
| `GPSPreprocess.SmoothKeepsOrder` | src/GPSPreprocess.py:52-55 | smoothing distributes over concatenation, so the kept rows stay in input order |
| `GPSPreprocess.SmoothOneRow` | src/GPSPreprocess.py:52 | a single row is kept exactly when its speed is at most 180 km/h |
| `GPSPreprocess.Preprocess` | src/GPSPreprocess.py:19-23 | the constructor's pipeline: None exactly when the input is None |
| `GPSPreprocess.PreprocessShrinks` | src/GPSPreprocess.py:19-23 | the processed rows are no more than the input, none is over 180 km/h, and no two share a position |
| `GPSPreprocess.SmoothKeepsDistinct` | src/GPSPreprocess.py:52 | removing fast rows keeps positions distinct |
| `GPSPreprocess.SubsequenceDistinct` | src/GPSPreprocess.py:52 | a filtered frame of rows with distinct positions keeps them distinct |
| `GPSPreprocess.SmoothBoundary` | src/GPSPreprocess.py:52 | 180.0 km/h is kept, anything above it is dropped |
| `Common.LabelPosFrom` | src/route_solver.py:164-167 | where a label lookup `points['geometry'][k]` lands: the first row labelled k, or none (the KeyError) |
| `RouteSolver.Range` | src/route_solver.py:299-302 | the default index 0..n-1 of a frame built from lists |
| `RouteSolver.RangeLabelPos` | src/route_solver.py:299-305 | in a frame built from lists, label k is at position k exactly when 0 <= k < n |
| `RouteSolver.Reassigned` | src/route_solver.py:139-155 | the in-place rewrite keeps the length and does not touch positions it has not reached |
| `RouteSolver.ReassignedStable` | src/route_solver.py:139-155 | once the loop has passed position j, later steps never change it |
| `RouteSolver.FinalEdges` | src/route_solver.py:139-155 | the rewritten list in closed form. The first point keeps its edge. An interior point takes its predecessor's rewritten edge when the predecessor's street is the successor's and its own is not. The last point takes its predecessor's edge when the streets differ and the edges are within 10 |
| `RouteSolver.NoIsolatedStreet` | src/route_solver.py:140-146 | after the rewrite, an interior point between two points of one street is on that street |
| `RouteSolver.ChosenLeg` | src/route_solver.py:162-169 | the chosen leg is leg 0, or a leg closer than the first leg was. No later leg is closer. near_leg_dist is never lowered, so this is the last such leg, not the nearest |
| `RouteSolver.LegFor` | src/route_solver.py:163-169 | the leg of a point: the scan over legs 1.. against the distance from leg 0, always a leg of the edge |
| `RouteSolver.MatchRow` | src/route_solver.py:157-172 | one output row. It fails with MissingLabel exactly when a looked-up label is missing, or the positional index of the projected point (the inner `i`) is out of range. Otherwise it keeps ids, the final edge and its name; its leg is the one `LegFor` scans out, and its geometry is the projection onto that leg of the point at the last leg index |
| `RouteSolver.NearestEdges` | src/route_solver.py:130-135 | the first loop: the nearest edge of each point |
| `RouteSolver.FinalEdgeIds` | src/route_solver.py:139-155 | one final edge id per point |
| `RouteSolver.MapPoints` | src/route_solver.py:105-184 | one matched row per point, or MissingLabel |
| `RouteSolver.MapPointsRows` | src/route_solver.py:139-184 | each row keeps its point's ids, carries the final edge id of its point and names that edge's street; its leg is the scanned leg and its geometry the projection onto it. No interior point is alone on a street between two points of another |
| `RouteSolver.MapPointsOnRangeIndex` | src/route_solver.py:164-171 | with the index 0..n-1, matching succeeds exactly when no final edge has more than n+1 coordinates |
| `RouteSolver.ShadowedIndexLooksUpLegLabel` | src/route_solver.py:165-167 | the inner loop reuses `i`. So one point on an edge of three coordinates looks up label 1, which a one-row frame lacks |
| `RouteSolver.RowFailureFails` | src/route_solver.py:139-172 | a failing row fails the whole matching with MissingLabel |
| `RouteSolver.MapPointToNetwork` | src/route_solver.py:105-184 | both loops, with the edge list rewritten in place, equal `MapPoints` |
| `RouteSolver.MatchOne` | src/route_solver.py:157-172 | the leg scan and projection of one point equal `MatchRow` |
| `RouteSolver.PathCoords` | src/route_solver.py:234-236 | the coordinates of the nodes on a path, in order |
| `RouteSolver.FillLine` | src/route_solver.py:223-240 | fails with NoPath exactly when the nodes are unreachable. A one-node path is framed by the two gap points. The line always has at least two coordinates |
| `RouteSolver.GapPoints` | src/route_solver.py:293-301 | one point per coordinate of the fill, carrying the gap origin's ids |
| `RouteSolver.GapEdgeIds` | src/route_solver.py:278-307 | fails exactly when matching the fill's points fails. Otherwise it is the set of edge ids of the matched points |
| `RouteSolver.SnapEnd` | src/route_solver.py:258-265 | the snap covers the points from i on that lie on the fill, and stops at the first that does not |
| `RouteSolver.Snapped` | src/route_solver.py:258-265 | exactly the snapped points move to the end of the fill; nothing else changes |
| `RouteSolver.GapStep` | src/route_solver.py:209-265 | without a gap nothing changes. With one, it appends a gap row with the origin's ids, the fill line and the edges of `GapEdgeIds` on that line, and snaps the covered points. It fails only at a gap, with the error of the fill or of matching the line |
| `RouteSolver.GapStepKept` | src/route_solver.py:212-262 | one pass changes only geometries from position i on, and adds gaps whose origin is point i-1 |
| `RouteSolver.FillFromKept` | src/route_solver.py:209-265 | the passes from i on keep earlier rows and change only geometries |
| `RouteSolver.FillGapsShape` | src/route_solver.py:187-276 | the same number of points, differing only in geometry. The first point is untouched. Every gap has a line of two or more coordinates and the ids of a point before the last |
| `RouteSolver.FillFromNoGap` | src/route_solver.py:209-214 | with no gap from i on, the frame is returned unchanged |
| `RouteSolver.FillFromFindsGap` | src/route_solver.py:209-219 | a gap from i on always adds a gap row |
| `RouteSolver.FillGapsNoneIff` | src/route_solver.py:209-214 | no gap row exactly when no neighbouring pair is a gap (different edges and over 50 apart, or different street names). Then the points are unchanged |
| `RouteSolver.FilledGapEdges` | src/route_solver.py:278-307 | the method equals `GapEdgeIds` |
| `RouteSolver.FillOne` | src/route_solver.py:212-265 | the loop body equals `GapStep` |
| `RouteSolver.SnapToFill` | src/route_solver.py:258-265 | the inner loop equals `Snapped` up to `SnapEnd` |
| `RouteSolver.DetectAndFillGap` | src/route_solver.py:187-276 | the loop over neighbouring pairs equals `FillGaps` |
| `RouteSolver.FirstGapFrom` | src/route_solver.py:324-331 | the first gap whose origin ids are a point's SerialID and RecordID, or none |
| `RouteSolver.AppendNew` | src/route_solver.py:342-345 | appends a coordinate unless it repeats the last one. It never creates consecutive duplicates |
| `RouteSolver.AppendLine` | src/route_solver.py:331-337 | appends a fill line without consecutive duplicates, extending the route |
| `RouteSolver.ConnectRoute` | src/route_solver.py:350-353 | the route, or DegenerateLine when it has one coordinate |
| `RouteSolver.ConnectShape` | src/route_solver.py:319-353 | the route has no consecutive duplicates, and each coordinate is a point or lies on a fill |
| `RouteSolver.ConnectPrefix` | src/route_solver.py:321-348 | the route of a prefix of the points is a prefix of the route |
| `RouteSolver.ConnectEmptyBeforeOrigin` | src/route_solver.py:339-348 | a plain point is appended only to a non-empty route. Without a gap origin the route stays empty |
| `RouteSolver.ConnectStartsAtFirstFill` | src/route_solver.py:321-337 | the route starts at the first coordinate of the first fill reached |
| `RouteSolver.ConnectPointsAndFilledGaps` | src/route_solver.py:310-353 | the loop equals `ConnectRoute` |
| `RouteSolver.GapEdgeUnionMembers` | src/route_solver.py:93-95 | the union of the gaps' edge sets holds exactly the edges of some gap |
| `RouteSolver.RouteEdgesMembers` | src/route_solver.py:91-96 | a route passes exactly the edges of its points and of its fills |
| `RouteSolver.UnionEdges` | src/route_solver.py:91-96 | the loop equals `RouteEdges` |
| `RouteSolver.SerialPositions` | src/route_solver.py:65 | the rows of one serial, in increasing order, none missed |
| `RouteSolver.RouteFor` | src/route_solver.py:63-96 | a route for serial s carries s. It succeeds exactly when matching, gap filling and connecting all succeed; its edges are `RouteEdges` of the filled points and gaps, and its line is `ConnectRoute` of them |
| `RouteSolver.Collect` | src/route_solver.py:63-96 | all results succeed, or the first failure is reported |
| `RouteSolver.RouteResults` | src/route_solver.py:63-96 | one result per serial, in order |
| `RouteSolver.RoutesRows` | src/route_solver.py:58-102 | one route per serial, in order, or the error of the first failing serial |
| `RouteSolver.RouteChoiceGen` | src/route_solver.py:41-102 | the loop over serials equals `Routes` |
| `RouteSolver.SerialRoute` | src/route_solver.py:64-96 | one serial's loop body equals `RouteFor` |
| `RouteSolver.FailsAt` | src/route_solver.py:63-87 | the first failing serial decides the failure |
| `RouteSolver.TwoSerialsMissLabelZero` | src/route_solver.py:65-68 | filtering keeps the trip's labels. When the labels are distinct and the trip has two or more serials, one serial has no row labelled 0, and route generation fails |
| `RouteSolver.SerialWithoutLabelZero` | src/route_solver.py:63-68 | a serial with no row labelled 0 fails with MissingLabel: filtering keeps the trip's labels, and matching looks up label 0 |
| `RouteSolverLegacy.MatchRow` | src/RouteSolver.py:125-140 | the same leg scan as route_solver.py: its leg is the one `LegFor` scans out. The geometry projects the last point of the frame onto that leg, because `point` is left over from the first loop. It fails exactly when a scanned label is missing |
| `RouteSolverLegacy.FinalEdgeIds` | src/RouteSolver.py:116-123 | one final edge id per point |
| `RouteSolverLegacy.MapPoints` | src/RouteSolver.py:85-152 | one row per point, or MissingLabel |
| `RouteSolverLegacy.MapPointsRows` | src/RouteSolver.py:116-152 | rows keep ids and the final edge and its street. Each is the projection of the last point onto the scanned leg of its edge. No interior point is alone on a street |
| `RouteSolverLegacy.SameLegSameGeometry` | src/RouteSolver.py:139 | two rows on the same leg get the same geometry |
| `RouteSolverLegacy.LastPointKeepsNearestEdge` | src/RouteSolver.py:116-123 | without the last-point rule, the last point keeps its nearest edge |
| `RouteSolverLegacy.MapPointsOnRangeIndex` | src/RouteSolver.py:132-135 | with the index 0..n-1, matching succeeds exactly when no final edge has more than n+1 coordinates |
| `RouteSolverLegacy.RowFailureFails` | src/RouteSolver.py:116-140 | a failing row fails the whole matching |
| `RouteSolverLegacy.MapPointToNetwork` | src/RouteSolver.py:85-152 | the two loops equal `MapPoints` |
| `RouteSolverLegacy.MatchStep` | src/RouteSolver.py:116-140 | one pass: the rewrite at i, earlier entries unchanged, and the row from the rewritten edge |
| `RouteSolverLegacy.RowsAssemble` | src/RouteSolver.py:142-152 | rows that all succeed are the frame returned |
| `RouteSolverLegacy.NearestEdgeList` | src/RouteSolver.py:108-111 | the first loop: the nearest edge of each point |
| `RouteSolverLegacy.MatchOne` | src/RouteSolver.py:125-140 | the leg scan and projection equal `MatchRow` |
| `RouteSolverLegacy.GapImpliesNewGap` | src/RouteSolver.py:177-178 | a gap here (different edges and over 50 apart) is also a gap in route_solver.py |
| `RouteSolverLegacy.GapEdgeIds` | src/RouteSolver.py:199-214 | fails exactly when matching the path's nodes fails. Otherwise it is the set of their edge ids |
| `RouteSolverLegacy.GapStep` | src/RouteSolver.py:174-229 | no change without a gap. An unreachable node fails with NoPath. A fill of two or more nodes appends a gap row whose edges are `GapEdgeIds` of the path, and snaps covered points. Any other failure is the error of matching the path, or DegenerateLine for a path of one node. It fails only at a gap |
| `RouteSolverLegacy.SameNearestNodeFails` | src/RouteSolver.py:189-217 | a gap whose ends share their nearest node gives a one-node path, and the LineString raises |
| `RouteSolverLegacy.GapStepKept` | src/RouteSolver.py:174-229 | one pass changes only geometries from i on, and adds gaps with origin i-1 |
| `RouteSolverLegacy.FillFromKept` | src/RouteSolver.py:174-229 | the passes from i on only change geometries |
| `RouteSolverLegacy.FillGapsShape` | src/RouteSolver.py:154-240 | the same points up to geometry, the first untouched, and every gap line of two or more coordinates with an origin in the frame |
| `RouteSolverLegacy.FillFromNoGap` | src/RouteSolver.py:174-178 | with no gap from i on, nothing changes |
| `RouteSolverLegacy.FillFromFindsGap` | src/RouteSolver.py:174-183 | a gap from i on adds a gap row |
| `RouteSolverLegacy.FillGapsNoneIff` | src/RouteSolver.py:174-178 | no gap row exactly when no neighbouring pair is a gap, and then the points are unchanged |
| `RouteSolverLegacy.GapEdges` | src/RouteSolver.py:199-214 | the method equals `GapEdgeIds` |
| `RouteSolverLegacy.FillOne` | src/RouteSolver.py:177-229 | the loop body equals `GapStep` |
| `RouteSolverLegacy.DetectAndFillGap` | src/RouteSolver.py:154-240 | the loop equals `FillGaps` |
| `RouteSolverLegacy.ColumnCheck` | src/RouteSolver.py:37-41 | MissingColumn exactly when RecordID, SerialID or geometry is absent. WrongGeometryType exactly when all are present but geometry is not geometry-typed. Otherwise no error |
| `RouteSolverLegacy.CheckColumns` | src/RouteSolver.py:37-41 | the loop equals `ColumnCheck` |
| `RouteSolverLegacy.RouteFor` | src/RouteSolver.py:50-77 | a route for serial s carries s. It succeeds exactly when matching, gap filling and connecting all succeed; its edges are `RouteEdges` of the filled points and gaps, and its line is `ConnectRoute` of them |
| `RouteSolverLegacy.RouteResults` | src/RouteSolver.py:50-77 | one result per serial, in order |
| `RouteSolverLegacy.RoutesRows` | src/RouteSolver.py:24-83 | a failed column check decides the result. Otherwise one route per serial in order, or the error of the first failing serial |
| `RouteSolverLegacy.SerialWithoutLabelZero` | src/RouteSolver.py:50-54 | a serial with no row labelled 0 fails with MissingLabel: filtering keeps the trip's labels, and matching looks up label 0 |
| `RouteSolverLegacy.RouteChoiceGen` | src/RouteSolver.py:24-83 | the column check and the loop over serials equal `Routes` |
| `RouteSolverLegacy.SerialRoute` | src/RouteSolver.py:51-77 | one serial's loop body equals `RouteFor` |
| `VariableGenerator.NearestIndexIsNearest` | src/variable_generator.py:27-37 | the kept edge is at minimum distance, and no earlier edge is as near (strict `<`) |
| `VariableGenerator.NearestStreetIsNearest` | src/variable_generator.py:25-39 | the nearest street is the name of the first edge at minimum distance |
| `VariableGenerator.FindNearestStreet` | src/variable_generator.py:25-39 | the loop equals `NearestStreet` |
| `VariableGenerator.Mod360` | src/variable_generator.py:66 | Python's float `% 360` lands in [0, 360) |
| `VariableGenerator.FoldedAngle` | src/variable_generator.py:66-69 | the folded angle lies in [0, 180] |
| `VariableGenerator.Tally` | src/variable_generator.py:90-95 | counting one vertex adds one to left + right exactly when it turns |
| `VariableGenerator.TallyCommutes` | src/variable_generator.py:90-95 | the counts do not depend on the order vertices are counted in |
| `VariableGenerator.TallyMirror` | src/variable_generator.py:90-95 | a mirrored turn is counted on the other side |
| `VariableGenerator.Verdicts` | src/variable_generator.py:45 | one verdict per route coordinate |
| `VariableGenerator.VerdictIsTurnAt` | src/variable_generator.py:45-95 | the verdict at an interior vertex is the bend-and-street-change test made there |
| `VariableGenerator.Turns` | src/variable_generator.py:45-95 | at most one turn per vertex examined |
| `VariableGenerator.TurnCounts` | src/variable_generator.py:42-98 | total is left + right, which is at most \|route\| - 2 |
| `VariableGenerator.OneStreetNoTurns` | src/variable_generator.py:83 | a route whose points all have the same nearest street has no turns |
| `VariableGenerator.TurnsInLast` | src/variable_generator.py:45-95 | counting the verdicts of a range of vertices from the top or from the bottom gives the same left and right counts |
| `VariableGenerator.TurnsAsRange` | src/variable_generator.py:45 | the loop's count is the count over vertices 1 to upto-1 |
| `VariableGenerator.CrossReversed` | src/variable_generator.py:84-89 | reversing the three points negates the cross product |
| `VariableGenerator.TurnAtReversed` | src/variable_generator.py:53-95 | with a symmetric angle, a vertex of the reversed route turns the mirror way |
| `VariableGenerator.VerdictReversed` | src/variable_generator.py:53-95 | with a symmetric angle, the verdict at vertex j of the reversed route mirrors the verdict at vertex n-1-j |
| `VariableGenerator.ReversedPrefix` | src/variable_generator.py:45-95 | verdicts that mirror each other vertex by vertex count the same turns with left and right swapped |
| `VariableGenerator.ReversedSwapsTurns` | src/variable_generator.py:42-98 | with a symmetric angle, the reversed route has left and right swapped |
| `VariableGenerator.CountTurns` | src/variable_generator.py:42-98 | the loop equals `TurnCounts` |
| `VariableGenerator.CountVertex` | src/variable_generator.py:45-95 | one loop pass moves the counts from vertices below j to vertices up to j |
| `VariableGenerator.TurnAtVertex` | src/variable_generator.py:46-95 | the loop body's computation gives the verdict at vertex j |
| `VariableGenerator.StreetsAlong` | src/variable_generator.py:103-111 | the nearest street of every route point |
| `VariableGenerator.LegState` | src/variable_generator.py:102-119 | after n points the dictionary has a distinct key order that starts with the first street. It holds every street seen, and the current street is the last point's |
| `VariableGenerator.LegStateOnlyKeys` | src/variable_generator.py:106-115 | only streets in the insertion order are keys |
| `VariableGenerator.LegStateOneStreet` | src/variable_generator.py:106-119 | on one street, that street is the only key |
| `VariableGenerator.LegStateKeysSeen` | src/variable_generator.py:106-115 | every key is the nearest street of some point seen |
| `VariableGenerator.SumLegsAdd` | src/variable_generator.py:109 | adding a segment to one street adds it to the total |
| `VariableGenerator.SumLegsIgnores` | src/variable_generator.py:115 | setting a street outside the order does not change the total |
| `VariableGenerator.LegsSumToPathLength` | src/variable_generator.py:107-109 | the street lengths add up to the length of the route walked so far |
| `VariableGenerator.StartLegSum` | src/variable_generator.py:102-105 | before the loop the dictionary's lengths add up to zero |
| `VariableGenerator.LegStateSumStep` | src/variable_generator.py:106-109 | each coordinate adds its segment's length to the total |
| `VariableGenerator.AdvanceSum` | src/variable_generator.py:107-115 | one update keeps every street keyed and adds the segment length to the total |
| `VariableGenerator.SumLegsAppendFresh` | src/variable_generator.py:113-114 | a new street entered at zero leaves the total unchanged |
| `VariableGenerator.Pick` | src/variable_generator.py:124-128 | the scan ends at a maximum. It leaves the start only for a strictly longer street, the first one of that length |
| `VariableGenerator.PickIsLargest` | src/variable_generator.py:122-128 | the result is a key with its own length, and no street is longer. The current street wins when no street is longer than it. Otherwise the winner is the first in insertion order at the maximal length |
| `VariableGenerator.LongestIsLargest` | src/variable_generator.py:101-130 | the longest leg is a street at maximal accumulated length, with ties resolved as `Pick` resolves them |
| `VariableGenerator.LongestLegsCoverRoute` | src/variable_generator.py:101-119 | the accumulated lengths add up to the route length |
| `VariableGenerator.OneStreetOneLeg` | src/variable_generator.py:101-130 | a route on one street has that street as its longest leg, with the full route length |
| `VariableGenerator.LongestLeg` | src/variable_generator.py:101-130 | the two loops equal `Longest` |
| `VariableGenerator.LegStep` | src/variable_generator.py:107-119 | one iteration advances the dictionary to the state after point i |
| `VariableGenerator.LongestEntry` | src/variable_generator.py:122-128 | the second loop equals `LongestOf` |
| `NetworkData.Highest` | src/network_data_utils.py:46-56 | the running maximum is at least -180 and at least every coordinate. It is -180 or some point's coordinate |
| `NetworkData.Lowest` | src/network_data_utils.py:46-56 | the running minimum is at most 180 and at most every coordinate. It is 180 or some point's coordinate |
| `NetworkData.GetPointsBoundary` | src/network_data_utils.py:36-64 | the loop returns `Boundary`: (max_y + 0.005, min_y - 0.005, max_x + 0.005, min_x - 0.005) |
| `NetworkData.BoundaryContainsPoints` | src/network_data_utils.py:48-63 | every point lies strictly inside the box, at least 0.005 from each side |
| `NetworkData.BoundaryIsTight` | src/network_data_utils.py:46-63 | each side is 0.005 from some point, or from the initial value -180 or 180 |
| `NetworkData.BoundaryOfGeographicPoints` | src/main-ap.py:21-38 | the same code: for points within [-180, 180], each side is 0.005 from a point |
| `NetworkData.EmptyBoundary` | src/main-ap.py:22-38 | the same code: without points the box is (-179.995, 179.995, -179.995, 179.995), which contains nothing |
| `NetworkData.GetTripMode` | src/network_data_utils.py:241-256 | 'walk' exactly when Walk is present and Drive is not. 'drive' exactly when Drive is present and Walk is not. 'all' exactly when both are present. 'no mode found' exactly when neither is |
| `NetworkData.PbfGuard` | src/network_data_utils.py:78-99 | four Nones exactly when the mode is not drive, walk or all, or the reader refuses the file (ValueError). Otherwise the reader's type: driving for drive, walking for walk, all for all |
| `NetworkData.BboxGuard` | src/network_data_utils.py:133-142 | three Nones exactly when the mode is not drive, walk or all; otherwise the mode is passed on |
| `NetworkData.TripModePassesGuards` | src/network_data_utils.py:241-256 | a trip mode passes both guards exactly when the trip walks or drives |
| `MainAp.PbfGuard` | src/main-ap.py:41-55 | four Nones exactly when the mode is not driving, walking or all, or the reader refuses the file. Otherwise the mode is passed on |
| `MainAp.GuardsDisagree` | src/main-ap.py:43-79 | 'all' is the only mode that both of this file's guards accept |
| `MainAp.SingleModeTripRejected` | src/main-ap.py:242-258 | the trip mode of a walk-only or drive-only trip is rejected by this PBF guard |
| `MainAp.WalkedTripRejected` | src/main-ap.py:136-146 | a walked trip has mode 'walk'. This PBF guard rejects it, while the `NetworkData` guard passes it on as walking |
| `ActivityLocations.DistancesTo` | src/activity_locations_identification.py:22-32 | the distance of the location to each entry, in table order |
| `ActivityLocations.Scan` | src/activity_locations_identification.py:28-39 | the scan's pick is a valid position |
| `ActivityLocations.Closest` | src/activity_locations_identification.py:19-39 | the pick is a valid position |
| `ActivityLocations.ScanFinds` | src/activity_locations_identification.py:28-39 | from a first minimum with nothing touching so far, the scan finds the first touching entry if one exists, else the first minimum |
| `ActivityLocations.ClosestIsFirstTouchingOrNearest` | src/activity_locations_identification.py:19-39 | the entry chosen is the first within 1e-8 if any entry is, else the first at minimum distance |
| `ActivityLocations.FindClosest` | src/activity_locations_identification.py:19-39 | the inner loop, with `continue` and `break`, equals `Closest` |
| `ActivityLocations.LandUseShapes` | src/activity_locations_identification.py:20 | the land-use geometries in table order |
| `ActivityLocations.BuildingShapes` | src/activity_locations_identification.py:67 | the building geometries in table order |
| `ActivityLocations.LookupLocations` | src/activity_locations_identification.py:17-18 | the rows `AL_gdf.loc[i]` reads for i = 0 .. n-1: it fails with MissingLabel exactly when some i labels no row; otherwise entry i is the first row labelled i |
| `ActivityLocations.RangeLabelsReadInOrder` | src/activity_locations_identification.py:17-18 | on a frame with a fresh range index the lookups read the rows in order |
| `ActivityLocations.MissingLabelZeroFails` | src/activity_locations_identification.py:17-18 | a non-empty frame with no row labelled 0 raises the KeyError at the first lookup |
| `ActivityLocations.SwappedLabelsSwapLocations` | src/activity_locations_identification.py:17-18 | with labels [1, 0], position 0 reads the second row: label order, not row order |
| `ActivityLocations.IdentifyLU` | src/activity_locations_identification.py:14-49 | fails with MissingLabel exactly when `AL_gdf.loc[i]` finds no row labelled i. Otherwise one row per position i, in order: the location labelled i with the landuse and index of the land use chosen for it |
| `ActivityLocations.IdentifyPAL` | src/activity_locations_identification.py:52-120 | fails with MissingLabel exactly when `AL_gdf.loc[i]` finds no row labelled i. Otherwise one row per position i, in order: the location labelled i with the address, name, geometry and index of the building chosen for it |
| `ActivityLocations.CreateALInfo` | src/activity_locations_identification.py:122-127 | a copy of the building rows. A row gets land-use columns exactly when the land-use frame has a row with its label, and then those of that row |
| `ActivityLocations.DistinctLabelPos` | src/activity_locations_identification.py:124-125 | with distinct labels, the label of row i finds row i, so the column assignment aligns rows with themselves |
| `ActivityLocations.InfoOfSameLocations` | src/activity_locations_identification.py:122-127 | with distinct labels, joining the two identifications of the same locations gives the location labelled i its chosen building and land use |

## Findings

| source | as written | input that shows it | evidently intended | confidence | as-written member | corrected member |
|---|---|---|---|---|---|---|
| src/main-ap.py:43 | the PBF guard accepts only 'driving', 'walking' and 'all', but `main` (src/main-ap.py:242-258) feeds it `get_trip_mode`'s 'walk' or 'drive' | a trip segment whose Modes are Walk and Stop: the mode is 'walk' and extraction returns four Nones. The path is unreachable as the file is written: its import (src/main-ap.py:16-17) names `NetworkBoundError`, which src/Exceptions.py does not define, and src/main-ap.py:310-312 calls `identify_lu`, `identify_pal` and `create_al_info`, which src/activity_locations_identification.py spells `identify_LU`, `identify_PAL` and `create_AL_info`; the guard is modelled as if those were repaired | accept drive, walk and all and translate them to the reader's spelling, as src/network_data_utils.py:79-97 does | not executed | `MainAp.WalkedTripRejected` | `NetworkData.TripModePassesGuards` |

## Left out

- I/O: reading files, OSM/PBF and OSMnx extraction, `print`, `input`,
  `webbrowser`, geojsonio and CSV/shapefile output. This covers `main.py` and
  the `main()` of `main-ap.py`. The bodies of the `extract_*` functions in
  `network_data_utils.py` and `main-ap.py` are reduced to their mode guards,
  and the file reader's ValueError is a parameter.
- `ModeDetection.Quotient`, `ModeDetection.AvgStopTime`,
  `ModeDetection.StopsFillTheMinute`, `ModeDetection.RunningSums`,
  `ModeDetection.FinalSecondsRestart`, `NetworkData.GetPointsBoundary`,
  `NetworkData.BoundaryIsTight`, `VariableGenerator.LegsSumToPathLength`,
  `VariableGenerator.LongestLegsCoverRoute`: Python and numpy floats are
  exact reals here. Rounding, overflow to inf (a positive numerator over a
  tiny non-zero divisor) and subnormals are not modelled, so these
  equalities hold in the source only up to rounding, and the [0, 60) test of
  `StageDetection.RunMachine` is applied to exact sums.
- Floating-point geometry. Haversine and shapely distances, projection,
  interpolation, osmnx nearest edge, nearest node and shortest path, and the
  `acos`/`degrees` angle of `count_turns` are oracle parameters. CRS changes
  (`to_crs`, `set_crs`) are the identity.
- `Progressbar.py` (terminal UI) and `Exceptions.py` (empty classes). A raised
  exception is the `Failure` it causes.
- `var_gen` is an empty stub and has no model.
- The pandas frames are sequences of rows. Label lookups (`.loc`, `[k]` on a
  Series, index alignment of a column assignment) use an explicit list of
  labels. `value_counts().index` (for serials and trip modes) is a
  parameter whose order the model does not compute. EdgesGapPassed is a set,
  because every use of it takes `set()` of it.
- Street names are integers and OSM keys are records. Names are only
  compared, and a name of the model equals itself.
- `RouteSolver.IsGap`, `RouteSolver.FinalEdgeIds`, `RouteSolverLegacy.IsGap`,
  `RouteSolverLegacy.FinalEdgeIds`, `VariableGenerator.TurnAt`,
  `VariableGenerator.LongestLeg`: an unnamed OSM way has name NaN in the
  osmnx edge table, and NaN != NaN. So in the source two unnamed edges never
  share a street: a step between them is a gap, the name rewrites do not fire,
  a bend between them counts as a turn, and each of them starts its own leg
  (each NaN is a separate `leg_len_dict` key). The model treats equal names as
  equal and does not capture this.
- In-place updates of frames (`points.at[...]`, `near_edges_id[i] = ...`) are
  modelled as values that the methods return. Aliasing between frames does
  not arise in the code.
- `ModeDetection.MinuteDigits`: the minute field `LocalTime[-2:]` is
  minuteStamp % 60, not the string slice. The date and time regex and
  `datetime` arithmetic become minute × 60 + seconds.
- `RouteSolver.RouteChoiceGen`: does not require the serials to be the
  trip's distinct SerialIDs. Their order comes from `value_counts` and is a
  parameter.
- `RouteSolverLegacy.RouteChoiceGen`: the same, for the serials of the
  earlier version.
- `VariableGenerator.FindNearestStreet`: requires a non-empty edge list, where
  the source raises IndexError.
- `VariableGenerator.CountTurns`: requires a non-empty edge list. The source
  reads `edgesRoutePassed[0]` only at a vertex that bends by more than 30
  degrees, so with no edges and no such vertex it would return zero counts.
  A zero-length segment makes `acos` divide by zero in the source; the angle
  oracle hides that.
- `VariableGenerator.LongestLeg`: requires a non-empty route and edge list, where
  the source raises IndexError.
- `ActivityLocations.IdentifyLU`: requires land-use rows whenever there is a
  location, where `iloc[0]` raises IndexError. Location rows are looked up by
  label; the lookup of a missing label is the MissingLabel failure.
- `ActivityLocations.IdentifyPAL`: requires building rows whenever there is a
  location, for the same reason.
- `StageDetection.Rows`: its own contract states only the number of rows.
  The contents are stated by `StageDetection.DetectRows` and
  `StageDetection.PickRepresentatives`.
- `GPSPreprocess.Preprocess`: its own contract states only the None case.
  The contents are stated by `GPSPreprocess.PreprocessShrinks`.
