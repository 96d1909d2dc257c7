/** Identification of the land use and the building behind each activity
    location: for every location, the nearest land-use polygon and the
    nearest building or amenity, found by a linear scan that takes the first
    entry at (almost) zero distance and otherwise the first strict minimum. */
module ActivityLocations {
  import opened Common

  /** The outline of a land-use polygon, building or amenity. */
  type Shape = seq<Coord>

  /** The (osm_type, id) multi-index of an OSM table row. */
  datatype OsmKey = OsmKey(osmType: string, id: int)

  /** A distance below this counts as touching: the scan stops there. */
  const Touching: real := 0.00000001

  datatype LandUse = LandUse(landuse: string, geometry: Shape, index: OsmKey)

  datatype Building = Building(
    houseNumber: string, street: string, city: string, province: string,
    name: string, geometry: Shape, index: OsmKey)

  /** An activity location: its point and the columns it already carries. */
  datatype Location = Location(geometry: Coord, columns: seq<string>)

  /** A location with the two land-use columns appended. */
  datatype LocationLU = LocationLU(location: Location, luClassification: string, luIndex: OsmKey)

  /** A location with the seven building columns appended. */
  datatype LocationPAL = LocationPAL(
    location: Location, houseNumber: string, streetName: string, city: string,
    province: string, nameOfBuilding: string, buildingGeometry: Shape, buildingIndex: OsmKey)

  /** A location with both the building and the land-use columns; the
      land-use columns are missing (NaN) where the land-use frame has no row
      under the same label. */
  datatype LocationInfo = LocationInfo(pal: LocationPAL, luClassification: Option<string>, luIndex: Option<OsmKey>)

  /** The distances of one location to every shape, in table order. */
  function DistancesTo(shapes: seq<Shape>, p: Coord, distance: (Shape, Coord) -> real): (d: seq<real>)
    ensures |d| == |shapes|
    ensures forall j | 0 <= j < |d| :: d[j] == distance(shapes[j], p)
  {
    seq(|shapes|, j requires 0 <= j < |shapes| => distance(shapes[j], p))
  }

  /** The scan from position j on, with `best` the closest entry so far: a
      strictly closer entry replaces it, and the scan stops at the first
      replacement which is touching. */
  function Scan(d: seq<real>, j: nat, best: nat): (k: nat)
    requires best < j <= |d|
    ensures k < |d|
    decreases |d| - j
  {
    if j == |d| then best
    else if d[j] < d[best] then
      if d[j] < Touching then j else Scan(d, j + 1, j)
    else Scan(d, j + 1, best)
  }

  /** The entry the identification picks: the first one if it touches,
      otherwise the result of the scan from the second. */
  function Closest(d: seq<real>): (k: nat)
    requires |d| > 0
    ensures k < |d|
  {
    if d[0] < Touching then 0 else Scan(d, 1, 0)
  }

  /** What the scan from j finds, given that no entry before j touches and
      `best` is the first minimum of d[..j]: the first touching entry if
      there is one, otherwise the first minimum of all of d. */
  lemma {:induction false} ScanFinds(d: seq<real>, j: nat, best: nat)
    requires best < j <= |d|
    requires forall i | 0 <= i < j :: d[i] >= Touching
    requires forall i | 0 <= i < j :: d[best] <= d[i]
    requires forall i | 0 <= i < best :: d[best] < d[i]
    ensures var k := Scan(d, j, best);
      (exists i | 0 <= i < |d| :: d[i] < Touching) ==>
        d[k] < Touching && forall i | 0 <= i < k :: d[i] >= Touching
    ensures var k := Scan(d, j, best);
      (forall i | 0 <= i < |d| :: d[i] >= Touching) ==>
        (forall i | 0 <= i < |d| :: d[k] <= d[i]) && forall i | 0 <= i < k :: d[k] < d[i]
    decreases |d| - j
  {
    if j == |d| {
    } else if d[j] < d[best] {
      if d[j] >= Touching {
        ScanFinds(d, j + 1, j);
      }
    } else {
      ScanFinds(d, j + 1, best);
    }
  }

  /** The selection rule in closed form: the first touching entry if any
      entry touches, otherwise the first entry at minimum distance. */
  lemma ClosestIsFirstTouchingOrNearest(d: seq<real>)
    requires |d| > 0
    ensures (exists i | 0 <= i < |d| :: d[i] < Touching) ==>
      d[Closest(d)] < Touching && forall i | 0 <= i < Closest(d) :: d[i] >= Touching
    ensures (forall i | 0 <= i < |d| :: d[i] >= Touching) ==>
      (forall i | 0 <= i < |d| :: d[Closest(d)] <= d[i]) &&
      forall i | 0 <= i < Closest(d) :: d[Closest(d)] < d[i]
  {
    if d[0] >= Touching {
      ScanFinds(d, 1, 0);
    }
  }

  /** The inner loop of both identifications: the position of the entry
      picked for point p. */
  method FindClosest(shapes: seq<Shape>, p: Coord, distance: (Shape, Coord) -> real) returns (k: nat)
    requires |shapes| > 0
    ensures k == Closest(DistancesTo(shapes, p, distance))
  {
    ghost var d := DistancesTo(shapes, p, distance);
    k := 0;
    var closestDist := distance(shapes[0], p);
    if closestDist < Touching {
      return;
    }
    var j := 1;
    while j < |shapes|
      invariant 0 <= k < j <= |shapes|
      invariant closestDist == d[k] && closestDist >= Touching
      invariant Scan(d, 1, 0) == Scan(d, j, k)
    {
      var currDist := distance(shapes[j], p);
      if currDist < closestDist {
        closestDist := currDist;
        k := j;
        if closestDist < Touching {
          break;
        }
      }
      j := j + 1;
    }
  }

  function LandUseShapes(lu: seq<LandUse>): (r: seq<Shape>)
    ensures |r| == |lu| && forall j | 0 <= j < |lu| :: r[j] == lu[j].geometry
  {
    seq(|lu|, j requires 0 <= j < |lu| => lu[j].geometry)
  }

  function BuildingShapes(pal: seq<Building>): (r: seq<Shape>)
    ensures |r| == |pal| && forall j | 0 <= j < |pal| :: r[j] == pal[j].geometry
  {
    seq(|pal|, j requires 0 <= j < |pal| => pal[j].geometry)
  }

  /** The land use picked for one location. */
  function NearestLandUse(lu: seq<LandUse>, p: Coord, distance: (Shape, Coord) -> real): LandUse
    requires |lu| > 0
  {
    lu[Closest(DistancesTo(LandUseShapes(lu), p, distance))]
  }

  /** The building picked for one location. */
  function NearestBuilding(pal: seq<Building>, p: Coord, distance: (Shape, Coord) -> real): Building
    requires |pal| > 0
  {
    pal[Closest(DistancesTo(BuildingShapes(pal), p, distance))]
  }

  function WithLandUse(l: Location, u: LandUse): LocationLU {
    LocationLU(l, u.landuse, u.index)
  }

  function WithBuilding(l: Location, b: Building): LocationPAL {
    LocationPAL(l, b.houseNumber, b.street, b.city, b.province, b.name, b.geometry, b.index)
  }

  /** The locations in the order the identification reads them: pass i
      looks up `AL_gdf.loc[i]`, the row labelled i, for i in 0..n-1, and
      fails with MissingLabel at the first label that is absent. */
  function LookupLocations(al: seq<Location>, labels: seq<int>): (r: Result<seq<Location>>)
    requires |labels| == |al|
    ensures r.Failure? <==> exists i | 0 <= i < |al| :: LabelPos(labels, i).None?
    ensures r.Failure? ==> r.error == MissingLabel
    ensures r.Success? ==> |r.value| == |al| && forall i | 0 <= i < |al| ::
      LabelPos(labels, i).Some? && r.value[i] == al[LabelPos(labels, i).value]
  {
    if exists i | 0 <= i < |al| :: LabelPos(labels, i).None? then Failure(MissingLabel)
    else Success(seq(|al|, i requires 0 <= i < |al| => al[LabelPos(labels, i).value]))
  }

  /** A frame labelled 0..n-1 is read in row order. */
  lemma RangeLabelsReadInOrder(al: seq<Location>)
    ensures LookupLocations(al, seq(|al|, k => k)) == Success(al)
  {
    var labels := seq(|al|, k => k);
    forall i | 0 <= i < |al| ensures LabelPos(labels, i) == Some(i) {
      assert labels[i] == i;
    }
    var r := LookupLocations(al, labels);
    assert r.Success?;
    assert r.value == al;
  }

  /** A frame without the label 0, such as the stops filtered out of an
      episode table whose first row is not a stop, cannot be read. */
  lemma MissingLabelZeroFails(al: seq<Location>, labels: seq<int>)
    requires |labels| == |al| > 0 && forall k | 0 <= k < |labels| :: labels[k] != 0
    ensures LookupLocations(al, labels) == Failure(MissingLabel)
  {
    assert LabelPos(labels, 0).None?;
  }

  /** The rows are read by label but the results are assigned by position:
      with the labels 1, 0 each row gets the other row's identification. */
  lemma SwappedLabelsSwapLocations(a: Location, b: Location)
    ensures LookupLocations([a, b], [1, 0]) == Success([b, a])
  {
    assert LabelPos([1, 0], 0) == Some(1);
    assert LabelPos([1, 0], 1) == Some(0);
    var r := LookupLocations([a, b], [1, 0]);
    assert r.Success?;
    assert r.value == [b, a];
  }

  /** A copy of the locations with the classification and index of the
      nearest land use appended to each: row i gets the land use of the
      location labelled i. The land-use table is read only when there is a
      location. */
  method IdentifyLU(al: seq<Location>, labels: seq<int>, lu: seq<LandUse>, distance: (Shape, Coord) -> real)
    returns (r: Result<seq<LocationLU>>)
    requires |labels| == |al|
    requires |al| > 0 ==> |lu| > 0
    ensures r.Failure? <==> LookupLocations(al, labels).Failure?
    ensures r.Failure? ==> r.error == MissingLabel
    ensures r.Success? ==> |r.value| == |al| && forall i | 0 <= i < |al| ::
      r.value[i] == WithLandUse(al[i], NearestLandUse(lu, LookupLocations(al, labels).value[i].geometry, distance))
  {
    var classes: seq<string> := [];
    var indices: seq<OsmKey> := [];
    var shapes := LandUseShapes(lu);
    for i := 0 to |al|
      invariant |classes| == |indices| == i
      invariant forall q | 0 <= q < i :: LabelPos(labels, q).Some?
      invariant forall q | 0 <= q < i ::
        classes[q] == NearestLandUse(lu, al[LabelPos(labels, q).value].geometry, distance).landuse &&
        indices[q] == NearestLandUse(lu, al[LabelPos(labels, q).value].geometry, distance).index
    {
      var row := LabelPos(labels, i);
      if row.None? {
        return Failure(MissingLabel);
      }
      var k := FindClosest(shapes, al[row.value].geometry, distance);
      classes := classes + [lu[k].landuse];
      indices := indices + [lu[k].index];
    }
    r := Success(seq(|al|, i requires 0 <= i < |al| => LocationLU(al[i], classes[i], indices[i])));
  }

  /** A copy of the locations with the address, name, geometry and index of
      the nearest building or amenity appended to each: row i gets the
      building of the location labelled i. */
  method IdentifyPAL(al: seq<Location>, labels: seq<int>, pal: seq<Building>, distance: (Shape, Coord) -> real)
    returns (r: Result<seq<LocationPAL>>)
    requires |labels| == |al|
    requires |al| > 0 ==> |pal| > 0
    ensures r.Failure? <==> LookupLocations(al, labels).Failure?
    ensures r.Failure? ==> r.error == MissingLabel
    ensures r.Success? ==> |r.value| == |al| && forall i | 0 <= i < |al| ::
      r.value[i] == WithBuilding(al[i], NearestBuilding(pal, LookupLocations(al, labels).value[i].geometry, distance))
  {
    var picked: seq<Building> := [];
    var shapes := BuildingShapes(pal);
    for i := 0 to |al|
      invariant |picked| == i
      invariant forall q | 0 <= q < i :: LabelPos(labels, q).Some?
      invariant forall q | 0 <= q < i ::
        picked[q] == NearestBuilding(pal, al[LabelPos(labels, q).value].geometry, distance)
    {
      var row := LabelPos(labels, i);
      if row.None? {
        return Failure(MissingLabel);
      }
      var k := FindClosest(shapes, al[row.value].geometry, distance);
      picked := picked + [pal[k]];
    }
    r := Success(seq(|al|, i requires 0 <= i < |al| => WithBuilding(al[i], picked[i])));
  }

  /** The building frame with the land-use columns of the land-use row
      under the same label assigned to each row, missing (NaN) where the
      land-use frame has no such label. */
  function CreateALInfo(alLU: seq<LocationLU>, luLabels: seq<int>, alPAL: seq<LocationPAL>, palLabels: seq<int>)
    : (r: seq<LocationInfo>)
    requires |luLabels| == |alLU| && |palLabels| == |alPAL|
    ensures |r| == |alPAL|
    ensures forall i | 0 <= i < |r| :: r[i].pal == alPAL[i]
    ensures forall i | 0 <= i < |r| ::
      (r[i].luClassification.Some? <==> LabelPos(luLabels, palLabels[i]).Some?) &&
      (r[i].luIndex.Some? <==> LabelPos(luLabels, palLabels[i]).Some?)
    ensures forall i | 0 <= i < |r| :: LabelPos(luLabels, palLabels[i]).Some? ==>
      var u := alLU[LabelPos(luLabels, palLabels[i]).value];
      r[i].luClassification == Some(u.luClassification) && r[i].luIndex == Some(u.luIndex)
  {
    seq(|alPAL|, i requires 0 <= i < |alPAL| =>
      match LabelPos(luLabels, palLabels[i])
      case Some(p) => LocationInfo(alPAL[i], Some(alLU[p].luClassification), Some(alLU[p].luIndex))
      case None => LocationInfo(alPAL[i], None, None))
  }

  /** In a frame with distinct labels, label labels[i] is found at i. */
  lemma DistinctLabelPos(labels: seq<int>, i: int)
    requires 0 <= i < |labels| && forall a, b | 0 <= a < b < |labels| :: labels[a] != labels[b]
    ensures LabelPos(labels, labels[i]) == Some(i)
  {
    assert LabelPos(labels, labels[i]).Some?;
  }

  /** Joining the two identifications of the same frame (both copies keep
      its distinct labels): every row carries its location, and the building
      and the land use chosen for the location labelled with its position. */
  lemma InfoOfSameLocations(al: seq<Location>, labels: seq<int>, lu: seq<LandUse>, pal: seq<Building>,
                            distance: (Shape, Coord) -> real,
                            alLU: seq<LocationLU>, alPAL: seq<LocationPAL>)
    requires |labels| == |al| && forall a, b | 0 <= a < b < |labels| :: labels[a] != labels[b]
    requires |al| > 0 ==> |lu| > 0 && |pal| > 0
    requires LookupLocations(al, labels).Success?
    requires |alLU| == |al| && forall i | 0 <= i < |al| ::
      alLU[i] == WithLandUse(al[i], NearestLandUse(lu, LookupLocations(al, labels).value[i].geometry, distance))
    requires |alPAL| == |al| && forall i | 0 <= i < |al| ::
      alPAL[i] == WithBuilding(al[i], NearestBuilding(pal, LookupLocations(al, labels).value[i].geometry, distance))
    ensures |CreateALInfo(alLU, labels, alPAL, labels)| == |al|
    ensures forall i | 0 <= i < |al| ::
      var row := CreateALInfo(alLU, labels, alPAL, labels)[i];
      var g := LookupLocations(al, labels).value[i].geometry;
      row.pal.location == al[i] &&
      row.pal.buildingIndex == NearestBuilding(pal, g, distance).index &&
      row.luClassification == Some(NearestLandUse(lu, g, distance).landuse) &&
      row.luIndex == Some(NearestLandUse(lu, g, distance).index)
  {
    forall i | 0 <= i < |al| ensures LabelPos(labels, labels[i]) == Some(i) {
      DistinctLabelPos(labels, i);
    }
  }
}
