/** The pure parts of the network-data utilities: the padded bounding box of a
    set of GPS points, the network mode of a trip segment, and the mode guards
    in front of the network extraction calls. The extraction itself (reading
    an OSM PBF file or querying OSMnx) is input/output and is not modelled. */
module NetworkData {
  import opened Common

  /** Padding, in degrees, added around the extremes of the points. */
  const Padding: real := 0.005

  /** The running maximum starts here and the running minimum at its negation. */
  const Start: real := 180.0

  datatype Axis = X | Y

  function Along(c: Coord, a: Axis): real {
    match a
    case X => c.x
    case Y => c.y
  }

  /** The running maximum of one coordinate after scanning `ps` in order,
      starting from -180 and replacing it only by a strictly larger value. */
  function Highest(ps: seq<Coord>, a: Axis): (r: real)
    ensures r >= -Start
    ensures forall i | 0 <= i < |ps| :: Along(ps[i], a) <= r
    ensures r == -Start || exists i | 0 <= i < |ps| :: Along(ps[i], a) == r
  {
    if ps == [] then -Start
    else
      var h := Highest(ps[..|ps| - 1], a);
      assert forall i | 0 <= i < |ps| - 1 :: ps[..|ps| - 1][i] == ps[i];
      if Along(ps[|ps| - 1], a) > h then Along(ps[|ps| - 1], a) else h
  }

  /** The running minimum of one coordinate, starting from 180. */
  function Lowest(ps: seq<Coord>, a: Axis): (r: real)
    ensures r <= Start
    ensures forall i | 0 <= i < |ps| :: r <= Along(ps[i], a)
    ensures r == Start || exists i | 0 <= i < |ps| :: Along(ps[i], a) == r
  {
    if ps == [] then Start
    else
      var l := Lowest(ps[..|ps| - 1], a);
      assert forall i | 0 <= i < |ps| - 1 :: ps[..|ps| - 1][i] == ps[i];
      if Along(ps[|ps| - 1], a) < l then Along(ps[|ps| - 1], a) else l
  }

  /** The tuple (max_y, min_y, max_x, min_x) that the boundary returns. */
  datatype Box = Box(maxY: real, minY: real, maxX: real, minX: real)

  function Boundary(ps: seq<Coord>): Box {
    Box(Highest(ps, Y) + Padding, Lowest(ps, Y) - Padding,
        Highest(ps, X) + Padding, Lowest(ps, X) - Padding)
  }

  /** A point lies strictly inside a box. */
  predicate Inside(c: Coord, b: Box) {
    b.minX < c.x < b.maxX && b.minY < c.y < b.maxY
  }

  /** Every point lies strictly inside the box, at least the padding away
      from each side. */
  lemma BoundaryContainsPoints(ps: seq<Coord>)
    ensures forall i | 0 <= i < |ps| :: Inside(ps[i], Boundary(ps))
    ensures forall i | 0 <= i < |ps| ::
      Boundary(ps).minX + Padding <= ps[i].x <= Boundary(ps).maxX - Padding &&
      Boundary(ps).minY + Padding <= ps[i].y <= Boundary(ps).maxY - Padding
  {
    forall i | 0 <= i < |ps|
      ensures Inside(ps[i], Boundary(ps))
    {
      assert Along(ps[i], X) == ps[i].x && Along(ps[i], Y) == ps[i].y;
    }
  }

  /** The box is tight: each side is the padding away from some point, or
      from the initial value of the scan when no point goes beyond it. */
  lemma BoundaryIsTight(ps: seq<Coord>)
    ensures Boundary(ps).maxX - Padding == -Start ||
            exists i | 0 <= i < |ps| :: ps[i].x == Boundary(ps).maxX - Padding
    ensures Boundary(ps).minX + Padding == Start ||
            exists i | 0 <= i < |ps| :: ps[i].x == Boundary(ps).minX + Padding
    ensures Boundary(ps).maxY - Padding == -Start ||
            exists i | 0 <= i < |ps| :: ps[i].y == Boundary(ps).maxY - Padding
    ensures Boundary(ps).minY + Padding == Start ||
            exists i | 0 <= i < |ps| :: ps[i].y == Boundary(ps).minY + Padding
  {
    var b := Boundary(ps);
    if b.maxX - Padding != -Start {
      var i :| 0 <= i < |ps| && Along(ps[i], X) == Highest(ps, X);
      assert ps[i].x == b.maxX - Padding;
    }
    if b.minX + Padding != Start {
      var i :| 0 <= i < |ps| && Along(ps[i], X) == Lowest(ps, X);
      assert ps[i].x == b.minX + Padding;
    }
    if b.maxY - Padding != -Start {
      var i :| 0 <= i < |ps| && Along(ps[i], Y) == Highest(ps, Y);
      assert ps[i].y == b.maxY - Padding;
    }
    if b.minY + Padding != Start {
      var i :| 0 <= i < |ps| && Along(ps[i], Y) == Lowest(ps, Y);
      assert ps[i].y == b.minY + Padding;
    }
  }

  /** Without points the box is the padded initial extremes, an inverted
      box that contains nothing. */
  lemma EmptyBoundary(c: Coord)
    ensures Boundary([]) == Box(-179.995, 179.995, -179.995, 179.995)
    ensures !Inside(c, Boundary([]))
  {
  }

  /** As long as the points stay within longitude and latitude range, the
      sides are the padded extremes of the points themselves. */
  lemma BoundaryOfGeographicPoints(ps: seq<Coord>)
    requires |ps| > 0
    requires forall i | 0 <= i < |ps| :: -Start <= ps[i].x <= Start && -Start <= ps[i].y <= Start
    ensures exists i | 0 <= i < |ps| :: ps[i].x == Boundary(ps).maxX - Padding
    ensures exists i | 0 <= i < |ps| :: ps[i].x == Boundary(ps).minX + Padding
    ensures exists i | 0 <= i < |ps| :: ps[i].y == Boundary(ps).maxY - Padding
    ensures exists i | 0 <= i < |ps| :: ps[i].y == Boundary(ps).minY + Padding
  {
    BoundaryIsTight(ps);
    assert Along(ps[0], X) == ps[0].x && Along(ps[0], Y) == ps[0].y;
    var b := Boundary(ps);
    if b.maxX - Padding == -Start { assert ps[0].x == b.maxX - Padding; }
    if b.minX + Padding == Start { assert ps[0].x == b.minX + Padding; }
    if b.maxY - Padding == -Start { assert ps[0].y == b.maxY - Padding; }
    if b.minY + Padding == Start { assert ps[0].y == b.minY + Padding; }
  }

  /** The scan over the points' geometry, updating the four running extremes. */
  method GetPointsBoundary(ps: seq<Coord>) returns (b: Box)
    ensures b == Boundary(ps)
  {
    var maxX, maxY, minX, minY := -Start, -Start, Start, Start;
    for i := 0 to |ps|
      invariant maxX == Highest(ps[..i], X) && minX == Lowest(ps[..i], X)
      invariant maxY == Highest(ps[..i], Y) && minY == Lowest(ps[..i], Y)
    {
      assert ps[..i + 1][..i] == ps[..i];
      var p := ps[i];
      if p.x > maxX { maxX := p.x; }
      if p.x < minX { minX := p.x; }
      if p.y > maxY { maxY := p.y; }
      if p.y < minY { minY := p.y; }
    }
    assert ps[..|ps|] == ps;
    maxX := maxX + Padding;
    minX := minX - Padding;
    maxY := maxY + Padding;
    minY := minY - Padding;
    b := Box(maxY, minY, maxX, minX);
  }

  /** The network mode of a trip segment from the distinct values of its
      Modes column. */
  function GetTripMode(modes: seq<string>): (r: string)
    ensures r == "walk" <==> "Walk" in modes && "Drive" !in modes
    ensures r == "drive" <==> "Drive" in modes && "Walk" !in modes
    ensures r == "all" <==> "Walk" in modes && "Drive" in modes
    ensures r == "no mode found" <==> "Walk" !in modes && "Drive" !in modes
  {
    if "Walk" in modes && "Drive" !in modes then "walk"
    else if "Walk" !in modes && "Drive" in modes then "drive"
    else if "Walk" in modes && "Drive" in modes then "all"
    else "no mode found"
  }

  /** What a mode guard lets through: the tuple of Nones the function
      returns (of the given width), or the network type handed to the
      extraction library. */
  datatype Guarded = Nones(width: nat) | Extract(networkType: string)

  const NetworkModes: seq<string> := ["drive", "walk", "all"]

  /** The guard of the PBF extraction: a mode outside drive/walk/all, or a
      file the PBF reader refuses, yields four Nones; otherwise the mode is
      translated to the reader's network type. */
  function PbfGuard(mode: string, readerAccepts: bool): (r: Guarded)
    ensures r.Nones? <==> mode !in NetworkModes || !readerAccepts
    ensures r.Nones? ==> r.width == 4
    ensures r.Extract? ==> r.networkType in ["driving", "walking", "all"]
    ensures r.Extract? ==> (r.networkType == "driving" <==> mode == "drive")
    ensures r.Extract? ==> (r.networkType == "walking" <==> mode == "walk")
  {
    if mode !in NetworkModes then Nones(4)
    else if !readerAccepts then Nones(4)
    else if mode == "drive" then Extract("driving")
    else if mode == "walk" then Extract("walking")
    else if mode == "all" then Extract("all")
    else Extract("driving")
  }

  /** The guard of the OSMnx extraction: a mode outside drive/walk/all yields
      three Nones; otherwise the mode itself is the network type. */
  function BboxGuard(mode: string): (r: Guarded)
    ensures r.Nones? <==> mode !in NetworkModes
    ensures r.Nones? ==> r.width == 3
    ensures r.Extract? ==> r.networkType == mode
  {
    if mode !in NetworkModes then Nones(3) else Extract(mode)
  }

  /** Every mode a trip segment can be given, other than 'no mode found',
      passes both guards, and 'no mode found' passes neither. */
  lemma TripModePassesGuards(modes: seq<string>)
    ensures PbfGuard(GetTripMode(modes), true).Extract? <==> ("Walk" in modes || "Drive" in modes)
    ensures BboxGuard(GetTripMode(modes)).Extract? <==> ("Walk" in modes || "Drive" in modes)
  {
  }
}

/** The copy of the network-data utilities that lives in the alternative entry
    point. Its bounding box and trip mode are the same as in NetworkData, and
    so is its OSMnx guard; only the guard of the PBF extraction differs. */
module MainAp {
  import opened Common
  import ND = NetworkData

  const PbfModes: seq<string> := ["driving", "walking", "all"]

  /** The PBF guard of the alternative entry point: it accepts the reader's
      own spelling driving/walking/all, passes the mode on unchanged, and
      otherwise (or when the reader refuses the file) yields four Nones. */
  function PbfGuard(mode: string, readerAccepts: bool): (r: ND.Guarded)
    ensures r.Nones? <==> mode !in PbfModes || !readerAccepts
    ensures r.Nones? ==> r.width == 4
    ensures r.Extract? ==> r.networkType == mode
  {
    if mode !in PbfModes || !readerAccepts then ND.Nones(4) else ND.Extract(mode)
  }

  /** The two guards of this entry point disagree on spelling: 'all' is the
      only mode both accept. */
  lemma GuardsDisagree(mode: string)
    ensures PbfGuard(mode, true).Extract? && ND.BboxGuard(mode).Extract? <==> mode == "all"
  {
  }

  /** The entry point feeds the trip mode into this PBF guard, so a trip
      segment that is walked only (or driven only) never gets a network. */
  lemma SingleModeTripRejected(modes: seq<string>)
    requires ("Walk" in modes) != ("Drive" in modes)
    ensures PbfGuard(ND.GetTripMode(modes), true) == ND.Nones(4)
  {
    assert ND.GetTripMode(modes) !in PbfModes;
  }

  /** A concrete instance: a walked trip segment. */
  lemma WalkedTripRejected()
    ensures ND.GetTripMode(["Walk", "Stop"]) == "walk"
    ensures PbfGuard(ND.GetTripMode(["Walk", "Stop"]), true) == ND.Nones(4)
    ensures ND.PbfGuard(ND.GetTripMode(["Walk", "Stop"]), true) == ND.Extract("walking")
  {
    SingleModeTripRejected(["Walk", "Stop"]);
  }
}
