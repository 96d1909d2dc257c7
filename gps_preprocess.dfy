/** Cleaning of the raw fix table before mode detection
    (src/GPSPreprocess.py): duplicate positions are dropped, a geometry
    column is added, and implausibly fast fixes are removed. A missing table
    (None) passes through as None. */
module GPSPreprocess {
  import opened Common

  /** One row of the raw CSV table. */
  datatype RawRow = RawRow(recordId: int, serialId: int, localTime: string,
                           latitude: real, longitude: real, speedKmh: real)

  /** A row once the table has become a GeoDataFrame. */
  datatype GpsRow = GpsRow(recordId: int, serialId: int, localTime: string,
                           latitude: real, longitude: real, speedKmh: real,
                           geometry: Coord)

  /** Fastest speed, in km/h, that survives smoothing. */
  const MaxSpeedKmh: real := 180.0

  /** The subset used by drop_duplicates. */
  function PositionKey(r: RawRow): (real, real) {
    (r.latitude, r.longitude)
  }

  function Positions(rows: seq<RawRow>): set<(real, real)> {
    set r | r in rows :: PositionKey(r)
  }

  /** drop_duplicates(subset=['latitude', 'longitude'], keep='first'):
      a row is kept iff no earlier row has its position. */
  function DropDuplicates(rows: seq<RawRow>): seq<RawRow> {
    if rows == [] then []
    else
      var init := rows[..|rows| - 1];
      if PositionKey(rows[|rows| - 1]) in Positions(init) then DropDuplicates(init)
      else DropDuplicates(init) + [rows[|rows| - 1]]
  }

  /** Index of the first row of `rows` at `key`. */
  function FirstAt(rows: seq<RawRow>, key: (real, real)): (k: nat)
    requires key in Positions(rows)
    ensures k < |rows| && PositionKey(rows[k]) == key
    ensures forall i | 0 <= i < k :: PositionKey(rows[i]) != key
  {
    if PositionKey(rows[0]) == key then 0
    else
      assert key in Positions(rows[1..]) by {
        var r :| r in rows && PositionKey(r) == key;
        var i :| 0 <= i < |rows| && rows[i] == r;
        assert i != 0;
        assert rows[1..][i - 1] == r;
      }
      1 + FirstAt(rows[1..], key)
  }

  lemma PositionsAppend(rows: seq<RawRow>, x: RawRow)
    ensures Positions(rows + [x]) == Positions(rows) + {PositionKey(x)}
  {
    assert forall r | r in rows + [x] :: r in rows || r == x;
  }

  lemma {:induction false} FirstAtPrefix(rows: seq<RawRow>, n: nat, key: (real, real))
    requires n <= |rows| && key in Positions(rows[..n])
    ensures key in Positions(rows) && FirstAt(rows[..n], key) == FirstAt(rows, key)
  {
    var r :| r in rows[..n] && PositionKey(r) == key;
    assert r in rows;
    var a, b := FirstAt(rows[..n], key), FirstAt(rows, key);
    assert rows[..n][a] == rows[a];
    forall i | 0 <= i < a ensures PositionKey(rows[i]) != key {
      assert rows[..n][i] == rows[i];
    }
  }

  /** A position already present before the last row is first met at the
      same index with or without that row. */
  lemma FirstAtInit(rows: seq<RawRow>, key: (real, real))
    requires |rows| > 0 && key in Positions(rows[..|rows| - 1])
    ensures key in Positions(rows)
    ensures FirstAt(rows[..|rows| - 1], key) == FirstAt(rows, key) < |rows| - 1
    ensures rows[FirstAt(rows, key)] == rows[..|rows| - 1][FirstAt(rows, key)]
  {
    FirstAtPrefix(rows, |rows| - 1, key);
  }

  /** The positions of the kept rows are exactly the input's positions. */
  lemma {:induction false} DropDuplicatesPositions(rows: seq<RawRow>)
    ensures Positions(DropDuplicates(rows)) == Positions(rows)
  {
    if rows != [] {
      var init := rows[..|rows| - 1];
      var last := rows[|rows| - 1];
      DropDuplicatesPositions(init);
      assert rows == init + [last];
      PositionsAppend(init, last);
      if PositionKey(last) !in Positions(init) {
        PositionsAppend(DropDuplicates(init), last);
      }
    }
  }

  /** No position occurs twice among the kept rows. */
  lemma {:induction false} DropDuplicatesDistinct(rows: seq<RawRow>)
    ensures var r := DropDuplicates(rows);
      forall i, j | 0 <= i < j < |r| :: PositionKey(r[i]) != PositionKey(r[j])
  {
    if rows != [] {
      var init := rows[..|rows| - 1];
      var last := rows[|rows| - 1];
      var p := DropDuplicates(init);
      DropDuplicatesDistinct(init);
      DropDuplicatesPositions(init);
      if PositionKey(last) !in Positions(init) {
        forall i | 0 <= i < |p| ensures PositionKey(p[i]) != PositionKey(last) {
          assert PositionKey(p[i]) in Positions(p);
        }
      }
    }
  }

  /** Each kept row is the first row of the input at its position, and the
      kept rows appear in the order of those first rows. */
  lemma {:induction false} DropDuplicatesKeepsFirst(rows: seq<RawRow>)
    ensures var r := DropDuplicates(rows);
      && (forall i | 0 <= i < |r| :: PositionKey(r[i]) in Positions(rows)
            && r[i] == rows[FirstAt(rows, PositionKey(r[i]))])
      && (forall i, j | 0 <= i < j < |r| ::
            FirstAt(rows, PositionKey(r[i])) < FirstAt(rows, PositionKey(r[j])))
  {
    if rows != [] {
      var init := rows[..|rows| - 1];
      var last := rows[|rows| - 1];
      var p := DropDuplicates(init);
      DropDuplicatesKeepsFirst(init);
      DropDuplicatesPositions(init);
      forall i | 0 <= i < |p|
        ensures PositionKey(p[i]) in Positions(rows)
        ensures FirstAt(init, PositionKey(p[i])) == FirstAt(rows, PositionKey(p[i]))
        ensures FirstAt(rows, PositionKey(p[i])) < |rows| - 1
        ensures rows[FirstAt(rows, PositionKey(p[i]))] == init[FirstAt(init, PositionKey(p[i]))]
      {
        assert PositionKey(p[i]) in Positions(p);
        FirstAtInit(rows, PositionKey(p[i]));
      }
      if PositionKey(last) !in Positions(init) {
        assert PositionKey(last) in Positions(rows) by { assert last in rows; }
        var fl := FirstAt(rows, PositionKey(last));
        forall i | 0 <= i < |rows| - 1 ensures PositionKey(rows[i]) != PositionKey(last) {
          assert init[i] == rows[i] && init[i] in init;
        }
      }
    }
  }

  /** Appending a copy of an existing position changes nothing, so the
      result is strictly shorter than the extended input
      (test/test_GPSPreprocess.py:48-62). */
  lemma {:induction false} DropDuplicatesAppendDuplicate(rows: seq<RawRow>, x: RawRow)
    requires PositionKey(x) in Positions(rows)
    ensures DropDuplicates(rows + [x]) == DropDuplicates(rows)
    ensures |DropDuplicates(rows + [x])| < |rows + [x]|
  {
    assert (rows + [x])[..|rows + [x]| - 1] == rows;
    DropDuplicatesLength(rows);
  }

  lemma {:induction false} DropDuplicatesLength(rows: seq<RawRow>)
    ensures |DropDuplicates(rows)| <= |rows|
  {
    if rows != [] {
      DropDuplicatesLength(rows[..|rows| - 1]);
    }
  }

  function ToGpsRow(r: RawRow): GpsRow {
    GpsRow(r.recordId, r.serialId, r.localTime, r.latitude, r.longitude,
           r.speedKmh, Coord(r.longitude, r.latitude))
  }

  /** filter_data: duplicates dropped, then the geometry column is the point
      (longitude, latitude) of each row; positions are re-indexed 0..n-1,
      which a sequence is by construction. */
  function FilterData(data: Option<seq<RawRow>>): (r: Option<seq<GpsRow>>)
    ensures data.None? <==> r.None?
    ensures data.Some? ==>
      var kept := DropDuplicates(data.value);
      && |r.value| == |kept|
      && forall i | 0 <= i < |kept| ::
           r.value[i].geometry == Coord(kept[i].longitude, kept[i].latitude)
           && r.value[i].recordId == kept[i].recordId
           && r.value[i].serialId == kept[i].serialId
           && r.value[i].localTime == kept[i].localTime
           && r.value[i].latitude == kept[i].latitude
           && r.value[i].longitude == kept[i].longitude
           && r.value[i].speedKmh == kept[i].speedKmh
  {
    match data
    case None => None
    case Some(rows) =>
      var kept := DropDuplicates(rows);
      Some(seq(|kept|, i requires 0 <= i < |kept| => ToGpsRow(kept[i])))
  }

  predicate NotTooFast(r: GpsRow) {
    r.speedKmh <= MaxSpeedKmh
  }

  /** smooth_data: the rows with Speed_kmh > 180.0 are dropped; the others
      stay in order. */
  function SmoothData(data: Option<seq<GpsRow>>): (r: Option<seq<GpsRow>>)
    ensures data.None? <==> r.None?
    ensures data.Some? ==> |r.value| <= |data.value|
    ensures data.Some? ==> forall i | 0 <= i < |r.value| :: r.value[i].speedKmh <= 180.0
    ensures data.Some? ==> forall i | 0 <= i < |data.value| && data.value[i].speedKmh <= 180.0 ::
                             data.value[i] in r.value
    ensures data.Some? ==> forall i | 0 <= i < |r.value| :: r.value[i] in data.value
  {
    match data
    case None => None
    case Some(rows) => Some(Filter(rows, NotTooFast))
  }

  /** Smoothing keeps input order: it distributes over concatenation. */
  lemma SmoothKeepsOrder(a: seq<GpsRow>, b: seq<GpsRow>)
    ensures SmoothData(Some(a + b)).value == SmoothData(Some(a)).value + SmoothData(Some(b)).value
  {
    FilterAppend(a, b, NotTooFast);
  }

  /** Smoothing keeps or drops a single row by its speed alone. */
  lemma SmoothOneRow(x: GpsRow)
    ensures SmoothData(Some([x])).value == if x.speedKmh <= 180.0 then [x] else []
  {
    FilterSingleton(x, NotTooFast);
  }

  /** The constructor: filter, then smooth. */
  function Preprocess(data: Option<seq<RawRow>>): (r: Option<seq<GpsRow>>)
    ensures data.None? <==> r.None?
  {
    SmoothData(FilterData(data))
  }

  /** Preprocessing never lengthens the table, and every surviving row is
      slow enough and at a distinct position. */
  lemma PreprocessShrinks(rows: seq<RawRow>)
    ensures var r := Preprocess(Some(rows)).value;
      && |r| <= |rows|
      && (forall i | 0 <= i < |r| :: r[i].speedKmh <= MaxSpeedKmh)
      && (forall i, j | 0 <= i < j < |r| :: r[i].geometry != r[j].geometry)
  {
    DropDuplicatesLength(rows);
    DropDuplicatesDistinct(rows);
    var kept := DropDuplicates(rows);
    var f := FilterData(Some(rows)).value;
    assert forall i, j | 0 <= i < j < |f| :: f[i].geometry != f[j].geometry by {
      forall i, j | 0 <= i < j < |f| ensures f[i].geometry != f[j].geometry {
        assert PositionKey(kept[i]) != PositionKey(kept[j]);
      }
    }
    SmoothKeepsDistinct(f);
    assert Preprocess(Some(rows)).value == Filter(f, NotTooFast);
  }

  lemma SmoothKeepsDistinct(f: seq<GpsRow>)
    requires forall i, j | 0 <= i < j < |f| :: f[i].geometry != f[j].geometry
    ensures var r := Filter(f, NotTooFast);
      forall i, j | 0 <= i < j < |r| :: r[i].geometry != r[j].geometry
  {
    SubsequenceDistinct(f, Filter(f, NotTooFast));
  }

  lemma {:induction false} SubsequenceDistinct(f: seq<GpsRow>, r: seq<GpsRow>)
    requires forall i, j | 0 <= i < j < |f| :: f[i].geometry != f[j].geometry
    requires r == Filter(f, NotTooFast)
    ensures forall i, j | 0 <= i < j < |r| :: r[i].geometry != r[j].geometry
  {
    if f != [] {
      var init := f[..|f| - 1];
      SubsequenceDistinct(init, Filter(init, NotTooFast));
      forall i | 0 <= i < |Filter(init, NotTooFast)|
        ensures Filter(init, NotTooFast)[i].geometry != f[|f| - 1].geometry
      {
        var y := Filter(init, NotTooFast)[i];
        var k :| 0 <= k < |init| && init[k] == y;
        assert f[k] == y;
      }
    }
  }

  /** The speed cap is inclusive: 180.0 stays, anything above goes
      (test/test_GPSPreprocess.py:115-131). */
  lemma SmoothBoundary(a: GpsRow, b: GpsRow)
    requires a.speedKmh == 180.0 && b.speedKmh == 180.000000000001
    ensures SmoothData(Some([a, b])) == Some([a])
  {
    assert [a, b][..1] == [a];
    FilterSingleton(a, NotTooFast);
  }
}
