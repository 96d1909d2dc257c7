/** Shared value types of the pipeline: planar or geographic coordinates and
    the outcome of an operation that the original program may abort. */
module Common {

  /** A coordinate pair: x is the longitude (or projected easting), y the
      latitude (or projected northing). */
  datatype Coord = Coord(x: real, y: real)

  /** Why an operation of the original program raises instead of returning. */
  datatype Error =
    | EmptyMarkerList        // list.pop(0) on an empty list
    | DistanceToEmptySlice   // distance to a one-past-the-end slice of a frame
    | InvalidTimestamp       // datetime rejects second or microsecond
    | AnchorNotPoint         // .distance called on the integer 0
    | MissingLabel           // label lookup in a Series whose index lacks it (KeyError),
                             // or a positional list index out of range (IndexError)
    | DegenerateLine         // a LineString built from one coordinate
    | NoPath                 // iterating over the None of an unreachable shortest path
    | MissingColumn          // required column absent from a frame
    | WrongGeometryType      // geometry column of a non-geometry dtype

  datatype Option<T> = None | Some(value: T)

  datatype Result<T> = Success(value: T) | Failure(error: Error)

  /** True iff no two neighbours of `s` are equal. */
  predicate NoConsecutiveDuplicates<T(==)>(s: seq<T>) {
    forall i | 0 < i < |s| :: s[i - 1] != s[i]
  }

  /** Sum of a sequence of reals. */
  function Sum(s: seq<real>): real {
    if s == [] then 0.0 else Sum(s[..|s| - 1]) + s[|s| - 1]
  }

  /** The elements of `s` that satisfy `p`, in their original order. */
  function Filter<T>(s: seq<T>, p: T -> bool): (r: seq<T>)
    ensures |r| <= |s|
    ensures forall i | 0 <= i < |r| :: r[i] in s && p(r[i])
    ensures forall i | 0 <= i < |s| && p(s[i]) :: s[i] in r
  {
    if s == [] then []
    else if p(s[|s| - 1]) then Filter(s[..|s| - 1], p) + [s[|s| - 1]]
    else Filter(s[..|s| - 1], p)
  }

  /** Filter distributes over concatenation; with FilterSingleton this fixes
      Filter completely, order included. */
  lemma {:induction false} FilterAppend<T>(s: seq<T>, t: seq<T>, p: T -> bool)
    ensures Filter(s + t, p) == Filter(s, p) + Filter(t, p)
  {
    if t == [] {
      assert s + t == s;
    } else {
      assert (s + t)[..|s + t| - 1] == s + t[..|t| - 1];
      FilterAppend(s, t[..|t| - 1], p);
    }
  }

  lemma FilterSingleton<T>(x: T, p: T -> bool)
    ensures Filter([x], p) == if p(x) then [x] else []
  {
    assert [x][..0] == [];
  }

  lemma {:induction false} SumAppend(s: seq<real>, t: seq<real>)
    ensures Sum(s + t) == Sum(s) + Sum(t)
  {
    if t == [] {
      assert s + t == s;
    } else {
      assert (s + t)[..|s + t| - 1] == s + t[..|t| - 1];
      SumAppend(s, t[..|t| - 1]);
    }
  }

  // ---------------------------------------------------------------------
  // Frame labels
  // ---------------------------------------------------------------------

  /** The first position at or after p whose index label is k. */
  function LabelPosFrom(labels: seq<int>, k: int, p: nat): (r: Option<nat>)
    ensures r.Some? ==> p <= r.value < |labels| && labels[r.value] == k
                        && forall q | p <= q < r.value :: labels[q] != k
    ensures r.None? <==> forall q | p <= q < |labels| :: labels[q] != k
    decreases |labels| - p
  {
    if p >= |labels| then None
    else if labels[p] == k then Some(p)
    else LabelPosFrom(labels, k, p + 1)
  }

  /** Where `series[k]` finds label k in a frame whose index is `labels`;
      None is the KeyError. */
  function LabelPos(labels: seq<int>, k: int): Option<nat> {
    LabelPosFrom(labels, k, 0)
  }
}
