/** Route-choice variables of a matched route (src/variable_generator.py):
    the street nearest to a route coordinate, the left and right turns
    along the route, and the street with the longest leg. The shapely
    distances and the arc-cosine angle are the fields of a `Streets`
    value. */
module VariableGenerator {
  import opened Common
  import RS = RouteSolver

  /** The queries the code makes of the edge frame and of shapely. */
  datatype Streets = Streets(
    edgeName: int -> RS.StreetName,            // networkPE.loc[e]['name']
    edgeDistance: (int, Coord) -> real,        // networkPE.loc[e]['geometry'].distance(Point(c))
    pointDistance: (Coord, Coord) -> real,     // Point(a).distance(Point(b))
    angleDegrees: (Coord, Coord) -> real)      // degrees(acos(dot(u, v) / (|u| |v|)))

  // ---------------------------------------------------------------------
  // find_nearest_street
  // ---------------------------------------------------------------------

  /** The position, among the first `upto` edges, of the first edge at the
      least distance from c. */
  function NearestIndex(st: Streets, edges: seq<int>, c: Coord, upto: nat): (k: nat)
    requires 1 <= upto <= |edges|
    ensures k < upto
  {
    if upto == 1 then 0
    else
      var k := NearestIndex(st, edges, c, upto - 1);
      if st.edgeDistance(edges[upto - 1], c) < st.edgeDistance(edges[k], c) then upto - 1 else k
  }

  /** The kept position is at the least distance, and every earlier one is
      strictly farther. */
  lemma {:induction false} NearestIndexIsNearest(st: Streets, edges: seq<int>, c: Coord, upto: nat)
    requires 1 <= upto <= |edges|
    ensures var k := NearestIndex(st, edges, c, upto);
      && (forall j | 0 <= j < upto :: st.edgeDistance(edges[k], c) <= st.edgeDistance(edges[j], c))
      && (forall j | 0 <= j < k :: st.edgeDistance(edges[j], c) > st.edgeDistance(edges[k], c))
  {
    if upto > 1 {
      NearestIndexIsNearest(st, edges, c, upto - 1);
    }
  }

  /** The name of the first passed edge nearest to c. */
  function NearestStreet(st: Streets, edges: seq<int>, c: Coord): RS.StreetName
    requires |edges| > 0
  {
    st.edgeName(edges[NearestIndex(st, edges, c, |edges|)])
  }

  /** The street chosen is that of an edge whose distance no other passed
      edge beats, and no earlier edge is as near. */
  lemma NearestStreetIsNearest(st: Streets, edges: seq<int>, c: Coord)
    requires |edges| > 0
    ensures exists k | 0 <= k < |edges| ::
      && NearestStreet(st, edges, c) == st.edgeName(edges[k])
      && (forall j | 0 <= j < |edges| :: st.edgeDistance(edges[k], c) <= st.edgeDistance(edges[j], c))
      && (forall j | 0 <= j < k :: st.edgeDistance(edges[j], c) > st.edgeDistance(edges[k], c))
  {
    var k := NearestIndex(st, edges, c, |edges|);
    NearestIndexIsNearest(st, edges, c, |edges|);
    assert NearestStreet(st, edges, c) == st.edgeName(edges[k]);
  }

  /** find_nearest_street: a running minimum over the passed edges, which
      moves only on a strictly smaller distance. */
  method FindNearestStreet(st: Streets, edges: seq<int>, c: Coord) returns (street: RS.StreetName)
    requires |edges| > 0
    ensures street == NearestStreet(st, edges, c)
  {
    var nearest := 0;
    var nearestDist := st.edgeDistance(edges[0], c);
    street := st.edgeName(edges[0]);
    for k := 1 to |edges|
      invariant nearest == NearestIndex(st, edges, c, k)
      invariant nearestDist == st.edgeDistance(edges[nearest], c)
      invariant street == st.edgeName(edges[nearest])
    {
      var currDist := st.edgeDistance(edges[k], c);
      if currDist < nearestDist {
        nearest := k;
        nearestDist := currDist;
        street := st.edgeName(edges[k]);
      }
    }
  }

  // ---------------------------------------------------------------------
  // count_turns
  // ---------------------------------------------------------------------

  datatype Turn = LeftTurn | RightTurn | NoTurn

  function Abs(a: real): real {
    if a < 0.0 then -a else a
  }

  /** Python's float `%` by 360: the remainder has the divisor's sign. */
  function Mod360(a: real): (r: real)
    ensures 0.0 <= r < 360.0
  {
    a - 360.0 * ((a / 360.0).Floor as real)
  }

  /** The angle at a vertex, folded into [0, 180]. */
  function FoldedAngle(a: real): (r: real)
    ensures 0.0 <= r <= 180.0
  {
    var m := Mod360(a);
    if m > 180.0 then 360.0 - m else m
  }

  function Minus(a: Coord, b: Coord): Coord {
    Coord(a.x - b.x, a.y - b.y)
  }

  /** crossProd of the source: (c - a) against (b - a). */
  function Cross(a: Coord, b: Coord, c: Coord): real {
    var da, db := Minus(c, a), Minus(b, a);
    da.x * db.y - db.x * da.y
  }

  /** The verdict at vertex j: the vertex must bend by more than 30 degrees
      from straight and the streets nearest to its two neighbours must
      differ; the sign of the cross product then says left or right. */
  function TurnAt(st: Streets, edges: seq<int>, route: seq<Coord>, j: int): Turn
    requires |edges| > 0 && 1 <= j < |route| - 1
  {
    var angle := FoldedAngle(st.angleDegrees(Minus(route[j], route[j - 1]), Minus(route[j], route[j + 1])));
    if Abs(180.0 - angle) > 30.0
       && NearestStreet(st, edges, route[j - 1]) != NearestStreet(st, edges, route[j + 1]) then
      var cp := Cross(route[j - 1], route[j], route[j + 1]);
      if cp < 0.0 then LeftTurn else if cp > 0.0 then RightTurn else NoTurn
    else NoTurn
  }

  /** The (left, right) count with one more vertex's turn added. */
  function Tally(t: Turn, p: (nat, nat)): (r: (nat, nat))
    ensures r.0 + r.1 == p.0 + p.1 + (if t == NoTurn then 0 else 1)
  {
    match t
    case LeftTurn => (p.0 + 1, p.1)
    case RightTurn => (p.0, p.1 + 1)
    case NoTurn => p
  }

  /** The count does not depend on the order turns are added in. */
  lemma TallyCommutes(a: Turn, b: Turn, p: (nat, nat))
    ensures Tally(a, Tally(b, p)) == Tally(b, Tally(a, p))
  {
  }

  /** A mirrored turn lands on the other side of the count. */
  lemma TallyMirror(t: Turn, p: (nat, nat))
    ensures Tally(Mirror(t), (p.1, p.0)) == (Tally(t, p).1, Tally(t, p).0)
  {
  }

  /** The verdict at every vertex of the route; the two ends never turn. */
  function Verdicts(st: Streets, edges: seq<int>, route: seq<Coord>): (ts: seq<Turn>)
    requires |edges| > 0
    ensures |ts| == |route|
  {
    seq(|route|, j requires 0 <= j < |route| => if 1 <= j < |route| - 1 then TurnAt(st, edges, route, j) else NoTurn)
  }

  /** The verdict recorded for an interior vertex is the one taken there. */
  lemma VerdictIsTurnAt(st: Streets, edges: seq<int>, route: seq<Coord>, j: int)
    requires |edges| > 0 && 1 <= j < |route| - 1
    ensures Verdicts(st, edges, route)[j] == TurnAt(st, edges, route, j)
  {
  }

  /** The number of left and right turns among the verdicts at vertices
      1..upto-1. */
  function Turns(ts: seq<Turn>, upto: nat): (r: (nat, nat))
    requires upto <= 1 || upto < |ts|
    ensures r.0 + r.1 <= if upto <= 1 then 0 else upto - 1
  {
    if upto <= 1 then (0, 0)
    else Tally(ts[upto - 1], Turns(ts, upto - 1))
  }

  /** The vertices count_turns examines: all but the two ends. */
  function Examined(route: seq<Coord>): nat {
    if |route| <= 1 then 0 else |route| - 1
  }

  /** count_turns' result: left, right and total. */
  datatype TurnCount = TurnCount(left: nat, right: nat, total: nat)

  /** Counting the turns and their total; at most one turn per interior
      vertex. */
  function TurnCounts(st: Streets, edges: seq<int>, route: seq<Coord>): (r: TurnCount)
    requires |edges| > 0
    ensures r.total == r.left + r.right
    ensures r.left + r.right <= if |route| <= 2 then 0 else |route| - 2
  {
    var t := Turns(Verdicts(st, edges, route), Examined(route));
    TurnCount(t.0, t.1, t.0 + t.1)
  }

  /** A route that never leaves one street has no turn, however it bends. */
  lemma {:induction false} OneStreetNoTurns(st: Streets, edges: seq<int>, route: seq<Coord>, upto: nat)
    requires |edges| > 0 && (upto <= 1 || upto <= |route| - 1)
    requires forall a, b | 0 <= a < b < |route| ::
               NearestStreet(st, edges, route[a]) == NearestStreet(st, edges, route[b])
    ensures Turns(Verdicts(st, edges, route), upto) == (0, 0)
  {
    if upto > 1 {
      OneStreetNoTurns(st, edges, route, upto - 1);
      assert NearestStreet(st, edges, route[upto - 2]) == NearestStreet(st, edges, route[upto]);
      VerdictIsTurnAt(st, edges, route, upto - 1);
    }
  }

  function Mirror(t: Turn): Turn {
    match t
    case LeftTurn => RightTurn
    case RightTurn => LeftTurn
    case NoTurn => NoTurn
  }

  /** The left and right turns among the verdicts at vertices lo..hi-1,
      counted from the top. */
  function TurnsIn(ts: seq<Turn>, lo: nat, hi: nat): (nat, nat)
    requires 1 <= lo && (lo >= hi || hi < |ts|)
    decreases hi - lo
  {
    if lo >= hi then (0, 0)
    else Tally(ts[lo], TurnsIn(ts, lo + 1, hi))
  }

  /** Counting from the bottom or from the top gives the same numbers. */
  lemma {:induction false} TurnsInLast(ts: seq<Turn>, lo: nat, hi: nat)
    requires 1 <= lo < hi < |ts|
    ensures TurnsIn(ts, lo, hi) == Tally(ts[hi - 1], TurnsIn(ts, lo, hi - 1))
    decreases hi - lo
  {
    if lo + 1 < hi {
      TurnsInLast(ts, lo + 1, hi);
      TallyCommutes(ts[lo], ts[hi - 1], TurnsIn(ts, lo + 1, hi - 1));
    }
  }

  lemma {:induction false} TurnsAsRange(ts: seq<Turn>, upto: nat)
    requires 1 <= upto < |ts|
    ensures Turns(ts, upto) == TurnsIn(ts, 1, upto)
  {
    if upto > 1 {
      TurnsAsRange(ts, upto - 1);
      TurnsInLast(ts, 1, upto);
    }
  }

  lemma CrossReversed(a: Coord, b: Coord, c: Coord)
    ensures Cross(c, b, a) == -Cross(a, b, c)
  {
  }

  /** Vertex j of the reversed route is vertex n-1-j of the route, seen
      from the other side. */
  lemma TurnAtReversed(st: Streets, edges: seq<int>, route: seq<Coord>, back: seq<Coord>, j: int)
    requires |edges| > 0 && |back| == |route| && 1 <= j < |route| - 1
    requires forall k | 0 <= k < |route| :: back[k] == route[|route| - 1 - k]
    requires forall u, v :: st.angleDegrees(u, v) == st.angleDegrees(v, u)
    ensures TurnAt(st, edges, back, j) == Mirror(TurnAt(st, edges, route, |route| - 1 - j))
  {
    var j' := |route| - 1 - j;
    assert back[j - 1] == route[j' + 1] && back[j] == route[j'] && back[j + 1] == route[j' - 1];
    CrossReversed(route[j' - 1], route[j'], route[j' + 1]);
    assert st.angleDegrees(Minus(back[j], back[j - 1]), Minus(back[j], back[j + 1]))
        == st.angleDegrees(Minus(route[j'], route[j' - 1]), Minus(route[j'], route[j' + 1]));
  }

  /** The verdict at vertex j of the reversed route mirrors the verdict at
      vertex n-1-j of the route. */
  lemma VerdictReversed(st: Streets, edges: seq<int>, route: seq<Coord>, back: seq<Coord>, j: int)
    requires |edges| > 0 && |back| == |route| && 1 <= j < |route| - 1
    requires forall k | 0 <= k < |route| :: back[k] == route[|route| - 1 - k]
    requires forall u, v :: st.angleDegrees(u, v) == st.angleDegrees(v, u)
    ensures Verdicts(st, edges, back)[j] == Mirror(Verdicts(st, edges, route)[|route| - 1 - j])
  {
    TurnAtReversed(st, edges, route, back, j);
    VerdictIsTurnAt(st, edges, back, j);
    VerdictIsTurnAt(st, edges, route, |route| - 1 - j);
  }

  /** Verdicts that mirror each other vertex by vertex count the same
      turns with left and right swapped. */
  lemma {:induction false} ReversedPrefix(back: seq<Turn>, ts: seq<Turn>, upto: nat)
    requires |back| == |ts| && 1 <= upto <= |ts| - 1
    requires forall j | 1 <= j < |ts| - 1 :: back[j] == Mirror(ts[|ts| - 1 - j])
    ensures var b := Turns(back, upto);
      var f := TurnsIn(ts, |ts| - upto, |ts| - 1);
      b == (f.1, f.0)
  {
    if upto > 1 {
      ReversedPrefix(back, ts, upto - 1);
      TallyMirror(ts[|ts| - upto], TurnsIn(ts, |ts| - upto + 1, |ts| - 1));
    }
  }

  /** Driving the route backwards swaps its left and right turns, when the
      angle does not depend on the order of its two arms (as a dot product
      does not). */
  lemma ReversedSwapsTurns(st: Streets, edges: seq<int>, route: seq<Coord>, back: seq<Coord>)
    requires |edges| > 0 && |back| == |route|
    requires forall k | 0 <= k < |route| :: back[k] == route[|route| - 1 - k]
    requires forall u, v :: st.angleDegrees(u, v) == st.angleDegrees(v, u)
    ensures TurnCounts(st, edges, back).left == TurnCounts(st, edges, route).right
    ensures TurnCounts(st, edges, back).right == TurnCounts(st, edges, route).left
  {
    if |route| >= 2 {
      var tb, tf := Verdicts(st, edges, back), Verdicts(st, edges, route);
      forall j | 1 <= j < |route| - 1 ensures tb[j] == Mirror(tf[|route| - 1 - j]) {
        VerdictReversed(st, edges, route, back, j);
      }
      ReversedPrefix(tb, tf, |route| - 1);
      TurnsAsRange(tf, |route| - 1);
    }
  }

  /** One pass of count_turns' loop: the counts grow by the turn at
      vertex j. */
  method CountVertex(st: Streets, edges: seq<int>, route: seq<Coord>, j: int, left: nat, right: nat)
    returns (left': nat, right': nat)
    requires |edges| > 0 && 1 <= j < |route| - 1
    requires (left, right) == Turns(Verdicts(st, edges, route), j)
    ensures (left', right') == Turns(Verdicts(st, edges, route), j + 1)
  {
    var turn := TurnAtVertex(st, edges, route, j);
    left', right' := left, right;
    if turn == LeftTurn {
      left' := left + 1;
    } else if turn == RightTurn {
      right' := right + 1;
    }
  }

  /** The body of count_turns' loop: the turn at vertex j. */
  method TurnAtVertex(st: Streets, edges: seq<int>, route: seq<Coord>, j: int) returns (t: Turn)
    requires |edges| > 0 && 1 <= j < |route| - 1
    ensures t == Verdicts(st, edges, route)[j]
  {
    VerdictIsTurnAt(st, edges, route, j);
    t := NoTurn;
    var angle := FoldedAngle(st.angleDegrees(Minus(route[j], route[j - 1]), Minus(route[j], route[j + 1])));
    if Abs(180.0 - angle) > 30.0 {
      var startStreet := FindNearestStreet(st, edges, route[j - 1]);
      var endStreet := FindNearestStreet(st, edges, route[j + 1]);
      if startStreet != endStreet {
        var cp := Cross(route[j - 1], route[j], route[j + 1]);
        if cp < 0.0 {
          t := LeftTurn;
        } else if cp > 0.0 {
          t := RightTurn;
        }
      }
    }
  }

  /** count_turns: one pass over the interior vertices. */
  method CountTurns(st: Streets, edges: seq<int>, route: seq<Coord>) returns (r: TurnCount)
    requires |edges| > 0
    ensures r == TurnCounts(st, edges, route)
  {
    var left, right := 0, 0;
    var end := Examined(route);
    ghost var ts := Verdicts(st, edges, route);
    for j := 1 to if end <= 1 then 1 else end
      invariant (left, right) == Turns(ts, j)
    {
      left, right := CountVertex(st, edges, route, j, left, right);
    }
    assert (left, right) == Turns(ts, end);
    return TurnCount(left, right, left + right);
  }

  // ---------------------------------------------------------------------
  // longest_leg
  // ---------------------------------------------------------------------

  /** The street nearest to each route coordinate. */
  function StreetsAlong(st: Streets, edges: seq<int>, route: seq<Coord>): (ss: seq<RS.StreetName>)
    requires |edges| > 0
    ensures |ss| == |route| && forall k | 0 <= k < |route| :: ss[k] == NearestStreet(st, edges, route[k])
  {
    seq(|route|, k requires 0 <= k < |route| => NearestStreet(st, edges, route[k]))
  }

  /** The accumulator dict of longest_leg: its keys in insertion order
      (the order a Python dict iterates in), the length per street, and
      the current street. */
  datatype Legs = Legs(order: seq<RS.StreetName>, len: map<RS.StreetName, real>, curr: RS.StreetName)

  predicate Distinct(s: seq<RS.StreetName>) {
    forall a, b | 0 <= a < b < |s| :: s[a] != s[b]
  }

  /** Whether every street of `order` has an entry. */
  predicate Keyed(l: Legs) {
    forall j | 0 <= j < |l.order| :: l.order[j] in l.len
  }

  /** Whether every entry is for a street of `order`. */
  predicate OnlyKeys(l: Legs) {
    forall s | s in l.len :: s in l.order
  }

  /** The dict after the first n route coordinates, whose streets are ss:
      each segment i-1 -> i is added to the street current before
      coordinate i is looked at; a street seen for the first time gets a
      fresh zero entry, a street seen before resumes its entry. */
  function LegState(st: Streets, ss: seq<RS.StreetName>, route: seq<Coord>, n: nat): (l: Legs)
    requires |ss| == |route| && 1 <= n <= |route|
    ensures Distinct(l.order) && Keyed(l) && l.curr in l.len
    ensures l.curr == ss[n - 1] && |l.order| > 0 && l.order[0] == ss[0]
    ensures forall k | 0 <= k < n :: ss[k] in l.len
  {
    if n == 1 then
      Legs([ss[0]], map[ss[0] := 0.0], ss[0])
    else
      Advance(LegState(st, ss, route, n - 1), st.pointDistance(route[n - 2], route[n - 1]), ss[n - 1])
  }

  /** One coordinate's update of the dict: the segment's length d goes to
      the current street, then the coordinate's street ps becomes current. */
  function Advance(p: Legs, d: real, ps: RS.StreetName): Legs
    requires p.curr in p.len
  {
    var len := p.len[p.curr := p.len[p.curr] + d];
    if p.curr != ps && ps !in len then Legs(p.order + [ps], len[ps := 0.0], ps)
    else Legs(p.order, len, ps)
  }

  /** The dict has an entry for exactly the streets of `order`. */
  lemma {:induction false} LegStateOnlyKeys(st: Streets, ss: seq<RS.StreetName>, route: seq<Coord>, n: nat)
    requires |ss| == |route| && 1 <= n <= |route|
    ensures OnlyKeys(LegState(st, ss, route, n))
  {
    if n > 1 {
      LegStateOnlyKeys(st, ss, route, n - 1);
      var p := LegState(st, ss, route, n - 1);
      var l := LegState(st, ss, route, n);
      forall s | s in l.len ensures s in l.order {
        if s in p.len {
          assert s in p.order;
          var j :| 0 <= j < |p.order| && p.order[j] == s;
          assert l.order[j] == s;
        } else {
          assert s == ss[n - 1] && l.order[|l.order| - 1] == s;
        }
      }
    }
  }

  /** Along a single street the dict keeps a single entry. */
  lemma {:induction false} LegStateOneStreet(st: Streets, ss: seq<RS.StreetName>, route: seq<Coord>, n: nat)
    requires |ss| == |route| && 1 <= n <= |route|
    requires forall k | 0 <= k < n :: ss[k] == ss[0]
    ensures LegState(st, ss, route, n).order == [ss[0]]
  {
    if n > 1 {
      LegStateOneStreet(st, ss, route, n - 1);
    }
  }

  /** Every key of the dict is the street of one of the first n
      coordinates. */
  lemma {:induction false} LegStateKeysSeen(st: Streets, ss: seq<RS.StreetName>, route: seq<Coord>, n: nat, q: nat)
    requires |ss| == |route| && 1 <= n <= |route| && q < |LegState(st, ss, route, n).order|
    ensures exists k | 0 <= k < n :: ss[k] == LegState(st, ss, route, n).order[q]
  {
    if n > 1 {
      var p := LegState(st, ss, route, n - 1);
      if q < |p.order| {
        LegStateKeysSeen(st, ss, route, n - 1, q);
        assert LegState(st, ss, route, n).order[q] == p.order[q];
      }
    }
  }

  /** The sum of the entries of `len` for the streets of `order`. */
  function SumLegs(order: seq<RS.StreetName>, len: map<RS.StreetName, real>): real
    requires forall j | 0 <= j < |order| :: order[j] in len
  {
    if order == [] then 0.0 else SumLegs(order[..|order| - 1], len) + len[order[|order| - 1]]
  }

  /** The length of the route up to coordinate n-1. */
  function PathLength(st: Streets, route: seq<Coord>, n: nat): real
    requires n <= |route|
  {
    if n <= 1 then 0.0 else PathLength(st, route, n - 1) + st.pointDistance(route[n - 2], route[n - 1])
  }

  lemma {:induction false} SumLegsAdd(order: seq<RS.StreetName>, len: map<RS.StreetName, real>,
                                      s: RS.StreetName, d: real)
    requires Distinct(order) && (forall j | 0 <= j < |order| :: order[j] in len) && s in len
    ensures SumLegs(order, len[s := len[s] + d]) == SumLegs(order, len) + (if s in order then d else 0.0)
  {
    if order != [] {
      var init := order[..|order| - 1];
      assert forall j | 0 <= j < |init| :: init[j] == order[j];
      SumLegsAdd(init, len, s, d);
      assert s in order <==> s in init || order[|order| - 1] == s;
    }
  }

  lemma {:induction false} SumLegsIgnores(order: seq<RS.StreetName>, len: map<RS.StreetName, real>,
                                          s: RS.StreetName, v: real)
    requires (forall j | 0 <= j < |order| :: order[j] in len) && s !in order
    ensures SumLegs(order, len[s := v]) == SumLegs(order, len)
  {
    if order != [] {
      var init := order[..|order| - 1];
      assert forall j | 0 <= j < |init| :: init[j] == order[j];
      SumLegsIgnores(init, len, s, v);
    }
  }

  /** Every segment lands in exactly one accumulator, so the accumulators
      add up to the length of the route. */
  lemma {:induction false} LegsSumToPathLength(st: Streets, ss: seq<RS.StreetName>, route: seq<Coord>, n: nat)
    requires |ss| == |route| && 1 <= n <= |route|
    ensures var l := LegState(st, ss, route, n); SumLegs(l.order, l.len) == PathLength(st, route, n)
  {
    if n > 1 {
      LegsSumToPathLength(st, ss, route, n - 1);
      LegStateSumStep(st, ss, route, n);
    } else {
      StartLegSum(st, ss, route);
    }
  }

  /** The dict after the first coordinate holds one zero entry. */
  lemma StartLegSum(st: Streets, ss: seq<RS.StreetName>, route: seq<Coord>)
    requires |ss| == |route| && 1 <= |route|
    ensures var l := LegState(st, ss, route, 1); SumLegs(l.order, l.len) == 0.0
  {
    assert [ss[0]][..0] == [];
  }

  /** Coordinate n-1 adds the length of segment n-2 -> n-1 to the sum. */
  lemma LegStateSumStep(st: Streets, ss: seq<RS.StreetName>, route: seq<Coord>, n: nat)
    requires |ss| == |route| && 2 <= n <= |route|
    ensures var l, p := LegState(st, ss, route, n), LegState(st, ss, route, n - 1);
      SumLegs(l.order, l.len) == SumLegs(p.order, p.len) + st.pointDistance(route[n - 2], route[n - 1])
  {
    var p := LegState(st, ss, route, n - 1);
    LegStateOnlyKeys(st, ss, route, n - 1);
    AdvanceSum(p, st.pointDistance(route[n - 2], route[n - 1]), ss[n - 1]);
  }

  /** The update adds d to the sum over the keys. */
  lemma AdvanceSum(p: Legs, d: real, ps: RS.StreetName)
    requires Distinct(p.order) && Keyed(p) && OnlyKeys(p) && p.curr in p.len
    ensures var l := Advance(p, d, ps); Keyed(l) && SumLegs(l.order, l.len) == SumLegs(p.order, p.len) + d
  {
    SumLegsAdd(p.order, p.len, p.curr, d);
    var len := p.len[p.curr := p.len[p.curr] + d];
    if p.curr != ps && ps !in len {
      SumLegsAppendFresh(p.order, len, ps);
    }
  }

  /** A street appended with a fresh zero entry adds nothing to the sum. */
  lemma SumLegsAppendFresh(order: seq<RS.StreetName>, len: map<RS.StreetName, real>, s: RS.StreetName)
    requires (forall j | 0 <= j < |order| :: order[j] in len) && s !in order
    ensures SumLegs(order + [s], len[s := 0.0]) == SumLegs(order, len)
  {
    assert (order + [s])[..|order|] == order;
    SumLegsIgnores(order, len, s, 0.0);
  }

  /** The second loop of longest_leg over the first k keys: the running
      best moves only to a strictly longer leg. */
  function Pick(len: map<RS.StreetName, real>, order: seq<RS.StreetName>, init: (RS.StreetName, real), k: nat)
    : (r: (RS.StreetName, real))
    requires k <= |order| && forall j | 0 <= j < |order| :: order[j] in len
    ensures r.1 >= init.1 && forall j | 0 <= j < k :: r.1 >= len[order[j]]
    ensures r == init || exists m | 0 <= m < k :: r == (order[m], len[order[m]]) && r.1 > init.1
                                                   && forall j | 0 <= j < m :: len[order[j]] < r.1
  {
    if k == 0 then init
    else
      var p := Pick(len, order, init, k - 1);
      if p.1 < len[order[k - 1]] then (order[k - 1], len[order[k - 1]]) else p
  }

  /** The pass over a dict whose keys are `order`, started at an entry c,
      ends at the largest entry: c itself when it is among the largest,
      else the first-inserted largest one. */
  lemma PickIsLargest(l: Legs)
    requires Keyed(l) && OnlyKeys(l) && l.curr in l.len
    ensures var r := Pick(l.len, l.order, (l.curr, l.len[l.curr]), |l.order|);
      && r.0 in l.len && r.1 == l.len[r.0]
      && (forall s | s in l.len :: l.len[s] <= r.1)
      && ((forall s | s in l.len :: l.len[s] <= l.len[l.curr]) ==> r.0 == l.curr)
      && (r.0 != l.curr ==> exists m | 0 <= m < |l.order| ::
            r.0 == l.order[m] && forall j | 0 <= j < m :: l.len[l.order[j]] < r.1)
  {
    var r := Pick(l.len, l.order, (l.curr, l.len[l.curr]), |l.order|);
    forall s | s in l.len ensures l.len[s] <= r.1 {
      var q :| 0 <= q < |l.order| && l.order[q] == s;
    }
  }

  /** longest_leg's result. */
  datatype LongestLegResult = LongestLegResult(legStreet: RS.StreetName, legLength: real)

  /** The largest entry of the dict, found from the final street. */
  function LongestOf(l: Legs): (r: LongestLegResult)
    requires Keyed(l) && l.curr in l.len
  {
    var p := Pick(l.len, l.order, (l.curr, l.len[l.curr]), |l.order|);
    LongestLegResult(p.0, p.1)
  }

  function Longest(st: Streets, edges: seq<int>, route: seq<Coord>): (r: LongestLegResult)
    requires |edges| > 0 && |route| > 0
  {
    LongestOf(LegState(st, StreetsAlong(st, edges, route), route, |route|))
  }

  /** The longest leg is the largest accumulator and belongs to its
      street: the final street when that one is among the largest, else
      the first-inserted street with the largest accumulator. */
  lemma LongestIsLargest(st: Streets, edges: seq<int>, route: seq<Coord>)
    requires |edges| > 0 && |route| > 0
    ensures var l := LegState(st, StreetsAlong(st, edges, route), route, |route|);
      var r := Longest(st, edges, route);
      && r.legStreet in l.len && r.legLength == l.len[r.legStreet]
      && (forall s | s in l.len :: l.len[s] <= r.legLength)
      && ((forall s | s in l.len :: l.len[s] <= l.len[l.curr]) ==> r.legStreet == l.curr)
      && (r.legStreet != l.curr ==> exists m | 0 <= m < |l.order| ::
            r.legStreet == l.order[m] && forall j | 0 <= j < m :: l.len[l.order[j]] < r.legLength)
  {
    LegStateOnlyKeys(st, StreetsAlong(st, edges, route), route, |route|);
    PickIsLargest(LegState(st, StreetsAlong(st, edges, route), route, |route|));
  }

  /** The accumulators of the street sequence add up to the route length. */
  lemma LongestLegsCoverRoute(st: Streets, edges: seq<int>, route: seq<Coord>)
    requires |edges| > 0 && |route| > 0
    ensures var l := LegState(st, StreetsAlong(st, edges, route), route, |route|);
      SumLegs(l.order, l.len) == PathLength(st, route, |route|)
  {
    LegsSumToPathLength(st, StreetsAlong(st, edges, route), route, |route|);
  }

  /** A route that stays on one street has that street as its longest leg,
      of the whole route's length. */
  lemma OneStreetOneLeg(st: Streets, edges: seq<int>, route: seq<Coord>)
    requires |edges| > 0 && |route| > 0
    requires forall k | 0 <= k < |route| :: NearestStreet(st, edges, route[k]) == NearestStreet(st, edges, route[0])
    ensures Longest(st, edges, route) == LongestLegResult(NearestStreet(st, edges, route[0]), PathLength(st, route, |route|))
  {
    var ss := StreetsAlong(st, edges, route);
    var l := LegState(st, ss, route, |route|);
    var s := ss[0];
    LegStateOneStreet(st, ss, route, |route|);
    LegsSumToPathLength(st, ss, route, |route|);
    assert [s][..0] == [];
  }

  /** longest_leg: the accumulating pass over the route, then the pass over
      the dict for the largest entry. */
  method LongestLeg(st: Streets, edges: seq<int>, route: seq<Coord>) returns (r: LongestLegResult)
    requires |edges| > 0 && |route| > 0
    ensures r == Longest(st, edges, route)
  {
    ghost var ss := StreetsAlong(st, edges, route);
    var currStreet := FindNearestStreet(st, edges, route[0]);
    var order: seq<RS.StreetName> := [currStreet];
    var legLen: map<RS.StreetName, real> := map[currStreet := 0.0];
    for i := 1 to |route|
      invariant Legs(order, legLen, currStreet) == LegState(st, ss, route, i)
    {
      order, legLen, currStreet := LegStep(st, edges, route, ss, i, order, legLen, currStreet);
    }
    r := LongestEntry(Legs(order, legLen, currStreet));
  }

  /** The body of longest_leg's first loop for coordinate i. */
  method LegStep(st: Streets, edges: seq<int>, route: seq<Coord>, ghost ss: seq<RS.StreetName>, i: nat,
                 order: seq<RS.StreetName>, legLen: map<RS.StreetName, real>, currStreet: RS.StreetName)
    returns (order': seq<RS.StreetName>, legLen': map<RS.StreetName, real>, currStreet': RS.StreetName)
    requires |edges| > 0 && 1 <= i < |route| == |ss| && ss[i] == NearestStreet(st, edges, route[i])
    requires Legs(order, legLen, currStreet) == LegState(st, ss, route, i)
    ensures Legs(order', legLen', currStreet') == LegState(st, ss, route, i + 1)
  {
    order', currStreet' := order, currStreet;
    var lineSegLen := st.pointDistance(route[i - 1], route[i]);
    legLen' := legLen[currStreet := legLen[currStreet] + lineSegLen];
    var pointStreet := FindNearestStreet(st, edges, route[i]);
    assert pointStreet == ss[i];
    ghost var len := legLen';
    if currStreet != pointStreet {
      if pointStreet !in legLen' {
        legLen' := legLen'[pointStreet := 0.0];
        order' := order + [pointStreet];
      }
      currStreet' := pointStreet;
    }
    assert LegState(st, ss, route, i + 1)
        == if currStreet != pointStreet && pointStreet !in len then Legs(order + [pointStreet], len[pointStreet := 0.0], pointStreet)
           else Legs(order, len, pointStreet);
  }

  /** The second loop of longest_leg. */
  method LongestEntry(l: Legs) returns (r: LongestLegResult)
    requires Keyed(l) && l.curr in l.len
    ensures r == LongestOf(l)
  {
    var longStreet := l.curr;
    var longLen := l.len[l.curr];
    for k := 0 to |l.order|
      invariant (longStreet, longLen) == Pick(l.len, l.order, (l.curr, l.len[l.curr]), k)
    {
      var currLen := l.len[l.order[k]];
      if longLen < currLen {
        longStreet := l.order[k];
        longLen := currLen;
      }
    }
    return LongestLegResult(longStreet, longLen);
  }
}
