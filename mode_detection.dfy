/** Episode segmentation (src/ModeDetection.py): sub-minute time
    reconstruction from distance and speed, the hysteresis state machine that
    cuts the fix stream into car / walk / stop episodes, and the pass that
    picks one representative fix per episode. */
module ModeDetection {
  import opened Common

  /** One preprocessed fix. `minuteStamp` is the LocalTime string
      "month/day/year hour:minute" read as a whole number of minutes since a
      fixed hour-aligned origin, so its last two digits are minuteStamp % 60. */
  datatype Fix = Fix(serialId: int, recordId: int, localTime: string,
                     minuteStamp: int, geometry: Coord, speedKmh: real)

  /** An acceleration as numpy stores it: a real number, or the inf or nan
      that float64 division by 0.0 yields (with a warning, not an
      exception). */
  datatype Acc = Finite(value: real) | Infinite | NotANumber

  /** One output row: EPISODEID (which holds the SerialID of the fix),
      RECORDID, TIMESTART, MODES and geometry. */
  datatype EpisodeRow = EpisodeRow(episodeId: int, recordId: int, timeStart: string,
                                   modes: string, geometry: Coord)

  // ---------------------------------------------------------------------
  // calc_time_acc: a declarative description of what it computes
  // ---------------------------------------------------------------------

  /** row["LocalTime"][-2:]: the two minute digits that end a LocalTime
      string, which (with minuteStamp counted from an hour-aligned origin)
      name the same minute iff minuteStamp % 60 agrees. */
  function MinuteDigits(f: Fix): int {
    f.minuteStamp % 60
  }

  /** Speed_kmh * 5 / 18, in metres per second. */
  function MetresPerSecond(speedKmh: real): real {
    speedKmh * 5.0 / 18.0
  }

  predicate Moving(data: seq<Fix>, k: int)
    requires 0 <= k < |data|
  {
    MetresPerSecond(data[k].speedKmh) != 0.0
  }

  /** A minute change is recorded at k iff the minute field differs from the
      one of the fix before it (start_min always holds the previous fix's). */
  predicate IsMarker(data: seq<Fix>, k: int) {
    0 < k < |data| && MinuteDigits(data[k]) != MinuteDigits(data[k - 1])
  }

  /** The recorded minute-change indices below `b`, in increasing order. */
  function MarkersBelow(data: seq<Fix>, b: int): (r: seq<nat>)
    ensures forall q | 0 <= q < |r| :: r[q] < b && IsMarker(data, r[q])
    ensures forall q1, q2 | 0 <= q1 < q2 < |r| :: r[q1] < r[q2]
    decreases b
  {
    if b <= 1 then []
    else if IsMarker(data, b - 1) then MarkersBelow(data, b - 1) + [b - 1]
    else MarkersBelow(data, b - 1)
  }

  /** First index of the minute segment that holds k: the last recorded
      minute change at or before k, or 0. */
  function SegStart(data: seq<Fix>, k: int): (s: int)
    requires 0 <= k < |data|
    ensures 0 <= s <= k
    ensures s == 0 || IsMarker(data, s)
    ensures forall l | s < l <= k :: !IsMarker(data, l)
  {
    if k == 0 || IsMarker(data, k) then k else SegStart(data, k - 1)
  }

  /** The first recorded minute change at or after j. */
  function NextMarkerFrom(data: seq<Fix>, j: nat): (r: Option<nat>)
    ensures r.Some? ==> j <= r.value < |data| && IsMarker(data, r.value)
                        && forall l | j <= l < r.value :: !IsMarker(data, l)
    ensures r.None? ==> forall l | j <= l < |data| :: !IsMarker(data, l)
    decreases |data| - j
  {
    if j >= |data| then None
    else if IsMarker(data, j) then Some(j)
    else NextMarkerFrom(data, j + 1)
  }

  /** Seconds to cover the distance to the next fix at the current speed
      (0 for a fix at rest, and for the last fix, which has no successor). */
  function TravelTime(data: seq<Fix>, dist: (Coord, Coord) -> real, k: int): real
    requires 0 <= k < |data|
  {
    if Moving(data, k) && k + 1 < |data| then
      dist(data[k].geometry, data[k + 1].geometry) / MetresPerSecond(data[k].speedKmh)
    else 0.0
  }

  /** segment_time over [a, b). */
  function SegTime(data: seq<Fix>, dist: (Coord, Coord) -> real, a: int, b: int): real
    requires 0 <= a && b <= |data|
    decreases b - a
  {
    if b <= a then 0.0 else SegTime(data, dist, a, b - 1) + TravelTime(data, dist, b - 1)
  }

  /** The fixes at rest in [a, b), in order: the `zeros` list. */
  function ZerosIn(data: seq<Fix>, a: int, b: int): (r: seq<nat>)
    requires 0 <= a && b <= |data|
    ensures forall q | 0 <= q < |r| :: a <= r[q] < b && !Moving(data, r[q])
    decreases b - a
  {
    if b <= a then []
    else if Moving(data, b - 1) then ZerosIn(data, a, b - 1)
    else ZerosIn(data, a, b - 1) + [b - 1]
  }

  /** Every minute change below b is listed. */
  lemma {:induction false} MarkerListed(data: seq<Fix>, b: int, k: int)
    requires 0 <= k < b && IsMarker(data, k)
    ensures k in MarkersBelow(data, b)
    decreases b
  {
    if k < b - 1 {
      MarkerListed(data, b - 1, k);
    }
  }

  /** Every fix at rest in [a, b) is listed. */
  lemma {:induction false} ZeroListed(data: seq<Fix>, a: int, b: int, k: int)
    requires 0 <= a <= k < b <= |data| && !Moving(data, k)
    ensures k in ZerosIn(data, a, b)
    decreases b - a
  {
    if k < b - 1 {
      ZeroListed(data, a, b - 1, k);
    }
  }

  /** The time each of `zeros` fixes at rest receives when its minute
      closes: they share what is left of 59.99 s, or nothing when the
      moving fixes already used it up. */
  function AvgStopTime(segmentTime: real, zeros: nat): (r: real)
    requires zeros > 0
    ensures r >= 0.0
    ensures segmentTime + zeros as real * r == if segmentTime > 59.99 then segmentTime else 59.99
  {
    var room := (if segmentTime > 59.99 then segmentTime else 59.99) - segmentTime;
    assert zeros as real * (room / zeros as real) == room;
    room / zeros as real
  }

  /** The time-at-rest share of fix k: the segment that holds k must have
      been closed by a later minute change. */
  function StopShare(data: seq<Fix>, dist: (Coord, Coord) -> real, k: int): Option<real>
    requires 0 <= k < |data|
  {
    match NextMarkerFrom(data, k + 1)
    case None => None
    case Some(m) =>
      var z := ZerosIn(data, SegStart(data, k), m);
      if |z| == 0 then None else Some(AvgStopTime(SegTime(data, dist, SegStart(data, k), m), |z|))
  }

  /** The per-fix seconds before the running sum. */
  function RawSecond(data: seq<Fix>, dist: (Coord, Coord) -> real, k: int): real
    requires 0 <= k < |data|
  {
    if Moving(data, k) then TravelTime(data, dist, k)
    else match StopShare(data, dist, k)
         case None => 0.0
         case Some(avg) => avg
  }

  function Abs(x: real): real {
    if x < 0.0 then -x else x
  }

  /** x / y for a float64 numerator x >= 0: nan for 0/0, inf for a positive
      x over 0, else the real quotient. */
  function Quotient(x: real, y: real): (a: Acc)
    requires x >= 0.0
    ensures a.Finite? <==> y != 0.0
    ensures a.Finite? ==> a.value * y == x
    ensures a == NotANumber <==> y == 0.0 && x == 0.0
  {
    if y != 0.0 then Finite(x / y) else if x == 0.0 then NotANumber else Infinite
  }

  /** The acceleration of fix k. */
  function RawAcc(data: seq<Fix>, dist: (Coord, Coord) -> real, k: int): Acc
    requires 0 <= k < |data|
  {
    if Moving(data, k) then
      if k + 1 < |data| then
        Quotient(Abs(MetresPerSecond(data[k].speedKmh) - MetresPerSecond(data[k + 1].speedKmh)),
                 TravelTime(data, dist, k))
      else Finite(0.0)
    else match StopShare(data, dist, k)
         case None => Finite(0.0)
         case Some(avg) => if avg != 0.0 && k + 1 < |data| then Finite(StopAcc(data, k, avg)) else Finite(0.0)
  }

  /** The acceleration a fix at rest gets from its share: the next fix's
      speed over the share. */
  function StopAcc(data: seq<Fix>, k: int, avg: real): real
    requires 0 <= k && k + 1 < |data| && avg != 0.0
  {
    MetresPerSecond(data[k + 1].speedKmh) / avg
  }

  /** A fix the scan cannot get past: a moving last fix, whose successor
      is an empty slice. A moving fix that travels no distance is passed:
      its acceleration is inf or nan. */
  predicate BadAt(data: seq<Fix>, k: int)
    requires 0 <= k < |data|
  {
    Moving(data, k) && k == |data| - 1
  }

  function RawSeconds(data: seq<Fix>, dist: (Coord, Coord) -> real): (r: seq<real>)
    ensures |r| == |data|
    ensures forall k | 0 <= k < |data| :: r[k] == RawSecond(data, dist, k)
  {
    seq(|data|, k requires 0 <= k < |data| => RawSecond(data, dist, k))
  }

  /** The final seconds value of fix k: the running sum of raw seconds since
      the start of its minute segment. */
  function FinalSecond(data: seq<Fix>, dist: (Coord, Coord) -> real, k: int): real
    requires 0 <= k < |data|
  {
    Sum(RawSeconds(data, dist)[SegStart(data, k)..k + 1])
  }

  /** What calc_time_acc returns, or the error it raises. */
  function TimeAcc(data: seq<Fix>, dist: (Coord, Coord) -> real): Result<(seq<real>, seq<Acc>)> {
    if exists k | 0 <= k < |data| :: BadAt(data, k) then Failure(DistanceToEmptySlice)
    else if MarkersBelow(data, |data|) == [] then Failure(EmptyMarkerList)
    else
      Success((seq(|data|, k requires 0 <= k < |data| => FinalSecond(data, dist, k)),
               seq(|data|, k requires 0 <= k < |data| => RawAcc(data, dist, k))))
  }

  /** calc_time_acc raises only on a moving last fix (DistanceToEmptySlice)
      or, after the scan, on a log without any minute change
      (EmptyMarkerList); zero distances never make it fail. */
  lemma TimeAccFailsIff(data: seq<Fix>, dist: (Coord, Coord) -> real)
    ensures TimeAcc(data, dist).Failure? <==>
              (|data| > 0 && Moving(data, |data| - 1)) || MarkersBelow(data, |data|) == []
    ensures TimeAcc(data, dist).Failure? ==>
              TimeAcc(data, dist).error ==
                if |data| > 0 && Moving(data, |data| - 1) then DistanceToEmptySlice else EmptyMarkerList
  {
    BadOnlyAtEnd(data);
  }

  /** The only fix the per-fix loop cannot pass is a moving last one. */
  lemma BadOnlyAtEnd(data: seq<Fix>)
    ensures (exists k | 0 <= k < |data| :: BadAt(data, k)) <==> |data| > 0 && Moving(data, |data| - 1)
  {
    if |data| > 0 && Moving(data, |data| - 1) {
      assert BadAt(data, |data| - 1);
    }
  }

  function RawAccs(data: seq<Fix>, dist: (Coord, Coord) -> real): (r: seq<Acc>)
    ensures |r| == |data|
    ensures forall k | 0 <= k < |data| :: r[k] == RawAcc(data, dist, k)
  {
    seq(|data|, k requires 0 <= k < |data| => RawAcc(data, dist, k))
  }

  /** Every index between a segment's start and k lies in the same
      segment. */
  lemma {:induction false} SegStartSame(data: seq<Fix>, k: int, j: int)
    requires 0 <= k <= j < |data| && SegStart(data, j) <= k
    ensures SegStart(data, k) == SegStart(data, j)
    decreases j - k
  {
    if k < j {
      assert !IsMarker(data, j) && j != 0;
      SegStartSame(data, k, j - 1);
    }
  }

  /** The first minute change from j on is i when none lies in [j, i). */
  lemma {:induction false} NextMarkerIs(data: seq<Fix>, j: nat, i: int)
    requires j <= i && IsMarker(data, i)
    requires forall l | j <= l < i :: !IsMarker(data, l)
    ensures NextMarkerFrom(data, j) == Some(i)
    decreases i - j
  {
    if j < i {
      NextMarkerIs(data, j + 1, i);
    }
  }

  /** No minute change from j on. */
  lemma {:induction false} NoNextMarker(data: seq<Fix>, j: nat)
    requires forall l | j <= l < |data| :: !IsMarker(data, l)
    ensures NextMarkerFrom(data, j) == None
    decreases |data| - j
  {
    if j < |data| {
      NoNextMarker(data, j + 1);
    }
  }

  /** A fix at rest in the segment that the minute change at i closes gets
      that segment's share. */
  lemma CloseSegment(data: seq<Fix>, dist: (Coord, Coord) -> real, i: int, k: int)
    requires IsMarker(data, i) && 0 <= k < i && !Moving(data, k) && k >= SegStart(data, i - 1)
    ensures var s := SegStart(data, i - 1);
      |ZerosIn(data, s, i)| > 0
      && StopShare(data, dist, k) == Some(AvgStopTime(SegTime(data, dist, s, i), |ZerosIn(data, s, i)|))
  {
    var s := SegStart(data, i - 1);
    SegStartSame(data, k, i - 1);
    NextMarkerIs(data, k + 1, i);
    ZeroListed(data, s, i, k);
    var z := ZerosIn(data, s, i);
    assert |z| > 0;
    assert StopShare(data, dist, k) == Some(AvgStopTime(SegTime(data, dist, s, i), |z|));
  }

  /** Fixes at rest in the last segment are never given a share. */
  lemma LastSegmentOpen(data: seq<Fix>, dist: (Coord, Coord) -> real, k: int)
    requires 0 <= k < |data| && k >= SegStart(data, |data| - 1)
    ensures StopShare(data, dist, k) == None
  {
    NoNextMarker(data, k + 1);
  }

  /** A moving fix with a successor never stops the scan. It takes no time
      exactly when it travels no distance, and then its seconds are 0 and
      its acceleration is not finite: nan when the next fix has the same
      speed, inf otherwise. */
  lemma TravelTimeZero(data: seq<Fix>, dist: (Coord, Coord) -> real, k: int)
    requires 0 <= k < |data| - 1 && Moving(data, k)
    ensures !BadAt(data, k)
    ensures TravelTime(data, dist, k) == 0.0 <==> dist(data[k].geometry, data[k + 1].geometry) == 0.0
    ensures TravelTime(data, dist, k) == 0.0 ==> RawSecond(data, dist, k) == 0.0
    ensures RawAcc(data, dist, k).Finite? <==> TravelTime(data, dist, k) != 0.0
    ensures RawAcc(data, dist, k) == NotANumber <==>
              TravelTime(data, dist, k) == 0.0
              && MetresPerSecond(data[k].speedKmh) == MetresPerSecond(data[k + 1].speedKmh)
  {
    var d := dist(data[k].geometry, data[k + 1].geometry);
    var v := MetresPerSecond(data[k].speedKmh);
    assert TravelTime(data, dist, k) == d / v;
    assert d / v == 0.0 ==> d == (d / v) * v;
  }

  /** What the scan has stored for fix k once it has passed it: fixes at
      rest from `from` on are still at 0. */
  function ExpectedSecond(data: seq<Fix>, dist: (Coord, Coord) -> real, from: int, k: int): real
    requires 0 <= k < |data|
  {
    if !Moving(data, k) && k >= from then 0.0 else RawSecond(data, dist, k)
  }

  function ExpectedAcc(data: seq<Fix>, dist: (Coord, Coord) -> real, from: int, k: int): Acc
    requires 0 <= k < |data|
  {
    if !Moving(data, k) && k >= from then Finite(0.0) else RawAcc(data, dist, k)
  }

  /** The first n seconds and accelerations computed so far are the
      expected ones. */
  predicate Agrees(data: seq<Fix>, dist: (Coord, Coord) -> real, n: int, from: int,
                   seconds: seq<real>, acc: seq<Acc>)
    requires 0 <= n <= |data|
    decreases n
  {
    && |seconds| == n && |acc| == n
    && (n > 0 ==>
          && Agrees(data, dist, n - 1, from, seconds[..n - 1], acc[..n - 1])
          && seconds[n - 1] == ExpectedSecond(data, dist, from, n - 1)
          && acc[n - 1] == ExpectedAcc(data, dist, from, n - 1))
  }

  lemma {:induction false} AgreesPointwise(data: seq<Fix>, dist: (Coord, Coord) -> real, n: int, from: int,
                                           seconds: seq<real>, acc: seq<Acc>)
    requires 0 <= n <= |data|
    ensures Agrees(data, dist, n, from, seconds, acc) <==>
      && |seconds| == n && |acc| == n
      && (forall k | 0 <= k < n :: seconds[k] == ExpectedSecond(data, dist, from, k))
      && (forall k | 0 <= k < n :: acc[k] == ExpectedAcc(data, dist, from, k))
    decreases n
  {
    if n > 0 && |seconds| == n && |acc| == n {
      AgreesPointwise(data, dist, n - 1, from, seconds[..n - 1], acc[..n - 1]);
    }
  }

  lemma AgreesAppend(data: seq<Fix>, dist: (Coord, Coord) -> real, n: int, from: int,
                     seconds: seq<real>, acc: seq<Acc>, v: real, w: Acc)
    requires 0 <= n < |data| && Agrees(data, dist, n, from, seconds, acc)
    requires v == ExpectedSecond(data, dist, from, n) && w == ExpectedAcc(data, dist, from, n)
    ensures Agrees(data, dist, n + 1, from, seconds + [v], acc + [w])
  {
    assert (seconds + [v])[..n] == seconds;
    assert (acc + [w])[..n] == acc;
  }

  /** Once the minute change at n has handed out the shares, nothing is
      pending. */
  lemma {:induction false} AgreesAfterClose(data: seq<Fix>, dist: (Coord, Coord) -> real, n: int,
                          seconds: seq<real>, acc: seq<Acc>, seconds': seq<real>, acc': seq<Acc>,
                          zeros: seq<nat>, segmentTime: real)
    requires IsMarker(data, n) && Agrees(data, dist, n, SegStart(data, n - 1), seconds, acc)
    requires zeros == ZerosIn(data, SegStart(data, n - 1), n)
    requires segmentTime == SegTime(data, dist, SegStart(data, n - 1), n)
    requires |seconds'| == n && |acc'| == n
    requires forall k | 0 <= k < n ::
              seconds'[k] == (if k in zeros then AvgStopTime(segmentTime, |zeros|) else seconds[k])
    requires forall k | 0 <= k < n ::
              acc'[k] == (if k in zeros && AvgStopTime(segmentTime, |zeros|) != 0.0
                          then Finite(StopAcc(data, k, AvgStopTime(segmentTime, |zeros|))) else acc[k])
    ensures Agrees(data, dist, n, n, seconds', acc')
  {
    AgreesPointwise(data, dist, n, SegStart(data, n - 1), seconds, acc);
    AgreesPointwise(data, dist, n, n, seconds', acc');
    forall k | 0 <= k < n
      ensures seconds'[k] == RawSecond(data, dist, k) && acc'[k] == RawAcc(data, dist, k)
    {
      if !Moving(data, k) && k >= SegStart(data, n - 1) {
        ZeroListed(data, SegStart(data, n - 1), n, k);
        CloseSegment(data, dist, n, k);
      }
    }
  }

  /** At the end the fixes still pending are those at rest in the last
      minute, whose raw seconds are 0. */
  lemma AgreesAtEnd(data: seq<Fix>, dist: (Coord, Coord) -> real, seconds: seq<real>, acc: seq<Acc>)
    requires |data| > 0 && Agrees(data, dist, |data|, SegStart(data, |data| - 1), seconds, acc)
    ensures seconds == RawSeconds(data, dist) && acc == RawAccs(data, dist)
  {
    AgreesPointwise(data, dist, |data|, SegStart(data, |data| - 1), seconds, acc);
    forall k | 0 <= k < |data| && !Moving(data, k) && k >= SegStart(data, |data| - 1)
      ensures RawSecond(data, dist, k) == 0.0 && RawAcc(data, dist, k) == Finite(0.0)
    {
      LastSegmentOpen(data, dist, k);
    }
  }

  /** The minute change at `index` hands each listed fix at rest the same
      share of the segment's remaining time, and an acceleration towards the
      next fix when the share is non-zero. */
  method FillStops(data: seq<Fix>, index: int, seconds: seq<real>, acc: seq<Acc>,
                   zeros: seq<nat>, segmentTime: real)
    returns (seconds': seq<real>, acc': seq<Acc>)
    requires index < |data| && |seconds| == index && |acc| == index && |zeros| > 0
    requires forall q | 0 <= q < |zeros| :: zeros[q] < index
    ensures |seconds'| == index && |acc'| == index
    ensures forall k | 0 <= k < index ::
              seconds'[k] == (if k in zeros then AvgStopTime(segmentTime, |zeros|) else seconds[k])
    ensures forall k | 0 <= k < index ::
              acc'[k] == (if k in zeros && AvgStopTime(segmentTime, |zeros|) != 0.0
                          then Finite(StopAcc(data, k, AvgStopTime(segmentTime, |zeros|))) else acc[k])
  {
    var avg := ((if segmentTime > 59.99 then segmentTime else 59.99) - segmentTime) / |zeros| as real;
    assert avg == AvgStopTime(segmentTime, |zeros|);
    seconds', acc' := seconds, acc;
    var j := 0;
    while j < |zeros|
      invariant 0 <= j <= |zeros|
      invariant |seconds'| == index && |acc'| == index
      invariant forall k | 0 <= k < index :: seconds'[k] == if k in zeros[..j] then avg else seconds[k]
      invariant forall k | 0 <= k < index ::
                  acc'[k] == if k in zeros[..j] && avg != 0.0 then Finite(StopAcc(data, k, avg)) else acc[k]
    {
      var z := zeros[j];
      seconds' := seconds'[z := avg];
      var nextSpeed := data[z + 1].speedKmh * 5.0 / 18.0;
      if avg != 0.0 {
        acc' := acc'[z := Finite(nextSpeed / avg)];
        assert acc'[z] == Finite(StopAcc(data, z, avg));
      }
      assert zeros[..j + 1] == zeros[..j] + [z];
      j := j + 1;
    }
    assert zeros[..j] == zeros;
  }

  /** What a minute change does to the fixes at rest of the closing minute
      (the `if (zeros)` block). */
  method CloseMinute(data: seq<Fix>, dist: (Coord, Coord) -> real, index: int,
                     seconds: seq<real>, acc: seq<Acc>, zeros: seq<nat>, segmentTime: real)
    returns (seconds': seq<real>, acc': seq<Acc>)
    requires IsMarker(data, index) && Agrees(data, dist, index, SegStart(data, index - 1), seconds, acc)
    requires zeros == ZerosIn(data, SegStart(data, index - 1), index)
    requires segmentTime == SegTime(data, dist, SegStart(data, index - 1), index)
    ensures Agrees(data, dist, index, index, seconds', acc')
  {
    if |zeros| > 0 {
      seconds', acc' := FillStops(data, index, seconds, acc, zeros, segmentTime);
    } else {
      seconds', acc' := seconds, acc;
    }
    AgreesAfterClose(data, dist, index, seconds, acc, seconds', acc', zeros, segmentTime);
  }

  /** The per-fix loop of calc_time_acc: raw seconds, accelerations and the
      minute-change indices, or the error the loop raises. Seconds of the
      fixes at rest are filled in when their minute closes. */
  method ScanFixes(data: seq<Fix>, dist: (Coord, Coord) -> real)
    returns (r: Result<(seq<real>, seq<Acc>, seq<nat>)>)
    ensures r.Failure? <==> exists k | 0 <= k < |data| :: BadAt(data, k)
    ensures r.Failure? ==> r.error == DistanceToEmptySlice
    ensures r.Success? ==> r.value == (RawSeconds(data, dist), RawAccs(data, dist), MarkersBelow(data, |data|))
  {
    var seconds: seq<real> := [];
    var acc: seq<Acc> := [];
    var zeros: seq<nat> := [];
    var marker: seq<nat> := [];
    var segmentTime := 0.0;
    var startMin := 0;
    var index := 0;
    while index < |data|
      invariant 0 <= index <= |data|
      invariant ScanState(data, dist, index, seconds, acc, zeros, marker, segmentTime, startMin)
    {
      var err;
      err, seconds, acc, zeros, marker, segmentTime, startMin :=
        ScanStep(data, dist, index, seconds, acc, zeros, marker, segmentTime, startMin);
      if err.Some? {
        return Failure(err.value);
      }
      index := index + 1;
    }
    if |data| > 0 {
      AgreesAtEnd(data, dist, seconds, acc);
    }
    return Success((seconds, acc, marker));
  }

  /** What the scan holds once it has passed the first `index` fixes. */
  ghost predicate ScanState(data: seq<Fix>, dist: (Coord, Coord) -> real, index: int,
                            seconds: seq<real>, acc: seq<Acc>, zeros: seq<nat>, marker: seq<nat>,
                            segmentTime: real, startMin: int)
    requires 0 <= index <= |data|
  {
    && |seconds| == index && |acc| == index
    && (index > 0 ==> startMin == MinuteDigits(data[index - 1]))
    && marker == MarkersBelow(data, index)
    && (forall k | 0 <= k < index :: !BadAt(data, k))
    && (index == 0 ==> zeros == [] && segmentTime == 0.0)
    && (index > 0 ==> zeros == ZerosIn(data, SegStart(data, index - 1), index)
                      && segmentTime == SegTime(data, dist, SegStart(data, index - 1), index))
    && Agrees(data, dist, index, if index == 0 then 0 else SegStart(data, index - 1), seconds, acc)
  }

  /** The scan state between the minute check of fix `index` and its own
      values: the segment of `index` is open and the fix is not yet stored. */
  ghost predicate MinuteChecked(data: seq<Fix>, dist: (Coord, Coord) -> real, index: int,
                                seconds: seq<real>, acc: seq<Acc>, zeros: seq<nat>, marker: seq<nat>,
                                segmentTime: real, startMin: int)
    requires 0 <= index < |data|
  {
    && startMin == MinuteDigits(data[index])
    && marker == MarkersBelow(data, index + 1)
    && (forall k | 0 <= k < index :: !BadAt(data, k))
    && zeros == ZerosIn(data, SegStart(data, index), index)
    && segmentTime == SegTime(data, dist, SegStart(data, index), index)
    && Agrees(data, dist, index, SegStart(data, index), seconds, acc)
  }

  /** One pass of the per-fix loop: the minute check, then the fix's raw
      seconds and acceleration, or the error raised at this fix. */
  method ScanStep(data: seq<Fix>, dist: (Coord, Coord) -> real, index: int,
                  seconds: seq<real>, acc: seq<Acc>, zeros: seq<nat>, marker: seq<nat>,
                  segmentTime: real, startMin: int)
    returns (err: Option<Error>, seconds': seq<real>, acc': seq<Acc>, zeros': seq<nat>,
             marker': seq<nat>, segmentTime': real, startMin': int)
    requires 0 <= index < |data|
    requires ScanState(data, dist, index, seconds, acc, zeros, marker, segmentTime, startMin)
    ensures err.None? ==> ScanState(data, dist, index + 1, seconds', acc', zeros', marker', segmentTime', startMin')
    ensures err.Some? ==> BadAt(data, index) && forall k | 0 <= k < index :: !BadAt(data, k)
    ensures err.Some? ==> err.value == DistanceToEmptySlice
  {
    seconds', acc', zeros', marker', segmentTime', startMin' :=
      ScanMinute(data, dist, index, seconds, acc, zeros, marker, segmentTime, startMin);
    err, seconds', acc', zeros', segmentTime' := ScanFix(data, dist, index, seconds', acc', zeros', marker', segmentTime', startMin');
  }

  /** The minute check of the per-fix loop: at a minute change the closing
      segment's fixes at rest get their shares and a new segment opens. */
  method ScanMinute(data: seq<Fix>, dist: (Coord, Coord) -> real, index: int,
                    seconds: seq<real>, acc: seq<Acc>, zeros: seq<nat>, marker: seq<nat>,
                    segmentTime: real, startMin: int)
    returns (seconds': seq<real>, acc': seq<Acc>, zeros': seq<nat>,
             marker': seq<nat>, segmentTime': real, startMin': int)
    requires 0 <= index < |data|
    requires ScanState(data, dist, index, seconds, acc, zeros, marker, segmentTime, startMin)
    ensures |seconds'| == index && |acc'| == index
    ensures MinuteChecked(data, dist, index, seconds', acc', zeros', marker', segmentTime', startMin')
  {
    seconds', acc', zeros', marker', segmentTime', startMin' := seconds, acc, zeros, marker, segmentTime, startMin;
    var currMin := MinuteDigits(data[index]);
    if index == 0 {
      startMin' := currMin;
    } else if currMin != startMin {
      assert IsMarker(data, index);
      seconds', acc' := CloseMinute(data, dist, index, seconds, acc, zeros, segmentTime);
      startMin' := currMin;
      segmentTime' := 0.0;
      zeros' := [];
      marker' := marker + [index];
    }
  }

  /** The rest of the per-fix loop: the fix's raw seconds and acceleration,
      or the error raised at this fix. */
  method ScanFix(data: seq<Fix>, dist: (Coord, Coord) -> real, index: int,
                 seconds: seq<real>, acc: seq<Acc>, zeros: seq<nat>, marker: seq<nat>,
                 segmentTime: real, startMin: int)
    returns (err: Option<Error>, seconds': seq<real>, acc': seq<Acc>, zeros': seq<nat>, segmentTime': real)
    requires 0 <= index < |data| && |seconds| == index && |acc| == index
    requires MinuteChecked(data, dist, index, seconds, acc, zeros, marker, segmentTime, startMin)
    ensures err.None? ==> ScanState(data, dist, index + 1, seconds', acc', zeros', marker, segmentTime', startMin)
    ensures err.Some? ==> BadAt(data, index) && forall k | 0 <= k < index :: !BadAt(data, k)
    ensures err.Some? ==> err.value == DistanceToEmptySlice
  {
    ghost var from := SegStart(data, index);
    var row := data[index];
    var curSpeed := row.speedKmh * 5.0 / 18.0;
    if curSpeed == 0.0 {
      AgreesAppend(data, dist, index, from, seconds, acc, 0.0, Finite(0.0));
      return None, seconds + [0.0], acc + [Finite(0.0)], zeros + [index], segmentTime;
    }
    if index == |data| - 1 {
      assert BadAt(data, index);
      return Some(DistanceToEmptySlice), seconds, acc, zeros, segmentTime;
    }
    var time := dist(row.geometry, data[index + 1].geometry) / curSpeed;
    assert time == TravelTime(data, dist, index);
    var nextSpeed := data[index + 1].speedKmh * 5.0 / 18.0;
    var a := Quotient(Abs(curSpeed - nextSpeed), time);
    AgreesAppend(data, dist, index, from, seconds, acc, time, a);
    return None, seconds + [time], acc + [a], zeros, segmentTime + time;
  }

  lemma SumSingleton(s: seq<real>, i: int)
    requires 0 <= i < |s|
    ensures Sum(s[i..i + 1]) == s[i]
  {
    assert s[i..i + 1][..0] == [];
  }

  lemma SumExtend(s: seq<real>, a: int, i: int)
    requires 0 <= a <= i < |s|
    ensures Sum(s[a..i + 1]) == Sum(s[a..i]) + s[i]
  {
    assert s[a..i + 1][..i - a] == s[a..i];
  }

  /** While the minute changes are consumed in order, the index i is a
      minute change iff it is the one currently held in `mark`. */
  lemma CurrentMark(data: seq<Fix>, marker: seq<nat>, p: int, i: int)
    requires marker == MarkersBelow(data, |data|) && 0 <= i < |data|
    requires 0 <= p < |marker| && (forall q | 0 <= q < p :: marker[q] < i)
    requires marker[p] >= i || p == |marker| - 1
    ensures IsMarker(data, i) <==> i == marker[p]
  {
    if IsMarker(data, i) {
      MarkerListed(data, |data|, i);
    }
  }

  /** The second loop of calc_time_acc: each value becomes the running sum
      since the start of its minute segment; `marker` is consumed from the
      front, the first entry being taken before the loop. */
  method RunningSums(data: seq<Fix>, raw: seq<real>, marker: seq<nat>) returns (seconds: seq<real>)
    requires |raw| == |data| && marker == MarkersBelow(data, |data|) && |marker| > 0
    ensures |seconds| == |data|
    ensures forall k | 0 <= k < |data| :: seconds[k] == Sum(raw[SegStart(data, k)..k + 1])
  {
    seconds := raw;
    var queue := marker;
    ghost var p := 0;
    var sum := 0.0;
    var mark := queue[0];
    queue := queue[1..];
    var i := 0;
    while i < |seconds|
      invariant 0 <= i <= |seconds| == |data|
      invariant SumsState(data, raw, marker, seconds, queue, p, mark, sum, i)
    {
      seconds, queue, p, mark, sum := RunningStep(data, raw, marker, seconds, queue, p, mark, sum, i);
      i := i + 1;
    }
  }

  /** What the running-sum loop holds before index i: the seconds below i
      are final, the rest untouched, `sum` is the running sum of the
      segment of i-1, and `mark` is the first minute change not passed. */
  ghost predicate SumsState(data: seq<Fix>, raw: seq<real>, marker: seq<nat>, seconds: seq<real>,
                            queue: seq<nat>, p: int, mark: nat, sum: real, i: int)
    requires |raw| == |data| && marker == MarkersBelow(data, |data|)
  {
    PartialSums(data, raw, seconds, sum, i) && MarksState(data, marker, queue, p, mark, i)
  }

  /** The sums half of the running-sum state. */
  ghost predicate PartialSums(data: seq<Fix>, raw: seq<real>, seconds: seq<real>, sum: real, i: int)
    requires |raw| == |data|
  {
    && 0 <= i <= |seconds| == |data|
    && (forall k | 0 <= k < i :: seconds[k] == Sum(raw[SegStart(data, k)..k + 1]))
    && (forall k | i <= k < |seconds| :: seconds[k] == raw[k])
    && (i == 0 ==> sum == 0.0)
    && (i > 0 ==> sum == Sum(raw[SegStart(data, i - 1)..i]))
  }

  /** The queue half of the running-sum state. */
  ghost predicate MarksState(data: seq<Fix>, marker: seq<nat>, queue: seq<nat>, p: int, mark: nat, i: int)
    requires marker == MarkersBelow(data, |data|)
  {
    && 0 <= p < |marker| && mark == marker[p] && queue == marker[p + 1..]
    && (forall q | 0 <= q < p :: marker[q] < i)
    && (marker[p] >= i || p == |marker| - 1)
  }

  /** One pass of the running-sum loop: restart at a minute change, then
      add the value at i and store the sum there. */
  method RunningStep(data: seq<Fix>, raw: seq<real>, marker: seq<nat>, seconds: seq<real>,
                     queue: seq<nat>, ghost p: int, mark: nat, sum: real, i: int)
    returns (seconds': seq<real>, queue': seq<nat>, ghost p': int, mark': nat, sum': real)
    requires |raw| == |data| && marker == MarkersBelow(data, |data|) && 0 <= i < |data|
    requires SumsState(data, raw, marker, seconds, queue, p, mark, sum, i)
    ensures SumsState(data, raw, marker, seconds', queue', p', mark', sum', i + 1)
  {
    var restart;
    queue', p', mark', restart := PassMark(data, marker, queue, p, mark, i);
    seconds', sum' := AddSecond(data, raw, seconds, sum, i, restart);
  }

  /** The queue part of one pass: at the minute change held in `mark`, take
      the next one from the queue if there is one. */
  method PassMark(data: seq<Fix>, marker: seq<nat>, queue: seq<nat>, ghost p: int, mark: nat, i: int)
    returns (queue': seq<nat>, ghost p': int, mark': nat, restart: bool)
    requires marker == MarkersBelow(data, |data|) && 0 <= i < |data|
    requires MarksState(data, marker, queue, p, mark, i)
    ensures MarksState(data, marker, queue', p', mark', i + 1)
    ensures restart <==> IsMarker(data, i)
  {
    queue', p', mark' := queue, p, mark;
    CurrentMark(data, marker, p, i);
    restart := i == mark;
    if restart && |queue| > 0 {
      mark' := queue[0];
      queue' := queue[1..];
      p' := p + 1;
    }
  }

  /** The sums part of one pass: the running sum, restarted at a minute
      change, plus the value at i, stored at i. */
  method AddSecond(data: seq<Fix>, raw: seq<real>, seconds: seq<real>, sum: real, i: int, restart: bool)
    returns (seconds': seq<real>, sum': real)
    requires |raw| == |data| && 0 <= i < |data|
    requires PartialSums(data, raw, seconds, sum, i) && (restart <==> IsMarker(data, i))
    ensures PartialSums(data, raw, seconds', sum', i + 1)
  {
    sum' := sum;
    if restart {
      sum' := 0.0;
      assert SegStart(data, i) == i;
      SumSingleton(raw, i);
    } else if i > 0 {
      SumExtend(raw, SegStart(data, i), i);
    } else {
      SumSingleton(raw, 0);
    }
    sum' := sum' + seconds[i];
    assert sum' == Sum(raw[SegStart(data, i)..i + 1]);
    seconds' := seconds[i := sum'];
    assert forall k | 0 <= k < i :: seconds'[k] == seconds[k];
  }

  /** calc_time_acc: the scan, then the running sums of the seconds over
      each minute segment, restarted at every recorded minute change; with
      no minute change at all, the first pop fails. */
  method CalcTimeAcc(data: seq<Fix>, dist: (Coord, Coord) -> real) returns (r: Result<(seq<real>, seq<Acc>)>)
    ensures r == TimeAcc(data, dist)
  {
    var scan := ScanFixes(data, dist);
    if scan.Failure? {
      return Failure(scan.error);
    }
    var raw, acc, marker := scan.value.0, scan.value.1, scan.value.2;
    if |marker| == 0 {
      return Failure(EmptyMarkerList);
    }
    var seconds := RunningSums(data, raw, marker);
    assert seconds == seq(|data|, k requires 0 <= k < |data| => FinalSecond(data, dist, k));
    return Success((seconds, acc));
  }

  /** The final seconds restart at each recorded minute change and
      otherwise accumulate the raw seconds. */
  lemma FinalSecondsRestart(data: seq<Fix>, dist: (Coord, Coord) -> real, k: int)
    requires 0 <= k < |data|
    ensures FinalSecond(data, dist, k) ==
      if k == 0 || IsMarker(data, k) then RawSecond(data, dist, k)
      else FinalSecond(data, dist, k - 1) + RawSecond(data, dist, k)
  {
    var raw := RawSeconds(data, dist);
    if k == 0 || IsMarker(data, k) {
      SumSingleton(raw, k);
    } else {
      SumExtend(raw, SegStart(data, k), k);
    }
  }

  /** `avg` once for every fix at rest in [a, b). */
  function ShareTotal(data: seq<Fix>, a: int, b: int, avg: real): real
    requires 0 <= a && b <= |data|
    decreases b - a
  {
    if b <= a then 0.0 else ShareTotal(data, a, b - 1, avg) + (if Moving(data, b - 1) then 0.0 else avg)
  }

  /** `x` added `c` times. */
  function Repeat(c: nat, x: real): real {
    if c == 0 then 0.0 else Repeat(c - 1, x) + x
  }

  lemma {:induction false} RepeatIsProduct(c: nat, x: real)
    ensures Repeat(c, x) == c as real * x
  {
    if c > 0 {
      RepeatIsProduct(c - 1, x);
      assert (c - 1) as real * x + x == c as real * x;
    }
  }

  lemma {:induction false} ShareTotalCount(data: seq<Fix>, a: int, b: int, avg: real)
    requires 0 <= a && b <= |data|
    ensures ShareTotal(data, a, b, avg) == Repeat(|ZerosIn(data, a, b)|, avg)
    decreases b - a
  {
    if b > a {
      ShareTotalCount(data, a, b - 1, avg);
    }
  }

  /** A sum made of the travel time and one average per fix at rest fills
      the minute. */
  lemma FillArithmetic(sum: real, t: real, z: nat, avg: real)
    requires z > 0 && avg == AvgStopTime(t, z) && sum == t + Repeat(z, avg)
    ensures sum == if t > 59.99 then t else 59.99
  {
    RepeatIsProduct(z, avg);
  }

  /** Over [s, b) of a closed minute whose fixes at rest receive `avg`,
      the raw seconds add up to the travel time plus one `avg` per fix at
      rest. */
  lemma {:induction false} ClosedSegmentSum(data: seq<Fix>, dist: (Coord, Coord) -> real, m: int, b: int, avg: real)
    requires IsMarker(data, m) && SegStart(data, m - 1) <= b <= m
    requires |ZerosIn(data, SegStart(data, m - 1), m)| > 0
    requires avg == AvgStopTime(SegTime(data, dist, SegStart(data, m - 1), m), |ZerosIn(data, SegStart(data, m - 1), m)|)
    ensures var s := SegStart(data, m - 1);
      Sum(RawSeconds(data, dist)[s..b]) == SegTime(data, dist, s, b) + ShareTotal(data, s, b, avg)
    decreases b
  {
    var s := SegStart(data, m - 1);
    if b > s {
      ClosedSegmentSum(data, dist, m, b - 1, avg);
      var raw := RawSeconds(data, dist);
      SumExtend(raw, s, b - 1);
      RawSecondClosed(data, dist, m, b - 1, avg);
      var add := if Moving(data, b - 1) then 0.0 else avg;
      assert SegTime(data, dist, s, b) == SegTime(data, dist, s, b - 1) + TravelTime(data, dist, b - 1);
      assert ShareTotal(data, s, b, avg) == ShareTotal(data, s, b - 1, avg) + add;
      assert Sum(raw[s..b]) == Sum(raw[s..b - 1]) + TravelTime(data, dist, b - 1) + add;
    }
  }

  /** In a segment closed by the minute change at m, a fix's raw seconds
      are its travel time plus, at rest, the segment's share. */
  lemma RawSecondClosed(data: seq<Fix>, dist: (Coord, Coord) -> real, m: int, k: int, avg: real)
    requires IsMarker(data, m) && SegStart(data, m - 1) <= k < m
    requires |ZerosIn(data, SegStart(data, m - 1), m)| > 0
    requires avg == AvgStopTime(SegTime(data, dist, SegStart(data, m - 1), m), |ZerosIn(data, SegStart(data, m - 1), m)|)
    ensures RawSeconds(data, dist)[k] == TravelTime(data, dist, k) + (if Moving(data, k) then 0.0 else avg)
  {
    if !Moving(data, k) {
      CloseSegment(data, dist, m, k);
    }
  }

  /** A minute that holds fixes at rest ends, in the final seconds, at
      max(59.99, travel time): the stops fill what the moving fixes left of
      the minute. */
  lemma StopsFillTheMinute(data: seq<Fix>, dist: (Coord, Coord) -> real, m: int)
    requires IsMarker(data, m) && |ZerosIn(data, SegStart(data, m - 1), m)| > 0
    ensures var t := SegTime(data, dist, SegStart(data, m - 1), m);
      FinalSecond(data, dist, m - 1) == if t > 59.99 then t else 59.99
  {
    var s := SegStart(data, m - 1);
    var t, z := SegTime(data, dist, s, m), |ZerosIn(data, s, m)|;
    var avg := AvgStopTime(t, z);
    ClosedSegmentSum(data, dist, m, m, avg);
    ShareTotalCount(data, s, m, avg);
    assert z > 0;
    assert avg == AvgStopTime(t, z);
    assert FinalSecond(data, dist, m - 1) == t + Repeat(z, avg);
    FillArithmetic(FinalSecond(data, dist, m - 1), t, z, avg);
  }
}
