/** detect_modes (src/ModeDetection.py): a hysteresis state machine over the
    fixes that closes car, walk and stop episodes, followed by the pass that
    picks one representative fix per episode. The machine is stated as a
    step function on a state value; the method runs it with local variables
    and is proved to produce the same episodes. */
module StageDetection {
  import opened Common
  import opened ModeDetection

  /** new_mode / cur_mode: 'walk/stop' or 'car'. */
  datatype Mode = WalkStop | Car

  /** The 'mode' entry of an episode: 'stop', 'walk', 'car' or 'invalid'. */
  datatype Label = StopLabel | WalkLabel | CarLabel | InvalidLabel

  function LabelName(l: Label): string {
    match l
    case StopLabel => "stop"
    case WalkLabel => "walk"
    case CarLabel => "car"
    case InvalidLabel => "invalid"
  }

  /** An entry of stage_points: first and last fix index and its mode. */
  datatype Stage = Stage(start: int, end: int, mode: Label)

  /** The loop state of detect_modes. ep_id is |stages|; the entries of
      stage_points under keys 1..ep_id are `stages`, and the entry under key
      0 (only ever written while ep_id is 0) is `invalid`. */
  datatype Machine = Machine(curMode: Mode, prevTime: real, episodeLen: real,
                             tempEpisodeLen: real, startIndex: int, lastCarIndex: int,
                             validStop: bool, invalid: Option<Stage>, stages: seq<Stage>)

  /** Speeds (km/h) above this are car fixes. */
  const CarSpeed: real := 10.008
  /** Walk/stop fixes above this speed (km/h) show walking. */
  const WalkSpeed: real := 0.36
  /** Seconds between fixes that cut the stream. */
  const GapSeconds: real := 120.0
  /** Seconds a walk/stop episode or a tentative walk span must exceed. */
  const MinEpisodeSeconds: real := 60.0

  const Initial: Machine := Machine(WalkStop, 0.0, 0.0, 0.0, 0, -1, false, None, [])

  /** The mode of a fix by its speed; 10.008 itself is still walk/stop. */
  function Classify(speed: real): (m: Mode)
    ensures m == Car <==> speed > CarSpeed
  {
    if speed <= CarSpeed then WalkStop else Car
  }

  /** valid_stop after a fix: a walk/stop fix faster than 0.36 clears it. */
  function ValidAfter(valid: bool, speed: real): (v: bool)
    ensures v <==> valid && !(WalkSpeed < speed <= CarSpeed)
  {
    if speed <= CarSpeed && speed > WalkSpeed then false else valid
  }

  /** The second and microsecond given to datetime for a final seconds value
      s, or None when datetime rejects them: second = min(floor(s), 59) and
      microsecond = floor((s - second) * 10^6). */
  function ReconstructTime(s: real): (r: Option<(int, int)>)
    ensures r.Some? <==> 0.0 <= s < 60.0
    ensures r.Some? ==> 0 <= r.value.0 <= 59 && 0 <= r.value.1 <= 999999
    ensures r.Some? ==> r.value.0 as real + r.value.1 as real / 1000000.0 <= s
                        < r.value.0 as real + (r.value.1 + 1) as real / 1000000.0
  {
    var second := if s.Floor < 59 then s.Floor else 59;
    var micro := ((s - second as real) * 1000000.0).Floor;
    if 0 <= second && micro <= 999999 then Some((second, micro)) else None
  }

  /** The datetime of a fix as seconds: the minute of its LocalTime plus the
      reconstructed second and microsecond. */
  function FixTime(f: Fix, second: int, micro: int): real {
    (f.minuteStamp * 60 + second) as real + micro as real / 1000000.0
  }

  /** The label of a closed walk/stop or car episode. */
  function CloseLabel(mode: Mode, validStop: bool): Label {
    if mode == WalkStop then (if validStop then StopLabel else WalkLabel) else CarLabel
  }

  /** A gap of more than 120 s closes [start_index, index]. */
  function GapClose(m: Machine, index: int, newMode: Mode): Machine {
    m.(stages := m.stages + [Stage(m.startIndex, index, CloseLabel(m.curMode, m.validStop))],
       episodeLen := 0.0, startIndex := index + 1, curMode := newMode)
  }

  /** The last fix flushes a car episode longer than 120 s or a walk/stop
      episode longer than 60 s. */
  function Flush(m: Machine, index: int): Machine {
    if (m.curMode == Car && m.episodeLen > GapSeconds)
       || (m.curMode == WalkStop && m.episodeLen > MinEpisodeSeconds)
    then m.(stages := m.stages + [Stage(m.startIndex, index, CloseLabel(m.curMode, m.validStop))])
    else m
  }

  /** A slow fix while in car mode: the tentative walk span grows, and once
      it exceeds 60 s the car episode up to the fix before the span is
      committed. */
  function CarToWalk(m: Machine, index: int, timeDifference: real): Machine {
    var lastCar := if m.lastCarIndex < 0 then index - 1 else m.lastCarIndex;
    var temp := (if m.lastCarIndex < 0 then 0.0 else m.tempEpisodeLen) + timeDifference;
    if temp > MinEpisodeSeconds then
      m.(stages := m.stages + [Stage(m.startIndex, lastCar, CarLabel)],
         startIndex := lastCar + 1, lastCarIndex := -1, episodeLen := temp,
         tempEpisodeLen := temp, curMode := WalkStop)
    else m.(lastCarIndex := lastCar, tempEpisodeLen := temp)
  }

  /** A fast fix while in walk/stop mode: a walk/stop episode longer than
      60 s is emitted; a shorter one becomes the 'invalid' entry when no
      episode exists yet and otherwise lengthens the previous episode. */
  function WalkToCar(m: Machine, index: int): Machine {
    var emitted :=
      if m.episodeLen > MinEpisodeSeconds then
        m.(stages := m.stages + [Stage(m.startIndex, index - 1, CloseLabel(WalkStop, m.validStop))])
      else if |m.stages| == 0 then m.(invalid := Some(Stage(m.startIndex, index - 1, InvalidLabel)))
      else m.(stages := m.stages[..|m.stages| - 1] + [m.stages[|m.stages| - 1].(end := index - 1)]);
    emitted.(startIndex := index, episodeLen := 0.0, curMode := Car, validStop := true)
  }

  /** A fix of the current mode abandons a tentative walk span. */
  function SameMode(m: Machine): Machine {
    if m.tempEpisodeLen > 0.0 then m.(lastCarIndex := -1, tempEpisodeLen := 0.0) else m
  }

  /** One iteration of the loop over the fixes, for the fix at `index` with
      speed `speed` and time `t`; `isLast` marks the last fix. */
  function Step(m: Machine, index: int, isLast: bool, speed: real, t: real): Machine {
    var newMode := Classify(speed);
    var cur := if index == 0 then newMode else m.curMode;
    var td := TimeDiff(m, index, t);
    var m1 := Prepared(m, index, speed, t);
    if td > GapSeconds then GapClose(m1, index, newMode)
    else if isLast then Flush(m1, index)
    else if newMode != cur then (if newMode == WalkStop then CarToWalk(m1, index, td) else WalkToCar(m1, index))
    else SameMode(m1)
  }

  /** The time since the previous fix; 0 at the first fix. */
  function TimeDiff(m: Machine, index: int, t: real): real {
    t - (if index == 0 then t else m.prevTime)
  }

  /** The machine at the head of an iteration: the current mode set at the
      first fix, the fix's time recorded, the episode lengthened and
      valid_stop updated. */
  function Prepared(m: Machine, index: int, speed: real, t: real): Machine {
    var cur := if index == 0 then Classify(speed) else m.curMode;
    m.(curMode := cur, prevTime := t, episodeLen := m.episodeLen + TimeDiff(m, index, t),
       validStop := ValidAfter(m.validStop, speed))
  }

  predicate SecondsValid(secs: seq<real>, k: int)
    requires k <= |secs|
  {
    forall j | 0 <= j < k :: 0.0 <= secs[j] < 60.0
  }

  /** The datetime of fix j, given its final seconds value. */
  function TimeOf(data: seq<Fix>, secs: seq<real>, j: int): real
    requires 0 <= j < |data| == |secs| && 0.0 <= secs[j] < 60.0
  {
    var sm := ReconstructTime(secs[j]).value;
    FixTime(data[j], sm.0, sm.1)
  }

  /** The machine after the first k fixes. */
  function Run(data: seq<Fix>, secs: seq<real>, k: int): Machine
    requires |secs| == |data| && 0 <= k <= |data| && SecondsValid(secs, k)
  {
    if k == 0 then Initial
    else Step(Run(data, secs, k - 1), k - 1, k - 1 == |data| - 1, data[k - 1].speedKmh,
              TimeOf(data, secs, k - 1))
  }

  /** Every recorded episode starts at a fix of the table. */
  predicate StartsIn(invalid: Option<Stage>, stages: seq<Stage>, n: int) {
    (forall i | 0 <= i < |stages| :: 0 <= stages[i].start < n)
    && (invalid.Some? ==> 0 <= invalid.value.start < n)
  }

  /** One output row, taken from `target` and labelled like the episode. */
  function RowOf(target: Fix, mode: Label): EpisodeRow {
    EpisodeRow(target.serialId, target.recordId, target.localTime, LabelName(mode), target.geometry)
  }

  /** The output of the representative pass: one row per numbered episode,
      from the invalid entry's start fix when there is one and otherwise
      from the episode's own start fix. */
  function Rows(data: seq<Fix>, invalid: Option<Stage>, stages: seq<Stage>): (r: seq<EpisodeRow>)
    requires StartsIn(invalid, stages, |data|)
    ensures |r| == |stages|
  {
    seq(|stages|, i requires 0 <= i < |stages| =>
      RowOf(data[if invalid.Some? then invalid.value.start else stages[i].start], stages[i].mode))
  }

  /** What detect_modes returns, or the error it raises. */
  function Detect(data: seq<Fix>, dist: (Coord, Coord) -> real): Result<seq<EpisodeRow>> {
    match TimeAcc(data, dist)
    case Failure(e) => Failure(e)
    case Success(sa) =>
      var secs := sa.0;
      if !SecondsValid(secs, |data|) then Failure(InvalidTimestamp)
      else
        RunInvariant(data, secs, |data|);
        var m := Run(data, secs, |data|);
        Success(Rows(data, m.invalid, m.stages))
  }

  // ---------------------------------------------------------------------
  // Invariants of the machine
  // ---------------------------------------------------------------------

  /** What holds of the machine after k fixes. */
  predicate Invariant(m: Machine, k: int) {
    && StartsIn(m.invalid, m.stages, k)
    && (forall i | 0 <= i < |m.stages| :: m.stages[i].end < k)
    && (m.invalid.Some? ==> m.invalid.value.end < k)
    && 0 <= m.startIndex <= k
    && -1 <= m.lastCarIndex < k
    && (forall i | 0 <= i < |m.stages| :: m.stages[i].mode != InvalidLabel)
    && (m.invalid.Some? ==> m.invalid.value.start == 0 && m.invalid.value.mode == InvalidLabel)
    && (|m.stages| == 0 && m.invalid.None? ==> m.startIndex == 0)
    && (|m.stages| == 0 && m.invalid.Some? ==> m.curMode == Car)
  }

  lemma StepInvariant(m: Machine, k: int, isLast: bool, speed: real, t: real)
    requires Invariant(m, k) && (k == 0 ==> m == Initial)
    ensures Invariant(Step(m, k, isLast, speed, t), k + 1)
  {
    var newMode := Classify(speed);
    var cur := if k == 0 then newMode else m.curMode;
    var td := TimeDiff(m, k, t);
    var m1 := Prepared(m, k, speed, t);
    PreparedInvariant(m, k, speed, t);
    if td > GapSeconds {
      GapCloseInvariant(m1, k, newMode);
    } else if isLast {
      FlushInvariant(m1, k);
    } else if newMode != cur && newMode == WalkStop {
      CarToWalkInvariant(m1, k, td);
    } else if newMode != cur {
      WalkToCarInvariant(m1, k);
    } else {
      SameModeInvariant(m1, k);
    }
  }

  lemma PreparedInvariant(m: Machine, k: int, speed: real, t: real)
    requires Invariant(m, k) && (k == 0 ==> m == Initial)
    ensures Invariant(Prepared(m, k, speed, t), k + 1) && Prepared(m, k, speed, t).startIndex <= k
  {
  }

  lemma SameModeInvariant(m: Machine, k: int)
    requires Invariant(m, k + 1)
    ensures Invariant(SameMode(m), k + 1)
  {
  }

  lemma GapCloseInvariant(m: Machine, k: int, newMode: Mode)
    requires Invariant(m, k + 1) && m.startIndex <= k
    ensures Invariant(GapClose(m, k, newMode), k + 1)
  {
  }

  lemma FlushInvariant(m: Machine, k: int)
    requires Invariant(m, k + 1) && m.startIndex <= k
    ensures Invariant(Flush(m, k), k + 1)
  {
  }

  lemma CarToWalkInvariant(m: Machine, k: int, td: real)
    requires Invariant(m, k + 1) && m.curMode == Car && m.startIndex <= k && 0 <= k
    ensures Invariant(CarToWalk(m, k, td), k + 1)
  {
  }

  lemma WalkToCarInvariant(m: Machine, k: int)
    requires Invariant(m, k + 1) && m.curMode == WalkStop && m.startIndex <= k
    ensures Invariant(WalkToCar(m, k), k + 1)
  {
    if m.episodeLen <= MinEpisodeSeconds && |m.stages| > 0 {
      var n := |m.stages|;
      var s' := m.stages[..n - 1] + [m.stages[n - 1].(end := k - 1)];
      assert forall i | 0 <= i < n :: s'[i].start == m.stages[i].start && s'[i].mode == m.stages[i].mode;
    }
  }

  lemma {:induction false} RunInvariant(data: seq<Fix>, secs: seq<real>, k: int)
    requires |secs| == |data| && 0 <= k <= |data| && SecondsValid(secs, k)
    ensures Invariant(Run(data, secs, k), k)
  {
    if k > 0 {
      assert SecondsValid(secs, k - 1);
      var m := Run(data, secs, k - 1);
      var t := TimeOf(data, secs, k - 1);
      RunInvariant(data, secs, k - 1);
      StepInvariant(m, k - 1, k - 1 == |data| - 1, data[k - 1].speedKmh, t);
      assert Run(data, secs, k) == Step(m, k - 1, k - 1 == |data| - 1, data[k - 1].speedKmh, t);
    }
  }

  // ---------------------------------------------------------------------
  // What the machine guarantees
  // ---------------------------------------------------------------------

  /** After k > 0 fixes the previous time is the time of fix k-1, so every
      time difference is between consecutive fixes (and is 0 at the first). */
  lemma {:induction false} RunPrevTime(data: seq<Fix>, secs: seq<real>, k: int)
    requires |secs| == |data| && 0 < k <= |data| && SecondsValid(secs, k)
    ensures Run(data, secs, k).prevTime == TimeOf(data, secs, k - 1)
  {
  }

  /** valid_stop starts false and holds only after a car fix
      (speed > 10.008) with no walking fix (0.36 < speed <= 10.008) since. */
  lemma {:induction false} ValidStopAfterCar(data: seq<Fix>, secs: seq<real>, k: int)
    requires |secs| == |data| && 0 <= k <= |data| && SecondsValid(secs, k)
    requires Run(data, secs, k).validStop
    ensures exists j | 0 <= j < k :: data[j].speedKmh > CarSpeed
              && forall i | j < i < k :: !(WalkSpeed < data[i].speedKmh <= CarSpeed)
  {
    var m := Run(data, secs, k - 1);
    var speed := data[k - 1].speedKmh;
    if m.validStop && ValidAfter(m.validStop, speed) {
      ValidStopAfterCar(data, secs, k - 1);
      var j :| 0 <= j < k - 1 && data[j].speedKmh > CarSpeed
                && forall i | j < i < k - 1 :: !(WalkSpeed < data[i].speedKmh <= CarSpeed);
      assert forall i | j < i < k :: !(WalkSpeed < data[i].speedKmh <= CarSpeed);
    } else {
      assert speed > CarSpeed;
    }
  }

  /** One step keeps every episode but the last as it was, keeps the last
      one's start and mode, never removes an episode, and never rewrites
      the invalid entry once one exists. */
  lemma StepStable(m: Machine, k: int, isLast: bool, speed: real, t: real)
    requires Invariant(m, k) && (k == 0 ==> m == Initial)
    ensures var m' := Step(m, k, isLast, speed, t);
      && |m.stages| <= |m'.stages|
      && (forall i | 0 <= i < |m.stages| - 1 :: m'.stages[i] == m.stages[i])
      && (forall i | 0 <= i < |m.stages| ::
            m'.stages[i].start == m.stages[i].start && m'.stages[i].mode == m.stages[i].mode)
      && (m.invalid.Some? ==> m'.invalid == m.invalid)
  {
    var newMode := Classify(speed);
    var cur := if k == 0 then newMode else m.curMode;
    var td := TimeDiff(m, k, t);
    var m1 := Prepared(m, k, speed, t);
    if td <= GapSeconds && !isLast && newMode != cur && newMode == Car {
      assert Step(m, k, isLast, speed, t) == WalkToCar(m1, k);
      var n := |m.stages|;
      if m1.episodeLen <= MinEpisodeSeconds && n > 0 {
        var s' := m.stages[..n - 1] + [m.stages[n - 1].(end := k - 1)];
        assert forall i | 0 <= i < n - 1 :: s'[i] == m.stages[i];
      }
    }
  }

  /** Episodes, once recorded, keep their start and mode for the rest of
      the run; all but the most recent are final. */
  lemma {:induction false} RunStable(data: seq<Fix>, secs: seq<real>, j: int, k: int)
    requires |secs| == |data| && 0 <= j <= k <= |data| && SecondsValid(secs, k)
    ensures var a, b := Run(data, secs, j), Run(data, secs, k);
      && |a.stages| <= |b.stages|
      && (forall i | 0 <= i < |a.stages| - 1 :: b.stages[i] == a.stages[i])
      && (forall i | 0 <= i < |a.stages| ::
            b.stages[i].start == a.stages[i].start && b.stages[i].mode == a.stages[i].mode)
      && (a.invalid.Some? ==> b.invalid == a.invalid)
    decreases k - j
  {
    if j < k {
      RunStable(data, secs, j + 1, k);
      RunInvariant(data, secs, j);
      StepStable(Run(data, secs, j), j, j == |data| - 1, data[j].speedKmh, TimeOf(data, secs, j));
    }
  }

  /** While every fix is fast and no gap exceeds 120 s, nothing is emitted
      and the episode length is the time since the first fix. */
  lemma {:induction false} AllCarPrefix(data: seq<Fix>, secs: seq<real>, k: int)
    requires |secs| == |data| && 0 < k < |data| && SecondsValid(secs, k)
    requires forall j | 0 <= j < k :: data[j].speedKmh > CarSpeed
    requires forall j | 0 < j < k :: TimeOf(data, secs, j) - TimeOf(data, secs, j - 1) <= GapSeconds
    ensures var m := Run(data, secs, k);
      && m.stages == [] && m.invalid == None && m.curMode == Car && m.startIndex == 0
      && m.lastCarIndex == -1 && m.tempEpisodeLen == 0.0
      && m.prevTime == TimeOf(data, secs, k - 1)
      && m.episodeLen == TimeOf(data, secs, k - 1) - TimeOf(data, secs, 0)
  {
    if k > 1 {
      AllCarPrefix(data, secs, k - 1);
    }
  }

  /** A stream of fast fixes without a gap is one car episode over all the
      fixes when it lasts more than 120 s, and no episode otherwise. */
  lemma AllCar(data: seq<Fix>, secs: seq<real>)
    requires |secs| == |data| && SecondsValid(secs, |data|)
    requires forall j | 0 <= j < |data| :: data[j].speedKmh > CarSpeed
    requires forall j | 0 < j < |data| :: TimeOf(data, secs, j) - TimeOf(data, secs, j - 1) <= GapSeconds
    ensures var n := |data|; var m := Run(data, secs, n);
      m.invalid == None
      && m.stages == if n > 0 && TimeOf(data, secs, n - 1) - TimeOf(data, secs, 0) > GapSeconds
                     then [Stage(0, n - 1, CarLabel)] else []
  {
    if |data| > 1 {
      AllCarPrefix(data, secs, |data| - 1);
    }
  }

  /** While every fix is slow and no gap exceeds 120 s, nothing is emitted,
      valid_stop stays false and the episode length is the time since the
      first fix. */
  lemma {:induction false} AllSlowPrefix(data: seq<Fix>, secs: seq<real>, k: int)
    requires |secs| == |data| && 0 < k < |data| && SecondsValid(secs, k)
    requires forall j | 0 <= j < k :: data[j].speedKmh <= CarSpeed
    requires forall j | 0 < j < k :: TimeOf(data, secs, j) - TimeOf(data, secs, j - 1) <= GapSeconds
    ensures var m := Run(data, secs, k);
      && m.stages == [] && m.invalid == None && m.curMode == WalkStop && m.startIndex == 0
      && !m.validStop && m.tempEpisodeLen == 0.0
      && m.prevTime == TimeOf(data, secs, k - 1)
      && m.episodeLen == TimeOf(data, secs, k - 1) - TimeOf(data, secs, 0)
  {
    if k > 1 {
      AllSlowPrefix(data, secs, k - 1);
    }
  }

  /** A stream of slow fixes without a gap is one episode over all the fixes
      when it lasts more than 60 s, and no episode otherwise. It is labelled
      'walk' even when every fix is at rest: valid_stop is only ever set by
      a switch to car. */
  lemma AllSlow(data: seq<Fix>, secs: seq<real>)
    requires |secs| == |data| && SecondsValid(secs, |data|)
    requires forall j | 0 <= j < |data| :: data[j].speedKmh <= CarSpeed
    requires forall j | 0 < j < |data| :: TimeOf(data, secs, j) - TimeOf(data, secs, j - 1) <= GapSeconds
    ensures var n := |data|; var m := Run(data, secs, n);
      m.invalid == None
      && m.stages == if n > 0 && TimeOf(data, secs, n - 1) - TimeOf(data, secs, 0) > MinEpisodeSeconds
                     then [Stage(0, n - 1, WalkLabel)] else []
  {
    if |data| > 1 {
      AllSlowPrefix(data, secs, |data| - 1);
    }
  }

  /** The output never says 'invalid'; every row is labelled 'stop', 'walk'
      or 'car', and once an invalid entry exists every row is taken from the
      first fix. */
  lemma DetectRows(data: seq<Fix>, dist: (Coord, Coord) -> real)
    requires Detect(data, dist).Success?
    ensures var rows := Detect(data, dist).value;
      forall i | 0 <= i < |rows| :: rows[i].modes in {"stop", "walk", "car"}
    ensures var secs := TimeAcc(data, dist).value.0;
      SecondsValid(secs, |data|) &&
      var m := Run(data, secs, |data|);
      m.invalid.Some? ==>
        forall row | row in Detect(data, dist).value ::
          row.episodeId == data[0].serialId && row.recordId == data[0].recordId
          && row.timeStart == data[0].localTime && row.geometry == data[0].geometry
  {
    var secs := TimeAcc(data, dist).value.0;
    RunInvariant(data, secs, |data|);
  }

  // ---------------------------------------------------------------------
  // detect_modes as the loop the program runs
  // ---------------------------------------------------------------------

  /** The representative pass over stage_points in key order: key 0 (the
      invalid entry) first when present, then keys 1..ep_id. */
  method PickRepresentatives(data: seq<Fix>, invalid: Option<Stage>, stages: seq<Stage>)
    returns (rows: seq<EpisodeRow>)
    requires StartsIn(invalid, stages, |data|)
    requires forall i | 0 <= i < |stages| :: stages[i].mode != InvalidLabel
    requires invalid.Some? ==> invalid.value.mode == InvalidLabel
    ensures rows == Rows(data, invalid, stages)
  {
    var entries := (if invalid.Some? then [invalid.value] else []) + stages;
    var offset := |entries| - |stages|;
    var invalidFirstStage := false;
    // bound before its first use, as the source's `target` is
    var target := if |entries| > 0 then data[entries[0].start] else
      Fix(0, 0, "", 0, Coord(0.0, 0.0), 0.0);
    rows := [];
    var key := 0;
    while key < |entries|
      invariant 0 <= key <= |entries|
      invariant key >= offset ==> invalidFirstStage == invalid.Some?
      invariant invalidFirstStage ==> target == data[invalid.value.start]
      invariant key <= offset ==> rows == []
      invariant key >= offset ==> rows == Rows(data, invalid, stages)[..key - offset]
    {
      var e := entries[key];
      if e.mode == InvalidLabel {
        invalidFirstStage := true;
        target := data[e.start];
      } else {
        if !invalidFirstStage {
          target := data[e.start];
        }
        rows := rows + [RowOf(target, e.mode)];
      }
      key := key + 1;
    }
  }

  /** detect_modes: calc_time_acc, then one pass of the machine over the
      fixes, then the representative pass. */
  method DetectModes(data: seq<Fix>, dist: (Coord, Coord) -> real) returns (r: Result<seq<EpisodeRow>>)
    ensures r == Detect(data, dist)
  {
    var timeAcc := CalcTimeAcc(data, dist);
    if timeAcc.Failure? {
      return Failure(timeAcc.error);
    }
    var seconds := timeAcc.value.0;
    var run := RunMachine(data, seconds);
    if run.Failure? {
      return Failure(run.error);
    }
    RunInvariant(data, seconds, |data|);
    var rows := PickRepresentatives(data, run.value.invalid, run.value.stages);
    return Success(rows);
  }

  /** The loop of detect_modes over the fixes, given their final seconds;
      it stops with InvalidTimestamp at the first fix whose seconds datetime
      rejects. */
  method RunMachine(data: seq<Fix>, seconds: seq<real>) returns (r: Result<Machine>)
    requires |seconds| == |data|
    ensures r.Success? <==> SecondsValid(seconds, |data|)
    ensures r.Failure? ==> r.error == InvalidTimestamp
    ensures r.Success? ==> r.value == Run(data, seconds, |data|)
  {
    var state := Initial;
    var last := |data| - 1;
    var index := 0;
    while index < |data|
      invariant 0 <= index <= |data| && SecondsValid(seconds, index)
      invariant state == Run(data, seconds, index)
    {
      var second := if seconds[index].Floor < 59 then seconds[index].Floor else 59;
      var micro := ((seconds[index] - second as real) * 1000000.0).Floor;
      if !(0 <= second && micro <= 999999) {
        return Failure(InvalidTimestamp);
      }
      assert ReconstructTime(seconds[index]) == Some((second, micro));
      var curTime := FixTime(data[index], second, micro);
      state := StepFix(state, index, index == last, data[index].speedKmh, curTime);
      index := index + 1;
    }
    return Success(state);
  }

  /** The body of the loop for the fix at `index`, on the loop's variables. */
  method StepFix(m: Machine, index: int, isLast: bool, speed: real, curTime: real) returns (m': Machine)
    ensures m' == Step(m, index, isLast, speed, curTime)
  {
    var curMode, prevTime, episodeLen, tempEpisodeLen := m.curMode, m.prevTime, m.episodeLen, m.tempEpisodeLen;
    var startIndex, lastCarIndex, validStop := m.startIndex, m.lastCarIndex, m.validStop;
    var invalid, stages := m.invalid, m.stages;
    var newMode;
    if speed <= CarSpeed {
      newMode := WalkStop;
      if speed > WalkSpeed {
        validStop := false;
      }
    } else {
      newMode := Car;
    }
    if index == 0 {
      curMode := newMode;
      prevTime := curTime;
    }
    var timeDifference := curTime - prevTime;
    prevTime := curTime;
    episodeLen := episodeLen + timeDifference;

    if timeDifference > GapSeconds {
      var mode := if curMode == WalkStop && validStop then StopLabel
                  else if curMode == WalkStop then WalkLabel else CarLabel;
      stages := stages + [Stage(startIndex, index, mode)];
      episodeLen := 0.0;
      startIndex := index + 1;
      curMode := newMode;
    } else if isLast {
      if curMode == Car && episodeLen > GapSeconds {
        stages := stages + [Stage(startIndex, index, CarLabel)];
      } else if curMode == WalkStop && episodeLen > MinEpisodeSeconds && !validStop {
        stages := stages + [Stage(startIndex, index, WalkLabel)];
      } else if curMode == WalkStop && episodeLen > MinEpisodeSeconds && validStop {
        stages := stages + [Stage(startIndex, index, StopLabel)];
      }
    } else if newMode != curMode {
      if newMode == WalkStop && curMode == Car {
        if lastCarIndex < 0 {
          lastCarIndex := index - 1;
          tempEpisodeLen := 0.0;
        }
        tempEpisodeLen := tempEpisodeLen + timeDifference;
        if tempEpisodeLen > MinEpisodeSeconds {
          stages := stages + [Stage(startIndex, lastCarIndex, CarLabel)];
          startIndex := lastCarIndex + 1;
          lastCarIndex := -1;
          episodeLen := tempEpisodeLen;
          curMode := newMode;
        }
      } else if newMode == Car && curMode == WalkStop {
        if episodeLen > MinEpisodeSeconds && validStop {
          stages := stages + [Stage(startIndex, index - 1, StopLabel)];
        } else if episodeLen > MinEpisodeSeconds && !validStop {
          stages := stages + [Stage(startIndex, index - 1, WalkLabel)];
        } else {
          if |stages| == 0 {
            invalid := Some(Stage(startIndex, index - 1, InvalidLabel));
          }
          if |stages| != 0 {
            stages := stages[..|stages| - 1] + [stages[|stages| - 1].(end := index - 1)];
          }
        }
        startIndex := index;
        episodeLen := 0.0;
        curMode := newMode;
        validStop := true;
      }
    } else {
      if tempEpisodeLen > 0.0 {
        lastCarIndex := -1;
        tempEpisodeLen := 0.0;
      }
    }
    m' := Machine(curMode, prevTime, episodeLen, tempEpisodeLen, startIndex, lastCarIndex,
                  validStop, invalid, stages);
  }
}
