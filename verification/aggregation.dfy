/** Fleet statistics (src/index.ts:85-139): one forward pass over the
    extracted statuses, proved equal to a separate count, sum and extremum
    definition per quantity, and the summary record built from it.

    The source seeds its extrema with -Infinity / +Infinity; here an
    extremum is an `Option` whose `None` means "no element seen". A
    non-finite number is written as `null` when the summary is serialised,
    so `None` is also what a client receives. */
module Aggregation {
  import opened Wrappers
  import opened Seqs
  import opened CpTypes

  // ---------------------------------------------------------------------
  // Reference definitions: one per quantity.
  // ---------------------------------------------------------------------

  /** The running trains, in their original order. */
  function RunningTrains(s: seq<TrainStatus>): seq<TrainStatus> {
    Filter(s, IsRunning)
  }

  /** Every train's delay, with a missing delay counting as 0. */
  function Delays(s: seq<TrainStatus>): (ds: seq<int>)
    ensures |ds| == |s|
    ensures forall i :: 0 <= i < |s| ==> ds[i] == DelayOf(s[i])
  {
    if |s| == 0 then [] else Delays(s[..|s| - 1]) + [DelayOf(s[|s| - 1])]
  }

  /** The occupancies that are present, in list order; missing ones are
      skipped, not zeroed. */
  function Occupancies(s: seq<TrainStatus>): (os: seq<real>)
    ensures |os| == |Filter(s, HasOccupancy)|
    ensures forall x :: x in os <==> exists i :: 0 <= i < |s| && s[i].occupancy == Some(x)
  {
    if |s| == 0 then []
    else
      var init := s[..|s| - 1];
      var last := s[|s| - 1];
      assert s == init + [last];
      Occupancies(init) + (if last.occupancy.Some? then [last.occupancy.value] else [])
  }

  function SumDelay(s: seq<TrainStatus>): int {
    if |s| == 0 then 0 else SumDelay(s[..|s| - 1]) + DelayOf(s[|s| - 1])
  }

  function SumSpeed(s: seq<TrainStatus>): real {
    if |s| == 0 then 0.0 else SumSpeed(s[..|s| - 1]) + SpeedOf(s[|s| - 1])
  }

  /** `if (x > m) m = x`, with `None` standing for -Infinity. */
  function Raise(m: Option<int>, x: int): Option<int> {
    if m.None? || x > m.value then Some(x) else m
  }

  /** `if (x < m) m = x`, with `None` standing for +Infinity. */
  function Lower(m: Option<int>, x: int): Option<int> {
    if m.None? || x < m.value then Some(x) else m
  }

  function RaiseReal(m: Option<real>, x: real): Option<real> {
    if m.None? || x > m.value then Some(x) else m
  }

  function LowerReal(m: Option<real>, x: real): Option<real> {
    if m.None? || x < m.value then Some(x) else m
  }

  /** The largest element, or `None` for no elements. */
  function MaxInt(xs: seq<int>): (m: Option<int>)
    ensures m.None? <==> |xs| == 0
    ensures m.Some? ==> m.value in xs && forall x :: x in xs ==> x <= m.value
  {
    if |xs| == 0 then None
    else
      assert xs == xs[..|xs| - 1] + [xs[|xs| - 1]];
      Raise(MaxInt(xs[..|xs| - 1]), xs[|xs| - 1])
  }

  /** The smallest element, or `None` for no elements. */
  function MinInt(xs: seq<int>): (m: Option<int>)
    ensures m.None? <==> |xs| == 0
    ensures m.Some? ==> m.value in xs && forall x :: x in xs ==> m.value <= x
  {
    if |xs| == 0 then None
    else
      assert xs == xs[..|xs| - 1] + [xs[|xs| - 1]];
      Lower(MinInt(xs[..|xs| - 1]), xs[|xs| - 1])
  }

  function MaxReal(xs: seq<real>): (m: Option<real>)
    ensures m.None? <==> |xs| == 0
    ensures m.Some? ==> m.value in xs && forall x :: x in xs ==> x <= m.value
  {
    if |xs| == 0 then None
    else
      assert xs == xs[..|xs| - 1] + [xs[|xs| - 1]];
      RaiseReal(MaxReal(xs[..|xs| - 1]), xs[|xs| - 1])
  }

  function MinReal(xs: seq<real>): (m: Option<real>)
    ensures m.None? <==> |xs| == 0
    ensures m.Some? ==> m.value in xs && forall x :: x in xs ==> m.value <= x
  {
    if |xs| == 0 then None
    else
      assert xs == xs[..|xs| - 1] + [xs[|xs| - 1]];
      LowerReal(MinReal(xs[..|xs| - 1]), xs[|xs| - 1])
  }

  // ---------------------------------------------------------------------
  // The single pass (src/index.ts:86-123).
  // ---------------------------------------------------------------------

  /** The loop's local state. */
  datatype Acc = Acc(
    cancelled: nat,
    running: nat,
    sumSpeed: real,
    sumDelay: int,
    maxDelay: Option<int>,
    minDelay: Option<int>,
    maxOcc: Option<real>,
    minOcc: Option<real>,
    occCount: nat,
    maxRunningDelay: Option<int>,
    minRunningDelay: Option<int>,
    runningTrains: seq<TrainStatus>)

  /** The state before the first train. */
  const Start: Acc := Acc(0, 0, 0.0, 0, None, None, None, None, 0, None, None, [])

  /** One iteration of the loop over `allTrains`: every train adds its
      delay to the sum and the overall extrema; a cancelled train is only
      counted; a train neither cancelled nor completed is running and adds
      to the running count, speed sum, running list and running extrema; a
      reported occupancy updates the occupancy extrema and count. */
  function Step(a: Acc, t: TrainStatus): Acc {
    var d := DelayOf(t);
    var running := !IsCancelled(t) && !IsCompleted(t);
    Acc(
      cancelled := if IsCancelled(t) then a.cancelled + 1 else a.cancelled,
      running := if running then a.running + 1 else a.running,
      sumSpeed := if running then a.sumSpeed + SpeedOf(t) else a.sumSpeed,
      sumDelay := a.sumDelay + d,
      maxDelay := Raise(a.maxDelay, d),
      minDelay := Lower(a.minDelay, d),
      maxOcc := if t.occupancy.Some? then RaiseReal(a.maxOcc, t.occupancy.value) else a.maxOcc,
      minOcc := if t.occupancy.Some? then LowerReal(a.minOcc, t.occupancy.value) else a.minOcc,
      occCount := if t.occupancy.Some? then a.occCount + 1 else a.occCount,
      maxRunningDelay := if running then Raise(a.maxRunningDelay, d) else a.maxRunningDelay,
      minRunningDelay := if running then Lower(a.minRunningDelay, d) else a.minRunningDelay,
      runningTrains := if running then a.runningTrains + [t] else a.runningTrains)
  }

  /** What the pass should end with, quantity by quantity. */
  function Reference(s: seq<TrainStatus>): Acc {
    var run := RunningTrains(s);
    Acc(
      cancelled := |Filter(s, IsCancelled)|,
      running := |run|,
      sumSpeed := SumSpeed(run),
      sumDelay := SumDelay(s),
      maxDelay := MaxInt(Delays(s)),
      minDelay := MinInt(Delays(s)),
      maxOcc := MaxReal(Occupancies(s)),
      minOcc := MinReal(Occupancies(s)),
      occCount := |Occupancies(s)|,
      maxRunningDelay := MaxInt(Delays(run)),
      minRunningDelay := MinInt(Delays(run)),
      runningTrains := run)
  }

  lemma DelaysSnoc(s: seq<TrainStatus>, t: TrainStatus)
    ensures Delays(s + [t]) == Delays(s) + [DelayOf(t)]
  {
    assert (s + [t])[..|s|] == s;
  }

  lemma SumsSnoc(s: seq<TrainStatus>, t: TrainStatus)
    ensures SumDelay(s + [t]) == SumDelay(s) + DelayOf(t)
    ensures SumSpeed(s + [t]) == SumSpeed(s) + SpeedOf(t)
  {
    assert (s + [t])[..|s|] == s;
  }

  lemma OccupanciesSnoc(s: seq<TrainStatus>, t: TrainStatus)
    ensures Occupancies(s + [t]) ==
            Occupancies(s) + (if t.occupancy.Some? then [t.occupancy.value] else [])
  {
    assert (s + [t])[..|s|] == s;
  }

  lemma ExtremaSnoc(xs: seq<int>, x: int)
    ensures MaxInt(xs + [x]) == Raise(MaxInt(xs), x)
    ensures MinInt(xs + [x]) == Lower(MinInt(xs), x)
  {
    assert (xs + [x])[..|xs|] == xs;
  }

  lemma RealExtremaSnoc(xs: seq<real>, x: real)
    ensures MaxReal(xs + [x]) == RaiseReal(MaxReal(xs), x)
    ensures MinReal(xs + [x]) == LowerReal(MinReal(xs), x)
  {
    assert (xs + [x])[..|xs|] == xs;
  }

  lemma StepCancelled(s: seq<TrainStatus>, t: TrainStatus)
    ensures Step(Reference(s), t).cancelled == Reference(s + [t]).cancelled
  {
    FilterSnoc(s, t, IsCancelled);
  }

  lemma StepRunningList(s: seq<TrainStatus>, t: TrainStatus)
    ensures var a := Step(Reference(s), t);
            var b := Reference(s + [t]);
            a.running == b.running && a.runningTrains == b.runningTrains
  {
    FilterSnoc(s, t, IsRunning);
  }

  lemma StepRunningDelays(s: seq<TrainStatus>, t: TrainStatus)
    ensures var a := Step(Reference(s), t);
            var b := Reference(s + [t]);
            && a.sumSpeed == b.sumSpeed
            && a.maxRunningDelay == b.maxRunningDelay
            && a.minRunningDelay == b.minRunningDelay
  {
    var run := RunningTrains(s);
    FilterSnoc(s, t, IsRunning);
    if IsRunning(t) {
      SumsSnoc(run, t);
      DelaysSnoc(run, t);
      ExtremaSnoc(Delays(run), DelayOf(t));
    }
  }

  lemma StepDelays(s: seq<TrainStatus>, t: TrainStatus)
    ensures var a := Step(Reference(s), t);
            var b := Reference(s + [t]);
            a.sumDelay == b.sumDelay && a.maxDelay == b.maxDelay && a.minDelay == b.minDelay
  {
    DelaysSnoc(s, t);
    SumsSnoc(s, t);
    ExtremaSnoc(Delays(s), DelayOf(t));
  }

  lemma StepOccupancy(s: seq<TrainStatus>, t: TrainStatus)
    ensures var a := Step(Reference(s), t);
            var b := Reference(s + [t]);
            a.maxOcc == b.maxOcc && a.minOcc == b.minOcc && a.occCount == b.occCount
  {
    OccupanciesSnoc(s, t);
    if t.occupancy.Some? {
      RealExtremaSnoc(Occupancies(s), t.occupancy.value);
    } else {
      assert Occupancies(s + [t]) == Occupancies(s);
    }
  }

  /** One more iteration moves the reference from a list to its extension. */
  lemma StepReference(s: seq<TrainStatus>, t: TrainStatus)
    ensures Step(Reference(s), t) == Reference(s + [t])
  {
    StepCancelled(s, t);
    StepRunningList(s, t);
    StepRunningDelays(s, t);
    StepDelays(s, t);
    StepOccupancy(s, t);
  }

  lemma StartReference()
    ensures Reference([]) == Start
  {
  }

  /** The loop as a left fold of `Step` from a given state. */
  function Run(a: Acc, s: seq<TrainStatus>): Acc
    decreases |s|
  {
    if |s| == 0 then a else Run(Step(a, s[0]), s[1..])
  }

  lemma {:induction false} RunSnoc(a: Acc, s: seq<TrainStatus>, t: TrainStatus)
    ensures Run(a, s + [t]) == Step(Run(a, s), t)
    decreases |s|
  {
    if |s| == 0 {
      assert [] + [t] == [t];
      assert [t][1..] == [];
    } else {
      assert (s + [t])[1..] == s[1..] + [t];
      RunSnoc(Step(a, s[0]), s[1..], t);
    }
  }

  /** Folding `Step` over the trains from the initial state gives the
      reference quantities. */
  lemma {:induction false} RunReference(s: seq<TrainStatus>)
    ensures Run(Start, s) == Reference(s)
    decreases |s|
  {
    if |s| == 0 {
      StartReference();
    } else {
      var init := s[..|s| - 1];
      var t := s[|s| - 1];
      assert init + [t] == s;
      RunReference(init);
      RunSnoc(Start, init, t);
      StepReference(init, t);
    }
  }

  /** The single pass computes exactly the separate reference quantities. */
  method Aggregate(allTrains: seq<TrainStatus>) returns (a: Acc)
    ensures a == Reference(allTrains)
  {
    a := Start;
    var i := 0;
    assert allTrains[..0] == [];
    while i < |allTrains|
      invariant 0 <= i <= |allTrains|
      invariant a == Run(Start, allTrains[..i])
    {
      var prefix := allTrains[..i];
      var t := allTrains[i];
      RunSnoc(Start, prefix, t);
      a := Step(a, t);
      i := i + 1;
      assert allTrains[..i] == prefix + [t];
    }
    assert allTrains[..i] == allTrains;
    RunReference(allTrains);
  }

  // ---------------------------------------------------------------------
  // The summary record (src/index.ts:126-139).
  // ---------------------------------------------------------------------

  /** The `stats` object. The minimum delays are reported as "aheadness". */
  datatype Stats = Stats(
    cancelled: nat,
    running: nat,
    avgSpeed: real,
    avgDelay: real,
    maxDelay: Option<int>,
    maxRunningDelay: Option<int>,
    maxAheadness: Option<int>,
    maxRunningAheadness: Option<int>,
    maxOccupancy: Option<real>,
    minOccupancy: Option<real>,
    trainsSupportingOccupancyData: nat)

  /** The summary of a finished pass over `total` trains; each average is
      0 when its divisor is 0. */
  function Report(a: Acc, total: nat): Stats {
    Stats(
      cancelled := a.cancelled,
      running := a.running,
      avgSpeed := if a.running != 0 then a.sumSpeed / a.running as real else 0.0,
      avgDelay := if total != 0 then a.sumDelay as real / total as real else 0.0,
      maxDelay := a.maxDelay,
      maxRunningDelay := a.maxRunningDelay,
      maxAheadness := a.minDelay,
      maxRunningAheadness := a.minRunningDelay,
      maxOccupancy := a.maxOcc,
      minOccupancy := a.minOcc,
      trainsSupportingOccupancyData := a.occCount)
  }

  /** The summary a stats request reports for `allTrains`. */
  function StatsOf(allTrains: seq<TrainStatus>): Stats {
    Report(Reference(allTrains), |allTrains|)
  }

  // ---------------------------------------------------------------------
  // Properties of the summary.
  // ---------------------------------------------------------------------

  lemma {:induction false} ThreeWayPartition(s: seq<TrainStatus>)
    ensures |Filter(s, IsCancelled)| + |Filter(s, IsRunning)| + |Filter(s, IsCompleted)| == |s|
    decreases |s|
  {
    if |s| > 0 {
      ThreeWayPartition(s[..|s| - 1]);
    }
  }

  /** Every train is counted exactly once, as cancelled, running or
      completed; the running trains are exactly the running ones, in order. */
  lemma CountsPartition(allTrains: seq<TrainStatus>)
    ensures StatsOf(allTrains).cancelled + StatsOf(allTrains).running
            + |Filter(allTrains, IsCompleted)| == |allTrains|
    ensures StatsOf(allTrains).cancelled == |Filter(allTrains, IsCancelled)|
    ensures |Reference(allTrains).runningTrains| == StatsOf(allTrains).running
    ensures forall t :: t in Reference(allTrains).runningTrains <==> t in allTrains && IsRunning(t)
    ensures forall a, b :: Reference(a + b).runningTrains
                           == Reference(a).runningTrains + Reference(b).runningTrains
  {
    ThreeWayPartition(allTrains);
    forall a, b {
      FilterConcat(a, b, IsRunning);
    }
  }

  /** The average speed is 0 without running trains, and otherwise the mean
      speed of the running trains, a missing speed counting as 0. */
  lemma AverageSpeed(allTrains: seq<TrainStatus>)
    ensures var st := StatsOf(allTrains);
            (st.running == 0 ==> st.avgSpeed == 0.0) &&
            (st.running > 0 ==>
               st.avgSpeed == SumSpeed(RunningTrains(allTrains)) / st.running as real)
  {
  }

  /** The average delay is 0 for no trains, and otherwise the mean delay of
      all trains, a missing delay counting as 0. */
  lemma AverageDelay(allTrains: seq<TrainStatus>)
    ensures var st := StatsOf(allTrains);
            (|allTrains| == 0 ==> st.avgDelay == 0.0) &&
            (|allTrains| > 0 ==>
               st.avgDelay == SumDelay(allTrains) as real / |allTrains| as real)
  {
  }

  /** A delay is among the delays iff some train has it. */
  lemma DelaysMembers(s: seq<TrainStatus>)
    ensures forall t :: t in s ==> DelayOf(t) in Delays(s)
    ensures forall x :: x in Delays(s) ==> exists t :: t in s && DelayOf(t) == x
  {
    forall t | t in s
      ensures DelayOf(t) in Delays(s)
    {
      var i :| 0 <= i < |s| && s[i] == t;
      assert Delays(s)[i] == DelayOf(t);
    }
    forall x | x in Delays(s)
      ensures exists t :: t in s && DelayOf(t) == x
    {
      var i :| 0 <= i < |Delays(s)| && Delays(s)[i] == x;
      assert s[i] in s;
    }
  }

  /** Over a non-empty list both delay extrema exist, bound every train's
      delay and are each some train's delay; over no trains neither exists. */
  lemma DelayExtrema(allTrains: seq<TrainStatus>)
    ensures var st := StatsOf(allTrains);
            (st.maxDelay.None? <==> |allTrains| == 0) &&
            (st.maxAheadness.None? <==> |allTrains| == 0)
    ensures var st := StatsOf(allTrains);
            |allTrains| > 0 ==>
              && st.maxDelay.Some? && st.maxAheadness.Some?
              && (forall t :: t in allTrains ==>
                    st.maxAheadness.value <= DelayOf(t) <= st.maxDelay.value)
              && (exists t :: t in allTrains && DelayOf(t) == st.maxDelay.value)
              && (exists t :: t in allTrains && DelayOf(t) == st.maxAheadness.value)
  {
    DelaysMembers(allTrains);
  }

  /** With running trains, the running extrema lie between the overall
      extrema, bound every running train's delay and are attained by running
      trains; without running trains they do not exist. */
  lemma RunningDelayExtrema(allTrains: seq<TrainStatus>)
    ensures var st := StatsOf(allTrains);
            st.running == 0 <==> st.maxRunningDelay.None? && st.maxRunningAheadness.None?
    ensures var st := StatsOf(allTrains);
            st.running > 0 ==>
              && st.maxDelay.Some? && st.maxAheadness.Some?
              && st.maxRunningDelay.Some? && st.maxRunningAheadness.Some?
              && st.maxAheadness.value <= st.maxRunningAheadness.value
              && st.maxRunningAheadness.value <= st.maxRunningDelay.value
              && st.maxRunningDelay.value <= st.maxDelay.value
              && (forall t :: t in allTrains && IsRunning(t) ==>
                    st.maxRunningAheadness.value <= DelayOf(t) <= st.maxRunningDelay.value)
              && (exists t :: t in allTrains && IsRunning(t) && DelayOf(t) == st.maxRunningDelay.value)
              && (exists t :: t in allTrains && IsRunning(t) && DelayOf(t) == st.maxRunningAheadness.value)
  {
    var run := RunningTrains(allTrains);
    DelaysMembers(allTrains);
    DelaysMembers(run);
  }

  /** Dropping the trains without occupancy leaves the occupancies alone. */
  lemma {:induction false} OccupanciesOfPresent(s: seq<TrainStatus>)
    ensures Occupancies(Filter(s, HasOccupancy)) == Occupancies(s)
    decreases |s|
  {
    if |s| > 0 {
      var init := s[..|s| - 1];
      var last := s[|s| - 1];
      OccupanciesOfPresent(init);
      if HasOccupancy(last) {
        var f := Filter(init, HasOccupancy);
        assert (f + [last])[..|f|] == f;
      }
    }
  }

  /** The occupancy count is the number of trains that report one; when it
      is positive the extrema bound and are attained by reported values;
      trains without occupancy change none of the three fields. */
  lemma OccupancyExtrema(allTrains: seq<TrainStatus>)
    ensures var st := StatsOf(allTrains);
            st.trainsSupportingOccupancyData == |Filter(allTrains, HasOccupancy)|
    ensures var st := StatsOf(allTrains);
            (st.trainsSupportingOccupancyData == 0 <==> st.maxOccupancy.None?) &&
            (st.trainsSupportingOccupancyData == 0 <==> st.minOccupancy.None?)
    ensures var st := StatsOf(allTrains);
            st.trainsSupportingOccupancyData > 0 ==>
              && st.maxOccupancy.Some? && st.minOccupancy.Some?
              && (forall i :: 0 <= i < |allTrains| && allTrains[i].occupancy.Some? ==>
                    st.minOccupancy.value <= allTrains[i].occupancy.value <= st.maxOccupancy.value)
              && (exists i :: 0 <= i < |allTrains| && allTrains[i].occupancy == st.maxOccupancy)
              && (exists i :: 0 <= i < |allTrains| && allTrains[i].occupancy == st.minOccupancy)
    ensures var st := StatsOf(allTrains);
            var st' := StatsOf(Filter(allTrains, HasOccupancy));
            && st'.maxOccupancy == st.maxOccupancy
            && st'.minOccupancy == st.minOccupancy
            && st'.trainsSupportingOccupancyData == st.trainsSupportingOccupancyData
  {
    OccupanciesOfPresent(allTrains);
    var os := Occupancies(allTrains);
    forall i | 0 <= i < |allTrains| && allTrains[i].occupancy.Some?
      ensures allTrains[i].occupancy.value in os
    {
    }
  }
}
