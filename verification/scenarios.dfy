/** Worked examples: one request's data traced through the model. */
module Scenarios {
  import opened Wrappers
  import opened Seqs
  import opened CpTypes
  import opened Router
  import opened StaticIndex
  import opened Aggregation
  import opened Vehicles

  function Status(n: int, state: string, delay: Option<int>, speed: Option<real>, occ: Option<real>): TrainStatus {
    TrainStatus(n, "2024-05-01", delay, speed, occ, None, None, None, None, "SIV", state, None, [])
  }

  const T1: TrainStatus := Status(1, "RUNNING", Some(5), Some(80.0), Some(0.3))
  const T2: TrainStatus := Status(2, "CANCELLED", Some(0), None, None)
  const T3: TrainStatus := Status(3, "COMPLETED", Some(2), None, None)

  const A1: Acc := Acc(0, 1, 80.0, 5, Some(5), Some(5), Some(0.3), Some(0.3), 1, Some(5), Some(5), [T1])
  const A2: Acc := Acc(1, 1, 80.0, 5, Some(5), Some(0), Some(0.3), Some(0.3), 1, Some(5), Some(5), [T1])
  const A3: Acc := Acc(1, 1, 80.0, 7, Some(5), Some(0), Some(0.3), Some(0.3), 1, Some(5), Some(5), [T1])

  /** The loop state after each of the three example trains. */
  lemma ExampleSteps()
    ensures Step(Start, T1) == A1
    ensures Step(A1, T2) == A2
    ensures Step(A2, T3) == A3
  {
  }

  lemma ExampleRun()
    ensures Run(Start, [T1, T2, T3]) == A3
  {
    ExampleSteps();
    assert [T1, T2, T3][1..] == [T2, T3];
    assert [T2, T3][1..] == [T3];
    assert [T3][1..] == [];
    assert Run(A3, []) == A3;
    assert Run(A2, [T3]) == Run(A3, []);
    assert Run(A1, [T2, T3]) == Run(A2, [T3]);
    assert Run(Start, [T1, T2, T3]) == Run(A1, [T2, T3]);
  }

  /** The pass over the three example trains ends in `A3`. */
  lemma ExamplePass()
    ensures Reference([T1, T2, T3]) == A3
  {
    RunReference([T1, T2, T3]);
    ExampleRun();
  }

  /** Three trains, one running, one cancelled, one completed: the summary
      counts each once, averages the speed over the one running train and
      the delay over all three, and only the running train reports an
      occupancy. */
  lemma StatsExample()
    ensures StatsOf([T1, T2, T3]) ==
              Stats(cancelled := 1, running := 1, avgSpeed := 80.0, avgDelay := 7.0 / 3.0,
                    maxDelay := Some(5), maxRunningDelay := Some(5),
                    maxAheadness := Some(0), maxRunningAheadness := Some(5),
                    maxOccupancy := Some(0.3), minOccupancy := Some(0.3),
                    trainsSupportingOccupancyData := 1)
  {
    ExamplePass();
  }

  /** With no trains at all, every extremum is absent and both averages
      are 0. */
  lemma EmptyStats()
    ensures StatsOf([]) == Stats(0, 0, 0.0, 0.0, None, None, None, None, None, None, 0)
  {
    StartReference();
  }

  /** Train 1 has a static entry and gains its schedule fields; train 2 has
      none and is listed unchanged. */
  lemma EnrichExample()
    ensures var ic := GenericEntity("IC", "Intercidades");
            var a := GenericEntity("A", "Origin");
            var b := GenericEntity("B", "Destination");
            var t1 := Status(1, "RUNNING", Some(5), Some(80.0), None);
            var t2 := Status(2, "RUNNING", None, None, None);
            Enrich(BuildIndex([StaticTrain(1, ic, a, b)]), [t1, t2]) ==
              [Vehicle(t1, Some(Enrichment(ic, a, b))), Plain(t2)]
  {
  }

  /** A number listed twice is queried once, at its first position, and
      looked up in its last entry. */
  lemma DuplicateStaticEntries()
    ensures var x := GenericEntity("X", "x");
            var y := GenericEntity("Y", "y");
            var ts := [StaticTrain(5, x, x, x), StaticTrain(7, x, x, x), StaticTrain(5, y, y, y)];
            QuerySet(ts) == [5, 7] && BuildIndex(ts)[5] == StaticTrain(5, y, y, y)
  {
    var x := GenericEntity("X", "x");
    var y := GenericEntity("Y", "y");
    var ts := [StaticTrain(5, x, x, x), StaticTrain(7, x, x, x), StaticTrain(5, y, y, y)];
    var ns := TrainNumbers(ts);
    assert ns == [5, 7, 5];
    assert ns[..2] == [5, 7];
    assert [5, 7][..1] == [5];
    assert [5][..0] == [];
    assert ts[..2][..1] == [StaticTrain(5, x, x, x)];
  }

  /** `/stations` lists stations. */
  lemma StationsRouteExample()
    ensures RouteOf("/stations") == StationsEndpoint
  {
    SegmentsAroundWord(1, "stations", 0);
    assert Slashes(1) + "stations" + Slashes(0) == "/stations";
  }

  /** `/stats/` summarises: a trailing slash adds no segment. */
  lemma StatsRouteExample()
    ensures RouteOf("/stats/") == StatsEndpoint
  {
    SegmentsAroundWord(1, "stats", 1);
    assert Slashes(1) + "stats" + Slashes(1) == "/stats/";
  }

  /** A second segment sends the request to the vehicle listing. */
  lemma SecondSegmentExample()
    ensures RouteOf("/stations/extra") == VehiclesEndpoint
  {
    var parts := ["", "stations", "extra"];
    SplitJoin(parts, '/');
    assert Join(parts, '/') == "/stations/extra";
    assert parts[..2] == ["", "stations"];
    assert parts[..2][..1] == [""];
    assert [""][..0] == [];
    assert Filter(parts, NonEmpty) == ["stations", "extra"];
  }

  /** The root path lists vehicles. */
  lemma RootExample()
    ensures RouteOf("/") == VehiclesEndpoint
  {
    var parts := ["", ""];
    SplitJoin(parts, '/');
    assert Join(parts, '/') == "/";
    assert parts[..1] == [""];
    assert [""][..0] == [];
  }

  /** Only an exact `completed` token switches the filter on. */
  lemma ExcludesExamples()
    ensures ExcludeCompleted(Some("cancelled,completed"))
    ensures !ExcludeCompleted(Some("Completed"))
    ensures !ExcludeCompleted(Some("completed "))
    ensures !ExcludeCompleted(Some(""))
    ensures !ExcludeCompleted(None)
  {
    ExcludeCompletedIff(["cancelled", "completed"]);
    assert Join(["cancelled", "completed"], ',') == "cancelled,completed";
    ExcludeCompletedIff(["Completed"]);
    ExcludeCompletedIff(["completed "]);
    ExcludeCompletedIff([""]);
  }
}
