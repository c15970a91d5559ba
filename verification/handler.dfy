/** The request handler (src/index.ts:58-152) with its collaborators made
    explicit: the station list and the static schedule list are the two
    travel-API answers, and `details` is the realtime endpoint, answering a
    list of train numbers with the envelopes or with the error body of a
    non-success reply. The handler also reports, in order, which upstream
    calls it made. */
module Handler {
  import opened Wrappers
  import opened CpTypes
  import opened Router
  import opened StaticIndex
  import opened Aggregation
  import opened Vehicles

  /** `path` is `URL.pathname`: percent-encoding kept, dot segments resolved.
      `excludes` is the decoded query parameter, if present. */
  datatype Request = Request(authorization: Option<string>, path: string, excludes: Option<string>)

  /** An outbound call: the two travel-API listings and the realtime query. */
  datatype Call = GetStations | GetStaticTrains | PostTrainDetails(trainNumbers: seq<int>)

  datatype Response =
    | Unauthorized
    | StationList(stations: seq<Station>)
    | StatsReport(stats: Stats)
    | VehicleList(vehicles: seq<Vehicle>)
    | UpstreamFailure(message: string)

  /** The message of the error raised on a non-success realtime reply. */
  const NokPrefix: string := "Got NOK response from CP-RT on /trains/details: "

  method Handle(
    req: Request,
    workerKey: string,
    stations: seq<Station>,
    staticTrains: seq<StaticTrain>,
    details: seq<int> -> Result<seq<CPTrain>, string>)
    returns (resp: Response, calls: seq<Call>)
    // Authentication precedes everything: no upstream call without it.
    ensures !Authorized(req.authorization, workerKey) ==> resp == Unauthorized && calls == []
    // The stations listing makes exactly one call and returns its answer.
    ensures Authorized(req.authorization, workerKey) && RouteOf(req.path) == StationsEndpoint ==>
              resp == StationList(stations) && calls == [GetStations]
    // Every other path is served from the static list and the realtime
    // details of its train numbers.
    ensures Authorized(req.authorization, workerKey) && RouteOf(req.path) != StationsEndpoint ==>
              ServedFromTrains(RouteOf(req.path), req.excludes, staticTrains, details, resp, calls)
  {
    if !Authorized(req.authorization, workerKey) {
      return Unauthorized, [];
    }
    var route := RouteOf(req.path);
    if route == StationsEndpoint {
      return StationList(stations), [GetStations];
    }
    resp, calls := Serve(route, req.excludes, staticTrains, details);
  }

  /** What serving the statistics or the vehicle listing promises: the
      static list is fetched, then the realtime details are asked for
      exactly its distinct train numbers; a non-success reply fails the
      request with the reply's body; otherwise the summary covers every
      status the reply carries, or the listing enriches the statuses left
      after the optional completed filter. */
  ghost predicate ServedFromTrains(
    route: Endpoint,
    excludes: Option<string>,
    staticTrains: seq<StaticTrain>,
    details: seq<int> -> Result<seq<CPTrain>, string>,
    resp: Response,
    calls: seq<Call>)
  {
    && calls == [GetStaticTrains, PostTrainDetails(QuerySet(staticTrains))]
    && match details(QuerySet(staticTrains))
       case Failure(body) => resp == UpstreamFailure(NokPrefix + body)
       case Success(envs) =>
         if route == StatsEndpoint then
           resp == StatsReport(StatsOf(ExtractStatuses(envs)))
         else
           resp == VehicleList(Enrich(BuildIndex(staticTrains),
                                      DropCompleted(ExcludeCompleted(excludes),
                                                    ExtractStatuses(envs))))
  }

  /** The part of the handler after the stations shortcut
      (src/index.ts:69-151). */
  method Serve(
    route: Endpoint,
    excludes: Option<string>,
    staticTrains: seq<StaticTrain>,
    details: seq<int> -> Result<seq<CPTrain>, string>)
    returns (resp: Response, calls: seq<Call>)
    ensures ServedFromTrains(route, excludes, staticTrains, details, resp, calls)
  {
    var excludeCompleted := ExcludeCompleted(excludes);
    calls := [GetStaticTrains];
    var index := BuildIndex(staticTrains);
    var trainNumbers := QuerySet(staticTrains);
    calls := calls + [PostTrainDetails(trainNumbers)];
    var reply := details(trainNumbers);
    if reply.Failure? {
      return UpstreamFailure(NokPrefix + reply.error), calls;
    }
    var allTrains := ExtractStatuses(reply.value);
    var acc := Aggregate(allTrains);
    if route == StatsEndpoint {
      return StatsReport(Report(acc, |allTrains|)), calls;
    }
    var filtered := DropCompleted(excludeCompleted, allTrains);
    resp := VehicleList(Enrich(index, filtered));
  }
}
