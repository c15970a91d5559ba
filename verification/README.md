# cp-rt-worker: the request pipeline, modelled in Dafny

The worker is an edge HTTP proxy in front of a railway operator's travel and
realtime APIs. For each authorised request it either lists stations, or
fetches the static schedule list and the live status of every scheduled
train. It then summarises the fleet (`/stats`) or lists the trains joined
with their schedule data (any other path).

This project models that pipeline in `src/index.ts` as pure functions over
sequences and maps. It proves the properties the code promises.

| file | module | what it holds |
|---|---|---|
| `wrappers.dfy` | `Wrappers` | `Option` (nullable fields, "no element seen") and `Result` |
| `seqs.dfy` | `Seqs` | order-preserving `Filter` and its algebra |
| `types.dfy` | `CpTypes` | `StaticTrain`, `TrainStatus`, `CPTrain`, `Station`, the status predicates and the null-as-0 policy |
| `router.dfy` | `Router` | path splitting, endpoint choice, the `excludes` flag, the bearer guard |
| `static_index.dfy` | `StaticIndex` | the last-wins `trainNumber` index and the first-occurrence query set |
| `aggregation.dfy` | `Aggregation` | the single pass (`Step`, the `Aggregate` loop), its reference definitions, the `stats` record |
| `vehicles.dfy` | `Vehicles` | status extraction, the completed filter, enrichment |
| `handler.dfy` | `Handler` | the whole handler, with upstream answers as parameters and a trace of the calls made |
| `scenarios.dfy` | `Scenarios` | worked examples |

Modelling choices:
- The source seeds each extremum with `-Infinity` or `+Infinity`. Here an extremum is `Option`, and `None` means "no element seen".
- `JSON.stringify` writes a non-finite number as `null`, so `None` is also what a client receives.
- Delays are `int`. Speeds, occupancies and averages are `real`.
- A missing delay or speed counts as 0 (`DelayOf`, `SpeedOf`). A missing occupancy is skipped.
- An enriched record is `Vehicle(train, extra)`. `train` holds every original field. `extra` is `Some` of the three schedule fields after a match and `None` otherwise, so an unmatched record is the status unchanged.
- The realtime reply is the sequence of its envelopes in the order the handler enumerates them.
- The two travel-API answers are parameters of the handler. The realtime endpoint is a function from the requested train numbers to the envelopes or to an error body. The handler returns the list of calls it made, so that "no upstream call before authorisation" and "the query is exactly the distinct static numbers" can be stated.
- The average speed is 0 when no train runs, and also when the speeds of the running trains sum to 0, a missing speed counting as 0 (`AverageSpeed`).

## Model

| member | source | states |
|---|---|---|
| `Router.Split` | src/index.ts:65 | splitting always yields at least one piece, and no piece contains the separator |
| `Router.JoinSplit` | src/index.ts:65 | joining the pieces with the separator gives back the original string |
| `Router.SplitJoin` | src/index.ts:69 | any non-empty, separator-free token list is recovered by splitting its join, so `Split` and `Join` are inverse bijections between strings and non-empty separator-free lists |
| `Router.Segments` | src/index.ts:65 | every path segment is non-empty and contains no slash |
| `Router.SingleSegment` | src/index.ts:65-67 | a path has the single segment `w` iff it is `w` with only slashes before and after it |
| `Router.RouteStations` | src/index.ts:67 | the stations listing is chosen iff the path is `stations` surrounded by slashes only |
| `Router.RouteStats` | src/index.ts:125 | the summary is chosen iff the path is `stats` surrounded by slashes only |
| `Router.ExcludeCompletedIff` | src/index.ts:69-70 | for a comma-joined token list the flag holds iff one token is exactly `completed`; an absent parameter never sets it |
| `StaticIndex.BuildIndex` | src/index.ts:73 | the index holds exactly the listed numbers, and each maps to the last entry carrying it |
| `StaticIndex.IndexLastWins` | src/index.ts:73 | the last entry with a given number is the one found under that number |
| `StaticIndex.Dedup` | src/index.ts:75 | the query set has the same numbers as the list, no repeats, and keeps first-occurrence order |
| `Vehicles.ExtractStatuses` | src/index.ts:79-83 | a status is extracted iff some envelope carries it, one per envelope that has a status |
| `Vehicles.ExtractConcat` | src/index.ts:79-83 | extraction keeps the envelope order: it distributes over concatenation |
| `Aggregation.MaxInt` | src/index.ts:111-115 | the running maximum is absent iff there are no values, and otherwise is one of them and bounds them all |
| `Aggregation.MinInt` | src/index.ts:112-116 | the running minimum is absent iff there are no values, and otherwise is one of them and is below them all |
| `Aggregation.MaxReal` | src/index.ts:118-119 | the occupancy maximum is absent iff there are no values, and otherwise is one of them and bounds them all |
| `Aggregation.MinReal` | src/index.ts:118-120 | the occupancy minimum is absent iff there are no values, and otherwise is one of them and is below them all |
| `Aggregation.Occupancies` | src/index.ts:118-121 | one occupancy per train that reports one, and only reported values |
| `Aggregation.StepReference` | src/index.ts:100-123 | one loop iteration carries the per-quantity definitions of a list to those of the list extended by one train |
| `Aggregation.RunReference` | src/index.ts:100-123 | folding the loop body over the trains from the initial state gives every per-quantity definition |
| `Aggregation.Aggregate` | src/index.ts:86-123 | the single-pass loop computes exactly the separate counts, sums, extrema and running subset |
| `Aggregation.ThreeWayPartition` | src/index.ts:105-108 | the cancelled, running and completed trains together number exactly the list |
| `Aggregation.CountsPartition` | src/index.ts:105-113 | cancelled + running + completed equals the number of trains; the running list holds exactly the running trains, in order, one per count |
| `Aggregation.AverageSpeed` | src/index.ts:109-130 | the average speed is 0 without running trains and otherwise the speed sum over running trains (missing as 0) divided by their count |
| `Aggregation.AverageDelay` | src/index.ts:101-131 | the average delay is 0 for no trains and otherwise the delay sum over all trains (missing as 0) divided by their number |
| `Aggregation.DelayExtrema` | src/index.ts:115-116 | for a non-empty list the delay extrema exist, bound every train's delay and are attained; for an empty list they are absent |
| `Aggregation.RunningDelayExtrema` | src/index.ts:111-116 | with running trains: overall min <= running min <= running max <= overall max, the running extrema bound and are attained by running trains; without running trains they are absent |
| `Aggregation.OccupanciesOfPresent` | src/index.ts:118-122 | trains without occupancy contribute nothing to the occupancy values |
| `Aggregation.OccupancyExtrema` | src/index.ts:118-122 | the occupancy count is the number of reporting trains; when positive the extrema bound and are attained by reported values; trains without occupancy change none of the three fields |
| `Vehicles.DropCompleted` | src/index.ts:143 | without the flag the list is unchanged; with it exactly the completed records are removed |
| `Vehicles.DropCompletedOrder` | src/index.ts:143 | the filter distributes over concatenation, so the kept records stay in order, and a list without completed records is kept whole |
| `Vehicles.EnrichRecord` | src/index.ts:146-148 | enrichment never alters the original status fields |
| `Vehicles.Enrich` | src/index.ts:145-149 | one listed vehicle per status, same length and order, each keeping its status |
| `Vehicles.EnrichAgainstStaticList` | src/index.ts:145-148 | a status with no static entry is listed unchanged; otherwise it gains the schedule fields of the last static entry with its number |
| `Vehicles.EnrichIdempotent` | src/index.ts:148 | enriching an enriched record again with the same index changes nothing |
| `Vehicles.EnrichIgnoresFilter` | src/index.ts:143-149 | enriching the filtered list equals filtering the enriched list, so a record's enrichment does not depend on the filter |
| `Handler.Handle` | src/index.ts:59-151 | without the exact bearer token: 401 and no upstream call; the stations path: one stations call and its list; otherwise the behaviour of `Serve` |
| `Handler.Serve` | src/index.ts:69-151 | static list first, then a realtime query for exactly its distinct numbers; a non-success reply fails with its body; otherwise the summary of all statuses, or the enriched listing after the optional filter |
| `Scenarios.StatsExample` | src/index.ts:86-139 | running, cancelled and completed trains give cancelled 1, running 1, average speed 80, average delay 7/3 and the stated extrema |
| `Scenarios.EmptyStats` | src/index.ts:90-96 | with no trains every extremum is absent and both averages are 0 |
| `Scenarios.EnrichExample` | src/index.ts:145-149 | only the train with a static entry gains schedule fields |
| `Scenarios.DuplicateStaticEntries` | src/index.ts:73-75 | a repeated number is queried once, at its first position, and looked up in its last entry |
| `Scenarios.StationsRouteExample` | src/index.ts:64-67 | `/stations` selects the stations listing |
| `Scenarios.StatsRouteExample` | src/index.ts:125 | `/stats/` selects the summary |
| `Scenarios.SecondSegmentExample` | src/index.ts:65-67 | `/stations/extra` falls through to the vehicle listing |
| `Scenarios.RootExample` | src/index.ts:65-67 | the root path lists vehicles |
| `Scenarios.ExcludesExamples` | src/index.ts:69-70 | only an exact `completed` token sets the flag (not `Completed`, `completed ` or an empty value) |

## Left out

- The HTTP calls, their headers and cache hints, and the environment-variable reads (src/index.ts:3-56) are network I/O. The answers are parameters of `Handler.Handle`, and the worker key is a parameter too.
- JSON decoding of upstream replies and JSON encoding of responses are not modelled. Responses are datatypes; the 401 response's plain-text body and status code are represented by `Unauthorized`.
- The thrown error on a non-success realtime reply (src/index.ts:34-36) becomes `UpstreamFailure` carrying the same message. The runtime's generic error response is not modelled.
- URL parsing (`new URL`, `searchParams.get`) is not modelled. The request carries `URL.pathname` (percent-encoding kept, dot segments resolved) and the decoded `excludes` value.
- The enumeration order of the realtime reply's keys is a JavaScript runtime rule (integer-like keys ascending, then insertion order). The envelopes are taken as a sequence already in that order.
- `CPTrain` stops and platforms and `StopInfo` are never read and are not modelled. `Station` is passed through unread.
- IEEE-754 arithmetic is not modelled: sums and averages are exact `real`s, and NaN inputs are not considered. `delay` is `int` although its declared type is a general number.
- Concurrency and the unused `env` and `ctx` handler arguments are not modelled.
