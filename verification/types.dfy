/** The records exchanged with the operator's travel and realtime APIs
    (src/cp.types.ts). Numbers that are integral by nature (train numbers,
    delays in minutes) are `int`; speed and occupancy are `real`; a field
    that may be `null` is an `Option`. */
module CpTypes {
  import opened Wrappers

  /** A coded entity: a service kind, a station, an origin or destination. */
  datatype GenericEntity = GenericEntity(code: string, designation: string)

  /** One entry of the static schedule list. */
  datatype StaticTrain = StaticTrain(
    trainNumber: int,
    trainService: GenericEntity,
    trainOrigin: GenericEntity,
    trainDestination: GenericEntity)

  /** The live state of one train. `status` is the operator's free-form
      state word; only "CANCELLED" and "COMPLETED" are distinguished. */
  datatype TrainStatus = TrainStatus(
    trainNumber: int,
    runDate: string,
    delay: Option<int>,
    speed: Option<real>,
    occupancy: Option<real>,
    lastStation: Option<string>,
    lastDependency: Option<string>,
    latitude: Option<string>,
    longitude: Option<string>,
    source: string,
    status: string,
    hasDisruptions: Option<bool>,
    units: seq<string>)

  /** One realtime envelope; its `status` may be missing. The envelope's
      stop and platform tables are never read and are not modelled. */
  datatype CPTrain = CPTrain(status: Option<TrainStatus>)

  /** A station, passed through to the client unread. */
  datatype Station = Station(
    code: string,
    designation: string,
    latitude: string,
    longitude: string,
    region: Option<string>,
    railways: seq<string>)

  const Cancelled: string := "CANCELLED"
  const Completed: string := "COMPLETED"

  predicate IsCancelled(t: TrainStatus) {
    t.status == Cancelled
  }

  predicate IsCompleted(t: TrainStatus) {
    t.status == Completed
  }

  /** A running train is one that is neither cancelled nor completed. */
  predicate IsRunning(t: TrainStatus) {
    !IsCancelled(t) && !IsCompleted(t)
  }

  predicate NotCompleted(t: TrainStatus) {
    !IsCompleted(t)
  }

  predicate HasOccupancy(t: TrainStatus) {
    t.occupancy.Some?
  }

  /** The aggregation policy for a missing delay: it counts as 0. */
  function DelayOf(t: TrainStatus): int {
    t.delay.GetOr(0)
  }

  /** The aggregation policy for a missing speed: it counts as 0. */
  function SpeedOf(t: TrainStatus): real {
    t.speed.GetOr(0.0)
  }
}
