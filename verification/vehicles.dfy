/** The vehicle listing (src/index.ts:79-83, 143-149): extracting the
    statuses from the realtime envelopes, dropping completed trains on
    request, and joining each status with its static schedule entry. */
module Vehicles {
  import opened Wrappers
  import opened Seqs
  import opened CpTypes
  import opened StaticIndex

  predicate HasStatus(e: CPTrain) {
    e.status.Some?
  }

  /** The status of every envelope that has one, in enumeration order;
      envelopes without a status are skipped. */
  function ExtractStatuses(envs: seq<CPTrain>): (r: seq<TrainStatus>)
    ensures |r| == |Filter(envs, HasStatus)|
    ensures forall t :: t in r <==> exists i :: 0 <= i < |envs| && envs[i].status == Some(t)
  {
    if |envs| == 0 then []
    else
      var init := envs[..|envs| - 1];
      var last := envs[|envs| - 1];
      assert envs == init + [last];
      ExtractStatuses(init) + (if last.status.Some? then [last.status.value] else [])
  }

  /** Extraction keeps the envelopes' order: it distributes over
      concatenation. */
  lemma {:induction false} ExtractConcat(a: seq<CPTrain>, b: seq<CPTrain>)
    ensures ExtractStatuses(a + b) == ExtractStatuses(a) + ExtractStatuses(b)
    decreases |b|
  {
    if |b| == 0 {
      assert a + b == a;
    } else {
      var b0 := b[..|b| - 1];
      assert (a + b)[..|a + b| - 1] == a + b0;
      ExtractConcat(a, b0);
    }
  }

  /** The list after the optional `excludes=completed` filter. */
  function DropCompleted(exclude: bool, s: seq<TrainStatus>): (r: seq<TrainStatus>)
    ensures !exclude ==> r == s
    ensures exclude ==> forall t :: t in r <==> t in s && !IsCompleted(t)
    ensures exclude ==> |r| + |Filter(s, IsCompleted)| == |s|
  {
    if exclude then
      FilterSplitsLength(s, NotCompleted, IsCompleted);
      Filter(s, NotCompleted)
    else s
  }

  /** The filter keeps the remaining records in their relative order, and
      leaves a list without completed trains as it is. */
  lemma DropCompletedOrder(exclude: bool, a: seq<TrainStatus>, b: seq<TrainStatus>)
    ensures DropCompleted(exclude, a + b) == DropCompleted(exclude, a) + DropCompleted(exclude, b)
    ensures (forall i :: 0 <= i < |a| ==> !IsCompleted(a[i])) ==> DropCompleted(exclude, a) == a
  {
    FilterConcat(a, b, NotCompleted);
    if forall i :: 0 <= i < |a| ==> !IsCompleted(a[i]) {
      FilterAll(a, NotCompleted);
    }
  }

  /** The schedule fields a matched record gains. */
  datatype Enrichment = Enrichment(
    service: GenericEntity,
    origin: GenericEntity,
    destination: GenericEntity)

  /** A status as listed to the client: every original field, plus the
      schedule fields when a static entry was found. */
  datatype Vehicle = Vehicle(train: TrainStatus, extra: Option<Enrichment>)

  function Plain(t: TrainStatus): Vehicle {
    Vehicle(t, None)
  }

  function EnrichmentOf(st: StaticTrain): Enrichment {
    Enrichment(st.trainService, st.trainOrigin, st.trainDestination)
  }

  /** `{...ft, service, origin, destination}` on a match, `ft` itself
      otherwise. */
  function EnrichRecord(index: map<int, StaticTrain>, v: Vehicle): (r: Vehicle)
    ensures r.train == v.train
  {
    var n := v.train.trainNumber;
    if n in index then v.(extra := Some(EnrichmentOf(index[n]))) else v
  }

  /** The listed vehicles: one per status, in the same order. */
  function Enrich(index: map<int, StaticTrain>, s: seq<TrainStatus>): (vs: seq<Vehicle>)
    ensures |vs| == |s|
    ensures forall i :: 0 <= i < |s| ==> vs[i].train == s[i]
  {
    seq(|s|, i requires 0 <= i < |s| => EnrichRecord(index, Plain(s[i])))
  }

  /** Against the static list itself: a status whose number no static entry
      carries is listed unchanged; otherwise it keeps its fields and gains
      the schedule fields of the LAST static entry with its number. */
  lemma EnrichAgainstStaticList(ts: seq<StaticTrain>, s: seq<TrainStatus>, i: int)
    requires 0 <= i < |s|
    ensures var v := Enrich(BuildIndex(ts), s)[i];
            (forall j :: 0 <= j < |ts| ==> ts[j].trainNumber != s[i].trainNumber) ==> v == Plain(s[i])
    ensures var v := Enrich(BuildIndex(ts), s)[i];
            forall j :: 0 <= j < |ts| && ts[j].trainNumber == s[i].trainNumber &&
                        (forall k :: j < k < |ts| ==> ts[k].trainNumber != s[i].trainNumber) ==>
              v == Vehicle(s[i], Some(EnrichmentOf(ts[j])))
  {
    forall j | 0 <= j < |ts| && ts[j].trainNumber == s[i].trainNumber &&
               (forall k :: j < k < |ts| ==> ts[k].trainNumber != s[i].trainNumber)
      ensures Enrich(BuildIndex(ts), s)[i] == Vehicle(s[i], Some(EnrichmentOf(ts[j])))
    {
      IndexLastWins(ts, j);
    }
  }

  /** Enriching twice with the same index changes nothing more. */
  lemma EnrichIdempotent(index: map<int, StaticTrain>, v: Vehicle)
    ensures EnrichRecord(index, EnrichRecord(index, v)) == EnrichRecord(index, v)
  {
  }

  predicate VehicleNotCompleted(v: Vehicle) {
    !IsCompleted(v.train)
  }

  lemma EnrichSnoc(index: map<int, StaticTrain>, s: seq<TrainStatus>, t: TrainStatus)
    ensures Enrich(index, s + [t]) == Enrich(index, s) + [EnrichRecord(index, Plain(t))]
  {
    assert Enrich(index, s + [t])[..|s|] == Enrich(index, s);
  }

  /** A record is enriched the same whether or not completed trains are
      excluded: filtering after enriching equals enriching after
      filtering. */
  lemma {:induction false} EnrichIgnoresFilter(index: map<int, StaticTrain>, s: seq<TrainStatus>)
    ensures Enrich(index, DropCompleted(true, s)) == Filter(Enrich(index, s), VehicleNotCompleted)
    decreases |s|
  {
    if |s| == 0 {
    } else {
      var init := s[..|s| - 1];
      var t := s[|s| - 1];
      assert s == init + [t];
      EnrichIgnoresFilter(index, init);
      EnrichSnoc(index, init, t);
      var es := Enrich(index, s);
      assert es[..|es| - 1] == Enrich(index, init);
      if NotCompleted(t) {
        EnrichSnoc(index, Filter(init, NotCompleted), t);
      }
    }
  }
}
