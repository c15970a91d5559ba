/** The static schedule index and the realtime query set
    (src/index.ts:72-75). */
module StaticIndex {
  import opened CpTypes

  /** The train numbers of the static list, in list order. */
  function TrainNumbers(ts: seq<StaticTrain>): (ns: seq<int>)
    ensures |ns| == |ts|
    ensures forall i :: 0 <= i < |ts| ==> ns[i] == ts[i].trainNumber
  {
    seq(|ts|, i requires 0 <= i < |ts| => ts[i].trainNumber)
  }

  /** The last position of `ts` carrying train number `n`, or -1 when no
      entry carries it. */
  function LastIndexOf(ts: seq<StaticTrain>, n: int): (j: int)
    ensures -1 <= j < |ts|
    ensures j >= 0 ==> ts[j].trainNumber == n
    ensures forall k :: j < k < |ts| ==> ts[k].trainNumber != n
    decreases |ts|
  {
    if |ts| == 0 then -1
    else if ts[|ts| - 1].trainNumber == n then |ts| - 1
    else LastIndexOf(ts[..|ts| - 1], n)
  }

  /** The `trainNumber -> StaticTrain` lookup built by inserting the list
      in order, so that of several entries with one number the last wins. */
  function BuildIndex(ts: seq<StaticTrain>): (index: map<int, StaticTrain>)
    ensures forall n :: n in index <==> LastIndexOf(ts, n) >= 0
    ensures forall n :: n in index ==> index[n] == ts[LastIndexOf(ts, n)]
    decreases |ts|
  {
    if |ts| == 0 then map[]
    else
      var init := ts[..|ts| - 1];
      var t := ts[|ts| - 1];
      InsertLast(ts, BuildIndex(init));
      BuildIndex(init)[t.trainNumber := t]
  }

  /** Inserting the last entry into an index of the other entries gives an
      index of the whole list. */
  lemma InsertLast(ts: seq<StaticTrain>, prev: map<int, StaticTrain>)
    requires |ts| > 0
    requires forall n :: n in prev <==> LastIndexOf(ts[..|ts| - 1], n) >= 0
    requires forall n :: n in prev ==> prev[n] == ts[..|ts| - 1][LastIndexOf(ts[..|ts| - 1], n)]
    ensures var t := ts[|ts| - 1];
            var index := prev[t.trainNumber := t];
            && (forall n :: n in index <==> LastIndexOf(ts, n) >= 0)
            && (forall n :: n in index ==> index[n] == ts[LastIndexOf(ts, n)])
  {
    var init := ts[..|ts| - 1];
    var t := ts[|ts| - 1];
    forall n
      ensures LastIndexOf(ts, n) == if n == t.trainNumber then |ts| - 1 else LastIndexOf(init, n)
    {
    }
  }

  /** Of several entries with one number, the last is the one found under
      that number; a number no entry carries is not found. */
  lemma IndexLastWins(ts: seq<StaticTrain>, j: int)
    requires 0 <= j < |ts|
    requires forall k :: j < k < |ts| ==> ts[k].trainNumber != ts[j].trainNumber
    ensures ts[j].trainNumber in BuildIndex(ts)
    ensures BuildIndex(ts)[ts[j].trainNumber] == ts[j]
  {
    assert LastIndexOf(ts, ts[j].trainNumber) == j;
  }

  /** The distinct numbers of `ns` in order of first occurrence, as
      spreading a `Set` built from `ns` yields them. */
  function Dedup(ns: seq<int>): (r: seq<int>)
    ensures forall x :: x in r <==> x in ns
    ensures forall i, j :: 0 <= i < j < |r| ==> r[i] != r[j]
    ensures forall i, j, q :: 0 <= i < j < |r| && 0 <= q < |ns| && ns[q] == r[j] ==> r[i] in ns[..q]
  {
    if |ns| == 0 then []
    else
      var init := ns[..|ns| - 1];
      var x := ns[|ns| - 1];
      assert ns == init + [x];
      var d := Dedup(init);
      if x in d then d else d + [x]
  }

  /** The numbers the realtime details are requested for. */
  function QuerySet(ts: seq<StaticTrain>): seq<int> {
    Dedup(TrainNumbers(ts))
  }
}
