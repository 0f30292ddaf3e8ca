/** The metrics-refresh script over a live store: `update_metrics` and the
    batch loop of `main` as methods that change the tweets table and the
    snapshot log in place. */
module Store {
  import opened Schema
  import Chunking
  import Targets
  import opened Refresh

  /** Builds `id_map` (published id to row id, the last pair winning) and
      `ids` (its keys in insertion order) for one batch. */
  method BuildIdMap(batch: seq<(string, string)>) returns (idMap: map<string, string>, ids: seq<string>)
    ensures idMap == IdMapOf(batch)
    ensures ids == PubIds(batch)
  {
    idMap, ids := map[], [];
    for k := 0 to |batch|
      invariant idMap == IdMapOf(batch[..k])
      invariant ids == PubIds(batch[..k])
    {
      assert batch[..k + 1][..k] == batch[..k];
      var (rowId, pubId) := batch[k];
      if pubId !in idMap {
        ids := ids + [pubId];
      }
      idMap := idMap[pubId := rowId];
    }
    assert batch[..|batch|] == batch;
  }

  /** The database connection's two tables. */
  class MetricsDb {
    var rows: seq<TweetRow>
    var snapshots: seq<Snapshot>

    function Model(): Db
      reads this
    {
      Db(rows, snapshots)
    }

    constructor (rows: seq<TweetRow>, snapshots: seq<Snapshot>)
      ensures Model() == Db(rows, snapshots)
    {
      this.rows := rows;
      this.snapshots := snapshots;
    }

    /** `update_metrics`: the UPDATE of the matching row, then the INSERT of
        the snapshot, both stamped `now`. */
    method UpdateMetrics(tweetId: string, c: Counters, now: Timestamp)
      modifies this
      ensures Model() == WriteMetrics(old(Model()), tweetId, c, now)
      ensures old(MirrorsLatest(Model())) ==> MirrorsLatest(Model())
      ensures UniqueIds(old(rows)) ==> UniqueIds(rows)
    {
      WriteKeepsInvariants(Model(), tweetId, c, now);
      var next := WriteMetrics(Model(), tweetId, c, now);
      rows, snapshots := next.rows, next.snapshots;
    }

    /** One iteration of the batch loop of `main`: build the id map, ask the
        provider, skip the batch if the call fails, otherwise write and count
        every returned tweet. The clock is read for each write with the
        number of snapshots logged so far. */
    method ProcessBatch(batch: seq<(string, string)>, processed: nat,
                        getTweets: seq<string> -> Option<Response>, clock: nat -> Timestamp)
      returns (count: nat)
      modifies this
      ensures Progress(Model(), count) ==
        RefreshBatch(Progress(old(Model()), processed), batch, getTweets, clock)
    {
      count := processed;
      var idMap, ids := BuildIdMap(batch);
      var answer := getTweets(ids);
      if answer.None? {
        return;
      }
      var tweets := answer.value.data.GetOr([]);
      for k := 0 to |tweets|
        invariant Model() == ApplyTweets(old(Model()), idMap, tweets[..k], clock)
        invariant count == processed + k
      {
        assert tweets[..k + 1][..k] == tweets[..k];
        var t := tweets[k];
        UpdateMetrics(WriteTarget(idMap, t), MetricsOf(t), clock(|snapshots|));
        count := count + 1;
      }
      assert tweets[..|tweets|] == tweets;
    }

    /** The batch loop of `main`: the targets in chunks of 50, one
        `ProcessBatch` each. */
    method RefreshTargets(targets: seq<(string, string)>,
                          getTweets: seq<string> -> Option<Response>, clock: nat -> Timestamp)
      returns (processed: nat)
      modifies this
      ensures Progress(Model(), processed) ==
        RefreshBatches(Progress(old(Model()), 0), Chunking.Chunks(targets, BATCH_SIZE), getTweets, clock)
    {
      var batches := Chunking.Chunked(targets, BATCH_SIZE);
      processed := 0;
      for b := 0 to |batches|
        invariant Progress(Model(), processed) ==
          RefreshBatches(Progress(old(Model()), 0), batches[..b], getTweets, clock)
      {
        assert batches[..b + 1][..b] == batches[..b];
        processed := ProcessBatch(batches[b], processed, getTweets, clock);
      }
      assert batches[..|batches|] == batches;
    }

    /** `main` after argument parsing: select the targets and, when there
        are any, refresh them. The snapshot log only grows, by one entry per
        tweet counted; no row is added or removed and only the metrics
        columns change, only on rows some new snapshot names; rows keep
        mirroring their latest snapshot. */
    method Run(limit: int, getTweets: seq<string> -> Option<Response>, clock: nat -> Timestamp)
      returns (processed: nat)
      modifies this
      ensures Progress(Model(), processed) == Refresh.Run(old(Model()), limit, getTweets, clock)
      ensures processed ==
        TotalReturned(Chunking.Chunks(Targets.FetchTargets(old(rows), limit), BATCH_SIZE), getTweets)
      ensures |snapshots| == |old(snapshots)| + processed
      ensures snapshots[..|old(snapshots)|] == old(snapshots)
      ensures |rows| == |old(rows)|
      ensures forall i :: 0 <= i < |rows| ==> SameExceptMetrics(old(rows)[i], rows[i])
      ensures forall i :: 0 <= i < |rows| && Untargeted(old(rows)[i].id, snapshots[|old(snapshots)|..]) ==>
                rows[i] == old(rows)[i]
      ensures old(MirrorsLatest(Model())) ==> MirrorsLatest(Model())
      ensures UniqueIds(old(rows)) ==> UniqueIds(rows)
    {
      RunUntouched(Model(), limit, getTweets, clock);
      var targets := Targets.FetchTargets(rows, limit);
      if targets == [] {
        assert snapshots[..|snapshots|] == snapshots;
        return 0;
      }
      var batches := Chunking.Chunks(targets, BATCH_SIZE);
      BatchesEffect(Model(), batches, getTweets, clock);
      if MirrorsLatest(Model()) {
        BatchesKeepMirror(Progress(Model(), 0), batches, getTweets, clock);
      }
      ghost var before := rows;
      processed := RefreshTargets(targets, getTweets, clock);
      assert forall i :: 0 <= i < |rows| ==> rows[i].id == before[i].id;
    }
  }
}
