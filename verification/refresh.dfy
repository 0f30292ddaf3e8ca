/** What `update_metrics` and the batch loop of `main` do to the store,
    stated on store values. */
module Refresh {
  import opened Schema
  import Chunking
  import Targets

  /** Targets are sent to the provider this many at a time. */
  const BATCH_SIZE := 50

  /** A row after a refresh has written counters `c` at instant `now`. */
  function WithMetrics(row: TweetRow, c: Counters, now: Timestamp): TweetRow {
    row.(metrics := c, lastMetricsUpdate := Some(now))
  }

  /** `update_metrics`: overwrite the counters and `lastMetricsUpdate` of
      every row whose id is `tweetId`, then log one snapshot of the same
      values, whether or not a row matched. */
  function WriteMetrics(db: Db, tweetId: string, c: Counters, now: Timestamp): Db {
    var rows := seq(|db.rows|, i requires 0 <= i < |db.rows| =>
      if db.rows[i].id == tweetId then WithMetrics(db.rows[i], c, now) else db.rows[i]);
    Db(rows, db.snapshots + [Snapshot(tweetId, now, c)])
  }

  /** A write sets the counters and `lastMetricsUpdate` of the rows with id
      `tweetId` and no other column; other rows are untouched, so the table
      is unchanged when no row matches; exactly one snapshot of the written
      values is appended, even when no row matched. */
  lemma WriteMetricsEffect(db: Db, tweetId: string, c: Counters, now: Timestamp)
    ensures var r := WriteMetrics(db, tweetId, c, now);
      && |r.rows| == |db.rows|
      && (forall i :: 0 <= i < |r.rows| ==> SameExceptMetrics(db.rows[i], r.rows[i]))
      && (forall i :: 0 <= i < |r.rows| && db.rows[i].id == tweetId ==>
            r.rows[i].metrics == c && r.rows[i].lastMetricsUpdate == Some(now))
      && (forall i :: 0 <= i < |r.rows| && db.rows[i].id != tweetId ==> r.rows[i] == db.rows[i])
      && ((forall i :: 0 <= i < |db.rows| ==> db.rows[i].id != tweetId) ==> r.rows == db.rows)
      && r.snapshots == db.snapshots + [Snapshot(tweetId, now, c)]
  {
  }

  /** The most recent snapshot logged for `id`, if any. */
  function LastSnapshotFor(snapshots: seq<Snapshot>, id: string): Option<Snapshot> {
    if snapshots == [] then None
    else if snapshots[|snapshots| - 1].tweetId == id then Some(snapshots[|snapshots| - 1])
    else LastSnapshotFor(snapshots[..|snapshots| - 1], id)
  }

  /** Every row that has a snapshot shows the counters and instant of its
      most recent one. */
  ghost predicate MirrorsLatest(db: Db) {
    forall i :: 0 <= i < |db.rows| ==>
      match LastSnapshotFor(db.snapshots, db.rows[i].id)
      case None => true
      case Some(s) => db.rows[i].metrics == s.metrics && db.rows[i].lastMetricsUpdate == Some(s.capturedAt)
  }

  /** A write keeps the rows mirroring their latest snapshot, and keeps the
      primary key unique. */
  lemma WriteKeepsInvariants(db: Db, tweetId: string, c: Counters, now: Timestamp)
    ensures MirrorsLatest(db) ==> MirrorsLatest(WriteMetrics(db, tweetId, c, now))
    ensures UniqueIds(db.rows) ==> UniqueIds(WriteMetrics(db, tweetId, c, now).rows)
  {
  }

  /** The counters written for a returned tweet: each of the five is copied
      from its key of `public_metrics` when present and is 0 when the key (or
      the whole dictionary) is missing; views come from `impression_count`. */
  function MetricsOf(t: ApiTweet): (r: Counters)
    ensures var m := t.publicMetrics.GetOr(map[]);
      && r.likes == (if "like_count" in m then m["like_count"] else 0)
      && r.retweets == (if "retweet_count" in m then m["retweet_count"] else 0)
      && r.replies == (if "reply_count" in m then m["reply_count"] else 0)
      && r.quotes == (if "quote_count" in m then m["quote_count"] else 0)
      && r.views == (if "impression_count" in m then m["impression_count"] else 0)
    ensures t.publicMetrics.GetOr(map[]) == map[] ==> r == Counters(0, 0, 0, 0, 0)
  {
    var m := t.publicMetrics.GetOr(map[]);
    Counters(
      Lookup(m, "like_count"),
      Lookup(m, "retweet_count"),
      Lookup(m, "reply_count"),
      Lookup(m, "quote_count"),
      Lookup(m, "impression_count"))
  }

  function Lookup(m: map<string, int>, key: string): int {
    if key in m then m[key] else 0
  }

  /** The row id a returned tweet is written under: the one the batch maps
      its published id to, else the published id itself. */
  function WriteTarget(idMap: map<string, string>, t: ApiTweet): string {
    if t.id in idMap then idMap[t.id] else t.id
  }

  /** `id_map` of a batch of (row id, published id) pairs: the published ids
      of the batch are its keys. */
  function IdMapOf(batch: seq<(string, string)>): (m: map<string, string>)
    ensures m.Keys == set i | 0 <= i < |batch| :: batch[i].1
  {
    if batch == [] then map[]
    else
      var n := |batch| - 1;
      var prev := IdMapOf(batch[..n]);
      assert forall i :: 0 <= i < n ==> batch[..n][i] == batch[i];
      assert (set i | 0 <= i < |batch| :: batch[i].1) == (set i | 0 <= i < n :: batch[..n][i].1) + {batch[n].1};
      prev[batch[n].1 := batch[n].0]
  }

  /** A published id repeated in a batch maps to the row id of its LAST
      pair. */
  lemma {:induction false} IdMapLastWins(batch: seq<(string, string)>, i: nat)
    requires i < |batch|
    requires forall j :: i < j < |batch| ==> batch[j].1 != batch[i].1
    ensures IdMapOf(batch)[batch[i].1] == batch[i].0
    decreases |batch|
  {
    var n := |batch| - 1;
    if i < n {
      assert batch[..n][i] == batch[i];
      IdMapLastWins(batch[..n], i);
    }
  }

  /** `ids`: the keys of `id_map` in insertion order, that is, each published
      id once, at its first occurrence. */
  function PubIds(batch: seq<(string, string)>): (ids: seq<string>)
    ensures forall p :: p in ids <==> p in IdMapOf(batch)
    ensures forall i, j :: 0 <= i < j < |ids| ==> ids[i] != ids[j]
  {
    if batch == [] then []
    else
      var n := |batch| - 1;
      var prev := PubIds(batch[..n]);
      assert forall i :: 0 <= i < n ==> batch[..n][i] == batch[i];
      if batch[n].1 in prev then prev else prev + [batch[n].1]
  }

  /** No snapshot of `log` is for the row `id`. */
  predicate Untargeted(id: string, log: seq<Snapshot>) {
    forall k :: 0 <= k < |log| ==> log[k].tweetId != id
  }

  /** Published id `p` occurs in the batch before `q` first does. */
  ghost predicate OccursFirst(batch: seq<(string, string)>, p: string, q: string) {
    exists a :: 0 <= a < |batch| && batch[a].1 == p && forall b :: 0 <= b <= a ==> batch[b].1 != q
  }

  /** `ids` lists the published ids in order of first occurrence: for any
      two of them, the earlier one occurs in the batch before the later one
      first does. */
  lemma {:induction false} PubIdsFirstOccurrence(batch: seq<(string, string)>)
    ensures forall i, j :: 0 <= i < j < |PubIds(batch)| ==> OccursFirst(batch, PubIds(batch)[i], PubIds(batch)[j])
    decreases |batch|
  {
    if batch != [] {
      var n := |batch| - 1;
      var pre := batch[..n];
      PubIdsFirstOccurrence(pre);
      var prev := PubIds(pre);
      var ids := PubIds(batch);
      assert forall b :: 0 <= b < n ==> pre[b] == batch[b];
      assert ids == prev || ids == prev + [batch[n].1];
      forall i, j | 0 <= i < j < |ids|
        ensures OccursFirst(batch, ids[i], ids[j])
      {
        assert ids[i] == prev[i];
        if j < |prev| {
          assert ids[j] == prev[j];
          assert OccursFirst(pre, prev[i], prev[j]);
          var a :| 0 <= a < |pre| && pre[a].1 == prev[i] && forall b :: 0 <= b <= a ==> pre[b].1 != prev[j];
          assert batch[a].1 == ids[i];
        } else {
          assert ids[j] == batch[n].1 && batch[n].1 !in prev;
          assert ids[i] in IdMapOf(pre);
          var a :| 0 <= a < |pre| && pre[a].1 == ids[i];
          assert batch[a].1 == ids[i];
        }
      }
    }
  }

  /** The snapshot logged for the `k`-th returned tweet of a batch, given how
      many snapshots existed before the batch. */
  function SnapshotOf(idMap: map<string, string>, t: ApiTweet, clock: nat -> Timestamp, k: nat): Snapshot {
    Snapshot(WriteTarget(idMap, t), clock(k), MetricsOf(t))
  }

  /** The inner loop: one write per returned tweet, in order. The clock is
      read once per write; its argument is the number of snapshots logged so
      far. */
  function ApplyTweets(db: Db, idMap: map<string, string>, ts: seq<ApiTweet>, clock: nat -> Timestamp): Db
    decreases |ts|
  {
    if ts == [] then db
    else
      var prev := ApplyTweets(db, idMap, ts[..|ts| - 1], clock);
      var t := ts[|ts| - 1];
      WriteMetrics(prev, WriteTarget(idMap, t), MetricsOf(t), clock(|prev.snapshots|))
  }

  /** `after` is `before` followed by one snapshot per tweet of `ts`, in
      order, each under the tweet's target row id, with its counters and the
      clock reading for its position in the log. */
  ghost predicate LogExtends(before: seq<Snapshot>, after: seq<Snapshot>,
                             idMap: map<string, string>, ts: seq<ApiTweet>, clock: nat -> Timestamp)
  {
    && |after| == |before| + |ts|
    && after[..|before|] == before
    && forall k :: 0 <= k < |ts| ==> after[|before| + k] == SnapshotOf(idMap, ts[k], clock, |before| + k)
  }

  /** The inner loop logs exactly one snapshot per returned tweet, written
      under its target id with its counters, appended after the old log; rows
      keep every column but the metrics ones. */
  lemma {:induction false} ApplyTweetsEffect(db: Db, idMap: map<string, string>, ts: seq<ApiTweet>, clock: nat -> Timestamp)
    ensures var r := ApplyTweets(db, idMap, ts, clock);
      && LogExtends(db.snapshots, r.snapshots, idMap, ts, clock)
      && |r.rows| == |db.rows|
      && (forall i :: 0 <= i < |r.rows| ==> SameExceptMetrics(db.rows[i], r.rows[i]))
    decreases |ts|
  {
    if ts != [] {
      var n := |ts| - 1;
      ApplyTweetsEffect(db, idMap, ts[..n], clock);
      var prev := ApplyTweets(db, idMap, ts[..n], clock);
      var r := ApplyTweets(db, idMap, ts, clock);
      assert r.snapshots == prev.snapshots + [SnapshotOf(idMap, ts[n], clock, |prev.snapshots|)];
      forall k | 0 <= k < |ts|
        ensures r.snapshots[|db.snapshots| + k] == SnapshotOf(idMap, ts[k], clock, |db.snapshots| + k)
      {
        if k < n {
          assert ts[..n][k] == ts[k];
        }
      }
      forall i | 0 <= i < |r.rows|
        ensures SameExceptMetrics(db.rows[i], r.rows[i])
      {
        assert SameExceptMetrics(db.rows[i], prev.rows[i]);
        assert SameExceptMetrics(prev.rows[i], r.rows[i]);
      }
    }
  }

  /** A row that no returned tweet targets comes out of the inner loop
      unchanged: every write is an UPDATE on the target's id. */
  lemma {:induction false} ApplyTweetsUntouched(db: Db, idMap: map<string, string>, ts: seq<ApiTweet>,
                                                 clock: nat -> Timestamp, i: nat)
    requires i < |db.rows|
    requires forall k :: 0 <= k < |ts| ==> WriteTarget(idMap, ts[k]) != db.rows[i].id
    ensures i < |ApplyTweets(db, idMap, ts, clock).rows|
    ensures ApplyTweets(db, idMap, ts, clock).rows[i] == db.rows[i]
    decreases |ts|
  {
    ApplyTweetsEffect(db, idMap, ts, clock);
    if ts != [] {
      var n := |ts| - 1;
      assert forall k :: 0 <= k < n ==> ts[..n][k] == ts[k];
      ApplyTweetsUntouched(db, idMap, ts[..n], clock, i);
      ApplyTweetsEffect(db, idMap, ts[..n], clock);
    }
  }

  /** The inner loop keeps the rows mirroring their latest snapshot. */
  lemma {:induction false} ApplyTweetsKeepsMirror(db: Db, idMap: map<string, string>, ts: seq<ApiTweet>, clock: nat -> Timestamp)
    requires MirrorsLatest(db)
    ensures MirrorsLatest(ApplyTweets(db, idMap, ts, clock))
    decreases |ts|
  {
    if ts != [] {
      var n := |ts| - 1;
      ApplyTweetsKeepsMirror(db, idMap, ts[..n], clock);
      var prev := ApplyTweets(db, idMap, ts[..n], clock);
      WriteKeepsInvariants(prev, WriteTarget(idMap, ts[n]), MetricsOf(ts[n]), clock(|prev.snapshots|));
    }
  }

  /** The run's state between batches: the store and the `processed` count. */
  datatype Progress = Progress(db: Db, processed: nat)

  /** The tweets of a provider answer: none when the call failed, and none
      when it succeeded without data. */
  function Returned(answer: Option<Response>): seq<ApiTweet> {
    match answer
    case None => []
    case Some(resp) => resp.data.GetOr([])
  }

  /** One iteration of the batch loop. A failed provider call skips the
      batch; otherwise every returned tweet is written and counted. */
  function RefreshBatch(st: Progress, batch: seq<(string, string)>,
                        getTweets: seq<string> -> Option<Response>, clock: nat -> Timestamp): Progress
  {
    var answer := getTweets(PubIds(batch));
    if answer.None? then st
    else
      var ts := Returned(answer);
      Progress(ApplyTweets(st.db, IdMapOf(batch), ts, clock), st.processed + |ts|)
  }

  /** The batch loop over a sequence of batches. */
  function RefreshBatches(st: Progress, batches: seq<seq<(string, string)>>,
                          getTweets: seq<string> -> Option<Response>, clock: nat -> Timestamp): Progress
    decreases |batches|
  {
    if batches == [] then st
    else RefreshBatch(RefreshBatches(st, batches[..|batches| - 1], getTweets, clock), batches[|batches| - 1], getTweets, clock)
  }

  /** The whole run of `main` after argument parsing: select targets and, if
      there are any, refresh them batch by batch. */
  function Run(db: Db, limit: int, getTweets: seq<string> -> Option<Response>, clock: nat -> Timestamp): Progress {
    var targets := Targets.FetchTargets(db.rows, limit);
    if targets == [] then Progress(db, 0)
    else RefreshBatches(Progress(db, 0), Chunking.Chunks(targets, BATCH_SIZE), getTweets, clock)
  }

  /** Total number of tweets the provider returned over the batches. */
  function TotalReturned(batches: seq<seq<(string, string)>>, getTweets: seq<string> -> Option<Response>): nat
    decreases |batches|
  {
    if batches == [] then 0
    else TotalReturned(batches[..|batches| - 1], getTweets) + |Returned(getTweets(PubIds(batches[|batches| - 1])))|
  }

  /** One batch whose provider call fails changes nothing and counts
      nothing. */
  lemma {:induction false} FailedBatchSkipped(st: Progress, batch: seq<(string, string)>,
                           getTweets: seq<string> -> Option<Response>, clock: nat -> Timestamp)
    requires getTweets(PubIds(batch)).None?
    ensures RefreshBatch(st, batch, getTweets, clock) == st
  {
  }

  /** One batch: `processed` grows by the number of returned tweets. */
  lemma {:induction false} BatchCount(st: Progress, batch: seq<(string, string)>,
                                       getTweets: seq<string> -> Option<Response>, clock: nat -> Timestamp)
    ensures RefreshBatch(st, batch, getTweets, clock).processed ==
      st.processed + |Returned(getTweets(PubIds(batch)))|
  {
  }

  /** One batch logs one snapshot per returned tweet, after the old log,
      each under the tweet's target row id with its counters. */
  lemma {:induction false} BatchLog(st: Progress, batch: seq<(string, string)>,
                                     getTweets: seq<string> -> Option<Response>, clock: nat -> Timestamp)
    ensures LogExtends(st.db.snapshots, RefreshBatch(st, batch, getTweets, clock).db.snapshots,
                       IdMapOf(batch), Returned(getTweets(PubIds(batch))), clock)
  {
    var answer := getTweets(PubIds(batch));
    if answer.Some? {
      ApplyTweetsEffect(st.db, IdMapOf(batch), Returned(answer), clock);
    } else {
      assert st.db.snapshots[..|st.db.snapshots|] == st.db.snapshots;
    }
  }

  /** Over the whole loop: `processed` is the number of tweets returned by
      the successful batches; the snapshot log only grows, by exactly
      `processed` entries; no row is added or removed and no column other
      than the metrics ones changes. */
  lemma {:induction false} BatchesEffect(db: Db, batches: seq<seq<(string, string)>>,
                                          getTweets: seq<string> -> Option<Response>, clock: nat -> Timestamp)
    ensures var r := RefreshBatches(Progress(db, 0), batches, getTweets, clock);
      && r.processed == TotalReturned(batches, getTweets)
      && |r.db.snapshots| == |db.snapshots| + r.processed
      && r.db.snapshots[..|db.snapshots|] == db.snapshots
      && |r.db.rows| == |db.rows|
      && (forall i :: 0 <= i < |db.rows| ==> SameExceptMetrics(db.rows[i], r.db.rows[i]))
    decreases |batches|
  {
    if batches != [] {
      var n := |batches| - 1;
      BatchesEffect(db, batches[..n], getTweets, clock);
      var prev := RefreshBatches(Progress(db, 0), batches[..n], getTweets, clock);
      var answer := getTweets(PubIds(batches[n]));
      if answer.Some? {
        var ts := Returned(answer);
        ApplyTweetsEffect(prev.db, IdMapOf(batches[n]), ts, clock);
        var r := RefreshBatches(Progress(db, 0), batches, getTweets, clock);
        assert r.db == ApplyTweets(prev.db, IdMapOf(batches[n]), ts, clock);
        assert r.db.snapshots[..|db.snapshots|] == r.db.snapshots[..|prev.db.snapshots|][..|db.snapshots|];
        forall i | 0 <= i < |db.rows|
          ensures SameExceptMetrics(db.rows[i], r.db.rows[i])
        {
          assert SameExceptMetrics(db.rows[i], prev.db.rows[i]);
          assert SameExceptMetrics(prev.db.rows[i], r.db.rows[i]);
        }
      }
    }
  }

  /** Over the whole loop, a row whose id no newly logged snapshot names
      is unchanged. */
  lemma {:induction false} BatchesUntouched(db: Db, batches: seq<seq<(string, string)>>,
                                             getTweets: seq<string> -> Option<Response>, clock: nat -> Timestamp, i: nat)
    requires i < |db.rows|
    requires var log := RefreshBatches(Progress(db, 0), batches, getTweets, clock).db.snapshots;
      forall k :: |db.snapshots| <= k < |log| ==> log[k].tweetId != db.rows[i].id
    ensures var r := RefreshBatches(Progress(db, 0), batches, getTweets, clock).db;
      i < |r.rows| && r.rows[i] == db.rows[i]
    decreases |batches|
  {
    BatchesEffect(db, batches, getTweets, clock);
    if batches != [] {
      var n := |batches| - 1;
      var prev := RefreshBatches(Progress(db, 0), batches[..n], getTweets, clock);
      var r := RefreshBatches(Progress(db, 0), batches, getTweets, clock);
      BatchesEffect(db, batches[..n], getTweets, clock);
      BatchLog(prev, batches[n], getTweets, clock);
      forall k | |db.snapshots| <= k < |prev.db.snapshots|
        ensures prev.db.snapshots[k].tweetId != db.rows[i].id
      {
        assert prev.db.snapshots[k] == r.db.snapshots[..|prev.db.snapshots|][k];
      }
      BatchesUntouched(db, batches[..n], getTweets, clock, i);
      var answer := getTweets(PubIds(batches[n]));
      if answer.Some? {
        var ts := Returned(answer);
        var idMap := IdMapOf(batches[n]);
        forall k | 0 <= k < |ts|
          ensures WriteTarget(idMap, ts[k]) != db.rows[i].id
        {
          assert r.db.snapshots[|prev.db.snapshots| + k] == SnapshotOf(idMap, ts[k], clock, |prev.db.snapshots| + k);
        }
        ApplyTweetsUntouched(prev.db, idMap, ts, clock, i);
      }
    }
  }

  /** Over a whole run, a row that no newly logged snapshot names keeps
      its counters and `lastMetricsUpdate`: it is unchanged. */
  lemma RunUntouched(db: Db, limit: int, getTweets: seq<string> -> Option<Response>, clock: nat -> Timestamp)
    ensures var r := Run(db, limit, getTweets, clock).db;
      && |db.snapshots| <= |r.snapshots|
      && |r.rows| == |db.rows|
      && forall i :: 0 <= i < |db.rows| && Untargeted(db.rows[i].id, r.snapshots[|db.snapshots|..]) ==>
           r.rows[i] == db.rows[i]
  {
    var targets := Targets.FetchTargets(db.rows, limit);
    if targets != [] {
      var batches := Chunking.Chunks(targets, BATCH_SIZE);
      var r := RefreshBatches(Progress(db, 0), batches, getTweets, clock).db;
      BatchesEffect(db, batches, getTweets, clock);
      forall i | 0 <= i < |db.rows| && Untargeted(db.rows[i].id, r.snapshots[|db.snapshots|..])
        ensures r.rows[i] == db.rows[i]
      {
        forall k | |db.snapshots| <= k < |r.snapshots|
          ensures r.snapshots[k].tweetId != db.rows[i].id
        {
          assert r.snapshots[k] == r.snapshots[|db.snapshots|..][k - |db.snapshots|];
        }
        BatchesUntouched(db, batches, getTweets, clock, i);
      }
    }
  }

  /** The loop keeps the rows mirroring their latest snapshot. */
  lemma {:induction false} BatchesKeepMirror(st: Progress, batches: seq<seq<(string, string)>>,
                                              getTweets: seq<string> -> Option<Response>, clock: nat -> Timestamp)
    requires MirrorsLatest(st.db)
    ensures MirrorsLatest(RefreshBatches(st, batches, getTweets, clock).db)
    decreases |batches|
  {
    if batches != [] {
      var n := |batches| - 1;
      BatchesKeepMirror(st, batches[..n], getTweets, clock);
      var prev := RefreshBatches(st, batches[..n], getTweets, clock);
      var answer := getTweets(PubIds(batches[n]));
      if answer.Some? {
        ApplyTweetsKeepsMirror(prev.db, IdMapOf(batches[n]), Returned(answer), clock);
      }
    }
  }
}
