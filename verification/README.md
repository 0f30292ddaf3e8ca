# Engagement-metrics refresh, modelled in Dafny

This project models the metrics refresher of the tweet curation pipeline, the
script `scripts/fetch_metrics.py`. That script picks tweets that have been
published, stalest first. It asks the X API for their public counters in
batches of 50. For each returned tweet it overwrites the five counters and
`lastMetricsUpdate` on the tweet's row, and it appends a row to the snapshot
history.

Modules, one per concern of the script:

- `Schema` (`schema.dfy`): the rows of the `tweets` and
  `tweet_metrics_snapshots` tables, the provider's answer, and the store as a
  value (`Db`). Timestamps are integers counting whole seconds.
- `Chunking` (`chunking.dfy`): `chunked`. `Chunks` is the specification.
  `Chunked` is the generator's loop, proved equal to it.
- `Targets` (`targets.dfy`): the `fetch_targets` query as pure functions:
  - the WHERE clause is `Published`;
  - the ORDER BY is `SortStalestFirst`, an insertion sort by the preorder
    `NoFresherThan` (a null `lastMetricsUpdate` comes first, then ascending);
  - the LIMIT is applied in `Selection`;
  - the projection is `FetchTargets`.
- `Refresh` (`refresh.dfy`): what `update_metrics` and the batch loop do, as
  functions on store values. These are `WriteMetrics`, `IdMapOf`/`PubIds`
  (`id_map` and `ids`), `MetricsOf`, `WriteTarget`, `ApplyTweets` (the inner
  loop), `RefreshBatch`, `RefreshBatches` and `Run`, with the lemmas about
  them.
- `Store` (`store.dfy`): the live database as a class `MetricsDb` with
  fields `rows` and `snapshots`. Its methods `UpdateMetrics`, `ProcessBatch`
  (one iteration of the batch loop), `RefreshTargets` (the batch loop) and
  `Run` change those fields in place. Each is proved to equal the matching
  `Refresh` function. `BuildIdMap` is the loop that builds `id_map` and
  `ids`.

External parts become parameters:
- The provider call `client.get_tweets` is a function
  `getTweets: seq<string> -> Option<Response>`. `None` stands for the
  exception the loop catches. A `Response` whose `data` is absent counts as
  no tweets.
- `datetime.now` is a function `clock: nat -> Timestamp`. Each write reads it
  once, with the number of snapshots logged so far as its argument.

The tweets table is a sequence of rows in storage order, not a map. The query
scans the table, and `UPDATE … WHERE id = ?` applies to every row that
matches. Uniqueness of `id` (the primary key) is a property the methods
preserve, not a precondition.

Choices the code makes, which the model follows:
- Which tweets get refreshed is decided only by the query's order (never
  refreshed first, then oldest `lastMetricsUpdate`) and its limit. No age
  threshold or other staleness rule is applied.
- Counters are whatever integers the provider returns. The code does not
  check that they are non-negative, and neither does the model.
- A `LIMIT` below zero means no limit, as in SQLite.
- A chunk size below 1 yields one-item chunks, as the Python loop does.

## Model

| member | source | states |
|---|---|---|
| `Chunking.Chunked` | scripts/fetch_metrics.py:128-136 | the generator's loop yields exactly the chunks `Chunks(xs, size)` |
| `Chunking.FlattenChunks` | scripts/fetch_metrics.py:128-136 | concatenating the chunks gives back the input exactly |
| `Chunking.ChunkSizes` | scripts/fetch_metrics.py:129-136 | the empty input, and only it, gives no chunks; every chunk is non-empty with at most `size` items (1 when `size` < 1); every chunk but the last has exactly that many |
| `Chunking.ChunksAppend` | scripts/fetch_metrics.py:130-134 | after a prefix of whole chunks, a further 1..`size` items form exactly one more chunk |
| `Targets.Published` | scripts/fetch_metrics.py:71-73 | a row is kept iff its `publishedTweetId` is non-null; nothing is added |
| `Targets.PublishedCounts` | scripts/fetch_metrics.py:71-73 | the WHERE clause returns each published row exactly as many times as the table holds it, and no unpublished row |
| `Targets.Insert` | scripts/fetch_metrics.py:74-76 | inserting a row into an ordered sequence keeps it ordered stalest first and adds exactly that row |
| `Targets.SortStalestFirst` | scripts/fetch_metrics.py:74-76 | the result is a permutation of the input, with every null `lastMetricsUpdate` before every set one and set ones non-decreasing |
| `Targets.FetchTargets` | scripts/fetch_metrics.py:68-81 | for `limit` >= 0, at most `limit` pairs; each pair is `(id, publishedTweetId)` of a table row whose `publishedTweetId` is non-null |
| `Targets.SelectionFacts` | scripts/fetch_metrics.py:71-79 | the selection has `min(limit, published rows)` rows (all published rows when `limit` < 0); each is a published row of the table; it is ordered nulls first, then ascending timestamps |
| `Targets.SelectionWithinPublished` | scripts/fetch_metrics.py:71-77 | the selection is a sub-multiset of the published rows: the LIMIT drops rows and never repeats one (with `PublishedCounts`, no row is selected more often than the table holds it) |
| `Targets.LimitKeepsStalest` | scripts/fetch_metrics.py:74-77 | every published row the LIMIT leaves out is no staler than any selected row |
| `Targets.SelectionComplete` | scripts/fetch_metrics.py:72-77 | when the limit allows, the selection holds each published row exactly as many times as the table does, and no other row |
| `Refresh.WriteMetricsEffect` | scripts/fetch_metrics.py:93-125 | a write sets the five counters and `lastMetricsUpdate` of the rows with that id to the given values; every other column, and every other row, is unchanged; the table is unchanged when no row matches; exactly one snapshot with the same id, counters and timestamp is appended, even when no row matched |
| `Refresh.WriteKeepsInvariants` | scripts/fetch_metrics.py:93-125 | a write keeps every row mirroring the counters and time of its latest snapshot, and keeps `id` unique |
| `Refresh.MetricsOf` | scripts/fetch_metrics.py:178-183 | each counter is the value under its key in `public_metrics` (`like_count`, `retweet_count`, `reply_count`, `quote_count`, `impression_count` for views) when that key is present, and 0 when it is absent; a missing or empty `public_metrics` gives all-zero counters |
| `Refresh.IdMapOf` | scripts/fetch_metrics.py:164 | the keys of `id_map` are exactly the batch's published ids |
| `Refresh.IdMapLastWins` | scripts/fetch_metrics.py:164 | a published id repeated in a batch maps to the row id of its last pair |
| `Refresh.PubIds` | scripts/fetch_metrics.py:165 | `ids` holds each key of `id_map` exactly once, and nothing else |
| `Refresh.PubIdsFirstOccurrence` | scripts/fetch_metrics.py:164-165 | `ids` lists the published ids in order of first occurrence in the batch: of any two, the earlier one occurs before the later one first does |
| `Refresh.ApplyTweetsEffect` | scripts/fetch_metrics.py:177-193 | the inner loop appends one snapshot per returned tweet, in order, under `id_map[pub_id]` or else the tweet's own id, after the untouched old log; rows change only in metrics columns |
| `Refresh.ApplyTweetsKeepsMirror` | scripts/fetch_metrics.py:177-193 | the inner loop keeps every row mirroring its latest snapshot |
| `Refresh.ApplyTweetsUntouched` | scripts/fetch_metrics.py:177-193 | a row whose id no returned tweet targets comes out of the inner loop unchanged |
| `Refresh.FailedBatchSkipped` | scripts/fetch_metrics.py:166-174 | a batch whose provider call fails causes no write and adds nothing to `processed` |
| `Refresh.BatchCount` | scripts/fetch_metrics.py:176-193 | a batch adds the number of returned tweets to `processed` (0 when the call fails or returns no data) |
| `Refresh.BatchLog` | scripts/fetch_metrics.py:176-193 | a batch logs exactly one snapshot per returned tweet after the old log, under its target row id, with its counters and the clock reading for its position |
| `Refresh.BatchesEffect` | scripts/fetch_metrics.py:163-195 | over the loop, `processed` equals the total number of tweets returned by successful batches; the snapshot log only grows, by exactly `processed` entries; no row is added or removed, and only metrics columns change |
| `Refresh.BatchesKeepMirror` | scripts/fetch_metrics.py:163-195 | over the loop, every row keeps mirroring its latest snapshot |
| `Refresh.BatchesUntouched` | scripts/fetch_metrics.py:163-195 | over the loop, a row whose id no newly logged snapshot names is unchanged, counters and `lastMetricsUpdate` included |
| `Refresh.RunUntouched` | scripts/fetch_metrics.py:155-197 | over a whole run, the log only grows, no row is added or removed, and a row whose id no new snapshot names is unchanged |
| `Store.BuildIdMap` | scripts/fetch_metrics.py:164-165 | the loop builds exactly `IdMapOf(batch)` and `PubIds(batch)` |
| `Store.MetricsDb.constructor` | scripts/fetch_metrics.py:152-153 | the connection opens on the given tables |
| `Store.MetricsDb.UpdateMetrics` | scripts/fetch_metrics.py:84-125 | the new tables are `WriteMetrics` of the old ones; it keeps rows mirroring their latest snapshot, and keeps `id` unique |
| `Store.MetricsDb.ProcessBatch` | scripts/fetch_metrics.py:164-195 | one iteration of the batch loop leaves the tables and count `RefreshBatch` gives |
| `Store.MetricsDb.RefreshTargets` | scripts/fetch_metrics.py:161-195 | the loop over chunks of 50 targets leaves the tables and count `RefreshBatches` gives |
| `Store.MetricsDb.Run` | scripts/fetch_metrics.py:155-197 | the run equals `Refresh.Run`; `processed` is the number of tweets returned by successful batches; the log grows by exactly `processed` snapshots and its old part is untouched; rows are neither added nor removed and change only in metrics columns; a row whose id no new snapshot names is unchanged; the mirroring invariant and id uniqueness are kept |

## Left out

- `get_client`: reads environment variables and a token file, builds the
  API client, and may exit. This is configuration and I/O. It is not modelled.
- The provider call itself: rate-limit waiting, Tweepy's exception types,
  and the request fields. The model sees only "failed" or "answered with
  these tweets".
- The provider is a function of the id list alone, so equal id lists get
  equal answers within a run. Answers that vary over time for the same ids
  are not captured. The same ids are asked twice only when a published id is
  repeated across batches.
- `int(...)` of a metric value that is not numeric raises and ends the run.
  The model takes metric values as integers.
- SQLite specifics: the connection, `row_factory`, the `commit` after each
  batch, and what a crash between commits leaves behind.
- Stored timestamps that `datetime()` cannot parse. Such a value is not
  NULL, so the first ORDER BY key puts it after every NULL row; its
  `datetime()` is NULL, so it sorts before every parsable timestamp. The
  model's timestamps are integers, so this case does not arise.
- Sub-second precision. The script writes `isoformat()` strings with
  microseconds, but the query orders by `datetime()`, which keeps whole
  seconds. A `Timestamp` counts whole seconds, so two writes within the
  same second tie in the order, as they do in SQL. The microseconds that
  are stored but ignored by the ordering are not modelled.
- 64-bit integer bounds. Binding a Python integer outside the signed 64-bit
  range to SQLite raises `OverflowError`; this applies to `limit` and to the
  five counters. The model's integers are unbounded, so this error path is
  not modelled.
- The order among rows with equal `lastMetricsUpdate`: SQL gives none. The
  model's sort keeps storage order, but no stated property depends on it.
- A database error raised inside `update_metrics` aborts the run. It is not
  modelled.
- `argparse`, the messages printed to stdout and stderr, and the early
  return's message. The early return is modelled as a run that writes
  nothing and counts 0.
- `scripts/x_auth_bootstrap.py` entirely: an interactive OAuth 2.0 PKCE
  (RFC 7636) flow that reads stdin and writes a token file.
- The ingestion, decision, human-review and listing parts of the system.
  They are not part of this model.
