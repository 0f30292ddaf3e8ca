/** The rows of the metrics-refresh script's two tables and the values it
    exchanges with the metrics provider. */
module Schema {

  datatype Option<+T> = None | Some(value: T) {
    function GetOr(default: T): T {
      match this
      case Some(v) => v
      case None => default
    }
  }

  /** Instants are integers counting whole seconds; a larger value is a
      later instant. The stored values carry microseconds, but the query
      orders them through SQLite's `datetime()`, which keeps whole seconds
      only, so two writes within the same second are equal here. */
  type Timestamp = int

  /** The human review verdict, null in the table until a reviewer acts. */
  datatype HumanDecision = Approved | Rejected

  /** The five engagement counters written by a refresh. */
  datatype Counters = Counters(likes: int, retweets: int, replies: int, quotes: int, views: int)

  /** One row of the `tweets` table. The refresh reads `id`,
      `publishedTweetId` and `lastMetricsUpdate`, and writes `metrics`
      (the columns likesCount, retweetsCount, repliesCount, quotesCount,
      viewsCount) and `lastMetricsUpdate`; every other column is carried
      along untouched. */
  datatype TweetRow = TweetRow(
    id: string,
    text: string,
    url: string,
    quote: string,
    approved: Option<bool>,
    score: int,
    createdAt: Timestamp,
    humanDecision: Option<HumanDecision>,
    publishedTweetId: Option<string>,
    metrics: Counters,
    lastMetricsUpdate: Option<Timestamp>)

  /** One row of the append-only `tweet_metrics_snapshots` table; its
      autoincrement key is its position in the snapshot sequence. */
  datatype Snapshot = Snapshot(tweetId: string, capturedAt: Timestamp, metrics: Counters)

  /** The whole store as a value: the tweets table in storage order and the
      snapshot log in insertion order. */
  datatype Db = Db(rows: seq<TweetRow>, snapshots: seq<Snapshot>)

  /** A tweet as the provider returns it: its id and its optional
      `public_metrics` dictionary. */
  datatype ApiTweet = ApiTweet(id: string, publicMetrics: Option<map<string, int>>)

  /** A successful provider answer; `data` is absent when no tweet came back. */
  datatype Response = Response(data: Option<seq<ApiTweet>>)

  /** The `id` column is the primary key. */
  predicate UniqueIds(rows: seq<TweetRow>) {
    forall i, j :: 0 <= i < j < |rows| ==> rows[i].id != rows[j].id
  }

  /** `b` agrees with `a` on every column the metrics refresh does not write. */
  predicate SameExceptMetrics(a: TweetRow, b: TweetRow) {
    b.(metrics := a.metrics, lastMetricsUpdate := a.lastMetricsUpdate) == a
  }
}
