/** `fetch_targets`: the rows that have been published, never-refreshed rows
    first and then the stalest, cut to `limit`, as (id, publishedTweetId)
    pairs. */
module Targets {
  import opened Schema

  /** The query's ORDER BY as a total preorder: a null `lastMetricsUpdate`
      sorts before every set one, set ones ascend. */
  predicate NoFresherThan(a: TweetRow, b: TweetRow) {
    a.lastMetricsUpdate.None? ||
    (b.lastMetricsUpdate.Some? && a.lastMetricsUpdate.value <= b.lastMetricsUpdate.value)
  }

  predicate StalestFirst(s: seq<TweetRow>) {
    forall i, j :: 0 <= i < j < |s| ==> NoFresherThan(s[i], s[j])
  }

  /** The WHERE clause: rows with a non-null `publishedTweetId`, in storage
      order. */
  function Published(rows: seq<TweetRow>): (r: seq<TweetRow>)
    ensures forall x :: x in r <==> x in rows && x.publishedTweetId.Some?
    ensures |r| <= |rows|
  {
    if rows == [] then []
    else if rows[0].publishedTweetId.Some? then [rows[0]] + Published(rows[1..])
    else Published(rows[1..])
  }

  /** The WHERE clause returns each published row exactly as often as the
      table holds it, and no other row. */
  lemma {:induction false} PublishedCounts(rows: seq<TweetRow>)
    ensures forall x ::
              multiset(Published(rows))[x] == (if x.publishedTweetId.Some? then multiset(rows)[x] else 0)
  {
    if rows != [] {
      PublishedCounts(rows[1..]);
      assert rows == [rows[0]] + rows[1..];
    }
  }

  /** Places `x` into an ordered sequence, before the first row that is not
      staler than it. */
  function Insert(x: TweetRow, s: seq<TweetRow>): (r: seq<TweetRow>)
    requires StalestFirst(s)
    ensures multiset(r) == multiset(s) + multiset{x}
    ensures StalestFirst(r)
  {
    if s == [] then [x]
    else if NoFresherThan(x, s[0]) then
      ConsOrdered(x, s);
      [x] + s
    else
      var rest := Insert(x, s[1..]);
      assert s == [s[0]] + s[1..];
      HeadBeforeAll(s[0], s[1..], x, rest);
      ConsOrdered(s[0], rest);
      [s[0]] + rest
  }

  /** A row no fresher than the head of an ordered sequence may be put in
      front of it. */
  lemma ConsOrdered(h: TweetRow, s: seq<TweetRow>)
    requires StalestFirst(s)
    requires s == [] || NoFresherThan(h, s[0])
    ensures StalestFirst([h] + s)
  {
  }

  /** The head of an ordered sequence `[h] + t` stays no fresher than the
      first row of any rearrangement of `t` plus a row `x` fresher than `h`. */
  lemma HeadBeforeAll(h: TweetRow, t: seq<TweetRow>, x: TweetRow, rest: seq<TweetRow>)
    requires StalestFirst([h] + t)
    requires !NoFresherThan(x, h)
    requires multiset(rest) == multiset(t) + multiset{x}
    ensures rest == [] || NoFresherThan(h, rest[0])
  {
    if rest != [] {
      assert rest[0] in multiset(rest);
      if rest[0] != x {
        assert rest[0] in multiset(t);
        var k :| 0 <= k < |t| && t[k] == rest[0];
        var ht := [h] + t;
        assert ht[0] == h && ht[k + 1] == t[k];
        assert NoFresherThan(ht[0], ht[k + 1]);
      }
    }
  }

  /** The ORDER BY: the rows rearranged stalest first. */
  function SortStalestFirst(s: seq<TweetRow>): (r: seq<TweetRow>)
    ensures multiset(r) == multiset(s)
    ensures StalestFirst(r)
  {
    if s == [] then []
    else
      assert s == [s[0]] + s[1..];
      Insert(s[0], SortStalestFirst(s[1..]))
  }

  /** The rows the query returns: filtered, ordered, then LIMIT applied. A
      negative LIMIT puts no bound on the result, as in SQLite. */
  function Selection(rows: seq<TweetRow>, limit: int): seq<TweetRow> {
    var ordered := SortStalestFirst(Published(rows));
    if limit < 0 || limit >= |ordered| then ordered else ordered[..limit]
  }

  /** The pairs handed to the batch loop. */
  function FetchTargets(rows: seq<TweetRow>, limit: int): (r: seq<(string, string)>)
    ensures limit >= 0 ==> |r| <= limit
    ensures forall k :: 0 <= k < |r| ==>
      exists x :: x in rows && x.publishedTweetId.Some? && r[k] == (x.id, x.publishedTweetId.value)
  {
    var sel := Selection(rows, limit);
    SelectionFacts(rows, limit);
    seq(|sel|, k requires 0 <= k < |sel| => (sel[k].id, sel[k].publishedTweetId.value))
  }

  /** The selection has `limit` rows, or every published row when fewer
      exist (all of them when `limit` is negative); each is a published row
      of the table; and it is ordered stalest first. */
  lemma SelectionFacts(rows: seq<TweetRow>, limit: int)
    ensures var sel := Selection(rows, limit);
      && |sel| == (if limit < 0 || limit >= |Published(rows)| then |Published(rows)| else limit)
      && (forall x :: x in sel ==> x in rows && x.publishedTweetId.Some?)
      && StalestFirst(sel)
  {
    var ordered := SortStalestFirst(Published(rows));
    assert |ordered| == |multiset(ordered)| == |Published(rows)|;
    var sel := Selection(rows, limit);
    forall x | x in sel
      ensures x in rows && x.publishedTweetId.Some?
    {
      assert x in multiset(ordered);
    }
  }

  /** The LIMIT only drops rows: no row is selected more often than the
      WHERE clause returns it. */
  lemma SelectionWithinPublished(rows: seq<TweetRow>, limit: int)
    ensures multiset(Selection(rows, limit)) <= multiset(Published(rows))
  {
    var ordered := SortStalestFirst(Published(rows));
    if !(limit < 0 || limit >= |ordered|) {
      PrefixWithin(ordered, limit);
    }
  }

  /** A prefix holds no element more often than the whole sequence. */
  lemma PrefixWithin<T>(s: seq<T>, n: nat)
    requires n <= |s|
    ensures multiset(s[..n]) <= multiset(s)
  {
    assert s == s[..n] + s[n..];
    assert multiset(s) == multiset(s[..n]) + multiset(s[n..]);
  }

  /** The LIMIT keeps the stalest rows: every published row left out is no
      staler than any row selected. */
  lemma {:induction false} LimitKeepsStalest(rows: seq<TweetRow>, limit: int, x: TweetRow, y: TweetRow)
    requires x in rows && x.publishedTweetId.Some?
    requires x !in Selection(rows, limit)
    requires y in Selection(rows, limit)
    ensures NoFresherThan(y, x)
  {
    var ordered := SortStalestFirst(Published(rows));
    assert x in multiset(ordered);
    var j :| 0 <= j < |ordered| && ordered[j] == x;
    var sel := Selection(rows, limit);
    var i :| 0 <= i < |sel| && sel[i] == y;
    assert sel == ordered[..|sel|];
    assert j >= |sel|;
    assert ordered[i] == y;
  }

  /** Every published row of the table is selected, exactly as often as it
      occurs in the table, when the limit allows for all of them. */
  lemma SelectionComplete(rows: seq<TweetRow>, limit: int)
    requires limit < 0 || limit >= |Published(rows)|
    ensures forall x ::
              multiset(Selection(rows, limit))[x] == (if x.publishedTweetId.Some? then multiset(rows)[x] else 0)
  {
    PublishedCounts(rows);
  }
}
