/** Newsfeed fanout: the asynchronous path (`fanout_newsfeeds_main_task`
    splitting the followers into batches, `fanout_newsfeeds_batch_task`
    writing one feed per follower) and the synchronous one
    (`NewsFeedService.fanout_to_followers`). Follower lists are inputs; a
    dispatched task is a value appended to a sequence. */
module Fanout {
  import opened Sequences
  import opened Strings

  /** A feed row: `user` sees `tweet` in their timeline. */
  datatype NewsFeed = NewsFeed(userId: int, tweetId: int)

  /** A tweet as far as fanout is concerned: its id and its author. */
  datatype Tweet = Tweet(id: int, userId: int)

  /** One `fanout_newsfeeds_batch_task.delay(tweet_id, batch_ids)`. */
  datatype BatchTask = BatchTask(tweetId: int, followerIds: seq<int>)

  /** Python's `(n - 1) // b + 1` for `b > 0`; `//` floors, and so does
      Dafny's `/` for a positive divisor. */
  function BatchCount(n: nat, b: nat): int
    requires b > 0
  {
    (n - 1) / b + 1
  }

  /** The follower ids of a sequence of tasks, in dispatch order. */
  function FollowerIdsOf(tasks: seq<BatchTask>): seq<int> {
    if tasks == [] then [] else tasks[0].followerIds + FollowerIdsOf(tasks[1..])
  }

  lemma MulAtLeast(k: int, b: int)
    requires k >= 1 && b > 0
    ensures k * b >= b
  {
  }

  /** Quotient and remainder are unique. */
  lemma DivUnique(a: int, b: int, q: int, r: int)
    requires b > 0 && 0 <= r < b && a == q * b + r
    ensures a / b == q
  {
    var q' := a / b;
    assert a == q' * b + a % b;
    if q' < q {
      assert q * b - q' * b == (q - q') * b;
      MulAtLeast(q - q', b);
    } else if q' > q {
      assert q' * b - q * b == (q' - q) * b;
      MulAtLeast(q' - q, b);
    }
  }

  /** Shifting the count by one batch. */
  lemma BatchCountStep(n: nat, b: nat)
    requires b > 0 && n > 0
    ensures BatchCount(n, b) == 1 + BatchCount(n - Min(b, n), b)
  {
    if n > b {
      var x := n - b - 1;
      assert x == (x / b) * b + x % b;
      DivUnique(n - 1, b, x / b + 1, x % b);
    } else {
      DivUnique(n - 1, b, 0, n - 1);
      DivUnique(-1, b, -1, b - 1);
    }
  }

  /** The batches the main task dispatches, defined by recursion on the
      followers: consecutive slices of `batchSize`, the last one shorter. */
  function Dispatch(tweetId: int, ids: seq<int>, batchSize: nat): (tasks: seq<BatchTask>)
    requires batchSize > 0
    ensures FollowerIdsOf(tasks) == ids
    decreases |ids|
  {
    if ids == [] then []
    else
      var cut := Min(batchSize, |ids|);
      var rest := Dispatch(tweetId, ids[cut..], batchSize);
      assert ([BatchTask(tweetId, ids[..cut])] + rest)[1..] == rest;
      assert ids[..cut] + ids[cut..] == ids;
      [BatchTask(tweetId, ids[..cut])] + rest
  }

  /** Every batch carries the tweet and between 1 and `batchSize`
      followers; all but the last carry exactly `batchSize`. */
  lemma {:induction false} DispatchShape(tweetId: int, ids: seq<int>, batchSize: nat)
    requires batchSize > 0
    ensures forall k :: 0 <= k < |Dispatch(tweetId, ids, batchSize)| ==>
      Dispatch(tweetId, ids, batchSize)[k].tweetId == tweetId
    ensures forall k :: 0 <= k < |Dispatch(tweetId, ids, batchSize)| ==>
      1 <= |Dispatch(tweetId, ids, batchSize)[k].followerIds| <= batchSize
    ensures forall k :: 0 <= k < |Dispatch(tweetId, ids, batchSize)| - 1 ==>
      |Dispatch(tweetId, ids, batchSize)[k].followerIds| == batchSize
    decreases |ids|
  {
    if ids != [] {
      var cut := Min(batchSize, |ids|);
      DispatchShape(tweetId, ids[cut..], batchSize);
      var rest := Dispatch(tweetId, ids[cut..], batchSize);
      var tasks := Dispatch(tweetId, ids, batchSize);
      assert tasks == [BatchTask(tweetId, ids[..cut])] + rest;
      assert rest != [] ==> cut == batchSize;
      forall k | 0 <= k < |tasks|
        ensures tasks[k].tweetId == tweetId
        ensures 1 <= |tasks[k].followerIds| <= batchSize
        ensures k < |tasks| - 1 ==> |tasks[k].followerIds| == batchSize
      {
        if k > 0 {
          assert tasks[k] == rest[k - 1];
        }
      }
    }
  }

  /** The number of batches is `(n - 1) // batchSize + 1`, which is 0 for
      no followers. */
  lemma {:induction false} DispatchCount(tweetId: int, ids: seq<int>, batchSize: nat)
    requires batchSize > 0
    ensures |Dispatch(tweetId, ids, batchSize)| == BatchCount(|ids|, batchSize)
    decreases |ids|
  {
    if ids == [] {
      DivUnique(-1, batchSize, -1, batchSize - 1);
    } else {
      DispatchCount(tweetId, ids[Min(batchSize, |ids|)..], batchSize);
      BatchCountStep(|ids|, batchSize);
    }
  }

  /** One more loop turn: the slice at `index` followed by the batches of
      the rest. */
  lemma DispatchStep(tweetId: int, ids: seq<int>, batchSize: nat, index: nat)
    requires batchSize > 0 && index < |ids|
    ensures Dispatch(tweetId, ids[index..], batchSize)
      == [BatchTask(tweetId, ids[index..Min(index + batchSize, |ids|)])]
         + Dispatch(tweetId, ids[Min(index + batchSize, |ids|)..], batchSize)
  {
    assert ids[index..][Min(batchSize, |ids| - index)..] == ids[Min(index + batchSize, |ids|)..];
    assert ids[index..][..Min(batchSize, |ids| - index)] == ids[index..Min(index + batchSize, |ids|)];
  }

  /** The loop invariant of the main task: the batches dispatched so far,
      followed by the batches of the followers from `index` on, are all the
      batches. */
  predicate DispatchedSoFar(done: seq<BatchTask>, tweetId: int, ids: seq<int>, batchSize: nat, index: nat)
    requires batchSize > 0
  {
    done + Dispatch(tweetId, ids[Min(index, |ids|)..], batchSize) == Dispatch(tweetId, ids, batchSize)
  }

  /** The loop invariant carried over one turn. */
  lemma DispatchLoopStep(done: seq<BatchTask>, tweetId: int, ids: seq<int>, batchSize: nat, index: nat)
    requires batchSize > 0 && index < |ids|
    requires DispatchedSoFar(done, tweetId, ids, batchSize, index)
    ensures DispatchedSoFar(done + [BatchTask(tweetId, Slice(ids, index, index + batchSize))],
                            tweetId, ids, batchSize, index + batchSize)
  {
    DispatchStep(tweetId, ids, batchSize, index);
  }

  /** The report string of the main task. */
  function MainReport(followers: int, batches: int): string {
    IntToString(followers) + " newsfeeds going to fanout, " + IntToString(batches) + " batches created."
  }

  /** `fanout_newsfeeds_main_task`: the author's own feed is written first,
      then the followers are dispatched in slices of `batchSize`
      (`FANOUT_BATCH_SIZE`); the report's batch count is the number of
      batches actually dispatched. */
  method FanoutMainTask(tweet: Tweet, followerIds: seq<int>, batchSize: nat)
    returns (created: seq<NewsFeed>, dispatched: seq<BatchTask>, report: string)
    requires batchSize > 0
    ensures created == [NewsFeed(tweet.userId, tweet.id)]
    ensures dispatched == Dispatch(tweet.id, followerIds, batchSize)
    ensures report == MainReport(|followerIds|, |dispatched|)
  {
    created := [NewsFeed(tweet.userId, tweet.id)];
    dispatched := [];
    var index: nat := 0;
    while index < |followerIds|
      invariant DispatchedSoFar(dispatched, tweet.id, followerIds, batchSize, index)
    {
      var batch := Slice(followerIds, index, index + batchSize);
      DispatchLoopStep(dispatched, tweet.id, followerIds, batchSize, index);
      dispatched := dispatched + [BatchTask(tweet.id, batch)];
      index := index + batchSize;
    }
    assert followerIds[Min(index, |followerIds|)..] == [];
    assert dispatched == Dispatch(tweet.id, followerIds, batchSize);
    DispatchCount(tweet.id, followerIds, batchSize);
    report := MainReport(|followerIds|, BatchCount(|followerIds|, batchSize));
  }

  /** The feeds of `ids` for one tweet, in order. */
  function FeedsFor(ids: seq<int>, tweetId: int): (feeds: seq<NewsFeed>)
    ensures |feeds| == |ids|
    ensures forall k :: 0 <= k < |ids| ==> feeds[k] == NewsFeed(ids[k], tweetId)
  {
    seq(|ids|, k requires 0 <= k < |ids| => NewsFeed(ids[k], tweetId))
  }

  /** What a batch task writes, pushes to the cache, and reports. */
  datatype BatchResult = BatchResult(created: seq<NewsFeed>, pushed: seq<NewsFeed>, report: string)

  /** `fanout_newsfeeds_batch_task`: one feed per follower in input order,
      every created feed pushed to the cache (`bulk_create` sends no
      signal), and the count reported. */
  function FanoutBatchTask(task: BatchTask): (r: BatchResult)
    ensures r.pushed == r.created
    ensures |r.created| == |task.followerIds|
    ensures forall k :: 0 <= k < |task.followerIds| ==> r.created[k] == NewsFeed(task.followerIds[k], task.tweetId)
    ensures r.report == IntToString(|task.followerIds|) + " newsfeeds created."
  {
    var feeds := FeedsFor(task.followerIds, task.tweetId);
    BatchResult(feeds, feeds, IntToString(|feeds|) + " newsfeeds created.")
  }

  /** The feeds written by running every task. */
  function RunAll(tasks: seq<BatchTask>): seq<NewsFeed> {
    if tasks == [] then [] else FanoutBatchTask(tasks[0]).created + RunAll(tasks[1..])
  }

  /** Running the dispatched batches writes exactly one feed per follower,
      in follower order. */
  lemma {:induction false} RunAllFeeds(tasks: seq<BatchTask>, tweetId: int)
    requires forall k :: 0 <= k < |tasks| ==> tasks[k].tweetId == tweetId
    ensures RunAll(tasks) == FeedsFor(FollowerIdsOf(tasks), tweetId)
  {
    if tasks != [] {
      RunAllFeeds(tasks[1..], tweetId);
      var head := FanoutBatchTask(tasks[0]).created;
      var ids := FollowerIdsOf(tasks);
      assert ids == tasks[0].followerIds + FollowerIdsOf(tasks[1..]);
      assert RunAll(tasks) == head + FeedsFor(FollowerIdsOf(tasks[1..]), tweetId);
      forall k | 0 <= k < |ids|
        ensures RunAll(tasks)[k] == NewsFeed(ids[k], tweetId)
      {
        if k >= |head| {
          assert ids[k] == FollowerIdsOf(tasks[1..])[k - |head|];
        }
      }
    }
  }

  /** `NewsFeedService.fanout_to_followers`: one feed per follower, then
      the author's own, written in one bulk insert. */
  function FanoutToFollowers(tweet: Tweet, followers: seq<int>): (feeds: seq<NewsFeed>)
    ensures |feeds| == |followers| + 1
    ensures feeds[|followers|] == NewsFeed(tweet.userId, tweet.id)
    ensures forall k :: 0 <= k < |followers| ==> feeds[k] == NewsFeed(followers[k], tweet.id)
  {
    FeedsFor(followers, tweet.id) + [NewsFeed(tweet.userId, tweet.id)]
  }

  /** The task path writes the same feeds as the service, with the author's
      feed first instead of last, whatever the batch size. */
  lemma TasksMatchService(tweet: Tweet, followers: seq<int>, batchSize: nat)
    requires batchSize > 0
    ensures var service := FanoutToFollowers(tweet, followers);
      var tasks := [NewsFeed(tweet.userId, tweet.id)] + RunAll(Dispatch(tweet.id, followers, batchSize));
      && tasks == [service[|followers|]] + service[..|followers|]
      && multiset(tasks) == multiset(service)
  {
    var service := FanoutToFollowers(tweet, followers);
    DispatchShape(tweet.id, followers, batchSize);
    RunAllFeeds(Dispatch(tweet.id, followers, batchSize), tweet.id);
    assert service[..|followers|] == FeedsFor(followers, tweet.id);
    assert service == service[..|followers|] + [service[|followers|]];
  }
}
