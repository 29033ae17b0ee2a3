/** `dispatch_once`: a bounded pool of tasks is primed, then refilled one for one as tasks
    finish, in whatever order they finish. */
module DispatchBatch {
  import opened AlertLedger

  const MAX_CONCURRENT_POSTS: nat := 10

  /** How a task ends: with an outcome, with an internal error, or not at all. */
  datatype TaskResult = Returned(outcome: DispatchOutcome) | Errored | Panicked

  datatype Bucket = DeliveredBucket | FailedBucket | UnsafeBucket | SkippedBucket

  function BucketOf(r: TaskResult): Bucket {
    match r
    case Returned(ItemDelivered) => DeliveredBucket
    case Returned(ItemFailed) => FailedBucket
    case Returned(UnsafeUrl) => UnsafeBucket
    case Returned(ClaimSkipped) => SkippedBucket
    case Errored => FailedBucket
    case Panicked => FailedBucket
  }

  /** The per-event counters of `DispatchMetrics`. */
  datatype Counts = Counts(attempted: nat, delivered: nat, failed: nat, unsafeUrlSkipped: nat, claimSkipped: nat)

  function Bumped(c: Counts, b: Bucket): Counts {
    match b
    case DeliveredBucket => c.(delivered := c.delivered + 1)
    case FailedBucket => c.(failed := c.failed + 1)
    case UnsafeBucket => c.(unsafeUrlSkipped := c.unsafeUrlSkipped + 1)
    case SkippedBucket => c.(claimSkipped := c.claimSkipped + 1)
  }

  /** The items among `items` whose task ends in bucket b. */
  function Ending(result: nat -> TaskResult, items: set<nat>, b: Bucket): set<nat> {
    set i | i in items && BucketOf(result(i)) == b
  }

  lemma EndingOneMore(result: nat -> TaskResult, items: set<nat>, i: nat, b: Bucket)
    requires i !in items
    ensures |Ending(result, items + {i}, b)|
            == |Ending(result, items, b)| + (if BucketOf(result(i)) == b then 1 else 0)
  {
    if BucketOf(result(i)) == b {
      assert Ending(result, items + {i}, b) == Ending(result, items, b) + {i};
    } else {
      assert Ending(result, items + {i}, b) == Ending(result, items, b);
    }
  }

  function Indices(n: nat): set<nat> {
    if n == 0 then {} else Indices(n - 1) + {n - 1}
  }

  lemma {:induction false} IndicesBelow(n: nat, i: nat)
    ensures i in Indices(n) <==> 0 <= i < n
  {
    if n > 0 {
      IndicesBelow(n - 1, i);
    }
  }

  /** Between two readings the counters account for the finished items and nothing else. */
  ghost predicate Accounted(before: Counts, after: Counts, result: nat -> TaskResult, finished: set<nat>,
                            started: nat) {
    after == Counts(
      before.attempted + started,
      before.delivered + |Ending(result, finished, DeliveredBucket)|,
      before.failed + |Ending(result, finished, FailedBucket)|,
      before.unsafeUrlSkipped + |Ending(result, finished, UnsafeBucket)|,
      before.claimSkipped + |Ending(result, finished, SkippedBucket)|)
  }

  lemma FinishedOneMore(before: Counts, after: Counts, result: nat -> TaskResult, finished: set<nat>, started: nat,
                        i: nat)
    requires Accounted(before, after, result, finished, started) && i !in finished
    ensures Accounted(before, Bumped(after, BucketOf(result(i))), result, finished + {i}, started)
  {
    EndingOneMore(result, finished, i, DeliveredBucket);
    EndingOneMore(result, finished, i, FailedBucket);
    EndingOneMore(result, finished, i, UnsafeBucket);
    EndingOneMore(result, finished, i, SkippedBucket);
  }

  lemma StartedOneMore(before: Counts, after: Counts, result: nat -> TaskResult, finished: set<nat>, started: nat)
    requires Accounted(before, after, result, finished, started)
    ensures Accounted(before, after.(attempted := after.attempted + 1), result, finished, started + 1)
  {
  }

  /** Which items are in flight and which are finished, once `n` were started. */
  ghost predicate Split(n: nat, tasks: set<nat>, finished: set<nat>) {
    tasks + finished == Indices(n) && tasks !! finished && |tasks| <= MAX_CONCURRENT_POSTS
  }

  lemma SpawnKeepsSplit(n: nat, tasks: set<nat>, finished: set<nat>)
    requires Split(n, tasks, finished) && |tasks| < MAX_CONCURRENT_POSTS
    ensures n !in tasks && Split(n + 1, tasks + {n}, finished)
  {
    IndicesBelow(n, n);
    assert n !in tasks + finished;
    assert Indices(n + 1) == Indices(n) + {n};
    assert |tasks + {n}| == |tasks| + 1;
  }

  lemma JoinKeepsSplit(n: nat, tasks: set<nat>, finished: set<nat>, i: nat)
    requires Split(n, tasks, finished) && i in tasks
    ensures i !in finished && Split(n, tasks - {i}, finished + {i}) && |tasks - {i}| == |tasks| - 1
  {
    assert tasks - {i} + (finished + {i}) == tasks + finished;
  }

  /** The task set of one cycle with the counters it updates. Item i is the i-th pending
      match and `result(i)` is how its task ends. */
  class TaskPool {
    const pending: nat
    const result: nat -> TaskResult
    ghost const before: Counts
    var counts: Counts
    var tasks: set<nat>         // in flight
    var started: seq<nat>       // in the order of spawning
    var peak: nat               // most tasks ever in flight
    ghost var finished: set<nat>

    ghost predicate Valid()
      reads this
    {
      && |started| <= pending
      && (forall i | 0 <= i < |started| :: started[i] == i)
      && Split(|started|, tasks, finished)
      && |tasks| <= peak <= MAX_CONCURRENT_POSTS
      && Accounted(before, counts, result, finished, |started|)
    }

    constructor (pending: nat, result: nat -> TaskResult, counts: Counts)
      ensures Valid() && tasks == {} && started == []
      ensures this.pending == pending && this.result == result && before == counts
    {
      this.pending, this.result, this.before, this.counts := pending, result, counts, counts;
      tasks, started, peak, finished := {}, [], 0, {};
    }

    method Spawn()
      requires Valid() && |started| < pending && |tasks| < MAX_CONCURRENT_POSTS
      modifies this
      ensures Valid() && |started| == old(|started|) + 1 && tasks != {}
    {
      var n := |started|;
      SpawnKeepsSplit(n, tasks, finished);
      StartedOneMore(before, counts, result, finished, n);
      counts := counts.(attempted := counts.attempted + 1);
      tasks := tasks + {n};
      started := started + [n];
      peak := if |tasks| > peak then |tasks| else peak;
    }

    /** `join_next`: any task in flight may be the one that finishes. */
    method JoinNext()
      requires Valid() && tasks != {}
      modifies this
      ensures Valid() && started == old(started) && |tasks| == old(|tasks|) - 1
    {
      var i :| i in tasks;
      JoinKeepsSplit(|started|, tasks, finished, i);
      FinishedOneMore(before, counts, result, finished, |started|, i);
      tasks := tasks - {i};
      finished := finished + {i};
      counts := Bumped(counts, BucketOf(result(i)));
    }
  }

  /** The items among the first n whose task ends with this result. */
  function EndingWith(result: nat -> TaskResult, n: nat, r: TaskResult): nat {
    if n == 0 then 0 else EndingWith(result, n - 1, r) + if result(n - 1) == r then 1 else 0
  }

  function EndingIn(result: nat -> TaskResult, n: nat, b: Bucket): nat {
    if n == 0 then 0 else EndingIn(result, n - 1, b) + if BucketOf(result(n - 1)) == b then 1 else 0
  }

  lemma {:induction false} EndingIsCount(result: nat -> TaskResult, n: nat, b: Bucket)
    ensures |Ending(result, Indices(n), b)| == EndingIn(result, n, b)
  {
    if n == 0 {
      assert Ending(result, Indices(0), b) == {};
    } else {
      EndingIsCount(result, n - 1, b);
      IndicesBelow(n - 1, n - 1);
      EndingOneMore(result, Indices(n - 1), n - 1, b);
    }
  }

  lemma {:induction false} BucketsOfResults(result: nat -> TaskResult, n: nat)
    ensures EndingIn(result, n, DeliveredBucket) == EndingWith(result, n, Returned(ItemDelivered))
    ensures EndingIn(result, n, UnsafeBucket) == EndingWith(result, n, Returned(UnsafeUrl))
    ensures EndingIn(result, n, SkippedBucket) == EndingWith(result, n, Returned(ClaimSkipped))
    ensures EndingIn(result, n, FailedBucket) ==
            EndingWith(result, n, Returned(ItemFailed)) + EndingWith(result, n, Errored)
            + EndingWith(result, n, Panicked)
  {
    if n > 0 {
      BucketsOfResults(result, n - 1);
    }
  }

  /** Which counter an outcome goes to: its own, and the failed one for errors and panics. */
  lemma BucketsCountResults(result: nat -> TaskResult, n: nat)
    ensures |Ending(result, Indices(n), DeliveredBucket)| == EndingWith(result, n, Returned(ItemDelivered))
    ensures |Ending(result, Indices(n), UnsafeBucket)| == EndingWith(result, n, Returned(UnsafeUrl))
    ensures |Ending(result, Indices(n), SkippedBucket)| == EndingWith(result, n, Returned(ClaimSkipped))
    ensures |Ending(result, Indices(n), FailedBucket)| ==
            EndingWith(result, n, Returned(ItemFailed)) + EndingWith(result, n, Errored)
            + EndingWith(result, n, Panicked)
  {
    BucketsOfResults(result, n);
    EndingIsCount(result, n, DeliveredBucket);
    EndingIsCount(result, n, UnsafeBucket);
    EndingIsCount(result, n, SkippedBucket);
    EndingIsCount(result, n, FailedBucket);
  }

  /** For every batch and every completion order: each pending item is started exactly once,
      in order; never more than MAX_CONCURRENT_POSTS are in flight; and the counters grow by
      exactly the number of items that end in each of them. */
  method DispatchOnce(pending: nat, result: nat -> TaskResult, before: Counts)
    returns (after: Counts, started: seq<nat>, peak: nat)
    ensures |started| == pending && forall i | 0 <= i < pending :: started[i] == i
    ensures peak <= 10
    ensures Accounted(before, after, result, Indices(pending), pending)
    ensures after.delivered == before.delivered + EndingWith(result, pending, Returned(ItemDelivered))
    ensures after.unsafeUrlSkipped == before.unsafeUrlSkipped + EndingWith(result, pending, Returned(UnsafeUrl))
    ensures after.claimSkipped == before.claimSkipped + EndingWith(result, pending, Returned(ClaimSkipped))
    ensures after.failed == before.failed + EndingWith(result, pending, Returned(ItemFailed))
                            + EndingWith(result, pending, Errored) + EndingWith(result, pending, Panicked)
    ensures after.attempted - before.attempted == pending
            == (after.delivered - before.delivered) + (after.failed - before.failed)
               + (after.unsafeUrlSkipped - before.unsafeUrlSkipped) + (after.claimSkipped - before.claimSkipped)
  {
    var pool := new TaskPool(pending, result, before);
    while |pool.tasks| < MAX_CONCURRENT_POSTS && |pool.started| < pending
      invariant pool.Valid()
      invariant |pool.started| > 0 ==> pool.tasks != {}
      decreases pending - |pool.started|
    {
      pool.Spawn();
    }
    while pool.tasks != {}
      invariant pool.Valid()
      invariant pool.tasks == {} ==> |pool.started| == pending
      decreases pending - |pool.started|, |pool.tasks|
    {
      pool.JoinNext();
      if |pool.started| < pending {
        pool.Spawn();
      }
    }
    assert pool.finished == Indices(pending);
    BucketsPartition(result, pending);
    BucketsCountResults(result, pending);
    return pool.counts, pool.started, pool.peak;
  }

  lemma {:induction false} BucketsPartition(result: nat -> TaskResult, n: nat)
    ensures n == |Ending(result, Indices(n), DeliveredBucket)| + |Ending(result, Indices(n), FailedBucket)|
                 + |Ending(result, Indices(n), UnsafeBucket)| + |Ending(result, Indices(n), SkippedBucket)|
  {
    if n == 0 {
      assert forall b :: Ending(result, Indices(0), b) == {};
    } else {
      BucketsPartition(result, n - 1);
      IndicesBelow(n - 1, n - 1);
      EndingOneMore(result, Indices(n - 1), n - 1, DeliveredBucket);
      EndingOneMore(result, Indices(n - 1), n - 1, FailedBucket);
      EndingOneMore(result, Indices(n - 1), n - 1, UnsafeBucket);
      EndingOneMore(result, Indices(n - 1), n - 1, SkippedBucket);
    }
  }
}
