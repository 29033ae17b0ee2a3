/** Rate-threshold alerts: dispatchers that list, then record, with no claim in between.
    Each dispatcher runs its cycles one after the other; the tasks of one cycle record in
    any order and at any later time. */
module RateDebounce {
  import opened Options
  import opened AlertLedger

  type SubId = int

  datatype RateSubscription = RateSubscription(
    active: bool, rateMode: bool, category: Option<string>, toAddr: Option<string>,
    threshold: nat, windowSecs: nat)

  datatype FailedRow = FailedRow(category: string, timestamp: Instant)

  datatype RateSources = RateSources(
    subscriptions: map<SubId, RateSubscription>,
    failed: map<string, FailedRow>,
    recipients: map<string, Option<string>>)

  /** A row of `alert_rate_dispatch`; `who` names the dispatcher that wrote it. */
  datatype Dispatch = Dispatch(at: Instant, who: nat, sub: SubId)

  /** The number of dispatchers and each subscription's debounce, which no statement updates. */
  datatype Config = Config(dispatchers: nat, debounceSecs: SubId -> nat)

  function Debounce(c: Config, s: SubId): int {
    c.debounceSecs(s) * MICROS_PER_SEC
  }

  function MatchingTxs(src: RateSources, s: RateSubscription, now: Instant): set<string> {
    set tx | tx in src.failed
             && (s.category.None? || s.category == Some(src.failed[tx].category))
             && (s.toAddr.None? || (tx in src.recipients && src.recipients[tx] == s.toAddr))
             && src.failed[tx].timestamp >= now - s.windowSecs * MICROS_PER_SEC
  }

  /** The NOT EXISTS clause. */
  predicate Debounced(c: Config, ds: seq<Dispatch>, s: SubId, now: Instant) {
    exists i :: 0 <= i < |ds| && ds[i].sub == s && ds[i].at > now - Debounce(c, s)
  }

  /** `find_pending_rate_alert_matches` before LIMIT. */
  predicate RatePending(c: Config, src: RateSources, ds: seq<Dispatch>, s: SubId, now: Instant) {
    && s in src.subscriptions
    && var sub := src.subscriptions[s];
    && sub.active && sub.rateMode
    && MatchingTxs(src, sub, now) != {}
    && |MatchingTxs(src, sub, now)| >= sub.threshold
    && !Debounced(c, ds, s, now)
  }

  /** A failed transaction that counts for this subscription at this time. */
  predicate Counts(src: RateSources, sub: RateSubscription, tx: string, now: Instant) {
    && tx in src.failed
    && (match sub.category case None => true case Some(c) => src.failed[tx].category == c)
    && (match sub.toAddr
        case None => true
        case Some(a) => tx in src.recipients && src.recipients[tx] == Some(a))
    && src.failed[tx].timestamp + sub.windowSecs * 1_000_000 >= now
  }

  lemma MatchingIsCounting(src: RateSources, sub: RateSubscription, tx: string, now: Instant)
    ensures tx in MatchingTxs(src, sub, now) <==> Counts(src, sub, tx, now)
  {
  }

  lemma {:induction false} SubsetSize(a: set<string>, b: set<string>)
    requires a <= b
    ensures |a| <= |b|
  {
    if a != {} {
      var x :| x in a;
      SubsetSize(a - {x}, b - {x});
    }
  }

  // -------------------------------------------------------------- the state machine

  datatype World = World(
    now: Instant,
    sources: RateSources,
    dispatches: seq<Dispatch>,
    pending: map<nat, set<SubId>>)     // per busy dispatcher: listed, not recorded yet

  datatype Step =
    | Tick(micros: nat)
    | List(who: nat, listed: set<SubId>)
    | Record(who: nat, sub: SubId)
    | EndCycle(who: nat)                // all recorded, or the rest failed or died
    | Reindex(sources: RateSources)

  ghost predicate Enabled(c: Config, w: World, step: Step) {
    match step
    case Tick(_) => true
    case List(d, listed) =>
      d < c.dispatchers && d !in w.pending
      && forall s | s in listed :: RatePending(c, w.sources, w.dispatches, s, w.now)
    case Record(d, s) => d in w.pending && s in w.pending[d]
    case EndCycle(d) => d in w.pending
    case Reindex(_) => true
  }

  function Apply(w: World, step: Step): World {
    match step
    case Tick(n) => w.(now := w.now + n)
    case List(d, listed) => w.(pending := w.pending[d := listed])
    case Record(d, s) =>
      w.(dispatches := w.dispatches + [Dispatch(w.now, d, s)],
         pending := if d in w.pending then w.pending[d := w.pending[d] - {s}] else w.pending)
    case EndCycle(d) => w.(pending := w.pending - {d})
    case Reindex(src) => w.(sources := src)
  }

  ghost function Run(c: Config, w: World, steps: seq<Step>): Option<World> {
    if steps == [] then Some(w)
    else
      var r := Run(c, w, steps[..|steps| - 1]);
      var last := steps[|steps| - 1];
      if r.Some? && Enabled(c, r.value, last) then Some(Apply(r.value, last)) else None
  }

  /** At least `threshold` failed transactions, and at least one, count for the subscription. */
  ghost predicate ThresholdReached(src: RateSources, s: SubId, now: Instant, txs: set<string>) {
    && s in src.subscriptions
    && src.subscriptions[s].active && src.subscriptions[s].rateMode
    && txs != {} && |txs| >= src.subscriptions[s].threshold
    && forall tx | tx in txs :: Counts(src, src.subscriptions[s], tx, now)
  }

  /** No record of the subscription, by anyone, is younger than its debounce. */
  ghost predicate Quiet(c: Config, w: World, s: SubId) {
    forall i | 0 <= i < |w.dispatches| && w.dispatches[i].sub == s ::
      w.dispatches[i].at + c.debounceSecs(s) * 1_000_000 <= w.now
  }

  /** Over every run: what a cycle lists has reached its threshold at that instant, within its
      window, category and recipient, and nothing was recorded for it within its debounce. */
  lemma ListedHasReachedThreshold(c: Config, w: World, steps: seq<Step>, d: nat, listed: set<SubId>, s: SubId)
    returns (txs: set<string>)
    requires Run(c, w, steps + [List(d, listed)]).Some? && s in listed
    ensures Run(c, w, steps).Some?
    ensures var v := Run(c, w, steps).value; ThresholdReached(v.sources, s, v.now, txs) && Quiet(c, v, s)
  {
    assert (steps + [List(d, listed)])[..|steps|] == steps;
    var v := Run(c, w, steps).value;
    assert RatePending(c, v.sources, v.dispatches, s, v.now);
    txs := MatchingTxs(v.sources, v.sources.subscriptions[s], v.now);
    forall tx | tx in txs ensures Counts(v.sources, v.sources.subscriptions[s], tx, v.now) {
      MatchingIsCounting(v.sources, v.sources.subscriptions[s], tx, v.now);
    }
    assert !Debounced(c, v.dispatches, s, v.now);
  }

  /** And conversely: whatever has reached its threshold and is quiet can be listed by every
      dispatcher that is not busy. */
  lemma ThresholdCanBeListed(c: Config, w: World, d: nat, s: SubId, txs: set<string>)
    requires ThresholdReached(w.sources, s, w.now, txs) && Quiet(c, w, s)
    requires d < c.dispatchers && d !in w.pending
    ensures Run(c, w, [List(d, {s})]).Some?
    ensures Run(c, w, [List(d, {s})]).value.pending == w.pending[d := {s}]
  {
    var sub := w.sources.subscriptions[s];
    forall tx | tx in txs ensures tx in MatchingTxs(w.sources, sub, w.now) {
      MatchingIsCounting(w.sources, sub, tx, w.now);
    }
    SubsetSize(txs, MatchingTxs(w.sources, sub, w.now));
    var x :| x in txs;
    assert x in MatchingTxs(w.sources, sub, w.now);
    assert !Debounced(c, w.dispatches, s, w.now);
    assert RatePending(c, w.sources, w.dispatches, s, w.now);
    assert [List(d, {s})][..0] == [];
    assert Run(c, w, []) == Some(w);
  }

  /** A dispatcher that has ended its cycle can start the next one. */
  lemma EndedCycleCanListAgain(c: Config, w: World, d: nat, s: SubId, txs: set<string>)
    requires ThresholdReached(w.sources, s, w.now, txs) && Quiet(c, w, s)
    requires d < c.dispatchers && d in w.pending
    ensures Run(c, w, [EndCycle(d)] + [List(d, {s})]).Some?
  {
    var steps := [EndCycle(d)] + [List(d, {s})];
    var v := Apply(w, EndCycle(d));
    ThresholdCanBeListed(c, v, d, s, txs);
    assert [List(d, {s})][..0] == [] && Run(c, v, []) == Some(v);
    assert Enabled(c, v, List(d, {s}));
    assert [EndCycle(d)][..0] == [] && Run(c, w, []) == Some(w);
    assert Run(c, w, [EndCycle(d)]) == Some(v);
    assert steps[..1] == [EndCycle(d)];
  }

  predicate Initial(w: World) {
    w.dispatches == [] && w.pending == map[]
  }

  // --------------------------------------------------------------------- invariant

  /** Two records of one subscription by one dispatcher are at least the debounce apart. */
  ghost predicate Spaced(c: Config, ds: seq<Dispatch>) {
    forall i, j | 0 <= i < j < |ds| && ds[i].sub == ds[j].sub && ds[i].who == ds[j].who ::
      ds[i].at + Debounce(c, ds[j].sub) <= ds[j].at
  }

  /** What a dispatcher is about to record is already the debounce away from its own records. */
  ghost predicate PendingSpaced(c: Config, w: World) {
    forall d, s, i | d in w.pending && s in w.pending[d] && 0 <= i < |w.dispatches|
                     && w.dispatches[i].who == d && w.dispatches[i].sub == s ::
      w.dispatches[i].at + Debounce(c, s) <= w.now
  }

  ghost predicate Inv(c: Config, w: World) {
    && Spaced(c, w.dispatches) && PendingSpaced(c, w)
    && (forall i | 0 <= i < |w.dispatches| :: w.dispatches[i].who < c.dispatchers)
    && (forall d | d in w.pending :: d < c.dispatchers)
  }

  lemma ListKeepsInv(c: Config, w: World, d: nat, listed: set<SubId>)
    requires Inv(c, w) && Enabled(c, w, List(d, listed))
    ensures Inv(c, Apply(w, List(d, listed)))
  {
    forall s, i | s in listed && 0 <= i < |w.dispatches| && w.dispatches[i].who == d && w.dispatches[i].sub == s
      ensures w.dispatches[i].at + Debounce(c, s) <= w.now
    {
      assert !Debounced(c, w.dispatches, s, w.now);
    }
  }

  lemma RecordKeepsInv(c: Config, w: World, d: nat, s: SubId)
    requires Inv(c, w) && Enabled(c, w, Record(d, s))
    ensures Inv(c, Apply(w, Record(d, s)))
  {
    var v := Apply(w, Record(d, s));
    assert forall i | 0 <= i < |w.dispatches| :: v.dispatches[i] == w.dispatches[i];
    assert Spaced(c, v.dispatches);
  }

  lemma StepKeepsInv(c: Config, w: World, step: Step)
    requires Inv(c, w) && Enabled(c, w, step)
    ensures Inv(c, Apply(w, step))
  {
    match step
    case List(d, listed) => ListKeepsInv(c, w, d, listed);
    case Record(d, s) => RecordKeepsInv(c, w, d, s);
    case Tick(_) =>
    case EndCycle(_) =>
    case Reindex(_) =>
  }

  lemma {:induction false} RunKeepsInv(c: Config, w: World, steps: seq<Step>)
    requires Initial(w) && Run(c, w, steps).Some?
    ensures Inv(c, Run(c, w, steps).value)
  {
    if steps != [] {
      var init := steps[..|steps| - 1];
      RunKeepsInv(c, w, init);
      StepKeepsInv(c, Run(c, w, init).value, steps[|steps| - 1]);
    }
  }

  // ----------------------------------------------------------------------- counting

  /** The records of subscription s in the half-open window of one debounce that starts at `a`. */
  function InWindow(c: Config, ds: seq<Dispatch>, s: SubId, a: Instant): set<nat> {
    set i: nat | i < |ds| && ds[i].sub == s && a <= ds[i].at < a + Debounce(c, s)
  }

  /** Indices whose dispatchers are pairwise different and below n number at most n. */
  lemma {:induction false} DistinctDispatchers(ds: seq<Dispatch>, indices: set<nat>, n: nat)
    requires forall i | i in indices :: i < |ds| && ds[i].who < n
    requires forall i, j | i in indices && j in indices && ds[i].who == ds[j].who :: i == j
    ensures |indices| <= n
  {
    if n == 0 {
      assert indices == {};
    } else if exists i :: i in indices && ds[i].who == n - 1 {
      var i :| i in indices && ds[i].who == n - 1;
      DistinctDispatchers(ds, indices - {i}, n - 1);
      assert |indices| == |indices - {i}| + 1;
    } else {
      DistinctDispatchers(ds, indices, n - 1);
    }
  }

  /** With N dispatchers on one table, no half-open window of one debounce holds more than N
      records of a subscription, delivered or failed. */
  lemma AtMostOnePerDispatcher(c: Config, w: World, steps: seq<Step>, s: SubId, a: Instant)
    requires Initial(w) && Run(c, w, steps).Some?
    ensures |InWindow(c, Run(c, w, steps).value.dispatches, s, a)| <= c.dispatchers
  {
    RunKeepsInv(c, w, steps);
    var ds := Run(c, w, steps).value.dispatches;
    var window := InWindow(c, ds, s, a);
    assert forall i, j | i in window && j in window && ds[i].who == ds[j].who :: i == j;
    DistinctDispatchers(ds, window, c.dispatchers);
  }

  /** A single dispatcher keeps consecutive records of a subscription a debounce apart. */
  lemma SingleDispatcherSpacing(c: Config, w: World, steps: seq<Step>, i: nat, j: nat)
    requires Initial(w) && c.dispatchers == 1 && Run(c, w, steps).Some?
    requires var ds := Run(c, w, steps).value.dispatches;
             i < j < |ds| && ds[i].sub == ds[j].sub
    ensures var ds := Run(c, w, steps).value.dispatches;
            ds[i].at + Debounce(c, ds[j].sub) <= ds[j].at
  {
    RunKeepsInv(c, w, steps);
  }

  // ------------------------------------------------------------- the bound is reached

  function Listing(s: SubId, n: nat): seq<Step> {
    if n == 0 then [] else Listing(s, n - 1) + [List(n - 1, {s})]
  }

  function Recording(s: SubId, n: nat, k: nat): seq<Step> {
    if k == 0 then Listing(s, n) else Recording(s, n, k - 1) + [Record(k - 1, s)]
  }

  lemma {:induction false} ListingRun(c: Config, w: World, s: SubId, n: nat)
    requires Initial(w) && n <= c.dispatchers
    requires RatePending(c, w.sources, [], s, w.now)
    ensures Run(c, w, Listing(s, n)).Some?
    ensures var v := Run(c, w, Listing(s, n)).value;
            && v == w.(pending := v.pending)
            && (forall d :: d in v.pending <==> 0 <= d < n)
            && (forall d | 0 <= d < n :: v.pending[d] == {s})
  {
    if n > 0 {
      ListingRun(c, w, s, n - 1);
      var steps := Listing(s, n);
      assert steps[..|steps| - 1] == Listing(s, n - 1);
      assert Enabled(c, Run(c, w, Listing(s, n - 1)).value, List(n - 1, {s}));
    }
  }

  lemma {:induction false} RecordingRun(c: Config, w: World, s: SubId, n: nat, k: nat)
    requires Initial(w) && k <= n <= c.dispatchers
    requires RatePending(c, w.sources, [], s, w.now)
    ensures Run(c, w, Recording(s, n, k)).Some?
    ensures var v := Run(c, w, Recording(s, n, k)).value;
            && v.now == w.now
            && |v.dispatches| == k
            && (forall i | 0 <= i < k :: v.dispatches[i] == Dispatch(w.now, i, s))
            && (forall d | k <= d < n :: d in v.pending && s in v.pending[d])
  {
    if k == 0 {
      ListingRun(c, w, s, n);
    } else {
      RecordingRun(c, w, s, n, k - 1);
      var steps := Recording(s, n, k);
      assert steps[..|steps| - 1] == Recording(s, n, k - 1);
    }
  }

  /** The bound is tight for every number of dispatchers: all of them can list before any of
      them records, and then all N records fall into one instant. */
  lemma BoundIsReached(c: Config, w: World, s: SubId)
    requires Initial(w) && c.debounceSecs(s) > 0
    requires RatePending(c, w.sources, [], s, w.now)
    ensures Run(c, w, Recording(s, c.dispatchers, c.dispatchers)).Some?
    ensures |InWindow(c, Run(c, w, Recording(s, c.dispatchers, c.dispatchers)).value.dispatches, s, w.now)|
            == c.dispatchers
  {
    var n := c.dispatchers;
    RecordingRun(c, w, s, n, n);
    var ds := Run(c, w, Recording(s, n, n)).value.dispatches;
    assert forall i: nat :: i in InWindow(c, ds, s, w.now) <==> i < n;
    Initials(InWindow(c, ds, s, w.now), n);
  }

  lemma {:induction false} Initials(xs: set<nat>, n: nat)
    requires forall i: nat :: i in xs <==> i < n
    ensures |xs| == n
  {
    if n == 0 {
      assert xs == {};
    } else {
      Initials(xs - {n - 1}, n - 1);
      assert |xs| == |xs - {n - 1}| + 1;
    }
  }
}
