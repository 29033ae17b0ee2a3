/** Any number of dispatch tasks share the delivery ledger while time passes,
    tasks die and the indexer rewrites the failed-transaction tables.

    A run is a list of steps. `Timely` is the hypothesis the design rests on: the
    clock never passes the stale limit of a task that is still going to act. A
    task that hangs for ever is a task that crashed after its last action. */
module AlertOutbox {
  import opened Options
  import opened AlertLedger

  /** Where a task is between its winning claim and its record. */
  datatype Phase =
    | Working            // claimed, nothing decided yet
    | Acknowledged       // the webhook answered with success
    | Refused            // unsafe URL, corrupt secret or failed POST

  datatype Task = Task(pair: Pair, claimedAt: Instant, phase: Phase)

  /** The world, with the history that the claims below are about. */
  datatype World = World(
    now: Instant,
    ledger: Ledger,
    tasks: map<nat, Task>,
    sources: Sources,
    claims: multiset<Pair>,      // winning claims
    records: multiset<Pair>,     // recorded outcomes
    acks: multiset<Pair>,        // acknowledged POSTs
    lost: multiset<Pair>)        // tasks that died between acknowledgement and record

  datatype Step =
    | Tick(micros: nat)
    | Claim(task: nat, pair: Pair)
    | Acknowledge(task: nat)
    | Refuse(task: nat)
    | Record(task: nat, error: Option<string>)
    | Crash(task: nat)
    | Reindex(sources: Sources)  // rollback, re-indexing, subscription changes

  const STALE: int := CLAIM_STALE_AFTER_SECS * MICROS_PER_SEC

  predicate Enabled(w: World, step: Step) {
    match step
    case Tick(_) => true
    case Claim(t, _) => t !in w.tasks
    case Acknowledge(t) => t in w.tasks && w.tasks[t].phase.Working?
    case Refuse(t) => t in w.tasks && w.tasks[t].phase.Working?
    case Record(t, _) => t in w.tasks && !w.tasks[t].phase.Working?
    case Crash(t) => t in w.tasks
    case Reindex(_) => true
  }

  predicate Timely(w: World, step: Step) {
    step.Tick? ==> forall t | t in w.tasks :: w.now + step.micros <= w.tasks[t].claimedAt + STALE
  }

  function Apply(w: World, step: Step): World
    requires Enabled(w, step)
  {
    match step
    case Tick(d) => w.(now := w.now + d)
    case Claim(t, p) =>
      if ClaimWins(w.ledger, p, w.now, CLAIM_STALE_AFTER_SECS) then
        w.(ledger := AfterClaim(w.ledger, p, w.now, CLAIM_STALE_AFTER_SECS),
           tasks := w.tasks[t := Task(p, w.now, Working)],
           claims := w.claims + multiset{p})
      else w
    case Acknowledge(t) =>
      w.(tasks := w.tasks[t := w.tasks[t].(phase := Acknowledged)],
         acks := w.acks + multiset{w.tasks[t].pair})
    case Refuse(t) =>
      w.(tasks := w.tasks[t := w.tasks[t].(phase := Refused)])
    case Record(t, e) =>
      var p := w.tasks[t].pair;
      w.(ledger := AfterRecord(w.ledger, p, w.now, w.tasks[t].phase.Acknowledged?, e),
         tasks := w.tasks - {t},
         records := w.records + multiset{p})
    case Crash(t) =>
      w.(tasks := w.tasks - {t},
         lost := if w.tasks[t].phase.Acknowledged? then w.lost + multiset{w.tasks[t].pair} else w.lost)
    case Reindex(src) => w.(sources := src)
  }

  predicate Initial(w: World) {
    w.ledger == map[] && w.tasks == map[]
    && w.claims == w.records == w.acks == w.lost == multiset{}
  }

  /** The world a disciplined run leads to, or None when some step of it is not possible or
      not timely there. */
  function Run(w: World, steps: seq<Step>): Option<World> {
    if steps == [] then Some(w)
    else
      var r := Run(w, steps[..|steps| - 1]);
      var last := steps[|steps| - 1];
      if r.Some? && Enabled(r.value, last) && Timely(r.value, last)
      then Some(Apply(r.value, last))
      else None
  }

  // ---------------------------------------------------------------- invariant

  predicate DeliveredIn(w: World, p: Pair) {
    p in w.ledger && w.ledger[p].status.Delivered?
  }

  ghost predicate AckPending(w: World, p: Pair) {
    exists t :: t in w.tasks && w.tasks[t].pair == p && w.tasks[t].phase.Acknowledged?
  }

  /** A live task owns a fresh claim on its pair, and it is the only one that does. */
  ghost predicate Ownership(w: World) {
    && (forall t | t in w.tasks ::
          && var k := w.tasks[t];
          && k.pair in w.ledger
          && w.ledger[k.pair].status.Claimed?
          && w.ledger[k.pair].createdAt == k.claimedAt
          && w.now <= k.claimedAt + STALE)
    && AtMostOneHolder(w)
  }

  ghost predicate AtMostOneHolder(w: World) {
    forall t, u | t in w.tasks && u in w.tasks && w.tasks[t].pair == w.tasks[u].pair :: t == u
  }

  /** Every acknowledged POST is recorded, about to be recorded, or was lost. */
  ghost predicate AcksAccounted(w: World) {
    forall p :: w.acks[p] == w.lost[p] + (if DeliveredIn(w, p) then 1 else 0) + (if AckPending(w, p) then 1 else 0)
  }

  ghost predicate AttemptsAccounted(w: World) {
    && (forall p | p in w.ledger :: w.ledger[p].attempts == w.claims[p] + w.records[p])
    && (forall p | p !in w.ledger :: w.claims[p] == 0 && w.records[p] == 0)
  }

  ghost predicate DeliveryTimeConsistent(w: World) {
    forall p | p in w.ledger :: w.ledger[p].deliveredAt.Some? <==> w.ledger[p].status.Delivered?
  }

  ghost predicate Inv(w: World) {
    Ownership(w) && AcksAccounted(w) && AttemptsAccounted(w) && DeliveryTimeConsistent(w)
  }

  // -------------------------------------------------------- one step keeps it

  /** While a task holds the pair, nobody else's claim of it can win. */
  lemma HeldPairCannotBeClaimed(w: World, t: nat)
    requires Ownership(w) && t in w.tasks
    ensures !ClaimWins(w.ledger, w.tasks[t].pair, w.now, CLAIM_STALE_AFTER_SECS)
  {
  }

  lemma ClaimKeepsOwnership(w: World, t: nat, p: Pair)
    requires Ownership(w) && Enabled(w, Claim(t, p))
    requires ClaimWins(w.ledger, p, w.now, CLAIM_STALE_AFTER_SECS)
    ensures Ownership(Apply(w, Claim(t, p)))
    ensures forall u | u in w.tasks :: w.tasks[u].pair != p
  {
    forall u | u in w.tasks ensures w.tasks[u].pair != p {
      HeldPairCannotBeClaimed(w, u);
    }
  }

  lemma ClaimKeepsAcks(w: World, t: nat, p: Pair)
    requires Ownership(w) && AcksAccounted(w) && Enabled(w, Claim(t, p))
    requires ClaimWins(w.ledger, p, w.now, CLAIM_STALE_AFTER_SECS)
    ensures AcksAccounted(Apply(w, Claim(t, p)))
  {
    var v := Apply(w, Claim(t, p));
    forall q ensures AckPending(v, q) <==> AckPending(w, q) {
      if AckPending(w, q) {
        var u :| u in w.tasks && w.tasks[u].pair == q && w.tasks[u].phase.Acknowledged?;
        assert v.tasks[u] == w.tasks[u];
      }
    }
    assert forall q :: DeliveredIn(v, q) <==> DeliveredIn(w, q);
    assert v.acks == w.acks && v.lost == w.lost;
  }

  lemma ClaimKeepsInv(w: World, t: nat, p: Pair)
    requires Inv(w) && Enabled(w, Claim(t, p))
    requires ClaimWins(w.ledger, p, w.now, CLAIM_STALE_AFTER_SECS)
    ensures Inv(Apply(w, Claim(t, p)))
  {
    ClaimKeepsOwnership(w, t, p);
    ClaimKeepsAcks(w, t, p);
  }

  lemma AcknowledgeKeepsInv(w: World, t: nat)
    requires Inv(w) && Enabled(w, Acknowledge(t))
    ensures Inv(Apply(w, Acknowledge(t)))
  {
    var v := Apply(w, Acknowledge(t));
    var p := w.tasks[t].pair;
    assert Ownership(v);
    assert v.tasks[t].phase.Acknowledged? && AckPending(v, p);
    assert !AckPending(w, p);
    forall q | q != p ensures AckPending(v, q) <==> AckPending(w, q) {
      if AckPending(w, q) {
        var u :| u in w.tasks && w.tasks[u].pair == q && w.tasks[u].phase.Acknowledged?;
        assert v.tasks[u] == w.tasks[u];
      }
    }
    assert AcksAccounted(v);
  }

  lemma RefuseKeepsInv(w: World, t: nat)
    requires Inv(w) && Enabled(w, Refuse(t))
    ensures Inv(Apply(w, Refuse(t)))
  {
    var v := Apply(w, Refuse(t));
    assert Ownership(v);
    forall q ensures AckPending(v, q) <==> AckPending(w, q) {
      if AckPending(w, q) {
        var u :| u in w.tasks && w.tasks[u].pair == q && w.tasks[u].phase.Acknowledged?;
        assert v.tasks[u] == w.tasks[u];
      }
    }
    assert AcksAccounted(v);
  }

  /** Removing task t: its pair has no acknowledgement pending any more, others are unaffected. */
  lemma RemovalReleasesPair(w: World, t: nat, v: World)
    requires Ownership(w) && t in w.tasks && v.tasks == w.tasks - {t}
    ensures !AckPending(v, w.tasks[t].pair)
    ensures AckPending(w, w.tasks[t].pair) <==> w.tasks[t].phase.Acknowledged?
    ensures forall q | q != w.tasks[t].pair :: AckPending(v, q) <==> AckPending(w, q)
  {
    forall q | q != w.tasks[t].pair ensures AckPending(v, q) <==> AckPending(w, q) {
      if AckPending(w, q) {
        var u :| u in w.tasks && w.tasks[u].pair == q && w.tasks[u].phase.Acknowledged?;
        assert u in v.tasks && v.tasks[u] == w.tasks[u];
      }
    }
  }

  lemma RecordKeepsInv(w: World, t: nat, e: Option<string>)
    requires Inv(w) && Enabled(w, Record(t, e))
    ensures Inv(Apply(w, Record(t, e)))
  {
    var v := Apply(w, Record(t, e));
    assert Ownership(v);
    RemovalReleasesPair(w, t, v);
    assert AcksAccounted(v);
  }

  lemma CrashKeepsInv(w: World, t: nat)
    requires Inv(w) && Enabled(w, Crash(t))
    ensures Inv(Apply(w, Crash(t)))
  {
    var v := Apply(w, Crash(t));
    assert Ownership(v);
    RemovalReleasesPair(w, t, v);
    assert AcksAccounted(v);
  }

  lemma StepKeepsInv(w: World, step: Step)
    requires Inv(w) && Enabled(w, step) && Timely(w, step)
    ensures Inv(Apply(w, step))
  {
    match step
    case Claim(t, p) =>
      if ClaimWins(w.ledger, p, w.now, CLAIM_STALE_AFTER_SECS) { ClaimKeepsInv(w, t, p); }
    case Acknowledge(t) => AcknowledgeKeepsInv(w, t);
    case Refuse(t) => RefuseKeepsInv(w, t);
    case Record(t, e) => RecordKeepsInv(w, t, e);
    case Crash(t) => CrashKeepsInv(w, t);
    case Tick(_) | Reindex(_) =>
      var v := Apply(w, step);
      assert forall p :: AckPending(v, p) <==> AckPending(w, p);
  }

  lemma {:induction false} RunFromInv(w: World, steps: seq<Step>)
    requires Inv(w) && Run(w, steps).Some?
    ensures Inv(Run(w, steps).value)
  {
    if steps != [] {
      var init := steps[..|steps| - 1];
      RunFromInv(w, init);
      StepKeepsInv(Run(w, init).value, steps[|steps| - 1]);
    }
  }

  lemma RunKeepsInv(w: World, steps: seq<Step>)
    requires Initial(w) && Run(w, steps).Some?
    ensures Inv(Run(w, steps).value)
  {
    assert forall p :: !AckPending(w, p);
    RunFromInv(w, steps);
  }

  // ------------------------------------------------------------ main theorems

  /** Over every disciplined interleaving: one live holder per pair, at most one
      acknowledged POST beyond the tasks lost before recording theirs, and a
      ledger whose counters and times account for themselves. */
  lemma ExactlyOnceDelivery(w: World, steps: seq<Step>, p: Pair)
    requires Initial(w) && Run(w, steps).Some?
    ensures var v := Run(w, steps).value;
            && AtMostOneHolder(v)
            && v.acks[p] <= 1 + v.lost[p]
            && (DeliveredIn(v, p) ==> v.acks[p] == 1 + v.lost[p])
            && (p in v.ledger ==> v.ledger[p].attempts == v.claims[p] + v.records[p])
            && (p in v.ledger ==> (v.ledger[p].deliveredAt.Some? <==> v.ledger[p].status.Delivered?))
  {
    var v := Run(w, steps).value;
    RunKeepsInv(w, steps);
    if DeliveredIn(v, p) {
      assert !AckPending(v, p);
    }
  }

  /** One step never touches a delivered row and never acknowledges its pair again. */
  lemma DeliveredSurvivesStep(w: World, step: Step, p: Pair)
    requires Inv(w) && Enabled(w, step) && DeliveredIn(w, p)
    ensures var v := Apply(w, step);
            p in v.ledger && v.ledger[p] == w.ledger[p] && v.acks[p] == w.acks[p] && v.claims[p] == w.claims[p]
  {
  }

  /** `delivered` is final: from the moment the row says so, no later step of the
      run changes the row, claims the pair or gets another acknowledgement for it,
      whatever is rolled back and re-indexed in between. */
  lemma {:induction false} DeliveredIsFinal(w: World, steps: seq<Step>, k: nat, p: Pair)
    requires Initial(w) && Run(w, steps).Some? && k <= |steps|
    ensures Run(w, steps[..k]).Some?
    ensures var early, late := Run(w, steps[..k]).value, Run(w, steps).value;
            DeliveredIn(early, p) ==>
              && p in late.ledger && late.ledger[p] == early.ledger[p]
              && late.acks[p] == early.acks[p] && late.claims[p] == early.claims[p]
    decreases |steps|
  {
    if k == |steps| {
      assert steps[..k] == steps;
    } else {
      var init := steps[..|steps| - 1];
      assert init[..k] == steps[..k];
      DeliveredIsFinal(w, init, k, p);
      if DeliveredIn(Run(w, steps[..k]).value, p) {
        RunKeepsInv(w, init);
        DeliveredSurvivesStep(Run(w, init).value, steps[|steps| - 1], p);
      }
    }
  }

  /** In every world of a disciplined run a listed pair (before LIMIT) is held by no task,
      except one whose claim is exactly at the stale boundary. */
  lemma ListedPairIsNotHeld(w: World, steps: seq<Step>, p: Pair, t: nat)
    requires Initial(w) && Run(w, steps).Some?
    ensures var v := Run(w, steps).value;
            && p in PendingMatches(v.sources, v.ledger, v.now, CLAIM_STALE_AFTER_SECS)
            && t in v.tasks && v.tasks[t].pair == p
            ==> v.tasks[t].claimedAt + STALE == v.now
  {
    var v := Run(w, steps).value;
    RunKeepsInv(w, steps);
    ListingAgreesWithClaim(v.sources, v.ledger, v.now, CLAIM_STALE_AFTER_SECS, p);
    assert p == Pair(p.subscription, p.tx);
  }

  // ------------------------------------------- why the hypothesis is needed

  /** `Run` unfolded at its last step. */
  lemma RunSnoc(w: World, steps: seq<Step>, last: Step)
    requires Run(w, steps).Some? && Enabled(Run(w, steps).value, last) && !last.Tick?
    ensures Run(w, steps + [last]) == Some(Apply(Run(w, steps).value, last))
  {
    assert (steps + [last])[..|steps|] == steps;
  }

  /** A task number that is not in use. */
  lemma {:induction false} UnusedTask(used: set<nat>) returns (u: nat)
    ensures forall t | t in used :: t < u
  {
    u := 0;
    if used != {} {
      var t :| t in used;
      u := UnusedTask(used - {t});
      assert forall x | x in used :: x == t || x in used - {t};
      u := if u <= t then t + 1 else u;
    }
  }

  /** Task t was due when the clock moved on by d. */
  predicate Overdue(w: World, d: nat, t: nat) {
    t in w.tasks && w.now + d > w.tasks[t].claimedAt + STALE
  }

  /** One claim, and a minute and a microsecond without a record. */
  lemma OverdueIsReachable(w: World, p: Pair)
    requires Initial(w)
    ensures Run(w, [Claim(0, p)]).Some?
    ensures var v := Run(w, [Claim(0, p)]).value;
            Inv(v) && !Overdue(v, 60_000_000, 0) && Overdue(v, 60_000_001, 0)
  {
    assert [Claim(0, p)][..0] == [];
    assert Run(w, [Claim(0, p)]) == Some(Apply(w, Claim(0, p)));
    RunKeepsInv(w, [Claim(0, p)]);
  }

  lemma NoAckPendingUnlessOwn(w: World, t: nat)
    requires Inv(w) && t in w.tasks
    ensures w.acks[w.tasks[t].pair] ==
            w.lost[w.tasks[t].pair] + if w.tasks[t].phase.Acknowledged? then 1 else 0
  {
    if w.tasks[t].phase.Acknowledged? {
      assert AckPending(w, w.tasks[t].pair);
    }
  }

  /** Another task takes over the overdue pair and gets an acknowledgement. */
  function Takeover(p: Pair, u: nat): seq<Step> {
    [] + [Claim(u, p)] + [Acknowledge(u)]
  }

  lemma TakeoverRun(w: World, d: nat, t: nat, u: nat) returns (v: World)
    requires Inv(w) && Overdue(w, d, t) && u !in w.tasks
    ensures Run(Apply(w, Tick(d)), Takeover(w.tasks[t].pair, u)) == Some(v)
    ensures var p := w.tasks[t].pair;
            && v.acks == w.acks + multiset{p} && v.lost == w.lost
            && v.tasks == w.tasks[u := Task(p, w.now + d, Acknowledged)]
            && p in v.ledger
  {
    var p := w.tasks[t].pair;
    v := Apply(w, Tick(d));
    var start := v;
    assert ClaimWins(v.ledger, p, v.now, CLAIM_STALE_AFTER_SECS);
    RunSnoc(start, [], Claim(u, p));
    v := Apply(v, Claim(u, p));
    RunSnoc(start, [] + [Claim(u, p)], Acknowledge(u));
    v := Apply(v, Acknowledge(u));
  }

  /** Then it records the delivery. */
  lemma TakeoverRecorded(w: World, d: nat, t: nat, u: nat) returns (v: World)
    requires Inv(w) && Overdue(w, d, t) && u !in w.tasks
    ensures Run(Apply(w, Tick(d)), Takeover(w.tasks[t].pair, u) + [Record(u, None)]) == Some(v)
    ensures var p := w.tasks[t].pair;
            && v.acks == w.acks + multiset{p} && v.lost == w.lost && v.tasks == w.tasks
            && DeliveredIn(v, p) && v.ledger[p].deliveredAt.Some?
  {
    v := TakeoverRun(w, d, t, u);
    RunSnoc(Apply(w, Tick(d)), Takeover(w.tasks[t].pair, u), Record(u, None));
    v := Apply(v, Record(u, None));
    assert v.tasks == w.tasks;
  }

  /** One overdue task is enough for a second acknowledgement although no task is lost. If
      the late task has not posted yet, it posts now; if it was acknowledged, it already has;
      if it was refused, it reopens the delivered pair, and a third claim posts again. */
  lemma LateTaskRepeatsDelivery(w: World, d: nat, t: nat) returns (steps: seq<Step>, v: World)
    requires Inv(w) && Overdue(w, d, t)
    ensures Run(Apply(w, Tick(d)), steps) == Some(v)
    ensures v.acks[w.tasks[t].pair] > 1 + v.lost[w.tasks[t].pair]
  {
    var p, start := w.tasks[t].pair, Apply(w, Tick(d));
    NoAckPendingUnlessOwn(w, t);
    var u := UnusedTask(w.tasks.Keys);
    match w.tasks[t].phase
    case Acknowledged =>
      steps := Takeover(p, u);
      v := TakeoverRun(w, d, t, u);
    case Working =>
      v := TakeoverRun(w, d, t, u);
      steps := Takeover(p, u) + [Acknowledge(t)];
      RunSnoc(start, Takeover(p, u), Acknowledge(t));
      v := Apply(v, Acknowledge(t));
    case Refused =>
      steps, v := RefusedTaskRepeatsDelivery(w, d, t, u);
  }

  lemma RefusedTaskRepeatsDelivery(w: World, d: nat, t: nat, u: nat) returns (steps: seq<Step>, v: World)
    requires Inv(w) && Overdue(w, d, t) && u !in w.tasks && w.tasks[t].phase.Refused?
    ensures Run(Apply(w, Tick(d)), steps) == Some(v)
    ensures v.lost == w.lost && v.acks == w.acks + multiset{w.tasks[t].pair, w.tasks[t].pair}
  {
    var p, start := w.tasks[t].pair, Apply(w, Tick(d));
    v := TakeoverRecorded(w, d, t, u);
    steps := Takeover(p, u) + [Record(u, None)];
    RunSnoc(start, steps, Record(t, None));
    steps, v := steps + [Record(t, None)], Apply(v, Record(t, None));
    RunSnoc(start, steps, Claim(u, p));
    steps, v := steps + [Claim(u, p)], Apply(v, Claim(u, p));
    RunSnoc(start, steps, Acknowledge(u));
    steps, v := steps + [Acknowledge(u)], Apply(v, Acknowledge(u));
  }

  /** One overdue task is enough to change a delivered row: its own record, whatever it says,
      overwrites the one that the other task left. A late failure reopens the pair and leaves
      the delivery time behind. */
  lemma LateRecordOverwritesDelivered(w: World, d: nat, t: nat)
    returns (steps: seq<Step>, before: World, after: World)
    requires Inv(w) && Overdue(w, d, t)
    ensures Run(Apply(w, Tick(d)), steps) == Some(before)
    ensures Run(Apply(w, Tick(d)), steps + [Record(t, None)]) == Some(after)
    ensures var p := w.tasks[t].pair;
            && DeliveredIn(before, p) && p in after.ledger && after.ledger[p] != before.ledger[p]
            && (!w.tasks[t].phase.Acknowledged? ==>
                  after.ledger[p].status.Failed? && after.ledger[p].deliveredAt.Some?)
  {
    var p, start := w.tasks[t].pair, Apply(w, Tick(d));
    var u := UnusedTask(w.tasks.Keys);
    before := TakeoverRecorded(w, d, t, u);
    steps := Takeover(p, u) + [Record(u, None)];
    if w.tasks[t].phase.Working? {
      RunSnoc(start, steps, Refuse(t));
      steps, before := steps + [Refuse(t)], Apply(before, Refuse(t));
    }
    RunSnoc(start, steps, Record(t, None));
    after := Apply(before, Record(t, None));
    assert after.ledger[p].attempts == before.ledger[p].attempts + 1;
  }

  /** Every disciplined continuation keeps the bound on acknowledgements. */
  ghost predicate BoundKept(w: World) {
    forall steps, p | Run(w, steps).Some? ::
      Run(w, steps).value.acks[p] <= 1 + Run(w, steps).value.lost[p]
  }

  /** No step of a disciplined continuation changes a delivered row. */
  ghost predicate DeliveredKept(w: World) {
    forall steps, last, p |
      Run(w, steps + [last]).Some? && Run(w, steps).Some? && DeliveredIn(Run(w, steps).value, p) ::
      UnchangedRow(Run(w, steps).value, Run(w, steps + [last]).value, p)
  }

  predicate UnchangedRow(v: World, w: World, p: Pair) {
    p in v.ledger && p in w.ledger && v.ledger[p] == w.ledger[p]
  }

  /** The discipline is exactly what the guarantees need. When the clock moves on from a world
      that a disciplined run can reach, every disciplined continuation keeps the bound if and
      only if no live task is overdue, and keeps delivered rows if and only if none is. */
  lemma SafeIffTimely(w: World, d: nat)
    requires Inv(w)
    ensures BoundKept(Apply(w, Tick(d))) <==> Timely(w, Tick(d))
    ensures DeliveredKept(Apply(w, Tick(d))) <==> Timely(w, Tick(d))
  {
    if Timely(w, Tick(d)) {
      StepKeepsInv(w, Tick(d));
      InvKeepsBound(Apply(w, Tick(d)));
      InvKeepsDelivered(Apply(w, Tick(d)));
    } else {
      var t :| t in w.tasks && !(w.now + d <= w.tasks[t].claimedAt + STALE);
      var steps, v := LateTaskRepeatsDelivery(w, d, t);
      var prefix, before, after := LateRecordOverwritesDelivered(w, d, t);
      assert !UnchangedRow(before, after, w.tasks[t].pair);
    }
  }

  lemma InvKeepsBound(w: World)
    requires Inv(w)
    ensures BoundKept(w)
  {
    forall steps, p | Run(w, steps).Some?
      ensures Run(w, steps).value.acks[p] <= 1 + Run(w, steps).value.lost[p]
    {
      AcksAreBounded(w, steps, p);
    }
  }

  lemma AcksAreBounded(w: World, steps: seq<Step>, p: Pair)
    requires Inv(w) && Run(w, steps).Some?
    ensures var v := Run(w, steps).value; v.acks[p] <= 1 + v.lost[p]
  {
    var v := Run(w, steps).value;
    RunFromInv(w, steps);
    if DeliveredIn(v, p) {
      assert !AckPending(v, p);
    }
  }

  lemma InvKeepsDelivered(w: World)
    requires Inv(w)
    ensures DeliveredKept(w)
  {
    forall steps, last, p |
      Run(w, steps + [last]).Some? && Run(w, steps).Some? && DeliveredIn(Run(w, steps).value, p)
      ensures UnchangedRow(Run(w, steps).value, Run(w, steps + [last]).value, p)
    {
      RunFromInv(w, steps);
      assert (steps + [last])[..|steps|] == steps;
      DeliveredSurvivesStep(Run(w, steps).value, last, p);
    }
  }
}
