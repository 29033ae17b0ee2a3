/** The `alert_delivery` table: the atomic claim, the result upsert and the
    pending-match query. Every SQL statement is one atomic step on the table. */
module AlertLedger {
  import opened Options
  import Redaction

  /** Microseconds, the resolution of a TIMESTAMPTZ. */
  type Instant = int

  const MICROS_PER_SEC: int := 1_000_000
  const CLAIM_STALE_AFTER_SECS: nat := 60

  datatype Status = Claimed | Delivered | Failed

  datatype Row = Row(
    status: Status,
    attempts: nat,
    lastError: Option<string>,
    deliveredAt: Option<Instant>,
    createdAt: Instant)

  /** Primary key of the table. */
  datatype Pair = Pair(subscription: int, tx: string)

  type Ledger = map<Pair, Row>

  /** The WHERE clause of the claim upsert, together with the plain INSERT case. */
  predicate ClaimWins(ledger: Ledger, p: Pair, now: Instant, staleSecs: nat) {
    p !in ledger
    || ledger[p].status.Failed?
    || (ledger[p].status.Claimed? && ledger[p].createdAt < now - staleSecs * MICROS_PER_SEC)
  }

  function AfterClaim(ledger: Ledger, p: Pair, now: Instant, staleSecs: nat): Ledger {
    if !ClaimWins(ledger, p, now, staleSecs) then ledger
    else
      var attempts := if p in ledger then ledger[p].attempts + 1 else 1;
      ledger[p := Row(Claimed, attempts, None, None, now)]
  }

  function AfterRecord(ledger: Ledger, p: Pair, now: Instant, delivered: bool, error: Option<string>): Ledger {
    var status := if delivered then Delivered else Failed;
    if p !in ledger then
      ledger[p := Row(status, 1, error, if delivered then Some(now) else None, now)]
    else
      var r := ledger[p];
      ledger[p := Row(status, r.attempts + 1, error,
                      if delivered then Some(now) else r.deliveredAt, r.createdAt)]
  }

  /** The columns the pending-match query joins. */
  datatype Subscription = Subscription(
    active: bool, perEvent: bool, category: Option<string>, toAddr: Option<string>)

  datatype Sources = Sources(
    subscriptions: map<int, Subscription>,
    failed: map<string, string>,                // tx_hash -> error_category
    recipients: map<string, Option<string>>)    // tx_hash -> to_addr of the transaction row

  /** JOIN / LEFT JOIN and the subscription filters; NULL never equals anything. */
  predicate Matches(src: Sources, p: Pair) {
    && p.subscription in src.subscriptions
    && p.tx in src.failed
    && var s := src.subscriptions[p.subscription];
    && s.active
    && s.perEvent
    && (s.category.None? || s.category == Some(src.failed[p.tx]))
    && (s.toAddr.None? || (p.tx in src.recipients && src.recipients[p.tx] == s.toAddr))
  }

  /** The NOT EXISTS anti-join of the listing. */
  predicate Excluded(ledger: Ledger, p: Pair, now: Instant, staleSecs: nat) {
    && p in ledger
    && (ledger[p].status.Delivered?
        || (ledger[p].status.Claimed? && ledger[p].createdAt > now - staleSecs * MICROS_PER_SEC))
  }

  /** The pending matches before ORDER BY and LIMIT. */
  function PendingMatches(src: Sources, ledger: Ledger, now: Instant, staleSecs: nat): set<Pair> {
    set s, tx | s in src.subscriptions && tx in src.failed
                && Matches(src, Pair(s, tx)) && !Excluded(ledger, Pair(s, tx), now, staleSecs)
      :: Pair(s, tx)
  }

  /** Which pairs are listed, clause by clause: an active per-event subscription, a failed
      transaction of its category and recipient where it names them, and no delivery that is
      done or was claimed within the stale window. */
  lemma ListedExactlyWhen(src: Sources, ledger: Ledger, now: Instant, staleSecs: nat, s: int, tx: string)
    ensures Pair(s, tx) in PendingMatches(src, ledger, now, staleSecs) <==>
            && s in src.subscriptions && tx in src.failed
            && src.subscriptions[s].active && src.subscriptions[s].perEvent
            && (forall c | src.subscriptions[s].category == Some(c) :: src.failed[tx] == c)
            && (forall a | src.subscriptions[s].toAddr == Some(a) ::
                  tx in src.recipients && src.recipients[tx] == Some(a))
            && (Pair(s, tx) in ledger ==>
                  || ledger[Pair(s, tx)].status == Failed
                  || (ledger[Pair(s, tx)].status == Claimed
                      && ledger[Pair(s, tx)].createdAt + staleSecs * 1_000_000 <= now))
  {
    var p := Pair(s, tx);
    assert p in PendingMatches(src, ledger, now, staleSecs)
      <==> s in src.subscriptions && tx in src.failed && Matches(src, p) && !Excluded(ledger, p, now, staleSecs);
    if s in src.subscriptions && tx in src.failed {
      var sub := src.subscriptions[s];
      assert sub.category.Some? ==> sub.category == Some(sub.category.value);
      assert sub.toAddr.Some? ==> sub.toAddr == Some(sub.toAddr.value);
    }
  }

  /** Listing and claiming agree on every matching pair, except a claim that is
      stale to the microsecond: that one is listed but cannot be claimed. */
  lemma ListingAgreesWithClaim(src: Sources, ledger: Ledger, now: Instant, staleSecs: nat, p: Pair)
    ensures Matches(src, p) && ClaimWins(ledger, p, now, staleSecs)
            ==> p in PendingMatches(src, ledger, now, staleSecs)
    ensures p in PendingMatches(src, ledger, now, staleSecs) && !ClaimWins(ledger, p, now, staleSecs)
            <==> Matches(src, p) && p in ledger && ledger[p].status.Claimed?
                 && ledger[p].createdAt == now - staleSecs * MICROS_PER_SEC
    ensures p in PendingMatches(src, ledger, now, staleSecs) ==> !(p in ledger && ledger[p].status.Delivered?)
  {
    assert p == Pair(p.subscription, p.tx);
    assert p in PendingMatches(src, ledger, now, staleSecs)
      <==> Matches(src, p) && !Excluded(ledger, p, now, staleSecs);
  }

  /** What became of one listed item. */
  datatype DispatchOutcome = ItemDelivered | ItemFailed | UnsafeUrl | ClaimSkipped

  /** The table itself, updated in place by the two statements of the dispatcher. */
  class AlertDeliveryTable {
    var rows: Ledger

    constructor ()
      ensures rows == map[]
    {
      rows := map[];
    }

    method TryClaim(p: Pair, now: Instant, staleSecs: nat) returns (won: bool)
      modifies this
      ensures won <==> ClaimWins(old(rows), p, now, staleSecs)
      ensures rows == AfterClaim(old(rows), p, now, staleSecs)
      ensures won ==> p in rows
                      && rows[p] == Row(Claimed, (if p in old(rows) then old(rows)[p].attempts else 0) + 1,
                                        None, None, now)
      ensures !won ==> rows == old(rows)
      ensures forall q :: q in old(rows) && q != p ==> q in rows && rows[q] == old(rows)[q]
    {
      if p !in rows {
        rows := rows[p := Row(Claimed, 1, None, None, now)];
        won := true;
      } else {
        var r := rows[p];
        won := r.status.Failed? || (r.status.Claimed? && r.createdAt < now - staleSecs * MICROS_PER_SEC);
        if won {
          rows := rows[p := r.(status := Claimed, attempts := r.attempts + 1, lastError := None,
                               deliveredAt := None, createdAt := now)];
        }
      }
    }

    method RecordDelivery(p: Pair, now: Instant, delivered: bool, error: Option<string>)
      modifies this
      ensures rows == AfterRecord(old(rows), p, now, delivered, error)
      ensures p in rows
              && rows[p].status == (if delivered then Delivered else Failed)
              && rows[p].attempts == (if p in old(rows) then old(rows)[p].attempts else 0) + 1
              && rows[p].lastError == error
              && rows[p].createdAt == (if p in old(rows) then old(rows)[p].createdAt else now)
              && rows[p].deliveredAt ==
                 (if delivered then Some(now) else if p in old(rows) then old(rows)[p].deliveredAt else None)
      ensures forall q :: q in old(rows) && q != p ==> q in rows && rows[q] == old(rows)[q]
    {
      var status := if delivered then Delivered else Failed;
      if p !in rows {
        rows := rows[p := Row(status, 1, error, if delivered then Some(now) else None, now)];
      } else {
        var r := rows[p];
        rows := rows[p := r.(status := status, attempts := r.attempts + 1, lastError := error,
                             deliveredAt := if delivered then Some(now) else r.deliveredAt)];
      }
    }

    /** One item on its own: claim, guard the URL, check the secret, POST, record.
        `claimedAt` and `recordedAt` are the database clock at the two statements; the other
        arguments are what the guards and the receiver answer. A skipped item writes nothing.
        Every other item is claimed and gets exactly one outcome: it is posted exactly when
        both guards pass, recorded as delivered exactly when that POST is acknowledged, and
        otherwise recorded as failed with an error text, which after a POST shows no URL. */
    method DispatchItem(p: Pair, claimedAt: Instant, recordedAt: Instant,
                        urlProblem: Option<string>, secretIsHex: bool, postError: Option<string>)
      returns (outcome: DispatchOutcome, posted: bool)
      modifies this
      ensures var claimed := ClaimWins(old(rows), p, claimedAt, CLAIM_STALE_AFTER_SECS);
              && (outcome.ClaimSkipped? <==> !claimed)
              && (outcome.UnsafeUrl? <==> claimed && urlProblem.Some?)
              && (outcome.ItemFailed? <==> claimed && urlProblem.None? && (!secretIsHex || postError.Some?))
              && (outcome.ItemDelivered? <==> claimed && urlProblem.None? && secretIsHex && postError.None?)
              && (posted <==> claimed && urlProblem.None? && secretIsHex)
      ensures outcome.ClaimSkipped? ==> rows == old(rows)
      ensures !outcome.ClaimSkipped? ==>
                && p in rows
                && rows == old(rows)[p := rows[p]]
                && rows[p].status == (if outcome.ItemDelivered? then Delivered else Failed)
                && rows[p].attempts == (if p in old(rows) then old(rows)[p].attempts else 0) + 2
                && rows[p].createdAt == claimedAt
                && rows[p].deliveredAt == (if outcome.ItemDelivered? then Some(recordedAt) else None)
                && (rows[p].lastError.None? <==> outcome.ItemDelivered?)
      ensures outcome.UnsafeUrl? ==> rows[p].lastError == Some("unsafe url: " + urlProblem.value)
      ensures outcome.ItemFailed? && !posted ==> rows[p].lastError == Some("corrupt signing_secret (not hex)")
      ensures outcome.ItemFailed? && posted ==> Redaction.IsStoredError(rows[p].lastError.value, postError.value)
    {
      posted := false;
      var claimed := TryClaim(p, claimedAt, CLAIM_STALE_AFTER_SECS);
      if !claimed {
        outcome := ClaimSkipped;
        return;
      }
      if urlProblem.Some? {
        RecordDelivery(p, recordedAt, false, Some("unsafe url: " + urlProblem.value));
        outcome := UnsafeUrl;
        return;
      }
      if !secretIsHex {
        RecordDelivery(p, recordedAt, false, Some("corrupt signing_secret (not hex)"));
        outcome := ItemFailed;
        return;
      }
      posted := true;
      if postError.None? {
        RecordDelivery(p, recordedAt, true, None);
        outcome := ItemDelivered;
      } else {
        var text := Redaction.StoredError(postError.value);
        RecordDelivery(p, recordedAt, false, Some(text));
        outcome := ItemFailed;
      }
    }
  }
}
