/** The whole follow loop over a chain that has come to rest: scan, roll back or index, and
    again, until nothing is left to do. */
module Convergence {
  import opened Options
  import opened ForkScan
  import opened Tables
  import opened Rounds
  import opened FollowDecisions
  import opened RangeIndexing
  import opened ReorgRepair

  /** What the node answers once the chain rests at `head`. */
  function AtRest(chain: nat -> BlockRow, head: nat): Oracle {
    (h: nat) => if h <= head then chain(h).hash else None
  }

  ghost predicate ChainHashed(chain: nat -> BlockRow, head: nat) {
    forall h: nat | h <= head :: chain(h).hash.Some?
  }

  ghost predicate AllHashed(blocks: map<nat, BlockRow>) {
    forall h | h in blocks :: blocks[h].hash.Some?
  }

  /** Every stored block is the chain's. */
  ghost predicate RowsAgree(blocks: map<nat, BlockRow>, chain: nat -> BlockRow) {
    forall h | h in blocks :: blocks[h].hash.Some? && blocks[h].hash == chain(h).hash
  }

  /** The number of newest rows that a reorg has invalidated. */
  function Stale(blocks: map<nat, BlockRow>, chain: nat -> BlockRow, head: nat): nat {
    MismatchRun(HashedRows(blocks), AtRest(chain, head))
  }

  // ---------------------------------------------------------- listing of a full range

  lemma {:induction false} NewestFirstOfRange(blocks: map<nat, BlockRow>, start: nat, last: int)
    requires forall h | h in Heights(start, last) :: h in blocks && blocks[h].hash.Some?
    requires start - 1 <= last
    ensures var r := NewestFirst(blocks, Heights(start, last));
            |r| == last - start + 1 && forall i | 0 <= i < |r| :: r[i].height == last - i
    decreases last - start
  {
    var hs := Heights(start, last);
    if last < start {
      assert hs == {};
    } else {
      assert last in hs;
      assert MaxOf(hs) == last;
      assert hs - {last} == Heights(start, last - 1);
      NewestFirstOfRange(blocks, start, last - 1);
    }
  }

  lemma ListingOfExactRows(blocks: map<nat, BlockRow>, start: nat, last: int)
    requires start - 1 <= last && ExactRows(blocks, start, last) && AllHashed(blocks)
    ensures var r := HashedRows(blocks);
            |r| == last - start + 1 && forall i | 0 <= i < |r| :: r[i].height == last - i
  {
    assert HashedHeights(blocks) == blocks.Keys;
    NewestFirstOfRange(blocks, start, last);
  }

  lemma ListingShowsRows(blocks: map<nat, BlockRow>)
    ensures forall i | 0 <= i < |HashedRows(blocks)| ::
              var row := HashedRows(blocks)[i]; row.height in blocks && blocks[row.height].hash == Some(row.hash)
  {
    NewestFirstIsSorted(blocks, HashedHeights(blocks));
  }

  /** Stored heights up to the head are answered. */
  lemma StoredIsAnswered(blocks: map<nat, BlockRow>, chain: nat -> BlockRow, head: nat)
    requires ChainHashed(chain, head) && forall h | h in blocks :: h <= head
    ensures AllAnswered(HashedRows(blocks), AtRest(chain, head))
  {
    ListingShowsRows(blocks);
  }

  lemma AgreeingRowsAreNotStale(blocks: map<nat, BlockRow>, chain: nat -> BlockRow, head: nat)
    requires RowsAgree(blocks, chain) && forall h | h in blocks :: h <= head
    ensures Stale(blocks, chain, head) == 0
  {
    ListingShowsRows(blocks);
    var rows := HashedRows(blocks);
    if rows != [] {
      assert Agrees(rows[0], AtRest(chain, head));
    }
  }

  // ------------------------------------------------------------------- hash linkage

  /** The parent column of a stored block names the stored block below it. */
  predicate LinkedAt(blocks: map<nat, BlockRow>, h: nat) {
    h > 0 && h in blocks && h - 1 in blocks ==> blocks[h].parent == blocks[h - 1].hash
  }

  predicate ChainLinkedAt(chain: nat -> BlockRow, h: nat) {
    h > 0 ==> chain(h).parent == chain(h - 1).hash
  }

  ghost predicate ChainLinked(chain: nat -> BlockRow, head: nat) {
    forall h: nat | h <= head :: ChainLinkedAt(chain, h)
  }

  /** A block hash commits to the parent: where the hashes are the same, the parents are. */
  ghost predicate HashCommits(blocks: map<nat, BlockRow>, chain: nat -> BlockRow) {
    forall h | h in blocks && blocks[h].hash == chain(h).hash :: blocks[h].parent == chain(h).parent
  }

  /** Every row that agrees with the chain is linked to the row stored below it. */
  ghost predicate AgreeingRowsLinked(blocks: map<nat, BlockRow>, chain: nat -> BlockRow) {
    forall h: nat | h in blocks && blocks[h].hash == chain(h).hash :: LinkedAt(blocks, h)
  }

  /** Gap-free hashed rows, up to the head of a linked chain. */
  ghost predicate Comparable(blocks: map<nat, BlockRow>, chain: nat -> BlockRow, head: nat, start: nat, last: int) {
    && start - 1 <= last <= head && ExactRows(blocks, start, last) && AllHashed(blocks)
    && ChainHashed(chain, head) && ChainLinked(chain, head) && HashCommits(blocks, chain)
  }

  /** Linkage brings agreement down: at every height below one where they agree. */
  lemma LinkageBringsAgreementDown(blocks: map<nat, BlockRow>, chain: nat -> BlockRow, head: nat,
                                   start: nat, last: int)
    requires Comparable(blocks, chain, head, start, last) && AgreeingRowsLinked(blocks, chain)
    ensures AgreementGoesDown(HashedRows(blocks), AtRest(chain, head))
  {
    var rows, o := HashedRows(blocks), AtRest(chain, head);
    ListingOfExactRows(blocks, start, last);
    ListingShowsRows(blocks);
    forall i, j | 0 <= i < j < |rows| && Agrees(rows[i], o) ensures Agrees(rows[j], o) {
      var n := i;
      while n < j
        invariant i <= n <= j && Agrees(rows[n], o)
      {
        var h := rows[n].height;
        assert rows[n + 1].height == h - 1;
        assert LinkedAt(blocks, h) && ChainLinkedAt(chain, h);
        n := n + 1;
      }
    }
  }

  /** And only linkage does: an agreeing row above a stale one names another parent. */
  lemma AgreementNeedsLinkage(blocks: map<nat, BlockRow>, chain: nat -> BlockRow, head: nat, start: nat, last: int)
    requires Comparable(blocks, chain, head, start, last)
    requires AgreementGoesDown(HashedRows(blocks), AtRest(chain, head))
    ensures AgreeingRowsLinked(blocks, chain)
  {
    var rows, o := HashedRows(blocks), AtRest(chain, head);
    ListingOfExactRows(blocks, start, last);
    ListingShowsRows(blocks);
    forall h: nat | h in blocks && blocks[h].hash == chain(h).hash ensures LinkedAt(blocks, h) {
      if h > 0 && h - 1 in blocks {
        assert h in blocks.Keys && h - 1 in blocks.Keys;
        var i := last - h;
        assert rows[i].height == h && rows[i + 1].height == h - 1;
        assert Agrees(rows[i], o) && Agrees(rows[i + 1], o);
        assert ChainLinkedAt(chain, h);
      }
    }
  }

  /** The hashed rows left by the repair are exactly those that agree with the chain if and only
      if every agreeing row names the row below it as its parent: a look at one column of the
      stored rows shows whether stale rows hide below agreeing ones. */
  lemma RepairIsExactIffParentsMatch(s: Store, chain: nat -> BlockRow, head: nat, start: nat, last: int)
    requires Comparable(s.blocks, chain, head, start, last)
    ensures var o := AtRest(chain, head);
            ExactlyAgreeing(HashedRows(Repaired(s, o).blocks), HashedRows(s.blocks), o)
            <==> AgreeingRowsLinked(s.blocks, chain)
  {
    assert forall h | h in s.blocks.Keys :: h <= head;
    StoredIsAnswered(s.blocks, chain, head);
    RepairIsExactIffLinked(s, AtRest(chain, head));
    if AgreeingRowsLinked(s.blocks, chain) {
      LinkageBringsAgreementDown(s.blocks, chain, head, start, last);
    } else if AgreementGoesDown(HashedRows(s.blocks), AtRest(chain, head)) {
      AgreementNeedsLinkage(s.blocks, chain, head, start, last);
    }
  }

  // ------------------------------------------------------------------ after the repair

  /** What the loop starts from: gap-free, hashed and linked rows up to the checkpoint, below
      the head of a linked chain, with an unchanged genesis. */
  ghost predicate Resumable(s: Store, chain: nat -> BlockRow, head: nat, start: nat) {
    && s.checkpoint.Some? && Comparable(s.blocks, chain, head, start, s.checkpoint.value)
    && AgreeingRowsLinked(s.blocks, chain)
    && (0 in s.blocks ==> s.blocks[0].hash == chain(0).hash)
  }

  /** The repaired store is gap-free and agrees; its checkpoint lies as many heights lower as
      rows were stale. */
  lemma RepairedIsExact(s: Store, chain: nat -> BlockRow, head: nat, start: nat)
    requires Resumable(s, chain, head, start)
    ensures var k := Stale(s.blocks, chain, head);
            var v := RolledBack(s, k);
            && start - 1 <= s.checkpoint.value - k
            && v.checkpoint.Some? && v.checkpoint.value == s.checkpoint.value - k
            && ExactRows(v.blocks, start, s.checkpoint.value - k)
  {
    var k, rows, c := Stale(s.blocks, chain, head), HashedRows(s.blocks), s.checkpoint.value;
    ListingOfExactRows(s.blocks, start, c);
    ListingShowsRows(s.blocks);
    if k > 0 {
      var fork := rows[k - 1].height;
      assert Mismatched(rows[k - 1], AtRest(chain, head));
      assert fork in s.blocks && fork > 0;
      assert Heights(c + 1, fork - 1) == {};
      RollbackKeepsExactRowsIff(s, start, c, {}, fork);
    }
  }

  lemma RepairedAgrees(s: Store, chain: nat -> BlockRow, head: nat, start: nat)
    requires Resumable(s, chain, head, start)
    ensures RowsAgree(RolledBack(s, Stale(s.blocks, chain, head)).blocks, chain)
  {
    var k, rows, o := Stale(s.blocks, chain, head), HashedRows(s.blocks), AtRest(chain, head);
    var left := RolledBack(s, k).blocks;
    StoredIsAnswered(s.blocks, chain, head);
    RolledBackRows(s, k);
    LinkageBringsAgreementDown(s.blocks, chain, head, start, s.checkpoint.value);
    LinkedRowsAreExact(rows, o);
    ListingShowsRows(left);
    forall h | h in left ensures left[h].hash.Some? && left[h].hash == chain(h).hash {
      assert left[h] == s.blocks[h];
      var i := NewestFirstHasAll(left, HashedHeights(left), h);
      assert HashedRows(left)[i] in rows[k..];
    }
  }

  // ------------------------------------------------------------------- indexing onwards

  lemma IndexedRowsAgree(blocks: map<nat, BlockRow>, chain: nat -> BlockRow, head: nat, hs: set<nat>)
    requires RowsAgree(blocks, chain) && ChainHashed(chain, head) && forall h | h in hs :: h <= head
    ensures RowsAgree(WithRows(blocks, chain, hs), chain)
  {
  }

  /** Where the loop ends: the confirmed tip, or the repaired checkpoint if that is higher. */
  function Goal(head: u64, confirmations: u64, checkpoint: nat): nat {
    checkpoint + Lag(head, confirmations, checkpoint)
  }

  /** The second phase of the loop: gap-free agreeing rows up to the checkpoint. */
  ghost predicate Settled(s: Store, chain: nat -> BlockRow, head: nat, start: nat, at: nat) {
    && s.checkpoint == Some(at) && start - 1 <= at <= head
    && ExactRows(s.blocks, start, at) && RowsAgree(s.blocks, chain)
  }

  /** One indexing cycle of the settled loop: the next range, kept gap-free and agreeing. */
  method SettledCycle(db: Database, chain: nat -> BlockRow, head: u64, confirmations: u64, batch: nat,
                      start: nat, at: nat)
    requires batch > 0 && head < U64_MAX && ChainHashed(chain, head)
    requires Settled(db.Snapshot(), chain, head, start, at)
    modifies db`blocks, db`checkpoint
    ensures Settled(db.Snapshot(), chain, head, start, CycleEnd(head, confirmations, at))
  {
    var ok, processed := FollowCycle(db, chain, head, confirmations, batch, start, _ => false, {}, {});
    IndexedRowsAgree(old(db.blocks), chain, head, Heights(at + 1, CycleEnd(head, confirmations, at)));
  }

  /** The second half of an iteration: idle exactly when nothing confirmed is left, and
      otherwise one cycle nearer to the same goal. */
  method IndexStep(db: Database, chain: nat -> BlockRow, head: u64, confirmations: u64, batch: nat,
                   start: nat, ghost at: nat)
    returns (idle: bool, ghost next: nat)
    requires batch > 0 && head < U64_MAX && ChainHashed(chain, head)
    requires Settled(db.Snapshot(), chain, head, start, at)
    modifies db`blocks, db`checkpoint
    ensures Settled(db.Snapshot(), chain, head, start, next)
    ensures idle ==> next == Goal(head, confirmations, at) && CyclesLeft(head, confirmations, at) == 0
    ensures !idle ==> && Lag(head, confirmations, next) < Lag(head, confirmations, at)
                      && Goal(head, confirmations, next) == Goal(head, confirmations, at)
                      && CyclesLeft(head, confirmations, at) == 1 + CyclesLeft(head, confirmations, next)
  {
    next := at;
    CycleRange(head, confirmations, at, FOLLOW_CYCLE_BLOCK_CAP);
    idle := NextTarget(head, confirmations, db.checkpoint).None?;
    if !idle {
      SettledCycle(db, chain, head, confirmations, batch, start, db.checkpoint.value);
      next := CycleEnd(head, confirmations, at);
      LagShrinks(head, confirmations, at);
    }
  }

  function CyclesLeft(head: u64, confirmations: u64, at: nat): nat {
    RoundsFor(Lag(head, confirmations, at), FOLLOW_CYCLE_BLOCK_CAP)
  }

  lemma LagShrinks(head: u64, confirmations: u64, at: nat)
    requires Lag(head, confirmations, at) > 0
    ensures var next := CycleEnd(head, confirmations, at);
            && Lag(head, confirmations, next) < Lag(head, confirmations, at)
            && Goal(head, confirmations, next) == Goal(head, confirmations, at)
            && CyclesLeft(head, confirmations, at) == 1 + CyclesLeft(head, confirmations, next)
  {
    var lag := Lag(head, confirmations, at);
    OneRound(lag, FOLLOW_CYCLE_BLOCK_CAP, Capped(lag));
  }

  // ------------------------------------------------------------------------ the loop

  /** What the loop relies on: all stored heights are answered, and once the stale rows of s
      are rolled back it is settled at `base`. */
  ghost predicate Ready(s: Store, chain: nat -> BlockRow, head: nat, start: nat, base: nat) {
    && AllAnswered(HashedRows(s.blocks), AtRest(chain, head)) && ChainHashed(chain, head)
    && Settled(RolledBack(s, Stale(s.blocks, chain, head)), chain, head, start, base)
  }

  lemma ResumableIsReady(s: Store, chain: nat -> BlockRow, head: nat, start: nat)
    requires Resumable(s, chain, head, start)
    ensures var base := s.checkpoint.value - Stale(s.blocks, chain, head);
            base >= 0 && Ready(s, chain, head, start, base)
  {
    StoredIsAnswered(s.blocks, chain, head);
    RepairedIsExact(s, chain, head, start);
    RepairedAgrees(s, chain, head, start);
  }

  /** Where the loop stands once `gone` of the k stale rows of s are rolled back: still
      repairing, or settled with its checkpoint at `at`. */
  ghost predicate Standing(now: Store, s: Store, chain: nat -> BlockRow, head: nat, start: nat,
                           k: nat, gone: nat, at: nat)
    requires k <= |HashedRows(s.blocks)|
  {
    && gone <= k
    && if gone < k then now == RolledBack(s, gone) else Settled(now, chain, head, start, at)
  }

  function RollbacksLeft(stale: nat): nat {
    RoundsFor(stale, REORG_SCAN_CAP)
  }

  function RolledBackNext(stale: nat): nat {
    Min(stale, REORG_SCAN_CAP)
  }

  lemma RollbackSaved(stale: nat)
    requires stale > 0
    ensures 0 < RolledBackNext(stale) <= stale
    ensures RollbacksLeft(stale) == 1 + RollbacksLeft(stale - RolledBackNext(stale))
  {
    OneRound(stale, REORG_SCAN_CAP, RolledBackNext(stale));
  }

  /** The first half of an iteration: it rolls back while rows are stale, as many of them as the
      capped scan sees, and otherwise finds no fork and changes nothing. */
  method ScanStep(db: Database, chain: nat -> BlockRow, head: nat, start: nat,
                  ghost s: Store, ghost k: nat, ghost gone: nat, ghost at: nat)
    returns (fork: Option<nat>, ghost next: nat)
    requires gone < k ==> Ready(s, chain, head, start, at)
    requires ChainHashed(chain, head) && k == Stale(s.blocks, chain, head)
    requires Standing(db.Snapshot(), s, chain, head, start, k, gone, at)
    modifies db
    ensures fork.Some? <==> gone < k
    ensures fork.None? ==> db.Snapshot() == old(db.Snapshot())
    ensures fork.Some? ==> next == gone + RolledBackNext(k - gone)
    ensures fork.Some? ==> Standing(db.Snapshot(), s, chain, head, start, k, next, at)
  {
    next := gone;
    if gone < k {
      next := gone + RolledBackNext(k - gone);
      NextCycle(s, AtRest(chain, head), gone, RolledBackNext(k - gone));
    } else {
      StoredIsAnswered(db.blocks, chain, head);
      AgreeingRowsAreNotStale(db.blocks, chain, head);
    }
    fork := RepairCycle(db, AtRest(chain, head));
  }

  /** What every iteration keeps: where the loop stands, and that what it has done and what is
      left add up. */
  ghost predicate OnTrack(now: Store, s: Store, chain: nat -> BlockRow, head: u64, confirmations: u64, start: nat,
                          base: nat, gone: nat, at: nat, rollbacks: nat, cycles: nat) {
    var k := Stale(s.blocks, chain, head);
    && Standing(now, s, chain, head, start, k, gone, at)
    && (gone < k ==> at == base)
    && Goal(head, confirmations, at) == Goal(head, confirmations, base)
    && rollbacks + RollbacksLeft(k - gone) == RollbacksLeft(k)
    && cycles + CyclesLeft(head, confirmations, at) == CyclesLeft(head, confirmations, base)
  }

  /** The work before the loop is idle: stale rows first, then heights. */
  ghost predicate LessWork(head: u64, confirmations: u64, gone: nat, at: nat, gone': nat, at': nat) {
    gone < gone' || (gone == gone' && Lag(head, confirmations, at') < Lag(head, confirmations, at))
  }

  /** The scan of an iteration, with its rollback counted. */
  method ScanAndCount(db: Database, chain: nat -> BlockRow, head: u64, ghost confirmations: u64, start: nat,
                      ghost s: Store, ghost base: nat, ghost gone: nat, ghost at: nat,
                      ghost rollbacks: nat, ghost cycles: nat)
    returns (fork: Option<nat>, ghost gone': nat)
    requires Ready(s, chain, head, start, base)
    requires OnTrack(db.Snapshot(), s, chain, head, confirmations, start, base, gone, at, rollbacks, cycles)
    modifies db
    ensures fork.None? ==> gone == Stale(s.blocks, chain, head) && db.Snapshot() == old(db.Snapshot())
    ensures fork.Some? ==> gone < gone'
    ensures fork.Some? ==>
              OnTrack(db.Snapshot(), s, chain, head, confirmations, start, base, gone', at, rollbacks + 1, cycles)
  {
    ghost var k := Stale(s.blocks, chain, head);
    fork, gone' := ScanStep(db, chain, head, start, s, k, gone, at);
    if gone < k {
      RollbackSaved(k - gone);
    }
  }

  /** The indexing of an iteration, with its cycle counted. */
  method IndexAndCount(db: Database, chain: nat -> BlockRow, head: u64, confirmations: u64, batch: nat, start: nat,
                       ghost s: Store, ghost base: nat, ghost at: nat, ghost rollbacks: nat, cycles: nat)
    returns (idle: bool, cycles': nat, ghost at': nat)
    requires batch > 0 && head < U64_MAX && ChainHashed(chain, head)
    requires OnTrack(db.Snapshot(), s, chain, head, confirmations, start, base,
                     Stale(s.blocks, chain, head), at, rollbacks, cycles)
    modifies db
    ensures OnTrack(db.Snapshot(), s, chain, head, confirmations, start, base,
                    Stale(s.blocks, chain, head), at', rollbacks, cycles')
    ensures !idle ==> Lag(head, confirmations, at') < Lag(head, confirmations, at)
    ensures idle ==> at' == Goal(head, confirmations, base) && CyclesLeft(head, confirmations, at') == 0
  {
    idle, at' := IndexStep(db, chain, head, confirmations, batch, start, at);
    cycles' := if idle then cycles else cycles + 1;
  }

  /** One iteration. It scans first, and a rollback ends it. */
  method Iterate(db: Database, chain: nat -> BlockRow, head: u64, confirmations: u64, batch: nat, start: nat,
                 rollbacks: nat, cycles: nat, ghost s: Store, ghost base: nat, ghost gone: nat, ghost at: nat)
    returns (idle: bool, rollbacks': nat, cycles': nat, ghost gone': nat, ghost at': nat)
    requires batch > 0 && head < U64_MAX && Ready(s, chain, head, start, base)
    requires OnTrack(db.Snapshot(), s, chain, head, confirmations, start, base, gone, at, rollbacks, cycles)
    modifies db
    ensures OnTrack(db.Snapshot(), s, chain, head, confirmations, start, base, gone', at', rollbacks', cycles')
    ensures !idle ==> LessWork(head, confirmations, gone, at, gone', at')
    ensures idle ==> gone' == Stale(s.blocks, chain, head) && at' == Goal(head, confirmations, base)
                     && CyclesLeft(head, confirmations, at') == 0
  {
    idle, rollbacks', cycles', gone', at' := false, rollbacks, cycles, gone, at;
    var fork;
    fork, gone' := ScanAndCount(db, chain, head, confirmations, start, s, base, gone, at, rollbacks, cycles);
    if fork.Some? {
      rollbacks' := rollbacks + 1;
    } else {
      gone' := gone;
      idle, cycles', at' := IndexAndCount(db, chain, head, confirmations, batch, start, s, base, at, rollbacks, cycles);
    }
  }

  method FollowLoop(db: Database, chain: nat -> BlockRow, head: u64, confirmations: u64, batch: nat, start: nat,
                    ghost base: nat)
    returns (rollbacks: nat, cycles: nat)
    requires batch > 0 && head < U64_MAX
    requires Ready(db.Snapshot(), chain, head, start, base)
    modifies db
    ensures Settled(db.Snapshot(), chain, head, start, Goal(head, confirmations, base))
    ensures rollbacks == RollbacksLeft(Stale(old(db.blocks), chain, head))
    ensures cycles == CyclesLeft(head, confirmations, base)
  {
    rollbacks, cycles := 0, 0;
    ghost var s, gone, at := db.Snapshot(), 0, base;
    var idle := false;
    while !idle
      invariant OnTrack(db.Snapshot(), s, chain, head, confirmations, start, base, gone, at, rollbacks, cycles)
      invariant idle ==> gone == Stale(s.blocks, chain, head) && at == Goal(head, confirmations, base)
                         && CyclesLeft(head, confirmations, at) == 0
      decreases !idle, Stale(s.blocks, chain, head) - gone, Lag(head, confirmations, at)
    {
      idle, rollbacks, cycles, gone, at :=
        Iterate(db, chain, head, confirmations, batch, start, rollbacks, cycles, s, base, gone, at);
    }
  }

  /** Convergence. From gap-free rows of which the k newest are stale, however large k, the
      loop becomes idle after ceil(k / 4096) rollbacks and ceil(lag / 500) indexing cycles,
      with gap-free rows up to the confirmed tip that all agree with the chain. */
  method FollowUntilIdle(db: Database, chain: nat -> BlockRow, head: u64, confirmations: u64, batch: nat, start: nat)
    returns (rollbacks: nat, cycles: nat)
    requires batch > 0 && head < U64_MAX
    requires Resumable(db.Snapshot(), chain, head, start)
    modifies db
    ensures var k := Stale(old(db.blocks), chain, head);
            var repaired := old(db.checkpoint).value - k;
            && repaired >= 0
            && Settled(db.Snapshot(), chain, head, start, Goal(head, confirmations, repaired))
            && rollbacks == (k + 4095) / 4096
            && cycles == (Lag(head, confirmations, repaired) + 499) / 500
  {
    ResumableIsReady(db.Snapshot(), chain, head, start);
    ghost var repaired := db.checkpoint.value - Stale(db.blocks, chain, head);
    RoundsForIsCeiling(Stale(db.blocks, chain, head), REORG_SCAN_CAP);
    RoundsForIsCeiling(Lag(head, confirmations, repaired), FOLLOW_CYCLE_BLOCK_CAP);
    rollbacks, cycles := FollowLoop(db, chain, head, confirmations, batch, start, repaired);
  }

  // ------------------------------------------------------------- after a failed chunk

  ghost predicate LowestOf(extra: set<nat>, from: nat) {
    from in extra && forall h | h in extra :: from <= h
  }

  /** The rows up to the checkpoint agree with the chain, the rows `extra` that a failed chunk
      left above it do not. */
  ghost predicate FailedChunk(s: Store, chain: Oracle, start: nat, last: nat, extra: set<nat>) {
    && s.checkpoint == Some(last) && start - 1 <= last
    && s.blocks.Keys == Heights(start, last) + extra && AllHashed(s.blocks)
    && (forall h | h in extra :: h > last && chain(h).Some? && chain(h) != s.blocks[h].hash)
    && (forall h | h in Heights(start, last) :: chain(h) == s.blocks[h].hash)
  }

  /** A row mismatches exactly if it is an extra one. */
  lemma ExtraRowsMismatch(s: Store, chain: Oracle, start: nat, last: nat, extra: set<nat>, row: Stored)
    requires FailedChunk(s, chain, start, last, extra)
    requires row.height in s.blocks && s.blocks[row.height].hash == Some(row.hash)
    ensures Mismatched(row, chain) <==> row.height in extra
    ensures row.height in extra <==> row.height > last
  {
    assert row.height in s.blocks.Keys;
  }

  lemma ExtraRowsComeFirst(s: Store, chain: Oracle, start: nat, last: nat, extra: set<nat>, from: nat)
    requires FailedChunk(s, chain, start, last, extra) && LowestOf(extra, from)
    ensures var k := MismatchRun(HashedRows(s.blocks), chain);
            k >= 1 && HashedRows(s.blocks)[k - 1].height == from
  {
    var rows, hs := HashedRows(s.blocks), HashedHeights(s.blocks);
    assert from in s.blocks.Keys;
    var i := NewestFirstHasAll(s.blocks, hs, from);
    NewestFirstIsSorted(s.blocks, hs);
    forall j | 0 <= j < |rows| ensures Mismatched(rows[j], chain) <==> rows[j].height >= from {
      ExtraRowsMismatch(s, chain, start, last, extra, rows[j]);
    }
    RunEndsAt(rows, chain, i + 1);
  }

  /** The repair then drops exactly the extra rows, but moves the checkpoint just below the
      lowest of them. The rows are gap-free again if and only if the failed chunk had stored
      its first height; otherwise the loop resumes past heights that nothing will index. */
  lemma FailedChunkThenReorg(s: Store, chain: Oracle, start: nat, last: nat, extra: set<nat>, from: nat)
    requires FailedChunk(s, chain, start, last, extra) && LowestOf(extra, from)
    ensures var v := Repaired(s, chain);
            && v.blocks.Keys == Heights(start, last)
            && v.checkpoint == Some(from - 1)
            && (ExactRows(v.blocks, start, from - 1) <==> from == last + 1)
  {
    ExtraRowsComeFirst(s, chain, start, last, extra, from);
    var v := Repaired(s, chain);
    assert v == Rollback(s, from);
    assert v.blocks.Keys == Heights(start, last);
    if from > last + 1 {
      assert last + 1 in Heights(start, from - 1) && last + 1 !in Heights(start, last);
    }
  }

  /** One scan of the loop, as it happens: blocks 0..100 are indexed, the next chunk stored
      only block 150 before it failed, and a reorg replaced that block. The scan reports 150,
      the rollback rewinds the checkpoint forward to 149, and the loop goes on at 150. */
  lemma FailedChunkLeavesGap(s: Store, chain: Oracle, head: u64)
    requires FailedChunk(s, chain, 0, 100, {150}) && 1000 <= head
    ensures Detect(RecentBlockHashes(s.blocks, REORG_SCAN_CAP), chain) == Some(150)
    ensures var v := Rollback(s, 150);
            && v.blocks.Keys == Heights(0, 100)
            && NextTarget(head, 12, v.checkpoint) == Some((150, head - 12))
  {
    var rows := HashedRows(s.blocks);
    var k := MismatchRun(rows, chain);
    assert LowestOf({150}, 150);
    ExtraRowsComeFirst(s, chain, 0, 100, {150}, 150);
    NewestFirstIsSorted(s.blocks, HashedHeights(s.blocks));
    assert forall i | 0 <= i < |rows| :: rows[i].height in s.blocks.Keys;
    assert rows[0].height in s.blocks.Keys && rows[0].height <= 150;
    assert k == 1;
    CycleVerdict(s.blocks, chain);
    FailedChunkThenReorg(s, chain, 0, 100, {150}, 150);
  }
}
