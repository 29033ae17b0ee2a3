/** Reorg correction over a chain that stands still: repeated detect-then-rollback cycles
    of the follow loop, however deep the reorg. */
module ReorgRepair {
  import opened Options
  import opened ForkScan
  import opened Tables
  import opened Rounds

  const REORG_SCAN_CAP: nat := 4096

  /** The node knows every stored height. */
  ghost predicate AllAnswered(rows: seq<Stored>, chain: Oracle) {
    AnsweredUpTo(rows, chain, |rows|)
  }

  // ------------------------------------------------- rollback seen on the listing

  lemma {:induction false} ListingDependsOnRows(a: map<nat, BlockRow>, b: map<nat, BlockRow>, hs: set<nat>)
    requires forall h | h in hs :: h in a && h in b && a[h] == b[h] && a[h].hash.Some?
    ensures NewestFirst(a, hs) == NewestFirst(b, hs)
    decreases hs
  {
    if hs != {} {
      ListingDependsOnRows(a, b, hs - {MaxOf(hs)});
    }
  }

  /** Rolling back to the j-th newest hashed row drops exactly the j newest hashed rows. */
  lemma {:induction false} RollbackDropsNewest(blocks: map<nat, BlockRow>, j: nat)
    requires 1 <= j <= |HashedRows(blocks)|
    ensures HashedRows(BlocksBelow(blocks, HashedRows(blocks)[j - 1].height)) == HashedRows(blocks)[j..]
    decreases j
  {
    var rows, hs := HashedRows(blocks), HashedHeights(blocks);
    NewestFirstIsSorted(blocks, hs);
    var m := MaxOf(hs);
    var lower := BlocksBelow(blocks, m);
    assert HashedHeights(lower) == hs - {m};
    ListingDependsOnRows(blocks, lower, hs - {m});
    assert HashedRows(lower) == rows[1..];
    if j > 1 {
      RollbackDropsNewest(lower, j - 1);
      var f := rows[j - 1].height;
      assert rows[1..][j - 2] == rows[j - 1] && rows[1..][j - 1..] == rows[j..];
      assert rows[0].height > rows[j - 1].height;
      assert BlocksBelow(lower, f) == BlocksBelow(blocks, f);
    }
  }

  // --------------------------------------------------------------- one cycle

  /** One cycle sees the newest rows up to the cap: it does nothing when the tip agrees,
      and otherwise rolls back the mismatched rows it can see. */
  lemma CycleVerdict(blocks: map<nat, BlockRow>, chain: Oracle)
    requires AllAnswered(HashedRows(blocks), chain)
    ensures var rows := HashedRows(blocks);
            var k := MismatchRun(rows, chain);
            Detect(RecentBlockHashes(blocks, REORG_SCAN_CAP), chain) ==
            if k == 0 then None else Some(rows[Min(k, REORG_SCAN_CAP) - 1].height)
  {
    var rows := HashedRows(blocks);
    var recent := RecentBlockHashes(blocks, REORG_SCAN_CAP);
    var n := Min(|rows|, REORG_SCAN_CAP);
    assert rows[..|rows|] == rows;
    assert recent == rows[..n];
    RunOfPrefix(rows, chain, n);
    if recent != [] {
      WindowCovers(1, MismatchRun(recent, chain), |recent|);
    }
  }

  lemma {:induction false} RunOfSuffix(rows: seq<Stored>, chain: Oracle, j: nat)
    requires j <= MismatchRun(rows, chain)
    ensures MismatchRun(rows[j..], chain) == MismatchRun(rows, chain) - j
  {
    RunEndsAt(rows[j..], chain, MismatchRun(rows, chain) - j);
  }

  // -------------------------------------------------------------------- the loop

  /** The store with its n newest hashed rows, and all that depends on them, rolled back. */
  function RolledBack(s: Store, n: nat): Store
    requires n <= |HashedRows(s.blocks)|
  {
    if n == 0 then s else Rollback(s, HashedRows(s.blocks)[n - 1].height)
  }

  /** The store that one rollback at the true fork point leaves: all newest mismatched rows gone. */
  function Repaired(s: Store, chain: Oracle): Store {
    RolledBack(s, MismatchRun(HashedRows(s.blocks), chain))
  }

  lemma RolledBackRows(s: Store, n: nat)
    requires n <= |HashedRows(s.blocks)|
    ensures HashedRows(RolledBack(s, n).blocks) == HashedRows(s.blocks)[n..]
  {
    if n > 0 {
      RollbackDropsNewest(s.blocks, n);
    }
  }

  /** Rolling back n rows and then j more is rolling back n + j rows. */
  lemma RolledBackTwice(s: Store, n: nat, j: nat)
    requires 1 <= j && n + j <= |HashedRows(s.blocks)|
    ensures j <= |HashedRows(RolledBack(s, n).blocks)|
    ensures RolledBack(RolledBack(s, n), j) == RolledBack(s, n + j)
  {
    var rows := HashedRows(s.blocks);
    RolledBackRows(s, n);
    assert rows[n..][j - 1] == rows[n + j - 1];
    if n > 0 {
      NewestFirstIsSorted(s.blocks, HashedHeights(s.blocks));
      RollbacksCompose(s, rows[n - 1].height, rows[n + j - 1].height);
    }
  }

  /** The height one cycle rolls back to, as far down as the capped scan can see. */
  function CycleFork(s: Store, chain: Oracle): Option<nat> {
    var rows := HashedRows(s.blocks);
    var k := MismatchRun(rows, chain);
    if k == 0 then None else Some(rows[Min(k, REORG_SCAN_CAP) - 1].height)
  }

  /** Where the loop stands after n rows are gone, and where its next cycle takes it. */
  lemma NextCycle(start: Store, chain: Oracle, n: nat, j: nat)
    requires AllAnswered(HashedRows(start.blocks), chain)
    requires n <= MismatchRun(HashedRows(start.blocks), chain)
    requires j == Min(MismatchRun(HashedRows(start.blocks), chain) - n, REORG_SCAN_CAP)
    ensures AllAnswered(HashedRows(RolledBack(start, n).blocks), chain)
    ensures j == 0 <==> CycleFork(RolledBack(start, n), chain) == None
    ensures j > 0 ==> Rollback(RolledBack(start, n), CycleFork(RolledBack(start, n), chain).value)
                      == RolledBack(start, n + j)
  {
    var rows := HashedRows(start.blocks);
    RolledBackRows(start, n);
    RunOfSuffix(rows, chain, n);
    if j > 0 {
      RolledBackTwice(start, n, j);
    }
  }

  /** One cycle of the loop: scan, and roll back if a fork is found. */
  method RepairCycle(db: Database, chain: Oracle) returns (fork: Option<nat>)
    requires AllAnswered(HashedRows(db.blocks), chain)
    modifies db
    ensures fork == CycleFork(old(db.Snapshot()), chain)
    ensures db.Snapshot() == if fork.Some? then Rollback(old(db.Snapshot()), fork.value) else old(db.Snapshot())
  {
    CycleVerdict(db.blocks, chain);
    NewestFirstIsSorted(db.blocks, HashedHeights(db.blocks));
    var recent := RecentBlockHashes(db.blocks, REORG_SCAN_CAP);
    var lookups;
    fork, lookups := DetectFork(recent, chain);
    if fork.Some? {
      var depth := db.RollbackFromBlock(fork.value);
    }
  }

  /** The follow loop while every cycle finds a reorg: each rollback is followed by a fresh
      scan. It stops after ceil(k / cap) rollbacks, where k newest rows are mismatched, in
      exactly the store that a single rollback at the true fork point leaves. */
  method RepairLoop(db: Database, chain: Oracle) returns (rollbacks: nat)
    requires AllAnswered(HashedRows(db.blocks), chain)
    modifies db
    ensures db.Snapshot() == Repaired(old(db.Snapshot()), chain)
    ensures rollbacks == (MismatchRun(old(HashedRows(db.blocks)), chain) + 4095) / 4096
  {
    rollbacks := 0;
    ghost var start := db.Snapshot();
    ghost var k := MismatchRun(HashedRows(start.blocks), chain);
    ghost var gone := 0;
    while true
      invariant gone <= k && db.Snapshot() == RolledBack(start, gone)
      invariant rollbacks + RoundsFor(k - gone, REORG_SCAN_CAP) == RoundsFor(k, REORG_SCAN_CAP)
      decreases k - gone
    {
      ghost var j := Min(k - gone, REORG_SCAN_CAP);
      NextCycle(start, chain, gone, j);
      var fork := RepairCycle(db, chain);
      if fork.None? {
        RoundsForIsCeiling(k, REORG_SCAN_CAP);
        return;
      }
      OneRound(k - gone, REORG_SCAN_CAP, j);
      gone := gone + j;
      rollbacks := rollbacks + 1;
    }
  }

  // --------------------------------------------------- which rows are left

  /** Agreement at a height implies agreement at every stored height below it. */
  ghost predicate AgreementGoesDown(rows: seq<Stored>, chain: Oracle) {
    forall i, j | 0 <= i < j < |rows| && Agrees(rows[i], chain) :: Agrees(rows[j], chain)
  }

  /** The rows left are the rows up to the highest agreeing one. */
  lemma RepairKeepsUpToHighestAgreement(rows: seq<Stored>, chain: Oracle, i: nat)
    requires AllAnswered(rows, chain) && i < |rows|
    ensures i >= MismatchRun(rows, chain) <==> exists j :: 0 <= j <= i && Agrees(rows[j], chain)
  {
    var k := MismatchRun(rows, chain);
    if i >= k {
      assert Agrees(rows[k], chain);
    }
  }

  /** `left` holds exactly the rows that agree with the chain. */
  ghost predicate ExactlyAgreeing(left: seq<Stored>, rows: seq<Stored>, chain: Oracle) {
    forall row :: row in left <==> row in rows && Agrees(row, chain)
  }

  lemma LinkedRowsAreExact(rows: seq<Stored>, chain: Oracle)
    requires AllAnswered(rows, chain) && AgreementGoesDown(rows, chain)
    ensures ExactlyAgreeing(rows[MismatchRun(rows, chain)..], rows, chain)
  {
    var k := MismatchRun(rows, chain);
    var left := rows[k..];
    forall row | row in left ensures row in rows && Agrees(row, chain) {
      var i :| 0 <= i < |left| && left[i] == row;
      assert rows[k + i] == row && Agrees(rows[k], chain);
    }
    forall row | row in rows && Agrees(row, chain) ensures row in left {
      var i :| 0 <= i < |rows| && rows[i] == row;
      assert left[i - k] == row;
    }
  }

  lemma ExactRowsAreLinked(rows: seq<Stored>, chain: Oracle)
    requires ExactlyAgreeing(rows[MismatchRun(rows, chain)..], rows, chain)
    ensures AgreementGoesDown(rows, chain)
  {
    var k := MismatchRun(rows, chain);
    forall i, j | 0 <= i < j < |rows| && Agrees(rows[i], chain) ensures Agrees(rows[j], chain) {
      assert rows[k..][j - k] == rows[j];
      assert rows[j] in rows[k..];
    }
  }

  /** The hashed rows left by the repair are exactly those that agree with the chain if and
      only if agreement goes down, which is what hash linkage provides. */
  lemma RepairIsExactIffLinked(s: Store, chain: Oracle)
    requires AllAnswered(HashedRows(s.blocks), chain)
    ensures ExactlyAgreeing(HashedRows(Repaired(s, chain).blocks), HashedRows(s.blocks), chain)
            <==> AgreementGoesDown(HashedRows(s.blocks), chain)
  {
    var rows := HashedRows(s.blocks);
    RolledBackRows(s, MismatchRun(rows, chain));
    if AgreementGoesDown(rows, chain) {
      LinkedRowsAreExact(rows, chain);
    } else if ExactlyAgreeing(rows[MismatchRun(rows, chain)..], rows, chain) {
      ExactRowsAreLinked(rows, chain);
    }
  }

  /** Without linkage an agreeing tip hides a stale row below it: the scan reports nothing. */
  lemma AgreeingTipHidesStaleRow(rows: seq<Stored>, chain: Oracle)
    requires rows != [] && Agrees(rows[0], chain)
    ensures Detect(rows, chain) == None && Lookups(rows, chain) == 1
  {
    LookupCost(rows, chain);
  }
}
