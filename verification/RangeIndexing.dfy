/** `process_chunk`, `index_range` and the catching-up follow loop: which block rows exist
    and what the checkpoint says, chunk by chunk. */
module RangeIndexing {
  import opened Options
  import opened Rounds
  import opened FollowDecisions
  import opened Tables

  /** The heights from a to b, both included; empty when b < a. */
  function Heights(a: nat, b: int): set<nat> {
    set h: nat | a <= h <= b && Within(a, h, b)
  }

  predicate Within(a: nat, h: nat, b: int) { a <= h <= b }

  /** The block rows are exactly those of the heights start..last. */
  predicate ExactRows(blocks: map<nat, BlockRow>, start: nat, last: int) {
    blocks.Keys == Heights(start, last)
  }

  /** ON CONFLICT DO NOTHING for a set of heights: stored rows win. */
  function WithRows(blocks: map<nat, BlockRow>, chain: nat -> BlockRow, hs: set<nat>): map<nat, BlockRow> {
    (map h | h in hs :: chain(h)) + blocks
  }

  lemma WithRowsOne(blocks: map<nat, BlockRow>, chain: nat -> BlockRow, hs: set<nat>, h: nat)
    ensures WithRows(blocks, chain, hs + {h}) ==
            if h in WithRows(blocks, chain, hs) then WithRows(blocks, chain, hs)
            else WithRows(blocks, chain, hs)[h := chain(h)]
  {
  }

  method Abandon(db: Database, chain: nat -> BlockRow, ghost first: map<nat, BlockRow>, ghost stored: set<nat>,
                 underway: set<nat>)
    requires db.blocks == WithRows(first, chain, stored)
    modifies db`blocks
    ensures db.blocks == WithRows(first, chain, stored + underway)
  {
    WithRowsUnion(first, chain, stored, underway);
    db.blocks := WithRows(db.blocks, chain, underway);
  }

  /** The tasks of a chunk finish in any order; `broken` are the heights whose task fails.
      The first failure abandons the chunk: the rows stored so far stay, and so do those that
      unfinished tasks, `underway`, had already stored. */
  method ProcessChunk(db: Database, chain: nat -> BlockRow, from: nat, last: nat, broken: set<nat>, underway: set<nat>)
    returns (ok: bool, processed: multiset<nat>)
    requires from <= last
    modifies db`blocks
    ensures ok <==> Heights(from, last) !! broken
    ensures ok ==> db.blocks == WithRows(old(db.blocks), chain, Heights(from, last))
    ensures ok ==> processed == multiset(Heights(from, last))
    ensures exists hs :: hs <= Heights(from, last) && db.blocks == WithRows(old(db.blocks), chain, hs)
    ensures !ok ==> underway * Heights(from, last) <= db.blocks.Keys
  {
    var all := Heights(from, last);
    var todo := all;
    ok, processed := true, multiset{};
    assert db.blocks == WithRows(old(db.blocks), chain, {});
    while todo != {}
      invariant todo <= all
      invariant db.blocks == WithRows(old(db.blocks), chain, all - todo)
      invariant processed == multiset(all - todo)
      invariant (all - todo) !! broken
      decreases todo
    {
      var h :| h in todo;
      if h in broken {
        assert h in Heights(from, last);
        Abandon(db, chain, old(db.blocks), all - todo, underway * todo);
        assert (all - todo) + underway * todo <= all;
        return false, processed;
      }
      WithRowsOne(old(db.blocks), chain, all - todo, h);
      assert all - (todo - {h}) == (all - todo) + {h};
      var inserted := db.InsertBlock(h, chain(h));
      processed := processed + multiset{h};
      todo := todo - {h};
    }
    assert all - todo == all;
  }

  /** One chunk and its checkpoint, after the heights from..start - 1 were added to `first`. */
  method IndexChunk(db: Database, chain: nat -> BlockRow, start: nat, end: nat, broken: set<nat>, underway: set<nat>,
                    ghost first: map<nat, BlockRow>, ghost from: nat, ghost last: nat)
    returns (ok: bool, processed: multiset<nat>)
    requires from <= start <= end <= last
    requires db.blocks == WithRows(first, chain, Heights(from, start - 1))
    modifies db`blocks, db`checkpoint
    ensures ok ==> db.blocks == WithRows(first, chain, Heights(from, end)) && db.checkpoint == Some(end)
    ensures ok ==> processed == multiset(Heights(start, end))
    ensures !ok ==> db.checkpoint == old(db.checkpoint) && !(Heights(from, last) !! broken)
    ensures !ok ==> exists hs :: Heights(from, start - 1) <= hs <= Heights(from, last)
                                 && db.blocks == WithRows(first, chain, hs)
  {
    ok, processed := ProcessChunk(db, chain, start, end, broken, underway);
    if !ok {
      ghost var part :| part <= Heights(start, end) && db.blocks == WithRows(old(db.blocks), chain, part);
      PartOfRange(from, start, end, last, part);
      WithRowsUnion(first, chain, Heights(from, start - 1), part);
      return;
    }
    db.UpdateCheckpoint(end);
    ExtendRange(from, start, end);
    WithRowsUnion(first, chain, Heights(from, start - 1), Heights(start, end));
  }

  /** `index_range`. `cancelled(i)` is what the flag says before the i-th chunk. `reached` is
      the last height of the last completed chunk, or from - 1 if none completed. */
  method IndexRange(db: Database, chain: nat -> BlockRow, from: nat, last: nat, batch: nat,
                    cancelled: nat -> bool, broken: set<nat>, underway: set<nat>)
    returns (ok: bool, reached: int, chunks: nat, processed: multiset<nat>)
    requires batch > 0 && from <= last
    modifies db`blocks, db`checkpoint
    ensures from - 1 <= reached <= last
    ensures reached == last || reached == from - 1 + chunks * batch
    ensures ok ==> db.blocks == WithRows(old(db.blocks), chain, Heights(from, reached))
    ensures ok ==> processed == multiset(Heights(from, reached))
    ensures db.checkpoint == if reached < from then old(db.checkpoint) else Some(reached)
    ensures ok && reached < last ==> cancelled(chunks)
    ensures forall i | 0 <= i < chunks :: !cancelled(i)
    ensures cancelled(0) ==> ok && reached == from - 1
    ensures !ok ==> !(Heights(from, last) !! broken)
    ensures !ok ==> exists hs :: Heights(from, reached) <= hs <= Heights(from, last)
                                 && db.blocks == WithRows(old(db.blocks), chain, hs)
  {
    var start := from;
    reached, chunks, processed, ok := from - 1, 0, multiset{}, true;
    assert Heights(from, from - 1) == {};
    assert db.blocks == WithRows(old(db.blocks), chain, {});
    while start <= last
      invariant from <= start && reached == (if start <= last then start - 1 else last)
      invariant start == from + chunks * batch
      invariant forall i | 0 <= i < chunks :: !cancelled(i)
      invariant db.blocks == WithRows(old(db.blocks), chain, Heights(from, reached))
      invariant processed == multiset(Heights(from, reached))
      invariant db.checkpoint == if reached < from then old(db.checkpoint) else Some(reached)
      decreases last + batch - start
    {
      if cancelled(chunks) {
        return;
      }
      var end := if start + batch - 1 < last then start + batch - 1 else last;
      var done;
      ok, done := IndexChunk(db, chain, start, end, broken, underway, old(db.blocks), from, last);
      if !ok {
        return;
      }
      ExtendRange(from, start, end);
      processed := processed + done;
      reached := end;
      start := start + batch;
      chunks := chunks + 1;
    }
  }

  lemma PartOfRange(from: nat, start: nat, end: nat, last: nat, part: set<nat>)
    requires from <= start <= end <= last && part <= Heights(start, end)
    ensures Heights(start, end) <= Heights(from, last)
    ensures Heights(from, start - 1) <= Heights(from, start - 1) + part <= Heights(from, last)
  {
    RangeContains(from, start, end, last);
    RangeContains(from, from, start - 1, last);
  }

  lemma RangeContains(from: nat, start: nat, end: int, last: nat)
    requires from <= start && end <= last
    ensures Heights(start, end) <= Heights(from, last)
  {
  }

  lemma ExtendRange(from: nat, start: nat, end: nat)
    requires from <= start <= end
    ensures Heights(from, end) == Heights(from, start - 1) + Heights(start, end)
    ensures Heights(from, start - 1) !! Heights(start, end)
    ensures multiset(Heights(from, end)) == multiset(Heights(from, start - 1)) + multiset(Heights(start, end))
  {
  }

  lemma WithRowsUnion(blocks: map<nat, BlockRow>, chain: nat -> BlockRow, a: set<nat>, b: set<nat>)
    ensures WithRows(WithRows(blocks, chain, a), chain, b) == WithRows(blocks, chain, a + b)
  {
  }

  // ------------------------------------------------------------ what the chunks keep

  /** Every completed or cancelled run over the range right after the checkpoint keeps the
      rows exactly start..checkpoint. */
  lemma CompletedChunksKeepExactRows(blocks: map<nat, BlockRow>, chain: nat -> BlockRow, start: nat, last: int,
                                     reached: int)
    requires start - 1 <= last <= reached && ExactRows(blocks, start, last)
    ensures ExactRows(WithRows(blocks, chain, Heights(last + 1, reached)), start, reached)
  {
    var added := Heights(last + 1, reached);
    assert WithRows(blocks, chain, added).Keys == added + blocks.Keys;
    assert Heights(start, reached) == Heights(start, last) + added;
  }

  function Lag(head: u64, confirmations: u64, checkpoint: nat): nat {
    var safe := SaturatingSub(head, confirmations);
    if checkpoint < safe then safe - checkpoint else 0
  }

  function Capped(lag: nat): nat {
    if lag <= FOLLOW_CYCLE_BLOCK_CAP then lag else FOLLOW_CYCLE_BLOCK_CAP
  }

  /** The range of a cycle as the loop sees it: at most 500 confirmed heights after `at`. */
  function CycleEnd(head: u64, confirmations: u64, at: nat): nat {
    at + Capped(Lag(head, confirmations, at))
  }

  /** One cycle of the loop that finds no reorg. Uninterrupted it indexes the next 500
      confirmed heights, or all of them if there are fewer, and nothing else. Cancelled at a
      chunk boundary it leaves the rows gap-free up to an earlier checkpoint; a failing task
      leaves some rows of the range above that checkpoint. */
  method FollowCycle(db: Database, chain: nat -> BlockRow, head: u64, confirmations: u64, batch: nat, start: nat,
                     cancelled: nat -> bool, broken: set<nat>, underway: set<nat>)
    returns (ok: bool, processed: multiset<nat>)
    requires batch > 0
    requires db.checkpoint.Some? && start - 1 <= db.checkpoint.value < U64_MAX
    requires ExactRows(db.blocks, start, db.checkpoint.value)
    modifies db`blocks, db`checkpoint
    ensures db.checkpoint.Some?
    ensures var at := old(db.checkpoint).value;
            at <= db.checkpoint.value <= CycleEnd(head, confirmations, at)
    ensures var at := old(db.checkpoint).value;
            var reached := db.checkpoint.value;
            && (ok ==> ExactRows(db.blocks, start, reached))
            && (ok ==> db.blocks == WithRows(old(db.blocks), chain, Heights(at + 1, reached)))
            && (ok ==> processed == multiset(Heights(at + 1, reached)))
    ensures var at := old(db.checkpoint).value;
            var end := CycleEnd(head, confirmations, at);
            && (!ok ==> !(Heights(at + 1, end) !! broken))
            && (!ok ==> exists hs :: Heights(at + 1, db.checkpoint.value) <= hs <= Heights(at + 1, end)
                                     && db.blocks == WithRows(old(db.blocks), chain, hs))
            && (ok && db.checkpoint.value < end ==> exists chunk :: cancelled(chunk))
            && (cancelled(0) ==> ok && db.checkpoint == old(db.checkpoint))
  {
    ghost var at := db.checkpoint.value;
    CycleRange(head, confirmations, at, FOLLOW_CYCLE_BLOCK_CAP);
    ok, processed := true, multiset{};
    var target := NextTarget(head, confirmations, db.checkpoint);
    if target.Some? {
      var (a, b) := CapRangeTo(target.value.0, target.value.1, FOLLOW_CYCLE_BLOCK_CAP);
      assert b == CycleEnd(head, confirmations, at);
      ghost var blocks0 := db.blocks;
      var reached, chunks;
      ok, reached, chunks, processed := IndexRange(db, chain, a, b, batch, cancelled, broken, underway);
      CompletedChunksKeepExactRows(blocks0, chain, start, at, reached);
    } else {
      assert Heights(at + 1, at) == {};
      assert WithRows(db.blocks, chain, {}) == db.blocks;
    }
  }

  function CyclesFor(lag: nat): nat {
    RoundsFor(lag, FOLLOW_CYCLE_BLOCK_CAP)
  }

  method CatchUpLoop(db: Database, chain: nat -> BlockRow, head: u64, confirmations: u64, batch: nat, start: nat)
    returns (cycles: nat, processed: multiset<nat>)
    requires batch > 0 && head < U64_MAX
    requires db.checkpoint.Some? && start - 1 <= db.checkpoint.value < U64_MAX
    requires ExactRows(db.blocks, start, db.checkpoint.value)
    modifies db`blocks, db`checkpoint
    ensures var from := old(db.checkpoint).value;
            var lag := Lag(head, confirmations, from);
            && db.checkpoint == Some(from + lag)
            && ExactRows(db.blocks, start, from + lag)
            && cycles == CyclesFor(lag)
            && processed == multiset(Heights(from + 1, from + lag))
  {
    cycles, processed := 0, multiset{};
    ghost var from := db.checkpoint.value;
    ghost var lag := Lag(head, confirmations, from);
    var at := db.checkpoint.value;
    assert Heights(from + 1, from) == {};
    while NextTarget(head, confirmations, Some(at)).Some?
      invariant from <= at <= from + lag && at < U64_MAX
      invariant db.checkpoint == Some(at) && ExactRows(db.blocks, start, at)
      invariant cycles + CyclesFor(from + lag - at) == CyclesFor(lag)
      invariant processed == multiset(Heights(from + 1, at))
      decreases from + lag - at
    {
      CycleRange(head, confirmations, at, FOLLOW_CYCLE_BLOCK_CAP);
      ghost var step := Capped(from + lag - at);
      assert Lag(head, confirmations, at) == from + lag - at;
      var ok, done := FollowCycle(db, chain, head, confirmations, batch, start, _ => false, {}, {});
      OneRound(from + lag - at, FOLLOW_CYCLE_BLOCK_CAP, step);
      ExtendRange(from + 1, at + 1, at + step);
      processed := processed + done;
      at := db.checkpoint.value;
      cycles := cycles + 1;
    }
    CycleRange(head, confirmations, at, FOLLOW_CYCLE_BLOCK_CAP);
  }

  /** The catching-up loop with a fixed head and no reorg takes ceil(lag / 500) cycles, ends
      at head - confirmations with the rows exactly start..checkpoint, and indexes every
      height in between exactly once. */
  method CatchUp(db: Database, chain: nat -> BlockRow, head: u64, confirmations: u64, batch: nat, start: nat)
    returns (cycles: nat, processed: multiset<nat>)
    requires batch > 0 && head < U64_MAX
    requires db.checkpoint.Some? && start - 1 <= db.checkpoint.value < U64_MAX
    requires ExactRows(db.blocks, start, db.checkpoint.value)
    modifies db`blocks, db`checkpoint
    ensures var from := old(db.checkpoint).value;
            var lag := Lag(head, confirmations, from);
            && db.checkpoint == Some(from + lag)
            && ExactRows(db.blocks, start, from + lag)
            && cycles == (lag + 499) / 500
            && processed == multiset(Heights(from + 1, from + lag))
  {
    RoundsForIsCeiling(Lag(head, confirmations, db.checkpoint.value), FOLLOW_CYCLE_BLOCK_CAP);
    cycles, processed := CatchUpLoop(db, chain, head, confirmations, batch, start);
  }

  // ---------------------------------------------------------- what a rollback keeps

  /** What a rollback to a stored height keeps. The rows are those of start..last, where last
      is the checkpoint, and what a failed chunk left above it. The rolled-back rows are
      exactly start..checkpoint again if and only if the height is not zero, where the rewound
      checkpoint still claims block 0, and no height between checkpoint and fork is missing. */
  lemma RollbackKeepsExactRowsIff(s: Store, start: nat, last: nat, extra: set<nat>, from: nat)
    requires s.checkpoint == Some(last) && start - 1 <= last
    requires s.blocks.Keys == Heights(start, last) + extra
    requires forall h | h in extra :: h > last
    requires from in s.blocks
    ensures Rollback(s, from).checkpoint.Some?
    ensures ExactRows(Rollback(s, from).blocks, start, Rollback(s, from).checkpoint.value)
            <==> from > 0 && Heights(last + 1, from - 1) <= extra
  {
    var v := Rollback(s, from);
    assert v.blocks.Keys == set h | h in s.blocks.Keys && h < from;
    if from == 0 {
      assert 0 !in v.blocks && 0 in Heights(start, 0);
    } else {
      if Heights(last + 1, from - 1) <= extra {
        assert v.blocks.Keys == Heights(start, from - 1);
      }
      if v.blocks.Keys == Heights(start, from - 1) {
        forall h | h in Heights(last + 1, from - 1) ensures h in extra {
          assert h in Heights(start, from - 1);
        }
      }
    }
  }

  /** After a rollback to a positive height the loop re-indexes from exactly that height. */
  lemma RollbackResumesAtFork(s: Store, from: nat, head: u64, confirmations: u64)
    requires s.checkpoint.Some? && 0 < from <= SaturatingSub(head, confirmations)
    ensures NextTarget(head, confirmations, Rollback(s, from).checkpoint)
            == Some((from, SaturatingSub(head, confirmations)))
  {
  }
}
