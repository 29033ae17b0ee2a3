/** What runs of the follow machine keep when the chain is not as stable as its confirmations
    promise: which rows exist, and which stale rows no scan can see. */
module FollowRuns {
  import opened Options
  import opened ForkScan
  import opened Tables
  import opened FollowDecisions
  import opened ReorgRepair
  import opened RangeIndexing
  import opened ConfirmedFollow

  lemma RunSnoc(regime: Regime, c: Config, w: World, steps: seq<Step>, last: Step)
    requires Run(regime, c, w, steps).Some?
    requires var v := Run(regime, c, w, steps).value; Enabled(c, v, last) && Permits(regime, c, v, last)
    ensures Run(regime, c, w, steps + [last]) == Some(Apply(c, Run(regime, c, w, steps).value, last))
  {
    assert (steps + [last])[..|steps|] == steps;
  }

  // ------------------------------------------------------------------------ no gaps

  /** The heights that are stored: those up to the checkpoint, and what the chunk in progress
      has stored so far. */
  ghost predicate GapFree(w: World, start: nat) {
    && w.checkpoint.Some? && start - 1 <= w.checkpoint.value
    && var last := w.checkpoint.value;
    && if w.at.Indexing?
       then && last < w.at.chunkEnd <= w.at.last
            && w.at.todo <= Heights(last + 1, w.at.chunkEnd)
            && w.blocks.Keys == Heights(start, last) + (Heights(last + 1, w.at.chunkEnd) - w.at.todo)
       else ExactRows(w.blocks, start, last)
  }

  /** A scan compares rows that are stored. */
  ghost predicate ScanIsStored(w: World) {
    w.at.Scanning? ==>
      forall i | 0 <= i < |w.at.local| ::
        w.at.local[i].height in w.blocks && w.blocks[w.at.local[i].height].hash == Some(w.at.local[i].hash)
  }

  /** Genesis, if stored, is the chain's, and no answer says otherwise. */
  ghost predicate GenesisAgrees(w: World) {
    && w.chain != []
    && (0 in w.blocks ==> w.blocks[0].hash == Some(w.chain[0]))
    && (w.at.Scanning? && 0 in w.at.answers ==> w.at.answers[0].None? || w.at.answers[0] == Some(w.chain[0]))
  }

  ghost predicate GapInv(w: World, start: nat) {
    GapFree(w, start) && ScanIsStored(w) && GenesisAgrees(w)
  }

  lemma StartScanKeepsGaps(c: Config, w: World, start: nat)
    requires GapInv(w, start) && Enabled(c, w, StartScan)
    ensures GapInv(Apply(c, w, StartScan), start)
  {
    NewestFirstIsSorted(w.blocks, HashedHeights(w.blocks));
    var rows, local := HashedRows(w.blocks), RecentBlockHashes(w.blocks, REORG_SCAN_CAP);
    assert forall i | 0 <= i < |local| :: local[i] == rows[i];
  }

  /** A reported fork is a stored height above genesis. */
  lemma DecideKeepsGaps(c: Config, w: World, start: nat)
    requires GapInv(w, start) && Enabled(c, w, Decide)
    ensures GapInv(Apply(c, w, Decide), start)
  {
    var local, oracle := w.at.local, Answers(w.at.answers);
    var fork := Detect(local, oracle);
    if fork.Some? {
      var k := MismatchRun(local, oracle);
      assert Mismatched(local[k - 1], oracle) && fork.value == local[k - 1].height;
      assert fork.value > 0 && fork.value in w.blocks.Keys;
      assert BlocksBelow(w.blocks, fork.value).Keys == Heights(start, fork.value - 1);
    }
  }

  /** A chunk is the next `batch` heights, or what is left of the range. */
  lemma ChunkStartsGapFree(c: Config, first: nat, last: nat)
    requires first <= last
    ensures var p := ChunkFrom(c, first, last);
            && p.Indexing? && first <= p.chunkEnd <= p.last == last && p.todo == Heights(first, p.chunkEnd)
            && p.chunkEnd - first < c.batch && (p.chunkEnd < last ==> p.chunkEnd - first + 1 == c.batch)
  {
  }

  lemma PickRangeKeepsGaps(c: Config, w: World, start: nat)
    requires GapInv(w, start) && Enabled(c, w, PickRange)
    ensures GapInv(Apply(c, w, PickRange), start)
  {
    match NextTarget(w.at.head, c.confirmations, w.checkpoint)
    case None =>
    case Some((from, to)) =>
      var (a, b) := CapRangeTo(from, to, FOLLOW_CYCLE_BLOCK_CAP);
      ChunkStartsGapFree(c, a, b);
  }

  lemma StoreBlockKeepsGaps(c: Config, w: World, start: nat, h: nat)
    requires GapInv(w, start) && Enabled(c, w, StoreBlock(h))
    ensures GapInv(Apply(c, w, StoreBlock(h)), start)
  {
    var v := Apply(c, w, StoreBlock(h));
    assert h in Heights(w.checkpoint.value + 1, w.at.chunkEnd);
    assert v.blocks.Keys == w.blocks.Keys + {h};
  }

  lemma FinishChunkKeepsGaps(c: Config, w: World, start: nat)
    requires GapInv(w, start) && Enabled(c, w, FinishChunk)
    ensures GapInv(Apply(c, w, FinishChunk), start)
  {
    var last, end := w.checkpoint.value, w.at.chunkEnd;
    assert Heights(start, last) + Heights(last + 1, end) == Heights(start, end);
    if end < w.at.last {
      ChunkStartsGapFree(c, end + 1, w.at.last);
    }
  }

  lemma RestartKeepsGaps(c: Config, w: World, start: nat)
    requires GapInv(w, start) && Permits(WholeChunks, c, w, Restart)
    ensures GapInv(Apply(c, w, Restart), start)
  {
    if w.at.Indexing? {
      assert Heights(w.checkpoint.value + 1, w.at.chunkEnd) - w.at.todo == {};
    }
  }

  lemma StepKeepsGaps(c: Config, w: World, start: nat, step: Step)
    requires GapInv(w, start) && Enabled(c, w, step) && Permits(WholeChunks, c, w, step)
    ensures GapInv(Apply(c, w, step), start)
  {
    match step
    case ChainMoves(_) =>
    case StartScan => StartScanKeepsGaps(c, w, start);
    case Lookup(_, _) =>
    case Decide => DecideKeepsGaps(c, w, start);
    case ReadHead =>
    case PickRange => PickRangeKeepsGaps(c, w, start);
    case FetchBlock(_) =>
    case StoreBlock(h) => StoreBlockKeepsGaps(c, w, start, h);
    case FinishChunk => FinishChunkKeepsGaps(c, w, start);
    case Restart => RestartKeepsGaps(c, w, start);
  }

  /** Whatever the chain does above genesis, and whenever it does it: as long as the process
      ends only where a chunk ends, inside a range or after it, the rows are exactly
      start..checkpoint between cycles, and inside one only what the current chunk has stored
      so far is added. */
  lemma {:induction false} RowsStayGapFree(c: Config, w: World, steps: seq<Step>, start: nat)
    requires w.at.Top? && GapInv(w, start) && Run(WholeChunks, c, w, steps).Some?
    ensures GapInv(Run(WholeChunks, c, w, steps).value, start)
  {
    if steps != [] {
      var init := steps[..|steps| - 1];
      RowsStayGapFree(c, w, init, start);
      StepKeepsGaps(c, Run(WholeChunks, c, w, init).value, start, steps[|steps| - 1]);
    }
  }

  // ------------------------------------------------- nothing missing in confirmed runs

  /** Every height up to the checkpoint is stored, and every height of the chunk in progress
      that is not to do. Rows above may be left from a chunk that was cut short. */
  ghost predicate NothingMissing(w: World, start: nat) {
    && w.checkpoint.Some? && start - 1 <= w.checkpoint.value
    && Heights(start, w.checkpoint.value) <= w.blocks.Keys
    && (w.at.Indexing? ==>
          && w.checkpoint.value < w.at.chunkEnd <= w.at.last
          && Heights(w.checkpoint.value + 1, w.at.chunkEnd) - w.at.todo <= w.blocks.Keys)
  }

  lemma StepMissesNothing(c: Config, w: World, start: nat, step: Step)
    requires Inv(c, w) && NothingMissing(w, start) && Enabled(c, w, step) && Permits(Confirmed, c, w, step)
    ensures NothingMissing(Apply(c, w, step), start)
  {
    match step
    case Decide => StepKeepsInv(c, w, Decide);
    case PickRange =>
      match NextTarget(w.at.head, c.confirmations, w.checkpoint) {
        case None =>
        case Some((from, to)) =>
          var (a, b) := CapRangeTo(from, to, FOLLOW_CYCLE_BLOCK_CAP);
          ChunkStartsGapFree(c, a, b);
          assert Heights(a, ChunkFrom(c, a, b).chunkEnd) - ChunkFrom(c, a, b).todo == {};
      }
    case FinishChunk =>
      var last, end := w.checkpoint.value, w.at.chunkEnd;
      assert Heights(start, end) == Heights(start, last) + (Heights(last + 1, end) - w.at.todo);
      if end < w.at.last {
        ChunkStartsGapFree(c, end + 1, w.at.last);
        var next := ChunkFrom(c, end + 1, w.at.last);
        assert Heights(end + 1, next.chunkEnd) - next.todo == {};
      }
    case _ =>
  }

  /** While confirmed blocks stay, restarts anywhere cost nothing: in every reachable state
      every height from the start to the checkpoint is stored, and with the chain's block. */
  lemma {:induction false} ConfirmedRunsMissNothing(c: Config, w: World, steps: seq<Step>, start: nat)
    requires Initial(c, w) && NothingMissing(w, start) && Run(Confirmed, c, w, steps).Some?
    ensures NothingMissing(Run(Confirmed, c, w, steps).value, start)
  {
    if steps != [] {
      var init := steps[..|steps| - 1];
      ConfirmedRunsMissNothing(c, w, init, start);
      ConfirmedRowsNeverRollBack(c, w, init);
      StepMissesNothing(c, Run(Confirmed, c, w, init).value, start, steps[|steps| - 1]);
    }
  }

  // ------------------------------------------------------------- unanswered lookups

  /** A lookup that fails leaves no answer, and a scan without an answer for the newest row
      changes nothing. */
  lemma UnansweredScanDoesNothing(c: Config, w: World, h: nat)
    requires Enabled(c, w, Lookup(h, false)) && w.at.local[0].height == h
    ensures var v := Apply(c, w, Lookup(h, false));
            && v.at.answers == w.at.answers[h := None]
            && (Enabled(c, v, Decide) ==> Apply(c, v, Decide) == w.(at := NoFork))
  {
    var v := Apply(c, w, Lookup(h, false));
    AgreeingTipFindsNoFork(v.at.local, Answers(v.at.answers));
  }

  // -------------------------------------------------------------- stale rows that stay

  /** A row at j agrees with the chain, and so do all rows above it. */
  ghost predicate AgreesFrom(w: World, j: nat) {
    && j in w.blocks && w.blocks[j].hash.Some?
    && forall h | h in w.blocks && h >= j && w.blocks[h].hash.Some? ::
         h < |w.chain| && w.chain[h] == w.blocks[h].hash.value
  }

  /** A scan under way starts at or above j, from an agreeing row, and has only true answers. */
  ghost predicate ScanFrom(w: World, j: nat) {
    w.at.Scanning? ==>
      && w.at.local != []
      && w.at.local[0].height < |w.chain| && w.chain[w.at.local[0].height] == w.at.local[0].hash
      && forall h | h in w.at.answers ::
           w.at.answers[h].None? || (h < |w.chain| && w.at.answers[h] == Some(w.chain[h]))
  }

  /** What was fetched is still the chain's. */
  ghost predicate FetchedAgrees(w: World) {
    w.at.Indexing? ==>
      forall h | h in w.at.fetched :: h < |w.chain| && w.at.fetched[h].hash == Some(w.chain[h])
  }

  ghost predicate Hidden(first: World, w: World, j: nat) {
    && AgreesFrom(w, j) && ScanFrom(w, j) && FetchedAgrees(w)
    && w.rollbacks == first.rollbacks && first.chain <= w.chain
    && forall h | h in first.blocks :: h in w.blocks && w.blocks[h] == first.blocks[h]
  }

  lemma NewestRowIsFirst(blocks: map<nat, BlockRow>, j: nat)
    requires j in blocks && blocks[j].hash.Some?
    ensures var local := RecentBlockHashes(blocks, REORG_SCAN_CAP);
            && local != [] && local[0].height >= j
            && local[0].height in blocks && blocks[local[0].height].hash == Some(local[0].hash)
  {
    var hs := HashedHeights(blocks);
    assert j in hs;
    assert HashedRows(blocks)[0].height == MaxOf(hs);
  }

  lemma StepKeepsHidden(c: Config, first: World, w: World, j: nat, step: Step)
    requires Hidden(first, w, j) && Enabled(c, w, step) && Permits(Growing, c, w, step)
    ensures Hidden(first, Apply(c, w, step), j)
  {
    match step
    case StartScan => NewestRowIsFirst(w.blocks, j);
    case Decide =>
      assert w.at.local[0].height in w.at.answers;
      AgreeingTipFindsNoFork(w.at.local, Answers(w.at.answers));
    case _ =>
  }

  /** Below a stored row that agrees, nothing is ever looked at again: while the chain only
      grows, no rollback fires and every row stays as it is, stale or not, through any number
      of scans, cycles and restarts. */
  lemma {:induction false} HiddenRowsStay(c: Config, w: World, steps: seq<Step>, j: nat)
    requires w.at.Top? && AgreesFrom(w, j) && Run(Growing, c, w, steps).Some?
    ensures Hidden(w, Run(Growing, c, w, steps).value, j)
  {
    if steps != [] {
      var init := steps[..|steps| - 1];
      HiddenRowsStay(c, w, init, j);
      StepKeepsHidden(c, w, Run(Growing, c, w, init).value, j, steps[|steps| - 1]);
    }
  }

  // -------------------------------------------------------------- gaps that stay

  /** The height g was passed over: it is not stored, and the loop works above it. */
  ghost predicate PassedOver(w: World, g: nat) {
    && w.checkpoint.Some? && g <= w.checkpoint.value && g !in w.blocks
    && (w.at.Indexing? ==> g <= w.at.chunkEnd <= w.at.last && forall h | h in w.at.todo :: h > g)
  }

  lemma StepKeepsPassedOver(c: Config, first: World, w: World, j: nat, g: nat, step: Step)
    requires Hidden(first, w, j) && PassedOver(w, g)
    requires Enabled(c, w, step) && Permits(Growing, c, w, step)
    ensures PassedOver(Apply(c, w, step), g)
  {
    match step
    case Decide =>
      assert w.at.local[0].height in w.at.answers;
      AgreeingTipFindsNoFork(w.at.local, Answers(w.at.answers));
    case PickRange =>
      match NextTarget(w.at.head, c.confirmations, w.checkpoint) {
        case None =>
        case Some((from, to)) =>
          var (a, b) := CapRangeTo(from, to, FOLLOW_CYCLE_BLOCK_CAP);
          ChunkStartsGapFree(c, a, b);
      }
    case FinishChunk =>
      if w.at.chunkEnd < w.at.last {
        ChunkStartsGapFree(c, w.at.chunkEnd + 1, w.at.last);
      }
    case _ =>
  }

  /** A height at or below the checkpoint that is not stored stays unstored: while the chain
      only grows and some stored row agrees with it, no scan, cycle or restart indexes it. */
  lemma {:induction false} GapsStay(c: Config, w: World, steps: seq<Step>, j: nat, g: nat)
    requires w.at.Top? && AgreesFrom(w, j) && PassedOver(w, g) && Run(Growing, c, w, steps).Some?
    ensures PassedOver(Run(Growing, c, w, steps).value, g)
  {
    if steps != [] {
      var init := steps[..|steps| - 1];
      GapsStay(c, w, init, j, g);
      HiddenRowsStay(c, w, init, j);
      StepKeepsPassedOver(c, w, Run(Growing, c, w, init).value, j, g, steps[|steps| - 1]);
    }
  }

  // ------------------------------------------------------------------ how they arise

  /** Runs one after the other. */
  lemma {:induction false} RunAppend(regime: Regime, c: Config, w: World, a: seq<Step>, b: seq<Step>)
    requires Run(regime, c, w, a).Some?
    ensures Run(regime, c, w, a + b) == Run(regime, c, Run(regime, c, w, a).value, b)
    decreases |b|
  {
    if b == [] {
      assert a + b == a;
    } else {
      RunAppend(regime, c, w, a, b[..|b| - 1]);
      assert (a + b)[..|a + b| - 1] == a + b[..|b| - 1];
    }
  }

  /** A loop without confirmations, at a checkpoint without rows, sees a chain of three blocks. */
  function Fresh(chain: seq<Hash>, checkpoint: nat, rollbacks: nat): World {
    World(chain, 2, map[], Some(checkpoint), Top, rollbacks)
  }

  /** Nothing to compare, then the range up to the tip. */
  function UpToChunk(): seq<Step> {
    [] + [StartScan] + [Decide] + [ReadHead] + [PickRange]
  }

  lemma ChunkIsReached(c: Config, chain: seq<Hash>, checkpoint: nat, rollbacks: nat)
    requires |chain| == 3 && c.confirmations == 0 && c.batch >= 2 && checkpoint < 2
    ensures Run(Free, c, Fresh(chain, checkpoint, rollbacks), UpToChunk()) ==
            Some(Fresh(chain, checkpoint, rollbacks).(at := Indexing(2, 2, Heights(checkpoint + 1, 2), map[])))
  {
    var w := Fresh(chain, checkpoint, rollbacks);
    assert HashedHeights(map[]) == {};
    assert RecentBlockHashes(map[], REORG_SCAN_CAP) == [];
    RunSnoc(Free, c, w, [], StartScan);
    RunSnoc(Free, c, w, [] + [StartScan], Decide);
    RunSnoc(Free, c, w, [] + [StartScan] + [Decide], ReadHead);
    RunSnoc(Free, c, w, [] + [StartScan] + [Decide] + [ReadHead], PickRange);
  }

  /** Fetching and storing one height. */
  lemma BlockIsStored(regime: Regime, c: Config, w: World, h: nat)
    requires w.at.Indexing? && h in w.at.todo && h !in w.at.fetched && h < |w.chain| && h !in w.blocks
    ensures Run(regime, c, w, [] + [FetchBlock(h)] + [StoreBlock(h)]) ==
            Some(w.(blocks := w.blocks[h := RowAt(w.chain, h)],
                    at := w.at.(todo := w.at.todo - {h}, fetched := w.at.fetched[h := RowAt(w.chain, h)])))
  {
    RunSnoc(regime, c, w, [], FetchBlock(h));
    RunSnoc(regime, c, w, [] + [FetchBlock(h)], StoreBlock(h));
  }

  function Indexed(h: nat): seq<Step> {
    [] + [FetchBlock(h)] + [StoreBlock(h)]
  }

  // ---- a reorg inside a chunk

  /** The chain is replaced after the first block of a chunk was stored. */
  function ReorgInChunk(after: seq<Hash>): seq<Step> {
    UpToChunk() + Indexed(1) + ([] + [ChainMoves(after)]) + Indexed(2) + ([] + [FinishChunk])
  }

  /** The old block 1 under the new block 2. */
  function Mixed(before: seq<Hash>, after: seq<Hash>): World
    requires |before| == |after| == 3
  {
    Fresh(after, 2, 0).(blocks := map[1 := RowAt(before, 1), 2 := RowAt(after, 2)])
  }

  /** Up to the reorg: block 1 is stored, block 2 is to do. */
  function HalfStored(before: seq<Hash>, after: seq<Hash>): World
    requires |before| == |after| == 3
  {
    var row := RowAt(before, 1);
    Fresh(after, 0, 0).(blocks := map[1 := row], at := Indexing(2, 2, {2}, map[1 := row]))
  }

  lemma HalfStoredRun(c: Config, before: seq<Hash>, after: seq<Hash>)
    requires |before| == |after| == 3 && c.confirmations == 0 && c.batch >= 2
    ensures Run(Free, c, Fresh(before, 0, 0), UpToChunk() + Indexed(1) + ([] + [ChainMoves(after)])) ==
            Some(HalfStored(before, after))
  {
    var w, steps := Fresh(before, 0, 0), UpToChunk();
    ChunkIsReached(c, before, 0, 0);
    var v := w.(at := Indexing(2, 2, Heights(1, 2), map[]));
    BlockIsStored(Free, c, v, 1);
    RunAppend(Free, c, w, steps, Indexed(1));
    steps, v := steps + Indexed(1), Run(Free, c, v, Indexed(1)).value;
    assert v.at.todo == {2};
    RunSnoc(Free, c, v, [], ChainMoves(after));
    RunAppend(Free, c, w, steps, [] + [ChainMoves(after)]);
  }

  lemma ReorgInChunkRun(c: Config, before: seq<Hash>, after: seq<Hash>)
    requires |before| == |after| == 3 && c.confirmations == 0 && c.batch >= 2
    ensures Run(Free, c, Fresh(before, 0, 0), ReorgInChunk(after)) == Some(Mixed(before, after))
  {
    var w, steps := Fresh(before, 0, 0), UpToChunk() + Indexed(1) + ([] + [ChainMoves(after)]);
    HalfStoredRun(c, before, after);
    var v := HalfStored(before, after);
    BlockIsStored(Free, c, v, 2);
    RunAppend(Free, c, w, steps, Indexed(2));
    steps, v := steps + Indexed(2), Run(Free, c, v, Indexed(2)).value;
    assert v.at.todo == {};
    RunSnoc(Free, c, v, [], FinishChunk);
    RunAppend(Free, c, w, steps, [] + [FinishChunk]);
  }

  /** A reorg inside a chunk leaves a stale row: the run reaches a store with the old block 1,
      and from there on, while the chain only grows, it is never corrected. Only the parent
      column of block 2, which no code compares, tells. */
  lemma ReorgInChunkIsNeverSeen(c: Config, before: seq<Hash>, after: seq<Hash>, later: seq<Step>)
    requires |before| == |after| == 3 && before[1] != after[1] && c.confirmations == 0 && c.batch >= 2
    requires Run(Growing, c, Mixed(before, after), later).Some?
    ensures Run(Free, c, Fresh(before, 0, 0), ReorgInChunk(after)) == Some(Mixed(before, after))
    ensures var v := Run(Growing, c, Mixed(before, after), later).value;
            && 1 in v.blocks && v.blocks[1].hash == Some(before[1])
            && |v.chain| >= 3 && v.chain[1] == after[1] != before[1]
            && 2 in v.blocks && v.blocks[2].parent == Some(after[1])
            && v.rollbacks == 0
  {
    ReorgInChunkRun(c, before, after);
    var w := Mixed(before, after);
    HiddenRowsStay(c, w, later, 2);
    assert 1 in w.blocks && 2 in w.blocks && w.chain <= Run(Growing, c, w, later).value.chain;
  }

  // ---- a restart inside a chunk, then a reorg

  /** The chunk stores its second block only before the process restarts. */
  function CutShort(): seq<Step> {
    UpToChunk() + Indexed(2) + ([] + [Restart])
  }

  lemma CutShortRun(c: Config, before: seq<Hash>)
    requires |before| == 3 && c.confirmations == 0 && c.batch >= 2
    ensures Run(Free, c, Fresh(before, 0, 0), CutShort()) ==
            Some(Fresh(before, 0, 0).(blocks := map[2 := RowAt(before, 2)]))
  {
    var w, steps := Fresh(before, 0, 0), UpToChunk();
    ChunkIsReached(c, before, 0, 0);
    var v := w.(at := Indexing(2, 2, Heights(1, 2), map[]));
    BlockIsStored(Free, c, v, 2);
    RunAppend(Free, c, w, steps, Indexed(2));
    steps, v := steps + Indexed(2), Run(Free, c, v, Indexed(2)).value;
    RunSnoc(Free, c, v, [], Restart);
    RunAppend(Free, c, w, steps, [] + [Restart]);
  }

  /** Then a reorg replaces that block, and the scan finds the fork. */
  function ReorgFound(after: seq<Hash>): seq<Step> {
    [] + [ChainMoves(after)] + [StartScan] + [Lookup(2, true)] + [Decide]
  }

  lemma OneRowListing(row: BlockRow)
    requires row.hash.Some?
    ensures RecentBlockHashes(map[2 := row], REORG_SCAN_CAP) == [Stored(2, row.hash.value)]
  {
    var blocks, hs := map[2 := row], HashedHeights(map[2 := row]);
    assert hs == {2};
    assert MaxOf(hs) == 2;
    assert hs - {2} == {};
    assert NewestFirst(blocks, hs - {2}) == [];
    assert HashedRows(blocks) == [Stored(2, row.hash.value)];
  }

  /** One row that the answer contradicts is a fork at that row. */
  lemma OneRowFork(row: Stored, chain: Oracle)
    requires Mismatched(row, chain)
    ensures Detect([row], chain) == Some(row.height)
  {
    assert [row][1..] == [];
    assert MismatchRun([row], chain) == 1 && AnsweredRun([row], chain) == 1;
  }

  lemma ReorgFoundRun(c: Config, before: seq<Hash>, after: seq<Hash>)
    requires |before| == |after| == 3 && before[2] != after[2]
    ensures Run(Free, c, Fresh(before, 0, 0).(blocks := map[2 := RowAt(before, 2)]), ReorgFound(after)) ==
            Some(Fresh(after, 1, 1))
  {
    var w := Fresh(before, 0, 0).(blocks := map[2 := RowAt(before, 2)]);
    var local := [Stored(2, before[2])];
    OneRowListing(RowAt(before, 2));
    RunSnoc(Free, c, w, [], ChainMoves(after));
    RunSnoc(Free, c, w, [] + [ChainMoves(after)], StartScan);
    assert local[0].height == 2;
    RunSnoc(Free, c, w, [] + [ChainMoves(after)] + [StartScan], Lookup(2, true));
    OneRowFork(local[0], Answers(map[2 := Some(after[2])]));
    assert BlocksBelow(w.blocks, 2) == map[];
    RunSnoc(Free, c, w, [] + [ChainMoves(after)] + [StartScan] + [Lookup(2, true)], Decide);
  }

  /** The loop goes on above the height that it never stored. */
  function GoesOn(): seq<Step> {
    UpToChunk() + Indexed(2) + ([] + [FinishChunk])
  }

  function WithGap(after: seq<Hash>): World
    requires |after| == 3
  {
    Fresh(after, 2, 1).(blocks := map[2 := RowAt(after, 2)])
  }

  lemma GoesOnRun(c: Config, after: seq<Hash>)
    requires |after| == 3 && c.confirmations == 0 && c.batch >= 2
    ensures Run(Free, c, Fresh(after, 1, 1), GoesOn()) == Some(WithGap(after))
  {
    var w, steps := Fresh(after, 1, 1), UpToChunk();
    ChunkIsReached(c, after, 1, 1);
    var v := w.(at := Indexing(2, 2, Heights(2, 2), map[]));
    BlockIsStored(Free, c, v, 2);
    RunAppend(Free, c, w, steps, Indexed(2));
    steps, v := steps + Indexed(2), Run(Free, c, v, Indexed(2)).value;
    assert v.at.todo == {};
    RunSnoc(Free, c, v, [], FinishChunk);
    RunAppend(Free, c, w, steps, [] + [FinishChunk]);
  }

  /** A restart inside a chunk and a reorg of what it had stored leave a gap for good: the run
      reaches a store in which block 1 is missing below the checkpoint, and while the chain
      only grows it is never indexed. */
  lemma RestartInChunkLeavesGap(c: Config, before: seq<Hash>, after: seq<Hash>, later: seq<Step>)
    requires |before| == |after| == 3 && before[2] != after[2] && c.confirmations == 0 && c.batch >= 2
    requires Run(Growing, c, WithGap(after), later).Some?
    ensures Run(Free, c, Fresh(before, 0, 0), CutShort() + ReorgFound(after) + GoesOn()) == Some(WithGap(after))
    ensures var v := Run(Growing, c, WithGap(after), later).value;
            1 !in v.blocks && v.checkpoint.Some? && v.checkpoint.value >= 1
  {
    var w := Fresh(before, 0, 0);
    CutShortRun(c, before);
    ReorgFoundRun(c, before, after);
    RunAppend(Free, c, w, CutShort(), ReorgFound(after));
    GoesOnRun(c, after);
    RunAppend(Free, c, w, CutShort() + ReorgFound(after), GoesOn());
    GapsStay(c, WithGap(after), later, 2, 1);
  }
}
