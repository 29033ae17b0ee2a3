/** The follow loop as a state machine against a chain that may reorganise between any two of
    its steps, and what it keeps as long as what was confirmed stays confirmed: heights at or
    below (highest head seen - confirmations) keep their block. */
module ConfirmedFollow {
  import opened Options
  import opened ForkScan
  import opened Tables
  import opened FollowDecisions
  import opened ReorgRepair
  import opened RangeIndexing

  /** Where the loop is. A scan asks for the stored heights one by one, so the answers may
      come from different versions of the chain; asking for more of them than the lazy scan
      would does not change its verdict. */
  datatype Position =
    | Top
    | Scanning(local: seq<Stored>, answers: map<nat, Option<Hash>>)
    | NoFork
    | HeadRead(head: nat)
    | Indexing(chunkEnd: nat, last: nat, todo: set<nat>, fetched: map<nat, BlockRow>)

  datatype World = World(
    chain: seq<Hash>,                 // block hash by height
    seen: nat,                        // highest head the loop has read
    blocks: map<nat, BlockRow>,
    checkpoint: Option<nat>,
    at: Position,
    rollbacks: nat)

  datatype Config = Config(confirmations: u64, batch: ChunkSize)

  datatype Step =
    | ChainMoves(chain: seq<Hash>)
    | StartScan
    | Lookup(height: nat, answered: bool)     // unanswered: RPC failure
    | Decide
    | ReadHead
    | PickRange
    | FetchBlock(height: nat)
    | StoreBlock(height: nat)
    | FinishChunk
    | Restart                                 // error, crash or cancellation

  function Safe(c: Config, seen: nat): nat {
    if seen < c.confirmations then 0 else seen - c.confirmations
  }

  /** What a run assumes of its surroundings. */
  datatype Regime =
    | Confirmed      // a confirmed height keeps its block
    | Growing        // the chain only grows
    | WholeChunks    // any reorg but of genesis; the process ends only where a chunk ends
    | Free

  predicate Permits(regime: Regime, c: Config, w: World, step: Step) {
    match regime
    case Confirmed => step.ChainMoves? ==> KeepsConfirmed(c, w, step.chain)
    case Growing => step.ChainMoves? ==> w.chain <= step.chain
    case WholeChunks =>
      && (step.ChainMoves? ==> w.chain != [] && step.chain != [] && step.chain[0] == w.chain[0])
      && (step.Restart? && w.at.Indexing? ==> AtChunkStart(w))
    case Free => true
  }

  /** The current chunk has stored nothing: here a cancellation ends the range. */
  predicate AtChunkStart(w: World)
    requires w.at.Indexing?
  {
    w.checkpoint.Some? && w.at.todo == Heights(w.checkpoint.value + 1, w.at.chunkEnd)
  }

  predicate KeepsConfirmed(c: Config, w: World, chain: seq<Hash>) {
    && Safe(c, w.seen) < |chain|
    && forall h | 0 <= h <= Safe(c, w.seen) && h < |w.chain| :: chain[h] == w.chain[h]
  }

  predicate LocalHeight(local: seq<Stored>, h: nat) {
    exists i :: 0 <= i < |local| && local[i].height == h
  }

  predicate Enabled(c: Config, w: World, step: Step) {
    match step
    case ChainMoves(chain) => |chain| <= U64_MAX
    case StartScan => w.at.Top?
    case Lookup(h, _) => w.at.Scanning? && LocalHeight(w.at.local, h) && h !in w.at.answers
    case Decide => w.at.Scanning? && forall i | 0 <= i < |w.at.local| :: w.at.local[i].height in w.at.answers
    case ReadHead => w.at.NoFork? && 0 < |w.chain| <= U64_MAX
    case PickRange => w.at.HeadRead? && w.at.head <= U64_MAX && (w.checkpoint.Some? ==> w.checkpoint.value < U64_MAX)
    case FetchBlock(h) => w.at.Indexing? && h in w.at.todo && h !in w.at.fetched && h < |w.chain|
    case StoreBlock(h) => w.at.Indexing? && h in w.at.todo && h in w.at.fetched
    case FinishChunk => w.at.Indexing? && w.at.todo == {}
    case Restart => true
  }

  function Answers(answers: map<nat, Option<Hash>>): Oracle {
    h => if h in answers then answers[h] else None
  }

  function ChunkFrom(c: Config, first: nat, last: nat): Position {
    var end := if first + c.batch - 1 < last then first + c.batch - 1 else last;
    Indexing(end, last, Heights(first, end), map[])
  }

  const GENESIS_PARENT: Hash := Hash("0x0")

  /** The row that a block fetched at this height becomes. */
  function RowAt(chain: seq<Hash>, h: nat): BlockRow
    requires h < |chain|
  {
    BlockRow(Some(chain[h]), Some(if h == 0 then GENESIS_PARENT else chain[h - 1]))
  }

  function Apply(c: Config, w: World, step: Step): World
    requires Enabled(c, w, step)
  {
    match step
    case ChainMoves(chain) => w.(chain := chain)
    case StartScan => w.(at := Scanning(RecentBlockHashes(w.blocks, REORG_SCAN_CAP), map[]))
    case Lookup(h, answered) =>
      var answer := if answered && h < |w.chain| then Some(w.chain[h]) else None;
      w.(at := w.at.(answers := w.at.answers[h := answer]))
    case Decide =>
      (match Detect(w.at.local, Answers(w.at.answers))
       case None => w.(at := NoFork)
       case Some(f) =>
         w.(blocks := BlocksBelow(w.blocks, f),
            checkpoint := if w.checkpoint.Some? then Some(ResumePoint(f)) else None,
            at := Top, rollbacks := w.rollbacks + 1))
    case ReadHead =>
      var head := |w.chain| - 1;
      w.(at := HeadRead(head), seen := if w.seen < head then head else w.seen)
    case PickRange =>
      (match NextTarget(w.at.head, c.confirmations, w.checkpoint)
       case None => w.(at := Top)
       case Some((from, to)) =>
         var (a, b) := CapRangeTo(from, to, FOLLOW_CYCLE_BLOCK_CAP);
         w.(at := ChunkFrom(c, a, b)))
    case FetchBlock(h) => w.(at := w.at.(fetched := w.at.fetched[h := RowAt(w.chain, h)]))
    case StoreBlock(h) =>
      w.(blocks := if h in w.blocks then w.blocks else w.blocks[h := w.at.fetched[h]],
         at := w.at.(todo := w.at.todo - {h}))
    case FinishChunk =>
      w.(checkpoint := Some(w.at.chunkEnd),
         at := if w.at.chunkEnd < w.at.last then ChunkFrom(c, w.at.chunkEnd + 1, w.at.last) else Top)
    case Restart => w.(at := Top)
  }

  function Run(regime: Regime, c: Config, w: World, steps: seq<Step>): Option<World> {
    if steps == [] then Some(w)
    else
      var r := Run(regime, c, w, steps[..|steps| - 1]);
      var last := steps[|steps| - 1];
      if r.Some? && Enabled(c, r.value, last) && Permits(regime, c, r.value, last)
      then Some(Apply(c, r.value, last))
      else None
  }

  // ------------------------------------------------------------------- invariant

  /** A stored hash is the chain's, at a confirmed height. */
  ghost predicate RowsAgree(c: Config, w: World) {
    forall h | h in w.blocks && w.blocks[h].hash.Some? ::
      h <= Safe(c, w.seen) && h < |w.chain| && w.chain[h] == w.blocks[h].hash.value
  }

  ghost predicate ScanAgrees(c: Config, w: World) {
    w.at.Scanning? ==>
      && (forall i | 0 <= i < |w.at.local| ::
            var row := w.at.local[i];
            row.height <= Safe(c, w.seen) && row.height < |w.chain| && w.chain[row.height] == row.hash)
      && (forall h | h in w.at.answers ::
            w.at.answers[h].None?
            || (h < |w.chain| && h <= Safe(c, w.seen) && w.at.answers[h] == Some(w.chain[h])))
  }

  ghost predicate WorkIsConfirmed(c: Config, w: World) {
    && (w.at.HeadRead? ==> w.at.head <= w.seen)
    && (w.at.Indexing? ==>
          && w.at.chunkEnd <= w.at.last <= Safe(c, w.seen)
          && (forall h | h in w.at.todo :: h <= w.at.last)
          && (forall h | h in w.at.fetched ::
                h <= w.at.last && h < |w.chain| && w.at.fetched[h].hash == Some(w.chain[h])))
  }

  ghost predicate Inv(c: Config, w: World) {
    && Safe(c, w.seen) < |w.chain| <= U64_MAX
    && RowsAgree(c, w) && ScanAgrees(c, w) && WorkIsConfirmed(c, w)
    && w.rollbacks == 0
  }

  /** Whatever mixture of answers a scan collects, it reports no fork unless the answer for
      the newest row contradicts that row. */
  lemma AgreeingTipFindsNoFork(local: seq<Stored>, chain: Oracle)
    requires local == [] || Agrees(local[0], chain) || Missing(local[0], chain)
    ensures Detect(local, chain) == None
  {
  }

  lemma DecideKeepsInv(c: Config, w: World)
    requires Inv(c, w) && Enabled(c, w, Decide)
    ensures Inv(c, Apply(c, w, Decide))
  {
    var local, oracle := w.at.local, Answers(w.at.answers);
    assert local != [] ==> local[0].height in w.at.answers;
    AgreeingTipFindsNoFork(local, oracle);
  }

  lemma StartScanKeepsInv(c: Config, w: World)
    requires Inv(c, w) && Enabled(c, w, StartScan)
    ensures Inv(c, Apply(c, w, StartScan))
  {
    var v := Apply(c, w, StartScan);
    NewestFirstIsSorted(w.blocks, HashedHeights(w.blocks));
    var rows := HashedRows(w.blocks);
    forall i | 0 <= i < |v.at.local|
      ensures var row := v.at.local[i];
              row.height <= Safe(c, v.seen) && row.height < |v.chain| && v.chain[row.height] == row.hash
    {
      assert v.at.local[i] == rows[i];
      assert rows[i].height in w.blocks && w.blocks[rows[i].height].hash == Some(rows[i].hash);
    }
  }

  lemma LookupKeepsInv(c: Config, w: World, h: nat, answered: bool)
    requires Inv(c, w) && Enabled(c, w, Lookup(h, answered))
    ensures Inv(c, Apply(c, w, Lookup(h, answered)))
  {
    var i :| 0 <= i < |w.at.local| && w.at.local[i].height == h;
    assert h <= Safe(c, w.seen);
  }

  lemma PickRangeKeepsInv(c: Config, w: World)
    requires Inv(c, w) && Enabled(c, w, PickRange)
    ensures Inv(c, Apply(c, w, PickRange))
  {
    match NextTarget(w.at.head, c.confirmations, w.checkpoint)
    case None =>
    case Some((from, to)) =>
      var (a, b) := CapRangeTo(from, to, FOLLOW_CYCLE_BLOCK_CAP);
      assert a <= b <= to == SaturatingSub(w.at.head, c.confirmations) <= Safe(c, w.seen);
  }

  lemma StepKeepsInv(c: Config, w: World, step: Step)
    requires Inv(c, w) && Enabled(c, w, step) && Permits(Confirmed, c, w, step)
    ensures Inv(c, Apply(c, w, step))
  {
    match step
    case ChainMoves(_) =>
    case StartScan => StartScanKeepsInv(c, w);
    case Lookup(h, answered) => LookupKeepsInv(c, w, h, answered);
    case Decide => DecideKeepsInv(c, w);
    case ReadHead =>
    case PickRange => PickRangeKeepsInv(c, w);
    case FetchBlock(_) =>
    case StoreBlock(_) =>
    case FinishChunk =>
    case Restart =>
  }

  // --------------------------------------------------------------------- theorem

  /** The run starts between cycles, from rows that agree with the chain at confirmed heights. */
  ghost predicate Initial(c: Config, w: World) {
    w.at.Top? && w.rollbacks == 0 && Safe(c, w.seen) < |w.chain| <= U64_MAX && RowsAgree(c, w)
  }

  /** In every reachable state every stored hash is the chain's, and no rollback has fired,
      however the unconfirmed part of the chain moves and wherever the process is restarted. */
  lemma {:induction false} ConfirmedRowsNeverRollBack(c: Config, w: World, steps: seq<Step>)
    requires Initial(c, w) && Run(Confirmed, c, w, steps).Some?
    ensures var v := Run(Confirmed, c, w, steps).value;
            && v.rollbacks == 0
            && (forall h | h in v.blocks && v.blocks[h].hash.Some? ::
                  h < |v.chain| && v.chain[h] == v.blocks[h].hash.value)
    ensures Inv(c, Run(Confirmed, c, w, steps).value)
  {
    if steps != [] {
      var init := steps[..|steps| - 1];
      ConfirmedRowsNeverRollBack(c, w, init);
      StepKeepsInv(c, Run(Confirmed, c, w, init).value, steps[|steps| - 1]);
    }
  }
}
