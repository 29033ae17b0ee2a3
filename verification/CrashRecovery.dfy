/** Fixed-range runs over an unchanged chain, killed at any insert and restarted from the
    checkpoint. The tasks of a chunk interleave at the granularity of single INSERTs. */
module CrashRecovery {
  import opened Options
  import opened Tables
  import opened FollowDecisions
  import opened RangeIndexing
  import CallTrace
  import opened BlockContent
  import RootCause

  // ------------------------------------------------------- tables with a unique key

  /** Rows by height. */
  type Source<K, V> = nat -> map<K, V>

  /** Different heights never supply the same key. */
  ghost predicate ConflictFree<K(!new), V>(source: Source<K, V>) {
    forall m, n, k | k in source(m) && k in source(n) :: m == n
  }

  /** The table holds the rows it started with, otherwise only rows of the range's heights,
      and all the rows of the heights that are done. */
  ghost predicate Fits<K(!new), V>(have: map<K, V>, initial: map<K, V>, source: Source<K, V>,
                                   range: set<nat>, done: set<nat>) {
    && (forall k | k in initial :: k in have && have[k] == initial[k])
    && (forall k | k in have && k !in initial :: Supplied(have, source, range, k))
    && (forall n, k | n in done && k in source(n) :: k in have)
  }

  ghost predicate Supplied<K, V>(have: map<K, V>, source: Source<K, V>, range: set<nat>, k: K)
    requires k in have
  {
    exists n :: n in range && k in source(n) && source(n)[k] == have[k]
  }

  /** INSERT ... ON CONFLICT DO NOTHING. */
  function Insert<K, V>(have: map<K, V>, rows: map<K, V>): map<K, V> {
    rows + have
  }

  lemma InsertFits<K(!new), V>(have: map<K, V>, initial: map<K, V>, source: Source<K, V>,
                               range: set<nat>, done: set<nat>, n: nat)
    requires Fits(have, initial, source, range, done) && n in range
    ensures Fits(Insert(have, source(n)), initial, source, range, done + {n})
  {
    var now := Insert(have, source(n));
    forall k | k in now && k !in initial ensures Supplied(now, source, range, k) {
      if k in have {
        assert Supplied(have, source, range, k);
        var m :| m in range && k in source(m) && source(m)[k] == have[k];
        assert source(m)[k] == now[k];
      } else {
        assert source(n)[k] == now[k];
      }
    }
  }

  /** Once every height of the range is done the table is determined. */
  lemma FitsDetermines<K(!new), V>(a: map<K, V>, b: map<K, V>, initial: map<K, V>, source: Source<K, V>,
                                   range: set<nat>)
    requires ConflictFree(source)
    requires Fits(a, initial, source, range, range) && Fits(b, initial, source, range, range)
    ensures a == b
  {
    FitsIncluded(a, b, initial, source, range);
    FitsIncluded(b, a, initial, source, range);
  }

  lemma FitsIncluded<K(!new), V>(a: map<K, V>, b: map<K, V>, initial: map<K, V>, source: Source<K, V>, range: set<nat>)
    requires ConflictFree(source)
    requires Fits(a, initial, source, range, range) && Fits(b, initial, source, range, range)
    ensures forall k | k in a :: k in b && a[k] == b[k]
  {
    forall k | k in a ensures k in b && a[k] == b[k] {
      if k !in initial {
        assert Supplied(a, source, range, k);
        var m :| m in range && k in source(m) && source(m)[k] == a[k];
        assert Supplied(b, source, range, k);
        var n :| n in range && k in source(n) && source(n)[k] == b[k];
      }
    }
  }

  // ------------------------------------------------------------------ the trace log

  lemma {:induction false} OfTxUnfolds(rows: seq<TraceRow>, first: TraceRow, rest: seq<TraceRow>, tx: TxHash)
    requires rows == [first] + rest
    ensures OfTx(rows, tx) == (if first.tx == tx then [first] else []) + OfTx(rest, tx)
  {
    assert rows[1..] == rest;
  }

  lemma Reassociate(a: seq<TraceRow>, b: seq<TraceRow>, c: seq<TraceRow>)
    ensures a + (b + c) == a + b + c
  {
  }

  lemma {:induction false} OfTxAppend(a: seq<TraceRow>, b: seq<TraceRow>, tx: TxHash)
    ensures OfTx(a + b, tx) == OfTx(a, tx) + OfTx(b, tx)
  {
    if a == [] {
      assert a + b == b;
    } else {
      OfTxAppend(a[1..], b, tx);
      OfTxUnfolds(a + b, a[0], a[1..] + b, tx);
      OfTxUnfolds(a, a[0], a[1..], tx);
      Reassociate(if a[0].tx == tx then [a[0]] else [], OfTx(a[1..], tx), OfTx(b, tx));
    }
  }

  lemma {:induction false} OfTxAbsent(rows: seq<TraceRow>, tx: TxHash)
    requires forall i | 0 <= i < |rows| :: rows[i].tx != tx
    ensures OfTx(rows, tx) == []
  {
    if rows != [] {
      OfTxAbsent(rows[1..], tx);
    }
  }

  /** A trace repeated as a whole. */
  function Times(trace: seq<TraceRow>, copies: nat): seq<TraceRow> {
    if copies == 0 then [] else Times(trace, copies - 1) + trace
  }

  // -------------------------------------------------------------- the state machine

  datatype Process =
    | Down
    | Running(chunkEnd: nat, last: nat, stage: map<nat, nat>)   // inserts done per height

  datatype World = World(
    store: Store,
    process: Process,
    reached: int,              // last height of the last completed chunk
    copies: multiset<nat>,     // executed trace inserts per height
    kills: nat)                // runs that ended early, killed or failed

  datatype Job = Job(from: nat, to: nat, batch: ChunkSize)

  datatype Step =
    | Start
    | InsertNext(height: nat)
    | Fail(height: nat)            // a panic or a refused row: fails the chunk and ends the run
    | FinishChunk
    | Kill

  predicate Enabled(job: Job, chain: Chain, w: World, step: Step) {
    match step
    case Start => w.process.Down? && ResumeRange(job.from, Some(job.to), w.store.checkpoint).Some?
    case InsertNext(n) =>
      && w.process.Running? && n in w.process.stage && w.process.stage[n] < STAGES
      && !Blocked(chain(n), w.process.stage[n])
    case Fail(n) =>
      && w.process.Running? && n in w.process.stage && w.process.stage[n] < STAGES
      && Blocked(chain(n), w.process.stage[n])
    case FinishChunk => w.process.Running? && forall n | n in w.process.stage :: w.process.stage[n] == STAGES
    case Kill => w.process.Running?
  }

  function ChunkAt(job: Job, first: nat, last: nat): Process
    requires first <= last
  {
    var end := if first + job.batch - 1 < last then first + job.batch - 1 else last;
    var hs := Heights(first, end);
    Running(end, last, map n | n in hs :: 0)
  }

  /** A chunk is the next `batch` heights, or what is left of the range, with nothing inserted. */
  lemma ChunkIsBatch(job: Job, first: nat, last: nat)
    requires first <= last
    ensures var p := ChunkAt(job, first, last);
            && first <= p.chunkEnd <= p.last == last
            && p.chunkEnd - first < job.batch && (p.chunkEnd < last ==> p.chunkEnd - first + 1 == job.batch)
            && p.stage.Keys == Heights(first, p.chunkEnd) && forall n | n in p.stage :: p.stage[n] == 0
  {
  }

  /** One statement of `process_block` for height n. */
  function Execute(s: Store, chain: Chain, n: nat, stage: nat): Store {
    var c := chain(n);
    Store(
      if stage == 0 then Insert(s.blocks, map[n := c.row]) else s.blocks,
      if stage == 1 then Insert(s.txs, c.txs) else s.txs,
      if stage == 2 then Insert(s.swaps, c.swaps) else s.swaps,
      if stage == 3 then Insert(s.liquidity, c.liquidity) else s.liquidity,
      if stage == 4 then Insert(s.transfers, c.transfers) else s.transfers,
      if stage == TRACES then s.traces + c.traces else s.traces,
      if stage == 6 then Insert(s.failed, FailedRows(c)) else s.failed,
      s.checkpoint,
      s.alerts)
  }

  function Apply(job: Job, chain: Chain, w: World, step: Step): World
    requires Enabled(job, chain, w, step)
  {
    match step
    case Start =>
      var (first, last) := ResumeRange(job.from, Some(job.to), w.store.checkpoint).value;
      w.(process := ChunkAt(job, first, last))
    case InsertNext(n) =>
      var p := w.process;
      w.(store := Execute(w.store, chain, n, p.stage[n]),
         process := p.(stage := p.stage[n := p.stage[n] + 1]),
         copies := if p.stage[n] == TRACES then w.copies + multiset{n} else w.copies)
    case FinishChunk =>
      var p := w.process;
      w.(store := w.store.(checkpoint := Some(p.chunkEnd)),
         reached := p.chunkEnd,
         process := if p.chunkEnd < p.last then ChunkAt(job, p.chunkEnd + 1, p.last) else Down)
    case Fail(_) => w.(process := Down, kills := w.kills + 1)
    case Kill => w.(process := Down, kills := w.kills + 1)
  }

  function Run(job: Job, chain: Chain, w: World, steps: seq<Step>): Option<World> {
    if steps == [] then Some(w)
    else
      var r := Run(job, chain, w, steps[..|steps| - 1]);
      var last := steps[|steps| - 1];
      if r.Some? && Enabled(job, chain, r.value, last) then Some(Apply(job, chain, r.value, last)) else None
  }

  /** First height that the job has to do, given the checkpoint it finds. */
  function First(job: Job, s: Store): nat {
    if s.checkpoint.Some? && s.checkpoint.value >= job.from then s.checkpoint.value + 1 else job.from
  }

  function InitialWorld(job: Job, s: Store): World {
    World(s, Down, First(job, s) - 1, multiset{}, 0)
  }

  /** The job is finished: it is not running and a restart finds nothing to do. */
  predicate Finished(job: Job, w: World) {
    w.process.Down? && ResumeRange(job.from, Some(job.to), w.store.checkpoint).None?
  }

  // --------------------------------------------------------------------- invariant

  /** The heights whose statement number `stage` is known to have been executed. */
  ghost function Done(job: Job, initial: Store, w: World, stage: nat): set<nat> {
    set n | n in Heights(First(job, initial), job.to) &&
            (n <= w.reached || (w.process.Running? && n in w.process.stage && w.process.stage[n] > stage))
  }

  function BlocksOf(chain: Chain): Source<nat, BlockRow> { (n: nat) => map[n := chain(n).row] }
  function TxsOf(chain: Chain): Source<TxHash, TxRow> { (n: nat) => chain(n).txs }
  function SwapsOf(chain: Chain): Source<LogKey, SwapRow> { (n: nat) => chain(n).swaps }
  function LiquidityOf(chain: Chain): Source<LogKey, LiquidityRow> { (n: nat) => chain(n).liquidity }
  function TransfersOf(chain: Chain): Source<LogKey, TransferRow> { (n: nat) => chain(n).transfers }
  function FailedOf(chain: Chain): Source<TxHash, string> { (n: nat) => FailedRows(chain(n)) }

  /** The keyed tables, each with its own set of executed heights. */
  ghost predicate ChainTablesFit(job: Job, chain: Chain, initial: Store, w: World) {
    var range := Heights(First(job, initial), job.to);
    && Fits(w.store.blocks, initial.blocks, BlocksOf(chain), range, Done(job, initial, w, 0))
    && Fits(w.store.txs, initial.txs, TxsOf(chain), range, Done(job, initial, w, 1))
    && Fits(w.store.failed, initial.failed, FailedOf(chain), range, Done(job, initial, w, 6))
  }

  ghost predicate EventTablesFit(job: Job, chain: Chain, initial: Store, w: World) {
    var range := Heights(First(job, initial), job.to);
    && Fits(w.store.swaps, initial.swaps, SwapsOf(chain), range, Done(job, initial, w, 2))
    && Fits(w.store.liquidity, initial.liquidity, LiquidityOf(chain), range, Done(job, initial, w, 3))
    && Fits(w.store.transfers, initial.transfers, TransfersOf(chain), range, Done(job, initial, w, 4))
  }

  ghost predicate TablesFit(job: Job, chain: Chain, initial: Store, w: World) {
    ChainTablesFit(job, chain, initial, w) && EventTablesFit(job, chain, initial, w)
  }

  /** Each transaction's rows are its old rows followed by whole copies of its trace. */
  ghost predicate TracesFit(chain: Chain, initial: Store, w: World) {
    forall n, tx | tx in chain(n).txs ::
      OfTx(w.store.traces, tx) == OfTx(initial.traces, tx) + Times(OfTx(chain(n).traces, tx), w.copies[n])
  }

  /** A height's trace was inserted at least once if it is done, and at most once more than
      the process was killed. */
  ghost predicate CopiesBounded(job: Job, initial: Store, w: World) {
    forall n :: w.copies[n] <= w.kills + (if n in Done(job, initial, w, 5) then 1 else 0)
                && (n in Done(job, initial, w, 5) ==> w.copies[n] >= 1)
  }

  /** Checkpoint, progress and the running chunk fit together. */
  ghost predicate ProgressOk(job: Job, initial: Store, w: World) {
    var first := First(job, initial);
    && first - 1 <= w.reached && (first <= w.reached ==> w.reached <= job.to)
    && w.store.checkpoint == (if w.reached < first then initial.checkpoint else Some(w.reached))
    && w.store.alerts == initial.alerts
    && (w.process.Running? ==>
          && w.reached < w.process.chunkEnd <= w.process.last == job.to
          && w.process.stage.Keys == Heights(w.reached + 1, w.process.chunkEnd)
          && forall n | n in w.process.stage :: w.process.stage[n] <= STAGES)
  }

  ghost predicate Inv(job: Job, chain: Chain, initial: Store, w: World) {
    && ProgressOk(job, initial, w)
    && TablesFit(job, chain, initial, w)
    && TracesFit(chain, initial, w)
    && CopiesBounded(job, initial, w)
  }

  // ---------------------------------------------------------- steps keep the invariant

  /** Steps that change no table and learn no new height keep the tables fitting. */
  lemma SameTablesFit(job: Job, chain: Chain, initial: Store, w: World, v: World)
    requires TablesFit(job, chain, initial, w)
    requires v.store == w.store.(checkpoint := v.store.checkpoint)
    requires forall i | 0 <= i < STAGES :: Done(job, initial, v, i) <= Done(job, initial, w, i)
    ensures TablesFit(job, chain, initial, v)
  {
    assert Done(job, initial, v, 0) <= Done(job, initial, w, 0);
    assert Done(job, initial, v, 1) <= Done(job, initial, w, 1);
    assert Done(job, initial, v, 2) <= Done(job, initial, w, 2);
    assert Done(job, initial, v, 3) <= Done(job, initial, w, 3);
    assert Done(job, initial, v, 4) <= Done(job, initial, w, 4);
    assert Done(job, initial, v, 6) <= Done(job, initial, w, 6);
  }

  /** An insert at stage i teaches exactly one height at that stage. */
  lemma DoneAfterInsert(job: Job, chain: Chain, initial: Store, w: World, n: nat, i: nat)
    requires ProgressOk(job, initial, w) && Enabled(job, chain, w, InsertNext(n))
    ensures n in Heights(First(job, initial), job.to)
    ensures n !in Done(job, initial, w, w.process.stage[n])
    ensures Done(job, initial, Apply(job, chain, w, InsertNext(n)), i) ==
            if i == w.process.stage[n] then Done(job, initial, w, i) + {n} else Done(job, initial, w, i)
  {
    assert n in Heights(w.reached + 1, w.process.chunkEnd);
  }

  /** One table under one insert: it is either the statement's table or left alone. */
  lemma TableStep<K(!new), V>(have: map<K, V>, next: map<K, V>, initial: map<K, V>, source: Source<K, V>,
                              range: set<nat>, done: set<nat>, nextDone: set<nat>, n: nat, hit: bool)
    requires Fits(have, initial, source, range, done) && n in range
    requires next == if hit then Insert(have, source(n)) else have
    requires nextDone == if hit then done + {n} else done
    ensures Fits(next, initial, source, range, nextDone)
  {
    if hit {
      InsertFits(have, initial, source, range, done, n);
    }
  }

  lemma InsertKeepsChainTables(job: Job, chain: Chain, initial: Store, w: World, n: nat)
    requires ProgressOk(job, initial, w) && ChainTablesFit(job, chain, initial, w)
    requires Enabled(job, chain, w, InsertNext(n))
    ensures ChainTablesFit(job, chain, initial, Apply(job, chain, w, InsertNext(n)))
  {
    var i, v := w.process.stage[n], Apply(job, chain, w, InsertNext(n));
    var s, t := w.store, v.store;
    var range := Heights(First(job, initial), job.to);
    DoneAfterInsert(job, chain, initial, w, n, 0);
    TableStep(s.blocks, t.blocks, initial.blocks, BlocksOf(chain), range,
              Done(job, initial, w, 0), Done(job, initial, v, 0), n, i == 0);
    DoneAfterInsert(job, chain, initial, w, n, 1);
    TableStep(s.txs, t.txs, initial.txs, TxsOf(chain), range,
              Done(job, initial, w, 1), Done(job, initial, v, 1), n, i == 1);
    DoneAfterInsert(job, chain, initial, w, n, 6);
    TableStep(s.failed, t.failed, initial.failed, FailedOf(chain), range,
              Done(job, initial, w, 6), Done(job, initial, v, 6), n, i == 6);
  }

  lemma InsertKeepsEventTables(job: Job, chain: Chain, initial: Store, w: World, n: nat)
    requires ProgressOk(job, initial, w) && EventTablesFit(job, chain, initial, w)
    requires Enabled(job, chain, w, InsertNext(n))
    ensures EventTablesFit(job, chain, initial, Apply(job, chain, w, InsertNext(n)))
  {
    var i, v := w.process.stage[n], Apply(job, chain, w, InsertNext(n));
    var s, t := w.store, v.store;
    var range := Heights(First(job, initial), job.to);
    DoneAfterInsert(job, chain, initial, w, n, 2);
    TableStep(s.swaps, t.swaps, initial.swaps, SwapsOf(chain), range,
              Done(job, initial, w, 2), Done(job, initial, v, 2), n, i == 2);
    DoneAfterInsert(job, chain, initial, w, n, 3);
    TableStep(s.liquidity, t.liquidity, initial.liquidity, LiquidityOf(chain), range,
              Done(job, initial, w, 3), Done(job, initial, v, 3), n, i == 3);
    DoneAfterInsert(job, chain, initial, w, n, 4);
    TableStep(s.transfers, t.transfers, initial.transfers, TransfersOf(chain), range,
              Done(job, initial, w, 4), Done(job, initial, v, 4), n, i == 4);
  }

  lemma OneMoreCopy(before: seq<TraceRow>, trace: seq<TraceRow>, copies: nat)
    ensures before + Times(trace, copies) + trace == before + Times(trace, copies + 1)
  {
    assert before + Times(trace, copies) + trace == before + (Times(trace, copies) + trace);
  }

  lemma ForeignTrace(chain: Chain, m: nat, n: nat, tx: TxHash)
    requires WellFormed(chain) && tx in chain(m).txs && m != n
    ensures OfTx(chain(n).traces, tx) == []
  {
    assert tx !in chain(n).txs;
    OfTxAbsent(chain(n).traces, tx);
  }

  lemma TraceAppended(chain: Chain, initial: Store, w: World, v: World, n: nat, m: nat, tx: TxHash)
    requires WellFormed(chain) && TracesFit(chain, initial, w) && tx in chain(m).txs
    requires v.store.traces == w.store.traces + chain(n).traces && v.copies == w.copies + multiset{n}
    ensures OfTx(v.store.traces, tx) == OfTx(initial.traces, tx) + Times(OfTx(chain(m).traces, tx), v.copies[m])
  {
    OfTxAppend(w.store.traces, chain(n).traces, tx);
    var before, trace := OfTx(initial.traces, tx), OfTx(chain(m).traces, tx);
    assert OfTx(w.store.traces, tx) == before + Times(trace, w.copies[m]);
    if m == n {
      assert v.copies[m] == w.copies[m] + 1;
      OneMoreCopy(before, trace, w.copies[m]);
    } else {
      assert v.copies[m] == w.copies[m];
      ForeignTrace(chain, m, n, tx);
    }
  }

  lemma InsertKeepsTraces(job: Job, chain: Chain, initial: Store, w: World, n: nat)
    requires WellFormed(chain) && TracesFit(chain, initial, w) && Enabled(job, chain, w, InsertNext(n))
    ensures TracesFit(chain, initial, Apply(job, chain, w, InsertNext(n)))
  {
    var v := Apply(job, chain, w, InsertNext(n));
    if w.process.stage[n] == TRACES {
      forall m, tx | tx in chain(m).txs
        ensures OfTx(v.store.traces, tx) == OfTx(initial.traces, tx) + Times(OfTx(chain(m).traces, tx), v.copies[m])
      {
        TraceAppended(chain, initial, w, v, n, m, tx);
      }
    } else {
      assert v.store.traces == w.store.traces && v.copies == w.copies;
    }
  }

  lemma InsertKeepsProgress(job: Job, chain: Chain, initial: Store, w: World, n: nat)
    requires ProgressOk(job, initial, w) && Enabled(job, chain, w, InsertNext(n))
    ensures ProgressOk(job, initial, Apply(job, chain, w, InsertNext(n)))
  {
    ExecuteFrame(w.store, chain, n, w.process.stage[n]);
    SameKeys(w.process.stage, n, w.process.stage[n] + 1);
  }

  lemma ExecuteFrame(s: Store, chain: Chain, n: nat, stage: nat)
    ensures Execute(s, chain, n, stage).checkpoint == s.checkpoint
    ensures Execute(s, chain, n, stage).alerts == s.alerts
  {
  }

  lemma SameKeys(stage: map<nat, nat>, n: nat, k: nat)
    requires n in stage
    ensures stage[n := k].Keys == stage.Keys
  {
  }

  lemma InsertKeepsCopies(job: Job, chain: Chain, initial: Store, w: World, n: nat)
    requires ProgressOk(job, initial, w) && CopiesBounded(job, initial, w)
    requires Enabled(job, chain, w, InsertNext(n))
    ensures CopiesBounded(job, initial, Apply(job, chain, w, InsertNext(n)))
  {
    DoneAfterInsert(job, chain, initial, w, n, 5);
  }

  lemma InsertKeepsInv(job: Job, chain: Chain, initial: Store, w: World, n: nat)
    requires WellFormed(chain) && Inv(job, chain, initial, w) && Enabled(job, chain, w, InsertNext(n))
    ensures Inv(job, chain, initial, Apply(job, chain, w, InsertNext(n)))
  {
    InsertKeepsProgress(job, chain, initial, w, n);
    InsertKeepsChainTables(job, chain, initial, w, n);
    InsertKeepsEventTables(job, chain, initial, w, n);
    InsertKeepsTraces(job, chain, initial, w, n);
    InsertKeepsCopies(job, chain, initial, w, n);
  }

  lemma StartKeepsInv(job: Job, chain: Chain, initial: Store, w: World)
    requires Inv(job, chain, initial, w) && Enabled(job, chain, w, Start)
    ensures Inv(job, chain, initial, Apply(job, chain, w, Start))
  {
    var v := Apply(job, chain, w, Start);
    forall i | 0 <= i ensures Done(job, initial, v, i) == Done(job, initial, w, i) {}
    SameTablesFit(job, chain, initial, w, v);
  }

  lemma FinishKeepsInv(job: Job, chain: Chain, initial: Store, w: World)
    requires Inv(job, chain, initial, w) && Enabled(job, chain, w, FinishChunk)
    ensures Inv(job, chain, initial, Apply(job, chain, w, FinishChunk))
  {
    var v := Apply(job, chain, w, FinishChunk);
    forall i | 0 <= i < STAGES ensures Done(job, initial, v, i) == Done(job, initial, w, i) {
      FinishLearnsNothing(job, chain, initial, w, i);
    }
    SameTablesFit(job, chain, initial, w, v);
    assert Done(job, initial, v, 5) == Done(job, initial, w, 5);
  }

  lemma FinishLearnsNothing(job: Job, chain: Chain, initial: Store, w: World, i: nat)
    requires ProgressOk(job, initial, w) && Enabled(job, chain, w, FinishChunk) && i < STAGES
    ensures Done(job, initial, Apply(job, chain, w, FinishChunk), i) == Done(job, initial, w, i)
  {
    var v := Apply(job, chain, w, FinishChunk);
    forall n | n in Heights(First(job, initial), job.to)
      ensures n in Done(job, initial, v, i) <==> n in Done(job, initial, w, i)
    {
      assert n in w.process.stage <==> n in Heights(w.reached + 1, w.process.chunkEnd);
    }
  }

  lemma KillKeepsInv(job: Job, chain: Chain, initial: Store, w: World)
    requires Inv(job, chain, initial, w) && Enabled(job, chain, w, Kill)
    ensures Inv(job, chain, initial, Apply(job, chain, w, Kill))
  {
    var v := Apply(job, chain, w, Kill);
    forall i | 0 <= i ensures Done(job, initial, v, i) <= Done(job, initial, w, i) {}
    SameTablesFit(job, chain, initial, w, v);
  }

  lemma {:induction false} RunKeepsInv(job: Job, chain: Chain, initial: Store, steps: seq<Step>)
    requires WellFormed(chain) && Run(job, chain, InitialWorld(job, initial), steps).Some?
    ensures Inv(job, chain, initial, Run(job, chain, InitialWorld(job, initial), steps).value)
  {
    if steps == [] {
      InitialInv(job, chain, initial);
    } else {
      var init, last := steps[..|steps| - 1], steps[|steps| - 1];
      RunKeepsInv(job, chain, initial, init);
      var w := Run(job, chain, InitialWorld(job, initial), init).value;
      match last
      case Start => StartKeepsInv(job, chain, initial, w);
      case InsertNext(n) => InsertKeepsInv(job, chain, initial, w, n);
      case FinishChunk => FinishKeepsInv(job, chain, initial, w);
      case Fail(_) | Kill => KillKeepsInv(job, chain, initial, w);
    }
  }

  lemma InitialInv(job: Job, chain: Chain, initial: Store)
    ensures Inv(job, chain, initial, InitialWorld(job, initial))
  {
    var w := InitialWorld(job, initial);
    forall i | 0 <= i ensures Done(job, initial, w, i) == {} {}
    forall n, tx | tx in chain(n).txs
      ensures OfTx(w.store.traces, tx) == OfTx(initial.traces, tx) + Times(OfTx(chain(n).traces, tx), w.copies[n])
    {
      assert Times(OfTx(chain(n).traces, tx), 0) == [];
    }
  }

  // --------------------------------------------------------------------- theorems

  /** When the job is finished every height of the range is done at every stage. */
  lemma FinishedIsDone(job: Job, chain: Chain, initial: Store, w: World, stage: nat)
    requires ProgressOk(job, initial, w) && Finished(job, w)
    ensures Done(job, initial, w, stage) == Heights(First(job, initial), job.to)
    ensures w.store.checkpoint == if First(job, initial) <= job.to then Some(job.to) else initial.checkpoint
  {
    var first := First(job, initial);
    if first <= job.to {
      assert w.reached >= first;
    }
  }

  lemma SourcesConflictFree(chain: Chain)
    requires WellFormed(chain)
    ensures ConflictFree(BlocksOf(chain)) && ConflictFree(TxsOf(chain)) && ConflictFree(SwapsOf(chain))
    ensures ConflictFree(LiquidityOf(chain)) && ConflictFree(TransfersOf(chain)) && ConflictFree(FailedOf(chain))
  {
    forall m, n, k | k in SwapsOf(chain)(m) && k in SwapsOf(chain)(n) ensures m == n {
      assert k.tx in chain(m).txs && k.tx in chain(n).txs;
    }
    forall m, n, k | k in LiquidityOf(chain)(m) && k in LiquidityOf(chain)(n) ensures m == n {
      assert k.tx in chain(m).txs && k.tx in chain(n).txs;
    }
    forall m, n, k | k in TransfersOf(chain)(m) && k in TransfersOf(chain)(n) ensures m == n {
      assert k.tx in chain(m).txs && k.tx in chain(n).txs;
    }
    forall m, n, t | t in FailedOf(chain)(m) && t in FailedOf(chain)(n) ensures m == n {
      assert t in chain(m).txs && t in chain(n).txs;
    }
  }

  /** Crash recovery refines the uninterrupted run: two finished histories of the job, killed
      anywhere any number of times or not at all, end with the same store but for `trace_log`. */
  lemma RestartsDoNotShow(job: Job, chain: Chain, initial: Store, a: seq<Step>, b: seq<Step>)
    requires WellFormed(chain)
    requires var r := Run(job, chain, InitialWorld(job, initial), a); r.Some? && Finished(job, r.value)
    requires var r := Run(job, chain, InitialWorld(job, initial), b); r.Some? && Finished(job, r.value)
    ensures var v := Run(job, chain, InitialWorld(job, initial), a).value.store;
            var w := Run(job, chain, InitialWorld(job, initial), b).value.store;
            v == w.(traces := v.traces)
  {
    RunKeepsInv(job, chain, initial, a);
    RunKeepsInv(job, chain, initial, b);
    FinishedStoresEqual(job, chain, initial,
      Run(job, chain, InitialWorld(job, initial), a).value,
      Run(job, chain, InitialWorld(job, initial), b).value);
  }

  lemma FinishedStoresEqual(job: Job, chain: Chain, initial: Store, v: World, w: World)
    requires WellFormed(chain)
    requires Inv(job, chain, initial, v) && Finished(job, v)
    requires Inv(job, chain, initial, w) && Finished(job, w)
    ensures v.store == w.store.(traces := v.store.traces)
  {
    var range := Heights(First(job, initial), job.to);
    forall i | 0 <= i < STAGES
      ensures Done(job, initial, v, i) == range && Done(job, initial, w, i) == range
    {
      FinishedIsDone(job, chain, initial, v, i);
      FinishedIsDone(job, chain, initial, w, i);
    }
    FinishedIsDone(job, chain, initial, v, 0);
    FinishedIsDone(job, chain, initial, w, 0);
    SourcesConflictFree(chain);
    FitsDetermines(v.store.blocks, w.store.blocks, initial.blocks, BlocksOf(chain), range);
    FitsDetermines(v.store.txs, w.store.txs, initial.txs, TxsOf(chain), range);
    FitsDetermines(v.store.swaps, w.store.swaps, initial.swaps, SwapsOf(chain), range);
    FitsDetermines(v.store.liquidity, w.store.liquidity, initial.liquidity, LiquidityOf(chain), range);
    FitsDetermines(v.store.transfers, w.store.transfers, initial.transfers, TransfersOf(chain), range);
    FitsDetermines(v.store.failed, w.store.failed, initial.failed, FailedOf(chain), range);
  }

  /** The table holds these rows, unless it started with others under the same key. */
  ghost predicate Holds<K, V>(have: map<K, V>, initial: map<K, V>, rows: map<K, V>) {
    forall k | k in rows :: k in have && have[k] == if k in initial then initial[k] else rows[k]
  }

  lemma FitsHolds<K(!new), V>(have: map<K, V>, initial: map<K, V>, source: Source<K, V>, range: set<nat>, n: nat)
    requires ConflictFree(source) && Fits(have, initial, source, range, range) && n in range
    ensures Holds(have, initial, source(n))
  {
    forall k | k in source(n) ensures k in have && have[k] == if k in initial then initial[k] else source(n)[k] {
      if k !in initial {
        assert Supplied(have, source, range, k);
        var m :| m in range && k in source(m) && source(m)[k] == have[k];
      }
    }
  }

  /** Nothing of the range is missing at the end: every table holds the rows of every height. */
  lemma FinishedTablesHold(job: Job, chain: Chain, initial: Store, steps: seq<Step>, n: nat)
    requires WellFormed(chain)
    requires var r := Run(job, chain, InitialWorld(job, initial), steps); r.Some? && Finished(job, r.value)
    requires n in Heights(First(job, initial), job.to)
    ensures var s := Run(job, chain, InitialWorld(job, initial), steps).value.store;
            && Holds(s.blocks, initial.blocks, map[n := chain(n).row])
            && Holds(s.txs, initial.txs, chain(n).txs)
            && Holds(s.swaps, initial.swaps, chain(n).swaps)
            && Holds(s.liquidity, initial.liquidity, chain(n).liquidity)
            && Holds(s.transfers, initial.transfers, chain(n).transfers)
            && Holds(s.failed, initial.failed, FailedRows(chain(n)))
  {
    var w := Run(job, chain, InitialWorld(job, initial), steps).value;
    var range := Heights(First(job, initial), job.to);
    RunKeepsInv(job, chain, initial, steps);
    forall i | 0 <= i < STAGES ensures Done(job, initial, w, i) == range {
      FinishedIsDone(job, chain, initial, w, i);
    }
    SourcesConflictFree(chain);
    FitsHolds(w.store.blocks, initial.blocks, BlocksOf(chain), range, n);
    FitsHolds(w.store.txs, initial.txs, TxsOf(chain), range, n);
    FitsHolds(w.store.swaps, initial.swaps, SwapsOf(chain), range, n);
    FitsHolds(w.store.liquidity, initial.liquidity, LiquidityOf(chain), range, n);
    FitsHolds(w.store.transfers, initial.transfers, TransfersOf(chain), range, n);
    FitsHolds(w.store.failed, initial.failed, FailedOf(chain), range, n);
  }

  /** The failed row of a transaction with any call tree: the stored category of the output of
      its root call. */
  lemma FinishedFailedRow(job: Job, chain: Chain, initial: Store, steps: seq<Step>, n: nat, tx: TxHash,
                          t: CallTrace.Tree<CallTrace.FlatInfo>)
    requires WellFormed(chain)
    requires var r := Run(job, chain, InitialWorld(job, initial), steps); r.Some? && Finished(job, r.value)
    requires n in Heights(First(job, initial), job.to) && tx in chain(n).txs && tx !in initial.failed
    requires Frames(OfTx(chain(n).traces, tx)) == CallTrace.PreOrder(t, 0)
    ensures var s := Run(job, chain, InitialWorld(job, initial), steps).value.store;
            tx in s.failed && s.failed[tx] == CategoryColumn(t.info.output)
  {
    FinishedTablesHold(job, chain, initial, steps, n);
    FailedRowOfTree(chain(n), tx, t);
  }

  /** Each transaction's trace stands there whole, once plus at most once per interruption. */
  lemma FinishedTraces(job: Job, chain: Chain, initial: Store, steps: seq<Step>, n: nat, tx: TxHash)
    requires WellFormed(chain)
    requires var r := Run(job, chain, InitialWorld(job, initial), steps); r.Some? && Finished(job, r.value)
    requires n in Heights(First(job, initial), job.to) && tx in chain(n).txs
    ensures var w := Run(job, chain, InitialWorld(job, initial), steps).value;
            && OfTx(w.store.traces, tx) == OfTx(initial.traces, tx) + Times(OfTx(chain(n).traces, tx), w.copies[n])
            && 1 <= w.copies[n] <= 1 + w.kills
  {
    RunKeepsInv(job, chain, initial, steps);
    FinishedIsDone(job, chain, initial, Run(job, chain, InitialWorld(job, initial), steps).value, TRACES);
  }

  // -------------------------------------------- every history can be finished

  /** The world that a history leads to. */
  function After(job: Job, chain: Chain, initial: Store, steps: seq<Step>): World
    requires Run(job, chain, InitialWorld(job, initial), steps).Some?
  {
    Run(job, chain, InitialWorld(job, initial), steps).value
  }

  ghost predicate Possible(job: Job, chain: Chain, initial: Store, steps: seq<Step>) {
    Run(job, chain, InitialWorld(job, initial), steps).Some?
  }

  lemma OneStepMore(job: Job, chain: Chain, initial: Store, steps: seq<Step>, step: Step)
    requires Possible(job, chain, initial, steps) && Enabled(job, chain, After(job, chain, initial, steps), step)
    ensures Possible(job, chain, initial, steps + [step])
    ensures After(job, chain, initial, steps + [step]) == Apply(job, chain, After(job, chain, initial, steps), step)
  {
    assert (steps + [step])[..|steps|] == steps;
  }

  /** The same chunk is running after the same kills; some inserts further. */
  predicate SameChunk(v: World, w: World) {
    && v.kills == w.kills && v.reached == w.reached
    && v.process.Running? && w.process.Running?
    && v.process == w.process.(stage := v.process.stage)
    && v.process.stage.Keys == w.process.stage.Keys
  }

  /** The inserts of one height up to a given stage. */
  lemma {:induction false} AdvanceHeight(job: Job, chain: Chain, initial: Store, steps: seq<Step>, n: nat, goal: nat)
    returns (all: seq<Step>)
    requires Possible(job, chain, initial, steps) && goal <= STAGES
    requires forall k | 0 <= k < goal :: !Blocked(chain(n), k)
    requires var w := After(job, chain, initial, steps);
             w.process.Running? && n in w.process.stage && w.process.stage[n] <= goal
    ensures steps <= all && Possible(job, chain, initial, all)
    ensures var w, v := After(job, chain, initial, steps), After(job, chain, initial, all);
            SameChunk(v, w) && v.process.stage == w.process.stage[n := goal]
    decreases goal - After(job, chain, initial, steps).process.stage[n]
  {
    var w := After(job, chain, initial, steps);
    if w.process.stage[n] == goal {
      all := steps;
      assert w.process.stage == w.process.stage[n := goal];
    } else {
      OneStepMore(job, chain, initial, steps, InsertNext(n));
      SameKeys(w.process.stage, n, w.process.stage[n] + 1);
      all := AdvanceHeight(job, chain, initial, steps + [InsertNext(n)], n, goal);
      OverwrittenTwice(w.process.stage, n, w.process.stage[n] + 1, goal);
    }
  }

  lemma OverwrittenTwice(stage: map<nat, nat>, n: nat, k: nat, l: nat)
    ensures stage[n := k][n := l] == stage[n := l]
  {
  }

  /** The heights of the running chunk that still have inserts to do. */
  ghost function Unfinished(stage: map<nat, nat>): set<nat> {
    set n | n in stage && stage[n] < STAGES
  }

  lemma {:induction false} FinishHeights(job: Job, chain: Chain, initial: Store, steps: seq<Step>)
    returns (all: seq<Step>)
    requires Possible(job, chain, initial, steps)
    requires var w := After(job, chain, initial, steps);
             w.process.Running?
             && forall n | n in w.process.stage :: w.process.stage[n] <= STAGES && !Stopped(chain(n))
    ensures steps <= all && Possible(job, chain, initial, all)
    ensures var w, v := After(job, chain, initial, steps), After(job, chain, initial, all);
            SameChunk(v, w) && Enabled(job, chain, v, FinishChunk)
    decreases Unfinished(After(job, chain, initial, steps).process.stage)
  {
    var stage := After(job, chain, initial, steps).process.stage;
    if Unfinished(stage) == {} {
      all := steps;
      forall n | n in stage ensures stage[n] == STAGES { assert n !in Unfinished(stage); }
    } else {
      var n :| n in Unfinished(stage);
      assert forall k | 0 <= k < STAGES :: !Blocked(chain(n), k);
      var more := AdvanceHeight(job, chain, initial, steps, n, STAGES);
      assert Unfinished(stage[n := STAGES]) == Unfinished(stage) - {n};
      all := FinishHeights(job, chain, initial, more);
    }
  }

  function Left(job: Job, w: World): nat {
    if w.reached <= job.to then job.to - w.reached else 0
  }

  /** No height after the last completed chunk stops its task. */
  ghost predicate NoStopAhead(job: Job, chain: Chain, w: World) {
    forall n: nat | w.reached < n <= job.to :: !Stopped(chain(n))
  }

  lemma CompleteChunk(job: Job, chain: Chain, initial: Store, steps: seq<Step>) returns (more: seq<Step>)
    requires WellFormed(chain) && Possible(job, chain, initial, steps)
    requires var w := After(job, chain, initial, steps);
             w.process.Running? && ProgressOk(job, initial, w) && NoStopAhead(job, chain, w)
    ensures steps <= more && Possible(job, chain, initial, more)
    ensures var w, v := After(job, chain, initial, steps), After(job, chain, initial, more);
            v.kills == w.kills && v.reached == w.process.chunkEnd > w.reached
  {
    var w := After(job, chain, initial, steps);
    assert forall n | n in w.process.stage :: n in Heights(w.reached + 1, w.process.chunkEnd);
    var ready := FinishHeights(job, chain, initial, steps);
    OneStepMore(job, chain, initial, ready, FinishChunk);
    more := ready + [FinishChunk];
  }

  /** Wherever such a history stands, killed or running, it can be continued to a finished
      one that is interrupted no further. */
  lemma {:induction false} CanFinish(job: Job, chain: Chain, initial: Store, steps: seq<Step>)
    returns (all: seq<Step>)
    requires WellFormed(chain) && Possible(job, chain, initial, steps)
    requires NoStopAhead(job, chain, After(job, chain, initial, steps))
    ensures steps <= all && Possible(job, chain, initial, all)
    ensures Finished(job, After(job, chain, initial, all))
    ensures After(job, chain, initial, all).kills == After(job, chain, initial, steps).kills
    decreases Left(job, After(job, chain, initial, steps)),
              if After(job, chain, initial, steps).process.Down? then 1 else 0
  {
    var w := After(job, chain, initial, steps);
    RunKeepsInv(job, chain, initial, steps);
    if Finished(job, w) {
      all := steps;
    } else if w.process.Down? {
      OneStepMore(job, chain, initial, steps, Start);
      all := CanFinish(job, chain, initial, steps + [Start]);
    } else {
      var more := CompleteChunk(job, chain, initial, steps);
      all := CanFinish(job, chain, initial, more);
    }
  }

  // ------------------------------------------------- heights that stop the indexer

  /** A height is never completed if one of its statements is blocked: its task stops there,
      and before its traces are stored if the statement comes before or is theirs. */
  ghost predicate StopHolds(job: Job, chain: Chain, initial: Store, w: World, n: nat, k: nat) {
    && n > w.reached && (k <= TRACES ==> w.copies[n] == 0)
    && (w.process.Running? && n in w.process.stage ==> w.process.stage[n] <= k)
  }

  lemma StepKeepsStop(job: Job, chain: Chain, initial: Store, w: World, step: Step, n: nat, k: nat)
    requires ProgressOk(job, initial, w) && Enabled(job, chain, w, step)
    requires n in Heights(First(job, initial), job.to) && k < STAGES && Blocked(chain(n), k)
    requires StopHolds(job, chain, initial, w, n, k)
    ensures StopHolds(job, chain, initial, Apply(job, chain, w, step), n, k)
  {
    if step.FinishChunk? {
      assert n in w.process.stage <==> n in Heights(w.reached + 1, w.process.chunkEnd);
    }
  }

  lemma {:induction false} RunKeepsStop(job: Job, chain: Chain, initial: Store, steps: seq<Step>, n: nat, k: nat)
    requires WellFormed(chain) && Possible(job, chain, initial, steps)
    requires n in Heights(First(job, initial), job.to) && k < STAGES && Blocked(chain(n), k)
    ensures StopHolds(job, chain, initial, After(job, chain, initial, steps), n, k)
  {
    if steps != [] {
      var init, last := steps[..|steps| - 1], steps[|steps| - 1];
      RunKeepsStop(job, chain, initial, init, n, k);
      RunKeepsInv(job, chain, initial, init);
      StepKeepsStop(job, chain, initial, After(job, chain, initial, init), last, n, k);
    }
  }

  /** However often the run is restarted, the checkpoint never reaches a height with a blocked
      statement, its later statements are never executed and the job is never finished. */
  lemma BlockedHeightStopsCheckpoint(job: Job, chain: Chain, initial: Store, steps: seq<Step>, n: nat, k: nat)
    requires WellFormed(chain) && Possible(job, chain, initial, steps)
    requires Outstanding(job.from, job.to, initial.checkpoint, n) && k < STAGES && Blocked(chain(n), k)
    ensures var w := After(job, chain, initial, steps);
            && (w.store.checkpoint.Some? ==> w.store.checkpoint.value < n)
            && (k <= TRACES ==> w.copies[n] == 0)
            && !Finished(job, w)
  {
    assert n in Heights(First(job, initial), job.to);
    RunKeepsInv(job, chain, initial, steps);
    RunKeepsStop(job, chain, initial, steps, n, k);
  }

  ghost predicate Finishable(job: Job, chain: Chain, initial: Store, steps: seq<Step>) {
    exists all :: steps <= all && Possible(job, chain, initial, all)
                  && Finished(job, After(job, chain, initial, all))
  }

  /** What a restart finds to do is what lies after the last completed chunk. */
  lemma OutstandingIsAhead(job: Job, initial: Store, w: World, n: nat)
    requires ProgressOk(job, initial, w)
    ensures Outstanding(job.from, job.to, w.store.checkpoint, n) <==>
            n in Heights(First(job, initial), job.to) && n > w.reached
    ensures Outstanding(job.from, job.to, w.store.checkpoint, n) ==>
              Outstanding(job.from, job.to, initial.checkpoint, n)
  {
  }

  lemma AheadIsOutstanding(job: Job, initial: Store, w: World, n: nat)
    requires ProgressOk(job, initial, w) && w.reached < n <= job.to
    ensures Outstanding(job.from, job.to, w.store.checkpoint, n)
  {
    OutstandingIsAhead(job, initial, w, n);
  }

  /** A history can be finished if and only if no height that its checkpoint leaves
      outstanding has a blocked statement: revert data that panics the decoder, or a row that
      the schema refuses. */
  lemma FinishableIff(job: Job, chain: Chain, initial: Store, steps: seq<Step>)
    requires WellFormed(chain) && Possible(job, chain, initial, steps)
    ensures Finishable(job, chain, initial, steps) <==>
            forall n | Outstanding(job.from, job.to, After(job, chain, initial, steps).store.checkpoint, n) ::
              !Stopped(chain(n))
  {
    var w := After(job, chain, initial, steps);
    RunKeepsInv(job, chain, initial, steps);
    if n :| Outstanding(job.from, job.to, w.store.checkpoint, n) && Stopped(chain(n)) {
      var k :| 0 <= k < STAGES && Blocked(chain(n), k);
      OutstandingIsAhead(job, initial, w, n);
      forall all | steps <= all && Possible(job, chain, initial, all)
        ensures !Finished(job, After(job, chain, initial, all))
      {
        BlockedHeightStopsCheckpoint(job, chain, initial, all, n, k);
      }
    } else {
      forall n: nat | w.reached < n <= job.to ensures !Stopped(chain(n)) {
        AheadIsOutstanding(job, initial, w, n);
      }
      var all := CanFinish(job, chain, initial, steps);
    }
  }

  /** One bad block is enough: over a chain that is otherwise empty, no job that has to do
      its height can ever be finished. */
  lemma OneBlockedHeight(job: Job, initial: Store, n: nat, c: Content, k: nat)
    requires OwnTransactions(c, n) && k < STAGES && Blocked(c, k)
    requires Outstanding(job.from, job.to, initial.checkpoint, n)
    ensures WellFormed(Alone(n, c)) && !Finishable(job, Alone(n, c), initial, [])
  {
    AloneIsWellFormed(n, c);
    var w := After(job, Alone(n, c), initial, []);
    assert w == InitialWorld(job, initial);
    FinishableIff(job, Alone(n, c), initial, []);
    assert Stopped(Alone(n, c)(n));
  }

  // ------------------------------------------------------------ the refinement

  lemma FinishedIsNotStopped(job: Job, chain: Chain, initial: Store, steps: seq<Step>, n: nat)
    requires WellFormed(chain) && Possible(job, chain, initial, steps)
    requires Finished(job, After(job, chain, initial, steps)) && First(job, initial) <= n <= job.to
    ensures !Stopped(chain(n))
  {
    if k :| 0 <= k < STAGES && Blocked(chain(n), k) {
      BlockedHeightStopsCheckpoint(job, chain, initial, steps, n, k);
    }
  }

  /** Crash recovery refines the uninterrupted run: for every finished history there is a
      finished one without kills that leaves the same store, except that it holds each
      transaction's trace exactly once. */
  lemma RecoveryRefinesCleanRun(job: Job, chain: Chain, initial: Store, steps: seq<Step>)
    returns (clean: seq<Step>)
    requires WellFormed(chain) && Possible(job, chain, initial, steps)
    requires Finished(job, After(job, chain, initial, steps))
    ensures Possible(job, chain, initial, clean)
    ensures var v, w := After(job, chain, initial, steps), After(job, chain, initial, clean);
            && Finished(job, w) && w.kills == 0
            && v.store == w.store.(traces := v.store.traces)
            && (forall n, tx | n in Heights(First(job, initial), job.to) && tx in chain(n).txs ::
                  OfTx(w.store.traces, tx) == OfTx(initial.traces, tx) + Times(OfTx(chain(n).traces, tx), 1))
  {
    RunKeepsInv(job, chain, initial, steps);
    forall n: nat | First(job, initial) - 1 < n <= job.to ensures !Stopped(chain(n)) {
      FinishedIsNotStopped(job, chain, initial, steps, n);
    }
    clean := CanFinish(job, chain, initial, []);
    RestartsDoNotShow(job, chain, initial, steps, clean);
    var w := After(job, chain, initial, clean);
    forall n, tx | n in Heights(First(job, initial), job.to) && tx in chain(n).txs
      ensures OfTx(w.store.traces, tx) == OfTx(initial.traces, tx) + Times(OfTx(chain(n).traces, tx), 1)
    {
      FinishedTraces(job, chain, initial, clean, n, tx);
    }
  }

  // ------------------------------------------------------- how often a trace is stored

  /** The traces of n are stored, and the chunk is not completed. */
  predicate PastTraces(w: World, n: nat) {
    w.process.Running? && n in w.process.stage && w.process.stage[n] > TRACES
  }

  predicate Interrupts(step: Step) {
    step.Kill? || step.Fail?
  }

  /** How often the run ended while the traces of n were stored and its chunk was not complete. */
  ghost function LateEnds(job: Job, chain: Chain, initial: Store, steps: seq<Step>, n: nat): nat
    requires Possible(job, chain, initial, steps)
  {
    if steps == [] then 0
    else
      var init := steps[..|steps| - 1];
      LateEnds(job, chain, initial, init, n) +
      if Interrupts(steps[|steps| - 1]) && PastTraces(After(job, chain, initial, init), n) then 1 else 0
  }

  ghost function DoneBit(job: Job, initial: Store, w: World, n: nat): nat {
    if n in Done(job, initial, w, TRACES) then 1 else 0
  }

  lemma CopiesStep(job: Job, chain: Chain, initial: Store, w: World, step: Step, n: nat)
    requires ProgressOk(job, initial, w) && Enabled(job, chain, w, step)
    requires n in Heights(First(job, initial), job.to)
    ensures var v := Apply(job, chain, w, step);
            v.copies[n] + DoneBit(job, initial, w, n) ==
            w.copies[n] + DoneBit(job, initial, v, n) + if Interrupts(step) && PastTraces(w, n) then 1 else 0
  {
    match step
    case InsertNext(m) => DoneAfterInsert(job, chain, initial, w, m, TRACES);
    case FinishChunk => FinishLearnsNothing(job, chain, initial, w, TRACES);
    case Start =>
    case Fail(_) | Kill =>
      assert w.process.stage.Keys == Heights(w.reached + 1, w.process.chunkEnd);
  }

  /** The number of stored copies, exactly: one for every run that ended late, and one more
      once the height's trace insert is done. */
  lemma {:induction false} CopiesAre(job: Job, chain: Chain, initial: Store, steps: seq<Step>, n: nat)
    requires WellFormed(chain) && Possible(job, chain, initial, steps)
    requires n in Heights(First(job, initial), job.to)
    ensures var w := After(job, chain, initial, steps);
            w.copies[n] == LateEnds(job, chain, initial, steps, n) + DoneBit(job, initial, w, n)
  {
    if steps != [] {
      var init := steps[..|steps| - 1];
      CopiesAre(job, chain, initial, init, n);
      RunKeepsInv(job, chain, initial, init);
      CopiesStep(job, chain, initial, After(job, chain, initial, init), steps[|steps| - 1], n);
    }
  }

  /** At the end: one copy more than runs ended late. */
  lemma FinishedCopies(job: Job, chain: Chain, initial: Store, steps: seq<Step>, n: nat)
    requires WellFormed(chain) && Possible(job, chain, initial, steps)
    requires Finished(job, After(job, chain, initial, steps)) && n in Heights(First(job, initial), job.to)
    ensures After(job, chain, initial, steps).copies[n] == LateEnds(job, chain, initial, steps, n) + 1
  {
    CopiesAre(job, chain, initial, steps, n);
    RunKeepsInv(job, chain, initial, steps);
    FinishedIsDone(job, chain, initial, After(job, chain, initial, steps), TRACES);
  }

  /** The runs that ended otherwise. */
  ghost function EarlyEnds(job: Job, chain: Chain, initial: Store, steps: seq<Step>, n: nat): int
    requires Possible(job, chain, initial, steps)
  {
    After(job, chain, initial, steps).kills - LateEnds(job, chain, initial, steps, n)
  }

  lemma {:induction false} EndsOnlyGrow(job: Job, chain: Chain, initial: Store, steps: seq<Step>, all: seq<Step>,
                                        n: nat)
    requires Possible(job, chain, initial, all) && steps <= all
    ensures Possible(job, chain, initial, steps)
    ensures LateEnds(job, chain, initial, steps, n) <= LateEnds(job, chain, initial, all, n)
    ensures EarlyEnds(job, chain, initial, steps, n) <= EarlyEnds(job, chain, initial, all, n)
    decreases |all|
  {
    if steps == all {
    } else {
      var init := all[..|all| - 1];
      EndsOnlyGrow(job, chain, initial, steps, init, n);
    }
  }

  /** Any number of late ends can happen: each run stores the traces of its first height and
      is killed right after. */
  lemma {:induction false} LateKills(job: Job, chain: Chain, initial: Store, k: nat) returns (steps: seq<Step>)
    requires WellFormed(chain) && First(job, initial) <= job.to
    requires forall i | 0 <= i <= TRACES :: !Blocked(chain(First(job, initial)), i)
    ensures Possible(job, chain, initial, steps)
    ensures var w := After(job, chain, initial, steps);
            w.process.Down? && w.reached == First(job, initial) - 1 && w.kills == k
    ensures LateEnds(job, chain, initial, steps, First(job, initial)) == k
  {
    var n := First(job, initial);
    if k == 0 {
      steps := [];
    } else {
      var before := LateKills(job, chain, initial, k - 1);
      RunKeepsInv(job, chain, initial, before);
      OneStepMore(job, chain, initial, before, Start);
      var started := before + [Start];
      RunKeepsInv(job, chain, initial, started);
      assert n in Heights(n, After(job, chain, initial, started).process.chunkEnd);
      var stored := AdvanceHeight(job, chain, initial, started, n, TRACES + 1);
      EndsOnlyGrow(job, chain, initial, before, stored, n);
      OneStepMore(job, chain, initial, stored, Kill);
      steps := stored + [Kill];
      assert steps[..|steps| - 1] == stored;
    }
  }

  /** A job with no blocked statement can be killed any number of times, be finished, and leave
      the trace of its first height stored once more than it was killed. */
  lemma TraceStoredAnyNumberOfTimes(job: Job, chain: Chain, initial: Store, k: nat) returns (steps: seq<Step>)
    requires WellFormed(chain) && First(job, initial) <= job.to
    requires forall n | n in Heights(First(job, initial), job.to) :: !Stopped(chain(n))
    ensures Possible(job, chain, initial, steps) && Finished(job, After(job, chain, initial, steps))
    ensures After(job, chain, initial, steps).kills == k
    ensures After(job, chain, initial, steps).copies[First(job, initial)] == k + 1
  {
    var n := First(job, initial);
    assert n in Heights(n, job.to);
    forall i | 0 <= i <= TRACES ensures !Blocked(chain(n), i) {
      assert !Stopped(chain(n));
    }
    var killed := LateKills(job, chain, initial, k);
    assert forall m: nat | n - 1 < m <= job.to :: m in Heights(n, job.to);
    steps := CanFinish(job, chain, initial, killed);
    EndsOnlyGrow(job, chain, initial, killed, steps, n);
    EndsOnlyGrow(job, chain, initial, [], steps, n);
    FinishedCopies(job, chain, initial, steps, n);
  }

  // ------------------------------------------------------ the first error frame

  /** Repeating a trace does not change which row is its first error. */
  lemma {:induction false} RepeatedTraceSameRootCause(trace: seq<TraceRow>, copies: nat)
    requires copies >= 1
    ensures RootCause.FirstError(Frames(Times(trace, copies))) == RootCause.FirstError(Frames(trace))
    ensures |trace| <= |Times(trace, copies)| && Times(trace, copies)[..|trace|] == trace
  {
    if copies == 1 {
      assert Times(trace, 1) == Times(trace, 0) + trace == trace;
    } else {
      RepeatedTraceSameRootCause(trace, copies - 1);
      var front := Times(trace, copies - 1);
      assert Frames(front + trace) == Frames(front) + Frames(trace);
      RootCause.FirstErrorOfAppend(Frames(front), Frames(trace));
    }
  }

  /** However often the job was interrupted, the diagnosed root cause of a transaction is the
      one that a single trace, after the rows it already had, gives. */
  lemma RestartsKeepRootCause(job: Job, chain: Chain, initial: Store, steps: seq<Step>, n: nat, tx: TxHash)
    requires WellFormed(chain)
    requires var r := Run(job, chain, InitialWorld(job, initial), steps); r.Some? && Finished(job, r.value)
    requires n in Heights(First(job, initial), job.to) && tx in chain(n).txs
    ensures var rows := OfTx(Run(job, chain, InitialWorld(job, initial), steps).value.store.traces, tx);
            RootCause.FirstError(Frames(rows)) ==
            RootCause.FirstError(Frames(OfTx(initial.traces, tx) + OfTx(chain(n).traces, tx)))
  {
    FinishedTraces(job, chain, initial, steps, n, tx);
    var w := Run(job, chain, InitialWorld(job, initial), steps).value;
    SameFirstError(OfTx(initial.traces, tx), OfTx(chain(n).traces, tx), w.copies[n]);
  }

  lemma SameFirstError(before: seq<TraceRow>, trace: seq<TraceRow>, copies: nat)
    requires copies >= 1
    ensures RootCause.FirstError(Frames(before + Times(trace, copies))) ==
            RootCause.FirstError(Frames(before + trace))
  {
    RepeatedTraceSameRootCause(trace, copies);
    assert Frames(before + trace) == Frames(before) + Frames(trace);
    assert Frames(before + Times(trace, copies)) == Frames(before) + Frames(Times(trace, copies));
    RootCause.FirstErrorOfAppend(Frames(before), Frames(trace));
    RootCause.FirstErrorOfAppend(Frames(before), Frames(Times(trace, copies)));
  }

  // ---------------------------------------------------------- the repeated call tree

  lemma {:induction false} FramesOfTimes(trace: seq<TraceRow>, copies: nat)
    ensures Frames(Times(trace, copies)) == RootCause.Repeated(Frames(trace), copies)
  {
    if copies > 0 {
      FramesOfTimes(trace, copies - 1);
      assert Frames(Times(trace, copies - 1) + trace) == Frames(Times(trace, copies - 1)) + Frames(trace);
    }
  }

  /** What a reader sees of a call tree that was stored `copies` times: the listing is flagged
      exactly when copies times its calls exceed 2000, reading gives the tree that many times,
      and the rows rebuild it exactly when it was stored once. */
  ghost predicate SeenAs(rows: seq<CallTrace.FlatFrame>, t: CallTrace.Tree<CallTrace.FlatInfo>, copies: nat) {
    && (RootCause.IsTruncated(rows) <==> copies * CallTrace.Size(t) > 2000)
    && CallTrace.ParseForest(rows, 0) == (RootCause.Same(t, copies), [])
    && (CallTrace.Rebuild(rows) == Some(t) <==> copies == 1)
  }

  lemma TimesSeenAs(trace: seq<TraceRow>, copies: nat, t: CallTrace.Tree<CallTrace.FlatInfo>)
    requires Frames(trace) == CallTrace.PreOrder(t, 0)
    ensures SeenAs(Frames(Times(trace, copies)), t, copies)
  {
    FramesOfTimes(trace, copies);
    RootCause.DiagnosisOfCopies(t, copies);
  }

  /** The rows of a transaction that the job started without. */
  lemma StoredTrace(job: Job, chain: Chain, initial: Store, steps: seq<Step>, n: nat, tx: TxHash)
    requires WellFormed(chain) && Possible(job, chain, initial, steps)
    requires Finished(job, After(job, chain, initial, steps))
    requires n in Heights(First(job, initial), job.to) && tx in chain(n).txs && OfTx(initial.traces, tx) == []
    ensures OfTx(After(job, chain, initial, steps).store.traces, tx)
            == Times(OfTx(chain(n).traces, tx), LateEnds(job, chain, initial, steps, n) + 1)
  {
    FinishedTraces(job, chain, initial, steps, n, tx);
    FinishedCopies(job, chain, initial, steps, n);
  }

  /** What the reader of an interrupted job's traces sees: the tree once, and once more for
      every run that ended between its trace insert and the checkpoint of its chunk. */
  lemma DiagnosisAfterRestarts(job: Job, chain: Chain, initial: Store, steps: seq<Step>, n: nat, tx: TxHash,
                               t: CallTrace.Tree<CallTrace.FlatInfo>)
    returns (rows: seq<CallTrace.FlatFrame>, copies: nat)
    requires WellFormed(chain) && Possible(job, chain, initial, steps)
    requires Finished(job, After(job, chain, initial, steps))
    requires n in Heights(First(job, initial), job.to) && tx in chain(n).txs
    requires OfTx(initial.traces, tx) == [] && Frames(OfTx(chain(n).traces, tx)) == CallTrace.PreOrder(t, 0)
    ensures rows == Frames(OfTx(After(job, chain, initial, steps).store.traces, tx))
    ensures copies == LateEnds(job, chain, initial, steps, n) + 1
    ensures SeenAs(rows, t, copies)
  {
    StoredTrace(job, chain, initial, steps, n, tx);
    copies := LateEnds(job, chain, initial, steps, n) + 1;
    rows := Frames(Times(OfTx(chain(n).traces, tx), copies));
    TimesSeenAs(OfTx(chain(n).traces, tx), copies, t);
  }
}
