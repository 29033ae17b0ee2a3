/** The indexer's tables, their foreign keys, and `rollback_from_block`. */
module Tables {
  import opened Options
  import opened ForkScan
  import AlertLedger
  import CallTrace

  type TxHash = string

  datatype BlockRow = BlockRow(hash: Option<Hash>, parent: Option<Hash>)
  datatype TxRow = TxRow(block: nat, gasUsed: int, gasPrice: nat, value: nat, columns: string)
  datatype SwapRow = SwapRow(amount0: int, amount1: int, liquidity: nat, columns: string)
  datatype LiquidityRow = LiquidityRow(amount0: nat, amount1: nat, tickLower: int, tickUpper: int, liquidity: nat,
                                       columns: string)
  datatype TransferRow = TransferRow(amount: nat, columns: string)
  datatype LogKey = LogKey(tx: TxHash, logIndex: int)
  datatype TraceRow = TraceRow(tx: TxHash, frame: CallTrace.FlatFrame)

  /** One state of the database. Columns that the code only copies are one string;
      `traces` is in `trace_id` order. */
  datatype Store = Store(
    blocks: map<nat, BlockRow>,
    txs: map<TxHash, TxRow>,
    swaps: map<LogKey, SwapRow>,
    liquidity: map<LogKey, LiquidityRow>,
    transfers: map<LogKey, TransferRow>,
    traces: seq<TraceRow>,
    failed: map<TxHash, string>,
    checkpoint: Option<nat>,
    alerts: AlertLedger.Ledger)

  /** The foreign keys of the schema. */
  ghost predicate ForeignKeys(s: Store) {
    && (forall t | t in s.txs :: s.txs[t].block in s.blocks)
    && (forall k | k in s.swaps :: k.tx in s.txs)
    && (forall k | k in s.liquidity :: k.tx in s.txs)
    && (forall k | k in s.transfers :: k.tx in s.txs)
    && (forall i | 0 <= i < |s.traces| :: s.traces[i].tx in s.txs)
    && (forall t | t in s.failed :: t in s.txs)
  }

  // ------------------------------------------------------- the eight statements

  /** SELECT tx_hash FROM transaction WHERE block_number >= from */
  function Doomed(s: Store, from: int): set<TxHash> {
    set t | t in s.txs && s.txs[t].block >= from
  }

  function WithoutLogs<V>(m: map<LogKey, V>, gone: set<TxHash>): map<LogKey, V> {
    map k | k in m && k.tx !in gone :: m[k]
  }

  function WithoutTraces(rows: seq<TraceRow>, gone: set<TxHash>): seq<TraceRow> {
    if rows == [] then []
    else (if rows[0].tx in gone then [] else [rows[0]]) + WithoutTraces(rows[1..], gone)
  }

  lemma {:induction false} WithoutTracesMembers(rows: seq<TraceRow>, gone: set<TxHash>)
    ensures forall x :: x in WithoutTraces(rows, gone) <==> x in rows && x.tx !in gone
  {
    if rows != [] {
      WithoutTracesMembers(rows[1..], gone);
      assert rows == [rows[0]] + rows[1..];
    }
  }

  /** The rows of one transaction, in `trace_id` order. */
  function OfTx(rows: seq<TraceRow>, tx: TxHash): seq<TraceRow> {
    if rows == [] then []
    else (if rows[0].tx == tx then [rows[0]] else []) + OfTx(rows[1..], tx)
  }

  /** Filtering keeps the rows of every other transaction, their number and their order. */
  lemma {:induction false} WithoutTracesOfTx(rows: seq<TraceRow>, gone: set<TxHash>, tx: TxHash)
    ensures OfTx(WithoutTraces(rows, gone), tx) == if tx in gone then [] else OfTx(rows, tx)
  {
    if rows != [] {
      WithoutTracesOfTx(rows[1..], gone, tx);
      var kept := WithoutTraces(rows[1..], gone);
      if rows[0].tx in gone {
        assert WithoutTraces(rows, gone) == kept;
      } else {
        assert ([rows[0]] + kept)[1..] == kept;
      }
    }
  }

  function BlocksBelow(m: map<nat, BlockRow>, from: int): map<nat, BlockRow> {
    map b | b in m && b < from :: m[b]
  }

  function ResumePoint(from: int): nat {
    if from - 1 < 0 then 0 else from - 1
  }

  const STATEMENTS: nat := 8

  function Statement(k: nat, s: Store, from: int): Store
    requires k < STATEMENTS
  {
    if k == 0 then s.(swaps := WithoutLogs(s.swaps, Doomed(s, from)))
    else if k == 1 then s.(liquidity := WithoutLogs(s.liquidity, Doomed(s, from)))
    else if k == 2 then s.(transfers := WithoutLogs(s.transfers, Doomed(s, from)))
    else if k == 3 then s.(traces := WithoutTraces(s.traces, Doomed(s, from)))
    else if k == 4 then s.(failed := s.failed - Doomed(s, from))
    else if k == 5 then s.(txs := s.txs - Doomed(s, from))
    else if k == 6 then s.(blocks := BlocksBelow(s.blocks, from))
    else s.(checkpoint := if s.checkpoint.Some? then Some(ResumePoint(from)) else None)
  }

  /** The store after the first k statements of the rollback transaction. */
  function AfterStatements(s: Store, from: int, k: nat): Store
    requires k <= STATEMENTS
  {
    if k == 0 then s else Statement(k - 1, AfterStatements(s, from, k - 1), from)
  }

  /** The rows whose own block lies below `from`, and the checkpoint just below it. */
  function Rollback(s: Store, from: int): Store {
    var gone := Doomed(s, from);
    Store(
      BlocksBelow(s.blocks, from),
      s.txs - gone,
      WithoutLogs(s.swaps, gone),
      WithoutLogs(s.liquidity, gone),
      WithoutLogs(s.transfers, gone),
      WithoutTraces(s.traces, gone),
      s.failed - gone,
      if s.checkpoint.Some? then Some(ResumePoint(from)) else None,
      s.alerts)
  }

  /** What the transaction looks like from inside after k statements: the dependent tables
      lose the doomed transactions one by one, then the transactions go, then the blocks. */
  function Midway(s: Store, from: int, k: nat): Store {
    var b := Rollback(s, from);
    Store(
      if k > 6 then b.blocks else s.blocks,
      if k > 5 then b.txs else s.txs,
      if k > 0 then b.swaps else s.swaps,
      if k > 1 then b.liquidity else s.liquidity,
      if k > 2 then b.transfers else s.transfers,
      if k > 3 then b.traces else s.traces,
      if k > 4 then b.failed else s.failed,
      if k > 7 then b.checkpoint else s.checkpoint,
      s.alerts)
  }

  lemma {:induction false} StatementsInOrder(s: Store, from: int, k: nat)
    requires k <= STATEMENTS
    ensures AfterStatements(s, from, k) == Midway(s, from, k)
  {
    if k > 0 {
      StatementsInOrder(s, from, k - 1);
      var u := Midway(s, from, k - 1);
      assert k <= 6 ==> u.txs == s.txs && Doomed(u, from) == Doomed(s, from);
      assert Statement(k - 1, u, from) == Midway(s, from, k);
    }
  }

  /** Referential integrity holds after every single DELETE, not only at COMMIT. */
  lemma RollbackKeepsForeignKeys(s: Store, from: int, k: nat)
    requires ForeignKeys(s) && k <= STATEMENTS
    ensures ForeignKeys(AfterStatements(s, from, k))
  {
    StatementsInOrder(s, from, k);
    var v := Midway(s, from, k);
    WithoutTracesMembers(s.traces, Doomed(s, from));
    forall i | 0 <= i < |v.traces| ensures v.traces[i].tx in v.txs {
      assert v.traces[i] in v.traces;
      assert v.traces[i] in s.traces;
    }
  }

  /** Some dependent table has a row of one of these transactions. */
  ghost predicate HasDependents(s: Store, txs: set<TxHash>) {
    || (exists k :: k in s.swaps && k.tx in txs)
    || (exists k :: k in s.liquidity && k.tx in txs)
    || (exists k :: k in s.transfers && k.tx in txs)
    || (exists i :: 0 <= i < |s.traces| && s.traces[i].tx in txs)
    || (exists t :: t in s.failed && t in txs)
  }

  /** The order is necessary: deleting the transactions first keeps the foreign keys if and
      only if no doomed transaction has a dependent row, and deleting the blocks first if and
      only if no transaction is doomed. */
  lemma OrderIsNecessary(s: Store, from: int)
    requires ForeignKeys(s)
    ensures ForeignKeys(Statement(5, s, from)) <==> !HasDependents(s, Doomed(s, from))
    ensures ForeignKeys(Statement(6, s, from)) <==> Doomed(s, from) == {}
  {
    TransactionsFirst(s, Doomed(s, from));
    var v := Statement(6, s, from);
    if t :| t in Doomed(s, from) {
      assert t in v.txs && v.txs[t].block !in v.blocks;
    } else {
      forall t | t in v.txs ensures v.txs[t].block in v.blocks {
        assert t !in Doomed(s, from);
      }
    }
  }

  lemma TransactionsFirst(s: Store, gone: set<TxHash>)
    requires ForeignKeys(s)
    ensures ForeignKeys(s.(txs := s.txs - gone)) <==> !HasDependents(s, gone)
  {
    var v := s.(txs := s.txs - gone);
    assert forall t :: t in v.txs <==> t in s.txs && t !in gone;
  }

  /** The eight statements together remove exactly the rows at or above the fork in every
      table and leave the lower rows and the alert ledger as they were. */
  lemma RollbackTransaction(s: Store, from: int)
    ensures AfterStatements(s, from, STATEMENTS) == Rollback(s, from)
  {
    StatementsInOrder(s, from, STATEMENTS);
  }

  /** A table after the rollback: exactly the rows whose transaction is not doomed, unchanged. */
  ghost predicate KeptLogs<V>(m: map<LogKey, V>, kept: map<LogKey, V>, s: Store, from: int)
    requires forall k | k in m :: k.tx in s.txs
  {
    && (forall k :: k in kept <==> k in m && s.txs[k.tx].block < from)
    && (forall k | k in kept :: kept[k] == m[k])
  }

  /** Row by row: which rows survive, and that the survivors are unchanged; for the traces,
      that every transaction below the fork keeps its rows, their number and their order. */
  lemma RollbackRows(s: Store, from: int)
    requires ForeignKeys(s)
    ensures var v := Rollback(s, from);
            && (forall b :: b in v.blocks <==> b in s.blocks && b < from)
            && (forall b | b in v.blocks :: v.blocks[b] == s.blocks[b])
            && (forall t :: t in v.txs <==> t in s.txs && s.txs[t].block < from)
            && (forall t | t in v.txs :: v.txs[t] == s.txs[t])
            && KeptLogs(s.swaps, v.swaps, s, from)
            && KeptLogs(s.liquidity, v.liquidity, s, from)
            && KeptLogs(s.transfers, v.transfers, s, from)
            && (forall t :: t in v.failed <==> t in s.failed && s.txs[t].block < from)
            && (forall t | t in v.failed :: v.failed[t] == s.failed[t])
            && (forall t | t in s.txs ::
                  OfTx(v.traces, t) == if s.txs[t].block < from then OfTx(s.traces, t) else [])
            && v.alerts == s.alerts
  {
    forall t | t in s.txs
      ensures OfTx(Rollback(s, from).traces, t) == if s.txs[t].block < from then OfTx(s.traces, t) else []
    {
      WithoutTracesOfTx(s.traces, Doomed(s, from), t);
    }
  }

  lemma {:induction false} WithoutTracesTwice(rows: seq<TraceRow>, a: set<TxHash>, b: set<TxHash>)
    ensures WithoutTraces(WithoutTraces(rows, a), b) == WithoutTraces(rows, a + b)
  {
    if rows != [] {
      WithoutTracesTwice(rows[1..], a, b);
      var head := if rows[0].tx in a then [] else [rows[0]];
      var kept := WithoutTraces(rows[1..], a);
      assert WithoutTraces(rows, a) == head + kept;
      if head != [] {
        assert (head + kept)[0] == rows[0] && (head + kept)[1..] == kept;
      } else {
        assert head + kept == kept;
      }
    }
  }

  function MinInt(a: int, b: int): int { if a <= b then a else b }

  lemma WithoutLogsTwice<V>(m: map<LogKey, V>, a: set<TxHash>, b: set<TxHash>)
    ensures WithoutLogs(WithoutLogs(m, a), b) == WithoutLogs(m, a + b)
  {
  }

  lemma DoomedTwice(s: Store, f: int, g: int)
    ensures Doomed(s, f) + Doomed(Rollback(s, f), g) == Doomed(s, MinInt(f, g))
  {
    var u := Rollback(s, f);
    assert u.txs == s.txs - Doomed(s, f);
  }

  lemma MinusTwice<V>(m: map<TxHash, V>, a: set<TxHash>, b: set<TxHash>)
    ensures m - a - b == m - (a + b)
  {
  }

  lemma BlocksBelowTwice(m: map<nat, BlockRow>, f: int, g: int)
    ensures BlocksBelow(BlocksBelow(m, f), g) == BlocksBelow(m, MinInt(f, g))
  {
  }

  /** Two rollbacks leave the rows of one at the smaller height; only the checkpoint
      follows the later of the two. */
  lemma RollbacksCompose(s: Store, f: int, g: int)
    ensures Rollback(Rollback(s, f), g) ==
            Rollback(s, MinInt(f, g)).(checkpoint := Rollback(s, g).checkpoint)
  {
    var a, b := Doomed(s, f), Doomed(Rollback(s, f), g);
    DoomedTwice(s, f, g);
    WithoutTracesTwice(s.traces, a, b);
    WithoutLogsTwice(s.swaps, a, b);
    WithoutLogsTwice(s.liquidity, a, b);
    WithoutLogsTwice(s.transfers, a, b);
    BlocksBelowTwice(s.blocks, f, g);
    MinusTwice(s.txs, a, b);
    MinusTwice(s.failed, a, b);
  }

  lemma RollbackIsIdempotent(s: Store, from: int)
    ensures Rollback(Rollback(s, from), from) == Rollback(s, from)
  {
    RollbacksCompose(s, from, from);
  }

  /** The rewound checkpoint is an overwrite: it moves back or stays exactly when the fork
      lies at most one above the checkpoint, otherwise it jumps forward over heights that
      were never completed. */
  lemma CheckpointMovesBackExactlyWhen(s: Store, from: int)
    requires s.checkpoint.Some?
    ensures Rollback(s, from).checkpoint.Some?
    ensures Rollback(s, from).checkpoint.value <= s.checkpoint.value <==> from <= s.checkpoint.value + 1
  {
  }

  // --------------------------------------------------- the newest hashed blocks

  lemma MaxExists(hs: set<nat>)
    requires hs != {}
    ensures exists m :: m in hs && forall x | x in hs :: x <= m
  {
    var m :| m in hs;
    var rest := hs - {m};
    if rest != {} {
      MaxExists(rest);
      var n :| n in rest && forall x | x in rest :: x <= n;
      var top := if n < m then m else n;
      forall x | x in hs ensures x <= top { assert x == m || x in rest; }
    } else {
      forall x | x in hs ensures x <= m { assert x == m || x in rest; }
    }
  }

  function MaxOf(hs: set<nat>): (m: nat)
    requires hs != {}
    ensures m in hs && forall x | x in hs :: x <= m
  {
    MaxExists(hs);
    var m :| m in hs && forall x | x in hs :: x <= m;
    m
  }

  function HashedHeights(blocks: map<nat, BlockRow>): set<nat> {
    set b | b in blocks && blocks[b].hash.Some?
  }

  /** ORDER BY block_number DESC over the given heights. */
  function NewestFirst(blocks: map<nat, BlockRow>, hs: set<nat>): seq<Stored>
    requires forall h | h in hs :: h in blocks && blocks[h].hash.Some?
  {
    if hs == {} then []
    else
      var m := MaxOf(hs);
      [Stored(m, blocks[m].hash.value)] + NewestFirst(blocks, hs - {m})
  }

  /** All rows with a hash, newest first. */
  function HashedRows(blocks: map<nat, BlockRow>): seq<Stored> {
    NewestFirst(blocks, HashedHeights(blocks))
  }

  /** `recent_block_hashes` */
  function RecentBlockHashes(blocks: map<nat, BlockRow>, limit: nat): seq<Stored> {
    var rows := HashedRows(blocks);
    if |rows| <= limit then rows else rows[..limit]
  }

  /** The listing is strictly descending and shows the stored hashes. */
  lemma {:induction false} NewestFirstIsSorted(blocks: map<nat, BlockRow>, hs: set<nat>)
    requires forall h | h in hs :: h in blocks && blocks[h].hash.Some?
    ensures var r := NewestFirst(blocks, hs);
            && Descending(r)
            && forall i | 0 <= i < |r| :: r[i].height in hs && blocks[r[i].height].hash == Some(r[i].hash)
    decreases hs
  {
    if hs != {} {
      NewestFirstIsSorted(blocks, hs - {MaxOf(hs)});
    }
  }

  /** Every chosen height is in the listing. */
  lemma {:induction false} NewestFirstHasAll(blocks: map<nat, BlockRow>, hs: set<nat>, h: nat) returns (i: nat)
    requires forall x | x in hs :: x in blocks && blocks[x].hash.Some?
    requires h in hs
    ensures i < |NewestFirst(blocks, hs)| && NewestFirst(blocks, hs)[i].height == h
    decreases hs
  {
    var m := MaxOf(hs);
    if h == m {
      i := 0;
    } else {
      i := NewestFirstHasAll(blocks, hs - {m}, h);
      i := i + 1;
    }
  }

  // ------------------------------------------------------------- the database object

  class Database {
    var blocks: map<nat, BlockRow>
    var txs: map<TxHash, TxRow>
    var swaps: map<LogKey, SwapRow>
    var liquidity: map<LogKey, LiquidityRow>
    var transfers: map<LogKey, TransferRow>
    var traces: seq<TraceRow>
    var failed: map<TxHash, string>
    var checkpoint: Option<nat>
    var alerts: AlertLedger.Ledger

    function Snapshot(): Store
      reads this
    {
      Store(blocks, txs, swaps, liquidity, transfers, traces, failed, checkpoint, alerts)
    }

    constructor (s: Store)
      ensures Snapshot() == s
    {
      blocks, txs, swaps, liquidity, transfers := s.blocks, s.txs, s.swaps, s.liquidity, s.transfers;
      traces, failed, checkpoint, alerts := s.traces, s.failed, s.checkpoint, s.alerts;
    }

    method UpdateCheckpoint(last: nat)
      modifies this`checkpoint
      ensures Snapshot() == old(Snapshot()).(checkpoint := Some(last))
    {
      checkpoint := Some(last);
    }

    /** INSERT ... ON CONFLICT (block_number) DO NOTHING */
    method InsertBlock(height: nat, row: BlockRow) returns (inserted: nat)
      modifies this`blocks
      ensures inserted == if height in old(blocks) then 0 else 1
      ensures Snapshot() == old(Snapshot()).(
                blocks := if height in old(blocks) then old(blocks) else old(blocks)[height := row])
    {
      if height in blocks {
        inserted := 0;
      } else {
        blocks := blocks[height := row];
        inserted := 1;
      }
    }

    method RollbackFromBlock(from: int) returns (deleted: nat)
      modifies this
      ensures Snapshot() == Rollback(old(Snapshot()), from)
      ensures deleted == |old(blocks)| - |blocks|
    {
      var s := Snapshot();
      var gone := Doomed(s, from);
      swaps := WithoutLogs(s.swaps, gone);
      liquidity := WithoutLogs(s.liquidity, gone);
      transfers := WithoutLogs(s.transfers, gone);
      traces := WithoutTraces(s.traces, gone);
      failed := s.failed - gone;
      txs := s.txs - gone;
      blocks := BlocksBelow(s.blocks, from);
      FewerBlocks(s.blocks, from);
      deleted := |s.blocks| - |blocks|;
      if s.checkpoint.Some? {
        checkpoint := Some(ResumePoint(from));
      }
    }
  }

  lemma FewerBlocks(m: map<nat, BlockRow>, from: int)
    ensures |BlocksBelow(m, from)| <= |m|
  {
    var kept := BlocksBelow(m, from);
    assert kept.Keys <= m.Keys;
    assert m.Keys == kept.Keys + (m.Keys - kept.Keys);
    assert |kept| == |kept.Keys| && |m| == |m.Keys|;
  }
}
