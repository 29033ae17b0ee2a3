/** What the node answers for one height, as rows for the seven statements of `process_block`,
    and which of those statements fail: revert data that panics the decoder, and rows that the
    schema refuses. A refused row fails its whole statement, whether or not the key is new. */
module BlockContent {
  import opened Options
  import opened Tables
  import opened CallTrace
  import RevertReason

  const STAGES: nat := 7   // block, transaction, swap, liquidity, transfer, trace, failed
  const TRACES: nat := 5

  datatype Content = Content(
    row: BlockRow,
    gasUsed: int,            // the block's, as i64
    txs: map<TxHash, TxRow>,
    swaps: map<LogKey, SwapRow>,
    liquidity: map<LogKey, LiquidityRow>,
    transfers: map<LogKey, TransferRow>,
    traces: seq<TraceRow>)

  type Chain = nat -> Content

  /** A transaction belongs to one block, and its events and traces to it. */
  ghost predicate WellFormed(chain: Chain) {
    && (forall m, n, t | t in chain(m).txs && t in chain(n).txs :: m == n)
    && (forall n, t | t in chain(n).txs :: chain(n).txs[t].block == n)
    && (forall n, k | k in chain(n).swaps :: k.tx in chain(n).txs)
    && (forall n, k | k in chain(n).liquidity :: k.tx in chain(n).txs)
    && (forall n, k | k in chain(n).transfers :: k.tx in chain(n).txs)
    && (forall n, i | 0 <= i < |chain(n).traces| :: chain(n).traces[i].tx in chain(n).txs)
  }

  // ------------------------------------------------------------ failed transactions

  /** The root frame of a traced transaction. */
  function RootFrame(c: Content, tx: TxHash): FlatInfo
    requires OfTx(c.traces, tx) != []
  {
    OfTx(c.traces, tx)[0].frame.info
  }

  function Frames(rows: seq<TraceRow>): seq<CallTrace.FlatFrame> {
    seq(|rows|, i requires 0 <= i < |rows| => rows[i].frame)
  }

  /** The category column, for an output that does not panic. */
  function CategoryColumn(output: Option<string>): string {
    match RevertReason.RootCategory(output)
    case Category(name) => RevertReason.StoredCategory(name)
    case Panics => ""
  }

  /** The failed rows of a height: one for each traced transaction. */
  function FailedRows(c: Content): map<TxHash, string> {
    map tx | tx in c.txs && OfTx(c.traces, tx) != [] :: CategoryColumn(RootFrame(c, tx).output)
  }

  /** Whatever the call tree, its root call is the root frame, and the failed row is made from
      that call's output. */
  lemma FailedRowOfTree(c: Content, tx: TxHash, t: Tree<FlatInfo>)
    requires tx in c.txs && Frames(OfTx(c.traces, tx)) == PreOrder(t, 0)
    ensures OfTx(c.traces, tx) != [] && RootFrame(c, tx) == t.info
    ensures tx in FailedRows(c) && FailedRows(c)[tx] == CategoryColumn(t.info.output)
  {
    var rows := OfTx(c.traces, tx);
    assert |rows| == |PreOrder(t, 0)| >= 1;
    assert Frames(rows)[0] == PreOrder(t, 0)[0] == FlatFrame(0, t.info);
  }

  /** A failed row exists exactly for a traced transaction. */
  lemma FailedRowsAreTraced(c: Content, tx: TxHash)
    ensures tx in FailedRows(c) <==> tx in c.txs && exists i :: 0 <= i < |c.traces| && c.traces[i].tx == tx
  {
    OfTxEmptyIff(c.traces, tx);
  }

  lemma {:induction false} OfTxEmptyIff(rows: seq<TraceRow>, tx: TxHash)
    ensures OfTx(rows, tx) != [] <==> exists i :: 0 <= i < |rows| && rows[i].tx == tx
  {
    if rows != [] {
      OfTxEmptyIff(rows[1..], tx);
      assert forall i | 0 < i < |rows| :: rows[i] == rows[1..][i - 1];
    }
  }

  /** Some root output makes the task of this height panic, between its event inserts and its
      trace insert. */
  predicate Poisoned(c: Content) {
    exists tx :: tx in c.txs && OfTx(c.traces, tx) != [] && RevertReason.PanicText(RootFrame(c, tx).output)
  }

  // --------------------------------------------------------------------- the schema

  const NUMERIC_30: int := 1_000_000_000_000_000_000_000_000_000_000
  const NUMERIC_38: int := 100_000_000_000_000_000_000_000_000_000_000_000_000

  /** A NUMERIC(38,0) column. */
  predicate Fits38(x: int) {
    -NUMERIC_38 < x < NUMERIC_38
  }

  /** A TEXT column holds every character but zero. */
  predicate FitsText(s: string) {
    0 as char !in s
  }

  predicate FitsOptionalText(s: Option<string>) {
    s.Some? ==> FitsText(s.value)
  }

  predicate TxFits(r: TxRow) {
    r.gasUsed >= 0 && r.gasPrice < NUMERIC_30 && Fits38(r.value)
  }

  function Abs(x: int): int { if x < 0 then -x else x }

  /** `decode_swap`: what went in and what came out. */
  function AmountIn(r: SwapRow): int { if r.amount0 >= 0 then r.amount0 else r.amount1 }
  function AmountOut(r: SwapRow): int { if r.amount0 >= 0 then Abs(r.amount1) else Abs(r.amount0) }

  /** In a swap one side is paid in and the other paid out: both shown as positive amounts that
      account for the two signed ones. */
  lemma SwapDirection(r: SwapRow)
    requires (r.amount0 > 0 && r.amount1 < 0) || (r.amount0 < 0 && r.amount1 > 0)
    ensures AmountIn(r) > 0 && AmountOut(r) > 0 && AmountIn(r) - AmountOut(r) == r.amount0 + r.amount1
  {
  }

  predicate SwapFits(r: SwapRow) {
    Fits38(r.amount0) && Fits38(r.amount1) && Fits38(AmountIn(r)) && Fits38(AmountOut(r)) && Fits38(r.liquidity)
  }

  predicate LiquidityFits(r: LiquidityRow) {
    Fits38(r.amount0) && Fits38(r.amount1) && Fits38(r.liquidity) && r.tickLower < r.tickUpper
  }

  predicate TransferFits(r: TransferRow) {
    Fits38(r.amount)
  }

  predicate TraceFits(i: FlatInfo) {
    && Fits38(i.value)
    && |i.callType| <= 20 && |i.from| <= 42 && (i.to.Some? ==> |i.to.value| <= 42)
    && FitsText(i.callType) && FitsText(i.from) && FitsOptionalText(i.to)
    && FitsOptionalText(i.input) && FitsOptionalText(i.output) && FitsOptionalText(i.error)
  }

  /** A failed row takes its gas and its reason from the root frame. */
  predicate FailedFits(root: FlatInfo) {
    root.gasUsed >= 0 && !RevertReason.ZeroInReason(root.output)
  }

  /** The schema refuses a row of this statement. */
  predicate Refused(c: Content, stage: nat) {
    || (stage == 0 && c.gasUsed < 0)
    || (stage == 1 && exists t :: t in c.txs && !TxFits(c.txs[t]))
    || (stage == 2 && exists k :: k in c.swaps && !SwapFits(c.swaps[k]))
    || (stage == 3 && exists k :: k in c.liquidity && !LiquidityFits(c.liquidity[k]))
    || (stage == 4 && exists k :: k in c.transfers && !TransferFits(c.transfers[k]))
    || (stage == 5 && exists i :: 0 <= i < |c.traces| && !TraceFits(c.traces[i].frame.info))
    || (stage == 6 && exists t :: t in c.txs && OfTx(c.traces, t) != [] && !FailedFits(RootFrame(c, t)))
  }

  /** The task fails instead of executing this statement. */
  predicate Blocked(c: Content, stage: nat) {
    (stage == TRACES && Poisoned(c)) || Refused(c, stage)
  }

  /** Some statement of the height fails. */
  predicate Stopped(c: Content) {
    exists k :: 0 <= k < STAGES && Blocked(c, k)
  }

  // ---------------------------------------------------------------------- witnesses

  /** A height's own transactions and nothing else. */
  ghost predicate OwnTransactions(c: Content, n: nat) {
    && (forall t | t in c.txs :: c.txs[t].block == n)
    && (forall k | k in c.swaps :: k.tx in c.txs)
    && (forall k | k in c.liquidity :: k.tx in c.txs)
    && (forall k | k in c.transfers :: k.tx in c.txs)
    && (forall i | 0 <= i < |c.traces| :: c.traces[i].tx in c.txs)
  }

  function Empty(): Content {
    Content(BlockRow(None, None), 0, map[], map[], map[], map[], [])
  }

  /** A chain with content at one height only. */
  function Alone(n: nat, c: Content): Chain {
    (m: nat) => if m == n then c else Empty()
  }

  lemma AloneAt(n: nat, c: Content, m: nat)
    ensures Alone(n, c)(m) == if m == n then c else Empty()
  {
  }

  lemma AloneIsWellFormed(n: nat, c: Content)
    requires OwnTransactions(c, n)
    ensures WellFormed(Alone(n, c))
  {
    var chain := Alone(n, c);
    forall m, t | t in chain(m).txs ensures m == n && chain(m).txs[t].block == m { AloneAt(n, c, m); }
    forall m, k | k in chain(m).swaps ensures k.tx in chain(m).txs { AloneAt(n, c, m); }
    forall m, k | k in chain(m).liquidity ensures k.tx in chain(m).txs { AloneAt(n, c, m); }
    forall m, k | k in chain(m).transfers ensures k.tx in chain(m).txs { AloneAt(n, c, m); }
    forall m, i | 0 <= i < |chain(m).traces| ensures chain(m).traces[i].tx in chain(m).txs { AloneAt(n, c, m); }
  }

  /** A block with one transaction. */
  function OneTx(n: nat, tx: TxHash): Content {
    Empty().(txs := map[tx := TxRow(n, 0, 0, 0, "")])
  }

  function WithTx(n: nat, tx: TxHash, gasUsed: int, gasPrice: nat, value: nat): Content {
    Empty().(txs := map[tx := TxRow(n, gasUsed, gasPrice, value, "")])
  }

  function WithSwap(n: nat, tx: TxHash, r: SwapRow): Content {
    OneTx(n, tx).(swaps := map[LogKey(tx, 0) := r])
  }

  function WithLiquidity(n: nat, tx: TxHash, r: LiquidityRow): Content {
    OneTx(n, tx).(liquidity := map[LogKey(tx, 0) := r])
  }

  function WithTransfer(n: nat, tx: TxHash, amount: nat): Content {
    OneTx(n, tx).(transfers := map[LogKey(tx, 0) := TransferRow(amount, "")])
  }

  /** A failed transaction with this one frame. */
  function WithFrame(n: nat, tx: TxHash, info: FlatInfo): Content {
    OneTx(n, tx).(traces := [TraceRow(tx, FlatFrame(0, info))])
  }

  /** A failed transaction whose one frame has this value and output. */
  function WithTrace(n: nat, tx: TxHash, value: nat, output: Option<string>): Content {
    WithFrame(n, tx, FlatInfo("CALL", "", None, value, 0, None, output, None))
  }

  /** Which statement stops a block with one row of one kind, and exactly when. */
  ghost predicate StopsAt(c: Content, stage: nat, bad: bool) {
    (Stopped(c) <==> bad) && (Stopped(c) ==> Blocked(c, stage))
  }

  lemma OnlyAt(c: Content, stage: nat, bad: bool)
    requires stage < STAGES && (Blocked(c, stage) <==> bad)
    requires forall k | 0 <= k < STAGES && k != stage :: !Blocked(c, k)
    ensures StopsAt(c, stage, bad)
  {
  }

  /** A statement whose table is empty, or whose rows all fit, is not blocked. */
  lemma QuietStage(c: Content, k: nat)
    requires k < STAGES && c.traces == []
    requires k == 0 ==> c.gasUsed >= 0
    requires k == 1 ==> forall t | t in c.txs :: TxFits(c.txs[t])
    requires k == 2 ==> c.swaps == map[]
    requires k == 3 ==> c.liquidity == map[]
    requires k == 4 ==> c.transfers == map[]
    ensures !Blocked(c, k)
  {
  }

  function TenToThe(n: nat): nat {
    if n == 0 then 1 else 10 * TenToThe(n - 1)
  }

  lemma Powers()
    ensures NUMERIC_30 == TenToThe(30) && NUMERIC_38 == TenToThe(38)
  {
    assert TenToThe(10) == 10_000_000_000;
    assert TenToThe(20) == 100_000_000_000_000_000_000;
  }

  /** The block's gas as a signed number. */
  lemma BlockGasStopsIff(gasUsed: int)
    ensures StopsAt(Empty().(gasUsed := gasUsed), 0, gasUsed < 0)
  {
    var c := Empty().(gasUsed := gasUsed);
    forall k | 0 < k < STAGES ensures !Blocked(c, k) { QuietStage(c, k); }
    OnlyAt(c, 0, gasUsed < 0);
  }

  /** A transaction: negative gas, a gas price of 10^30 or a value of 10^38. */
  lemma TransactionStopsIff(n: nat, tx: TxHash, gasUsed: int, gasPrice: nat, value: nat)
    ensures OwnTransactions(WithTx(n, tx, gasUsed, gasPrice, value), n)
    ensures StopsAt(WithTx(n, tx, gasUsed, gasPrice, value), 1,
                    gasUsed < 0 || gasPrice >= TenToThe(30) || value >= TenToThe(38))
  {
    var c := WithTx(n, tx, gasUsed, gasPrice, value);
    forall k | 0 <= k < STAGES && k != 1 ensures !Blocked(c, k) { QuietStage(c, k); }
    assert tx in c.txs && c.txs[tx] == TxRow(n, gasUsed, gasPrice, value, "");
    assert Blocked(c, 1) <==> !TxFits(c.txs[tx]);
    Powers();
    OnlyAt(c, 1, gasUsed < 0 || gasPrice >= TenToThe(30) || value >= TenToThe(38));
  }

  /** A swap: an amount of 10^38 or more in either direction, or such a liquidity. */
  lemma SwapStopsIff(n: nat, tx: TxHash, r: SwapRow)
    ensures OwnTransactions(WithSwap(n, tx, r), n)
    ensures StopsAt(WithSwap(n, tx, r), 2,
                    Abs(r.amount0) >= TenToThe(38) || Abs(r.amount1) >= TenToThe(38) || r.liquidity >= TenToThe(38))
  {
    var c := WithSwap(n, tx, r);
    forall k | 0 <= k < STAGES && k != 2 ensures !Blocked(c, k) { QuietStage(c, k); }
    assert LogKey(tx, 0) in c.swaps && c.swaps[LogKey(tx, 0)] == r;
    assert Blocked(c, 2) <==> !SwapFits(r);
    SwapFitsIff(r);
    OnlyAt(c, 2, Abs(r.amount0) >= TenToThe(38) || Abs(r.amount1) >= TenToThe(38) || r.liquidity >= TenToThe(38));
  }

  lemma SwapFitsIff(r: SwapRow)
    ensures !SwapFits(r) <==>
            Abs(r.amount0) >= TenToThe(38) || Abs(r.amount1) >= TenToThe(38) || r.liquidity >= TenToThe(38)
  {
    Powers();
  }

  /** A liquidity event: such an amount or liquidity, or an empty tick range. */
  lemma LiquidityStopsIff(n: nat, tx: TxHash, r: LiquidityRow)
    ensures OwnTransactions(WithLiquidity(n, tx, r), n)
    ensures StopsAt(WithLiquidity(n, tx, r), 3,
                    || r.amount0 >= TenToThe(38) || r.amount1 >= TenToThe(38) || r.liquidity >= TenToThe(38)
                    || r.tickLower >= r.tickUpper)
  {
    var c := WithLiquidity(n, tx, r);
    forall k | 0 <= k < STAGES && k != 3 ensures !Blocked(c, k) { QuietStage(c, k); }
    assert LogKey(tx, 0) in c.liquidity && c.liquidity[LogKey(tx, 0)] == r;
    assert Blocked(c, 3) <==> !LiquidityFits(r);
    Powers();
    OnlyAt(c, 3, || r.amount0 >= TenToThe(38) || r.amount1 >= TenToThe(38) || r.liquidity >= TenToThe(38)
                 || r.tickLower >= r.tickUpper);
  }

  /** A transfer: an amount of 10^38. */
  lemma TransferStopsIff(n: nat, tx: TxHash, amount: nat)
    ensures OwnTransactions(WithTransfer(n, tx, amount), n)
    ensures StopsAt(WithTransfer(n, tx, amount), 4, amount >= TenToThe(38))
  {
    var c := WithTransfer(n, tx, amount);
    forall k | 0 <= k < STAGES && k != 4 ensures !Blocked(c, k) { QuietStage(c, k); }
    assert LogKey(tx, 0) in c.transfers && c.transfers[LogKey(tx, 0)].amount == amount;
    assert Blocked(c, 4) <==> !Fits38(amount);
    Powers();
    OnlyAt(c, 4, amount >= TenToThe(38));
  }

  /** Some text of the frame has a zero character. */
  predicate HasZero(i: FlatInfo) {
    var z := 0 as char;
    || z in i.callType || z in i.from || (i.to.Some? && z in i.to.value)
    || (i.input.Some? && z in i.input.value) || (i.output.Some? && z in i.output.value)
    || (i.error.Some? && z in i.error.value)
  }

  /** A frame's value is 10^38, its type or an address is too long, or a text has a zero. */
  predicate TooLarge(i: FlatInfo) {
    || i.value >= TenToThe(38)
    || |i.callType| > 20 || |i.from| > 42 || (i.to.Some? && |i.to.value| > 42)
    || HasZero(i)
  }

  lemma TraceFitsIff(i: FlatInfo)
    ensures TraceFits(i) <==> !TooLarge(i)
  {
    Powers();
  }

  lemma OneFrame(n: nat, tx: TxHash, info: FlatInfo)
    ensures var c := WithFrame(n, tx, info);
            && OwnTransactions(c, n) && tx in c.txs && TxFits(c.txs[tx])
            && OfTx(c.traces, tx) == c.traces && RootFrame(c, tx) == info
            && |c.traces| == 1 && c.traces[0].frame.info == info
  {
    var c := WithFrame(n, tx, info);
    assert c.traces[1..] == [];
  }

  /** A frame stops its block at its trace row if its output panics the decoder or a column does
      not fit, and at its failed row if its gas is negative as a signed number or the text of its
      reason has a zero character. */
  lemma FrameStopsIff(n: nat, tx: TxHash, info: FlatInfo)
    ensures var c := WithFrame(n, tx, info);
            && OwnTransactions(c, n) && RootFrame(c, tx) == info
            && (Blocked(c, 5) <==> RevertReason.PanicText(info.output) || TooLarge(info))
            && (Blocked(c, 6) <==> info.gasUsed < 0 || RevertReason.ZeroInReason(info.output))
            && (forall k | 0 <= k < 5 :: !Blocked(c, k))
  {
    var c := WithFrame(n, tx, info);
    OneFrame(n, tx, info);
    TraceFitsIff(info);
    assert Refused(c, 5) <==> !TraceFits(info);
    assert Poisoned(c) <==> RevertReason.PanicText(info.output);
    assert Refused(c, 6) <==> !FailedFits(info);
    forall k | 0 <= k < 5 ensures !Blocked(c, k) {
      assert Blocked(c, k) <==> Blocked(c.(traces := []), k);
      QuietStage(c.(traces := []), k);
    }
  }

  /** The category column of an ASCII message: its classification, as far as the enum knows it. */
  lemma CategoryColumnOfText(text: string)
    requires (forall i | 0 <= i < |text| :: text[i] < 128 as char) && |text| < U64_LIMIT - 64
    ensures var bytes := RevertReason.EncodeError(RevertReason.AsciiBytes(text));
            CategoryColumn(Some("0x" + RevertReason.BytesToHex(bytes))) == RevertReason.StoredAs(text)
  {
    RevertReason.StoredAsClassified(text);
  }

  /** A revert message with a zero byte stops its block at the failed rows, after its traces
      were stored. */
  lemma ZeroByteStops(n: nat, tx: TxHash, message: RevertReason.Bytes)
    requires |message| < U64_LIMIT - 64 && 0 in message
    ensures var c := WithTrace(n, tx, 0, Some("0x" + RevertReason.BytesToHex(RevertReason.EncodeError(message))));
            OwnTransactions(c, n) && Blocked(c, 6) && forall k | 0 <= k < 6 :: !Blocked(c, k)
  {
    var output := "0x" + RevertReason.BytesToHex(RevertReason.EncodeError(message));
    RevertReason.ZeroOfError(message);
    EncodedErrorIsStored(message);
    OneFrameIsStored(n, tx, output);
    FrameStopsIff(n, tx, FlatInfo("CALL", "", None, 0, 0, None, Some(output), None));
  }

  lemma OneFrameIsStored(n: nat, tx: TxHash, output: string)
    requires FitsText(output) && !RevertReason.PanicText(Some(output))
    ensures var c := WithTrace(n, tx, 0, Some(output)); forall k | 0 <= k < 6 :: !Blocked(c, k)
  {
    Powers();
    FrameStopsIff(n, tx, FlatInfo("CALL", "", None, 0, 0, None, Some(output), None));
  }

  /** The output column takes any hex, and a canonical error never panics. */
  lemma EncodedErrorIsStored(message: RevertReason.Bytes)
    requires |message| < U64_LIMIT - 64
    ensures var output := "0x" + RevertReason.BytesToHex(RevertReason.EncodeError(message));
            FitsText(output) && !RevertReason.PanicText(Some(output))
  {
    var bytes := RevertReason.EncodeError(message);
    RevertReason.HexTextIsRead(bytes);
    RevertReason.ErrorRoundTrip(message);
    RevertReason.OverflowExactlyWhen(bytes);
    RevertReason.HexIsDump(bytes);
  }

  /** Sixty-eight bytes of revert data stop a block before its traces. */
  lemma PanicStops(n: nat, tx: TxHash)
    ensures var c := WithTrace(n, tx, 0, Some("0x" + RevertReason.BytesToHex(RevertReason.ShortestPanic())));
            OwnTransactions(c, n) && Blocked(c, TRACES)
  {
    var output := Some("0x" + RevertReason.BytesToHex(RevertReason.ShortestPanic()));
    RevertReason.ShortestPanicPanics();
    RevertReason.PanicsExactlyWhen(output);
    FrameStopsIff(n, tx, FlatInfo("CALL", "", None, 0, 0, None, output, None));
  }
}
