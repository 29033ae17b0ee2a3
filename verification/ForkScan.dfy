/** The reorg scan: `classify_fork`, `next_scan_depth` and the lazy, widening
    `detect_fork`. `local` lists stored (height, hash) rows, highest first. */
module ForkScan {
  import opened Options

  datatype Hash = Hash(digest: string)

  datatype Stored = Stored(height: nat, hash: Hash)

  /** What the node answers at a height; None is a missing block or a failed call.
      One scan asks for each height at most once, so a function describes every
      answer it can get even while the chain moves under it. */
  type Oracle = nat -> Option<Hash>

  datatype Scan = NoReorg | Fork(height: nat) | Inconclusive | NeedDeeper

  predicate Agrees(row: Stored, chain: Oracle) {
    chain(row.height) == Some(row.hash)
  }

  predicate Missing(row: Stored, chain: Oracle) {
    chain(row.height).None?
  }

  predicate Mismatched(row: Stored, chain: Oracle) {
    !Agrees(row, chain) && !Missing(row, chain)
  }

  ghost predicate Descending(local: seq<Stored>) {
    forall i, j | 0 <= i < j < |local| :: local[i].height > local[j].height
  }

  function Min(a: nat, b: nat): nat { if a <= b then a else b }

  // ------------------------------------------------- classification at one depth

  /** How many rows from the tip down are mismatched before the first that is not. */
  function MismatchRun(local: seq<Stored>, chain: Oracle): (k: nat)
    ensures k <= |local|
    ensures forall i | 0 <= i < k :: Mismatched(local[i], chain)
    ensures k < |local| ==> !Mismatched(local[k], chain)
  {
    if local == [] || !Mismatched(local[0], chain) then 0
    else 1 + MismatchRun(local[1..], chain)
  }

  /** The verdict on the first `depth` rows, in terms of where the run of mismatches ends. */
  function Verdict(local: seq<Stored>, chain: Oracle, depth: nat): Scan {
    var n := Min(depth, |local|);
    var k := MismatchRun(local[..n], chain);
    if n == 0 then NoReorg
    else if k < n && Missing(local[k], chain) then Inconclusive
    else if k == 0 then NoReorg
    else if k == n < |local| then NeedDeeper
    else Fork(local[k - 1].height)
  }

  /** Any index that ends a run of mismatches is the end of the run. */
  lemma RunEndsAt(local: seq<Stored>, chain: Oracle, k: nat)
    requires k <= |local|
    requires forall i | 0 <= i < k :: Mismatched(local[i], chain)
    requires k < |local| ==> !Mismatched(local[k], chain)
    ensures MismatchRun(local, chain) == k
  {
    var m := MismatchRun(local, chain);
  }

  method ClassifyFork(local: seq<Stored>, chain: Oracle, depth: nat) returns (r: Scan)
    ensures r == Verdict(local, chain, depth)
  {
    var n := Min(depth, |local|);
    if n == 0 {
      return NoReorg;
    }
    var lastMismatch: Option<nat> := None;
    var i := 0;
    while i < n
      invariant 0 <= i <= n
      invariant forall j | 0 <= j < i :: Mismatched(local[j], chain)
      invariant lastMismatch == if i == 0 then None else Some(local[i - 1].height)
    {
      match chain(local[i].height) {
        case None =>
          RunEndsAt(local[..n], chain, i);
          return Inconclusive;
        case Some(hash) =>
          if hash == local[i].hash {
            RunEndsAt(local[..n], chain, i);
            return if lastMismatch.Some? then Fork(lastMismatch.value) else NoReorg;
          }
          lastMismatch := Some(local[i].height);
      }
      i := i + 1;
    }
    RunEndsAt(local[..n], chain, n);
    if n < |local| {
      r := NeedDeeper;
    } else {
      r := if lastMismatch.Some? then Fork(lastMismatch.value) else NoReorg;
    }
  }

  /** The verdict only depends on the answers for the rows it looks at. */
  lemma VerdictDependsOnPrefix(local: seq<Stored>, a: Oracle, b: Oracle, depth: nat)
    requires forall i | 0 <= i < Min(depth, |local|) :: a(local[i].height) == b(local[i].height)
    ensures Verdict(local, a, depth) == Verdict(local, b, depth)
  {
    var n := Min(depth, |local|);
    var k := MismatchRun(local[..n], a);
    assert forall i | 0 <= i < k :: Mismatched(local[..n][i], b);
    RunEndsAt(local[..n], b, k);
  }

  // -------------------------------------------------------------- widening

  function NextScanDepth(current: nat, max: nat): (next: nat)
    ensures current < max ==> current < next <= max
    ensures current >= max ==> next == max
    ensures 1 <= current && 4 * current <= max ==> next == 4 * current
  {
    if current >= max then max
    else if current * 4 < current + 1 then current + 1
    else if current * 4 > max then max
    else current * 4
  }

  /** The depth at which the widening scan that reached `depth` stops: the first that
      covers row `k`, or all rows. */
  function Window(depth: nat, k: nat, len: nat): nat
    requires 1 <= depth <= len
    decreases len - depth
  {
    if k < depth || depth == len then depth else Window(NextScanDepth(depth, len), k, len)
  }

  lemma {:induction false} WindowCovers(depth: nat, k: nat, len: nat)
    requires 1 <= depth <= len && k <= len
    ensures depth <= Window(depth, k, len) <= len
    ensures k < Window(depth, k, len) || Window(depth, k, len) == len
    ensures depth <= k ==> Window(depth, k, len) <= 4 * k
    decreases len - depth
  {
    if !(k < depth || depth == len) {
      WindowCovers(NextScanDepth(depth, len), k, len);
    }
  }

  /** The rows a scan needs answers for, and whether it gets them all. */
  function ScanWindow(local: seq<Stored>, chain: Oracle): (w: nat)
    requires local != []
  {
    Window(1, MismatchRun(local, chain), |local|)
  }

  /** All rows before `w` have an answer. */
  ghost predicate AnsweredUpTo(local: seq<Stored>, chain: Oracle, w: nat)
    requires w <= |local|
  {
    forall i | 0 <= i < w :: !Missing(local[i], chain)
  }

  /** Number of leading rows with an answer. */
  function AnsweredRun(local: seq<Stored>, chain: Oracle): (k: nat)
    ensures k <= |local|
    ensures forall i | 0 <= i < k :: !Missing(local[i], chain)
    ensures k < |local| ==> Missing(local[k], chain)
  {
    if local == [] || Missing(local[0], chain) then 0 else 1 + AnsweredRun(local[1..], chain)
  }

  /** What the scan reports: the lowest mismatched row above the nearest agreeing one,
      provided its whole window was answered. */
  function Detect(local: seq<Stored>, chain: Oracle): Option<nat> {
    if local == [] then None
    else
      var k := MismatchRun(local, chain);
      WindowCovers(1, k, |local|);
      if k >= 1 && AnsweredRun(local, chain) >= ScanWindow(local, chain)
      then Some(local[k - 1].height)
      else None
  }

  /** Number of heights the scan asks the node about. */
  function Lookups(local: seq<Stored>, chain: Oracle): nat {
    if local == [] then 0
    else
      var a, w := AnsweredRun(local, chain), ScanWindow(local, chain);
      if a >= w then w else a + 1
  }

  function FromMap(known: map<nat, Hash>): Oracle {
    h => if h in known then Some(known[h]) else None
  }

  /** The answers cached so far: those of the first `lookups` rows. */
  ghost predicate Cached(local: seq<Stored>, rpc: Oracle, chain: map<nat, Hash>, lookups: nat) {
    && lookups <= AnsweredRun(local, rpc)
    && (forall j | 0 <= j < lookups ::
          local[j].height in chain && rpc(local[j].height) == Some(chain[local[j].height]))
    && (forall h | h in chain :: lookups > 0 && h >= local[lookups - 1].height)
  }

  /** Lazy fetch of the rows not asked about yet; stops at the first missing answer. */
  method FetchUpTo(local: seq<Stored>, rpc: Oracle, depth: nat, known: map<nat, Hash>, asked: nat)
    returns (chain: map<nat, Hash>, lookups: nat, complete: bool)
    requires Descending(local) && asked <= depth <= |local|
    requires Cached(local, rpc, known, asked)
    ensures complete <==> AnsweredRun(local, rpc) >= depth
    ensures complete ==> lookups == depth && Cached(local, rpc, chain, depth)
    ensures !complete ==> lookups == AnsweredRun(local, rpc) + 1
  {
    chain, lookups := known, asked;
    var i := 0;
    while i < depth
      invariant 0 <= i <= depth && asked <= lookups <= depth && i <= lookups
      invariant Cached(local, rpc, chain, lookups)
    {
      var h := local[i].height;
      if h !in chain {
        var fetched := rpc(h);
        lookups := lookups + 1;
        if fetched.None? {
          return chain, lookups, false;
        }
        chain := chain[h := fetched.value];
      }
      i := i + 1;
    }
    complete := true;
  }

  method DetectFork(local: seq<Stored>, rpc: Oracle) returns (fork: Option<nat>, lookups: nat)
    requires Descending(local)
    ensures fork == Detect(local, rpc)
    ensures lookups == Lookups(local, rpc)
  {
    lookups := 0;
    if |local| == 0 {
      return None, 0;
    }
    var len := |local|;
    ghost var k := MismatchRun(local, rpc);
    var chain: map<nat, Hash> := map[];
    var depth := 1;
    while true
      invariant 1 <= depth <= len && lookups <= depth
      invariant depth > 1 ==> lookups <= k
      invariant ScanWindow(local, rpc) == Window(depth, k, len)
      invariant Cached(local, rpc, chain, lookups)
      decreases len - depth
    {
      WindowCovers(depth, k, len);
      var complete;
      chain, lookups, complete := FetchUpTo(local, rpc, depth, chain, lookups);
      if !complete {
        return None, lookups;
      }
      VerdictDependsOnPrefix(local, FromMap(chain), rpc, depth);
      RunOfPrefix(local, rpc, depth);
      var verdict := ClassifyFork(local, FromMap(chain), depth);
      match verdict {
        case NoReorg => return None, lookups;
        case Inconclusive => return None, lookups;
        case Fork(f) => return Some(f), lookups;
        case NeedDeeper =>
          var next := NextScanDepth(depth, len);
          if next == depth {
            assert false;  // the safety net is never reached
          }
          depth := next;
      }
    }
  }

  /** A run of mismatches that ends inside a prefix ends there in the whole list too. */
  lemma RunOfPrefix(local: seq<Stored>, chain: Oracle, n: nat)
    requires n <= |local|
    ensures MismatchRun(local[..n], chain) == Min(n, MismatchRun(local, chain))
  {
    RunEndsAt(local[..n], chain, Min(n, MismatchRun(local, chain)));
  }

  // ---------------------------------------------------------------- what it means

  /** With every hash available the widening scan answers what one full-depth
      classification answers. */
  lemma ScanEqualsFullClassification(local: seq<Stored>, chain: Oracle)
    requires AnsweredUpTo(local, chain, |local|)
    ensures Detect(local, chain) ==
            match Verdict(local, chain, |local|)
            case Fork(f) => Some(f)
            case _ => None
  {
    assert local[..|local|] == local;
    if local != [] {
      WindowCovers(1, MismatchRun(local, chain), |local|);
    }
  }

  /** A fork is reported at the k-th row exactly when the rows from the tip down to it
      are mismatched, the next row agrees (or there is none), and the whole window that
      the scan widened to was answered. */
  lemma ForkReportedExactlyWhen(local: seq<Stored>, chain: Oracle, k: nat)
    requires Descending(local) && 1 <= k <= |local|
    ensures Detect(local, chain) == Some(local[k - 1].height) <==>
            && (forall i | 0 <= i < k :: Mismatched(local[i], chain))
            && (k < |local| ==> Agrees(local[k], chain))
            && AnsweredRun(local, chain) >= Window(1, k, |local|)
  {
    var m := MismatchRun(local, chain);
    WindowCovers(1, m, |local|);
    if && (forall i | 0 <= i < k :: Mismatched(local[i], chain))
       && (k < |local| ==> Agrees(local[k], chain)) {
      RunEndsAt(local, chain, k);
    }
    if Detect(local, chain) == Some(local[k - 1].height) {
      assert m == k;
      assert m < |local| ==> !Missing(local[m], chain);
    }
  }

  /** Safety rule: once a hash that the scan needs is missing, no fork is reported. */
  lemma MissingHashMeansNoFork(local: seq<Stored>, chain: Oracle, i: nat)
    requires i < |local| && Missing(local[i], chain)
    requires i <= MismatchRun(local, chain) || i < ScanWindow(local, chain)
    ensures Detect(local, chain) == None
  {
    WindowCovers(1, MismatchRun(local, chain), |local|);
  }

  /** Cost: one lookup when the tip agrees; at most min(len, 4k) when the nearest row
      that is not mismatched lies k >= 1 rows down. */
  lemma LookupCost(local: seq<Stored>, chain: Oracle)
    requires local != []
    ensures MismatchRun(local, chain) == 0 ==> Lookups(local, chain) == 1
    ensures var k := MismatchRun(local, chain);
            k >= 1 ==> Lookups(local, chain) <= Min(|local|, 4 * k)
  {
    WindowCovers(1, MismatchRun(local, chain), |local|);
  }
}
