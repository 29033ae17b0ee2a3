/** The pure decisions of the follow loop, and the resume point of a fixed-range run.
    Heights are u64 values; the arithmetic saturates as in the source. */
module FollowDecisions {
  import opened Options

  const U64_MAX: nat := 0xFFFF_FFFF_FFFF_FFFF
  const FOLLOW_CYCLE_BLOCK_CAP: nat := 500

  /** A chunk size of zero is rejected by the range iterator. */
  type ChunkSize = n: nat | n > 0 witness 1

  type u64 = n: int | 0 <= n <= U64_MAX

  function SaturatingAdd(a: u64, b: u64): u64 {
    if a + b > U64_MAX then U64_MAX else a + b
  }

  function SaturatingSub(a: u64, b: u64): u64 {
    if a < b then 0 else a - b
  }

  function NextTarget(head: u64, confirmations: u64, checkpoint: Option<int>): Option<(u64, u64)>
    requires checkpoint.Some? ==> checkpoint.value <= U64_MAX
  {
    var safe := SaturatingSub(head, confirmations);
    var resume := if checkpoint.Some?
                  then SaturatingAdd(if checkpoint.value < 0 then 0 else checkpoint.value, 1)
                  else safe;
    if resume > safe then None else Some((resume, safe))
  }

  function CapRangeTo(from: u64, to: u64, cap: u64): (u64, u64) {
    if cap == 0 || to < from then (from, to)
    else if SaturatingAdd(SaturatingSub(to, from), 1) <= cap then (from, to)
    else (from, SaturatingSub(SaturatingAdd(from, cap), 1))
  }

  /** The cap cuts a range to its first `cap` heights, and only when it is longer. */
  lemma CapCutsTail(from: u64, to: u64, cap: u64)
    requires from <= to
    ensures var (a, b) := CapRangeTo(from, to, cap);
            && a == from <= b <= to
            && (cap == 0 ==> b == to)
            && (b < to ==> b - a + 1 == cap)
  {
  }

  /** A positive cap bounds the range if and only if the true width fits 64 bits or the cap
      is not the largest: the saturating width of all 2^64 heights passes that one. */
  lemma CapHoldsIff(from: u64, to: u64, cap: u64)
    requires from <= to && cap > 0
    ensures var (a, b) := CapRangeTo(from, to, cap);
            b - a + 1 <= cap <==> to - from + 1 <= U64_MAX || cap < U64_MAX
  {
  }

  /** Both decisions together: the range starts right after the checkpoint, never passes
      head - confirmations, holds at most `cap` heights, and is the whole distance whenever
      that fits. There is a range exactly when the checkpoint is below the confirmed tip. */
  lemma CycleRange(head: u64, confirmations: u64, checkpoint: nat, cap: u64)
    requires checkpoint < U64_MAX && cap > 0
    ensures var safe := SaturatingSub(head, confirmations);
            var target := NextTarget(head, confirmations, Some(checkpoint));
            && (target.Some? <==> checkpoint < safe)
            && (target.Some? ==>
                  var (from, to) := CapRangeTo(target.value.0, target.value.1, cap);
                  && from == checkpoint + 1 && from <= to <= safe
                  && to - checkpoint == if safe - checkpoint <= cap then safe - checkpoint else cap)
  {
  }

  /** Without a checkpoint the loop starts at the confirmed tip alone: no backfill. */
  lemma FirstRangeIsTip(head: u64, confirmations: u64, cap: u64)
    requires cap > 0
    ensures var safe := SaturatingSub(head, confirmations);
            && NextTarget(head, confirmations, None) == Some((safe, safe))
            && CapRangeTo(safe, safe, cap) == (safe, safe)
  {
  }

  /** A negative checkpoint counts as zero. */
  lemma NegativeCheckpointIsZero(head: u64, confirmations: u64, checkpoint: int)
    requires checkpoint < 0
    ensures NextTarget(head, confirmations, Some(checkpoint)) == NextTarget(head, confirmations, Some(0))
  {
  }

  /** Start of a fixed-range run: after the checkpoint if that lies in or beyond the range's
      start, else where the range starts. None means nothing is left to do. */
  function ResumeRange(from: nat, to: Option<nat>, checkpoint: Option<nat>): Option<(nat, nat)> {
    var first := if checkpoint.Some? && checkpoint.value >= from then checkpoint.value + 1 else from;
    var last := if to.Some? then to.value else first;
    if first > last then None else Some((first, last))
  }

  /** A height of the requested range that the checkpoint does not cover. */
  predicate Outstanding(from: nat, to: nat, checkpoint: Option<nat>, h: nat) {
    from <= h <= to && (checkpoint.None? || h > checkpoint.value)
  }

  /** A run gets exactly the outstanding heights, and none exactly when there are none. */
  lemma ResumeIsExact(from: nat, to: nat, checkpoint: Option<nat>)
    ensures var r := ResumeRange(from, Some(to), checkpoint);
            && (r.None? <==> forall h: nat :: !Outstanding(from, to, checkpoint, h))
            && (r.Some? ==> forall h: nat :: Outstanding(from, to, checkpoint, h) <==> r.value.0 <= h <= r.value.1)
  {
    var r := ResumeRange(from, Some(to), checkpoint);
    assert r.Some? ==> Outstanding(from, to, checkpoint, r.value.1);
  }

  /** Without an end the run is one height: the first that is not covered. */
  lemma ResumeWithoutEnd(from: nat, checkpoint: Option<nat>)
    ensures var r := ResumeRange(from, None, checkpoint);
            && r.Some? && r.value.0 == r.value.1
            && Outstanding(from, r.value.0, checkpoint, r.value.0)
            && forall h: nat | h < r.value.0 :: !Outstanding(from, r.value.0, checkpoint, h)
  {
  }
}
