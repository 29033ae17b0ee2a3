/** Call traces: reading the `callTracer` JSON and flattening the call tree into
    (depth, frame) rows in pre-order. */
module CallTrace {
  import opened Options

  // ------------------------------------------------------------------ the trees

  /** A frame as parsed, without its nested calls. */
  datatype FrameInfo = FrameInfo(
    callType: string,
    from: string,
    to: Option<string>,
    value: Option<string>,     // hex text
    gasUsed: nat,              // u64
    input: Option<string>,
    output: Option<string>,
    error: Option<string>)

  datatype Tree<+T> = Node(info: T, calls: seq<Tree<T>>)

  type CallFrame = Tree<FrameInfo>

  /** The columns of one flattened frame. */
  datatype FlatInfo = FlatInfo(
    callType: string,
    from: string,
    to: Option<string>,
    value: nat,                // wei
    gasUsed: int,              // i64
    input: Option<string>,
    output: Option<string>,
    error: Option<string>)

  datatype FlatFrame = FlatFrame(depth: nat, info: FlatInfo)

  // ------------------------------------------------------- converting one frame

  const U64_LIMIT: nat := 0x1_0000_0000_0000_0000
  const U128_LIMIT: nat := 0x1_0000_0000_0000_0000_0000_0000_0000_0000

  function HexDigit(c: char): Option<nat> {
    if '0' <= c <= '9' then Some(c as nat - '0' as nat)
    else if 'a' <= c <= 'f' then Some(c as nat - 'a' as nat + 10)
    else if 'A' <= c <= 'F' then Some(c as nat - 'A' as nat + 10)
    else None
  }

  /** The value of a digit string in base 16, None if some character is no digit. */
  function HexValue(s: string): Option<nat> {
    if s == "" then Some(0)
    else
      var hi, lo := HexValue(s[..|s| - 1]), HexDigit(s[|s| - 1]);
      if hi.None? || lo.None? then None else Some(hi.value * 16 + lo.value)
  }

  /** `from_str_radix(s, 16)`: at least one digit, an optional leading plus, no overflow. */
  function FromStrRadix16(s: string, limit: nat): Option<nat> {
    var digits := if s != "" && s[0] == '+' then s[1..] else s;
    var v := HexValue(digits);
    if digits == "" || v.None? || v.value >= limit then None else v
  }

  function StripHexPrefix(s: string): string {
    if |s| >= 2 && s[..2] == "0x" then s[2..] else s
  }

  function ValueOr0(text: Option<string>, limit: nat): nat {
    match text
    case None => 0
    case Some(t) => var v := FromStrRadix16(StripHexPrefix(t), limit); if v.Some? then v.value else 0
  }

  /** The `as i64` cast of a u64. */
  function AsI64(n: nat): int {
    var m := n % U64_LIMIT;
    if m < U64_LIMIT / 2 then m else m - U64_LIMIT
  }

  function Flat(f: FrameInfo): FlatInfo {
    FlatInfo(f.callType, f.from, f.to, ValueOr0(f.value, U128_LIMIT), AsI64(f.gasUsed), f.input, f.output, f.error)
  }

  /** The call tree with every frame converted. */
  function FlatTree(t: CallFrame): Tree<FlatInfo> {
    Node(Flat(t.info), FlatForest(t.calls))
  }

  function FlatForest(ts: seq<CallFrame>): (r: seq<Tree<FlatInfo>>)
    ensures |r| == |ts|
  {
    if ts == [] then [] else [FlatTree(ts[0])] + FlatForest(ts[1..])
  }

  // -------------------------------------------------------------------- flattening

  function PreOrder(t: Tree<FlatInfo>, depth: nat): seq<FlatFrame> {
    [FlatFrame(depth, t.info)] + PreOrderForest(t.calls, depth + 1)
  }

  function PreOrderForest(ts: seq<Tree<FlatInfo>>, depth: nat): seq<FlatFrame> {
    if ts == [] then [] else PreOrder(ts[0], depth) + PreOrderForest(ts[1..], depth)
  }

  function Size<T>(t: Tree<T>): nat { 1 + SizeForest(t.calls) }

  function SizeForest<T>(ts: seq<Tree<T>>): nat {
    if ts == [] then 0 else Size(ts[0]) + SizeForest(ts[1..])
  }

  /** The vector that the recursive walk pushes into. */
  class FrameBuffer {
    var frames: seq<FlatFrame>

    constructor ()
      ensures frames == []
    {
      frames := [];
    }

    method Flatten(frame: CallFrame, depth: nat)
      modifies this
      ensures frames == old(frames) + PreOrder(FlatTree(frame), depth)
      decreases frame
    {
      frames := frames + [FlatFrame(depth, Flat(frame.info))];
      var i := 0;
      while i < |frame.calls|
        invariant 0 <= i <= |frame.calls|
        invariant frames + PreOrderForest(FlatForest(frame.calls[i..]), depth + 1)
                  == old(frames) + PreOrder(FlatTree(frame), depth)
      {
        ghost var rest := frame.calls[i..];
        assert rest[0] == frame.calls[i] && rest[1..] == frame.calls[i + 1..];
        assert FlatForest(rest) == [FlatTree(rest[0])] + FlatForest(rest[1..]);
        assert FlatForest(rest)[1..] == FlatForest(rest[1..]);
        Flatten(frame.calls[i], depth + 1);
        i := i + 1;
      }
      assert frame.calls[i..] == [];
    }
  }

  // ------------------------------------------------------- rebuilding the tree

  /** Reads as many sibling trees at `depth` as the list starts with; returns the rest. */
  function ParseForest(fs: seq<FlatFrame>, depth: nat): (r: (seq<Tree<FlatInfo>>, seq<FlatFrame>))
    ensures |r.1| <= |fs|
    decreases |fs|
  {
    if fs == [] || fs[0].depth != depth then ([], fs)
    else
      var (calls, afterCalls) := ParseForest(fs[1..], depth + 1);
      var (siblings, rest) := ParseForest(afterCalls, depth);
      ([Node(fs[0].info, calls)] + siblings, rest)
  }

  function Rebuild(fs: seq<FlatFrame>): Option<Tree<FlatInfo>> {
    var (forest, rest) := ParseForest(fs, 0);
    if |forest| == 1 && rest == [] then Some(forest[0]) else None
  }

  lemma {:induction false} ParseInvertsPreOrder(ts: seq<Tree<FlatInfo>>, depth: nat, rest: seq<FlatFrame>)
    requires rest == [] || rest[0].depth < depth
    ensures ParseForest(PreOrderForest(ts, depth) + rest, depth) == (ts, rest)
    decreases ts
  {
    if ts == [] {
      assert PreOrderForest(ts, depth) + rest == rest;
    } else {
      var t, others := ts[0], PreOrderForest(ts[1..], depth) + rest;
      var inner := PreOrderForest(t.calls, depth + 1) + others;
      assert PreOrderForest(ts, depth) + rest == [FlatFrame(depth, t.info)] + inner;
      assert ts[1..] != [] ==> others[0].depth == depth by {
        if ts[1..] != [] { assert others[0] == PreOrder(ts[1], depth)[0]; }
      }
      assert others == [] || others[0].depth < depth + 1;
      ParseInvertsPreOrder(t.calls, depth + 1, others);
      ParseInvertsPreOrder(ts[1..], depth, rest);
      var all := PreOrderForest(ts, depth) + rest;
      assert all[0] == FlatFrame(depth, t.info) && all[1..] == inner;
      assert Node(t.info, t.calls) == t && [t] + ts[1..] == ts;
    }
  }

  /** Flattening loses no structure: the rows determine the call tree. */
  lemma FlatteningIsInvertible(t: Tree<FlatInfo>)
    ensures Rebuild(PreOrder(t, 0)) == Some(t)
  {
    assert PreOrderForest([t], 0) == PreOrder(t, 0) by { assert [t][1..] == []; }
    assert PreOrderForest([t], 0) + [] == PreOrder(t, 0);
    ParseInvertsPreOrder([t], 0, []);
  }

  /** Two traces with the same rows are the same tree. */
  lemma FlatteningIsInjective(t: Tree<FlatInfo>, u: Tree<FlatInfo>)
    requires PreOrder(t, 0) == PreOrder(u, 0)
    ensures t == u
  {
    FlatteningIsInvertible(t);
    FlatteningIsInvertible(u);
  }

  // ------------------------------------------------------------ shape of the rows

  /** Depths of a pre-order list: it never falls below `base` and never climbs by more than one. */
  ghost predicate ClimbsByOne(fs: seq<FlatFrame>, base: nat) {
    && (forall i | 0 <= i < |fs| :: base <= fs[i].depth)
    && (forall i | 0 < i < |fs| :: fs[i].depth <= fs[i - 1].depth + 1)
  }

  lemma {:induction false} ForestShape(ts: seq<Tree<FlatInfo>>, depth: nat)
    ensures |PreOrderForest(ts, depth)| == SizeForest(ts)
    ensures ClimbsByOne(PreOrderForest(ts, depth), depth)
    ensures ts != [] ==> PreOrderForest(ts, depth) != [] && PreOrderForest(ts, depth)[0].depth == depth
    decreases ts
  {
    if ts != [] {
      var inner := PreOrderForest(ts[0].calls, depth + 1);
      ForestShape(ts[0].calls, depth + 1);
      ForestShape(ts[1..], depth);
      assert PreOrderForest(ts, depth) == [FlatFrame(depth, ts[0].info)] + inner + PreOrderForest(ts[1..], depth);
    }
  }

  /** The list has one row per call, starts at depth 0, and every later depth lies
      between 1 and the previous depth plus one. */
  lemma TraceShape(t: Tree<FlatInfo>)
    ensures var fs := PreOrder(t, 0);
            && |fs| == Size(t)
            && fs[0] == FlatFrame(0, t.info)
            && (forall i | 0 < i < |fs| :: 1 <= fs[i].depth <= fs[i - 1].depth + 1)
  {
    ForestShape(t.calls, 1);
    var fs, inner := PreOrder(t, 0), PreOrderForest(t.calls, 1);
    forall i | 0 < i < |fs| ensures 1 <= fs[i].depth <= fs[i - 1].depth + 1 {
      assert fs[i] == inner[i - 1];
      if i > 1 { assert fs[i - 1] == inner[i - 2]; }
    }
  }
}
