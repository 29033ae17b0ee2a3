/** Diagnosing a failed transaction from its stored rows: the first error frame, the
    bounded call tree and the root-frame lookup of `get_failed_tx`. */
module RootCause {
  import opened Options
  import opened CallTrace

  const MAX_CALL_TREE_FRAMES: nat := 2000

  // ---------------------------------------------------------- positions in the tree

  type Path = seq<nat>

  /** The frame reached by following child indices from the root. */
  function NodeAt(t: Tree<FlatInfo>, path: Path): Option<FlatInfo>
    decreases |path|
  {
    if path == [] then Some(t.info)
    else if path[0] < |t.calls| then NodeAt(t.calls[path[0]], path[1..])
    else None
  }

  /** The paths of a tree's frames in pre-order, relative to its root. */
  function Paths(t: Tree<FlatInfo>): seq<Path> {
    [[]] + PathsFrom(t.calls, 0)
  }

  function PathsFrom(ts: seq<Tree<FlatInfo>>, index: nat): seq<Path> {
    if ts == [] then [] else Under(index, Paths(ts[0])) + PathsFrom(ts[1..], index + 1)
  }

  function Under(index: nat, ps: seq<Path>): seq<Path> {
    seq(|ps|, i requires 0 <= i < |ps| => [index] + ps[i])
  }

  function Parent(p: Path): Path
    requires p != []
  {
    p[..|p| - 1]
  }

  /** Every path but the root's has its parent earlier in the list. */
  ghost predicate ParentFirst(ps: seq<Path>) {
    forall i | 0 <= i < |ps| && ps[i] != [] :: ParentBefore(ps, i)
  }

  ghost predicate ParentBefore(ps: seq<Path>, i: nat)
    requires i < |ps| && ps[i] != []
  {
    exists j: nat :: j < i && ps[j] == Parent(ps[i])
  }

  lemma {:induction false} PathsCoverForest(ts: seq<Tree<FlatInfo>>, index: nat, depth: nat)
    ensures |PathsFrom(ts, index)| == |PreOrderForest(ts, depth)|
    ensures forall i | 0 <= i < |PathsFrom(ts, index)| ::
              var p, row := PathsFrom(ts, index)[i], PreOrderForest(ts, depth)[i];
              && p != [] && index <= p[0] < index + |ts|
              && row.depth == depth + |p| - 1
              && NodeAt(ts[p[0] - index], p[1..]) == Some(row.info)
    decreases ts
  {
    if ts != [] {
      PathsCover(ts[0], depth);
      PathsCoverForest(ts[1..], index + 1, depth);
      var first, later := Under(index, Paths(ts[0])), PathsFrom(ts[1..], index + 1);
      var rows, laterRows := PreOrder(ts[0], depth), PreOrderForest(ts[1..], depth);
      var ps, all := PathsFrom(ts, index), PreOrderForest(ts, depth);
      assert ps == first + later && all == rows + laterRows;
      forall i | 0 <= i < |ps|
        ensures && ps[i] != [] && index <= ps[i][0] < index + |ts|
                && all[i].depth == depth + |ps[i]| - 1
                && NodeAt(ts[ps[i][0] - index], ps[i][1..]) == Some(all[i].info)
      {
        if i < |first| {
          assert ps[i][1..] == Paths(ts[0])[i];
        } else {
          assert ps[i] == later[i - |first|] && all[i] == laterRows[i - |first|];
          assert ts[1..][ps[i][0] - (index + 1)] == ts[ps[i][0] - index];
        }
      }
    }
  }

  /** Row i is the frame at path i, at the depth that is the path's length. */
  lemma {:induction false} PathsCover(t: Tree<FlatInfo>, depth: nat)
    ensures |Paths(t)| == |PreOrder(t, depth)|
    ensures forall i | 0 <= i < |Paths(t)| ::
              && PreOrder(t, depth)[i].depth == depth + |Paths(t)[i]|
              && NodeAt(t, Paths(t)[i]) == Some(PreOrder(t, depth)[i].info)
    decreases t
  {
    PathsCoverForest(t.calls, 0, depth + 1);
    var ps, rows := Paths(t), PreOrder(t, depth);
    forall i | 0 <= i < |ps|
      ensures rows[i].depth == depth + |ps[i]| && NodeAt(t, ps[i]) == Some(rows[i].info)
    {
      if i > 0 {
        assert ps[i] == PathsFrom(t.calls, 0)[i - 1] && rows[i] == PreOrderForest(t.calls, depth + 1)[i - 1];
      }
    }
  }

  /** In a forest the parent of a path comes earlier, or is the node above the forest. */
  ghost predicate ParentFirstBelow(ps: seq<Path>) {
    forall i | 0 <= i < |ps| :: |ps[i]| >= 1 && (|ps[i]| == 1 || ParentBefore(ps, i))
  }

  lemma UnderParentsFirst(index: nat, ps: seq<Path>)
    requires ParentFirst(ps)
    ensures ParentFirstBelow(Under(index, ps))
  {
    var us := Under(index, ps);
    forall i | 0 <= i < |us| ensures |us[i]| >= 1 && (|us[i]| == 1 || ParentBefore(us, i)) {
      if ps[i] != [] {
        assert ParentBefore(ps, i);
        var j: nat :| j < i && ps[j] == Parent(ps[i]);
        assert us[j] == [index] + ps[j] == Parent(us[i]);
      }
    }
  }

  lemma AppendParentsFirst(a: seq<Path>, b: seq<Path>)
    requires ParentFirstBelow(a) && ParentFirstBelow(b)
    ensures ParentFirstBelow(a + b)
  {
    var ps := a + b;
    forall i | 0 <= i < |ps| ensures |ps[i]| >= 1 && (|ps[i]| == 1 || ParentBefore(ps, i)) {
      if i < |a| {
        if |a[i]| > 1 {
          assert ParentBefore(a, i);
          var j: nat :| j < i && a[j] == Parent(a[i]);
          assert ps[j] == Parent(ps[i]);
        }
      } else if |b[i - |a|]| > 1 {
        var k: nat := i - |a|;
        assert ParentBefore(b, k);
        var j: nat :| j < k && b[j] == Parent(b[k]);
        assert ps[|a| + j] == Parent(ps[i]);
      }
    }
  }

  lemma {:induction false} ForestParentsFirst(ts: seq<Tree<FlatInfo>>, index: nat)
    ensures ParentFirstBelow(PathsFrom(ts, index))
    decreases ts
  {
    if ts != [] {
      ParentsFirst(ts[0]);
      UnderParentsFirst(index, Paths(ts[0]));
      ForestParentsFirst(ts[1..], index + 1);
      AppendParentsFirst(Under(index, Paths(ts[0])), PathsFrom(ts[1..], index + 1));
    }
  }

  lemma {:induction false} ParentsFirst(t: Tree<FlatInfo>)
    ensures ParentFirst(Paths(t))
    decreases t
  {
    ForestParentsFirst(t.calls, 0);
    var ps, below := Paths(t), PathsFrom(t.calls, 0);
    forall i | 0 <= i < |ps| && ps[i] != [] ensures ParentBefore(ps, i) {
      assert ps[i] == below[i - 1];
      if |ps[i]| == 1 {
        assert ps[0] == Parent(ps[i]);
      } else {
        assert ParentBefore(below, i - 1);
        var j: nat :| j < i - 1 && below[j] == Parent(below[i - 1]);
        assert ps[j + 1] == below[j];
      }
    }
  }

  /** Every ancestor of a frame is listed before it. */
  lemma {:induction false} AncestorListedBefore(t: Tree<FlatInfo>, i: nat, n: nat) returns (j: nat)
    requires i < |Paths(t)| && n < |Paths(t)[i]|
    ensures j < i && Paths(t)[j] == Paths(t)[i][..n]
    decreases i
  {
    ParentsFirst(t);
    var ps := Paths(t);
    assert ParentBefore(ps, i);
    j :| j < i && ps[j] == Parent(ps[i]);
    if n < |ps[j]| {
      var up := AncestorListedBefore(t, j, n);
      assert ps[j][..n] == ps[i][..n];
      j := up;
    }
  }

  // --------------------------------------------------------------------- the readers

  /** `get_first_error_frame`: the position of the earliest row with an error. */
  function FirstError(rows: seq<FlatFrame>): (r: Option<nat>)
    ensures r.Some? ==> r.value < |rows| && rows[r.value].info.error.Some?
    ensures r.Some? ==> forall i | 0 <= i < r.value :: rows[i].info.error.None?
    ensures r.None? ==> forall i | 0 <= i < |rows| :: rows[i].info.error.None?
  {
    if rows == [] then None
    else if rows[0].info.error.Some? then Some(0)
    else
      var rest := FirstError(rows[1..]);
      if rest.Some? then Some(rest.value + 1) else None
  }

  datatype Diagnosis = Diagnosis(
    callTree: seq<FlatFrame>,
    truncated: bool,
    rootCause: Option<FlatFrame>,
    rootInput: Option<string>)

  predicate IsTruncated(rows: seq<FlatFrame>) {
    |rows| > MAX_CALL_TREE_FRAMES
  }

  /** None of the first k rows is at depth 0. */
  ghost predicate NoRootBefore(rows: seq<FlatFrame>, k: nat)
    requires k <= |rows|
  {
    forall i | 0 <= i < k :: rows[i].depth != 0
  }

  /** The trace part of `get_failed_tx` over the transaction's rows in `trace_id` order. */
  method DiagnoseTrace(rows: seq<FlatFrame>) returns (d: Diagnosis)
    ensures d.truncated <==> IsTruncated(rows)
    ensures d.callTree == if d.truncated then rows[..MAX_CALL_TREE_FRAMES] else rows
    ensures d.rootCause == (if FirstError(rows).Some? then Some(rows[FirstError(rows).value]) else None)
    ensures forall k | 0 <= k < |d.callTree| && d.callTree[k].depth == 0 && NoRootBefore(d.callTree, k) ::
              d.rootInput == d.callTree[k].info.input
    ensures NoRootBefore(d.callTree, |d.callTree|) ==> d.rootInput == None
  {
    var callTree := if |rows| > MAX_CALL_TREE_FRAMES + 1 then rows[..MAX_CALL_TREE_FRAMES + 1] else rows;
    var truncated := |callTree| > MAX_CALL_TREE_FRAMES;
    if truncated {
      callTree := callTree[..MAX_CALL_TREE_FRAMES];
    }
    var first := FirstError(rows);
    var rootCause := if first.Some? then Some(rows[first.value]) else None;
    var i := 0;
    while i < |callTree| && callTree[i].depth != 0
      invariant 0 <= i <= |callTree|
      invariant NoRootBefore(callTree, i)
    {
      i := i + 1;
    }
    var rootInput := if i < |callTree| then callTree[i].info.input else None;
    d := Diagnosis(callTree, truncated, rootCause, rootInput);
  }

  // ----------------------------------------------------------------- what they mean

  /** The root cause has an error, and neither an earlier frame nor any frame above it has. */
  lemma RootCauseIsOutermost(t: Tree<FlatInfo>, r: nat)
    requires FirstError(PreOrder(t, 0)) == Some(r)
    ensures r < |Paths(t)|
    ensures NodeAt(t, Paths(t)[r]).Some? && NodeAt(t, Paths(t)[r]).value.error.Some?
    ensures forall n | 0 <= n < |Paths(t)[r]| ::
              NodeAt(t, Paths(t)[r][..n]).Some? && NodeAt(t, Paths(t)[r][..n]).value.error.None?
  {
    PathsCover(t, 0);
    forall n | 0 <= n < |Paths(t)[r]|
      ensures NodeAt(t, Paths(t)[r][..n]).Some? && NodeAt(t, Paths(t)[r][..n]).value.error.None?
    {
      var j := AncestorListedBefore(t, r, n);
      assert NodeAt(t, Paths(t)[j]) == Some(PreOrder(t, 0)[j].info);
    }
  }

  /** A cut after `limit` rows keeps every ancestor of every frame it keeps. */
  lemma CutIsClosedUnderParents(t: Tree<FlatInfo>, limit: nat, i: nat, n: nat)
    requires i < limit && i < |Paths(t)| && n <= |Paths(t)[i]|
    ensures exists j: nat :: j < limit && j < |Paths(t)| && Paths(t)[j] == Paths(t)[i][..n]
  {
    if n < |Paths(t)[i]| {
      var j := AncestorListedBefore(t, i, n);
    } else {
      assert Paths(t)[i][..n] == Paths(t)[i];
    }
  }

  /** The bounded call tree shows the root cause, unless nothing it shows has an error. */
  lemma CutShowsRootCauseOrNoError(rows: seq<FlatFrame>, limit: nat)
    ensures var cut := if |rows| > limit then rows[..limit] else rows;
            && (FirstError(cut).Some? ==> FirstError(rows) == FirstError(cut))
            && (FirstError(rows).Some? && FirstError(cut).None? ==>
                  FirstError(rows).value >= limit && forall i | 0 <= i < |cut| :: cut[i].info.error.None?)
  {
    var cut := if |rows| > limit then rows[..limit] else rows;
    assert rows == cut + rows[|cut|..];
    var a, b := FirstError(rows), FirstError(cut);
  }

  // ------------------------------------------------------------ the same trace, repeated

  function Repeated(rows: seq<FlatFrame>, copies: nat): seq<FlatFrame> {
    if copies == 0 then [] else Repeated(rows, copies - 1) + rows
  }

  function Same(t: Tree<FlatInfo>, copies: nat): seq<Tree<FlatInfo>> {
    if copies == 0 then [] else Same(t, copies - 1) + [t]
  }

  lemma {:induction false} ForestSnoc(ts: seq<Tree<FlatInfo>>, t: Tree<FlatInfo>, depth: nat)
    ensures PreOrderForest(ts + [t], depth) == PreOrderForest(ts, depth) + PreOrder(t, depth)
  {
    if ts == [] {
      assert ts + [t] == [t] && [t][1..] == [];
    } else {
      ForestSnoc(ts[1..], t, depth);
      assert (ts + [t])[1..] == ts[1..] + [t];
    }
  }

  lemma {:induction false} RepeatedIsForest(t: Tree<FlatInfo>, copies: nat)
    ensures Repeated(PreOrder(t, 0), copies) == PreOrderForest(Same(t, copies), 0)
    ensures |Repeated(PreOrder(t, 0), copies)| == copies * Size(t)
    ensures |Same(t, copies)| == copies
    ensures copies == 1 ==> Same(t, copies) == [t]
  {
    if copies > 0 {
      RepeatedIsForest(t, copies - 1);
      ForestSnoc(Same(t, copies - 1), t, 0);
      TraceShape(t);
    }
  }

  /** A trace that was stored `copies` times: the flag is set exactly when copies times calls
      exceed 2000, reading the rows gives the tree that many times, and they rebuild the call
      tree exactly when it was stored once. */
  lemma DiagnosisOfCopies(t: Tree<FlatInfo>, copies: nat)
    ensures var rows := Repeated(PreOrder(t, 0), copies);
            && (IsTruncated(rows) <==> copies * Size(t) > 2000)
            && ParseForest(rows, 0) == (Same(t, copies), [])
            && Rebuild(rows) == if copies == 1 then Some(t) else None
  {
    RepeatedIsForest(t, copies);
    assert PreOrderForest(Same(t, copies), 0) + [] == PreOrderForest(Same(t, copies), 0);
    ParseInvertsPreOrder(Same(t, copies), 0, []);
  }

  // ---------------------------------------------------- the frame that reverted first

  /** The path of the outermost error, earlier calls first. */
  function Outermost(t: Tree<FlatInfo>): Option<Path> {
    if t.info.error.Some? then Some([]) else OutermostIn(t.calls, 0)
  }

  function OutermostIn(ts: seq<Tree<FlatInfo>>, index: nat): Option<Path> {
    if ts == [] then None
    else
      var p := Outermost(ts[0]);
      if p.Some? then Some([index] + p.value) else OutermostIn(ts[1..], index + 1)
  }

  /** The path of the first frame to finish with an error: calls finish in order, and before
      the frame that made them. */
  function FirstFinished(t: Tree<FlatInfo>): Option<Path> {
    var p := FinishedIn(t.calls, 0);
    if p.Some? then p else if t.info.error.Some? then Some([]) else None
  }

  function FinishedIn(ts: seq<Tree<FlatInfo>>, index: nat): Option<Path> {
    if ts == [] then None
    else
      var p := FirstFinished(ts[0]);
      if p.Some? then Some([index] + p.value) else FinishedIn(ts[1..], index + 1)
  }

  predicate ErrorAt(t: Tree<FlatInfo>, p: Path) {
    NodeAt(t, p).Some? && NodeAt(t, p).value.error.Some?
  }

  /** Some frame strictly below p has an error. */
  ghost predicate ErrorBelow(t: Tree<FlatInfo>, p: Path) {
    exists q: Path :: q != [] && ErrorAt(t, p + q)
  }

  /** A forest finds an error exactly in the first tree that finds one. */
  lemma {:induction false} FinishedInFirst(ts: seq<Tree<FlatInfo>>, index: nat, i: nat)
    requires i < |ts| && FirstFinished(ts[i]).Some? && forall j | 0 <= j < i :: FirstFinished(ts[j]).None?
    ensures FinishedIn(ts, index) == Some([index + i] + FirstFinished(ts[i]).value)
    decreases i
  {
    if i > 0 {
      FinishedInFirst(ts[1..], index + 1, i - 1);
    }
  }

  lemma {:induction false} FinishedInNone(ts: seq<Tree<FlatInfo>>, index: nat)
    ensures FinishedIn(ts, index).None? <==> forall j | 0 <= j < |ts| :: FirstFinished(ts[j]).None?
    ensures FinishedIn(ts, index).Some? ==> FinishedIn(ts, index).value != []
  {
    if ts != [] {
      FinishedInNone(ts[1..], index + 1);
      assert forall j | 0 < j < |ts| :: ts[j] == ts[1..][j - 1];
    }
  }

  /** An error anywhere is found. */
  lemma {:induction false} ErrorIsFound(t: Tree<FlatInfo>, p: Path)
    requires ErrorAt(t, p)
    ensures FirstFinished(t).Some?
    decreases |p|
  {
    FinishedInNone(t.calls, 0);
    if p != [] {
      ErrorIsFound(t.calls[p[0]], p[1..]);
    }
  }

  /** What is found is an error. */
  lemma {:induction false} FoundIsError(t: Tree<FlatInfo>)
    requires FirstFinished(t).Some?
    ensures ErrorAt(t, FirstFinished(t).value)
    decreases t
  {
    if FinishedIn(t.calls, 0).Some? {
      FinishedInNone(t.calls, 0);
      var i := FirstWithError(t.calls);
      FinishedInFirst(t.calls, 0, i);
      FoundIsError(t.calls[i]);
      assert FirstFinished(t).value[1..] == FirstFinished(t.calls[i]).value;
    }
  }

  lemma {:induction false} FirstWithError(ts: seq<Tree<FlatInfo>>) returns (i: nat)
    requires exists j :: 0 <= j < |ts| && FirstFinished(ts[j]).Some?
    ensures i < |ts| && FirstFinished(ts[i]).Some? && forall j | 0 <= j < i :: FirstFinished(ts[j]).None?
  {
    if FirstFinished(ts[0]).Some? {
      i := 0;
    } else {
      assert forall j | 0 < j < |ts| :: ts[j] == ts[1..][j - 1];
      i := FirstWithError(ts[1..]);
      i := i + 1;
    }
  }

  /** The outermost error lies in the same call as the first one to finish. */
  lemma {:induction false} OutermostInFirst(ts: seq<Tree<FlatInfo>>, index: nat, i: nat)
    requires i < |ts| && FirstFinished(ts[i]).Some? && forall j | 0 <= j < i :: FirstFinished(ts[j]).None?
    ensures Outermost(ts[i]).Some? && OutermostIn(ts, index) == Some([index + i] + Outermost(ts[i]).value)
    decreases ts, 0
  {
    SameExistence(ts[0]);
    if i > 0 {
      OutermostInFirst(ts[1..], index + 1, i - 1);
    }
  }

  lemma {:induction false} OutermostInNone(ts: seq<Tree<FlatInfo>>, index: nat)
    requires forall j | 0 <= j < |ts| :: FirstFinished(ts[j]).None?
    ensures OutermostIn(ts, index).None?
    decreases ts, 0
  {
    if ts != [] {
      SameExistence(ts[0]);
      OutermostInNone(ts[1..], index + 1);
    }
  }

  lemma {:induction false} SameExistence(t: Tree<FlatInfo>)
    ensures Outermost(t).Some? <==> FirstFinished(t).Some?
    decreases t, 1
  {
    FinishedInNone(t.calls, 0);
    if FinishedIn(t.calls, 0).Some? {
      var i := FirstWithError(t.calls);
      OutermostInFirst(t.calls, 0, i);
    } else {
      OutermostInNone(t.calls, 0);
    }
  }

  /** An error below a frame of the i-th call is an error below it in the whole tree. */
  lemma ErrorBelowInCall(t: Tree<FlatInfo>, i: nat, p: Path)
    requires i < |t.calls|
    ensures ErrorBelow(t, [i] + p) <==> ErrorBelow(t.calls[i], p)
  {
    forall q: Path ensures ErrorAt(t, [i] + p + q) <==> ErrorAt(t.calls[i], p + q) {
      assert ([i] + p + q)[1..] == p + q;
    }
  }

  lemma {:induction false} FirstIffNoneBelow(t: Tree<FlatInfo>)
    requires Outermost(t).Some?
    ensures FirstFinished(t) == Outermost(t) <==> !ErrorBelow(t, Outermost(t).value)
    decreases t
  {
    SameExistence(t);
    FinishedInNone(t.calls, 0);
    if t.info.error.Some? {
      RootIsFirstIff(t);
    } else {
      var i := FirstWithError(t.calls);
      FinishedInFirst(t.calls, 0, i);
      OutermostInFirst(t.calls, 0, i);
      FirstIffNoneBelow(t.calls[i]);
      var f, o := FirstFinished(t.calls[i]).value, Outermost(t.calls[i]).value;
      ErrorBelowInCall(t, i, o);
      assert [0 + i] + f == [0 + i] + o <==> f == o by {
        assert ([0 + i] + f)[1..] == f && ([0 + i] + o)[1..] == o;
      }
    }
  }

  lemma RootIsFirstIff(t: Tree<FlatInfo>)
    requires t.info.error.Some?
    ensures FirstFinished(t) == Some([]) <==> !ErrorBelow(t, [])
  {
    FinishedInNone(t.calls, 0);
    if FinishedIn(t.calls, 0).Some? {
      FoundIsError(t);
      assert [] + FirstFinished(t).value == FirstFinished(t).value;
    } else if q: Path :| q != [] && ErrorAt(t, [] + q) {
      assert [] + q == q;
      ErrorIsFound(t.calls[q[0]], q[1..]);
    }
  }

  // ----------------------------------------------------------- back to the stored rows

  /** The path of the first row with an error. */
  function ErrorPath(rows: seq<FlatFrame>, paths: seq<Path>): Option<Path>
    requires |rows| == |paths|
  {
    var r := FirstError(rows);
    if r.None? then None else Some(paths[r.value])
  }

  lemma {:induction false} FirstErrorOfAppend(a: seq<FlatFrame>, b: seq<FlatFrame>)
    ensures FirstError(a + b) == if FirstError(a).Some? then FirstError(a) else Later(FirstError(b), |a|)
  {
    if a == [] {
      assert a + b == b;
    } else {
      FirstErrorOfAppend(a[1..], b);
      assert (a + b)[0] == a[0] && (a + b)[1..] == a[1..] + b;
    }
  }

  /** A position after `skipped` more rows. */
  function Later(r: Option<nat>, skipped: nat): Option<nat> {
    if r.None? then None else Some(r.value + skipped)
  }

  lemma ErrorPathOfAppend(a: seq<FlatFrame>, pa: seq<Path>, b: seq<FlatFrame>, pb: seq<Path>)
    requires |a| == |pa| && |b| == |pb|
    ensures ErrorPath(a + b, pa + pb) == if ErrorPath(a, pa).Some? then ErrorPath(a, pa) else ErrorPath(b, pb)
  {
    FirstErrorOfAppend(a, b);
  }

  lemma {:induction false} ErrorPathInForest(ts: seq<Tree<FlatInfo>>, index: nat, depth: nat)
    ensures |PathsFrom(ts, index)| == |PreOrderForest(ts, depth)|
    ensures ErrorPath(PreOrderForest(ts, depth), PathsFrom(ts, index)) == OutermostIn(ts, index)
    decreases ts, 0
  {
    if ts != [] {
      ErrorPathInTree(ts[0], depth);
      ErrorPathInForest(ts[1..], index + 1, depth);
      ErrorPathOfAppend(PreOrder(ts[0], depth), Under(index, Paths(ts[0])),
                        PreOrderForest(ts[1..], depth), PathsFrom(ts[1..], index + 1));
    }
  }

  lemma {:induction false} ErrorPathInTree(t: Tree<FlatInfo>, depth: nat)
    ensures |Paths(t)| == |PreOrder(t, depth)|
    ensures ErrorPath(PreOrder(t, depth), Paths(t)) == Outermost(t)
    decreases t, 1
  {
    ErrorPathInForest(t.calls, 0, depth + 1);
    FirstErrorOfAppend([FlatFrame(depth, t.info)], PreOrderForest(t.calls, depth + 1));
  }

  /** The diagnosed frame is the one that reverted first if and only if no frame below it has
      an error; and there is a diagnosis exactly when some frame reverted. */
  lemma RootCauseIsFirstIff(t: Tree<FlatInfo>)
    ensures FirstError(PreOrder(t, 0)).Some? <==> FirstFinished(t).Some?
    ensures FirstError(PreOrder(t, 0)).Some? ==>
              var r := FirstError(PreOrder(t, 0)).value;
              && r < |Paths(t)|
              && (FirstFinished(t) == Some(Paths(t)[r]) <==> !ErrorBelow(t, Paths(t)[r]))
  {
    ErrorPathInTree(t, 0);
    SameExistence(t);
    if Outermost(t).Some? {
      FirstIffNoneBelow(t);
    }
  }

  /** The usual shape of a revert: it starts in an inner call and every caller reverts too. */
  function BubbledRevert(outer: FlatInfo, inner: FlatInfo): Tree<FlatInfo> {
    Node(outer, [Node(inner, [])])
  }

  /** There the diagnosis is the root frame, although the inner call reverted first. */
  lemma BubbledRevertIsMisplaced(outer: FlatInfo, inner: FlatInfo)
    requires outer.error.Some? && inner.error.Some?
    ensures var t := BubbledRevert(outer, inner);
            && FirstError(PreOrder(t, 0)) == Some(0) && Paths(t)[0] == []
            && FirstFinished(t) == Some([0]) && NodeAt(t, [0]) == Some(inner)
  {
    var leaf := Node(inner, []);
    assert FinishedIn([], 0) == None;
    assert FirstFinished(leaf) == Some([]);
    assert FinishedIn([leaf], 0) == Some([0] + []);
    assert [0] + [] == [0];
  }
}
