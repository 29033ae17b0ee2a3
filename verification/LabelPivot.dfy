/** `failed_tx_by_label_aggregate`: the pivot of grouped failure counts into one point per
    labelled contract, its order and its cut. */
module LabelPivot {
  /** One row of the GROUP BY: the failures of one category at one labelled address. */
  datatype Row = Row(name: string, address: string, category: string, count: int)

  datatype Key = Key(name: string, address: string)

  datatype Group = Group(total: int, byCategory: map<string, int>)

  datatype Point = Point(key: Key, totalFailures: int, byCategory: map<string, int>)

  type Groups = map<Key, Group>

  function KeyOf(r: Row): Key {
    Key(r.name, r.address)
  }

  function EntryOr0(groups: Groups, k: Key): Group {
    if k in groups then groups[k] else Group(0, map[])
  }

  function Enter(groups: Groups, r: Row): Groups {
    var g := EntryOr0(groups, KeyOf(r));
    groups[KeyOf(r) := Group(g.total + r.count, g.byCategory[r.category := r.count])]
  }

  /** The groups after all rows. */
  function Grouped(raw: seq<Row>): Groups {
    if raw == [] then map[] else Enter(Grouped(raw[..|raw| - 1]), raw[|raw| - 1])
  }

  method GroupRows(raw: seq<Row>) returns (groups: Groups)
    ensures groups == Grouped(raw)
  {
    groups := map[];
    for i := 0 to |raw|
      invariant groups == Grouped(raw[..i])
    {
      assert raw[..i + 1][..i] == raw[..i];
      groups := Enter(groups, raw[i]);
    }
    assert raw[..|raw|] == raw;
  }

  // ------------------------------------------------------------------- sums of maps

  ghost function SumOf<K>(m: map<K, int>): int {
    if m == map[] then 0
    else
      var k :| k in m;
      m[k] + SumOf(m - {k})
  }

  lemma {:induction false} SumOfWithout<K>(m: map<K, int>, k: K)
    requires k in m
    ensures SumOf(m) == m[k] + SumOf(m - {k})
    decreases |m|
  {
    var c :| c in m && SumOf(m) == m[c] + SumOf(m - {c});
    if c != k {
      SumOfWithout(m - {c}, k);
      SumOfWithout(m - {k}, c);
      assert m - {c} - {k} == m - {k} - {c};
    }
  }

  lemma SumOfUpdate<K>(m: map<K, int>, k: K, v: int)
    ensures SumOf(m[k := v]) == SumOf(m) + v - if k in m then m[k] else 0
  {
    SumOfWithout(m[k := v], k);
    if k in m {
      SumOfWithout(m, k);
      assert m[k := v] - {k} == m - {k};
    } else {
      assert m[k := v] - {k} == m;
    }
  }

  // ----------------------------------------------------------------------- balance

  /** What the statement's GROUP BY guarantees: no two rows share label, address and category. */
  predicate UniqueRows(raw: seq<Row>) {
    forall i, j | 0 <= i < j < |raw| :: !SameCell(raw[i], raw[j])
  }

  predicate SameCell(a: Row, b: Row) {
    KeyOf(a) == KeyOf(b) && a.category == b.category
  }

  predicate Positive(raw: seq<Row>) {
    forall i | 0 <= i < |raw| :: raw[i].count > 0
  }

  ghost predicate Balanced(g: Group) {
    SumOf(g.byCategory) == g.total
  }

  ghost predicate AllBalanced(groups: Groups) {
    forall k | k in groups :: Balanced(groups[k])
  }

  /** A cell is filled exactly by a row, and with a row's count. */
  lemma {:induction false} CellsComeFromRows(raw: seq<Row>, k: Key, c: string)
    ensures c in EntryOr0(Grouped(raw), k).byCategory <==>
            exists i :: 0 <= i < |raw| && KeyOf(raw[i]) == k && raw[i].category == c
    ensures c in EntryOr0(Grouped(raw), k).byCategory ==>
              exists i :: 0 <= i < |raw| && raw[i] == Row(k.name, k.address, c, EntryOr0(Grouped(raw), k).byCategory[c])
  {
    if raw != [] {
      var init, last := raw[..|raw| - 1], raw[|raw| - 1];
      CellsComeFromRows(init, k, c);
      assert forall i | 0 <= i < |init| :: init[i] == raw[i];
    }
  }

  /** The categories never add up to more than the total. */
  lemma {:induction false} DeficitIsNotNegative(raw: seq<Row>, k: Key)
    requires Positive(raw)
    ensures SumOf(EntryOr0(Grouped(raw), k).byCategory) <= EntryOr0(Grouped(raw), k).total
  {
    if raw != [] {
      var init, last := raw[..|raw| - 1], raw[|raw| - 1];
      DeficitIsNotNegative(init, k);
      CellIsPositive(init, last);
      SumOfUpdate(EntryOr0(Grouped(init), KeyOf(last)).byCategory, last.category, last.count);
    }
  }

  lemma CellIsPositive(raw: seq<Row>, r: Row)
    requires Positive(raw)
    ensures var cells := EntryOr0(Grouped(raw), KeyOf(r)).byCategory;
            r.category in cells ==> cells[r.category] > 0
  {
    CellsComeFromRows(raw, KeyOf(r), r.category);
  }

  /** Every point's categories add up to its total, for the rows of the statement and only
      for such rows: a repeated cell overwrites a count that the total keeps. */
  lemma {:induction false} BalancedIffUniqueRows(raw: seq<Row>)
    requires Positive(raw)
    ensures AllBalanced(Grouped(raw)) <==> UniqueRows(raw)
  {
    if raw != [] {
      var init, last := raw[..|raw| - 1], raw[|raw| - 1];
      BalancedIffUniqueRows(init);
      LastRowBalances(init, last);
      UniqueRowsStep(raw);
    }
  }

  lemma UniqueRowsStep(raw: seq<Row>)
    requires raw != []
    ensures UniqueRows(raw) <==>
            UniqueRows(raw[..|raw| - 1]) && forall i | 0 <= i < |raw| - 1 :: !SameCell(raw[i], raw[|raw| - 1])
  {
  }

  ghost predicate NewCell(groups: Groups, r: Row) {
    r.category !in EntryOr0(groups, KeyOf(r)).byCategory
  }

  /** One row keeps the balance exactly when there was one and its cell is new. */
  lemma LastRowBalances(init: seq<Row>, last: Row)
    requires Positive(init) && last.count > 0
    ensures AllBalanced(Enter(Grouped(init), last)) <==> AllBalanced(Grouped(init)) && NewCell(Grouped(init), last)
    ensures NewCell(Grouped(init), last) <==> forall i | 0 <= i < |init| :: !SameCell(init[i], last)
  {
    var groups, k := Grouped(init), KeyOf(last);
    var before, after := EntryOr0(groups, k), Enter(groups, last);
    CellsComeFromRows(init, k, last.category);
    CellIsPositive(init, last);
    DeficitIsNotNegative(init, k);
    SumOfUpdate(before.byCategory, last.category, last.count);
    assert Balanced(after[k]) <==> Balanced(before) && NewCell(groups, last);
    assert forall j | j in groups && j != k :: after[j] == groups[j];
    assert Balanced(Group(0, map[]));
    assert AllBalanced(after) ==> Balanced(after[k]);
  }

  // ------------------------------------------------------------------ conservation

  function SumRows(raw: seq<Row>): int {
    if raw == [] then 0 else SumRows(raw[..|raw| - 1]) + raw[|raw| - 1].count
  }

  ghost function Totals(groups: Groups): map<Key, int> {
    map k | k in groups :: groups[k].total
  }

  lemma {:induction false} GroupsConserveTotal(raw: seq<Row>)
    ensures SumOf(Totals(Grouped(raw))) == SumRows(raw)
  {
    if raw == [] {
      assert Totals(Grouped(raw)) == map[];
    } else {
      var init, last := raw[..|raw| - 1], raw[|raw| - 1];
      GroupsConserveTotal(init);
      var groups, k := Grouped(init), KeyOf(last);
      var total := EntryOr0(groups, k).total + last.count;
      assert Totals(Enter(groups, last)) == Totals(groups)[k := total];
      SumOfUpdate(Totals(groups), k, total);
    }
  }

  function PointOf(groups: Groups, k: Key): Point
    requires k in groups
  {
    Point(k, groups[k].total, groups[k].byCategory)
  }

  function SumPoints(points: seq<Point>): int {
    if points == [] then 0 else SumPoints(points[..|points| - 1]) + points[|points| - 1].totalFailures
  }

  /** The points in some order in which the hash map can be walked. */
  ghost predicate WalkOf(points: seq<Point>, groups: Groups) {
    && (forall i | 0 <= i < |points| :: points[i].key in groups && points[i] == PointOf(groups, points[i].key))
    && (forall i, j | 0 <= i < j < |points| :: points[i].key != points[j].key)
    && (forall k | k in groups :: PointOf(groups, k) in points)
  }

  lemma {:induction false} WalkConservesTotal(points: seq<Point>, groups: Groups)
    requires WalkOf(points, groups)
    ensures SumPoints(points) == SumOf(Totals(groups))
  {
    if points == [] {
      assert Totals(groups) == map[];
    } else {
      var init, k := points[..|points| - 1], points[|points| - 1].key;
      WalkWithoutLast(points, groups);
      WalkConservesTotal(init, groups - {k});
      TotalsWithout(groups, k);
    }
  }

  lemma TotalsWithout(groups: Groups, k: Key)
    requires k in groups
    ensures SumOf(Totals(groups)) == groups[k].total + SumOf(Totals(groups - {k}))
  {
    SumOfWithout(Totals(groups), k);
    assert Totals(groups) - {k} == Totals(groups - {k});
  }

  lemma WalkWithoutLast(points: seq<Point>, groups: Groups)
    requires points != [] && WalkOf(points, groups)
    ensures WalkOf(points[..|points| - 1], groups - {points[|points| - 1].key})
  {
    var init, last := points[..|points| - 1], points[|points| - 1];
    var rest := groups - {last.key};
    forall k | k in rest ensures PointOf(rest, k) in init {
      assert PointOf(groups, k) in points;
      assert points == init + [last];
    }
  }

  /** Before the cut no failure is lost or counted twice, in whatever order the map is walked. */
  lemma PointsConserveTotal(raw: seq<Row>, points: seq<Point>)
    requires WalkOf(points, Grouped(raw))
    ensures SumPoints(points) == SumRows(raw)
  {
    WalkConservesTotal(points, Grouped(raw));
    GroupsConserveTotal(raw);
  }

  // --------------------------------------------------------------------- the order

  predicate LessText(a: string, b: string) {
    b != "" && (a == "" || a[0] < b[0] || (a[0] == b[0] && LessText(a[1..], b[1..])))
  }

  lemma {:induction false} LessTextIsTotal(a: string, b: string)
    ensures LessText(a, b) || LessText(b, a) || a == b
    ensures !(LessText(a, b) && LessText(b, a)) && !LessText(a, a)
  {
    if a != "" {
      LessTextIsTotal(a[1..], a[1..]);
      if b != "" {
        LessTextIsTotal(a[1..], b[1..]);
        assert a == [a[0]] + a[1..] && b == [b[0]] + b[1..];
      }
    }
  }

  lemma {:induction false} LessTextIsTransitive(a: string, b: string, c: string)
    requires LessText(a, b) && LessText(b, c)
    ensures LessText(a, c)
  {
    if a != "" && a[0] == b[0] == c[0] {
      LessTextIsTransitive(a[1..], b[1..], c[1..]);
    }
  }

  /** The comparator: total descending, then label, then address. */
  predicate Before(a: Point, b: Point) {
    if a.totalFailures != b.totalFailures then a.totalFailures > b.totalFailures
    else if a.key.name != b.key.name then LessText(a.key.name, b.key.name)
    else LessText(a.key.address, b.key.address)
  }

  lemma BeforeIsTotal(a: Point, b: Point)
    requires a.key != b.key
    ensures Before(a, b) != Before(b, a)
  {
    LessTextIsTotal(a.key.name, b.key.name);
    LessTextIsTotal(a.key.address, b.key.address);
  }

  lemma BeforeIsStrict(a: Point)
    ensures !Before(a, a)
  {
    LessTextIsTotal(a.key.address, a.key.address);
  }

  lemma BeforeIsTransitive(a: Point, b: Point, c: Point)
    requires Before(a, b) && Before(b, c)
    ensures Before(a, c)
  {
    if LessText(a.key.name, b.key.name) && LessText(b.key.name, c.key.name) {
      LessTextIsTransitive(a.key.name, b.key.name, c.key.name);
    }
    if LessText(a.key.address, b.key.address) && LessText(b.key.address, c.key.address) {
      LessTextIsTransitive(a.key.address, b.key.address, c.key.address);
    }
    LessTextIsTotal(a.key.name, b.key.name);
    LessTextIsTotal(b.key.name, c.key.name);
  }

  predicate Ordered(s: seq<Point>) {
    forall i, j | 0 <= i < j < |s| :: Before(s[i], s[j])
  }

  predicate InFront(p: Point, s: seq<Point>) {
    forall i | 0 <= i < |s| :: Before(p, s[i])
  }

  predicate NewKey(p: Point, s: seq<Point>) {
    forall i | 0 <= i < |s| :: s[i].key != p.key
  }

  function Insert(p: Point, s: seq<Point>): seq<Point> {
    if s == [] then [p]
    else if Before(s[0], p) then [s[0]] + Insert(p, s[1..])
    else [p] + s
  }

  /** `sort_by` */
  function Sort(s: seq<Point>): seq<Point> {
    if s == [] then [] else Insert(s[0], Sort(s[1..]))
  }

  lemma {:induction false} InsertHas(p: Point, s: seq<Point>, q: Point)
    ensures q in Insert(p, s) <==> q == p || q in s
  {
    if s != [] && Before(s[0], p) {
      InsertHas(p, s[1..], q);
      assert s == [s[0]] + s[1..];
    }
  }

  lemma {:induction false} SortHas(s: seq<Point>, q: Point)
    ensures q in Sort(s) <==> q in s
  {
    if s != [] {
      SortHas(s[1..], q);
      InsertHas(s[0], Sort(s[1..]), q);
    }
  }

  lemma {:induction false} InsertInFront(p: Point, s: seq<Point>, q: Point)
    requires Before(q, p) && InFront(q, s)
    ensures InFront(q, Insert(p, s))
  {
    var r := Insert(p, s);
    forall i | 0 <= i < |r| ensures Before(q, r[i]) {
      InsertHas(p, s, r[i]);
    }
  }

  lemma {:induction false} InsertKeepsOrder(p: Point, s: seq<Point>)
    requires Ordered(s) && NewKey(p, s)
    ensures Ordered(Insert(p, s))
  {
    if s != [] {
      BeforeIsTotal(s[0], p);
      if Before(s[0], p) {
        InsertKeepsOrder(p, s[1..]);
        InsertInFront(p, s[1..], s[0]);
      } else {
        forall i | 0 < i < |s| ensures Before(p, s[i]) {
          BeforeIsTransitive(p, s[0], s[i]);
        }
      }
    }
  }

  lemma {:induction false} SortOrders(s: seq<Point>)
    requires forall i, j | 0 <= i < j < |s| :: s[i].key != s[j].key
    ensures Ordered(Sort(s))
  {
    if s != [] {
      SortOrders(s[1..]);
      var r := Sort(s[1..]);
      forall i | 0 <= i < |r| ensures r[i].key != s[0].key {
        SortHas(s[1..], r[i]);
      }
      InsertKeepsOrder(s[0], r);
    }
  }

  // --------------------------------------------------------------------- the report

  /** The first `limit` points (all, for a limit that is not positive), best first. */
  ghost predicate IsReport(out: seq<Point>, groups: Groups, limit: int) {
    && Ordered(out)
    && (forall p | p in out :: p.key in groups && p == PointOf(groups, p.key))
    && (limit > 0 ==> |out| <= limit)
    && (forall k | k in groups :: PointOf(groups, k) in out || Crowded(out, PointOf(groups, k), limit))
  }

  /** The report is full and every listed point precedes p. */
  ghost predicate Crowded(out: seq<Point>, p: Point, limit: int) {
    limit > 0 && |out| == limit && forall q | q in out :: Before(q, p)
  }

  method WalkGroups(groups: Groups) returns (points: seq<Point>)
    ensures WalkOf(points, groups)
  {
    points := [];
    var remaining := groups.Keys;
    while remaining != {}
      invariant remaining <= groups.Keys
      invariant forall i | 0 <= i < |points| ::
                  points[i].key in groups && points[i].key !in remaining && points[i] == PointOf(groups, points[i].key)
      invariant forall i, j | 0 <= i < j < |points| :: points[i].key != points[j].key
      invariant forall k | k in groups && k !in remaining :: PointOf(groups, k) in points
    {
      var k :| k in remaining;
      points := points + [PointOf(groups, k)];
      remaining := remaining - {k};
    }
  }

  /** The rows of one label and address. */
  function CountOf(raw: seq<Row>, k: Key): int {
    if raw == [] then 0
    else CountOf(raw[..|raw| - 1], k) + if KeyOf(raw[|raw| - 1]) == k then raw[|raw| - 1].count else 0
  }

  predicate HasRow(raw: seq<Row>, k: Key) {
    exists i :: 0 <= i < |raw| && KeyOf(raw[i]) == k
  }

  lemma {:induction false} GroupIsCount(raw: seq<Row>, k: Key)
    ensures k in Grouped(raw) <==> HasRow(raw, k)
    ensures EntryOr0(Grouped(raw), k).total == CountOf(raw, k)
  {
    if raw != [] {
      var init := raw[..|raw| - 1];
      GroupIsCount(init, k);
      assert forall i | 0 <= i < |init| :: init[i] == raw[i];
      assert HasRow(raw, k) <==> HasRow(init, k) || KeyOf(raw[|raw| - 1]) == k;
    }
  }

  /** Lexicographic order, by the first difference. */
  ghost predicate TextBefore(a: string, b: string) {
    exists n :: 0 <= n <= |a| && DiffersFrom(a, b, n)
  }

  /** The texts are the same up to n, where a ends or has the smaller character. */
  predicate DiffersFrom(a: string, b: string, n: nat)
    requires n <= |a|
  {
    n < |b| && a[..n] == b[..n] && (n == |a| || a[n] < b[n])
  }

  lemma {:induction false} LessTextMeansBefore(a: string, b: string)
    requires LessText(a, b)
    ensures TextBefore(a, b)
  {
    if a == "" || a[0] < b[0] {
      assert DiffersFrom(a, b, 0);
    } else {
      LessTextMeansBefore(a[1..], b[1..]);
      var n :| 0 <= n <= |a[1..]| && DiffersFrom(a[1..], b[1..], n);
      assert a[..n + 1] == [a[0]] + a[1..][..n] && b[..n + 1] == [b[0]] + b[1..][..n];
      assert DiffersFrom(a, b, n + 1);
    }
  }

  /** The categories of a point are those of its rows, each with a count of such a row. */
  ghost predicate ShowsCells(p: Point, raw: seq<Row>) {
    && (forall i | 0 <= i < |raw| && KeyOf(raw[i]) == p.key :: raw[i].category in p.byCategory)
    && (forall c | c in p.byCategory :: Row(p.key.name, p.key.address, c, p.byCategory[c]) in raw)
  }

  lemma PointShowsCells(raw: seq<Row>, k: Key)
    requires k in Grouped(raw)
    ensures ShowsCells(PointOf(Grouped(raw), k), raw)
  {
    var p := PointOf(Grouped(raw), k);
    forall i | 0 <= i < |raw| && KeyOf(raw[i]) == p.key ensures raw[i].category in p.byCategory {
      CellsComeFromRows(raw, k, raw[i].category);
    }
    forall c | c in p.byCategory ensures Row(k.name, k.address, c, p.byCategory[c]) in raw {
      CellsComeFromRows(raw, k, c);
      var i :| 0 <= i < |raw| && raw[i] == Row(k.name, k.address, c, EntryOr0(Grouped(raw), k).byCategory[c]);
    }
  }

  /** What the report promises its reader: totals never increase, ties are in the order of their
      labels and then of their addresses, every point shows the count of its rows, and no label
      that was cut off has failed more often than one that is listed. */
  ghost predicate Ranked(out: seq<Point>, raw: seq<Row>, limit: int) {
    && (forall i, j | 0 <= i < j < |out| :: out[i].totalFailures >= out[j].totalFailures)
    && (forall i, j | 0 <= i < j < |out| && out[i].totalFailures == out[j].totalFailures ::
          || TextBefore(out[i].key.name, out[j].key.name)
          || (out[i].key.name == out[j].key.name && TextBefore(out[i].key.address, out[j].key.address)))
    && (forall i | 0 <= i < |out| ::
          && HasRow(raw, out[i].key) && out[i].totalFailures == CountOf(raw, out[i].key)
          && ShowsCells(out[i], raw))
    && (limit > 0 ==> |out| <= limit)
    && (forall k | HasRow(raw, k) ::
          || (exists i :: 0 <= i < |out| && out[i].key == k)
          || (limit > 0 && |out| == limit && forall i | 0 <= i < |out| :: out[i].totalFailures >= CountOf(raw, k)))
  }

  lemma ReportIsRanked(out: seq<Point>, raw: seq<Row>, limit: int)
    requires IsReport(out, Grouped(raw), limit)
    ensures Ranked(out, raw, limit)
  {
    var groups := Grouped(raw);
    forall i, j | 0 <= i < j < |out| ensures out[i].totalFailures >= out[j].totalFailures {
      MoreComesFirst(out[i], out[j]);
    }
    forall i | 0 <= i < |out|
      ensures HasRow(raw, out[i].key) && out[i].totalFailures == CountOf(raw, out[i].key) && ShowsCells(out[i], raw)
    {
      assert out[i] in out;
      GroupIsCount(raw, out[i].key);
      PointShowsCells(raw, out[i].key);
    }
    forall i, j | 0 <= i < j < |out| && out[i].totalFailures == out[j].totalFailures
      ensures || TextBefore(out[i].key.name, out[j].key.name)
              || (out[i].key.name == out[j].key.name && TextBefore(out[i].key.address, out[j].key.address))
    {
      TieIsByText(out[i], out[j]);
    }
    forall k | HasRow(raw, k)
      ensures || (exists i :: 0 <= i < |out| && out[i].key == k)
              || (limit > 0 && |out| == limit && forall i | 0 <= i < |out| :: out[i].totalFailures >= CountOf(raw, k))
    {
      GroupIsCount(raw, k);
      if PointOf(groups, k) in out {
        var i :| 0 <= i < |out| && out[i] == PointOf(groups, k);
        assert out[i].key == k;
      } else {
        assert Crowded(out, PointOf(groups, k), limit);
        assert forall i | 0 <= i < |out| :: out[i] in out;
      }
    }
  }

  /** More failures come first. */
  lemma MoreComesFirst(a: Point, b: Point)
    requires Before(a, b)
    ensures a.totalFailures >= b.totalFailures
  {
  }

  lemma TieIsByText(a: Point, b: Point)
    requires Before(a, b) && a.totalFailures == b.totalFailures
    ensures TextBefore(a.key.name, b.key.name)
            || (a.key.name == b.key.name && TextBefore(a.key.address, b.key.address))
  {
    if a.key.name != b.key.name {
      LessTextMeansBefore(a.key.name, b.key.name);
    } else {
      LessTextMeansBefore(a.key.address, b.key.address);
    }
  }

  method FailedTxByLabel(raw: seq<Row>, limit: int) returns (out: seq<Point>)
    ensures IsReport(out, Grouped(raw), limit)
    ensures Ranked(out, raw, limit)
    ensures limit <= 0 ==> SumPoints(out) == SumRows(raw)
  {
    var groups := GroupRows(raw);
    var points := WalkGroups(groups);
    out := Sort(points);
    SortedWalkIsWalk(points, groups);
    PointsConserveTotal(raw, out);
    if limit > 0 && limit < |out| {
      CutIsReport(out, groups, limit);
      out := out[..limit];
    }
    ReportIsRanked(out, raw, limit);
  }

  lemma SortedWalkIsWalk(points: seq<Point>, groups: Groups)
    requires WalkOf(points, groups)
    ensures WalkOf(Sort(points), groups) && Ordered(Sort(points))
  {
    var r := Sort(points);
    SortOrders(points);
    forall i | 0 <= i < |r| ensures r[i].key in groups && r[i] == PointOf(groups, r[i].key) {
      SortHas(points, r[i]);
    }
    forall i, j | 0 <= i < j < |r| ensures r[i].key != r[j].key {
      BeforeIsStrict(r[i]);
    }
    forall k | k in groups ensures PointOf(groups, k) in r {
      SortHas(points, PointOf(groups, k));
    }
  }

  lemma CutIsReport(full: seq<Point>, groups: Groups, limit: int)
    requires WalkOf(full, groups) && Ordered(full) && 0 < limit < |full|
    ensures IsReport(full[..limit], groups, limit)
  {
    var out := full[..limit];
    assert forall p | p in out :: p in full;
    forall k | k in groups ensures PointOf(groups, k) in out || Crowded(out, PointOf(groups, k), limit) {
      var p := PointOf(groups, k);
      var i :| 0 <= i < |full| && full[i] == p;
      if i < limit {
        assert out[i] == p;
      } else {
        forall q | q in out ensures Before(q, p) {
          var j :| 0 <= j < |out| && out[j] == q;
          assert full[j] == q;
        }
      }
    }
  }

  // --------------------------------------------------------------------- uniqueness

  lemma {:induction false} OrderedIsDistinct(s: seq<Point>)
    requires Ordered(s)
    ensures |set p | p in s| == |s|
  {
    if s != [] {
      var init, last := s[..|s| - 1], s[|s| - 1];
      OrderedIsDistinct(init);
      BeforeIsStrict(last);
      assert last !in init;
      assert (set p | p in s) == (set p | p in init) + {last};
    }
  }

  lemma {:induction false} OrderedByContents(a: seq<Point>, b: seq<Point>)
    requires Ordered(a) && Ordered(b) && forall p :: p in a <==> p in b
    ensures a == b
  {
    assert a != [] ==> a[0] in b;
    assert b != [] ==> b[0] in a;
    if a != [] {
      SameHead(a, b);
      forall p ensures p in a[1..] <==> p in b[1..] {
        TailHas(a, p);
        TailHas(b, p);
      }
      OrderedByContents(a[1..], b[1..]);
    }
  }

  lemma TailHas(s: seq<Point>, p: Point)
    requires s != [] && Ordered(s)
    ensures p in s[1..] <==> p in s && p != s[0]
  {
    BeforeIsStrict(s[0]);
    assert s == [s[0]] + s[1..];
    assert forall i | 0 <= i < |s[1..]| :: s[1..][i] == s[i + 1] && Before(s[0], s[i + 1]);
  }

  lemma SameHead(a: seq<Point>, b: seq<Point>)
    requires a != [] && b != [] && Ordered(a) && Ordered(b) && forall p :: p in a <==> p in b
    ensures a[0] == b[0]
  {
    var p, q := a[0], b[0];
    assert p in b && q in a;
    BeforeIsStrict(p);
    if p != q {
      BeforeIsTransitive(p, q, p);
    }
  }

  /** A point of one report that another report leaves out would have to be both better and
      worse than a point of the other. */
  lemma ReportsListTheSame(a: seq<Point>, b: seq<Point>, groups: Groups, limit: int, p: Point)
    requires IsReport(a, groups, limit) && IsReport(b, groups, limit) && p in a
    ensures p in b
  {
    if p !in b {
      assert Crowded(b, PointOf(groups, p.key), limit);
      var sa, sb := set q | q in a, set q | q in b;
      OrderedIsDistinct(a);
      OrderedIsDistinct(b);
      if sb <= sa {
        SmallerSubset(sb, sa, p);
      }
      var q :| q in sb && q !in sa;
      assert Crowded(a, PointOf(groups, q.key), limit);
      BeforeIsTransitive(p, q, p);
      BeforeIsStrict(p);
    }
  }

  lemma SmallerSubset(sb: set<Point>, sa: set<Point>, p: Point)
    requires sb <= sa && p in sa && p !in sb
    ensures |sb| < |sa|
  {
    SubsetSize(sb, sa - {p});
  }

  lemma {:induction false} SubsetSize(x: set<Point>, y: set<Point>)
    requires x <= y
    ensures |x| <= |y|
  {
    if x != {} {
      var p :| p in x;
      SubsetSize(x - {p}, y - {p});
    }
  }

  /** The response is determined by the rows and the limit alone: however the hash map is
      walked, the same points come out in the same order. */
  lemma ReportIsUnique(a: seq<Point>, b: seq<Point>, groups: Groups, limit: int)
    requires IsReport(a, groups, limit) && IsReport(b, groups, limit)
    ensures a == b
  {
    forall p ensures p in a <==> p in b {
      if p in a { ReportsListTheSame(a, b, groups, limit, p); }
      if p in b { ReportsListTheSame(b, a, groups, limit, p); }
    }
    OrderedByContents(a, b);
  }
}
