/** Function signatures: taking the parameter list out of `name(types)` and splitting it at
    top-level commas. Types are written as in the Solidity Contract ABI Specification,
    section "Function Selector and Argument Encoding". */
module Signature {
  import opened Options

  // ------------------------------------------------------------------ the splitter

  predicate IsSpace(c: char) {
    '\t' <= c <= '\r' || c == ' ' || c == '\U{0085}' || c == '\U{00A0}' || c == '\U{1680}'
    || '\U{2000}' <= c <= '\U{200A}' || c == '\U{2028}' || c == '\U{2029}' || c == '\U{202F}'
    || c == '\U{205F}' || c == '\U{3000}'
  }

  /** The characters of the Unicode property White_Space. */
  lemma TwentyFiveBlanks(c: char)
    ensures IsSpace(c) <==> c as int in {0x09, 0x0A, 0x0B, 0x0C, 0x0D, 0x20, 0x85, 0xA0, 0x1680, 0x2000, 0x2001,
                                         0x2002, 0x2003, 0x2004, 0x2005, 0x2006, 0x2007, 0x2008, 0x2009, 0x200A,
                                         0x2028, 0x2029, 0x202F, 0x205F, 0x3000}
  {
  }

  function TrimStart(s: string): string {
    if s != "" && IsSpace(s[0]) then TrimStart(s[1..]) else s
  }

  function TrimEnd(s: string): string {
    if s != "" && IsSpace(s[|s| - 1]) then TrimEnd(s[..|s| - 1]) else s
  }

  function Trim(s: string): string {
    TrimEnd(TrimStart(s))
  }

  /** The pieces of `s`, when `current` was already read since the last cut and `depth`
      parentheses are open. */
  function Pieces(s: string, current: string, depth: int): seq<string> {
    if s == "" then [Trim(current)]
    else if s[0] == '(' then Pieces(s[1..], current + [s[0]], depth + 1)
    else if s[0] == ')' then Pieces(s[1..], current + [s[0]], depth - 1)
    else if s[0] == ',' && depth == 0 then [Trim(current)] + Pieces(s[1..], "", 0)
    else Pieces(s[1..], current + [s[0]], depth)
  }

  method SplitTopLevel(types: string) returns (out: seq<string>)
    ensures out == if types == "" then [] else Pieces(types, "", 0)
  {
    if types == "" {
      return [];
    }
    out := [];
    var depth, start, i := 0, 0, 0;
    assert types[0..] == types;
    while i < |types|
      invariant 0 <= start <= i <= |types|
      invariant out + Pieces(types[i..], types[start..i], depth) == Pieces(types, "", 0)
    {
      ghost var rest := types[i..];
      assert rest[0] == types[i] && rest[1..] == types[i + 1..];
      assert types[start..i] + [types[i]] == types[start..i + 1];
      if types[i] == '(' {
        depth := depth + 1;
      } else if types[i] == ')' {
        depth := depth - 1;
      } else if types[i] == ',' && depth == 0 {
        assert types[i + 1..i + 1] == "";
        out := out + [Trim(types[start..i])];
        start := i + 1;
      }
      i := i + 1;
    }
    assert types[i..] == "" && types[start..i] == types[start..];
    out := out + [Trim(types[start..])];
  }

  // ---------------------------------------------------------- the parameter list

  function FindFirst(s: string, c: char): (r: Option<nat>)
    ensures r.Some? ==> r.value < |s| && s[r.value] == c && forall i | 0 <= i < r.value :: s[i] != c
    ensures r.None? ==> forall i | 0 <= i < |s| :: s[i] != c
  {
    if s == "" then None
    else if s[0] == c then Some(0)
    else
      var r := FindFirst(s[1..], c);
      if r.Some? then Some(r.value + 1) else None
  }

  function FindLast(s: string, c: char): (r: Option<nat>)
    ensures r.Some? ==> r.value < |s| && s[r.value] == c && forall i | r.value < i < |s| :: s[i] != c
    ensures r.None? ==> forall i | 0 <= i < |s| :: s[i] != c
  {
    if s == "" then None
    else if s[|s| - 1] == c then Some(|s| - 1)
    else FindLast(s[..|s| - 1], c)
  }

  function ExtractParamList(signature: string): Option<string> {
    var open, close := FindFirst(signature, '('), FindLast(signature, ')');
    if open.None? || close.None? || close.value <= open.value then None
    else Some(signature[open.value + 1..close.value])
  }

  lemma FirstIs(s: string, c: char, k: nat)
    requires k < |s| && s[k] == c && forall i | 0 <= i < k :: s[i] != c
    ensures FindFirst(s, c) == Some(k)
  {
    var r := FindFirst(s, c);
  }

  lemma LastIs(s: string, c: char, k: nat)
    requires k < |s| && s[k] == c && forall i | k < i < |s| :: s[i] != c
    ensures FindLast(s, c) == Some(k)
  {
    var r := FindLast(s, c);
  }

  /** Whatever stands between the parentheses comes back, as long as the name has no '('. */
  lemma ParamListOf(name: string, params: string)
    requires '(' !in name
    ensures ExtractParamList(name + "(" + params + ")") == Some(params)
  {
    var s := name + "(" + params + ")";
    assert forall i | 0 <= i < |name| :: s[i] == name[i];
    FirstIs(s, '(', |name|);
    LastIs(s, ')', |s| - 1);
    assert s[|name| + 1..|s| - 1] == params;
  }

  /** A list is found exactly when some '(' comes before some ')'. */
  lemma ParamListExistsIff(s: string)
    ensures ExtractParamList(s).Some? <==> exists i, j :: 0 <= i < j < |s| && s[i] == '(' && s[j] == ')'
  {
    var open, close := FindFirst(s, '('), FindLast(s, ')');
    if ExtractParamList(s).Some? {
      assert s[open.value] == '(' && s[close.value] == ')';
    }
    if i, j :| 0 <= i < j < |s| && s[i] == '(' && s[j] == ')' {
      assert open.Some? && close.Some?;
      assert open.value <= i && j <= close.value;
    }
  }

  // -------------------------------------------------------------------- the types

  /** An elementary type with its array suffixes, or a tuple with its array suffixes. */
  datatype SolType = Elementary(name: string) | Tuple(components: seq<SolType>, suffix: string)

  /** No delimiter and no white space. */
  predicate Plain(s: string) {
    forall i | 0 <= i < |s| :: s[i] != '(' && s[i] != ')' && s[i] != ',' && !IsSpace(s[i])
  }

  predicate WellFormed(t: SolType)
    decreases t, 1
  {
    match t
    case Elementary(name) => name != "" && Plain(name)
    case Tuple(ts, suffix) => AllWellFormed(ts) && Plain(suffix)
  }

  predicate AllWellFormed(ts: seq<SolType>)
    decreases ts, 0
  {
    ts == [] || (WellFormed(ts[0]) && AllWellFormed(ts[1..]))
  }

  function Print(t: SolType): string
    decreases t, 1
  {
    match t
    case Elementary(name) => name
    case Tuple(ts, suffix) => "(" + PrintList(ts) + ")" + suffix
  }

  /** Comma-separated, no blanks. */
  function PrintList(ts: seq<SolType>): string
    decreases ts, 0
  {
    if ts == [] then ""
    else if |ts| == 1 then Print(ts[0])
    else Print(ts[0]) + "," + PrintList(ts[1..])
  }

  function PrintEach(ts: seq<SolType>): seq<string> {
    if ts == [] then [] else [Print(ts[0])] + PrintEach(ts[1..])
  }

  // ------------------------------------------------------------ reading past a type

  lemma {:induction false} PiecesPastPlain(x: string, rest: string, current: string, depth: int)
    requires Plain(x)
    ensures Pieces(x + rest, current, depth) == Pieces(rest, current + x, depth)
    decreases |x|
  {
    if x == "" {
      assert x + rest == rest && current + x == current;
    } else {
      PiecesPastPlain(x[1..], rest, current + [x[0]], depth);
      assert (x + rest)[0] == x[0] && (x + rest)[1..] == x[1..] + rest;
      assert current + [x[0]] + x[1..] == current + x;
    }
  }

  lemma PiecesPastChar(c: char, rest: string, current: string, depth: int)
    requires c == '(' || c == ')' || (c == ',' && depth != 0)
    ensures Pieces([c] + rest, current, depth)
            == Pieces(rest, current + [c], depth + (if c == '(' then 1 else if c == ')' then -1 else 0))
  {
    assert ([c] + rest)[1..] == rest;
  }

  /** A printed type never cuts at its own level: reading past it leaves the depth as it was. */
  lemma {:induction false} PiecesPastType(t: SolType, rest: string, current: string, depth: nat)
    requires WellFormed(t)
    ensures Pieces(Print(t) + rest, current, depth) == Pieces(rest, current + Print(t), depth)
    decreases t, 1
  {
    match t
    case Elementary(name) => PiecesPastPlain(name, rest, current, depth);
    case Tuple(ts, suffix) =>
      var inner := PrintList(ts);
      assert Print(t) + rest == ['('] + (inner + (")" + (suffix + rest)));
      PiecesPastChar('(', inner + (")" + (suffix + rest)), current, depth);
      PiecesPastList(ts, ")" + (suffix + rest), current + "(", depth + 1);
      PiecesPastChar(')', suffix + rest, current + "(" + inner, depth + 1);
      PiecesPastPlain(suffix, rest, current + "(" + inner + ")", depth);
      assert current + "(" + inner + ")" + suffix == current + Print(t);
  }

  /** Inside parentheses commas do not cut. */
  lemma {:induction false} PiecesPastList(ts: seq<SolType>, rest: string, current: string, depth: nat)
    requires AllWellFormed(ts) && depth >= 1
    ensures Pieces(PrintList(ts) + rest, current, depth) == Pieces(rest, current + PrintList(ts), depth)
    decreases ts, 0
  {
    if ts == [] {
      assert PrintList(ts) + rest == rest && current + PrintList(ts) == current;
    } else if |ts| == 1 {
      PiecesPastType(ts[0], rest, current, depth);
    } else {
      var head, tail := Print(ts[0]), PrintList(ts[1..]);
      assert PrintList(ts) + rest == head + ([','] + (tail + rest));
      PiecesPastType(ts[0], [','] + (tail + rest), current, depth);
      PiecesPastChar(',', tail + rest, current + head, depth);
      PiecesPastList(ts[1..], rest, current + head + [','], depth);
      assert current + head + [','] + tail == current + PrintList(ts);
    }
  }

  // ------------------------------------------------------------------- no blanks

  predicate NoSpace(s: string) {
    forall i | 0 <= i < |s| :: !IsSpace(s[i])
  }

  lemma TrimOfNoSpace(s: string)
    requires NoSpace(s)
    ensures Trim(s) == s
  {
  }

  lemma {:induction false} PrintNoSpace(t: SolType)
    requires WellFormed(t)
    ensures NoSpace(Print(t))
    decreases t, 1
  {
    match t
    case Elementary(_) =>
    case Tuple(ts, suffix) => PrintListNoSpace(ts);
  }

  lemma {:induction false} PrintListNoSpace(ts: seq<SolType>)
    requires AllWellFormed(ts)
    ensures NoSpace(PrintList(ts))
    decreases ts, 0
  {
    if ts != [] {
      PrintNoSpace(ts[0]);
      PrintListNoSpace(ts[1..]);
    }
  }

  // ---------------------------------------------------------------- round trips

  lemma PiecesAtCut(tail: string, current: string)
    ensures Pieces([','] + tail, current, 0) == [Trim(current)] + Pieces(tail, "", 0)
  {
    assert ([','] + tail)[1..] == tail;
  }

  /** The first type of a list is the first piece. */
  lemma FirstPiece(t: SolType, rest: string)
    requires WellFormed(t)
    ensures Pieces(Print(t) + rest, "", 0) == Pieces(rest, Print(t), 0)
    ensures Trim(Print(t)) == Print(t)
  {
    PiecesPastType(t, rest, "", 0);
    assert "" + Print(t) == Print(t);
    PrintNoSpace(t);
    TrimOfNoSpace(Print(t));
  }

  lemma {:induction false} SplitInvertsPrint(ts: seq<SolType>)
    requires AllWellFormed(ts) && ts != []
    ensures Pieces(PrintList(ts), "", 0) == PrintEach(ts)
    decreases |ts|
  {
    var head := Print(ts[0]);
    if |ts| == 1 {
      FirstPiece(ts[0], "");
      assert head + "" == head;
      assert PrintEach(ts[1..]) == [];
    } else {
      var tail := PrintList(ts[1..]);
      assert PrintList(ts) == head + ([','] + tail);
      FirstPiece(ts[0], [','] + tail);
      PiecesAtCut(tail, head);
      SplitInvertsPrint(ts[1..]);
    }
  }

  lemma PrintListNonEmpty(ts: seq<SolType>)
    requires AllWellFormed(ts) && ts != []
    ensures PrintList(ts) != ""
  {
    assert Print(ts[0]) != "";
  }

  /** For every list of types, nested tuples and array suffixes included, printing it as
      `name(...)`, extracting the parameter list and splitting it gives the printed types
      back in order; the empty list gives none. */
  method ParameterTypes(name: string, ts: seq<SolType>) returns (types: seq<string>)
    requires '(' !in name && AllWellFormed(ts)
    ensures types == PrintEach(ts)
  {
    ParamListOf(name, PrintList(ts));
    var params := ExtractParamList(name + "(" + PrintList(ts) + ")");
    types := SplitTopLevel(params.value);
    if ts != [] {
      PrintListNonEmpty(ts);
      SplitInvertsPrint(ts);
    }
  }

  // ------------------------------------------------------------------------ blanks

  predicate Blank(s: string) {
    forall i | 0 <= i < |s| :: IsSpace(s[i])
  }

  /** Neither the first nor the last character is a blank. */
  predicate Tight(s: string) {
    s != "" ==> !IsSpace(s[0]) && !IsSpace(s[|s| - 1])
  }

  lemma {:induction false} TrimStartOf(left: string, s: string)
    requires Blank(left) && (s != "" ==> !IsSpace(s[0]))
    ensures TrimStart(left + s) == s
  {
    if left == "" {
      assert left + s == s;
    } else {
      assert (left + s)[1..] == left[1..] + s;
      TrimStartOf(left[1..], s);
    }
  }

  lemma {:induction false} TrimEndOf(s: string, right: string)
    requires Blank(right) && (s != "" ==> !IsSpace(s[|s| - 1]))
    ensures TrimEnd(s + right) == s
  {
    if right == "" {
      assert s + right == s;
    } else {
      var t := s + right;
      assert t[..|t| - 1] == s + right[..|right| - 1];
      TrimEndOf(s, right[..|right| - 1]);
    }
  }

  /** Trimming removes exactly the blanks around a text. */
  lemma TrimRemovesBlanks(left: string, s: string, right: string)
    requires Blank(left) && Blank(right) && s != "" && Tight(s)
    ensures Trim(left + s + right) == s
  {
    assert left + s + right == left + (s + right);
    TrimStartOf(left, s + right);
    TrimEndOf(s, right);
  }

  /** Blanks neither cut nor change the depth. */
  lemma {:induction false} PiecesPastBlanks(x: string, rest: string, current: string, depth: int)
    requires Blank(x)
    ensures Pieces(x + rest, current, depth) == Pieces(rest, current + x, depth)
    decreases |x|
  {
    if x == "" {
      assert x + rest == rest && current + x == current;
    } else {
      PiecesPastBlanks(x[1..], rest, current + [x[0]], depth);
      assert (x + rest)[0] == x[0] && (x + rest)[1..] == x[1..] + rest;
      assert current + [x[0]] + x[1..] == current + x;
    }
  }

  /** The types with any blanks before and after each. */
  function PrintSpaced(ts: seq<SolType>, left: seq<string>, right: seq<string>): string
    requires |left| == |right| == |ts|
  {
    if ts == [] then ""
    else
      var head := left[0] + Print(ts[0]) + right[0];
      if |ts| == 1 then head else head + "," + PrintSpaced(ts[1..], left[1..], right[1..])
  }

  lemma FirstSpacedPiece(t: SolType, left: string, right: string, rest: string)
    requires WellFormed(t) && Blank(left) && Blank(right)
    ensures Pieces(left + Print(t) + right + rest, "", 0) == Pieces(rest, left + Print(t) + right, 0)
    ensures Trim(left + Print(t) + right) == Print(t)
  {
    var p := Print(t);
    assert left + p + right + rest == left + (p + (right + rest));
    PiecesPastBlanks(left, p + (right + rest), "", 0);
    assert "" + left == left;
    PiecesPastType(t, right + rest, left, 0);
    PiecesPastBlanks(right, rest, left + p, 0);
    PrintNoSpace(t);
    PrintNonEmpty(t);
    TrimRemovesBlanks(left, p, right);
  }

  lemma PrintNonEmpty(t: SolType)
    requires WellFormed(t)
    ensures Print(t) != ""
  {
  }

  /** Blanks around the types of a list make no difference: the pieces are the printed types. */
  lemma {:induction false} SplitIgnoresBlanks(ts: seq<SolType>, left: seq<string>, right: seq<string>)
    requires AllWellFormed(ts) && ts != [] && |left| == |right| == |ts|
    requires forall i | 0 <= i < |ts| :: Blank(left[i]) && Blank(right[i])
    ensures Pieces(PrintSpaced(ts, left, right), "", 0) == PrintEach(ts)
    decreases |ts|
  {
    var head := left[0] + Print(ts[0]) + right[0];
    if |ts| == 1 {
      FirstSpacedPiece(ts[0], left[0], right[0], "");
      assert head + "" == head;
      assert PrintEach(ts[1..]) == [];
    } else {
      var tail := PrintSpaced(ts[1..], left[1..], right[1..]);
      assert PrintSpaced(ts, left, right) == head + ([','] + tail);
      FirstSpacedPiece(ts[0], left[0], right[0], [','] + tail);
      PiecesAtCut(tail, head);
      SplitIgnoresBlanks(ts[1..], left[1..], right[1..]);
    }
  }

  /** `join(",")` */
  function Join(parts: seq<string>): string {
    if parts == [] then "" else if |parts| == 1 then parts[0] else parts[0] + "," + Join(parts[1..])
  }

  lemma {:induction false} PiecesNonEmpty(s: string, current: string, depth: int)
    ensures Pieces(s, current, depth) != []
    decreases |s|
  {
    if s != "" && (s[0] == '(' || s[0] == ')' || !(s[0] == ',' && depth == 0)) {
      PiecesNonEmpty(s[1..], current + [s[0]],
                     if s[0] == '(' then depth + 1 else if s[0] == ')' then depth - 1 else depth);
    }
  }

  /** Conversely nothing is lost or moved: for every text without blanks, balanced or not,
      joining the pieces with commas is the text. */
  lemma {:induction false} JoinInvertsSplit(s: string, current: string, depth: int)
    requires NoSpace(s) && NoSpace(current)
    ensures Join(Pieces(s, current, depth)) == current + s
    decreases |s|
  {
    if s == "" {
      TrimOfNoSpace(current);
    } else if s[0] == ',' && depth == 0 {
      TrimOfNoSpace(current);
      JoinInvertsSplit(s[1..], "", 0);
      PiecesNonEmpty(s[1..], "", 0);
      var rest := Pieces(s[1..], "", 0);
      assert ([current] + rest)[1..] == rest;
      assert current + "," + s[1..] == current + s;
    } else {
      JoinInvertsSplit(s[1..], current + [s[0]],
                       if s[0] == '(' then depth + 1 else if s[0] == ')' then depth - 1 else depth);
      assert current + [s[0]] + s[1..] == current + s;
    }
  }
}
