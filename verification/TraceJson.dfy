/** Reading the `callTracer` answer: `parse_call_frame` and `parse_trace` over a JSON
    tree in which an object shows the nine members the parser asks for. */
module TraceJson {
  import opened Options
  import opened CallTrace

  datatype Json =
    | Absent
    | Text(text: string)
    | List(items: seq<Json>)
    | Object(callType: Json, from: Json, to: Json, value: Json, gasUsed: Json,
             input: Json, output: Json, error: Json, calls: Json)
    | Other                      // null, booleans, numbers

  function AsStr(j: Json): Option<string> {
    if j.Text? then Some(j.text) else None
  }

  function LowerChar(c: char): char {
    if 'A' <= c <= 'Z' then (c as int - 'A' as int + 'a' as int) as char else c
  }

  /** The twenty-six capitals and nothing else change. */
  lemma LowerLetters(c: char, i: nat)
    requires i < 26
    ensures LowerChar((65 + i) as char) == (97 + i) as char
    ensures LowerChar(c) != c <==> 65 <= c as int <= 90
  {
  }

  function Lower(s: string): (r: string)
    ensures |r| == |s|
    ensures forall i | 0 <= i < |s| :: r[i] == LowerChar(s[i])
  {
    if s == "" then "" else [LowerChar(s[0])] + Lower(s[1..])
  }

  /** Text without capitals is its own lower case. */
  lemma LowerIsFixed(s: string)
    requires forall i | 0 <= i < |s| :: !('A' <= s[i] <= 'Z')
    ensures Lower(s) == s
  {
  }

  /** 0x and forty zeros. */
  function ZeroAddress(): string {
    "0x" + seq(40, _ => '0')
  }

  /** None is the only error: an object without a textual type. */
  function ParseCallFrame(j: Json): Option<CallFrame>
    decreases j, 1
  {
    if !j.Object? || AsStr(j.callType).None? then None
    else
      var from := AsStr(j.from);
      var to := AsStr(j.to);
      Some(Node(
        FrameInfo(
          j.callType.text,
          Lower(if from.Some? then from.value else ZeroAddress()),
          if to.Some? then Some(Lower(to.value)) else None,
          AsStr(j.value),
          ValueOr0(AsStr(j.gasUsed), U64_LIMIT),
          AsStr(j.input), AsStr(j.output), AsStr(j.error)),
        if j.calls.List? then ParseCalls(j.calls.items) else []))
  }

  /** `filter_map(parse.ok())`: a call that does not parse disappears with everything below it. */
  function ParseCalls(items: seq<Json>): seq<CallFrame>
    decreases items, 0
  {
    if items == [] then []
    else
      var head := ParseCallFrame(items[0]);
      (if head.Some? then [head.value] else []) + ParseCalls(items[1..])
  }

  /** `parse_trace` without the transaction hash it copies. */
  method ParseTrace(j: Json) returns (frames: Option<seq<FlatFrame>>)
    ensures frames.Some? <==> j.Object? && j.callType.Text?
    ensures frames.Some? ==> frames.value == PreOrder(FlatTree(ParseCallFrame(j).value), 0)
  {
    var root := ParseCallFrame(j);
    if root.None? {
      return None;
    }
    var buffer := new FrameBuffer();
    buffer.Flatten(root.value, 0);
    frames := Some(buffer.frames);
  }

  // ------------------------------------------------------------------ round trip

  function HexChar(d: nat): char
    requires d < 16
  {
    if d < 10 then ('0' as nat + d) as char else ('a' as nat + d - 10) as char
  }

  function HexText(n: nat): string {
    (if n < 16 then "" else HexText(n / 16)) + [HexChar(n % 16)]
  }

  lemma {:induction false} HexTextValue(n: nat)
    ensures HexText(n) != "" && HexValue(HexText(n)) == Some(n) && HexText(n)[0] != '+'
  {
    var s := HexText(n);
    if n >= 16 {
      HexTextValue(n / 16);
      assert s[..|s| - 1] == HexText(n / 16);
    } else {
      assert s[..|s| - 1] == "" && HexValue("") == Some(0);
    }
    assert HexDigit(s[|s| - 1]) == Some(n % 16);
  }

  lemma HexTextIsRead(n: nat, limit: nat)
    requires n < limit
    ensures ValueOr0(Some("0x" + HexText(n)), limit) == n
  {
    HexTextValue(n);
    var t := "0x" + HexText(n);
    assert t[..2] == "0x" && t[2..] == HexText(n);
  }

  // ------------------------------------------------------------- reading hex numbers

  lemma DigitIgnoresCase(c: char)
    ensures HexDigit(LowerChar(c)) == HexDigit(c)
  {
  }

  lemma {:induction false} SameDigitsSameValue(s: string, t: string)
    requires |s| == |t| && forall i | 0 <= i < |s| :: HexDigit(s[i]) == HexDigit(t[i])
    ensures HexValue(s) == HexValue(t)
  {
    if s != "" {
      SameDigitsSameValue(s[..|s| - 1], t[..|t| - 1]);
    }
  }

  /** Capital digits count the same. */
  lemma HexIgnoresCase(s: string)
    ensures HexValue(Lower(s)) == HexValue(s)
  {
    forall i | 0 <= i < |s| ensures HexDigit(Lower(s)[i]) == HexDigit(s[i]) {
      DigitIgnoresCase(s[i]);
    }
    SameDigitsSameValue(Lower(s), s);
  }

  /** A text has a value exactly if all its characters are hex digits. */
  lemma {:induction false} HexValueExistsIff(s: string)
    ensures HexValue(s).Some? <==>
            forall i | 0 <= i < |s| :: '0' <= s[i] <= '9' || 'a' <= s[i] <= 'f' || 'A' <= s[i] <= 'F'
  {
    if s != "" {
      HexValueExistsIff(s[..|s| - 1]);
      assert forall i | 0 <= i < |s| - 1 :: s[..|s| - 1][i] == s[i];
    }
  }

  /** Exactly which texts `from_str_radix` reads: at least one digit, after an optional plus,
      only digits, and a value below the limit, which is what it returns. */
  lemma RadixReadsExactly(s: string, limit: nat)
    ensures var digits := if s != "" && s[0] == '+' then s[1..] else s;
            && (FromStrRadix16(s, limit).Some? <==>
                  digits != "" && HexValue(digits).Some? && HexValue(digits).value < limit)
            && (FromStrRadix16(s, limit).Some? ==> FromStrRadix16(s, limit) == HexValue(digits))
  {
  }

  /** The prefix is optional, and what is too large or no number reads as zero. */
  lemma NumbersAreReadOrZero(n: nat, limit: nat, text: string)
    ensures n < limit ==> ValueOr0(Some(HexText(n)), limit) == n && ValueOr0(Some("0x" + HexText(n)), limit) == n
    ensures n >= limit ==> ValueOr0(Some("0x" + HexText(n)), limit) == 0
    ensures FromStrRadix16(StripHexPrefix(text), limit).None? ==> ValueOr0(Some(text), limit) == 0
    ensures ValueOr0(None, limit) == 0
  {
    HexTextValue(n);
    NoPrefixInHexText(n);
    var t := "0x" + HexText(n);
    assert t[..2] == "0x" && t[2..] == HexText(n);
  }

  lemma NoPrefixInHexText(n: nat)
    ensures StripHexPrefix(HexText(n)) == HexText(n)
  {
    HexTextValue(n);
    HexValueExistsIff(HexText(n));
    if |HexText(n)| >= 2 {
      assert HexText(n)[..2][1] == HexText(n)[1];
      assert "0x"[1] == 'x';
    }
  }

  /** The cast to a signed column keeps the number modulo 2^64, in the signed range. */
  lemma SignedCast(n: nat)
    ensures -(U64_LIMIT / 2) <= AsI64(n) < U64_LIMIT / 2 && (AsI64(n) - n) % U64_LIMIT == 0
  {
    var m, q := n % U64_LIMIT, n / U64_LIMIT;
    assert n == q * U64_LIMIT + m;
    if m < U64_LIMIT / 2 {
      MultipleOfLimit(-q);
    } else {
      MultipleOfLimit(-q - 1);
    }
  }

  lemma MultipleOfLimit(k: int)
    ensures (k * U64_LIMIT) % U64_LIMIT == 0
  {
  }

  /** What a node sends for a call tree. */
  function Render(t: CallFrame): Json
    decreases t, 1
  {
    Object(Text(t.info.callType), Text(t.info.from), Optional(t.info.to), Optional(t.info.value),
           Text("0x" + HexText(t.info.gasUsed)), Optional(t.info.input), Optional(t.info.output),
           Optional(t.info.error), List(RenderAll(t.calls)))
  }

  function RenderAll(ts: seq<CallFrame>): seq<Json>
    decreases ts, 0
  {
    if ts == [] then [] else [Render(ts[0])] + RenderAll(ts[1..])
  }

  function Optional(s: Option<string>): Json {
    if s.Some? then Text(s.value) else Absent
  }

  /** Addresses in lower case and gas within 64 bits, in every frame. */
  predicate Canonical(t: CallFrame)
    decreases t, 1
  {
    && Lower(t.info.from) == t.info.from
    && (t.info.to.Some? ==> Lower(t.info.to.value) == t.info.to.value)
    && t.info.gasUsed < U64_LIMIT
    && AllCanonical(t.calls)
  }

  predicate AllCanonical(ts: seq<CallFrame>)
    decreases ts, 0
  {
    ts == [] || (Canonical(ts[0]) && AllCanonical(ts[1..]))
  }

  /** An item that does not parse leaves no trace among the calls that do. */
  lemma {:induction false} MalformedCallsVanish(before: seq<Json>, bad: Json, after: seq<Json>)
    requires ParseCallFrame(bad).None?
    ensures ParseCalls(before + [bad] + after) == ParseCalls(before + after)
  {
    if before == [] {
      assert before + [bad] + after == [bad] + after && before + after == after;
      assert ([bad] + after)[1..] == after;
    } else {
      MalformedCallsVanish(before[1..], bad, after);
      assert (before + [bad] + after)[1..] == before[1..] + [bad] + after;
      assert (before + after)[1..] == before[1..] + after;
    }
  }

  /** The tree with every address in lower case. */
  function LowerCased(t: CallFrame): CallFrame
    decreases t, 1
  {
    Node(t.info.(from := Lower(t.info.from),
                 to := if t.info.to.Some? then Some(Lower(t.info.to.value)) else None),
         AllLowerCased(t.calls))
  }

  function AllLowerCased(ts: seq<CallFrame>): seq<CallFrame>
    decreases ts, 0
  {
    if ts == [] then [] else [LowerCased(ts[0])] + AllLowerCased(ts[1..])
  }

  predicate GasFits(t: CallFrame)
    decreases t, 1
  {
    t.info.gasUsed < U64_LIMIT && AllGasFits(t.calls)
  }

  predicate AllGasFits(ts: seq<CallFrame>)
    decreases ts, 0
  {
    ts == [] || (GasFits(ts[0]) && AllGasFits(ts[1..]))
  }

  /** Parsing what a node sends gives the tree back, with its addresses in lower case. */
  lemma {:induction false} ParseLowersAddresses(t: CallFrame)
    requires GasFits(t)
    ensures ParseCallFrame(Render(t)) == Some(LowerCased(t))
    decreases t, 1
  {
    HexTextIsRead(t.info.gasUsed, U64_LIMIT);
    ParseLowersAll(t.calls);
  }

  lemma {:induction false} ParseLowersAll(ts: seq<CallFrame>)
    requires AllGasFits(ts)
    ensures ParseCalls(RenderAll(ts)) == AllLowerCased(ts)
    decreases ts, 0
  {
    if ts != [] {
      ParseLowersAddresses(ts[0]);
      ParseLowersAll(ts[1..]);
      assert RenderAll(ts)[1..] == RenderAll(ts[1..]);
    }
  }

  lemma {:induction false} CanonicalIsLowerCased(t: CallFrame)
    requires Canonical(t)
    ensures LowerCased(t) == t && GasFits(t)
    decreases t, 1
  {
    AllCanonicalIsLowerCased(t.calls);
  }

  lemma {:induction false} AllCanonicalIsLowerCased(ts: seq<CallFrame>)
    requires AllCanonical(ts)
    ensures AllLowerCased(ts) == ts && AllGasFits(ts)
    decreases ts, 0
  {
    if ts != [] {
      CanonicalIsLowerCased(ts[0]);
      AllCanonicalIsLowerCased(ts[1..]);
    }
  }

  lemma ParseInvertsRender(t: CallFrame)
    requires Canonical(t)
    ensures ParseCallFrame(Render(t)) == Some(t)
  {
    CanonicalIsLowerCased(t);
    ParseLowersAddresses(t);
  }

  /** Gas that does not fit 64 bits reads as zero. */
  lemma LargeGasReadsAsZero(j: Json, n: nat)
    requires j.Object? && j.callType.Text? && j.gasUsed == Text("0x" + HexText(n)) && n >= U64_LIMIT
    ensures ParseCallFrame(j).Some? && ParseCallFrame(j).value.info.gasUsed == 0
  {
    NumbersAreReadOrZero(n, U64_LIMIT, "");
  }

  /** A frame with only its type: the sender is the zero address, the gas 0, the rest absent. */
  lemma MissingMembers(callType: string)
    ensures var j := Object(Text(callType), Absent, Absent, Absent, Absent, Absent, Absent, Absent, Absent);
            var r := ParseCallFrame(j);
            && r.Some? && r.value.calls == []
            && r.value.info == FrameInfo(callType, r.value.info.from, None, None, 0, None, None, None)
            && IsZeroAddress(r.value.info.from)
  {
    LowerKeepsZeroAddress(ZeroAddress());
  }

  /** 0x and forty zeros. */
  predicate IsZeroAddress(a: string) {
    |a| == 42 && a[0] == '0' && a[1] == 'x' && forall i | 2 <= i < 42 :: a[i] == '0'
  }

  lemma LowerKeepsZeroAddress(a: string)
    requires IsZeroAddress(a)
    ensures IsZeroAddress(Lower(a))
  {
  }

  // ------------------------------------------------------------- undoing the conversion

  /** The value a node sends: 0x-prefixed, without leading zeros, at most 128 bits. */
  ghost predicate HasValue(f: FrameInfo) {
    exists n: nat :: n < U128_LIMIT && f.value == Some("0x" + HexText(n))
  }

  ghost predicate HasValues(t: CallFrame)
    decreases t, 1
  {
    HasValue(t.info) && AllHaveValues(t.calls)
  }

  ghost predicate AllHaveValues(ts: seq<CallFrame>)
    decreases ts, 0
  {
    ts == [] || (HasValues(ts[0]) && AllHaveValues(ts[1..]))
  }

  /** The frame that the columns of a row were converted from. */
  function Restored(i: FlatInfo): FrameInfo {
    FrameInfo(i.callType, i.from, i.to, Some("0x" + HexText(i.value)), i.gasUsed % U64_LIMIT,
              i.input, i.output, i.error)
  }

  function RestoredTree(t: Tree<FlatInfo>): CallFrame {
    Node(Restored(t.info), RestoredForest(t.calls))
  }

  function RestoredForest(ts: seq<Tree<FlatInfo>>): seq<CallFrame> {
    if ts == [] then [] else [RestoredTree(ts[0])] + RestoredForest(ts[1..])
  }

  lemma {:induction false} RestoredInvertsFlat(f: FrameInfo)
    requires HasValue(f) && f.gasUsed < U64_LIMIT
    ensures Restored(Flat(f)) == f
  {
    var n: nat :| n < U128_LIMIT && f.value == Some("0x" + HexText(n));
    HexTextIsRead(n, U128_LIMIT);
    GasIsRead(f.gasUsed);
    assert Flat(f).value == n && Flat(f).gasUsed == AsI64(f.gasUsed);
  }

  lemma GasIsRead(gas: nat)
    requires gas < U64_LIMIT
    ensures AsI64(gas) % U64_LIMIT == gas
  {
  }

  lemma {:induction false} RestoredInvertsFlatTree(t: CallFrame)
    requires Canonical(t) && HasValues(t)
    ensures RestoredTree(FlatTree(t)) == t
    decreases t, 1
  {
    RestoredInvertsFlat(t.info);
    RestoredInvertsFlatForest(t.calls);
  }

  lemma {:induction false} RestoredInvertsFlatForest(ts: seq<CallFrame>)
    requires AllCanonical(ts) && AllHaveValues(ts)
    ensures RestoredForest(FlatForest(ts)) == ts
    decreases ts, 0
  {
    if ts != [] {
      RestoredInvertsFlatTree(ts[0]);
      RestoredInvertsFlatForest(ts[1..]);
      assert FlatForest(ts)[1..] == FlatForest(ts[1..]);
    }
  }

  /** From the node's JSON to the stored rows and back: the rows that `parse_trace`
      produces give exactly the call tree that was sent. */
  lemma TraceSurvivesStorage(t: CallFrame)
    requires Canonical(t) && HasValues(t)
    ensures ParseCallFrame(Render(t)).Some?
    ensures var rebuilt := Rebuild(PreOrder(FlatTree(ParseCallFrame(Render(t)).value), 0));
            rebuilt.Some? && RestoredTree(rebuilt.value) == t
  {
    ParseInvertsRender(t);
    FlatteningIsInvertible(FlatTree(t));
    RestoredInvertsFlatTree(t);
  }

  /** The one thing the columns do not tell: whether a value of zero was sent at all. */
  lemma AbsentValueReadsAsZero(f: FrameInfo)
    ensures Flat(f.(value := None)) == Flat(f.(value := Some("0x0")))
  {
    assert HexText(0) == "0";
    assert "0x" + HexText(0) == "0x0";
    HexTextIsRead(0, U128_LIMIT);
  }
}
