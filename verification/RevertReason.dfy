/** Revert data: `decode_revert_reason`, `decode_abi_string` and the category derived from a
    root frame's output. The encodings follow the Solidity Contract ABI Specification,
    section "Formal Specification of the Encoding". */
module RevertReason {
  import opened Options
  import opened CallTrace
  import opened TraceJson
  import opened Classifier

  type byte = b: int | 0 <= b < 256
  type Bytes = seq<byte>

  datatype DecodeError =
    | TooShort              // less than offset and length
    | LengthExceedsData
    | LengthOverflows       // 64 + length leaves usize: the addition or the slice panics

  /** A decoded reason: the bytes handed to the lossy UTF-8 conversion, or a formatted dump. */
  datatype Reason = Message(utf8: Bytes) | Dump(text: string)

  datatype Decoded = Ok(reason: Reason) | Err(error: DecodeError)

  const ERROR_SELECTOR: Bytes := [0x08, 0xc3, 0x79, 0xa0]
  const PANIC_SELECTOR: Bytes := [0x4e, 0x48, 0x7b, 0x71]

  // ------------------------------------------------------------------------- hex

  function HexPair(b: byte): string {
    [HexChar(b / 16), HexChar(b % 16)]
  }

  function BytesToHex(bs: Bytes): string {
    if bs == [] then "" else HexPair(bs[0]) + BytesToHex(bs[1..])
  }

  /** `hex::decode` */
  function HexDecode(s: string): Option<Bytes> {
    if s == "" then Some([])
    else if |s| == 1 then None
    else
      var hi, lo, rest := HexDigit(s[0]), HexDigit(s[1]), HexDecode(s[2..]);
      if hi.None? || lo.None? || rest.None? then None
      else Some([ByteOf(hi.value, lo.value)] + rest.value)
  }

  function ByteOf(hi: nat, lo: nat): byte {
    (hi * 16 + lo) % 256
  }

  lemma HexPairRoundTrip(b: byte)
    ensures HexDigit(HexChar(b / 16)) == Some((b / 16) as nat) && HexDigit(HexChar(b % 16)) == Some((b % 16) as nat)
    ensures ByteOf(b / 16, b % 16) == b
  {
  }

  lemma {:induction false} HexRoundTrip(bs: Bytes)
    ensures HexDecode(BytesToHex(bs)) == Some(bs)
  {
    if bs != [] {
      HexRoundTrip(bs[1..]);
      HexStep(bs[0], BytesToHex(bs[1..]), bs[1..]);
      assert [bs[0]] + bs[1..] == bs;
    }
  }

  lemma HexStep(b: byte, text: string, rest: Bytes)
    requires HexDecode(text) == Some(rest)
    ensures HexDecode(HexPair(b) + text) == Some([b] + rest)
  {
    var s := HexPair(b) + text;
    HexPairRoundTrip(b);
    assert |s| >= 2 && s[0] == HexChar(b / 16) && s[1] == HexChar(b % 16);
    assert s[2..] == text;
  }

  // -------------------------------------------------------------- big-endian words

  function BigEndian(n: nat, width: nat): (r: Bytes)
    ensures |r| == width
  {
    if width == 0 then [] else BigEndian(n / 256, width - 1) + [n % 256]
  }

  function FromBigEndian(bs: Bytes): nat {
    if bs == [] then 0 else FromBigEndian(bs[..|bs| - 1]) * 256 + bs[|bs| - 1]
  }

  function Power256(width: nat): nat {
    if width == 0 then 1 else 256 * Power256(width - 1)
  }

  lemma {:induction false} BigEndianRoundTrip(n: nat, width: nat)
    requires n < Power256(width)
    ensures FromBigEndian(BigEndian(n, width)) == n
  {
    if width > 0 {
      BigEndianRoundTrip(n / 256, width - 1);
      var bs := BigEndian(n, width);
      assert bs[..|bs| - 1] == BigEndian(n / 256, width - 1);
    }
  }

  /** The low bytes of a wide word are the narrow word. */
  lemma {:induction false} LowBytes(n: nat, width: nat, low: nat)
    requires low <= width
    ensures BigEndian(n, width)[width - low..] == BigEndian(n, low)
  {
    if low > 0 {
      LowBytes(n / 256, width - 1, low - 1);
      var wide := BigEndian(n / 256, width - 1);
      assert BigEndian(n, width)[width - low..] == wide[width - low..] + [n % 256];
    }
  }

  lemma Power256Of8()
    ensures Power256(8) == U64_LIMIT
  {
    assert Power256(4) == 0x1_0000_0000;
    assert Power256(8) == 256 * (256 * (256 * (256 * Power256(4))));
  }

  // --------------------------------------------------------------------- decoding

  /** The offset word is skipped and only the low 8 bytes of the length word are read. */
  function DecodeAbiString(data: Bytes): Decoded {
    if |data| < 64 then Err(TooShort)
    else
      var len := FromBigEndian(data[56..64]);
      if 64 + len >= U64_LIMIT then Err(LengthOverflows)
      else if 64 + len > |data| then Err(LengthExceedsData)
      else Ok(Message(data[64..64 + len]))
  }

  function DecodeRevertReason(output: Bytes): Decoded {
    if |output| < 4 then Ok(Dump("0x" + BytesToHex(output)))
    else if output[..4] == ERROR_SELECTOR then DecodeAbiString(output[4..])
    else if output[..4] == PANIC_SELECTOR && |output| >= 36 then Ok(Dump("Panic(0x" + HexPair(output[35]) + ")"))
    else Ok(Dump("0x" + BytesToHex(output)))
  }

  /** The canonical encoding of `Error(string)`. */
  function EncodeError(message: Bytes): Bytes {
    ERROR_SELECTOR + (BigEndian(32, 32) + BigEndian(|message|, 32) + message + Padding(message))
  }

  function Padding(message: Bytes): Bytes {
    seq((32 - |message| % 32) % 32, _ => 0)
  }

  /** The low eight bytes of the length word give back any 64-bit length. */
  lemma LengthWord(len: nat)
    requires len < U64_LIMIT
    ensures FromBigEndian(BigEndian(len, 32)[24..]) == len
  {
    LowBytes(len, 32, 8);
    Power256Of8();
    BigEndianRoundTrip(len, 8);
  }

  lemma PayloadSlices(offset: Bytes, word: Bytes, message: Bytes, tail: Bytes)
    requires |offset| == 32 && |word| == 32
    ensures (offset + word + message + tail)[56..64] == word[24..]
    ensures (offset + word + message + tail)[64..64 + |message|] == message
  {
  }

  /** Any string payload of a length below the overflow bound decodes to exactly its bytes,
      whatever the offset word says and whatever follows. */
  lemma AbiStringRoundTrip(offset: Bytes, message: Bytes, tail: Bytes)
    requires |offset| == 32 && |message| < U64_LIMIT - 64
    ensures DecodeAbiString(offset + BigEndian(|message|, 32) + message + tail) == Ok(Message(message))
  {
    PayloadSlices(offset, BigEndian(|message|, 32), message, tail);
    LengthWord(|message|);
  }

  lemma SelectorComesFirst(selector: Bytes, payload: Bytes)
    requires |selector| == 4
    ensures (selector + payload)[..4] == selector && (selector + payload)[4..] == payload
  {
  }

  lemma ErrorRoundTrip(message: Bytes)
    requires |message| < U64_LIMIT - 64
    ensures DecodeRevertReason(EncodeError(message)) == Ok(Message(message))
  {
    var payload := BigEndian(32, 32) + BigEndian(|message|, 32) + message + Padding(message);
    SelectorComesFirst(ERROR_SELECTOR, payload);
    AbiStringRoundTrip(BigEndian(32, 32), message, Padding(message));
  }

  // ------------------------------------------------------------ the overflow case

  lemma {:induction false} FromBigEndianBound(bs: Bytes)
    ensures FromBigEndian(bs) < Power256(|bs|)
  {
    if bs != [] {
      FromBigEndianBound(bs[..|bs| - 1]);
    }
  }

  /** A word reaches the top 64 values of its width exactly when all bytes but the last are
      0xff and the last is at least 0xc0. */
  lemma {:induction false} TopWords(bs: Bytes)
    requires bs != []
    ensures FromBigEndian(bs) >= Power256(|bs|) - 64 <==>
            (forall i | 0 <= i < |bs| - 1 :: bs[i] == 0xff) && bs[|bs| - 1] >= 0xc0
  {
    var init, last := bs[..|bs| - 1], bs[|bs| - 1];
    AllOnes(init);
    FromBigEndianBound(init);
    assert forall i | 0 <= i < |init| :: init[i] == bs[i];
    assert FromBigEndian(bs) == FromBigEndian(init) * 256 + last;
    assert Power256(|bs|) == 256 * Power256(|init|);
  }

  lemma {:induction false} AllOnes(bs: Bytes)
    ensures FromBigEndian(bs) == Power256(|bs|) - 1 <==> forall i | 0 <= i < |bs| :: bs[i] == 0xff
  {
    if bs != [] {
      var init, last := bs[..|bs| - 1], bs[|bs| - 1];
      AllOnes(init);
      FromBigEndianBound(init);
      assert forall i | 0 <= i < |init| :: init[i] == bs[i];
      assert FromBigEndian(bs) == FromBigEndian(init) * 256 + last;
      assert Power256(|bs|) == 256 * Power256(|init|);
    }
  }

  /** The revert data that makes the decoder panic: an `Error(string)` whose length word ends
      in seven 0xff bytes and a byte of at least 0xc0. */
  predicate PanicBytes(output: Bytes) {
    && |output| >= 68
    && output[..4] == ERROR_SELECTOR
    && (forall i | 60 <= i < 67 :: output[i] == 0xff)
    && output[67] >= 0xc0
  }

  /** Decoding leaves the integer range for exactly this data. */
  lemma OverflowExactlyWhen(output: Bytes)
    ensures DecodeRevertReason(output) == Err(LengthOverflows) <==> PanicBytes(output)
  {
    if |output| >= 68 {
      var word := output[4..][56..64];
      assert forall i | 0 <= i < 8 :: word[i] == output[60 + i];
      TopWords(word);
      Power256Of8();
      if forall i | 60 <= i < 67 :: output[i] == 0xff {
        forall i | 0 <= i < 7 ensures word[i] == 0xff { assert word[i] == output[60 + i]; }
      }
      if forall i | 0 <= i < 7 :: word[i] == 0xff {
        forall i | 60 <= i < 67 ensures output[i] == 0xff { assert output[i] == word[i - 60]; }
      }
    }
  }

  // --------------------------------------------------- everything else is unknown

  /** The text of a reason; a message's bytes are read as ASCII. */
  function TextOf(r: Reason): string {
    match r
    case Dump(text) => text
    case Message(bs) => seq(|bs|, i requires 0 <= i < |bs| => bs[i] as char)
  }

  lemma {:induction false} HexIsDump(bs: Bytes)
    ensures DumpText(BytesToHex(bs))
  {
    if bs != [] {
      HexIsDump(bs[1..]);
      var s := BytesToHex(bs);
      assert s == HexPair(bs[0]) + BytesToHex(bs[1..]);
    }
  }

  lemma LowerOfDump(s: string)
    requires DumpText(s) || (s != "" && s[0] == 'P' && DumpText(s[1..]))
    ensures DumpText(Lower(s))
  {
    var t := Lower(s);
    forall i | 0 <= i < |t| ensures DumpChar(t[i]) {
      assert t[i] == LowerChar(s[i]);
      if i > 0 { assert s[1..][i - 1] == s[i]; }
    }
  }

  /** An output that is too short for a selector or has another selector than `Error(string)`
      always decodes, to a text that is classified UNKNOWN. */
  lemma OtherOutputsAreUnknown(output: Bytes)
    requires |output| < 4 || output[..4] != ERROR_SELECTOR
    ensures DecodeRevertReason(output).Ok? && DecodeRevertReason(output).reason.Dump?
    ensures ClassifyError(TextOf(DecodeRevertReason(output).reason)) == "UNKNOWN"
  {
    var text := TextOf(DecodeRevertReason(output).reason);
    HexIsDump(output);
    if text[0] == 'P' {
      var pair := HexPair(output[35]);
      assert text == "Panic(0x" + pair + ")";
      assert text[1..] == "anic(0x" + pair + ")";
    }
    LowerOfDump(text);
    DumpsAreUnknown(text);
  }

  /** What becomes of a failed transaction while its trace is processed: a category, or a
      panic of the task that processes its block. */
  datatype RootOutcome = Category(name: string) | Panics

  /** The category of a failed transaction, from its root frame's output text. */
  function RootCategory(output: Option<string>): RootOutcome {
    var bytes := if output.None? then None else HexDecode(StripHexPrefix(output.value));
    if bytes.None? then Category("UNKNOWN")
    else
      match DecodeRevertReason(bytes.value)
      case Ok(reason) => Category(ClassifyError(TextOf(reason)))
      case Err(LengthOverflows) => Panics
      case Err(_) => Category("UNKNOWN")
  }

  /** The text of the reason, if the output has one, contains a zero character. */
  predicate ZeroInReason(output: Option<string>) {
    && output.Some?
    && HexDecode(StripHexPrefix(output.value)).Some?
    && var d := DecodeRevertReason(HexDecode(StripHexPrefix(output.value)).value);
    && d.Ok? && 0 as char in TextOf(d.reason)
  }

  /** The lossy conversion keeps zero bytes and makes no others, so a message of any bytes
      shows one exactly if it has one. */
  lemma ZeroOfError(message: Bytes)
    requires |message| < U64_LIMIT - 64
    ensures ZeroInReason(Some("0x" + BytesToHex(EncodeError(message)))) <==> 0 in message
  {
    HexTextIsRead(EncodeError(message));
    ErrorRoundTrip(message);
    var text := TextOf(Message(message));
    if 0 in message {
      var i :| 0 <= i < |message| && message[i] == 0;
      assert text[i] == 0 as char;
    }
    if 0 as char in text {
      var i :| 0 <= i < |text| && text[i] == 0 as char;
      assert message[i] == 0;
    }
  }

  /** The five names that the stored enum knows; the classifier's other names are lost. */
  function StoredCategory(name: string): string {
    if name == "INSUFFICIENT_BALANCE" || name == "SLIPPAGE_EXCEEDED" || name == "DEADLINE_EXPIRED"
       || name == "UNAUTHORIZED" || name == "TRANSFER_FAILED" then name
    else "UNKNOWN"
  }

  /** Exactly the five names survive, and everything else becomes UNKNOWN. */
  lemma FiveNamesSurvive(name: string)
    ensures StoredCategory(name) == name <==>
            name in ["INSUFFICIENT_BALANCE", "SLIPPAGE_EXCEEDED", "DEADLINE_EXPIRED", "UNAUTHORIZED",
                     "TRANSFER_FAILED", "UNKNOWN"]
    ensures StoredCategory(name) != name ==> StoredCategory(name) == "UNKNOWN"
  {
  }

  /** The output text of a root frame that makes the task panic: hex of panic bytes, with or
      without the prefix. */
  predicate PanicText(output: Option<string>) {
    && output.Some?
    && HexDecode(StripHexPrefix(output.value)).Some?
    && PanicBytes(HexDecode(StripHexPrefix(output.value)).value)
  }

  lemma PanicsExactlyWhen(output: Option<string>)
    ensures RootCategory(output) == Panics <==> PanicText(output)
  {
    if output.Some? && HexDecode(StripHexPrefix(output.value)).Some? {
      OverflowExactlyWhen(HexDecode(StripHexPrefix(output.value)).value);
    }
  }

  /** No output, output that is no hex, and an `Error(string)` without its whole text have no
      reason and are UNKNOWN. */
  lemma UndecodableIsUnknown(output: Option<string>)
    ensures output.None? ==> RootCategory(output) == Category("UNKNOWN")
    ensures output.Some? && HexDecode(StripHexPrefix(output.value)).None?
            ==> RootCategory(output) == Category("UNKNOWN")
    ensures output.Some? && HexDecode(StripHexPrefix(output.value)).Some?
            && DecodeRevertReason(HexDecode(StripHexPrefix(output.value)).value).Err?
            ==> RootCategory(output) == (if PanicText(output) then Panics else Category("UNKNOWN"))
  {
    PanicsExactlyWhen(output);
  }

  /** An `Error(string)` is refused exactly if it is shorter than its two words or its text
      ends before its length. */
  lemma ErrorIsWholeIff(data: Bytes)
    ensures DecodeAbiString(data).Ok? <==> |data| >= 64 && 64 + FromBigEndian(data[56..64]) < U64_LIMIT
                                           && 64 + FromBigEndian(data[56..64]) <= |data|
    ensures DecodeAbiString(data).Ok? ==>
              DecodeAbiString(data).reason == Message(data[64..64 + FromBigEndian(data[56..64])])
  {
  }

  /** The trace carries revert data as 0x-prefixed hex: reading it back loses nothing. */
  lemma HexTextIsRead(output: Bytes)
    ensures HexDecode(StripHexPrefix("0x" + BytesToHex(output))) == Some(output)
  {
    var t := "0x" + BytesToHex(output);
    assert t[..2] == "0x" && t[2..] == BytesToHex(output);
    assert StripHexPrefix(t) == BytesToHex(output);
    HexRoundTrip(output);
  }

  /** Sixty-eight bytes that any contract can return. */
  function ShortestPanic(): Bytes {
    ERROR_SELECTOR + seq(56, _ => 0) + seq(7, _ => 0xff) + [0xc0]
  }

  /** On them the task panics, and on the next smaller length it does not. */
  lemma ShortestPanicPanics()
    ensures |ShortestPanic()| == 68
    ensures RootCategory(Some("0x" + BytesToHex(ShortestPanic()))) == Panics
    ensures RootCategory(Some("0x" + BytesToHex(ShortestPanic()[67 := 0xbf]))) != Panics
  {
    ShortestPanicBytes();
    PanicsOfHex(ShortestPanic());
    PanicsOfHex(ShortestPanic()[67 := 0xbf]);
  }

  lemma ShortestPanicBytes()
    ensures |ShortestPanic()| == 68
    ensures PanicBytes(ShortestPanic()) && !PanicBytes(ShortestPanic()[67 := 0xbf])
  {
    var panic := ShortestPanic();
    assert panic[..4] == ERROR_SELECTOR && panic[67] == 0xc0;
    assert panic[67 := 0xbf][67] == 0xbf;
  }

  lemma PanicsOfHex(output: Bytes)
    ensures RootCategory(Some("0x" + BytesToHex(output))) == Panics <==> PanicBytes(output)
  {
    HexTextIsRead(output);
    PanicsExactlyWhen(Some("0x" + BytesToHex(output)));
  }

  /** From the chain's bytes to the category: a reverted message is classified by its own
      text. */
  lemma CategoryOfError(message: Bytes)
    requires |message| < U64_LIMIT - 64
    ensures RootCategory(Some("0x" + BytesToHex(EncodeError(message))))
            == Category(ClassifyError(TextOf(Message(message))))
  {
    HexTextIsRead(EncodeError(message));
    ErrorRoundTrip(message);
  }

  /** The bytes of an ASCII text. */
  function AsciiBytes(text: string): (bytes: Bytes)
    requires forall i | 0 <= i < |text| :: text[i] < 128 as char
    ensures |bytes| == |text|
  {
    if text == "" then [] else [text[0] as int] + AsciiBytes(text[1..])
  }

  lemma {:induction false} AsciiBytesAt(text: string, i: nat)
    requires (forall k | 0 <= k < |text| :: text[k] < 128 as char) && i < |text|
    ensures AsciiBytes(text)[i] == text[i] as int
  {
    if i > 0 {
      AsciiBytesAt(text[1..], i - 1);
    }
  }

  lemma TextOfAscii(text: string)
    requires forall i | 0 <= i < |text| :: text[i] < 128 as char
    ensures TextOf(Message(AsciiBytes(text))) == text
  {
    forall i | 0 <= i < |text| ensures TextOf(Message(AsciiBytes(text)))[i] == text[i] {
      AsciiBytesAt(text, i);
    }
  }

  /** What a root frame that carries `Error(text)` is stored as. */
  function StoredAs(text: string): string
    requires forall i | 0 <= i < |text| :: text[i] < 128 as char
  {
    match RootCategory(Some("0x" + BytesToHex(EncodeError(AsciiBytes(text)))))
    case Category(name) => StoredCategory(name)
    case Panics => ""
  }

  /** An ASCII message is classified by its own text and stored under the name that survives. */
  lemma StoredAsClassified(text: string)
    requires (forall i | 0 <= i < |text| :: text[i] < 128 as char) && |text| < U64_LIMIT - 64
    ensures StoredAs(text) == StoredCategory(ClassifyError(text))
  {
    CategoryOfError(AsciiBytes(text));
    TextOfAscii(text);
  }

  /** A transfer helper's "STF" is stored as a balance failure. */
  lemma StfIsStored(text: string)
    requires text == "STF"
    ensures StoredAs(text) == "INSUFFICIENT_BALANCE"
  {
    LowerOfThree(text, "stf");
    StfReason(text);
    StoredAsClassified(text);
  }

  /** A missing allowance, which the classifier recognises, is stored as UNKNOWN. */
  lemma AllowanceIsLost(text: string)
    requires (forall i | 0 <= i < |text| :: text[i] < 128 as char) && |text| < U64_LIMIT - 64
    requires Says(text, "allowance")
    ensures ClassifyError(text) == "INSUFFICIENT_ALLOWANCE" && StoredAs(text) == "UNKNOWN"
  {
    FirstRules(text);
    StoredAsClassified(text);
  }

  /** Revert data that is neither an error nor a whole panic is shown as its own bytes. */
  lemma OtherOutputsAreDumped(output: Bytes) returns (digits: string)
    requires |output| < 4 || output[..4] != ERROR_SELECTOR
    requires |output| < 36 || output[..4] != PANIC_SELECTOR
    ensures DecodeRevertReason(output) == Ok(Dump("0x" + digits))
    ensures HexDecode(digits) == Some(output)
  {
    digits := BytesToHex(output);
    HexRoundTrip(output);
  }

  /** The code of a Solidity panic, `Panic(uint256)`, is shown as two hex digits. */
  lemma PanicCodeIsShown(word: Bytes, rest: Bytes) returns (digits: string)
    requires |word| == 32
    ensures DecodeRevertReason(PANIC_SELECTOR + (word + rest)) == Ok(Dump("Panic(0x" + digits + ")"))
    ensures |digits| == 2 && HexDecode(digits) == Some([word[31]])
  {
    var output := PANIC_SELECTOR + (word + rest);
    SelectorComesFirst(PANIC_SELECTOR, word + rest);
    digits := HexPair(word[31]);
    assert output[35] == word[31];
    OneByteHex(word[31]);
    SelectorsDiffer();
  }

  lemma SelectorsDiffer()
    ensures PANIC_SELECTOR != ERROR_SELECTOR
  {
    assert PANIC_SELECTOR[0] != ERROR_SELECTOR[0];
  }

  lemma OneByteHex(b: byte)
    ensures HexDecode(HexPair(b)) == Some([b])
  {
    HexStep(b, "", []);
    assert HexPair(b) + "" == HexPair(b) && [b] + [] == [b];
  }

  /** From the chain's bytes to the category: other revert data is UNKNOWN. */
  lemma CategoryOfOtherData(output: Bytes)
    requires |output| < 4 || output[..4] != ERROR_SELECTOR
    ensures RootCategory(Some("0x" + BytesToHex(output))) == Category("UNKNOWN")
  {
    HexTextIsRead(output);
    OtherOutputsAreUnknown(output);
  }
}
