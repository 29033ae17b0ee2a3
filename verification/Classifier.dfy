/** `classify_error`: an ordered list of substring tests on the lower-cased reason. Lower
    casing is modelled on ASCII letters. */
module Classifier {
  import opened TraceJson

  predicate OccursAt(text: string, i: nat, needle: string) {
    i + |needle| <= |text| && text[i..i + |needle|] == needle
  }

  /** `str::contains` */
  predicate Contains(text: string, needle: string) {
    exists i :: 0 <= i <= |text| && OccursAt(text, i, needle)
  }

  /** The substring tests in the order of the source. */
  function ClassifyError(reason: string): string {
    var lower := Lower(reason);
    if Contains(lower, "allowance") then "INSUFFICIENT_ALLOWANCE"
    else if Contains(lower, "return amount is not enough") || Contains(lower, "min return") then "SLIPPAGE_AMOUNT_OUT"
    else if Contains(lower, "stf") || Contains(lower, "insufficient") || Contains(lower, "balance")
            || Contains(lower, "exceeds balance") || Contains(lower, "not enough") then "INSUFFICIENT_BALANCE"
    else if Contains(lower, "too little received") then "SLIPPAGE_AMOUNT_OUT"
    else if Contains(lower, "too much requested") then "SLIPPAGE_AMOUNT_IN"
    else if Contains(lower, "price slipped") || Contains(lower, "amount out") then "SLIPPAGE_PRICE_IMPACT"
    else if Contains(lower, "slippage") then "SLIPPAGE_EXCEEDED"
    else if Contains(lower, "deadline") || Contains(lower, "too old") || Contains(lower, "expired")
            || Contains(lower, "transaction too old") then "DEADLINE_EXPIRED"
    else if Contains(lower, "unauthorized") || Contains(lower, "ownable") || Contains(lower, "not owner")
            || Contains(lower, "forbidden") || Contains(lower, "access denied") then "UNAUTHORIZED"
    else if Contains(lower, "transfer failed") || Contains(lower, "transfer_failed")
            || Contains(lower, "transfer_from_failed") || Contains(lower, "transfer from failed")
            || Contains(lower, "safe transfer") || Contains(lower, "safetransferfrom") then "TRANSFER_FAILED"
    else "UNKNOWN"
  }

  // -------------------------------------------------------------------- the rules

  /** The reason contains the needle, whatever the letter case. */
  predicate Says(reason: string, needle: string) {
    Contains(Lower(reason), needle)
  }

  predicate SaysBalance(reason: string) {
    Says(reason, "stf") || Says(reason, "insufficient") || Says(reason, "balance")
    || Says(reason, "exceeds balance") || Says(reason, "not enough")
  }

  predicate SaysAggregator(reason: string) {
    Says(reason, "return amount is not enough") || Says(reason, "min return")
  }

  predicate SaysDeadline(reason: string) {
    Says(reason, "deadline") || Says(reason, "too old") || Says(reason, "expired")
    || Says(reason, "transaction too old")
  }

  predicate SaysUnauthorized(reason: string) {
    Says(reason, "unauthorized") || Says(reason, "ownable") || Says(reason, "not owner")
    || Says(reason, "forbidden") || Says(reason, "access denied")
  }

  predicate SaysTransfer(reason: string) {
    Says(reason, "transfer failed") || Says(reason, "transfer_failed") || Says(reason, "transfer_from_failed")
    || Says(reason, "transfer from failed") || Says(reason, "safe transfer") || Says(reason, "safetransferfrom")
  }

  /** None of the rules down to the balance rule applies. */
  predicate PastBalance(reason: string) {
    !Says(reason, "allowance") && !SaysAggregator(reason) && !SaysBalance(reason)
  }

  /** None of the slippage rules applies either. */
  predicate PastSlippage(reason: string) {
    && PastBalance(reason) && !Says(reason, "too little received") && !Says(reason, "too much requested")
    && !Says(reason, "price slipped") && !Says(reason, "amount out") && !Says(reason, "slippage")
  }

  /** When each category is given, in both directions: the first rules. */
  lemma FirstRules(reason: string)
    ensures ClassifyError(reason) == "INSUFFICIENT_ALLOWANCE" <==> Says(reason, "allowance")
    ensures ClassifyError(reason) == "INSUFFICIENT_BALANCE" <==>
            SaysBalance(reason) && !Says(reason, "allowance") && !SaysAggregator(reason)
  {
  }

  /** The slippage rules. */
  lemma SlippageRules(reason: string)
    ensures ClassifyError(reason) == "SLIPPAGE_AMOUNT_OUT" <==>
            || (SaysAggregator(reason) && !Says(reason, "allowance"))
            || (Says(reason, "too little received") && PastBalance(reason))
    ensures ClassifyError(reason) == "SLIPPAGE_AMOUNT_IN" <==>
            Says(reason, "too much requested") && !Says(reason, "too little received") && PastBalance(reason)
    ensures ClassifyError(reason) == "SLIPPAGE_PRICE_IMPACT" <==>
            && (Says(reason, "price slipped") || Says(reason, "amount out"))
            && !Says(reason, "too much requested") && !Says(reason, "too little received") && PastBalance(reason)
    ensures ClassifyError(reason) == "SLIPPAGE_EXCEEDED" <==>
            && Says(reason, "slippage") && !Says(reason, "price slipped") && !Says(reason, "amount out")
            && !Says(reason, "too much requested") && !Says(reason, "too little received") && PastBalance(reason)
  {
  }

  /** The last rules, and UNKNOWN exactly for a reason without any needle. */
  lemma LastRules(reason: string)
    ensures ClassifyError(reason) == "DEADLINE_EXPIRED" <==> SaysDeadline(reason) && PastSlippage(reason)
    ensures ClassifyError(reason) == "UNAUTHORIZED" <==>
            SaysUnauthorized(reason) && !SaysDeadline(reason) && PastSlippage(reason)
    ensures ClassifyError(reason) == "TRANSFER_FAILED" <==>
            SaysTransfer(reason) && !SaysUnauthorized(reason) && !SaysDeadline(reason) && PastSlippage(reason)
    ensures ClassifyError(reason) == "UNKNOWN" <==>
            !SaysTransfer(reason) && !SaysUnauthorized(reason) && !SaysDeadline(reason) && PastSlippage(reason)
  {
  }

  /** A needle between any two texts is found. */
  lemma ContainsBetween(before: string, needle: string, after: string)
    ensures Contains(before + needle + after, needle)
  {
    assert OccursAt(before + needle + after, |before|, needle);
  }

  /** A text is found nowhere in a shorter one. */
  lemma ShorterContainsNot(text: string, needle: string)
    requires |text| < |needle|
    ensures !Contains(text, needle)
  {
  }

  lemma LowerOfAppend(a: string, b: string)
    ensures Lower(a + b) == Lower(a) + Lower(b)
  {
  }

  /** Any reason that contains "allowance" is given that category, whatever surrounds it. */
  lemma AllowanceAnywhere(before: string, after: string)
    ensures ClassifyError(before + "allowance" + after) == "INSUFFICIENT_ALLOWANCE"
  {
    SaysAnywhere(before, "allowance", after);
    FirstRules(before + "allowance" + after);
  }

  lemma SaysAnywhere(before: string, needle: string, after: string)
    requires forall i | 0 <= i < |needle| :: !('A' <= needle[i] <= 'Z')
    ensures Says(before + needle + after, needle)
  {
    LowerIsFixed(needle);
    LowerOfAppend(before + needle, after);
    LowerOfAppend(before, needle);
    ContainsBetween(Lower(before), needle, Lower(after));
  }

  /** The three letters of the router's transfer helper, in any case. */
  lemma StfReason(reason: string)
    requires Lower(reason) == "stf"
    ensures ClassifyError(reason) == "INSUFFICIENT_BALANCE"
  {
    assert OccursAt(Lower(reason), 0, "stf");
    ShorterContainsNot(Lower(reason), "allowance");
    ShorterContainsNot(Lower(reason), "return amount is not enough");
    ShorterContainsNot(Lower(reason), "min return");
    FirstRules(reason);
  }

  lemma LowerOfThree(s: string, t: string)
    requires |s| == |t| == 3 && t[0] == LowerChar(s[0]) && t[1] == LowerChar(s[1]) && t[2] == LowerChar(s[2])
    ensures Lower(s) == t
  {
  }

  // ------------------------------------------------------------ dumps match no rule

  /** Every character of a contained needle occurs in the text. */
  lemma ContainedCharOccurs(text: string, needle: string, k: nat)
    requires Contains(text, needle) && k < |needle|
    ensures needle[k] in text
  {
    var i :| 0 <= i <= |text| && OccursAt(text, i, needle);
    assert text[i..i + |needle|][k] == text[i + k];
  }

  /** The characters of hex dumps and panic codes once lower-cased. */
  predicate DumpChar(c: char) {
    '0' <= c <= '9' || 'a' <= c <= 'f' || c == 'x' || c == 'p' || c == 'n' || c == 'i' || c == '(' || c == ')'
  }

  predicate DumpText(s: string) {
    forall i | 0 <= i < |s| :: DumpChar(s[i])
  }

  /** A needle with a character that no dump has cannot occur in a dump. */
  lemma NeedleNotInDump(text: string, needle: string, i: nat)
    requires DumpText(text) && i < |needle| && !DumpChar(needle[i])
    ensures !Contains(text, needle)
  {
    if Contains(text, needle) {
      ContainedCharOccurs(text, needle, i);
    }
  }

  /** No dump text is classified: every needle of every rule has a foreign character. */
  lemma DumpsAreUnknown(reason: string)
    requires DumpText(Lower(reason))
    ensures ClassifyError(reason) == "UNKNOWN"
  {
    var t := Lower(reason);
    NeedleNotInDump(t, "allowance", 1);
    NeedleNotInDump(t, "return amount is not enough", 0);
    NeedleNotInDump(t, "min return", 0);
    NeedleNotInDump(t, "stf", 0);
    NeedleNotInDump(t, "insufficient", 2);
    NeedleNotInDump(t, "balance", 2);
    NeedleNotInDump(t, "exceeds balance", 6);
    NeedleNotInDump(t, "not enough", 1);
    NeedleNotInDump(t, "too little received", 0);
    NeedleNotInDump(t, "too much requested", 0);
    NeedleNotInDump(t, "price slipped", 1);
    NeedleNotInDump(t, "amount out", 1);
    NeedleNotInDump(t, "slippage", 0);
    DumpsNotLaterRules(t);
  }

  lemma DumpsNotLaterRules(t: string)
    requires DumpText(t)
    ensures !Contains(t, "deadline") && !Contains(t, "too old") && !Contains(t, "expired")
            && !Contains(t, "transaction too old")
    ensures !Contains(t, "unauthorized") && !Contains(t, "ownable") && !Contains(t, "not owner")
            && !Contains(t, "forbidden") && !Contains(t, "access denied")
    ensures !Contains(t, "transfer failed") && !Contains(t, "transfer_failed") && !Contains(t, "transfer_from_failed")
            && !Contains(t, "transfer from failed") && !Contains(t, "safe transfer") && !Contains(t, "safetransferfrom")
  {
    NeedleNotInDump(t, "deadline", 4);
    NeedleNotInDump(t, "too old", 0);
    NeedleNotInDump(t, "expired", 4);
    NeedleNotInDump(t, "transaction too old", 0);
    NeedleNotInDump(t, "unauthorized", 0);
    NeedleNotInDump(t, "ownable", 0);
    NeedleNotInDump(t, "not owner", 1);
    NeedleNotInDump(t, "forbidden", 1);
    NeedleNotInDump(t, "access denied", 4);
    NeedleNotInDump(t, "transfer failed", 0);
    NeedleNotInDump(t, "transfer_failed", 0);
    NeedleNotInDump(t, "transfer_from_failed", 0);
    NeedleNotInDump(t, "transfer from failed", 0);
    NeedleNotInDump(t, "safe transfer", 0);
    NeedleNotInDump(t, "safetransferfrom", 0);
  }
}
