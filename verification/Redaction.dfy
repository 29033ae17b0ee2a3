/** `redact_urls`: what an error text keeps before it is stored in the alert ledger. */
module Redaction {
  import opened Options
  import opened Classifier

  const MARK: string := "<redacted-url>"
  const HTTPS: string := "https://"
  const HTTP: string := "http://"
  const ERROR_CAP: nat := 500

  /** `char::is_ascii_whitespace` */
  predicate IsSpace(c: char) {
    c == ' ' || c == '\t' || c == '\n' || c == '\r' || c == 12 as char
  }

  /** Exactly the five blanks of ASCII end a URL. */
  lemma FiveBlanks(c: char)
    ensures IsSpace(c) <==> c as int in {9, 10, 12, 13, 32}
  {
  }

  predicate NoSpace(s: string) {
    forall i | 0 <= i < |s| :: !IsSpace(s[i])
  }

  /** The text starts with one of the two schemes. */
  predicate StartsUrl(s: string) {
    && |s| >= 7 && s[0] == 'h' && s[1] == 't' && s[2] == 't' && s[3] == 'p'
    && if s[4] == 's' then |s| >= 8 && s[5] == ':' && s[6] == '/' && s[7] == '/'
       else s[4] == ':' && s[5] == '/' && s[6] == '/'
  }

  lemma StartsUrlIff(s: string)
    ensures StartsUrl(s) <==> HTTPS <= s || HTTP <= s
  {
  }

  /** Nowhere in the text does a scheme start. */
  predicate NoScheme(s: string) {
    s == "" || (!StartsUrl(s) && NoScheme(s[1..]))
  }

  /** Up to the first whitespace, or the end of the text. */
  function UrlLength(s: string): (n: nat)
    ensures n <= |s|
  {
    if s == "" || IsSpace(s[0]) then 0 else 1 + UrlLength(s[1..])
  }

  /** The reading character by character: a scheme swallows the text up to the next
      whitespace, every other character is kept. */
  function Redacted(s: string): string
    decreases |s|
  {
    if s == "" then ""
    else if StartsUrl(s) then
      UrlIsNotEmpty(s);
      MARK + Redacted(s[UrlLength(s)..])
    else [s[0]] + Redacted(s[1..])
  }

  lemma UrlIsNotEmpty(s: string)
    requires StartsUrl(s)
    ensures s != "" && s[0] == 'h' && UrlLength(s) > 0
  {
  }

  // --------------------------------------------------------------------- the loop

  /** `str::find` with a string pattern. */
  function Find(s: string, needle: string): (r: Option<nat>)
    ensures r.Some? ==> r.value <= |s| && needle <= s[r.value..]
  {
    if needle <= s then Some(0)
    else if s == "" then None
    else
      var r := Find(s[1..], needle);
      if r.None? then None else assert s[1..][r.value..] == s[r.value + 1..]; Some(r.value + 1)
  }

  predicate StartsNoneBefore(s: string, needle: string, n: nat)
    requires n <= |s|
  {
    forall k | 0 <= k < n :: !(needle <= s[k..])
  }

  lemma {:induction false} FindIsFirst(s: string, needle: string)
    ensures StartsNoneBefore(s, needle, if Find(s, needle).Some? then Find(s, needle).value else |s|)
  {
    if !(needle <= s) && s != "" {
      FindIsFirst(s[1..], needle);
      assert forall k | 1 <= k <= |s| :: s[k..] == s[1..][k - 1..];
    }
  }

  /** No URL starts before n. */
  predicate PlainUpTo(s: string, n: nat)
    requires n <= |s|
  {
    forall k | 0 <= k < n :: !StartsUrl(s[k..])
  }

  /** Text before the first scheme is copied. */
  lemma {:induction false} PlainPrefixIsKept(s: string, n: nat)
    requires n <= |s| && PlainUpTo(s, n)
    ensures Redacted(s) == s[..n] + Redacted(s[n..])
  {
    if n > 0 {
      PlainUpToTail(s, n);
      PlainPrefixIsKept(s[1..], n - 1);
      assert s[1..][n - 1..] == s[n..];
      RedactedKeepsFirst(s);
      PutFirst(s, n, Redacted(s[1..]), Redacted(s[n..]));
    } else {
      assert s[n..] == s;
    }
  }

  lemma {:induction false} RedactedKeepsFirst(s: string)
    requires s != "" && !StartsUrl(s)
    ensures Redacted(s) == [s[0]] + Redacted(s[1..])
  {
  }

  lemma PutFirst(s: string, n: nat, r: string, t: string)
    requires 0 < n <= |s| && r == s[1..][..n - 1] + t
    ensures [s[0]] + r == s[..n] + t
  {
    assert s[..n] == [s[0]] + s[1..][..n - 1];
  }

  lemma PlainUpToTail(s: string, n: nat)
    requires 0 < n <= |s| && PlainUpTo(s, n)
    ensures !StartsUrl(s) && PlainUpTo(s[1..], n - 1)
  {
    assert s[0..] == s;
    forall k | 0 <= k < n - 1 ensures !StartsUrl(s[1..][k..]) {
      assert s[1..][k..] == s[k + 1..];
    }
  }

  /** One pass over the two schemes: the earlier of their first positions. */
  method NextScheme(rest: string) returns (next: Option<nat>)
    ensures next.Some? ==> next.value <= |rest| && StartsUrl(rest[next.value..])
    ensures PlainUpTo(rest, if next.Some? then next.value else |rest|)
  {
    var schemes := [HTTPS, HTTP];
    next := None;
    for i := 0 to 2
      invariant next.Some? ==> next.value <= |rest| && StartsUrl(rest[next.value..])
      invariant forall j | 0 <= j < i ::
                  StartsNoneBefore(rest, schemes[j], if next.Some? then next.value else |rest|)
    {
      var p := Find(rest, schemes[i]);
      FindIsFirst(rest, schemes[i]);
      if p.Some? {
        StartsUrlIff(rest[p.value..]);
        next := Some(if next.Some? && next.value < p.value then next.value else p.value);
      }
    }
    NeitherMeansPlain(rest, schemes, if next.Some? then next.value else |rest|);
  }

  lemma NeitherMeansPlain(s: string, schemes: seq<string>, n: nat)
    requires n <= |s| && schemes == [HTTPS, HTTP]
    requires forall j | 0 <= j < 2 :: StartsNoneBefore(s, schemes[j], n)
    ensures PlainUpTo(s, n)
  {
    assert StartsNoneBefore(s, schemes[0], n) && StartsNoneBefore(s, schemes[1], n);
    forall k | 0 <= k < n ensures !StartsUrl(s[k..]) {
      StartsUrlIff(s[k..]);
    }
  }

  method RedactUrls(input: string) returns (out: string)
    ensures out == Redacted(input)
  {
    out := "";
    var rest := input;
    while true
      invariant Redacted(input) == out + Redacted(rest)
      decreases |rest|
    {
      var next := NextScheme(rest);
      PlainPrefixIsKept(rest, if next.Some? then next.value else |rest|);
      if next.None? {
        out := out + rest;
        break;
      }
      var start := next.value;
      var after := rest[start..];
      UrlIsNotEmpty(after);
      var end := UrlLength(after);
      Reassociate(out, rest[..start], MARK, Redacted(after[end..]));
      out := out + rest[..start];
      out := out + MARK;
      rest := after[end..];
    }
  }

  lemma Reassociate(a: string, b: string, c: string, d: string)
    ensures a + (b + (c + d)) == a + b + c + d
  {
  }

  // ----------------------------------------------------------------- nothing is left

  lemma {:induction false} NoSchemeAfter(a: string, b: string)
    requires NoScheme(b) && forall i | 0 <= i < |a| :: a[i] != 'h'
    ensures NoScheme(a + b)
  {
    if a == "" {
      assert a + b == b;
    } else {
      NoSchemeAfter(a[1..], b);
      assert (a + b)[1..] == a[1..] + b;
      }
  }

  /** What the output starts with, short of a mark, the input starts with. */
  lemma {:induction false} StartSurvives(s: string, x: string)
    requires x <= Redacted(s) && '<' !in x
    ensures x <= s
  {
    if x != "" {
      assert Redacted(s)[0] == x[0];
      if !StartsUrl(s) {
        assert Redacted(s)[1..] == Redacted(s[1..]);
        assert x[1..] <= Redacted(s)[1..];
        StartSurvives(s[1..], x[1..]);
        assert s == [s[0]] + s[1..] && x == [x[0]] + x[1..];
      }
    }
  }

  lemma {:induction false} RedactedHasNoScheme(s: string)
    ensures NoScheme(Redacted(s))
    decreases |s|
  {
    if s == "" {
    } else if StartsUrl(s) {
      UrlIsNotEmpty(s);
      RedactedHasNoScheme(s[UrlLength(s)..]);
      NoSchemeAfter(MARK, Redacted(s[UrlLength(s)..]));
    } else {
      RedactedHasNoScheme(s[1..]);
      OutputStartsNoUrl(s);
      assert Redacted(s)[1..] == Redacted(s[1..]);
    }
  }

  lemma {:induction false} OutputStartsNoUrl(s: string)
    requires !StartsUrl(s)
    ensures !StartsUrl(Redacted(s))
  {
    var r := Redacted(s);
    if StartsUrl(r) {
      StartsUrlIff(r);
      StartSurvives(s, if HTTP <= r then HTTP else HTTPS);
      StartsUrlIff(s);
    }
  }

  lemma OccursAtStart(s: string, needle: string)
    ensures OccursAt(s, 0, needle) <==> needle <= s
  {
    if |needle| <= |s| {
      assert s[0..0 + |needle|] == s[..|needle|];
      assert s[..|needle|] <= s;
    }
  }

  lemma OccursLater(s: string, i: nat, needle: string)
    requires s != ""
    ensures OccursAt(s, i + 1, needle) <==> OccursAt(s[1..], i, needle)
  {
    if i + 1 + |needle| <= |s| {
      assert s[1..][i..i + |needle|] == s[i + 1..i + 1 + |needle|];
    }
  }

  lemma ContainsStep(s: string, needle: string)
    requires s != ""
    ensures Contains(s, needle) <==> needle <= s || Contains(s[1..], needle)
  {
    OccursAtStart(s, needle);
    if i :| 0 <= i <= |s| && OccursAt(s, i, needle) {
      if i > 0 {
        OccursLater(s, i - 1, needle);
      }
    }
    if i :| 0 <= i <= |s| - 1 && OccursAt(s[1..], i, needle) {
      OccursLater(s, i, needle);
    }
  }

  lemma {:induction false} NoSchemeMeansNotContained(s: string)
    ensures NoScheme(s) <==> !Contains(s, HTTPS) && !Contains(s, HTTP)
  {
    if s != "" {
      NoSchemeMeansNotContained(s[1..]);
      StartsUrlIff(s);
      ContainsStep(s, HTTPS);
      ContainsStep(s, HTTP);
    }
  }

  lemma {:induction false} NoSchemeInPrefix(s: string, n: nat)
    requires NoScheme(s) && n <= |s|
    ensures NoScheme(s[..n])
  {
    if n > 0 {
      NoSchemeInPrefix(s[1..], n - 1);
      assert s[..n][1..] == s[1..][..n - 1];
      assert s[..n] <= s;
    }
  }

  /** The output contains neither scheme, and no prefix of it does. */
  lemma StoredErrorHasNoUrl(s: string, kept: nat)
    requires kept <= |Redacted(s)|
    ensures !Contains(Redacted(s)[..kept], HTTPS) && !Contains(Redacted(s)[..kept], HTTP)
  {
    RedactedHasNoScheme(s);
    NoSchemeInPrefix(Redacted(s), kept);
    NoSchemeMeansNotContained(Redacted(s)[..kept]);
  }

  /** The redacted text or its first 500 characters, without a scheme. */
  predicate IsStoredError(text: string, error: string) {
    && |text| <= 500 && text <= Redacted(error)
    && (|text| < 500 ==> text == Redacted(error))
    && !Contains(text, HTTPS) && !Contains(text, HTTP)
  }

  /** `redact_urls(e).chars().take(500)` */
  method StoredError(error: string) returns (text: string)
    ensures IsStoredError(text, error)
  {
    var redacted := RedactUrls(error);
    var kept := if |redacted| < ERROR_CAP then |redacted| else ERROR_CAP;
    StoredErrorHasNoUrl(error, kept);
    text := redacted[..kept];
  }

  lemma {:induction false} NoSchemeIsKept(s: string)
    requires NoScheme(s)
    ensures Redacted(s) == s
  {
    if s != "" {
      NoSchemeIsKept(s[1..]);
    }
  }

  /** Exactly the texts without a scheme are left as they are. */
  lemma UnchangedIffNoUrl(s: string)
    ensures Redacted(s) == s <==> !Contains(s, HTTPS) && !Contains(s, HTTP)
  {
    NoSchemeMeansNotContained(s);
    RedactedHasNoScheme(s);
    if NoScheme(s) {
      NoSchemeIsKept(s);
    }
  }

  lemma RedactingTwiceIsOnce(s: string)
    ensures Redacted(Redacted(s)) == Redacted(s)
  {
    RedactedHasNoScheme(s);
    NoSchemeIsKept(Redacted(s));
  }

  // ----------------------------------------------------------------- what is kept

  /** The rest of a text after its first word. */
  function AfterUrl(s: string): string {
    s[UrlLength(s)..]
  }

  lemma {:induction false} AfterUrlAcross(u: string, t: string)
    requires t != "" ==> IsSpace(t[0])
    ensures AfterUrl(u + t) == AfterUrl(u) + t
  {
    if u == "" {
      assert u + t == t;
    } else {
      assert (u + t)[1..] == u[1..] + t;
      AfterUrlAcross(u[1..], t);
    }
  }

  lemma {:induction false} AfterUrlOfWord(w: string)
    requires NoSpace(w)
    ensures AfterUrl(w) == ""
  {
    if w != "" {
      AfterUrlOfWord(w[1..]);
    }
  }

  lemma SchemesHaveNoSpace()
    ensures NoSpace(HTTP) && NoSpace(HTTPS)
  {
  }

  /** Whether a URL starts does not depend on what follows a whitespace. */
  lemma StartsUrlAcross(u: string, t: string)
    requires t != "" ==> IsSpace(t[0])
    ensures StartsUrl(u + t) <==> StartsUrl(u)
  {
    SchemesHaveNoSpace();
    assert |u| < |u + t| ==> IsSpace((u + t)[|u|]);
    assert u <= u + t;
  }

  /** Whitespace separates: each side is redacted on its own. */
  lemma {:induction false} RedactionIsWordwise(u: string, t: string)
    requires t != "" ==> IsSpace(t[0])
    ensures Redacted(u + t) == Redacted(u) + Redacted(t)
    decreases |u|
  {
    var s := u + t;
    StartsUrlAcross(u, t);
    if u == "" {
      assert s == t;
    } else if StartsUrl(u) {
      UrlIsNotEmpty(u);
      AfterUrlAcross(u, t);
      RedactionIsWordwise(AfterUrl(u), t);
      assert Redacted(s) == MARK + Redacted(AfterUrl(s));
    } else {
      assert s[1..] == u[1..] + t;
      RedactionIsWordwise(u[1..], t);
    }
  }

  /** A word keeps what stands before its first scheme and loses everything from there on. */
  lemma WordIsCutAtScheme(word: string, n: nat)
    requires NoSpace(word) && n <= |word| && StartsUrl(word[n..])
    requires PlainUpTo(word, n)
    ensures Redacted(word) == word[..n] + "<redacted-url>"
  {
    PlainPrefixIsKept(word, n);
    WordThatStartsUrl(word[n..]);
  }

  /** What stands between a scheme and the next whitespace does not influence the output. */
  lemma {:induction false} UrlTextDoesNotLeak(u: string, scheme: string, x: string, y: string, t: string)
    requires StartsUrl(scheme) && NoSpace(scheme)
    requires NoSpace(x) && NoSpace(y)
    requires t != "" ==> IsSpace(t[0])
    ensures Redacted(u + scheme + x + t) == Redacted(u + scheme + y + t)
  {
    UrlIsSwallowed(u, scheme, x, t);
    UrlIsSwallowed(u, scheme, y, t);
  }

  lemma {:induction false} UrlIsSwallowed(u: string, scheme: string, x: string, t: string)
    requires StartsUrl(scheme) && NoSpace(scheme) && NoSpace(x)
    requires t != "" ==> IsSpace(t[0])
    ensures Redacted(u + scheme + x + t) == Redacted(u + scheme) + Redacted(t)
  {
    RedactionIsWordwise(u + scheme + x, t);
    LastUrlIsSwallowed(u, scheme, x);
    assert u + scheme + x == u + (scheme + x);
  }

  lemma {:induction false} LastUrlIsSwallowed(u: string, scheme: string, x: string)
    requires StartsUrl(scheme) && NoSpace(scheme)
    requires NoSpace(x)
    ensures Redacted(u + (scheme + x)) == Redacted(u + scheme)
    decreases |u|
  {
    if NoSpace(u) {
      UrlInWordIsSwallowed(u, scheme, x);
      assert u + scheme + x == u + (scheme + x);
    } else {
      var i :| 0 <= i < |u| && IsSpace(u[i]);
      LastUrlIsSwallowed(u[i + 1..], scheme, x);
      SplitAtSpace(u, i, scheme + x);
      SplitAtSpace(u, i, scheme);
    }
  }

  lemma {:induction false} SplitAtSpace(u: string, i: nat, z: string)
    requires i < |u| && IsSpace(u[i])
    ensures Redacted(u + z) == Redacted(u[..i]) + ([u[i]] + Redacted(u[i + 1..] + z))
  {
    var t := u[i..] + z;
    assert u + z == u[..i] + t;
    assert t[1..] == u[i + 1..] + z;
    RedactionIsWordwise(u[..i], t);
  }

  lemma {:induction false} UrlInWordIsSwallowed(u: string, scheme: string, x: string)
    requires StartsUrl(scheme) && NoSpace(scheme)
    requires NoSpace(x) && NoSpace(u)
    ensures Redacted(u + scheme + x) == Redacted(u + scheme)
    decreases |u|
  {
    var s, r := u + scheme + x, u + scheme;
    if StartsUrl(r) {
      assert r <= s;
      WordThatStartsUrl(r);
      WordThatStartsUrl(s);
    } else {
      assert u == "" ==> r == scheme;
      LongEnough(r, x);
      UrlInWordIsSwallowed(u[1..], scheme, x);
      assert s[1..] == u[1..] + scheme + x && r[1..] == u[1..] + scheme;
    }
  }

  lemma {:induction false} WordThatStartsUrl(w: string)
    requires StartsUrl(w) && NoSpace(w)
    ensures Redacted(w) == MARK
  {
    AfterUrlOfWord(w);
    UrlIsNotEmpty(w);
    assert Redacted(w) == MARK + Redacted(AfterUrl(w));
  }

  /** Eight characters decide whether a URL starts. */
  lemma LongEnough(r: string, x: string)
    requires |r| >= 8
    ensures StartsUrl(r + x) <==> StartsUrl(r)
  {
    assert forall n | 0 <= n < 8 :: (r + x)[n] == r[n];
  }
}
