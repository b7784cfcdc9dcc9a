/**
 * `extractCsvUrl`: the first `const CSV_URL = "…"` assignment in the page
 * markup, found with `html.match(/const\s+CSV_URL\s*=\s*"([^"]+)"/)`.
 *
 * At a fixed start the pattern has one way to match: each greedy run (`\s+`,
 * `\s*`, `[^"]+`) is followed by a character its class rejects (`C`, `=`, `"`),
 * so backtracking into a shorter run never helps. The matcher therefore takes
 * maximal runs, and MatchAtComplete shows that it finds every match there is.
 */
module CsvUrl {
  import opened Wrappers
  import opened JsString

  /** The message of the error thrown when the markup holds no assignment. */
  const NotFoundMessage := "CSV_URL not found in index.html"

  /** Length of the greedy `\s*` run at the start of `t`. */
  function WhitespaceRun(t: string): (n: nat)
    ensures n <= |t| && AllWhitespace(t[..n])
    ensures n < |t| ==> !IsWhitespace(t[n])
    decreases |t|
  {
    if |t| > 0 && IsWhitespace(t[0]) then 1 + WhitespaceRun(t[1..]) else 0
  }

  /** Length of the greedy `[^"]*` run at the start of `t`. */
  function QuoteFreeRun(t: string): (n: nat)
    ensures n <= |t| && '"' !in t[..n]
    ensures n < |t| ==> t[n] == '"'
    decreases |t|
  {
    if |t| > 0 && t[0] != '"' then 1 + QuoteFreeRun(t[1..]) else 0
  }

  /** The pattern anchored at the start of `t`: the captured URL, if it matches there. */
  function MatchPrefix(t: string): (m: Option<string>)
    ensures m.Some? ==> "const" <= t && |m.value| > 0 && '"' !in m.value
  {
    if "const" <= t then AfterKeyword(t[5..]) else None
  }

  /** `\s+CSV_URL`, then the rest of the pattern. */
  function AfterKeyword(t: string): (m: Option<string>)
    ensures m.Some? ==> |m.value| > 0 && '"' !in m.value
  {
    var n := WhitespaceRun(t);
    if n > 0 && "CSV_URL" <= t[n..] then AfterName(t[n + 7..]) else None
  }

  /** `\s*=`, then the rest of the pattern. */
  function AfterName(t: string): (m: Option<string>)
    ensures m.Some? ==> |m.value| > 0 && '"' !in m.value
  {
    var u := t[WhitespaceRun(t)..];
    if "=" <= u then AfterEquals(u[1..]) else None
  }

  /** `\s*"`, then the rest of the pattern. */
  function AfterEquals(t: string): (m: Option<string>)
    ensures m.Some? ==> |m.value| > 0 && '"' !in m.value
  {
    var u := t[WhitespaceRun(t)..];
    if "\"" <= u then QuotedValue(u[1..]) else None
  }

  /** `([^"]+)"`: the capture group and the closing quote. */
  function QuotedValue(t: string): (m: Option<string>)
    ensures m.Some? ==> |m.value| > 0 && '"' !in m.value
  {
    var n := QuoteFreeRun(t);
    if 0 < n < |t| then Some(t[..n]) else None
  }

  /** The pattern tried at position `i` of `s`. */
  function MatchAt(s: string, i: nat): (m: Option<string>)
    requires i <= |s|
    ensures m.Some? ==> "const" <= s[i..] && |m.value| > 0 && '"' !in m.value
  {
    MatchPrefix(s[i..])
  }

  /** The outcome of trying the pattern at every start position of `s`, from 0 to `|s|`. */
  function Attempts(s: string): (ms: seq<Option<string>>)
    ensures |ms| == |s| + 1
    ensures forall p :: 0 <= p <= |s| ==> ms[p] == MatchAt(s, p)
  {
    seq(|s| + 1, p requires 0 <= p <= |s| => MatchAt(s, p))
  }

  /** The regex engine's scan: the outcome at the leftmost position at or after `i` where the pattern matches. */
  function FirstSome(ms: seq<Option<string>>, i: nat): (r: Option<string>)
    requires i <= |ms|
    ensures r.Some? ==> r in ms[i..]
    decreases |ms| - i
  {
    if i == |ms| then None
    else match ms[i]
      case Some(url) => Some(url)
      case None => FirstSome(ms, i + 1)
  }

  /** The scan fails exactly when no position matches, and otherwise returns the outcome at the leftmost matching position. */
  lemma {:induction false} FirstSomeIsLeftmost(ms: seq<Option<string>>, i: nat)
    requires i <= |ms|
    ensures FirstSome(ms, i).None? <==> forall p :: i <= p < |ms| ==> ms[p].None?
    ensures FirstSome(ms, i).Some? ==> exists p :: i <= p < |ms| && ms[p] == FirstSome(ms, i)
                                          && forall q :: i <= q < p ==> ms[q].None?
    decreases |ms| - i
  {
    if i < |ms| && ms[i].None? {
      FirstSomeIsLeftmost(ms, i + 1);
      if FirstSome(ms, i).Some? {
        var p :| i + 1 <= p < |ms| && ms[p] == FirstSome(ms, i + 1) && forall q :: i + 1 <= q < p ==> ms[q].None?;
        assert forall q :: i <= q < p ==> ms[q].None?;
      }
    }
  }

  /** The scan from `k` stops at the first matching position `i`. */
  lemma {:induction false} FirstSomeAt(ms: seq<Option<string>>, k: nat, i: nat)
    requires k <= i < |ms| && ms[i].Some?
    requires forall j :: k <= j < i ==> ms[j].None?
    ensures FirstSome(ms, k) == ms[i]
    decreases i - k
  {
    if k < i {
      FirstSomeAt(ms, k + 1, i);
    }
  }

  /** `extractCsvUrl(html)`: the captured URL of the leftmost match, or the error it throws. */
  function ExtractCsvUrl(html: string): (r: Result<string, string>)
    ensures r.Success? ==> exists p :: 0 <= p <= |html| && MatchAt(html, p) == Some(r.value)
    ensures r.Failure? <==> forall p :: 0 <= p <= |html| ==> MatchAt(html, p).None?
    ensures r.Failure? ==> r.error == NotFoundMessage
  {
    FirstSomeIsLeftmost(Attempts(html), 0);
    match FirstSome(Attempts(html), 0)
    case Some(url) => Success(url)
    case None => Failure(NotFoundMessage)
  }

  // The pattern as a language: `const`, whitespace, `CSV_URL`, optional whitespace,
  // `=`, optional whitespace, and a non-empty quoted text without `"`.

  /** The text of one assignment, given the three whitespace runs and the URL. */
  function AssignmentText(w1: string, w2: string, w3: string, url: string): string {
    "const" + (w1 + ("CSV_URL" + (w2 + ("=" + (w3 + ("\"" + (url + "\"")))))))
  }

  /** The pieces fit the pattern: `\s+`, `\s*`, `\s*` and `[^"]+`. */
  ghost predicate Fits(w1: string, w2: string, w3: string, url: string) {
    && |w1| > 0 && AllWhitespace(w1) && AllWhitespace(w2) && AllWhitespace(w3)
    && |url| > 0 && '"' !in url
  }

  /** Some way of reading the start of `t` as an assignment captures `url`. */
  ghost predicate StartsWithAssignment(t: string, url: string) {
    exists w1, w2, w3 :: Fits(w1, w2, w3, url) && AssignmentText(w1, w2, w3, url) <= t
  }

  /** An assignment capturing `url` starts at position `i` of `s`. */
  ghost predicate AssignmentAt(s: string, i: int, url: string) {
    0 <= i <= |s| && StartsWithAssignment(s[i..], url)
  }

  /** Some assignment starts at position `i` of `s`. */
  ghost predicate AssignmentOccursAt(s: string, i: int) {
    exists url :: AssignmentAt(s, i, url)
  }

  /** Two consecutive prefixes make one. */
  lemma PrefixJoin(x: string, y: string, t: string)
    requires x <= t && y <= t[|x|..]
    ensures x + y <= t
  {
    assert x + y == t[..|x| + |y|];
  }

  /** A prefix made of two parts gives two consecutive prefixes. */
  lemma PrefixSplit(x: string, y: string, t: string)
    requires x + y <= t
    ensures x <= t && y <= t[|x|..]
  {
    assert x == (x + y)[..|x|];
    assert y == (x + y)[|x|..];
  }

  /** A whitespace prefix followed by a non-blank is the greedy run. */
  lemma WhitespaceRunExact(t: string, w: string)
    requires w <= t && AllWhitespace(w)
    requires |w| < |t| && !IsWhitespace(t[|w|])
    ensures WhitespaceRun(t) == |w|
  {
  }

  /** A quote-free prefix followed by `"` is the greedy run. */
  lemma QuoteFreeRunExact(t: string, u: string)
    requires u <= t && '"' !in u
    requires |u| < |t| && t[|u|] == '"'
    ensures QuoteFreeRun(t) == |u|
  {
  }

  /** The captured value is non-empty, quote-free and followed by `"`. */
  lemma QuotedValueSound(t: string)
    requires QuotedValue(t).Some?
    ensures var url := QuotedValue(t).value; |url| > 0 && '"' !in url && url + "\"" <= t
  {
    var n := QuoteFreeRun(t);
    PrefixJoin(t[..n], "\"", t);
  }

  /** A match after `=` reads as whitespace and a quoted value; `w3` is the whitespace. */
  lemma AfterEqualsSound(t: string) returns (w3: string)
    requires AfterEquals(t).Some?
    ensures var url := AfterEquals(t).value;
      |url| > 0 && '"' !in url && AllWhitespace(w3) && w3 + ("\"" + (url + "\"")) <= t
  {
    w3 := t[..WhitespaceRun(t)];
    var u := t[|w3|..];
    var url := AfterEquals(t).value;
    QuotedValueSound(u[1..]);
    PrefixJoin("\"", url + "\"", u);
    PrefixJoin(w3, "\"" + (url + "\""), t);
  }

  /** A match after `CSV_URL` reads as the rest of the pattern; `w2`, `w3` are its whitespace runs. */
  lemma AfterNameSound(t: string) returns (w2: string, w3: string)
    requires AfterName(t).Some?
    ensures var url := AfterName(t).value;
      |url| > 0 && '"' !in url && AllWhitespace(w2) && AllWhitespace(w3) && w2 + ("=" + (w3 + ("\"" + (url + "\"")))) <= t
  {
    w2 := t[..WhitespaceRun(t)];
    var u := t[|w2|..];
    var url := AfterName(t).value;
    w3 := AfterEqualsSound(u[1..]);
    PrefixJoin("=", w3 + ("\"" + (url + "\"")), u);
    PrefixJoin(w2, "=" + (w3 + ("\"" + (url + "\""))), t);
  }

  /** A match after `const` reads as the rest of the pattern, with pieces that fit. */
  lemma AfterKeywordSound(t: string) returns (w1: string, w2: string, w3: string)
    requires AfterKeyword(t).Some?
    ensures var url := AfterKeyword(t).value;
      && Fits(w1, w2, w3, url)
      && w1 + ("CSV_URL" + (w2 + ("=" + (w3 + ("\"" + (url + "\"")))))) <= t
  {
    var n := WhitespaceRun(t);
    w1 := t[..n];
    var u := t[n..];
    var url := AfterKeyword(t).value;
    assert u[7..] == t[n + 7..];
    w2, w3 := AfterNameSound(u[7..]);
    PrefixJoin("CSV_URL", w2 + ("=" + (w3 + ("\"" + (url + "\"")))), u);
    PrefixJoin(w1, "CSV_URL" + (w2 + ("=" + (w3 + ("\"" + (url + "\""))))), t);
  }

  /** Every match the matcher reports is a reading of the pattern. */
  lemma MatchPrefixSound(t: string)
    requires MatchPrefix(t).Some?
    ensures StartsWithAssignment(t, MatchPrefix(t).value)
  {
    var url := MatchPrefix(t).value;
    var w1, w2, w3 := AfterKeywordSound(t[5..]);
    PrefixJoin("const", w1 + ("CSV_URL" + (w2 + ("=" + (w3 + ("\"" + (url + "\"")))))), t);
    assert Fits(w1, w2, w3, url);
  }

  /** A quoted value is captured in full. */
  lemma QuotedValueComplete(t: string, url: string)
    requires |url| > 0 && '"' !in url && url + "\"" <= t
    ensures QuotedValue(t) == Some(url)
  {
    PrefixSplit(url, "\"", t);
    assert t[|url|] == t[|url|..][0] == '"';
    QuoteFreeRunExact(t, url);
    assert t[..|url|] == url;
  }

  /** Any reading of the text after `=` is found. */
  lemma AfterEqualsComplete(t: string, w3: string, url: string)
    requires AllWhitespace(w3) && |url| > 0 && '"' !in url
    requires w3 + ("\"" + (url + "\"")) <= t
    ensures AfterEquals(t) == Some(url)
  {
    PrefixSplit(w3, "\"" + (url + "\""), t);
    var u := t[|w3|..];
    PrefixSplit("\"", url + "\"", u);
    WhitespaceRunExact(t, w3);
    QuotedValueComplete(u[1..], url);
  }

  /** Any reading of the text after `CSV_URL` is found. */
  lemma AfterNameComplete(t: string, w2: string, w3: string, url: string)
    requires AllWhitespace(w2) && AllWhitespace(w3) && |url| > 0 && '"' !in url
    requires w2 + ("=" + (w3 + ("\"" + (url + "\"")))) <= t
    ensures AfterName(t) == Some(url)
  {
    PrefixSplit(w2, "=" + (w3 + ("\"" + (url + "\""))), t);
    var u := t[|w2|..];
    PrefixSplit("=", w3 + ("\"" + (url + "\"")), u);
    WhitespaceRunExact(t, w2);
    AfterEqualsComplete(u[1..], w3, url);
  }

  /** Any reading of the text after `const` is found. */
  lemma AfterKeywordComplete(t: string, w1: string, w2: string, w3: string, url: string)
    requires Fits(w1, w2, w3, url)
    requires w1 + ("CSV_URL" + (w2 + ("=" + (w3 + ("\"" + (url + "\"")))))) <= t
    ensures AfterKeyword(t) == Some(url)
  {
    var rest := w2 + ("=" + (w3 + ("\"" + (url + "\""))));
    PrefixSplit(w1, "CSV_URL" + rest, t);
    var u := t[|w1|..];
    PrefixSplit("CSV_URL", rest, u);
    assert t[|w1|] == u[0] == 'C';
    WhitespaceRunExact(t, w1);
    assert u[7..] == t[|w1| + 7..];
    AfterNameComplete(u[7..], w2, w3, url);
  }

  /** Every reading of the pattern at the start of `t` is the one the matcher reports. */
  lemma MatchPrefixComplete(t: string, url: string)
    requires StartsWithAssignment(t, url)
    ensures MatchPrefix(t) == Some(url)
  {
    var w1, w2, w3 :| Fits(w1, w2, w3, url) && AssignmentText(w1, w2, w3, url) <= t;
    PrefixSplit("const", w1 + ("CSV_URL" + (w2 + ("=" + (w3 + ("\"" + (url + "\"")))))), t);
    AfterKeywordComplete(t[5..], w1, w2, w3, url);
  }

  /** A match at position `i` is an assignment starting there. */
  lemma MatchAtSound(s: string, i: nat)
    requires i <= |s| && MatchAt(s, i).Some?
    ensures AssignmentAt(s, i, MatchAt(s, i).value)
  {
    MatchPrefixSound(s[i..]);
  }

  /** An assignment starting at position `i` is matched there. */
  lemma MatchAtComplete(s: string, i: nat, url: string)
    requires AssignmentAt(s, i, url)
    ensures MatchAt(s, i) == Some(url)
  {
    MatchPrefixComplete(s[i..], url);
  }

  /**
   * On success the URL is the one captured by the leftmost assignment in the
   * markup; it is non-empty and holds no `"`. The error is thrown exactly when
   * no assignment occurs anywhere.
   */
  lemma ExtractCsvUrlIsLeftmostAssignment(html: string)
    ensures ExtractCsvUrl(html).Success? ==>
      var url := ExtractCsvUrl(html).value;
      && url != [] && '"' !in url
      && exists i :: AssignmentAt(html, i, url) && forall j :: 0 <= j < i ==> !AssignmentOccursAt(html, j)
    ensures ExtractCsvUrl(html).Failure? <==> forall i :: 0 <= i <= |html| ==> !AssignmentOccursAt(html, i)
    ensures ExtractCsvUrl(html).Failure? ==> ExtractCsvUrl(html).error == NotFoundMessage
  {
    var ms := Attempts(html);
    FirstSomeIsLeftmost(ms, 0);
    forall i | 0 <= i <= |html| ensures AssignmentOccursAt(html, i) <==> ms[i].Some? {
      OccursIffMatches(html, i);
    }
    var r := FirstSome(ms, 0);
    if r.Some? {
      var p :| 0 <= p < |ms| && ms[p] == r && forall q :: 0 <= q < p ==> ms[q].None?;
      MatchAtSound(html, p);
      UrlOfAssignment(html, p, r.value);
    }
  }

  /** The pattern matches at `i` exactly when an assignment starts there. */
  lemma OccursIffMatches(s: string, i: nat)
    requires i <= |s|
    ensures AssignmentOccursAt(s, i) <==> MatchAt(s, i).Some?
  {
    if MatchAt(s, i).Some? {
      MatchAtSound(s, i);
    }
    if AssignmentOccursAt(s, i) {
      var u :| AssignmentAt(s, i, u);
      MatchAtComplete(s, i, u);
    }
  }

  /** The URL of an assignment is non-empty and holds no `"`. */
  lemma UrlOfAssignment(s: string, i: int, url: string)
    requires AssignmentAt(s, i, url)
    ensures url != [] && '"' !in url
  {
  }

  /** A match at `i` with none before it is what `extractCsvUrl` returns. */
  lemma ExtractCsvUrlAt(html: string, i: nat, url: string)
    requires i <= |html| && MatchAt(html, i) == Some(url)
    requires forall j :: 0 <= j < i ==> MatchAt(html, j).None?
    ensures ExtractCsvUrl(html) == Success(url)
  {
    var ms := Attempts(html);
    FirstSomeAt(ms, 0, i);
  }

  /**
   * Markup holding an assignment, with none starting earlier, yields exactly
   * that assignment's URL.
   */
  lemma ExtractsEmbeddedUrl(pre: string, w1: string, w2: string, w3: string, url: string, post: string)
    requires Fits(w1, w2, w3, url)
    requires forall j :: 0 <= j < |pre| ==> !AssignmentOccursAt(pre + AssignmentText(w1, w2, w3, url) + post, j)
    ensures ExtractCsvUrl(pre + AssignmentText(w1, w2, w3, url) + post) == Success(url)
  {
    var text := AssignmentText(w1, w2, w3, url);
    var html := pre + text + post;
    var i := |pre|;
    assert AssignmentAt(html, i, url) by {
      assert html[i..] == text + post;
      assert text <= html[i..];
    }
    MatchAtComplete(html, i, url);
    forall j | 0 <= j < i ensures MatchAt(html, j).None? {
      if MatchAt(html, j).Some? {
        MatchAtSound(html, j);
        assert AssignmentOccursAt(html, j);
      }
    }
    ExtractCsvUrlAt(html, i, url);
  }
}
