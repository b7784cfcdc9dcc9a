/**
 * The JavaScript string primitives that the cohort and URL extraction rely on:
 * the `\s` character class, `String.prototype.trim`, the test `/^[0-9]+$/`,
 * `String.prototype.split` with a one-character separator, and its inverse `join`.
 * Strings are sequences of Unicode scalar values; every character these
 * operations look at lies in the Basic Multilingual Plane.
 */
module JsString {
  import opened SeqFacts

  /** ECMAScript WhiteSpace or LineTerminator: what `\s` matches and what `trim` strips. */
  predicate IsWhitespace(c: char) {
    var n := c as int;
    || n == 0x09 || n == 0x0A || n == 0x0B || n == 0x0C || n == 0x0D
    || n == 0x20 || n == 0xA0 || n == 0x1680
    || (0x2000 <= n <= 0x200A)
    || n == 0x2028 || n == 0x2029 || n == 0x202F || n == 0x205F
    || n == 0x3000 || n == 0xFEFF
  }

  /** Every character of `s` is whitespace (true of the empty text). */
  predicate AllWhitespace(s: string) {
    forall k :: 0 <= k < |s| ==> IsWhitespace(s[k])
  }

  /** `[0-9]` */
  predicate IsAsciiDigit(c: char) {
    '0' <= c <= '9'
  }

  /** `/^[0-9]+$/.test(s)`: a non-empty run of ASCII digits and nothing else. */
  predicate IsDigits(s: string) {
    |s| > 0 && forall k :: 0 <= k < |s| ==> IsAsciiDigit(s[k])
  }

  /** Strips the leading whitespace: what remains is a suffix of `s` that is empty or starts with a non-blank. */
  function TrimStart(s: string): (r: string)
    ensures |r| <= |s| && r == s[|s| - |r|..]
    ensures AllWhitespace(s[..|s| - |r|])
    ensures r == [] || !IsWhitespace(r[0])
    decreases |s|
  {
    if |s| > 0 && IsWhitespace(s[0]) then TrimStart(s[1..]) else s
  }

  /** Strips the trailing whitespace: what remains is a prefix of `s` that is empty or ends with a non-blank. */
  function TrimEnd(s: string): (r: string)
    ensures |r| <= |s| && r == s[..|r|]
    ensures AllWhitespace(s[|r|..])
    ensures r == [] || !IsWhitespace(r[|r| - 1])
    decreases |s|
  {
    if |s| > 0 && IsWhitespace(s[|s| - 1]) then TrimEnd(s[..|s| - 1]) else s
  }

  /** `s` is `pre + r + post` with only whitespace in `pre` and `post`, and `r` neither starts nor ends with whitespace. */
  ghost predicate IsTrimOf(s: string, r: string, i: int) {
    && 0 <= i <= |s| - |r|
    && r == s[i..i + |r|]
    && AllWhitespace(s[..i])
    && AllWhitespace(s[i + |r|..])
    && (r == [] || (!IsWhitespace(r[0]) && !IsWhitespace(r[|r| - 1])))
  }

  /** `s.trim()` */
  function Trim(s: string): (r: string)
    ensures exists i :: IsTrimOf(s, r, i)
    ensures r == [] <==> AllWhitespace(s)
  {
    var e := TrimEnd(s);
    var r := TrimStart(e);
    TrimBothEnds(s, e, r);
    r
  }

  /** Stripping the back and then the front leaves the trimmed text. */
  lemma TrimBothEnds(s: string, e: string, r: string)
    requires |e| <= |s| && e == s[..|e|] && AllWhitespace(s[|e|..])
    requires e == [] || !IsWhitespace(e[|e| - 1])
    requires |r| <= |e| && r == e[|e| - |r|..] && AllWhitespace(e[..|e| - |r|])
    requires r == [] || !IsWhitespace(r[0])
    ensures IsTrimOf(s, r, |e| - |r|)
    ensures r == [] <==> AllWhitespace(s)
  {
    var i := |e| - |r|;
    assert s[..i] == e[..i];
    assert s[i..|e|] == e[i..];
    assert forall k :: |e| <= k < |s| ==> s[k] == s[|e|..][k - |e|];
    if r != [] {
      assert s[|e| - 1] == e[|e| - 1];
    }
  }

  /** The trimmed text is determined by its defining property: `trim` has exactly one possible result. */
  lemma TrimUnique(s: string, r: string, i: int)
    requires IsTrimOf(s, r, i)
    ensures Trim(s) == r
  {
    var t :| IsTrimOf(s, Trim(s), t);
    TrimOfUnique(s, r, i, Trim(s), t);
  }

  /** Two readings of `s` as trimmed text agree. */
  lemma TrimOfUnique(s: string, r: string, i: int, q: string, t: int)
    requires IsTrimOf(s, r, i) && IsTrimOf(s, q, t)
    ensures r == q
  {
    if r != [] {
      TrimOfNonBlank(s, r, i, q, t);
    } else if q != [] {
      TrimOfNonBlank(s, q, t, r, i);
    }
  }

  /** A non-blank trimmed text starts and ends where any other trimmed text does. */
  lemma TrimOfNonBlank(s: string, r: string, i: int, q: string, t: int)
    requires IsTrimOf(s, r, i) && IsTrimOf(s, q, t) && r != []
    ensures r == q
  {
    assert s[i] == r[0] && s[i + |r| - 1] == r[|r| - 1];
    assert q != [] && t == i && t + |q| == i + |r|;
  }

  /** Appending whitespace does not change the trimmed text. */
  lemma TrimIgnoresTrailingWhitespace(s: string, c: char)
    requires IsWhitespace(c)
    ensures Trim(s + [c]) == Trim(s)
  {
    assert (s + [c])[..|s|] == s;
  }

  /** `parts.join(sep)` */
  function Join(parts: seq<string>, sep: char): string
    requires |parts| > 0
  {
    if |parts| == 1 then parts[0] else parts[0] + [sep] + Join(parts[1..], sep)
  }

  /** `s.split(sep)` for a one-character separator: the pieces between separators, never an empty list. */
  function Split(s: string, sep: char): (parts: seq<string>)
    ensures |parts| > 0
    ensures forall k :: 0 <= k < |parts| ==> sep !in parts[k]
    decreases |s|
  {
    if s == [] then [[]]
    else
      var rest := Split(s[1..], sep);
      if s[0] == sep then [[]] + rest else [[s[0]] + rest[0]] + rest[1..]
  }

  /** Joining the pieces back with the separator gives the original text. */
  lemma {:induction false} JoinSplit(s: string, sep: char)
    ensures Join(Split(s, sep), sep) == s
    decreases |s|
  {
    if s != [] {
      var rest := Split(s[1..], sep);
      JoinSplit(s[1..], sep);
      if s[0] != sep {
        JoinConsFirst(s[0], rest, sep);
      }
    }
  }

  /** Prepending a character to the first piece prepends it to the joined text. */
  lemma JoinConsFirst(c: char, parts: seq<string>, sep: char)
    requires |parts| > 0
    ensures Join([[c] + parts[0]] + parts[1..], sep) == [c] + Join(parts, sep)
  {
    var ps := [[c] + parts[0]] + parts[1..];
    if |parts| > 1 {
      assert ps[1..] == parts[1..];
    }
  }

  /** Splitting text that starts with a separator-free piece `a` glues `a` to the first piece of the rest. */
  lemma {:induction false} SplitPrefix(a: string, b: string, sep: char)
    requires sep !in a
    ensures Split(a + b, sep) == [a + Split(b, sep)[0]] + Split(b, sep)[1..]
    decreases |a|
  {
    if a != [] {
      assert (a + b)[0] == a[0] && a[0] != sep;
      assert (a + b)[1..] == a[1..] + b;
      SplitPrefix(a[1..], b, sep);
      var rest := Split(a[1..] + b, sep);
      assert Split(a + b, sep) == [[a[0]] + rest[0]] + rest[1..];
      assert [a[0]] + (a[1..] + Split(b, sep)[0]) == a + Split(b, sep)[0];
    } else {
      assert a + b == b;
      var p := Split(b, sep);
      assert a + p[0] == p[0];
      assert [p[0]] + p[1..] == p;
    }
  }

  /** Splitting a join of separator-free pieces gives the pieces back. */
  lemma {:induction false} SplitJoin(parts: seq<string>, sep: char)
    requires |parts| > 0
    requires forall k :: 0 <= k < |parts| ==> sep !in parts[k]
    ensures Split(Join(parts, sep), sep) == parts
    decreases |parts|
  {
    if |parts| == 1 {
      SplitPrefix(parts[0], [], sep);
      assert Split([], sep) == [[]];
      assert parts[0] + [] == parts[0];
      assert Split(parts[0], sep) == [parts[0]];
      calc {
        Split(Join(parts, sep), sep);
        Split(parts[0], sep);
        [parts[0]];
        parts;
      }
    } else {
      var tail := Join(parts[1..], sep);
      SplitJoin(parts[1..], sep);
      assert ([sep] + tail)[1..] == tail;
      assert Split([sep] + tail, sep) == [[]] + parts[1..];
      SplitPrefix(parts[0], [sep] + tail, sep);
      assert parts[0] + [sep] + tail == parts[0] + ([sep] + tail);
      assert parts[0] + [] == parts[0];
      assert [parts[0]] + parts[1..] == parts;
    }
  }

  /** Appending a non-separator character extends the last piece and leaves the others alone. */
  lemma {:induction false} SplitAppend(s: string, c: char, sep: char)
    requires c != sep
    ensures Split(s + [c], sep) == ExtendLast(Split(s, sep), c)
    decreases |s|
  {
    if s == [] {
      SplitCons(c, [], sep);
      assert s + [c] == [c] + [];
      assert ExtendLast([[]], c) == [[] + [c]];
    } else {
      var d, t := s[0], s[1..];
      assert s == [d] + t;
      ConcatAssoc([d], t, [c]);
      SplitAppend(t, c, sep);
      SplitCons(d, t, sep);
      SplitCons(d, t + [c], sep);
      if d == sep {
        ExtendLastCons([], Split(t, sep), c);
      } else {
        ExtendLastFirst([d], Split(t, sep), c);
      }
    }
  }

  /** `p` with `c` appended to its last piece. */
  function ExtendLast(p: seq<string>, c: char): seq<string>
    requires |p| > 0
  {
    p[..|p| - 1] + [p[|p| - 1] + [c]]
  }

  /** Splitting looks at the first character: a separator starts a new piece, anything else joins the first. */
  lemma SplitCons(c: char, x: string, sep: char)
    ensures Split([c] + x, sep) == if c == sep then [[]] + Split(x, sep) else [[c] + Split(x, sep)[0]] + Split(x, sep)[1..]
  {
    assert ([c] + x)[0] == c && ([c] + x)[1..] == x;
  }

  /** Extending the last piece commutes with putting a piece in front. */
  lemma ExtendLastCons(h: string, q: seq<string>, c: char)
    requires |q| > 0
    ensures [h] + ExtendLast(q, c) == ExtendLast([h] + q, c)
  {
    var hq := [h] + q;
    assert hq[..|hq| - 1] == [h] + q[..|q| - 1];
    assert hq[|hq| - 1] == q[|q| - 1];
    ConcatAssoc([h], q[..|q| - 1], [q[|q| - 1] + [c]]);
  }

  /** Extending the last piece commutes with prefixing the first piece. */
  lemma ExtendLastFirst(h: string, q: seq<string>, c: char)
    requires |q| > 0
    ensures var q' := ExtendLast(q, c); [h + q'[0]] + q'[1..] == ExtendLast([h + q[0]] + q[1..], c)
  {
    var q' := ExtendLast(q, c);
    if |q| == 1 {
      assert q' == [q[0] + [c]];
      ConcatAssoc(h, q[0], [c]);
      assert ExtendLast([h + q[0]], c) == [(h + q[0]) + [c]];
    } else {
      assert q'[0] == q[0];
      assert q'[1..] == ExtendLast(q[1..], c);
      ExtendLastCons(h + q[0], q[1..], c);
    }
  }
}
