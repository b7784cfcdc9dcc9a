/**
 * Splitting text into lines with `split(/\r?\n/)`, and what replacing every
 * `\r\n` by `\n` does to the lines and to the trimmed text.
 */
module LineBreaks {
  import opened JsString
  import opened SeqFacts

  /**
   * `s.split(/\r?\n/)`. The pattern is tried at each position from the left,
   * so a `\r` immediately before a `\n` belongs to the separator, and any other
   * `\r` stays in its line. There is always at least one line.
   */
  function SplitLines(s: string): (lines: seq<string>)
    ensures |lines| > 0
    ensures forall k :: 0 <= k < |lines| ==> '\n' !in lines[k]
    decreases |s|
  {
    if s == [] then [[]]
    else if s[0] == '\n' then [[]] + SplitLines(s[1..])
    else if s[0] == '\r' && |s| > 1 && s[1] == '\n' then [[]] + SplitLines(s[2..])
    else
      var rest := SplitLines(s[1..]);
      [[s[0]] + rest[0]] + rest[1..]
  }

  /** `s.replace(/\r\n/g, '\n')`: every `\r\n`, scanning from the left, becomes `\n`. */
  function ReplaceCrLf(s: string): string
    decreases |s|
  {
    if s == [] then []
    else if s[0] == '\r' && |s| > 1 && s[1] == '\n' then "\n" + ReplaceCrLf(s[2..])
    else [s[0]] + ReplaceCrLf(s[1..])
  }

  /** `s` ends with a carriage return. */
  predicate EndsWithCr(s: string) {
    |s| > 0 && s[|s| - 1] == '\r'
  }

  /** Joining the lines with `\n` gives the text with each `\r\n` separator turned into `\n`. */
  lemma {:induction false} JoinSplitLines(s: string)
    ensures Join(SplitLines(s), '\n') == ReplaceCrLf(s)
    decreases |s|
  {
    if s == [] {
    } else if s[0] == '\n' {
      JoinSplitLines(s[1..]);
      assert Join(SplitLines(s), '\n') == [] + ['\n'] + Join(SplitLines(s[1..]), '\n');
    } else if s[0] == '\r' && |s| > 1 && s[1] == '\n' {
      JoinSplitLines(s[2..]);
      assert Join(SplitLines(s), '\n') == [] + ['\n'] + Join(SplitLines(s[2..]), '\n');
    } else {
      JoinSplitLines(s[1..]);
      JoinConsFirst(s[0], SplitLines(s[1..]), '\n');
    }
  }

  /** Splitting text that starts with a line `a` glues `a` to the first line of the rest. */
  lemma {:induction false} SplitLinesPrefix(a: string, b: string)
    requires '\n' !in a
    requires !(EndsWithCr(a) && |b| > 0 && b[0] == '\n')
    ensures SplitLines(a + b) == [a + SplitLines(b)[0]] + SplitLines(b)[1..]
    decreases |a|
  {
    var p := SplitLines(b);
    if a == [] {
      assert a + b == b;
      assert a + p[0] == p[0];
      HeadTail(p);
    } else {
      var c, r := a[0], a[1..];
      assert a == [c] + r;
      assert r == [] || r[|r| - 1] == a[|a| - 1];
      if r == [] {
        assert r + b == b;
      } else {
        assert (r + b)[0] == r[0];
      }
      SplitLinesPrefix(r, b);
      SplitLinesPrefixStep(a, c, r, b);
    }
  }

  /** One step of SplitLinesPrefix: prepending the character `c` to both sides. */
  lemma SplitLinesPrefixStep(a: string, c: char, r: string, b: string)
    requires a == [c] + r && c != '\n'
    requires !(c == '\r' && |r + b| > 0 && (r + b)[0] == '\n')
    requires SplitLines(r + b) == [r + SplitLines(b)[0]] + SplitLines(b)[1..]
    ensures SplitLines(a + b) == [a + SplitLines(b)[0]] + SplitLines(b)[1..]
  {
    var p := SplitLines(b);
    ConcatAssoc([c], r, b);
    SplitLinesCons(c, r + b);
    ConcatAssoc([c], r, p[0]);
  }

  /** A character that does not start a separator joins the first line. */
  lemma SplitLinesCons(c: char, x: string)
    requires c != '\n' && !(c == '\r' && |x| > 0 && x[0] == '\n')
    ensures SplitLines([c] + x) == [[c] + SplitLines(x)[0]] + SplitLines(x)[1..]
  {
    assert ([c] + x)[1..] == x;
  }

  /** Splitting lines that hold no `\n`, joined with `\n`, gives them back, unless a `\r` ends a line that is not the last. */
  lemma {:induction false} SplitLinesJoin(lines: seq<string>)
    requires |lines| > 0
    requires forall k :: 0 <= k < |lines| ==> '\n' !in lines[k]
    requires forall k :: 0 <= k < |lines| - 1 ==> !EndsWithCr(lines[k])
    ensures SplitLines(Join(lines, '\n')) == lines
    decreases |lines|
  {
    if |lines| == 1 {
      SplitLinesPrefix(lines[0], []);
      assert lines[0] + [] == lines[0];
      assert SplitLines([]) == [[]];
      calc {
        SplitLines(Join(lines, '\n'));
        SplitLines(lines[0]);
        [lines[0]];
        lines;
      }
    } else {
      var tail := Join(lines[1..], '\n');
      SplitLinesJoin(lines[1..]);
      assert ("\n" + tail)[1..] == tail;
      assert SplitLines("\n" + tail) == [[]] + lines[1..];
      SplitLinesPrefix(lines[0], "\n" + tail);
      assert lines[0] + ['\n'] + tail == lines[0] + ("\n" + tail);
      assert lines[0] + [] == lines[0];
      assert [lines[0]] + lines[1..] == lines;
    }
  }

  /** The replacement works piecewise, provided no `\r\n` straddles the cut. */
  lemma {:induction false} ReplaceCrLfConcat(a: string, b: string)
    requires !(EndsWithCr(a) && |b| > 0 && b[0] == '\n')
    ensures ReplaceCrLf(a + b) == ReplaceCrLf(a) + ReplaceCrLf(b)
    decreases |a|
  {
    if a == [] {
      assert a + b == b;
    } else if a[0] == '\r' && |a| > 1 && a[1] == '\n' {
      var r := a[2..];
      assert r == [] || r[|r| - 1] == a[|a| - 1];
      ReplaceCrLfConcat(r, b);
      ConcatCrLfStep(a, r, b);
    } else {
      var c, r := a[0], a[1..];
      assert r == [] || r[|r| - 1] == a[|a| - 1];
      if r == [] {
        assert r + b == b;
      } else {
        assert (r + b)[0] == r[0];
      }
      ReplaceCrLfConcat(r, b);
      ConcatOneStep(a, c, r, b);
    }
  }

  /** One step of ReplaceCrLfConcat when `a` starts with `\r\n`. */
  lemma ConcatCrLfStep(a: string, r: string, b: string)
    requires a == "\r\n" + r
    requires ReplaceCrLf(r + b) == ReplaceCrLf(r) + ReplaceCrLf(b)
    ensures ReplaceCrLf(a + b) == ReplaceCrLf(a) + ReplaceCrLf(b)
  {
    var x, y := ReplaceCrLf(r), ReplaceCrLf(b);
    ConcatAssoc("\r\n", r, b);
    ReplaceCrLfCrLf(r + b);
    assert ReplaceCrLf(a + b) == "\n" + (x + y);
    ReplaceCrLfCrLf(r);
    ConcatAssoc("\n", x, y);
  }

  /** One step of ReplaceCrLfConcat when the first character of `a` is kept. */
  lemma ConcatOneStep(a: string, c: char, r: string, b: string)
    requires a == [c] + r
    requires !(c == '\r' && |r| > 0 && r[0] == '\n')
    requires !(c == '\r' && |r + b| > 0 && (r + b)[0] == '\n')
    requires ReplaceCrLf(r + b) == ReplaceCrLf(r) + ReplaceCrLf(b)
    ensures ReplaceCrLf(a + b) == ReplaceCrLf(a) + ReplaceCrLf(b)
  {
    var x, y := ReplaceCrLf(r), ReplaceCrLf(b);
    ConcatAssoc([c], r, b);
    ReplaceCrLfOne(c, r + b);
    assert ReplaceCrLf([c] + (r + b)) == [c] + (x + y);
    ReplaceCrLfOne(c, r);
    ConcatAssoc([c], x, y);
  }

  /** A leading `\r\n` becomes `\n`. */
  lemma ReplaceCrLfCrLf(x: string)
    ensures ReplaceCrLf("\r\n" + x) == "\n" + ReplaceCrLf(x)
  {
    assert ("\r\n" + x)[2..] == x;
  }

  /** A leading character that does not start `\r\n` is kept. */
  lemma ReplaceCrLfOne(c: char, x: string)
    requires !(c == '\r' && |x| > 0 && x[0] == '\n')
    ensures ReplaceCrLf([c] + x) == [c] + ReplaceCrLf(x)
  {
    assert ([c] + x)[1..] == x;
  }

  /** Trimming the front commutes with the replacement: `\r` and `\n` are both whitespace. */
  lemma {:induction false} TrimStartReplaceCrLf(s: string)
    ensures TrimStart(ReplaceCrLf(s)) == ReplaceCrLf(TrimStart(s))
    decreases |s|
  {
    if s == [] {
    } else if s[0] == '\r' && |s| > 1 && s[1] == '\n' {
      var r := s[2..];
      assert s == "\r\n" + r;
      ReplaceCrLfCrLf(r);
      TrimStartCons('\n', ReplaceCrLf(r));
      TrimStartCrLf(r);
      TrimStartReplaceCrLf(r);
    } else {
      var c, r := s[0], s[1..];
      assert s == [c] + r;
      ReplaceCrLfOne(c, r);
      TrimStartCons(c, ReplaceCrLf(r));
      TrimStartCons(c, r);
      TrimStartReplaceCrLf(r);
    }
  }

  /** Trimming the front looks at the first character. */
  lemma TrimStartCons(c: char, x: string)
    ensures TrimStart([c] + x) == if IsWhitespace(c) then TrimStart(x) else [c] + x
  {
    assert ([c] + x)[0] == c && ([c] + x)[1..] == x;
  }

  /** A leading `\r\n` is trimmed away. */
  lemma TrimStartCrLf(x: string)
    ensures TrimStart("\r\n" + x) == TrimStart(x)
  {
    assert ['\r'] + ['\n'] == "\r\n";
    ConcatAssoc(['\r'], ['\n'], x);
    TrimStartCons('\r', ['\n'] + x);
    TrimStartCons('\n', x);
  }

  /** Trimming the back looks at the last character. */
  lemma TrimEndSnoc(x: string, c: char)
    ensures TrimEnd(x + [c]) == if IsWhitespace(c) then TrimEnd(x) else x + [c]
  {
    assert (x + [c])[|x|] == c && (x + [c])[..|x|] == x;
  }

  /** A trailing `\r\n` is trimmed away. */
  lemma TrimEndCrLf(x: string)
    ensures TrimEnd(x + "\r\n") == TrimEnd(x)
  {
    assert x + "\r\n" == (x + ['\r']) + ['\n'];
    TrimEndSnoc(x + ['\r'], '\n');
    TrimEndSnoc(x, '\r');
  }

  /** A trailing `\r\n` becomes `\n`. */
  lemma ReplaceCrLfSnocCrLf(x: string)
    ensures ReplaceCrLf(x + "\r\n") == ReplaceCrLf(x) + "\n"
  {
    ReplaceCrLfConcat(x, "\r\n");
    assert "\r\n" == "\r\n" + [];
    ReplaceCrLfCrLf([]);
  }

  /** A trailing character that does not complete `\r\n` is kept. */
  lemma ReplaceCrLfSnoc(x: string, c: char)
    requires !(EndsWithCr(x) && c == '\n')
    ensures ReplaceCrLf(x + [c]) == ReplaceCrLf(x) + [c]
  {
    ReplaceCrLfConcat(x, [c]);
    assert [c] == [c] + [];
    ReplaceCrLfOne(c, []);
  }

  /** Trimming the back commutes with the replacement. */
  lemma {:induction false} TrimEndReplaceCrLf(s: string)
    ensures TrimEnd(ReplaceCrLf(s)) == ReplaceCrLf(TrimEnd(s))
    decreases |s|
  {
    var n := |s|;
    if s == [] {
    } else if n > 1 && s[n - 2] == '\r' && s[n - 1] == '\n' {
      var f := s[..n - 2];
      assert s == f + "\r\n";
      ReplaceCrLfSnocCrLf(f);
      TrimEndSnoc(ReplaceCrLf(f), '\n');
      TrimEndCrLf(f);
      TrimEndReplaceCrLf(f);
    } else {
      var f, c := s[..n - 1], s[n - 1];
      assert s == f + [c];
      assert EndsWithCr(f) ==> s[n - 2] == '\r';
      ReplaceCrLfSnoc(f, c);
      TrimEndSnoc(ReplaceCrLf(f), c);
      TrimEndSnoc(f, c);
      TrimEndReplaceCrLf(f);
    }
  }

  /** `s.trim()` commutes with replacing `\r\n` by `\n`. */
  lemma TrimReplaceCrLf(s: string)
    ensures Trim(ReplaceCrLf(s)) == ReplaceCrLf(Trim(s))
  {
    TrimEndReplaceCrLf(s);
    TrimStartReplaceCrLf(TrimEnd(s));
  }

  /** `line` is `norm`, or `norm` followed by one carriage return. */
  predicate SameUpToTrailingCr(line: string, norm: string) {
    line == norm || line == norm + ['\r']
  }

  /** Two lists of lines of the same length that agree line by line up to a trailing carriage return. */
  predicate LinesAgree(orig: seq<string>, norm: seq<string>) {
    && |orig| == |norm|
    && forall k :: 0 <= k < |orig| ==> SameUpToTrailingCr(orig[k], norm[k])
  }

  /**
   * Replacing `\r\n` by `\n` before splitting gives as many lines, each equal
   * to the original line or to it without one trailing `\r` (the `\r` of a
   * `\r\r\n` run joins the separator once the run becomes `\r\n`).
   */
  lemma {:induction false} SplitLinesReplaceCrLf(s: string)
    ensures LinesAgree(SplitLines(s), SplitLines(ReplaceCrLf(s)))
    decreases |s|
  {
    if s == [] {
    } else if s[0] == '\n' {
      var t := s[1..];
      assert s == ['\n'] + t;
      SplitLinesReplaceCrLf(t);
      ReplaceCrLfOne('\n', t);
      SplitLinesLf(t);
      SplitLinesLf(ReplaceCrLf(t));
      PrependEmptyLine(SplitLines(t), SplitLines(ReplaceCrLf(t)));
    } else if s[0] == '\r' && |s| > 1 && s[1] == '\n' {
      var t := s[2..];
      assert s == "\r\n" + t;
      SplitLinesReplaceCrLf(t);
      ReplaceCrLfCrLf(t);
      SplitLinesCrLf(t);
      SplitLinesLf(ReplaceCrLf(t));
      PrependEmptyLine(SplitLines(t), SplitLines(ReplaceCrLf(t)));
    } else if s[0] == '\r' && |s| > 2 && s[1] == '\r' && s[2] == '\n' {
      // `\r\r\n`: the first `\r` ends the original line, and becomes part of the separator once replaced.
      var t := s[3..];
      SplitLinesReplaceCrLf(t);
      SplitLinesCrCrLf(s, t);
      SplitLinesLf(ReplaceCrLf(t));
      PrependCrLine(SplitLines(t), SplitLines(ReplaceCrLf(t)));
    } else {
      var c, t := s[0], s[1..];
      assert s == [c] + t;
      SplitLinesReplaceCrLf(t);
      ReplaceCrLfOne(c, t);
      ReplaceCrLfFirst(c, t);
      SplitLinesCons(c, t);
      SplitLinesCons(c, ReplaceCrLf(t));
      ExtendFirstLine([c], SplitLines(t), SplitLines(ReplaceCrLf(t)));
    }
  }

  /** A leading `\n` ends an empty first line. */
  lemma SplitLinesLf(x: string)
    ensures SplitLines("\n" + x) == [[]] + SplitLines(x)
  {
    assert ("\n" + x)[1..] == x;
  }

  /** A leading `\r\n` ends an empty first line. */
  lemma SplitLinesCrLf(x: string)
    ensures SplitLines("\r\n" + x) == [[]] + SplitLines(x)
  {
    assert ("\r\n" + x)[2..] == x;
  }

  /** Before the replacement a `\r\r\n` run ends a line holding `\r`; after it, the run is an empty line's separator. */
  lemma SplitLinesCrCrLf(s: string, t: string)
    requires |s| > 2 && s[0] == '\r' && s[1] == '\r' && s[2] == '\n' && t == s[3..]
    ensures SplitLines(s) == [['\r']] + SplitLines(t)
    ensures ReplaceCrLf(s) == "\r\n" + ReplaceCrLf(t)
    ensures SplitLines(ReplaceCrLf(s)) == [[]] + SplitLines(ReplaceCrLf(t))
  {
    var u := s[1..];
    assert s == ['\r'] + u && u == "\r\n" + t;
    SplitLinesCrLf(t);
    SplitLinesCons('\r', u);
    var p := SplitLines(t);
    assert ['\r'] + [] == ['\r'];
    assert ([[]] + p)[1..] == p;
    ReplaceCrLfCrLf(t);
    ReplaceCrLfOne('\r', u);
    ConcatAssoc(['\r'], "\n", ReplaceCrLf(t));
    assert ['\r'] + "\n" == "\r\n";
    SplitLinesCrLf(ReplaceCrLf(t));
  }

  /** After the replacement the text starts with the same character, unless it started a separator. */
  lemma ReplaceCrLfFirst(c: char, t: string)
    requires c != '\n' && !(c == '\r' && |t| > 0 && t[0] == '\n')
    requires !(c == '\r' && |t| > 1 && t[0] == '\r' && t[1] == '\n')
    ensures !(c == '\r' && |ReplaceCrLf(t)| > 0 && ReplaceCrLf(t)[0] == '\n')
  {
    if c == '\r' && t != [] {
      var d, w := t[0], t[1..];
      assert t == [d] + w;
      ReplaceCrLfOne(d, w);
    }
  }

  /** Agreement survives putting an empty line in front of both lists. */
  lemma PrependEmptyLine(r: seq<string>, q: seq<string>)
    requires LinesAgree(r, q)
    ensures LinesAgree([[]] + r, [[]] + q)
  {
    assert forall k :: 1 <= k <= |r| ==> ([[]] + r)[k] == r[k - 1] && ([[]] + q)[k] == q[k - 1];
  }

  /** A line holding just `\r` agrees with an empty line. */
  lemma PrependCrLine(r: seq<string>, q: seq<string>)
    requires LinesAgree(r, q)
    ensures LinesAgree([['\r']] + r, [[]] + q)
  {
    assert forall k :: 1 <= k <= |r| ==> ([['\r']] + r)[k] == r[k - 1] && ([[]] + q)[k] == q[k - 1];
    assert ['\r'] == [] + ['\r'];
  }

  /** Agreement survives prefixing the first line of both lists with the same text. */
  lemma ExtendFirstLine(h: string, r: seq<string>, q: seq<string>)
    requires |r| > 0 && LinesAgree(r, q)
    ensures LinesAgree([h + r[0]] + r[1..], [h + q[0]] + q[1..])
  {
    assert SameUpToTrailingCr(r[0], q[0]);
    if r[0] != q[0] {
      ConcatAssoc(h, q[0], ['\r']);
    }
    assert forall k :: 1 <= k < |r| ==> ([h + r[0]] + r[1..])[k] == r[k] && ([h + q[0]] + q[1..])[k] == q[k];
  }
}
