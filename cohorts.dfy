/**
 * The text half of `fetchCohortsFromCsv` and the choice of cohort.
 *
 * The response body is trimmed and split into lines on `\n` or `\r\n`; each
 * line is split on every comma. A row contributes its trimmed third field when
 * that field is a non-empty run of ASCII digits. The contributions, in row
 * order, then go through a `Set`, which drops later repeats and keeps
 * first-seen order. The fetch itself is not modelled: the body is the input.
 */
module Cohorts {
  import opened JsString
  import opened LineBreaks
  import opened SeqFacts

  /** The cohort used when the list is empty: `cohortsFromCsv[0] || '110'`. */
  const FallbackCohort := "110"

  /** `text.trim().split(/\r?\n/)`: joined back with `\n`, the lines give the trimmed body up to `\r\n` separators. */
  function Lines(text: string): (lines: seq<string>)
    ensures |lines| > 0
    ensures forall k :: 0 <= k < |lines| ==> '\n' !in lines[k]
    ensures Join(lines, '\n') == ReplaceCrLf(Trim(text))
  {
    JoinSplitLines(Trim(text));
    SplitLines(Trim(text))
  }

  /** `.map(r => r.split(','))` over the lines. */
  function Rows(text: string): (rows: seq<seq<string>>)
    ensures |rows| == |Lines(text)|
    ensures forall k :: 0 <= k < |rows| ==> rows[k] == Split(Lines(text)[k], ',')
  {
    var lines := Lines(text);
    seq(|lines|, k requires 0 <= k < |lines| => Split(lines[k], ','))
  }

  /** Each row's fields joined back with `,`: the inverse of `.map(r => r.split(','))`. */
  function JoinFields(rows: seq<seq<string>>): seq<string>
    requires forall k :: 0 <= k < |rows| ==> |rows[k]| > 0
  {
    seq(|rows|, k requires 0 <= k < |rows| => Join(rows[k], ','))
  }

  /** Joining each row with `,` and the rows with `\n` gives back the trimmed body, up to `\r\n` separators. */
  lemma JoinRows(text: string)
    ensures |Rows(text)| > 0
    ensures Join(JoinFields(Rows(text)), '\n') == ReplaceCrLf(Trim(text))
  {
    var lines, rows := Lines(text), Rows(text);
    var joined := JoinFields(rows);
    forall k | 0 <= k < |lines| ensures joined[k] == lines[k] {
      JoinSplit(lines[k], ',');
    }
    assert joined == lines;
  }

  /** `(r[2] || '').trim()`: the trimmed third field, or the empty string when there is none. */
  function ThirdField(row: seq<string>): (field: string)
    ensures |row| < 3 ==> field == ""
    ensures |row| >= 3 ==> exists i :: IsTrimOf(row[2], field, i)
    ensures field == [] || (!IsWhitespace(field[0]) && !IsWhitespace(field[|field| - 1]))
  {
    Trim(if |row| >= 3 then row[2] else "")
  }

  /** The row's cohort, as the loop body decides: its third field when that is all digits. */
  predicate Contributes(row: seq<string>) {
    IsDigits(ThirdField(row))
  }

  /** What the loop body pushes for one row. */
  function Pushed(row: seq<string>): seq<string> {
    if Contributes(row) then [ThirdField(row)] else []
  }

  /** What the loop pushes for `rows`, in row order. */
  function Accepted(rows: seq<seq<string>>): seq<string> {
    if rows == [] then [] else Accepted(rows[..|rows| - 1]) + Pushed(rows[|rows| - 1])
  }

  /** No value appears twice. */
  predicate NoDuplicates(xs: seq<string>) {
    forall i, j :: 0 <= i < j < |xs| ==> xs[i] != xs[j]
  }

  /** `Array.from(new Set(xs))`: each value once, at the place it was first seen. */
  function Dedup(xs: seq<string>): (r: seq<string>)
    ensures forall x :: x in r <==> x in xs
    ensures NoDuplicates(r)
    ensures |r| <= |xs|
  {
    if xs == [] then []
    else
      var d := Dedup(xs[..|xs| - 1]);
      var x := xs[|xs| - 1];
      if x in d then d else d + [x]
  }

  /** The list `fetchCohortsFromCsv` returns for the response body `text`. */
  function CohortList(text: string): (cohorts: seq<string>)
    ensures NoDuplicates(cohorts)
  {
    Dedup(Accepted(Rows(text)))
  }

  /** `cohortsFromCsv[0] || '110'`: an empty string counts as missing, as `||` treats it. */
  function ChosenCohort(cohorts: seq<string>): (chosen: string)
    ensures chosen != ""
    ensures chosen in cohorts || chosen == FallbackCohort
    ensures |cohorts| > 0 && cohorts[0] != "" ==> chosen == cohorts[0]
  {
    if |cohorts| > 0 && cohorts[0] != "" then cohorts[0] else FallbackCohort
  }

  /** The `new Set(xs)` insertion loop, followed by `Array.from`. */
  method UniqueInOrder(xs: seq<string>) returns (r: seq<string>)
    ensures r == Dedup(xs)
  {
    var seen: set<string> := {};
    r := [];
    for i := 0 to |xs|
      invariant r == Dedup(xs[..i])
      invariant forall x :: x in seen <==> x in r
    {
      assert xs[..i + 1][..i] == xs[..i];
      if xs[i] !in seen {
        seen := seen + {xs[i]};
        r := r + [xs[i]];
      }
    }
    assert xs[..|xs|] == xs;
  }

  /** One iteration of the row loop appends what row `i` pushes. */
  lemma AcceptedStep(rows: seq<seq<string>>, i: nat)
    requires i < |rows|
    ensures Accepted(rows[..i + 1]) == Accepted(rows[..i]) + Pushed(rows[i])
  {
    assert rows[..i + 1][..i] == rows[..i];
  }

  /** The parsing body of `fetchCohortsFromCsv`, with the response body as input. */
  method CohortsFromCsvText(text: string) returns (cohorts: seq<string>)
    ensures cohorts == CohortList(text)
  {
    var rows := Rows(text);
    var found: seq<string> := [];
    for i := 0 to |rows|
      invariant found == Accepted(rows[..i])
    {
      AcceptedStep(rows, i);
      var c := ThirdField(rows[i]);
      if IsDigits(c) {
        found := found + [c];
      }
    }
    assert rows[..|rows|] == rows;
    cohorts := UniqueInOrder(found);
  }

  // Properties of the row filter.

  /** The last row pushes after all the others. */
  lemma AcceptedSnoc(rows: seq<seq<string>>)
    requires rows != []
    ensures Accepted(rows) == Accepted(rows[..|rows| - 1]) + Pushed(rows[|rows| - 1])
  {
  }

  /** The rows of two consecutive blocks push in block order. */
  lemma {:induction false} AcceptedAppend(a: seq<seq<string>>, b: seq<seq<string>>)
    ensures Accepted(a + b) == Accepted(a) + Accepted(b)
    decreases |b|
  {
    if b == [] {
      assert a + b == a;
    } else {
      var b', last := b[..|b| - 1], b[|b| - 1];
      assert (a + b)[..|a + b| - 1] == a + b';
      assert (a + b)[|a + b| - 1] == last;
      AcceptedSnoc(a + b);
      AcceptedSnoc(b);
      AcceptedAppend(a, b');
      var x, y, z := Accepted(a), Accepted(b'), Pushed(last);
      ConcatAssoc(x, y, z);
    }
  }

  /** Soundness and completeness of the filter: a value is pushed exactly when some row's trimmed third field is that value and is all digits. */
  lemma {:induction false} AcceptedMembership(rows: seq<seq<string>>, c: string)
    ensures c in Accepted(rows) <==> exists k :: 0 <= k < |rows| && Contributes(rows[k]) && ThirdField(rows[k]) == c
    decreases |rows|
  {
    if rows != [] {
      var front, last := rows[..|rows| - 1], rows[|rows| - 1];
      AcceptedMembership(front, c);
      if exists k :: 0 <= k < |rows| && Contributes(rows[k]) && ThirdField(rows[k]) == c {
        var k :| 0 <= k < |rows| && Contributes(rows[k]) && ThirdField(rows[k]) == c;
        if k < |rows| - 1 {
          assert front[k] == rows[k];
        }
      }
    }
  }

  /** A row with fewer than three fields has an empty third field, which is not all digits. */
  lemma ShortRowPushesNothing(row: seq<string>)
    requires |row| < 3
    ensures Pushed(row) == []
  {
    assert Trim("") == "";
  }

  /** A row that pushes nothing can be removed without changing the pushed values. */
  lemma AcceptedWithout(rows: seq<seq<string>>, k: nat)
    requires k < |rows| && Pushed(rows[k]) == []
    ensures Accepted(rows) == Accepted(rows[..k] + rows[k + 1..])
  {
    var pre, row, post := rows[..k], rows[k], rows[k + 1..];
    SplitAround(rows, k);
    AcceptedAppend(pre, [row] + post);
    AcceptedAppend([row], post);
    AcceptedAppend(pre, post);
    AcceptedSingle(row);
    EmptyConcat(Accepted(post));
  }

  /** A row with fewer than three fields contributes nothing: removing it leaves the pushed values unchanged. */
  lemma ShortRowContributesNothing(rows: seq<seq<string>>, k: nat)
    requires k < |rows| && |rows[k]| < 3
    ensures Accepted(rows) == Accepted(rows[..k] + rows[k + 1..])
  {
    ShortRowPushesNothing(rows[k]);
    AcceptedWithout(rows, k);
  }

  /** A single row pushes what its loop iteration pushes. */
  lemma AcceptedSingle(row: seq<string>)
    ensures Accepted([row]) == Pushed(row)
  {
    assert [row][..0] == [];
  }

  /** Rows whose third fields agree push the same values. */
  lemma {:induction false} AcceptedCongruent(rows1: seq<seq<string>>, rows2: seq<seq<string>>)
    requires |rows1| == |rows2|
    requires forall k :: 0 <= k < |rows1| ==> ThirdField(rows1[k]) == ThirdField(rows2[k])
    ensures Accepted(rows1) == Accepted(rows2)
    decreases |rows1|
  {
    if rows1 != [] {
      var n := |rows1| - 1;
      AcceptedCongruent(rows1[..n], rows2[..n]);
    }
  }

  // Properties of the Set pass.

  /** Position of the first occurrence of `x`. */
  function FirstIndex(xs: seq<string>, x: string): (k: nat)
    requires x in xs
    ensures k < |xs| && xs[k] == x && x !in xs[..k]
  {
    if xs[0] == x then 0 else 1 + FirstIndex(xs[1..], x)
  }

  /** Appending does not move a first occurrence. */
  lemma FirstIndexAppend(xs: seq<string>, y: string, x: string)
    requires x in xs
    ensures FirstIndex(xs + [y], x) == FirstIndex(xs, x)
  {
    var i, j := FirstIndex(xs + [y], x), FirstIndex(xs, x);
    assert (xs + [y])[j] == x;
    assert i == j;
  }

  /** Values come out in the order of their first occurrence. */
  lemma {:induction false} DedupKeepsFirstSeenOrder(xs: seq<string>)
    ensures forall i, j :: 0 <= i < j < |Dedup(xs)| ==>
      FirstIndex(xs, Dedup(xs)[i]) < FirstIndex(xs, Dedup(xs)[j])
    decreases |xs|
  {
    if xs != [] {
      var front := xs[..|xs| - 1];
      var x := xs[|xs| - 1];
      var d := Dedup(front);
      DedupKeepsFirstSeenOrder(front);
      assert xs == front + [x];
      forall y | y in d ensures FirstIndex(xs, y) == FirstIndex(front, y) {
        FirstIndexAppend(front, x, y);
      }
      if x !in d {
        assert FirstIndex(xs, x) == |front|;
      }
    }
  }

  /** The first value seen is the first value out. */
  lemma {:induction false} DedupKeepsFirst(xs: seq<string>)
    requires xs != []
    ensures Dedup(xs)[0] == xs[0]
    decreases |xs|
  {
    if |xs| > 1 {
      var front := xs[..|xs| - 1];
      DedupKeepsFirst(front);
    } else {
      assert xs[..0] == [];
    }
  }

  // Properties of the whole extraction, stated on the response body.

  /** Every cohort is a non-empty string of ASCII digits. */
  lemma CohortsAreDigits(text: string)
    ensures forall c :: c in CohortList(text) ==> IsDigits(c)
  {
    forall c | c in CohortList(text) ensures IsDigits(c) {
      AcceptedMembership(Rows(text), c);
    }
  }

  /**
   * Soundness and completeness: `c` is returned exactly when it is the
   * whitespace-trimmed third comma-separated field of some line of the trimmed
   * body and is all digits.
   */
  lemma CohortsSoundAndComplete(text: string, c: string)
    ensures c in CohortList(text) <==>
      IsDigits(c) && exists k :: 0 <= k < |Lines(text)| && ThirdField(Split(Lines(text)[k], ',')) == c
  {
    AcceptedMembership(Rows(text), c);
    RowsOfLines(Lines(text), Rows(text), c);
  }

  /** Rows obtained by splitting lines on commas contribute `c` exactly when some line's third field is `c` and is all digits. */
  lemma RowsOfLines(lines: seq<string>, rows: seq<seq<string>>, c: string)
    requires |rows| == |lines|
    requires forall k :: 0 <= k < |rows| ==> rows[k] == Split(lines[k], ',')
    ensures (exists k :: 0 <= k < |rows| && Contributes(rows[k]) && ThirdField(rows[k]) == c) <==>
      IsDigits(c) && exists k :: 0 <= k < |lines| && ThirdField(Split(lines[k], ',')) == c
  {
    if IsDigits(c) && exists k :: 0 <= k < |lines| && ThirdField(Split(lines[k], ',')) == c {
      var k :| 0 <= k < |lines| && ThirdField(Split(lines[k], ',')) == c;
      assert rows[k] == Split(lines[k], ',');
    }
  }

  /** No cohort is returned twice, and cohorts come out in the order their rows were first seen. */
  lemma CohortsUniqueInFirstSeenOrder(text: string)
    ensures NoDuplicates(CohortList(text))
    ensures var pushed := Accepted(Rows(text)); var out := CohortList(text);
      forall i, j :: 0 <= i < j < |out| ==> FirstIndex(pushed, out[i]) < FirstIndex(pushed, out[j])
  {
    DedupKeepsFirstSeenOrder(Accepted(Rows(text)));
  }

  /** An empty or all-whitespace body yields no cohorts. */
  lemma BlankTextHasNoCohorts(text: string)
    requires AllWhitespace(text)
    ensures CohortList(text) == []
  {
    assert Trim(text) == [];
    assert Lines(text) == [[]];
    assert Split([], ',') == [[]];
    assert Rows(text) == [[[]]];
    assert Trim("") == "";
    assert Rows(text)[..0] == [];
  }

  /** A carriage return appended to a line changes at most its last field, which is trimmed if it is the third. */
  lemma ThirdFieldIgnoresTrailingCr(line: string)
    ensures ThirdField(Split(line + ['\r'], ',')) == ThirdField(Split(line, ','))
  {
    var p := Split(line, ',');
    SplitAppend(line, '\r', ',');
    if |p| == 3 {
      TrimIgnoresTrailingWhitespace(p[2], '\r');
    }
  }

  /** Rows split from lines that agree up to a trailing carriage return have the same trimmed third fields. */
  lemma ThirdFieldsAgree(orig: seq<string>, norm: seq<string>, rows1: seq<seq<string>>, rows2: seq<seq<string>>)
    requires LinesAgree(orig, norm)
    requires |rows1| == |orig| && forall k :: 0 <= k < |rows1| ==> rows1[k] == Split(orig[k], ',')
    requires |rows2| == |norm| && forall k :: 0 <= k < |rows2| ==> rows2[k] == Split(norm[k], ',')
    ensures |rows1| == |rows2|
    ensures forall k :: 0 <= k < |rows1| ==> ThirdField(rows1[k]) == ThirdField(rows2[k])
  {
    forall k | 0 <= k < |rows1| ensures ThirdField(rows1[k]) == ThirdField(rows2[k]) {
      if orig[k] != norm[k] {
        ThirdFieldIgnoresTrailingCr(norm[k]);
      }
    }
  }

  /** After the replacement the body has as many rows, and each has the same trimmed third field. */
  lemma RowsReplaceCrLf(text: string)
    ensures |Rows(ReplaceCrLf(text))| == |Rows(text)|
    ensures forall k :: 0 <= k < |Rows(text)| ==> ThirdField(Rows(text)[k]) == ThirdField(Rows(ReplaceCrLf(text))[k])
  {
    LinesReplaceCrLf(text);
    ThirdFieldsAgree(Lines(text), Lines(ReplaceCrLf(text)), Rows(text), Rows(ReplaceCrLf(text)));
  }

  /** After the replacement the trimmed body has as many lines, each the same up to a trailing carriage return. */
  lemma LinesReplaceCrLf(text: string)
    ensures LinesAgree(Lines(text), Lines(ReplaceCrLf(text)))
  {
    var t := Trim(text);
    TrimReplaceCrLf(text);
    assert Lines(ReplaceCrLf(text)) == SplitLines(ReplaceCrLf(t));
    SplitLinesReplaceCrLf(t);
  }

  /** Replacing every `\r\n` of the body by `\n` does not change the cohorts. */
  lemma CohortsIgnoreCrLf(text: string)
    ensures CohortList(ReplaceCrLf(text)) == CohortList(text)
  {
    RowsReplaceCrLf(text);
    AcceptedCongruent(Rows(text), Rows(ReplaceCrLf(text)));
  }

  // The chosen cohort.

  /** Rows none of which contributes push nothing. */
  lemma {:induction false} AcceptedNone(rows: seq<seq<string>>)
    requires forall k :: 0 <= k < |rows| ==> !Contributes(rows[k])
    ensures Accepted(rows) == []
    decreases |rows|
  {
    if rows != [] {
      AcceptedNone(rows[..|rows| - 1]);
    }
  }

  /** `110` is all digits. */
  lemma FallbackIsDigits()
    ensures IsDigits(FallbackCohort)
  {
    assert FallbackCohort == ['1', '1', '0'];
  }

  /** The chosen cohort is the first cohort of the list, or `110` when the list is empty; either way it is all digits. */
  lemma ChosenCohortIsFirstOrFallback(text: string)
    ensures var cohorts := CohortList(text);
      ChosenCohort(cohorts) == if cohorts == [] then FallbackCohort else cohorts[0]
    ensures IsDigits(ChosenCohort(CohortList(text)))
  {
    CohortsAreDigits(text);
    ChosenFromDigits(CohortList(text));
  }

  /** Over a list of digit strings, `||` never sees an empty first entry, and the choice is all digits. */
  lemma ChosenFromDigits(cohorts: seq<string>)
    requires forall c :: c in cohorts ==> IsDigits(c)
    ensures ChosenCohort(cohorts) == if cohorts == [] then FallbackCohort else cohorts[0]
    ensures IsDigits(ChosenCohort(cohorts))
  {
    FallbackIsDigits();
    if cohorts != [] {
      assert cohorts[0] in cohorts;
    }
  }

  /** When the rows before `k` push nothing and row `k` contributes, the first pushed value is row `k`'s third field. */
  lemma AcceptedStartsAt(rows: seq<seq<string>>, k: nat)
    requires k < |rows| && Contributes(rows[k])
    requires forall j :: 0 <= j < k ==> !Contributes(rows[j])
    ensures Accepted(rows) != [] && Accepted(rows)[0] == ThirdField(rows[k])
  {
    var pre, row, post := rows[..k], rows[k], rows[k + 1..];
    SplitAround(rows, k);
    AcceptedAppend(pre, [row] + post);
    AcceptedAppend([row], post);
    AcceptedNone(pre);
    AcceptedSingle(row);
    EmptyConcat(Accepted([row] + post));
  }

  /** The chosen cohort is the third field of the earliest row that contributes one. */
  lemma ChosenCohortIsEarliestRow(text: string, k: nat)
    requires k < |Rows(text)| && Contributes(Rows(text)[k])
    requires forall j :: 0 <= j < k ==> !Contributes(Rows(text)[j])
    ensures ChosenCohort(CohortList(text)) == ThirdField(Rows(text)[k])
  {
    ChosenFromEarliestRow(Rows(text), k);
  }

  /** Over any rows, the choice is the third field of the earliest contributing row. */
  lemma ChosenFromEarliestRow(rows: seq<seq<string>>, k: nat)
    requires k < |rows| && Contributes(rows[k])
    requires forall j :: 0 <= j < k ==> !Contributes(rows[j])
    ensures ChosenCohort(Dedup(Accepted(rows))) == ThirdField(rows[k])
  {
    AcceptedStartsAt(rows, k);
    ChosenOfDedup(Accepted(rows), ThirdField(rows[k]));
  }

  /** When the first pushed value is all digits, the `Set` pass keeps it first and `||` chooses it. */
  lemma ChosenOfDedup(pushed: seq<string>, c: string)
    requires |pushed| > 0 && pushed[0] == c && IsDigits(c)
    ensures ChosenCohort(Dedup(pushed)) == c
  {
    DedupKeepsFirst(pushed);
  }

  /** When no row contributes, the fallback `110` is chosen. */
  lemma ChosenCohortFallsBack(text: string)
    requires forall k :: 0 <= k < |Rows(text)| ==> !Contributes(Rows(text)[k])
    ensures ChosenCohort(CohortList(text)) == FallbackCohort
  {
    AcceptedNone(Rows(text));
  }
}
