/** The administrators' log viewer: it keeps the lines of the log file that
    mention the requested level, newest first, and answers one page of them.
    The file itself is given as its sequence of lines (or as missing). */
module Logs {
  import opened Values
  import opened Text

  /** What `get_logs` answers. A missing file is a success with no lines;
      a page size of zero makes the page-count division raise, which the
      handler answers with status 500. */
  datatype LogsAnswer =
    | NoLogFile(logs: seq<string>, total: nat)
    | Listing(logs: seq<string>, total: nat, page: int, perPage: int, pages: int)
    | DivisionFailed

  /** The status the handler answers with. */
  function AnswerStatus(a: LogsAnswer): int {
    if a.DivisionFailed? then 500 else 200
  }

  // ---- the level filter ----

  /** A line is kept when no level is asked for, or when it contains the
      level in upper case. */
  predicate Selected(line: string, level: Option<string>) {
    !TruthyStr(level) || Contains(line, Upper(level.value))
  }

  /** The stripped kept lines, in file order. */
  function Filtered(lines: seq<string>, level: Option<string>): (r: seq<string>)
    ensures |r| <= |lines|
  {
    if lines == [] then []
    else
      var p, x := lines[..|lines| - 1], lines[|lines| - 1];
      if Selected(x, level) then Filtered(p, level) + [Strip(x)] else Filtered(p, level)
  }

  /** The filtering loop over the lines of the file. */
  method FilterLines(lines: seq<string>, level: Option<string>) returns (kept: seq<string>)
    ensures kept == Filtered(lines, level)
  {
    kept := [];
    var i := 0;
    while i < |lines|
      invariant 0 <= i <= |lines|
      invariant kept == Filtered(lines[..i], level)
    {
      assert lines[..i + 1][..i] == lines[..i];
      var line := lines[i];
      if TruthyStr(level) {
        if Contains(line, Upper(level.value)) {
          kept := kept + [Strip(line)];
        }
      } else {
        kept := kept + [Strip(line)];
      }
      i := i + 1;
    }
    assert lines[..i] == lines;
  }

  /** The last line decides whether one more stripped line is kept. */
  lemma FilteredStep(lines: seq<string>, level: Option<string>)
    requires lines != []
    ensures var p, y := lines[..|lines| - 1], lines[|lines| - 1];
      Filtered(lines, level) == if Selected(y, level) then Filtered(p, level) + [Strip(y)] else Filtered(p, level)
  {
  }

  /** Every selected line is kept, stripped. */
  lemma {:induction false} SelectedKept(lines: seq<string>, level: Option<string>, i: nat)
    requires i < |lines| && Selected(lines[i], level)
    ensures Strip(lines[i]) in Filtered(lines, level)
    decreases |lines|
  {
    var p := lines[..|lines| - 1];
    FilteredStep(lines, level);
    if i < |p| {
      assert Strip(lines[i]) in Filtered(p, level) by {
        assert p[i] == lines[i];
        SelectedKept(p, level, i);
      }
    }
  }

  /** Every kept line is the stripped form of a selected line. */
  lemma {:induction false} KeptSelected(lines: seq<string>, level: Option<string>, x: string)
    requires x in Filtered(lines, level)
    ensures exists i :: 0 <= i < |lines| && Selected(lines[i], level) && Strip(lines[i]) == x
    decreases |lines|
  {
    var p := lines[..|lines| - 1];
    FilteredStep(lines, level);
    if x in Filtered(p, level) {
      KeptSelected(p, level, x);
      var i :| 0 <= i < |p| && Selected(p[i], level) && Strip(p[i]) == x;
      assert lines[i] == p[i];
    } else {
      assert Selected(lines[|p|], level) && Strip(lines[|p|]) == x;
    }
  }

  /** A line is kept exactly when it is the stripped form of some selected
      line. */
  lemma FilteredIff(lines: seq<string>, level: Option<string>, x: string)
    ensures x in Filtered(lines, level) <==> exists i :: 0 <= i < |lines| && Selected(lines[i], level) && Strip(lines[i]) == x
  {
    if x in Filtered(lines, level) {
      KeptSelected(lines, level, x);
    }
    if exists i :: 0 <= i < |lines| && Selected(lines[i], level) && Strip(lines[i]) == x {
      var i :| 0 <= i < |lines| && Selected(lines[i], level) && Strip(lines[i]) == x;
      SelectedKept(lines, level, i);
    }
  }

  /** With no level every line is kept, stripped, in file order. */
  lemma {:induction false} NoLevelKeepsAll(lines: seq<string>, level: Option<string>)
    requires !TruthyStr(level)
    ensures |Filtered(lines, level)| == |lines|
    ensures forall i :: 0 <= i < |lines| ==> Filtered(lines, level)[i] == Strip(lines[i])
    decreases |lines|
  {
    if lines != [] {
      var p := lines[..|lines| - 1];
      NoLevelKeepsAll(p, level);
      FilteredStep(lines, level);
      assert Selected(lines[|lines| - 1], level);
      var r := Filtered(lines, level);
      forall i | 0 <= i < |lines| ensures r[i] == Strip(lines[i]) {
        if i < |p| {
          assert lines[i] == p[i];
        }
      }
    }
  }

  // ---- the page ----

  /** `s[::-1]`. */
  function Reverse(s: seq<string>): (r: seq<string>)
    ensures |r| == |s|
    ensures forall i :: 0 <= i < |s| ==> r[i] == s[|s| - 1 - i]
  {
    seq(|s|, i requires 0 <= i < |s| => s[|s| - 1 - i])
  }

  /** A Python slice bound: a negative one counts from the end, and either
      kind is clamped to the sequence. */
  function SliceBound(i: int, n: nat): (b: nat)
    ensures b <= n
    ensures 0 <= i <= n ==> b == i
  {
    if i < 0 then (if i + n < 0 then 0 else i + n)
    else if i > n then n
    else i
  }

  /** `s[start:end]` with Python's semantics. */
  function PySlice(s: seq<string>, start: int, end: int): (r: seq<string>)
    ensures |r| <= |s|
  {
    var a, b := SliceBound(start, |s|), SliceBound(end, |s|);
    if a < b then s[a..b] else []
  }

  /** Python's `//`: the quotient rounded towards minus infinity. */
  function FloorDiv(a: int, b: int): (q: int)
    requires b != 0
    ensures b > 0 ==> q * b <= a < q * b + b
    ensures b < 0 ==> q * b >= a > q * b + b
  {
    if b > 0 then a / b else (-a) / (-b)
  }

  /** The page and the page count of the kept lines. */
  function PageOf(kept: seq<string>, page: int, perPage: int): LogsAnswer {
    var total := |kept|;
    var start := (page - 1) * perPage;
    var logs := PySlice(Reverse(kept), start, start + perPage);
    if perPage == 0 then DivisionFailed
    else Listing(logs, total, page, perPage, FloorDiv(total + perPage - 1, perPage))
  }

  /** `get_logs`; `lines` is the file's content, `None` when it is missing. */
  method GetLogs(lines: Option<seq<string>>, page: int, perPage: int, level: Option<string>) returns (a: LogsAnswer)
    ensures lines.None? ==> a == NoLogFile([], 0)
    ensures lines.Some? ==> a == PageOf(Filtered(lines.value, level), page, perPage)
  {
    if lines.None? {
      return NoLogFile([], 0);
    }
    var kept := FilterLines(lines.value, level);
    a := PageOf(kept, page, perPage);
  }

  /** The answer's counts: `total` is the number of kept lines, and `pages`
      is the ceiling of `total / per_page` for a positive page size. */
  lemma PageCounts(kept: seq<string>, page: int, perPage: int)
    requires perPage > 0
    ensures var a := PageOf(kept, page, perPage);
      && a.Listing? && a.total == |kept|
      && (a.pages - 1) * perPage < a.total <= a.pages * perPage
      && a.pages >= 0
  {
  }

  /** `w` is the window of at most `per_page` kept lines, newest first,
      that starts `start` lines from the newest, cut at the oldest. */
  predicate IsWindow(w: seq<string>, kept: seq<string>, start: int, perPage: int) {
    && start >= 0
    && |w| <= perPage
    && (forall j :: 0 <= j < |w| ==> start + j < |kept| && w[j] == kept[|kept| - 1 - (start + j)])
    && (start < |kept| ==> |w| == if start + perPage <= |kept| then perPage else |kept| - start)
  }

  lemma WindowFrom(kept: seq<string>, start: int, perPage: int)
    requires perPage > 0 && start >= 0
    ensures IsWindow(PySlice(Reverse(kept), start, start + perPage), kept, start, perPage)
  {
  }

  lemma MulNonNegative(a: int, b: int)
    requires a >= 0 && b >= 0
    ensures a * b >= 0
  {
  }

  /** For page one and up, the page is the window that starts
      `(page-1)*per_page` lines from the newest: at most `per_page` lines. */
  lemma PageWindow(kept: seq<string>, page: int, perPage: int)
    requires perPage > 0 && page >= 1
    ensures PageOf(kept, page, perPage).Listing?
    ensures IsWindow(PageOf(kept, page, perPage).logs, kept, (page - 1) * perPage, perPage)
  {
    var start := (page - 1) * perPage;
    MulNonNegative(page - 1, perPage);
    WindowFrom(kept, start, perPage);
  }

  /** The first page starts with the newest kept line. */
  lemma FirstPageNewest(kept: seq<string>, perPage: int)
    requires perPage > 0 && |kept| > 0
    ensures PageOf(kept, 1, perPage).logs[0] == kept[|kept| - 1]
  {
    PageWindow(kept, 1, perPage);
  }

  /** Page zero is always empty; pages below zero count back from the oldest
      end: with per-page size 2 and five kept lines, page -1 holds the lines
      at positions 3 and 2 of the file order. */
  lemma PagesBelowOne(kept: seq<string>, perPage: int)
    requires perPage > 0
    ensures PageOf(kept, 0, perPage).logs == []
    ensures |kept| == 5 && perPage == 2 ==> PageOf(kept, -1, perPage).logs == [kept[3], kept[2]]
  {
  }

  /** A page size of zero is answered with status 500, once the file exists. */
  lemma ZeroPageSizeFails(kept: seq<string>, page: int)
    ensures AnswerStatus(PageOf(kept, page, 0)) == 500
  {
  }
}
