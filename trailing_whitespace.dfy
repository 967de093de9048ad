/**
 * The commit hook that scans the output of `hg export` for added lines that
 * end in whitespace.  The scanner is a state machine over the lines of a
 * unified diff: a header flag, the current file name and the new-file line
 * number.  Its three regular expressions are written out as string
 * functions: `HeaderPath`, `HunkStart` and `AddedTrailing`.
 */
module TrailingWhitespace {
  import opened Wrappers
  import opened Decimal

  /** One finding: file name, new-file line number and the column where the trailing whitespace starts. */
  datatype Report = Report(file: string, line: nat, column: nat)

  /** The scanner's variables.  `filename` is `None` until a header names a file. */
  datatype State = State(header: bool, filename: Option<string>, lineNumber: nat)

  /**
   * Everything the scan has produced so far.  `failed` records that an
   * added line needed a file name before any header had set one; the scan
   * stops there, keeping the reports yielded before.
   */
  datatype Scan = Scan(state: State, reports: seq<Report>, failed: bool)

  const Init: Scan := Scan(State(false, None, 0), [], false)

  const DiffPrefix: string := "diff "
  const OldPrefix: string := "--- "
  const NewPrefix: string := "+++ "
  const DevNull: string := "/dev/null"
  const HunkOpen: string := "@@ -"
  const HunkMiddle: string := " +"
  const Comma: string := ","

  // ---------------------------------------------------------------------
  // Characters and strings
  // ---------------------------------------------------------------------

  /** The characters `\s` and `str.rstrip()` treat as whitespace. */
  predicate IsSpace(c: char)
  {
    c == ' ' || c == '\t' || c == '\n' || c == '\r' || c == '\U{000B}' || c == '\U{000C}'
  }

  predicate StartsWith(s: string, p: string)
  {
    |p| <= |s| && s[..|p|] == p
  }

  /** `s.rstrip()`: `s` without its trailing whitespace. */
  function RStrip(s: string): (r: string)
    ensures r <= s && (r == [] || !IsSpace(r[|r| - 1]))
    ensures forall k :: |r| <= k < |s| ==> IsSpace(s[k])
  {
    if s != [] && IsSpace(s[|s| - 1]) then RStrip(s[..|s| - 1]) else s
  }

  /** `s.rstrip('\n')`: `s` without its trailing newlines. */
  function RStripNewlines(s: string): (r: string)
    ensures r <= s && (r == [] || r[|r| - 1] != '\n')
    ensures forall k :: |r| <= k < |s| ==> s[k] == '\n'
  {
    if s != [] && s[|s| - 1] == '\n' then RStripNewlines(s[..|s| - 1]) else s
  }

  /** The longest prefix of `s` without a tab: what `[^\t]+` takes. */
  function UntilTab(s: string): (r: string)
    ensures r <= s && '\t' !in r && (|r| < |s| ==> s[|r|] == '\t')
  {
    if s == [] || s[0] == '\t' then [] else [s[0]] + UntilTab(s[1..])
  }

  /** The text after the first occurrence of `c`, if `c` occurs in `s`. */
  function AfterFirst(s: string, c: char): (r: Option<string>)
    ensures r.None? <==> c !in s
    ensures r.Some? ==> exists i :: 0 <= i < |s| && s[i] == c && c !in s[..i] && r.value == s[i + 1..]
  {
    if s == [] then None
    else if s[0] == c then (assert s[..0] == []; Some(s[1..]))
    else
      var r := AfterFirst(s[1..], c);
      if r.Some? then
        var i :| 0 <= i < |s[1..]| && s[1..][i] == c && c !in s[1..][..i] && r.value == s[1..][i + 1..];
        assert s[..i + 1] == [s[0]] + s[1..][..i];
        r
      else
        assert s == [s[0]] + s[1..];
        r
  }

  // ---------------------------------------------------------------------
  // The three patterns
  // ---------------------------------------------------------------------

  /** `(?:---|\+\+\+) ([^\t]+)`: the path of a `---` or `+++` line, up to the first tab. */
  function HeaderPath(line: string): (r: Option<string>)
    ensures r.Some? <==> (StartsWith(line, OldPrefix) || StartsWith(line, NewPrefix)) && 4 < |line| && line[4] != '\t'
    ensures r.Some? ==> r.value == UntilTab(line[4..]) && r.value != []
  {
    if (StartsWith(line, OldPrefix) || StartsWith(line, NewPrefix)) && UntilTab(line[4..]) != [] then
      Some(UntilTab(line[4..]))
    else
      None
  }

  /** `path.split('/', 1)[-1].rstrip()`: the path without its first component, stripped. */
  function FileName(path: string): (r: string)
    ensures '/' !in path ==> r == RStrip(path)
    ensures '/' in path ==>
      exists i :: 0 <= i < |path| && path[i] == '/' && '/' !in path[..i] && r == RStrip(path[i + 1..])
  {
    match AfterFirst(path, '/')
    case Some(rest) => RStrip(rest)
    case None => RStrip(path)
  }

  /** The length of the run of ASCII digits at the start of `s`. */
  function DigitRun(s: string): (n: nat)
    ensures n <= |s| && (n < |s| ==> !IsDigit(s[n]))
    ensures forall k :: 0 <= k < n ==> IsDigit(s[k])
  {
    if s == [] || !IsDigit(s[0]) then 0 else 1 + DigitRun(s[1..])
  }

  /** `\d+` at the start of `s`: its value and the text after it. */
  function Number(s: string): (r: Option<(nat, string)>)
    ensures r.Some? <==> s != [] && IsDigit(s[0])
  {
    var n := DigitRun(s);
    if n == 0 then None else Some((Value(s[..n]), s[n..]))
  }

  /** The literal `p` at the start of `s`: the text after it. */
  function Literal(s: string, p: string): (r: Option<string>)
    ensures r.Some? <==> StartsWith(s, p)
    ensures r.Some? ==> s == p + r.value
  {
    if StartsWith(s, p) then Some(s[|p|..]) else None
  }

  /** A nonempty run of ASCII digits: what `\d+` matches. */
  predicate Numeral(ds: string)
  {
    ds != [] && AllDigits(ds)
  }

  /** The line `@@ -a,b +c,rest`. */
  function HunkHeader(a: string, b: string, c: string, rest: string): string
  {
    HunkOpen + (a + (Comma + (b + (HunkMiddle + (c + (Comma + rest))))))
  }

  /** `@@ -\d+,\d+ \+(\d+),`: the new-file start line of a hunk header. */
  function HunkStart(line: string): Option<nat>
  {
    match Literal(line, HunkOpen)
    case None => None
    case Some(a) =>
      match Number(a)
      case None => None
      case Some((_, b)) =>
        match Literal(b, Comma)
        case None => None
        case Some(c) =>
          match Number(c)
          case None => None
          case Some((_, d)) =>
            match Literal(d, HunkMiddle)
            case None => None
            case Some(e) =>
              match Number(e)
              case None => None
              case Some((start, f)) =>
                if Literal(f, Comma).Some? then Some(start) else None
  }

  /** `\+.*\s$` on `line.rstrip('\n')`: an added line that ends in whitespace. */
  predicate AddedTrailing(line: string)
  {
    var s := RStripNewlines(line);
    2 <= |s| && s[0] == '+' && IsSpace(s[|s| - 1]) && '\n' !in s[1..|s| - 1]
  }

  /** The column reported for a line: one past its last non-whitespace character. */
  function Column(line: string): nat
  {
    |RStrip(line)| + 1
  }

  /** A context or added line: one that occupies a line of the new file. */
  predicate CountsLine(line: string)
  {
    line != [] && (line[0] == ' ' || line[0] == '+')
  }

  // ---------------------------------------------------------------------
  // The state machine
  // ---------------------------------------------------------------------

  /** A line inside a header: a `---`/`+++` path names the file, and `+++ ` ends the header. */
  function HeaderStep(st: State, line: string): (r: State)
    ensures r.lineNumber == st.lineNumber
    ensures r.header <==> !StartsWith(line, NewPrefix)
  {
    var named := HeaderPath(line);
    State(!StartsWith(line, NewPrefix),
          if named.Some? && named.value != DevNull then Some(FileName(named.value)) else st.filename,
          st.lineNumber)
  }

  /** One line of the diff. */
  function Feed(sc: Scan, line: string): (r: Scan)
    ensures sc.reports <= r.reports && |r.reports| <= |sc.reports| + 1
    ensures sc.failed ==> r == sc
    ensures |r.reports| == |sc.reports| + 1 ==>
              !sc.state.header && AddedTrailing(line) && sc.state.filename.Some? &&
              r.reports[|sc.reports|] == Report(sc.state.filename.value, sc.state.lineNumber, Column(line))
    ensures r.failed && !sc.failed ==> AddedTrailing(line) && sc.state.filename.None? && r.reports == sc.reports
  {
    var st := sc.state;
    if sc.failed then sc
    else if st.header then Scan(HeaderStep(st, line), sc.reports, false)
    else if StartsWith(line, DiffPrefix) then Scan(st.(header := true), sc.reports, false)
    else if HunkStart(line).Some? then Scan(st.(lineNumber := HunkStart(line).value), sc.reports, false)
    else
      var next := st.(lineNumber := if CountsLine(line) then st.lineNumber + 1 else st.lineNumber);
      if !AddedTrailing(line) then Scan(next, sc.reports, false)
      else if st.filename.None? then Scan(st, sc.reports, true)
      else Scan(next, sc.reports + [Report(st.filename.value, st.lineNumber, Column(line))], false)
  }

  /** The scan after the lines `lines`, starting from `sc`. */
  function RunFrom(sc: Scan, lines: seq<string>): Scan
  {
    if lines == [] then sc else Feed(RunFrom(sc, lines[..|lines| - 1]), lines[|lines| - 1])
  }

  /** The scan of a whole diff. */
  function Run(diff: seq<string>): Scan
  {
    RunFrom(Init, diff)
  }

  /**
   * The hook's scanner: the reports for `diff`, in order, and whether it
   * stopped on an added line that came before any file name.
   */
  method Scanner(diff: seq<string>) returns (reports: seq<Report>, failed: bool)
    ensures reports == Run(diff).reports && failed == Run(diff).failed
  {
    var header := false;
    var filename: Option<string> := None;
    var lineNumber: nat := 0;
    reports := [];
    failed := false;
    var i := 0;
    while i < |diff|
      invariant 0 <= i <= |diff|
      invariant RunFrom(Init, diff[..i]) == Scan(State(header, filename, lineNumber), reports, false)
    {
      RunFromStep(diff, i);
      var stop;
      header, filename, lineNumber, reports, stop := ScanLine(header, filename, lineNumber, reports, diff[i]);
      if stop {
        failed := true;
        FailureIsFinal(diff, i + 1);
        break;
      }
      i := i + 1;
    }
    if !failed {
      assert diff[..i] == diff;
    }
  }

  /**
   * The body of the scanner's loop for one line, on its variables: the new
   * variables and reports, and whether the line stops the scan.
   */
  method ScanLine(header: bool, filename: Option<string>, lineNumber: nat, reports: seq<Report>, line: string)
    returns (header': bool, filename': Option<string>, lineNumber': nat, reports': seq<Report>, stop: bool)
    ensures Scan(State(header', filename', lineNumber'), reports', stop) ==
            Feed(Scan(State(header, filename, lineNumber), reports, false), line)
  {
    header', filename', lineNumber', reports', stop := header, filename, lineNumber, reports, false;
    if header {
      var named := HeaderPath(line);
      if named.Some? && named.value != DevNull {
        filename' := Some(FileName(named.value));
      }
      if StartsWith(line, NewPrefix) {
        header' := false;
      }
    } else if StartsWith(line, DiffPrefix) {
      header' := true;
    } else {
      var hunk := HunkStart(line);
      if hunk.Some? {
        lineNumber' := hunk.value;
      } else {
        if AddedTrailing(line) {
          if filename.None? {
            stop := true;
            return;
          }
          reports' := reports + [Report(filename.value, lineNumber, Column(line))];
        }
        if CountsLine(line) {
          lineNumber' := lineNumber + 1;
        }
      }
    }
  }

  // ---------------------------------------------------------------------
  // Properties of the scan
  // ---------------------------------------------------------------------

  /** Scanning two pieces one after the other is scanning them together. */
  lemma {:induction false} RunFromAppend(sc: Scan, a: seq<string>, b: seq<string>)
    ensures RunFrom(sc, a + b) == RunFrom(RunFrom(sc, a), b)
    decreases |b|
  {
    if b == [] {
      assert a + b == a;
    } else {
      assert (a + b)[..|a + b| - 1] == a + b[..|b| - 1];
      RunFromAppend(sc, a, b[..|b| - 1]);
    }
  }

  /** Once the scan has failed nothing more happens. */
  lemma {:induction false} FailedStaysFailed(sc: Scan, lines: seq<string>)
    requires sc.failed
    ensures RunFrom(sc, lines) == sc
    decreases |lines|
  {
    if lines != [] {
      FailedStaysFailed(sc, lines[..|lines| - 1]);
    }
  }

  /** Scanning one line more feeds that line to the scan so far. */
  lemma RunFromStep(diff: seq<string>, i: nat)
    requires i < |diff|
    ensures RunFrom(Init, diff[..i + 1]) == Feed(RunFrom(Init, diff[..i]), diff[i])
  {
    assert diff[..i + 1][..i] == diff[..i];
  }

  /** A failure on line `n - 1` is the result of the whole diff. */
  lemma FailureIsFinal(diff: seq<string>, n: nat)
    requires n <= |diff| && RunFrom(Init, diff[..n]).failed
    ensures RunFrom(Init, diff) == RunFrom(Init, diff[..n])
  {
    assert diff == diff[..n] + diff[n..];
    RunFromAppend(Init, diff[..n], diff[n..]);
    FailedStaysFailed(RunFrom(Init, diff[..n]), diff[n..]);
  }

  /** Reports are yielded as the scan goes: later lines never take one back. */
  lemma {:induction false} ReportsOnlyGrow(sc: Scan, a: seq<string>, b: seq<string>)
    ensures RunFrom(sc, a).reports <= RunFrom(sc, a + b).reports
    decreases |b|
  {
    if b == [] {
      assert a + b == a;
    } else {
      assert (a + b)[..|a + b| - 1] == a + b[..|b| - 1];
      ReportsOnlyGrow(sc, a, b[..|b| - 1]);
    }
  }

  /**
   * The reported column is one past the last character that is not
   * whitespace, and at least one whitespace character follows it on the line.
   */
  lemma ColumnMarksTrailingWhitespace(line: string)
    requires AddedTrailing(line)
    ensures var c := Column(line);
      2 <= c <= |line| && !IsSpace(line[c - 2]) && forall k :: c - 1 <= k < |line| ==> IsSpace(line[k])
  {
    var s := RStripNewlines(line);
    var r := RStrip(line);
    assert line[0] == '+';
    assert r != [] by {
      assert !IsSpace(line[0]);
    }
    assert |r| < |s| by {
      if |r| >= |s| {
        assert s[|s| - 1] == line[|s| - 1] == r[|s| - 1];
        RStripLastNotSpace(line, |s| - 1);
      }
    }
  }

  lemma RStripLastNotSpace(line: string, k: nat)
    requires k < |RStrip(line)| && forall j :: k < j < |RStrip(line)| ==> IsSpace(line[j])
    ensures !IsSpace(line[k]) || k + 1 < |RStrip(line)|
  {
    var r := RStrip(line);
    if k + 1 == |r| {
      assert line[k] == r[|r| - 1];
    }
  }

  /** A removed line (`-`) is never reported and does not move the line number. */
  lemma RemovedLineIgnored(sc: Scan, line: string)
    requires line != [] && line[0] == '-'
    ensures Feed(sc, line).reports == sc.reports && !Feed(sc, line).failed == !sc.failed
    ensures Feed(sc, line).state.lineNumber == sc.state.lineNumber
  {
    var s := RStripNewlines(line);
    assert s != [] ==> s[0] == '-';
    assert !AddedTrailing(line);
    assert !CountsLine(line);
  }

  /** An added line that does not end in whitespace is not reported. */
  lemma CleanLineNotReported(sc: Scan, line: string)
    requires line != [] && line[0] == '+' && (RStripNewlines(line) == [] || !IsSpace(RStripNewlines(line)[|RStripNewlines(line)| - 1]))
    ensures Feed(sc, line).reports == sc.reports && Feed(sc, line).failed == sc.failed
  {
  }

  /** Inside a header nothing is reported and the line number stays; a `+++ ` line ends it. */
  lemma {:induction false} HeaderIsSilent(sc: Scan, lines: seq<string>)
    requires !sc.failed && sc.state.header
    requires forall i :: 0 <= i < |lines| ==> !StartsWith(lines[i], NewPrefix)
    ensures var r := RunFrom(sc, lines);
      r.reports == sc.reports && !r.failed && r.state.header && r.state.lineNumber == sc.state.lineNumber
    decreases |lines|
  {
    if lines != [] {
      HeaderIsSilent(sc, lines[..|lines| - 1]);
    }
  }

  /**
   * The `+++` path names the file unless it is `/dev/null`; then the name
   * from the `---` line before it stays.  Either way the header ends.
   */
  lemma NewNameWins(sc: Scan, oldLine: string, newLine: string)
    requires !sc.failed && sc.state.header
    requires HeaderPath(oldLine).Some? && !StartsWith(oldLine, NewPrefix)
    requires HeaderPath(newLine).Some? && StartsWith(newLine, NewPrefix)
    ensures var r := RunFrom(sc, [oldLine, newLine]);
      var oldPath := HeaderPath(oldLine).value;
      var newPath := HeaderPath(newLine).value;
      !r.failed && !r.state.header && r.reports == sc.reports &&
      r.state.filename == if newPath != DevNull then Some(FileName(newPath))
                          else if oldPath != DevNull then Some(FileName(oldPath))
                          else sc.state.filename
  {
    assert [oldLine, newLine][..1] == [oldLine];
    assert [oldLine][..0] == [];
    var first := Feed(sc, oldLine);
    assert RunFrom(sc, [oldLine]) == first;
    assert first.state.header && !first.failed && first.reports == sc.reports;
  }

  /** A tab right after `/dev/null` makes the pattern see exactly `/dev/null`. */
  lemma DevNullPath(prefix: string, rest: string)
    requires prefix == OldPrefix || prefix == NewPrefix
    ensures HeaderPath(prefix + DevNull + ['\t'] + rest) == Some(DevNull)
  {
    var line := prefix + DevNull + ['\t'] + rest;
    assert line[..4] == prefix;
    assert line[4..] == DevNull + (['\t'] + rest);
    UntilTabStops(DevNull, ['\t'] + rest);
  }

  /** `[^\t]+` stops at the first tab. */
  lemma {:induction false} UntilTabStops(s: string, rest: string)
    requires '\t' !in s && rest != [] && rest[0] == '\t'
    ensures UntilTab(s + rest) == s
  {
    if s != [] {
      assert (s + rest)[1..] == s[1..] + rest;
      UntilTabStops(s[1..], rest);
      assert s == [s[0]] + s[1..];
    }
  }

  /**
   * An added line that ends in whitespace while no header has named a file
   * stops the scan, keeping the reports so far; a diff starting with one
   * fails with none.
   */
  lemma UnnamedFileFails(sc: Scan, line: string)
    requires !sc.failed && !sc.state.header && sc.state.filename.None? && AddedTrailing(line)
    ensures Feed(sc, line).failed && Feed(sc, line).reports == sc.reports
    ensures Run([line]).failed && Run([line]).reports == []
  {
    assert [line][..0] == [];
    assert RunFrom(Init, [line]) == Feed(RunFrom(Init, []), line);
    assert RStripNewlines(line) <= line;
    assert line[0] == '+';
    assert !StartsWith(line, DiffPrefix) by {
      assert DiffPrefix[0] == 'd';
    }
    assert HunkStart(line).None? by {
      assert HunkOpen[0] == '@';
      assert Literal(line, HunkOpen).None?;
    }
  }

  // ---------------------------------------------------------------------
  // Hunk headers and line numbers
  // ---------------------------------------------------------------------

  /** A nonempty digit string followed by a non-digit reads as its value. */
  lemma {:induction false} NumberReads(ds: string, rest: string)
    requires ds != [] && AllDigits(ds) && (rest == [] || !IsDigit(rest[0]))
    ensures Number(ds + rest) == Some((Value(ds), rest))
  {
    DigitRunOf(ds, rest);
    assert (ds + rest)[..|ds|] == ds;
    assert (ds + rest)[|ds|..] == rest;
  }

  lemma {:induction false} DigitRunOf(ds: string, rest: string)
    requires AllDigits(ds) && (rest == [] || !IsDigit(rest[0]))
    ensures DigitRun(ds + rest) == |ds|
  {
    if ds != [] {
      assert (ds + rest)[1..] == ds[1..] + rest;
      DigitRunOf(ds[1..], rest);
    }
  }

  lemma LiteralReads(p: string, rest: string)
    ensures Literal(p + rest, p) == Some(rest)
  {
    assert (p + rest)[..|p|] == p;
  }

  /** `@@ -a,b +c,...` is a hunk header whose new-file start is the value of `c`. */
  lemma HunkHeaderRead(a: string, b: string, c: string, rest: string)
    requires Numeral(a) && Numeral(b) && Numeral(c)
    ensures HunkStart(HunkHeader(a, b, c, rest)) == Some(Value(c))
  {
    var tail3 := HunkMiddle + (c + (Comma + rest));
    var tail1 := Comma + (b + tail3);
    LiteralReads(HunkOpen, a + tail1);
    assert Comma[0] == ',' && HunkMiddle[0] == ' ';
    NumberReads(a, tail1);
    LiteralReads(Comma, b + tail3);
    NumberReads(b, tail3);
    LiteralReads(HunkMiddle, c + (Comma + rest));
    NumberReads(c, Comma + rest);
    LiteralReads(Comma, rest);
  }

  /** Only such lines are hunk headers: a recognised line is `@@ -a,b +c,...` with start `c`. */
  lemma HunkStartMeans(line: string)
    requires HunkStart(line).Some?
    ensures exists a, b, c, rest ::
      Numeral(a) && Numeral(b) && Numeral(c) && line == HunkHeader(a, b, c, rest) && HunkStart(line).value == Value(c)
  {
    var s0 := Literal(line, HunkOpen).value;
    var a, s1 := NumberSplits(s0);
    var s2 := Literal(s1, Comma).value;
    var b, s3 := NumberSplits(s2);
    var s4 := Literal(s3, HunkMiddle).value;
    var c, s5 := NumberSplits(s4);
    var rest := Literal(s5, Comma).value;
    assert line == HunkHeader(a, b, c, rest);
  }

  /** A match of `\d+`: the digits it took and the text after them. */
  lemma NumberSplits(s: string) returns (ds: string, rest: string)
    requires Number(s).Some?
    ensures Numeral(ds) && s == ds + rest && Number(s) == Some((Value(ds), rest))
  {
    var n := DigitRun(s);
    ds, rest := s[..n], s[n..];
    assert forall k :: 0 <= k < n ==> ds[k] == s[k];
    assert s == ds + rest;
  }

  /** A hunk header outside a header sets the line number to the hunk's new-file start. */
  lemma HunkSetsLineNumber(sc: Scan, line: string)
    requires !sc.failed && !sc.state.header && HunkStart(line).Some?
    ensures var r := Feed(sc, line);
      r.state == sc.state.(lineNumber := HunkStart(line).value) && r.reports == sc.reports && !r.failed
  {
    assert line[..4] == HunkOpen;
  }

  /** Outside a header, a `diff ` line starts one and reports nothing. */
  lemma DiffStartsHeader(sc: Scan, line: string)
    requires !sc.failed && !sc.state.header && StartsWith(line, DiffPrefix)
    ensures var r := Feed(sc, line);
      r.state == sc.state.(header := true) && r.reports == sc.reports && !r.failed
  {
  }

  /** A body line: neither a `diff ` line nor a hunk header. */
  predicate Plain(line: string)
  {
    !StartsWith(line, DiffPrefix) && HunkStart(line).None?
  }

  /** How many lines of the new file `body` covers. */
  function NewLines(body: seq<string>): nat
  {
    if body == [] then 0 else (if CountsLine(body[0]) then 1 else 0) + NewLines(body[1..])
  }

  /**
   * The reports for the body lines of file `name`, the first of which is
   * new-file line `n`: each added line ending in whitespace, numbered by the
   * context and added lines before it.
   */
  function Reported(name: string, n: nat, body: seq<string>): seq<Report>
    decreases |body|
  {
    if body == [] then []
    else (if AddedTrailing(body[0]) then [Report(name, n, Column(body[0]))] else [])
         + Reported(name, n + (if CountsLine(body[0]) then 1 else 0), body[1..])
  }

  lemma {:induction false} NewLinesAppend(body: seq<string>, line: string)
    ensures NewLines(body + [line]) == NewLines(body) + (if CountsLine(line) then 1 else 0)
  {
    if body != [] {
      assert (body + [line])[1..] == body[1..] + [line];
      NewLinesAppend(body[1..], line);
    }
  }

  lemma {:induction false} ReportedAppend(name: string, n: nat, body: seq<string>, line: string)
    ensures Reported(name, n, body + [line]) ==
            Reported(name, n, body) + (if AddedTrailing(line) then [Report(name, n + NewLines(body), Column(line))] else [])
    decreases |body|
  {
    if body != [] {
      assert (body + [line])[1..] == body[1..] + [line];
      ReportedAppend(name, n + (if CountsLine(body[0]) then 1 else 0), body[1..], line);
    }
  }

  /**
   * Within a file's body the line number counts the context and added lines
   * from the hunk start, and the reports are exactly `Reported`.
   */
  lemma {:induction false} BodyReports(sc: Scan, body: seq<string>)
    requires !sc.failed && !sc.state.header && sc.state.filename.Some?
    requires forall i :: 0 <= i < |body| ==> Plain(body[i])
    ensures var r := RunFrom(sc, body);
      !r.failed && !r.state.header && r.state.filename == sc.state.filename &&
      r.state.lineNumber == sc.state.lineNumber + NewLines(body) &&
      r.reports == sc.reports + Reported(sc.state.filename.value, sc.state.lineNumber, body)
    decreases |body|
  {
    if body == [] {
      assert sc.reports + [] == sc.reports;
    } else {
      var init := body[..|body| - 1];
      var line := body[|body| - 1];
      assert body == init + [line];
      BodyReports(sc, init);
      NewLinesAppend(init, line);
      ReportedAppend(sc.state.filename.value, sc.state.lineNumber, init, line);
    }
  }

  /**
   * The header of one file: a `diff ` line, then the `---` and `+++` lines.
   * The `+++` path names the file, the header is over, and nothing is reported.
   */
  lemma FileHeader(sc: Scan, diffLine: string, oldLine: string, newLine: string)
    requires !sc.failed && !sc.state.header && StartsWith(diffLine, DiffPrefix)
    requires HeaderPath(oldLine).Some? && !StartsWith(oldLine, NewPrefix)
    requires HeaderPath(newLine).Some? && StartsWith(newLine, NewPrefix) && HeaderPath(newLine).value != DevNull
    ensures var r := RunFrom(sc, [diffLine, oldLine, newLine]);
      !r.failed && !r.state.header && r.state.filename == Some(FileName(HeaderPath(newLine).value)) &&
      r.reports == sc.reports
  {
    var s1 := Feed(sc, diffLine);
    DiffStartsHeader(sc, diffLine);
    assert [diffLine][..0] == [];
    assert RunFrom(sc, [diffLine]) == s1;
    NewNameWins(s1, oldLine, newLine);
    RunFromAppend(sc, [diffLine], [oldLine, newLine]);
    assert [diffLine] + [oldLine, newLine] == [diffLine, oldLine, newLine];
  }

  /**
   * A hunk header and its body, once the file is named: the line number
   * starts at the hunk's new-file start and the reports are the body's.
   */
  lemma HunkSection(sc: Scan, hunk: string, body: seq<string>)
    requires !sc.failed && !sc.state.header && sc.state.filename.Some? && HunkStart(hunk).Some?
    requires forall i :: 0 <= i < |body| ==> Plain(body[i])
    ensures var r := RunFrom(sc, [hunk] + body);
      var start := HunkStart(hunk).value;
      && !r.failed && !r.state.header && r.state.filename == sc.state.filename
      && r.state.lineNumber == start + NewLines(body)
      && r.reports == sc.reports + Reported(sc.state.filename.value, start, body)
  {
    var s4 := Feed(sc, hunk);
    HunkSetsLineNumber(sc, hunk);
    assert [hunk][..0] == [];
    assert RunFrom(sc, [hunk]) == s4;
    BodyReports(s4, body);
    RunFromAppend(sc, [hunk], body);
  }

  /**
   * One file of an `hg export`: its header, a hunk header and the body.
   * The file is named by the `+++` path and the reports are exactly those
   * of the body, numbered from the hunk start.
   */
  lemma FileSection(sc: Scan, diffLine: string, oldLine: string, newLine: string, hunk: string, body: seq<string>)
    requires !sc.failed && !sc.state.header && StartsWith(diffLine, DiffPrefix)
    requires HeaderPath(oldLine).Some? && !StartsWith(oldLine, NewPrefix)
    requires HeaderPath(newLine).Some? && StartsWith(newLine, NewPrefix) && HeaderPath(newLine).value != DevNull
    requires HunkStart(hunk).Some?
    requires forall i :: 0 <= i < |body| ==> Plain(body[i])
    ensures var r := RunFrom(sc, [diffLine, oldLine, newLine, hunk] + body);
      var name := FileName(HeaderPath(newLine).value);
      var start := HunkStart(hunk).value;
      && !r.failed && !r.state.header && r.state.filename == Some(name)
      && r.state.lineNumber == start + NewLines(body)
      && r.reports == sc.reports + Reported(name, start, body)
  {
    var head, rest := [diffLine, oldLine, newLine], [hunk] + body;
    FileHeader(sc, diffLine, oldLine, newLine);
    HunkSection(RunFrom(sc, head), hunk, body);
    RunFromAppend(sc, head, rest);
    SplitAfterThree(diffLine, oldLine, newLine, hunk, body);
  }

  /** Four lines and a body, split after the third line. */
  lemma SplitAfterThree(a: string, b: string, c: string, d: string, body: seq<string>)
    ensures [a, b, c, d] + body == [a, b, c] + ([d] + body)
  {
    assert [a, b, c, d] == [a, b, c] + [d];
  }
}
