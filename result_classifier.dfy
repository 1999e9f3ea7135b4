/**
 * The unit-test log classifier of tests/ci/unit_tests_check.py: `get_test_name` and
 * `process_result`. The result folder's file system is a map from path to the lines
 * that iterating over the opened file yields (line terminators included).
 */
module ResultClassifier {
  import opened Wrappers
  import opened Text

  // The markers searched for in each line, and the texts the verdict is built from.
  const OkSign := "OK ]"
  const FailedSign := "FAILED  ]"
  const SegfaultSign := "Segmentation fault"
  const SignalSign := "received signal SIG"
  const PassedSign := "PASSED"
  const ListedBelow := "listed below"
  const DurationMark := "ms)"
  const LogFileName := "/test_result.txt"
  const SegfaultText := "Segmentation fault. "
  const SignalText := "Exit on signal. "
  const NoPassedText := "PASSED record not found. "
  const NoLogText := "No output log"

  /** The commit status reported for the run. */
  datatype RunStatus = Success | Failure | Error

  /** One summary entry: a test name with "OK" or "FAIL". */
  datatype TestStatus = OK | FAIL
  datatype TestResult = TestResult(name: string, status: TestStatus)

  /** The tuple `(status, description, summary, extra_logs)` that `process_result` returns. */
  datatype Verdict = Verdict(status: RunStatus, description: string, summary: seq<TestResult>, extraLogs: seq<string>)

  /** The exception `get_test_name` raises, carrying the offending (stripped) line. */
  datatype ClassifyError = NoTestName(line: string)

  // ---------------------------------------------------------------------------
  // get_test_name

  predicate HasParen(t: string) { '(' in t || ')' in t }

  /** Token `k` is `name`, and every token after it contains a parenthesis. */
  predicate LastCleanAt(tokens: seq<string>, name: string, k: int) {
    0 <= k < |tokens| && tokens[k] == name && forall j :: k < j < |tokens| ==> HasParen(tokens[j])
  }

  /** Index of the last token without a parenthesis, or -1 when there is none. */
  function LastCleanIndex(tokens: seq<string>): (k: int)
    ensures -1 <= k < |tokens|
  {
    if |tokens| == 0 then -1
    else if !HasParen(tokens[|tokens| - 1]) then |tokens| - 1
    else LastCleanIndex(tokens[..|tokens| - 1])
  }

  lemma {:induction false} LastCleanIndexSpec(tokens: seq<string>)
    ensures 0 <= LastCleanIndex(tokens) ==> !HasParen(tokens[LastCleanIndex(tokens)])
    ensures forall j :: LastCleanIndex(tokens) < j < |tokens| ==> HasParen(tokens[j])
  {
    if |tokens| > 0 && HasParen(tokens[|tokens| - 1]) {
      LastCleanIndexSpec(tokens[..|tokens| - 1]);
    }
  }

  /** A parenthesis-free token followed only by tokens with a parenthesis is the one found. */
  lemma LastCleanIndexAt(tokens: seq<string>, name: string, k: int)
    requires LastCleanAt(tokens, name, k) && !HasParen(name)
    ensures LastCleanIndex(tokens) == k
  {
    LastCleanIndexSpec(tokens);
    assert !HasParen(tokens[k]);
  }

  /** `get_test_name(line)`: a name it returns holds neither a parenthesis nor a space, and the
      error it raises names the line (when each happens: `GetTestNameSpec`). */
  function GetTestName(line: string): (r: Result<string, ClassifyError>)
    ensures r.Err? ==> r.error == NoTestName(line)
    ensures r.Ok? ==> !HasParen(r.value) && ' ' !in r.value
  {
    var tokens := Split(line, ' ');
    var k := LastCleanIndex(tokens);
    LastCleanIndexSpec(tokens);
    SplitSpec(line, ' ');
    if k < 0 then Err(NoTestName(line)) else Ok(tokens[k])
  }

  /** `get_test_name` scans the ' '-separated tokens from the end and returns the first one with
      neither '(' nor ')'; it raises exactly when every token has one. */
  lemma GetTestNameSpec(line: string)
    ensures GetTestName(line).Err? <==>
      forall k :: 0 <= k < |Split(line, ' ')| ==> HasParen(Split(line, ' ')[k])
    ensures GetTestName(line).Ok? ==> exists k :: LastCleanAt(Split(line, ' '), GetTestName(line).value, k)
  {
    var tokens := Split(line, ' ');
    LastCleanIndexSpec(tokens);
    var k := LastCleanIndex(tokens);
    assert GetTestName(line) == (if k < 0 then Err(NoTestName(line)) else Ok(tokens[k]));
    if k < 0 {
      assert forall j :: 0 <= j < |tokens| ==> HasParen(tokens[j]);
    } else {
      assert !HasParen(tokens[k]);
      assert !(forall j :: 0 <= j < |tokens| ==> HasParen(tokens[j]));
      assert !GetTestName(line).Err?;
      assert tokens == Split(line, ' ');
      assert LastCleanAt(tokens, tokens[k], k);
    }
  }

  /** Splitting on a single space keeps empty tokens: a line ending in ' ' names the empty test. */
  lemma TrailingSpaceGivesEmptyName(line: string)
    requires |line| > 0 && line[|line| - 1] == ' '
    ensures GetTestName(line) == Ok("")
  {
    var head := line[..|line| - 1];
    var tokens := Split(head, ' ');
    SplitSpec(head, ' ');
    LastCleanIndexSpec(tokens + [""]);
    assert line == head + [' '] + "";
    SplitJoin(tokens + [""], ' ');
    assert Join([' '], tokens + [""]) == line by {
      JoinSnoc([' '], tokens, "");
    }
  }

  /** Splitting on a single space also gives an empty token between two adjacent spaces: when
      that token is followed only by tokens with a parenthesis, the name is empty. */
  lemma EmptyNameBeforeParens(parts: seq<string>, k: nat)
    requires forall j :: 0 <= j < |parts| ==> ' ' !in parts[j]
    requires LastCleanAt(parts, "", k)
    ensures GetTestName(Join(" ", parts)) == Ok("")
  {
    SplitJoin(parts, ' ');
    assert !HasParen("");
    LastCleanIndexAt(parts, "", k);
  }

  lemma {:induction false} JoinSnoc(sep: string, parts: seq<string>, last: string)
    requires |parts| >= 1
    ensures Join(sep, parts + [last]) == Join(sep, parts) + sep + last
  {
    if |parts| == 1 {
      assert (parts + [last])[1..] == [last];
    } else {
      JoinSnoc(sep, parts[1..], last);
      assert (parts + [last])[1..] == parts[1..] + [last];
    }
  }

  // ---------------------------------------------------------------------------
  // Line classification

  /** Which branch of the if/elif chain a line takes. */
  datatype LineKind = OkLine | FailLine | SegfaultLine | SignalLine | PassedLine | OtherLine

  /** A "FAILED  ]" line that records one failed test: it carries a duration and is not the
      "listed below" header of the failure list. */
  predicate IsFailureRecord(line: string) {
    Contains(line, FailedSign) && !Contains(line, ListedBelow) && Contains(line, DurationMark)
  }

  /** The test of one branch of the if/elif chain, taken on its own. */
  predicate Matches(line: string, k: LineKind) {
    match k
    case OkLine => Contains(line, OkSign)
    case FailLine => IsFailureRecord(line)
    case SegfaultLine => Contains(line, SegfaultSign)
    case SignalLine => Contains(line, SignalSign)
    case PassedLine => Contains(line, PassedSign)
    case OtherLine => true
  }

  /** Which branch of the if/elif chain `line` takes: the first of the rules OK, FAILED,
      segfault, signal, PASSED that it matches (see `KindOfFirstMatch`). */
  function KindOf(line: string): LineKind
  {
    if Contains(line, OkSign) then OkLine
    else if IsFailureRecord(line) then FailLine
    else if Contains(line, SegfaultSign) then SegfaultLine
    else if Contains(line, SignalSign) then SignalLine
    else if Contains(line, PassedSign) then PassedLine
    else OtherLine
  }

  /** The kinds that end the scan. */
  predicate IsStop(k: LineKind) { k == SegfaultLine || k == SignalLine }

  /** Index of the first segfault or signal line; |log| when there is none (see `StopIndexSpec`). */
  function StopIndex(log: seq<string>): (k: nat)
    ensures k <= |log|
  {
    if |log| == 0 then 0
    else if IsStop(KindOf(log[0])) then 0
    else 1 + StopIndex(log[1..])
  }

  /** The line at `StopIndex` is a stop line, and no line before it is. */
  lemma {:induction false} StopIndexSpec(log: seq<string>)
    ensures StopIndex(log) < |log| ==> IsStop(KindOf(log[StopIndex(log)]))
    ensures forall j :: 0 <= j < StopIndex(log) ==> !IsStop(KindOf(log[j]))
  {
    if |log| > 0 && !IsStop(KindOf(log[0])) {
      StopIndexSpec(log[1..]);
      assert forall j :: 1 <= j < |log| ==> log[1..][j - 1] == log[j];
    }
  }

  lemma StopIndexStep(log: seq<string>, i: nat)
    requires i < |log| && i <= StopIndex(log) && !IsStop(KindOf(log[i]))
    ensures i + 1 <= StopIndex(log)
  {
    StopIndexSpec(log);
  }

  /** A stop line at or before the first stop line is the first stop line. */
  lemma StopIndexAt(log: seq<string>, i: nat)
    requires i < |log| && i <= StopIndex(log) && IsStop(KindOf(log[i]))
    ensures i == StopIndex(log)
  {
    StopIndexSpec(log);
  }

  /** The summary entry a line contributes, if any; the name error for an unnamed OK/FAILED line. */
  function RecordOf(line: string): Result<Option<TestResult>, ClassifyError>
  {
    match KindOf(line)
    case OkLine =>
      (match GetTestName(Strip(line))
       case Ok(name) => Ok(Some(TestResult(name, OK)))
       case Err(e) => Err(e))
    case FailLine =>
      (match GetTestName(Strip(line))
       case Ok(name) => Ok(Some(TestResult(name, FAIL)))
       case Err(e) => Err(e))
    case _ => Ok(None)
  }

  /** An OK line whose stripped text ends in an empty token followed only by tokens with a
      parenthesis records a test with the empty name. */
  lemma EmptyNameRecord(line: string, parts: seq<string>, k: nat)
    requires KindOf(line) == OkLine && Strip(line) == Join(" ", parts)
    requires forall j :: 0 <= j < |parts| ==> ' ' !in parts[j]
    requires LastCleanAt(parts, "", k)
    ensures RecordOf(line) == Ok(Some(TestResult("", OK)))
  {
    EmptyNameBeforeParens(parts, k);
  }

  /** The summary after one more line: an error stays, a record is appended, other lines add
      nothing. */
  function Extend(acc: Result<seq<TestResult>, ClassifyError>, rec: Result<Option<TestResult>, ClassifyError>)
    : Result<seq<TestResult>, ClassifyError>
  {
    match acc
    case Err(e) => Err(e)
    case Ok(s) =>
      match rec
      case Err(e) => Err(e)
      case Ok(None) => Ok(s)
      case Ok(Some(t)) => Ok(s + [t])
  }

  /** The summary of a run of lines, in line order; the first name error if one occurs. */
  function Summary(lines: seq<string>): Result<seq<TestResult>, ClassifyError>
  {
    if |lines| == 0 then Ok([]) else Extend(Summary(lines[..|lines| - 1]), RecordOf(lines[|lines| - 1]))
  }

  /** Some line of the run is a PASSED line (see `AnyPassedIff`). */
  predicate AnyPassed(lines: seq<string>) {
    |lines| > 0 && (AnyPassed(lines[..|lines| - 1]) || KindOf(lines[|lines| - 1]) == PassedLine)
  }

  lemma {:induction false} AnyPassedIff(lines: seq<string>)
    ensures AnyPassed(lines) <==> exists j :: 0 <= j < |lines| && KindOf(lines[j]) == PassedLine
  {
    if |lines| > 0 {
      var init := lines[..|lines| - 1];
      AnyPassedIff(init);
      assert forall j :: 0 <= j < |init| ==> init[j] == lines[j];
    }
  }

  /** The number of FAIL entries of a summary. */
  function CountFail(s: seq<TestResult>): (n: nat)
    ensures n <= |s|
  {
    if |s| == 0 then 0 else CountFail(s[..|s| - 1]) + (if s[|s| - 1].status == FAIL then 1 else 0)
  }

  /** No FAIL entry is counted exactly when every entry is OK. */
  lemma {:induction false} CountFailZero(s: seq<TestResult>)
    ensures CountFail(s) == 0 <==> forall k :: 0 <= k < |s| ==> s[k].status == OK
  {
    if |s| > 0 {
      var init := s[..|s| - 1];
      CountFailZero(init);
      assert forall k :: 0 <= k < |init| ==> init[k] == s[k];
    }
  }

  /** The description of a run that neither crashed nor missed its PASSED line. */
  function CountsText(failed: nat, passed: nat): (r: string)
    ensures |r| > 0 && r[0] == 'f'
  {
    "fail: " + NatToString(failed) + ", passed: " + NatToString(passed)
  }

  /** The counts text never contains the PASSED note: it has no capital letter. */
  lemma CountsTextLacksNote(failed: nat, passed: nat)
    ensures !Contains(CountsText(failed, passed), NoPassedText)
  {
    var a := NatToString(failed);
    var b := NatToString(passed);
    var r := "fail: " + a + ", passed: " + b;
    assert forall k :: 0 <= k < |a| ==> r[6 + k] == a[k];
    assert forall k :: 0 <= k < |b| ==> r[6 + |a| + 10 + k] == b[k];
    assert forall k :: 0 <= k < |r| ==> r[k] != 'A';
    NotContainsMissingChar(r, NoPassedText, 'A');
  }

  /** What the loop leaves in `description` when the scan stops at index `stop`: the crash text
      of a segfault or signal line, or "" when the scan ran to the end. */
  function CrashText(log: seq<string>, stop: nat): (r: string)
    ensures r == "" <==> stop >= |log|
    ensures r == "" || r == SegfaultText || r == SignalText
  {
    if stop >= |log| then "" else if KindOf(log[stop]) == SegfaultLine then SegfaultText else SignalText
  }

  /** The description after the post-loop rules: the PASSED note is added when no PASSED line
      was seen, and an empty description becomes the counts text. `crash` is what the loop left. */
  function FinalDescription(crash: string, passed: bool, failed: nat, total: nat): (r: string)
    requires failed <= total
  {
    var notes := crash + (if passed then "" else NoPassedText);
    if notes == "" then CountsText(failed, total - failed) else notes
  }

  /** The post-loop rules: no PASSED line and a FAIL entry each fail the run, and the
      description is completed by `FinalDescription`. A successful run is described by its
      counts. */
  function PostScan(crash: string, passed: bool, summary: seq<TestResult>, path: string): (r: Verdict)
    ensures r.status == Success ==>
      r.description == CountsText(CountFail(summary), |summary| - CountFail(summary))
  {
    var failed := CountFail(summary);
    var status := if crash == "" && passed && failed == 0 then Success else Failure;
    Verdict(status, FinalDescription(crash, passed, failed, |summary|), summary, [path])
  }

  /** The verdict for an existing log file at `path` with lines `log`: the scan covers the lines
      before the first segfault or signal line; the post-scan rules run whether or not it stopped. */
  function ClassifyLines(path: string, log: seq<string>): (r: Result<Verdict, ClassifyError>)
    ensures r.Ok? ==> r.value.status in {Success, Failure} && r.value.extraLogs == [path]
  {
    var stop := StopIndex(log);
    match Summary(log[..stop])
    case Err(e) => Err(e)
    case Ok(summary) => Ok(PostScan(CrashText(log, stop), AnyPassed(log[..stop]), summary, path))
  }

  /** What `process_result(result_folder)` returns, or the exception it raises. */
  function ClassifyLog(fs: map<string, seq<string>>, resultFolder: string): (r: Result<Verdict, ClassifyError>)
    ensures resultFolder + LogFileName !in fs ==> r == Ok(Verdict(Error, NoLogText, [], []))
    ensures resultFolder + LogFileName in fs && r.Ok? ==>
      r.value.status in {Success, Failure} && r.value.extraLogs == [resultFolder + LogFileName]
  {
    var path := resultFolder + LogFileName;
    if path !in fs then Ok(Verdict(Error, NoLogText, [], [])) else ClassifyLines(path, fs[path])
  }

  // ---------------------------------------------------------------------------
  // process_result

  /** `process_result`: one pass over the log lines with the same if/elif chain, counters,
      early `break` and post-loop rules as the script. */
  method ProcessResult(fs: map<string, seq<string>>, resultFolder: string) returns (r: Result<Verdict, ClassifyError>)
    ensures r == ClassifyLog(fs, resultFolder)
  {
    var summary: seq<TestResult> := [];
    var totalCounter: nat := 0;
    var failedCounter: nat := 0;
    var resultLogPath := resultFolder + LogFileName;
    if resultLogPath !in fs {
      return Ok(Verdict(Error, NoLogText, summary, []));
    }

    var status := Success;
    var description := "";
    var passed := false;
    var log := fs[resultLogPath];
    var i := 0;
    while i < |log|
      invariant Scanned(log, i, summary, passed)
      invariant status == Success && |description| == 0
      invariant totalCounter == |summary| && failedCounter == CountFail(summary)
    {
      var line := log[i];
      var kind := KindOf(line);
      if kind == OkLine {
        var testName := GetTestName(Strip(line));
        if testName.Err? {
          ClassifyLinesError(resultLogPath, log, i, summary, passed);
          return Err(testName.error);
        }
        ScanRecord(log, i, summary, passed, TestResult(testName.value, OK));
        summary := summary + [TestResult(testName.value, OK)];
        totalCounter := totalCounter + 1;
      } else if kind == FailLine {
        var testName := GetTestName(Strip(line));
        if testName.Err? {
          ClassifyLinesError(resultLogPath, log, i, summary, passed);
          return Err(testName.error);
        }
        ScanRecord(log, i, summary, passed, TestResult(testName.value, FAIL));
        summary := summary + [TestResult(testName.value, FAIL)];
        totalCounter := totalCounter + 1;
        failedCounter := failedCounter + 1;
      } else if kind == SegfaultLine {
        status := Failure;
        description := description + SegfaultText;
        break;
      } else if kind == SignalLine {
        status := Failure;
        description := description + SignalText;
        break;
      } else if kind == PassedLine {
        ScanPassed(log, i, summary, passed);
        passed := true;
      } else {
        ScanOther(log, i, summary, passed);
      }
      i := i + 1;
    }
    ScanStop(log, i, summary, passed);
    ghost var crash := CrashText(log, i);
    assert description == crash;
    assert status == (if i == |log| then Success else Failure);

    if !passed {
      status := Failure;
      description := description + NoPassedText;
    }
    ghost var notes := crash + (if passed then "" else NoPassedText);
    assert description == notes;
    if failedCounter != 0 {
      status := Failure;
    }
    assert status == (if crash == "" && passed && failedCounter == 0 then Success else Failure);
    if description == "" {
      description := description + CountsText(failedCounter, totalCounter - failedCounter);
    }
    assert description == FinalDescription(crash, passed, failedCounter, totalCounter);
    r := Ok(Verdict(status, description, summary, [resultLogPath]));
    assert r == Ok(PostScan(crash, passed, summary, resultLogPath));
    ClassifyLinesAt(resultLogPath, log, i, summary, passed);
  }

  /** The verdict once the scan has stopped at the first stop line. */
  lemma ClassifyLinesAt(path: string, log: seq<string>, stop: nat, summary: seq<TestResult>, passed: bool)
    requires stop == StopIndex(log) && Summary(log[..stop]) == Ok(summary) && passed == AnyPassed(log[..stop])
    ensures ClassifyLines(path, log) == Ok(PostScan(CrashText(log, stop), passed, summary, path))
  {
  }

  /** The loop has read `log[..i]`, no stop line among them, with this summary and PASSED flag. */
  ghost predicate Scanned(log: seq<string>, i: nat, summary: seq<TestResult>, passed: bool) {
    i <= StopIndex(log) && Summary(log[..i]) == Ok(summary) && passed == AnyPassed(log[..i])
  }

  /** A record line appends its entry. */
  lemma ScanRecord(log: seq<string>, i: nat, summary: seq<TestResult>, passed: bool, t: TestResult)
    requires Scanned(log, i, summary, passed) && i < |log| && RecordOf(log[i]) == Ok(Some(t))
    ensures Scanned(log, i + 1, summary + [t], passed)
    ensures CountFail(summary + [t]) == CountFail(summary) + (if t.status == FAIL then 1 else 0)
  {
    StopIndexStep(log, i);
    SummaryExtend(log, i, t);
    AnyPassedExtend(log, i);
    CountFailSnoc(summary, t);
  }

  /** A PASSED line adds no entry and sets the flag. */
  lemma ScanPassed(log: seq<string>, i: nat, summary: seq<TestResult>, passed: bool)
    requires Scanned(log, i, summary, passed) && i < |log| && KindOf(log[i]) == PassedLine
    ensures Scanned(log, i + 1, summary, true)
  {
    StopIndexStep(log, i);
    SummarySkip(log, i);
    AnyPassedExtend(log, i);
  }

  /** A line that matches no rule changes nothing. */
  lemma ScanOther(log: seq<string>, i: nat, summary: seq<TestResult>, passed: bool)
    requires Scanned(log, i, summary, passed) && i < |log| && KindOf(log[i]) == OtherLine
    ensures Scanned(log, i + 1, summary, passed)
  {
    StopIndexStep(log, i);
    SummarySkip(log, i);
    AnyPassedExtend(log, i);
  }

  /** When the loop ends, at the end of the log or at a stop line, it has read exactly the lines
      before the first stop line. */
  lemma ScanStop(log: seq<string>, i: nat, summary: seq<TestResult>, passed: bool)
    requires Scanned(log, i, summary, passed)
    requires i == |log| || IsStop(KindOf(log[i]))
    ensures i == StopIndex(log)
  {
    if i < |log| {
      StopIndexAt(log, i);
    }
  }

  /** A name error in a record line before the first stop line is the error of the whole log. */
  lemma ClassifyLinesError(path: string, log: seq<string>, i: nat, summary: seq<TestResult>, passed: bool)
    requires Scanned(log, i, summary, passed) && i < |log| && !IsStop(KindOf(log[i])) && RecordOf(log[i]).Err?
    ensures ClassifyLines(path, log) == Err(RecordOf(log[i]).error)
  {
    StopIndexStep(log, i);
    SummaryError(log, i);
    SummaryErrorPersists(log, i + 1, StopIndex(log));
  }

  lemma SummaryExtend(log: seq<string>, i: nat, entry: TestResult)
    requires i < |log| && Summary(log[..i]).Ok? && RecordOf(log[i]) == Ok(Some(entry))
    ensures Summary(log[..i + 1]) == Ok(Summary(log[..i]).value + [entry])
  {
    var lines := log[..i + 1];
    assert lines[..|lines| - 1] == log[..i];
    assert lines[|lines| - 1] == log[i];
  }

  lemma SummaryError(log: seq<string>, i: nat)
    requires i < |log| && Summary(log[..i]).Ok? && RecordOf(log[i]).Err?
    ensures Summary(log[..i + 1]) == Err(RecordOf(log[i]).error)
  {
    var lines := log[..i + 1];
    assert lines[..|lines| - 1] == log[..i];
    assert lines[|lines| - 1] == log[i];
  }

  lemma CountFailSnoc(s: seq<TestResult>, t: TestResult)
    ensures CountFail(s + [t]) == CountFail(s) + (if t.status == FAIL then 1 else 0)
  {
    assert (s + [t])[..|s|] == s;
  }

  lemma SummarySkip(log: seq<string>, i: nat)
    requires i < |log| && Summary(log[..i]).Ok? && RecordOf(log[i]) == Ok(None)
    ensures Summary(log[..i + 1]) == Summary(log[..i])
  {
    var lines := log[..i + 1];
    assert lines[..|lines| - 1] == log[..i];
    assert lines[|lines| - 1] == log[i];
  }

  lemma AnyPassedExtend(log: seq<string>, i: nat)
    requires i < |log|
    ensures AnyPassed(log[..i + 1]) == (AnyPassed(log[..i]) || KindOf(log[i]) == PassedLine)
  {
    assert log[..i + 1][..i] == log[..i];
  }

  /** A name error in a prefix is the error of every longer prefix. */
  lemma {:induction false} SummaryErrorPersists(log: seq<string>, j: nat, k: nat)
    requires j <= k <= |log|
    requires Summary(log[..j]).Err?
    ensures Summary(log[..k]) == Summary(log[..j])
    decreases k - j
  {
    if j < k {
      SummaryErrorPersists(log, j, k - 1);
      SummaryErrorStep(log, k);
    }
  }

  lemma SummaryErrorStep(log: seq<string>, k: nat)
    requires 0 < k <= |log| && Summary(log[..k - 1]).Err?
    ensures Summary(log[..k]) == Summary(log[..k - 1])
  {
    var lines := log[..k];
    assert lines[..|lines| - 1] == log[..k - 1];
  }
}
