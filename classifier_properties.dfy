/**
 * What `process_result` promises about its verdict, stated over the reference
 * `ClassifyLines`/`ClassifyLog` that the method `ProcessResult` is proved equal to.
 */
module ClassifierProperties {
  import opened Wrappers
  import opened Text
  import opened ResultClassifier

  /** The number of lines of kind `k`. */
  function CountKind(lines: seq<string>, k: LineKind): (n: nat)
    ensures n <= |lines|
  {
    if |lines| == 0 then 0
    else CountKind(lines[..|lines| - 1], k) + (if KindOf(lines[|lines| - 1]) == k then 1 else 0)
  }

  /** A PASSED line occurs among the first `stop` lines. */
  predicate PassedBefore(log: seq<string>, stop: int) {
    exists j :: 0 <= j < stop && j < |log| && KindOf(log[j]) == PassedLine
  }

  // ---------------------------------------------------------------------------
  // Line classification

  /** The order in which the chain tries its branches. */
  const Priority: seq<LineKind> := [OkLine, FailLine, SegfaultLine, SignalLine, PassedLine, OtherLine]

  /** A line takes the first branch, in priority order, whose test it passes. */
  lemma KindOfFirstMatch(line: string)
    ensures Matches(line, KindOf(line))
    ensures forall i, j :: 0 <= i < j < |Priority| && Priority[j] == KindOf(line) ==> !Matches(line, Priority[i])
  {
  }

  /** An OK line with two spaces before the duration and no test name records the empty name. */
  /** An OK line with no test name before its duration, and its `' '`-tokens after `strip()`. */
  const EmptyNameLine := "[ OK ]  (5 ms)\n"
  const EmptyNameTokens := ["[", "OK", "]", "", "(5", "ms)"]

  lemma EmptyNameLineIsOk()
    ensures KindOf(EmptyNameLine) == OkLine
  {
    assert OccursAt(EmptyNameLine, OkSign, 2);
    ContainsAt(EmptyNameLine, OkSign, 2);
  }

  lemma EmptyNameLineTokens()
    ensures Strip(EmptyNameLine) == Join(" ", EmptyNameTokens)
  {
    var text := EmptyNameLine[..|EmptyNameLine| - 1];
    assert Strip(EmptyNameLine) == text;
    assert Join(" ", EmptyNameTokens) == text;
  }

  lemma EmptyNameTokensShape()
    ensures forall j :: 0 <= j < |EmptyNameTokens| ==> ' ' !in EmptyNameTokens[j]
    ensures LastCleanAt(EmptyNameTokens, "", 3)
  {
    assert EmptyNameTokens[4][0] == '(';
    assert EmptyNameTokens[5][2] == ')';
  }

  lemma EmptyNameExample()
    ensures RecordOf(EmptyNameLine) == Ok(Some(TestResult("", OK)))
  {
    EmptyNameLineIsOk();
    EmptyNameLineTokens();
    EmptyNameTokensShape();
    EmptyNameRecord(EmptyNameLine, EmptyNameTokens, 3);
  }

  // ---------------------------------------------------------------------------
  // The summary

  /** The summary of a concatenation is the concatenation of the summaries: entries appear in
      log order. */
  lemma {:induction false} SummaryAppend(a: seq<string>, b: seq<string>)
    requires Summary(a).Ok? && Summary(b).Ok?
    ensures Summary(a + b) == Ok(Summary(a).value + Summary(b).value)
    decreases |b|
  {
    if |b| == 0 {
      assert a + b == a;
      assert Summary(a).value + [] == Summary(a).value;
    } else {
      var init := b[..|b| - 1];
      var last := b[|b| - 1];
      var ab := a + b;
      assert ab[..|ab| - 1] == a + init;
      assert ab[|ab| - 1] == last;
      ExtendOk(Summary(init), RecordOf(last));
      SummaryAppend(a, init);
      ExtendPrefix(Summary(a).value, Summary(init).value, RecordOf(last));
    }
  }

  lemma ExtendOk(acc: Result<seq<TestResult>, ClassifyError>, rec: Result<Option<TestResult>, ClassifyError>)
    requires Extend(acc, rec).Ok?
    ensures acc.Ok? && rec.Ok?
  {
  }

  lemma ExtendPrefix(p: seq<TestResult>, s: seq<TestResult>, rec: Result<Option<TestResult>, ClassifyError>)
    requires Extend(Ok(s), rec).Ok?
    ensures Extend(Ok(p + s), rec) == Ok(p + Extend(Ok(s), rec).value)
  {
    if rec.Ok? && rec.value.Some? {
      assert p + s + [rec.value.value] == p + (s + [rec.value.value]);
    }
  }

  /** One entry per OK or FAILED record line (`total_counter`), and one FAIL entry per FAILED
      record line (`failed_counter`). */
  lemma {:induction false} SummaryCounts(lines: seq<string>)
    requires Summary(lines).Ok?
    ensures |Summary(lines).value| == CountKind(lines, OkLine) + CountKind(lines, FailLine)
    ensures CountFail(Summary(lines).value) == CountKind(lines, FailLine)
  {
    if |lines| > 0 {
      var init := lines[..|lines| - 1];
      var last := lines[|lines| - 1];
      SummaryCounts(init);
      var s := Summary(init).value;
      match RecordOf(last)
      case Ok(Some(t)) =>
        CountFailSnoc(s, t);
      case Ok(None) =>
      case Err(_) =>
    }
  }

  /** No summary name contains a parenthesis. */
  lemma {:induction false} SummaryNamesClean(lines: seq<string>)
    requires Summary(lines).Ok?
    ensures forall k :: 0 <= k < |Summary(lines).value| ==> !HasParen(Summary(lines).value[k].name)
  {
    if |lines| > 0 {
      var init := lines[..|lines| - 1];
      var last := lines[|lines| - 1];
      SummaryNamesClean(init);
      GetTestNameSpec(Strip(last));
    }
  }

  // ---------------------------------------------------------------------------
  // Early stop

  lemma {:induction false} StopIndexAppend(log: seq<string>, rest: seq<string>)
    requires StopIndex(log) < |log|
    ensures StopIndex(log + rest) == StopIndex(log)
  {
    if !IsStop(KindOf(log[0])) {
      assert (log + rest)[1..] == log[1..] + rest;
      StopIndexAppend(log[1..], rest);
    }
  }

  /** After a segfault or signal line nothing more is read: lines appended after it change
      neither the summary, the counters, the PASSED flag nor the verdict. */
  lemma CrashEndsScan(path: string, log: seq<string>, rest: seq<string>)
    ensures StopIndex(log) < |log| ==> ClassifyLines(path, log + rest) == ClassifyLines(path, log)
  {
    if StopIndex(log) < |log| {
      StopIndexAppend(log, rest);
      var k := StopIndex(log);
      assert (log + rest)[..k] == log[..k];
      assert (log + rest)[k] == log[k];
    }
  }

  /** What the loop can leave in the description: nothing, or one of the two crash texts. */
  predicate IsCrashText(crash: string) {
    crash == "" || crash == SegfaultText || crash == SignalText
  }

  /** The post-loop rules: the run succeeds exactly when the loop ran to the end, saw PASSED
      and recorded no FAIL entry. */
  lemma PostScanStatus(crash: string, passed: bool, summary: seq<TestResult>, path: string)
    ensures PostScan(crash, passed, summary, path).status == Success <==>
      crash == "" && passed && forall k :: 0 <= k < |summary| ==> summary[k].status == OK
  {
    CountFailZero(summary);
  }

  /** The post-loop rules keep what the loop wrote. */
  lemma FinalDescriptionKeepsCrash(crash: string, passed: bool, failed: nat, total: nat)
    requires failed <= total
    ensures crash <= FinalDescription(crash, passed, failed, total)
  {
  }

  /** Without a PASSED line the description is what the loop wrote followed by the note. */
  lemma FinalDescriptionPassedNote(crash: string, failed: nat, total: nat)
    requires failed <= total
    ensures FinalDescription(crash, false, failed, total) == crash + NoPassedText
  {
  }

  /** The description is never empty, and it is the counts text exactly when the loop wrote
      nothing and a PASSED line was seen. */
  lemma FinalDescriptionCounts(crash: string, passed: bool, failed: nat, total: nat)
    requires IsCrashText(crash) && failed <= total
    ensures FinalDescription(crash, passed, failed, total) != ""
    ensures FinalDescription(crash, passed, failed, total) == CountsText(failed, total - failed)
      <==> crash == "" && passed
  {
    var d := FinalDescription(crash, passed, failed, total);
    var counts := CountsText(failed, total - failed);
    if !passed {
      assert d == crash + NoPassedText;
      assert d[0] == (if crash == "" then 'P' else crash[0]);
      assert d != counts;
    } else if crash != "" {
      assert d != counts;
    }
  }

  /** The PASSED note is in the description exactly when no PASSED line was seen. */
  lemma FinalDescriptionNote(crash: string, passed: bool, failed: nat, total: nat)
    requires IsCrashText(crash) && failed <= total
    ensures Contains(FinalDescription(crash, passed, failed, total), NoPassedText) <==> !passed
  {
    var d := FinalDescription(crash, passed, failed, total);
    if !passed {
      assert d == crash + NoPassedText;
      ContainsSuffix(crash, NoPassedText);
    } else if crash == "" {
      CountsTextLacksNote(failed, total - failed);
    } else {
      assert d == crash;
      NotContainsMissingChar(crash, NoPassedText, 'A');
    }
  }

  /** The description starts with the crash text of the line that stopped the scan, if any. */
  lemma CrashPrefix(path: string, log: seq<string>)
    requires ClassifyLines(path, log).Ok?
    ensures CrashText(log, StopIndex(log)) <= ClassifyLines(path, log).value.description
  {
    var stop := StopIndex(log);
    var summary := Summary(log[..stop]).value;
    var passed := AnyPassed(log[..stop]);
    ClassifyLinesAt(path, log, stop, summary, passed);
    FinalDescriptionKeepsCrash(CrashText(log, stop), passed, CountFail(summary), |summary|);
  }

  /** The crash text of a segfault line and of a signal line. */
  lemma CrashTextOfKind(log: seq<string>, stop: nat)
    requires stop < |log|
    ensures KindOf(log[stop]) == SegfaultLine ==> CrashText(log, stop) == SegfaultText
    ensures KindOf(log[stop]) == SignalLine ==> CrashText(log, stop) == SignalText
  {
  }

  /** A crashed run's description starts with "Segmentation fault. " or "Exit on signal. ",
      according to the line that stopped the scan. */
  lemma CrashDescription(path: string, log: seq<string>)
    requires ClassifyLines(path, log).Ok?
    ensures StopIndex(log) < |log| && KindOf(log[StopIndex(log)]) == SegfaultLine ==>
      SegfaultText <= ClassifyLines(path, log).value.description
    ensures StopIndex(log) < |log| && KindOf(log[StopIndex(log)]) == SignalLine ==>
      SignalText <= ClassifyLines(path, log).value.description
  {
    CrashPrefix(path, log);
    if StopIndex(log) < |log| {
      CrashTextOfKind(log, StopIndex(log));
    }
  }

  lemma PassedBeforeIff(log: seq<string>, stop: nat)
    requires stop <= |log|
    ensures AnyPassed(log[..stop]) <==> PassedBefore(log, stop)
  {
    AnyPassedIff(log[..stop]);
    assert forall j :: 0 <= j < stop ==> log[..stop][j] == log[j];
  }

  /** Without a PASSED line before the first segfault or signal line, the description is the
      crash text, if any, followed by "PASSED record not found. ". */
  lemma NoPassedDescription(path: string, log: seq<string>)
    requires ClassifyLines(path, log).Ok?
    ensures !PassedBefore(log, StopIndex(log)) ==>
      ClassifyLines(path, log).value.description == CrashText(log, StopIndex(log)) + NoPassedText
  {
    var stop := StopIndex(log);
    var summary := Summary(log[..stop]).value;
    ClassifyLinesAt(path, log, stop, summary, AnyPassed(log[..stop]));
    PassedBeforeIff(log, stop);
    FinalDescriptionPassedNote(CrashText(log, stop), CountFail(summary), |summary|);
  }

  /** A segmentation fault before any PASSED line gives exactly "Segmentation fault. " followed
      by "PASSED record not found. ": the post-loop rules run after the break. */
  lemma SegfaultBeforePassed(path: string, log: seq<string>)
    requires ClassifyLines(path, log).Ok?
    ensures (StopIndex(log) < |log| && KindOf(log[StopIndex(log)]) == SegfaultLine
             && !PassedBefore(log, StopIndex(log))) ==>
      ClassifyLines(path, log).value.description == SegfaultText + NoPassedText
  {
    NoPassedDescription(path, log);
    if StopIndex(log) < |log| {
      CrashTextOfKind(log, StopIndex(log));
    }
  }

  // ---------------------------------------------------------------------------
  // Status and description

  /** The run succeeds exactly when no segfault or signal line was hit, a PASSED line was
      seen, and every summary entry is OK. */
  lemma SuccessIff(path: string, log: seq<string>)
    requires ClassifyLines(path, log).Ok?
    ensures ClassifyLines(path, log).value.status == Success <==>
      StopIndex(log) == |log| && PassedBefore(log, |log|)
      && forall k :: 0 <= k < |ClassifyLines(path, log).value.summary| ==>
           ClassifyLines(path, log).value.summary[k].status == OK
  {
    var stop := StopIndex(log);
    var summary := Summary(log[..stop]).value;
    var passed := AnyPassed(log[..stop]);
    ClassifyLinesAt(path, log, stop, summary, passed);
    PassedBeforeIff(log, stop);
    PostScanStatus(CrashText(log, stop), passed, summary, path);
  }

  /** A FAIL entry makes the run fail whether or not PASSED was seen. */
  lemma FailEntryMeansFailure(path: string, log: seq<string>, k: nat)
    requires ClassifyLines(path, log).Ok?
    requires k < |ClassifyLines(path, log).value.summary|
    requires ClassifyLines(path, log).value.summary[k].status == FAIL
    ensures ClassifyLines(path, log).value.status == Failure
  {
    SuccessIff(path, log);
  }

  /** The PASSED note is in the description exactly when no PASSED line came before the
      first segfault or signal line, whether or not the scan stopped early. */
  lemma NoteIffNoPassed(path: string, log: seq<string>)
    requires ClassifyLines(path, log).Ok?
    ensures Contains(ClassifyLines(path, log).value.description, NoPassedText)
      <==> !PassedBefore(log, StopIndex(log))
  {
    var stop := StopIndex(log);
    var summary := Summary(log[..stop]).value;
    var passed := AnyPassed(log[..stop]);
    ClassifyLinesAt(path, log, stop, summary, passed);
    PassedBeforeIff(log, stop);
    FinalDescriptionNote(CrashText(log, stop), passed, CountFail(summary), |summary|);
  }

  /** The description is never empty. */
  lemma DescriptionNonEmpty(path: string, log: seq<string>)
    requires ClassifyLines(path, log).Ok?
    ensures ClassifyLines(path, log).value.description != ""
  {
    var stop := StopIndex(log);
    var summary := Summary(log[..stop]).value;
    var passed := AnyPassed(log[..stop]);
    ClassifyLinesAt(path, log, stop, summary, passed);
    FinalDescriptionCounts(CrashText(log, stop), passed, CountFail(summary), |summary|);
  }

  /** The description is the "fail: F, passed: P" counts text exactly when the scan ran to
      the end and saw a PASSED line; F is the number of FAIL entries and P the number of OK
      entries of the summary (see `SummaryCounts` for what they count). */
  lemma DescriptionIsCounts(path: string, log: seq<string>)
    requires ClassifyLines(path, log).Ok?
    ensures var v := ClassifyLines(path, log).value;
      v.description == CountsText(CountFail(v.summary), |v.summary| - CountFail(v.summary))
      <==> StopIndex(log) == |log| && PassedBefore(log, |log|)
  {
    var stop := StopIndex(log);
    var summary := Summary(log[..stop]).value;
    var passed := AnyPassed(log[..stop]);
    ClassifyLinesAt(path, log, stop, summary, passed);
    var v := ClassifyLines(path, log).value;
    assert v.summary == summary;
    assert v.description == FinalDescription(CrashText(log, stop), passed, CountFail(summary), |summary|);
    PassedBeforeIff(log, stop);
    FinalDescriptionCounts(CrashText(log, stop), passed, CountFail(summary), |summary|);
  }

  /** When the scan runs to the end, the counts in the description are those of the FAILED and
      OK record lines of the whole log. */
  lemma CountsOfWholeLog(path: string, log: seq<string>)
    requires ClassifyLines(path, log).Ok? && StopIndex(log) == |log|
    ensures var v := ClassifyLines(path, log).value;
      CountFail(v.summary) == CountKind(log, FailLine)
      && |v.summary| - CountFail(v.summary) == CountKind(log, OkLine)
  {
    var stop := StopIndex(log);
    assert log[..stop] == log;
    ClassifyLinesAt(path, log, stop, Summary(log).value, AnyPassed(log));
    SummaryCounts(log);
  }

  // ---------------------------------------------------------------------------
  // The name error

  /** A summary is produced exactly when every line has its record. */
  lemma {:induction false} SummaryOkIff(lines: seq<string>)
    ensures Summary(lines).Ok? <==> forall j :: 0 <= j < |lines| ==> RecordOf(lines[j]).Ok?
  {
    if |lines| > 0 {
      var init := lines[..|lines| - 1];
      SummaryOkIff(init);
      assert forall j :: 0 <= j < |init| ==> init[j] == lines[j];
    }
  }

  /** `process_result` raises exactly when some OK or FAILED record line before the first
      segfault or signal line has no test name; otherwise it returns a verdict. */
  lemma ClassifyLinesOkIff(path: string, log: seq<string>)
    ensures ClassifyLines(path, log).Ok? <==>
      forall j :: 0 <= j < StopIndex(log) && (KindOf(log[j]) == OkLine || KindOf(log[j]) == FailLine)
        ==> GetTestName(Strip(log[j])).Ok?
  {
    var stop := StopIndex(log);
    var scanned := log[..stop];
    SummaryOkIff(scanned);
    assert forall j :: 0 <= j < stop ==> scanned[j] == log[j];
  }
}
