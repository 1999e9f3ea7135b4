/**
 * Publishing the results of the unit-test check (`process_logs`, `upload_results`): the S3 key
 * prefix made from the PR number, the commit and the check name, the upload of the log files,
 * the branch shown in the report, and the report page itself.
 *
 * The S3 upload (`S3Helper.upload_test_report_to_s3`) and the HTML renderer
 * (`create_test_html_report`) are parameters of the operations that call them.
 */
module ReportUpload {
  import opened Wrappers
  import opened Text
  import opened ResultClassifier

  const RepoUrl := "https://github.com/ClickHouse/ClickHouse"
  const ReportFile := "report.html"

  // ---------------------------------------------------------------------------
  // The S3 key prefix

  /** The characters of a check name that are replaced by "_" in the key. */
  predicate IsKeyUnsafe(c: char) { c == ' ' || c == '(' || c == ')' || c == ',' }

  /** The check name as it appears in the S3 key: lower-cased, then each of ' ', '(', ')' and ','
      replaced by "_", one character after the other. The result is as long as the name and
      holds none of those four characters and no upper-case ASCII letter. */
  function SanitizeCheckName(name: string): (r: string)
    ensures |r| == |name|
    ensures forall k :: 0 <= k < |r| ==> !IsKeyUnsafe(r[k]) && !('A' <= r[k] <= 'Z')
  {
    ReplaceChar(ReplaceChar(ReplaceChar(ReplaceChar(Lower(name), ' ', '_'), '(', '_'), ')', '_'), ',', '_')
  }

  /** Character by character: an unsafe character becomes "_", any other is lower-cased. */
  lemma SanitizeSpec(name: string)
    ensures forall k :: 0 <= k < |name| ==>
      SanitizeCheckName(name)[k] == (if IsKeyUnsafe(name[k]) then '_' else LowerChar(name[k]))
  {
  }

  /** Sanitising a sanitised name changes nothing. */
  lemma SanitizeIdempotent(name: string)
    ensures SanitizeCheckName(SanitizeCheckName(name)) == SanitizeCheckName(name)
  {
    var once := SanitizeCheckName(name);
    SanitizeSpec(name);
    SanitizeSpec(once);
    assert forall k :: 0 <= k < |once| ==> SanitizeCheckName(once)[k] == once[k];
  }

  /** The S3 key prefix of a run: the PR number, "/", the commit, "/", and the sanitised check
      name. What follows the PR number and the commit holds no ' ', '(', ')' or ','. */
  function S3PathPrefix(pr: int, sha: string, checkName: string): (p: string)
    ensures |checkName| < |p|
    ensures forall k :: |p| - |checkName| <= k < |p| ==> !IsKeyUnsafe(p[k])
  {
    var name := SanitizeCheckName(checkName);
    var p := (IntToString(pr) + "/" + sha + "/") + name;
    assert p[|p| - |checkName|..] == name;
    p
  }

  lemma IntToStringNoSlash(i: int)
    ensures '/' !in IntToString(i)
  {
    var r := IntToString(i);
    if i < 0 {
      assert r == "-" + NatToString(-i);
    }
    assert forall k :: 0 <= k < |r| ==> r[k] == '-' || IsDigit(r[k]);
  }

  /** The '/'-separated pieces of the prefix give back the PR number and, when the commit holds
      no '/', the commit. */
  lemma S3PathPrefixPieces(pr: int, sha: string, checkName: string)
    requires '/' !in sha
    ensures var pieces := Split(S3PathPrefix(pr, sha, checkName), '/');
      |pieces| >= 3 && IsIntText(pieces[0]) && ParseInt(pieces[0]) == pr && pieces[1] == sha
  {
    IntToStringNoSlash(pr);
    IntToStringRoundTrip(pr);
    SplitTwoWords(IntToString(pr), sha, SanitizeCheckName(checkName), '/');
  }

  // ---------------------------------------------------------------------------
  // process_logs

  /** The paths `process_logs` uploads: the non-empty ones, in their order. */
  function NonEmptyPaths(paths: seq<string>): seq<string>
  {
    if |paths| == 0 then []
    else NonEmptyPaths(paths[..|paths| - 1]) + (if paths[|paths| - 1] == "" then [] else [paths[|paths| - 1]])
  }

  /** Filtering a concatenation filters each part, keeping their order. */
  lemma {:induction false} NonEmptyPathsAppend(a: seq<string>, b: seq<string>)
    ensures NonEmptyPaths(a + b) == NonEmptyPaths(a) + NonEmptyPaths(b)
    decreases |b|
  {
    if |b| == 0 {
      assert a + b == a;
    } else {
      var last := b[|b| - 1];
      var b' := b[..|b| - 1];
      assert (a + b)[..|a + b| - 1] == a + b';
      NonEmptyPathsAppend(a, b');
    }
  }

  /** Exactly the non-empty paths are kept. */
  lemma {:induction false} NonEmptyPathsMembers(paths: seq<string>)
    ensures forall p :: p in NonEmptyPaths(paths) <==> p in paths && p != ""
  {
    if |paths| > 0 {
      var init := paths[..|paths| - 1];
      NonEmptyPathsMembers(init);
      assert paths == init + [paths[|paths| - 1]];
    }
  }

  /** The S3 key of an uploaded log: the prefix, "/", and the file name. */
  function LogKey(prefix: string, path: string): string
  {
    prefix + "/" + BaseName(path)
  }

  /** The URLs `process_logs` returns: one per non-empty path, in order. Each is the upload of a
      non-empty path of the input under the prefix. */
  function UploadedUrls(upload: (string, string) -> string, paths: seq<string>, prefix: string)
    : (urls: seq<string>)
    ensures forall k :: 0 <= k < |urls| ==>
      exists p :: p in paths && p != "" && urls[k] == upload(p, LogKey(prefix, p))
  {
    var kept := NonEmptyPaths(paths);
    NonEmptyPathsMembers(paths);
    var urls := seq(|kept|, k requires 0 <= k < |kept| => upload(kept[k], LogKey(prefix, kept[k])));
    assert |urls| == |kept|;
    assert forall k :: 0 <= k < |kept| ==> kept[k] in paths && kept[k] != "" by {
      forall k | 0 <= k < |kept| ensures kept[k] in paths && kept[k] != "" {
        assert kept[k] in kept;
      }
    }
    assert forall k :: 0 <= k < |urls| ==> urls[k] == upload(kept[k], LogKey(prefix, kept[k]));
    urls
  }

  /** `process_logs`: uploads every non-empty path under `prefix` and collects the URLs. */
  method ProcessLogs(upload: (string, string) -> string, additionalLogs: seq<string>, prefix: string)
    returns (urls: seq<string>)
    ensures urls == UploadedUrls(upload, additionalLogs, prefix)
  {
    urls := [];
    var i := 0;
    while i < |additionalLogs|
      invariant 0 <= i <= |additionalLogs|
      invariant urls == UploadedUrls(upload, additionalLogs[..i], prefix)
    {
      var logPath := additionalLogs[i];
      assert additionalLogs[..i + 1][..i] == additionalLogs[..i];
      if logPath != "" {
        urls := urls + [upload(logPath, LogKey(prefix, logPath))];
      }
      i := i + 1;
    }
    assert additionalLogs[..i] == additionalLogs;
  }

  // ---------------------------------------------------------------------------
  // upload_results

  /** The branch the report links to. */
  datatype Branch = Branch(name: string, url: string)

  /** "master" and its commit list for `pr_number == 0`, the pull request otherwise: the name is
      "master" exactly for PR number 0. */
  function BranchOf(pr: int): (b: Branch)
    ensures b.name == "master" <==> pr == 0
  {
    if pr != 0 then
      var n := IntToString(pr);
      assert ("PR #" + n)[0] != "master"[0];
      Branch("PR #" + n, RepoUrl + "/pull/" + n)
    else Branch("master", RepoUrl + "/commits/master")
  }

  /** For PR number 0 the branch URL is the commit list of master; otherwise the name and the
      URL both end with the PR number, which reads back. */
  lemma BranchSpec(pr: int)
    ensures pr == 0 ==> BranchOf(pr).url == RepoUrl + "/commits/master"
    ensures pr != 0 ==>
      var b := BranchOf(pr);
      |b.name| > 4 && b.name[..4] == "PR #" && IsIntText(b.name[4..]) && ParseInt(b.name[4..]) == pr
      && b.url == RepoUrl + "/pull/" + b.name[4..]
  {
    if pr != 0 {
      var n := IntToString(pr);
      IntToStringRoundTrip(pr);
      assert ("PR #" + n)[4..] == n;
    }
  }

  function CommitUrl(sha: string): string { RepoUrl + "/commit/" + sha }

  /** The workflow run, from the `GITHUB_RUN_ID` environment variable. */
  function TaskUrl(runId: string): string { RepoUrl + "/actions/runs/" + runId }

  /** The arguments of `create_test_html_report`. */
  datatype ReportPage = ReportPage(
    header: string,
    testResults: seq<TestResult>,
    rawLogUrl: string,
    taskUrl: string,
    branchUrl: string,
    branchName: string,
    commitUrl: string,
    additionalUrls: seq<string>,
    withRawLogs: bool)

  /** What `upload_results` produces: the HTML written to report.html and the report's URL. */
  datatype UploadedReport = UploadedReport(html: string, url: string)

  /** `additional_urls[0]` on an empty list: no log file was uploaded. */
  datatype UploadError = NoLogUploaded

  /** `upload_results`: uploads the raw log and the additional files, renders the report with
      the first URL as the raw log's and the rest as additional URLs, and uploads the report. */
  method UploadResults(upload: (string, string) -> string, render: ReportPage -> string,
                       pr: int, sha: string, testResults: seq<TestResult>, rawLog: string,
                       additionalFiles: seq<string>, checkName: string, runId: string)
    returns (r: Result<UploadedReport, UploadError>)
    ensures var prefix := S3PathPrefix(pr, sha, checkName);
      var urls := UploadedUrls(upload, [rawLog] + additionalFiles, prefix);
      (r.Err? <==> |urls| == 0)
      && (r.Ok? ==>
            r.value.html == render(ReportPage(checkName, testResults, urls[0], TaskUrl(runId),
                                              BranchOf(pr).url, BranchOf(pr).name, CommitUrl(sha),
                                              urls[1..], true))
            && r.value.url == upload(ReportFile, prefix + ".html"))
  {
    var files := [rawLog] + additionalFiles;
    var prefix := S3PathPrefix(pr, sha, checkName);
    var additionalUrls := ProcessLogs(upload, files, prefix);

    var branch := BranchOf(pr);
    var commitUrl := CommitUrl(sha);
    var taskUrl := TaskUrl(runId);

    if |additionalUrls| == 0 {
      return Err(NoLogUploaded);
    }
    var rawLogUrl := additionalUrls[0];
    additionalUrls := additionalUrls[1..];

    var html := render(ReportPage(checkName, testResults, rawLogUrl, taskUrl, branch.url, branch.name,
                                  commitUrl, additionalUrls, true));
    var url := upload(ReportFile, prefix + ".html");
    r := Ok(UploadedReport(html, url));
  }

  /** With a raw log, its URL comes first and the additional URLs are exactly those of the
      additional files, in order. */
  lemma RawLogFirst(upload: (string, string) -> string, rawLog: string, additionalFiles: seq<string>,
                    prefix: string)
    requires rawLog != ""
    ensures var urls := UploadedUrls(upload, [rawLog] + additionalFiles, prefix);
      |urls| >= 1 && urls[0] == upload(rawLog, LogKey(prefix, rawLog))
      && urls[1..] == UploadedUrls(upload, additionalFiles, prefix)
  {
    NonEmptyPathsAppend([rawLog], additionalFiles);
    assert NonEmptyPaths([rawLog]) == [rawLog] by {
      assert [rawLog][..0] == [];
    }
  }

  /** The report fails only when every file name, the raw log's included, is empty. */
  lemma NoUploadIff(upload: (string, string) -> string, rawLog: string, additionalFiles: seq<string>,
                    prefix: string)
    ensures |UploadedUrls(upload, [rawLog] + additionalFiles, prefix)| == 0 <==>
      rawLog == "" && forall k :: 0 <= k < |additionalFiles| ==> additionalFiles[k] == ""
  {
    var files := [rawLog] + additionalFiles;
    NonEmptyPathsMembers(files);
    if |NonEmptyPaths(files)| == 0 {
      assert files[0] in files;
      forall k | 0 <= k < |additionalFiles|
        ensures additionalFiles[k] == ""
      {
        assert additionalFiles[k] == files[k + 1];
        assert files[k + 1] in files;
      }
    } else {
      var p := NonEmptyPaths(files)[0];
      assert p in files && p != "";
    }
  }
}
