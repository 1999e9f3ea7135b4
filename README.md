# ClickHouse unit-test check: verified model

This project models the decision logic of `tests/ci/unit_tests_check.py`. That is the CI step
that runs ClickHouse's gtest-based unit tests and publishes their verdict. It has three parts:

- **The log classifier** (`process_result`, helper `get_test_name`).
  - It reads `test_result.txt` line by line. Each line takes the first matching branch of an
    if/elif chain: `OK ]`, then a `FAILED  ]` line that carries `ms)` and not `listed below`,
    then `Segmentation fault`, then `received signal SIG`, then `PASSED`.
  - On the way it builds an ordered summary of `(name, OK|FAIL)` entries, two counters and a
    PASSED flag.
  - A segfault or signal line ends the scan.
  - Fixed post-loop rules then produce `(status, description, summary, extra_logs)`.
  - The loop is the method `ResultClassifier.ProcessResult`. It is proved equal to the
    declarative `ClassifyLog`, which scans the lines before the first segfault or signal line
    (`StopIndex`) and applies the post-loop rules (`PostScan`).
  - The module `ClassifierProperties` proves what the verdict means in terms of the log lines.
- **The build-configuration key** (`build_config_to_string`), and the search of the build
  reports for that key (`get_build_urls`).
- **Result publishing** (`process_logs`, `upload_results`):
  - the S3 key prefix built from the PR number, the commit and the sanitised check name;
  - one upload per non-empty log path, in order;
  - the raw-log URL taken off the front of the URL list;
  - the branch name and URL chosen from the PR number;
  - the report page handed to the renderer.

The file system of the result folder is a `map` from path to the lines that iterating over
the file yields. The S3 uploader and the HTML renderer are function-typed parameters. An
exception that the Python code raises is an `Err` result.

The Python string built-ins used are modelled in module `Text`: `in`, `strip()`, `split(' ')`,
`join`, `str(int)`, `lower()`, `replace` and `os.path.basename`.

The module `Wrappers` holds `Option` and `Result`.

## Behaviour worth noting

- `get_test_name` splits on the single character `' '`, not on runs of whitespace. Two
  adjacent spaces give an empty token. An OK line with no test name before its duration,
  such as `[ OK ]  (5 ms)`, therefore records a test whose name is the empty string
  (`EmptyNameRecord`, `EmptyNameExample`).
- After a segfault or signal `break`, the post-loop rules still run. A segfault before any
  PASSED line therefore gives `"Segmentation fault. PASSED record not found. "`
  (`SegfaultBeforePassed`).
- `build_config_to_string` copies the configuration fields verbatim and sanitises nothing. A
  key can hold any character its fields hold, URL-unsafe ones included.

## Model

| member | source | states |
|---|---|---|
| Text.Contains | tests/ci/unit_tests_check.py:160 | the empty string is in every string, and no string longer than `s` is in `s` |
| Text.ContainsAt | tests/ci/unit_tests_check.py:160 | an occurrence of `sub` at any index makes `sub in s` true |
| Text.ContainsOccurs | tests/ci/unit_tests_check.py:160 | when `sub in s` holds, `sub` occurs at an index it returns |
| Text.NotContainsMissingChar | tests/ci/unit_tests_check.py:166 | a string lacking one of the characters of `sub` does not contain `sub` |
| Text.StripStartSpec | tests/ci/unit_tests_check.py:162 | `lstrip` removes a whitespace-only prefix and leaves a non-whitespace first character |
| Text.StripEndSpec | tests/ci/unit_tests_check.py:162 | `rstrip` removes a whitespace-only suffix and leaves a non-whitespace last character |
| Text.Strip | tests/ci/unit_tests_check.py:162 | `strip()` never lengthens the line, and its result is empty or neither starts nor ends with whitespace |
| Text.StripSpec | tests/ci/unit_tests_check.py:162 | `strip()` result sits in the line between a whitespace prefix and a whitespace suffix |
| Text.Split | tests/ci/unit_tests_check.py:134 | `split(' ')` always yields at least one piece |
| Text.SplitSpec | tests/ci/unit_tests_check.py:134 | no piece of `split(' ')` holds the separator, and joining the pieces with it gives the line back |
| Text.SplitJoin | tests/ci/unit_tests_check.py:134 | `split` undoes `join` for separator-free parts |
| Text.SplitWord | tests/ci/unit_tests_check.py:134 | a separator-free word in front glues onto the first piece |
| Text.SplitTwoWords | tests/ci/unit_tests_check.py:74 | the first two pieces of `u/v/t` are `u` and `v` when neither holds `/` |
| Text.Join | tests/ci/unit_tests_check.py:122-131 | the first part starts the joined string |
| Text.JoinPartAt | tests/ci/unit_tests_check.py:122-131 | part `k` of a join sits at its offset |
| Text.JoinSeparatorAt | tests/ci/unit_tests_check.py:122-131 | part `k`, unless it is the last, is followed by the separator |
| Text.JoinHasSeparator | tests/ci/unit_tests_check.py:122-131 | joining two or more parts puts the separator in the result |
| Text.NatToString | tests/ci/unit_tests_check.py:74 | `str(n)` is a non-empty run of digits without a leading zero |
| Text.IntToString | tests/ci/unit_tests_check.py:74 | `str(i)` is non-empty and starts with '-' iff `i` is negative |
| Text.NatToStringRoundTrip | tests/ci/unit_tests_check.py:74 | `int(str(n)) == n` for naturals |
| Text.IntToStringRoundTrip | tests/ci/unit_tests_check.py:74 | `int(str(i)) == i` for every integer, negative ones included |
| Text.BaseName | tests/ci/unit_tests_check.py:29 | `basename` is the part of the path after its last `/`: a suffix with no `/`, preceded by `/` or the whole path |
| ResultClassifier.LastCleanIndex | tests/ci/unit_tests_check.py:134-137 | the reverse scan yields a token index, or -1 when it finds none |
| ResultClassifier.LastCleanIndexSpec | tests/ci/unit_tests_check.py:134-137 | the index found holds a token without parentheses, and every later token has one |
| ResultClassifier.LastCleanIndexAt | tests/ci/unit_tests_check.py:134-137 | a token without parentheses that only parenthesised tokens follow is the one the reverse scan returns |
| ResultClassifier.GetTestName | tests/ci/unit_tests_check.py:133-138 | a returned name holds no parenthesis and no space, and the error names the line |
| ResultClassifier.GetTestNameSpec | tests/ci/unit_tests_check.py:133-138 | the error is raised iff every `' '`-token has a parenthesis; otherwise the name is the last token without one |
| ResultClassifier.TrailingSpaceGivesEmptyName | tests/ci/unit_tests_check.py:134-137 | a string ending in `' '` names the empty test (the stripped lines of the log never do; see `EmptyNameRecord`) |
| ResultClassifier.EmptyNameBeforeParens | tests/ci/unit_tests_check.py:134-137 | an empty token left by two adjacent spaces, followed only by parenthesised tokens, is returned as the name |
| ResultClassifier.EmptyNameRecord | tests/ci/unit_tests_check.py:160-164 | an OK line whose stripped text holds such an empty token records a test with the empty name |
| ResultClassifier.JoinSnoc | tests/ci/unit_tests_check.py:134 | appending a part appends the separator and the part |
| ResultClassifier.StopIndex | tests/ci/unit_tests_check.py:173-182 | the scan stops at a line of the log or at its end |
| ResultClassifier.StopIndexSpec | tests/ci/unit_tests_check.py:173-182 | the scan stops at the first segfault or signal line: it is one, and no earlier line is |
| ResultClassifier.StopIndexAt | tests/ci/unit_tests_check.py:173-182 | a segfault or signal line no later than the stop index is the stop line |
| ResultClassifier.AnyPassedIff | tests/ci/unit_tests_check.py:183-185 | the flag is set iff some scanned line takes the PASSED branch |
| ResultClassifier.CountFail | tests/ci/unit_tests_check.py:170-172 | `failed_counter` never exceeds `total_counter`: at most one FAIL per entry |
| ResultClassifier.CountFailZero | tests/ci/unit_tests_check.py:191-192 | no FAIL entry iff every summary entry is OK |
| ResultClassifier.CountsTextLacksNote | tests/ci/unit_tests_check.py:194-195 | the counts text never contains the PASSED note |
| ResultClassifier.CrashText | tests/ci/unit_tests_check.py:173-182 | the loop writes nothing iff it ran to the end; otherwise it writes one of the two crash texts |
| ResultClassifier.ClassifyLines | tests/ci/unit_tests_check.py:155-197 | an existing log gives status success or failure, and extra logs exactly `[result_log_path]` |
| ResultClassifier.ClassifyLog | tests/ci/unit_tests_check.py:150-153 | a missing log gives exactly `("error", "No output log", [], [])` |
| ResultClassifier.PostScan | tests/ci/unit_tests_check.py:187-197 | a successful verdict is described by `fail: F, passed: P` with F the FAIL entries and P the others |
| ResultClassifier.ProcessResult | tests/ci/unit_tests_check.py:140-197 | the loop with its counters, flag, `break` and post-loop rules returns exactly the declarative verdict (or the name error) |
| ResultClassifier.ClassifyLinesError | tests/ci/unit_tests_check.py:160-172 | an unnamed OK/FAILED line before the stop is the error of the whole call |
| ResultClassifier.ScanRecord | tests/ci/unit_tests_check.py:160-172 | an OK or FAILED record line appends its entry and counts a FAIL |
| ResultClassifier.ScanPassed | tests/ci/unit_tests_check.py:183-185 | a PASSED line sets the flag and adds no entry |
| ResultClassifier.ScanOther | tests/ci/unit_tests_check.py:159-185 | a line matching no branch changes nothing |
| ResultClassifier.ScanStop | tests/ci/unit_tests_check.py:173-182 | the loop leaves exactly at the stop index |
| ResultClassifier.SummaryErrorPersists | tests/ci/unit_tests_check.py:162-168 | once a name error happened, further lines keep it |
| ClassifierProperties.CountKind | tests/ci/unit_tests_check.py:165-171 | a count of lines of one kind is at most the number of lines |
| ClassifierProperties.KindOfFirstMatch | tests/ci/unit_tests_check.py:160-185 | `KindOf` gives the first branch, in the order OK, FAILED record, segfault, signal, PASSED, whose test it passes |
| ClassifierProperties.EmptyNameExample | tests/ci/unit_tests_check.py:160-164 | the line `[ OK ]  (5 ms)` records an OK test whose name is the empty string |
| ClassifierProperties.SummaryAppend | tests/ci/unit_tests_check.py:164-170 | `Summary` of a concatenation is the concatenation of the summaries: entries are in log order |
| ClassifierProperties.SummaryCounts | tests/ci/unit_tests_check.py:164-172 | the summary has one entry per OK or FAILED record line (`total_counter`) and one FAIL entry per FAILED record line (`failed_counter`) |
| ClassifierProperties.SummaryNamesClean | tests/ci/unit_tests_check.py:162-170 | no summary name contains a parenthesis |
| ClassifierProperties.SummaryOkIff | tests/ci/unit_tests_check.py:160-170 | the summary is built iff every line yields its record, so one unnamed record line is enough to fail |
| ClassifierProperties.StopIndexAppend | tests/ci/unit_tests_check.py:177-182 | lines added after a stop line do not move the stop |
| ClassifierProperties.CrashEndsScan | tests/ci/unit_tests_check.py:173-182 | lines after a segfault or signal line change nothing in the verdict |
| ClassifierProperties.PostScanStatus | tests/ci/unit_tests_check.py:187-192 | status is success iff nothing was written by the loop, PASSED was seen and every entry is OK |
| ClassifierProperties.FinalDescriptionKeepsCrash | tests/ci/unit_tests_check.py:187-195 | `FinalDescription` keeps what the loop wrote as a prefix |
| ClassifierProperties.FinalDescriptionCounts | tests/ci/unit_tests_check.py:194-195 | `FinalDescription` is non-empty, and is the counts text iff the loop wrote nothing and PASSED was seen |
| ClassifierProperties.FinalDescriptionNote | tests/ci/unit_tests_check.py:187-189 | the PASSED note is in the description iff PASSED was not seen |
| ClassifierProperties.CrashPrefix | tests/ci/unit_tests_check.py:173-182 | the description starts with the crash text of the stop line, if any |
| ClassifierProperties.CrashDescription | tests/ci/unit_tests_check.py:173-182 | after a segfault or signal line the description starts with "Segmentation fault. " or "Exit on signal. " respectively |
| ClassifierProperties.PassedBeforeIff | tests/ci/unit_tests_check.py:183-185 | the flag is set iff a PASSED line comes before the stop |
| ClassifierProperties.NoPassedDescription | tests/ci/unit_tests_check.py:187-189 | with no PASSED line before the stop, the description is the crash text, if any, followed by "PASSED record not found. " |
| ClassifierProperties.SegfaultBeforePassed | tests/ci/unit_tests_check.py:173-189 | a segfault before any PASSED line gives exactly "Segmentation fault. PASSED record not found. " |
| ClassifierProperties.SuccessIff | tests/ci/unit_tests_check.py:155-192 | success iff no segfault or signal line, a PASSED line, and every entry OK |
| ClassifierProperties.FailEntryMeansFailure | tests/ci/unit_tests_check.py:191-192 | one FAIL entry makes the run fail |
| ClassifierProperties.NoteIffNoPassed | tests/ci/unit_tests_check.py:183-189 | the PASSED note is in the description iff no PASSED line comes before the stop |
| ClassifierProperties.DescriptionNonEmpty | tests/ci/unit_tests_check.py:194-195 | the description is never empty |
| ClassifierProperties.DescriptionIsCounts | tests/ci/unit_tests_check.py:187-195 | the description is `fail: F, passed: P` iff the scan ran to the end and saw PASSED |
| ClassifierProperties.CountsOfWholeLog | tests/ci/unit_tests_check.py:165-195 | without a stop, F and P count the FAILED and OK record lines of the whole log |
| ClassifierProperties.ClassifyLinesOkIff | tests/ci/unit_tests_check.py:160-172 | the call returns a verdict iff every OK or FAILED record line before the stop has a test name; otherwise it raises |
| BuildKey.PerformanceIff | tests/ci/unit_tests_check.py:118-131 | the key is "performance" iff the package type is "performance" |
| BuildKey.BuildConfigToString | tests/ci/unit_tests_check.py:118-131 | every key of a non-performance configuration contains "_" |
| BuildKey.KeyFieldAt | tests/ci/unit_tests_check.py:122-131 | each of the eight components sits at its offset in the key, followed by "_" unless it is the last |
| BuildKey.DefaultsSpelledOut | tests/ci/unit_tests_check.py:124-125 | an empty build type or sanitizer gives the key of "relwithdebuginfo" or "none" |
| BuildKey.FirstMatch | tests/ci/unit_tests_check.py:109-111 | the index found is the first report whose name contains the key |
| BuildKey.GetBuildUrls | tests/ci/unit_tests_check.py:108-116 | a non-empty result is the URL list of a report whose file name contains the key |
| BuildKey.GetBuildUrlsSpec | tests/ci/unit_tests_check.py:108-116 | the URLs of the first report whose name contains the key, or [] when none does |
| ReportUpload.SanitizeCheckName | tests/ci/unit_tests_check.py:74 | the name keeps its length and loses every ' ', '(', ')', ',' and upper-case letter |
| ReportUpload.SanitizeSpec | tests/ci/unit_tests_check.py:74 | character by character, ' ', '(', ')', ',' become '_' and the rest is lower-cased |
| ReportUpload.SanitizeIdempotent | tests/ci/unit_tests_check.py:74 | sanitising twice is sanitising once |
| ReportUpload.IntToStringNoSlash | tests/ci/unit_tests_check.py:74 | the PR number's text has no `/` |
| ReportUpload.S3PathPrefixPieces | tests/ci/unit_tests_check.py:74 | the `/`-pieces of the prefix give back the PR number and the commit |
| ReportUpload.S3PathPrefix | tests/ci/unit_tests_check.py:74 | the prefix is longer than the check name and ends in a part holding no ' ', '(', ')' or ',' |
| ReportUpload.NonEmptyPathsAppend | tests/ci/unit_tests_check.py:24-25 | filtering keeps the order: the filter of a concatenation is the concatenation of the filters |
| ReportUpload.NonEmptyPathsMembers | tests/ci/unit_tests_check.py:24-25 | exactly the non-empty paths are kept |
| ReportUpload.ProcessLogs | tests/ci/unit_tests_check.py:22-31 | one URL per non-empty path, in input order, each the upload of that path under `prefix/basename` |
| ReportUpload.UploadedUrls | tests/ci/unit_tests_check.py:22-31 | every URL is the upload of some non-empty input path under `prefix/basename` |
| ReportUpload.BranchOf | tests/ci/unit_tests_check.py:77-81 | the branch name is "master" iff the PR number is 0 |
| ReportUpload.BranchSpec | tests/ci/unit_tests_check.py:77-81 | PR 0 gives the master commits URL; otherwise "PR #n" and the pull URL, with `n` reading back as the PR number |
| ReportUpload.UploadResults | tests/ci/unit_tests_check.py:72-95 | fails iff no URL was produced; otherwise renders the first URL as the raw log's and the rest as additional URLs, with the branch, commit and task URLs, and returns the report's upload URL |
| ReportUpload.RawLogFirst | tests/ci/unit_tests_check.py:73-87 | with a raw log, its URL is the first and the additional URLs are exactly those of the additional files, in order |
| ReportUpload.NoUploadIff | tests/ci/unit_tests_check.py:86 | `additional_urls[0]` fails iff the raw log and every additional path are empty |

## Left out

- `dowload_build_with_progress`: HTTP streaming, file writes and deletes, sleeps and a
  terminal progress bar. This is I/O with no decision logic.
- `get_build_config` and the JSON reads: a configuration entry is a `BuildKey.BuildConfig`
  value. `with_coverage` is its truth value. Fields of other JSON types are not modelled.
- `get_build_urls`: the `os.walk` order is given as the order of the report sequence. Each
  report's JSON content is given as its URL list.
- `get_commit` and the commit-status call: these go to the GitHub API.
- The `__main__` driver: environment variables, `docker pull` retries, `docker run`, `chown`.
  Its possibly unbound `images_path` is therefore not modelled.
- `create_test_html_report` and `S3Helper.upload_test_report_to_s3` are function parameters.
  Their side effects are not modelled, including the order of the uploads as events and the
  writing of `report.html` (its content is returned instead).
- All `logging` calls.
- Reading `test_result.txt` and its UTF-8 decoding: the log is the sequence of lines Python
  iterates over. A decoding error is not modelled.
- `Text.Lower`: lower-cases the ASCII letters only, not the full Unicode case mapping of
  Python's `str.lower()`.
- `ReportUpload.TaskUrl`: `os.getenv('GITHUB_RUN_ID')` is a string parameter. An unset variable
  (which Python formats as `None`) is not distinguished.
- `ReportUpload.UploadResults`: the `IndexError` of `additional_urls[0]` is the `Err` result
  `NoLogUploaded`. The caller in the script always passes a non-empty raw log path.
