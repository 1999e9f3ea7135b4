/**
 * The build-configuration key of the unit-test check: the string under which the build
 * reports of one build configuration are found (`build_config_to_string`), and the search of
 * the build reports for that key (`get_build_urls`).
 */
module BuildKey {
  import opened Text

  /**
   * One entry of the `build_config` list of the CI configuration, with the fields the key
   * reads. `buildType` and `sanitizer` may be empty; `withCoverage` is the truth value of the
   * `with_coverage` entry.
   */
  datatype BuildConfig = BuildConfig(
    compiler: string,
    buildType: string,
    sanitizer: string,
    bundled: string,
    splitted: string,
    tidy: string,
    withCoverage: bool,
    packageType: string)

  const Performance := "performance"
  const DefaultBuildType := "relwithdebuginfo"
  const NoSanitizer := "none"
  const KeySeparator := "_"

  /** The eight components of a non-performance key, in the order they are joined. */
  function KeyFields(c: BuildConfig): seq<string>
  {
    [ c.compiler,
      if c.buildType != "" then c.buildType else DefaultBuildType,
      if c.sanitizer != "" then c.sanitizer else NoSanitizer,
      c.bundled,
      c.splitted,
      if c.tidy == "enable" then "tidy" else "notidy",
      if c.withCoverage then "with_coverage" else "without_coverage",
      c.packageType ]
  }

  /** `build_config_to_string`: "performance" for performance builds, otherwise the eight
      components joined with "_", so that every other key holds a "_" (and cannot be
      "performance", see `PerformanceIff`). */
  function BuildConfigToString(c: BuildConfig): (key: string)
    ensures c.packageType != Performance ==> Contains(key, KeySeparator)
  {
    if c.packageType == Performance then Performance
    else
      JoinHasSeparator(KeySeparator, KeyFields(c));
      Join(KeySeparator, KeyFields(c))
  }

  /** The key is "performance" exactly when the package type is: every other key holds at
      least one "_", which "performance" does not. */
  lemma PerformanceIff(c: BuildConfig)
    ensures BuildConfigToString(c) == Performance <==> c.packageType == Performance
  {
    NotContainsMissingChar(Performance, KeySeparator, '_');
  }

  /** Reading a non-performance key back: component `k` of `KeyFields(c)` sits at its offset,
      followed by "_" unless it is the last one. */
  lemma KeyFieldAt(c: BuildConfig, k: nat)
    requires c.packageType != Performance && k < 8
    ensures var key, fields := BuildConfigToString(c), KeyFields(c);
      PartOffset(KeySeparator, fields, k) + |fields[k]| <= |key|
      && key[PartOffset(KeySeparator, fields, k)..PartOffset(KeySeparator, fields, k) + |fields[k]|]
         == fields[k]
      && (k < 7 ==>
            PartOffset(KeySeparator, fields, k + 1) <= |key| &&
            key[PartOffset(KeySeparator, fields, k) + |fields[k]|..PartOffset(KeySeparator, fields, k + 1)]
            == KeySeparator)
  {
    JoinPartAt(KeySeparator, KeyFields(c), k);
    if k < 7 {
      JoinSeparatorAt(KeySeparator, KeyFields(c), k);
    }
  }

  /** An empty build type and sanitizer give the same key as the defaults spelled out. */
  lemma DefaultsSpelledOut(c: BuildConfig)
    ensures BuildConfigToString(c.(buildType := "")) == BuildConfigToString(c.(buildType := DefaultBuildType))
    ensures BuildConfigToString(c.(sanitizer := "")) == BuildConfigToString(c.(sanitizer := NoSanitizer))
  {
  }

  // ---------------------------------------------------------------------------
  // get_build_urls

  /** A build report file: its name and the `build_urls` list of its JSON content. */
  datatype BuildReport = BuildReport(fileName: string, buildUrls: seq<string>)

  /** `get_build_urls`: the URLs of the first report, in walk order, whose file name contains
      the key; [] when there is none. A non-empty result is the URL list of a report whose
      name holds the key (which one: `GetBuildUrlsSpec`). */
  function GetBuildUrls(key: string, reports: seq<BuildReport>): (urls: seq<string>)
    ensures urls == [] ||
      (exists i :: 0 <= i < |reports| && Contains(reports[i].fileName, key) && urls == reports[i].buildUrls)
  {
    if |reports| == 0 then []
    else if Contains(reports[0].fileName, key) then reports[0].buildUrls
    else
      var urls := GetBuildUrls(key, reports[1..]);
      assert urls != [] ==>
        (exists i :: 1 <= i < |reports| && Contains(reports[i].fileName, key) && urls == reports[i].buildUrls) by {
        if urls != [] {
          var i :| 0 <= i < |reports| - 1 && Contains(reports[1..][i].fileName, key) && urls == reports[1..][i].buildUrls;
          assert reports[1..][i] == reports[i + 1];
        }
      }
      urls
  }

  /** The index of the first report whose name contains the key; |reports| when none does. */
  function FirstMatch(key: string, reports: seq<BuildReport>): (i: nat)
    ensures i <= |reports|
    ensures i < |reports| ==> Contains(reports[i].fileName, key)
    ensures forall j :: 0 <= j < i ==> !Contains(reports[j].fileName, key)
  {
    if |reports| == 0 then 0
    else if Contains(reports[0].fileName, key) then 0
    else 1 + FirstMatch(key, reports[1..])
  }

  /** The first match wins: the result is the URL list of the first report whose name holds
      the key, and [] when no name holds it. */
  lemma {:induction false} GetBuildUrlsSpec(key: string, reports: seq<BuildReport>)
    ensures FirstMatch(key, reports) == |reports| ==> GetBuildUrls(key, reports) == []
    ensures FirstMatch(key, reports) < |reports| ==>
      GetBuildUrls(key, reports) == reports[FirstMatch(key, reports)].buildUrls
  {
    if |reports| > 0 && !Contains(reports[0].fileName, key) {
      GetBuildUrlsSpec(key, reports[1..]);
    }
  }
}
