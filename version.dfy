/** The version string both version scripts compose from `package.json`, the
    CI singleton and the machine: `bin/version.ts` and `version.ts` share the
    same three-way rule. */
module VersionString {
  import opened Base
  import opened Strings
  import JsText
  import CI = ContinuousIntegration

  /** `${CI.build_number}`: `undefined` outside Circle and GitHub. */
  function BuildNumber(n: Option<int>): string {
    match n
    case None => "undefined"
    case Some(v) => IntToString(v)
  }

  /** The `.<issue>` part, present only for a truthy `CI.issue` when
      `VERSION_WITH_ISSUE` is not `'false'`. */
  function IssuePart(issue: Option<string>, versionWithIssue: Option<string>): string {
    if issue.Some? && issue.value != "" && versionWithIssue != Some("false") then "." + issue.value else ""
  }

  /** A truthy `CI.tag`. */
  predicate Tagged(ci: CI.Info) {
    ci.tag.Some? && ci.tag.value != ""
  }

  /** bin/version.ts:13-21 and version.ts:20-28. `issue` is `CI.issue`. */
  function Compose(pkgVersion: string, ci: CI.Info, issue: Option<string>, versionWithIssue: Option<string>,
                   username: string, hostname: string): string {
    if ci.service != "" && !Tagged(ci) then
      pkgVersion + IssuePart(issue, versionWithIssue) + "." + BuildNumber(ci.buildNumber)
    else if ci.service == "" then
      pkgVersion + "." + username + "." + hostname
    else
      pkgVersion
  }

  /** The three cases: an untagged CI build appends the issue part and the
      build number, a local build the user and the host, and a tagged CI
      build keeps the package version. Every version extends the package
      version. */
  lemma ComposeSpec(pkgVersion: string, ci: CI.Info, issue: Option<string>, versionWithIssue: Option<string>,
                    username: string, hostname: string)
    ensures var v := Compose(pkgVersion, ci, issue, versionWithIssue, username, hostname);
      && StartsWith(v, pkgVersion)
      && (ci.service != "" && !Tagged(ci) ==>
            v == pkgVersion + IssuePart(issue, versionWithIssue) + "." + BuildNumber(ci.buildNumber))
      && (ci.service == "" ==> v == pkgVersion + "." + username + "." + hostname)
      && (ci.service != "" && Tagged(ci) <==> v == pkgVersion)
  {
    var v := Compose(pkgVersion, ci, issue, versionWithIssue, username, hostname);
    assert v[..|pkgVersion|] == pkgVersion;
  }

  /** In an untagged CI build with a build number, the text after the last
      dot reads back as that number. */
  lemma BuildNumberLast(pkgVersion: string, ci: CI.Info, issue: Option<string>, versionWithIssue: Option<string>,
                        username: string, hostname: string, n: nat)
    requires ci.service != "" && !Tagged(ci) && ci.buildNumber == Some(n)
    ensures JsText.ParseInt(LastPart(Compose(pkgVersion, ci, issue, versionWithIssue, username, hostname), '.'), 10) == Some(n)
  {
    var v := Compose(pkgVersion, ci, issue, versionWithIssue, username, hostname);
    var digits := NatToString(n);
    assert v == (pkgVersion + IssuePart(issue, versionWithIssue)) + ['.'] + digits;
    LastAfter(pkgVersion + IssuePart(issue, versionWithIssue), '.', digits);
    JsText.ParseIntOfNatToString(n, 10);
  }

  /** The singleton never sets `issue`, so the issue part is always empty,
      whatever `VERSION_WITH_ISSUE` says. */
  lemma NoIssueFromSingleton(versionWithIssue: Option<string>)
    ensures IssuePart(None, versionWithIssue) == ""
  {
  }
}

/** `bin/version.ts`: compose the version and write it as a CommonJS module
    under `gen/`. */
module BinVersion {
  import opened Base
  import opened Strings
  import Json
  import Paths
  import CI = ContinuousIntegration
  import VersionString

  /** What `version()` does: the file it writes and its text, whether it
      creates `gen` first, and what it returns. */
  datatype Effect = Effect(path: string, text: string, makeDir: bool, version: string)

  /** The text of line 25. */
  function ModuleText(version: string): string {
    "module.exports = { version: " + Json.Stringify(version) + " }"
  }

  /** `version()` (lines 12-27); the singleton has no `issue` property. */
  function Version(root: string, pkgVersion: string, ci: CI.Info, versionWithIssue: Option<string>,
                   username: string, hostname: string, genExists: bool): Effect {
    var version := VersionString.Compose(pkgVersion, ci, None, versionWithIssue, username, hostname);
    Effect(Paths.JoinPath(Paths.JoinPath(root, "gen"), "version.cjs"), ModuleText(version), !genExists, version)
  }

  /** The module written holds exactly the string returned: the literal
      between the fixed text reads back as it. */
  lemma WrittenIsReturned(root: string, pkgVersion: string, ci: CI.Info, versionWithIssue: Option<string>,
                          username: string, hostname: string, genExists: bool)
    ensures var e := Version(root, pkgVersion, ci, versionWithIssue, username, hostname, genExists);
      && StartsWith(e.text, "module.exports = { version: ") && EndsWith(e.text, " }")
      && Json.Decode(e.text[|"module.exports = { version: "|..|e.text| - 2]) == Some(e.version)
      && (e.makeDir <==> !genExists)
  {
    var e := Version(root, pkgVersion, ci, versionWithIssue, username, hostname, genExists);
    var head := "module.exports = { version: ";
    assert e.text == head + Json.Stringify(e.version) + " }";
    assert e.text[|head|..|e.text| - 2] == Json.Stringify(e.version);
    assert e.text[..|head|] == head;
    assert e.text[|e.text| - 2..] == " }";
    Json.DecodeStringify(e.version);
  }
}

/** `version.ts`: the version the build uses, read from `gen/version.js`
    when that exists and composed and written there otherwise. */
module Version {
  import opened Base
  import opened Strings
  import Json
  import Paths
  import CI = ContinuousIntegration
  import VersionString

  const HEAD := "module.exports = "

  /** The text of line 31. */
  function ModuleText(version: string): string {
    HEAD + Json.Stringify(version) + ";\n"
  }

  /** `require` of a module this script wrote: the string it exports. */
  function Load(text: string): Option<string> {
    if StartsWith(text, HEAD) && EndsWith(text, ";\n") && |text| >= |HEAD| + 2
    then Json.Decode(text[|HEAD|..|text| - 2])
    else None
  }

  /** A file write. */
  datatype Write = Write(path: string, text: string)

  /** The version and the file work of the module. */
  datatype Effect = Effect(version: string, write: Option<Write>, makeDir: bool)

  /** Lines 10-32. `cached` is what `require` of an existing
      `gen/version.js` yields, `None` when the file does not exist. */
  function Version(root: string, cached: Option<string>, pkgVersion: string, ci: CI.Info,
                   versionWithIssue: Option<string>, username: string, hostname: string, genExists: bool): Effect {
    match cached
    case Some(v) => Effect(v, None, false)
    case None =>
      var version := VersionString.Compose(pkgVersion, ci, None, versionWithIssue, username, hostname);
      Effect(version, Some(Write(Paths.JoinPath(root, "gen/version.js"), ModuleText(version))), !genExists)
  }

  /** An existing module is used as is: nothing is composed, created or
      written. Otherwise the composed version is written, creating `gen`
      when it is missing. */
  lemma VersionSpec(root: string, cached: Option<string>, pkgVersion: string, ci: CI.Info,
                    versionWithIssue: Option<string>, username: string, hostname: string, genExists: bool)
    ensures var e := Version(root, cached, pkgVersion, ci, versionWithIssue, username, hostname, genExists);
      && (cached.Some? ==> e.version == cached.value && e.write.None? && !e.makeDir)
      && (cached.None? ==>
            && e.version == VersionString.Compose(pkgVersion, ci, None, versionWithIssue, username, hostname)
            && e.write.Some? && Load(e.write.value.text) == Some(e.version)
            && (e.makeDir <==> !genExists))
  {
    if cached.None? {
      var e := Version(root, cached, pkgVersion, ci, versionWithIssue, username, hostname, genExists);
      LoadModuleText(e.version);
    }
  }

  /** What the script writes loads back as the version it wrote. */
  lemma LoadModuleText(version: string)
    ensures Load(ModuleText(version)) == Some(version)
  {
    var text := ModuleText(version);
    assert text[..|HEAD|] == HEAD;
    assert text[|text| - 2..] == ";\n";
    assert text[|HEAD|..|text| - 2] == Json.Stringify(version);
    Json.DecodeStringify(version);
  }

  /** A second build reads the module the first one wrote: same version,
      whatever the CI, the user or the host are by then, and no write. */
  lemma SecondRunCached(root: string, pkgVersion: string, ci: CI.Info, ci': CI.Info,
                        versionWithIssue: Option<string>, username: string, hostname: string,
                        username': string, hostname': string, genExists: bool)
    ensures var first := Version(root, None, pkgVersion, ci, versionWithIssue, username, hostname, genExists);
      var second := Version(root, Load(first.write.value.text), pkgVersion, ci', versionWithIssue, username', hostname', true);
      second.version == first.version && second.write.None?
  {
    var first := Version(root, None, pkgVersion, ci, versionWithIssue, username, hostname, genExists);
    LoadModuleText(first.version);
  }
}
