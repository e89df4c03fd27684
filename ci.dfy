/** `continuous-integration.ts`: the singleton that reads the CI service, the
    build number, the tag, the branch and the pull-request flag from the
    environment when the build scripts load it. */
module ContinuousIntegration {
  import opened Base
  import opened Strings
  import JsText

  /** `process.env`: a variable is absent (`undefined`) or a string. */
  type Env = map<string, string>

  /** Running a shell command through `execSync`: its standard output, or
      `None` when the command fails and `execSync` throws. */
  type Shell = string -> Option<string>

  /** The two readings of the pull-request test of line 33 (see Findings):
      the prefix as written, and the event name GitHub actually sends. */
  datatype Reading = AsWritten | Intended

  /** The services probed by lines 12-14, in their order: the environment
      variable and the name it selects. */
  const PROBES: seq<(string, string)> :=
    [("CIRCLECI", "Circle"), ("TRAVIS", "Travis"), ("SEMAPHORE", "Semaphore"), ("GITHUB_ACTIONS", "GitHub")]

  predicate Flag(env: Env, id: string) {
    id in env && env[id] == "true"
  }

  /** A variable set to anything but `''`: `!!process.env[name]`. */
  predicate Truthy(env: Env, name: string) {
    name in env && env[name] != ""
  }

  /** A variable interpolated into a template literal. */
  function Shown(env: Env, name: string): string {
    if name in env then env[name] else "undefined"
  }

  /** The service after the first `n` probes of the loop. */
  function ServiceAfter(env: Env, n: nat): string
    requires n <= |PROBES|
  {
    if n == 0 then ""
    else if Flag(env, PROBES[n - 1].0) then PROBES[n - 1].1
    else ServiceAfter(env, n - 1)
  }

  function Service(env: Env): string {
    ServiceAfter(env, |PROBES|)
  }

  /** After `n` probes the service is the name of the last flag set among
      them, or `''` when none is. */
  lemma {:induction false} ServiceAfterSpec(env: Env, n: nat) returns (k: int)
    requires n <= |PROBES|
    ensures -1 <= k < n
    ensures k == -1 <==> ServiceAfter(env, n) == ""
    ensures k == -1 ==> forall j :: 0 <= j < n ==> !Flag(env, PROBES[j].0)
    ensures k >= 0 ==> ServiceAfter(env, n) == PROBES[k].1 && Flag(env, PROBES[k].0)
    ensures forall j :: k < j < n ==> !Flag(env, PROBES[j].0)
  {
    if n == 0 {
      k := -1;
    } else if Flag(env, PROBES[n - 1].0) {
      k := n - 1;
    } else {
      k := ServiceAfterSpec(env, n - 1);
    }
  }

  /** The service is named by the last of CIRCLECI, TRAVIS, SEMAPHORE and
      GITHUB_ACTIONS that is `'true'`; with none of them it is `''`. */
  lemma ServiceSpec(env: Env)
    ensures Service(env) == "" <==> forall j :: 0 <= j < |PROBES| ==> !Flag(env, PROBES[j].0)
    ensures Service(env) != "" ==>
      exists k :: 0 <= k < |PROBES| && Service(env) == PROBES[k].1 && Flag(env, PROBES[k].0)
        && forall j :: k < j < |PROBES| ==> !Flag(env, PROBES[j].0)
  {
    var k := ServiceAfterSpec(env, |PROBES|);
  }

  /** What the constructor can throw. */
  datatype Failure =
    | NotAnInteger(shown: string)      // `${n} is not an integer`
    | CommandFailed(command: string)   // `execSync` of a command that failed
    | ReadOfUndefined(name: string)    // `.startsWith` on an unset variable
    | UnexpectedService(service: string)

  /** The argument of the private `parseInt`: a number, a string, or
      `undefined`. */
  datatype Numeric = Num(n: int) | Str(s: string) | Absent

  function EnvNumeric(env: Env, name: string): Numeric {
    if name in env then Str(env[name]) else Absent
  }

  /** Lines 56-61: numbers pass through; anything else goes through the
      global `parseInt` (`undefined` reads as the text `undefined`), and `NaN`
      throws. */
  function ParseNumber(n: Numeric): (r: Result<int, Failure>)
    ensures n.Num? ==> r == Ok(n.n)
    ensures n.Absent? ==> r == Err(NotAnInteger("undefined"))
  {
    match n
    case Num(v) => Ok(v)
    case Str(s) =>
      (match JsText.ParseInt(s, 0)
       case None => Err(NotAnInteger(s))
       case Some(v) => Ok(v))
    case Absent => Err(NotAnInteger("undefined"))
  }

  /** A string parses exactly when `parseInt` finds a number in it, and the
      decimal rendering of every natural number parses back to it. */
  lemma ParseNumberSpec(s: string, m: nat)
    ensures ParseNumber(Str(s)).Ok? <==> JsText.ParseInt(s, 0).Some?
    ensures ParseNumber(Str(s)).Ok? ==> ParseNumber(Str(s)).value == JsText.ParseInt(s, 0).value
    ensures ParseNumber(Str(s)).Err? ==> ParseNumber(Str(s)).error == NotAnInteger(s)
    ensures ParseNumber(Str(NatToString(m))) == Ok(m)
  {
    JsText.ParseIntOfNatToString(m, 0);
  }

  /** A command's output as the scripts keep it: `execSync(...).toString().trim()`,
      or `None` when the command fails. */
  function Output(shell: Shell, command: string): Option<string> {
    match shell(command)
    case None => None
    case Some(out) => Some(JsText.Trim(out))
  }

  function DescribeCommand(sha: string): string {
    "git describe --exact-match " + sha
  }

  function LogCommand(sha: string): string {
    "git log --format=%B -n 1 " + sha
  }

  /** Lines 35-45: the branch and the tag a GitHub run reports, or the
      `TypeError` of reading `GITHUB_REF` when it is unset. */
  function GitHubRefs(env: Env): (r: Result<(string, string), Failure>)
    ensures r.Ok? ==> '/' !in r.value.0 && '/' !in r.value.1
    ensures r.Ok? ==> r.value.0 == "" || r.value.1 == ""
  {
    if Truthy(env, "GITHUB_HEAD_REF") then
      Ok((LastPart(env["GITHUB_HEAD_REF"], '/'), ""))
    else if "GITHUB_REF" !in env then
      Err(ReadOfUndefined("GITHUB_REF"))
    else if StartsWith(env["GITHUB_REF"], "refs/tags/") then
      Ok(("", LastPart(env["GITHUB_REF"], '/')))
    else if StartsWith(env["GITHUB_REF"], "refs/heads/") then
      Ok((LastPart(env["GITHUB_REF"], '/'), ""))
    else
      Ok(("", ""))
  }

  /** The head ref of a pull request wins over the ref; otherwise a tag ref
      `refs/tags/<t>` names the tag and a branch ref `refs/heads/<b>` the
      branch, each only by its last `/`-segment; any other ref leaves both
      empty. A tag like `release/v1` is thus reported as `v1`. */
  lemma GitHubRefsSpec(env: Env, head: string, name: string)
    requires '/' !in name
    ensures Truthy(env, "GITHUB_HEAD_REF") && env["GITHUB_HEAD_REF"] == head + "/" + name ==>
      GitHubRefs(env) == Ok((name, ""))
    ensures !Truthy(env, "GITHUB_HEAD_REF") && "GITHUB_REF" !in env ==>
      GitHubRefs(env) == Err(ReadOfUndefined("GITHUB_REF"))
    ensures !Truthy(env, "GITHUB_HEAD_REF") && "GITHUB_REF" in env && env["GITHUB_REF"] == "refs/tags/" + head + "/" + name ==>
      GitHubRefs(env) == Ok(("", name))
    ensures !Truthy(env, "GITHUB_HEAD_REF") && "GITHUB_REF" in env && env["GITHUB_REF"] == "refs/heads/" + name ==>
      GitHubRefs(env) == Ok((name, ""))
    ensures (!Truthy(env, "GITHUB_HEAD_REF") && "GITHUB_REF" in env
             && !StartsWith(env["GITHUB_REF"], "refs/tags/") && !StartsWith(env["GITHUB_REF"], "refs/heads/")) ==>
      GitHubRefs(env) == Ok(("", ""))
  {
    LastAfter(head, '/', name);
    LastAfter("refs/tags/" + head, '/', name);
    assert "refs/tags/" + head + "/" + name == ("refs/tags/" + head) + ['/'] + name;
    assert ("refs/tags/" + head + "/" + name)[..10] == "refs/tags/";
    LastAfter("refs/heads", '/', name);
    assert "refs/heads/" + name == "refs/heads" + ['/'] + name;
    assert ("refs/heads/" + name)[..11] == "refs/heads/";
    assert ("refs/heads/" + name)[5] != "refs/tags/"[5];
  }

  /** Line 33: the pull-request test on the GitHub event name. */
  function IsPullRequestEvent(event: string, reading: Reading): bool {
    StartsWith(event, if reading == AsWritten then "pull-request" else "pull_request")
  }

  /** What the singleton ends up holding. An unset `tag` or `branch` is
      `None` (`null` or `undefined`); `buildNumber` is unset outside Circle
      and GitHub. */
  datatype Info = Info(service: string, buildNumber: Option<int>, tag: Option<string>,
                       commitMessage: string, branch: Option<string>, pullRequest: bool)

  /** The constructor (lines 11-54) as a function of the environment and the
      commands' output. */
  function Detect(env: Env, shell: Shell, reading: Reading): Result<Info, Failure> {
    var service := Service(env);
    if service == "Circle" then Circle(env, shell)
    else if service == "GitHub" then GitHub(env, shell, reading)
    else if Flag(env, "CI") then Err(UnexpectedService(service))
    else Ok(Info(service, None, Some(""), "", Some(""), false))
  }

  /** Lines 17-28. */
  function Circle(env: Env, shell: Shell): Result<Info, Failure> {
    match ParseNumber(EnvNumeric(env, "CIRCLE_BUILD_NUM"))
    case Err(f) => Err(f)
    case Ok(n) =>
      var sha := Shown(env, "CIRCLE_SHA1");
      match Output(shell, LogCommand(sha))
      case None => Err(CommandFailed(LogCommand(sha)))
      case Some(message) =>
        var branch := if "CIRCLE_BRANCH" in env then Some(env["CIRCLE_BRANCH"]) else None;
        Ok(Info("Circle", Some(n), Output(shell, DescribeCommand(sha)), message, branch, Truthy(env, "CIRCLE_PULL_REQUEST")))
  }

  /** Lines 30-47. */
  function GitHub(env: Env, shell: Shell, reading: Reading): Result<Info, Failure> {
    match GitHubRun(env, shell)
    case Err(f) => Err(f)
    case Ok(info) => Ok(info.(pullRequest := IsPullRequestEvent(env["GITHUB_EVENT_NAME"], reading)))
  }

  /** Everything lines 30-47 set on GitHub but the pull-request flag, which
      is left `false` here. */
  function GitHubRun(env: Env, shell: Shell): (r: Result<Info, Failure>)
    ensures r.Ok? ==> "GITHUB_EVENT_NAME" in env && !r.value.pullRequest
  {
    match ParseNumber(EnvNumeric(env, "GITHUB_RUN_NUMBER"))
    case Err(f) => Err(f)
    case Ok(n) =>
      var log := LogCommand(Shown(env, "GITHUB_SHA"));
      match Output(shell, log)
      case None => Err(CommandFailed(log))
      case Some(message) =>
        if "GITHUB_EVENT_NAME" !in env then Err(ReadOfUndefined("GITHUB_EVENT_NAME"))
        else
          match GitHubRefs(env)
          case Err(f) => Err(f)
          case Ok(refs) => Ok(Info("GitHub", Some(n), Some(refs.1), message, Some(refs.0), false))
  }

  /** Only Circle and GitHub are handled: any other service, Travis,
      Semaphore and none at all included, throws when `CI` is `'true'`, and
      otherwise leaves every field at its initial value. */
  lemma UnhandledServices(env: Env, shell: Shell, reading: Reading)
    requires Service(env) != "Circle" && Service(env) != "GitHub"
    ensures Flag(env, "CI") ==> Detect(env, shell, reading) == Err(UnexpectedService(Service(env)))
    ensures !Flag(env, "CI") ==> Detect(env, shell, reading) == Ok(Info(Service(env), None, Some(""), "", Some(""), false))
  {
  }

  /** On Circle the tag is `null` exactly when `git describe` fails, and the
      build is a pull request exactly when `CIRCLE_PULL_REQUEST` is
      non-empty. */
  lemma CircleSpec(env: Env, shell: Shell, reading: Reading)
    requires Service(env) == "Circle"
    requires Detect(env, shell, reading).Ok?
    ensures var info := Detect(env, shell, reading).value;
      && info.buildNumber == Some(ParseNumber(EnvNumeric(env, "CIRCLE_BUILD_NUM")).value)
      && (info.tag.None? <==> shell(DescribeCommand(Shown(env, "CIRCLE_SHA1"))).None?)
      && (info.tag.Some? ==> info.tag.value == JsText.Trim(shell(DescribeCommand(Shown(env, "CIRCLE_SHA1"))).value))
      && (info.pullRequest <==> "CIRCLE_PULL_REQUEST" in env && env["CIRCLE_PULL_REQUEST"] != "")
  {
  }

  /** GitHub reports the events of a pull request as `pull_request` and
      `pull_request_target`. As written, line 33 calls neither a pull
      request; read as intended, both are. */
  lemma GitHubPullRequest(env: Env, shell: Shell)
    requires Service(env) == "GitHub"
    requires "GITHUB_EVENT_NAME" in env
    requires env["GITHUB_EVENT_NAME"] == "pull_request" || env["GITHUB_EVENT_NAME"] == "pull_request_target"
    requires Detect(env, shell, AsWritten).Ok?
    ensures !Detect(env, shell, AsWritten).value.pullRequest
    ensures Detect(env, shell, Intended).Ok? && Detect(env, shell, Intended).value.pullRequest
  {
    ReadingsAgree(env, shell);
    GitHubPullRequestEvent(env, shell, AsWritten);
    GitHubPullRequestEvent(env, shell, Intended);
    PullRequestEvents(env["GITHUB_EVENT_NAME"]);
  }

  lemma PullRequestEvents(event: string)
    requires event == "pull_request" || event == "pull_request_target"
    ensures !IsPullRequestEvent(event, AsWritten) && IsPullRequestEvent(event, Intended)
  {
    assert event[..12] == "pull_request";
    assert "pull-request"[4] != event[4];
  }

  /** The two readings differ in the pull-request flag alone. */
  lemma ReadingsAgree(env: Env, shell: Shell)
    ensures Detect(env, shell, AsWritten).Ok? <==> Detect(env, shell, Intended).Ok?
    ensures Detect(env, shell, AsWritten).Ok? ==>
      Detect(env, shell, AsWritten).value.(pullRequest := false) == Detect(env, shell, Intended).value.(pullRequest := false)
    ensures Detect(env, shell, AsWritten).Err? ==> Detect(env, shell, AsWritten) == Detect(env, shell, Intended)
  {
  }

  /** Under either reading the event name is all that decides the flag. */
  lemma GitHubPullRequestEvent(env: Env, shell: Shell, reading: Reading)
    requires Service(env) == "GitHub"
    requires Detect(env, shell, reading).Ok?
    ensures "GITHUB_EVENT_NAME" in env
    ensures Detect(env, shell, reading).value.pullRequest == IsPullRequestEvent(env["GITHUB_EVENT_NAME"], reading)
    ensures Detect(env, shell, reading).value.branch == Some(GitHubRefs(env).value.0)
    ensures Detect(env, shell, reading).value.tag == Some(GitHubRefs(env).value.1)
  {
  }

  /** The singleton, `ContinuousIntegration`. */
  class Singleton {
    var service: string
    var buildNumber: Option<int>
    var tag: Option<string>
    var commitMessage: string
    var branch: Option<string>
    var pullRequest: bool
    /** The exception the constructor ends with, if any. */
    var thrown: Option<Failure>

    function Fields(): Info
      reads this
    {
      Info(service, buildNumber, tag, commitMessage, branch, pullRequest)
    }

    constructor (env: Env, shell: Shell, reading: Reading)
      ensures Detect(env, shell, reading).Ok? ==> thrown.None? && Fields() == Detect(env, shell, reading).value
      ensures Detect(env, shell, reading).Err? ==> thrown == Some(Detect(env, shell, reading).error)
    {
      service := "";
      buildNumber := None;
      tag := Some("");
      commitMessage := "";
      branch := Some("");
      pullRequest := false;
      thrown := None;
      new;
      var i := 0;
      while i < |PROBES|
        invariant i <= |PROBES|
        invariant service == ServiceAfter(env, i)
        invariant Fields() == Info(service, None, Some(""), "", Some(""), false) && thrown.None?
      {
        if Flag(env, PROBES[i].0) {
          service := PROBES[i].1;
        }
        i := i + 1;
      }
      assert service == Service(env);
      if service == "Circle" {
        ReadCircle(env, shell);
      } else if service == "GitHub" {
        ReadGitHub(env, shell, reading);
      } else if Flag(env, "CI") {
        thrown := Some(UnexpectedService(service));
      }
    }

    /** The `Circle` case of the switch. */
    method ReadCircle(env: Env, shell: Shell)
      requires Fields() == Info("Circle", None, Some(""), "", Some(""), false) && thrown.None?
      modifies this
      ensures Circle(env, shell).Ok? ==> thrown.None? && Fields() == Circle(env, shell).value
      ensures Circle(env, shell).Err? ==> thrown == Some(Circle(env, shell).error)
    {
      var n := ParseNumber(EnvNumeric(env, "CIRCLE_BUILD_NUM"));
      if n.Err? {
        thrown := Some(n.error);
        return;
      }
      buildNumber := Some(n.value);
      var sha := Shown(env, "CIRCLE_SHA1");
      tag := Output(shell, DescribeCommand(sha));
      var log := Output(shell, LogCommand(sha));
      if log.None? {
        thrown := Some(CommandFailed(LogCommand(sha)));
        return;
      }
      commitMessage := log.value;
      branch := if "CIRCLE_BRANCH" in env then Some(env["CIRCLE_BRANCH"]) else None;
      pullRequest := Truthy(env, "CIRCLE_PULL_REQUEST");
    }

    /** The `GitHub` case of the switch. */
    method ReadGitHub(env: Env, shell: Shell, reading: Reading)
      requires Fields() == Info("GitHub", None, Some(""), "", Some(""), false) && thrown.None?
      modifies this
      ensures GitHub(env, shell, reading).Ok? ==> thrown.None? && Fields() == GitHub(env, shell, reading).value
      ensures GitHub(env, shell, reading).Err? ==> thrown == Some(GitHub(env, shell, reading).error)
    {
      var n := ParseNumber(EnvNumeric(env, "GITHUB_RUN_NUMBER"));
      if n.Err? {
        thrown := Some(n.error);
        return;
      }
      buildNumber := Some(n.value);
      var log := Output(shell, LogCommand(Shown(env, "GITHUB_SHA")));
      if log.None? {
        thrown := Some(CommandFailed(LogCommand(Shown(env, "GITHUB_SHA"))));
        return;
      }
      commitMessage := log.value;
      if "GITHUB_EVENT_NAME" !in env {
        thrown := Some(ReadOfUndefined("GITHUB_EVENT_NAME"));
        return;
      }
      pullRequest := IsPullRequestEvent(env["GITHUB_EVENT_NAME"], reading);
      if Truthy(env, "GITHUB_HEAD_REF") {
        branch := Some(LastPart(env["GITHUB_HEAD_REF"], '/'));
      } else if "GITHUB_REF" !in env {
        thrown := Some(ReadOfUndefined("GITHUB_REF"));
        return;
      } else if StartsWith(env["GITHUB_REF"], "refs/tags/") {
        tag := Some(LastPart(env["GITHUB_REF"], '/'));
      } else if StartsWith(env["GITHUB_REF"], "refs/heads/") {
        branch := Some(LastPart(env["GITHUB_REF"], '/'));
      }
    }
  }
}
