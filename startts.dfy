/** `bin/start.ts`: the development launcher. With `--reset` it rewrites the
    profile's `user.js` and `prefs.js` so that the five extension settings
    below take their fixed values; it then builds, clears the installed
    copies, writes the extension proxy file pointing at the build and starts
    Zotero for the platform. */
module StartTs {
  import opened Base
  import opened Strings
  import Paths
  import JsRegex

  /** One entry of `settings` (lines 21-27); `None` is `null`. */
  datatype Setting = Setting(name: string, value: Option<int>)

  const SETTINGS: seq<Setting> := [
    Setting("extensions.autoDisableScopes", Some(0)),
    Setting("extensions.enableScopes", Some(15)),
    Setting("extensions.startupScanScopes", Some(15)),
    Setting("extensions.lastAppBuildId", None),
    Setting("extensions.lastAppVersion", None)
  ]

  function Names(settings: seq<Setting>): (r: seq<string>)
    ensures |r| == |settings| && forall k :: 0 <= k < |settings| ==> r[k] == settings[k].name
  {
    seq(|settings|, k requires 0 <= k < |settings| => settings[k].name)
  }

  // ---------------------------------------------------------------------
  // The alternation of line 28

  /** The characters line 28 escapes. */
  const SPECIAL := ".*+?^${}()|[]\\"

  /** `setting.replace(/[.*+?^${}()|[\]\\]/g, '\\$&')`. */
  function EscapeRe(s: string): (r: string)
    ensures |r| >= |s|
  {
    if |s| == 0 then ""
    else (if s[0] in SPECIAL then ['\\', s[0]] else [s[0]]) + EscapeRe(s[1..])
  }

  /** `.map(escape).join('|')`. */
  function Alternation(names: seq<string>): string {
    Join(seq(|names|, k requires 0 <= k < |names| => EscapeRe(names[k])), "|")
  }

  /** The literal alternatives a pattern made of plain characters, escaped
      special characters and `|` stands for; `None` for any other pattern.
      `current` is the alternative read so far. */
  function Alternatives(src: string, current: string): Option<seq<string>>
    decreases |src|
  {
    if |src| == 0 then Some([current])
    else if src[0] == '\\' then
      if |src| >= 2 && src[1] in SPECIAL then Alternatives(src[2..], current + [src[1]]) else None
    else if src[0] == '|' then
      match Alternatives(src[1..], "")
      case None => None
      case Some(rest) => Some([current] + rest)
    else if src[0] in SPECIAL then None
    else Alternatives(src[1..], current + [src[0]])
  }

  /** `line.match(re)` for such a pattern: some alternative occurs in it. */
  predicate Matches(line: string, re: string) {
    match Alternatives(re, "")
    case None => false
    case Some(alts) => exists a :: a in alts && Contains(line, a)
  }

  /** An escaped name reads back as the name itself, whatever follows. */
  lemma {:induction false} AlternativesEscaped(s: string, rest: string, current: string)
    ensures Alternatives(EscapeRe(s) + rest, current) == Alternatives(rest, current + s)
    decreases |s|
  {
    if |s| > 0 {
      var head := if s[0] in SPECIAL then ['\\', s[0]] else [s[0]];
      assert EscapeRe(s) + rest == head + (EscapeRe(s[1..]) + rest);
      AlternativesEscaped(s[1..], rest, current + [s[0]]);
      assert current + [s[0]] + s[1..] == current + s;
      if s[0] in SPECIAL {
        assert (head + (EscapeRe(s[1..]) + rest))[2..] == EscapeRe(s[1..]) + rest;
      } else {
        assert (head + (EscapeRe(s[1..]) + rest))[1..] == EscapeRe(s[1..]) + rest;
      }
    } else {
      assert EscapeRe(s) + rest == rest;
      assert current + s == current;
    }
  }

  /** The alternation of any non-empty list of names stands for exactly
      those names, in order: escaping makes every character literal. */
  lemma {:induction false} AlternationRead(names: seq<string>)
    requires |names| >= 1
    ensures Alternatives(Alternation(names), "") == Some(names)
    decreases |names|
  {
    var escaped := seq(|names|, k requires 0 <= k < |names| => EscapeRe(names[k]));
    if |names| == 1 {
      assert Alternation(names) == EscapeRe(names[0]);
      assert EscapeRe(names[0]) + "" == EscapeRe(names[0]);
      AlternativesEscaped(names[0], "", "");
      assert "" + names[0] == names[0];
      assert names == [names[0]];
    } else {
      var tail := Join(escaped[1..], "|");
      assert escaped[1..] == seq(|names| - 1, k requires 0 <= k < |names| - 1 => EscapeRe(names[1..][k]));
      assert tail == Alternation(names[1..]);
      assert Alternation(names) == EscapeRe(names[0]) + ("|" + tail);
      AlternativesEscaped(names[0], "|" + tail, "");
      assert "" + names[0] == names[0];
      assert ("|" + tail)[1..] == tail;
      AlternationRead(names[1..]);
      assert [names[0]] + names[1..] == names;
    }
  }

  /** The pattern of line 28. */
  const RE := Alternation(Names(SETTINGS))

  /** Line 32: a line is dropped exactly when one of the five names occurs
      in it literally. */
  lemma DroppedIff(line: string)
    ensures Matches(line, RE) <==> Dropped(line)
  {
    AlternationRead(Names(SETTINGS));
    if Matches(line, RE) {
      var a :| a in Names(SETTINGS) && Contains(line, a);
      var k :| 0 <= k < |SETTINGS| && Names(SETTINGS)[k] == a;
    }
    if exists k :: 0 <= k < |SETTINGS| && Contains(line, SETTINGS[k].name) {
      var k :| 0 <= k < |SETTINGS| && Contains(line, SETTINGS[k].name);
      assert Names(SETTINGS)[k] in Names(SETTINGS);
    }
  }

  // ---------------------------------------------------------------------
  // Rewriting one prefs file (lines 30-38)

  /** What line 32's test amounts to: one of the names occurs in the line. */
  predicate Dropped(line: string) {
    exists k :: 0 <= k < |SETTINGS| && Contains(line, SETTINGS[k].name)
  }

  /** The lines the loop of lines 31-33 keeps, for a test `drop`. */
  function Kept(lines: seq<string>, drop: string -> bool): seq<string> {
    if |lines| == 0 then []
    else Kept(lines[..|lines| - 1], drop) + (if drop(lines[|lines| - 1]) then [] else [lines[|lines| - 1]])
  }

  /** Line 35. */
  function PrefLine(s: Setting): string
    requires s.value.Some?
  {
    "user_pref(\"" + s.name + "\", " + IntToString(s.value.value) + ");"
  }

  /** The lines the loop of lines 34-36 appends. */
  function Added(settings: seq<Setting>): seq<string> {
    if |settings| == 0 then []
    else
      var s := settings[|settings| - 1];
      Added(settings[..|settings| - 1]) + (if s.value.Some? then [PrefLine(s)] else [])
  }

  /** The text line 38 writes for a file that held `text`. */
  function Rewritten(text: string): string {
    Join(Kept(Split(text, '\n'), Dropped) + Added(SETTINGS), "\n")
  }

  /** Lines 31-33: the lines `drop` refuses, pushed in order. */
  method Keep(lines: seq<string>, drop: string -> bool) returns (userPrefs: seq<string>)
    ensures userPrefs == Kept(lines, drop)
  {
    userPrefs := [];
    for i := 0 to |lines|
      invariant userPrefs == Kept(lines[..i], drop)
    {
      assert lines[..i + 1][..i] == lines[..i];
      if !drop(lines[i]) {
        userPrefs := userPrefs + [lines[i]];
      }
    }
    assert lines[..|lines|] == lines;
  }

  /** Lines 34-36: one line pushed per non-null setting. */
  method Append(userPrefs: seq<string>, settings: seq<Setting>) returns (out: seq<string>)
    ensures out == userPrefs + Added(settings)
  {
    out := userPrefs;
    assert out + [] == out;
    for j := 0 to |settings|
      invariant out == userPrefs + Added(settings[..j])
    {
      assert settings[..j + 1][..j] == settings[..j];
      if settings[j].value != None {
        out := out + [PrefLine(settings[j])];
      }
    }
    assert settings[..|settings|] == settings;
  }

  /** Lines 30-38 for one file. */
  method Rewrite(text: string) returns (written: string)
    ensures written == Rewritten(text)
  {
    var re := Alternation(Names(SETTINGS));
    var userPrefs := Keep(Split(text, '\n'), line => Matches(line, re));
    SameTest(Split(text, '\n'), line => Matches(line, re));
    userPrefs := Append(userPrefs, SETTINGS);
    written := Join(userPrefs, "\n");
  }

  /** The regular expression keeps the same lines as the literal test. */
  lemma SameTest(lines: seq<string>, test: string -> bool)
    requires forall line :: test(line) == Matches(line, RE)
    ensures Kept(lines, test) == Kept(lines, Dropped)
  {
    forall line ensures test(line) == Dropped(line) {
      DroppedIff(line);
    }
    KeptExtensional(lines, test, Dropped);
  }

  lemma {:induction false} KeptExtensional(lines: seq<string>, f: string -> bool, g: string -> bool)
    requires forall line :: f(line) == g(line)
    ensures Kept(lines, f) == Kept(lines, g)
    decreases |lines|
  {
    if |lines| > 0 {
      KeptExtensional(lines[..|lines| - 1], f, g);
    }
  }

  /** The kept lines are the lines `drop` refuses, in their order:
      `at[k]` is where the `k`-th kept line was. */
  lemma {:induction false} KeptSpec(lines: seq<string>, drop: string -> bool) returns (at: seq<nat>)
    ensures |at| == |Kept(lines, drop)|
    ensures forall k :: 0 <= k < |at| ==> at[k] < |lines| && Kept(lines, drop)[k] == lines[at[k]] && !drop(lines[at[k]])
    ensures forall k, l :: 0 <= k < l < |at| ==> at[k] < at[l]
    ensures forall n :: 0 <= n < |lines| && !drop(lines[n]) ==> exists k :: 0 <= k < |at| && at[k] == n
  {
    if |lines| == 0 {
      at := [];
    } else {
      var front := lines[..|lines| - 1];
      var before := KeptSpec(front, drop);
      var last := lines[|lines| - 1];
      at := before + (if drop(last) then [] else [|lines| - 1]);
      var kept := Kept(lines, drop);
      var prior := Kept(front, drop);
      assert kept == prior + (if drop(last) then [] else [last]);
      forall k | 0 <= k < |at|
        ensures at[k] < |lines| && kept[k] == lines[at[k]] && !drop(lines[at[k]])
      {
        if k < |before| {
          assert at[k] == before[k] && kept[k] == prior[k];
          assert lines[at[k]] == front[before[k]];
        }
      }
      forall n | 0 <= n < |lines| && !drop(lines[n])
        ensures exists k :: 0 <= k < |at| && at[k] == n
      {
        if n < |lines| - 1 {
          assert lines[n] == front[n];
          var k :| 0 <= k < |before| && before[k] == n;
          assert at[k] == n;
        } else {
          assert at[|at| - 1] == n;
        }
      }
    }
  }

  lemma {:induction false} KeptAppend(a: seq<string>, b: seq<string>, drop: string -> bool)
    ensures Kept(a + b, drop) == Kept(a, drop) + Kept(b, drop)
    decreases |b|
  {
    if |b| == 0 {
      assert a + b == a;
      assert Kept(a, drop) + [] == Kept(a, drop);
    } else {
      assert (a + b)[..|a + b| - 1] == a + b[..|b| - 1];
      KeptAppend(a, b[..|b| - 1], drop);
    }
  }

  /** Keeping is idempotent: no kept line is dropped. */
  lemma {:induction false} KeptKept(lines: seq<string>, drop: string -> bool)
    ensures Kept(Kept(lines, drop), drop) == Kept(lines, drop)
    decreases |lines|
  {
    if |lines| > 0 {
      var front := lines[..|lines| - 1];
      var last := lines[|lines| - 1];
      var tail := if drop(last) then [] else [last];
      KeptKept(front, drop);
      KeptAppend(Kept(front, drop), tail, drop);
      if !drop(last) {
        assert tail[..0] == [];
        assert Kept(tail, drop) == Kept([], drop) + [last];
      } else {
        assert Kept(Kept(front, drop) + tail, drop) == Kept(Kept(front, drop), drop) + [];
      }
    }
  }

  lemma {:induction false} KeptNone(lines: seq<string>, drop: string -> bool)
    requires forall k :: 0 <= k < |lines| ==> drop(lines[k])
    ensures Kept(lines, drop) == []
    decreases |lines|
  {
    if |lines| > 0 {
      KeptNone(lines[..|lines| - 1], drop);
    }
  }

  lemma KeptNoNewline(lines: seq<string>, drop: string -> bool)
    requires forall k :: 0 <= k < |lines| ==> '\n' !in lines[k]
    ensures forall k :: 0 <= k < |Kept(lines, drop)| ==> '\n' !in Kept(lines, drop)[k]
  {
    var at := KeptSpec(lines, drop);
  }

  /** The lines every reset appends: `user_pref("extensions.autoDisableScopes", 0);`
      and the two scopes set to 15. */
  const ADDED: seq<string> := [PrefLine(SETTINGS[0]), PrefLine(SETTINGS[1]), PrefLine(SETTINGS[2])]

  /** The appended lines: the three non-null settings in order; the two
      null ones are only removed. */
  lemma AddedLines()
    ensures Added(SETTINGS) == ADDED
  {
    var s := SETTINGS;
    assert s[..5] == s && s[..5][..4] == s[..4] && s[..4][..3] == s[..3];
    assert s[..3][..2] == s[..2] && s[..2][..1] == s[..1] && s[..1][..0] == [];
    assert Added(s) == Added(s[..4]);
    assert Added(s[..4]) == Added(s[..3]);
    assert Added(s[..3]) == Added(s[..2]) + [PrefLine(s[2])];
    assert Added(s[..2]) == Added(s[..1]) + [PrefLine(s[1])];
    assert Added(s[..1]) == [PrefLine(s[0])];
  }

  /** A line in which the `k`-th name occurs is dropped. */
  lemma DroppedAt(line: string, k: nat, at: nat)
    requires k < |SETTINGS| && OccursAt(line, SETTINGS[k].name, at)
    ensures Dropped(line)
  {
    DroppedIff(line);
  }

  /** Every appended line names its setting, so a second reset drops it. */
  lemma AddedAllDropped()
    ensures forall k :: 0 <= k < |ADDED| ==> Dropped(ADDED[k]) && '\n' !in ADDED[k]
  {
    AddedEachDropped();
    AddedSingleLines();
    assert |ADDED| == 3;
    forall k | 0 <= k < |ADDED| ensures Dropped(ADDED[k]) && '\n' !in ADDED[k] {
      assert k == 0 || k == 1 || k == 2;
    }
  }

  lemma AddedEachDropped()
    ensures Dropped(ADDED[0]) && Dropped(ADDED[1]) && Dropped(ADDED[2])
  {
    PrefLineDropped(0);
    PrefLineDropped(1);
    PrefLineDropped(2);
  }

  lemma NamesSingleLine()
    ensures '\n' !in SETTINGS[0].name && '\n' !in SETTINGS[1].name && '\n' !in SETTINGS[2].name
  {
    AutoDisableSingleLine();
    EnableSingleLine();
    StartupScanSingleLine();
  }

  lemma AutoDisableSingleLine()
    ensures forall c :: c in SETTINGS[0].name ==> c != '\n'
  {
  }

  lemma EnableSingleLine()
    ensures forall c :: c in SETTINGS[1].name ==> c != '\n'
  {
  }

  lemma StartupScanSingleLine()
    ensures forall c :: c in SETTINGS[2].name ==> c != '\n'
  {
  }

  lemma AddedSingleLines()
    ensures '\n' !in ADDED[0] && '\n' !in ADDED[1] && '\n' !in ADDED[2]
  {
    NamesSingleLine();
    PrefLineSingle(SETTINGS[0]);
    PrefLineSingle(SETTINGS[1]);
    PrefLineSingle(SETTINGS[2]);
  }

  lemma PrefLineSingle(s: Setting)
    requires s.value.Some? && s.value.value >= 0 && '\n' !in s.name
    ensures '\n' !in PrefLine(s)
  {
    var digits := IntToString(s.value.value);
    assert '\n' !in digits by {
      forall i | 0 <= i < |digits| ensures digits[i] != '\n' {
        assert IsDigit(digits[i]);
      }
    }
    assert PrefLine(s) == "user_pref(\"" + s.name + "\", " + digits + ");";
  }

  lemma PrefLineDropped(k: nat)
    requires k < |SETTINGS| && SETTINGS[k].value.Some?
    ensures Dropped(PrefLine(SETTINGS[k]))
  {
    var s := SETTINGS[k];
    var line := PrefLine(s);
    assert line == "user_pref(\"" + s.name + ("\", " + IntToString(s.value.value) + ");");
    assert line[11..11 + |s.name|] == s.name;
    DroppedAt(line, k, 11);
  }

  /** The rewritten file is the kept lines followed by the three settings,
      one per line. */
  lemma RewrittenLines(text: string)
    ensures Split(Rewritten(text), '\n') == Kept(Split(text, '\n'), Dropped) + ADDED
  {
    AddedAllDropped();
    AddedLines();
    var kept := Kept(Split(text, '\n'), Dropped);
    KeptNoNewline(Split(text, '\n'), Dropped);
    assert forall k :: 0 <= k < |kept + ADDED| ==> '\n' !in (kept + ADDED)[k] by {
      forall k | 0 <= k < |kept + ADDED| ensures '\n' !in (kept + ADDED)[k] {
        if k >= |kept| { assert (kept + ADDED)[k] == ADDED[k - |kept|]; }
      }
    }
    SplitJoin(kept + ADDED, '\n');
  }

  /** A second reset leaves the file as the first one wrote it. */
  lemma RewrittenIdempotent(text: string)
    ensures Rewritten(Rewritten(text)) == Rewritten(text)
  {
    var kept := Kept(Split(text, '\n'), Dropped);
    RewrittenLines(text);
    AddedAllDropped();
    AddedLines();
    KeptAppend(kept, ADDED, Dropped);
    KeptKept(Split(text, '\n'), Dropped);
    KeptNone(ADDED, Dropped);
    assert kept + [] == kept;
  }

  // ---------------------------------------------------------------------
  // The proxy file (lines 47-49)

  /** Line 48: the resolved build path, ending in the separator. */
  function Code(resolved: string, sep: string): (r: string)
    ensures EndsWith(r, sep)
    ensures EndsWith(resolved, sep) ==> r == resolved
    ensures !EndsWith(resolved, sep) ==> r == resolved + sep
  {
    if EndsWith(resolved, sep) then resolved else
    assert (resolved + sep)[|resolved + sep| - |sep|..] == sep;
    resolved + sep
  }

  /** `email.replace(/.*@/, '@')`. */
  function Domain(email: string): string {
    JsRegex.ReplaceThroughAt(email, "@")
  }

  /** What the loose `replace` of line 49 is read as: with its replacement
      argument missing, `replace('zotero-')` puts `undefined` in place of
      the first `zotero-`, where stripping it is evidently meant. */
  datatype Reading = AsWritten | Intended

  function Stem(name: string, reading: Reading): string {
    ReplaceFirst(name, "zotero-", if reading == AsWritten then "undefined" else "")
  }

  /** The proxy file's name: the package name's stem and the author's mail
      domain from its `@` on. It differs from the id `rdf.ts` derives, which
      strips only a leading `zotero-` and lower-cases the result. */
  function ProxyName(name: string, email: string, reading: Reading): string {
    Stem(name, reading) + Domain(email)
  }

  /** As written, a package named `zotero-<rest>` gets a proxy file called
      `undefined<rest>@<domain>`, which is not its extension id. */
  lemma AsWrittenInsertsUndefined(rest: string, local: string, domain: string)
    requires NoLineTerminator(local) && '@' !in domain
    ensures ProxyName("zotero-" + rest, local + "@" + domain, AsWritten) == "undefined" + rest + "@" + domain
  {
    var name := "zotero-" + rest;
    assert name[0..7] == "zotero-";
    assert name[7..] == rest;
    JsRegex.ReplaceThroughAtSpec(local, domain, "@");
  }

  /** Read as intended, the prefix is stripped: the proxy file is named
      `<rest>@<domain>`, and a name without the prefix is kept whole. */
  lemma IntendedStripsPrefix(rest: string, local: string, domain: string)
    requires NoLineTerminator(local) && '@' !in domain
    ensures ProxyName("zotero-" + rest, local + "@" + domain, Intended) == rest + "@" + domain
    ensures !Contains(rest, "zotero-") ==> Stem(rest, Intended) == rest
  {
    var name := "zotero-" + rest;
    assert name[0..7] == "zotero-";
    assert name[7..] == rest;
    JsRegex.ReplaceThroughAtSpec(local, domain, "@");
    assert IndexOf(rest, "zotero-", 0).Some? ==> Contains(rest, "zotero-");
  }

  // ---------------------------------------------------------------------
  // The script

  /** Lines 51-65: the Zotero binary, `None` on Windows. */
  function Binary(platform: string): (r: Option<string>)
    ensures r.None? <==> platform == "win32"
    ensures platform == "darwin" ==> r == Some("/Applications/Zotero.app/Contents/MacOS/zotero")
    ensures platform != "darwin" && platform != "win32" ==> r == Some("/usr/local/bin/zotero/zotero")
  {
    match platform
    case "darwin" => Some("/Applications/Zotero.app/Contents/MacOS/zotero")
    case "win32" => None
    case _ => Some("/usr/local/bin/zotero/zotero")
  }

  /** `path.sep`. */
  function Sep(platform: string): string {
    if platform == "win32" then "\\" else "/"
  }

  datatype Profile = Profile(dir: string, name: string, log: string)

  datatype Step = Write(path: string, text: string) | Shell(command: string)

  /** How the script ends: it runs to the end, exits with a status, or
      throws. */
  datatype End = Finished | Exited(status: int) | Threw(message: string)

  datatype Outcome = Outcome(steps: seq<Step>, end: End)

  /** What `readFileSync` throws for a missing file. */
  function Missing(path: string): string {
    "ENOENT: no such file or directory, open '" + path + "'"
  }

  /** The files of line 29, in order. */
  const FILES: seq<string> := ["user", "prefs"]

  /** Lines 29-39 over the given files; `read` stands for the file system
      (`None`: missing). */
  function Resets(dir: string, files: seq<string>, read: string -> Option<string>, rewrite: string -> string): Outcome
    decreases |files|
  {
    if |files| == 0 then Outcome([], Finished)
    else
      var path := Paths.JoinPath(dir, files[0] + ".js");
      match read(path)
      case None => Outcome([], Threw(Missing(path)))
      case Some(text) =>
        var rest := Resets(dir, files[1..], read, rewrite);
        Outcome([Write(path, rewrite(text))] + rest.steps, rest.end)
  }

  /** Build, remove the installed copies, write the proxy file. */
  function Prelude(profile: Profile, pkgName: string, email: string, resolved: string, platform: string,
                   quote: seq<string> -> string, reading: Reading): seq<Step> {
    var ext := Paths.JoinPath(profile.dir, "extensions");
    [
      Shell("npm run build"),
      Shell(quote(["rm", "-rf", Paths.JoinPath(profile.dir, "extensions.json")])),
      Shell(quote(["rm", "-rf", ext]) + Sep(platform) + pkgName + "*.xpi"),
      Write(Paths.JoinPath(ext, ProxyName(pkgName, email, reading)), Code(resolved, Sep(platform)))
    ]
  }

  /** Lines 42-67 after the reset. `quote` is `shell-quote`'s `quote`,
      `resolved` the resolved build directory. */
  function Launch(profile: Profile, pkgName: string, email: string, resolved: string, platform: string,
                  quote: seq<string> -> string, reading: Reading): Outcome {
    var steps := Prelude(profile, pkgName, email, resolved, platform, quote, reading);
    match Binary(platform)
    case None => Outcome(steps, Exited(1))
    case Some(zotero) =>
      Outcome(steps + [Shell(quote([zotero, "-purgecaches", "-P", profile.name, "-jsconsole", "-ZoteroDebugText"])
                             + " > " + quote([profile.log]))], Finished)
  }

  /** The whole script. */
  function Run(reset: bool, profile: Profile, pkgName: string, email: string, resolved: string, platform: string,
               read: string -> Option<string>, quote: seq<string> -> string, reading: Reading): Outcome {
    var first := if reset then Resets(profile.dir, FILES, read, Rewritten) else Outcome([], Finished);
    if first.end != Finished then first
    else
      var launch := Launch(profile, pkgName, email, resolved, platform, quote, reading);
      Outcome(first.steps + launch.steps, launch.end)
  }

  /** The loop of line 29 over `files`. */
  method ResetFiles(dir: string, files: seq<string>, read: string -> Option<string>) returns (outcome: Outcome)
    ensures outcome == Resets(dir, files, read, Rewritten)
  {
    var steps: seq<Step> := [];
    var i := 0;
    while i < |files|
      invariant i <= |files|
      invariant Resets(dir, files, read, Rewritten) == Prefixed(steps, Resets(dir, files[i..], read, Rewritten))
    {
      var path := Paths.JoinPath(dir, files[i] + ".js");
      var text := read(path);
      if text.None? {
        ResetsMissing(dir, files, i, steps, read, Rewritten);
        return Outcome(steps, Threw(Missing(path)));
      }
      var written := Rewrite(text.value);
      ResetsAdvance(dir, files, i, steps, read, Rewritten, written);
      steps := steps + [Write(path, written)];
      i := i + 1;
    }
    outcome := Outcome(steps, Finished);
    ResetsDone(dir, files, steps, read, Rewritten);
  }

  /** `o` with `steps` run before it. */
  function Prefixed(steps: seq<Step>, o: Outcome): Outcome {
    Outcome(steps + o.steps, o.end)
  }

  lemma ResetsMissing(dir: string, files: seq<string>, i: nat, steps: seq<Step>, read: string -> Option<string>, rewrite: string -> string)
    requires i < |files| && read(Paths.JoinPath(dir, files[i] + ".js")).None?
    requires Resets(dir, files, read, rewrite) == Prefixed(steps, Resets(dir, files[i..], read, rewrite))
    ensures Resets(dir, files, read, rewrite) == Outcome(steps, Threw(Missing(Paths.JoinPath(dir, files[i] + ".js"))))
  {
    assert files[i..][0] == files[i];
    assert steps + [] == steps;
  }

  lemma ResetsAdvance(dir: string, files: seq<string>, i: nat, steps: seq<Step>, read: string -> Option<string>,
                      rewrite: string -> string, written: string)
    requires i < |files| && read(Paths.JoinPath(dir, files[i] + ".js")).Some?
    requires written == rewrite(read(Paths.JoinPath(dir, files[i] + ".js")).value)
    requires Resets(dir, files, read, rewrite) == Prefixed(steps, Resets(dir, files[i..], read, rewrite))
    ensures Resets(dir, files, read, rewrite) ==
      Prefixed(steps + [Write(Paths.JoinPath(dir, files[i] + ".js"), written)], Resets(dir, files[i + 1..], read, rewrite))
  {
    assert files[i..][0] == files[i] && files[i..][1..] == files[i + 1..];
    var w := Write(Paths.JoinPath(dir, files[i] + ".js"), written);
    var rest := Resets(dir, files[i + 1..], read, rewrite);
    assert steps + ([w] + rest.steps) == (steps + [w]) + rest.steps;
  }

  lemma ResetsDone(dir: string, files: seq<string>, steps: seq<Step>, read: string -> Option<string>, rewrite: string -> string)
    requires Resets(dir, files, read, rewrite) == Prefixed(steps, Resets(dir, files[|files|..], read, rewrite))
    ensures Resets(dir, files, read, rewrite) == Outcome(steps, Finished)
  {
    assert files[|files|..] == [];
    assert steps + [] == steps;
  }

  /** The script. */
  method Script(reset: bool, profile: Profile, pkgName: string, email: string, resolved: string, platform: string,
                read: string -> Option<string>, quote: seq<string> -> string, reading: Reading)
    returns (outcome: Outcome)
    ensures outcome == Run(reset, profile, pkgName, email, resolved, platform, read, quote, reading)
  {
    var first := Outcome([], Finished);
    if reset {
      first := ResetFiles(profile.dir, FILES, read);
    }
    if first.end != Finished {
      return first;
    }
    var launch := Launch(profile, pkgName, email, resolved, platform, quote, reading);
    outcome := Outcome(first.steps + launch.steps, launch.end);
  }

  /** One file: rewritten when present, the loop throws when missing. */
  lemma ResetsOne(dir: string, b: string, read: string -> Option<string>, rewrite: string -> string)
    ensures var pb := Paths.JoinPath(dir, b + ".js");
      Resets(dir, [b], read, rewrite) ==
        if read(pb).None? then Outcome([], Threw(Missing(pb)))
        else Outcome([Write(pb, rewrite(read(pb).value))], Finished)
  {
    assert [b][0] == b && [b][1..] == [];
  }

  /** Two files are rewritten in order; a missing one stops the loop
      before anything more is written. */
  lemma ResetsTwo(dir: string, a: string, b: string, read: string -> Option<string>, rewrite: string -> string)
    ensures var o := Resets(dir, [a, b], read, rewrite);
      var pa := Paths.JoinPath(dir, a + ".js");
      var pb := Paths.JoinPath(dir, b + ".js");
      && (read(pa).None? ==> o == Outcome([], Threw(Missing(pa))))
      && (read(pa).Some? && read(pb).None? ==> o == Outcome([Write(pa, rewrite(read(pa).value))], Threw(Missing(pb))))
      && (read(pa).Some? && read(pb).Some? ==>
            o == Outcome([Write(pa, rewrite(read(pa).value)), Write(pb, rewrite(read(pb).value))], Finished))
  {
    var pa := Paths.JoinPath(dir, a + ".js");
    assert [a, b][0] == a && [a, b][1..] == [b];
    ResetsOne(dir, b, read, rewrite);
    var rb := Resets(dir, [b], read, rewrite);
    if read(pa).Some? {
      var wa := Write(pa, rewrite(read(pa).value));
      assert Resets(dir, [a, b], read, rewrite) == Outcome([wa] + rb.steps, rb.end);
    }
  }

  /** With `--reset` both prefs files are rewritten, `user.js` first,
      before anything else runs, and a missing one stops the script
      there. */
  lemma RunReset(profile: Profile, pkgName: string, email: string, resolved: string, platform: string,
                 read: string -> Option<string>, quote: seq<string> -> string, reading: Reading)
    ensures var o := Run(true, profile, pkgName, email, resolved, platform, read, quote, reading);
      var user := Paths.JoinPath(profile.dir, "user.js");
      var prefs := Paths.JoinPath(profile.dir, "prefs.js");
      && (read(user).None? ==> o == Outcome([], Threw(Missing(user))))
      && (read(user).Some? && read(prefs).None? ==> o == Outcome([Write(user, Rewritten(read(user).value))], Threw(Missing(prefs))))
      && (read(user).Some? && read(prefs).Some? ==>
            var launch := Launch(profile, pkgName, email, resolved, platform, quote, reading);
            o == Outcome([Write(user, Rewritten(read(user).value)), Write(prefs, Rewritten(read(prefs).value))] + launch.steps, launch.end))
  {
    assert FILES == ["user", "prefs"];
    assert "user" + ".js" == "user.js" && "prefs" + ".js" == "prefs.js";
    ResetsTwo(profile.dir, "user", "prefs", read, Rewritten);
  }

  /** Without `--reset` no prefs file is read or written: the only file
      written is the proxy file. */
  lemma RunNoReset(profile: Profile, pkgName: string, email: string, resolved: string, platform: string,
                   read: string -> Option<string>, quote: seq<string> -> string, reading: Reading)
    ensures var o := Run(false, profile, pkgName, email, resolved, platform, read, quote, reading);
      && o == Launch(profile, pkgName, email, resolved, platform, quote, reading)
      && forall k :: 0 <= k < |o.steps| && o.steps[k].Write? ==>
           o.steps[k].path == Paths.JoinPath(Paths.JoinPath(profile.dir, "extensions"), ProxyName(pkgName, email, reading))
  {
    var launch := Launch(profile, pkgName, email, resolved, platform, quote, reading);
    assert [] + launch.steps == launch.steps;
    LaunchWritesProxy(profile, pkgName, email, resolved, platform, quote, reading);
  }

  lemma LaunchWritesProxy(profile: Profile, pkgName: string, email: string, resolved: string, platform: string,
                          quote: seq<string> -> string, reading: Reading)
    ensures var steps := Launch(profile, pkgName, email, resolved, platform, quote, reading).steps;
      forall k :: 0 <= k < |steps| && steps[k].Write? ==>
        k == 3 && steps[k].path == Paths.JoinPath(Paths.JoinPath(profile.dir, "extensions"), ProxyName(pkgName, email, reading))
  {
    var steps := Launch(profile, pkgName, email, resolved, platform, quote, reading).steps;
    LaunchSteps(profile, pkgName, email, resolved, platform, quote, reading);
    LaunchEnd(profile, pkgName, email, resolved, platform, quote, reading);
    forall k | 0 <= k < |steps| && steps[k].Write?
      ensures k == 3 && steps[k].path == Paths.JoinPath(Paths.JoinPath(profile.dir, "extensions"), ProxyName(pkgName, email, reading))
    {
      assert k != 0 && k != 1 && k != 2 && k != 4;
    }
  }

  /** The launch builds, removes the installed copies, then writes the
      proxy file holding the build path. */
  lemma LaunchSteps(profile: Profile, pkgName: string, email: string, resolved: string, platform: string,
                    quote: seq<string> -> string, reading: Reading)
    ensures var o := Launch(profile, pkgName, email, resolved, platform, quote, reading);
      && |o.steps| >= 4 && o.steps[0] == Shell("npm run build")
      && o.steps[1] == Shell(quote(["rm", "-rf", Paths.JoinPath(profile.dir, "extensions.json")]))
      && o.steps[2] == Shell(quote(["rm", "-rf", Paths.JoinPath(profile.dir, "extensions")]) + Sep(platform) + pkgName + "*.xpi")
      && o.steps[3] == Write(Paths.JoinPath(Paths.JoinPath(profile.dir, "extensions"), ProxyName(pkgName, email, reading)),
                             Code(resolved, Sep(platform)))
      && EndsWith(o.steps[3].text, Sep(platform))
  {
    LaunchPrelude(profile, pkgName, email, resolved, platform, quote, reading);
  }

  /** The launch starts with the four prelude steps. */
  lemma LaunchPrelude(profile: Profile, pkgName: string, email: string, resolved: string, platform: string,
                      quote: seq<string> -> string, reading: Reading)
    ensures var o := Launch(profile, pkgName, email, resolved, platform, quote, reading);
      var p := Prelude(profile, pkgName, email, resolved, platform, quote, reading);
      |o.steps| >= 4 && o.steps[0] == p[0] && o.steps[1] == p[1] && o.steps[2] == p[2] && o.steps[3] == p[3]
  {
    var p := Prelude(profile, pkgName, email, resolved, platform, quote, reading);
    var tail := Launch(profile, pkgName, email, resolved, platform, quote, reading).steps[|p|..];
    PrefixIndex(p, tail);
  }

  lemma PrefixIndex(p: seq<Step>, tail: seq<Step>)
    ensures forall i :: 0 <= i < |p| ==> (p + tail)[i] == p[i]
  {
  }

  /** On Windows the launch exits with status 1 after the proxy file;
      elsewhere it ends by starting the platform's Zotero with the profile
      and the log. */
  lemma LaunchEnd(profile: Profile, pkgName: string, email: string, resolved: string, platform: string,
                  quote: seq<string> -> string, reading: Reading)
    ensures var o := Launch(profile, pkgName, email, resolved, platform, quote, reading);
      && (platform == "win32" <==> o.end == Exited(1) && |o.steps| == 4)
      && (platform != "win32" ==>
            && o.end == Finished && |o.steps| == 5
            && o.steps[4] == Shell(quote([Binary(platform).value, "-purgecaches", "-P", profile.name, "-jsconsole", "-ZoteroDebugText"])
                                   + " > " + quote([profile.log])))
  {
  }
}
