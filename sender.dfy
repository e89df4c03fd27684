/** The parts of `DebugLogSender` (debug-log.ts:129-327) that decide what is
    sent: `preferences`, the log assembly and the reading of the upload's
    answer in `sendAsync`. Zotero's state, the RDF export and the HTTP exchange
    are parameters. */
module DebugLogSender {
  import opened Base
  import opened Strings
  import opened JsText
  import opened Records
  import Order
  import LogId
  import DebugLog

  /** The number of console lines kept (debug-log.ts:204). */
  const CONSOLE_LINES: nat := 250000

  /** `lines.slice(-n)` for `n > 0`: the last `n` elements, or all of them. */
  function LastN<T>(lines: seq<T>, n: nat): (r: seq<T>)
    ensures |r| == if |lines| < n then |lines| else n
    ensures r == lines[|lines| - |r|..]
  {
    if |lines| <= n then lines else lines[|lines| - n..]
  }

  /** `filter((txt: string) => txt)`: drop the empty strings, keep the order. */
  function NonEmpty(parts: seq<string>): (r: seq<string>)
    ensures forall i :: 0 <= i < |r| ==> r[i] != ""
    ensures |r| <= |parts|
  {
    if |parts| == 0 then []
    else (if parts[0] == "" then [] else [parts[0]]) + NonEmpty(parts[1..])
  }

  /** The text of `debug.txt` (debug-log.ts:201-205). */
  function AssembleLog(info: string, errors: seq<string>, console: seq<string>): string {
    Trim(Join(NonEmpty([info, Join(errors, "\n\n"), Join(LastN(console, CONSOLE_LINES), "\n")]), "\n\n"))
  }

  /** The log is the trimmed info, errors and console tail, separated by blank
      lines, with the empty sections left out (and no stray separator), in
      each of the eight ways the sections can be empty. */
  lemma AssembleLogSections(info: string, errors: seq<string>, console: seq<string>)
    ensures var e, c := Join(errors, "\n\n"), Join(LastN(console, CONSOLE_LINES), "\n");
      var log := AssembleLog(info, errors, console);
      && (info != "" && e != "" && c != "" ==> log == Trim(info + "\n\n" + e + "\n\n" + c))
      && (info != "" && e != "" && c == "" ==> log == Trim(info + "\n\n" + e))
      && (info != "" && e == "" && c != "" ==> log == Trim(info + "\n\n" + c))
      && (info == "" && e != "" && c != "" ==> log == Trim(e + "\n\n" + c))
      && (info != "" && e == "" && c == "" ==> log == Trim(info))
      && (info == "" && e != "" && c == "" ==> log == Trim(e))
      && (info == "" && e == "" && c != "" ==> log == Trim(c))
      && (info == "" && e == "" && c == "" ==> log == "")
  {
    SectionsJoined(info, Join(errors, "\n\n"), Join(LastN(console, CONSOLE_LINES), "\n"));
  }

  /** Three sections joined by blank lines once the empty ones are dropped:
      exactly the non-empty ones, in order, one separator between each two. */
  lemma SectionsJoined(a: string, b: string, c: string)
    ensures a != "" && b != "" && c != "" ==> Join(NonEmpty([a, b, c]), "\n\n") == a + "\n\n" + b + "\n\n" + c
    ensures a != "" && b != "" && c == "" ==> Join(NonEmpty([a, b, c]), "\n\n") == a + "\n\n" + b
    ensures a != "" && b == "" && c != "" ==> Join(NonEmpty([a, b, c]), "\n\n") == a + "\n\n" + c
    ensures a == "" && b != "" && c != "" ==> Join(NonEmpty([a, b, c]), "\n\n") == b + "\n\n" + c
    ensures a != "" && b == "" && c == "" ==> Join(NonEmpty([a, b, c]), "\n\n") == a
    ensures a == "" && b != "" && c == "" ==> Join(NonEmpty([a, b, c]), "\n\n") == b
    ensures a == "" && b == "" && c != "" ==> Join(NonEmpty([a, b, c]), "\n\n") == c
    ensures a == "" && b == "" && c == "" ==> Join(NonEmpty([a, b, c]), "\n\n") == ""
  {
    var parts := [a, b, c];
    assert parts[1..] == [b, c] && [b, c][1..] == [c] && [c][1..] == [];
    assert NonEmpty([c]) == (if c == "" then [] else [c]);
    assert NonEmpty([b, c]) == (if b == "" then [] else [b]) + NonEmpty([c]);
    assert NonEmpty(parts) == (if a == "" then [] else [a]) + NonEmpty([b, c]);
    JoinSmall(a, b, c, "\n\n");
    JoinSmall(a, c, c, "\n\n");
    JoinSmall(b, c, c, "\n\n");
  }

  /** `join` of two and of three parts. */
  lemma JoinSmall(x: string, y: string, z: string, sep: string)
    ensures Join([x, y], sep) == x + sep + y
    ensures Join([x, y, z], sep) == x + sep + y + sep + z
  {
    assert [x, y][1..] == [y];
    assert [y, z][1..] == [z];
    assert [x, y, z][1..] == [y, z];
    assert Join([y, z], sep) == y + sep + z;
    assert Join([x, y, z], sep) == x + sep + (y + sep + z);
  }

  /** Filtering distributes over concatenation. */
  lemma {:induction false} NonEmptyAppend(a: seq<string>, b: seq<string>)
    ensures NonEmpty(a + b) == NonEmpty(a) + NonEmpty(b)
    decreases |a|
  {
    if |a| > 0 {
      assert (a + b)[0] == a[0] && (a + b)[1..] == a[1..] + b;
      NonEmptyAppend(a[1..], b);
    } else {
      assert a + b == b;
    }
  }

  /** A list without empty strings is kept as it is. */
  lemma {:induction false} NonEmptyKeepsAll(parts: seq<string>)
    ensures (forall i :: 0 <= i < |parts| ==> parts[i] != "") ==> NonEmpty(parts) == parts
    decreases |parts|
  {
    if |parts| > 0 {
      NonEmptyKeepsAll(parts[1..]);
      assert parts == [parts[0]] + parts[1..];
    }
  }

  /** The kept strings are exactly the non-empty ones of the list. */
  lemma {:induction false} NonEmptyMembers(parts: seq<string>)
    ensures forall x :: x in NonEmpty(parts) <==> x in parts && x != ""
    decreases |parts|
  {
    if |parts| > 0 {
      NonEmptyMembers(parts[1..]);
      assert parts == [parts[0]] + parts[1..];
      forall x ensures x in parts <==> x == parts[0] || x in parts[1..] {
      }
    }
  }

  /** Only the last 250000 console lines reach the log, in their order. */
  lemma ConsoleTail(console: seq<string>)
    ensures var t := LastN(console, CONSOLE_LINES);
      && |t| <= CONSOLE_LINES
      && (|console| <= CONSOLE_LINES ==> t == console)
      && t == console[|console| - |t|..]
  {
  }

  /** `https://0x0.st/([A-Z0-9]+)\.zip` with the `i` flag, tried at `i`: the
      unescaped `.` takes any character but a line terminator, and the greedy
      run can only succeed as the whole alphanumeric run before `.zip`. */
  function MatchAt(body: string, i: nat): (r: Option<string>)
    requires i <= |body|
    ensures r.Some? ==> |r.value| > 0 && AllAlnum(r.value)
  {
    if i + 15 <= |body| && Lower(body[i..i + 11]) == "https://0x0" && !IsLineTerminator(body[i + 11])
       && Lower(body[i + 12..i + 15]) == "st/" then
      var e := AlnumEnd(body, i + 15);
      if e > i + 15 && e + 4 <= |body| && Lower(body[e..e + 4]) == ".zip" then
        AlnumSlice(body, i + 15, e);
        Some(body[i + 15..e])
      else None
    else None
  }

  /** The leftmost match at or after `from`, and its capture. */
  function MatchFrom(body: string, from: nat): (r: Option<string>)
    requires from <= |body|
    ensures r.None? ==> forall i :: from <= i <= |body| ==> MatchAt(body, i).None?
    ensures r.Some? ==> exists i :: from <= i <= |body| && MatchAt(body, i) == r
                                    && forall j :: from <= j < i ==> MatchAt(body, j).None?
    decreases |body| - from
  {
    if MatchAt(body, from).Some? then MatchAt(body, from)
    else if from == |body| then None
    else
      var r := MatchFrom(body, from + 1);
      assert r.Some? ==> exists i :: from <= i <= |body| && MatchAt(body, i) == r
                                     && forall j :: from <= j < i ==> MatchAt(body, j).None? by {
        if r.Some? {
          var i :| from + 1 <= i <= |body| && MatchAt(body, i) == r
                   && forall j :: from + 1 <= j < i ==> MatchAt(body, j).None?;
          assert forall j :: from <= j < i ==> MatchAt(body, j).None?;
        }
      }
      r
  }

  /** `body.match(…)[1]`, `None` when there is no match (debug-log.ts:220). */
  function ExtractRemote(body: string): (r: Option<string>)
    ensures r.Some? ==> |r.value| > 0 && AllAlnum(r.value)
  {
    MatchFrom(body, 0)
  }

  /** The answer 0x0.st gives, `https://0x0.st/<R>.zip` and anything after, is
      read back as `R`. */
  lemma ExtractUploadUrl(r: string, rest: string)
    requires |r| > 0 && AllAlnum(r)
    ensures ExtractRemote("https://0x0.st/" + r + ".zip" + rest) == Some(r)
  {
    UploadUrlMatches(r, rest);
  }

  lemma UploadUrlMatches(r: string, rest: string)
    requires |r| > 0 && AllAlnum(r)
    ensures MatchAt("https://0x0.st/" + r + ".zip" + rest, 0) == Some(r)
  {
    var body := "https://0x0.st/" + r + ".zip" + rest;
    assert body[..11] == "https://0x0";
    LowerNoCapitals("https://0x0");
    assert body[11] == '.';
    assert body[12..15] == "st/";
    LowerNoCapitals("st/");
    forall j | 15 <= j < 15 + |r| ensures IsAsciiAlnum(body[j]) {
      assert body[j] == r[j - 15];
    }
    assert body[15 + |r|] == '.';
    AlnumEndIs(body, 15, 15 + |r|);
    assert body[15..15 + |r|] == r;
    assert body[15 + |r|..15 + |r| + 4] == ".zip";
    LowerNoCapitals(".zip");
  }

  /** The prompt `sendAsync` shows at the end. */
  datatype Alert = Alert(title: string, message: string)

  /** The outcome of the upload: `response` is the body of the answer, or the
      message of the error `fetch` threw. */
  function Reply(plugin: string, key: string, refs: bool, encrypted: bool, response: Result<string, string>): Alert {
    match response
    case Err(message) => Alert("Could not post debug log for " + plugin, message)
    case Ok(body) =>
      match ExtractRemote(body)
      case None => Alert("Could not post debug log for " + plugin, body)
      case Some(r) => Alert("Debug log ID for " + plugin, LogId.Format(key, "0x0-" + r, refs, encrypted))
  }

  /** A successful upload shows an ID from which `fetch-log` recovers the key,
      the host, the upload name and whether the log is encrypted; a failed one
      shows the server's answer or the error. */
  lemma ReplySpec(plugin: string, key: string, refs: bool, encrypted: bool, response: Result<string, string>)
    requires |key| > 0 && AllAlnum(key)
    ensures var a := Reply(plugin, key, refs, encrypted, response);
      && (response.Ok? && ExtractRemote(response.value).Some? ==>
            && a.title == "Debug log ID for " + plugin
            && LogId.Parse(a.message) == Some(LogId.Parts(key, "0x0", ExtractRemote(response.value).value, LogId.Tags(refs, encrypted)))
            && LogId.Encrypted(LogId.Parse(a.message).value.tags) == encrypted)
      && (response.Ok? && ExtractRemote(response.value).None? ==>
            a == Alert("Could not post debug log for " + plugin, response.value))
      && (response.Err? ==> a == Alert("Could not post debug log for " + plugin, response.error))
  {
    if response.Ok? && ExtractRemote(response.value).Some? {
      LogId.RoundTrip(key, ExtractRemote(response.value).value, refs, encrypted);
    }
  }

  /** The calls `sendAsync` makes: `debug.txt` always, then `items.rdf` with
      `refs` set when the export is non-empty. */
  function Additions(log: string, rdf: string, ivLog: DebugLog.Iv, ivRdf: DebugLog.Iv): seq<DebugLog.AddCall> {
    [DebugLog.AddCall("debug.txt", log, false, ivLog)]
      + (if rdf != "" then [DebugLog.AddCall("items.rdf", rdf, true, ivRdf)] else [])
  }

  /** The state after the calls of `sendAsync`, one `add` at a time. */
  lemma ReplayAdditions(key: string, pubkey: string, crypto: DebugLog.Crypto, freshKey: seq<byte>,
                        log: string, rdf: string, ivLog: DebugLog.Iv, ivRdf: DebugLog.Iv)
    ensures var s1 := DebugLog.Added(key, pubkey, crypto, DebugLog.Contents(false, None, map[]), "debug.txt", log, false, freshKey, ivLog);
      DebugLog.Replay(key, pubkey, crypto, freshKey, Additions(log, rdf, ivLog, ivRdf))
        == if rdf != "" then DebugLog.Added(key, pubkey, crypto, s1, "items.rdf", rdf, true, freshKey, ivRdf) else s1
  {
    var calls := Additions(log, rdf, ivLog, ivRdf);
    var s0 := DebugLog.Contents(false, None, map[]);
    assert calls[..1][..0] == [];
    assert DebugLog.Replay(key, pubkey, crypto, freshKey, calls[..1])
      == DebugLog.Added(key, pubkey, crypto, DebugLog.Replay(key, pubkey, crypto, freshKey, calls[..1][..0]),
                        "debug.txt", log, false, freshKey, ivLog);
    if rdf != "" {
      assert calls[..|calls| - 1] == calls[..1];
    } else {
      assert calls == calls[..1];
    }
  }

  /** `sendAsync(plugin, preferences, pubkey)`, after `info(preferences)` has
      been rendered. `objectKey`, `freshKey` and the IVs are the random values
      drawn; `rdf` is the export of the selected items. */
  method SendAsync(plugin: string, pubkey: string, crypto: DebugLog.Crypto, objectKey: string,
                   info: string, errors: seq<string>, console: seq<string>, rdf: string,
                   response: Result<string, string>, freshKey: seq<byte>, ivLog: DebugLog.Iv, ivRdf: DebugLog.Iv)
    returns (bundler: DebugLog.Bundler, alert: Alert)
    ensures fresh(bundler) && bundler.Valid()
    ensures bundler.key == objectKey && bundler.pubkey == pubkey
    ensures bundler.State() == DebugLog.Replay(objectKey, pubkey, crypto, freshKey,
                                                Additions(AssembleLog(info, errors, console), rdf, ivLog, ivRdf))
    ensures alert == Reply(plugin, objectKey, bundler.refs, pubkey != "", response)
  {
    bundler := new DebugLog.Bundler(objectKey, pubkey, crypto);
    var log := AssembleLog(info, errors, console);
    ReplayAdditions(objectKey, pubkey, crypto, freshKey, log, rdf, ivLog, ivRdf);
    bundler.Add("debug.txt", log, false, freshKey, ivLog);
    if rdf != "" {
      bundler.Add("items.rdf", rdf, true, freshKey, ivRdf);
    }
    match response {
      case Err(message) =>
        alert := Alert("Could not post debug log for " + plugin, message);
      case Ok(body) =>
        var id := ExtractRemote(body);
        if id.None? {
          alert := Alert("Could not post debug log for " + plugin, body);
        } else {
          alert := Alert("Debug log ID for " + plugin, bundler.Id("0x0-" + id.value));
        }
    }
  }

  /** The refs flag of the bundle is set exactly when items were exported. */
  lemma AdditionsRefs(key: string, pubkey: string, crypto: DebugLog.Crypto, freshKey: seq<byte>,
                      log: string, rdf: string, ivLog: DebugLog.Iv, ivRdf: DebugLog.Iv)
    ensures DebugLog.Replay(key, pubkey, crypto, freshKey, Additions(log, rdf, ivLog, ivRdf)).refs == (rdf != "")
  {
    ReplayAdditions(key, pubkey, crypto, freshKey, log, rdf, ivLog, ivRdf);
  }

  /** The root of Zotero's own preferences (debug-log.ts:127). */
  const ZOTERO_PREFS_ROOT := "extensions.zotero."

  /** A requested name as `preferences` rewrites it: a leading `:` is dropped
      and the rest used verbatim, otherwise the Zotero root is put in front
      unless already there. */
  function Normalize(pref: string): string {
    if |pref| > 0 && pref[0] == ':' then pref[1..]
    else if StartsWith(pref, ZOTERO_PREFS_ROOT) then pref
    else ZOTERO_PREFS_ROOT + pref
  }

  /** A name without the colon escape ends up under the Zotero root, ends with
      what was asked for, and is left alone by a second normalisation; the
      escape is removed and nothing added. */
  lemma NormalizeSpec(pref: string)
    ensures !(|pref| > 0 && pref[0] == ':') ==>
      && StartsWith(Normalize(pref), ZOTERO_PREFS_ROOT)
      && EndsWith(Normalize(pref), pref)
      && Normalize(Normalize(pref)) == Normalize(pref)
    ensures Normalize(":" + pref) == pref
  {
    var n := Normalize(pref);
    if !(|pref| > 0 && pref[0] == ':') {
      if !StartsWith(pref, ZOTERO_PREFS_ROOT) {
        assert n[..|ZOTERO_PREFS_ROOT|] == ZOTERO_PREFS_ROOT;
        assert n[|n| - |pref|..] == pref;
      }
      assert n[0] == 'e';
    }
    assert (":" + pref)[1..] == pref;
  }

  /** The names one requested entry stands for: a name ending in `.` is a
      branch and stands for its children (`children` is `getChildList`). */
  function Expand(pref: string, children: string -> seq<string>): seq<string> {
    var p := Normalize(pref);
    if EndsWith(p, ".") then seq(|children(p)|, k requires 0 <= k < |children(p)| => p + children(p)[k])
    else [p]
  }

  /** The `names` array after the first loop of `preferences` (debug-log.ts:233-249). */
  function Requested(preferences: seq<string>, children: string -> seq<string>): seq<string> {
    if |preferences| == 0 then []
    else Requested(preferences[..|preferences| - 1], children) + Expand(preferences[|preferences| - 1], children)
  }

  /** Every requested name is a normalised request or a child of a normalised
      branch, and every such name is requested. */
  lemma RequestedSpec(preferences: seq<string>, children: string -> seq<string>, name: string)
    ensures name in Requested(preferences, children) <==>
      exists i :: 0 <= i < |preferences| && name in Expand(preferences[i], children)
  {
    if name in Requested(preferences, children) {
      var i := RequestedFrom(preferences, children, name);
    }
    forall i | 0 <= i < |preferences| && name in Expand(preferences[i], children)
      ensures name in Requested(preferences, children)
    {
      RequestedCovers(preferences, children, i, name);
    }
  }

  lemma {:induction false} RequestedFrom(preferences: seq<string>, children: string -> seq<string>, name: string)
    returns (i: nat)
    requires name in Requested(preferences, children)
    ensures i < |preferences| && name in Expand(preferences[i], children)
  {
    var init := preferences[..|preferences| - 1];
    if name in Requested(init, children) {
      i := RequestedFrom(init, children, name);
      assert preferences[i] == init[i];
    } else {
      i := |preferences| - 1;
    }
  }

  lemma {:induction false} RequestedCovers(preferences: seq<string>, children: string -> seq<string>, i: nat, name: string)
    requires i < |preferences| && name in Expand(preferences[i], children)
    ensures name in Requested(preferences, children)
  {
    var init := preferences[..|preferences| - 1];
    var last := Expand(preferences[|preferences| - 1], children);
    assert Requested(preferences, children) == Requested(init, children) + last;
    if i < |init| {
      assert init[i] == preferences[i];
      RequestedCovers(init, children, i, name);
    } else {
      assert name in last;
    }
  }

  /** `preferences(preferences)`: the values of the requested names, read
      with `get` in sorted name order into a fresh object. */
  method Preferences<V>(preferences: seq<string>, children: string -> seq<string>, get: string -> V)
    returns (prefs: Record<V>)
    ensures forall i, j :: 0 <= i < j < |prefs| ==> Order.LexLe(prefs[i].0, prefs[j].0) && prefs[i].0 != prefs[j].0
    ensures forall name :: name in Keys(prefs) <==> name in Requested(preferences, children)
    ensures forall i :: 0 <= i < |prefs| ==> prefs[i].1 == get(prefs[i].0)
  {
    var names := CollectNames(preferences, children);
    prefs := ReadSorted(names, get);
  }

  /** The first loop of `preferences`: the requested names, branches expanded
      to their children, in request order. */
  method CollectNames(preferences: seq<string>, children: string -> seq<string>) returns (names: seq<string>)
    ensures names == Requested(preferences, children)
  {
    names := [];
    for i := 0 to |preferences|
      invariant names == Requested(preferences[..i], children)
    {
      var pref := preferences[i];
      if |pref| > 0 && pref[0] == ':' {
        pref := pref[1..];
      } else if !StartsWith(pref, ZOTERO_PREFS_ROOT) {
        pref := ZOTERO_PREFS_ROOT + pref;
      }
      assert pref == Normalize(preferences[i]);
      RequestedStep(preferences, children, i);
      if EndsWith(pref, ".") {
        var childNames := ChildNames(pref, children(pref));
        assert childNames == Expand(preferences[i], children);
        names := names + childNames;
      } else {
        assert [pref] == Expand(preferences[i], children);
        names := names + [pref];
      }
    }
    assert preferences[..|preferences|] == preferences;
  }

  lemma RequestedStep(preferences: seq<string>, children: string -> seq<string>, i: nat)
    requires i < |preferences|
    ensures Requested(preferences[..i + 1], children) == Requested(preferences[..i], children) + Expand(preferences[i], children)
  {
    assert preferences[..i + 1][..i] == preferences[..i];
  }

  /** The inner loop over `getChildList(pref)`: each child's full name. */
  method ChildNames(pref: string, childkeys: seq<string>) returns (names: seq<string>)
    ensures |names| == |childkeys|
    ensures forall k :: 0 <= k < |childkeys| ==> names[k] == pref + childkeys[k]
  {
    names := [];
    for j := 0 to |childkeys|
      invariant |names| == j
      invariant forall k :: 0 <= k < j ==> names[k] == pref + childkeys[k]
    {
      names := names + [pref + childkeys[j]];
    }
  }

  /** After `j` names of `sorted`: strictly increasing unique keys, exactly the
      names seen, the last one put last, each with the value `get` reads. */
  ghost predicate FilledUpTo<V>(prefs: Record<V>, sorted: seq<string>, j: nat, get: string -> V)
    requires j <= |sorted|
  {
    && UniqueKeys(prefs)
    && (forall a, b :: 0 <= a < b < |prefs| ==> Order.LexLe(prefs[a].0, prefs[b].0) && prefs[a].0 != prefs[b].0)
    && (forall name :: name in Keys(prefs) <==> name in sorted[..j])
    && (j > 0 ==> |prefs| > 0 && prefs[|prefs| - 1].0 == sorted[j - 1])
    && (forall a :: 0 <= a < |prefs| ==> prefs[a].1 == get(prefs[a].0))
  }

  lemma FillStep<V>(prefs: Record<V>, sorted: seq<string>, j: nat, get: string -> V)
    requires Order.Sorted(sorted) && j < |sorted|
    requires FilledUpTo(prefs, sorted, j, get)
    ensures FilledUpTo(Put(prefs, sorted[j], get(sorted[j])), sorted, j + 1, get)
  {
    var name := sorted[j];
    PutSpec(prefs, name, get(name));
    var t := Put(prefs, name, get(name));
    assert sorted[..j + 1] == sorted[..j] + [name];
    if name in Keys(prefs) {
      LastKeyIsName(prefs, sorted, j);
      PutPresent(prefs, name, get(name));
    } else {
      forall a | 0 <= a < |prefs| ensures Order.LexLe(prefs[a].0, name) {
        assert prefs[a].0 in Keys(prefs);
        var m :| 0 <= m < j && sorted[m] == prefs[a].0;
      }
      assert t == prefs + [(name, get(name))] by {
        PositionAbsent(prefs, name, 0);
      }
    }
  }

  /** Re-assigning the last key replaces its entry in place. */
  lemma PutPresent<V>(prefs: Record<V>, k: string, v: V)
    requires UniqueKeys(prefs) && |prefs| > 0 && prefs[|prefs| - 1].0 == k
    ensures Put(prefs, k, v) == prefs[|prefs| - 1 := (k, v)]
  {
    PositionIs(prefs, k, 0, |prefs| - 1);
  }

  /** The second loop of `preferences`: `names.sort()`, then each name's value
      assigned to the result object. */
  method ReadSorted<V>(names: seq<string>, get: string -> V) returns (prefs: Record<V>)
    ensures forall i, j :: 0 <= i < j < |prefs| ==> Order.LexLe(prefs[i].0, prefs[j].0) && prefs[i].0 != prefs[j].0
    ensures forall name :: name in Keys(prefs) <==> name in names
    ensures forall i :: 0 <= i < |prefs| ==> prefs[i].1 == get(prefs[i].0)
  {
    var sorted := Order.Sort(names);
    prefs := [];
    for j := 0 to |sorted|
      invariant FilledUpTo(prefs, sorted, j, get)
    {
      FillStep(prefs, sorted, j, get);
      prefs := Put(prefs, sorted[j], get(sorted[j]));
    }
    assert sorted[..|sorted|] == sorted;
    forall name ensures name in sorted <==> name in names {
      assert name in sorted <==> name in multiset(sorted);
      assert name in names <==> name in multiset(names);
    }
  }

  /** A name met again in sorted order is the one put last. */
  lemma LastKeyIsName<V>(prefs: Record<V>, sorted: seq<string>, j: nat)
    requires Order.Sorted(sorted) && 0 < j < |sorted|
    requires forall name :: name in Keys(prefs) <==> name in sorted[..j]
    requires |prefs| > 0 && prefs[|prefs| - 1].0 == sorted[j - 1]
    requires sorted[j] in Keys(prefs)
    ensures sorted[j] == sorted[j - 1]
  {
    var m :| 0 <= m < j && sorted[m] == sorted[j];
    if m < j - 1 {
      Order.LexLeTransitive(sorted[j], sorted[j - 1], sorted[j]);
      assert Order.LexLe(sorted[m], sorted[j - 1]);
    }
    assert Order.LexLe(sorted[j - 1], sorted[j]);
    Order.LexLeReflexive(sorted[j]);
    Order.LexLeAntisymmetric(sorted[j - 1], sorted[j]);
  }
}
