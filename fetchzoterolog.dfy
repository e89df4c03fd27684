/** `bin/fetch-zotero-log.py`: the older consumer of debug logs. It splits
    the log ID on `-`, insists on the `0x0` host, downloads the ZIP from
    0x0.com, checks that every member lives in a directory, and only then
    extracts all of them and removes the ZIP. */
module FetchZoteroLog {
  import opened Base
  import opened Strings
  import LogId

  /** The exceptions the script can end with. */
  datatype Error =
    | NoArgument                    // `sys.argv[1]` is missing: IndexError
    | Unpack(got: nat)              // the split gave `got` parts, not 3: ValueError
    | HostAssertion(arg: string)    // `assert host == '0x0', sys.argv[1]`
    | DownloadFailed(message: string)
    | BadMember(name: string)       // `raise ValueError(name)`

  /** Where the script fetches from and saves to. */
  datatype Target = Target(local: string, url: string, log: string)

  /** Lines 11-14. */
  function Parse(args: seq<string>): (r: Result<Target, Error>)
    ensures r.Ok? ==> |args| > 0 && |Split(args[0], '-')| == 3
  {
    if |args| == 0 then Err(NoArgument)
    else
      var parts := Split(args[0], '-');
      if |parts| != 3 then Err(Unpack(|parts|))
      else
        var local, host, remote := parts[0], parts[1], parts[2];
        if host != "0x0" then Err(HostAssertion(args[0]))
        else Ok(Target(local, "https://0x0.com/" + remote + ".zip", "logs/" + local + ".zip"))
  }

  /** The ID is accepted exactly when it has three `-`-separated parts, the
      middle one `0x0`; the parts are then the ID itself, cut at its two
      dashes, and name the URL and the save path. */
  lemma ParseSpec(args: seq<string>)
    ensures Parse(args).Ok? <==>
      |args| > 0 && |Split(args[0], '-')| == 3 && Split(args[0], '-')[1] == "0x0"
    ensures Parse(args).Ok? ==>
      var parts := Split(args[0], '-');
      var t := Parse(args).value;
      && args[0] == t.local + "-0x0-" + parts[2]
      && '-' !in t.local && '-' !in parts[2]
      && t.url == "https://0x0.com/" + parts[2] + ".zip"
      && t.log == "logs/" + t.local + ".zip"
  {
    if Parse(args).Ok? {
      var parts := Split(args[0], '-');
      JoinSplit(args[0], '-');
      assert parts[1..][1..] == [parts[2]];
      assert Join(parts[1..], "-") == parts[1] + "-" + parts[2];
    }
  }

  /** The ID a bundler reports for an upload to 0x0.st as `0x0-<remote>`
      splits into its key, the host and the remote followed by its tags: the
      legacy consumer keeps the tags in the URL it fetches, and asks 0x0.com
      rather than 0x0.st for it. */
  lemma ParseBundleId(key: string, remote: string, refs: bool, enc: bool)
    requires |key| > 0 && AllAlnum(key) && |remote| > 0 && AllAlnum(remote)
    ensures Parse([LogId.Format(key, "0x0-" + remote, refs, enc)])
         == Ok(Target(key, "https://0x0.com/" + remote + LogId.Tags(refs, enc) + ".zip", "logs/" + key + ".zip"))
  {
    BundleIdParts(key, remote, refs, enc);
    var parts := Split(LogId.Format(key, "0x0-" + remote, refs, enc), '-');
    assert parts[0] == key && parts[1] == "0x0" && parts[2] == remote + LogId.Tags(refs, enc);
    assert "https://0x0.com/" + parts[2] + ".zip" == "https://0x0.com/" + remote + LogId.Tags(refs, enc) + ".zip";
  }

  lemma BundleIdParts(key: string, remote: string, refs: bool, enc: bool)
    requires AllAlnum(key) && AllAlnum(remote)
    ensures Split(LogId.Format(key, "0x0-" + remote, refs, enc), '-') == [key, "0x0", remote + LogId.Tags(refs, enc)]
  {
    var parts := [key, "0x0", remote + LogId.Tags(refs, enc)];
    AlnumNoDash(key);
    TailNoDash(remote, refs, enc);
    assert forall k :: 0 <= k < |parts| ==> '-' !in parts[k];
    SplitJoin(parts, '-');
    FormatAsJoin(key, remote, refs, enc);
  }

  lemma FormatAsJoin(key: string, remote: string, refs: bool, enc: bool)
    ensures LogId.Format(key, "0x0-" + remote, refs, enc) == Join([key, "0x0", remote + LogId.Tags(refs, enc)], "-")
  {
    var tail := remote + LogId.Tags(refs, enc);
    var parts := [key, "0x0", tail];
    assert parts[1..][1..] == [tail];
    assert Join(parts[1..], "-") == "0x0" + "-" + tail;
    assert Join(parts, "-") == key + "-" + ("0x0" + "-" + tail);
  }

  lemma AlnumNoDash(s: string)
    requires AllAlnum(s)
    ensures '-' !in s
  {
    forall k | 0 <= k < |s| ensures s[k] != '-' {
      assert IsAsciiAlnum(s[k]);
    }
  }

  lemma TailNoDash(remote: string, refs: bool, enc: bool)
    requires AllAlnum(remote)
    ensures '-' !in remote + LogId.Tags(refs, enc)
  {
    AlnumNoDash(remote);
    assert '-' !in LogId.Tags(refs, enc);
  }

  /** The first member name without a `/`, the one line 23 raises on. */
  function FirstBad(names: seq<string>): (r: Option<string>)
    ensures r.Some? ==> r.value in names && '/' !in r.value
    ensures r.None? <==> forall k :: 0 <= k < |names| ==> '/' in names[k]
  {
    if |names| == 0 then None
    else if '/' !in names[0] then Some(names[0])
    else FirstBad(names[1..])
  }

  /** The loop of lines 22-24. */
  method CheckMembers(names: seq<string>) returns (bad: Option<string>)
    ensures bad == FirstBad(names)
  {
    var i := 0;
    while i < |names|
      invariant i <= |names|
      invariant FirstBad(names) == FirstBad(names[i..])
    {
      if '/' !in names[i] {
        return Some(names[i]);
      }
      assert names[i..][1..] == names[i + 1..];
      i := i + 1;
    }
    return None;
  }

  /** What the script leaves behind: the members extracted under `logs/`,
      whether it removed the ZIP, and the exception it ended with. */
  datatype Outcome = Outcome(extracted: seq<string>, zipRemoved: bool, error: Option<Error>)

  /** Retrieving the URL into the save path and opening it as a ZIP: its
      member names, or the message of the exception. */
  type Retrieve = (string, string) -> Result<seq<string>, string>

  function Run(args: seq<string>, retrieve: Retrieve): Outcome {
    match Parse(args)
    case Err(e) => Outcome([], false, Some(e))
    case Ok(t) =>
      match retrieve(t.url, t.log)
      case Err(message) => Outcome([], false, Some(DownloadFailed(message)))
      case Ok(names) =>
        match FirstBad(names)
        case Some(n) => Outcome([], false, Some(BadMember(n)))
        case None => Outcome(names, true, None)
  }

  /** The script, top to bottom. */
  method Fetch(args: seq<string>, retrieve: Retrieve) returns (o: Outcome)
    ensures o == Run(args, retrieve)
  {
    var parsed := Parse(args);
    if parsed.Err? {
      return Outcome([], false, Some(parsed.error));
    }
    var t := parsed.value;
    var got := retrieve(t.url, t.log);
    if got.Err? {
      return Outcome([], false, Some(DownloadFailed(got.error)));
    }
    var names := got.value;
    var bad := CheckMembers(names);
    if bad.Some? {
      return Outcome([], false, Some(BadMember(bad.value)));
    }
    o := Outcome(names, true, None);
  }

  /** All or nothing: the script ends without an exception exactly when the
      ID is good, the download works and every member is in a directory; it
      then extracts every member and removes the ZIP. Otherwise nothing is
      extracted and the ZIP stays. */
  lemma RunSpec(args: seq<string>, retrieve: Retrieve)
    ensures var o := Run(args, retrieve);
      && (o.error.None? <==>
            && Parse(args).Ok?
            && retrieve(Parse(args).value.url, Parse(args).value.log).Ok?
            && forall k :: 0 <= k < |retrieve(Parse(args).value.url, Parse(args).value.log).value| ==>
                 '/' in retrieve(Parse(args).value.url, Parse(args).value.log).value[k])
      && (o.error.None? ==> o.extracted == retrieve(Parse(args).value.url, Parse(args).value.log).value && o.zipRemoved)
      && (o.error.Some? ==> o.extracted == [] && !o.zipRemoved)
  {
  }

  /** One member outside a directory stops the run on the first such
      member, before anything is extracted. */
  lemma BadMemberStops(args: seq<string>, retrieve: Retrieve, k: nat)
    requires Parse(args).Ok?
    requires retrieve(Parse(args).value.url, Parse(args).value.log).Ok?
    requires var names := retrieve(Parse(args).value.url, Parse(args).value.log).value;
      k < |names| && '/' !in names[k]
    ensures var names := retrieve(Parse(args).value.url, Parse(args).value.log).value;
      var o := Run(args, retrieve);
      && o.extracted == [] && !o.zipRemoved
      && o.error.Some? && o.error.value.BadMember?
      && (exists m :: 0 <= m <= k && o.error.value.name == names[m] && '/' !in names[m]
            && forall j :: 0 <= j < m ==> '/' in names[j])
  {
    var names := retrieve(Parse(args).value.url, Parse(args).value.log).value;
    var m := FirstBadAt(names, k);
  }

  /** The first bad name sits at or before any bad name, after names that
      all have a `/`. */
  lemma {:induction false} FirstBadAt(names: seq<string>, k: nat) returns (m: nat)
    requires k < |names| && '/' !in names[k]
    ensures m <= k && FirstBad(names) == Some(names[m])
    ensures forall j :: 0 <= j < m ==> '/' in names[j]
  {
    if '/' !in names[0] {
      m := 0;
    } else {
      assert names[1..][k - 1] == names[k];
      var m' := FirstBadAt(names[1..], k - 1);
      m := m' + 1;
      forall j | 0 <= j < m ensures '/' in names[j] {
        if j > 0 { assert names[j] == names[1..][j - 1]; }
      }
    }
  }
}
